/** The HTML tree the converter builds: `LeafNode` and `ParentNode` and their
    `to_html` rendering. The module defining them is not part of this model;
    what is written here is reconstructed from its tests alone
    (src/test_leafnode.py, src/test_parentnode.py). Attributes are an ordered
    list of pairs, as a Python dict iterates in insertion order. Nothing is
    escaped: text and attribute values are copied into the output as they are. */
module HtmlNodes {
  import opened Wrappers

  type Props = seq<(string, string)>

  /** A parent's children: Python `None` or a list. */
  datatype ChildList = Absent | Present(nodes: seq<HtmlNode>)

  datatype HtmlNode =
    | Leaf(tag: Option<string>, value: Option<string>, props: Props)
    | Parent(tag: Option<string>, children: ChildList, props: Props)

  /** ` key="value"` for every attribute, in order. */
  function PropsToHtml(props: Props): string {
    if props == [] then ""
    else " " + props[0].0 + "=\"" + props[0].1 + "\"" + PropsToHtml(props[1..])
  }

  /** `<tag attrs>inner</tag>`. */
  function Element(tag: string, props: Props, inner: string): string {
    "<" + tag + PropsToHtml(props) + ">" + inner + "</" + tag + ">"
  }

  /** `to_html`: a leaf needs a value, a parent needs a non-empty tag and a
      children list, and every descendant must render. */
  function ToHtml(n: HtmlNode): Result<string>
    decreases n, 1
  {
    match n
    case Leaf(tag, value, props) =>
      if value.None? then Err(MissingValue)
      else if tag.None? then Ok(value.value)
      else Ok(Element(tag.value, props, value.value))
    case Parent(tag, children, props) =>
      if tag.None? || tag.value == "" then Err(MissingTag)
      else match children
        case Absent => Err(MissingChildren)
        case Present(cs) =>
          var inner :- ChildrenToHtml(cs);
          Ok(Element(tag.value, props, inner))
  }

  /** The renderings of the children, concatenated in order. */
  function ChildrenToHtml(cs: seq<HtmlNode>): Result<string>
    decreases cs, 0
  {
    if cs == [] then Ok("")
    else
      var head :- ToHtml(cs[0]);
      var tail :- ChildrenToHtml(cs[1..]);
      Ok(head + tail)
  }

  /** Every leaf has a value; every parent has a non-empty tag and a list of
      well-formed children. */
  predicate WellFormed(n: HtmlNode)
    decreases n, 1
  {
    match n
    case Leaf(_, value, _) => value.Some?
    case Parent(tag, children, _) =>
      tag.Some? && tag.value != "" && children.Present? && AllWellFormed(children.nodes)
  }

  predicate AllWellFormed(cs: seq<HtmlNode>)
    decreases cs, 0
  {
    forall i :: 0 <= i < |cs| ==> WellFormed(cs[i])
  }

  /** Rendering succeeds exactly on well-formed trees. */
  lemma {:induction false} RenderOkIffWellFormed(n: HtmlNode)
    ensures ToHtml(n).Ok? <==> WellFormed(n)
    decreases n, 1
  {
    match n
    case Leaf(_, _, _) =>
    case Parent(tag, children, _) =>
      if children.Present? {
        ChildrenRenderOkIffWellFormed(children.nodes);
      }
  }

  lemma {:induction false} ChildrenRenderOkIffWellFormed(cs: seq<HtmlNode>)
    ensures ChildrenToHtml(cs).Ok? <==> AllWellFormed(cs)
    decreases cs, 0
  {
    if cs != [] {
      RenderOkIffWellFormed(cs[0]);
      ChildrenRenderOkIffWellFormed(cs[1..]);
      assert AllWellFormed(cs) <==> WellFormed(cs[0]) && AllWellFormed(cs[1..]) by {
        assert forall i :: 1 <= i < |cs| ==> cs[i] == cs[1..][i - 1];
      }
    }
  }

  /** Attributes render one after another: the rendering of a concatenation
      is the concatenation of the renderings. */
  lemma {:induction false} PropsToHtmlAppend(p: Props, q: Props)
    ensures PropsToHtml(p + q) == PropsToHtml(p) + PropsToHtml(q)
  {
    if p != [] {
      assert (p + q)[0] == p[0];
      assert (p + q)[1..] == p[1..] + q;
      PropsToHtmlAppend(p[1..], q);
      var head := " " + p[0].0 + "=\"" + p[0].1 + "\"";
      assert PropsToHtml(p) == head + PropsToHtml(p[1..]);
      assert PropsToHtml(p + q) == head + PropsToHtml(p[1..] + q);
      assert head + (PropsToHtml(p[1..]) + PropsToHtml(q)) == (head + PropsToHtml(p[1..])) + PropsToHtml(q);
    } else {
      assert p + q == q;
    }
  }

  /** A single attribute renders as ` key="value"`. */
  lemma PropsToHtmlSingle(key: string, value: string)
    ensures PropsToHtml([(key, value)]) == " " + key + "=\"" + value + "\""
  {
    var ps := [(key, value)];
    assert ps[1..] == [];
    assert PropsToHtml(ps[1..]) == "";
  }

  /** Children render one after another, and a list renders exactly when both
      of its parts do. */
  lemma {:induction false} ChildrenToHtmlAppend(a: seq<HtmlNode>, b: seq<HtmlNode>)
    ensures ChildrenToHtml(a + b).Ok? <==> ChildrenToHtml(a).Ok? && ChildrenToHtml(b).Ok?
    ensures ChildrenToHtml(a + b).Ok? ==>
              ChildrenToHtml(a + b).value == ChildrenToHtml(a).value + ChildrenToHtml(b).value
    decreases |a|
  {
    if a == [] {
      assert a + b == b;
    } else {
      assert (a + b)[0] == a[0];
      assert (a + b)[1..] == a[1..] + b;
      ChildrenToHtmlAppend(a[1..], b);
    }
  }

  // ---------------------------------------------------------------------
  // The behaviour the tests pin down

  /** src/test_leafnode.py: a tagged leaf, a raw-text leaf and a leaf without a value. */
  lemma LeafExamples()
    ensures ToHtml(Leaf(Some("p"), Some("Hello, world!"), [])) == Ok("<p>Hello, world!</p>")
    ensures ToHtml(Leaf(None, Some("Just raw text"), [])) == Ok("Just raw text")
    ensures ToHtml(Leaf(Some("p"), None, [])) == Err(MissingValue)
  {
    assert "<" + "p" + "" + ">" + "Hello, world!" == "<p>Hello, world!";
    assert "<p>Hello, world!" + "</" + "p" + ">" == "<p>Hello, world!</p>";
  }

  /** src/test_parentnode.py: a parent with one leaf child. */
  lemma ParentExample()
    ensures ToHtml(Parent(Some("div"), Present([Leaf(Some("span"), Some("child"), [])]), []))
         == Ok("<div><span>child</span></div>")
  {
    var span := Leaf(Some("span"), Some("child"), []);
    SpanLeaf();
    OnlyChild("div", [], span);
    DivAroundSpan();
  }

  /** The child of that example renders on its own. */
  lemma SpanLeaf()
    ensures ToHtml(Leaf(Some("span"), Some("child"), [])) == Ok("<span>child</span>")
  {
    assert "<" + "span" + "" + ">" + "child" == "<span>child";
    assert "<span>child" + "</" + "span" + ">" == "<span>child</span>";
  }

  /** The parent of that example wraps the child's rendering in `div`. */
  lemma DivAroundSpan()
    ensures Element("div", [], "<span>child</span>") == "<div><span>child</span></div>"
  {
    assert "<" + "div" + "" + ">" + "<span>child</span>" == "<div><span>child</span>";
    assert "<div><span>child</span>" + "</" + "div" + ">" == "<div><span>child</span></div>";
  }

  /** src/test_parentnode.py: a parent without a tag, and one without a
      children list, fail. */
  lemma ParentFailures()
    ensures ToHtml(Parent(None, Present([Leaf(Some("span"), Some("child"), [])]), [])) == Err(MissingTag)
    ensures ToHtml(Parent(Some("div"), Absent, [])) == Err(MissingChildren)
  { }

  /** src/test_parentnode.py: a parent with an empty children list. */
  lemma EmptyParent()
    ensures ToHtml(Parent(Some("div"), Present([]), [])) == Ok("<div></div>")
  {
    assert "<" + "div" + "" + ">" + "" + "</" + "div" + ">" == "<div></div>";
  }

  /** A parent with one child wraps that child's rendering in its tag. */
  lemma OnlyChild(tag: string, props: Props, child: HtmlNode)
    requires tag != "" && ToHtml(child).Ok?
    ensures ToHtml(Parent(Some(tag), Present([child]), props)) == Ok(Element(tag, props, ToHtml(child).value))
  {
    var cs := [child];
    assert cs[0] == child && cs[1..] == [];
    assert ChildrenToHtml(cs[1..]) == Ok("");
    assert ToHtml(child).value + "" == ToHtml(child).value;
  }
}
