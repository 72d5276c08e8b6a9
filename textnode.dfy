/** Typed spans of inline text and their conversion to HTML leaves.

    The module defining `TextNode` and `text_node_to_html_node` is not part of
    this model; what is written here is reconstructed from its tests alone
    (src/test_textnode.py). Equality of spans is structural: text, type and url
    all take part, and a missing url differs from every present one. */
module TextNodes {
  import opened Wrappers
  import opened HtmlNodes

  datatype TextType = Text | Bold | Italic | Code | Link | Image

  datatype TextNode = TextNode(text: string, textType: TextType, url: Option<string>)

  /** A span carries the url its type calls for: links and images have one. */
  predicate HasUrlIfNeeded(n: TextNode) {
    (n.textType == Link || n.textType == Image) ==> n.url.Some?
  }

  /** `text_node_to_html_node`: every span becomes a leaf. Plain text has no
      tag, bold/italic/code become `b`/`i`/`code`, a link an `a` with its
      `href`, an image an empty `img` with `src` and `alt`. */
  function TextNodeToHtmlNode(n: TextNode): (h: HtmlNode)
    requires HasUrlIfNeeded(n)
    ensures h.Leaf? && WellFormed(h)
    ensures h.tag.None? <==> n.textType == Text
    ensures n.textType != Image ==> h.value == Some(n.text)
    ensures n.textType == Image ==> h.value == Some("") && h.props == [("src", n.url.value), ("alt", n.text)]
    ensures n.textType == Link ==> h.props == [("href", n.url.value)]
    ensures n.textType !in {Link, Image} ==> h.props == []
  {
    match n.textType
    case Text => Leaf(None, Some(n.text), [])
    case Bold => Leaf(Some("b"), Some(n.text), [])
    case Italic => Leaf(Some("i"), Some(n.text), [])
    case Code => Leaf(Some("code"), Some(n.text), [])
    case Link => Leaf(Some("a"), Some(n.text), [("href", n.url.value)])
    case Image => Leaf(Some("img"), Some(""), [("src", n.url.value), ("alt", n.text)])
  }

  /** A converted span always renders; plain text renders as itself and a
      formatted span wraps its text in its tag. */
  lemma TextNodeRenders(n: TextNode)
    requires HasUrlIfNeeded(n)
    ensures ToHtml(TextNodeToHtmlNode(n)).Ok?
    ensures n.textType == Text ==> ToHtml(TextNodeToHtmlNode(n)) == Ok(n.text)
    ensures n.textType == Bold ==> ToHtml(TextNodeToHtmlNode(n)) == Ok("<b>" + n.text + "</b>")
  {
    RenderOkIffWellFormed(TextNodeToHtmlNode(n));
    if n.textType == Bold {
      assert "<" + "b" + "" + ">" + n.text + "</" + "b" + ">" == "<b>" + n.text + "</b>";
    }
  }

  /** src/test_textnode.py: the tag, value and attributes of each kind of span. */
  lemma TextNodeExamples()
    ensures TextNodeToHtmlNode(TextNode("This is a text node", Text, None)).tag == None
    ensures TextNodeToHtmlNode(TextNode("This is a text node", Text, None)).value == Some("This is a text node")
    ensures TextNodeToHtmlNode(TextNode("Bold text", Bold, None)).tag == Some("b")
    ensures TextNodeToHtmlNode(TextNode("Italic text", Italic, None)).tag == Some("i")
    ensures TextNodeToHtmlNode(TextNode("print('hello')", Code, None)).tag == Some("code")
    ensures TextNodeToHtmlNode(TextNode("print('hello')", Code, None)).value == Some("print('hello')")
    ensures TextNodeToHtmlNode(TextNode("Click here", Link, Some("https://example.com"))).tag == Some("a")
    ensures TextNodeToHtmlNode(TextNode("Click here", Link, Some("https://example.com"))).props
         == [("href", "https://example.com")]
    ensures TextNodeToHtmlNode(TextNode("Alt text", Image, Some("https://example.com/image.jpg"))).tag == Some("img")
    ensures TextNodeToHtmlNode(TextNode("Alt text", Image, Some("https://example.com/image.jpg"))).value == Some("")
    ensures TextNodeToHtmlNode(TextNode("Alt text", Image, Some("https://example.com/image.jpg"))).props
         == [("src", "https://example.com/image.jpg"), ("alt", "Alt text")]
  {
  }
}
