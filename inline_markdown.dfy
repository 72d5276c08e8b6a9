/** The inline tokenizer of src/inline_markdown.py: one line of markdown
    becomes a list of typed spans.

    The two regular expressions are modelled as scanners. A greedy negated
    character class followed by the character that ends it cannot backtrack
    to a shorter run, so each pattern matches at a position in at most one
    way; `re.findall` tries positions left to right and resumes after each
    match. */
module InlineMarkdown {
  import opened Wrappers
  import opened Strings
  import opened TextNodes

  // ---------------------------------------------------------------------
  // The two patterns

  datatype MarkupKind = ImageMarkup | LinkMarkup

  /** One match: where it starts and ends, and its two captured groups. */
  datatype Match = Match(start: nat, text: string, url: string, end: nat)

  /** `t` contains neither `a` nor `b`. */
  predicate Free(t: string, a: char, b: char) {
    forall k :: 0 <= k < |t| ==> t[k] != a && t[k] != b
  }

  /** The markup a match stands for: `[text](url)`, with a leading `!` for an image. */
  function Markup(kind: MarkupKind, text: string, url: string): string {
    if kind == ImageMarkup then "!" + Bracketed(text, url) else Bracketed(text, url)
  }

  function Bracketed(text: string, url: string): string {
    "[" + text + "](" + url + ")"
  }

  /** The end of the longest run starting at `i` of characters other than `a` and `b`. */
  function RunEnd(s: string, i: nat, a: char, b: char): (j: nat)
    requires i <= |s|
    ensures i <= j <= |s|
    ensures Free(s[i..j], a, b)
    ensures j < |s| ==> s[j] == a || s[j] == b
    decreases |s| - i
  {
    if i == |s| || s[i] == a || s[i] == b then i else RunEnd(s, i + 1, a, b)
  }

  /** `\[([^\[\]]*)\]\(([^\(\)]*)\)` tried at position `i`. */
  function BracketAt(s: string, i: nat): (r: Option<Match>)
    ensures r.Some? ==> r.value.start == i < r.value.end <= |s|
  {
    if i < |s| && s[i] == '[' then
      var j := RunEnd(s, i + 1, '[', ']');
      if j + 1 < |s| && s[j] == ']' && s[j + 1] == '(' then
        var k := RunEnd(s, j + 2, '(', ')');
        if k < |s| && s[k] == ')' then Some(Match(i, s[i + 1..j], s[j + 2..k], k + 1))
        else None
      else None
    else None
  }

  /** The image pattern `!\[…\]\(…\)` or the link pattern `(?<!!)\[…\]\(…\)`
      tried at position `i`; the lookbehind reads the character before `i`. */
  function MatchAt(kind: MarkupKind, s: string, i: nat): (r: Option<Match>)
    ensures r.Some? ==> r.value.start == i < r.value.end <= |s|
  {
    match kind
    case ImageMarkup =>
      if i < |s| && s[i] == '!' then
        match BracketAt(s, i + 1)
        case Some(m) => Some(m.(start := i))
        case None => None
      else None
    case LinkMarkup =>
      if 0 < i <= |s| && s[i - 1] == '!' then None
      else BracketAt(s, i)
  }

  /** What a match found is the markup of its two groups, the groups hold
      none of the characters their classes exclude, an image starts with
      `![` and a link with `[` that does not follow a `!`. */
  lemma MatchAtShape(kind: MarkupKind, s: string, i: nat)
    ensures var r := MatchAt(kind, s, i);
            r.Some? ==>
              s[i..r.value.end] == Markup(kind, r.value.text, r.value.url) &&
              Free(r.value.text, '[', ']') && Free(r.value.url, '(', ')') &&
              (kind == LinkMarkup ==> (i == 0 || s[i - 1] != '!') && s[i] == '[') &&
              (kind == ImageMarkup ==> s[i] == '!' && s[i + 1] == '[')
  {
    if MatchAt(kind, s, i).Some? {
      if kind == ImageMarkup {
        var m := BracketAt(s, i + 1).value;
        BracketShape(s, i + 1);
        assert s[i..m.end] == "!" + s[i + 1..m.end];
      } else {
        BracketShape(s, i);
      }
    }
  }

  /** What `BracketAt` found is the markup of its two groups, and the groups
      contain none of the characters their classes exclude. */
  lemma BracketShape(s: string, i: nat)
    ensures BracketAt(s, i).Some? ==>
              var m := BracketAt(s, i).value;
              s[i..m.end] == Bracketed(m.text, m.url) &&
              Free(m.text, '[', ']') && Free(m.url, '(', ')')
  {
    if BracketAt(s, i).Some? {
      var m := BracketAt(s, i).value;
      var j := RunEnd(s, i + 1, '[', ']');
      var k := RunEnd(s, j + 2, '(', ')');
      assert m.end == k + 1 && m.text == s[i + 1..j] && m.url == s[j + 2..k];
      BracketPieces(s, i, j, k);
    }
  }

  /** Text from a `[` to a `)` with `](` in between is `[text](url)` of the
      runs between them. */
  lemma BracketPieces(s: string, i: nat, j: nat, k: nat)
    requires i < j && j + 2 <= k < |s|
    requires s[i] == '[' && s[j] == ']' && s[j + 1] == '(' && s[k] == ')'
    ensures s[i..k + 1] == Bracketed(s[i + 1..j], s[j + 2..k])
  {
    var text, url := s[i + 1..j], s[j + 2..k];
    var w := s[i..k + 1];
    var t := 1 + |text|;
    SliceOfOccurrence(s, i, w, 1, t);
    SliceOfOccurrence(s, i, w, t + 2, t + 2 + |url|);
    assert w[0] == s[i] && w[t] == s[j] && w[t + 1] == s[j + 1] && w[|w| - 1] == s[k];
    BracketedFromPieces(w, text, url);
  }

  /** A text laid out as `[`, `text`, `](`, `url`, `)` is `[text](url)`. */
  lemma BracketedFromPieces(w: string, text: string, url: string)
    requires var t := 1 + |text|;
             |w| == t + 3 + |url| && w[0] == '[' && w[1..t] == text && w[t] == ']' && w[t + 1] == '(' &&
             w[t + 2..t + 2 + |url|] == url && w[t + 2 + |url|] == ')'
    ensures w == Bracketed(text, url)
  {
    var b := Bracketed(text, url);
    BracketedLayout(text, url);
    var t := 1 + |text|;
    forall p | 0 <= p < |w|
      ensures w[p] == b[p]
    {
      if 0 < p < t {
        assert w[p] == w[1..t][p - 1];
        assert b[p] == b[1..t][p - 1];
      } else if t + 1 < p < t + 2 + |url| {
        assert w[p] == w[t + 2..t + 2 + |url|][p - t - 2];
        assert b[p] == b[t + 2..t + 2 + |url|][p - t - 2];
      }
    }
  }

  /** A run free of `a` and `b` that is followed by one of them, or by the
      end, is exactly where `RunEnd` stops. */
  lemma {:induction false} RunEndIs(s: string, i: nat, j: nat, a: char, b: char)
    requires i <= j <= |s| && Free(s[i..j], a, b)
    requires j < |s| ==> s[j] == a || s[j] == b
    ensures RunEnd(s, i, a, b) == j
    decreases j - i
  {
    if i < j {
      assert s[i] == s[i..j][0];
      assert s[i + 1..j] == s[i..j][1..];
      RunEndIs(s, i + 1, j, a, b);
    }
  }

  /** Where `x` sits in `s` at `i`, every slice of `x` sits at the shifted place. */
  lemma SliceOfOccurrence(s: string, i: nat, x: string, a: nat, b: nat)
    requires i + |x| <= |s| && s[i..i + |x|] == x && a <= b <= |x|
    ensures s[i + a..i + b] == x[a..b]
  {
    forall k | 0 <= k < b - a
      ensures s[i + a..i + b][k] == x[a..b][k]
    {
      assert s[i..i + |x|][a + k] == s[i + a + k];
    }
  }

  /** Where the pieces of `[text](url)` sit. */
  lemma BracketedLayout(text: string, url: string)
    ensures var b, j := Bracketed(text, url), 1 + |text|;
            |b| == j + 3 + |url| && b[0] == '[' && b[1..j] == text && b[j] == ']' && b[j + 1] == '(' &&
            b[j + 2..j + 2 + |url|] == url && b[j + 2 + |url|] == ')'
  {
    var b, j := Bracketed(text, url), 1 + |text|;
    assert b == ("[" + text) + "](" + url + ")";
    assert b[..j] == "[" + text;
    assert b[j + 2..] == url + ")";
  }

  /** Where `[text](url)` sits in `s` at `i`: its brackets and its two groups. */
  lemma BracketOccurrence(s: string, i: nat, text: string, url: string)
    requires i + |Bracketed(text, url)| <= |s|
    requires s[i..i + |Bracketed(text, url)|] == Bracketed(text, url)
    ensures var j, e := i + 1 + |text|, i + 3 + |text| + |url|;
            e < |s| && s[i] == '[' && s[i + 1..j] == text && s[j] == ']' && s[j + 1] == '(' &&
            s[j + 2..e] == url && s[e] == ')'
  {
    var b := Bracketed(text, url);
    BracketedLayout(text, url);
    var j := 1 + |text|;
    var e := j + 2 + |url|;
    SliceOfOccurrence(s, i, b, 1, j);
    SliceOfOccurrence(s, i, b, j + 2, e);
    var w := s[i..i + |b|];
    assert s[i] == w[0] == '[';
    assert s[i + j] == w[j] == ']';
    assert s[i + j + 1] == w[j + 1] == '(';
    assert s[i + e] == w[e] == ')';
  }

  /** Wherever the text holds `[text](url)` with groups free of the excluded
      characters, the bracket pattern matches there with those groups. */
  lemma BracketAtComplete(s: string, i: nat, text: string, url: string)
    requires Free(text, '[', ']') && Free(url, '(', ')')
    requires i + |Bracketed(text, url)| <= |s|
    requires s[i..i + |Bracketed(text, url)|] == Bracketed(text, url)
    ensures BracketAt(s, i) == Some(Match(i, text, url, i + |Bracketed(text, url)|))
  {
    BracketOccurrence(s, i, text, url);
    var j, e := i + 1 + |text|, i + 3 + |text| + |url|;
    RunEndIs(s, i + 1, j, '[', ']');
    RunEndIs(s, j + 2, e, '(', ')');
    assert |Bracketed(text, url)| == e + 1 - i;
  }

  /** The converse of `MatchAt`'s contract: wherever the text holds the
      markup of two groups free of the excluded characters (and, for a link,
      not right after a `!`), the pattern matches there with those groups. */
  lemma MatchAtComplete(kind: MarkupKind, s: string, i: nat, text: string, url: string)
    requires Free(text, '[', ']') && Free(url, '(', ')')
    requires i + |Markup(kind, text, url)| <= |s|
    requires s[i..i + |Markup(kind, text, url)|] == Markup(kind, text, url)
    requires kind == LinkMarkup ==> i == 0 || s[i - 1] != '!'
    ensures MatchAt(kind, s, i) == Some(Match(i, text, url, i + |Markup(kind, text, url)|))
  {
    if kind == ImageMarkup {
      ImageOccurrence(s, i, Bracketed(text, url));
      BracketAtComplete(s, i + 1, text, url);
    } else {
      BracketAtComplete(s, i, text, url);
    }
  }

  /** Where `"!" + b` sits in `s` at `i`, `s[i]` is the `!` and `b` follows. */
  lemma ImageOccurrence(s: string, i: nat, b: string)
    requires i + 1 + |b| <= |s| && s[i..i + 1 + |b|] == "!" + b
    ensures s[i] == '!' && s[i + 1..i + 1 + |b|] == b
  {
    SliceOfOccurrence(s, i, "!" + b, 1, 1 + |b|);
    assert ("!" + b)[1..1 + |b|] == b;
    assert s[i] == s[i..i + 1 + |b|][0];
  }

  // ---------------------------------------------------------------------
  // re.findall

  /** The matches `re.findall` reports from position `i` on: every position
      is tried in turn, and after a match the search resumes at its end. */
  function Scan(kind: MarkupKind, s: string, i: nat): seq<Match>
    decreases |s| - i
  {
    if i >= |s| then []
    else match MatchAt(kind, s, i)
      case Some(m) => [m] + Scan(kind, s, m.end)
      case None => Scan(kind, s, i + 1)
  }

  /** `ms` is a list of matches at or after `i`, each a match at its start,
      ordered and not overlapping. */
  predicate Reported(kind: MarkupKind, s: string, i: nat, ms: seq<Match>) {
    (forall k :: 0 <= k < |ms| ==> i <= ms[k].start && MatchAt(kind, s, ms[k].start) == Some(ms[k])) &&
    (forall k :: 0 < k < |ms| ==> ms[k - 1].end <= ms[k].start)
  }

  /** The scan reports matches in order, without overlap, each one a match
      at its start; `ScanLeftmost` adds that no match was passed over. */
  lemma {:induction false} ScanMatches(kind: MarkupKind, s: string, i: nat)
    ensures Reported(kind, s, i, Scan(kind, s, i))
    decreases |s| - i
  {
    if i < |s| {
      var r := MatchAt(kind, s, i);
      if r.Some? {
        ScanMatches(kind, s, r.value.end);
        ReportedCons(kind, s, i, r.value, Scan(kind, s, r.value.end));
      } else {
        ScanMatches(kind, s, i + 1);
      }
    }
  }

  /** A match at `i` followed by matches reported from its end on. */
  lemma ReportedCons(kind: MarkupKind, s: string, i: nat, m: Match, rest: seq<Match>)
    requires MatchAt(kind, s, i) == Some(m) && Reported(kind, s, m.end, rest)
    ensures Reported(kind, s, i, [m] + rest)
  {
    var ms := [m] + rest;
    forall k | 0 < k < |ms|
      ensures i <= ms[k].start && MatchAt(kind, s, ms[k].start) == Some(ms[k]) && ms[k - 1].end <= ms[k].start
    {
      assert ms[k] == rest[k - 1];
      if k > 1 {
        assert ms[k - 1] == rest[k - 2];
      }
    }
  }

  /** One step of the scan at a position inside the text. */
  lemma ScanStep(kind: MarkupKind, s: string, i: nat)
    requires i < |s|
    ensures MatchAt(kind, s, i).Some? ==> Scan(kind, s, i) != [] && Scan(kind, s, i)[0].start == i
    ensures MatchAt(kind, s, i).None? ==> Scan(kind, s, i) == Scan(kind, s, i + 1)
  {
  }

  /** No position before the first match starts a match. */
  lemma {:induction false} ScanFirst(kind: MarkupKind, s: string, i: nat, p: nat)
    requires i <= p < |s|
    requires Scan(kind, s, i) == [] || p < Scan(kind, s, i)[0].start
    ensures MatchAt(kind, s, p).None?
    decreases |s| - i
  {
    ScanStep(kind, s, i);
    if MatchAt(kind, s, i).None? && i < p {
      ScanFirst(kind, s, i + 1, p);
    }
  }

  /** No position between two reported matches, or after the last one,
      starts a match: the scan reports the leftmost non-overlapping matches,
      which is what `re.findall` returns. */
  lemma {:induction false} ScanLeftmost(kind: MarkupKind, s: string, i: nat, k: nat, p: nat)
    requires var ms := Scan(kind, s, i);
             k < |ms| && ms[k].end <= p < |s| && (k + 1 == |ms| || p < ms[k + 1].start)
    ensures MatchAt(kind, s, p).None?
    decreases |s| - i
  {
    var ms := Scan(kind, s, i);
    if MatchAt(kind, s, i).None? {
      ScanLeftmost(kind, s, i + 1, k, p);
    } else {
      var m := MatchAt(kind, s, i).value;
      var rest := Scan(kind, s, m.end);
      assert ms == [m] + rest;
      if k == 0 {
        ScanFirst(kind, s, m.end, p);
      } else {
        assert ms[k] == rest[k - 1];
        assert k < |rest| ==> ms[k + 1] == rest[k];
        ScanLeftmost(kind, s, m.end, k - 1, p);
      }
    }
  }

  /** The (group 1, group 2) pairs of a list of matches. */
  function Groups(ms: seq<Match>): (pairs: seq<(string, string)>)
    ensures |pairs| == |ms|
    ensures forall k :: 0 <= k < |ms| ==> pairs[k] == (ms[k].text, ms[k].url)
  {
    seq(|ms|, k requires 0 <= k < |ms| => (ms[k].text, ms[k].url))
  }

  /** `extract_markdown_images`: the `(alt, url)` pair of every image, in order. */
  function ExtractMarkdownImages(text: string): (pairs: seq<(string, string)>)
    ensures forall k :: 0 <= k < |pairs| ==> Free(pairs[k].0, '[', ']') && Free(pairs[k].1, '(', ')')
  {
    ScanMatches(ImageMarkup, text, 0);
    Groups(Scan(ImageMarkup, text, 0))
  }

  /** `extract_markdown_links`: the `(anchor, url)` pair of every link, in order. */
  function ExtractMarkdownLinks(text: string): (pairs: seq<(string, string)>)
    ensures forall k :: 0 <= k < |pairs| ==> Free(pairs[k].0, '[', ']') && Free(pairs[k].1, '(', ')')
  {
    ScanMatches(LinkMarkup, text, 0);
    Groups(Scan(LinkMarkup, text, 0))
  }

  function Extract(kind: MarkupKind, text: string): seq<(string, string)> {
    if kind == ImageMarkup then ExtractMarkdownImages(text) else ExtractMarkdownLinks(text)
  }

  /** Every reported link starts with a `[` that is not preceded by `!`, and
      every reported image with `![`. */
  lemma ScanOpeners(kind: MarkupKind, s: string)
    ensures forall m :: m in Scan(kind, s, 0) ==>
              m.start < |s| && (kind == LinkMarkup ==> s[m.start] == '[' && (m.start == 0 || s[m.start - 1] != '!'))
                            && (kind == ImageMarkup ==> m.start + 1 < |s| && s[m.start] == '!' && s[m.start + 1] == '[')
  {
    forall m | m in Scan(kind, s, 0)
      ensures m.start < |s| && (kind == LinkMarkup ==> s[m.start] == '[' && (m.start == 0 || s[m.start - 1] != '!'))
                            && (kind == ImageMarkup ==> m.start + 1 < |s| && s[m.start] == '!' && s[m.start + 1] == '[')
    {
      var ms := Scan(kind, s, 0);
      ScanMatches(kind, s, 0);
      var k :| 0 <= k < |ms| && ms[k] == m;
      MatchAtShape(kind, s, m.start);
    }
  }

  /** A stretch where no match starts is skipped by the scan. */
  lemma {:induction false} ScanSkips(kind: MarkupKind, s: string, i: nat, j: nat)
    requires i <= j <= |s|
    requires forall p :: i <= p < j ==> MatchAt(kind, s, p).None?
    ensures Scan(kind, s, i) == Scan(kind, s, j)
    decreases j - i
  {
    if i < j {
      ScanSkips(kind, s, i + 1, j);
    }
  }

  /** Text without a `[` holds no image and no link. */
  lemma NoBracketNoMarkup(kind: MarkupKind, s: string)
    requires forall p :: 0 <= p < |s| ==> s[p] != '['
    ensures Extract(kind, s) == []
  {
    ScanSkips(kind, s, 0, |s|);
  }

  // ---------------------------------------------------------------------
  // split_nodes_delimiter

  /** `x` does not contain the character `c`. */
  predicate NoChar(x: string, c: char) {
    forall k :: 0 <= k < |x| ==> x[k] != c
  }

  /** The span emitted for part `i` of a split: nothing for an empty part,
      plain text for an even index, the target type for an odd one. */
  function PartNode(part: string, i: nat, textType: TextType): seq<TextNode> {
    if part == "" then [] else [TextNode(part, if i % 2 == 0 then Text else textType, None)]
  }

  /** The spans emitted for all the parts of a split, in order. */
  function PartNodes(parts: seq<string>, textType: TextType): (r: seq<TextNode>)
    ensures |r| <= |parts|
    decreases |parts|
  {
    if parts == [] then []
    else PartNodes(parts[..|parts| - 1], textType) + PartNode(parts[|parts| - 1], |parts| - 1, textType)
  }

  /** When no part is empty, part `k` becomes span `k`: plain text at an
      even index, the target type at an odd one. */
  lemma {:induction false} PartNodesParity(parts: seq<string>, textType: TextType)
    requires forall i :: 0 <= i < |parts| ==> parts[i] != ""
    ensures |PartNodes(parts, textType)| == |parts|
    ensures forall k :: 0 <= k < |parts| ==>
              PartNodes(parts, textType)[k] == TextNode(parts[k], if k % 2 == 0 then Text else textType, None)
    decreases |parts|
  {
    if parts != [] {
      var init := parts[..|parts| - 1];
      PartNodesParity(init, textType);
      assert forall k :: 0 <= k < |init| ==> init[k] == parts[k];
    }
  }

  /** Every emitted span is non-empty, has no url, and is plain text or of
      the target type. */
  lemma {:induction false} PartNodesShape(parts: seq<string>, textType: TextType)
    ensures forall k :: 0 <= k < |PartNodes(parts, textType)| ==>
              var n := PartNodes(parts, textType)[k];
              n.text != "" && n.url.None? && (n.textType == Text || n.textType == textType)
    decreases |parts|
  {
    if parts != [] {
      PartNodesShape(parts[..|parts| - 1], textType);
    }
  }

  /** A TEXT span whose text the delimiter pass cannot split: the separator
      is empty, or it occurs an odd number of times (an even number of parts). */
  predicate Unbalanced(n: TextNode, delimiter: string) {
    n.textType == Text && (delimiter == "" || |Split(n.text, delimiter)| % 2 == 0)
  }

  /** One span through the delimiter pass. */
  function DelimiterSplitNode(n: TextNode, delimiter: string, textType: TextType): (r: Result<seq<TextNode>>)
    ensures r.Err? <==> Unbalanced(n, delimiter)
    ensures n.textType != Text ==> r == Ok([n])
  {
    if n.textType != Text then Ok([n])
    else if delimiter == "" then Err(EmptySeparator)
    else
      var parts := Split(n.text, delimiter);
      if |parts| % 2 == 0 then Err(UnmatchedDelimiter(delimiter)) else Ok(PartNodes(parts, textType))
  }

  /** What `split_nodes_delimiter` computes: every span through the pass, the
      results concatenated in order; the first span that cannot be split
      decides the error. */
  function DelimiterSplit(nodes: seq<TextNode>, delimiter: string, textType: TextType): Result<seq<TextNode>>
    decreases |nodes|
  {
    if nodes == [] then Ok([])
    else Then(DelimiterSplit(nodes[..|nodes| - 1], delimiter, textType), DelimiterSplitNode(nodes[|nodes| - 1], delimiter, textType))
  }

  /** Two results one after the other: both lists when both succeed,
      otherwise the first error. */
  function Then(x: Result<seq<TextNode>>, y: Result<seq<TextNode>>): Result<seq<TextNode>> {
    if x.Err? then x else if y.Err? then y else Ok(x.value + y.value)
  }

  lemma ThenAssoc(x: Result<seq<TextNode>>, y: Result<seq<TextNode>>, z: Result<seq<TextNode>>)
    ensures Then(Then(x, y), z) == Then(x, Then(y, z))
  {
    if x.Ok? && y.Ok? && z.Ok? {
      assert x.value + y.value + z.value == x.value + (y.value + z.value);
    }
  }

  /** `split_nodes_delimiter`. */
  method SplitNodesDelimiter(oldNodes: seq<TextNode>, delimiter: string, textType: TextType)
    returns (r: Result<seq<TextNode>>)
    ensures r == DelimiterSplit(oldNodes, delimiter, textType)
  {
    var newNodes: seq<TextNode> := [];
    for i := 0 to |oldNodes|
      invariant DelimiterSplit(oldNodes[..i], delimiter, textType) == Ok(newNodes)
    {
      var oldNode := oldNodes[i];
      DelimiterSplitStep(oldNodes, i, delimiter, textType);
      if oldNode.textType != Text {
        newNodes := newNodes + [oldNode];
        continue;
      }
      if delimiter == "" {
        DelimiterSplitErrPrefix(oldNodes, i + 1, delimiter, textType);
        return Err(EmptySeparator);
      }
      var parts := Split(oldNode.text, delimiter);
      if |parts| % 2 == 0 {
        DelimiterSplitErrPrefix(oldNodes, i + 1, delimiter, textType);
        return Err(UnmatchedDelimiter(delimiter));
      }
      newNodes := AppendParts(newNodes, parts, textType);
    }
    assert oldNodes[..|oldNodes|] == oldNodes;
    return Ok(newNodes);
  }

  /** One more span through the pass. */
  lemma DelimiterSplitStep(nodes: seq<TextNode>, i: nat, delimiter: string, textType: TextType)
    requires i < |nodes|
    ensures DelimiterSplit(nodes[..i + 1], delimiter, textType) ==
            Then(DelimiterSplit(nodes[..i], delimiter, textType), DelimiterSplitNode(nodes[i], delimiter, textType))
  {
    assert nodes[..i + 1][..i] == nodes[..i];
    assert nodes[..i + 1][i] == nodes[i];
  }

  /** The inner loop of `split_nodes_delimiter`: the spans for the parts of
      one split, appended in order. */
  method AppendParts(newNodes: seq<TextNode>, parts: seq<string>, textType: TextType)
    returns (r: seq<TextNode>)
    ensures r == newNodes + PartNodes(parts, textType)
  {
    r := newNodes;
    for j := 0 to |parts|
      invariant r == newNodes + PartNodes(parts[..j], textType)
    {
      var part := parts[j];
      PartNodesStep(newNodes, parts, j, textType);
      if part == "" {
        continue;
      }
      if j % 2 == 0 {
        r := r + [TextNode(part, Text, None)];
      } else {
        r := r + [TextNode(part, textType, None)];
      }
    }
    assert parts[..|parts|] == parts;
  }

  /** One more part through the inner loop, after the spans `r` already emitted. */
  lemma PartNodesStep(r: seq<TextNode>, parts: seq<string>, j: nat, textType: TextType)
    requires j < |parts|
    ensures r + PartNodes(parts[..j + 1], textType) == r + PartNodes(parts[..j], textType) + PartNode(parts[j], j, textType)
  {
    assert parts[..j + 1][..j] == parts[..j];
  }

  /** Once a prefix of the spans fails, the whole list fails the same way. */
  lemma {:induction false} DelimiterSplitErrPrefix(nodes: seq<TextNode>, j: nat, delimiter: string, textType: TextType)
    requires j <= |nodes| && DelimiterSplit(nodes[..j], delimiter, textType).Err?
    ensures DelimiterSplit(nodes, delimiter, textType) == DelimiterSplit(nodes[..j], delimiter, textType)
    decreases |nodes|
  {
    if j < |nodes| {
      var init := nodes[..|nodes| - 1];
      assert init[..j] == nodes[..j];
      DelimiterSplitErrPrefix(init, j, delimiter, textType);
    } else {
      assert nodes[..j] == nodes;
    }
  }

  /** The pass works span by span: a concatenation splits into the
      concatenation of the results, and fails exactly when a part fails,
      with the error of the first part that fails. */
  lemma {:induction false} DelimiterSplitAppend(a: seq<TextNode>, b: seq<TextNode>, delimiter: string, textType: TextType)
    ensures DelimiterSplit(a + b, delimiter, textType) ==
            Then(DelimiterSplit(a, delimiter, textType), DelimiterSplit(b, delimiter, textType))
    decreases |b|
  {
    if b == [] {
      assert a + b == a;
      var ra := DelimiterSplit(a, delimiter, textType);
      if ra.Ok? {
        assert ra.value + [] == ra.value;
      }
    } else {
      var init, last := b[..|b| - 1], b[|b| - 1];
      assert (a + b)[..|a + b| - 1] == a + init;
      assert (a + b)[|a + b| - 1] == last;
      DelimiterSplitAppend(a, init, delimiter, textType);
      ThenAssoc(DelimiterSplit(a, delimiter, textType), DelimiterSplit(init, delimiter, textType),
                DelimiterSplitNode(last, delimiter, textType));
    }
  }

  /** A span that is not TEXT comes out unchanged, between the results for
      the spans before it and after it. */
  lemma DelimiterSplitPassThrough(a: seq<TextNode>, n: TextNode, b: seq<TextNode>, delimiter: string, textType: TextType)
    requires n.textType != Text
    requires DelimiterSplit(a + [n] + b, delimiter, textType).Ok?
    ensures DelimiterSplit(a, delimiter, textType).Ok? && DelimiterSplit(b, delimiter, textType).Ok?
    ensures DelimiterSplit(a + [n] + b, delimiter, textType).value ==
            DelimiterSplit(a, delimiter, textType).value + [n] + DelimiterSplit(b, delimiter, textType).value
  {
    DelimiterSplitAppend(a + [n], b, delimiter, textType);
    DelimiterSplitAppend(a, [n], delimiter, textType);
    assert [n][..0] == [];
    assert [] + [n] == [n];
    assert DelimiterSplit([n], delimiter, textType) == Ok([n]);
  }

  /** The pass fails exactly when some TEXT span has an odd number of
      delimiters (or the delimiter is empty). */
  lemma {:induction false} DelimiterSplitFails(nodes: seq<TextNode>, delimiter: string, textType: TextType)
    ensures DelimiterSplit(nodes, delimiter, textType).Err? <==>
            exists k :: 0 <= k < |nodes| && Unbalanced(nodes[k], delimiter)
    decreases |nodes|
  {
    if nodes != [] {
      var init := nodes[..|nodes| - 1];
      DelimiterSplitFails(init, delimiter, textType);
      if exists k :: 0 <= k < |init| && Unbalanced(init[k], delimiter) {
        var k :| 0 <= k < |init| && Unbalanced(init[k], delimiter);
        assert nodes[k] == init[k];
      }
      if exists k :: 0 <= k < |nodes| && Unbalanced(nodes[k], delimiter) {
        var k :| 0 <= k < |nodes| && Unbalanced(nodes[k], delimiter);
        if k < |init| {
          assert init[k] == nodes[k];
        }
      }
    }
  }

  /** The texts of a list of spans, concatenated. */
  function TextOf(nodes: seq<TextNode>): string
    decreases |nodes|
  {
    if nodes == [] then "" else TextOf(nodes[..|nodes| - 1]) + nodes[|nodes| - 1].text
  }

  /** Dropping the empty parts loses no text: the emitted texts, concatenated,
      are the parts concatenated. */
  lemma {:induction false} PartNodesText(parts: seq<string>, textType: TextType)
    ensures TextOf(PartNodes(parts, textType)) == Join(parts, "")
    decreases |parts|
  {
    if parts != [] {
      PartNodesText(parts[..|parts| - 1], textType);
      TextOfLastPart(parts, textType);
      if |parts| > 1 {
        ConcatLast(parts);
      }
    }
  }

  lemma TextOfLastPart(parts: seq<string>, textType: TextType)
    requires parts != []
    ensures TextOf(PartNodes(parts, textType)) == TextOf(PartNodes(parts[..|parts| - 1], textType)) + parts[|parts| - 1]
  {
    var front, part := PartNodes(parts[..|parts| - 1], textType), parts[|parts| - 1];
    var r := front + PartNode(part, |parts| - 1, textType);
    if part != "" {
      assert r[..|r| - 1] == front;
    } else {
      assert r == front;
    }
  }

  /** No emitted span contains the delimiter when no part does. */
  lemma {:induction false} PartNodesFree(parts: seq<string>, textType: TextType, delimiter: string)
    requires forall j :: 0 <= j < |parts| ==> !Contains(parts[j], delimiter)
    ensures forall k :: 0 <= k < |PartNodes(parts, textType)| ==> !Contains(PartNodes(parts, textType)[k].text, delimiter)
    decreases |parts|
  {
    if parts != [] {
      var init := parts[..|parts| - 1];
      assert forall j :: 0 <= j < |init| ==> init[j] == parts[j];
      PartNodesFree(init, textType, delimiter);
    }
  }

  /** For a TEXT span the pass emits the non-empty parts of the split, none
      containing the delimiter, whose texts together are the input with every
      delimiter removed. */
  lemma DelimiterSplitText(n: TextNode, delimiter: string, textType: TextType)
    requires n.textType == Text && !Unbalanced(n, delimiter)
    ensures var r := DelimiterSplitNode(n, delimiter, textType);
            r.Ok? && TextOf(r.value) == Replace(n.text, delimiter, "") &&
            forall k :: 0 <= k < |r.value| ==> r.value[k].text != "" && !Contains(r.value[k].text, delimiter)
  {
    var parts := Split(n.text, delimiter);
    PartNodesText(parts, textType);
    PartNodesShape(parts, textType);
    SplitPartsFree(n.text, delimiter);
    PartNodesFree(parts, textType, delimiter);
  }

  // ---------------------------------------------------------------------
  // split_nodes_image and split_nodes_link

  /** The span type a pass produces. */
  function KindType(kind: MarkupKind): TextType {
    if kind == ImageMarkup then Image else Link
  }

  /** A TEXT span for `t`, or nothing when `t` is empty. */
  function TextSpan(t: string): seq<TextNode> {
    if t == "" then [] else [TextNode(t, Text, None)]
  }

  /** The part after a `split(markup, 1)`, or `""` when nothing was split off. */
  function After(sections: seq<string>): string {
    if |sections| > 1 then sections[1] else ""
  }

  /** The loop over the pairs of one span: cut the remaining text at the
      first literal occurrence of the pair's markup, emit the text before it
      (if any) and the marked span, and go on with the text after it; what
      remains at the end is emitted as text (if any). */
  function SplitOnPairs(remaining: string, pairs: seq<(string, string)>, kind: MarkupKind): seq<TextNode>
    decreases |pairs|
  {
    if pairs == [] then TextSpan(remaining)
    else
      var sections := SplitOnce(remaining, Markup(kind, pairs[0].0, pairs[0].1));
      TextSpan(sections[0]) + [TextNode(pairs[0].0, KindType(kind), Some(pairs[0].1))]
        + SplitOnPairs(After(sections), pairs[1..], kind)
  }

  /** One span through an image or link pass: spans that are not TEXT, and
      TEXT spans without a match, come out as they are. */
  function MarkupSplitNode(n: TextNode, kind: MarkupKind): seq<TextNode> {
    if n.textType != Text then [n]
    else
      var pairs := Extract(kind, n.text);
      if pairs == [] then [n] else SplitOnPairs(n.text, pairs, kind)
  }

  /** The image or link pass on one span, as a function value. */
  function MarkupPass(kind: MarkupKind): TextNode -> seq<TextNode> {
    n => MarkupSplitNode(n, kind)
  }

  /** What `split_nodes_image` and `split_nodes_link` compute: every span
      through the pass, the results concatenated in order. */
  function MarkupSplit(nodes: seq<TextNode>, kind: MarkupKind): seq<TextNode> {
    FlatMap(nodes, MarkupPass(kind))
  }

  /** The lists `f` makes of each span, concatenated in order. */
  function FlatMap(nodes: seq<TextNode>, f: TextNode -> seq<TextNode>): seq<TextNode>
    decreases |nodes|
  {
    if nodes == [] then [] else FlatMap(nodes[..|nodes| - 1], f) + f(nodes[|nodes| - 1])
  }

  lemma FlatMapSnoc(nodes: seq<TextNode>, n: TextNode, f: TextNode -> seq<TextNode>)
    ensures FlatMap(nodes + [n], f) == FlatMap(nodes, f) + f(n)
  {
    assert (nodes + [n])[..|nodes|] == nodes;
  }

  /** A concatenation maps to the concatenation of the results. */
  lemma {:induction false} FlatMapAppend(a: seq<TextNode>, b: seq<TextNode>, f: TextNode -> seq<TextNode>)
    ensures FlatMap(a + b, f) == FlatMap(a, f) + FlatMap(b, f)
    decreases |b|
  {
    if b == [] {
      assert a + b == a;
    } else {
      var init, last := b[..|b| - 1], b[|b| - 1];
      assert b == init + [last];
      assert a + b == (a + init) + [last];
      FlatMapSnoc(a + init, last, f);
      FlatMapSnoc(init, last, f);
      FlatMapAppend(a, init, f);
    }
  }

  /** The loop shared by `split_nodes_image` and `split_nodes_link`, which
      differ only in the pattern, the markup and the span type. */
  method SplitNodesMarkup(oldNodes: seq<TextNode>, kind: MarkupKind) returns (newNodes: seq<TextNode>)
    ensures newNodes == MarkupSplit(oldNodes, kind)
  {
    newNodes := [];
    for i := 0 to |oldNodes|
      invariant newNodes == MarkupSplit(oldNodes[..i], kind)
    {
      var oldNode := oldNodes[i];
      MarkupSplitStep(oldNodes, i, kind);
      ghost var emitted := MarkupSplitNode(oldNode, kind);
      if oldNode.textType != Text {
        assert emitted == [oldNode];
        newNodes := newNodes + [oldNode];
        continue;
      }
      var pairs := Extract(kind, oldNode.text);
      if pairs == [] {
        assert emitted == [oldNode];
        newNodes := newNodes + [oldNode];
        continue;
      }
      assert emitted == SplitOnPairs(oldNode.text, pairs, kind);
      newNodes := AppendMarkupSplit(newNodes, oldNode.text, pairs, kind);
    }
    assert oldNodes[..|oldNodes|] == oldNodes;
  }

  lemma MarkupSplitStep(nodes: seq<TextNode>, i: nat, kind: MarkupKind)
    requires i < |nodes|
    ensures MarkupSplit(nodes[..i + 1], kind) == MarkupSplit(nodes[..i], kind) + MarkupSplitNode(nodes[i], kind)
  {
    assert nodes[..i + 1] == nodes[..i] + [nodes[i]];
    MarkupSplitSnoc(nodes[..i], nodes[i], kind);
  }

  /** The inner loop over the pairs of one span, rebinding the remaining text. */
  method AppendMarkupSplit(newNodes: seq<TextNode>, text: string, pairs: seq<(string, string)>, kind: MarkupKind)
    returns (r: seq<TextNode>)
    ensures r == newNodes + SplitOnPairs(text, pairs, kind)
  {
    r := newNodes;
    var remaining := text;
    for j := 0 to |pairs|
      invariant r + SplitOnPairs(remaining, pairs[j..], kind) == newNodes + SplitOnPairs(text, pairs, kind)
    {
      var (t, u) := pairs[j];
      var sections := SplitOnce(remaining, Markup(kind, t, u));
      ghost var r0, remaining0 := r, remaining;
      if sections[0] != "" {
        r := r + [TextNode(sections[0], Text, None)];
      }
      assert r == r0 + TextSpan(sections[0]);
      r := r + [TextNode(t, KindType(kind), Some(u))];
      remaining := if |sections| > 1 then sections[1] else "";
      assert remaining == After(sections);
      SplitOnPairsStep(r0, r, remaining0, remaining, pairs, j, kind);
    }
    assert pairs[|pairs|..] == [];
    if remaining != "" {
      r := r + [TextNode(remaining, Text, None)];
    }
  }

  /** One pair of the loop: what it emits, followed by the rest of the loop,
      is the loop from that pair on. */
  lemma SplitOnPairsStep(r0: seq<TextNode>, r: seq<TextNode>, remaining0: string, remaining: string,
                         pairs: seq<(string, string)>, j: nat, kind: MarkupKind)
    requires j < |pairs|
    requires var sections := SplitOnce(remaining0, Markup(kind, pairs[j].0, pairs[j].1));
             r == r0 + TextSpan(sections[0]) + [TextNode(pairs[j].0, KindType(kind), Some(pairs[j].1))] &&
             remaining == After(sections)
    ensures r + SplitOnPairs(remaining, pairs[j + 1..], kind) == r0 + SplitOnPairs(remaining0, pairs[j..], kind)
  {
    var rest := pairs[j..];
    assert rest[0] == pairs[j];
    assert rest[1..] == pairs[j + 1..];
    var sections := SplitOnce(remaining0, Markup(kind, pairs[j].0, pairs[j].1));
    var before, n := TextSpan(sections[0]), [TextNode(pairs[j].0, KindType(kind), Some(pairs[j].1))];
    var later := SplitOnPairs(remaining, pairs[j + 1..], kind);
    AppendAssoc(r0, before, n);
    AppendAssoc(r0, before + n, later);
  }

  /** `split_nodes_image`. */
  method SplitNodesImage(oldNodes: seq<TextNode>) returns (newNodes: seq<TextNode>)
    ensures newNodes == MarkupSplit(oldNodes, ImageMarkup)
  {
    newNodes := SplitNodesMarkup(oldNodes, ImageMarkup);
  }

  /** `split_nodes_link`. */
  method SplitNodesLink(oldNodes: seq<TextNode>) returns (newNodes: seq<TextNode>)
    ensures newNodes == MarkupSplit(oldNodes, LinkMarkup)
  {
    newNodes := SplitNodesMarkup(oldNodes, LinkMarkup);
  }

  /** The pass works span by span. */
  lemma MarkupSplitAppend(a: seq<TextNode>, b: seq<TextNode>, kind: MarkupKind)
    ensures MarkupSplit(a + b, kind) == MarkupSplit(a, kind) + MarkupSplit(b, kind)
  {
    FlatMapAppend(a, b, MarkupPass(kind));
  }

  lemma MarkupSplitSnoc(nodes: seq<TextNode>, n: TextNode, kind: MarkupKind)
    ensures MarkupSplit(nodes + [n], kind) == MarkupSplit(nodes, kind) + MarkupSplitNode(n, kind)
  {
    FlatMapSnoc(nodes, n, MarkupPass(kind));
  }

  /** A span that is not TEXT comes out unchanged, between the results for
      the spans before it and after it. */
  lemma MarkupSplitPassThrough(a: seq<TextNode>, n: TextNode, b: seq<TextNode>, kind: MarkupKind)
    requires n.textType != Text
    ensures MarkupSplit(a + [n] + b, kind) == MarkupSplit(a, kind) + [n] + MarkupSplit(b, kind)
  {
    MarkupSplitAppend(a + [n], b, kind);
    MarkupSplitAppend(a, [n], kind);
    assert [n][..0] == [];
    assert MarkupSplit([n], kind) == [n];
  }

  /** A plain TEXT span comes out unchanged exactly when the pass finds no
      match in it; otherwise the output is spans the pass emits, whose marked
      spans carry the extracted pairs in order. */
  lemma MarkupSplitNodeShape(n: TextNode, kind: MarkupKind)
    requires n.textType == Text && n.url.None?
    ensures MarkupSplitNode(n, kind) == [n] <==> Extract(kind, n.text) == []
    ensures Extract(kind, n.text) != [] ==>
              AllEmitted(MarkupSplitNode(n, kind), kind) && Marked(MarkupSplitNode(n, kind)) == Extract(kind, n.text)
  {
    var pairs := Extract(kind, n.text);
    if pairs != [] {
      SplitOnPairsShape(n.text, pairs, kind);
      assert Marked([n]) == [] by {
        assert [n][1..] == [];
      }
    }
  }

  /** A TEXT span without a `[` holds no markup and comes out unchanged. */
  lemma NoMarkupUnchanged(n: TextNode, kind: MarkupKind)
    requires n.textType == Text && NoChar(n.text, '[')
    ensures MarkupSplitNode(n, kind) == [n]
  {
    NoBracketNoMarkup(kind, n.text);
  }

  /** The markdown a span stands for in a pass: a span of the pass's type
      with a url stands for its markup, any other span for its text. */
  function SourceOf(n: TextNode, kind: MarkupKind): string {
    if n.textType == KindType(kind) && n.url.Some? then Markup(kind, n.text, n.url.value) else n.text
  }

  /** The markdown a list of spans stands for, in order. */
  function Source(nodes: seq<TextNode>, kind: MarkupKind): string
    decreases |nodes|
  {
    if nodes == [] then "" else SourceOf(nodes[0], kind) + Source(nodes[1..], kind)
  }

  lemma {:induction false} SourceAppend(a: seq<TextNode>, b: seq<TextNode>, kind: MarkupKind)
    ensures Source(a + b, kind) == Source(a, kind) + Source(b, kind)
    decreases |a|
  {
    if a == [] {
      assert a + b == b;
    } else {
      SourceAppend(a[1..], b, kind);
      SourceAppendStep(a, b, kind);
    }
  }

  lemma SourceAppendStep(a: seq<TextNode>, b: seq<TextNode>, kind: MarkupKind)
    requires a != [] && Source(a[1..] + b, kind) == Source(a[1..], kind) + Source(b, kind)
    ensures Source(a + b, kind) == Source(a, kind) + Source(b, kind)
  {
    var h := SourceOf(a[0], kind);
    ConsAppend(a, b);
    assert Source(a + b, kind) == h + Source(a[1..] + b, kind);
    AppendAssoc(h, Source(a[1..], kind), Source(b, kind));
  }

  lemma SourceTextSpan(t: string, kind: MarkupKind)
    ensures Source(TextSpan(t), kind) == t
  {
    if t != "" {
      assert TextSpan(t)[1..] == [];
    }
  }

  lemma SourceSingle(n: TextNode, kind: MarkupKind)
    ensures Source([n], kind) == SourceOf(n, kind)
  {
    assert [n][1..] == [];
  }

  /** The pair loop over the matches the scan reports, from offset `off` on,
      gives back the text from `off` on: each match's markup is found no
      later than where the match is, so the loop never runs out of text. */
  lemma {:induction false} SplitOnPairsSource(s: string, off: nat, ms: seq<Match>, kind: MarkupKind)
    requires off <= |s|
    requires forall k :: 0 <= k < |ms| ==> MatchAt(kind, s, ms[k].start) == Some(ms[k])
    requires forall k :: 0 < k < |ms| ==> ms[k - 1].end <= ms[k].start
    requires ms != [] ==> off <= ms[0].start
    ensures Source(SplitOnPairs(s[off..], Groups(ms), kind), kind) == s[off..]
    decreases |ms|
  {
    if ms == [] {
      SourceTextSpan(s[off..], kind);
    } else {
      var m := ms[0];
      var next := CutAtMatch(s, off, m, kind);
      MatchesTail(s, ms, kind);
      SplitOnPairsSource(s, next, ms[1..], kind);
      PairsSourceStep(s[off..], s[next..], m.text, m.url, Groups(ms), Groups(ms[1..]), kind);
    }
  }

  /** One step of the pair loop gives back its text when the rest of the
      loop gives back what follows the markup. */
  lemma PairsSourceStep(remaining: string, tail: string, text: string, url: string,
                        pairs: seq<(string, string)>, restPairs: seq<(string, string)>, kind: MarkupKind)
    requires pairs == [(text, url)] + restPairs
    requires var sections := SplitOnce(remaining, Markup(kind, text, url));
             |sections| == 2 && sections[1] == tail && remaining == sections[0] + Markup(kind, text, url) + tail
    requires Source(SplitOnPairs(tail, restPairs, kind), kind) == tail
    ensures Source(SplitOnPairs(remaining, pairs, kind), kind) == remaining
  {
    var sections := SplitOnce(remaining, Markup(kind, text, url));
    var n := TextNode(text, KindType(kind), Some(url));
    var rest := SplitOnPairs(tail, restPairs, kind);
    assert pairs[0] == (text, url) && pairs[1..] == restPairs;
    assert SplitOnPairs(remaining, pairs, kind) == TextSpan(sections[0]) + [n] + rest;
    SourceStep(sections[0], n, rest, kind);
    assert SourceOf(n, kind) == Markup(kind, text, url);
  }

  /** Cutting the text from `off` on at the markup of a match at or after
      `off` splits it, and what follows the cut starts no later than the
      match's end. */
  lemma CutAtMatch(s: string, off: nat, m: Match, kind: MarkupKind) returns (next: nat)
    requires off <= m.start && MatchAt(kind, s, m.start) == Some(m)
    ensures var mk := Markup(kind, m.text, m.url);
            var sections := SplitOnce(s[off..], mk);
            |sections| == 2 && off <= next <= m.end && sections[1] == s[next..] &&
            s[off..] == sections[0] + mk + sections[1]
  {
    MatchAtShape(kind, s, m.start);
    next := SplitOnceSuffix(s, off, Markup(kind, m.text, m.url), m.start);
  }

  /** The matches after the first keep the scan's properties. */
  lemma MatchesTail(s: string, ms: seq<Match>, kind: MarkupKind)
    requires ms != []
    requires forall k :: 0 <= k < |ms| ==> MatchAt(kind, s, ms[k].start) == Some(ms[k])
    requires forall k :: 0 < k < |ms| ==> ms[k - 1].end <= ms[k].start
    ensures forall k :: 0 <= k < |ms[1..]| ==> MatchAt(kind, s, ms[1..][k].start) == Some(ms[1..][k])
    ensures forall k :: 0 < k < |ms[1..]| ==> ms[1..][k - 1].end <= ms[1..][k].start
    ensures ms[1..] != [] ==> ms[0].end <= ms[1..][0].start
    ensures Groups(ms) == [(ms[0].text, ms[0].url)] + Groups(ms[1..])
  {
    assert forall k :: 0 <= k < |ms[1..]| ==> ms[1..][k] == ms[k + 1];
    GroupsCons(ms);
  }

  lemma GroupsCons(ms: seq<Match>)
    requires ms != []
    ensures Groups(ms) == [(ms[0].text, ms[0].url)] + Groups(ms[1..])
  {
    var g, t := Groups(ms), Groups(ms[1..]);
    forall k | 0 < k < |g|
      ensures g[k] == t[k - 1]
    {
      assert ms[1..][k - 1] == ms[k];
    }
  }

  /** What one step of the pair loop stands for. */
  lemma SourceStep(before: string, n: TextNode, rest: seq<TextNode>, kind: MarkupKind)
    ensures Source(TextSpan(before) + [n] + rest, kind) == before + SourceOf(n, kind) + Source(rest, kind)
  {
    SourceAppend(TextSpan(before) + [n], rest, kind);
    SourceAppend(TextSpan(before), [n], kind);
    SourceTextSpan(before, kind);
    SourceSingle(n, kind);
  }

  /** An image or link pass loses no text and invents none: reading every
      span it emits back as the markdown it stands for gives its input. */
  lemma MarkupSplitNodeSource(n: TextNode, kind: MarkupKind)
    ensures Source(MarkupSplitNode(n, kind), kind) == SourceOf(n, kind)
  {
    SourceSingle(n, kind);
    if n.textType == Text {
      var ms := Scan(kind, n.text, 0);
      ScanMatches(kind, n.text, 0);
      assert n.text[0..] == n.text;
      if ms != [] {
        SplitOnPairsSource(n.text, 0, ms, kind);
      }
    }
  }

  lemma {:induction false} MarkupSplitSource(nodes: seq<TextNode>, kind: MarkupKind)
    ensures Source(MarkupSplit(nodes, kind), kind) == Source(nodes, kind)
    decreases |nodes|
  {
    if nodes != [] {
      var init, last := nodes[..|nodes| - 1], nodes[|nodes| - 1];
      FrontLast(nodes);
      MarkupSplitSnoc(init, last, kind);
      MarkupSplitSource(init, kind);
      MarkupSplitNodeSource(last, kind);
      SourceSnoc(init, last, MarkupSplit(init, kind), MarkupSplitNode(last, kind), kind);
    }
  }

  lemma SourceSnoc(init: seq<TextNode>, last: TextNode, x: seq<TextNode>, y: seq<TextNode>, kind: MarkupKind)
    requires Source(x, kind) == Source(init, kind) && Source(y, kind) == SourceOf(last, kind)
    ensures Source(x + y, kind) == Source(init + [last], kind)
  {
    SourceAppend(x, y, kind);
    SourceAppend(init, [last], kind);
    SourceSingle(last, kind);
  }

  /** A span an image or link pass emits for a TEXT span with matches: a
      non-empty TEXT span without a url, or a span of the pass's type with one. */
  predicate Emitted(n: TextNode, kind: MarkupKind) {
    (n.textType == Text && n.text != "" && n.url.None?) || (n.textType == KindType(kind) && n.url.Some?)
  }

  predicate AllEmitted(nodes: seq<TextNode>, kind: MarkupKind) {
    forall k :: 0 <= k < |nodes| ==> Emitted(nodes[k], kind)
  }

  /** The `(text, url)` of every span that carries a url, in order. */
  function Marked(nodes: seq<TextNode>): seq<(string, string)>
    decreases |nodes|
  {
    if nodes == [] then []
    else (if nodes[0].url.Some? then [(nodes[0].text, nodes[0].url.value)] else []) + Marked(nodes[1..])
  }

  lemma {:induction false} MarkedAppend(a: seq<TextNode>, b: seq<TextNode>)
    ensures Marked(a + b) == Marked(a) + Marked(b)
    decreases |a|
  {
    if a == [] {
      assert a + b == b;
    } else {
      ConsAppend(a, b);
      MarkedAppend(a[1..], b);
      var head := if a[0].url.Some? then [(a[0].text, a[0].url.value)] else [];
      AppendAssoc(head, Marked(a[1..]), Marked(b));
    }
  }

  /** The pair loop emits the text before each markup when it is not empty,
      then the marked span; the marked spans carry the pairs, in order, and
      the TEXT spans (including a trailing one, when text remains) are
      non-empty. */
  lemma {:induction false} SplitOnPairsShape(remaining: string, pairs: seq<(string, string)>, kind: MarkupKind)
    ensures AllEmitted(SplitOnPairs(remaining, pairs, kind), kind)
    ensures Marked(SplitOnPairs(remaining, pairs, kind)) == pairs
    decreases |pairs|
  {
    if pairs == [] {
      MarkedTextSpan(remaining);
    } else {
      var p := pairs[0];
      var sections := SplitOnce(remaining, Markup(kind, p.0, p.1));
      var n := TextNode(p.0, KindType(kind), Some(p.1));
      var rest := SplitOnPairs(After(sections), pairs[1..], kind);
      SplitOnPairsShape(After(sections), pairs[1..], kind);
      ShapeStep(sections[0], n, rest, kind);
      assert SplitOnPairs(remaining, pairs, kind) == TextSpan(sections[0]) + [n] + rest;
      HeadTail(pairs);
    }
  }

  lemma MarkedTextSpan(t: string)
    ensures Marked(TextSpan(t)) == []
  {
    if t != "" {
      assert TextSpan(t)[1..] == [];
    }
  }

  /** What one step of the pair loop adds to the shape of its output. */
  lemma ShapeStep(before: string, n: TextNode, rest: seq<TextNode>, kind: MarkupKind)
    requires Emitted(n, kind) && n.url.Some? && AllEmitted(rest, kind)
    ensures AllEmitted(TextSpan(before) + [n] + rest, kind)
    ensures Marked(TextSpan(before) + [n] + rest) == [(n.text, n.url.value)] + Marked(rest)
  {
    MarkedAppend(TextSpan(before) + [n], rest);
    MarkedAppend(TextSpan(before), [n]);
    MarkedTextSpan(before);
    assert [n][1..] == [];
  }

  // ---------------------------------------------------------------------
  // Urls

  /** A span has a url exactly when it is a link or an image. */
  predicate UrlExact(n: TextNode) {
    n.url.Some? <==> (n.textType == Link || n.textType == Image)
  }

  predicate AllUrlExact(nodes: seq<TextNode>) {
    forall k :: 0 <= k < |nodes| ==> UrlExact(nodes[k])
  }

  /** The delimiter passes emit no url, so spans keep a url exactly when
      they are links or images. */
  lemma {:induction false} DelimiterSplitUrls(nodes: seq<TextNode>, delimiter: string, textType: TextType)
    requires textType != Link && textType != Image
    requires AllUrlExact(nodes) && DelimiterSplit(nodes, delimiter, textType).Ok?
    ensures AllUrlExact(DelimiterSplit(nodes, delimiter, textType).value)
    decreases |nodes|
  {
    if nodes != [] {
      var init, last := nodes[..|nodes| - 1], nodes[|nodes| - 1];
      assert AllUrlExact(init);
      DelimiterSplitUrls(init, delimiter, textType);
      if last.textType == Text {
        PartNodesShape(Split(last.text, delimiter), textType);
      }
    }
  }

  /** The image and link passes keep every span's url exactly on the links
      and images. */
  lemma {:induction false} MarkupSplitUrls(nodes: seq<TextNode>, kind: MarkupKind)
    requires AllUrlExact(nodes)
    ensures AllUrlExact(MarkupSplit(nodes, kind))
    decreases |nodes|
  {
    if nodes != [] {
      var init, last := nodes[..|nodes| - 1], nodes[|nodes| - 1];
      FrontLast(nodes);
      MarkupSplitSnoc(init, last, kind);
      assert AllUrlExact(init);
      MarkupSplitUrls(init, kind);
      MarkupSplitNodeUrls(last, kind);
      AllUrlExactAppend(MarkupSplit(init, kind), MarkupSplitNode(last, kind));
    }
  }

  lemma MarkupSplitNodeUrls(n: TextNode, kind: MarkupKind)
    requires UrlExact(n)
    ensures AllUrlExact(MarkupSplitNode(n, kind))
  {
    if n.textType == Text && Extract(kind, n.text) != [] {
      SplitOnPairsShape(n.text, Extract(kind, n.text), kind);
    }
  }

  lemma AllUrlExactAppend(a: seq<TextNode>, b: seq<TextNode>)
    requires AllUrlExact(a) && AllUrlExact(b)
    ensures AllUrlExact(a + b)
  {
    forall k | 0 <= k < |a + b|
      ensures UrlExact((a + b)[k])
    {
      if k >= |a| {
        assert (a + b)[k] == b[k - |a|];
      }
    }
  }

  // ---------------------------------------------------------------------
  // text_to_textnodes

  /** `text_to_textnodes`: bold, italic and code delimiters, in that order,
      then images, then links. */
  function TextToTextNodes(text: string): Result<seq<TextNode>> {
    var bold :- DelimiterSplit([TextNode(text, Text, None)], "**", Bold);
    var italic :- DelimiterSplit(bold, "*", Italic);
    var code :- DelimiterSplit(italic, "`", Code);
    Ok(MarkupSplit(MarkupSplit(code, ImageMarkup), LinkMarkup))
  }

  /** Every span the tokenizer produces has a url exactly when it is a link
      or an image, so each can be converted to HTML. */
  lemma TextToTextNodesUrls(text: string)
    requires TextToTextNodes(text).Ok?
    ensures AllUrlExact(TextToTextNodes(text).value)
    ensures forall k :: 0 <= k < |TextToTextNodes(text).value| ==> HasUrlIfNeeded(TextToTextNodes(text).value[k])
  {
    var start := [TextNode(text, Text, None)];
    DelimiterSplitUrls(start, "**", Bold);
    var bold := DelimiterSplit(start, "**", Bold).value;
    DelimiterSplitUrls(bold, "*", Italic);
    var italic := DelimiterSplit(bold, "*", Italic).value;
    DelimiterSplitUrls(italic, "`", Code);
    var code := DelimiterSplit(italic, "`", Code).value;
    MarkupSplitUrls(code, ImageMarkup);
    MarkupSplitUrls(MarkupSplit(code, ImageMarkup), LinkMarkup);
  }

  /** A pass with a non-empty delimiter can only fail on an odd number of
      delimiters. */
  lemma {:induction false} DelimiterSplitErrKind(nodes: seq<TextNode>, delimiter: string, textType: TextType)
    requires delimiter != "" && DelimiterSplit(nodes, delimiter, textType).Err?
    ensures DelimiterSplit(nodes, delimiter, textType).error == UnmatchedDelimiter(delimiter)
    decreases |nodes|
  {
    var init := nodes[..|nodes| - 1];
    if DelimiterSplit(init, delimiter, textType).Err? {
      DelimiterSplitErrKind(init, delimiter, textType);
    }
  }

  /** The tokenizer fails only on an unmatched `**`, `*` or `` ` ``. */
  lemma TextToTextNodesErrors(text: string)
    requires TextToTextNodes(text).Err?
    ensures TextToTextNodes(text).error in {UnmatchedDelimiter("**"), UnmatchedDelimiter("*"), UnmatchedDelimiter("`")}
  {
    var start := [TextNode(text, Text, None)];
    var bold := DelimiterSplit(start, "**", Bold);
    if bold.Err? {
      DelimiterSplitErrKind(start, "**", Bold);
    } else {
      var italic := DelimiterSplit(bold.value, "*", Italic);
      if italic.Err? {
        DelimiterSplitErrKind(bold.value, "*", Italic);
      } else {
        DelimiterSplitErrKind(italic.value, "`", Code);
      }
    }
  }

  /** One TEXT span through a delimiter pass that does not find the
      delimiter: the span itself, or nothing when it is empty. */
  lemma DelimiterAbsent(text: string, delimiter: string, textType: TextType)
    requires delimiter != "" && !Contains(text, delimiter)
    ensures DelimiterSplit([TextNode(text, Text, None)], delimiter, textType) == Ok(TextSpan(text))
  {
    var n := TextNode(text, Text, None);
    SplitAbsent(text, delimiter);
    assert [n][..0] == [];
    assert [text][..0] == [];
    assert PartNodes([text], textType) == PartNode(text, 0, textType);
    assert DelimiterSplitNode(n, delimiter, textType) == Ok(TextSpan(text));
  }

  /** A delimiter of one character that does not occur is not contained. */
  lemma NoCharNotContains(s: string, c: char)
    requires NoChar(s, c)
    ensures !Contains(s, [c]) && !Contains(s, [c, c])
  {
    forall k: nat | k <= |s|
      ensures !OccursAt(s, [c], k) && !OccursAt(s, [c, c], k)
    {
      if k < |s| {
        assert s[k..k + 1][0] == s[k];
        if k + 2 <= |s| {
          assert s[k..k + 2][0] == s[k];
        }
      }
    }
  }

  /** The empty string gives no spans. */
  lemma TextToTextNodesEmpty()
    ensures TextToTextNodes("") == Ok([])
  {
    DelimiterAbsent("", "**", Bold);
    assert DelimiterSplit([], "*", Italic) == Ok([]);
  }

  /** Text without any marker character is one TEXT span. */
  lemma TextToTextNodesPlain(text: string)
    requires text != "" && NoChar(text, '*') && NoChar(text, '`') && NoChar(text, '[')
    ensures TextToTextNodes(text) == Ok([TextNode(text, Text, None)])
  {
    NoCharNotContains(text, '*');
    NoCharNotContains(text, '`');
    var n := TextNode(text, Text, None);
    DelimiterAbsent(text, "**", Bold);
    DelimiterAbsent(text, "*", Italic);
    DelimiterAbsent(text, "`", Code);
    assert TextSpan(text) == [n];
    NoMarkupUnchanged(n, ImageMarkup);
    NoMarkupUnchanged(n, LinkMarkup);
    MarkupSplitSingle(n, ImageMarkup);
    MarkupSplitSingle(n, LinkMarkup);
  }

  lemma MarkupSplitSingle(n: TextNode, kind: MarkupKind)
    ensures MarkupSplit([n], kind) == MarkupSplitNode(n, kind)
  {
    MarkupSplitSnoc([], n, kind);
    assert [] + [n] == [n];
  }

  lemma DelimiterSplitSingle(n: TextNode, delimiter: string, textType: TextType)
    ensures DelimiterSplit([n], delimiter, textType) == DelimiterSplitNode(n, delimiter, textType)
  {
    assert [n][..0] == [];
    assert [n][0] == n;
    if DelimiterSplitNode(n, delimiter, textType).Ok? {
      assert [] + DelimiterSplitNode(n, delimiter, textType).value == DelimiterSplitNode(n, delimiter, textType).value;
    }
  }

  /** `"**" + b + "**"`, where `b` has no `**` and does not end in `*`, is
      one BOLD span: single `*` inside it stay in its text, because bold is
      split before italic and the later passes leave BOLD spans alone. */
  lemma TextToTextNodesBold(b: string)
    requires b != "" && !Contains(b, "**") && b[|b| - 1] != '*'
    ensures TextToTextNodes("**" + b + "**") == Ok([TextNode(b, Bold, None)])
  {
    var s := "**" + b + "**";
    NoStraddle(b);
    SplitEnclosed(b, "**");
    var bn := TextNode(b, Bold, None);
    PartNodesEnclosed(b, Bold);
    DelimiterSplitSingle(TextNode(s, Text, None), "**", Bold);
    DelimiterSplitSingle(bn, "*", Italic);
    DelimiterSplitSingle(bn, "`", Code);
    MarkupSplitSingle(bn, ImageMarkup);
    MarkupSplitSingle(bn, LinkMarkup);
  }

  /** The parts of a single delimited span make one span of the target type. */
  lemma PartNodesEnclosed(b: string, textType: TextType)
    requires b != ""
    ensures PartNodes(["", b, ""], textType) == [TextNode(b, textType, None)]
  {
    var parts := ["", b, ""];
    assert parts[..2][..1] == [""];
    assert parts[..2][..1][..0] == [];
    assert PartNodes(parts[..2][..1], textType) == [];
    assert PartNodes(parts[..2], textType) == [TextNode(b, textType, None)];
  }

  /** The tokenizer fails exactly when one of its delimiter passes meets an
      unbalanced TEXT span in the list it is given: the whole text for `**`,
      a span of the bold pass's output for `*`, or a span of the italic
      pass's output for `` ` ``. */
  lemma TextToTextNodesFails(text: string)
    ensures var bold := DelimiterSplit([TextNode(text, Text, None)], "**", Bold);
            var italic := if bold.Ok? then DelimiterSplit(bold.value, "*", Italic) else bold;
            TextToTextNodes(text).Err? <==>
              Unbalanced(TextNode(text, Text, None), "**") ||
              (bold.Ok? && exists k :: 0 <= k < |bold.value| && Unbalanced(bold.value[k], "*")) ||
              (italic.Ok? && exists k :: 0 <= k < |italic.value| && Unbalanced(italic.value[k], "`"))
  {
    var start := [TextNode(text, Text, None)];
    DelimiterSplitFails(start, "**", Bold);
    assert (exists k :: 0 <= k < |start| && Unbalanced(start[k], "**")) <==> Unbalanced(start[0], "**");
    var bold := DelimiterSplit(start, "**", Bold);
    if bold.Ok? {
      DelimiterSplitFails(bold.value, "*", Italic);
      var italic := DelimiterSplit(bold.value, "*", Italic);
      if italic.Ok? {
        DelimiterSplitFails(italic.value, "`", Code);
      }
    }
  }

  /** With no `**`, an odd number of `*` fails the italic pass. */
  lemma TextToTextNodesUnmatchedItalic(text: string)
    requires !Contains(text, "**") && CountChar(text, '*') % 2 == 1
    ensures TextToTextNodes(text) == Err(UnmatchedDelimiter("*"))
  {
    DelimiterAbsent(text, "**", Bold);
    OddCountSpan(text, '*');
    OddCountEvenParts(text, '*');
    SingleSpanUnbalanced(text, "*", Italic);
  }

  /** With no `*` at all, an odd number of backticks fails the code pass. */
  lemma TextToTextNodesUnmatchedCode(text: string)
    requires NoChar(text, '*') && CountChar(text, '`') % 2 == 1
    ensures TextToTextNodes(text) == Err(UnmatchedDelimiter("`"))
  {
    NoCharNotContains(text, '*');
    DelimiterAbsent(text, "**", Bold);
    DelimiterAbsent(text, "*", Italic);
    OddCountSpan(text, '`');
    OddCountEvenParts(text, '`');
    SingleSpanUnbalanced(text, "`", Code);
  }

  /** A text holding a character an odd number of times is not empty, so
      its TEXT span is a single span. */
  lemma OddCountSpan(text: string, c: char)
    requires CountChar(text, c) % 2 == 1
    ensures TextSpan(text) == [TextNode(text, Text, None)]
  {
    CountCharBound(text, c);
  }

  /** A single TEXT span whose split has an even number of parts fails. */
  lemma SingleSpanUnbalanced(text: string, delimiter: string, textType: TextType)
    requires delimiter != "" && |Split(text, delimiter)| % 2 == 0
    ensures DelimiterSplit([TextNode(text, Text, None)], delimiter, textType) == Err(UnmatchedDelimiter(delimiter))
  {
    DelimiterSplitSingle(TextNode(text, Text, None), delimiter, textType);
  }

  // ---------------------------------------------------------------------
  // The link pass cuts at the first literal occurrence

  /** Inside `[text](url)` only the first character is a `[` when neither
      group contains one. */
  lemma BracketedOpeners(text: string, url: string)
    requires NoChar(text, '[') && NoChar(url, '[')
    ensures forall k :: 1 <= k < |Bracketed(text, url)| ==> Bracketed(text, url)[k] != '['
  {
    var b, j := Bracketed(text, url), 1 + |text|;
    BracketedLayout(text, url);
    forall k | 1 <= k < |b|
      ensures b[k] != '['
    {
      if k < j {
        assert b[k] == b[1..j][k - 1];
      } else if j + 2 <= k < j + 2 + |url| {
        assert b[k] == b[j + 2..j + 2 + |url|][k - j - 2];
      }
    }
  }

  /** Where the pieces of `"!" + b + b` sit, for `b == [text](url)`. */
  lemma QuirkLayout(s: string, text: string, url: string)
    requires NoChar(text, '[') && NoChar(url, '[')
    requires s == "!" + Bracketed(text, url) + Bracketed(text, url)
    ensures var b := Bracketed(text, url);
            |s| == 1 + 2 * |b| && s[0] == '!' && s[|b|] == ')' && s[1 + |b|..1 + 2 * |b|] == b &&
            forall p :: 2 <= p < 1 + |b| ==> s[p] != '['
  {
    var b := Bracketed(text, url);
    BracketedOpeners(text, url);
    BracketedLayout(text, url);
    CopiesLayout(s, b);
  }

  /** Where the pieces of `"!" + b + b` sit, for a `b` that ends in `)` and
      holds no `[` after its first character. */
  lemma CopiesLayout(s: string, b: string)
    requires |b| >= 1 && b[|b| - 1] == ')' && forall k :: 1 <= k < |b| ==> b[k] != '['
    requires s == "!" + b + b
    ensures |s| == 1 + 2 * |b| && s[0] == '!' && s[|b|] == ')' && s[1 + |b|..1 + 2 * |b|] == b &&
            forall p :: 2 <= p < 1 + |b| ==> s[p] != '['
  {
    assert s[1..1 + |b|] == b;
    assert s[1 + |b|..1 + 2 * |b|] == b;
    assert s[|b|] == b[|b| - 1];
    forall p | 2 <= p < 1 + |b|
      ensures s[p] != '['
    {
      assert s[p] == b[p - 1];
    }
  }

  /** In a text laid out as `"!" + b + b` with `b == [text](url)`, the link
      pattern matches only the second copy. */
  lemma QuirkScan(s: string, text: string, url: string)
    requires Free(text, '[', ']') && Free(url, '(', ')')
    requires var b := Bracketed(text, url);
             |s| == 1 + 2 * |b| && s[0] == '!' && s[|b|] == ')' && s[1 + |b|..1 + 2 * |b|] == b &&
             forall p :: 2 <= p < 1 + |b| ==> s[p] != '['
    ensures var b := Bracketed(text, url);
            Scan(LinkMarkup, s, 0) == [Match(1 + |b|, text, url, 1 + 2 * |b|)]
  {
    var b := Bracketed(text, url);
    var m := Match(1 + |b|, text, url, 1 + 2 * |b|);
    LinkAfterImage(s, m, b);
    ScanAfterImage(s, m.start, m);
  }

  /** `[text](url)` right after a `)` is a link. */
  lemma LinkAfterImage(s: string, m: Match, b: string)
    requires Free(m.text, '[', ']') && Free(m.url, '(', ')') && b == Bracketed(m.text, m.url)
    requires 0 < m.start && m.end == m.start + |b| <= |s| && s[m.start - 1] == ')' && s[m.start..m.end] == b
    ensures MatchAt(LinkMarkup, s, m.start) == Some(m)
  {
    MatchAtComplete(LinkMarkup, s, m.start, m.text, m.url);
  }

  /** A text that starts with `!` and holds no other `[` before a link that
      runs to its end holds that one link. */
  lemma ScanAfterImage(s: string, n: nat, m: Match)
    requires 0 < n < |s| && s[0] == '!' && forall p :: 2 <= p < n ==> s[p] != '['
    requires MatchAt(LinkMarkup, s, n) == Some(m) && m.end == |s|
    ensures Scan(LinkMarkup, s, 0) == [m]
  {
    NoLinkBefore(s, n);
    ScanOneMatch(LinkMarkup, s, n, m);
  }

  /** A text whose only match is one that starts at `n` and runs to the end. */
  lemma ScanOneMatch(kind: MarkupKind, s: string, n: nat, m: Match)
    requires n < |s| && MatchAt(kind, s, n) == Some(m) && m.end == |s|
    requires forall p :: 0 <= p < n ==> MatchAt(kind, s, p).None?
    ensures Scan(kind, s, 0) == [m]
  {
    ScanSkips(kind, s, 0, n);
    assert Scan(kind, s, m.end) == [];
  }

  /** In a text that starts with `!`, no link starts before the first
      later `[`. */
  lemma NoLinkBefore(s: string, n: nat)
    requires n <= |s| && 0 < |s| && s[0] == '!'
    requires forall p :: 2 <= p < n ==> s[p] != '['
    ensures forall p :: 0 <= p < n ==> MatchAt(LinkMarkup, s, p).None?
  {
    forall p | 0 <= p < n
      ensures MatchAt(LinkMarkup, s, p).None?
    {
      if p >= 2 {
        assert s[p] != '[';
      }
    }
  }

  /** The first literal occurrence of `b` in `"!" + b + b` is the one inside
      the image. */
  lemma QuirkCut(b: string)
    requires b != [] && b[0] == '['
    ensures SplitOnce("!" + b + b, b) == ["!", b]
  {
    var s := "!" + b + b;
    assert s[1..1 + |b|] == b;
    IndexOfIs(s, b, 1);
    assert s[..1] == "!";
    assert s[1 + |b|..] == b;
  }

  /** `split_nodes_link` splits at the first literal occurrence of the
      link's markup, even inside an image: on `"!" + b + b`, where only the
      second `b == [text](url)` is a link, it emits TEXT `"!"`, the link, and
      the second copy as TEXT. */
  lemma LinkSplitsInsideImage(text: string, url: string)
    requires NoChar(url, '[') && Free(text, '[', ']') && Free(url, '(', ')')
    ensures var b := Bracketed(text, url);
            MarkupSplitNode(TextNode("!" + b + b, Text, None), LinkMarkup) ==
            [TextNode("!", Text, None)] + [TextNode(text, Link, Some(url))] + [TextNode(b, Text, None)]
  {
    var b := Bracketed(text, url);
    var s := "!" + b + b;
    QuirkLayout(s, text, url);
    QuirkScan(s, text, url);
    BracketedLayout(text, url);
    QuirkCut(b);
    var pairs := Extract(LinkMarkup, s);
    assert pairs == [(text, url)];
    assert Markup(LinkMarkup, text, url) == b;
    var n := TextNode(s, Text, None);
    assert MarkupSplitNode(n, LinkMarkup) == SplitOnPairs(s, [(text, url)], LinkMarkup);
    SplitOnPairsSingle(s, text, url, LinkMarkup);
    var sections := SplitOnce(s, b);
    assert sections[0] == "!" && After(sections) == b;
    assert TextSpan("!") == [TextNode("!", Text, None)];
    assert TextSpan(b) == [TextNode(b, Text, None)];
    assert KindType(LinkMarkup) == Link;
    var link := TextNode(text, Link, Some(url));
    assert MarkupSplitNode(n, LinkMarkup) == TextSpan(sections[0]) + [link] + TextSpan(After(sections));
  }

  /** One pair: the text before the first occurrence of its markup, the
      marked span, and the text after it. */
  lemma SplitOnPairsSingle(s: string, text: string, url: string, kind: MarkupKind)
    ensures var sections := SplitOnce(s, Markup(kind, text, url));
            SplitOnPairs(s, [(text, url)], kind) ==
            TextSpan(sections[0]) + [TextNode(text, KindType(kind), Some(url))] + TextSpan(After(sections))
  {
    assert [(text, url)][1..] == [];
  }
}
