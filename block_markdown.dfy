/** The block layer of src/block_markdown.py: a document is cut into blocks
    at blank lines, each block is classified, and each kind of block is
    rendered into an HTML tree whose inline content comes from the
    tokenizer.

    Every loop of the source is a method proved equal to a function that
    states what it computes; the functions are what the lemmas speak about,
    and what pure code that calls a looping function uses instead. */
module BlockMarkdown {
  import opened Wrappers
  import opened Strings
  import opened HtmlNodes
  import opened TextNodes
  import opened InlineMarkdown

  // ---------------------------------------------------------------------
  // markdown_to_blocks

  /** What one piece between blank lines contributes: its strip, unless
      that is empty. */
  function BlockOf(piece: string): seq<string> {
    var stripped := Strip(piece);
    if stripped == "" then [] else [stripped]
  }

  /** The blocks of a list of pieces, in order. */
  function Blocks(pieces: seq<string>): seq<string>
    decreases |pieces|
  {
    if pieces == [] then [] else Blocks(pieces[..|pieces| - 1]) + BlockOf(pieces[|pieces| - 1])
  }

  /** What `markdown_to_blocks` computes. */
  function BlocksOf(markdown: string): seq<string> {
    Blocks(Split(markdown, "\n\n"))
  }

  /** `markdown_to_blocks`. */
  method MarkdownToBlocks(markdown: string) returns (blocks: seq<string>)
    ensures blocks == BlocksOf(markdown)
  {
    var pieces := Split(markdown, "\n\n");
    blocks := [];
    for i := 0 to |pieces|
      invariant blocks == Blocks(pieces[..i])
    {
      var stripped := Strip(pieces[i]);
      if stripped != "" {
        blocks := blocks + [stripped];
      }
      assert pieces[..i + 1][..i] == pieces[..i];
    }
    assert pieces[..|pieces|] == pieces;
  }

  /** A block as the segmentation leaves it: not empty, no whitespace at
      either end and no blank line inside. */
  predicate IsBlock(b: string) {
    b != "" && !IsSpace(b[0]) && !IsSpace(b[|b| - 1]) && !Contains(b, "\n\n")
  }

  /** The blocks of a concatenation of pieces are the blocks of each part. */
  lemma {:induction false} BlocksAppend(p: seq<string>, q: seq<string>)
    ensures Blocks(p + q) == Blocks(p) + Blocks(q)
    decreases |q|
  {
    if q == [] {
      assert p + q == p;
    } else {
      var init, last := q[..|q| - 1], q[|q| - 1];
      AppendFrontLast(p, q);
      BlocksAppend(p, init);
      assert Blocks(p + q) == Blocks(p + init) + BlockOf(last);
      AppendAssoc(Blocks(p), Blocks(init), BlockOf(last));
    }
  }

  /** Pieces free of blank lines give well-formed blocks. */
  lemma {:induction false} BlocksAreBlocks(pieces: seq<string>)
    requires forall i :: 0 <= i < |pieces| ==> !Contains(pieces[i], "\n\n")
    ensures forall i :: 0 <= i < |Blocks(pieces)| ==> IsBlock(Blocks(pieces)[i])
    decreases |pieces|
  {
    if pieces != [] {
      var last := pieces[|pieces| - 1];
      BlocksAreBlocks(pieces[..|pieces| - 1]);
      StripFree(last, "\n\n");
    }
  }

  /** Every block is non-empty, stripped and free of blank lines. */
  lemma MarkdownToBlocksShape(markdown: string)
    ensures forall i :: 0 <= i < |BlocksOf(markdown)| ==> IsBlock(BlocksOf(markdown)[i])
  {
    SplitPartsFree(markdown, "\n\n");
    BlocksAreBlocks(Split(markdown, "\n\n"));
  }

  /** Pieces made of whitespace give no blocks. */
  lemma {:induction false} BlankPieces(pieces: seq<string>)
    requires forall i :: 0 <= i < |pieces| ==> AllSpace(pieces[i])
    ensures Blocks(pieces) == []
    decreases |pieces|
  {
    if pieces != [] {
      StripEmpty(pieces[|pieces| - 1]);
      BlankPieces(pieces[..|pieces| - 1]);
    }
  }

  /** An empty or all-whitespace document has no blocks. */
  lemma MarkdownToBlocksBlank(markdown: string)
    requires AllSpace(markdown)
    ensures BlocksOf(markdown) == []
  {
    SplitAllSpace(markdown, "\n\n");
    BlankPieces(Split(markdown, "\n\n"));
  }

  /** A whitespace piece between two lists of pieces vanishes. */
  lemma BlankPieceVanishes(p: seq<string>, blank: string, q: seq<string>)
    requires AllSpace(blank)
    ensures Blocks(p + [blank] + q) == Blocks(p + q)
  {
    var pb := p + [blank];
    BlocksAppend(pb, q);
    BlocksAppend(p, q);
    StripEmpty(blank);
    assert BlockOf(blank) == [];
    assert pb[..|pb| - 1] == p;
    assert Blocks(pb) == Blocks(p);
  }

  /** The blocks of a first piece and the rest. */
  lemma BlocksCons(p: string, rest: seq<string>)
    ensures Blocks([p] + rest) == BlockOf(p) + Blocks(rest)
  {
    var single := [p];
    BlocksAppend(single, rest);
    assert single[..|single| - 1] == [];
    assert Blocks(single) == Blocks([]) + BlockOf(p);
    assert Blocks(single) == BlockOf(p);
  }

  /** A newline in front of a piece is stripped away with the rest of its
      whitespace. */
  lemma BlockOfNewline(x: string)
    ensures BlockOf("\n" + x) == BlockOf(x)
  {
    assert "\n" + x == ['\n'] + x;
    StripSpaceCons('\n', x);
  }

  lemma EmptyPiece()
    ensures BlockOf("") == []
  {
    StripEmpty("");
  }

  /** A newline in front of a document changes none of its blocks. */
  lemma {:induction false} LeadingNewline(b: string)
    ensures Blocks(Split("\n" + b, "\n\n")) == Blocks(Split(b, "\n\n"))
    decreases |b|
  {
    if b != [] && b[0] == '\n' {
      var t := b[1..];
      DoubleNewlineSplit(b);
      assert b == "\n" + t;
      calc {
        Blocks(Split("\n" + b, "\n\n"));
        Blocks([""] + Split(t, "\n\n"));
        { BlocksCons("", Split(t, "\n\n")); EmptyPiece(); }
        Blocks(Split(t, "\n\n"));
        { LeadingNewline(t); }
        Blocks(Split("\n" + t, "\n\n"));
        Blocks(Split(b, "\n\n"));
      }
    } else {
      LeadingNewlineOnce(b);
    }
  }

  /** A document that starts with a blank line splits off an empty piece. */
  lemma DoubleNewlineSplit(b: string)
    requires b != [] && b[0] == '\n'
    ensures Split("\n" + b, "\n\n") == [""] + Split(b[1..], "\n\n")
  {
    var s := "\n" + b;
    assert s[0..2] == "\n\n";
    SplitAt(s, "\n\n", 0);
    assert s[..0] == "" && s[2..] == b[1..];
  }

  /** `LeadingNewline` when `b` does not itself start with a newline: the
      first blank line of `"\n" + b` is the first of `b`, one later. */
  lemma LeadingNewlineOnce(b: string)
    requires b == [] || b[0] != '\n'
    ensures Blocks(Split("\n" + b, "\n\n")) == Blocks(Split(b, "\n\n"))
  {
    var s := "\n" + b;
    var found := IndexOf(b, "\n\n");
    SplitAtFirst(b, "\n\n");
    if found.Some? {
      var k := found.value;
      var rest := Split(b[k + 2..], "\n\n");
      ShiftedSplit(b, k);
      calc {
        Blocks(Split(s, "\n\n"));
        Blocks(["\n" + b[..k]] + rest);
        { BlocksCons("\n" + b[..k], rest); BlockOfNewline(b[..k]); }
        BlockOf(b[..k]) + Blocks(rest);
        { BlocksCons(b[..k], rest); }
        Blocks([b[..k]] + rest);
        Blocks(Split(b, "\n\n"));
      }
    } else {
      ShiftedAbsent(b);
      assert [s] + [] == [s] && [b] + [] == [b];
      calc {
        Blocks(Split(s, "\n\n"));
        Blocks([s] + []);
        { BlocksCons(s, []); BlockOfNewline(b); }
        BlockOf(b) + Blocks([]);
        { BlocksCons(b, []); }
        Blocks([b] + []);
        Blocks(Split(b, "\n\n"));
      }
    }
  }

  /** No position of `"\n" + b` below `p + 1` starts a blank line when none
      of `b` below `p` does and `b` does not start with a newline. */
  lemma ShiftedFree(b: string, p: nat)
    requires b == [] || b[0] != '\n'
    requires forall j: nat :: j < p ==> !OccursAt(b, "\n\n", j)
    ensures forall j: nat :: j < p + 1 ==> !OccursAt("\n" + b, "\n\n", j)
  {
    var s := "\n" + b;
    assert s == ['\n'] + b;
    forall j: nat | j < p + 1
      ensures !OccursAt(s, "\n\n", j)
    {
      if j == 0 {
        if |s| >= 2 {
          assert s[0..2][1] == b[0];
        }
      } else {
        OccursShift('\n', b, "\n\n", j);
      }
    }
  }

  /** The first split of `"\n" + b` when `b` first holds a blank line at `k`. */
  lemma ShiftedSplit(b: string, k: nat)
    requires b == [] || b[0] != '\n'
    requires IndexOf(b, "\n\n") == Some(k)
    ensures Split("\n" + b, "\n\n") == ["\n" + b[..k]] + Split(b[k + 2..], "\n\n")
  {
    var s := "\n" + b;
    ShiftedFree(b, k);
    OccursShift('\n', b, "\n\n", k + 1);
    assert s == ['\n'] + b;
    SplitAt(s, "\n\n", k + 1);
    assert s[..k + 1] == "\n" + b[..k] && s[k + 3..] == b[k + 2..];
  }

  /** `"\n" + b` holds no blank line when `b` holds none and does not start
      with a newline. */
  lemma ShiftedAbsent(b: string)
    requires b == [] || b[0] != '\n'
    requires !Contains(b, "\n\n")
    ensures Split("\n" + b, "\n\n") == ["\n" + b]
  {
    var s := "\n" + b;
    ShiftedFree(b, |b|);
    assert !Contains(s, "\n\n");
    SplitAbsent(s, "\n\n");
  }

  /** A third newline after a blank line changes none of the blocks: the
      run of blank lines separates the same blocks as a single one. */
  lemma {:induction false} ExtraBlankLine(a: string, b: string)
    ensures BlocksOf(a + "\n\n\n" + b) == BlocksOf(a + "\n\n" + b)
    decreases |a|
  {
    var x, y := a + "\n\n\n" + b, a + "\n\n" + b;
    var k := ExtraFirstBreak(a, b);
    var head := y[..k];
    var xs, ys := Split(x[k + 2..], "\n\n"), Split(y[k + 2..], "\n\n");
    BlocksCons(head, xs);
    BlocksCons(head, ys);
    if k + 2 <= |a| {
      var r := a[k + 2..];
      DropConcat(a, "\n\n\n", b, k + 2);
      DropConcat(a, "\n\n", b, k + 2);
      ExtraBlankLine(r, b);
    } else {
      ExtraTail(a, b, k);
      LeadingNewline(y[k + 2..]);
    }
  }

  /** Past the end of `a`, the text after a blank line in
      `a + "\n\n\n" + b` is one newline longer than in `a + "\n\n" + b`. */
  lemma ExtraTail(a: string, b: string, k: nat)
    requires |a| < k + 2 <= |a| + 2
    ensures (a + "\n\n\n" + b)[k + 2..] == "\n" + (a + "\n\n" + b)[k + 2..]
  {
    if k == |a| {
      assert (a + "\n\n\n" + b)[k + 2..] == "\n" + b;
      assert (a + "\n\n" + b)[k + 2..] == b;
    } else {
      assert (a + "\n\n\n" + b)[k + 2..] == "\n\n" + b;
      assert (a + "\n\n" + b)[k + 2..] == "\n" + b;
    }
  }

  /** The first blank line of `a + "\n\n\n" + b` and of `a + "\n\n" + b`
      starts at the same `k`, no later than the end of `a`, with the same
      text before it. */
  lemma ExtraFirstBreak(a: string, b: string) returns (k: nat)
    ensures k <= |a|
    ensures Split(a + "\n\n\n" + b, "\n\n") ==
              [(a + "\n\n" + b)[..k]] + Split((a + "\n\n\n" + b)[k + 2..], "\n\n")
    ensures Split(a + "\n\n" + b, "\n\n") ==
              [(a + "\n\n" + b)[..k]] + Split((a + "\n\n" + b)[k + 2..], "\n\n")
  {
    var x, y := a + "\n\n\n" + b, a + "\n\n" + b;
    var n := |a| + 2;
    assert x[..n] == a + "\n\n" == y[..n];
    assert y[|a|..|a| + 2] == "\n\n";
    k := FirstAtOrBefore(y, "\n\n", |a|);
    SamePrefixFirst(x, y, "\n\n", n, k);
    SplitAt(x, "\n\n", k);
    SplitAt(y, "\n\n", k);
  }

  /** Any number of extra newlines after a blank line changes none of the
      blocks. */
  lemma {:induction false} BlankLinesCollapse(a: string, n: nat, b: string)
    ensures BlocksOf(a + "\n\n" + seq(n, _ => '\n') + b) == BlocksOf(a + "\n\n" + b)
    decreases n
  {
    if n > 0 {
      DropNewline(a, n, b);
      BlankLinesCollapse(a, n - 1, b);
    } else {
      assert a + "\n\n" + seq(n, _ => '\n') == a + "\n\n";
    }
  }

  /** One newline fewer after a blank line gives the same blocks. */
  lemma DropNewline(a: string, n: nat, b: string)
    requires n > 0
    ensures BlocksOf(a + "\n\n" + seq(n, _ => '\n') + b) ==
            BlocksOf(a + "\n\n" + seq(n - 1, _ => '\n') + b)
  {
    var shorter := seq(n - 1, _ => '\n');
    NewlineRun(a, n, b);
    ExtraBlankLine(a, shorter + b);
    AppendAssoc(a + "\n\n", shorter, b);
  }

  /** A run of `n > 0` newlines is a newline followed by a run of `n - 1`. */
  lemma NewlineRun(a: string, n: nat, b: string)
    requires n > 0
    ensures a + "\n\n" + seq(n, _ => '\n') + b == a + "\n\n\n" + (seq(n - 1, _ => '\n') + b)
  {
    var run, shorter := seq(n, _ => '\n'), seq(n - 1, _ => '\n');
    assert run == "\n" + shorter;
  }

  /** Segmenting a block again gives that block alone. */
  lemma BlockIsItsOwnBlock(b: string)
    requires IsBlock(b)
    ensures BlocksOf(b) == [b]
  {
    SplitAbsent(b, "\n\n");
    StripIdentity(b);
    assert [b][..0] == [];
    assert Blocks([b]) == Blocks([]) + BlockOf(b);
  }

  /** The segmentation is idempotent on its output. */
  lemma MarkdownToBlocksIdempotent(markdown: string)
    ensures forall i :: 0 <= i < |BlocksOf(markdown)| ==> BlocksOf(BlocksOf(markdown)[i]) == [BlocksOf(markdown)[i]]
  {
    MarkdownToBlocksShape(markdown);
    forall i | 0 <= i < |BlocksOf(markdown)|
      ensures BlocksOf(BlocksOf(markdown)[i]) == [BlocksOf(markdown)[i]]
    {
      BlockIsItsOwnBlock(BlocksOf(markdown)[i]);
    }
  }

  // ---------------------------------------------------------------------
  // block_to_block_type

  datatype BlockType = Paragraph | Heading | Code | Quote | UnorderedList | OrderedList

  /** The prefixes that make a heading, as the source lists them. */
  const HeadingPrefixes: seq<string> := ["###### ", "##### ", "#### ", "### ", "## ", "# "]

  predicate StartsWithAny(s: string, prefixes: seq<string>) {
    exists i :: 0 <= i < |prefixes| && StartsWith(s, prefixes[i])
  }

  /** The lines of a block. */
  function Lines(block: string): seq<string> {
    Split(block, "\n")
  }

  predicate AllStartWith(lines: seq<string>, prefix: string) {
    forall i :: 0 <= i < |lines| ==> StartsWith(lines[i], prefix)
  }

  /** Line `i` starts with the decimal of `i + 1` and `". "`. */
  predicate Numbered(lines: seq<string>) {
    forall i :: 0 <= i < |lines| ==> StartsWith(lines[i], NatToString(i + 1) + ". ")
  }

  predicate CodeFenced(block: string) {
    StartsWith(block, "```") && EndsWith(block, "```") && |Lines(block)| > 1
  }

  /** What `block_to_block_type` computes: the first of heading, code,
      quote, unordered list and ordered list whose test passes, or a
      paragraph. */
  function Classify(block: string): BlockType {
    var lines := Lines(block);
    if StartsWithAny(block, HeadingPrefixes) then Heading
    else if CodeFenced(block) then BlockType.Code
    else if AllStartWith(lines, ">") then Quote
    else if AllStartWith(lines, "- ") then UnorderedList
    else if Numbered(lines) && |lines| > 0 then OrderedList
    else Paragraph
  }

  /** `block_to_block_type`; the ordered-list test is a loop that stops at
      the first line without its number. */
  method BlockToBlockType(block: string) returns (t: BlockType)
    ensures t == Classify(block)
  {
    var lines := Split(block, "\n");
    if StartsWithAny(block, HeadingPrefixes) {
      return Heading;
    }
    if StartsWith(block, "```") && EndsWith(block, "```") && |lines| > 1 {
      return BlockType.Code;
    }
    if AllStartWith(lines, ">") {
      return Quote;
    }
    if AllStartWith(lines, "- ") {
      return UnorderedList;
    }
    var isOrderedList := true;
    for i := 0 to |lines|
      invariant forall j :: 0 <= j < i ==> StartsWith(lines[j], NatToString(j + 1) + ". ")
    {
      if !StartsWith(lines[i], NatToString(i + 1) + ". ") {
        isOrderedList := false;
        break;
      }
    }
    if isOrderedList && |lines| > 0 {
      return OrderedList;
    }
    return Paragraph;
  }

  /** The number of `#` characters a text starts with. */
  function LeadingHashes(s: string): (n: nat)
    ensures n <= |s| && (forall k :: 0 <= k < n ==> s[k] == '#') && (n < |s| ==> s[n] != '#')
  {
    if s != [] && s[0] == '#' then 1 + LeadingHashes(s[1..]) else 0
  }

  /** `n` hashes. */
  function Hashes(n: nat): (h: string)
    ensures |h| == n && forall k :: 0 <= k < n ==> h[k] == '#'
  {
    seq(n, _ => '#')
  }

  /** A heading: one to six `#` followed by a space. */
  predicate HeadingShaped(block: string) {
    var n := LeadingHashes(block);
    1 <= n <= 6 && n < |block| && block[n] == ' '
  }

  /** The listed prefixes are the hashes from six down to one, each with a space. */
  lemma HeadingPrefixesAre()
    ensures |HeadingPrefixes| == 6
    ensures forall i :: 0 <= i < 6 ==> HeadingPrefixes[i] == Hashes(6 - i) + " "
  {
    assert HeadingPrefixes[0] == Hashes(6) + " ";
    assert HeadingPrefixes[1] == Hashes(5) + " ";
    assert HeadingPrefixes[2] == Hashes(4) + " ";
    assert HeadingPrefixes[3] == Hashes(3) + " ";
    assert HeadingPrefixes[4] == Hashes(2) + " ";
    assert HeadingPrefixes[5] == Hashes(1) + " ";
  }

  /** A text starts with `n` hashes and a space exactly when it starts with
      exactly `n` hashes, followed by a space. */
  lemma StartsWithHashes(s: string, n: nat)
    ensures StartsWith(s, Hashes(n) + " ") <==> LeadingHashes(s) == n && n < |s| && s[n] == ' '
  {
    var p := Hashes(n) + " ";
    assert |p| == n + 1 && p[n] == ' ';
    assert forall k :: 0 <= k < n ==> p[k] == '#';
    if StartsWith(s, p) {
      forall k | 0 <= k <= n
        ensures s[k] == p[k]
      {
        assert s[..n + 1][k] == s[k];
      }
    }
    if LeadingHashes(s) == n && n < |s| && s[n] == ' ' {
      forall k | 0 <= k <= n
        ensures s[..n + 1][k] == p[k]
      {
      }
      assert s[..n + 1] == p;
    }
  }

  /** `block_to_block_type` says HEADING exactly for one to six `#` and a space. */
  lemma ClassifyHeading(block: string)
    ensures Classify(block) == Heading <==> HeadingShaped(block)
  {
    HeadingPrefixesAre();
    var n := LeadingHashes(block);
    if StartsWithAny(block, HeadingPrefixes) {
      var i :| 0 <= i < 6 && StartsWith(block, HeadingPrefixes[i]);
      StartsWithHashes(block, 6 - i);
    }
    if HeadingShaped(block) {
      StartsWithHashes(block, n);
      assert StartsWith(block, HeadingPrefixes[6 - n]);
    }
  }

  /** A text that starts with a non-empty prefix starts with its first character. */
  lemma FirstChar(s: string, prefix: string)
    ensures StartsWith(s, prefix) && prefix != "" ==> s[0] == prefix[0]
  {
    if StartsWith(s, prefix) && prefix != "" {
      assert s[..|prefix|][0] == s[0];
    }
  }

  /** A block starts with the first character of its first line. */
  lemma FirstLineChar(block: string)
    ensures Lines(block)[0] != "" ==> block != "" && block[0] == Lines(block)[0][0]
  {
    SplitFirst(block, "\n");
    FirstChar(block, Lines(block)[0]);
  }

  /** A heading starts with `#`. */
  lemma HeadingStart(block: string)
    ensures StartsWithAny(block, HeadingPrefixes) ==> block != "" && block[0] == '#'
  {
    if StartsWithAny(block, HeadingPrefixes) {
      var i :| 0 <= i < |HeadingPrefixes| && StartsWith(block, HeadingPrefixes[i]);
      HeadingPrefixesAre();
      FirstChar(block, HeadingPrefixes[i]);
    }
  }

  /** CODE exactly for a block that starts and ends with three backticks and
      has more than one line. */
  lemma ClassifyCode(block: string)
    ensures Classify(block) == BlockType.Code <==>
            StartsWith(block, "```") && EndsWith(block, "```") && Contains(block, "\n")
  {
    SplitSeveral(block, "\n");
    HeadingStart(block);
    FirstChar(block, "```");
  }

  /** QUOTE exactly when every line starts with `>`. */
  lemma ClassifyQuote(block: string)
    ensures Classify(block) == Quote <==> AllStartWith(Lines(block), ">")
  {
    var lines := Lines(block);
    FirstChar(lines[0], ">");
    FirstLineChar(block);
    HeadingStart(block);
    FirstChar(block, "```");
  }

  /** UNORDERED_LIST exactly when every line starts with `- `. */
  lemma ClassifyUnorderedList(block: string)
    ensures Classify(block) == UnorderedList <==> AllStartWith(Lines(block), "- ")
  {
    var lines := Lines(block);
    FirstChar(lines[0], ">");
    FirstChar(lines[0], "- ");
    FirstLineChar(block);
    HeadingStart(block);
    FirstChar(block, "```");
  }

  /** ORDERED_LIST exactly when line `i` starts with the number `i + 1`
      followed by `". "`, for every line. */
  lemma ClassifyOrderedList(block: string)
    ensures Classify(block) == OrderedList <==> Numbered(Lines(block))
  {
    var lines := Lines(block);
    assert NatToString(1) + ". " == "1. ";
    FirstChar(lines[0], "1. ");
    FirstChar(lines[0], ">");
    FirstChar(lines[0], "- ");
    FirstLineChar(block);
    HeadingStart(block);
    FirstChar(block, "```");
  }

  /** In a line that starts with a number and `". "`, the first `". "` is
      the one after the number. */
  lemma NumberedIndex(line: string, n: nat)
    requires StartsWith(line, NatToString(n) + ". ")
    ensures IndexOf(line, ". ") == Some(|NatToString(n)|)
  {
    var digits := NatToString(n);
    var prefix := digits + ". ";
    assert line[..|prefix|] == prefix;
    assert line[|digits|..|digits| + 2] == prefix[|digits|..];
    forall j: nat | j < |digits|
      ensures !OccursAt(line, ". ", j)
    {
      assert line[j] == prefix[j] == digits[j];
      assert j + 2 <= |line| ==> line[j..j + 2][0] == line[j];
    }
    IndexOfIs(line, ". ", |digits|);
  }

  // ---------------------------------------------------------------------
  // text_to_children

  /** The HTML leaf of every span, in order. */
  function Leaves(nodes: seq<TextNode>): (leaves: seq<HtmlNode>)
    requires forall k :: 0 <= k < |nodes| ==> HasUrlIfNeeded(nodes[k])
    ensures |leaves| == |nodes|
  {
    seq(|nodes|, k requires 0 <= k < |nodes| => TextNodeToHtmlNode(nodes[k]))
  }

  /** What `text_to_children` computes: the tokenizer's spans as HTML
      leaves, or the tokenizer's error. */
  function Children(text: string): Result<seq<HtmlNode>> {
    match TextToTextNodes(text)
    case Err(e) => Err(e)
    case Ok(nodes) =>
      TextToTextNodesUrls(text);
      Ok(Leaves(nodes))
  }

  /** `text_to_children`. */
  method TextToChildren(text: string) returns (r: Result<seq<HtmlNode>>)
    ensures r == Children(text)
  {
    var nodes :- TextToTextNodes(text);
    TextToTextNodesUrls(text);
    var children := ToLeaves(nodes);
    r := Ok(children);
  }

  /** The loop of `text_to_children`: one leaf per span, appended in order. */
  method ToLeaves(nodes: seq<TextNode>) returns (children: seq<HtmlNode>)
    requires forall k :: 0 <= k < |nodes| ==> HasUrlIfNeeded(nodes[k])
    ensures children == Leaves(nodes)
  {
    children := [];
    for i := 0 to |nodes|
      invariant |children| == i
      invariant forall k :: 0 <= k < i ==> children[k] == TextNodeToHtmlNode(nodes[k])
    {
      var htmlNode := TextNodeToHtmlNode(nodes[i]);
      children := children + [htmlNode];
    }
  }

  /** The children are one well-formed leaf per span, and fail only with
      an unmatched delimiter. */
  lemma ChildrenShape(text: string)
    ensures Children(text).Ok? <==> TextToTextNodes(text).Ok?
    ensures Children(text).Ok? ==>
              |Children(text).value| == |TextToTextNodes(text).value| && AllWellFormed(Children(text).value) &&
              forall k :: 0 <= k < |Children(text).value| ==> Children(text).value[k].Leaf?
    ensures Children(text).Err? ==> Children(text).error.UnmatchedDelimiter?
  {
    if TextToTextNodes(text).Err? {
      TextToTextNodesErrors(text);
    }
  }

  // ---------------------------------------------------------------------
  // The renderers

  /** An element with the given tag, children and no attributes. */
  function Element(tag: string, children: seq<HtmlNode>): HtmlNode {
    Parent(Some(tag), Present(children), [])
  }

  /** What `paragraph_to_html_node` computes: a `p` holding the inline
      content of the block with its newlines turned into spaces. */
  function ParagraphNode(block: string): Result<HtmlNode> {
    var children :- Children(Replace(block, "\n", " "));
    Ok(Element("p", children))
  }

  /** `paragraph_to_html_node`. */
  method ParagraphToHtmlNode(block: string) returns (r: Result<HtmlNode>)
    ensures r == ParagraphNode(block)
  {
    var text := Replace(block, "\n", " ");
    var children :- TextToChildren(text);
    r := Ok(Element("p", children));
  }

  /** The text a paragraph tokenizes is the block, each newline become a space. */
  lemma ParagraphText(block: string)
    ensures |Replace(block, "\n", " ")| == |block|
    ensures forall k :: 0 <= k < |block| ==>
              Replace(block, "\n", " ")[k] == if block[k] == '\n' then ' ' else block[k]
  {
    ReplaceChar(block, '\n', ' ');
  }

  /** What `heading_to_html_node` computes: an `h` element numbered by the
      leading `#`s, holding the inline content after them and one more
      character. */
  function HeadingNode(block: string): Result<HtmlNode> {
    var level := LeadingHashes(block);
    var children :- Children(Drop(block, level + 1));
    Ok(Element("h" + NatToString(level), children))
  }

  /** `heading_to_html_node`; the level is counted by a loop. */
  method HeadingToHtmlNode(block: string) returns (r: Result<HtmlNode>)
    ensures r == HeadingNode(block)
  {
    var level := 0;
    while level < |block| && block[level] == '#'
      invariant level <= |block| && forall k :: 0 <= k < level ==> block[k] == '#'
      decreases |block| - level
    {
      level := level + 1;
    }
    var text := Drop(block, level + 1);
    var children := TextToChildren(text);
    HeadingNodeOf(block, level, children);
    if children.Err? {
      return Err(children.error);
    }
    r := Ok(Element("h" + NatToString(level), children.value));
  }

  /** `HeadingNode` from the count of `#`s the loop stopped at and the
      inline content of the rest. */
  lemma HeadingNodeOf(block: string, level: nat, children: Result<seq<HtmlNode>>)
    requires level <= |block| && (forall k :: 0 <= k < level ==> block[k] == '#')
    requires level < |block| ==> block[level] != '#'
    requires children == Children(Drop(block, level + 1))
    ensures children.Err? ==> HeadingNode(block) == Err(children.error)
    ensures children.Ok? ==> HeadingNode(block) == Ok(Element("h" + NatToString(level), children.value))
  {
    assert LeadingHashes(block) == level;
  }

  /** `n` hashes, a space and a text make a heading of level `n` holding
      that text. */
  lemma HeadingRoundTrip(n: nat, text: string)
    requires 1 <= n <= 6
    ensures Classify(Hashes(n) + " " + text) == Heading
    ensures HeadingNode(Hashes(n) + " " + text) ==
            (match Children(text)
             case Ok(children) => Ok(Element("h" + NatToString(n), children))
             case Err(e) => Err(e))
  {
    var block := Hashes(n) + " " + text;
    StartsWithHashes(block, n);
    assert block[..n + 1] == Hashes(n) + " ";
    ClassifyHeading(block);
    assert Drop(block, n + 1) == text;
  }

  /** Python's `s[i:j]` for indices inside the text: empty when `i >= j`. */
  function Slice(s: string, i: nat, j: nat): string
    requires i <= |s| && j <= |s|
  {
    if i <= j then s[i..j] else ""
  }

  /** `code_to_html_node`: a `pre` holding one `code` leaf with the text
      between the first newline and the last three characters, not
      tokenized. A block without the opening fence, or without a newline,
      is an error. */
  function CodeToHtmlNode(block: string): (r: Result<HtmlNode>)
    ensures r.Ok? <==> StartsWith(block, "```") && Contains(block, "\n")
    ensures !StartsWith(block, "```") ==> r == Err(InvalidCodeBlock)
    ensures r.Ok? ==> WellFormed(r.value)
  {
    if !StartsWith(block, "```") then Err(InvalidCodeBlock)
    else match IndexOf(block, "\n")
      case None => Err(SubstringNotFound("\n"))
      case Some(k) =>
        var code := Leaf(Some("code"), Some(Slice(block, k + 1, |block| - 3)), []);
        assert AllWellFormed([code]);
        Ok(Element("pre", [code]))
  }

  /** A fence with an info string, a newline, a body and a closing fence
      renders the body verbatim. */
  lemma CodeRoundTrip(info: string, body: string)
    requires !Contains(info, "\n")
    ensures CodeToHtmlNode("```" + info + "\n" + body + "```") ==
            Ok(Element("pre", [Leaf(Some("code"), Some(body), [])]))
  {
    var block := "```" + info + "\n" + body + "```";
    var k := 3 + |info|;
    assert block[..3] == "```";
    assert block[k..k + 1] == "\n";
    forall j: nat | j < k
      ensures !OccursAt(block, "\n", j)
    {
      if j >= 3 {
        assert !OccursAt(info, "\n", j - 3);
        assert info[j - 3..j - 2] == block[j..j + 1];
      } else {
        assert block[j..j + 1][0] == "```"[j];
      }
    }
    IndexOfIs(block, "\n", k);
    assert block[k + 1..|block| - 3] == body;
  }

  /** What one line of a quote contributes: the line without `> ` or `>`,
      or nothing for a line without `>`. */
  function QuoteLine(line: string): seq<string> {
    if StartsWith(line, "> ") then [line[2..]]
    else if StartsWith(line, ">") then [line[1..]]
    else []
  }

  /** The cleaned lines of a quote, in order. */
  function CleanQuote(lines: seq<string>): seq<string>
    decreases |lines|
  {
    if lines == [] then [] else CleanQuote(lines[..|lines| - 1]) + QuoteLine(lines[|lines| - 1])
  }

  /** What `quote_to_html_node` computes: a `blockquote` holding the
      inline content of the cleaned lines joined by newlines. */
  function QuoteNode(block: string): Result<HtmlNode> {
    var children :- Children(Join(CleanQuote(Lines(block)), "\n"));
    Ok(Element("blockquote", children))
  }

  /** `quote_to_html_node`. */
  method QuoteToHtmlNode(block: string) returns (r: Result<HtmlNode>)
    ensures r == QuoteNode(block)
  {
    var lines := Split(block, "\n");
    var cleanedLines: seq<string> := [];
    for i := 0 to |lines|
      invariant cleanedLines == CleanQuote(lines[..i])
    {
      var line := lines[i];
      if StartsWith(line, "> ") {
        cleanedLines := cleanedLines + [line[2..]];
      } else if StartsWith(line, ">") {
        cleanedLines := cleanedLines + [line[1..]];
      }
      assert lines[..i + 1][..i] == lines[..i];
    }
    assert lines[..|lines|] == lines;
    var text := Join(cleanedLines, "\n");
    var children :- TextToChildren(text);
    r := Ok(Element("blockquote", children));
  }

  /** In a quote every line is kept: it is `> ` or `>` followed by its
      cleaned text, and `>` only when the text does not start with a space. */
  lemma {:induction false} QuoteKeepsLines(lines: seq<string>)
    requires AllStartWith(lines, ">")
    ensures |CleanQuote(lines)| == |lines|
    ensures forall i :: 0 <= i < |lines| ==>
              lines[i] == "> " + CleanQuote(lines)[i] ||
              (lines[i] == ">" + CleanQuote(lines)[i] && !StartsWith(CleanQuote(lines)[i], " "))
    decreases |lines|
  {
    if lines != [] {
      var init, last := lines[..|lines| - 1], lines[|lines| - 1];
      QuoteKeepsLines(init);
      var c := CleanQuote(lines);
      assert c == CleanQuote(init) + QuoteLine(last);
      if StartsWith(last, "> ") {
        assert last == last[..2] + last[2..];
      } else {
        assert last == last[..1] + last[1..];
        assert |last| >= 2 ==> last[..2] == [last[0], last[1]] && last[1..][..1] == [last[1]];
      }
    }
  }

  /** The result of `f` on each line (or block), in order; the first one
      that fails decides the error. */
  function MapEach(lines: seq<string>, f: string -> Result<HtmlNode>): Result<seq<HtmlNode>>
    decreases |lines|
  {
    if lines == [] then Ok([])
    else
      var front :- MapEach(lines[..|lines| - 1], f);
      var last :- f(lines[|lines| - 1]);
      Ok(front + [last])
  }

  /** No lines, no results. */
  lemma MapEachEmpty(f: string -> Result<HtmlNode>)
    ensures MapEach([], f) == Ok([])
  { }

  /** The results are one per line, exactly when every line succeeds. */
  lemma {:induction false} MapEachOk(lines: seq<string>, f: string -> Result<HtmlNode>)
    ensures MapEach(lines, f).Ok? <==> forall i :: 0 <= i < |lines| ==> f(lines[i]).Ok?
    ensures MapEach(lines, f).Ok? ==>
              |MapEach(lines, f).value| == |lines| &&
              forall i :: 0 <= i < |lines| ==> MapEach(lines, f).value[i] == f(lines[i]).value
    decreases |lines|
  {
    if lines != [] {
      var init := lines[..|lines| - 1];
      MapEachOk(init, f);
      assert forall i :: 0 <= i < |init| ==> init[i] == lines[i];
    }
  }

  /** A failure is the failure of one of the lines. */
  lemma {:induction false} MapEachErr(lines: seq<string>, f: string -> Result<HtmlNode>)
    requires MapEach(lines, f).Err?
    ensures exists i :: 0 <= i < |lines| && f(lines[i]) == Err(MapEach(lines, f).error)
    decreases |lines|
  {
    var init := lines[..|lines| - 1];
    if MapEach(init, f).Err? {
      MapEachErr(init, f);
      var i :| 0 <= i < |init| && f(init[i]) == Err(MapEach(init, f).error);
      assert init[i] == lines[i];
    } else {
      assert f(lines[|lines| - 1]) == Err(MapEach(lines, f).error);
    }
  }

  /** The text of a list item: after `- ` for an unordered list, after the
      first `". "` for an ordered one, which fails without one. */
  function ItemText(line: string, ordered: bool): Result<string> {
    if !ordered then Ok(Drop(line, 2))
    else match IndexOf(line, ". ")
      case None => Err(SubstringNotFound(". "))
      case Some(k) => Ok(line[k + 2..])
  }

  /** One `li` holding the inline content of the item's text. */
  function ListItem(line: string, ordered: bool): Result<HtmlNode> {
    var text :- ItemText(line, ordered);
    var children :- Children(text);
    Ok(Element("li", children))
  }

  function ItemOf(ordered: bool): string -> Result<HtmlNode> {
    line => ListItem(line, ordered)
  }

  /** What `unordered_list_to_html_node` (`ordered` false) and
      `ordered_list_to_html_node` (`ordered` true) compute: a `ul` or `ol`
      holding one `li` per line. */
  function ListNode(block: string, ordered: bool): Result<HtmlNode> {
    var items :- MapEach(Lines(block), ItemOf(ordered));
    Ok(Element(if ordered then "ol" else "ul", items))
  }

  /** `unordered_list_to_html_node`. */
  method UnorderedListToHtmlNode(block: string) returns (r: Result<HtmlNode>)
    ensures r == ListNode(block, false)
  {
    var lines := Split(block, "\n");
    var listItems: seq<HtmlNode> := [];
    for i := 0 to |lines|
      invariant MapEach(lines[..i], ItemOf(false)) == Ok(listItems)
    {
      var text := Drop(lines[i], 2);
      var children := TextToChildren(text);
      ghost var item := ItemOf(false)(lines[i]);
      MapEachStep(lines, i, ItemOf(false));
      if children.Err? {
        assert item == Err(children.error);
        MapEachErrPrefix(lines, i + 1, ItemOf(false));
        return Err(children.error);
      }
      assert item == Ok(Element("li", children.value));
      listItems := listItems + [Element("li", children.value)];
    }
    assert lines[..|lines|] == lines;
    r := Ok(Element("ul", listItems));
  }

  /** `ordered_list_to_html_node`. */
  method OrderedListToHtmlNode(block: string) returns (r: Result<HtmlNode>)
    ensures r == ListNode(block, true)
  {
    var lines := Split(block, "\n");
    var listItems: seq<HtmlNode> := [];
    for i := 0 to |lines|
      invariant MapEach(lines[..i], ItemOf(true)) == Ok(listItems)
    {
      var line := lines[i];
      var found := IndexOf(line, ". ");
      ghost var item := ItemOf(true)(line);
      MapEachStep(lines, i, ItemOf(true));
      if found.None? {
        assert item == Err(SubstringNotFound(". "));
        MapEachErrPrefix(lines, i + 1, ItemOf(true));
        return Err(SubstringNotFound(". "));
      }
      var spaceIndex := found.value + 2;
      var text := line[spaceIndex..];
      assert ItemText(line, true) == Ok(text);
      var children := TextToChildren(text);
      if children.Err? {
        assert item == Err(children.error);
        MapEachErrPrefix(lines, i + 1, ItemOf(true));
        return Err(children.error);
      }
      assert item == Ok(Element("li", children.value));
      listItems := listItems + [Element("li", children.value)];
    }
    assert lines[..|lines|] == lines;
    r := Ok(Element("ol", listItems));
  }

  /** One more line: its result is appended, or its failure is the result. */
  lemma MapEachStep(lines: seq<string>, i: nat, f: string -> Result<HtmlNode>)
    requires i < |lines|
    ensures MapEach(lines[..i], f).Ok? && f(lines[i]).Ok? ==>
              MapEach(lines[..i + 1], f) == Ok(MapEach(lines[..i], f).value + [f(lines[i]).value])
    ensures MapEach(lines[..i], f).Ok? && f(lines[i]).Err? ==>
              MapEach(lines[..i + 1], f) == Err(f(lines[i]).error)
  {
    assert lines[..i + 1][..i] == lines[..i];
  }

  /** Once a prefix of the lines fails, the whole list fails the same way. */
  lemma {:induction false} MapEachErrPrefix(lines: seq<string>, j: nat, f: string -> Result<HtmlNode>)
    requires j <= |lines| && MapEach(lines[..j], f).Err?
    ensures MapEach(lines, f) == MapEach(lines[..j], f)
    decreases |lines| - j
  {
    if j == |lines| {
      assert lines[..j] == lines;
    } else {
      assert lines[..j + 1][..j] == lines[..j];
      MapEachErrPrefix(lines, j + 1, f);
    }
  }

  /** A list renders one `li` per line, holding the inline content of the
      line's text; it fails exactly when some line does. */
  lemma ListNodeShape(block: string, ordered: bool)
    ensures ListNode(block, ordered).Ok? <==>
            forall i :: 0 <= i < |Lines(block)| ==> ListItem(Lines(block)[i], ordered).Ok?
    ensures ListNode(block, ordered).Ok? ==>
              var items := ListNode(block, ordered).value.children.nodes;
              |items| == |Lines(block)| &&
              forall i :: 0 <= i < |items| ==> items[i] == ListItem(Lines(block)[i], ordered).value
  {
    MapEachOk(Lines(block), ItemOf(ordered));
  }

  /** In an unordered list every item's text is its line after `- `. */
  lemma UnorderedItems(lines: seq<string>)
    requires AllStartWith(lines, "- ")
    ensures forall i :: 0 <= i < |lines| ==>
              ItemText(lines[i], false).Ok? && lines[i] == "- " + ItemText(lines[i], false).value
  {
    forall i | 0 <= i < |lines|
      ensures lines[i] == "- " + ItemText(lines[i], false).value
    {
      assert lines[i] == lines[i][..2] + lines[i][2..];
    }
  }

  /** In an ordered list every line has its `". "`, and every item's text
      is its line after the number and `". "`. */
  lemma OrderedItems(lines: seq<string>)
    requires Numbered(lines)
    ensures forall i :: 0 <= i < |lines| ==>
              ItemText(lines[i], true) == Ok(lines[i][|NatToString(i + 1)| + 2..])
  {
    forall i | 0 <= i < |lines|
      ensures ItemText(lines[i], true) == Ok(lines[i][|NatToString(i + 1)| + 2..])
    {
      NumberedIndex(lines[i], i + 1);
    }
  }

  // ---------------------------------------------------------------------
  // block_to_html_node and markdown_to_html_node

  /** What `block_to_html_node` computes: the renderer of the block's kind. */
  function BlockNode(block: string): Result<HtmlNode> {
    var blockType := Classify(block);
    if blockType == Paragraph then ParagraphNode(block)
    else if blockType == Heading then HeadingNode(block)
    else if blockType == BlockType.Code then CodeToHtmlNode(block)
    else if blockType == Quote then QuoteNode(block)
    else if blockType == UnorderedList then ListNode(block, false)
    else ListNode(block, true)
  }

  /** `block_to_html_node`. */
  method BlockToHtmlNode(block: string) returns (r: Result<HtmlNode>)
    ensures r == BlockNode(block)
  {
    var blockType := BlockToBlockType(block);
    if blockType == Paragraph {
      r := ParagraphToHtmlNode(block);
    } else if blockType == Heading {
      r := HeadingToHtmlNode(block);
    } else if blockType == BlockType.Code {
      r := CodeToHtmlNode(block);
    } else if blockType == Quote {
      r := QuoteToHtmlNode(block);
    } else if blockType == UnorderedList {
      r := UnorderedListToHtmlNode(block);
    } else {
      r := OrderedListToHtmlNode(block);
    }
  }

  /** What `markdown_to_html_node` computes: a `div` holding the rendering
      of every block, in order. */
  function MarkdownNode(markdown: string): Result<HtmlNode> {
    var children :- MapEach(BlocksOf(markdown), BlockNode);
    Ok(Element("div", children))
  }

  /** The loop of `markdown_to_html_node`: every block rendered, in order. */
  method BlocksToHtmlNodes(blocks: seq<string>) returns (r: Result<seq<HtmlNode>>)
    ensures r == MapEach(blocks, BlockNode)
  {
    var children: seq<HtmlNode> := [];
    for i := 0 to |blocks|
      invariant MapEach(blocks[..i], BlockNode) == Ok(children)
    {
      var htmlNode := BlockToHtmlNode(blocks[i]);
      MapEachStep(blocks, i, BlockNode);
      if htmlNode.Err? {
        MapEachErrPrefix(blocks, i + 1, BlockNode);
        return Err(htmlNode.error);
      }
      children := children + [htmlNode.value];
    }
    assert blocks[..|blocks|] == blocks;
    r := Ok(children);
  }

  /** `markdown_to_html_node`. */
  method MarkdownToHtmlNode(markdown: string) returns (r: Result<HtmlNode>)
    ensures r == MarkdownNode(markdown)
  {
    var blocks := MarkdownToBlocks(markdown);
    var children :- BlocksToHtmlNodes(blocks);
    r := Ok(Element("div", children));
  }

  /** An element with a tag and well-formed children is well-formed. */
  lemma ElementWellFormed(tag: string, children: seq<HtmlNode>)
    requires tag != "" && AllWellFormed(children)
    ensures WellFormed(Element(tag, children))
  {
  }

  /** A list item that renders is a well-formed `li`. */
  lemma ListItemWellFormed(line: string, ordered: bool)
    requires ListItem(line, ordered).Ok?
    ensures WellFormed(ListItem(line, ordered).value)
  {
    ChildrenShape(ItemText(line, ordered).value);
  }

  /** A list that renders is a well-formed `ul` or `ol`. */
  lemma ListNodeWellFormed(block: string, ordered: bool)
    requires ListNode(block, ordered).Ok?
    ensures WellFormed(ListNode(block, ordered).value)
  {
    var lines := Lines(block);
    MapEachOk(lines, ItemOf(ordered));
    var items := MapEach(lines, ItemOf(ordered)).value;
    forall i | 0 <= i < |items|
      ensures WellFormed(items[i])
    {
      ListItemWellFormed(lines[i], ordered);
    }
  }

  /** Whatever a block renders to is a well-formed tree, so `to_html` on it
      succeeds. */
  lemma BlockNodeWellFormed(block: string)
    requires BlockNode(block).Ok?
    ensures WellFormed(BlockNode(block).value)
  {
    var blockType := Classify(block);
    if blockType == Paragraph {
      ChildrenShape(Replace(block, "\n", " "));
    } else if blockType == Heading {
      ChildrenShape(Drop(block, LeadingHashes(block) + 1));
    } else if blockType == Quote {
      ChildrenShape(Join(CleanQuote(Lines(block)), "\n"));
    } else if blockType == UnorderedList {
      ListNodeWellFormed(block, false);
    } else if blockType == OrderedList {
      ListNodeWellFormed(block, true);
    }
  }

  /** A list whose every line has the text the renderer looks for fails
      only in the tokenizer. */
  lemma ListNodeErrors(block: string, ordered: bool)
    requires forall i :: 0 <= i < |Lines(block)| ==> ItemText(Lines(block)[i], ordered).Ok?
    requires ListNode(block, ordered).Err?
    ensures ListNode(block, ordered).error.UnmatchedDelimiter?
  {
    var lines := Lines(block);
    MapEachErr(lines, ItemOf(ordered));
    var i :| 0 <= i < |lines| && ItemOf(ordered)(lines[i]) == Err(MapEach(lines, ItemOf(ordered)).error);
    ChildrenShape(ItemText(lines[i], ordered).value);
  }

  /** The classifier establishes what each renderer needs: a block that
      fails to render fails in the tokenizer, never on a missing fence,
      newline or `". "`. */
  lemma BlockNodeErrors(block: string)
    requires BlockNode(block).Err?
    ensures BlockNode(block).error.UnmatchedDelimiter?
  {
    var blockType := Classify(block);
    if blockType == Paragraph {
      ChildrenShape(Replace(block, "\n", " "));
    } else if blockType == Heading {
      ChildrenShape(Drop(block, LeadingHashes(block) + 1));
    } else if blockType == BlockType.Code {
      ClassifyCode(block);
    } else if blockType == Quote {
      ChildrenShape(Join(CleanQuote(Lines(block)), "\n"));
    } else if blockType == UnorderedList {
      ListNodeErrors(block, false);
    } else {
      ClassifyOrderedList(block);
      OrderedItems(Lines(block));
      ListNodeErrors(block, true);
    }
  }

  /** The document renders to a `div` with one child per block, in block
      order, exactly when every block renders. */
  lemma MarkdownNodeShape(markdown: string)
    ensures MarkdownNode(markdown).Ok? <==>
            forall i :: 0 <= i < |BlocksOf(markdown)| ==> BlockNode(BlocksOf(markdown)[i]).Ok?
    ensures MarkdownNode(markdown).Ok? ==>
              var children := MarkdownNode(markdown).value.children.nodes;
              MarkdownNode(markdown).value == Element("div", children) &&
              |children| == |BlocksOf(markdown)| &&
              forall i :: 0 <= i < |children| ==> children[i] == BlockNode(BlocksOf(markdown)[i]).value
  {
    MapEachOk(BlocksOf(markdown), BlockNode);
  }

  /** A document fails to render only in the tokenizer. */
  lemma MarkdownNodeErrors(markdown: string)
    requires MarkdownNode(markdown).Err?
    ensures MarkdownNode(markdown).error.UnmatchedDelimiter?
  {
    var blocks := BlocksOf(markdown);
    MapEachErr(blocks, BlockNode);
    var i :| 0 <= i < |blocks| && BlockNode(blocks[i]) == Err(MapEach(blocks, BlockNode).error);
    BlockNodeErrors(blocks[i]);
  }

  /** A rendered document is a well-formed tree, so `to_html` succeeds on it. */
  lemma MarkdownNodeRenders(markdown: string)
    requires MarkdownNode(markdown).Ok?
    ensures WellFormed(MarkdownNode(markdown).value)
    ensures ToHtml(MarkdownNode(markdown).value).Ok?
  {
    var blocks := BlocksOf(markdown);
    MapEachOk(blocks, BlockNode);
    var children := MarkdownNode(markdown).value.children.nodes;
    forall i | 0 <= i < |children|
      ensures WellFormed(children[i])
    {
      BlockNodeWellFormed(blocks[i]);
    }
    RenderOkIffWellFormed(MarkdownNode(markdown).value);
  }

  /** A document that is empty or only whitespace renders to an empty
      `div`. */
  lemma MarkdownNodeBlank(markdown: string)
    requires AllSpace(markdown)
    ensures MarkdownNode(markdown) == Ok(Element("div", []))
  {
    MarkdownToBlocksBlank(markdown);
    MapEachEmpty(BlockNode);
  }

  // ---------------------------------------------------------------------
  // The classifier on the cases of src/test_block_markdown.py

  /** Only a block starting with `#`, a backtick, `>`, `-` or `1` can be
      anything but a paragraph. */
  lemma ClassifiedStart(block: string)
    ensures Classify(block) != Paragraph ==> block != "" && block[0] in "#`>-1"
  {
    var lines := Lines(block);
    assert NatToString(1) + ". " == "1. ";
    HeadingStart(block);
    FirstChar(block, "```");
    FirstChar(lines[0], ">");
    FirstChar(lines[0], "- ");
    FirstChar(lines[0], "1. ");
    FirstLineChar(block);
  }

  /** A text without a newline is one line. */
  lemma OneLine(line: string)
    requires NoChar(line, '\n')
    ensures Lines(line) == [line]
  {
    NoCharNotContains(line, '\n');
    SplitAbsent(line, "\n");
  }

  /** A one-line block starting with `#` that is not a heading is a
      paragraph. */
  lemma NotOtherwise(block: string)
    requires NoChar(block, '\n') && block != "" && block[0] == '#'
    ensures Classify(block) != Heading ==> Classify(block) == Paragraph
  {
    OneLine(block);
    var lines := Lines(block);
    assert lines[0] == block;
    assert NatToString(0 + 1) + ". " == "1. ";
    assert AllStartWith(lines, ">") ==> StartsWith(block, ">");
    assert AllStartWith(lines, "- ") ==> StartsWith(block, "- ");
    assert Numbered(lines) ==> StartsWith(block, "1. ");
    FirstChar(block, "```");
    FirstChar(block, ">");
    FirstChar(block, "- ");
    FirstChar(block, "1. ");
  }

  /** src/test_block_markdown.py: headings of level one, two and six. */
  lemma HeadingExamples()
    ensures Classify("# This is a heading") == Heading
    ensures Classify("## This is a heading") == Heading
    ensures Classify("###### This is a heading") == Heading
  {
    assert StartsWith("# This is a heading", HeadingPrefixes[5]);
    assert StartsWith("## This is a heading", HeadingPrefixes[4]);
    assert StartsWith("###### This is a heading", HeadingPrefixes[0]);
  }

  /** src/test_block_markdown.py: a `#` without a space is a paragraph. */
  lemma HeadingWithoutSpaceExample()
    ensures Classify("#This is not a heading") == Paragraph
  {
    var b := "#This is not a heading";
    assert b[0] == '#' && b[1] == 'T';
    HashWithoutSpace(b);
  }

  /** One line that starts with a `#` followed by neither a space nor
      another `#` is a paragraph. */
  lemma HashWithoutSpace(block: string)
    requires NoChar(block, '\n') && |block| >= 2 && block[0] == '#' && block[1] != ' ' && block[1] != '#'
    ensures Classify(block) == Paragraph
  {
    assert LeadingHashes(block) == 1;
    ClassifyHeading(block);
    NotOtherwise(block);
  }

  /** Seven or more `#` never make a heading. */
  lemma TooManyHashes(block: string)
    ensures StartsWith(block, Hashes(7)) ==> Classify(block) != Heading
  {
    ClassifyHeading(block);
  }
}
