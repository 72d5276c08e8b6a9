/** The pure parts of page generation: the title of a document and the
    filling of the page template.

    Reading and writing files, walking directories and copying the static
    tree are left to the program's I/O layer and are not modelled; what is
    left is a function from the markdown text, the template text and the
    base path to the page text. */
module Site {
  import opened Wrappers
  import opened Strings
  import opened HtmlNodes
  import opened BlockMarkdown

  // ---------------------------------------------------------------------
  // extract_title

  /** A line that gives the title: stripped, it starts with `"# "`. */
  predicate IsTitleLine(line: string) {
    StartsWith(Strip(line), "# ")
  }

  /** The title a line gives: what follows `"# "`, stripped. */
  function TitleText(line: string): string {
    Strip(Drop(Strip(line), 2))
  }

  /** The title a line gives, if it is a title line. */
  function TitleOf(line: string): Option<string> {
    if IsTitleLine(line) then Some(TitleText(line)) else None
  }

  /** The first of the lines for which `f` gives a value, or `NoTitle`. */
  function FirstOf(lines: seq<string>, f: string -> Option<string>): Result<string>
    decreases |lines|
  {
    if lines == [] then Err(NoTitle)
    else if f(lines[0]).Some? then Ok(f(lines[0]).value)
    else FirstOf(lines[1..], f)
  }

  /** The title of a document given as lines: that of the first title line. */
  function Title(lines: seq<string>): Result<string> {
    FirstOf(lines, TitleOf)
  }

  /** `extract_title`: a loop over the lines that returns at the first
      title line and fails after the last. */
  method ExtractTitle(markdown: string) returns (r: Result<string>)
    ensures r == Title(Lines(markdown))
  {
    var lines := Split(markdown, "\n");
    for i := 0 to |lines|
      invariant FirstOf(lines[i..], TitleOf) == Title(lines)
    {
      var stripped := Strip(lines[i]);
      if StartsWith(stripped, "# ") {
        return Ok(Strip(Drop(stripped, 2)));
      }
      assert lines[i..][1..] == lines[i + 1..];
    }
    assert lines[|lines|..] == [];
    return Err(NoTitle);
  }

  lemma {:induction false} FirstOfWins(lines: seq<string>, i: nat, f: string -> Option<string>)
    requires i < |lines| && f(lines[i]).Some?
    requires forall j :: 0 <= j < i ==> f(lines[j]).None?
    ensures FirstOf(lines, f) == Ok(f(lines[i]).value)
    decreases i
  {
    if i > 0 {
      FirstOfWins(lines[1..], i - 1, f);
    }
  }

  lemma {:induction false} FirstOfFound(lines: seq<string>, f: string -> Option<string>) returns (i: nat)
    requires FirstOf(lines, f).Ok?
    ensures i < |lines| && f(lines[i]) == Some(FirstOf(lines, f).value)
    ensures forall j :: 0 <= j < i ==> f(lines[j]).None?
    decreases |lines|
  {
    if f(lines[0]).Some? {
      i := 0;
    } else {
      var rest := lines[1..];
      var k := FirstOfFound(rest, f);
      i := k + 1;
      assert lines[i] == rest[k];
      forall j | 0 < j < i
        ensures f(lines[j]).None?
      {
        assert lines[j] == rest[j - 1];
      }
    }
  }

  lemma {:induction false} FirstOfNone(lines: seq<string>, f: string -> Option<string>)
    ensures FirstOf(lines, f).Err? <==> forall i :: 0 <= i < |lines| ==> f(lines[i]).None?
    ensures FirstOf(lines, f).Err? ==> FirstOf(lines, f).error == NoTitle
    decreases |lines|
  {
    if FirstOf(lines, f).Ok? {
      var i := FirstOfFound(lines, f);
    } else if lines != [] {
      var rest := lines[1..];
      FirstOfNone(rest, f);
      forall i | 0 < i < |lines|
        ensures f(lines[i]).None?
      {
        assert lines[i] == rest[i - 1];
      }
    }
  }

  /** The first title line decides the title; later ones are ignored. */
  lemma TitleFirstWins(lines: seq<string>, i: nat)
    requires i < |lines| && IsTitleLine(lines[i])
    requires forall j :: 0 <= j < i ==> !IsTitleLine(lines[j])
    ensures Title(lines) == Ok(TitleText(lines[i]))
  {
    FirstOfWins(lines, i, TitleOf);
  }

  /** When there is a title, it is the text of the first title line. */
  lemma FirstTitleLine(lines: seq<string>) returns (i: nat)
    requires Title(lines).Ok?
    ensures i < |lines| && IsTitleLine(lines[i]) && Title(lines).value == TitleText(lines[i])
    ensures forall j :: 0 <= j < i ==> !IsTitleLine(lines[j])
  {
    i := FirstOfFound(lines, TitleOf);
  }

  /** There is no title exactly when no line is a title line, and then the
      error says that no title was found. */
  lemma NoTitleLine(lines: seq<string>)
    ensures Title(lines).Err? <==> forall i :: 0 <= i < |lines| ==> !IsTitleLine(lines[i])
    ensures Title(lines).Err? ==> Title(lines).error == NoTitle
  {
    FirstOfNone(lines, TitleOf);
  }

  /** A second-level heading, a `#` without a space after it and a lone `#`
      are never the title. */
  lemma NotTitleLine(line: string)
    ensures var s := Strip(line); |s| >= 2 && s[0] == '#' && s[1] != ' ' ==> !IsTitleLine(line)
    ensures |Strip(line)| < 2 ==> !IsTitleLine(line)
  {
    var s := Strip(line);
    if |s| >= 2 && StartsWith(s, "# ") {
      assert s[..2][1] == s[1];
    }
  }

  /** The title has no whitespace at either end. */
  lemma TitleIsStripped(lines: seq<string>)
    requires Title(lines).Ok?
    ensures Strip(Title(lines).value) == Title(lines).value
    ensures Title(lines).value == [] || (!IsSpace(Title(lines).value[0]) && !IsSpace(Title(lines).value[|Title(lines).value| - 1]))
  {
    var i := FirstTitleLine(lines);
    StripStrip(Drop(Strip(lines[i]), 2));
  }

  // ---------------------------------------------------------------------
  // The template substitution of generate_page

  const TitlePlaceholder: string := "{{ Title }}"
  const ContentPlaceholder: string := "{{ Content }}"
  const HrefRoot: string := "href=\"/"
  const SrcRoot: string := "src=\"/"

  /** The page: every title placeholder replaced by the title, then every
      content placeholder by the content, then every root-relative `href`
      and `src` made relative to the base path. */
  function FillTemplate(template: string, title: string, content: string, basepath: string): string {
    var withTitle := Replace(template, TitlePlaceholder, title);
    var withContent := Replace(withTitle, ContentPlaceholder, content);
    var withHref := Replace(withContent, HrefRoot, "href=\"" + basepath);
    Replace(withHref, SrcRoot, "src=\"" + basepath)
  }

  /** With the default base path `/` the link rewriting changes nothing:
      the page is the template with its two placeholders filled in. */
  lemma DefaultBasepath(template: string, title: string, content: string)
    ensures FillTemplate(template, title, content, "/") ==
            Replace(Replace(template, TitlePlaceholder, title), ContentPlaceholder, content)
  {
    var withContent := Replace(Replace(template, TitlePlaceholder, title), ContentPlaceholder, content);
    assert "href=\"" + "/" == HrefRoot;
    assert "src=\"" + "/" == SrcRoot;
    ReplaceSelf(withContent, HrefRoot);
    ReplaceSelf(withContent, SrcRoot);
  }

  /** A template without placeholders comes back unchanged, whatever the
      title and content, with the default base path or when it has no
      root-relative links. */
  lemma TemplateWithoutPlaceholders(template: string, title: string, content: string, basepath: string)
    requires !Contains(template, TitlePlaceholder) && !Contains(template, ContentPlaceholder)
    ensures basepath == "/" ==> FillTemplate(template, title, content, basepath) == template
    ensures !Contains(template, HrefRoot) && !Contains(template, SrcRoot) ==>
              FillTemplate(template, title, content, basepath) == template
  {
    ReplaceAbsent(template, TitlePlaceholder, title);
    ReplaceAbsent(template, ContentPlaceholder, content);
    DefaultBasepath(template, title, content);
    if !Contains(template, HrefRoot) && !Contains(template, SrcRoot) {
      ReplaceAbsent(template, HrefRoot, "href=\"" + basepath);
      ReplaceAbsent(template, SrcRoot, "src=\"" + basepath);
    }
  }

  /** The title is put in before the content is: a title that reads
      `{{ Content }}` is itself replaced by the content. */
  lemma TitleBeforeContent(content: string)
    ensures FillTemplate(TitlePlaceholder, ContentPlaceholder, content, "/") == content
  {
    DefaultBasepath(TitlePlaceholder, ContentPlaceholder, content);
    ReplaceWhole(TitlePlaceholder, ContentPlaceholder);
    ReplaceWhole(ContentPlaceholder, content);
  }

  // ---------------------------------------------------------------------
  // generate_page without its file I/O

  /** The page for a markdown text: render the document, then find its
      title, then fill the template. */
  function Page(markdown: string, template: string, basepath: string): Result<string> {
    var node :- MarkdownNode(markdown);
    var html :- ToHtml(node);
    var title :- Title(Lines(markdown));
    Ok(FillTemplate(template, title, html, basepath))
  }

  /** A page is produced exactly when the document renders and has a title;
      a rendering failure is reported before a missing title, and the
      serialisation of a rendered document never fails. */
  lemma PageErrors(markdown: string, template: string, basepath: string)
    ensures Page(markdown, template, basepath).Ok? <==>
            MarkdownNode(markdown).Ok? && Title(Lines(markdown)).Ok?
    ensures MarkdownNode(markdown).Err? ==>
              Page(markdown, template, basepath).error == MarkdownNode(markdown).error
    ensures Page(markdown, template, basepath).Err? ==>
              Page(markdown, template, basepath).error.UnmatchedDelimiter? ||
              Page(markdown, template, basepath).error == NoTitle
  {
    if MarkdownNode(markdown).Ok? {
      MarkdownNodeRenders(markdown);
    } else {
      MarkdownNodeErrors(markdown);
    }
    NoTitleLine(Lines(markdown));
  }
}
