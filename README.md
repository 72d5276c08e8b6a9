# Markdown to HTML: a Dafny model

This project models the conversion core of a small static-site generator. The
generator turns a markdown document into an HTML page in five steps:

1. **Blocks.** The document is cut at blank lines. Each piece is stripped, and
   empty pieces are dropped (`markdown_to_blocks`).
2. **Block types.** Each block is classified as a heading, code, quote,
   unordered list, ordered list or paragraph (`block_to_block_type`).
3. **Inline spans.** The text of each block is cut into typed spans by five
   passes in a fixed order: `**` bold, `*` italic, `` ` `` code, then images,
   then links (`split_nodes_delimiter`, `split_nodes_image`,
   `split_nodes_link`, `text_to_textnodes`).
4. **HTML tree.** Each span becomes an HTML leaf and each block an element. The
   whole document becomes a `div` (`text_to_children`, the six renderers,
   `block_to_html_node`, `markdown_to_html_node`).
5. **Page.** The page template gets the document's title and HTML, and its
   root-relative links are rebased (`extract_title`, and the `replace` chain
   of `generate_page`).

The modules follow the program's files:

| file | module | what it holds |
|---|---|---|
| `wrappers.dfy` | `Wrappers` | `Option`, `Result` and the program's error conditions. Each Python `raise` is an `Err` value. |
| `strings.dfy` | `Strings` | The Python `str` methods the program relies on: `find`/`index`, `split`, `split(sep, 1)`, `join`, `replace`, `strip`, `startswith`, `endswith` and `str(int)`. Each has the lemmas the rest of the model needs. |
| `textnode.dfy` | `TextNodes` | Spans and `text_node_to_html_node`. |
| `htmlnode.dfy` | `HtmlNodes` | `LeafNode`/`ParentNode` and `to_html`. |
| `inline_markdown.dfy` | `InlineMarkdown` | The extractors, the three split passes and the tokenizer. |
| `block_markdown.dfy` | `BlockMarkdown` | Segmentation, classification and rendering. |
| `site.dfy` | `Site` | `extract_title`, the template substitution and the page without its file I/O. |

The code works the same way throughout:

- **Loops become methods.** Each Python loop that accumulates a list, or
  returns early, is a Dafny `method` with the same loop. That method is proved
  equal to a specification function. The functions are written so that the
  properties are lemmas about them.
- **Pure code stays pure.** Code with no loop is a `function`.
- **Errors are values.** An exception is a `Result.Err`.
- **The first error ends the call.** The first span, line or block that fails
  decides the error of the whole call, as the uncaught exception does in Python.

Behaviour kept exactly as the code has it:

- **Links can split inside an image.** The image and link passes split the
  remaining text at the first *literal* occurrence of the markup. The regular
  expression may have found the match somewhere else. So `split_nodes_link`,
  called on its own, can cut a link out of text that lies inside an earlier
  image's markup (`LinkSplitsInsideImage`). Inside `text_to_textnodes` the
  image pass runs first and takes that image out, so the cut does not happen
  there for that input.
- **The empty rest of the pair loop cannot be reached.** When a markup no
  longer occurs in the remaining text, the code sets the remaining text to
  `""`. The model keeps that branch (`After`, `SplitOnPairs`). Every pair comes
  from a scan of the same text, though, so its markup still occurs in what
  remains. `SplitOnPairsSource` and `MarkupSplitSource` prove that reading a
  pass's output back gives its input, so no text is lost.
- **The heading level counts every leading `#`.** A heading's level includes
  all of its leading `#` characters, and its text starts one character after
  them.
- **Code blocks are not tokenized.** Inline markdown inside a code block stays
  literal text.
- **`_italic_` stays plain text.** The block tests expect `_italic_` to render
  as `<i>`. The code only splits italic on `*`, and the model follows the code.

## Model

| member | source | states |
|---|---|---|
| Strings.IndexOf | src/block_markdown.py:145 | The first index where the substring occurs. `None` exactly when it does not occur, which is where Python's `index` raises. |
| Strings.Split | src/inline_markdown.py:25 | A split always has at least one part. |
| Strings.SplitJoin | src/block_markdown.py:17 | Joining the parts of a split with the separator gives the text back. |
| Strings.SplitPartsFree | src/block_markdown.py:17 | No part of a split contains the separator. |
| Strings.SplitSeveral | src/block_markdown.py:30 | A split has more than one part exactly when the separator occurs. |
| Strings.SplitFirst | src/block_markdown.py:30 | The first part of a split is a prefix of the text. |
| Strings.SplitCharCount | src/inline_markdown.py:25 | Splitting on one character gives one part more than the character occurs. |
| Strings.OddCountEvenParts | src/inline_markdown.py:28 | An odd number of occurrences of a one-character delimiter gives an even number of parts. |
| Strings.SplitAllSpace | src/block_markdown.py:17-23 | Every part of an all-whitespace text is all whitespace. |
| Strings.SplitOnceParts | src/inline_markdown.py:67 | `split(sep, 1)` gives two parts exactly when `sep` occurs. They surround the first occurrence, so the first part holds no `sep`; otherwise the one part is the text. |
| Strings.SplitOnceAt | src/inline_markdown.py:107 | Where the markup occurs at `p`, `split(sep, 1)` cuts at an occurrence at or before `p`. |
| Strings.Strip | src/block_markdown.py:22 | Neither end of a stripped text is whitespace. |
| Strings.StripStart | src/block_markdown.py:22 | The left strip is a suffix of the text, and only whitespace was removed. |
| Strings.StripEnd | src/block_markdown.py:22 | The right strip is a prefix of the text, and only whitespace was removed. |
| Strings.StripEmpty | src/block_markdown.py:22-23 | The strip is empty exactly when the text is all whitespace. |
| Strings.StripStrip | src/main.py:51-54 | Stripping is idempotent. |
| Strings.StripIdentity | src/main.py:51 | A text whose ends are not whitespace is its own strip. |
| Strings.StripSlice | src/block_markdown.py:22 | The strip is a contiguous slice of the text. |
| Strings.NatToString | src/block_markdown.py:51 | `str(i + 1)` is a non-empty string of decimal digits. |
| Strings.NatToStringValue | src/block_markdown.py:51 | `str(n)` spells `n` read most significant digit first, and starts with `0` only for zero. |
| Strings.NatToStringInjective | src/block_markdown.py:51 | Two numbers have the same decimal exactly when they are equal. |
| Strings.ReplaceParts | src/main.py:78-83 | `replace` cuts the text at every occurrence and glues the pieces with the replacement. |
| Strings.ReplaceChar | src/block_markdown.py:74 | Replacing one character by another changes exactly the places where it occurs and keeps the length. |
| Strings.ReplaceSelf | src/main.py:82-83 | Replacing a pattern by itself changes nothing. |
| Strings.ReplaceAbsent | src/main.py:78-83 | Replacing a pattern that does not occur changes nothing. |
| Strings.ReplaceWhole | src/main.py:78-79 | A text that is the pattern becomes the replacement. |
| HtmlNodes.RenderOkIffWellFormed | src/test_parentnode.py:63-79 | `to_html` succeeds exactly on well-formed trees: every leaf has a value, and every parent has a non-empty tag and a children list. |
| HtmlNodes.ChildrenToHtmlAppend | src/test_parentnode.py:19-32 | Children render one after another. A list of children renders exactly when both of its parts do. |
| HtmlNodes.PropsToHtmlAppend | src/test_leafnode.py:22-27 | Attributes render one after another, in order. |
| HtmlNodes.PropsToHtmlSingle | src/test_leafnode.py:9-11 | One attribute renders as ` key="value"`. |
| HtmlNodes.OnlyChild | src/test_parentnode.py:5-8 | A parent with one child wraps that child's rendering in its tag. |
| HtmlNodes.LeafExamples | src/test_leafnode.py:5-20 | A tagged leaf, a raw-text leaf, and the error for a leaf without a value. |
| HtmlNodes.ParentExample | src/test_parentnode.py:5-8 | `<div><span>child</span></div>`. |
| HtmlNodes.ParentFailures | src/test_parentnode.py:63-74 | A parent without a tag fails with the tag error. A parent whose children are `None` fails with the children error. |
| HtmlNodes.EmptyParent | src/test_parentnode.py:76-78 | An empty children list renders an empty element. |
| TextNodes.TextNodeToHtmlNode | src/test_textnode.py:42-79 | Every span becomes a well-formed leaf:<br>- it has no tag exactly for plain text;<br>- its value is the text (empty for an image);<br>- a link gets `href`;<br>- an image gets `src` and `alt`, in that order;<br>- no other span has attributes. |
| TextNodes.TextNodeRenders | src/test_textnode.py:42-53 | A converted span always renders. Plain text renders as itself, and bold as `<b>text</b>`. |
| TextNodes.TextNodeExamples | src/test_textnode.py:42-79 | The tag, value and attributes of each kind of span in the tests. |
| InlineMarkdown.RunEnd | src/inline_markdown.py:7 | A negated character class `[^..]*` matches the longest run without the excluded characters. |
| InlineMarkdown.BracketAt | src/inline_markdown.py:12 | A match of `\[..\]\(..\)` at `i` starts at `i` and ends inside the text. |
| InlineMarkdown.MatchAt | src/inline_markdown.py:5-13 | A match of the image or link pattern at `i` starts at `i` and ends inside the text. |
| InlineMarkdown.MatchAtShape | src/inline_markdown.py:7-12 | A match covers exactly the markup of its two groups, and the groups hold none of the characters their classes exclude. An image starts with `![`; a link starts with a `[` that does not follow `!` (the lookbehind). |
| InlineMarkdown.BracketShape | src/inline_markdown.py:12 | A bracket match covers exactly `[text](url)`, and its groups are free of the excluded characters. |
| InlineMarkdown.MatchAtComplete | src/inline_markdown.py:7-12 | Conversely, wherever the text holds the markup of two groups free of the excluded characters (for a link, not right after a `!`), the pattern matches there with those groups. |
| InlineMarkdown.BracketAtComplete | src/inline_markdown.py:12 | Conversely, wherever the text holds `[text](url)` with free groups, the bracket pattern matches there. |
| InlineMarkdown.ScanMatches | src/inline_markdown.py:7-12 | `re.findall` reports matches in order, without overlap, each one a match of the pattern at its start. |
| InlineMarkdown.ScanFirst | src/inline_markdown.py:7-12 | No position before the first reported match starts a match. |
| InlineMarkdown.ScanLeftmost | src/inline_markdown.py:7-12 | No position between two reported matches, or after the last one, starts a match, so the leftmost non-overlapping matches are all reported. |
| InlineMarkdown.ScanOpeners | src/inline_markdown.py:5-13 | Every reported image starts with `![`. Every reported link starts with a `[` not preceded by `!`. |
| InlineMarkdown.NoBracketNoMarkup | src/inline_markdown.py:5-13 | Text without `[` holds no image and no link. |
| InlineMarkdown.ExtractMarkdownImages | src/inline_markdown.py:5-8 | Every `(alt, url)` pair has an alt free of `[`/`]` and a url free of `(`/`)`. |
| InlineMarkdown.ExtractMarkdownLinks | src/inline_markdown.py:10-13 | Every `(anchor, url)` pair has an anchor free of `[`/`]` and a url free of `(`/`)`. |
| InlineMarkdown.QuirkScan | src/inline_markdown.py:12 | In `"!" + b + b` with `b == [text](url)`, the link pattern reports only the second copy. |
| InlineMarkdown.PartNodes | src/inline_markdown.py:32-41 | There is at most one span per part. |
| InlineMarkdown.PartNodesShape | src/inline_markdown.py:32-41 | Every emitted span is non-empty, has no url, and is either plain text or of the target type. The parity rule is carried by `PartNode`'s definition. |
| InlineMarkdown.PartNodesParity | src/inline_markdown.py:32-41 | When no part is empty, part `k` becomes span `k`, with its text, no url, plain text at an even index and the target type at an odd one. |
| InlineMarkdown.PartNodesText | src/inline_markdown.py:32-41 | Skipping empty parts loses no text: the emitted texts, concatenated, are the parts concatenated. |
| InlineMarkdown.PartNodesFree | src/inline_markdown.py:25-41 | No emitted span contains the delimiter. |
| InlineMarkdown.DelimiterSplitNode | src/inline_markdown.py:18-41 | One span through the pass fails exactly when it is TEXT and either the delimiter is empty or the split has an even number of parts. A span that is not TEXT comes out alone and unchanged. |
| InlineMarkdown.SplitNodesDelimiter | src/inline_markdown.py:15-43 | The loop equals the span-by-span specification, including the first error. |
| InlineMarkdown.AppendParts | src/inline_markdown.py:32-41 | The inner loop appends the spans of the parts, in order. |
| InlineMarkdown.DelimiterSplitErrPrefix | src/inline_markdown.py:28-29 | Once a span fails, the whole pass fails with that error. |
| InlineMarkdown.DelimiterSplitAppend | src/inline_markdown.py:18-43 | The pass works span by span: a concatenation gives the concatenated results, or the first error. |
| InlineMarkdown.ThenAssoc | src/inline_markdown.py:18-43 | Chaining span results is associative. |
| InlineMarkdown.DelimiterSplitPassThrough | src/inline_markdown.py:20-22 | A span that is not TEXT comes out unchanged, between the results for the spans around it. |
| InlineMarkdown.DelimiterSplitFails | src/inline_markdown.py:25-29 | The pass fails exactly when some TEXT span has an odd number of delimiters (or the delimiter is empty). |
| InlineMarkdown.DelimiterSplitText | src/inline_markdown.py:25-41 | A TEXT span gives non-empty spans without the delimiter. Their texts together are the input with every delimiter removed. |
| InlineMarkdown.DelimiterSplitErrKind | src/inline_markdown.py:28-29 | With a non-empty delimiter, the only error is the unmatched-delimiter error. |
| InlineMarkdown.SingleSpanUnbalanced | src/inline_markdown.py:28-29 | A single TEXT span whose split has an even number of parts fails. |
| InlineMarkdown.DelimiterAbsent | src/inline_markdown.py:25-41 | A TEXT span without the delimiter comes out as itself, or as nothing when it is empty. |
| InlineMarkdown.DelimiterSplitUrls | src/inline_markdown.py:39-41 | The delimiter passes emit no url, so a url stays exactly on links and images. |
| InlineMarkdown.SplitNodesMarkup | src/inline_markdown.py:45-123 | The loop shared by the image and link passes equals the span-by-span specification. |
| InlineMarkdown.SplitNodesImage | src/inline_markdown.py:45-83 | `split_nodes_image` is the image pass. |
| InlineMarkdown.SplitNodesLink | src/inline_markdown.py:85-123 | `split_nodes_link` is the link pass. |
| InlineMarkdown.AppendMarkupSplit | src/inline_markdown.py:64-81 | The loop over one span's pairs, which rebinds the remaining text, equals the specification of that loop. |
| InlineMarkdown.SplitOnPairsStep | src/inline_markdown.py:65-77 | Each pair emits its part, and the rest of the loop continues from the text after the cut. |
| InlineMarkdown.MarkupSplitAppend | src/inline_markdown.py:49-83 | The image and link passes work span by span. |
| InlineMarkdown.MarkupSplitPassThrough | src/inline_markdown.py:49-53 | A span that is not TEXT comes out unchanged, between the results for the spans around it. |
| InlineMarkdown.MarkupSplitNodeShape | src/inline_markdown.py:58-81 | A plain TEXT span comes out unchanged exactly when no match is found. Otherwise every TEXT span emitted is non-empty, and the marked spans carry the extracted pairs in match order. |
| InlineMarkdown.NoMarkupUnchanged | src/inline_markdown.py:58-61 | A TEXT span without `[` comes out unchanged. |
| InlineMarkdown.MarkupSplitNodeSource | src/inline_markdown.py:63-81 | Read back as markdown, the spans a pass emits for one span give that span's text. No text is lost or invented. |
| InlineMarkdown.MarkupSplitSource | src/inline_markdown.py:45-83 | Read back as markdown, the output of a whole pass is its input. |
| InlineMarkdown.SplitOnPairsSource | src/inline_markdown.py:63-81 | Each markup the scan found occurs no later than its match, so the pair loop never runs out of text and gives the text back. |
| InlineMarkdown.SplitOnPairsShape | src/inline_markdown.py:65-81 | The marked spans carry the extracted pairs, in order. Every TEXT span emitted, including the trailing one, is non-empty. |
| InlineMarkdown.SplitOnPairsSingle | src/inline_markdown.py:65-81 | One pair gives the text before the first occurrence of its markup, the marked span, and the text after it. |
| InlineMarkdown.MarkupSplitUrls | src/inline_markdown.py:71-81 | The image and link passes keep a url exactly on links and images. |
| InlineMarkdown.LinkSplitsInsideImage | src/inline_markdown.py:105-117 | The link pass cuts at the first literal occurrence of the link's markup, even inside an image's markup. |
| InlineMarkdown.TextToTextNodes | src/inline_markdown.py:125-137 | The tokenizer: the bold, italic and code passes in that order, then images, then links, with the first error ending the call. Its lemmas below give its urls, its errors and when it fails. |
| InlineMarkdown.TextToTextNodesFails | src/inline_markdown.py:125-137 | The tokenizer fails exactly when a delimiter pass meets an unbalanced TEXT span in the list it is given: the whole text for `**`, the bold pass's output for `*`, the italic pass's output for `` ` ``. |
| InlineMarkdown.TextToTextNodesUrls | src/inline_markdown.py:125-137 | Every span of the tokenizer has a url exactly when it is a link or an image, so each one converts to HTML. |
| InlineMarkdown.TextToTextNodesErrors | src/inline_markdown.py:125-137 | The tokenizer fails only on an unmatched `**`, `*` or `` ` ``. |
| InlineMarkdown.TextToTextNodesEmpty | src/test_inline_markdown.py:431-434 | The empty text gives no spans. |
| InlineMarkdown.TextToTextNodesPlain | src/test_inline_markdown.py:345-348 | Text without `*`, `` ` `` or `[` is one TEXT span. |
| InlineMarkdown.TextToTextNodesBold | src/inline_markdown.py:131-135 | `**b**` with no `**` in `b`, and `b` not ending in `*`, is one BOLD span. Single `*` inside it stay, because bold is split first. |
| InlineMarkdown.PartNodesEnclosed | src/inline_markdown.py:32-41 | The parts `"", b, ""` make one span of the target type. |
| InlineMarkdown.TextToTextNodesUnmatchedItalic | src/inline_markdown.py:132 | With no `**`, an odd number of `*` fails the italic pass. |
| InlineMarkdown.TextToTextNodesUnmatchedCode | src/inline_markdown.py:133 | With no `*`, an odd number of backticks fails the code pass. |
| BlockMarkdown.MarkdownToBlocks | src/block_markdown.py:14-26 | The loop equals the specification: every piece between blank lines, stripped, with the empty ones dropped. |
| BlockMarkdown.BlocksAppend | src/block_markdown.py:17-25 | The blocks of concatenated pieces are the blocks of each part. |
| BlockMarkdown.MarkdownToBlocksShape | src/block_markdown.py:14-26 | Every block is non-empty, stripped and free of blank lines. |
| BlockMarkdown.MarkdownToBlocksBlank | src/block_markdown.py:14-26 | An empty or all-whitespace document has no blocks. |
| BlockMarkdown.BlankPieceVanishes | src/block_markdown.py:17-24 | A whitespace piece between two lists of pieces contributes no block. |
| BlockMarkdown.BlocksCons | src/block_markdown.py:17-25 | The blocks of a first piece and the rest are that piece's block followed by the blocks of the rest. |
| BlockMarkdown.LeadingNewline | src/block_markdown.py:17-25 | A newline in front of any document changes none of its blocks. |
| BlockMarkdown.ExtraBlankLine | src/block_markdown.py:14-26 | For every `a` and `b`, `a + "\n\n\n" + b` has the same blocks as `a + "\n\n" + b`. |
| BlockMarkdown.BlankLinesCollapse | src/block_markdown.py:14-26 | For every `a`, `b` and `n`, `n` further newlines after a blank line leave the blocks unchanged, so a run of blank lines of any length separates blocks like a single one. |
| BlockMarkdown.BlockIsItsOwnBlock | src/block_markdown.py:14-26 | Segmenting a block again gives that block alone. |
| BlockMarkdown.MarkdownToBlocksIdempotent | src/block_markdown.py:14-26 | Segmentation is idempotent on its output. |
| BlockMarkdown.Classify | src/block_markdown.py:28-60 | The block type in the source's priority order: heading, code, quote, unordered list, ordered list, paragraph. The `Classify*` lemmas below give each test as an exact condition. |
| BlockMarkdown.BlockToBlockType | src/block_markdown.py:28-60 | The method, including the ordered-list loop that stops at the first unnumbered line, computes the classification. |
| BlockMarkdown.LeadingHashes | src/block_markdown.py:81-86 | The level loop counts the `#` the block starts with, and stops at the first other character. |
| BlockMarkdown.HeadingPrefixesAre | src/block_markdown.py:33 | The six prefixes are six down to one `#` followed by a space. |
| BlockMarkdown.StartsWithHashes | src/block_markdown.py:33 | A block starts with `n` hashes and a space exactly when it starts with exactly `n` hashes followed by a space. |
| BlockMarkdown.ClassifyHeading | src/block_markdown.py:33-34 | HEADING exactly for one to six `#` followed by a space. |
| BlockMarkdown.TooManyHashes | src/block_markdown.py:33-34 | Seven or more `#` are never a heading. |
| BlockMarkdown.ClassifyCode | src/block_markdown.py:37-38 | CODE exactly when the block opens and closes with three backticks and has more than one line. |
| BlockMarkdown.ClassifyQuote | src/block_markdown.py:41-42 | QUOTE exactly when every line starts with `>`. |
| BlockMarkdown.ClassifyUnorderedList | src/block_markdown.py:45-46 | UNORDERED_LIST exactly when every line starts with `- `. |
| BlockMarkdown.ClassifyOrderedList | src/block_markdown.py:49-57 | ORDERED_LIST exactly when, for every `i`, line `i` starts with `NatToString(i + 1)` and `". "`. `NatToStringValue` shows that this is the decimal of `i + 1`. |
| BlockMarkdown.ClassifiedStart | src/block_markdown.py:28-60 | Only a block starting with `#`, a backtick, `>`, `-` or `1` is anything but a paragraph. |
| BlockMarkdown.NotOtherwise | src/block_markdown.py:28-60 | A one-line block starting with `#` that is not a heading is a paragraph. |
| BlockMarkdown.HashWithoutSpace | src/block_markdown.py:33-60 | One line of `#` followed by something other than a space or `#` is a paragraph. |
| BlockMarkdown.HeadingExamples | src/test_block_markdown.py:85-95 | Headings of levels one, two and six. |
| BlockMarkdown.HeadingWithoutSpaceExample | src/test_block_markdown.py:97-99 | `#This is not a heading` is a paragraph. |
| BlockMarkdown.NumberedIndex | src/block_markdown.py:145 | In a line starting with a number and `". "`, the first `". "` is the one after the number. |
| BlockMarkdown.Leaves | src/block_markdown.py:65-68 | There is one HTML leaf per span. |
| BlockMarkdown.TextToChildren | src/block_markdown.py:62-69 | The method computes the tokenizer's spans as HTML leaves, or the tokenizer's error. |
| BlockMarkdown.ToLeaves | src/block_markdown.py:65-68 | The loop appends one leaf per span, in order. |
| BlockMarkdown.ChildrenShape | src/block_markdown.py:62-69 | The children are one well-formed leaf per span. They fail exactly when the tokenizer fails, with an unmatched delimiter. |
| BlockMarkdown.ParagraphToHtmlNode | src/block_markdown.py:71-76 | The method computes a `p` of the inline content. |
| BlockMarkdown.ParagraphText | src/block_markdown.py:74 | The text a paragraph tokenizes is the block with each newline turned into a space. |
| BlockMarkdown.HeadingToHtmlNode | src/block_markdown.py:78-91 | The method, with its level-counting loop, computes the heading element. |
| BlockMarkdown.HeadingRoundTrip | src/block_markdown.py:78-91 | `n` hashes, a space and a text classify as a heading, and render as `h<n>` holding that text's inline content. |
| BlockMarkdown.CodeToHtmlNode | src/block_markdown.py:93-106 | Rendering succeeds exactly for a block that opens with the fence and has a newline. A block without the fence is the invalid-code-block error. The result is well-formed. |
| BlockMarkdown.CodeRoundTrip | src/block_markdown.py:93-106 | A fence, an info line, a body and a closing fence render the body verbatim, not tokenized, in `pre`/`code`. |
| BlockMarkdown.QuoteToHtmlNode | src/block_markdown.py:108-122 | The method computes a `blockquote` of the cleaned lines joined by newlines. |
| BlockMarkdown.QuoteKeepsLines | src/block_markdown.py:113-118 | In a quote every line is kept. Each line is `> ` or `>` followed by its cleaned text, and `>` alone only when that text does not start with a space. |
| BlockMarkdown.MapEachOk | src/block_markdown.py:129-135 | Rendering line by line gives one result per line, in order, exactly when every line succeeds. |
| BlockMarkdown.MapEachErr | src/block_markdown.py:129-135 | A failure is the failure of one of the lines. |
| BlockMarkdown.UnorderedListToHtmlNode | src/block_markdown.py:124-135 | The loop equals the specification of a `ul` with one `li` per line. |
| BlockMarkdown.OrderedListToHtmlNode | src/block_markdown.py:137-150 | The loop, including its `index` error, equals the specification of an `ol` with one `li` per line. |
| BlockMarkdown.ListNodeShape | src/block_markdown.py:124-150 | A list holds one `li` per line, each the inline content of the line's text. It fails exactly when a line does. |
| BlockMarkdown.UnorderedItems | src/block_markdown.py:131 | In an unordered list each item's text is its line after `- `. |
| BlockMarkdown.OrderedItems | src/block_markdown.py:145-146 | In an ordered list each line has its `". "`, and each item's text is the line after the number and `". "`. |
| BlockMarkdown.ListNodeErrors | src/block_markdown.py:145 | A list whose lines all have the renderer's prefix fails only in the tokenizer. |
| BlockMarkdown.BlockNode | src/block_markdown.py:152-169 | The block rendered by the renderer of its type. `BlockNodeWellFormed` and `BlockNodeErrors` state what it produces and how it can fail. |
| BlockMarkdown.BlockToHtmlNode | src/block_markdown.py:152-169 | The method dispatches on the block type to the matching renderer. |
| BlockMarkdown.BlockNodeWellFormed | src/block_markdown.py:152-169 | A rendered block is a well-formed tree. |
| BlockMarkdown.BlockNodeErrors | src/block_markdown.py:152-169 | The classifier guarantees each renderer's input: a block fails only in the tokenizer, never on a missing fence, newline or `". "`. |
| BlockMarkdown.BlocksToHtmlNodes | src/block_markdown.py:176-178 | The loop renders every block, in order. |
| BlockMarkdown.MarkdownNode | src/block_markdown.py:171-180 | A `div` of every block rendered, in order, or the first block's error. `MarkdownNodeShape`, `MarkdownNodeErrors`, `MarkdownNodeRenders` and `MarkdownNodeBlank` state its properties. |
| BlockMarkdown.MarkdownToHtmlNode | src/block_markdown.py:171-180 | The method computes the `div` of all blocks. |
| BlockMarkdown.MarkdownNodeShape | src/block_markdown.py:171-180 | The document is a `div` with one child per block, in order. It renders exactly when every block does. |
| BlockMarkdown.MarkdownNodeErrors | src/block_markdown.py:171-180 | A document fails to render only with an unmatched delimiter. |
| BlockMarkdown.MarkdownNodeRenders | src/block_markdown.py:171-180 | A rendered document is well-formed, so `to_html` on it succeeds. |
| BlockMarkdown.MarkdownNodeBlank | src/block_markdown.py:171-180 | An empty or all-whitespace document is an empty `div`. |
| Site.ExtractTitle | src/main.py:46-56 | The method, which returns at the first title line, computes the title specification. |
| Site.TitleFirstWins | src/main.py:50-54 | The first line whose strip starts with `# ` gives the title, and later ones are ignored. |
| Site.FirstTitleLine | src/main.py:50-54 | When there is a title, it is the stripped text after `# ` on the first title line. |
| Site.NoTitleLine | src/main.py:50-56 | There is no title exactly when no line is a title line, and then the error is the missing-title error. |
| Site.NotTitleLine | src/main.py:51-52 | `##`, `#` followed by a non-space, and a lone `#` never give the title. |
| Site.TitleIsStripped | src/main.py:54 | The title has no whitespace at either end. |
| Site.DefaultBasepath | src/main.py:82-83 | With base path `/`, rebasing links changes nothing. |
| Site.TemplateWithoutPlaceholders | src/main.py:78-83 | A template without placeholders comes back unchanged with base path `/`, or when it has no root-relative links. |
| Site.FillTemplate | src/main.py:78-83 | The four replacements in the source's order: title, content, then `href="/` and `src="/` rewritten to the base path. `DefaultBasepath`, `TemplateWithoutPlaceholders` and `TitleBeforeContent` state its properties. |
| Site.TitleBeforeContent | src/main.py:78-79 | The title is put in first: a title that reads `{{ Content }}` is itself replaced by the content. |
| Site.Page | src/main.py:58-83 | `generate_page` without its file reads, writes and logging: render the document, serialise it, find the title, fill the template. `PageErrors` gives when a page is produced and which error wins. |
| Site.PageErrors | src/main.py:71-83 | A page is produced exactly when the document renders and has a title. A rendering failure is reported before a missing title, and serialising a rendered document never fails. |

## Left out

- File and directory I/O are not modelled:
  - `copy_static_to_public`;
  - `copy_directory_contents`;
  - `generate_pages_recursive`;
  - the reading, directory creation and writing in `generate_page`;
  - `main`, with its `sys.argv` base path and `print` calls.

  `Site.Page` is `generate_page` as a function from the markdown, template and base path to the page text.
- General regular-expression semantics are not modelled. The two patterns of the extractors are hand-written scanners (`MatchAt`, `Scan`) for exactly those patterns. Their greedy negated classes leave nothing to backtrack.
- Only ASCII whitespace counts as whitespace. `str.strip` and `str.isspace` are modelled on ASCII whitespace plus `\x1c`-`\x1f`; Unicode whitespace is not.
- The modules defining `TextNode`, `HTMLNode`, `LeafNode`, `ParentNode` and `text_node_to_html_node` are not part of this model. Their types and `to_html` are reconstructed from their tests.
- `__repr__` and `__eq__` are not modelled. Spans and nodes are datatypes, so equality is structural.
- `text_node_to_html_node` on a span of an unknown type is not modelled, because the span type here is a closed datatype.
- The final `raise` for an unknown block type in `block_to_html_node` is not modelled. It cannot be reached: the classifier returns only the six types.
- `ParentNode`'s error messages are `Error` constructors, not strings. The error for `extract_title` is the same: its bare `Exception` is the `NoTitle` constructor.
- Several tests are not restated as lemmas: the multi-paragraph, code, heading and quote rendering tests and most `text_to_textnodes` tests. They use long literals, and the general lemmas above state the behaviour they check.
- A parent with the tag `""` fails like one with no tag. The `ParentNode` tests pin down only the `None` case; the empty string is the model's reading.
