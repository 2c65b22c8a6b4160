# Markdown to HTML conversion engine, modelled in Dafny

This project models the conversion core of a small static-site generator
written in Python. The core has three parts:

- the HTML node tree and its rendering (`src/htmlnode.py`);
- inline text spans and their conversion to HTML leaves (`src/textnode.py`);
- the markdown engine (`src/markdown.py`):
  - the inline tokenizer: the delimiter passes for `**`, `*`, `_` and
    backtick, then the image and link passes;
  - the block segmenter and the block classifier;
  - the six block renderers;
  - `markdown_to_html_node`, which assembles the document.

Each Python function is modelled in the form it has in the source:

- A function that loops (`props_to_html`, `to_html`,
  `split_nodes_delimiter`, the image and link passes, `markdown_to_blocks`,
  `block_to_block_type`, `text_to_children`, the heading, quote and list
  renderers, `markdown_to_html_node`) is a Dafny `method` with the same
  loop.
  - Its `ensures` ties its result to a recursive specification function.
  - Lemmas state what that function promises.
- A function without a loop (`text_node_to_html_node`, `text_to_textnodes`,
  `paragraph_to_html_node`, `code_block_to_html_node`, the extractors) is
  a Dafny `function`.
- The Python exceptions are `Result` failures:
  - `ValueError` from an unmatched delimiter is `Inline.UnmatchedDelimiter`.
  - The rendering errors are `Html.RenderError`.
  - Both propagate exactly as the exceptions do.

Python's string primitives are written out in `strings.dfy`: `split`,
`split(sep, 1)`, `find`, `join`, `strip`, slicing and `str(n)`. Beside them,
`Strings.Count` (non-overlapping occurrences) and `Strings.Erase` (the text
with every occurrence removed) are reference definitions the converter never
calls; they give the meaning of the part-count test at
`src/markdown.py:25-29` and of the concatenated parts.
The regular expressions of the source are written out by hand:

- `Inline.MatchAt` is a scanner for the image and link patterns, proved
  equivalent to a declarative description of each (`Inline.MatchAtIff`);
- `Blocks.IsHeading` is proved to be exactly the pattern `^#{1,6} `
  (`Blocks.HeadingIffPattern`);
- `Blocks.Numbered` is the `^{n}\. ` line test by definition: line `i`
  (from 0) starts with the decimal digits of `i + 1` followed by `. `. The digits come
  from `Strings.NatToString`, which is proved to give the decimal
  representation (`Strings.ParseNatToString`).

Modules: `Wrappers`, `Strings`, `Html`, `TextNodes`, `Inline`
(delimiter passes and extraction), `ImageLink` (image and link passes),
`Tokenize` (`text_to_textnodes`), `Blocks` (segmenter and classifier) and
`Render` (text to children, block renderers, document).

### Behaviour worth knowing

- The tokenizer runs a `*` italic pass (`src/markdown.py:180`) in addition
  to the `_` pass; the docstring of `text_to_textnodes`
  (`src/markdown.py:164-174`) lists only bold, `_` italic, code, images and
  links. The model keeps the `*` pass, as the code runs it.
- Empty text gives no spans at all (`Tokenize.EmptyTextNoSpans`), not one
  empty plain span. One plain span equal to the text comes out only for
  non-empty text (`Tokenize.PlainTextOneSpan`).
- Text in which every delimiter occurs an even number of times can still
  fail, because the passes run one after another. `` "_a`b_`" `` has two of
  each delimiter, yet the italic pass leaves a lone backtick, and the code
  pass then fails (`Tokenize.InterleavedDelimitersFail`).
- `code_block_to_html_node` drops one leading newline, and in the block
  ```` "```\n```" ```` that newline is also the last one, so the code shown
  is empty (`Render.CodeSoleNewline`). Otherwise a trailing newline is kept
  (`Render.CodeKeepsLastNewline`). The expected output of `test_mixed_blocks`
  (`test_markdown_to_html_node.py:140`) has the trailing newline removed;
  the code keeps it, and so does the model.
- The link pass can cut inside an image. Extraction skips a `[a](b)`
  right after `!` (`ImageLink.LinkNotAfterBang`), but the pass then looks
  each extracted pair up again by the first literal occurrence of its
  markup (`src/markdown.py:141-142`). On `![a](b) [a](b)` it extracts only
  the second link, yet cuts at the first one, inside the image
  (`ImageLink.LinkPassCutsInsideImage`). This is a property of
  `split_nodes_link` called on its own; the model does not claim it can
  be reached through `text_to_textnodes`, where the image pass runs first.
- Segmenting blocks that were joined with blank lines gives the same
  blocks back only when no block contains a blank line itself. That is the
  precondition of `Blocks.SegmentJoinRoundTrip`.

## Model

| member | source | states |
|---|---|---|
| Html.PropsToHtml | src/htmlnode.py:56-63 | the attribute loop yields `Attrs(props)`: empty for no props, otherwise ` key="value"` per attribute in insertion order |
| Html.AttrsInOrder | src/htmlnode.py:56-63 | no props and empty props both give ""; one pair gives ` key="value"`; the attributes of `a + b` are those of `a` followed by those of `b` |
| Html.AttrListAppend | src/htmlnode.py:59-61 | accumulating attributes distributes over concatenation of the attribute list |
| Html.ToHtml | src/htmlnode.py:37-150 | `to_html` of base, leaf and parent nodes, including the loop over the children, computes `Render(n)` |
| Html.LeafWithoutValue | src/htmlnode.py:103-104 | a leaf without a value fails with `MissingValue`, whatever its tag and props |
| Html.LeafRendering | src/htmlnode.py:106-109 | an untagged leaf renders as its value verbatim; a tagged one as `<tag attrs>value</tag>` |
| Html.ParentChecks | src/htmlnode.py:140-144 | a parent without a tag fails with `MissingTag` (checked first); one without a children list fails with `MissingChildren` |
| Html.ParentRendering | src/htmlnode.py:146-150 | a parent renders as its opening tag, its children rendered in order, and its closing tag; an empty child list renders `<tag></tag>` |
| Html.RenderChildrenIsList | src/htmlnode.py:146-148 | the children loop renders exactly the list of children, in order |
| Html.RenderChildrenFailureStays | src/htmlnode.py:146-148 | once a child fails, the error of the whole parent is that first child's error |
| Html.RenderListAppend | src/htmlnode.py:146-148 | rendering a list of nodes is concatenation; an error in either half is the error of the whole, the earlier one first |
| Html.RenderListOkIff | src/htmlnode.py:146-148 | a list of children renders exactly when each child renders |
| Html.RenderOkIffRenderable | src/htmlnode.py:37-150 | rendering succeeds exactly on trees with no base node, a value in every leaf, and a tag and a child list in every parent |
| TextNodes.Equals | src/textnode.py:64-68 | field-by-field equality is structural equality of spans |
| TextNodes.TextNodeToHtmlNode | src/textnode.py:100-111 | every span becomes a leaf with a value; it is untagged exactly for plain text; its value is the span text except for images; it has props exactly for links and images |
| TextNodes.TextNodeRendering | src/textnode.py:100-111 | the rendering of each style: text verbatim, `<b>`, `<i>`, `<code>`, `<a href>` and `<img src alt>` |
| TextNodes.LinkRendering | src/textnode.py:109 | a link leaf renders as `<a href="url">text</a>` |
| TextNodes.ImageRendering | src/textnode.py:111 | an image leaf renders as `<img src="url" alt="text"></img>` with src before alt |
| TextNodes.LinkAttrs | src/textnode.py:109 | the href attribute is printed as ` href="url"` |
| TextNodes.ImageAttrs | src/textnode.py:111 | the image attributes are printed src first, then alt |
| TextNodes.TextNodeRenderable | src/textnode.py:100-111 | the leaf of any span obeys the structural rules, so it always renders |
| Strings.SplitJoin | src/markdown.py:25 | joining the parts of a split with the separator gives back the string |
| Strings.SplitCount | src/markdown.py:25-29 | a split has one part more than the number of non-overlapping occurrences, so an even part count means an odd delimiter count |
| Strings.SplitPartsFree | src/markdown.py:25 | no part of a split contains the separator |
| Strings.SplitConcat | src/markdown.py:32-41 | concatenating the parts of a split erases every occurrence of the separator |
| Strings.SplitOnce | src/markdown.py:92 | `split(sep, 1)` gives the whole string when the separator is absent, otherwise the text before its first occurrence and the rest |
| Strings.Find | src/markdown.py:411 | `find` gives -1 exactly when the substring is absent, otherwise its first occurrence |
| Strings.Strip | src/markdown.py:205 | the result has no whitespace at either end, and it is empty exactly when the input is all whitespace |
| Strings.StripWindow | src/markdown.py:205 | stripping keeps a contiguous window of the input and removes only whitespace before and after it |
| Strings.StripIdempotent | src/markdown.py:205 | stripping twice is stripping once |
| Strings.SliceFrom | src/markdown.py:394 | `s[k:]` is the rest after the first `k` characters, and empty past the end |
| Strings.NatToString | src/markdown.py:334 | `str(n)` is a non-empty run of decimal digits, of length one exactly below ten |
| Strings.ParseNatToString | src/markdown.py:334 | reading the digits of `str(n)` back gives `n` |
| Inline.SplitNodesDelimiter | src/markdown.py:15-43 | the pass loop yields `DelimiterSplit`: styled nodes kept, plain nodes cut into alternating spans, failure on an even part count |
| Inline.DelimitParts | src/markdown.py:32-41 | the inner loop gives the spans of the parts: even parts plain, odd parts styled, empty parts dropped |
| Inline.DelimiterFailsIff | src/markdown.py:25-29 | a pass fails exactly when some plain node holds an odd number of delimiters, and the error names that delimiter |
| Inline.DelimiterKeepsStyled | src/markdown.py:20-22 | nodes that are already styled pass through unchanged |
| Inline.DelimiterAbsent | src/markdown.py:25-41 | non-empty plain text without the delimiter comes out as itself |
| Inline.DelimitErases | src/markdown.py:25-41 | the spans of a plain node read back as its text with every delimiter removed |
| Inline.PiecesShape | src/markdown.py:32-41 | every span a pass makes is non-empty, has no url, and is either plain or of the pass's style |
| Inline.PiecesParity | src/markdown.py:32-41 | every span a pass makes is a non-empty part of the split, plain at an even index and of the pass's style at an odd one |
| Inline.DelimitAllAppend | src/markdown.py:18-43 | a pass works node by node: a concatenation gives the concatenated results |
| Inline.DelimiterSplitAppend | src/markdown.py:18-43 | a pass over `a + b` succeeds exactly when both halves do, with the concatenated result |
| Inline.FindAll | src/markdown.py:52 | `re.findall` gives matches of the pattern, left to right, without overlap |
| Inline.FindAllFirst | src/markdown.py:52 | nothing matches before the first match found |
| Inline.FindAllGaps | src/markdown.py:52 | nothing matches between consecutive matches found, or after the last |
| Inline.FindAllCovers | src/markdown.py:52 | every index where the pattern matches lies inside one of the matches found |
| Inline.FindAllTail | src/markdown.py:52 | after the first match, the search resumes exactly where it ended |
| Inline.MatchAtIff | src/markdown.py:51 | the scanner matches at `i` exactly the well-formed markup `![text](url)` or `[text](url)` there, with the text free of brackets and the url free of parentheses |
| Inline.MatchAtSound | src/markdown.py:51 | every scanner match is well-formed markup spanning its start and end |
| Inline.MatchAtComplete | src/markdown.py:51 | every well-formed markup is matched at its start |
| Inline.ImageAtComplete | src/markdown.py:51 | `![text](url)` with bracket-free text and parenthesis-free url is an image match |
| Inline.LinkAtComplete | src/markdown.py:61 | `[text](url)` not preceded by `!` is a link match (the negative lookbehind) |
| Inline.BracketedSound | src/markdown.py:51 | the shared `[...](...)` part matches only bracket-free text and a parenthesis-free url |
| Inline.BracketedComplete | src/markdown.py:51 | the shared part matches wherever such text and url occur |
| Inline.ExtractMarkdownImages | src/markdown.py:46-53 | no pair is extracted exactly when the text holds no well-formed image |
| Inline.ExtractMarkdownLinks | src/markdown.py:56-63 | no pair is extracted exactly when the text holds no well-formed link |
| Inline.ExtractNoneIff | src/markdown.py:51-52 | nothing is extracted exactly when no well-formed markup occurs |
| Inline.ExtractSound | src/markdown.py:51-52 | every extracted pair is well-formed markup occurring in the text |
| Inline.ExtractComplete | src/markdown.py:51-52 | no markup is missed: each one starts inside an extracted match |
| ImageLink.Plain | src/markdown.py:97-100 | text before, between or after markup becomes one plain span, or none when empty |
| ImageLink.SplitNodesImage | src/markdown.py:66-112 | `split_nodes_image` is the image pass `MarkupSplitAll(nodes, true)` |
| ImageLink.SplitNodesLink | src/markdown.py:115-161 | `split_nodes_link` is the link pass `MarkupSplitAll(nodes, false)` |
| ImageLink.SplitNodesMarkup | src/markdown.py:72-110 | the outer loop of both passes processes the nodes one by one |
| ImageLink.SplitAround | src/markdown.py:87-110 | the inner loop cuts each pair's markup out of the remaining text in turn |
| ImageLink.RelocateSource | src/markdown.py:87-110 | nothing is lost or invented: the spans spell out the text they were cut from |
| ImageLink.MarkupSplitSource | src/markdown.py:86-110 | for a plain node, the pass's spans spell out its text |
| ImageLink.ExtractLocated | src/markdown.py:94-95 | every extracted pair is found in the remaining text, so the defensive `continue` is never taken |
| ImageLink.LocateStep | src/markdown.py:91-106 | cutting the first literal occurrence of a match's markup leaves the later matches in the rest |
| ImageLink.RelocateSpecials | src/markdown.py:89-106 | when every pair is located, the cut-out spans are exactly the pairs, in order |
| ImageLink.MarkupSplitSpecials | src/markdown.py:89-106 | for a plain node, the pass cuts out exactly the extracted pairs, in order |
| ImageLink.RelocateWellCut | src/markdown.py:97-110 | the cut gives non-empty plain spans without url, and styled spans with a url, no two plain spans adjacent |
| ImageLink.MarkupSplitShape | src/markdown.py:74-84 | a styled node, or one without markup, is kept as it is; otherwise it is cut into well-formed spans |
| ImageLink.MarkupSplitAllAppend | src/markdown.py:72-112 | the pass works node by node over a concatenation |
| ImageLink.LinkNotAfterBang | src/markdown.py:61 | no extracted link starts right after a `!` |
| ImageLink.LinkPassCutsInsideImage | src/markdown.py:138-155 | on `![a](b) [a](b)` the link pass extracts only the second link, yet cuts at the first literal `[a](b)`, inside the image, giving `!`, a link `a` to `b`, and ` [a](b)` |
| Tokenize.TextToTextNodes | src/markdown.py:164-188 | the tokenizer runs the `**`, `*`, `_` and backtick passes, then the image pass, then the link pass, in that order, over one plain span; it can fail only with an unmatched `**`, `*`, `_` or backtick (well-formed spans on success: `Tokenize.TokensWellFormed`) |
| Tokenize.DelimiterSplitWellFormed | src/markdown.py:15-43 | a successful delimiter pass keeps every span's url present exactly for links and images |
| Tokenize.MarkupSplitAllWellFormed | src/markdown.py:66-161 | the image and link passes keep spans well-formed |
| Tokenize.TokensWellFormed | src/markdown.py:164-188 | every span the tokenizer produces carries a url exactly when it is a link or an image |
| Tokenize.PassAbsent | src/markdown.py:25-41 | non-empty text without the delimiter's character passes a delimiter pass as one plain span |
| Tokenize.MarkupAbsent | src/markdown.py:81-84 | text without image or link markup passes the image or link pass unchanged |
| Tokenize.PlainTextOneSpan | src/markdown.py:164-188 | non-empty text with no `*`, `_`, backtick or markup tokenizes to one plain span equal to it |
| Tokenize.EmptyTextNoSpans | src/markdown.py:176-188 | empty text tokenizes to no spans at all |
| Tokenize.UnmatchedBold | src/markdown.py:179 | an odd number of `**` makes tokenizing fail, naming `**` |
| Tokenize.InterleavedDelimitersFail | src/markdown.py:179-182 | `` "_a`b_`" ``, with two of each delimiter, still fails, naming the backtick |
| Blocks.MarkdownToBlocks | src/markdown.py:191-209 | the segmenter gives the stripped non-empty pieces between blank lines, in order |
| Blocks.CleanBlocks | src/markdown.py:203-207 | the cleaning loop keeps the strip of every piece that is not blank, in order |
| Blocks.CleanedAreBlocks | src/markdown.py:203-207 | every block kept is non-empty and has no whitespace at either end |
| Blocks.BlocksAreStripped | src/markdown.py:204-207 | every block is non-empty and is its own strip |
| Blocks.CleanedEmptyIff | src/markdown.py:203-207 | cleaning keeps nothing exactly when every piece is whitespace |
| Blocks.NoBlocksIffBlank | src/markdown.py:200-209 | a document has no blocks exactly when it is whitespace only |
| Blocks.SplitJoinedBlocks | src/markdown.py:200 | blocks joined with blank lines split back into the same blocks |
| Blocks.SegmentJoinRoundTrip | src/markdown.py:200-209 | segmenting trimmed non-empty blocks without inner blank lines, joined by blank lines, gives them back |
| Blocks.HashRun | src/markdown.py:323-328 | the count of leading `#`: all before it are `#`, and the next character is not |
| Blocks.BlockToBlockType | src/markdown.py:212-248 | the classifier, with its early-exit numbering loop, gives `Classify(block)`, the first matching kind |
| Blocks.HeadingIffPattern | src/markdown.py:220 | the heading test is exactly the pattern `^#{1,6} ` |
| Blocks.KindsExclusive | src/markdown.py:219-245 | no block passes two of the five tests, so the order of the tests never decides a kind |
| Blocks.MisnumberedIsParagraph | src/markdown.py:237-248 | one line with the wrong number makes a would-be ordered list a paragraph |
| Render.TextToChildren | src/markdown.py:251-268 | the conversion gives one leaf per span, in order, or the tokenizer's error |
| Render.ConvertSpans | src/markdown.py:263-266 | the conversion loop gives one leaf per span, in order |
| Render.InlineChildrenRenderable | src/markdown.py:263-266 | every child made from text is a leaf that renders |
| Render.CollectOkIff | src/markdown.py:284-303 | a list of blocks or lines converts exactly when each of its members does |
| Render.ParagraphToHtmlNode | src/markdown.py:309-315 | a paragraph is a `p` holding one leaf per span of its text (its lines, each stripped, joined with single spaces), or fails exactly when tokenizing that text fails, with the same error |
| Render.ParagraphOneLine | src/markdown.py:313 | a paragraph's lines are merged: its text holds no newline |
| Render.ParagraphSingleLine | src/markdown.py:313 | a stripped one-line paragraph is its own text |
| Render.HeadingToHtmlNode | src/markdown.py:318-336 | the counting loop with its break gives the `h` node of `HeadingNode` |
| Render.HeadingShape | src/markdown.py:322-336 | a classified heading has level one to six, is tagged `h` followed by that digit, and holds the text after the `#` run and its space, stripped |
| Render.HeadingTagLevel | src/markdown.py:334 | the digits of the heading tag read back as the level |
| Render.FenceInterior | src/markdown.py:345 | a code block is its interior between two three-backtick fences |
| Render.CodeContent | src/markdown.py:345-350 | the code shown is the interior, minus one leading newline when there is one |
| Render.CodeBlockToHtmlNode | src/markdown.py:339-359 | a code block is `pre` around `code` around one untagged leaf holding the raw interior of the fences, minus one leading newline; no inline markup is parsed |
| Render.CodeRendering | src/markdown.py:339-359 | a code block renders as `<pre><code>` + content + `</code></pre>`, with no inline parsing |
| Render.CodeKeepsLastNewline | src/markdown.py:347-350 | a trailing newline of an interior longer than one character is kept |
| Render.CodeSoleNewline | src/markdown.py:349-350 | the block ```` "```\n```" ```` shows no code: its only newline is dropped |
| Render.QuoteLine | src/markdown.py:371-376 | the marker removed (`> `, else `>`, else nothing) and the rest recompose the line |
| Render.QuoteToHtmlNode | src/markdown.py:362-382 | the loop strips every line's marker and yields a `blockquote` of the rejoined text |
| Render.UnorderedListToHtmlNode | src/markdown.py:385-399 | the loop gives a `ul` with one `li` per line, or the first item's error |
| Render.OrderedListToHtmlNode | src/markdown.py:402-418 | the loop gives an `ol` with an `li` per line holding `. `, skipping the others, or the first item's error |
| Render.OrderedItemText | src/markdown.py:411-413 | on a line starting with its number, the item text is exactly what follows `n. ` |
| Render.ListItems | src/markdown.py:385-418 | a list has one item per line, in order, each holding the line's text after its marker; no line of a numbered list is skipped |
| Render.ListRenderable | src/markdown.py:385-418 | a converted list always renders |
| Render.MarkdownToHtmlNode | src/markdown.py:271-306 | the assembler loop gives a `div` of the blocks' nodes, or the first block's error |
| Render.DocumentOkIff | src/markdown.py:284-303 | a document converts exactly when each of its blocks does |
| Render.DocumentOnePerBlock | src/markdown.py:283-306 | a converted document is a `div` with one child per block, in order |
| Render.BlankDocument | src/markdown.py:280-306 | a whitespace-only document is an empty `div`, rendering as `<div></div>` |
| Render.BlockNodeRenderable | src/markdown.py:287-303 | the node of every block that converts obeys the structural rules |
| Render.DocumentRenders | src/markdown.py:271-306 | a document that converts always renders |

## Left out

- Reading and writing files, page templates, the content-tree walk and the
  command line (`src/main.py`) are not part of this model.
- The `__repr__` methods (`src/htmlnode.py:65-71`, `src/textnode.py:70-76`)
  produce debugging text only and are not modelled.
- Exception messages are not modelled. An error is a datatype constructor;
  `UnmatchedDelimiter` keeps the delimiter that the message names.
- The `Invalid text type` error (`src/textnode.py:112`) cannot happen with
  the closed set of six styles, so it has no counterpart.
- The fallback branch of `markdown_to_html_node`
  (`src/markdown.py:299-301`) cannot happen, because the classifier returns
  one of the six kinds.
- Python's dynamic typing is not modelled:
  - a child that is not a node;
  - a span whose text is `None`;
  - props with duplicate keys.
- Props are an ordered list of pairs, which is the order a dict iterates.
- The regular-expression engine is not modelled. Each pattern is a
  hand-written scanner with lemmas tying it to the pattern's meaning.
- Strings.Strip: strips only ASCII whitespace (tab to carriage return,
  0x1C to 0x1F, space). Python's `strip` also removes Unicode whitespace
  such as U+00A0.
- Strings are sequences of characters: no encoding and no HTML escaping.
  The source escapes nothing either.
