/** Block rendering: `text_to_children`, the six block renderers and
    `markdown_to_html_node`, which renders every block of a document in
    order under one `div`. */
module Render {
  import opened Wrappers
  import opened Strings
  import opened Html
  import opened TextNodes
  import opened Inline
  import opened Tokenize
  import opened Blocks

  /** A conversion: a node, or the error the tokenizer raised. */
  type Converted = Result<HtmlNode, MarkdownError>

  /** Several nodes, or the error the tokenizer raised. */
  type ConvertedList = Result<seq<HtmlNode>, MarkdownError>

  // ---------------------------------------------------------------------
  // Inline children

  /** One leaf per span, in order. */
  function Leaves(spans: seq<TextNode>): seq<HtmlNode> {
    seq(|spans|, k requires 0 <= k < |spans| => TextNodeToHtmlNode(spans[k]))
  }

  /** The leaves of the spans of `text`. */
  function InlineChildren(text: string): ConvertedList {
    var spans :- TextToTextNodes(text);
    Success(Leaves(spans))
  }

  /** `text_to_children`: tokenizes, then converts the spans one by one. */
  method TextToChildren(text: string) returns (r: ConvertedList)
    ensures r == InlineChildren(text)
  {
    var textNodes :- TextToTextNodes(text);
    var children := ConvertSpans(textNodes);
    r := Success(children);
  }

  /** The loop of `text_to_children`: one leaf per span, in order. */
  method ConvertSpans(textNodes: seq<TextNode>) returns (children: seq<HtmlNode>)
    ensures children == Leaves(textNodes)
  {
    children := [];
    var i := 0;
    while i < |textNodes|
      invariant 0 <= i <= |textNodes|
      invariant |children| == i
      invariant forall k :: 0 <= k < i ==> children[k] == TextNodeToHtmlNode(textNodes[k])
    {
      var htmlNode := TextNodeToHtmlNode(textNodes[i]);
      children := children + [htmlNode];
      i := i + 1;
    }
  }

  /** The children of a parent tagged `tag`, or their error. */
  function Wrapped(tag: string, children: ConvertedList): Converted {
    match children
    case Success(cs) => Success(Parent(Some(tag), Children(cs), None))
    case Failure(e) => Failure(e)
  }

  // ---------------------------------------------------------------------
  // Lists of conversions

  /** `f` applied to each string in turn, results concatenated; the first
      failure is the failure of the whole. */
  function CollectAll(xs: seq<string>, f: string -> ConvertedList): ConvertedList {
    if xs == [] then Success([])
    else
      var init :- CollectAll(xs[..|xs| - 1], f);
      var last :- f(xs[|xs| - 1]);
      Success(init + last)
  }

  lemma CollectStep(xs: seq<string>, i: nat, f: string -> ConvertedList)
    requires i < |xs|
    ensures CollectAll(xs[..i + 1], f) ==
      match CollectAll(xs[..i], f)
      case Failure(e) => Failure(e)
      case Success(init) =>
        match f(xs[i])
        case Failure(e) => Failure(e)
        case Success(last) => Success(init + last)
  {
    assert xs[..i + 1][..i] == xs[..i];
  }

  /** Once a prefix fails, every longer prefix fails the same way. */
  lemma {:induction false} CollectFailureStays(xs: seq<string>, i: nat, j: nat, f: string -> ConvertedList)
    requires i <= j <= |xs| && CollectAll(xs[..i], f).Failure?
    ensures CollectAll(xs[..j], f) == CollectAll(xs[..i], f)
    decreases j - i
  {
    if i < j {
      CollectFailureStays(xs, i, j - 1, f);
      CollectStep(xs, j - 1, f);
    }
  }

  /** A list converts exactly when each of its strings does. */
  lemma {:induction false} CollectOkIff(xs: seq<string>, f: string -> ConvertedList)
    ensures CollectAll(xs, f).Success? <==> forall k :: 0 <= k < |xs| ==> f(xs[k]).Success?
    decreases |xs|
  {
    if xs != [] {
      var init := xs[..|xs| - 1];
      CollectOkIff(init, f);
      assert forall k :: 0 <= k < |init| ==> init[k] == xs[k];
    }
  }

  /** When each string gives exactly one node, a list gives one node per
      string, in order. */
  lemma {:induction false} CollectOnePerString(xs: seq<string>, f: string -> ConvertedList)
    requires CollectAll(xs, f).Success?
    requires forall k :: 0 <= k < |xs| && f(xs[k]).Success? ==> |f(xs[k]).value| == 1
    ensures |CollectAll(xs, f).value| == |xs|
    ensures forall k :: 0 <= k < |xs| ==> f(xs[k]).Success? && CollectAll(xs, f).value[k] == f(xs[k]).value[0]
    decreases |xs|
  {
    if xs != [] {
      var init := xs[..|xs| - 1];
      CollectOnePerString(init, f);
      assert forall k :: 0 <= k < |init| ==> init[k] == xs[k];
    }
  }

  /** Every node of a list satisfies what every node of each part does. */
  lemma {:induction false} CollectAllRenderable(xs: seq<string>, f: string -> ConvertedList)
    requires CollectAll(xs, f).Success?
    requires forall x, k :: f(x).Success? && 0 <= k < |f(x).value| ==> Renderable(f(x).value[k])
    ensures forall k :: 0 <= k < |CollectAll(xs, f).value| ==> Renderable(CollectAll(xs, f).value[k])
    decreases |xs|
  {
    if xs != [] {
      var init := xs[..|xs| - 1];
      CollectAllRenderable(init, f);
      var a, b := CollectAll(init, f).value, f(xs[|xs| - 1]).value;
      assert CollectAll(xs, f).value == a + b;
      forall k | 0 <= k < |a + b|
        ensures Renderable((a + b)[k])
      {
        if k >= |a| {
          assert (a + b)[k] == b[k - |a|];
        }
      }
    }
  }

  // ---------------------------------------------------------------------
  // Paragraphs

  /** The text of a paragraph: its lines stripped and joined with single
      spaces. */
  function ParagraphText(block: string): string {
    var lines := Lines(block);
    Join(seq(|lines|, i requires 0 <= i < |lines| => Strip(lines[i])), " ")
  }

  /** `paragraph_to_html_node`: a `p` holding one leaf per span of the
      paragraph text, or the tokenizer's error. */
  function ParagraphToHtmlNode(block: string): (r: Converted)
    ensures r.Failure? <==> TextToTextNodes(ParagraphText(block)).Failure?
    ensures r.Failure? ==> r.error == TextToTextNodes(ParagraphText(block)).error
    ensures r.Success? ==>
      r.value == Parent(Some("p"), Children(Leaves(TextToTextNodes(ParagraphText(block)).value)), None)
  {
    Wrapped("p", InlineChildren(ParagraphText(block)))
  }

  // ---------------------------------------------------------------------
  // Headings

  /** The tag of a heading of level `level`. */
  function HeadingTag(level: nat): string {
    "h" + NatToString(level)
  }

  /** What `heading_to_html_node` builds: the `#` run counts the level, the
      rest of the block, stripped, is the content. */
  function HeadingNode(block: string): Converted {
    var level := HashRun(block);
    Wrapped(HeadingTag(level), InlineChildren(Strip(SliceFrom(block, level))))
  }

  /** `heading_to_html_node`: counts the leading `#` in a loop that stops at
      the first other character. */
  method HeadingToHtmlNode(block: string) returns (r: Converted)
    ensures r == HeadingNode(block)
  {
    var level := 0;
    var i := 0;
    while i < |block|
      invariant level == i <= |block|
      invariant forall k :: 0 <= k < i ==> block[k] == '#'
    {
      if block[i] == '#' {
        level := level + 1;
      } else {
        break;
      }
      i := i + 1;
    }
    HashRunIs(block, level);
    var headingText := Strip(SliceFrom(block, level));
    var tag := "h" + NatToString(level);
    assert tag == HeadingTag(HashRun(block));
    var children := TextToChildren(headingText);
    r := Wrapped(tag, children);
  }

  // ---------------------------------------------------------------------
  // Code blocks

  /** `block[3:-3]`: the block without its fences (empty when the block is
      shorter than two fences). */
  function FenceInterior(block: string): (inner: string)
    ensures IsCodeBlock(block) ==> block == "```" + inner + "```"
  {
    if |block| >= 6 then block[3..|block| - 3] else ""
  }

  /** The code shown: the interior with at most one leading newline
      removed, everything else kept verbatim. */
  function CodeContent(block: string): (code: string)
    ensures var inner := FenceInterior(block);
      if StartsWith(inner, "\n") then inner == "\n" + code else inner == code
  {
    var inner := FenceInterior(block);
    if StartsWith(inner, "\n") then inner[1..] else inner
  }

  /** `code_block_to_html_node`: the code as one untagged leaf inside
      `code` inside `pre`; no inline markdown is parsed. */
  function CodeBlockToHtmlNode(block: string): (n: HtmlNode)
    ensures n == Parent(Some("pre"), Children([
      Parent(Some("code"), Children([Leaf(None, Some(CodeContent(block)), None)]), None)]), None)
  {
    var codeNode := TextNodeToHtmlNode(TextNode(CodeContent(block), Text, None));
    Parent(Some("pre"), Children([Parent(Some("code"), Children([codeNode]), None)]), None)
  }

  // ---------------------------------------------------------------------
  // Quotes

  /** A quoted line without its marker: `> ` if present, else `>` if
      present, else nothing is removed. */
  function QuoteLine(line: string): (q: string)
    ensures StartsWith(line, "> ") ==> line == "> " + q
    ensures !StartsWith(line, "> ") && StartsWith(line, ">") ==> line == ">" + q
    ensures !StartsWith(line, ">") ==> line == q
  {
    if StartsWith(line, "> ") then line[2..]
    else if StartsWith(line, ">") then line[1..]
    else line
  }

  /** The lines of a quote without their markers. */
  function QuoteLines(lines: seq<string>): seq<string> {
    seq(|lines|, i requires 0 <= i < |lines| => QuoteLine(lines[i]))
  }

  /** What `quote_to_html_node` builds. */
  function QuoteNode(block: string): Converted {
    Wrapped("blockquote", InlineChildren(Join(QuoteLines(Lines(block)), "\n")))
  }

  /** `quote_to_html_node`: strips the marker of each line in a loop. */
  method QuoteToHtmlNode(block: string) returns (r: Converted)
    ensures r == QuoteNode(block)
  {
    var lines := Split(block, "\n");
    var quoteLines: seq<string> := [];
    var i := 0;
    while i < |lines|
      invariant 0 <= i <= |lines|
      invariant quoteLines == QuoteLines(lines[..i])
    {
      var line := lines[i];
      if StartsWith(line, "> ") {
        quoteLines := quoteLines + [line[2..]];
      } else if StartsWith(line, ">") {
        quoteLines := quoteLines + [line[1..]];
      } else {
        quoteLines := quoteLines + [line];
      }
      i := i + 1;
    }
    assert lines[..i] == lines;
    var quoteText := Join(quoteLines, "\n");
    var children := TextToChildren(quoteText);
    r := Wrapped("blockquote", children);
  }

  // ---------------------------------------------------------------------
  // Lists

  /** The text of a list item: an unordered item drops its first two
      characters; an ordered item drops everything up to and including
      the first `. `, and a line without one gives no item. */
  function ItemText(line: string, ordered: bool): Option<string> {
    if !ordered then Some(SliceFrom(line, 2))
    else
      var dotIndex := Find(line, ". ");
      if dotIndex == -1 then None else Some(SliceFrom(line, dotIndex + 2))
  }

  /** The `li` node of a line, if it has one. */
  function ListItem(line: string, ordered: bool): ConvertedList {
    match ItemText(line, ordered)
    case None => Success([])
    case Some(text) =>
      var children :- InlineChildren(text);
      Success([Parent(Some("li"), Children(children), None)])
  }

  function ItemOf(ordered: bool): string -> ConvertedList {
    line => ListItem(line, ordered)
  }

  /** What the two list renderers build: `ol` or `ul` around the items of
      the lines. */
  function ListNode(block: string, ordered: bool): Converted {
    Wrapped(if ordered then "ol" else "ul", CollectAll(Lines(block), ItemOf(ordered)))
  }

  /** `unordered_list_to_html_node`. */
  method UnorderedListToHtmlNode(block: string) returns (r: Converted)
    ensures r == ListNode(block, false)
  {
    var lines := Split(block, "\n");
    var listItems: seq<HtmlNode> := [];
    var i := 0;
    while i < |lines|
      invariant 0 <= i <= |lines|
      invariant CollectAll(lines[..i], ItemOf(false)) == Success(listItems)
    {
      CollectStep(lines, i, ItemOf(false));
      var itemText := SliceFrom(lines[i], 2);
      var itemChildren := TextToChildren(itemText);
      if itemChildren.Failure? {
        CollectFailureStays(lines, i + 1, |lines|, ItemOf(false));
        assert lines[..|lines|] == lines;
        return Failure(itemChildren.error);
      }
      var listItem := Parent(Some("li"), Children(itemChildren.value), None);
      listItems := listItems + [listItem];
      i := i + 1;
    }
    assert lines[..i] == lines;
    r := Success(Parent(Some("ul"), Children(listItems), None));
  }

  /** `ordered_list_to_html_node`. */
  method OrderedListToHtmlNode(block: string) returns (r: Converted)
    ensures r == ListNode(block, true)
  {
    var lines := Split(block, "\n");
    var listItems: seq<HtmlNode> := [];
    var i := 0;
    while i < |lines|
      invariant 0 <= i <= |lines|
      invariant CollectAll(lines[..i], ItemOf(true)) == Success(listItems)
    {
      CollectStep(lines, i, ItemOf(true));
      var line := lines[i];
      var dotIndex := Find(line, ". ");
      assert ItemOf(true)(line) == ListItem(line, true);
      if dotIndex != -1 {
        var itemText := SliceFrom(line, dotIndex + 2);
        var itemChildren := TextToChildren(itemText);
        if itemChildren.Failure? {
          CollectFailureStays(lines, i + 1, |lines|, ItemOf(true));
          assert lines[..|lines|] == lines;
          return Failure(itemChildren.error);
        }
        var listItem := Parent(Some("li"), Children(itemChildren.value), None);
        listItems := listItems + [listItem];
      } else {
        assert listItems + [] == listItems;
      }
      i := i + 1;
    }
    assert lines[..i] == lines;
    r := Success(Parent(Some("ol"), Children(listItems), None));
  }

  // ---------------------------------------------------------------------
  // The document

  /** The node of a block of each kind. */
  function BlockNode(block: string): Converted {
    match Classify(block)
    case Paragraph => ParagraphToHtmlNode(block)
    case Heading => HeadingNode(block)
    case Code => Success(CodeBlockToHtmlNode(block))
    case Quote => QuoteNode(block)
    case UnorderedList => ListNode(block, false)
    case OrderedList => ListNode(block, true)
  }

  function BlockOf(): string -> ConvertedList {
    block => match BlockNode(block) case Success(n) => Success([n]) case Failure(e) => Failure(e)
  }

  /** What `markdown_to_html_node` builds: a `div` holding the node of each
      block, in order. */
  function Document(markdown: string): Converted {
    Wrapped("div", CollectAll(Segments(markdown), BlockOf()))
  }

  /** `markdown_to_html_node`. */
  method MarkdownToHtmlNode(markdown: string) returns (r: Converted)
    ensures r == Document(markdown)
  {
    var blocks := MarkdownToBlocks(markdown);
    var blockNodes: seq<HtmlNode> := [];
    var i := 0;
    while i < |blocks|
      invariant 0 <= i <= |blocks|
      invariant CollectAll(blocks[..i], BlockOf()) == Success(blockNodes)
    {
      CollectStep(blocks, i, BlockOf());
      var block := blocks[i];
      var blockType := BlockToBlockType(block);
      var blockNode: Converted;
      match blockType {
        case Paragraph => blockNode := ParagraphToHtmlNode(block);
        case Heading => blockNode := HeadingToHtmlNode(block);
        case Code => blockNode := Success(CodeBlockToHtmlNode(block));
        case Quote => blockNode := QuoteToHtmlNode(block);
        case UnorderedList => blockNode := UnorderedListToHtmlNode(block);
        case OrderedList => blockNode := OrderedListToHtmlNode(block);
      }
      assert blockNode == BlockNode(block);
      assert BlockOf()(block) == match blockNode case Success(n) => Success([n]) case Failure(e) => Failure(e);
      if blockNode.Failure? {
        CollectFailureStays(blocks, i + 1, |blocks|, BlockOf());
        assert blocks[..|blocks|] == blocks;
        return Failure(blockNode.error);
      }
      blockNodes := blockNodes + [blockNode.value];
      i := i + 1;
    }
    assert blocks[..i] == blocks;
    r := Success(Parent(Some("div"), Children(blockNodes), None));
  }

  // ---------------------------------------------------------------------
  // What rendering promises

  /** Every child converted from text is a leaf that renders. */
  lemma InlineChildrenRenderable(text: string)
    requires InlineChildren(text).Success?
    ensures forall k :: 0 <= k < |InlineChildren(text).value| ==>
      InlineChildren(text).value[k].Leaf? && Renderable(InlineChildren(text).value[k])
  {
    var spans := TextToTextNodes(text).value;
    forall k | 0 <= k < |spans|
      ensures Leaves(spans)[k].Leaf? && Renderable(Leaves(spans)[k])
    {
      TextNodeRenderable(spans[k]);
    }
  }

  /** A paragraph on one line, already stripped, is its own text. */
  lemma ParagraphSingleLine(block: string)
    requires Trimmed(block) && !Contains(block, "\n")
    ensures ParagraphText(block) == block
  {
    SplitAbsent(block, "\n");
    StripTrimmed(block);
    assert [Strip(block)] == [block];
  }

  /** Every character of a join comes from the separator or from a part. */
  lemma {:induction false} JoinChars(parts: seq<string>, sep: string)
    ensures forall c :: c in Join(parts, sep) ==> c in sep || exists k :: 0 <= k < |parts| && c in parts[k]
    decreases |parts|
  {
    if |parts| >= 2 {
      var rest := Join(parts[1..], sep);
      JoinChars(parts[1..], sep);
      forall c | c in Join(parts, sep)
        ensures c in sep || exists k :: 0 <= k < |parts| && c in parts[k]
      {
        if c in rest && c !in sep {
          var k :| 0 <= k < |parts[1..]| && c in parts[1..][k];
          assert c in parts[k + 1];
        } else if c !in sep {
          assert c in parts[0];
        }
      }
    }
  }

  /** Stripping a line without a newline leaves none. */
  lemma StripNoNewline(line: string)
    requires !Contains(line, "\n")
    ensures '\n' !in Strip(line)
  {
    Lacks(line, '\n');
    StripLacks(line, '\n');
  }

  /** A paragraph's lines are merged into one line: its text holds no
      newline. */
  lemma ParagraphOneLine(block: string)
    ensures '\n' !in ParagraphText(block)
  {
    var lines := Lines(block);
    SplitPartsFree(block, "\n");
    var stripped := seq(|lines|, i requires 0 <= i < |lines| => Strip(lines[i]));
    forall k | 0 <= k < |lines|
      ensures '\n' !in stripped[k]
    {
      StripNoNewline(lines[k]);
    }
    JoinChars(stripped, " ");
    assert ParagraphText(block) == Join(stripped, " ");
  }

  /** The tag of a heading names its level: `h`, then digits that read
      back as the level. */
  lemma HeadingTagLevel(level: nat)
    ensures HeadingTag(level)[0] == 'h' && ParseDecimal(HeadingTag(level)[1..]) == level
  {
    assert HeadingTag(level)[1..] == NatToString(level);
    ParseNatToString(level);
  }

  /** Whitespace before the text does not change what strip keeps. */
  lemma StripAfterSpace(s: string, k: nat)
    requires k < |s| && IsSpace(s[k])
    ensures Strip(SliceFrom(s, k)) == Strip(s[k + 1..])
  {
    var t := SliceFrom(s, k);
    assert t[1..] == s[k + 1..];
  }

  /** A heading of level `n` (one to six `#`) is tagged `hn` and holds
      the text after `#...# `, stripped. */
  lemma HeadingShape(block: string, n: nat)
    requires IsHeading(block) && n == HashRun(block)
    ensures 1 <= n <= 6 && n < |block| && block[n] == ' '
    ensures HeadingTag(n) == ['h', Digit(n)]
    ensures Strip(SliceFrom(block, n)) == Strip(block[n + 1..])
  {
    assert NatToString(n) == [Digit(n)];
    assert "h" + [Digit(n)] == ['h', Digit(n)];
    StripAfterSpace(block, n);
  }

  /** A code block renders as its content, verbatim, inside `<pre><code>`. */
  lemma CodeRendering(block: string)
    ensures Render(CodeBlockToHtmlNode(block)) == Success("<pre><code>" + CodeContent(block) + "</code></pre>")
  {
    var code := CodeContent(block);
    var leaf := TextNodeToHtmlNode(TextNode(code, Text, None));
    TextNodeRendering(TextNode(code, Text, None));
    SingleChild("code", leaf, code);
    var inner := Parent(Some("code"), Children([leaf]), None);
    SingleChild("pre", inner, "<" + "code" + ">" + code + "</" + "code" + ">");
    CodeMarkup(code);
  }

  lemma CodeMarkup(code: string)
    ensures "<" + "pre" + ">" + ("<" + "code" + ">" + code + "</" + "code" + ">") + "</" + "pre" + ">" ==
      "<pre><code>" + code + "</code></pre>"
  {
  }

  /** A parent without attributes around one child renders that child
      between its tags. */
  lemma SingleChild(tag: string, child: HtmlNode, x: string)
    requires Render(child) == Success(x)
    ensures Render(Parent(Some(tag), Children([child]), None)) == Success("<" + tag + ">" + x + "</" + tag + ">")
  {
    assert [child][..0] == [];
    assert RenderList([child]) == Success("" + x);
    assert "" + x == x;
    ParentRendering(tag, [child], None);
    assert Attrs(None) == "";
    assert "<" + tag + "" == "<" + tag;
  }

  /** The last newline of a code block's interior is kept when the
      interior is more than that newline. */
  lemma CodeKeepsLastNewline(block: string)
    requires var inner := FenceInterior(block); |inner| >= 2 && inner[|inner| - 1] == '\n'
    ensures var code := CodeContent(block); code != "" && code[|code| - 1] == '\n'
  {
  }

  /** The one case where it is not: a block holding only fences and a
      newline shows no code at all, as `<pre><code></code></pre>`. */
  lemma CodeSoleNewline()
    ensures IsCodeBlock("```\n```") && CodeContent("```\n```") == ""
  {
    var b := "```\n```";
    assert FenceInterior(b) == "\n";
    assert StartsWith("\n", "\n");
  }

  /** An ordered item's text is what follows its number: the first `. `
      of the line is the one after the digits, which hold no dot. */
  lemma OrderedItemText(line: string, i: nat)
    requires StartsWith(line, ItemPrefix(i))
    ensures ItemText(line, true) == Some(line[|ItemPrefix(i)|..])
  {
    var d := NatToString(i + 1);
    assert line[|d|..|d| + 2] == ItemPrefix(i)[|d|..];
    assert OccursAt(line, ". ", |d|);
    forall j | 0 <= j < |d|
      ensures !OccursAt(line, ". ", j)
    {
      assert line[j] == ItemPrefix(i)[j] == d[j];
    }
  }

  /** A list has one item per line, in order; each item holds the line's
      text after its marker. Every line of a classified ordered list has
      its number, so none is skipped. */
  lemma ListItems(block: string, ordered: bool)
    requires ordered ==> Numbered(Lines(block))
    requires ListNode(block, ordered).Success?
    ensures var lines := Lines(block);
      var items := ListNode(block, ordered).value.children.nodes;
      |items| == |lines| &&
      forall k :: 0 <= k < |lines| ==>
        var text := if ordered then lines[k][|ItemPrefix(k)|..] else SliceFrom(lines[k], 2);
        InlineChildren(text).Success? &&
        items[k] == Parent(Some("li"), Children(InlineChildren(text).value), None)
  {
    var lines := Lines(block);
    var f := ItemOf(ordered);
    ListNodeChildren(block, ordered);
    forall k | 0 <= k < |lines|
      ensures var text := if ordered then lines[k][|ItemPrefix(k)|..] else SliceFrom(lines[k], 2);
        (f(lines[k]).Success? <==> InlineChildren(text).Success?) &&
        (f(lines[k]).Success? ==> f(lines[k]).value == [Parent(Some("li"), Children(InlineChildren(text).value), None)])
    {
      if ordered {
        OrderedItemText(lines[k], k);
      }
      ListItemOf(lines[k], ordered, if ordered then lines[k][|ItemPrefix(k)|..] else SliceFrom(lines[k], 2));
    }
    CollectOnePerString(lines, f);
  }

  /** The `li` node of a line with item text `text`. */
  lemma ListItemOf(line: string, ordered: bool, text: string)
    requires ItemText(line, ordered) == Some(text)
    ensures ItemOf(ordered)(line).Success? <==> InlineChildren(text).Success?
    ensures ItemOf(ordered)(line).Success? ==>
      ItemOf(ordered)(line).value == [Parent(Some("li"), Children(InlineChildren(text).value), None)]
  {
    assert ItemOf(ordered)(line) == ListItem(line, ordered);
  }

  /** A converted list's children are the collected items of its lines. */
  lemma ListNodeChildren(block: string, ordered: bool)
    requires ListNode(block, ordered).Success?
    ensures CollectAll(Lines(block), ItemOf(ordered)).Success?
    ensures ListNode(block, ordered).value.children.nodes == CollectAll(Lines(block), ItemOf(ordered)).value
  {
  }

  /** A document converts exactly when each of its blocks does. */
  lemma DocumentOkIff(markdown: string)
    ensures var blocks := Segments(markdown);
      Document(markdown).Success? <==> forall k :: 0 <= k < |blocks| ==> BlockNode(blocks[k]).Success?
  {
    var blocks := Segments(markdown);
    CollectOkIff(blocks, BlockOf());
    assert forall k :: 0 <= k < |blocks| ==> (BlockOf()(blocks[k]).Success? <==> BlockNode(blocks[k]).Success?);
  }

  /** A converted document is a `div` with one child per block, in order. */
  lemma DocumentOnePerBlock(markdown: string)
    requires Document(markdown).Success?
    ensures var blocks := Segments(markdown);
      var nodes := Document(markdown).value.children.nodes;
      Document(markdown).value.tag == Some("div") && |nodes| == |blocks| &&
      forall k :: 0 <= k < |blocks| ==> BlockNode(blocks[k]) == Success(nodes[k])
  {
    CollectOnePerString(Segments(markdown), BlockOf());
  }

  /** A document of whitespace only is an empty `div`. */
  lemma BlankDocument(markdown: string)
    requires AllSpace(markdown)
    ensures Document(markdown) == Success(Parent(Some("div"), Children([]), None))
    ensures Render(Document(markdown).value) == Success("<div></div>")
  {
    NoBlocksIffBlank(markdown);
    ParentRendering("div", [], None);
    assert Attrs(None) == "";
    assert "<" + "div" + "" + "></" + "div" + ">" == "<div></div>";
  }

  /** The node of every block that converts renders. */
  lemma BlockNodeRenderable(block: string)
    requires BlockNode(block).Success?
    ensures Renderable(BlockNode(block).value)
  {
    match Classify(block)
    case Paragraph => InlineChildrenRenderable(ParagraphText(block));
    case Heading =>
      var level := HashRun(block);
      InlineChildrenRenderable(Strip(SliceFrom(block, level)));
    case Code =>
      TextNodeRenderable(TextNode(CodeContent(block), Text, None));
    case Quote => InlineChildrenRenderable(Join(QuoteLines(Lines(block)), "\n"));
    case UnorderedList => ListRenderable(block, false);
    case OrderedList => ListRenderable(block, true);
  }

  lemma ListRenderable(block: string, ordered: bool)
    requires ListNode(block, ordered).Success?
    ensures Renderable(ListNode(block, ordered).value)
  {
    var f := ItemOf(ordered);
    forall x, k | f(x).Success? && 0 <= k < |f(x).value|
      ensures Renderable(f(x).value[k])
    {
      InlineChildrenRenderable(ItemText(x, ordered).value);
    }
    CollectAllRenderable(Lines(block), f);
  }

  /** A document that converts always renders: conversion builds no node
      that rendering refuses. */
  lemma DocumentRenders(markdown: string)
    requires Document(markdown).Success?
    ensures Render(Document(markdown).value).Success?
  {
    var blocks := Segments(markdown);
    BlockOfRenderable();
    CollectAllRenderable(blocks, BlockOf());
    DivRenders(CollectAll(blocks, BlockOf()).value);
  }

  lemma BlockOfRenderable()
    ensures forall x, k :: BlockOf()(x).Success? && 0 <= k < |BlockOf()(x).value| ==>
      Renderable(BlockOf()(x).value[k])
  {
    var f := BlockOf();
    forall x, k | f(x).Success? && 0 <= k < |f(x).value|
      ensures Renderable(f(x).value[k])
    {
      BlockNodeRenderable(x);
    }
  }

  lemma DivRenders(cs: seq<HtmlNode>)
    requires forall k :: 0 <= k < |cs| ==> Renderable(cs[k])
    ensures Render(Parent(Some("div"), Children(cs), None)).Success?
  {
    RenderOkIffRenderable(Parent(Some("div"), Children(cs), None));
  }
}
