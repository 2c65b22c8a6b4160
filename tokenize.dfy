/** `text_to_textnodes`: the inline tokenizer, which runs the delimiter
    passes for `**`, `*`, `_` and the backtick, then the image pass and the
    link pass, over one plain span holding the whole text. */
module Tokenize {
  import opened Wrappers
  import opened Strings
  import opened TextNodes
  import opened Inline
  import opened ImageLink

  /** The spans of `text`, or the error of the first pass that fails; only
      a delimiter pass can fail, and its error names that delimiter. */
  function TextToTextNodes(text: string): (r: Result<seq<TextNode>, MarkdownError>)
    ensures r.Failure? ==> r.error in {UnmatchedDelimiter("**"), UnmatchedDelimiter("*"),
                                       UnmatchedDelimiter("_"), UnmatchedDelimiter("`")}
  {
    var nodes := [TextNode(text, Text, None)];
    var bold :- DelimiterSplit(nodes, "**", Bold);
    var starred :- DelimiterSplit(bold, "*", Italic);
    var italic :- DelimiterSplit(starred, "_", Italic);
    var code :- DelimiterSplit(italic, "`", Code);
    Success(MarkupSplitAll(MarkupSplitAll(code, true), false))
  }

  // ---------------------------------------------------------------------
  // Well-formed spans

  /** A delimiter pass of a text style keeps spans well-formed. */
  lemma {:induction false} DelimitAllWellFormed(nodes: seq<TextNode>, delimiter: string, style: TextType)
    requires delimiter != "" && style != Link && style != Image
    requires AllWellFormed(nodes)
    ensures AllWellFormed(DelimitAll(nodes, delimiter, style))
    decreases |nodes|
  {
    if nodes != [] {
      var init, last := nodes[..|nodes| - 1], nodes[|nodes| - 1];
      DelimitAllWellFormed(init, delimiter, style);
      if last.textType == Text {
        PiecesShape(Split(last.text, delimiter), style);
      }
      AllWellFormedAppend(DelimitAll(init, delimiter, style), Delimit(last, delimiter, style));
    }
  }

  lemma AllWellFormedAppend(a: seq<TextNode>, b: seq<TextNode>)
    requires AllWellFormed(a) && AllWellFormed(b)
    ensures AllWellFormed(a + b)
  {
    forall k | 0 <= k < |a + b|
      ensures WellFormed((a + b)[k])
    {
      if k >= |a| {
        assert (a + b)[k] == b[k - |a|];
      }
    }
  }

  /** A delimiter pass that succeeds keeps spans well-formed. */
  lemma DelimiterSplitWellFormed(nodes: seq<TextNode>, delimiter: string, style: TextType)
    requires delimiter != "" && style != Link && style != Image
    requires AllWellFormed(nodes) && DelimiterSplit(nodes, delimiter, style).Success?
    ensures AllWellFormed(DelimiterSplit(nodes, delimiter, style).value)
  {
    DelimitAllWellFormed(nodes, delimiter, style);
  }

  /** `f` keeps spans well-formed when it does so node by node. */
  lemma {:induction false} FlatMapWellFormed(nodes: seq<TextNode>, f: TextNode -> seq<TextNode>)
    requires AllWellFormed(nodes)
    requires forall n :: WellFormed(n) ==> AllWellFormed(f(n))
    ensures AllWellFormed(FlatMap(nodes, f))
    decreases |nodes|
  {
    if nodes != [] {
      var init := nodes[..|nodes| - 1];
      FlatMapWellFormed(init, f);
      assert WellFormed(nodes[|nodes| - 1]);
      AllWellFormedAppend(FlatMap(init, f), f(nodes[|nodes| - 1]));
    }
  }

  /** The image and link passes keep spans well-formed. */
  lemma MarkupSplitAllWellFormed(nodes: seq<TextNode>, image: bool)
    requires AllWellFormed(nodes)
    ensures AllWellFormed(MarkupSplitAll(nodes, image))
  {
    forall n | WellFormed(n)
      ensures AllWellFormed(Pass(image)(n))
    {
      MarkupSplitShape(n, image);
    }
    FlatMapWellFormed(nodes, Pass(image));
  }

  /** Every span the tokenizer produces carries a url exactly when it is a
      link or an image. */
  lemma TokensWellFormed(text: string)
    requires TextToTextNodes(text).Success?
    ensures AllWellFormed(TextToTextNodes(text).value)
  {
    var nodes := [TextNode(text, Text, None)];
    assert AllWellFormed(nodes);
    DelimiterSplitWellFormed(nodes, "**", Bold);
    var bold := DelimiterSplit(nodes, "**", Bold).value;
    DelimiterSplitWellFormed(bold, "*", Italic);
    var starred := DelimiterSplit(bold, "*", Italic).value;
    DelimiterSplitWellFormed(starred, "_", Italic);
    var italic := DelimiterSplit(starred, "_", Italic).value;
    DelimiterSplitWellFormed(italic, "`", Code);
    var code := DelimiterSplit(italic, "`", Code).value;
    MarkupSplitAllWellFormed(code, true);
    MarkupSplitAllWellFormed(MarkupSplitAll(code, true), false);
  }

  // ---------------------------------------------------------------------
  // Plain text, empty text, unmatched delimiters

  /** `text` holds no well-formed image or link markup. */
  ghost predicate NoMarkup(text: string) {
    forall i: nat, t, u :: !MarkupAt(text, i, t, u, true) && !MarkupAt(text, i, t, u, false)
  }

  /** A string without the character `c` contains no run of it. */
  lemma CharAbsent(text: string, c: char, run: string)
    requires c !in text && run != [] && run[0] == c
    ensures !Contains(text, run)
  {
  }

  /** A delimiter pass leaves non-empty text without the delimiter as one
      plain span. */
  lemma PassAbsent(text: string, c: char, delimiter: string, style: TextType)
    requires text != "" && c !in text && delimiter != [] && delimiter[0] == c
    ensures DelimiterSplit([TextNode(text, Text, None)], delimiter, style) == Success([TextNode(text, Text, None)])
  {
    CharAbsent(text, c, delimiter);
    DelimiterAbsent(text, delimiter, style);
  }

  /** The image or link pass leaves text without such markup as it is. */
  lemma MarkupAbsent(n: TextNode, image: bool)
    requires n.textType == Text
    requires forall i: nat, t, u :: !MarkupAt(n.text, i, t, u, image)
    ensures MarkupSplitAll([n], image) == [n]
  {
    ExtractNoneIff(n.text, image);
    MarkupSplitAllSnoc([], n, image);
    assert [] + [n] == [n];
  }

  /** Text with no delimiter character and no image or link markup comes
      out as exactly one plain span equal to the text. */
  lemma PlainTextOneSpan(text: string)
    requires text != "" && '*' !in text && '_' !in text && '`' !in text && NoMarkup(text)
    ensures TextToTextNodes(text) == Success([TextNode(text, Text, None)])
  {
    var n := TextNode(text, Text, None);
    PassAbsent(text, '*', "**", Bold);
    PassAbsent(text, '*', "*", Italic);
    PassAbsent(text, '_', "_", Italic);
    PassAbsent(text, '`', "`", Code);
    MarkupAbsent(n, true);
    MarkupAbsent(n, false);
  }

  /** Empty text gives no spans at all. */
  lemma EmptyTextNoSpans()
    ensures TextToTextNodes("") == Success([])
  {
    var n := TextNode("", Text, None);
    EmptyPass(n, "**", Bold);
    EmptyPass(n, "*", Italic);
    EmptyPass(n, "_", Italic);
    EmptyPass(n, "`", Code);
    MarkupSplitAllSnoc([], n, true);
  }

  lemma EmptyPass(n: TextNode, delimiter: string, style: TextType)
    requires n == TextNode("", Text, None) && delimiter != ""
    ensures DelimiterSplit([n], delimiter, style) == Success([])
  {
    assert Split("", delimiter) == [""];
    assert [""][..0] == [];
    assert Paired([n][0], delimiter);
    DelimitAllOne(n, delimiter, style);
  }

  /** An odd number of `**` fails the first pass, and the error names
      that delimiter. */
  lemma UnmatchedBold(text: string)
    requires Count(text, "**") % 2 == 1
    ensures TextToTextNodes(text) == Failure(UnmatchedDelimiter("**"))
  {
    var nodes := [TextNode(text, Text, None)];
    assert Unbalanced(nodes[0], "**");
    DelimiterFailsIff(nodes, "**", Bold);
  }

  /** Passes run one after another, so an even number of every delimiter
      does not protect from failure: in "_a`b_`" both `_` and the backtick
      occur twice, but the italic pass leaves a lone backtick as plain text
      and the code pass then fails on it. */
  lemma InterleavedDelimitersFail()
    ensures Count("_a`b_`", "_") == 2 && Count("_a`b_`", "`") == 2
    ensures TextToTextNodes("_a`b_`") == Failure(UnmatchedDelimiter("`"))
  {
    var text := "_a`b_`";
    var n := TextNode(text, Text, None);
    PassAbsent(text, '*', "**", Bold);
    PassAbsent(text, '*', "*", Italic);
    var italic := ItalicPassOfExample();
    CodePassOfExample(italic);
    SplitUnderscoreOfExample();
    SplitBacktickOfExample();
    SplitCount(text, "_");
    SplitCount(text, "`");
  }

  lemma SplitUnderscoreOfExample()
    ensures Split("_a`b_`", "_") == ["", "a`b", "`"]
  {
    IndexOfChar("_a`b_`", '_', 0);
    assert "_a`b_`"[..0] == "" && "_a`b_`"[1..] == "a`b_`";
    IndexOfChar("a`b_`", '_', 3);
    assert "a`b_`"[..3] == "a`b" && "a`b_`"[4..] == "`";
    IndexOfCharAbsent("`", '_');
    assert Split("`", "_") == ["`"];
    assert Split("a`b_`", "_") == ["a`b"] + ["`"];
  }

  lemma SplitBacktickOfExample()
    ensures Split("_a`b_`", "`") == ["_a", "b_", ""]
  {
    IndexOfChar("_a`b_`", '`', 2);
    assert "_a`b_`"[..2] == "_a" && "_a`b_`"[3..] == "b_`";
    IndexOfChar("b_`", '`', 2);
    assert "b_`"[..2] == "b_" && "b_`"[3..] == "";
    IndexOfCharAbsent("", '`');
    assert Split("b_`", "`") == ["b_"] + [""];
  }

  lemma ItalicPassOfExample() returns (italic: seq<TextNode>)
    ensures italic == [TextNode("a`b", Italic, None), TextNode("`", Text, None)]
    ensures DelimiterSplit([TextNode("_a`b_`", Text, None)], "_", Italic) == Success(italic)
  {
    var n := TextNode("_a`b_`", Text, None);
    SplitUnderscoreOfExample();
    italic := ItalicPiecesOfExample();
    assert Paired(n, "_");
    DelimitAllOne(n, "_", Italic);
  }

  lemma ItalicPiecesOfExample() returns (italic: seq<TextNode>)
    ensures italic == [TextNode("a`b", Italic, None), TextNode("`", Text, None)]
    ensures Pieces(["", "a`b", "`"], Italic) == italic
  {
    PiecesOfThree("", "a`b", "`", Italic);
    assert Piece("", 0, Italic) == [];
    assert Piece("a`b", 1, Italic) == [TextNode("a`b", Italic, None)];
    assert Piece("`", 2, Italic) == [TextNode("`", Text, None)];
    italic := [TextNode("a`b", Italic, None), TextNode("`", Text, None)];
  }

  lemma PiecesOfThree(a: string, b: string, c: string, style: TextType)
    ensures Pieces([a, b, c], style) == Piece(a, 0, style) + Piece(b, 1, style) + Piece(c, 2, style)
  {
    var parts := [a, b, c];
    assert parts[..2] == [a, b] && [a, b][..1] == [a] && [a][..0] == [];
    assert Pieces([a], style) == Piece(a, 0, style);
    assert Pieces([a, b], style) == Piece(a, 0, style) + Piece(b, 1, style);
  }

  lemma CodePassOfExample(italic: seq<TextNode>)
    requires italic == [TextNode("a`b", Italic, None), TextNode("`", Text, None)]
    ensures DelimiterSplit(italic, "`", Code) == Failure(UnmatchedDelimiter("`"))
  {
    IndexOfChar("`", '`', 0);
    assert "`"[..0] == "" && "`"[1..] == "";
    IndexOfCharAbsent("", '`');
    assert Split("`", "`") == ["", ""];
    assert !Paired(italic[1], "`");
  }
}
