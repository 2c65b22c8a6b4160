/** Inline markdown: the delimiter passes for bold, italic and code, the
    scanners that find images and links, the passes that cut text around
    them, and the tokenizer that runs all passes in order. */
module Inline {
  import opened Wrappers
  import opened Strings
  import opened TextNodes

  /** The only way tokenizing fails: a delimiter without its partner. */
  datatype MarkdownError = UnmatchedDelimiter(delimiter: string)

  // ---------------------------------------------------------------------
  // Delimiter passes

  /** The span a part of a split becomes: nothing when the part is empty,
      plain text at an even position, the pass's style at an odd one. */
  function Piece(part: string, i: nat, style: TextType): seq<TextNode> {
    if part == "" then [] else [TextNode(part, if i % 2 == 0 then Text else style, None)]
  }

  /** The spans of all parts, in order. */
  function Pieces(parts: seq<string>, style: TextType): seq<TextNode> {
    if parts == [] then []
    else Pieces(parts[..|parts| - 1], style) + Piece(parts[|parts| - 1], |parts| - 1, style)
  }

  /** The check a pass makes of each plain node: its text must split into
      an odd number of parts. Styled spans are not checked. */
  predicate Paired(n: TextNode, delimiter: string)
    requires delimiter != ""
  {
    n.textType != Text || |Split(n.text, delimiter)| % 2 == 1
  }

  /** What a pass makes of one node: a styled span is kept, a plain one
      becomes the spans of its parts. */
  function Delimit(n: TextNode, delimiter: string, style: TextType): seq<TextNode>
    requires delimiter != ""
  {
    if n.textType != Text then [n] else Pieces(Split(n.text, delimiter), style)
  }

  /** What a pass makes of each node in turn, concatenated. */
  function DelimitAll(nodes: seq<TextNode>, delimiter: string, style: TextType): seq<TextNode>
    requires delimiter != ""
  {
    if nodes == [] then []
    else DelimitAll(nodes[..|nodes| - 1], delimiter, style) + Delimit(nodes[|nodes| - 1], delimiter, style)
  }

  /** One delimiter pass: an error as soon as one plain node fails the
      check, otherwise every node cut in turn. */
  function DelimiterSplit(nodes: seq<TextNode>, delimiter: string, style: TextType): Result<seq<TextNode>, MarkdownError>
    requires delimiter != ""
  {
    if forall i :: 0 <= i < |nodes| ==> Paired(nodes[i], delimiter)
    then Success(DelimitAll(nodes, delimiter, style))
    else Failure(UnmatchedDelimiter(delimiter))
  }

  /** `split_nodes_delimiter`. */
  method SplitNodesDelimiter(oldNodes: seq<TextNode>, delimiter: string, textType: TextType)
    returns (r: Result<seq<TextNode>, MarkdownError>)
    requires delimiter != ""
    ensures r == DelimiterSplit(oldNodes, delimiter, textType)
  {
    var newNodes: seq<TextNode> := [];
    var k := 0;
    while k < |oldNodes|
      invariant 0 <= k <= |oldNodes|
      invariant forall j :: 0 <= j < k ==> Paired(oldNodes[j], delimiter)
      invariant newNodes == DelimitAll(oldNodes[..k], delimiter, textType)
    {
      var oldNode := oldNodes[k];
      DelimitAllStep(oldNodes, k, delimiter, textType);
      if oldNode.textType != Text {
        PairedExtend(oldNodes, k, delimiter);
        newNodes := newNodes + [oldNode];
        k := k + 1;
        continue;
      }
      var parts := Split(oldNode.text, delimiter);
      if |parts| % 2 == 0 {
        DelimiterSplitStops(oldNodes, k, delimiter, textType);
        return Failure(UnmatchedDelimiter(delimiter));
      }
      PairedExtend(oldNodes, k, delimiter);
      var spans := DelimitParts(parts, textType);
      newNodes := newNodes + spans;
      k := k + 1;
    }
    assert oldNodes[..k] == oldNodes;
    return Success(newNodes);
  }

  /** A node that fails the check makes the whole pass fail. */
  lemma DelimiterSplitStops(nodes: seq<TextNode>, k: nat, delimiter: string, style: TextType)
    requires delimiter != "" && k < |nodes|
    requires nodes[k].textType == Text && |Split(nodes[k].text, delimiter)| % 2 == 0
    ensures DelimiterSplit(nodes, delimiter, style) == Failure(UnmatchedDelimiter(delimiter))
  {
    assert !Paired(nodes[k], delimiter);
  }

  lemma PairedExtend(nodes: seq<TextNode>, k: nat, delimiter: string)
    requires delimiter != "" && k < |nodes|
    requires forall j :: 0 <= j < k ==> Paired(nodes[j], delimiter)
    requires Paired(nodes[k], delimiter)
    ensures forall j :: 0 <= j < k + 1 ==> Paired(nodes[j], delimiter)
  {
  }

  /** The inner loop of `split_nodes_delimiter`: the spans of the parts of
      one plain node, empty parts skipped. */
  method DelimitParts(parts: seq<string>, textType: TextType) returns (spans: seq<TextNode>)
    ensures spans == Pieces(parts, textType)
  {
    spans := [];
    var i := 0;
    while i < |parts|
      invariant 0 <= i <= |parts|
      invariant spans == Pieces(parts[..i], textType)
    {
      PiecesStep(parts, i, textType);
      if parts[i] != "" {
        if i % 2 == 0 {
          spans := spans + [TextNode(parts[i], Text, None)];
        } else {
          spans := spans + [TextNode(parts[i], textType, None)];
        }
      }
      i := i + 1;
    }
    assert parts[..i] == parts;
  }

  lemma PiecesStep(parts: seq<string>, i: nat, style: TextType)
    requires i < |parts|
    ensures Pieces(parts[..i + 1], style) == Pieces(parts[..i], style) + Piece(parts[i], i, style)
  {
    assert parts[..i + 1][..i] == parts[..i];
  }

  lemma DelimitAllStep(nodes: seq<TextNode>, k: nat, delimiter: string, style: TextType)
    requires delimiter != "" && k < |nodes|
    ensures DelimitAll(nodes[..k + 1], delimiter, style) ==
      DelimitAll(nodes[..k], delimiter, style) + Delimit(nodes[k], delimiter, style)
  {
    assert nodes[..k + 1][..k] == nodes[..k];
  }

  lemma {:induction false} DelimitAllAppend(a: seq<TextNode>, b: seq<TextNode>, delimiter: string, style: TextType)
    requires delimiter != ""
    ensures DelimitAll(a + b, delimiter, style) == DelimitAll(a, delimiter, style) + DelimitAll(b, delimiter, style)
    decreases |b|
  {
    if b == [] {
      assert a + b == a;
    } else {
      var b' := b[..|b| - 1];
      var last := b[|b| - 1];
      DelimitAllAppend(a, b', delimiter, style);
      AppendLast(a, b);
      var x, y, z := DelimitAll(a, delimiter, style), DelimitAll(b', delimiter, style), Delimit(last, delimiter, style);
      assert DelimitAll(a + b, delimiter, style) == x + y + z;
      AppendAssoc(x, y, z);
    }
  }

  /** A pass over `a + b` succeeds exactly when the passes over `a` and over
      `b` do, and then gives the output for `a` followed by the output for
      `b`: nodes keep their relative order. */
  lemma DelimiterSplitAppend(a: seq<TextNode>, b: seq<TextNode>, delimiter: string, style: TextType)
    requires delimiter != ""
    ensures DelimiterSplit(a + b, delimiter, style).Success? <==>
      DelimiterSplit(a, delimiter, style).Success? && DelimiterSplit(b, delimiter, style).Success?
    ensures DelimiterSplit(a + b, delimiter, style).Success? ==>
      DelimiterSplit(a + b, delimiter, style).value ==
        DelimiterSplit(a, delimiter, style).value + DelimiterSplit(b, delimiter, style).value
  {
    DelimitAllAppend(a, b, delimiter, style);
    if forall i :: 0 <= i < |a + b| ==> Paired((a + b)[i], delimiter) {
      assert forall i :: 0 <= i < |a| ==> a[i] == (a + b)[i];
      assert forall i :: 0 <= i < |b| ==> b[i] == (a + b)[|a| + i];
    }
    if (forall i :: 0 <= i < |a| ==> Paired(a[i], delimiter)) && (forall i :: 0 <= i < |b| ==> Paired(b[i], delimiter)) {
      forall i | 0 <= i < |a + b|
        ensures Paired((a + b)[i], delimiter)
      {
        if i >= |a| {
          assert (a + b)[i] == b[i - |a|];
        }
      }
    }
  }

  /** A plain node holding an odd number of delimiters. */
  predicate Unbalanced(n: TextNode, delimiter: string)
    requires delimiter != ""
  {
    n.textType == Text && Count(n.text, delimiter) % 2 == 1
  }

  /** A pass fails exactly when some plain node holds an odd number of
      delimiters, and the error names the delimiter. */
  lemma DelimiterFailsIff(nodes: seq<TextNode>, delimiter: string, style: TextType)
    requires delimiter != ""
    ensures DelimiterSplit(nodes, delimiter, style).Failure? <==>
      exists i :: 0 <= i < |nodes| && Unbalanced(nodes[i], delimiter)
    ensures DelimiterSplit(nodes, delimiter, style).Failure? ==>
      DelimiterSplit(nodes, delimiter, style).error == UnmatchedDelimiter(delimiter)
  {
    forall i | 0 <= i < |nodes|
      ensures Paired(nodes[i], delimiter) <==> !Unbalanced(nodes[i], delimiter)
    {
      PairedIff(nodes[i], delimiter);
    }
    if exists i :: 0 <= i < |nodes| && Unbalanced(nodes[i], delimiter) {
      var i :| 0 <= i < |nodes| && Unbalanced(nodes[i], delimiter);
      assert !Paired(nodes[i], delimiter);
    } else {
      assert forall i :: 0 <= i < |nodes| ==> Paired(nodes[i], delimiter);
    }
  }

  /** A node passes the check exactly when it does not hold an odd number
      of delimiters. */
  lemma PairedIff(n: TextNode, delimiter: string)
    requires delimiter != ""
    ensures Paired(n, delimiter) <==> !Unbalanced(n, delimiter)
  {
    if n.textType == Text {
      SplitCount(n.text, delimiter);
    }
  }

  /** Styled spans pass through a pass untouched. */
  lemma {:induction false} DelimiterKeepsStyled(nodes: seq<TextNode>, delimiter: string, style: TextType)
    requires delimiter != ""
    requires forall i :: 0 <= i < |nodes| ==> nodes[i].textType != Text
    ensures DelimiterSplit(nodes, delimiter, style) == Success(nodes)
    decreases |nodes|
  {
    if nodes != [] {
      var init := nodes[..|nodes| - 1];
      var last := nodes[|nodes| - 1];
      DelimiterKeepsStyled(init, delimiter, style);
      assert Delimit(last, delimiter, style) == [last];
      assert DelimitAll(nodes, delimiter, style) == init + [last];
      assert init + [last] == nodes;
    }
  }

  /** Non-empty plain text without the delimiter comes out as itself. */
  lemma DelimiterAbsent(text: string, delimiter: string, style: TextType)
    requires delimiter != "" && text != "" && !Contains(text, delimiter)
    ensures DelimiterSplit([TextNode(text, Text, None)], delimiter, style) == Success([TextNode(text, Text, None)])
  {
    var n := TextNode(text, Text, None);
    DelimitAbsent(n, delimiter, style);
    SplitAbsent(text, delimiter);
    assert Paired(n, delimiter);
    DelimitAllOne(n, delimiter, style);
  }

  lemma DelimitAbsent(n: TextNode, delimiter: string, style: TextType)
    requires delimiter != "" && n == TextNode(n.text, Text, None) && n.text != "" && !Contains(n.text, delimiter)
    ensures Delimit(n, delimiter, style) == [n]
  {
    SplitAbsent(n.text, delimiter);
    var parts := [n.text];
    assert parts[..0] == [];
    assert Pieces(parts, style) == Pieces([], style) + Piece(n.text, 0, style);
  }

  lemma DelimitAllOne(n: TextNode, delimiter: string, style: TextType)
    requires delimiter != ""
    ensures DelimitAll([n], delimiter, style) == Delimit(n, delimiter, style)
  {
    assert [n][..0] == [];
    assert DelimitAll([n], delimiter, style) == [] + Delimit(n, delimiter, style);
  }

  /** The texts of spans, concatenated. */
  function Texts(ns: seq<TextNode>): string {
    if ns == [] then "" else Texts(ns[..|ns| - 1]) + ns[|ns| - 1].text
  }

  lemma {:induction false} TextsAppend(a: seq<TextNode>, b: seq<TextNode>)
    ensures Texts(a + b) == Texts(a) + Texts(b)
    decreases |b|
  {
    if b == [] {
      assert a + b == a;
    } else {
      var b' := b[..|b| - 1];
      TextsAppend(a, b');
      assert (a + b)[..|a + b| - 1] == a + b';
      assert (a + b)[|a + b| - 1] == b[|b| - 1];
      assert Texts(a) + Texts(b') + b[|b| - 1].text == Texts(a) + (Texts(b') + b[|b| - 1].text);
    }
  }

  lemma PieceText(part: string, i: nat, style: TextType)
    ensures Texts(Piece(part, i, style)) == part
  {
    if part != "" {
      var p := Piece(part, i, style);
      assert p[..0] == [];
      assert Texts(p) == "" + part;
    }
  }

  lemma {:induction false} PiecesJoin(parts: seq<string>, style: TextType)
    ensures Texts(Pieces(parts, style)) == Join(parts, "")
    decreases |parts|
  {
    if parts != [] {
      var init := parts[..|parts| - 1];
      var last := parts[|parts| - 1];
      var x := Pieces(init, style);
      var p := Piece(last, |parts| - 1, style);
      assert Pieces(parts, style) == x + p;
      PiecesJoin(init, style);
      TextsAppend(x, p);
      PieceText(last, |parts| - 1, style);
      JoinLast(parts);
    }
  }

  /** Reading the spans of a plain node back gives its text with every
      delimiter removed. */
  lemma DelimitErases(n: TextNode, delimiter: string, style: TextType)
    requires delimiter != "" && n.textType == Text
    ensures Texts(Delimit(n, delimiter, style)) == Erase(n.text, delimiter)
  {
    PiecesJoin(Split(n.text, delimiter), style);
    SplitConcat(n.text, delimiter);
  }

  /** Every span a pass makes out of plain text is non-empty, has no url,
      and is either plain or of the pass's style. */
  lemma {:induction false} PiecesShape(parts: seq<string>, style: TextType)
    ensures forall k :: 0 <= k < |Pieces(parts, style)| ==>
      var p := Pieces(parts, style)[k];
      p.text != "" && p.url == None && (p.textType == Text || p.textType == style)
    decreases |parts|
  {
    if parts != [] {
      PiecesShape(parts[..|parts| - 1], style);
    }
  }

  /** Each span a pass makes is a non-empty part of the split, plain when the
      part's index is even and of the pass's style when it is odd. */
  lemma {:induction false} PiecesParity(parts: seq<string>, style: TextType)
    ensures forall k :: 0 <= k < |Pieces(parts, style)| ==>
      exists i :: 0 <= i < |parts| && parts[i] != "" &&
        Pieces(parts, style)[k] == TextNode(parts[i], if i % 2 == 0 then Text else style, None)
    decreases |parts|
  {
    if parts == [] {
      assert Pieces(parts, style) == [];
    } else {
      var init := parts[..|parts| - 1];
      var last := |parts| - 1;
      PiecesParity(init, style);
      var x := Pieces(init, style);
      forall k | 0 <= k < |Pieces(parts, style)|
        ensures exists i ::
                  0 <= i < |parts| && parts[i] != "" &&
                  Pieces(parts, style)[k] == TextNode(parts[i], if i % 2 == 0 then Text else style, None)
      {
        assert Pieces(parts, style) == x + Piece(parts[last], last, style);
        if k < |x| {
          var i :| 0 <= i < |init| && init[i] != "" &&
            x[k] == TextNode(init[i], if i % 2 == 0 then Text else style, None);
          assert parts[i] == init[i];
        } else {
          assert Pieces(parts, style)[k] == TextNode(parts[last], if last % 2 == 0 then Text else style, None);
        }
      }
    }
  }

  // ---------------------------------------------------------------------
  // Image and link extraction

  /** The first index at or after `i` holding `a` or `b`, or the end of `s`:
      how far a character class `[^ab]*` reaches. */
  function ScanTo(s: string, i: nat, a: char, b: char): (j: nat)
    requires i <= |s|
    ensures i <= j <= |s|
    ensures forall k :: i <= k < j ==> s[k] != a && s[k] != b
    ensures j < |s| ==> s[j] == a || s[j] == b
    decreases |s| - i
  {
    if i == |s| || s[i] == a || s[i] == b then i else ScanTo(s, i + 1, a, b)
  }

  /** `s` holds neither `a` nor `b`. */
  predicate Free(s: string, a: char, b: char) {
    forall k :: 0 <= k < |s| ==> s[k] != a && s[k] != b
  }

  /** A match of the image or link pattern: the bracketed text, the url,
      and the indices where the markup starts and ends. */
  datatype Match = Match(text: string, url: string, start: nat, end: nat)

  /** The markup of a link, `[text](url)`. */
  function Bracketed(text: string, url: string): (m: string)
    ensures |m| == |text| + |url| + 4
  {
    "[" + text + "](" + url + ")"
  }

  /** The markup of an image, `![alt](url)`, or of a link. */
  function Markup(text: string, url: string, image: bool): (m: string)
    ensures |m| == |text| + |url| + if image then 5 else 4
  {
    if image then "!" + Bracketed(text, url) else Bracketed(text, url)
  }

  /** The part `\[([^\[\]]*)\]\(([^\(\)]*)\)` both patterns share, tried at
      index `b`: the bracketed text runs to the first bracket, which must
      close it, and the url to the first parenthesis, which must close it.
      Gives the text, the url and the index after the closing parenthesis. */
  function BracketedAt(s: string, b: nat): (r: Option<(string, string, nat)>)
    ensures r.Some? ==> b < r.value.2 <= |s|
  {
    if !(b < |s| && s[b] == '[') then None
    else
      var j := ScanTo(s, b + 1, '[', ']');
      if !(j + 1 < |s| && s[j] == ']' && s[j + 1] == '(') then None
      else
        var k := ScanTo(s, j + 2, '(', ')');
        if !(k < |s| && s[k] == ')') then None
        else Some((s[b + 1..j], s[j + 2..k], k + 1))
  }

  /** The image pattern, `!` then the shared part, or the link pattern,
      the lookbehind `(?<!!)` then the shared part, tried at index `i`. */
  function MatchAt(s: string, i: nat, image: bool): (r: Option<Match>)
    ensures r.Some? ==> r.value.start == i < r.value.end <= |s|
  {
    if i >= |s| then None
    else if image && s[i] != '!' then None
    else if !image && 0 < i && s[i - 1] == '!' then None
    else
      match BracketedAt(s, if image then i + 1 else i)
      case None => None
      case Some((text, url, end)) => Some(Match(text, url, i, end))
  }

  /** `re.findall` from index `p`: the leftmost match, then the search goes
      on after it. The matches are in order and do not overlap. */
  function FindAll(s: string, p: nat, image: bool): (r: seq<Match>)
    requires p <= |s|
    ensures forall k :: 0 <= k < |r| ==> p <= r[k].start && MatchAt(s, r[k].start, image) == Some(r[k])
    ensures forall k :: 0 <= k < |r| - 1 ==> r[k].end <= r[k + 1].start
    decreases |s| - p
  {
    if p == |s| then []
    else
      match MatchAt(s, p, image)
      case Some(m) => [m] + FindAll(s, m.end, image)
      case None => FindAll(s, p + 1, image)
  }

  /** No match at `p`: the search moves on by one. */
  lemma FindAllSkip(s: string, p: nat, image: bool)
    requires p < |s| && MatchAt(s, p, image).None?
    ensures FindAll(s, p, image) == FindAll(s, p + 1, image)
  {
  }

  /** A match at `p` is taken and the search goes on after it. */
  lemma FindAllTake(s: string, p: nat, image: bool)
    requires p < |s| && MatchAt(s, p, image).Some?
    ensures var m := MatchAt(s, p, image).value;
      FindAll(s, p, image) == [m] + FindAll(s, m.end, image)
  {
  }

  /** Where the first of the matches `r` starts, or the end of `s`. */
  function Horizon(s: string, r: seq<Match>): nat {
    if r == [] then |s| else r[0].start
  }

  /** No match starts at any index from `lo` up to `hi`. */
  predicate NoneIn(s: string, lo: nat, hi: nat, image: bool) {
    forall q :: lo <= q < hi ==> MatchAt(s, q, image).None?
  }

  /** Nothing matches between `p` and the first match (or the end). */
  lemma {:induction false} FindAllFirst(s: string, p: nat, image: bool)
    requires p <= |s|
    ensures NoneIn(s, p, Horizon(s, FindAll(s, p, image)), image)
    decreases |s| - p
  {
    if p < |s| {
      if MatchAt(s, p, image).Some? {
        FindAllTake(s, p, image);
      } else {
        FindAllSkip(s, p, image);
        FindAllFirst(s, p + 1, image);
        NoneInExtend(s, p, Horizon(s, FindAll(s, p + 1, image)), image);
      }
    }
  }

  lemma NoneInExtend(s: string, p: nat, hi: nat, image: bool)
    requires MatchAt(s, p, image).None? && NoneIn(s, p + 1, hi, image)
    ensures NoneIn(s, p, hi, image)
  {
  }

  /** No match starts after one of `r` and before the next (or the end). */
  predicate NoneBetween(s: string, r: seq<Match>, image: bool) {
    forall k, q :: 0 <= k < |r| && r[k].end <= q < (if k + 1 < |r| then r[k + 1].start else |s|) ==>
      MatchAt(s, q, image).None?
  }

  /** Nothing matches between a match and the next one (or the end): with
      `FindAllFirst`, no match is skipped. */
  lemma {:induction false} FindAllGaps(s: string, p: nat, image: bool)
    requires p <= |s|
    ensures NoneBetween(s, FindAll(s, p, image), image)
    decreases |s| - p
  {
    if p < |s| {
      if MatchAt(s, p, image).None? {
        FindAllSkip(s, p, image);
        FindAllGaps(s, p + 1, image);
      } else {
        FindAllGapsAfter(s, p, image);
      }
    }
  }

  lemma FindAllGapsAfter(s: string, p: nat, image: bool)
    requires p < |s| && MatchAt(s, p, image).Some?
    ensures NoneBetween(s, FindAll(s, p, image), image)
    decreases |s| - p, 0
  {
    var m := MatchAt(s, p, image).value;
    FindAllFirst(s, m.end, image);
    FindAllGaps(s, m.end, image);
    var t := FindAll(s, m.end, image);
    FindAllTake(s, p, image);
    NoneBetweenCons(s, m, t, image);
  }

  lemma NoneBetweenCons(s: string, m: Match, t: seq<Match>, image: bool)
    requires NoneBetween(s, t, image)
    requires NoneIn(s, m.end, Horizon(s, t), image)
    ensures NoneBetween(s, [m] + t, image)
  {
    var r := [m] + t;
    forall k, q | 0 <= k < |r| && r[k].end <= q < (if k + 1 < |r| then r[k + 1].start else |s|)
      ensures MatchAt(s, q, image).None?
    {
      if k > 0 {
        assert r[k] == t[k - 1];
        assert k < |t| ==> r[k + 1] == t[k];
        assert t[k - 1].end <= q < (if k - 1 + 1 < |t| then t[k - 1 + 1].start else |s|);
        assert MatchAt(s, q, image).None?;
      } else {
        assert t != [] ==> r[1] == t[0];
        assert MatchAt(s, q, image).None?;
      }
    }
    assert NoneBetween(s, r, image);
  }

  /** Well-formed markup for `text` and `url` starts at index `i`: the
      bracketed text holds no bracket, the url no parenthesis, and a link is
      not right after a `!`. */
  predicate MarkupAt(s: string, i: nat, text: string, url: string, image: bool) {
    OccursAt(s, Markup(text, url, image), i) && Free(text, '[', ']') && Free(url, '(', ')') &&
    (image || i == 0 || s[i - 1] != '!')
  }

  /** The scanner matches at `i` exactly the well-formed markup found there. */
  lemma MatchAtIff(s: string, i: nat, text: string, url: string, image: bool)
    ensures MatchAt(s, i, image) == Some(Match(text, url, i, i + |Markup(text, url, image)|)) <==>
      MarkupAt(s, i, text, url, image)
  {
    if MatchAt(s, i, image) == Some(Match(text, url, i, i + |Markup(text, url, image)|)) {
      MatchAtSound(s, i, image);
    }
    if MarkupAt(s, i, text, url, image) {
      MatchAtComplete(s, i, text, url, image);
    }
  }

  lemma MatchAtSound(s: string, i: nat, image: bool)
    requires MatchAt(s, i, image).Some?
    ensures var m := MatchAt(s, i, image).value;
      m.end == i + |Markup(m.text, m.url, image)| && MarkupAt(s, i, m.text, m.url, image)
  {
    var b := if image then i + 1 else i;
    BracketedSound(s, b);
    var m := MatchAt(s, i, image).value;
    if image {
      assert OccursAt(s, "!", i);
      OccursAtAppend(s, "!", Bracketed(m.text, m.url), i);
    }
  }

  lemma MatchAtComplete(s: string, i: nat, text: string, url: string, image: bool)
    requires MarkupAt(s, i, text, url, image)
    ensures MatchAt(s, i, image) == Some(Match(text, url, i, i + |Markup(text, url, image)|))
  {
    if image {
      ImageAtComplete(s, i, text, url, image);
    } else {
      LinkAtComplete(s, i, text, url, image);
    }
  }

  lemma ImageAtComplete(s: string, i: nat, text: string, url: string, image: bool)
    requires image && MarkupAt(s, i, text, url, image)
    ensures MatchAt(s, i, image) == Some(Match(text, url, i, i + |Markup(text, url, image)|))
  {
    var b := Bracketed(text, url);
    assert Markup(text, url, image) == "!" + b;
    OccursAtAppend(s, "!", b, i);
    CharAt(s, i, '!');
    BracketedComplete(s, i + 1, text, url);
    assert BracketedAt(s, i + 1) == Some((text, url, i + 1 + |b|));
  }

  lemma LinkAtComplete(s: string, i: nat, text: string, url: string, image: bool)
    requires !image && MarkupAt(s, i, text, url, image)
    ensures MatchAt(s, i, image) == Some(Match(text, url, i, i + |Markup(text, url, image)|))
  {
    assert Markup(text, url, image) == Bracketed(text, url);
    BracketedComplete(s, i, text, url);
  }

  /** The shared part of the patterns at `b`, piece by piece. */
  lemma BracketedPieces(s: string, b: nat, text: string, url: string)
    ensures var j := b + 1 + |text|;
      OccursAt(s, Bracketed(text, url), b) <==>
        OccursAt(s, "[", b) && OccursAt(s, text, b + 1) && OccursAt(s, "](", j) &&
        OccursAt(s, url, j + 2) && OccursAt(s, ")", j + 2 + |url|)
  {
    OccursAtAppend(s, "[" + text + "](" + url, ")", b);
    OccursAtAppend(s, "[" + text + "](", url, b);
    OccursAtAppend(s, "[" + text, "](", b);
    OccursAtAppend(s, "[", text, b);
  }

  lemma BracketedSound(s: string, b: nat)
    requires BracketedAt(s, b).Some?
    ensures var (text, url, end) := BracketedAt(s, b).value;
      end == b + |Bracketed(text, url)| && OccursAt(s, Bracketed(text, url), b) &&
      Free(text, '[', ']') && Free(url, '(', ')')
  {
    var j := ScanTo(s, b + 1, '[', ']');
    var k := ScanTo(s, j + 2, '(', ')');
    assert BracketedAt(s, b).value == (s[b + 1..j], s[j + 2..k], k + 1);
    BracketedShape(s, b, j, k);
  }

  /** The indices `b`, `j`, `k` of `[`, `](` and `)` around bracket-free
      text and a parenthesis-free url delimit well-formed markup. */
  lemma BracketedShape(s: string, b: nat, j: nat, k: nat)
    requires b < j && j + 2 <= k < |s|
    requires s[b] == '[' && s[j] == ']' && s[j + 1] == '(' && s[k] == ')'
    requires forall d :: b + 1 <= d < j ==> s[d] != '[' && s[d] != ']'
    requires forall d :: j + 2 <= d < k ==> s[d] != '(' && s[d] != ')'
    ensures var text, url := s[b + 1..j], s[j + 2..k];
      k + 1 == b + |Bracketed(text, url)| && OccursAt(s, Bracketed(text, url), b) &&
      Free(text, '[', ']') && Free(url, '(', ')')
  {
    var text, url := s[b + 1..j], s[j + 2..k];
    FreeSlice(s, b + 1, j, '[', ']');
    FreeSlice(s, j + 2, k, '(', ')');
    CharAt(s, b, '[');
    CharsAt(s, j, ']', '(');
    CharAt(s, k, ')');
    assert OccursAt(s, text, b + 1) && OccursAt(s, url, j + 2);
    BracketedPieces(s, b, text, url);
  }

  lemma FreeSlice(s: string, lo: nat, hi: nat, a: char, c: char)
    requires lo <= hi <= |s|
    requires forall k :: lo <= k < hi ==> s[k] != a && s[k] != c
    ensures Free(s[lo..hi], a, c)
  {
    forall k | 0 <= k < hi - lo
      ensures s[lo..hi][k] != a && s[lo..hi][k] != c
    {
      assert s[lo..hi][k] == s[lo + k];
    }
  }

  lemma CharAt(s: string, i: nat, c: char)
    requires i < |s|
    ensures OccursAt(s, [c], i) <==> s[i] == c
  {
    assert s[i..i + 1] == [s[i]];
  }

  lemma CharsAt(s: string, i: nat, c: char, d: char)
    requires i + 1 < |s| && s[i] == c && s[i + 1] == d
    ensures OccursAt(s, [c, d], i)
  {
    assert s[i..i + 2] == [c, d];
  }

  lemma BracketedComplete(s: string, b: nat, text: string, url: string)
    requires OccursAt(s, Bracketed(text, url), b) && Free(text, '[', ']') && Free(url, '(', ')')
    ensures BracketedAt(s, b) == Some((text, url, b + |Bracketed(text, url)|))
  {
    BracketedPieces(s, b, text, url);
    var j := b + 1 + |text|;
    var k := j + 2 + |url|;
    CharAt(s, b, '[');
    CharsAt(s, j, ']', '(');
    CharAt(s, k, ')');
    FreeWindow(s, b + 1, text, '[', ']');
    FreeWindow(s, j + 2, url, '(', ')');
    BracketedAtIs(s, b, j, k);
  }

  /** A free string occurring at `lo` makes its window of `s` free. */
  lemma FreeWindow(s: string, lo: nat, t: string, a: char, c: char)
    requires OccursAt(s, t, lo) && Free(t, a, c)
    ensures forall d :: lo <= d < lo + |t| ==> s[d] != a && s[d] != c
  {
    forall d | lo <= d < lo + |t|
      ensures s[d] != a && s[d] != c
    {
      assert s[d] == s[lo..lo + |t|][d - lo];
    }
  }

  /** With `[`, `](` and `)` at `b`, `j` and `k` and nothing in between
      that stops the scans early, the shared part matches at `b`. */
  lemma BracketedAtIs(s: string, b: nat, j: nat, k: nat)
    requires b < j && j + 2 <= k < |s|
    requires s[b] == '[' && s[j] == ']' && s[j + 1] == '(' && s[k] == ')'
    requires forall d :: b + 1 <= d < j ==> s[d] != '[' && s[d] != ']'
    requires forall d :: j + 2 <= d < k ==> s[d] != '(' && s[d] != ')'
    ensures BracketedAt(s, b) == Some((s[b + 1..j], s[j + 2..k], k + 1))
  {
    assert ScanTo(s, b + 1, '[', ']') == j;
    assert ScanTo(s, j + 2, '(', ')') == k;
  }

  /** The bracketed text and the url of each match. */
  function Pairs(ms: seq<Match>): (r: seq<(string, string)>)
    ensures |r| == |ms|
    ensures forall k :: 0 <= k < |ms| ==> r[k] == (ms[k].text, ms[k].url)
  {
    if ms == [] then [] else [(ms[0].text, ms[0].url)] + Pairs(ms[1..])
  }

  /** `re.findall` of the image or the link pattern over the whole text. */
  function Extract(text: string, image: bool): seq<(string, string)> {
    Pairs(FindAll(text, 0, image))
  }

  /** `extract_markdown_images`: the `(alt, url)` pair of every image. */
  function ExtractMarkdownImages(text: string): (r: seq<(string, string)>)
    ensures r == [] <==> forall i: nat, t, u :: !MarkupAt(text, i, t, u, true)
  {
    ExtractNoneIff(text, true);
    Extract(text, true)
  }

  /** `extract_markdown_links`: the `(text, url)` pair of every link that
      does not follow a `!`. */
  function ExtractMarkdownLinks(text: string): (r: seq<(string, string)>)
    ensures r == [] <==> forall i: nat, t, u :: !MarkupAt(text, i, t, u, false)
  {
    ExtractNoneIff(text, false);
    Extract(text, false)
  }

  /** Nothing is extracted exactly when no well-formed markup occurs. */
  lemma ExtractNoneIff(text: string, image: bool)
    ensures Extract(text, image) == [] <==> forall i: nat, t, u :: !MarkupAt(text, i, t, u, image)
  {
    var ms := FindAll(text, 0, image);
    if ms == [] {
      FindAllFirst(text, 0, image);
      forall i: nat, t, u | MarkupAt(text, i, t, u, image)
        ensures false
      {
        MatchAtComplete(text, i, t, u, image);
      }
    } else {
      MatchAtSound(text, ms[0].start, image);
    }
  }

  /** Every extracted pair is well-formed markup of the text, in order of
      position and without overlap. */
  lemma ExtractSound(text: string, image: bool, k: nat)
    requires k < |Extract(text, image)|
    ensures var m := FindAll(text, 0, image)[k];
      Extract(text, image)[k] == (m.text, m.url) && MarkupAt(text, m.start, m.text, m.url, image)
  {
    MatchAtSound(text, FindAll(text, 0, image)[k].start, image);
  }

  /** No markup is missed: every well-formed markup starts inside one of the
      matches found (findall skips only markup that overlaps an earlier
      match). */
  lemma ExtractComplete(text: string, image: bool, i: nat, t: string, u: string)
    requires MarkupAt(text, i, t, u, image)
    ensures Covered(FindAll(text, 0, image), i)
  {
    MatchAtComplete(text, i, t, u, image);
    FindAllCovers(text, 0, image, i);
  }

  /** Index `i` lies inside one of the matches `r`. */
  predicate Covered(r: seq<Match>, i: nat) {
    exists k :: 0 <= k < |r| && r[k].start <= i < r[k].end
  }

  lemma {:induction false} FindAllCovers(s: string, p: nat, image: bool, i: nat)
    requires p <= i <= |s| && MatchAt(s, i, image).Some?
    ensures Covered(FindAll(s, p, image), i)
    decreases |s| - p
  {
    if MatchAt(s, p, image).None? {
      assert p < i < |s|;
      FindAllSkip(s, p, image);
      FindAllCovers(s, p + 1, image, i);
      CoveredSame(FindAll(s, p, image), FindAll(s, p + 1, image), i);
    } else {
      FindAllCoversAt(s, p, image, i);
    }
  }

  lemma CoveredSame(r: seq<Match>, t: seq<Match>, i: nat)
    requires r == t && Covered(t, i)
    ensures Covered(r, i)
  {
  }

  lemma {:induction false} FindAllCoversAt(s: string, p: nat, image: bool, i: nat)
    requires p <= i <= |s| && MatchAt(s, i, image).Some? && MatchAt(s, p, image).Some?
    ensures Covered(FindAll(s, p, image), i)
    decreases |s| - p, 0
  {
    var m := MatchAt(s, p, image).value;
    var t := FindAll(s, m.end, image);
    FindAllTake(s, p, image);
    if i < m.end {
      CoveredHead(m, t, i);
    } else {
      FindAllCovers(s, m.end, image, i);
      CoveredCons(m, t, i);
    }
  }

  lemma CoveredHead(m: Match, t: seq<Match>, i: nat)
    requires m.start <= i < m.end
    ensures Covered([m] + t, i)
  {
    assert ([m] + t)[0] == m;
  }

  lemma CoveredCons(m: Match, t: seq<Match>, i: nat)
    requires Covered(t, i)
    ensures Covered([m] + t, i)
  {
    var k :| 0 <= k < |t| && t[k].start <= i < t[k].end;
    assert ([m] + t)[k + 1] == t[k];
  }

  /** After the first match, findall goes on exactly where it ended. */
  lemma FindAllTail(s: string, p: nat, image: bool)
    requires p <= |s| && FindAll(s, p, image) != []
    ensures FindAll(s, p, image)[1..] == FindAll(s, FindAll(s, p, image)[0].end, image)
    decreases |s| - p
  {
    if MatchAt(s, p, image).None? {
      FindAllTail(s, p + 1, image);
    }
  }
}
