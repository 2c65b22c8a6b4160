/** The image and link passes: each plain span is cut around the markup
    the scanner extracted from it, re-finding every extracted pair by the
    first literal occurrence of its markup in the text still to be cut. */
module ImageLink {
  import opened Wrappers
  import opened Strings
  import opened TextNodes
  import opened Inline

  /** The plain span for text before, between or after markup: none when
      the text is empty. */
  function Plain(s: string): (r: seq<TextNode>)
    ensures r == [] <==> s == ""
    ensures r != [] ==> r == [TextNode(s, Text, None)]
  {
    if s == "" then [] else [TextNode(s, Text, None)]
  }

  /** The style the pass gives to what it cuts out. */
  function Kind(image: bool): TextType {
    if image then Image else Link
  }

  /** The span an extracted pair becomes. */
  function MarkupNode(pair: (string, string), image: bool): TextNode {
    TextNode(pair.0, Kind(image), Some(pair.1))
  }

  /** The markup of an extracted pair, rebuilt as the pass rebuilds it. */
  function PairMarkup(pair: (string, string), image: bool): string {
    Markup(pair.0, pair.1, image)
  }

  /** The cuts of the inner loop on its remaining text `current`: the
      first pair's markup is split off at its first literal occurrence,
      the text before it becomes a plain span and the rest goes on to the
      next pair; a pair whose markup does not occur is passed over; what
      is left at the end becomes a plain span. */
  function Relocate(current: string, found: seq<(string, string)>, image: bool): seq<TextNode>
    decreases |found|
  {
    if found == [] then Plain(current)
    else
      var sections := SplitOnce(current, PairMarkup(found[0], image));
      if |sections| != 2 then Relocate(current, found[1..], image)
      else Plain(sections[0]) + [MarkupNode(found[0], image)] + Relocate(sections[1], found[1..], image)
  }

  /** What the pass makes of one node: a styled span and a plain span
      without markup are kept as they are. */
  function MarkupSplit(n: TextNode, image: bool): seq<TextNode> {
    if n.textType != Text then [n]
    else
      var found := Extract(n.text, image);
      if found == [] then [n] else Relocate(n.text, found, image)
  }

  /** The pass as a function of one node. */
  function Pass(image: bool): TextNode -> seq<TextNode> {
    n => MarkupSplit(n, image)
  }

  /** `f` applied to each node in turn, the results concatenated. */
  function FlatMap(nodes: seq<TextNode>, f: TextNode -> seq<TextNode>): seq<TextNode> {
    if nodes == [] then []
    else FlatMap(nodes[..|nodes| - 1], f) + f(nodes[|nodes| - 1])
  }

  /** What the pass makes of a list of nodes, node by node. */
  function MarkupSplitAll(nodes: seq<TextNode>, image: bool): seq<TextNode> {
    FlatMap(nodes, Pass(image))
  }

  /** `split_nodes_image`. */
  method SplitNodesImage(oldNodes: seq<TextNode>) returns (newNodes: seq<TextNode>)
    ensures newNodes == MarkupSplitAll(oldNodes, true)
  {
    newNodes := SplitNodesMarkup(oldNodes, true);
  }

  /** `split_nodes_link`. */
  method SplitNodesLink(oldNodes: seq<TextNode>) returns (newNodes: seq<TextNode>)
    ensures newNodes == MarkupSplitAll(oldNodes, false)
  {
    newNodes := SplitNodesMarkup(oldNodes, false);
  }

  /** The loop both passes share, over the nodes. */
  method SplitNodesMarkup(oldNodes: seq<TextNode>, image: bool) returns (newNodes: seq<TextNode>)
    ensures newNodes == MarkupSplitAll(oldNodes, image)
  {
    newNodes := [];
    var k := 0;
    while k < |oldNodes|
      invariant k <= |oldNodes|
      invariant newNodes == MarkupSplitAll(oldNodes[..k], image)
    {
      var oldNode := oldNodes[k];
      assert oldNodes[..k + 1] == oldNodes[..k] + [oldNode];
      MarkupSplitAllSnoc(oldNodes[..k], oldNode, image);
      if oldNode.textType != Text {
        newNodes := newNodes + [oldNode];
      } else {
        var found := if image then ExtractMarkdownImages(oldNode.text) else ExtractMarkdownLinks(oldNode.text);
        if found == [] {
          newNodes := newNodes + [oldNode];
        } else {
          var spans := SplitAround(oldNode.text, found, image);
          newNodes := newNodes + spans;
        }
      }
      k := k + 1;
    }
    assert oldNodes[..k] == oldNodes;
  }

  /** One step of `Relocate` at the `k`-th pair. */
  lemma RelocateStep(current: string, found: seq<(string, string)>, k: nat, image: bool)
    requires k < |found|
    ensures var sections := SplitOnce(current, PairMarkup(found[k], image));
      Relocate(current, found[k..], image)
      == if |sections| != 2 then Relocate(current, found[k + 1..], image)
         else Plain(sections[0]) + ([MarkupNode(found[k], image)] + Relocate(sections[1], found[k + 1..], image))
  {
    assert found[k..][0] == found[k];
    assert found[k..][1..] == found[k + 1..];
  }

  /** The inner loop over the extracted pairs, advancing `current`. */
  method SplitAround(text: string, found: seq<(string, string)>, image: bool) returns (spans: seq<TextNode>)
    ensures spans == Relocate(text, found, image)
  {
    spans := [];
    var current := text;
    var k := 0;
    while k < |found|
      invariant k <= |found|
      invariant spans + Relocate(current, found[k..], image) == Relocate(text, found, image)
    {
      var (alt, url) := found[k];
      var markdown := Markup(alt, url, image);
      var sections := SplitOnce(current, markdown);
      RelocateStep(current, found, k, image);
      if |sections| != 2 {
        k := k + 1;
        continue;
      }
      // the text before the markup is appended only when it is not empty
      var cut := Plain(sections[0]) + [TextNode(alt, Kind(image), Some(url))];
      assert cut == Plain(sections[0]) + [MarkupNode(found[k], image)];
      AppendAssoc(spans, cut, Relocate(sections[1], found[k + 1..], image));
      spans := spans + cut;
      current := sections[1];
      k := k + 1;
    }
    assert found[k..] == [];
    if current != "" {
      spans := spans + [TextNode(current, Text, None)];
    }
  }

  // ---------------------------------------------------------------------
  // What the passes promise

  /** The markdown a span stands for: plain text is itself, a cut-out span
      is its rebuilt markup. */
  function Source(n: TextNode, image: bool): string {
    if n.textType == Text then n.text else Markup(n.text, n.url.GetOr(""), image)
  }

  function Sources(ns: seq<TextNode>, image: bool): string
    decreases |ns|
  {
    if ns == [] then "" else Source(ns[0], image) + Sources(ns[1..], image)
  }

  lemma {:induction false} SourcesAppend(a: seq<TextNode>, b: seq<TextNode>, image: bool)
    ensures Sources(a + b, image) == Sources(a, image) + Sources(b, image)
    decreases |a|
  {
    if a == [] {
      assert a + b == b;
    } else {
      assert (a + b)[0] == a[0] && (a + b)[1..] == a[1..] + b;
      SourcesAppend(a[1..], b, image);
    }
  }

  /** Nothing is lost or invented: the spans spell out the text they were
      cut from. */
  lemma {:induction false} RelocateSource(current: string, found: seq<(string, string)>, image: bool)
    ensures Sources(Relocate(current, found, image), image) == current
    decreases |found|
  {
    if found != [] {
      var sections := SplitOnce(current, PairMarkup(found[0], image));
      if |sections| != 2 {
        RelocateSource(current, found[1..], image);
      } else {
        RelocateSource(sections[1], found[1..], image);
        RelocateCutSource(sections[0], found[0], Relocate(sections[1], found[1..], image), image);
      }
    }
  }

  lemma RelocateCutSource(before: string, pair: (string, string), rest: seq<TextNode>, image: bool)
    ensures Sources(Plain(before) + [MarkupNode(pair, image)] + rest, image) ==
      before + PairMarkup(pair, image) + Sources(rest, image)
  {
    SourcesAppend(Plain(before) + [MarkupNode(pair, image)], rest, image);
    SourcesAppend(Plain(before), [MarkupNode(pair, image)], image);
    assert Sources([MarkupNode(pair, image)], image) == PairMarkup(pair, image);
  }

  /** For a plain span, the pass's spans spell out its text. */
  lemma MarkupSplitSource(n: TextNode, image: bool)
    requires n.textType == Text
    ensures Sources(MarkupSplit(n, image), image) == n.text
  {
    RelocateSource(n.text, Extract(n.text, image), image);
  }

  /** Every pair's markup is found in what is left of the text when its
      turn comes: the loop never takes its `continue` branch. */
  predicate Located(current: string, found: seq<(string, string)>, image: bool)
    decreases |found|
  {
    found == [] ||
    var sections := SplitOnce(current, PairMarkup(found[0], image));
    |sections| == 2 && Located(sections[1], found[1..], image)
  }

  /** The pairs the scanner extracts are always located, so the defensive
      `continue` of both passes is unreachable. */
  lemma ExtractLocated(text: string, image: bool)
    ensures Located(text, Extract(text, image), image)
  {
    assert text[0..] == text;
    LocatedFrom(text, 0, 0, image);
  }

  lemma {:induction false} LocatedFrom(s: string, off: nat, p: nat, image: bool)
    requires off <= p <= |s|
    ensures Located(s[off..], Pairs(FindAll(s, p, image)), image)
    decreases |s| - p
  {
    var ms := FindAll(s, p, image);
    if ms != [] {
      var m := ms[0];
      MatchAtSound(s, m.start, image);
      FindAllTail(s, p, image);
      var off' := LocateStep(s, off, m, image);
      LocatedFrom(s, off', m.end, image);
      assert Pairs(ms)[1..] == Pairs(ms[1..]);
    }
  }

  /** Cutting the first literal occurrence of a match's markup out of a
      suffix that starts at or before the match leaves a suffix that starts
      at or before the match's end. */
  lemma LocateStep(s: string, off: nat, m: Match, image: bool) returns (off': nat)
    requires off <= m.start && m.end == m.start + |Markup(m.text, m.url, image)|
    requires OccursAt(s, Markup(m.text, m.url, image), m.start)
    ensures var sections := SplitOnce(s[off..], Markup(m.text, m.url, image));
      off' <= m.end && off' <= |s| && |sections| == 2 && sections[1] == s[off'..]
  {
    var mk := Markup(m.text, m.url, image);
    var cur := s[off..];
    assert cur[m.start - off..m.start - off + |mk|] == s[m.start..m.start + |mk|];
    assert OccursAt(cur, mk, m.start - off);
    var sections := SplitOnce(cur, mk);
    var q := |sections[0]|;
    assert q <= m.start - off;
    assert cur[q + |mk|..] == sections[1];
    off' := off + q + |mk|;
    assert cur[q + |mk|..] == s[off'..];
  }

  /** The styled spans, as the pairs they carry. */
  function Specials(ns: seq<TextNode>): seq<(string, string)>
    decreases |ns|
  {
    if ns == [] then []
    else (if ns[0].textType == Text then [] else [(ns[0].text, ns[0].url.GetOr(""))]) + Specials(ns[1..])
  }

  lemma {:induction false} SpecialsAppend(a: seq<TextNode>, b: seq<TextNode>)
    ensures Specials(a + b) == Specials(a) + Specials(b)
    decreases |a|
  {
    if a == [] {
      assert a + b == b;
    } else {
      assert (a + b)[0] == a[0] && (a + b)[1..] == a[1..] + b;
      SpecialsAppend(a[1..], b);
    }
  }

  /** Once every pair is located, the cut-out spans are the pairs, in
      order. */
  lemma {:induction false} RelocateSpecials(current: string, found: seq<(string, string)>, image: bool)
    requires Located(current, found, image)
    ensures Specials(Relocate(current, found, image)) == found
    decreases |found|
  {
    if found != [] {
      var sections := SplitOnce(current, PairMarkup(found[0], image));
      RelocateSpecials(sections[1], found[1..], image);
      CutSpecials(sections[0], found[0], Relocate(sections[1], found[1..], image), image);
      assert [found[0]] + found[1..] == found;
    }
  }

  lemma CutSpecials(before: string, pair: (string, string), rest: seq<TextNode>, image: bool)
    ensures Specials(Plain(before) + [MarkupNode(pair, image)] + rest) == [pair] + Specials(rest)
  {
    SpecialsAppend(Plain(before) + [MarkupNode(pair, image)], rest);
    SpecialsAppend(Plain(before), [MarkupNode(pair, image)]);
    assert Specials([MarkupNode(pair, image)]) == [pair];
  }

  /** For a plain span, the pass cuts out exactly the extracted pairs, in
      left-to-right order. */
  lemma MarkupSplitSpecials(n: TextNode, image: bool)
    requires n.textType == Text
    ensures Specials(MarkupSplit(n, image)) == Extract(n.text, image)
  {
    ExtractLocated(n.text, image);
    RelocateSpecials(n.text, Extract(n.text, image), image);
  }

  /** The spans of a cut are non-empty plain spans without url and spans
      of the pass's style with a url; no two plain spans are adjacent. */
  predicate WellCut(ns: seq<TextNode>, image: bool) {
    (forall k :: 0 <= k < |ns| ==>
       (ns[k].textType == Text && ns[k].text != "" && ns[k].url.None?) ||
       (ns[k].textType == Kind(image) && ns[k].url.Some?)) &&
    (forall k :: 0 <= k < |ns| - 1 ==> ns[k].textType == Text ==> ns[k + 1].textType != Text)
  }

  lemma {:induction false} RelocateWellCut(current: string, found: seq<(string, string)>, image: bool)
    ensures WellCut(Relocate(current, found, image), image)
    decreases |found|
  {
    if found != [] {
      var sections := SplitOnce(current, PairMarkup(found[0], image));
      if |sections| != 2 {
        RelocateWellCut(current, found[1..], image);
      } else {
        RelocateWellCut(sections[1], found[1..], image);
        WellCutCons(Plain(sections[0]), MarkupNode(found[0], image), Relocate(sections[1], found[1..], image), image);
      }
    }
  }

  lemma WellCutCons(before: seq<TextNode>, m: TextNode, rest: seq<TextNode>, image: bool)
    requires WellCut(before, image) && |before| <= 1
    requires m.textType == Kind(image) && m.url.Some?
    requires WellCut(rest, image)
    ensures WellCut(before + [m] + rest, image)
  {
    var ns := before + [m] + rest;
    forall k | 0 <= k < |ns|
      ensures (ns[k].textType == Text && ns[k].text != "" && ns[k].url.None?) ||
        (ns[k].textType == Kind(image) && ns[k].url.Some?)
    {
      if k < |before| {
        assert ns[k] == before[k];
      } else if k > |before| {
        assert ns[k] == rest[k - |before| - 1];
      }
    }
    forall k | 0 <= k < |ns| - 1 && ns[k].textType == Text
      ensures ns[k + 1].textType != Text
    {
      if k > |before| {
        assert ns[k] == rest[k - |before| - 1];
        assert ns[k + 1] == rest[k - |before|];
      }
    }
  }

  /** A plain node with markup is cut into well-formed spans; a node
      without markup, or a styled span, passes through unchanged. */
  lemma MarkupSplitShape(n: TextNode, image: bool)
    ensures n.textType != Text || Extract(n.text, image) == [] ==> MarkupSplit(n, image) == [n]
    ensures n.textType == Text && Extract(n.text, image) != [] ==> WellCut(MarkupSplit(n, image), image)
  {
    if n.textType == Text {
      RelocateWellCut(n.text, Extract(n.text, image), image);
    }
  }

  /** A pass works node by node: the result for a concatenation is the
      concatenation of the results. */
  lemma MarkupSplitAllAppend(a: seq<TextNode>, b: seq<TextNode>, image: bool)
    ensures MarkupSplitAll(a + b, image) == MarkupSplitAll(a, image) + MarkupSplitAll(b, image)
  {
    FlatMapAppend(a, b, Pass(image));
  }

  lemma {:induction false} FlatMapAppend(a: seq<TextNode>, b: seq<TextNode>, f: TextNode -> seq<TextNode>)
    ensures FlatMap(a + b, f) == FlatMap(a, f) + FlatMap(b, f)
    decreases |b|
  {
    if b == [] {
      assert a + b == a;
    } else {
      var b' := b[..|b| - 1];
      var last := b[|b| - 1];
      FlatMapAppend(a, b', f);
      assert (a + b)[..|a + b| - 1] == a + b';
      assert (a + b)[|a + b| - 1] == last;
      var x, y, z := FlatMap(a, f), FlatMap(b', f), f(last);
      assert x + y + z == x + (y + z);
    }
  }

  lemma MarkupSplitAllSnoc(a: seq<TextNode>, n: TextNode, image: bool)
    ensures MarkupSplitAll(a + [n], image) == MarkupSplitAll(a, image) + MarkupSplit(n, image)
  {
    assert (a + [n])[..|a|] == a;
  }

  /** No link that extraction finds starts right after `!`. The link pass can
      still cut inside an image, because it looks each link up again by its
      first literal occurrence (see `LinkPassCutsInsideImage`). */
  lemma LinkNotAfterBang(text: string, k: nat)
    requires k < |Extract(text, false)|
    ensures var m := FindAll(text, 0, false)[k]; m.start == 0 || text[m.start - 1] != '!'
  {
    ExtractSound(text, false, k);
  }

  /** On "![a](b) [a](b)" extraction finds only the link at index 8, but the
      pass cuts at the first literal "[a](b)", index 1, inside the image. */
  lemma LinkPassCutsInsideImage()
    ensures MarkupSplit(TextNode("![a](b) [a](b)", Text, None), false) ==
      [TextNode("!", Text, None), TextNode("a", Link, Some("b")), TextNode(" [a](b)", Text, None)]
  {
    BangLinkScan();
    SplitOneMatch(TextNode("![a](b) [a](b)", Text, None), false, Match("a", "b", 8, 14));
    BangLinkMarkup();
    BangLinkCut();
    RelocateOne("![a](b) [a](b)", ("a", "b"), false, "!", " [a](b)");
  }

  /** A plain node in which the scan finds one match is cut around that
      match's pair alone. */
  lemma SplitOneMatch(n: TextNode, image: bool, m: Match)
    requires n.textType == Text && FindAll(n.text, 0, image) == [m]
    ensures MarkupSplit(n, image) == Relocate(n.text, [(m.text, m.url)], image)
  {
    assert Extract(n.text, image) == [(m.text, m.url)];
  }

  /** Cutting around one pair whose markup splits the text into `before`
      and `after`. */
  lemma RelocateOne(current: string, pair: (string, string), image: bool, before: string, after: string)
    requires SplitOnce(current, PairMarkup(pair, image)) == [before, after]
    requires before != "" && after != ""
    ensures Relocate(current, [pair], image) ==
      [TextNode(before, Text, None), TextNode(pair.0, Kind(image), Some(pair.1)), TextNode(after, Text, None)]
  {
    assert [pair][1..] == [];
  }

  /** The scan of "![a](b) [a](b)" for links finds only the second one. */
  lemma BangLinkScan()
    ensures FindAll("![a](b) [a](b)", 0, false) == [Match("a", "b", 8, 14)]
  {
    var s := "![a](b) [a](b)";
    BangLinkAt();
    FindAllTake(s, 8, false);
    BangLinkNoneBefore();
    FindAllSkip(s, 7, false);
    FindAllSkip(s, 6, false);
    FindAllSkip(s, 5, false);
    FindAllSkip(s, 4, false);
    FindAllSkip(s, 3, false);
    FindAllSkip(s, 2, false);
    FindAllSkip(s, 1, false);
    FindAllSkip(s, 0, false);
  }

  lemma BangLinkAt()
    ensures MatchAt("![a](b) [a](b)", 8, false) == Some(Match("a", "b", 8, 14))
    ensures FindAll("![a](b) [a](b)", 14, false) == []
  {
    var s := "![a](b) [a](b)";
    assert ScanTo(s, 9, '[', ']') == 10;
    assert ScanTo(s, 12, '(', ')') == 13;
    assert s[9..10] == "a" && s[12..13] == "b";
    assert BracketedAt(s, 8) == Some(("a", "b", 14));
  }

  /** No link starts at `i` when `s[i]` is not `[`, or when `!` comes
      right before it. */
  lemma NotLinkStart(s: string, i: nat)
    requires i < |s| && (s[i] != '[' || (0 < i && s[i - 1] == '!'))
    ensures MatchAt(s, i, false).None?
  {
  }

  lemma BangLinkNoneBefore()
    ensures MatchAt("![a](b) [a](b)", 0, false).None?
    ensures MatchAt("![a](b) [a](b)", 1, false).None?
    ensures MatchAt("![a](b) [a](b)", 2, false).None?
    ensures MatchAt("![a](b) [a](b)", 3, false).None?
    ensures MatchAt("![a](b) [a](b)", 4, false).None?
    ensures MatchAt("![a](b) [a](b)", 5, false).None?
    ensures MatchAt("![a](b) [a](b)", 6, false).None?
    ensures MatchAt("![a](b) [a](b)", 7, false).None?
  {
    var s := "![a](b) [a](b)";
    NotLinkStart(s, 0);
    NotLinkStart(s, 1);
    NotLinkStart(s, 2);
    NotLinkStart(s, 3);
    NotLinkStart(s, 4);
    NotLinkStart(s, 5);
    NotLinkStart(s, 6);
    NotLinkStart(s, 7);
  }

  lemma BangLinkMarkup()
    ensures PairMarkup(("a", "b"), false) == "[a](b)"
  {
    assert Bracketed("a", "b") == "[a](b)";
  }

  /** The first literal "[a](b)" in "![a](b) [a](b)" is at index 1. */
  lemma BangLinkCut()
    ensures SplitOnce("![a](b) [a](b)", "[a](b)") == ["!", " [a](b)"]
  {
    var s := "![a](b) [a](b)";
    var mk := "[a](b)";
    assert s[1..7] == mk;
    assert s[0..6][0] == '!';
    SplitOnceAt(s, mk, 1);
    assert s[..1] == "!";
    assert s[7..] == " [a](b)";
  }
}
