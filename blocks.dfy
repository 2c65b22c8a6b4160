/** Block structure: `markdown_to_blocks`, which cuts a document at blank
    lines into stripped, non-empty blocks, and `block_to_block_type`, which
    gives each block its kind, the first that matches in the order heading,
    code, quote, unordered list, ordered list, paragraph. */
module Blocks {
  import opened Wrappers
  import opened Strings

  /** `BlockType`. */
  datatype BlockType = Paragraph | Heading | Code | Quote | UnorderedList | OrderedList

  /** The separator between blocks: a blank line. */
  const BlankLine: string := "\n\n"

  // ---------------------------------------------------------------------
  // Segmenter

  /** The stripped pieces that are not empty, in order. */
  function Cleaned(pieces: seq<string>): seq<string> {
    if pieces == [] then []
    else
      var block := Strip(pieces[|pieces| - 1]);
      Cleaned(pieces[..|pieces| - 1]) + (if block == "" then [] else [block])
  }

  /** The blocks of a document. */
  function Segments(markdown: string): seq<string> {
    Cleaned(Split(markdown, BlankLine))
  }

  /** `markdown_to_blocks`. */
  method MarkdownToBlocks(markdown: string) returns (cleanedBlocks: seq<string>)
    ensures cleanedBlocks == Segments(markdown)
  {
    var blocks := Split(markdown, BlankLine);
    cleanedBlocks := CleanBlocks(blocks);
  }

  /** The loop of `markdown_to_blocks`: strips each piece and keeps the
      non-empty ones, in order. */
  method CleanBlocks(blocks: seq<string>) returns (cleanedBlocks: seq<string>)
    ensures cleanedBlocks == Cleaned(blocks)
  {
    cleanedBlocks := [];
    var i := 0;
    while i < |blocks|
      invariant 0 <= i <= |blocks|
      invariant cleanedBlocks == Cleaned(blocks[..i])
    {
      var strippedBlock := Strip(blocks[i]);
      CleanedStep(blocks, i, strippedBlock);
      if strippedBlock != "" {
        cleanedBlocks := cleanedBlocks + [strippedBlock];
      }
      i := i + 1;
    }
    assert blocks[..i] == blocks;
  }

  lemma CleanedStep(pieces: seq<string>, i: nat, block: string)
    requires i < |pieces| && block == Strip(pieces[i])
    ensures block == "" ==> Cleaned(pieces[..i + 1]) == Cleaned(pieces[..i])
    ensures block != "" ==> Cleaned(pieces[..i + 1]) == Cleaned(pieces[..i]) + [block]
  {
    assert pieces[..i + 1][..i] == pieces[..i];
    assert Cleaned(pieces[..i]) + [] == Cleaned(pieces[..i]);
  }

  /** A block is non-empty and has no whitespace at either end. */
  predicate IsBlock(b: string) {
    b != "" && Trimmed(b)
  }

  lemma {:induction false} CleanedAreBlocks(pieces: seq<string>)
    ensures forall k :: 0 <= k < |Cleaned(pieces)| ==> IsBlock(Cleaned(pieces)[k])
    decreases |pieces|
  {
    if pieces != [] {
      CleanedAreBlocks(pieces[..|pieces| - 1]);
    }
  }

  /** Every block is non-empty and is its own strip. */
  lemma BlocksAreStripped(markdown: string, k: nat)
    requires k < |Segments(markdown)|
    ensures Segments(markdown)[k] != "" && Strip(Segments(markdown)[k]) == Segments(markdown)[k]
  {
    CleanedAreBlocks(Split(markdown, BlankLine));
    StripTrimmed(Segments(markdown)[k]);
  }

  lemma {:induction false} CleanedEmptyIff(pieces: seq<string>)
    ensures Cleaned(pieces) == [] <==> forall k :: 0 <= k < |pieces| ==> AllSpace(pieces[k])
    decreases |pieces|
  {
    if pieces != [] {
      var init := pieces[..|pieces| - 1];
      var last := pieces[|pieces| - 1];
      CleanedEmptyIff(init);
      var block := Strip(last);
      assert Cleaned(pieces) == Cleaned(init) + (if block == "" then [] else [block]);
      SnocEmpty(Cleaned(init), block);
      AllSpaceSnoc(pieces, init, last);
    }
  }

  lemma SnocEmpty(front: seq<string>, block: string)
    ensures front + (if block == "" then [] else [block]) == [] <==> front == [] && block == ""
  {
    if block != "" {
      assert |front + [block]| > 0;
    }
  }

  lemma AllSpaceSnoc(pieces: seq<string>, init: seq<string>, last: string)
    requires pieces == init + [last]
    ensures (forall k :: 0 <= k < |pieces| ==> AllSpace(pieces[k])) <==>
      (forall k :: 0 <= k < |init| ==> AllSpace(init[k])) && AllSpace(last)
  {
    assert forall k :: 0 <= k < |init| ==> init[k] == pieces[k];
    assert pieces[|init|] == last;
    if (forall k :: 0 <= k < |init| ==> AllSpace(init[k])) && AllSpace(last) {
      forall k | 0 <= k < |pieces|
        ensures AllSpace(pieces[k])
      {
        if k < |init| {
          assert pieces[k] == init[k];
        }
      }
    }
  }

  /** A document has no blocks exactly when it is whitespace only. */
  lemma NoBlocksIffBlank(markdown: string)
    ensures Segments(markdown) == [] <==> AllSpace(markdown)
  {
    var pieces := Split(markdown, BlankLine);
    CleanedEmptyIff(pieces);
    SplitPartsChars(markdown, BlankLine);
    SplitJoin(markdown, BlankLine);
    if forall k :: 0 <= k < |pieces| ==> AllSpace(pieces[k]) {
      JoinAllSpace(pieces, BlankLine);
    }
    if AllSpace(markdown) {
      forall k | 0 <= k < |pieces|
        ensures AllSpace(pieces[k])
      {
        forall j | 0 <= j < |pieces[k]|
          ensures IsSpace(pieces[k][j])
        {
          var c := pieces[k][j];
          assert c in pieces[k];
          assert c in markdown;
          var m :| 0 <= m < |markdown| && markdown[m] == c;
          assert IsSpace(markdown[m]);
        }
      }
    }
  }

  /** Joining whitespace with whitespace gives whitespace. */
  lemma {:induction false} JoinAllSpace(parts: seq<string>, sep: string)
    requires AllSpace(sep) && forall k :: 0 <= k < |parts| ==> AllSpace(parts[k])
    ensures AllSpace(Join(parts, sep))
    decreases |parts|
  {
    if |parts| > 1 {
      JoinAllSpace(parts[1..], sep);
      var j := Join(parts[1..], sep);
      assert Join(parts, sep) == parts[0] + sep + j;
      forall m | 0 <= m < |parts[0] + sep + j|
        ensures IsSpace((parts[0] + sep + j)[m])
      {
        if m < |parts[0]| {
        } else if m < |parts[0]| + |sep| {
          assert (parts[0] + sep + j)[m] == sep[m - |parts[0]|];
        } else {
          assert (parts[0] + sep + j)[m] == j[m - |parts[0]| - |sep|];
        }
      }
    }
  }

  /** After a block, the first blank line is the one that follows it: a
      block contains none and does not end in a newline. */
  lemma FirstBlankLineAfter(b: string, t: string)
    requires IsBlock(b) && !Contains(b, BlankLine)
    ensures IndexOf(b + BlankLine + t, BlankLine) == Some(|b|)
  {
    var s := b + BlankLine + t;
    assert s[|b|..|b| + 2] == BlankLine;
    assert OccursAt(s, BlankLine, |b|);
    forall v | 0 <= v < |b|
      ensures !OccursAt(s, BlankLine, v)
    {
      if v + 2 <= |b| {
        assert s[v..v + 2] == b[v..v + 2];
        assert !OccursAt(b, BlankLine, v);
      } else {
        assert s[v] == b[|b| - 1];
        assert !IsSpace(s[v]);
      }
    }
  }

  /** Blocks joined with blank lines split back into the same blocks. */
  lemma {:induction false} SplitJoinedBlocks(bs: seq<string>)
    requires |bs| >= 1
    requires forall k :: 0 <= k < |bs| ==> IsBlock(bs[k]) && !Contains(bs[k], BlankLine)
    ensures Split(Join(bs, BlankLine), BlankLine) == bs
    decreases |bs|
  {
    if |bs| == 1 {
      SplitAbsent(bs[0], BlankLine);
    } else {
      var rest := Join(bs[1..], BlankLine);
      var s := bs[0] + BlankLine + rest;
      JoinCons(bs[0], bs[1..], BlankLine);
      assert [bs[0]] + bs[1..] == bs;
      FirstBlankLineAfter(bs[0], rest);
      SplitStep(s, BlankLine, |bs[0]|);
      ConcatSlices(bs[0], BlankLine, rest);
      SplitJoinedBlocks(bs[1..]);
    }
  }

  lemma {:induction false} CleanedBlocks(bs: seq<string>)
    requires forall k :: 0 <= k < |bs| ==> IsBlock(bs[k])
    ensures Cleaned(bs) == bs
    decreases |bs|
  {
    if bs != [] {
      CleanedBlocks(bs[..|bs| - 1]);
      StripTrimmed(bs[|bs| - 1]);
      assert bs[..|bs| - 1] + [bs[|bs| - 1]] == bs;
    }
  }

  /** Segmenting undoes joining: blocks without blank lines in them,
      joined with blank lines, segment back into exactly those blocks. */
  lemma SegmentJoinRoundTrip(bs: seq<string>)
    requires forall k :: 0 <= k < |bs| ==> IsBlock(bs[k]) && !Contains(bs[k], BlankLine)
    ensures Segments(Join(bs, BlankLine)) == bs
  {
    if bs == [] {
      SplitEmpty(BlankLine);
      assert Strip("") == "";
      assert [""][..0] == [];
    } else {
      SplitJoinedBlocks(bs);
      CleanedBlocks(bs);
    }
  }

  // ---------------------------------------------------------------------
  // Classifier

  /** The number of `#` characters a block starts with. */
  function HashRun(s: string): (n: nat)
    ensures n <= |s| && (forall k :: 0 <= k < n ==> s[k] == '#') && (n < |s| ==> s[n] != '#')
  {
    if s != "" && s[0] == '#' then 1 + HashRun(s[1..]) else 0
  }

  /** A run of `n` leading `#` followed by something else (or nothing) is
      the whole run. */
  lemma {:induction false} HashRunIs(s: string, n: nat)
    requires n <= |s| && (forall k :: 0 <= k < n ==> s[k] == '#') && (n < |s| ==> s[n] != '#')
    ensures HashRun(s) == n
    decreases n
  {
    if n > 0 {
      assert s[0] == '#';
      var t := s[1..];
      assert forall k :: 0 <= k < n - 1 ==> t[k] == s[k + 1];
      HashRunIs(t, n - 1);
    }
  }

  /** `^#{1,6} `: one to six `#` then a space. */
  predicate IsHeading(b: string) {
    var n := HashRun(b);
    1 <= n <= 6 && n < |b| && b[n] == ' '
  }

  /** A fenced code block: starts and ends with three backticks, at least
      six characters long. */
  predicate IsCodeBlock(b: string) {
    StartsWith(b, "```") && EndsWith(b, "```") && |b| >= 6
  }

  /** The lines of a block, `block.split('\n')`. */
  function Lines(b: string): (lines: seq<string>)
    ensures |lines| >= 1
  {
    Split(b, "\n")
  }

  predicate EveryLineStarts(lines: seq<string>, prefix: string) {
    forall i :: 0 <= i < |lines| ==> StartsWith(lines[i], prefix)
  }

  /** What line `i` of an ordered list starts with: `i + 1` in decimal, a
      dot and a space. */
  function ItemPrefix(i: nat): string {
    NatToString(i + 1) + ". "
  }

  predicate Numbered(lines: seq<string>) {
    forall i :: 0 <= i < |lines| ==> StartsWith(lines[i], ItemPrefix(i))
  }

  /** The kind of a block: the first kind that matches. */
  function Classify(b: string): BlockType {
    var lines := Lines(b);
    if IsHeading(b) then Heading
    else if IsCodeBlock(b) then Code
    else if EveryLineStarts(lines, ">") then Quote
    else if EveryLineStarts(lines, "- ") then UnorderedList
    else if Numbered(lines) && |lines| > 0 then OrderedList
    else Paragraph
  }

  /** `block_to_block_type`; the ordered-list check is a loop that stops at
      the first line with the wrong number. */
  method BlockToBlockType(block: string) returns (t: BlockType)
    ensures t == Classify(block)
  {
    if IsHeading(block) {
      return Heading;
    }
    if StartsWith(block, "```") && EndsWith(block, "```") && |block| >= 6 {
      return Code;
    }
    var lines := Split(block, "\n");
    if EveryLineStarts(lines, ">") {
      return Quote;
    }
    if EveryLineStarts(lines, "- ") {
      return UnorderedList;
    }
    var isOrderedList := true;
    var i := 0;
    while i < |lines|
      invariant 0 <= i <= |lines|
      invariant isOrderedList ==> forall j :: 0 <= j < i ==> StartsWith(lines[j], ItemPrefix(j))
      invariant !isOrderedList ==> !Numbered(lines)
    {
      var expectedNumber := i + 1;
      if !StartsWith(lines[i], NatToString(expectedNumber) + ". ") {
        isOrderedList := false;
        break;
      }
      i := i + 1;
    }
    if isOrderedList && |lines| > 0 {
      return OrderedList;
    }
    return Paragraph;
  }

  // ---------------------------------------------------------------------
  // What classification promises

  /** The heading check is the pattern `^#{1,6} `: some count of `#` from
      one to six, then a space. */
  lemma HeadingIffPattern(b: string)
    ensures IsHeading(b) <==>
      exists k :: 1 <= k <= 6 && k < |b| && (forall j :: 0 <= j < k ==> b[j] == '#') && b[k] == ' '
  {
    var n := HashRun(b);
    if exists k :: 1 <= k <= 6 && k < |b| && (forall j :: 0 <= j < k ==> b[j] == '#') && b[k] == ' ' {
      var k :| 1 <= k <= 6 && k < |b| && (forall j :: 0 <= j < k ==> b[j] == '#') && b[k] == ' ';
      assert n >= k;
      assert n == k;
    }
  }

  /** No block satisfies two of the five tests: the first line of a
      heading starts with `#`, of code with a backtick, of a quote with
      `>`, of an unordered list with `-`, of an ordered list with `1`. So
      the order of the tests never decides a block's kind. */
  lemma KindsExclusive(b: string)
    ensures var lines := Lines(b);
      var tests := [IsHeading(b), IsCodeBlock(b), EveryLineStarts(lines, ">"),
                    EveryLineStarts(lines, "- "), Numbered(lines)];
      forall i, j :: 0 <= i < j < 5 && tests[i] ==> !tests[j]
  {
    var lines := Lines(b);
    assert IsHeading(b) ==> b != "" && b[0] == '#';
    assert IsCodeBlock(b) ==> b != "" && b[0] == '`';
    LinesStart(b, ">");
    LinesStart(b, "- ");
    NumberedStart(b);
  }

  /** When every line starts with `prefix`, so does the block. */
  lemma LinesStart(b: string, prefix: string)
    requires prefix != ""
    ensures EveryLineStarts(Lines(b), prefix) ==> b != "" && b[0] == prefix[0]
  {
    FirstLineStart(b);
    var first := Lines(b)[0];
    if StartsWith(first, prefix) {
      assert b[0] == first[0] == prefix[0];
    }
  }

  /** A numbered block starts with `1`. */
  lemma NumberedStart(b: string)
    ensures Numbered(Lines(b)) ==> b != "" && b[0] == '1'
  {
    FirstLineStart(b);
    var first := Lines(b)[0];
    assert NatToString(1) == ['1'];
    assert ItemPrefix(0)[0] == '1';
    if StartsWith(first, ItemPrefix(0)) {
      assert b[0] == first[0] == ItemPrefix(0)[0];
    }
  }

  /** The first line of a block is a prefix of it. */
  lemma FirstLineStart(b: string)
    ensures StartsWith(b, Lines(b)[0])
  {
    SplitJoin(b, "\n");
    var lines := Lines(b);
    if |lines| > 1 {
      JoinCons(lines[0], lines[1..], "\n");
      assert lines == [lines[0]] + lines[1..];
    }
  }

  /** One line with the wrong number anywhere makes an ordered list a
      paragraph. */
  lemma MisnumberedIsParagraph(b: string, i: nat)
    requires i < |Lines(b)| && !StartsWith(Lines(b)[i], ItemPrefix(i))
    requires !IsHeading(b) && !IsCodeBlock(b)
    requires !EveryLineStarts(Lines(b), ">") && !EveryLineStarts(Lines(b), "- ")
    ensures Classify(b) == Paragraph
  {
  }
}
