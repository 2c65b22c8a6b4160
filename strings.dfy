/** The Python string primitives the converter relies on, written out:
    `str.find`, `str.split(sep)`, `str.split(sep, 1)`, `sep.join`,
    `str.strip()`, `str.startswith`, `str.endswith`, slicing `s[k:]` and the
    decimal formatting of a natural number in an f-string. `Count` and
    `Erase` are reference definitions the converter never calls: they state
    what the part count of a split and the concatenation of its parts mean. */
module Strings {
  import opened Wrappers

  /** `sub` occurs in `s` starting at index `i`. */
  predicate OccursAt(s: string, sub: string, i: int) {
    0 <= i && i + |sub| <= |s| && s[i..i + |sub|] == sub
  }

  predicate Contains(s: string, sub: string) {
    exists i :: 0 <= i <= |s| && OccursAt(s, sub, i)
  }

  /** `x + y` occurs at `i` exactly when `x` does and `y` follows it. */
  lemma OccursAtAppend(s: string, x: string, y: string, i: int)
    ensures OccursAt(s, x + y, i) <==> OccursAt(s, x, i) && OccursAt(s, y, i + |x|)
  {
    if 0 <= i && i + |x| + |y| <= |s| {
      assert s[i..i + |x| + |y|] == s[i..i + |x|] + s[i + |x|..i + |x| + |y|];
      if s[i..i + |x| + |y|] == x + y {
        assert s[i..i + |x|] == (x + y)[..|x|] == x;
        assert s[i + |x|..i + |x| + |y|] == (x + y)[|x|..] == y;
      }
    }
  }

  /** The first occurrence of `sub` in `s` at or after index `k`. */
  function IndexFrom(s: string, sub: string, k: nat): (r: Option<nat>)
    ensures r.Some? ==> k <= r.value && OccursAt(s, sub, r.value)
    ensures forall j :: k <= j && (r.None? || j < r.value) ==> !OccursAt(s, sub, j)
    decreases |s| - k
  {
    if k + |sub| > |s| then None
    else if s[k..k + |sub|] == sub then Some(k)
    else IndexFrom(s, sub, k + 1)
  }

  /** The first occurrence of `sub` in `s`, if any. */
  function IndexOf(s: string, sub: string): (r: Option<nat>)
    ensures r.Some? ==> OccursAt(s, sub, r.value)
    ensures forall j :: (r.None? || j < r.value) ==> !OccursAt(s, sub, j)
  {
    IndexFrom(s, sub, 0)
  }

  /** The first occurrence of a one-character separator is the first
      index holding that character. */
  lemma IndexOfChar(s: string, c: char, i: nat)
    requires i < |s| && s[i] == c && forall j :: 0 <= j < i ==> s[j] != c
    ensures IndexOf(s, [c]) == Some(i)
  {
    assert OccursAt(s, [c], i);
  }

  lemma IndexOfCharAbsent(s: string, c: char)
    requires forall j :: 0 <= j < |s| ==> s[j] != c
    ensures IndexOf(s, [c]) == None
  {
    forall j | 0 <= j < |s|
      ensures !OccursAt(s, [c], j)
    {
      assert s[j] != c;
    }
  }

  /** Python's `s.find(sub)`: the first index of `sub`, or -1. */
  function Find(s: string, sub: string): (r: int)
    ensures r == -1 <==> !Contains(s, sub)
    ensures r >= 0 ==> OccursAt(s, sub, r) && forall j :: 0 <= j < r ==> !OccursAt(s, sub, j)
  {
    match IndexOf(s, sub)
    case Some(i) => i
    case None => -1
  }

  /** Python's `s.split(sep)` for a non-empty separator: cut at every
      occurrence, left to right, without overlaps. */
  function Split(s: string, sep: string): (parts: seq<string>)
    requires sep != ""
    ensures |parts| >= 1
    decreases |s|
  {
    match IndexOf(s, sep)
    case None => [s]
    case Some(i) => [s[..i]] + Split(s[i + |sep|..], sep)
  }

  /** Python's `s.split(sep, 1)`: cut at the first occurrence only. */
  function SplitOnce(s: string, sep: string): (parts: seq<string>)
    requires sep != ""
    ensures |parts| == 1 ==> parts[0] == s && !Contains(s, sep)
    ensures |parts| == 2 ==> parts[0] + sep + parts[1] == s && !Contains(parts[0], sep)
    ensures |parts| == 2 ==> forall j :: 0 <= j < |parts[0]| ==> !OccursAt(s, sep, j)
    ensures |parts| == 1 || |parts| == 2
  {
    match IndexOf(s, sep)
    case None => [s]
    case Some(i) =>
      NoOccurrenceInPrefix(s, sep, i);
      assert s == s[..i] + s[i..i + |sep|] + s[i + |sep|..];
      [s[..i], s[i + |sep|..]]
  }

  /** The split is at `i` when the first occurrence of `sep` is there. */
  lemma SplitOnceAt(s: string, sep: string, i: nat)
    requires sep != "" && OccursAt(s, sep, i)
    requires forall j :: 0 <= j < i ==> !OccursAt(s, sep, j)
    ensures SplitOnce(s, sep) == [s[..i], s[i + |sep|..]]
  {
    assert IndexOf(s, sep) == Some(i);
  }

  /** Python's `sep.join(parts)`. */
  function Join(parts: seq<string>, sep: string): string {
    if |parts| == 0 then ""
    else if |parts| == 1 then parts[0]
    else parts[0] + sep + Join(parts[1..], sep)
  }

  /** Python's `s.count(sub)` for a non-empty `sub`: non-overlapping
      occurrences, counted left to right. */
  function Count(s: string, sub: string): nat
    requires sub != ""
    decreases |s|
  {
    if |s| < |sub| then 0
    else if s[..|sub|] == sub then 1 + Count(s[|sub|..], sub)
    else Count(s[1..], sub)
  }

  /** `s` with every non-overlapping occurrence of `sub` removed, scanning left
      to right (Python's `s.replace(sub, "")`). */
  function Erase(s: string, sub: string): string
    requires sub != ""
    decreases |s|
  {
    if |s| < |sub| then s
    else if s[..|sub|] == sub then Erase(s[|sub|..], sub)
    else [s[0]] + Erase(s[1..], sub)
  }

  lemma NoOccurrenceInPrefix(s: string, sub: string, i: nat)
    requires sub != "" && i <= |s|
    requires forall j :: 0 <= j < i ==> !OccursAt(s, sub, j)
    ensures !Contains(s[..i], sub)
  {
    forall j | OccursAt(s[..i], sub, j)
      ensures false
    {
      assert s[..i][j..j + |sub|] == s[j..j + |sub|];
      assert OccursAt(s, sub, j);
    }
  }

  lemma JoinCons(head: string, tail: seq<string>, sep: string)
    requires |tail| >= 1
    ensures Join([head] + tail, sep) == head + sep + Join(tail, sep)
  {
    assert ([head] + tail)[1..] == tail;
  }

  lemma {:induction false} JoinSnoc(parts: seq<string>, last: string, sep: string)
    requires |parts| >= 1
    ensures Join(parts + [last], sep) == Join(parts, sep) + sep + last
    decreases |parts|
  {
    if |parts| == 1 {
      assert (parts + [last])[1..] == [last];
    } else {
      assert (parts + [last])[1..] == parts[1..] + [last];
      JoinSnoc(parts[1..], last, sep);
    }
  }

  /** Concatenating a list is concatenating all but its last element, then
      that element. */
  lemma JoinLast(parts: seq<string>)
    requires parts != []
    ensures Join(parts, "") == Join(parts[..|parts| - 1], "") + parts[|parts| - 1]
  {
    if |parts| == 1 {
      JoinLastOne(parts);
    } else {
      JoinLastMore(parts);
    }
  }

  lemma JoinLastOne(parts: seq<string>)
    requires |parts| == 1
    ensures Join(parts, "") == Join(parts[..|parts| - 1], "") + parts[|parts| - 1]
  {
    assert parts[..0] == [];
    assert "" + parts[0] == parts[0];
  }

  lemma JoinLastMore(parts: seq<string>)
    requires |parts| > 1
    ensures Join(parts, "") == Join(parts[..|parts| - 1], "") + parts[|parts| - 1]
  {
    var init := parts[..|parts| - 1];
    var last := parts[|parts| - 1];
    assert init + [last] == parts;
    JoinSnoc(init, last, "");
    EmptyRight(Join(init, ""));
  }

  /** The empty string splits into one empty part. */
  lemma SplitEmpty(sep: string)
    requires sep != ""
    ensures Split("", sep) == [""]
  {
    assert IndexOf("", sep) == None;
  }

  /** The outer pieces of `a + m + c`, cut back out. */
  lemma ConcatSlices(a: string, m: string, c: string)
    ensures (a + m + c)[..|a|] == a
    ensures (a + m + c)[|a| + |m|..] == c
  {
  }

  /** A string with an occurrence of `sub` at `i` is the text before it,
      `sub`, and the text after it. */
  lemma OccursSplits(s: string, sub: string, i: nat)
    requires OccursAt(s, sub, i)
    ensures s == s[..i] + sub + s[i + |sub|..]
  {
    assert s == s[..i] + s[i..i + |sub|] + s[i + |sub|..];
  }

  /** One step of `Split`: the text before the first occurrence, then the
      split of what follows it. */
  lemma SplitStep(s: string, sep: string, i: nat)
    requires sep != "" && IndexOf(s, sep) == Some(i)
    ensures i + |sep| <= |s|
    ensures Split(s, sep) == [s[..i]] + Split(s[i + |sep|..], sep)
  {
  }

  lemma EmptyRight(s: string)
    ensures s + "" == s
  {
  }

  /** The join of the parts of a split is the string that was split. */
  lemma {:induction false} SplitJoin(s: string, sep: string)
    requires sep != ""
    ensures Join(Split(s, sep), sep) == s
    decreases |s|
  {
    match IndexOf(s, sep)
    case None =>
    case Some(i) =>
      SplitStep(s, sep, i);
      var rest := s[i + |sep|..];
      var tail := Split(rest, sep);
      SplitJoin(rest, sep);
      JoinCons(s[..i], tail, sep);
      OccursSplits(s, sep, i);
  }

  /** No part of a split contains the separator. */
  lemma {:induction false} SplitPartsFree(s: string, sep: string)
    requires sep != ""
    ensures forall k :: 0 <= k < |Split(s, sep)| ==> !Contains(Split(s, sep)[k], sep)
    decreases |s|
  {
    match IndexOf(s, sep)
    case None =>
      assert Split(s, sep) == [s];
    case Some(i) =>
      var rest := s[i + |sep|..];
      SplitPartsFree(rest, sep);
      NoOccurrenceInPrefix(s, sep, i);
      var parts := Split(s, sep);
      assert parts == [s[..i]] + Split(rest, sep);
      forall k | 0 <= k < |parts|
        ensures !Contains(parts[k], sep)
      {
        if k > 0 {
          assert parts[k] == Split(rest, sep)[k - 1];
        }
      }
  }

  /** Every character of a part of a split is a character of the string. */
  lemma {:induction false} SplitPartsChars(s: string, sep: string)
    requires sep != ""
    ensures forall k, c :: 0 <= k < |Split(s, sep)| && c in Split(s, sep)[k] ==> c in s
    decreases |s|
  {
    match IndexOf(s, sep)
    case None =>
    case Some(i) =>
      var rest := s[i + |sep|..];
      SplitPartsChars(rest, sep);
      var parts := Split(s, sep);
      assert parts == [s[..i]] + Split(rest, sep);
      forall k, c | 0 <= k < |parts| && c in parts[k]
        ensures c in s
      {
        if k == 0 {
          var m :| 0 <= m < i && s[..i][m] == c;
          assert s[m] == c;
        } else {
          assert parts[k] == Split(rest, sep)[k - 1];
          assert c in Split(rest, sep)[k - 1];
          assert c in rest;
          var m :| 0 <= m < |rest| && rest[m] == c;
          assert s[i + |sep| + m] == c;
        }
      }
  }

  /** Skipping a prefix without occurrences changes neither the count nor
      what erasing leaves after that prefix. */
  lemma {:induction false} ScanSkip(s: string, sub: string, i: nat)
    requires sub != "" && i <= |s|
    requires forall j :: 0 <= j < i ==> !OccursAt(s, sub, j)
    ensures Count(s, sub) == Count(s[i..], sub)
    ensures Erase(s, sub) == s[..i] + Erase(s[i..], sub)
    decreases i
  {
    if i == 0 {
      assert s[0..] == s;
      assert s[..0] == "";
    } else if |s| < |sub| {
      assert |s[i..]| < |sub|;
      assert s[..i] + s[i..] == s;
    } else {
      assert !OccursAt(s, sub, 0);
      assert s[..|sub|] == s[0..|sub|];
      var t := s[1..];
      ShiftNoOccurrence(s, sub, i);
      ScanSkip(t, sub, i - 1);
      PrefixCons(s, i);
      AppendAssoc([s[0]], t[..i - 1], Erase(s[i..], sub));
    }
  }

  /** Dropping the first character shifts the occurrence-free prefix by one. */
  lemma ShiftNoOccurrence(s: string, sub: string, i: nat)
    requires sub != "" && 1 <= i <= |s|
    requires forall j :: 0 <= j < i ==> !OccursAt(s, sub, j)
    ensures forall j :: 0 <= j < i - 1 ==> !OccursAt(s[1..], sub, j)
  {
    forall j | 0 <= j < i - 1
      ensures !OccursAt(s[1..], sub, j)
    {
      if OccursAt(s[1..], sub, j) {
        assert s[1..][j..j + |sub|] == s[j + 1..j + 1 + |sub|];
        assert OccursAt(s, sub, j + 1);
      }
    }
  }

  lemma PrefixCons(s: string, i: nat)
    requires 1 <= i <= |s|
    ensures [s[0]] + s[1..][..i - 1] == s[..i]
    ensures s[1..][i - 1..] == s[i..]
  {
  }

  /** Concatenation is associative (for any sequences, not only strings). */
  lemma AppendAssoc<T>(a: seq<T>, b: seq<T>, c: seq<T>)
    ensures a + b + c == a + (b + c)
  {
  }

  /** The last element of `a + b`, and what precedes it, for a non-empty `b`. */
  lemma AppendLast<T>(a: seq<T>, b: seq<T>)
    requires b != []
    ensures (a + b)[..|a + b| - 1] == a + b[..|b| - 1]
    ensures (a + b)[|a + b| - 1] == b[|b| - 1]
  {
  }

  /** A string that starts with `sub` counts one occurrence more, and erases
      to the same as, the text after it. */
  lemma CountEraseLead(t: string, sub: string)
    requires sub != "" && OccursAt(t, sub, 0)
    ensures Count(t, sub) == 1 + Count(t[|sub|..], sub)
    ensures Erase(t, sub) == Erase(t[|sub|..], sub)
  {
    assert t[..|sub|] == t[0..|sub|];
  }

  /** A split into n parts means n - 1 occurrences of the separator. */
  lemma {:induction false} SplitCount(s: string, sep: string)
    requires sep != ""
    ensures |Split(s, sep)| == Count(s, sep) + 1
    decreases |s|
  {
    match IndexOf(s, sep)
    case None =>
      ScanSkip(s, sep, |s|);
      assert s[|s|..] == "";
    case Some(i) =>
      SplitStep(s, sep, i);
      var rest := s[i + |sep|..];
      ScanSkip(s, sep, i);
      SuffixOccurs(s, sep, i);
      CountEraseLead(s[i..], sep);
      assert s[i..][|sep|..] == rest;
      SplitCount(rest, sep);
  }

  /** An occurrence at `i` is an occurrence at the start of `s[i..]`. */
  lemma SuffixOccurs(s: string, sub: string, i: nat)
    requires OccursAt(s, sub, i)
    ensures OccursAt(s[i..], sub, 0)
  {
    assert s[i..][0..|sub|] == s[i..i + |sub|];
  }

  /** Concatenating the parts of a split erases the separator. */
  lemma {:induction false} SplitConcat(s: string, sep: string)
    requires sep != ""
    ensures Join(Split(s, sep), "") == Erase(s, sep)
    decreases |s|
  {
    match IndexOf(s, sep)
    case None =>
      ScanSkip(s, sep, |s|);
      assert s[|s|..] == "";
      assert s[..|s|] == s;
    case Some(i) =>
      SplitStep(s, sep, i);
      var rest := s[i + |sep|..];
      var tail := Split(rest, sep);
      ScanSkip(s, sep, i);
      SuffixOccurs(s, sep, i);
      CountEraseLead(s[i..], sep);
      assert s[i..][|sep|..] == rest;
      SplitConcat(rest, sep);
      JoinCons(s[..i], tail, "");
      EmptyRight(s[..i]);
  }

  /** A string without the separator splits into itself alone. */
  lemma SplitAbsent(s: string, sep: string)
    requires sep != "" && !Contains(s, sep)
    ensures Split(s, sep) == [s]
  {
  }

  // ---------------------------------------------------------------------
  // Whitespace and str.strip()

  /** Python's `str.isspace` restricted to ASCII: tab, line feed, vertical tab,
      form feed, carriage return, the four separators 0x1C..0x1F and space. */
  predicate IsSpace(c: char) {
    c == ' ' || 9 <= c as int <= 13 || 28 <= c as int <= 31
  }

  predicate AllSpace(s: string) {
    forall k :: 0 <= k < |s| ==> IsSpace(s[k])
  }

  /** Neither end of `s` is whitespace: what `strip()` leaves. */
  predicate Trimmed(s: string) {
    s == "" || (!IsSpace(s[0]) && !IsSpace(s[|s| - 1]))
  }

  function StripLeft(s: string): (r: string)
    ensures |r| <= |s| && r == s[|s| - |r|..]
    ensures AllSpace(s[..|s| - |r|])
    ensures r != "" ==> !IsSpace(r[0])
  {
    if |s| > 0 && IsSpace(s[0]) then
      var r := StripLeft(s[1..]);
      StripLeftStep(s, r);
      r
    else s
  }

  lemma StripLeftStep(s: string, r: string)
    requires |s| > 0 && IsSpace(s[0])
    requires |r| <= |s| - 1 && r == s[1..][|s| - 1 - |r|..]
    requires AllSpace(s[1..][..|s| - 1 - |r|])
    ensures r == s[|s| - |r|..]
    ensures AllSpace(s[..|s| - |r|])
  {
    var t := s[1..];
    assert t[|t| - |r|..] == s[|s| - |r|..];
    forall k | 0 <= k < |s| - |r|
      ensures IsSpace(s[k])
    {
      if k > 0 {
        assert s[k] == t[..|t| - |r|][k - 1];
      }
    }
  }

  function StripRight(s: string): (r: string)
    ensures |r| <= |s| && r == s[..|r|]
    ensures AllSpace(s[|r|..])
    ensures r != "" ==> !IsSpace(r[|r| - 1])
  {
    if |s| > 0 && IsSpace(s[|s| - 1]) then
      var r := StripRight(s[..|s| - 1]);
      StripRightStep(s, r);
      r
    else s
  }

  lemma StripRightStep(s: string, r: string)
    requires |s| > 0 && IsSpace(s[|s| - 1])
    requires |r| <= |s| - 1 && r == s[..|s| - 1][..|r|]
    requires AllSpace(s[..|s| - 1][|r|..])
    ensures r == s[..|r|]
    ensures AllSpace(s[|r|..])
  {
    var t := s[..|s| - 1];
    assert t[..|r|] == s[..|r|];
    forall k | |r| <= k < |s|
      ensures IsSpace(s[k])
    {
      if k < |s| - 1 {
        assert s[k] == t[|r|..][k - |r|];
      }
    }
  }

  /** Python's `s.strip()`. */
  function Strip(s: string): (r: string)
    ensures Trimmed(r)
    ensures r == "" <==> AllSpace(s)
  {
    var l := StripLeft(s);
    var r := StripRight(l);
    StripParts(s, l, r);
    r
  }

  /** Cutting a whitespace run off the front and then off the back leaves a
      trimmed string, empty exactly when the whole input was whitespace. */
  lemma StripParts(s: string, l: string, r: string)
    requires |l| <= |s| && l == s[|s| - |l|..] && (l != "" ==> !IsSpace(l[0]))
    requires AllSpace(s[..|s| - |l|])
    requires |r| <= |l| && r == l[..|r|] && (r != "" ==> !IsSpace(r[|r| - 1]))
    requires AllSpace(l[|r|..])
    ensures Trimmed(r)
    ensures r == "" <==> AllSpace(s)
  {
    if r == "" {
      assert l[|r|..] == l;
      assert l == "";
      assert s[..|s| - |l|] == s;
    } else {
      assert r[0] == l[0];
      assert s[|s| - |l|] == l[0];
    }
  }

  /** `strip()` keeps a window from the middle of the string and cuts off
      only whitespace on either side of it. */
  lemma {:induction false} StripWindow(s: string) returns (i: nat)
    ensures i + |Strip(s)| <= |s| && Strip(s) == s[i..i + |Strip(s)|]
    ensures AllSpace(s[..i]) && AllSpace(s[i + |Strip(s)|..])
  {
    var r;
    i, r := StripCuts(s);
    SameWindow(s, r, Strip(s), i);
  }

  /** The window `strip()` keeps, with the cuts it makes on either side. */
  lemma StripCuts(s: string) returns (i: nat, r: string)
    ensures i + |r| <= |s| && r == s[i..i + |r|]
    ensures AllSpace(s[..i]) && AllSpace(s[i + |r|..])
    ensures Strip(s) == r
  {
    var l := StripLeft(s);
    r := StripRight(l);
    i := WindowParts(s, l, r);
  }

  /** A whitespace run cut off the front, then one cut off the back, leave a
      window with whitespace on both sides. */
  lemma WindowParts(s: string, l: string, r: string) returns (i: nat)
    requires |l| <= |s| && l == s[|s| - |l|..] && AllSpace(s[..|s| - |l|])
    requires |r| <= |l| && r == l[..|r|] && AllSpace(l[|r|..])
    ensures i + |r| <= |s| && r == s[i..i + |r|]
    ensures AllSpace(s[..i]) && AllSpace(s[i + |r|..])
  {
    i := |s| - |l|;
    assert s[i + |r|..] == l[|r|..];
  }

  lemma SameWindow(s: string, r: string, t: string, i: nat)
    requires t == r && i + |r| <= |s| && r == s[i..i + |r|]
    requires AllSpace(s[..i]) && AllSpace(s[i + |r|..])
    ensures i + |t| <= |s| && t == s[i..i + |t|]
    ensures AllSpace(s[..i]) && AllSpace(s[i + |t|..])
  {
  }

  /** A string without the one-character string `[c]` does not hold `c`. */
  lemma Lacks(s: string, c: char)
    requires !Contains(s, [c])
    ensures c !in s
  {
    forall j | 0 <= j < |s|
      ensures s[j] != c
    {
      assert s[j..j + 1] == [s[j]];
      assert !OccursAt(s, [c], j);
    }
  }

  /** Stripping adds no character. */
  lemma StripLacks(s: string, c: char)
    requires c !in s
    ensures c !in Strip(s)
  {
    var l := StripLeft(s);
    var r := StripRight(l);
    SliceLacks(s, |s| - |l|, |s|, c);
    assert s[|s| - |l|..|s|] == l;
    SliceLacks(l, 0, |r|, c);
    assert l[0..|r|] == r;
  }

  lemma SliceLacks(s: string, lo: nat, hi: nat, c: char)
    requires lo <= hi <= |s| && c !in s
    ensures c !in s[lo..hi]
  {
    forall j | 0 <= j < hi - lo
      ensures s[lo..hi][j] != c
    {
      assert s[lo..hi][j] == s[lo + j];
    }
  }

  /** A trimmed string is its own strip; in particular `strip` is idempotent. */
  lemma StripTrimmed(s: string)
    requires Trimmed(s)
    ensures Strip(s) == s
  {
  }

  lemma StripIdempotent(s: string)
    ensures Strip(Strip(s)) == Strip(s)
  {
    StripTrimmed(Strip(s));
  }

  // ---------------------------------------------------------------------
  // Prefixes, suffixes, slices, numbers

  predicate StartsWith(s: string, prefix: string) {
    |prefix| <= |s| && s[..|prefix|] == prefix
  }

  predicate EndsWith(s: string, suffix: string) {
    |suffix| <= |s| && s[|s| - |suffix|..] == suffix
  }

  /** Python's `s[k:]`: empty once `k` passes the end. */
  function SliceFrom(s: string, k: nat): (r: string)
    ensures k <= |s| ==> s == s[..k] + r
    ensures |r| == if k <= |s| then |s| - k else 0
  {
    if k <= |s| then s[k..] else ""
  }

  function Digit(d: nat): (c: char)
    requires d < 10
    ensures '0' <= c <= '9'
  {
    (48 + d) as char
  }

  function DigitValue(c: char): nat {
    if '0' <= c <= '9' then c as int - 48 else 0
  }

  /** Python's `str(n)` for a natural number: its decimal digits. */
  function NatToString(n: nat): (r: string)
    ensures |r| >= 1 && forall k :: 0 <= k < |r| ==> '0' <= r[k] <= '9'
    ensures n < 10 <==> |r| == 1
  {
    if n < 10 then [Digit(n)] else NatToString(n / 10) + [Digit(n % 10)]
  }

  /** The value of a string of decimal digits. */
  function ParseDecimal(s: string): nat {
    if s == [] then 0 else 10 * ParseDecimal(s[..|s| - 1]) + DigitValue(s[|s| - 1])
  }

  /** Reading back the digits gives the number: formatting is injective. */
  lemma {:induction false} ParseNatToString(n: nat)
    ensures ParseDecimal(NatToString(n)) == n
  {
    if n >= 10 {
      ParseNatToString(n / 10);
      var r := NatToString(n);
      assert r[..|r| - 1] == NatToString(n / 10);
    }
  }
}
