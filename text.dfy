/** The Python string built-ins the graded code relies on: `str.isspace`,
    `str.strip`, `str.rfind`, `str.split`, `str.join` and `str.lower`. */
module Text {
  import opened Wrappers

  /** Python's `str.isspace()` for one character: the characters that
      `strip()` with no argument removes and that the regex class `\s` matches. */
  predicate IsSpace(c: char) {
    c == ' ' || c == '\t' || c == '\n' || c == '\r' || c == '\U{B}' || c == '\U{C}'
    || ('\U{1C}' <= c <= '\U{1F}') || c == '\U{85}' || c == '\U{A0}' || c == '\U{1680}'
    || ('\U{2000}' <= c <= '\U{200A}') || c == '\U{2028}' || c == '\U{2029}'
    || c == '\U{202F}' || c == '\U{205F}' || c == '\U{3000}'
  }

  /** Number of occurrences of character `c` in `s`. */
  function Count(c: char, s: string): (n: nat)
    ensures n <= |s|
  {
    if s == [] then 0
    else (if s[0] == c then 1 else 0) + Count(c, s[1..])
  }

  lemma {:induction false} CountConcat(c: char, a: string, b: string)
    ensures Count(c, a + b) == Count(c, a) + Count(c, b)
    decreases |a|
  {
    if a == [] {
      assert a + b == b;
    } else {
      assert (a + b)[1..] == a[1..] + b;
      CountConcat(c, a[1..], b);
    }
  }

  /** A string none of whose characters is `c` holds no `c`. */
  lemma {:induction false} CountAbsent(c: char, s: string)
    requires forall i :: 0 <= i < |s| ==> s[i] != c
    ensures Count(c, s) == 0
  {
    if s != [] {
      CountAbsent(c, s[1..]);
    }
  }

  // ---------------------------------------------------------------------
  // Searching

  /** `pat` occurs in `s` starting at index `i`. */
  predicate OccursAt(s: string, pat: string, i: nat) {
    i + |pat| <= |s| && s[i..i + |pat|] == pat
  }

  /** The largest index below `n` where `pat` occurs. */
  function LastIndexBelow(s: string, pat: string, n: nat): (r: Option<nat>)
    ensures r.Some? ==> r.value < n && OccursAt(s, pat, r.value)
    ensures r.None? ==> forall i: nat :: i < n ==> !OccursAt(s, pat, i)
    ensures r.Some? ==> forall i: nat :: r.value < i < n ==> !OccursAt(s, pat, i)
  {
    if n == 0 then None
    else if OccursAt(s, pat, n - 1) then Some(n - 1)
    else LastIndexBelow(s, pat, n - 1)
  }

  /** Python's `s.rfind(pat)`, with `None` for -1. */
  function LastIndexOf(s: string, pat: string): (r: Option<nat>)
    ensures r.Some? ==> OccursAt(s, pat, r.value)
    ensures r.None? ==> forall i: nat :: !OccursAt(s, pat, i)
    ensures r.Some? ==> forall i: nat :: r.value < i ==> !OccursAt(s, pat, i)
  {
    LastIndexBelow(s, pat, |s| + 1)
  }

  /** An occurrence with no later one is what `LastIndexOf` finds. */
  lemma LastIndexOfIs(s: string, pat: string, i: nat)
    requires OccursAt(s, pat, i)
    requires forall j: nat :: i < j ==> !OccursAt(s, pat, j)
    ensures LastIndexOf(s, pat) == Some(i)
  {
  }

  /** Putting text in front shifts the last occurrence by the length of that
      text, when the original text holds one. */
  lemma LastIndexAfterPrefix(pre: string, t: string, pat: string)
    requires LastIndexOf(t, pat).Some?
    ensures LastIndexOf(pre + t, pat) == Some(|pre| + LastIndexOf(t, pat).value)
  {
    var j := LastIndexOf(t, pat).value;
    var s := pre + t;
    SliceAfterPrefix(pre, t, |pre| + j, |pat|);
    forall i: nat | |pre| + j < i
      ensures !OccursAt(s, pat, i)
    {
      if i + |pat| <= |s| {
        SliceAfterPrefix(pre, t, i, |pat|);
        assert !OccursAt(t, pat, i - |pre|);
      }
    }
    LastIndexOfIs(s, pat, |pre| + j);
  }

  /** A slice lying after a prefix is the matching slice of the rest. */
  lemma SliceAfterPrefix(pre: string, t: string, i: nat, len: nat)
    requires |pre| <= i && i + len <= |pre| + |t|
    ensures (pre + t)[i..i + len] == t[i - |pre|..i - |pre| + len]
  {
  }

  /** A suffix lying after a prefix is the matching suffix of the rest. */
  lemma SuffixAfterPrefix(pre: string, t: string, i: nat)
    requires |pre| <= i <= |pre| + |t|
    ensures (pre + t)[i..] == t[i - |pre|..]
  {
  }

  /** An occurrence inside an infix is an occurrence in the whole text. */
  lemma OccursInInfix(s: string, e: string, p: nat, pat: string, i: nat)
    requires p + |e| <= |s| && e == s[p..p + |e|]
    requires OccursAt(e, pat, i)
    ensures OccursAt(s, pat, p + i)
  {
    assert forall k :: 0 <= k < |e| ==> e[k] == s[p + k];
    assert e[i..i + |pat|] == s[p + i..p + i + |pat|];
  }

  /** The smallest index at or after `n` where `pat` occurs: Python's `s.find(pat, n)`. */
  function FirstIndexFrom(s: string, pat: string, n: nat): (r: Option<nat>)
    ensures r.Some? ==> n <= r.value && OccursAt(s, pat, r.value)
    ensures r.None? ==> forall i: nat :: n <= i ==> !OccursAt(s, pat, i)
    ensures r.Some? ==> forall i: nat :: n <= i < r.value ==> !OccursAt(s, pat, i)
    decreases |s| - n
  {
    if n + |pat| > |s| then None
    else if OccursAt(s, pat, n) then Some(n)
    else FirstIndexFrom(s, pat, n + 1)
  }

  /** An occurrence with none between `n` and it is what `FirstIndexFrom` finds. */
  lemma FirstIndexFromIs(s: string, pat: string, n: nat, i: nat)
    requires n <= i && OccursAt(s, pat, i)
    requires forall j: nat :: n <= j < i ==> !OccursAt(s, pat, j)
    ensures FirstIndexFrom(s, pat, n) == Some(i)
  {
  }

  /** A one-character pattern occurs exactly where that character is. */
  lemma OccursAtChar(s: string, c: char, i: nat)
    ensures OccursAt(s, [c], i) <==> i < |s| && s[i] == c
  {
    if i < |s| {
      assert s[i..i + 1] == [s[i]];
    }
  }

  /** Python's `pat in s`. */
  predicate Contains(s: string, pat: string) {
    LastIndexOf(s, pat).Some?
  }

  // ---------------------------------------------------------------------
  // Splitting and joining

  /** Python's `sep.join(parts)`. */
  function Join(parts: seq<string>, sep: string): string {
    if parts == [] then []
    else if |parts| == 1 then parts[0]
    else parts[0] + sep + Join(parts[1..], sep)
  }

  /** Python's `s.split(sep)` for a non-empty separator: occurrences are
      taken left to right without overlapping. */
  function Split(s: string, sep: string): (parts: seq<string>)
    requires |sep| > 0
    ensures |parts| >= 1
  {
    SplitFrom(s, sep, 0)
  }

  /** The split of `s[start..]`, each part a slice of `s` itself. */
  function SplitFrom(s: string, sep: string, start: nat): (parts: seq<string>)
    requires |sep| > 0 && start <= |s|
    ensures |parts| >= 1
    decreases |s| - start
  {
    match FirstIndexFrom(s, sep, start)
    case None => [s[start..]]
    case Some(i) => [s[start..i]] + SplitFrom(s, sep, i + |sep|)
  }

  /** Joining the parts of a split back with the separator gives the input. */
  lemma SplitJoin(s: string, sep: string)
    requires |sep| > 0
    ensures Join(Split(s, sep), sep) == s
  {
    SplitFromJoin(s, sep, 0);
    assert s[0..] == s;
  }

  lemma {:induction false} SplitFromJoin(s: string, sep: string, start: nat)
    requires |sep| > 0 && start <= |s|
    ensures Join(SplitFrom(s, sep, start), sep) == s[start..]
    decreases |s| - start
  {
    match FirstIndexFrom(s, sep, start)
    case None =>
    case Some(i) =>
      var next := i + |sep|;
      SplitFromJoin(s, sep, next);
      JoinAtOccurrence(s, sep, start, i, SplitFrom(s, sep, next));
  }

  /** The text before an occurrence, the separator and a join of the text
      after it make up the whole. */
  lemma JoinAtOccurrence(s: string, sep: string, start: nat, i: nat, rest: seq<string>)
    requires start <= i && OccursAt(s, sep, i)
    requires |rest| >= 1 && Join(rest, sep) == s[i + |sep|..]
    ensures Join([s[start..i]] + rest, sep) == s[start..]
  {
    JoinCons(s[start..i], rest, sep);
    ConcatAtOccurrence(s, sep, start, i, Join(rest, sep));
  }

  lemma ConcatAtOccurrence(s: string, sep: string, start: nat, i: nat, after: string)
    requires start <= i && OccursAt(s, sep, i) && after == s[i + |sep|..]
    ensures s[start..i] + sep + after == s[start..]
  {
    assert s[start..] == s[start..i] + s[i..i + |sep|] + s[i + |sep|..];
  }

  /** Joining a part in front of one or more parts. */
  lemma JoinCons(head: string, rest: seq<string>, sep: string)
    requires |rest| >= 1
    ensures Join([head] + rest, sep) == head + sep + Join(rest, sep)
  {
    assert ([head] + rest)[1..] == rest;
  }

  /** `sep` occurs nowhere in `t`. */
  ghost predicate LacksSep(t: string, sep: string) {
    forall i: nat :: !OccursAt(t, sep, i)
  }

  /** No part of a split holds the separator. */
  lemma SplitPartsLackSeparator(s: string, sep: string)
    requires |sep| > 0
    ensures forall j :: 0 <= j < |Split(s, sep)| ==> LacksSep(Split(s, sep)[j], sep)
  {
    SplitFromPartsLack(s, sep, 0);
  }

  lemma {:induction false} SplitFromPartsLack(s: string, sep: string, start: nat)
    requires |sep| > 0 && start <= |s|
    ensures forall j :: 0 <= j < |SplitFrom(s, sep, start)| ==> LacksSep(SplitFrom(s, sep, start)[j], sep)
    decreases |s| - start
  {
    match FirstIndexFrom(s, sep, start)
    case None =>
      InfixLacksSep(s, sep, start, |s|);
      assert s[start..] == s[start..|s|];
    case Some(k) =>
      InfixLacksSep(s, sep, start, k);
      var next := k + |sep|;
      SplitFromPartsLack(s, sep, next);
      PartsLackCons(s[start..k], SplitFrom(s, sep, next), sep);
  }

  /** A slice that starts no occurrence of the separator holds none. */
  lemma InfixLacksSep(s: string, sep: string, lo: nat, hi: nat)
    requires lo <= hi <= |s|
    requires forall i: nat :: lo <= i && i + |sep| <= hi ==> !OccursAt(s, sep, i)
    ensures LacksSep(s[lo..hi], sep)
  {
    var e := s[lo..hi];
    forall i: nat
      ensures !OccursAt(e, sep, i)
    {
      if OccursAt(e, sep, i) {
        OccursInInfix(s, e, lo, sep, i);
      }
    }
  }

  lemma PartsLackCons(head: string, rest: seq<string>, sep: string)
    requires LacksSep(head, sep)
    requires forall j :: 0 <= j < |rest| ==> LacksSep(rest[j], sep)
    ensures forall j :: 0 <= j < |[head] + rest| ==> LacksSep(([head] + rest)[j], sep)
  {
    assert forall j :: 0 < j < |[head] + rest| ==> ([head] + rest)[j] == rest[j - 1];
  }

  /** `parts` ends with the suffix `s[k..]`, in which no separator starts;
      that suffix is all of `s[start..]` when there is one part, and follows
      an occurrence of the separator otherwise. */
  ghost predicate EndsWithPartAt(s: string, sep: string, start: nat, parts: seq<string>, k: nat) {
    && start <= k <= |s| && |parts| >= 1 && parts[|parts| - 1] == s[k..]
    && FirstIndexFrom(s, sep, k).None?
    && (|parts| == 1 ==> k == start)
    && (|parts| >= 2 ==> start + |sep| <= k && OccursAt(s, sep, k - |sep|))
  }

  /** Where the last part of a split starts. */
  lemma {:induction false} SplitFromLast(s: string, sep: string, start: nat) returns (k: nat)
    requires |sep| > 0 && start <= |s|
    ensures EndsWithPartAt(s, sep, start, SplitFrom(s, sep, start), k)
    decreases |s| - start
  {
    match FirstIndexFrom(s, sep, start)
    case None =>
      k := start;
    case Some(i) =>
      var next := i + |sep|;
      k := SplitFromLast(s, sep, next);
      EndsWithPartCons(s, sep, start, i, SplitFrom(s, sep, next), k);
  }

  lemma EndsWithPartCons(s: string, sep: string, start: nat, i: nat, rest: seq<string>, k: nat)
    requires start <= i && OccursAt(s, sep, i)
    requires EndsWithPartAt(s, sep, i + |sep|, rest, k)
    ensures EndsWithPartAt(s, sep, start, [s[start..i]] + rest, k)
  {
    LastOfCons(s[start..i], rest);
  }

  lemma LastOfCons(x: string, rest: seq<string>)
    requires |rest| >= 1
    ensures |[x] + rest| == |rest| + 1 && ([x] + rest)[|rest|] == rest[|rest| - 1]
  {
  }

  /** Joining a leading run of the parts gives a prefix of the whole join,
      and a strictly shorter one when parts are left out. */
  lemma {:induction false} JoinPrefix(parts: seq<string>, sep: string, m: nat)
    requires |sep| > 0 && 1 <= m <= |parts|
    ensures var whole := Join(parts, sep);
            var front := Join(parts[..m], sep);
            |front| <= |whole| && front == whole[..|front|] && (m < |parts| <==> |front| < |whole|)
  {
    if m == 1 {
      assert parts[..m] == [parts[0]];
      if |parts| > 1 {
        assert Join(parts, sep) == parts[0] + sep + Join(parts[1..], sep);
      }
    } else {
      JoinPrefix(parts[1..], sep, m - 1);
      assert parts[..m][1..] == parts[1..][..m - 1];
      assert Join(parts[..m], sep) == parts[0] + sep + Join(parts[1..][..m - 1], sep);
    }
  }

  // ---------------------------------------------------------------------
  // Stripping

  /** The characters a strip removes from both ends: `s.strip()` removes
      whitespace, `s.strip("[]")` removes square brackets. */
  datatype StripSet = Whitespace | Brackets

  predicate Drops(drop: StripSet, c: char) {
    match drop
    case Whitespace => IsSpace(c)
    case Brackets => c == '[' || c == ']'
  }

  /** Number of leading characters that `drop` removes. */
  function LeadingCount(s: string, drop: StripSet): (n: nat)
    ensures n <= |s|
  {
    if s == [] || !Drops(drop, s[0]) then 0
    else 1 + LeadingCount(s[1..], drop)
  }

  /** The leading run is all dropped and is followed by a kept character. */
  lemma {:induction false} LeadingCountShape(s: string, drop: StripSet)
    ensures var n := LeadingCount(s, drop);
            (forall i :: 0 <= i < n ==> Drops(drop, s[i])) && (n < |s| ==> !Drops(drop, s[n]))
  {
    if s != [] && Drops(drop, s[0]) {
      LeadingCountShape(s[1..], drop);
    }
  }

  /** Number of trailing characters that `drop` removes. */
  function TrailingCount(s: string, drop: StripSet): (n: nat)
    ensures n <= |s|
  {
    if s == [] || !Drops(drop, s[|s| - 1]) then 0
    else 1 + TrailingCount(s[..|s| - 1], drop)
  }

  /** The trailing run is all dropped and is preceded by a kept character. */
  lemma {:induction false} TrailingCountShape(s: string, drop: StripSet)
    ensures var n := TrailingCount(s, drop);
            (forall i :: |s| - n <= i < |s| ==> Drops(drop, s[i])) && (n < |s| ==> !Drops(drop, s[|s| - 1 - n]))
  {
    if s != [] && Drops(drop, s[|s| - 1]) {
      TrailingCountShape(s[..|s| - 1], drop);
    }
  }

  /** Python's `s.strip(chars)`, with the character set given by `drop`. */
  function StripBy(s: string, drop: StripSet): string {
    var rest := s[LeadingCount(s, drop)..];
    rest[..|rest| - TrailingCount(rest, drop)]
  }

  /** What `StripBy` leaves: the infix of `s` that remains after removing
      every dropped character from both ends, and nothing more. */
  lemma StripByShape(s: string, drop: StripSet)
    ensures var r := StripBy(s, drop);
            var lo := LeadingCount(s, drop);
            && lo + |r| <= |s|
            && r == s[lo..lo + |r|]
            && (forall i :: 0 <= i < lo ==> Drops(drop, s[i]))
            && (forall i :: lo + |r| <= i < |s| ==> Drops(drop, s[i]))
            && (|r| > 0 ==> !Drops(drop, r[0]) && !Drops(drop, r[|r| - 1]))
  {
    LeadingCountShape(s, drop);
    StripByBack(s, drop);
    StripByEnds(s, drop);
  }

  /** Everything after the result was dropped. */
  lemma StripByBack(s: string, drop: StripSet)
    ensures var r := StripBy(s, drop);
            var lo := LeadingCount(s, drop);
            && lo + |r| <= |s|
            && r == s[lo..lo + |r|]
            && (forall i :: lo + |r| <= i < |s| ==> Drops(drop, s[i]))
  {
    TrailOfSuffix(s, drop, LeadingCount(s, drop), StripBy(s, drop));
  }

  /** What stripping the back of `s[lo..]` keeps is an infix of `s`
      followed only by dropped characters. */
  lemma TrailOfSuffix(s: string, drop: StripSet, lo: nat, r: string)
    requires lo <= |s| && r == s[lo..][..|s| - lo - TrailingCount(s[lo..], drop)]
    ensures lo + |r| <= |s| && r == s[lo..lo + |r|]
    ensures forall i :: lo + |r| <= i < |s| ==> Drops(drop, s[i])
  {
    var rest := s[lo..];
    TrailingCountShape(rest, drop);
    BackOfInfix(s, drop, lo, |rest| - TrailingCount(rest, drop));
  }

  /** The front `m` characters of `s[lo..]`, when the rest of it is dropped,
      are an infix of `s` followed only by dropped characters. */
  lemma BackOfInfix(s: string, drop: StripSet, lo: nat, m: nat)
    requires lo <= |s| && m <= |s| - lo
    requires forall i :: m <= i < |s| - lo ==> Drops(drop, s[lo..][i])
    ensures s[lo..][..m] == s[lo..lo + m]
    ensures forall i :: lo + m <= i < |s| ==> Drops(drop, s[i])
  {
    SliceOfSuffix(s, lo, m);
    DroppedAfter(s, lo, m, drop);
  }

  /** A prefix of a suffix is an infix. */
  lemma SliceOfSuffix(s: string, lo: nat, m: nat)
    requires lo <= |s| && m <= |s| - lo
    ensures s[lo..][..m] == s[lo..lo + m]
  {
  }

  /** Dropped characters at the back of a suffix are dropped characters at
      the back of the whole text. */
  lemma DroppedAfter(s: string, lo: nat, m: nat, drop: StripSet)
    requires lo <= |s| && m <= |s| - lo
    requires forall i :: m <= i < |s| - lo ==> Drops(drop, s[lo..][i])
    ensures forall i :: lo + m <= i < |s| ==> Drops(drop, s[i])
  {
    forall i | lo + m <= i < |s|
      ensures Drops(drop, s[i])
    {
      assert s[i] == s[lo..][i - lo];
    }
  }

  /** The result begins and ends with kept characters. */
  lemma StripByEnds(s: string, drop: StripSet)
    ensures var r := StripBy(s, drop);
            |r| > 0 ==> !Drops(drop, r[0]) && !Drops(drop, r[|r| - 1])
  {
    var lo := LeadingCount(s, drop);
    var rest := s[lo..];
    var n := TrailingCount(rest, drop);
    var r := rest[..|rest| - n];
    LeadingCountShape(s, drop);
    TrailingCountShape(rest, drop);
    if |r| > 0 {
      assert r[0] == s[lo];
      assert r[|r| - 1] == rest[|rest| - 1 - n];
    }
  }

  /** `s` is the run dropped in front, the result, and the run dropped behind. */
  lemma StripByPieces(s: string, drop: StripSet)
    ensures var r := StripBy(s, drop);
            var lo := LeadingCount(s, drop);
            && lo + |r| <= |s|
            && s == s[..lo] + r + s[lo + |r|..]
  {
    StripByBack(s, drop);
    var lo := LeadingCount(s, drop);
    SliceThree(s, lo, lo + |StripBy(s, drop)|);
  }

  lemma SliceThree(s: string, i: nat, j: nat)
    requires i <= j <= |s|
    ensures s == s[..i] + s[i..j] + s[j..]
  {
  }

  /** Stripping twice is stripping once. */
  lemma StripByIdempotent(s: string, drop: StripSet)
    ensures StripBy(StripBy(s, drop), drop) == StripBy(s, drop)
  {
    var r := StripBy(s, drop);
    StripByShape(s, drop);
    if r != [] {
      assert LeadingCount(r, drop) == 0;
      assert TrailingCount(r, drop) == 0;
    }
  }

  /** Printable ASCII characters other than the space are not whitespace. */
  lemma PrintableNotSpace(c: char)
    requires '!' <= c <= '~'
    ensures !IsSpace(c)
  {
  }

  /** A text that starts and ends with a printable character other than the
      space is left alone by `strip()`. */
  lemma StripKeepsPrintableEnds(s: string)
    requires |s| > 0 && '!' <= s[0] <= '~' && '!' <= s[|s| - 1] <= '~'
    ensures Strip(s) == s
  {
    PrintableNotSpace(s[0]);
    PrintableNotSpace(s[|s| - 1]);
    StripByKeeps(s, Whitespace);
  }

  lemma StripByKeeps(s: string, drop: StripSet)
    requires |s| > 0 ==> !Drops(drop, s[0]) && !Drops(drop, s[|s| - 1])
    ensures StripBy(s, drop) == s
  {
    if |s| > 0 {
      assert LeadingCount(s, drop) == 0;
      assert TrailingCount(s, drop) == 0;
    }
  }

  /** Python's `s.strip()`. */
  function Strip(s: string): string {
    StripBy(s, Whitespace)
  }

  /** Python's `s.lstrip()`. */
  function StripStart(s: string): (r: string)
    ensures |r| <= |s| && r == s[|s| - |r|..]
    ensures r != [] ==> !IsSpace(r[0])
  {
    LeadingCountShape(s, Whitespace);
    s[LeadingCount(s, Whitespace)..]
  }

  /** Python's `s.lower()` on ASCII letters. */
  function LowerAscii(s: string): (r: string)
    ensures |r| == |s|
  {
    seq(|s|, i requires 0 <= i < |s| =>
      if 'A' <= s[i] <= 'Z' then (s[i] as int - 'A' as int + 'a' as int) as char else s[i])
  }
}
