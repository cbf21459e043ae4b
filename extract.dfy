/** utils/extract.py: recovering the final answer from generated text. */
module Extract {
  import opened Wrappers
  import opened Text

  /** The literal `\boxed{` that opens an answer group. */
  const Marker: string := "\\boxed{"

  /** Net number of groups a piece of text opens: `{` count minus `}` count. */
  function Depth(q: string): int {
    Count('{', q) - Count('}', q)
  }

  lemma DepthConcat(a: string, b: string)
    ensures Depth(a + b) == Depth(a) + Depth(b)
  {
    CountConcat('{', a, b);
    CountConcat('}', a, b);
  }

  /** The characters the scan of `extract_last_boxed_text` collects from
      `rest` when `depth` groups are open: everything up to the `}` that
      closes the outermost group, or all of `rest` when that never comes. */
  function ScanBody(rest: string, depth: nat): (body: string)
    requires depth >= 1
    decreases |rest|
  {
    if rest == [] then []
    else if rest[0] == '}' && depth == 1 then []
    else [rest[0]] + ScanBody(rest[1..], NextDepth(rest[0], depth))
  }

  /** The brace depth after reading `ch` at `depth`. */
  function NextDepth(ch: char, depth: nat): nat
    requires depth >= 1
  {
    if ch == '{' then depth + 1 else if ch == '}' then depth - 1 else depth
  }

  /** Every prefix of `q` leaves at least one group open, starting from `depth`. */
  ghost predicate PrefixBalanced(q: string, depth: nat) {
    forall k :: 0 <= k <= |q| ==> depth + Depth(q[..k]) >= 1
  }

  /** `rest` continues after `body` with the `}` that brings the depth to 0. */
  ghost predicate ClosedAfter(rest: string, body: string, depth: nat) {
    |body| < |rest| && rest[|body|] == '}' && depth + Depth(body) == 1
  }

  /** Declarative description of the collected text: a prefix of `rest` that
      never closes the outermost group and either stops right before the `}`
      that closes it or runs to the end of the input. */
  ghost predicate IsGroupBody(rest: string, body: string, depth: nat) {
    |body| <= |rest| && body == rest[..|body|]
    && PrefixBalanced(body, depth)
    && (ClosedAfter(rest, body, depth) || body == rest)
  }

  /** The scan collects exactly a group body. */
  lemma {:induction false} ScanBodyIsGroupBody(rest: string, depth: nat)
    requires depth >= 1
    ensures IsGroupBody(rest, ScanBody(rest, depth), depth)
    decreases |rest|
  {
    if rest == [] || (rest[0] == '}' && depth == 1) {
      assert ScanBody(rest, depth) == [];
      assert ScanBody(rest, depth)[..0] == [];
    } else {
      var next := NextDepth(rest[0], depth);
      ScanBodyIsGroupBody(rest[1..], next);
      GroupBodyCons(rest, depth, ScanBody(rest[1..], next));
    }
  }

  /** A group body of the rest, behind a character that does not close the
      outermost group, extends to a group body of the whole. */
  lemma GroupBodyCons(rest: string, depth: nat, tail: string)
    requires depth >= 1 && rest != [] && !(rest[0] == '}' && depth == 1)
    requires IsGroupBody(rest[1..], tail, NextDepth(rest[0], depth))
    ensures IsGroupBody(rest, [rest[0]] + tail, depth)
  {
    var x := rest[0];
    var body := [x] + tail;
    PrefixBalancedCons(x, tail, depth);
    assert body == rest[..|body|] by {
      assert rest == [x] + rest[1..];
    }
    if ClosedAfter(rest[1..], tail, NextDepth(x, depth)) {
      DepthConcat([x], tail);
      assert rest[|body|] == rest[1..][|tail|];
    }
  }

  /** Prefix balance extends backwards over a character that does not close
      the outermost group. */
  lemma PrefixBalancedCons(x: char, tail: string, depth: nat)
    requires depth >= 1 && !(x == '}' && depth == 1)
    requires PrefixBalanced(tail, NextDepth(x, depth))
    ensures PrefixBalanced([x] + tail, depth)
  {
    var body := [x] + tail;
    assert depth + Depth([x]) == NextDepth(x, depth);
    forall k | 0 <= k <= |body|
      ensures depth + Depth(body[..k]) >= 1
    {
      if k > 0 {
        assert body[..k] == [x] + tail[..k - 1];
        DepthConcat([x], tail[..k - 1]);
      } else {
        assert body[..k] == [];
      }
    }
  }

  /** There is only one group body: the description pins the collected text down. */
  lemma GroupBodyUnique(rest: string, b1: string, b2: string, depth: nat)
    requires IsGroupBody(rest, b1, depth) && IsGroupBody(rest, b2, depth)
    ensures b1 == b2
  {
    GroupBodyNotLonger(rest, b1, b2, depth);
    GroupBodyNotLonger(rest, b2, b1, depth);
  }

  /** Two prefixes of `rest`: the longer one continues the shorter with the
      character that follows it in `rest`. */
  lemma PrefixContinues(rest: string, short: string, long: string)
    ensures |short| < |long| <= |rest| && short == rest[..|short|] && long == rest[..|long|]
            ==> long[..|short| + 1] == short + [rest[|short|]]
  {
  }

  /** A group body cannot run past the `}` that closes another one. */
  lemma GroupBodyNotLonger(rest: string, b: string, other: string, depth: nat)
    requires IsGroupBody(rest, b, depth) && IsGroupBody(rest, other, depth)
    ensures |other| <= |b|
  {
    if |b| < |other| {
      DepthConcat(b, ['}']);
      PrefixContinues(rest, b, other);
    }
  }

  /** One step of the scan loop: reading `s[i]` either closes the group, so
      everything collected so far is the body, or appends `s[i]`. */
  lemma ScanAdvance(s: string, from: nat, i: nat, depth: nat, out: string)
    requires from <= i < |s| && depth >= 1
    requires ScanBody(s[from..], 1) == out + ScanBody(s[i..], depth)
    ensures s[i] == '}' && depth == 1 ==> ScanBody(s[from..], 1) == out
    ensures !(s[i] == '}' && depth == 1) ==>
              ScanBody(s[from..], 1) == (out + [s[i]]) + ScanBody(s[i + 1..], NextDepth(s[i], depth))
  {
    assert s[i..][1..] == s[i + 1..];
    if !(s[i] == '}' && depth == 1) {
      assert out + ([s[i]] + ScanBody(s[i + 1..], NextDepth(s[i], depth)))
          == (out + [s[i]]) + ScanBody(s[i + 1..], NextDepth(s[i], depth));
    }
  }

  /** The text `extract_last_boxed_text(raw)` returns (`None` is Python's None). */
  function LastBoxedText(raw: Option<string>): string {
    match raw
    case None => ""
    case Some(s) =>
      match LastIndexOf(s, Marker)
      case None => ""
      case Some(start) => Strip(ScanBody(s[start + |Marker|..], 1))
  }

  /** extract_last_boxed_text: locate the last `\boxed{`, then collect the
      group that follows it. */
  method ExtractLastBoxedText(raw: Option<string>) returns (text: string)
    ensures text == LastBoxedText(raw)
    ensures raw.None? || LastIndexOf(raw.value, Marker).None? ==> text == ""
  {
    if raw.None? {
      return "";
    }
    var s := raw.value;
    var found := LastIndexOf(s, Marker);
    if found.None? {
      return "";
    }
    LastBoxedTextAt(s, found.value);
    var body := ScanGroup(s, found.value + |Marker|);
    text := Strip(body);
  }

  /** The brace-tracking loop of extract_last_boxed_text: starting at depth 1
      just after the marker, collect characters until the closing brace that
      brings the depth to 0, or until the input ends. */
  method ScanGroup(s: string, from: nat) returns (out: string)
    requires from <= |s|
    ensures out == ScanBody(s[from..], 1)
  {
    var i := from;
    var depth := 1;
    out := [];
    while i < |s| && depth != 0
      invariant from <= i <= |s|
      invariant depth >= 1
      invariant ScanBody(s[from..], 1) == out + ScanBody(s[i..], depth)
      decreases |s| - i
    {
      var ch := s[i];
      ScanAdvance(s, from, i, depth, out);
      if ch == '{' {
        depth := depth + 1;
      } else if ch == '}' {
        depth := depth - 1;
        if depth == 0 {
          break;
        }
      }
      out := out + [ch];
      i := i + 1;
    }
  }

  // ---------------------------------------------------------------------
  // Properties of the extraction

  /** Only the text from the last `\boxed{` on matters: whatever precedes a
      suffix that holds a marker is ignored. */
  lemma LaterGroupWins(pre: string, t: string)
    requires Contains(t, Marker)
    ensures LastBoxedText(Some(pre + t)) == LastBoxedText(Some(t))
  {
    var j := LastIndexOf(t, Marker).value;
    var rest := t[j + |Marker|..];
    LastBoxedTextFrom(t, j, rest);
    LastIndexAfterPrefix(pre, t, Marker);
    SuffixAfterPrefix(pre, t, |pre| + j + |Marker|);
    LastBoxedTextFrom(pre + t, |pre| + j, rest);
  }

  /** `LastBoxedTextAt` with the text after the marker given. */
  lemma LastBoxedTextFrom(s: string, start: nat, rest: string)
    requires LastIndexOf(s, Marker) == Some(start)
    requires start + |Marker| <= |s| && rest == s[start + |Marker|..]
    ensures LastBoxedText(Some(s)) == Strip(ScanBody(rest, 1))
  {
    LastBoxedTextAt(s, start);
  }

  /** The extraction once the last marker is known to start at `start`. */
  lemma LastBoxedTextAt(s: string, start: nat)
    requires LastIndexOf(s, Marker) == Some(start)
    ensures start + |Marker| <= |s|
    ensures LastBoxedText(Some(s)) == Strip(ScanBody(s[start + |Marker|..], 1))
  {
  }

  /** The extracted text never contains `\boxed{`: any marker inside it would
      be a later marker in the input. */
  lemma ResultHasNoMarker(raw: Option<string>)
    ensures forall i: nat :: !OccursAt(LastBoxedText(raw), Marker, i)
  {
    if raw.Some? && LastIndexOf(raw.value, Marker).Some? {
      var s := raw.value;
      var start := LastIndexOf(s, Marker).value;
      var e := LastBoxedText(raw);
      var p := BoxedTextPosition(s, start);
      forall i: nat
        ensures !OccursAt(e, Marker, i)
      {
        if OccursAt(e, Marker, i) {
          OccursInInfix(s, e, p, Marker, i);
        }
      }
    }
  }

  /** Where the extracted text sits in the input: after the last marker and
      the whitespace the strip removed. */
  lemma BoxedTextPosition(s: string, start: nat) returns (p: nat)
    requires LastIndexOf(s, Marker) == Some(start)
    ensures start < p && p + |LastBoxedText(Some(s))| <= |s|
    ensures LastBoxedText(Some(s)) == s[p..p + |LastBoxedText(Some(s))|]
  {
    LastBoxedTextAt(s, start);
    var q := start + |Marker|;
    var body := ScanBody(s[q..], 1);
    ScanBodyInInput(s, q);
    var lo := StripIsInfix(body);
    p := q + lo;
    InfixOfInfix(s, body, q, Strip(body), lo);
  }

  /** The collected text is the stretch of the input right after the marker. */
  lemma ScanBodyInInput(s: string, q: nat)
    requires q <= |s|
    ensures q + |ScanBody(s[q..], 1)| <= |s|
    ensures ScanBody(s[q..], 1) == s[q..q + |ScanBody(s[q..], 1)|]
  {
    ScanBodyIsGroupBody(s[q..], 1);
  }

  /** `Strip` returns an infix of its input. */
  lemma StripIsInfix(t: string) returns (lo: nat)
    ensures lo + |Strip(t)| <= |t| && Strip(t) == t[lo..lo + |Strip(t)|]
  {
    StripByShape(t, Whitespace);
    lo := LeadingCount(t, Whitespace);
  }

  /** An infix of an infix of `s` is an infix of `s`. */
  lemma InfixOfInfix(s: string, b: string, q: nat, e: string, lo: nat)
    requires q + |b| <= |s| && b == s[q..q + |b|]
    requires lo + |e| <= |b| && e == b[lo..lo + |e|]
    ensures q + lo + |e| <= |s| && e == s[q + lo..q + lo + |e|]
  {
    assert forall k :: 0 <= k < |e| ==> e[k] == b[lo + k] == s[q + lo + k];
  }

  /** No character of the marker after the first is a backslash, so a marker
      cannot start inside another one. */
  lemma MarkerHasOneBackslash()
    ensures forall i :: 1 <= i < |Marker| ==> Marker[i] != '\\'
  {
  }

  /** A marker put in front of text holding none is the last marker. */
  lemma WrappedMarkerFound(t: string)
    requires forall i: nat :: !OccursAt(t, Marker, i)
    ensures LastIndexOf(Marker + t, Marker) == Some(0)
  {
    var w := Marker + t;
    MarkerHasOneBackslash();
    forall i: nat | 0 < i
      ensures !OccursAt(w, Marker, i)
    {
      if i + |Marker| <= |w| {
        if i < |Marker| {
          assert w[i..i + |Marker|][0] == Marker[i];
        } else {
          assert w[i..i + |Marker|] == t[i - |Marker|..i];
          assert !OccursAt(t, Marker, i - |Marker|);
        }
      }
    }
    assert w[..|Marker|] == Marker;
    LastIndexOfIs(w, Marker, 0);
  }

  /** Appending the closing `}` creates no marker, since the marker ends in `{`. */
  lemma NoMarkerAfterClose(e: string)
    requires forall i: nat :: !OccursAt(e, Marker, i)
    ensures forall i: nat :: !OccursAt(e + "}", Marker, i)
  {
    var t := e + "}";
    forall i: nat | i + |Marker| <= |t|
      ensures !OccursAt(t, Marker, i)
    {
      if i + |Marker| == |t| {
        assert t[i..i + |Marker|][|Marker| - 1] == '}';
      } else {
        assert t[i..i + |Marker|] == e[i..i + |Marker|];
        assert !OccursAt(e, Marker, i);
      }
    }
  }

  /** A balanced body followed by `}` is scanned back exactly. */
  lemma ScanBalancedBody(e: string)
    requires PrefixBalanced(e, 1) && Depth(e) == 0
    ensures ScanBody(e + "}", 1) == e
  {
    var rest := e + "}";
    assert rest[..|e|] == e;
    assert IsGroupBody(rest, e, 1);
    ScanBodyIsGroupBody(rest, 1);
    GroupBodyUnique(rest, e, ScanBody(rest, 1), 1);
  }

  /** The last group's closing brace was found before the input ended. */
  predicate GroupClosed(s: string) {
    match LastIndexOf(s, Marker)
    case None => false
    case Some(start) => |ScanBody(s[start + |Marker|..], 1)| < |s| - (start + |Marker|)
  }

  /** Whitespace holds no braces. */
  lemma {:induction false} SpacesHaveDepthZero(w: string)
    requires forall i :: 0 <= i < |w| ==> IsSpace(w[i])
    ensures Count('{', w) == 0 && Count('}', w) == 0
  {
    CountAbsent('{', w);
    CountAbsent('}', w);
  }

  /** Stripping whitespace keeps a closed body balanced: only the surrounding
      whitespace goes, and it holds no braces. */
  lemma StripKeepsBalance(body: string)
    requires PrefixBalanced(body, 1) && Depth(body) == 0
    ensures PrefixBalanced(Strip(body), 1) && Depth(Strip(body)) == 0
  {
    var e := Strip(body);
    var lo := LeadingCount(body, Whitespace);
    var lead := body[..lo];
    var trail := body[lo + |e|..];
    StripLeavesSpaces(body, lead, e, trail);
    DepthConcat(lead + e, trail);
    DepthConcat(lead, e);
    assert body[..|lead| + |e|] == lead + e;
    BalancedAfterSpaces(body, lead, e);
  }

  /** Dropping a brace-free prefix keeps every prefix of what follows balanced. */
  lemma BalancedAfterSpaces(body: string, lead: string, e: string)
    requires PrefixBalanced(body, 1) && Depth(lead) == 0
    requires |lead| + |e| <= |body| && body[..|lead| + |e|] == lead + e
    ensures PrefixBalanced(e, 1)
  {
    forall k | 0 <= k <= |e|
      ensures 1 + Depth(e[..k]) >= 1
    {
      assert body[..|lead| + k] == lead + e[..k];
      DepthConcat(lead, e[..k]);
    }
  }

  /** `Strip` cuts its input into leading whitespace, the result and trailing
      whitespace; neither piece of whitespace holds a brace. */
  lemma StripLeavesSpaces(body: string, lead: string, e: string, trail: string)
    requires e == Strip(body)
    requires lead == body[..LeadingCount(body, Whitespace)]
    requires trail == body[LeadingCount(body, Whitespace) + |e|..]
    ensures body == lead + e + trail
    ensures Depth(lead) == 0 && Depth(trail) == 0
  {
    assert body == lead + e + trail by {
      StripByPieces(body, Whitespace);
    }
    assert forall i :: 0 <= i < |lead| ==> IsSpace(lead[i]) by {
      StripByShape(body, Whitespace);
    }
    assert forall i :: 0 <= i < |trail| ==> IsSpace(trail[i]) by {
      StripTrailIsSpace(body, e, trail);
    }
    SpacesHaveDepthZero(lead);
    SpacesHaveDepthZero(trail);
  }

  /** What `strip()` removes at the back is whitespace. */
  lemma StripTrailIsSpace(body: string, e: string, trail: string)
    requires e == Strip(body)
    requires trail == body[LeadingCount(body, Whitespace) + |e|..]
    ensures forall i :: 0 <= i < |trail| ==> IsSpace(trail[i])
  {
    var lo := LeadingCount(body, Whitespace);
    StripByBack(body, Whitespace);
    forall i | 0 <= i < |trail|
      ensures IsSpace(trail[i])
    {
      assert trail[i] == body[lo + |e| + i];
      assert Drops(Whitespace, body[lo + |e| + i]);
    }
  }

  /** Re-extraction: wrapping the extracted answer in a fresh `\boxed{...}`
      and extracting again gives it back, when the group was closed. */
  lemma {:induction false} ReextractClosedGroup(s: string)
    requires GroupClosed(s)
    ensures LastBoxedText(Some(Marker + LastBoxedText(Some(s)) + "}")) == LastBoxedText(Some(s))
  {
    var start := LastIndexOf(s, Marker).value;
    var rest := s[start + |Marker|..];
    var body := ScanBody(rest, 1);
    ScanBodyIsGroupBody(rest, 1);
    var e := Strip(body);
    assert e == LastBoxedText(Some(s));
    StripKeepsBalance(body);
    ScanBalancedBody(e);
    ResultHasNoMarker(Some(s));
    NoMarkerAfterClose(e);
    WrappedMarkerFound(e + "}");
    var w := Marker + e + "}";
    assert w == Marker + (e + "}");
    assert w[|Marker|..] == e + "}";
    StripByIdempotent(body, Whitespace);
  }

  // ---------------------------------------------------------------------
  // Examples

  /** Extraction from a single group written as `\boxed{` followed by `t`. */
  lemma BoxedWrapped(t: string)
    requires forall i: nat :: !OccursAt(t, Marker, i)
    ensures LastIndexOf(Marker + t, Marker) == Some(0)
    ensures LastBoxedText(Some(Marker + t)) == Strip(ScanBody(t, 1))
  {
    WrappedMarkerFound(t);
    LastBoxedTextAt(Marker + t, 0);
    assert (Marker + t)[|Marker|..] == t;
  }

  /** A text shorter than the marker cannot hold it. */
  lemma ShortLacksMarker(t: string)
    requires |t| < |Marker|
    ensures forall i: nat :: !OccursAt(t, Marker, i)
  {
  }

  lemma ScanNested()
    ensures ScanBody("a{b}c}", 1) == "a{b}c"
  {
  }

  lemma ScanReclosed()
    ensures ScanBody("a{b}", 1) == "a{b}"
  {
  }

  /** `\boxed{a{b}c}` gives `a{b}c`: the inner `}` does not end the group. */
  lemma NestedBracesKept(s: string)
    requires s == "\\boxed{a{b}c}"
    ensures LastBoxedText(Some(s)) == "a{b}c"
  {
    var t := "a{b}c}";
    assert s == Marker + t;
    assert LastBoxedText(Some(s)) == Strip(ScanBody(t, 1)) by {
      ShortLacksMarker(t);
      BoxedWrapped(t);
    }
    assert ScanBody(t, 1) == "a{b}c" by {
      ScanNested();
    }
    assert Strip("a{b}c") == "a{b}c" by {
      StripKeepsPrintableEnds("a{b}c");
    }
  }

  /** `\boxed{a{b` gives `a{b`: an unclosed group yields what was collected,
      not the empty string. */
  lemma UnclosedGroupKept(s: string)
    requires s == "\\boxed{a{b"
    ensures LastBoxedText(Some(s)) == "a{b"
    ensures !GroupClosed(s)
  {
    var t := "a{b";
    assert s == Marker + t;
    assert LastIndexOf(s, Marker) == Some(0) && s[|Marker|..] == t by {
      ShortLacksMarker(t);
      WrappedMarkerFound(t);
    }
    assert LastBoxedText(Some(s)) == Strip(ScanBody(t, 1)) by {
      ShortLacksMarker(t);
      BoxedWrapped(t);
    }
    assert ScanBody(t, 1) == "a{b" by {
      ScanUnclosed();
    }
    assert Strip("a{b") == "a{b" by {
      StripKeepsPrintableEnds("a{b");
    }
  }

  lemma ScanUnclosed()
    ensures ScanBody("a{b", 1) == "a{b"
  {
  }

  /** Without the closing brace re-extraction is not the identity:
      `a{b` comes back as `a{b}`. */
  lemma ReextractUnclosedGroup(e: string)
    requires e == "a{b"
    ensures LastBoxedText(Some(Marker + e + "}")) == "a{b}"
  {
    var t := "a{b}";
    assert Marker + e + "}" == Marker + t;
    assert LastBoxedText(Some(Marker + t)) == Strip(ScanBody(t, 1)) by {
      ShortLacksMarker(t);
      BoxedWrapped(t);
    }
    assert ScanBody(t, 1) == "a{b}" by {
      ScanReclosed();
    }
    assert Strip("a{b}") == "a{b}" by {
      StripKeepsPrintableEnds("a{b}");
    }
  }

  /** `\boxed{1} ... \boxed{2}` gives `2`. */
  lemma LastOfTwoGroups(s: string)
    requires s == "\\boxed{1} then \\boxed{2}"
    ensures LastBoxedText(Some(s)) == "2"
  {
    var pre := "\\boxed{1} then ";
    var t := "2}";
    var w := Marker + t;
    assert s == pre + w;
    assert LastBoxedText(Some(s)) == LastBoxedText(Some(w)) by {
      ShortLacksMarker(t);
      WrappedMarkerFound(t);
      LaterGroupWins(pre, w);
    }
    assert LastBoxedText(Some(w)) == Strip(ScanBody(t, 1)) by {
      ShortLacksMarker(t);
      BoxedWrapped(t);
    }
    assert ScanBody(t, 1) == "2" by {
      ScanClosedDigit();
    }
    assert Strip("2") == "2" by {
      StripKeepsPrintableEnds("2");
    }
  }

  lemma ScanClosedDigit()
    ensures ScanBody("2}", 1) == "2"
  {
  }

  // ---------------------------------------------------------------------
  // extract_condition_list

  predicate IsAsciiLetter(c: char) {
    'a' <= c <= 'z' || 'A' <= c <= 'Z'
  }

  /** `re.sub(r"^[a-zA-Z]\.\s*", "", part)`: removes one leading label such as
      `b.` together with the whitespace after it. */
  function DropLabel(part: string): (r: string)
    ensures |r| <= |part| && r == part[|part| - |r|..]
    ensures |part| >= 2 && IsAsciiLetter(part[0]) && part[1] == '.' <==> |r| < |part|
  {
    if |part| >= 2 && IsAsciiLetter(part[0]) && part[1] == '.' then StripStart(part[2..]) else part
  }

  /** The list comprehension of `extract_condition_list`, over the parts of
      the split: blank parts are skipped, the others lose their label and
      surrounding whitespace. */
  function ConditionItems(parts: seq<string>): (items: seq<string>)
    ensures |items| <= |parts|
  {
    if parts == [] then []
    else
      var rest := ConditionItems(parts[1..]);
      if Strip(parts[0]) != "" then [Strip(DropLabel(parts[0]))] + rest else rest
  }

  /** Number of parts that are not blank after strip. */
  function NonBlankCount(parts: seq<string>): (n: nat)
    ensures n <= |parts|
  {
    if parts == [] then 0
    else (if Strip(parts[0]) != "" then 1 else 0) + NonBlankCount(parts[1..])
  }

  /** The items are the labels-removed, trimmed forms of the non-blank parts:
      each non-blank part yields an item and each item comes from a
      non-blank part. */
  ghost predicate ItemsFromParts(parts: seq<string>, items: seq<string>) {
    && (forall j :: 0 <= j < |parts| && Strip(parts[j]) != "" ==> Strip(DropLabel(parts[j])) in items)
    && (forall x :: x in items ==> exists j :: 0 <= j < |parts| && Strip(parts[j]) != "" && x == Strip(DropLabel(parts[j])))
  }

  /** The comprehension keeps exactly the parts that are not blank after
      strip, one item per such part; so every part yields an item exactly
      when no part is blank. */
  lemma {:induction false} ConditionItemsDropOnlyBlank(parts: seq<string>)
    ensures |ConditionItems(parts)| == NonBlankCount(parts)
    ensures ItemsFromParts(parts, ConditionItems(parts))
    ensures |ConditionItems(parts)| == |parts| <==> forall j :: 0 <= j < |parts| ==> Strip(parts[j]) != ""
  {
    if parts != [] {
      ConditionItemsDropOnlyBlank(parts[1..]);
      ItemsLengthStep(parts);
      NonBlankStep(parts);
      var rest := ConditionItems(parts[1..]);
      var items := ConditionItems(parts);
      var head := Strip(DropLabel(parts[0]));
      if Strip(parts[0]) != "" {
        assert items == [head] + rest;
      }
      ItemsFromPartsStep(parts, rest, items);
    }
  }

  /** One step of `ConditionItemsDropOnlyBlank`, on the item lists as values. */
  lemma ItemsFromPartsStep(parts: seq<string>, rest: seq<string>, items: seq<string>)
    requires parts != [] && ItemsFromParts(parts[1..], rest)
    requires forall y :: y in rest ==> y in items
    requires Strip(parts[0]) != "" ==> Strip(DropLabel(parts[0])) in items
    requires forall y :: y in items ==> y in rest || (Strip(parts[0]) != "" && y == Strip(DropLabel(parts[0])))
    ensures ItemsFromParts(parts, items)
  {
    forall j | 0 < j < |parts| && Strip(parts[j]) != ""
      ensures Strip(DropLabel(parts[j])) in items
    {
      ItemOfLaterPart(parts, rest, items, j);
    }
    forall x | x in items
      ensures exists j :: 0 <= j < |parts| && Strip(parts[j]) != "" && x == Strip(DropLabel(parts[j]))
    {
      if x in rest {
        SourceOfLaterItem(parts, rest, x);
      }
    }
  }

  lemma ItemOfLaterPart(parts: seq<string>, rest: seq<string>, items: seq<string>, j: nat)
    requires 0 < j < |parts| && Strip(parts[j]) != ""
    requires forall i :: 0 <= i < |parts[1..]| && Strip(parts[1..][i]) != "" ==> Strip(DropLabel(parts[1..][i])) in rest
    requires forall y :: y in rest ==> y in items
    ensures Strip(DropLabel(parts[j])) in items
  {
    assert parts[1..][j - 1] == parts[j];
  }

  lemma SourceOfLaterItem(parts: seq<string>, rest: seq<string>, x: string)
    requires parts != [] && x in rest
    requires forall y :: y in rest ==> exists i :: 0 <= i < |parts[1..]| && Strip(parts[1..][i]) != "" && y == Strip(DropLabel(parts[1..][i]))
    ensures exists j :: 0 <= j < |parts| && Strip(parts[j]) != "" && x == Strip(DropLabel(parts[j]))
  {
    var i :| 0 <= i < |parts[1..]| && Strip(parts[1..][i]) != "" && x == Strip(DropLabel(parts[1..][i]));
    assert parts[i + 1] == parts[1..][i];
  }

  lemma ItemsLengthStep(parts: seq<string>)
    requires parts != []
    ensures |ConditionItems(parts)| == |ConditionItems(parts[1..])| + if Strip(parts[0]) != "" then 1 else 0
  {
  }

  lemma NonBlankStep(parts: seq<string>)
    requires parts != []
    ensures (forall j :: 0 <= j < |parts| ==> Strip(parts[j]) != "")
            <==> Strip(parts[0]) != "" && forall j :: 0 <= j < |parts[1..]| ==> Strip(parts[1..][j]) != ""
  {
    assert forall j :: 1 <= j < |parts| ==> parts[1..][j - 1] == parts[j];
  }

  /** extract_condition_list: strip `[` and `]` from both ends, split on `;`,
      drop blank parts, remove a leading `x.` label and trim. */
  function ExtractConditionList(condText: string): seq<string> {
    ConditionItems(Split(StripBy(condText, Brackets), ";"))
  }

  predicate NoSemicolon(t: string) {
    forall k :: 0 <= k < |t| ==> t[k] != ';'
  }

  /** Items made from `;`-free parts hold no `;` and carry no surrounding
      whitespace. */
  lemma {:induction false} ConditionItemsClean(parts: seq<string>)
    requires forall j :: 0 <= j < |parts| ==> NoSemicolon(parts[j])
    ensures CleanItems(ConditionItems(parts))
  {
    if parts != [] {
      ConditionItemsClean(parts[1..]);
      if Strip(parts[0]) != "" {
        CleanItem(parts[0]);
        CleanItemsCons(Strip(DropLabel(parts[0])), ConditionItems(parts[1..]));
      }
    }
  }

  /** Every item is free of `;` and of surrounding whitespace. */
  predicate CleanItems(items: seq<string>) {
    forall j :: 0 <= j < |items| ==> NoSemicolon(items[j]) && Strip(items[j]) == items[j]
  }

  lemma CleanItemsCons(x: string, rest: seq<string>)
    requires NoSemicolon(x) && Strip(x) == x && CleanItems(rest)
    ensures CleanItems([x] + rest)
  {
    assert forall j :: 0 < j <= |rest| ==> ([x] + rest)[j] == rest[j - 1];
  }

  /** One item: an infix of a suffix of its part, trimmed once and for all. */
  lemma CleanItem(part: string)
    requires NoSemicolon(part)
    ensures NoSemicolon(Strip(DropLabel(part))) && Strip(Strip(DropLabel(part))) == Strip(DropLabel(part))
  {
    var d := DropLabel(part);
    NoSemicolonInfix(part, |part| - |d|, d);
    var lo := StripIsInfix(d);
    NoSemicolonInfix(d, lo, Strip(d));
    StripByIdempotent(d, Whitespace);
  }

  lemma NoSemicolonInfix(t: string, lo: nat, e: string)
    requires NoSemicolon(t) && lo + |e| <= |t| && e == t[lo..lo + |e|]
    ensures NoSemicolon(e)
  {
    assert forall k :: 0 <= k < |e| ==> e[k] == t[lo + k];
  }

  /** A part of a split on `;` holds no `;`. */
  lemma SplitPartsNoSemicolon(t: string)
    ensures forall j :: 0 <= j < |Split(t, ";")| ==> NoSemicolon(Split(t, ";")[j])
  {
    SplitPartsLackSeparator(t, ";");
    forall j, k | 0 <= j < |Split(t, ";")| && 0 <= k < |Split(t, ";")[j]|
      ensures Split(t, ";")[j][k] != ';'
    {
      var part := Split(t, ";")[j];
      assert !OccursAt(part, ";", k);
      assert part[k..k + 1] == [part[k]];
    }
  }

  /** Every extracted condition is free of `;` and of surrounding whitespace,
      and there is one per non-blank part of the split. */
  lemma ConditionListClean(condText: string)
    ensures var parts := Split(StripBy(condText, Brackets), ";");
            var items := ExtractConditionList(condText);
            && |items| <= |parts|
            && (|items| == |parts| <==> forall j :: 0 <= j < |parts| ==> Strip(parts[j]) != "")
            && forall j :: 0 <= j < |items| ==> NoSemicolon(items[j]) && Strip(items[j]) == items[j]
  {
    var parts := Split(StripBy(condText, Brackets), ";");
    SplitPartsNoSemicolon(StripBy(condText, Brackets));
    ConditionItemsClean(parts);
    ConditionItemsDropOnlyBlank(parts);
  }

  /** `[a. p; b. q]` gives `p` and `b. q`: the label pattern is anchored at
      the start of the part, which for the second part is the space after
      the `;`, so only the first label goes. */
  lemma ConditionListExample(condText: string)
    requires condText == "[a. p; b. q]"
    ensures ExtractConditionList(condText) == ["p", "b. q"]
  {
    BracketsStripped(condText);
    SplitExample("a. p; b. q");
    LabelledItemExample("a. p", 'a', 'p');
    PaddedItemExample(" b. q");
    assert ExtractConditionList(condText) == ConditionItems(["a. p", " b. q"]);
    assert ["a. p", " b. q"][1..] == [" b. q"];
    assert [" b. q"][1..] == [];
  }

  lemma BracketsStripped(condText: string)
    requires condText == "[a. p; b. q]"
    ensures StripBy(condText, Brackets) == "a. p; b. q"
  {
    assert LeadingCount(condText, Brackets) == 1;
    assert condText[1..] == "a. p; b. q]";
    assert TrailingCount("a. p; b. q]", Brackets) == 1;
  }

  lemma SplitExample(t: string)
    requires t == "a. p; b. q"
    ensures Split(t, ";") == ["a. p", " b. q"]
  {
    forall j: nat
      ensures OccursAt(t, ";", j) <==> j == 4
    {
      OccursAtChar(t, ';', j);
    }
    FirstIndexFromIs(t, ";", 0, 4);
    assert FirstIndexFrom(t, ";", 5).None?;
    assert SplitFrom(t, ";", 5) == [t[5..]];
    assert t[0..4] == "a. p" && t[5..] == " b. q";
  }

  /** A part `x. y` with a letter label and a one-character condition is
      already trimmed, and loses its label. */
  lemma LabelledItemExample(part: string, x: char, y: char)
    requires part == [x, '.', ' ', y] && IsAsciiLetter(x) && '!' <= y <= '~'
    ensures Strip(part) == part && Strip(DropLabel(part)) == [y]
  {
    StripKeepsPrintableEnds(part);
    assert part == [x, '.', ' '] + [y];
    PrintableNotSpace(y);
    DropLabelSpace(x, [y]);
    StripKeepsPrintableEnds([y]);
  }

  /** A label followed by one space and a word is replaced by the word. */
  lemma DropLabelSpace(x: char, y: string)
    requires IsAsciiLetter(x) && |y| > 0 && !IsSpace(y[0])
    ensures DropLabel([x, '.', ' '] + y) == y
  {
    var part := [x, '.', ' '] + y;
    assert part[2..] == [' '] + y;
    assert ([' '] + y)[1..] == y;
    assert LeadingCount(y, Whitespace) == 0;
    assert LeadingCount([' '] + y, Whitespace) == 1;
  }

  /** A part that starts with the space after `;` keeps its label. */
  lemma PaddedItemExample(part: string)
    requires part == " b. q"
    ensures Strip(part) == "b. q" && Strip(DropLabel(part)) == "b. q"
  {
    assert DropLabel(part) == part;
    assert LeadingCount(part, Whitespace) == 1;
    assert part[1..] == "b. q";
    assert TrailingCount("b. q", Whitespace) == 0;
  }

  /** The items as evidently intended: the label is removed after trimming,
      so a label is dropped whatever whitespace follows the `;`. */
  function ConditionItemsIntended(parts: seq<string>): (items: seq<string>)
    ensures |items| <= |parts|
  {
    if parts == [] then []
    else
      var rest := ConditionItemsIntended(parts[1..]);
      if Strip(parts[0]) != "" then [Strip(DropLabel(Strip(parts[0])))] + rest else rest
  }

  function ExtractConditionListIntended(condText: string): seq<string> {
    ConditionItemsIntended(Split(StripBy(condText, Brackets), ";"))
  }

  /** With the label removed after trimming, whitespace around the parts
      does not change the conditions. */
  lemma {:induction false} IntendedIgnoresPadding(parts: seq<string>, padded: seq<string>)
    requires |parts| == |padded|
    requires forall j :: 0 <= j < |parts| ==> Strip(padded[j]) == Strip(parts[j])
    ensures ConditionItemsIntended(padded) == ConditionItemsIntended(parts)
  {
    if parts != [] {
      IntendedIgnoresPadding(parts[1..], padded[1..]);
    }
  }

  /** Two non-blank parts give two items, in order. */
  lemma ItemsOfTwo(parts: seq<string>)
    requires |parts| == 2 && Strip(parts[0]) != "" && Strip(parts[1]) != ""
    ensures ConditionItems(parts) == [Strip(DropLabel(parts[0])), Strip(DropLabel(parts[1]))]
  {
    var tail := parts[1..];
    assert tail[1..] == [] && tail[0] == parts[1];
    ItemsCons(parts);
    ItemsCons(tail);
  }

  lemma ItemsCons(parts: seq<string>)
    requires parts != [] && Strip(parts[0]) != ""
    ensures ConditionItems(parts) == [Strip(DropLabel(parts[0]))] + ConditionItems(parts[1..])
  {
  }

  lemma IntendedItemsOfTwo(parts: seq<string>)
    requires |parts| == 2 && Strip(parts[0]) != "" && Strip(parts[1]) != ""
    ensures ConditionItemsIntended(parts)
            == [Strip(DropLabel(Strip(parts[0]))), Strip(DropLabel(Strip(parts[1])))]
  {
    var tail := parts[1..];
    assert tail[1..] == [];
    assert ConditionItemsIntended(tail) == [Strip(DropLabel(Strip(parts[1])))];
  }

  /** As written, one space after the `;` keeps the second label: the parts
      differ only by that space, yet the items differ. */
  lemma PaddingKeepsLabel(parts: seq<string>, padded: seq<string>)
    requires parts == ["a. p", "b. q"] && padded == ["a. p", " b. q"]
    ensures Strip(padded[0]) == Strip(parts[0]) == parts[0] && Strip(padded[1]) == Strip(parts[1]) == parts[1]
    ensures ConditionItems(padded) == ["p", "b. q"] && ConditionItems(parts) == ["p", "q"]
  {
    PaddedPartsAgree(parts, padded);
    var a, b, b' := parts[0], parts[1], padded[1];
    LabelledItemExample(a, 'a', 'p');
    PaddedItemExample(b');
    LabelledItemExample(b, 'b', 'q');
    ItemsOfTwo(parts);
    ItemsOfTwo(padded);
  }

  lemma PaddedPartsAgree(parts: seq<string>, padded: seq<string>)
    requires parts == ["a. p", "b. q"] && padded == ["a. p", " b. q"]
    ensures Strip(padded[0]) == Strip(parts[0]) == parts[0] && Strip(padded[1]) == Strip(parts[1]) == parts[1]
  {
    LabelledItemExample(parts[0], 'a', 'p');
    PaddedItemExample(padded[1]);
    LabelledItemExample(parts[1], 'b', 'q');
  }

  /** The intended reading drops both labels of `[a. p; b. q]`. */
  lemma IntendedConditionListExample(condText: string)
    requires condText == "[a. p; b. q]"
    ensures ExtractConditionListIntended(condText) == ["p", "q"]
  {
    var parts: seq<string> := ["a. p", "b. q"];
    var padded: seq<string> := ["a. p", " b. q"];
    BracketsStripped(condText);
    SplitExample("a. p; b. q");
    assert ExtractConditionListIntended(condText) == ConditionItemsIntended(padded);
    PaddedPartsAgree(parts, padded);
    IntendedItemsOfTwo(padded);
    LabelledItemExample(parts[0], 'a', 'p');
    LabelledItemExample(parts[1], 'b', 'q');
  }

  /** On parts that are already trimmed the two readings agree. */
  lemma {:induction false} IntendedMatchesOnTrimmed(parts: seq<string>)
    requires forall j :: 0 <= j < |parts| ==> Strip(parts[j]) == parts[j]
    ensures ConditionItemsIntended(parts) == ConditionItems(parts)
  {
    if parts != [] {
      IntendedMatchesOnTrimmed(parts[1..]);
    }
  }
}
