/** Counting over boolean vectors: Python's `sum(correct)` and
    `sum(int(c) * int(p) for c, p in zip(correct, perception))`. */
module Tally {

  /** Number of `true` entries (Python `sum` over a list of bools). */
  function CountTrue(s: seq<bool>): (n: nat)
    ensures n <= |s|
    ensures n == 0 <==> forall i :: 0 <= i < |s| ==> !s[i]
    ensures n == |s| <==> forall i :: 0 <= i < |s| ==> s[i]
  {
    if s == [] then 0
    else (if s[0] then 1 else 0) + CountTrue(s[1..])
  }

  /** Number of indices where both vectors are true; like `zip`, it stops at
      the end of the shorter vector. */
  function CountBoth(c: seq<bool>, p: seq<bool>): (n: nat)
    ensures n <= CountTrue(p) && n <= CountTrue(c)
    decreases |c|
  {
    if c == [] || p == [] then 0
    else (if c[0] && p[0] then 1 else 0) + CountBoth(c[1..], p[1..])
  }

  lemma {:induction false} CountTrueConcat(a: seq<bool>, b: seq<bool>)
    ensures CountTrue(a + b) == CountTrue(a) + CountTrue(b)
    decreases |a|
  {
    if a == [] {
      assert a + b == b;
    } else {
      assert (a + b)[1..] == a[1..] + b;
      CountTrueConcat(a[1..], b);
    }
  }

  /** A vector holding `n` copies of `b` has `n` or 0 true entries. */
  lemma {:induction false} CountTrueConstant(n: nat, b: bool)
    ensures CountTrue(seq(n, _ => b)) == if b then n else 0
  {
    if n > 0 {
      assert seq(n, _ => b)[1..] == seq(n - 1, _ => b);
      CountTrueConstant(n - 1, b);
    }
  }
}
