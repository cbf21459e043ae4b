/** The pass@k table filled in by `evaluate_passk` and `evaluate_passk_puzzle`
    (eval_pipeline.py): for each k in 1, 2, 4, 8, 16 that does not exceed the
    number of samples, the probability that k samples drawn without
    replacement contain a correct one, with the code's own shortcuts. */
module PassAtK {
  import opened Tally

  /** The k values the table is computed for. */
  const KValues: seq<nat> := [1, 2, 4, 8, 16]

  /** Python's `math.comb(n, k)`: the binomial coefficient, 0 when k > n. */
  function Binom(n: nat, k: nat): (r: nat)
    ensures k > n ==> r == 0
    ensures k <= n ==> r >= 1
    decreases n
  {
    if k == 0 then 1
    else if n == 0 then 0
    else Binom(n - 1, k - 1) + Binom(n - 1, k)
  }

  /** Absorption: `(k + 1) * C(m, k + 1) == (m - k) * C(m, k)`, which holds
      for every m once both sides are read over the integers. */
  lemma {:induction false} BinomStep(m: nat, k: nat)
    ensures (k + 1) * Binom(m, k + 1) == (m - k) * Binom(m, k)
  {
    if m == 0 {
      assert Binom(0, k + 1) == 0;
      if k > 0 {
        assert Binom(0, k) == 0;
      }
    } else {
      var a, b := Binom(m - 1, k), Binom(m - 1, k + 1);
      BinomStep(m - 1, k);
      assert (k + 1) * b == (m - 1 - k) * a;
      assert Binom(m, k + 1) == a + b;
      MulAddLeft(k + 1, a, b);
      MulAddRight(k + 1, m - 1 - k, a);
      assert (k + 1) * Binom(m, k + 1) == m * a;
      if k == 0 {
        assert a == 1 && Binom(m, 0) == 1;
      } else {
        var d := Binom(m - 1, k - 1);
        BinomStep(m - 1, k - 1);
        assert k * a == (m - k) * d;
        assert Binom(m, k) == d + a;
        MulAddLeft(m - k, d, a);
        MulAddRight(k, m - k, a);
      }
    }
  }

  lemma MulAddLeft(x: int, y: int, z: int)
    ensures x * (y + z) == x * y + x * z
  {
  }

  lemma MulAddRight(x: int, y: int, z: int)
    ensures x * z + y * z == (x + y) * z
  {
  }

  lemma MulAssoc(x: int, y: int, z: int)
    ensures (x * y) * z == x * (y * z)
  {
  }

  /** More items never give fewer choices. */
  lemma {:induction false} BinomMonotone(m: nat, n: nat, k: nat)
    requires m <= n
    ensures Binom(m, k) <= Binom(n, k)
    decreases n - m
  {
    if m < n {
      BinomMonotone(m, n - 1, k);
      if k > 0 {
        assert Binom(n, k) == Binom(n - 1, k - 1) + Binom(n - 1, k);
      }
    }
  }

  /** Removing at least one item strictly lowers the count of k-subsets,
      when k is between 1 and n. */
  lemma BinomStrict(n: nat, c: nat, k: nat)
    requires 1 <= c <= n && 1 <= k <= n
    ensures Binom(n - c, k) < Binom(n, k)
  {
    BinomMonotone(n - c, n - 1, k);
    assert Binom(n, k) == Binom(n - 1, k - 1) + Binom(n - 1, k);
  }

  /** The closed form `1 - C(n - c, k) / C(n, k)`. */
  function ClosedForm(n: nat, c: nat, k: nat): real
    requires c <= n && 1 <= k <= n
  {
    1.0 - (Binom(n - c, k) as real) / (Binom(n, k) as real)
  }

  /** pass@k as `evaluate_passk` computes it from n samples with c correct:
      0 when nothing is correct, 1.0 as soon as c >= k, otherwise the
      closed form. */
  function PassAt(n: nat, c: nat, k: nat): real
    requires c <= n && 1 <= k <= n
  {
    if c == 0 then 0.0
    else if c >= k then 1.0
    else ClosedForm(n, c, k)
  }

  /** The unbiased estimator of Chen et al. (2021), "Evaluating Large
      Language Models Trained on Code": 1.0 when every k-subset holds a
      correct sample, otherwise the closed form. */
  function UnbiasedPassAt(n: nat, c: nat, k: nat): real
    requires c <= n && 1 <= k <= n
  {
    if n - c < k then 1.0 else ClosedForm(n, c, k)
  }

  lemma RatioBelowOne(a: nat, b: nat)
    requires a < b
    ensures 0.0 <= (a as real) / (b as real) < 1.0
    ensures (a as real) / (b as real) == 0.0 <==> a == 0
  {
    var q := (a as real) / (b as real);
    assert q * (b as real) == a as real;
  }

  /** The closed form lies in [0, 1]; it is 0 exactly when nothing is
      correct and 1 exactly when every k-subset holds a correct sample. */
  lemma ClosedFormRange(n: nat, c: nat, k: nat)
    requires c <= n && 1 <= k <= n
    ensures 0.0 <= ClosedForm(n, c, k) <= 1.0
    ensures ClosedForm(n, c, k) == 0.0 <==> c == 0
    ensures ClosedForm(n, c, k) == 1.0 <==> n - c < k
  {
    if c == 0 {
      ClosedFormNoneCorrect(n, k);
    } else {
      BinomStrict(n, c, k);
      RatioBelowOne(Binom(n - c, k), Binom(n, k));
    }
  }

  lemma ClosedFormNoneCorrect(n: nat, k: nat)
    requires 1 <= k <= n
    ensures ClosedForm(n, 0, k) == 0.0
  {
    var b := Binom(n, k) as real;
    assert b / b == 1.0;
  }

  /** Every present pass@k lies in [0, 1]; it is 0 exactly when no sample is
      correct, and 1.0 exactly when c >= k (the code's shortcut) or every
      k-subset holds a correct sample. */
  lemma PassAtRange(n: nat, c: nat, k: nat)
    requires c <= n && 1 <= k <= n
    ensures 0.0 <= PassAt(n, c, k) <= 1.0
    ensures PassAt(n, c, k) == 0.0 <==> c == 0
    ensures PassAt(n, c, k) == 1.0 <==> c >= k || n - c < k
  {
    ClosedFormRange(n, c, k);
  }

  /** The code's shortcut `c >= k` differs from the estimator's `n - c < k`:
      the two agree exactly when c < k or every k-subset holds a correct
      sample, and otherwise the code reports more than the estimator. */
  lemma ShortcutDivergence(n: nat, c: nat, k: nat)
    requires c <= n && 1 <= k <= n
    ensures PassAt(n, c, k) == UnbiasedPassAt(n, c, k) <==> c < k || n - c < k
    ensures PassAt(n, c, k) >= UnbiasedPassAt(n, c, k)
  {
    ClosedFormRange(n, c, k);
    if c == 0 {
      assert ClosedForm(n, c, k) == 0.0;
    }
  }

  /** Four samples with two correct: the code reports 1.0 for k = 1 and
      k = 2, where the estimator gives 1/2 and 5/6. */
  lemma DivergenceExample()
    ensures PassAt(4, 2, 1) == 1.0 && UnbiasedPassAt(4, 2, 1) == 0.5
    ensures PassAt(4, 2, 2) == 1.0 && UnbiasedPassAt(4, 2, 2) == 5.0 / 6.0
  {
    BinomSmall();
  }

  lemma BinomSmall()
    ensures Binom(2, 1) == 2 && Binom(2, 2) == 1 && Binom(3, 2) == 3
    ensures Binom(4, 1) == 4 && Binom(4, 2) == 6
  {
    BinomRowTwo();
    assert Binom(3, 1) == Binom(2, 0) + Binom(2, 1);
    assert Binom(3, 2) == Binom(2, 1) + Binom(2, 2);
    assert Binom(4, 1) == Binom(3, 0) + Binom(3, 1);
    assert Binom(4, 2) == Binom(3, 1) + Binom(3, 2);
  }

  lemma BinomRowTwo()
    ensures Binom(2, 0) == 1 && Binom(2, 1) == 2 && Binom(2, 2) == 1
  {
    assert Binom(1, 0) == 1 && Binom(1, 1) == 1 && Binom(1, 2) == 0;
  }

  /** One correct sample out of four: pass@1 is 1.0 by the shortcut but
      pass@2 is 1/2, so the table is not monotone in k. */
  lemma NotMonotoneExample()
    ensures PassAt(4, 1, 1) == 1.0 && PassAt(4, 1, 2) == 0.5
  {
    BinomSmall();
  }

  lemma MulMono(x: int, y: int, z: int)
    requires x <= y && z >= 0
    ensures x * z <= y * z
  {
  }

  lemma CancelPositive(x: int, y: int, z: int)
    requires z > 0 && z * x <= z * y
    ensures x <= y
  {
  }

  /** The share of k-subsets missing every correct sample does not grow
      with k: `C(m, k+1) * C(n, k) <= C(m, k) * C(n, k+1)` for m <= n. */
  lemma MissShareStep(m: nat, n: nat, k: nat)
    requires m <= n
    ensures Binom(m, k + 1) * Binom(n, k) <= Binom(m, k) * Binom(n, k + 1)
  {
    BinomStep(m, k);
    BinomStep(n, k);
    CrossStep(k + 1, Binom(m, k), Binom(m, k + 1), Binom(n, k), Binom(n, k + 1), m - k, n - k);
  }

  /** From `s * a2 == dm * a1`, `s * b2 == dn * b1` and `dm <= dn` (with
      s > 0 and a1, b1 >= 0) follows `a2 * b1 <= a1 * b2`. */
  lemma CrossStep(s: int, a1: int, a2: int, b1: int, b2: int, dm: int, dn: int)
    requires s > 0 && a1 >= 0 && b1 >= 0 && dm <= dn
    requires s * a2 == dm * a1 && s * b2 == dn * b1
    ensures a2 * b1 <= a1 * b2
  {
    var p := a1 * b1;
    assert p >= 0;
    MulAssoc(s, a2, b1);
    MulAssoc(dm, a1, b1);
    assert s * (a2 * b1) == dm * p;
    MulAssoc(s, b2, a1);
    MulAssoc(dn, b1, a1);
    assert s * (b2 * a1) == dn * p;
    MulMono(dm, dn, p);
    CancelPositive(a2 * b1, a1 * b2, s);
  }

  lemma RatioCompare(a1: nat, b1: nat, a2: nat, b2: nat)
    requires b1 > 0 && b2 > 0 && a2 * b1 <= a1 * b2
    ensures (a2 as real) / (b2 as real) <= (a1 as real) / (b1 as real)
  {
    var q1 := (a1 as real) / (b1 as real);
    var q2 := (a2 as real) / (b2 as real);
    assert q1 * (b1 as real) == a1 as real;
    assert q2 * (b2 as real) == a2 as real;
    assert (a2 * b1) as real <= (a1 * b2) as real;
    assert q2 * (b1 as real) * (b2 as real) <= q1 * (b1 as real) * (b2 as real);
  }

  /** Within the closed-form branch, pass@k does not decrease from k to k + 1. */
  lemma ClosedFormStep(n: nat, c: nat, k: nat)
    requires c <= n && 1 <= k && k + 1 <= n
    ensures ClosedForm(n, c, k) <= ClosedForm(n, c, k + 1)
  {
    MissShareStep(n - c, n, k);
    RatioCompare(Binom(n - c, k), Binom(n, k), Binom(n - c, k + 1), Binom(n, k + 1));
  }

  /** Within the closed-form branch (0 < c < k), pass@k is non-decreasing in k. */
  lemma {:induction false} PassAtMonotoneInBranch(n: nat, c: nat, k1: nat, k2: nat)
    requires 0 < c < k1 <= k2 <= n
    ensures PassAt(n, c, k1) <= PassAt(n, c, k2)
    decreases k2 - k1
  {
    if k1 < k2 {
      ClosedFormStep(n, c, k1);
      PassAtMonotoneInBranch(n, c, k1 + 1, k2);
    }
  }

  /** The table after the first `m` listed k values: each listed k up to
      the number of samples gets its pass@k, larger ones are skipped. */
  function PassTableUpTo(correct: seq<bool>, m: nat): map<nat, real>
    requires m <= |KValues|
  {
    if m == 0 then map[]
    else
      var k := KValues[m - 1];
      var table := PassTableUpTo(correct, m - 1);
      if k <= |correct| then table[k := PassAt(|correct|, CountTrue(correct), k)] else table
  }

  /** One more listed k: an entry for it when it does not exceed the number
      of samples, nothing new otherwise. */
  lemma PassTableUpToStep(correct: seq<bool>, i: nat)
    requires i < |KValues|
    ensures var k := KValues[i];
            var table := PassTableUpTo(correct, i);
            PassTableUpTo(correct, i + 1)
              == if k <= |correct| then table[k := PassAt(|correct|, CountTrue(correct), k)] else table
  {
  }

  /** The table `evaluate_passk` builds. */
  function PassTable(correct: seq<bool>): map<nat, real> {
    PassTableUpTo(correct, |KValues|)
  }

  /** The table after `m` steps has an entry exactly for the first `m`
      listed k that do not exceed the number of samples, each holding
      pass@k. */
  lemma {:induction false} PassTableUpToEntries(correct: seq<bool>, m: nat, k: nat)
    requires m <= |KValues|
    ensures k in PassTableUpTo(correct, m) <==> k in KValues[..m] && k <= |correct|
    ensures k in PassTableUpTo(correct, m) ==>
              1 <= k && PassTableUpTo(correct, m)[k] == PassAt(|correct|, CountTrue(correct), k)
  {
    if m > 0 {
      PassTableUpToEntries(correct, m - 1, k);
      assert KValues[..m] == KValues[..m - 1] + [KValues[m - 1]];
    }
  }

  /** The pass@k loop of `evaluate_passk` (and of `evaluate_passk_puzzle`):
      `correct` holds one grading verdict per sample, in order. */
  method ComputePassAtK(correct: seq<bool>) returns (results: map<nat, real>)
    ensures results == PassTable(correct)
  {
    var n := |correct|;
    results := map[];
    for i := 0 to |KValues|
      invariant results == PassTableUpTo(correct, i)
    {
      var k := KValues[i];
      PassTableUpToStep(correct, i);
      if k <= n {
        var c := CountTrue(correct);
        if c == 0 {
          results := results[k := 0.0];
        } else if c >= k {
          results := results[k := 1.0];
        } else {
          results := results[k := ClosedForm(n, c, k)];
        }
      }
    }
  }

  /** A pass@k entry exists exactly for the listed k not above the number of
      samples; larger k are absent rather than errors. */
  lemma PassTableKeys(correct: seq<bool>, k: nat)
    ensures k in PassTable(correct) <==> k in KValues && k <= |correct|
  {
    PassTableUpToEntries(correct, |KValues|, k);
    assert KValues[..|KValues|] == KValues;
  }

  /** Every entry is in [0, 1]; all are 0 when no sample is correct and all
      are 1.0 when every sample is. */
  lemma PassTableValues(correct: seq<bool>, k: nat)
    requires k in PassTable(correct)
    ensures 0.0 <= PassTable(correct)[k] <= 1.0
    ensures PassTable(correct)[k] == 0.0 <==> forall i :: 0 <= i < |correct| ==> !correct[i]
    ensures (forall i :: 0 <= i < |correct| ==> correct[i]) ==> PassTable(correct)[k] == 1.0
  {
    PassTableUpToEntries(correct, |KValues|, k);
    PassAtRange(|correct|, CountTrue(correct), k);
  }

  /** Sixteen samples with one correct: pass@1 is 1.0 by the shortcut, and
      pass@16 is 1.0 because all sixteen samples are drawn. */
  lemma SixteenSamplesOneCorrect(correct: seq<bool>)
    requires |correct| == 16 && CountTrue(correct) == 1
    ensures 1 in PassTable(correct) && PassTable(correct)[1] == 1.0
    ensures 16 in PassTable(correct) && PassTable(correct)[16] == 1.0
  {
    PassTableEntry(correct, 1);
    PassTableEntry(correct, 16);
    PassAtRange(16, 1, 16);
  }

  lemma PassTableEntry(correct: seq<bool>, k: nat)
    requires k in KValues && k <= |correct|
    ensures k in PassTable(correct)
    ensures PassTable(correct)[k] == PassAt(|correct|, CountTrue(correct), k)
  {
    PassTableUpToEntries(correct, |KValues|, k);
    assert KValues[..|KValues|] == KValues;
  }

  /** Three samples: only pass@1 and pass@2 are present. */
  lemma ThreeSamplesKeys(correct: seq<bool>)
    requires |correct| == 3
    ensures PassTable(correct).Keys == {1, 2}
  {
    forall k: nat
      ensures k in PassTable(correct) <==> k in {1, 2}
    {
      PassTableKeys(correct, k);
      assert k in KValues <==> k == 1 || k == 2 || k == 4 || k == 8 || k == 16;
    }
  }
}
