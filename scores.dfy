/** calc_pass_scores.py: micro and macro averages over the problems of an
    evaluation file of p-pass@1 (the share of perceived samples that are also
    correct), pass@1 and the perception ratio. */
module Scores {
  import opened Wrappers
  import opened Tally

  /** One entry of the evaluation file: `perception` and `passk.correct`. */
  datatype Instance = Instance(perception: seq<bool>, correct: seq<bool>)

  /** The failing assertion: a problem's two verdict lists differ in length. */
  datatype ScoreError = LengthMismatch(perceptionLength: nat, correctLength: nat)

  /** `(num / den) if den > 0 else 0`. */
  function Ratio(num: nat, den: nat): real {
    if den > 0 then num as real / den as real else 0.0
  }

  /** A ratio of a count to a larger one lies in [0, 1]; it is 0 exactly
      when nothing is counted, and 1 exactly when everything is. */
  lemma RatioInUnit(num: nat, den: nat)
    requires num <= den
    ensures 0.0 <= Ratio(num, den) <= 1.0
    ensures Ratio(num, den) == 0.0 <==> num == 0
    ensures den > 0 ==> (Ratio(num, den) == 1.0 <==> num == den)
  {
    if den > 0 {
      var r := num as real / den as real;
      assert r * den as real == num as real;
    }
  }

  // ---------------------------------------------------------------------
  // Per-problem ratios

  /** p-pass@1 of one problem: correct-and-perceived over perceived. */
  function PPassAt1(inst: Instance): real {
    Ratio(CountBoth(inst.correct, inst.perception), CountTrue(inst.perception))
  }

  /** pass@1 of one problem: correct over samples. */
  function PassAt1(inst: Instance): real {
    Ratio(CountTrue(inst.correct), |inst.correct|)
  }

  /** Perception ratio of one problem: perceived over samples. */
  function PerceptionRatio(inst: Instance): real {
    Ratio(CountTrue(inst.perception), |inst.perception|)
  }

  /** Each per-problem ratio lies in [0, 1]; p-pass@1 is 0 when nothing is
      perceived, pass@1 is 0 exactly when no sample is correct, and the
      perception ratio is 0 exactly when no sample is perceived. */
  lemma ProblemRatios(inst: Instance)
    ensures 0.0 <= PPassAt1(inst) <= 1.0
    ensures 0.0 <= PassAt1(inst) <= 1.0
    ensures 0.0 <= PerceptionRatio(inst) <= 1.0
    ensures CountTrue(inst.perception) == 0 ==> PPassAt1(inst) == 0.0
    ensures PassAt1(inst) == 0.0 <==> forall i :: 0 <= i < |inst.correct| ==> !inst.correct[i]
    ensures PerceptionRatio(inst) == 0.0 <==> forall i :: 0 <= i < |inst.perception| ==> !inst.perception[i]
  {
    RatioInUnit(CountBoth(inst.correct, inst.perception), CountTrue(inst.perception));
    RatioInUnit(CountTrue(inst.correct), |inst.correct|);
    RatioInUnit(CountTrue(inst.perception), |inst.perception|);
  }

  // ---------------------------------------------------------------------
  // Running totals

  /** The six running totals of the loop. */
  datatype Totals = Totals(numeratorP: nat, denominatorP: nat, numerator: nat, denominator: nat,
                           perceptionTrue: nat, perceptionCount: nat)

  /** What one problem adds to the totals. */
  function AddProblem(t: Totals, inst: Instance): Totals {
    Totals(t.numeratorP + CountBoth(inst.correct, inst.perception),
           t.denominatorP + CountTrue(inst.perception),
           t.numerator + CountTrue(inst.correct),
           t.denominator + |inst.correct|,
           t.perceptionTrue + CountTrue(inst.perception),
           t.perceptionCount + |inst.perception|)
  }

  /** The totals after the given problems, in order. */
  function TotalsOf(data: seq<Instance>): Totals {
    if data == [] then Totals(0, 0, 0, 0, 0, 0)
    else AddProblem(TotalsOf(data[..|data| - 1]), data[|data| - 1])
  }

  /** Every problem's two verdict lists have the same length. */
  predicate Matched(data: seq<Instance>) {
    forall i :: 0 <= i < |data| ==> |data[i].perception| == |data[i].correct|
  }

  /** Each numerator is at most its denominator, the p-pass@1 denominator is
      the number of perceived samples, and with matched lengths the pass@1
      denominator is the number of judged samples. */
  lemma {:induction false} TotalsInvariant(data: seq<Instance>)
    ensures var t := TotalsOf(data);
            && t.numeratorP <= t.denominatorP
            && t.numerator <= t.denominator
            && t.perceptionTrue <= t.perceptionCount
            && t.denominatorP == t.perceptionTrue
            && (Matched(data) ==> t.denominator == t.perceptionCount)
  {
    if data != [] {
      var front := data[..|data| - 1];
      TotalsInvariant(front);
      assert Matched(data) ==> Matched(front) by {
        if Matched(data) {
          forall i | 0 <= i < |front|
            ensures |front[i].perception| == |front[i].correct|
          {
            assert front[i] == data[i];
          }
        }
      }
    }
  }

  /** The micro ratios lie in [0, 1]. */
  lemma MicroInUnit(data: seq<Instance>)
    ensures var t := TotalsOf(data);
            && 0.0 <= Ratio(t.numeratorP, t.denominatorP) <= 1.0
            && 0.0 <= Ratio(t.numerator, t.denominator) <= 1.0
            && 0.0 <= Ratio(t.perceptionTrue, t.perceptionCount) <= 1.0
  {
    var t := TotalsOf(data);
    TotalsInvariant(data);
    RatioInUnit(t.numeratorP, t.denominatorP);
    RatioInUnit(t.numerator, t.denominator);
    RatioInUnit(t.perceptionTrue, t.perceptionCount);
  }

  // ---------------------------------------------------------------------
  // Per-problem lists, mean and standard error

  function PPassList(data: seq<Instance>): (xs: seq<real>)
    ensures |xs| == |data|
  {
    seq(|data|, i requires 0 <= i < |data| => PPassAt1(data[i]))
  }

  function PassList(data: seq<Instance>): (xs: seq<real>)
    ensures |xs| == |data|
  {
    seq(|data|, i requires 0 <= i < |data| => PassAt1(data[i]))
  }

  function PerceptionList(data: seq<Instance>): (xs: seq<real>)
    ensures |xs| == |data|
  {
    seq(|data|, i requires 0 <= i < |data| => PerceptionRatio(data[i]))
  }

  function Sum(xs: seq<real>): real {
    if xs == [] then 0.0 else Sum(xs[..|xs| - 1]) + xs[|xs| - 1]
  }

  /** `arr.mean() if len(arr) > 0 else 0`. */
  function Mean(xs: seq<real>): real {
    if |xs| > 0 then Sum(xs) / |xs| as real else 0.0
  }

  /** Sum of squared deviations from `m`. */
  function SumSquares(xs: seq<real>, m: real): real {
    if xs == [] then 0.0
    else SumSquares(xs[..|xs| - 1], m) + (xs[|xs| - 1] - m) * (xs[|xs| - 1] - m)
  }

  /** The square of `arr.std(ddof=1) / np.sqrt(len(arr)) if len(arr) > 1
      else 0`: the Bessel-corrected variance divided by the length. */
  function SquaredSe(xs: seq<real>): real {
    if |xs| > 1 then SumSquares(xs, Mean(xs)) / ((|xs| - 1) as real * |xs| as real) else 0.0
  }

  /** Values in [0, 1] sum to between 0 and their number. */
  lemma {:induction false} SumInUnit(xs: seq<real>)
    requires forall i :: 0 <= i < |xs| ==> 0.0 <= xs[i] <= 1.0
    ensures 0.0 <= Sum(xs) <= |xs| as real
  {
    if xs != [] {
      var front := xs[..|xs| - 1];
      assert forall i :: 0 <= i < |front| ==> front[i] == xs[i];
      SumInUnit(front);
    }
  }

  /** The mean of values in [0, 1] lies in [0, 1]; an empty list has mean 0. */
  lemma MeanInUnit(xs: seq<real>)
    requires forall i :: 0 <= i < |xs| ==> 0.0 <= xs[i] <= 1.0
    ensures 0.0 <= Mean(xs) <= 1.0
    ensures xs == [] ==> Mean(xs) == 0.0
  {
    if xs != [] {
      SumInUnit(xs);
      var n := |xs| as real;
      assert Mean(xs) * n == Sum(xs);
    }
  }

  /** A sum of squares is never negative. */
  lemma {:induction false} SumSquaresNonNegative(xs: seq<real>, m: real)
    ensures SumSquares(xs, m) >= 0.0
  {
    if xs != [] {
      SumSquaresNonNegative(xs[..|xs| - 1], m);
      var d := xs[|xs| - 1] - m;
      assert d * d >= 0.0;
    }
  }

  /** The squared standard error is never negative, and it is 0 for fewer
      than two problems. */
  lemma SquaredSeNonNegative(xs: seq<real>)
    ensures SquaredSe(xs) >= 0.0
    ensures |xs| < 2 ==> SquaredSe(xs) == 0.0
  {
    if |xs| > 1 {
      SumSquaresNonNegative(xs, Mean(xs));
      var d := (|xs| - 1) as real * |xs| as real;
      assert d > 0.0;
      assert SquaredSe(xs) * d == SumSquares(xs, Mean(xs));
    }
  }

  /** Equal values sum to their number times the value. */
  lemma {:induction false} SumConstant(xs: seq<real>, c: real)
    requires forall i :: 0 <= i < |xs| ==> xs[i] == c
    ensures Sum(xs) == |xs| as real * c
  {
    if xs != [] {
      var front := xs[..|xs| - 1];
      assert forall i :: 0 <= i < |front| ==> front[i] == xs[i];
      SumConstant(front, c);
    }
  }

  /** Equal values have no spread around their own value. */
  lemma {:induction false} SumSquaresConstant(xs: seq<real>, c: real)
    requires forall i :: 0 <= i < |xs| ==> xs[i] == c
    ensures SumSquares(xs, c) == 0.0
  {
    if xs != [] {
      var front := xs[..|xs| - 1];
      assert forall i :: 0 <= i < |front| ==> front[i] == xs[i];
      SumSquaresConstant(front, c);
    }
  }

  /** When all problems score the same, the mean is that score and the
      standard error is 0. */
  lemma ConstantScores(xs: seq<real>, c: real)
    requires |xs| > 0 && forall i :: 0 <= i < |xs| ==> xs[i] == c
    ensures Mean(xs) == c
    ensures SquaredSe(xs) == 0.0
  {
    SumConstant(xs, c);
    var n := |xs| as real;
    assert Sum(xs) / n == c;
    SumSquaresConstant(xs, c);
  }

  // ---------------------------------------------------------------------
  // The whole computation

  /** The nine numbers `calculate_scores` returns, standard errors squared. */
  datatype Summary = Summary(
    pPassAt1: real, passAt1: real, perceptionRatio: real,
    pPassAt1Mean: real, pPassAt1SeSquared: real,
    passAt1Mean: real, passAt1SeSquared: real,
    perceptionRatioMean: real, perceptionRatioSeSquared: real)

  /** The scores of a file whose problems all have matched lengths. */
  function SummaryOf(data: seq<Instance>): Summary {
    var t := TotalsOf(data);
    Summary(
      Ratio(t.numeratorP, t.denominatorP), Ratio(t.numerator, t.denominator),
      Ratio(t.perceptionTrue, t.perceptionCount),
      Mean(PPassList(data)), SquaredSe(PPassList(data)),
      Mean(PassList(data)), SquaredSe(PassList(data)),
      Mean(PerceptionList(data)), SquaredSe(PerceptionList(data)))
  }

  /** A problem with matched lengths keeps the prefix matched. */
  lemma MatchedStep(data: seq<Instance>, i: nat)
    requires i < |data| && Matched(data[..i]) && |data[i].perception| == |data[i].correct|
    ensures Matched(data[..i + 1])
  {
    var next := data[..i + 1];
    forall j | 0 <= j < |next|
      ensures |next[j].perception| == |next[j].correct|
    {
      if j < i {
        assert next[j] == data[..i][j];
      }
    }
  }

  /** One more problem extends the totals and each list by its own entry. */
  lemma ScoresStep(data: seq<Instance>, i: nat)
    requires i < |data|
    ensures TotalsOf(data[..i + 1]) == AddProblem(TotalsOf(data[..i]), data[i])
    ensures PPassList(data[..i + 1]) == PPassList(data[..i]) + [PPassAt1(data[i])]
    ensures PassList(data[..i + 1]) == PassList(data[..i]) + [PassAt1(data[i])]
    ensures PerceptionList(data[..i + 1]) == PerceptionList(data[..i]) + [PerceptionRatio(data[i])]
  {
    assert data[..i + 1][..i] == data[..i];
    PPassListSnoc(data[..i + 1]);
    PassListSnocSeq(data[..i + 1]);
    PerceptionListSnoc(data[..i + 1]);
  }

  lemma PPassListSnoc(data: seq<Instance>)
    requires data != []
    ensures PPassList(data) == PPassList(data[..|data| - 1]) + [PPassAt1(data[|data| - 1])]
  {
  }

  lemma PassListSnocSeq(data: seq<Instance>)
    requires data != []
    ensures PassList(data) == PassList(data[..|data| - 1]) + [PassAt1(data[|data| - 1])]
  {
  }

  lemma PerceptionListSnoc(data: seq<Instance>)
    requires data != []
    ensures PerceptionList(data) == PerceptionList(data[..|data| - 1]) + [PerceptionRatio(data[|data| - 1])]
  {
  }

  /** calculate_scores: accumulate the six totals and the three lists over
      the problems in order, failing on the first problem whose verdict
      lists differ in length. */
  method CalculateScores(data: seq<Instance>) returns (r: Result<Summary, ScoreError>)
    ensures r.Failure? <==> !Matched(data)
    ensures r.Failure? ==>
              exists i :: 0 <= i < |data| && Matched(data[..i])
                          && |data[i].perception| != |data[i].correct|
                          && r.error == LengthMismatch(|data[i].perception|, |data[i].correct|)
    ensures r.Success? ==> r.value == SummaryOf(data)
  {
    var totalNumeratorP: nat := 0;
    var totalDenominatorP: nat := 0;
    var totalNumerator: nat := 0;
    var totalDenominator: nat := 0;
    var totalPerceptionTrue: nat := 0;
    var totalPerceptionCount: nat := 0;
    var pPassAt1List: seq<real> := [];
    var passAt1List: seq<real> := [];
    var perceptionRatioList: seq<real> := [];
    for i := 0 to |data|
      invariant Matched(data[..i])
      invariant Totals(totalNumeratorP, totalDenominatorP, totalNumerator, totalDenominator,
                       totalPerceptionTrue, totalPerceptionCount) == TotalsOf(data[..i])
      invariant pPassAt1List == PPassList(data[..i])
      invariant passAt1List == PassList(data[..i])
      invariant perceptionRatioList == PerceptionList(data[..i])
    {
      var perception := data[i].perception;
      var correct := data[i].correct;
      if |perception| != |correct| {
        assert !Matched(data);
        return Failure(LengthMismatch(|perception|, |correct|));
      }
      ScoresStep(data, i);
      var numeratorP := CountBoth(correct, perception);
      var denominatorP := CountTrue(perception);
      pPassAt1List := pPassAt1List + [Ratio(numeratorP, denominatorP)];
      totalNumeratorP := totalNumeratorP + numeratorP;
      totalDenominatorP := totalDenominatorP + denominatorP;

      var numerator := CountTrue(correct);
      var denominator := |correct|;
      passAt1List := passAt1List + [Ratio(numerator, denominator)];
      totalNumerator := totalNumerator + numerator;
      totalDenominator := totalDenominator + denominator;

      var perceptionTrue := CountTrue(perception);
      var perceptionCount := |perception|;
      perceptionRatioList := perceptionRatioList + [Ratio(perceptionTrue, perceptionCount)];
      totalPerceptionTrue := totalPerceptionTrue + perceptionTrue;
      totalPerceptionCount := totalPerceptionCount + perceptionCount;

      MatchedStep(data, i);
    }
    assert data[..|data|] == data;
    var pPassAt1 := Ratio(totalNumeratorP, totalDenominatorP);
    var passAt1 := Ratio(totalNumerator, totalDenominator);
    var perceptionRatio := Ratio(totalPerceptionTrue, totalPerceptionCount);
    return Success(Summary(pPassAt1, passAt1, perceptionRatio,
                           Mean(pPassAt1List), SquaredSe(pPassAt1List),
                           Mean(passAt1List), SquaredSe(passAt1List),
                           Mean(perceptionRatioList), SquaredSe(perceptionRatioList)));
  }

  /** Every score of a file lies in [0, 1] and every squared standard
      error is non-negative; an empty file scores 0 throughout. */
  lemma SummaryRanges(data: seq<Instance>)
    ensures var s := SummaryOf(data);
            && 0.0 <= s.pPassAt1 <= 1.0 && 0.0 <= s.passAt1 <= 1.0 && 0.0 <= s.perceptionRatio <= 1.0
            && 0.0 <= s.pPassAt1Mean <= 1.0 && 0.0 <= s.passAt1Mean <= 1.0 && 0.0 <= s.perceptionRatioMean <= 1.0
            && s.pPassAt1SeSquared >= 0.0 && s.passAt1SeSquared >= 0.0 && s.perceptionRatioSeSquared >= 0.0
    ensures data == [] ==> SummaryOf(data) == Summary(0.0, 0.0, 0.0, 0.0, 0.0, 0.0, 0.0, 0.0, 0.0)
  {
    MicroInUnit(data);
    forall i | 0 <= i < |data| {
      ProblemRatios(data[i]);
    }
    MeanInUnit(PPassList(data));
    MeanInUnit(PassList(data));
    MeanInUnit(PerceptionList(data));
    SquaredSeNonNegative(PPassList(data));
    SquaredSeNonNegative(PassList(data));
    SquaredSeNonNegative(PerceptionList(data));
  }

  // ---------------------------------------------------------------------
  // Micro against macro

  /** Every problem has `m` pass@k verdicts. */
  predicate UniformLength(data: seq<Instance>, m: nat) {
    forall i :: 0 <= i < |data| ==> |data[i].correct| == m
  }

  lemma MulSucc(a: nat, m: nat)
    ensures a * m + m == (a + 1) * m
  {
  }

  lemma DivAdd(a: real, b: real, m: real)
    requires m > 0.0
    ensures a / m + b / m == (a + b) / m
  {
  }

  lemma DivDiv(a: real, m: real, k: real)
    requires m > 0.0 && k > 0.0
    ensures (a / m) / k == a / (k * m)
  {
    var q := a / (k * m);
    assert q * (k * m) == a;
    assert (q * k) * m == a;
  }

  /** With `m` verdicts per problem, the pass@1 list sums to the correct
      total over `m`. */
  lemma PassListSum(data: seq<Instance>, m: nat)
    requires m > 0 && UniformLength(data, m)
    ensures Sum(PassList(data)) == TotalsOf(data).numerator as real / m as real
  {
    var xs := PassList(data);
    var cs := CorrectCounts(data);
    forall i | 0 <= i < |data|
      ensures xs[i] == cs[i] as real / m as real
    {
      PassAt1Uniform(data[i], m);
    }
    SumShares(xs, cs, m);
    NumeratorIsSum(data);
  }

  /** Sum of natural numbers. */
  function SumNat(cs: seq<nat>): nat {
    if cs == [] then 0 else SumNat(cs[..|cs| - 1]) + cs[|cs| - 1]
  }

  /** The number of correct samples of each problem. */
  function CorrectCounts(data: seq<Instance>): (cs: seq<nat>)
    ensures |cs| == |data|
  {
    seq(|data|, i requires 0 <= i < |data| => CountTrue(data[i].correct))
  }

  /** The pass@1 numerator total is the sum of the per-problem counts. */
  lemma {:induction false} NumeratorIsSum(data: seq<Instance>)
    ensures TotalsOf(data).numerator == SumNat(CorrectCounts(data))
  {
    if data != [] {
      var front := data[..|data| - 1];
      NumeratorIsSum(front);
      assert CorrectCounts(data)[..|data| - 1] == CorrectCounts(front);
    }
  }

  /** Shares of `m` sum to the sum of the counts over `m`. */
  lemma {:induction false} SumShares(xs: seq<real>, cs: seq<nat>, m: nat)
    requires m > 0 && |xs| == |cs|
    requires forall i :: 0 <= i < |xs| ==> xs[i] == cs[i] as real / m as real
    ensures Sum(xs) == SumNat(cs) as real / m as real
  {
    if xs != [] {
      var n := |xs|;
      var fx := xs[..n - 1];
      var fc := cs[..n - 1];
      assert forall i :: 0 <= i < n - 1 ==> fx[i] == xs[i] && fc[i] == cs[i];
      SumShares(fx, fc, m);
      DivAdd(SumNat(fc) as real, cs[n - 1] as real, m as real);
    }
  }

  lemma PassAt1Uniform(inst: Instance, m: nat)
    requires m > 0 && |inst.correct| == m
    ensures PassAt1(inst) == CountTrue(inst.correct) as real / m as real
  {
  }

  /** All but the last problem still have `m` verdicts each. */
  lemma UniformFront(data: seq<Instance>, m: nat)
    requires data != [] && UniformLength(data, m)
    ensures UniformLength(data[..|data| - 1], m)
  {
    var front := data[..|data| - 1];
    assert forall i :: 0 <= i < |front| ==> front[i] == data[i];
  }

  /** With `m` verdicts per problem, the pass@1 denominator total is `m`
      per problem. */
  lemma {:induction false} DenominatorUniform(data: seq<Instance>, m: nat)
    requires UniformLength(data, m)
    ensures TotalsOf(data).denominator == |data| * m
  {
    if data != [] {
      UniformFront(data, m);
      DenominatorUniform(data[..|data| - 1], m);
      MulSucc(|data| - 1, m);
    }
  }

  /** When every problem has the same number of samples, micro pass@1
      (total correct over total samples) equals the macro mean of the
      per-problem pass@1 values. With no samples at all both are 0. */
  lemma UniformMicroIsMacro(data: seq<Instance>, m: nat)
    requires UniformLength(data, m)
    ensures SummaryOf(data).passAt1 == SummaryOf(data).passAt1Mean
  {
    DenominatorUniform(data, m);
    if m == 0 {
      var xs := PassList(data);
      assert forall i :: 0 <= i < |xs| ==> xs[i] == 0.0;
      if data != [] {
        ConstantScores(xs, 0.0);
      }
    } else {
      PassListSum(data, m);
      if data != [] {
        var t := TotalsOf(data);
        ShareOfTotals(t.numerator, |data|, m, t.denominator);
      }
    }
  }

  /** A total over `m` per problem, averaged over `k` problems, is the
      total over all `k * m` samples. */
  lemma ShareOfTotals(total: nat, k: nat, m: nat, den: nat)
    requires k > 0 && m > 0 && den == k * m
    ensures (total as real / m as real) / k as real == Ratio(total, den)
  {
    DivDiv(total as real, m as real, k as real);
    CastMul(k, m);
  }

  lemma CastMul(a: nat, b: nat)
    ensures (a * b) as real == a as real * b as real
  {
  }

  /** The totals of two problems. */
  lemma TotalsOfTwo(a: Instance, b: Instance)
    ensures TotalsOf([a, b]) == AddProblem(AddProblem(Totals(0, 0, 0, 0, 0, 0), a), b)
  {
    assert [a][..0] == [];
    assert TotalsOf([a]) == AddProblem(TotalsOf([]), a);
    assert [a, b][..1] == [a];
    assert TotalsOf([a, b]) == AddProblem(TotalsOf([a]), b);
  }

  /** One all-correct and one all-wrong problem of sixteen samples score
      0.5 both as micro pass@1 and as the macro mean, and the macro mean
      has a nonzero standard error: its square is 0.25. */
  lemma HalfCorrectExample(data: seq<Instance>)
    requires data == [Instance(seq(16, _ => true), seq(16, _ => true)),
                      Instance(seq(16, _ => true), seq(16, _ => false))]
    ensures SummaryOf(data).passAt1 == 0.5
    ensures SummaryOf(data).passAt1Mean == 0.5
    ensures SummaryOf(data).passAt1SeSquared == 0.25
  {
    CountTrueConstant(16, true);
    CountTrueConstant(16, false);
    TotalsOfTwo(data[0], data[1]);
    assert data == [data[0], data[1]];
    assert TotalsOf(data).numerator == 16 && TotalsOf(data).denominator == 32;
    UniformMicroIsMacro(data, 16);
    var xs := PassList(data);
    assert xs == [1.0, 0.0];
    assert xs[..1] == [1.0] && [1.0][..0] == [];
    assert Sum(xs) == 1.0;
    assert SumSquares(xs, 0.5) == 0.5;
  }
}
