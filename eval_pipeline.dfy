/** eval_pipeline.py: grading the sampled answers of each problem, judging
    whether the sampled reasoning perceives the reference solution, and
    joining both into one result per problem id. The OpenAI judges and
    `grade_answer_sympy` are passed in as functions. */
module EvalPipeline {
  import opened Wrappers
  import opened Text
  import Extract
  import PassAtK

  type ProblemId = string

  /** What `grade_answer_sympy(answer, gt)` returns: the verdict, the
      canonical ground truth and the canonical answer. */
  datatype Grade = Grade(correct: bool, canonicalGt: string, canonicalAnswer: string)

  /** The exceptions the pipeline raises on its inputs. */
  datatype EvalError =
    | EmptyAnswerList             // `zip(*[])` leaves nothing to unpack
    | EmptyReasoningList          // `resp["reasoning"][0]` on an empty list
    | NoResults                   // `zip(*results)` over no results
    | MissingPerception(id: ProblemId)  // `.index(problem_id)` finds nothing

  /** The dictionary `evaluate_passk` returns: the pass@k entries keyed by
      k, the verdicts, the ground truth and the answers. */
  datatype PassKResult = PassKResult(passAt: map<nat, real>, correct: seq<bool>, gtAnswer: string, answers: seq<string>)

  /** One entry of the output file. */
  datatype ProblemResult = ProblemResult(perception: seq<bool>, passk: PassKResult)

  // ---------------------------------------------------------------------
  // Perception (evaluate_perception)

  const ParagraphBreak: string := "\n\n"
  const MaxParagraphs: nat := 15

  /** `"\n\n".join(raw.split("\n\n")[:15])`: the first fifteen paragraphs. */
  function TruncateParagraphs(raw: string): string {
    var parts := Split(raw, ParagraphBreak);
    Join(parts[..if |parts| < MaxParagraphs then |parts| else MaxParagraphs], ParagraphBreak)
  }

  /** The judge sees a prefix of the sample, and all of it exactly when it
      has at most fifteen paragraphs. */
  lemma TruncateParagraphsPrefix(raw: string)
    ensures var t := TruncateParagraphs(raw);
            |t| <= |raw| && t == raw[..|t|]
            && (t == raw <==> |Split(raw, ParagraphBreak)| <= MaxParagraphs)
  {
    var parts := Split(raw, ParagraphBreak);
    var m := if |parts| < MaxParagraphs then |parts| else MaxParagraphs;
    SplitJoin(raw, ParagraphBreak);
    JoinPrefix(parts, ParagraphBreak, m);
  }

  /** `reply.strip().lower() == "true"`. */
  predicate IsTrueReply(reply: string) {
    LowerAscii(Strip(reply)) == "true"
  }

  /** A reply counts as true exactly when, once trimmed, it spells `true` in
      any mix of upper and lower case. */
  lemma IsTrueReplyIff(reply: string)
    ensures IsTrueReply(reply) <==>
              |Strip(reply)| == 4
              && forall i :: 0 <= i < 4 ==> Strip(reply)[i] == "true"[i] || Strip(reply)[i] == "TRUE"[i]
  {
    var t := Strip(reply);
    if |t| == 4 {
      forall i | 0 <= i < 4
        ensures LowerAscii(t)[i] == "true"[i] <==> t[i] == "true"[i] || t[i] == "TRUE"[i]
      {
      }
      if forall i :: 0 <= i < 4 ==> t[i] == "true"[i] || t[i] == "TRUE"[i] {
        assert LowerAscii(t) == "true";
      }
    }
  }

  /** One perception verdict: the judge is shown the question, the reference
      steps and the first fifteen paragraphs of the sample. */
  predicate Verdict(judge: (string, seq<string>, string) -> string, question: string, gtReason: seq<string>, raw: string) {
    IsTrueReply(judge(question, gtReason, TruncateParagraphs(raw)))
  }

  /** The verdicts for all samples of one problem, in order. */
  function Verdicts(judge: (string, seq<string>, string) -> string, question: string, gtReason: seq<string>, modelRaw: seq<string>): (v: seq<bool>)
    ensures |v| == |modelRaw|
  {
    seq(|modelRaw|, i requires 0 <= i < |modelRaw| => Verdict(judge, question, gtReason, modelRaw[i]))
  }

  /** evaluate_perception: one verdict per raw sample, in order, returned
      with the problem id. */
  method EvaluatePerception(modelRaw: seq<string>, gtReason: seq<string>, question: string, problemId: ProblemId,
                            judge: (string, seq<string>, string) -> string)
    returns (perceptions: seq<bool>, id: ProblemId)
    ensures id == problemId
    ensures perceptions == Verdicts(judge, question, gtReason, modelRaw)
  {
    perceptions := [];
    for i := 0 to |modelRaw|
      invariant perceptions == Verdicts(judge, question, gtReason, modelRaw[..i])
    {
      var reply := judge(question, gtReason, TruncateParagraphs(modelRaw[i]));
      var tf := LowerAscii(Strip(reply)) == "true";
      perceptions := perceptions + [tf];
      assert modelRaw[..i + 1][..i] == modelRaw[..i];
    }
    assert modelRaw[..|modelRaw|] == modelRaw;
    id := problemId;
  }

  // ---------------------------------------------------------------------
  // Pass@k for graded answers (evaluate_passk)

  /** evaluate_passk: grade every answer against the ground truth, keep the
      first canonical ground truth, and fill the pass@k table. With no
      answers the unpacking of `zip` fails. */
  method EvaluatePassK(modelAnswer: seq<string>, gtAnswer: string, problemId: ProblemId,
                       grade: (string, string) -> Grade)
    returns (r: Result<(PassKResult, ProblemId), EvalError>)
    ensures r.Failure? <==> modelAnswer == []
    ensures r.Failure? ==> r.error == EmptyAnswerList
    ensures r.Success? ==>
              var res := r.value.0;
              && r.value.1 == problemId
              && |res.correct| == |modelAnswer| && |res.answers| == |modelAnswer|
              && (forall i :: 0 <= i < |modelAnswer| ==>
                    res.correct[i] == grade(modelAnswer[i], gtAnswer).correct
                    && res.answers[i] == grade(modelAnswer[i], gtAnswer).canonicalAnswer)
              && res.gtAnswer == grade(modelAnswer[0], gtAnswer).canonicalGt
              && res.passAt == PassAtK.PassTable(res.correct)
  {
    if |modelAnswer| == 0 {
      return Failure(EmptyAnswerList);
    }
    var grades := seq(|modelAnswer|, i requires 0 <= i < |modelAnswer| => grade(modelAnswer[i], gtAnswer));
    var correct := seq(|grades|, i requires 0 <= i < |grades| => grades[i].correct);
    var gts := seq(|grades|, i requires 0 <= i < |grades| => grades[i].canonicalGt);
    var answers := seq(|grades|, i requires 0 <= i < |grades| => grades[i].canonicalAnswer);
    var passAt := PassAtK.ComputePassAtK(correct);
    return Success((PassKResult(passAt, correct, gts[0], answers), problemId));
  }

  // ---------------------------------------------------------------------
  // Pass@k for puzzles (match_answer_with_contents, evaluate_passk_puzzle)

  const ThinkClose: string := "</think>"

  /** `s.split(sep)[-1]` when `sep` occurs in `s`, else `s`. */
  function TextAfterLast(s: string, sep: string): string
    requires |sep| > 0
  {
    if Contains(s, sep) then
      var parts := Split(s, sep);
      parts[|parts| - 1]
    else s
  }

  /** The first character of `sep` does not recur in it, so two of its
      occurrences never overlap. */
  predicate LeadsOnce(sep: string) {
    |sep| > 0 && forall k :: 0 < k < |sep| ==> sep[k] != sep[0]
  }

  /** The text the puzzle judge is shown (match_answer_with_contents). */
  function AfterLastThink(contents: string): string {
    TextAfterLast(contents, ThinkClose)
  }

  /** The puzzle judge sees exactly the text after the last `</think>`, or
      the whole sample when there is none. */
  lemma AfterLastThinkIsTail(contents: string)
    ensures !Contains(contents, ThinkClose) ==> AfterLastThink(contents) == contents
    ensures Contains(contents, ThinkClose) ==>
              var p := LastIndexOf(contents, ThinkClose).value;
              p + |ThinkClose| <= |contents| && AfterLastThink(contents) == contents[p + |ThinkClose|..]
  {
    assert LeadsOnce(ThinkClose);
    TextAfterLastIsTail(contents, ThinkClose);
  }

  /** For a separator that cannot overlap itself, the last part of a split
      is the text after the last occurrence. */
  lemma TextAfterLastIsTail(s: string, sep: string)
    requires LeadsOnce(sep)
    ensures !Contains(s, sep) ==> TextAfterLast(s, sep) == s
    ensures Contains(s, sep) ==>
              var p := LastIndexOf(s, sep).value;
              p + |sep| <= |s| && TextAfterLast(s, sep) == s[p + |sep|..]
  {
    if Contains(s, sep) {
      TextAfterLastFound(s, sep);
    }
  }

  /** The found case of `TextAfterLastIsTail`: the last part of the split
      starts right after an occurrence with none after it, which is the one
      `rfind` reports. */
  lemma TextAfterLastFound(s: string, sep: string)
    requires LeadsOnce(sep) && Contains(s, sep)
    ensures var p := LastIndexOf(s, sep).value;
            p + |sep| <= |s| && TextAfterLast(s, sep) == s[p + |sep|..]
  {
    var k := SplitFromLast(s, sep, 0);
    assert |Split(s, sep)| >= 2 by {
      SplitHasTwoParts(s, sep, LastIndexOf(s, sep).value);
    }
    SepStartsOnce(s, sep, k - |sep|);
    LastIndexOfIs(s, sep, k - |sep|);
  }

  /** A text holding the separator splits into at least two parts. */
  lemma SplitHasTwoParts(s: string, sep: string, p: nat)
    requires |sep| > 0 && OccursAt(s, sep, p)
    ensures |Split(s, sep)| >= 2
  {
    assert FirstIndexFrom(s, sep, 0).Some?;
  }

  /** With the separator at `q` and none starting from its end on, none
      starts after `q` at all: not inside the separator, whose first
      character does not recur in it. */
  lemma SepStartsOnce(s: string, sep: string, q: int)
    requires LeadsOnce(sep) && q >= 0 && OccursAt(s, sep, q)
    requires FirstIndexFrom(s, sep, q + |sep|).None?
    ensures forall j: nat :: q < j ==> !OccursAt(s, sep, j)
  {
    forall j: nat | q < j < q + |sep|
      ensures !OccursAt(s, sep, j)
    {
      assert s[j] == s[q..q + |sep|][j - q];
      if j + |sep| <= |s| {
        assert s[j..j + |sep|][0] == s[j];
      }
    }
  }

  /** The text passed to the puzzle judge holds no `</think>`. */
  lemma AfterLastThinkHasNoTag(contents: string)
    ensures !Contains(AfterLastThink(contents), ThinkClose)
  {
    if Contains(contents, ThinkClose) {
      SplitPartsLackSeparator(contents, ThinkClose);
      var parts := Split(contents, ThinkClose);
      assert LacksSep(parts[|parts| - 1], ThinkClose);
    }
  }

  /** match_answer_with_contents: the puzzle judge's verdict on one sample. */
  predicate PuzzleMatch(judge: (string, string) -> string, gtAnswer: string, contents: string) {
    IsTrueReply(judge(AfterLastThink(contents), gtAnswer))
  }

  /** evaluate_passk_puzzle: one judge verdict per sample, the pass@k table,
      the ground truth unchanged and the samples verbatim as answers. */
  method EvaluatePassKPuzzle(modelContents: seq<string>, gtAnswer: string, problemId: ProblemId,
                             judge: (string, string) -> string)
    returns (res: PassKResult, id: ProblemId)
    ensures id == problemId
    ensures |res.correct| == |modelContents|
    ensures forall i :: 0 <= i < |modelContents| ==> res.correct[i] == PuzzleMatch(judge, gtAnswer, modelContents[i])
    ensures res.gtAnswer == gtAnswer && res.answers == modelContents
    ensures res.passAt == PassAtK.PassTable(res.correct)
  {
    var correct := seq(|modelContents|, i requires 0 <= i < |modelContents| =>
                         PuzzleMatch(judge, gtAnswer, modelContents[i]));
    var passAt := PassAtK.ComputePassAtK(correct);
    res := PassKResult(passAt, correct, gtAnswer, modelContents);
    id := problemId;
  }

  // ---------------------------------------------------------------------
  // Answer selection (main block)

  /** One entry of the samples file: the raw outputs, the optional
      `reasoning` list and the upstream answers. */
  datatype Response = Response(raw: seq<string>, reasoning: Option<seq<string>>, answer: seq<string>)

  /** `reasoning` is used when present with a non-empty first entry. */
  predicate UsesReasoning(resp: Response) {
    resp.reasoning.Some? && |resp.reasoning.value| > 0 && resp.reasoning.value[0] != ""
  }

  /** The texts the boxed answers are extracted from. Reading the first
      entry of an empty `reasoning` list raises. */
  function ReasoningTexts(resp: Response): Result<seq<string>, EvalError> {
    match resp.reasoning
    case None => Success(resp.raw)
    case Some(rs) =>
      if |rs| == 0 then Failure(EmptyReasoningList)
      else if rs[0] != "" then Success(rs)
      else Success(resp.raw)
  }

  function Min(a: nat, b: nat): nat {
    if a < b then a else b
  }

  /** The answer comprehension: `zip` pairs texts and upstream answers up to
      the shorter list; an empty upstream answer is replaced by the boxed
      extraction of its text. */
  function SelectAnswers(resp: Response): Result<seq<string>, EvalError> {
    match ReasoningTexts(resp)
    case Failure(e) => Failure(e)
    case Success(texts) =>
      Success(seq(Min(|texts|, |resp.answer|), i requires 0 <= i < Min(|texts|, |resp.answer|) =>
        if |resp.answer[i]| == 0 then Extract.LastBoxedText(Some(texts[i])) else resp.answer[i]))
  }

  /** Selection fails exactly on an empty `reasoning` list. Otherwise there
      is one answer per pair, a non-empty upstream answer is kept verbatim,
      and an empty one becomes the boxed answer of the reasoning text (or
      of the raw text), which never holds `\boxed{`. */
  lemma SelectAnswersSpec(resp: Response)
    ensures SelectAnswers(resp).Failure? <==> resp.reasoning == Some([])
    ensures SelectAnswers(resp).Success? ==>
              var texts := if UsesReasoning(resp) then resp.reasoning.value else resp.raw;
              var answers := SelectAnswers(resp).value;
              && |answers| == Min(|texts|, |resp.answer|)
              && forall i :: 0 <= i < |answers| ==>
                   (|resp.answer[i]| > 0 ==> answers[i] == resp.answer[i])
                   && (|resp.answer[i]| == 0 ==>
                         answers[i] == Extract.LastBoxedText(Some(texts[i]))
                         && forall p: nat :: !OccursAt(answers[i], Extract.Marker, p))
  {
    if SelectAnswers(resp).Success? {
      var texts := if UsesReasoning(resp) then resp.reasoning.value else resp.raw;
      assert ReasoningTexts(resp) == Success(texts);
      forall i | 0 <= i < Min(|texts|, |resp.answer|) && |resp.answer[i]| == 0
        ensures forall p: nat :: !OccursAt(Extract.LastBoxedText(Some(texts[i])), Extract.Marker, p)
      {
        Extract.ResultHasNoMarker(Some(texts[i]));
      }
    }
  }

  // ---------------------------------------------------------------------
  // Building the jobs (main block)

  /** The fields of one metadata entry the chosen variant reads: the
      reference steps, the reference answer and the question. */
  datatype Meta = Meta(solution: seq<string>, answer: string, question: string)

  /** The argument tuples the two pools are given. */
  datatype PassKJob = PassKJob(samples: seq<string>, gtAnswer: string, id: ProblemId)
  datatype PerceptionJob = PerceptionJob(raw: seq<string>, gtReason: seq<string>, question: string, id: ProblemId)

  /** Puzzles are judged on the raw outputs, the others on the selected
      answers. */
  function PassKJobOf(id: ProblemId, meta: Meta, resp: Response, answers: seq<string>, puzzle: bool): PassKJob {
    PassKJob(if puzzle then resp.raw else answers, meta.answer, id)
  }

  function PerceptionJobOf(id: ProblemId, meta: Meta, resp: Response): PerceptionJob {
    PerceptionJob(resp.raw, meta.solution, meta.question, id)
  }

  /** The two job lists after the first `n` metadata entries, or the error
      of the first entry whose answer selection raises. */
  function JobsUpTo(metadata: seq<(ProblemId, Meta)>, data: map<ProblemId, Response>, puzzle: bool, n: nat)
    : Result<(seq<PassKJob>, seq<PerceptionJob>), EvalError>
    requires n <= |metadata|
  {
    if n == 0 then Success(([], []))
    else
      match JobsUpTo(metadata, data, puzzle, n - 1)
      case Failure(e) => Failure(e)
      case Success(jobs) =>
        var id := metadata[n - 1].0;
        var meta := metadata[n - 1].1;
        if id !in data then Success(jobs)
        else
          match SelectAnswers(data[id])
          case Failure(e) => Failure(e)
          case Success(answers) =>
            Success((jobs.0 + [PassKJobOf(id, meta, data[id], answers, puzzle)],
                     jobs.1 + [PerceptionJobOf(id, meta, data[id])]))
  }

  /** Once an entry raises, the loop stops with that error. */
  lemma {:induction false} JobsFailureSticks(metadata: seq<(ProblemId, Meta)>, data: map<ProblemId, Response>, puzzle: bool, m: nat)
    requires m <= |metadata| && JobsUpTo(metadata, data, puzzle, m).Failure?
    ensures JobsUpTo(metadata, data, puzzle, |metadata|) == JobsUpTo(metadata, data, puzzle, m)
    decreases |metadata| - m
  {
    if m < |metadata| {
      assert JobsUpTo(metadata, data, puzzle, m + 1) == JobsUpTo(metadata, data, puzzle, m);
      JobsFailureSticks(metadata, data, puzzle, m + 1);
    }
  }

  /** The loop over the metadata entries: entries without samples are
      skipped; the others contribute one job to each list. */
  method BuildJobs(metadata: seq<(ProblemId, Meta)>, data: map<ProblemId, Response>, puzzle: bool)
    returns (r: Result<(seq<PassKJob>, seq<PerceptionJob>), EvalError>)
    ensures r == JobsUpTo(metadata, data, puzzle, |metadata|)
  {
    var passkArgs: seq<PassKJob> := [];
    var perceptionArgs: seq<PerceptionJob> := [];
    for i := 0 to |metadata|
      invariant JobsUpTo(metadata, data, puzzle, i) == Success((passkArgs, perceptionArgs))
    {
      var problemId := metadata[i].0;
      var meta := metadata[i].1;
      if problemId !in data {
        continue;
      }
      var resp := data[problemId];
      var modelAnswer := SelectAnswers(resp);
      if modelAnswer.Failure? {
        JobsFailureSticks(metadata, data, puzzle, i + 1);
        return Failure(modelAnswer.error);
      }
      if puzzle {
        passkArgs := passkArgs + [PassKJob(resp.raw, meta.answer, problemId)];
      } else {
        passkArgs := passkArgs + [PassKJob(modelAnswer.value, meta.answer, problemId)];
      }
      perceptionArgs := perceptionArgs + [PerceptionJob(resp.raw, meta.solution, meta.question, problemId)];
    }
    return Success((passkArgs, perceptionArgs));
  }

  /** The positions of the metadata entries that have samples, in order. */
  function KeptIndices(metadata: seq<(ProblemId, Meta)>, data: map<ProblemId, Response>, n: nat): (ks: seq<nat>)
    requires n <= |metadata|
    ensures forall j :: 0 <= j < |ks| ==> ks[j] < n && metadata[ks[j]].0 in data
  {
    if n == 0 then []
    else KeptIndices(metadata, data, n - 1) + (if metadata[n - 1].0 in data then [n - 1] else [])
  }

  /** Each position is smaller than every later one. */
  predicate Increasing(ks: seq<nat>) {
    forall a, b :: 0 <= a < b < |ks| ==> ks[a] < ks[b]
  }

  /** The kept positions increase strictly and include every entry with
      samples. */
  lemma {:induction false} KeptIndicesComplete(metadata: seq<(ProblemId, Meta)>, data: map<ProblemId, Response>, n: nat)
    requires n <= |metadata|
    ensures Increasing(KeptIndices(metadata, data, n))
    ensures forall k :: 0 <= k < n && metadata[k].0 in data ==> k in KeptIndices(metadata, data, n)
  {
    if n > 0 {
      KeptIndicesComplete(metadata, data, n - 1);
      KeptStep(metadata, data, n, KeptIndices(metadata, data, n - 1), KeptIndices(metadata, data, n));
    }
  }

  /** One step of `KeptIndicesComplete`, on the two lists as values. */
  lemma KeptStep(metadata: seq<(ProblemId, Meta)>, data: map<ProblemId, Response>, n: nat, prev: seq<nat>, ks: seq<nat>)
    requires 0 < n <= |metadata|
    requires ks == prev + (if metadata[n - 1].0 in data then [n - 1] else [])
    requires Increasing(prev) && forall j :: 0 <= j < |prev| ==> prev[j] < n - 1
    requires forall k :: 0 <= k < n - 1 && metadata[k].0 in data ==> k in prev
    ensures Increasing(ks)
    ensures forall k :: 0 <= k < n && metadata[k].0 in data ==> k in ks
  {
    IncreasingSnoc(prev, n - 1, metadata[n - 1].0 in data);
  }

  /** Appending a position above all others, or nothing, keeps the order. */
  lemma IncreasingSnoc(prev: seq<nat>, x: nat, add: bool)
    requires Increasing(prev) && forall j :: 0 <= j < |prev| ==> prev[j] < x
    ensures Increasing(prev + (if add then [x] else []))
    ensures x in prev + (if add then [x] else []) <==> add
    ensures forall y :: y in prev ==> y in prev + (if add then [x] else [])
  {
    var ks := prev + (if add then [x] else []);
    forall a, b | 0 <= a < b < |ks|
      ensures ks[a] < ks[b]
    {
      assert ks[a] == prev[a];
      if b < |prev| {
        assert ks[b] == prev[b];
      }
    }
  }

  /** The jobs built for the entry at position `k`. */
  predicate JobsAt(metadata: seq<(ProblemId, Meta)>, data: map<ProblemId, Response>, puzzle: bool, k: nat,
                   pj: PassKJob, cj: PerceptionJob)
    requires k < |metadata| && metadata[k].0 in data
  {
    var id := metadata[k].0;
    var resp := data[id];
    && SelectAnswers(resp).Success?
    && pj == PassKJobOf(id, metadata[k].1, resp, SelectAnswers(resp).value, puzzle)
    && cj == PerceptionJobOf(id, metadata[k].1, resp)
  }

  /** The j-th jobs of both lists belong to the j-th entry with samples. */
  lemma {:induction false} JobsUpToSpec(metadata: seq<(ProblemId, Meta)>, data: map<ProblemId, Response>, puzzle: bool, n: nat)
    requires n <= |metadata|
    ensures JobsUpTo(metadata, data, puzzle, n).Success? ==>
              var jobs := JobsUpTo(metadata, data, puzzle, n).value;
              var ks := KeptIndices(metadata, data, n);
              && |jobs.0| == |ks| && |jobs.1| == |ks|
              && forall j :: 0 <= j < |ks| ==> JobsAt(metadata, data, puzzle, ks[j], jobs.0[j], jobs.1[j])
  {
    if n > 0 && JobsUpTo(metadata, data, puzzle, n).Success? {
      JobsUpToSpec(metadata, data, puzzle, n - 1);
    }
  }

  /** Answer selection raises for this entry. */
  predicate Breaks(metadata: seq<(ProblemId, Meta)>, data: map<ProblemId, Response>, k: nat)
    requires k < |metadata|
  {
    metadata[k].0 in data && data[metadata[k].0].reasoning == Some([])
  }

  /** Building the jobs fails exactly when some entry with samples has an
      empty `reasoning` list. */
  lemma {:induction false} JobsUpToFails(metadata: seq<(ProblemId, Meta)>, data: map<ProblemId, Response>, puzzle: bool, n: nat)
    requires n <= |metadata|
    ensures JobsUpTo(metadata, data, puzzle, n).Failure? <==> exists k :: 0 <= k < n && Breaks(metadata, data, k)
    ensures JobsUpTo(metadata, data, puzzle, n).Failure? ==> JobsUpTo(metadata, data, puzzle, n).error == EmptyReasoningList
  {
    if n > 0 {
      JobsUpToFails(metadata, data, puzzle, n - 1);
      var id := metadata[n - 1].0;
      if id in data {
        SelectAnswersSpec(data[id]);
      }
      assert Breaks(metadata, data, n - 1) <==> id in data && SelectAnswers(data[id]).Failure?;
    }
  }

  // ---------------------------------------------------------------------
  // The two pools

  /** The verdict per sample a pass@k job yields: the `grade` function's for
      answers, the puzzle judge's for raw outputs. */
  function SampleVerdicts(job: PassKJob, puzzle: bool, grade: (string, string) -> Grade,
                          judge: (string, string) -> string): (v: seq<bool>)
    ensures |v| == |job.samples|
  {
    if puzzle then
      seq(|job.samples|, i requires 0 <= i < |job.samples| => PuzzleMatch(judge, job.gtAnswer, job.samples[i]))
    else
      seq(|job.samples|, i requires 0 <= i < |job.samples| => grade(job.samples[i], job.gtAnswer).correct)
  }

  /** The answers a pass@k result stores: the raw outputs for puzzles, the
      canonical form `grade` gives each answer otherwise. */
  function SampleAnswers(job: PassKJob, puzzle: bool, grade: (string, string) -> Grade): (a: seq<string>)
    ensures |a| == |job.samples|
  {
    if puzzle then job.samples
    else seq(|job.samples|, i requires 0 <= i < |job.samples| => grade(job.samples[i], job.gtAnswer).canonicalAnswer)
  }

  /** The ground truth a pass@k result stores: unchanged for puzzles, the
      canonical ground truth of the first graded answer otherwise. */
  function SampleGt(job: PassKJob, puzzle: bool, grade: (string, string) -> Grade): string {
    if puzzle || job.samples == [] then job.gtAnswer
    else grade(job.samples[0], job.gtAnswer).canonicalGt
  }

  /** A pass@k result for a job: its id, its verdicts, their table, the
      stored ground truth and the stored answers. */
  predicate PassKFor(job: PassKJob, res: (PassKResult, ProblemId), puzzle: bool,
                     grade: (string, string) -> Grade, judge: (string, string) -> string) {
    && res.1 == job.id
    && res.0.correct == SampleVerdicts(job, puzzle, grade, judge)
    && res.0.passAt == PassAtK.PassTable(res.0.correct)
    && res.0.gtAnswer == SampleGt(job, puzzle, grade)
    && res.0.answers == SampleAnswers(job, puzzle, grade)
  }

  /** The pass@k pool: one result per job, in order. A graded job with no
      answers raises. */
  method EvaluateAllPassK(jobs: seq<PassKJob>, puzzle: bool, grade: (string, string) -> Grade,
                          judge: (string, string) -> string)
    returns (r: Result<seq<(PassKResult, ProblemId)>, EvalError>)
    ensures r.Failure? <==> !puzzle && exists j :: 0 <= j < |jobs| && jobs[j].samples == []
    ensures r.Failure? ==> r.error == EmptyAnswerList
    ensures r.Success? ==>
              |r.value| == |jobs| && forall j :: 0 <= j < |jobs| ==> PassKFor(jobs[j], r.value[j], puzzle, grade, judge)
  {
    var results: seq<(PassKResult, ProblemId)> := [];
    for j := 0 to |jobs|
      invariant |results| == j
      invariant forall i :: 0 <= i < j ==> PassKFor(jobs[i], results[i], puzzle, grade, judge)
      invariant !puzzle ==> forall i :: 0 <= i < j ==> jobs[i].samples != []
    {
      var job := jobs[j];
      if puzzle {
        var res, id := EvaluatePassKPuzzle(job.samples, job.gtAnswer, job.id, judge);
        results := results + [(res, id)];
      } else {
        var rr := EvaluatePassK(job.samples, job.gtAnswer, job.id, grade);
        if rr.Failure? {
          return Failure(rr.error);
        }
        results := results + [rr.value];
      }
    }
    return Success(results);
  }

  /** The perception pool: one verdict list per job, in order, with its id. */
  method EvaluateAllPerception(jobs: seq<PerceptionJob>, judge: (string, seq<string>, string) -> string)
    returns (results: seq<(seq<bool>, ProblemId)>)
    ensures |results| == |jobs|
    ensures forall j :: 0 <= j < |jobs| ==>
              results[j] == (Verdicts(judge, jobs[j].question, jobs[j].gtReason, jobs[j].raw), jobs[j].id)
  {
    results := [];
    for j := 0 to |jobs|
      invariant |results| == j
      invariant forall i :: 0 <= i < j ==>
                  results[i] == (Verdicts(judge, jobs[i].question, jobs[i].gtReason, jobs[i].raw), jobs[i].id)
    {
      var perceptions, id := EvaluatePerception(jobs[j].raw, jobs[j].gtReason, jobs[j].question, jobs[j].id, judge);
      results := results + [(perceptions, id)];
    }
  }

  // ---------------------------------------------------------------------
  // Joining the results by problem id

  /** `ids.index(id)`: the first position of `id`, if any. */
  function IndexOf(ids: seq<ProblemId>, id: ProblemId): (r: Option<nat>)
    ensures r.Some? ==> r.value < |ids| && ids[r.value] == id && forall j :: 0 <= j < r.value ==> ids[j] != id
    ensures r.None? ==> forall j :: 0 <= j < |ids| ==> ids[j] != id
  {
    if ids == [] then None
    else if ids[0] == id then Some(0)
    else
      match IndexOf(ids[1..], id)
      case None => None
      case Some(i) => Some(i + 1)
  }

  /** The ids column of a list of results. */
  function PerceptionIds(results: seq<(seq<bool>, ProblemId)>): (ids: seq<ProblemId>)
    ensures |ids| == |results| && forall j :: 0 <= j < |results| ==> ids[j] == results[j].1
  {
    seq(|results|, j requires 0 <= j < |results| => results[j].1)
  }

  /** No later pass@k result has the same id as the one at `i`. */
  predicate LastFor(passk: seq<(PassKResult, ProblemId)>, i: nat)
    requires i < |passk|
  {
    forall j :: i < j < |passk| ==> passk[j].1 != passk[i].1
  }

  /** The join: each pass@k result is stored under its id together with the
      perception result of the first equal id; a later result for the same
      id overwrites an earlier one. */
  method JoinResults(passk: seq<(PassKResult, ProblemId)>, perception: seq<(seq<bool>, ProblemId)>)
    returns (r: Result<map<ProblemId, ProblemResult>, EvalError>)
    ensures r.Failure? <==>
              passk == [] || perception == []
              || exists i :: 0 <= i < |passk| && IndexOf(PerceptionIds(perception), passk[i].1).None?
    ensures r.Success? ==> r.value.Keys == set i | 0 <= i < |passk| :: passk[i].1
    ensures r.Success? ==>
              forall i :: 0 <= i < |passk| && LastFor(passk, i) ==>
                r.value[passk[i].1] == ProblemResult(perception[IndexOf(PerceptionIds(perception), passk[i].1).value].0, passk[i].0)
  {
    if |perception| == 0 || |passk| == 0 {
      return Failure(NoResults);
    }
    var perceptionIds := PerceptionIds(perception);
    var evalResult: map<ProblemId, ProblemResult> := map[];
    for i := 0 to |passk|
      invariant forall k :: 0 <= k < i ==> IndexOf(perceptionIds, passk[k].1).Some?
      invariant evalResult.Keys == set k | 0 <= k < i :: passk[k].1
      invariant forall k :: 0 <= k < i && (forall j :: k < j < i ==> passk[j].1 != passk[k].1) ==>
                  evalResult[passk[k].1] == ProblemResult(perception[IndexOf(perceptionIds, passk[k].1).value].0, passk[k].0)
    {
      var problemId := passk[i].1;
      var idx := IndexOf(perceptionIds, problemId);
      if idx.None? {
        return Failure(MissingPerception(problemId));
      }
      evalResult := evalResult[problemId := ProblemResult(perception[idx.value].0, passk[i].0)];
    }
    return Success(evalResult);
  }

  // ---------------------------------------------------------------------
  // The whole run

  /** Metadata is a dictionary: its keys are distinct. */
  predicate DistinctIds(metadata: seq<(ProblemId, Meta)>) {
    forall a, b :: 0 <= a < b < |metadata| ==> metadata[a].0 != metadata[b].0
  }

  /** An entry with samples whose answer selection leaves nothing to grade. */
  predicate NothingToGrade(metadata: seq<(ProblemId, Meta)>, data: map<ProblemId, Response>, k: nat)
    requires k < |metadata|
  {
    && metadata[k].0 in data
    && SelectAnswers(data[metadata[k].0]).Success?
    && SelectAnswers(data[metadata[k].0]).value == []
  }

  /** The output entry for the metadata entry at `k`: its perception
      verdicts on the raw samples, and its pass@k verdicts, table, ground
      truth and answers. */
  predicate EntryFor(metadata: seq<(ProblemId, Meta)>, data: map<ProblemId, Response>, puzzle: bool,
                     grade: (string, string) -> Grade, perceptionJudge: (string, seq<string>, string) -> string,
                     puzzleJudge: (string, string) -> string, k: nat, e: ProblemResult)
    requires k < |metadata| && metadata[k].0 in data
  {
    var id := metadata[k].0;
    var meta := metadata[k].1;
    var resp := data[id];
    && SelectAnswers(resp).Success?
    && e.perception == Verdicts(perceptionJudge, meta.question, meta.solution, resp.raw)
    && e.passk.correct == SampleVerdicts(PassKJobOf(id, meta, resp, SelectAnswers(resp).value, puzzle), puzzle, grade, puzzleJudge)
    && e.passk.passAt == PassAtK.PassTable(e.passk.correct)
    && e.passk.gtAnswer == SampleGt(PassKJobOf(id, meta, resp, SelectAnswers(resp).value, puzzle), puzzle, grade)
    && e.passk.answers == SampleAnswers(PassKJobOf(id, meta, resp, SelectAnswers(resp).value, puzzle), puzzle, grade)
  }

  /** The main block from the job loop to the joined results. It fails when
      no metadata entry has samples, when an entry has an empty `reasoning`
      list, or when a graded entry has no answers; otherwise the result
      holds exactly the ids with samples, each with its own perception
      verdicts and pass@k table. */
  method RunEvaluation(metadata: seq<(ProblemId, Meta)>, data: map<ProblemId, Response>, puzzle: bool,
                       grade: (string, string) -> Grade, perceptionJudge: (string, seq<string>, string) -> string,
                       puzzleJudge: (string, string) -> string)
    returns (r: Result<map<ProblemId, ProblemResult>, EvalError>)
    requires DistinctIds(metadata)
    ensures r.Failure? <==>
              (forall k :: 0 <= k < |metadata| ==> metadata[k].0 !in data)
              || (exists k :: 0 <= k < |metadata| && Breaks(metadata, data, k))
              || (!puzzle && exists k :: 0 <= k < |metadata| && NothingToGrade(metadata, data, k))
    ensures r.Success? ==> r.value.Keys == set k | 0 <= k < |metadata| && metadata[k].0 in data :: metadata[k].0
    ensures r.Success? ==>
              forall k :: 0 <= k < |metadata| && metadata[k].0 in data ==>
                EntryFor(metadata, data, puzzle, grade, perceptionJudge, puzzleJudge, k, r.value[metadata[k].0])
  {
    var n := |metadata|;
    JobsUpToSpec(metadata, data, puzzle, n);
    JobsUpToFails(metadata, data, puzzle, n);
    KeptIndicesComplete(metadata, data, n);
    var ks := KeptIndices(metadata, data, n);
    var jobs := BuildJobs(metadata, data, puzzle);
    if jobs.Failure? {
      return Failure(jobs.error);
    }
    var passkArgs := jobs.value.0;
    var perceptionArgs := jobs.value.1;
    var resultsPassk := EvaluateAllPassK(passkArgs, puzzle, grade, puzzleJudge);
    if resultsPassk.Failure? {
      EmptyJobIsNothingToGrade(metadata, data, puzzle, ks, passkArgs, perceptionArgs);
      return Failure(resultsPassk.error);
    }
    NothingToGradeHasEmptyJob(metadata, data, puzzle, ks, passkArgs, perceptionArgs);
    if |perceptionArgs| == 0 {
      return Failure(NoResults);
    }
    var resultsPerception := EvaluateAllPerception(perceptionArgs, perceptionJudge);
    JoinAligned(metadata, ks, resultsPassk.value, resultsPerception);
    r := JoinResults(resultsPassk.value, resultsPerception);
    assert metadata[ks[0]].0 in data;
    JoinedEntries(metadata, data, puzzle, grade, perceptionJudge, puzzleJudge, ks,
                  passkArgs, perceptionArgs, resultsPassk.value, resultsPerception, r.value);
  }

  /** The joined map of results that follow the jobs of the kept entries
      holds exactly the ids with samples, each with its own entry. */
  lemma JoinedEntries(metadata: seq<(ProblemId, Meta)>, data: map<ProblemId, Response>, puzzle: bool,
                      grade: (string, string) -> Grade, perceptionJudge: (string, seq<string>, string) -> string,
                      puzzleJudge: (string, string) -> string, ks: seq<nat>,
                      passkArgs: seq<PassKJob>, perceptionArgs: seq<PerceptionJob>,
                      passk: seq<(PassKResult, ProblemId)>, perception: seq<(seq<bool>, ProblemId)>,
                      joined: map<ProblemId, ProblemResult>)
    requires DistinctIds(metadata)
    requires ks == KeptIndices(metadata, data, |metadata|) && Increasing(ks)
    requires forall k :: 0 <= k < |metadata| && metadata[k].0 in data ==> k in ks
    requires |passkArgs| == |ks| && |perceptionArgs| == |ks|
    requires forall j :: 0 <= j < |ks| ==> JobsAt(metadata, data, puzzle, ks[j], passkArgs[j], perceptionArgs[j])
    requires |passk| == |ks| && forall j :: 0 <= j < |ks| ==> PassKFor(passkArgs[j], passk[j], puzzle, grade, puzzleJudge)
    requires |perception| == |ks|
    requires forall j :: 0 <= j < |ks| ==>
               perception[j] == (Verdicts(perceptionJudge, perceptionArgs[j].question, perceptionArgs[j].gtReason, perceptionArgs[j].raw),
                                 perceptionArgs[j].id)
    requires joined.Keys == set i | 0 <= i < |passk| :: passk[i].1
    requires forall i :: 0 <= i < |passk| ==> IndexOf(PerceptionIds(perception), passk[i].1).Some?
    requires forall i :: 0 <= i < |passk| && LastFor(passk, i) ==>
               joined[passk[i].1] == ProblemResult(perception[IndexOf(PerceptionIds(perception), passk[i].1).value].0, passk[i].0)
    ensures joined.Keys == set k | 0 <= k < |metadata| && metadata[k].0 in data :: metadata[k].0
    ensures forall k :: 0 <= k < |metadata| && metadata[k].0 in data ==>
              EntryFor(metadata, data, puzzle, grade, perceptionJudge, puzzleJudge, k, joined[metadata[k].0])
  {
    JoinAligned(metadata, ks, passk, perception);
    KeysAligned(metadata, data, ks, passk);
    forall k | 0 <= k < |metadata| && metadata[k].0 in data
      ensures EntryFor(metadata, data, puzzle, grade, perceptionJudge, puzzleJudge, k, joined[metadata[k].0])
    {
      var j :| 0 <= j < |ks| && ks[j] == k;
      EntryFromJobs(metadata, data, puzzle, grade, perceptionJudge, puzzleJudge, k,
                    passkArgs[j], perceptionArgs[j], passk[j], perception[j], joined[metadata[k].0]);
    }
  }

  /** The entry joined from the results of an entry's two jobs is the entry
      the run promises for it. */
  lemma EntryFromJobs(metadata: seq<(ProblemId, Meta)>, data: map<ProblemId, Response>, puzzle: bool,
                      grade: (string, string) -> Grade, perceptionJudge: (string, seq<string>, string) -> string,
                      puzzleJudge: (string, string) -> string, k: nat,
                      pj: PassKJob, cj: PerceptionJob, pr: (PassKResult, ProblemId), cr: (seq<bool>, ProblemId), e: ProblemResult)
    requires k < |metadata| && metadata[k].0 in data
    requires JobsAt(metadata, data, puzzle, k, pj, cj)
    requires PassKFor(pj, pr, puzzle, grade, puzzleJudge)
    requires cr == (Verdicts(perceptionJudge, cj.question, cj.gtReason, cj.raw), cj.id)
    requires e == ProblemResult(cr.0, pr.0)
    ensures EntryFor(metadata, data, puzzle, grade, perceptionJudge, puzzleJudge, k, e)
  {
  }

  /** A graded job with no answers comes from an entry with nothing to
      grade. */
  lemma EmptyJobIsNothingToGrade(metadata: seq<(ProblemId, Meta)>, data: map<ProblemId, Response>, puzzle: bool,
                                 ks: seq<nat>, passkArgs: seq<PassKJob>, perceptionArgs: seq<PerceptionJob>)
    requires ks == KeptIndices(metadata, data, |metadata|)
    requires |passkArgs| == |ks| && |perceptionArgs| == |ks|
    requires forall j :: 0 <= j < |ks| ==> JobsAt(metadata, data, puzzle, ks[j], passkArgs[j], perceptionArgs[j])
    requires !puzzle && exists j :: 0 <= j < |passkArgs| && passkArgs[j].samples == []
    ensures exists k :: 0 <= k < |metadata| && NothingToGrade(metadata, data, k)
  {
    var j :| 0 <= j < |passkArgs| && passkArgs[j].samples == [];
    assert JobsAt(metadata, data, puzzle, ks[j], passkArgs[j], perceptionArgs[j]);
    assert NothingToGrade(metadata, data, ks[j]);
  }

  /** An entry with nothing to grade yields a graded job with no answers. */
  lemma NothingToGradeHasEmptyJob(metadata: seq<(ProblemId, Meta)>, data: map<ProblemId, Response>, puzzle: bool,
                                  ks: seq<nat>, passkArgs: seq<PassKJob>, perceptionArgs: seq<PerceptionJob>)
    requires ks == KeptIndices(metadata, data, |metadata|)
    requires forall k :: 0 <= k < |metadata| && metadata[k].0 in data ==> k in ks
    requires |passkArgs| == |ks| && |perceptionArgs| == |ks|
    requires forall j :: 0 <= j < |ks| ==> JobsAt(metadata, data, puzzle, ks[j], passkArgs[j], perceptionArgs[j])
    ensures (!puzzle && exists k :: 0 <= k < |metadata| && NothingToGrade(metadata, data, k)) ==>
              exists j :: 0 <= j < |passkArgs| && passkArgs[j].samples == []
  {
    if !puzzle && exists k :: 0 <= k < |metadata| && NothingToGrade(metadata, data, k) {
      var k :| 0 <= k < |metadata| && NothingToGrade(metadata, data, k);
      var j :| 0 <= j < |ks| && ks[j] == k;
      assert JobsAt(metadata, data, puzzle, k, passkArgs[j], perceptionArgs[j]);
    }
  }

  /** When both result lists follow the kept entries of a dictionary, every
      pass@k result is the last for its id and finds its perception result
      at the same position. */
  lemma JoinAligned(metadata: seq<(ProblemId, Meta)>, ks: seq<nat>,
                    passk: seq<(PassKResult, ProblemId)>, perception: seq<(seq<bool>, ProblemId)>)
    requires DistinctIds(metadata)
    requires forall j :: 0 <= j < |ks| ==> ks[j] < |metadata|
    requires forall a, b :: 0 <= a < b < |ks| ==> ks[a] < ks[b]
    requires |passk| == |ks| && |perception| == |ks|
    requires forall j :: 0 <= j < |ks| ==> passk[j].1 == metadata[ks[j]].0 && perception[j].1 == metadata[ks[j]].0
    ensures forall j :: 0 <= j < |passk| ==>
              LastFor(passk, j) && IndexOf(PerceptionIds(perception), passk[j].1) == Some(j)
  {
    var ids := PerceptionIds(perception);
    forall j | 0 <= j < |passk|
      ensures LastFor(passk, j) && IndexOf(ids, passk[j].1) == Some(j)
    {
      forall b | j < b < |passk|
        ensures passk[b].1 != passk[j].1
      {
        assert ks[j] < ks[b];
      }
      var found := IndexOf(ids, passk[j].1);
      assert ids[j] == passk[j].1;
    }
  }

  /** The ids of results that follow the kept entries are exactly the ids
      with samples. */
  lemma KeysAligned(metadata: seq<(ProblemId, Meta)>, data: map<ProblemId, Response>, ks: seq<nat>,
                    passk: seq<(PassKResult, ProblemId)>)
    requires ks == KeptIndices(metadata, data, |metadata|)
    requires forall k :: 0 <= k < |metadata| && metadata[k].0 in data ==> k in ks
    requires |passk| == |ks|
    requires forall j :: 0 <= j < |ks| ==> passk[j].1 == metadata[ks[j]].0
    ensures (set i | 0 <= i < |passk| :: passk[i].1)
            == set k | 0 <= k < |metadata| && metadata[k].0 in data :: metadata[k].0
  {
    var lhs := set i | 0 <= i < |passk| :: passk[i].1;
    var rhs := set k | 0 <= k < |metadata| && metadata[k].0 in data :: metadata[k].0;
    forall id | id in lhs
      ensures id in rhs
    {
      var i :| 0 <= i < |passk| && passk[i].1 == id;
      assert metadata[ks[i]].0 == id;
    }
    forall id | id in rhs
      ensures id in lhs
    {
      var k :| 0 <= k < |metadata| && metadata[k].0 in data && metadata[k].0 == id;
      var j :| 0 <= j < |ks| && ks[j] == k;
      assert passk[j].1 == id;
    }
  }
}
