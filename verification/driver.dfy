/**
 * The main pipeline of try_final1.js: the input is split into samples,
 * each sample's fields are prepared by a chain of model calls, improved by
 * `iterativeImproveSample`, sanitized and written back as a record; the
 * 1-based numbers of the samples whose improvement failed are collected for
 * the summary, which also splits the elapsed time into hours, minutes and
 * seconds.
 *
 * Every model call's reply is an oracle parameter (`None` for a failed
 * request); the elapsed time is a parameter too.
 */
module Driver {
  import opened Text
  import Samples
  import Sanitize
  import Completion
  import Improve

  /** The model's replies for one sample, in the order the pipeline asks for them. */
  datatype SampleAnswers = SampleAnswers(
    rewrite: Option<string>,          // rewritePromptToStatements
    finishPrompt: Option<string>,     // ensureCompleteSentence on the prompt
    finishResponse: Option<string>,   // ensureCompleteSentence on the response
    conclusion: Option<string>,       // generateConclusion
    finishConcluded: Option<string>,  // ensureCompleteSentence after the conclusion
    issuesFound: bool,                // categorizeIssues returned a non-empty list
    autoSolve: Option<string>,        // autoSolveIssues
    improve: Improve.Oracle,          // the calls inside iterativeImproveSample
    question: Option<string>)         // generateQuestionFromResponse

  /** Replies for a sample the oracle says nothing about: every request fails. */
  const Silent := SampleAnswers(None, None, None, None, None, false, None, Improve.Oracle([], [], []), None)

  function AnswersFor(answers: seq<SampleAnswers>, i: nat): SampleAnswers {
    if i < |answers| then answers[i] else Silent
  }

  /** `res?.choices[0].message.content.trim() ?? dflt`. */
  function Reply(reply: Option<string>, dflt: string): (r: string)
    ensures reply.None? ==> r == dflt
    ensures reply.Some? ==> r == Trim(reply.value)
  {
    match reply
    case None => dflt
    case Some(x) => Trim(x)
  }

  /** `ensureCompleteSentence(text)` given the model's reply. */
  function Finish(text: string, reply: Option<string>): string {
    Completion.EnsureCompleteSentence(text, reply).text
  }

  /**
   * Steps 1 to 4 for one sample: the prompt rewritten into statements and
   * completed; the response completed, given an inline conclusion when the
   * model writes one, and rewritten when issues were found.
   */
  function Prepare(f: Samples.Fields, a: SampleAnswers): (pr: (string, string)) {
    var p := Finish(Reply(a.rewrite, f.prompt), a.finishPrompt);
    var r := Finish(f.response, a.finishResponse);
    var concl := Reply(a.conclusion, []);
    var r' := if concl != [] then Finish(Trim(r) + " " + Trim(concl), a.finishConcluded) else r;
    (p, if a.issuesFound then Reply(a.autoSolve, r') else r')
  }

  /** `question ? cp.trim() + " " + question.trim() : cp`. */
  function WithQuestion(cp: string, q: string): string {
    if q != [] then Trim(cp) + " " + Trim(q) else cp
  }

  /** Appending the question keeps the prompt's words and adds the question's after them. */
  lemma {:induction false} WithQuestionKeepsText(cp: string, q: string)
    ensures NonSpace(Sanitize.RemoveMarks(WithQuestion(cp, q))) ==
      NonSpace(Sanitize.RemoveMarks(cp)) + NonSpace(Sanitize.RemoveMarks(q))
  {
    if q != [] {
      var a, b := Trim(cp), Trim(q);
      assert Sanitize.RemoveMarks(a + " " + b) == Sanitize.RemoveMarks(a) + " " + Sanitize.RemoveMarks(b) by {
        Sanitize.RemoveMarksAppend(a + " ", b);
        Sanitize.RemoveMarksAppend(a, " ");
        assert Sanitize.RemoveMarks(" ") == " ";
      }
      var ra, rb := Sanitize.RemoveMarks(a), Sanitize.RemoveMarks(b);
      NonSpaceAppend(ra + " ", rb);
      NonSpaceAppend(ra, " ");
      assert NonSpace(" ") == [];
      Sanitize.TrimKeepsWords(cp);
      Sanitize.TrimKeepsWords(q);
    } else {
      assert Sanitize.RemoveMarks(q) == [];
    }
  }

  /**
   * Steps 6 and 7: the question appended to the prompt, then both texts
   * sanitized. The record's prompt and response are in sanitized shape and
   * keep every word of the improved prompt, then of the question, and of the
   * improved response; domain and source are kept.
   */
  function Written(cp: string, cr: string, question: Option<string>, f: Samples.Fields): (w: Samples.Fields)
    ensures w.domain == f.domain && w.source == f.source
    ensures Sanitize.Clean(w.prompt) && Sanitize.Clean(w.response)
    ensures NonSpace(w.prompt) ==
      NonSpace(Sanitize.RemoveMarks(cp)) + NonSpace(Sanitize.RemoveMarks(Reply(question, [])))
    ensures NonSpace(w.response) == NonSpace(Sanitize.RemoveMarks(cr))
  {
    var cpWithQ := WithQuestion(cp, Reply(question, []));
    Sanitize.SanitizeIsClean(cpWithQ);
    Sanitize.SanitizeIsClean(cr);
    Sanitize.SanitizeKeepsText(cpWithQ);
    Sanitize.SanitizeKeepsText(cr);
    WithQuestionKeepsText(cp, Reply(question, []));
    Samples.Fields(Sanitize.SanitizeSection(cpWithQ), Sanitize.SanitizeSection(cr), f.domain, f.source)
  }

  /** What processing one sample yields: its output record and whether the improvement loop succeeded. */
  datatype Outcome = Outcome(record: string, success: bool)

  function SampleOutcome(sec: string, a: SampleAnswers): Outcome {
    var f := Samples.ExtractFields(sec);
    var pr := Prepare(f, a);
    var run := Improve.ImproveFrom(1, pr.0, pr.1, a.improve);
    Outcome(Samples.RenderRecord(Written(run.prompt, run.response, a.question, f)), run.success)
  }

  /** The body of the main loop for one sample. */
  method ProcessSample(sec: string, a: SampleAnswers) returns (record: string, success: bool)
    ensures Outcome(record, success) == SampleOutcome(sec, a)
  {
    var f := Samples.ExtractFields(sec);
    var p := Reply(a.rewrite, f.prompt);
    p := Finish(p, a.finishPrompt);
    var r := Finish(f.response, a.finishResponse);
    var concl := Reply(a.conclusion, []);
    if concl != [] {
      r := Trim(r) + " " + Trim(concl);
      r := Finish(r, a.finishConcluded);
    }
    if a.issuesFound {
      r := Reply(a.autoSolve, r);
    }
    var cp, cr;
    success, cp, cr := Improve.IterativeImproveSample(p, r, a.improve);
    record := Samples.RenderRecord(Written(cp, cr, a.question, f));
  }

  /**
   * Every output record holds the sample's own domain and source, and a
   * prompt and response in sanitized shape; the prompt handed to the loop
   * comes back unchanged from it.
   */
  lemma {:induction false} OutcomeShape(sec: string, a: SampleAnswers)
    ensures var f := Samples.ExtractFields(sec);
      var pr := Prepare(f, a);
      var run := Improve.ImproveFrom(1, pr.0, pr.1, a.improve);
      var w := Written(run.prompt, run.response, a.question, f);
      SampleOutcome(sec, a).record == Samples.RenderRecord(w) &&
      run.prompt == pr.0 &&
      w.domain == f.domain && w.source == f.source &&
      Sanitize.Clean(w.prompt) && Sanitize.Clean(w.response)
  {
    var f := Samples.ExtractFields(sec);
    var pr := Prepare(f, a);
    var run := Improve.ImproveFrom(1, pr.0, pr.1, a.improve);
  }

  // ---------------------------------------------------------------------------
  // The main loop

  /** The samples of the input: marker lines deleted, then split on `<SAMPLE>`. */
  function Sections(raw: string): seq<string> {
    Samples.SplitSamples(Samples.StripFailedMarkers(raw))
  }

  /**
   * `outs` holds what `step` yields for each of the first `|outs|` samples,
   * `answers[i]` holding the replies for sample `i + 1`.
   */
  ghost predicate ProcessedBy(step: (string, SampleAnswers) -> Outcome, secs: seq<string>, answers: seq<SampleAnswers>, outs: seq<Outcome>) {
    |outs| <= |secs| &&
    forall j :: 0 <= j < |outs| ==> outs[j] == step(secs[j], AnswersFor(answers, j))
  }

  /** `outs` holds the outcomes of the first `|outs|` samples. */
  ghost predicate Processed(secs: seq<string>, answers: seq<SampleAnswers>, outs: seq<Outcome>) {
    ProcessedBy(SampleOutcome, secs, answers, outs)
  }

  /** Processing the next sample extends the processed outcomes by its outcome. */
  lemma {:induction false} ProcessedStep(step: (string, SampleAnswers) -> Outcome, secs: seq<string>, answers: seq<SampleAnswers>, outs: seq<Outcome>, i: nat, o: Outcome)
    requires ProcessedBy(step, secs, answers, outs) && i == |outs| < |secs|
    requires o == step(secs[i], AnswersFor(answers, i))
    ensures ProcessedBy(step, secs, answers, outs + [o])
  {
  }

  /** The 1-based numbers of the failed samples among the first `n`, in order. */
  function FailedOf(outs: seq<Outcome>, n: nat): seq<nat>
    requires n <= |outs|
  {
    if n == 0 then []
    else FailedOf(outs, n - 1) + (if outs[n - 1].success then [] else [n])
  }

  /** The failed numbers among the first `n` samples do not depend on the samples after them. */
  lemma {:induction false} FailedOfPrefix(outs: seq<Outcome>, more: seq<Outcome>, n: nat)
    requires n <= |outs|
    ensures FailedOf(outs + more, n) == FailedOf(outs, n)
  {
    if n > 0 {
      FailedOfPrefix(outs, more, n - 1);
      assert (outs + more)[n - 1] == outs[n - 1];
    }
  }

  /** How many of the first `n` samples succeed. */
  function SuccessCount(outs: seq<Outcome>, n: nat): nat
    requires n <= |outs|
  {
    if n == 0 then 0
    else SuccessCount(outs, n - 1) + (if outs[n - 1].success then 1 else 0)
  }

  /**
   * The main loop over the samples: one record per sample, in order, and
   * the numbers of the samples whose improvement failed; `outs` is the
   * outcome of every sample.
   */
  method ProcessSections(secs: seq<string>, answers: seq<SampleAnswers>) returns (output: seq<string>, failed: seq<nat>, outs: seq<Outcome>)
    ensures Processed(secs, answers, outs) && |outs| == |secs|
    ensures |output| == |outs| && forall j :: 0 <= j < |outs| ==> output[j] == outs[j].record
    ensures failed == FailedOf(outs, |outs|)
  {
    output, failed, outs := [], [], [];
    var i := 0;
    while i < |secs|
      invariant 0 <= i <= |secs|
      invariant |output| == i && |outs| == i
      invariant Processed(secs, answers, outs)
      invariant forall j :: 0 <= j < i ==> output[j] == outs[j].record
      invariant failed == FailedOf(outs, i)
    {
      var record, success := ProcessSample(secs[i], AnswersFor(answers, i));
      ProcessedStep(SampleOutcome, secs, answers, outs, i, Outcome(record, success));
      RecordsStep(outs, output, failed, Outcome(record, success));
      if !success {
        var number: nat := i + 1;
        failed := failed + [number];
      }
      output := output + [record];
      outs := outs + [Outcome(record, success)];
      i := i + 1;
    }
  }

  lemma {:induction false} RecordsStep(outs: seq<Outcome>, output: seq<string>, failed: seq<nat>, o: Outcome)
    requires |output| == |outs|
    requires forall j :: 0 <= j < |outs| ==> output[j] == outs[j].record
    requires failed == FailedOf(outs, |outs|)
    ensures forall j :: 0 <= j < |outs| + 1 ==> (output + [o.record])[j] == (outs + [o])[j].record
    ensures FailedOf(outs + [o], |outs| + 1) == failed + (if o.success then [] else [|outs| + 1])
  {
    FailedOfPrefix(outs, [o], |outs|);
  }

  /** The whole run over an input text. */
  method ProcessSamples(raw: string, answers: seq<SampleAnswers>) returns (output: seq<string>, failed: seq<nat>, outs: seq<Outcome>)
    ensures Processed(Sections(raw), answers, outs) && |outs| == |Sections(raw)|
    ensures |output| == |outs| && forall j :: 0 <= j < |outs| ==> output[j] == outs[j].record
    ensures failed == FailedOf(outs, |outs|)
  {
    output, failed, outs := ProcessSections(Sections(raw), answers);
  }

  /**
   * The failed numbers are strictly increasing, lie in `1..n` for `n`
   * samples, and are exactly the numbers of the samples that did not
   * succeed.
   */
  lemma {:induction false} FailedNumbers(outs: seq<Outcome>, n: nat)
    requires n <= |outs|
    ensures var failed := FailedOf(outs, n);
      (forall x, y :: 0 <= x < y < |failed| ==> failed[x] < failed[y]) &&
      (forall x :: 0 <= x < |failed| ==> 1 <= failed[x] <= n) &&
      (forall j :: 0 <= j < n ==> (j + 1 in failed <==> !outs[j].success))
  {
    if n > 0 {
      FailedNumbers(outs, n - 1);
      assert n !in FailedOf(outs, n - 1);
    }
  }

  /** Every sample is counted once: the successes and the failed numbers make up all `n` samples. */
  lemma {:induction false} CountsAddUp(outs: seq<Outcome>, n: nat)
    requires n <= |outs|
    ensures SuccessCount(outs, n) + |FailedOf(outs, n)| == n
  {
    if n > 0 {
      CountsAddUp(outs, n - 1);
    }
  }

  // ---------------------------------------------------------------------------
  // The summary

  const HourMs := 3600000
  const MinuteMs := 60000
  const SecondMs := 1000

  /** `Math.floor(elapsed/3600000)`, `Math.floor((elapsed%3600000)/60000)`, `Math.floor((elapsed%60000)/1000)`. */
  function ElapsedSplit(elapsed: nat): (hms: (nat, nat, nat))
    ensures var (h, m, s) := hms;
      h * HourMs + m * MinuteMs + s * SecondMs <= elapsed < h * HourMs + m * MinuteMs + s * SecondMs + SecondMs &&
      m < 60 && s < 60
  {
    var h := elapsed / HourMs;
    var rest := elapsed % HourMs;
    var m := rest / MinuteMs;
    assert rest % MinuteMs == elapsed % MinuteMs by {
      assert elapsed == h * HourMs + rest;
      assert h * HourMs == (h * 60) * MinuteMs;
    }
    var s := (elapsed % MinuteMs) / SecondMs;
    (h, m, s)
  }

  /** The split is the only one within those bounds. */
  lemma {:induction false} ElapsedSplitUnique(elapsed: nat, h: nat, m: nat, s: nat)
    requires m < 60 && s < 60
    requires h * HourMs + m * MinuteMs + s * SecondMs <= elapsed < h * HourMs + m * MinuteMs + s * SecondMs + SecondMs
    ensures ElapsedSplit(elapsed) == (h, m, s)
  {
    var u := elapsed - (h * HourMs + m * MinuteMs + s * SecondMs);
    assert elapsed / HourMs == h && elapsed % HourMs == m * MinuteMs + s * SecondMs + u;
    assert (m * MinuteMs + s * SecondMs + u) / MinuteMs == m;
    assert elapsed % MinuteMs == s * SecondMs + u;
    assert (s * SecondMs + u) / SecondMs == s;
  }

  /** The figures the summary reports. */
  datatype Summary = Summary(total: nat, succeeded: int, failed: seq<nat>, hours: nat, minutes: nat, seconds: nat)

  function MakeSummary(total: nat, failed: seq<nat>, elapsed: nat): Summary {
    var (h, m, s) := ElapsedSplit(elapsed);
    Summary(total, total - |failed|, failed, h, m, s)
  }

  /**
   * For the outcomes of a whole run: the total is the number of samples,
   * the succeeded count is the number of samples that succeeded (never
   * negative), and succeeded plus failed is the total.
   */
  lemma {:induction false} SummaryCounts(outs: seq<Outcome>, elapsed: nat)
    ensures var sum := MakeSummary(|outs|, FailedOf(outs, |outs|), elapsed);
      sum.total == |outs| &&
      sum.succeeded == SuccessCount(outs, |outs|) &&
      sum.succeeded + |sum.failed| == sum.total
  {
    CountsAddUp(outs, |outs|);
  }
}
