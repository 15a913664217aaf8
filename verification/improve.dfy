/**
 * The correction loop of try_final1.js: `checkAndCorrect` and the two
 * validators around the model calls, `addDetailCorrections`, and
 * `iterativeImproveSample`, which runs at most five correct-and-validate
 * passes over a (prompt, response) pair.
 *
 * The model calls are not modelled; their answers are oracle parameters.
 * An answer is either a failed request (`openAiRequest` returned `null`) or
 * the message text together with what `safeJsonParse` returned on the
 * trimmed text. `safeJsonParse` is modelled on its own: it returns `null`
 * when the clean-up (module `JsonCleanup`) finds no `{ … }` span, and
 * otherwise what the JSON5 parser (not modelled) makes of the span.
 */
module Improve {
  import opened Text
  import JsonCleanup

  const MaxPasses := 5
  const MatchThreshold := 85

  /** A model answer: a failed request, or the message text and what `safeJsonParse` made of it (`None` for `null`). */
  datatype Answer<T> = Failed | Answered(content: string, parsed: Option<T>)

  /**
   * `safeJsonParse(raw)`, given what the JSON5 parser makes of the cleaned
   * span (`None` when it throws): `null` when the clean-up finds no span.
   */
  function SafeJsonParse<T>(raw: string, json: Option<T>): (r: Option<T>)
    ensures JsonCleanup.Cleanup(raw).None? ==> r.None?
    ensures JsonCleanup.Cleanup(raw).Some? ==> r == json
  {
    if JsonCleanup.Cleanup(raw).None? then None else json
  }

  /** The answer's `parsed` is what `safeJsonParse` returns on its trimmed text for parser result `json`. */
  predicate ParsedAs<T(==)>(a: Answer<T>, json: Option<T>) {
    a.Answered? && a.parsed == SafeJsonParse(Trim(a.content), json)
  }

  // ---------------------------------------------------------------------------
  // checkAndCorrect

  /**
   * What the correction step passes on. `percentageMatch` is `None` when the
   * parsed object's `percentageMatch` is a value for which the loop's
   * comparison `< 85` is false (missing, an object, a non-numeric string).
   */
  datatype Correction = Correction(prompt: string, response: string, percentageMatch: Option<int>)

  const ResponseOpen := "<RESPONSE>"
  const ResponseClose := "</RESPONSE>"

  /** The score a correction answer carries: 100 (the default object) when its JSON is unusable. */
  function ScoreOf(parsed: Option<Option<int>>): (m: Option<int>)
    ensures parsed.None? ==> m == Some(100)
    ensures parsed.Some? ==> m == parsed.value
  {
    match parsed
    case None => Some(100)
    case Some(pm) => pm
  }

  /** Only a parsed number below the threshold sends the loop back to rewrite: the default score never does. */
  lemma {:induction false} ScoreBelow(parsed: Option<Option<int>>)
    ensures Below(ScoreOf(parsed)) <==> parsed.Some? && parsed.value.Some? && parsed.value.value < MatchThreshold
  {
  }

  /**
   * The response a correction answer carries: the trimmed text between
   * `<RESPONSE>` and `</RESPONSE>` in the trimmed answer, or the response
   * unchanged when the tags are missing.
   */
  function Corrected(content: string, response: string): (r: string)
    ensures Between(Trim(content), ResponseOpen, ResponseClose).None? ==> r == response
    ensures Between(Trim(content), ResponseOpen, ResponseClose).Some? ==>
      r == Trim(Between(Trim(content), ResponseOpen, ResponseClose).value)
  {
    match Between(Trim(content), ResponseOpen, ResponseClose)
    case Some(x) => Trim(x)
    case None => response
  }

  /** A response taken from between the tags is trimmed and never contains the closing tag. */
  lemma {:induction false} CorrectedShape(content: string, response: string)
    requires Between(Trim(content), ResponseOpen, ResponseClose).Some?
    ensures var r := Corrected(content, response);
      (r == [] || (!IsSpace(r[0]) && !IsSpace(r[|r| - 1]))) &&
      forall k :: !OccursAt(r, ResponseClose, k)
  {
    var x := Between(Trim(content), ResponseOpen, ResponseClose).value;
    BetweenNoClose(Trim(content), ResponseOpen, ResponseClose);
    TrimRemovesSpaceOnly(x);
    NoOccurrenceInSlice(x, ResponseClose, TrimOffset(x), TrimOffset(x) + |Trim(x)|);
  }

  /** A reply that is just a tagged response (with no `<` inside) yields that response, trimmed. */
  lemma {:induction false} CorrectedRoundTrip(y: string, response: string)
    requires forall i :: 0 <= i < |y| ==> y[i] != '<'
    ensures Corrected(ResponseOpen + y + ResponseClose, response) == Trim(y)
  {
    var s := ResponseOpen + y + ResponseClose;
    var j := |ResponseOpen| + |y|;
    assert Trim(s) == s by {
      TrimRemovesSpaceOnly(s);
      assert s[0] == '<' && s[|s| - 1] == '>';
    }
    assert OccursAt(s, ResponseOpen, 0) by {
      assert s[0..|ResponseOpen|] == ResponseOpen;
    }
    FindAt(s, ResponseOpen, 0, 0);
    assert OccursAt(s, ResponseClose, j) by {
      assert s[j..j + |ResponseClose|] == ResponseClose;
    }
    assert forall m :: |ResponseOpen| <= m < j ==> s[m] == y[m - |ResponseOpen|];
    FindAt(s, ResponseClose, |ResponseOpen|, j);
    BetweenAt(s, ResponseOpen, ResponseClose, 0, |ResponseOpen|, j);
    assert s[|ResponseOpen|..j] == y;
  }

  /**
   * `checkAndCorrect(prompt, response)` given the model's answer: `null` when
   * the request failed; otherwise the prompt echoed back, the corrected
   * response and the score.
   */
  function CheckAndCorrect(prompt: string, response: string, a: Answer<Option<int>>): (c: Option<Correction>)
    ensures c.None? <==> a.Failed?
    ensures c.Some? ==> c.value == Correction(prompt, Corrected(a.content, response), ScoreOf(a.parsed))
  {
    match a
    case Failed => None
    case Answered(content, parsed) => Some(Correction(prompt, Corrected(content, response), ScoreOf(parsed)))
  }

  /**
   * What a correction answer does to the pair: nothing but `null` when the
   * request failed; otherwise the prompt is kept, the response is replaced
   * only when the answer holds the tags, and the score is below the
   * threshold only when the answer parsed to a number below it.
   */
  lemma {:induction false} CorrectionEffect(prompt: string, response: string, a: Answer<Option<int>>)
    ensures var c := CheckAndCorrect(prompt, response, a);
      (c.None? <==> a.Failed?) &&
      (c.Some? ==> c.value.prompt == prompt) &&
      (c.Some? && Between(Trim(a.content), ResponseOpen, ResponseClose).None? ==> c.value.response == response) &&
      (c.Some? ==> (Below(c.value.percentageMatch) <==>
        a.parsed.Some? && a.parsed.value.Some? && a.parsed.value.value < MatchThreshold))
  {
    if a.Answered? {
      ScoreBelow(a.parsed);
    }
  }

  /** `c.percentageMatch < MATCH_THRESHOLD`: false for a missing score. */
  predicate Below(m: Option<int>) {
    m.Some? && m.value < MatchThreshold
  }

  /** A correction answer with no `{` before a `}` scores 100, so it never sends the loop back to rewrite. */
  lemma {:induction false} NoJsonNoRetry(prompt: string, response: string, a: Answer<Option<int>>, json: Option<Option<int>>)
    requires ParsedAs(a, json) && !JsonCleanup.HasBracePair(JsonCleanup.Unfenced(Trim(a.content)))
    ensures var c := CheckAndCorrect(prompt, response, a);
      c.Some? && c.value.percentageMatch == Some(100) && !Below(c.value.percentageMatch)
  {
    JsonCleanup.CleanupFails(Trim(a.content));
  }

  // ---------------------------------------------------------------------------
  // The validators

  /** One issue the quality validator reports. */
  datatype Issue = Issue(kind: string, message: string, context: string)

  datatype QualityVerdict = QualityVerdict(valid: bool, issues: seq<Issue>)

  datatype MeaningVerdict = MeaningVerdict(valid: bool, message: string, context: string)

  /** `validateQuality`: no answer, or an unusable one, counts as valid with no issues. */
  function QualityOf(a: Answer<QualityVerdict>): (v: QualityVerdict)
    ensures (a.Failed? || a.parsed.None?) ==> v == QualityVerdict(true, [])
    ensures a.Answered? && a.parsed.Some? ==> v == a.parsed.value
  {
    match a
    case Failed => QualityVerdict(true, [])
    case Answered(_, None) => QualityVerdict(true, [])
    case Answered(_, Some(v)) => v
  }

  /** `validateMeaning`: no answer, or an unusable one, counts as invalid. */
  function MeaningOf(a: Answer<MeaningVerdict>): (v: MeaningVerdict)
    ensures a.Failed? ==> v == MeaningVerdict(false, "No validator response", "")
    ensures a.Answered? && a.parsed.None? ==> v == MeaningVerdict(false, "", "")
    ensures a.Answered? && a.parsed.Some? ==> v == a.parsed.value
  {
    match a
    case Failed => MeaningVerdict(false, "No validator response", "")
    case Answered(_, None) => MeaningVerdict(false, "", "")
    case Answered(_, Some(v)) => v
  }

  // ---------------------------------------------------------------------------
  // addDetailCorrections

  /** The block appended for one issue: `\n\n[type] message\nContext: context`. */
  function IssueBlock(i: Issue): string {
    "\n\n[" + i.kind + "] " + i.message + "\nContext: " + i.context
  }

  /** The blocks of `issues`, in order, built by appending one block at a time. */
  function Annotations(issues: seq<Issue>): string {
    if |issues| == 0 then [] else Annotations(issues[..|issues| - 1]) + IssueBlock(issues[|issues| - 1])
  }

  /** The same blocks, built from the front: the first issue's block, then the rest. */
  function Blocks(issues: seq<Issue>): string {
    if |issues| == 0 then [] else IssueBlock(issues[0]) + Blocks(issues[1..])
  }

  lemma {:induction false} BlocksAppend(a: seq<Issue>, b: seq<Issue>)
    ensures Blocks(a + b) == Blocks(a) + Blocks(b)
    decreases |a|
  {
    if |a| == 0 {
      assert a + b == b;
    } else {
      assert (a + b)[0] == a[0] && (a + b)[1..] == a[1..] + b;
      BlocksAppend(a[1..], b);
    }
  }

  /** Appending block by block gives every issue's block, first issue first. */
  lemma {:induction false} AnnotationsInOrder(issues: seq<Issue>)
    ensures Annotations(issues) == Blocks(issues)
    decreases |issues|
  {
    if |issues| > 0 {
      var init, last := issues[..|issues| - 1], issues[|issues| - 1];
      AnnotationsInOrder(init);
      assert issues == init + [last];
      BlocksAppend(init, [last]);
      assert Blocks([last]) == IssueBlock(last) + Blocks([]);
    }
  }

  /** The blocks of a list of issues followed by another are the blocks of the first, then of the second. */
  lemma {:induction false} AnnotationsAppend(a: seq<Issue>, b: seq<Issue>)
    ensures Annotations(a + b) == Annotations(a) + Annotations(b)
  {
    AnnotationsInOrder(a + b);
    AnnotationsInOrder(a);
    AnnotationsInOrder(b);
    BlocksAppend(a, b);
  }

  /**
   * `addDetailCorrections(issues, text)`: the text unchanged for no issues,
   * otherwise the text followed by one block per issue, in order.
   */
  method AddDetailCorrections(issues: seq<Issue>, text: string) returns (out: string)
    ensures out == text + Annotations(issues)
    ensures |issues| == 0 ==> out == text
    ensures |text| <= |out| && out[..|text|] == text
  {
    if |issues| == 0 {
      return text;
    }
    out := text;
    var k := 0;
    while k < |issues|
      invariant 0 <= k <= |issues|
      invariant out == text + Annotations(issues[..k])
    {
      assert issues[..k + 1][..k] == issues[..k];
      out := out + IssueBlock(issues[k]);
      k := k + 1;
    }
    assert issues[..|issues|] == issues;
  }

  /** The block appended for an invalid meaning verdict: `\n\n[meaning] message\nContext: context`. */
  function MeaningNote(m: MeaningVerdict): string {
    "\n\n[meaning] " + m.message + "\nContext: " + m.context
  }

  /** The response carried to the next pass after a failed validation. */
  function Annotate(r: string, v: QualityVerdict, m: MeaningVerdict): string {
    var r1 := if v.valid then r else r + Annotations(v.issues);
    if m.valid then r1 else r1 + MeaningNote(m)
  }

  /**
   * The end of a validated pass that did not succeed: the quality issues'
   * blocks, then the meaning note, each only when its verdict is invalid.
   * The response is kept as the first part of the result.
   */
  method AddComplaints(r: string, v: QualityVerdict, m: MeaningVerdict) returns (out: string)
    ensures out == Annotate(r, v, m)
    ensures |r| <= |out| && out[..|r|] == r
    ensures v.valid && m.valid ==> out == r
  {
    out := r;
    if !v.valid {
      out := AddDetailCorrections(v.issues, out);
    }
    if !m.valid {
      out := out + MeaningNote(m);
    }
  }

  // ---------------------------------------------------------------------------
  // iterativeImproveSample

  /** The model's answers, pass by pass (pass `k` at index `k - 1`); a missing entry is a failed request. */
  datatype Oracle = Oracle(
    corrections: seq<Answer<Option<int>>>,
    quality: seq<Answer<QualityVerdict>>,
    meaning: seq<Answer<MeaningVerdict>>)

  function CorrectionAt(o: Oracle, pass: nat): Answer<Option<int>> {
    if 1 <= pass <= |o.corrections| then o.corrections[pass - 1] else Failed
  }

  function QualityAt(o: Oracle, pass: nat): Answer<QualityVerdict> {
    if 1 <= pass <= |o.quality| then o.quality[pass - 1] else Failed
  }

  function MeaningAt(o: Oracle, pass: nat): Answer<MeaningVerdict> {
    if 1 <= pass <= |o.meaning| then o.meaning[pass - 1] else Failed
  }

  /**
   * A run of the loop: the outcome and the final pair, with the number of
   * correction calls and of passes that called the validators.
   */
  datatype Run = Run(success: bool, prompt: string, response: string, corrections: nat, validations: nat)

  /** One more correction call, and `v` more validated passes, in front of a run. */
  function Tally(run: Run, v: nat): Run {
    run.(corrections := run.corrections + 1, validations := run.validations + v)
  }

  /** Pass `pass` validates (its score is not below the threshold) and both verdicts are valid. */
  predicate PassValid(score: Option<int>, o: Oracle, pass: nat) {
    !Below(score) && QualityOf(QualityAt(o, pass)).valid && MeaningOf(MeaningAt(o, pass)).valid
  }

  /** The response the next pass starts from: the corrected one, with the verdicts' complaints if it was validated. */
  function NextResponse(c: Correction, o: Oracle, pass: nat): string {
    if Below(c.percentageMatch) then c.response
    else Annotate(c.response, QualityOf(QualityAt(o, pass)), MeaningOf(MeaningAt(o, pass)))
  }

  /**
   * The loop from pass `pass` on, with working pair (`p`, `r`). A failed
   * correction stops it; a score below the threshold goes to the next pass
   * without validating; two valid verdicts end it with success; otherwise
   * the verdicts' complaints are appended to the response for the next pass.
   */
  function ImproveFrom(pass: nat, p: string, r: string, o: Oracle): (run: Run)
    requires 1 <= pass <= MaxPasses + 1
    ensures run.prompt == p
    ensures run.corrections <= MaxPasses + 1 - pass
    ensures run.validations <= run.corrections
    ensures run.success ==> run.validations >= 1
    decreases MaxPasses + 1 - pass
  {
    if pass > MaxPasses then Run(false, p, r, 0, 0)
    else match CheckAndCorrect(p, r, CorrectionAt(o, pass))
      case None => Run(false, p, r, 1, 0)
      case Some(c) =>
        if PassValid(c.percentageMatch, o, pass) then Run(true, c.prompt, c.response, 1, 1)
        else Tally(ImproveFrom(pass + 1, c.prompt, NextResponse(c, o, pass), o), if Below(c.percentageMatch) then 0 else 1)
  }

  /** Two runs end the same way with the same pair. */
  predicate SameOutcome(a: Run, b: Run) {
    a.success == b.success && a.prompt == b.prompt && a.response == b.response
  }

  /** `iterativeImproveSample(prompt, response)`. */
  method IterativeImproveSample(prompt: string, response: string, o: Oracle) returns (success: bool, p: string, r: string)
    ensures var run := ImproveFrom(1, prompt, response, o);
      success == run.success && p == run.prompt && r == run.response
    ensures p == prompt
  {
    p, r := prompt, response;
    var pass := 1;
    ghost var goal := ImproveFrom(1, prompt, response, o);
    while pass <= MaxPasses
      invariant 1 <= pass <= MaxPasses + 1
      invariant SameOutcome(ImproveFrom(pass, p, r, o), goal)
    {
      var c := CheckAndCorrect(p, r, CorrectionAt(o, pass));
      if c.None? {
        FailedStops(pass, p, r, o);
        break;
      }
      ghost var p0, r0 := p, r;
      p, r := c.value.prompt, c.value.response;
      if Below(c.value.percentageMatch) {
        HandOn(pass, p0, r0, o, c.value, goal);
        pass := pass + 1;
        continue;
      }
      var v := QualityOf(QualityAt(o, pass));
      var m := MeaningOf(MeaningAt(o, pass));
      if v.valid && m.valid {
        ValidEnds(pass, p0, r0, o, c.value);
        return true, p, r;
      }
      r := AddComplaints(r, v, m);
      HandOn(pass, p0, r0, o, c.value, goal);
      pass := pass + 1;
    }
    success := false;
  }

  // ---------------------------------------------------------------------------
  // Properties of the loop

  /** Pass `k` validates and both verdicts are valid. */
  predicate PassSucceeds(o: Oracle, k: nat) {
    CorrectionAt(o, k).Answered? && PassValid(ScoreOf(CorrectionAt(o, k).parsed), o, k)
  }

  /** Pass `k` gets a correction and does not succeed, so the loop goes on to pass `k + 1`. */
  predicate Continues(o: Oracle, k: nat) {
    CorrectionAt(o, k).Answered? && !PassSucceeds(o, k)
  }

  /** Every pass from `from` up to `k` got a correction and did not succeed: the loop reaches pass `k`. */
  predicate Reaches(o: Oracle, from: nat, k: nat) {
    forall j :: from <= j < k ==> Continues(o, j)
  }

  /** A pass whose correction `c` does not end the loop hands (`c.prompt`, its next response) on to the next pass. */
  lemma {:induction false} StepOn(pass: nat, p: string, r: string, o: Oracle, c: Correction)
    requires 1 <= pass <= MaxPasses
    requires CheckAndCorrect(p, r, CorrectionAt(o, pass)) == Some(c) && !PassValid(c.percentageMatch, o, pass)
    ensures var next := ImproveFrom(pass + 1, c.prompt, NextResponse(c, o, pass), o);
      var run := ImproveFrom(pass, p, r, o);
      SameOutcome(run, next) && run.corrections == next.corrections + 1 &&
      run.validations == next.validations + (if Below(c.percentageMatch) then 0 else 1)
  {
  }

  /** The loop's invariant carried over a pass that does not end it. */
  lemma {:induction false} HandOn(pass: nat, p: string, r: string, o: Oracle, c: Correction, goal: Run)
    requires 1 <= pass <= MaxPasses
    requires CheckAndCorrect(p, r, CorrectionAt(o, pass)) == Some(c) && !PassValid(c.percentageMatch, o, pass)
    requires SameOutcome(ImproveFrom(pass, p, r, o), goal)
    ensures SameOutcome(ImproveFrom(pass + 1, c.prompt, NextResponse(c, o, pass), o), goal)
  {
    StepOn(pass, p, r, o, c);
  }

  /** A pass whose correction validates with two valid verdicts ends the loop with success and the corrected pair. */
  lemma {:induction false} ValidEnds(pass: nat, p: string, r: string, o: Oracle, c: Correction)
    requires 1 <= pass <= MaxPasses
    requires CheckAndCorrect(p, r, CorrectionAt(o, pass)) == Some(c) && PassValid(c.percentageMatch, o, pass)
    ensures ImproveFrom(pass, p, r, o) == Run(true, c.prompt, c.response, 1, 1)
  {
  }

  /** A failed correction request ends the loop at once. */
  lemma {:induction false} FailedStops(pass: nat, p: string, r: string, o: Oracle)
    requires 1 <= pass <= MaxPasses && CorrectionAt(o, pass).Failed?
    ensures ImproveFrom(pass, p, r, o) == Run(false, p, r, 1, 0)
  {
  }

  /** A pass that gets a correction and does not succeed hands its pair on to the next pass. */
  lemma {:induction false} Step(pass: nat, p: string, r: string, o: Oracle)
    requires 1 <= pass <= MaxPasses
    requires Continues(o, pass)
    ensures var c := CheckAndCorrect(p, r, CorrectionAt(o, pass)).value;
      var next := ImproveFrom(pass + 1, c.prompt, NextResponse(c, o, pass), o);
      var run := ImproveFrom(pass, p, r, o);
      SameOutcome(run, next) && run.corrections == next.corrections + 1 &&
      run.validations == next.validations + (if Below(c.percentageMatch) then 0 else 1)
  {
    StepOn(pass, p, r, o, CheckAndCorrect(p, r, CorrectionAt(o, pass)).value);
  }

  /**
   * The loop succeeds exactly when some pass it reaches validates with both
   * verdicts valid; which pass that is depends only on the answers, not on
   * the texts.
   */
  lemma {:induction false} SuccessIff(pass: nat, p: string, r: string, o: Oracle)
    requires 1 <= pass <= MaxPasses + 1
    ensures ImproveFrom(pass, p, r, o).success <==>
      exists k :: pass <= k <= MaxPasses && Reaches(o, pass, k) && PassSucceeds(o, k)
    decreases MaxPasses + 1 - pass
  {
    if pass <= MaxPasses {
      if Continues(o, pass) {
        var c := CheckAndCorrect(p, r, CorrectionAt(o, pass)).value;
        var r' := NextResponse(c, o, pass);
        Step(pass, p, r, o);
        SuccessIff(pass + 1, c.prompt, r', o);
        if ImproveFrom(pass, p, r, o).success {
          var k :| pass + 1 <= k <= MaxPasses && Reaches(o, pass + 1, k) && PassSucceeds(o, k);
          assert Reaches(o, pass, k);
        }
        if exists k :: pass <= k <= MaxPasses && Reaches(o, pass, k) && PassSucceeds(o, k) {
          var k :| pass <= k <= MaxPasses && Reaches(o, pass, k) && PassSucceeds(o, k);
          if k == pass {
            assert false;
          }
          assert Reaches(o, pass + 1, k);
        }
      } else if CorrectionAt(o, pass).Answered? {
        assert Reaches(o, pass, pass);
      }
    }
  }

  /** One more pass in front of a run that stopped: still a failure, with one more correction call. */
  lemma {:induction false} StopsLater(pass: nat, p: string, r: string, o: Oracle, n: nat)
    requires 1 <= pass <= MaxPasses && Continues(o, pass)
    requires var c := CheckAndCorrect(p, r, CorrectionAt(o, pass)).value;
      var next := ImproveFrom(pass + 1, c.prompt, NextResponse(c, o, pass), o);
      !next.success && next.corrections == n
    ensures var run := ImproveFrom(pass, p, r, o);
      !run.success && run.corrections == n + 1
  {
    Step(pass, p, r, o);
  }

  /**
   * A failed correction request at a pass the loop reaches ends it there:
   * failure, one correction call per pass up to and including that one.
   */
  lemma {:induction false} StopsAtFirstFailure(pass: nat, p: string, r: string, o: Oracle, k: nat)
    requires 1 <= pass <= k <= MaxPasses
    requires Reaches(o, pass, k) && CorrectionAt(o, k).Failed?
    ensures var run := ImproveFrom(pass, p, r, o);
      !run.success && run.corrections == k - pass + 1
    decreases k - pass
  {
    if pass < k {
      assert Continues(o, pass);
      var c := CheckAndCorrect(p, r, CorrectionAt(o, pass)).value;
      StopsAtFirstFailure(pass + 1, c.prompt, NextResponse(c, o, pass), o, k);
      StopsLater(pass, p, r, o, k - pass);
    } else {
      FailedStops(pass, p, r, o);
    }
  }

  /**
   * When every pass from `pass` on gets a score below the threshold, the
   * loop fails after a correction call at each of them and never validates.
   */
  lemma {:induction false} AllBelowThreshold(pass: nat, p: string, r: string, o: Oracle)
    requires 1 <= pass <= MaxPasses + 1
    requires forall k :: pass <= k <= MaxPasses ==>
      CorrectionAt(o, k).Answered? && Below(ScoreOf(CorrectionAt(o, k).parsed))
    ensures var run := ImproveFrom(pass, p, r, o);
      !run.success && run.validations == 0 && run.corrections == MaxPasses + 1 - pass
    decreases MaxPasses + 1 - pass
  {
    if pass <= MaxPasses {
      var c := CheckAndCorrect(p, r, CorrectionAt(o, pass)).value;
      Step(pass, p, r, o);
      AllBelowThreshold(pass + 1, c.prompt, NextResponse(c, o, pass), o);
    }
  }

  /** From the first pass: at most five correction calls, and exactly five with no validation when every score is low. */
  lemma {:induction false} FivePasses(prompt: string, response: string, o: Oracle)
    ensures ImproveFrom(1, prompt, response, o).corrections <= MaxPasses
    ensures (forall k :: 1 <= k <= MaxPasses ==>
      CorrectionAt(o, k).Answered? && Below(ScoreOf(CorrectionAt(o, k).parsed))) ==>
      var run := ImproveFrom(1, prompt, response, o);
      !run.success && run.corrections == MaxPasses && run.validations == 0
  {
    if forall k :: 1 <= k <= MaxPasses ==>
      CorrectionAt(o, k).Answered? && Below(ScoreOf(CorrectionAt(o, k).parsed))
    {
      AllBelowThreshold(1, prompt, response, o);
    }
  }

  /**
   * Since an unusable meaning answer counts as invalid, a meaning validator
   * that never answers makes the loop fail whatever else happens.
   */
  lemma {:induction false} SilentMeaningFails(prompt: string, response: string, o: Oracle)
    requires forall k :: 1 <= k <= MaxPasses ==> MeaningAt(o, k).Failed?
    ensures !ImproveFrom(1, prompt, response, o).success
  {
    SuccessIff(1, prompt, response, o);
  }

  /**
   * Since an unusable quality answer counts as valid, a quality validator
   * that never gives a usable verdict leaves the outcome to the score and
   * the meaning check: the loop succeeds exactly when some pass it reaches
   * scores at least 85 and gets a valid meaning verdict.
   */
  lemma {:induction false} SilentQualityPasses(prompt: string, response: string, o: Oracle)
    requires forall k :: 1 <= k <= MaxPasses ==> QualityAt(o, k).Failed? || QualityAt(o, k).parsed.None?
    ensures ImproveFrom(1, prompt, response, o).success <==>
      (exists k :: 1 <= k <= MaxPasses && Reaches(o, 1, k) && CorrectionAt(o, k).Answered? &&
        !Below(ScoreOf(CorrectionAt(o, k).parsed)) && MeaningOf(MeaningAt(o, k)).valid)
  {
    SuccessIff(1, prompt, response, o);
    forall k | 1 <= k <= MaxPasses
      ensures PassSucceeds(o, k) <==> (CorrectionAt(o, k).Answered? &&
        !Below(ScoreOf(CorrectionAt(o, k).parsed)) && MeaningOf(MeaningAt(o, k)).valid)
    {
      assert QualityOf(QualityAt(o, k)).valid;
    }
  }
}
