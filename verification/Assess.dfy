/** The assessment as the source runs it: one call counter and one flag shared by every phase. */
module Assess {
  import opened Wrappers
  import opened FuzzModel
  import Fuzzer
  import opened AssessModel
  import opened AssessTheorems

  class Assessor<T, S> {
    const o: Options<T, S>
    var graderCalls: nat
    var budgetExhausted: bool
    var anyCanaryGap: bool
    var anyOracleConfirmedGap: bool

    constructor (options: Options<T, S>)
      ensures o == options && Now() == Ledger(0, false) && !anyCanaryGap && !anyOracleConfirmedGap
    {
      o := options;
      graderCalls := 0;
      budgetExhausted := false;
      anyCanaryGap := false;
      anyOracleConfirmedGap := false;
    }

    ghost function Now(): Ledger
      reads this`graderCalls, this`budgetExhausted
    {
      Ledger(graderCalls, budgetExhausted)
    }

    /** One grade, or a refusal that is remembered. */
    method GradeOnce(task: T, submission: S) returns (reward: Option<real>)
      modifies this`graderCalls, this`budgetExhausted
      ensures o.budget.Reached(old(graderCalls)) ==> reward == None && Now() == Ledger(old(graderCalls), true)
      ensures !o.budget.Reached(old(graderCalls)) ==>
                && reward == Some(Clamp01(o.grader(old(graderCalls), task, submission)))
                && Now() == Ledger(old(graderCalls) + 1, old(budgetExhausted))
    {
      if o.budget.Reached(graderCalls) {
        budgetExhausted := true;
        return None;
      }
      var call := graderCalls;
      graderCalls := graderCalls + 1;
      reward := Some(Clamp01(o.grader(call, task, submission)));
    }

    /** Grading one pair up to `want` times. */
    method GradeRepeated(task: T, submission: S, want: nat) returns (rewards: seq<real>)
      modifies this`graderCalls, this`budgetExhausted
      ensures rewards == Graded(o, old(Now()), task, submission, want)
      ensures Now() == After(o, old(Now()), want)
    {
      rewards := [];
      var i := 0;
      while i < want
        invariant 0 <= i <= want && |rewards| == i
        invariant Now() == Ledger(old(graderCalls) + i, old(budgetExhausted))
        invariant forall j :: 0 <= j < i ==> rewards[j] == Clamp01(o.grader(old(graderCalls) + j, task, submission))
        invariant Affordable(o.budget, old(graderCalls), want) == i + Affordable(o.budget, graderCalls, want - i)
      {
        var reward := GradeOnce(task, submission);
        if reward.None? {
          break;
        }
        rewards := rewards + [reward.value];
        i := i + 1;
      }
    }

    /** The determinism check on one pair. */
    method CheckDeterminism() returns (nondeterministic: bool)
      requires Now() == Ledger(0, false)
      modifies this`graderCalls, this`budgetExhausted
      ensures (nondeterministic, Now()) == Determinism(o)
    {
      hide Graded, After, Variance;
      nondeterministic := false;
      if |o.tasks| > 0 && o.determinismSamples > 1 {
        var probeTask := o.tasks[0];
        var probe := o.ReferenceFor(probeTask);
        if probe.None? && |o.canaries| > 0 {
          probe := o.canaries[0].build(probeTask);
        }
        if probe.Some? {
          var observed := GradeRepeated(probeTask, probe.value, o.determinismSamples);
          nondeterministic := |observed| > 1 && Variance(observed) > 0.0;
        }
      }
    }

    method RunCanaries(task: T) returns (findings: seq<Finding>)
      modifies this`graderCalls, this`budgetExhausted, this`anyCanaryGap
      ensures (findings, Now()) == CanaryPhase(o, task, old(Now()), |o.canaries|)
      ensures anyCanaryGap == (old(anyCanaryGap) || HasOpen(findings))
    {
      hide Graded, After, Mean, Variance;
      findings := [];
      var k := 0;
      while k < |o.canaries|
        invariant 0 <= k <= |o.canaries|
        invariant (findings, Now()) == CanaryPhase(o, task, old(Now()), k)
        invariant anyCanaryGap == (old(anyCanaryGap) || HasOpen(findings))
      {
        var canary := o.canaries[k];
        var submission := canary.build(task);
        ghost var before := findings;
        if submission.None? {
          findings := findings + [Untested(canary.id, 0.0, CanaryDoesNotApply)];
        } else {
          var rewards := GradeRepeated(task, submission.value, o.Want());
          if rewards == [] {
            findings := findings + [Untested(canary.id, 0.0, BudgetBeforeCanary)];
          } else {
            var mean := Mean(rewards);
            var paid := mean > o.rewardThreshold;
            if paid {
              anyCanaryGap := true;
            }
            findings := findings + [
              Finding(canary.id, if paid then Open else Closed, mean, Some(0.0), Some(mean), Variance(rewards), |rewards|,
                      if paid then Some(PaidUnsolved(mean, canary.rationale)) else None)];
          }
        }
        HasOpenAppended(before, findings[|before|]);
        k := k + 1;
      }
    }

    method RunPerturbations(task: T) returns (findings: seq<Finding>)
      modifies this`graderCalls, this`budgetExhausted
      ensures (findings, Now()) == PerturbationPhase(o, task, old(Now()))
    {
      hide Graded, After, Mean, Variance;
      findings := [];
      var reference := o.ReferenceFor(task);
      var k := 0;
      if reference.None? {
        while k < |o.perturbations|
          invariant 0 <= k <= |o.perturbations| && |findings| == k && Now() == old(Now())
          invariant forall j :: 0 <= j < k ==> findings[j] == Untested(o.perturbations[j].name, 0.0, NoReference)
        {
          findings := findings + [Untested(o.perturbations[k].name, 0.0, NoReference)];
          k := k + 1;
        }
        assert findings == PerturbationPhase(o, task, old(Now())).0;
      } else {
        var baseline := GradeRepeated(task, reference.value, o.Want());
        ghost var l := Now();
        while k < |o.perturbations|
          invariant 0 <= k <= |o.perturbations|
          invariant (findings, Now()) == RewritePhase(o, task, reference.value, baseline, l, k)
        {
          var p := o.perturbations[k];
          var rewritten := p.apply(task, reference.value);
          if baseline == [] || rewritten.None? {
            findings := findings + [Untested(p.name, if baseline == [] then 0.0 else Mean(baseline),
                                             if baseline == [] then BudgetBeforeBaseline else RewriteDoesNotApply)];
            MeanOfNone(baseline);
          } else {
            var after := GradeRepeated(rewritten.value.0, rewritten.value.1, o.Want());
            if after == [] {
              findings := findings + [Untested(p.name, Mean(baseline), BudgetBeforeRewrite)];
            } else {
              var delta := Distance(Mean(after), Mean(baseline));
              var moved := delta > 0.0;
              findings := findings + [
                Finding(p.name, if moved then Open else Closed, Mean(after), None, None, Variance(after), |after|,
                        if moved then Some(RewardMoved(delta, p.rationale, p.assumption)) else None)];
            }
          }
          k := k + 1;
        }
      }
    }

    method SeedsFor(task: T) returns (seeds: seq<Seed<S>>)
      ensures seeds == Seeds(o.canaries, task)
    {
      seeds := [];
      var k := 0;
      while k < |o.canaries|
        invariant 0 <= k <= |o.canaries| && seeds == Seeds(o.canaries[..k], task)
      {
        var submission := o.canaries[k].build(task);
        if submission.Some? {
          seeds := seeds + [Seed(o.canaries[k].id, submission.value, true)];
        }
        k := k + 1;
        assert o.canaries[..k][..k - 1] == o.canaries[..k - 1];
      }
      assert o.canaries[..k] == o.canaries;
    }

    /** The fuzz phase; its calls are counted on the shared counter. */
    method RunFuzzing(task: T) returns (finding: Option<Finding>)
      modifies this`graderCalls, this`anyOracleConfirmedGap
      ensures (finding, Now()) == FuzzPhase(o, task, old(Now()))
      ensures anyOracleConfirmedGap == (old(anyOracleConfirmedGap) || HasOpen(Listed(finding)))
    {
      hide Scored, Summary, Seeds, Smaller;
      finding := None;
      if o.fuzz.Some? && Below(o.budget, graderCalls) {
        var seeds := SeedsFor(task);
        if seeds != [] {
          var result := Fuzzer.FuzzGrader(FuzzConfig(o, o.fuzz.value, task, graderCalls));
          graderCalls := graderCalls + result.graderCalls;
          if result.best.Some? && result.best.value.gap > o.rewardThreshold {
            var best := result.best.value;
            var confirmed := !best.gapIsAssumed && best.solve.Some?;
            if confirmed {
              anyOracleConfirmedGap := true;
            }
            finding := Some(Finding("fuzz", if confirmed then Open else Suspected, best.reward, best.solve, Some(best.gap), 0.0, 1,
                                    Some(if confirmed then MeasuredGap(best.reward, best.solve.value) else MutationMayHaveSolved)));
            assert Listed(finding)[0] == finding.value;
          }
        }
      }
    }

    method RunTasks() returns (perTask: seq<TaskAssessment>)
      requires !anyCanaryGap && !anyOracleConfirmedGap
      modifies this
      ensures (perTask, Now()) == AssessTasks(o, old(Now()), |o.tasks|)
      ensures anyCanaryGap == AnyCanaryOpen(perTask) && anyOracleConfirmedGap == AnyFuzzOpen(perTask)
    {
      hide CanaryPhase, PerturbationPhase, FuzzPhase, HasOpen, WorstGap, OpenChannels;
      perTask := [];
      var k := 0;
      while k < |o.tasks|
        invariant 0 <= k <= |o.tasks|
        invariant (perTask, Now()) == AssessTasks(o, old(Now()), k)
        invariant anyCanaryGap == AnyCanaryOpen(perTask) && anyOracleConfirmedGap == AnyFuzzOpen(perTask)
      {
        var task := o.tasks[k];
        var canaryFindings := RunCanaries(task);
        var perturbationFindings := RunPerturbations(task);
        var fuzzFinding := RunFuzzing(task);
        var t := TaskAssessment(o.taskId(task), canaryFindings, perturbationFindings, fuzzFinding,
                                WorstGap(canaryFindings, fuzzFinding), OpenChannels(canaryFindings + Listed(fuzzFinding)));
        AnyOpenAppended(perTask, t);
        perTask := perTask + [t];
        k := k + 1;
      }
    }
  }

  lemma HasOpenAppended(fs: seq<Finding>, f: Finding)
    ensures HasOpen(fs + [f]) <==> HasOpen(fs) || f.status.Open?
  {
    if HasOpen(fs) {
      var i :| 0 <= i < |fs| && fs[i].status.Open?;
      assert (fs + [f])[i].status.Open?;
    }
    assert (fs + [f])[|fs|] == f;
  }

  lemma AnyOpenAppended(ts: seq<TaskAssessment>, t: TaskAssessment)
    ensures AnyCanaryOpen(ts + [t]) <==> AnyCanaryOpen(ts) || HasOpen(t.canaryFindings)
    ensures AnyFuzzOpen(ts + [t]) <==> AnyFuzzOpen(ts) || HasOpen(Listed(t.fuzzFinding))
  {
    hide HasOpen;
    var all := ts + [t];
    assert all[|ts|] == t;
    if AnyCanaryOpen(ts) {
      var i :| 0 <= i < |ts| && HasOpen(ts[i].canaryFindings);
      assert HasOpen(all[i].canaryFindings);
    }
    if AnyFuzzOpen(ts) {
      var i :| 0 <= i < |ts| && HasOpen(Listed(ts[i].fuzzFinding));
      assert HasOpen(Listed(all[i].fuzzFinding));
    }
  }

  lemma MeanOfNone(xs: seq<real>)
    ensures xs == [] ==> Mean(xs) == 0.0
  {
  }

  datatype Overclaim = Overclaim(taskId: string, channel: string)

  /** Refuses a report in which some finding that is not closed lacks a caveat, naming the first such finding. */
  method AssertNoOverclaim(perTask: seq<TaskAssessment>) returns (error: Option<Overclaim>)
    ensures error.None? <==> NoOverclaim(perTask)
    ensures error.Some? ==>
              exists i, k :: 0 <= i < |perTask| && 0 <= k < |AllFindings(perTask[i])|
                             && NoOverclaim(perTask[..i]) && AllCaveated(AllFindings(perTask[i])[..k])
                             && !Caveated(AllFindings(perTask[i])[k])
                             && error.value == Overclaim(perTask[i].taskId, AllFindings(perTask[i])[k].channel)
  {
    var i := 0;
    while i < |perTask|
      invariant 0 <= i <= |perTask|
      invariant forall j :: 0 <= j < i ==> AllCaveated(AllFindings(perTask[j]))
    {
      var all := AllFindings(perTask[i]);
      var k := 0;
      while k < |all|
        invariant 0 <= k <= |all| && AllCaveated(all[..k])
      {
        if !all[k].status.Closed? && all[k].caveat.None? {
          forall j | 0 <= j < i ensures AllCaveated(perTask[..i][j].canaryFindings)
                                        && AllCaveated(perTask[..i][j].perturbationFindings)
                                        && AllCaveated(Listed(perTask[..i][j].fuzzFinding)) {
            AllFindingsCaveated(perTask[j]);
          }
          AllFindingsCaveated(perTask[i]);
          return Some(Overclaim(perTask[i].taskId, all[k].channel));
        }
        k := k + 1;
      }
      assert all[..k] == all;
      i := i + 1;
    }
    forall j | 0 <= j < |perTask| ensures AllCaveated(perTask[j].canaryFindings)
                                          && AllCaveated(perTask[j].perturbationFindings)
                                          && AllCaveated(Listed(perTask[j].fuzzFinding)) {
      AllFindingsCaveated(perTask[j]);
    }
    error := None;
  }

  function AllFindings(t: TaskAssessment): seq<Finding> {
    t.canaryFindings + t.perturbationFindings + Listed(t.fuzzFinding)
  }

  lemma AllFindingsCaveated(t: TaskAssessment)
    ensures AllCaveated(AllFindings(t)) <==>
            AllCaveated(t.canaryFindings) && AllCaveated(t.perturbationFindings) && AllCaveated(Listed(t.fuzzFinding))
  {
    var n := |t.canaryFindings|;
    var all := AllFindings(t);
    assert forall k :: 0 <= k < n ==> all[k] == t.canaryFindings[k];
    assert forall k :: 0 <= k < |t.perturbationFindings| ==> all[n + k] == t.perturbationFindings[k];
    assert t.fuzzFinding.Some? ==> all[n + |t.perturbationFindings|] == t.fuzzFinding.value;
  }

  /** An assessment goes out only past the overclaim check. */
  method Publish(a: Assessment) returns (r: Result<Assessment, Overclaim>)
    ensures r.Ok? <==> NoOverclaim(a.report.perTask)
    ensures r.Ok? ==> r.value == a
  {
    var error := AssertNoOverclaim(a.report.perTask);
    if error.Some? {
      return Err(error.value);
    }
    r := Ok(a);
  }

  /** The overclaim check never rejects the report that an assessment builds. */
  method AssessVerifier<T, S>(o: Options<T, S>) returns (r: Result<Assessment, Overclaim>)
    ensures r == Ok(AssessmentOf(o))
  {
    hide Determinism, AssessTasks, Limitations, NoOverclaim;
    var assessor := new Assessor(o);
    var nondeterministic := assessor.CheckDeterminism();
    var perTask := assessor.RunTasks();
    var gaps := WorstGaps(perTask);
    var exploitableGap := if gaps == [] then 0.0 else MaxOf(gaps);
    var basis := if assessor.anyOracleConfirmedGap then MeasuredWithOracle
                 else if assessor.anyCanaryGap then CanaryConstruction else NotEstablished;
    var report := Report(|o.tasks|, assessor.graderCalls, CountOpen(perTask), CountMoved(perTask), CountPerturbed(perTask),
                         nondeterministic, perTask, Limitations(o, perTask, assessor.budgetExhausted, nondeterministic));
    ReportShape(o);
    r := Publish(Assessment(report, exploitableGap, basis, Clamp01(Finite(1.0 - exploitableGap))));
  }
}
