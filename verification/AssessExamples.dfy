/** Small assessments on which the report of packages/server/src/robustness/assess.ts says less, or more, than it established. */
module AssessExamples {
  import opened Wrappers
  import opened FuzzModel
  import opened AssessModel
  import AssessTheorems

  /** One task, one canary, one mutator that changes nothing; what is paid depends on the call number only. */
  function Small(pays: nat -> real, threshold: real, budget: Budget, callsPerTask: Budget): Options<int, int> {
    Options([0], (t: int) => "task", (k: nat, t: int, s: int) => Finite(pays(k)),
            [Canary("empty", "", (t: int) => Some(0))], [], None, None, 1, 1, threshold, budget,
            Some(FuzzOptions([Mutator("same", (s: int) => Some(s))], callsPerTask, 1)))
  }

  function FirstFinding(reward: real, threshold: real): Finding {
    Finding("empty", if reward > threshold then Open else Closed, reward, Some(0.0), Some(reward), 0.0, 1,
            if reward > threshold then Some(PaidUnsolved(reward, "")) else None)
  }

  /** The assessment up to the fuzz phase. */
  lemma SmallRun(pays: nat -> real, threshold: real, budget: Budget, callsPerTask: Budget)
    requires 0.0 <= pays(0) <= 1.0 && !budget.Reached(0)
    ensures var o := Small(pays, threshold, budget, callsPerTask);
            var f := FirstFinding(pays(0), threshold);
            var fuzz := FuzzPhase(o, 0, Ledger(1, false));
            AssessmentOf(o) == AssessmentFrom(o, false,
              [TaskAssessment("task", [f], [], fuzz.0, WorstGap([f], fuzz.0), OpenChannels([f] + Listed(fuzz.0)))], fuzz.1)
  {
    hide FuzzPhase, AssessmentFrom, WorstGap, OpenChannels;
    var o := Small(pays, threshold, budget, callsPerTask);
    var start := Ledger(0, false);
    assert Determinism(o) == (false, start);
    var f := FirstFinding(pays(0), threshold);
    SmallCanary(pays, threshold, budget, callsPerTask);
    assert CanaryPhase(o, 0, start, 0) == ([], start);
    assert [] + [f] == [f];
    assert CanaryPhase(o, 0, start, 1) == ([f], Ledger(1, false));
    assert PerturbationPhase(o, 0, Ledger(1, false)).0 == [];
    var t := AssessTask(o, 0, start);
    assert AssessTasks(o, start, 0) == ([], start);
    assert [] + [t.0] == [t.0];
    assert AssessTasks(o, start, 1) == ([t.0], t.1);
  }

  lemma SmallCanary(pays: nat -> real, threshold: real, budget: Budget, callsPerTask: Budget)
    requires 0.0 <= pays(0) <= 1.0 && !budget.Reached(0)
    ensures var o := Small(pays, threshold, budget, callsPerTask);
            CanaryFinding(o, 0, o.canaries[0], Ledger(0, false)) == (FirstFinding(pays(0), threshold), Ledger(1, false))
  {
    var o := Small(pays, threshold, budget, callsPerTask);
    assert Affordable(budget, 0, 1) == 1;
    var xs := Graded(o, Ledger(0, false), 0, 0, 1);
    assert |xs| == 1 && xs[0] == Clamp01(o.grader(0, 0, 0)) == pays(0);
    assert xs[..0] == [];
    assert Sum(xs) == pays(0);
    assert Mean(xs) == pays(0);
  }

  /** What a report on one task makes of it. */
  lemma OneTaskReport(o: Options<int, int>, t: TaskAssessment, l: Ledger)
    ensures var a := AssessmentFrom(o, false, [t], l);
            && a.report.perTask == [t] && a.report.graderCalls == l.graderCalls
            && a.exploitableGap == (if t.worstGap.Some? then t.worstGap.value else 0.0)
            && (!HasOpen(t.canaryFindings) && !HasOpen(Listed(t.fuzzFinding)) ==> a.basis.NotEstablished?)
            && (BudgetExhausted in a.report.limitations <==> l.budgetExhausted)
            && (FuzzingDisabled in a.report.limitations <==> o.fuzz.None?)
  {
    hide CountOpen, CountMoved, CountPerturbed, Limitations;
    assert [t][1..] == [];
    assert WorstGaps([t]) == if t.worstGap.Some? then [t.worstGap.value] else [];
    AssessTheorems.LimitationLines(o, [t], l.budgetExhausted, false);
  }

  /** What the fuzz phase scores there when its own cap is not a number: the seed and its one mutation. */
  lemma SmallFuzz(pays: nat -> real, threshold: real, budget: Budget, callsPerTask: Budget)
    requires budget.Limit? || budget.Unlimited?
    requires callsPerTask.NotANumber? || (callsPerTask.Unlimited? && budget.Unlimited?)
    requires 0.0 <= pays(1) <= 1.0 && pays(2) == pays(1)
    ensures var o := Small(pays, threshold, budget, callsPerTask);
            var s := Summary(FuzzConfig(o, o.fuzz.value, 0, 1), Scored(FuzzConfig(o, o.fuzz.value, 0, 1)));
            s.graderCalls == 2 && s.best == Some(Point(0, pays(1), None, pays(1), true, ["empty"]))
  {
    hide PointAt;
    var o := Small(pays, threshold, budget, callsPerTask);
    var c := FuzzConfig(o, o.fuzz.value, 0, 1);
    assert c.seeds == [Seed("empty", 0, true)] by {
      assert o.canaries[..0] == [];
    }
    var first := SeedStep(c, 0, 0);
    var second := MoveStep(c, 1, first, 0, 0, 0);
    PointOf(pays, threshold, budget, callsPerTask, 0, ["empty"]);
    PointOf(pays, threshold, budget, callsPerTask, 1, ["empty"] + ["same"]);
    assert [] + [first] == [first] && [first] + [second] == [first, second];
    assert Round(c, [first, second], 0, 1) == [first, second];
    assert Round(c, [first], 0, 0) == [first, second];
    BestOfTwo(first, second);
    assert Climb(c, [first], 0, 1) == [first, second];
    assert Search(c, [first, second], 1) == [first, second];
  }

  lemma PointOf(pays: nat -> real, threshold: real, budget: Budget, callsPerTask: Budget, call: nat, lineage: seq<string>)
    requires 0.0 <= pays(1 + call) <= 1.0
    ensures var o := Small(pays, threshold, budget, callsPerTask);
            PointAt(FuzzConfig(o, o.fuzz.value, 0, 1), call, 0, true, lineage) == Point(0, pays(1 + call), None, pays(1 + call), true, lineage)
  {
  }

  lemma BestOfTwo<S>(first: Step<S>, second: Step<S>)
    requires second.point.gap <= first.point.gap
    ensures Best([first, second], 0) == Some(0) && Best([first, second], 1) == Some(1)
  {
  }

  /** The cap of two calls is overrun when the per-task fuzzing cap is not a number. */
  lemma NotANumberOverruns()
    ensures AssessmentOf(Small((k: nat) => 0.25, 0.5, Limit(2.0), NotANumber)).report.graderCalls == 3
  {
    hide AssessmentOf, AssessmentFrom, Scored, Cleared, BestPoint, WorstGap, OpenChannels;
    var pays := (k: nat) => 0.25;
    SmallRun(pays, 0.5, Limit(2.0), NotANumber);
    SmallFuzz(pays, 0.5, Limit(2.0), NotANumber);
    var o := Small(pays, 0.5, Limit(2.0), NotANumber);
    SmallSeeded(o);
    var f, fuzz := FirstFinding(0.25, 0.5), FuzzPhase(o, 0, Ledger(1, false));
    OneTaskReport(o, TaskAssessment("task", [f], [], fuzz.0, WorstGap([f], fuzz.0), OpenChannels([f] + Listed(fuzz.0))), fuzz.1);
  }

  lemma SmallSeeded(o: Options<int, int>)
    requires |o.canaries| == 1 && o.canaries[0].build(0).Some?
    ensures Seeds(o.canaries, 0) != []
  {
  }

  /**
   * The canary used up the budget and fuzzing never ran, and no limitation says so. The canary was paid less than the
   * threshold, so it is closed, and its reward is still the exploitable gap of a report that says none was established.
   */
  lemma SkippedFuzzingUnreported()
    ensures var a := AssessmentOf(Small((k: nat) => 0.25, 0.5, Limit(1.0), Limit(40.0)));
            && a.report.graderCalls == 1
            && BudgetExhausted !in a.report.limitations && FuzzingDisabled !in a.report.limitations
            && a.exploitableGap == 0.25 && a.basis.NotEstablished?
  {
    hide AssessmentOf, AssessmentFrom, OpenChannels;
    var pays := (k: nat) => 0.25;
    SmallRun(pays, 0.5, Limit(1.0), Limit(40.0));
    var f := FirstFinding(0.25, 0.5);
    assert [f] + Listed(None) == [f] && [f][1..] == [];
    assert PositiveGaps([f]) == [0.25];
    OneTaskReport(Small(pays, 0.5, Limit(1.0), Limit(40.0)),
                  TaskAssessment("task", [f], [], None, Some(0.25), OpenChannels([f])), Ledger(1, false));
  }

  /** A gap that is only suspected, for want of an oracle, is still the exploitable gap of a report that says none was established. */
  lemma SuspectedGapCounts()
    ensures var a := AssessmentOf(Small((k: nat) => if k == 0 then 0.0 else 0.25, 0.0, Unlimited, Unlimited));
            a.exploitableGap == 0.25 && a.basis.NotEstablished?
  {
    hide AssessmentOf, AssessmentFrom, Scored, Cleared, BestPoint, OpenChannels;
    var pays := (k: nat) => if k == 0 then 0.0 else 0.25;
    SmallRun(pays, 0.0, Unlimited, Unlimited);
    SmallFuzz(pays, 0.0, Unlimited, Unlimited);
    var o := Small(pays, 0.0, Unlimited, Unlimited);
    SmallSeeded(o);
    var f := FirstFinding(0.0, 0.0);
    var g := Finding("fuzz", Suspected, 0.25, None, Some(0.25), 0.0, 1, Some(MutationMayHaveSolved));
    assert FuzzPhase(o, 0, Ledger(1, false)) == (Some(g), Ledger(3, false));
    TwoGaps(f, g);
    OneTaskReport(o, TaskAssessment("task", [f], [], Some(g), Some(0.25), OpenChannels([f] + Listed(Some(g)))), Ledger(3, false));
  }

  lemma TwoGaps(f: Finding, g: Finding)
    requires f.gap == Some(0.0) && g.gap == Some(0.25)
    ensures WorstGap([f], Some(g)) == Some(0.25)
  {
    assert [f] + Listed(Some(g)) == [f, g];
    assert [f, g][1..] == [g] && [g][1..] == [];
    assert PositiveGaps([g]) == [0.25];
    assert PositiveGaps([f, g]) == [] + PositiveGaps([g]);
  }
}
