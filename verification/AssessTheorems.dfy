/** What every assessment report keeps, whatever a grader answers. */
module AssessTheorems {
  import opened Wrappers
  import opened FuzzModel
  import FuzzerTheorems
  import opened AssessModel

  // ---- Means and variances ----

  lemma {:induction false} SumBounds(xs: seq<real>)
    requires forall i :: 0 <= i < |xs| ==> 0.0 <= xs[i] <= 1.0
    ensures 0.0 <= Sum(xs) <= |xs| as real
  {
    if xs != [] {
      SumBounds(xs[..|xs| - 1]);
    }
  }

  lemma MeanBounds(xs: seq<real>)
    requires forall i :: 0 <= i < |xs| ==> 0.0 <= xs[i] <= 1.0
    ensures 0.0 <= Mean(xs) <= 1.0
  {
    SumBounds(xs);
    if xs != [] {
      QuotientBounds(Sum(xs), |xs| as real);
    }
  }

  lemma QuotientBounds(s: real, n: real)
    requires n > 0.0 && 0.0 <= s <= n
    ensures 0.0 <= s / n <= 1.0
  {
  }

  lemma {:induction false} SumOfSame(xs: seq<real>, x: real)
    requires forall i :: 0 <= i < |xs| ==> xs[i] == x
    ensures Sum(xs) == |xs| as real * x
  {
    if xs != [] {
      SumOfSame(xs[..|xs| - 1], x);
    }
  }

  lemma {:induction false} SumOfNonNegative(xs: seq<real>)
    requires forall i :: 0 <= i < |xs| ==> xs[i] >= 0.0
    ensures Sum(xs) >= 0.0
    ensures Sum(xs) == 0.0 <==> forall i :: 0 <= i < |xs| ==> xs[i] == 0.0
  {
    if xs != [] {
      var n := |xs| - 1;
      SumOfNonNegative(xs[..n]);
      assert forall i :: 0 <= i < n ==> xs[..n][i] == xs[i];
    }
  }

  lemma SquareZero(x: real)
    ensures x * x >= 0.0 && (x * x == 0.0 <==> x == 0.0)
  {
    if x != 0.0 {
      assert x * x / x == x;
    }
  }

  lemma QuotientSign(s: real, n: real)
    requires n > 0.0 && s >= 0.0
    ensures s / n >= 0.0 && (s / n == 0.0 <==> s == 0.0)
  {
  }

  lemma MeanOfSame(xs: seq<real>, x: real)
    requires xs != [] && forall i :: 0 <= i < |xs| ==> xs[i] == x
    ensures Mean(xs) == x
  {
    SumOfSame(xs, x);
    var n := |xs| as real;
    assert (n * x) / n == x;
  }

  /** The spread is positive exactly when two observations differ. */
  lemma VarianceSees(xs: seq<real>)
    ensures Variance(xs) >= 0.0
    ensures Variance(xs) > 0.0 <==> exists i, j :: 0 <= i < j < |xs| && xs[i] != xs[j]
  {
    if |xs| >= 2 {
      var m := Mean(xs);
      var ds := SquaredDistances(xs, m);
      forall i | 0 <= i < |xs| ensures ds[i] >= 0.0 && (ds[i] == 0.0 <==> xs[i] == m) {
        SquareZero(xs[i] - m);
      }
      SumOfNonNegative(ds);
      QuotientSign(Sum(ds), |ds| as real);
      if Variance(xs) == 0.0 {
        assert forall i :: 0 <= i < |xs| ==> ds[i] == 0.0;
      } else if forall i, j :: 0 <= i < j < |xs| ==> xs[i] == xs[j] {
        forall i | 0 <= i < |xs| ensures xs[i] == xs[0] {
        }
        MeanOfSame(xs, xs[0]);
        assert false;
      }
    }
  }

  /** A grader is reported nondeterministic exactly when two of the grades taken of the probe pair differ. */
  lemma NondeterministicExactly<T, S>(o: Options<T, S>)
    ensures AssessmentOf(o).report.nondeterministic <==>
            && DeterminismProbe(o).Some?
            && exists i, j :: 0 <= i < j < Affordable(o.budget, 0, o.determinismSamples)
                              && Clamp01(o.grader(i, o.tasks[0], DeterminismProbe(o).value))
                                 != Clamp01(o.grader(j, o.tasks[0], DeterminismProbe(o).value))
  {
    hide AssessmentFrom, AssessTasks, DeterminismProbe, Graded, Variance, Affordable;
    ReportedAsProbed(o);
    match DeterminismProbe(o)
    case None =>
    case Some(s) =>
      var start := Ledger(0, false);
      var observed := Graded(o, start, o.tasks[0], s, o.determinismSamples);
      GradedMeaning(o, start, o.tasks[0], s, o.determinismSamples);
      VarianceSees(observed);
      if Determinism(o).0 {
        var i, j :| 0 <= i < j < |observed| && observed[i] != observed[j];
        assert Clamp01(o.grader(i, o.tasks[0], s)) != Clamp01(o.grader(j, o.tasks[0], s));
      } else {
        forall i, j | 0 <= i < j < |observed| ensures Clamp01(o.grader(i, o.tasks[0], s)) == Clamp01(o.grader(j, o.tasks[0], s)) {
          assert observed[i] == observed[j];
        }
      }
  }

  lemma ReportedAsProbed<T, S>(o: Options<T, S>)
    ensures AssessmentOf(o).report.nondeterministic == Determinism(o).0
  {
  }

  lemma GradedMeaning<T, S>(o: Options<T, S>, l: Ledger, task: T, submission: S, want: nat)
    ensures var xs := Graded(o, l, task, submission, want);
            && |xs| == Affordable(o.budget, l.graderCalls, want)
            && forall i :: 0 <= i < |xs| ==> xs[i] == Clamp01(o.grader(l.graderCalls + i, task, submission)) && 0.0 <= xs[i] <= 1.0
  {
  }

  // ---- Where each finding comes from ----

  lemma {:induction false} CanaryAt<T, S>(o: Options<T, S>, task: T, l: Ledger, k: nat, i: nat)
    requires i < k <= |o.canaries|
    ensures |CanaryPhase(o, task, l, k).0| == k
    ensures CanaryPhase(o, task, l, k).0[i] == CanaryFinding(o, task, o.canaries[i], CanaryPhase(o, task, l, i).1).0
    decreases k
  {
    hide CanaryFinding;
    CanaryCount(o, task, l, k - 1);
    if i < k - 1 {
      CanaryAt(o, task, l, k - 1, i);
    }
  }

  lemma {:induction false} CanaryCount<T, S>(o: Options<T, S>, task: T, l: Ledger, k: nat)
    requires k <= |o.canaries|
    ensures |CanaryPhase(o, task, l, k).0| == k
  {
    if k > 0 {
      CanaryCount(o, task, l, k - 1);
    }
  }

  lemma {:induction false} RewriteAt<T, S>(o: Options<T, S>, task: T, s: S, b: seq<real>, l: Ledger, k: nat, i: nat)
    requires i < k <= |o.perturbations|
    ensures |RewritePhase(o, task, s, b, l, k).0| == k
    ensures RewritePhase(o, task, s, b, l, k).0[i]
         == PerturbationFinding(o, task, s, b, o.perturbations[i], RewritePhase(o, task, s, b, l, i).1).0
    decreases k
  {
    hide PerturbationFinding;
    RewriteCount(o, task, s, b, l, k - 1);
    if i < k - 1 {
      RewriteAt(o, task, s, b, l, k - 1, i);
    }
  }

  lemma {:induction false} RewriteCount<T, S>(o: Options<T, S>, task: T, s: S, b: seq<real>, l: Ledger, k: nat)
    requires k <= |o.perturbations|
    ensures |RewritePhase(o, task, s, b, l, k).0| == k
  {
    if k > 0 {
      RewriteCount(o, task, s, b, l, k - 1);
    }
  }

  lemma {:induction false} TaskAt<T, S>(o: Options<T, S>, l: Ledger, k: nat, i: nat)
    requires i < k <= |o.tasks|
    ensures |AssessTasks(o, l, k).0| == k
    ensures AssessTasks(o, l, k).0[i] == AssessTask(o, o.tasks[i], AssessTasks(o, l, i).1).0
    decreases k
  {
    hide AssessTask;
    TaskCount(o, l, k - 1);
    if i < k - 1 {
      TaskAt(o, l, k - 1, i);
    }
  }

  lemma {:induction false} TaskCount<T, S>(o: Options<T, S>, l: Ledger, k: nat)
    requires k <= |o.tasks|
    ensures |AssessTasks(o, l, k).0| == k
  {
    hide AssessTask;
    if k > 0 {
      TaskCount(o, l, k - 1);
    }
  }

  /** What a canary finding says. */
  lemma CanaryMeaning<T, S>(o: Options<T, S>, task: T, canary: Canary<T, S>, l: Ledger)
    ensures var f := CanaryFinding(o, task, canary, l).0;
            && f.channel == canary.id
            && !f.status.Suspected?
            && (f.status.NotTested? <==> f.repeats == 0)
            && (f.status.NotTested? <==> f.gap.None?)
            && (f.gap.Some? ==> f.gap.value == f.reward)
            && (f.status.Open? <==> f.gap.Some? && f.gap.value > o.rewardThreshold)
            && 0.0 <= f.reward <= 1.0
            && (f.status.Closed? <==> f.caveat.None?)
  {
    hide Mean, Variance, Affordable, Graded;
    if canary.build(task).Some? {
      GradedMeaning(o, l, task, canary.build(task).value, o.Want());
      MeanBounds(Graded(o, l, task, canary.build(task).value, o.Want()));
    }
  }

  lemma PerturbationMeaning<T, S>(o: Options<T, S>, task: T, s: S, b: seq<real>, p: Perturbation<T, S>, l: Ledger)
    ensures var f := PerturbationFinding(o, task, s, b, p, l).0;
            && f.channel == p.name
            && !f.status.Suspected?
            && (f.status.NotTested? <==> f.repeats == 0)
            && (f.status.Open? <==> !f.status.NotTested? && f.reward != Mean(b))
            && f.gap.None?
            && (f.status.Closed? <==> f.caveat.None?)
  {
    hide Mean, Variance, Affordable;
  }

  // ---- No report overclaims ----

  predicate Caveated(f: Finding) {
    f.status.Closed? || f.caveat.Some?
  }

  predicate AllCaveated(fs: seq<Finding>) {
    forall i :: 0 <= i < |fs| ==> Caveated(fs[i])
  }

  predicate NoOverclaim(ts: seq<TaskAssessment>) {
    forall i :: 0 <= i < |ts| ==>
                  AllCaveated(ts[i].canaryFindings) && AllCaveated(ts[i].perturbationFindings) && AllCaveated(Listed(ts[i].fuzzFinding))
  }

  lemma PerturbationPhaseMeaning<T, S>(o: Options<T, S>, task: T, l: Ledger)
    ensures var fs := PerturbationPhase(o, task, l).0;
            && |fs| == |o.perturbations|
            && AllCaveated(fs)
            && forall i :: 0 <= i < |fs| ==>
                             && fs[i].channel == o.perturbations[i].name
                             && fs[i].gap.None?
                             && (fs[i].status.NotTested? <==> fs[i].repeats == 0)
  {
    hide PerturbationFinding, RewritePhase, Graded, After;
    var fs := PerturbationPhase(o, task, l).0;
    match o.ReferenceFor(task)
    case None =>
    case Some(s) =>
      var b, a := Graded(o, l, task, s, o.Want()), After(o, l, o.Want());
      RewriteCount(o, task, s, b, a, |o.perturbations|);
      forall i | 0 <= i < |o.perturbations|
        ensures fs[i].channel == o.perturbations[i].name && fs[i].gap.None? && Caveated(fs[i])
        ensures fs[i].status.NotTested? <==> fs[i].repeats == 0
      {
        RewriteAt(o, task, s, b, a, |o.perturbations|, i);
        PerturbationMeaning(o, task, s, b, o.perturbations[i], RewritePhase(o, task, s, b, a, i).1);
      }
  }

  lemma CanaryPhaseMeaning<T, S>(o: Options<T, S>, task: T, l: Ledger)
    ensures var fs := CanaryPhase(o, task, l, |o.canaries|).0;
            && |fs| == |o.canaries|
            && AllCaveated(fs)
            && forall i :: 0 <= i < |fs| ==>
                             && fs[i].channel == o.canaries[i].id
                             && 0.0 <= fs[i].reward <= 1.0
                             && (fs[i].gap.Some? ==> fs[i].gap.value == fs[i].reward)
                             && (fs[i].status.Open? <==> fs[i].gap.Some? && fs[i].gap.value > o.rewardThreshold)
                             && (fs[i].status.NotTested? <==> fs[i].repeats == 0)
  {
    hide CanaryFinding, CanaryPhase;
    CanaryCount(o, task, l, |o.canaries|);
    var fs := CanaryPhase(o, task, l, |o.canaries|).0;
    forall i | 0 <= i < |fs|
      ensures fs[i].channel == o.canaries[i].id && 0.0 <= fs[i].reward <= 1.0 && Caveated(fs[i])
      ensures fs[i].gap.Some? ==> fs[i].gap.value == fs[i].reward
      ensures fs[i].status.Open? <==> fs[i].gap.Some? && fs[i].gap.value > o.rewardThreshold
      ensures fs[i].status.NotTested? <==> fs[i].repeats == 0
    {
      CanaryAt(o, task, l, |o.canaries|, i);
      CanaryMeaning(o, task, o.canaries[i], CanaryPhase(o, task, l, i).1);
    }
  }

  /** A fuzz finding is open when there is an oracle and only suspected when there is none; its gap is above the threshold and at most 1. */
  lemma FuzzMeaning<T, S>(o: Options<T, S>, task: T, l: Ledger)
    ensures var f := FuzzPhase(o, task, l).0;
            f.Some? ==>
              && o.fuzz.Some?
              && f.value.channel == "fuzz"
              && f.value.status == (if o.oracle.Some? then Open else Suspected)
              && f.value.gap.Some? && o.rewardThreshold < f.value.gap.value <= 1.0
              && f.value.caveat.Some?
  {
    hide Scored, PointAt, Seeds, Smaller;
    if o.fuzz.Some? {
      var c := FuzzConfig(o, o.fuzz.value, task, l.graderCalls);
      var trace := Scored(c);
      if trace != [] {
        var b := Best(trace, 0).value;
        FuzzerTheorems.AssumedExactly(c, b);
        SeedsUnsolving(o, task);
      }
    }
  }

  lemma SeedsUnsolving<T, S>(o: Options<T, S>, task: T)
    ensures forall i :: 0 <= i < |Seeds(o.canaries, task)| ==> Seeds(o.canaries, task)[i].provablyUnsolving
  {
  }

  /** Every task has one finding per canary and per perturbation, in order, and whatever is not closed carries a caveat. */
  lemma ReportShape<T, S>(o: Options<T, S>)
    ensures var ts := AssessmentOf(o).report.perTask;
            && |ts| == |o.tasks|
            && NoOverclaim(ts)
            && forall i :: 0 <= i < |ts| ==>
                             && ts[i].taskId == o.taskId(o.tasks[i])
                             && |ts[i].canaryFindings| == |o.canaries|
                             && (forall k :: 0 <= k < |o.canaries| ==> ts[i].canaryFindings[k].channel == o.canaries[k].id)
                             && |ts[i].perturbationFindings| == |o.perturbations|
                             && (forall k :: 0 <= k < |o.perturbations| ==> ts[i].perturbationFindings[k].channel == o.perturbations[k].name)
  {
    hide Determinism, CanaryPhase, PerturbationPhase, FuzzPhase, AssessTasks;
    var start := Determinism(o).1;
    var ts := AssessTasks(o, start, |o.tasks|).0;
    TaskCount(o, start, |o.tasks|);
    forall i | 0 <= i < |ts|
      ensures ts[i].taskId == o.taskId(o.tasks[i])
      ensures |ts[i].canaryFindings| == |o.canaries|
      ensures forall k :: 0 <= k < |o.canaries| ==> ts[i].canaryFindings[k].channel == o.canaries[k].id
      ensures |ts[i].perturbationFindings| == |o.perturbations|
      ensures forall k :: 0 <= k < |o.perturbations| ==> ts[i].perturbationFindings[k].channel == o.perturbations[k].name
      ensures AllCaveated(ts[i].canaryFindings) && AllCaveated(ts[i].perturbationFindings) && AllCaveated(Listed(ts[i].fuzzFinding))
    {
      TaskAt(o, start, |o.tasks|, i);
      var l := AssessTasks(o, start, i).1;
      var task := o.tasks[i];
      CanaryPhaseMeaning(o, task, l);
      var l1 := CanaryPhase(o, task, l, |o.canaries|).1;
      PerturbationPhaseMeaning(o, task, l1);
      FuzzMeaning(o, task, PerturbationPhase(o, task, l1).1);
    }
  }

  // ---- The shared budget ----

  /** No call was made once the budget was reached, and a refusal means it was. */
  ghost predicate Within(b: Budget, l: Ledger) {
    && (l.graderCalls > 0 ==> !b.Reached(l.graderCalls - 1))
    && (l.budgetExhausted ==> b.Reached(l.graderCalls))
  }

  lemma {:induction false} AffordableMeaning(b: Budget, calls: nat, want: nat)
    ensures var k := Affordable(b, calls, want);
            && (k < want ==> b.Reached(calls + k))
            && (k > 0 ==> !b.Reached(calls + k - 1))
    decreases want
  {
    if want > 0 && !b.Reached(calls) {
      AffordableMeaning(b, calls + 1, want - 1);
    }
  }

  lemma AfterWithin<T, S>(o: Options<T, S>, l: Ledger, want: nat)
    requires Within(o.budget, l)
    ensures Within(o.budget, After(o, l, want))
  {
    hide Affordable;
    AffordableMeaning(o.budget, l.graderCalls, want);
    var k := Affordable(o.budget, l.graderCalls, want);
    if l.budgetExhausted {
      assert k == 0 by {
        AffordableNone(o.budget, l.graderCalls, want);
      }
    }
  }

  lemma AffordableNone(b: Budget, calls: nat, want: nat)
    requires b.Reached(calls)
    ensures Affordable(b, calls, want) == 0
  {
  }

  lemma {:induction false} CanaryPhaseWithin<T, S>(o: Options<T, S>, task: T, l: Ledger, k: nat)
    requires k <= |o.canaries| && Within(o.budget, l)
    ensures Within(o.budget, CanaryPhase(o, task, l, k).1)
  {
    hide Within, After;
    if k > 0 {
      CanaryPhaseWithin(o, task, l, k - 1);
      AfterWithin(o, CanaryPhase(o, task, l, k - 1).1, o.Want());
    }
  }

  lemma {:induction false} RewritePhaseWithin<T, S>(o: Options<T, S>, task: T, s: S, b: seq<real>, l: Ledger, k: nat)
    requires k <= |o.perturbations| && Within(o.budget, l)
    ensures Within(o.budget, RewritePhase(o, task, s, b, l, k).1)
  {
    hide Within, After;
    if k > 0 {
      RewritePhaseWithin(o, task, s, b, l, k - 1);
      AfterWithin(o, RewritePhase(o, task, s, b, l, k - 1).1, o.Want());
    }
  }

  lemma SmallerReached(a: Budget, b: Budget, calls: nat)
    requires !a.NotANumber? && !b.NotANumber?
    ensures Smaller(a, b).Reached(calls) <==> a.Reached(calls) || b.Reached(calls)
  {
  }

  /** The per-task fuzzing cap is a number, or there is no fuzzing. */
  predicate FuzzCapIsNumber<T, S>(o: Options<T, S>) {
    o.fuzz.Some? ==> !o.fuzz.value.callsPerTask.NotANumber?
  }

  lemma FuzzPhaseWithin<T, S>(o: Options<T, S>, task: T, l: Ledger)
    requires Within(o.budget, l) && FuzzCapIsNumber(o)
    ensures Within(o.budget, FuzzPhase(o, task, l).1)
  {
    hide Scored, Smaller, Seeds;
    if o.fuzz.Some? && Below(o.budget, l.graderCalls) {
      var c := FuzzConfig(o, o.fuzz.value, task, l.graderCalls);
      var n := |Scored(c)|;
      if n > 0 {
        FuzzerTheorems.ScoredSound(c);
        assert FuzzerTheorems.StepSound(c, Scored(c), n - 1);
        SmallerReached(o.fuzz.value.callsPerTask, Remaining(o.budget, l.graderCalls), n - 1);
      }
    }
  }

  lemma PerturbationPhaseWithin<T, S>(o: Options<T, S>, task: T, l: Ledger)
    requires Within(o.budget, l)
    ensures Within(o.budget, PerturbationPhase(o, task, l).1)
  {
    hide Within, After, RewritePhase, Graded;
    if o.ReferenceFor(task).Some? {
      var s := o.ReferenceFor(task).value;
      AfterWithin(o, l, o.Want());
      RewritePhaseWithin(o, task, s, Graded(o, l, task, s, o.Want()), After(o, l, o.Want()), |o.perturbations|);
    }
  }

  lemma TaskWithin<T, S>(o: Options<T, S>, task: T, l: Ledger)
    requires Within(o.budget, l) && FuzzCapIsNumber(o)
    ensures Within(o.budget, AssessTask(o, task, l).1)
  {
    hide Within, CanaryPhase, PerturbationPhase, FuzzPhase, WorstGap, OpenChannels;
    CanaryPhaseWithin(o, task, l, |o.canaries|);
    var l1 := CanaryPhase(o, task, l, |o.canaries|).1;
    PerturbationPhaseWithin(o, task, l1);
    FuzzPhaseWithin(o, task, PerturbationPhase(o, task, l1).1);
  }

  lemma {:induction false} TasksWithin<T, S>(o: Options<T, S>, l: Ledger, k: nat)
    requires k <= |o.tasks| && Within(o.budget, l) && FuzzCapIsNumber(o)
    ensures Within(o.budget, AssessTasks(o, l, k).1)
  {
    hide Within, AssessTask;
    if k > 0 {
      TasksWithin(o, l, k - 1);
      TaskWithin(o, o.tasks[k - 1], AssessTasks(o, l, k - 1).1);
    }
  }

  /**
   * All phases together never make a call past the cap rounded up, and a report that says the budget ran out has made
   * exactly that many calls, as long as the per-task fuzzing cap is a number.
   */
  lemma TotalWithinCap<T, S>(o: Options<T, S>)
    requires o.budget.Limit? && FuzzCapIsNumber(o)
    ensures var r := AssessmentOf(o).report;
            && r.graderCalls <= FuzzerTheorems.CallLimit(o.budget.cap)
            && (BudgetExhausted in r.limitations ==> r.graderCalls == FuzzerTheorems.CallLimit(o.budget.cap))
  {
    hide AssessTasks, Affordable, CountOpen, CountMoved, CountPerturbed, WorstGaps, MaxOf;
    var start := Determinism(o).1;
    if DeterminismProbe(o).Some? {
      AfterWithin(o, Ledger(0, false), o.determinismSamples);
    }
    TasksWithin(o, start, |o.tasks|);
    var l := AssessTasks(o, start, |o.tasks|).1;
    FuzzerTheorems.ReachedAtLimit(o.budget.cap, l.graderCalls);
    if l.graderCalls > 0 {
      FuzzerTheorems.ReachedAtLimit(o.budget.cap, l.graderCalls - 1);
    }
    BudgetLine(o);
  }

  lemma LimitationLines<T, S>(o: Options<T, S>, ts: seq<TaskAssessment>, exhausted: bool, nondeterministic: bool)
    ensures BudgetExhausted in Limitations(o, ts, exhausted, nondeterministic) <==> exhausted
    ensures FuzzingDisabled in Limitations(o, ts, exhausted, nondeterministic) <==> o.fuzz.None?
  {
    hide Lines, CountPerturbed, AnyUntested;
    LinesStated(o.oracle.Some?, o.reference.Some? && CountPerturbed(ts) > 0, o.fuzz.Some?, exhausted, nondeterministic,
                |o.tasks| < 20, AnyUntested(ts));
  }

  lemma {:induction false} StatedMeaning(reasons: seq<(bool, Limitation)>, x: Limitation)
    ensures x in Stated(reasons) <==> exists i :: 0 <= i < |reasons| && reasons[i].0 && reasons[i].1 == x
    ensures Stated(reasons) == [] <==> forall i :: 0 <= i < |reasons| ==> !reasons[i].0
  {
    if reasons != [] {
      StatedMeaning(reasons[1..], x);
      assert forall i :: 0 < i < |reasons| ==> reasons[i] == reasons[1..][i - 1];
      if i :| 0 <= i < |reasons[1..]| && reasons[1..][i].0 && reasons[1..][i].1 == x {
        assert reasons[i + 1].0 && reasons[i + 1].1 == x;
      }
    }
  }

  /** Every line stands exactly when its reason holds, and there is always one. */
  lemma LinesStated(a: bool, b: bool, c: bool, d: bool, e: bool, f: bool, g: bool)
    ensures var lines := Lines(a, b, c, d, e, f, g);
            && lines != []
            && (FuzzingDisabled in lines <==> !c)
            && (BudgetExhausted in lines <==> d)
            && (EveryProbeRan in lines <==> a && b && c && !d && !e && !f && !g)
  {
    hide Stated;
    var reasons := [(!a, NoOracle), (!b, NoPerturbationTesting), (!c, FuzzingDisabled), (d, BudgetExhausted),
                    (e, Nondeterministic), (f, FewTasks), (g, UntestedChannels)];
    StatedMeaning(reasons, FuzzingDisabled);
    StatedMeaning(reasons, BudgetExhausted);
    StatedMeaning(reasons, EveryProbeRan);
    assert reasons[0].0 == !a && reasons[1].0 == !b && reasons[2] == (!c, FuzzingDisabled) && reasons[3] == (d, BudgetExhausted);
    assert reasons[4].0 == e && reasons[5].0 == f && reasons[6].0 == g;
  }

  lemma BudgetLine<T, S>(o: Options<T, S>)
    ensures BudgetExhausted in AssessmentOf(o).report.limitations <==>
            AssessTasks(o, Determinism(o).1, |o.tasks|).1.budgetExhausted
  {
    hide AssessTasks, Determinism, Limitations;
    var assessed := AssessTasks(o, Determinism(o).1, |o.tasks|);
    LimitationLines(o, assessed.0, assessed.1.budgetExhausted, Determinism(o).0);
  }

  // ---- A report without the budget line ----

  lemma {:induction false} CanaryRefusalStays<T, S>(o: Options<T, S>, task: T, l: Ledger, i: nat, k: nat)
    requires i <= k <= |o.canaries| && CanaryPhase(o, task, l, i).1.budgetExhausted
    ensures CanaryPhase(o, task, l, k).1.budgetExhausted
    decreases k
  {
    if i < k {
      CanaryRefusalStays(o, task, l, i, k - 1);
    }
  }

  lemma {:induction false} RewriteRefusalStays<T, S>(o: Options<T, S>, task: T, s: S, b: seq<real>, l: Ledger, i: nat, k: nat)
    requires i <= k <= |o.perturbations| && RewritePhase(o, task, s, b, l, i).1.budgetExhausted
    ensures RewritePhase(o, task, s, b, l, k).1.budgetExhausted
    decreases k
  {
    if i < k {
      RewriteRefusalStays(o, task, s, b, l, i, k - 1);
    }
  }

  lemma PerturbationRefusalStays<T, S>(o: Options<T, S>, task: T, l: Ledger)
    requires l.budgetExhausted
    ensures PerturbationPhase(o, task, l).1.budgetExhausted
  {
    hide Affordable, Graded, RewritePhase;
    if o.ReferenceFor(task).Some? {
      var s := o.ReferenceFor(task).value;
      var b, a := Graded(o, l, task, s, o.Want()), After(o, l, o.Want());
      assert RewritePhase(o, task, s, b, a, 0).1 == a by {
        RewriteNone(o, task, s, b, a);
      }
      RewriteRefusalStays(o, task, s, b, a, 0, |o.perturbations|);
    }
  }

  lemma RewriteNone<T, S>(o: Options<T, S>, task: T, s: S, b: seq<real>, l: Ledger)
    ensures RewritePhase(o, task, s, b, l, 0) == ([], l)
  {
  }

  lemma TaskRefusalStays<T, S>(o: Options<T, S>, task: T, l: Ledger)
    requires !AssessTask(o, task, l).1.budgetExhausted
    ensures var l1 := CanaryPhase(o, task, l, |o.canaries|).1;
            !l.budgetExhausted && !l1.budgetExhausted && !PerturbationPhase(o, task, l1).1.budgetExhausted
  {
    hide CanaryPhase, PerturbationPhase, Scored, Seeds;
    var l1 := CanaryPhase(o, task, l, |o.canaries|).1;
    if l1.budgetExhausted {
      PerturbationRefusalStays(o, task, l1);
    }
    if l.budgetExhausted {
      assert CanaryPhase(o, task, l, 0) == ([], l) by {
        CanaryNone(o, task, l);
      }
      CanaryRefusalStays(o, task, l, 0, |o.canaries|);
    }
  }

  lemma CanaryNone<T, S>(o: Options<T, S>, task: T, l: Ledger)
    ensures CanaryPhase(o, task, l, 0) == ([], l)
  {
  }

  lemma {:induction false} TasksRefusalStays<T, S>(o: Options<T, S>, l: Ledger, i: nat, k: nat)
    requires i < k <= |o.tasks| && !AssessTasks(o, l, k).1.budgetExhausted
    ensures !AssessTask(o, o.tasks[i], AssessTasks(o, l, i).1).1.budgetExhausted
    decreases k
  {
    hide AssessTask;
    if i < k - 1 {
      TaskRefusalStays(o, o.tasks[k - 1], AssessTasks(o, l, k - 1).1);
      TasksRefusalStays(o, l, i, k - 1);
    }
  }

  lemma FullCanary<T, S>(o: Options<T, S>, task: T, canary: Canary<T, S>, l: Ledger)
    requires !CanaryFinding(o, task, canary, l).1.budgetExhausted
    ensures var f := CanaryFinding(o, task, canary, l).0;
            && (f.status.NotTested? <==> canary.build(task).None?)
            && (!f.status.NotTested? ==> f.repeats == o.Want())
  {
    hide Affordable, Mean, Variance;
  }

  lemma FullPerturbation<T, S>(o: Options<T, S>, task: T, s: S, b: seq<real>, p: Perturbation<T, S>, l: Ledger)
    requires b != [] && !PerturbationFinding(o, task, s, b, p, l).1.budgetExhausted
    ensures var f := PerturbationFinding(o, task, s, b, p, l).0;
            && (f.status.NotTested? <==> p.apply(task, s).None?)
            && (!f.status.NotTested? ==> f.repeats == o.Want())
  {
    hide Affordable, Mean, Variance;
  }

  /** The canaries and the perturbations of one task got all the grades they asked for. */
  ghost predicate FullyTested<T, S>(o: Options<T, S>, task: T, t: TaskAssessment)
    requires |t.canaryFindings| == |o.canaries| && |t.perturbationFindings| == |o.perturbations|
  {
    && (forall k :: 0 <= k < |o.canaries| ==>
                      && (t.canaryFindings[k].status.NotTested? <==> o.canaries[k].build(task).None?)
                      && (!t.canaryFindings[k].status.NotTested? ==> t.canaryFindings[k].repeats == o.Want()))
    && (forall k :: 0 <= k < |o.perturbations| ==>
                      && (t.perturbationFindings[k].status.NotTested? <==>
                          o.ReferenceFor(task).None? || o.perturbations[k].apply(task, o.ReferenceFor(task).value).None?)
                      && (!t.perturbationFindings[k].status.NotTested? ==> t.perturbationFindings[k].repeats == o.Want()))
  }

  lemma FullCanaries<T, S>(o: Options<T, S>, task: T, l: Ledger)
    requires !CanaryPhase(o, task, l, |o.canaries|).1.budgetExhausted
    ensures var fs := CanaryPhase(o, task, l, |o.canaries|).0;
            && |fs| == |o.canaries|
            && forall k :: 0 <= k < |o.canaries| ==>
                             && (fs[k].status.NotTested? <==> o.canaries[k].build(task).None?)
                             && (!fs[k].status.NotTested? ==> fs[k].repeats == o.Want())
  {
    hide CanaryFinding;
    CanaryCount(o, task, l, |o.canaries|);
    var fs := CanaryPhase(o, task, l, |o.canaries|).0;
    forall k | 0 <= k < |o.canaries|
      ensures fs[k].status.NotTested? <==> o.canaries[k].build(task).None?
      ensures !fs[k].status.NotTested? ==> fs[k].repeats == o.Want()
    {
      CanaryAt(o, task, l, |o.canaries|, k);
      if CanaryPhase(o, task, l, k + 1).1.budgetExhausted {
        CanaryRefusalStays(o, task, l, k + 1, |o.canaries|);
      }
      FullCanary(o, task, o.canaries[k], CanaryPhase(o, task, l, k).1);
    }
  }

  lemma FullRewrites<T, S>(o: Options<T, S>, task: T, s: S, b: seq<real>, l: Ledger)
    requires b != [] && !RewritePhase(o, task, s, b, l, |o.perturbations|).1.budgetExhausted
    ensures var fs := RewritePhase(o, task, s, b, l, |o.perturbations|).0;
            && |fs| == |o.perturbations|
            && forall k :: 0 <= k < |o.perturbations| ==>
                             && (fs[k].status.NotTested? <==> o.perturbations[k].apply(task, s).None?)
                             && (!fs[k].status.NotTested? ==> fs[k].repeats == o.Want())
  {
    hide PerturbationFinding;
    RewriteCount(o, task, s, b, l, |o.perturbations|);
    var fs := RewritePhase(o, task, s, b, l, |o.perturbations|).0;
    forall k | 0 <= k < |o.perturbations|
      ensures fs[k].status.NotTested? <==> o.perturbations[k].apply(task, s).None?
      ensures !fs[k].status.NotTested? ==> fs[k].repeats == o.Want()
    {
      RewriteAt(o, task, s, b, l, |o.perturbations|, k);
      if RewritePhase(o, task, s, b, l, k + 1).1.budgetExhausted {
        RewriteRefusalStays(o, task, s, b, l, k + 1, |o.perturbations|);
      }
      FullPerturbation(o, task, s, b, o.perturbations[k], RewritePhase(o, task, s, b, l, k).1);
    }
  }

  lemma FullPerturbations<T, S>(o: Options<T, S>, task: T, l: Ledger)
    requires !PerturbationPhase(o, task, l).1.budgetExhausted
    ensures var fs := PerturbationPhase(o, task, l).0;
            && |fs| == |o.perturbations|
            && forall k :: 0 <= k < |o.perturbations| ==>
                             && (fs[k].status.NotTested? <==>
                                 o.ReferenceFor(task).None? || o.perturbations[k].apply(task, o.ReferenceFor(task).value).None?)
                             && (!fs[k].status.NotTested? ==> fs[k].repeats == o.Want())
  {
    hide RewritePhase, Affordable;
    if o.ReferenceFor(task).Some? {
      var s := o.ReferenceFor(task).value;
      var b, a := Graded(o, l, task, s, o.Want()), After(o, l, o.Want());
      if a.budgetExhausted {
        RewriteNone(o, task, s, b, a);
        RewriteRefusalStays(o, task, s, b, a, 0, |o.perturbations|);
      }
      FullRewrites(o, task, s, b, a);
    }
  }

  lemma TaskFullyTested<T, S>(o: Options<T, S>, task: T, l: Ledger)
    requires !AssessTask(o, task, l).1.budgetExhausted
    ensures var t := AssessTask(o, task, l).0;
            && |t.canaryFindings| == |o.canaries| && |t.perturbationFindings| == |o.perturbations|
            && FullyTested(o, task, t)
  {
    hide CanaryPhase, PerturbationPhase, FuzzPhase, WorstGap, OpenChannels;
    TaskRefusalStays(o, task, l);
    FullCanaries(o, task, l);
    FullPerturbations(o, task, CanaryPhase(o, task, l, |o.canaries|).1);
  }

  lemma TasksOfReport<T, S>(o: Options<T, S>)
    ensures AssessmentOf(o).report.perTask == AssessTasks(o, Determinism(o).1, |o.tasks|).0
  {
    hide Determinism, AssessTasks, Limitations;
  }

  /** A report without the budget line tested every canary and perturbation that applies, with all the repeats asked for. */
  lemma NoBudgetLineMeansTested<T, S>(o: Options<T, S>, i: nat)
    requires i < |o.tasks| && BudgetExhausted !in AssessmentOf(o).report.limitations
    ensures var ts := AssessmentOf(o).report.perTask;
            && |ts| == |o.tasks|
            && |ts[i].canaryFindings| == |o.canaries| && |ts[i].perturbationFindings| == |o.perturbations|
            && FullyTested(o, o.tasks[i], ts[i])
  {
    hide *;
    BudgetLine(o);
    TasksOfReport(o);
    var start := Determinism(o).1;
    TaskAt(o, start, |o.tasks|, i);
    TasksRefusalStays(o, start, i, |o.tasks|);
    TaskFullyTested(o, o.tasks[i], AssessTasks(o, start, i).1);
  }
}
