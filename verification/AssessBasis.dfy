/** Which assessments can report a positive exploitable gap beside the words that no gap was established. */
module AssessBasis {
  import opened Wrappers
  import opened FuzzModel
  import FuzzerTheorems
  import opened AssessModel
  import opened AssessTheorems
  import opened AssessBudget
  import opened AssessGaps

  /** A positive gap, and a basis that denies it. */
  predicate Contradicts<T, S>(o: Options<T, S>) {
    AssessmentOf(o).exploitableGap > 0.0 && AssessmentOf(o).basis.NotEstablished?
  }

  /** Task i is the first one to which a canary applies. */
  predicate FirstSeeded<T, S>(o: Options<T, S>, i: nat) {
    i < |o.tasks| && Seeded(o, o.tasks[i]) && forall j :: 0 <= j < i ==> !Seeded(o, o.tasks[j])
  }

  /** The budget reaches as far as the first canary. */
  ghost predicate CanaryGraded<T, S>(o: Options<T, S>) {
    exists i :: 0 <= i < |o.tasks| && FirstSeeded(o, i) && !o.budget.Reached(TaskEntry(o, i).graderCalls)
  }

  /** It reaches as far as the first fuzz phase, whose own cap lets a call through. */
  ghost predicate FuzzCalled<T, S>(o: Options<T, S>) {
    && o.fuzz.Some? && !o.fuzz.value.callsPerTask.Reached(0)
    && exists i :: 0 <= i < |o.tasks| && FirstSeeded(o, i) && Below(o.budget, FuzzEntry(o, i).graderCalls)
  }

  /**
   What decides it, apart from what a grader answers: a positive threshold and a graded canary, or a threshold of 0 and
   fuzzing without an oracle.
   */
  ghost predicate Exposed<T, S>(o: Options<T, S>) {
    || (o.rewardThreshold > 0.0 && CanaryGraded(o))
    || (o.rewardThreshold == 0.0 && o.oracle.None? && FuzzCalled(o))
  }

  // ---- The condition does not depend on the answers ----

  function WithGrader<T, S>(o: Options<T, S>, g: (nat, T, S) -> Number): Options<T, S> {
    o.(grader := g)
  }

  lemma {:induction false} CanaryLedger<T, S>(o: Options<T, S>, g: (nat, T, S) -> Number, task: T, l: Ledger, k: nat)
    requires k <= |o.canaries|
    ensures CanaryPhase(WithGrader(o, g), task, l, k).1 == CanaryPhase(o, task, l, k).1
  {
    hide Affordable, Mean, Variance;
    if k > 0 {
      CanaryLedger(o, g, task, l, k - 1);
    }
  }

  lemma {:induction false} RewriteLedger<T, S>(o: Options<T, S>, g: (nat, T, S) -> Number, task: T, s: S, b: seq<real>, c: seq<real>, l: Ledger, k: nat)
    requires k <= |o.perturbations| && (b == [] <==> c == [])
    ensures RewritePhase(WithGrader(o, g), task, s, b, l, k).1 == RewritePhase(o, task, s, c, l, k).1
  {
    hide Affordable, Mean, Variance;
    if k > 0 {
      RewriteLedger(o, g, task, s, b, c, l, k - 1);
    }
  }

  lemma PerturbationLedger<T, S>(o: Options<T, S>, g: (nat, T, S) -> Number, task: T, l: Ledger)
    ensures PerturbationPhase(WithGrader(o, g), task, l).1 == PerturbationPhase(o, task, l).1
  {
    hide Affordable, RewritePhase;
    var p := WithGrader(o, g);
    if o.ReferenceFor(task).Some? {
      var s := o.ReferenceFor(task).value;
      var b, c := Graded(p, l, task, s, p.Want()), Graded(o, l, task, s, o.Want());
      assert |b| == |c|;
      RewriteLedger(o, g, task, s, b, c, After(o, l, o.Want()), |o.perturbations|);
    }
  }

  lemma StartLedger<T, S>(o: Options<T, S>, g: (nat, T, S) -> Number)
    ensures Determinism(WithGrader(o, g)).1 == Determinism(o).1
  {
    hide Affordable, Variance;
  }

  lemma FuzzEntryFollows<T, S>(o: Options<T, S>, g: (nat, T, S) -> Number, i: nat)
    requires i < |o.tasks| && TaskEntry(WithGrader(o, g), i) == TaskEntry(o, i)
    ensures FuzzEntry(WithGrader(o, g), i) == FuzzEntry(o, i)
  {
    hide TaskEntry, CanaryPhase, PerturbationPhase;
    CanaryLedger(o, g, o.tasks[i], TaskEntry(o, i), |o.canaries|);
    PerturbationLedger(o, g, o.tasks[i], CanaryPhase(o, o.tasks[i], TaskEntry(o, i), |o.canaries|).1);
  }

  lemma StartEntry<T, S>(o: Options<T, S>, g: (nat, T, S) -> Number)
    ensures TaskEntry(WithGrader(o, g), 0) == TaskEntry(o, 0)
  {
    hide Determinism;
    StartLedger(o, g);
  }

  lemma {:induction false} EntryIgnoresGrader<T, S>(o: Options<T, S>, g: (nat, T, S) -> Number, i: nat)
    requires i <= |o.tasks| && forall j :: 0 <= j < i ==> !Seeded(o, o.tasks[j])
    ensures TaskEntry(WithGrader(o, g), i) == TaskEntry(o, i)
    ensures i < |o.tasks| ==> FuzzEntry(WithGrader(o, g), i) == FuzzEntry(o, i)
  {
    hide TaskEntry, FuzzEntry, FuzzSearch, Seeded;
    var p := WithGrader(o, g);
    if i == 0 {
      StartEntry(o, g);
    } else {
      EntryIgnoresGrader(o, g, i - 1);
      SameSeeded(o, g);
      NextEntry(o, i - 1);
      NextEntry(p, i - 1);
    }
    if i < |o.tasks| {
      FuzzEntryFollows(o, g, i);
    }
  }

  lemma {:induction false} FirstSeed<T, S>(o: Options<T, S>, i: nat) returns (first: nat)
    requires i < |o.tasks| && Seeded(o, o.tasks[i])
    ensures first <= i && FirstSeeded(o, first)
  {
    hide Seeded;
    first := i;
    if j :| 0 <= j < i && Seeded(o, o.tasks[j]) {
      first := FirstSeed(o, j);
    }
  }

  lemma ExposedIgnoresGrader<T, S>(o: Options<T, S>, g: (nat, T, S) -> Number)
    ensures Exposed(WithGrader(o, g)) <==> Exposed(o)
  {
    hide TaskEntry, FuzzEntry, Seeded;
    var p := WithGrader(o, g);
    forall i: nat | i < |o.tasks|
      ensures FirstSeeded(p, i) <==> FirstSeeded(o, i)
      ensures FirstSeeded(o, i) ==> TaskEntry(p, i) == TaskEntry(o, i) && FuzzEntry(p, i) == FuzzEntry(o, i)
    {
      SameSeeded(o, g);
      if FirstSeeded(o, i) {
        EntryIgnoresGrader(o, g, i);
      }
    }
  }

  lemma SameSeeded<T, S>(o: Options<T, S>, g: (nat, T, S) -> Number)
    ensures forall j :: 0 <= j < |o.tasks| ==> (Seeded(WithGrader(o, g), o.tasks[j]) <==> Seeded(o, o.tasks[j]))
  {
  }

  // ---- What a task of the report comes from ----

  lemma TaskParts<T, S>(o: Options<T, S>, i: nat)
    requires i < |o.tasks|
    ensures |AssessmentOf(o).report.perTask| == |o.tasks|
    ensures var t := AssessmentOf(o).report.perTask[i];
            && t.canaryFindings == CanaryPhase(o, o.tasks[i], TaskEntry(o, i), |o.canaries|).0
            && t.fuzzFinding == FuzzPhase(o, o.tasks[i], FuzzEntry(o, i)).0
  {
    hide Determinism, CanaryPhase, PerturbationPhase, FuzzPhase, AssessmentOf, WorstGap, OpenChannels;
    TasksOfReport(o);
    TaskAt(o, Determinism(o).1, |o.tasks|, i);
  }

  /** The ledger with which canary k of task i is graded lies between the entries of the task and of its fuzz phase. */
  function CanaryEntry<T, S>(o: Options<T, S>, i: nat, k: nat): Ledger
    requires i < |o.tasks| && k <= |o.canaries|
  {
    CanaryPhase(o, o.tasks[i], TaskEntry(o, i), k).1
  }

  lemma CanaryBetween<T, S>(o: Options<T, S>, i: nat, k: nat)
    requires i < |o.tasks| && k <= |o.canaries|
    ensures TaskEntry(o, i).graderCalls <= CanaryEntry(o, i, k).graderCalls <= FuzzEntry(o, i).graderCalls
  {
    hide CanaryPhase, PerturbationPhase, TaskEntry;
    CanaryStart(o, o.tasks[i], TaskEntry(o, i));
    CanaryLater(o, o.tasks[i], TaskEntry(o, i), 0, k);
    CanaryLater(o, o.tasks[i], TaskEntry(o, i), k, |o.canaries|);
    PerturbationLater(o, o.tasks[i], CanaryPhase(o, o.tasks[i], TaskEntry(o, i), |o.canaries|).1);
  }

  /** A canary has a gap exactly when it applies and its first grade is affordable; the gap is the mean of its grades. */
  lemma CanaryPart<T, S>(o: Options<T, S>, i: nat, k: nat)
    requires i < |o.tasks| && k < |o.canaries|
    ensures |AssessmentOf(o).report.perTask| == |o.tasks| && |AssessmentOf(o).report.perTask[i].canaryFindings| == |o.canaries|
    ensures var f, l := AssessmentOf(o).report.perTask[i].canaryFindings[k], CanaryEntry(o, i, k);
            var build := o.canaries[k].build(o.tasks[i]);
            && (f.gap.Some? <==> build.Some? && !o.budget.Reached(l.graderCalls))
            && (f.gap.Some? ==> f.gap.value == Mean(Graded(o, l, o.tasks[i], build.value, o.Want())))
  {
    hide AssessmentOf, TaskEntry, CanaryPhase, FuzzEntry, Graded, Mean, Variance;
    TaskParts(o, i);
    CanaryAt(o, o.tasks[i], TaskEntry(o, i), |o.canaries|, k);
    var l := CanaryEntry(o, i, k);
    if o.canaries[k].build(o.tasks[i]).Some? {
      GradedMeaning(o, l, o.tasks[i], o.canaries[k].build(o.tasks[i]).value, o.Want());
      AffordableFirst(o.budget, l.graderCalls, o.Want());
    }
  }

  lemma AffordableFirst(b: Budget, calls: nat, want: nat)
    requires want > 0
    ensures Affordable(b, calls, want) == 0 <==> b.Reached(calls)
  {
  }

  // ---- Only exposed assessments contradict themselves ----

  lemma GradedExposes<T, S>(o: Options<T, S>, i: nat, calls: nat)
    requires i < |o.tasks| && Seeded(o, o.tasks[i]) && TaskEntry(o, i).graderCalls <= calls && !o.budget.Reached(calls)
    ensures CanaryGraded(o)
  {
    hide TaskEntry, Seeded;
    var first := FirstSeed(o, i);
    EntryLater(o, first, i);
    FuzzerTheorems.BudgetMonotone(o.budget, TaskEntry(o, first).graderCalls, calls);
  }

  lemma CanaryExposes<T, S>(o: Options<T, S>, i: nat, k: nat)
    requires i < |o.tasks| && k < |o.canaries|
    requires o.canaries[k].build(o.tasks[i]).Some? && !o.budget.Reached(CanaryEntry(o, i, k).graderCalls)
    ensures CanaryGraded(o)
  {
    hide TaskEntry, FuzzEntry, CanaryEntry, CanaryGraded, Seeded;
    SeededMeaning(o, o.tasks[i]);
    CanaryBetween(o, i, k);
    GradedExposes(o, i, CanaryEntry(o, i, k).graderCalls);
  }

  lemma FuzzPart<T, S>(o: Options<T, S>, i: nat)
    requires i < |o.tasks| && FuzzPhase(o, o.tasks[i], FuzzEntry(o, i)).0.Some?
    ensures FuzzRuns(o, i) && FuzzSearch(o, i) != [] && !o.fuzz.value.callsPerTask.Reached(0)
  {
    hide FuzzEntry, Seeds, PointAt, Climb;
  }

  lemma BelowEarlier(b: Budget, x: nat, y: nat)
    requires x <= y && Below(b, y)
    ensures Below(b, x) && !b.Reached(y)
  {
  }

  lemma FuzzExposes<T, S>(o: Options<T, S>, i: nat)
    requires i < |o.tasks| && FuzzRuns(o, i) && !o.fuzz.value.callsPerTask.Reached(0)
    ensures CanaryGraded(o) && FuzzCalled(o)
  {
    hide TaskEntry, FuzzEntry, Seeded, CanaryGraded;
    FuzzEntryLater(o, i);
    var n := FuzzEntry(o, i).graderCalls;
    BelowEarlier(o.budget, n, n);
    GradedExposes(o, i, n);
    var first := FirstSeed(o, i);
    if first < i {
      FuzzEntryLater(o, first);
      EntryLater(o, first + 1, i);
    }
    BelowEarlier(o.budget, FuzzEntry(o, first).graderCalls, n);
  }

  /** Below a threshold of 0 the canaries of a fuzzed task are open. */
  lemma NegativeThresholdOpens<T, S>(o: Options<T, S>, i: nat)
    requires i < |o.tasks| && FuzzRuns(o, i) && o.rewardThreshold < 0.0
    ensures |AssessmentOf(o).report.perTask| == |o.tasks| && AssessmentOf(o).report.perTask[i].openChannels != []
  {
    hide AssessmentOf, TaskEntry, FuzzEntry, CanaryEntry, WorstGap, OpenChannels, Graded, Mean;
    SeededMeaning(o, o.tasks[i]);
    var k :| 0 <= k < |o.canaries| && o.canaries[k].build(o.tasks[i]).Some?;
    CanaryBetween(o, i, k);
    CanaryPart(o, i, k);
    var n, l := FuzzEntry(o, i).graderCalls, CanaryEntry(o, i, k);
    BelowEarlier(o.budget, l.graderCalls, n);
    FuzzerTheorems.BudgetMonotone(o.budget, l.graderCalls, n);
    GradedMeaning(o, l, o.tasks[i], o.canaries[k].build(o.tasks[i]).value, o.Want());
    MeanBounds(Graded(o, l, o.tasks[i], o.canaries[k].build(o.tasks[i]).value, o.Want()));
    AllTaskFacts(o);
    var t := AssessmentOf(o).report.perTask[i];
    assert TaskFacts(o, t);
    ChannelsOfTask(o, t);
    assert t.canaryFindings[k].status.Open?;
  }

  /** Whatever a grader answers: an assessment that is not exposed never contradicts itself. */
  lemma OnlyExposedContradict<T, S>(o: Options<T, S>)
    requires Contradicts(o)
    ensures Exposed(o)
  {
    hide AssessmentOf, TaskEntry, FuzzEntry, CanaryEntry, FuzzRuns, FuzzSearch, FuzzPhase, CanaryGraded, FuzzCalled, PaidSome,
      WorstGap, OpenChannels, CountOpen;
    var ts := AssessmentOf(o).report.perTask;
    AllTaskFacts(o);
    UnestablishedGap(o);
    GapOfReport(o);
    CountOpenZero(ts);
    var i :| 0 <= i < |ts| && PaidSome(ts[i]);
    assert TaskFacts(o, ts[i]);
    ChannelsOfTask(o, ts[i]);
    PaidTaskExposes(o, i);
  }

  lemma PaidTaskExposes<T, S>(o: Options<T, S>, i: nat)
    requires |AssessmentOf(o).report.perTask| == |o.tasks| && i < |o.tasks|
    requires var t := AssessmentOf(o).report.perTask[i]; TaskFacts(o, t) && PaidSome(t) && t.openChannels == []
    ensures Exposed(o)
  {
    hide AssessmentOf, TaskEntry, FuzzEntry, CanaryEntry, FuzzRuns, FuzzSearch, FuzzPhase, CanaryGraded, FuzzCalled, WorstGap,
      OpenChannels, Graded, Mean;
    var t := AssessmentOf(o).report.perTask[i];
    TaskParts(o, i);
    ChannelsOfTask(o, t);
    var fs := t.canaryFindings + Listed(t.fuzzFinding);
    var k :| 0 <= k < |fs| && fs[k].gap.Some? && fs[k].gap.value > 0.0;
    if k < |t.canaryFindings| {
      assert fs[k] == t.canaryFindings[k];
      CanaryCount(o, o.tasks[i], TaskEntry(o, i), |o.canaries|);
      CanaryPart(o, i, k);
      CanaryExposes(o, i, k);
    } else {
      var f := t.fuzzFinding.value;
      assert Listed(t.fuzzFinding)[0] == f;
      FuzzPart(o, i);
      FuzzExposes(o, i);
      if o.rewardThreshold < 0.0 {
        NegativeThresholdOpens(o, i);
      }
    }
  }

  // ---- Every exposed assessment can ----

  /** A grader that pays the same to everything, no more than the threshold, contradicts a report with a graded canary. */
  lemma FlatGrader<T, S>(o: Options<T, S>, m: real)
    requires 0.0 < m <= 1.0 && m <= o.rewardThreshold && CanaryGraded(o)
    requires forall n, t, s :: o.grader(n, t, s) == Finite(m)
    ensures Contradicts(o)
  {
    hide AssessmentOf, TaskEntry, FuzzEntry, CanaryEntry, WorstGap, OpenChannels, PaidSome, Graded, Mean;
    var ts := AssessmentOf(o).report.perTask;
    AllTaskFacts(o);
    var i: nat :| i < |o.tasks| && FirstSeeded(o, i) && !o.budget.Reached(TaskEntry(o, i).graderCalls);
    var k := FirstCanary(o, o.tasks[i]);
    FirstCanaryEntry(o, i, k);
    CanaryPart(o, i, k);
    MeanOfGraded(o, i, k);
    FlatMean(o, CanaryEntry(o, i, k), o.tasks[i], o.canaries[k].build(o.tasks[i]).value, m);
    PaidCanary(ts[i], k);
    GapIsWorst(o);
    forall j: nat | j < |ts| ensures ts[j].openChannels == [] {
      assert TaskFacts(o, ts[j]);
      FlatTaskClosed(o, j, m);
    }
    NothingOpen(o);
  }

  lemma NothingOpen<T, S>(o: Options<T, S>)
    requires forall j :: 0 <= j < |AssessmentOf(o).report.perTask| ==> AssessmentOf(o).report.perTask[j].openChannels == []
    ensures AssessmentOf(o).basis.NotEstablished?
  {
    hide AssessmentOf;
    GapOfReport(o);
    BasisMatchesChannels(o);
    CountOpenZero(AssessmentOf(o).report.perTask);
  }

  lemma PaidCanary(t: TaskAssessment, k: nat)
    requires k < |t.canaryFindings| && t.canaryFindings[k].gap.Some? && t.canaryFindings[k].gap.value > 0.0
    ensures PaidSome(t)
  {
    assert (t.canaryFindings + Listed(t.fuzzFinding))[k] == t.canaryFindings[k];
  }

  lemma FirstCanary<T, S>(o: Options<T, S>, task: T) returns (k: nat)
    requires Seeded(o, task)
    ensures k < |o.canaries| && o.canaries[k].build(task).Some? && forall j :: 0 <= j < k ==> o.canaries[j].build(task).None?
  {
    hide Seeds;
    SeededMeaning(o, task);
    k := 0;
    while o.canaries[k].build(task).None?
      invariant k < |o.canaries| && forall j :: 0 <= j < k ==> o.canaries[j].build(task).None?
      invariant exists j :: k <= j < |o.canaries| && o.canaries[j].build(task).Some?
      decreases |o.canaries| - k
    {
      k := k + 1;
    }
  }

  lemma FirstCanaryEntry<T, S>(o: Options<T, S>, i: nat, k: nat)
    requires i < |o.tasks| && k < |o.canaries| && forall j :: 0 <= j < k ==> o.canaries[j].build(o.tasks[i]).None?
    ensures CanaryEntry(o, i, k) == TaskEntry(o, i)
  {
    hide TaskEntry;
    CanariesIdle(o, o.tasks[i], TaskEntry(o, i), k);
  }

  lemma FlatMean<T, S>(o: Options<T, S>, l: Ledger, task: T, s: S, m: real)
    requires 0.0 <= m <= 1.0 && forall n, t, s :: o.grader(n, t, s) == Finite(m)
    ensures var xs := Graded(o, l, task, s, o.Want()); xs != [] ==> Mean(xs) == m
  {
    hide Mean, Affordable;
    var xs := Graded(o, l, task, s, o.Want());
    GradedMeaning(o, l, task, s, o.Want());
    if xs != [] {
      MeanOfSame(xs, m);
    }
  }

  lemma MeanOfGraded<T, S>(o: Options<T, S>, i: nat, k: nat)
    requires i < |o.tasks| && k < |o.canaries|
    requires o.canaries[k].build(o.tasks[i]).Some? && !o.budget.Reached(CanaryEntry(o, i, k).graderCalls)
    ensures Graded(o, CanaryEntry(o, i, k), o.tasks[i], o.canaries[k].build(o.tasks[i]).value, o.Want()) != []
  {
    hide CanaryEntry;
    AffordableFirst(o.budget, CanaryEntry(o, i, k).graderCalls, o.Want());
  }

  lemma FlatTaskClosed<T, S>(o: Options<T, S>, j: nat, m: real)
    requires |AssessmentOf(o).report.perTask| == |o.tasks| && j < |o.tasks|
    requires 0.0 < m <= 1.0 && m <= o.rewardThreshold && forall n, t, s :: o.grader(n, t, s) == Finite(m)
    requires TaskFacts(o, AssessmentOf(o).report.perTask[j])
    ensures AssessmentOf(o).report.perTask[j].openChannels == []
  {
    hide AssessmentOf, TaskEntry, FuzzEntry, CanaryEntry, FuzzPhase, WorstGap, OpenChannels, Graded, Mean;
    var t := AssessmentOf(o).report.perTask[j];
    TaskParts(o, j);
    CanaryCount(o, o.tasks[j], TaskEntry(o, j), |o.canaries|);
    forall k: nat | k < |t.canaryFindings| ensures !t.canaryFindings[k].status.Open? {
      CanaryPart(o, j, k);
      if t.canaryFindings[k].gap.Some? {
        MeanOfGraded(o, j, k);
        FlatMean(o, CanaryEntry(o, j, k), o.tasks[j], o.canaries[k].build(o.tasks[j]).value, m);
      }
    }
    FlatFuzz(o, o.tasks[j], FuzzEntry(o, j), m);
    ChannelsOfTask(o, t);
  }

  lemma FlatFuzz<T, S>(o: Options<T, S>, task: T, l: Ledger, m: real)
    requires 0.0 < m <= 1.0 && m <= o.rewardThreshold && forall n, t, s :: o.grader(n, t, s) == Finite(m)
    ensures FuzzPhase(o, task, l).0.None?
  {
    hide Scored, Seeds, Smaller;
    if o.fuzz.Some? {
      var c := FuzzConfig(o, o.fuzz.value, task, l.graderCalls);
      var trace := Scored(c);
      if trace != [] {
        var b := Best(trace, 0).value;
        FuzzerTheorems.AssumedExactly(c, b);
        FuzzerTheorems.ScoredSound(c);
        RewardAt(c, trace, b);
      }
    }
  }

  /** The reward of a scored candidate is the answer of `grade` to that call. */
  lemma RewardAt<S>(c: Config<S>, trace: seq<Step<S>>, b: nat)
    requires FuzzerTheorems.Sound(c, trace) && b < |trace|
    ensures trace[b].point.reward == Clamp01(c.grader(b, trace[b].point.submission))
    ensures c.oracle.None? ==> trace[b].point.gap == trace[b].point.reward
  {
    assert FuzzerTheorems.StepSound(c, trace, b);
  }

  /** A grader that pays for one call only, the first one of the first fuzz phase. */
  lemma OnceGrader<T, S>(o: Options<T, S>, i: nat, first: nat)
    requires o.rewardThreshold == 0.0 && o.oracle.None? && FuzzCalled(o)
    requires FirstSeeded(o, i) && Below(o.budget, FuzzEntry(o, i).graderCalls) && first == FuzzEntry(o, i).graderCalls
    requires forall n, t, s :: o.grader(n, t, s) == Finite(if n == first then 1.0 else 0.0)
    ensures Contradicts(o)
  {
    hide AssessmentOf, TaskEntry, FuzzEntry, WorstGap, OpenChannels, PaidSome, FuzzPhase;
    var ts := AssessmentOf(o).report.perTask;
    AllTaskFacts(o);
    TaskParts(o, i);
    FirstFuzzPaid(o, i);
    PaidFuzz(ts[i]);
    GapIsWorst(o);
    forall j: nat | j < |ts| ensures ts[j].openChannels == [] {
      assert TaskFacts(o, ts[j]);
      OnceTaskClosed(o, i, j, first);
    }
    NothingOpen(o);
  }

  lemma PaidFuzz(t: TaskAssessment)
    requires t.fuzzFinding.Some? && t.fuzzFinding.value.gap.Some? && t.fuzzFinding.value.gap.value > 0.0
    ensures PaidSome(t)
  {
    assert (t.canaryFindings + Listed(t.fuzzFinding))[|t.canaryFindings|] == t.fuzzFinding.value;
  }

  lemma FirstFuzzPaid<T, S>(o: Options<T, S>, i: nat)
    requires i < |o.tasks| && o.rewardThreshold == 0.0 && o.oracle.None? && FuzzCalled(o)
    requires Seeded(o, o.tasks[i]) && Below(o.budget, FuzzEntry(o, i).graderCalls)
    requires forall n, t, s :: o.grader(n, t, s) == Finite(if n == FuzzEntry(o, i).graderCalls then 1.0 else 0.0)
    ensures FuzzSearch(o, i) != []
    ensures var f := FuzzPhase(o, o.tasks[i], FuzzEntry(o, i)).0; f.Some? && f.value.gap.Some? && f.value.gap.value > 0.0
  {
    hide FuzzEntry, Seeds, Scored;
    var c := FuzzConfig(o, o.fuzz.value, o.tasks[i], FuzzEntry(o, i).graderCalls);
    var trace := Scored(c);
    BelowEarlier(o.budget, FuzzEntry(o, i).graderCalls, FuzzEntry(o, i).graderCalls);
    RemainingReached(o.fuzz.value.callsPerTask, o.budget, FuzzEntry(o, i).graderCalls);
    FirstIsScored(c);
    FuzzerTheorems.ScoredSound(c);
    RewardAt(c, trace, 0);
    var b := Best(trace, 0).value;
    FuzzerTheorems.AssumedExactly(c, b);
  }

  lemma RemainingReached(a: Budget, b: Budget, calls: nat)
    requires Below(b, calls) && !a.Reached(0)
    ensures !Smaller(a, Remaining(b, calls)).Reached(0)
  {
  }

  lemma FirstIsScored<S>(c: Config<S>)
    requires c.seeds != [] && !c.budget.Reached(0)
    ensures Scored(c) != []
  {
    hide PointAt, Climb;
    var step := SeedStep(c, 0, 0);
    assert |[] + [step]| == 1;
  }

  lemma OnceTaskClosed<T, S>(o: Options<T, S>, i: nat, j: nat, first: nat)
    requires |AssessmentOf(o).report.perTask| == |o.tasks| && i < |o.tasks| && j < |o.tasks|
    requires o.rewardThreshold == 0.0 && o.oracle.None?
    requires Seeded(o, o.tasks[i]) && Below(o.budget, FuzzEntry(o, i).graderCalls) && first == FuzzEntry(o, i).graderCalls
    requires o.fuzz.Some? && FuzzSearch(o, i) != []
    requires forall n, t, s :: o.grader(n, t, s) == Finite(if n == first then 1.0 else 0.0)
    requires TaskFacts(o, AssessmentOf(o).report.perTask[j])
    ensures AssessmentOf(o).report.perTask[j].openChannels == []
  {
    hide AssessmentOf, TaskEntry, FuzzEntry, CanaryEntry, FuzzPhase, WorstGap, OpenChannels, Graded, Mean, FuzzSearch, CanaryPhase;
    var t := AssessmentOf(o).report.perTask[j];
    TaskParts(o, j);
    CanaryCount(o, o.tasks[j], TaskEntry(o, j), |o.canaries|);
    forall k: nat | k < |t.canaryFindings| ensures !t.canaryFindings[k].status.Open? {
      CanaryPart(o, j, k);
      if t.canaryFindings[k].gap.Some? {
        MeanOfGraded(o, j, k);
        OnceRange(o, i, j, k, first);
        ZeroMean(o, CanaryEntry(o, j, k), o.tasks[j], o.canaries[k].build(o.tasks[j]).value, first);
      }
    }
    ChannelsOfTask(o, t);
  }

  /** No canary is graded by the call that is paid. */
  lemma OnceRange<T, S>(o: Options<T, S>, i: nat, j: nat, k: nat, first: nat)
    requires i < |o.tasks| && j < |o.tasks| && k < |o.canaries| && FuzzRuns(o, i) && FuzzSearch(o, i) != []
    requires first == FuzzEntry(o, i).graderCalls && o.canaries[k].build(o.tasks[j]).Some?
    ensures var l := CanaryEntry(o, j, k);
            l.graderCalls + Affordable(o.budget, l.graderCalls, o.Want()) <= first || first < l.graderCalls
  {
    hide TaskEntry, FuzzEntry, FuzzSearch, FuzzRuns, Affordable;
    CanaryBetween(o, j, k);
    CanaryBetween(o, j, k + 1);
    CanaryStep(o, j, k);
    if j < i {
      FuzzEntryLater(o, j);
      EntryLater(o, j + 1, i);
      FuzzEntryLater(o, i);
    } else if i < j {
      NextEntry(o, i);
      EntryLater(o, i + 1, j);
    }
  }

  lemma CanaryStep<T, S>(o: Options<T, S>, j: nat, k: nat)
    requires j < |o.tasks| && k < |o.canaries| && o.canaries[k].build(o.tasks[j]).Some?
    ensures CanaryEntry(o, j, k + 1) == After(o, CanaryEntry(o, j, k), o.Want())
  {
    hide TaskEntry, After, Graded, Mean, Variance;
  }

  lemma ZeroMean<T, S>(o: Options<T, S>, l: Ledger, task: T, s: S, first: nat)
    requires forall n, t, s :: o.grader(n, t, s) == Finite(if n == first then 1.0 else 0.0)
    requires l.graderCalls + Affordable(o.budget, l.graderCalls, o.Want()) <= first || first < l.graderCalls
    ensures var xs := Graded(o, l, task, s, o.Want()); xs != [] ==> Mean(xs) == 0.0
  {
    hide Mean, Affordable;
    var xs := Graded(o, l, task, s, o.Want());
    GradedMeaning(o, l, task, s, o.Want());
    if xs != [] {
      MeanOfSame(xs, 0.0);
    }
  }

  /** For every exposed assessment there is a grader with which it contradicts itself. */
  lemma ExposedContradicts<T, S>(o: Options<T, S>) returns (g: (nat, T, S) -> Number)
    requires Exposed(o)
    ensures Contradicts(WithGrader(o, g))
  {
    hide TaskEntry, FuzzEntry, Contradicts, CanaryGraded, Seeded;
    if o.rewardThreshold > 0.0 {
      var m := if o.rewardThreshold < 1.0 then o.rewardThreshold else 1.0;
      g := (n: nat, t: T, s: S) => Finite(m);
      ExposedIgnoresGrader(o, g);
      FlatGrader(WithGrader(o, g), m);
    } else {
      var i: nat :| i < |o.tasks| && FirstSeeded(o, i) && Below(o.budget, FuzzEntry(o, i).graderCalls);
      var first := FuzzEntry(o, i).graderCalls;
      g := (n: nat, t: T, s: S) => Finite(if n == first then 1.0 else 0.0);
      ExposedIgnoresGrader(o, g);
      EntryIgnoresGrader(o, g, i);
      SameSeeded(o, g);
      OnceGrader(WithGrader(o, g), i, first);
    }
  }
}
