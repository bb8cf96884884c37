/** Where the shared call budget goes: when it is overrun, and when fuzzing is skipped without a word. */
module AssessBudget {
  import opened Wrappers
  import opened FuzzModel
  import FuzzerTheorems
  import opened AssessModel
  import opened AssessTheorems

  // ---- The ledger along a run ----

  /** The ledger with which task i is entered. */
  function TaskEntry<T, S>(o: Options<T, S>, i: nat): Ledger
    requires i <= |o.tasks|
  {
    AssessTasks(o, Determinism(o).1, i).1
  }

  /** The ledger with which the fuzz phase of task i is entered. */
  function FuzzEntry<T, S>(o: Options<T, S>, i: nat): Ledger
    requires i < |o.tasks|
  {
    PerturbationPhase(o, o.tasks[i], CanaryPhase(o, o.tasks[i], TaskEntry(o, i), |o.canaries|).1).1
  }

  /** Some canary applies to the task, so that fuzzing has a seed. */
  predicate Seeded<T, S>(o: Options<T, S>, task: T) {
    Seeds(o.canaries, task) != []
  }

  predicate FuzzRuns<T, S>(o: Options<T, S>, i: nat)
    requires i < |o.tasks|
  {
    o.fuzz.Some? && Seeded(o, o.tasks[i]) && Below(o.budget, FuzzEntry(o, i).graderCalls)
  }

  /** What the fuzz phase of task i scores if it runs. */
  function FuzzSearch<T, S>(o: Options<T, S>, i: nat): seq<Step<S>>
    requires i < |o.tasks| && o.fuzz.Some?
  {
    Scored(FuzzConfig(o, o.fuzz.value, o.tasks[i], FuzzEntry(o, i).graderCalls))
  }

  lemma NextEntry<T, S>(o: Options<T, S>, i: nat)
    requires i < |o.tasks|
    ensures TaskEntry(o, i + 1) == if FuzzRuns(o, i) then Ledger(FuzzEntry(o, i).graderCalls + |FuzzSearch(o, i)|, FuzzEntry(o, i).budgetExhausted)
                                   else FuzzEntry(o, i)
  {
    hide CanaryPhase, PerturbationPhase, Determinism, Scored, Seeds, FuzzConfig, WorstGap, OpenChannels, BestPoint, Cleared;
  }

  /** Calls are only ever added, and a refusal is never forgotten. */
  predicate Later(l: Ledger, m: Ledger) {
    l.graderCalls <= m.graderCalls && (l.budgetExhausted ==> m.budgetExhausted)
  }

  /** Grading never goes past the limit it has not yet passed. */
  predicate Kept(b: Budget, l: Ledger, m: Ledger) {
    b.Limit? && l.graderCalls <= FuzzerTheorems.CallLimit(b.cap) ==> m.graderCalls <= FuzzerTheorems.CallLimit(b.cap)
  }

  lemma AfterLater<T, S>(o: Options<T, S>, l: Ledger, want: nat)
    ensures Later(l, After(o, l, want)) && Kept(o.budget, l, After(o, l, want))
  {
    hide Affordable;
    AffordableMeaning(o.budget, l.graderCalls, want);
    var k := Affordable(o.budget, l.graderCalls, want);
    if k > 0 && o.budget.Limit? {
      FuzzerTheorems.ReachedAtLimit(o.budget.cap, l.graderCalls + k - 1);
    }
  }

  lemma {:induction false} CanaryLater<T, S>(o: Options<T, S>, task: T, l: Ledger, i: nat, k: nat)
    requires i <= k <= |o.canaries|
    ensures Later(CanaryPhase(o, task, l, i).1, CanaryPhase(o, task, l, k).1)
    ensures Kept(o.budget, CanaryPhase(o, task, l, i).1, CanaryPhase(o, task, l, k).1)
    decreases k
  {
    hide After, Kept;
    KeptSame(o.budget, CanaryPhase(o, task, l, i).1);
    if i < k {
      CanaryLater(o, task, l, i, k - 1);
      var m := CanaryPhase(o, task, l, k - 1).1;
      AfterLater(o, m, o.Want());
      KeptChain(o.budget, CanaryPhase(o, task, l, i).1, m, After(o, m, o.Want()));
    }
  }

  lemma KeptSame(b: Budget, l: Ledger)
    ensures Kept(b, l, l)
  {
  }

  lemma KeptChain(b: Budget, l: Ledger, m: Ledger, n: Ledger)
    requires Kept(b, l, m) && Kept(b, m, n)
    ensures Kept(b, l, n)
  {
  }

  lemma {:induction false} RewriteLater<T, S>(o: Options<T, S>, task: T, s: S, b: seq<real>, l: Ledger, k: nat)
    requires k <= |o.perturbations|
    ensures Later(l, RewritePhase(o, task, s, b, l, k).1) && Kept(o.budget, l, RewritePhase(o, task, s, b, l, k).1)
  {
    hide After, Kept;
    KeptSame(o.budget, l);
    if k > 0 {
      RewriteLater(o, task, s, b, l, k - 1);
      var m := RewritePhase(o, task, s, b, l, k - 1).1;
      AfterLater(o, m, o.Want());
      KeptChain(o.budget, l, m, After(o, m, o.Want()));
    }
  }

  lemma PerturbationLater<T, S>(o: Options<T, S>, task: T, l: Ledger)
    ensures Later(l, PerturbationPhase(o, task, l).1) && Kept(o.budget, l, PerturbationPhase(o, task, l).1)
  {
    hide After, RewritePhase, Graded, Kept;
    KeptSame(o.budget, l);
    if o.ReferenceFor(task).Some? {
      var s := o.ReferenceFor(task).value;
      var a := After(o, l, o.Want());
      AfterLater(o, l, o.Want());
      RewriteLater(o, task, s, Graded(o, l, task, s, o.Want()), a, |o.perturbations|);
      KeptChain(o.budget, l, a, RewritePhase(o, task, s, Graded(o, l, task, s, o.Want()), a, |o.perturbations|).1);
    }
  }

  lemma FuzzEntryLater<T, S>(o: Options<T, S>, i: nat)
    requires i < |o.tasks|
    ensures Later(TaskEntry(o, i), FuzzEntry(o, i)) && Kept(o.budget, TaskEntry(o, i), FuzzEntry(o, i))
    ensures Later(FuzzEntry(o, i), TaskEntry(o, i + 1))
  {
    hide CanaryPhase, PerturbationPhase, TaskEntry, Kept, FuzzSearch;
    var task, l := o.tasks[i], TaskEntry(o, i);
    var m := CanaryPhase(o, task, l, |o.canaries|).1;
    CanaryStart(o, task, l);
    CanaryLater(o, task, l, 0, |o.canaries|);
    PerturbationLater(o, task, m);
    KeptChain(o.budget, l, m, PerturbationPhase(o, task, m).1);
    NextEntry(o, i);
  }

  lemma CanaryStart<T, S>(o: Options<T, S>, task: T, l: Ledger)
    ensures CanaryPhase(o, task, l, 0) == ([], l)
  {
  }

  lemma {:induction false} EntryLater<T, S>(o: Options<T, S>, i: nat, k: nat)
    requires i <= k <= |o.tasks|
    ensures Later(TaskEntry(o, i), TaskEntry(o, k))
    decreases k
  {
    hide TaskEntry, FuzzEntry;
    if i < k {
      EntryLater(o, i, k - 1);
      FuzzEntryLater(o, k - 1);
    }
  }

  /** The number of calls and the budget line of the report are those of the last ledger. */
  lemma ReportLedger<T, S>(o: Options<T, S>)
    ensures AssessmentOf(o).report.graderCalls == TaskEntry(o, |o.tasks|).graderCalls
    ensures BudgetExhausted in AssessmentOf(o).report.limitations <==> TaskEntry(o, |o.tasks|).budgetExhausted
  {
    hide Determinism, AssessTasks, Limitations;
    BudgetLine(o);
  }

  // ---- The total cap ----

  /** The fuzz phase of task i does not run, or ends within the cap rounded up. */
  predicate FuzzFits<T, S>(o: Options<T, S>, i: nat)
    requires i < |o.tasks| && o.budget.Limit?
  {
    FuzzRuns(o, i) ==> FuzzEntry(o, i).graderCalls + |FuzzSearch(o, i)| <= FuzzerTheorems.CallLimit(o.budget.cap)
  }

  /** The total cap is kept exactly when the search of every fuzz phase fits into what is left of it. */
  lemma CapKeptExactly<T, S>(o: Options<T, S>)
    requires o.budget.Limit?
    ensures AssessmentOf(o).report.graderCalls <= FuzzerTheorems.CallLimit(o.budget.cap)
            <==> forall i :: 0 <= i < |o.tasks| ==> FuzzFits(o, i)
  {
    hide TaskEntry, FuzzEntry, FuzzSearch, FuzzerTheorems.CallLimit, AssessmentOf, FuzzRuns;
    ReportLedger(o);
    var limit := FuzzerTheorems.CallLimit(o.budget.cap);
    if forall i :: 0 <= i < |o.tasks| ==> FuzzFits(o, i) {
      FitsToEnd(o, |o.tasks|);
    }
    forall i: nat | i < |o.tasks| && !FuzzFits(o, i) ensures TaskEntry(o, |o.tasks|).graderCalls > limit {
      NextEntry(o, i);
      EntryLater(o, i + 1, |o.tasks|);
    }
  }

  lemma {:induction false} FitsToEnd<T, S>(o: Options<T, S>, k: nat)
    requires o.budget.Limit? && k <= |o.tasks| && forall i :: 0 <= i < k ==> FuzzFits(o, i)
    ensures TaskEntry(o, k).graderCalls <= FuzzerTheorems.CallLimit(o.budget.cap)
    decreases k
  {
    hide TaskEntry, FuzzEntry, FuzzSearch, FuzzerTheorems.CallLimit, FuzzRuns;
    if k == 0 {
      StartWithin(o);
    } else {
      FitsToEnd(o, k - 1);
      FuzzEntryLater(o, k - 1);
      NextEntry(o, k - 1);
      assert FuzzFits(o, k - 1);
    }
  }

  lemma StartWithin<T, S>(o: Options<T, S>)
    requires o.budget.Limit?
    ensures TaskEntry(o, 0).graderCalls <= FuzzerTheorems.CallLimit(o.budget.cap)
  {
    hide After, Graded, Variance;
    if DeterminismProbe(o).Some? {
      AfterLater(o, Ledger(0, false), o.determinismSamples);
    }
  }

  /** A search whose cap is not a number is the search without a cap. */
  lemma NotANumberIsUnlimited<S>(c: Config<S>)
    requires c.budget.NotANumber?
    ensures Scored(c) == Scored(c.(budget := Unlimited))
  {
    SearchUncapped(c, c.(budget := Unlimited), [], 0);
  }

  /** The same configuration but for the cap, and neither cap ever stops anything. */
  ghost predicate Uncapped<S>(c: Config<S>, d: Config<S>) {
    && (c.budget.NotANumber? || c.budget.Unlimited?)
    && d == c.(budget := Unlimited)
  }

  lemma {:induction false} RoundUncapped<S>(c: Config<S>, d: Config<S>, trace: seq<Step<S>>, at: nat, m: nat)
    requires Uncapped(c, d) && at < |trace| && m <= |c.mutators| && trace[at].seed < |c.seeds|
    ensures Round(c, trace, at, m) == Round(d, trace, at, m)
    decreases |c.mutators| - m
  {
    if m < |c.mutators| {
      match c.mutators[m].mutate(trace[at].point.submission)
      case None => RoundUncapped(c, d, trace, at, m + 1);
      case Some(s) => RoundUncapped(c, d, trace + [MoveStep(c, |trace|, trace[at], at, m, s)], at, m + 1);
    }
  }

  lemma {:induction false} ClimbUncapped<S>(c: Config<S>, d: Config<S>, trace: seq<Step<S>>, at: nat, steps: nat)
    requires Uncapped(c, d) && at < |trace| && trace[at].seed < |c.seeds|
    ensures Climb(c, trace, at, steps) == Climb(d, trace, at, steps)
    decreases steps
  {
    hide Round, Best;
    if steps > 0 {
      var after := Round(c, trace, at, 0);
      RoundUncapped(c, d, trace, at, 0);
      RoundSeeds(c, trace, at, 0);
      var b := Best(after, |trace|);
      if b.Some? && after[b.value].point.gap > after[at].point.gap {
        ClimbUncapped(c, d, after, b.value, steps - 1);
      }
    }
  }

  lemma {:induction false} SearchUncapped<S>(c: Config<S>, d: Config<S>, trace: seq<Step<S>>, k: nat)
    requires Uncapped(c, d) && k <= |c.seeds|
    ensures Search(c, trace, k) == Search(d, trace, k)
    ensures |Search(c, trace, k)| >= |trace| + |c.seeds| - k
    decreases |c.seeds| - k
  {
    hide Climb;
    if k < |c.seeds| {
      var start := trace + [SeedStep(c, |trace|, k)];
      ClimbUncapped(c, d, start, |trace|, c.Steps());
      SearchUncapped(c, d, Climb(c, start, |trace|, c.Steps()), k + 1);
    }
  }

  /**
   With a per-task cap that is not a number, a fuzz phase that runs scores the whole uncapped search, at least one
   candidate for every seed; so the total cap is kept exactly when all those searches happen to fit.
   */
  lemma NotANumberSearches<T, S>(o: Options<T, S>, i: nat)
    requires i < |o.tasks| && o.fuzz.Some? && o.fuzz.value.callsPerTask.NotANumber?
    ensures var c := FuzzConfig(o, o.fuzz.value, o.tasks[i], FuzzEntry(o, i).graderCalls);
            && FuzzSearch(o, i) == Scored(c.(budget := Unlimited))
            && |FuzzSearch(o, i)| >= |Seeds(o.canaries, o.tasks[i])|
  {
    hide FuzzEntry, Seeds;
    var c := FuzzConfig(o, o.fuzz.value, o.tasks[i], FuzzEntry(o, i).graderCalls);
    NotANumberIsUnlimited(c);
    SearchUncapped(c, c.(budget := Unlimited), [], 0);
  }

  /** In particular it is overrun as soon as one of those phases has more seeds than calls left. */
  lemma NotANumberOverruns<T, S>(o: Options<T, S>, i: nat)
    requires i < |o.tasks| && o.fuzz.Some? && o.fuzz.value.callsPerTask.NotANumber? && o.budget.Limit? && FuzzRuns(o, i)
    requires FuzzEntry(o, i).graderCalls + |Seeds(o.canaries, o.tasks[i])| > FuzzerTheorems.CallLimit(o.budget.cap)
    ensures AssessmentOf(o).report.graderCalls > FuzzerTheorems.CallLimit(o.budget.cap)
  {
    hide FuzzEntry, FuzzSearch, Seeds, AssessmentOf, FuzzerTheorems.CallLimit;
    NotANumberSearches(o, i);
    CapKeptExactly(o);
    assert !FuzzFits(o, i);
  }

  // ---- Fuzzing that is skipped ----

  /** Fuzzing was asked for and task i has a seed, but the budget was spent when its turn came. */
  predicate FuzzSkipped<T, S>(o: Options<T, S>, i: nat)
    requires i < |o.tasks|
  {
    o.fuzz.Some? && Seeded(o, o.tasks[i]) && !Below(o.budget, FuzzEntry(o, i).graderCalls)
  }

  /** Nothing is graded for the task: no canary applies and there is no reference to rewrite. */
  predicate Idle<T, S>(o: Options<T, S>, task: T) {
    !Seeded(o, task) && o.ReferenceFor(task).None?
  }

  lemma SeededMeaning<T, S>(o: Options<T, S>, task: T)
    ensures Seeded(o, task) <==> exists k :: 0 <= k < |o.canaries| && o.canaries[k].build(task).Some?
  {
    SeedsMeaning(o.canaries, task);
  }

  lemma {:induction false} SeedsMeaning<T, S>(canaries: seq<Canary<T, S>>, task: T)
    ensures Seeds(canaries, task) != [] <==> exists k :: 0 <= k < |canaries| && canaries[k].build(task).Some?
  {
    if canaries != [] {
      var n := |canaries| - 1;
      SeedsMeaning(canaries[..n], task);
      if Seeds(canaries[..n], task) != [] {
        var k :| 0 <= k < n && canaries[..n][k].build(task).Some?;
        assert canaries[k].build(task).Some?;
      }
    }
  }

  lemma {:induction false} CanariesIdle<T, S>(o: Options<T, S>, task: T, l: Ledger, k: nat)
    requires k <= |o.canaries| && forall i :: 0 <= i < k ==> o.canaries[i].build(task).None?
    ensures CanaryPhase(o, task, l, k).1 == l
  {
    if k > 0 {
      CanariesIdle(o, task, l, k - 1);
    }
  }

  /** An idle task leaves the ledger alone. */
  lemma IdleKeeps<T, S>(o: Options<T, S>, i: nat)
    requires i < |o.tasks| && Idle(o, o.tasks[i])
    ensures TaskEntry(o, i + 1) == FuzzEntry(o, i) == TaskEntry(o, i)
  {
    hide CanaryPhase, Seeds, TaskEntry, FuzzSearch;
    SeededMeaning(o, o.tasks[i]);
    CanariesIdle(o, o.tasks[i], TaskEntry(o, i), |o.canaries|);
    NextEntry(o, i);
  }

  lemma AfterRefused<T, S>(o: Options<T, S>, l: Ledger)
    requires o.budget.Reached(l.graderCalls)
    ensures After(o, l, o.Want()).budgetExhausted
  {
    AffordableNone(o.budget, l.graderCalls, o.Want());
  }

  /** A task that is not idle, entered with the budget spent, is refused a grade. */
  lemma BusyIsRefused<T, S>(o: Options<T, S>, i: nat)
    requires i < |o.tasks| && o.budget.Reached(TaskEntry(o, i).graderCalls) && !Idle(o, o.tasks[i])
    ensures FuzzEntry(o, i).budgetExhausted
  {
    hide CanaryPhase, TaskEntry, Seeds, RewritePhase, Graded, After;
    var task, l := o.tasks[i], TaskEntry(o, i);
    var m := CanaryPhase(o, task, l, |o.canaries|).1;
    CanaryStart(o, task, l);
    CanaryLater(o, task, l, 0, |o.canaries|);
    PerturbationLater(o, task, m);
    if Seeded(o, task) {
      SeededMeaning(o, task);
      var k :| 0 <= k < |o.canaries| && o.canaries[k].build(task).Some?;
      CanaryIsRefused(o, task, l, k);
      CanaryLater(o, task, l, k + 1, |o.canaries|);
    } else {
      var s := o.ReferenceFor(task).value;
      FuzzerTheorems.BudgetStays(o.budget, l.graderCalls, m.graderCalls);
      AfterRefused(o, m);
      RewriteLater(o, task, s, Graded(o, m, task, s, o.Want()), After(o, m, o.Want()), |o.perturbations|);
    }
  }

  lemma CanaryIsRefused<T, S>(o: Options<T, S>, task: T, l: Ledger, k: nat)
    requires k < |o.canaries| && o.canaries[k].build(task).Some? && o.budget.Reached(l.graderCalls)
    ensures CanaryPhase(o, task, l, k + 1).1.budgetExhausted
  {
    hide After, Graded;
    CanaryStart(o, task, l);
    CanaryLater(o, task, l, 0, k);
    FuzzerTheorems.BudgetStays(o.budget, l.graderCalls, CanaryPhase(o, task, l, k).1.graderCalls);
    AfterRefused(o, CanaryPhase(o, task, l, k).1);
  }

  /** After a skip the run stays silent exactly when no later task has anything to grade. */
  lemma {:induction false} SilentAfter<T, S>(o: Options<T, S>, i: nat)
    requires i <= |o.tasks| && o.budget.Reached(TaskEntry(o, i).graderCalls)
    ensures !TaskEntry(o, |o.tasks|).budgetExhausted
            <==> !TaskEntry(o, i).budgetExhausted && forall j :: i <= j < |o.tasks| ==> Idle(o, o.tasks[j])
    decreases |o.tasks| - i
  {
    hide TaskEntry, FuzzEntry, Idle;
    EntryLater(o, i, |o.tasks|);
    if i < |o.tasks| {
      if Idle(o, o.tasks[i]) {
        IdleKeeps(o, i);
        SilentAfter(o, i + 1);
      } else {
        BusyIsRefused(o, i);
        FuzzEntryLater(o, i);
        EntryLater(o, i + 1, |o.tasks|);
      }
    }
  }

  lemma BelowMeaning(b: Budget, calls: nat)
    requires !b.NotANumber?
    ensures Below(b, calls) <==> !b.Reached(calls)
  {
  }

  /** Skipping task i goes unreported exactly when no grade was refused up to then and every later task is idle. */
  lemma SkipSilent<T, S>(o: Options<T, S>, i: nat)
    requires i < |o.tasks| && !o.budget.NotANumber? && FuzzSkipped(o, i)
    ensures BudgetExhausted !in AssessmentOf(o).report.limitations
            <==> !FuzzEntry(o, i).budgetExhausted && forall j :: i < j < |o.tasks| ==> Idle(o, o.tasks[j])
  {
    hide TaskEntry, FuzzEntry, Idle, AssessmentOf, FuzzSearch;
    ReportLedger(o);
    BelowMeaning(o.budget, FuzzEntry(o, i).graderCalls);
    NextEntry(o, i);
    SilentAfter(o, i + 1);
  }

  /**
   A report hides skipped fuzzing exactly when some task with a seed, after which nothing is left to grade, uses up the
   budget with its last grade.
   */
  lemma HiddenSkipExactly<T, S>(o: Options<T, S>)
    requires !o.budget.NotANumber?
    ensures (BudgetExhausted !in AssessmentOf(o).report.limitations && exists i :: 0 <= i < |o.tasks| && FuzzSkipped(o, i))
            <==> exists i :: 0 <= i < |o.tasks| && FuzzSkipped(o, i) && !FuzzEntry(o, i).budgetExhausted
                             && forall j :: i < j < |o.tasks| ==> Idle(o, o.tasks[j])
  {
    hide FuzzEntry, Idle, AssessmentOf, FuzzSkipped;
    forall i: nat | i < |o.tasks| && FuzzSkipped(o, i)
      ensures BudgetExhausted !in AssessmentOf(o).report.limitations
              <==> !FuzzEntry(o, i).budgetExhausted && forall j :: i < j < |o.tasks| ==> Idle(o, o.tasks[j])
    {
      SkipSilent(o, i);
    }
  }

  /** There the calls stand exactly at the cap rounded up. */
  lemma SkipAtTheCap<T, S>(o: Options<T, S>, i: nat)
    requires i < |o.tasks| && o.budget.Limit? && FuzzCapIsNumber(o) && FuzzSkipped(o, i)
    ensures FuzzEntry(o, i).graderCalls == FuzzerTheorems.CallLimit(o.budget.cap)
  {
    hide FuzzEntry, FuzzerTheorems.CallLimit;
    FuzzEntryWithin(o, i);
    var n := FuzzEntry(o, i).graderCalls;
    FuzzerTheorems.ReachedAtLimit(o.budget.cap, n);
    if n > 0 {
      FuzzerTheorems.ReachedAtLimit(o.budget.cap, n - 1);
    }
  }

  lemma FuzzEntryWithin<T, S>(o: Options<T, S>, i: nat)
    requires i < |o.tasks| && FuzzCapIsNumber(o)
    ensures Within(o.budget, FuzzEntry(o, i))
  {
    hide Within, After, Graded, CanaryPhase, PerturbationPhase, AssessTasks;
    assert Within(o.budget, Determinism(o).1) by {
      FreshWithin(o.budget);
      if DeterminismProbe(o).Some? {
        AfterWithin(o, Ledger(0, false), o.determinismSamples);
      }
    }
    TasksWithin(o, Determinism(o).1, i);
    CanaryPhaseWithin(o, o.tasks[i], TaskEntry(o, i), |o.canaries|);
    PerturbationPhaseWithin(o, o.tasks[i], CanaryPhase(o, o.tasks[i], TaskEntry(o, i), |o.canaries|).1);
  }

  lemma FreshWithin(b: Budget)
    ensures Within(b, Ledger(0, false))
  {
  }

  /** Without the budget line, fuzzing ran on every task with a seed that has a task with something to grade after it. */
  lemma FuzzedBeforeTheLast<T, S>(o: Options<T, S>, i: nat, j: nat)
    requires i < j < |o.tasks| && !o.budget.NotANumber? && BudgetExhausted !in AssessmentOf(o).report.limitations
    requires o.fuzz.Some? && Seeded(o, o.tasks[i]) && !Idle(o, o.tasks[j])
    ensures FuzzRuns(o, i)
  {
    hide FuzzEntry, Idle, AssessmentOf, Seeded;
    if FuzzSkipped(o, i) {
      SkipSilent(o, i);
    }
  }

  /** A total cap that is not a number never refuses a grade and never lets fuzzing run. */
  lemma NotANumberCapSkips<T, S>(o: Options<T, S>, i: nat)
    requires i < |o.tasks| && o.budget.NotANumber?
    ensures !FuzzRuns(o, i)
    ensures BudgetExhausted !in AssessmentOf(o).report.limitations
  {
    hide AssessTasks, Determinism, AssessmentOf, FuzzEntry;
    ReportLedger(o);
    assert Within(o.budget, Determinism(o).1) by {
      StartUnrefused(o);
    }
    TasksUnrefused(o, Determinism(o).1, |o.tasks|);
  }

  lemma StartUnrefused<T, S>(o: Options<T, S>)
    requires o.budget.NotANumber?
    ensures Within(o.budget, Determinism(o).1)
  {
    hide Within, After, Graded, Variance;
    FreshWithin(o.budget);
    if DeterminismProbe(o).Some? {
      AfterWithin(o, Ledger(0, false), o.determinismSamples);
    }
  }

  lemma {:induction false} TasksUnrefused<T, S>(o: Options<T, S>, l: Ledger, k: nat)
    requires o.budget.NotANumber? && k <= |o.tasks| && Within(o.budget, l)
    ensures Within(o.budget, AssessTasks(o, l, k).1)
  {
    hide Within, CanaryPhase, PerturbationPhase, WorstGap, OpenChannels, Scored, Seeds;
    if k > 0 {
      TasksUnrefused(o, l, k - 1);
      var m := AssessTasks(o, l, k - 1).1;
      CanaryPhaseWithin(o, o.tasks[k - 1], m, |o.canaries|);
      PerturbationPhaseWithin(o, o.tasks[k - 1], CanaryPhase(o, o.tasks[k - 1], m, |o.canaries|).1);
    }
  }
}
