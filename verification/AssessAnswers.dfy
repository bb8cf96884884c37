/** What the figures of an assessment report are, in terms of what grader and oracle answered to which calls. */
module AssessAnswers {
  import opened Wrappers
  import opened FuzzModel
  import FuzzerTheorems
  import FuzzAnswers
  import opened AssessModel
  import opened AssessTheorems
  import opened AssessBudget
  import AssessBasis

  // ---- Sums, means and spreads ----

  /** A sum splits anywhere; with the two small cases that fixes it. */
  lemma {:induction false} SumAdds(xs: seq<real>, ys: seq<real>)
    ensures Sum([]) == 0.0 && (|xs| == 1 ==> Sum(xs) == xs[0])
    ensures Sum(xs + ys) == Sum(xs) + Sum(ys)
    decreases |ys|
  {
    if |xs| == 1 {
      assert xs[..0] == [];
    }
    if ys == [] {
      assert xs + ys == xs;
    } else {
      var n := |ys| - 1;
      SumAdds(xs, ys[..n]);
      assert (xs + ys)[..|xs + ys| - 1] == xs + ys[..n];
    }
  }

  function Squares(xs: seq<real>): seq<real> {
    seq(|xs|, i requires 0 <= i < |xs| => xs[i] * xs[i])
  }

  lemma {:induction false} SumOfDistances(xs: seq<real>, m: real)
    ensures Sum(SquaredDistances(xs, m)) == Sum(Squares(xs)) - 2.0 * m * Sum(xs) + |xs| as real * (m * m)
  {
    hide *;
    if xs == [] {
      NoDistances(m);
    } else {
      var n := |xs| - 1;
      SumOfDistances(xs[..n], m);
      CutSquares(xs, m, n);
      SumLast(xs);
      SumLast(Squares(xs));
      SumLast(SquaredDistances(xs, m));
      OneDistance(Sum(Squares(xs[..n])), Sum(xs[..n]), n as real, m, xs[n]);
    }
  }

  lemma NoDistances(m: real)
    ensures Sum(SquaredDistances([], m)) == Sum(Squares([])) == Sum([]) == 0.0
  {
  }

  lemma SumLast(xs: seq<real>)
    requires xs != []
    ensures Sum(xs) == Sum(xs[..|xs| - 1]) + xs[|xs| - 1]
  {
  }

  lemma CutSquares(xs: seq<real>, m: real, n: nat)
    requires n + 1 == |xs|
    ensures |SquaredDistances(xs, m)| == |Squares(xs)| == |xs|
    ensures SquaredDistances(xs, m)[..n] == SquaredDistances(xs[..n], m) && SquaredDistances(xs, m)[n] == (xs[n] - m) * (xs[n] - m)
    ensures Squares(xs)[..n] == Squares(xs[..n]) && Squares(xs)[n] == xs[n] * xs[n]
  {
    forall i | 0 <= i < n
      ensures SquaredDistances(xs, m)[..n][i] == SquaredDistances(xs[..n], m)[i] && Squares(xs)[..n][i] == Squares(xs[..n])[i]
    {
      assert xs[..n][i] == xs[i];
    }
  }

  lemma OneDistance(q: real, s: real, n: real, m: real, x: real)
    ensures q - 2.0 * m * s + n * (m * m) + (x - m) * (x - m) == (q + x * x) - 2.0 * m * (s + x) + (n + 1.0) * (m * m)
  {
    assert (x - m) * (x - m) == x * x - 2.0 * (m * x) + m * m;
  }

  /** The mean times the number of grades is their sum; no grades have mean 0. */
  lemma MeanMeaning(xs: seq<real>)
    ensures xs == [] ==> Mean(xs) == 0.0
    ensures Mean(xs) * |xs| as real == Sum(xs)
  {
  }

  /** The spread of two or more grades is the mean of their squares less the square of their mean; fewer have none. */
  lemma VarianceMeaning(xs: seq<real>)
    ensures |xs| < 2 ==> Variance(xs) == 0.0
    ensures |xs| >= 2 ==> Variance(xs) == Mean(Squares(xs)) - Mean(xs) * Mean(xs)
  {
    hide *;
    VarianceUnfolds(xs);
    if |xs| >= 2 {
      SumOfDistances(xs, Mean(xs));
      MeanMeaning(xs);
      DivideOut(Sum(SquaredDistances(xs, Mean(xs))), Sum(Squares(xs)), Sum(xs), |xs| as real, Mean(xs));
    }
  }

  lemma VarianceUnfolds(xs: seq<real>)
    ensures |xs| < 2 ==> Variance(xs) == 0.0
    ensures |xs| >= 2 ==> Variance(xs) == Sum(SquaredDistances(xs, Mean(xs))) / |xs| as real
    ensures |xs| >= 2 ==> Mean(Squares(xs)) == Sum(Squares(xs)) / |xs| as real
  {
    hide Sum;
  }

  lemma DivideOut(d: real, q: real, s: real, n: real, m: real)
    requires n > 0.0 && m * n == s && d == q - 2.0 * m * s + n * (m * m)
    ensures d / n == q / n - m * m
  {
    assert 2.0 * m * s == 2.0 * (n * (m * m));
    assert d == q - n * (m * m);
    assert (n * (m * m)) / n == m * m;
  }

  lemma DistanceMeaning(a: real, b: real)
    ensures Distance(a, b) == if a >= b then a - b else b - a
    ensures Distance(a, b) == Distance(b, a) >= 0.0
  {
  }

  // ---- Grades ----

  /** The grades that calls number `from`, `from` + 1, ... give this pair, as many as there are. */
  ghost predicate AreGrades<T, S>(o: Options<T, S>, from: nat, task: T, s: S, xs: seq<real>) {
    forall i :: 0 <= i < |xs| ==> xs[i] == Clamp01(o.grader(from + i, task, s))
  }

  /** All the grades asked for; or fewer, and then the budget was reached after them, and not before any of them. */
  ghost predicate AsMany<T, S>(o: Options<T, S>, from: nat, want: nat, xs: seq<real>) {
    && |xs| <= want
    && (forall call: nat :: from <= call < from + |xs| ==> !o.budget.Reached(call))
    && (|xs| < want ==> o.budget.Reached(from + |xs|))
  }

  lemma {:induction false} AffordableAll(b: Budget, calls: nat, want: nat, i: nat)
    requires i < Affordable(b, calls, want)
    ensures !b.Reached(calls + i)
    decreases want
  {
    if i > 0 {
      AffordableAll(b, calls + 1, want - 1, i - 1);
    }
  }

  lemma GradesOf<T, S>(o: Options<T, S>, l: Ledger, task: T, s: S, want: nat)
    ensures var xs := Graded(o, l, task, s, want);
            && AreGrades(o, l.graderCalls, task, s, xs) && AsMany(o, l.graderCalls, want, xs)
            && After(o, l, want).graderCalls == l.graderCalls + |xs|
            && (After(o, l, want).budgetExhausted <==> l.budgetExhausted || |xs| < want)
  {
    hide Affordable;
    AffordableMeaning(o.budget, l.graderCalls, want);
    forall call: nat | l.graderCalls <= call < l.graderCalls + Affordable(o.budget, l.graderCalls, want)
      ensures !o.budget.Reached(call)
    {
      AffordableAll(o.budget, l.graderCalls, want, call - l.graderCalls);
    }
  }

  /** The probe of the determinism check: the first task with its reference, or else with its first canary. */
  lemma ProbeMeaning<T, S>(o: Options<T, S>)
    ensures o.tasks == [] || o.determinismSamples <= 1 ==> DeterminismProbe(o) == None
    ensures o.tasks != [] && o.determinismSamples > 1 && o.reference.Some? && o.reference.value(o.tasks[0]).Some? ==>
              DeterminismProbe(o) == o.reference.value(o.tasks[0])
    ensures o.tasks != [] && o.determinismSamples > 1 && (o.reference.None? || o.reference.value(o.tasks[0]).None?) ==>
              DeterminismProbe(o) == if o.canaries == [] then None else o.canaries[0].build(o.tasks[0])
  {
  }

  // ---- Canaries ----

  /** A finding of a probe that did not run. */
  predicate DidNotRun(f: Finding, channel: string, reward: real, caveat: Caveat) {
    f == Finding(channel, NotTested, reward, None, None, 0.0, 0, Some(caveat))
  }

  /** The finding of a canary whose grades are xs. */
  ghost predicate CanaryReports(f: Finding, id: string, rationale: string, threshold: real, xs: seq<real>) {
    if xs == [] then DidNotRun(f, id, 0.0, BudgetBeforeCanary)
    else
      && f.channel == id && f.repeats == |xs| && f.solve == Some(0.0)
      && f.reward * |xs| as real == Sum(xs) && f.gap == Some(f.reward)
      && f.rewardVariance == Variance(xs)
      && f.status == (if f.reward > threshold then Open else Closed)
      && f.caveat == if f.reward > threshold then Some(PaidUnsolved(f.reward, rationale)) else None
  }

  /**
   Every canary finding of a report: a canary that does not apply is not tested; any other reports the mean and the spread
   of a grader's answers to consecutive calls on the submission it builds, as many as were asked for or affordable.
   */
  lemma CanaryReported<T, S>(o: Options<T, S>, i: nat, k: nat) returns (from: nat, xs: seq<real>)
    requires i < |o.tasks| && k < |o.canaries|
    ensures |AssessmentOf(o).report.perTask| == |o.tasks| && |AssessmentOf(o).report.perTask[i].canaryFindings| == |o.canaries|
    ensures var f, task, c := AssessmentOf(o).report.perTask[i].canaryFindings[k], o.tasks[i], o.canaries[k];
            match c.build(task)
            case None => DidNotRun(f, c.id, 0.0, CanaryDoesNotApply)
            case Some(s) =>
              && AreGrades(o, from, task, s, xs) && AsMany(o, from, if o.repeats < 1 then 1 else o.repeats, xs)
              && TaskEntry(o, i).graderCalls <= from && from + |xs| <= FuzzEntry(o, i).graderCalls
              && CanaryReports(f, c.id, c.rationale, o.rewardThreshold, xs)
  {
    hide *;
    AssessBasis.TaskParts(o, i);
    CanaryCount(o, o.tasks[i], TaskEntry(o, i), |o.canaries|);
    CanaryAt(o, o.tasks[i], TaskEntry(o, i), |o.canaries|, k);
    EntryIs(o, i, k);
    AssessBasis.CanaryBetween(o, i, k);
    AssessBasis.CanaryBetween(o, i, k + 1);
    from, xs := CanaryAnswers(o, o.tasks[i], o.canaries[k], AssessBasis.CanaryEntry(o, i, k));
    if o.canaries[k].build(o.tasks[i]).Some? {
      NextCanary(o, i, k);
    }
  }

  lemma EntryIs<T, S>(o: Options<T, S>, i: nat, k: nat)
    requires i < |o.tasks| && k <= |o.canaries|
    ensures AssessBasis.CanaryEntry(o, i, k) == CanaryPhase(o, o.tasks[i], TaskEntry(o, i), k).1
  {
    hide CanaryPhase, TaskEntry;
  }

  lemma CanaryAnswers<T, S>(o: Options<T, S>, task: T, c: Canary<T, S>, l: Ledger) returns (from: nat, xs: seq<real>)
    ensures from == l.graderCalls
    ensures var f := CanaryFinding(o, task, c, l).0;
            match c.build(task)
            case None => DidNotRun(f, c.id, 0.0, CanaryDoesNotApply)
            case Some(s) =>
              && AreGrades(o, from, task, s, xs) && AsMany(o, from, if o.repeats < 1 then 1 else o.repeats, xs)
              && After(o, l, o.Want()).graderCalls == from + |xs|
              && CanaryReports(f, c.id, c.rationale, o.rewardThreshold, xs)
  {
    hide Graded, After, Mean, Variance, Sum;
    from, xs := l.graderCalls, [];
    if c.build(task).Some? {
      xs := Graded(o, l, task, c.build(task).value, o.Want());
      GradesOf(o, l, task, c.build(task).value, o.Want());
      MeanMeaning(xs);
    }
  }

  lemma NextCanary<T, S>(o: Options<T, S>, i: nat, k: nat)
    requires i < |o.tasks| && k < |o.canaries| && o.canaries[k].build(o.tasks[i]).Some?
    ensures AssessBasis.CanaryEntry(o, i, k + 1) == After(o, AssessBasis.CanaryEntry(o, i, k), o.Want())
  {
    hide After, Graded, Mean, Variance, TaskEntry;
  }

  // ---- Perturbations ----

  /** The finding of a rewrite that was graded, against the baseline. */
  ghost predicate RewriteReports<T, S>(f: Finding, p: Perturbation<T, S>, base: seq<real>, xs: seq<real>) {
    if xs == [] then DidNotRun(f, p.name, Mean(base), BudgetBeforeRewrite)
    else
      && f.channel == p.name && f.repeats == |xs| && f.solve == None && f.gap == None
      && f.reward * |xs| as real == Sum(xs)
      && f.rewardVariance == Variance(xs)
      && f.status == (if f.reward != Mean(base) then Open else Closed)
      && f.caveat == if f.reward != Mean(base) then Some(RewardMoved(Distance(f.reward, Mean(base)), p.rationale, p.assumption)) else None
  }

  /** The grades of the unchanged reference of task i, taken once for all its rewrites, after the canaries. */
  function Baseline<T, S>(o: Options<T, S>, i: nat): seq<real>
    requires i < |o.tasks| && o.ReferenceFor(o.tasks[i]).Some?
  {
    Graded(o, AssessBasis.CanaryEntry(o, i, |o.canaries|), o.tasks[i], o.ReferenceFor(o.tasks[i]).value, o.Want())
  }

  lemma BaselineGrades<T, S>(o: Options<T, S>, i: nat)
    requires i < |o.tasks| && o.ReferenceFor(o.tasks[i]).Some?
    ensures var from := AssessBasis.CanaryEntry(o, i, |o.canaries|).graderCalls;
            && AreGrades(o, from, o.tasks[i], o.ReferenceFor(o.tasks[i]).value, Baseline(o, i))
            && AsMany(o, from, if o.repeats < 1 then 1 else o.repeats, Baseline(o, i))
  {
    hide Graded, TaskEntry, CanaryPhase, After;
    GradesOf(o, AssessBasis.CanaryEntry(o, i, |o.canaries|), o.tasks[i], o.ReferenceFor(o.tasks[i]).value, o.Want());
  }

  lemma PerturbationParts<T, S>(o: Options<T, S>, i: nat)
    requires i < |o.tasks|
    ensures |AssessmentOf(o).report.perTask| == |o.tasks|
    ensures AssessmentOf(o).report.perTask[i].perturbationFindings
            == PerturbationPhase(o, o.tasks[i], AssessBasis.CanaryEntry(o, i, |o.canaries|)).0
  {
    hide Determinism, CanaryPhase, PerturbationPhase, FuzzPhase, AssessmentOf, WorstGap, OpenChannels;
    TasksOfReport(o);
    TaskCount(o, Determinism(o).1, |o.tasks|);
    TaskAt(o, Determinism(o).1, |o.tasks|, i);
  }

  /**
   Every perturbation finding of a report: without a reference, without a baseline, or where the rewrite does not apply it is
   not tested; any other reports the grades of the rewritten pair, and is open exactly when their mean is not the baseline's.
   */
  lemma PerturbationReported<T, S>(o: Options<T, S>, i: nat, k: nat) returns (from: nat, xs: seq<real>)
    requires i < |o.tasks| && k < |o.perturbations|
    ensures |AssessmentOf(o).report.perTask| == |o.tasks| && |AssessmentOf(o).report.perTask[i].perturbationFindings| == |o.perturbations|
    ensures var f, task, p := AssessmentOf(o).report.perTask[i].perturbationFindings[k], o.tasks[i], o.perturbations[k];
            match o.ReferenceFor(task)
            case None => DidNotRun(f, p.name, 0.0, NoReference)
            case Some(s) =>
              if Baseline(o, i) == [] then DidNotRun(f, p.name, 0.0, BudgetBeforeBaseline)
              else
                match p.apply(task, s)
                case None => DidNotRun(f, p.name, Mean(Baseline(o, i)), RewriteDoesNotApply)
                case Some(r) =>
                  && AreGrades(o, from, r.0, r.1, xs) && AsMany(o, from, if o.repeats < 1 then 1 else o.repeats, xs)
                  && from >= AssessBasis.CanaryEntry(o, i, |o.canaries|).graderCalls + |Baseline(o, i)|
                  && RewriteReports(f, p, Baseline(o, i), xs)
  {
    hide AssessmentOf, AssessBasis.CanaryEntry, Graded, After, Mean, Variance, Sum, RewritePhase;
    PerturbationParts(o, i);
    var l := AssessBasis.CanaryEntry(o, i, |o.canaries|);
    from, xs := 0, [];
    if o.ReferenceFor(o.tasks[i]).Some? {
      var s := o.ReferenceFor(o.tasks[i]).value;
      var a := After(o, l, o.Want());
      GradesOf(o, l, o.tasks[i], s, o.Want());
      from, xs := RewriteAnswers(o, o.tasks[i], s, Baseline(o, i), a, k);
      RewriteCount(o, o.tasks[i], s, Baseline(o, i), a, |o.perturbations|);
    }
  }

  lemma RewriteAnswers<T, S>(o: Options<T, S>, task: T, s: S, base: seq<real>, a: Ledger, k: nat) returns (from: nat, xs: seq<real>)
    requires k < |o.perturbations|
    ensures |RewritePhase(o, task, s, base, a, |o.perturbations|).0| == |o.perturbations|
    ensures from >= a.graderCalls
    ensures var f, p := RewritePhase(o, task, s, base, a, |o.perturbations|).0[k], o.perturbations[k];
            if base == [] then DidNotRun(f, p.name, 0.0, BudgetBeforeBaseline)
            else
              match p.apply(task, s)
              case None => DidNotRun(f, p.name, Mean(base), RewriteDoesNotApply)
              case Some(r) =>
                && AreGrades(o, from, r.0, r.1, xs) && AsMany(o, from, if o.repeats < 1 then 1 else o.repeats, xs)
                && RewriteReports(f, p, base, xs)
  {
    hide Graded, After, Variance, Sum, RewritePhase;
    RewriteAt(o, task, s, base, a, |o.perturbations|, k);
    RewriteLater(o, task, s, base, a, k);
    var l := RewritePhase(o, task, s, base, a, k).1;
    from, xs := l.graderCalls, [];
    MeanMeaning(base);
    match o.perturbations[k].apply(task, s)
    case None =>
    case Some(r) =>
      if base != [] {
        xs := Graded(o, l, r.0, r.1, o.Want());
        GradesOf(o, l, r.0, r.1, o.Want());
        MeanMeaning(xs);
      }
  }
}
