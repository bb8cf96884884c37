/** What the rest of an assessment report says: its fuzz findings, its counts, its lines, its basis. */
module AssessReports {
  import opened Wrappers
  import opened FuzzModel
  import FuzzerTheorems
  import FuzzAnswers
  import opened AssessModel
  import opened AssessTheorems
  import opened AssessBudget
  import AssessBasis
  import AssessGaps

  // ---- Seeds and channels ----

  /** How many of the first k canaries apply to the task. */
  function Applicable<T, S>(canaries: seq<Canary<T, S>>, task: T, k: nat): nat
    requires k <= |canaries|
  {
    if k == 0 then 0 else Applicable(canaries, task, k - 1) + if canaries[k - 1].build(task).Some? then 1 else 0
  }

  lemma {:induction false} ApplicablePrefix<T, S>(canaries: seq<Canary<T, S>>, task: T, k: nat, n: nat)
    requires k <= n <= |canaries|
    ensures Applicable(canaries[..n], task, k) == Applicable(canaries, task, k)
  {
    if k > 0 {
      ApplicablePrefix(canaries, task, k - 1, n);
    }
  }

  lemma {:induction false} ApplicableGrows<T, S>(canaries: seq<Canary<T, S>>, task: T, k: nat, n: nat)
    requires k <= n <= |canaries|
    ensures Applicable(canaries, task, k) <= Applicable(canaries, task, n)
    decreases n
  {
    if k < n {
      ApplicableGrows(canaries, task, k, n - 1);
    }
  }

  /** The seeds are the submissions of the canaries that apply, in the order of the canaries, each known not to solve the task. */
  lemma {:induction false} SeedsExactly<T, S>(canaries: seq<Canary<T, S>>, task: T, k: nat)
    requires k < |canaries|
    ensures |Seeds(canaries, task)| == Applicable(canaries, task, |canaries|)
    ensures canaries[k].build(task).Some? ==>
              var at := Applicable(canaries, task, k);
              && at < |Seeds(canaries, task)|
              && Seeds(canaries, task)[at] == Seed(canaries[k].id, canaries[k].build(task).value, true)
    decreases |canaries|
  {
    var n := |canaries| - 1;
    SeedsCount(canaries, task);
    SeedsCount(canaries[..n], task);
    ApplicablePrefix(canaries, task, n, n);
    ApplicablePrefix(canaries, task, k, n);
    ApplicableGrows(canaries, task, k, n);
    if k < n {
      SeedsExactly(canaries[..n], task, k);
    }
  }

  lemma {:induction false} SeedsCount<T, S>(canaries: seq<Canary<T, S>>, task: T)
    ensures |Seeds(canaries, task)| == Applicable(canaries, task, |canaries|)
  {
    if canaries != [] {
      var n := |canaries| - 1;
      SeedsCount(canaries[..n], task);
      ApplicablePrefix(canaries, task, n, n);
    }
  }

  function OpenAmong(fs: seq<Finding>, k: nat): nat
    requires k <= |fs|
  {
    if k == 0 then 0 else OpenAmong(fs, k - 1) + if fs[k - 1].status.Open? then 1 else 0
  }

  lemma {:induction false} OpenShift(fs: seq<Finding>, k: nat)
    requires 0 < k <= |fs|
    ensures OpenAmong(fs, k) == (if fs[0].status.Open? then 1 else 0) + OpenAmong(fs[1..], k - 1)
    decreases k
  {
    if k > 1 {
      OpenShift(fs, k - 1);
    }
  }

  /** The open channels of a task are the channels of its open findings, in their order. */
  lemma {:induction false} ChannelsExactly(fs: seq<Finding>, k: nat)
    requires k < |fs|
    ensures |OpenChannels(fs)| == OpenAmong(fs, |fs|)
    ensures fs[k].status.Open? ==> OpenAmong(fs, k) < |OpenChannels(fs)| && OpenChannels(fs)[OpenAmong(fs, k)] == fs[k].channel
    decreases |fs|
  {
    hide HasOpen;
    OpenShift(fs, |fs|);
    ChannelsCount(fs[1..]);
    ChannelsFirst(fs);
    if k > 0 {
      OpenShift(fs, k);
      ChannelsExactly(fs[1..], k - 1);
    }
  }

  lemma {:induction false} ChannelsCount(fs: seq<Finding>)
    ensures |OpenChannels(fs)| == OpenAmong(fs, |fs|)
  {
    if fs != [] {
      OpenShift(fs, |fs|);
      ChannelsCount(fs[1..]);
      ChannelsFirst(fs);
    }
  }

  lemma ChannelsFirst(fs: seq<Finding>)
    requires fs != []
    ensures OpenChannels(fs) == (if fs[0].status.Open? then [fs[0].channel] else []) + OpenChannels(fs[1..])
  {
  }

  // ---- Fuzz findings ----

  /** The search of a fuzz phase asks the assessment's grader and oracle, on the calls after those already made. */
  lemma SearchAsks<T, S>(o: Options<T, S>, f: FuzzOptions<S>, task: T, calls: nat, k: nat, s: S)
    ensures var c := FuzzConfig(o, f, task, calls);
            && c.grader(k, s) == o.grader(calls + k, task, s)
            && (c.oracle.Some? <==> o.oracle.Some?)
            && (o.oracle.Some? ==> c.oracle.value(k, s) == o.oracle.value(calls + k, task, s))
            && c.seeds == Seeds(o.canaries, task)
            && c.mutators == f.mutators && c.maxStepsPerSeed == f.maxStepsPerSeed
  {
  }

  /** And its budget is reached when the per-task cap is, or when what is left of the total cap is used up. */
  lemma SearchStops<T, S>(o: Options<T, S>, f: FuzzOptions<S>, task: T, calls: nat, k: nat)
    requires !o.budget.NotANumber? && !f.callsPerTask.NotANumber?
    ensures FuzzConfig(o, f, task, calls).budget.Reached(k) <==> f.callsPerTask.Reached(k) || o.budget.Reached(calls + k)
  {
    SmallerReached(f.callsPerTask, Remaining(o.budget, calls), k);
  }

  /** A fuzz finding on the candidate scored by call number `call`, in terms of what grader and oracle answered to it. */
  ghost predicate FuzzReports<T, S>(o: Options<T, S>, f: Finding, task: T, call: nat, s: S) {
    var reward := Clamp01(o.grader(call, task, s));
    && f.channel == "fuzz" && f.repeats == 1 && f.rewardVariance == 0.0
    && f.reward == reward
    && match o.oracle
       case None =>
         f.status == Suspected && f.solve == None && f.gap == Some(reward) && f.caveat == Some(MutationMayHaveSolved)
       case Some(g) =>
         var solve := Clamp01(g(call, task, s));
         f.status == Open && f.solve == Some(solve) && f.gap == Some(reward - solve) && f.caveat == Some(MeasuredGap(reward, solve))
  }

  /**
   The fuzz finding of every task of a report. There is one exactly when the fuzz phase ran and scored a candidate whose gap
   exceeds the threshold. It is on the first candidate with the largest gap; its reward is the grade of that call, its gap
   that grade less what the oracle measured, and it is open exactly when there is an oracle.
   */
  lemma FuzzReported<T, S>(o: Options<T, S>, i: nat) returns (b: nat)
    requires i < |o.tasks|
    ensures |AssessmentOf(o).report.perTask| == |o.tasks|
    ensures var f := AssessmentOf(o).report.perTask[i].fuzzFinding;
            && (f.Some? <==> FuzzRuns(o, i) && exists k :: 0 <= k < |FuzzSearch(o, i)| && FuzzSearch(o, i)[k].point.gap > o.rewardThreshold)
            && (f.Some? ==>
                  && b < |FuzzSearch(o, i)|
                  && (forall k :: 0 <= k < |FuzzSearch(o, i)| ==> FuzzSearch(o, i)[k].point.gap <= FuzzSearch(o, i)[b].point.gap)
                  && (forall k :: 0 <= k < b ==> FuzzSearch(o, i)[k].point.gap < FuzzSearch(o, i)[b].point.gap)
                  && f.value.gap == Some(FuzzSearch(o, i)[b].point.gap) && FuzzSearch(o, i)[b].point.gap > o.rewardThreshold
                  && FuzzReports(o, f.value, o.tasks[i], FuzzEntry(o, i).graderCalls + b, FuzzSearch(o, i)[b].point.submission))
  {
    hide *;
    AssessBasis.TaskParts(o, i);
    b := 0;
    if FuzzRuns(o, i) {
      RunMeans(o, i);
      b := FuzzAnswered(o, o.tasks[i], FuzzEntry(o, i));
    } else {
      NoFuzz(o, i);
    }
  }

  lemma RunMeans<T, S>(o: Options<T, S>, i: nat)
    requires i < |o.tasks| && FuzzRuns(o, i)
    ensures o.fuzz.Some? && Below(o.budget, FuzzEntry(o, i).graderCalls) && Seeds(o.canaries, o.tasks[i]) != []
    ensures FuzzSearch(o, i) == Scored(FuzzConfig(o, o.fuzz.value, o.tasks[i], FuzzEntry(o, i).graderCalls))
  {
    hide FuzzEntry, Scored, Seeds;
  }

  lemma NoFuzz<T, S>(o: Options<T, S>, i: nat)
    requires i < |o.tasks| && !FuzzRuns(o, i)
    ensures FuzzPhase(o, o.tasks[i], FuzzEntry(o, i)).0 == None
  {
    hide FuzzEntry, Seeds, Scored;
  }

  lemma FuzzAnswered<T, S>(o: Options<T, S>, task: T, l: Ledger) returns (b: nat)
    requires o.fuzz.Some? && Below(o.budget, l.graderCalls) && Seeds(o.canaries, task) != []
    ensures var f := FuzzPhase(o, task, l).0;
            var trace := Scored(FuzzConfig(o, o.fuzz.value, task, l.graderCalls));
            && (f.Some? <==> exists k :: 0 <= k < |trace| && trace[k].point.gap > o.rewardThreshold)
            && (f.Some? ==>
                  && b < |trace|
                  && (forall k :: 0 <= k < |trace| ==> trace[k].point.gap <= trace[b].point.gap)
                  && (forall k :: 0 <= k < b ==> trace[k].point.gap < trace[b].point.gap)
                  && f.value.gap == Some(trace[b].point.gap) && trace[b].point.gap > o.rewardThreshold
                  && FuzzReports(o, f.value, task, l.graderCalls + b, trace[b].point.submission))
  {
    hide Scored, Seeds, PointAt, Clamp01, Cleared, FuzzConfig, Best;
    var c := FuzzConfig(o, o.fuzz.value, task, l.graderCalls);
    var trace := Scored(c);
    b := 0;
    if trace != [] {
      b := Best(trace, 0).value;
      FuzzAnswers.ScoredAnswers(c, b);
      FuzzerTheorems.AssumedExactly(c, b);
      SearchAsks(o, o.fuzz.value, task, l.graderCalls, b, trace[b].point.submission);
      SeedsUnsolving(o, task);
      FindingOf(o.rewardThreshold, trace, b);
    }
  }

  lemma FindingOf<S>(threshold: real, trace: seq<Step<S>>, b: nat)
    requires Best(trace, 0) == Some(b)
    ensures FuzzFinding(BestPoint(trace), threshold).Some? <==> trace[b].point.gap > threshold
    ensures trace[b].point.gap > threshold ==>
              var p := trace[b].point;
              FuzzFinding(BestPoint(trace), threshold).value
              == if !p.gapIsAssumed && p.solve.Some? then
                   Finding("fuzz", Open, p.reward, p.solve, Some(p.gap), 0.0, 1, Some(MeasuredGap(p.reward, p.solve.value)))
                 else Finding("fuzz", Suspected, p.reward, p.solve, Some(p.gap), 0.0, 1, Some(MutationMayHaveSolved))
  {
    hide Best;
  }

  // ---- Counts ----

  function OpenTasks(ts: seq<TaskAssessment>): set<nat> {
    set i: nat | i < |ts| && ts[i].openChannels != []
  }

  function MovedTasks(ts: seq<TaskAssessment>): set<nat> {
    set i: nat | i < |ts| && HasOpen(ts[i].perturbationFindings)
  }

  function PerturbedTasks(ts: seq<TaskAssessment>): set<nat> {
    set i: nat | i < |ts| && HasTested(ts[i].perturbationFindings)
  }

  function Shifted(s: set<nat>): set<nat> {
    set i | i in s :: i + 1
  }

  lemma {:induction false} ShiftedSize(s: set<nat>)
    ensures |Shifted(s)| == |s|
    decreases s
  {
    if s != {} {
      var x :| x in s;
      ShiftedSize(s - {x});
      forall y ensures y in Shifted(s) <==> y in Shifted(s - {x}) + {x + 1} {
        if y in Shifted(s) {
          var i :| i in s && y == i + 1;
          assert i != x ==> i in s - {x};
        }
      }
      assert Shifted(s) == Shifted(s - {x}) + {x + 1};
      assert x + 1 !in Shifted(s - {x});
    }
  }

  /** One more element at the front of a list: what held at i holds at i + 1. */
  lemma FrontCount(whole: set<nat>, rest: set<nat>, first: bool)
    requires (0 in whole <==> first) && forall i: nat :: i + 1 in whole <==> i in rest
    ensures |whole| == |rest| + if first then 1 else 0
  {
    ShiftedSize(rest);
    var front: set<nat> := if first then {0} else {};
    forall x: nat ensures x in whole <==> x in front + Shifted(rest) {
      if x > 0 {
        assert (x - 1) + 1 in whole <==> x - 1 in rest;
        assert x in Shifted(rest) <==> x - 1 in rest;
      }
    }
    assert whole == front + Shifted(rest);
    assert front !! Shifted(rest);
  }

  lemma MoreOpen(ts: seq<TaskAssessment>)
    requires ts != []
    ensures |OpenTasks(ts)| == |OpenTasks(ts[1..])| + if ts[0].openChannels != [] then 1 else 0
  {
    hide *;
    FrontTask(ts);
    FrontCount(OpenTasks(ts), OpenTasks(ts[1..]), ts[0].openChannels != []);
  }

  lemma MoreMoved(ts: seq<TaskAssessment>)
    requires ts != []
    ensures |MovedTasks(ts)| == |MovedTasks(ts[1..])| + if HasOpen(ts[0].perturbationFindings) then 1 else 0
  {
    hide *;
    FrontTask(ts);
    FrontCount(MovedTasks(ts), MovedTasks(ts[1..]), HasOpen(ts[0].perturbationFindings));
  }

  lemma MorePerturbed(ts: seq<TaskAssessment>)
    requires ts != []
    ensures |PerturbedTasks(ts)| == |PerturbedTasks(ts[1..])| + if HasTested(ts[0].perturbationFindings) then 1 else 0
  {
    hide *;
    FrontTask(ts);
    FrontCount(PerturbedTasks(ts), PerturbedTasks(ts[1..]), HasTested(ts[0].perturbationFindings));
  }

  lemma FrontTask(ts: seq<TaskAssessment>)
    requires ts != []
    ensures 0 in OpenTasks(ts) <==> ts[0].openChannels != []
    ensures 0 in MovedTasks(ts) <==> HasOpen(ts[0].perturbationFindings)
    ensures 0 in PerturbedTasks(ts) <==> HasTested(ts[0].perturbationFindings)
    ensures forall i: nat ::
              && (i + 1 in OpenTasks(ts) <==> i in OpenTasks(ts[1..]))
              && (i + 1 in MovedTasks(ts) <==> i in MovedTasks(ts[1..]))
              && (i + 1 in PerturbedTasks(ts) <==> i in PerturbedTasks(ts[1..]))
  {
    hide HasOpen, HasTested;
    forall i: nat
      ensures i + 1 in OpenTasks(ts) <==> i in OpenTasks(ts[1..])
      ensures i + 1 in MovedTasks(ts) <==> i in MovedTasks(ts[1..])
      ensures i + 1 in PerturbedTasks(ts) <==> i in PerturbedTasks(ts[1..])
    {
      assert i < |ts| - 1 ==> ts[i + 1] == ts[1..][i];
    }
  }

  lemma NoTasks()
    ensures OpenTasks([]) == MovedTasks([]) == PerturbedTasks([]) == {}
    ensures CountOpen([]) == CountMoved([]) == CountPerturbed([]) == 0
  {
  }

  lemma OneMoreTask(ts: seq<TaskAssessment>)
    requires ts != []
    ensures CountOpen(ts) == CountOpen(ts[1..]) + if ts[0].openChannels != [] then 1 else 0
    ensures CountMoved(ts) == CountMoved(ts[1..]) + if HasOpen(ts[0].perturbationFindings) then 1 else 0
    ensures CountPerturbed(ts) == CountPerturbed(ts[1..]) + if HasTested(ts[0].perturbationFindings) then 1 else 0
  {
    hide HasOpen, HasTested;
  }

  /** The three counts are the numbers of tasks with an open channel, with an open rewrite, and with a rewrite that was tested. */
  lemma {:induction false} CountsExactly(ts: seq<TaskAssessment>)
    ensures CountOpen(ts) == |OpenTasks(ts)| && CountMoved(ts) == |MovedTasks(ts)| && CountPerturbed(ts) == |PerturbedTasks(ts)|
  {
    hide *;
    if ts == [] {
      NoTasks();
    } else {
      CountsExactly(ts[1..]);
      OneMoreTask(ts);
      MoreOpen(ts);
      MoreMoved(ts);
      MorePerturbed(ts);
    }
  }

  /** The counts of the report. */
  lemma ReportCounts<T, S>(o: Options<T, S>)
    ensures var r := AssessmentOf(o).report;
            && r.taskCount == |r.perTask| == |o.tasks|
            && r.tasksWithOpenChannel == |OpenTasks(r.perTask)|
            && r.tasksWithSurfaceMovement == |MovedTasks(r.perTask)|
            && r.perturbationTestedTasks == |PerturbedTasks(r.perTask)|
  {
    hide OpenTasks, MovedTasks, PerturbedTasks, AssessTasks, Determinism, Limitations, CountOpen, CountMoved, CountPerturbed;
    TasksOfReport(o);
    TaskCount(o, Determinism(o).1, |o.tasks|);
    CountsExactly(AssessmentOf(o).report.perTask);
  }

  // ---- Lines ----

  function Rank(x: Limitation): nat {
    match x
    case NoOracle => 0
    case NoPerturbationTesting => 1
    case FuzzingDisabled => 2
    case BudgetExhausted => 3
    case Nondeterministic => 4
    case FewTasks => 5
    case UntestedChannels => 6
    case EveryProbeRan => 7
  }

  /** Some canary or rewrite of some task was not tested. */
  ghost predicate LeftOut(ts: seq<TaskAssessment>) {
    exists i, k :: 0 <= i < |ts| &&
      ((0 <= k < |ts[i].canaryFindings| && ts[i].canaryFindings[k].status.NotTested?)
       || (0 <= k < |ts[i].perturbationFindings| && ts[i].perturbationFindings[k].status.NotTested?))
  }

  lemma UntestedMeaning(ts: seq<TaskAssessment>)
    ensures AnyUntested(ts) <==> LeftOut(ts)
  {
    if AnyUntested(ts) {
      var i :| 0 <= i < |ts| && HasUntested(ts[i].canaryFindings + ts[i].perturbationFindings);
      var all, n := ts[i].canaryFindings + ts[i].perturbationFindings, |ts[i].canaryFindings|;
      var k :| 0 <= k < |all| && all[k].status.NotTested?;
      if k < n {
        assert ts[i].canaryFindings[k].status.NotTested?;
      } else {
        assert ts[i].perturbationFindings[k - n].status.NotTested?;
      }
    }
    forall i, k | 0 <= i < |ts| &&
      ((0 <= k < |ts[i].canaryFindings| && ts[i].canaryFindings[k].status.NotTested?)
       || (0 <= k < |ts[i].perturbationFindings| && ts[i].perturbationFindings[k].status.NotTested?))
      ensures HasUntested(ts[i].canaryFindings + ts[i].perturbationFindings)
    {
      var all, n := ts[i].canaryFindings + ts[i].perturbationFindings, |ts[i].canaryFindings|;
      if k < n && ts[i].canaryFindings[k].status.NotTested? {
        assert all[k].status.NotTested?;
      } else {
        assert all[n + k].status.NotTested?;
      }
    }
  }

  /** Each line stands exactly when its reason holds; the last one exactly when there is no other. */
  lemma EachLine(a: bool, b: bool, c: bool, d: bool, e: bool, f: bool, g: bool, x: Limitation)
    ensures x in Lines(a, b, c, d, e, f, g) <==>
              match x
              case NoOracle => !a
              case NoPerturbationTesting => !b
              case FuzzingDisabled => !c
              case BudgetExhausted => d
              case Nondeterministic => e
              case FewTasks => f
              case UntestedChannels => g
              case EveryProbeRan => a && b && c && !d && !e && !f && !g
  {
    hide Stated;
    var reasons := [(!a, NoOracle), (!b, NoPerturbationTesting), (!c, FuzzingDisabled), (d, BudgetExhausted),
                    (e, Nondeterministic), (f, FewTasks), (g, UntestedChannels)];
    StatedMeaning(reasons, x);
    assert reasons[0] == (!a, NoOracle) && reasons[1] == (!b, NoPerturbationTesting) && reasons[2] == (!c, FuzzingDisabled);
    assert reasons[3] == (d, BudgetExhausted) && reasons[4] == (e, Nondeterministic) && reasons[5] == (f, FewTasks);
    assert reasons[6] == (g, UntestedChannels);
  }

  lemma {:induction false} StatedRanked(reasons: seq<(bool, Limitation)>)
    requires forall i, j :: 0 <= i < j < |reasons| ==> Rank(reasons[i].1) < Rank(reasons[j].1)
    ensures forall i, j :: 0 <= i < j < |Stated(reasons)| ==> Rank(Stated(reasons)[i]) < Rank(Stated(reasons)[j])
  {
    hide Rank;
    if reasons != [] {
      var rest := reasons[1..];
      StatedRanked(rest);
      forall j | 0 <= j < |Stated(rest)| ensures Rank(reasons[0].1) < Rank(Stated(rest)[j]) {
        StatedMeaning(rest, Stated(rest)[j]);
        var i :| 0 <= i < |rest| && rest[i].0 && rest[i].1 == Stated(rest)[j];
        assert rest[i] == reasons[i + 1];
      }
    }
  }

  /** The lines of the report: which reasons they state, and that they stand in a fixed order, each at most once. */
  lemma ReportLines<T, S>(o: Options<T, S>)
    ensures var r := AssessmentOf(o).report;
            && (NoOracle in r.limitations <==> o.oracle.None?)
            && (NoPerturbationTesting in r.limitations <==> o.reference.None? || r.perturbationTestedTasks == 0)
            && (FuzzingDisabled in r.limitations <==> o.fuzz.None?)
            && (Nondeterministic in r.limitations <==> r.nondeterministic)
            && (FewTasks in r.limitations <==> |o.tasks| < 20)
            && (UntestedChannels in r.limitations <==> LeftOut(r.perTask))
            && r.limitations != []
            && (EveryProbeRan in r.limitations <==> |r.limitations| == 1 && r.limitations[0] == EveryProbeRan)
            && forall i, j :: 0 <= i < j < |r.limitations| ==> Rank(r.limitations[i]) < Rank(r.limitations[j])
  {
    hide *;
    var r := AssessmentOf(o).report;
    UntestedMeaning(r.perTask);
    var a, b, c, d, e, f, g := LinesOf(o);
    EachLine(a, b, c, d, e, f, g, NoOracle);
    EachLine(a, b, c, d, e, f, g, NoPerturbationTesting);
    EachLine(a, b, c, d, e, f, g, FuzzingDisabled);
    EachLine(a, b, c, d, e, f, g, Nondeterministic);
    EachLine(a, b, c, d, e, f, g, FewTasks);
    EachLine(a, b, c, d, e, f, g, UntestedChannels);
    LinesRanked(a, b, c, d, e, f, g);
  }

  lemma LinesOf<T, S>(o: Options<T, S>) returns (a: bool, b: bool, c: bool, d: bool, e: bool, f: bool, g: bool)
    ensures var r := AssessmentOf(o).report;
            && r.limitations == Lines(a, b, c, d, e, f, g)
            && (a <==> o.oracle.Some?) && (b <==> o.reference.Some? && r.perturbationTestedTasks != 0)
            && (c <==> o.fuzz.Some?) && (e <==> r.nondeterministic) && (f <==> |o.tasks| < 20) && (g <==> AnyUntested(r.perTask))
  {
    hide AssessTasks, Determinism, CountOpen, CountMoved, CountPerturbed, AnyUntested, Lines;
    var r := AssessmentOf(o).report;
    var l := AssessTasks(o, Determinism(o).1, |o.tasks|).1;
    a, b, c, d := o.oracle.Some?, o.reference.Some? && CountPerturbed(r.perTask) > 0, o.fuzz.Some?, l.budgetExhausted;
    e, f, g := r.nondeterministic, |o.tasks| < 20, AnyUntested(r.perTask);
  }

  lemma LinesRanked(a: bool, b: bool, c: bool, d: bool, e: bool, f: bool, g: bool)
    ensures var lines := Lines(a, b, c, d, e, f, g);
            && lines != []
            && (EveryProbeRan in lines <==> |lines| == 1 && lines[0] == EveryProbeRan)
            && forall i, j :: 0 <= i < j < |lines| ==> Rank(lines[i]) < Rank(lines[j])
  {
    hide Stated;
    var reasons := [(!a, NoOracle), (!b, NoPerturbationTesting), (!c, FuzzingDisabled), (d, BudgetExhausted),
                    (e, Nondeterministic), (f, FewTasks), (g, UntestedChannels)];
    StatedRanked(reasons);
    StatedMeaning(reasons, EveryProbeRan);
  }

  // ---- Basis ----

  /** Some task has an open canary finding; some task has an open fuzz finding. */
  ghost predicate CanaryIsOpen(ts: seq<TaskAssessment>) {
    exists i, k :: 0 <= i < |ts| && 0 <= k < |ts[i].canaryFindings| && ts[i].canaryFindings[k].status.Open?
  }

  ghost predicate FuzzIsOpen(ts: seq<TaskAssessment>) {
    exists i :: 0 <= i < |ts| && ts[i].fuzzFinding.Some? && ts[i].fuzzFinding.value.status.Open?
  }

  lemma OpenMeaning(ts: seq<TaskAssessment>)
    ensures AnyCanaryOpen(ts) <==> CanaryIsOpen(ts)
    ensures AnyFuzzOpen(ts) <==> FuzzIsOpen(ts)
  {
    forall i | 0 <= i < |ts| ensures HasOpen(Listed(ts[i].fuzzFinding)) <==> ts[i].fuzzFinding.Some? && ts[i].fuzzFinding.value.status.Open? {
      ListedOpen(ts[i].fuzzFinding);
    }
    if CanaryIsOpen(ts) {
      var i, k :| 0 <= i < |ts| && 0 <= k < |ts[i].canaryFindings| && ts[i].canaryFindings[k].status.Open?;
      assert HasOpen(ts[i].canaryFindings);
    }
    if FuzzIsOpen(ts) {
      var i :| 0 <= i < |ts| && ts[i].fuzzFinding.Some? && ts[i].fuzzFinding.value.status.Open?;
      assert HasOpen(Listed(ts[i].fuzzFinding));
    }
  }

  lemma ListedOpen(f: Option<Finding>)
    ensures HasOpen(Listed(f)) <==> f.Some? && f.value.status.Open?
  {
    if f.Some? {
      assert Listed(f)[0] == f.value;
    }
  }

  /** The basis names the oracle before the canaries, and neither when nothing is open. */
  lemma BasisExactly<T, S>(o: Options<T, S>)
    ensures var a := AssessmentOf(o);
            && (a.basis == MeasuredWithOracle <==> FuzzIsOpen(a.report.perTask))
            && (a.basis == CanaryConstruction <==> !FuzzIsOpen(a.report.perTask) && CanaryIsOpen(a.report.perTask))
            && (a.basis == NotEstablished <==> !FuzzIsOpen(a.report.perTask) && !CanaryIsOpen(a.report.perTask))
  {
    hide AssessTasks, Determinism, Limitations, AnyCanaryOpen, AnyFuzzOpen, FuzzIsOpen, CanaryIsOpen;
    OpenMeaning(AssessmentOf(o).report.perTask);
    TasksOfReport(o);
  }
}
