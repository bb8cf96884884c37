/** What the exploitable gap of an assessment measures, and where its stated basis does not fit it. */
module AssessGaps {
  import opened Wrappers
  import opened FuzzModel
  import FuzzerTheorems
  import opened AssessModel
  import opened AssessTheorems

  /** Some canary or fuzz finding of the task was paid more than it solved. */
  ghost predicate PaidSome(t: TaskAssessment) {
    exists k :: 0 <= k < |t.canaryFindings + Listed(t.fuzzFinding)|
                && (t.canaryFindings + Listed(t.fuzzFinding))[k].gap.Some?
                && (t.canaryFindings + Listed(t.fuzzFinding))[k].gap.value > 0.0
  }

  /** What the gap theorems need to know of one task's findings. */
  ghost predicate TaskFacts<T, S>(o: Options<T, S>, t: TaskAssessment) {
    && t.worstGap == WorstGap(t.canaryFindings, t.fuzzFinding)
    && t.openChannels == OpenChannels(t.canaryFindings + Listed(t.fuzzFinding))
    && (forall k :: 0 <= k < |t.canaryFindings| ==>
                      var f := t.canaryFindings[k];
                      && (f.gap.Some? ==> f.gap.value <= 1.0)
                      && (f.status.Open? <==> f.gap.Some? && f.gap.value > o.rewardThreshold))
    && (t.fuzzFinding.Some? ==>
          var f := t.fuzzFinding.value;
          && f.gap.Some? && o.rewardThreshold < f.gap.value <= 1.0
          && o.fuzz.Some? && f.status == (if o.oracle.Some? then Open else Suspected))
  }

  lemma TaskFactsAt<T, S>(o: Options<T, S>, task: T, l: Ledger)
    ensures TaskFacts(o, AssessTask(o, task, l).0)
  {
    hide CanaryPhase, PerturbationPhase, FuzzPhase, WorstGap, OpenChannels;
    CanaryPhaseMeaning(o, task, l);
    FuzzMeaning(o, task, PerturbationPhase(o, task, CanaryPhase(o, task, l, |o.canaries|).1).1);
  }

  lemma AllTaskFacts<T, S>(o: Options<T, S>)
    ensures |AssessmentOf(o).report.perTask| == |o.tasks|
    ensures forall i :: 0 <= i < |o.tasks| ==> TaskFacts(o, AssessmentOf(o).report.perTask[i])
  {
    hide *;
    TasksOfReport(o);
    var start := Determinism(o).1;
    TaskCount(o, start, |o.tasks|);
    forall i: nat | i < |o.tasks| ensures TaskFacts(o, AssessTasks(o, start, |o.tasks|).0[i]) {
      TaskAt(o, start, |o.tasks|, i);
      TaskFactsAt(o, o.tasks[i], AssessTasks(o, start, i).1);
    }
  }

  lemma WorstGapMeaning<T, S>(o: Options<T, S>, t: TaskAssessment)
    requires TaskFacts(o, t)
    ensures t.worstGap.Some? <==> PaidSome(t)
    ensures t.worstGap.Some? ==> 0.0 < t.worstGap.value <= 1.0
    ensures t.worstGap.Some? ==> forall k :: 0 <= k < |t.canaryFindings| && t.canaryFindings[k].gap.Some? ==> t.canaryFindings[k].gap.value <= t.worstGap.value
    ensures t.worstGap.Some? && t.fuzzFinding.Some? ==> t.fuzzFinding.value.gap.value <= t.worstGap.value
    ensures t.worstGap.None? ==> forall k :: 0 <= k < |t.canaryFindings| && t.canaryFindings[k].gap.Some? ==> t.canaryFindings[k].gap.value <= 0.0
    ensures t.worstGap.None? && t.fuzzFinding.Some? ==> t.fuzzFinding.value.gap.value <= 0.0
  {
    hide MaxOf, PositiveGaps, OpenChannels;
    var fs := t.canaryFindings + Listed(t.fuzzFinding);
    var gaps := PositiveGaps(fs);
    assert forall k :: 0 <= k < |t.canaryFindings| ==> fs[k] == t.canaryFindings[k];
    if t.fuzzFinding.Some? {
      assert fs[|t.canaryFindings|] == t.fuzzFinding.value;
    }
    assert forall k :: 0 <= k < |fs| ==> fs[k].gap.Some? ==> fs[k].gap.value <= 1.0;
    if gaps != [] {
      assert gaps[0] in gaps;
    }
  }

  /** The exploitable gap bounds every canary and fuzz gap of the report from above, and is one of them unless it is 0. */
  lemma GapIsWorst<T, S>(o: Options<T, S>)
    ensures var a := AssessmentOf(o);
            var ts := a.report.perTask;
            && 0.0 <= a.exploitableGap <= 1.0
            && a.verifierConfidence == 1.0 - a.exploitableGap
            && (forall i, k :: 0 <= i < |ts| && 0 <= k < |ts[i].canaryFindings| && ts[i].canaryFindings[k].gap.Some? ==>
                                 ts[i].canaryFindings[k].gap.value <= a.exploitableGap)
            && (forall i :: 0 <= i < |ts| && ts[i].fuzzFinding.Some? && ts[i].fuzzFinding.value.gap.Some? ==>
                              ts[i].fuzzFinding.value.gap.value <= a.exploitableGap)
            && (a.exploitableGap > 0.0 <==> exists i :: 0 <= i < |ts| && PaidSome(ts[i]))
            && (a.exploitableGap > 0.0 ==> exists i :: 0 <= i < |ts| && ts[i].worstGap == Some(a.exploitableGap))
  {
    hide AssessmentOf, TaskFacts, PaidSome;
    var ts := AssessmentOf(o).report.perTask;
    AllTaskFacts(o);
    WorstGapsBound(o);
    forall i, k | 0 <= i < |ts| && 0 <= k < |ts[i].canaryFindings| && ts[i].canaryFindings[k].gap.Some?
      ensures ts[i].canaryFindings[k].gap.value <= AssessmentOf(o).exploitableGap
    {
      WorstGapMeaning(o, ts[i]);
    }
    forall i | 0 <= i < |ts| && ts[i].fuzzFinding.Some? && ts[i].fuzzFinding.value.gap.Some?
      ensures ts[i].fuzzFinding.value.gap.value <= AssessmentOf(o).exploitableGap
    {
      WorstGapMeaning(o, ts[i]);
    }
  }

  /** The same for the worst gaps of the tasks. */
  lemma WorstGapsBound<T, S>(o: Options<T, S>)
    ensures var a := AssessmentOf(o);
            var ts := a.report.perTask;
            && 0.0 <= a.exploitableGap <= 1.0
            && a.verifierConfidence == 1.0 - a.exploitableGap
            && (forall i :: 0 <= i < |ts| && ts[i].worstGap.Some? ==> ts[i].worstGap.value <= a.exploitableGap)
            && (a.exploitableGap > 0.0 <==> exists i :: 0 <= i < |ts| && PaidSome(ts[i]))
            && (a.exploitableGap > 0.0 ==> exists i :: 0 <= i < |ts| && ts[i].worstGap == Some(a.exploitableGap))
  {
    hide AssessmentOf, TaskFacts, PaidSome;
    var a := AssessmentOf(o);
    var ts := a.report.perTask;
    AllTaskFacts(o);
    GapOfReport(o);
    var gaps := WorstGaps(ts);
    forall i | 0 <= i < |ts|
      ensures ts[i].worstGap.Some? <==> PaidSome(ts[i])
      ensures ts[i].worstGap.Some? ==> 0.0 < ts[i].worstGap.value <= 1.0
    {
      WorstGapMeaning(o, ts[i]);
    }
    assert forall i :: 0 <= i < |ts| && ts[i].worstGap.Some? ==> ts[i].worstGap.value in gaps;
    assert gaps != [] ==> gaps[0] in gaps;
  }

  lemma GapOfReport<T, S>(o: Options<T, S>)
    ensures var a := AssessmentOf(o);
            var gaps := WorstGaps(a.report.perTask);
            && a.exploitableGap == (if gaps == [] then 0.0 else MaxOf(gaps))
            && a.verifierConfidence == Clamp01(Finite(1.0 - a.exploitableGap))
            && a.basis == (if AnyFuzzOpen(a.report.perTask) then MeasuredWithOracle
                           else if AnyCanaryOpen(a.report.perTask) then CanaryConstruction else NotEstablished)
            && a.report.tasksWithOpenChannel == CountOpen(a.report.perTask)
  {
  }

  lemma {:induction false} CountOpenZero(ts: seq<TaskAssessment>)
    ensures CountOpen(ts) == 0 <==> forall i :: 0 <= i < |ts| ==> ts[i].openChannels == []
  {
    if ts != [] {
      CountOpenZero(ts[1..]);
      assert forall i :: 0 < i < |ts| ==> ts[i] == ts[1..][i - 1];
    }
  }

  lemma HasOpenConcat(xs: seq<Finding>, ys: seq<Finding>)
    ensures HasOpen(xs + ys) <==> HasOpen(xs) || HasOpen(ys)
  {
    if HasOpen(xs) {
      var i :| 0 <= i < |xs| && xs[i].status.Open?;
      assert (xs + ys)[i].status.Open?;
    }
    if HasOpen(ys) {
      var i :| 0 <= i < |ys| && ys[i].status.Open?;
      assert (xs + ys)[|xs| + i].status.Open?;
    }
  }

  /** The basis is `not established` exactly when no task has an open channel. */
  lemma BasisMatchesChannels<T, S>(o: Options<T, S>)
    ensures AssessmentOf(o).basis.NotEstablished? <==> AssessmentOf(o).report.tasksWithOpenChannel == 0
  {
    hide AssessmentOf, HasOpen, TaskFacts, CountOpen, Listed;
    var ts := AssessmentOf(o).report.perTask;
    AllTaskFacts(o);
    GapOfReport(o);
    CountOpenZero(ts);
    forall i | 0 <= i < |ts|
      ensures ts[i].openChannels == [] <==> !HasOpen(ts[i].canaryFindings) && !HasOpen(Listed(ts[i].fuzzFinding))
    {
      ChannelsOfTask(o, ts[i]);
    }
  }

  lemma ChannelsOfTask<T, S>(o: Options<T, S>, t: TaskAssessment)
    requires TaskFacts(o, t)
    ensures t.openChannels == [] <==> !HasOpen(t.canaryFindings) && !HasOpen(Listed(t.fuzzFinding))
  {
    hide HasOpen, WorstGap, OpenChannels;
    HasOpenConcat(t.canaryFindings, Listed(t.fuzzFinding));
  }

  /**
   * In terms of the report itself: a positive gap stands beside the words that none was established exactly when no
   * channel is open and some canary or fuzz finding has a positive gap. Module AssessBasis says which options allow it.
   */
  lemma UnestablishedGap<T, S>(o: Options<T, S>)
    ensures var a := AssessmentOf(o);
            var ts := a.report.perTask;
            (a.exploitableGap > 0.0 && a.basis.NotEstablished?)
            <==> (a.report.tasksWithOpenChannel == 0 && exists i :: 0 <= i < |ts| && PaidSome(ts[i]))
  {
    hide *;
    GapIsWorst(o);
    BasisMatchesChannels(o);
  }

  /** With a threshold of at most 0, and an oracle wherever there is fuzzing, a positive gap always has a basis. */
  lemma GapHasBasis<T, S>(o: Options<T, S>)
    requires o.rewardThreshold <= 0.0 && (o.fuzz.Some? ==> o.oracle.Some?)
    ensures AssessmentOf(o).exploitableGap > 0.0 ==> !AssessmentOf(o).basis.NotEstablished?
  {
    hide AssessmentOf, TaskFacts, PaidSome, CountOpen;
    var ts := AssessmentOf(o).report.perTask;
    UnestablishedGap(o);
    AllTaskFacts(o);
    GapOfReport(o);
    CountOpenZero(ts);
    forall i | 0 <= i < |ts| && PaidSome(ts[i]) ensures ts[i].openChannels != [] {
      PaidIsOpen(o, ts[i]);
    }
  }

  lemma PaidIsOpen<T, S>(o: Options<T, S>, t: TaskAssessment)
    requires o.rewardThreshold <= 0.0 && (o.fuzz.Some? ==> o.oracle.Some?)
    requires TaskFacts(o, t) && PaidSome(t)
    ensures t.openChannels != []
  {
    hide WorstGap, OpenChannels;
    var fs := t.canaryFindings + Listed(t.fuzzFinding);
    var k :| 0 <= k < |fs| && fs[k].gap.Some? && fs[k].gap.value > 0.0;
    if k < |t.canaryFindings| {
      assert fs[k] == t.canaryFindings[k];
    }
    assert fs[k].status.Open?;
  }

}
