/** What every fuzzing run keeps: its budget, its lineages, its climbs and where they end. */
module FuzzerTheorems {
  import opened Wrappers
  import opened FuzzModel

  // ---- The budget ----

  /** The number of calls a cap allows: the cap rounded up, and none for a negative cap. */
  function CallLimit(cap: real): nat {
    if cap <= 0.0 then 0
    else if cap.Floor as real == cap then cap.Floor
    else cap.Floor + 1
  }

  lemma ReachedAtLimit(cap: real, calls: nat)
    ensures Limit(cap).Reached(calls) <==> calls >= CallLimit(cap)
    ensures CallLimit(cap) as real <= cap <==> cap >= 0.0 && cap.Floor as real == cap
  {
  }

  // ---- Soundness of the trace ----

  /** Position `at` is a seed, or improved on what it was mutated from. */
  ghost predicate Standing<S>(trace: seq<Step<S>>, at: nat) {
    && at < |trace|
    && (trace[at].from.Some? ==>
          && trace[at].from.value.parent < at
          && trace[trace[at].from.value.parent].point.gap < trace[at].point.gap)
  }

  /**
   * Entry i was scored while the budget lasted. It is a seed's own submission, or one mutator applied to an
   * earlier entry of the same seed that was itself a seed or an improvement.
   */
  ghost predicate StepSound<S>(c: Config<S>, trace: seq<Step<S>>, i: nat)
    requires i < |trace|
  {
    var t := trace[i];
    && !c.budget.Reached(i)
    && t.seed < |c.seeds|
    && match t.from
       case None => t == SeedStep(c, i, t.seed)
       case Some(mv) =>
         && mv.parent < i && mv.mutator < |c.mutators|
         && Standing(trace, mv.parent)
         && trace[mv.parent].seed == t.seed
         && var s := c.mutators[mv.mutator].mutate(trace[mv.parent].point.submission);
            s.Some? && t == MoveStep(c, i, trace[mv.parent], mv.parent, mv.mutator, s.value)
  }

  ghost predicate Sound<S>(c: Config<S>, trace: seq<Step<S>>) {
    forall i :: 0 <= i < |trace| ==> StepSound(c, trace, i)
  }

  lemma StepSoundExtends<S>(c: Config<S>, trace: seq<Step<S>>, longer: seq<Step<S>>, i: nat)
    requires trace <= longer && i < |trace|
    ensures StepSound(c, trace, i) <==> StepSound(c, longer, i)
  {
  }

  lemma StandingExtends<S>(trace: seq<Step<S>>, longer: seq<Step<S>>, at: nat)
    requires trace <= longer && at < |trace|
    ensures Standing(trace, at) <==> Standing(longer, at)
  {
  }

  lemma SoundAppend<S>(c: Config<S>, trace: seq<Step<S>>, step: Step<S>)
    requires Sound(c, trace) && StepSound(c, trace + [step], |trace|)
    ensures Sound(c, trace + [step])
  {
    hide StepSound;
    forall i | 0 <= i < |trace| ensures StepSound(c, trace + [step], i) {
      StepSoundExtends(c, trace, trace + [step], i);
    }
  }

  lemma {:induction false} RoundSound<S>(c: Config<S>, trace: seq<Step<S>>, at: nat, m: nat)
    requires m <= |c.mutators| && Sound(c, trace) && Standing(trace, at) && trace[at].seed < |c.seeds|
    ensures Sound(c, Round(c, trace, at, m))
    ensures forall i :: |trace| <= i < |Round(c, trace, at, m)| ==>
                          Round(c, trace, at, m)[i].from.Some? && Round(c, trace, at, m)[i].from.value.parent == at
    decreases |c.mutators| - m
  {
    hide PointAt;
    if m < |c.mutators| && !c.budget.Reached(|trace|) {
      match c.mutators[m].mutate(trace[at].point.submission)
      case None => RoundSound(c, trace, at, m + 1);
      case Some(s) =>
        var step := MoveStep(c, |trace|, trace[at], at, m, s);
        StandingExtends(trace, trace + [step], at);
        SoundAppend(c, trace, step);
        RoundSound(c, trace + [step], at, m + 1);
    }
  }

  lemma {:induction false} ClimbSound<S>(c: Config<S>, trace: seq<Step<S>>, at: nat, steps: nat)
    requires Sound(c, trace) && Standing(trace, at) && trace[at].seed < |c.seeds|
    ensures Sound(c, Climb(c, trace, at, steps))
    decreases steps
  {
    hide Sound, Round, PointAt;
    if steps > 0 && !c.budget.Reached(|trace|) {
      var after := Round(c, trace, at, 0);
      RoundSound(c, trace, at, 0);
      RoundSeeds(c, trace, at, 0);
      var b := Best(after, |trace|);
      if b.Some? && after[b.value].point.gap > after[at].point.gap {
        assert Standing(after, b.value);
        ClimbSound(c, after, b.value, steps - 1);
      }
    }
  }

  lemma {:induction false} SearchSound<S>(c: Config<S>, trace: seq<Step<S>>, k: nat)
    requires k <= |c.seeds| && Sound(c, trace)
    ensures Sound(c, Search(c, trace, k))
    decreases |c.seeds| - k
  {
    hide PointAt, Climb;
    if k < |c.seeds| && !c.budget.Reached(|trace|) {
      var step := SeedStep(c, |trace|, k);
      SoundAppend(c, trace, step);
      ClimbSound(c, trace + [step], |trace|, c.Steps());
      SearchSound(c, Climb(c, trace + [step], |trace|, c.Steps()), k + 1);
    }
  }

  /** Every scored candidate of every run is a seed or a mutation of an improving ancestor, scored within the budget. */
  lemma ScoredSound<S>(c: Config<S>)
    ensures Sound(c, Scored(c))
  {
    SearchSound(c, [], 0);
  }

  /**
   * A run never makes a call past its cap rounded up, and it counts as exhausted exactly when it has made that many.
   * So it stays within the cap itself unless it is exhausted and the cap is negative or not whole.
   */
  lemma CallsWithinBudget<S>(c: Config<S>)
    requires c.budget.Limit?
    ensures var r := Summary(c, Scored(c));
            && r.graderCalls <= CallLimit(c.budget.cap)
            && (r.budgetExhausted <==> r.graderCalls == CallLimit(c.budget.cap))
            && (r.graderCalls as real <= c.budget.cap <==>
                !r.budgetExhausted || (c.budget.cap >= 0.0 && c.budget.cap.Floor as real == c.budget.cap))
  {
    hide Scored, PointAt;
    var trace := Scored(c);
    ScoredSound(c);
    ReachedAtLimit(c.budget.cap, |trace|);
    if |trace| > 0 {
      assert StepSound(c, trace, |trace| - 1);
      ReachedAtLimit(c.budget.cap, |trace| - 1);
    }
  }

  // ---- Lineages ----

  ghost predicate DistinctNames<S>(c: Config<S>) {
    && (forall i, j :: 0 <= i < j < |c.seeds| ==> c.seeds[i].origin != c.seeds[j].origin)
    && (forall i, j :: 0 <= i < j < |c.mutators| ==> c.mutators[i].name != c.mutators[j].name)
  }

  function SeedNamed<S>(seeds: seq<Seed<S>>, origin: string): Option<S> {
    if seeds == [] then None
    else if seeds[0].origin == origin then Some(seeds[0].submission)
    else SeedNamed(seeds[1..], origin)
  }

  function MutatorNamed<S>(mutators: seq<Mutator<S>>, name: string): (r: Option<Mutator<S>>) {
    if mutators == [] then None
    else if mutators[0].name == name then Some(mutators[0])
    else MutatorNamed(mutators[1..], name)
  }

  /** Rebuilding a submission from a lineage: look up the origin, then apply the named mutators in turn. */
  function Replay<S>(c: Config<S>, lineage: seq<string>): Option<S> {
    if |lineage| == 0 then None
    else if |lineage| == 1 then SeedNamed(c.seeds, lineage[0])
    else
      match (Replay(c, lineage[..|lineage| - 1]), MutatorNamed(c.mutators, lineage[|lineage| - 1]))
      case (Some(s), Some(m)) => m.mutate(s)
      case _ => None
  }

  lemma {:induction false} SeedFound<S>(seeds: seq<Seed<S>>, k: nat)
    requires k < |seeds|
    requires forall i, j :: 0 <= i < j < |seeds| ==> seeds[i].origin != seeds[j].origin
    ensures SeedNamed(seeds, seeds[k].origin) == Some(seeds[k].submission)
  {
    if k > 0 {
      assert seeds[0].origin != seeds[k].origin;
      assert seeds[1..][k - 1] == seeds[k];
      SeedFound(seeds[1..], k - 1);
    }
  }

  lemma {:induction false} MutatorFound<S>(mutators: seq<Mutator<S>>, k: nat)
    requires k < |mutators|
    requires forall i, j :: 0 <= i < j < |mutators| ==> mutators[i].name != mutators[j].name
    ensures MutatorNamed(mutators, mutators[k].name) == Some(mutators[k])
  {
    if k > 0 {
      assert mutators[0].name != mutators[k].name;
      assert mutators[1..][k - 1] == mutators[k];
      MutatorFound(mutators[1..], k - 1);
    }
  }

  /** With distinct names, replaying any scored candidate's lineage rebuilds its submission. */
  lemma {:induction false} ReplayRebuilds<S>(c: Config<S>, trace: seq<Step<S>>, i: nat)
    requires Sound(c, trace) && DistinctNames(c) && i < |trace|
    ensures |trace[i].point.lineage| >= 1
    ensures Replay(c, trace[i].point.lineage) == Some(trace[i].point.submission)
    decreases i
  {
    assert StepSound(c, trace, i);
    var t := trace[i];
    match t.from
    case None => SeedFound(c.seeds, t.seed);
    case Some(mv) =>
      ReplayRebuilds(c, trace, mv.parent);
      MutatorFound(c.mutators, mv.mutator);
      var l := t.point.lineage;
      assert l[..|l| - 1] == trace[mv.parent].point.lineage;
  }

  /** Along a lineage every candidate but the last beats the one it was mutated from. */
  lemma {:induction false} LineageClimbs<S>(c: Config<S>, trace: seq<Step<S>>, i: nat)
    requires Sound(c, trace) && i < |trace| && trace[i].from.Some?
    ensures var p := trace[i].from.value.parent;
            && p < i
            && exists root :: 0 <= root <= p && trace[root].from.None? && trace[root].seed == trace[i].seed
                              && trace[root].point.gap <= trace[p].point.gap
                              && (root < p ==> trace[root].point.gap < trace[p].point.gap)
    decreases i
  {
    hide PointAt;
    assert StepSound(c, trace, i);
    var p := trace[i].from.value.parent;
    assert StepSound(c, trace, p);
    if trace[p].from.Some? {
      LineageClimbs(c, trace, p);
    }
  }

  // ---- What the result says ----

  /** The best candidate is the earliest with the largest gap, and there is none only when nothing was scored. */
  lemma BestIsFirstMaximum<S>(c: Config<S>)
    ensures var r := Summary(c, Scored(c));
            && (r.best.None? <==> r.graderCalls == 0)
            && (r.best.None? <==> c.seeds == [] || c.budget.Reached(0))
            && (r.best.Some? ==> exists b :: 0 <= b < |Scored(c)| && r.best.value == Scored(c)[b].point
                                             && (forall k :: 0 <= k < |Scored(c)| ==> Scored(c)[k].point.gap <= r.best.value.gap)
                                             && (forall k :: 0 <= k < b ==> Scored(c)[k].point.gap < r.best.value.gap))
  {
    hide PointAt, Climb, Cleared;
    var trace := Scored(c);
    if c.seeds != [] && !c.budget.Reached(0) {
      assert [] + [SeedStep(c, 0, 0)] == [SeedStep(c, 0, 0)];
      assert |trace| > 0;
    }
  }

  /** So a search that is never paid anything still has a best candidate, with reward 0. */
  lemma NothingPaidHasBest<S>(c: Config<S>)
    requires c.seeds != [] && !c.budget.Reached(0) && forall n, s :: c.grader(n, s) == Finite(0.0)
    ensures Summary(c, Scored(c)).best.Some? && Summary(c, Scored(c)).best.value.reward == 0.0
  {
    hide Scored, Climb, Cleared;
    BestIsFirstMaximum(c);
    ScoredSound(c);
    var b := Best(Scored(c), 0).value;
    assert StepSound(c, Scored(c), b);
  }

  /** A gap rests on an assumption exactly when there is no oracle and the seed was declared unsolving. */
  lemma AssumedExactly<S>(c: Config<S>, i: nat)
    requires i < |Scored(c)|
    ensures Scored(c)[i].seed < |c.seeds|
    ensures Scored(c)[i].point.gapIsAssumed <==> c.oracle.None? && c.seeds[Scored(c)[i].seed].provablyUnsolving
    ensures Scored(c)[i].point.solve.Some? <==> c.oracle.Some?
    ensures -1.0 <= Scored(c)[i].point.gap <= Scored(c)[i].point.reward <= 1.0
  {
    hide Scored;
    ScoredSound(c);
    assert StepSound(c, Scored(c), i);
  }

  // ---- Where a run that was not cut short ends ----

  /** Every mutation of entry `at` that was not declined was scored, and none beat it. */
  ghost predicate LocalOptimum<S>(c: Config<S>, trace: seq<Step<S>>, at: nat)
    requires at < |trace|
  {
    forall m: nat :: m < |c.mutators| && c.mutators[m].mutate(trace[at].point.submission).Some? ==>
                       exists j :: 0 <= j < |trace| && trace[j].from == Some(Move(at, m)) && trace[j].point.gap <= trace[at].point.gap
  }

  /** The climb of seed k stopped at a local optimum, or after as many steps as it was allowed. */
  ghost predicate Settled<S>(c: Config<S>, trace: seq<Step<S>>, k: nat) {
    exists at :: 0 <= at < |trace| && trace[at].seed == k
                 && (LocalOptimum(c, trace, at) || |trace[at].point.lineage| == c.Steps() + 1)
  }

  lemma {:induction false} RoundComplete<S>(c: Config<S>, trace: seq<Step<S>>, at: nat, m: nat)
    requires at < |trace| && m <= |c.mutators| && trace[at].seed < |c.seeds|
    requires !c.budget.Reached(|Round(c, trace, at, m)|)
    ensures forall n: nat :: m <= n < |c.mutators| && c.mutators[n].mutate(trace[at].point.submission).Some? ==>
                               exists j :: |trace| <= j < |Round(c, trace, at, m)| && Round(c, trace, at, m)[j].from == Some(Move(at, n))
    decreases |c.mutators| - m
  {
    hide PointAt;
    if m < |c.mutators| {
      BudgetMonotone(c.budget, |trace|, |Round(c, trace, at, m)|);
      match c.mutators[m].mutate(trace[at].point.submission)
      case None => RoundComplete(c, trace, at, m + 1);
      case Some(s) =>
        var next := trace + [MoveStep(c, |trace|, trace[at], at, m, s)];
        RoundComplete(c, next, at, m + 1);
        var r := Round(c, trace, at, m);
        assert r == Round(c, next, at, m + 1);
        assert r[|trace|].from == Some(Move(at, m));
    }
  }

  lemma BudgetStays(b: Budget, x: nat, y: nat)
    requires x <= y && b.Reached(x)
    ensures b.Reached(y)
  {
  }

  lemma BudgetMonotone(b: Budget, x: nat, y: nat)
    requires x <= y && !b.Reached(y)
    ensures !b.Reached(x)
  {
  }

  lemma {:induction false} ClimbSettles<S>(c: Config<S>, trace: seq<Step<S>>, at: nat, steps: nat)
    requires Sound(c, trace) && Standing(trace, at) && trace[at].seed < |c.seeds|
    requires steps <= c.Steps() && |trace[at].point.lineage| == c.Steps() - steps + 1
    requires !c.budget.Reached(|Climb(c, trace, at, steps)|)
    ensures Settled(c, Climb(c, trace, at, steps), trace[at].seed)
    decreases steps
  {
    hide Round, PointAt, LocalOptimum, Sound;
    var end := Climb(c, trace, at, steps);
    BudgetMonotone(c.budget, |trace|, |end|);
    if steps == 0 {
      assert end[at] == trace[at];
    } else {
      var after := Round(c, trace, at, 0);
      RoundSound(c, trace, at, 0);
      RoundSeeds(c, trace, at, 0);
      BudgetMonotone(c.budget, |after|, |end|);
      var b := Best(after, |trace|);
      if b.None? || after[b.value].point.gap <= after[at].point.gap {
        NoneBetter(c, trace, at);
        assert end == after && after[at] == trace[at];
      } else {
        LineageLengthens(c, after, b.value, at);
        ClimbSettles(c, after, b.value, steps - 1);
      }
    }
  }

  lemma LineageLengthens<S>(c: Config<S>, trace: seq<Step<S>>, i: nat, at: nat)
    requires Sound(c, trace) && i < |trace| && trace[i].from.Some? && trace[i].from.value.parent == at
    ensures at < i && |trace[i].point.lineage| == |trace[at].point.lineage| + 1
  {
    assert StepSound(c, trace, i);
  }

  lemma NoneBetter<S>(c: Config<S>, trace: seq<Step<S>>, at: nat)
    requires at < |trace| && trace[at].seed < |c.seeds|
    requires var after := Round(c, trace, at, 0);
             && !c.budget.Reached(|after|)
             && (Best(after, |trace|).None? || after[Best(after, |trace|).value].point.gap <= after[at].point.gap)
    ensures LocalOptimum(c, Round(c, trace, at, 0), at)
  {
    hide Round, PointAt;
    RoundComplete(c, trace, at, 0);
  }

  lemma SettledExtends<S>(c: Config<S>, trace: seq<Step<S>>, longer: seq<Step<S>>, k: nat)
    requires trace <= longer && Settled(c, trace, k)
    ensures Settled(c, longer, k)
  {
    var at :| 0 <= at < |trace| && trace[at].seed == k
              && (LocalOptimum(c, trace, at) || |trace[at].point.lineage| == c.Steps() + 1);
    assert longer[at] == trace[at];
    if LocalOptimum(c, trace, at) {
      forall m: nat | m < |c.mutators| && c.mutators[m].mutate(longer[at].point.submission).Some?
        ensures exists j :: 0 <= j < |longer| && longer[j].from == Some(Move(at, m)) && longer[j].point.gap <= longer[at].point.gap
      {
        var j :| 0 <= j < |trace| && trace[j].from == Some(Move(at, m)) && trace[j].point.gap <= trace[at].point.gap;
        assert longer[j] == trace[j];
      }
      assert LocalOptimum(c, longer, at);
    }
  }

  lemma {:induction false} SearchSettles<S>(c: Config<S>, trace: seq<Step<S>>, k: nat)
    requires k <= |c.seeds| && Sound(c, trace) && (forall i :: 0 <= i < k ==> Settled(c, trace, i))
    requires !c.budget.Reached(|Search(c, trace, k)|)
    ensures forall i :: 0 <= i < |c.seeds| ==> Settled(c, Search(c, trace, k), i)
    decreases |c.seeds| - k
  {
    hide PointAt, Climb, Settled, Sound;
    if k < |c.seeds| {
      BudgetMonotone(c.budget, |trace|, |Search(c, trace, k)|);
      var step := SeedStep(c, |trace|, k);
      var start := trace + [step];
      var next := Climb(c, start, |trace|, c.Steps());
      assert Search(c, trace, k) == Search(c, next, k + 1);
      BudgetMonotone(c.budget, |next|, |Search(c, next, k + 1)|);
      assert StepSound(c, start, |trace|);
      SoundAppend(c, trace, step);
      assert |start[|trace|].point.lineage| == 1 by {
        SeedLineage(c, |trace|, k);
      }
      ClimbSound(c, start, |trace|, c.Steps());
      ClimbSettles(c, start, |trace|, c.Steps());
      forall i | 0 <= i < k ensures Settled(c, next, i) {
        SettledExtends(c, trace, next, i);
      }
      SearchSettles(c, next, k + 1);
    }
  }

  lemma SeedLineage<S>(c: Config<S>, call: nat, k: nat)
    requires k < |c.seeds|
    ensures SeedStep(c, call, k).point.lineage == [c.seeds[k].origin]
  {
  }

  /** A run that its budget did not stop took every seed to a local optimum or to the step limit. */
  lemma ConvergedRun<S>(c: Config<S>)
    requires !Summary(c, Scored(c)).budgetExhausted
    ensures forall k :: 0 <= k < |c.seeds| ==> Settled(c, Scored(c), k)
  {
    SearchSettles(c, [], 0);
  }
}
