/** What a fuzzing run records of each candidate, in which order it scores them, and which one it climbs on from. */
module FuzzAnswers {
  import opened Wrappers
  import opened FuzzModel
  import opened FuzzerTheorems

  // ---- What is recorded ----

  function Apart(x: real, y: real): real {
    if x < y then y - x else x - y
  }

  /** Clamping gives 0 for what is no finite number, and otherwise the closest number from 0 to 1. */
  lemma ClampMeaning(n: Number, y: real)
    requires 0.0 <= y <= 1.0
    ensures 0.0 <= Clamp01(n) <= 1.0
    ensures n.NonFinite? ==> Clamp01(n) == 0.0
    ensures n.Finite? ==> Apart(n.value, Clamp01(n)) <= Apart(n.value, y)
    ensures n.Finite? && y != Clamp01(n) ==> Apart(n.value, Clamp01(n)) < Apart(n.value, y)
  {
  }

  /**
   For every scored candidate the reward is the clamped grade that call was given, and the gap is the reward less what the
   oracle measured on that call; without an oracle nothing is measured and the gap is the whole reward.
   */
  lemma ScoredAnswers<S>(c: Config<S>, i: nat)
    requires i < |Scored(c)|
    ensures var p := Scored(c)[i].point;
            && p.reward == Clamp01(c.grader(i, p.submission))
            && match c.oracle
               case None => p.solve == None && p.gap == p.reward
               case Some(o) => p.solve == Some(Clamp01(o(i, p.submission))) && p.gap == p.reward - Clamp01(o(i, p.submission))
  {
    hide Scored, Clamp01;
    ScoredSound(c);
    assert StepSound(c, Scored(c), i);
  }

  /** A submission that is paid as much as it solves shows no gap, whatever it is paid. */
  lemma SolvedShowsNoGap<S>(c: Config<S>, i: nat)
    requires i < |Scored(c)| && c.oracle.Some?
    ensures var p := Scored(c)[i].point;
            p.gap == 0.0 <==> Clamp01(c.grader(i, p.submission)) == Clamp01(c.oracle.value(i, p.submission))
  {
    hide Scored, Clamp01;
    ScoredAnswers(c, i);
  }

  // ---- How far a climb goes ----

  /** The number of mutations in a row that the step limit allows. */
  function StepLimit<S>(c: Config<S>): nat {
    if c.maxStepsPerSeed > 0 then c.maxStepsPerSeed else 0
  }

  ghost predicate Short<S>(trace: seq<Step<S>>, bound: nat) {
    forall i :: 0 <= i < |trace| ==> |trace[i].point.lineage| <= bound
  }

  lemma {:induction false} RoundShort<S>(c: Config<S>, trace: seq<Step<S>>, at: nat, m: nat, bound: nat)
    requires at < |trace| && m <= |c.mutators| && trace[at].seed < |c.seeds|
    requires Short(trace, bound) && |trace[at].point.lineage| < bound
    ensures Short(Round(c, trace, at, m), bound)
    ensures forall i :: |trace| <= i < |Round(c, trace, at, m)| ==>
              |Round(c, trace, at, m)[i].point.lineage| == |trace[at].point.lineage| + 1
    decreases |c.mutators| - m
  {
    if m < |c.mutators| && !c.budget.Reached(|trace|) {
      match c.mutators[m].mutate(trace[at].point.submission)
      case None => RoundShort(c, trace, at, m + 1, bound);
      case Some(s) =>
        var step := MoveStep(c, |trace|, trace[at], at, m, s);
        MoveLength(c, |trace|, trace[at], at, m, s);
        hide PointAt;
        RoundShort(c, trace + [step], at, m + 1, bound);
    }
  }

  lemma MoveLength<S>(c: Config<S>, call: nat, parent: Step<S>, at: nat, m: nat, s: S)
    requires parent.seed < |c.seeds| && m < |c.mutators|
    ensures |MoveStep(c, call, parent, at, m, s).point.lineage| == |parent.point.lineage| + 1
  {
  }

  lemma {:induction false} ClimbShort<S>(c: Config<S>, trace: seq<Step<S>>, at: nat, steps: nat, bound: nat)
    requires at < |trace| && trace[at].seed < |c.seeds|
    requires Short(trace, bound) && |trace[at].point.lineage| + steps <= bound
    ensures Short(Climb(c, trace, at, steps), bound)
    decreases steps
  {
    hide Round, PointAt, Short;
    if steps > 0 && !c.budget.Reached(|trace|) {
      var after := Round(c, trace, at, 0);
      RoundShort(c, trace, at, 0, bound);
      RoundSeeds(c, trace, at, 0);
      var b := Best(after, |trace|);
      if b.Some? && after[b.value].point.gap > after[at].point.gap {
        ClimbShort(c, after, b.value, steps - 1, bound);
      }
    }
  }

  lemma {:induction false} SearchShort<S>(c: Config<S>, trace: seq<Step<S>>, k: nat)
    requires k <= |c.seeds| && Short(trace, StepLimit(c) + 1)
    ensures Short(Search(c, trace, k), StepLimit(c) + 1)
    decreases |c.seeds| - k
  {
    hide PointAt, Climb;
    if k < |c.seeds| && !c.budget.Reached(|trace|) {
      var start := trace + [SeedStep(c, |trace|, k)];
      SeedLineage(c, |trace|, k);
      ClimbShort(c, start, |trace|, c.Steps(), StepLimit(c) + 1);
      SearchShort(c, Climb(c, start, |trace|, c.Steps()), k + 1);
    }
  }

  /** No candidate is more mutations away from its seed than the step limit, and with a limit of 0 or less only seeds are scored. */
  lemma LineageBound<S>(c: Config<S>, i: nat)
    requires i < |Scored(c)|
    ensures |Scored(c)[i].point.lineage| <= (if c.maxStepsPerSeed > 0 then c.maxStepsPerSeed else 0) + 1
  {
    hide Search;
    SearchShort(c, [], 0);
  }

  // ---- The order of scoring ----

  /** Seeds in their order, a seed before its mutations, rounds in the order of what they start from, mutators in their order. */
  predicate Earlier<S>(s: Step<S>, t: Step<S>) {
    || s.seed < t.seed
    || (s.seed == t.seed && t.from.Some?
        && (s.from.None? || s.from.value.parent < t.from.value.parent
            || (s.from.value.parent == t.from.value.parent && s.from.value.mutator < t.from.value.mutator)))
  }

  ghost predicate Ranked<S>(trace: seq<Step<S>>) {
    forall i, j :: 0 <= i < j < |trace| ==> Earlier(trace[i], trace[j])
  }

  /** Everything scored comes before mutator m is tried on position `at` of this seed. */
  ghost predicate AllBefore<S>(trace: seq<Step<S>>, seed: nat, at: nat, m: nat) {
    forall i :: 0 <= i < |trace| ==> BeforeMove(trace[i], seed, at, m)
  }

  predicate BeforeMove<S>(s: Step<S>, seed: nat, at: nat, m: nat) {
    || s.seed < seed
    || (s.seed == seed && (s.from.None? || s.from.value.parent < at || (s.from.value.parent == at && s.from.value.mutator < m)))
  }

  lemma RankedAppend<S>(trace: seq<Step<S>>, step: Step<S>)
    requires Ranked(trace) && forall i :: 0 <= i < |trace| ==> Earlier(trace[i], step)
    ensures Ranked(trace + [step])
  {
  }

  lemma {:induction false} RoundRanked<S>(c: Config<S>, trace: seq<Step<S>>, at: nat, m: nat)
    requires at < |trace| && m <= |c.mutators| && trace[at].seed < |c.seeds|
    requires Ranked(trace) && AllBefore(trace, trace[at].seed, at, m)
    ensures Ranked(Round(c, trace, at, m)) && AllBefore(Round(c, trace, at, m), trace[at].seed, at, |c.mutators|)
    decreases |c.mutators| - m
  {
    hide PointAt, Ranked;
    var seed := trace[at].seed;
    if m == |c.mutators| || c.budget.Reached(|trace|) {
      assert forall i :: 0 <= i < |trace| ==> BeforeMove(trace[i], seed, at, m);
    } else {
      match c.mutators[m].mutate(trace[at].point.submission)
      case None =>
        assert forall i :: 0 <= i < |trace| ==> BeforeMove(trace[i], seed, at, m);
        RoundRanked(c, trace, at, m + 1);
      case Some(s) =>
        var step := MoveStep(c, |trace|, trace[at], at, m, s);
        forall i | 0 <= i < |trace| ensures Earlier(trace[i], step) && BeforeMove(trace[i], seed, at, m + 1) {
          assert BeforeMove(trace[i], seed, at, m);
        }
        RankedAppend(trace, step);
        RoundRanked(c, trace + [step], at, m + 1);
    }
  }

  lemma AllBeforeLater<S>(trace: seq<Step<S>>, seed: nat, at: nat, m: nat, b: nat)
    requires AllBefore(trace, seed, at, m) && at < b
    ensures AllBefore(trace, seed, b, 0)
  {
    forall i | 0 <= i < |trace| ensures BeforeMove(trace[i], seed, b, 0) {
      assert BeforeMove(trace[i], seed, at, m);
    }
  }

  lemma {:induction false} ClimbRanked<S>(c: Config<S>, trace: seq<Step<S>>, at: nat, steps: nat)
    requires at < |trace| && trace[at].seed < |c.seeds| && Ranked(trace) && AllBefore(trace, trace[at].seed, at, 0)
    ensures Ranked(Climb(c, trace, at, steps))
    ensures forall i :: 0 <= i < |Climb(c, trace, at, steps)| ==> Climb(c, trace, at, steps)[i].seed <= trace[at].seed
    decreases steps
  {
    hide Round, PointAt, Ranked;
    var seed := trace[at].seed;
    if steps > 0 && !c.budget.Reached(|trace|) {
      var after := Round(c, trace, at, 0);
      RoundRanked(c, trace, at, 0);
      RoundSeeds(c, trace, at, 0);
      var b := Best(after, |trace|);
      if b.Some? && after[b.value].point.gap > after[at].point.gap {
        AllBeforeLater(after, seed, at, |c.mutators|, b.value);
        ClimbRanked(c, after, b.value, steps - 1);
      } else {
        SeedsSoFar(after, seed, at, |c.mutators|);
      }
    } else {
      SeedsSoFar(trace, seed, at, 0);
    }
  }

  lemma SeedsSoFar<S>(trace: seq<Step<S>>, seed: nat, at: nat, m: nat)
    requires AllBefore(trace, seed, at, m)
    ensures forall i :: 0 <= i < |trace| ==> trace[i].seed <= seed
  {
    forall i | 0 <= i < |trace| ensures trace[i].seed <= seed {
      assert BeforeMove(trace[i], seed, at, m);
    }
  }

  lemma {:induction false} SearchRanked<S>(c: Config<S>, trace: seq<Step<S>>, k: nat)
    requires k <= |c.seeds| && Ranked(trace) && forall i :: 0 <= i < |trace| ==> trace[i].seed < k
    ensures Ranked(Search(c, trace, k))
    decreases |c.seeds| - k
  {
    hide PointAt, Climb, Ranked;
    if k < |c.seeds| && !c.budget.Reached(|trace|) {
      var step := SeedStep(c, |trace|, k);
      var start := trace + [step];
      forall i | 0 <= i < |start| ensures BeforeMove(start[i], k, |trace|, 0) {
      }
      RankedAppend(trace, step);
      ClimbRanked(c, start, |trace|, c.Steps());
      SearchRanked(c, Climb(c, start, |trace|, c.Steps()), k + 1);
    }
  }

  /** Everything is scored in that order, and nothing twice. */
  lemma ScoredInOrder<S>(c: Config<S>, i: nat, j: nat)
    requires i < j < |Scored(c)|
    ensures Earlier(Scored(c)[i], Scored(c)[j])
  {
    hide Search;
    assert Ranked<S>([]);
    SearchRanked(c, [], 0);
  }

  // ---- The choice of the next candidate ----

  ghost predicate ParentsBelow<S>(trace: seq<Step<S>>, n: nat) {
    forall i :: 0 <= i < |trace| && trace[i].from.Some? ==> trace[i].from.value.parent < n
  }

  /** Every mutation of entry q that was not declined was scored. */
  ghost predicate AllTried<S>(c: Config<S>, trace: seq<Step<S>>, q: nat)
    requires q < |trace|
  {
    forall m: nat :: m < |c.mutators| && c.mutators[m].mutate(trace[q].point.submission).Some? ==>
                       exists j :: 0 <= j < |trace| && trace[j].from == Some(Move(q, m))
  }

  /** Entry p is a seed; or all mutations of what it was mutated from were scored, and it is the first with the largest gap among them. */
  ghost predicate ChosenFirst<S>(c: Config<S>, trace: seq<Step<S>>, p: nat) {
    && p < |trace|
    && (trace[p].from.Some? ==>
          var q := trace[p].from.value.parent;
          && q < |trace| && AllTried(c, trace, q)
          && forall j :: 0 <= j < |trace| && trace[j].from.Some? && trace[j].from.value.parent == q ==>
               trace[j].point.gap <= trace[p].point.gap && (j < p ==> trace[j].point.gap < trace[p].point.gap))
  }

  /** Whatever was mutated further had been chosen so. */
  ghost predicate Steep<S>(c: Config<S>, trace: seq<Step<S>>) {
    forall i :: 0 <= i < |trace| && trace[i].from.Some? ==> ChosenFirst(c, trace, trace[i].from.value.parent)
  }

  /** Later mutations of other entries change nothing about a choice. */
  lemma ChosenExtends<S>(c: Config<S>, trace: seq<Step<S>>, longer: seq<Step<S>>, p: nat, n: nat)
    requires trace <= longer && ChosenFirst(c, trace, p) && ParentsBelow(trace, n)
    requires forall i :: |trace| <= i < |longer| && longer[i].from.Some? ==> longer[i].from.value.parent >= n
    ensures ChosenFirst(c, longer, p)
  {
    assert longer[p] == trace[p];
    if trace[p].from.Some? {
      var q := trace[p].from.value.parent;
      assert longer[q] == trace[q];
      forall m: nat | m < |c.mutators| && c.mutators[m].mutate(longer[q].point.submission).Some?
        ensures exists j :: 0 <= j < |longer| && longer[j].from == Some(Move(q, m))
      {
        var j :| 0 <= j < |trace| && trace[j].from == Some(Move(q, m));
        assert longer[j] == trace[j];
      }
      forall j | 0 <= j < |longer| && longer[j].from.Some? && longer[j].from.value.parent == q
        ensures longer[j].point.gap <= longer[p].point.gap && (j < p ==> longer[j].point.gap < longer[p].point.gap)
      {
        assert j < |trace| && longer[j] == trace[j];
      }
    }
  }

  lemma {:induction false} RoundParents<S>(c: Config<S>, trace: seq<Step<S>>, at: nat, m: nat)
    requires at < |trace| && m <= |c.mutators| && trace[at].seed < |c.seeds|
    ensures forall i :: |trace| <= i < |Round(c, trace, at, m)| ==>
              Round(c, trace, at, m)[i].from.Some? && Round(c, trace, at, m)[i].from.value.parent == at
    decreases |c.mutators| - m
  {
    hide PointAt;
    if m < |c.mutators| && !c.budget.Reached(|trace|) {
      match c.mutators[m].mutate(trace[at].point.submission)
      case None => RoundParents(c, trace, at, m + 1);
      case Some(s) => RoundParents(c, trace + [MoveStep(c, |trace|, trace[at], at, m, s)], at, m + 1);
    }
  }

  lemma RoundSteep<S>(c: Config<S>, trace: seq<Step<S>>, at: nat)
    requires at < |trace| && trace[at].seed < |c.seeds|
    requires Steep(c, trace) && ParentsBelow(trace, at) && ChosenFirst(c, trace, at)
    ensures Steep(c, Round(c, trace, at, 0)) && ParentsBelow(Round(c, trace, at, 0), at + 1)
  {
    hide Round, PointAt, ChosenFirst;
    var after := Round(c, trace, at, 0);
    RoundParents(c, trace, at, 0);
    forall i | 0 <= i < |after| && after[i].from.Some? ensures ChosenFirst(c, after, after[i].from.value.parent) {
      if i < |trace| {
        assert after[i] == trace[i];
        ChosenExtends(c, trace, after, trace[i].from.value.parent, at);
      } else {
        ChosenExtends(c, trace, after, at, at);
      }
    }
    forall i | 0 <= i < |after| && after[i].from.Some? ensures after[i].from.value.parent < at + 1 {
      if i < |trace| {
        assert after[i] == trace[i];
      }
    }
  }

  /** The best of a round that was not cut short is such a choice. */
  lemma BestChosen<S>(c: Config<S>, trace: seq<Step<S>>, at: nat, b: nat)
    requires at < |trace| && trace[at].seed < |c.seeds| && ParentsBelow(trace, at)
    requires var after := Round(c, trace, at, 0); !c.budget.Reached(|after|) && Best(after, |trace|) == Some(b)
    ensures ChosenFirst(c, Round(c, trace, at, 0), b)
  {
    hide Round, PointAt;
    var after := Round(c, trace, at, 0);
    RoundParents(c, trace, at, 0);
    RoundComplete(c, trace, at, 0);
    assert forall j :: 0 <= j < |trace| ==> after[j] == trace[j];
  }

  lemma {:induction false} ClimbSteep<S>(c: Config<S>, trace: seq<Step<S>>, at: nat, steps: nat)
    requires at < |trace| && trace[at].seed < |c.seeds|
    requires Steep(c, trace) && ParentsBelow(trace, at) && ChosenFirst(c, trace, at)
    ensures Steep(c, Climb(c, trace, at, steps)) && ParentsBelow(Climb(c, trace, at, steps), |Climb(c, trace, at, steps)|)
    decreases steps
  {
    hide Round, PointAt, Steep, ChosenFirst;
    if steps > 0 && !c.budget.Reached(|trace|) {
      var after := Round(c, trace, at, 0);
      RoundSteep(c, trace, at);
      RoundSeeds(c, trace, at, 0);
      var b := Best(after, |trace|);
      if b.Some? && after[b.value].point.gap > after[at].point.gap && !c.budget.Reached(|after|) {
        BestChosen(c, trace, at, b.value);
        ClimbSteep(c, after, b.value, steps - 1);
      }
    }
  }

  lemma {:induction false} SearchSteep<S>(c: Config<S>, trace: seq<Step<S>>, k: nat)
    requires k <= |c.seeds| && Steep(c, trace) && ParentsBelow(trace, |trace|)
    ensures Steep(c, Search(c, trace, k))
    decreases |c.seeds| - k
  {
    hide PointAt, Climb;
    if k < |c.seeds| && !c.budget.Reached(|trace|) {
      var start := trace + [SeedStep(c, |trace|, k)];
      hide ChosenFirst;
      forall i | 0 <= i < |start| && start[i].from.Some? ensures ChosenFirst(c, start, start[i].from.value.parent) {
        assert start[i] == trace[i];
        ChosenExtends(c, trace, start, trace[i].from.value.parent, |trace|);
      }
      SeedChosen(c, trace, k);
      ClimbSteep(c, start, |trace|, c.Steps());
      SearchSteep(c, Climb(c, start, |trace|, c.Steps()), k + 1);
    }
  }

  lemma SeedChosen<S>(c: Config<S>, trace: seq<Step<S>>, k: nat)
    requires k < |c.seeds| && ParentsBelow(trace, |trace|)
    ensures var start := trace + [SeedStep(c, |trace|, k)];
            ChosenFirst(c, start, |trace|) && ParentsBelow(start, |trace|)
  {
    hide PointAt;
  }

  /**
   The climb is a steepest ascent: a mutation is mutated further only after every mutation of what it came from was scored,
   and only if it was the first with the largest gap among them.
   */
  lemma SteepestAscent<S>(c: Config<S>, i: nat)
    requires i < |Scored(c)| && Scored(c)[i].from.Some?
    ensures ChosenFirst(c, Scored(c), Scored(c)[i].from.value.parent)
  {
    hide Search, ChosenFirst;
    SearchSteep(c, [], 0);
  }
}
