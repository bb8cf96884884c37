/** The search for unearned reward (packages/server/src/robustness/fuzzer.ts): its values and what a search is meant to score. */
module FuzzModel {
  import opened Wrappers

  /** A JavaScript number, as far as clamping looks at it. */
  datatype Number = Finite(value: real) | NonFinite

  function Clamp01(n: Number): (r: real)
    ensures 0.0 <= r <= 1.0
    ensures n.Finite? && 0.0 <= n.value <= 1.0 ==> r == n.value
  {
    match n
    case NonFinite => 0.0
    case Finite(x) => if x < 0.0 then 0.0 else if x > 1.0 then 1.0 else x
  }

  /** A cap on grader calls; the caller's number need not be whole, finite or a number. */
  datatype Budget = Unlimited | Limit(cap: real) | NotANumber {
    predicate Reached(calls: nat) {
      match this
      case Unlimited => false
      case Limit(c) => calls as real >= c
      case NotANumber => false
    }
  }

  datatype Mutator<!S> = Mutator(name: string, mutate: S -> Option<S>)

  datatype Seed<+S> = Seed(origin: string, submission: S, provablyUnsolving: bool)

  datatype Point<+S> = Point(submission: S, reward: real, solve: Option<real>, gap: real, gapIsAssumed: bool, lineage: seq<string>)

  datatype FuzzResult<+S> = FuzzResult(best: Option<Point<S>>, points: seq<Point<S>>, graderCalls: nat, budgetExhausted: bool)

  /** Grader and oracle answer by call number, so that they may answer differently each time. */
  datatype Config<!S> = Config(
    grader: (nat, S) -> Number,
    oracle: Option<(nat, S) -> Number>,
    seeds: seq<Seed<S>>,
    mutators: seq<Mutator<S>>,
    budget: Budget,
    maxStepsPerSeed: int,
    rewardFloor: real)
  {
    function Steps(): nat {
      if maxStepsPerSeed < 0 then 0 else maxStepsPerSeed
    }
  }

  /** What call number `call` makes of a submission. */
  function PointAt<S>(c: Config<S>, call: nat, submission: S, unsolving: bool, lineage: seq<string>): Point<S> {
    var reward := Clamp01(c.grader(call, submission));
    match c.oracle
    case None => Point(submission, reward, None, reward, unsolving, lineage)
    case Some(o) =>
      var solve := Clamp01(o(call, submission));
      Point(submission, reward, Some(solve), reward - solve, false, lineage)
  }

  /** One scored candidate, with the seed it descends from and the scored candidate it was mutated from. */
  datatype Step<+S> = Step(point: Point<S>, seed: nat, from: Option<Move>)

  datatype Move = Move(parent: nat, mutator: nat)

  function SeedStep<S>(c: Config<S>, call: nat, k: nat): Step<S>
    requires k < |c.seeds|
  {
    var s := c.seeds[k];
    Step(PointAt(c, call, s.submission, s.provablyUnsolving, [s.origin]), k, None)
  }

  function MoveStep<S>(c: Config<S>, call: nat, parent: Step<S>, at: nat, m: nat, submission: S): Step<S>
    requires parent.seed < |c.seeds| && m < |c.mutators|
  {
    Step(PointAt(c, call, submission, c.seeds[parent.seed].provablyUnsolving, parent.point.lineage + [c.mutators[m].name]),
         parent.seed, Some(Move(at, m)))
  }

  /** The position of the first candidate with the largest gap from `from` on. */
  function Best<S>(trace: seq<Step<S>>, from: nat): (r: Option<nat>)
    requires from <= |trace|
    ensures r.None? <==> from == |trace|
    ensures r.Some? ==>
              && from <= r.value < |trace|
              && (forall k :: from <= k < |trace| ==> trace[k].point.gap <= trace[r.value].point.gap)
              && (forall k :: from <= k < r.value ==> trace[k].point.gap < trace[r.value].point.gap)
  {
    if |trace| == from then None
    else
      var last := |trace| - 1;
      var b := Best(trace[..last], from);
      if b.None? || trace[last].point.gap > trace[b.value].point.gap then Some(last) else b
  }

  /** The candidates paid more than the floor, in the order scored. */
  function Cleared<S>(trace: seq<Step<S>>, floor: real): (r: seq<Point<S>>)
    ensures forall i :: 0 <= i < |trace| && trace[i].point.reward > floor ==> trace[i].point in r
    ensures forall k :: 0 <= k < |r| ==> r[k].reward > floor && exists i :: 0 <= i < |trace| && trace[i].point == r[k]
  {
    if trace == [] then []
    else
      var last := trace[|trace| - 1];
      assert forall i :: 0 <= i < |trace| - 1 ==> trace[..|trace| - 1][i] == trace[i];
      Cleared(trace[..|trace| - 1], floor) + (if last.point.reward > floor then [last.point] else [])
  }

  function BestPoint<S>(trace: seq<Step<S>>): Option<Point<S>> {
    match Best(trace, 0)
    case None => None
    case Some(b) => Some(trace[b].point)
  }

  lemma BestAppended<S>(trace: seq<Step<S>>, step: Step<S>, from: nat)
    requires from <= |trace|
    ensures var b := Best(trace, from);
            Best(trace + [step], from) ==
            if b.None? || step.point.gap > trace[b.value].point.gap then Some(|trace|) else b
  {
    assert (trace + [step])[..|trace|] == trace;
  }

  lemma Appended<S>(trace: seq<Step<S>>, step: Step<S>, floor: real)
    ensures Cleared(trace + [step], floor) == Cleared(trace, floor) + (if step.point.reward > floor then [step.point] else [])
    ensures var b := BestPoint(trace);
            BestPoint(trace + [step]) == if b.None? || step.point.gap > b.value.gap then Some(step.point) else b
  {
    BestAppended(trace, step, 0);
    assert (trace + [step])[..|trace|] == trace;
  }

  function Summary<S>(c: Config<S>, trace: seq<Step<S>>): FuzzResult<S> {
    FuzzResult(BestPoint(trace), Cleared(trace, c.rewardFloor), |trace|, c.budget.Reached(|trace|))
  }

  /** Trying the mutators from number m on against the candidate at position `at`. */
  function Round<S>(c: Config<S>, trace: seq<Step<S>>, at: nat, m: nat): (r: seq<Step<S>>)
    requires at < |trace| && m <= |c.mutators| && trace[at].seed < |c.seeds|
    ensures trace <= r
    decreases |c.mutators| - m
  {
    if m == |c.mutators| || c.budget.Reached(|trace|) then trace
    else
      match c.mutators[m].mutate(trace[at].point.submission)
      case None => Round(c, trace, at, m + 1)
      case Some(s) => Round(c, trace + [MoveStep(c, |trace|, trace[at], at, m, s)], at, m + 1)
  }

  /** Climbing from position `at` while the best of a round beats where the climb stands. */
  function Climb<S>(c: Config<S>, trace: seq<Step<S>>, at: nat, steps: nat): (r: seq<Step<S>>)
    requires at < |trace| && trace[at].seed < |c.seeds|
    ensures trace <= r
    decreases steps
  {
    if steps == 0 || c.budget.Reached(|trace|) then trace
    else
      var after := Round(c, trace, at, 0);
      RoundSeeds(c, trace, at, 0);
      var b := Best(after, |trace|);
      if b.None? || after[b.value].point.gap <= after[at].point.gap then after
      else Climb(c, after, b.value, steps - 1)
  }

  lemma ClimbUnfolds<S>(c: Config<S>, trace: seq<Step<S>>, at: nat, steps: nat)
    requires at < |trace| && trace[at].seed < |c.seeds|
    ensures steps == 0 || c.budget.Reached(|trace|) ==> Climb(c, trace, at, steps) == trace
    ensures steps > 0 && !c.budget.Reached(|trace|) ==>
              var after := Round(c, trace, at, 0);
              var b := Best(after, |trace|);
              && (b.Some? ==> after[b.value].seed == trace[at].seed)
              && Climb(c, trace, at, steps) ==
                 if b.None? || after[b.value].point.gap <= after[at].point.gap then after else Climb(c, after, b.value, steps - 1)
  {
    RoundSeeds(c, trace, at, 0);
  }

  lemma RoundSeeds<S>(c: Config<S>, trace: seq<Step<S>>, at: nat, m: nat)
    requires at < |trace| && m <= |c.mutators| && trace[at].seed < |c.seeds|
    ensures forall i :: |trace| <= i < |Round(c, trace, at, m)| ==> Round(c, trace, at, m)[i].seed == trace[at].seed
    decreases |c.mutators| - m
  {
  }

  /** Climbing from every seed from number k on. */
  function Search<S>(c: Config<S>, trace: seq<Step<S>>, k: nat): (r: seq<Step<S>>)
    requires k <= |c.seeds|
    ensures trace <= r
    decreases |c.seeds| - k
  {
    if k == |c.seeds| || c.budget.Reached(|trace|) then trace
    else Search(c, Climb(c, trace + [SeedStep(c, |trace|, k)], |trace|, c.Steps()), k + 1)
  }

  /** Everything a search with this configuration scores, in order. */
  function Scored<S>(c: Config<S>): seq<Step<S>> {
    Search(c, [], 0)
  }
}

/** The search as the source runs it. */
module Fuzzer {
  import opened Wrappers
  import opened FuzzModel

  class Searcher<S> {
    const config: Config<S>
    var calls: nat
    var points: seq<Point<S>>
    var best: Option<Point<S>>
    ghost var trace: seq<Step<S>>

    ghost predicate Valid()
      reads this
    {
      && calls == |trace|
      && points == Cleared(trace, config.rewardFloor)
      && best == BestPoint(trace)
    }

    constructor (c: Config<S>)
      ensures Valid() && config == c && trace == []
    {
      config := c;
      calls := 0;
      points := [];
      best := None;
      trace := [];
    }

    /** Scores a candidate unless the budget is spent; `step` says what it should be recorded as. */
    method Score(submission: S, provablyUnsolving: bool, lineage: seq<string>, ghost step: Step<S>) returns (point: Option<Point<S>>)
      requires Valid()
      requires step.point == PointAt(config, calls, submission, provablyUnsolving, lineage)
      modifies this
      ensures Valid()
      ensures config.budget.Reached(|old(trace)|) ==> point == None && trace == old(trace)
      ensures !config.budget.Reached(|old(trace)|) ==> point == Some(step.point) && trace == old(trace) + [step]
    {
      hide Cleared, BestPoint, Best;
      if config.budget.Reached(calls) {
        return None;
      }
      Appended(trace, step, config.rewardFloor);
      var call := calls;
      calls := calls + 1;
      var reward := Clamp01(config.grader(call, submission));
      var solve: Option<real> := None;
      if config.oracle.Some? {
        solve := Some(Clamp01(config.oracle.value(call, submission)));
      }
      var gap := if solve.None? then reward else reward - solve.value;
      var p := Point(submission, reward, solve, gap, solve.None? && provablyUnsolving, lineage);
      assert p == step.point;
      hide PointAt;
      if reward > config.rewardFloor {
        points := points + [p];
      }
      if best.None? || p.gap > best.value.gap {
        best := Some(p);
      }
      trace := trace + [step];
      point := Some(p);
    }

    /** One pass of the mutators over `current`. */
    method TryMutators(seed: Seed<S>, current: Point<S>, ghost at: nat) returns (bestNeighbour: Option<Point<S>>)
      requires Valid() && at < |trace| && trace[at].point == current
      requires trace[at].seed < |config.seeds| && config.seeds[trace[at].seed] == seed
      modifies this
      ensures Valid()
      ensures trace == Round(config, old(trace), at, 0)
      ensures bestNeighbour.None? <==> Best(trace, |old(trace)|).None?
      ensures bestNeighbour.Some? ==> bestNeighbour.value == trace[Best(trace, |old(trace)|).value].point
    {
      hide Cleared, BestPoint, Best, PointAt;
      bestNeighbour := None;
      ghost var before := trace;
      var m := 0;
      while m < |config.mutators|
        invariant 0 <= m <= |config.mutators|
        invariant Valid() && before <= trace
        invariant Round(config, trace, at, m) == Round(config, before, at, 0)
        invariant bestNeighbour.None? <==> Best(trace, |before|).None?
        invariant bestNeighbour.Some? ==> bestNeighbour.value == trace[Best(trace, |before|).value].point
      {
        if config.budget.Reached(calls) {
          break;
        }
        var mutated := config.mutators[m].mutate(current.submission);
        if mutated.Some? {
          ghost var step := MoveStep(config, |trace|, trace[at], at, m, mutated.value);
          BestAppended(trace, step, |before|);
          var candidate := Score(mutated.value, seed.provablyUnsolving, current.lineage + [config.mutators[m].name], step);
          if candidate.Some? && (bestNeighbour.None? || candidate.value.gap > bestNeighbour.value.gap) {
            bestNeighbour := candidate;
          }
        }
        m := m + 1;
      }
    }

    /** The hill-climb from one scored seed. */
    method ClimbFrom(seed: Seed<S>, start: Point<S>, ghost from: nat)
      requires Valid() && from < |trace| && trace[from].point == start
      requires trace[from].seed < |config.seeds| && config.seeds[trace[from].seed] == seed
      modifies this
      ensures Valid()
      ensures trace == Climb(config, old(trace), from, config.Steps())
    {
      var current := start;
      hide Cleared, BestPoint, Best, Round, Climb, PointAt;
      ghost var at: nat := from;
      var step := 0;
      while step < config.maxStepsPerSeed
        invariant 0 <= step <= config.Steps()
        invariant Valid() && at < |trace| && trace[at].point == current
        invariant trace[at].seed < |config.seeds| && config.seeds[trace[at].seed] == seed
        invariant Climb(config, trace, at, config.Steps() - step) == Climb(config, old(trace), from, config.Steps())
      {
        ghost var before := trace;
        ghost var steps: nat := config.Steps() - step;
        ClimbUnfolds(config, before, at, steps);
        if config.budget.Reached(calls) {
          break;
        }
        var bestNeighbour := TryMutators(seed, current, at);
        assert trace == Round(config, before, at, 0) && trace[at] == before[at];
        if bestNeighbour.None? || bestNeighbour.value.gap <= current.gap {
          return;
        }
        current := bestNeighbour.value;
        at := Best(trace, |before|).value;
        step := step + 1;
      }
      ClimbUnfolds(config, trace, at, config.Steps() - step);
    }

    /** The loop over the seeds. */
    method Run()
      requires Valid() && trace == []
      modifies this
      ensures Valid() && trace == Scored(config)
    {
      hide Cleared, BestPoint, Climb, PointAt;
      var k := 0;
      while k < |config.seeds|
        invariant 0 <= k <= |config.seeds|
        invariant Valid() && Search(config, trace, k) == Scored(config)
      {
        if config.budget.Reached(calls) {
          break;
        }
        var seed := config.seeds[k];
        ghost var at := |trace|;
        var current := Score(seed.submission, seed.provablyUnsolving, [seed.origin], SeedStep(config, |trace|, k));
        if current.None? {
          break;
        }
        ClimbFrom(seed, current.value, at);
        k := k + 1;
      }
    }
  }

  /** The result is the summary of everything the search is meant to score. */
  method FuzzGrader<S>(c: Config<S>) returns (r: FuzzResult<S>)
    ensures r == Summary(c, Scored(c))
  {
    var searcher := new Searcher(c);
    searcher.Run();
    r := FuzzResult(searcher.best, searcher.points, searcher.calls, c.budget.Reached(searcher.calls));
  }
}
