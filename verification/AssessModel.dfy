/** What a grader assessment (packages/server/src/robustness/assess.ts) is meant to report, as a function of the answers a grader gives. */
module AssessModel {
  import opened Wrappers
  import opened FuzzModel

  datatype Canary<!T, +S> = Canary(id: string, rationale: string, build: T -> Option<S>)

  datatype Perturbation<!T, !S> = Perturbation(name: string, rationale: string, assumption: Option<string>, apply: (T, S) -> Option<(T, S)>)

  datatype FuzzOptions<!S> = FuzzOptions(mutators: seq<Mutator<S>>, callsPerTask: Budget, maxStepsPerSeed: int)

  /** Grader and oracle answer by call number, so that they may answer differently each time. */
  datatype Options<!T, !S> = Options(
    tasks: seq<T>,
    taskId: T -> string,
    grader: (nat, T, S) -> Number,
    canaries: seq<Canary<T, S>>,
    perturbations: seq<Perturbation<T, S>>,
    reference: Option<T -> Option<S>>,
    oracle: Option<(nat, T, S) -> Number>,
    repeats: int,
    determinismSamples: int,
    rewardThreshold: real,
    budget: Budget,
    fuzz: Option<FuzzOptions<S>>)
  {
    function Want(): nat {
      if repeats < 1 then 1 else repeats
    }

    function ReferenceFor(task: T): Option<S> {
      match reference
      case None => None
      case Some(f) => f(task)
    }
  }

  datatype Status = Open | Suspected | Closed | NotTested

  /** The caveat texts of the source, each with the figures it quotes. None of the texts is empty. */
  datatype Caveat =
    | CanaryDoesNotApply
    | BudgetBeforeCanary
    | PaidUnsolved(reward: real, rationale: string)
    | NoReference
    | BudgetBeforeBaseline
    | RewriteDoesNotApply
    | BudgetBeforeRewrite
    | RewardMoved(delta: real, rationale: string, assumption: Option<string>)
    | MeasuredGap(reward: real, solve: real)
    | MutationMayHaveSolved

  /** The spread is kept as a variance: the square root is not needed to say when it is positive. */
  datatype Finding = Finding(
    channel: string, status: Status, reward: real, solve: Option<real>, gap: Option<real>,
    rewardVariance: real, repeats: nat, caveat: Option<Caveat>)

  datatype TaskAssessment = TaskAssessment(
    taskId: string, canaryFindings: seq<Finding>, perturbationFindings: seq<Finding>, fuzzFinding: Option<Finding>,
    worstGap: Option<real>, openChannels: seq<string>)

  datatype Limitation = NoOracle | NoPerturbationTesting | FuzzingDisabled | BudgetExhausted | Nondeterministic | FewTasks | UntestedChannels | EveryProbeRan

  datatype Report = Report(
    taskCount: nat, graderCalls: nat, tasksWithOpenChannel: nat, tasksWithSurfaceMovement: nat, perturbationTestedTasks: nat,
    nondeterministic: bool, perTask: seq<TaskAssessment>, limitations: seq<Limitation>)

  datatype GapBasis = MeasuredWithOracle | CanaryConstruction | NotEstablished

  datatype Assessment = Assessment(report: Report, exploitableGap: real, basis: GapBasis, verifierConfidence: real)

  /** The two variables every probe shares. */
  datatype Ledger = Ledger(graderCalls: nat, budgetExhausted: bool)

  // ---- Grading ----

  function Sum(xs: seq<real>): real {
    if xs == [] then 0.0 else Sum(xs[..|xs| - 1]) + xs[|xs| - 1]
  }

  function Mean(xs: seq<real>): real {
    if xs == [] then 0.0 else Sum(xs) / |xs| as real
  }

  function SquaredDistances(xs: seq<real>, m: real): seq<real> {
    seq(|xs|, i requires 0 <= i < |xs| => (xs[i] - m) * (xs[i] - m))
  }

  function Variance(xs: seq<real>): real {
    if |xs| < 2 then 0.0 else Mean(SquaredDistances(xs, Mean(xs)))
  }

  /** How many of `want` further calls the budget lets through. */
  function Affordable(b: Budget, calls: nat, want: nat): (r: nat)
    ensures r <= want
    decreases want
  {
    if want == 0 || b.Reached(calls) then 0 else 1 + Affordable(b, calls + 1, want - 1)
  }

  function Rewards<T, S>(o: Options<T, S>, calls: nat, task: T, submission: S, count: nat): seq<real> {
    seq(count, i requires 0 <= i < count => Clamp01(o.grader(calls + i, task, submission)))
  }

  function Graded<T, S>(o: Options<T, S>, l: Ledger, task: T, submission: S, want: nat): seq<real> {
    Rewards(o, l.graderCalls, task, submission, Affordable(o.budget, l.graderCalls, want))
  }

  function After<T, S>(o: Options<T, S>, l: Ledger, want: nat): Ledger {
    var k := Affordable(o.budget, l.graderCalls, want);
    Ledger(l.graderCalls + k, l.budgetExhausted || k < want)
  }

  // ---- The probes ----

  function Untested(channel: string, reward: real, caveat: Caveat): Finding {
    Finding(channel, NotTested, reward, None, None, 0.0, 0, Some(caveat))
  }

  function DeterminismProbe<T, S>(o: Options<T, S>): (r: Option<S>)
    ensures r.Some? ==> o.tasks != [] && o.determinismSamples > 1
  {
    if o.tasks == [] || o.determinismSamples <= 1 then None
    else
      match o.ReferenceFor(o.tasks[0])
      case Some(s) => Some(s)
      case None => if o.canaries == [] then None else o.canaries[0].build(o.tasks[0])
  }

  function Determinism<T, S>(o: Options<T, S>): (bool, Ledger) {
    var start := Ledger(0, false);
    match DeterminismProbe(o)
    case None => (false, start)
    case Some(s) =>
      var observed := Graded(o, start, o.tasks[0], s, o.determinismSamples);
      (|observed| > 1 && Variance(observed) > 0.0, After(o, start, o.determinismSamples))
  }

  function CanaryFinding<T, S>(o: Options<T, S>, task: T, canary: Canary<T, S>, l: Ledger): (Finding, Ledger) {
    match canary.build(task)
    case None => (Untested(canary.id, 0.0, CanaryDoesNotApply), l)
    case Some(s) =>
      var rewards := Graded(o, l, task, s, o.Want());
      var paid := Mean(rewards) > o.rewardThreshold;
      (if rewards == [] then Untested(canary.id, 0.0, BudgetBeforeCanary)
       else
         Finding(canary.id, if paid then Open else Closed, Mean(rewards), Some(0.0), Some(Mean(rewards)),
                 Variance(rewards), |rewards|, if paid then Some(PaidUnsolved(Mean(rewards), canary.rationale)) else None),
       After(o, l, o.Want()))
  }

  /** The findings of the first k canaries. */
  function CanaryPhase<T, S>(o: Options<T, S>, task: T, l: Ledger, k: nat): (seq<Finding>, Ledger)
    requires k <= |o.canaries|
  {
    if k == 0 then ([], l)
    else
      var before := CanaryPhase(o, task, l, k - 1);
      var last := CanaryFinding(o, task, o.canaries[k - 1], before.1);
      (before.0 + [last.0], last.1)
  }

  function Distance(a: real, b: real): real {
    if a < b then b - a else a - b
  }

  function PerturbationFinding<T, S>(o: Options<T, S>, task: T, reference: S, baseline: seq<real>, p: Perturbation<T, S>, l: Ledger): (Finding, Ledger) {
    match p.apply(task, reference)
    case None =>
      (Untested(p.name, Mean(baseline), if baseline == [] then BudgetBeforeBaseline else RewriteDoesNotApply), l)
    case Some((t, s)) =>
      if baseline == [] then (Untested(p.name, 0.0, BudgetBeforeBaseline), l)
      else
        var rewards := Graded(o, l, t, s, o.Want());
        var delta := Distance(Mean(rewards), Mean(baseline));
        (if rewards == [] then Untested(p.name, Mean(baseline), BudgetBeforeRewrite)
         else
           Finding(p.name, if delta > 0.0 then Open else Closed, Mean(rewards), None, None, Variance(rewards), |rewards|,
                   if delta > 0.0 then Some(RewardMoved(delta, p.rationale, p.assumption)) else None),
         After(o, l, o.Want()))
  }

  function RewritePhase<T, S>(o: Options<T, S>, task: T, reference: S, baseline: seq<real>, l: Ledger, k: nat): (seq<Finding>, Ledger)
    requires k <= |o.perturbations|
  {
    if k == 0 then ([], l)
    else
      var before := RewritePhase(o, task, reference, baseline, l, k - 1);
      var last := PerturbationFinding(o, task, reference, baseline, o.perturbations[k - 1], before.1);
      (before.0 + [last.0], last.1)
  }

  function PerturbationPhase<T, S>(o: Options<T, S>, task: T, l: Ledger): (seq<Finding>, Ledger) {
    match o.ReferenceFor(task)
    case None => (seq(|o.perturbations|, i requires 0 <= i < |o.perturbations| => Untested(o.perturbations[i].name, 0.0, NoReference)), l)
    case Some(s) =>
      RewritePhase(o, task, s, Graded(o, l, task, s, o.Want()), After(o, l, o.Want()), |o.perturbations|)
  }

  // ---- Fuzzing ----

  /** Whether `calls` is below the cap; nothing is below a cap that is not a number. */
  predicate Below(b: Budget, calls: nat) {
    match b
    case Unlimited => true
    case Limit(cap) => calls as real < cap
    case NotANumber => false
  }

  function Remaining(b: Budget, calls: nat): Budget {
    match b
    case Limit(cap) => Limit(cap - calls as real)
    case _ => b
  }

  function Smaller(a: Budget, b: Budget): Budget {
    match (a, b)
    case (NotANumber, _) => NotANumber
    case (_, NotANumber) => NotANumber
    case (Unlimited, _) => b
    case (_, Unlimited) => a
    case (Limit(x), Limit(y)) => if x <= y then a else b
  }

  /** The canaries that apply to the task, as seeds. */
  function Seeds<T, S>(canaries: seq<Canary<T, S>>, task: T): (r: seq<Seed<S>>)
    ensures forall i :: 0 <= i < |r| ==> r[i].provablyUnsolving
  {
    if canaries == [] then []
    else
      var last := canaries[|canaries| - 1];
      var before := Seeds(canaries[..|canaries| - 1], task);
      match last.build(task)
      case None => before
      case Some(s) => before + [Seed(last.id, s, true)]
  }

  function FuzzConfig<T, S>(o: Options<T, S>, f: FuzzOptions<S>, task: T, calls: nat): Config<S> {
    Config((k: nat, s: S) => o.grader(calls + k, task, s),
           match o.oracle case None => None case Some(g) => Some((k: nat, s: S) => g(calls + k, task, s)),
           Seeds(o.canaries, task), f.mutators, Smaller(f.callsPerTask, Remaining(o.budget, calls)), f.maxStepsPerSeed, 0.0)
  }

  function FuzzFinding<S>(best: Option<Point<S>>, threshold: real): Option<Finding> {
    match best
    case None => None
    case Some(p) =>
      if p.gap <= threshold then None
      else if !p.gapIsAssumed && p.solve.Some? then
        Some(Finding("fuzz", Open, p.reward, p.solve, Some(p.gap), 0.0, 1, Some(MeasuredGap(p.reward, p.solve.value))))
      else
        Some(Finding("fuzz", Suspected, p.reward, p.solve, Some(p.gap), 0.0, 1, Some(MutationMayHaveSolved)))
  }

  function FuzzPhase<T, S>(o: Options<T, S>, task: T, l: Ledger): (Option<Finding>, Ledger) {
    if o.fuzz.None? || !Below(o.budget, l.graderCalls) || Seeds(o.canaries, task) == [] then (None, l)
    else
      var c := FuzzConfig(o, o.fuzz.value, task, l.graderCalls);
      var r := Summary(c, Scored(c));
      (FuzzFinding(r.best, o.rewardThreshold), Ledger(l.graderCalls + r.graderCalls, l.budgetExhausted))
  }

  // ---- One task ----

  predicate HasOpen(fs: seq<Finding>) {
    exists i :: 0 <= i < |fs| && fs[i].status.Open?
  }

  function Listed(f: Option<Finding>): seq<Finding> {
    if f.None? then [] else [f.value]
  }

  function PositiveGaps(fs: seq<Finding>): (r: seq<real>)
    ensures forall k :: 0 <= k < |r| ==> r[k] > 0.0 && exists i :: 0 <= i < |fs| && fs[i].gap == Some(r[k])
    ensures forall i :: 0 <= i < |fs| && fs[i].gap.Some? && fs[i].gap.value > 0.0 ==> fs[i].gap.value in r
  {
    if fs == [] then []
    else
      var g := fs[0].gap;
      assert forall i :: 0 < i < |fs| ==> fs[i] == fs[1..][i - 1];
      (if g.Some? && g.value > 0.0 then [g.value] else []) + PositiveGaps(fs[1..])
  }

  function MaxOf(xs: seq<real>): (m: real)
    requires xs != []
    ensures m in xs && forall k :: 0 <= k < |xs| ==> xs[k] <= m
  {
    if |xs| == 1 then xs[0]
    else
      var rest := MaxOf(xs[1..]);
      assert forall k :: 0 < k < |xs| ==> xs[k] == xs[1..][k - 1];
      if xs[0] > rest then xs[0] else rest
  }

  function WorstGap(canaryFindings: seq<Finding>, fuzzFinding: Option<Finding>): Option<real> {
    var gaps := PositiveGaps(canaryFindings + Listed(fuzzFinding));
    if gaps == [] then None else Some(MaxOf(gaps))
  }

  function OpenChannels(fs: seq<Finding>): (r: seq<string>)
    ensures r == [] <==> !HasOpen(fs)
  {
    if fs == [] then []
    else
      assert forall i :: 0 < i < |fs| ==> fs[i] == fs[1..][i - 1];
      assert HasOpen(fs) <==> fs[0].status.Open? || HasOpen(fs[1..]) by {
        if HasOpen(fs[1..]) {
          var i :| 0 <= i < |fs[1..]| && fs[1..][i].status.Open?;
          assert fs[i + 1].status.Open?;
        }
      }
      (if fs[0].status.Open? then [fs[0].channel] else []) + OpenChannels(fs[1..])
  }

  function AssessTask<T, S>(o: Options<T, S>, task: T, l: Ledger): (TaskAssessment, Ledger) {
    var canaries := CanaryPhase(o, task, l, |o.canaries|);
    var rewrites := PerturbationPhase(o, task, canaries.1);
    var fuzz := FuzzPhase(o, task, rewrites.1);
    (TaskAssessment(o.taskId(task), canaries.0, rewrites.0, fuzz.0, WorstGap(canaries.0, fuzz.0),
                    OpenChannels(canaries.0 + Listed(fuzz.0))), fuzz.1)
  }

  /** The first k tasks. */
  function AssessTasks<T, S>(o: Options<T, S>, l: Ledger, k: nat): (seq<TaskAssessment>, Ledger)
    requires k <= |o.tasks|
  {
    if k == 0 then ([], l)
    else
      var before := AssessTasks(o, l, k - 1);
      var last := AssessTask(o, o.tasks[k - 1], before.1);
      (before.0 + [last.0], last.1)
  }

  // ---- The report ----

  predicate HasTested(fs: seq<Finding>) {
    exists i :: 0 <= i < |fs| && !fs[i].status.NotTested?
  }

  predicate HasUntested(fs: seq<Finding>) {
    exists i :: 0 <= i < |fs| && fs[i].status.NotTested?
  }

  function CountOpen(ts: seq<TaskAssessment>): nat {
    if ts == [] then 0 else CountOpen(ts[1..]) + if ts[0].openChannels != [] then 1 else 0
  }

  function CountMoved(ts: seq<TaskAssessment>): nat {
    if ts == [] then 0 else CountMoved(ts[1..]) + if HasOpen(ts[0].perturbationFindings) then 1 else 0
  }

  function CountPerturbed(ts: seq<TaskAssessment>): (r: nat)
    ensures r == 0 <==> forall i :: 0 <= i < |ts| ==> !HasTested(ts[i].perturbationFindings)
  {
    if ts == [] then 0
    else
      assert forall i :: 0 < i < |ts| ==> ts[i] == ts[1..][i - 1];
      CountPerturbed(ts[1..]) + if HasTested(ts[0].perturbationFindings) then 1 else 0
  }

  function WorstGaps(ts: seq<TaskAssessment>): (r: seq<real>)
    ensures forall k :: 0 <= k < |r| ==> exists i :: 0 <= i < |ts| && ts[i].worstGap == Some(r[k])
    ensures forall i :: 0 <= i < |ts| && ts[i].worstGap.Some? ==> ts[i].worstGap.value in r
  {
    if ts == [] then []
    else
      assert forall i :: 0 < i < |ts| ==> ts[i] == ts[1..][i - 1];
      (if ts[0].worstGap.Some? then [ts[0].worstGap.value] else []) + WorstGaps(ts[1..])
  }

  predicate AnyUntested(ts: seq<TaskAssessment>) {
    exists i :: 0 <= i < |ts| && HasUntested(ts[i].canaryFindings + ts[i].perturbationFindings)
  }

  /** The lines whose reason holds, in the order given. */
  function Stated(reasons: seq<(bool, Limitation)>): seq<Limitation> {
    if reasons == [] then [] else (if reasons[0].0 then [reasons[0].1] else []) + Stated(reasons[1..])
  }

  function Lines(oracle: bool, perturbed: bool, fuzzed: bool, exhausted: bool, nondeterministic: bool, few: bool, untested: bool): seq<Limitation> {
    var stated := Stated([(!oracle, NoOracle), (!perturbed, NoPerturbationTesting), (!fuzzed, FuzzingDisabled),
                          (exhausted, BudgetExhausted), (nondeterministic, Nondeterministic), (few, FewTasks), (untested, UntestedChannels)]);
    if stated == [] then [EveryProbeRan] else stated
  }

  function Limitations<T, S>(o: Options<T, S>, ts: seq<TaskAssessment>, exhausted: bool, nondeterministic: bool): seq<Limitation> {
    Lines(o.oracle.Some?, o.reference.Some? && CountPerturbed(ts) > 0, o.fuzz.Some?, exhausted, nondeterministic, |o.tasks| < 20,
          AnyUntested(ts))
  }

  predicate AnyCanaryOpen(ts: seq<TaskAssessment>) {
    exists i :: 0 <= i < |ts| && HasOpen(ts[i].canaryFindings)
  }

  predicate AnyFuzzOpen(ts: seq<TaskAssessment>) {
    exists i :: 0 <= i < |ts| && HasOpen(Listed(ts[i].fuzzFinding))
  }

  function AssessmentFrom<T, S>(o: Options<T, S>, nondeterministic: bool, ts: seq<TaskAssessment>, l: Ledger): Assessment {
    var gaps := WorstGaps(ts);
    var gap := if gaps == [] then 0.0 else MaxOf(gaps);
    Assessment(
      Report(|o.tasks|, l.graderCalls, CountOpen(ts), CountMoved(ts), CountPerturbed(ts), nondeterministic, ts,
             Limitations(o, ts, l.budgetExhausted, nondeterministic)),
      gap,
      if AnyFuzzOpen(ts) then MeasuredWithOracle else if AnyCanaryOpen(ts) then CanaryConstruction else NotEstablished,
      Clamp01(Finite(1.0 - gap)))
  }

  /** The whole assessment. */
  function AssessmentOf<T, S>(o: Options<T, S>): Assessment {
    var probe := Determinism(o);
    var assessed := AssessTasks(o, probe.1, |o.tasks|);
    AssessmentFrom(o, probe.0, assessed.0, assessed.1)
  }
}
