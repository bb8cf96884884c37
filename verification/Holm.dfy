/** The Holm-Bonferroni correction (packages/server/src/scoring/comparison.ts). */
module Holm {

  // ---------------------------------------------------------------- the sorted order

  predicate Bounded(order: seq<nat>, n: nat) {
    forall i :: 0 <= i < |order| ==> order[i] < n
  }

  predicate Covers(order: seq<nat>, n: nat) {
    forall x: nat | x < n :: x in order
  }

  /** `order` with index i put in after every index whose p-value is not greater: one step of a stable sort. */
  function InsertIndex(ps: seq<real>, i: nat, order: seq<nat>): (r: seq<nat>)
    requires i < |ps| && Bounded(order, |ps|)
    ensures |r| == |order| + 1 && Bounded(r, |ps|)
    ensures forall x :: x in r <==> x == i || x in order
  {
    if order == [] || ps[i] < ps[order[0]] then [i] + order
    else [order[0]] + InsertIndex(ps, i, order[1..])
  }

  /** The first n indices, sorted by p-value, equal ones in index order. */
  function SortedOrder(ps: seq<real>, n: nat): (r: seq<nat>)
    requires n <= |ps|
    ensures |r| == n && Bounded(r, |ps|)
    ensures forall x :: x in r <==> 0 <= x < n
  {
    if n == 0 then [] else InsertIndex(ps, n - 1, SortedOrder(ps, n - 1))
  }

  predicate Ascends(ps: seq<real>, order: seq<nat>)
    requires Bounded(order, |ps|)
  {
    order == [] || ((forall k :: 1 <= k < |order| ==> ps[order[0]] <= ps[order[k]]) && Ascends(ps, order[1..]))
  }

  predicate Distinct(order: seq<nat>) {
    order == [] || (order[0] !in order[1..] && Distinct(order[1..]))
  }

  lemma {:induction false} InsertKeeps(ps: seq<real>, i: nat, order: seq<nat>)
    requires i < |ps| && Bounded(order, |ps|)
    requires Ascends(ps, order) && Distinct(order) && i !in order
    ensures Ascends(ps, InsertIndex(ps, i, order)) && Distinct(InsertIndex(ps, i, order))
  {
    var r := InsertIndex(ps, i, order);
    if order == [] || ps[i] < ps[order[0]] {
      assert r[1..] == order;
    } else {
      InsertKeeps(ps, i, order[1..]);
      var rest := InsertIndex(ps, i, order[1..]);
      forall k | 0 <= k < |rest| ensures ps[order[0]] <= ps[rest[k]] {
        assert rest[k] in rest;
        if rest[k] != i {
          var l :| 0 <= l < |order[1..]| && order[1..][l] == rest[k];
          assert order[l + 1] == rest[k];
        }
      }
    }
  }

  lemma {:induction false} OrderSorted(ps: seq<real>, n: nat)
    requires n <= |ps|
    ensures Ascends(ps, SortedOrder(ps, n)) && Distinct(SortedOrder(ps, n))
  {
    if n > 0 {
      OrderSorted(ps, n - 1);
      InsertKeeps(ps, n - 1, SortedOrder(ps, n - 1));
    }
  }

  lemma {:induction false} AscendsAt(ps: seq<real>, order: seq<nat>, i: nat, j: nat)
    requires Bounded(order, |ps|) && Ascends(ps, order) && i <= j < |order|
    ensures ps[order[i]] <= ps[order[j]]
  {
    if i > 0 {
      AscendsAt(ps, order[1..], i - 1, j - 1);
    } else if j > 0 {
      assert order[j] == order[1..][j - 1];
    }
  }

  lemma {:induction false} DistinctAt(order: seq<nat>, i: nat, j: nat)
    requires Distinct(order) && i < j < |order|
    ensures order[i] != order[j]
  {
    if i > 0 {
      DistinctAt(order[1..], i - 1, j - 1);
    } else {
      assert order[j] == order[1..][j - 1];
    }
  }

  // ---------------------------------------------------------------- the correction

  function Max(x: real, y: real): real {
    if x < y then y else x
  }

  /** A p-value times a number of hypotheses. */
  function Times(n: nat, p: real): real {
    n as real * p
  }

  function CapAtOne(x: real): real {
    if x > 1.0 then 1.0 else x
  }

  /** The running maximum after position i of the sorted order. */
  function Running(ps: seq<real>, order: seq<nat>, i: int): real
    requires i < |order| && Bounded(order, |ps|)
    decreases i
  {
    if i < 0 then 0.0 else Max(Running(ps, order, i - 1), Times(|order| - i, ps[order[i]]))
  }

  /** Adjusted p-values in the caller's order: the running maximum at each position of the sorted order, capped at 1. */
  ghost predicate IsAdjustment(ps: seq<real>, adjusted: seq<real>) {
    |adjusted| == |ps| &&
    var order := SortedOrder(ps, |ps|);
    forall i :: 0 <= i < |ps| ==> adjusted[order[i]] == CapAtOne(Running(ps, order, i))
  }

  lemma RunningStep(ps: seq<real>, order: seq<nat>, i: nat)
    requires i < |order| && Bounded(order, |ps|)
    ensures Running(ps, order, -1) == 0.0
    ensures Running(ps, order, i) == Max(Running(ps, order, i - 1), Times(|order| - i, ps[order[i]]))
  {
  }

  lemma AllDistinct(order: seq<nat>)
    requires Distinct(order)
    ensures forall i, j :: 0 <= i < j < |order| ==> order[i] != order[j]
  {
    forall i, j | 0 <= i < j < |order| ensures order[i] != order[j] {
      DistinctAt(order, i, j);
    }
  }

  method HolmAdjust(ps: seq<real>) returns (adjusted: seq<real>)
    ensures IsAdjustment(ps, adjusted)
  {
    var m := |ps|;
    if m == 0 {
      return [];
    }
    var order := SortedOrder(ps, m);
    OrderSorted(ps, m);
    AllDistinct(order);
    hide SortedOrder, Ascends, Distinct, Times, CapAtOne, Covers, Running, Max;
    var out := new real[m];
    var running := 0.0;
    RunningStep(ps, order, 0);
    for i := 0 to m
      invariant running == Running(ps, order, i - 1)
      invariant forall k :: 0 <= k < i ==> out[order[k]] == CapAtOne(Running(ps, order, k))
    {
      RunningStep(ps, order, i);
      var scaled := Times(m - i, ps[order[i]]);
      running := Max(running, scaled);
      out[order[i]] := CapAtOne(running);
    }
    adjusted := out[..];
  }

  // ---------------------------------------------------------------- what it computes

  predicate NonNegative(ps: seq<real>) {
    forall i :: 0 <= i < |ps| ==> ps[i] >= 0.0
  }

  /** A sorted listing of all the indices. */
  predicate SortedAll(ps: seq<real>, order: seq<nat>) {
    |order| == |ps| && Bounded(order, |ps|) && Covers(order, |ps|) && Ascends(ps, order) && Distinct(order)
  }

  /** The members of r whose p-value is at least x. */
  function AtLeast(ps: seq<real>, r: set<nat>, x: real): set<nat>
    requires forall k :: k in r ==> k < |ps|
  {
    set k | k in r && ps[k] >= x
  }

  function All(n: nat): (r: set<nat>)
    ensures forall k :: k in r <==> 0 <= k < n
  {
    if n == 0 then {} else All(n - 1) + {n - 1}
  }

  /** Index j's p-value times the number of p-values that are not smaller. */
  function Scaled(ps: seq<real>, r: set<nat>, j: nat): real
    requires j < |ps| && forall k :: k in r ==> k < |ps|
  {
    Times(|AtLeast(ps, r, ps[j])|, ps[j])
  }

  /** No index of r with a p-value up to that of i is stopped at level alpha. */
  ghost predicate Passes(ps: seq<real>, r: set<nat>, i: nat, alpha: real)
    requires i < |ps| && forall k :: k in r ==> k < |ps|
  {
    forall j :: j in r && ps[j] <= ps[i] ==> Scaled(ps, r, j) < alpha
  }

  lemma {:induction false} SetOfDistinct(order: seq<nat>) returns (s: set<nat>)
    requires Distinct(order)
    ensures |s| == |order| && forall x :: x in s <==> x in order
  {
    s := {};
    if order != [] {
      s := SetOfDistinct(order[1..]);
      s := s + {order[0]};
    }
  }

  lemma SubsetSize<T>(a: set<T>, b: set<T>)
    requires a <= b
    ensures |a| <= |b|
    ensures |a| == |b| ==> a == b
  {
    assert b == a + (b - a);
  }

  /** Positions from l on hold p-values not below the one at l. */
  lemma CountFrom(ps: seq<real>, order: seq<nat>, l: nat)
    requires SortedAll(ps, order)
    requires l < |order|
    ensures |AtLeast(ps, All(|ps|), ps[order[l]])| >= |order| - l
    ensures l == 0 || ps[order[l - 1]] < ps[order[l]] ==> |AtLeast(ps, All(|ps|), ps[order[l]])| == |order| - l
  {
    var x := ps[order[l]];
    DistinctSuffix(order, l);
    var tail := SetOfDistinct(order[l..]);
    var s := AtLeast(ps, All(|ps|), x);
    forall k | k in tail ensures k in s {
      var j :| 0 <= j < |order[l..]| && order[l..][j] == k;
      AscendsAt(ps, order, l, l + j);
    }
    SubsetSize(tail, s);
    if l == 0 || ps[order[l - 1]] < x {
      forall k | k in s ensures k in tail {
        assert k in order;
        var j :| 0 <= j < |order| && order[j] == k;
        if j < l {
          AscendsAt(ps, order, j, l - 1);
        } else {
          assert order[l..][j - l] == k;
        }
      }
      assert s == tail;
    }
  }

  lemma {:induction false} DistinctSuffix(order: seq<nat>, l: nat)
    requires Distinct(order) && l <= |order|
    ensures Distinct(order[l..])
  {
    if l > 0 {
      DistinctSuffix(order[1..], l - 1);
      assert order[1..][l - 1..] == order[l..];
    }
  }

  lemma ScaleOrder(a: nat, b: nat, x: real)
    requires a <= b && x >= 0.0
    ensures 0.0 <= Times(a, x) <= Times(b, x)
  {
  }

  /** The running maximum stays below alpha exactly when no p-value up to here is stopped. */
  lemma {:induction false} RunningBelow(ps: seq<real>, order: seq<nat>, i: nat, alpha: real)
    requires SortedAll(ps, order)
    requires NonNegative(ps) && i < |order|
    ensures Running(ps, order, i) < alpha <==> forall l :: 0 <= l <= i ==> Times(|order| - l, ps[order[l]]) < alpha
  {
    hide Times;
    if i > 0 {
      RunningBelow(ps, order, i - 1, alpha);
    } else {
      assert Running(ps, order, -1) == 0.0;
      ScaleOrder(0, |order|, ps[order[0]]);
    }
  }

  /** The first position of a p-value in the sorted order. */
  lemma {:induction false} FirstPosition(ps: seq<real>, order: seq<nat>, p: nat) returns (l: nat)
    requires Bounded(order, |ps|) && Ascends(ps, order) && p < |order|
    ensures l <= p && ps[order[l]] == ps[order[p]]
    ensures l == 0 || ps[order[l - 1]] < ps[order[l]]
    decreases p
  {
    l := p;
    if p > 0 {
      AscendsAt(ps, order, p - 1, p);
      if ps[order[p - 1]] == ps[order[p]] {
        l := FirstPosition(ps, order, p - 1);
      }
    }
  }

  lemma PassesByPosition(ps: seq<real>, order: seq<nat>, i: nat, alpha: real)
    requires SortedAll(ps, order)
    requires NonNegative(ps) && i < |order|
    ensures Passes(ps, All(|ps|), order[i], alpha) <==> forall l :: 0 <= l <= i ==> Times(|order| - l, ps[order[l]]) < alpha
  {
    hide Ascends, Distinct, AtLeast, Times;
    if Passes(ps, All(|ps|), order[i], alpha) {
      forall l | 0 <= l <= i ensures Times(|order| - l, ps[order[l]]) < alpha {
        AscendsAt(ps, order, l, i);
        CountFrom(ps, order, l);
        ScaleOrder(|order| - l, |AtLeast(ps, All(|ps|), ps[order[l]])|, ps[order[l]]);
        assert Scaled(ps, All(|ps|), order[l]) < alpha;
      }
    }
    if forall l :: 0 <= l <= i ==> Times(|order| - l, ps[order[l]]) < alpha {
      forall j | j in All(|ps|) && ps[j] <= ps[order[i]] ensures Scaled(ps, All(|ps|), j) < alpha {
        assert j in order;
        var p :| 0 <= p < |order| && order[p] == j;
        var l := FirstPosition(ps, order, p);
        if l > i {
          AscendsAt(ps, order, i, l - 1);
        }
        CountFrom(ps, order, l);
      }
    }
  }

  lemma OrderListsAll(ps: seq<real>)
    ensures SortedAll(ps, SortedOrder(ps, |ps|))
  {
    OrderSorted(ps, |ps|);
  }

  /** What an adjusted p-value means: below alpha exactly when no p-value up to this one is stopped. */
  lemma AdjustedMeans(ps: seq<real>, adjusted: seq<real>, k: nat, alpha: real)
    requires NonNegative(ps) && IsAdjustment(ps, adjusted) && k < |ps| && alpha <= 1.0
    ensures adjusted[k] < alpha <==> Passes(ps, All(|ps|), k, alpha)
  {
    var order := SortedOrder(ps, |ps|);
    OrderListsAll(ps);
    var i := PositionOf(ps, order, k);
    hide Passes, SortedOrder, Running, Times, SortedAll;
    RunningBelow(ps, order, i, alpha);
    PassesByPosition(ps, order, i, alpha);
    assert adjusted[order[i]] == CapAtOne(Running(ps, order, i));
  }

  lemma PositionOf(ps: seq<real>, order: seq<nat>, k: nat) returns (i: nat)
    requires SortedAll(ps, order) && k < |ps|
    ensures i < |order| && order[i] == k
  {
    hide Ascends, Distinct;
    assert k in order;
    i :| 0 <= i < |order| && order[i] == k;
  }

  // ---------------------------------------------------------------- the step-down procedure

  /** p-value k comes before p-value j, the lower index first among equals. */
  predicate Before(ps: seq<real>, k: nat, j: nat)
    requires k < |ps| && j < |ps|
  {
    ps[k] < ps[j] || (ps[k] == ps[j] && k <= j)
  }

  lemma BeforeOrder(ps: seq<real>, i: nat, j: nat, k: nat)
    requires i < |ps| && j < |ps| && k < |ps|
    ensures Before(ps, i, j) && Before(ps, j, k) ==> Before(ps, i, k)
    ensures Before(ps, i, j) || Before(ps, j, i)
  {
  }

  /** The index of the least p-value in r, the lowest index among equals. */
  ghost function Least(ps: seq<real>, r: set<nat>): (k: nat)
    requires r != {} && forall k :: k in r ==> k < |ps|
    ensures k in r && forall j :: j in r ==> Before(ps, k, j)
  {
    LeastExists(ps, r);
    var k :| k in r && forall j :: j in r ==> Before(ps, k, j);
    k
  }

  lemma {:induction false} LeastExists(ps: seq<real>, r: set<nat>)
    requires r != {} && forall k :: k in r ==> k < |ps|
    ensures exists k :: k in r && forall j :: j in r ==> Before(ps, k, j)
    decreases |r|
  {
    hide Before;
    var x :| x in r;
    var rest := r - {x};
    BeforeOrder(ps, x, x, x);
    if rest != {} {
      LeastExists(ps, rest);
      var y :| y in rest && forall j :: j in rest ==> Before(ps, y, j);
      LeastWith(ps, rest, x, y);
      assert r == rest + {x};
    } else {
      assert r == {x};
    }
  }

  lemma LeastWith(ps: seq<real>, rest: set<nat>, x: nat, y: nat)
    requires (forall k :: k in rest ==> k < |ps|) && x < |ps|
    requires y in rest && forall j :: j in rest ==> Before(ps, y, j)
    ensures exists k :: k in rest + {x} && forall j :: j in rest + {x} ==> Before(ps, k, j)
  {
    hide Before;
    BeforeOrder(ps, x, y, x);
    var k := if Before(ps, x, y) then x else y;
    forall j | j in rest + {x} ensures Before(ps, k, j) {
      BeforeOrder(ps, x, x, x);
      BeforeOrder(ps, k, y, j);
    }
    assert k in rest + {x};
  }

  /** Reject the smallest p-value while it is below alpha over the number of hypotheses left; stop at the first that is not. */
  ghost function StepDown(ps: seq<real>, left: set<nat>, alpha: real): set<nat>
    requires forall k :: k in left ==> k < |ps|
    decreases |left|
  {
    if left == {} then {}
    else
      var k := Least(ps, left);
      if Times(|left|, ps[k]) < alpha then {k} + StepDown(ps, left - {k}, alpha) else {}
  }

  /** The step-down procedure rejects exactly what passes. */
  lemma {:induction false} StepDownExact(ps: seq<real>, left: set<nat>, i: nat, alpha: real)
    requires NonNegative(ps) && i in left && forall k :: k in left ==> k < |ps|
    ensures i in StepDown(ps, left, alpha) <==> Passes(ps, left, i, alpha)
    decreases |left|
  {
    hide Times;
    var a := Least(ps, left);
    var rest := left - {a};
    Ties(ps, left, a);
    if Times(|left|, ps[a]) < alpha {
      if i != a {
        StepDownExact(ps, rest, i, alpha);
        PassesRest(ps, left, a, i, alpha);
      } else {
        assert Passes(ps, left, a, alpha);
      }
    } else {
      assert Scaled(ps, left, a) >= alpha && ps[a] <= ps[i];
    }
  }

  /** Taking the least p-value away: its ties counted everyone, the others never counted it. */
  lemma Ties(ps: seq<real>, left: set<nat>, a: nat)
    requires NonNegative(ps) && (forall k :: k in left ==> k < |ps|) && a in left
    requires forall j :: j in left ==> ps[a] <= ps[j]
    ensures forall j :: j in left && ps[j] == ps[a] ==>
              Scaled(ps, left, j) == Times(|left|, ps[a]) && Scaled(ps, left - {a}, j) <= Times(|left|, ps[a])
    ensures forall j :: j in left && ps[j] > ps[a] ==> Scaled(ps, left - {a}, j) == Scaled(ps, left, j)
  {
    hide Times;
    var rest := left - {a};
    forall j | j in left
      ensures ps[j] == ps[a] ==>
                Scaled(ps, left, j) == Times(|left|, ps[a]) && Scaled(ps, left - {a}, j) <= Times(|left|, ps[a])
      ensures ps[j] > ps[a] ==> Scaled(ps, left - {a}, j) == Scaled(ps, left, j)
    {
      if ps[j] == ps[a] {
        assert AtLeast(ps, left, ps[j]) == left;
        SubsetSize(AtLeast(ps, rest, ps[j]), left);
        ScaleOrder(|AtLeast(ps, rest, ps[j])|, |left|, ps[j]);
      } else {
        assert AtLeast(ps, rest, ps[j]) == AtLeast(ps, left, ps[j]);
      }
    }
  }

  lemma PassesRest(ps: seq<real>, left: set<nat>, a: nat, i: nat, alpha: real)
    requires (forall k :: k in left ==> k < |ps|) && a in left && i in left
    requires forall j :: j in left ==> ps[a] <= ps[j]
    requires forall j :: j in left && ps[j] > ps[a] ==> Scaled(ps, left - {a}, j) == Scaled(ps, left, j)
    requires forall j :: j in left && ps[j] == ps[a] ==> Scaled(ps, left, j) < alpha && Scaled(ps, left - {a}, j) < alpha
    ensures Passes(ps, left, i, alpha) <==> Passes(ps, left - {a}, i, alpha)
  {
    hide Scaled;
    var rest := left - {a};
    if Passes(ps, left, i, alpha) {
      forall j | j in rest && ps[j] <= ps[i] ensures Scaled(ps, rest, j) < alpha {
        if ps[j] > ps[a] {
          assert Scaled(ps, left, j) < alpha;
        }
      }
    }
    if Passes(ps, rest, i, alpha) {
      forall j | j in left && ps[j] <= ps[i] ensures Scaled(ps, left, j) < alpha {
        if ps[j] > ps[a] {
          assert j in rest && Scaled(ps, rest, j) < alpha;
        }
      }
    }
  }

  /** Adjusted p-values below alpha are exactly the hypotheses the step-down procedure rejects. */
  lemma AdjustedIsStepDown(ps: seq<real>, adjusted: seq<real>, k: nat, alpha: real)
    requires NonNegative(ps) && IsAdjustment(ps, adjusted) && k < |ps| && alpha <= 1.0
    ensures adjusted[k] < alpha <==> k in StepDown(ps, All(|ps|), alpha)
  {
    hide StepDown, Passes, IsAdjustment;
    AdjustedSize(ps, adjusted);
    AdjustedMeans(ps, adjusted, k, alpha);
    StepDownExact(ps, All(|ps|), k, alpha);
  }

  lemma AdjustedSize(ps: seq<real>, adjusted: seq<real>)
    requires IsAdjustment(ps, adjusted)
    ensures |adjusted| == |ps|
  {
  }

  // ---------------------------------------------------------------- family-wise error

  /** If a rejected index lies in T, some index of T has a p-value below alpha / |T|. */
  lemma FamilyWiseCore(ps: seq<real>, t: set<nat>, i: nat, alpha: real)
    requires NonNegative(ps) && i in t && (forall k :: k in t ==> k < |ps|)
    requires i in StepDown(ps, All(|ps|), alpha)
    ensures exists j :: j in t && Times(|t|, ps[j]) < alpha
  {
    hide StepDown, Times, Least;
    StepDownExact(ps, All(|ps|), i, alpha);
    var j := Least(ps, t);
    assert Scaled(ps, All(|ps|), j) < alpha;
    forall k | k in t ensures k in AtLeast(ps, All(|ps|), ps[j]) {
    }
    SubsetSize(t, AtLeast(ps, All(|ps|), ps[j]));
    ScaleOrder(|t|, |AtLeast(ps, All(|ps|), ps[j])|, ps[j]);
  }

  // ---------------------------------------------------------------- order of the inputs

  ghost predicate IsPermutation(pi: seq<nat>, n: nat) {
    && |pi| == n
    && (forall k :: 0 <= k < n ==> pi[k] < n)
    && (forall k, l :: 0 <= k < l < n ==> pi[k] != pi[l])
    && Covers(pi, n)
  }

  ghost function Image(pi: seq<nat>, s: set<nat>): set<nat>
    requires forall k :: k in s ==> k < |pi|
  {
    set k | k in s :: pi[k]
  }

  lemma {:induction false} ImageSize(pi: seq<nat>, s: set<nat>)
    requires (forall k :: k in s ==> k < |pi|) && forall k, l :: 0 <= k < l < |pi| ==> pi[k] != pi[l]
    ensures |Image(pi, s)| == |s|
    decreases s
  {
    if s != {} {
      var x :| x in s;
      ImageSize(pi, s - {x});
      assert Image(pi, s) == Image(pi, s - {x}) + {pi[x]};
      assert pi[x] !in Image(pi, s - {x});
    }
  }

  lemma Preimage(pi: seq<nat>, n: nat, x: nat) returns (l: nat)
    requires IsPermutation(pi, n) && x < n
    ensures l < n && pi[l] == x
  {
    assert x in pi;
    l :| 0 <= l < n && pi[l] == x;
  }

  lemma ScaledPermuted(ps: seq<real>, qs: seq<real>, pi: seq<nat>, j: nat)
    requires IsPermutation(pi, |ps|) && |qs| == |ps| && j < |ps|
    requires forall l :: 0 <= l < |ps| ==> qs[l] == ps[pi[l]]
    ensures Scaled(qs, All(|qs|), j) == Scaled(ps, All(|ps|), pi[j])
  {
    hide All, Times, Covers;
    var a, b := AtLeast(qs, All(|qs|), qs[j]), AtLeast(ps, All(|ps|), ps[pi[j]]);
    ImageSize(pi, a);
    assert Image(pi, a) == b by {
      forall x | x in b ensures x in Image(pi, a) {
        var l := Preimage(pi, |ps|, x);
        assert l in a;
      }
    }
  }

  lemma PassesPermuted(ps: seq<real>, qs: seq<real>, pi: seq<nat>, k: nat, alpha: real)
    requires IsPermutation(pi, |ps|) && |qs| == |ps| && k < |ps|
    requires forall l :: 0 <= l < |ps| ==> qs[l] == ps[pi[l]]
    ensures Passes(qs, All(|qs|), k, alpha) <==> Passes(ps, All(|ps|), pi[k], alpha)
  {
    hide Scaled, All, Covers;
    forall j | 0 <= j < |ps| ensures Scaled(qs, All(|qs|), j) == Scaled(ps, All(|ps|), pi[j]) {
      ScaledPermuted(ps, qs, pi, j);
    }
    if Passes(qs, All(|qs|), k, alpha) {
      forall x | x in All(|ps|) && ps[x] <= ps[pi[k]] ensures Scaled(ps, All(|ps|), x) < alpha {
        var l := Preimage(pi, |ps|, x);
        assert Scaled(qs, All(|qs|), l) < alpha;
      }
    }
    if Passes(ps, All(|ps|), pi[k], alpha) {
      forall j | j in All(|qs|) && qs[j] <= qs[k] ensures Scaled(qs, All(|qs|), j) < alpha {
        assert pi[j] in All(|ps|);
      }
    }
  }

  /** Renaming the hypotheses renames the adjusted p-values: at every level, the same decision. */
  lemma PermutedAlike(ps: seq<real>, qs: seq<real>, pi: seq<nat>, adjusted: seq<real>, renamed: seq<real>, k: nat, alpha: real)
    requires NonNegative(ps) && IsPermutation(pi, |ps|) && |qs| == |ps| && k < |ps| && alpha <= 1.0
    requires forall l :: 0 <= l < |ps| ==> qs[l] == ps[pi[l]]
    requires IsAdjustment(ps, adjusted) && IsAdjustment(qs, renamed)
    ensures renamed[k] < alpha <==> adjusted[pi[k]] < alpha
  {
    hide Passes, IsAdjustment;
    AdjustedSize(ps, adjusted);
    AdjustedSize(qs, renamed);
    AdjustedMeans(ps, adjusted, pi[k], alpha);
    AdjustedMeans(qs, renamed, k, alpha);
    PassesPermuted(ps, qs, pi, k, alpha);
  }

  /** Adjusted p-values lie in [0, 1], so equal decisions at every level up to 1 make them equal. */
  lemma PermutationEquivariant(ps: seq<real>, qs: seq<real>, pi: seq<nat>, adjusted: seq<real>, renamed: seq<real>, k: nat)
    requires NonNegative(ps) && IsPermutation(pi, |ps|) && |qs| == |ps| && k < |ps|
    requires forall l :: 0 <= l < |ps| ==> qs[l] == ps[pi[l]]
    requires IsAdjustment(ps, adjusted) && IsAdjustment(qs, renamed)
    ensures |adjusted| == |ps| == |renamed| && renamed[k] == adjusted[pi[k]]
  {
    AdjustedCapped(ps, adjusted, pi[k]);
    AdjustedCapped(qs, renamed, k);
    hide IsAdjustment, IsPermutation, NonNegative;
    PermutedAlike(ps, qs, pi, adjusted, renamed, k, adjusted[pi[k]]);
    PermutedAlike(ps, qs, pi, adjusted, renamed, k, renamed[k]);
  }

  lemma AdjustedCapped(ps: seq<real>, adjusted: seq<real>, k: nat)
    requires IsAdjustment(ps, adjusted) && k < |ps|
    ensures |adjusted| == |ps| && adjusted[k] <= 1.0
  {
    OrderListsAll(ps);
    var order := SortedOrder(ps, |ps|);
    var i := PositionOf(ps, order, k);
    hide SortedOrder, Running;
    assert adjusted[order[i]] == CapAtOne(Running(ps, order, i));
  }
}
