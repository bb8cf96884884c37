/** What a completed walk means for consistency proofs, and for a leaf whose claimed position is arbitrary. */
module ClimbTheorems {
  import opened Wrappers
  import opened Bytes
  import opened MerkleSpec
  import opened Climb

  // ---------------------------------------------------------------- consistency

  /** Where a consistency walk starts: the level on which the prefix of size m ends in an even position. */
  function StartOf(w: Width, m: nat, n: nat): (int, int)
    requires 0 < m
  {
    StripOdd(w, m - 1, n - 1)
  }

  lemma StartEven(m: nat, n: nat)
    requires 0 < m <= n && m % 2 == 0
    ensures StartOf(Unbounded, m, n) == StartOf(Unbounded, m / 2, (n + 1) / 2)
  {
    hide StripOdd, Shr;
    HalfBefore(m);
    StripOddStep(m - 1, n - 1);
    HalfBefore(n + 1);
  }

  lemma HalfBefore(x: nat)
    requires x > 1
    ensures (x - 2) / 2 == x / 2 - 1
    ensures x % 2 == 0 ==> (x - 1) / 2 == x / 2 - 1
    ensures x % 2 == 0 ==> (x - 1) % 2 == 1
  {
  }

  lemma StripOddStep(fn: nat, sn: nat)
    requires fn % 2 == 1
    ensures StripOdd(Unbounded, fn, sn) == StripOdd(Unbounded, fn / 2, sn / 2)
  {
  }

  lemma StartOdd(m: nat, n: nat)
    requires 0 < m <= n && m % 2 == 1
    ensures StartOf(Unbounded, m, n) == (m - 1, n - 1)
    ensures IsPow2(m) <==> m == 1
  {
  }

  lemma PrefixPair(h: Hash, m: nat, d: seq<Digest>)
    requires 0 < m <= |d| && m % 2 == 0
    ensures Pair(h, d)[..m / 2] == Pair(h, d[..m])
    ensures Mth(h, Pair(h, d)[..m / 2]) == Mth(h, d[..m])
  {
    hide Mth;
    PairSplit(h, d, m);
    MthPair(h, d[..m]);
  }

  /** The node a consistency walk starts from, and the siblings it then consumes. */
  predicate StartsWith(h: Hash, m: nat, d: seq<Digest>, x: Bytes, path: seq<Option<Bytes>>)
    requires 0 < m < |d|
  {
    var proof := Subproof(h, m, d, true);
    if StartOf(Unbounded, m, |d|).0 == 0 then x == Mth(h, d[..m]) && path == Decoded(proof)
    else proof != [] && x == proof[0] && path == Decoded(proof[1..])
  }

  /** The odd part of m is 1 exactly when m is a power of two. */
  lemma {:induction false} StartIsZero(m: nat, n: nat)
    requires 0 < m <= n
    ensures StartOf(Unbounded, m, n).0 == 0 <==> IsPow2(m)
    decreases m
  {
    if m % 2 == 0 {
      StartEven(m, n);
      StartIsZero(m / 2, (n + 1) / 2);
    } else {
      StartOdd(m, n);
    }
  }

  lemma StartsWithPair(h: Hash, m: nat, d: seq<Digest>, x: Bytes, path: seq<Option<Bytes>>)
    requires 0 < m < |d| && m % 2 == 0
    ensures StartsWith(h, m, d, x, path) == StartsWith(h, m / 2, Pair(h, d), x, path)
  {
    hide Mth, Subproof, Pair, Decoded, StartOf;
    PrefixPair(h, m, d);
    SubproofEven(h, m, d, true);
    StartEven(m, |d|);
  }

  lemma StartsWithOdd(h: Hash, m: nat, d: seq<Digest>, x: Bytes, path: seq<Option<Bytes>>)
    requires 0 < m < |d| && m % 2 == 1
    ensures StartsWith(h, m, d, x, path) <==> x == d[m - 1] && path == Decoded(Path(h, m - 1, d))
  {
    hide Mth, Subproof, Path, Decoded, StartOf;
    SubproofOdd(h, m, d, true);
    StartOdd(m, |d|);
    var proof := Subproof(h, m, d, true);
    if m == 1 {
      MthOne(h, d[..1]);
      assert proof == Path(h, m - 1, d);
    } else {
      assert proof[1..] == Path(h, m - 1, d);
    }
  }

  /** The recursive consistency proof leads the walk to both roots at once. */
  lemma {:induction false} ConsistencyComplete(h: Hash, m: nat, d: seq<Digest>, x: Bytes, path: seq<Option<Bytes>>)
    requires 0 < m < |d| && StartsWith(h, m, d, x, path)
    ensures var c := StartOf(Unbounded, m, |d|);
            ClimbBoth(h, Unbounded, c.0, c.1, x, x, path) == Reached((Mth(h, d[..m]), Mth(h, d)))
    decreases |d|
  {
    hide Mth, StartsWith, ClimbBoth, Pair, StartOf;
    if m % 2 == 0 {
      StartsWithPair(h, m, d, x, path);
      StartEven(m, |d|);
      PrefixPair(h, m, d);
      MthPair(h, d);
      ConsistencyComplete(h, m / 2, Pair(h, d), x, path);
    } else {
      StartsWithOdd(h, m, d, x, path);
      StartOdd(m, |d|);
      ClimbComplete(h, m - 1, d, d[..m]);
    }
  }

  /**
   A consistency walk that ends in the root of d, from any node and over any siblings, was the honest one;
   and the other root it carries is then the root of the first m leaves of d.
   */
  lemma {:induction false} ConsistencySound(h: Hash, m: nat, d: seq<Digest>, x: Bytes, path: seq<Option<Bytes>>, f: Bytes)
    requires 0 < m < |d| && |x| == 32
    requires var c := StartOf(Unbounded, m, |d|);
             ClimbBoth(h, Unbounded, c.0, c.1, x, x, path) == Reached((f, Mth(h, d)))
    ensures var c := StartOf(Unbounded, m, |d|);
            || (StartsWith(h, m, d, x, path) && f == Mth(h, d[..m]))
            || Collision(h, NodeInputs(h, d), ClimbInputs(h, Unbounded, c.0, c.1, x, path))
    decreases |d|
  {
    hide Mth, StartsWith, ClimbBoth, ClimbFrom, Pair, StartOf, NodeInputs, ClimbInputs, Collision;
    var c := StartOf(Unbounded, m, |d|);
    var later := ClimbInputs(h, Unbounded, c.0, c.1, x, path);
    if m % 2 == 0 {
      StartsWithPair(h, m, d, x, path);
      StartEven(m, |d|);
      PrefixPair(h, m, d);
      MthPair(h, d);
      NodeInputsPair(h, d);
      ConsistencySound(h, m / 2, Pair(h, d), x, path, f);
      if Collision(h, NodeInputs(h, Pair(h, d)), later) {
        CollisionGrows(h, NodeInputs(h, Pair(h, d)), later, NodeInputs(h, d), later);
      }
    } else {
      StartOdd(m, |d|);
      ClimbBothSecond(h, Unbounded, m - 1, |d| - 1, x, x, path);
      ClimbSound(h, m - 1, x, path, d);
      StartsWithOdd(h, m, d, x, path);
      if x == d[m - 1] && path == Decoded(Path(h, m - 1, d)) {
        ClimbComplete(h, m - 1, d, d[..m]);
      }
    }
  }

  // ---------------------------------------------------------------- a start of the wrong length

  /** What the walk hashes for the earlier of its two roots. */
  function FirstInputs(h: Hash, fn: int, sn: int, fr: Bytes, path: seq<Option<Bytes>>): set<Bytes>
    decreases |path|
  {
    if path == [] || sn == 0 || path[0].None? then {}
    else if TakesLeft(Unbounded, fn, sn) then
      var c := NextLeft(Unbounded, fn, sn);
      {NodeInput(path[0].value, fr)} + FirstInputs(h, c.0, c.1, HashNode(h, path[0].value, fr), path[1..])
    else
      var c := NextRight(Unbounded, fn, sn);
      FirstInputs(h, c.0, c.1, fr, path[1..])
  }

  /** Walks over one path from different nodes do not meet in the earlier root. */
  lemma {:induction false} FirstDiffers(h: Hash, fn: int, sn: int, x: Bytes, y: Bytes, s: Bytes, t: Bytes, path: seq<Option<Bytes>>)
    requires x != y
    requires ClimbBoth(h, Unbounded, fn, sn, x, s, path).Reached? && ClimbBoth(h, Unbounded, fn, sn, y, t, path).Reached?
    requires ClimbBoth(h, Unbounded, fn, sn, x, s, path).root.0 == ClimbBoth(h, Unbounded, fn, sn, y, t, path).root.0
    ensures Collision(h, FirstInputs(h, fn, sn, x, path), FirstInputs(h, fn, sn, y, path))
    decreases |path|
  {
    hide StripEven;
    if path != [] && sn != 0 {
      var p := path[0].value;
      var xs, ys := FirstInputs(h, fn, sn, x, path), FirstInputs(h, fn, sn, y, path);
      if TakesLeft(Unbounded, fn, sn) {
        var c := NextLeft(Unbounded, fn, sn);
        var u, v := HashNode(h, p, x), HashNode(h, p, y);
        if u == v {
          assert NodeInput(p, x) != NodeInput(p, y) by {
            if NodeInput(p, x) == NodeInput(p, y) {
              NodeInputInjective(p, x, p, y);
            }
          }
          assert NodeInput(p, x) in xs && NodeInput(p, y) in ys;
        } else {
          FirstDiffers(h, c.0, c.1, u, v, HashNode(h, p, s), HashNode(h, p, t), path[1..]);
          CollisionGrows(h, FirstInputs(h, c.0, c.1, u, path[1..]), FirstInputs(h, c.0, c.1, v, path[1..]), xs, ys);
        }
      } else {
        var c := NextRight(Unbounded, fn, sn);
        FirstDiffers(h, c.0, c.1, x, y, HashNode(h, s, p), HashNode(h, t, p), path[1..]);
      }
    }
  }

  /** The node the honest walk starts from when the prefix is no power of two. */
  lemma HonestNode(h: Hash, m: nat, d: seq<Digest>)
    requires 0 < m < |d| && !IsPow2(m)
    ensures Subproof(h, m, d, true) != []
    ensures m % 2 == 1 ==> Subproof(h, m, d, true)[0] == d[m - 1]
    ensures m % 2 == 0 ==> !IsPow2(m / 2) && Subproof(h, m, d, true) == Subproof(h, m / 2, Pair(h, d), true)
    decreases m
  {
    hide Subproof, Pair;
    if m % 2 == 0 {
      SubproofEven(h, m, d, true);
      HonestNode(h, m / 2, Pair(h, d));
    } else {
      SubproofOdd(h, m, d, true);
    }
  }

  /** The first step of a walk from an odd prefix size above 1 takes a sibling on the right. */
  lemma FirstStep(h: Hash, m: nat, n: nat, x: Bytes, z: Bytes, path: seq<Option<Bytes>>)
    requires 1 < m < n && m % 2 == 1 && ClimbBoth(h, Unbounded, m - 1, n - 1, x, x, path).Reached?
    ensures path != [] && path[0].Some?
    ensures var y := HashNode(h, x, path[0].value);
            && ClimbBoth(h, Unbounded, m - 1, n - 1, x, x, path)
               == ClimbBoth(h, Unbounded, (m - 1) / 2, (n - 1) / 2, x, y, path[1..])
            && ClimbInputs(h, Unbounded, m - 1, n - 1, x, path)
               >= ClimbInputs(h, Unbounded, (m - 1) / 2, (n - 1) / 2, y, path[1..])
    ensures FirstInputs(h, m - 1, n - 1, x, path) == FirstInputs(h, (m - 1) / 2, (n - 1) / 2, x, path[1..])
    ensures FirstInputs(h, m - 1, n - 1, z, path) == FirstInputs(h, (m - 1) / 2, (n - 1) / 2, z, path[1..])
  {
    hide StripEven;
  }

  /** A walk to the root of d from a node that is not 32 bytes long does not carry the root of the prefix. */
  lemma {:induction false} StartLengthMatters(h: Hash, m: nat, d: seq<Digest>, x: Bytes, path: seq<Option<Bytes>>)
    requires 0 < m < |d| && !IsPow2(m) && |x| != 32
    requires var c := StartOf(Unbounded, m, |d|);
             ClimbBoth(h, Unbounded, c.0, c.1, x, x, path) == Reached((Mth(h, d[..m]), Mth(h, d)))
    ensures Subproof(h, m, d, true) != []
    ensures var c := StartOf(Unbounded, m, |d|);
            || Collision(h, NodeInputs(h, d), ClimbInputs(h, Unbounded, c.0, c.1, x, path))
            || Collision(h, FirstInputs(h, c.0, c.1, Subproof(h, m, d, true)[0], path), FirstInputs(h, c.0, c.1, x, path))
    decreases |d|
  {
    hide Mth, Subproof, ClimbBoth, ClimbFrom, Pair, StartOf, NodeInputs, ClimbInputs, FirstInputs, Collision, IsPow2;
    var c := StartOf(Unbounded, m, |d|);
    var walked := ClimbInputs(h, Unbounded, c.0, c.1, x, path);
    HonestNode(h, m, d);
    if m % 2 == 0 {
      StartEven(m, |d|);
      PrefixPair(h, m, d);
      MthPair(h, d);
      NodeInputsPair(h, d);
      StartLengthMatters(h, m / 2, Pair(h, d), x, path);
      if Collision(h, NodeInputs(h, Pair(h, d)), walked) {
        CollisionGrows(h, NodeInputs(h, Pair(h, d)), walked, NodeInputs(h, d), walked);
      }
    } else {
      StartOdd(m, |d|);
      OddStartLength(h, m, d, x, path);
    }
  }

  lemma OddStartLength(h: Hash, m: nat, d: seq<Digest>, x: Bytes, path: seq<Option<Bytes>>)
    requires 1 < m < |d| && m % 2 == 1 && |x| != 32
    requires ClimbBoth(h, Unbounded, m - 1, |d| - 1, x, x, path) == Reached((Mth(h, d[..m]), Mth(h, d)))
    ensures || Collision(h, NodeInputs(h, d), ClimbInputs(h, Unbounded, m - 1, |d| - 1, x, path))
            || Collision(h, FirstInputs(h, m - 1, |d| - 1, d[m - 1], path), FirstInputs(h, m - 1, |d| - 1, x, path))
  {
    hide Mth, Path, ClimbBoth, ClimbFrom, Pair, NodeInputs, ClimbInputs, FirstInputs, Collision;
    var f, s := (m - 1) / 2, (|d| - 1) / 2;
    var up, e := Pair(h, d), d[..m];
    FirstStep(h, m, |d|, x, d[m - 1], path);
    var y, rest := HashNode(h, x, path[0].value), path[1..];
    ClimbBothSecond(h, Unbounded, f, s, x, y, rest);
    MthPair(h, d);
    MthPair(h, e);
    NodeInputsPair(h, d);
    ClimbSound(h, f, y, rest, up);
    var walked := ClimbInputs(h, Unbounded, f, s, y, rest);
    if Collision(h, NodeInputs(h, up), walked) {
      CollisionGrows(h, NodeInputs(h, up), walked, NodeInputs(h, d), ClimbInputs(h, Unbounded, m - 1, |d| - 1, x, path));
    } else {
      PairLevel(h, m - 1, d, e);
      ClimbComplete(h, f, up, Pair(h, e));
      FirstDiffers(h, f, s, d[m - 1], x, y, y, rest);
    }
  }

  // ---------------------------------------------------------------- any claimed position

  /** One step of a walk, stripped of the counters that chose its side. */
  datatype Step = OnLeft(node: Bytes) | OnRight(node: Bytes)

  function StepInput(x: Bytes, s: Step): Bytes {
    match s
    case OnLeft(p) => NodeInput(p, x)
    case OnRight(p) => NodeInput(x, p)
  }

  function Fold(h: Hash, x: Bytes, steps: seq<Step>): Bytes {
    if steps == [] then x else h(StepInput(Fold(h, x, steps[..|steps| - 1]), steps[|steps| - 1]))
  }

  function FoldInputs(h: Hash, x: Bytes, steps: seq<Step>): set<Bytes> {
    if steps == [] then {}
    else
      var before := steps[..|steps| - 1];
      FoldInputs(h, x, before) + {StepInput(Fold(h, x, before), steps[|steps| - 1])}
  }

  function Leaves(h: Hash, log: seq<Bytes>): (r: seq<Digest>)
    ensures |r| == |log|
  {
    seq(|log|, i requires 0 <= i < |log| => HashLeaf(h, log[i]))
  }

  function LeafInputs(log: seq<Bytes>): set<Bytes> {
    set data | data in log :: LeafInput(data)
  }

  /** Everything the prover hashes to publish the root of a log. */
  function TreeInputs(h: Hash, log: seq<Bytes>): set<Bytes> {
    LeafInputs(log) + NodeInputs(h, Leaves(h, log)) + {[]}
  }

  /** The first step can be split off a fold as well as the last one. */
  lemma {:induction false} FoldFirst(h: Hash, x: Bytes, s: Step, rest: seq<Step>)
    ensures Fold(h, x, [s] + rest) == Fold(h, h(StepInput(x, s)), rest)
    ensures FoldInputs(h, x, [s] + rest) == {StepInput(x, s)} + FoldInputs(h, h(StepInput(x, s)), rest)
    decreases |rest|
  {
    var all := [s] + rest;
    if rest != [] {
      var before := rest[..|rest| - 1];
      assert all[..|all| - 1] == [s] + before;
      FoldFirst(h, x, s, before);
    } else {
      assert all[..|all| - 1] == [];
      assert Fold(h, x, []) == x;
    }
  }

  /** Every walk that reaches a root, with whatever counters, is a fold. */
  lemma {:induction false} ClimbIsFold(h: Hash, w: Width, fn: int, sn: int, x: Bytes, path: seq<Option<Bytes>>)
    returns (steps: seq<Step>)
    requires ClimbFrom(h, w, fn, sn, x, path).Reached?
    ensures |steps| == |path|
    ensures ClimbFrom(h, w, fn, sn, x, path) == Reached(Fold(h, x, steps))
    ensures ClimbInputs(h, w, fn, sn, x, path) == FoldInputs(h, x, steps)
    decreases |path|
  {
    hide Fold, FoldInputs, NextLeft, NextRight, TakesLeft;
    if path == [] {
      steps := [];
      FoldEmpty(h, x);
    } else {
      var p := path[0].value;
      var left := TakesLeft(w, fn, sn);
      var c := if left then NextLeft(w, fn, sn) else NextRight(w, fn, sn);
      var s := if left then OnLeft(p) else OnRight(p);
      steps := ClimbIsFold(h, w, c.0, c.1, h(StepInput(x, s)), path[1..]);
      FoldFirst(h, x, s, steps);
      steps := [s] + steps;
    }
  }

  lemma FoldEmpty(h: Hash, x: Bytes)
    ensures Fold(h, x, []) == x && FoldInputs(h, x, []) == {}
  {
  }

  lemma FoldLast(h: Hash, x: Bytes, steps: seq<Step>)
    requires steps != []
    ensures var before := steps[..|steps| - 1];
            var input := StepInput(Fold(h, x, before), steps[|steps| - 1]);
            && Fold(h, x, steps) == h(input)
            && FoldInputs(h, x, steps) == FoldInputs(h, x, before) + {input}
  {
  }

  lemma FoldWidth(h: Hash, x: Bytes, steps: seq<Step>)
    requires |x| == 32
    ensures |Fold(h, x, steps)| == 32
  {
  }

  lemma LeavesSplit(h: Hash, log: seq<Bytes>, k: nat)
    requires k <= |log|
    ensures Leaves(h, log)[..k] == Leaves(h, log[..k]) && Leaves(h, log)[k..] == Leaves(h, log[k..])
    ensures LeafInputs(log[..k]) <= LeafInputs(log) && LeafInputs(log[k..]) <= LeafInputs(log)
  {
  }

  lemma TreeSplit(h: Hash, log: seq<Bytes>, k: nat)
    requires |log| >= 2 && k == Split(|log|)
    ensures TreeInputs(h, log[..k]) <= TreeInputs(h, log) && TreeInputs(h, log[k..]) <= TreeInputs(h, log)
    ensures NodeInput(Mth(h, Leaves(h, log[..k])), Mth(h, Leaves(h, log[k..]))) in TreeInputs(h, log)
    ensures Mth(h, Leaves(h, log)) == h(NodeInput(Mth(h, Leaves(h, log[..k])), Mth(h, Leaves(h, log[k..]))))
  {
    hide Mth, NodeInputs, Split, IsPow2, Leaves, LeafInputs, NodeInput;
    LeavesSplit(h, log, k);
    NodeInputsSplit(h, Leaves(h, log));
    MthSplit(h, Leaves(h, log));
  }

  /** The one input whose digest is the root of a log of at most one leaf. */
  lemma TreeSmall(h: Hash, log: seq<Bytes>)
    requires |log| <= 1
    ensures log == [] ==> Mth(h, Leaves(h, log)) == h([]) && [] in TreeInputs(h, log)
    ensures |log| == 1 ==> Mth(h, Leaves(h, log)) == h(LeafInput(log[0])) && LeafInput(log[0]) in TreeInputs(h, log)
  {
  }

  /** What the verifier hashes on its way up from a leaf. */
  function WalkInputs(h: Hash, data: Bytes, steps: seq<Step>): set<Bytes> {
    {LeafInput(data)} + FoldInputs(h, HashLeaf(h, data), steps)
  }

  /**
   Domain separation at work: a fold that starts in a leaf hash and ends in the root of a log starts in
   one of the leaves of that log. No index and no size is assumed.
   */
  lemma {:induction false} FoldReachesLoggedLeaf(h: Hash, data: Bytes, steps: seq<Step>, log: seq<Bytes>)
    requires Fold(h, HashLeaf(h, data), steps) == Mth(h, Leaves(h, log))
    ensures data in log || Collision(h, TreeInputs(h, log), WalkInputs(h, data, steps))
    decreases |steps|
  {
    hide Mth, Fold, FoldInputs, TreeInputs, Leaves, Split, Collision;
    var x := HashLeaf(h, data);
    var mine := WalkInputs(h, data, steps);
    var theirs := TreeInputs(h, log);
    // the last input hashed on each side
    var a := if |log| == 0 then []
             else if |log| == 1 then LeafInput(log[0])
             else NodeInput(Mth(h, Leaves(h, log[..Split(|log|)])), Mth(h, Leaves(h, log[Split(|log|)..])));
    if |log| <= 1 {
      TreeSmall(h, log);
    } else {
      TreeSplit(h, log, Split(|log|));
    }
    if steps == [] {
      FoldEmpty(h, x);
      SameInput(h, a, LeafInput(data), theirs, mine);
      if a == LeafInput(data) {
        assert a[0] == 0;
        assert |log| == 1;
        assert log[0] == a[1..] == data;
      }
    } else {
      var before, s := steps[..|steps| - 1], steps[|steps| - 1];
      var y := Fold(h, x, before);
      FoldLast(h, x, steps);
      FoldWidth(h, x, before);
      SameInput(h, a, StepInput(y, s), theirs, mine);
      if a == StepInput(y, s) {
        assert a[0] == 1;
        var k := Split(|log|);
        var l, r := Mth(h, Leaves(h, log[..k])), Mth(h, Leaves(h, log[k..]));
        var part := if s.OnLeft? then log[k..] else log[..k];
        if s.OnLeft? {
          NodeInputInjective(s.node, y, l, r);
        } else {
          NodeInputInjective(y, s.node, l, r);
        }
        FoldReachesLoggedLeaf(h, data, before, part);
        if Collision(h, TreeInputs(h, part), WalkInputs(h, data, before)) {
          CollisionGrows(h, TreeInputs(h, part), WalkInputs(h, data, before), theirs, mine);
        }
      }
    }
  }
}
