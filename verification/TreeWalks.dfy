/**
 The walks that never build a tree, proved equal to the recursions that split at the largest power of two: what a path
 reconstructs is defined top down, as RFC 6962 defines the path, and every walk of the verifiers computes exactly that,
 on every path, honest or not.
 */
module TreeWalks {
  import opened Wrappers
  import opened Bytes
  import opened MerkleSpec
  import opened Climb
  import opened ClimbTheorems

  // ---------------------------------------------------------------- what a path reconstructs

  function Front<T>(s: seq<T>): seq<T>
    requires s != []
  {
    s[..|s| - 1]
  }

  function Last<T>(s: seq<T>): T
    requires s != []
  {
    s[|s| - 1]
  }

  /** The root that leaf m of n, with hash x, and an audit path make up; None when the path has another length. */
  function RootFrom(h: Hash, m: nat, n: nat, x: Bytes, path: seq<Bytes>): Option<Bytes>
    requires m < n
    decreases n
  {
    if n == 1 then (if path == [] then Some(x) else None)
    else if path == [] then None
    else
      var k := Split(n);
      match if m < k then RootFrom(h, m, k, x, Front(path)) else RootFrom(h, m - k, n - k, x, Front(path))
      case None => None
      case Some(r) => Some(if m < k then HashNode(h, r, Last(path)) else HashNode(h, Last(path), r))
  }

  /** The same with a second node that takes only the siblings on its left: the root of the tree that ends in leaf m. */
  function BothFrom(h: Hash, m: nat, n: nat, fr: Bytes, sr: Bytes, path: seq<Bytes>): Option<(Bytes, Bytes)>
    requires m < n
    decreases n
  {
    if n == 1 then (if path == [] then Some((fr, sr)) else None)
    else if path == [] then None
    else
      var k := Split(n);
      match if m < k then BothFrom(h, m, k, fr, sr, Front(path)) else BothFrom(h, m - k, n - k, fr, sr, Front(path))
      case None => None
      case Some(r) =>
        Some(if m < k then (r.0, HashNode(h, r.1, Last(path)))
             else (HashNode(h, Last(path), r.0), HashNode(h, Last(path), r.1)))
  }

  lemma {:induction false} BothSecond(h: Hash, m: nat, n: nat, fr: Bytes, sr: Bytes, path: seq<Bytes>)
    requires m < n
    ensures RootFrom(h, m, n, sr, path)
            == match BothFrom(h, m, n, fr, sr, path) case None => None case Some(r) => Some(r.1)
    decreases n
  {
    hide Split;
    if n > 1 && path != [] {
      var k := Split(n);
      if m < k {
        BothSecond(h, m, k, fr, sr, Front(path));
      } else {
        BothSecond(h, m - k, n - k, fr, sr, Front(path));
      }
    }
  }

  /** How many hashes the audit path of leaf m of n has. */
  function Depth(m: nat, n: nat): nat
    requires m < n
    decreases n
  {
    if n == 1 then 0 else 1 + if m < Split(n) then Depth(m, Split(n)) else Depth(m - Split(n), n - Split(n))
  }

  lemma {:induction false} PathDepth(h: Hash, m: nat, d: seq<Digest>)
    requires m < |d|
    ensures |Path(h, m, d)| == Depth(m, |d|)
    decreases |d|
  {
    if |d| > 1 {
      var k := Split(|d|);
      if m < k {
        PathDepth(h, m, d[..k]);
      } else {
        PathDepth(h, m - k, d[k..]);
      }
    }
  }

  /** On its level the node has no sibling: it is the last one and stands at an even place. */
  predicate Promoted(m: nat, n: nat) {
    m % 2 == 0 && m + 1 == n
  }

  /** One level up, a path has one hash less, or as many when the node has no sibling. */
  lemma {:induction false} DepthUp(m: nat, n: nat)
    requires m < n && n > 1
    ensures m / 2 < (n + 1) / 2
    ensures Depth(m, n) == (if Promoted(m, n) then 0 else 1) + Depth(m / 2, (n + 1) / 2)
    decreases n
  {
    hide Depth, Split, Promoted;
    DepthStep(m, n);
    if n == 2 {
      DepthOne();
      NoneOfTwo(m);
    } else {
      var k := Split(n);
      SplitHalves(n);
      Halves(m, n, k);
      DepthStep(m / 2, (n + 1) / 2);
      if m < k {
        DepthUp(m, k);
      } else if n - k > 1 {
        DepthUp(m - k, n - k);
      } else {
        PromotedAlone(m, n);
        DepthOne();
      }
    }
  }

  lemma DepthStep(m: nat, n: nat)
    requires m < n && n > 1
    ensures Depth(m, n) == 1 + if m < Split(n) then Depth(m, Split(n)) else Depth(m - Split(n), n - Split(n))
  {
  }

  lemma DepthOne()
    ensures Depth(0, 1) == 0 && Split(2) == 1
  {
  }

  /** Halving on the two sides of an even split. */
  lemma Halves(m: nat, n: nat, k: nat)
    requires m < n && 0 < k < n && k % 2 == 0
    ensures m / 2 < (n + 1) / 2
    ensures m < k ==> m / 2 < k / 2 && (k + 1) / 2 == k / 2 && !Promoted(m, n) && !Promoted(m, k)
    ensures m >= k ==> m / 2 >= k / 2 && (m - k) / 2 == m / 2 - k / 2 && (Promoted(m, n) <==> Promoted(m - k, n - k))
    ensures (n - k + 1) / 2 == (n + 1) / 2 - k / 2
    ensures m % 2 == (if m < k then m else m - k) % 2
  {
  }

  lemma BothStep(h: Hash, m: nat, n: nat, fr: Bytes, sr: Bytes, path: seq<Bytes>)
    requires m < n && n > 1
    ensures path == [] ==> BothFrom(h, m, n, fr, sr, path) == None
    ensures path != [] ==>
              var k := Split(n);
              var r := if m < k then BothFrom(h, m, k, fr, sr, Front(path)) else BothFrom(h, m - k, n - k, fr, sr, Front(path));
              BothFrom(h, m, n, fr, sr, path) == Joined(h, m < k, r, Last(path))
  {
  }

  function Joined(h: Hash, left: bool, r: Option<(Bytes, Bytes)>, last: Bytes): Option<(Bytes, Bytes)> {
    match r
    case None => None
    case Some(p) => Some(if left then (p.0, HashNode(h, p.1, last)) else (HashNode(h, last, p.0), HashNode(h, last, p.1)))
  }

  /** What the first sibling does to the two nodes. */
  function Met(h: Hash, m: nat, fr: Bytes, sr: Bytes, p: Bytes): (Bytes, Bytes) {
    if m % 2 == 1 then (HashNode(h, p, fr), HashNode(h, p, sr)) else (fr, HashNode(h, sr, p))
  }

  /** The top-down reconstruction, one level up. */
  lemma {:induction false} BothUp(h: Hash, m: nat, n: nat, fr: Bytes, sr: Bytes, path: seq<Bytes>)
    requires m < n && n > 1
    ensures m / 2 < (n + 1) / 2
    ensures Promoted(m, n) ==> BothFrom(h, m, n, fr, sr, path) == BothFrom(h, m / 2, (n + 1) / 2, fr, sr, path)
    ensures !Promoted(m, n) && path == [] ==> BothFrom(h, m, n, fr, sr, path) == None
    ensures !Promoted(m, n) && path != [] ==>
              var x := Met(h, m, fr, sr, path[0]);
              BothFrom(h, m, n, fr, sr, path) == BothFrom(h, m / 2, (n + 1) / 2, x.0, x.1, path[1..])
    decreases n
  {
    hide BothFrom, Split, Joined, Met, Promoted;
    BothStep(h, m, n, fr, sr, path);
    if n == 2 {
      BothOfTwo(h, m, fr, sr, path);
    } else {
      var k := Split(n);
      SplitHalves(n);
      Halves(m, n, k);
      if path != [] {
        BothStep(h, m / 2, (n + 1) / 2, fr, sr, path);
        var f := Front(path);
        if m < k {
          BothUp(h, m, k, fr, sr, f);
        } else if n - k > 1 {
          BothUp(h, m - k, n - k, fr, sr, f);
        } else {
          PromotedAlone(m, n);
        }
        if !Promoted(m, n) {
          var x := Met(h, m, fr, sr, path[0]);
          if k <= m {
            SameMet(h, m, k, fr, sr, path[0]);
          }
          BothStep(h, m / 2, (n + 1) / 2, x.0, x.1, path[1..]);
          if |path| > 1 {
            assert f[0] == path[0] && f[1..] == Front(path[1..]) && Last(path[1..]) == Last(path);
          } else {
            assert f == [] && path[1..] == [];
            NoneJoined(h, m < k, Last(path));
          }
        }
      } else {
        BothStep(h, m / 2, (n + 1) / 2, fr, sr, path);
      }
    }
  }

  lemma NoneJoined(h: Hash, left: bool, last: Bytes)
    ensures Joined(h, left, None, last) == None
  {
  }

  lemma SameMet(h: Hash, m: nat, k: nat, fr: Bytes, sr: Bytes, p: Bytes)
    requires k <= m && k % 2 == 0
    ensures Met(h, m - k, fr, sr, p) == Met(h, m, fr, sr, p)
  {
  }

  lemma PromotedAlone(m: nat, n: nat)
    requires n > 2 && Split(n) <= m < n && n - Split(n) == 1
    ensures Promoted(m, n)
  {
    SplitHalves(n);
  }

  lemma NoneOfTwo(m: nat)
    requires m < 2
    ensures !Promoted(m, 2)
  {
  }

  lemma BothOfTwo(h: Hash, m: nat, fr: Bytes, sr: Bytes, path: seq<Bytes>)
    requires m < 2
    ensures !Promoted(m, 2)
    ensures path == [] ==> BothFrom(h, m, 2, fr, sr, path) == None
    ensures path != [] ==>
              var x := Met(h, m, fr, sr, path[0]);
              BothFrom(h, m, 2, fr, sr, path) == BothFrom(h, 0, 1, x.0, x.1, path[1..])
  {
    assert Split(2) == 1;
    if path != [] {
      if |path| == 1 {
        assert Front(path) == [] && path[1..] == [] && Last(path) == path[0];
      } else {
        assert Front(path) != [] && path[1..] != [];
      }
    }
  }

  /** A path of that many hashes reconstructs a root, and no other path does. */
  lemma {:induction false} BothDefined(h: Hash, m: nat, n: nat, fr: Bytes, sr: Bytes, path: seq<Bytes>)
    requires m < n
    ensures BothFrom(h, m, n, fr, sr, path).Some? <==> |path| == Depth(m, n)
    decreases n
  {
    hide Split;
    if n > 1 && path != [] {
      var k := Split(n);
      if m < k {
        BothDefined(h, m, k, fr, sr, Front(path));
      } else {
        BothDefined(h, m - k, n - k, fr, sr, Front(path));
      }
    }
  }

  // ---------------------------------------------------------------- the walk

  /** The position of the first sibling that did not decode. */
  function FirstBad(path: seq<Option<Bytes>>): (i: nat)
    ensures i <= |path| && (i < |path| ==> path[i].None?) && forall j :: 0 <= j < i ==> path[j].Some?
  {
    if path == [] || path[0].None? then 0 else 1 + FirstBad(path[1..])
  }

  function Values(path: seq<Option<Bytes>>): (r: seq<Bytes>)
    requires FirstBad(path) == |path|
    ensures |r| == |path| && forall i :: 0 <= i < |path| ==> path[i] == Some(r[i])
  {
    seq(|path|, i requires 0 <= i < |path| => path[i].value)
  }

  /** What a walk over this path amounts to, when the tree asks for `depth` hashes. */
  function Outcome<T>(path: seq<Option<Bytes>>, depth: nat, root: Option<T>): Climbed<T>
    requires FirstBad(path) == |path| == depth ==> root.Some?
  {
    if FirstBad(path) < |path| && FirstBad(path) < depth then Malformed
    else if |path| > depth then TooLong
    else if |path| < depth then TooShort
    else Reached(root.value)
  }

  function BothRoot(h: Hash, m: nat, n: nat, fr: Bytes, sr: Bytes, path: seq<Option<Bytes>>): (r: Option<(Bytes, Bytes)>)
    requires m < n
    ensures FirstBad(path) == |path| == Depth(m, n) ==> r.Some?
  {
    if FirstBad(path) < |path| then None
    else
      BothDefined(h, m, n, fr, sr, Values(path));
      BothFrom(h, m, n, fr, sr, Values(path))
  }

  lemma WalkOneLevel(h: Hash, m: nat, n: nat, fr: Bytes, sr: Bytes, path: seq<Option<Bytes>>)
    requires m < n && n > 1 && !Promoted(m, n)
    ensures m / 2 < (n + 1) / 2
    ensures path == [] ==> ClimbBoth(h, Unbounded, m, n - 1, fr, sr, path) == TooShort
    ensures path != [] && path[0].None? ==> ClimbBoth(h, Unbounded, m, n - 1, fr, sr, path) == Malformed
    ensures path != [] && path[0].Some? ==>
              var x := Met(h, m, fr, sr, path[0].value);
              ClimbBoth(h, Unbounded, m, n - 1, fr, sr, path)
              == ClimbBoth(h, Unbounded, m / 2, (n + 1) / 2 - 1, x.0, x.1, path[1..])
  {
    assert (n - 1) / 2 == (n + 1) / 2 - 1;
    if m % 2 == 1 {
      StripEvenOdd(m, n - 1);
    }
    hide StripEven;
  }

  lemma PathTail(path: seq<Option<Bytes>>)
    requires path != [] && path[0].Some?
    ensures FirstBad(path) == 1 + FirstBad(path[1..])
    ensures FirstBad(path) == |path| ==> Values(path) != [] && Values(path)[0] == path[0].value && Values(path)[1..] == Values(path[1..])
  {
  }

  /** The two-counter walk, on any path, is the top-down reconstruction. */
  lemma {:induction false} WalkExactly(h: Hash, m: nat, n: nat, fr: Bytes, sr: Bytes, path: seq<Option<Bytes>>)
    requires m < n
    ensures ClimbBoth(h, Unbounded, m, n - 1, fr, sr, path) == Outcome(path, Depth(m, n), BothRoot(h, m, n, fr, sr, path))
    decreases n
  {
    hide ClimbBoth, BothFrom, Depth, Met, FirstBad, Values, Promoted;
    if n == 1 {
      WalkOfOne(h, fr, sr, path);
    } else {
      DepthUp(m, n);
      if Promoted(m, n) {
        PromotedHalf(m, n);
        ClimbPromote(h, m, fr, sr, path);
        WalkExactly(h, m / 2, (n + 1) / 2, fr, sr, path);
        if FirstBad(path) == |path| {
          BothUp(h, m, n, fr, sr, Values(path));
        }
      } else {
        WalkOneLevel(h, m, n, fr, sr, path);
        if path == [] {
          NoneBad();
        } else if path[0].None? {
          BadNow(path);
        } else {
          var x := Met(h, m, fr, sr, path[0].value);
          PathTail(path);
          WalkExactly(h, m / 2, (n + 1) / 2, x.0, x.1, path[1..]);
          if FirstBad(path) == |path| {
            BothUp(h, m, n, fr, sr, Values(path));
          }
        }
      }
    }
  }

  lemma PromotedHalf(m: nat, n: nat)
    requires Promoted(m, n) && n > 1
    ensures m == n - 1 && m > 0 && m % 2 == 0 && m / 2 == (n + 1) / 2 - 1
  {
  }

  lemma NoneBad()
    ensures FirstBad([]) == 0
  {
  }

  lemma BadNow(path: seq<Option<Bytes>>)
    requires path != [] && path[0].None?
    ensures FirstBad(path) == 0
  {
  }

  lemma WalkOfOne(h: Hash, fr: Bytes, sr: Bytes, path: seq<Option<Bytes>>)
    ensures ClimbBoth(h, Unbounded, 0, 0, fr, sr, path) == Outcome(path, Depth(0, 1), BothRoot(h, 0, 1, fr, sr, path))
  {
    if path == [] {
      assert Values(path) == [];
    }
  }

  function SingleRoot(h: Hash, m: nat, n: nat, x: Bytes, path: seq<Option<Bytes>>): (r: Option<Bytes>)
    requires m < n
    ensures FirstBad(path) == |path| == Depth(m, n) ==> r.Some?
  {
    if FirstBad(path) < |path| then None
    else
      BothDefined(h, m, n, x, x, Values(path));
      BothSecond(h, m, n, x, x, Values(path));
      RootFrom(h, m, n, x, Values(path))
  }

  /** Likewise for the walk from one node. */
  lemma SingleWalkExactly(h: Hash, m: nat, n: nat, x: Bytes, path: seq<Option<Bytes>>)
    requires m < n
    ensures ClimbFrom(h, Unbounded, m, n - 1, x, path) == Outcome(path, Depth(m, n), SingleRoot(h, m, n, x, path))
  {
    hide ClimbBoth, ClimbFrom, BothFrom, RootFrom, Depth, FirstBad, Values;
    WalkExactly(h, m, n, x, x, path);
    ClimbBothSecond(h, Unbounded, m, n - 1, x, x, path);
    if FirstBad(path) == |path| {
      BothSecond(h, m, n, x, x, Values(path));
    }
  }

  // ---------------------------------------------------------------- consistency proofs

  /**
   The two roots that a consistency proof from m to n leaves makes up, following SUBPROOF: `b` says that the earlier root
   is the one the verifier holds, `held`, and is not in the proof. None when the proof has another length.
   */
  function ProofRoots(h: Hash, m: nat, n: nat, b: bool, held: Bytes, proof: seq<Bytes>): Option<(Bytes, Bytes)>
    requires 0 < m <= n
    decreases n
  {
    if m == n then
      if b then (if proof == [] then Some((held, held)) else None)
      else if |proof| == 1 then Some((proof[0], proof[0])) else None
    else if proof == [] then None
    else
      var k := Split(n);
      Joined(h, m <= k,
             if m <= k then ProofRoots(h, m, k, b, held, Front(proof)) else ProofRoots(h, m - k, n - k, false, held, Front(proof)),
             Last(proof))
  }

  /** How many hashes such a proof has. */
  function ProofDepth(m: nat, n: nat, b: bool): nat
    requires 0 < m <= n
    decreases n
  {
    if m == n then (if b then 0 else 1)
    else 1 + if m <= Split(n) then ProofDepth(m, Split(n), b) else ProofDepth(m - Split(n), n - Split(n), false)
  }

  lemma {:induction false} SubproofDepth(h: Hash, m: nat, d: seq<Digest>, b: bool)
    requires 0 < m <= |d|
    ensures |Subproof(h, m, d, b)| == ProofDepth(m, |d|, b)
    decreases |d|
  {
    hide *;
    SubproofStep(h, m, d, b);
    DepthOfStep(m, |d|, b);
    if m < |d| {
      var k := Split(|d|);
      if m <= k {
        SubproofDepth(h, m, d[..k], b);
      } else {
        SubproofDepth(h, m - k, d[k..], false);
      }
    }
  }

  lemma SubproofStep(h: Hash, m: nat, d: seq<Digest>, b: bool)
    requires 0 < m <= |d|
    ensures m == |d| ==> |Subproof(h, m, d, b)| == if b then 0 else 1
    ensures m < |d| ==>
              var k := Split(|d|);
              |Subproof(h, m, d, b)| == 1 + if m <= k then |Subproof(h, m, d[..k], b)| else |Subproof(h, m - k, d[k..], false)|
  {
    hide Mth;
  }

  lemma DepthOfStep(m: nat, n: nat, b: bool)
    requires 0 < m <= n
    ensures m == n ==> ProofDepth(m, n, b) == if b then 0 else 1
    ensures m < n ==>
              ProofDepth(m, n, b)
              == 1 + if m <= Split(n) then ProofDepth(m, Split(n), b) else ProofDepth(m - Split(n), n - Split(n), false)
  {
  }

  lemma {:induction false} ProofDefined(h: Hash, m: nat, n: nat, b: bool, held: Bytes, proof: seq<Bytes>)
    requires 0 < m <= n
    ensures ProofRoots(h, m, n, b, held, proof).Some? <==> |proof| == ProofDepth(m, n, b)
    decreases n
  {
    hide Split;
    if m < n && proof != [] {
      var k := Split(n);
      if m <= k {
        ProofDefined(h, m, k, b, held, Front(proof));
      } else {
        ProofDefined(h, m - k, n - k, false, held, Front(proof));
      }
    }
  }

  lemma ProofStep(h: Hash, m: nat, n: nat, b: bool, held: Bytes, proof: seq<Bytes>)
    requires 0 < m < n
    ensures proof == [] ==> ProofRoots(h, m, n, b, held, proof) == None
    ensures proof != [] ==>
              var k := Split(n);
              ProofRoots(h, m, n, b, held, proof)
              == Joined(h, m <= k,
                        if m <= k then ProofRoots(h, m, k, b, held, Front(proof))
                        else ProofRoots(h, m - k, n - k, false, held, Front(proof)),
                        Last(proof))
  {
  }

  lemma ProofWhole(h: Hash, n: nat, b: bool, held: Bytes, proof: seq<Bytes>)
    requires 0 < n
    ensures ProofRoots(h, n, n, b, held, proof)
            == if b then (if proof == [] then Some((held, held)) else None)
               else if |proof| == 1 then Some((proof[0], proof[0])) else None
  {
  }

  /** From an even size, a proof makes up the same roots one level up. */
  lemma {:induction false} ProofEven(h: Hash, m: nat, n: nat, b: bool, held: Bytes, proof: seq<Bytes>)
    requires 0 < m <= n && m % 2 == 0
    ensures 0 < m / 2 <= (n + 1) / 2
    ensures ProofRoots(h, m, n, b, held, proof) == ProofRoots(h, m / 2, (n + 1) / 2, b, held, proof)
    decreases n
  {
    hide ProofRoots, Split, Joined;
    EvenHalves(m, n);
    if m == n {
      ProofWhole(h, n, b, held, proof);
      ProofWhole(h, n / 2, b, held, proof);
    } else {
      var k := Split(n);
      SplitHalves(n);
      ProofStep(h, m, n, b, held, proof);
      ProofStep(h, m / 2, (n + 1) / 2, b, held, proof);
      if proof != [] {
        if m <= k {
          EvenHalves(m, k);
          ProofEven(h, m, k, b, held, Front(proof));
        } else {
          EvenHalves(m - k, n - k);
          EvenRest(m, n, k);
          ProofEven(h, m - k, n - k, false, held, Front(proof));
        }
      }
    }
  }

  lemma EvenHalves(m: nat, n: nat)
    requires 0 < m <= n && m % 2 == 0
    ensures 0 < m / 2 <= (n + 1) / 2
    ensures m == n ==> m / 2 == (n + 1) / 2
    ensures m < n ==> n > 2 && m / 2 < (n + 1) / 2
    ensures n % 2 == 0 ==> (n + 1) / 2 == n / 2
  {
  }

  lemma EvenRest(m: nat, n: nat, k: nat)
    requires k < m <= n && k % 2 == 0 && m % 2 == 0
    ensures (m - k) / 2 == m / 2 - k / 2 && (n - k + 1) / 2 == (n + 1) / 2 - k / 2 && k / 2 < m / 2
  {
  }

  /** From an odd size: the node that ends the earlier tree, held or first in the proof, and then its audit path. */
  lemma {:induction false} ProofOdd(h: Hash, m: nat, n: nat, b: bool, held: Bytes, proof: seq<Bytes>)
    requires 0 < m < n && m % 2 == 1
    ensures b && m == 1 ==> ProofRoots(h, m, n, b, held, proof) == BothFrom(h, 0, n, held, held, proof)
    ensures !(b && m == 1) && proof == [] ==> ProofRoots(h, m, n, b, held, proof) == None
    ensures !(b && m == 1) && proof != [] ==>
              ProofRoots(h, m, n, b, held, proof) == BothFrom(h, m - 1, n, proof[0], proof[0], proof[1..])
    decreases n
  {
    hide ProofRoots, BothFrom, Split, Joined;
    ProofStep(h, m, n, b, held, proof);
    if n == 2 {
      OddOfTwo(h, b, held, proof);
    } else if proof == [] {
      BothStep(h, 0, n, held, held, proof);
    } else {
      var k, f := Split(n), Front(proof);
      SplitHalves(n);
      OddParts(m, n, k);
      if m < k {
        ProofOdd(h, m, k, b, held, f);
      } else {
        ProofOdd(h, m - k, n - k, false, held, f);
      }
      if b && m == 1 {
        BothStep(h, 0, n, held, held, proof);
      } else {
        OddUp(h, m, n, b, held, proof);
      }
    }
  }

  lemma OddParts(m: nat, n: nat, k: nat)
    requires 0 < m < n && m % 2 == 1 && 0 < k < n && k % 2 == 0
    ensures 1 < k && m != k && (m > k ==> 0 < m - k < n - k && (m - k) % 2 == 1)
  {
  }

  /** The first hash of the proof stays the first hash when the last one is taken off. */
  lemma OddUp(h: Hash, m: nat, n: nat, b: bool, held: Bytes, proof: seq<Bytes>)
    requires 1 < n && 0 < m < n && m % 2 == 1 && Split(n) % 2 == 0 && proof != [] && !(b && m == 1)
    requires var k, f := Split(n), Front(proof);
             var inner := if m < k then ProofRoots(h, m, k, b, held, f) else ProofRoots(h, m - k, n - k, false, held, f);
             && (f == [] ==> inner == None)
             && (f != [] && m < k ==> inner == BothFrom(h, m - 1, k, f[0], f[0], f[1..]))
             && (f != [] && m >= k ==> inner == BothFrom(h, m - k - 1, n - k, f[0], f[0], f[1..]))
    ensures ProofRoots(h, m, n, b, held, proof) == BothFrom(h, m - 1, n, proof[0], proof[0], proof[1..])
  {
    hide ProofRoots, BothFrom, Split, Joined;
    ProofStep(h, m, n, b, held, proof);
    BothStep(h, m - 1, n, proof[0], proof[0], proof[1..]);
    var f := Front(proof);
    if |proof| == 1 {
      assert f == [];
      NoneJoined(h, m <= Split(n), Last(proof));
    } else {
      assert f[0] == proof[0] && f[1..] == Front(proof[1..]) && Last(proof[1..]) == Last(proof);
    }
  }

  lemma OddOfTwo(h: Hash, b: bool, held: Bytes, proof: seq<Bytes>)
    ensures b ==> ProofRoots(h, 1, 2, b, held, proof) == BothFrom(h, 0, 2, held, held, proof)
    ensures !b && proof == [] ==> ProofRoots(h, 1, 2, b, held, proof) == None
    ensures !b && proof != [] ==> ProofRoots(h, 1, 2, b, held, proof) == BothFrom(h, 0, 2, proof[0], proof[0], proof[1..])
  {
    assert Split(2) == 1;
    if proof != [] && !b {
      if |proof| == 2 {
        assert Front(proof) == [proof[0]] && proof[1..] == [proof[1]] && Front(proof[1..]) == [];
      } else if |proof| > 2 {
        assert |Front(proof)| > 1 && Front(proof[1..]) != [];
      }
    }
  }

  /** The depths of consistency proofs follow the proofs themselves, here those of a tree of equal leaves. */
  lemma ProofDepthSteps(m: nat, n: nat)
    requires 0 < m < n
    ensures m % 2 == 0 ==> 0 < m / 2 <= (n + 1) / 2 && ProofDepth(m, n, true) == ProofDepth(m / 2, (n + 1) / 2, true)
    ensures m % 2 == 1 ==> ProofDepth(m, n, true) == (if m == 1 then 0 else 1) + Depth(m - 1, n)
  {
    hide Subproof, Path, ProofDepth, Depth, Pair;
    var h: Hash := (_: Bytes) => Blank32();
    var d := seq(n, (_: nat) => Blank32());
    SubproofDepth(h, m, d, true);
    if m % 2 == 0 {
      EvenHalves(m, n);
      SubproofEven(h, m, d, true);
      SubproofDepth(h, m / 2, Pair(h, d), true);
    } else {
      SubproofOdd(h, m, d, true);
      PathDepth(h, m - 1, d);
    }
  }

  function Blank32(): Digest {
    seq(32, (_: nat) => 0 as byte)
  }

  function ProofRoot(h: Hash, m: nat, n: nat, held: Bytes, path: seq<Option<Bytes>>): (r: Option<(Bytes, Bytes)>)
    requires 0 < m < n
    ensures FirstBad(path) == |path| == ProofDepth(m, n, true) ==> r.Some?
  {
    if FirstBad(path) < |path| then None
    else
      ProofDefined(h, m, n, true, held, Values(path));
      ProofRoots(h, m, n, true, held, Values(path))
  }

  /** Where the walk of a consistency check starts, and what is left of the path for it. */
  ghost predicate StartsAt(m: nat, held: Bytes, path: seq<Option<Bytes>>, x: Bytes, rest: seq<Option<Bytes>>) {
    if IsPow2(m) then x == held && rest == path
    else path != [] && path[0] == Some(x) && rest == path[1..]
  }

  /** The walk from that start, on any path, makes up exactly the two roots that SUBPROOF turned round makes up. */
  lemma {:induction false} ConsistencyWalkExactly(h: Hash, m: nat, n: nat, held: Bytes, path: seq<Option<Bytes>>, x: Bytes, rest: seq<Option<Bytes>>)
    requires 0 < m < n && StartsAt(m, held, path, x, rest)
    ensures var c := StartOf(Unbounded, m, n);
            ClimbBoth(h, Unbounded, c.0, c.1, x, x, rest) == Outcome(path, ProofDepth(m, n, true), ProofRoot(h, m, n, held, path))
    decreases m
  {
    hide ClimbBoth, ProofRoots, ProofDepth, Depth, FirstBad, Values, StartOf, BothFrom;
    ProofDepthSteps(m, n);
    if m % 2 == 0 {
      EvenHalves(m, n);
      StartEven(m, n);
      HalfStarts(m, held, path, x, rest);
      ConsistencyWalkExactly(h, m / 2, (n + 1) / 2, held, path, x, rest);
      if FirstBad(path) == |path| {
        ProofEven(h, m, n, true, held, Values(path));
      }
    } else {
      StartOdd(m, n);
      WalkExactly(h, m - 1, n, x, x, rest);
      if m > 1 {
        PathTail(path);
      }
      if FirstBad(path) == |path| {
        ProofOdd(h, m, n, true, held, Values(path));
      }
    }
  }

  lemma HalfStarts(m: nat, held: Bytes, path: seq<Option<Bytes>>, x: Bytes, rest: seq<Option<Bytes>>)
    requires m > 0 && m % 2 == 0
    ensures StartsAt(m / 2, held, path, x, rest) == StartsAt(m, held, path, x, rest)
  {
  }
}
