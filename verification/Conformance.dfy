/**
 The Python verifier (conformance/verify.py): roots by pairing, and the two proof checks on raw
 byte strings with unbounded integers.
 */
module Conformance {
  import opened Wrappers
  import opened Bytes
  import opened MerkleSpec
  import opened Climb
  import opened ClimbTheorems
  import opened ProofVerifier

  /** One round of pairing: neighbours hashed, an odd last node promoted, not duplicated. */
  method PairUp(h: Hash, level: seq<Digest>) returns (nxt: seq<Digest>)
    ensures nxt == Pair(h, level)
  {
    nxt := [];
    var i := 0;
    while i + 1 < |level|
      invariant i == 2 * |nxt| <= |level|
      invariant nxt == Pair(h, level)[..|nxt|]
    {
      assert Pair(h, level)[|nxt|] == HashNode(h, level[i], level[i + 1]);
      nxt := nxt + [HashNode(h, level[i], level[i + 1])];
      i := i + 2;
    }
    if |level| % 2 == 1 {
      assert Pair(h, level)[|nxt|] == level[|level| - 1];
      nxt := nxt + [level[|level| - 1]];
    }
  }

  /** MTH by iterative left-to-right pairing: the recursively defined root, at every size. */
  method MerkleRootIterative(h: Hash, leafHashes: seq<Digest>) returns (root: Digest)
    ensures root == Mth(h, leafHashes)
  {
    if leafHashes == [] {
      return h([]);
    }
    hide Mth, Pair;
    var level := leafHashes;
    while |level| > 1
      invariant |level| > 0
      invariant Mth(h, level) == Mth(h, leafHashes)
      decreases |level|
    {
      MthPair(h, level);
      level := PairUp(h, level);
    }
    MthOne(h, level);
    root := level[0];
  }

  /** The root a proof reconstructs to, if the walk is as long as the tree is deep. */
  function RebuiltRoot(h: Hash, leafHash: Bytes, leafIndex: int, treeSize: int, path: seq<Bytes>): Option<Bytes> {
    if treeSize <= 0 || !(0 <= leafIndex < treeSize) then None
    else
      match ClimbFrom(h, Unbounded, leafIndex, treeSize - 1, leafHash, Decoded(path))
      case Reached(root) => Some(root)
      case _ => None
  }

  method VerifyInclusion(h: Hash, leafHash: Bytes, leafIndex: int, treeSize: int, path: seq<Bytes>)
    returns (r: Option<Bytes>)
    ensures r == RebuiltRoot(h, leafHash, leafIndex, treeSize, path)
  {
    if treeSize <= 0 || !(0 <= leafIndex < treeSize) {
      return None;
    }
    hide StripEven;
    var fn, sn := leafIndex, treeSize - 1;
    var node := leafHash;
    ghost var siblings := Decoded(path);
    for i := 0 to |path|
      invariant ClimbFrom(h, Unbounded, leafIndex, treeSize - 1, leafHash, siblings)
                == ClimbFrom(h, Unbounded, fn, sn, node, siblings[i..])
    {
      assert siblings[i..][0] == Some(path[i]) && siblings[i..][1..] == siblings[i + 1..];
      if sn == 0 {
        return None;
      }
      if fn % 2 == 1 || fn == sn {
        node := HashNode(h, path[i], node);
        fn, sn := ShiftWhileEven(Unbounded, fn, sn);
      } else {
        node := HashNode(h, node, path[i]);
      }
      fn, sn := fn / 2, sn / 2;
    }
    assert siblings[|path|..] == [];
    r := if sn == 0 then Some(node) else None;
  }

  predicate AcceptsConsistency(h: Hash, firstSize: int, secondSize: int, firstRoot: Bytes, secondRoot: Bytes,
                               path: seq<Bytes>)
  {
    if firstSize > secondSize then false
    else if firstSize == secondSize then path == [] && firstRoot == secondRoot
    else if firstSize == 0 then path == []
    else
      var single := IsPowerOfTwo(Unbounded, firstSize);
      (single || path != []) &&
      var start := if single then firstRoot else path[0];
      var rest := if single then path else path[1..];
      var c := StripOdd(Unbounded, firstSize - 1, secondSize - 1);
      ClimbBoth(h, Unbounded, c.0, c.1, start, start, Decoded(rest)) == Reached((firstRoot, secondRoot))
  }

  /** The loop of `VerifyConsistency`. */
  method RebuildBoth(h: Hash, fn0: int, sn0: int, start: Bytes, path: seq<Bytes>) returns (r: Climbed<(Bytes, Bytes)>)
    ensures r == ClimbBoth(h, Unbounded, fn0, sn0, start, start, Decoded(path))
  {
    hide StripEven;
    var fn, sn := fn0, sn0;
    var fr, sr := start, start;
    ghost var siblings := Decoded(path);
    for i := 0 to |path|
      invariant ClimbBoth(h, Unbounded, fn0, sn0, start, start, siblings)
                == ClimbBoth(h, Unbounded, fn, sn, fr, sr, siblings[i..])
    {
      assert siblings[i..][0] == Some(path[i]) && siblings[i..][1..] == siblings[i + 1..];
      if sn == 0 {
        return TooLong;
      }
      if IsOdd(Unbounded, fn) || fn == sn {
        fr := HashNode(h, path[i], fr);
        sr := HashNode(h, path[i], sr);
        fn, sn := ShiftWhileEven(Unbounded, fn, sn);
      } else {
        sr := HashNode(h, sr, path[i]);
      }
      fn, sn := Shr(Unbounded, fn), Shr(Unbounded, sn);
    }
    assert siblings[|path|..] == [];
    r := if sn == 0 then Reached((fr, sr)) else TooShort;
  }

  method VerifyConsistency(h: Hash, firstSize: int, secondSize: int, firstRoot: Bytes, secondRoot: Bytes,
                           path: seq<Bytes>) returns (ok: bool)
    ensures ok == AcceptsConsistency(h, firstSize, secondSize, firstRoot, secondRoot, path)
  {
    if firstSize > secondSize {
      return false;
    }
    if firstSize == secondSize {
      return path == [] && firstRoot == secondRoot;
    }
    if firstSize == 0 {
      return path == [];
    }
    hide StripOdd, IsPowerOfTwo, ClimbBoth;
    var fn, sn := ShiftWhileOdd(Unbounded, firstSize - 1, secondSize - 1);
    var idx := 0;
    var fr := firstRoot;
    if !IsPowerOfTwo(Unbounded, firstSize) {
      if path == [] {
        return false;
      }
      fr := path[0];
      idx := 1;
    }
    var walked := RebuildBoth(h, fn, sn, fr, path[idx..]);
    ok := walked == Reached((firstRoot, secondRoot));
  }

  // ---------------------------------------------------------------- what acceptance means

  /** Here there is no size limit: a proof against the true root is the recursive audit path, and only that is. */
  lemma InclusionExact(h: Hash, leafHash: Bytes, m: nat, path: seq<Bytes>, d: seq<Digest>)
    requires m < |d| && |leafHash| == 32
    ensures leafHash == d[m] && path == Path(h, m, d) ==> RebuiltRoot(h, leafHash, m, |d|, path) == Some(Mth(h, d))
    ensures RebuiltRoot(h, leafHash, m, |d|, path) == Some(Mth(h, d)) ==>
              || (leafHash == d[m] && path == Path(h, m, d))
              || Collision(h, NodeInputs(h, d), ClimbInputs(h, Unbounded, m, |d| - 1, leafHash, Decoded(path)))
  {
    hide ClimbFrom, ClimbBoth, ClimbInputs, NodeInputs, Mth, Path, Collision;
    if leafHash == d[m] && path == Path(h, m, d) {
      ClimbComplete(h, m, d, d[..m + 1]);
      ClimbBothSecond(h, Unbounded, m, |d| - 1, d[..m + 1][m], d[m], Decoded(path));
    }
    if RebuiltRoot(h, leafHash, m, |d|, path) == Some(Mth(h, d)) {
      ClimbSound(h, m, leafHash, Decoded(path), d);
      if Decoded(path) == Decoded(Path(h, m, d)) {
        DecodedInjective(path, Path(h, m, d));
      }
    }
  }

  lemma DecodedInjective(p: seq<Bytes>, q: seq<Bytes>)
    requires Decoded(p) == Decoded(q)
    ensures p == q
  {
    forall i | 0 <= i < |p| ensures p[i] == q[i] {
      assert Decoded(p)[i] == Some(p[i]) && Decoded(q)[i] == Some(q[i]);
    }
  }

  lemma HonestProofAccepted(h: Hash, d: seq<Digest>, m: nat)
    requires 0 < m < |d|
    ensures AcceptsConsistency(h, m, |d|, Mth(h, d[..m]), Mth(h, d), Subproof(h, m, d, true))
  {
    hide ClimbBoth, Mth, Subproof, StripOdd, IsPow2, BitAnd, StartsWith;
    BitAndPredecessor(m);
    var x, rest := HonestStart(h, d, m);
    ConsistencyComplete(h, m, d, x, Decoded(rest));
  }

  /** The node a check starts from: the caller's first root, or the first element of the path. */
  function StartNode(firstSize: nat, firstRoot: Bytes, path: seq<Bytes>): Bytes
    requires IsPowerOfTwo(Unbounded, firstSize) || path != []
  {
    if IsPowerOfTwo(Unbounded, firstSize) then firstRoot else path[0]
  }

  function ConsistencyWalkInputs(h: Hash, m: nat, n: nat, firstRoot: Bytes, path: seq<Bytes>): set<Bytes>
    requires m > 0 && (IsPowerOfTwo(Unbounded, m) || path != [])
  {
    var c := StripOdd(Unbounded, m - 1, n - 1);
    var rest := if IsPowerOfTwo(Unbounded, m) then path else path[1..];
    ClimbInputs(h, Unbounded, c.0, c.1, StartNode(m, firstRoot, path), Decoded(rest))
  }

  /**
   An accepted consistency check against the true later root proves the earlier root, provided the node it starts
   from is 32 bytes long. The code does not check that.
   */
  lemma ConsistencyCheckSound(h: Hash, d: seq<Digest>, m: nat, firstRoot: Bytes, path: seq<Bytes>)
    requires 0 < m < |d| && AcceptsConsistency(h, m, |d|, firstRoot, Mth(h, d), path)
    requires |StartNode(m, firstRoot, path)| == 32
    ensures || firstRoot == Mth(h, d[..m])
            || Collision(h, NodeInputs(h, d), ConsistencyWalkInputs(h, m, |d|, firstRoot, path))
  {
    hide ClimbBoth, ClimbInputs, NodeInputs, Mth, StripOdd, BitAnd, StartsWith, Collision;
    var rest := if IsPowerOfTwo(Unbounded, m) then path else path[1..];
    ConsistencySound(h, m, d, StartNode(m, firstRoot, path), Decoded(rest), firstRoot);
  }

  /** What a check that starts from `start` hashes on the way to the earlier root. */
  function EarlierInputs(h: Hash, m: nat, n: nat, start: Bytes, path: seq<Bytes>): set<Bytes>
    requires m > 0 && (IsPowerOfTwo(Unbounded, m) || path != [])
  {
    var c := StripOdd(Unbounded, m - 1, n - 1);
    FirstInputs(h, c.0, c.1, start, Decoded(if IsPowerOfTwo(Unbounded, m) then path else path[1..]))
  }

  /** The node the honest check starts from. */
  function HonestStartNode(h: Hash, d: seq<Digest>, m: nat): Bytes
    requires 0 < m < |d|
  {
    if IsPowerOfTwo(Unbounded, m) then Mth(h, d[..m])
    else
      BitAndPredecessor(m);
      HonestNode(h, m, d);
      Subproof(h, m, d, true)[0]
  }

  /** That length is the whole condition: among accepted checks, exactly those that start from 32 bytes prove the earlier root. */
  lemma ConsistencyCheckExact(h: Hash, d: seq<Digest>, m: nat, firstRoot: Bytes, path: seq<Bytes>)
    requires 0 < m < |d| && AcceptsConsistency(h, m, |d|, firstRoot, Mth(h, d), path)
    ensures || (firstRoot == Mth(h, d[..m]) <==> |StartNode(m, firstRoot, path)| == 32)
            || Collision(h, NodeInputs(h, d), ConsistencyWalkInputs(h, m, |d|, firstRoot, path))
            || Collision(h, EarlierInputs(h, m, |d|, HonestStartNode(h, d, m), path),
                         EarlierInputs(h, m, |d|, StartNode(m, firstRoot, path), path))
  {
    hide ClimbBoth, ClimbInputs, FirstInputs, NodeInputs, Mth, Subproof, StripOdd, BitAnd, StartsWith, Collision;
    BitAndPredecessor(m);
    var x := StartNode(m, firstRoot, path);
    if |x| == 32 {
      ConsistencyCheckSound(h, d, m, firstRoot, path);
    } else if firstRoot == Mth(h, d[..m]) && !IsPowerOfTwo(Unbounded, m) {
      StartLengthMatters(h, m, d, x, Decoded(path[1..]));
    }
  }

  /**
   Without that length the check fails: for every log of two leaves it accepts, as the root of the first one, the
   31-byte prefix of it, when the missing byte is moved to the front of the proof node.
   */
  lemma ShortRootAccepted(h: Hash, l: Digest, r: Digest)
    ensures AcceptsConsistency(h, 1, 2, l[..31], Mth(h, [l, r]), [[l[31]] + r])
    ensures l[..31] != Mth(h, [l, r][..1])
  {
    var node := [l[31]] + r;
    assert [l, r][..1] == [l] && [l, r][1..] == [r];
    assert NodeInput(l[..31], node) == NodeInput(l, r) by {
      assert l == l[..31] + [l[31]];
    }
    assert BitAnd(1, 0) == 0;
    assert Decoded([node])[1..] == [];
    assert ClimbBoth(h, Unbounded, 0, 0, l[..31], h(NodeInput(l, r)), [])
           == Reached((l[..31], h(NodeInput(l, r))));
    assert ClimbBoth(h, Unbounded, 0, 1, l[..31], l[..31], Decoded([node]))
           == Reached((l[..31], h(NodeInput(l, r))));
  }
}
