/**
 The complete answers of the proof checks: for every proof, honest or not, which verdict is given, with which reason and
 which computed root, in terms of the top-down reconstructions.
 */
module Verdicts {
  import opened Wrappers
  import opened Bytes
  import opened Text
  import opened MerkleSpec
  import opened Climb
  import opened ClimbTheorems
  import opened MerkleTrees
  import opened ProofVerifier
  import opened TreeWalks
  import Conformance

  /** The first text of a path that does not decode to 32 bytes. */
  function FirstMalformed(path: seq<JsString>): (i: nat)
    ensures i <= |path| && (i < |path| ==> |FromHex(path[i])| != 32) && forall j :: 0 <= j < i ==> |FromHex(path[j])| == 32
  {
    var i := FirstBad(ServerPath(path));
    assert forall j :: 0 <= j < i ==> ServerPath(path)[j] == HexToBuf(path[j]) && ServerPath(path)[j].Some?;
    i
  }

  /** The bytes a path decodes to. */
  function Hashes(path: seq<JsString>): (r: seq<Bytes>)
    ensures |r| == |path| && forall i :: 0 <= i < |path| ==> r[i] == FromHex(path[i])
  {
    seq(|path|, i requires 0 <= i < |path| => FromHex(path[i]))
  }

  lemma PathDecodes(path: seq<JsString>)
    requires FirstMalformed(path) == |path|
    ensures Values(ServerPath(path)) == Hashes(path)
  {
    hide FromHex, FirstBad;
    forall i | 0 <= i < |path| ensures Values(ServerPath(path))[i] == FromHex(path[i]) {
      assert ServerPath(path)[i] == HexToBuf(path[i]) == Some(Values(ServerPath(path))[i]);
    }
  }

  // ---------------------------------------------------------------- inclusion

  /** What a check of this proof has to answer. */
  ghost predicate InclusionAnswered(h: Hash, proof: InclusionProof, data: Bytes, root: JsString, r: Verification) {
    var InclusionProof(m, n, path) := proof;
    if n <= 0 then r == Invalid(TreeSizeNotPositive, None)
    else if !(0 <= m < n) then r == Invalid(LeafOutsideTree, None)
    else if FirstMalformed(path) < |path| && FirstMalformed(path) < Depth(m, n) then r == Invalid(MalformedNode, None)
    else if |path| > Depth(m, n) then r == Invalid(LongerThanDeep, None)
    else if |path| < Depth(m, n) then r == Invalid(ShorterThanDeep, None)
    else
      exists b :: RootFrom(h, m, n, HashLeaf(h, data), Hashes(path)) == Some(b) &&
                  r == if ToHex(b) == root then Valid(Some(ToHex(b))) else Invalid(RootMismatch, Some(ToHex(b)))
  }

  /**
   For every proof of a tree of at most 2^31 leaves the server's answer is the one that the top-down reconstruction gives:
   with the position in range, a malformed hash among the ones the tree asks for is reported first, then a wrong length,
   then a wrong root.
   */
  lemma InclusionAnswers(h: Hash, proof: InclusionProof, data: Bytes, root: JsString)
    requires proof.treeSize <= 0x8000_0000
    ensures InclusionAnswered(h, proof, data, root, InclusionVerdict(h, proof, data, root))
  {
    hide ClimbFrom, RootFrom, Depth, FirstBad, ToHex, FromHex, ServerPath, Values;
    var InclusionProof(m, n, path) := proof;
    if 0 <= m < n {
      var x, siblings := HashLeaf(h, data), ServerPath(path);
      ClimbWidth(h, m, n - 1, x, x, siblings);
      SingleWalkExactly(h, m, n, x, siblings);
      if FirstBad(siblings) == |path| {
        PathDecodes(path);
      }
    }
  }

  /** The Python check reconstructs exactly that root, at every size. */
  lemma RebuiltExactly(h: Hash, leafHash: Bytes, leafIndex: int, treeSize: int, path: seq<Bytes>)
    ensures Conformance.RebuiltRoot(h, leafHash, leafIndex, treeSize, path)
            == if 0 <= leafIndex < treeSize then RootFrom(h, leafIndex, treeSize, leafHash, path) else None
  {
    hide ClimbFrom, RootFrom, Depth, FirstBad, Values, Decoded;
    if 0 <= leafIndex < treeSize {
      AllDecoded(path);
      SingleWalkExactly(h, leafIndex, treeSize, leafHash, Decoded(path));
      RootDefined(h, leafIndex, treeSize, leafHash, path);
    }
  }

  lemma {:induction false} AllDecoded(path: seq<Bytes>)
    ensures FirstBad(Decoded(path)) == |path| && Values(Decoded(path)) == path
  {
    if path != [] {
      AllDecoded(path[1..]);
      assert Decoded(path)[1..] == Decoded(path[1..]);
    }
  }

  lemma RootDefined(h: Hash, m: nat, n: nat, x: Bytes, path: seq<Bytes>)
    requires m < n
    ensures RootFrom(h, m, n, x, path).Some? <==> |path| == Depth(m, n)
  {
    hide BothFrom, RootFrom, Depth;
    BothSecond(h, m, n, x, x, path);
    BothDefined(h, m, n, x, x, path);
  }

  // ---------------------------------------------------------------- consistency

  ghost predicate ConsistencyAnswered(h: Hash, proof: ConsistencyProof, first: JsString, second: JsString, r: Verification) {
    var ConsistencyProof(m, n, path) := proof;
    if m > n then r == Invalid(FirstExceedsSecond, None)
    else if m == n then
      r == if path != [] then Invalid(EqualSizesNeedEmptyProof, None)
           else if first == second then Valid(Some(second)) else Invalid(EqualSizesRootsDiffer, None)
    else if m == 0 then r == if path == [] then Valid(None) else Invalid(EmptyTreeNeedsEmptyProof, None)
    else m > 0 ==> ProperAnswered(h, m, n, path, first, second, r)
  }

  /** The answer on two proper sizes. */
  ghost predicate ProperAnswered(h: Hash, m: nat, n: nat, path: seq<JsString>, first: JsString, second: JsString, r: Verification)
    requires 0 < m < n
  {
    var depth, f := ProofDepth(m, n, true), FirstMalformed(path);
    if IsPow2(m) && |FromHex(first)| != 32 then r == Invalid(MalformedNode, None)
    else if !IsPow2(m) && path == [] then r == Invalid(ProofIsEmpty, None)
    else if f < |path| && f < depth then r == Invalid(MalformedNode, None)
    else if |path| > depth then r == Invalid(LongerThanDeep, None)
    else if |path| < depth then r == Invalid(ShorterThanDeep, None)
    else
      exists a, b ::
        ProofRoots(h, m, n, true, FromHex(first), Hashes(path)) == Some((a, b)) &&
        r == if ToHex(a) != first then Invalid(EarlierRootMismatch, Some(ToHex(a)))
             else if ToHex(b) != second then Invalid(LaterRootMismatch, Some(ToHex(b)))
             else Valid(Some(ToHex(b)))
  }

  /**
   For every consistency proof up to 2^31 leaves the server's answer is the one that SUBPROOF turned round gives. The
   earlier size may be any integer that is not negative, and nothing is asked of the proof.
   */
  lemma ConsistencyAnswers(h: Hash, proof: ConsistencyProof, first: JsString, second: JsString)
    requires proof.secondSize <= 0x8000_0000
    ensures ConsistencyAnswered(h, proof, first, second, ConsistencyVerdict(h, proof, first, second))
  {
    hide *;
    var ConsistencyProof(m, n, path) := proof;
    if 0 < m < n {
      ProperAnswers(h, m, n, path, first, second);
      ProperIsAnswer(h, proof, first, second);
    } else {
      SpecialAnswers(h, proof, first, second);
    }
  }

  lemma SpecialAnswers(h: Hash, proof: ConsistencyProof, first: JsString, second: JsString)
    requires !(0 < proof.firstSize < proof.secondSize)
    ensures ConsistencyAnswered(h, proof, first, second, ConsistencyVerdict(h, proof, first, second))
  {
    hide ClimbVerdict, IsPowerOfTwo, ServerPath, HexToBuf, ProperAnswered;
  }

  lemma ProperIsAnswer(h: Hash, proof: ConsistencyProof, first: JsString, second: JsString)
    requires 0 < proof.firstSize < proof.secondSize
    requires ProperAnswered(h, proof.firstSize, proof.secondSize, proof.path, first, second, ConsistencyVerdict(h, proof, first, second))
    ensures ConsistencyAnswered(h, proof, first, second, ConsistencyVerdict(h, proof, first, second))
  {
    hide ConsistencyVerdict, ProperAnswered;
  }

  lemma ProperAnswers(h: Hash, m: nat, n: nat, path: seq<JsString>, first: JsString, second: JsString)
    requires 0 < m < n <= 0x8000_0000
    ensures ProperAnswered(h, m, n, path, first, second, ConsistencyVerdict(h, ConsistencyProof(m, n, path), first, second))
  {
    hide ClimbBoth, ProofRoots, ProofDepth, FirstBad, ToHex, FromHex, ServerPath, Values, IsPow2, IsPowerOfTwo, ClimbVerdict, Hashes,
      StartOf, StripOdd;
    var proof, siblings := ConsistencyProof(m, n, path), ServerPath(path);
    PowerOfTwoMeaning(Int32, m);
    OddDepth(m, n);
    if IsPow2(m) {
      if HexToBuf(first).Some? {
        WalkAnswers(h, m, n, path, first, second, HexToBuf(first).value, siblings);
      } else {
        NoStart(h, proof, siblings, first, second);
      }
    } else if path != [] {
      FirstOfPath(path);
      if HexToBuf(path[0]).Some? {
        WalkAnswers(h, m, n, path, first, second, HexToBuf(path[0]).value, siblings[1..]);
      } else {
        NoStart(h, proof, siblings[1..], first, second);
      }
    }
  }

  /** A proof from a size that is no power of two asks for at least one hash. */
  lemma {:induction false} OddDepth(m: nat, n: nat)
    requires 0 < m < n
    ensures !IsPow2(m) ==> ProofDepth(m, n, true) > 0
    decreases m
  {
    hide ProofDepth, Depth;
    ProofDepthSteps(m, n);
    if m % 2 == 0 {
      EvenHalves(m, n);
      OddDepth(m / 2, (n + 1) / 2);
    }
  }

  lemma NoStart(h: Hash, proof: ConsistencyProof, siblings: seq<Option<Bytes>>, first: JsString, second: JsString)
    ensures ClimbVerdict(h, proof, None, siblings, first, second) == Invalid(MalformedNode, None)
  {
  }

  lemma FirstOfPath(path: seq<JsString>)
    requires path != []
    ensures ServerPath(path)[0] == HexToBuf(path[0])
    ensures HexToBuf(path[0]).None? ==> FirstMalformed(path) == 0
  {
    hide FromHex;
  }

  lemma WalkAnswers(h: Hash, m: nat, n: nat, path: seq<JsString>, first: JsString, second: JsString, x: Bytes, rest: seq<Option<Bytes>>)
    requires 0 < m < n <= 0x8000_0000 && (IsPow2(m) || path != [])
    requires IsPow2(m) ==> HexToBuf(first) == Some(x)
    requires StartsAt(m, FromHex(first), ServerPath(path), x, rest)
    ensures ProperAnswered(h, m, n, path, first, second,
                           ClimbVerdict(h, ConsistencyProof(m, n, path), Some(x), rest, first, second))
  {
    hide ClimbBoth, ProofRoots, ProofDepth, FirstBad, ToHex, FromHex, ServerPath, Values, IsPow2, StartOf, StripOdd, Hashes, StartsAt;
    var siblings := ServerPath(path);
    StartWidth(m, n);
    var c := StartOf(Unbounded, m, n);
    ClimbWidth(h, c.0, c.1, x, x, rest);
    ConsistencyWalkExactly(h, m, n, FromHex(first), siblings, x, rest);
    if FirstBad(siblings) == |path| {
      PathDecodes(path);
    }
  }

  /** The Python check answers by the same two roots, at every size, and looks at no length but the proof's. */
  lemma AcceptsExactly(h: Hash, firstSize: int, secondSize: int, firstRoot: Bytes, secondRoot: Bytes, path: seq<Bytes>)
    requires firstSize >= 0
    ensures Conformance.AcceptsConsistency(h, firstSize, secondSize, firstRoot, secondRoot, path)
            <==> if firstSize > secondSize then false
                 else if firstSize == secondSize then path == [] && firstRoot == secondRoot
                 else if firstSize == 0 then path == []
                 else ProofRoots(h, firstSize, secondSize, true, firstRoot, path) == Some((firstRoot, secondRoot))
  {
    if 0 < firstSize < secondSize {
      hide ClimbBoth, ProofRoots, ProofDepth, FirstBad, Values, Decoded, BitAnd, IsPow2, StartOf;
      var m, n := firstSize, secondSize;
      BitAndPredecessor(m);
      AllDecoded(path);
      OddDepth(m, n);
      ProofDefined(h, m, n, true, firstRoot, path);
      if IsPow2(m) || path != [] {
        var x, rest := if IsPow2(m) then firstRoot else path[0], if IsPow2(m) then path else path[1..];
        RestDecoded(path);
        StartMatches(m, firstRoot, path, x, rest);
        ConsistencyWalkExactly(h, m, n, firstRoot, Decoded(path), x, Decoded(rest));
        assert StartOf(Unbounded, m, n) == StripOdd(Unbounded, m - 1, n - 1) by {
          StartMeaning(m, n);
        }
      }
    }
  }

  lemma StartMeaning(m: nat, n: nat)
    requires 0 < m
    ensures StartOf(Unbounded, m, n) == StripOdd(Unbounded, m - 1, n - 1)
  {
  }

  lemma RestDecoded(path: seq<Bytes>)
    ensures path != [] ==> Decoded(path)[0] == Some(path[0]) && Decoded(path)[1..] == Decoded(path[1..])
  {
  }

  lemma StartMatches(m: nat, held: Bytes, path: seq<Bytes>, x: Bytes, rest: seq<Bytes>)
    requires IsPow2(m) ==> x == held && rest == path
    requires !IsPow2(m) ==> path != [] && x == path[0] && rest == path[1..]
    ensures StartsAt(m, held, Decoded(path), x, Decoded(rest))
  {
    RestDecoded(path);
  }
}
