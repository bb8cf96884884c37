/**
 The server's verifier (packages/server/src/evidence/proof-verifier.ts): the loops themselves,
 proved equal to a verdict function, and what an accepting verdict means.
 */
module ProofVerifier {
  import opened Wrappers
  import opened Bytes
  import opened Text
  import opened MerkleSpec
  import opened Climb
  import opened ClimbTheorems
  import opened MerkleTrees

  datatype Reason =
    | TreeSizeNotPositive
    | LeafOutsideTree
    | FirstExceedsSecond
    | EqualSizesNeedEmptyProof
    | EqualSizesRootsDiffer
    | EmptyTreeNeedsEmptyProof
    | ProofIsEmpty
    | MalformedNode
    | LongerThanDeep
    | ShorterThanDeep
    | RootMismatch
    | EarlierRootMismatch
    | LaterRootMismatch

  datatype Verification =
    | Valid(root: Option<JsString>)
    | Invalid(reason: Reason, computedRoot: Option<JsString>)

  /** A JavaScript array has fewer than 2^32 elements. */
  const ARRAY_LIMIT := 0x1_0000_0000

  function ServerPath(path: seq<JsString>): (r: seq<Option<Bytes>>)
    ensures |r| == |path|
  {
    seq(|path|, i requires 0 <= i < |path| => HexToBuf(path[i]))
  }

  lemma ServerPathTail(path: seq<JsString>)
    requires path != []
    ensures ServerPath(path[1..]) == ServerPath(path)[1..]
  {
  }

  lemma ServerPathOfHex(ds: seq<Digest>)
    ensures ServerPath(HexAll(ds)) == Decoded(ds)
  {
    forall i | 0 <= i < |ds| ensures ServerPath(HexAll(ds))[i] == Some(ds[i]) {
      assert HexAll(ds)[i] == ToHex(ds[i]);
      HexToBufOfHex(ds[i]);
    }
  }

  function InclusionVerdict(h: Hash, proof: InclusionProof, data: Bytes, expectedRoot: JsString): Verification {
    var InclusionProof(leafIndex, treeSize, path) := proof;
    if treeSize <= 0 then Invalid(TreeSizeNotPositive, None)
    else if leafIndex < 0 || leafIndex >= treeSize then Invalid(LeafOutsideTree, None)
    else
      match ClimbFrom(h, Int32, leafIndex, treeSize - 1, HashLeaf(h, data), ServerPath(path))
      case TooLong => Invalid(LongerThanDeep, None)
      case TooShort => Invalid(ShorterThanDeep, None)
      case Malformed => Invalid(MalformedNode, None)
      case Reached(root) =>
        if ToHex(root) != expectedRoot then Invalid(RootMismatch, Some(ToHex(root))) else Valid(Some(ToHex(root)))
  }

  method VerifyInclusion(h: Hash, proof: InclusionProof, leafData: Bytes, expectedRoot: JsString) returns (r: Verification)
    ensures r == InclusionVerdict(h, proof, leafData, expectedRoot)
  {
    var InclusionProof(leafIndex, treeSize, path) := proof;
    if treeSize <= 0 {
      return Invalid(TreeSizeNotPositive, None);
    }
    if leafIndex < 0 || leafIndex >= treeSize {
      return Invalid(LeafOutsideTree, None);
    }
    hide StripEven, HexToBuf, ToHex;
    var fn := leafIndex;
    var sn := treeSize - 1;
    var hash: Bytes := HashLeaf(h, leafData);
    ghost var siblings := ServerPath(path);
    ghost var goal := ClimbFrom(h, Int32, fn, sn, hash, siblings);
    for i := 0 to |path|
      invariant goal == ClimbFrom(h, Int32, fn, sn, hash, siblings[i..])
    {
      assert siblings[i..][0] == HexToBuf(path[i]) && siblings[i..][1..] == siblings[i + 1..];
      if sn == 0 {
        return Invalid(LongerThanDeep, None);
      }
      var node := HexToBuf(path[i]);
      if node.None? {
        return Invalid(MalformedNode, None);
      }
      if IsOdd(Int32, fn) || fn == sn {
        hash := HashNode(h, node.value, hash);
        fn, sn := ShiftWhileEven(Int32, fn, sn);
      } else {
        hash := HashNode(h, hash, node.value);
      }
      fn := Shr(Int32, fn);
      sn := Shr(Int32, sn);
    }
    assert siblings[|path|..] == [];
    if sn != 0 {
      return Invalid(ShorterThanDeep, None);
    }
    var computedRoot := ToHex(hash);
    if computedRoot != expectedRoot {
      return Invalid(RootMismatch, Some(computedRoot));
    }
    r := Valid(Some(computedRoot));
  }

  // ---------------------------------------------------------------- n & (n - 1)

  function BitAnd(a: nat, b: nat): nat {
    if a == 0 || b == 0 then 0 else (a % 2) * (b % 2) + 2 * BitAnd(a / 2, b / 2)
  }

  /** `n > 0 && (n & (n - 1)) === 0`, the conjunction taken on 32 bits in JavaScript. */
  predicate IsPowerOfTwo(w: Width, n: int) {
    n > 0 &&
    match w
    case Unbounded => BitAnd(n, n - 1) == 0
    case Int32 => BitAnd(n % 0x1_0000_0000, (n - 1) % 0x1_0000_0000) == 0
  }

  lemma {:induction false} BitAndSelf(a: nat)
    ensures BitAnd(a, a) == a
  {
    if a != 0 {
      BitAndSelf(a / 2);
    }
  }

  lemma {:induction false} BitAndPredecessor(n: nat)
    requires n > 0
    ensures BitAnd(n, n - 1) == 0 <==> IsPow2(n)
  {
    if n > 1 {
      BitAndHalf(n);
      if n % 2 == 0 {
        BitAndPredecessor(n / 2);
      } else {
        BitAndSelf(n / 2);
      }
    }
  }

  lemma BitAndHalf(n: nat)
    requires n > 1
    ensures BitAnd(n, n - 1) == 2 * BitAnd(n / 2, if n % 2 == 0 then n / 2 - 1 else n / 2)
  {
    hide BitAnd;
    BitAndStep(n, n - 1);
    assert n % 2 == 0 ==> (n - 1) / 2 == n / 2 - 1 && (n - 1) % 2 == 1;
    assert n % 2 == 1 ==> (n - 1) / 2 == n / 2 && (n - 1) % 2 == 0;
  }

  lemma BitAndStep(a: nat, b: nat)
    requires a > 0 && b > 0
    ensures BitAnd(a, b) == (a % 2) * (b % 2) + 2 * BitAnd(a / 2, b / 2)
  {
  }

  lemma PowerOfTwoMeaning(w: Width, n: nat)
    requires 0 < n < ARRAY_LIMIT
    ensures IsPowerOfTwo(w, n) <==> IsPow2(n)
  {
    hide BitAnd, IsPow2;
    assert n % 0x1_0000_0000 == n && (n - 1) % 0x1_0000_0000 == n - 1;
    BitAndPredecessor(n);
  }

  // ---------------------------------------------------------------- consistency

  function ConsistencyVerdict(h: Hash, proof: ConsistencyProof, firstRoot: JsString, secondRoot: JsString): Verification {
    var ConsistencyProof(firstSize, secondSize, path) := proof;
    if firstSize > secondSize then Invalid(FirstExceedsSecond, None)
    else if firstSize == secondSize then
      if |path| > 0 then Invalid(EqualSizesNeedEmptyProof, None)
      else if firstRoot == secondRoot then Valid(Some(secondRoot))
      else Invalid(EqualSizesRootsDiffer, None)
    else if firstSize == 0 then
      if path == [] then Valid(None) else Invalid(EmptyTreeNeedsEmptyProof, None)
    else if IsPowerOfTwo(Int32, firstSize) then
      ClimbVerdict(h, proof, HexToBuf(firstRoot), ServerPath(path), firstRoot, secondRoot)
    else if path == [] then Invalid(ProofIsEmpty, None)
    else ClimbVerdict(h, proof, HexToBuf(path[0]), ServerPath(path)[1..], firstRoot, secondRoot)
  }

  function ClimbVerdict(h: Hash, proof: ConsistencyProof, start: Option<Bytes>, siblings: seq<Option<Bytes>>,
                        firstRoot: JsString, secondRoot: JsString): Verification
  {
    if start.None? then Invalid(MalformedNode, None)
    else
      var c := StripOdd(Int32, proof.firstSize - 1, proof.secondSize - 1);
      WalkVerdict(ClimbBoth(h, Int32, c.0, c.1, start.value, start.value, siblings), firstRoot, secondRoot)
  }

  function WalkVerdict(walked: Climbed<(Bytes, Bytes)>, firstRoot: JsString, secondRoot: JsString): Verification {
    match walked
    case TooLong => Invalid(LongerThanDeep, None)
    case TooShort => Invalid(ShorterThanDeep, None)
    case Malformed => Invalid(MalformedNode, None)
    case Reached(roots) =>
      if ToHex(roots.0) != firstRoot then Invalid(EarlierRootMismatch, Some(ToHex(roots.0)))
      else if ToHex(roots.1) != secondRoot then Invalid(LaterRootMismatch, Some(ToHex(roots.1)))
      else Valid(Some(ToHex(roots.1)))
  }

  /** The loop of `VerifyConsistency`: both roots are reconstructed in step, from one node. */
  method ReconstructRoots(h: Hash, fn0: int, sn0: int, start: Bytes, path: seq<JsString>)
    returns (r: Climbed<(Bytes, Bytes)>)
    ensures r == ClimbBoth(h, Int32, fn0, sn0, start, start, ServerPath(path))
  {
    hide StripEven, HexToBuf;
    var fn, sn := fn0, sn0;
    var fr, sr := start, start;
    ghost var siblings := ServerPath(path);
    for index := 0 to |path|
      invariant ClimbBoth(h, Int32, fn0, sn0, start, start, siblings)
                == ClimbBoth(h, Int32, fn, sn, fr, sr, siblings[index..])
    {
      assert siblings[index..][0] == HexToBuf(path[index]) && siblings[index..][1..] == siblings[index + 1..];
      if sn == 0 {
        return TooLong;
      }
      var node := HexToBuf(path[index]);
      if node.None? {
        return Malformed;
      }
      if IsOdd(Int32, fn) || fn == sn {
        fr := HashNode(h, node.value, fr);
        sr := HashNode(h, node.value, sr);
        fn, sn := ShiftWhileEven(Int32, fn, sn);
      } else {
        sr := HashNode(h, sr, node.value);
      }
      fn := Shr(Int32, fn);
      sn := Shr(Int32, sn);
    }
    assert siblings[|path|..] == [];
    r := if sn != 0 then TooShort else Reached((fr, sr));
  }

  method VerifyConsistency(h: Hash, proof: ConsistencyProof, firstRoot: JsString, secondRoot: JsString)
    returns (r: Verification)
    ensures r == ConsistencyVerdict(h, proof, firstRoot, secondRoot)
  {
    var ConsistencyProof(firstSize, secondSize, path) := proof;
    if firstSize > secondSize {
      return Invalid(FirstExceedsSecond, None);
    }
    if firstSize == secondSize {
      if |path| > 0 {
        return Invalid(EqualSizesNeedEmptyProof, None);
      }
      return if firstRoot == secondRoot then Valid(Some(secondRoot)) else Invalid(EqualSizesRootsDiffer, None);
    }
    if firstSize == 0 {
      return if |path| == 0 then Valid(None) else Invalid(EmptyTreeNeedsEmptyProof, None);
    }

    hide StripOdd, HexToBuf, ToHex, IsPowerOfTwo, ClimbBoth, Shr, IsOdd, ToInt32;
    var fn := firstSize - 1;
    var sn := secondSize - 1;
    fn, sn := ShiftWhileOdd(Int32, fn, sn);

    var index := 0;
    var first: Option<Bytes>;
    if IsPowerOfTwo(Int32, firstSize) {
      first := HexToBuf(firstRoot);
    } else {
      if |path| == 0 {
        return Invalid(ProofIsEmpty, None);
      }
      first := HexToBuf(path[0]);
      index := 1;
      ServerPathTail(path);
    }
    assert path[0..] == path;
    assert ConsistencyVerdict(h, proof, firstRoot, secondRoot)
           == ClimbVerdict(h, proof, first, ServerPath(path[index..]), firstRoot, secondRoot);
    hide ConsistencyVerdict, ServerPath;
    if first.None? {
      return Invalid(MalformedNode, None);
    }
    var fr, sr;
    var walked := ReconstructRoots(h, fn, sn, first.value, path[index..]);
    assert ConsistencyVerdict(h, proof, firstRoot, secondRoot) == WalkVerdict(walked, firstRoot, secondRoot);
    hide ClimbVerdict;
    match walked {
      case TooLong => return Invalid(LongerThanDeep, None);
      case TooShort => return Invalid(ShorterThanDeep, None);
      case Malformed => return Invalid(MalformedNode, None);
      case Reached(roots) => fr, sr := roots.0, roots.1;
    }
    var computedFirst := ToHex(fr);
    var computedSecond := ToHex(sr);
    if computedFirst != firstRoot {
      return Invalid(EarlierRootMismatch, Some(computedFirst));
    }
    if computedSecond != secondRoot {
      return Invalid(LaterRootMismatch, Some(computedSecond));
    }
    r := Valid(Some(computedSecond));
  }

  // ---------------------------------------------------------------- what acceptance means

  /** The root a log publishes. */
  function LogRoot(h: Hash, log: seq<Bytes>): JsString {
    ToHex(Mth(h, Leaves(h, log)))
  }

  /**
   The prover's path for every entry is accepted, exactly as long as the last index fits the 31 value bits
   of a JavaScript shift. From 2^31 + 1 leaves on the verifier rejects every honest proof.
   */
  lemma InclusionComplete(h: Hash, log: seq<Bytes>, m: nat)
    requires m < |log| < ARRAY_LIMIT
    ensures InclusionVerdict(h, HonestInclusion(h, Leaves(h, log), m), log[m], LogRoot(h, log)).Valid?
            <==> |log| <= 0x8000_0000
  {
    hide ClimbFrom, ClimbBoth, Mth, Path;
    var d := Leaves(h, log);
    var path := Path(h, m, d);
    ServerPathOfHex(path);
    if |log| <= 0x8000_0000 {
      ClimbWidth(h, m, |d| - 1, d[m], d[m], Decoded(path));
      ClimbComplete(h, m, d, d[..m + 1]);
      ClimbBothSecond(h, Unbounded, m, |d| - 1, d[..m + 1][m], d[m], Decoded(path));
    } else {
      ClimbNegative(h, m, |d| - 1, d[m], Decoded(path));
    }
  }

  /** What the verifier hashes while it checks a proof. */
  function InclusionInputs(h: Hash, proof: InclusionProof, data: Bytes): set<Bytes> {
    {LeafInput(data)}
    + ClimbInputs(h, Int32, proof.leafIndex, proof.treeSize - 1, HashLeaf(h, data), ServerPath(proof.path))
  }

  lemma InputsWidth(h: Hash, fn: int, sn: int, x: Bytes, path: seq<Option<Bytes>>)
    requires 0 <= fn <= sn < 0x8000_0000
    ensures ClimbInputs(h, Int32, fn, sn, x, path) == ClimbInputs(h, Unbounded, fn, sn, x, path)
    decreases |path|
  {
    hide NextLeft, NextRight, TakesLeft;
    if path != [] && sn != 0 && path[0].Some? {
      NextWidth(fn, sn);
      var p := path[0].value;
      if TakesLeft(Int32, fn, sn) {
        var c := NextLeft(Int32, fn, sn);
        InputsWidth(h, c.0, c.1, HashNode(h, p, x), path[1..]);
      } else {
        var c := NextRight(Int32, fn, sn);
        InputsWidth(h, c.0, c.1, HashNode(h, x, p), path[1..]);
      }
    }
  }

  /** Acceptance against the real root and size: the data is the entry at that index, the path is the audit path. */
  lemma InclusionSound(h: Hash, proof: InclusionProof, data: Bytes, log: seq<Bytes>)
    requires proof.treeSize == |log| < ARRAY_LIMIT
    requires InclusionVerdict(h, proof, data, LogRoot(h, log)).Valid?
    ensures || (&& 0 <= proof.leafIndex < |log|
                && data == log[proof.leafIndex]
                && ServerPath(proof.path) == Decoded(Path(h, proof.leafIndex, Leaves(h, log))))
            || Collision(h, TreeInputs(h, log), InclusionInputs(h, proof, data))
  {
    hide ClimbFrom, ClimbInputs, Mth, Path, NodeInputs, ToHex, ServerPath, Decoded, Collision;
    var d := Leaves(h, log);
    var m := proof.leafIndex;
    var x := HashLeaf(h, data);
    var path := ServerPath(proof.path);
    var walked := ClimbFrom(h, Int32, m, |d| - 1, x, path);
    HexInjective(walked.root, Mth(h, d));
    if |log| > 0x8000_0000 {
      ClimbNegative(h, m, |d| - 1, x, path);
    } else {
      ClimbWidth(h, m, |d| - 1, x, x, path);
      InputsWidth(h, m, |d| - 1, x, path);
      ClimbSound(h, m, x, path, d);
      var theirs, mine := TreeInputs(h, log), InclusionInputs(h, proof, data);
      if Collision(h, NodeInputs(h, d), ClimbInputs(h, Unbounded, m, |d| - 1, x, path)) {
        CollisionGrows(h, NodeInputs(h, d), ClimbInputs(h, Unbounded, m, |d| - 1, x, path), theirs, mine);
      } else {
        SameInput(h, LeafInput(log[m]), LeafInput(data), theirs, mine);
        assert LeafInput(log[m])[1..] == log[m] && LeafInput(data)[1..] == data;
      }
    }
  }

  /** Acceptance against the real root, whatever index and tree size the proof claims: the data was logged. */
  lemma AcceptedLeafWasLogged(h: Hash, proof: InclusionProof, data: Bytes, log: seq<Bytes>)
    requires InclusionVerdict(h, proof, data, LogRoot(h, log)).Valid?
    ensures data in log || Collision(h, TreeInputs(h, log), InclusionInputs(h, proof, data))
  {
    hide ClimbFrom, ClimbInputs, Mth, NodeInputs, ToHex, Collision, TreeInputs;
    var x := HashLeaf(h, data);
    var path := ServerPath(proof.path);
    var walked := ClimbFrom(h, Int32, proof.leafIndex, proof.treeSize - 1, x, path);
    HexInjective(walked.root, Mth(h, Leaves(h, log)));
    var steps := ClimbIsFold(h, Int32, proof.leafIndex, proof.treeSize - 1, x, path);
    FoldReachesLoggedLeaf(h, data, steps, log);
  }

  /** The verdict on a proof of sizes 0 < m < n in terms of its starting node and the siblings it consumes. */
  lemma ProperVerdict(h: Hash, d: seq<Digest>, m: nat, proof: seq<Digest>, x: Digest, rest: seq<Digest>)
    requires 0 < m < |d| < ARRAY_LIMIT
    requires if IsPow2(m) then x == Mth(h, d[..m]) && rest == proof else proof == [x] + rest
    ensures ConsistencyVerdict(h, ConsistencyProof(m, |d|, HexAll(proof)), ToHex(Mth(h, d[..m])), ToHex(Mth(h, d)))
            == ClimbVerdict(h, ConsistencyProof(m, |d|, HexAll(proof)), Some(x), Decoded(rest),
                            ToHex(Mth(h, d[..m])), ToHex(Mth(h, d)))
  {
    hide Mth, IsPow2, IsPowerOfTwo, ToHex, HexToBuf, ClimbVerdict;
    ServerPathOfHex(proof);
    PowerOfTwoMeaning(Int32, m);
    HexToBufOfHex(x);
    if !IsPow2(m) {
      assert HexAll(proof)[0] == ToHex(x);
      assert ServerPath(HexAll(proof))[1..] == Decoded(rest);
    }
  }

  /** The same split of the honest proof. */
  lemma HonestStart(h: Hash, d: seq<Digest>, m: nat) returns (x: Digest, rest: seq<Digest>)
    requires 0 < m < |d|
    ensures var proof := Subproof(h, m, d, true);
            if IsPow2(m) then x == Mth(h, d[..m]) && rest == proof else proof == [x] + rest
    ensures StartsWith(h, m, d, x, Decoded(rest))
  {
    hide Mth, IsPow2, StartOf, Decoded, Subproof;
    var proof := Subproof(h, m, d, true);
    StartIsZero(m, |d|);
    if IsPow2(m) {
      x, rest := Mth(h, d[..m]), proof;
    } else {
      SubproofSplit(h, m, d, true);
      x, rest := proof[0], proof[1..];
    }
  }

  /**
   The prover's consistency proof between any two sizes is accepted, with the same boundary: only a tree of
   more than 2^31 leaves, compared with a smaller non-empty one, is rejected.
   */
  lemma ConsistencyProofAccepted(h: Hash, d: seq<Digest>, m: nat)
    requires m <= |d| < ARRAY_LIMIT
    ensures ConsistencyVerdict(h, HonestConsistency(h, d, m), ToHex(Mth(h, d[..m])), ToHex(Mth(h, d))).Valid?
            <==> m == 0 || m == |d| || |d| <= 0x8000_0000
  {
    if m == |d| {
      assert d[..m] == d;
    } else if m > 0 {
      hide *;
      var x, rest := HonestStart(h, d, m);
      ProperVerdict(h, d, m, Subproof(h, m, d, true), x, rest);
      HonestProperProof(h, d, m);
      HonestClimb(h, d, m, x, rest, HexAll(Subproof(h, m, d, true)));
    }
  }

  lemma HonestProperProof(h: Hash, d: seq<Digest>, m: nat)
    requires 0 < m < |d|
    ensures HonestConsistency(h, d, m) == ConsistencyProof(m, |d|, HexAll(Subproof(h, m, d, true)))
  {
  }

  lemma HonestClimb(h: Hash, d: seq<Digest>, m: nat, x: Digest, rest: seq<Digest>, path: seq<JsString>)
    requires 0 < m < |d| < ARRAY_LIMIT && StartsWith(h, m, d, x, Decoded(rest))
    ensures ClimbVerdict(h, ConsistencyProof(m, |d|, path), Some(x), Decoded(rest),
                         ToHex(Mth(h, d[..m])), ToHex(Mth(h, d))).Valid?
            <==> |d| <= 0x8000_0000
  {
    hide *;
    var siblings := Decoded(rest);
    VerdictOfClimb(h, ConsistencyProof(m, |d|, path), x, siblings, Mth(h, d[..m]), Mth(h, d));
    if |d| <= 0x8000_0000 {
      StartWidth(m, |d|);
      var c := StartOf(Unbounded, m, |d|);
      ClimbWidth(h, c.0, c.1, x, x, siblings);
      ConsistencyComplete(h, m, d, x, siblings);
    } else {
      SizeWrapsNegative(|d|);
      StripOddNegative(m - 1, |d| - 1);
      var c := StripOdd(Int32, m - 1, |d| - 1);
      ClimbBothNegative(h, c.0, c.1, x, x, siblings);
    }
  }

  lemma SizeWrapsNegative(n: nat)
    requires 0x8000_0000 < n <= ARRAY_LIMIT
    ensures WrapsNegative(n - 1)
  {
  }

  lemma VerdictOfClimb(h: Hash, proof: ConsistencyProof, x: Bytes, siblings: seq<Option<Bytes>>, f: Digest, s: Digest)
    ensures var c := StripOdd(Int32, proof.firstSize - 1, proof.secondSize - 1);
            var walked := ClimbBoth(h, Int32, c.0, c.1, x, x, siblings);
            && (walked == Reached((f, s)) ==> ClimbVerdict(h, proof, Some(x), siblings, ToHex(f), ToHex(s)).Valid?)
            && (!walked.Reached? ==> !ClimbVerdict(h, proof, Some(x), siblings, ToHex(f), ToHex(s)).Valid?)
  {
    hide StripOdd, ClimbBoth, ToHex;
  }

  lemma StartWidth(m: nat, n: nat)
    requires 0 < m <= n <= 0x8000_0000
    ensures StripOdd(Int32, m - 1, n - 1) == StartOf(Unbounded, m, n)
    ensures var c := StartOf(Unbounded, m, n); 0 <= c.0 <= c.1 < n
  {
    StripOddWidth(m - 1, n - 1);
  }

  lemma ClimbBothNegative(h: Hash, fn: int, sn: int, fr: Bytes, sr: Bytes, path: seq<Option<Bytes>>)
    requires WrapsNegative(sn)
    ensures !ClimbBoth(h, Int32, fn, sn, fr, sr, path).Reached?
  {
    ClimbBothSecond(h, Int32, fn, sn, fr, sr, path);
    ClimbNegative(h, fn, sn, sr, path);
  }

  function ConsistencyInputs(h: Hash, proof: ConsistencyProof, firstRoot: JsString): set<Bytes> {
    var c := StripOdd(Int32, proof.firstSize - 1, proof.secondSize - 1);
    var siblings := ServerPath(proof.path);
    var start := if IsPowerOfTwo(Int32, proof.firstSize) then HexToBuf(firstRoot)
                 else if siblings == [] then None else siblings[0];
    var rest := if IsPowerOfTwo(Int32, proof.firstSize) || siblings == [] then siblings else siblings[1..];
    if start.None? then {} else ClimbInputs(h, Int32, c.0, c.1, start.value, rest)
  }

  /** Acceptance against the real later root: the earlier root is the root of the first m leaves of the real log. */
  lemma ConsistencyVerdictSound(h: Hash, proof: ConsistencyProof, firstRoot: JsString, d: seq<Digest>)
    requires 0 < proof.firstSize && proof.secondSize == |d| < ARRAY_LIMIT
    requires ConsistencyVerdict(h, proof, firstRoot, ToHex(Mth(h, d))).Valid?
    ensures || (proof.firstSize <= |d| && firstRoot == ToHex(Mth(h, d[..proof.firstSize])))
            || Collision(h, NodeInputs(h, d), ConsistencyInputs(h, proof, firstRoot))
  {
    hide ClimbBoth, ClimbFrom, ClimbInputs, Mth, Subproof, StripOdd, ToHex, IsPow2, IsPowerOfTwo, NodeInputs,
      Collision, StartsWith, HexToBuf;
    var m := proof.firstSize;
    if m == |d| {
      assert d[..m] == d;
    } else {
      var siblings := ServerPath(proof.path);
      var single := IsPowerOfTwo(Int32, m);
      var x := if single then HexToBuf(firstRoot).value else siblings[0].value;
      var rest := if single then siblings else siblings[1..];
      var c := StripOdd(Int32, m - 1, |d| - 1);
      var roots := ClimbBoth(h, Int32, c.0, c.1, x, x, rest).root;
      HexInjective(roots.1, Mth(h, d));
      if |d| > 0x8000_0000 {
        StripOddNegative(m - 1, |d| - 1);
        ClimbBothSecond(h, Int32, c.0, c.1, x, x, rest);
        ClimbNegative(h, c.0, c.1, x, rest);
      } else {
        StripOddWidth(m - 1, |d| - 1);
        ClimbWidth(h, c.0, c.1, x, x, rest);
        InputsWidth(h, c.0, c.1, x, rest);
        ConsistencySound(h, m, d, x, rest, roots.0);
      }
    }
  }

  /** From the empty log everything is an extension: no root is looked at, only that the proof is empty. */
  lemma EmptyPrefixUnchecked(h: Hash, n: int, path: seq<JsString>, firstRoot: JsString, secondRoot: JsString)
    requires n > 0
    ensures ConsistencyVerdict(h, ConsistencyProof(0, n, path), firstRoot, secondRoot).Valid? <==> path == []
  {
  }

  /** Honest proofs are logarithmic. */
  lemma ProofLengths(h: Hash, d: seq<Digest>, m: nat)
    requires m <= |d|
    ensures m < |d| ==> |HonestInclusion(h, d, m).path| <= CeilLog2(|d|)
    ensures |HonestConsistency(h, d, m).path| <= CeilLog2(|d|) + 1
  {
    hide Path, Subproof;
    if m < |d| {
      PathLength(h, m, d);
      if m > 0 {
        SubproofLength(h, m, d);
      }
    }
  }
}
