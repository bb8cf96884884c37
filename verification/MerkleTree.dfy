/** The append-only tree and its recursive prover (packages/server/src/evidence/merkle-tree.ts). */
module MerkleTrees {
  import opened Wrappers
  import opened Bytes
  import opened Text
  import opened MerkleSpec

  datatype InclusionProof = InclusionProof(leafIndex: int, treeSize: int, path: seq<JsString>)

  datatype ConsistencyProof = ConsistencyProof(firstSize: int, secondSize: int, path: seq<JsString>)

  datatype TreeError = NotADigest(length: nat) | OutOfRange(index: int, size: nat)

  function HexAll(ds: seq<Digest>): (r: seq<JsString>)
    ensures |r| == |ds|
  {
    seq(|ds|, i requires 0 <= i < |ds| => ToHex(ds[i]))
  }

  lemma HexAllPush(ds: seq<Digest>, d: Digest)
    ensures HexAll(ds + [d]) == HexAll(ds) + [ToHex(d)]
  {
  }

  /** One step of each proof, in hexadecimal. */
  lemma PathHexStep(h: Hash, m: nat, d: seq<Digest>)
    requires m < |d|
    ensures |d| == 1 ==> HexAll(Path(h, m, d)) == []
    ensures |d| >= 2 ==>
              var k := Split(|d|);
              HexAll(Path(h, m, d)) == if m < k then HexAll(Path(h, m, d[..k])) + [ToHex(Mth(h, d[k..]))]
                                       else HexAll(Path(h, m - k, d[k..])) + [ToHex(Mth(h, d[..k]))]
  {
    hide Path, Mth, Split, IsPow2, ToHex;
    if |d| == 1 {
      PathSmall(h, m, d);
    } else {
      PathSplit(h, m, d);
      var k := Split(|d|);
      if m < k {
        HexAllPush(Path(h, m, d[..k]), Mth(h, d[k..]));
      } else {
        HexAllPush(Path(h, m - k, d[k..]), Mth(h, d[..k]));
      }
    }
  }

  lemma SubproofHexStep(h: Hash, m: nat, d: seq<Digest>, b: bool)
    requires 0 < m <= |d|
    ensures m == |d| ==> HexAll(Subproof(h, m, d, b)) == if b then [] else [ToHex(Mth(h, d))]
    ensures m < |d| ==>
              var k := Split(|d|);
              HexAll(Subproof(h, m, d, b)) == if m <= k then HexAll(Subproof(h, m, d[..k], b)) + [ToHex(Mth(h, d[k..]))]
                                              else HexAll(Subproof(h, m - k, d[k..], false)) + [ToHex(Mth(h, d[..k]))]
  {
    hide Subproof, Mth, Split, IsPow2, ToHex;
    if m == |d| {
      SubproofWhole(h, d, b);
    } else {
      SubproofSplit(h, m, d, b);
      var k := Split(|d|);
      if m <= k {
        HexAllPush(Subproof(h, m, d[..k], b), Mth(h, d[k..]));
      } else {
        HexAllPush(Subproof(h, m - k, d[k..], false), Mth(h, d[..k]));
      }
    }
  }

  /** The proofs the tree promises, as functions of its leaf hashes. */
  function HonestInclusion(h: Hash, d: seq<Digest>, m: nat): InclusionProof
    requires m < |d|
  {
    InclusionProof(m, |d|, HexAll(Path(h, m, d)))
  }

  function HonestConsistency(h: Hash, d: seq<Digest>, m: nat): ConsistencyProof
    requires m <= |d|
  {
    ConsistencyProof(m, |d|, if 0 < m < |d| then HexAll(Subproof(h, m, d, true)) else [])
  }

  method LargestPowerOfTwoBelow(n: nat) returns (k: nat)
    requires n > 1
    ensures k == Split(n)
  {
    k := 1;
    while k * 2 < n
      invariant 0 < k < n
      invariant IsPow2(k)
    {
      k := k * 2;
    }
    SplitUnique(n, k);
  }

  /** A leaf hash as it is handed in: bytes, or hexadecimal text. */
  datatype LeafHash = Raw(bytes: Bytes) | Hexed(text: JsString) {
    function Decoded(): Bytes {
      match this
      case Raw(b) => b
      case Hexed(s) => FromHex(s)
    }
  }

  /** The text the tree gives out for a leaf is taken back as that leaf; text of an odd or wrong length is refused. */
  lemma LeafHashRoundTrip(d: Digest, s: JsString)
    ensures Hexed(ToHex(d)).Decoded() == d
    ensures |Hexed(s).Decoded()| == 32 ==> |s| >= 64
  {
    HexRoundTrip(d);
    DecodedShorter(s);
  }

  lemma {:induction false} DecodedShorter(s: JsString)
    ensures 2 * |FromHex(s)| <= |s|
  {
    if |s| >= 2 {
      DecodedShorter(s[2..]);
    }
  }

  class MerkleTree {
    const h: Hash
    var leaves: seq<Digest>

    constructor (h: Hash)
      ensures this.h == h && leaves == []
    {
      this.h := h;
      leaves := [];
    }

    method Append(data: Bytes) returns (index: nat)
      modifies this
      ensures leaves == old(leaves) + [HashLeaf(h, data)]
      ensures index == |old(leaves)|
    {
      leaves := leaves + [HashLeaf(h, data)];
      index := |leaves| - 1;
    }

    /** For rebuilding from stored hashes; refuses anything that is not 32 bytes, and then changes nothing. */
    method AppendLeafHash(leafHash: LeafHash) returns (r: Result<nat, TreeError>)
      modifies this
      ensures |leafHash.Decoded()| == 32 ==> r == Ok(|old(leaves)|) && leaves == old(leaves) + [leafHash.Decoded()]
      ensures |leafHash.Decoded()| != 32 ==> r == Err(NotADigest(|leafHash.Decoded()|)) && leaves == old(leaves)
    {
      var buf := leafHash.Decoded();
      if |buf| != 32 {
        return Err(NotADigest(|buf|));
      }
      leaves := leaves + [buf];
      r := Ok(|leaves| - 1);
    }

    method LeafHashAt(index: int) returns (r: Result<JsString, TreeError>)
      ensures r == if 0 <= index < |leaves| then Ok(ToHex(leaves[index])) else Err(OutOfRange(index, |leaves|))
    {
      if 0 <= index < |leaves| {
        r := Ok(ToHex(leaves[index]));
      } else {
        r := Err(OutOfRange(index, |leaves|));
      }
    }

    function Root(): JsString
      reads this
    {
      ToHex(Mth(h, leaves))
    }

    method InclusionProofFor(leafIndex: int) returns (r: Result<InclusionProof, TreeError>)
      ensures r == if 0 <= leafIndex < |leaves| then Ok(HonestInclusion(h, leaves, leafIndex))
                   else Err(OutOfRange(leafIndex, |leaves|))
    {
      var n := |leaves|;
      if leafIndex < 0 || leafIndex >= n {
        return Err(OutOfRange(leafIndex, n));
      }
      var path := BuildPath(leafIndex, 0, n, []);
      assert leaves[0..n] == leaves;
      assert path == HexAll(Path(h, leafIndex, leaves));
      r := Ok(InclusionProof(leafIndex, n, path));
    }

    /** Pushes the audit path of leaf m of the range [start, end) onto `out`, leaf-ward first. */
    method BuildPath(m: nat, start: nat, end: nat, out: seq<JsString>) returns (r: seq<JsString>)
      requires start <= end <= |leaves| && m < end - start
      ensures r == out + HexAll(Path(h, m, leaves[start..end]))
      decreases end - start
    {
      hide *;
      var n := end - start;
      ghost var d := leaves[start..end];
      PathHexStep(h, m, d);
      if n <= 1 {
        return out;
      }
      var k := LargestPowerOfTwoBelow(n);
      assert d[..k] == leaves[start..start + k] && d[k..] == leaves[start + k..end];
      if m < k {
        r := BuildPath(m, start, start + k, out);
        r := r + [ToHex(Mth(h, leaves[start + k..end]))];
      } else {
        r := BuildPath(m - k, start + k, end, out);
        r := r + [ToHex(Mth(h, leaves[start..start + k]))];
      }
    }

    method ConsistencyProofFrom(firstSize: int) returns (r: Result<ConsistencyProof, TreeError>)
      ensures r == if 0 <= firstSize <= |leaves| then Ok(HonestConsistency(h, leaves, firstSize))
                   else Err(OutOfRange(firstSize, |leaves|))
    {
      var n := |leaves|;
      if firstSize < 0 || firstSize > n {
        return Err(OutOfRange(firstSize, n));
      }
      var path := [];
      if firstSize > 0 && firstSize < n {
        path := BuildSubproof(firstSize, 0, n, true, path);
        assert leaves[0..n] == leaves;
        assert path == HexAll(Subproof(h, firstSize, leaves, true));
      }
      r := Ok(ConsistencyProof(firstSize, n, path));
    }

    method BuildSubproof(m: nat, start: nat, end: nat, b: bool, out: seq<JsString>) returns (r: seq<JsString>)
      requires start <= end <= |leaves| && 0 < m <= end - start
      ensures r == out + HexAll(Subproof(h, m, leaves[start..end], b))
      decreases end - start
    {
      hide *;
      var n := end - start;
      ghost var d := leaves[start..end];
      SubproofHexStep(h, m, d, b);
      if m == n {
        r := if b then out else out + [ToHex(Mth(h, leaves[start..end]))];
        return;
      }
      var k := LargestPowerOfTwoBelow(n);
      assert d[..k] == leaves[start..start + k] && d[k..] == leaves[start + k..end];
      if m <= k {
        r := BuildSubproof(m, start, start + k, b, out);
        r := r + [ToHex(Mth(h, leaves[start + k..end]))];
      } else {
        r := BuildSubproof(m - k, start + k, end, false, out);
        r := r + [ToHex(Mth(h, leaves[start..start + k]))];
      }
    }
  }
}
