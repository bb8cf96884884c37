/**
 The RFC 6962 definitions (section 2.1) as recursive functions over the leaf hashes:
 the root MTH, the audit path PATH and the consistency proof SUBPROOF, each split at
 the largest power of two below n.

 The key to everything that follows is `Pair`: hash neighbours together and promote an
 odd last node. The three recursive definitions commute with it, so a bottom-up walk that
 halves indices at every level can be followed through the top-down recursion.
 */
module MerkleSpec {
  import opened Bytes

  ghost predicate IsPow2(k: nat) {
    k == 1 || (k > 1 && k % 2 == 0 && IsPow2(k / 2))
  }

  /** The largest power of two strictly below n. */
  function Split(n: nat): (k: nat)
    requires n > 1
    ensures 0 < k < n <= 2 * k
    ensures IsPow2(k)
  {
    if n == 2 then 1 else 2 * Split((n + 1) / 2)
  }

  /** There is only one power of two k with k < n <= 2k. */
  lemma {:induction false} SplitUnique(n: nat, k: nat)
    requires n > 1 && IsPow2(k) && k < n <= 2 * k
    ensures k == Split(n)
  {
    if n > 2 {
      SplitUnique((n + 1) / 2, k / 2);
    }
  }

  function Mth(h: Hash, d: seq<Digest>): Digest
    decreases |d|
  {
    if |d| == 0 then h([])
    else if |d| == 1 then d[0]
    else
      var k := Split(|d|);
      HashNode(h, Mth(h, d[..k]), Mth(h, d[k..]))
  }

  function Path(h: Hash, m: nat, d: seq<Digest>): seq<Digest>
    requires m < |d|
    decreases |d|
  {
    if |d| == 1 then []
    else
      var k := Split(|d|);
      if m < k then Path(h, m, d[..k]) + [Mth(h, d[k..])]
      else Path(h, m - k, d[k..]) + [Mth(h, d[..k])]
  }

  function Subproof(h: Hash, m: nat, d: seq<Digest>, b: bool): seq<Digest>
    requires 0 < m <= |d|
    decreases |d|
  {
    if m == |d| then (if b then [] else [Mth(h, d)])
    else
      var k := Split(|d|);
      if m <= k then Subproof(h, m, d[..k], b) + [Mth(h, d[k..])]
      else Subproof(h, m - k, d[k..], false) + [Mth(h, d[..k])]
  }

  /** One level up: neighbours hashed together, an odd last node promoted unchanged. */
  function Pair(h: Hash, d: seq<Digest>): (r: seq<Digest>)
    ensures |r| == (|d| + 1) / 2
  {
    seq((|d| + 1) / 2, i requires 0 <= i < (|d| + 1) / 2 =>
      if 2 * i + 1 < |d| then HashNode(h, d[2 * i], d[2 * i + 1]) else d[2 * i])
  }

  lemma PairSplit(h: Hash, d: seq<Digest>, k: nat)
    requires k <= |d| && k % 2 == 0
    ensures Pair(h, d[..k]) == Pair(h, d)[..k / 2]
    ensures Pair(h, d[k..]) == Pair(h, d)[k / 2..]
  {
  }

  /** The split of n > 2 is even, and half of it is the split one level up. */
  lemma SplitHalves(n: nat)
    requires n > 2
    ensures Split(n) % 2 == 0 && Split(n) / 2 == Split((n + 1) / 2)
  {
  }

  /** Unfolding one step of MTH. */
  lemma MthSplit(h: Hash, d: seq<Digest>)
    requires |d| >= 2
    ensures Mth(h, d) == HashNode(h, Mth(h, d[..Split(|d|)]), Mth(h, d[Split(|d|)..]))
  {
  }

  lemma MthOne(h: Hash, d: seq<Digest>)
    requires |d| == 1
    ensures Mth(h, d) == d[0]
  {
  }

  lemma PairSmall(h: Hash, d: seq<Digest>)
    requires 1 <= |d| <= 2
    ensures |d| == 1 ==> Pair(h, d) == d
    ensures |d| == 2 ==> Pair(h, d) == [HashNode(h, d[0], d[1])]
  {
  }

  /** Pairing left to right leaves the recursively defined root unchanged. */
  lemma {:induction false} MthPair(h: Hash, d: seq<Digest>)
    requires |d| >= 1
    ensures Mth(h, Pair(h, d)) == Mth(h, d)
    decreases |d|
  {
    if |d| <= 2 {
      PairSmall(h, d);
    } else {
      hide *;
      MthPair(h, d[..Split(|d|)]);
      MthPair(h, d[Split(|d|)..]);
      MthPairStep(h, d, Split(|d|));
    }
  }

  lemma MthPairStep(h: Hash, d: seq<Digest>, k: nat)
    requires |d| > 2 && k == Split(|d|)
    requires Mth(h, Pair(h, d[..k])) == Mth(h, d[..k]) && Mth(h, Pair(h, d[k..])) == Mth(h, d[k..])
    ensures Mth(h, Pair(h, d)) == Mth(h, d)
  {
    hide *;
    SplitHalves(|d|);
    PairSplit(h, d, k);
    MthSplit(h, d);
    MthSplit(h, Pair(h, d));
  }

  /** The part of the audit path of leaf m that lies on the leaf level: its sibling, if it has one. */
  function Sibling(m: nat, d: seq<Digest>): seq<Digest>
    requires m < |d|
  {
    if m % 2 == 1 then [d[m - 1]] else if m + 1 < |d| then [d[m + 1]] else []
  }

  lemma SiblingSplit(m: nat, d: seq<Digest>, k: nat)
    requires m < |d| && k <= |d| && k % 2 == 0
    ensures m < k ==> Sibling(m, d) == Sibling(m, d[..k])
    ensures m >= k ==> Sibling(m, d) == Sibling(m - k, d[k..])
  {
    if m < k {
      SameHalf(m, k);
      SiblingBelow(m, d, k);
    } else {
      assert (m - k) % 2 == m % 2;
      SiblingAbove(m, d, k);
    }
  }

  lemma SameHalf(m: nat, k: nat)
    requires m < k && k % 2 == 0
    ensures m % 2 == 0 ==> m + 1 < k
  {
  }

  lemma SiblingBelow(m: nat, d: seq<Digest>, k: nat)
    requires m < k <= |d| && m < |d| && (m % 2 == 0 ==> m + 1 < k)
    ensures Sibling(m, d) == Sibling(m, d[..k])
  {
    assert m % 2 == 1 ==> d[..k][m - 1] == d[m - 1];
    assert m % 2 != 1 ==> d[..k][m + 1] == d[m + 1];
  }

  lemma SiblingAbove(m: nat, d: seq<Digest>, k: nat)
    requires k <= m < |d| && (m - k) % 2 == m % 2 && (m % 2 == 1 ==> k < m)
    ensures Sibling(m, d) == Sibling(m - k, d[k..])
  {
    assert m % 2 == 1 ==> d[k..][m - k - 1] == d[m - 1];
    assert m % 2 != 1 && m + 1 < |d| ==> d[k..][m - k + 1] == d[m + 1];
  }

  /** Unfolding one step of PATH. */
  lemma PathSplit(h: Hash, m: nat, d: seq<Digest>)
    requires m < |d| && |d| >= 2
    ensures var k := Split(|d|);
            Path(h, m, d) == if m < k then Path(h, m, d[..k]) + [Mth(h, d[k..])]
                             else Path(h, m - k, d[k..]) + [Mth(h, d[..k])]
  {
  }

  lemma PathSmall(h: Hash, m: nat, d: seq<Digest>)
    requires m < |d| <= 2
    ensures Path(h, m, d) == Sibling(m, d)
    ensures |d| == 1 ==> Path(h, m, d) == []
  {
  }

  /** An audit path is the sibling on the leaf level followed by the audit path one level up. */
  lemma {:induction false} PathPair(h: Hash, m: nat, d: seq<Digest>)
    requires m < |d|
    ensures Path(h, m, d) == Sibling(m, d) + Path(h, m / 2, Pair(h, d))
    decreases |d|
  {
    if |d| <= 2 {
      hide *;
      PathSmall(h, m, d);
      PairSmall(h, d);
      PathSmall(h, 0, Pair(h, d));
    } else {
      hide *;
      var k, p := Split(|d|), Pair(h, d);
      SplitHalves(|d|);
      PairSplit(h, d, k);
      SiblingSplit(m, d, k);
      PathSplit(h, m, d);
      PathSplit(h, m / 2, p);
      if m < k {
        PathPair(h, m, d[..k]);
        MthPair(h, d[k..]);
      } else {
        PathPair(h, m - k, d[k..]);
        MthPair(h, d[..k]);
      }
    }
  }

  /** Unfolding one step of SUBPROOF. */
  lemma SubproofSplit(h: Hash, m: nat, d: seq<Digest>, b: bool)
    requires 0 < m < |d|
    ensures var k := Split(|d|);
            Subproof(h, m, d, b) == if m <= k then Subproof(h, m, d[..k], b) + [Mth(h, d[k..])]
                                    else Subproof(h, m - k, d[k..], false) + [Mth(h, d[..k])]
  {
  }

  lemma SubproofWhole(h: Hash, d: seq<Digest>, b: bool)
    requires 0 < |d|
    ensures Subproof(h, |d|, d, b) == if b then [] else [Mth(h, d)]
  {
  }

  /** An even prefix size gives the same consistency proof one level up. */
  lemma {:induction false} SubproofEven(h: Hash, m: nat, d: seq<Digest>, b: bool)
    requires 0 < m <= |d| && m % 2 == 0
    ensures Subproof(h, m, d, b) == Subproof(h, m / 2, Pair(h, d), b)
    decreases |d|
  {
    hide *;
    var p := Pair(h, d);
    if m == |d| {
      MthPair(h, d);
      SubproofWhole(h, d, b);
      SubproofWhole(h, p, b);
    } else {
      var k := Split(|d|);
      SplitHalves(|d|);
      PairSplit(h, d, k);
      SubproofSplit(h, m, d, b);
      SubproofSplit(h, m / 2, p, b);
      if m <= k {
        SubproofEven(h, m, d[..k], b);
        MthPair(h, d[k..]);
      } else {
        SubproofEven(h, m - k, d[k..], false);
        MthPair(h, d[..k]);
      }
    }
  }

  /**
   With an odd prefix size m the consistency proof is the last leaf of the prefix (left out
   when it is the whole prefix and the verifier holds it) followed by that leaf's audit path.
   */
  lemma {:induction false} SubproofOdd(h: Hash, m: nat, d: seq<Digest>, b: bool)
    requires m < |d| && m % 2 == 1
    ensures Subproof(h, m, d, b) == (if b && m == 1 then [] else [d[m - 1]]) + Path(h, m - 1, d)
    decreases |d|
  {
    hide *;
    if |d| == 2 {
      SubproofOfTwo(h, d, b);
    } else {
      var k := Split(|d|);
      SplitHalves(|d|);
      if m <= k {
        SubproofOdd(h, m, d[..k], b);
        SubproofOddLeft(h, m, d, b);
      } else {
        SubproofOdd(h, m - k, d[k..], false);
        SubproofOddRight(h, m, d, b);
      }
    }
  }

  lemma SubproofOfTwo(h: Hash, d: seq<Digest>, b: bool)
    requires |d| == 2
    ensures Subproof(h, 1, d, b) == (if b then [] else [d[0]]) + Path(h, 0, d)
  {
    hide *;
    SubproofSplit(h, 1, d, b);
    PathSplit(h, 0, d);
    assert Split(|d|) == 1;
    SubproofWhole(h, d[..1], b);
    PathSmall(h, 0, d[..1]);
    MthOne(h, d[..1]);
  }

  /** The step when the prefix ends in the left part, and when it ends in the right part. */
  lemma SubproofOddLeft(h: Hash, m: nat, d: seq<Digest>, b: bool)
    requires 0 < m < |d| && m < Split(|d|)
    requires var l := d[..Split(|d|)]; Subproof(h, m, l, b) == (if b && m == 1 then [] else [l[m - 1]]) + Path(h, m - 1, l)
    ensures Subproof(h, m, d, b) == (if b && m == 1 then [] else [d[m - 1]]) + Path(h, m - 1, d)
  {
    hide *;
    SubproofSplit(h, m, d, b);
    PathSplit(h, m - 1, d);
  }

  lemma SubproofOddRight(h: Hash, m: nat, d: seq<Digest>, b: bool)
    requires 0 < m < |d| && Split(|d|) < m
    requires var k := Split(|d|);
             Subproof(h, m - k, d[k..], false) == [d[k..][m - k - 1]] + Path(h, m - k - 1, d[k..])
    ensures Subproof(h, m, d, b) == (if b && m == 1 then [] else [d[m - 1]]) + Path(h, m - 1, d)
  {
    hide *;
    SubproofSplit(h, m, d, b);
    PathSplit(h, m - 1, d);
  }

  /** ceil(log2 n), by repeated halving. */
  function CeilLog2(n: nat): nat {
    if n <= 1 then 0 else 1 + CeilLog2((n + 1) / 2)
  }

  function Pow2(e: nat): nat {
    if e == 0 then 1 else 2 * Pow2(e - 1)
  }

  lemma {:induction false} CeilLog2Meaning(n: nat)
    requires n > 0
    ensures n <= Pow2(CeilLog2(n)) < 2 * n
  {
    if n > 1 {
      CeilLog2Meaning((n + 1) / 2);
    }
  }

  lemma {:induction false} PathLength(h: Hash, m: nat, d: seq<Digest>)
    requires m < |d|
    ensures |Path(h, m, d)| <= CeilLog2(|d|)
    decreases |d|
  {
    if |d| > 1 {
      PathPair(h, m, d);
      PathLength(h, m / 2, Pair(h, d));
    }
  }

  lemma {:induction false} SubproofLength(h: Hash, m: nat, d: seq<Digest>)
    requires 0 < m < |d|
    ensures |Subproof(h, m, d, true)| <= CeilLog2(|d|) + 1
    decreases |d|
  {
    if m % 2 == 0 {
      SubproofEven(h, m, d, true);
      SubproofLength(h, m / 2, Pair(h, d));
    } else {
      SubproofOdd(h, m, d, true);
      PathLength(h, m - 1, d);
    }
  }
}
