/**
 Byte strings, 32-byte digests, and the hash function as a parameter.

 SHA-256 itself is not modelled. Every definition takes the hash function `h` as
 an argument, so every theorem holds for every function from byte strings to
 32-byte digests. A soundness theorem therefore reads "the claim holds, or two
 distinct inputs that were really hashed, one by each side, have the same digest".
 */
module Bytes {

  type byte = b: int | 0 <= b < 0x100

  type Bytes = seq<byte>

  type Digest = d: Bytes | |d| == 32 witness seq(32, (_: nat) => 0 as byte)

  type Hash = Bytes -> Digest

  /** What is hashed for a leaf: 0x00 and the data. */
  function LeafInput(data: Bytes): Bytes {
    [0] + data
  }

  /** What is hashed for an interior node: 0x01 and the two children as raw bytes. */
  function NodeInput(left: Bytes, right: Bytes): Bytes {
    [1] + left + right
  }

  function HashLeaf(h: Hash, data: Bytes): Digest {
    h(LeafInput(data))
  }

  function HashNode(h: Hash, left: Bytes, right: Bytes): Digest {
    h(NodeInput(left, right))
  }

  /** Two distinct byte strings with one digest, the first among `xs` and the second among `ys`. */
  ghost predicate Collision(h: Hash, xs: set<Bytes>, ys: set<Bytes>) {
    exists x, y :: x in xs && y in ys && x != y && h(x) == h(y)
  }

  lemma CollisionGrows(h: Hash, xs: set<Bytes>, ys: set<Bytes>, xs': set<Bytes>, ys': set<Bytes>)
    requires Collision(h, xs, ys) && xs <= xs' && ys <= ys'
    ensures Collision(h, xs', ys')
  {
    var x, y :| x in xs && y in ys && x != y && h(x) == h(y);
    assert x in xs' && y in ys';
  }

  /** A node input determines its children as soon as the right child (or the left) has a known width. */
  lemma NodeInputInjective(l: Bytes, r: Bytes, l': Bytes, r': Bytes)
    requires NodeInput(l, r) == NodeInput(l', r')
    requires |l| == |l'| || |r| == |r'|
    ensures l == l' && r == r'
  {
    assert |l| + |r| == |NodeInput(l, r)| - 1 == |l'| + |r'|;
    assert l == NodeInput(l, r)[1..][..|l|];
    assert l' == NodeInput(l', r')[1..][..|l'|];
    assert r == NodeInput(l, r)[1..][|l|..];
    assert r' == NodeInput(l', r')[1..][|l'|..];
  }

  /** Domain separation, byte by byte: 0x00 before a leaf's data, 0x01 before the two children, the left one first. */
  lemma HashInputs(h: Hash, data: Bytes, left: Bytes, right: Bytes)
    ensures |LeafInput(data)| == 1 + |data| && LeafInput(data)[0] == 0x00 && LeafInput(data)[1..] == data
    ensures |NodeInput(left, right)| == 1 + |left| + |right| && NodeInput(left, right)[0] == 0x01
    ensures NodeInput(left, right)[1..1 + |left|] == left && NodeInput(left, right)[1 + |left|..] == right
    ensures HashLeaf(h, data) == h([0x00] + data) && HashNode(h, left, right) == h([0x01] + left + right)
  {
    var n := NodeInput(left, right);
    assert n[1..1 + |left|] == left && n[1 + |left|..] == right;
    assert LeafInput(data)[1..] == data;
  }
}
