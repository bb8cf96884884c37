/**
 The bottom-up walk all the verifiers make, with two counters: `fn`, the index within the
 current level, and `sn`, the last index of that level (sections 2.1.3.2 and 2.1.4.2 of
 RFC 9162). It never builds a tree.

 The walk is written once, for a counter width: `Unbounded` shifts are Python's, `Int32`
 shifts are JavaScript's `>>`, which first wraps its operand to 32 signed bits.
 */
module Climb {
  import opened Wrappers
  import opened Bytes
  import opened MerkleSpec

  datatype Width = Unbounded | Int32

  function ToInt32(x: int): int {
    var u := x % 0x1_0000_0000;
    if u >= 0x8000_0000 then u - 0x1_0000_0000 else u
  }

  function Shr(w: Width, x: int): int {
    match w
    case Unbounded => x / 2
    case Int32 => ToInt32(x) / 2
  }

  /** `x % 2 == 1`; in JavaScript the remainder of a negative number is never 1. */
  predicate IsOdd(w: Width, x: int) {
    x % 2 == 1 && (w.Unbounded? || x >= 0)
  }

  function Abs(x: int): nat {
    if x < 0 then -x else x
  }

  /** Shift both counters while `fn` is even and not zero. */
  function StripEven(w: Width, fn: int, sn: int): (int, int)
    decreases Abs(fn)
  {
    if fn != 0 && fn % 2 == 0 then StripEven(w, Shr(w, fn), Shr(w, sn)) else (fn, sn)
  }

  /** Shift both counters while `fn` is odd; only an unbounded -1 would stay odd for ever. */
  function StripOdd(w: Width, fn: int, sn: int): (int, int)
    decreases Abs(fn)
  {
    if fn != -1 && IsOdd(w, fn) then StripOdd(w, Shr(w, fn), Shr(w, sn)) else (fn, sn)
  }

  lemma ShiftShrinks(w: Width, x: int)
    requires x != 0 && x != -1
    ensures Abs(Shr(w, x)) < Abs(x)
  {
  }

  /** The two shifting loops of the verifiers. */
  method ShiftWhileEven(w: Width, fn: int, sn: int) returns (f: int, s: int)
    ensures (f, s) == StripEven(w, fn, sn)
  {
    f, s := fn, sn;
    while f != 0 && f % 2 == 0
      invariant StripEven(w, f, s) == StripEven(w, fn, sn)
      decreases Abs(f)
    {
      ShiftShrinks(w, f);
      f, s := Shr(w, f), Shr(w, s);
    }
  }

  method ShiftWhileOdd(w: Width, fn: int, sn: int) returns (f: int, s: int)
    requires w.Unbounded? ==> fn != -1
    ensures (f, s) == StripOdd(w, fn, sn)
  {
    f, s := fn, sn;
    while IsOdd(w, f)
      invariant w.Unbounded? ==> f != -1
      invariant StripOdd(w, f, s) == StripOdd(w, fn, sn)
      decreases Abs(f)
    {
      ShiftShrinks(w, f);
      f, s := Shr(w, f), Shr(w, s);
    }
  }

  datatype Climbed<+T> = Reached(root: T) | TooLong | TooShort | Malformed

  /** The counters after a step taken with a sibling on the left, and on the right. */
  function NextLeft(w: Width, fn: int, sn: int): (int, int) {
    var c := StripEven(w, fn, sn);
    (Shr(w, c.0), Shr(w, c.1))
  }

  function NextRight(w: Width, fn: int, sn: int): (int, int) {
    (Shr(w, fn), Shr(w, sn))
  }

  predicate TakesLeft(w: Width, fn: int, sn: int) {
    IsOdd(w, fn) || fn == sn
  }

  /** The walk from one node. A sibling that failed to decode is `None`. */
  function ClimbFrom(h: Hash, w: Width, fn: int, sn: int, x: Bytes, path: seq<Option<Bytes>>): Climbed<Bytes>
    decreases |path|
  {
    if path == [] then (if sn == 0 then Reached(x) else TooShort)
    else if sn == 0 then TooLong
    else if path[0].None? then Malformed
    else if TakesLeft(w, fn, sn) then
      var c := NextLeft(w, fn, sn);
      ClimbFrom(h, w, c.0, c.1, HashNode(h, path[0].value, x), path[1..])
    else
      var c := NextRight(w, fn, sn);
      ClimbFrom(h, w, c.0, c.1, HashNode(h, x, path[0].value), path[1..])
  }

  /** The same walk carrying two nodes; only the second one takes the siblings on the right. */
  function ClimbBoth(h: Hash, w: Width, fn: int, sn: int, fr: Bytes, sr: Bytes, path: seq<Option<Bytes>>)
    : Climbed<(Bytes, Bytes)>
    decreases |path|
  {
    if path == [] then (if sn == 0 then Reached((fr, sr)) else TooShort)
    else if sn == 0 then TooLong
    else if path[0].None? then Malformed
    else if TakesLeft(w, fn, sn) then
      var c := NextLeft(w, fn, sn);
      ClimbBoth(h, w, c.0, c.1, HashNode(h, path[0].value, fr), HashNode(h, path[0].value, sr), path[1..])
    else
      var c := NextRight(w, fn, sn);
      ClimbBoth(h, w, c.0, c.1, fr, HashNode(h, sr, path[0].value), path[1..])
  }

  lemma {:induction false} ClimbBothSecond(h: Hash, w: Width, fn: int, sn: int, fr: Bytes, sr: Bytes, path: seq<Option<Bytes>>)
    ensures match ClimbBoth(h, w, fn, sn, fr, sr, path)
            case Reached(r) => ClimbFrom(h, w, fn, sn, sr, path) == Reached(r.1)
            case TooLong => ClimbFrom(h, w, fn, sn, sr, path) == TooLong
            case TooShort => ClimbFrom(h, w, fn, sn, sr, path) == TooShort
            case Malformed => ClimbFrom(h, w, fn, sn, sr, path) == Malformed
    decreases |path|
  {
    if path != [] && sn != 0 && path[0].Some? {
      var p := path[0].value;
      if TakesLeft(w, fn, sn) {
        var c := NextLeft(w, fn, sn);
        ClimbBothSecond(h, w, c.0, c.1, HashNode(h, p, fr), HashNode(h, p, sr), path[1..]);
      } else {
        var c := NextRight(w, fn, sn);
        ClimbBothSecond(h, w, c.0, c.1, fr, HashNode(h, sr, p), path[1..]);
      }
    }
  }

  /** A path as a sequence of siblings that all decoded. */
  function Decoded(path: seq<Bytes>): (r: seq<Option<Bytes>>)
    ensures |r| == |path|
  {
    seq(|path|, i requires 0 <= i < |path| => Some(path[i]))
  }

  // ---------------------------------------------------------------- the two widths

  /** Below 2^31 a JavaScript shift is a halving. */
  lemma ShiftHalves(x: int)
    requires 0 <= x < 0x8000_0000
    ensures Shr(Int32, x) == Shr(Unbounded, x) == x / 2
    ensures IsOdd(Int32, x) == IsOdd(Unbounded, x) == (x % 2 == 1)
  {
  }

  lemma HalfOrder(fn: int, sn: int)
    requires 0 <= fn <= sn
    ensures 0 <= fn / 2 <= sn / 2 <= sn
    ensures fn != 0 ==> fn / 2 < fn
  {
  }

  lemma {:induction false} StripEvenWidth(fn: int, sn: int)
    requires 0 <= fn <= sn < 0x8000_0000
    ensures StripEven(Int32, fn, sn) == StripEven(Unbounded, fn, sn)
    ensures var c := StripEven(Unbounded, fn, sn); 0 <= c.0 <= c.1 <= sn
    decreases fn
  {
    hide Shr, ToInt32;
    ShiftHalves(fn);
    ShiftHalves(sn);
    HalfOrder(fn, sn);
    if fn != 0 && fn % 2 == 0 {
      StripEvenWidth(fn / 2, sn / 2);
    }
  }

  lemma NextWidth(fn: int, sn: int)
    requires 0 <= fn <= sn < 0x8000_0000
    ensures TakesLeft(Int32, fn, sn) == TakesLeft(Unbounded, fn, sn)
    ensures NextLeft(Int32, fn, sn) == NextLeft(Unbounded, fn, sn)
    ensures NextRight(Int32, fn, sn) == NextRight(Unbounded, fn, sn)
    ensures var c := NextLeft(Unbounded, fn, sn); 0 <= c.0 <= c.1 <= sn
    ensures var c := NextRight(Unbounded, fn, sn); 0 <= c.0 <= c.1 <= sn
  {
    hide StripEven, Shr, ToInt32, IsOdd;
    StripEvenWidth(fn, sn);
    var c := StripEven(Unbounded, fn, sn);
    ShiftHalves(fn);
    ShiftHalves(sn);
    ShiftHalves(c.0);
    ShiftHalves(c.1);
    HalfOrder(fn, sn);
    HalfOrder(c.0, c.1);
  }

  lemma {:induction false} ClimbWidth(h: Hash, fn: int, sn: int, fr: Bytes, sr: Bytes, path: seq<Option<Bytes>>)
    requires 0 <= fn <= sn < 0x8000_0000
    ensures ClimbBoth(h, Int32, fn, sn, fr, sr, path) == ClimbBoth(h, Unbounded, fn, sn, fr, sr, path)
    ensures ClimbFrom(h, Int32, fn, sn, sr, path) == ClimbFrom(h, Unbounded, fn, sn, sr, path)
    decreases |path|
  {
    hide NextLeft, NextRight, TakesLeft;
    if path != [] && sn != 0 && path[0].Some? {
      NextWidth(fn, sn);
      var p := path[0].value;
      if TakesLeft(Int32, fn, sn) {
        var c := NextLeft(Int32, fn, sn);
        ClimbWidth(h, c.0, c.1, HashNode(h, p, fr), HashNode(h, p, sr), path[1..]);
      } else {
        var c := NextRight(Int32, fn, sn);
        ClimbWidth(h, c.0, c.1, fr, HashNode(h, sr, p), path[1..]);
      }
    }
  }

  lemma {:induction false} StripOddWidth(fn: int, sn: int)
    requires 0 <= fn <= sn < 0x8000_0000
    ensures StripOdd(Int32, fn, sn) == StripOdd(Unbounded, fn, sn)
    ensures var c := StripOdd(Unbounded, fn, sn); 0 <= c.0 <= c.1 <= sn
    decreases fn
  {
    hide Shr, ToInt32, IsOdd;
    ShiftHalves(fn);
    ShiftHalves(sn);
    HalfOrder(fn, sn);
    if fn % 2 == 1 {
      StripOddWidth(fn / 2, sn / 2);
    }
  }

  /** A last index whose 32-bit form is negative: no number of `>>` steps brings it to 0. */
  predicate WrapsNegative(sn: int) {
    ToInt32(sn) < 0
  }

  lemma {:induction false} StripEvenNegative(fn: int, sn: int)
    requires WrapsNegative(sn)
    ensures WrapsNegative(StripEven(Int32, fn, sn).1)
    decreases Abs(fn)
  {
    if fn != 0 && fn % 2 == 0 {
      StripEvenNegative(Shr(Int32, fn), Shr(Int32, sn));
    }
  }

  lemma {:induction false} StripOddNegative(fn: int, sn: int)
    requires WrapsNegative(sn)
    ensures WrapsNegative(StripOdd(Int32, fn, sn).1)
    decreases Abs(fn)
  {
    if fn != -1 && IsOdd(Int32, fn) {
      StripOddNegative(Shr(Int32, fn), Shr(Int32, sn));
    }
  }

  lemma {:induction false} ClimbNegative(h: Hash, fn: int, sn: int, x: Bytes, path: seq<Option<Bytes>>)
    requires WrapsNegative(sn)
    ensures !ClimbFrom(h, Int32, fn, sn, x, path).Reached?
    decreases |path|
  {
    if path != [] && path[0].Some? {
      StripEvenNegative(fn, sn);
      var p := path[0].value;
      if TakesLeft(Int32, fn, sn) {
        var c := NextLeft(Int32, fn, sn);
        ClimbNegative(h, c.0, c.1, HashNode(h, p, x), path[1..]);
      } else {
        var c := NextRight(Int32, fn, sn);
        ClimbNegative(h, c.0, c.1, HashNode(h, x, p), path[1..]);
      }
    }
  }

  // ---------------------------------------------------------------- completeness

  /** On the right edge of a level, a promotion uses up no sibling. */
  lemma ClimbPromote(h: Hash, k: nat, fr: Bytes, sr: Bytes, path: seq<Option<Bytes>>)
    requires k > 0 && k % 2 == 0
    ensures ClimbBoth(h, Unbounded, k, k, fr, sr, path) == ClimbBoth(h, Unbounded, k / 2, k / 2, fr, sr, path)
    ensures ClimbFrom(h, Unbounded, k, k, sr, path) == ClimbFrom(h, Unbounded, k / 2, k / 2, sr, path)
  {
    assert StripEven(Unbounded, k, k) == StripEven(Unbounded, k / 2, k / 2);
  }

  lemma DecodedCons(x: Digest, rest: seq<Digest>)
    ensures Decoded([x] + rest)[1..] == Decoded(rest)
    ensures Decoded([x] + rest)[0] == Some(x)
  {
  }

  /** One level of a walk that meets the sibling the tree really has. */
  lemma PairLevel(h: Hash, fn: nat, d: seq<Digest>, e: seq<Digest>)
    requires fn < |d| && |e| == fn + 1 && e[..fn] == d[..fn]
    ensures Pair(h, e)[..fn / 2] == Pair(h, d)[..fn / 2]
    ensures |Pair(h, e)| == fn / 2 + 1
    ensures fn % 2 == 1 ==> Pair(h, e)[fn / 2] == HashNode(h, d[fn - 1], e[fn])
    ensures fn % 2 == 1 ==> Pair(h, d)[fn / 2] == HashNode(h, d[fn - 1], d[fn])
    ensures fn % 2 == 0 ==> Pair(h, e)[fn / 2] == e[fn]
    ensures fn % 2 == 0 && fn + 1 < |d| ==> Pair(h, d)[fn / 2] == HashNode(h, d[fn], d[fn + 1])
    ensures fn % 2 == 0 && fn + 1 == |d| ==> Pair(h, d)[fn / 2] == d[fn]
  {
    forall i | 0 <= i < fn / 2 ensures Pair(h, e)[i] == Pair(h, d)[i] {
      assert e[2 * i] == e[..fn][2 * i] && d[2 * i] == d[..fn][2 * i];
      assert e[2 * i + 1] == e[..fn][2 * i + 1] && d[2 * i + 1] == d[..fn][2 * i + 1];
    }
    if fn % 2 == 1 {
      assert e[fn - 1] == e[..fn][fn - 1] == d[..fn][fn - 1];
    }
  }

  lemma StripEvenOdd(fn: int, sn: int)
    requires fn % 2 == 1
    ensures StripEven(Unbounded, fn, sn) == (fn, sn)
  {
  }

  /**
   The recursive audit path of node fn of d leads the two-counter walk to the root of d, and at the same
   time, from the last node of the tree e that agrees with d before fn, to the root of e.
   */
  lemma {:induction false} ClimbComplete(h: Hash, fn: nat, d: seq<Digest>, e: seq<Digest>)
    requires fn < |d| && |e| == fn + 1 && e[..fn] == d[..fn]
    ensures ClimbBoth(h, Unbounded, fn, |d| - 1, e[fn], d[fn], Decoded(Path(h, fn, d))) == Reached((Mth(h, e), Mth(h, d)))
    decreases |d|
  {
    hide Mth, Path, Pair, StripEven, Decoded;
    if |d| == 1 {
      PathSmall(h, fn, d);
      MthOne(h, d);
      MthOne(h, e);
    } else {
      PathPair(h, fn, d);
      MthPair(h, d);
      MthPair(h, e);
      PairLevel(h, fn, d, e);
      ClimbComplete(h, fn / 2, Pair(h, d), Pair(h, e));
      var rest := Path(h, fn / 2, Pair(h, d));
      if fn % 2 == 1 {
        StripEvenOdd(fn, |d| - 1);
        DecodedCons(d[fn - 1], rest);
      } else if fn + 1 < |d| {
        DecodedCons(d[fn + 1], rest);
      } else {
        assert Path(h, fn, d) == rest;
        ClimbPromote(h, fn, e[fn], d[fn], Decoded(rest));
      }
    }
  }

  // ---------------------------------------------------------------- soundness

  /** Everything the prover hashes above the leaves. */
  function NodeInputs(h: Hash, d: seq<Digest>): set<Bytes>
    decreases |d|
  {
    if |d| <= 1 then {}
    else
      var k := Split(|d|);
      {NodeInput(Mth(h, d[..k]), Mth(h, d[k..]))} + NodeInputs(h, d[..k]) + NodeInputs(h, d[k..])
  }

  /** Everything the walk hashes. */
  function ClimbInputs(h: Hash, w: Width, fn: int, sn: int, x: Bytes, path: seq<Option<Bytes>>): set<Bytes>
    decreases |path|
  {
    if path == [] || sn == 0 || path[0].None? then {}
    else if TakesLeft(w, fn, sn) then
      var c := NextLeft(w, fn, sn);
      {NodeInput(path[0].value, x)} + ClimbInputs(h, w, c.0, c.1, HashNode(h, path[0].value, x), path[1..])
    else
      var c := NextRight(w, fn, sn);
      {NodeInput(x, path[0].value)} + ClimbInputs(h, w, c.0, c.1, HashNode(h, x, path[0].value), path[1..])
  }

  lemma NodeInputsSplit(h: Hash, d: seq<Digest>)
    requires |d| >= 2
    ensures var k := Split(|d|);
            NodeInputs(h, d)
            == {NodeInput(Mth(h, d[..k]), Mth(h, d[k..]))} + NodeInputs(h, d[..k]) + NodeInputs(h, d[k..])
  {
  }

  lemma NodeInputsSmall(h: Hash, d: seq<Digest>)
    requires |d| <= 2
    ensures |d| <= 1 ==> NodeInputs(h, d) == {}
    ensures |d| == 2 ==> NodeInputs(h, d) == {NodeInput(d[0], d[1])}
  {
    if |d| == 2 {
      assert d[..1] == [d[0]] && d[1..] == [d[1]];
    }
  }

  /** What is hashed one level up, and for each pair of leaves, was hashed for the whole tree. */
  lemma {:induction false} NodeInputsPair(h: Hash, d: seq<Digest>)
    ensures NodeInputs(h, Pair(h, d)) <= NodeInputs(h, d)
    ensures forall i :: 0 <= i && 2 * i + 1 < |d| ==> NodeInput(d[2 * i], d[2 * i + 1]) in NodeInputs(h, d)
    decreases |d|
  {
    hide Mth, Pair, NodeInputs, Split, IsPow2;
    if |d| <= 2 {
      NodeInputsSmall(h, d);
      NodeInputsSmall(h, Pair(h, d));
    } else {
      var k := Split(|d|);
      SplitHalves(|d|);
      PairSplit(h, d, k);
      NodeInputsPair(h, d[..k]);
      NodeInputsPair(h, d[k..]);
      NodeInputsSplit(h, d);
      NodeInputsSplit(h, Pair(h, d));
      MthPair(h, d[..k]);
      MthPair(h, d[k..]);
      forall i | 0 <= i && 2 * i + 1 < |d| ensures NodeInput(d[2 * i], d[2 * i + 1]) in NodeInputs(h, d) {
        if 2 * i < k {
          assert d[2 * i] == d[..k][2 * i] && d[2 * i + 1] == d[..k][2 * i + 1];
        } else {
          var j := i - k / 2;
          assert d[2 * i] == d[k..][2 * j] && d[2 * i + 1] == d[k..][2 * j + 1];
        }
      }
    }
  }

  /** Unfolding one step of the walk and of what it hashes. */
  lemma ClimbStep(h: Hash, w: Width, fn: int, sn: int, x: Bytes, path: seq<Option<Bytes>>)
    requires ClimbFrom(h, w, fn, sn, x, path).Reached? && sn != 0
    ensures path != [] && path[0].Some?
    ensures TakesLeft(w, fn, sn) ==>
              var c := NextLeft(w, fn, sn);
              var y := HashNode(h, path[0].value, x);
              && ClimbFrom(h, w, fn, sn, x, path) == ClimbFrom(h, w, c.0, c.1, y, path[1..])
              && ClimbInputs(h, w, fn, sn, x, path)
                 == {NodeInput(path[0].value, x)} + ClimbInputs(h, w, c.0, c.1, y, path[1..])
    ensures !TakesLeft(w, fn, sn) ==>
              var c := NextRight(w, fn, sn);
              var y := HashNode(h, x, path[0].value);
              && ClimbFrom(h, w, fn, sn, x, path) == ClimbFrom(h, w, c.0, c.1, y, path[1..])
              && ClimbInputs(h, w, fn, sn, x, path)
                 == {NodeInput(x, path[0].value)} + ClimbInputs(h, w, c.0, c.1, y, path[1..])
  {
  }

  lemma InputsPromote(h: Hash, k: nat, x: Bytes, path: seq<Option<Bytes>>)
    requires k > 0 && k % 2 == 0
    ensures ClimbInputs(h, Unbounded, k, k, x, path) == ClimbInputs(h, Unbounded, k / 2, k / 2, x, path)
  {
    assert StripEven(Unbounded, k, k) == StripEven(Unbounded, k / 2, k / 2);
  }

  lemma DecodedSplit(path: seq<Option<Bytes>>, x: Digest, rest: seq<Digest>)
    requires path != [] && path[0] == Some(x) && path[1..] == Decoded(rest)
    ensures path == Decoded([x] + rest)
  {
    assert path == [path[0]] + path[1..];
  }

  /** Equal digests of two inputs hashed by the two sides: either they are one input, or a collision. */
  lemma SameInput(h: Hash, a: Bytes, b: Bytes, xs: set<Bytes>, ys: set<Bytes>)
    requires a in xs && b in ys && h(a) == h(b)
    ensures a == b || Collision(h, xs, ys)
  {
  }

  /**
   A walk from x that starts at index fn of a level with the right number of nodes, and ends in the
   root of d, starts at d[fn] and is made of exactly the recursive audit path.
   */
  lemma {:induction false} ClimbSound(h: Hash, fn: nat, x: Bytes, path: seq<Option<Bytes>>, d: seq<Digest>)
    requires fn < |d| && |x| == 32
    requires ClimbFrom(h, Unbounded, fn, |d| - 1, x, path) == Reached(Mth(h, d))
    ensures || (x == d[fn] && path == Decoded(Path(h, fn, d)))
            || Collision(h, NodeInputs(h, d), ClimbInputs(h, Unbounded, fn, |d| - 1, x, path))
    decreases |d|
  {
    hide Mth, Path, Pair, StripEven, Decoded, NodeInputs, ClimbInputs, Collision, ClimbFrom, NodeInput;
    if |d| == 1 {
      ClimbSoundSingle(h, x, path, d);
    } else {
      var sn := |d| - 1;
      MthPair(h, d);
      PathPair(h, fn, d);
      NodeInputsPair(h, d);
      PairLevel(h, fn, d, d[..fn + 1]);
      var all := ClimbInputs(h, Unbounded, fn, sn, x, path);
      var nodes := NodeInputs(h, d);
      if fn % 2 == 0 && fn == sn {
        ClimbPromote(h, fn, x, x, path);
        InputsPromote(h, fn, x, path);
        ClimbSound(h, fn / 2, x, path, Pair(h, d));
        if Collision(h, NodeInputs(h, Pair(h, d)), all) {
          CollisionGrows(h, NodeInputs(h, Pair(h, d)), all, nodes, all);
        } else {
          assert Path(h, fn, d) == Path(h, fn / 2, Pair(h, d));
        }
      } else {
        ClimbStep(h, Unbounded, fn, sn, x, path);
        var p := path[0].value;
        var left := fn % 2 == 1;
        if left {
          StripEvenOdd(fn, sn);
        }
        var y := if left then HashNode(h, p, x) else HashNode(h, x, p);
        var later := ClimbInputs(h, Unbounded, fn / 2, sn / 2, y, path[1..]);
        ClimbSound(h, fn / 2, y, path[1..], Pair(h, d));
        if Collision(h, NodeInputs(h, Pair(h, d)), later) {
          CollisionGrows(h, NodeInputs(h, Pair(h, d)), later, nodes, all);
        } else {
          var i := fn / 2;
          var a := NodeInput(d[2 * i], d[2 * i + 1]);
          var b := if left then NodeInput(p, x) else NodeInput(x, p);
          SameInput(h, a, b, nodes, all);
          if a == b {
            if left {
              NodeInputInjective(d[2 * i], d[2 * i + 1], p, x);
            } else {
              NodeInputInjective(d[2 * i], d[2 * i + 1], x, p);
            }
            DecodedSplit(path, p, Path(h, i, Pair(h, d)));
          }
        }
      }
    }
  }

  lemma ClimbSoundSingle(h: Hash, x: Bytes, path: seq<Option<Bytes>>, d: seq<Digest>)
    requires |d| == 1
    requires ClimbFrom(h, Unbounded, 0, 0, x, path) == Reached(Mth(h, d))
    ensures x == d[0] && path == Decoded(Path(h, 0, d))
  {
  }
}
