/** JavaScript strings as sequences of UTF-16 code units, and the hexadecimal form of byte strings. */
module Text {
  import opened Bytes
  import opened Wrappers

  type CodeUnit = x: int | 0 <= x < 0x10000

  type JsString = seq<CodeUnit>

  function HexDigit(n: int): CodeUnit
    requires 0 <= n < 16
  {
    if n < 10 then 0x30 + n else 0x57 + n
  }

  /** Both letter cases are read; only lower case is written. */
  function Nibble(c: CodeUnit): (r: Option<int>)
    ensures r.Some? ==> 0 <= r.value < 16
  {
    if 0x30 <= c <= 0x39 then Some(c - 0x30)
    else if 0x61 <= c <= 0x66 then Some(c - 0x57)
    else if 0x41 <= c <= 0x46 then Some(c - 0x37)
    else None
  }

  function ToHex(b: Bytes): (s: JsString)
    ensures |s| == 2 * |b|
  {
    if b == [] then [] else [HexDigit(b[0] / 16), HexDigit(b[0] % 16)] + ToHex(b[1..])
  }

  /** Reads pairs of digits and stops, without an error, at the first pair that is not one. */
  function FromHex(s: JsString): Bytes {
    if |s| < 2 then []
    else
      match (Nibble(s[0]), Nibble(s[1]))
      case (Some(hi), Some(lo)) =>
        [16 * hi + lo] + FromHex(s[2..])
      case _ => []
  }

  lemma {:induction false} HexRoundTrip(b: Bytes)
    ensures FromHex(ToHex(b)) == b
  {
    if b != [] {
      HexRoundTrip(b[1..]);
      var s := ToHex(b);
      assert s[2..] == ToHex(b[1..]);
      assert Nibble(s[0]) == Some(b[0] / 16) && Nibble(s[1]) == Some(b[0] % 16);
    }
  }

  lemma HexInjective(a: Bytes, b: Bytes)
    requires ToHex(a) == ToHex(b)
    ensures a == b
  {
    HexRoundTrip(a);
    HexRoundTrip(b);
  }

  /** The server's decoder: anything that does not decode to 32 bytes is an error. */
  function HexToBuf(s: JsString): (r: Option<Bytes>)
    ensures r.Some? ==> |r.value| == 32
  {
    if |FromHex(s)| == 32 then Some(FromHex(s)) else None
  }

  lemma HexToBufOfHex(d: Digest)
    ensures HexToBuf(ToHex(d)) == Some(d)
  {
    HexRoundTrip(d);
  }

  // ---------------------------------------------------------------- the characters themselves

  /** An ASCII literal as code units. */
  function Ascii(text: string): (s: JsString)
    requires forall i :: 0 <= i < |text| ==> text[i] < 128 as char
    ensures |s| == |text| && forall i :: 0 <= i < |s| ==> s[i] == text[i] as int
  {
    seq(|text|, i requires 0 <= i < |text| => text[i] as int)
  }

  const LOWER_HEX := "0123456789abcdef"
  const UPPER_HEX := "0123456789ABCDEF"

  /** Lower case is written; both cases are read, and nothing else. */
  lemma HexAlphabet(n: int, c: CodeUnit)
    requires 0 <= n < 16
    ensures HexDigit(n) == LOWER_HEX[n] as int
    ensures Nibble(c) == Some(n) <==> c == LOWER_HEX[n] as int || c == UPPER_HEX[n] as int
  {
  }

  /** The text of a byte string: digits 2i and 2i + 1 write byte i, high half first. */
  lemma {:induction false} HexText(b: Bytes, i: nat)
    requires i < |b|
    ensures ToHex(b)[2 * i] == LOWER_HEX[b[i] / 16] as int && ToHex(b)[2 * i + 1] == LOWER_HEX[b[i] % 16] as int
  {
    hide ToHex, HexDigit;
    HexFirst(b);
    if i > 0 {
      HexText(b[1..], i - 1);
    } else {
      HexAlphabet(b[0] / 16, 0);
      HexAlphabet(b[0] % 16, 0);
    }
  }

  lemma HexFirst(b: Bytes)
    requires b != []
    ensures ToHex(b) == [HexDigit(b[0] / 16), HexDigit(b[0] % 16)] + ToHex(b[1..])
  {
  }

  predicate IsHexPair(s: JsString, i: nat) {
    2 * i + 1 < |s| && Nibble(s[2 * i]).Some? && Nibble(s[2 * i + 1]).Some?
  }

  /** Decoding reads exactly the pairs before the first one that is not two digits, or not there. */
  lemma {:induction false} FromHexStops(s: JsString)
    ensures var b := FromHex(s);
            && !IsHexPair(s, |b|)
            && forall i: nat :: i < |b| ==>
                 IsHexPair(s, i) && b[i] == 16 * Nibble(s[2 * i]).value + Nibble(s[2 * i + 1]).value
  {
    hide Nibble;
    if |s| >= 2 && Nibble(s[0]).Some? && Nibble(s[1]).Some? {
      var b, c := FromHex(s), FromHex(s[2..]);
      FromHexStops(s[2..]);
      assert |b| == 1 + |c|;
      forall i: nat | i < |b| ensures IsHexPair(s, i) && b[i] == 16 * Nibble(s[2 * i]).value + Nibble(s[2 * i + 1]).value {
        if i > 0 {
          LaterPair(s, i - 1);
          assert IsHexPair(s[2..], i - 1) && b[i] == c[i - 1];
        }
      }
      LaterPair(s, |c|);
    }
  }

  lemma LaterPair(s: JsString, i: nat)
    requires |s| >= 2
    ensures IsHexPair(s, i + 1) <==> IsHexPair(s[2..], i)
    ensures IsHexPair(s[2..], i) ==> s[2..][2 * i] == s[2 * (i + 1)] && s[2..][2 * i + 1] == s[2 * (i + 1) + 1]
  {
    hide Nibble;
  }

  /** A sibling is refused by the server exactly when its decoded part is not 32 bytes; what follows that part is not looked at. */
  lemma HexToBufExactly(s: JsString)
    ensures HexToBuf(s) == if |FromHex(s)| == 32 then Some(FromHex(s)) else None
  {
  }
}
