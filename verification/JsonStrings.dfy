/** String literals as JSON.stringify writes them, a reader for them, and UTF-8 for what is written. */
module JsonStrings {
  import opened Wrappers
  import opened Bytes
  import opened Text

  const QUOTE: CodeUnit := 0x22
  const BACKSLASH: CodeUnit := 0x5C
  const LETTER_U: CodeUnit := 0x75

  predicate IsHigh(c: CodeUnit) { 0xD800 <= c < 0xDC00 }

  predicate IsLow(c: CodeUnit) { 0xDC00 <= c < 0xE000 }

  predicate StartsPair(s: JsString) {
    |s| >= 2 && IsHigh(s[0]) && IsLow(s[1])
  }

  /** The letter of a two-character escape. */
  function ShortEscape(c: CodeUnit): Option<CodeUnit> {
    if c == 0x08 then Some(0x62)
    else if c == 0x09 then Some(0x74)
    else if c == 0x0A then Some(0x6E)
    else if c == 0x0C then Some(0x66)
    else if c == 0x0D then Some(0x72)
    else if c == QUOTE || c == BACKSLASH then Some(c)
    else None
  }

  function Hex4(c: CodeUnit): (s: JsString)
    ensures |s| == 4
  {
    [HexDigit(c / 0x10 / 0x10 / 0x10), HexDigit(c / 0x10 / 0x10 % 0x10), HexDigit(c / 0x10 % 0x10), HexDigit(c % 0x10)]
  }

  /** One code unit that is not part of a surrogate pair. */
  function EscapeUnit(c: CodeUnit): JsString {
    match ShortEscape(c)
    case Some(letter) => [BACKSLASH, letter]
    case None => if c < 0x20 || IsHigh(c) || IsLow(c) then [BACKSLASH, LETTER_U] + Hex4(c) else [c]
  }

  /** The inside of a string literal; a surrogate without its partner is escaped, a pair is not. */
  function Escape(s: JsString): JsString {
    if s == [] then []
    else if StartsPair(s) then s[..2] + Escape(s[2..])
    else EscapeUnit(s[0]) + Escape(s[1..])
  }

  function Quote(s: JsString): JsString {
    [QUOTE] + Escape(s) + [QUOTE]
  }

  // ---------------------------------------------------------------- reading

  function ReadHex4(s: JsString): Option<CodeUnit>
    requires |s| >= 4
  {
    match (Nibble(s[0]), Nibble(s[1]), Nibble(s[2]), Nibble(s[3]))
    case (Some(a), Some(b), Some(c), Some(d)) => Some(((a * 0x10 + b) * 0x10 + c) * 0x10 + d)
    case _ => None
  }

  function UnescapeLetter(c: CodeUnit): CodeUnit {
    if c == 0x62 then 0x08
    else if c == 0x74 then 0x09
    else if c == 0x6E then 0x0A
    else if c == 0x66 then 0x0C
    else if c == 0x72 then 0x0D
    else c
  }

  /** Reads the inside of a literal up to the closing quote, and returns what follows it. */
  function ReadString(s: JsString): Option<(JsString, JsString)> {
    if s == [] then None
    else if s[0] == QUOTE then Some(([], s[1..]))
    else if s[0] != BACKSLASH then Prefixed(s[0], ReadString(s[1..]))
    else if |s| >= 6 && s[1] == LETTER_U then
      match ReadHex4(s[2..])
      case Some(c) => Prefixed(c, ReadString(s[6..]))
      case None => None
    else if |s| >= 2 then Prefixed(UnescapeLetter(s[1]), ReadString(s[2..]))
    else None
  }

  function Prefixed(c: CodeUnit, r: Option<(JsString, JsString)>): Option<(JsString, JsString)> {
    match r
    case None => None
    case Some(p) => Some(([c] + p.0, p.1))
  }

  lemma Hex4RoundTrip(c: CodeUnit)
    ensures ReadHex4(Hex4(c)) == Some(c)
  {
    hide Nibble, HexDigit;
    NibbleRoundTrip(c / 0x10 / 0x10 / 0x10);
    NibbleRoundTrip(c / 0x10 / 0x10 % 0x10);
    NibbleRoundTrip(c / 0x10 % 0x10);
    NibbleRoundTrip(c % 0x10);
  }

  lemma NibbleRoundTrip(n: int)
    requires 0 <= n < 16
    ensures Nibble(HexDigit(n)) == Some(n)
  {
  }

  lemma ReadHex4Prefix(s: JsString, t: JsString)
    requires |s| == 4
    ensures ReadHex4(s + t) == ReadHex4(s)
  {
  }

  lemma ReadEscapedUnit(c: CodeUnit, rest: JsString)
    ensures ReadString(EscapeUnit(c) + rest) == Prefixed(c, ReadString(rest))
  {
    hide *;
    if ShortEscape(c).Some? {
      ReadShortEscape(c, rest);
    } else if c < 0x20 || IsHigh(c) || IsLow(c) {
      ReadHexEscape(c, rest);
    } else {
      ReadPlainUnit(c, rest);
    }
  }

  lemma ReadShortEscape(c: CodeUnit, rest: JsString)
    requires ShortEscape(c).Some?
    ensures ReadString(EscapeUnit(c) + rest) == Prefixed(c, ReadString(rest))
  {
    var s := EscapeUnit(c) + rest;
    assert s[2..] == rest;
  }

  lemma ReadHexEscape(c: CodeUnit, rest: JsString)
    requires ShortEscape(c).None? && (c < 0x20 || IsHigh(c) || IsLow(c))
    ensures ReadString(EscapeUnit(c) + rest) == Prefixed(c, ReadString(rest))
  {
    hide Hex4, ReadHex4;
    var s := EscapeUnit(c) + rest;
    assert s[2..] == Hex4(c) + rest && s[6..] == rest;
    ReadHex4Prefix(Hex4(c), rest);
    Hex4RoundTrip(c);
  }

  lemma ReadPlainUnit(c: CodeUnit, rest: JsString)
    requires ShortEscape(c).None? && !(c < 0x20 || IsHigh(c) || IsLow(c))
    ensures ReadString(EscapeUnit(c) + rest) == Prefixed(c, ReadString(rest))
  {
    var s := [c] + rest;
    assert s[1..] == rest && s[0] == c;
    assert EscapeUnit(c) == [c];
    assert c != QUOTE && c != BACKSLASH;
    hide EscapeUnit, Prefixed, ReadHex4, UnescapeLetter, ShortEscape;
  }

  lemma ReadPlainPair(a: CodeUnit, b: CodeUnit, rest: JsString)
    requires IsHigh(a) && IsLow(b)
    ensures ReadString([a, b] + rest) == Prefixed(a, Prefixed(b, ReadString(rest)))
  {
    assert ([a, b] + rest)[1..] == [b] + rest && ([b] + rest)[1..] == rest;
  }

  lemma EscapeParts(s: JsString)
    ensures s == [] ==> Escape(s) == []
    ensures s != [] && StartsPair(s) ==> Escape(s) == [s[0], s[1]] + Escape(s[2..])
    ensures s != [] && !StartsPair(s) ==> Escape(s) == EscapeUnit(s[0]) + Escape(s[1..])
  {
    if StartsPair(s) {
      assert s[..2] == [s[0], s[1]];
    }
  }

  /** The reader inverts the printer, whatever follows the literal. */
  lemma {:induction false} ReadQuoted(s: JsString, rest: JsString)
    ensures ReadString(Escape(s) + [QUOTE] + rest) == Some((s, rest))
    decreases |s|
  {
    var text := Escape(s) + [QUOTE] + rest;
    EscapeParts(s);
    if s == [] {
      assert text == [QUOTE] + rest && text[1..] == rest;
    } else if StartsPair(s) {
      hide ReadString, Escape;
      ReadQuoted(s[2..], rest);
      var tail := Escape(s[2..]) + [QUOTE] + rest;
      assert text == [s[0], s[1]] + tail;
      ReadPlainPair(s[0], s[1], tail);
      assert s == [s[0]] + ([s[1]] + s[2..]);
    } else {
      hide ReadString, Escape, EscapeUnit;
      ReadQuoted(s[1..], rest);
      var tail := Escape(s[1..]) + [QUOTE] + rest;
      assert text == EscapeUnit(s[0]) + tail;
      ReadEscapedUnit(s[0], tail);
      assert s == [s[0]] + s[1..];
    }
  }

  lemma QuoteUnique(s: JsString, x: JsString, t: JsString, y: JsString)
    requires Quote(s) + x == Quote(t) + y
    ensures s == t && x == y
  {
    hide Escape, ReadString;
    assert (Quote(s) + x)[1..] == Escape(s) + [QUOTE] + x;
    assert (Quote(t) + y)[1..] == Escape(t) + [QUOTE] + y;
    ReadQuoted(s, x);
    ReadQuoted(t, y);
  }

  // ---------------------------------------------------------------- UTF-8

  /** Every surrogate is part of a pair. */
  predicate Paired(s: JsString) {
    if s == [] then true
    else if StartsPair(s) then Paired(s[2..])
    else !IsHigh(s[0]) && !IsLow(s[0]) && Paired(s[1..])
  }

  function CodePoint(high: CodeUnit, low: CodeUnit): int
    requires IsHigh(high) && IsLow(low)
  {
    0x10000 + (high - 0xD800) * 0x400 + (low - 0xDC00)
  }

  function Encode(c: int): (b: Bytes)
    requires 0 <= c < 0x110000
    ensures b != []
  {
    if c < 0x80 then [c]
    else if c < 0x800 then [0xC0 + c / 0x40, 0x80 + c % 0x40]
    else if c < 0x10000 then [0xE0 + c / 0x40 / 0x40, 0x80 + c / 0x40 % 0x40, 0x80 + c % 0x40]
    else [0xF0 + c / 0x40 / 0x40 / 0x40, 0x80 + c / 0x40 / 0x40 % 0x40, 0x80 + c / 0x40 % 0x40, 0x80 + c % 0x40]
  }

  /** `Buffer.from(text, 'utf8')`; a surrogate without a partner becomes U+FFFD. */
  function Utf8(s: JsString): Bytes {
    if s == [] then []
    else if StartsPair(s) then Encode(CodePoint(s[0], s[1])) + Utf8(s[2..])
    else if IsHigh(s[0]) || IsLow(s[0]) then Encode(0xFFFD) + Utf8(s[1..])
    else Encode(s[0]) + Utf8(s[1..])
  }

  lemma PairDetermined(a: CodeUnit, b: CodeUnit, c: CodeUnit, d: CodeUnit)
    requires IsHigh(a) && IsLow(b) && IsHigh(c) && IsLow(d) && CodePoint(a, b) == CodePoint(c, d)
    ensures a == c && b == d
  {
  }

  /** The first byte tells how long a character is. */
  function LengthFrom(b: int): nat {
    if b < 0x80 then 1 else if b < 0xE0 then 2 else if b < 0xF0 then 3 else 4
  }

  function Decode(b: Bytes): int
    requires 1 <= |b| <= 4
  {
    var at := (i: int) requires 0 <= i < |b| => b[i] as int;
    if |b| == 1 then at(0)
    else if |b| == 2 then (at(0) - 0xC0) * 0x40 + (at(1) - 0x80)
    else if |b| == 3 then ((at(0) - 0xE0) * 0x40 + (at(1) - 0x80)) * 0x40 + (at(2) - 0x80)
    else (((at(0) - 0xF0) * 0x40 + (at(1) - 0x80)) * 0x40 + (at(2) - 0x80)) * 0x40 + (at(3) - 0x80)
  }

  lemma DecodeEncode(c: int)
    requires 0 <= c < 0x110000
    ensures |Encode(c)| == LengthFrom(Encode(c)[0]) <= 4
    ensures Decode(Encode(c)) == c
  {
    if c < 0x800 {
    } else if c < 0x10000 {
      assert Decode(Encode(c)) == (c / 0x40 / 0x40 * 0x40 + c / 0x40 % 0x40) * 0x40 + c % 0x40;
    } else {
      assert Decode(Encode(c)) == ((c / 0x40 / 0x40 / 0x40 * 0x40 + c / 0x40 / 0x40 % 0x40) * 0x40 + c / 0x40 % 0x40) * 0x40 + c % 0x40;
    }
  }

  lemma EncodeUnique(c: int, x: Bytes, d: int, y: Bytes)
    requires 0 <= c < 0x110000 && 0 <= d < 0x110000 && Encode(c) + x == Encode(d) + y
    ensures c == d && x == y
  {
    hide Encode, Decode;
    DecodeEncode(c);
    DecodeEncode(d);
    var s := Encode(c) + x;
    assert Encode(c)[0] == s[0] == Encode(d)[0];
    assert s[..|Encode(c)|] == Encode(c) && s[..|Encode(d)|] == Encode(d);
    assert s[|Encode(c)|..] == x && s[|Encode(d)|..] == y;
  }

  /** The first character of a text without lone surrogates, and how many units it takes. */
  function FirstPoint(s: JsString): (r: (int, nat))
    requires s != [] && Paired(s)
    ensures 0 <= r.0 < 0x110000 && r.1 <= |s| && Paired(s[r.1..])
  {
    if StartsPair(s) then (CodePoint(s[0], s[1]), 2) else (s[0], 1)
  }

  lemma Utf8First(s: JsString)
    requires s != [] && Paired(s)
    ensures Utf8(s) == Encode(FirstPoint(s).0) + Utf8(s[FirstPoint(s).1..])
  {
    hide Encode;
  }

  /** Code points below 0x10000 are single units, so the point tells the units. */
  lemma FirstUnits(s: JsString, t: JsString)
    requires s != [] && Paired(s) && t != [] && Paired(t) && FirstPoint(s).0 == FirstPoint(t).0
    ensures FirstPoint(s) == FirstPoint(t) && s[..FirstPoint(s).1] == t[..FirstPoint(t).1]
  {
    if StartsPair(s) && StartsPair(t) {
      PairDetermined(s[0], s[1], t[0], t[1]);
    }
  }

  /** On text without lone surrogates UTF-8 loses nothing. */
  lemma {:induction false} Utf8Injective(s: JsString, t: JsString)
    requires Paired(s) && Paired(t) && Utf8(s) == Utf8(t)
    ensures s == t
    decreases |s|
  {
    hide Utf8, Encode, Paired;
    Utf8Empty(s);
    Utf8Empty(t);
    if s != [] && t != [] {
      Utf8First(s);
      Utf8First(t);
      var (c, n) := FirstPoint(s);
      var (d, m) := FirstPoint(t);
      EncodeUnique(c, Utf8(s[n..]), d, Utf8(t[m..]));
      FirstUnits(s, t);
      Utf8Injective(s[n..], t[m..]);
      assert s == s[..n] + s[n..] && t == t[..m] + t[m..];
    }
  }

  lemma Utf8Empty(s: JsString)
    ensures Utf8(s) == [] <==> s == []
  {
  }

  lemma {:induction false} PairedConcat(s: JsString, t: JsString)
    requires Paired(s) && Paired(t)
    ensures Paired(s + t)
    decreases |s|
  {
    if s == [] {
      assert s + t == t;
    } else if StartsPair(s) {
      PairedConcat(s[2..], t);
      assert (s + t)[2..] == s[2..] + t;
    } else {
      PairedConcat(s[1..], t);
      assert (s + t)[1..] == s[1..] + t;
    }
  }

  /** A text of plain ASCII has no surrogates at all. */
  lemma {:induction false} PairedPlain(s: JsString)
    requires forall i :: 0 <= i < |s| ==> s[i] < 0x80
    ensures Paired(s)
  {
    if s != [] {
      PairedPlain(s[1..]);
    }
  }

  lemma PairedUnit(c: CodeUnit)
    ensures Paired(EscapeUnit(c))
  {
    var e := EscapeUnit(c);
    if ShortEscape(c).Some? || c < 0x20 || IsHigh(c) || IsLow(c) {
      PairedPlain(e);
    } else {
      assert e[1..] == [];
    }
  }

  lemma {:induction false} PairedEscape(s: JsString)
    ensures Paired(Escape(s))
    decreases |s|
  {
    hide EscapeUnit;
    if s != [] {
      if StartsPair(s) {
        PairedEscape(s[2..]);
        assert (s[..2] + Escape(s[2..]))[2..] == Escape(s[2..]);
      } else {
        PairedEscape(s[1..]);
        PairedUnit(s[0]);
        PairedConcat(EscapeUnit(s[0]), Escape(s[1..]));
      }
    }
  }

  lemma PairedQuote(s: JsString)
    ensures Paired(Quote(s))
  {
    hide Escape;
    PairedEscape(s);
    PairedPlain([QUOTE]);
    PairedConcat([QUOTE], Escape(s));
    PairedConcat([QUOTE] + Escape(s), [QUOTE]);
  }

  // ---------------------------------------------------------------- which characters are escaped, and which bytes are written

  /** The two-character escapes of RFC 8785 (section 3.2.2.2); everything from the space on that is not one of them, or a surrogate, stands for itself. */
  lemma ShortTable(c: CodeUnit)
    ensures EscapeUnit(8) == Ascii("\\b") && EscapeUnit(9) == Ascii("\\t") && EscapeUnit(10) == Ascii("\\n")
    ensures EscapeUnit(12) == Ascii("\\f") && EscapeUnit(13) == Ascii("\\r")
    ensures EscapeUnit('\"' as int) == Ascii("\\\"") && EscapeUnit('\\' as int) == Ascii("\\\\")
    ensures c >= 32 && c != '\"' as int && c != '\\' as int && !(0xD800 <= c < 0xE000) ==> EscapeUnit(c) == [c]
  {
    hide Hex4;
  }

  /** Every other control character, and a surrogate on its own, is written as `\\u` and four lower-case digits. */
  lemma HexTable(c: CodeUnit)
    requires (c < 32 && c !in {8, 9, 10, 12, 13}) || 0xD800 <= c < 0xE000
    ensures |EscapeUnit(c)| == 6 && EscapeUnit(c)[..2] == Ascii("\\u")
    ensures EscapeUnit(c)[2] == LOWER_HEX[c / 4096] as int && EscapeUnit(c)[3] == LOWER_HEX[c / 256 % 16] as int
    ensures EscapeUnit(c)[4] == LOWER_HEX[c / 16 % 16] as int && EscapeUnit(c)[5] == LOWER_HEX[c % 16] as int
  {
    hide HexDigit;
    assert c / 16 / 16 / 16 == c / 4096 && c / 16 / 16 == c / 256;
    HexAlphabet(c / 4096, 0);
    HexAlphabet(c / 256 % 16, 0);
    HexAlphabet(c / 16 % 16, 0);
    HexAlphabet(c % 16, 0);
    assert EscapeUnit(c)[..2] == [BACKSLASH, LETTER_U];
  }

  /** Only the two units of a surrogate pair are left alone among surrogates; every other unit is escaped on its own. */
  lemma EscapeWalk(s: JsString)
    ensures Escape([]) == []
    ensures |s| >= 2 && 0xD800 <= s[0] < 0xDC00 && 0xDC00 <= s[1] < 0xE000 ==> Escape(s) == [s[0], s[1]] + Escape(s[2..])
    ensures s != [] && !(|s| >= 2 && 0xD800 <= s[0] < 0xDC00 && 0xDC00 <= s[1] < 0xE000) ==>
              Escape(s) == EscapeUnit(s[0]) + Escape(s[1..])
  {
    hide EscapeUnit;
    EscapeParts(s);
  }

  /** The payload bits of a byte above its marker. */
  function From(b: byte, marker: int): int {
    b as int - marker
  }

  /** A continuation byte of UTF-8. */
  predicate Continues(b: byte) {
    0x80 <= b < 0xC0
  }

  /**
   UTF-8 (RFC 3629, section 3): one byte below 0x80, two below 0x800, three below 0x10000 and four above, never more than
   needed; the first byte says how many, and the bits of the others stand after 10.
   */
  lemma EncodeTable(c: int)
    requires 0 <= c < 0x110000
    ensures var b := Encode(c);
            && |b| == (if c < 0x80 then 1 else if c < 0x800 then 2 else if c < 0x10000 then 3 else 4)
            && (|b| == 1 ==> b[0] == c)
            && (|b| == 2 ==> 0xC2 <= b[0] < 0xE0 && Continues(b[1]) && c == From(b[0], 0xC0) * 64 + From(b[1], 0x80))
            && (|b| == 3 ==> 0xE0 <= b[0] < 0xF0 && Continues(b[1]) && Continues(b[2])
                             && c == From(b[0], 0xE0) * 4096 + From(b[1], 0x80) * 64 + From(b[2], 0x80))
            && (|b| == 4 ==> 0xF0 <= b[0] < 0xF5 && Continues(b[1]) && Continues(b[2]) && Continues(b[3])
                             && c == From(b[0], 0xF0) * 262144 + From(b[1], 0x80) * 4096 + From(b[2], 0x80) * 64 + From(b[3], 0x80))
  {
    var x, y := c / 0x40, c / 0x40 / 0x40;
    assert c == x * 64 + c % 64 && x == y * 64 + x % 64;
    if c >= 0x10000 {
      assert y == y / 64 * 64 + y % 64;
    }
  }

  /** Text is encoded point by point: a pair is one point, and a surrogate on its own is written as U+FFFD. */
  lemma Utf8Walk(s: JsString)
    requires s != []
    ensures StartsPair(s) <==> |s| >= 2 && 0xD800 <= s[0] < 0xDC00 && 0xDC00 <= s[1] < 0xE000
    ensures StartsPair(s) ==> Utf8(s) == Encode(CodePoint(s[0], s[1])) + Utf8(s[2..])
    ensures !(0xD800 <= s[0] < 0xE000) ==> Utf8(s) == Encode(s[0]) + Utf8(s[1..])
    ensures 0xD800 <= s[0] < 0xE000 && !StartsPair(s) ==> Utf8(s) == [0xEF, 0xBF, 0xBD] + Utf8(s[1..])
  {
    hide Encode, CodePoint;
    Replacement();
  }

  lemma PairPoint(high: CodeUnit, low: CodeUnit)
    requires IsHigh(high) && IsLow(low)
    ensures CodePoint(high, low) == 65536 + 1024 * From16(high, 0xD800) + From16(low, 0xDC00)
  {
  }

  function From16(c: CodeUnit, first: int): int {
    c as int - first
  }

  lemma Replacement()
    ensures Encode(0xFFFD) == [0xEF, 0xBF, 0xBD]
  {
  }
}
