/**
 A strict reader of JSON texts without white space (RFC 8259), written from the grammar and not from the printer, and
 that it reads every canonical text back.
 */
module JsonReader {
  import opened Wrappers
  import opened Bytes
  import opened Text
  import opened Decimals
  import N = NumberText
  import opened NumberForms
  import opened JsonStrings
  import opened Json
  import opened CanonicalText

  /** What comes after a value: nothing, a comma, or a closing bracket. */
  predicate Ends(s: JsString) {
    s == [] || s[0] == ',' as int || s[0] == ']' as int || s[0] == '}' as int
  }

  // ---------------------------------------------------------------- numbers

  predicate IsSign(c: CodeUnit) {
    c == '+' as int || c == '-' as int
  }

  function ReadExponentPart(s: JsString): (r: Option<(int, JsString)>)
    ensures r.Some? ==> |r.value.1| <= |s|
  {
    if s == [] || (s[0] != 'e' as int && s[0] != 'E' as int) then Some((0, s))
    else
      var signed := |s| > 1 && IsSign(s[1]);
      var (ds, rest) := N.ReadDigits(if signed then s[2..] else s[1..]);
      if ds == [] then None
      else Some((if signed && s[1] == '-' as int then -(Dval(ds) as int) else Dval(ds) as int, rest))
  }

  function ReadFractionPart(s: JsString): (r: Option<(seq<Digit>, JsString)>)
    ensures r.Some? ==> |r.value.1| <= |s|
  {
    if s == [] || s[0] != '.' as int then Some(([], s))
    else
      var (ds, rest) := N.ReadDigits(s[1..]);
      if ds == [] then None else Some((ds, rest))
  }

  /** `[-] int [frac] [exp]`, the integer part without leading zeros. */
  function ReadNumber(s: JsString): (r: Option<(Decimal, JsString)>)
    ensures r.Some? ==> |r.value.1| < |s|
  {
    var minus := s != [] && s[0] == '-' as int;
    var s1 := if minus then s[1..] else s;
    var (int_, s2) := N.ReadDigits(s1);
    DigitsShorter(s1);
    if int_ == [] || (|int_| > 1 && int_[0] == 0) then None
    else
      match ReadFractionPart(s2)
      case None => None
      case Some(f) =>
        (match ReadExponentPart(f.1)
         case None => None
         case Some(e) => Some((Normalise(minus, int_, f.0, e.0), e.1)))
  }

  lemma DigitsShorter(s: JsString)
    ensures N.ReadDigits(s).0 != [] ==> |N.ReadDigits(s).1| < |s|
  {
  }

  lemma NumberReadBack(d: Decimal, rest: JsString)
    requires Ends(rest)
    ensures ReadNumber(N.Print(d) + rest) == Some((d, rest))
  {
    hide *;
    var p := PartsOf(d);
    PrintedIsChosen(d);
    PrintedParts(d);
    PartsRead(p, rest);
    NormalUniqueOf(p, d);
  }

  lemma NormalUniqueOf(p: Parts, d: Decimal)
    requires p.Value() == d.Value()
    ensures Normalise(p.minus, p.int_, p.frac, p.Power()) == d
  {
    hide Dval, Pow10, Normalise, DecimalValue;
    NormaliseKeepsValue(p.minus, p.int_, p.frac, p.Power());
    NormalUnique(Normalise(p.minus, p.int_, p.frac, p.Power()), d);
  }

  lemma PrintedParts(d: Decimal)
    ensures PartsOf(d).Text() == N.Print(d) && PartsOf(d).Grammatical()
  {
    hide *;
    PrintedIsChosen(d);
    PartsShape(d);
    EsTextMeaning(PartsOf(d).Text(), d.Value());
    PrintExactly(PartsOf(d).Text(), d);
  }

  /** What stands for the parts after the integer part. */
  function FracText(p: Parts): JsString {
    if p.frac == [] then [] else Ascii(".") + N.DigitText(p.frac)
  }

  function ExpText(p: Parts): JsString {
    match p.exp
    case None => []
    case Some(e) => Ascii("e") + Ascii(if e.minus then "-" else "+") + N.DigitText(e.digits)
  }

  lemma PartsRead(p: Parts, rest: JsString)
    requires p.Grammatical() && Ends(rest)
    ensures ReadNumber(p.Text() + rest) == Some((Normalise(p.minus, p.int_, p.frac, p.Power()), rest))
  {
    hide *;
    var t := FracText(p) + (ExpText(p) + rest);
    Grammar(p);
    FractionRead(p, rest);
    ExponentRead(p, rest);
    SignedRead(p.minus, p.int_, t);
    TextThen(p, rest);
    NumberRead(p.Text() + rest, p.minus, p.int_, t, p.frac, ExpText(p) + rest, p.Power(), rest);
  }

  lemma Grammar(p: Parts)
    ensures p.Grammatical() <==>
              p.int_ != [] && (|p.int_| > 1 ==> p.int_[0] != 0) && (p.exp.Some? ==> p.exp.value.digits != [])
  {
  }

  lemma TextThen(p: Parts, rest: JsString)
    ensures p.Text() + rest == (if p.minus then Ascii("-") else []) + N.DigitText(p.int_) + (FracText(p) + (ExpText(p) + rest))
  {
    hide N.DigitText, Ascii;
  }

  /** What the four parts of the reader answer, put together. */
  lemma NumberRead(s: JsString, minus: bool, int_: seq<Digit>, t: JsString, frac: seq<Digit>, u: JsString, power: int, rest: JsString)
    requires s != [] && (s[0] == '-' as int <==> minus)
    requires N.ReadDigits(if minus then s[1..] else s) == (int_, t) && int_ != [] && (|int_| > 1 ==> int_[0] != 0)
    requires ReadFractionPart(t) == Some((frac, u)) && ReadExponentPart(u) == Some((power, rest))
    ensures ReadNumber(s) == Some((Normalise(minus, int_, frac, power), rest))
  {
    hide N.ReadDigits, ReadFractionPart, ReadExponentPart, Normalise;
  }

  lemma SignedRead(minus: bool, int_: seq<Digit>, t: JsString)
    requires int_ != [] && (t == [] || !N.IsDigitUnit(t[0]))
    ensures var s := (if minus then Ascii("-") else []) + N.DigitText(int_) + t;
            && s != [] && (s[0] == '-' as int <==> minus)
            && N.ReadDigits(if minus then s[1..] else s) == (int_, t)
  {
    hide N.ReadDigits;
    N.ReadDigitText(int_, t);
    var s := (if minus then Ascii("-") else []) + N.DigitText(int_) + t;
    if minus {
      assert s[1..] == N.DigitText(int_) + t;
    } else {
      assert s == N.DigitText(int_) + t;
    }
  }

  lemma EndsParts(rest: JsString)
    requires Ends(rest)
    ensures rest == [] || (!N.IsDigitUnit(rest[0]) && rest[0] != '.' as int && rest[0] != 'e' as int && rest[0] != 'E' as int)
  {
  }

  lemma FractionRead(p: Parts, rest: JsString)
    requires p.Grammatical() && Ends(rest)
    ensures var u := ExpText(p) + rest;
            && ReadFractionPart(FracText(p) + u) == Some((p.frac, u))
            && (FracText(p) + u == [] || !N.IsDigitUnit((FracText(p) + u)[0]))
  {
    hide N.ReadDigits, N.DigitText, ReadFractionPart, ExpText;
    var u := ExpText(p) + rest;
    ExponentFirst(p, rest);
    if p.frac == [] {
      assert FracText(p) + u == u;
      NoFraction(u);
    } else {
      N.ReadDigitText(p.frac, u);
      FractionFollows(p.frac, u);
    }
  }

  lemma ExponentFirst(p: Parts, rest: JsString)
    requires Ends(rest)
    ensures var u := ExpText(p) + rest;
            u == [] || (!N.IsDigitUnit(u[0]) && u[0] != '.' as int)
  {
    hide N.DigitText;
    EndsParts(rest);
  }

  lemma NoFraction(u: JsString)
    requires u == [] || u[0] != '.' as int
    ensures ReadFractionPart(u) == Some(([], u))
  {
  }

  lemma FractionFollows(frac: seq<Digit>, u: JsString)
    requires frac != [] && N.ReadDigits(N.DigitText(frac) + u) == (frac, u)
    ensures var s := Ascii(".") + N.DigitText(frac) + u;
            s != [] && !N.IsDigitUnit(s[0]) && ReadFractionPart(s) == Some((frac, u))
  {
    hide N.DigitText, N.ReadDigits;
    var s := Ascii(".") + N.DigitText(frac) + u;
    assert s[1..] == N.DigitText(frac) + u;
  }

  lemma ExponentRead(p: Parts, rest: JsString)
    requires p.Grammatical() && Ends(rest)
    ensures ReadExponentPart(ExpText(p) + rest) == Some((p.Power(), rest))
  {
    hide N.ReadDigits, N.DigitText, Dval;
    if p.exp.None? {
      assert ExpText(p) + rest == rest;
      NoExponent(rest);
    } else {
      EndsParts(rest);
      N.ReadDigitText(p.exp.value.digits, rest);
      assert (ExpText(p) + rest)[2..] == N.DigitText(p.exp.value.digits) + rest;
    }
  }

  lemma NoExponent(rest: JsString)
    requires Ends(rest)
    ensures ReadExponentPart(rest) == Some((0, rest))
  {
    EndsParts(rest);
  }

  // ---------------------------------------------------------------- strings

  /** The character a backslash and a letter stand for. */
  function Unescaped(c: CodeUnit): Option<CodeUnit> {
    if c == '\"' as int || c == '\\' as int || c == '/' as int then Some(c)
    else if c == 'b' as int then Some(8)
    else if c == 't' as int then Some(9)
    else if c == 'n' as int then Some(10)
    else if c == 'f' as int then Some(12)
    else if c == 'r' as int then Some(13)
    else None
  }

  /** The inside of a string up to its closing quote; control characters have to be escaped. */
  function ReadChars(s: JsString): (r: Option<(JsString, JsString)>)
    ensures r.Some? ==> |r.value.1| < |s|
  {
    if s == [] || s[0] < 0x20 then None
    else if s[0] == '\"' as int then Some(([], s[1..]))
    else if s[0] != '\\' as int then Prefixed(s[0], ReadChars(s[1..]))
    else if |s| < 2 then None
    else if s[1] == 'u' as int then
      if |s| < 6 || ReadHex4(s[2..]).None? then None else Prefixed(ReadHex4(s[2..]).value, ReadChars(s[6..]))
    else if Unescaped(s[1]).None? then None
    else Prefixed(Unescaped(s[1]).value, ReadChars(s[2..]))
  }

  lemma CharReadBack(c: CodeUnit, rest: JsString)
    ensures ReadChars(EscapeUnit(c) + rest) == Prefixed(c, ReadChars(rest))
  {
    hide *;
    if ShortEscape(c).Some? {
      ShortReadBack(c, rest);
    } else if c < 0x20 || IsHigh(c) || IsLow(c) {
      HexReadBack(c, rest);
    } else {
      PlainReadBack(c, rest);
    }
  }

  lemma ShortReadBack(c: CodeUnit, rest: JsString)
    requires ShortEscape(c).Some?
    ensures ReadChars(EscapeUnit(c) + rest) == Prefixed(c, ReadChars(rest))
  {
    hide Prefixed, ReadHex4;
    assert (EscapeUnit(c) + rest)[2..] == rest;
  }

  lemma HexReadBack(c: CodeUnit, rest: JsString)
    requires ShortEscape(c).None? && (c < 0x20 || IsHigh(c) || IsLow(c))
    ensures ReadChars(EscapeUnit(c) + rest) == Prefixed(c, ReadChars(rest))
  {
    hide Hex4, ReadHex4, Prefixed;
    var s := EscapeUnit(c) + rest;
    assert s[2..] == Hex4(c) + rest && s[6..] == rest;
    ReadHex4Prefix(Hex4(c), rest);
    Hex4RoundTrip(c);
  }

  lemma PlainReadBack(c: CodeUnit, rest: JsString)
    requires ShortEscape(c).None? && !(c < 0x20 || IsHigh(c) || IsLow(c))
    ensures ReadChars(EscapeUnit(c) + rest) == Prefixed(c, ReadChars(rest))
  {
    var s := [c] + rest;
    assert s[1..] == rest && s[0] == c;
    assert EscapeUnit(c) == [c];
    hide EscapeUnit, Prefixed, ReadHex4, Unescaped, ShortEscape;
  }

  lemma PairReadBack(a: CodeUnit, b: CodeUnit, rest: JsString)
    requires IsHigh(a) && IsLow(b)
    ensures ReadChars([a, b] + rest) == Prefixed(a, Prefixed(b, ReadChars(rest)))
  {
    hide Prefixed, ReadHex4, Unescaped;
    assert ([a, b] + rest)[1..] == [b] + rest && ([b] + rest)[1..] == rest;
  }

  lemma {:induction false} StringReadBack(s: JsString, rest: JsString)
    ensures ReadChars(Escape(s) + [QUOTE] + rest) == Some((s, rest))
    decreases |s|
  {
    hide ReadChars, Escape, EscapeUnit;
    EscapeParts(s);
    if s == [] {
      assert Escape(s) + [QUOTE] + rest == [QUOTE] + rest;
      QuoteCloses(rest);
    } else if StartsPair(s) {
      var tail := Escape(s[2..]) + [QUOTE] + rest;
      StringReadBack(s[2..], rest);
      assert Escape(s) + [QUOTE] + rest == [s[0], s[1]] + tail;
      PairReadBack(s[0], s[1], tail);
      assert s == [s[0]] + ([s[1]] + s[2..]);
    } else {
      var tail := Escape(s[1..]) + [QUOTE] + rest;
      StringReadBack(s[1..], rest);
      assert Escape(s) + [QUOTE] + rest == EscapeUnit(s[0]) + tail;
      CharReadBack(s[0], tail);
      assert s == [s[0]] + s[1..];
    }
  }

  lemma QuoteCloses(rest: JsString)
    ensures ReadChars([QUOTE] + rest) == Some(([], rest))
  {
    assert ([QUOTE] + rest)[1..] == rest;
  }

  // ---------------------------------------------------------------- values

  function ReadWord(s: JsString, word: string, j: Json): (r: Option<(Json, JsString)>)
    requires |word| > 0 && forall i :: 0 <= i < |word| ==> word[i] < 128 as char
    ensures r.Some? ==> |r.value.1| < |s|
  {
    if |s| >= |word| && s[..|word|] == Ascii(word) then Some((j, s[|word|..])) else None
  }

  /** A value and what follows it. */
  function ReadValue(s: JsString): (r: Option<(Json, JsString)>)
    ensures r.Some? ==> |r.value.1| < |s|
    decreases |s|, 1
  {
    if s == [] then None
    else if s[0] == 'n' as int then ReadWord(s, "null", Null)
    else if s[0] == 't' as int then ReadWord(s, "true", Boolean(true))
    else if s[0] == 'f' as int then ReadWord(s, "false", Boolean(false))
    else if s[0] == '\"' as int then
      (match ReadChars(s[1..]) case None => None case Some(p) => Some((String(p.0), p.1)))
    else if s[0] == '[' as int then
      if |s| > 1 && s[1] == ']' as int then Some((Array([]), s[2..]))
      else (match ReadItems(s[1..]) case None => None case Some(p) => Some((Array(p.0), p.1)))
    else if s[0] == '{' as int then
      if |s| > 1 && s[1] == '}' as int then Some((Object([]), s[2..]))
      else (match ReadMembers(s[1..]) case None => None case Some(p) => Some((Object(p.0), p.1)))
    else (match ReadNumber(s) case None => None case Some(p) => Some((Number(Exact(p.0)), p.1)))
  }

  /** Values with commas between them, up to the closing bracket. */
  function ReadItems(s: JsString): (r: Option<(seq<Json>, JsString)>)
    ensures r.Some? ==> |r.value.1| < |s|
    decreases |s|, 2
  {
    match ReadValue(s)
    case None => None
    case Some(p) =>
      if p.1 == [] then None
      else if p.1[0] == ']' as int then Some(([p.0], p.1[1..]))
      else if p.1[0] != ',' as int then None
      else
        match ReadItems(p.1[1..])
        case None => None
        case Some(q) => Some(([p.0] + q.0, q.1))
  }

  /** `"key":value` with commas between them, up to the closing brace. */
  function ReadMembers(s: JsString): (r: Option<(seq<Member>, JsString)>)
    ensures r.Some? ==> |r.value.1| < |s|
    decreases |s|, 2
  {
    if s == [] || s[0] != '\"' as int then None
    else
      match ReadChars(s[1..])
      case None => None
      case Some(k) =>
        if k.1 == [] || k.1[0] != ':' as int then None
        else
          match ReadValue(k.1[1..])
          case None => None
          case Some(p) =>
            if p.1 == [] then None
            else if p.1[0] == '}' as int then Some(([Member(k.0, p.0)], p.1[1..]))
            else if p.1[0] != ',' as int then None
            else
              match ReadMembers(p.1[1..])
              case None => None
              case Some(q) => Some(([Member(k.0, p.0)] + q.0, q.1))
  }

  /** The value a whole text is. */
  function ReadJson(s: JsString): Option<Json> {
    match ReadValue(s)
    case None => None
    case Some(p) => if p.1 == [] then Some(p.0) else None
  }

  // ---------------------------------------------------------------- reading a printed tree

  /** A tree that JSON can write: no empty slot, and every number one that JSON can hold. */
  predicate Readable(j: Json) {
    match j
    case Number(n) => n.Exact?
    case Array(items) => forall i :: 0 <= i < |items| ==> Readable(items[i])
    case Object(members) => forall i :: 0 <= i < |members| ==> Readable(members[i].value)
    case Blank => false
    case _ => true
  }

  lemma {:induction false} ReadablePlain(j: Json)
    requires Readable(j)
    ensures Plain(j) && !j.Blank?
    decreases j
  {
    match j
    case Array(items) =>
      forall i | 0 <= i < |items| ensures Plain(items[i]) && !items[i].Blank? {
        ReadablePlain(items[i]);
      }
      assert items != [] ==> items[0] != Blank;
    case Object(members) =>
      forall i | 0 <= i < |members| ensures Plain(members[i].value) && !members[i].value.Blank? {
        ReadablePlain(members[i].value);
      }
    case _ =>
  }

  lemma TailEnds(parts: seq<JsString>, close: CodeUnit, s: JsString)
    requires close == RBRACKET || close == RBRACE
    ensures var t := Tail(parts, close) + s;
            && Ends(t) && t != []
            && (parts == [] ==> t[0] == close && t[1..] == s)
            && (parts != [] ==> t[0] == COMMA && t[1..] == parts[0] + (Tail(parts[1..], close) + s))
  {
    if parts == [] {
      assert Tail(parts, close) == [close];
    } else {
      hide Tail;
      TailStep(parts, close);
      assert Tail(parts, close) + s == [COMMA] + (parts[0] + (Tail(parts[1..], close) + s));
    }
  }

  /** A printed tree is read back, whatever may come after a value follows it. */
  lemma {:induction false} ValueReadBack(j: Json, rest: JsString)
    requires Readable(j) && Ends(rest)
    ensures ReadValue(Print(j) + rest) == Some((j, rest))
    decreases j, 1
  {
    hide Print, Quote, N.Print, ReadItems, ReadMembers, ReadNumber, Readable, ReadValue, Ends;
    ReadableParts(j);
    LeafText(j);
    match j
    case Null => WordReadBack("null", j, rest);
    case Boolean(b) => WordReadBack(if b then "true" else "false", j, rest);
    case Number(n) => NumberValue(n.d, rest);
    case String(s) => StringValue(s, rest);
    case Array(items) =>
      ArrayText(items, rest);
      if items == [] {
        EmptyValue(rest);
      } else {
        var text := Print(items[0]) + (Tail(PrintItems(items[1..]), RBRACKET) + rest);
        ItemsReadBack(items, rest);
        FirstUnit(items[0], Tail(PrintItems(items[1..]), RBRACKET) + rest);
        ArrayValue(text);
      }
    case Object(members) =>
      ObjectText(members, rest);
      if members == [] {
        EmptyValue(rest);
      } else {
        var text := PrintMember(members[0]) + (Tail(PrintMembers(members[1..]), RBRACE) + rest);
        MembersReadBack(members, rest);
        FirstQuote(members[0], Tail(PrintMembers(members[1..]), RBRACE) + rest);
        ObjectValue(text);
      }
  }

  lemma ReadableParts(j: Json)
    requires Readable(j)
    ensures !j.Blank? && (j.Number? ==> j.n.Exact?)
    ensures j.Array? ==> forall i :: 0 <= i < |j.items| ==> Readable(j.items[i])
    ensures j.Object? ==> forall i :: 0 <= i < |j.members| ==> Readable(j.members[i].value)
  {
  }

  lemma WordReadBack(word: string, j: Json, rest: JsString)
    requires (word == "null" && j == Null) || (word == "true" && j == Boolean(true)) || (word == "false" && j == Boolean(false))
    requires Print(j) == if word == "null" then NULL_TEXT else if word == "true" then TRUE_TEXT else FALSE_TEXT
    ensures ReadValue(Print(j) + rest) == Some((j, rest))
  {
    hide Print, ReadChars, ReadItems, ReadMembers, ReadNumber;
    var s := Print(j) + rest;
    assert Print(j) == Ascii(word);
    assert s[..|word|] == Ascii(word) && s[|word|..] == rest;
  }

  lemma NumberValue(d: Decimal, rest: JsString)
    requires Ends(rest)
    ensures ReadValue(N.Print(d) + rest) == Some((Number(Exact(d)), rest))
  {
    hide N.Print, ReadChars, ReadItems, ReadMembers, ReadNumber, ReadWord;
    NumberReadBack(d, rest);
    N.PrintUnits(d);
    assert (N.Print(d) + rest)[0] == N.Print(d)[0];
  }

  lemma StringValue(s: JsString, rest: JsString)
    ensures ReadValue(Quote(s) + rest) == Some((String(s), rest))
  {
    hide Escape, ReadChars, ReadItems, ReadMembers, ReadNumber, ReadWord;
    StringReadBack(s, rest);
    assert Quote(s) + rest == [QUOTE] + (Escape(s) + [QUOTE] + rest);
  }

  lemma EmptyValue(rest: JsString)
    ensures ReadValue([LBRACKET] + ([RBRACKET] + rest)) == Some((Array([]), rest))
    ensures ReadValue([LBRACE] + ([RBRACE] + rest)) == Some((Object([]), rest))
  {
    assert ([LBRACKET] + ([RBRACKET] + rest))[2..] == rest && ([LBRACE] + ([RBRACE] + rest))[2..] == rest;
  }

  lemma ArrayValue(text: JsString)
    requires text != [] && text[0] != RBRACKET && ReadItems(text).Some?
    ensures ReadValue([LBRACKET] + text) == Some((Array(ReadItems(text).value.0), ReadItems(text).value.1))
  {
    hide ReadItems;
    assert ([LBRACKET] + text)[1..] == text;
  }

  lemma ObjectValue(text: JsString)
    requires text != [] && text[0] == QUOTE && ReadMembers(text).Some?
    ensures ReadValue([LBRACE] + text) == Some((Object(ReadMembers(text).value.0), ReadMembers(text).value.1))
  {
    hide ReadMembers;
    assert ([LBRACE] + text)[1..] == text;
  }

  /** No value starts like the end of a list. */
  lemma FirstUnit(j: Json, t: JsString)
    requires Readable(j)
    ensures Print(j) + t != [] && (Print(j) + t)[0] != RBRACKET
  {
    hide Print;
    ReadablePlain(j);
    PrintStart(j);
  }

  lemma FirstQuote(m: Member, t: JsString)
    ensures PrintMember(m) + t != [] && (PrintMember(m) + t)[0] == QUOTE
  {
    hide Print, Escape;
  }

  lemma {:induction false} ItemsReadBack(items: seq<Json>, rest: JsString)
    requires items != [] && forall i :: 0 <= i < |items| ==> Readable(items[i])
    ensures ReadItems(Print(items[0]) + (Tail(PrintItems(items[1..]), RBRACKET) + rest)) == Some((items, rest))
    decreases items, 0
  {
    hide Print, Tail, ReadValue, Readable, ReadItems;
    var more := items[1..];
    var t := Tail(PrintItems(more), RBRACKET) + rest;
    TailEnds(PrintItems(more), RBRACKET, rest);
    ValueReadBack(items[0], t);
    assert items == [items[0]] + more;
    ItemsStep(Print(items[0]) + t);
    if more == [] {
      assert items == [items[0]];
    } else {
      assert PrintItems(more)[0] == Print(more[0]) && PrintItems(more)[1..] == PrintItems(more[1..]);
      ItemsReadBack(more, rest);
      assert t[1..] == Print(more[0]) + (Tail(PrintItems(more[1..]), RBRACKET) + rest);
    }
  }

  lemma ItemsStep(s: JsString)
    requires ReadValue(s).Some?
    ensures var p := ReadValue(s).value;
            && (p.1 != [] && p.1[0] == RBRACKET ==> ReadItems(s) == Some(([p.0], p.1[1..])))
            && (p.1 != [] && p.1[0] == COMMA && ReadItems(p.1[1..]).Some? ==>
                  ReadItems(s) == Some(([p.0] + ReadItems(p.1[1..]).value.0, ReadItems(p.1[1..]).value.1)))
  {
    hide ReadValue;
  }

  lemma {:induction false} MembersReadBack(ms: seq<Member>, rest: JsString)
    requires ms != [] && forall i :: 0 <= i < |ms| ==> Readable(ms[i].value)
    ensures ReadMembers(PrintMember(ms[0]) + (Tail(PrintMembers(ms[1..]), RBRACE) + rest)) == Some((ms, rest))
    decreases ms, 0
  {
    hide Print, Tail, ReadValue, ReadChars, Readable, PrintMember, ReadMembers;
    var more := ms[1..];
    var t := Tail(PrintMembers(more), RBRACE) + rest;
    TailEnds(PrintMembers(more), RBRACE, rest);
    ValueReadBack(ms[0].value, t);
    assert ms == [ms[0]] + more;
    if more == [] {
      MemberReadBack(ms[0], t, []);
    } else {
      assert PrintMembers(more)[0] == PrintMember(more[0]) && PrintMembers(more)[1..] == PrintMembers(more[1..]);
      MembersReadBack(more, rest);
      MemberReadBack(ms[0], t, more);
    }
  }

  /** One member, with the rest of the list read. */
  lemma MemberReadBack(m: Member, t: JsString, more: seq<Member>)
    requires ReadValue(Print(m.value) + t) == Some((m.value, t)) && t != []
    requires more == [] ==> t[0] == RBRACE
    requires more != [] ==> t[0] == COMMA && ReadMembers(t[1..]).Some? && ReadMembers(t[1..]).value.0 == more
    ensures ReadMembers(PrintMember(m) + t)
            == Some(([m] + more, if more == [] then t[1..] else ReadMembers(t[1..]).value.1))
  {
    hide Print, ReadValue, Escape, ReadChars, ReadMembers;
    var v := Print(m.value) + t;
    StringReadBack(m.key, [COLON] + v);
    var s := PrintMember(m) + t;
    assert s == [QUOTE] + (Escape(m.key) + [QUOTE] + ([COLON] + v));
    assert s[1..] == Escape(m.key) + [QUOTE] + ([COLON] + v);
    assert ([COLON] + v)[1..] == v;
    MembersStep(s);
    assert [m] + [] == [m] == [Member(m.key, m.value)];
  }

  lemma MembersStep(s: JsString)
    requires s != [] && s[0] == QUOTE && ReadChars(s[1..]).Some?
    requires var k := ReadChars(s[1..]).value; k.1 != [] && k.1[0] == COLON && ReadValue(k.1[1..]).Some?
    ensures var k := ReadChars(s[1..]).value;
            var p := ReadValue(k.1[1..]).value;
            && (p.1 != [] && p.1[0] == RBRACE ==> ReadMembers(s) == Some(([Member(k.0, p.0)], p.1[1..])))
            && (p.1 != [] && p.1[0] == COMMA && ReadMembers(p.1[1..]).Some? ==>
                  ReadMembers(s) == Some(([Member(k.0, p.0)] + ReadMembers(p.1[1..]).value.0, ReadMembers(p.1[1..]).value.1)))
  {
    hide ReadValue, ReadChars;
  }

  // ---------------------------------------------------------------- canonical text is JSON

  /** Every object, at every level, lists its keys in ascending order. */
  predicate SortedThroughout(j: Json) {
    match j
    case Array(items) => forall i :: 0 <= i < |items| ==> SortedThroughout(items[i])
    case Object(members) => Ascending(members) && forall i :: 0 <= i < |members| ==> SortedThroughout(members[i].value)
    case _ => true
  }

  lemma {:induction false} NormalReadable(j: Json)
    requires Clean(j) && Dense(j) && WellFormed(j)
    ensures Readable(Normal(j)) && SortedThroughout(Normal(j))
    decreases j
  {
    match j
    case Array(items) =>
      NormalItemsAt(items);
      forall i | 0 <= i < |items| ensures Readable(NormalItems(items)[i]) && SortedThroughout(NormalItems(items)[i]) {
        NormalReadable(items[i]);
      }
    case Object(members) =>
      var ms := NormalMembers(members);
      NormalMembersAt(members);
      forall i | 0 <= i < |members| ensures Readable(ms[i].value) && SortedThroughout(ms[i].value) {
        NormalReadable(members[i].value);
      }
      SortAscending(ms);
      SortedReadable(ms);
    case _ =>
  }

  lemma SortedReadable(ms: seq<Member>)
    requires forall i :: 0 <= i < |ms| ==> Readable(ms[i].value) && SortedThroughout(ms[i].value)
    ensures forall i :: 0 <= i < |SortMembers(ms)| ==>
              Readable(SortMembers(ms)[i].value) && SortedThroughout(SortMembers(ms)[i].value)
  {
    hide Readable, SortedThroughout;
    forall i | 0 <= i < |SortMembers(ms)|
      ensures Readable(SortMembers(ms)[i].value) && SortedThroughout(SortMembers(ms)[i].value)
    {
      assert SortMembers(ms)[i] in ms;
    }
  }

  /**
   The canonical text of a tree is a JSON text without white space, and reading it gives the tree again with the keys of
   every object in ascending order.
   */
  lemma CanonicalReadsBack(j: Json)
    requires WellFormed(j) && Dense(j) && Canonical(j).Some?
    ensures ReadJson(Canonical(j).value) == Some(Normal(j))
    ensures SortedThroughout(Normal(j)) && MeaningOf(Normal(j)) == MeaningOf(j)
  {
    hide Print, Normal, ReadValue, SortedThroughout, MeaningOf, WellFormed, Dense, Clean, Readable;
    NormalReadable(j);
    NormalKeepsMeaning(j);
    ValueReadBack(Normal(j), []);
    assert Print(Normal(j)) + [] == Print(Normal(j));
  }
}
