/**
 The canonical text of a JSON tree, that it can be decoded in one way only, and the second printer the
 command-line verifier carries (packages/cli/src/verify-local.ts).
 */
module CanonicalText {
  import opened Wrappers
  import opened Bytes
  import opened Text
  import N = NumberText
  import opened JsonStrings
  import opened Json

  const COMMA: CodeUnit := 0x2C
  const COLON: CodeUnit := 0x3A
  const LBRACKET: CodeUnit := 0x5B
  const RBRACKET: CodeUnit := 0x5D
  const LBRACE: CodeUnit := 0x7B
  const RBRACE: CodeUnit := 0x7D
  const NULL_TEXT: JsString := [0x6E, 0x75, 0x6C, 0x6C]
  const TRUE_TEXT: JsString := [0x74, 0x72, 0x75, 0x65]
  const FALSE_TEXT: JsString := [0x66, 0x61, 0x6C, 0x73, 0x65]

  /** `parts.join(',')` */
  function Join(parts: seq<JsString>): JsString {
    if parts == [] then [] else if |parts| == 1 then parts[0] else parts[0] + [COMMA] + Join(parts[1..])
  }

  /** `JSON.stringify` of a number: what JSON cannot hold is written as null, -0 as 0. */
  function StringifyNumber(n: JsNumber): JsString {
    match n
    case Exact(d) => N.Print(d)
    case MinusZero => [N.ZERO]
    case _ => NULL_TEXT
  }

  /** A tree printed in the order its members stand. */
  function Print(j: Json): JsString {
    match j
    case Null => NULL_TEXT
    case Boolean(b) => if b then TRUE_TEXT else FALSE_TEXT
    case Number(n) => StringifyNumber(n)
    case String(s) => Quote(s)
    case Array(items) => [LBRACKET] + Join(PrintItems(items)) + [RBRACKET]
    case Object(members) => [LBRACE] + Join(PrintMembers(members)) + [RBRACE]
    case Blank => []
  }

  function PrintItems(items: seq<Json>): (r: seq<JsString>)
    ensures |r| == |items|
  {
    if items == [] then [] else [Print(items[0])] + PrintItems(items[1..])
  }

  function PrintMember(m: Member): JsString {
    Quote(m.key) + [COLON] + Print(m.value)
  }

  function PrintMembers(ms: seq<Member>): (r: seq<JsString>)
    ensures |r| == |ms|
  {
    if ms == [] then [] else [PrintMember(ms[0])] + PrintMembers(ms[1..])
  }

  /** No number in the tree is one that `canonicalize` rejects. */
  predicate Clean(j: Json) {
    match j
    case Number(n) => n.Exact?
    case Array(items) => forall i :: 0 <= i < |items| ==> Clean(items[i])
    case Object(members) => forall i :: 0 <= i < |members| ==> Clean(members[i].value)
    case _ => true
  }

  /** RFC 8785 text, or nothing for a tree with a number JSON cannot hold. */
  function Canonical(j: Json): Option<JsString> {
    if Clean(j) then Some(Print(Normal(j))) else None
  }

  // ---------------------------------------------------------------- unique decoding

  /**
   Every number is one JSON can hold, no property is an empty slot, and no array is a single empty slot, which
   would print like no slot at all.
   */
  predicate Plain(j: Json) {
    match j
    case Number(n) => n.Exact?
    case Array(items) => items != [Blank] && forall i :: 0 <= i < |items| ==> Plain(items[i])
    case Object(members) => forall i :: 0 <= i < |members| ==> !members[i].value.Blank? && Plain(members[i].value)
    case _ => true
  }

  /** What may follow a value: the end, or anything that is not part of a number. */
  predicate Follows(s: JsString) {
    s == [] || !N.IsNumberUnit(s[0])
  }

  /** The length of the longest prefix of number characters. */
  function NumberPrefix(s: JsString): nat {
    if s == [] || !N.IsNumberUnit(s[0]) then 0 else 1 + NumberPrefix(s[1..])
  }

  lemma {:induction false} NumberPrefixOf(p: JsString, s: JsString)
    requires N.AllNumberUnits(p) && Follows(s)
    ensures NumberPrefix(p + s) == |p|
  {
    if p == [] {
      assert p + s == s;
    } else {
      assert (p + s)[1..] == p[1..] + s;
      NumberPrefixOf(p[1..], s);
    }
  }

  lemma UnitsUnique(p: JsString, s: JsString, q: JsString, t: JsString)
    requires N.AllNumberUnits(p) && N.AllNumberUnits(q) && Follows(s) && Follows(t) && p + s == q + t
    ensures p == q && s == t
  {
    NumberPrefixOf(p, s);
    NumberPrefixOf(q, t);
    assert p == (p + s)[..|p|] && q == (q + t)[..|q|];
    assert s == (p + s)[|p|..] && t == (q + t)[|q|..];
  }

  /** The first character tells which kind of value was printed. */
  lemma PrintStart(j: Json)
    requires Plain(j) && !j.Blank?
    ensures var p := Print(j);
            p != [] &&
            match j
            case Null => p[0] == 0x6E
            case Boolean(b) => p[0] == if b then 0x74 else 0x66
            case Number(_) => N.IsDigitUnit(p[0]) || p[0] == N.MINUS
            case String(_) => p[0] == QUOTE
            case Array(_) => p[0] == LBRACKET
            case Object(_) => p[0] == LBRACE
  {
    hide N.Print;
    if j.Number? {
      N.PrintUnits(j.n.d);
    }
  }

  /** The rest of a list: a comma before every further part, then the closing bracket. */
  function Tail(parts: seq<JsString>, close: CodeUnit): JsString {
    if parts == [] then [close] else [COMMA] + parts[0] + Tail(parts[1..], close)
  }

  lemma TailStep(parts: seq<JsString>, close: CodeUnit)
    requires parts != []
    ensures Tail(parts, close) == [COMMA] + parts[0] + Tail(parts[1..], close)
  {
  }

  lemma Associate(a: JsString, b: JsString, c: JsString, d: JsString)
    ensures a + b + c + d == a + b + (c + d) == a + (b + c + d)
  {
  }

  lemma {:induction false} JoinIsTail(parts: seq<JsString>, close: CodeUnit)
    ensures Join(parts) + [close] == if parts == [] then [close] else parts[0] + Tail(parts[1..], close)
  {
    if |parts| > 1 {
      var rest := parts[1..];
      JoinIsTail(rest, close);
      TailStep(rest, close);
      assert Join(parts) == parts[0] + [COMMA] + Join(rest);
      hide Join, Tail;
      Associate(parts[0], [COMMA], Join(rest), [close]);
      Associate(parts[0], [COMMA], rest[0], Tail(rest[1..], close));
    } else if |parts| == 1 {
      assert parts[1..] == [];
    }
  }

  lemma TailFollows(parts: seq<JsString>, close: CodeUnit, s: JsString)
    requires close == RBRACKET || close == RBRACE
    ensures Follows(Tail(parts, close) + s) && Tail(parts, close) + s != []
    ensures (Tail(parts, close) + s)[0] == if parts == [] then close else COMMA
  {
  }

  lemma BracketedText(j: Json)
    ensures j.Array? ==> Print(j) == [LBRACKET] + Join(PrintItems(j.items)) + [RBRACKET]
    ensures j.Object? ==> Print(j) == [LBRACE] + Join(PrintMembers(j.members)) + [RBRACE]
  {
  }

  /** A bracketed list, first part first. */
  lemma ListText(open: CodeUnit, parts: seq<JsString>, close: CodeUnit, s: JsString)
    ensures [open] + Join(parts) + [close] + s
            == [open] + if parts == [] then [close] + s else parts[0] + (Tail(parts[1..], close) + s)
  {
    hide Join, Tail;
    JoinIsTail(parts, close);
    assert [open] + Join(parts) + [close] + s == [open] + ((Join(parts) + [close]) + s);
  }

  lemma ArrayText(items: seq<Json>, s: JsString)
    ensures Print(Array(items)) + s
            == [LBRACKET] + if items == [] then [RBRACKET] + s
                            else Print(items[0]) + (Tail(PrintItems(items[1..]), RBRACKET) + s)
  {
    hide Join, Tail, Print;
    ListText(LBRACKET, PrintItems(items), RBRACKET, s);
    BracketedText(Array(items));
    assert items != [] ==> PrintItems(items)[1..] == PrintItems(items[1..]);
  }

  lemma ObjectText(ms: seq<Member>, s: JsString)
    ensures Print(Object(ms)) + s
            == [LBRACE] + if ms == [] then [RBRACE] + s
                          else PrintMember(ms[0]) + (Tail(PrintMembers(ms[1..]), RBRACE) + s)
  {
    hide Join, Tail, Print, PrintMember;
    ListText(LBRACE, PrintMembers(ms), RBRACE, s);
    BracketedText(Object(ms));
    assert ms != [] ==> PrintMembers(ms)[1..] == PrintMembers(ms[1..]);
  }

  lemma Cut(c: CodeUnit, s: JsString, t: JsString)
    requires [c] + s == [c] + t
    ensures s == t
  {
    assert ([c] + s)[1..] == s && ([c] + t)[1..] == t;
  }

  /** Two printed trees, followed by anything that can follow a value, agree only if trees and followers agree. */
  lemma {:induction false} PrintUnique(a: Json, s: JsString, b: Json, t: JsString)
    requires Plain(a) && Plain(b) && !a.Blank? && !b.Blank? && Follows(s) && Follows(t)
    requires Print(a) + s == Print(b) + t
    ensures a == b && s == t
    decreases a, 1
  {
    hide Quote, StringifyNumber, Print;
    PrintStart(a);
    PrintStart(b);
    assert Print(a)[0] == (Print(a) + s)[0] == (Print(b) + t)[0] == Print(b)[0];
    match a
    case Number(n) =>
      LeafText(a);
      LeafText(b);
      N.PrintUnits(n.d);
      N.PrintUnits(b.n.d);
      UnitsUnique(N.Print(n.d), s, N.Print(b.n.d), t);
      N.PrintInjective(n.d, b.n.d);
    case String(x) =>
      LeafText(a);
      LeafText(b);
      QuoteUnique(x, s, b.s, t);
    case Array(items) => ArrayUnique(a, s, b, t);
    case Object(members) => ObjectUnique(a, s, b, t);
    case Null => CutText(Print(a), s, t);
    case Boolean(_) => CutText(Print(a), s, t);
    case Blank =>
  }

  lemma CutText(p: JsString, s: JsString, t: JsString)
    requires p + s == p + t
    ensures s == t
  {
    assert s == (p + s)[|p|..] && t == (p + t)[|p|..];
  }

  lemma LeafText(j: Json)
    ensures j.Null? ==> Print(j) == NULL_TEXT
    ensures j.Boolean? ==> Print(j) == if j.b then TRUE_TEXT else FALSE_TEXT
    ensures j.Number? && j.n.Exact? ==> Print(j) == N.Print(j.n.d)
    ensures j.String? ==> Print(j) == Quote(j.s)
    ensures j.Blank? ==> Print(j) == []
  {
  }

  lemma {:induction false} ArrayUnique(a: Json, s: JsString, b: Json, t: JsString)
    requires a.Array? && b.Array? && Plain(a) && Plain(b) && Follows(s) && Follows(t)
    requires Print(a) + s == Print(b) + t
    ensures a == b && s == t
    decreases a, 0
  {
    hide Print, Tail, Follows, PrintItems;
    var xs, ys := a.items, b.items;
    ArrayText(xs, s);
    ArrayText(ys, t);
    var u := if xs == [] then [RBRACKET] + s else Print(xs[0]) + (Tail(PrintItems(xs[1..]), RBRACKET) + s);
    var v := if ys == [] then [RBRACKET] + t else Print(ys[0]) + (Tail(PrintItems(ys[1..]), RBRACKET) + t);
    Cut(LBRACKET, u, v);
    if xs == [] && ys == [] {
      Cut(RBRACKET, s, t);
    } else if xs == [] {
      NotClosing(ys, t);
      assert false;
    } else if ys == [] {
      NotClosing(xs, s);
      assert false;
    } else {
      ItemUnique(xs[0], PrintItems(xs[1..]), s, ys[0], PrintItems(ys[1..]), t);
      ItemsUnique(xs[1..], s, ys[1..], t);
      assert xs == [xs[0]] + xs[1..] && ys == [ys[0]] + ys[1..];
    }
  }

  /** The first part of a list that is not a single empty slot does not look like the end of the list. */
  lemma NotClosing(items: seq<Json>, s: JsString)
    requires items != [] && Plain(Array(items))
    ensures var text := Print(items[0]) + (Tail(PrintItems(items[1..]), RBRACKET) + s);
            text != [] && text[0] != RBRACKET
  {
    hide Print, Tail, PrintItems;
    TailFollows(PrintItems(items[1..]), RBRACKET, s);
    assert items == [items[0]] + items[1..];
    if items[0].Blank? {
      LeafText(items[0]);
      assert PrintItems(items[1..]) != [];
      var rest := Tail(PrintItems(items[1..]), RBRACKET) + s;
      assert Print(items[0]) + rest == rest;
    } else {
      PrintStart(items[0]);
    }
  }

  /** One part of a list and what comes after it: an empty slot is told by the comma or the bracket that follows. */
  lemma {:induction false} ItemUnique(a: Json, ps: seq<JsString>, s: JsString, b: Json, qs: seq<JsString>, t: JsString)
    requires Plain(a) && Plain(b)
    requires Print(a) + (Tail(ps, RBRACKET) + s) == Print(b) + (Tail(qs, RBRACKET) + t)
    ensures a == b && Tail(ps, RBRACKET) + s == Tail(qs, RBRACKET) + t
    decreases a, 2
  {
    hide Print, Tail, Follows;
    var u, v := Tail(ps, RBRACKET) + s, Tail(qs, RBRACKET) + t;
    TailFollows(ps, RBRACKET, s);
    TailFollows(qs, RBRACKET, t);
    LeafText(a);
    LeafText(b);
    assert a.Blank? ==> Print(a) + u == u;
    assert b.Blank? ==> Print(b) + v == v;
    if a.Blank? && b.Blank? {
    } else if a.Blank? {
      PrintStart(b);
      assert false;
    } else if b.Blank? {
      PrintStart(a);
      assert false;
    } else {
      PrintUnique(a, u, b, v);
    }
  }

  lemma TailParts(p: JsString, parts: seq<JsString>, close: CodeUnit, s: JsString)
    ensures Tail([p] + parts, close) + s == [COMMA] + (p + (Tail(parts, close) + s))
  {
    assert ([p] + parts)[1..] == parts;
  }

  lemma {:induction false} ItemsUnique(xs: seq<Json>, s: JsString, ys: seq<Json>, t: JsString)
    requires (forall i :: 0 <= i < |xs| ==> Plain(xs[i])) && (forall i :: 0 <= i < |ys| ==> Plain(ys[i]))
    requires Tail(PrintItems(xs), RBRACKET) + s == Tail(PrintItems(ys), RBRACKET) + t
    requires Follows(s) && Follows(t)
    ensures xs == ys && s == t
    decreases xs
  {
    hide Print, Tail, Follows;
    TailFollows(PrintItems(xs), RBRACKET, s);
    TailFollows(PrintItems(ys), RBRACKET, t);
    if xs == [] {
      assert ys == [];
      TailEmpty(RBRACKET);
      Cut(RBRACKET, s, t);
    } else {
      TailParts(Print(xs[0]), PrintItems(xs[1..]), RBRACKET, s);
      TailParts(Print(ys[0]), PrintItems(ys[1..]), RBRACKET, t);
      Cut(COMMA, Print(xs[0]) + (Tail(PrintItems(xs[1..]), RBRACKET) + s), Print(ys[0]) + (Tail(PrintItems(ys[1..]), RBRACKET) + t));
      ItemUnique(xs[0], PrintItems(xs[1..]), s, ys[0], PrintItems(ys[1..]), t);
      ItemsUnique(xs[1..], s, ys[1..], t);
      assert xs == [xs[0]] + xs[1..] && ys == [ys[0]] + ys[1..];
    }
  }

  lemma TailEmpty(close: CodeUnit)
    ensures Tail([], close) == [close]
  {
  }

  lemma {:induction false} ObjectUnique(a: Json, s: JsString, b: Json, t: JsString)
    requires a.Object? && b.Object? && Plain(a) && Plain(b) && Follows(s) && Follows(t)
    requires Print(a) + s == Print(b) + t
    ensures a == b && s == t
    decreases a, 0
  {
    hide Print, Tail, Follows, PrintMember;
    var xs, ys := a.members, b.members;
    ObjectText(xs, s);
    ObjectText(ys, t);
    var u := if xs == [] then [RBRACE] + s else PrintMember(xs[0]) + (Tail(PrintMembers(xs[1..]), RBRACE) + s);
    var v := if ys == [] then [RBRACE] + t else PrintMember(ys[0]) + (Tail(PrintMembers(ys[1..]), RBRACE) + t);
    Cut(LBRACE, u, v);
    if xs != [] {
      MemberStart(xs[0]);
    }
    if ys != [] {
      MemberStart(ys[0]);
    }
    assert u[0] == if xs == [] then RBRACE else PrintMember(xs[0])[0];
    assert v[0] == if ys == [] then RBRACE else PrintMember(ys[0])[0];
    if xs == [] && ys == [] {
      Cut(RBRACE, s, t);
    } else if xs == [] || ys == [] {
      assert false;
    } else {
      TailFollows(PrintMembers(xs[1..]), RBRACE, s);
      TailFollows(PrintMembers(ys[1..]), RBRACE, t);
      MemberUnique(xs[0], Tail(PrintMembers(xs[1..]), RBRACE) + s, ys[0], Tail(PrintMembers(ys[1..]), RBRACE) + t);
      MembersUnique(xs[1..], s, ys[1..], t);
      assert xs == [xs[0]] + xs[1..] && ys == [ys[0]] + ys[1..];
    }
  }

  lemma MemberStart(m: Member)
    ensures PrintMember(m) != [] && PrintMember(m)[0] == QUOTE
  {
  }

  lemma {:induction false} MemberUnique(m: Member, s: JsString, n: Member, t: JsString)
    requires Plain(m.value) && Plain(n.value) && !m.value.Blank? && !n.value.Blank? && Follows(s) && Follows(t)
    requires PrintMember(m) + s == PrintMember(n) + t
    ensures m == n && s == t
    decreases m
  {
    hide Print, Quote, Follows;
    assert PrintMember(m) + s == Quote(m.key) + ([COLON] + (Print(m.value) + s));
    assert PrintMember(n) + t == Quote(n.key) + ([COLON] + (Print(n.value) + t));
    QuoteUnique(m.key, [COLON] + (Print(m.value) + s), n.key, [COLON] + (Print(n.value) + t));
    Cut(COLON, Print(m.value) + s, Print(n.value) + t);
    PrintUnique(m.value, s, n.value, t);
  }

  lemma {:induction false} MembersUnique(xs: seq<Member>, s: JsString, ys: seq<Member>, t: JsString)
    requires (forall i :: 0 <= i < |xs| ==> !xs[i].value.Blank? && Plain(xs[i].value))
    requires (forall i :: 0 <= i < |ys| ==> !ys[i].value.Blank? && Plain(ys[i].value))
    requires Tail(PrintMembers(xs), RBRACE) + s == Tail(PrintMembers(ys), RBRACE) + t
    requires Follows(s) && Follows(t)
    ensures xs == ys && s == t
    decreases xs
  {
    hide Print, Tail, Follows, PrintMember;
    TailFollows(PrintMembers(xs), RBRACE, s);
    TailFollows(PrintMembers(ys), RBRACE, t);
    if xs == [] {
      assert ys == [];
      TailEmpty(RBRACE);
      Cut(RBRACE, s, t);
    } else {
      var u := Tail(PrintMembers(xs[1..]), RBRACE) + s;
      var v := Tail(PrintMembers(ys[1..]), RBRACE) + t;
      TailParts(PrintMember(xs[0]), PrintMembers(xs[1..]), RBRACE, s);
      TailParts(PrintMember(ys[0]), PrintMembers(ys[1..]), RBRACE, t);
      Cut(COMMA, PrintMember(xs[0]) + u, PrintMember(ys[0]) + v);
      TailFollows(PrintMembers(xs[1..]), RBRACE, s);
      TailFollows(PrintMembers(ys[1..]), RBRACE, t);
      MemberUnique(xs[0], u, ys[0], v);
      MembersUnique(xs[1..], s, ys[1..], t);
      assert xs == [xs[0]] + xs[1..] && ys == [ys[0]] + ys[1..];
    }
  }

  /** Sorting and trimming neither bring in nor take away a number JSON cannot hold. */
  lemma {:induction false} NormalClean(j: Json)
    ensures Clean(Normal(j)) <==> Clean(j)
    decreases j
  {
    match j
    case Array(items) =>
      NormalItemsAt(items);
      forall i | 0 <= i < |items| ensures Clean(NormalItems(items)[i]) <==> Clean(items[i]) {
        NormalClean(items[i]);
      }
    case Object(members) =>
      NormalMembersAt(members);
      var ms := NormalMembers(members);
      forall i | 0 <= i < |ms| ensures Clean(ms[i].value) <==> Clean(members[i].value) {
        NormalClean(members[i].value);
      }
      SameCleanMembers(ms, SortMembers(ms));
    case _ =>
  }

  lemma SameCleanMembers(ms: seq<Member>, ns: seq<Member>)
    requires forall x :: x in ms <==> x in ns
    ensures Clean(Object(ms)) <==> Clean(Object(ns))
  {
    if Clean(Object(ms)) {
      forall k | 0 <= k < |ns| ensures Clean(ns[k].value) {
        assert ns[k] in ms;
      }
    }
    if Clean(Object(ns)) {
      forall k | 0 <= k < |ms| ensures Clean(ms[k].value) {
        assert ms[k] in ns;
      }
    }
  }

  lemma {:induction false} TrimClean(j: Json)
    ensures Clean(Trim(j)) <==> Clean(j)
    decreases j
  {
    match j
    case Array(items) =>
      TrimItemsAt(items);
      forall i | 0 <= i < |items| ensures Clean(TrimItems(items)[i]) <==> Clean(items[i]) {
        TrimClean(items[i]);
      }
    case Object(members) =>
      TrimMembersAt(members);
      forall i | 0 <= i < |members| ensures Clean(TrimMembers(members)[i].value) <==> Clean(members[i].value) {
        TrimClean(members[i].value);
      }
    case _ =>
  }

  /** So trees of one meaning are alike in that respect. */
  lemma CleanByMeaning(a: Json, b: Json)
    requires WellFormed(a) && WellFormed(b) && MeaningOf(Trim(a)) == MeaningOf(Trim(b))
    ensures Clean(a) <==> Clean(b)
  {
    hide Clean, Trim, Normal, MeaningOf, WellFormed;
    TrimWellFormed(a);
    TrimWellFormed(b);
    NormalOfMeaning(Trim(a), Trim(b));
    NormalClean(Trim(a));
    NormalClean(Trim(b));
    TrimClean(a);
    TrimClean(b);
  }

  /** Trimming changes no text. */
  lemma {:induction false} TrimPrints(j: Json)
    ensures Print(Trim(j)) == Print(j)
    decreases j, 1
  {
    hide Join, Quote;
    match j
    case Array(items) =>
      TrimPrintsItems(items);
      if items == [Blank] {
        BlankPart();
      }
    case Object(members) => TrimPrintsMembers(members);
    case _ =>
  }

  lemma BlankPart()
    ensures PrintItems([Blank]) == [[]] && Join(PrintItems([Blank])) == Join(PrintItems([]))
  {
    assert [Blank][1..] == [];
  }

  lemma {:induction false} TrimPrintsItems(items: seq<Json>)
    ensures PrintItems(TrimItems(items)) == PrintItems(items)
    decreases items, 0
  {
    if items != [] {
      TrimPrints(items[0]);
      TrimPrintsItems(items[1..]);
    }
  }

  lemma {:induction false} TrimPrintsMembers(ms: seq<Member>)
    ensures PrintMembers(TrimMembers(ms)) == PrintMembers(ms)
    decreases ms, 0
  {
    if ms != [] {
      TrimPrints(ms[0].value);
      TrimPrintsMembers(ms[1..]);
    }
  }

  /** And leaves a tree that decodes in one way. */
  lemma {:induction false} TrimPlain(j: Json)
    requires WellFormed(j) && Clean(j)
    ensures Plain(Trim(j))
    decreases j
  {
    match j
    case Array(items) =>
      TrimItemsAt(items);
      forall i | 0 <= i < |items| ensures Plain(TrimItems(items)[i]) {
        TrimPlain(items[i]);
      }
      if items != [Blank] && TrimItems(items) == [Blank] {
        BlankStays(items[0]);
      }
    case Object(members) =>
      TrimMembersAt(members);
      forall i | 0 <= i < |members|
        ensures !TrimMembers(members)[i].value.Blank? && Plain(TrimMembers(members)[i].value)
      {
        BlankStays(members[i].value);
        TrimPlain(members[i].value);
      }
    case _ =>
  }

  /** Equal texts, equal trimmed trees; with nothing assumed about order. */
  lemma TrimmedUnique(a: Json, b: Json)
    requires WellFormed(a) && WellFormed(b) && Clean(a) && Clean(b) && !a.Blank? && !b.Blank?
    ensures Print(a) == Print(b) <==> Trim(a) == Trim(b)
  {
    hide Print, Trim, Clean, WellFormed, Plain;
    TrimPrints(a);
    TrimPrints(b);
    if Print(a) == Print(b) {
      TrimPlain(a);
      TrimPlain(b);
      BlankStays(a);
      BlankStays(b);
      assert Print(Trim(a)) + [] == Print(Trim(b)) + [];
      PrintUnique(Trim(a), [], Trim(b), []);
    }
  }

  lemma {:induction false} NormalWellFormed(j: Json)
    requires WellFormed(j)
    ensures WellFormed(Normal(j))
    decreases j
  {
    match j
    case Array(items) =>
      NormalItemsAt(items);
      forall i | 0 <= i < |items| ensures WellFormed(NormalItems(items)[i]) {
        NormalWellFormed(items[i]);
      }
    case Object(members) =>
      NormalMembersAt(members);
      var ms := NormalMembers(members);
      forall i | 0 <= i < |ms| ensures !ms[i].value.Blank? && WellFormed(ms[i].value) {
        BlankStays(members[i].value);
        NormalWellFormed(members[i].value);
      }
      SortAscending(ms);
      AscendingDistinct(SortMembers(ms));
      forall k | 0 <= k < |ms| ensures !SortMembers(ms)[k].value.Blank? && WellFormed(SortMembers(ms)[k].value) {
        assert SortMembers(ms)[k] in ms;
      }
    case _ =>
  }

  /**
   Two values have equal canonical text exactly when they are equal up to key order at every level, once every array
   of a single empty slot is taken for the empty array.
   */
  lemma CanonicalExact(a: Json, b: Json)
    requires WellFormed(a) && WellFormed(b) && !a.Blank? && !b.Blank? && Canonical(a).Some? && Canonical(b).Some?
    ensures Canonical(a) == Canonical(b) <==> MeaningOf(Trim(a)) == MeaningOf(Trim(b))
  {
    hide Print, Normal, MeaningOf, Clean, Trim, WellFormed;
    NormalClean(a);
    NormalClean(b);
    NormalWellFormed(a);
    NormalWellFormed(b);
    BlankStays(a);
    BlankStays(b);
    TrimmedUnique(Normal(a), Normal(b));
    TrimNormal(a);
    TrimNormal(b);
    TrimWellFormed(a);
    TrimWellFormed(b);
    if Canonical(a) == Canonical(b) {
      NormalKeepsMeaning(Trim(a));
      NormalKeepsMeaning(Trim(b));
    }
    if MeaningOf(Trim(a)) == MeaningOf(Trim(b)) {
      NormalOfMeaning(Trim(a), Trim(b));
    }
  }

  /** On JSON values, equal canonical texts are equal values up to key order at every level, and conversely. */
  lemma CanonicalDecodable(a: Json, b: Json)
    requires WellFormed(a) && WellFormed(b) && Dense(a) && Dense(b) && Canonical(a).Some? && Canonical(b).Some?
    ensures Canonical(a) == Canonical(b) <==> MeaningOf(a) == MeaningOf(b)
  {
    hide Print, Normal, MeaningOf, Clean, Trim;
    DenseUntrimmed(a);
    DenseUntrimmed(b);
    CanonicalExact(a, b);
  }

  // ---------------------------------------------------------------- the text as bytes

  lemma {:induction false} PairedJoin(parts: seq<JsString>)
    requires forall i :: 0 <= i < |parts| ==> Paired(parts[i])
    ensures Paired(Join(parts))
  {
    if |parts| > 1 {
      PairedJoin(parts[1..]);
      PairedPlain([COMMA]);
      PairedConcat(parts[0], [COMMA]);
      PairedConcat(parts[0] + [COMMA], Join(parts[1..]));
    }
  }

  lemma PairedBrackets(open: CodeUnit, s: JsString, close: CodeUnit)
    requires open < 0x80 && close < 0x80 && Paired(s)
    ensures Paired([open] + s + [close])
  {
    PairedPlain([open]);
    PairedPlain([close]);
    PairedConcat([open], s);
    PairedConcat([open] + s, [close]);
  }

  /** Printed text has no lone surrogates, so its UTF-8 bytes determine it. */
  lemma {:induction false} PairedPrint(j: Json)
    ensures Paired(Print(j))
    decreases j, 1
  {
    hide Paired, Quote, Print, Join;
    match j
    case Array(items) =>
      PairedItems(items);
      PairedJoin(PrintItems(items));
      PairedBrackets(LBRACKET, Join(PrintItems(items)), RBRACKET);
      BracketedText(j);
    case Object(members) =>
      PairedMembers(members);
      PairedJoin(PrintMembers(members));
      PairedBrackets(LBRACE, Join(PrintMembers(members)), RBRACE);
      BracketedText(j);
    case String(s) =>
      LeafText(j);
      PairedQuote(s);
    case _ =>
      PlainLeaf(j);
      PairedPlain(Print(j));
  }

  lemma PlainLeaf(j: Json)
    requires !j.Array? && !j.Object? && !j.String?
    ensures forall i :: 0 <= i < |Print(j)| ==> Print(j)[i] < 0x80
  {
    hide N.Print;
    if j.Number? && j.n.Exact? {
      N.PrintUnits(j.n.d);
    }
  }

  lemma {:induction false} PairedItems(items: seq<Json>)
    ensures forall i :: 0 <= i < |items| ==> Paired(PrintItems(items)[i])
    decreases items, 0
  {
    hide Paired, Print;
    if items != [] {
      PairedPrint(items[0]);
      PairedItems(items[1..]);
    }
  }

  lemma {:induction false} PairedMembers(ms: seq<Member>)
    ensures forall i :: 0 <= i < |ms| ==> Paired(PrintMembers(ms)[i])
    decreases ms, 0
  {
    hide Paired, Print, Quote;
    if ms != [] {
      PairedPrint(ms[0].value);
      PairedQuote(ms[0].key);
      PairedPlain([COLON]);
      PairedConcat(Quote(ms[0].key), [COLON]);
      PairedConcat(Quote(ms[0].key) + [COLON], Print(ms[0].value));
      PairedMembers(ms[1..]);
    }
  }

  lemma CanonicalBytesDecodable(a: Json, b: Json)
    requires WellFormed(a) && WellFormed(b) && !a.Blank? && !b.Blank? && Canonical(a).Some? && Canonical(b).Some?
    ensures Utf8(Canonical(a).value) == Utf8(Canonical(b).value) <==> MeaningOf(Trim(a)) == MeaningOf(Trim(b))
  {
    hide Print, Normal, MeaningOf, Clean, Utf8, Trim;
    CanonicalExact(a, b);
    PairedPrint(Normal(a));
    PairedPrint(Normal(b));
    if Utf8(Canonical(a).value) == Utf8(Canonical(b).value) {
      Utf8Injective(Canonical(a).value, Canonical(b).value);
    }
  }

  // ---------------------------------------------------------------- the command-line printer

  /** `canonical` of verify-local.ts: recursive, keys sorted before their values are visited, no number refused. */
  function CliText(j: Json): JsString
    decreases j, 1, 0
  {
    match j
    case Null => NULL_TEXT
    case Boolean(b) => if b then TRUE_TEXT else FALSE_TEXT
    case Number(n) => StringifyNumber(n)
    case String(s) => Quote(s)
    case Array(items) => [LBRACKET] + Join(CliItems(j, items)) + [RBRACKET]
    case Object(members) => [LBRACE] + Join(CliMembers(j, SortMembers(members))) + [RBRACE]
    case Blank => []
  }

  function CliItems(j: Json, items: seq<Json>): (r: seq<JsString>)
    requires j.Array? && forall x :: x in items ==> x in j.items
    ensures |r| == |items|
    decreases j, 0, |items|
  {
    if items == [] then []
    else
      assert items[0] in j.items;
      [CliText(items[0])] + CliItems(j, items[1..])
  }

  function CliMembers(j: Json, ms: seq<Member>): (r: seq<JsString>)
    requires j.Object? && forall m :: m in ms ==> m in j.members
    ensures |r| == |ms|
    decreases j, 0, |ms|
  {
    if ms == [] then []
    else
      assert ms[0] in j.members;
      [Quote(ms[0].key) + [COLON] + CliText(ms[0].value)] + CliMembers(j, ms[1..])
  }

  lemma {:induction false} InsertNormal(m: Member, ms: seq<Member>)
    ensures NormalMembers(Insert(m, ms)) == Insert(Member(m.key, Normal(m.value)), NormalMembers(ms))
  {
    if ms != [] && !KeyLess(m.key, ms[0].key) {
      InsertNormal(m, ms[1..]);
    } else {
      assert ([m] + ms)[1..] == ms;
    }
  }

  /** Sorting looks at keys only. */
  lemma {:induction false} SortNormal(ms: seq<Member>)
    ensures NormalMembers(SortMembers(ms)) == SortMembers(NormalMembers(ms))
  {
    if ms != [] {
      SortNormal(ms[1..]);
      InsertNormal(ms[0], SortMembers(ms[1..]));
    }
  }

  /** The two printers agree on every tree, so the command line prints what the server prints wherever it prints. */
  lemma {:induction false} CliTextAgrees(j: Json)
    ensures CliText(j) == Print(Normal(j))
    ensures Canonical(j).Some? ==> Canonical(j) == Some(CliText(j))
    decreases j, 1, 0
  {
    hide Join, Quote, SortMembers;
    match j
    case Array(items) => CliItemsAgree(j, items);
    case Object(members) =>
      CliMembersAgree(j, SortMembers(members));
      SortNormal(members);
    case _ =>
  }

  lemma {:induction false} CliItemsAgree(j: Json, items: seq<Json>)
    requires j.Array? && forall x :: x in items ==> x in j.items
    ensures CliItems(j, items) == PrintItems(NormalItems(items))
    decreases j, 0, |items|
  {
    if items != [] {
      assert items[0] in j.items;
      CliTextAgrees(items[0]);
      CliItemsAgree(j, items[1..]);
    }
  }

  lemma {:induction false} CliMembersAgree(j: Json, ms: seq<Member>)
    requires j.Object? && forall m :: m in ms ==> m in j.members
    ensures CliMembers(j, ms) == PrintMembers(NormalMembers(ms))
    decreases j, 0, |ms|
  {
    if ms != [] {
      assert ms[0] in j.members;
      CliTextAgrees(ms[0].value);
      CliMembersAgree(j, ms[1..]);
    }
  }

  /** A tree with every number that JSON cannot hold replaced by what JSON.stringify makes of it. */
  function Collapse(j: Json): Json {
    match j
    case Number(n) => (match n
                       case Exact(_) => j
                       case MinusZero => Number(Exact(N.RawZero()))
                       case _ => Null)
    case Array(items) => Array(CollapseItems(items))
    case Object(members) => Object(CollapseMembers(members))
    case _ => j
  }

  function CollapseItems(items: seq<Json>): (r: seq<Json>)
    ensures |r| == |items|
  {
    if items == [] then [] else [Collapse(items[0])] + CollapseItems(items[1..])
  }

  function CollapseMembers(ms: seq<Member>): (r: seq<Member>)
    ensures |r| == |ms|
  {
    if ms == [] then [] else [Member(ms[0].key, Collapse(ms[0].value))] + CollapseMembers(ms[1..])
  }

  lemma {:induction false} CollapsePrints(j: Json)
    ensures Print(Collapse(j)) == Print(j) && Clean(Collapse(j))
    decreases j, 1
  {
    hide Join, Quote;
    match j
    case Array(items) => CollapsePrintsItems(items);
    case Object(members) => CollapsePrintsMembers(members);
    case _ =>
  }

  /** There is nothing to collapse in a tree the server accepts. */
  lemma {:induction false} CleanUncollapsed(j: Json)
    requires Clean(j)
    ensures Collapse(j) == j
    decreases j
  {
    match j
    case Array(items) =>
      CollapseItemsAt(items);
      forall i | 0 <= i < |items| ensures CollapseItems(items)[i] == items[i] {
        CleanUncollapsed(items[i]);
      }
      assert CollapseItems(items) == items;
    case Object(members) =>
      CollapseMembersAt(members);
      forall i | 0 <= i < |members| ensures CollapseMembers(members)[i] == members[i] {
        CleanUncollapsed(members[i].value);
      }
      assert CollapseMembers(members) == members;
    case _ =>
  }

  lemma {:induction false} CollapsePrintsItems(items: seq<Json>)
    ensures PrintItems(CollapseItems(items)) == PrintItems(items)
    ensures forall i :: 0 <= i < |items| ==> Clean(CollapseItems(items)[i])
    decreases items, 0
  {
    if items != [] {
      CollapsePrints(items[0]);
      CollapsePrintsItems(items[1..]);
    }
  }

  lemma {:induction false} CollapsePrintsMembers(ms: seq<Member>)
    ensures PrintMembers(CollapseMembers(ms)) == PrintMembers(ms)
    ensures forall i :: 0 <= i < |ms| ==> CollapseMembers(ms)[i].key == ms[i].key && Clean(CollapseMembers(ms)[i].value)
    decreases ms, 0
  {
    if ms != [] {
      CollapsePrints(ms[0].value);
      CollapsePrintsMembers(ms[1..]);
    }
  }

  lemma {:induction false} InsertCollapse(m: Member, ms: seq<Member>)
    ensures CollapseMembers(Insert(m, ms)) == Insert(Member(m.key, Collapse(m.value)), CollapseMembers(ms))
  {
    if ms != [] && !KeyLess(m.key, ms[0].key) {
      InsertCollapse(m, ms[1..]);
    } else {
      assert ([m] + ms)[1..] == ms;
    }
  }

  lemma {:induction false} SortCollapse(ms: seq<Member>)
    ensures CollapseMembers(SortMembers(ms)) == SortMembers(CollapseMembers(ms))
  {
    if ms != [] {
      SortCollapse(ms[1..]);
      InsertCollapse(ms[0], SortMembers(ms[1..]));
    }
  }

  lemma {:induction false} CollapseNormal(j: Json)
    ensures Normal(Collapse(j)) == Collapse(Normal(j))
    decreases j, 1
  {
    hide SortMembers;
    match j
    case Array(items) => CollapseNormalItems(items);
    case Object(members) =>
      CollapseNormalMembers(members);
      SortCollapse(NormalMembers(members));
    case _ =>
  }

  lemma {:induction false} CollapseNormalItems(items: seq<Json>)
    ensures NormalItems(CollapseItems(items)) == CollapseItems(NormalItems(items))
    decreases items, 0
  {
    if items != [] {
      CollapseNormal(items[0]);
      CollapseNormalItems(items[1..]);
    }
  }

  lemma {:induction false} CollapseNormalMembers(ms: seq<Member>)
    ensures NormalMembers(CollapseMembers(ms)) == CollapseMembers(NormalMembers(ms))
    decreases ms, 0
  {
    if ms != [] {
      CollapseNormal(ms[0].value);
      CollapseNormalMembers(ms[1..]);
    }
  }

  lemma CollapseBlank(j: Json)
    ensures Collapse(j).Blank? <==> j.Blank?
  {
  }

  lemma {:induction false} CollapseKeys(j: Json)
    requires WellFormed(j)
    ensures WellFormed(Collapse(j))
    decreases j
  {
    match j
    case Array(items) =>
      CollapseItemsAt(items);
      forall i | 0 <= i < |items| ensures WellFormed(CollapseItems(items)[i]) {
        CollapseKeys(items[i]);
      }
    case Object(members) =>
      CollapseMembersAt(members);
      forall i | 0 <= i < |members|
        ensures !CollapseMembers(members)[i].value.Blank? && WellFormed(CollapseMembers(members)[i].value)
      {
        CollapseBlank(members[i].value);
        CollapseKeys(members[i].value);
      }
    case _ =>
  }

  lemma {:induction false} CollapseItemsAt(items: seq<Json>)
    ensures forall i :: 0 <= i < |items| ==> CollapseItems(items)[i] == Collapse(items[i])
  {
    if items != [] {
      CollapseItemsAt(items[1..]);
    }
  }

  lemma {:induction false} CollapseMembersAt(ms: seq<Member>)
    ensures forall i :: 0 <= i < |ms| ==> CollapseMembers(ms)[i] == Member(ms[i].key, Collapse(ms[i].value))
  {
    if ms != [] {
      CollapseMembersAt(ms[1..]);
    }
  }

  /**
   The command-line text is decodable exactly up to empty slots and what JSON.stringify does to numbers JSON cannot
   hold.
   */
  lemma CliTextExact(a: Json, b: Json)
    requires WellFormed(a) && WellFormed(b) && !a.Blank? && !b.Blank?
    ensures CliText(a) == CliText(b) <==> MeaningOf(Trim(Collapse(a))) == MeaningOf(Trim(Collapse(b)))
  {
    hide Print, Normal, MeaningOf, Clean, CliText, Trim;
    CliTextAgrees(a);
    CliTextAgrees(b);
    CollapsePrints(Normal(a));
    CollapsePrints(Normal(b));
    CollapseNormal(a);
    CollapseNormal(b);
    CollapsePrints(a);
    CollapsePrints(b);
    CollapseKeys(a);
    CollapseKeys(b);
    CollapseBlank(a);
    CollapseBlank(b);
    CanonicalExact(Collapse(a), Collapse(b));
  }

  /** So a -0 passes for a 0 on the command line, where the server refuses it. */
  lemma MinusZeroReadAsZero()
    ensures CliText(Number(MinusZero)) == CliText(Number(Exact(N.RawZero())))
    ensures Canonical(Number(MinusZero)).None? && Canonical(Number(Exact(N.RawZero()))).Some?
    ensures MeaningOf(Number(MinusZero)) != MeaningOf(Number(Exact(N.RawZero())))
  {
  }
}
