/**
 JSON trees and their canonical text (RFC 8785, section 3.2.3): keys sorted by UTF-16 code unit at
 every level, no white space.
 */
module Json {
  import opened Wrappers
  import opened Bytes
  import opened Text
  import opened Decimals
  import N = NumberText
  import opened JsonStrings

  /** A JavaScript number: a finite non-zero-signed decimal, or one of the values JSON cannot hold. */
  datatype JsNumber = NotANumber | Infinite(neg: bool) | MinusZero | Exact(d: Decimal)

  datatype Json =
    | Null
    | Boolean(b: bool)
    | Number(n: JsNumber)
    | String(s: JsString)
    | Array(items: seq<Json>)
    | Object(members: seq<Member>)
    | Blank    // an empty slot of a sparse array; JSON text has none

  /** The members of an object, in the order they were inserted. */
  datatype Member = Member(key: JsString, value: Json)

  // ---------------------------------------------------------------- key order

  /** Order by code units, a proper prefix first: the default order of Array.prototype.sort on strings. */
  predicate KeyLess(a: JsString, b: JsString) {
    if b == [] then false
    else if a == [] then true
    else a[0] < b[0] || (a[0] == b[0] && KeyLess(a[1..], b[1..]))
  }

  /** The first n units of two keys agree. */
  predicate AgreeTo(a: JsString, b: JsString, n: nat) {
    n <= |a| && n <= |b| && a[..n] == b[..n]
  }

  ghost predicate DifferAt(a: JsString, b: JsString, n: nat) {
    n <= |a| && n < |b| && AgreeTo(a, b, n) && (n == |a| || a[n] < b[n])
  }

  /** Either a is a proper prefix of b, or a has the smaller unit at the first position where they differ. */
  ghost predicate Precedes(a: JsString, b: JsString) {
    exists n: nat :: DifferAt(a, b, n)
  }

  lemma DifferLater(a: JsString, b: JsString, n: nat)
    requires a != [] && b != [] && a[0] == b[0]
    ensures DifferAt(a, b, n + 1) <==> DifferAt(a[1..], b[1..], n)
    ensures !DifferAt(a, b, 0)
  {
    if n < |a| && n < |b| {
      assert a[..n + 1] == [a[0]] + a[1..][..n] && b[..n + 1] == [b[0]] + b[1..][..n];
    }
  }

  lemma DifferNow(a: JsString, b: JsString, n: nat)
    requires a != [] && b != [] && a[0] != b[0] && DifferAt(a, b, n)
    ensures n == 0 && a[0] < b[0]
  {
    if n > 0 {
      AgreeFirst(a, b, n);
    }
  }

  lemma AgreeFirst(a: JsString, b: JsString, n: nat)
    requires n > 0 && AgreeTo(a, b, n)
    ensures a != [] && b != [] && a[0] == b[0]
  {
    assert a[..n][0] == a[0] && b[..n][0] == b[0];
  }

  lemma {:induction false} KeyLessMeaning(a: JsString, b: JsString)
    ensures KeyLess(a, b) <==> Precedes(a, b)
  {
    hide AgreeTo, DifferAt, KeyLess;
    KeyLessStep(a, b);
    if a != [] && b != [] {
      if a[0] == b[0] {
        KeyLessMeaning(a[1..], b[1..]);
        if n: nat :| DifferAt(a[1..], b[1..], n) {
          DifferLater(a, b, n);
        }
        if n: nat :| DifferAt(a, b, n) {
          DifferLater(a, b, if n > 0 then n - 1 else 0);
        }
      } else {
        if n: nat :| DifferAt(a, b, n) {
          DifferNow(a, b, n);
        }
      }
    }
  }

  lemma KeyLessStep(a: JsString, b: JsString)
    ensures b == [] ==> !KeyLess(a, b) && !Precedes(a, b)
    ensures a == [] && b != [] ==> KeyLess(a, b) && DifferAt(a, b, 0)
    ensures a != [] && b != [] && a[0] == b[0] ==> (KeyLess(a, b) <==> KeyLess(a[1..], b[1..]))
    ensures a != [] && b != [] && a[0] != b[0] ==> (KeyLess(a, b) <==> a[0] < b[0])
    ensures a != [] && b != [] && a[0] < b[0] ==> DifferAt(a, b, 0)
  {
  }

  lemma {:induction false} KeyTotal(a: JsString, b: JsString)
    ensures a == b || KeyLess(a, b) || KeyLess(b, a)
  {
    if a != [] && b != [] && a[0] == b[0] {
      KeyTotal(a[1..], b[1..]);
      assert a == [a[0]] + a[1..] && b == [b[0]] + b[1..];
    }
  }

  lemma {:induction false} KeyTransitive(a: JsString, b: JsString, c: JsString)
    requires KeyLess(a, b) && KeyLess(b, c)
    ensures KeyLess(a, c)
  {
    if a != [] && a[0] == b[0] == c[0] {
      KeyTransitive(a[1..], b[1..], c[1..]);
    }
  }

  lemma {:induction false} KeyIrreflexive(a: JsString)
    ensures !KeyLess(a, a)
  {
    if a != [] {
      KeyIrreflexive(a[1..]);
    }
  }

  predicate DistinctKeys(ms: seq<Member>) {
    forall i, j :: 0 <= i < j < |ms| ==> ms[i].key != ms[j].key
  }

  predicate Ascending(ms: seq<Member>) {
    forall i, j :: 0 <= i < j < |ms| ==> KeyLess(ms[i].key, ms[j].key)
  }

  function Insert(m: Member, ms: seq<Member>): (r: seq<Member>)
    ensures forall x :: x in r <==> x == m || x in ms
    ensures |r| == |ms| + 1
  {
    if ms == [] || KeyLess(m.key, ms[0].key) then [m] + ms else [ms[0]] + Insert(m, ms[1..])
  }

  function SortMembers(ms: seq<Member>): (r: seq<Member>)
    ensures forall x :: x in r <==> x in ms
    ensures |r| == |ms|
  {
    if ms == [] then [] else Insert(ms[0], SortMembers(ms[1..]))
  }

  lemma {:induction false} InsertAscending(m: Member, ms: seq<Member>)
    requires Ascending(ms) && forall x :: x in ms ==> x.key != m.key
    ensures Ascending(Insert(m, ms))
  {
    if ms != [] {
      if KeyLess(m.key, ms[0].key) {
        forall j | 0 <= j < |ms| ensures KeyLess(m.key, ms[j].key) {
          if j > 0 {
            KeyTransitive(m.key, ms[0].key, ms[j].key);
          }
        }
      } else {
        KeyTotal(m.key, ms[0].key);
        InsertAscending(m, ms[1..]);
        var rest := Insert(m, ms[1..]);
        forall j | 0 <= j < |rest| ensures KeyLess(ms[0].key, rest[j].key) {
          assert rest[j] in rest;
          if rest[j] != m {
            var k :| 0 <= k < |ms[1..]| && ms[1..][k] == rest[j];
            assert ms[1..][k] == ms[k + 1];
          }
        }
      }
    }
  }

  lemma {:induction false} SortAscending(ms: seq<Member>)
    requires DistinctKeys(ms)
    ensures Ascending(SortMembers(ms))
  {
    if ms != [] {
      assert DistinctKeys(ms[1..]);
      SortAscending(ms[1..]);
      forall x | x in SortMembers(ms[1..]) ensures x.key != ms[0].key {
        assert x in ms[1..];
        var k :| 0 <= k < |ms[1..]| && ms[1..][k] == x;
        assert ms[k + 1] == x;
      }
      InsertAscending(ms[0], SortMembers(ms[1..]));
    }
  }

  /** There is only one ascending list of given members. */
  lemma {:induction false} AscendingUnique(s: seq<Member>, t: seq<Member>)
    requires Ascending(s) && Ascending(t)
    requires forall x :: x in s <==> x in t
    ensures s == t
  {
    assert t != [] ==> t[0] in s;
    assert s != [] ==> s[0] in t;
    if s != [] {
      FirstIsLeast(s, t[0]);
      FirstIsLeast(t, s[0]);
      if s[0] != t[0] {
        KeyTransitive(s[0].key, t[0].key, s[0].key);
        KeyIrreflexive(s[0].key);
      }
      forall x ensures x in s[1..] <==> x in t[1..] {
        TailMembers(s, x);
        TailMembers(t, x);
      }
      AscendingUnique(s[1..], t[1..]);
      assert s == [s[0]] + s[1..] && t == [t[0]] + t[1..];
    }
  }

  lemma FirstIsLeast(s: seq<Member>, x: Member)
    requires Ascending(s) && x in s
    ensures x == s[0] || KeyLess(s[0].key, x.key)
  {
  }

  lemma TailMembers(s: seq<Member>, x: Member)
    requires Ascending(s) && s != []
    ensures x in s[1..] <==> x in s && x != s[0]
  {
    KeyIrreflexive(s[0].key);
    assert s == [s[0]] + s[1..];
    if x in s[1..] {
      var k :| 0 <= k < |s[1..]| && s[1..][k] == x;
      assert s[k + 1] == x;
    }
  }

  // ---------------------------------------------------------------- what a tree means

  /** A tree with the order of keys forgotten: an object is a finite map. */
  datatype Meaning =
    | MNull
    | MBoolean(b: bool)
    | MNumber(n: JsNumber)
    | MString(s: JsString)
    | MArray(items: seq<Meaning>)
    | MObject(fields: map<JsString, Meaning>)
    | MBlank

  function MeaningOf(j: Json): Meaning {
    match j
    case Null => MNull
    case Boolean(b) => MBoolean(b)
    case Number(n) => MNumber(n)
    case String(s) => MString(s)
    case Array(items) => MArray(MeaningsOf(items))
    case Object(members) => MObject(FieldsOf(members))
    case Blank => MBlank
  }

  function MeaningsOf(items: seq<Json>): (r: seq<Meaning>)
    ensures |r| == |items|
  {
    if items == [] then [] else [MeaningOf(items[0])] + MeaningsOf(items[1..])
  }

  function FieldsOf(ms: seq<Member>): map<JsString, Meaning> {
    if ms == [] then map[] else FieldsOf(ms[1..])[ms[0].key := MeaningOf(ms[0].value)]
  }

  lemma {:induction false} MeaningsAt(items: seq<Json>, i: nat)
    requires i < |items|
    ensures MeaningsOf(items)[i] == MeaningOf(items[i])
  {
    if i > 0 {
      MeaningsAt(items[1..], i - 1);
    }
  }

  lemma {:induction false} FieldsAt(ms: seq<Member>)
    requires DistinctKeys(ms)
    ensures forall i :: 0 <= i < |ms| ==>
              ms[i].key in FieldsOf(ms) && FieldsOf(ms)[ms[i].key] == MeaningOf(ms[i].value)
    ensures forall k :: k in FieldsOf(ms) ==> exists i :: 0 <= i < |ms| && ms[i].key == k
  {
    if ms != [] {
      assert DistinctKeys(ms[1..]);
      FieldsAt(ms[1..]);
      forall i | 0 <= i < |ms|
        ensures ms[i].key in FieldsOf(ms) && FieldsOf(ms)[ms[i].key] == MeaningOf(ms[i].value)
      {
        if i > 0 {
          assert ms[1..][i - 1] == ms[i];
        }
      }
      forall k | k in FieldsOf(ms) ensures exists i :: 0 <= i < |ms| && ms[i].key == k {
        if k != ms[0].key {
          var i :| 0 <= i < |ms[1..]| && ms[1..][i].key == k;
          assert ms[i + 1].key == k;
        }
      }
    }
  }

  /** Keys are distinct in every object of the tree, as they are in every JavaScript object, and no property is an empty slot. */
  predicate WellFormed(j: Json) {
    match j
    case Array(items) => forall i :: 0 <= i < |items| ==> WellFormed(items[i])
    case Object(members) =>
      && DistinctKeys(members)
      && forall i :: 0 <= i < |members| ==> !members[i].value.Blank? && WellFormed(members[i].value)
    case _ => true
  }

  // ---------------------------------------------------------------- normal form

  /** The same tree with the members of every object sorted. */
  function Normal(j: Json): Json {
    match j
    case Array(items) => Array(NormalItems(items))
    case Object(members) => Object(SortMembers(NormalMembers(members)))
    case _ => j
  }

  function NormalItems(items: seq<Json>): (r: seq<Json>)
    ensures |r| == |items|
  {
    if items == [] then [] else [Normal(items[0])] + NormalItems(items[1..])
  }

  function NormalMembers(ms: seq<Member>): (r: seq<Member>)
    ensures |r| == |ms|
  {
    if ms == [] then [] else [Member(ms[0].key, Normal(ms[0].value))] + NormalMembers(ms[1..])
  }

  lemma {:induction false} NormalItemsAt(items: seq<Json>)
    ensures forall i :: 0 <= i < |items| ==> NormalItems(items)[i] == Normal(items[i])
  {
    if items != [] {
      NormalItemsAt(items[1..]);
    }
  }

  lemma {:induction false} NormalMembersAt(ms: seq<Member>)
    ensures forall i :: 0 <= i < |ms| ==> NormalMembers(ms)[i] == Member(ms[i].key, Normal(ms[i].value))
  {
    if ms != [] {
      NormalMembersAt(ms[1..]);
    }
  }

  /** Trees of one meaning have one normal form. */
  lemma {:induction false} NormalOfMeaning(a: Json, b: Json)
    requires WellFormed(a) && WellFormed(b) && MeaningOf(a) == MeaningOf(b)
    ensures Normal(a) == Normal(b)
    decreases a
  {
    match a
    case Array(items) =>
      NormalItemsAt(items);
      NormalItemsAt(b.items);
      forall i | 0 <= i < |items| ensures NormalItems(items)[i] == NormalItems(b.items)[i] {
        MeaningsAt(items, i);
        MeaningsAt(b.items, i);
        NormalOfMeaning(items[i], b.items[i]);
      }
      assert NormalItems(items) == NormalItems(b.items);
    case Object(members) =>
      FieldsAt(members);
      FieldsAt(b.members);
      NormalMembersAt(members);
      NormalMembersAt(b.members);
      forall i, j | 0 <= i < |members| && 0 <= j < |b.members| && members[i].key == b.members[j].key
        ensures NormalMembers(members)[i] == NormalMembers(b.members)[j]
      {
        NormalOfMeaning(members[i].value, b.members[j].value);
      }
      SameMembers(members, b.members);
      SortAscending(NormalMembers(members));
      SortAscending(NormalMembers(b.members));
      AscendingUnique(SortMembers(NormalMembers(members)), SortMembers(NormalMembers(b.members)));
    case _ =>
  }

  lemma SameMembers(ms: seq<Member>, ns: seq<Member>)
    requires DistinctKeys(ms) && DistinctKeys(ns) && FieldsOf(ms) == FieldsOf(ns)
    requires forall i, j :: 0 <= i < |ms| && 0 <= j < |ns| && ms[i].key == ns[j].key ==>
               NormalMembers(ms)[i] == NormalMembers(ns)[j]
    ensures forall x :: x in NormalMembers(ms) <==> x in NormalMembers(ns)
    ensures DistinctKeys(NormalMembers(ms)) && DistinctKeys(NormalMembers(ns))
  {
    hide FieldsOf, NormalMembers, MeaningOf, Normal;
    FieldsAt(ms);
    FieldsAt(ns);
    NormalMembersAt(ms);
    NormalMembersAt(ns);
    forall x | x in NormalMembers(ms) ensures x in NormalMembers(ns) {
      var i :| 0 <= i < |ms| && NormalMembers(ms)[i] == x;
      assert ms[i].key in FieldsOf(ns);
      var j :| 0 <= j < |ns| && ns[j].key == ms[i].key;
    }
    forall x | x in NormalMembers(ns) ensures x in NormalMembers(ms) {
      var j :| 0 <= j < |ns| && NormalMembers(ns)[j] == x;
      assert ns[j].key in FieldsOf(ms);
      var i :| 0 <= i < |ms| && ms[i].key == ns[j].key;
    }
  }

  /** Lists of distinct keys with the same members describe the same map. */
  lemma SameFields(ms: seq<Member>, ns: seq<Member>)
    requires DistinctKeys(ms) && DistinctKeys(ns)
    requires forall x :: x in ms <==> x in ns
    ensures FieldsOf(ms) == FieldsOf(ns)
  {
    hide FieldsOf, MeaningOf, DistinctKeys;
    FieldsAt(ms);
    FieldsAt(ns);
    forall k | k in FieldsOf(ms) ensures k in FieldsOf(ns) && FieldsOf(ms)[k] == FieldsOf(ns)[k] {
      var i :| 0 <= i < |ms| && ms[i].key == k;
      assert ms[i] in ns;
    }
    forall k | k in FieldsOf(ns) ensures k in FieldsOf(ms) {
      var i :| 0 <= i < |ns| && ns[i].key == k;
      assert ns[i] in ms;
    }
  }

  lemma {:induction false} NormalKeepsMeaning(j: Json)
    requires WellFormed(j)
    ensures MeaningOf(Normal(j)) == MeaningOf(j)
    decreases j, 1
  {
    match j
    case Array(items) => NormalKeepsItems(items);
    case Object(members) =>
      var ms := NormalMembers(members);
      NormalKeepsFields(members);
      NormalMembersAt(members);
      SortAscending(ms);
      AscendingDistinct(SortMembers(ms));
      SameFields(ms, SortMembers(ms));
    case _ =>
  }

  lemma {:induction false} NormalKeepsItems(items: seq<Json>)
    requires forall i :: 0 <= i < |items| ==> WellFormed(items[i])
    ensures MeaningsOf(NormalItems(items)) == MeaningsOf(items)
    decreases items, 0
  {
    if items != [] {
      NormalKeepsMeaning(items[0]);
      NormalKeepsItems(items[1..]);
    }
  }

  lemma {:induction false} NormalKeepsFields(ms: seq<Member>)
    requires forall i :: 0 <= i < |ms| ==> WellFormed(ms[i].value)
    ensures FieldsOf(NormalMembers(ms)) == FieldsOf(ms)
    decreases ms, 0
  {
    if ms != [] {
      NormalKeepsMeaning(ms[0].value);
      NormalKeepsFields(ms[1..]);
    }
  }

  lemma AscendingDistinct(ms: seq<Member>)
    requires Ascending(ms)
    ensures DistinctKeys(ms)
  {
    forall i, j | 0 <= i < j < |ms| ensures ms[i].key != ms[j].key {
      KeyIrreflexive(ms[i].key);
    }
  }

  // ---------------------------------------------------------------- empty slots

  /** The same tree with every array of a single empty slot replaced by the empty array. */
  function Trim(j: Json): Json {
    match j
    case Array(items) => if items == [Blank] then Array([]) else Array(TrimItems(items))
    case Object(members) => Object(TrimMembers(members))
    case _ => j
  }

  function TrimItems(items: seq<Json>): (r: seq<Json>)
    ensures |r| == |items|
  {
    if items == [] then [] else [Trim(items[0])] + TrimItems(items[1..])
  }

  function TrimMembers(ms: seq<Member>): (r: seq<Member>)
    ensures |r| == |ms|
  {
    if ms == [] then [] else [Member(ms[0].key, Trim(ms[0].value))] + TrimMembers(ms[1..])
  }

  lemma {:induction false} TrimItemsAt(items: seq<Json>)
    ensures forall i :: 0 <= i < |items| ==> TrimItems(items)[i] == Trim(items[i])
  {
    if items != [] {
      TrimItemsAt(items[1..]);
    }
  }

  lemma {:induction false} TrimMembersAt(ms: seq<Member>)
    ensures forall i :: 0 <= i < |ms| ==> TrimMembers(ms)[i] == Member(ms[i].key, Trim(ms[i].value))
  {
    if ms != [] {
      TrimMembersAt(ms[1..]);
    }
  }

  /** Only an empty slot trims, or sorts, to an empty slot. */
  lemma BlankStays(j: Json)
    ensures Trim(j).Blank? <==> j.Blank?
    ensures Normal(j).Blank? <==> j.Blank?
  {
  }

  lemma {:induction false} TrimWellFormed(j: Json)
    requires WellFormed(j)
    ensures WellFormed(Trim(j))
    decreases j
  {
    match j
    case Array(items) =>
      TrimItemsAt(items);
      forall i | 0 <= i < |items| ensures WellFormed(TrimItems(items)[i]) {
        TrimWellFormed(items[i]);
      }
    case Object(members) =>
      TrimMembersAt(members);
      forall i | 0 <= i < |members|
        ensures !TrimMembers(members)[i].value.Blank? && WellFormed(TrimMembers(members)[i].value)
      {
        BlankStays(members[i].value);
        TrimWellFormed(members[i].value);
      }
    case _ =>
  }

  lemma {:induction false} InsertTrim(m: Member, ms: seq<Member>)
    ensures TrimMembers(Insert(m, ms)) == Insert(Member(m.key, Trim(m.value)), TrimMembers(ms))
  {
    if ms != [] && !KeyLess(m.key, ms[0].key) {
      InsertTrim(m, ms[1..]);
    } else {
      assert ([m] + ms)[1..] == ms;
    }
  }

  lemma {:induction false} SortTrim(ms: seq<Member>)
    ensures TrimMembers(SortMembers(ms)) == SortMembers(TrimMembers(ms))
  {
    if ms != [] {
      SortTrim(ms[1..]);
      InsertTrim(ms[0], SortMembers(ms[1..]));
    }
  }

  /** Trimming and sorting do not disturb each other. */
  lemma {:induction false} TrimNormal(j: Json)
    ensures Normal(Trim(j)) == Trim(Normal(j))
    decreases j, 1
  {
    hide SortMembers;
    match j
    case Array(items) =>
      TrimNormalItems(items);
      SingleBlank(items);
    case Object(members) =>
      TrimNormalMembers(members);
      SortTrim(NormalMembers(members));
    case _ =>
  }

  lemma SingleBlank(items: seq<Json>)
    ensures NormalItems(items) == [Blank] <==> items == [Blank]
  {
    if |items| == 1 {
      NormalItemsAt(items);
      BlankStays(items[0]);
    }
  }

  lemma {:induction false} TrimNormalItems(items: seq<Json>)
    ensures NormalItems(TrimItems(items)) == TrimItems(NormalItems(items))
    decreases items, 0
  {
    if items != [] {
      TrimNormal(items[0]);
      TrimNormalItems(items[1..]);
    }
  }

  lemma {:induction false} TrimNormalMembers(ms: seq<Member>)
    ensures NormalMembers(TrimMembers(ms)) == TrimMembers(NormalMembers(ms))
    decreases ms, 0
  {
    if ms != [] {
      TrimNormal(ms[0].value);
      TrimNormalMembers(ms[1..]);
    }
  }

  /** No empty slot at any depth: a value that JSON text can stand for. */
  predicate Dense(j: Json) {
    match j
    case Array(items) => forall i :: 0 <= i < |items| ==> Dense(items[i])
    case Object(members) => forall i :: 0 <= i < |members| ==> Dense(members[i].value)
    case Blank => false
    case _ => true
  }

  /** There is nothing to trim in such a value. */
  lemma {:induction false} DenseUntrimmed(j: Json)
    requires Dense(j)
    ensures Trim(j) == j
    decreases j
  {
    match j
    case Array(items) =>
      TrimItemsAt(items);
      forall i | 0 <= i < |items| ensures TrimItems(items)[i] == items[i] {
        DenseUntrimmed(items[i]);
      }
      assert TrimItems(items) == items;
    case Object(members) =>
      TrimMembersAt(members);
      forall i | 0 <= i < |members| ensures TrimMembers(members)[i] == members[i] {
        DenseUntrimmed(members[i].value);
      }
      assert TrimMembers(members) == members;
    case _ =>
  }
}
