/**
 `canonicalize` on what it is really given: JavaScript values with object identity, possibly shared or
 cyclic (packages/server/src/evidence/canonical.ts).
 */
module CanonicalGraph {
  import opened Wrappers
  import opened Bytes
  import opened Text
  import opened JsonStrings
  import opened Json
  import opened CanonicalText

  type Ref = nat

  datatype Value =
    | VNull
    | VBoolean(b: bool)
    | VNumber(n: JsNumber)
    | VString(s: JsString)
    | VBigInt
    | VUndefined
    | VCallable        // a function or a symbol
    | VRef(id: Ref)

  /** An array slot can be empty; `map` passes over such a slot and `join` prints nothing for it. */
  datatype Slot = Hole | Filled(v: Value)

  datatype Node =
    | NArray(slots: seq<Slot>)
    | NDate(iso: Option<JsString>)    // None: an invalid Date
    | NRecord(keys: seq<JsString>, props: map<JsString, Value>)

  type Heap = map<Ref, Node>

  predicate Known(g: Heap, v: Value) {
    v.VRef? ==> v.id in g
  }

  predicate NodeOk(g: Heap, n: Node) {
    match n
    case NArray(slots) => forall s :: s in slots && s.Filled? ==> Known(g, s.v)
    case NDate(_) => true
    case NRecord(keys, props) =>
      && (forall i, j :: 0 <= i < j < |keys| ==> keys[i] != keys[j])
      && (forall k :: k in keys ==> k in props) && (forall k :: k in props ==> k in keys)
      && (forall k :: k in props ==> Known(g, props[k]))
  }

  /** A heap without dangling references, each record listing each of its keys once. */
  predicate Closed(g: Heap) {
    forall id :: id in g ==> NodeOk(g, g[id])
  }

  datatype Step = Index(i: nat) | Key(k: JsString)

  datatype Problem = NotFinite | NegativeZero | BigIntValue | UndefinedValue | NotData | Circular | InvalidDate

  datatype CanonError = CanonError(problem: Problem, path: seq<Step>)

  // ---------------------------------------------------------------- sorting keys

  function InsertKey(k: JsString, ks: seq<JsString>): (r: seq<JsString>)
    ensures forall x :: x in r <==> x == k || x in ks
  {
    if ks == [] || KeyLess(k, ks[0]) then [k] + ks else [ks[0]] + InsertKey(k, ks[1..])
  }

  function SortKeys(ks: seq<JsString>): (r: seq<JsString>)
    ensures forall x :: x in r <==> x in ks
  {
    if ks == [] then [] else InsertKey(ks[0], SortKeys(ks[1..]))
  }

  predicate AscendingKeys(ks: seq<JsString>) {
    ks == [] || ((forall x :: x in ks[1..] ==> KeyLess(ks[0], x)) && AscendingKeys(ks[1..]))
  }

  predicate DistinctStrings(ks: seq<JsString>) {
    forall i, j :: 0 <= i < j < |ks| ==> ks[i] != ks[j]
  }

  lemma {:induction false} InsertKeyAscending(k: JsString, ks: seq<JsString>)
    requires AscendingKeys(ks) && k !in ks
    ensures AscendingKeys(InsertKey(k, ks))
  {
    if ks != [] {
      if KeyLess(k, ks[0]) {
        assert ([k] + ks)[1..] == ks;
        forall x | x in ks ensures KeyLess(k, x) {
          if x != ks[0] {
            assert x in ks[1..];
            KeyTransitive(k, ks[0], x);
          }
        }
      } else {
        KeyTotal(k, ks[0]);
        InsertKeyAscending(k, ks[1..]);
      }
    }
  }

  lemma {:induction false} SortKeysAscending(ks: seq<JsString>)
    requires DistinctStrings(ks)
    ensures AscendingKeys(SortKeys(ks))
  {
    if ks != [] {
      assert DistinctStrings(ks[1..]);
      SortKeysAscending(ks[1..]);
      InsertKeyAscending(ks[0], SortKeys(ks[1..]));
    }
  }

  // ---------------------------------------------------------------- the printer

  /** What is wrong with a value before anything below it is looked at. */
  function OwnProblem(g: Heap, v: Value, ancestors: set<Ref>): Option<Problem>
    requires Known(g, v)
  {
    match v
    case VNumber(n) => if n.Exact? then None else if n.MinusZero? then Some(NegativeZero) else Some(NotFinite)
    case VBigInt => Some(BigIntValue)
    case VUndefined => Some(UndefinedValue)
    case VCallable => Some(NotData)
    case VRef(id) =>
      if id in ancestors then Some(Circular)
      else if g[id] == NDate(None) then Some(InvalidDate) else None
    case _ => None
  }

  function WriteValue(g: Heap, v: Value, path: seq<Step>, seen: set<Ref>): Result<JsString, CanonError>
    requires Closed(g) && Known(g, v)
    decreases |g.Keys - seen|, 0
  {
    match OwnProblem(g, v, seen)
    case Some(p) => Err(CanonError(p, path))
    case None =>
      match v
      case VNull => Ok(NULL_TEXT)
      case VBoolean(b) => Ok(if b then TRUE_TEXT else FALSE_TEXT)
      case VNumber(n) => Ok(StringifyNumber(n))
      case VString(s) => Ok(Quote(s))
      case VRef(id) =>
        FewerUnseen(g, id, seen);
        (match g[id]
         case NArray(slots) =>
           (match WriteSlots(g, slots, 0, path, seen + {id})
            case Err(e) => Err(e)
            case Ok(parts) => Ok([LBRACKET] + Join(parts) + [RBRACKET]))
         case NDate(iso) => Ok(Quote(iso.value))
         case NRecord(keys, props) =>
           (match WriteKeys(g, props, SortKeys(keys), path, seen + {id})
            case Err(e) => Err(e)
            case Ok(parts) => Ok([LBRACE] + Join(parts) + [RBRACE])))
  }

  lemma FewerUnseen(g: Heap, id: Ref, seen: set<Ref>)
    requires id in g && id !in seen
    ensures |g.Keys - (seen + {id})| < |g.Keys - seen|
  {
    assert g.Keys - (seen + {id}) == (g.Keys - seen) - {id};
  }

  type Parts = Result<seq<JsString>, CanonError>

  function Prepend(parts: seq<JsString>, r: Parts): Parts {
    match r
    case Err(e) => r
    case Ok(rest) => Ok(parts + rest)
  }

  lemma PrependAll(parts: seq<JsString>, part: JsString, r: Parts)
    ensures Prepend([], r) == r
    ensures Prepend(parts, Prepend([part], r)) == Prepend(parts + [part], r)
  {
    if r.Ok? {
      assert [] + r.value == r.value;
      assert parts + ([part] + r.value) == (parts + [part]) + r.value;
    }
  }

  lemma PrependErr(parts: seq<JsString>, e: CanonError)
    ensures Prepend(parts, Err(e)) == Err(e)
  {
  }

  lemma PrependEnd(parts: seq<JsString>)
    ensures Prepend(parts, Ok([])) == Ok(parts)
  {
    assert parts + [] == parts;
  }

  /** One part for every slot from i on; the part of a hole is empty. */
  function WriteSlots(g: Heap, slots: seq<Slot>, i: nat, path: seq<Step>, seen: set<Ref>)
    : Parts
    requires Closed(g) && i <= |slots| && forall s :: s in slots && s.Filled? ==> Known(g, s.v)
    decreases |g.Keys - seen|, 1 + |slots| - i
  {
    if i == |slots| then Ok([])
    else
      match if slots[i].Hole? then Ok([]) else WriteValue(g, slots[i].v, path + [Index(i)], seen)
      case Err(e) => Err(e)
      case Ok(part) => Prepend([part], WriteSlots(g, slots, i + 1, path, seen))
  }

  /** One part for every key, in the given order, whose property is not undefined. */
  function WriteKeys(g: Heap, props: map<JsString, Value>, keys: seq<JsString>, path: seq<Step>, seen: set<Ref>)
    : Parts
    requires Closed(g) && (forall k :: k in keys ==> k in props) && forall k :: k in props ==> Known(g, props[k])
    decreases |g.Keys - seen|, 1 + |keys|
  {
    if keys == [] then Ok([])
    else
      var k := keys[0];
      if props[k].VUndefined? then WriteKeys(g, props, keys[1..], path, seen)
      else
        match WriteValue(g, props[k], path + [Key(k)], seen)
        case Err(e) => Err(e)
        case Ok(text) => Prepend([Quote(k) + [COLON] + text], WriteKeys(g, props, keys[1..], path, seen))
  }

  /** Unfolding one step of the printer at an object. */
  lemma WriteRef(g: Heap, id: Ref, path: seq<Step>, seen: set<Ref>)
    requires Closed(g) && id in g
    ensures id in seen ==> WriteValue(g, VRef(id), path, seen) == Err(CanonError(Circular, path))
    ensures id !in seen ==>
              WriteValue(g, VRef(id), path, seen)
              == match g[id]
                 case NArray(slots) =>
                   (match WriteSlots(g, slots, 0, path, seen + {id})
                    case Err(e) => Err(e)
                    case Ok(parts) => Ok([LBRACKET] + Join(parts) + [RBRACKET]))
                 case NDate(iso) => if iso.None? then Err(CanonError(InvalidDate, path)) else Ok(Quote(iso.value))
                 case NRecord(keys, props) =>
                   (match WriteKeys(g, props, SortKeys(keys), path, seen + {id})
                    case Err(e) => Err(e)
                    case Ok(parts) => Ok([LBRACE] + Join(parts) + [RBRACE]))
  {
    hide WriteSlots, WriteKeys, Join, Quote, SortKeys;
  }

  /** The ancestors of the value being written, shared by all the recursive calls. */
  class SeenSet {
    var ids: set<Ref>

    constructor ()
      ensures ids == {}
    {
      ids := {};
    }
  }

  /** The recursion as the source runs it: one mutable set, to which every object is added and from which it is removed. */
  method Write(g: Heap, v: Value, path: seq<Step>, seen: SeenSet) returns (r: Result<JsString, CanonError>)
    requires Closed(g) && Known(g, v)
    modifies seen
    ensures seen.ids == old(seen.ids)
    ensures r == WriteValue(g, v, path, old(seen.ids))
    decreases |g.Keys - seen.ids|, 1
  {
    match v {
      case VNull => return Ok(NULL_TEXT);
      case VBoolean(b) => return Ok(if b then TRUE_TEXT else FALSE_TEXT);
      case VNumber(n) =>
        if !n.Exact? && !n.MinusZero? {
          return Err(CanonError(NotFinite, path));
        }
        if n.MinusZero? {
          return Err(CanonError(NegativeZero, path));
        }
        return Ok(StringifyNumber(n));
      case VString(s) => return Ok(Quote(s));
      case VBigInt => return Err(CanonError(BigIntValue, path));
      case VUndefined => return Err(CanonError(UndefinedValue, path));
      case VCallable => return Err(CanonError(NotData, path));
      case VRef(id) => r := WriteObject(g, id, path, seen);
    }
  }

  /** The second half of `write`: objects and arrays, under the cycle check. */
  method WriteObject(g: Heap, id: Ref, path: seq<Step>, seen: SeenSet) returns (r: Result<JsString, CanonError>)
    requires Closed(g) && id in g
    modifies seen
    ensures seen.ids == old(seen.ids)
    ensures r == WriteValue(g, VRef(id), path, old(seen.ids))
    decreases |g.Keys - seen.ids|, 0
  {
    hide WriteValue, WriteSlots, WriteKeys, Join, Quote, SortKeys;
    WriteRef(g, id, path, seen.ids);
    if id in seen.ids {
      return Err(CanonError(Circular, path));
    }
    FewerUnseen(g, id, seen.ids);
    ghost var before := seen.ids;
    seen.ids := seen.ids + {id};
    match g[id] {
      case NArray(slots) =>
        var parts := WriteAllSlots(g, slots, path, seen);
        r := match parts case Err(e) => Err(e) case Ok(ps) => Ok([LBRACKET] + Join(ps) + [RBRACKET]);
      case NDate(iso) =>
        r := if iso.None? then Err(CanonError(InvalidDate, path)) else Ok(Quote(iso.value));
      case NRecord(keys, props) =>
        var parts := WriteAllKeys(g, props, SortKeys(keys), path, seen);
        r := match parts case Err(e) => Err(e) case Ok(ps) => Ok([LBRACE] + Join(ps) + [RBRACE]);
    }
    seen.ids := seen.ids - {id};
    assert before + {id} - {id} == before;
  }

  method WriteAllSlots(g: Heap, slots: seq<Slot>, path: seq<Step>, seen: SeenSet)
    returns (r: Parts)
    requires Closed(g) && forall s :: s in slots && s.Filled? ==> Known(g, s.v)
    modifies seen
    ensures seen.ids == old(seen.ids)
    ensures r == WriteSlots(g, slots, 0, path, old(seen.ids))
    decreases |g.Keys - seen.ids|, 2
  {
    hide WriteValue, Prepend, Closed;
    ghost var ancestors := seen.ids;
    var parts: seq<JsString> := [];
    PrependAll([], [], WriteSlots(g, slots, 0, path, ancestors));
    var i := 0;
    while i < |slots|
      invariant 0 <= i <= |slots|
      invariant seen.ids == ancestors
      invariant WriteSlots(g, slots, 0, path, ancestors) == Prepend(parts, WriteSlots(g, slots, i, path, ancestors))
    {
      assert slots[i] in slots;
      var part: JsString := [];
      if slots[i].Filled? {
        var written := Write(g, slots[i].v, path + [Index(i)], seen);
        if written.Err? {
          PrependErr(parts, written.error);
          return Err(written.error);
        }
        part := written.value;
      }
      PrependAll(parts, part, WriteSlots(g, slots, i + 1, path, ancestors));
      parts := parts + [part];
      i := i + 1;
    }
    PrependEnd(parts);
    r := Ok(parts);
  }

  method WriteAllKeys(g: Heap, props: map<JsString, Value>, keys: seq<JsString>, path: seq<Step>, seen: SeenSet)
    returns (r: Parts)
    requires Closed(g) && (forall k :: k in keys ==> k in props) && forall k :: k in props ==> Known(g, props[k])
    modifies seen
    ensures seen.ids == old(seen.ids)
    ensures r == WriteKeys(g, props, keys, path, old(seen.ids))
    decreases |g.Keys - seen.ids|, 2
  {
    hide WriteValue, Prepend, Closed, Quote;
    ghost var ancestors := seen.ids;
    var parts: seq<JsString> := [];
    assert keys[0..] == keys;
    PrependAll([], [], WriteKeys(g, props, keys, path, ancestors));
    var i := 0;
    while i < |keys|
      invariant 0 <= i <= |keys|
      invariant seen.ids == ancestors
      invariant WriteKeys(g, props, keys, path, ancestors) == Prepend(parts, WriteKeys(g, props, keys[i..], path, ancestors))
    {
      var k := keys[i];
      assert keys[i..][0] == k && keys[i..][1..] == keys[i + 1..];
      if !props[k].VUndefined? {
        var written := Write(g, props[k], path + [Key(k)], seen);
        if written.Err? {
          PrependErr(parts, written.error);
          return Err(written.error);
        }
        PrependAll(parts, Quote(k) + [COLON] + written.value, WriteKeys(g, props, keys[i + 1..], path, ancestors));
        parts := parts + [Quote(k) + [COLON] + written.value];
      }
      i := i + 1;
    }
    assert keys[i..] == [];
    PrependEnd(parts);
    r := Ok(parts);
  }

  method Canonicalize(g: Heap, v: Value) returns (r: Result<JsString, CanonError>)
    requires Closed(g) && Known(g, v)
    ensures r == WriteValue(g, v, [], {})
  {
    var seen := new SeenSet();
    r := Write(g, v, [], seen);
  }
}
