/** When `canonicalize` refuses an object graph, and what it prints when it does not. */
module CanonicalGraphTheorems {
  import opened Wrappers
  import opened Bytes
  import opened Text
  import opened JsonStrings
  import opened Json
  import opened CanonicalText
  import opened CanonicalGraph

  // ---------------------------------------------------------------- refusal

  /** The child a step leads to. A property that is undefined is skipped, and so is a hole. */
  function Child(g: Heap, v: Value, step: Step): Option<Value>
    requires Closed(g) && Known(g, v)
  {
    if !v.VRef? then None
    else
      match (g[v.id], step)
      case (NArray(slots), Index(i)) => if i < |slots| && slots[i].Filled? then Some(slots[i].v) else None
      case (NRecord(_, props), Key(k)) => if k in props && !props[k].VUndefined? then Some(props[k]) else None
      case _ => None
  }

  lemma ChildKnown(g: Heap, v: Value, step: Step)
    requires Closed(g) && Known(g, v) && Child(g, v, step).Some?
    ensures Known(g, Child(g, v, step).value) && v.VRef? && v.id in g
  {
    match (g[v.id], step)
    case (NArray(slots), Index(i)) => assert slots[i] in slots;
    case _ =>
  }

  /**
   The problem found at the end of a walk from v: a rejected value, an invalid date, or a reference back to
   one of the objects the walk has come through.
   */
  function ProblemAt(g: Heap, v: Value, steps: seq<Step>, ancestors: set<Ref>): Option<Problem>
    requires Closed(g) && Known(g, v)
    decreases |steps|
  {
    if steps == [] then OwnProblem(g, v, ancestors)
    else
      match Child(g, v, steps[0])
      case None => None
      case Some(child) =>
        ChildKnown(g, v, steps[0]);
        ProblemAt(g, child, steps[1..], ancestors + {v.id})
  }

  /** An error names a real problem at the path it reports. */
  lemma {:induction false} ErrorIsReal(g: Heap, v: Value, path: seq<Step>, seen: set<Ref>)
    requires Closed(g) && Known(g, v) && WriteValue(g, v, path, seen).Err?
    ensures var e := WriteValue(g, v, path, seen).error;
            path <= e.path && ProblemAt(g, v, e.path[|path|..], seen) == Some(e.problem)
    decreases |g.Keys - seen|, 0
  {
    hide Closed;
    var e := WriteValue(g, v, path, seen).error;
    if OwnProblem(g, v, seen).Some? {
      assert e.path[|path|..] == [];
    } else {
      FewerUnseen(g, v.id, seen);
      match g[v.id]
      case NArray(slots) =>
        NodeChildren(g, v);
        var i := SlotError(g, slots, 0, path, seen + {v.id});
        ErrorStep(g, v, Index(i), path, seen, e);
      case NRecord(keys, props) =>
        NodeChildren(g, v);
        var k := KeyError(g, props, SortKeys(keys), path, seen + {v.id});
        ErrorStep(g, v, Key(k), path, seen, e);
    }
  }

  lemma NodeChildren(g: Heap, v: Value)
    requires Closed(g) && Known(g, v) && v.VRef?
    ensures g[v.id].NArray? ==> forall s :: s in g[v.id].slots && s.Filled? ==> Known(g, s.v)
    ensures g[v.id].NRecord? ==>
              && (forall k :: k in g[v.id].keys ==> k in g[v.id].props)
              && (forall k :: k in g[v.id].props ==> k in g[v.id].keys)
              && (forall k :: k in g[v.id].props ==> Known(g, g[v.id].props[k]))
              && DistinctStrings(g[v.id].keys)
  {
    assert NodeOk(g, g[v.id]);
  }

  lemma ErrorStep(g: Heap, v: Value, step: Step, path: seq<Step>, seen: set<Ref>, e: CanonError)
    requires Closed(g) && Known(g, v) && Child(g, v, step).Some? && Known(g, Child(g, v, step).value)
    requires path + [step] <= e.path
    requires ProblemAt(g, Child(g, v, step).value, e.path[|path| + 1..], seen + {v.id}) == Some(e.problem)
    ensures path <= e.path && ProblemAt(g, v, e.path[|path|..], seen) == Some(e.problem)
  {
    var rest := e.path[|path|..];
    assert rest[0] == step by {
      assert e.path[|path|] == (path + [step])[|path|];
    }
    assert rest[1..] == e.path[|path| + 1..];
  }

  lemma {:induction false} SlotError(g: Heap, slots: seq<Slot>, i: nat, path: seq<Step>, seen: set<Ref>) returns (k: nat)
    requires Closed(g) && i <= |slots| && forall s :: s in slots && s.Filled? ==> Known(g, s.v)
    requires WriteSlots(g, slots, i, path, seen).Err?
    ensures i <= k < |slots| && slots[k].Filled? && Known(g, slots[k].v)
    ensures var e := WriteSlots(g, slots, i, path, seen).error;
            path + [Index(k)] <= e.path && ProblemAt(g, slots[k].v, e.path[|path| + 1..], seen) == Some(e.problem)
    decreases |g.Keys - seen|, 1 + |slots| - i
  {
    hide Closed, WriteValue, ProblemAt;
    assert slots[i] in slots;
    if slots[i].Filled? && WriteValue(g, slots[i].v, path + [Index(i)], seen).Err? {
      ErrorIsReal(g, slots[i].v, path + [Index(i)], seen);
      k := i;
    } else {
      k := SlotError(g, slots, i + 1, path, seen);
    }
  }

  lemma {:induction false} KeyError(g: Heap, props: map<JsString, Value>, keys: seq<JsString>, path: seq<Step>, seen: set<Ref>)
    returns (k: JsString)
    requires Closed(g) && (forall k :: k in keys ==> k in props) && forall k :: k in props ==> Known(g, props[k])
    requires WriteKeys(g, props, keys, path, seen).Err?
    ensures k in props && !props[k].VUndefined?
    ensures var e := WriteKeys(g, props, keys, path, seen).error;
            path + [Key(k)] <= e.path && ProblemAt(g, props[k], e.path[|path| + 1..], seen) == Some(e.problem)
    decreases |g.Keys - seen|, 1 + |keys|
  {
    hide Closed, WriteValue, ProblemAt, Quote;
    k := keys[0];
    if !props[k].VUndefined? && WriteValue(g, props[k], path + [Key(k)], seen).Err? {
      ErrorIsReal(g, props[k], path + [Key(k)], seen);
    } else {
      k := KeyError(g, props, keys[1..], path, seen);
    }
  }

  /** A problem at the end of any walk is an error of the whole. */
  lemma {:induction false} ProblemIsError(g: Heap, v: Value, steps: seq<Step>, path: seq<Step>, seen: set<Ref>)
    requires Closed(g) && Known(g, v) && ProblemAt(g, v, steps, seen).Some?
    ensures WriteValue(g, v, path, seen).Err?
    decreases |steps|
  {
    hide Closed;
    if steps != [] && OwnProblem(g, v, seen).None? {
      ChildKnown(g, v, steps[0]);
      NodeChildren(g, v);
      ProblemIsError(g, Child(g, v, steps[0]).value, steps[1..], path + [steps[0]], seen + {v.id});
      match g[v.id]
      case NArray(slots) => SlotsFail(g, slots, 0, steps[0].i, path, seen + {v.id});
      case NRecord(keys, props) => KeysFail(g, props, SortKeys(keys), steps[0].k, path, seen + {v.id});
    }
  }

  lemma {:induction false} SlotsFail(g: Heap, slots: seq<Slot>, i: nat, k: nat, path: seq<Step>, seen: set<Ref>)
    requires Closed(g) && i <= k < |slots| && forall s :: s in slots && s.Filled? ==> Known(g, s.v)
    requires slots[k].Filled? && Known(g, slots[k].v)
    requires WriteValue(g, slots[k].v, path + [Index(k)], seen).Err?
    ensures WriteSlots(g, slots, i, path, seen).Err?
    decreases |slots| - i
  {
    hide Closed, WriteValue;
    assert slots[i] in slots;
    if i < k {
      SlotsFail(g, slots, i + 1, k, path, seen);
    }
  }

  lemma {:induction false} KeysFail(g: Heap, props: map<JsString, Value>, keys: seq<JsString>, k: JsString, path: seq<Step>, seen: set<Ref>)
    requires Closed(g) && (forall k :: k in keys ==> k in props) && forall k :: k in props ==> Known(g, props[k])
    requires k in keys && !props[k].VUndefined? && WriteValue(g, props[k], path + [Key(k)], seen).Err?
    ensures WriteKeys(g, props, keys, path, seen).Err?
    decreases |keys|
  {
    hide Closed, WriteValue, Quote;
    if keys[0] != k {
      KeysFail(g, props, keys[1..], k, path, seen);
    }
  }

  /**
   `canonicalize` fails exactly when a rejected value, an invalid date or an ancestor can be reached through
   filled slots and defined properties. Sharing an object between two branches is no problem.
   */
  lemma RefusedExactlyWhen(g: Heap, v: Value)
    requires Closed(g) && Known(g, v)
    ensures WriteValue(g, v, [], {}).Err? <==> exists steps :: ProblemAt(g, v, steps, {}).Some?
  {
    if WriteValue(g, v, [], {}).Err? {
      ErrorIsReal(g, v, [], {});
    }
    forall steps | ProblemAt(g, v, steps, {}).Some? ensures WriteValue(g, v, [], {}).Err? {
      ProblemIsError(g, v, steps, [], {});
    }
  }

  // ---------------------------------------------------------------- what is printed

  /** The tree a value stands for, members in insertion order and empty slots kept; nothing for a value that has no JSON form. */
  function Unfold(g: Heap, v: Value, seen: set<Ref>): Option<Json>
    requires Closed(g) && Known(g, v)
    decreases |g.Keys - seen|, 0
  {
    if OwnProblem(g, v, seen).Some? then None
    else
      match v
      case VNull => Some(Null)
      case VBoolean(b) => Some(Boolean(b))
      case VNumber(n) => Some(Number(n))
      case VString(s) => Some(String(s))
      case VRef(id) =>
        FewerUnseen(g, id, seen);
        (match g[id]
         case NArray(slots) =>
           (match UnfoldSlots(g, slots, seen + {id}) case None => None case Some(items) => Some(Array(items)))
         case NDate(iso) => Some(String(iso.value))
         case NRecord(keys, props) =>
           (match UnfoldKeys(g, props, keys, seen + {id}) case None => None case Some(ms) => Some(Object(ms))))
  }

  function UnfoldSlots(g: Heap, slots: seq<Slot>, seen: set<Ref>): Option<seq<Json>>
    requires Closed(g) && forall s :: s in slots && s.Filled? ==> Known(g, s.v)
    decreases |g.Keys - seen|, 1 + |slots|
  {
    if slots == [] then Some([])
    else
      match (if slots[0].Hole? then Some(Blank) else Unfold(g, slots[0].v, seen), UnfoldSlots(g, slots[1..], seen))
      case (Some(j), Some(rest)) => Some([j] + rest)
      case _ => None
  }

  function UnfoldKeys(g: Heap, props: map<JsString, Value>, keys: seq<JsString>, seen: set<Ref>): Option<seq<Member>>
    requires Closed(g) && (forall k :: k in keys ==> k in props) && forall k :: k in props ==> Known(g, props[k])
    decreases |g.Keys - seen|, 1 + |keys|
  {
    if keys == [] then Some([])
    else if props[keys[0]].VUndefined? then UnfoldKeys(g, props, keys[1..], seen)
    else
      match (Unfold(g, props[keys[0]], seen), UnfoldKeys(g, props, keys[1..], seen))
      case (Some(j), Some(rest)) => Some([Member(keys[0], j)] + rest)
      case _ => None
  }

  /** A tree that a value can stand for: no number JSON cannot hold, and not an empty slot itself. */
  predicate IsValue(j: Json) {
    !j.Blank? && Clean(j) && WellFormed(j)
  }

  /** A printed value and the tree it stands for. */
  ghost predicate Matches(r: Result<JsString, CanonError>, j: Option<Json>) {
    match r
    case Err(_) => j.None?
    case Ok(text) => j.Some? && IsValue(j.value) && text == Print(Normal(j.value))
  }

  /** Unfolding one step of the tree at an object. */
  lemma UnfoldRef(g: Heap, id: Ref, seen: set<Ref>)
    requires Closed(g) && id in g && id !in seen
    ensures Unfold(g, VRef(id), seen)
            == match g[id]
               case NArray(slots) =>
                 (match UnfoldSlots(g, slots, seen + {id}) case None => None case Some(items) => Some(Array(items)))
               case NDate(iso) => if iso.None? then None else Some(String(iso.value))
               case NRecord(keys, props) =>
                 (match UnfoldKeys(g, props, keys, seen + {id}) case None => None case Some(ms) => Some(Object(ms)))
  {
    hide UnfoldSlots, UnfoldKeys;
  }

  lemma ArrayMatches(items: seq<Json>)
    requires forall x :: x in items ==> Clean(x) && WellFormed(x)
    ensures Matches(Ok([LBRACKET] + Join(PrintItems(NormalItems(items))) + [RBRACKET]), Some(Array(items)))
  {
    hide Join, PrintItems, NormalItems;
    assert Normal(Array(items)) == Array(NormalItems(items));
    BracketedText(Array(NormalItems(items)));
    forall i | 0 <= i < |items| ensures Clean(items[i]) && WellFormed(items[i]) {
      assert items[i] in items;
    }
  }

  lemma RecordMatches(ms: seq<Member>, sorted: seq<Member>)
    requires forall m :: m in ms ==> IsValue(m.value)
    requires DistinctKeys(ms) && SortMembers(NormalMembers(ms)) == NormalMembers(sorted)
    ensures Matches(Ok([LBRACE] + Join(PrintMembers(NormalMembers(sorted))) + [RBRACE]), Some(Object(ms)))
  {
    hide Join, PrintMembers, NormalMembers, SortMembers;
  }

  lemma {:induction false} WriteMatches(g: Heap, v: Value, path: seq<Step>, seen: set<Ref>)
    requires Closed(g) && Known(g, v)
    ensures Matches(WriteValue(g, v, path, seen), Unfold(g, v, seen))
    decreases |g.Keys - seen|, 0, 1
  {
    if v.VRef? {
      WriteRefMatches(g, v.id, path, seen);
    } else {
      hide Closed, Quote;
    }
  }

  lemma {:induction false} WriteRefMatches(g: Heap, id: Ref, path: seq<Step>, seen: set<Ref>)
    requires Closed(g) && id in g
    ensures Matches(WriteValue(g, VRef(id), path, seen), Unfold(g, VRef(id), seen))
    decreases |g.Keys - seen|, 0, 0
  {
    var v := VRef(id);
    WriteRef(g, id, path, seen);
    if id !in seen {
      UnfoldRef(g, id, seen);
      FewerUnseen(g, id, seen);
      NodeChildren(g, v);
      hide *;
      match g[id]
      case NArray(slots) =>
        SlotsMatch(g, slots, 0, path, seen + {id});
        assert slots[0..] == slots;
        var items := UnfoldSlots(g, slots, seen + {id});
        if items.Some? {
          ArrayMatches(items.value);
        } else {
          NothingMatches(WriteValue(g, v, path, seen));
        }
      case NRecord(keys, props) =>
        KeysMatch(g, props, SortKeys(keys), path, seen + {id});
        SortedMembers(g, props, keys, seen + {id});
        var ms := UnfoldKeys(g, props, keys, seen + {id});
        if ms.Some? {
          RecordMatches(ms.value, UnfoldKeys(g, props, SortKeys(keys), seen + {id}).value);
        } else {
          NothingMatches(WriteValue(g, v, path, seen));
        }
      case NDate(iso) =>
        if iso.Some? {
          DateMatches(iso.value);
        } else {
          NothingMatches(WriteValue(g, v, path, seen));
        }
    } else {
      assert Unfold(g, v, seen).None?;
    }
  }

  lemma NothingMatches(r: Result<JsString, CanonError>)
    ensures r.Err? ==> Matches(r, None)
  {
  }

  lemma DateMatches(s: JsString)
    ensures Matches(Ok(Quote(s)), Some(String(s)))
  {
    hide Quote;
  }

  lemma {:induction false} SlotsMatch(g: Heap, slots: seq<Slot>, i: nat, path: seq<Step>, seen: set<Ref>)
    requires Closed(g) && i <= |slots|
    requires forall s :: s in slots && s.Filled? ==> Known(g, s.v)
    ensures match WriteSlots(g, slots, i, path, seen)
            case Err(_) => UnfoldSlots(g, slots[i..], seen).None?
            case Ok(parts) =>
              var items := UnfoldSlots(g, slots[i..], seen);
              && items.Some? && (forall x :: x in items.value ==> Clean(x) && WellFormed(x))
              && parts == PrintItems(NormalItems(items.value))
    decreases |g.Keys - seen|, 1 + |slots| - i
  {
    hide Closed, WriteValue, Unfold, Print, Normal, Clean, WellFormed;
    if i < |slots| {
      assert slots[i] in slots && slots[i..][0] == slots[i] && slots[i..][1..] == slots[i + 1..];
      if slots[i].Filled? {
        WriteMatches(g, slots[i].v, path + [Index(i)], seen);
      } else {
        BlankText();
      }
      SlotsMatch(g, slots, i + 1, path, seen);
    }
  }

  lemma BlankText()
    ensures Clean(Blank) && WellFormed(Blank) && Print(Normal(Blank)) == []
  {
  }

  lemma {:induction false} KeysMatch(g: Heap, props: map<JsString, Value>, keys: seq<JsString>, path: seq<Step>, seen: set<Ref>)
    requires Closed(g)
    requires (forall k :: k in keys ==> k in props) && forall k :: k in props ==> Known(g, props[k])
    ensures match WriteKeys(g, props, keys, path, seen)
            case Err(_) => UnfoldKeys(g, props, keys, seen).None?
            case Ok(parts) =>
              var ms := UnfoldKeys(g, props, keys, seen);
              && ms.Some? && (forall m :: m in ms.value ==> IsValue(m.value))
              && parts == PrintMembers(NormalMembers(ms.value))
    decreases |g.Keys - seen|, 1 + |keys|
  {
    hide Closed, WriteValue, Unfold, Print, Normal, Clean, WellFormed, Quote;
    if keys != [] {
      if !props[keys[0]].VUndefined? {
        WriteMatches(g, props[keys[0]], path + [Key(keys[0])], seen);
      }
      KeysMatch(g, props, keys[1..], path, seen);
    }
  }

  /** The members of an unfolded record, whatever the order of its keys. */
  lemma {:induction false} UnfoldKeysMembers(g: Heap, props: map<JsString, Value>, keys: seq<JsString>, seen: set<Ref>)
    requires Closed(g) && (forall k :: k in keys ==> k in props) && forall k :: k in props ==> Known(g, props[k])
    ensures UnfoldKeys(g, props, keys, seen).Some?
            <==> forall k :: k in keys && !props[k].VUndefined? ==> Unfold(g, props[k], seen).Some?
    ensures UnfoldKeys(g, props, keys, seen).Some? ==>
              forall m :: m in UnfoldKeys(g, props, keys, seen).value <==>
                          m.key in keys && !props[m.key].VUndefined? && Unfold(g, props[m.key], seen) == Some(m.value)
    decreases |keys|
  {
    hide Closed, Unfold;
    if keys != [] {
      UnfoldKeysMembers(g, props, keys[1..], seen);
      assert forall k :: k in keys <==> k == keys[0] || k in keys[1..];
    }
  }

  lemma {:induction false} UnfoldKeysOrder(g: Heap, props: map<JsString, Value>, keys: seq<JsString>, seen: set<Ref>)
    requires Closed(g) && (forall k :: k in keys ==> k in props) && forall k :: k in props ==> Known(g, props[k])
    requires UnfoldKeys(g, props, keys, seen).Some?
    ensures AscendingKeys(keys) ==> Ascending(UnfoldKeys(g, props, keys, seen).value)
    ensures DistinctStrings(keys) ==> DistinctKeys(UnfoldKeys(g, props, keys, seen).value)
    decreases |keys|
  {
    hide Closed, Unfold, KeyLess;
    if keys != [] {
      UnfoldKeysOrder(g, props, keys[1..], seen);
      UnfoldKeysMembers(g, props, keys[1..], seen);
      var ms := UnfoldKeys(g, props, keys[1..], seen).value;
      forall j | 0 <= j < |ms| ensures ms[j].key in keys[1..] {
        assert ms[j] in ms;
      }
      if DistinctStrings(keys) {
        assert forall i, j :: 0 <= i < j < |keys[1..]| ==> keys[1..][i] == keys[i + 1] && keys[1..][j] == keys[j + 1];
        assert DistinctStrings(keys[1..]);
        assert keys[0] !in keys[1..];
      }
    }
  }

  /** Unfolding the sorted keys gives the normal form of unfolding the keys as they stand. */
  lemma SortedMembers(g: Heap, props: map<JsString, Value>, keys: seq<JsString>, seen: set<Ref>)
    requires Closed(g) && (forall k :: k in keys ==> k in props) && forall k :: k in props ==> Known(g, props[k])
    requires DistinctStrings(keys)
    ensures var ms, sorted := UnfoldKeys(g, props, keys, seen), UnfoldKeys(g, props, SortKeys(keys), seen);
            && (ms.Some? <==> sorted.Some?)
            && (ms.Some? ==>
                  && DistinctKeys(ms.value)
                  && (forall m :: m in ms.value <==> m in sorted.value)
                  && SortMembers(NormalMembers(ms.value)) == NormalMembers(sorted.value))
  {
    hide Closed, Unfold, UnfoldKeys, SortKeys, SortMembers, Normal, AscendingKeys, DistinctStrings, KeyLess;
    var ms, sorted := UnfoldKeys(g, props, keys, seen), UnfoldKeys(g, props, SortKeys(keys), seen);
    UnfoldKeysMembers(g, props, keys, seen);
    UnfoldKeysMembers(g, props, SortKeys(keys), seen);
    SortKeysAscending(keys);
    if ms.Some? {
      UnfoldKeysOrder(g, props, keys, seen);
      UnfoldKeysOrder(g, props, SortKeys(keys), seen);
      SortAscending(ms.value);
      AscendingUnique(SortMembers(ms.value), sorted.value);
      SortNormal(ms.value);
    }
  }

  /** `canonicalize` prints the canonical text of the tree a value stands for, and fails when there is none. */
  lemma PrintsTheTree(g: Heap, v: Value)
    requires Closed(g) && Known(g, v)
    ensures match WriteValue(g, v, [], {})
            case Err(_) => Unfold(g, v, {}).None?
            case Ok(text) =>
              && Unfold(g, v, {}).Some? && IsValue(Unfold(g, v, {}).value)
              && Canonical(Unfold(g, v, {}).value) == Some(text)
  {
    hide Closed, WriteValue, Unfold, Print, Normal, Clean, WellFormed;
    WriteMatches(g, v, [], {});
  }

  /**
   Two accepted values, in any two heaps, print alike exactly when their trees are equal up to key order at every level
   and up to an array of a single empty slot being taken for the empty array.
   */
  lemma CanonicalizeExact(g: Heap, v: Value, g': Heap, v': Value)
    requires Closed(g) && Known(g, v) && Closed(g') && Known(g', v')
    requires WriteValue(g, v, [], {}).Ok? && WriteValue(g', v', [], {}).Ok?
    ensures Unfold(g, v, {}).Some? && Unfold(g', v', {}).Some?
    ensures WriteValue(g, v, [], {}) == WriteValue(g', v', [], {})
            <==> MeaningOf(Trim(Unfold(g, v, {}).value)) == MeaningOf(Trim(Unfold(g', v', {}).value))
  {
    hide Closed, WriteValue, Unfold, Print, Normal, Clean, WellFormed, MeaningOf, Trim;
    WriteMatches(g, v, [], {});
    WriteMatches(g', v', [], {});
    CanonicalExact(Unfold(g, v, {}).value, Unfold(g', v', {}).value);
  }

  /** Values without empty slots are decodable outright. */
  lemma CanonicalizeDecodable(g: Heap, v: Value, g': Heap, v': Value)
    requires Closed(g) && Known(g, v) && Closed(g') && Known(g', v')
    requires WriteValue(g, v, [], {}).Ok? && WriteValue(g', v', [], {}).Ok?
    requires Unfold(g, v, {}).Some? ==> Dense(Unfold(g, v, {}).value)
    requires Unfold(g', v', {}).Some? ==> Dense(Unfold(g', v', {}).value)
    ensures Unfold(g, v, {}).Some? && Unfold(g', v', {}).Some?
    ensures WriteValue(g, v, [], {}) == WriteValue(g', v', [], {})
            <==> MeaningOf(Unfold(g, v, {}).value) == MeaningOf(Unfold(g', v', {}).value)
  {
    hide Closed, WriteValue, Unfold, Print, Normal, Clean, WellFormed, MeaningOf, Trim;
    CanonicalizeExact(g, v, g', v');
    DenseUntrimmed(Unfold(g, v, {}).value);
    DenseUntrimmed(Unfold(g', v', {}).value);
  }

  /** The case that needs the exception: an array of one empty slot is accepted, and prints like an array of none. */
  lemma HolePrintsLikeNothing(g: Heap, id: Ref, id': Ref)
    requires Closed(g) && id in g && id' in g && g[id] == NArray([Hole]) && g[id'] == NArray([])
    ensures WriteValue(g, VRef(id), [], {}) == Ok([LBRACKET, RBRACKET]) == WriteValue(g, VRef(id'), [], {})
  {
    hide Closed;
    assert OwnProblem(g, VRef(id), {}).None? && OwnProblem(g, VRef(id'), {}).None?;
    var parts := WriteSlots(g, [Hole], 0, [], {} + {id});
    assert WriteSlots(g, [Hole], 1, [], {} + {id}) == Ok([]);
    var empty: JsString := [];
    PrependEnd([empty]);
    assert parts == Ok([empty]);
    assert Join([empty]) == [];
    assert WriteSlots(g, [], 0, [], {} + {id'}) == Ok([]);
    assert Join([]) == [];
    assert [LBRACKET] + empty + [RBRACKET] == [LBRACKET, RBRACKET];
    assert WriteValue(g, VRef(id), [], {}) == Ok([LBRACKET] + Join([empty]) + [RBRACKET]);
    assert WriteValue(g, VRef(id'), [], {}) == Ok([LBRACKET] + Join([]) + [RBRACKET]);
  }
}
