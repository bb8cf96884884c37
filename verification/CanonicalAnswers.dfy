/** Which error `canonicalize` reports, and that what it prints is JSON that reads back as the value. */
module CanonicalAnswers {
  import opened Wrappers
  import opened Bytes
  import opened Text
  import opened JsonStrings
  import opened Json
  import opened CanonicalText
  import opened CanonicalGraph
  import opened CanonicalGraphTheorems
  import opened JsonReader

  // ---------------------------------------------------------------- the first problem

  predicate StepBefore(a: Step, b: Step) {
    match (a, b)
    case (Index(i), Index(j)) => i < j
    case (Key(k), Key(l)) => KeyLess(k, l)
    case _ => false
  }

  /** The walk s comes before t: it is a proper part of it, or turns off to a smaller index or key. */
  predicate Before(s: seq<Step>, t: seq<Step>) {
    t != [] && (s == [] || StepBefore(s[0], t[0]) || (s[0] == t[0] && Before(s[1..], t[1..])))
  }

  lemma {:induction false} FirstSlot(g: Heap, slots: seq<Slot>, i: nat, path: seq<Step>, seen: set<Ref>) returns (k: nat)
    requires Closed(g) && i <= |slots| && forall s :: s in slots && s.Filled? ==> Known(g, s.v)
    requires WriteSlots(g, slots, i, path, seen).Err?
    ensures i <= k < |slots| && slots[k].Filled? && Known(g, slots[k].v)
    ensures WriteValue(g, slots[k].v, path + [Index(k)], seen).Err?
    ensures WriteValue(g, slots[k].v, path + [Index(k)], seen).error == WriteSlots(g, slots, i, path, seen).error
    ensures forall m :: i <= m < k && slots[m].Filled? ==>
              Known(g, slots[m].v) && WriteValue(g, slots[m].v, path + [Index(m)], seen).Ok?
    decreases |slots| - i
  {
    hide Closed, WriteValue;
    assert slots[i] in slots;
    if slots[i].Filled? && WriteValue(g, slots[i].v, path + [Index(i)], seen).Err? {
      k := i;
    } else {
      k := FirstSlot(g, slots, i + 1, path, seen);
    }
  }

  lemma {:induction false} FirstKey(g: Heap, props: map<JsString, Value>, keys: seq<JsString>, path: seq<Step>, seen: set<Ref>)
    returns (k: JsString)
    requires Closed(g) && (forall k :: k in keys ==> k in props) && forall k :: k in props ==> Known(g, props[k])
    requires WriteKeys(g, props, keys, path, seen).Err? && AscendingKeys(keys)
    ensures k in keys && !props[k].VUndefined? && WriteValue(g, props[k], path + [Key(k)], seen).Err?
    ensures WriteValue(g, props[k], path + [Key(k)], seen).error == WriteKeys(g, props, keys, path, seen).error
    ensures forall l :: l in keys && KeyLess(l, k) && !props[l].VUndefined? ==> WriteValue(g, props[l], path + [Key(l)], seen).Ok?
    decreases |keys|
  {
    hide Closed, WriteValue, Quote, KeyLess;
    k := keys[0];
    if !props[k].VUndefined? && WriteValue(g, props[k], path + [Key(k)], seen).Err? {
      forall l | l in keys && KeyLess(l, k) ensures false {
        if l in keys[1..] {
          KeyTransitive(l, k, l);
        }
        KeyIrreflexive(l);
      }
    } else {
      k := FirstKey(g, props, keys[1..], path, seen);
    }
  }

  /** The walk to the reported error, from where the value at `path` was entered. */
  function Reported(g: Heap, v: Value, path: seq<Step>, seen: set<Ref>): seq<Step>
    requires Closed(g) && Known(g, v) && WriteValue(g, v, path, seen).Err?
  {
    var e := WriteValue(g, v, path, seen).error;
    if |path| <= |e.path| then e.path[|path|..] else []
  }

  /** No problem lies on a walk before the one to the reported error. */
  lemma {:induction false} ErrorIsFirst(g: Heap, v: Value, path: seq<Step>, seen: set<Ref>, steps: seq<Step>)
    requires Closed(g) && Known(g, v) && WriteValue(g, v, path, seen).Err? && ProblemAt(g, v, steps, seen).Some?
    ensures !Before(steps, Reported(g, v, path, seen))
    decreases |g.Keys - seen|, 0
  {
    hide *;
    if OwnProblem(g, v, seen).Some? {
      OwnReported(g, v, path, seen);
      NothingBefore(steps);
    } else {
      WalkOn(g, v, steps, seen);
      FewerUnseen(g, v.id, seen);
      NodeChildren(g, v);
      ChildMeaning(g, v, steps[0]);
      if g[v.id].NArray? {
        var k := ArrayError(g, v.id, path, seen);
        SlotStep(g, g[v.id].slots, k, path, seen + {v.id}, steps);
      } else {
        var k := RecordError(g, v.id, path, seen);
        KeyStep(g, g[v.id].props, g[v.id].keys, k, path, seen + {v.id}, steps);
      }
    }
  }

  lemma NothingBefore(s: seq<Step>)
    ensures !Before(s, [])
  {
  }

  lemma ChildMeaning(g: Heap, v: Value, step: Step)
    requires Closed(g) && Known(g, v) && Child(g, v, step).Some?
    ensures v.VRef? && (g[v.id].NArray? || g[v.id].NRecord?)
    ensures g[v.id].NArray? ==>
              step.Index? && step.i < |g[v.id].slots| && g[v.id].slots[step.i].Filled? && Child(g, v, step).value == g[v.id].slots[step.i].v
    ensures g[v.id].NRecord? ==>
              step.Key? && step.k in g[v.id].props && !g[v.id].props[step.k].VUndefined? && Child(g, v, step).value == g[v.id].props[step.k]
  {
    hide Closed;
  }

  /** The error of an array is the error of its first slot that has one. */
  lemma ArrayError(g: Heap, id: Ref, path: seq<Step>, seen: set<Ref>) returns (k: nat)
    requires Closed(g) && id in g && id !in seen && g[id].NArray? && WriteValue(g, VRef(id), path, seen).Err?
    ensures var slots, below := g[id].slots, seen + {id};
            && k < |slots| && slots[k].Filled? && Known(g, slots[k].v)
            && WriteValue(g, slots[k].v, path + [Index(k)], below).Err?
            && Reported(g, VRef(id), path, seen) == [Index(k)] + Reported(g, slots[k].v, path + [Index(k)], below)
            && (forall m :: 0 <= m < k && slots[m].Filled? ==>
                  Known(g, slots[m].v) && WriteValue(g, slots[m].v, path + [Index(m)], below).Ok?)
  {
    hide Closed, WriteValue, ProblemAt, WriteSlots;
    var slots, below := g[id].slots, seen + {id};
    NodeChildren(g, VRef(id));
    WriteRef(g, id, path, seen);
    k := FirstSlot(g, slots, 0, path, below);
    ErrorIsReal(g, slots[k].v, path + [Index(k)], below);
    StepTaken(path, Index(k), WriteValue(g, VRef(id), path, seen).error.path);
  }

  lemma RecordError(g: Heap, id: Ref, path: seq<Step>, seen: set<Ref>) returns (k: JsString)
    requires Closed(g) && id in g && id !in seen && g[id].NRecord? && WriteValue(g, VRef(id), path, seen).Err?
    ensures var props, keys, below := g[id].props, g[id].keys, seen + {id};
            && k in props && Known(g, props[k]) && WriteValue(g, props[k], path + [Key(k)], below).Err?
            && Reported(g, VRef(id), path, seen) == [Key(k)] + Reported(g, props[k], path + [Key(k)], below)
            && (forall l :: l in SortKeys(keys) && l in props && KeyLess(l, k) && !props[l].VUndefined? ==>
                  Known(g, props[l]) && WriteValue(g, props[l], path + [Key(l)], below).Ok?)
  {
    hide Closed, WriteValue, ProblemAt, WriteKeys, KeyLess, SortKeys, DistinctStrings;
    var props, keys, below := g[id].props, g[id].keys, seen + {id};
    NodeChildren(g, VRef(id));
    WriteRef(g, id, path, seen);
    SortKeysAscending(keys);
    k := FirstKey(g, props, SortKeys(keys), path, below);
    ErrorIsReal(g, props[k], path + [Key(k)], below);
    StepTaken(path, Key(k), WriteValue(g, VRef(id), path, seen).error.path);
  }

  lemma OwnReported(g: Heap, v: Value, path: seq<Step>, seen: set<Ref>)
    requires Closed(g) && Known(g, v) && OwnProblem(g, v, seen).Some?
    ensures WriteValue(g, v, path, seen).Err? && Reported(g, v, path, seen) == []
  {
  }

  lemma WalkOn(g: Heap, v: Value, steps: seq<Step>, seen: set<Ref>)
    requires Closed(g) && Known(g, v) && OwnProblem(g, v, seen).None? && ProblemAt(g, v, steps, seen).Some?
    ensures steps != [] && v.VRef? && v.id in g && v.id !in seen && g[v.id] != NDate(None) && Child(g, v, steps[0]).Some?
    ensures Known(g, Child(g, v, steps[0]).value)
    ensures ProblemAt(g, Child(g, v, steps[0]).value, steps[1..], seen + {v.id}).Some?
  {
    hide Closed;
    ChildKnown(g, v, steps[0]);
  }

  lemma StepTaken(path: seq<Step>, step: Step, whole: seq<Step>)
    requires path + [step] <= whole
    ensures |path| < |whole| && whole[|path|..] == [step] + whole[|path| + 1..] && |path + [step]| == |path| + 1
  {
    assert whole[|path|] == (path + [step])[|path|];
  }

  lemma SlotStep(g: Heap, slots: seq<Slot>, k: nat, path: seq<Step>, below: set<Ref>, steps: seq<Step>)
    requires Closed(g) && k < |slots| && slots[k].Filled? && Known(g, slots[k].v) && steps != []
    requires steps[0].Index? && steps[0].i < |slots| && slots[steps[0].i].Filled? && Known(g, slots[steps[0].i].v)
    requires ProblemAt(g, slots[steps[0].i].v, steps[1..], below).Some?
    requires WriteValue(g, slots[k].v, path + [Index(k)], below).Err?
    requires forall m :: 0 <= m < k && slots[m].Filled? ==>
               Known(g, slots[m].v) && WriteValue(g, slots[m].v, path + [Index(m)], below).Ok?
    ensures !Before(steps, [Index(k)] + Reported(g, slots[k].v, path + [Index(k)], below))
    decreases |g.Keys - below|, 1
  {
    hide Closed, WriteValue, ProblemAt, Reported;
    var i := steps[0].i;
    var t := Reported(g, slots[k].v, path + [Index(k)], below);
    assert ([Index(k)] + t)[1..] == t;
    if i < k {
      ProblemIsError(g, slots[i].v, steps[1..], path + [Index(i)], below);
      assert false;
    } else if i == k {
      ErrorIsFirst(g, slots[k].v, path + [Index(k)], below, steps[1..]);
    }
  }

  lemma KeyStep(g: Heap, props: map<JsString, Value>, keys: seq<JsString>, k: JsString, path: seq<Step>, below: set<Ref>, steps: seq<Step>)
    requires Closed(g) && (forall k :: k in props ==> Known(g, props[k])) && (forall k :: k in props ==> k in keys)
    requires k in props && steps != [] && steps[0].Key? && steps[0].k in props && !props[steps[0].k].VUndefined?
    requires ProblemAt(g, props[steps[0].k], steps[1..], below).Some?
    requires WriteValue(g, props[k], path + [Key(k)], below).Err?
    requires forall l :: l in SortKeys(keys) && l in props && KeyLess(l, k) && !props[l].VUndefined? ==>
               Known(g, props[l]) && WriteValue(g, props[l], path + [Key(l)], below).Ok?
    ensures !Before(steps, [Key(k)] + Reported(g, props[k], path + [Key(k)], below))
    decreases |g.Keys - below|, 1
  {
    hide Closed, WriteValue, ProblemAt, Reported, KeyLess;
    var l := steps[0].k;
    var t := Reported(g, props[k], path + [Key(k)], below);
    assert ([Key(k)] + t)[1..] == t;
    if KeyLess(l, k) {
      assert l in SortKeys(keys);
      ProblemIsError(g, props[l], steps[1..], path + [Key(l)], below);
      assert false;
    } else if l == k {
      ErrorIsFirst(g, props[k], path + [Key(k)], below, steps[1..]);
    }
  }

  /** What is called what: the values that cannot be written, each with its own problem, and all others without one. */
  lemma ProblemTable(g: Heap, v: Value, ancestors: set<Ref>)
    requires Closed(g) && Known(g, v)
    ensures var p := OwnProblem(g, v, ancestors);
            && (p == Some(NotFinite) <==> v == VNumber(NotANumber) || v == VNumber(Infinite(true)) || v == VNumber(Infinite(false)))
            && (p == Some(NegativeZero) <==> v == VNumber(MinusZero))
            && (p == Some(BigIntValue) <==> v == VBigInt)
            && (p == Some(UndefinedValue) <==> v == VUndefined)
            && (p == Some(NotData) <==> v == VCallable)
            && (p == Some(Circular) <==> v.VRef? && v.id in ancestors)
            && (p == Some(InvalidDate) <==> v.VRef? && v.id !in ancestors && g[v.id] == NDate(None))
  {
  }

  // ---------------------------------------------------------------- what is printed is the value

  /**
   Whatever value without empty slots `canonicalize` accepts, it prints a JSON text without white space; reading that text
   gives the value back, with the keys of every object in ascending order.
   */
  lemma CanonicalizeReadsBack(g: Heap, v: Value)
    requires Closed(g) && Known(g, v) && WriteValue(g, v, [], {}).Ok?
    requires Unfold(g, v, {}).Some? ==> Dense(Unfold(g, v, {}).value)
    ensures Unfold(g, v, {}).Some?
    ensures var read := ReadJson(WriteValue(g, v, [], {}).value);
            read.Some? && SortedThroughout(read.value) && MeaningOf(read.value) == MeaningOf(Unfold(g, v, {}).value)
  {
    hide *;
    PrintsTheTree(g, v);
    ValueParts(Unfold(g, v, {}).value);
    CanonicalReadsBack(Unfold(g, v, {}).value);
  }

  lemma ValueParts(j: Json)
    requires IsValue(j)
    ensures WellFormed(j)
  {
    hide WellFormed, Clean;
  }
}
