/** Audit entries, their digests, and the two chain checks (packages/server/src/evidence/audit-log.ts). */
module AuditChain {
  import opened Wrappers
  import opened Bytes
  import opened Text
  import opened Decimals
  import opened JsonStrings
  import opened Json
  import opened CanonicalText

  /**
   The payload of an event: the tree it stands for, empty array slots among it, or None for an object graph that has
   none. Those are exactly the graphs that `canonicalize` refuses (CanonicalGraphTheorems.PrintsTheTree).
   */
  type Payload = p: Option<Json> | p.Some? ==> !p.value.Blank? && WellFormed(p.value) witness None

  datatype AuditEntry = AuditEntry(
    seqNo: int,
    recordedAt: JsString,
    action: JsString,
    actor: JsString,
    tenantId: JsString,
    subject: Option<JsString>,
    payload: Payload,
    previousHash: JsString,
    entryHash: JsString)

  // the property names of an entry, in code units
  const K_SEQ: JsString := [0x73, 0x65, 0x71]  // seq
  const K_RECORDED_AT: JsString := [0x72, 0x65, 0x63, 0x6F, 0x72, 0x64, 0x65, 0x64, 0x41, 0x74]  // recordedAt
  const K_ACTION: JsString := [0x61, 0x63, 0x74, 0x69, 0x6F, 0x6E]  // action
  const K_ACTOR: JsString := [0x61, 0x63, 0x74, 0x6F, 0x72]  // actor
  const K_TENANT_ID: JsString := [0x74, 0x65, 0x6E, 0x61, 0x6E, 0x74, 0x49, 0x64]  // tenantId
  const K_SUBJECT: JsString := [0x73, 0x75, 0x62, 0x6A, 0x65, 0x63, 0x74]  // subject
  const K_PAYLOAD: JsString := [0x70, 0x61, 0x79, 0x6C, 0x6F, 0x61, 0x64]  // payload
  const K_PREVIOUS_HASH: JsString := [0x70, 0x72, 0x65, 0x76, 0x69, 0x6F, 0x75, 0x73, 0x48, 0x61, 0x73, 0x68]  // previousHash

  /** The hash a chain starts from: 64 zeros. */
  function Genesis(): JsString {
    seq(64, (_: nat) => 0x30 as CodeUnit)
  }

  /** The names under which the fields of an entry are hashed, and the hash before the first entry. */
  lemma EntryNames()
    ensures K_SEQ == Ascii("seq") && K_RECORDED_AT == Ascii("recordedAt") && K_ACTION == Ascii("action") && K_ACTOR == Ascii("actor")
    ensures K_TENANT_ID == Ascii("tenantId") && K_SUBJECT == Ascii("subject") && K_PAYLOAD == Ascii("payload")
    ensures K_PREVIOUS_HASH == Ascii("previousHash")
    ensures |Genesis()| == 64 && forall i :: 0 <= i < 64 ==> Genesis()[i] == '0' as int
  {
  }

  /** An entry without its own hash, as the object that is canonicalized. */
  function EntryMembers(e: AuditEntry, payload: Json): seq<Member> {
    [ Member(K_SEQ, Number(Exact(OfInt(e.seqNo)))),
      Member(K_RECORDED_AT, String(e.recordedAt)),
      Member(K_ACTION, String(e.action)),
      Member(K_ACTOR, String(e.actor)),
      Member(K_TENANT_ID, String(e.tenantId)),
      Member(K_SUBJECT, if e.subject.Some? then String(e.subject.value) else Null),
      Member(K_PAYLOAD, payload),
      Member(K_PREVIOUS_HASH, String(e.previousHash)) ]
  }

  /** The canonical text an entry hash covers; None when the payload has none. */
  function EntryText(e: AuditEntry): Option<JsString> {
    if e.payload.None? then None else Canonical(Object(EntryMembers(e, e.payload.value)))
  }

  function EntryDigest(h: Hash, e: AuditEntry): Option<JsString> {
    match EntryText(e)
    case None => None
    case Some(text) => Some(ToHex(h(Utf8(text))))
  }

  lemma EntryKeysDistinct(e: AuditEntry, payload: Json)
    ensures DistinctKeys(EntryMembers(e, payload))
    ensures WellFormed(payload) && !payload.Blank? ==> WellFormed(Object(EntryMembers(e, payload)))
  {
    hide OfInt;
    var ms := EntryMembers(e, payload);
    assert |ms[0].key| == 3 && |ms[1].key| == 10 && |ms[2].key| == 6 && |ms[3].key| == 5;
    assert |ms[4].key| == 8 && |ms[5].key| == 7 && |ms[6].key| == 7 && |ms[7].key| == 12;
    assert ms[5].key[0] != ms[6].key[0];
  }

  /**
   Two entries that say the same: every field equal, the payload up to the order of its keys, and up to an array of a
   single empty slot being taken for the empty array.
   */
  ghost predicate SameContent(a: AuditEntry, b: AuditEntry) {
    && a.seqNo == b.seqNo
    && a.recordedAt == b.recordedAt
    && a.action == b.action
    && a.actor == b.actor
    && a.tenantId == b.tenantId
    && a.subject == b.subject
    && a.previousHash == b.previousHash
    && a.payload.Some? && b.payload.Some?
    && MeaningOf(Trim(a.payload.value)) == MeaningOf(Trim(b.payload.value))
  }

  ghost predicate SameEntry(a: AuditEntry, b: AuditEntry) {
    SameContent(a, b) && a.entryHash == b.entryHash
  }

  lemma SameTextSameContent(a: AuditEntry, b: AuditEntry)
    requires EntryText(a).Some? && EntryText(b).Some?
    ensures Utf8(EntryText(a).value) == Utf8(EntryText(b).value) <==> SameContent(a, b)
  {
    hide *;
    TextParts(a);
    TextParts(b);
    var ms, ns := EntryMembers(a, a.payload.value), EntryMembers(b, b.payload.value);
    EntryKeysDistinct(a, a.payload.value);
    EntryKeysDistinct(b, b.payload.value);
    CanonicalBytesDecodable(Object(ms), Object(ns));
    TrimmedEntry(a);
    TrimmedEntry(b);
    MembersContent(a, b);
    ObjectMeanings(TrimMembers(ms), TrimMembers(ns));
  }

  /** A logged array of a single empty slot and a logged empty array are one entry to the hash. */
  lemma EmptySlotUnseen(h: Hash, e: AuditEntry)
    requires e.payload.Some?
    ensures WellFormed(Trim(e.payload.value)) && !Trim(e.payload.value).Blank?
    ensures EntryDigest(h, e.(payload := Some(Trim(e.payload.value)))) == EntryDigest(h, e)
  {
    hide EntryMembers, Clean, Print, Normal, Trim, Utf8, ToHex;
    TrimWellFormed(e.payload.value);
    BlankStays(e.payload.value);
    var ms := EntryMembers(e, e.payload.value);
    TrimmedEntry(e);
    PayloadField(e, Trim(e.payload.value));
    TrimNormal(Object(ms));
    TrimPrints(Normal(Object(ms)));
    TrimClean(Object(ms));
  }

  lemma PayloadField(e: AuditEntry, payload: Json)
    requires WellFormed(payload) && !payload.Blank?
    ensures EntryMembers(e.(payload := Some(payload)), payload) == EntryMembers(e, payload)
  {
  }

  /** What is hashed has no number JSON cannot hold. */
  lemma HashedIsClean(h: Hash, e: AuditEntry)
    requires EntryDigest(h, e).Some?
    ensures e.payload.Some? && Clean(e.payload.value)
  {
    hide Normal, Print, Utf8, ToHex, OfInt;
    var ms := EntryMembers(e, e.payload.value);
    assert Clean(Object(ms)) && ms[6].value == e.payload.value;
  }

  lemma TextParts(e: AuditEntry)
    requires EntryText(e).Some?
    ensures e.payload.Some? && !e.payload.value.Blank? && WellFormed(e.payload.value)
    ensures !Object(EntryMembers(e, e.payload.value)).Blank?
    ensures EntryText(e) == Canonical(Object(EntryMembers(e, e.payload.value)))
  {
    hide Canonical, EntryMembers;
  }

  /** Trimming an entry trims its payload and nothing else. */
  lemma TrimmedEntry(e: AuditEntry)
    requires e.payload.Some?
    ensures var ms := EntryMembers(e, e.payload.value);
            && Trim(Object(ms)) == Object(TrimMembers(ms))
            && TrimMembers(ms) == EntryMembers(e, Trim(e.payload.value))
            && DistinctKeys(TrimMembers(ms))
  {
    hide OfInt;
    var ms, ns := EntryMembers(e, e.payload.value), EntryMembers(e, Trim(e.payload.value));
    TrimMembersAt(ms);
    assert |ms| == 8 && |ns| == 8;
    forall i | 0 <= i < 8 ensures TrimMembers(ms)[i] == ns[i] {
    }
    assert TrimMembers(ms) == ns;
    EntryKeysDistinct(e, Trim(e.payload.value));
  }

  lemma MembersContent(a: AuditEntry, b: AuditEntry)
    requires a.payload.Some? && b.payload.Some?
    ensures var ms, ns := EntryMembers(a, Trim(a.payload.value)), EntryMembers(b, Trim(b.payload.value));
            && |ms| == |ns| && (forall i :: 0 <= i < |ms| ==> ms[i].key == ns[i].key)
            && ((forall i :: 0 <= i < |ms| ==> MeaningOf(ms[i].value) == MeaningOf(ns[i].value)) <==> SameContent(a, b))
  {
    hide *;
    var ms, ns := EntryMembers(a, Trim(a.payload.value)), EntryMembers(b, Trim(b.payload.value));
    SameEntryKeys(a, Trim(a.payload.value), b, Trim(b.payload.value));
    if forall i :: 0 <= i < |ms| ==> MeaningOf(ms[i].value) == MeaningOf(ns[i].value) {
      MembersToContent(a, b);
    }
    if SameContent(a, b) {
      forall i | 0 <= i < |ms| ensures MeaningOf(ms[i].value) == MeaningOf(ns[i].value) {
        ContentToMember(a, b, i);
      }
    }
  }

  lemma SameEntryKeys(a: AuditEntry, p: Json, b: AuditEntry, q: Json)
    ensures |EntryMembers(a, p)| == |EntryMembers(b, q)| == 8
    ensures forall i :: 0 <= i < 8 ==> EntryMembers(a, p)[i].key == EntryMembers(b, q)[i].key
  {
    hide OfInt;
  }

  lemma MembersToContent(a: AuditEntry, b: AuditEntry)
    requires a.payload.Some? && b.payload.Some?
    requires var ms, ns := EntryMembers(a, Trim(a.payload.value)), EntryMembers(b, Trim(b.payload.value));
             |ms| == |ns| && forall i :: 0 <= i < |ms| ==> MeaningOf(ms[i].value) == MeaningOf(ns[i].value)
    ensures SameContent(a, b)
  {
    hide MeaningOf, OfInt, Trim, EntryMembers;
    var ms, ns := EntryMembers(a, Trim(a.payload.value)), EntryMembers(b, Trim(b.payload.value));
    EntryFields(a, Trim(a.payload.value));
    EntryFields(b, Trim(b.payload.value));
    LeafMeanings(a, b);
    assert MeaningOf(ms[0].value) == MeaningOf(ns[0].value);
    assert MeaningOf(ms[1].value) == MeaningOf(ns[1].value);
    assert MeaningOf(ms[2].value) == MeaningOf(ns[2].value);
    assert MeaningOf(ms[3].value) == MeaningOf(ns[3].value);
    assert MeaningOf(ms[4].value) == MeaningOf(ns[4].value);
    assert MeaningOf(ms[5].value) == MeaningOf(ns[5].value);
    assert MeaningOf(ms[6].value) == MeaningOf(ns[6].value);
    assert MeaningOf(ms[7].value) == MeaningOf(ns[7].value);
  }

  lemma ContentToMember(a: AuditEntry, b: AuditEntry, i: nat)
    requires SameContent(a, b) && i < 8
    ensures var ms, ns := EntryMembers(a, Trim(a.payload.value)), EntryMembers(b, Trim(b.payload.value));
            |ms| == |ns| == 8 && MeaningOf(ms[i].value) == MeaningOf(ns[i].value)
  {
    hide MeaningOf, OfInt, Trim;
  }

  lemma EntryFields(e: AuditEntry, payload: Json)
    ensures var ms := EntryMembers(e, payload);
            && |ms| == 8
            && ms[0] == Member(K_SEQ, Number(Exact(OfInt(e.seqNo))))
            && ms[1] == Member(K_RECORDED_AT, String(e.recordedAt))
            && ms[2] == Member(K_ACTION, String(e.action))
            && ms[3] == Member(K_ACTOR, String(e.actor))
            && ms[4] == Member(K_TENANT_ID, String(e.tenantId))
            && ms[5] == Member(K_SUBJECT, if e.subject.Some? then String(e.subject.value) else Null)
            && ms[6] == Member(K_PAYLOAD, payload)
            && ms[7] == Member(K_PREVIOUS_HASH, String(e.previousHash))
  {
    hide OfInt;
  }

  /** Objects with the same keys in the same order mean the same exactly when their values do, one by one. */
  lemma ObjectMeanings(ms: seq<Member>, ns: seq<Member>)
    requires |ms| == |ns| && DistinctKeys(ms) && DistinctKeys(ns)
    requires forall i :: 0 <= i < |ms| ==> ms[i].key == ns[i].key
    ensures MeaningOf(Object(ms)) == MeaningOf(Object(ns))
            <==> forall i :: 0 <= i < |ms| ==> MeaningOf(ms[i].value) == MeaningOf(ns[i].value)
  {
    hide FieldsOf, MeaningOf, DistinctKeys;
    FieldsAt(ms);
    FieldsAt(ns);
    ObjectFields(ms);
    ObjectFields(ns);
    if forall i :: 0 <= i < |ms| ==> MeaningOf(ms[i].value) == MeaningOf(ns[i].value) {
      forall k | k in FieldsOf(ms) ensures k in FieldsOf(ns) && FieldsOf(ms)[k] == FieldsOf(ns)[k] {
        var i :| 0 <= i < |ms| && ms[i].key == k;
        assert ns[i].key in FieldsOf(ns);
      }
      forall k | k in FieldsOf(ns) ensures k in FieldsOf(ms) {
        var i :| 0 <= i < |ns| && ns[i].key == k;
        assert ms[i].key in FieldsOf(ms);
      }
      assert FieldsOf(ms) == FieldsOf(ns);
    } else {
      var i :| 0 <= i < |ms| && MeaningOf(ms[i].value) != MeaningOf(ns[i].value);
      assert FieldsOf(ms)[ms[i].key] != FieldsOf(ns)[ns[i].key];
    }
  }

  lemma ObjectFields(ms: seq<Member>)
    ensures MeaningOf(Object(ms)) == MObject(FieldsOf(ms))
  {
  }

  lemma LeafMeanings(a: AuditEntry, b: AuditEntry)
    ensures forall s, t :: MeaningOf(String(s)) == MeaningOf(String(t)) <==> s == t
    ensures forall s :: MeaningOf(String(s)) != MeaningOf(Null)
    ensures MeaningOf(Number(Exact(OfInt(a.seqNo)))) == MeaningOf(Number(Exact(OfInt(b.seqNo)))) <==> a.seqNo == b.seqNo
  {
    hide OfInt;
    if OfInt(a.seqNo) == OfInt(b.seqNo) {
      OfIntInjective(a.seqNo, b.seqNo);
    }
  }

  // ---------------------------------------------------------------- verifyChain

  datatype ChainReason = WrongSeq | WrongPrevious | NotCanonical | Modified | NotAscending

  datatype ChainVerification =
    | Intact(checked: nat)
    | Broken(checked: nat, brokenAt: int, reason: ChainReason)

  function HashProblem(h: Hash, e: AuditEntry): Option<ChainReason> {
    match EntryDigest(h, e)
    case None => Some(NotCanonical)
    case Some(d) => if d != e.entryHash then Some(Modified) else None
  }

  /** What is wrong with an entry at position i that should follow the hash `previous`. */
  function LinkProblem(h: Hash, e: AuditEntry, i: nat, previous: JsString): Option<ChainReason> {
    if e.seqNo != i then Some(WrongSeq)
    else if e.previousHash != previous then Some(WrongPrevious)
    else HashProblem(h, e)
  }

  /** The hash an entry at position i has to name. */
  function PreviousAt(entries: seq<AuditEntry>, i: nat): JsString
    requires i <= |entries|
  {
    if i == 0 then Genesis() else entries[i - 1].entryHash
  }

  /** Every entry is in its place, names its predecessor, and hashes to what it claims. */
  predicate Linked(h: Hash, entries: seq<AuditEntry>) {
    forall i :: 0 <= i < |entries| ==> LinkProblem(h, entries[i], i, PreviousAt(entries, i)).None?
  }

  method VerifyChain(h: Hash, entries: seq<AuditEntry>) returns (r: ChainVerification)
    ensures r.Intact? <==> Linked(h, entries)
    ensures r.Intact? ==> r.checked == |entries|
    ensures r.Broken? ==>
              && r.checked < |entries|
              && Linked(h, entries[..r.checked])
              && LinkProblem(h, entries[r.checked], r.checked, PreviousAt(entries, r.checked)) == Some(r.reason)
              && r.brokenAt == entries[r.checked].seqNo
  {
    hide *;
    var previousHash := Genesis();
    PreviousNext(entries, 0);
    for i := 0 to |entries|
      invariant previousHash == PreviousAt(entries, i)
      invariant forall k :: 0 <= k < i ==> LinkProblem(h, entries[k], k, PreviousAt(entries, k)).None?
    {
      var entry := entries[i];
      PrefixLinks(h, entries, i);
      LinkCases(h, entry, i, previousHash);
      LinkedMeans(h, entries, i);
      if entry.seqNo != i {
        return Broken(i, entry.seqNo, WrongSeq);
      }
      if entry.previousHash != previousHash {
        return Broken(i, entry.seqNo, WrongPrevious);
      }
      var recomputed := EntryDigest(h, entry);
      if recomputed.None? {
        return Broken(i, entry.seqNo, NotCanonical);
      }
      if recomputed.value != entry.entryHash {
        return Broken(i, entry.seqNo, Modified);
      }
      previousHash := entry.entryHash;
      PreviousNext(entries, i);
    }
    LinkedMeans(h, entries, |entries|);
    r := Intact(|entries|);
  }

  lemma PreviousNext(entries: seq<AuditEntry>, i: nat)
    ensures PreviousAt(entries, 0) == Genesis()
    ensures i < |entries| ==> PreviousAt(entries, i + 1) == entries[i].entryHash
  {
    hide Genesis;
  }

  lemma LinkCases(h: Hash, e: AuditEntry, i: nat, previous: JsString)
    ensures LinkProblem(h, e, i, previous)
            == if e.seqNo != i then Some(WrongSeq)
               else if e.previousHash != previous then Some(WrongPrevious)
               else if EntryDigest(h, e).None? then Some(NotCanonical)
               else if EntryDigest(h, e).value != e.entryHash then Some(Modified)
               else None
  {
    hide EntryDigest;
  }

  lemma LinkedMeans(h: Hash, entries: seq<AuditEntry>, i: nat)
    requires i <= |entries|
    ensures i < |entries| && LinkProblem(h, entries[i], i, PreviousAt(entries, i)).Some? ==> !Linked(h, entries)
    ensures i == |entries| && (forall k :: 0 <= k < i ==> LinkProblem(h, entries[k], k, PreviousAt(entries, k)).None?)
            ==> Linked(h, entries)
  {
    hide LinkProblem, Genesis;
  }

  lemma LinkedAt(h: Hash, entries: seq<AuditEntry>, i: nat)
    requires Linked(h, entries) && i < |entries|
    ensures entries[i].seqNo == i
    ensures entries[i].previousHash == PreviousAt(entries, i)
    ensures EntryDigest(h, entries[i]) == Some(entries[i].entryHash)
  {
    hide EntryDigest, Genesis;
    assert LinkProblem(h, entries[i], i, PreviousAt(entries, i)).None?;
  }

  lemma PrefixLinks(h: Hash, entries: seq<AuditEntry>, n: nat)
    requires n <= |entries|
    requires forall k :: 0 <= k < n ==> LinkProblem(h, entries[k], k, PreviousAt(entries, k)).None?
    ensures Linked(h, entries[..n])
  {
    hide LinkProblem;
    forall i | 0 <= i < n ensures LinkProblem(h, entries[..n][i], i, PreviousAt(entries[..n], i)).None? {
      assert PreviousAt(entries[..n], i) == PreviousAt(entries, i);
    }
  }

  /** Nothing longer than the reported prefix is linked. */
  lemma NoLongerPrefix(h: Hash, entries: seq<AuditEntry>, n: nat, m: nat)
    requires n < m <= |entries|
    requires LinkProblem(h, entries[n], n, PreviousAt(entries, n)).Some?
    ensures !Linked(h, entries[..m])
  {
    hide LinkProblem;
    assert entries[..m][n] == entries[n] && PreviousAt(entries[..m], n) == PreviousAt(entries, n);
  }

  /** Everything hashed to seal a list of entries. */
  function EntryInputs(entries: seq<AuditEntry>): set<Bytes> {
    set e | e in entries && EntryText(e).Some? :: Utf8(EntryText(e).value)
  }

  lemma SameDigestSameContent(h: Hash, a: AuditEntry, b: AuditEntry, xs: seq<AuditEntry>, ys: seq<AuditEntry>)
    requires a in xs && b in ys && EntryDigest(h, a).Some? && EntryDigest(h, a) == EntryDigest(h, b)
    ensures SameContent(a, b) || Collision(h, EntryInputs(xs), EntryInputs(ys))
  {
    hide EntryText, SameContent, Utf8;
    var s, t := Utf8(EntryText(a).value), Utf8(EntryText(b).value);
    HexInjective(h(s), h(t));
    assert s in EntryInputs(xs) && t in EntryInputs(ys);
    if s == t {
      SameTextSameContent(a, b);
    }
  }

  /** The last hash of an intact chain determines every entry before it. */
  lemma {:induction false} HeadPinsPrefix(h: Hash, xs: seq<AuditEntry>, ys: seq<AuditEntry>, n: nat)
    requires Linked(h, xs) && Linked(h, ys) && 0 < n <= |xs| && n <= |ys|
    requires xs[n - 1].entryHash == ys[n - 1].entryHash
    ensures (forall i :: 0 <= i < n ==> SameEntry(xs[i], ys[i])) || Collision(h, EntryInputs(xs), EntryInputs(ys))
  {
    hide EntryDigest, SameContent, EntryInputs, Collision, Linked, Genesis;
    LinkedAt(h, xs, n - 1);
    LinkedAt(h, ys, n - 1);
    SameDigestSameContent(h, xs[n - 1], ys[n - 1], xs, ys);
    if SameContent(xs[n - 1], ys[n - 1]) {
      SameContentFields(xs[n - 1], ys[n - 1]);
      if n > 1 {
        HeadPinsPrefix(h, xs, ys, n - 1);
      }
    }
  }

  lemma SameContentFields(a: AuditEntry, b: AuditEntry)
    requires SameContent(a, b)
    ensures a.seqNo == b.seqNo && a.previousHash == b.previousHash
  {
  }

  /** Two intact chains with one head are one log. */
  lemma HeadPinsLog(h: Hash, xs: seq<AuditEntry>, ys: seq<AuditEntry>)
    requires Linked(h, xs) && Linked(h, ys) && xs != [] && ys != []
    requires xs[|xs| - 1].entryHash == ys[|ys| - 1].entryHash
    ensures || (|xs| == |ys| && forall i :: 0 <= i < |xs| ==> SameEntry(xs[i], ys[i]))
            || Collision(h, EntryInputs(xs), EntryInputs(ys))
  {
    hide EntryDigest, SameContent, EntryInputs, Collision, Linked, Genesis;
    var a, b := xs[|xs| - 1], ys[|ys| - 1];
    LinkedAt(h, xs, |xs| - 1);
    LinkedAt(h, ys, |ys| - 1);
    SameDigestSameContent(h, a, b, xs, ys);
    if SameContent(a, b) {
      SameContentFields(a, b);
      HeadPinsPrefix(h, xs, ys, |xs|);
    }
  }

  // ---------------------------------------------------------------- verifyEntrySlice

  predicate Ascends(entries: seq<AuditEntry>) {
    forall i, j :: 0 <= i < j < |entries| ==> entries[i].seqNo < entries[j].seqNo
  }

  /** A filtered view that verifies: sequence numbers ascend from 0 or later, every hash recomputes. */
  predicate SliceOk(h: Hash, entries: seq<AuditEntry>) {
    && Ascends(entries)
    && (forall i :: 0 <= i < |entries| ==> entries[i].seqNo >= 0 && HashProblem(h, entries[i]).None?)
  }

  /** What is wrong with an entry of a filtered view that should come after sequence number `previous`. */
  function SliceProblem(h: Hash, e: AuditEntry, previous: int): Option<ChainReason> {
    if e.seqNo <= previous then Some(NotAscending) else HashProblem(h, e)
  }

  /** The first thing wrong with the entries from position i on. */
  function FirstSliceProblem(h: Hash, entries: seq<AuditEntry>, i: nat): Option<ChainReason>
    requires i <= |entries|
    decreases |entries| - i
  {
    if i == |entries| then None
    else
      match SliceProblem(h, entries[i], if i == 0 then -1 else entries[i - 1].seqNo)
      case Some(reason) => Some(reason)
      case None => FirstSliceProblem(h, entries, i + 1)
  }

  method VerifyEntrySlice(h: Hash, entries: seq<AuditEntry>) returns (r: ChainVerification)
    ensures r.Intact? <==> SliceOk(h, entries)
    ensures r.Intact? ==> r.checked == |entries|
    ensures r.Broken? ==>
              && r.checked < |entries|
              && SliceOk(h, entries[..r.checked])
              && !SliceOk(h, entries[..r.checked + 1])
              && r.brokenAt == entries[r.checked].seqNo
    ensures r.Broken? ==>
              var e := entries[r.checked];
              r.reason == if e.seqNo <= (if r.checked == 0 then -1 else entries[r.checked - 1].seqNo) then NotAscending
                          else if EntryDigest(h, e).None? then NotCanonical else Modified
    ensures FirstSliceProblem(h, entries, 0) == if r.Intact? then None else Some(r.reason)
  {
    hide EntryDigest;
    var previousSeq := -1;
    for i := 0 to |entries|
      invariant previousSeq == if i == 0 then -1 else entries[i - 1].seqNo
      invariant FirstSliceProblem(h, entries, 0) == FirstSliceProblem(h, entries, i)
      invariant SliceOk(h, entries[..i])
    {
      var entry := entries[i];
      SliceExtends(h, entries, i);
      if entry.seqNo <= previousSeq {
        SlicePrefix(h, entries, i + 1);
        return Broken(i, entry.seqNo, NotAscending);
      }
      var recomputed := EntryDigest(h, entry);
      if recomputed.None? {
        SlicePrefix(h, entries, i + 1);
        return Broken(i, entry.seqNo, NotCanonical);
      }
      if recomputed.value != entry.entryHash {
        SlicePrefix(h, entries, i + 1);
        return Broken(i, entry.seqNo, Modified);
      }
      previousSeq := entry.seqNo;
    }
    assert entries[..|entries|] == entries;
    r := Intact(|entries|);
  }

  lemma SliceExtends(h: Hash, entries: seq<AuditEntry>, i: nat)
    requires i < |entries| && SliceOk(h, entries[..i])
    ensures SliceOk(h, entries[..i + 1])
            <==> (if i == 0 then 0 <= entries[0].seqNo else entries[i - 1].seqNo < entries[i].seqNo)
                 && HashProblem(h, entries[i]).None?
  {
    hide HashProblem;
    var s, t := entries[..i], entries[..i + 1];
    assert forall k :: 0 <= k < i ==> s[k] == t[k];
    assert t[i] == entries[i];
    if i > 0 {
      assert t[i - 1] == s[i - 1] == entries[i - 1];
    }
  }

  lemma SlicePrefix(h: Hash, entries: seq<AuditEntry>, n: nat)
    requires n <= |entries|
    ensures SliceOk(h, entries) ==> SliceOk(h, entries[..n])
  {
  }
}
