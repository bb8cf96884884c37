/** The append-only log: entries, Merkle tree and chain head, kept in step (packages/server/src/evidence/audit-log.ts). */
module AuditLogs {
  import opened Wrappers
  import opened Bytes
  import opened Text
  import opened Decimals
  import opened Json
  import opened JsonStrings
  import opened CanonicalText
  import opened MerkleSpec
  import opened Climb
  import opened ClimbTheorems
  import opened MerkleTrees
  import opened ProofVerifier
  import opened AuditChain

  /** An event's time: the clock's, a given date, or a given date that is not one. */
  datatype When = Clock | At(iso: JsString) | NotADate

  datatype AuditEventInput = AuditEventInput(
    action: JsString,
    actor: JsString,
    tenantId: JsString,
    subject: Option<JsString>,
    payload: Option<Payload>,
    recordedAt: When)

  datatype AppendError = NeedsAction | NeedsActor | NeedsTenant | InvalidTime | PayloadNotCanonical | NoSuchEntry

  /** The entry an event becomes after the given ones, or why it is refused. */
  function Seal(h: Hash, entries: seq<AuditEntry>, input: AuditEventInput, now: JsString): Result<AuditEntry, AppendError> {
    if input.action == [] then Err(NeedsAction)
    else if input.actor == [] then Err(NeedsActor)
    else if input.tenantId == [] then Err(NeedsTenant)
    else if input.recordedAt.NotADate? then Err(InvalidTime)
    else
      var unsealed := AuditEntry(
        |entries|,
        if input.recordedAt.At? then input.recordedAt.iso else now,
        input.action, input.actor, input.tenantId, input.subject,
        if input.payload.Some? then input.payload.value else Some(Object([])),
        PreviousAt(entries, |entries|),
        []);
      match EntryDigest(h, unsealed)
      case None => Err(PayloadNotCanonical)
      case Some(d) => Ok(unsealed.(entryHash := d))
  }

  function NextLog(h: Hash, entries: seq<AuditEntry>, input: AuditEventInput, now: JsString): seq<AuditEntry> {
    match Seal(h, entries, input, now)
    case Err(_) => entries
    case Ok(e) => entries + [e]
  }

  /** The leaf data of a log: the bytes of the entry hashes. */
  function LogData(entries: seq<AuditEntry>): (r: seq<Bytes>)
    ensures |r| == |entries|
  {
    seq(|entries|, i requires 0 <= i < |entries| => FromHex(entries[i].entryHash))
  }

  lemma LeavesPush(h: Hash, entries: seq<AuditEntry>, e: AuditEntry)
    ensures Leaves(h, LogData(entries + [e])) == Leaves(h, LogData(entries)) + [HashLeaf(h, FromHex(e.entryHash))]
  {
  }

  lemma LeavesPrefix(h: Hash, entries: seq<AuditEntry>, m: nat)
    requires m <= |entries|
    ensures Leaves(h, LogData(entries[..m])) == Leaves(h, LogData(entries))[..m]
  {
  }

  /** The digest does not look at the hash field. */
  lemma DigestIgnoresHash(h: Hash, e: AuditEntry, s: JsString)
    ensures EntryDigest(h, e.(entryHash := s)) == EntryDigest(h, e)
  {
    hide Canonical, Utf8, ToHex;
    if e.payload.Some? {
      assert EntryMembers(e.(entryHash := s), e.payload.value) == EntryMembers(e, e.payload.value);
    }
  }

  /** A sealed entry takes the next place, names the head, and hashes to what it claims. */
  lemma SealFacts(h: Hash, entries: seq<AuditEntry>, input: AuditEventInput, now: JsString)
    requires Seal(h, entries, input, now).Ok?
    ensures var e := Seal(h, entries, input, now).value;
            LinkProblem(h, e, |entries|, PreviousAt(entries, |entries|)).None?
  {
    hide EntryDigest, PreviousAt;
    var e := Seal(h, entries, input, now).value;
    DigestIgnoresHash(h, e, []);
  }

  lemma SealLinks(h: Hash, entries: seq<AuditEntry>, input: AuditEventInput, now: JsString)
    requires Linked(h, entries)
    ensures Linked(h, NextLog(h, entries, input, now))
  {
    hide *;
    var sealed := Seal(h, entries, input, now);
    NextLogIs(h, entries, input, now);
    if sealed.Ok? {
      SealFacts(h, entries, input, now);
      LinkedGrows(h, entries, sealed.value);
    }
  }

  lemma NextLogIs(h: Hash, entries: seq<AuditEntry>, input: AuditEventInput, now: JsString)
    ensures var sealed := Seal(h, entries, input, now);
            NextLog(h, entries, input, now) == if sealed.Ok? then entries + [sealed.value] else entries
  {
    hide Seal;
  }

  lemma LinkedGrows(h: Hash, entries: seq<AuditEntry>, e: AuditEntry)
    requires Linked(h, entries) && LinkProblem(h, e, |entries|, PreviousAt(entries, |entries|)).None?
    ensures Linked(h, entries + [e])
  {
    hide LinkProblem, PreviousAt;
    var all := entries + [e];
    forall i | 0 <= i < |all| ensures LinkProblem(h, all[i], i, PreviousAt(all, i)).None? {
      PreviousGrows(entries, e, i);
      if i < |entries| {
        assert all[i] == entries[i] && LinkProblem(h, entries[i], i, PreviousAt(entries, i)).None?;
      } else {
        assert all[i] == e && i == |entries|;
      }
    }
  }

  lemma PreviousGrows(entries: seq<AuditEntry>, e: AuditEntry, i: nat)
    requires i <= |entries|
    ensures PreviousAt(entries + [e], i) == PreviousAt(entries, i)
  {
    hide Genesis;
  }

  /** What an event needs to be logged: an action, an actor, a tenant, a time that is one, and a payload that JSON can hold. */
  predicate Acceptable(input: AuditEventInput) {
    && input.action != [] && input.actor != [] && input.tenantId != []
    && !input.recordedAt.NotADate?
    && (input.payload.Some? ==> input.payload.value.Some? && Clean(input.payload.value.value))
  }

  /** The entry says what the event said, stands at place n, and follows the hash `previous`. */
  predicate Records(e: AuditEntry, n: nat, previous: JsString, input: AuditEventInput, now: JsString) {
    && e.seqNo == n
    && e.previousHash == previous
    && e.action == input.action
    && e.actor == input.actor
    && e.tenantId == input.tenantId
    && e.subject == input.subject
    && e.recordedAt == (match input.recordedAt case At(iso) => iso case _ => now)
    && e.payload == (match input.payload case Some(p) => p case None => Some(Object([])))
  }

  /**
   Which events are refused and why, the first reason first; and that the entry of any other event records that event,
   every field of it, at the end of the chain.
   */
  lemma SealExactly(h: Hash, entries: seq<AuditEntry>, input: AuditEventInput, now: JsString)
    ensures var r := Seal(h, entries, input, now);
            && (r.Ok? <==> Acceptable(input))
            && (r.Ok? ==>
                  && Records(r.value, |entries|, if entries == [] then Genesis() else entries[|entries| - 1].entryHash, input, now)
                  && EntryDigest(h, r.value) == Some(r.value.entryHash))
            && (r == Err(NeedsAction) <==> input.action == [])
            && (r == Err(NeedsActor) <==> input.action != [] && input.actor == [])
            && (r == Err(NeedsTenant) <==> input.action != [] && input.actor != [] && input.tenantId == [])
            && (r == Err(InvalidTime) <==>
                input.action != [] && input.actor != [] && input.tenantId != [] && input.recordedAt.NotADate?)
            && (r == Err(PayloadNotCanonical) <==>
                && input.action != [] && input.actor != [] && input.tenantId != [] && !input.recordedAt.NotADate?
                && input.payload.Some? && (input.payload.value.None? || !Clean(input.payload.value.value)))
  {
    hide EntryDigest, Clean, Genesis;
    EmptyObjectClean();
    forall e: AuditEntry ensures EntryDigest(h, e).Some? <==> e.payload.Some? && Clean(e.payload.value) {
      DigestedExactly(h, e);
    }
    var r := Seal(h, entries, input, now);
    if r.Ok? {
      DigestIgnoresHash(h, r.value, []);
    }
  }

  lemma EmptyObjectClean()
    ensures Clean(Object([]))
  {
  }

  /** An entry has a digest exactly when its payload holds only numbers that JSON can. */
  lemma DigestedExactly(h: Hash, e: AuditEntry)
    ensures EntryDigest(h, e).Some? <==> e.payload.Some? && Clean(e.payload.value)
  {
    hide Normal, Print, Utf8, ToHex, OfInt;
    if e.payload.Some? {
      var ms := EntryMembers(e, e.payload.value);
      assert ms[6].value == e.payload.value;
      assert Clean(Object(ms)) <==> Clean(e.payload.value);
    }
  }

  class AuditLog {
    const h: Hash
    const tree: MerkleTree
    var entries: seq<AuditEntry>
    var lastHash: JsString

    /** The chain verifies, the head is the last hash, and the tree is over exactly the entry hashes. */
    ghost predicate Valid()
      reads this, tree
    {
      && Linked(h, entries)
      && lastHash == PreviousAt(entries, |entries|)
      && tree.h == h
      && tree.leaves == Leaves(h, LogData(entries))
    }

    constructor (h: Hash)
      ensures Valid() && fresh(tree)
      ensures this.h == h && entries == []
    {
      this.h := h;
      tree := new MerkleTree(h);
      entries := [];
      lastHash := Genesis();
    }

    /** Seals an event; a refused one leaves the log as it was. */
    method Append(input: AuditEventInput, now: JsString) returns (r: Result<AuditEntry, AppendError>)
      requires Valid()
      modifies this, tree
      ensures Valid()
      ensures r == Seal(h, old(entries), input, now)
      ensures entries == NextLog(h, old(entries), input, now)
    {
      hide Linked, EntryDigest, PreviousAt;
      if input.action == [] {
        return Err(NeedsAction);
      }
      if input.actor == [] {
        return Err(NeedsActor);
      }
      if input.tenantId == [] {
        return Err(NeedsTenant);
      }
      if input.recordedAt.NotADate? {
        return Err(InvalidTime);
      }
      SealLinks(h, entries, input, now);
      var unsealed := AuditEntry(
        |entries|,
        if input.recordedAt.At? then input.recordedAt.iso else now,
        input.action, input.actor, input.tenantId, input.subject,
        if input.payload.Some? then input.payload.value else Some(Object([])),
        lastHash,
        []);
      var entryHash := EntryDigest(h, unsealed);
      if entryHash.None? {
        return Err(PayloadNotCanonical);
      }
      var entry := unsealed.(entryHash := entryHash.value);
      LeavesPush(h, entries, entry);
      PushedHead(entries, entry);
      entries := entries + [entry];
      var index := tree.Append(FromHex(entry.entryHash));
      lastHash := entry.entryHash;
      r := Ok(entry);
    }

    method Verify() returns (r: ChainVerification)
      requires Valid()
      ensures r == Intact(|entries|)
    {
      r := VerifyChain(h, entries);
    }

    function Root(): JsString
      reads this, tree
    {
      tree.Root()
    }

    method At(seqNo: int) returns (r: Result<AuditEntry, AppendError>)
      ensures r == if 0 <= seqNo < |entries| then Ok(entries[seqNo]) else Err(NoSuchEntry)
    {
      r := if 0 <= seqNo < |entries| then Ok(entries[seqNo]) else Err(NoSuchEntry);
    }

    /** The proof for an entry is accepted for that entry's hash against the current root. */
    method InclusionProofOf(seqNo: int) returns (r: Result<InclusionProof, TreeError>)
      requires Valid() && |entries| < ARRAY_LIMIT
      ensures r.Ok? <==> 0 <= seqNo < |entries|
      ensures r.Ok? ==> r.value == HonestInclusion(h, tree.leaves, seqNo)
      ensures r.Ok? ==>
                (InclusionVerdict(h, r.value, FromHex(entries[seqNo].entryHash), Root()).Valid?
                 <==> |entries| <= 0x8000_0000)
    {
      hide InclusionVerdict, HonestInclusion, Linked;
      r := tree.InclusionProofFor(seqNo);
      if r.Ok? {
        InclusionComplete(h, LogData(entries), seqNo);
      }
    }

    /** The proof from an earlier size is accepted between the root of that time and the current one. */
    method ConsistencyProofOf(previousSize: int) returns (r: Result<ConsistencyProof, TreeError>)
      requires Valid() && |entries| < ARRAY_LIMIT
      ensures r.Ok? <==> 0 <= previousSize <= |entries|
      ensures r.Ok? ==> r.value == HonestConsistency(h, tree.leaves, previousSize)
      ensures r.Ok? ==>
                (ConsistencyVerdict(h, r.value, LogRoot(h, LogData(entries[..previousSize])), Root()).Valid?
                 <==> previousSize == 0 || previousSize == |entries| || |entries| <= 0x8000_0000)
    {
      hide ConsistencyVerdict, HonestConsistency, Linked;
      r := tree.ConsistencyProofFrom(previousSize);
      if r.Ok? {
        LeavesPrefix(h, entries, previousSize);
        ConsistencyProofAccepted(h, tree.leaves, previousSize);
      }
    }

    /** The entries of one tenant, in order. */
    method ForTenant(tenantId: JsString) returns (r: seq<AuditEntry>)
      ensures r == TenantView(entries, tenantId)
    {
      hide TenantView;
      r := [];
      var i := 0;
      assert entries[0..] == entries;
      while i < |entries|
        invariant 0 <= i <= |entries|
        invariant r + TenantView(entries[i..], tenantId) == TenantView(entries, tenantId)
      {
        ViewStep(entries, i, tenantId);
        if entries[i].tenantId == tenantId {
          r := r + [entries[i]];
        }
        i := i + 1;
      }
      ViewEmpty(entries, tenantId);
    }
  }

  lemma PushedHead(entries: seq<AuditEntry>, e: AuditEntry)
    ensures PreviousAt(entries + [e], |entries + [e]|) == e.entryHash
  {
  }

  function TenantView(entries: seq<AuditEntry>, tenantId: JsString): seq<AuditEntry> {
    if entries == [] then []
    else (if entries[0].tenantId == tenantId then [entries[0]] else []) + TenantView(entries[1..], tenantId)
  }

  lemma ViewStep(entries: seq<AuditEntry>, i: nat, tenantId: JsString)
    requires i < |entries|
    ensures TenantView(entries[i..], tenantId)
            == (if entries[i].tenantId == tenantId then [entries[i]] else []) + TenantView(entries[i + 1..], tenantId)
  {
    assert entries[i..][0] == entries[i] && entries[i..][1..] == entries[i + 1..];
  }

  lemma ViewEmpty(entries: seq<AuditEntry>, tenantId: JsString)
    ensures TenantView(entries[|entries|..], tenantId) == []
  {
  }

  /** A tenant's view of an intact log passes the check for filtered entries. */
  lemma {:induction false} TenantViewIsSlice(h: Hash, entries: seq<AuditEntry>, n: nat, tenantId: JsString)
    requires Linked(h, entries) && n <= |entries|
    ensures SliceOk(h, TenantView(entries[n..], tenantId))
    ensures forall e :: e in TenantView(entries[n..], tenantId) ==> e.seqNo >= n
    decreases |entries| - n
  {
    hide EntryDigest, Genesis, Linked, HashProblem;
    if n < |entries| {
      TenantViewIsSlice(h, entries, n + 1, tenantId);
      LinkedAt(h, entries, n);
      IntactHash(h, entries[n]);
      assert entries[n..][0] == entries[n] && entries[n..][1..] == entries[n + 1..];
      var rest := TenantView(entries[n + 1..], tenantId);
      assert forall i :: 0 <= i < |rest| ==> rest[i] in rest;
    }
  }

  lemma IntactHash(h: Hash, e: AuditEntry)
    requires EntryDigest(h, e) == Some(e.entryHash)
    ensures HashProblem(h, e).None?
  {
    hide EntryDigest;
  }

  // ---------------------------------------------------------------- whole runs

  datatype Event = Event(input: AuditEventInput, now: JsString)

  /** The log after a run of append calls, refused ones among them. */
  function LogAfter(h: Hash, events: seq<Event>): seq<AuditEntry> {
    if events == [] then []
    else
      var last := events[|events| - 1];
      NextLog(h, LogAfter(h, events[..|events| - 1]), last.input, last.now)
  }

  lemma {:induction false} RunLinks(h: Hash, events: seq<Event>)
    ensures Linked(h, LogAfter(h, events))
  {
    hide NextLog, Linked;
    if events == [] {
      EmptyLinks(h);
    } else {
      var last := events[|events| - 1];
      RunLinks(h, events[..|events| - 1]);
      SealLinks(h, LogAfter(h, events[..|events| - 1]), last.input, last.now);
    }
  }

  lemma EmptyLinks(h: Hash)
    ensures Linked(h, [])
  {
  }

  /** Nothing logged is ever changed: the log at any earlier moment is a prefix of the log. */
  lemma {:induction false} RunExtends(h: Hash, events: seq<Event>, k: nat)
    requires k <= |events|
    ensures LogAfter(h, events[..k]) <= LogAfter(h, events)
    decreases |events| - k
  {
    hide Seal;
    if k < |events| {
      assert events[..|events| - 1][..k] == events[..k];
      RunExtends(h, events[..|events| - 1], k);
    } else {
      assert events[..k] == events;
    }
  }

  /** The events of a run that are logged. */
  function Accepted(events: seq<Event>): seq<Event> {
    if events == [] then []
    else
      var n := |events| - 1;
      Accepted(events[..n]) + if Acceptable(events[n].input) then [events[n]] else []
  }

  /** The log holds one entry for each event that was not refused, in order, and each entry records its event. */
  lemma {:induction false} RunRecords(h: Hash, events: seq<Event>)
    ensures var log, kept := LogAfter(h, events), Accepted(events);
            && |log| == |kept|
            && forall i :: 0 <= i < |log| ==> Records(log[i], i, PreviousAt(log, i), kept[i].input, kept[i].now)
  {
    hide Seal, Acceptable, Records, Genesis, EntryDigest;
    if events != [] {
      var n := |events| - 1;
      var before, last := LogAfter(h, events[..n]), events[n];
      RunRecords(h, events[..n]);
      SealExactly(h, before, last.input, last.now);
      var log := LogAfter(h, events);
      forall i | 0 <= i < |log| ensures Records(log[i], i, PreviousAt(log, i), Accepted(events)[i].input, Accepted(events)[i].now) {
        if i < |before| {
          assert PreviousAt(log, i) == PreviousAt(before, i);
        }
      }
    }
  }

  /**
   After any run of appends the chain verifies and every earlier log is a prefix; and exactly as long as the 32-bit
   shifts allow it, the roots of any two moments are connected by an accepted consistency proof, and every entry has an
   accepted inclusion proof.
   */
  lemma WholeRun(h: Hash, events: seq<Event>, k: nat)
    requires k <= |events| && |LogAfter(h, events)| < ARRAY_LIMIT
    ensures var log, early := LogAfter(h, events), LogAfter(h, events[..k]);
            var d := Leaves(h, LogData(log));
            && Linked(h, log)
            && early <= log
            && (ConsistencyVerdict(h, HonestConsistency(h, d, |early|), LogRoot(h, LogData(early)), LogRoot(h, LogData(log))).Valid?
                <==> early == [] || early == log || |log| <= 0x8000_0000)
            && (forall i :: 0 <= i < |log| ==>
                  (InclusionVerdict(h, HonestInclusion(h, d, i), FromHex(log[i].entryHash), LogRoot(h, LogData(log))).Valid?
                   <==> |log| <= 0x8000_0000))
  {
    hide LogAfter, Linked, ConsistencyVerdict, HonestConsistency, InclusionVerdict, HonestInclusion;
    var log, early := LogAfter(h, events), LogAfter(h, events[..k]);
    RunLinks(h, events);
    RunExtends(h, events, k);
    LeavesPrefix(h, log, |early|);
    assert log[..|early|] == early;
    ConsistencyProofAccepted(h, Leaves(h, LogData(log)), |early|);
    forall i | 0 <= i < |log|
      ensures (InclusionVerdict(h, HonestInclusion(h, Leaves(h, LogData(log)), i), FromHex(log[i].entryHash),
                                LogRoot(h, LogData(log))).Valid?) <==> |log| <= 0x8000_0000
    {
      InclusionComplete(h, LogData(log), i);
    }
  }
}
