/**
 Entries as a verifier really meets them: an object parsed from a file, with whatever members it has, of which
 `entryHash` is taken out and the rest digested (packages/server/src/evidence/audit-log.ts:165-205).
 */
module RawEntries {
  import opened Wrappers
  import opened Bytes
  import opened Text
  import opened Decimals
  import opened JsonStrings
  import opened Json
  import opened CanonicalText
  import opened ClimbTheorems
  import opened MerkleTrees
  import opened ProofVerifier
  import opened AuditChain
  import opened AuditLogs
  import opened EvidenceBundles

  datatype RawEntry = RawEntry(rest: seq<Member>, entryHash: JsString)

  function RestText(e: RawEntry): Option<JsString> {
    Canonical(Object(e.rest))
  }

  /** The recomputed digest equals the hash the entry carries. */
  predicate RawHashes(h: Hash, e: RawEntry) {
    RestText(e).Some? && ToHex(h(Utf8(RestText(e).value))) == e.entryHash
  }

  /** The sequence number, if the object has one that is an integer. */
  ghost predicate HasSeq(e: RawEntry, n: int) {
    exists i :: 0 <= i < |e.rest| && e.rest[i] == Member(K_SEQ, Number(Exact(OfInt(n))))
  }

  /** What the order check guarantees: it never passes two integer numbers that do not rise, nor a first one below 0. */
  ghost predicate RawOrdered(entries: seq<RawEntry>) {
    && (entries != [] ==> forall n :: HasSeq(entries[0], n) ==> n >= 0)
    && (forall i :: 0 < i < |entries| ==> RisesAfter(entries[i - 1], entries[i]))
  }

  ghost predicate RisesAfter(before: RawEntry, e: RawEntry) {
    forall m, n :: HasSeq(before, m) && HasSeq(e, n) ==> m < n
  }

  /** The object is a logged entry, with the same members, in whatever order. */
  ghost predicate IsLogged(e: RawEntry, a: AuditEntry) {
    && a.payload.Some?
    && e.entryHash == a.entryHash
    && MeaningOf(Trim(Object(e.rest))) == MeaningOf(Trim(Object(EntryMembers(a, a.payload.value))))
  }

  function RawInputs(h: Hash, e: RawEntry, proof: InclusionProof): set<Bytes> {
    (if RestText(e).Some? then {Utf8(RestText(e).value)} else {}) + InclusionInputs(h, proof, FromHex(e.entryHash))
  }

  /** An entry of any shape that hashes to what it claims and is proved into the root of a log is an entry of that log. */
  lemma RawEntryLogged(h: Hash, e: RawEntry, proof: InclusionProof, log: seq<AuditEntry>) returns (at: nat)
    requires Linked(h, log) && WellFormed(Object(e.rest)) && RawHashes(h, e)
    requires InclusionVerdict(h, proof, FromHex(e.entryHash), LogRoot(h, LogData(log))).Valid?
    ensures || (at < |log| && IsLogged(e, log[at]))
            || Collision(h, LogInputs(h, log), RawInputs(h, e, proof))
  {
    hide InclusionVerdict, LogRoot, Linked, Canonical, EntryDigest, EntryInputs, Collision, InclusionInputs, TreeInputs, FromHex,
      MeaningOf, Trim, EntryMembers, Genesis, Utf8, ToHex;
    at := 0;
    var leaf := FromHex(e.entryHash);
    var theirs, mine := LogInputs(h, log), RawInputs(h, e, proof);
    AcceptedLeafWasLogged(h, proof, leaf, LogData(log));
    if Collision(h, TreeInputs(h, LogData(log)), InclusionInputs(h, proof, leaf)) {
      CollisionGrows(h, TreeInputs(h, LogData(log)), InclusionInputs(h, proof, leaf), theirs, mine);
    } else {
      var j :| 0 <= j < |log| && LogData(log)[j] == leaf;
      at := j;
      LinkedAt(h, log, j);
      DigestRoundTrip(h, log[j]);
      HexRoundTrip(h(Utf8(RestText(e).value)));
      SameHashSameText(h, e, log[j], log);
    }
  }

  lemma SameHashSameText(h: Hash, e: RawEntry, a: AuditEntry, log: seq<AuditEntry>)
    requires WellFormed(Object(e.rest)) && RawHashes(h, e)
    requires a in log && EntryDigest(h, a) == Some(a.entryHash) && a.entryHash == e.entryHash
    ensures IsLogged(e, a) || (forall proof :: Collision(h, LogInputs(h, log), RawInputs(h, e, proof)))
  {
    hide Canonical, MeaningOf, Trim, EntryMembers, Utf8, ToHex, InclusionInputs, TreeInputs;
    TextParts(a);
    var ms := EntryMembers(a, a.payload.value);
    EntryKeysDistinct(a, a.payload.value);
    var s, t := Utf8(EntryText(a).value), Utf8(RestText(e).value);
    HexInjective(h(s), h(t));
    if s == t {
      CanonicalBytesDecodable(Object(ms), Object(e.rest));
    } else {
      assert s in EntryInputs(log);
      forall proof ensures Collision(h, LogInputs(h, log), RawInputs(h, e, proof)) {
        assert s in LogInputs(h, log) && t in RawInputs(h, e, proof);
      }
    }
  }

  function KeysOf(ms: seq<Member>): set<JsString> {
    set m | m in ms :: m.key
  }

  /** So it has exactly the members the log writes: none is missing and none is extra. */
  lemma LoggedMembersExact(e: RawEntry, a: AuditEntry)
    requires WellFormed(Object(e.rest)) && IsLogged(e, a)
    ensures KeysOf(e.rest) == KeysOf(EntryMembers(a, a.payload.value))
    ensures forall n :: HasSeq(e, n) <==> n == a.seqNo
  {
    hide MeaningOf, Trim, FieldsOf, OfInt, TrimMembers;
    var ms := EntryMembers(a, a.payload.value);
    var xs, ys := TrimMembers(e.rest), TrimMembers(ms);
    TrimmedEntry(a);
    TrimmedObject(e.rest);
    ObjectFields(xs);
    ObjectFields(ys);
    TrimWellFormed(Object(e.rest));
    TrimMembersAt(e.rest);
    TrimMembersAt(ms);
    FieldsAt(xs);
    FieldsAt(ys);
    SameKeys(e.rest, xs, ms, ys);
    forall n ensures HasSeq(e, n) <==> n == a.seqNo {
      SeqField(e, a, n);
    }
  }

  lemma TrimmedObject(ms: seq<Member>)
    ensures Trim(Object(ms)) == Object(TrimMembers(ms))
  {
  }

  lemma SameKeys(rest: seq<Member>, xs: seq<Member>, ms: seq<Member>, ys: seq<Member>)
    requires |xs| == |rest| && |ys| == |ms| && FieldsOf(xs) == FieldsOf(ys)
    requires DistinctKeys(xs) && DistinctKeys(ys)
    requires (forall i :: 0 <= i < |xs| ==> xs[i].key == rest[i].key) && (forall i :: 0 <= i < |ys| ==> ys[i].key == ms[i].key)
    ensures KeysOf(rest) == KeysOf(ms)
  {
    hide FieldsOf, DistinctKeys;
    FieldsAt(xs);
    FieldsAt(ys);
    forall m | m in rest ensures m.key in KeysOf(ms) {
      var i :| 0 <= i < |rest| && rest[i] == m;
      assert xs[i].key in FieldsOf(ys);
      var j :| 0 <= j < |ys| && ys[j].key == m.key;
      assert ms[j] in ms;
    }
    forall m | m in ms ensures m.key in KeysOf(rest) {
      var i :| 0 <= i < |ms| && ms[i] == m;
      assert ys[i].key in FieldsOf(xs);
      var j :| 0 <= j < |xs| && xs[j].key == m.key;
      assert rest[j] in rest;
    }
  }

  lemma SeqField(e: RawEntry, a: AuditEntry, n: int)
    requires WellFormed(Object(e.rest)) && IsLogged(e, a)
    ensures HasSeq(e, n) <==> n == a.seqNo
  {
    hide MeaningOf, Trim, FieldsOf, OfInt, TrimMembers, DistinctKeys;
    var ms := EntryMembers(a, a.payload.value);
    var xs, ys := TrimMembers(e.rest), TrimMembers(ms);
    TrimmedEntry(a);
    TrimmedObject(e.rest);
    ObjectFields(xs);
    ObjectFields(ys);
    TrimWellFormed(Object(e.rest));
    TrimMembersAt(e.rest);
    TrimMembersAt(ms);
    FieldsAt(xs);
    FieldsAt(ys);
    var seqValue := Number(Exact(OfInt(a.seqNo)));
    assert ys[0] == Member(K_SEQ, Trim(seqValue));
    assert FieldsOf(xs)[K_SEQ] == MeaningOf(Trim(seqValue));
    var i :| 0 <= i < |xs| && xs[i].key == K_SEQ;
    assert e.rest[i].key == K_SEQ && MeaningOf(Trim(e.rest[i].value)) == MeaningOf(Trim(seqValue));
    NumberMeaning(e.rest[i].value, a.seqNo);
    if HasSeq(e, n) {
      var k :| 0 <= k < |e.rest| && e.rest[k] == Member(K_SEQ, Number(Exact(OfInt(n))));
      assert xs[k].key == K_SEQ;
      SameIndex(xs, i, k);
      OfIntInjective(n, a.seqNo);
    }
  }

  lemma SameIndex(xs: seq<Member>, i: nat, k: nat)
    requires DistinctKeys(xs) && i < |xs| && k < |xs| && xs[i].key == xs[k].key
    ensures i == k
  {
  }

  lemma NumberMeaning(j: Json, n: int)
    ensures MeaningOf(Trim(j)) == MeaningOf(Trim(Number(Exact(OfInt(n))))) <==> j == Number(Exact(OfInt(n)))
  {
    hide OfInt;
  }

  /**
   A list of entries of any shape that passes the digest, order and inclusion checks against the root of a real log is a
   subsequence of that log: strictly rising places whose entries have the same members and the same hash.
   */
  lemma RawBundleSound(h: Hash, entries: seq<RawEntry>, proofs: seq<InclusionProof>, log: seq<AuditEntry>) returns (at: seq<nat>)
    requires Linked(h, log) && |proofs| == |entries| && RawOrdered(entries)
    requires forall i :: 0 <= i < |entries| ==>
               && WellFormed(Object(entries[i].rest)) && RawHashes(h, entries[i])
               && InclusionVerdict(h, proofs[i], FromHex(entries[i].entryHash), LogRoot(h, LogData(log))).Valid?
    ensures || (&& |at| == |entries|
                && (forall i :: 0 <= i < |at| ==> at[i] < |log| && IsLogged(entries[i], log[at[i]]))
                && (forall i, j :: 0 <= i < j < |at| ==> at[i] < at[j]))
            || exists i :: 0 <= i < |entries| && Collision(h, LogInputs(h, log), RawInputs(h, entries[i], proofs[i]))
  {
    hide Linked, RawHashes, InclusionVerdict, LogRoot, Collision, LogInputs, RawInputs, IsLogged, HasSeq, WellFormed, FromHex;
    at := [];
    for i := 0 to |entries|
      invariant |at| == i && forall k :: 0 <= k < i ==> at[k] < |log| && IsLogged(entries[k], log[at[k]])
      invariant forall j, k :: 0 <= j < k < i ==> at[j] < at[k]
    {
      var j := RawEntryLogged(h, entries[i], proofs[i], log);
      if Collision(h, LogInputs(h, log), RawInputs(h, entries[i], proofs[i])) {
        return;
      }
      if i > 0 {
        Rises(h, entries, i, log, at[i - 1], j);
      }
      at := at + [j];
    }
  }

  lemma Rises(h: Hash, entries: seq<RawEntry>, i: nat, log: seq<AuditEntry>, j: nat, k: nat)
    requires Linked(h, log) && 0 < i < |entries| && RawOrdered(entries) && j < |log| && k < |log|
    requires WellFormed(Object(entries[i - 1].rest)) && WellFormed(Object(entries[i].rest))
    requires IsLogged(entries[i - 1], log[j]) && IsLogged(entries[i], log[k])
    ensures j < k
  {
    hide Linked, IsLogged, HasSeq, WellFormed, EntryDigest, Genesis;
    LinkedAt(h, log, j);
    LinkedAt(h, log, k);
    LoggedMembersExact(entries[i - 1], log[j]);
    LoggedMembersExact(entries[i], log[k]);
    assert HasSeq(entries[i - 1], j) && HasSeq(entries[i], k);
    assert RisesAfter(entries[i - 1], entries[i]);
  }
}
