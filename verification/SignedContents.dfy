/** What the signature of a bundle covers: the signed bytes determine everything the checks look at. */
module SignedContents {
  import opened Wrappers
  import opened Bytes
  import opened Text
  import opened Decimals
  import opened Json
  import opened JsonStrings
  import opened CanonicalText
  import N = NumberText
  import opened MerkleTrees
  import opened AuditChain
  import opened EvidenceBundles
  import opened BundleMeaning

  /** The names of the signed properties. */
  lemma BundleNames()
    ensures K_ENTRIES == Ascii("entries") && K_ENTRY_HASH == Ascii("entryHash") && K_LOG_ROOT == Ascii("logRoot")
    ensures K_LOG_SIZE == Ascii("logSize") && K_PROOFS == Ascii("inclusionProofs") && K_MANIFEST == Ascii("manifest")
    ensures K_MANIFEST_DIGEST == Ascii("manifestDigest") && K_LEAF_INDEX == Ascii("leafIndex")
    ensures K_TREE_SIZE == Ascii("treeSize") && K_PATH == Ascii("path")
  {
  }

  /** Equal up to the order of keys at every level, and up to an array of one empty slot being an empty one. */
  ghost predicate Alike(a: Json, b: Json) {
    MeaningOf(Trim(a)) == MeaningOf(Trim(b))
  }

  /** What the other properties of the bundle say; the texts of the dates are among them. */
  function RestOf(c: Contents): map<JsString, Meaning> {
    FieldsOf(TrimMembers(c.rest))
  }

  /** Two bundles that say the same in everything that is checked. */
  ghost predicate SameContents(a: Contents, b: Contents) {
    && |a.entries| == |b.entries|
    && (forall i :: 0 <= i < |a.entries| ==> SameEntry(a.entries[i], b.entries[i]))
    && a.logRoot == b.logRoot
    && a.logSize == b.logSize
    && (forall n :: ProofFor(a.proofs, n) == ProofFor(b.proofs, n))
    && a.manifest.Some? && b.manifest.Some? && Alike(a.manifest.value, b.manifest.value)
    && a.manifestDigest == b.manifestDigest
    && RestOf(a) == RestOf(b)
  }

  // ---------------------------------------------------------------- comparing values

  lemma TrimmedFields(ms: seq<Member>)
    requires WellFormed(Object(ms))
    ensures Trim(Object(ms)) == Object(TrimMembers(ms)) && DistinctKeys(TrimMembers(ms)) && DistinctKeys(ms)
    ensures |TrimMembers(ms)| == |ms|
    ensures MeaningOf(Trim(Object(ms))) == MObject(FieldsOf(TrimMembers(ms)))
    ensures forall i :: 0 <= i < |ms| ==> TrimMembers(ms)[i] == Member(ms[i].key, Trim(ms[i].value))
  {
    hide WellFormed, FieldsOf, Trim;
    TrimWellFormed(Object(ms));
    TrimMembersAt(ms);
    TrimObject(ms);
    KeysDistinct(ms);
    KeysDistinct(TrimMembers(ms));
  }

  lemma TrimObject(ms: seq<Member>)
    ensures Trim(Object(ms)) == Object(TrimMembers(ms))
  {
  }

  lemma KeysDistinct(ms: seq<Member>)
    requires WellFormed(Object(ms))
    ensures DistinctKeys(ms)
  {
  }

  /** Alike objects have the same keys, and alike values under each. */
  lemma FieldAlike(ms: seq<Member>, ns: seq<Member>, i: nat) returns (j: nat)
    requires WellFormed(Object(ms)) && WellFormed(Object(ns)) && Alike(Object(ms), Object(ns)) && i < |ms|
    ensures j < |ns| && ns[j].key == ms[i].key && Alike(ms[i].value, ns[j].value)
  {
    hide WellFormed, FieldsOf, Trim, DistinctKeys, TrimMembers;
    TrimmedFields(ms);
    TrimmedFields(ns);
    FieldsAt(TrimMembers(ms));
    FieldsAt(TrimMembers(ns));
    assert TrimMembers(ms)[i].key in FieldsOf(TrimMembers(ns));
    j :| 0 <= j < |TrimMembers(ns)| && TrimMembers(ns)[j].key == ms[i].key;
  }

  /** In particular at a key whose place is known in both. */
  lemma FieldAt(ms: seq<Member>, ns: seq<Member>, i: nat, j: nat)
    requires WellFormed(Object(ms)) && WellFormed(Object(ns)) && Alike(Object(ms), Object(ns))
    requires i < |ms| && j < |ns| && ms[i].key == ns[j].key
    ensures Alike(ms[i].value, ns[j].value)
  {
    hide WellFormed, Alike;
    var k := FieldAlike(ms, ns, i);
    KeysDistinct(ns);
    OneIndex(ns, j, k);
  }

  lemma OneIndex(ns: seq<Member>, j: nat, k: nat)
    requires DistinctKeys(ns) && j < |ns| && k < |ns| && ns[j].key == ns[k].key
    ensures j == k
  {
  }

  lemma StringAlike(s: JsString, t: JsString)
    requires Alike(String(s), String(t))
    ensures s == t
  {
  }

  lemma IntegerAlike(m: int, n: int)
    requires Alike(Integer(m), Integer(n))
    ensures m == n
  {
    hide OfInt;
    OfIntInjective(m, n);
  }

  /** Alike arrays without a lone empty slot are alike item by item. */
  lemma ArrayAlike(xs: seq<Json>, ys: seq<Json>)
    requires Alike(Array(xs), Array(ys)) && xs != [Blank] && ys != [Blank]
    ensures |xs| == |ys| && forall i :: 0 <= i < |xs| ==> Alike(xs[i], ys[i])
  {
    TrimArray(xs);
    TrimArray(ys);
    hide MeaningsOf, Trim, TrimItems;
    TrimItemsAt(xs);
    TrimItemsAt(ys);
    forall i | 0 <= i < |xs| ensures Alike(xs[i], ys[i]) {
      MeaningsAt(TrimItems(xs), i);
      MeaningsAt(TrimItems(ys), i);
    }
  }

  lemma TrimArray(xs: seq<Json>)
    requires xs != [Blank]
    ensures Trim(Array(xs)) == Array(TrimItems(xs)) && |TrimItems(xs)| == |xs|
    ensures MeaningOf(Trim(Array(xs))) == MArray(MeaningsOf(TrimItems(xs)))
  {
    TrimItemsAt(xs);
  }

  // ---------------------------------------------------------------- the parts

  lemma {:induction false} EntryObjectAt(entries: seq<AuditEntry>, i: nat)
    requires EntryObjects(entries).Some? && i < |entries|
    ensures |EntryObjects(entries).value| == |entries| && entries[i].payload.Some?
    ensures EntryObjects(entries).value[i] == Object(SealedMembers(entries[i]))
  {
    hide EntryMembers;
    EntryObjectsCount(entries[1..]);
    if i > 0 {
      EntryObjectAt(entries[1..], i - 1);
    }
  }

  lemma {:induction false} EntryObjectsCount(entries: seq<AuditEntry>)
    ensures EntryObjects(entries).Some? ==> |EntryObjects(entries).value| == |entries|
    ensures EntryObjects(entries).Some? && entries != [] ==> EntryObjects(entries).value[0].Object?
  {
    hide EntryMembers;
    if entries != [] {
      EntryObjectsCount(entries[1..]);
    }
  }

  /** An entry as it stands in a bundle, its hash with it. */
  function SealedMembers(e: AuditEntry): seq<Member>
    requires e.payload.Some?
  {
    EntryMembers(e, e.payload.value) + [Member(K_ENTRY_HASH, String(e.entryHash))]
  }

  lemma EntryAlike(a: AuditEntry, b: AuditEntry)
    requires a.payload.Some? && b.payload.Some?
    requires WellFormed(Object(SealedMembers(a))) && WellFormed(Object(SealedMembers(b)))
    requires Alike(Object(SealedMembers(a)), Object(SealedMembers(b)))
    ensures SameEntry(a, b)
  {
    hide WellFormed, Alike, EntryMembers, OfInt;
    var ms, ns := SealedMembers(a), SealedMembers(b);
    EntryFields(a, a.payload.value);
    EntryFields(b, b.payload.value);
    forall i | 0 <= i < 9 ensures Alike(ms[i].value, ns[i].value) {
      FieldAt(ms, ns, i, i);
    }
    assert ms[0].value == Integer(a.seqNo) && ns[0].value == Integer(b.seqNo);
    IntegerAlike(a.seqNo, b.seqNo);
    assert Alike(ms[1].value, ns[1].value) && Alike(ms[2].value, ns[2].value) && Alike(ms[3].value, ns[3].value);
    assert Alike(ms[4].value, ns[4].value) && Alike(ms[5].value, ns[5].value) && Alike(ms[6].value, ns[6].value);
    assert Alike(ms[7].value, ns[7].value) && Alike(ms[8].value, ns[8].value);
    StringAlike(a.recordedAt, b.recordedAt);
    StringAlike(a.action, b.action);
    StringAlike(a.actor, b.actor);
    StringAlike(a.tenantId, b.tenantId);
    SubjectAlike(a.subject, b.subject);
    StringAlike(a.previousHash, b.previousHash);
    StringAlike(a.entryHash, b.entryHash);
    PayloadAlike(a.payload.value, b.payload.value);
  }

  lemma SubjectAlike(s: Option<JsString>, t: Option<JsString>)
    requires Alike(if s.Some? then String(s.value) else Null, if t.Some? then String(t.value) else Null)
    ensures s == t
  {
  }

  lemma PayloadAlike(p: Json, q: Json)
    ensures Alike(p, q) ==> MeaningOf(Trim(p)) == MeaningOf(Trim(q))
  {
  }

  lemma EntriesAlike(a: seq<AuditEntry>, b: seq<AuditEntry>)
    requires EntryObjects(a).Some? && EntryObjects(b).Some?
    requires WellFormed(Array(EntryObjects(a).value)) && WellFormed(Array(EntryObjects(b).value))
    requires Alike(Array(EntryObjects(a).value), Array(EntryObjects(b).value))
    ensures |a| == |b| && forall i :: 0 <= i < |a| ==> SameEntry(a[i], b[i])
  {
    hide WellFormed, Alike, SealedMembers, SameEntry, EntryObjects;
    var xs, ys := EntryObjects(a).value, EntryObjects(b).value;
    EntryObjectsCount(a);
    EntryObjectsCount(b);
    ArrayAlike(xs, ys);
    forall i | 0 <= i < |a| ensures SameEntry(a[i], b[i]) {
      EntryObjectAt(a, i);
      EntryObjectAt(b, i);
      ItemWellFormed(xs, i);
      ItemWellFormed(ys, i);
      EntryAlike(a[i], b[i]);
    }
  }

  lemma ItemWellFormed(xs: seq<Json>, i: nat)
    requires WellFormed(Array(xs)) && i < |xs|
    ensures WellFormed(xs[i])
  {
  }

  lemma MemberWellFormed(ms: seq<Member>, i: nat)
    requires WellFormed(Object(ms)) && i < |ms|
    ensures WellFormed(ms[i].value) && !ms[i].value.Blank?
  {
  }

  function ProofMembers(p: InclusionProof): seq<Member> {
    [ Member(K_LEAF_INDEX, Integer(p.leafIndex)),
      Member(K_TREE_SIZE, Integer(p.treeSize)),
      Member(K_PATH, Array(Strings(p.path))) ]
  }

  function Strings(path: seq<JsString>): seq<Json> {
    seq(|path|, i requires 0 <= i < |path| => String(path[i]))
  }

  lemma ProofObjectIs(p: ProofAt)
    ensures ProofObject(p) == Member(N.Print(OfInt(p.seqNo)), Object(ProofMembers(p.proof)))
  {
    hide OfInt, N.Print;
    assert seq(|p.proof.path|, i requires 0 <= i < |p.proof.path| => String(p.proof.path[i])) == Strings(p.proof.path);
  }

  lemma ProofAlike(p: InclusionProof, q: InclusionProof)
    requires WellFormed(Object(ProofMembers(p))) && WellFormed(Object(ProofMembers(q)))
    requires Alike(Object(ProofMembers(p)), Object(ProofMembers(q)))
    ensures p == q
  {
    hide WellFormed, Alike, OfInt, Strings;
    var ms, ns := ProofMembers(p), ProofMembers(q);
    FieldAt(ms, ns, 0, 0);
    FieldAt(ms, ns, 1, 1);
    FieldAt(ms, ns, 2, 2);
    IntegerAlike(p.leafIndex, q.leafIndex);
    IntegerAlike(p.treeSize, q.treeSize);
    StringsAlike(p.path, q.path);
  }

  lemma StringsAlike(p: seq<JsString>, q: seq<JsString>)
    requires Alike(Array(Strings(p)), Array(Strings(q)))
    ensures p == q
  {
    hide Alike;
    assert (p != [] ==> Strings(p)[0].String?) && (q != [] ==> Strings(q)[0].String?);
    ArrayAlike(Strings(p), Strings(q));
    forall i | 0 <= i < |p| ensures p[i] == q[i] {
      assert Alike(Strings(p)[i], Strings(q)[i]);
      StringAlike(p[i], q[i]);
    }
  }

  function ProofObjects(ps: seq<ProofAt>): (r: seq<Member>)
    ensures |r| == |ps| && forall i :: 0 <= i < |ps| ==> r[i] == ProofObject(ps[i])
  {
    seq(|ps|, i requires 0 <= i < |ps| => ProofObject(ps[i]))
  }

  lemma SeqKey(m: int, n: int)
    requires N.Print(OfInt(m)) == N.Print(OfInt(n))
    ensures m == n
  {
    hide OfInt, N.Print;
    N.PrintInjective(OfInt(m), OfInt(n));
    OfIntInjective(m, n);
  }

  lemma OneProof(ps: seq<ProofAt>, i: nat, j: nat)
    requires WellFormed(Object(ProofObjects(ps))) && i < |ps| && j < |ps| && ps[i].seqNo == ps[j].seqNo
    ensures i == j
  {
    hide WellFormed, OfInt, N.Print, ProofMembers;
    KeysDistinct(ProofObjects(ps));
    ProofObjectIs(ps[i]);
    ProofObjectIs(ps[j]);
    OneIndex(ProofObjects(ps), i, j);
  }

  /** With distinct keys a proof is found wherever it is listed. */
  lemma {:induction false} ProofFound(ps: seq<ProofAt>, i: nat)
    requires i < |ps| && forall j :: 0 <= j < |ps| && ps[j].seqNo == ps[i].seqNo ==> j == i
    ensures ProofFor(ps, ps[i].seqNo) == Some(ps[i].proof)
  {
    if i > 0 {
      assert forall j :: 0 <= j < |ps| - 1 ==> ps[1..][j] == ps[j + 1];
      ProofFound(ps[1..], i - 1);
    }
  }

  lemma ProofsWithin(ps: seq<ProofAt>, qs: seq<ProofAt>, n: int)
    requires WellFormed(Object(ProofObjects(ps))) && WellFormed(Object(ProofObjects(qs)))
    requires Alike(Object(ProofObjects(ps)), Object(ProofObjects(qs))) && ProofFor(ps, n).Some?
    ensures ProofFor(qs, n) == ProofFor(ps, n)
  {
    hide WellFormed, Alike, ProofFor, OfInt, N.Print, ProofMembers;
    var ms, ns := ProofObjects(ps), ProofObjects(qs);
    ProofForMeaning(ps, n);
    var i :| 0 <= i < |ps| && ps[i] == ProofAt(n, ProofFor(ps, n).value);
    var j := FieldAlike(ms, ns, i);
    ProofObjectIs(ps[i]);
    ProofObjectIs(qs[j]);
    SeqKey(ps[i].seqNo, qs[j].seqNo);
    MemberWellFormed(ms, i);
    MemberWellFormed(ns, j);
    ProofAlike(ps[i].proof, qs[j].proof);
    forall l | 0 <= l < |qs| && qs[l].seqNo == qs[j].seqNo ensures l == j {
      OneProof(qs, l, j);
    }
    ProofFound(qs, j);
  }

  lemma ProofsAlike(ps: seq<ProofAt>, qs: seq<ProofAt>)
    requires WellFormed(Object(ProofObjects(ps))) && WellFormed(Object(ProofObjects(qs)))
    requires Alike(Object(ProofObjects(ps)), Object(ProofObjects(qs)))
    ensures forall n :: ProofFor(ps, n) == ProofFor(qs, n)
  {
    hide WellFormed, ProofFor, ProofObjects;
    forall n ensures ProofFor(ps, n) == ProofFor(qs, n) {
      if ProofFor(ps, n).Some? {
        ProofsWithin(ps, qs, n);
      } else if ProofFor(qs, n).Some? {
        ProofsWithin(qs, ps, n);
      }
    }
  }

  // ---------------------------------------------------------------- the whole

  function OwnMembers(c: Contents): seq<Member>
    requires EntryObjects(c.entries).Some? && c.manifest.Some?
  {
    [ Member(K_ENTRIES, Array(EntryObjects(c.entries).value)),
      Member(K_LOG_ROOT, String(c.logRoot)),
      Member(K_LOG_SIZE, Integer(c.logSize)),
      Member(K_PROOFS, Object(ProofObjects(c.proofs))),
      Member(K_MANIFEST, c.manifest.value),
      Member(K_MANIFEST_DIGEST, String(c.manifestDigest)) ]
  }

  lemma ContentsAre(c: Contents)
    requires ContentsJson(c).Some?
    ensures EntryObjects(c.entries).Some? && c.manifest.Some?
    ensures ContentsJson(c) == Some(Object(c.rest + OwnMembers(c)))
    ensures forall i :: 0 <= i < 6 ==> (c.rest + OwnMembers(c))[|c.rest| + i] == OwnMembers(c)[i]
  {
    hide EntryObjects, ProofObject, OfInt;
    assert seq(|c.proofs|, i requires 0 <= i < |c.proofs| => ProofObject(c.proofs[i])) == ProofObjects(c.proofs);
  }

  lemma OwnAlike(a: Contents, b: Contents, t: nat)
    requires ContentsJson(a).Some? && ContentsJson(b).Some? && t < 6
    requires WellFormed(ContentsJson(a).value) && WellFormed(ContentsJson(b).value)
    requires Alike(ContentsJson(a).value, ContentsJson(b).value)
    ensures EntryObjects(a.entries).Some? && a.manifest.Some? && EntryObjects(b.entries).Some? && b.manifest.Some?
    ensures WellFormed(OwnMembers(a)[t].value) && WellFormed(OwnMembers(b)[t].value)
    ensures Alike(OwnMembers(a)[t].value, OwnMembers(b)[t].value)
  {
    hide WellFormed, Alike, ContentsJson, EntryObjects, ProofObjects, OfInt;
    ContentsAre(a);
    ContentsAre(b);
    var ms, ns := a.rest + OwnMembers(a), b.rest + OwnMembers(b);
    assert ms[|a.rest| + t].key == OwnMembers(a)[t].key == OwnMembers(b)[t].key == ns[|b.rest| + t].key;
    FieldAt(ms, ns, |a.rest| + t, |b.rest| + t);
    MemberWellFormed(ms, |a.rest| + t);
    MemberWellFormed(ns, |b.rest| + t);
  }

  lemma RestNotOwn(rest: seq<Member>, own: seq<Member>, i: nat, t: nat)
    requires DistinctKeys(rest + own) && i < |rest| && t < |own|
    ensures rest[i].key != own[t].key
  {
    assert (rest + own)[i] == rest[i] && (rest + own)[|rest| + t] == own[t];
  }

  lemma OwnKey(a: Contents, b: Contents, j: nat)
    requires EntryObjects(a.entries).Some? && a.manifest.Some? && EntryObjects(b.entries).Some? && b.manifest.Some?
    requires |b.rest| <= j < |b.rest + OwnMembers(b)|
    ensures (b.rest + OwnMembers(b))[j].key == OwnMembers(a)[j - |b.rest|].key
  {
    hide EntryObjects, ProofObjects, OfInt;
  }

  lemma OwnNotRest(a: Contents, b: Contents, i: nat, j: nat)
    requires EntryObjects(a.entries).Some? && a.manifest.Some? && EntryObjects(b.entries).Some? && b.manifest.Some?
    requires DistinctKeys(a.rest + OwnMembers(a)) && i < |a.rest| && |b.rest| <= j < |b.rest + OwnMembers(b)|
    ensures a.rest[i].key != (b.rest + OwnMembers(b))[j].key
  {
    hide DistinctKeys, EntryObjects, ProofObjects, OfInt;
    OwnKey(a, b, j);
    RestNotOwn(a.rest, OwnMembers(a), i, j - |b.rest|);
  }

  lemma RestWithin(a: Contents, b: Contents, i: nat) returns (j: nat)
    requires ContentsJson(a).Some? && ContentsJson(b).Some? && i < |a.rest|
    requires WellFormed(ContentsJson(a).value) && WellFormed(ContentsJson(b).value)
    requires Alike(ContentsJson(a).value, ContentsJson(b).value)
    ensures j < |b.rest| && b.rest[j].key == a.rest[i].key && Alike(a.rest[i].value, b.rest[j].value)
  {
    hide WellFormed, Alike, ContentsJson, EntryObjects, ProofObjects, OfInt, DistinctKeys;
    ContentsAre(a);
    ContentsAre(b);
    var ms, ns := a.rest + OwnMembers(a), b.rest + OwnMembers(b);
    j := FieldAlike(ms, ns, i);
    KeysDistinct(ms);
    if j >= |b.rest| {
      OwnNotRest(a, b, i, j);
    }
    assert ms[i] == a.rest[i] && ns[j] == b.rest[j];
  }

  lemma RestDistinct(c: Contents)
    requires ContentsJson(c).Some? && WellFormed(ContentsJson(c).value)
    ensures WellFormed(Object(c.rest))
  {
    hide ContentsJson, EntryObjects, ProofObjects, OfInt;
    ContentsAre(c);
    var ms := c.rest + OwnMembers(c);
    forall i, j | 0 <= i < j < |c.rest| ensures c.rest[i].key != c.rest[j].key {
      assert ms[i] == c.rest[i] && ms[j] == c.rest[j];
    }
    forall i | 0 <= i < |c.rest| ensures !c.rest[i].value.Blank? && WellFormed(c.rest[i].value) {
      assert ms[i] == c.rest[i];
    }
  }

  lemma RestAlike(a: Contents, b: Contents)
    requires ContentsJson(a).Some? && ContentsJson(b).Some?
    requires WellFormed(ContentsJson(a).value) && WellFormed(ContentsJson(b).value)
    requires Alike(ContentsJson(a).value, ContentsJson(b).value)
    ensures RestOf(a) == RestOf(b)
  {
    hide WellFormed, ContentsJson, FieldsOf, Trim, TrimMembers, DistinctKeys;
    RestDistinct(a);
    RestDistinct(b);
    TrimmedFields(a.rest);
    TrimmedFields(b.rest);
    FieldsAt(TrimMembers(a.rest));
    FieldsAt(TrimMembers(b.rest));
    forall k | k in RestOf(a) ensures k in RestOf(b) && RestOf(a)[k] == RestOf(b)[k] {
      var i :| 0 <= i < |TrimMembers(a.rest)| && TrimMembers(a.rest)[i].key == k;
      var j := RestWithin(a, b, i);
      assert TrimMembers(b.rest)[j].key == k;
    }
    forall k | k in RestOf(b) ensures k in RestOf(a) {
      var i :| 0 <= i < |TrimMembers(b.rest)| && TrimMembers(b.rest)[i].key == k;
      var j := RestWithin(b, a, i);
      assert TrimMembers(a.rest)[j].key == k;
    }
  }

  /** Contents that are an object with distinct keys throughout and have a canonical text, as all that is signed has. */
  predicate Signable(c: Contents) {
    ContentsJson(c).Some? && WellFormed(ContentsJson(c).value) && ContentsText(c).Some?
  }

  /** The bytes that are signed. */
  function SignedBytes(c: Contents): Bytes
    requires Signable(c)
  {
    Utf8(ContentsText(c).value)
  }

  /** The key verifies nothing but what was signed. */
  ghost predicate VerifiesOnly(keys: KeyPair, signed: set<Contents>)
    requires forall c :: c in signed ==> Signable(c)
  {
    forall b, s :: keys.verify(b, s) ==> exists c :: c in signed && SignedBytes(c) == b
  }

  /**
   The signature covers everything that is checked: two bundles whose canonical texts have the same bytes say the same in
   every entry and its hash, the log root and size, every inclusion proof, the manifest, its digest and all other properties.
   */
  lemma SignedBytesPinContents(a: Contents, b: Contents)
    requires Signable(a) && Signable(b) && SignedBytes(a) == SignedBytes(b)
    ensures SameContents(a, b)
  {
    hide WellFormed, ContentsJson, Canonical, EntryObjects, ProofObjects, ProofFor, SameEntry, OfInt, FieldsOf, Trim, TrimMembers,
      MeaningOf;
    ContentsAre(a);
    ContentsAre(b);
    CanonicalBytesDecodable(ContentsJson(a).value, ContentsJson(b).value);
    OwnAlike(a, b, 0);
    EntriesAlike(a.entries, b.entries);
    OwnAlike(a, b, 1);
    StringAlike(a.logRoot, b.logRoot);
    OwnAlike(a, b, 2);
    IntegerAlike(a.logSize, b.logSize);
    OwnAlike(a, b, 3);
    ProofsAlike(a.proofs, b.proofs);
    OwnAlike(a, b, 4);
    OwnAlike(a, b, 5);
    StringAlike(a.manifestDigest, b.manifestDigest);
    RestAlike(a, b);
  }

  /**
   So, when the key verifies nothing but what was signed, every bundle the server accepts says the same as one that was
   signed.
   */
  lemma AcceptedIsSigned(h: Hash, keys: KeyPair, env: Envelope, signed: set<Contents>)
    requires AllChecks(ChecksOf(h, keys, env)) && ContentsJson(env.payload).Some? && WellFormed(ContentsJson(env.payload).value)
    requires (forall c :: c in signed ==> Signable(c)) && VerifiesOnly(keys, signed)
    ensures exists c :: c in signed && SameContents(env.payload, c)
  {
    hide ContentsJson, ContentsText, WellFormed, SameContents, ChecksOf, Utf8;
    ChecksMean(h, keys, env);
    var c :| c in signed && SignedBytes(c) == SignedBytes(env.payload);
    SignedBytesPinContents(env.payload, c);
  }
}
