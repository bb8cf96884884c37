/** The signed bundle: what `createBundle` assembles and what `verifyBundle` accepts (packages/server/src/evidence/evidence-bundle.ts). */
module EvidenceBundles {
  import opened Wrappers
  import opened Bytes
  import opened Text
  import opened Decimals
  import opened Json
  import opened JsonStrings
  import opened CanonicalText
  import N = NumberText
  import opened MerkleSpec
  import opened Climb
  import opened ClimbTheorems
  import opened MerkleTrees
  import opened ProofVerifier
  import opened AuditChain
  import opened AuditLogs

  /** One property of the record of inclusion proofs. */
  datatype ProofAt = ProofAt(seqNo: int, proof: InclusionProof)

  datatype Contents = Contents(
    entries: seq<AuditEntry>,
    logRoot: JsString,
    logSize: int,
    proofs: seq<ProofAt>,
    manifest: Payload,
    manifestDigest: JsString,
    retainUntil: Option<int>,   // milliseconds; None when the date does not parse
    generatedAt: Option<int>,
    rest: seq<Member>)          // every other property, the dates' texts among them

  datatype Signature = Signature(isEd25519: bool, value: Bytes)

  datatype Envelope = Envelope(payload: Contents, signature: Signature)

  /** The signing key and the public key, as the two operations on them. */
  datatype KeyPair = KeyPair(sign: Bytes -> Bytes, verify: (Bytes, Bytes) -> bool)

  function ProofFor(proofs: seq<ProofAt>, seqNo: int): Option<InclusionProof> {
    if proofs == [] then None
    else if proofs[0].seqNo == seqNo then Some(proofs[0].proof)
    else ProofFor(proofs[1..], seqNo)
  }

  // ---------------------------------------------------------------- the signed text

  const K_ENTRIES: JsString := [0x65, 0x6E, 0x74, 0x72, 0x69, 0x65, 0x73]  // entries
  const K_ENTRY_HASH: JsString := [0x65, 0x6E, 0x74, 0x72, 0x79, 0x48, 0x61, 0x73, 0x68]  // entryHash
  const K_LOG_ROOT: JsString := [0x6C, 0x6F, 0x67, 0x52, 0x6F, 0x6F, 0x74]  // logRoot
  const K_LOG_SIZE: JsString := [0x6C, 0x6F, 0x67, 0x53, 0x69, 0x7A, 0x65]  // logSize
  const K_PROOFS: JsString := [0x69, 0x6E, 0x63, 0x6C, 0x75, 0x73, 0x69, 0x6F, 0x6E, 0x50, 0x72, 0x6F, 0x6F, 0x66, 0x73]  // inclusionProofs
  const K_MANIFEST: JsString := [0x6D, 0x61, 0x6E, 0x69, 0x66, 0x65, 0x73, 0x74]  // manifest
  const K_MANIFEST_DIGEST: JsString := K_MANIFEST + [0x44, 0x69, 0x67, 0x65, 0x73, 0x74]  // manifestDigest
  const K_LEAF_INDEX: JsString := [0x6C, 0x65, 0x61, 0x66, 0x49, 0x6E, 0x64, 0x65, 0x78]  // leafIndex
  const K_TREE_SIZE: JsString := [0x74, 0x72, 0x65, 0x65, 0x53, 0x69, 0x7A, 0x65]  // treeSize
  const K_PATH: JsString := [0x70, 0x61, 0x74, 0x68]  // path

  function Integer(n: int): Json {
    Number(Exact(OfInt(n)))
  }

  function EntryObjects(entries: seq<AuditEntry>): Option<seq<Json>> {
    if entries == [] then Some([])
    else if entries[0].payload.None? then None
    else
      match EntryObjects(entries[1..])
      case None => None
      case Some(more) =>
        var e := entries[0];
        Some([Object(EntryMembers(e, e.payload.value) + [Member(K_ENTRY_HASH, String(e.entryHash))])] + more)
  }

  function ProofObject(p: ProofAt): Member {
    Member(
      N.Print(OfInt(p.seqNo)),
      Object([
        Member(K_LEAF_INDEX, Integer(p.proof.leafIndex)),
        Member(K_TREE_SIZE, Integer(p.proof.treeSize)),
        Member(K_PATH, Array(seq(|p.proof.path|, i requires 0 <= i < |p.proof.path| => String(p.proof.path[i]))))]))
  }

  /** The bundle contents as the value that is signed; None when some part of it has no JSON form. */
  function ContentsJson(c: Contents): Option<Json> {
    match EntryObjects(c.entries)
    case None => None
    case Some(entries) =>
      if c.manifest.None? then None
      else
        Some(Object(
          c.rest + [
            Member(K_ENTRIES, Array(entries)),
            Member(K_LOG_ROOT, String(c.logRoot)),
            Member(K_LOG_SIZE, Integer(c.logSize)),
            Member(K_PROOFS, Object(seq(|c.proofs|, i requires 0 <= i < |c.proofs| => ProofObject(c.proofs[i])))),
            Member(K_MANIFEST, c.manifest.value),
            Member(K_MANIFEST_DIGEST, String(c.manifestDigest))]))
  }

  function ContentsText(c: Contents): Option<JsString> {
    match ContentsJson(c)
    case None => None
    case Some(j) => Canonical(j)
  }

  function ManifestDigest(h: Hash, manifest: Payload): Option<JsString> {
    match manifest
    case None => None
    case Some(j) =>
      (match Canonical(j)
       case None => None
       case Some(text) => Some(ToHex(h(Utf8(text)))))
  }

  // ---------------------------------------------------------------- verifyBundle

  datatype SignatureReason = UnsupportedAlgorithm | NothingToSign | DoesNotMatch

  function SignatureProblem(keys: KeyPair, env: Envelope): Option<SignatureReason> {
    if !env.signature.isEd25519 then Some(UnsupportedAlgorithm)
    else
      match ContentsText(env.payload)
      case None => Some(NothingToSign)
      case Some(text) => if keys.verify(Utf8(text), env.signature.value) then None else Some(DoesNotMatch)
  }

  datatype Failure =
    | BadSignature(why: SignatureReason)
    | BrokenChain(link: ChainReason)
    | MissingProof(seqNo: int)
    | NotInLog(seqNo: int, reason: Reason)
    | ManifestMismatch
    | RetentionTooShort

  datatype Checks = Checks(signature: bool, chain: bool, inclusion: bool, manifest: bool, retention: bool)

  datatype BundleVerification = BundleVerification(valid: bool, checks: Checks, failures: seq<Failure>)

  const MINIMUM_RETENTION_DAYS := 183
  const MILLISECONDS_A_DAY := 86_400_000

  /** `days >= 183`; a date that does not parse makes the comparison false. */
  predicate RetainedLongEnough(c: Contents) {
    && c.retainUntil.Some? && c.generatedAt.Some?
    && c.retainUntil.value - c.generatedAt.value >= MINIMUM_RETENTION_DAYS * MILLISECONDS_A_DAY
  }

  function InclusionFailure(h: Hash, c: Contents, e: AuditEntry): Option<Failure> {
    match ProofFor(c.proofs, e.seqNo)
    case None => Some(MissingProof(e.seqNo))
    case Some(proof) =>
      match InclusionVerdict(h, proof, FromHex(e.entryHash), c.logRoot)
      case Valid(_) => None
      case Invalid(reason, _) => Some(NotInLog(e.seqNo, reason))
  }

  predicate AllIncluded(h: Hash, c: Contents) {
    forall i :: 0 <= i < |c.entries| ==> InclusionFailure(h, c, c.entries[i]).None?
  }

  function InclusionFailures(h: Hash, c: Contents, n: nat): seq<Failure>
    requires n <= |c.entries|
  {
    if n == 0 then []
    else
      var before := InclusionFailures(h, c, n - 1);
      match InclusionFailure(h, c, c.entries[n - 1])
      case None => before
      case Some(f) => before + [f]
  }

  lemma {:induction false} NoInclusionFailures(h: Hash, c: Contents, n: nat)
    requires n <= |c.entries|
    ensures InclusionFailures(h, c, n) == [] <==> forall i :: 0 <= i < n ==> InclusionFailure(h, c, c.entries[i]).None?
  {
    hide InclusionFailure;
    if n > 0 {
      NoInclusionFailures(h, c, n - 1);
    }
  }

  /** What all five checks say of a bundle whose manifest can be digested. */
  function ChecksOf(h: Hash, keys: KeyPair, env: Envelope): Checks {
    var c := env.payload;
    Checks(
      SignatureProblem(keys, env).None?,
      SliceOk(h, c.entries),
      AllIncluded(h, c),
      ManifestDigest(h, c.manifest) == Some(c.manifestDigest),
      RetainedLongEnough(c))
  }

  predicate AllChecks(k: Checks) {
    k.signature && k.chain && k.inclusion && k.manifest && k.retention
  }

  /** Every entry must be provably in the log whose root is cited. */
  method CheckInclusion(h: Hash, c: Contents) returns (failures: seq<Failure>)
    ensures failures == InclusionFailures(h, c, |c.entries|)
  {
    hide InclusionVerdict, ProofFor;
    failures := [];
    for i := 0 to |c.entries|
      invariant failures == InclusionFailures(h, c, i)
    {
      var entry := c.entries[i];
      var proof := ProofFor(c.proofs, entry.seqNo);
      if proof.None? {
        failures := failures + [MissingProof(entry.seqNo)];
      } else {
        var result := VerifyInclusion(h, proof.value, FromHex(entry.entryHash), c.logRoot);
        if result.Invalid? {
          failures := failures + [NotInLog(entry.seqNo, result.reason)];
        }
      }
    }
  }

  function SignatureFailures(keys: KeyPair, env: Envelope): seq<Failure> {
    match SignatureProblem(keys, env) case None => [] case Some(why) => [BadSignature(why)]
  }

  function ChainFailures(h: Hash, c: Contents): seq<Failure> {
    match FirstSliceProblem(h, c.entries, 0) case None => [] case Some(link) => [BrokenChain(link)]
  }

  function ManifestFailures(h: Hash, c: Contents): seq<Failure> {
    if ManifestDigest(h, c.manifest) == Some(c.manifestDigest) then [] else [ManifestMismatch]
  }

  function RetentionFailures(c: Contents): seq<Failure> {
    if RetainedLongEnough(c) then [] else [RetentionTooShort]
  }

  /** Everything found wrong, in the order of the checks. */
  function FailuresOf(h: Hash, keys: KeyPair, env: Envelope): seq<Failure> {
    SignatureFailures(keys, env) + ChainFailures(h, env.payload) + InclusionFailures(h, env.payload, |env.payload.entries|)
    + ManifestFailures(h, env.payload) + RetentionFailures(env.payload)
  }

  /** Nothing is found wrong exactly when all five checks hold. */
  lemma NoFailures(h: Hash, keys: KeyPair, env: Envelope)
    ensures FailuresOf(h, keys, env) == [] <==> AllChecks(ChecksOf(h, keys, env))
  {
    hide SignatureProblem, SliceOk, FirstSliceProblem, ManifestDigest, InclusionFailures, InclusionFailure, RetainedLongEnough;
    NoInclusionFailures(h, env.payload, |env.payload.entries|);
    SliceDecided(h, env.payload.entries);
  }

  lemma SliceDecided(h: Hash, entries: seq<AuditEntry>)
    ensures FirstSliceProblem(h, entries, 0).None? <==> SliceOk(h, entries)
  {
    hide HashProblem;
    if SliceOk(h, entries) {
      NoSliceProblem(h, entries, 0);
    }
    if FirstSliceProblem(h, entries, 0).None? {
      AscendsFrom(h, entries, 0);
    }
  }

  lemma {:induction false} NoSliceProblem(h: Hash, entries: seq<AuditEntry>, i: nat)
    requires i <= |entries| && SliceOk(h, entries)
    ensures FirstSliceProblem(h, entries, i).None?
    decreases |entries| - i
  {
    hide HashProblem;
    if i < |entries| {
      NoSliceProblem(h, entries, i + 1);
    }
  }

  lemma {:induction false} AscendsFrom(h: Hash, entries: seq<AuditEntry>, i: nat)
    requires i <= |entries| && FirstSliceProblem(h, entries, i).None?
    ensures forall k :: i <= k < |entries| ==>
                          && HashProblem(h, entries[k]).None?
                          && (if i == 0 then -1 else entries[i - 1].seqNo) < entries[k].seqNo
    ensures forall j, k :: i <= j < k < |entries| ==> entries[j].seqNo < entries[k].seqNo
    decreases |entries| - i
  {
    hide HashProblem;
    if i < |entries| {
      AscendsFrom(h, entries, i + 1);
    }
  }

  /** The auditor's function. It throws, instead of answering, on a manifest that has no canonical form. */
  method VerifyBundle(h: Hash, keys: KeyPair, env: Envelope) returns (r: Option<BundleVerification>)
    ensures r.None? <==> ManifestDigest(h, env.payload.manifest).None?
    ensures r.Some? ==> r.value.checks == ChecksOf(h, keys, env)
    ensures r.Some? ==> (r.value.valid <==> AllChecks(ChecksOf(h, keys, env)))
    ensures r.Some? ==> r.value.failures == FailuresOf(h, keys, env)
  {
    hide SignatureProblem, SliceOk, FirstSliceProblem, ManifestDigest, InclusionFailures, InclusionFailure, RetainedLongEnough,
      AllChecks;
    var failures: seq<Failure> := [];
    var c := env.payload;

    var sig := SignatureProblem(keys, env);
    if sig.Some? {
      failures := failures + [BadSignature(sig.value)];
    }
    assert failures == SignatureFailures(keys, env);

    var chain := VerifyEntrySlice(h, c.entries);
    if chain.Broken? {
      failures := failures + [BrokenChain(chain.reason)];
    }
    assert failures == SignatureFailures(keys, env) + ChainFailures(h, c);

    var missing := CheckInclusion(h, c);
    failures := failures + missing;
    var inclusionOk := missing == [];
    NoInclusionFailures(h, c, |c.entries|);

    var recomputed := ManifestDigest(h, c.manifest);
    if recomputed.None? {
      return None;
    }
    var manifestOk := recomputed.value == c.manifestDigest;
    if !manifestOk {
      failures := failures + [ManifestMismatch];
    }

    var retentionOk := RetainedLongEnough(c);
    if !retentionOk {
      failures := failures + [RetentionTooShort];
    }
    assert failures == FailuresOf(h, keys, env);
    NoFailures(h, keys, env);
    r := Some(BundleVerification(
      failures == [],
      Checks(sig.None?, chain.Intact?, inclusionOk, manifestOk, retentionOk),
      failures));
  }

  // ---------------------------------------------------------------- createBundle

  datatype BundleError =
    | NoEntries
    | ChainDoesNotVerify(link: ChainReason)
    | EntryWithoutProof(seqNo: int)
    | RetentionBelowMinimum
    | ManifestNotCanonical
    | InvalidDate
    | ContentsNotCanonical

  datatype BundleInput = BundleInput(
    entries: seq<AuditEntry>,
    logRoot: JsString,
    logSize: int,
    proofs: seq<ProofAt>,
    manifest: Payload,
    retainUntil: Option<int>,
    generatedAt: Option<int>,
    rest: seq<Member>)

  function FirstWithoutProof(entries: seq<AuditEntry>, proofs: seq<ProofAt>): Option<int> {
    if entries == [] then None
    else if ProofFor(proofs, entries[0].seqNo).None? then Some(entries[0].seqNo)
    else FirstWithoutProof(entries[1..], proofs)
  }

  /** The contents a bundle over this input holds. */
  function Assembled(input: BundleInput, digest: JsString): Contents {
    Contents(input.entries, input.logRoot, input.logSize, input.proofs, input.manifest, digest,
             input.retainUntil, input.generatedAt, input.rest)
  }

  /** The bundle, or the first reason not to sign one. */
  function Bundled(h: Hash, keys: KeyPair, input: BundleInput): Result<Envelope, BundleError> {
    if input.entries == [] then Err(NoEntries)
    else if FirstSliceProblem(h, input.entries, 0).Some? then
      Err(ChainDoesNotVerify(FirstSliceProblem(h, input.entries, 0).value))
    else if FirstWithoutProof(input.entries, input.proofs).Some? then
      Err(EntryWithoutProof(FirstWithoutProof(input.entries, input.proofs).value))
    else if input.retainUntil.Some? && input.generatedAt.Some?
            && input.retainUntil.value - input.generatedAt.value < MINIMUM_RETENTION_DAYS * MILLISECONDS_A_DAY then
      Err(RetentionBelowMinimum)
    else
      match ManifestDigest(h, input.manifest)
      case None => Err(ManifestNotCanonical)
      case Some(digest) =>
        if input.retainUntil.None? || input.generatedAt.None? then Err(InvalidDate)
        else
          var contents := Assembled(input, digest);
          match ContentsText(contents)
          case None => Err(ContentsNotCanonical)
          case Some(text) => Ok(Envelope(contents, Signature(true, keys.sign(Utf8(text)))))
  }

  method CreateBundle(h: Hash, keys: KeyPair, input: BundleInput) returns (r: Result<Envelope, BundleError>)
    ensures r == Bundled(h, keys, input)
  {
    hide SliceOk, FirstSliceProblem, ManifestDigest, ContentsText, ProofFor;
    if |input.entries| == 0 {
      return Err(NoEntries);
    }
    var chain := VerifyEntrySlice(h, input.entries);
    if chain.Broken? {
      return Err(ChainDoesNotVerify(chain.reason));
    }
    assert input.entries[0..] == input.entries;
    for i := 0 to |input.entries|
      invariant FirstWithoutProof(input.entries, input.proofs) == FirstWithoutProof(input.entries[i..], input.proofs)
    {
      assert input.entries[i..][0] == input.entries[i] && input.entries[i..][1..] == input.entries[i + 1..];
      if ProofFor(input.proofs, input.entries[i].seqNo).None? {
        return Err(EntryWithoutProof(input.entries[i].seqNo));
      }
    }
    assert input.entries[|input.entries|..] == [];
    if input.retainUntil.Some? && input.generatedAt.Some?
       && input.retainUntil.value - input.generatedAt.value < MINIMUM_RETENTION_DAYS * MILLISECONDS_A_DAY {
      return Err(RetentionBelowMinimum);
    }
    var digest := ManifestDigest(h, input.manifest);
    if digest.None? {
      return Err(ManifestNotCanonical);
    }
    if input.retainUntil.None? || input.generatedAt.None? {
      return Err(InvalidDate);
    }
    var contents := Assembled(input, digest.value);
    var text := ContentsText(contents);
    if text.None? {
      return Err(ContentsNotCanonical);
    }
    r := Ok(Envelope(contents, Signature(true, keys.sign(Utf8(text.value)))));
  }

  // ---------------------------------------------------------------- soundness

  /** Entries of a log, in order, each at the place its number says. */
  ghost predicate SubsequenceOf(entries: seq<AuditEntry>, log: seq<AuditEntry>) {
    && Ascends(entries)
    && (forall i :: 0 <= i < |entries| ==>
          0 <= entries[i].seqNo < |log| && SameEntry(entries[i], log[entries[i].seqNo]))
  }

  /** Everything hashed to keep a log and publish its root. */
  function LogInputs(h: Hash, log: seq<AuditEntry>): set<Bytes> {
    EntryInputs(log) + TreeInputs(h, LogData(log))
  }

  /** A verified entry whose hash is one of the logged hashes is the logged entry. */
  lemma HashInLog(h: Hash, e: AuditEntry, log: seq<AuditEntry>)
    requires Linked(h, log) && HashProblem(h, e).None? && FromHex(e.entryHash) in LogData(log)
    ensures || (0 <= e.seqNo < |log| && SameEntry(e, log[e.seqNo]))
            || Collision(h, EntryInputs(log), EntryInputs([e]))
  {
    hide EntryDigest, Linked, SameContent, EntryInputs, Genesis, FromHex, Collision;
    var j :| 0 <= j < |log| && LogData(log)[j] == FromHex(e.entryHash);
    LinkedAt(h, log, j);
    DigestRoundTrip(h, e);
    DigestRoundTrip(h, log[j]);
    SameDigestSameContent(h, log[j], e, log, [e]);
    if SameContent(log[j], e) {
      SameContentFields(log[j], e);
      SameContentSymmetric(log[j], e);
    }
  }

  lemma DigestRoundTrip(h: Hash, e: AuditEntry)
    requires EntryDigest(h, e) == Some(e.entryHash)
    ensures ToHex(FromHex(e.entryHash)) == e.entryHash
  {
    hide EntryText, Utf8, FromHex, ToHex;
    HexRoundTrip(h(Utf8(EntryText(e).value)));
  }

  lemma SameContentSymmetric(a: AuditEntry, b: AuditEntry)
    ensures SameContent(a, b) == SameContent(b, a)
  {
  }

  /** Everything an auditor hashes for one entry of a bundle. */
  function EntryCheckInputs(h: Hash, c: Contents, e: AuditEntry): set<Bytes> {
    match ProofFor(c.proofs, e.seqNo)
    case None => EntryInputs([e])
    case Some(proof) => EntryInputs([e]) + InclusionInputs(h, proof, FromHex(e.entryHash))
  }

  lemma VerifiedEntryLogged(h: Hash, c: Contents, e: AuditEntry, log: seq<AuditEntry>)
    requires Linked(h, log) && c.logRoot == LogRoot(h, LogData(log))
    requires HashProblem(h, e).None? && InclusionFailure(h, c, e).None?
    ensures || (0 <= e.seqNo < |log| && SameEntry(e, log[e.seqNo]))
            || Collision(h, LogInputs(h, log), EntryCheckInputs(h, c, e))
  {
    hide HashProblem, Linked, SameEntry, EntryInputs, FromHex, Collision, InclusionVerdict, InclusionInputs, TreeInputs, LogRoot;
    var proof := ProofFor(c.proofs, e.seqNo).value;
    AcceptedLeafWasLogged(h, proof, FromHex(e.entryHash), LogData(log));
    var theirs, mine := LogInputs(h, log), EntryCheckInputs(h, c, e);
    if Collision(h, TreeInputs(h, LogData(log)), InclusionInputs(h, proof, FromHex(e.entryHash))) {
      CollisionGrows(h, TreeInputs(h, LogData(log)), InclusionInputs(h, proof, FromHex(e.entryHash)), theirs, mine);
    } else {
      HashInLog(h, e, log);
      if Collision(h, EntryInputs(log), EntryInputs([e])) {
        CollisionGrows(h, EntryInputs(log), EntryInputs([e]), theirs, mine);
      }
    }
  }

  /** A bundle that passes the chain and inclusion checks against the root of a real log holds a part of that log. */
  lemma BundleSound(h: Hash, keys: KeyPair, env: Envelope, log: seq<AuditEntry>)
    requires AllChecks(ChecksOf(h, keys, env))
    requires Linked(h, log) && env.payload.logRoot == LogRoot(h, LogData(log))
    ensures || SubsequenceOf(env.payload.entries, log)
            || exists e :: e in env.payload.entries
                           && Collision(h, LogInputs(h, log), EntryCheckInputs(h, env.payload, e))
  {
    hide HashProblem, Linked, SameEntry, Collision, InclusionFailure, LogRoot, SignatureProblem, ManifestDigest, LogInputs,
      EntryCheckInputs;
    var c := env.payload;
    if forall e :: e in c.entries ==> !Collision(h, LogInputs(h, log), EntryCheckInputs(h, c, e)) {
      forall i | 0 <= i < |c.entries|
        ensures 0 <= c.entries[i].seqNo < |log| && SameEntry(c.entries[i], log[c.entries[i].seqNo])
      {
        VerifiedEntryLogged(h, c, c.entries[i], log);
      }
    }
  }

  // ---------------------------------------------------------------- completeness

  /** An input cut from one state of a log: its entries in order, its root, and its proofs. */
  ghost predicate CutFrom(h: Hash, input: BundleInput, log: seq<AuditEntry>) {
    && input.logRoot == LogRoot(h, LogData(log))
    && Ascends(input.entries)
    && (forall e :: e in input.entries ==>
          && 0 <= e.seqNo < |log| && e == log[e.seqNo]
          && ProofFor(input.proofs, e.seqNo) == Some(HonestInclusion(h, Leaves(h, LogData(log)), e.seqNo)))
  }

  lemma CutSlice(h: Hash, input: BundleInput, log: seq<AuditEntry>)
    requires Linked(h, log) && CutFrom(h, input, log)
    ensures SliceOk(h, input.entries) && FirstSliceProblem(h, input.entries, 0).None?
    ensures FirstWithoutProof(input.entries, input.proofs).None?
  {
    hide Linked, EntryDigest, LogRoot, HonestInclusion, ProofFor, Genesis, HashProblem;
    forall i | 0 <= i < |input.entries|
      ensures input.entries[i].seqNo >= 0 && HashProblem(h, input.entries[i]).None?
    {
      var e := input.entries[i];
      assert e in input.entries;
      LinkedAt(h, log, e.seqNo);
      IntactHash(h, e);
    }
    NoneWithoutProof(input.entries, input.proofs);
    NoSliceProblem(h, input.entries, 0);
  }

  lemma {:induction false} NoneWithoutProof(entries: seq<AuditEntry>, proofs: seq<ProofAt>)
    requires forall e :: e in entries ==> ProofFor(proofs, e.seqNo).Some?
    ensures FirstWithoutProof(entries, proofs).None?
  {
    hide ProofFor;
    if entries != [] {
      NoneWithoutProof(entries[1..], proofs);
    }
  }

  /** Signing succeeds on such an input exactly when it has entries, long enough retention and JSON contents. */
  lemma CutIsBundled(h: Hash, keys: KeyPair, input: BundleInput, log: seq<AuditEntry>)
    requires Linked(h, log) && CutFrom(h, input, log)
    ensures Bundled(h, keys, input).Ok?
            <==> && input.entries != []
                 && input.retainUntil.Some? && input.generatedAt.Some?
                 && input.retainUntil.value - input.generatedAt.value >= MINIMUM_RETENTION_DAYS * MILLISECONDS_A_DAY
                 && ManifestDigest(h, input.manifest).Some?
                 && ContentsText(Assembled(input, ManifestDigest(h, input.manifest).value)).Some?
  {
    hide SliceOk, FirstSliceProblem, ManifestDigest, ContentsText, FirstWithoutProof, CutFrom, Linked, Assembled;
    CutSlice(h, input, log);
  }

  /** And the bundle made from such an input is accepted exactly as long as the log has at most 2^31 entries. */
  lemma BundleComplete(h: Hash, keys: KeyPair, input: BundleInput, log: seq<AuditEntry>)
    requires Linked(h, log) && CutFrom(h, input, log) && |log| < ARRAY_LIMIT
    requires forall b :: keys.verify(b, keys.sign(b))
    requires Bundled(h, keys, input).Ok?
    ensures AllChecks(ChecksOf(h, keys, Bundled(h, keys, input).value)) <==> |log| <= 0x8000_0000
  {
    hide SliceOk, FirstSliceProblem, ManifestDigest, ContentsText, FirstWithoutProof, Linked, LogRoot, ProofFor, InclusionVerdict,
      HonestInclusion, FromHex, Ascends;
    var c := Bundled(h, keys, input).value.payload;
    CutSlice(h, input, log);
    forall i | 0 <= i < |c.entries| ensures InclusionFailure(h, c, c.entries[i]).None? <==> |log| <= 0x8000_0000 {
      var e := c.entries[i];
      assert e in input.entries;
      InclusionComplete(h, LogData(log), e.seqNo);
    }
    assert InclusionFailure(h, c, c.entries[0]).None? <==> |log| <= 0x8000_0000;
  }
}
