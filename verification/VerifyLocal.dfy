/**
 The command-line verifier, which shares nothing with the server's: its own canonical text, its own walk up
 the tree, its own checks (packages/cli/src/verify-local.ts).
 */
module VerifyLocal {
  import opened Wrappers
  import opened Bytes
  import opened Text
  import opened Json
  import opened JsonStrings
  import opened CanonicalText
  import opened MerkleSpec
  import opened Climb
  import opened ClimbTheorems
  import opened MerkleTrees
  import opened ProofVerifier
  import opened AuditChain
  import opened AuditLogs
  import opened EvidenceBundles

  // ---------------------------------------------------------------- inclusion

  /** Siblings are decoded without a check of their length. */
  function CliPath(path: seq<JsString>): (r: seq<Option<Bytes>>)
    ensures |r| == |path|
  {
    seq(|path|, i requires 0 <= i < |path| => Some(FromHex(path[i])))
  }

  predicate CliIncluded(h: Hash, leaf: Bytes, leafIndex: int, treeSize: int, path: seq<JsString>, root: JsString) {
    && treeSize > 0 && 0 <= leafIndex < treeSize
    && match ClimbFrom(h, Int32, leafIndex, treeSize - 1, HashLeaf(h, leaf), CliPath(path))
       case Reached(r) => ToHex(r) == root
       case _ => false
  }

  method VerifyInclusion(h: Hash, leaf: Bytes, leafIndex: int, treeSize: int, path: seq<JsString>, root: JsString)
    returns (ok: bool)
    ensures ok == CliIncluded(h, leaf, leafIndex, treeSize, path, root)
  {
    if treeSize <= 0 || leafIndex < 0 || leafIndex >= treeSize {
      return false;
    }
    hide StripEven, FromHex, ToHex;
    var fn, sn := leafIndex, treeSize - 1;
    var node: Bytes := HashLeaf(h, leaf);
    ghost var siblings := CliPath(path);
    for i := 0 to |path|
      invariant ClimbFrom(h, Int32, leafIndex, treeSize - 1, HashLeaf(h, leaf), siblings)
                == ClimbFrom(h, Int32, fn, sn, node, siblings[i..])
    {
      assert siblings[i..][0] == Some(FromHex(path[i])) && siblings[i..][1..] == siblings[i + 1..];
      if sn == 0 {
        return false;
      }
      if IsOdd(Int32, fn) || fn == sn {
        node := HashNode(h, FromHex(path[i]), node);
        fn, sn := ShiftWhileEven(Int32, fn, sn);
      } else {
        node := HashNode(h, node, FromHex(path[i]));
      }
      fn, sn := Shr(Int32, fn), Shr(Int32, sn);
    }
    assert siblings[|path|..] == [];
    ok := sn == 0 && ToHex(node) == root;
  }

  /** What the server accepts the command line accepts. */
  lemma ServerAcceptedIsIncluded(h: Hash, proof: InclusionProof, leaf: Bytes, root: JsString)
    requires InclusionVerdict(h, proof, leaf, root).Valid?
    ensures CliIncluded(h, leaf, proof.leafIndex, proof.treeSize, proof.path, root)
  {
    hide ToHex, FromHex;
    LooserDecoding(h, proof.leafIndex, proof.treeSize - 1, HashLeaf(h, leaf), proof.path);
  }

  lemma {:induction false} LooserDecoding(h: Hash, fn: int, sn: int, x: Bytes, path: seq<JsString>)
    requires ClimbFrom(h, Int32, fn, sn, x, ServerPath(path)).Reached?
    ensures ClimbFrom(h, Int32, fn, sn, x, CliPath(path)) == ClimbFrom(h, Int32, fn, sn, x, ServerPath(path))
    decreases |path|
  {
    hide FromHex, NextLeft, NextRight, TakesLeft;
    if path != [] {
      assert ServerPath(path)[1..] == ServerPath(path[1..]) && CliPath(path)[1..] == CliPath(path[1..]);
      var p := FromHex(path[0]);
      if TakesLeft(Int32, fn, sn) {
        var c := NextLeft(Int32, fn, sn);
        LooserDecoding(h, c.0, c.1, HashNode(h, p, x), path[1..]);
      } else {
        var c := NextRight(Int32, fn, sn);
        LooserDecoding(h, c.0, c.1, HashNode(h, x, p), path[1..]);
      }
    }
  }

  function CliInputs(h: Hash, leaf: Bytes, leafIndex: int, treeSize: int, path: seq<JsString>): set<Bytes> {
    {LeafInput(leaf)} + ClimbInputs(h, Int32, leafIndex, treeSize - 1, HashLeaf(h, leaf), CliPath(path))
  }

  /** Whatever index, size and sibling lengths are claimed: an accepted leaf was logged. */
  lemma CliLeafWasLogged(h: Hash, leaf: Bytes, leafIndex: int, treeSize: int, path: seq<JsString>, log: seq<Bytes>)
    requires CliIncluded(h, leaf, leafIndex, treeSize, path, LogRoot(h, log))
    ensures leaf in log || Collision(h, TreeInputs(h, log), CliInputs(h, leaf, leafIndex, treeSize, path))
  {
    hide ClimbFrom, ClimbInputs, Mth, ToHex, Collision, TreeInputs, CliPath;
    var x := HashLeaf(h, leaf);
    var walked := ClimbFrom(h, Int32, leafIndex, treeSize - 1, x, CliPath(path));
    HexInjective(walked.root, Mth(h, Leaves(h, log)));
    var steps := ClimbIsFold(h, Int32, leafIndex, treeSize - 1, x, CliPath(path));
    FoldReachesLoggedLeaf(h, leaf, steps, log);
  }

  // ---------------------------------------------------------------- digests

  /** An entry with its payload's numbers read back the way the command line prints them. */
  function AsPrinted(e: AuditEntry): AuditEntry {
    if e.payload.None? then e
    else
      CollapseKeys(e.payload.value);
      e.(payload := Some(Collapse(e.payload.value)))
  }

  function AllAsPrinted(entries: seq<AuditEntry>): (r: seq<AuditEntry>)
    ensures |r| == |entries|
    ensures forall i :: 0 <= i < |entries| ==> r[i] == AsPrinted(entries[i])
  {
    seq(|entries|, i requires 0 <= i < |entries| => AsPrinted(entries[i]))
  }

  /** Entries come from JSON.parse, so every payload is a tree; its text is never refused. */
  function CliDigest(h: Hash, e: AuditEntry): JsString
    requires e.payload.Some?
  {
    ToHex(h(Utf8(CliText(Object(EntryMembers(e, e.payload.value))))))
  }

  lemma CollapseEntry(e: AuditEntry)
    requires e.payload.Some?
    ensures Collapse(Object(EntryMembers(e, e.payload.value)))
            == Object(EntryMembers(AsPrinted(e), AsPrinted(e).payload.value))
  {
    hide Decimals.OfInt;
    CollapseKeys(e.payload.value);
    var ms := EntryMembers(e, e.payload.value);
    var ns := EntryMembers(AsPrinted(e), AsPrinted(e).payload.value);
    CollapseMembersAt(ms);
    LeafCollapse(ms);
    forall i | 0 <= i < 8 ensures CollapseMembers(ms)[i] == ns[i] {
    }
    assert CollapseMembers(ms) == ns;
  }

  lemma LeafCollapse(ms: seq<Member>)
    ensures forall i :: 0 <= i < |ms| ==>
              (ms[i].value.String? || ms[i].value.Null? || (ms[i].value.Number? && ms[i].value.n.Exact?)) ==>
                Collapse(ms[i].value) == ms[i].value
  {
  }

  /** The command line digests what the server would digest of the entry as printed. */
  lemma CliDigestIsServerDigest(h: Hash, e: AuditEntry)
    requires e.payload.Some?
    ensures EntryDigest(h, AsPrinted(e)) == Some(CliDigest(h, e))
    ensures EntryDigest(h, e).Some? ==> EntryDigest(h, e) == Some(CliDigest(h, e))
  {
    hide CliText, Print, Normal, Clean, Collapse, EntryMembers, Utf8, ToHex;
    var j := Object(EntryMembers(e, e.payload.value));
    CollapseEntry(e);
    CliTextAgrees(j);
    CollapseNormal(j);
    CollapsePrints(Normal(j));
    CollapsePrints(j);
  }

  // ---------------------------------------------------------------- verifyLocalBundle

  datatype CliChecks = CliChecks(signature: bool, entryDigests: bool, ordering: bool, inclusion: bool, manifest: bool)

  /** A key that does not load, and a signature that does not verify, are not told apart. */
  datatype CliFailure =
    | NoPublicKey
    | SignatureFails
    | EntryModified(seqNo: int)
    | DoesNotFollow(seqNo: int, previous: int)
    | NoProof(seqNo: int)
    | NotProvablyInLog(seqNo: int)
    | ManifestDiffers

  datatype CliVerification = CliVerification(valid: bool, checks: CliChecks, failures: seq<CliFailure>)

  predicate DigestsMatch(h: Hash, entries: seq<AuditEntry>)
    requires forall i :: 0 <= i < |entries| ==> entries[i].payload.Some?
  {
    forall i :: 0 <= i < |entries| ==> CliDigest(h, entries[i]) == entries[i].entryHash
  }

  predicate InOrder(entries: seq<AuditEntry>, i: int)
    requires 0 <= i < |entries|
  {
    (if i == 0 then -1 else entries[i - 1].seqNo) < entries[i].seqNo
  }

  predicate Ordered(entries: seq<AuditEntry>) {
    forall i :: 0 <= i < |entries| ==> InOrder(entries, i)
  }

  predicate CliEntryIncluded(h: Hash, c: Contents, e: AuditEntry) {
    match ProofFor(c.proofs, e.seqNo)
    case None => false
    case Some(p) => CliIncluded(h, FromHex(e.entryHash), p.leafIndex, p.treeSize, p.path, c.logRoot)
  }

  predicate CliAllIncluded(h: Hash, c: Contents) {
    forall i :: 0 <= i < |c.entries| ==> CliEntryIncluded(h, c, c.entries[i])
  }

  function CliManifestDigest(h: Hash, manifest: Payload): JsString
    requires manifest.Some?
  {
    ToHex(h(Utf8(CliText(manifest.value))))
  }

  /** Parsed from a file, a bundle is JSON throughout. */
  predicate Parsed(c: Contents) {
    && (forall i :: 0 <= i < |c.entries| ==> c.entries[i].payload.Some?)
    && c.manifest.Some?
    && ContentsJson(c).Some?
  }

  function CliChecksOf(h: Hash, publicKey: Option<KeyPair>, env: Envelope): CliChecks
    requires Parsed(env.payload)
  {
    var c := env.payload;
    CliChecks(
      publicKey.Some? && publicKey.value.verify(Utf8(CliText(ContentsJson(c).value)), env.signature.value),
      DigestsMatch(h, c.entries),
      Ordered(c.entries),
      CliAllIncluded(h, c),
      CliManifestDigest(h, c.manifest) == c.manifestDigest)
  }

  predicate AllCliChecks(k: CliChecks) {
    k.signature && k.entryDigests && k.ordering && k.inclusion && k.manifest
  }

  /** One failure for every entry among the first n whose digest does not recompute. */
  function DigestFailures(h: Hash, entries: seq<AuditEntry>, n: nat): seq<CliFailure>
    requires n <= |entries| && forall i :: 0 <= i < |entries| ==> entries[i].payload.Some?
  {
    if n == 0 then []
    else
      var e := entries[n - 1];
      DigestFailures(h, entries, n - 1) + if CliDigest(h, e) != e.entryHash then [EntryModified(e.seqNo)] else []
  }

  function OrderFailures(entries: seq<AuditEntry>, n: nat): seq<CliFailure>
    requires n <= |entries|
  {
    if n == 0 then []
    else
      OrderFailures(entries, n - 1)
      + if InOrder(entries, n - 1) then []
        else [DoesNotFollow(entries[n - 1].seqNo, if n == 1 then -1 else entries[n - 2].seqNo)]
  }

  function CliInclusionFailures(h: Hash, c: Contents, n: nat): seq<CliFailure>
    requires n <= |c.entries|
  {
    if n == 0 then []
    else
      var e := c.entries[n - 1];
      CliInclusionFailures(h, c, n - 1)
      + if ProofFor(c.proofs, e.seqNo).None? then [NoProof(e.seqNo)]
        else if !CliEntryIncluded(h, c, e) then [NotProvablyInLog(e.seqNo)] else []
  }

  /** Everything found wrong, in the order of the checks. */
  function FailuresListed(h: Hash, publicKey: Option<KeyPair>, env: Envelope): seq<CliFailure>
    requires Parsed(env.payload)
  {
    var k, c := CliChecksOf(h, publicKey, env), env.payload;
    (if publicKey.None? then [NoPublicKey] else if k.signature then [] else [SignatureFails])
    + DigestFailures(h, c.entries, |c.entries|) + OrderFailures(c.entries, |c.entries|)
    + CliInclusionFailures(h, c, |c.entries|) + if k.manifest then [] else [ManifestDiffers]
  }

  /** There are no failures exactly when all five checks hold. */
  method VerifyLocalBundle(h: Hash, publicKey: Option<KeyPair>, env: Envelope) returns (r: CliVerification)
    requires Parsed(env.payload)
    ensures r.checks == CliChecksOf(h, publicKey, env)
    ensures r.checks.signature <==>
              publicKey.Some? && publicKey.value.verify(Utf8(CliText(ContentsJson(env.payload).value)), env.signature.value)
    ensures r.valid == AllCliChecks(r.checks)
    ensures r.valid <==> r.failures == []
    ensures r.failures == FailuresListed(h, publicKey, env)
  {
    hide ContentsJson, CliText, CliDigest, CliManifestDigest, CliEntryIncluded, ProofFor, DigestFailures, OrderFailures,
      CliInclusionFailures, InOrder;
    var c := env.payload;
    var failures: seq<CliFailure> := [];
    var signature := false;
    if publicKey.None? {
      failures := [NoPublicKey];
    } else {
      signature := publicKey.value.verify(Utf8(CliText(ContentsJson(c).value)), env.signature.value);
      if !signature {
        failures := [SignatureFails];
      }
    }
    var digestsOk, modified := CheckDigests(h, c.entries);
    var ordered, misplaced := CheckOrder(c.entries);
    var inclusionOk, missing := CheckAllIncluded(h, c);
    failures := failures + modified + misplaced + missing;
    var manifestOk := CliManifestDigest(h, c.manifest) == c.manifestDigest;
    if !manifestOk {
      failures := failures + [ManifestDiffers];
    }
    var checks := CliChecks(signature, digestsOk, ordered, inclusionOk, manifestOk);
    r := CliVerification(AllCliChecks(checks), checks, failures);
  }

  method CheckDigests(h: Hash, entries: seq<AuditEntry>) returns (ok: bool, failures: seq<CliFailure>)
    requires forall i :: 0 <= i < |entries| ==> entries[i].payload.Some?
    ensures ok == DigestsMatch(h, entries) == (failures == [])
    ensures failures == DigestFailures(h, entries, |entries|)
  {
    hide CliDigest;
    ok, failures := true, [];
    for i := 0 to |entries|
      invariant failures == DigestFailures(h, entries, i)
      invariant ok == (failures == [])
      invariant ok <==> forall k :: 0 <= k < i ==> CliDigest(h, entries[k]) == entries[k].entryHash
    {
      if CliDigest(h, entries[i]) != entries[i].entryHash {
        failures := failures + [EntryModified(entries[i].seqNo)];
        ok := false;
      }
    }
  }

  method CheckOrder(entries: seq<AuditEntry>) returns (ordered: bool, failures: seq<CliFailure>)
    ensures ordered == Ordered(entries) == (failures == [])
    ensures failures == OrderFailures(entries, |entries|)
  {
    var previous := -1;
    ordered, failures := true, [];
    for i := 0 to |entries|
      invariant previous == if i == 0 then -1 else entries[i - 1].seqNo
      invariant failures == OrderFailures(entries, i)
      invariant ordered == (failures == [])
      invariant ordered <==> forall k :: 0 <= k < i ==> InOrder(entries, k)
    {
      assert InOrder(entries, i) <==> previous < entries[i].seqNo;
      if entries[i].seqNo <= previous {
        failures := failures + [DoesNotFollow(entries[i].seqNo, previous)];
        ordered := false;
      }
      previous := entries[i].seqNo;
    }
  }

  method CheckAllIncluded(h: Hash, c: Contents) returns (ok: bool, failures: seq<CliFailure>)
    ensures ok == CliAllIncluded(h, c) == (failures == [])
    ensures failures == CliInclusionFailures(h, c, |c.entries|)
  {
    hide CliIncluded, ProofFor, FromHex;
    ok, failures := true, [];
    for i := 0 to |c.entries|
      invariant failures == CliInclusionFailures(h, c, i)
      invariant ok == (failures == [])
      invariant ok <==> forall k :: 0 <= k < i ==> CliEntryIncluded(h, c, c.entries[k])
    {
      var proof := ProofFor(c.proofs, c.entries[i].seqNo);
      if proof.None? {
        failures := failures + [NoProof(c.entries[i].seqNo)];
        ok := false;
      } else {
        var p := proof.value;
        var included := VerifyInclusion(h, FromHex(c.entries[i].entryHash), p.leafIndex, p.treeSize, p.path, c.logRoot);
        if !included {
          failures := failures + [NotProvablyInLog(c.entries[i].seqNo)];
          ok := false;
        }
      }
    }
  }

  // ---------------------------------------------------------------- what its acceptance means

  lemma {:induction false} OrderedAscends(entries: seq<AuditEntry>, i: nat, j: nat)
    requires Ordered(entries) && i <= j < |entries|
    ensures 0 <= entries[i].seqNo && entries[i].seqNo + (j - i) <= entries[j].seqNo
    decreases j
  {
    assert InOrder(entries, j);
    if i < j {
      OrderedAscends(entries, i, j - 1);
    } else if i > 0 {
      OrderedAscends(entries, i - 1, j - 1);
    }
  }

  lemma OrderedExactly(entries: seq<AuditEntry>)
    ensures Ordered(entries) <==> Ascends(entries) && forall i :: 0 <= i < |entries| ==> entries[i].seqNo >= 0
  {
    if Ordered(entries) {
      forall i, j | 0 <= i < j < |entries| ensures entries[i].seqNo < entries[j].seqNo {
        OrderedAscends(entries, i, j);
      }
      forall i | 0 <= i < |entries| ensures entries[i].seqNo >= 0 {
        OrderedAscends(entries, i, i);
      }
    }
    if Ascends(entries) && forall i :: 0 <= i < |entries| ==> entries[i].seqNo >= 0 {
      forall i | 0 <= i < |entries| ensures InOrder(entries, i) {
      }
    }
  }

  /** Every bundle the server accepts, the command line accepts, given the public key. */
  lemma ServerAcceptedIsCliAccepted(h: Hash, keys: KeyPair, env: Envelope)
    requires Parsed(env.payload) && AllChecks(ChecksOf(h, keys, env))
    ensures AllCliChecks(CliChecksOf(h, Some(keys), env))
  {
    hide ContentsJson, CliText, CliDigest, CliIncluded, ProofFor, Print, Normal, Clean, InclusionVerdict, EntryDigest,
      Utf8, ToHex, FromHex, Ordered, Ascends;
    var c := env.payload;
    CliTextAgrees(ContentsJson(c).value);
    CliTextAgrees(c.manifest.value);
    OrderedExactly(c.entries);
    forall i | 0 <= i < |c.entries| ensures CliDigest(h, c.entries[i]) == c.entries[i].entryHash {
      assert HashProblem(h, c.entries[i]).None?;
      CliDigestIsServerDigest(h, c.entries[i]);
    }
    forall i | 0 <= i < |c.entries| ensures CliEntryIncluded(h, c, c.entries[i]) {
      var e := c.entries[i];
      assert InclusionFailure(h, c, e).None?;
      ServerAcceptedIsIncluded(h, ProofFor(c.proofs, e.seqNo).value, FromHex(e.entryHash), c.logRoot);
    }
  }

  /** A tree size whose last index wraps to a negative number is refused, whatever the path. */
  lemma WrappedIsExcluded(h: Hash, leaf: Bytes, leafIndex: int, treeSize: int, path: seq<JsString>, root: JsString)
    requires WrapsNegative(treeSize - 1)
    ensures !CliIncluded(h, leaf, leafIndex, treeSize, path, root)
  {
    hide ClimbFrom, ToHex;
    ClimbNegative(h, leafIndex, treeSize - 1, HashLeaf(h, leaf), CliPath(path));
  }

  /** So the command line accepts the bundles cut from one log state up to the same boundary as the server, and not beyond. */
  lemma CliComplete(h: Hash, keys: KeyPair, input: BundleInput, log: seq<AuditEntry>)
    requires Linked(h, log) && CutFrom(h, input, log) && |log| < ARRAY_LIMIT
    requires forall b :: keys.verify(b, keys.sign(b))
    requires Bundled(h, keys, input).Ok?
    ensures Parsed(Bundled(h, keys, input).value.payload)
    ensures AllCliChecks(CliChecksOf(h, Some(keys), Bundled(h, keys, input).value)) <==> |log| <= 0x8000_0000
  {
    hide CliChecksOf, ChecksOf, AllChecks, AllCliChecks, CutFrom, Linked, Canonical, SliceOk, FirstSliceProblem, FirstWithoutProof;
    var env := Bundled(h, keys, input).value;
    BundleComplete(h, keys, input, log);
    ContentsParsed(env.payload);
    if |log| <= 0x8000_0000 {
      ServerAcceptedIsCliAccepted(h, keys, env);
    } else {
      CutIsExcluded(h, keys, input, log);
    }
  }

  lemma CutIsExcluded(h: Hash, keys: KeyPair, input: BundleInput, log: seq<AuditEntry>)
    requires CutFrom(h, input, log) && 0x8000_0000 < |log| < ARRAY_LIMIT
    requires Bundled(h, keys, input).Ok? && Parsed(Bundled(h, keys, input).value.payload)
    ensures !AllCliChecks(CliChecksOf(h, Some(keys), Bundled(h, keys, input).value))
  {
    hide CliIncluded, FromHex, LogRoot, ContentsJson, CliText, CliDigest, CliManifestDigest, Ordered, SliceOk, FirstSliceProblem, FirstWithoutProof,
      ContentsText, ManifestDigest, Ascends, WrapsNegative;
    var c := Bundled(h, keys, input).value.payload;
    var e := c.entries[0];
    assert e in input.entries;
    var p := ProofFor(c.proofs, e.seqNo).value;
    SizeWrapsNegative(|log|);
    WrappedIsExcluded(h, FromHex(e.entryHash), p.leafIndex, p.treeSize, p.path, c.logRoot);
    assert !CliEntryIncluded(h, c, e);
  }

  lemma ContentsParsed(c: Contents)
    requires ContentsText(c).Some?
    ensures Parsed(c)
  {
    hide Canonical, ProofObject, EntryMembers;
    ObjectsParsed(c.entries);
  }

  lemma {:induction false} ObjectsParsed(entries: seq<AuditEntry>)
    requires EntryObjects(entries).Some?
    ensures forall i :: 0 <= i < |entries| ==> entries[i].payload.Some?
  {
    hide EntryMembers;
    if entries != [] {
      ObjectsParsed(entries[1..]);
    }
  }

  function CliCheckInputs(h: Hash, c: Contents, e: AuditEntry): set<Bytes> {
    match ProofFor(c.proofs, e.seqNo)
    case None => EntryInputs([AsPrinted(e)])
    case Some(p) =>
      EntryInputs([AsPrinted(e)]) + CliInputs(h, FromHex(e.entryHash), p.leafIndex, p.treeSize, p.path)
  }

  lemma CliEntryLogged(h: Hash, c: Contents, e: AuditEntry, log: seq<AuditEntry>)
    requires Linked(h, log) && c.logRoot == LogRoot(h, LogData(log)) && e.payload.Some?
    requires CliDigest(h, e) == e.entryHash && CliEntryIncluded(h, c, e)
    ensures || (0 <= e.seqNo < |log| && SameEntry(AsPrinted(e), log[e.seqNo]))
            || Collision(h, LogInputs(h, log), CliCheckInputs(h, c, e))
  {
    hide CliDigest, Linked, SameEntry, EntryInputs, FromHex, Collision, CliIncluded, CliInputs, TreeInputs, LogRoot, EntryDigest,
      Collapse;
    var p := ProofFor(c.proofs, e.seqNo).value;
    var leaf := FromHex(e.entryHash);
    CliDigestIsServerDigest(h, e);
    IntactHash(h, AsPrinted(e));
    CliLeafWasLogged(h, leaf, p.leafIndex, p.treeSize, p.path, LogData(log));
    var theirs, mine := LogInputs(h, log), CliCheckInputs(h, c, e);
    var walked := CliInputs(h, leaf, p.leafIndex, p.treeSize, p.path);
    if Collision(h, TreeInputs(h, LogData(log)), walked) {
      CollisionGrows(h, TreeInputs(h, LogData(log)), walked, theirs, mine);
    } else {
      HashInLog(h, AsPrinted(e), log);
      if Collision(h, EntryInputs(log), EntryInputs([AsPrinted(e)])) {
        CollisionGrows(h, EntryInputs(log), EntryInputs([AsPrinted(e)]), theirs, mine);
      }
    }
  }

  /**
   An accepted bundle citing the root of a real log holds a part of that log, as far as its numbers are the
   ones the command line prints: a -0 in the file counts as the 0 that was logged.
   */
  lemma CliSound(h: Hash, publicKey: Option<KeyPair>, env: Envelope, log: seq<AuditEntry>)
    requires Parsed(env.payload) && AllCliChecks(CliChecksOf(h, publicKey, env))
    requires Linked(h, log) && env.payload.logRoot == LogRoot(h, LogData(log))
    ensures || SubsequenceOf(AllAsPrinted(env.payload.entries), log)
            || exists e :: e in env.payload.entries && Collision(h, LogInputs(h, log), CliCheckInputs(h, env.payload, e))
  {
    hide CliDigest, Linked, SameEntry, Collision, CliEntryIncluded, LogRoot, LogInputs, CliCheckInputs, ContentsJson, CliText,
      CliManifestDigest, Ordered, Collapse;
    var c := env.payload;
    OrderedExactly(c.entries);
    if forall e :: e in c.entries ==> !Collision(h, LogInputs(h, log), CliCheckInputs(h, c, e)) {
      var printed := AllAsPrinted(c.entries);
      forall i | 0 <= i < |printed|
        ensures 0 <= printed[i].seqNo < |log| && SameEntry(printed[i], log[printed[i].seqNo])
      {
        CliEntryLogged(h, c, c.entries[i], log);
      }
    }
  }

  /**
   The entries themselves are a part of that log exactly when their payloads hold no number that JSON cannot: a -0 is
   what separates an entry from its printed form.
   */
  lemma CliSoundExact(h: Hash, publicKey: Option<KeyPair>, env: Envelope, log: seq<AuditEntry>)
    requires Parsed(env.payload) && AllCliChecks(CliChecksOf(h, publicKey, env))
    requires Linked(h, log) && env.payload.logRoot == LogRoot(h, LogData(log))
    ensures || (SubsequenceOf(env.payload.entries, log)
                <==> forall i :: 0 <= i < |env.payload.entries| ==> Clean(env.payload.entries[i].payload.value))
            || exists e :: e in env.payload.entries && Collision(h, LogInputs(h, log), CliCheckInputs(h, env.payload, e))
  {
    hide CliChecksOf, AllCliChecks, Linked, SameContent, Collision, LogRoot, LogInputs, CliCheckInputs, ContentsJson, Collapse,
      Clean, Ascends;
    var es := env.payload.entries;
    CliSound(h, publicKey, env, log);
    if SubsequenceOf(es, log) {
      forall i | 0 <= i < |es| ensures Clean(es[i].payload.value) {
        LinkedAt(h, log, es[i].seqNo);
        HashedIsClean(h, log[es[i].seqNo]);
        SameClean(es[i], log[es[i].seqNo]);
      }
    } else if SubsequenceOf(AllAsPrinted(es), log) {
      if forall i :: 0 <= i < |es| ==> Clean(es[i].payload.value) {
        CleanAsPrinted(es);
        assert false;
      }
    }
  }

  lemma CleanAsPrinted(es: seq<AuditEntry>)
    requires forall i :: 0 <= i < |es| ==> es[i].payload.Some? && Clean(es[i].payload.value)
    ensures AllAsPrinted(es) == es
  {
    forall i | 0 <= i < |es| ensures AllAsPrinted(es)[i] == es[i] {
      CleanUncollapsed(es[i].payload.value);
    }
  }

  lemma SameClean(a: AuditEntry, b: AuditEntry)
    requires SameContent(a, b)
    ensures Clean(a.payload.value) <==> Clean(b.payload.value)
  {
    CleanByMeaning(a.payload.value, b.payload.value);
  }
}
