/** What the five checks of the command line and its failures say, spelled out; and what its signature check covers. */
module LocalMeaning {
  import opened Wrappers
  import opened Bytes
  import opened Text
  import opened Json
  import opened JsonStrings
  import opened CanonicalText
  import opened MerkleSpec
  import opened Climb
  import opened MerkleTrees
  import opened ProofVerifier
  import opened AuditChain
  import opened EvidenceBundles
  import opened VerifyLocal
  import opened TreeWalks
  import opened Verdicts
  import BundleMeaning
  import opened SignedContents

  // ---------------------------------------------------------------- inclusion

  /** The proof makes up the cited root, top down, from the leaf at its place; siblings of any length are taken. */
  ghost predicate LeadsToRoot(h: Hash, leaf: Bytes, proof: InclusionProof, root: JsString) {
    && 0 <= proof.leafIndex < proof.treeSize
    && exists b :: RootFrom(h, proof.leafIndex, proof.treeSize, HashLeaf(h, leaf), Hashes(proof.path)) == Some(b) && ToHex(b) == root
  }

  lemma {:induction false} CliValues(path: seq<JsString>)
    ensures FirstBad(CliPath(path)) == |path| && Values(CliPath(path)) == Hashes(path)
  {
    hide FromHex;
    if path != [] {
      CliValues(path[1..]);
      assert CliPath(path)[1..] == CliPath(path[1..]);
    }
  }

  lemma IncludedExactly(h: Hash, leaf: Bytes, proof: InclusionProof, root: JsString)
    requires proof.treeSize <= 0x8000_0000
    ensures CliIncluded(h, leaf, proof.leafIndex, proof.treeSize, proof.path, root) <==> LeadsToRoot(h, leaf, proof, root)
  {
    hide ClimbFrom, RootFrom, Depth, FirstBad, Values, ToHex, FromHex, CliPath, Hashes;
    var InclusionProof(m, n, path) := proof;
    if 0 <= m < n {
      var x := HashLeaf(h, leaf);
      ClimbWidth(h, m, n - 1, x, x, CliPath(path));
      SingleWalkExactly(h, m, n, x, CliPath(path));
      CliValues(path);
      RootDefined(h, m, n, x, Hashes(path));
    }
  }

  // ---------------------------------------------------------------- the checks

  /** Each sequence number exceeds the one before it, and the first one -1. */
  predicate RisesFromZero(entries: seq<AuditEntry>) {
    forall i :: 0 <= i < |entries| ==> RisesAt(entries, i)
  }

  predicate RisesAt(entries: seq<AuditEntry>, i: int)
    requires 0 <= i < |entries|
  {
    if i == 0 then 0 <= entries[0].seqNo else entries[i - 1].seqNo < entries[i].seqNo
  }

  /** The key is given, and verifies the signature over the bytes of the printed contents. */
  predicate KeyVerifies(publicKey: Option<KeyPair>, env: Envelope)
    requires ContentsJson(env.payload).Some?
  {
    publicKey.Some? && publicKey.value.verify(Utf8(CliText(ContentsJson(env.payload).value)), env.signature.value)
  }

  /** What each of the five checks of `verifyLocalBundle` decides, for every parsed file. */
  lemma CliChecksMean(h: Hash, publicKey: Option<KeyPair>, env: Envelope)
    requires Parsed(env.payload)
    ensures var k, c := CliChecksOf(h, publicKey, env), env.payload;
            && (k.signature <==> KeyVerifies(publicKey, env))
            && (k.entryDigests <==> forall i :: 0 <= i < |c.entries| ==>
                  ToHex(h(Utf8(CliText(Object(EntryMembers(c.entries[i], c.entries[i].payload.value)))))) == c.entries[i].entryHash)
            && (k.ordering <==> RisesFromZero(c.entries))
            && (k.manifest <==> ToHex(h(Utf8(CliText(c.manifest.value)))) == c.manifestDigest)
            && (AllCliChecks(k) <==> k.signature && k.entryDigests && k.ordering && k.inclusion && k.manifest)
  {
    hide ContentsJson, CliText, Utf8, ToHex, EntryMembers, CliIncluded, ProofFor, FromHex, Ordered, RisesFromZero;
    var c := env.payload;
    forall i | 0 <= i < |c.entries|
      ensures CliDigest(h, c.entries[i])
              == ToHex(h(Utf8(CliText(Object(EntryMembers(c.entries[i], c.entries[i].payload.value))))))
    {
    }
    OrderMeaning(c.entries);
  }

  lemma OrderMeaning(entries: seq<AuditEntry>)
    ensures Ordered(entries) <==> RisesFromZero(entries)
  {
    if RisesFromZero(entries) {
      forall i | 0 <= i < |entries| ensures InOrder(entries, i) {
        assert RisesAt(entries, i);
      }
    }
    if Ordered(entries) {
      forall i | 0 <= i < |entries| ensures RisesAt(entries, i) {
        assert InOrder(entries, i);
      }
    }
  }

  /** The inclusion check holds exactly when every entry has a proof that leads from its hash to the cited root. */
  lemma CliInclusionMeans(h: Hash, publicKey: Option<KeyPair>, env: Envelope)
    requires Parsed(env.payload)
    requires forall i :: 0 <= i < |env.payload.proofs| ==> env.payload.proofs[i].proof.treeSize <= 0x8000_0000
    ensures var c := env.payload;
            CliChecksOf(h, publicKey, env).inclusion <==> forall i :: 0 <= i < |c.entries| ==>
              var p := ProofFor(c.proofs, c.entries[i].seqNo);
              p.Some? && LeadsToRoot(h, FromHex(c.entries[i].entryHash), p.value, c.logRoot)
  {
    hide ContentsJson, CliText, CliDigest, CliManifestDigest, CliIncluded, ProofFor, FromHex, Ordered, LeadsToRoot, DigestsMatch;
    var c := env.payload;
    forall i | 0 <= i < |c.entries|
      ensures CliEntryIncluded(h, c, c.entries[i]) <==>
                var p := ProofFor(c.proofs, c.entries[i].seqNo);
                p.Some? && LeadsToRoot(h, FromHex(c.entries[i].entryHash), p.value, c.logRoot)
    {
      var p := ProofFor(c.proofs, c.entries[i].seqNo);
      if p.Some? {
        BundleMeaning.ProofForMeaning(c.proofs, c.entries[i].seqNo);
        IncludedExactly(h, FromHex(c.entries[i].entryHash), p.value, c.logRoot);
      }
    }
  }

  /** No bundle is valid whose signature the key rejects, and none without a key. */
  lemma RejectedIsInvalid(h: Hash, publicKey: Option<KeyPair>, env: Envelope)
    requires Parsed(env.payload) && !KeyVerifies(publicKey, env)
    ensures !CliChecksOf(h, publicKey, env).signature && !AllCliChecks(CliChecksOf(h, publicKey, env))
  {
    hide KeyVerifies, CliChecksOf;
    CliChecksMean(h, publicKey, env);
  }

  // ---------------------------------------------------------------- the failures

  lemma {:induction false} DigestsListed(h: Hash, entries: seq<AuditEntry>, n: nat, f: CliFailure)
    requires n <= |entries| && forall i :: 0 <= i < |entries| ==> entries[i].payload.Some?
    ensures f in DigestFailures(h, entries, n)
            <==> exists i :: 0 <= i < n && f == EntryModified(entries[i].seqNo) && CliDigest(h, entries[i]) != entries[i].entryHash
  {
    hide CliDigest;
    if n > 0 {
      DigestsListed(h, entries, n - 1, f);
    }
  }

  lemma {:induction false} OrderListed(entries: seq<AuditEntry>, n: nat, f: CliFailure)
    requires n <= |entries|
    ensures f in OrderFailures(entries, n) <==> exists i :: 0 <= i < n && OutOfOrder(entries, i, f)
  {
    if n > 0 {
      OrderListed(entries, n - 1, f);
      hide OutOfOrder;
      LastOutOfOrder(entries, n, f);
    }
  }

  lemma LastOutOfOrder(entries: seq<AuditEntry>, n: nat, f: CliFailure)
    requires 0 < n <= |entries|
    ensures f in OrderFailures(entries, n) <==> f in OrderFailures(entries, n - 1) || OutOfOrder(entries, n - 1, f)
  {
  }

  /** Entry i does not exceed the one before it, and the failure names both numbers. */
  predicate OutOfOrder(entries: seq<AuditEntry>, i: nat, f: CliFailure)
    requires i < |entries|
  {
    var previous := if i == 0 then -1 else entries[i - 1].seqNo;
    entries[i].seqNo <= previous && f == DoesNotFollow(entries[i].seqNo, previous)
  }

  lemma {:induction false} InclusionsListed(h: Hash, c: Contents, n: nat, f: CliFailure)
    requires n <= |c.entries|
    ensures f in CliInclusionFailures(h, c, n) <==> exists i :: 0 <= i < n && NotShown(h, c, c.entries[i], f)
  {
    hide CliIncluded, ProofFor, FromHex;
    if n > 0 {
      InclusionsListed(h, c, n - 1, f);
    }
  }

  /** The entry has no proof, or one that is refused. */
  predicate NotShown(h: Hash, c: Contents, e: AuditEntry, f: CliFailure) {
    match ProofFor(c.proofs, e.seqNo)
    case None => f == NoProof(e.seqNo)
    case Some(p) => f == NotProvablyInLog(e.seqNo) && !CliIncluded(h, FromHex(e.entryHash), p.leafIndex, p.treeSize, p.path, c.logRoot)
  }

  lemma ParsedParts(c: Contents)
    requires Parsed(c)
    ensures (forall i :: 0 <= i < |c.entries| ==> c.entries[i].payload.Some?) && c.manifest.Some? && ContentsJson(c).Some?
  {
    hide ContentsJson;
  }

  lemma ListedParts(h: Hash, publicKey: Option<KeyPair>, env: Envelope, f: CliFailure)
    requires Parsed(env.payload)
    ensures var k, c := CliChecksOf(h, publicKey, env), env.payload;
            f in FailuresListed(h, publicKey, env) <==>
              || (f == NoPublicKey && publicKey.None?)
              || (f == SignatureFails && publicKey.Some? && !k.signature)
              || f in DigestFailures(h, c.entries, |c.entries|)
              || f in OrderFailures(c.entries, |c.entries|)
              || f in CliInclusionFailures(h, c, |c.entries|)
              || (f == ManifestDiffers && !k.manifest)
  {
    hide ContentsJson, DigestFailures, OrderFailures, CliInclusionFailures, CliChecksOf;
  }

  lemma FailureKinds(entries: seq<AuditEntry>, h: Hash, c: Contents, f: CliFailure, i: nat)
    requires i < |entries| && i < |c.entries|
    ensures OutOfOrder(entries, i, f) ==> f.DoesNotFollow?
    ensures NotShown(h, c, c.entries[i], f) ==> f.NoProof? || f.NotProvablyInLog?
  {
    hide CliIncluded, ProofFor, FromHex;
  }

  /** A failure is listed exactly when what it says is so. */
  lemma CliFailuresMean(h: Hash, publicKey: Option<KeyPair>, env: Envelope, f: CliFailure)
    requires Parsed(env.payload)
    ensures var c := env.payload;
            f in FailuresListed(h, publicKey, env) <==>
              match f
              case NoPublicKey => publicKey.None?
              case SignatureFails => publicKey.Some? && !KeyVerifies(publicKey, env)
              case EntryModified(n) =>
                exists i :: 0 <= i < |c.entries| && f == EntryModified(c.entries[i].seqNo)
                            && CliDigest(h, c.entries[i]) != c.entries[i].entryHash
              case DoesNotFollow(_, _) => exists i :: 0 <= i < |c.entries| && OutOfOrder(c.entries, i, f)
              case ManifestDiffers => ToHex(h(Utf8(CliText(c.manifest.value)))) != c.manifestDigest
              case _ => exists i :: 0 <= i < |c.entries| && NotShown(h, c, c.entries[i], f)
  {
    hide *;
    var c := env.payload;
    ParsedParts(c);
    CliChecksMean(h, publicKey, env);
    ListedParts(h, publicKey, env, f);
    DigestsListed(h, c.entries, |c.entries|, f);
    OrderListed(c.entries, |c.entries|, f);
    InclusionsListed(h, c, |c.entries|, f);
    forall i: nat | i < |c.entries|
      ensures OutOfOrder(c.entries, i, f) ==> f.DoesNotFollow?
      ensures NotShown(h, c, c.entries[i], f) ==> f.NoProof? || f.NotProvablyInLog?
    {
      FailureKinds(c.entries, h, c, f, i);
    }
  }

  /** The failures stand in the order of the checks, and within one check in the order of the entries. */
  lemma CliFailuresInOrder(h: Hash, publicKey: Option<KeyPair>, env: Envelope) returns (head: seq<CliFailure>, tail: seq<CliFailure>)
    requires Parsed(env.payload)
    ensures var c := env.payload;
            FailuresListed(h, publicKey, env)
            == head + DigestFailures(h, c.entries, |c.entries|) + OrderFailures(c.entries, |c.entries|)
               + CliInclusionFailures(h, c, |c.entries|) + tail
    ensures |head| <= 1 && forall f :: f in head ==> f.NoPublicKey? || f.SignatureFails?
    ensures |tail| <= 1 && forall f :: f in tail ==> f.ManifestDiffers?
  {
    hide ContentsJson, CliChecksOf, DigestFailures, OrderFailures, CliInclusionFailures;
    var k := CliChecksOf(h, publicKey, env);
    head := if publicKey.None? then [NoPublicKey] else if k.signature then [] else [SignatureFails];
    tail := if k.manifest then [] else [ManifestDiffers];
  }

  lemma NextFailures(h: Hash, c: Contents, n: nat)
    requires n < |c.entries| && forall i :: 0 <= i < |c.entries| ==> c.entries[i].payload.Some?
    ensures DigestFailures(h, c.entries, n) <= DigestFailures(h, c.entries, n + 1)
    ensures OrderFailures(c.entries, n) <= OrderFailures(c.entries, n + 1)
    ensures CliInclusionFailures(h, c, n) <= CliInclusionFailures(h, c, n + 1)
  {
    hide CliDigest, ProofFor, CliEntryIncluded;
  }

  // ---------------------------------------------------------------- what the signature covers

  /**
   When the key verifies nothing but what was signed, a bundle the command line accepts is, as the command line prints it,
   one that was signed; and if no number in it is one JSON cannot hold, it says the same in everything that is checked.
   */
  lemma CliAcceptedIsSigned(h: Hash, key: KeyPair, env: Envelope, signed: set<Contents>)
    requires Parsed(env.payload) && WellFormed(ContentsJson(env.payload).value)
    requires AllCliChecks(CliChecksOf(h, Some(key), env))
    requires (forall c :: c in signed ==> Signable(c)) && VerifiesOnly(key, signed)
    ensures exists c :: c in signed && PrintsAs(env.payload, c)
  {
    hide ContentsJson, WellFormed, CliChecksOf, Utf8, CliText, PrintsAs, Signable, SignedBytes;
    CliChecksMean(h, Some(key), env);
    var j := ContentsJson(env.payload).value;
    var c :| c in signed && SignedBytes(c) == Utf8(CliText(j));
    PrintedAlike(env.payload, c);
  }

  /** As the command line prints it, a is c; and unless a number in a is one JSON cannot hold, a says the same as c. */
  ghost predicate PrintsAs(a: Contents, c: Contents) {
    && ContentsJson(a).Some? && ContentsJson(c).Some?
    && Alike(Collapse(ContentsJson(a).value), ContentsJson(c).value)
    && (Clean(ContentsJson(a).value) ==> SameContents(a, c))
  }

  lemma PrintedAlike(a: Contents, c: Contents)
    requires ContentsJson(a).Some? && WellFormed(ContentsJson(a).value) && Signable(c)
    requires SignedBytes(c) == Utf8(CliText(ContentsJson(a).value))
    ensures PrintsAs(a, c)
  {
    hide ContentsJson, WellFormed, SameContents, Utf8, CliText, Collapse, Clean, Print, Normal, MeaningOf, Trim;
    var j := ContentsJson(a).value;
    NotBlank(a);
    NotBlank(c);
    PrintedCanonical(j);
    CanonicalBytesDecodable(Collapse(j), ContentsJson(c).value);
    if Clean(j) {
      CleanUncollapsed(j);
      SignedBytesPinContents(a, c);
    }
  }

  lemma NotBlank(c: Contents)
    requires ContentsJson(c).Some?
    ensures ContentsJson(c).value.Object?
  {
    hide EntryObjects, ProofObject;
  }

  /** The command line's text is the canonical text of the value as it prints it. */
  lemma PrintedCanonical(j: Json)
    requires WellFormed(j) && !j.Blank?
    ensures WellFormed(Collapse(j)) && !Collapse(j).Blank? && Canonical(Collapse(j)) == Some(CliText(j))
  {
    hide CliText, Print, Normal, Collapse, Clean, WellFormed;
    CliTextAgrees(j);
    CollapseNormal(j);
    CollapsePrints(Normal(j));
    CollapsePrints(j);
    CollapseKeys(j);
    CollapseBlank(j);
  }
}
