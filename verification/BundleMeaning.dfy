/**
 What the five checks of the server, the list of failures and the signed bundle say, spelled out; and what a signature
 covers: the signed text determines everything that is checked.
 */
module BundleMeaning {
  import opened Wrappers
  import opened Bytes
  import opened Text
  import opened Decimals
  import opened Json
  import opened JsonStrings
  import opened CanonicalText
  import N = NumberText
  import opened MerkleTrees
  import opened ProofVerifier
  import opened AuditChain
  import opened AuditLogs
  import opened EvidenceBundles

  // ---------------------------------------------------------------- the checks

  /** The proof kept for a sequence number: the first one listed under it. */
  lemma {:induction false} ProofForMeaning(proofs: seq<ProofAt>, n: int)
    ensures match ProofFor(proofs, n)
            case None => forall i :: 0 <= i < |proofs| ==> proofs[i].seqNo != n
            case Some(p) => exists i :: 0 <= i < |proofs| && proofs[i] == ProofAt(n, p) && forall j :: 0 <= j < i ==> proofs[j].seqNo != n
  {
    if proofs != [] && proofs[0].seqNo != n {
      ProofForMeaning(proofs[1..], n);
      match ProofFor(proofs, n)
      case None =>
      case Some(p) =>
        var i :| 0 <= i < |proofs[1..]| && proofs[1..][i] == ProofAt(n, p) && forall j :: 0 <= j < i ==> proofs[1..][j].seqNo != n;
        assert proofs[i + 1] == ProofAt(n, p);
        forall j | 0 <= j < i + 1 ensures proofs[j].seqNo != n {
          if j > 0 {
            assert proofs[j] == proofs[1..][j - 1];
          }
        }
    }
  }

  /** Both dates parse, and the second is 183 days of 86,400,000 milliseconds or more after the first. */
  predicate KeptSixMonths(generatedAt: Option<int>, retainUntil: Option<int>) {
    generatedAt.Some? && retainUntil.Some? && retainUntil.value - generatedAt.value >= 15_811_200_000
  }

  /** Every hash recomputes, and the sequence numbers rise strictly from 0 or later. */
  predicate IntactSlice(h: Hash, entries: seq<AuditEntry>) {
    forall i :: 0 <= i < |entries| ==>
      && EntryDigest(h, entries[i]) == Some(entries[i].entryHash)
      && (if i == 0 then 0 <= entries[0].seqNo else entries[i - 1].seqNo < entries[i].seqNo)
  }

  lemma {:induction false} IntactRises(h: Hash, entries: seq<AuditEntry>, i: nat, j: nat)
    requires IntactSlice(h, entries) && i <= j < |entries|
    ensures 0 <= entries[i].seqNo <= entries[j].seqNo && (i < j ==> entries[i].seqNo < entries[j].seqNo)
    decreases j
  {
    hide EntryDigest;
    assert if j == 0 then 0 <= entries[0].seqNo else entries[j - 1].seqNo < entries[j].seqNo;
    if i < j {
      IntactRises(h, entries, i, j - 1);
    } else if i > 0 {
      IntactRises(h, entries, i - 1, j - 1);
    }
  }

  lemma SliceMeaning(h: Hash, entries: seq<AuditEntry>)
    ensures SliceOk(h, entries) <==> IntactSlice(h, entries)
  {
    hide EntryDigest;
    if IntactSlice(h, entries) {
      forall i, j | 0 <= i < j < |entries| ensures entries[i].seqNo < entries[j].seqNo {
        IntactRises(h, entries, i, j);
      }
      forall i | 0 <= i < |entries| ensures entries[i].seqNo >= 0 && HashProblem(h, entries[i]).None? {
        IntactRises(h, entries, i, i);
      }
    }
  }

  /**
   What each check of `verifyBundle` decides: the algorithm and the signature over the bytes of the canonical text; the
   entries; the proofs; the manifest's digest; and the 183 days of retention.
   */
  lemma ChecksMean(h: Hash, keys: KeyPair, env: Envelope)
    ensures var k, c := ChecksOf(h, keys, env), env.payload;
            && (k.signature <==>
                && env.signature.isEd25519 && ContentsText(c).Some?
                && keys.verify(Utf8(ContentsText(c).value), env.signature.value))
            && (k.chain <==> IntactSlice(h, c.entries))
            && (k.inclusion <==> forall i :: 0 <= i < |c.entries| ==>
                  && ProofFor(c.proofs, c.entries[i].seqNo).Some?
                  && InclusionVerdict(h, ProofFor(c.proofs, c.entries[i].seqNo).value, FromHex(c.entries[i].entryHash), c.logRoot).Valid?)
            && (k.manifest <==>
                && c.manifest.Some? && Canonical(c.manifest.value).Some?
                && c.manifestDigest == ToHex(h(Utf8(Canonical(c.manifest.value).value))))
            && (k.retention <==> KeptSixMonths(c.generatedAt, c.retainUntil))
    ensures AllChecks(ChecksOf(h, keys, env))
            <==> var k := ChecksOf(h, keys, env); k.signature && k.chain && k.inclusion && k.manifest && k.retention
  {
    hide ContentsText, Canonical, InclusionVerdict, ProofFor, FromHex, EntryDigest, Utf8, ToHex, IntactSlice, SliceOk;
    SliceMeaning(h, env.payload.entries);
    forall i | 0 <= i < |env.payload.entries|
      ensures var c := env.payload;
              InclusionFailure(h, c, c.entries[i]).None? <==>
                && ProofFor(c.proofs, c.entries[i].seqNo).Some?
                && InclusionVerdict(h, ProofFor(c.proofs, c.entries[i].seqNo).value, FromHex(c.entries[i].entryHash), c.logRoot).Valid?
    {
    }
  }

  // ---------------------------------------------------------------- the failures

  lemma {:induction false} InclusionListed(h: Hash, c: Contents, n: nat, f: Failure)
    requires n <= |c.entries|
    ensures f in InclusionFailures(h, c, n) <==> exists i :: 0 <= i < n && InclusionFailure(h, c, c.entries[i]) == Some(f)
  {
    hide InclusionFailure;
    if n > 0 {
      InclusionListed(h, c, n - 1, f);
    }
  }

  /** What is reported of one entry: that it has no proof, or the reason for which its proof is refused. */
  lemma InclusionReported(h: Hash, c: Contents, e: AuditEntry)
    ensures InclusionFailure(h, c, e)
            == if ProofFor(c.proofs, e.seqNo).None? then Some(MissingProof(e.seqNo))
               else
                 match InclusionVerdict(h, ProofFor(c.proofs, e.seqNo).value, FromHex(e.entryHash), c.logRoot)
                 case Valid(_) => None
                 case Invalid(reason, _) => Some(NotInLog(e.seqNo, reason))
  {
    hide InclusionVerdict, ProofFor, FromHex;
  }

  /** A failure is listed exactly when what it says is so. */
  lemma FailuresMean(h: Hash, keys: KeyPair, env: Envelope, f: Failure)
    ensures var k, c := ChecksOf(h, keys, env), env.payload;
            f in FailuresOf(h, keys, env) <==>
              match f
              case BadSignature(UnsupportedAlgorithm) => !env.signature.isEd25519
              case BadSignature(NothingToSign) => env.signature.isEd25519 && ContentsText(c).None?
              case BadSignature(DoesNotMatch) => env.signature.isEd25519 && ContentsText(c).Some? && !k.signature
              case BrokenChain(link) => FirstSliceProblem(h, c.entries, 0) == Some(link)
              case ManifestMismatch => !k.manifest
              case RetentionTooShort => !KeptSixMonths(c.generatedAt, c.retainUntil)
              case _ => exists i :: 0 <= i < |c.entries| && InclusionFailure(h, c, c.entries[i]) == Some(f)
  {
    hide ContentsText, ManifestDigest, FirstSliceProblem, InclusionFailures, InclusionFailure, SliceOk, AllIncluded;
    InclusionListed(h, env.payload, |env.payload.entries|, f);
    if exists i :: 0 <= i < |env.payload.entries| && InclusionFailure(h, env.payload, env.payload.entries[i]) == Some(f) {
      var i :| 0 <= i < |env.payload.entries| && InclusionFailure(h, env.payload, env.payload.entries[i]) == Some(f);
      InclusionReported(h, env.payload, env.payload.entries[i]);
    }
  }

  /** The failures stand in the order of the checks, those of the inclusion check in the order of the entries. */
  lemma FailuresInOrder(h: Hash, keys: KeyPair, env: Envelope) returns (head: seq<Failure>, tail: seq<Failure>)
    ensures FailuresOf(h, keys, env) == head + InclusionFailures(h, env.payload, |env.payload.entries|) + tail
    ensures |head| <= 2 && forall i :: 0 <= i < |head| ==> head[i].BadSignature? || head[i].BrokenChain?
    ensures |head| == 2 ==> head[0].BadSignature? && head[1].BrokenChain?
    ensures |tail| <= 2 && forall i :: 0 <= i < |tail| ==> tail[i].ManifestMismatch? || tail[i].RetentionTooShort?
    ensures |tail| == 2 ==> tail[0].ManifestMismatch? && tail[1].RetentionTooShort?
    ensures forall n :: 0 <= n < |env.payload.entries| ==>
              InclusionFailures(h, env.payload, n) <= InclusionFailures(h, env.payload, n + 1)
  {
    hide ContentsText, ManifestDigest, FirstSliceProblem, InclusionFailure, RetainedLongEnough;
    head := SignatureFailures(keys, env) + ChainFailures(h, env.payload);
    tail := ManifestFailures(h, env.payload) + RetentionFailures(env.payload);
  }

  // ---------------------------------------------------------------- createBundle

  /**
   When `createBundle` signs and what it refuses with, for every input: the first of these that is so. What it signs holds
   every part of the input as given, with the digest of the manifest, and carries the signature over the canonical bytes.
   */
  lemma BundledExactly(h: Hash, keys: KeyPair, input: BundleInput)
    ensures var r := Bundled(h, keys, input);
            var missing := FirstWithoutProof(input.entries, input.proofs);
            if input.entries == [] then r == Err(NoEntries)
            else if !IntactSlice(h, input.entries) then
              r.Err? && FirstSliceProblem(h, input.entries, 0).Some? && r.error == ChainDoesNotVerify(FirstSliceProblem(h, input.entries, 0).value)
            else if missing.Some? then r == Err(EntryWithoutProof(missing.value))
            else if input.retainUntil.Some? && input.generatedAt.Some? && !KeptSixMonths(input.generatedAt, input.retainUntil) then
              r == Err(RetentionBelowMinimum)
            else if input.manifest.None? || Canonical(input.manifest.value).None? then r == Err(ManifestNotCanonical)
            else if input.retainUntil.None? || input.generatedAt.None? then r == Err(InvalidDate)
            else
              var c := Contents(input.entries, input.logRoot, input.logSize, input.proofs, input.manifest,
                                ToHex(h(Utf8(Canonical(input.manifest.value).value))),
                                input.retainUntil, input.generatedAt, input.rest);
              if ContentsText(c).None? then r == Err(ContentsNotCanonical)
              else r == Ok(Envelope(c, Signature(true, keys.sign(Utf8(ContentsText(c).value)))))
  {
    hide ContentsText, Canonical, FirstSliceProblem, FirstWithoutProof, SliceOk, IntactSlice, Utf8, ToHex;
    SliceMeaning(h, input.entries);
    SliceDecided(h, input.entries);
  }

  /** The entry reported as lacking a proof is the first one that lacks one. */
  lemma {:induction false} WithoutProofMeaning(entries: seq<AuditEntry>, proofs: seq<ProofAt>)
    ensures match FirstWithoutProof(entries, proofs)
            case None => forall i :: 0 <= i < |entries| ==> ProofFor(proofs, entries[i].seqNo).Some?
            case Some(n) => exists i :: 0 <= i < |entries| && entries[i].seqNo == n && ProofFor(proofs, n).None?
                                        && forall j :: 0 <= j < i ==> ProofFor(proofs, entries[j].seqNo).Some?
  {
    hide ProofFor;
    if entries != [] && ProofFor(proofs, entries[0].seqNo).Some? {
      WithoutProofMeaning(entries[1..], proofs);
      match FirstWithoutProof(entries, proofs)
      case None =>
      case Some(n) =>
        var i :| 0 <= i < |entries[1..]| && entries[1..][i].seqNo == n && ProofFor(proofs, n).None?
                 && forall j :: 0 <= j < i ==> ProofFor(proofs, entries[1..][j].seqNo).Some?;
        assert entries[i + 1].seqNo == n;
        forall j | 0 <= j < i + 1 ensures ProofFor(proofs, entries[j].seqNo).Some? {
          if j > 0 {
            assert entries[j] == entries[1..][j - 1];
          }
        }
    }
  }
}
