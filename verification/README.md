# Verified model of the evidence layer, the estimators and the robustness assessment

A Dafny 4.11 model of three parts of the repository, with proofs. `dafny verify dfyconfig.toml` checks all of it.

**The evidence layer.** An append-only Merkle log (RFC 6962, section 2.1) whose prover is recursive; three verifiers
that never build a tree (the server's, the Python conformance suite's and the command line's); a hash-chained audit
log over the tree; the canonical JSON (RFC 8785) that feeds every hash; and the signed bundle that puts these together.

**The scoring arithmetic.** pass@k, pass^k, G-pass@k and the variance of pass@k; Holm's correction; Wilson's interval.

**The robustness assessment.** The hill-climbing search for unearned reward, and the assessment that runs determinism,
canary, perturbation and fuzzing probes under one call budget.

## How it is modelled

*Hashing.* SHA-256 is a parameter `h` from byte strings to 32-byte digests, so every theorem holds for every such
function. The 0x00 and 0x01 prefixes are real bytes. A soundness theorem says "the claim holds, or there is a
collision": two distinct byte strings with one digest, the first among the inputs the log owner hashed and the second
among the inputs this verifier hashed, both given as explicit finite sets. Signing is a pair of functions
`sign`/`verify` over the canonical bytes; completeness assumes that a signature verifies, soundness assumes nothing.

*The bottom-up walk.* `MerkleSpec` states MTH, PATH and SUBPROOF as RFC 6962 does, and proves that all three commute
with `Pair`, which hashes neighbours and promotes an odd last node. That links the recursive definitions to a walk
that halves two counters. The walk is written once (`Climb`) for two counter widths: unbounded integers for Python,
and 32-bit signed `>>` for JavaScript. Array lengths are below 2^32, as in JavaScript.

*JSON.* `Json` is the tree, with the empty slots of sparse arrays kept; `CanonicalText` prints trees; `CanonicalGraph`
runs the recursive printer on a heap of objects with identity, with the mutable set of ancestors, and
`CanonicalGraphTheorems` relates the two. Strings are sequences of UTF-16 code units. A number is its shortest decimal
(sign, digits, position of the point), or -0, NaN or an infinity. `NumberText` holds the Python number layout together
with a reader that gives each text its value.

*What pins an answer.* A method is proved against a function, and the function against statements that do not mention
it: a proof is accepted exactly when the root rebuilt top down is the expected one (`TreeWalks`, `Verdicts`); a number
has the one text ECMAScript gives it (`NumberForms`); a strict JSON reader reads canonical text back (`JsonReader`); an
entry records its event (`AuditLogs.SealExactly`); every check, refusal and failure of a bundle is stated on its fields
(`BundleMeaning`, `LocalMeaning`, `SignedContents`); and findings are stated in what grader and oracle answered
(`FuzzAnswers`, `AssessAnswers`, `AssessReports`).

*Bundles.* The two dates are kept parsed, beside the texts among the further members that are signed.

*Arithmetic.* Estimators, Holm and Wilson are over exact reals. A square root is a non-negative real with the right
square.

*Nondeterminism.* Grader and oracle answer by call number, so they may answer differently to equal questions.
Mutators, canaries and perturbations are functions of their arguments. Numbers of repeats, samples and steps are
integers; call caps are reals, infinite, or not a number.

## What was found

Where a promise does not hold of the code, the code is modelled as it is, and a theorem says exactly when it holds.

- The JavaScript verifiers shift with `>>`, which wraps at 32 bits. The server rejects every honest inclusion proof
  from 2^31 + 1 leaves on, and every honest consistency proof from a smaller non-empty tree (`InclusionComplete`,
  `ConsistencyProofAccepted`); so both bundle verifiers accept honest bundles exactly up to there (`BundleComplete`,
  `CliComplete`). All four are equivalences.
- `verifyConsistency` from size 0 looks at no root (`EmptyPrefixUnchecked`).
- The Python `verify_consistency` does not check that the node it starts from is 32 bytes long. For every log of two
  leaves it accepts a false first root (`ShortRootAccepted`); that length is the whole condition
  (`ConsistencyCheckExact`).
- A sparse array is accepted by `canonicalize` and an empty slot prints as nothing. The one ambiguity is that an array
  of a single empty slot prints like `[]` (`HolePrintsLikeNothing`); up to that, unique decoding holds on every heap
  (`CanonicalizeExact`), and the audit chain pins payloads (`EmptySlotUnseen`, `HeadPinsLog`).
- The command line prints -0 as 0 and non-finite numbers as null, which the server refuses (`MinusZeroReadAsZero`);
  its text is decodable exactly up to that and the empty slot (`CliTextExact`), and the entries of a bundle it accepts
  are logged entries exactly when they hold no such number (`CliSoundExact`).
- The comment on `best` in the fuzzer says it is null if nothing was paid. It is null exactly when nothing was scored
  (`BestIsFirstMaximum`, `NothingPaidHasBest`).
- A call cap that is not whole is overrun by less than one call (`CallsWithinBudget`). A per-task fuzzing cap that is
  not a number removes the cap from the search (`NotANumberSearches`), so the total cap holds exactly when those
  searches happen to fit (`CapKeptExactly`).
- The type comment calls `worstGap` the largest confirmed gap. The code also counts suspected fuzz gaps and rewards
  below the threshold, so a report can state a positive exploitable gap beside "no gap was established"
  (`SuspectedGapCounts`). `OnlyExposedContradict` and `ExposedContradicts` say for which options some grader brings
  that about.
- Fuzzing that was skipped because the budget was already spent can go unmentioned in every limitation
  (`SkippedFuzzingUnreported`), and `HiddenSkipExactly` says when; canaries and perturbations are always accounted for
  (`NoBudgetLineMeansTested`).

## Model

| member | source | states |
|---|---|---|
| MerkleSpec.SplitUnique | packages/server/src/evidence/merkle-tree.ts:66-71 | There is exactly one power of two k with k < n <= 2k, so the split point of RFC 6962 is well defined. |
| MerkleTrees.LargestPowerOfTwoBelow | packages/server/src/evidence/merkle-tree.ts:66-71 | The doubling loop finds that split point for every n > 1. |
| MerkleSpec.MthPair | packages/server/src/evidence/merkle-tree.ts:27-30 | Hashing neighbours and promoting the odd last node leaves the recursively defined root unchanged, for every number of leaves. |
| MerkleSpec.PathPair | packages/server/src/evidence/merkle-tree.ts:140-167 | A recursive audit path is the sibling on the leaf level followed by the audit path one level up. |
| MerkleSpec.SubproofEven | packages/server/src/evidence/merkle-tree.ts:187-210 | A consistency proof from an even size is the consistency proof one level up. |
| MerkleSpec.SubproofOdd | packages/server/src/evidence/merkle-tree.ts:187-210 | From an odd size it is the last leaf of the prefix followed by that leaf's audit path. |
| MerkleSpec.PathLength | packages/server/src/evidence/merkle-tree.ts:146-167 | An audit path has at most ceil(log2 n) hashes. |
| MerkleSpec.SubproofLength | packages/server/src/evidence/merkle-tree.ts:175-210 | A consistency proof has at most ceil(log2 n) + 1 hashes. |
| MerkleSpec.CeilLog2Meaning | packages/server/src/evidence/merkle-tree.ts:146-167 | The bound used is the ceiling of the binary logarithm: n <= 2^e < 2n. |
| Bytes.HashInputs | packages/server/src/evidence/merkle-tree.ts:47-64 | A leaf is hashed as the byte 0 and the data, a node as the byte 1 and the two raw hashes in order. |
| MerkleTrees.MerkleTree.Append | packages/server/src/evidence/merkle-tree.ts:100-104 | Appending adds the prefixed leaf hash at the end and returns its index. |
| MerkleTrees.MerkleTree.AppendLeafHash | packages/server/src/evidence/merkle-tree.ts:106-114 | A ready hash, as bytes or as hexadecimal text, is added only when it is 32 bytes long; a refusal changes nothing. |
| MerkleTrees.LeafHashRoundTrip | packages/server/src/evidence/merkle-tree.ts:106-124 | The text the tree gives out for a leaf is taken back as that leaf. |
| MerkleTrees.MerkleTree.InclusionProofFor | packages/server/src/evidence/merkle-tree.ts:146-154 | The proof object carries index, size and the hexadecimal PATH; indices outside the log are refused. |
| MerkleTrees.MerkleTree.BuildPath | packages/server/src/evidence/merkle-tree.ts:156-167 | Pushing onto the output list builds PATH(m, D[start:end]) of RFC 6962, section 2.1.1. |
| MerkleTrees.MerkleTree.ConsistencyProofFrom | packages/server/src/evidence/merkle-tree.ts:175-185 | The proof object carries both sizes and the hexadecimal PROOF; equal sizes and size 0 give an empty one. |
| MerkleTrees.MerkleTree.BuildSubproof | packages/server/src/evidence/merkle-tree.ts:187-210 | Pushing onto the output list builds SUBPROOF(m, D[start:end], b) of RFC 6962, section 2.1.2. |
| Text.HexRoundTrip | packages/server/src/evidence/proof-verifier.ts:21-27 | Decoding the hexadecimal text of bytes gives the bytes back. |
| Text.HexText | packages/server/src/evidence/proof-verifier.ts:21-27 | Every byte is written as two lower-case digits, the higher half first. |
| Text.FromHexStops | packages/server/src/evidence/proof-verifier.ts:21-27 | Decoding reads digits of either case, two at a time, up to the first pair that is none. |
| Text.HexToBufExactly | packages/server/src/evidence/proof-verifier.ts:21-27 | A text is a hash exactly when what it decodes to is 32 bytes long. |
| Climb.ShiftWhileEven | packages/server/src/evidence/proof-verifier.ts:84-93 | The inner loop strips the trailing zero bits of fn, shifting sn alongside, for both widths. |
| Climb.ShiftWhileOdd | packages/server/src/evidence/proof-verifier.ts:144-153 | The loop before a consistency walk strips the trailing one bits. |
| Climb.ClimbWidth | packages/server/src/evidence/proof-verifier.ts:74-97 | Below 2^31 the 32-bit walk is the walk on unbounded integers. |
| Climb.ClimbNegative | packages/server/src/evidence/proof-verifier.ts:74-97 | Once the last index wraps to a negative number, no path of any length is accepted. |
| Climb.ClimbComplete | packages/server/src/evidence/proof-verifier.ts:62-103 | The recursive audit path leads the two-counter walk to the root of the tree, and at the same time to the root of the tree that ends in that node. |
| Climb.ClimbSound | packages/server/src/evidence/proof-verifier.ts:62-103 | A walk that ends in the root of a tree of that size started at the claimed leaf and consumed exactly the recursive audit path, or a collision. |
| Climb.ClimbBothSecond | packages/server/src/evidence/proof-verifier.ts:169-192 | The consistency walk is the inclusion walk on its second root. |
| ClimbTheorems.ConsistencyComplete | packages/server/src/evidence/proof-verifier.ts:144-215 | The recursive consistency proof leads the walk to MTH of the first m leaves and to MTH of all of them. |
| ClimbTheorems.ConsistencySound | packages/server/src/evidence/proof-verifier.ts:144-215 | A walk that reaches the true later root was the honest one and carries MTH of the first m leaves, or a collision. |
| ClimbTheorems.StartLengthMatters | conformance/verify.py:293-319 | From a prefix that is no power of two, a walk to the true later root that starts from a node of another length than 32 does not carry the earlier root, or a collision. |
| ClimbTheorems.ClimbIsFold | packages/server/src/evidence/proof-verifier.ts:74-97 | Whatever the counters do, a completed walk is a chain of node hashes. |
| ClimbTheorems.FoldReachesLoggedLeaf | packages/server/src/evidence/merkle-tree.ts:40-64 | A chain of node hashes from a leaf hash to the root of a log starts in a logged leaf, by domain separation, or a collision. |
| TreeWalks.SingleWalkExactly | packages/server/src/evidence/proof-verifier.ts:62-103 | On every path, honest or not, the two-counter inclusion walk ends in the root that RFC 6962 rebuilds top down from leaf and path, and fails as too short or too long exactly when the path is. |
| TreeWalks.WalkExactly | packages/server/src/evidence/proof-verifier.ts:169-192 | The same for the two roots of a walk in step, for every pair of starting nodes. |
| TreeWalks.ConsistencyWalkExactly | packages/server/src/evidence/proof-verifier.ts:144-215 | The same for consistency proofs: shifting, choosing the starting node and walking rebuild the two roots that the recursive definition of SUBPROOF rebuilds top down. |
| TreeWalks.PathDepth | packages/server/src/evidence/proof-verifier.ts:62-103 | The number of hashes that walk asks for is the length of PATH. |
| TreeWalks.SubproofDepth | packages/server/src/evidence/proof-verifier.ts:144-215 | And for consistency the length of SUBPROOF. |
| ProofVerifier.PowerOfTwoMeaning | packages/server/src/evidence/proof-verifier.ts:29-31 | The bit test holds exactly of powers of two, for both widths and every array length, although the 32-bit operands wrap. |
| ProofVerifier.VerifyInclusion | packages/server/src/evidence/proof-verifier.ts:50-104 | The loop decides by the walk on the claimed counters, with the error reason of the first failing check. |
| ProofVerifier.VerifyConsistency | packages/server/src/evidence/proof-verifier.ts:119-216 | Likewise for consistency proofs, with all special cases of equal, empty and power-of-two sizes. |
| ProofVerifier.ReconstructRoots | packages/server/src/evidence/proof-verifier.ts:169-192 | The loop reconstructs both roots in step from one node. |
| ProofVerifier.InclusionComplete | packages/server/src/evidence/proof-verifier.ts:50-104 | For every log and every index the prover's proof is accepted exactly when the log has at most 2^31 entries. |
| ProofVerifier.InclusionSound | packages/server/src/evidence/proof-verifier.ts:50-104 | An accepted proof for the real size puts the data at the claimed index and its path is PATH, or a collision. |
| ProofVerifier.AcceptedLeafWasLogged | packages/server/src/evidence/proof-verifier.ts:50-104 | Whatever index and size an accepted proof claims, the data is some logged leaf, or a collision. |
| ProofVerifier.ConsistencyProofAccepted | packages/server/src/evidence/proof-verifier.ts:119-216 | For every log and every 0 <= m <= n the prover's proof is accepted exactly when m is 0, m is n or n is at most 2^31. |
| ProofVerifier.ConsistencyVerdictSound | packages/server/src/evidence/proof-verifier.ts:137-215 | Acceptance against the true root of n leaves makes the claimed first root MTH of the first m leaves, or a collision. |
| ProofVerifier.EmptyPrefixUnchecked | packages/server/src/evidence/proof-verifier.ts:137-142 | From size 0 any two roots are accepted exactly when the path is empty. |
| ProofVerifier.ProofLengths | packages/server/src/evidence/merkle-tree.ts:146-185 | The proof objects of the prover are logarithmic in the size of the log. |
| Verdicts.InclusionAnswers | packages/server/src/evidence/proof-verifier.ts:50-104 | The whole answer for sizes up to 2^31, in terms of the root rebuilt top down: valid exactly when it is the expected one, otherwise which reason, and with which computed root. |
| Verdicts.ConsistencyAnswers | packages/server/src/evidence/proof-verifier.ts:119-216 | The whole answer for consistency likewise: every special case, every reason, and the computed root. |
| Conformance.PairUp | conformance/verify.py:245-250 | One round of the iterative root is one level of pairing. |
| Conformance.MerkleRootIterative | conformance/verify.py:228-251 | The iterative root equals the recursively defined root, for every number of leaves. |
| Conformance.VerifyInclusion | conformance/verify.py:254-272 | The loop reconstructs the root of the walk on unbounded integers, or nothing. |
| Conformance.InclusionExact | conformance/verify.py:254-272 | It yields the true root for the leaf and the recursive audit path, and for nothing else without a collision; there is no size limit. |
| Conformance.VerifyConsistency | conformance/verify.py:279-319 | On all integer sizes, negative ones included, the loops decide by the walk that reconstructs both roots. |
| Conformance.RebuildBoth | conformance/verify.py:303-319 | Its loop reconstructs both roots from one node. |
| Conformance.HonestProofAccepted | conformance/verify.py:279-319 | Every honest consistency proof is accepted, at every size. |
| Conformance.ConsistencyCheckSound | conformance/verify.py:279-319 | An accepted check that starts from 32 bytes proves the earlier root, or a collision. |
| Conformance.ConsistencyCheckExact | conformance/verify.py:279-319 | Among accepted checks against the true later root, the first root is right exactly when the starting node is 32 bytes long, or a collision. |
| Conformance.ShortRootAccepted | conformance/verify.py:289-319 | For every two leaves, a 31-byte first root that is not the root is accepted. |
| Verdicts.RebuiltExactly | conformance/verify.py:254-272 | For all integers the Python inclusion loop gives the root rebuilt top down from leaf and path, and nothing for an index outside the tree. |
| Verdicts.AcceptsExactly | conformance/verify.py:279-319 | For sizes from 0 on the Python check accepts exactly when the two roots rebuilt top down are the two given ones, with the special cases of equal and empty trees. |
| Decimals.NormalUnique | conformance/verify.py:106-140 | Two normal decimals of equal value are equal. |
| Decimals.NormaliseKeepsValue | conformance/verify.py:106-120 | Stripping leading and trailing zeros and moving the point keeps the value. |
| NumberText.PrintDenotes | conformance/verify.py:120-140 | In all five layouts the text denotes exactly the value of the decimal; `NumberForms.PrintExactly` says which text that is. |
| NumberText.PrintInjective | conformance/verify.py:120-140 | Two decimals print alike only if they are equal. |
| NumberText.EsNumberIsNormal | conformance/verify.py:80-140 | The printer refuses exactly non-finite numbers and -0, and prints the normal form of anything else; `NumberForms.EsNumberExactly` says how. |
| NumberText.EsNumberDenotes | conformance/verify.py:80-140 | The printed text denotes the value of the float. |
| NumberText.EsNumberCanonical | conformance/verify.py:80-140 | Two floats print alike exactly when they are equal in value. |
| NumberForms.PrintExactly | conformance/verify.py:120-140 | The printed text is the only one that is a JSON number of that value (digits before and after a point, no zero that could be left out, no sign on 0) and has an exponent exactly when the value is not 0 and below 10^-6 or at least 10^21 in size, then with one digit before the point. |
| NumberForms.PrintForm | conformance/verify.py:120-140 | The letter e stands in the text exactly for those values; a point stands in it exactly when the value is no integer, and in exponent form exactly when there is more than one digit. |
| NumberForms.EsNumberExactly | conformance/verify.py:80-140 | So every float the Python printer accepts has exactly that text. |
| JsonStrings.ReadQuoted | packages/server/src/evidence/canonical.ts:71-72 | A reader inverts the string printer, whatever follows the literal. |
| JsonStrings.QuoteUnique | packages/server/src/evidence/canonical.ts:71-72 | Equal texts that begin with string literals have equal literals and equal rests. |
| JsonStrings.Utf8Injective | packages/server/src/evidence/audit-log.ts:82-84 | On text without lone surrogates the UTF-8 bytes determine the text. |
| JsonStrings.PairedQuote | packages/server/src/evidence/canonical.ts:71-72 | A printed string literal has no lone surrogates, even if the string has. |
| JsonStrings.ShortTable | packages/server/src/evidence/canonical.ts:71-72 | The seven short escapes, and that every other unit from 32 on that is no surrogate stands for itself. |
| JsonStrings.HexTable | packages/server/src/evidence/canonical.ts:71-72 | The other control characters, and surrogates without a partner, are written as `\u` and four lower-case digits. |
| JsonStrings.EncodeTable | packages/server/src/evidence/audit-log.ts:82-84 | The UTF-8 bytes of every code point: how many, with which lead byte, and that they spell the code point. |
| JsonStrings.Utf8Walk | packages/server/src/evidence/audit-log.ts:82-84 | Text is encoded pair by pair; a lone surrogate becomes the replacement character. |
| Json.SortAscending | packages/server/src/evidence/canonical.ts:107-109 | Sorting by UTF-16 code units gives strictly ascending keys. |
| Json.AscendingUnique | packages/server/src/evidence/canonical.ts:107-109 | There is one ascending order of given members. |
| Json.KeyLessMeaning | packages/server/src/evidence/canonical.ts:107-109 | One key comes before another exactly when it is a proper prefix, or has the smaller code unit where they first differ. |
| Json.NormalOfMeaning | packages/server/src/evidence/canonical.ts:107-118 | Trees that are equal up to key order at every level have one sorted form. |
| Json.NormalKeepsMeaning | packages/server/src/evidence/canonical.ts:107-118 | Sorting every object changes nothing but key order. |
| CanonicalText.PrintUnique | packages/server/src/evidence/canonical.ts:54-121 | Printed trees are prefix-decodable, empty array slots included: equal texts, followed by anything that can follow a value, come from equal trees, unless an array is a single empty slot. |
| CanonicalText.CanonicalDecodable | packages/server/src/evidence/canonical.ts:50-121 | Two JSON values have equal canonical text exactly when they are equal up to key order at every level. |
| CanonicalText.CanonicalExact | packages/server/src/evidence/canonical.ts:50-121 | On all accepted trees, empty slots included, texts are equal exactly when the trees are equal up to key order after every array of a single empty slot is replaced by the empty array. |
| CanonicalText.CanonicalBytesDecodable | packages/server/src/evidence/canonical.ts:50-121 | The same, on all accepted trees, for the UTF-8 bytes that are hashed. |
| JsonReader.CanonicalReadsBack | packages/server/src/evidence/canonical.ts:50-121 | A strict JSON reader, written from the grammar, reads the canonical text back as the same tree with the keys of every object in ascending order. |
| CanonicalText.CliTextAgrees | packages/cli/src/verify-local.ts:36-50 | The command line prints what the server prints on every value the server accepts. |
| CanonicalText.CliTextExact | packages/cli/src/verify-local.ts:36-50 | The command line's texts are equal exactly when the values are, after -0 became 0, non-finite numbers null, and an array of a single empty slot the empty array. |
| CanonicalText.MinusZeroReadAsZero | packages/cli/src/verify-local.ts:39 | A -0 passes for a 0 on the command line and is refused by the server. |
| CanonicalGraph.Write | packages/server/src/evidence/canonical.ts:54-83 | The recursion with the mutable ancestor set terminates on every finite graph, leaves the set as it found it, and returns what the pure printer returns. |
| CanonicalGraph.WriteObject | packages/server/src/evidence/canonical.ts:85-121 | The same for arrays, dates and records under the cycle check. |
| CanonicalGraph.WriteAllSlots | packages/server/src/evidence/canonical.ts:92-97 | The loop over an array writes the filled slots in order and stops at the first error. |
| CanonicalGraph.WriteAllKeys | packages/server/src/evidence/canonical.ts:107-118 | The loop over a record writes the defined properties in sorted order and stops at the first error. |
| CanonicalGraph.Canonicalize | packages/server/src/evidence/canonical.ts:50-52 | The entry point starts from an empty ancestor set; `CanonicalAnswers.CanonicalizeReadsBack` and `CanonicalAnswers.ErrorIsFirst` say what it answers. |
| CanonicalGraphTheorems.ErrorIsReal | packages/server/src/evidence/canonical.ts:54-121 | A reported error names a real problem at the reported path. |
| CanonicalGraphTheorems.ProblemIsError | packages/server/src/evidence/canonical.ts:54-121 | A problem at the end of any walk through filled slots and defined properties makes the whole fail. |
| CanonicalGraphTheorems.RefusedExactlyWhen | packages/server/src/evidence/canonical.ts:85-120 | It fails exactly when an ancestor cycle, an invalid date or a rejected value is reachable; sharing without a cycle is accepted. |
| CanonicalGraphTheorems.PrintsTheTree | packages/server/src/evidence/canonical.ts:54-121 | On every heap it prints the canonical text of the tree the value stands for, empty slots kept, and fails exactly when there is none. |
| CanonicalGraphTheorems.CanonicalizeExact | packages/server/src/evidence/canonical.ts:50-121 | Accepted values in any two heaps print alike exactly when their trees are equal up to key order and up to arrays of a single empty slot being empty arrays. |
| CanonicalGraphTheorems.CanonicalizeDecodable | packages/server/src/evidence/canonical.ts:50-121 | Accepted values without empty slots, in any two heaps, print alike exactly when they mean the same. |
| CanonicalGraphTheorems.HolePrintsLikeNothing | packages/server/src/evidence/canonical.ts:92-97 | The witness for the exception: an array of one empty slot prints like an empty array. |
| CanonicalAnswers.CanonicalizeReadsBack | packages/server/src/evidence/canonical.ts:50-121 | On every heap, what is printed for a value without empty slots is JSON, reads back as a tree of the same meaning, and has its keys in ascending order. |
| CanonicalAnswers.ErrorIsFirst | packages/server/src/evidence/canonical.ts:85-120 | The reported error is the first in document order: no problem stands before it, elements counted by index and properties by key. |
| CanonicalAnswers.ProblemTable | packages/server/src/evidence/canonical.ts:54-90 | Which values are refused, and with which error. |
| AuditChain.VerifyChain | packages/server/src/evidence/audit-log.ts:93-141 | Valid exactly when every entry is linked; otherwise `checked` is the length of the longest valid prefix and the reason is that of the next entry. |
| AuditChain.LinkCases | packages/server/src/evidence/audit-log.ts:93-141 | The reason for a broken entry: its number, then the hash it follows, then a payload that is not JSON, then its own hash. |
| AuditChain.EntryNames | packages/server/src/evidence/audit-log.ts:34-66 | The member names of a hashed entry, and the 64 zeros that the first entry follows. |
| AuditChain.NoLongerPrefix | packages/server/src/evidence/audit-log.ts:93-141 | Nothing longer than the reported prefix is linked. |
| AuditChain.SameTextSameContent | packages/server/src/evidence/audit-log.ts:82-84 | Entries have equal hashed bytes exactly when their fields are equal and their payloads are equal up to key order and arrays of a single empty slot. |
| AuditChain.EmptySlotUnseen | packages/server/src/evidence/audit-log.ts:82-84 | The digest of an entry does not change when every array of a single empty slot in its payload is emptied. |
| AuditChain.HeadPinsPrefix | packages/server/src/evidence/audit-log.ts:82-141 | Two intact chains with equal hashes at position n agree on everything before it, or a collision. |
| AuditChain.HeadPinsLog | packages/server/src/evidence/audit-log.ts:82-141 | Two non-empty intact chains with one head have equal length and equal entries, in that sense, or a collision. |
| AuditChain.VerifyEntrySlice | packages/server/src/evidence/audit-log.ts:165-205 | A filtered list is valid exactly when sequence numbers rise from 0 or later and every entry hashes to its own hash; otherwise `checked` is the length of the longest valid prefix and the reason is the first thing wrong. |
| AuditLogs.AuditLog.Append | packages/server/src/evidence/audit-log.ts:213-238 | An append extends entries, tree and head together by one sealed entry; a refused event changes nothing. `AuditLogs.SealExactly` says what the entry holds. |
| AuditLogs.AuditLog.Verify | packages/server/src/evidence/audit-log.ts:288-290 | The log's own chain check succeeds in every state the log can be in. |
| AuditLogs.AuditLog.ForTenant | packages/server/src/evidence/audit-log.ts:265-267 | The entries of one tenant in log order. |
| AuditLogs.AuditLog.InclusionProofOf | packages/server/src/evidence/audit-log.ts:270-272 | Every entry has a proof that the verifier accepts against the current root, up to 2^31 entries and not beyond. |
| AuditLogs.AuditLog.ConsistencyProofOf | packages/server/src/evidence/audit-log.ts:275-277 | Every earlier size has a proof the verifier accepts between the root of that time and the current one, with the same boundary. |
| AuditLogs.SealLinks | packages/server/src/evidence/audit-log.ts:213-238 | A sealed entry links to the log it was sealed for. |
| AuditLogs.SealExactly | packages/server/src/evidence/audit-log.ts:213-238 | Which events are sealed, and for what reason any other is refused. The entry has the action, actor, tenant and subject of the event, the payload given or `{}`, the time given or the one of the clock, the length of the log as number, the hash of the last entry, and its own digest. |
| AuditLogs.DigestedExactly | packages/server/src/evidence/audit-log.ts:82-84 | An entry has a digest exactly when its payload holds nothing JSON cannot. |
| AuditLogs.RunRecords | packages/server/src/evidence/audit-log.ts:207-291 | After any sequence of events the log has one entry for each accepted event, in order, and each records its event in that sense. |
| AuditLogs.TenantViewIsSlice | packages/server/src/evidence/audit-log.ts:143-205 | A tenant's view of an intact log passes the check for filtered entries. |
| AuditLogs.RunLinks | packages/server/src/evidence/audit-log.ts:207-291 | After any sequence of appends, refused ones included, the chain is intact. |
| AuditLogs.RunExtends | packages/server/src/evidence/audit-log.ts:207-291 | The log of any earlier moment is a prefix of the log. |
| AuditLogs.WholeRun | packages/server/src/evidence/audit-log.ts:207-291 | After any run the chain verifies and earlier logs are prefixes; every entry has an accepted inclusion proof exactly up to 2^31 entries, and the root of every earlier moment an accepted consistency proof exactly up to 2^31 entries or when it is empty or the whole log. |
| EvidenceBundles.CreateBundle | packages/server/src/evidence/evidence-bundle.ts:190-240 | The checks in their order, the first failure, and otherwise the signed contents. |
| BundleMeaning.BundledExactly | packages/server/src/evidence/evidence-bundle.ts:190-240 | The answer for every input: which of the seven refusals, or the envelope, field by field, with an Ed25519 signature over its canonical bytes. |
| BundleMeaning.ProofForMeaning | packages/server/src/evidence/evidence-bundle.ts:203-207 | The proof of an entry is the first one under its number. |
| BundleMeaning.WithoutProofMeaning | packages/server/src/evidence/evidence-bundle.ts:203-207 | The entry that is named is the first one without a proof. |
| EvidenceBundles.CheckInclusion | packages/server/src/evidence/evidence-bundle.ts:281-297 | The loop collects one failure for each entry without an accepted proof, in order. |
| EvidenceBundles.VerifyBundle | packages/server/src/evidence/evidence-bundle.ts:261-314 | Valid exactly when all five checks hold; the failures are listed in order, each with its reason; it throws exactly on a manifest without a canonical text. `BundleMeaning.ChecksMean` and `BundleMeaning.FailuresMean` say what the checks and failures are. |
| EvidenceBundles.NoFailures | packages/server/src/evidence/evidence-bundle.ts:261-314 | The list of failures is empty exactly when all five checks hold. |
| BundleMeaning.ChecksMean | packages/server/src/evidence/evidence-bundle.ts:261-314 | Each check in plain terms: an Ed25519 signature that verifies over the canonical bytes of the contents; numbers that rise and entries that hash to their own hash; a proof for every entry that is valid for its hash against the cited root; the digest of the manifest; two dates that parse, at least 183 days of 86,400,000 milliseconds apart. |
| BundleMeaning.FailuresMean | packages/server/src/evidence/evidence-bundle.ts:261-314 | A failure is listed exactly when its reason holds, retention below 183 days and another algorithm than Ed25519 included. |
| BundleMeaning.FailuresInOrder | packages/server/src/evidence/evidence-bundle.ts:261-314 | Signature, chain, entries in their order, manifest, retention. |
| BundleMeaning.InclusionReported | packages/server/src/evidence/evidence-bundle.ts:281-297 | The failure of one entry: no proof under its number, or the reason its proof is not accepted. |
| BundleMeaning.SliceMeaning | packages/server/src/evidence/audit-log.ts:165-205 | The check of a filtered list in plain terms. |
| EvidenceBundles.HashInLog | packages/server/src/evidence/audit-log.ts:82-84 | A checked entry whose hash is a logged hash is the logged entry, or a collision. |
| EvidenceBundles.VerifiedEntryLogged | packages/server/src/evidence/evidence-bundle.ts:281-297 | An entry that passes its checks against the root of a real log is in that log, or a collision. |
| EvidenceBundles.BundleSound | packages/server/src/evidence/evidence-bundle.ts:261-314 | The entries of an accepted bundle that cites the root of a real log are a subsequence of that log, or a collision. |
| SignedContents.SignedBytesPinContents | packages/server/src/evidence/evidence-bundle.ts:221-240 | Contents with equal signed bytes agree on entries, root, size, proofs, manifest and its digest, and on every further member. |
| SignedContents.AcceptedIsSigned | packages/server/src/evidence/evidence-bundle.ts:261-314 | If a key verifies only the bytes of given contents, every bundle it accepts has contents equal to one of them in that sense. |
| SignedContents.BundleNames | packages/server/src/evidence/evidence-bundle.ts:218-238 | The member names of the signed object. |
| EvidenceBundles.CutIsBundled | packages/server/src/evidence/evidence-bundle.ts:190-240 | A cut from one log state is signed exactly when it has entries, enough retention and JSON contents. |
| EvidenceBundles.BundleComplete | packages/server/src/evidence/evidence-bundle.ts:190-314 | The bundle made from such a cut is accepted exactly when the log has at most 2^31 entries. |
| RawEntries.RawEntryLogged | packages/server/src/evidence/audit-log.ts:165-205 | An entry of any shape, with extra or missing members, that hashes to what it claims and is proved into the root of a real log is an entry of that log, or a collision. |
| RawEntries.LoggedMembersExact | packages/server/src/evidence/audit-log.ts:82-84 | Such an entry has exactly the members the log writes, and its sequence number is the logged one. |
| RawEntries.RawBundleSound | packages/server/src/evidence/evidence-bundle.ts:261-314 | A list of entries of any shape that passes the digest, order and inclusion checks is a subsequence of the real log, or a collision. |
| VerifyLocal.VerifyInclusion | packages/cli/src/verify-local.ts:57-85 | The second walk on 32-bit counters, without a check of sibling lengths. |
| VerifyLocal.VerifyLocalBundle | packages/cli/src/verify-local.ts:87-172 | The signature check holds exactly when a key is given and verifies the signature over the UTF-8 bytes of the printed payload; the verdict is the conjunction of the five checks, and the failures are the listed ones; it throws exactly on a payload that does not parse. |
| VerifyLocal.CheckDigests | packages/cli/src/verify-local.ts:119-128 | One failure for every entry whose digest does not recompute. |
| VerifyLocal.CheckOrder | packages/cli/src/verify-local.ts:130-140 | Ordered exactly when every number exceeds the one before it, starting from -1; one failure for every entry that does not. |
| VerifyLocal.CheckAllIncluded | packages/cli/src/verify-local.ts:142-163 | True exactly when every entry has a proof that is accepted; one failure for every entry that has not. |
| VerifyLocal.OrderedExactly | packages/cli/src/verify-local.ts:130-140 | Comparing neighbours decides whether all sequence numbers rise from 0 or later, which is the order the server asks for. |
| LocalMeaning.CliChecksMean | packages/cli/src/verify-local.ts:87-172 | Each check in plain terms, for every parsed bundle: the key verifies the printed payload; every entry as printed hashes to its own hash; numbers rise from 0 or later; the printed manifest hashes to its digest. |
| LocalMeaning.IncludedExactly | packages/cli/src/verify-local.ts:57-85 | Up to a size of 2^31 a proof is accepted exactly when its index lies in the tree and the root rebuilt top down from leaf and path is the cited one. |
| LocalMeaning.CliInclusionMeans | packages/cli/src/verify-local.ts:142-163 | So the inclusion check holds exactly when every entry has such a proof under its number. |
| LocalMeaning.RejectedIsInvalid | packages/cli/src/verify-local.ts:102-115 | No bundle whose signature the key rejects, or that comes without a key, is valid. |
| LocalMeaning.CliFailuresMean | packages/cli/src/verify-local.ts:87-172 | A failure is listed exactly when its reason holds. |
| LocalMeaning.CliFailuresInOrder | packages/cli/src/verify-local.ts:87-172 | Signature, digests, order, inclusion, manifest. |
| LocalMeaning.CliAcceptedIsSigned | packages/cli/src/verify-local.ts:87-172 | If a key verifies only the bytes of given contents, every bundle the command line accepts with it prints as one of them. |
| VerifyLocal.ServerAcceptedIsIncluded | packages/cli/src/verify-local.ts:57-85 | Every proof the server accepts the command line accepts. |
| VerifyLocal.CliLeafWasLogged | packages/cli/src/verify-local.ts:57-85 | An accepted leaf was logged, whatever index, size and sibling lengths are claimed, or a collision. |
| VerifyLocal.CliDigestIsServerDigest | packages/cli/src/verify-local.ts:120-122 | The command line recomputes the server's entry digest, on the entry as printed. |
| VerifyLocal.ServerAcceptedIsCliAccepted | packages/cli/src/verify-local.ts:87-172 | Every bundle the server accepts the command line accepts, given the public key. |
| VerifyLocal.CliComplete | packages/cli/src/verify-local.ts:87-172 | The command line accepts a bundle cut from one log state exactly when the log has at most 2^31 entries. |
| VerifyLocal.CliSound | packages/cli/src/verify-local.ts:87-172 | The printed forms of the entries of an accepted bundle citing the root of a real log are a subsequence of that log, or a collision. |
| VerifyLocal.CliSoundExact | packages/cli/src/verify-local.ts:87-172 | The entries themselves are such a subsequence exactly when no payload holds a number JSON cannot, or a collision. |
| Binomial.Vandermonde | packages/server/src/scoring/estimators.ts:122-140 | Counting subsets by their number of successes counts every subset once. |
| Binomial.NextInRow | packages/server/src/scoring/estimators.ts:77-86 | The ratio of neighbouring binomial coefficients that the product loops multiply up. |
| Binomial.TailSuccess | packages/server/src/scoring/estimators.ts:122-140 | How a hypergeometric tail changes with one success more. |
| Binomial.TailFailure | packages/server/src/scoring/estimators.ts:122-140 | How it changes with one failure more. |
| Estimators.PassAtK | packages/server/src/scoring/estimators.ts:77-86 | The product loop computes 1 - C(n-c,k)/C(n,k), with the sample checks in their order. |
| Estimators.PassPowK | packages/server/src/scoring/estimators.ts:100-108 | The product loop computes C(c,k)/C(n,k). |
| Estimators.GPassAtK | packages/server/src/scoring/estimators.ts:122-140 | The sum from ceil(tau k) on is the hypergeometric tail, and the clamp never changes it. |
| Estimators.ThresholdMeaning | packages/server/src/scoring/estimators.ts:126 | j successes reach the threshold exactly when j is at least tau k. |
| Estimators.SampleProblem | packages/server/src/scoring/estimators.ts:54-66 | Which samples are refused, with which complaint. |
| Estimators.GPassRange | packages/server/src/scoring/estimators.ts:122-140 | The tail is a chance, so the clamp is idle. |
| Estimators.GPassCurve | packages/server/src/scoring/estimators.ts:122-140 | It never rises with the threshold, equals pass@k at 1 and pass^k at k. |
| Estimators.GPassByTau | packages/server/src/scoring/estimators.ts:122-140 | The same in terms of tau. |
| Estimators.MeanTail | packages/server/src/scoring/estimators.ts:19-21 | The mean of the number of favourable subsets is the number of subsets times the binomial chance. |
| Estimators.GPassUnbiased | packages/server/src/scoring/estimators.ts:19-21 | Averaged over c ~ Binomial(n, p), G-pass@k is exactly the chance that Binomial(k, p) reaches the threshold. |
| Estimators.GPassUnbiasedByTau | packages/server/src/scoring/estimators.ts:111-140 | In terms of tau: the average is the chance that at least the share tau of k trials succeeds. |
| Estimators.PassUnbiased | packages/server/src/scoring/estimators.ts:19-21 | pass@k averages to 1 - (1-p)^k and pass^k to p^k. |
| Estimators.VarianceNonNegative | packages/server/src/scoring/estimators.ts:172-192 | The mean square less the squared mean is the mean squared deviation, so it is not negative before the clamp. |
| Estimators.Moments | packages/server/src/scoring/estimators.ts:176-190 | The loop over the counts computes the mean and the mean square of pass@k, or names what is wrong with k and n. |
| Estimators.PassAtKVariance | packages/server/src/scoring/estimators.ts:172-192 | It returns the exact variance over n trials, and the clamp is idle; each refusal has its error. |
| Estimators.MeanOfCurve | packages/server/src/scoring/estimators.ts:172-192 | The mean about which that variance is taken is 1 - (1-p)^k. |
| Holm.HolmAdjust | packages/server/src/scoring/comparison.ts:204-219 | The array the loop fills holds the capped running maxima at the original positions. |
| Holm.AdjustedMeans | packages/server/src/scoring/comparison.ts:204-219 | An adjusted p-value is below alpha exactly when every p-value up to it is below alpha over the number of those at least as large. |
| Holm.StepDownExact | packages/server/src/scoring/comparison.ts:194-203 | The step-down procedure, which rejects the smallest p-value while it may, rejects exactly those. |
| Holm.AdjustedIsStepDown | packages/server/src/scoring/comparison.ts:288-292 | For non-negative p-values and alpha at most 1, the significant comparisons are exactly what the step-down procedure rejects. |
| Holm.FamilyWiseCore | packages/server/src/scoring/comparison.ts:194-203 | If an index of T is rejected, some index j of T has \|T\| p(j) < alpha. |
| Holm.PermutationEquivariant | packages/server/src/scoring/comparison.ts:204-219 | Renaming the hypotheses renames the adjusted p-values. |
| Wilson.IntervalIsScoreTest | packages/server/src/robustness/statistics.ts:30-47 | The interval is exactly the set of rates that the score test at level z does not reject. |
| Wilson.WilsonInterval | packages/server/src/robustness/statistics.ts:30-47 | For every count the bounds lie in [0, 1] without the clamps, the observed rate lies inside, and the width is positive. |
| Wilson.IntervalMeaning | packages/server/src/robustness/statistics.ts:30-47 | The reported rate is count over total, and the reported bounds enclose exactly the rates that the score test at level z does not reject. |
| FuzzModel.Best | packages/server/src/robustness/fuzzer.ts:143-170 | The position of the first candidate with the largest gap. |
| FuzzModel.Cleared | packages/server/src/robustness/fuzzer.ts:142 | Exactly the scored candidates above the floor. |
| Fuzzer.FuzzGrader | packages/server/src/robustness/fuzzer.ts:93-178 | The nested loops over seeds, steps and mutators score exactly the specified sequence of candidates, and the result summarises it; the lemmas of `FuzzAnswers` say what that sequence is. |
| Fuzzer.Searcher.Score | packages/server/src/robustness/fuzzer.ts:114-145 | One call and one candidate recorded, unless the budget is reached, and then nothing; `FuzzAnswers.ScoredAnswers` says what is recorded. |
| FuzzerTheorems.ScoredSound | packages/server/src/robustness/fuzzer.ts:147-175 | Every scored candidate was scored before the budget was reached, and is a seed or a mutation of a seed or of a candidate that improved on its parent. |
| FuzzerTheorems.CallsWithinBudget | packages/server/src/robustness/fuzzer.ts:119-178 | The calls never pass the cap rounded up, and the search is exhausted exactly when it has made that many. |
| FuzzerTheorems.ReplayRebuilds | packages/server/src/robustness/fuzzer.ts:75-77 | With distinct origins and mutator names, replaying any candidate's lineage rebuilds its submission. |
| FuzzerTheorems.LineageClimbs | packages/server/src/robustness/fuzzer.ts:152-174 | What a candidate was mutated from has at least the gap of its seed, and more unless it is the seed. |
| FuzzerTheorems.BestIsFirstMaximum | packages/server/src/robustness/fuzzer.ts:79-81 | `best` is the earliest candidate with the largest gap over everything scored, and null exactly when nothing was scored. |
| FuzzerTheorems.NothingPaidHasBest | packages/server/src/robustness/fuzzer.ts:79-81 | A search that scores something and is never paid has a best candidate all the same, with reward 0. |
| FuzzerTheorems.AssumedExactly | packages/server/src/robustness/fuzzer.ts:128-140 | A gap is assumed exactly when there is no oracle and the seed was declared unsolving; a gap never exceeds the reward. |
| FuzzAnswers.ScoredAnswers | packages/server/src/robustness/fuzzer.ts:114-145 | Candidate i has as reward the clamped grade of call i; with an oracle its solve is the clamped answer of the oracle and its gap the difference, without one it has no solve and the reward as gap. |
| FuzzAnswers.SolvedShowsNoGap | packages/server/src/robustness/fuzzer.ts:128-140 | With an oracle the gap is 0 exactly when grader and oracle agree after clamping. |
| FuzzAnswers.ClampMeaning | packages/server/src/robustness/fuzzer.ts:180-183 | The clamp gives the nearest number in [0, 1], and 0 for what is no number. |
| FuzzAnswers.ScoredInOrder | packages/server/src/robustness/fuzzer.ts:147-175 | Candidates stand in the order of seeds, a seed before its mutations, the mutations of a candidate in the order of the mutators and together. |
| FuzzAnswers.SteepestAscent | packages/server/src/robustness/fuzzer.ts:147-175 | A candidate that was mutated further is a seed or the first of its siblings with the largest gap, and improved on its parent. |
| FuzzAnswers.LineageBound | packages/server/src/robustness/fuzzer.ts:147-175 | No lineage is longer than the step limit and the origin. |
| FuzzerTheorems.ConvergedRun | packages/server/src/robustness/fuzzer.ts:147-175 | A search its budget did not stop took every seed to a candidate that none of its mutations beats, or to the step limit. |
| AssessTheorems.VarianceSees | packages/server/src/robustness/statistics.ts:63-67 | The spread is positive exactly when two observations differ. |
| AssessTheorems.NondeterministicExactly | packages/server/src/robustness/assess.ts:259-279 | A grader is reported nondeterministic exactly when two grades of the probe pair differ. |
| AssessTheorems.CanaryMeaning | packages/server/src/robustness/assess.ts:293-342 | A canary is open exactly when it was tested and its mean reward exceeds the threshold; untested means no grades and no gap. |
| AssessAnswers.CanaryReported | packages/server/src/robustness/assess.ts:293-342 | The finding of every canary on every task: not run with its reason when the canary does not apply; otherwise status, reward, spread and caveat follow from the clamped grades of consecutive calls on its submission, as many as the repeats ask for or the budget lets through. |
| AssessAnswers.PerturbationReported | packages/server/src/robustness/assess.ts:344-418 | The finding of every perturbation likewise, against the mean of the baseline grades, with the three reasons for not running it. |
| AssessAnswers.BaselineGrades | packages/server/src/robustness/assess.ts:344-362 | The baseline are the grades of the reference submission on that task. |
| AssessAnswers.ProbeMeaning | packages/server/src/robustness/assess.ts:259-271 | What is graded repeatedly for determinism: the reference of the first task, else its first canary, else nothing. |
| AssessAnswers.MeanMeaning | packages/server/src/robustness/statistics.ts:49-52 | Mean times length is the sum, and the mean of nothing is 0. |
| AssessAnswers.VarianceMeaning | packages/server/src/robustness/statistics.ts:63-67 | The spread is the mean of the squares less the square of the mean, and 0 below two observations. |
| AssessTheorems.FuzzMeaning | packages/server/src/robustness/assess.ts:419-467 | A fuzz finding is open when there is an oracle and suspected when there is none. |
| AssessReports.FuzzReported | packages/server/src/robustness/assess.ts:419-467 | A task has a fuzz finding exactly when fuzzing ran and scored a gap above the threshold. It is on the first candidate with the largest gap; its reward is the clamped grade of that call and its gap that reward less the clamped answer of the oracle; it is open exactly when there is an oracle. |
| AssessReports.SearchAsks | packages/server/src/robustness/assess.ts:419-445 | The search asks grader and oracle of the assessment, on the calls after those already made. |
| AssessReports.SearchStops | packages/server/src/robustness/assess.ts:430-433 | Its budget is reached when the per-task cap is, or when what is left of the total cap is used up. |
| AssessReports.SeedsExactly | packages/server/src/robustness/assess.ts:421-427 | The seeds are the submissions of the canaries that apply, in their order, each declared unsolving. |
| AssessTheorems.ReportShape | packages/server/src/robustness/assess.ts:195-210 | Every task has one finding per canary and per perturbation, in order, and whatever is not closed carries a caveat. |
| AssessTheorems.TotalWithinCap | packages/server/src/robustness/assess.ts:231-242 | Determinism, canary, perturbation and fuzz calls together never pass the cap rounded up, as long as the per-task fuzzing cap is a number. |
| AssessBudget.CapKeptExactly | packages/server/src/robustness/assess.ts:419-467 | For all options, the total cap is kept exactly when the search of every fuzz phase that runs fits into what is left of it. |
| AssessBudget.NotANumberSearches | packages/server/src/robustness/assess.ts:430-433 | With a per-task cap that is not a number, a fuzz phase that runs scores the whole search without a cap, at least one candidate for every seed. |
| AssessBudget.NotANumberOverruns | packages/server/src/robustness/assess.ts:430-433 | So the total cap is overrun as soon as one of those phases has more seeds than calls left. |
| AssessBudget.SkipSilent | packages/server/src/robustness/assess.ts:420 | Skipped fuzzing of a task goes unreported exactly when no grade was refused up to then and no later task has anything to grade. |
| AssessBudget.HiddenSkipExactly | packages/server/src/robustness/assess.ts:638-643 | A report without the budget line hides skipped fuzzing exactly when such a task exists. |
| AssessBudget.SkipAtTheCap | packages/server/src/robustness/assess.ts:420 | Where fuzzing is skipped the calls stand exactly at the cap rounded up. |
| AssessBudget.FuzzedBeforeTheLast | packages/server/src/robustness/assess.ts:638-643 | Without the budget line, fuzzing ran on every task with a seed that has a task with something to grade after it. |
| AssessBudget.NotANumberCapSkips | packages/server/src/robustness/assess.ts:235-238 | A total cap that is not a number never refuses a grade and never lets fuzzing run. |
| AssessTheorems.NoBudgetLineMeansTested | packages/server/src/robustness/assess.ts:638-643 | A report that does not say the budget ran out tested every applicable canary and perturbation, with all repeats. |
| AssessTheorems.LinesStated | packages/server/src/robustness/assess.ts:605-677 | There is always a limitation line; the budget and fuzzing lines stand exactly when their reason holds, and the line that every probe ran only when no other does. |
| AssessReports.ReportLines | packages/server/src/robustness/assess.ts:605-677 | Each of the other lines stands exactly when its reason holds, in a fixed order and at most once. |
| AssessReports.ReportCounts | packages/server/src/robustness/assess.ts:488-494 | The counts are the numbers of tasks with an open channel, with an open rewrite and with a tested rewrite. |
| AssessReports.ChannelsExactly | packages/server/src/robustness/assess.ts:480-483 | The open channels of a task are the channels of its open findings, in their order. |
| AssessGaps.GapIsWorst | packages/server/src/robustness/assess.ts:557-561 | The exploitable gap bounds every canary and fuzz gap, is one of them unless it is 0, and the confidence is its complement without clamping. |
| AssessGaps.BasisMatchesChannels | packages/server/src/robustness/assess.ts:564-569 | The basis is "not established" exactly when no task has an open channel. |
| AssessReports.BasisExactly | packages/server/src/robustness/assess.ts:564-569 | The basis is the oracle exactly when some fuzz finding is open, the canaries exactly when only canary findings are. |
| AssessBasis.OnlyExposedContradict | packages/server/src/robustness/assess.ts:557-601 | Whatever a grader answers, a positive gap beside the words that none was established needs a positive threshold and a graded canary, or a threshold of 0 and fuzzing without an oracle. |
| AssessBasis.ExposedContradicts | packages/server/src/robustness/assess.ts:557-601 | Conversely, for all such options there is a grader whose report contradicts itself so. |
| AssessBasis.ExposedIgnoresGrader | packages/server/src/robustness/assess.ts:557-601 | Whether options are of that kind does not depend on what a grader answers. |
| AssessExamples.SuspectedGapCounts | packages/server/src/robustness/types.ts:190-191 | A gap that is only suspected counts as the exploitable gap. |
| Assess.Assessor.GradeOnce | packages/server/src/robustness/assess.ts:234-242 | One counted, clamped grade, or a refusal that is remembered. |
| Assess.Assessor.GradeRepeated | packages/server/src/robustness/assess.ts:245-257 | As many grades of one pair as the budget lets through. |
| Assess.Assessor.CheckDeterminism | packages/server/src/robustness/assess.ts:259-279 | The determinism phase on the shared counter. |
| Assess.Assessor.RunCanaries | packages/server/src/robustness/assess.ts:293-342 | The canary phase, and the flag that some canary was paid. |
| Assess.Assessor.RunPerturbations | packages/server/src/robustness/assess.ts:344-418 | The perturbation phase against one baseline. |
| Assess.Assessor.RunFuzzing | packages/server/src/robustness/assess.ts:419-467 | The fuzz phase under what is left of the budget, and the flag that an oracle confirmed a gap. |
| Assess.Assessor.RunTasks | packages/server/src/robustness/assess.ts:287-485 | The loop over the tasks; the two flags say whether some canary, and some fuzz finding, is open. |
| Assess.AssertNoOverclaim | packages/server/src/robustness/assess.ts:195-210 | The check passes exactly when every finding that is not closed has a caveat, and otherwise names the first one without. |
| Assess.AssessVerifier | packages/server/src/robustness/assess.ts:212-603 | The assessment is the specified one, and the overclaim check never rejects it. |

## Left out

- SHA-256, Ed25519 and the curve arithmetic of the Python verifier: parameters, as described above.
- Floating-point rounding, the logarithmic evaluation and memo table of `logChoose`, and float spread on equal grades: arithmetic is exact here.
- Proof indices, tree sizes and sequence numbers that are not integers: the model's are integers.
- `Buffer.from(text, 'hex')` is modelled on code units and stops at the first bad pair; other encodings are not part of the model.
- Fractional or infinite repeats, determinism samples and step limits: the model's are integers.
- Update of a logged payload by the caller after `append` (aliasing): payloads are values.
- The wording of messages: reasons are enumerations carrying the sequence number or the kind of problem.
- A public key that does not load is not told apart from a signature that does not verify.
- MerkleTrees.MerkleTree.Append: takes bytes; leaf data given as a string is encoded first.
- Plain accessors of the log and the tree (`head`, `all`, `size`, `leafFor`).
- Regulatory mappings, storage anchors and other properties of a bundle are carried as further members of the signed object and not interpreted.
- The asynchronous bundle route reads root and proofs across awaits; the model assumes one log state.
- The Python `canonicalize` and `es_quote`: not part of this model. They are not a copy of the server's printer: `es_quote` leaves a lone surrogate unescaped where JSON.stringify escapes it, and integers pass through `float`.
- `mGPassAtK` and `maxPassAtKVariance`: the first is not an unbiased quantity for odd k, the second is a grid search.
- Bootstrap, paired comparison and the tiering of `rankModels` beyond the Holm correction.
- Quantiles, surface noise, channel summary and timestamps of an assessment report: plain folds over the findings.
- The text mutators, canaries and perturbations themselves: parameters.
- AssessTheorems.VarianceSees: the spread is kept as a variance, without the square root.
