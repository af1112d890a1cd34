# Verified models of the deterministic verifiers

The repository is a collection of small deterministic verifiers: each reads a record and says what it
establishes. This project models the hardest of them in Dafny 4.11 and proves what their verdicts mean.
`dafny verify dfyconfig.toml` checks everything.

## What is modelled

**Merkle structures.** `TreeHash` defines the recursive tree hash of section 2.1.1 of RFC 9162 over any node
hash, and its level-by-level reading. `Inclusion` holds the shifting inclusion verifier and proves it exact
for the recursive tree: it accepts the i-th leaf with its audit path and nothing else. `AnyIndex` does this for the
indices outside the tree, too. `ScanCheck` adds the leaf and node preimages of the poisoning-scan checker. `Recuts`
says which leaves of other widths the verifier accepts, `ScanOutcomes` which inputs get which verdict, and
`CleanVerdicts` when a "no finding" verdict is right about the document it was given for. `ZeroG` holds the in-place queue builder of 0G storage roots, its padding
arithmetic and its two-level segment tree; the queue, the recursion and the segments all give one root.

**The admission-trace checker.** `Boundary` defines one step and a whole run of the trace checker on values;
`BoundaryChecker` is the checker as a class that updates its fields in place, each method proved against the
step function. `BoundaryHistory` reads the same facts off the bare schedule (who has read, who has finished,
which attempts meet, which commit is stale), and `BoundaryTheorems` proves that each status is "satisfied"
exactly when the schedule has the property it is named for. `BoundaryVerdicts` and `BoundaryReasons` do so for every
other status, for the admission and for each reason code. `BoundarySerial` rearranges a satisfied schedule into
a serial one with the same result and the same verdicts.

**Temporal authority.** `Manifests` resolves which manifest governs a target over forks, cycles and missing
links. `Continuity` composes pairwise checkpoint verdicts into whole chains. `Admission` shows that snapshot
verdicts only move forward. `Enumeration` covers the anchored sequence. `Cutoff` resolves which key binding
is in force under revocation.

**Canonical JSON.** `PythonEncoder` writes code points and `TypeScriptEncoder` UTF-16 code units. `EncodersAgree`
and `EncodedForm` prove that they write the same bytes or report the same failure for every value. `JsonReader`
reads encodings back, and `JsonMeaning` proves that two admitted values have one encoding exactly when they mean
the same; `Refusals` says which error every other value gets. `Numbers` and `NumberValues` cover the respelling of numbers (section 3.2.2.3 of RFC 8785).

**Radix decoders.** `Radix` has numerals in any base. `Base32` has the streaming bit accumulator, the encoder by
quanta (section 6 of RFC 4648) and the decoder by quanta, and `Cid` the base58 decoder and the two computations of
a content identifier's bytes.

`Wrappers`, `Bytes`, `Sorting` and `Unicode` are shared.

## Conventions

- A hash is a function parameter. "No collision" is always assumed of the finite set of byte strings that the
  computations under discussion really hash, so every such theorem reads: the claim holds, or these computations
  exhibit a collision.
- A failed `require`, an exception or an error return is a value (`None`, `Err`, or a verdict), never a
  precondition.
- Loops of the source are methods proved against functions; the theorems are about the functions.
- Automatic induction is switched off on every lemma, which keeps verification quick and every inductive proof explicit.
- Where the code does not have a property that one would expect of it, a lemma gives the input and another says
  exactly when the property holds: leaf hashes of another width (`Recuts`), NULs in document ids (`CleanVerdicts`),
  sequence numbers beyond 2^53 (`Continuity`), backdated manifests (`Manifests`), revocations that overwrite an
  earlier one and baselines chosen by anchor time (`Cutoff`), base 32 lengths that no byte string has (`Base32`). The comments in `cutoff_enforce.py` call the
  legacy admission "anchored before any binding governed it"; the code compares with the earliest-anchored
  binding only, and the model follows the code.

## Model

| member | source | states |
|---|---|---|
| TreeHash.FindSplit | conformance/scan-subject-binding-v0/scan_check.py:69-70 | the doubling loop ends at the largest power of two below the number of leaves |
| TreeHash.SplitPointUnique | conformance/scan-subject-binding-v0/scan_check.py:69-70 | that power of two is the only one in [n/2, n) |
| TreeHash.ComputeRoot | conformance/scan-subject-binding-v0/scan_check.py:67-71 | the recursive computation, split by split, is the tree hash |
| TreeHash.PairNext | mcp/zerog_merkle.py:59-64 | one more popped pair, or the carried odd node, extends the level that pairing defines |
| TreeHash.PairKeepsRoot | mcp/zerog_merkle.py:65-73 | hashing neighbours and carrying an odd node leaves the root of the top-down tree unchanged |
| TreeHash.PairDoublesGroups | mcp/zerog_merkle.py:88-90 | the roots of groups of 2g leaves are the paired roots of groups of g |
| TreeHash.GroupingKeepsRoot | mcp/zerog_merkle.py:88-90 | building over the roots of equal power-of-two groups gives the root over all leaves |
| Inclusion.VerifyInclusion | conformance/scan-subject-binding-v0/scan_check.py:74-86 | the nested shifting loops compute the acceptance relation, for any index, size and path |
| Inclusion.AuditPathByLevel | conformance/scan-subject-binding-v0/scan_check.py:77-85 | the audit path of the top-down recursion is the sibling followed by the path one level up, which is the order in which the loop consumes it |
| Inclusion.ClimbComplete | conformance/scan-subject-binding-v0/scan_check.py:74-86 | every leaf's audit path climbs to the root of the recursive tree |
| Inclusion.ClimbSound | conformance/scan-subject-binding-v0/scan_check.py:74-86 | a climb at a fixed index that reaches the root started at that leaf and used exactly its audit path |
| Inclusion.AcceptsExactly | conformance/scan-subject-binding-v0/scan_check.py:67-86 | acceptance holds if and only if the leaf is the i-th and the path is its audit path |
| Inclusion.ClimbStartsInTree | conformance/scan-subject-binding-v0/scan_check.py:76-86 | whatever index and size the proof states, a climb that ends at a node of the tree started at one |
| AnyIndex.AcceptsAtAnyIndexExactly | conformance/scan-subject-binding-v0/scan_check.py:74-86 | for every integer index and the size of the tree: no index at or beyond the size is accepted with anything; an index within it as above; a negative one accepts exactly the leaf whose number is the index modulo 2^depth, if its audit path has full depth, with that path |
| AnyIndex.NegativeClimb | conformance/scan-subject-binding-v0/scan_check.py:76-86 | below zero the shifting loops combine a path of exactly the depth of the tree, by the low bits of the index |
| AnyIndex.NoSizeNoAcceptance | conformance/scan-subject-binding-v0/scan_check.py:74-86 | with a stated size of zero or less nothing is accepted at any index |
| Inclusion.RootBindsLeaves | conformance/scan-subject-binding-v0/scan_check.py:67-71 | equal roots mean equal leaf lists of equal length when inner nodes never hash like leaves |
| Recuts.InclusionExact | conformance/scan-subject-binding-v0/scan_check.py:65-86 | for leaves of any width and any path, with a collision-free hash: the verifier accepts if and only if the path is the one that completes the leaf to the two hashes joined on the lowest level where the node has a sibling, followed by the audit path above |
| Recuts.WrongAcceptanceExactly | conformance/scan-subject-binding-v0/scan_check.py:65-86 | the verifier accepts something other than the i-th leaf with its audit path if and only if the leaf is not 32 bytes wide and is completed by the path in this way |
| Recuts.RecutOfWidth | conformance/scan-subject-binding-v0/scan_check.py:65-86 | in a tree of two leaves or more such a leaf exists at every index for every width up to 64 bytes, and for no other width |
| Recuts.RecutOfFullWidth | conformance/scan-subject-binding-v0/scan_check.py:67-86 | of the 32-byte strings only the leaf itself is completed, and by its audit path |
| ScanCheck.InclusionOfHashes | conformance/scan-subject-binding-v0/scan_check.py:65-86 | for a 32-byte leaf, which is what leaf() yields, the verifier accepts exactly the i-th leaf with its audit path |
| Recuts.ShortLeafIsAccepted | conformance/scan-subject-binding-v0/scan_check.py:74-86 | the smallest wrong acceptance: one byte moves from a leaf of a two-leaf tree into the path |
| ScanCheck.LeafPreimageInjective | conformance/scan-subject-binding-v0/scan_check.py:66 | a leaf preimage determines the document if no id holds a NUL |
| ScanCheck.SamePreimageSameText | conformance/scan-subject-binding-v0/scan_check.py:66 | two documents have one leaf preimage if and only if id, NUL and content join to one text |
| ScanCheck.LeafIsNotNode | conformance/scan-subject-binding-v0/scan_check.py:66-71 | the leading 0x00 and 0x01 keep leaf hashes apart from node hashes |
| ScanCheck.AcceptedDocSharesPreimage | conformance/scan-subject-binding-v0/scan_check.py:128-131 | a proof accepted against the corpus root shows a corpus document with that leaf preimage, although index and size come from the proof |
| ScanCheck.ProvedDocSharesPreimage | conformance/scan-subject-binding-v0/scan_check.py:128-132 | a retrieved document among the proved leaves shares its leaf preimage with a document of the corpus |
| ScanCheck.NoFindingClearsTheText | conformance/scan-subject-binding-v0/scan_check.py:114-139 | for every input, behind a reproduced clean verdict stands a pattern-free document with the same joined id and content as the one retrieved |
| ScanOutcomes.OutcomesExactly | conformance/scan-subject-binding-v0/scan_check.py:114-139 | over the inputs: NO_FINDING or CONTRADICTED if and only if the signature is valid, the result clean, one document retrieved, and the subject is the effective digest or the root of the stated corpus with an accepted proof of every retrieved leaf; NOT_VALID if and only if a valid signature covers another result; CANNOT_ESTABLISH otherwise |
| ScanOutcomes.VerdictAbout | conformance/scan-subject-binding-v0/scan_check.py:132-139 | then the grade is REPRODUCED if and only if the scanner versions agree, and the verdict CONTRADICTED if and only if moreover some subject document contains the pattern |
| ScanOutcomes.FindsExactly | conformance/scan-subject-binding-v0/scan_check.py:137 | a document is found if and only if its lower-cased content is some text, the pattern, and some text |
| CleanVerdicts.CleanVerdictsRightExactly | conformance/scan-subject-binding-v0/scan_check.py:114-139 | every NO_FINDING verdict graded REPRODUCED over a corpus is given for a document without the pattern if and only if the pattern is found in the corpus, or no corpus document joins id and content to a text that hides the pattern behind a NUL |
| CleanVerdicts.HonestVerdictsRightExactly | conformance/scan-subject-binding-v0/scan_check.py:108-139 | for decisions that state the digest of what they retrieved, the same holds with one exception more: a corpus of one document |
| CleanVerdicts.HidesExactly | conformance/scan-subject-binding-v0/scan_check.py:66 | a document hides the pattern if and only if some document with the same joined text contains it |
| CleanVerdicts.HiddenPatternIsMissed | conformance/scan-subject-binding-v0/scan_check.py:125-138 | for every corpus with a hidden pattern and no finding, a scan and a decision with one honest proof get the wrong clean verdict, and hash nothing that the corpus tree does not |
| CleanVerdicts.NoFindingCoversRetrieved | conformance/scan-subject-binding-v0/scan_check.py:114-139 | in particular, with NUL-free ids the retrieved document has no pattern, even when only the corpus was scanned |
| CleanVerdicts.NulInIdHidesAFinding | conformance/scan-subject-binding-v0/scan_check.py:66 | the smallest case: a corpus of two documents, one with a NUL in its id |
| ScanCheck.HonestProofIsGraded | conformance/scan-subject-binding-v0/scan_check.py:125-138 | the honest proof of a corpus document leads to the rerun over the corpus |
| ScanCheck.RootBindsTexts | conformance/scan-subject-binding-v0/scan_check.py:66-72 | two corpora have one root if and only if their joined texts are the same, equally often, in any order |
| ScanCheck.RootBindsCorpus | conformance/scan-subject-binding-v0/scan_check.py:72 | with NUL-free ids, if and only if they hold the same documents equally often |
| ScanCheck.RootsWrittenOut | conformance/scan-subject-binding-v0/scan_check.py:65-72 | the roots of one document and of two, written out with their prefix bytes, the leaf hashes in ascending order |
| ZeroG.ComputeNextPow2 | mcp/zerog_merkle.py:35-41 | the shifting loop returns the least power of two that is at least x |
| ZeroG.PaddingIsTight | mcp/zerog_merkle.py:31-49 | with a unit of one sixteenth of the next power of two, at least one, the padded number of chunks is a multiple of the unit and exceeds the chunks by less than a unit |
| ZeroG.PaddingIsLeast | mcp/zerog_merkle.py:31-49 | no smaller multiple of the unit holds the chunks |
| ZeroG.PaddedSizeExactly | mcp/zerog_merkle.py:83-86 | the padded size is 256 times the padded number of chunks, counted as the least number that holds the content, and one for no content |
| ZeroG.PaddedSize | mcp/zerog_merkle.py:83-86 | the padded size covers the content, is a whole number of chunks and at least one |
| ZeroG.Build | mcp/zerog_merkle.py:52-73 | the queue builder ends with the root that the top-down split computes, and with no root for no leaves |
| ZeroG.BuildLevel | mcp/zerog_merkle.py:66-72 | one round of popping and pushing in place is one level of pairing and keeps the root |
| ZeroG.ComputeFileRoot | mcp/zerog_merkle.py:81-90 | padding, segment roots and the build over them compute the file root |
| ZeroG.FileRootIsFlat | mcp/zerog_merkle.py:76-90 | segmentation is transparent: the file root is one flat build over all padded chunk leaves |
| ZeroG.RootBindsChunks | mcp/zerog_merkle.py:52-78 | equal roots over 256-byte chunks mean equal chunks and an equal number of them |
| ZeroG.FileRootBindsPaddedBytes | mcp/zerog_merkle.py:81-90 | with collision-free hashing, equal file roots hold if and only if the padded bytes are equal |
| ZeroG.FileRootForgetsTrailingZeros | mcp/zerog_merkle.py:87 | contents that differ only in zeros within the padding share a root |
| ZeroG.EmptyAndZeroShareARoot | mcp/zerog_merkle.py:83-87 | the empty content and a single zero byte share a root |
| ZeroG.FileRootOfThree | mcp/zerog_merkle.py:52-90 | the root of a content of three chunks, written out |
| BoundaryChecker.CheckWriters | conformance/event-time-concurrency-boundary-v0/boundary_check.py:60-67 | the loop with its dictionary of references accepts exactly the well-formed writers whose equal references carry equal amounts |
| BoundaryChecker.Checker.DoRead | conformance/event-time-concurrency-boundary-v0/boundary_check.py:91-100 | a READ opens an attempt, marks every open attempt as overlapped, and reports an overlap under a declared discipline |
| BoundaryChecker.Checker.DoCheck | conformance/event-time-concurrency-boundary-v0/boundary_check.py:101-110 | a CHECK records the mode, the policy version and the outcome, once per attempt |
| BoundaryChecker.Checker.DoFinish | conformance/event-time-concurrency-boundary-v0/boundary_check.py:111-159 | a WRITE or CAS closes the attempt and follows the observed outcome |
| BoundaryChecker.Checker.DoCommit | conformance/event-time-concurrency-boundary-v0/boundary_check.py:126-154 | a commit needs the next index, advances version and count, and gives its reasons |
| BoundaryChecker.Checker.DoStep | conformance/event-time-concurrency-boundary-v0/boundary_check.py:78-161 | one step of the loop moves the fields exactly as the step function prescribes, or rejects the trace |
| BoundaryChecker.RunChecker | conformance/event-time-concurrency-boundary-v0/boundary_check.py:50-191 | the whole loop and the final statuses, field by field, produce the report of the run |
| BoundaryHistory.CountersAreExact | conformance/event-time-concurrency-boundary-v0/boundary_check.py:79-83 | version, next index and transition count follow the number of commits; policy and ceiling are those last declared |
| BoundaryHistory.ExpectedIsExact | conformance/event-time-concurrency-boundary-v0/boundary_check.py:93-100 | an attempt expects the version that its READ saw |
| BoundaryHistory.OverlapIsExact | conformance/event-time-concurrency-boundary-v0/boundary_check.py:94-100 | an open attempt is flagged if and only if another attempt's READ-to-finish interval meets its own |
| BoundaryHistory.CheckIsExact | conformance/event-time-concurrency-boundary-v0/boundary_check.py:101-110 | the check that an attempt holds is the one made in the schedule, with the policy and ceiling of its time |
| BoundaryHistory.ReceiptsAreExact | conformance/event-time-concurrency-boundary-v0/boundary_check.py:147-151 | the receipt of an identity is the index of its first commit |
| BoundaryHistory.ReasonsAreExact | conformance/event-time-concurrency-boundary-v0/boundary_check.py:77-161 | every reason set is the union of what each step gives by its history alone |
| BoundaryTheorems.StaleIsOverlapped | conformance/event-time-concurrency-boundary-v0/boundary_check.py:94-100 | an open attempt whose version is stale has overlapped another one |
| BoundaryTheorems.ConcurrencyReasonReported | conformance/event-time-concurrency-boundary-v0/boundary_check.py:98-170 | a concurrency violation is reported if and only if some step of a consistent schedule gave it |
| BoundaryTheorems.StaleWriteImpliesOverlap | conformance/event-time-concurrency-boundary-v0/boundary_check.py:98-99 | SERIALIZED_STALE_WRITE is never reported without SERIALIZATION_OVERLAP |
| BoundaryTheorems.ConcurrencySatisfiedExactly | conformance/event-time-concurrency-boundary-v0/boundary_check.py:137-167 | concurrency is satisfied if and only if all attempts finished, every commit is protected, no other commit lies between a committing READ and its commit, and declared exclusion was kept |
| BoundaryTheorems.SatisfiedRunIsSerial | conformance/event-time-concurrency-boundary-v0/boundary_check.py:126-154 | in a satisfied run the n-th commit has index n and read version initial + n, and the final version counts them all |
| BoundarySerial.SatisfiedMeansSerializable | conformance/event-time-concurrency-boundary-v0/boundary_check.py:77-191 | a schedule with satisfied concurrency is equivalent to a serial one: its steps can be rearranged so that every commit directly follows its own READ and CHECK, the result is consistent and again satisfied, ends with the same version, receipts, results and idempotency status, and stays satisfied in event time and admitted if it was |
| BoundarySerial.SerialRuns | conformance/event-time-concurrency-boundary-v0/boundary_check.py:77-161 | whenever every commit read the version it replaces, the rearranged schedule runs through states that differ only in reasons and flags it no longer gives |
| BoundarySerial.SerialIsAtomic | conformance/event-time-concurrency-boundary-v0/boundary_check.py:91-161 | in it every commit comes directly after its own READ, or its READ and CHECK |
| BoundarySerial.WithoutRuns | conformance/event-time-concurrency-boundary-v0/boundary_check.py:84-161 | an open attempt can be left out of a schedule: the rest runs as before |
| BoundaryTheorems.PolicyOnlyRises | conformance/event-time-concurrency-boundary-v0/boundary_check.py:79-83 | policy versions only rise, so an unchanged version means an unchanged ceiling |
| BoundaryTheorems.EventTimeSatisfiedExactly | conformance/event-time-concurrency-boundary-v0/boundary_check.py:129-136 | event time is satisfied if and only if all attempts finished, every committed amount is within the ceiling in force at the commit and was checked under that policy, and every rejection followed an event check |
| BoundaryTheorems.IdempotencySatisfiedExactly | conformance/event-time-concurrency-boundary-v0/boundary_check.py:121-151 | idempotency is satisfied if and only if all attempts finished, no reference has two transitions and every replay returns its reference's index |
| BoundaryTheorems.AdmittedExactly | conformance/event-time-concurrency-boundary-v0/boundary_check.py:178-181 | a schedule is admitted if and only if it is consistent and complete, meets all three obligations, and holds a commit or a replay |
| BoundaryVerdicts.ConsistentExactly | conformance/event-time-concurrency-boundary-v0/boundary_check.py:77-161 | a schedule runs without being rejected if and only if every step fits what came before it, read off the bare schedule |
| BoundaryVerdicts.ProperExactly | conformance/event-time-concurrency-boundary-v0/boundary_check.py:51-70 | the input is valid if and only if its numbers are natural, it has writers and steps, names and references are not empty, and no two writers with one reference have different amounts |
| BoundaryVerdicts.LatestAuditIsExact | conformance/event-time-concurrency-boundary-v0/boundary_check.py:88-90 | an audit is kept with the policy version and the outcome of its own time, the last one of a writer standing |
| BoundaryVerdicts.EventViolatedExactly | conformance/event-time-concurrency-boundary-v0/boundary_check.py:129-165 | event time is violated if and only if some commit lacks authority at its own time; it cannot be established if and only if the trace is invalid, or no commit does and something is unfinished or unchecked |
| BoundaryVerdicts.ConcurrencyViolatedExactly | conformance/event-time-concurrency-boundary-v0/boundary_check.py:94-167 | concurrency is violated if and only if a protected commit replaced another version than it read, an unprotected one was overlapped, or attempts met under a declared discipline; and exactly when it cannot be established |
| BoundaryVerdicts.IdempotencyViolatedExactly | conformance/event-time-concurrency-boundary-v0/boundary_check.py:121-169 | idempotency is violated if and only if a reference has two transitions or a replay returns another index; and exactly when it cannot be established or does not apply |
| BoundaryVerdicts.RefusedExactly | conformance/event-time-concurrency-boundary-v0/boundary_check.py:178-181 | admission is refused if and only if an obligation is broken, or all is settled and nothing was done; it stays open if and only if the trace is invalid, or nothing is broken and something is unsettled |
| BoundaryVerdicts.ReportIsExact | conformance/event-time-concurrency-boundary-v0/boundary_check.py:155-191 | counts, final version and results are those of the commits and completions of the schedule; an invalid trace has none of them and the one reason |
| BoundaryVerdicts.PositiveReasonsExactly | conformance/event-time-concurrency-boundary-v0/boundary_check.py:162-177 | each reason about the whole schedule is reported if and only if what it names holds |
| BoundaryReasons.ReasonsExactly | conformance/event-time-concurrency-boundary-v0/boundary_check.py:91-170 | each reason that a step can give is reported if and only if some step of a consistent schedule calls for it, by its own history |
| Manifests.ComputeResolve | conformance/pq-key-binding-v1/manifest_resolve.py:50-93 | the loops over the visible manifests terminate and compute the verdict |
| Manifests.CollectForks | conformance/pq-key-binding-v1/manifest_resolve.py:61-64 | the collected links are exactly those with more than one available claimant |
| Manifests.CandidateIsEarliest | conformance/pq-key-binding-v1/manifest_resolve.py:68-76 | the candidate is an available container with the least anchor time, and there is none only if nothing contains the target |
| Manifests.AvailableExactly | conformance/pq-key-binding-v1/manifest_resolve.py:54-59 | an address is visible if and only if some available manifest has it |
| Manifests.LastIsKept | conformance/pq-key-binding-v1/manifest_resolve.py:55-59 | of available manifests with one address the last stands for it |
| Manifests.VisibleIsAvailable | conformance/pq-key-binding-v1/manifest_resolve.py:55-59 | what is visible under an address is a manifest at hand that has this address |
| Manifests.CandidateIsSeenFirst | conformance/pq-key-binding-v1/manifest_resolve.py:59-76 | among containers of one anchor time the candidate is the one whose address was seen first |
| Manifests.ResolvedExactly | conformance/pq-key-binding-v1/manifest_resolve.py:78-93 | the verdict is "resolved" if and only if the candidate has a complete chain to genesis without a fork |
| Manifests.ResolvedTimeIsEarliest | conformance/pq-key-binding-v1/manifest_resolve.py:91-93 | a resolved time is the least anchor time of all available manifests that contain the target |
| Manifests.NotCoveredExactly | conformance/pq-key-binding-v1/manifest_resolve.py:68-70 | not_covered if and only if no available manifest contains the target |
| Manifests.ForkExactly | conformance/pq-key-binding-v1/manifest_resolve.py:86-88 | a fork is reported if and only if the candidate's links lead to one through manifests that can be recomputed |
| Manifests.ResolvedHistoryIsLinear | conformance/pq-key-binding-v1/manifest_resolve.py:58-93 | under a resolved verdict every available manifest with complete ancestry is an ancestor or a descendant of the chosen container |
| Manifests.AncestorContainsExactly | conformance/pq-key-binding-v1/manifest_resolve.py:72-93 | an ancestor of the chosen container contains the target if and only if one does whose anchor time is not before the container's |
| Manifests.NoAncestorContains | conformance/pq-key-binding-v1/manifest_resolve.py:72-93 | so none does when anchor times increase along the links |
| Manifests.ResolvedMovesExactly | conformance/pq-key-binding-v1/manifest_resolve.py:54-93 | a verifier that sees more resolves a target differently if and only if it sees a container that descends from the one chosen before and claims an earlier anchor time |
| Manifests.ResolvedNeverMoves | conformance/pq-key-binding-v1/manifest_resolve.py:54-93 | so two resolved verdicts agree when anchor times increase along the links |
| Manifests.BackdatedSuccessorMovesTheAnswer | conformance/pq-key-binding-v1/manifest_resolve.py:72-93 | two manifests suffice: a backdated successor moves the answer from one resolved time to another |
| Continuity.ComputeCanon | conformance/chronicle-checkpoint-continuity-v0/continuity_gate.ts:26-38 | the loop over sorted keys builds the canonical object |
| Continuity.CanonIdempotent | conformance/chronicle-checkpoint-continuity-v0/continuity_gate.ts:26-38 | canonicalizing twice is canonicalizing once |
| Continuity.CanonEqualExactly | conformance/chronicle-checkpoint-continuity-v0/continuity_gate.ts:23-38 | two values have one canonical form if and only if they are equal at every depth up to annotations and the order of references of different text |
| Continuity.EqualRootsExactly | conformance/chronicle-checkpoint-continuity-v0/continuity_gate.ts:23-42 | two checkpoints have one root if and only if they have the same content in this sense, unless the digest collides |
| Continuity.MemberMattersExactly | conformance/chronicle-checkpoint-continuity-v0/continuity_gate.ts:23-38 | another value for a member leaves the canonical form as it was if and only if the member is an annotation, or the value has the same content, where the order of references of different text does not count |
| Continuity.VerifyLocally | conformance/chronicle-checkpoint-continuity-v0/continuity_gate.ts:52-54 | the local verifier derives the root and scans the references |
| Continuity.VerifiesExactly | conformance/chronicle-checkpoint-continuity-v0/continuity_gate.ts:47-54 | it accepts if and only if the stored root is that of the canonical form and no reference is greater than the next |
| Continuity.ShapeExactly | conformance/chronicle-checkpoint-continuity-v0/continuity_gate.ts:57-64 | the shape is valid if and only if the sequence is a natural number, zero where and only where the link is null |
| Continuity.CurrentOutcomesExactly | conformance/chronicle-checkpoint-continuity-v0/continuity_gate.ts:77-87 | the outcomes that concern the current checkpoint alone, each with its condition |
| Continuity.PredecessorOutcomesExactly | conformance/chronicle-checkpoint-continuity-v0/continuity_gate.ts:88-95 | the outcomes that concern the predecessor and the link, each with its condition |
| Continuity.NumbersComparedExactly | conformance/chronicle-checkpoint-continuity-v0/continuity_gate.ts:96-100 | up to 2^53 the sequence numbers are compared as integers |
| Continuity.MinusOneRounds | conformance/chronicle-checkpoint-continuity-v0/continuity_gate.ts:97-98 | the number before is the nearest that binary64 holds, with ties to the even significand |
| Continuity.EntryRefsCanonical | conformance/chronicle-checkpoint-continuity-v0/continuity_gate.ts:47-51 | the index scan accepts exactly the ordered references |
| Continuity.ContinuousMember | conformance/chronicle-checkpoint-continuity-v0/continuity_gate.ts:77-100 | every member of a continuous chain verifies locally and is genesis or names the derived root before it |
| Continuity.ContinuousNumberedExactly | conformance/chronicle-checkpoint-continuity-v0/continuity_gate.ts:57-100 | a chain of direct successors from genesis is numbered 0, 1, 2, ... if and only if it does not go beyond 2^53 |
| Continuity.DirectSuccessorIsStepOfOne | conformance/chronicle-checkpoint-continuity-v0/continuity_gate.ts:95-96 | a direct succession is a step of one if and only if the number is at most 2^53 |
| Continuity.GapAcceptedBeyond53Bits | conformance/chronicle-checkpoint-continuity-v0/continuity_gate.ts:95-96 | beyond 2^53 the binary64 subtraction lets a gap pass as a direct successor |
| Continuity.LastRootBindsChain | conformance/chronicle-checkpoint-continuity-v0/continuity_gate.ts:26-100 | two continuous chains with equal last roots have equal lengths and equal canonical content at every position |
| Admission.ResolvedExactly | conformance/captured-admission-v0/admission_check.py:67-80 | a binding admission is resolved with a kind, on time or late, if and only if exactly one disposition completes it, of that kind and by or after the deadline |
| Admission.FailedExactly | conformance/captured-admission-v0/admission_check.py:67-84 | it is a liveness failure from the deadline on, and pending before, if and only if no disposition completes it |
| Admission.UnboundExactly | conformance/captured-admission-v0/admission_check.py:54-66 | the verdicts given before the dispositions are looked at, each with its condition |
| Admission.ConflictExactly | conformance/captured-admission-v0/admission_check.py:70-74 | a conflict is reported if and only if two dispositions at different positions complete a binding admission |
| Admission.AttributedExactly | conformance/captured-admission-v0/admission_check.py:88-137 | a claim is attributed if and only if the admission binds, the visible transitions are well formed without rollback or rivals, and the claim names the epoch within its window |
| Admission.EpochStandingsExactly | conformance/captured-admission-v0/admission_check.py:88-118 | the standings that concern the epoch and its visible transitions, each with its condition |
| Admission.ClaimStandingsExactly | conformance/captured-admission-v0/admission_check.py:119-137 | a claim is out of authority if and only if the epoch is sound, the claim is visible, and it names another epoch or is anchored outside the window; it is not yet visible if and only if the epoch is sound and it is anchored after the snapshot |
| Admission.FutureDispositionsIgnored | conformance/captured-admission-v0/admission_check.py:69-84 | dispositions after the snapshot never change the verdict on an obligation |
| Admission.ObligationMovesForward | conformance/captured-admission-v0/admission_check.py:54-84 | as time advances and dispositions are added, a resolution stays or becomes a conflict, and a missed deadline never becomes an on-time resolution |
| Admission.LateResolutionWasAFailure | conformance/captured-admission-v0/admission_check.py:75-84 | a late resolution was a liveness failure at every snapshot from the later of deadline and admission until its disposition |
| Admission.EndIsEarliest | conformance/captured-admission-v0/admission_check.py:119-124 | the end of authority is the earliest of the expiry and the visible terminal transitions |
| Admission.RollbackMeans | conformance/captured-admission-v0/admission_check.py:112-115 | a rollback is a visible reactivation after some visible terminal transition |
| Admission.FutureTransitionsIgnored | conformance/captured-admission-v0/admission_check.py:99-136 | transitions after the snapshot never change a standing |
| Admission.AuthorityMovesForward | conformance/captured-admission-v0/admission_check.py:88-137 | an attributed claim stays attributed or the epoch turns invalid or conflicting; it is never put out of authority later |
| Admission.AttributedSinceAnchor | conformance/captured-admission-v0/admission_check.py:127-135 | what is attributed now was attributed at every snapshot since the claim's anchor time |
| Enumeration.ChainHead | conformance/captured-admission-v0/admission_check.py:42-46 | the loop folds the entries into the linked head |
| Enumeration.LinkHashesTheTriple | conformance/captured-admission-v0/admission_check.py:42-46 | every link is the hash of the index and commitment of its entry and of the link before |
| Enumeration.HeadGrows | conformance/captured-admission-v0/admission_check.py:42-46 | the link of no entries is the genesis link of the id, and one entry more is hashed with the link so far |
| Enumeration.FindRepeat | conformance/captured-admission-v0/admission_check.py:170-177 | the scan with its dictionary finds the first repeated index, and whether the commitment repeats with it |
| Enumeration.FindGap | conformance/captured-admission-v0/admission_check.py:178-180 | the scan finds the least missing index of the declared range |
| Enumeration.Enumerate | conformance/captured-admission-v0/admission_check.py:163-184 | each verdict under its condition; a duplicate or a conflict is that of the first repeated index, a gap the least missing one, and "complete" means ordered, without repetition, covering the range, and matching the anchored head |
| Enumeration.HeadBindsEntries | conformance/captured-admission-v0/admission_check.py:42-46 | two sequences that match one anchored head list the same entries, if the hash tells apart the triples that their chains feed it |
| Cutoff.ResolveInForce | conformance/pq-key-binding-v1/cutoff_enforce.py:62-78 | the loop over the chain computes the governor |
| Cutoff.GovernorLeads | conformance/pq-key-binding-v1/cutoff_enforce.py:40-78 | the governor stands at the first position of the latest activation in force; there is none only if nothing is in force |
| Cutoff.GovernorIsLatestInForce | conformance/pq-key-binding-v1/cutoff_enforce.py:40-78 | none in force activated later than the governor |
| Cutoff.ComputeRevocations | conformance/pq-key-binding-v1/cutoff_enforce.py:81-92 | the loop keeps the earliest time per address, and an unavailable chain stays unavailable |
| Cutoff.RevocationsOnlyEnd | conformance/pq-key-binding-v1/cutoff_enforce.py:86-92 | the revocations at or before a time, and no others, end an authority at that time |
| Cutoff.NoInForceMeansRevoked | conformance/pq-key-binding-v1/cutoff_enforce.py:115-150 | rule no_in_force_binding is reached only when a revocation at or before the time excluded every binding that would have governed, and there is one |
| Cutoff.NoInForceMeansRevocationApplied | conformance/pq-key-binding-v1/cutoff_enforce.py:81-150 | in a chain without inline revocations, that is one of the revocations applied |
| Cutoff.ForceKeptExactly | conformance/pq-key-binding-v1/cutoff_enforce.py:62-92 | revocations after a time leave who is in force at that time as it was if and only if they overwrite no revocation that had ended an activated binding |
| Cutoff.VerdictsKeptExactly | conformance/pq-key-binding-v1/cutoff_enforce.py:57-177 | they change no verdict for any artifact of that time if and only if no binding reopened in this way displaces the name and key of the governor, or the chain is malformed |
| Cutoff.RevocationsDoNotReachBack | conformance/pq-key-binding-v1/cutoff_enforce.py:57-177 | in particular, no verdict changes when nothing is reopened |
| Cutoff.OverwrittenRevocationReopens | conformance/pq-key-binding-v1/cutoff_enforce.py:91-92 | a later revocation that overwrites an inline one turns a rejection into an admission |
| Cutoff.LegacyAdmissionInnocentExactly | conformance/pq-key-binding-v1/cutoff_enforce.py:140-148 | under all revocations, the legacy admission means that nothing had been activated if and only if the earliest-anchored binding activates first |
| Cutoff.AdmittedExactly | conformance/pq-key-binding-v1/cutoff_enforce.py:95-177 | over the bindings themselves: an artifact is admitted if and only if no binding activates before its anchor and either the first latest-activated binding in force sees it anchored before the cutoff or validly accompanied under its own key, or nothing is in force and the first least-anchored binding has not been activated |
| Cutoff.GovernedExactly | conformance/pq-key-binding-v1/cutoff_enforce.py:152-177 | under a governor, each rule and each evidence with its condition on anchor and companion |
| Cutoff.UngovernedExactly | conformance/pq-key-binding-v1/cutoff_enforce.py:101-150 | the verdicts without a governor: unavailable, empty and malformed chains, and the evidence of each |
| Cutoff.UngovernedRulesExactly | conformance/pq-key-binding-v1/cutoff_enforce.py:115-150 | in a well-formed chain where nothing is in force: no anchor at all, the legacy admission, and the rejection |
| Numbers.RespellingIsPrescribed | conformance/encode-json-utf8-lf-v0/encoder.py:92-127 | for every sign, coefficient and exponent the text operations on repr give the spelling that ECMAScript prescribes, thresholds included |
| Numbers.SpellingsDenoteTheValue | conformance/encode-json-utf8-lf-v0/encoder.py:92-127 | the repr and its respelling denote the same real number, which is the value |
| Numbers.TwoDigitsExactly | conformance/encode-json-utf8-lf-v0/encoder.py:100-107 | the exponent of a repr is written without leading zeros, except for one below ten |
| Numbers.ParseNumberInverts | conformance/encode-json-utf8-lf-v0/encoder.ts:112-114 | reading a spelling gives back the value |
| NumberValues.AmountDetermines | conformance/encode-json-utf8-lf-v0/encoder.py:138-146 | different values stand for different real numbers |
| NumberValues.IntegerAmount | conformance/encode-json-utf8-lf-v0/encoder.py:132-137 | the binary64 value of an integer stands for that integer, so that conversion back gives it again |
| PythonEncoder.EscapeString | conformance/encode-json-utf8-lf-v0/encoder.py:68-89 | the loop escapes every scalar string and refuses every other one, by the kind of string |
| PythonEncoder.CheckKeys | conformance/encode-json-utf8-lf-v0/encoder.py:164-170 | the loop with its set of seen keys reports the first repeated or non-scalar key |
| PythonEncoder.Serialize | conformance/encode-json-utf8-lf-v0/encoder.py:152-183 | serializing sorted entries one by one, stopping at the first failure, gives the text that the recursive definition gives |
| PythonEncoder.Encode | conformance/encode-json-utf8-lf-v0/encoder.py:186-188 | the bytes are the UTF-8 form of that text and a line feed |
| TypeScriptEncoder.ScalarError | conformance/encode-json-utf8-lf-v0/encoder.ts:48-61 | the surrogate scan accepts exactly the units whose code points are all scalar |
| TypeScriptEncoder.CompareUtf16 | conformance/encode-json-utf8-lf-v0/encoder.ts:63-71 | the comparison is the lexicographic order of the units, and only equal strings compare as equal |
| TypeScriptEncoder.EscapeString | conformance/encode-json-utf8-lf-v0/encoder.ts:73-95 | the index loop copies pairs, escapes other units, and refuses exactly the non-scalar strings |
| TypeScriptEncoder.CheckKeys | conformance/encode-json-utf8-lf-v0/encoder.ts:123-129 | the loop reports the first non-scalar or repeated key |
| TypeScriptEncoder.Serialize | conformance/encode-json-utf8-lf-v0/encoder.ts:117-132 | serializing sorted entries one by one gives the text that the recursive definition gives |
| EncodersAgree.QuotedAgrees | conformance/encode-json-utf8-lf-v0/encoder.ts:48-95 | both encoders quote a string to the same text, or refuse it for the same reason |
| EncodersAgree.KeyFailureAgrees | conformance/encode-json-utf8-lf-v0/encoder.ts:123-129 | checking scalarity before repetition or after it finds the same first failure |
| EncodersAgree.SerializersAgree | conformance/encode-json-utf8-lf-v0/encoder.ts:117-132 | for every value the TypeScript text is the UTF-16 form of the Python text, or both fail alike |
| EncodedForm.EncodersAgreeOnBytes | conformance/encode-json-utf8-lf-v0/encoder.ts:134-136 | both encoders write the same bytes for every value, or report the same failure |
| EncodedForm.SerializedIsPrintable | conformance/encode-json-utf8-lf-v0/encoder.py:68-89 | a text holds neither control characters nor surrogates, so that encoding it as UTF-8 cannot fail |
| EncodedForm.OnlyTheLastByteIsALineFeed | conformance/encode-json-utf8-lf-v0/encoder.py:186-188 | a byte of an encoding is 0x0A if and only if it is the last one |
| JsonReader.ReadStringInverts | conformance/encode-json-utf8-lf-v0/encoder.py:68-89 | reading an escaped string gives the string back, whatever follows it |
| JsonReader.DecodeInvertsEncode | conformance/encode-json-utf8-lf-v0/encoder.py:152-188 | a reader of the emitted language recovers every admitted value from its bytes, numbers by value and members in UTF-16 order |
| JsonReader.CanonIsSorted | conformance/encode-json-utf8-lf-v0/encoder.py:176 | what is read back lists the same members, in the order of the UTF-16 units of their keys |
| JsonMeaning.EncodedExactly | conformance/encode-json-utf8-lf-v0/encoder.py:130-183 | a value is encoded if and only if its strings and keys are scalar, its keys distinct, its numbers finite, not negative zero, and its integers of magnitude less than 2^53 |
| Refusals.RefusedExactly | conformance/encode-json-utf8-lf-v0/encoder.py:68-183 | a refused value gets the error of its first fault: keys in the order of the entries, then values in the order of the sorted keys |
| NumberValues.IntegralExactly | conformance/encode-json-utf8-lf-v0/encoder.py:138-146 | a value is an integer number if and only if no digit of it comes after the point |
| JsonMeaning.CanonKeepsText | conformance/encode-json-utf8-lf-v0/encoder.py:152-183 | reordering members and writing an integer as a number does not change the text |
| JsonMeaning.EqualEncodingsExactly | conformance/encode-json-utf8-lf-v0/encoder.py:152-188 | two admitted values have equal encodings if and only if they are equal up to the order of members, numbers compared as reals |
| Unicode.Utf8Injective | conformance/encode-json-utf8-lf-v0/encoder.py:187 | different texts have different UTF-8 forms |
| Unicode.Utf8OfExactly | conformance/encode-json-utf8-lf-v0/encoder.py:187 | a code point takes the fewest bytes that hold it, with its bits in order |
| Unicode.FromUnitsOfUtf16 | conformance/encode-json-utf8-lf-v0/encoder.py:61-65 | on scalar text, writing UTF-16 units and reading them back is the identity |
| Radix.RecodeInverts | mcp/ens_contenthash.py:18-25 | converting a numeral to another base and back, leading zeros kept one by one, restores it |
| Base32.StreamDecode | bin/conformance:208-211 | the bit accumulator, which never drops bits it has read, outputs the whole bytes of the bit string |
| Base32.DecodeInvertsEncode | bin/conformance:208-211 | decoding inverts the encoder of section 6 of RFC 4648 on every byte string |
| Base32.EncodeInvertsDecodeExactly | bin/conformance:208-211 | encoding inverts decoding if and only if the length is one that byte strings have and the left-over bits are zero |
| Base32.DecodersAgree | mcp/ens_contenthash.py:31-35 | the decoder that pads to eight digits agrees with the streaming one on every possible length and refuses the others |
| Cid.ComputeB58Decode | mcp/ens_contenthash.py:18-25 | the accumulating loop and the count of leading '1's compute the decoding, or fail at a character outside the alphabet |
| Cid.B58DecodeInvertsEncode | mcp/ens_contenthash.py:18-25 | bytes survive base58 encoding and decoding |
| Cid.B58EncodeInvertsDecode | mcp/ens_contenthash.py:18-25 | a string over the alphabet is the encoding of what it decodes to |
| Cid.B58Injective | mcp/ens_contenthash.py:18-25 | no two strings over the alphabet decode to the same bytes |
| Cid.RecipeBytes | bin/conformance:207-212 | the recipe drops the prefix unread and streams the rest, or fails at a character outside the alphabet |
| Cid.SpellingsAgree | mcp/ens_contenthash.py:43-53 | the version 0 form and the version 1 forms of one multihash in base 32 and base 58 give the same bytes |
| Cid.PaddingExactly | mcp/ens_contenthash.py:31-35 | padding characters up to the next multiple of eight change nothing, and one more is refused |
| Cid.CaseIsIgnored | bin/conformance:207-212 | the case of letters does not matter to the base 32 digits |
| Cid.Version0Exactly | mcp/ens_contenthash.py:43-48 | a version 0 identifier is read if and only if its characters are in the alphabet, and its bytes are 0x01, 0x70 and the base58 decoding |
| Cid.Version1Exactly | mcp/ens_contenthash.py:28-53 | any other identifier is decoded in the base that its first character names, and kept if and only if it starts with 0x01 |
| Cid.RecipeAgrees | mcp/ens_contenthash.py:28-53 | on base 32 text that the recipe reads, both computations give the same bytes; the other one refuses only impossible lengths and other versions |
| Cid.OnlyPaddingTellsThemApart | mcp/ens_contenthash.py:31-35 | text that only the other computation reads ends in a padding character |

## Left out

- The root of an empty corpus: the tree hash of no leaves recurses without end, so a verdict that asks for it has no value here (`None`).
- Hash internals and the Ed25519 equation: a hash is a parameter, a signature check a given boolean.
- The hexadecimal, "sha256:" and "0x" spellings of digests: digests are modelled by their bytes, except in `Continuity`, where a root is the text that the digest parameter returns.
- JSON serialization under a digest (`continuity_gate.ts`, `manifest_resolve.py`): a digest is an injective-on-what-is-hashed function of the value.
- The commitment of `_chain_head` to text: the link hash takes index, commitment and previous link as they are, not their joined spelling.
- IEEE 754 and the search for shortest digits: a number starts from its decimal coefficient and exponent, so NUMBER_NOT_EXACTLY_BINARY64, which cannot occur within the safe range, has no case.
- The injected faults of `encoder.py` and the transport decoding of both encoders.
- Reason texts beside the verdicts of `admission_check.py` and `cutoff_enforce.py`; reasons of `boundary_check.py` are a set, not a sorted list.
- Records with missing or mistyped fields, except where a branch of the code looks for them.
- The modes idempotency, capture and disposition of `admission_check.py`: single equalities and lookups.
- `retrieve`, `answer` and `check_decision` of `scan_check.py`; lower-casing is a parameter.
- The base 16 branch of `_multibase_decode` is a parameter; case folding covers ASCII only; the "ipfs://" prefix and surrounding blanks are taken off before.
- The `ipns`, `swarm` and `onion` codecs, network, command-line and file handling, vectors and mutation checkers.
