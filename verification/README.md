# A verified model of the transparency-log verifier and the buyer's spending guard

This project models, in Dafny 4.11, two parts of the TWZRD repository and proves what they are for.

**The transparency-log verifier** (`twzrd-log-verifier`). A log publishes signed tree heads over an append-only list of
entries. The verifier checks inclusion and consistency proofs, checks head signatures against a key or a key directory,
remembers ("pins") the newest head it has seen, refuses to move the pin on an unproven step, and recognises heads that
contradict each other. The model covers the Merkle layer with its bit-walking loops, the signed preimage, the key
directory, the equivocation verdict, the pin store in sequential and overlapping use, the receipt check, and the three
anchor formats.

**The buyer's spending guard** (`twzrd-x402-gate`). Many payments are in flight over one spend ledger and one decision
log. The model covers the hourly budget as interleaved ticks, the decision log's write queue, and the base58 decoder.

The main results, each for all inputs, runs or schedules:

- the proof verifiers accept exactly the generated proofs, at every tree size, within exact depth limits, or an explicit
  hash collision is exhibited;
- over calls made one after another a pin never crosses a fork, whatever paths are served, and a verified receipt stays
  true of every later pinned list;
- overlapping calls keep a tree of proven steps; exactly which schedules of calls never cross a fork, and exactly when a
  call takes the pin back;
- an honest log is never accused, however the calls overlap, and always followed; contradicting heads always convict,
  nothing else does, and a pin store that sees two heads of one size with different roots always reports it with both;
- every answer of a head check, a verdict on two heads, an observation and a receipt check has its exact condition, each
  status and each kind of error;
- one signer per instant under a valid directory, and key rotation that changes no earlier verdict;
- injectivity and round trips of the preimage, the anchor memo, the anchor instruction, transactions and base58;
- the hourly cap holds in every interleaving and a resolved flush of the decision log is durable, each under an exact
  condition on the clock; a payment that signs was begun within its wrapper's price ceiling and as quoted, approved and
  confirmed, and has its decision row in the files, and none signs after a failed write.

## How it is modelled

- **Files.** `Merkle` holds the tree hash and the proof generators of `merkle.ts`. `RootDown` defines reference verifiers
  that follow a tree from its root, `Exactness` relates them to the generators, and `Verifiers` proves the loops equal to
  them; `Soundness` and `Depth` state the results. `Pow2Test` is about one 32-bit test inside the consistency verifier.
  `Codec`, `KeyDir`, `Sth`, `Equivocation`, `Client`, `AnchorTx`, `AnchorMemo`, `AnchorHead`, `Base58` and
  `DecisionLedger` follow one source file each. `Pinning` is the pin store, `PinRuns` its calls one after another and
  `PinInterleaved` its overlapping calls; `PinForks` and `PinSchedules` say when those stay on one branch, and `PinHonest`
  what they do on an honest log. `SthAnswers`, `Adjudication` and `PinAnswers` say when a head check, a verdict on two
  heads and an observation answer what. `Budget` and `BudgetHours` are the payment hook of `buyer-fetch.ts` with the ledger
  it sums over, and `BudgetAdmission` says which payments it lets through; `DecisionRotation` relates the decision log to
  the clock that names its files, and `SigningLog` joins the hook and the log.
- **Loops and records.** Code that updates variables is a method with loop invariants, and each such method is proved
  equal to a function or to a stated property. The pin store, the budget and the decision log are classes with the
  source's mutable variables as fields.
- **Hashes.** The tree hash is an arbitrary function on tree inputs. Where a statement needs injectivity it is stated as
  "or `Collides(h, inputs)`", where `inputs` is a finite set that contains what the proof hashes (`TreeHashed`,
  `RebuildHashed`, `ReconcileHashed`). Over all possible inputs a collision always exists, so the finite set is what makes
  the alternative mean something; `Premises` computes the least such set for every check and run: exactly what is
  hashed. `Keccak` turns such a collision into two byte strings with one hash.
- **Library calls.** base58 decoding of keys, Ed25519, the UTF-8 decoder, the consistency fetcher, the approval and the
  clocks are arbitrary functions or arbitrary answers. A thrown error is `None` or a `Fault`; error texts are left out,
  error kinds and their presence are kept.
- **Numbers and strings.** JavaScript numbers are integers with their bounds written out, including the 32-bit operands of
  `&`. The proof verifiers are modelled for safe integers: above 2^53 JavaScript rounds `firstSize - 1` and its like, and
  what they do there is not part of this model. Sizes of heads that verify are safe integers. Identifiers that are signed
  over are their UTF-8 bytes. Keys inside a parsed transaction are 32-byte strings; base58 text is a one-to-one rendering
  of them. Window bounds of keys are reals, since any finite number is accepted there.
- **Sorting.** The directory's `sort` is a stable insertion sort by start.

## What the proofs found

- `merkle.ts:189` tests for a power of two with a 32-bit `&`. The test never misses a power of two and is exact below
  2^32. `ConsistencyComplete` shows that an honest proof is accepted if and only if it is not too deep and the test is
  right about the old size; `Pow2TestRefusesHonestLog` names old size 3 * 2^32, whose honest three-node proofs are refused
  at every size above it up to 2^34. `PassesExactly` gives the test in closed form: it passes the sizes whose low 32 bits
  are zero or a power of two.
- From size 0 `verifyConsistency` does not look at the first root: the empty path is accepted with any digest
  (`FromSizeZero`), and shows the empty prefix's root exactly when the first root is the empty root. A pin of size 0
  therefore advances on the empty path to any head of its log (`ZeroPinAdvancesExactly`), which is why pin safety is
  stated from size one.
- In `pinning.ts:187-197` the branch for an equivocation found after the await cannot be taken: the two heads have
  different sizes there, and a conviction needs equal ones (`FinishMoves`).
- Overlapping calls to `observe` can take the pin back, even with an honest log (`OverlapCanShrinkPin`), because the size
  is compared with the captured pin and not with the current one. `PinShrinksExactly` says when; a call whose captured pin
  is still current never does it (`UndisturbedCallGrows`).
- For the same reason overlapping calls can take the pin across a fork: two calls capture one pin, each is served a proof
  to a head of its own list, and the pin goes from one list's head to the other's, which no proof joins
  (`OverlapCanCrossFork`). A call whose captured pin is still current, or was proven from the current one, never does it
  (`CompletionKeepsBranch`). A schedule of calls is safe, whatever is observed and served, exactly when no call completes
  after another has completed since it started (`UndisturbedExactly`): any other schedule has a run that crosses a fork
  without a hash collision.
- The budget check and the commit read the clock separately. Every hour stays within the cap as long as no payment's
  commit reads it earlier than its own check, whatever the clock does otherwise (`AnyHourWithinCap`), and for readings in
  the other order there is always a ledger within the cap that the payment takes beyond it (`ReadingsSafeExactly`). The
  bound also holds when wrappers of one scope have different caps, for the largest of them.
- Decision-log files are renamed to a millisecond timestamp, and a rename replaces a file that has the name. The log is
  whole, whatever else happens, exactly for clock readings that are distinct and name no file already there
  (`FreshReadingsExactly`); two rotations within one millisecond lose rows (`SameMillisecondLosesRows`).
  `LosslessExactly` shows that this is the only way to lose text while writes succeed, and `FilesAreOrderedPieces` what
  is kept even then.

## Model

| member | source | states |
|---|---|---|
| Bytes.BytesEq | twzrd-log-verifier/src/merkle.ts:60-65 | the comparison without early exit, by XOR and OR, is true exactly for equal byte strings |
| Merkle.SplitPoint | twzrd-log-verifier/src/merkle.ts:54-58 | the doubling loop finds the split point, the largest power of two below n |
| Merkle.SplitUnique | twzrd-log-verifier/src/merkle.ts:54-58 | a power of two k with k < n <= 2k is the split point, so the loop's result is the only one |
| Merkle.PrefixRoot | twzrd-log-verifier/src/merkle.ts:68-78 | the root of the first m entries of a range equals the Merkle root of that prefix taken as a list of its own |
| Merkle.MthInjective | twzrd-log-verifier/src/merkle.ts:68-78 | two lists with one tree hash over one range hold the same entries there, unless hashed inputs collide |
| Merkle.RootDeterminesList | twzrd-log-verifier/src/merkle.ts:68-78 | lists of one length with one root are equal, or a collision is exhibited |
| Merkle.CompleteOmitsOldRoot | twzrd-log-verifier/src/merkle.ts:104-114 | the generator leaves out its first node exactly when the old size is a power of two, and that node is the old root |
| RootDown.Promote | twzrd-log-verifier/src/merkle.ts:147-151 | a last node without a sibling may be moved up a level without changing what a path rebuilds, which justifies the skip loop |
| RootDown.Climb | twzrd-log-verifier/src/merkle.ts:142-158 | hashing in the first sibling and halving the node index and tree size rebuilds the same roots: the bottom-up turn equals the root-down definition |
| RootDown.ReconcileHalves | twzrd-log-verifier/src/merkle.ts:193-196 | the two-root reference survives halving both sizes when the older tree ends at an even boundary: the shift past trailing ones |
| RootDown.ReconcileOdd | twzrd-log-verifier/src/merkle.ts:198-217 | at an odd older size the two-root reference becomes a leaf-to-root walk seeded with the first node for both roots |
| Pow2Test.AndPredecessor | twzrd-log-verifier/src/merkle.ts:186-189 | n & (n - 1) is zero exactly for powers of two |
| Pow2Test.Pow2TestExact | twzrd-log-verifier/src/merkle.ts:186-189 | the test on 32-bit operands is exact for 1 <= n < 2^32 |
| Pow2Test.PassesExactly | twzrd-log-verifier/src/merkle.ts:186-189 | the 32-bit test passes n if and only if the low 32 bits of n are zero or a power of two |
| Pow2Test.Pow2TestPasses | twzrd-log-verifier/src/merkle.ts:186-189 | the 32-bit test passes every power of two of any size |
| Exactness.RebuildSound | twzrd-log-verifier/src/merkle.ts:81-95 | a path that rebuilds the list's root is the generated path and its seed is the entry's leaf hash, without a collision |
| Exactness.RebuildComplete | twzrd-log-verifier/src/merkle.ts:81-95 | the generated path rebuilds the root at every tree size |
| Exactness.ReconcileSound | twzrd-log-verifier/src/merkle.ts:98-116 | a node list that rebuilds the newer root also rebuilds the older one and is the generator's full list, without a collision |
| Exactness.ReconcileComplete | twzrd-log-verifier/src/merkle.ts:98-116 | the generator's full list rebuilds both roots |
| Exactness.SeededSound | twzrd-log-verifier/src/merkle.ts:186-219 | an accepted list, with the first root prepended when the test says so, shows the prefix's root and is the generated path where the test is right |
| Exactness.SeededComplete | twzrd-log-verifier/src/merkle.ts:98-116 | prepending the old root exactly for powers of two undoes the generator's omission |
| Exactness.WronglySeeded | twzrd-log-verifier/src/merkle.ts:186-189 | prepending the first root when nothing was omitted makes every honest proof fail |
| Keccak.EncodeInjective | twzrd-log-verifier/src/merkle.ts:38-52 | no byte string is the hashed encoding of two tree inputs: leaves, nodes and the empty tree are separated |
| Keccak.HashedBytes | twzrd-log-verifier/src/merkle.ts:25-52 | an entry is hashed behind a zero byte and two digests behind a one byte, left before right |
| Keccak.RootBytes | twzrd-log-verifier/src/merkle.ts:54-78 | the root in bytes as section 2.1 of RFC 6962 defines it: of nothing, of one entry, and of any two parts of which the first is as long as the largest power of two below the whole |
| Keccak.CollisionIsByteCollision | twzrd-log-verifier/src/merkle.ts:28-52 | a collision of tree inputs is two different byte strings with one hash |
| Verifiers.ShiftRagged | twzrd-log-verifier/src/merkle.ts:147-151 | the inner loop leaves the rebuilt roots unchanged and ends at an odd index |
| Verifiers.VerifyInclusion | twzrd-log-verifier/src/merkle.ts:127-160 | the loop accepts exactly what the root-down reference accepts; whatever it accepts has the index within the size, 32-byte values and at most 32 nodes |
| Verifiers.FoldConsistency | twzrd-log-verifier/src/merkle.ts:191-217 | the loop that folds two roots at once computes the root-down reference, ending in failure exactly when it does |
| Verifiers.VerifyConsistency | twzrd-log-verifier/src/merkle.ts:168-219 | the whole method accepts exactly by its guards, the cases of sizes zero and equal, and the two-root reference on the seeded list; whatever it accepts has sizes in order, 32-byte values, at most 32 nodes and, at equal sizes, equal roots |
| Soundness.InclusionSound | twzrd-log-verifier/src/merkle.ts:81-160 | an accepted proof against a list's root is for the list's own entry at that index and is the generated path, or a collision |
| Soundness.InclusionComplete | twzrd-log-verifier/src/merkle.ts:81-160 | the generated proof is accepted if and only if it has at most 32 nodes |
| Soundness.ConsistencySound | twzrd-log-verifier/src/merkle.ts:98-219 | an accepted proof against a list's root shows the root of the list's prefix, the whole list included, and is the generated path where the power-of-two test is right, or a collision |
| Soundness.ConsistencyComplete | twzrd-log-verifier/src/merkle.ts:98-219 | between any two sizes of a list, equal ones and 0 included, the generated proof is accepted if and only if it has at most 32 nodes and the power-of-two test, where it is made, is right about the old size |
| Soundness.EqualSizesExactly | twzrd-log-verifier/src/merkle.ts:182 | at a list's own size exactly its own root is accepted, with the empty path and no other |
| Soundness.EqualSizesTellListsApart | twzrd-log-verifier/src/merkle.ts:182 | the roots of two different lists of one length are accepted with no path, or a collision |
| Soundness.FromSizeZero | twzrd-log-verifier/src/merkle.ts:182-184 | from size 0 every first root of 32 bytes is accepted, exactly with the empty path and a second root of 32 bytes |
| Soundness.FromSizeZeroShows | twzrd-log-verifier/src/merkle.ts:182-184 | a step from size 0 shows the root of the empty prefix if and only if the first root is the empty root, and is accepted with any other digest too |
| Premises.InclusionCovered | twzrd-log-verifier/src/merkle.ts:127-160 | for every list and proof the inputs hashed are computed as a finite set, and the sets `InclusionSound` accepts are exactly those that contain it |
| Premises.ConsistencyCovered | twzrd-log-verifier/src/merkle.ts:168-219 | the same for the inputs of a consistency check and `ConsistencySound` |
| Premises.PinRunCovered | twzrd-log-verifier/src/pinning.ts:89-242 | the same for the inputs of a whole run of a pin store and of a list's prefixes |
| Premises.HeadForIsHonest | twzrd-log-verifier/src/sth.ts:125-212 | under some signature scheme every list has a verified head of every size, so the premises about heads can be met |
| Depth.InclusionWithinLimit | twzrd-log-verifier/src/merkle.ts:19 | every honest inclusion proof is accepted up to 2^32 entries |
| Depth.InclusionBeyondLimit | twzrd-log-verifier/src/merkle.ts:136 | above 2^32 entries the proof of entry 0 is refused |
| Depth.ConsistencyWithinLimit | twzrd-log-verifier/src/merkle.ts:178 | every honest consistency proof is accepted up to 2^31 entries |
| Depth.ConsistencyBeyondLimit | twzrd-log-verifier/src/merkle.ts:178 | above 2^31 entries the proof from size 3 is refused |
| Depth.Pow2TestRefusesHonestLog | twzrd-log-verifier/src/merkle.ts:186-189 | at every size above 3 * 2^32 and up to 2^34 the honest proof from 3 * 2^32 has three nodes and is refused, because the 32-bit test errs |
| Codec.LeRoundTrip | twzrd-log-verifier/src/util.ts:45-64 | little-endian bytes read back as the number |
| Codec.LeCanonical | twzrd-log-verifier/src/util.ts:45-64 | every byte string is the encoding of the number it reads as |
| Codec.U64leReads | twzrd-log-verifier/src/util.ts:53-64 | every safe integer is the sum of its eight bytes, the first weighing one |
| Codec.FillU64le | twzrd-log-verifier/src/util.ts:53-64 | the byte loop produces the encoding, and throws outside the safe integers |
| Codec.FillFromHex | twzrd-log-verifier/src/util.ts:16-26 | the filling loop decodes the cleaned hex or throws |
| Codec.PrintHex | twzrd-log-verifier/src/util.ts:28-32 | the appending loop prints each byte as its two lower-case digits, the high one first |
| Codec.HexRoundTrip | twzrd-log-verifier/src/util.ts:16-32 | printed hex decodes to the bytes, with or without the 0x prefix |
| Codec.HexIgnoresCase | twzrd-log-verifier/src/util.ts:16-26 | the case of a hex string and of its prefix does not change the bytes |
| Codec.CleanDecides | twzrd-log-verifier/src/util.ts:16-32 | two valid hex strings name the same bytes exactly when their clean forms are equal |
| Codec.ConcatBytes | twzrd-log-verifier/src/util.ts:34-43 | the copying loop yields the parts one after another |
| KeyDir.ValidateLogKeyDirectory | twzrd-log-verifier/src/keydir.ts:56-147 | no error is reported if and only if the entries are well formed, ids distinct, at most one key signs, and no instant lies in two windows, fractional bounds included; and each kind of error is reported exactly when its fault is there |
| KeyDir.NeighboursSeparateAll | twzrd-log-verifier/src/keydir.ts:136-144 | in order of start, non-overlapping neighbours separate every pair of windows |
| KeyDir.ScanDecidesDisjoint | twzrd-log-verifier/src/keydir.ts:136-144 | the adjacent-pair scan of the sorted windows decides whether all windows are disjoint |
| KeyDir.SortKeeps | twzrd-log-verifier/src/keydir.ts:137 | sorting keeps the entries as a multiset and orders their starts |
| Sth.PushSthPreimage | twzrd-log-verifier/src/sth.ts:86-114 | pushing the parts and joining them gives the preimage, with each thrown length and range error |
| Sth.PreimageRoundTrip | twzrd-log-verifier/src/sth.ts:77-114 | a decoder recovers every signed field of every head that can be encoded |
| Sth.PreimageInjective | twzrd-log-verifier/src/sth.ts:77-114 | equal preimages mean equal domain, log id, key id, size, timestamp and root, so no V1 preimage is a V2 preimage |
| SthAnswers.EncodesExactly | twzrd-log-verifier/src/sth.ts:77-114 | a head has a preimage if and only if its key id fits its domain, its identifiers have 1 to 256 bytes, its numbers are safe integers and its root is 32 bytes of hex |
| SthAnswers.DomainsSpelled | twzrd-log-verifier/src/sth.ts:39-44 | the two domains are the bytes of their names |
| SthAnswers.LayoutExactly | twzrd-log-verifier/src/sth.ts:77-114 | the signed bytes in order: domain, log id and key id behind their two-byte lengths, size, timestamp, root |
| Sth.RunVerifySth | twzrd-log-verifier/src/sth.ts:125-212 | the method that fills the result step by step returns the result of the specification, error lists included |
| Sth.VerifySthExact | twzrd-log-verifier/src/sth.ts:125-212 | a head verifies if and only if it encodes, the pinned key or the directory entry that covers its timestamp is named, and that key signed the preimage |
| SthAnswers.HandoverCoversOnce | twzrd-log-verifier/src/keydir.ts:150-155 | when one key hands over to the next at an instant, every instant from its start on is covered by exactly one |
| SthAnswers.FirstEntryFound | twzrd-log-verifier/src/keydir.ts:165-172 | of several entries with one id the first is resolved |
| SthAnswers.ResolutionErrors | twzrd-log-verifier/src/sth.ts:136-176 | which heads are refused before a key is found, and which are outside their key's window, each exactly |
| SthAnswers.KeyErrors | twzrd-log-verifier/src/sth.ts:178-211 | with a key found, each error of the advisory key, the encodings, the lengths and the signature exactly when it applies |
| SthAnswers.NoKeyErrors | twzrd-log-verifier/src/sth.ts:136-170 | without a key no error of the key or the signature is reported |
| SthAnswers.NamesKey | twzrd-log-verifier/src/sth.ts:129-176 | the key, key id and key mode the result names |
| Sth.OneSignerPerInstant | twzrd-log-verifier/src/sth.ts:145-170 | under a valid directory two verified heads with one timestamp have one key id and one public key |
| Sth.RotateValid | twzrd-log-verifier/src/keydir.ts:56-147 | closing the open-ended signer, marking it verify-only and adding a fresh signer yields a valid directory |
| Sth.RotationKeepsVerdicts | twzrd-log-verifier/src/sth.ts:125-212 | a head dated before the rotation verifies under the new directory if and only if it did under the old one |
| Sth.SuccessorTooLate | twzrd-log-verifier/src/keydir.ts:150-187 | neither directory lets the successor's key id cover an instant before the rotation |
| Equivocation.RunCheckEquivocation | twzrd-log-verifier/src/equivocation.ts:60-160 | the method with early returns fills in exactly the specified verdict, errors, bundle and consistency outcome |
| Equivocation.ConvictsExactly | twzrd-log-verifier/src/equivocation.ts:60-160 | it convicts, with a bundle of these two heads, if and only if both verify, log id and size agree and the roots differ, whatever the path |
| Equivocation.ConvictionSymmetric | twzrd-log-verifier/src/equivocation.ts:60-160 | the conviction does not depend on the order of the heads or on any path |
| Equivocation.DivergedHistoriesConvict | twzrd-log-verifier/src/equivocation.ts:60-160 | signed heads of two different lists of one length always convict, or a collision |
| Equivocation.HonestHeadsNeverConvict | twzrd-log-verifier/src/equivocation.ts:60-160 | heads of prefixes of one list never convict |
| Adjudication.OutcomeExactly | twzrd-log-verifier/src/equivocation.ts:112-160 | for any two heads in any order: consistency is proven exactly when both verify, are of one log and different sizes and the path leads from the smaller to the larger; refuted exactly when such a path decodes and does not; open otherwise |
| Adjudication.ReasonsExactly | twzrd-log-verifier/src/equivocation.ts:75-160 | each reason, and the cross-key mark, is given exactly under its own condition |
| Adjudication.ErrorsExactly | twzrd-log-verifier/src/equivocation.ts:75-160 | every error is one head's own under that head's tag, or says that the path failed or could not be decoded |
| Adjudication.VerdictSymmetric | twzrd-log-verifier/src/equivocation.ts:60-160 | exchanging the heads changes nothing but their order in the bundle |
| Adjudication.HonestPathVerifies | twzrd-log-verifier/src/equivocation.ts:115-141 | for heads of two prefixes of one list of up to 2^31 entries the list's own path is found to verify, in either order of the heads |
| Adjudication.ConsistentMeansPrefix | twzrd-log-verifier/src/equivocation.ts:115-141 | if two heads are found consistent, in either order, the smaller, when of size one or more, is the head of a prefix of any list the larger heads, or a collision |
| Pinning.SthPinStore.constructor | twzrd-log-verifier/src/pinning.ts:89-96 | the store starts with the given pin or none |
| Pinning.SthPinStore.Observe | twzrd-log-verifier/src/pinning.ts:101-240 | one sequential call moves the pin and answers as the part before the await followed by the part after it |
| Pinning.BeginMoves | twzrd-log-verifier/src/pinning.ts:101-172 | before the await a pin is set only where there was none, and a waiting call holds two verified heads of one log and different sizes |
| Pinning.FinishMoves | twzrd-log-verifier/src/pinning.ts:174-240 | after the await the pin moves only along a step the verifier accepts from the captured pin, and no conviction is reported |
| Pinning.AdvancesExactly | twzrd-log-verifier/src/pinning.ts:174-240 | a call advances if and only if the served path decodes and proves the step from the captured pin |
| PinAnswers.FirstAnswers | twzrd-log-verifier/src/pinning.ts:101-122 | on an empty store a head is pinned exactly when it verifies, with every field of its record |
| PinAnswers.StatusExactly | twzrd-log-verifier/src/pinning.ts:101-240 | on a pinned store each status, error included, is given exactly under its own condition on the head, the pin and the path served |
| PinAnswers.AnswerExactly | twzrd-log-verifier/src/pinning.ts:101-240 | the pin afterwards, the path and the previous pin reported, and with an equivocation the conviction of exactly the pinned head and the observed one |
| PinAnswers.ForkAtOneSizeReported | twzrd-log-verifier/src/pinning.ts:133-154 | heads of two different lists of one length, seen one after another, are reported as an equivocation with both heads, or a collision |
| PinAnswers.OverlapReportsFork | twzrd-log-verifier/src/pinning.ts:133-154 | however calls overlap, an equivocation is answered exactly when a call starts with a verified head of the current pin's log and size and another root |
| PinRuns.StepBack | twzrd-log-verifier/src/pinning.ts:186-231 | if the newer of two pins joined by a proven step is a prefix's head, so is the older when it is of size one or more, or a collision |
| PinRuns.ObserveMoves | twzrd-log-verifier/src/pinning.ts:101-240 | one observation sets a first pin, leaves the pin as it is, or replaces it along a proven step |
| PinRuns.RunMonotone | twzrd-log-verifier/src/pinning.ts:89-242 | from an empty or pinned store, between any two points of a run the log id is fixed and the size never decreases |
| PinRuns.PinSafety | twzrd-log-verifier/src/pinning.ts:89-242 | if the pin a run ends with is the head of a list, the pin it began with, when of size one or more, is the head of that list's prefix, whatever was served, or a collision |
| PinRuns.EveryEarlierPinSafe | twzrd-log-verifier/src/pinning.ts:89-242 | from an empty or pinned store, if the final pin is the head of a list, every earlier pin of size one or more is the head of its prefix, or a collision |
| PinRuns.ZeroPinAdvancesExactly | twzrd-log-verifier/src/pinning.ts:174-231 | a pin of size 0 advances to any larger verified head of its log if and only if the empty path is served, and is the head of the empty prefix if and only if its root is the empty root |
| PinRuns.ForkNeverMovesPin | twzrd-log-verifier/src/pinning.ts:101-240 | in a call that runs alone, a head of a list that does not extend the non-empty pinned list leaves the pin unchanged, whatever path is served, or a collision |
| PinRuns.HonestStarts | twzrd-log-verifier/src/pinning.ts:101-172 | before the await an honest head is pinned, found unchanged, or waits, each exactly by the pin and the sizes |
| PinRuns.HonestFinishes | twzrd-log-verifier/src/pinning.ts:174-240 | after the await the list's own path advances a call whose head is larger than the captured pin and makes any other lag, whatever the pin is by then |
| PinRuns.HonestLogFollowed | twzrd-log-verifier/src/pinning.ts:101-240 | on an honest log up to 2^31 entries each call is pinned, unchanged, advanced or lagging, and keeps the larger head |
| PinRuns.HonestRunFollowed | twzrd-log-verifier/src/pinning.ts:101-240 | over a whole run on an honest log, from an empty or pinned store, every call is pinned, unchanged, advanced or lagging, and the pin ends at the largest size seen |
| PinInterleaved.StartKeepsInv | twzrd-log-verifier/src/pinning.ts:93-172 | a capture step keeps the tree of installed pins, and every waiting call holds an installed pin |
| PinInterleaved.EndKeepsInv | twzrd-log-verifier/src/pinning.ts:174-231 | a completion step adds at most one pin, proven from the pin it captured |
| PinInterleaved.RunKeepsInv | twzrd-log-verifier/src/pinning.ts:93-231 | every interleaving keeps the tree of installed pins and forgets none |
| PinInterleaved.InterleavedPinsFormTree | twzrd-log-verifier/src/pinning.ts:89-231 | from a store as created, in every interleaving each installed pin but the first is joined by an accepted proof to one installed earlier, and the current pin is one of them |
| PinInterleaved.FirstPinIsRoot | twzrd-log-verifier/src/pinning.ts:93-231 | the first pin is an ancestor of all, of the same log and no larger |
| PinInterleaved.AncestorsArePrefixes | twzrd-log-verifier/src/pinning.ts:93-231 | if an installed pin is the head of a list, each of its ancestors of size one or more is the head of a prefix, or a collision |
| PinInterleaved.UndisturbedCallGrows | twzrd-log-verifier/src/pinning.ts:133-231 | a completion whose captured pin is still current never shrinks the pin |
| PinInterleaved.PinShrinksExactly | twzrd-log-verifier/src/pinning.ts:133-231 | a completion shrinks the pin if and only if it proves its step from the captured pin and the store has moved past the observed size |
| PinInterleaved.OverlapCanShrinkPin | twzrd-log-verifier/src/pinning.ts:133-231 | two overlapping calls on an honest log that take the pin from the largest head back to a smaller one |
| PinForks.CompletionKeepsBranch | twzrd-log-verifier/src/pinning.ts:133-231 | a completion whose captured pin is the current one, or was proven from it, leaves the former pin the head of a prefix of any list the new pin heads, whatever path is served, or a collision |
| PinForks.OnlyCurrentIsAncestor | twzrd-log-verifier/src/pinning.ts:133-231 | the current pin is the latest installed, so the captured pin was proven from it only when it is that pin |
| PinForks.OverlapCanCrossFork | twzrd-log-verifier/src/pinning.ts:133-231 | for any two diverged lists with a common head, two overlapping calls served the lists' own proofs take the pin from one branch to the other |
| PinSchedules.UndisturbedIsSafe | twzrd-log-verifier/src/pinning.ts:89-231 | when no call completes after being overtaken, no step of any run crosses a fork, whatever heads and paths are served, or a collision |
| PinSchedules.LateCompletionCrosses | twzrd-log-verifier/src/pinning.ts:89-231 | any schedule with a call that completes after being overtaken has, for any fork, a run whose pin crosses that fork at that step |
| PinSchedules.UndisturbedExactly | twzrd-log-verifier/src/pinning.ts:89-231 | a schedule of starts and completions keeps every run on one branch if and only if no call completes after another has completed since it started |
| PinHonest.HonestScheduleFollowed | twzrd-log-verifier/src/pinning.ts:101-240 | on an honest log up to 2^31 entries, however calls overlap, every call ends pinned, unchanged, advanced or lagging and every pin ever installed is a verified head of a prefix |
| Client.VerifyLogInclusion | twzrd-log-verifier/src/client.ts:319-397 | valid if and only if the head verifies, somebody names a leaf, everybody who does spells the same 32 bytes, and the proof verifies for them against the size and root of the head; each kind of error is reported exactly when it applies |
| Client.LateErrorsExactly | twzrd-log-verifier/src/client.ts:367-395 | once leaf, head and index are there: which errors of the head, the size, the path and the proof are reported when |
| Client.ReceiptMeans | twzrd-log-verifier/src/client.ts:319-397 | a valid answer means that the leaf of the caller, of the receipt and of the block, as far as given, are the leaf proven, that the head verifies and the index lies within its size |
| Client.ReceiptShows | twzrd-log-verifier/src/client.ts:319-397 | a valid receipt under the head of a list is for the entry at its index, or a collision |
| Client.HonestReceiptValid | twzrd-log-verifier/src/client.ts:319-397 | every document made from a list of up to 2^32 entries, with its own proof and any spelling of the leaf, is valid |
| Client.DistinctDecides | twzrd-log-verifier/src/client.ts:328-349 | the list of distinct leaf names has one element exactly when all names agree |
| Client.ReceiptPermanent | twzrd-log-verifier/src/client.ts:319-397 | over calls made one after another, a receipt valid under one head holds of every list that a later pinned head is the head of: the entry at its index is the leaf the receipt, the block and the caller name, or a collision |
| AnchorTx.RunReadCompact | twzrd-log-verifier/src/anchor.ts:143-156 | the loop that ORs seven-bit groups reads the sum of the groups, or throws at the end of the input or after three bytes |
| AnchorTx.ReadWritten | twzrd-log-verifier/src/anchor.ts:143-156 | every 16-bit count reads back from its canonical encoding, wherever it stands |
| AnchorTx.RunParseRawTransaction | twzrd-log-verifier/src/anchor.ts:189-260 | the cursor loops compute the recursive parser, errors included |
| AnchorTx.ParsedInsideInput | twzrd-log-verifier/src/anchor.ts:189-260 | whatever the bytes, a parsed transaction is made of slices of them, has one signature per required signer and a static key for each, its version and signer count are those of the header, and its instructions name static keys |
| AnchorTx.VerifyTransactionSignatures | twzrd-log-verifier/src/anchor.ts:268-278 | the signers are returned if and only if every required signature verifies under the key at its index |
| AnchorTx.MessageRoundTrip | twzrd-log-verifier/src/anchor.ts:189-260 | parsing a written legacy or v0 message followed by any bytes gives its keys and instructions |
| AnchorTx.TransactionRoundTrip | twzrd-log-verifier/src/anchor.ts:189-260 | parsing a serialized transaction followed by any bytes gives back its version, signatures, keys and instructions |
| AnchorMemo.ColonsFromEnd | twzrd-log-verifier/src/anchor.ts:66-82 | the two colons found from the end delimit the fields, whatever colons the log id holds |
| AnchorMemo.SpellingParses | twzrd-log-verifier/src/anchor.ts:66-82 | every spelling of a payload parses to it |
| AnchorMemo.ParsedIsSpelling | twzrd-log-verifier/src/anchor.ts:66-82 | whatever parses is a spelling of the payload it parses to |
| AnchorMemo.MemoRoundTrip | twzrd-log-verifier/src/anchor.ts:66-119 | the parser undoes the printer, with the root in lower case |
| AnchorMemo.PrinterInjective | twzrd-log-verifier/src/anchor.ts:115-119 | payloads that differ in a field print differently |
| AnchorHead.WrittenHeadParses | twzrd-log-verifier/src/anchor.ts:88-113 | every head within the bounds decodes from its layout if and only if its log id is text, and to itself |
| AnchorHead.ParsedHeadIsWritten | twzrd-log-verifier/src/anchor.ts:88-113 | whatever decodes is the layout of its payload with no byte to spare |
| Budget.BuyerBudget.constructor | twzrd-x402-gate/src/buyer-fetch.ts:156-161 | a process starts with the replayed ledger and nothing in flight |
| Budget.BuyerBudget.SpentMicro | twzrd-x402-gate/src/policy-runtime.ts:105-110 | the loop sums the scope's amounts no older than the window |
| Budget.BuyerBudget.Begin | twzrd-x402-gate/src/buyer-fetch.ts:217-235 | the tick that checks and reserves does both or neither, exactly when price, range, the caller's quote and the hourly cap allow |
| Budget.BuyerBudget.Finally | twzrd-x402-gate/src/buyer-fetch.ts:253-256 | the release takes the amount off the scope's reservation and drops the key when nothing is left |
| Budget.BuyerBudget.ResumeAfterApproval | twzrd-x402-gate/src/buyer-fetch.ts:236-247 | the tick after the approval goes on to the log or releases |
| Budget.BuyerBudget.ResumeAfterLog | twzrd-x402-gate/src/buyer-fetch.ts:247-256 | the tick after the log row records, approves signing and releases, or only releases |
| Budget.EndGivesBack | twzrd-x402-gate/src/buyer-fetch.ts:253-256 | ending a payment gives back exactly what it held and touches no other scope |
| Budget.StepKeepsReservationsExact | twzrd-x402-gate/src/buyer-fetch.ts:230-256 | every tick keeps the reservations equal to the sum of the amounts in flight |
| Budget.BudgetHolds | twzrd-x402-gate/src/buyer-fetch.ts:230-256 | with a clock that does not step back, in every interleaving the last hour's spend plus what is reserved stays within the cap and reservations are exact, across refusals, aborts and failures |
| BudgetHours.AnyHourWithinCap | twzrd-x402-gate/src/buyer-fetch.ts:230-256 | in every interleaving the amounts recorded in any 3600 seconds stay within the cap, as long as no payment's commit reads the clock earlier than its own check |
| Budget.SignedIsRecorded | twzrd-x402-gate/src/buyer-fetch.ts:244-256 | in every interleaving what the ledger gains is exactly what was approved for signing |
| BudgetAdmission.BeginsExactly | twzrd-x402-gate/src/buyer-fetch.ts:217-235 | in every state of every run a payment is let through, and its amount reserved, if and only if it is within the price ceiling and the safe integers, as quoted, and leaves the last hour and the amounts in flight within the cap |
| BudgetAdmission.StageMoves | twzrd-x402-gate/src/buyer-fetch.ts:236-256 | one tick moves a payment on exactly by its own approval or its own confirmed log row, drops it on a refusal, and touches no other |
| BudgetAdmission.PaymentHistory | twzrd-x402-gate/src/buyer-fetch.ts:217-256 | in every interleaving each payment was begun by a wrapper of its scope within its ceiling and as quoted; one past its approval was approved after that, and one that signs was then confirmed |
| BudgetAdmission.EveryRowAffordable | twzrd-x402-gate/src/buyer-fetch.ts:217-250 | every amount the ledger gains is within the price ceiling of the wrapper that paid it, and as quoted |
| BudgetHours.ReadingsSafeExactly | twzrd-x402-gate/src/buyer-fetch.ts:230-250 | a payment keeps every hour within the cap, whatever was recorded before, if and only if its commit reads the clock no earlier than its check |
| BudgetHours.ForwardClockInOrder | twzrd-x402-gate/src/buyer-fetch.ts:230-250 | a clock that never steps back meets that condition in every interleaving |
| BudgetHours.ClockStepBackOverspends | twzrd-x402-gate/src/buyer-fetch.ts:230-250 | from an empty ledger, one millisecond back between check and commit lets twice the cap be recorded within an hour |
| DecisionLedger.RotateKeepsText | twzrd-x402-gate/src/decision-ledger-file.ts:347 | a rotation keeps the log's text if and only if no file with text has the new name |
| DecisionLedger.BatchReports | twzrd-x402-gate/src/decision-ledger-file.ts:346-352 | a batch succeeds exactly when no file operation it gets to fails |
| DecisionLedger.RotatesAtLimit | twzrd-x402-gate/src/decision-ledger-file.ts:347-350 | a batch starts a new file exactly when the active one has reached the limit, so no file reaches the limit by more than one batch |
| DecisionLedger.FileDecisionLedger.constructor | twzrd-x402-gate/src/decision-ledger-file.ts:334-340 | a ledger starts with no rows pending, nothing scheduled and a resolved writer |
| DecisionLedger.FileDecisionLedger.FlushPending | twzrd-x402-gate/src/decision-ledger-file.ts:341-354 | a flush hands the pending rows to the writer as one batch, or none, and waits for the batch queued last |
| DecisionLedger.FileDecisionLedger.ScheduleFlush | twzrd-x402-gate/src/decision-ledger-file.ts:355-361 | one microtask is queued unless one is already scheduled |
| DecisionLedger.FileDecisionLedger.RecordRow | twzrd-x402-gate/src/decision-ledger-file.ts:373-383 | a row is added at the end, and flushed at the buffer limit or scheduled |
| DecisionLedger.FileDecisionLedger.RunMicrotask | twzrd-x402-gate/src/decision-ledger-file.ts:355-361 | the queued microtask flushes |
| DecisionLedger.FileDecisionLedger.RunBatch | twzrd-x402-gate/src/decision-ledger-file.ts:346-352 | one batch rotates, appends and syncs, fails where a file operation fails, and is skipped after an earlier failure |
| DecisionLedger.StepKeepsQueue | twzrd-x402-gate/src/decision-ledger-file.ts:341-383 | batches and pending rows are always the recorded rows in order, and a pending row always has a flush on its way |
| DecisionLedger.FlushesAtLimit | twzrd-x402-gate/src/decision-ledger-file.ts:381-382 | a row is handed over at once exactly when it fills the buffer; until then it waits with one background flush for all that wait |
| DecisionLedger.FlushHandsOver | twzrd-x402-gate/src/decision-ledger-file.ts:341-361 | a flush, called or queued, hands over all that waits as one batch, and no batch when nothing waits |
| DecisionLedger.SettlesOneWay | twzrd-x402-gate/src/decision-ledger-file.ts:341-354 | an awaited flush settles when its batch does, rejected exactly if a batch up to it failed |
| DecisionLedger.PendingBounded | twzrd-x402-gate/src/decision-ledger-file.ts:341-383 | in every schedule the buffer never holds as many rows as its limit |
| DecisionLedger.StepKeepsDisk | twzrd-x402-gate/src/decision-ledger-file.ts:346-352 | when no rename replaces text, the files hold the batches written whole and, after a failure, at most a beginning of the failed one |
| DecisionLedger.DiskIsPrefix | twzrd-x402-gate/src/decision-ledger-file.ts:334-398 | when no rename replaces text, in every schedule and under every failure the files hold a beginning of what was recorded |
| DecisionLedger.ResolvedFlushIsDurable | twzrd-x402-gate/src/decision-ledger-file.ts:334-398 | when no rename replaces text and a flush resolves, the files begin with every row recorded before it, in order |
| DecisionLedger.FailureIsFinal | twzrd-x402-gate/src/decision-ledger-file.ts:341-354 | after a write failure no later flush ever resolves, and it rejects once its batch settles |
| DecisionLedger.LosslessExactly | twzrd-x402-gate/src/decision-ledger-file.ts:346-352 | while no write has failed, the files hold exactly what was written if and only if no rename replaced text |
| DecisionRotation.FreshReadingsExactly | twzrd-x402-gate/src/decision-ledger-file.ts:346-347 | no schedule with given clock readings at which batches settle, on a disk with given file names, replaces text if and only if the readings are distinct and none is such a name |
| DecisionRotation.FilesArePrefix | twzrd-x402-gate/src/decision-ledger-file.ts:334-398 | with fresh readings, in every schedule and under every failure the files hold a beginning of what was recorded: nothing twice, skipped or out of order |
| DecisionRotation.FlushIsDurable | twzrd-x402-gate/src/decision-ledger-file.ts:334-398 | with fresh readings, when a flush resolves at any later point, the files begin with every row recorded before it, once and in order |
| DecisionRotation.StepKeepsPieces | twzrd-x402-gate/src/decision-ledger-file.ts:341-354 | every step, whatever fails and whatever name a rename takes, keeps each file a piece of the text, in order, with the active one ending where writing has got to |
| DecisionRotation.FilesAreOrderedPieces | twzrd-x402-gate/src/decision-ledger-file.ts:334-398 | without any condition, each file is a piece of what was recorded and the pieces are in order without overlap, so only whole files can be missing |
| DecisionRotation.SameMillisecondLosesRows | twzrd-x402-gate/src/decision-ledger-file.ts:347 | two rotations in one millisecond lose a row although every flush resolves |
| SigningLog.BudgetRefines | twzrd-x402-gate/src/buyer-fetch.ts:182-256 | when the log decides whether an attempt's flush was durable, the budget runs exactly as in `Budget`, so its results hold of the joint system |
| SigningLog.StepKeepsLinked | twzrd-x402-gate/src/buyer-fetch.ts:182-256 | every step of the hooks and of the log keeps each approved attempt's row and flush in the log, and each signing attempt's flush resolved |
| SigningLog.LogExactly | twzrd-x402-gate/src/buyer-fetch.ts:182-192 | an approval records its row and calls a flush; no other tick of a hook that is modelled writes to the log |
| SigningLog.FlushDecides | twzrd-x402-gate/src/buyer-fetch.ts:188-192 | a hook that awaits its flush goes on exactly when the batch it waits for has settled: to signing if no batch up to it failed, nothing was aborted and the spend was written, and out otherwise |
| SigningLog.SignedIsOnDisk | twzrd-x402-gate/src/buyer-fetch.ts:182-250 | with fresh readings, in every schedule and under every failure, each payment that signs has its decision row in the files after everything recorded before it |
| SigningLog.FailsClosed | twzrd-x402-gate/src/buyer-fetch.ts:182-250 | once a write of the log has failed, no payment approved later ever signs |
| Base58.DigitOfInvertsCharOf | twzrd-x402-gate/src/demand-desk-authorization.ts:154-155 | a character stands for one digit and a digit for one character |
| Base58.AlphabetIs | twzrd-x402-gate/src/demand-desk-authorization.ts:154-155 | the characters in order are those of the alphabet |
| Base58.DecodesExactly | twzrd-x402-gate/src/demand-desk-authorization.ts:223-229 | a string decodes if and only if it is not empty, within the limit and spelt in the alphabet |
| Base58.RunDecodeBase58 | twzrd-x402-gate/src/demand-desk-authorization.ts:223-240 | the loops over one big integer compute the decoder: leading ones as zero bytes, then the digits of the number |
| Base58.ConvertBack | twzrd-x402-gate/src/demand-desk-authorization.ts:223-240 | rewriting digits in the other base and back, keeping leading zeros, restores them |
| Base58.DecodeEncode | twzrd-x402-gate/src/demand-desk-authorization.ts:223-240 | decoding the textbook encoding of any bytes that fit the limit gives them back, leading zeros included |
| Base58.EncodeDecode | twzrd-x402-gate/src/demand-desk-authorization.ts:223-240 | every accepted string is the encoding of what it decodes to |
| Base58.DecodeInjective | twzrd-x402-gate/src/demand-desk-authorization.ts:223-240 | distinct accepted strings decode to distinct bytes |

## Left out

- Keccak-256, Ed25519 and the bs58 library: arbitrary functions, so nothing is claimed about their strength.
- Network code, RPC calls, the CLI, the descriptor and proof endpoints: the consistency fetcher is an arbitrary answer.
- `verifyAnchor` and what an RPC reports about a transaction: the parsers and the signature check it rests on are modelled.
- JavaScript coercions (`String`, `Number`), values of the wrong JSON type, ill-formed UTF-16 and all message texts.
- Case folding outside ASCII in `toLowerCase`: no character outside ASCII becomes a hex digit.
- The text decoder for a log id in instruction data, a parameter here; the platform's drops a leading byte-order mark.
- The `onPin` callback, which runs after the pin has been set.
- PinRuns.PinSafety: the pin a store is restored with is required to be the record of a head that verifies, because the code does not check it.
- Pinning.SthPinStore.Observe: a call that runs alone; overlapping calls are capture and completion steps on values in `PinInterleaved`, because a method cannot be suspended.
- Budget.BudgetHolds: the replayed ledger is required to be within the cap at the start, because a cap lowered between runs cannot take back what was recorded; `AnyHourWithinCap` requires it of the hours it speaks about.
- Budget.BuyerBudget.SpentMicro: sums one list filtered by scope where the source keeps a list per scope; the hash chain of the spend file and its replay are not modelled.
- The recipient and asset checks before the budget check, which only refuse.
- DecisionLedger.FileDecisionLedger.RunBatch: takes the file operations of one batch as one step, because no other code writes the files meanwhile.
- DecisionLedger.StepKeepsDisk: requires that the rename replaces no file with text, because otherwise text is lost; `DecisionRotation.StepKeepsPieces` needs no such condition.
- DecisionLedger.DiskIsPrefix: requires that no rename replaces a file with text; `FreshReadingsExactly` gives the condition on the clock and `FilesAreOrderedPieces` what holds without it.
- SigningLog.SignedIsOnDisk: requires fresh readings, which `SameMillisecondLosesRows` shows to be needed; a refused payment's own row is one of the log's other rows.
- DecisionLedger.ResolvedFlushIsDurable: the same premise, which `LosslessExactly` shows to be needed.
- Row contents and their redaction, and exit and signal handlers, which a background flush at any time covers.
- Remote approval and the policy, decision and clearance tables: an arbitrary answer after an await.
- The demand-desk wallet, the decision-token registry, plugins and wrappers: plumbing or one-line checks.
