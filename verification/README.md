# Annex verification models

Annex is a federated chat server (Rust) with a web client (TypeScript). This project models its hardest logic in
Dafny and proves what that logic is for. `dafny verify dfyconfig.toml` verifies everything.

| Files | What they model |
|---|---|
| `GaloisField`, `Polynomials`, `Shamir`, `RecoveryShards` | the client's Shamir secret sharing: arithmetic in GF(2^8), splitting, Lagrange reconstruction, hexadecimal recovery shards |
| `MerkleTree`, `Registry`, `RegistryRuns` | the sparse append-only Merkle tree, registration with its preview / persist / commit / apply protocol, restore, and whole runs with failures and crashes |
| `PresenceGraph` | bounded breadth-first search, visibility levels, visible profiles |
| `ScalarField`, `HexText`, `ByteInts`, `Commitment` | base-256 and hexadecimal forms, the BN254 canonical check on secret keys |
| `EventLog`, `EventTimes`, `EventPaging` | the event log and its query builder, what its `since` filter selects, and paging with it |
| `Migrations`, `TransferScope`, `PreviewCache` | the migration runner, transfer scopes and signing payloads, the preview caches |
| `Sorting`, `Wrappers` | a stable sort, Option and Result |

Code that updates state step by step is a method, with loops over local buffers or a class whose fields it changes,
proved equal to a specification function or to the property itself. The theorems are lemmas about those functions.
The Poseidon hash is a function parameter; no proof assumes it injective. Where a property needs collision
resistance, the lemma instead names the two different inputs with the same hash.

## Where the code and its documentation differ

- `reconstruct` is documented to need exactly the threshold number of shares; the code recovers from any number of
  shares from the threshold up (`Shamir.AnyThresholdRecovers`).
- Registration lower-cases a commitment and stores its value reduced modulo the field order, while the path lookup
  compares text as given. A registered commitment is found again exactly when it is spelled in lower case and is
  below the field modulus (`RegistryRuns.LookupFindsExactly`, with a lost one in `RegistryRuns.RegisteredButLost`).
- Newlines are said to make the signing payload unambiguous. A bundle's payload belongs to that bundle's signed
  fields alone exactly when its id, pseudonym, server and summary are single lines
  (`TransferScope.UnambiguousExactly`); among structurally valid bundles, exactly when a newline is found only as the
  id's first character, the summary's last, or the whole pseudonym or server
  (`TransferScope.ValidUnambiguousExactly`). The structural check asks for neither, and
  `TransferScope.PayloadAmbiguousWithNewlines` gives two valid bundles with the same payload.
- The path search is documented to find the shortest path. What it finds is shortest, but its cap on visited nodes
  can hide a path (`PresenceGraph.CapHidesPath`). A target within the depth limit is found exactly when the first
  node that has it as a neighbour, in the order of discovery, is expanded while fewer nodes than the cap have been
  discovered (`PresenceGraph.FindPathBfs`).
- Visibility levels follow distance, which is mutual, but the cap makes them one-sided: `PresenceGraph.MutualExactly`
  says when two nodes see each other alike, and `PresenceGraph.OneSided` has two that do not.
- The event filter's `since` is documented as an ISO 8601 time, but rows are stamped in UTC with a space where that
  form has a `T`, and the two are compared as text. Such a filter selects from the midnight after the date written in
  it, whatever time of day, fraction or zone follows. It drops wrongly what is stamped from the denoted instant up to
  that midnight and, when an offset puts the instant later, keeps wrongly what lies between
  (`EventTimes.IsoSinceExactly`, with inputs in `SameDayDropped`, `AheadDropped` and `BehindKept`); it is right for
  every row exactly when the instant lies in the last second before that midnight or on it
  (`EventTimes.AlwaysRightExactly`). A filter in the stamps' own form is always right (`EventTimes.SinceSelects`).
- `since` is documented as the cursor of pagination. Following the last stamp of each page reaches every matching row
  exactly when no stamp is shared by more rows than the limit, and none but the last by as many
  (`EventPaging.PagingReachesExactly`, stuck in `EventPaging.BurstNeverReached`). This is for a clock that does not
  run backwards; with one that does, even distinct stamps can be lost (`EventPaging.SetBackNeverReached`).

## Model

| member | source | states |
|---|---|---|
| GaloisField.GfMul | client/src/lib/shamir.ts:14-25 | the shift-and-reduce loop computes the product of GF(2^8) with the AES polynomial (FIPS 197, section 4.2) |
| GaloisField.GfInv | client/src/lib/shamir.ts:27-38 | fails exactly on zero; otherwise the square-and-multiply loop gives the a^254 that multiplies with a to 1 |
| GaloisField.GfDiv | client/src/lib/shamir.ts:40-42 | fails exactly on a zero divisor; otherwise quotient times divisor is the dividend |
| GaloisField.MulAddRight | client/src/lib/shamir.ts:14-25 | the product distributes over exclusive or |
| GaloisField.MulComm | client/src/lib/shamir.ts:14-25 | the product is commutative |
| GaloisField.MulAssoc | client/src/lib/shamir.ts:14-25 | the product is associative |
| GaloisField.Frobenius | client/src/lib/shamir.ts:29 | every byte is its own 256th power, the fact behind inverting by exponent 254 |
| GaloisField.MulInverse | client/src/lib/shamir.ts:27-38 | a times a^254 is 1 for every non-zero a |
| GaloisField.DoublingReduces | client/src/lib/shamir.ts:14-25 | doubling shifts the bits and x^8 is x^4 + x^3 + x + 1, which with the laws fixes the product |
| Polynomials.RootsDetermine | client/src/lib/shamir.ts:48-56 | a polynomial of n coefficients that is zero at n distinct points has all coefficients zero |
| Polynomials.EvalIsSum | client/src/lib/shamir.ts:48-56 | evaluation is the sum of the coefficients times the powers of the point |
| Polynomials.InterpolationRecovers | client/src/lib/shamir.ts:105-119 | Lagrange's formula through at least as many points as coefficients gives the polynomial's own value everywhere |
| Shamir.PolyEval | client/src/lib/shamir.ts:48-56 | the running-power loop evaluates the polynomial |
| Shamir.Split | client/src/lib/shamir.ts:63-90 | succeeds exactly for 2 <= threshold <= totalShards <= 255, each of the three errors under its exact condition; share i carries index i + 1 and the value there of the polynomial with the secret byte and its random bytes as coefficients |
| Shamir.BasisAtZero | client/src/lib/shamir.ts:109-116 | the innermost loop gives the i-th Lagrange basis value at 0, and fails exactly on a repeated index |
| Shamir.Reconstruct | client/src/lib/shamir.ts:96-125 | needs two shares exactly when fewer are given, cannot invert exactly when an index is repeated and there is data; else each byte is the value at 0 of any polynomial with at most as many coefficients as shares that goes through them all |
| Shamir.SplitIndices | client/src/lib/shamir.ts:72-75 | the shares of a split have the distinct indices 1 to n |
| Shamir.AnyThresholdRecovers | client/src/lib/shamir.ts:9 | any threshold or more shares of one split with distinct indices reconstruct exactly the secret, for every secret, every choice of random bytes and every 2 <= k <= n <= 255 |
| Shamir.ReconstructFailsExactly | client/src/lib/shamir.ts:96-125 | shares of one split of a non-empty secret fail exactly when fewer than two are given or one is repeated |
| Shamir.PerfectHiding | client/src/lib/shamir.ts:10 | whatever threshold - 1 shares show, every secret of that length explains them, with exactly one choice of the random bytes |
| Shamir.SecretsIndistinguishable | client/src/lib/shamir.ts:10 | the random choices of any two secrets of one length correspond one to one under equal views of threshold - 1 shares |
| HexText.DecodeEncode | client/src/lib/shamir.ts:137-141 | decoding the encoding of any bytes gives the bytes back |
| HexText.EncodeDecode | crates/annex-identity/src/registry.rs:73-79 | encoding what was decoded gives the text in lower case |
| ScalarField.EncodeKeepsValue | client/src/lib/shamir.ts:137-141 | hexadecimal text read in base 16 is the bytes read big-endian |
| RecoveryShards.HexToBytes | client/src/lib/shamir.ts:128-134 | the loop parses every whole pair as parseInt does and drops an unpaired last character |
| RecoveryShards.ParsePairIsParseInt | client/src/lib/shamir.ts:128-134 | the byte stored for any two characters is parseInt(pair, 16) as ECMA-262 defines it, modulo 256, NaN as 0 |
| RecoveryShards.HexRoundTrips | client/src/lib/shamir.ts:128-141 | the two conversions undo each other on all bytes, and on a text exactly when it is even-length lower-case hexadecimal |
| RecoveryShards.AnyThresholdRecoversKey | client/src/lib/shamir.ts:147-168 | any threshold shards of a key recover a key, equal to the original text exactly when that is even-length lower-case hexadecimal |
| MerkleTree.Tree.constructor | crates/annex-identity/src/merkle.rs:40-55 | the zero hashes are those of empty subtrees and the new tree represents no leaves |
| MerkleTree.Tree.PreviewInsert | crates/annex-identity/src/merkle.rs:80-116 | succeeds exactly below 2^depth leaves (below the largest 64-bit word for depths from 64 on); then the next index, the root of the longer tree and the hashes of that tree along the new leaf's path, changing nothing |
| MerkleTree.Tree.ApplyUpdates | crates/annex-identity/src/merkle.rs:121-126 | applying a previewed insert makes the tree represent the longer list of leaves |
| MerkleTree.Tree.Insert | crates/annex-identity/src/merkle.rs:65-69 | below 2^depth leaves appends the leaf and returns its index, else leaves the full tree unchanged |
| MerkleTree.Tree.Root | crates/annex-identity/src/merkle.rs:129-134 | the stored root, or its default, is the recursive root of the leaves |
| MerkleTree.Tree.GetProof | crates/annex-identity/src/merkle.rs:153-177 | an index out of range is an error; else the siblings and direction bits along the leaf's path |
| MerkleTree.RootIsPlainRoot | crates/annex-identity/src/merkle.rs:40-134 | the root equals the textbook root of the leaves padded with zeros to 2^depth, halving until one leaf is left |
| MerkleTree.OverlayRepresents | crates/annex-identity/src/merkle.rs:87-126 | after the updates every occupied node, and no other, is stored with the hash of its subtree |
| MerkleTree.EmptySubtree | crates/annex-identity/src/merkle.rs:97-100 | an unoccupied node has the zero hash of its level |
| MerkleTree.CapacityFits | crates/annex-identity/src/merkle.rs:81-85 | the checked shift never allows more leaves than 2^depth |
| MerkleTree.RoomExactly | crates/annex-identity/src/merkle.rs:81-85 | below depth 64 there is room exactly below 2^depth leaves, then below the largest word, and the depth counts modulo 2^32 |
| MerkleTree.ProofComplete | crates/annex-identity/src/merkle.rs:351-361 | the proof of every inserted leaf folds to the root, and its direction bits are the little-endian digits of the index |
| MerkleTree.ProofSound | crates/annex-identity/src/merkle.rs:351-361 | whatever folds along an index's bits to the root is that slot's leaf with exactly its proof, or exhibits a hash collision at a level of the fold |
| MerkleTree.WitnessUpdate | crates/annex-identity/src/merkle.rs:87-115 | an insert changes an earlier leaf's proof in one element, at the highest differing bit of the indices, to the insert's own update there; the patched proof verifies |
| MerkleTree.RepresentationUnique | crates/annex-identity/src/merkle.rs:26-31 | the leaves determine the node map |
| MerkleTree.TreesAgree | crates/annex-identity/src/merkle.rs:190-237 | a live tree and a restored tree over the same leaves agree in every field |
| Registry.PersistLeafAndRoot | crates/annex-identity/src/merkle.rs:246-279 | the three statements in order, each able to fail, inside the caller's transaction |
| Registry.PersistConflicts | crates/annex-identity/src/merkle.rs:246-279 | without a fault the statements fail exactly on a row with the same index |
| Registry.InsertLeafKeeps | crates/annex-identity/src/merkle.rs:246-279 | an inserted row is added to the others, in the order of the key |
| Registry.InsertAndPersist | crates/annex-identity/src/merkle.rs:292-309 | result, tree and tables for every fault, the tree changing only after the commit |
| Registry.RegisterIdentity | crates/annex-identity/src/registry.rs:61-137 | result, tree and tables for every input and fault, the tree changing only after the commit |
| Registry.Restore | crates/annex-identity/src/merkle.rs:190-237 | the tree over the stored leaves, or malformed text, a full tree, or a root mismatch |
| Registry.RestoresExactly | crates/annex-identity/src/merkle.rs:206-236 | restoring gives these leaves exactly when every row decodes to its leaf, the rows fit, and the active root, if any, is their root |
| Registry.RestoreFailsExactly | crates/annex-identity/src/merkle.rs:190-237 | each of the three errors under its exact condition, the mismatch with both roots |
| Registry.GetPathForCommitment | crates/annex-identity/src/registry.rs:148-181 | not found exactly when no leaf row has the text; else the path of a row that has it |
| Registry.PathVerifies | crates/annex-identity/src/registry.rs:171-180 | a path handed out for a leaf, read back from its text, verifies the leaf against the root handed out with it |
| RegistryRuns.PersistKeepsStep | crates/annex-identity/src/merkle.rs:261-276 | persisting the next leaf never conflicts and keeps the leaf and root tables in step with the tree |
| RegistryRuns.RestoreRecovers | crates/annex-identity/src/merkle.rs:190-237 | tables in step restore to exactly their leaves, without error |
| RegistryRuns.InsertExactly | crates/annex-identity/src/merkle.rs:292-309 | over tables in step, result, leaves and rows of an insert for every fault point |
| RegistryRuns.RegisterExactly | crates/annex-identity/src/registry.rs:61-137 | over tables in step, result, leaves and rows of a registration for every text and every fault point, in the order of the checks |
| RegistryRuns.RegistersExactly | crates/annex-identity/src/registry.rs:82-118 | without a fault registered exactly when it is 64 hexadecimal digits, there is room and no identity has the lower-case text, and a duplicate exactly when one has |
| RegistryRuns.RegisterKeepsStep | crates/annex-identity/src/registry.rs:82-118 | a registration with any fault stores nothing and fails, or stores one leaf that the tree has too unless the process died |
| RegistryRuns.RegisteredPathVerifies | crates/annex-identity/src/registry.rs:116-136 | an acknowledged registration has the next leaf slot and the active root, and its path verifies the commitment's value against that root |
| RegistryRuns.LookedUpPathVerifies | crates/annex-identity/src/registry.rs:148-181 | the path looked up for any stored commitment text verifies its value against the active root |
| RegistryRuns.RunsStayConsistent | crates/annex-identity/src/registry.rs:82-118 | over any run of registrations, inserts, faults, crashes and restarts: restore succeeds and gives the live tree's leaves, rows are 0 to n - 1, and only the newest root is active |
| RegistryRuns.RunsOnlyAppend | crates/annex-identity/src/registry.rs:110-118 | a stored leaf stays stored at its index through any later run |
| RegistryRuns.RunsStayMatched | crates/annex-identity/src/registry.rs:89-111 | identities are distinct lower-case commitments and correspond row by row to the leaves |
| RegistryRuns.RefusedExactly | crates/annex-identity/src/registry.rs:89-118 | after any run a commitment is refused as a duplicate exactly when an earlier stored registration spelled it alike up to letter case, and else, well formed and with room, registered |
| RegistryRuns.RestartRecovers | crates/annex-identity/src/merkle.rs:190-237 | after any run a restart brings the process up with the leaves of the tables |
| RegistryRuns.LookupFindsExactly | crates/annex-identity/src/registry.rs:73-80 | any spelling of a registered commitment is found exactly when it is lower case and below the field modulus |
| RegistryRuns.RegisteredButLost | crates/annex-identity/src/registry.rs:148-169 | the field modulus as a commitment registers and is never found |
| RegistryRuns.AcknowledgedStays | crates/annex-identity/src/registry.rs:110-118 | after any later events an acknowledged commitment's value is in the slot it was given, in the tables and in the live tree |
| RegistryRuns.AcknowledgedIsServed | crates/annex-identity/src/registry.rs:148-181 | after any later events any spelling of an acknowledged commitment is found exactly when it is lower case and below the field modulus, and whichever row is picked its path verifies against the active root |
| PresenceGraph.Expand | crates/annex-graph/src/lib.rs:549-566 | one node's neighbours, in both edge directions: stops at the target or queues each unseen one with a shortest path |
| PresenceGraph.FindPathBfs | crates/annex-graph/src/lib.rs:495-574 | terminates; a found path is a shortest walk without repeats within the depth limit; found exactly when the target is the start, or lies within the limit and its first neighbour in discovery order is expanded with fewer nodes than the cap discovered |
| PresenceGraph.CapHidesPath | crates/annex-graph/src/lib.rs:522-529 | from the hub of a star with at least the cap's number of leaves, a target two edges away is missed at every depth limit of two or more |
| PresenceGraph.CapDecides | crates/annex-graph/src/lib.rs:522-529 | whatever the order of the rows: a target at distance d within the limit is found when the nodes within d do not exceed the cap, and missed when the cap is reached within d - 1 |
| PresenceGraph.GetNodeVisibility | crates/annex-graph/src/lib.rs:434-458 | a second or third degree means a shortest walk of two or three edges, and such a target has that degree unless the cap hides it; not visible exactly when the cap hides it or every walk is longer than three edges; self and neighbours are always recognised |
| PresenceGraph.ClassIsDistance | crates/annex-graph/src/lib.rs:434-458 | the distance class is the number of edges of a shortest walk, up to three |
| PresenceGraph.DistanceClassSymmetric | crates/annex-graph/src/lib.rs:434-458 | the distance class is the same in both directions |
| PresenceGraph.MutualExactly | crates/annex-graph/src/lib.rs:434-458 | two nodes see each other alike exactly when they are equal or too far apart, or the cap hides both or neither |
| PresenceGraph.OneSided | crates/annex-graph/src/lib.rs:434-458 | in a star with as many leaves as the cap the node behind a leaf sees the hub at two edges and the hub does not see it |
| PresenceGraph.GetVisibleProfile | crates/annex-graph/src/lib.rs:461-490 | metadata goes to the participant alone and the last-seen time exactly to the participant and direct neighbours; the level is that of the visibility check |
| ScalarField.ToBigEndianOfBigEndian | crates/annex-identity/src/commitment.rs:39-43 | a byte string is the only one of its length with its big-endian value |
| Commitment.CanonicalExactly | crates/annex-identity/src/commitment.rs:35-46 | the padded-bytes comparison succeeds exactly when the value was not reduced |
| Commitment.AcceptedExactly | crates/annex-identity/src/commitment.rs:26-46 | a key is accepted exactly when it is hexadecimal for 16 to 32 bytes with a value below the field modulus |
| Commitment.CommitmentText | crates/annex-identity/src/commitment.rs:50-59 | the commitment is 64 lower-case digits for the hash of the key's value, the role's number 1 to 5 and the node |
| Commitment.CommitmentBinds | crates/annex-identity/src/commitment.rs:39-57 | accepted keys commit equally when value, role and node agree, and equal commitments mean equal hash values of those three |
| TransferScope.RelayIsLeastScope | crates/annex-rtx/src/validation.rs:19-34 | relaying through any hops equals enforcing the least scope once |
| TransferScope.RelayOrderIrrelevant | crates/annex-rtx/src/validation.rs:19-34 | the order and repetition of hops do not matter |
| TransferScope.RelayKeeps | crates/annex-rtx/src/validation.rs:19-109 | denied exactly when some hop is NoTransfer; else only the reasoning chain can be lost, exactly when some hop is not full, and payload and both verdicts are the original's |
| TransferScope.RedactionNamesFirst | crates/annex-rtx/src/validation.rs:42-52 | passes exactly when no tag is redacted, else names the first redacted tag |
| TransferScope.ValidExactly | crates/annex-rtx/src/validation.rs:58-89 | valid exactly when six texts are not empty and the time is not zero, else the reason of the first check that fails |
| TransferScope.PayloadLines | crates/annex-rtx/src/validation.rs:91-109 | the payload of single-line fields has five lines, the fields in their order and the time, which reads back as decimal digits |
| TransferScope.UnambiguousExactly | crates/annex-rtx/src/validation.rs:91-109 | a bundle's payload determines its signed fields among all bundles exactly when its id, pseudonym, server and summary are single lines |
| TransferScope.ValidUnambiguousExactly | crates/annex-rtx/src/validation.rs:58-109 | a valid bundle's payload determines its signed fields among valid bundles exactly when no newline stands where a separator could be moved to |
| TransferScope.PayloadDetermines | crates/annex-rtx/src/validation.rs:91-109 | among bundles with single-line id, pseudonym and server, whatever their summaries, equal payloads mean equal signed fields |
| TransferScope.PayloadAmbiguousWithNewlines | crates/annex-rtx/src/validation.rs:96-97 | two structurally valid bundles with different fields and the same payload |
| Migrations.Connection.RunMigrationsFromList | crates/annex-db/src/migrations.rs:174-244 | result and database of a run for every list, script and injected failure |
| Migrations.RunsApplyPrefix | crates/annex-db/src/migrations.rs:192-243 | over any attempts with any failures, with n names tracked the state is exactly what the first n scripts make of the start one after the other, and the names are theirs in order |
| Migrations.SuccessCountsAndRepeats | crates/annex-db/src/migrations.rs:161-172 | a run succeeds exactly when no fault strikes it and every pending script gives a result; it returns the number newly applied, and a repeat returns 0 and changes nothing |
| Migrations.FailuresExactly | crates/annex-db/src/migrations.rs:174-244 | the bootstrap, a state query exactly when the scripts before it succeed, and else the first migration not yet applied, by name, whose script or transaction failed |
| Migrations.OneMigration | crates/annex-db/src/migrations.rs:213-235 | whatever a pending script does is kept whole with its name appended, or not at all |
| Migrations.SelfTrackingAlwaysFails | crates/annex-db/src/migrations.rs:302-337 | a script that records its own name, anywhere in the list and after any attempts and failures, is never tracked, and every run that knows it fails and leaves exactly what a run of the scripts before it leaves |
| EventLog.Log.EmitEvent | crates/annex-observe/src/store.rs:25-81 | appends one row with the server's next number, or changes nothing |
| EventLog.MaxSeq | crates/annex-observe/src/store.rs:91-98 | none exactly when the server has no row, else the number of one of its rows that none of them exceeds |
| EventLog.Log.NextSeq | crates/annex-observe/src/store.rs:91-98 | exceeds every number of the server and follows one of them, or is 1 when there is none |
| EventLog.EmitKeepsEmitted | crates/annex-observe/src/store.rs:41-66 | a log built by emitting stays one |
| EventLog.SequenceHasNoGaps | crates/annex-observe/src/store.rs:41-66 | each server's numbers are 1 to n without gaps, and the next is n + 1 |
| EventLog.BuildQuery | crates/annex-observe/src/store.rs:131-179 | for every filter the clauses, evaluated against the bound parameters, hold of exactly the matching rows; placeholders are numbered in order, the limit last |
| EventLog.OrderSorts | crates/annex-observe/src/store.rs:173 | ordering by number keeps every row as often as it occurs |
| EventLog.QueryEvents | crates/annex-observe/src/store.rs:126-202 | the matching rows by number, the first of them up to the filter's limit or 100; on an emitted log strictly increasing and in log order |
| EventTimes.TimeOrder | crates/annex-observe/src/store.rs:48 | ordering stamps field by field is ordering them by days and seconds of the Gregorian calendar |
| EventTimes.SinceSelects | crates/annex-observe/src/store.rs:161-165 | text order is time order between stamps, date order against a bare date, and strictly later dates against the ISO 8601 form, whatever follows its seconds |
| EventTimes.IsoSinceExactly | crates/annex-observe/src/store.rs:111-112 | with an ISO 8601 `since`, fraction and zone included, a row is dropped wrongly exactly from the denoted instant up to the midnight after the written date, and kept wrongly exactly from that midnight up to the instant |
| EventTimes.UtcSinceExactly | crates/annex-observe/src/store.rs:111-112 | without an offset a row is treated by its time exactly unless it is due on the written date |
| EventTimes.AlwaysRightExactly | crates/annex-observe/src/store.rs:111-112 | a filter treats every possible stamp by its time exactly when its instant is after the last second of the written date in UTC and not after the midnight that follows, if there are stamps after it |
| EventTimes.SameDayDropped | crates/annex-observe/src/store.rs:111-112 | an event at 23:00 fails a `since` of midnight of the same day |
| EventTimes.AheadDropped | crates/annex-observe/src/store.rs:111-112 | with an offset of +02:00 an event after the instant, on the date before the written one, is dropped |
| EventTimes.BehindKept | crates/annex-observe/src/store.rs:111-112 | with an offset of -02:00 an event before the instant is kept |
| EventPaging.PagesAreRuns | crates/annex-observe/src/store.rs:119-121 | each page is the matching rows from the first with the cursor's stamp on, cut to the limit |
| EventPaging.PagingReachesExactly | crates/annex-observe/src/store.rs:119-121 | while the clock runs forward, following the last stamps reaches every matching row exactly when no stamp has more rows than the limit and none but the last has as many |
| EventPaging.BurstNeverReached | crates/annex-observe/src/store.rs:119-121 | of more events in one second than the limit the last is on no page |
| EventPaging.SetBackNeverReached | crates/annex-observe/src/store.rs:119-121 | after a clock was set back, an event with a stamp of its own is on no page |
| PreviewCache.Cache.Lookup | crates/annex-server/src/api_link_preview.rs:450-461 | a hit exactly when the entry is there and younger than the time to live |
| PreviewCache.Cache.Store | crates/annex-server/src/api_link_preview.rs:513-540 | below capacity evicts nothing; at capacity a tenth rounded down, at least one, none newer than an entry kept; then stores the new entry |
| PreviewCache.RunsStayBounded | crates/annex-server/src/api_link_preview.rs:625-651 | over any interleaving the cache keeps its limit, has the entry just stored, and a hit returns the last value stored for its URL within the time to live |
| PreviewCache.UnevictedIsFound | crates/annex-server/src/api_link_preview.rs:450-461 | a stored URL that no later store evicted is still there |
| PreviewCache.EvictedAfterMany | crates/annex-server/src/api_link_preview.rs:520-531 | an entry is evicted only when at least the capacity less a tenth of other URLs were stored since |
| PreviewCache.RecentSurvives | crates/annex-server/src/api_link_preview.rs:450-461 | until then, over any run of stores, a lookup within the time to live hits with the URL's last value |

## Left out

- Share indices and data are bytes, as `split` makes them; other JavaScript numbers as indices are not modelled.
- The randomness of `split` is a parameter; what it must supply is threshold - 1 bytes per secret byte.
- `split` fills one two-dimensional buffer where the source fills one array per share.
- JavaScript strings are sequences of characters, not of UTF-16 units; this differs only outside hexadecimal text.
- Poseidon never fails in the model: two and three inputs are widths it supports.
- SQLite itself: tables are row sequences, a transaction is a copy that replaces the tables at the commit, and a
  commit that reports failure has stored nothing.
- The row id of `vrp_identities`, the timestamps, and the foreign key on role codes, which the role type satisfies.
- Registration runs one at a time, as the tree's lock makes it.
- Restoring with another depth than the tree was built with: a configuration change, outside the runs modelled.
- EventPaging.PagingReachesExactly: for a clock that runs backwards no criterion is given, only the input that shows
  the present one fails.
- ISO 8601 times in other than the extended form to the second with an optional decimal fraction and zone, such as
  week dates and reduced precision; and the local time zone that the standard gives a time without one, read as UTC.
- Text of SQL statements: a query is its list of clauses with placeholder numbers and its bound parameters.
- The two caches' bodies of one block are modelled once, generic in what is cached; DNS, fetching, HTML parsing and
  image responses are not modelled.
- The migration scripts shipped with the server: a script is any function of the database that may fail.
- Groth16 proofs, hashing internals, voice, federation handshakes, HTTP handlers and the user interface.
