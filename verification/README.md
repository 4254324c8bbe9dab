# SPACE: a verified model of the chunked, versioned file store

SPACE keeps files as immutable versions. A version names a manifest, a manifest maps byte ranges of
the file onto slices of content-addressed chunks, and the chunks live in an object store. This
project models the core of it in Dafny and proves what the parts promise together.

| file | what it models |
|---|---|
| `Model.dfy` | identities, content addresses, manifests, error codes |
| `Validation.dfy` | the ten structural manifest checks, and the tiling that they amount to |
| `ObjectStore.dfy` | the in-memory blob store with its fault hooks |
| `RangeRead.dfy` | one ranged chunk read: decimal Range header (the byte-range form of section 14.1.2 of RFC 9110), server, client |
| `Reassembly.dfy` | reading a whole file into one buffer |
| `Metadata.dfy` | the metadata store: its five maps, its requests and its invariant |
| `History.dfy` | all runs of the metadata store: invariant, growth, repeated requests, ancestry, current version |
| `Service.dfy` | uploads and reads interleaved at every lock acquisition, over both stores |
| `Faults.dfy` | arbitrary put, flip, truncate and delete runs, and what a read then reports |
| `Generators.dfy`, `Chunker.dfy` | the buffered byte stream and the chunker |
| `Corruptor.dfy` | the manifest mutations and their rejection |
| `EndToEnd.dfy` | the chain from file creation to read-back over the store objects |

Conventions. The hash is a parameter: every statement holds for every function from bytes to
digests. Where a statement needs that certain byte strings do not collide, it says which ones: for
the fault runs, other bytes offered or stored under the id of an original; for the whole chain, the
new bodies among themselves and with the stored ones. The service invariants, the frozen content and
the chunker need no such assumption. Machine words are bounded integers and every checked,
saturating, wrapping or narrowing operation is written out. Fresh ids and times are parameters. The
random generator is a function of seed, block number and position. Store objects are classes whose
methods update their maps in place and are tied to functions of the old state; the statements about
runs are about those functions.

Three promises do not hold as stated, and the exact condition is proved instead. Committed content
is readable if and only if every entry length fits 32 bits: the server narrows the length of a range
to 32 bits (cloud/api/src/lib.rs:268), so a valid manifest with a longer entry can be stored and
committed but never read (`Service.LargeFileIsCommittedButUnreadable`,
`Reassembly.ReassembleIntact`, `Service.CommittedContentIsFrozen`). For the same reason a request
for `bytes=k-` reaches the end of the object if and only if what is left there fits 32 bits;
otherwise the server answers with too few bytes and no error (`RangeRead.OpenRangeOutcome`,
`RangeRead.LargeObjectReadsAsNothing`). And a mutation of a manifest is not always rejected:
swapping an entry with itself, lowering a size of zero, overlapping a missing successor or
redirecting an entry to another chunk that could serve it leaves a valid manifest. Each mutation
lemma of `Corruptor.dfy` gives the exact condition.

ADR-0006 says that a commit re-validates all 13 invariants; the code runs the ten structural ones
(cloud/metadata/src/lib.rs:259), and the model follows the code. That the other three hold in every
reachable state is proved (`Metadata.CrossObjectRulesHold`,
`Metadata.CommitFailsOnlyForUnknownVersions`).

## Model

| member | source | states |
|---|---|---|
| `Model.FromBytesParses` | contracts/src/ids.rs:88-110 | every content address passes the parser |
| `Model.ChunkIdSyntax` | contracts/src/ids.rs:93-109 | the parser accepts exactly the prefix followed by 64 characters out of the ASCII digits and the letters a to f |
| `Model.CommittedIsTerminal` | contracts/src/model.rs:27-31 | a version changes state only from candidate to committed |
| `Model.ChunkSizeFindsFirst` | contracts/src/model.rs:96-101 | the lookup answers exactly for declared ids, with the size of the first declaration |
| `Validation.ValidationIsExact` | contracts/src/validate.rs:23-163 | validation accepts if and only if the entries are non-empty, ordered and cover each offset of the file exactly once and nothing else, every slice fits its chunk, the count matches, and ids are well-formed and mutually referenced |
| `Validation.TilesIffChained` | contracts/src/validate.rs:49-98 | covering each offset exactly once, in order, is the same as each entry starting at the sum of the lengths before it and the lengths adding up to the size |
| `Validation.LayoutIffChained` | contracts/src/validate.rs:49-114 | the five layout checks in 64-bit checked arithmetic accept exactly the chains; a genuine tiling is never refused for overflow |
| `Validation.DeadBranches` | contracts/src/validate.rs:63-72 | inside the full validation the overflow branch of rule 3 and the unknown-chunk branch of rule 8 are never reported |
| `Validation.OnlyTheLastLengthOverflows` | contracts/src/validate.rs:87-98 | when the length sum overflows, only the last addition did |
| `Validation.OrderDoesNotMatter` | contracts/src/validate.rs:23-35 | any order of the checks gives the same verdict and code, and rules 1 and 13 may be left out |
| `Validation.BreachIsGenuine` | contracts/src/validate.rs:23-163 | every rejection names a fault that the manifest has, stated for each branch of each rule without the checks |
| `Validation.LengthsSumToTotal` | contracts/src/validate.rs:87-98 | the accumulating loop accepts exactly when the unbounded sum is the size |
| `Validation.ValidateManifest` | contracts/src/validate.rs:23-35 | the full validation run accepts exactly the well-formed manifests and reports the first breach |
| `ObjectStore.PutIsExact` | objectstore/src/lib.rs:90-109 | a put never alters stored bytes, succeeds exactly when the bytes end up stored under their own address, and is then readable |
| `ObjectStore.HeadAfterPut` | objectstore/src/lib.rs:154-159 | after an accepted put the size lookup returns the size of the body, and other lookups are as before |
| `ObjectStore.GetIsExact` | objectstore/src/lib.rs:111-125 | bytes are returned if and only if they are stored under the id and match it; absence and mismatch have their own codes |
| `ObjectStore.GetRangeIsExact` | objectstore/src/lib.rs:127-152 | a slice read returns exactly the requested bytes, never fewer, and verifies a whole object; overflow, short object, absence and mismatch have their own codes |
| `ObjectStore.FlipIsExact` | objectstore/src/lib.rs:66-75 | a flip in range changes exactly the named byte of one object, keeps its length, and is undone by a second flip |
| `ObjectStore.TruncateIsExact` | objectstore/src/lib.rs:78-85 | a truncation leaves exactly the first bytes of one object and every other object as it was |
| `ObjectStore.DeleteIsExact` | objectstore/src/lib.rs:168-171 | a deletion removes the one object and leaves every other as it was |
| `ObjectStore.FakeObjectStore.Put` | objectstore/src/lib.rs:90-109 | the in-place put has the effect and answer of the put function |
| `ObjectStore.FakeObjectStore.Get` | objectstore/src/lib.rs:111-125 | the whole-object read verifies before it answers |
| `ObjectStore.FakeObjectStore.GetRange` | objectstore/src/lib.rs:127-152 | absent, overflow, short and unverified objects are reported in this order; otherwise the slice is returned |
| `ObjectStore.FakeObjectStore.Head` | objectstore/src/lib.rs:154-159 | the stored length, or not found |
| `ObjectStore.FakeObjectStore.CorruptForTest` | objectstore/src/lib.rs:66-75 | flips every bit of one stored byte in range; every other object is as before |
| `ObjectStore.FakeObjectStore.TruncateForTest` | objectstore/src/lib.rs:78-85 | cuts one stored object; every other object is as before |
| `ObjectStore.FakeObjectStore.Delete` | objectstore/src/lib.rs:168-171 | removes one object; every other object is still there with its bytes |
| `RangeRead.PrintThenParse` | cloud/api/src/lib.rs:285-298 | every 64-bit number printed in decimal parses back to itself |
| `RangeRead.RangeHeaderRoundTrip` | cloud/api/src/lib.rs:285-298 | a printed inclusive range parses back to its bounds for every stored size, and a backward range is refused |
| `RangeRead.ParseU64IsExact` | cloud/api/src/lib.rs:288-293 | a position is parsed exactly from the decimal numerals of 64-bit numbers: a plus sign or none, leading zeros, and the digits |
| `RangeRead.ParseRangeIsExact` | cloud/api/src/lib.rs:285-298 | a header is a range if and only if it is the unit, a numeral, a hyphen and a numeral or nothing, and does not run backwards; without a last position it ends with the object, and an empty object counts as one byte |
| `RangeRead.RangeExamples` | cloud/api/src/lib.rs:381-389 | the five headers of the server's own test have the results stated there |
| `RangeRead.OpenRangeOutcome` | cloud/api/src/lib.rs:253-279 | the answer to `bytes=k-`: from k to the end of the object if and only if what is left fits 32 bits; a longer rest is answered with a prefix of the narrowed length; a start past the end, an empty object and an unverified whole object have their codes |
| `RangeRead.LargeObjectReadsAsNothing` | cloud/api/src/lib.rs:268 | an intact object of 2^32 bytes, asked for from its start, is answered with no bytes |
| `RangeRead.RangeReadIsExactOrAnError` | client/core/src/lib.rs:126-160 | a ranged read is answered if and only if the slice is stored, non-empty, of 32-bit length and, when it is the whole object, verified; the answer is then exactly the slice, on every store |
| `RangeRead.RangeReadOutcome` | cloud/api/src/lib.rs:253-279 | what every ranged read returns: the slice when it can be answered, and otherwise the error for a malformed id, a failed size lookup, an empty range, an absent body, an unverified whole body or a range that does not fit |
| `RangeRead.WholeReadIsVerified` | cloud/api/src/lib.rs:260-264 | a request without a Range header returns bytes if and only if they are stored under the id and match it, and otherwise the code of the first thing that is wrong |
| `RangeRead.GetChunk` | cloud/api/src/lib.rs:253-279 | the server side over the store object, with or without a Range header: parse the id, look up the size, then read the verified whole or the narrowed range |
| `RangeRead.GetChunkRange` | client/core/src/lib.rs:126-160 | the client side over the store object answers exactly the readable slices |
| `Reassembly.ReassemblyIsConcatenation` | client/core/src/lib.rs:219-240 | on every store, a successful read is the entry-order concatenation of the named slices, of the declared size |
| `Reassembly.EveryByteIsWrittenByItsEntry` | client/core/src/lib.rs:219-240 | each output byte is the byte named by the one entry that covers it, so none keeps its initial zero |
| `Reassembly.FetchEntryOutcome` | client/core/src/lib.rs:224-236 | what fetching one entry returns on every store, told from the stored bytes: the slice, or absence, a mismatch with the address, or a length mismatch |
| `Reassembly.ReassemblyOutcome` | client/core/src/lib.rs:219-240 | what reading any manifest from any store returns: an ill-formed manifest is refused, the first faulty entry decides the error, and without a fault the answer is the content |
| `Reassembly.WholeChunksAreVerified` | client/core/src/lib.rs:228-236 | a file is returned only if every entry that covers a whole declared chunk has bytes with the address of that chunk, whatever the store holds |
| `Reassembly.WrongBytesAreReported` | client/core/src/lib.rs:228-236 | a whole-chunk entry with other bytes, after entries without fault, makes the read a hash mismatch |
| `Reassembly.ReassembleIntact` | client/core/src/lib.rs:219-240 | on an intact store the read returns the content if and only if every length fits 32 bits, and otherwise a length mismatch |
| `Reassembly.LargeEntryCannotBeRead` | cloud/api/src/lib.rs:268 | a valid manifest of one stored chunk of 2^32 bytes cannot be read back |
| `Reassembly.FetchAndVerify` | client/core/src/lib.rs:224-236 | one turn of the read loop: the answer is the slice, and for a whole declared chunk its bytes have the address of the chunk |
| `Reassembly.ReadEntries` | client/core/src/lib.rs:222-240 | the copying loop over the in-place buffer computes the specified read |
| `Reassembly.Reassemble` | client/core/src/lib.rs:219-240 | validate, then read; the answer is the specified one for every manifest and store, and whole chunks in it match their addresses |
| `Metadata.FileCreatedKeeps` | cloud/metadata/src/lib.rs:78-104 | file creation keeps the store invariant |
| `Metadata.ChunkRegisteredKeeps` | cloud/metadata/src/lib.rs:128-146 | chunk registration keeps the store invariant |
| `Metadata.ManifestPutKeeps` | cloud/metadata/src/lib.rs:148-179 | manifest publication keeps the store invariant |
| `Metadata.VersionCreatedKeeps` | cloud/metadata/src/lib.rs:191-240 | version creation keeps the store invariant |
| `Metadata.VersionCommittedKeeps` | cloud/metadata/src/lib.rs:242-269 | commit keeps the store invariant |
| `Metadata.CommitFailsOnlyForUnknownVersions` | cloud/metadata/src/lib.rs:242-269 | in a consistent store a commit is refused only for an unknown version; its other failure branches are dead; a first commit commits the version, moves the current version and the modification time of its file, and changes nothing else |
| `Metadata.FileCreatedIsExact` | cloud/metadata/src/lib.rs:78-104 | an illegal name is refused, a known key returns its file, and a new key stores a file with the given name and parent, without a current version, under the drawn id |
| `Metadata.ChunkRegisteredIsExact` | cloud/metadata/src/lib.rs:128-146 | a chunk is registered exactly if its id parses and it has no other size already; both refusals have their exact condition and change nothing |
| `Metadata.FaultIsTheFirst` | cloud/metadata/src/lib.rs:152-168 | the scan reports the first declared chunk that disagrees: not found if it is not registered, invalid manifest if its size differs |
| `Metadata.ManifestPutIsExact` | cloud/metadata/src/lib.rs:148-179 | a manifest is stored if and only if it is well-formed, its declared chunks are registered at their sizes and its id is not taken by another; it is then stored as it is; a refusal changes nothing and an ill-formed manifest is always refused as invalid |
| `Metadata.UnregisteredChunkIsReported` | cloud/metadata/src/lib.rs:152-168 | a well-formed manifest is refused by its first disagreeing chunk: not found if it is not registered, otherwise invalid |
| `Metadata.VersionCreatedIsExact` | cloud/metadata/src/lib.rs:191-240 | a version is created if and only if its file, manifest and same-file parent exist and its id is new or has the same content; it names exactly the file, parent and manifest it was given, starts as a candidate, and nothing else changes |
| `Metadata.VersionRefusals` | cloud/metadata/src/lib.rs:198-229 | each refusal code of version creation has its exact condition on the maps |
| `Metadata.RefusedManifestHasNoVersion` | tests/suites/tests/e2e_chain_negative.rs:132-166 | an ill-formed manifest is refused and no version can name its id |
| `Metadata.CommittedVersionIsExact` | cloud/metadata/src/lib.rs:271-277 | a lookup answers exactly the stored versions in the committed state; a candidate is answered as not found |
| `Metadata.CandidateIsInvisible` | cloud/metadata/src/lib.rs:285-320 | a new candidate is not found by readers, and its commit makes it visible with the file, parent and manifest it was created with |
| `Metadata.CrossObjectRulesHold` | contracts/src/validate.rs:181-208 | rules 11 and 12 pass for every file and version of a consistent store |
| `Metadata.CrossObjectRulesMean` | contracts/src/validate.rs:181-208 | what rules 11 and 12 accept, and which refusal has which code |
| `Metadata.DeclarationsAgree` | cloud/metadata/src/lib.rs:152-168 | in a stored manifest every declaration of a chunk has the registered size, so the first match is unambiguous |
| `Metadata.NoRegistrationFaultMeans` | cloud/metadata/src/lib.rs:152-168 | the registration scan passes exactly when every declared chunk is registered with that size |
| `Metadata.InMemoryMetadataStore.CreateFile` | cloud/metadata/src/lib.rs:78-104 | updates the two file maps in place as specified, never looking up a dead key; a new key stores a file with the given name and parent |
| `Metadata.InMemoryMetadataStore.RegisterChunk` | cloud/metadata/src/lib.rs:128-146 | updates the chunk map in place as specified |
| `Metadata.InMemoryMetadataStore.PutManifest` | cloud/metadata/src/lib.rs:148-179 | validates, scans the declared chunks and updates the manifest map as specified; an ill-formed manifest is refused as invalid, and an accepted one is well-formed and stored |
| `Metadata.InMemoryMetadataStore.CreateVersion` | cloud/metadata/src/lib.rs:191-240 | updates the version map in place as specified, with each refusal in order; the version names the given file, parent and manifest |
| `Metadata.InMemoryMetadataStore.CommitVersion` | cloud/metadata/src/lib.rs:242-269 | updates the version and file maps in place as specified |
| `Metadata.InMemoryMetadataStore.GetCurrentVersion` | cloud/metadata/src/lib.rs:271-277 | returns committed versions only; a candidate is not found |
| `History.RunsAreConsistent` | cloud/metadata/src/lib.rs:53-269 | every state of every run satisfies the invariant: keys match values, idempotency keys are live, versions have their file, manifest and same-file parent, manifests are valid and registered, current versions are committed |
| `History.ReachableStatesAreSafe` | cloud/metadata/src/lib.rs:242-269 | in every reachable state a commit is refused only for an unknown version and no version is its own parent |
| `History.ServeGrows` | cloud/metadata/src/lib.rs:78-269 | a refused request changes nothing; an accepted one only adds, apart from the step from candidate to committed |
| `History.RunsGrow` | cloud/metadata/src/lib.rs:53-269 | no later request loses or alters what an earlier state recorded |
| `History.RepeatIsHarmless` | cloud/metadata/src/lib.rs:78-269 | a request that succeeded, served again in any later state, succeeds with the same identity and changes nothing |
| `History.RepeatsDoNotMatter` | cloud/metadata/src/lib.rs:78-269 | a history with repeated requests ends in the same state as the one without them, which is a legal history too |
| `History.AncestryIsWellFounded` | cloud/metadata/src/lib.rs:205-229 | in every reachable state a line of ancestors has no repetition, stays in one file and is no longer than the number of versions |
| `History.CurrentIsLatestFirstCommit` | cloud/metadata/src/lib.rs:249-268 | a file has a current version exactly when one was committed, and it is the one whose first commit came last |
| `History.VisibleIffCommitted` | cloud/metadata/src/lib.rs:48 | in every run readers see a version if and only if it was committed at some point of the run |
| `History.AnswersAreStored` | cloud/metadata/src/lib.rs:78-269 | the answer to every accepted request is the object that is then stored under the requested identity, with the requested content |
| `History.RefusalsHaveReasons` | cloud/metadata/src/lib.rs:78-269 | every refusal of every request changes nothing and has its code for a condition on the state and the request |
| `Service.StepIsSound` | cloud/api/src/lib.rs:242-279 | every lock step of every request keeps the two stores in agreement and loses nothing |
| `Service.TwoStoreSafety` | cloud/api/src/lib.rs:242-251 | at every point of every interleaving a registered chunk is stored, addressed and of the registered size, and a pending registration cannot fail |
| `Service.RegistrationCannotFail` | cloud/metadata/src/lib.rs:131-139 | the size conflict is unreachable through uploads |
| `Service.UploadIsAnswered` | cloud/api/src/lib.rs:242-251 | the fate of an upload over every interleaving: addressed bytes without a conflict stay stored, and the upload is answered with the chunk, which stays registered, exactly once its registration has happened; any other upload stores nothing and has its refusal |
| `Service.StoredManifestIsIntact` | cloud/metadata/src/lib.rs:148-179 | everything that a stored manifest names is stored, addressed and sized as declared |
| `Service.CommittedContentIsFrozen` | client/core/src/lib.rs:219-240 | a read of a committed manifest, interleaved with any steps, cannot fail if every length fits 32 bits, and after two steps of its own for each entry it has finished with the bytes named when the version was first seen committed; otherwise it can only report a length mismatch |
| `Service.ReadsAdvance` | client/core/src/lib.rs:223-239 | an unfinished read can always take its next step, which brings it closer to its end, and no other request touches it |
| `Service.OwnStepsCount` | client/core/src/lib.rs:223-239 | over any interleaving each step of the read itself lowers what it still needs, whatever the others do |
| `Service.ReadsAreAtomic` | client/core/src/lib.rs:219-240 | a read of any manifest, interleaved with anything, answers what an uninterrupted read would have answered at its end or, for a missing chunk, at its start |
| `Service.AnyBodyCanBeCommitted` | cloud/metadata/src/lib.rs:128-269 | every non-empty body can be uploaded, published and committed from the empty service |
| `Service.LargeFileIsCommittedButUnreadable` | cloud/api/src/lib.rs:268 | a reachable service state holds a committed file of one 2^32-byte chunk that cannot be read |
| `Faults.FaultsNeverLengthen` | objectstore/src/lib.rs:66-171 | under any run of puts, flips, truncations and deletions no stored body outgrows its original |
| `Faults.FaultsAreClassified` | objectstore/src/lib.rs:66-171 | after any such run a read of whole chunks returns the originals if and only if every referenced chunk is as it was, and otherwise the error of the first one that is not; only bytes that pass for an original are excluded |
| `Faults.SingleFaultIsReported` | tests/suites/tests/e2e_chain_negative.rs:55-130 | a flip, truncation or deletion of any chunk of a readable file makes its read fail, each with its own code |
| `Faults.FaultElsewhereIsHarmless` | tests/suites/tests/e2e_chain_negative.rs:45-53 | a file that does not use a chunk is read the same, whatever is done to that chunk |
| `Faults.ReadDependsOnItsChunks` | client/core/src/lib.rs:219-240 | a read depends on the chunks that its manifest references and on nothing else in the store |
| `Faults.ReuploadHealsDeletionOnly` | objectstore/src/lib.rs:90-109 | a repeated upload restores a deleted chunk and is refused for a flipped or truncated one |
| `Generators.FillPieces` | tests/generators/src/lib.rs:28-63 | consecutive fills of any lengths on one buffered stream hand out the bytes of a single fill of their sum |
| `Generators.ByteStream.Refill` | tests/generators/src/lib.rs:50-56 | drawing a block replaces zero bytes and keeps the position |
| `Generators.ByteStream.Fill` | tests/generators/src/lib.rs:47-62 | the buffered loop hands out exactly the next bytes of the stream and terminates |
| `Generators.GenerateFile` | tests/generators/src/lib.rs:99-103 | the file is the first bytes of the stream and holds no zero byte |
| `Generators.GenerateFileStreaming` | tests/generators/src/lib.rs:108-119 | for every positive block size the pieces, none empty or longer than a block, join to the same file |
| `Chunker.ChunkCountIsCeiling` | tests/generators/src/lib.rs:128-131 | the count is the least number of chunks that covers the file |
| `Chunker.MadeIsValid` | tests/generators/src/lib.rs:151-180 | the built manifest passes validation, with merged chunks and even with colliding ones |
| `Chunker.GenerateManifest` | tests/generators/src/lib.rs:137-181 | runs exactly the counted turns without underflow; the manifest is valid, declares no chunk twice, each entry names its own body, and the bodies join to the generated file |
| `Corruptor.SwapIsCaught` | tools/corruptor/src/lib.rs:29-31 | a swap is rejected exactly when the two entries differ in position |
| `Corruptor.DropIsCaught` | tools/corruptor/src/lib.rs:34-38 | a drop is rejected exactly when there was an entry to drop |
| `Corruptor.SizeChangeIsCaught` | tools/corruptor/src/lib.rs:41-43 | a size change is rejected exactly when it is a change |
| `Corruptor.CountChangeIsCaught` | tools/corruptor/src/lib.rs:46-48 | a count change is rejected exactly when it is a change |
| `Corruptor.GapIsCaught` | tools/corruptor/src/lib.rs:52-57 | an opened gap is always rejected |
| `Corruptor.OverlapIsCaught` | tools/corruptor/src/lib.rs:60-64 | an overlap is rejected exactly when there is a successor to move |
| `Corruptor.DanglingIsCaught` | tools/corruptor/src/lib.rs:68-72 | a redirected entry is rejected exactly when it changed and could not have named the new chunk; always when the new id is not declared |
| `Corruptor.ZeroLengthIsCaught` | tools/corruptor/src/lib.rs:75-85 | an appended empty entry is rejected exactly when there was an entry to copy |
| `Corruptor.DamageIsCaught` | tools/corruptor/src/lib.rs:29-85 | every mutation of every valid manifest is rejected, except exactly the harmless ones |
| `Corruptor.SwapEntries` | tools/corruptor/src/lib.rs:29-31 | exchanges the two entries in place; says when a valid manifest is still valid afterwards |
| `Corruptor.DropEntry` | tools/corruptor/src/lib.rs:34-38 | removes the entry in place and leaves size and count stale; says when a valid manifest is still valid afterwards |
| `Corruptor.AlterTotalSize` | tools/corruptor/src/lib.rs:41-43 | wide addition, floor at zero, cut to 64 bits; says when a valid manifest is still valid afterwards |
| `Corruptor.AlterChunkCount` | tools/corruptor/src/lib.rs:46-48 | wide addition, floor at zero, cut to 64 bits; says when a valid manifest is still valid afterwards |
| `Corruptor.IntroduceGap` | tools/corruptor/src/lib.rs:52-57 | the loop pushes every later entry by one and the size with them; says when a valid manifest is still valid afterwards |
| `Corruptor.IntroduceOverlap` | tools/corruptor/src/lib.rs:60-64 | pulls the next entry back by one, saturating; says when a valid manifest is still valid afterwards |
| `Corruptor.DangleChunkRef` | tools/corruptor/src/lib.rs:68-72 | replaces the chunk id of one entry; says when a valid manifest is still valid afterwards |
| `Corruptor.InsertZeroLengthEntry` | tools/corruptor/src/lib.rs:75-85 | appends an empty entry after the last one and counts it; says when a valid manifest is still valid afterwards |
| `EndToEnd.AppState.PutChunk` | cloud/api/src/lib.rs:242-251 | the uninterrupted upload keeps the stores in agreement and succeeds if and only if the id addresses the bytes and no other bytes are stored there; the bytes are then stored and registered; a refusal has its code and changes nothing |
| `EndToEnd.UploadAll` | tests/suites/tests/e2e_chain_happy.rs:23-35 | all bodies of a file are uploaded and registered |
| `EndToEnd.CorruptionIsRefused` | tests/suites/tests/e2e_chain_negative.rs:132-192 | a mutated manifest is refused by the store and by the client, and no version can name it |
| `EndToEnd.Publish` | tests/suites/tests/e2e_chain_happy.rs:37-51 | publishing, creating and committing a version of an uploaded manifest succeeds; the committed version names the file and the manifest, and the file points at it |
| `EndToEnd.RunChain` | tests/suites/tests/e2e_chain_happy.rs:14-67 | from every sound service state the chain returns the generated file for every size, seed and 32-bit chunk size; the file has the given name and points at the committed version, which names the stored manifest that reads back as that file |

## Left out

- HTTP, routing, JSON, request ids, health and shutdown: plumbing; a client call is a direct step on the server state and only the Range header text is kept.
- BLAKE3, UUIDv7, ChaCha8 and clocks: an arbitrary hash, fresh-id and time parameters, and an arbitrary block function stand for them.
- Integer overflow panics: a header whose range spans all 2^64 offsets makes `end - start + 1` overflow on the server; the model lets the sum wrap, as a build without overflow checks does. The client read, the gap mutation and the zero-length mutation carry the bound of their unchecked additions as a precondition.
- Request body limits: the sources do not raise the web framework's default limit on the body of a chunk upload, so over HTTP large chunks are refused before the handler; the model starts at the handler.
- Content-Range and the other response headers: the model keeps the bytes of an answer.
- `get_file`, `get_manifest`, `list_children`, `exists`: plain lookups that would only add easy members.
- The check that path and body name the same manifest, and the parsing of prefixed ids: single comparisons.
- Error texts, retryability, origin, status codes: finite tables; the model keeps the code, and in validation the rule that was broken.
- Fairness: the service may leave any request unfinished; what is proved is safety, and that a read finishes once it has taken enough steps of its own.
- `flip_byte`, `truncate` and `extend` on plain buffers, `generate_tree`, `with_seed`, fault points, configuration, start-up, logging and redaction: easy members or plumbing.
- Lock poisoning, memory exhaustion and 32-bit machine words.
