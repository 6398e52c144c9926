# Verified model of the IronMaint artifact store, budgets, parsers and orders

A Dafny model of the parts of IronMaint whose correctness is not visible from
one function at a time, with proofs of what those parts are for.

- **Artifact store.** `StoreProtocol` is a transition system: writers, readers,
  processes and sweeps, one file-system operation a step, files as inodes, so
  that a run is any interleaving, with process death at any point.
  `ArtifactStore` is the store as one process calls it: a class with the disk
  as its state and the read/hash/write loop as a loop. `StoreRefinement` ties
  the two together: an undisturbed put of the class is a legal run of the
  protocol from any reachable state, and ends in the same disk.
  `BoundedCapture`, `Digests` and `ArtifactPaths` are the byte cap, the hex
  digests and the layout.
- **Artifact budget.** `GuardProtocol` has any number of threads inside
  `try_record`, one atomic operation a step, and `GuardLinearization` says which
  of its histories a sequential guard could have produced. `GuardCacheProtocol`
  adds the per-job cache, and `JobGuard` the objects as one thread uses them.
- **Candidate fingerprint.** `Fingerprint`: the length-prefixed preimage.
- **Text formats.** `CommaList` (relationship lists, section 7.1 of Debian
  Policy), `Changelog` (section 4.4 of Debian Policy), `Dep3` (patch headers,
  DEP-3) and `DaemonConfig` (the daemon's arguments and environment), over the
  string operations in `Text` and `Decimal`.
- **Orders and windows.** `FedoraVersion`, `PolicyDelta` and `RateLimiter`.

Code that works by changing things step by step is a method with loops or a
class, proved equal to a function of its inputs or of the old state; the
theorems are then about that function. Hash functions (SHA-256 of FIPS 180-4,
BLAKE3), the version order of `debversion`, the address parser, the environment
and the file tests of the daemon are parameters, so the theorems hold for
every choice of them. That there are no collisions is a premise of the lemmas
that need it, about the byte strings at hand, and of no other.

## Where code and promise differ

The model follows the code. Where a promise fails, the exact condition under
which it holds is proved.

- The module comment of `artifact_guard.rs` (lines 13-16) says that the count
  bump survives a refusal for bytes. The code (lines 112-119) takes it back, and
  `GuardProtocol.LoggedCallsLinearize` has such a call leave no trace.
- Byte refusals and successes always linearize; count refusals need not. A count
  refusal means that every slot was taken at that instant, possibly by a call
  that is itself refused afterwards (`CountRejectionIff`; a concrete
  interleaving is `CountRejectionIsNotSequential`). A single one has a
  sequential place if and only if max_count of the calls made before it returned
  end up recorded (`RefusalHasPlaceIff`). A history as a whole has a sequential
  order if and only if, moreover, no call refused for bytes was made after it
  returned (`LinearizesIff`). All runs have one if and only if there are no
  slots at all or no byte cap (`EveryRunLinearizesIff`).
- `put_bytes` and `put_stream` do not look into a file that is already under the
  final path. If it is corrupt they still return Ok, and `get` then fails:
  `ArtifactStore.PutThenGet` says exactly when. In `StoreProtocol`, where all
  files come from the store itself, this cannot happen (`OkIsForever`).
- The comment in `config.rs` (lines 323-325) promises all missing paths in one
  go; the code returns at the first. Every missing path is named if and only if
  not both are missing (`DaemonConfig.AllMissingNamedIff`, which also covers the
  errors that come before; an input is `MissingDirectoryGoesUnnamed`).
- A Fedora epoch of 2^32 or more reads as zero (`FedoraVersion.ParsePrinted`);
  an appended `.fc` tag is invisible to the order only under the condition of
  `TagIsInvisibleIff`; stripping tags is not idempotent (`StrippingTwiceIff`).
- `report.rs` (lines 1016-1018) says that `BelowBaseline` means strictly older.
  Since `AtBaseline` is decided by spelling, it does if and only if the declared
  version is not the baseline in another spelling (`PolicyDelta.BelowIsOlderIff`;
  an input is `BelowIsNotAlwaysOlder`). On a rising checklist the entries of the
  report are not affected (`OnlyOlderHasEntries`).
- `report.rs` (lines 1007-1008) says that the verdict above the baseline is Fail;
  the code reports an infrastructure error (`PolicyDelta.Run`).
- The preimage of the fingerprint stays uniquely decodable even when the URL is
  2^32 bytes or longer and its length prefix wraps: the four fields before it
  are bounded, and the two after it have one of two lengths. It does not contain
  the hash algorithms, so object ids that were deserialised rather than
  constructed can differ and share it: `IdentityIsPreimageAndAlgorithms` is the
  statement for arbitrary ids.

## Model

| member | source | states |
|---|---|---|
| StoreProtocol.StepKeepsInv | crates/ironmaint-artifacts/src/writer.rs:84-198 | Each single step of a put, a read, a sweep, a process start or a process death keeps the whole invariant: no two paths share a file, final files are complete, each live writer owns its file and holds what its policy keeps of the input, every acknowledged digest is present |
| StoreProtocol.RunKeepsInv | crates/ironmaint-artifacts/src/writer.rs:84-198 | Every legal sequence of steps, of any length and interleaving, keeps that invariant |
| StoreProtocol.FinalFilesAreComplete | crates/ironmaint-artifacts/src/lib.rs:8-14 | In every reachable state each file under a final path hashes to the digest in its name, and no live writer can still write to it |
| StoreProtocol.LiveTempPathsDiffer | crates/ironmaint-artifacts/src/writer.rs:97-100 | No two live writers, of one process or of several, share a temp path |
| StoreProtocol.OpenedFileIsPrivate | crates/ironmaint-artifacts/src/writer.rs:103-108 | Opening with create and truncate empties a file that no other path, writer or reader has, even when a dead process of the same id left one under that name |
| StoreProtocol.StagingStaysWithinCap | crates/ironmaint-artifacts/src/writer.rs:145-154 | At every step, the file in staging holds no more bytes than the cap of its writer |
| StoreProtocol.RenameKeepsInv | crates/ironmaint-artifacts/src/writer.rs:175-197 | Renaming keeps the invariant even onto a path that another writer of the same digest has filled since the exists check |
| StoreProtocol.FinalPathsStay | crates/ironmaint-artifacts/src/store.rs:311-327 | A final path that exists is there after every further run of the store |
| StoreProtocol.OkIsForever | crates/ironmaint-artifacts/src/store.rs:256-261 | Once a put has returned Ok, after any further puts, failures, deaths and sweeps its path is present, a fetch can start, and the content hashes to the digest and is what was put unless it collides with it |
| StoreProtocol.PutsKeepToPolicy | crates/ironmaint-artifacts/src/writer.rs:110-168 | For any split into reads, an Ok truncating put kept exactly the first min(limit, total) bytes, an Ok rejecting put all of them, within the cap; a put is to be refused if and only if it may not cut and has read more than the cap |
| StoreProtocol.FetchesVerify | crates/ironmaint-artifacts/src/reader.rs:28-53 | A read that reaches the end of its file, whatever goes on meanwhile, has bytes that hash to the digest asked for |
| StoreProtocol.DeathTouchesNoFile | crates/ironmaint-artifacts/src/lib.rs:8-14 | A process can die at any moment; exactly its own puts end, and no file, other process or other put is touched |
| StoreProtocol.RenameReplaces | crates/ironmaint-artifacts/src/writer.rs:187-197 | A rename is possible whenever the temp file is there, replaces whatever the final path leads to, and leaves every other path alone |
| StoreProtocol.PutsMayFail | crates/ironmaint-artifacts/src/writer.rs:115-198 | An aborted or failing put ends where it is and leaves its file; a write may stop after any part |
| StoreRefinement.PutIsARun | crates/ironmaint-artifacts/src/writer.rs:84-198 | From any reachable state, with anything else in flight, an undisturbed put that is accepted is a legal run that acknowledges the digest of what the policy keeps, leaves the disk that ArtifactStore's contracts give, and touches no other writer or reader |
| StoreRefinement.BrokenPutIsARun | crates/ironmaint-artifacts/src/writer.rs:115-126 | So is one whose input breaks off: nothing is acknowledged, and the partial file stays, as ArtifactStore says |
| StoreRefinement.RefusedPutIsARun | crates/ironmaint-artifacts/src/writer.rs:145-154 | So is one over its cap, for any chunking: nothing is acknowledged, and the temp file is gone, as ArtifactStore says |
| StoreRefinement.OpenIsARun | crates/ironmaint-artifacts/src/store.rs:82-85 | A process that starts and opens the store is a legal run of sweeps, whatever else is in flight, that leaves the disk of `OpenWith`: every partial file is gone and nothing else has changed |
| StoreRefinement.GetIsARun | crates/ironmaint-artifacts/src/reader.rs:28-53 | From any reachable state a fetch is possible exactly when `get` finds a file; undisturbed it reads what `get` returns and leaves the store as it was |
| BoundedCapture.AcceptedExtendsKept | crates/ironmaint-artifacts/src/writer.rs:145-146 | Cutting chunk by chunk keeps what cutting the whole input would |
| BoundedCapture.AcceptedAllIff | crates/ironmaint-artifacts/src/writer.rs:147-154 | While nothing has been cut, a chunk overflows if and only if the input as a whole does |
| ArtifactStore.ArtifactStore.OpenWith | crates/ironmaint-artifacts/src/store.rs:82-85 | Opening a store removes exactly the orphan partial files of staging |
| ArtifactStore.ArtifactStore.SweepStaging | crates/ironmaint-artifacts/src/store.rs:311-327 | The disk afterwards is the disk before without the partial files of staging, all else unchanged |
| ArtifactStore.ArtifactStore.Append | crates/ironmaint-artifacts/src/writer.rs:161-167 | The accepted part of a chunk, and nothing when nothing was accepted, is appended to the hasher's input and to the temp file, and nothing else changes |
| ArtifactStore.ArtifactStore.CopyChunks | crates/ironmaint-artifacts/src/writer.rs:110-168 | The loop ends over the cap if and only if it may not cut and the whole input does not fit; otherwise file and hasher hold exactly what the cap keeps of the whole input, and the observed count is the total |
| ArtifactStore.ArtifactStore.Write | crates/ironmaint-artifacts/src/writer.rs:84-198 | Result and disk after a put as a function of the whole input, for every chunking, broken stream and existing final file |
| ArtifactStore.StagingCounter.FetchAdd | crates/ironmaint-artifacts/src/writer.rs:22-22 | Returns the old counter and steps it modulo 2^64 |
| ArtifactStore.ArtifactStore.PutBytes | crates/ironmaint-artifacts/src/store.rs:107-117 | Ok if and only if the bytes fit the cap; then the record names their digest and size and they are stored; a refusal reports a count beyond the cap and leaves no file |
| ArtifactStore.ArtifactStore.PutBytesTruncating | crates/ironmaint-artifacts/src/store.rs:131-173 | Always stores exactly the first min(limit, total) bytes, under their digest; the report names the limit, the total as observed, and what was stored, and says truncated if and only if the total is beyond the limit |
| ArtifactStore.ArtifactStore.PutStream | crates/ironmaint-artifacts/src/store.rs:184-205 | Ok if and only if the stream is unbroken and fits; then record and disk are those of a batch put of the same bytes; a broken stream leaves its partial file, a refused one none |
| ArtifactStore.ArtifactStore.PutStreamTruncating | crates/ironmaint-artifacts/src/store.rs:217-254 | The same for an unbroken stream in any chunks, with the smaller of limit and store cap as the limit and the number of bytes the stream produced as observed; a broken stream leaves what was kept so far in its temp file |
| ArtifactStore.ArtifactStore.Get | crates/ironmaint-artifacts/src/store.rs:256-261 | What is read back under a digest is the content of its path if that hashes to the digest, and an error otherwise |
| ArtifactStore.ArtifactStore.ReadAll | crates/ironmaint-artifacts/src/reader.rs:28-53 | For arbitrary disk contents: Ok if and only if the file is there and hashes to the digest asked for, and then its exact bytes |
| ArtifactStore.StoredFiles | crates/ironmaint-artifacts/src/writer.rs:175-197 | After a put, for every path: the temp file is gone, the kept bytes are under the final path unless a file was there, and every other file is as it was |
| ArtifactStore.Truncating | crates/ironmaint-artifacts/src/store.rs:241-253 | In a report, observed is the total, stored the smaller of limit and total, and truncated holds if and only if fewer bytes were stored than observed, that is, if and only if bytes were lost |
| ArtifactStore.PutBothWays | crates/ironmaint-artifacts/src/store.rs:107-205 | The same bytes, put in one go into one store and streamed in any chunks into another in the same state, are accepted by both or by neither, with the same record and the same disk |
| ArtifactStore.PutTruncatingBothWays | crates/ironmaint-artifacts/src/store.rs:131-254 | The truncating puts of the same bytes give the same record and disk if and only if the store's cap cuts no more than the limit, and the same report if and only if the cap is not below the limit |
| ArtifactStore.BatchAndStreamAgree | crates/ironmaint-artifacts/src/store.rs:233-254 | The same for the records, reports and kept bytes as functions of the input |
| ArtifactStore.PutThenGet | crates/ironmaint-artifacts/src/store.rs:107-261 | After an Ok put, get succeeds if and only if no corrupt file was under the final path before, and then returns the bytes put unless two inputs collide |
| ArtifactStore.OtherDigestsKeep | crates/ironmaint-artifacts/src/store.rs:256-327 | Neither a put of other bytes nor a sweep changes what any digest reads back |
| Digests.HexDigestsAreFaithful | crates/ironmaint-artifacts/src/hash.rs:38-93 | The hex form of 32 bytes always passes from_hex, is one to one, and reaches every accepted string |
| Digests.FromHex | crates/ironmaint-artifacts/src/hash.rs:38-48 | Accepts exactly the strings of 64 lowercase hex digits, unchanged |
| Digests.UnhexHex | crates/ironmaint-artifacts/src/hash.rs:87-93 | Decoding the hex form of any bytes gives the bytes back |
| Digests.HexUnhex | crates/ironmaint-artifacts/src/hash.rs:87-93 | Every lowercase hex string of even length is the hex form of its decoding |
| Digests.FormatHexLower | crates/ironmaint-artifacts/src/hash.rs:87-93 | The formatting loop computes that hex form |
| Digests.HexLowerAt | crates/ironmaint-artifacts/src/hash.rs:87-93 | Each byte appears as its high and then its low half, in the digits 0 to 9 and a to f |
| Digests.Sha256Writer.Update | crates/ironmaint-artifacts/src/hash.rs:78-80 | Absorbs the bytes after what was absorbed before |
| Digests.Sha256Writer.Finalize | crates/ironmaint-artifacts/src/hash.rs:82-84 | The digest is that of all that was absorbed, however it was split |
| ArtifactPaths.TempNameInjective | crates/ironmaint-artifacts/src/writer.rs:97-100 | Different process ids or sequence numbers give different temp names |
| ArtifactPaths.LayoutIsFaithful | crates/ironmaint-artifacts/src/path.rs:31-47 | Different store files have different paths; a path lies under staging, at whatever depth, if and only if it is a partial file's; and a sweep takes the partial files and no final file |
| ArtifactPaths.FinalPathShape | crates/ironmaint-artifacts/src/path.rs:36-47 | A digest lies under its first two digits and, below that, its next two, under its full name |
| ArtifactPaths.SweepableIff | crates/ironmaint-artifacts/src/store.rs:311-327 | A sweep goes for exactly the entries of staging whose name ends in ".partial" |
| GuardProtocol.StepKeepsInv | crates/ironmaint-executor/src/artifact_guard.rs:112-161 | Every load, compare-and-swap and roll-back of any thread keeps: count is completed successes plus slots held, bytes is the (saturated) sum of the accepted sizes, both within their caps, and the calls so far replay on a sequential guard |
| GuardProtocol.RunKeepsInv | crates/ironmaint-executor/src/artifact_guard.rs:112-161 | So does every interleaving of any number of threads |
| GuardProtocol.LoadsAreCurrent | crates/ironmaint-executor/src/artifact_guard.rs:121-142 | A load that does not decide the call notes the value of its counter and changes nothing else |
| GuardProtocol.CountSwapIff | crates/ironmaint-executor/src/artifact_guard.rs:131-137 | The exchange of the count goes through, adding one, if and only if the count is still what was loaded; otherwise the thread loads again and nothing has changed |
| GuardProtocol.BytesSwapIff | crates/ironmaint-executor/src/artifact_guard.rs:153-160 | In a reachable state the exchange of the bytes goes through if and only if they are still what was loaded: the bytes become the saturated sum and the call returns recorded |
| GuardProtocol.CallIsARun | crates/ironmaint-executor/src/artifact_guard.rs:112-161 | From any reachable state, with any other calls in flight, an undisturbed call of an idle thread is a legal run that returns, with the outcome and counters that `try_record` promises for the counters it finds, and touches no other thread |
| GuardProtocol.CapsHold | crates/ironmaint-executor/src/artifact_guard.rs:112-161 | In every reachable state neither counter exceeds its cap, and the roll-back subtraction never wraps |
| GuardProtocol.QuiescentUsage | crates/ironmaint-executor/src/artifact_guard.rs:112-119 | With no call in flight, count is the number of Ok results and bytes the sum of their sizes, saturated only if the byte cap is the largest u64 |
| GuardProtocol.LoggedCallsLinearize | crates/ironmaint-executor/src/artifact_guard.rs:112-161 | Ordered by their last byte operation, the successful and the byte-refused calls are a sequential history with exactly those outcomes and that usage |
| GuardProtocol.ByteRejectionIff | crates/ironmaint-executor/src/artifact_guard.rs:140-152 | A call is refused for bytes at its load if and only if the accepted bytes plus n exceed the cap at that instant |
| GuardProtocol.CountRejectionIff | crates/ironmaint-executor/src/artifact_guard.rs:121-130 | A call is refused for count at its load if and only if at that instant max_count slots are taken by successes and calls in flight; the guard without the calls in flight would refuse at that instant too if and only if there are none |
| GuardProtocol.CountRejectionIsNotSequential | crates/ironmaint-executor/src/artifact_guard.rs:112-138 | A concrete interleaving of two calls in which a count refusal has no place in any sequential order of the two |
| GuardLinearization.LinearizesIff | crates/ironmaint-executor/src/artifact_guard.rs:112-161 | For every run and every set of its decided calls that leaves out no recorded one: there is a sequential order with the same outcomes that respects which call returned before which was made, if and only if, for each refusal for count in the set, max_count calls end up recorded and none of the set that got past the count check was made after the refusal returned |
| GuardLinearization.RefusalHasPlaceIff | crates/ironmaint-executor/src/artifact_guard.rs:112-138 | A refusal for count has a place among the recorded calls if and only if max_count of the calls made before it returned end up recorded |
| GuardLinearization.WithoutByteRefusals | crates/ironmaint-executor/src/artifact_guard.rs:112-161 | A completed run in which no call is refused for bytes has a sequential order as a whole |
| GuardLinearization.EveryRunLinearizesIff | crates/ironmaint-executor/src/artifact_guard.rs:112-161 | Every completed run has a sequential order if and only if max_count is zero or max_bytes is the largest u64 |
| GuardLinearization.EveryCallIsDecided | crates/ironmaint-executor/src/artifact_guard.rs:112-119 | The history of a completed run has each of its calls, and each once |
| GuardProtocol.FailedSwapHasWitness | crates/ironmaint-executor/src/artifact_guard.rs:131-160 | A compare-and-swap that fails since its load points at a step of another thread that changed that counter in between |
| GuardCacheProtocol.FirstLookupDecides | crates/ironmaint-executor/src/artifact_guard.rs:228-248 | The first lookup of a job gives it what the factory hands out, a new guard or one handed out before, and changes no other guard |
| GuardCacheProtocol.EachJobRunsAlone | crates/ironmaint-executor/src/artifact_guard.rs:222-248 | In any interleaving of lookups and recordings over many jobs, a job keeps its guard and its caps, and the guard behaves as the calls made on it alone would make it; these are the job's own calls if no other job has come to share the guard |
| GuardCacheProtocol.CapsOutliveCalls | crates/ironmaint-executor/src/artifact_guard.rs:184-196 | From any moment at which a job has its guard, over the rest of the life of the process, the count and, below the largest u64 cap, the bytes recorded on that guard stay within the caps it has at that moment, whatever the factory mints or shares |
| JobGuard.JobArtifactGuard.constructor | crates/ironmaint-executor/src/artifact_guard.rs:64-74 | A new guard has its caps and no usage |
| JobGuard.JobArtifactGuard.FromConfig | crates/ironmaint-executor/src/artifact_guard.rs:77-85 | The caps are those of the limits configuration |
| JobGuard.JobArtifactGuard.TryRecord | crates/ironmaint-executor/src/artifact_guard.rs:112-119 | Outcome and usage are those of the sequential guard; a refusal of either kind changes neither counter; the caps keep holding |
| JobGuard.JobArtifactGuard.TryBumpCount | crates/ironmaint-executor/src/artifact_guard.rs:121-138 | Takes a slot if and only if one is free |
| JobGuard.JobArtifactGuard.TryBumpBytes | crates/ironmaint-executor/src/artifact_guard.rs:140-161 | Adds n, saturating, if and only if the result is within the cap |
| JobGuard.GuardCache.Get | crates/ironmaint-executor/src/artifact_guard.rs:228-248 | A known job gets the very guard it got before; an unknown one gets the guard that the factory hands out, which is remembered, and no other entry changes |
| Fingerprint.ObjectIdsAreCanonical | crates/ironmaint-core/src/digest.rs:175-182 | An object id is made exactly of hex strings of the algorithm's length, in lowercase, and its length determines the algorithm |
| Fingerprint.NewObjectIdIff | crates/ironmaint-core/src/digest.rs:24-182 | An id is accepted if and only if it has 40 or 64 characters, by algorithm, all hex digits in either case; it keeps its digits in lower case |
| Fingerprint.ComputeFingerprint | crates/ironmaint-core/src/candidate.rs:113-139 | The hashing loop absorbs exactly the namespaced, length-prefixed preimage |
| Fingerprint.PreimageLayout | crates/ironmaint-core/src/candidate.rs:127-133 | The preimage is the namespace and then family, release, name, version, URL, commit and tree in that order, each at its offset behind its length, and nothing else |
| Fingerprint.NamespaceIsText | crates/ironmaint-core/src/candidate.rs:44-44 | The namespace is the text ironmaint-candidate-v1 and a zero byte |
| Fingerprint.Le32Value | crates/ironmaint-core/src/candidate.rs:130-130 | A length is written modulo 2^32, lowest byte first |
| Fingerprint.NewCandidateIsBuilt | crates/ironmaint-core/src/candidate.rs:180-201 | The constructor keeps its arguments and has no parent; its candidates have the premise of the results here if and only if their parts are valid |
| Fingerprint.PreimageInjective | crates/ironmaint-core/src/candidate.rs:113-139 | For ids and labels that went through their constructors, equal preimages force equal family, release, name, version, URL, commit and tree, and the Git hash algorithms, even where the length prefix of the URL wraps |
| Fingerprint.IdentityIsPreimageAndAlgorithms | crates/ironmaint-core/src/candidate.rs:113-139 | For any two candidates with fields below 2^32 bytes, constructed or deserialised: all fields and algorithms agree if and only if the preimages do and the algorithms do |
| Fingerprint.AlgorithmIsNotHashed | crates/ironmaint-core/src/digest.rs:163-182 | Two ids with the same digits and different algorithms share a preimage, and they are not both valid |
| Fingerprint.FingerprintIdentifies | crates/ironmaint-core/src/candidate.rs:107-139 | Without a collision, two candidates have the same fingerprint if and only if all those fields agree |
| Fingerprint.RevisionKeepsFingerprintIff | crates/ironmaint-core/src/candidate.rs:203-230 | A revision inherits job and package and takes the rest from its arguments; without a collision it has its parent's fingerprint if and only if URL, commit and tree are unchanged |
| CommaList.SplitCommaList | bins/ironmaint-debian-tool/src/source_analysis.rs:669-698 | The character loop computes the splitting function |
| CommaList.SplitAtComma | bins/ironmaint-debian-tool/src/source_analysis.rs:681-687 | A comma with as many opening as closing parentheses before it separates: both sides split on their own |
| CommaList.SplitSingle | bins/ironmaint-debian-tool/src/source_analysis.rs:688-696 | A text in which every comma has unequally many opening and closing parentheses before it is one trimmed entry, or none if blank |
| CommaList.PinIsKept | bins/ironmaint-debian-tool/src/source_analysis.rs:664-683 | A name with a version pin stays one entry, whatever commas the pin contains |
| CommaList.SplitIsNormal | bins/ironmaint-debian-tool/src/source_analysis.rs:669-698 | Splitting always yields non-empty, trimmed entries without such a separating comma, with as many opening as closing parentheses but for the last |
| CommaList.JoinThenSplitIff | bins/ironmaint-debian-tool/src/source_analysis.rs:669-698 | A list survives joining with ", " and splitting if and only if it is of that form |
| CommaList.SplitHasNormalForm | bins/ironmaint-debian-tool/src/source_analysis.rs:669-698 | Splitting, joining and splitting again is splitting, for every string |
| Changelog.ParseChangelogFull | bins/ironmaint-debian-tool/src/source_analysis.rs:383-459 | The two scans compute the reading: header from the first non-blank line, signature from the first line that begins with "--" |
| Changelog.FindDoubleSpace | bins/ironmaint-debian-tool/src/source_analysis.rs:428-434 | The inner loop finds the first run of two spaces |
| Changelog.HeaderReads | bins/ironmaint-debian-tool/src/source_analysis.rs:469-507 | A printed header line reads back as its source, version, distribution and urgency |
| Changelog.SignatureReads | bins/ironmaint-debian-tool/src/source_analysis.rs:414-448 | A printed trailer line reads back as its maintainer and date |
| Changelog.RoundTrip | bins/ironmaint-debian-tool/src/source_analysis.rs:383-507 | Printing an entry with any number of change lines that do not begin with "--" and parsing it gives all six fields back |
| Changelog.OlderEntriesAreIgnored | bins/ironmaint-debian-tool/src/source_analysis.rs:411-450 | Appending any text after a complete first entry never changes the result |
| Changelog.EmptyIff | bins/ironmaint-debian-tool/src/source_analysis.rs:384-387 | The changelog counts as empty if and only if every line is blank |
| Changelog.ParseReads | bins/ironmaint-debian-tool/src/source_analysis.rs:384-459 | The first line that is not blank is the header, and an error if it is malformed; the first trailer line of the whole text, if there is one, is the signature |
| Changelog.MarkerIff | bins/ironmaint-debian-tool/src/source_analysis.rs:411-416 | A trailer line is one with two dashes behind whitespace only |
| Changelog.HeaderIff | bins/ironmaint-debian-tool/src/source_analysis.rs:469-478 | A header is well-formed if and only if something not blank stands before the first opening parenthesis and something not blank between it and the next closing one |
| Changelog.HeaderParts | bins/ironmaint-debian-tool/src/source_analysis.rs:469-488 | Source, version, distribution and urgency of a header, for every line with such parentheses |
| Changelog.TrailerParts | bins/ironmaint-debian-tool/src/source_analysis.rs:490-507 | The distribution is what stands before the first semicolon, trimmed; the urgency comes from the words behind it |
| Changelog.FindValueSpec | bins/ironmaint-debian-tool/src/source_analysis.rs:495-499 | The first word that begins with the key gives the value |
| Changelog.WordsSpec | bins/ironmaint-debian-tool/src/source_analysis.rs:495-497 | Words are what any whitespace separates |
| Changelog.SignatureParts | bins/ironmaint-debian-tool/src/source_analysis.rs:416-448 | The maintainer is what stands before the first two spaces, the date what stands behind, each trimmed and absent if empty |
| Dep3.FieldValueSpec | bins/ironmaint-debian-tool/src/source_analysis.rs:863-926 | The value read for a tag is that of its last declaration in the header, None if empty, and None without a declaration |
| Dep3.FieldParts | bins/ironmaint-debian-tool/src/source_analysis.rs:886-901 | The key is what stands before the first colon, the value what stands behind, both trimmed; a line without a colon is no field |
| Dep3.FlushCompletes | bins/ironmaint-debian-tool/src/source_analysis.rs:907-918 | At any point of the pass, handing over the pending field gives the declarative reading of the lines so far |
| Dep3.ReadHeaderLine | bins/ironmaint-debian-tool/src/source_analysis.rs:886-905 | One line takes the pass from the state for the lines before it to the state for the lines including it |
| Dep3.ReadPatch | bins/ironmaint-debian-tool/src/source_analysis.rs:863-926 | The single pass with its deferred flush equals the declarative reading of the header; an unreadable file gives an empty patch |
| Dep3.StopIff | bins/ironmaint-debian-tool/src/source_analysis.rs:881-885 | A line ends the header if and only if it begins with "--- ", "diff --git" or "Index:" or is whitespace only |
| Dep3.HeaderExtent | bins/ironmaint-debian-tool/src/source_analysis.rs:876-885 | The header goes through every other line and no further than the first such line |
| Dep3.DiffIsIgnored | bins/ironmaint-debian-tool/src/source_analysis.rs:876-885 | Nothing at or after a line of whitespace or a line that begins with "--- ", "diff --git" or "Index:" has any effect |
| Dep3.PrintedHeaderReads | bins/ironmaint-debian-tool/src/source_analysis.rs:863-946 | Printed fields with any number of continuation lines, under any tags a line can carry, in any order and with repetitions, followed by a blank line or one of the three beginnings of a diff and anything at all, read back as the last values of "Description", "Author", "Forwarded" and "Last-Update", continuations trimmed and joined by single spaces |
| DaemonConfig.FromEnvAndArgs | bins/ironmaintd/src/config.rs:143-352 | The argument loop and the resolution after it equal the declarative reading: the first option that stops decides, otherwise each scalar is its last occurrence and the allowlist all occurrences in order |
| DaemonConfig.ExpandKeepsItems | bins/ironmaintd/src/config.rs:175-242 | Rewriting each --flag=value in a flag position as two arguments leaves the list of options that is walked unchanged |
| DaemonConfig.ExpandedConfiguresTheSame | bins/ironmaintd/src/config.rs:175-242 | So it never changes the outcome or the error |
| DaemonConfig.SpellingsAgree | bins/ironmaintd/src/config.rs:175-242 | Any two argument lists that differ in such spellings only have the same outcome or error |
| DaemonConfig.InlineSpelling | bins/ironmaintd/src/config.rs:180-188 | --flag=value, whatever the value contains, is rewritten to exactly that flag and that value |
| DaemonConfig.LaterFlagWins | bins/ironmaintd/src/config.rs:199-235 | One more option at the end of a list without an error overrides that setting, whatever came before, or extends the allowlist, and touches no other setting |
| DaemonConfig.FirstStopDecides | bins/ironmaintd/src/config.rs:199-241 | After help, version, an unknown flag or a bad address, no further argument matters |
| DaemonConfig.FlagTable | bins/ironmaintd/src/config.rs:199-241 | Which text is which flag, for each of the fifteen and for no other text |
| DaemonConfig.FlagSetsIts | bins/ironmaintd/src/config.rs:199-352 | For each flag by its text: given last, its value is what the started daemon has for that setting |
| DaemonConfig.LastWordDecides | bins/ironmaintd/src/config.rs:190-241 | Behind arguments without an error: the help and version words give help and version, a flag without its value and a word that is no flag give their errors |
| DaemonConfig.SplitInlineSpec | bins/ironmaintd/src/config.rs:180-188 | An equals sign cuts a word at its first place, and only behind a leading dash |
| DaemonConfig.UnknownWords | bins/ironmaintd/src/config.rs:184-241 | A word without a leading dash is an unknown argument as it stands, a flag that is not known one without what follows its equals sign |
| DaemonConfig.BadAddress | bins/ironmaintd/src/config.rs:205-214 | An address that does not parse is an error with that value |
| DaemonConfig.EnvironmentOnlyWhereNoFlag | bins/ironmaintd/src/config.rs:248-321 | Environments that agree on the variables of the settings no argument gives are interchangeable: the other variables are never consulted |
| DaemonConfig.VariableTable | bins/ironmaintd/src/config.rs:248-321 | The name of the variable of each setting |
| DaemonConfig.VariableSetsIts | bins/ironmaintd/src/config.rs:248-321 | For each variable by its name: it is what the started daemon has for its setting where no argument gives that |
| DaemonConfig.ResolvedSettings | bins/ironmaintd/src/config.rs:248-321 | Flag before variable before default, with the default of each setting |
| DaemonConfig.ResolvedRest | bins/ironmaintd/src/config.rs:254-321 | The same for the address, the roots under the state directory and the allowlist; an address in the variable that does not parse is passed over |
| DaemonConfig.StartsIff | bins/ironmaintd/src/config.rs:248-352 | The settings start the daemon or give exactly one error: no usable address, no token, no token file, no migrations directory, in this order |
| DaemonConfig.StartedAsAsked | bins/ironmaintd/src/config.rs:244-352 | A daemon that starts has a token file that a flag or the variable named, never a default, and a migrations directory, both existing; every given option is as last given; roots named nowhere lie under its state directory |
| DaemonConfig.AllMissingNamedIff | bins/ironmaintd/src/config.rs:323-337 | For all settings and worlds: every missing path is named if and only if not both are missing, or, where an earlier error comes first, neither is |
| DaemonConfig.OnlyTheTokenFileIsNamed | bins/ironmaintd/src/config.rs:323-337 | With both missing, the error names the token file and the migrations directory goes unnamed |
| DaemonConfig.MissingDirectoryGoesUnnamed | bins/ironmaintd/src/config.rs:323-337 | A concrete environment in which that happens |
| DaemonConfig.VariableSpellsIff | bins/ironmaintd/src/config.rs:303-312 | The allowlist variable can spell a list if and only if its entries are non-empty, trimmed and free of commas |
| DaemonConfig.SplitListAtComma | bins/ironmaintd/src/config.rs:307-311 | Every comma of the allowlist variable separates |
| DaemonConfig.SplitListSingle | bins/ironmaintd/src/config.rs:307-311 | A piece is trimmed, or dropped when it is blank |
| DaemonConfig.FlagsOrVariable | bins/ironmaintd/src/config.rs:227-312 | Naming such prefixes by repeated flags or by the variable configures the same daemon |
| FedoraVersion.ComparesIff | adapters/fedora-stub/src/versioning.rs:40-67 | compare answers exactly for two non-empty versions with at most one colon each |
| FedoraVersion.CompareErrors | adapters/fedora-stub/src/versioning.rs:40-63 | Which error is given: an empty version or more than one colon, for the first of the two that is not valid |
| FedoraVersion.CompareLessIff | adapters/fedora-stub/src/versioning.rs:65-78 | A version is less if and only if its epoch is smaller, or epochs agree and its version comes first in the dictionary, or both agree and its release comes first |
| FedoraVersion.TextLessIff | adapters/fedora-stub/src/versioning.rs:70-77 | Parts are ordered as in a dictionary over code points |
| FedoraVersion.CompareMirrored | adapters/fedora-stub/src/versioning.rs:57-78 | Swapping the versions mirrors the answer |
| FedoraVersion.CompareTransitive | adapters/fedora-stub/src/versioning.rs:57-78 | At most b and at most c compose, strictly unless both are ties |
| FedoraVersion.CompareEqualIff | adapters/fedora-stub/src/versioning.rs:57-78 | Equal if and only if epoch, version and stripped release are equal |
| FedoraVersion.StripCutsAt | adapters/fedora-stub/src/versioning.rs:118-126 | The earliest tag of the list that occurs at all decides, at its first occurrence |
| FedoraVersion.StripIsPrefix | adapters/fedora-stub/src/versioning.rs:118-126 | Stripping leaves a prefix, and the whole release if and only if it has no tag |
| FedoraVersion.DistTagCuts | adapters/fedora-stub/src/versioning.rs:118-126 | The same for the four tags .fc, .el, .epel and .module+ by name |
| FedoraVersion.NoDistTagNoCut | adapters/fedora-stub/src/versioning.rs:118-126 | Nothing is stripped if and only if none of the four occurs |
| FedoraVersion.EpochIsHead | adapters/fedora-stub/src/versioning.rs:93-101 | The epoch is what stands before the first colon, zero if that is no u32 or there is no colon |
| FedoraVersion.ReleaseIsTail | adapters/fedora-stub/src/versioning.rs:103-116 | The release is what stands behind the last dash, stripped; without a dash it is empty and all is version |
| FedoraVersion.ParsePrinted | adapters/fedora-stub/src/versioning.rs:93-116 | Parsing inverts printing epoch:version-release for tag-free releases; an epoch beyond u32 reads as zero |
| FedoraVersion.TagIsInvisibleIff | adapters/fedora-stub/src/versioning.rs:57-126 | A version with an appended .fc tag compares Equal to itself without if and only if it has a release that already has such a tag or none at all, and is greater otherwise |
| FedoraVersion.StrippingTwiceIff | adapters/fedora-stub/src/versioning.rs:115-126 | Stripping twice is stripping once if and only if no tag stands before the one cut at |
| FedoraVersion.StrippingTwiceCutsMore | adapters/fedora-stub/src/versioning.rs:115-126 | A release for which stripping twice cuts more than once does |
| PolicyDelta.PathIsRun | bins/ironmaint-debian-tool/src/policy_delta.rs:257-301 | On a strictly increasing chain, for any two versions, on the chain or not, the entries are one run of neighbours, from the first point not below the candidate to the last not above the baseline |
| PolicyDelta.PathSingle | bins/ironmaint-debian-tool/src/policy_delta.rs:269-300 | An entry is kept if and only if both its versions parse, the first is not below the candidate and the second not above the baseline |
| PolicyDelta.PathConcat | bins/ironmaint-debian-tool/src/policy_delta.rs:269-300 | Entries are kept one by one, in order |
| PolicyDelta.EntriesNeedRanks | bins/ironmaint-debian-tool/src/policy_delta.rs:262-270 | Without a candidate, or if one of the two versions does not parse, there are no entries |
| PolicyDelta.ChainEntries | bins/ironmaint-debian-tool/src/policy_delta.rs:257-301 | Between two chain points, however spelled, the entries are exactly the gap-free run between them, and none when there is no way up |
| PolicyDelta.ChainSplits | bins/ironmaint-debian-tool/src/policy_delta.rs:257-301 | Splitting the path at any chain point splits the entries |
| PolicyDelta.PathNarrows | bins/ironmaint-debian-tool/src/policy_delta.rs:269-300 | For any checklist, lowering the candidate or raising the baseline only adds entries, in place |
| PolicyDelta.PathSplits | bins/ironmaint-debian-tool/src/policy_delta.rs:269-300 | For any rising checklist, stopping on the way loses exactly the entries that straddle the stop, counted with multiplicity |
| PolicyDelta.ComparisonIff | bins/ironmaint-debian-tool/src/policy_delta.rs:366-404 | A comparison is reported if and only if both versions parse: above when the candidate is not at most the baseline, at when it is spelled like it, below otherwise |
| PolicyDelta.BelowIsOlderIff | bins/ironmaint-debian-tool/src/policy_delta.rs:384-390 | A candidate reported below the baseline is strictly older if and only if it is not the baseline in another spelling; a strictly older one is always reported below |
| PolicyDelta.BelowIsNotAlwaysOlder | bins/ironmaint-debian-tool/src/policy_delta.rs:384-390 | The baseline written with a zero epoch is reported below it and is not older |
| PolicyDelta.OnlyOlderHasEntries | bins/ironmaint-debian-tool/src/policy_delta.rs:183-301 | On a rising checklist, a candidate that is missing, unparsable, above the baseline, or order-equal to it in whatever spelling, has no entries |
| PolicyDelta.Run | bins/ironmaint-debian-tool/src/policy_delta.rs:320-436 | Verdict, diagnostics and comparison for every input: the baseline counts as stale exactly when both versions parse and the candidate is not at most the baseline, the version as missing exactly when there is none or one of the two does not parse; the reported entries are those of the path in every case when the checklist rises, although only one case asks for them, and there are some only for a strictly older candidate |
| RateLimiter.Limiter.constructor | containers/fake-services/fake-services.py:72-72 | A new limiter has an empty log |
| RateLimiter.Limiter.IsRateLimited | containers/fake-services/fake-services.py:75-83 | The answer and the new log are those of the run of all calls so far |
| RateLimiter.RefusedIff | containers/fake-services/fake-services.py:75-83 | A request is refused if and only if the limit's worth of accepted requests of that address lie in the window that ends with it |
| RateLimiter.EveryWindowIsBounded | containers/fake-services/fake-services.py:66-83 | Over every run with a monotone clock, every closed interval of 60 seconds, wherever it starts, holds at most the limit's worth of accepted requests per address |
| RateLimiter.AddressesAreIndependent | containers/fake-services/fake-services.py:75-83 | The answer to an address depends on the requests of that address only |

## Left out

- The hash functions themselves, `debversion`, and deb822 paragraph parsing: library code; the first two are parameters.
- Power loss: the code ignores errors of the parent directory sync; process death is modelled, durability of the page cache is not.
- Cancelled futures, and file operations of a dead process that are still queued in its runtime.
- StoreProtocol.LiveTempPathsDiffer: assumes that no put is overtaken by 2^64 later puts of its own process, because the staging counter is a u64 that wraps.
- ArtifactStore.ArtifactStore.Write: `written` is unbounded, because a file of 2^64 bytes does not exist; `observed` saturates as in the code. Failures of single file operations are in StoreProtocol only.
- ArtifactStore.ArtifactStore.PutBytes: no `stored_at` in the record, because it is the clock.
- StoreProtocol.StepKeepsInv: no two live processes have the same process id, which the operating system guarantees on one machine; a store shared between machines is not modelled.
- GuardCacheProtocol.CapsOutliveCalls: recordings on a guard that the factory also hands out outside the cache are not modelled.
- JobGuard.JobArtifactGuard.TryRecord: one thread at a time, because the interleavings of its load and swap steps are GuardProtocol's; job and run identifiers in error messages are left out.
- Digests.Sha256Writer.Update: the state of the hasher between updates is the list of bytes absorbed.
- CommaList.SplitCommaList: `depth` is unbounded, because 2^31 open parentheses would be needed to wrap it.
- Changelog.FindDoubleSpace: positions count characters where the code counts bytes; both cut the same text at the same place.
- FedoraVersion.TextLessIff: text is a sequence of code points, whose order is that of the UTF-8 bytes the code compares.
- DaemonConfig.FromEnvAndArgs: arguments enter after `to_string_lossy`; error messages are reduced to their kind and the value they name; the computed default paths are parameters.
- PolicyDelta.Run: provenance fields and message texts are left out, and reading `debian/control` is a parameter.
- RateLimiter.Limiter.IsRateLimited: calls are atomic and time is a real number; the Python code does not lock between the check and the append.
- `Digest::new`, evidence, gate and job value types, policy templates and predicates on job states: finite case splits and plain map inserts, with nothing that spans functions.
- The other readers of `source_analysis.rs` (watch, copyright, rules, tests, gbp): line filters without properties across functions.
- HTTP handlers, daemon startup, subprocesses, serialisation, the SQLite store and the workflow engine: not part of this model.
