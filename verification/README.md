# Picocrypt NG: verified models

This project models the parts of Picocrypt NG whose correctness rests on more than one function and
proves what they promise, with Dafny 4.11. `dafny verify dfyconfig.toml` checks everything.

| module | what it models |
|---|---|
| `Blamka`, `Argon2Index`, `Argon2Fill`, `Argon2Workspace`, `VariableHash`, `Argon2` | the Argon2 key derivation of RFC 9106: the BlaMka compression, the reference window, the lanes as interleaved memory accesses, flat and chunked storage, H' and the whole of `deriveKey` |
| `TempStream`, `EncryptedSpool` | the authenticated temporary stream (the payload framing of the age v1 format) and the spool that owns one |
| `Unpack` | two-phase ZIP extraction over a filesystem in which any step may fail and other processes act |
| `SplitNames`, `SplitRecombine` | splitting a volume into chunks and recombining them, over the same filesystem |
| `ArchiveSession`, `Capabilities` | the mobile facade's concurrent protocols, one atomic step per region that holds a lock |
| `ZipBudget`, `ZipDiscovery`, `ZipMetadata`, `ZipArchive` | the resource budget, the walk and the glob charged to it, the frozen metadata cache and prepared extraction, and archives as they are written |
| `RsPayload`, `VolumeHeader` | Reed-Solomon payload blocks with PKCS#7 padding (section 6.3 of RFC 5652), and the legacy volume header |
| `Common` | what the others share |

Machine integers are mathematical integers with their wrap-around written out. Concurrency is modelled by
state machines: a run is any sequence of steps, and what is proved holds for every run. Cryptography is
ideal where its source is outside these files: BLAKE2b is any function of the right output length, the AEAD
is a table of what was sealed (so it opens exactly that), and a Reed-Solomon code repairs every word within
half its check symbols. A filesystem is a tree of names with inode identities; a *quiet* machine is one on which
nobody else acts, a *faultless* one is one on which no call fails, and results that hold without these words
hold with arbitrary interference and faults.

## Findings

- **After `Cancel` returns a consent may still be undecided** (src/mobile/progress.go:189-207, 519-559). Three
  runs show it. `Capabilities.SecondCancelReturnsEarly`: a second `Cancel` fails the guard on
  `cancelRequested` and returns before the first has refused. `Capabilities.CancelAfterTheEnd`: the operation
  is already terminal, so the guard fails and a consent that was asked for earlier stays live.
  `Capabilities.CancelDuringChoice`: the guard holds, but `choose` has cleared `live` and not yet sent, so
  `refuse` finds nothing to do. The exact condition over every interleaving is
  `Capabilities.Operation.AfterCancel` (and, for whole states, `AllDecidedExactly`): undecided means that some
  call is between claiming the consent and sending, or that it is live because the first `Cancel` has yet to
  refuse it or cancellation was never requested. The condition a caller can check beforehand is
  `Capabilities.Operation.CancelAlone`: with no choice, refusal or cancellation under way, everything is decided
  afterwards if and only if the operation is registered, not terminal and not yet cancelled, or lists no consent.
- **A failed split can leave one stage behind while its cleanup reports nothing wrong**
  (src/internal/fileops/staged_file.go:89-100, src/internal/fileops/split.go:444-456). When the first `Stat` of a
  new stage fails, the stage is closed and forgotten, so it is no longer active when `cleanupSplitOnError` runs.
  `SplitRecombine.StageStaysBehind` is such a run, with no other fault. `SplitRecombine.Split` states what can be
  left after a failure with a clean cleanup: one stage at most, only of an inode whose first `Stat` failed, and
  never under the name of a chunk. Where no call fails nothing is left at all.
- **`countChunks` counts names, `Recombine` opens canonical ones** (src/internal/fileops/recombine.go:24-38,
  145-154, 256-277). A set with `01` in place of `1` is counted as complete and refused when chunk 1 is opened:
  `SplitRecombine.NotCanonical` shows it for the names `b.0` and `b.01`. `SplitRecombine.Recombine` succeeds only if the set is complete *and* every chunk has its canonical name.
- **A full block of 1 MiB decoded as a padded last block loses its tail** when its last byte reads as a padding
  length (src/internal/encoding/rs.go:173-228). `RsPayload.PaddedBlockLosesTail` shows it for a block of ones,
  `RsPayload.RoundTrip` gives the exact condition; with the flag
  set exactly for the lengths from 1 MiB - 128 up to 1 MiB it always holds.

## Model

| member | source | states |
|---|---|---|
| Blamka.GBEquations | src/internal/argon2/blamka_generic.go:51-63 | GB of section 3.6 of RFC 9106 on any four words: the multiply-adds written out, each followed by a xor rotated right by 32, 24, 16 and 63 |
| Blamka.GBOfOne | src/internal/argon2/blamka_generic.go:51-63 | the four words that GB makes of one bit in the last word |
| Blamka.XorIsBitwise | src/internal/argon2/blamka_generic.go:52-62 | every bit of the exclusive or is the sum of the two bits modulo 2 |
| Blamka.RotateRightBit | src/internal/argon2/blamka_generic.go:53-63 | bit i of a word rotated right by k is bit i + k of the word, around the end |
| Blamka.RoundByCalls | src/internal/argon2/blamka_generic.go:45-167 | the round is GB on the four columns and then on the four diagonals |
| Blamka.RowWords | src/internal/argon2/blamka_generic.go:18-25 | each row call is given sixteen consecutive words |
| Blamka.ColumnWords | src/internal/argon2/blamka_generic.go:26-33 | each column call is given its sixteen words in the order of the source |
| Blamka.RoundIsBijection | src/internal/argon2/blamka_generic.go:45-167 | the sixteen-word round has a two-sided inverse on 64-bit words: each multiply-add can be undone because its multiplier is odd modulo 2^32 and 2^64 |
| Blamka.RowsPartitionBlock | src/internal/argon2/blamka_generic.go:18-25 | the eight row calls touch each of the 128 words once |
| Blamka.ColumnsPartitionBlock | src/internal/argon2/blamka_generic.go:26-33 | the eight column calls touch each of the 128 words once |
| Blamka.PermuteIsBijection | src/internal/argon2/blamka_generic.go:13-43 | all sixteen calls together are a bijection on blocks |
| Blamka.ProcessBlockGeneric | src/internal/argon2/blamka_generic.go:13-43 | the block written is the compression of the inputs' old values, xored into the old output when asked, also when the output is one of the inputs |
| Argon2Index.FinishedColumn | src/internal/argon2/argon2.go:274-293 | the columns of the finished segments of section 3.4.2 of RFC 9106, in order, are those counted from the window start modulo the lane length |
| Argon2Index.WindowIsReferenceSet | src/internal/argon2/argon2.go:274-293 | the window the code uses is the reference set of section 3.4.2, for every pass, slice, lane and index, with its exact size |
| Argon2Index.IndexAlphaSelectsReference | src/internal/argon2/argon2.go:274-300 | for every 64-bit word `indexAlpha`, with its unsigned arithmetic, gives the block the RFC selects |
| Argon2Index.IndexAlphaIsSafe | src/internal/argon2/argon2.go:274-300 | that block is in bounds, already filled, not the current or previous one, and not in the active slice of another lane |
| Argon2Fill.AccessesAreReadable | src/internal/argon2/argon2.go:210-239 | no access of a block step reads a place another lane may write in the slice |
| Argon2Fill.InterleaveKeepsInvariant | src/internal/argon2/argon2.go:244-253 | under every interleaving of single memory accesses each lane sees what it would see alone |
| Argon2Fill.LaneNeverWaits | src/internal/argon2/argon2.go:202-242 | a lane is done exactly when a schedule has given it its number of turns |
| Argon2Fill.SliceIsDeterministic | src/internal/argon2/argon2.go:244-253 | every schedule that finishes a slice leaves the memory of running the lanes one after another |
| Argon2Fill.FillIsDeterministic | src/internal/argon2/argon2.go:195-254 | the same over all passes and slices with a barrier after each slice |
| Argon2Workspace.ChunksTileMemory | src/internal/argon2/workspace_32bit.go:14-26 | the chunks have 4 MiB each, but for the last, and together exactly the memory |
| Argon2Workspace.Workspace.Store | src/internal/argon2/workspace_32bit.go:28-30 | writing through a chunked or flat index changes that block of the flat view and no other |
| VariableHash.HPrimeLength | src/internal/argon2/blake2b.go:17-56 | H' of section 3.3 of RFC 9106 has the length asked for |
| VariableHash.Blake2bHash | src/internal/argon2/blake2b.go:17-56 | the loop over a reused buffer writes exactly H' into the output; it panics exactly for an empty output |
| Argon2.LERoundTrip | src/internal/argon2/argon2.go:171-193 | little-endian words read back as written, for every width and value that fits |
| Argon2.H0Numbers | src/internal/argon2/argon2.go:147-154 | the six numbers of the first hash stand in the order of section 3.2 of RFC 9106 and read back, with the version 0x13 |
| Argon2.H0Strings | src/internal/argon2/argon2.go:155-167 | no two choices of password, salt, secret and data are hashed alike, and each is recovered in its place |
| Argon2.InitBlocks | src/internal/argon2/argon2.go:171-193 | the workspace holds the initial matrix: two hashed blocks per lane, zero elsewhere, flat or chunked |
| Argon2.ProcessBlocks | src/internal/argon2/argon2.go:195-254 | the in-place fill leaves in the workspace the matrix of all slices run in order |
| Argon2.ExtractKey | src/internal/argon2/argon2.go:256-272 | the key is H' of the xor of every lane's last block |
| Argon2.StoredBlock | src/internal/argon2/argon2.go:256-272 | the block hashed for the key takes 1024 bytes, which read back as the block |
| Argon2.DeriveKey | src/internal/argon2/argon2.go:108-131 | panics exactly for no passes, no lanes or no key; otherwise the chunked and the flat workspace give the same key, the one the matrix specification defines after the memory is rounded |
| Argon2.ParallelKey | src/internal/argon2/argon2.go:108-131 | any run of all 4 * time slices by any schedules leaves the memory from which that same key is extracted |
| TempStream.ExtentExact | src/internal/fileops/temp_zip_stream.go:37-46 | the extent is the exact physical size, refused exactly when no signed file size holds it; what is admitted has fewer than 2^47 records |
| TempStream.NonceLayout | src/internal/fileops/temp_zip_stream.go:50-60 | for every 64-bit record the eight written counter bytes are the whole 88-bit big-endian counter |
| TempStream.NonceInjective | src/internal/fileops/temp_zip_stream.go:50-60 | two records, or a final and a non-final one, never share a nonce |
| TempStream.PhysicalLength | src/internal/fileops/temp_zip_stream.go:144-160 | a finished stream takes exactly the extent of its plaintext |
| TempStream.Writer.Write | src/internal/fileops/temp_zip_stream.go:86-120 | accepts a prefix and keeps the records a function of all that was accepted; refuses beyond the physical limit before taking a byte; errors are kept; the buffer holds nothing but the bytes that wait, and nothing after the end or an error |
| TempStream.Writer.Finish | src/internal/fileops/temp_zip_stream.go:144-160 | seals the last record once; over a reliable sink, if it is not cancelled, it succeeds exactly within the limit |
| TempStream.OpensOnlyTheBlock | src/internal/fileops/temp_zip_stream.go:200-277 | whatever bytes storage presents for record r, the AEAD opens nothing but block r |
| TempStream.Reader.Read | src/internal/fileops/temp_zip_stream.go:200-277 | over storage that may change between reads, every byte released is the next byte written; the end is reported only after the last one and after a probe in that very call found the storage to end where the stream does, with the extent insisted on; any other error is kept and is not an end; storage that holds too little, too much, or another extent never gives up the last block and ends in the corruption error; over intact storage nothing fails; what was released is wiped from the buffer, and everything after an error |
| TempStream.RoundTrip | src/internal/fileops/temp_zip_stream.go:86-277 | for every plaintext, every split into writes and every sequence of read sizes the reader yields it and then the end; the stored bytes depend on the plaintext alone |
| EncryptedSpool.Spool.NoNonceTwice | src/internal/fileops/encrypted_spool.go:114-201 | in every state any sequence of calls reaches, no nonce was sealed under twice |
| EncryptedSpool.Spool.Seal | src/internal/fileops/encrypted_spool.go:128-169 | sealed exactly on success, and success exactly when the stage was seen, had the exact size, was synced, and no poll found a cancellation, in this order; a failed seal is for good; the writer's buffer is wiped either way |
| EncryptedSpool.Spool.OpenReader | src/internal/fileops/encrypted_spool.go:182-201 | only a sealed, open spool without a live reader hands one out, exactly when a poll found no cancellation and the stage its size; never after a failed seal |
| EncryptedSpool.Spool.Close | src/internal/fileops/encrypted_spool.go:239-269 | a second call changes nothing and gives the first answer; the first takes the writer and the reader away, with their buffers wiped, and answers as the one cleanup of the stage did |
| EncryptedSpool.Handle.Read | src/internal/fileops/encrypted_spool.go:276-284 | a superseded handle, or one of a closed spool, returns no data; the live one returns the next bytes written, and over storage that does not change an end means that it has exactly the size of the stream |
| EncryptedSpool.Session | src/internal/fileops/encrypted_spool.go:56-295 | write, seal, read, close gives back what was written |
| Unpack.RemoveOwned | src/internal/fileops/unpack.go:149-164 | on success the name was ours and is gone; otherwise nothing of the run changed |
| Unpack.Publish | src/internal/fileops/unpack.go:252-398 | by link or by exclusive copy; on failure at most the target is added, and not even that when its absence was proven; other files keep their bytes |
| Unpack.PublishAll | src/internal/fileops/unpack.go:1117-1168 | all entries placed and synced, or rolled back with the state telling whether that was proven |
| Unpack.SyncModified | src/internal/fileops/unpack.go:635-692 | durable only when every directory the run changed has been synced |
| Unpack.NoFileLeft | src/internal/fileops/unpack.go:930-949 | with no listed name, no name at all holds a file of the run, and on a quiet machine the names are the original ones |
| Unpack.Unpack | src/internal/fileops/unpack.go:711-1169 | whatever step fails: not-published leaves no file of the run; indeterminate is answered only after a removal that was not proven, a new file whose identity could not be learnt, or a root that had moved; published means every file entry was linked to its path under an inode of its own, whole and synced, and on a quiet machine still stands there; durable means every changed directory was synced; on a quiet machine what was there before is untouched, on a quiet faultless one the answer is durable or not-published, the cleanup is complete, and not-published leaves every name as it was; with fresh stage names it is durable exactly when the archive fits; published is answered only when the last look at the root found it in place; a complete cleanup had no failing close, and after a publication that is all it means |
| SplitNames.CompleteIffConsecutive | src/internal/fileops/recombine.go:137-156 | the test on the sorted indices passes exactly the complete sets: every index below n, each under one name |
| SplitNames.ChunkIsArtifact | src/internal/fileops/split.go:27-37 | whatever counts as a chunk keeps a new split away |
| SplitRecombine.ChunkSizeToBytes | src/internal/fileops/split.go:141-160 | the product, refused exactly when it is no int64 |
| SplitRecombine.PlanIsExact | src/internal/fileops/split.go:389-404 | the pieces join to the file; each but the last has the chunk size, the last is not empty |
| SplitRecombine.FillStage | src/internal/fileops/split.go:459-501 | however short the reads, the stage gets the next bytes of the input, up to the chunk size or its end |
| SplitRecombine.RemoveOwned | src/internal/fileops/split.go:80-100 | afterwards the name holds nothing of the run, or an error is reported; others' files are left alone |
| SplitRecombine.Split | src/internal/fileops/split.go:317-689 | success leaves exactly the pieces, synced, each under its index, and the last looks at the names found each of them in its place; a clean cleanup had no failing close; after a failure with a clean cleanup a name holds a file of the run only if the first `Stat` of that file failed, and then it is one stage name and the only one; on a quiet machine nothing else changes and only a request that can be met succeeds; on a faultless one the cleanup is clean and failure leaves every name as it was, and with free stage names every such request succeeds: the size fits, no artifact is in the way and the input has as many bytes as was said |
| SplitRecombine.CountChunks | src/internal/fileops/recombine.go:69-157 | on a quiet machine counts exactly the complete sets, and with no fault every one of them |
| SplitRecombine.Recombine | src/internal/fileops/recombine.go:161-376 | the output is created new and synced, and the last look at its name found it there; on a quiet machine success means a complete set whose chunks, in order, are the output, and failure with a clean removal leaves every name as it was, but for an output whose first `Stat` failed; on a quiet faultless machine the removal is clean, failure leaves every name as it was, and it succeeds exactly when the set is complete under canonical names and the output name is free |
| SplitRecombine.StageStaysBehind | src/internal/fileops/staged_file.go:89-100 | a run on a machine whose only fault is the first `Stat` of a new file: the split fails, its cleanup is clean, and its stage is still there |
| SplitRecombine.NotCanonical | src/internal/fileops/recombine.go:24-38 | `b.0` and `b.01` count as a complete set of two, and that set cannot be recombined |
| SplitRecombine.SplitReady | src/internal/fileops/recombine.go:161-376 | after a split the set is complete and its chunks join to the file |
| SplitRecombine.SplitThenRecombine | src/internal/fileops/split.go:317-689 | on a quiet machine split, then recombine, gives back the input, however short the reads; when nothing fails both succeed |
| ArchiveSession.Session.BeginCoreCall | src/mobile/archive_saf.go:588-605 | a transition is admitted exactly while the session is not sealed |
| ArchiveSession.Session.ConfirmReceipt | src/mobile/archive_saf.go:495-517 | at most one confirmation, of the exact active receipt, and none once sealed |
| ArchiveSession.NothingBeginsAfterSeal | src/mobile/archive_saf.go:588-605 | in every observed run no transition starts after the seal, and there is one seal |
| ArchiveSession.NoOverlap | src/mobile/archive_saf.go:654-705 | every transition that began has ended before the completing call |
| ArchiveSession.OneCompletion | src/mobile/archive_saf.go:654-738 | one Finish, or one Abort, or a Finish that panicked followed by an Abort; no other call completes |
| ArchiveSession.Host.SameSnapshot | src/mobile/archive_saf.go:654-705 | all completers return the same snapshot |
| ArchiveSession.Host.NoDeadlock | src/mobile/archive_saf.go:607-624 | while a call has not returned some call can move |
| ArchiveSession.Host.Start | src/mobile/archive_saf.go:495-605 | by kind of call and state of the session: who is admitted, rejected, answered at once, or seals the session to finish or abort it |
| ArchiveSession.Host.Go | src/mobile/archive_saf.go:654-705 | the place a call is at, and what the core does, decide where its step takes it and what is observed; every step brings the call closer to its end, so no call runs for ever |
| ArchiveSession.Run | src/mobile/archive_saf.go:495-738 | every schedule of every set of calls keeps all of this; the calls are those that were started; every observed event comes from the call that asked for it: the core is finished or aborted as the sealing call asked, and aborted once more only after that finish panicked; the result is the core's conclusive answer, and a failure otherwise |
| Capabilities.Operation.TakeArchive | src/mobile/progress.go:617-633 | the archive action goes to the one call that finds it live |
| Capabilities.Operation.OneArchiveHolder | src/mobile/progress.go:1321-1331 | at most one call holds the archive action; then the capability does not, and the operation lists it or has it in flight |
| Capabilities.Operation.OneOutputPlace | src/mobile/progress.go:798-854 | at most one call holds the output action; then it is in flight and not listed |
| Capabilities.Operation.SettleOutput | src/mobile/progress.go:1333-1345 | the output is listed again exactly when the action was kept |
| Capabilities.Operation.Release | src/mobile/progress.go:211-229 | succeeds exactly when the operation is registered, terminal, and nothing is listed or in flight; then no call holds an action and no consent is live |
| Capabilities.Operation.UndecidedExactly | src/mobile/progress.go:519-559 | in every state a consent is undecided exactly when it is live, and then listed, or claimed by a call that has not sent |
| Capabilities.Operation.AfterCancel | src/mobile/progress.go:189-207 | once any `Cancel` has returned: a consent is undecided exactly when a call has claimed and not sent it, or it is live because the first `Cancel` has yet to refuse it, or because the operation ended without a cancellation |
| Capabilities.Operation.AllDecidedExactly | src/mobile/progress.go:189-207 | no consent is undecided exactly when none is listed and no call is between a claim and its send |
| Capabilities.Operation.CancelAlone | src/mobile/progress.go:189-207 | when no choice, refusal or cancellation is under way, everything is decided afterwards exactly if the guard held or no consent was listed |
| Capabilities.SecondCancelReturnsEarly | src/mobile/progress.go:189-207 | a run in which the second `Cancel` returns with a consent undecided |
| Capabilities.CancelAfterTheEnd | src/mobile/progress.go:189-207 | a run in which `Cancel` on an ended operation returns with a consent undecided |
| Capabilities.CancelDuringChoice | src/mobile/progress.go:519-559 | a run in which the first `Cancel` returns with a consent undecided |
| Capabilities.Run | src/mobile/progress.go:189-1345 | every interleaving: one use of the archive action at most, and no consent decided twice; a decision is what some choice of that consent said, or the refusal of a `Cancel`, and the core that asked is answered with it; nothing is consumed that no completion registered |
| ZipBudget.Budget.Reserve | src/internal/fileops/zip_resources.go:70-79 | charges exactly what fits under the limit, so the current charge never exceeds it |
| ZipDiscovery.ReadNames | src/internal/fileops/zip_discovery.go:60-109 | success gives every name of the directory, and the budget has grown by exactly what they cost; every other exit leaves the budget as it was; it is refused only when the names and the workspace do not fit together, and never succeeds then |
| ZipDiscovery.WillingWalk | src/internal/fileops/zip_discovery.go:114-184 | what `filepath.Walk` comes to, as the walk is measured by it, is every path once, each directory before what it holds, for a callback that always goes on |
| ZipDiscovery.WalkInputs | src/internal/fileops/zip_discovery.go:114-184 | on every exit, sentinels and cancellation included, the budget has grown by exactly what the callback reserved, nobody goes on after a refusal or a cancellation that was found, and a refusal is told; if no call failed, nothing was refused and no cancellation found, the callback was called exactly as `filepath.Walk` would, whatever it answers, each time with exactly the charges of the path, its directories and their names held, and the answer is its answer; after a walk that went on to the end the context was looked at once more |
| ZipDiscovery.GlobInputs | src/internal/fileops/zip_discovery.go:197-303 | the same for the recursive glob: in a run without trouble the callback is called for exactly the matching paths, in order, under exactly the charges of the levels above, until it says otherwise or a malformed part of the pattern is met, and only these end it |
| ZipBudget.SortedApart | src/internal/fileops/archive_zip_policy.go:131-148 | comparing neighbours in start order separates all pairs |
| ZipBudget.ValidateRanges | src/internal/fileops/archive_zip_policy.go:101-150 | passes exactly the archives whose payloads are addressable and share no byte; the budget is as before |
| ZipBudget.RetainedBytes | src/internal/fileops/zip_resources.go:141-173 | the exact sum, refused exactly when it is no uint64 |
| ZipBudget.WorkingBytes | src/internal/fileops/zip_resources.go:175-213 | the exact sum over every entry and every directory its name leads through, refused exactly when it is no uint64 |
| ZipMetadata.AgreeAppend | src/internal/fileops/archive_zip_reader.go:235-300 | a region read through the frozen view agrees with all regions wherever they overlap |
| ZipMetadata.MetadataReader.ReadAt | src/internal/fileops/archive_zip_reader.go:40-82 | inside any region the bytes are the snapshot's, whatever the source does; on an unchanging source it is a direct read; it always ends |
| ZipMetadata.RecordsAppend | src/internal/fileops/archive_zip_reader.go:235-300 | the records taken one by one are a sequence of whole directory records |
| ZipMetadata.MetadataReader.SnapshotDirectory | src/internal/fileops/archive_zip_reader.go:235-300 | success adds one region, from the start over whole directory records up to what is no record or the end of the file; failure adds none; the bytes held never exceed what was charged |
| ZipMetadata.MetadataReader.FindEnd | src/internal/fileops/archive_zip_reader.go:159-170 | finds the end record the last signature decides, and -1 exactly when there is none |
| ZipMetadata.MetadataReader.Preflight | src/internal/fileops/archive_zip_reader.go:149-233 | the whole tail a parser may search is frozen, and so are both places where the declared directory may lie; charges balance and cover the bytes held and 512 bytes for every declared entry; over an honest source without cancellation it succeeds exactly if the file has an end record, a ZIP64 record that is used is sound, the declared directory lies in the file, no record in it is cut off, and the named charges fit the budget; then exactly these are charged |
| ZipArchive.WrittenRecord | src/internal/fileops/archive_zip_reader.go:255-283 | a central directory record of any name, extra field and comment is a record to the walk |
| ZipArchive.WrittenEnd | src/internal/fileops/archive_zip_reader.go:171-176 | the fields of an end record read back as written |
| ZipArchive.WrittenArchiveIsSound | src/internal/fileops/archive_zip_reader.go:149-233 | every archive of any body and whole records that needs no ZIP64 record and whose comment hides no later end record passes, and declares what was written |
| ZipArchive.WrittenArchive64IsSound | src/internal/fileops/archive_zip_reader.go:149-233 | so does every archive whose numbers stand in a ZIP64 record, up to the largest 64-bit ones, and declares what was written |
| ZipMetadata.OpenZipReader | src/internal/fileops/archive_zip_reader.go:90-139 | only a returned reader leaves a charge, and it owns it: what the parsed entries keep; over an honest source without cancellation it opens exactly the sound files that fit the budget with its workspace, that the parser accepts, and that keep no more than was charged |
| ZipMetadata.ZipReader.Close | src/internal/fileops/zip_resources.go:129-139 | gives the charge back once |
| ZipMetadata.Prepared.Use | src/internal/fileops/unpack_prepared.go:73-92 | at most once, and exactly for the directory, budget, identity and size it was prepared for |
| ZipMetadata.PrepareUnpack | src/internal/fileops/unpack_prepared.go:35-71 | every failure leaves the budget as it was; success owns exactly what the parsed entries keep and the workspace of the extraction; over an honest source without cancellation it succeeds exactly for what can be opened, has addressable payloads that share no byte, and fits the budget at each of its two peaks |
| RsPayload.Decoder.DecodeInto | src/internal/encoding/rs_decoder.go:34-69 | whatever the reused scratch held, the answer is the codec's repair, and the parity shortcut never changes it |
| RsPayload.EncodePayloadBlock | src/internal/encoding/rs.go:133-167 | the preallocated buffer ends up as the coded chunks, padded below 1 MiB |
| RsPayload.DecodePayloadBlock | src/internal/encoding/rs.go:173-228 | decodes word by word as specified, for every mode, length and flag |
| RsPayload.DecodedWords | src/internal/encoding/rs.go:173-228 | in a decoding that is not fast each word before the last is its repaired message, or, past repair and only when forced, its message as stored |
| RsPayload.RefusedBlocks | src/internal/encoding/rs.go:173-228 | without force a block is refused exactly when it is not made of whole words or one of them is past repair |
| RsPayload.ForcedBlocks | src/internal/encoding/rs.go:173-228 | a forced block is never refused, and a short one comes back as it stands |
| RsPayload.UnpadPad | src/internal/encoding/padding.go:19-44 | unpadding undoes padding |
| RsPayload.RoundTrip | src/internal/encoding/rs.go:133-228 | a block up to 1 MiB comes back, in every mode, exactly when its length and the two flags fit together |
| RsPayload.PaddedBlockLosesTail | src/internal/encoding/rs.go:173-228 | a full block of ones, decoded as a padded last block, does not come back in any mode |
| RsPayload.RepairedRoundTrip | src/internal/encoding/rs.go:133-271 | the same with up to four wrong bytes in each 136-byte word |
| VolumeHeader.NumberDecimal | src/internal/header/writer.go:55-57 | the five digits of a comment length read back as that length |
| VolumeHeader.SupportedVersions | src/internal/header/reader.go:34-44 | exactly v1 and v2 of any two-digit minor number are supported, among them the version that is written |
| VolumeHeader.FlagBytes | src/internal/header/format.go:58-90 | each flag has the byte the format gives it |
| VolumeHeader.StoredFields | src/internal/header/format.go:25-53 | every field of a stored header stands, coded, at the offset the format gives it |
| VolumeHeader.ImageLayout | src/internal/header/writer.go:196-199 | a header takes HeaderSize bytes and its authentication values begin at AuthValuesOffset |
| VolumeHeader.DraftIsBlank | src/internal/header/writer.go:127-151 | until the authentication values are written, zeros hold their place to the end of the header |
| VolumeHeader.WriteHeader | src/internal/header/writer.go:37-152 | whatever write fails, what was written is a beginning of the one image of the header, and the count is right; over-long comments write nothing |
| VolumeHeader.WriteAuthValues | src/internal/header/writer.go:157-190 | patches the three values where the placeholders lie and nothing else |
| VolumeHeader.PatchedDraft | src/internal/header/writer.go:157-199 | the draft patched at AuthValuesOffset is the image with the values in it, whatever follows |
| VolumeHeader.Reader.ReadHeader | src/internal/header/reader.go:69-266 | returns what the bytes say or the first thing wrong with them, takes exactly the header, and reports exactly the parts that could not be repaired |
| VolumeHeader.RepairedHeader | src/internal/header/reader.go:69-266 | a header damaged within reach of its codes, field by field, reads as the one written, with no damage reported |
| VolumeHeader.Session | src/internal/header/writer.go:37-199 | write, append a payload, write the authentication values, read: the same header, ending where the payload begins |
| VolumeHeader.MacFields | src/internal/header/auth.go:42-57 | every field of the MAC message stands at its offset, in the order of the format |
| VolumeHeader.MacInjective | src/internal/header/auth.go:42-57 | two well-formed headers with the same MAC message agree on every protected field and on the keyfile hash |

## Left out

- The internals of BLAKE2b, SHA3, the AEAD and the Reed-Solomon library, and the assembly and SIMD block paths: their source is elsewhere; the first paragraph says what is assumed.
- Wiping of keys and of the buffers of extraction and splitting, progress and status texts, and disk-space probes.
- Argon2.ProcessBlocks: lanes run in order here; that goroutines change nothing is Argon2Fill.FillIsDeterministic and Argon2.ParallelKey. Blocks in the workspace are values, so the aliasing of two blocks is treated in Blamka.ProcessBlockGeneric alone.
- EncryptedSpool.Session: `createEncryptedSpool` and its error exits are not modelled; a spool starts on a fresh key and an empty stage.
- Unpack.Unpack: a failing step has no effect, so a link that took effect and still reported an error is outside; identities are not reused; random stage names differ from the archive's names; only the typed form is modelled; path cleaning, symlinked roots, decompression and size limits are single failing steps; directories are synced in any order.
- Unpack.RemoveOwned: between the identity check and the removal others may act, as in the source; that a name is never overwritten is built into the create and link steps, which refuse an existing name.
- SplitRecombine.Split: the digests, the second reading pass, the check of the published bytes and the directory barrier of the pinned form are not modelled; ceilings are exact integers and the part count is defined for a non-empty file.
- SplitRecombine.Recombine: borrowed descriptors, expected identities and validation of the first chunk, the metadata budget and the summed size used for progress are not modelled; an output named like one of the chunks is outside.
- ArchiveSession.Run: reads through `core()` such as `Entry` and `EntryCount` are not counted as pending calls by the source and are not modelled; receipt minting and presentation texts are left out.
- Capabilities.Operation.ReplaceArchive: the refusal of a presentation that still shows the archive as pending is not modelled; nor are presentations, receipts, resource challenges, `CancelPreparation` and the older string-keyed registry.
- Capabilities.Operation.UseOutput: what `SaveFD` and `Discard` do with the file is one step that keeps the action or not.
- ZipDiscovery.WalkInputs: a directory is given with its names in lexical order, the sort itself is not modelled.
- ZipDiscovery.GlobInputs: pattern syntax and matching are parameters; what a glob finds is stated for a tree that does not change while it runs, with the names of a directory in lexical order.
- ZipMetadata.OpenZipReader: what `archive/zip` makes of the frozen metadata is a parameter; the working-byte sum of the writer is not modelled.
- RsPayload.EncodePayloadBlock: `Pad` appending into spare capacity of its argument is not modelled.
- VolumeHeader.Reader.ReadHeader: the partly filled header beside an error is not modelled; nor are the HMAC itself, constant-time comparison and the v1 key hash.
- Formats and commands of the `pcv3` packages, the desktop and web interfaces and the command line.
