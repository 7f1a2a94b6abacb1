# place, verified

`place` is a tiered, log-structured file store. This project models the parts that decide which bytes a reader
sees and what the directory tree looks like, in imperative Dafny where the Go code updates state and as functions and
lemmas where it only computes, and proves that model against plain specifications: a byte array per inode in which the
last write wins, a log that survives a crash at any point, and a tree of directories with exact link counts.

`dafny verify dfyconfig.toml` checks everything.

## How the project is laid out

| file | what it holds |
|---|---|
| Bytes, Keys | integers as bytes, the byte order of keys, prefix ranges |
| Fragments, Shadow | the 40-byte fragment record; `planRead` and `canonicalView` against "the newest covering fragment wins" |
| Records, SegmentSets | framed records, scan and torn tails; a tier's segment files, rotation, crash and reopening |
| Disks, Stripes, Rewrites, Indexes | what a file contains on disk; stripe splitting; append, truncate, move and GC as methods of a class; crash atomicity |
| Bulk, StripeScan, Migration | bulk sessions, `IterStripes`, the migration of legacy blobs |
| Extents, Sums, Coalescers | extents and what they read as; the write-back buffer as a machine of interleaved steps |
| CoalescerLinks, CoalescerMemory, CoalescerDurable, CoalescerRefinement, CoalescerRuns, CoalescerSince | what every step of that machine keeps, and the theorems about every run |
| CoalescerProgress, CoalescerWeight | who can go on and what a flush does from swap to release; that memory comes back, and when it does not |
| CoalescerCode, Handles, Layers | the buffer's locked sections and `ReadAt` as programs; what the index does to stored extents |
| Persistence, Tracking, Systems | what an fsync has put on disk; how disk and machine stay alike under moves; buffer and disk run together, up to the crash after an fsync |
| Namespaces, NamespaceCounts, NamespaceTrees, NamespaceMeaning, NamespaceCode | namespace operations as functions of the state, link counts, the tree, what each operation does to entries, nodes and links, and the operations as programs |

The write-back machine has one step per stretch of code between two lock operations (acquire, look up a buffer, append, pick,
swap, store, settle, close, release, fsync look-up, fsync snapshot, fsync return and the five steps of a drop), single steps for a
size change, an unlink and stamps drawn by others, any number of goroutines, and any interleaving. A run is any sequence of enabled steps from the empty store, failed flushes
included; a failed flush ends the promise about its own inode only.

The durable side keeps a history. Each primitive operation (the fsync of a file, a new file, the fsync of its directory, the append of
one record, the commit of one batch) adds the state it leaves, so the states between entry and return of an operation are those
it passed through, one primitive apart. All-or-none after a crash is derived from that: files are touched first, and the batch is
committed last.

A crash cuts each file to any length not below its last synced length and may lose files whose directory entry was never
synced. The checksum is an arbitrary function of bytes throughout.

## What turned out not to hold

Each of these is kept as the code has it, shown by an example, and delimited by a condition that holds exactly when the code
meets the promise.

- **Reads that enter a buffered extent past its start fail.** The plan shifts the address of a clipped slice
  (index/fragment.go:142), but for buffered extents the address is the sequence number, which `CopyOut` looks up as it is
  (store/coalescer.go:365), although its comment says that clipped locators are handled. `Handles.ReadAt` never returns wrong bytes; it
  succeeds when no such place lies in the range and fails when one does; for an extent that is also on disk already, the order in
  which the sort leaves equal sequence numbers decides (`Handles.PlanServed`, `Handles.ReadInsideFails`, `Handles.TieDecides`).
- **Truncating while a flush is in flight miscounts.** `InvalidatePastSize` shares one counter between both batches
  (store/coalescer.go:480-514); the flushing batch's byte count stays right exactly when nothing was freed from the current one
  (`CoalescerCode.Coalescer.InvalidatePastSize`, `CoalescerCode.TruncateMiscounts`).
- **An fsync can be left waiting.** When a truncation empties the batch an fsync waits for before a worker takes it, the worker
  finds no bytes and gives up (store/coalescer.go:683), and the fsync waits until a later write or drop reaches the buffer. Any other
  fsync of an existing file has somebody working for it or bytes that a flush takes (`CoalescerProgress.FsyncGoesOn`,
  `CoalescerProgress.VainOnRun`, `CoalescerProgress.FsyncLeftWaiting`).
- **A write that comes after the drop keeps its memory for good.** A writer that looked the buffer up before the last unlink and
  writes after the drop (store/coalescer.go:219-235, 529-562) puts its bytes where no flush and no drop finds them, and their weight
  is never given back. Without such a write weight always comes back (`CoalescerWeight.WeightIsFound`,
  `CoalescerWeight.OrphanMadeIff`, `CoalescerWeight.OrphanForever`, `CoalescerWeight.LateWriteOrphans`).
- **Moving a stripe that is also buffered can bring old bytes back.** `Move` issues fresh sequence numbers
  (index/index.go:1095), buffered extents keep theirs. Reads stay the same exactly if no newer buffered byte of
  the stripe lies over a different stored one (`Layers.MoveReadsIff`, `Layers.MoveBringsBack`).
- **Renaming a directory into a directory more than 1000 levels below it cuts the tree apart** (store/store.go:837):
  `NamespaceTrees.RenameTreeIff`, `NamespaceTrees.DeepRenameLoops`.
- **A directory that replaces a directory under another parent leaves that parent's link count one too high**
  (store/store.go:757-764, 808-815): `NamespaceCounts.DirCountRightIff`, `NamespaceCounts.OvercountExample`.
- **Migrating a legacy blob keeps all its fragments exactly if no two in a stripe share a sequence number without being equal**:
  `Migration.Migrate`, `Migration.MigrationLosesOne`.

## Model

| member | source | states |
|---|---|---|
| `Keys.FragmentKeyFields` | kv/keys.go:91-150 | the three extractors give back inode, stripe and sequence number of every fragment key, which is classified as one |
| `Keys.FragmentKeyOrder` | kv/keys.go:91-98 | byte order of fragment keys is the order of (inode, stripe, sequence number), and keys are equal only if all three are |
| `Keys.PrefixUpperBound` | kv/keys.go:159-169 | a key is in [prefix, bound) if and only if it starts with the prefix, 0xff carries included; no bound exactly for all-0xff prefixes |
| `Keys.StripeRangeBounds` | index/index.go:680-705 | the scan range holds exactly the fragment keys of that inode and those stripes |
| `Fragments.FragmentRoundTrip` | index/fragment.go:35-56 | decoding an encoded fragment, whatever follows it, gives the fragment |
| `Fragments.FragmentsRoundTrip` | index/fragment.go:58-73 | decoding an encoded list gives the list |
| `Fragments.EncodeFragmentInto` | index/fragment.go:35-45 | exactly the 40 bytes of the record are overwritten, with its encoding |
| `Fragments.EncodeFragments` | index/fragment.go:58-64 | the buffer is the concatenation of the encodings |
| `Fragments.DecodeFragments` | index/fragment.go:66-73 | one fragment per whole 40 bytes, a shorter rest ignored |
| `Fragments.FragmentLayout` | index/fragment.go:35-45 | every byte of the record: which digit of which field it is, little endian, or zero |
| `Shadow.Subtract` | index/fragment.go:125-152 | a fragment splits the uncovered intervals into pieces that it covers and gaps that it does not, point by point, gaps ordered and never adjacent |
| `Shadow.Carve` | index/fragment.go:112-155 | newest first, pieces cover what any fragment covers in the range, each piece is won by its fragment throughout and clipped on the left only at the range's start or where a fragment at least as new ends |
| `Shadow.PlanRead` | index/fragment.go:102-164 | slices tile the range in order; each data slice is won throughout by one fragment and addressed inside it; a slice is sparse exactly where nothing covers |
| `Shadow.CanonicalView` | index/fragment.go:173-235 | disjoint, in file order, covers exactly what the fragments cover, each piece won by its fragment |
| `Records.HeaderRoundTrip` | segment/segment.go:68-92 | a header written and decoded is the same header, with magic and version in place |
| `Records.FrameLayout` | segment/segment.go:131-192 | every field of a frame at its place, magic, version and zeros included, and the trailer the checksum of everything after the magic |
| `Records.ParseIff` | segment/segment.go:263-310 | bytes are taken for a record with a given header if and only if magic, version, fields, length and checksum all fit |
| `Records.ParsedValid` | segment/segment.go:263-310 | whatever is taken for a record has fields in range |
| `Records.ScanStops` | segment/segment.go:263-310 | a scan ends exactly in front of bytes that are not taken for a record |
| `Records.ParseFrame` | segment/segment.go:131-192 | a framed record parses, for any checksum function |
| `Records.ParseTorn` | segment/segment.go:263-310 | no strict prefix of a frame parses |
| `Records.TornTailRecovery` | segment/segment.go:263-310 | after any records and any strict prefix of one more, the scan visits exactly those records with the payload offsets their appends returned, and stops behind the last |
| `Records.ScanAfterCut` | segment/segment.go:263-310 | cutting a log anywhere past a synced record boundary, the scan ends between that boundary and the cut, at the end of a whole log |
| `Records.Scan` | segment/segment.go:263-310 | the scan loop computes the recursive scan |
| `SegmentSets.RepairIdempotent` | segment/segment.go:512-530 | repairing twice is repairing once, whatever the files hold |
| `SegmentSets.CrashThenReopen` | segment/segment.go:328-369 | after any crash, reopening with tail repair gives a sound set that still has every synced byte |
| `SegmentSets.SegmentSet.Open` | segment/segment.go:328-369 | the set holds the directory's files, the highest id active, the next id above it |
| `SegmentSets.SetStepKeeps` | segment/segment.go:131-439 | every primitive file operation keeps a set sound and loses nothing |
| `SegmentSets.SegmentSet.CreateFile` | segment/segment.go:419-425 | a new empty file under the next id; one primitive |
| `SegmentSets.SegmentSet.Install` | segment/segment.go:426-437 | directory entries become durable and the file the write target; one primitive |
| `SegmentSets.SegmentSet.Sync` | segment/segment.go:213-225 | every byte of the file is beyond a crash; one primitive |
| `SegmentSets.SegmentSet.Active` | segment/segment.go:393-439 | the active segment stays while the record fits; else it is synced and a fresh empty one takes its place; the states passed are one primitive apart |
| `SegmentSets.SegmentSet.Append` | segment/segment.go:131-192 | the payload is at the returned offset, nothing before it changes; refused exactly if the header's length is not the payload's |
| `SegmentSets.SegmentSet.Remove` | segment/segment.go:491-508 | the segment is gone and no longer active; every other one, and the active one if it is another, stays as it is |
| `SegmentSets.SegmentSet.RepairTail` | segment/segment.go:512-530 | the active file is cut to where its scan stops |
| `Disks.CrashSafe` | index/index.go:139-226 | after any crash and reopening every committed record is in place with its exact bytes |
| `Disks.CrashKeepsContent` | index/index.go:139-226 | so every byte of every file reads as before the crash |
| `Stripes.ChunksTile` | index/index.go:440-459 | the chunks tile the payload in order, none empty, none across a stripe boundary, bytes in place |
| `Stripes.Split` | index/index.go:440-459 | the splitting loop (also index/index.go:795-830 and store/coalescer.go:237-260) computes these chunks |
| `Indexes.Index.NextSeq` | index/index.go:230-237 | each call returns one more than any before |
| `Disks.DiskStepsKeep` | index/index.go:516-590 | file operations, any number of them, keep the disk sound, keep every payload and touch no record |
| `Indexes.Index.CommitBatch` | kv/db.go:147-158 | the records change at once; one primitive |
| `Indexes.Index.WriteRecord` | index/index.go:805-830 | the framed record ends the file the tier writes to; that file is no larger than allowed, or holds nothing else; it is the old one whenever the record fits |
| `Indexes.Index.AppendBatch` | index/index.go:474-618 | refused exactly if an extent straddles stripes, then no record changes; else all extents are stored, synced and committed together; from entry to return the history advances by single file operations and at most one commit, the last |
| `Indexes.TraceStates` | index/index.go:516-618 | every state of such a run is sound, keeps every payload, and has the records from before unless it is the last |
| `Indexes.CrashAtomic` | index/index.go:516-618 | a crash in any state of such a run leaves, after reopening, all of the batch's records or none, each with the exact bytes written |
| `Indexes.CrashAtomicContent` | index/index.go:516-618 | read through files: every file reads as before the call, or every file reads as after it |
| `Indexes.Index.AppendTo` | index/index.go:423-463 | the payload's range reads as the payload, every other byte of every file as before; old records are unchanged and new ones are in the tier asked for |
| `Indexes.StripeLocalPlanning` | index/index.go:640-705 | for the bytes of a read, the records of the touched stripes decide exactly as all records of the inode do |
| `Indexes.Index.FragmentsInRange` | index/index.go:668-705 | exactly the inode's records in the touched stripes |
| `Indexes.Index.PlanRead` | index/index.go:640-663 | slices tile the range and their locators hold the file's current bytes; sparse exactly over holes |
| `Rewrites.TruncatedContent` | index/index.go:875-935 | bytes below the size and other files are unchanged, bytes from the size on are holes |
| `Indexes.Index.Truncate` | index/index.go:875-935 | each record of the inode is kept, clipped or dropped, no other touched |
| `Indexes.Index.DeleteInode` | index/index.go:939-968 | no record of the inode is left, no other touched |
| `Rewrites.MovedContent` | index/index.go:1059-1152 | replacing a stripe's records by copies of its canonical view changes no byte of any file |
| `Indexes.Index.Move` | index/index.go:1059-1152 | every file reads the same; the stripe's records are disjoint, all in the target tier, cover the same offsets and carry fresh stamps; file operations first, one commit last |
| `Indexes.Index.GC` | index/index.go:1169-1213 | removes exactly the segments that no record references and that are not active; every file reads the same |
| `Bulk.BulkSession.Write` | index/index.go:791-832 | queues one fragment per chunk with its bytes; no file changes |
| `Bulk.BulkSession.Commit` | index/index.go:836-862 | the last queued byte wins at each offset, everything else is unchanged; new records are in the session's tier; file operations first, one commit last |
| `StripeScan.IterStripes` | index/index.go:981-1044 | each stripe with a record is reported once, in key order, with per-tier sums and the number of distinct covered offsets |
| `StripeScan.LiveCount` | index/fragment.go:173-235 | the lengths of the canonical view add up to the number of distinct covered offsets |
| `StripeScan.LiveAtMostStored` | index/index.go:981-1044 | live bytes are at most hot plus cold bytes |
| `Migration.Migrate` | index/index.go:248-319 | all fragments survive if and only if stamps are distinct within each stripe, and otherwise one for each stamp; only records are left; without blobs nothing changes; the counter ends at or above every stored stamp |
| `Migration.MigratedExactly` | index/index.go:248-319 | the batch of the migration has that effect |
| `Migration.MigratedReads` | index/index.go:248-319 | where no fragment is lost, every offset of every stripe is covered by and won by the same fragments as before |
| `Migration.MigrationLosesOne` | index/index.go:275-300 | a blob with two fragments of one stamp: the migration keeps exactly one of them |
| `Extents.WriteReads` | store/coalescer.go:237-260 | the chunks of a write, stamped above everything, overwrite exactly its range |
| `Extents.CutReads` | store/coalescer.go:471-521 | cutting extents at a size keeps the bytes below it and leaves holes above |
| `CoalescerLinks.LinksKept` | store/coalescer.go:196-763 | every step keeps the references between buffers, batches and goroutines sound: one current and one flushing batch, each flush owned by one worker |
| `CoalescerMemory.AppendMemory` | store/coalescer.go:214-260 | the append moves acquired weight into the batch without changing the total |
| `CoalescerDurable.FsyncNeverLies` | store/coalescer.go:399-466 | in a state the invariant describes, a nil return means that of every extent of the snapshot what truncations left is stored, or gone with its file, and a failed awaited flush means an error |
| `CoalescerRuns.EveryRun` | store/coalescer.go:196-763 | in every state of every run: held weight equals bytes in memory and is within the cap, byte counts are extent sums, stamps are unique, fsync is honest, and the merged extents read and size as the specification, swaps, commits and settles included |
| `CoalescerRuns.LastWriteWins` | store/coalescer.go:302-346 | a byte not since cut or rewritten reads as the last write that covered it, in any interleaving |
| `CoalescerRuns.ShrinkThenGrow` | store/store.go:906-958 | after a shrink to at most p, offset p is a hole through all later size changes until written |
| `CoalescerRuns.StatIsExact` | store/store.go:242-266 | a write raises the reported size to its end, a size change sets it, no other step moves it |
| `CoalescerRuns.FsyncOnEveryRun` | store/coalescer.go:399-466 | so on any run: nil only if the snapshot is accounted for, an error if an awaited flush failed |
| `CoalescerSince.ApartOnEveryRun` | store/coalescer.go:196-763 | on every run what is in memory shares a stamp with what is stored only while its flush settles, is shorter than anything recorded as cut from it, and is not gone unless its file is; stored stamps are unique |
| `CoalescerSince.FsyncSinceSnapshot` | store/coalescer.go:399-466 | from snapshot to return: if fsync returns nil, then of every extent buffered at the snapshot all that truncations since then have left is on disk, or it was discarded since then with its file |
| `CoalescerProgress.MannedOnEveryRun` | store/coalescer.go:196-763 | on every run each batch taken by a flush or a drop has a goroutine standing where it works on it, and is closed exactly from its close on |
| `CoalescerProgress.CanGoOn` | store/coalescer.go:196-763 | a goroutine can take its next step if and only if it is not an fsync with an open batch or a drop with a flush in flight |
| `CoalescerProgress.OpenBatch` | store/coalescer.go:446-457 | a batch that is not done has an unblocked goroutine at work on it, or is its buffer's current one |
| `CoalescerProgress.DropGoesOn` | store/coalescer.go:536-545 | a drop that waits, waits for a flush with a goroutine at work |
| `CoalescerProgress.SwapTakes` | store/coalescer.go:677-690 | the worker takes the current batch if and only if it holds bytes and no flush is in flight, and leaves an empty one; otherwise nothing changes |
| `CoalescerProgress.FsyncGoesOn` | store/coalescer.go:399-466 | an fsync that cannot return has a batch being worked on, or one whose bytes a flush finds, or one that is empty |
| `CoalescerProgress.VainOnRun` | store/coalescer.go:677-690 | in the last case it does not return, whatever happens, until a write or a drop reaches the buffer |
| `CoalescerProgress.FsyncLeftWaiting` | store/coalescer.go:399-521 | a run of seven steps into that case: write one byte, fsync, truncate to nothing |
| `CoalescerProgress.FlushCompletes` | store/coalescer.go:739-763 | from the swap on: the batch is stored or the buffer poisoned, the buffer is free again, the batch is closed, its weight is back, all else as before |
| `CoalescerProgress.FailedFlushRefuses` | store/coalescer.go:221-228 | after a failed flush every write through the buffer leaves nothing but its weight returned, and every fsync through it fails |
| `CoalescerWeight.WeightComesBack` | store/coalescer.go:213-268 | while weight is held, some goroutine can go on or some current batch holds bytes |
| `CoalescerWeight.QuietHoldsNothing` | store/coalescer.go:759-763 | with no goroutine under way weight is held if and only if some current batch holds bytes |
| `CoalescerWeight.WeightIsFound` | store/coalescer.go:529-562 | as long as no write reaches a buffer that a drop makes or made the table forget, those bytes are in a buffer of the table |
| `CoalescerWeight.LateIsGone` | store/store.go:564-614 | only a file whose last link is gone can be written so late |
| `CoalescerWeight.OrphanMadeIff` | store/coalescer.go:219-268 | such a write orphans its bytes if and only if the buffer works, the table does not know it, and no other goroutine has it |
| `CoalescerWeight.OrphanNeedsLateWrite` | store/coalescer.go:529-562 | nothing else orphans bytes |
| `CoalescerWeight.OrphanForever` | store/coalescer.go:529-562 | orphaned bytes stay where they are on every continuation, and weight stays held |
| `CoalescerWeight.LateWriteOrphans` | store/coalescer.go:219-562 | a run of ten steps that orphans one byte |
| `CoalescerCode.ClipExtents` | store/coalescer.go:481-510 | keeps, shortens or drops each extent in order; the freed bytes are the difference of the sums |
| `CoalescerCode.AppendChunks` | store/coalescer.go:236-260 | appends one stamped extent per chunk; byte count and end follow |
| `CoalescerCode.Coalescer.Acquire` | store/coalescer.go:213-217 | the machine's acquire step |
| `CoalescerCode.Coalescer.GetOrCreateBuf` | store/coalescer.go:602-611 | the machine's step: the inode's buffer, made if there is none |
| `CoalescerCode.Coalescer.WriteLocked` | store/coalescer.go:221-268 | the machine's append step; refused exactly on a poisoned buffer, whose weight is returned |
| `CoalescerCode.Coalescer.SwapLocked` | store/coalescer.go:677-690 | the machine's swap step, or a bail that changes nothing |
| `CoalescerCode.Coalescer.SettleLocked` | store/coalescer.go:744-758 | the machine's settle step; a failed flush poisons the buffer |
| `CoalescerCode.Coalescer.ReleaseBatch` | store/coalescer.go:759-763 | the machine's close and release steps |
| `CoalescerCode.Coalescer.DropLocked` | store/coalescer.go:546-555 | the machine's drop step |
| `CoalescerCode.Coalescer.InvalidatePastSize` | store/coalescer.go:471-521 | the whole new state: both batches clipped, live size and weight lowered, the flushing batch charged for both; without a flush in flight this is the machine's cut; with one, the flushing batch's count stays right if and only if nothing was freed from current |
| `CoalescerCode.TruncateMiscounts` | store/coalescer.go:480-514 | a state whose counts are right and in which truncating during a flush leaves a batch that holds one byte and counts none |
| `CoalescerCode.Coalescer.FragmentsFor` | store/coalescer.go:302-346 | exactly the buffered extents that meet the range, of both batches |
| `CoalescerCode.Coalescer.CopyOut` | store/coalescer.go:358-396 | the bytes of a buffered extent with that stamp from the asked offset on; an error exactly if none can serve, stamps being unique |
| `Handles.ServedExactly` | store/coalescer.go:358-396 | a planned buffered slice can be served if and only if it starts at its extent's own offset, and by no other extent |
| `Handles.PlanServed` | store/handle.go:67-86 | no slice is unservable if the read enters no buffered extent past its start; some slice is if it enters one that is in memory only |
| `Handles.ReadAt` | store/handle.go:39-110 | a successful read fills the buffer with the newest bytes of disk and memory, zeros in holes, of exactly the offsets of the range below the size of disk and memory, and touches nothing behind; it succeeds and fails as just said |
| `Handles.ReadOnEveryRun` | store/handle.go:39-110 | after any run, with the index holding its files, what a read returns is the specification's bytes, and it stops at the specification's size |
| `Handles.ReadInsideFails` | store/handle.go:39-110 | two bytes are written at 0 through the write path; reading the second one returns an error |
| `Handles.TieDecides` | index/fragment.go:105-111 | for an extent in memory and on disk both the plan that serves and the plan that fails are plans |
| `Layers.FlushBatch` | store/coalescer.go:703-739 | the whole batch joins the inode's stored extents and no other inode changes; a record is an old one, or of this inode and in the buffer's tier; refused only for extents across stripes |
| `Layers.TruncateCuts` | store/store.go:906-925 | the index truncation is the machine's cut of stored extents |
| `Layers.MoveUnderBuffer` | index/index.go:1059-1152 | with extents buffered, a move changes a byte's reading only by bringing the stored bytes of its stripe to the front |
| `Layers.MoveReadsIff` | index/index.go:1059-1152 | all merged reads stay the same if and only if no newer buffered byte of the stripe lies over a different stored one |
| `Layers.MoveBringsBack` | index/index.go:1059-1152 | one byte stored, another buffered over it: before the move the read gives the buffered one, after it, every file alone reading the same, the stored one |
| `Tracking.MoveTracks` | index/index.go:1059-1152 | moving a stripe of which nothing is in memory keeps the disk alike to the machine at every offset, alone and under the buffer |
| `Systems.MoveStripe` | index/index.go:1059-1152 | `Move` makes such a move |
| `Systems.IndexInStep` | store/store.go:564-958 | on every run of machine and disk together, with stores, cuts, unlinks and such moves, the index reads, alone and under the buffer, as the machine's files |
| `Systems.FlushAccepted` | store/coalescer.go:703-739 | whenever a worker hands over its batch, stamps are as the index needs them and no extent crosses a stripe boundary |
| `Systems.ReadOnSystemRun` | store/handle.go:39-110 | after any such run, moves included, a read returns the specification's bytes and stops at its size |
| `Systems.ReadOnRun` | store/handle.go:39-110 | `ReadAt` on any such run: the bytes are the specification's, zeros in its holes, and their number is exactly that of the range's offsets below its size |
| `Persistence.FsyncExactly` | store/coalescer.go:459-465 | on every run an fsync that returns gives nil if and only if no flush of the file has failed |
| `Persistence.SnapshotWaits` | store/coalescer.go:414-432 | as long as none has failed, the snapshot goes on to wait for exactly those batches: every unsettled one of the file that holds anything, and no settled one |
| `Persistence.FsyncStores` | store/coalescer.go:399-466 | when fsync returns nil, the stored extents alone read each untouched byte as the file read when fsync began |
| `Persistence.FsyncWithoutBuffer` | store/coalescer.go:404-409 | fsync's early nil is sound: a file without a buffer has nothing in memory, and the stored extents alone read as the file |
| `Persistence.EndsOnEveryRun` | store/coalescer.go:718-737 | on every run batches end within their recorded end and stored extents within the stored size |
| `Systems.FsyncSurvivesCrash` | store/handle.go:280-296 | and so does the reopened index after any later crash, for every byte not since written, cut or unlinked, moves included, and the stored size reaches past each such byte |
| `NamespaceCode.Store.constructor` | store/store.go:88-131 | the root directory alone, with two links |
| `NamespaceCode.Store.Create` | store/store.go:371-411 | statuses in the code's order; on success one fresh node with one entry, otherwise nothing changes; also store/store.go:468-509 |
| `NamespaceCode.Store.Mkdir` | store/store.go:414-464 | the same for a directory, whose parent counts one more |
| `NamespaceCode.Store.Link` | store/store.go:524-560 | a further entry and link, refused for directories |
| `NamespaceCode.Store.Unlink` | store/store.go:564-614 | the entry goes, and with the last one the node |
| `NamespaceCode.Store.Rmdir` | store/store.go:629-674 | an empty directory goes with its entry |
| `NamespaceCode.Store.FindChild` | store/store.go:618-626 | true exactly if some entry lies in the directory |
| `NamespaceCode.Store.FindParent` | store/store.go:856-870 | the parent of an entry that names the inode, none only if there is no entry |
| `NamespaceCode.Store.IsDescendant` | store/store.go:835-851 | the walk of at most 1000 steps |
| `NamespaceCode.Store.Rename` | store/store.go:679-829 | all refusals in the code's order, the no-op on the same inode, the replaced node, both entries and the counts as the batch leaves them |
| `NamespaceCode.Store.LookupPath` | store/store.go:323-342 | resolves a path name by name from the root |
| `NamespaceCounts.GoodKept` | store/store.go:371-829 | every operation keeps: no dangling entry, none for the root, at most one per directory, file link counts equal to entries and positive, inodes not reused |
| `NamespaceCounts.FreedExactly` | store/store.go:587-612 | a file's node goes exactly when the last entry naming it does |
| `NamespaceCounts.DirCountKept` | store/store.go:718-819 | every operation keeps a directory's count at 2 plus subdirectories, or raises it by one in the one case |
| `NamespaceCounts.LinkCountsOnEveryRun` | store/store.go:371-829 | on every run these hold, a directory's count being off by the number of such renames into it |
| `NamespaceCounts.DirCountRightIff` | store/store.go:757-815 | a directory's count is right if and only if no directory from another parent has replaced one of its subdirectories |
| `NamespaceCounts.OvercountExample` | store/store.go:757-815 | rename(/a/x, /b/y) after which /b counts two subdirectories and has one |
| `NamespaceTrees.DescendsExactly` | store/store.go:835-851 | the walk answers yes if and only if the directory is among the first n proper ancestors |
| `NamespaceTrees.RenameTreeIff` | store/store.go:679-829 | a rename keeps every directory connected to the root if and only if the moved directory is not an ancestor of the new parent beyond the walk |
| `NamespaceTrees.ShallowIsSafe` | store/store.go:835-851 | below a new parent at depth at most 1000 that never happens |
| `NamespaceTrees.TreeKept` | store/store.go:371-829 | every operation keeps the tree unless it is such a rename |
| `NamespaceTrees.OneEntryEach` | store/store.go:371-829 | in a tree the root has no entry and every other directory exactly one |
| `NamespaceTrees.TreeOnEveryRun` | store/store.go:371-829 | every run without such a rename ends in a tree |
| `NamespaceTrees.DeepRenameLoops` | store/store.go:835-851 | a chain of more than 1002 directories whose top is renamed under its bottom: accepted, and the tree is cut apart |
| `NamespaceTrees.RenameMeaning` | store/store.go:679-829 | after a rename the new path leads, with everything below it, exactly where the old path led |
| `NamespaceMeaning.RefusedIsNoOp` | store/store.go:371-829 | an operation that is refused changes nothing |
| `NamespaceMeaning.NameRefused` | store/store.go:352-358 | an empty name, a dot or two, a slash or a zero byte are refused before anything else |
| `NamespaceMeaning.CreateMeans` | store/store.go:371-411 | each status exactly when it is due; on success one entry for one fresh node with one link, all else as before; also store/store.go:468-509 |
| `NamespaceMeaning.MkdirMeans` | store/store.go:414-464 | the same for a directory with two links, and one link more on its parent |
| `NamespaceMeaning.LinkMeans` | store/store.go:524-560 | each status exactly when it is due; on success one entry and one link more, all else as before |
| `NamespaceMeaning.UnlinkMeans` | store/store.go:564-614 | Ok if and only if the name is valid and names something other than a directory; then that entry goes and nothing else, and the node has one link fewer, or goes if no entry is left |
| `NamespaceMeaning.RmdirMeans` | store/store.go:629-674 | Ok if and only if the name is valid and names a directory that nothing lies in; then its entry and node go, and the parent has one link fewer |
| `NamespaceMeaning.DescendsIffLeads` | store/store.go:835-851 | the walk answers yes exactly if a chain of at most n entries leads down from the one directory to the other |
| `NamespaceMeaning.RenameAccepted` | store/store.go:679-756 | Ok, NotExist and Invalid, each exactly when it is due, in terms of entries, nodes and chains of at most 1000 entries |
| `NamespaceMeaning.RenameInTheWay` | store/store.go:718-756 | NotDir, IsDir and NotEmpty, each exactly when what the new name already names forces it |
| `NamespaceMeaning.RenameMoves` | store/store.go:725-829 | between two names of one inode nothing changes; otherwise the entry leaves its old place and takes the new one, and no other entry changes |
| `NamespaceMeaning.RenameLinks` | store/store.go:757-819 | which node goes, and the link count of every other node |
| `NamespaceMeaning.RenameMakesNone` | store/store.go:679-829 | a rename makes no node |
| `NamespaceMeaning.ResolveIff` | store/store.go:323-342 | a path leads to an inode if and only if entries of its names do, one below the other |
| `NamespaceMeaning.ResolveStops` | store/store.go:323-342 | a failing lookup fails at the first name that cannot be followed, with the status of that step |
| `NamespaceMeaning.ReachableOnEveryRun` | store/store.go:371-829 | on every run without a rename the walk overlooks, every node has a path of names from the root |

## Left out

- The FUSE adapter, admin server, metrics, tracing, logging and `main`; the mover loop and byte-size parsing: they chain the operations above.
- The key/value store's internals and its migration from bbolt: a map with atomic, durable batches; reads inside a batch see the store, not the batch.
- I/O errors, short writes, directory-fsync failures: an append completes or the process crashes.
- GC's second pass over stray files, and GC or bulk sessions running beside other operations: GC is one step with nothing uncommitted.
- Node records as bytes, symlink targets, modes, owners and timestamps: a node is its type and link count, and its size in the write-back model.
- Concurrent namespace operations: create, unlink and mkdir take no lock, the model runs operations one after the other.
- The tick loop's and the queue's timing, `Drain` and `Close`: a flush of any buffered inode may start at any time. Progress is stated as who can take a step and what the step does, not as a time by which it happens.
- Fsync's forced flush: the machine's fsync waits for its batches whoever flushes them; an error from a cancelled context is not modelled.
- A read is one step: disk and memory fragments are taken from one state.
- CoalescerRuns.EveryRun: shrinking is a step only while no batch of the inode is being flushed, because the flusher reads a batch without its lock; what truncation does to the counts otherwise is stated at CoalescerCode.Coalescer.InvalidatePastSize.
- CoalescerRuns.EveryRun: a size change is one step, though Setattr invalidates, truncates and writes the node one after the other and its write of the node can race the one in the flush's batch; so is unlinking the last name, which removes node and stored fragments before the drop.
- Systems.ReadOnSystemRun: moves are part of a run while nothing of their stripe is in memory, otherwise Layers.MoveReadsIff says what they change; bulk commits are not part of a run.
- Integer widths: stamps, offsets and counts are unbounded; where the record and key formats need a range (64-bit stamps and inodes, 32-bit stripes and lengths) it is a precondition. Link counts do not wrap.
- Handles.ReadAt: requires unique stamps and no empty extents, which every run provides (Handles.ReadOnEveryRun). Whether it succeeds is left open where the entered extent is both in memory and on disk, because the sort does not promise an order for equal stamps.
- Handles.PlanServed: leaves the same case open, for the same reason (Handles.TieDecides).
- Handles.ReadOnEveryRun: takes it as given that the index holds the run's files; Systems.ReadOnSystemRun does not.
- Indexes.Index.AppendBatch: several appends at once (they share a read lock) are not interleaved with each other; the machine interleaves their commits.
- `planRead` and `canonicalView` share their subtraction loop, and three callers share the splitting loop: each loop is modelled once. Sorting is any reordering by key, ties in any order.
- `BulkWriter`'s size update after a bulk commit, `Readdir`, `Statfs`, `Sync` and other short accessors.
