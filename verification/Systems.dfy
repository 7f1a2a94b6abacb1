/** Buffer and disk together: the index reads as the write-back machine says, moves included, and what fsync has
    answered for survives a crash. */
module Systems {
  import opened Bytes
  import opened Keys
  import opened Fragments
  import opened Records
  import opened SegmentSets
  import opened Disks
  import opened Stripes
  import opened Extents
  import opened Rewrites
  import opened Indexes
  import opened Coalescers
  import opened CoalescerLinks
  import opened CoalescerMemory
  import opened CoalescerDurable
  import opened CoalescerRefinement
  import opened CoalescerRuns
  import opened CoalescerSince
  import opened CoalescerCode
  import opened Handles
  import opened Layers
  import opened Persistence
  import opened Tracking

  // ----- the disk beside the machine

  /** Nothing visible changes: staging, rotation, fsyncs, a flush that fails, garbage collection. */
  ghost predicate Background(crc: Checksum, width: nat, d: Disk, e: Disk)
    requires RecordsOk(width, d)
  {
    && DiskOk(crc, width, e) && e.frags == d.frags
    && forall k :: k in d.frags ==> Payload(e, d.frags[k]) == Payload(d, d.frags[k])
  }

  /** What Layers.FlushBatch does when it succeeds. */
  ghost predicate Flushes(crc: Checksum, width: nat, d: Disk, e: Disk, inode: nat, es: seq<Extent>)
    requires RecordsOk(width, d)
  {
    && DiskOk(crc, width, e) && DiskExtents(width, e, inode) == DiskExtents(width, d, inode) + Elements(es)
    && forall other :: other != inode ==> DiskExtents(width, e, other) == DiskExtents(width, d, other)
  }

  /** The disk's part of a step of the machine: a store commits the batch, a shrink truncates, an unlink deletes, and a
      stripe of which nothing is in memory may move. */
  ghost predicate DiskFollows(crc: Checksum, width: nat, s: State, e: Event, d: Disk, d': Disk)
    requires width > 0 && RecordsOk(width, d)
  {
    match e
    case Store(t, ok) =>
      if ok && CanStore(s, t) && s.bufs[s.threads[t].buf].inode in s.files
      then Flushes(crc, width, d, d', s.bufs[s.threads[t].buf].inode, s.batches[s.threads[t].batch].extents)
      else Background(crc, width, d, d')
    case Resize(i, size) =>
      if i in s.files && size < StatSize(s, i) then DiskOk(crc, width, d') && TruncatesTo(d, d', i, size)
      else Background(crc, width, d, d')
    case Unlink(i) => DiskOk(crc, width, d') && TruncatesTo(d, d', i, 0)
    case TakeStamps(n) =>
      Background(crc, width, d, d') || exists i, stripe :: StripeMoves(crc, width, s, d, d', i, stripe, n)
    case _ => Background(crc, width, d, d')
  }

  /** Index.Move makes such a move when nothing of the stripe is in memory. */
  method MoveStripe(ix: Index, ghost s: State, inode: nat, stripe: nat, target: Tier)
    requires ix.Valid() && inode < U64 && stripe < U32 && (target == HOT || target == COLD) && ix.seqGen == s.seqGen
    requires ix.stripeSize < U32 && Int64(StripeStart(ix.stripeSize, stripe + 1)) && ix.seqGen + ix.stripeSize < U64
    requires forall c, x, p: nat ::
      LiveExtent(s, c, x) && InodeBatch(s, c, inode) && x.Covers(p) ==> p / ix.stripeSize != stripe
    modifies ix, ix.hot, ix.cold
    ensures ix.Valid() && ix.seqGen >= s.seqGen
    ensures StripeMoves(ix.crc, ix.stripeSize, s, old(ix.View()), ix.View(), inode, stripe, ix.seqGen - s.seqGen)
  {
    hide SetOk, RecordsOk, SameFiles, CleanStripe, SameCoverage, Restamps, Trace, LiveExtent;
    ix.Move(inode, stripe, target);
  }

  /** The disk reads, alone and under the buffer, as the machine's files. */
  ghost predicate InStep(crc: Checksum, width: nat, s: State, d: Disk) {
    width > 0 && DiskOk(crc, width, d) && forall i :: InodeInStep(s, DiskExtents(width, d, i), i)
  }

  lemma BackgroundSame(crc: Checksum, width: nat, d: Disk, e: Disk, inode: nat)
    requires RecordsOk(width, d) && Background(crc, width, d, e)
    ensures DiskExtents(width, e, inode) == DiskExtents(width, d, inode)
  {
    SameKeysSameExtents(width, d, e, inode);
  }

  lemma StepInStep(cfg: Config, crc: Checksum, s: State, e: Event, d: Disk, d': Disk)
    requires Links(s) && Stamps(s) && StampsApart(s)
    requires InStep(crc, cfg.width, s, d) && Enabled(cfg, s, e) && DiskFollows(crc, cfg.width, s, e, d, d')
    ensures InStep(crc, cfg.width, Next(cfg, s, e), d')
  {
    var width := cfg.width;
    FollowsOk(crc, width, s, e, d, d');
    hide Links, Stamps, StampsApart, DiskOk, RecordsOk, InodeInStep, DiskFollows, Next;
    forall i
      ensures InodeInStep(Next(cfg, s, e), DiskExtents(width, d', i), i)
    {
      assert InodeInStep(s, DiskExtents(width, d, i), i);
      StepInodeInStep(cfg, crc, s, e, d, d', i);
    }
  }

  lemma StepInodeInStep(cfg: Config, crc: Checksum, s: State, e: Event, d: Disk, d': Disk, i: nat)
    requires Links(s) && Stamps(s) && StampsApart(s) && cfg.width > 0 && DiskOk(crc, cfg.width, d)
    requires DiskOk(crc, cfg.width, d')
    requires InodeInStep(s, DiskExtents(cfg.width, d, i), i) && Enabled(cfg, s, e)
    requires DiskFollows(crc, cfg.width, s, e, d, d')
    ensures InodeInStep(Next(cfg, s, e), DiskExtents(cfg.width, d', i), i)
  {
    if e.Store? {
      StoreFollows(crc, cfg.width, s, e.t, e.ok, d, d', i);
    } else if e.Resize? {
      ResizeFollows(crc, cfg.width, s, e.inode, e.size, d, d', i);
    } else if e.Unlink? {
      UnlinkFollows(crc, cfg.width, s, e.inode, d, d', i);
    } else if e.Create? {
      BackgroundSame(crc, cfg.width, d, d', i);
      CreateFollows(s, e.inode, DiskExtents(cfg.width, d, i), i);
    } else if e.TakeStamps? {
      TakeFollows(crc, cfg.width, s, e.n, d, d', i);
    } else {
      BackgroundSame(crc, cfg.width, d, d', i);
      OtherFollows(cfg, s, e, DiskExtents(cfg.width, d, i), i);
    }
  }

  /** Steps that touch neither the disk nor what the machine calls stored. */
  lemma OtherFollows(cfg: Config, s: State, e: Event, stored: set<Extent>, i: nat)
    requires Links(s) && Enabled(cfg, s, e) && InodeInStep(s, stored, i)
    requires !e.Store? && !e.Resize? && !e.Unlink? && !e.Create? && !e.TakeStamps?
    ensures InodeInStep(Next(cfg, s, e), stored, i)
  {
    hide Links, InodeInStep, LiveFrom, Quiet, DoAppend, DoDropEmpty;
    var n := Next(cfg, s, e);
    if e.Append? {
      AppendFrom(cfg, s, e.t, e.id0, i);
    } else if e.DropEmpty? {
      DropEmptyFrom(s, e.t, i);
    } else {
      QuietKept(cfg, s, e);
      QuietFrom(s, n, i);
    }
    FilesSame(cfg, s, e);
    hide Enabled, Next;
    SameInStep(s, n, stored, i);
  }

  lemma CreateFollows(s: State, j: nat, stored: set<Extent>, i: nat)
    requires CanCreate(s, j) && InodeInStep(s, stored, i)
    ensures InodeInStep(DoCreate(s, j), stored, i)
  {
    var n := DoCreate(s, j);
    SameBatchesFrom(s, n, i);
    if i == j {
      forall p
        ensures TracksAt(n, {}, i, p)
      {
        AlikeEmpty(p, 0);
        assert Tracks(n, {}, i, p, 0);
      }
    } else {
      SameInStep(s, n, stored, i);
    }
  }

  lemma UnlinkFollows(crc: Checksum, width: nat, s: State, j: nat, d: Disk, d': Disk, i: nat)
    requires width > 0 && DiskOk(crc, width, d) && DiskOk(crc, width, d') && TruncatesTo(d, d', j, 0) && j in s.files
    requires InodeInStep(s, DiskExtents(width, d, i), i)
    ensures InodeInStep(DoUnlink(s, j), DiskExtents(width, d', i), i)
  {
    TruncateCuts(width, d, d', j, 0);
    hide SetOk, DiskExtents;
    var n := DoUnlink(s, j);
    if i == j {
      CutToNothing(DiskExtents(width, d, j));
    } else {
      SameBatchesFrom(s, n, i);
      SameInStep(s, n, DiskExtents(width, d, i), i);
    }
  }

  lemma ResizeFollows(crc: Checksum, width: nat, s: State, j: nat, size: nat, d: Disk, d': Disk, i: nat)
    requires Links(s) && width > 0 && DiskOk(crc, width, d) && CanResize(s, j, size)
    requires DiskFollows(crc, width, s, Resize(j, size), d, d') && InodeInStep(s, DiskExtents(width, d, i), i)
    ensures DiskOk(crc, width, d') && InodeInStep(DoResize(s, j, size), DiskExtents(width, d', i), i)
  {
    var n := DoResize(s, j, size);
    if size < StatSize(s, j) {
      TruncateCuts(width, d, d', j, size);
      hide SetOk, DiskExtents, Links, InodeInStep, LiveFrom;
      if i == j {
        CutInStep(s, i, size, DiskExtents(width, d, i));
      } else {
        ResizeFrom(s, j, size, i);
        InvalidatedFiles(s, j, size);
        SameInStep(s, n, DiskExtents(width, d, i), i);
      }
    } else {
      BackgroundSame(crc, width, d, d', i);
      SameBatchesFrom(s, n, i);
      hide SetOk, DiskExtents, Links, InodeInStep, LiveFrom;
      SameInStep(s, n, DiskExtents(width, d, i), i);
    }
  }

  lemma StoreFollows(crc: Checksum, width: nat, s: State, t: nat, ok: bool, d: Disk, d': Disk, i: nat)
    requires Links(s) && Stamps(s) && StampsApart(s) && width > 0 && DiskOk(crc, width, d) && CanStore(s, t)
    requires DiskFollows(crc, width, s, Store(t, ok), d, d') && InodeInStep(s, DiskExtents(width, d, i), i)
    ensures DiskOk(crc, width, d') && InodeInStep(DoStore(s, t, ok), DiskExtents(width, d', i), i)
  {
    hide SetOk, DiskExtents, Links, Stamps, StampsApart, InodeInStep, LiveFrom, Elements;
    var n, inode := DoStore(s, t, ok), s.bufs[s.threads[t].buf].inode;
    SameBatchesFrom(s, n, i);
    if ok && inode in s.files {
      if i == inode {
        StoreInStep(s, t, DiskExtents(width, d, i), i);
      } else {
        SameInStep(s, n, DiskExtents(width, d, i), i);
      }
    } else {
      BackgroundSame(crc, width, d, d', i);
      SameInStep(s, n, DiskExtents(width, d, i), i);
    }
  }

  lemma TakeFollows(crc: Checksum, width: nat, s: State, n: nat, d: Disk, d': Disk, i: nat)
    requires Stamps(s) && width > 0 && DiskOk(crc, width, d) && DiskOk(crc, width, d')
    requires DiskFollows(crc, width, s, TakeStamps(n), d, d') && InodeInStep(s, DiskExtents(width, d, i), i)
    ensures InodeInStep(DoTakeStamps(s, n), DiskExtents(width, d', i), i)
  {
    if Background(crc, width, d, d') {
      BackgroundSame(crc, width, d, d', i);
      SameBatchesFrom(s, DoTakeStamps(s, n), i);
      SameInStep(s, DoTakeStamps(s, n), DiskExtents(width, d, i), i);
    } else {
      var inode, stripe :| StripeMoves(crc, width, s, d, d', inode, stripe, n);
      hide SetOk, Known, TracksAt, StripeMoves, Stamps, DiskExtents;
      if i in s.files {
        MoveKnown(crc, width, s, d, d', inode, stripe, n, i);
        forall p
          ensures TracksAt(DoTakeStamps(s, n), DiskExtents(width, d', i), i, p)
        {
          MoveTracks(crc, width, s, d, d', inode, stripe, n, i, p);
        }
      } else {
        NothingMoves(crc, width, s, d, d', inode, stripe, n, i);
      }
    }
  }

  lemma NothingMoves(crc: Checksum, width: nat, s: State, d: Disk, d': Disk, inode: nat, stripe: nat, n: nat, i: nat)
    requires DiskOk(crc, width, d) && StripeMoves(crc, width, s, d, d', inode, stripe, n)
    requires DiskExtents(width, d, i) == {}
    requires Stamps(s)
    ensures DiskExtents(width, d', i) == {}
  {
    hide SetOk, Content;
    forall x | x in DiskExtents(width, d', i)
      ensures false
    {
      var k := RecordOf(width, d', i, x);
      var p := x.off;
      assert RecordOk(width, k, d'.frags[k]) && x.Covers(p);
      CoveringRecord(width, d', i, p, x);
      HoleIsNone(width, d', i, p);
      HoleIsNone(width, d, i, p);
      assert Content(width, d', i, p) == Content(width, d, i, p);
      var j :| j in d.frags && j.inode == i && d.frags[j].Covers(p);
      RecordShows(width, d, i, j);
    }
  }

  lemma FollowsOk(crc: Checksum, width: nat, s: State, e: Event, d: Disk, d': Disk)
    requires width > 0 && RecordsOk(width, d) && DiskFollows(crc, width, s, e, d, d')
    ensures DiskOk(crc, width, d')
  {
  }

  lemma CutToNothing(es: set<Extent>)
    ensures CutSet(es, 0) == {}
  {
  }

  /** A run of the machine with the disk beside it, from an empty index. */
  ghost predicate SystemRun(cfg: Config, crc: Checksum, states: seq<State>, events: seq<Event>, disks: seq<Disk>) {
    && cfg.width > 0 && Run(cfg, states, events) && |disks| == |states|
    && DiskOk(crc, cfg.width, disks[0]) && disks[0].frags == map[]
    && forall k :: 0 <= k < |events| ==>
         RecordsOk(cfg.width, disks[k]) && DiskFollows(crc, cfg.width, states[k], events[k], disks[k], disks[k + 1])
  }

  /** On every run, moves included, the index reads, alone and under the buffer, as the machine's files. */
  lemma {:induction false} IndexInStep(cfg: Config, crc: Checksum, states: seq<State>, events: seq<Event>,
                                       disks: seq<Disk>, k: nat)
    requires SystemRun(cfg, crc, states, events, disks) && k < |states|
    ensures InStep(crc, cfg.width, states[k], disks[k])
    decreases k
  {
    hide InStep, Enabled, Next, DiskFollows, DiskOk, RecordsOk, Links, Memory, Stamps, Durable, StampsApart;
    if k == 0 {
      EmptyInStep(crc, cfg.width, disks[0]);
    } else {
      IndexInStep(cfg, crc, states, events, disks, k - 1);
      ApartOnEveryRun(cfg, states, events, k - 1);
      assert DiskFollows(crc, cfg.width, states[k - 1], events[k - 1], disks[k - 1], disks[k - 1 + 1]);
      StepInStep(cfg, crc, states[k - 1], events[k - 1], disks[k - 1], disks[k]);
    }
  }

  lemma EmptyInStep(crc: Checksum, width: nat, d: Disk)
    requires width > 0 && DiskOk(crc, width, d) && d.frags == map[]
    ensures InStep(crc, width, EMPTY_STATE, d)
  {
    hide SetOk;
    forall i
      ensures DiskExtents(width, d, i) == {}
    {
      NothingStored(width, d, i);
    }
  }

  // ----- reading through both

  /** The disk's extents and the machine's read the same under the buffer. */
  lemma MergedAlike(s: State, stored: set<Extent>, i: nat, p: int)
    requires Links(s) && i in s.files && InodeInStep(s, stored, i)
    ensures forall v :: ReadsByte(stored + InBuffer(s, i), p, v) <==> ReadsByte(Merged(s, i), p, v)
  {
    assert TracksAt(s, stored, i, p);
    var top: nat :| Tracks(s, stored, i, p, top);
    forall x | x in InBuffer(s, i) && x.Covers(p)
      ensures x.stamp > top
    {
      TableOk(s, i);
      BufferedLive(s, s.table[i], x);
      var c :| LiveExtent(s, c, x) && s.batches[c].owner == s.table[i];
      assert InodeBatch(s, c, i);
    }
    hide Links, InBuffer, AlikeAt, ReadsByte;
    TrackedAlike(s, stored, i, p, top);
    AlikeAdd(stored, StoredOf(s, i), InBuffer(s, i), p, top);
    AlikeBoth(stored + InBuffer(s, i), StoredOf(s, i) + InBuffer(s, i), p, top);
  }

  lemma MergedOnePer(s: State, stored: set<Extent>, i: nat)
    requires Links(s) && i in s.files && InodeInStep(s, stored, i) && OnePerStamp(Merged(s, i))
    ensures OnePerStamp(stored + InBuffer(s, i))
  {
    forall g, x | g in stored && x in InBuffer(s, i) && g.stamp == x.stamp
      ensures g == x
    {
      TableOk(s, i);
      BufferedLive(s, s.table[i], x);
    }
  }

  lemma ByteIsReads(es: set<Extent>, p: int, b: byte)
    ensures ByteIs(es, p, b) <==> ReadsByte(es, p, Some(b)) || (b == 0 && ReadsByte(es, p, None))
  {
  }

  /** After any run of buffer and disk together, moves included, a read may be issued, and it returns the
      specification's bytes and stops at its size. */
  lemma ReadOnSystemRun(cfg: Config, crc: Checksum, states: seq<State>, events: seq<Event>, disks: seq<Disk>, k: nat,
                        ix: Index, co: Coalescer, i: nat, off: nat, bytes: seq<byte>)
    requires SystemRun(cfg, crc, states, events, disks) && k <= |events| && i in SpecAt(states, events, k)
    requires ix.Valid() && ix.stripeSize == cfg.width && ix.View() == disks[k] && co.Agrees(states[k])
    ensures i in states[k].files && co.Linked(i) && OnePerStamp(MergedExtents(ix, co, i))
    ensures forall x :: x in co.Held(i) ==> x.data != []
    ensures var f := SpecAt(states, events, k)[i];
            && co.LiveSize(i, states[k].files[i].size) == f.size
            && (RangeIs(MergedExtents(ix, co, i), off, bytes) <==>
                forall n :: 0 <= n < |bytes| ==> bytes[n] == if off + n in f.bytes then f.bytes[off + n] else 0)
  {
    EveryRun(cfg, states, events, k);
    IndexInStep(cfg, crc, states, events, disks, k);
    hide Memory, Durable, Enabled, Next, DiskExtents, SpecAt, DiskFollows, SystemRun, DiskOk;
    var s, f := states[k], SpecAt(states, events, k)[i];
    assert InodeOk(s, i, f);
    BufferLinked(co, s, i);
    ReadInStep(ix, co, s, i, f, off, bytes);
  }

  /** ReadAt on any such run: a successful read returns the specification's bytes, zeros in its holes, of exactly those
      offsets of the range that lie below its size. */
  method ReadOnRun(ghost cfg: Config, ghost crc: Checksum, ghost states: seq<State>, ghost events: seq<Event>,
                   ghost disks: seq<Disk>, ghost k: nat, ix: Index, co: Coalescer, i: nat, node: Option<nat>,
                   p: array<byte>, off: nat)
    returns (n: Option<nat>)
    requires SystemRun(cfg, crc, states, events, disks) && k <= |events| && i in SpecAt(states, events, k)
    requires ix.Valid() && ix.stripeSize == cfg.width && ix.View() == disks[k] && co.Agrees(states[k])
    requires i in states[k].files && node == Some(states[k].files[i].size)
    modifies p
    ensures n.Some? ==> n.value <= p.Length && p[n.value..] == old(p[n.value..])
    ensures n.Some? && 0 < n.value ==> off + n.value <= SpecAt(states, events, k)[i].size
    ensures n.Some? && n.value < p.Length ==> off + n.value >= SpecAt(states, events, k)[i].size
    ensures n.Some? ==> forall j :: 0 <= j < n.value ==>
      p[j] == if off + j in SpecAt(states, events, k)[i].bytes then SpecAt(states, events, k)[i].bytes[off + j] else 0
  {
    ReadOnSystemRun(cfg, crc, states, events, disks, k, ix, co, i, off, []);
    hide SystemRun, SpecAt, OnePerStamp, MergedExtents, EntersSome, EntersUnstored, RangeIs;
    n := ReadAt(ix, co, i, node, p, off);
    if n.Some? {
      ReadOnSystemRun(cfg, crc, states, events, disks, k, ix, co, i, off, p[..n.value]);
    }
  }

  lemma ReadInStep(ix: Index, co: Coalescer, s: State, i: nat, f: SpecFile, off: nat, bytes: seq<byte>)
    requires ix.Valid() && co.Agrees(s) && co.Linked(i) && Links(s) && InodeOk(s, i, f)
    requires InodeInStep(s, DiskExtents(ix.stripeSize, ix.View(), i), i)
    ensures OnePerStamp(MergedExtents(ix, co, i)) && co.LiveSize(i, s.files[i].size) == f.size
    ensures RangeIs(MergedExtents(ix, co, i), off, bytes) <==>
      forall n :: 0 <= n < |bytes| ==> bytes[n] == if off + n in f.bytes then f.bytes[off + n] else 0
  {
    var stored := DiskExtents(ix.stripeSize, ix.View(), i);
    MergedOnePer(s, stored, i);
    assert MergedExtents(ix, co, i) == stored + InBuffer(s, i);
    hide ReadsAs, OnePerStamp, DiskExtents, Newest, Links, InBuffer, InodeInStep, ReadsByte, ByteIs;
    forall p, b
      ensures ByteIs(stored + InBuffer(s, i), p, b) <==> b == if p in f.bytes then f.bytes[p] else 0
    {
      ByteIsSpec(Merged(s, i), f.bytes, p, b);
      MergedAlike(s, stored, i, p);
      ByteIsReads(stored + InBuffer(s, i), p, b);
      ByteIsReads(Merged(s, i), p, b);
    }
  }

  // ----- the index accepts every batch

  ghost predicate Striped(width: nat, s: State)
    requires width > 0
  {
    forall c, x :: c in s.batches && x in s.batches[c].extents ==> InsideStripe(width, x)
  }

  lemma StripedKept(cfg: Config, s: State, e: Event)
    requires cfg.width > 0 && Striped(cfg.width, s) && Enabled(cfg, s, e)
    ensures Striped(cfg.width, Next(cfg, s, e))
  {
    if e.Append? {
      AppendStriped(cfg, s, e.t, e.id0);
    } else if e.Resize? {
      ResizeStriped(cfg.width, s, e.inode, e.size);
    } else if e.Store? || e.TakeStamps? {
      assert Next(cfg, s, e).batches == s.batches;
    } else {
      hide Enabled, Next, InsideStripe;
      KeepsExtents(cfg, s, e);
    }
  }

  lemma AppendStriped(cfg: Config, s: State, t: nat, id0: nat)
    requires cfg.width > 0 && Striped(cfg.width, s) && CanAppend(s, t, id0)
    ensures Striped(cfg.width, DoAppend(cfg, s, t, id0))
  {
    hide Chunks, StripeStart;
    var w := s.threads[t];
    StampedStriped(cfg.width, w.off, w.data, s.seqGen);
    hide InsideStripe, Stamped;
  }

  lemma StampedStriped(width: nat, off: nat, data: seq<byte>, base: nat)
    requires width > 0
    ensures forall x :: x in Stamped(Chunks(width, off, data), base) ==> InsideStripe(width, x)
  {
    hide Chunks, StripeStart;
    ChunksTile(width, off, data);
    var cs := Chunks(width, off, data);
    forall i | 0 <= i < |cs|
      ensures InsideStripe(width, Stamped(cs, base)[i])
    {
      assert StripeBounded(width, cs[i]);
    }
  }

  lemma ResizeStriped(width: nat, s: State, i: nat, size: nat)
    requires width > 0 && Striped(width, s) && CanResize(s, i, size)
    ensures Striped(width, DoResize(s, i, size))
  {
    hide Clipped, SumLen, MaxEnd, CutSet, CutsOf, StripeStart;
    var n := DoResize(s, i, size);
    forall c, x | c in n.batches && x in n.batches[c].extents
      ensures InsideStripe(width, x)
    {
      if n.batches[c].extents != s.batches[c].extents {
        var k :| 0 <= k < |n.batches[c].extents| && n.batches[c].extents[k] == x;
        var j := ClippedFrom(s.batches[c].extents, size, k);
        assert InsideStripe(width, s.batches[c].extents[j]);
      }
    }
  }

  lemma {:induction false} StripedOnEveryRun(cfg: Config, states: seq<State>, events: seq<Event>, k: nat)
    requires Run(cfg, states, events) && k < |states| && cfg.width > 0
    ensures Striped(cfg.width, states[k])
    decreases k
  {
    if k > 0 {
      StripedOnEveryRun(cfg, states, events, k - 1);
      hide Striped, Enabled, Next;
      StripedKept(cfg, states[k - 1], events[k - 1]);
    }
  }

  /** Whenever a flush worker hands its batch to the index, the batch meets what Layers.FlushBatch asks of stamps, and
      no extent crosses a stripe boundary, so the index does not refuse it. */
  lemma FlushAccepted(cfg: Config, crc: Checksum, states: seq<State>, events: seq<Event>, disks: seq<Disk>, k: nat,
                      t: nat)
    requires SystemRun(cfg, crc, states, events, disks) && k < |states| && CanStore(states[k], t) && cfg.width > 0
    requires states[k].bufs[states[k].threads[t].buf].inode in states[k].files
    ensures var es := states[k].batches[states[k].threads[t].batch].extents;
            var i := states[k].bufs[states[k].threads[t].buf].inode;
            && RecordsOk(cfg.width, disks[k]) && OnePerStamp(DiskExtents(cfg.width, disks[k], i) + Elements(es))
            && (forall a, b :: 0 <= a < b < |es| ==> es[a].stamp != es[b].stamp)
            && (forall x :: x in es ==> InsideStripe(cfg.width, x) && x.data != [])
  {
    ApartOnEveryRun(cfg, states, events, k);
    IndexInStep(cfg, crc, states, events, disks, k);
    StripedOnEveryRun(cfg, states, events, k);
    hide Memory, Durable, SystemRun, DiskOk, DiskExtents, InsideStripe;
    var s, i := states[k], states[k].bufs[states[k].threads[t].buf].inode;
    ThreadOk(s, t);
    assert InodeInStep(s, DiskExtents(cfg.width, disks[k], i), i);
    hide Links;
    BatchFresh(s, t, DiskExtents(cfg.width, disks[k], i), i);
    BatchDistinct(s, s.threads[t].batch);
  }

  lemma BatchDistinct(s: State, c: nat)
    requires Stamps(s) && c in s.batches
    ensures var es := s.batches[c].extents;
            (forall a, b :: 0 <= a < b < |es| ==> es[a].stamp != es[b].stamp) && (forall x :: x in es ==> x.data != [])
  {
    ExtentsBounded(s, c);
    assert forall a :: 0 <= a < |s.batches[c].extents| ==> Slot(s, c, a);
  }

  // ----- fsync and crash

  lemma DiskShows(crc: Checksum, width: nat, s: State, d: Disk, i: nat, p: int, v: Option<byte>)
    requires InStep(crc, width, s, d) && i in s.files && ReadsByte(s.files[i].frags, p, v)
    ensures Content(width, d, i, p) == v
  {
    hide SetOk, RecordsOk, Content, ReadsByte;
    var stored := DiskExtents(width, d, i);
    assert InodeInStep(s, stored, i) && TracksAt(s, stored, i, p);
    var top: nat :| Tracks(s, stored, i, p, top);
    AlikeBoth(stored, StoredOf(s, i), p, top);
    ContentIff(width, d, i, p, v);
  }

  lemma BackgroundContent(crc: Checksum, width: nat, d: Disk, e: Disk, inode: nat, p: int)
    requires width > 0 && RecordsOk(width, d) && Background(crc, width, d, e)
    ensures Content(width, e, inode, p) == Content(width, d, inode, p)
  {
    UntouchedContent(width, d, e, inode, p);
  }

  /** Fsync survives a crash: if it returned nil, then after any later crash, in the middle of whatever the disk is then
      doing, the reopened index alone reads every byte that was not since written, cut or unlinked as the file read when
      fsync began, and the stored size reaches past it. */
  lemma FsyncSurvivesCrash(cfg: Config, crc: Checksum, states: seq<State>, events: seq<Event>, disks: seq<Disk>, j: nat,
                           k: nat, m: nat,
                           t: nat, i: nat, p: int, d: Disk, w: Wreck, r: Disk)
    requires SystemRun(cfg, crc, states, events, disks) && j < k < m <= |events| && events[j] == Snap(t)
    requires events[k] == Return(t)
    requires (forall n :: j < n < k ==> !By(events[n], t)) && !states[j].bufs[states[j].threads[t].buf].poisoned
    requires states[j].bufs[states[j].threads[t].buf].inode == i && FsyncOk(states[k], t)
    requires (forall n :: j <= n <= m ==> i in states[n].files) && Untouched(states, events, i, p, j, m)
    requires RecordsOk(cfg.width, disks[m]) && Background(crc, cfg.width, disks[m], d) && DiskCrashes(d, w)
    requires Reopens(crc, w, r)
    ensures i in SpecAt(states, events, j) && DiskOk(crc, cfg.width, r)
    ensures p in SpecAt(states, events, j)[i].bytes ==> p < states[m].files[i].size
    ensures Content(cfg.width, r, i, p) == ByteAt(SpecAt(states, events, j)[i].bytes, p)
  {
    IndexInStep(cfg, crc, states, events, disks, m);
    hide Enabled, Next, SpecAt, Flushed, ReadsByte, DiskFollows, DiskCrashes, Reopens, SetOk, RecordsOk, Content,
         DiskExtents;
    FsyncStores(cfg, states, events, j, k, t, i, p);
    var v := ByteAt(SpecAt(states, events, j)[i].bytes, p);
    StoredByteOnRun(cfg, states, events, i, p, v, k, m);
    EndsOnEveryRun(cfg, states, events, m);
    StoredBelowSize(states[m], i, p, v);
    DiskShows(crc, cfg.width, states[m], disks[m], i, p, v);
    BackgroundContent(crc, cfg.width, disks[m], d, i, p);
    CrashKeepsContent(crc, cfg.width, d, w, r, i, p);
  }
}
