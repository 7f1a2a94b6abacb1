/** Bytes that no longer depend on the buffer: what an fsync that returned nil has put on disk stays there. */
module Persistence {
  import opened Bytes
  import opened Stripes
  import opened Extents
  import opened Coalescers
  import opened CoalescerLinks
  import opened CoalescerMemory
  import opened CoalescerDurable
  import opened CoalescerRefinement
  import opened CoalescerRuns
  import opened CoalescerSince

  // ----- one file, one buffer

  lemma OneBufferKept(cfg: Config, s: State, e: Event)
    requires Links(s) && OneBuffer(s) && Enabled(cfg, s, e)
    ensures OneBuffer(Next(cfg, s, e))
  {
    var n := Next(cfg, s, e);
    if e.GetBuf? || e.DropDelete? || e.Create? {
      if e.DropDelete? {
        ThreadOk(s, e.t);
      }
      hide Links;
    } else {
      FilesStay(cfg, s, e);
      hide Links, Next;
      forall b | b in n.bufs
        ensures b in s.bufs && n.bufs[b].inode == s.bufs[b].inode
      {
        if b in s.bufs {
          BufStays(cfg, s, e, b);
        }
      }
    }
  }

  /** Only these steps add a buffer, a file or touch the table. */
  lemma FilesStay(cfg: Config, s: State, e: Event)
    requires Enabled(cfg, s, e) && !e.GetBuf? && !e.DropDelete? && !e.Create?
    ensures Next(cfg, s, e).table == s.table && Next(cfg, s, e).files.Keys <= s.files.Keys
    ensures Next(cfg, s, e).bufs.Keys <= s.bufs.Keys
  {
    if Puts(e) {
      PutsEffect(cfg, s, e);
      hide Next, Enabled;
    } else {
      hide WaitsOf, Buffered, Elements, StampsOf, CutsOf, CutSet, Invalidated;
      if e.Resize? {
        InvalidatedFiles(s, e.inode, e.size);
      }
    }
  }

  /** The specification speaks of every file whose buffer works. */
  ghost predicate Specified(s: State, a: Spec) {
    forall i :: i in s.files && i !in a ==> i in s.table && s.table[i] in s.bufs && s.bufs[s.table[i]].poisoned
  }

  lemma SpecifiedKept(cfg: Config, s: State, e: Event, a: Spec)
    requires Links(s) && OneBuffer(s) && Specified(s, a) && Enabled(cfg, s, e)
    ensures Specified(Next(cfg, s, e), SpecNext(s, a, e))
  {
    var n, b := Next(cfg, s, e), SpecNext(s, a, e);
    forall i | i in n.files && i !in b
      ensures i in n.table && n.table[i] in n.bufs && n.bufs[n.table[i]].poisoned
    {
      FileWas(cfg, s, e, i);
      if i !in a {
        PoisonStays(cfg, s, e, i);
      } else {
        SpecLost(s, a, e, i);
        LostIsPoisoned(s, e.t, i);
      }
    }
  }

  lemma SpecLost(s: State, a: Spec, e: Event, i: nat)
    requires i in a && i !in SpecNext(s, a, e) && e != Unlink(i)
    ensures e.Settle? && e.t in s.threads && s.threads[e.t].Stored? && !s.threads[e.t].ok
    ensures s.threads[e.t].buf in s.bufs
            && s.bufs[s.threads[e.t].buf].inode == i
  {
  }

  lemma LostIsPoisoned(s: State, t: nat, i: nat)
    requires OneBuffer(s) && CanSettle(s, t) && !s.threads[t].ok && s.bufs[s.threads[t].buf].inode == i && i in s.files
    ensures var n := DoSettle(s, t); i in n.table && n.table[i] in n.bufs && n.bufs[n.table[i]].poisoned
  {
  }

  /** A file that is there after a step, and not created by it, was there before and not unlinked. */
  lemma FileWas(cfg: Config, s: State, e: Event, i: nat)
    requires Enabled(cfg, s, e) && i in Next(cfg, s, e).files
    ensures e != Unlink(i) && (e != Create(i) ==> i in s.files)
  {
    if !e.GetBuf? && !e.DropDelete? && !e.Create? {
      FilesStay(cfg, s, e);
    }
  }

  lemma PoisonStays(cfg: Config, s: State, e: Event, i: nat)
    requires Links(s) && Enabled(cfg, s, e) && i in s.files && i in Next(cfg, s, e).files
    requires i in s.table && s.table[i] in s.bufs && s.bufs[s.table[i]].poisoned
    ensures var n := Next(cfg, s, e); i in n.table && n.table[i] in n.bufs && n.bufs[n.table[i]].poisoned
  {
    if e.DropDelete? || e.GetBuf? || e.Create? {
      TablePoisonStays(cfg, s, e, i);
    } else {
      FilesStay(cfg, s, e);
      BufPoisonStays(cfg, s, e, s.table[i]);
      hide Links, Next, Enabled;
    }
  }

  lemma TablePoisonStays(cfg: Config, s: State, e: Event, i: nat)
    requires Links(s) && Enabled(cfg, s, e) && (e.DropDelete? || e.GetBuf? || e.Create?) && i in s.files
    requires i in s.table && s.table[i] in s.bufs && s.bufs[s.table[i]].poisoned
    ensures var n := Next(cfg, s, e); i in n.table && n.table[i] in n.bufs && n.bufs[n.table[i]].poisoned
  {
    if e.DropDelete? {
      ThreadOk(s, e.t);
    }
    hide Links;
  }

  lemma BufPoisonStays(cfg: Config, s: State, e: Event, b: nat)
    requires Enabled(cfg, s, e) && b in s.bufs && s.bufs[b].poisoned
    ensures b in Next(cfg, s, e).bufs && Next(cfg, s, e).bufs[b].poisoned
  {
    if Puts(e) {
      PutsEffect(cfg, s, e);
      hide Next, Enabled;
    } else {
      hide WaitsOf, Buffered, Elements, StampsOf, CutsOf, CutSet, ClipBatch, Clipped, SumLen;
    }
  }

  /** What the theorems below need of every state. */
  ghost predicate Sane(s: State, a: Spec) { OneBuffer(s) && Specified(s, a) }

  lemma {:induction false} SaneOnEveryRun(cfg: Config, states: seq<State>, events: seq<Event>, k: nat)
    requires Run(cfg, states, events) && k < |states|
    ensures Inv(cfg, states[k]) && StampsApart(states[k]) && Refines(states[k], SpecAt(states, events, k))
    ensures Sane(states[k], SpecAt(states, events, k))
    decreases k
  {
    ApartOnEveryRun(cfg, states, events, k);
    EveryRun(cfg, states, events, k);
    if k > 0 {
      SaneOnEveryRun(cfg, states, events, k - 1);
      hide Memory, Stamps, Durable, StampsApart, Refines, Links, OneBuffer, Specified, Enabled, Next, SpecNext;
      OneBufferKept(cfg, states[k - 1], events[k - 1]);
      SpecifiedKept(cfg, states[k - 1], events[k - 1], SpecAt(states, events, k - 1));
    }
  }

  // ----- bytes that no longer depend on the buffer

  /** Everything in memory over byte p is stored already, or in a batch of waits. */
  ghost predicate Flushed(s: State, i: nat, p: int, waits: set<nat>) {
    forall c, x :: LiveExtent(s, c, x) && InodeBatch(s, c, i) && x.Covers(p) ==> c in waits || x in StoredOf(s, i)
  }

  ghost predicate InodeBatch(s: State, c: nat, i: nat) {
    c in s.batches && s.batches[c].owner in s.bufs && s.bufs[s.batches[c].owner].inode == i
  }

  /** The step leaves byte p of the inode alone. */
  ghost predicate Spares(s: State, e: Event, i: nat, p: int) {
    !WritesAt(s, e, i, p) && e != Create(i) && !(e.Resize? && e.inode == i && e.size <= p)
  }

  /** Steps that only move batches along. */
  lemma QuietFlushed(s: State, n: State, i: nat, p: int, waits: set<nat>)
    requires Links(s) && Flushed(s, i, p, waits) && Quiet(s, n) && i in s.files && i in n.files
    ensures Flushed(n, i, p, waits) && StoredOf(n, i) == StoredOf(s, i)
  {
    forall c, x | LiveExtent(n, c, x) && InodeBatch(n, c, i) && x.Covers(p)
      ensures c in waits || x in StoredOf(n, i)
    {
      assert LiveExtent(s, c, x);
      OwnerOk(s, c);
      assert InodeBatch(s, c, i);
    }
  }

  lemma AppendFlushed(cfg: Config, s: State, t: nat, id0: nat, i: nat, p: int, waits: set<nat>)
    requires Links(s) && Flushed(s, i, p, waits) && cfg.width > 0 && CanAppend(s, t, id0)
    requires !WritesAt(s, Append(t, id0), i, p)
    ensures Flushed(DoAppend(cfg, s, t, id0), i, p, waits)
  {
    hide Chunks, Stamped;
    var n, w := DoAppend(cfg, s, t, id0), s.threads[t];
    ThreadOk(s, t);
    if s.bufs[w.buf].current.Some? {
      CurrentOk(s, w.buf);
    }
    var news := Stamped(Chunks(cfg.width, w.off, w.data), s.seqGen);
    forall c, x | LiveExtent(n, c, x) && InodeBatch(n, c, i) && x.Covers(p)
      ensures c in waits || x in StoredOf(n, i)
    {
      if c in s.batches && x in s.batches[c].extents {
        assert LiveExtent(s, c, x) && InodeBatch(s, c, i);
      } else {
        assert x in Elements(news) && w.inode == i;
        StampedBytes(cfg.width, w.off, w.data, s.seqGen, x, p);
      }
    }
  }

  lemma StoreFlushed(s: State, t: nat, ok: bool, i: nat, p: int, waits: set<nat>)
    requires Flushed(s, i, p, waits) && CanStore(s, t)
    ensures Flushed(DoStore(s, t, ok), i, p, waits)
  {
    var n := DoStore(s, t, ok);
    assert StoredOf(s, i) <= StoredOf(n, i);
    forall c, x | LiveExtent(n, c, x) && InodeBatch(n, c, i) && x.Covers(p)
      ensures c in waits || x in StoredOf(n, i)
    {
      assert LiveExtent(s, c, x) && InodeBatch(s, c, i);
    }
  }

  lemma LessFlushed(s: State, n: State, i: nat, p: int, waits: set<nat>)
    requires Flushed(s, i, p, waits) && StoredOf(s, i) == StoredOf(n, i)
    requires forall c, x :: LiveExtent(n, c, x) ==> LiveExtent(s, c, x)
    requires forall c, x :: LiveExtent(n, c, x) && InodeBatch(n, c, i) ==> InodeBatch(s, c, i)
    ensures Flushed(n, i, p, waits)
  {
  }

  lemma DropEmptyFlushed(s: State, t: nat, i: nat, p: int, waits: set<nat>)
    requires Links(s) && Flushed(s, i, p, waits) && CanDropEmpty(s, t)
    ensures Flushed(DoDropEmpty(s, t), i, p, waits)
  {
    DropEmptyLive(s, t);
    var n := DoDropEmpty(s, t);
    forall c, x | LiveExtent(n, c, x) && InodeBatch(n, c, i)
      ensures InodeBatch(s, c, i)
    {
      assert LiveExtent(s, c, x);
      OwnerOk(s, c);
    }
    LessFlushed(s, n, i, p, waits);
  }

  lemma FilesFlushed(s: State, n: State, i: nat, p: int, waits: set<nat>)
    requires Flushed(s, i, p, waits) && StoredOf(s, i) == StoredOf(n, i) && n.batches == s.batches && n.bufs == s.bufs
    ensures Flushed(n, i, p, waits)
  {
    assert forall c, x :: LiveExtent(n, c, x) ==> LiveExtent(s, c, x);
    LessFlushed(s, n, i, p, waits);
  }

  /** A cut shortens what is in memory and what is stored alike. */
  lemma ResizeFlushed(s: State, j: nat, size: nat, i: nat, p: int, waits: set<nat>)
    requires Links(s) && OneBuffer(s) && Flushed(s, i, p, waits) && CanResize(s, j, size) && i in s.files
    requires (i == j ==> p < size)
    ensures Flushed(DoResize(s, j, size), i, p, waits)
  {
    var n := DoResize(s, j, size);
    if size < StatSize(s, j) {
      ResizeLive(s, j, size);
      InvalidatedFiles(s, j, size);
      forall c, x | LiveExtent(n, c, x) && InodeBatch(n, c, i) && x.Covers(p)
        ensures c in waits || x in StoredOf(n, i)
      {
        ResizedExtent(s, j, size, c, x, i, p);
      }
    } else {
      assert StoredOf(n, i) == StoredOf(s, i);
      FilesFlushed(s, n, i, p, waits);
    }
  }

  lemma ResizedExtent(s: State, j: nat, size: nat, c: nat, x: Extent, i: nat, p: int)
    requires Links(s) && OneBuffer(s) && CanResize(s, j, size) && size < StatSize(s, j) && i in s.files
    requires (i == j ==> p < size)
    requires LiveExtent(DoResize(s, j, size), c, x) && InodeBatch(DoResize(s, j, size), c, i) && x.Covers(p)
    ensures InodeBatch(s, c, i)
    ensures exists y ::
      LiveExtent(s, c, y) && y.Covers(p) && (y in StoredOf(s, i) ==> x in StoredOf(DoResize(s, j, size), i))
  {
    hide Clipped, MaxEnd, SumLen, CutsOf;
    var n := DoResize(s, j, size);
    OwnerOk(s, c);
    assert InodeBatch(s, c, i);
    if i != j {
      if j in s.table {
        TableOk(s, j);
      }
      hide Links, CutSet;
      assert LiveExtent(s, c, x) && StoredOf(n, i) == StoredOf(s, i);
    } else {
      assert s.table[i] == s.batches[c].owner && s.bufs[s.table[i]].current == Some(c);
      hide Links;
      ResizedCurrent(s, i, size, c, x, p);
    }
  }

  lemma ResizedCurrent(s: State, i: nat, size: nat, c: nat, x: Extent, p: int)
    requires CanResize(s, i, size) && size < StatSize(s, i) && p < size && c in s.batches && !Done(s.batches[c].phase)
    requires i in s.table && s.table[i] in s.bufs && s.bufs[s.table[i]].current == Some(c)
    requires LiveExtent(DoResize(s, i, size), c, x) && x.Covers(p)
    ensures exists y ::
      LiveExtent(s, c, y) && y.Covers(p) && (y in StoredOf(s, i) ==> x in StoredOf(DoResize(s, i, size), i))
  {
    hide Clipped, MaxEnd, SumLen, CutsOf;
    var n := DoResize(s, i, size);
    var k :| 0 <= k < |n.batches[c].extents| && n.batches[c].extents[k] == x;
    var m := ClippedFrom(s.batches[c].extents, size, k);
    var y := s.batches[c].extents[m];
    assert LiveExtent(s, c, y) && y.Covers(p);
    assert y in StoredOf(s, i) ==> y.Below(size) in StoredOf(n, i);
  }

  lemma FlushedKept(cfg: Config, s: State, e: Event, i: nat, p: int, waits: set<nat>)
    requires Links(s) && OneBuffer(s) && Flushed(s, i, p, waits) && Enabled(cfg, s, e) && Spares(s, e, i, p)
    requires i in s.files && i in Next(cfg, s, e).files
    ensures Flushed(Next(cfg, s, e), i, p, waits)
  {
    hide Links, OneBuffer, Flushed, Quiet, StoredOf, DoAcquire, DoGetBuf, DoAppend, DoPick, DoSwap, DoStore, DoSettle,
         DoClose, DoRelease, DoFsync, DoSnap, DoResize, DoDrop, DoDropSee, DoDropEmpty, DoDropFree, DoDropDelete;
    var n := Next(cfg, s, e);
    match e
    case Create(j) => OtherFile(s, n, i); FilesFlushed(s, n, i, p, waits);
    case Unlink(j) => OtherFile(s, n, i); FilesFlushed(s, n, i, p, waits);
    case Append(t, id0) => AppendFlushed(cfg, s, t, id0, i, p, waits);
    case Store(t, ok) => StoreFlushed(s, t, ok, i, p, waits);
    case Resize(j, size) => ResizeFlushed(s, j, size, i, p, waits);
    case DropEmpty(t) => DropEmptyFlushed(s, t, i, p, waits);
    case _ => QuietKept(cfg, s, e); QuietFlushed(s, n, i, p, waits);
  }

  lemma OtherFile(s: State, n: State, i: nat)
    requires i in s.files && i in n.files && n.files[i] == s.files[i]
    ensures StoredOf(n, i) == StoredOf(s, i)
  {
  }

  lemma QuietKept(cfg: Config, s: State, e: Event)
    requires Links(s) && Enabled(cfg, s, e)
    requires !e.Create? && !e.Unlink? && !e.Append? && !e.Store? && !e.Resize? && !e.DropEmpty?
    ensures Quiet(s, Next(cfg, s, e))
  {
    hide Links, Quiet, DoGetBuf, DoSwap, DoSettle, DoClose, DoRelease, DoDropFree;
    match e
    case GetBuf(t, id0) => GetBufQuiet(s, t, id0);
    case Swap(t, id0) => SwapQuiet(s, t, id0);
    case Settle(t) => SettleQuiet(s, t);
    case Close(t) => CloseQuiet(s, t);
    case Release(t) => ReleaseQuiet(s, t);
    case DropFree(t) => DropFreeQuiet(s, t);
    case _ => ThreadStepQuiet(cfg, s, e);
  }

  // ----- the stored byte

  /** What the extents alone read as at p. */
  ghost predicate ReadsByte(es: set<Extent>, p: int, v: Option<byte>) {
    match v
    case None => forall x :: x in es ==> !x.Covers(p)
    case Some(b) => exists x :: Newest(es, x, p) && x.At(p) == b
  }

  lemma ReadsByteLocal(a: set<Extent>, b: set<Extent>, p: int, v: Option<byte>)
    requires ReadsByte(a, p, v) && forall x: Extent :: x.Covers(p) ==> (x in a <==> x in b)
    ensures ReadsByte(b, p, v)
  {
    if v.Some? {
      var x :| Newest(a, x, p) && x.At(p) == v.value;
      assert Newest(b, x, p);
    }
  }

  lemma ReadsByteCut(es: set<Extent>, size: nat, p: int, v: Option<byte>)
    requires ReadsByte(es, p, v) && p < size
    ensures ReadsByte(CutSet(es, size), p, v)
  {
    if v.Some? {
      var x :| Newest(es, x, p) && x.At(p) == v.value;
      CutNewest(es, size, x, p);
    } else {
      forall g | g in CutSet(es, size)
        ensures !g.Covers(p)
      {
        var e := CutFrom(es, size, g);
      }
    }
  }

  /** Once nothing in memory lies over the byte, no step that spares it changes what is stored there. */
  lemma StoredByteKept(cfg: Config, s: State, e: Event, i: nat, p: int, v: Option<byte>)
    requires Links(s) && OneBuffer(s) && Flushed(s, i, p, {}) && Enabled(cfg, s, e) && Spares(s, e, i, p)
    requires i in s.files && i in Next(cfg, s, e).files && ReadsByte(s.files[i].frags, p, v)
    ensures ReadsByte(Next(cfg, s, e).files[i].frags, p, v)
  {
    hide ReadsByte, Links, OneBuffer, Flushed;
    if e.Store? {
      StoreShows(s, e.t, e.ok, i, p, v);
    } else if e.Resize? {
      ResizeShows(s, e.inode, e.size, i, p, v);
    } else {
      SameFrags(cfg, s, e, i);
      hide Next, Enabled;
    }
  }

  lemma ResizeShows(s: State, j: nat, size: nat, i: nat, p: int, v: Option<byte>)
    requires CanResize(s, j, size) && i in s.files && (i == j ==> p < size) && ReadsByte(s.files[i].frags, p, v)
    ensures ReadsByte(DoResize(s, j, size).files[i].frags, p, v)
  {
    hide ReadsByte, Invalidated;
    if i == j && size < StatSize(s, j) {
      ReadsByteCut(s.files[i].frags, size, p, v);
    }
  }

  lemma SameFrags(cfg: Config, s: State, e: Event, i: nat)
    requires Enabled(cfg, s, e) && !e.Store? && !e.Resize? && e != Create(i) && i in s.files
    requires i in Next(cfg, s, e).files
    ensures Next(cfg, s, e).files[i] == s.files[i]
  {
    if Puts(e) {
      PutsEffect(cfg, s, e);
      hide Next, Enabled;
    } else {
      hide WaitsOf, Buffered, StampsOf;
    }
  }

  lemma StoreShows(s: State, t: nat, ok: bool, i: nat, p: int, v: Option<byte>)
    requires Links(s) && Flushed(s, i, p, {}) && CanStore(s, t) && i in s.files && ReadsByte(s.files[i].frags, p, v)
    ensures ReadsByte(DoStore(s, t, ok).files[i].frags, p, v)
  {
    hide ReadsByte;
    var n, w := DoStore(s, t, ok), s.threads[t];
    ThreadOk(s, t);
    forall x: Extent | x.Covers(p)
      ensures x in s.files[i].frags <==> x in n.files[i].frags
    {
      if x in s.batches[w.batch].extents && s.bufs[w.buf].inode == i {
        assert LiveExtent(s, w.batch, x) && InodeBatch(s, w.batch, i);
      }
    }
    ReadsByteLocal(s.files[i].frags, n.files[i].frags, p, v);
  }

  // ----- from snapshot to return

  /** Everything buffered for the inode is in a batch the fsync waits for. */
  lemma SnapFlushed(s: State, t: nat, i: nat, p: int)
    requires Links(s) && Counted(s) && Stamps(s) && OneBuffer(s) && CanSnap(s, t) && s.bufs[s.threads[t].buf].inode == i
    requires i in s.files
    ensures Flushed(s, i, p, WaitsOf(s, s.bufs[s.threads[t].buf]))
  {
    hide SumLen;
    var b := s.threads[t].buf;
    var waits := WaitsOf(s, s.bufs[b]);
    forall c, x | LiveExtent(s, c, x) && InodeBatch(s, c, i)
      ensures c in waits
    {
      OwnerOk(s, c);
      assert s.batches[c].owner == b;
      ExtentsBounded(s, c);
      if s.batches[c].bytes == 0 {
        EmptyBatch(s.batches[c].extents);
      }
    }
  }

  /** When every awaited batch is done, nothing in memory lies over the byte. */
  lemma ReturnFlushed(s: State, t: nat, i: nat, p: int)
    requires Durable(s) && CanReturn(s, t) && Flushed(s, i, p, s.threads[t].waits)
    ensures Flushed(s, i, p, {})
  {
    hide Durable;
    forall c, x | LiveExtent(s, c, x) && InodeBatch(s, c, i) && x.Covers(p)
      ensures x in StoredOf(s, i)
    {
      BatchIsSafe(s, c);
    }
  }

  /** Then the stored extents alone read as the specification. */
  lemma StoredShows(s: State, i: nat, f: SpecFile, p: int)
    requires Links(s) && InodeOk(s, i, f) && Flushed(s, i, p, {})
    ensures ReadsByte(s.files[i].frags, p, if p in f.bytes then Some(f.bytes[p]) else None)
  {
    hide Links;
    forall x | x in InBuffer(s, i) && x.Covers(p)
      ensures x in s.files[i].frags
    {
      var b := s.table[i];
      TableOk(s, i);
      BufferedLive(s, b, x);
      var c :| LiveExtent(s, c, x) && s.batches[c].owner == b;
      assert InodeBatch(s, c, i);
    }
    ShowsByte(s, i, f, p);
    hide InodeOk, ReadsAs;
    if p in f.bytes {
      var x :| Newest(Merged(s, i), x, p) && x.At(p) == f.bytes[p];
      assert Newest(s.files[i].frags, x, p);
    }
  }

  // ----- an fsync that returned nil

  ghost function ByteAt(bytes: map<int, byte>, p: int): Option<byte> { if p in bytes then Some(bytes[p]) else None }

  /** One step of a run that leaves the byte alone. */
  lemma RunStep(cfg: Config, states: seq<State>, events: seq<Event>, k: nat)
    requires Run(cfg, states, events) && k < |events|
    ensures Links(states[k]) && OneBuffer(states[k]) && Enabled(cfg, states[k], events[k])
    ensures states[k + 1] == Next(cfg, states[k], events[k])
  {
    SaneOnEveryRun(cfg, states, events, k);
  }

  lemma {:induction false} FlushedOnRun(cfg: Config, states: seq<State>, events: seq<Event>, i: nat, p: int,
                                        waits: set<nat>, j: nat, k: nat)
    requires Run(cfg, states, events) && j <= k <= |events| && Untouched(states, events, i, p, j, k)
    requires (forall m :: j <= m <= k ==> i in states[m].files) && Flushed(states[j], i, p, waits)
    ensures Flushed(states[k], i, p, waits)
    decreases k
  {
    hide Links, OneBuffer, Enabled, Next, Flushed, WritesAt;
    if j < k {
      FlushedOnRun(cfg, states, events, i, p, waits, j, k - 1);
      RunStep(cfg, states, events, k - 1);
      assert Spares(states[k - 1], events[k - 1], i, p);
      FlushedKept(cfg, states[k - 1], events[k - 1], i, p, waits);
    }
  }

  lemma {:induction false} StoredByteOnRun(cfg: Config, states: seq<State>, events: seq<Event>, i: nat, p: int,
                                           v: Option<byte>, j: nat, k: nat)
    requires Run(cfg, states, events) && j <= k <= |events| && Untouched(states, events, i, p, j, k)
    requires (forall m :: j <= m <= k ==> i in states[m].files) && Flushed(states[j], i, p, {})
    requires ReadsByte(states[j].files[i].frags, p, v)
    ensures Flushed(states[k], i, p, {}) && ReadsByte(states[k].files[i].frags, p, v)
    decreases k
  {
    hide Links, OneBuffer, Enabled, Next, Flushed, WritesAt, ReadsByte;
    FlushedOnRun(cfg, states, events, i, p, {}, j, k);
    if j < k {
      StoredByteOnRun(cfg, states, events, i, p, v, j, k - 1);
      RunStep(cfg, states, events, k - 1);
      assert Spares(states[k - 1], events[k - 1], i, p);
      StoredByteKept(cfg, states[k - 1], events[k - 1], i, p, v);
    }
  }

  /** When fsync returns nil, the disk alone reads a byte as the file read when fsync began. */
  lemma FsyncStores(cfg: Config, states: seq<State>, events: seq<Event>, j: nat, k: nat, t: nat, i: nat, p: int)
    requires Run(cfg, states, events) && j < k < |events| && events[j] == Snap(t) && events[k] == Return(t)
    requires (forall m :: j < m < k ==> !By(events[m], t)) && !states[j].bufs[states[j].threads[t].buf].poisoned
    requires states[j].bufs[states[j].threads[t].buf].inode == i && FsyncOk(states[k], t)
    requires (forall m :: j <= m <= k ==> i in states[m].files) && Untouched(states, events, i, p, j, k)
    ensures i in SpecAt(states, events, j) && Flushed(states[k], i, p, {})
    ensures ReadsByte(states[k].files[i].frags, p, ByteAt(SpecAt(states, events, j)[i].bytes, p))
  {
    var s, n, b := states[j], states[k], states[j].threads[t].buf;
    SaneOnEveryRun(cfg, states, events, j);
    SaneOnEveryRun(cfg, states, events, k);
    hide Links, Durable, StampsApart, OneBuffer, Next, SpecAt, Flushed, ReadsByte, WaitsOf, Stamps, Counted;
    SnapFlushed(s, t, i, p);
    FlushedOnRun(cfg, states, events, i, p, WaitsOf(s, s.bufs[b]), j, k);
    assert states[j + 1] == Next(cfg, s, events[j]);
    SnapThread(cfg, s, t);
    ThreadWaits(cfg, states, events, j + 1, k, t);
    ReturnFlushed(n, t, i, p);
    InodeStays(cfg, states, events, j, k, b);
    NotPoisonedSpecified(n, b, i, SpecAt(states, events, k));
    StoredShows(n, i, SpecAt(states, events, k)[i], p);
    UntouchedByte(states, events, i, p, j, k);
  }

  lemma SnapThread(cfg: Config, s: State, t: nat)
    requires Enabled(cfg, s, Snap(t)) && !s.bufs[s.threads[t].buf].poisoned
    ensures var n := Next(cfg, s, Snap(t));
            t in n.threads && n.threads[t].Waiting?
            && n.threads[t].buf == s.threads[t].buf && n.threads[t].waits == WaitsOf(s, s.bufs[s.threads[t].buf])
  {
  }

  lemma NotPoisonedSpecified(s: State, b: nat, i: nat, a: Spec)
    requires OneBuffer(s) && Specified(s, a) && b in s.bufs && s.bufs[b].inode == i && i in s.files
    requires !s.bufs[b].poisoned
    ensures i in a
  {
  }

  /** Fsync errs exactly when a flush of the file has failed: its buffer is poisoned, and the specification has given
      the file up. */
  lemma FsyncExactly(cfg: Config, states: seq<State>, events: seq<Event>, k: nat, t: nat, i: nat)
    requires Run(cfg, states, events) && k < |events| && events[k] == Return(t)
    requires states[k].bufs[states[k].threads[t].buf].inode == i && i in states[k].files
    ensures FsyncOk(states[k], t) <==> i in SpecAt(states, events, k)
  {
    SaneOnEveryRun(cfg, states, events, k);
    hide Links, Memory, Stamps, Durable, StampsApart, SpecAt;
    if i in SpecAt(states, events, k) {
      assert InodeOk(states[k], i, SpecAt(states, events, k)[i]);
    }
  }

  /** The snapshot of a file no flush of which has failed waits for every unsettled batch of it that holds anything, and
      for unsettled batches of it only. */
  lemma SnapshotWaits(cfg: Config, states: seq<State>, events: seq<Event>, k: nat, t: nat, i: nat)
    requires Run(cfg, states, events) && k < |events| && events[k] == Snap(t)
    requires states[k].bufs[states[k].threads[t].buf].inode == i && i in SpecAt(states, events, k)
    ensures t in states[k + 1].threads && states[k + 1].threads[t].Waiting?
    ensures forall c, x :: LiveExtent(states[k], c, x) && InodeBatch(states[k], c, i) ==>
      c in states[k + 1].threads[t].waits && x in states[k + 1].threads[t].snap
    ensures forall c :: c in states[k + 1].threads[t].waits ==>
      InodeBatch(states[k], c, i) && !states[k].batches[c].phase.Settled? && !states[k].batches[c].phase.Released?
  {
    SaneOnEveryRun(cfg, states, events, k);
    assert Enabled(cfg, states[k], events[k]) && states[k + 1] == Next(cfg, states[k], events[k]);
    assert InodeOk(states[k], i, SpecAt(states, events, k)[i]);
    hide Memory, Durable, StampsApart, SpecAt, InodeOk, SumLen;
    SnapshotTakes(states[k], t, i);
  }

  lemma SnapshotTakes(s: State, t: nat, i: nat)
    requires Links(s) && Counted(s) && Stamps(s) && BufferOk(s, i) && CanSnap(s, t)
    requires s.bufs[s.threads[t].buf].inode == i
    ensures var n := DoSnap(s, t);
            && t in n.threads && n.threads[t].Waiting?
            && (forall c, x :: LiveExtent(s, c, x) && InodeBatch(s, c, i) ==>
                  c in n.threads[t].waits && x in n.threads[t].snap)
            && (forall c :: c in n.threads[t].waits ==> InodeBatch(s, c, i) && !Done(s.batches[c].phase))
  {
    var b := s.threads[t].buf;
    FlushingOk(s, b);
    if s.bufs[b].current.Some? {
      CurrentOk(s, b);
    }
    forall c, x | LiveExtent(s, c, x) && InodeBatch(s, c, i)
      ensures c in DoSnap(s, t).threads[t].waits && x in DoSnap(s, t).threads[t].snap
    {
      OwnerOk(s, c);
      assert s.batches[c].owner == b;
      ExtentsBounded(s, c);
      if s.batches[c].bytes == 0 {
        EmptyBatch(s.batches[c].extents);
      }
    }
  }

  /** Fsync's early nil: a file without a buffer has nothing in memory, and the disk alone reads as the file. */
  lemma FsyncWithoutBuffer(cfg: Config, states: seq<State>, events: seq<Event>, k: nat, i: nat, p: int)
    requires Run(cfg, states, events) && k < |states| && i in states[k].files && i !in states[k].table
    ensures i in SpecAt(states, events, k) && Flushed(states[k], i, p, {})
    ensures ReadsByte(states[k].files[i].frags, p, ByteAt(SpecAt(states, events, k)[i].bytes, p))
  {
    SaneOnEveryRun(cfg, states, events, k);
    hide Links, Memory, Stamps, Durable, StampsApart, SpecAt, ReadsByte;
    StoredShows(states[k], i, SpecAt(states, events, k)[i], p);
  }

  // ----- the stored size

  lemma FilesSame(cfg: Config, s: State, e: Event)
    requires Enabled(cfg, s, e) && !e.Store? && !e.Resize? && !e.Unlink? && !e.Create?
    ensures Next(cfg, s, e).files == s.files
  {
    if Puts(e) {
      PutsEffect(cfg, s, e);
      hide Next, Enabled;
    } else {
      hide WaitsOf, Buffered, StampsOf;
    }
  }

  /** Batches end within maxEnd, and stored extents within the file. */
  ghost predicate Ends(s: State) {
    && (forall c, x :: c in s.batches && x in s.batches[c].extents ==> x.End() <= s.batches[c].maxEnd)
    && (forall i, x :: i in s.files && x in s.files[i].frags ==> x.End() <= s.files[i].size)
  }

  lemma EndsKept(cfg: Config, s: State, e: Event)
    requires Ends(s) && Enabled(cfg, s, e)
    ensures Ends(Next(cfg, s, e))
  {
    if e.Append? {
      AppendEnds(cfg, s, e.t, e.id0);
    } else if e.Resize? {
      ResizeEnds(s, e.inode, e.size);
    } else if e.Store? {
      StoreEnds(s, e.t, e.ok);
    } else if e.Create? || e.Unlink? || e.TakeStamps? {
      assert Next(cfg, s, e).batches == s.batches;
    } else {
      KeepsExtents(cfg, s, e);
      FilesSame(cfg, s, e);
      hide Next, Enabled;
    }
  }

  lemma StoreEnds(s: State, t: nat, ok: bool)
    requires Ends(s) && CanStore(s, t)
    ensures Ends(DoStore(s, t, ok))
  {
  }

  lemma AppendEnds(cfg: Config, s: State, t: nat, id0: nat)
    requires Ends(s) && cfg.width > 0 && CanAppend(s, t, id0)
    ensures Ends(DoAppend(cfg, s, t, id0))
  {
    hide Chunks, Stamped;
    var n, w := DoAppend(cfg, s, t, id0), s.threads[t];
    var news := Stamped(Chunks(cfg.width, w.off, w.data), s.seqGen);
    forall c, x | c in n.batches && x in n.batches[c].extents
      ensures x.End() <= n.batches[c].maxEnd
    {
      if !(c in s.batches && x in s.batches[c].extents) {
        assert x in Elements(news);
        NewExtentEnds(cfg.width, w.off, w.data, s.seqGen, x);
      }
    }
  }

  lemma ResizeEnds(s: State, i: nat, size: nat)
    requires Ends(s) && CanResize(s, i, size)
    ensures Ends(DoResize(s, i, size))
  {
    hide Clipped, SumLen, MaxEnd, CutSet, CutsOf;
    var n := DoResize(s, i, size);
    if size < StatSize(s, i) {
      CutSetEnds(s.files[i].frags, size);
      InvalidatedFiles(s, i, size);
      forall c, x | c in n.batches && x in n.batches[c].extents
        ensures x.End() <= n.batches[c].maxEnd
      {
        if n.batches[c] != s.batches[c] {
          ClippedWithin(s.batches[c].extents, size, x, s.batches[c].maxEnd);
        }
      }
    }
  }

  lemma ClippedWithin(es: seq<Extent>, size: nat, x: Extent, top: nat)
    requires x in Clipped(es, size) && forall e :: e in es ==> e.End() <= top
    ensures x.End() <= top && x.End() <= MaxEnd(Clipped(es, size))
  {
    var k :| 0 <= k < |Clipped(es, size)| && Clipped(es, size)[k] == x;
    var i := ClippedFrom(es, size, k);
    WithinMaxEnd(Clipped(es, size), x);
  }

  lemma {:induction false} WithinMaxEnd(es: seq<Extent>, x: Extent)
    requires x in es
    ensures x.End() <= MaxEnd(es)
    decreases |es|
  {
    if x != es[|es| - 1] {
      WithinMaxEnd(es[..|es| - 1], x);
    }
  }

  lemma {:induction false} EndsOnEveryRun(cfg: Config, states: seq<State>, events: seq<Event>, k: nat)
    requires Run(cfg, states, events) && k < |states|
    ensures Ends(states[k])
    decreases k
  {
    if k > 0 {
      EndsOnEveryRun(cfg, states, events, k - 1);
      hide Ends, Enabled, Next;
      EndsKept(cfg, states[k - 1], events[k - 1]);
    }
  }

  lemma StoredBelowSize(s: State, i: nat, p: int, v: Option<byte>)
    requires Ends(s) && i in s.files && ReadsByte(s.files[i].frags, p, v)
    ensures v.Some? ==> p < s.files[i].size
  {
    if v.Some? {
      var x :| Newest(s.files[i].frags, x, p) && x.At(p) == v.value;
      assert x in s.files[i].frags && x.End() <= s.files[i].size;
    }
  }
}
