/** The buffered store refines a plain file per inode in which the last write to a byte wins. */
module CoalescerRefinement {
  import opened Bytes
  import opened Stripes
  import opened Extents
  import opened Coalescers
  import opened CoalescerLinks
  import opened CoalescerDurable

  /** The specification of one file: the bytes ever written and not cut off, and the size. */
  datatype SpecFile = SpecFile(bytes: map<int, byte>, size: nat)

  type Spec = map<nat, SpecFile>

  ghost function SpecWrite(f: SpecFile, off: nat, data: seq<byte>): SpecFile {
    SpecFile(Overwritten(f.bytes, off, data), Max(f.size, off + |data|))
  }

  ghost function SpecResize(f: SpecFile, size: nat): SpecFile {
    SpecFile(CutBytes(f.bytes, size), size)
  }

  /** What each step means: only writes, size changes, creation and removal touch the specification; a failed flush ends
      the promise for its inode. */
  ghost function SpecNext(s: State, a: Spec, e: Event): Spec {
    match e
    case Create(i) => a[i := SpecFile(map[], 0)]
    case Append(t, _) =>
      if t in s.threads && s.threads[t].WriteHas? && s.threads[t].inode in a then
        a[s.threads[t].inode := SpecWrite(a[s.threads[t].inode], s.threads[t].off, s.threads[t].data)]
      else a
    case Settle(t) =>
      if t in s.threads && s.threads[t].Stored? && !s.threads[t].ok && s.threads[t].buf in s.bufs
      then a - {s.bufs[s.threads[t].buf].inode} else a
    case Resize(i, size) => if i in a then a[i := SpecResize(a[i], size)] else a
    case Unlink(i) => a - {i}
    case _ => a
  }

  ghost function InBuffer(s: State, i: nat): set<Extent> {
    if i in s.table && s.table[i] in s.bufs then Buffered(s, s.bufs[s.table[i]]) else {}
  }

  /** All extents a read merges: those on disk and those in memory (store/handle.go:63-86). */
  ghost function Merged(s: State, i: nat): set<Extent>
    requires i in s.files
  {
    s.files[i].frags + InBuffer(s, i)
  }

  /** The inode's buffer is the one in the table, it works, and its batches end within the live size. */
  ghost predicate BufferOk(s: State, i: nat) {
    && (forall b :: b in s.bufs && s.bufs[b].inode == i ==> i in s.table && s.table[i] == b)
    && (i in s.table ==> s.table[i] in s.bufs && !s.bufs[s.table[i]].poisoned && EndsOk(s, s.bufs[s.table[i]]))
  }

  ghost predicate EndsOk(s: State, b: Buf) {
    && (b.current.Some? && b.current.value in s.batches ==> s.batches[b.current.value].maxEnd <= b.liveSize)
    && (b.flushing.Some? && b.flushing.value in s.batches ==> s.batches[b.flushing.value].maxEnd <= b.liveSize)
  }

  ghost predicate InodeOk(s: State, i: nat, f: SpecFile) {
    && i in s.files && BufferOk(s, i)
    && ReadsAs(Merged(s, i), f.bytes) && OnePerStamp(Merged(s, i))
    && StatSize(s, i) == f.size
    && (forall e :: e in Merged(s, i) ==> e.End() <= f.size)
  }

  ghost predicate Refines(s: State, a: Spec) {
    forall i :: i in a ==> InodeOk(s, i, a[i])
  }

  /** What InodeOk looks at. */
  ghost predicate SameInode(s: State, n: State, i: nat) {
    && i in s.files && i in n.files && n.files[i] == s.files[i]
    && (i in n.table <==> i in s.table) && (i in s.table ==> n.table[i] == s.table[i])
    && (forall b :: (b in n.bufs && n.bufs[b].inode == i) <==> (b in s.bufs && s.bufs[b].inode == i))
    && (i in s.table && s.table[i] in s.bufs ==>
          s.table[i] in n.bufs && n.bufs[s.table[i]] == s.bufs[s.table[i]] && SameBatches(s, n, s.bufs[s.table[i]]))
  }

  ghost predicate SameBatches(s: State, n: State, b: Buf) {
    (b.current.Some? ==> SameBatch(s, n, b.current.value)) && (b.flushing.Some? ==> SameBatch(s, n, b.flushing.value))
  }

  ghost predicate SameBatch(s: State, n: State, c: nat) {
    && (c in n.batches <==> c in s.batches)
    && (c in s.batches ==> n.batches[c].extents == s.batches[c].extents && n.batches[c].maxEnd == s.batches[c].maxEnd)
  }

  lemma InodeFrame(s: State, n: State, i: nat, f: SpecFile)
    requires InodeOk(s, i, f) && SameInode(s, n, i)
    ensures InodeOk(n, i, f)
  {
    assert InBuffer(n, i) == InBuffer(s, i);
  }

  /** A step that leaves inode records, buffers and buffered bytes alone leaves every file alone. */
  lemma FrameRefines(s: State, n: State, a: Spec)
    requires Refines(s, a) && (forall i :: i in a ==> SameInode(s, n, i))
    ensures Refines(n, a)
  {
    forall i | i in a
      ensures InodeOk(n, i, a[i])
    {
      InodeFrame(s, n, i, a[i]);
    }
  }

  /** Putting a batch of one inode does not touch another. */
  lemma PutOther(s: State, c: nat, batch: Batch, b: nat, buf: Buf, i: nat, f: SpecFile)
    requires Links(s) && InodeOk(s, i, f) && b in s.bufs && s.bufs[b].inode != i && buf.inode == s.bufs[b].inode
    requires c in s.batches ==> s.batches[c].owner == b
    ensures InodeOk(Put(s, c, batch, b, buf), i, f)
  {
    var n := Put(s, c, batch, b, buf);
    if i in s.table && s.table[i] in s.bufs {
      var d := s.bufs[s.table[i]];
      assert d.current.Some? ==> Points(s, d.current.value, s.table[i]);
      assert d.flushing.Some? ==> Points(s, d.flushing.value, s.table[i]);
    }
    InodeFrame(s, n, i, f);
  }

  // ----- the steps

  lemma AppendRefines(cfg: Config, s: State, t: nat, id0: nat, a: Spec)
    requires Links(s) && Stamps(s) && Refines(s, a) && cfg.width > 0 && CanAppend(s, t, id0)
    ensures Refines(DoAppend(cfg, s, t, id0), SpecNext(s, a, Append(t, id0)))
  {
    hide Links, Stamps, InodeOk, Chunks, Stamped;
    ThreadOk(s, t);
    var w := s.threads[t];
    var n := DoAppend(cfg, s, t, id0);
    var b := s.bufs[w.buf];
    forall i | i in a && i != w.inode
      ensures InodeOk(n, i, a[i])
    {
      AppendOther(cfg, s, t, id0, i, a[i]);
    }
    if w.inode in a {
      NotPoisoned(s, w.buf, a[w.inode]);
      AppendInode(cfg, s, t, id0, a[w.inode]);
    }
  }

  lemma NotPoisoned(s: State, b: nat, f: SpecFile)
    requires b in s.bufs && InodeOk(s, s.bufs[b].inode, f)
    ensures !s.bufs[b].poisoned && s.bufs[b].inode in s.table && s.table[s.bufs[b].inode] == b
  {
  }

  lemma AppendOther(cfg: Config, s: State, t: nat, id0: nat, i: nat, f: SpecFile)
    requires Links(s) && cfg.width > 0 && CanAppend(s, t, id0) && InodeOk(s, i, f) && i != s.threads[t].inode
    ensures InodeOk(DoAppend(cfg, s, t, id0), i, f)
  {
    hide Chunks, Stamped, InodeOk;
    ThreadOk(s, t);
    var w := s.threads[t];
    var n := DoAppend(cfg, s, t, id0);
    InodeInFiles(s, i, f);
    if s.bufs[w.buf].poisoned {
      InodeFrame(s, n, i, f);
    } else {
      EndLinks(s, t);
      InodeFrame(s, End(s, t), i, f);
      var c := n.bufs[w.buf].current.value;
      if s.bufs[w.buf].current.Some? {
        OwnerOfCurrent(s, w.buf);
      }
      PutOther(End(s, t), c, n.batches[c], w.buf, n.bufs[w.buf], i, f);
      InodeFrame(Put(End(s, t), c, n.batches[c], w.buf, n.bufs[w.buf]), n, i, f);
    }
  }

  lemma InodeInFiles(s: State, i: nat, f: SpecFile)
    requires InodeOk(s, i, f)
    ensures i in s.files
  {
  }

  lemma OwnerOfCurrent(s: State, b: nat)
    requires Links(s) && b in s.bufs && s.bufs[b].current.Some?
    ensures s.bufs[b].current.value in s.batches && s.batches[s.bufs[b].current.value].owner == b
  {
  }

  lemma ElementsConcat(a: seq<Extent>, b: seq<Extent>)
    ensures Elements(a + b) == Elements(a) + Elements(b)
  {
  }

  lemma AppendMerged(cfg: Config, s: State, t: nat, id0: nat)
    requires Links(s) && cfg.width > 0 && CanAppend(s, t, id0)
    requires var w := s.threads[t];
             !s.bufs[w.buf].poisoned && w.inode in s.files && w.inode in s.table && s.table[w.inode] == w.buf
    ensures var w := s.threads[t];
            Merged(DoAppend(cfg, s, t, id0), w.inode)
            == Merged(s, w.inode) + Elements(Stamped(Chunks(cfg.width, w.off, w.data), s.seqGen))
  {
    hide Chunks, Stamped, Elements, Links;
    var w := s.threads[t];
    var b := s.bufs[w.buf];
    var n := DoAppend(cfg, s, t, id0);
    FlushingOk(s, w.buf);
    if b.current.Some? {
      CurrentOk(s, w.buf);
    }
    var news := Stamped(Chunks(cfg.width, w.off, w.data), s.seqGen);
    var was := if b.current.Some? then s.batches[b.current.value].extents else [];
    ElementsConcat(was, news);
    NoElements();
    assert n.batches[n.bufs[w.buf].current.value].extents == was + news;
  }

  lemma NoElements()
    ensures Elements([]) == {}
  {
  }

  lemma MergedStamps(s: State, i: nat)
    requires Stamps(s) && i in s.files
    ensures forall e :: e in Merged(s, i) ==> e.stamp <= s.seqGen && e.data != []
  {
    if i in s.table && s.table[i] in s.bufs {
      var b := s.bufs[s.table[i]];
      assert b.current.Some? && b.current.value in s.batches ==> Bounded(s, s.batches[b.current.value].extents);
      assert b.flushing.Some? && b.flushing.value in s.batches ==> Bounded(s, s.batches[b.flushing.value].extents);
    }
  }

  lemma NewExtentEnds(width: nat, off: nat, data: seq<byte>, base: nat, e: Extent)
    requires width > 0 && e in Elements(Stamped(Chunks(width, off, data), base))
    ensures e.End() <= off + |data|
  {
    hide Chunks;
    var cs := Chunks(width, off, data);
    var i :| 0 <= i < |cs| && Stamped(cs, base)[i] == e;
    ChunksNonEmpty(width, off, data);
    StampedBytes(width, off, data, base, e, e.End() - 1);
  }

  lemma NewStampsDiffer(width: nat, off: nat, data: seq<byte>, base: nat, es: set<Extent>)
    requires width > 0 && OnePerStamp(es) && forall e :: e in es ==> e.stamp <= base
    ensures OnePerStamp(es + Elements(Stamped(Chunks(width, off, data), base)))
  {
    hide Chunks;
    var cs := Chunks(width, off, data);
    forall e | e in Elements(Stamped(cs, base))
      ensures exists i :: 0 <= i < |cs| && e == Stamped(cs, base)[i] && e.stamp == base + 1 + i
    {
      var i :| 0 <= i < |cs| && Stamped(cs, base)[i] == e;
    }
  }

  lemma AppendInode(cfg: Config, s: State, t: nat, id0: nat, f: SpecFile)
    requires Links(s) && Stamps(s) && cfg.width > 0 && CanAppend(s, t, id0)
    requires var w := s.threads[t];
             InodeOk(s, w.inode, f) && !s.bufs[w.buf].poisoned && w.inode in s.table && s.table[w.inode] == w.buf
    ensures var w := s.threads[t]; InodeOk(DoAppend(cfg, s, t, id0), w.inode, SpecWrite(f, w.off, w.data))
  {
    hide Chunks, Stamped, Elements, Links, Stamps, Merged, ReadsAs, Overwritten, OnePerStamp;
    var w := s.threads[t];
    var n := DoAppend(cfg, s, t, id0);
    ThreadOk(s, t);
    FlushingOk(s, w.buf);
    AppendMerged(cfg, s, t, id0);
    MergedStamps(s, w.inode);
    NewStampsDiffer(cfg.width, w.off, w.data, s.seqGen, Merged(s, w.inode));
    WriteReads(cfg.width, Merged(s, w.inode), f.bytes, s.seqGen, w.off, w.data);
    forall e | e in Merged(n, w.inode)
      ensures e.End() <= Max(f.size, w.off + |w.data|)
    {
      if e !in Merged(s, w.inode) {
        NewExtentEnds(cfg.width, w.off, w.data, s.seqGen, e);
      }
    }
  }

  // ----- steps of a flush: the file never changes

  lemma SwapRefines(s: State, t: nat, id0: nat, a: Spec)
    requires Links(s) && Refines(s, a) && CanSwap(s, t, id0)
    ensures Refines(DoSwap(s, t, id0), a)
  {
    hide Links, InodeOk;
    ThreadOk(s, t);
    forall i | i in a
      ensures InodeOk(DoSwap(s, t, id0), i, a[i])
    {
      SwapInode(s, t, id0, i, a[i]);
    }
  }

  lemma SwapInode(s: State, t: nat, id0: nat, i: nat, f: SpecFile)
    requires Links(s) && CanSwap(s, t, id0) && InodeOk(s, i, f)
    ensures InodeOk(DoSwap(s, t, id0), i, f)
  {
    hide Links, ReadsAs, Elements;
    var id := s.threads[t].buf;
    var b := s.bufs[id];
    var n := DoSwap(s, t, id0);
    if b.flushing.Some? || b.current.None? || s.batches[b.current.value].bytes == 0 {
      InodeFrame(s, n, i, f);
    } else {
      CurrentOk(s, id);
      if b.inode == i {
        NotPoisoned(s, id, f);
        NoElements();
        assert Merged(n, i) == Merged(s, i);
      } else {
        SwapOther(s, t, id0, i);
        InodeFrame(s, n, i, f);
      }
    }
  }

  lemma SwapOther(s: State, t: nat, id0: nat, i: nat)
    requires Links(s) && CanSwap(s, t, id0) && i in s.files && s.bufs[s.threads[t].buf].inode != i
    ensures SameInode(s, DoSwap(s, t, id0), i)
  {
    hide Links;
    ThreadOk(s, t);
    if i in s.table {
      TableOk(s, i);
      FlushingOk(s, s.table[i]);
      if s.bufs[s.table[i]].current.Some? {
        CurrentOk(s, s.table[i]);
      }
    }
    if s.bufs[s.threads[t].buf].current.Some? {
      CurrentOk(s, s.threads[t].buf);
    }
  }

  lemma StoreRefines(s: State, t: nat, ok: bool, a: Spec)
    requires Links(s) && Refines(s, a) && CanStore(s, t)
    ensures Refines(DoStore(s, t, ok), a)
  {
    hide Links, InodeOk;
    forall i | i in a
      ensures InodeOk(DoStore(s, t, ok), i, a[i])
    {
      StoreInode(s, t, ok, i, a[i]);
    }
  }

  lemma StoreInode(s: State, t: nat, ok: bool, i: nat, f: SpecFile)
    requires Links(s) && CanStore(s, t) && InodeOk(s, i, f)
    ensures InodeOk(DoStore(s, t, ok), i, f)
  {
    hide Links, ReadsAs, Elements;
    var w := s.threads[t];
    var n := DoStore(s, t, ok);
    ThreadOk(s, t);
    OwnerOk(s, w.batch);
    if s.bufs[w.buf].inode == i && ok {
      NotPoisoned(s, w.buf, f);
      assert Merged(n, i) == Merged(s, i);
    } else {
      InodeFrame(s, n, i, f);
    }
  }

  lemma SettleRefines(s: State, t: nat, a: Spec)
    requires Links(s) && Durable(s) && Refines(s, a) && CanSettle(s, t)
    ensures Refines(DoSettle(s, t), SpecNext(s, a, Settle(t)))
  {
    hide Links, InodeOk, Durable;
    var w := s.threads[t];
    ThreadOk(s, t);
    EndLinks(s, t);
    forall i | i in a && (w.ok || i != s.bufs[w.buf].inode)
      ensures InodeOk(DoSettle(s, t), i, a[i])
    {
      SettleInode(s, t, i, a[i]);
    }
  }

  lemma SettleInode(s: State, t: nat, i: nat, f: SpecFile)
    requires Links(s) && Durable(s) && CanSettle(s, t) && InodeOk(s, i, f)
    requires (s.threads[t].ok || i != s.bufs[s.threads[t].buf].inode)
    ensures InodeOk(DoSettle(s, t), i, f)
  {
    hide Links, ReadsAs, Elements;
    var w := s.threads[t];
    var b := s.bufs[w.buf];
    var n := DoSettle(s, t);
    ThreadOk(s, t);
    OwnerOk(s, w.batch);
    if b.current.Some? {
      CurrentOk(s, w.buf);
    }
    if b.inode == i {
      NotPoisoned(s, w.buf, f);
      assert PcSafe(s, w);
      assert Merged(n, i) == Merged(s, i);
    } else {
      PutOtherSame(s, n, w.batch, w.buf, i);
      InodeFrame(s, n, i, f);
    }
  }

  /** Changing one buffer and one of its batches leaves another inode's view alone. */
  lemma PutOtherSame(s: State, n: State, c: nat, b: nat, i: nat)
    requires Links(s) && i in s.files && n.files == s.files && n.table == s.table
    requires b in s.bufs && s.bufs[b].inode != i && b in n.bufs && n.bufs[b].inode == s.bufs[b].inode
    requires n.bufs == s.bufs[b := n.bufs[b]]
    requires c in s.batches && s.batches[c].owner == b && c in n.batches && n.batches == s.batches[c := n.batches[c]]
    ensures SameInode(s, n, i)
  {
    hide Links;
    if i in s.table {
      TableOk(s, i);
      FlushingOk(s, s.table[i]);
      if s.bufs[s.table[i]].current.Some? {
        CurrentOk(s, s.table[i]);
      }
    }
  }

  /** A batch no buffer points at may change freely. */
  lemma LooseRefines(s: State, n: State, c: nat, a: Spec)
    requires Links(s) && Refines(s, a) && n.files == s.files && n.table == s.table && n.bufs == s.bufs
    requires c in s.batches && c in n.batches && n.batches == s.batches[c := n.batches[c]]
    requires n.batches[c].extents == s.batches[c].extents && n.batches[c].maxEnd == s.batches[c].maxEnd
    ensures Refines(n, a)
  {
    hide Links;
    forall i | i in a
      ensures SameInode(s, n, i)
    {
      assert InodeOk(s, i, a[i]);
    }
    FrameRefines(s, n, a);
  }

  // ----- drops: their inode is gone from the specification already

  lemma DropEmptyRefines(s: State, t: nat, a: Spec)
    requires Links(s) && Refines(s, a) && CanDropEmpty(s, t)
    ensures Refines(DoDropEmpty(s, t), a)
  {
    hide Links, StampsOf, Elements;
    ThreadOk(s, t);
    var w := s.threads[t];
    var n := DoDropEmpty(s, t);
    forall i | i in a
      ensures SameInode(s, n, i)
    {
      assert InodeOk(s, i, a[i]);
      if s.bufs[w.buf].current.Some? {
        CurrentOk(s, w.buf);
        PutOtherSame(s, n, s.bufs[w.buf].current.value, w.buf, i);
      } else if i in s.table {
        TableOk(s, i);
      }
    }
    FrameRefines(s, n, a);
  }

  lemma GetBufRefines(s: State, t: nat, id0: nat, a: Spec)
    requires Links(s) && Refines(s, a) && CanGetBuf(s, t, id0)
    ensures Refines(DoGetBuf(s, t, id0), a)
  {
    hide Links, ReadsAs;
    var w := s.threads[t];
    var n := DoGetBuf(s, t, id0);
    forall i | i in a
      ensures InodeOk(n, i, a[i])
    {
      assert InodeOk(s, i, a[i]);
      if i in s.table {
        TableOk(s, i);
      }
      if i == w.inode && i !in s.table {
        assert Merged(n, i) == Merged(s, i);
      } else {
        InodeFrame(s, n, i, a[i]);
      }
    }
  }

  // ----- size changes

  lemma ResizeRefines(s: State, inode: nat, size: nat, a: Spec)
    requires Links(s) && Stamps(s) && Refines(s, a) && CanResize(s, inode, size)
    ensures Refines(DoResize(s, inode, size), SpecNext(s, a, Resize(inode, size)))
  {
    hide Links, Stamps, InodeOk;
    forall i | i in a && i != inode
      ensures InodeOk(DoResize(s, inode, size), i, a[i])
    {
      ResizeOther(s, inode, size, i, a[i]);
    }
    if inode in a {
      ResizeInode(s, inode, size, a[inode]);
    }
  }

  lemma ResizeOther(s: State, inode: nat, size: nat, i: nat, f: SpecFile)
    requires Links(s) && CanResize(s, inode, size) && InodeOk(s, i, f) && i != inode
    ensures InodeOk(DoResize(s, inode, size), i, f)
  {
    ResizeOtherSame(s, inode, size, i);
    hide Links, InodeOk, SameInode, DoResize;
    InodeFrame(s, DoResize(s, inode, size), i, f);
  }

  lemma ResizeOtherSame(s: State, inode: nat, size: nat, i: nat)
    requires Links(s) && CanResize(s, inode, size) && i in s.files && i != inode
    ensures SameInode(s, DoResize(s, inode, size), i)
  {
    hide Links, ClipBatch, Clipped, SumLen, CutSet, CutsOf, Elements;
    if i in s.table {
      TableOk(s, i);
      FlushingOk(s, s.table[i]);
      if s.bufs[s.table[i]].current.Some? {
        CurrentOk(s, s.table[i]);
      }
    }
    if inode in s.table {
      TableOk(s, inode);
      if s.bufs[s.table[inode]].current.Some? {
        CurrentOk(s, s.table[inode]);
      }
    }
  }

  /** Growing a file, or setting its own size, changes no byte. */
  lemma GrowInode(s: State, i: nat, size: nat, f: SpecFile)
    requires CanResize(s, i, size) && InodeOk(s, i, f) && size >= StatSize(s, i) && Stamps(s)
    ensures InodeOk(DoResize(s, i, size), i, SpecResize(f, size))
  {
    hide Stamps;
    var n := DoResize(s, i, size);
    assert Merged(n, i) == Merged(s, i);
    assert CutBytes(f.bytes, size) == f.bytes by {
      forall p | p in f.bytes
        ensures p < size
      {
        var e :| Newest(Merged(s, i), e, p) && e.At(p) == f.bytes[p];
      }
    }
  }

  lemma ResizeInode(s: State, i: nat, size: nat, f: SpecFile)
    requires Links(s) && Stamps(s) && CanResize(s, i, size) && InodeOk(s, i, f)
    ensures InodeOk(DoResize(s, i, size), i, SpecResize(f, size))
  {
    if size >= StatSize(s, i) {
      GrowInode(s, i, size, f);
    } else {
      ShrinkInode(s, i, size, f);
    }
  }

  lemma {:induction false} ClippedElements(es: seq<Extent>, size: nat)
    ensures Elements(Clipped(es, size)) == CutSet(Elements(es), size)
    decreases |es|
  {
    hide CutSet;
    if es == [] {
      CutSetNone(size);
      NoElements();
    } else {
      var n := |es| - 1;
      ClippedElements(es[..n], size);
      ElementsConcat(es[..n], [es[n]]);
      assert es == es[..n] + [es[n]];
      var last := if es[n].off >= size then [] else [es[n].Below(size)];
      ElementsConcat(Clipped(es[..n], size), last);
      CutSetUnion(Elements(es[..n]), Elements([es[n]]), size);
      CutSetOne(es[n], size);
    }
  }

  lemma CutSetOne(e: Extent, size: nat)
    ensures CutSet(Elements([e]), size) == Elements(if e.off >= size then [] else [e.Below(size)])
  {
  }

  lemma {:induction false} MaxEndBound(es: seq<Extent>, size: nat)
    requires forall e :: e in es ==> e.End() <= size
    ensures MaxEnd(es) <= size
    decreases |es|
  {
    if es != [] {
      MaxEndBound(es[..|es| - 1], size);
    }
  }

  lemma ClippedEnds(es: seq<Extent>, size: nat)
    ensures MaxEnd(Clipped(es, size)) <= size
  {
    hide MaxEnd, Clipped;
    ClippedElements(es, size);
    forall e | e in Clipped(es, size)
      ensures e.End() <= size
    {
      assert e in Elements(Clipped(es, size));
    }
    MaxEndBound(Clipped(es, size), size);
  }

  lemma CutSetUnion(a: set<Extent>, b: set<Extent>, size: nat)
    ensures CutSet(a + b, size) == CutSet(a, size) + CutSet(b, size)
  {
  }

  lemma CutSetEnds(a: set<Extent>, size: nat)
    ensures forall e :: e in CutSet(a, size) ==> e.End() <= size
  {
  }

  lemma CutSetOnePer(a: set<Extent>, size: nat)
    requires OnePerStamp(a)
    ensures OnePerStamp(CutSet(a, size))
  {
  }

  lemma ShrinkMerged(s: State, i: nat, size: nat)
    requires Links(s) && CanResize(s, i, size) && size < StatSize(s, i)
    ensures Merged(DoResize(s, i, size), i) == CutSet(Merged(s, i), size)
  {
    hide Links, Clipped, MaxEnd, SumLen, CutSet, CutsOf, Elements;
    CutSetUnion(s.files[i].frags, InBuffer(s, i), size);
    CutSetNone(size);
    if i in s.table {
      TableOk(s, i);
      var b := s.bufs[s.table[i]];
      var n := DoResize(s, i, size);
      assert b.flushing.None?;
      if b.current.Some? {
        CurrentOk(s, s.table[i]);
        ClippedElements(s.batches[b.current.value].extents, size);
        assert InBuffer(s, i) == Elements(s.batches[b.current.value].extents);
        assert InBuffer(n, i) == Elements(Clipped(s.batches[b.current.value].extents, size));
      } else {
        assert InBuffer(s, i) == {} && InBuffer(n, i) == {};
      }
    }
  }

  lemma CutSetNone(size: nat)
    ensures CutSet({}, size) == {}
  {
  }

  lemma ShrinkInode(s: State, i: nat, size: nat, f: SpecFile)
    requires Links(s) && CanResize(s, i, size) && InodeOk(s, i, f) && size < StatSize(s, i)
    ensures InodeOk(DoResize(s, i, size), i, SpecResize(f, size))
  {
    hide Links, Clipped, MaxEnd, SumLen, CutSet, CutBytes, CutsOf, Elements, ReadsAs, Merged, OnePerStamp;
    var n := DoResize(s, i, size);
    ShrinkMerged(s, i, size);
    CutReads(Merged(s, i), f.bytes, size);
    CutSetEnds(Merged(s, i), size);
    CutSetOnePer(Merged(s, i), size);
    if i in s.table {
      TableOk(s, i);
      var b := s.bufs[s.table[i]];
      if b.current.Some? {
        CurrentOk(s, s.table[i]);
        ClippedEnds(s.batches[b.current.value].extents, size);
      }
    }
  }

  lemma CreateRefines(s: State, inode: nat, a: Spec)
    requires Refines(s, a) && CanCreate(s, inode) && Links(s)
    ensures Refines(DoCreate(s, inode), SpecNext(s, a, Create(inode)))
  {
    hide Links;
    var n := DoCreate(s, inode);
    forall i | i in a && i != inode
      ensures InodeOk(n, i, a[i])
    {
      InodeFrame(s, n, i, a[i]);
    }
    assert Merged(n, inode) == {};
  }
}
