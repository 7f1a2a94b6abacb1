/** The theorems about every run of the write-back buffer. */
module CoalescerRuns {
  import opened Bytes
  import opened Stripes
  import opened Extents
  import opened Coalescers
  import opened CoalescerLinks
  import opened CoalescerMemory
  import opened CoalescerDurable
  import opened CoalescerRefinement

  ghost predicate Inv(cfg: Config, s: State) {
    Links(s) && Memory(cfg, s) && Stamps(s) && Durable(s)
  }

  // ----- memory

  lemma MemoryKept(cfg: Config, s: State, e: Event)
    requires Links(s) && Memory(cfg, s) && Enabled(cfg, s, e)
    ensures Memory(cfg, Next(cfg, s, e))
  {
    hide Links, Memory, DoCreate, DoAcquire, DoGetBuf, DoAppend, DoPick, DoSwap, DoStore, DoSettle, DoClose, DoRelease,
         DoFsync, DoSnap, DoResize, DoUnlink, DoDrop, DoDropSee, DoDropEmpty, DoDropFree, DoDropDelete;
    match e
    case Append(t, id0) => CurrentLive(s, s.threads[t].buf); AppendMemory(cfg, s, t, id0);
    case Swap(t, id0) => CurrentLive(s, s.threads[t].buf); SwapMemory(cfg, s, t, id0);
    case Settle(t) => ThreadOk(s, t); SettleMemory(cfg, s, t);
    case Close(t) => CloseMemory(cfg, s, t);
    case Release(t) => ThreadOk(s, t); ReleaseMemory(cfg, s, t);
    case Resize(i, size) => ResizeMemory(cfg, s, i, size);
    case DropEmpty(t) => CurrentLive(s, s.threads[t].buf); DropEmptyMemory(cfg, s, t);
    case DropFree(t) => ThreadOk(s, t); DropFreeMemory(cfg, s, t);
    case TakeStamps(n) => SameMemory(cfg, s, DoTakeStamps(s, n));
    case _ => StepMemory(cfg, s, e);
  }

  lemma CurrentLive(s: State, b: nat)
    requires Links(s) && b in s.bufs
    ensures s.bufs[b].current.Some? ==>
      s.bufs[b].current.value in s.batches && !s.batches[s.bufs[b].current.value].phase.Released?
  {
  }

  lemma ResizeMemory(cfg: Config, s: State, i: nat, size: nat)
    requires Links(s) && Memory(cfg, s) && CanResize(s, i, size)
    ensures Memory(cfg, DoResize(s, i, size))
  {
    hide Links, Memory, Clipped, MaxEnd, SumLen, CutSet, CutsOf, Elements;
    if i in s.table {
      TableOk(s, i);
      CurrentLive(s, s.table[i]);
    }
    if size < StatSize(s, i) {
      InvalidatedMemory(cfg, s, i, size);
      SameMemory(cfg, Invalidated(s, i, size), DoResize(s, i, size));
    } else {
      SameMemory(cfg, s, DoResize(s, i, size));
    }
  }

  // ----- stamps

  lemma StampsKept(cfg: Config, s: State, e: Event)
    requires Links(s) && Stamps(s) && Enabled(cfg, s, e)
    ensures Stamps(Next(cfg, s, e))
  {
    hide Links, Stamps, DoAppend, DoResize, DoStore;
    match e
    case Append(t, id0) => AppendStamps(cfg, s, t, id0);
    case Resize(i, size) => ResizeStamps(s, i, size);
    case Store(t, ok) => StoreStamps(s, t, ok);
    case TakeStamps(n) => MoreStamps(s, n);
    case _ => OtherStamps(cfg, s, e);
  }

  lemma MoreStamps(s: State, n: nat)
    requires Stamps(s)
    ensures Stamps(DoTakeStamps(s, n))
  {
    var m := DoTakeStamps(s, n);
    assert forall c :: c in m.batches ==> Bounded(s, m.batches[c].extents);
    assert forall c, i :: Slot(m, c, i) ==> Slot(s, c, i);
  }

  lemma OtherStamps(cfg: Config, s: State, e: Event)
    requires Stamps(s) && Enabled(cfg, s, e) && !e.Append? && !e.Resize? && !e.Store? && !e.TakeStamps?
    ensures Stamps(Next(cfg, s, e))
  {
    hide Stamps, SameExtents;
    FilesBounded(s);
    KeepsExtents(cfg, s, e);
    FilesShrink(cfg, s, e);
    StampsFrame(s, Next(cfg, s, e));
  }

  lemma KeepsExtents(cfg: Config, s: State, e: Event)
    requires Enabled(cfg, s, e) && !e.Append? && !e.Resize? && !e.Store? && !e.TakeStamps?
    ensures SameExtents(s, Next(cfg, s, e)) && Next(cfg, s, e).seqGen == s.seqGen
  {
    if e.Swap? || e.Settle? || e.Close? || e.Release? || e.DropEmpty? || e.DropFree? {
      PutKeepsExtents(cfg, s, e);
    } else {
      hide Elements, StampsOf, WaitsOf, Buffered;
      assert Next(cfg, s, e).batches == s.batches;
    }
  }

  lemma PutKeepsExtents(cfg: Config, s: State, e: Event)
    requires Enabled(cfg, s, e) && (e.Swap? || e.Settle? || e.Close? || e.Release? || e.DropEmpty? || e.DropFree?)
    ensures SameExtents(s, Next(cfg, s, e)) && Next(cfg, s, e).seqGen == s.seqGen
  {
    hide SameExtents, DoSwap, DoSettle, DoClose, DoRelease, DoDropEmpty, DoDropFree;
    match e
    case Swap(t, id0) => SwapKeepsExtents(s, t, id0);
    case Settle(t) => SettleKeepsExtents(s, t);
    case Close(t) => CloseKeepsExtents(s, t);
    case Release(t) => ReleaseKeepsExtents(s, t);
    case DropEmpty(t) => DropEmptyKeepsExtents(s, t);
    case DropFree(t) => DropFreeKeepsExtents(s, t);
  }

  lemma SettleKeepsExtents(s: State, t: nat)
    requires CanSettle(s, t)
    ensures SameExtents(s, DoSettle(s, t)) && DoSettle(s, t).seqGen == s.seqGen
  {
  }

  lemma CloseKeepsExtents(s: State, t: nat)
    requires CanClose(s, t)
    ensures SameExtents(s, DoClose(s, t)) && DoClose(s, t).seqGen == s.seqGen
  {
  }

  lemma ReleaseKeepsExtents(s: State, t: nat)
    requires CanRelease(s, t)
    ensures SameExtents(s, DoRelease(s, t)) && DoRelease(s, t).seqGen == s.seqGen
  {
  }

  lemma DropEmptyKeepsExtents(s: State, t: nat)
    requires CanDropEmpty(s, t)
    ensures SameExtents(s, DoDropEmpty(s, t)) && DoDropEmpty(s, t).seqGen == s.seqGen
  {
    hide Elements, StampsOf;
  }

  lemma DropFreeKeepsExtents(s: State, t: nat)
    requires CanDropFree(s, t)
    ensures SameExtents(s, DoDropFree(s, t)) && DoDropFree(s, t).seqGen == s.seqGen
  {
  }

  lemma SwapKeepsExtents(s: State, t: nat, id0: nat)
    requires CanSwap(s, t, id0)
    ensures SameExtents(s, DoSwap(s, t, id0)) && DoSwap(s, t, id0).seqGen == s.seqGen
  {
  }

  lemma FilesShrink(cfg: Config, s: State, e: Event)
    requires Enabled(cfg, s, e) && !e.Append? && !e.Resize? && !e.Store? && !e.TakeStamps?
    ensures forall i, x :: i in Next(cfg, s, e).files && x in Next(cfg, s, e).files[i].frags ==>
      i in s.files && x in s.files[i].frags
  {
    hide Elements, StampsOf, WaitsOf, Buffered;
  }

  lemma FilesBounded(s: State)
    requires Stamps(s)
    ensures forall i, e :: i in s.files && e in s.files[i].frags ==> e.stamp <= s.seqGen && e.data != []
  {
  }

  lemma StoreStamps(s: State, t: nat, ok: bool)
    requires Stamps(s) && CanStore(s, t)
    ensures Stamps(DoStore(s, t, ok))
  {
    var n := DoStore(s, t, ok);
    assert Bounded(s, s.batches[s.threads[t].batch].extents);
    StampsFrame(s, n);
  }

  lemma CutSetBounded(es: set<Extent>, size: nat, top: nat)
    requires forall e :: e in es ==> e.stamp <= top && e.data != []
    ensures forall e :: e in CutSet(es, size) ==> e.stamp <= top && e.data != []
  {
  }

  lemma ResizeStamps(s: State, i: nat, size: nat)
    requires Links(s) && Stamps(s) && CanResize(s, i, size)
    ensures Stamps(DoResize(s, i, size))
  {
    hide Links, Stamps, Clipped, MaxEnd, SumLen, CutSet, CutsOf, Elements;
    var n := DoResize(s, i, size);
    FilesBounded(s);
    if size < StatSize(s, i) {
      CutSetBounded(s.files[i].frags, size, s.seqGen);
      if i in s.table && s.table[i] in s.bufs && s.bufs[s.table[i]].current.Some?
          && s.bufs[s.table[i]].current.value in s.batches {
        var c := s.bufs[s.table[i]].current.value;
        var m := s.(batches := n.batches);
        ClipStamps(s, m, c, size);
        StampsFrame(m, n);
      } else {
        StampsFrame(s, n);
      }
    } else {
      StampsFrame(s, n);
    }
  }

  // ----- durability

  lemma BatchIsSafe(s: State, c: nat)
    requires Durable(s) && c in s.batches
    ensures BatchSafe(s, s.batches[c])
  {
  }

  lemma PcIsSafe(s: State, t: nat)
    requires Durable(s) && t in s.threads
    ensures PcSafe(s, s.threads[t])
  {
  }

  lemma AppendDurable(cfg: Config, s: State, t: nat, id0: nat)
    requires Links(s) && Durable(s) && cfg.width > 0 && CanAppend(s, t, id0)
    ensures Durable(DoAppend(cfg, s, t, id0))
  {
    hide Links, Durable, Chunks, Stamped;
    ThreadOk(s, t);
    EndDurable(s, t);
    EndLinks(s, t);
    var w := s.threads[t];
    var b := s.bufs[w.buf];
    var n := DoAppend(cfg, s, t, id0);
    if b.poisoned {
      LooserDurable(End(s, t), n);
    } else {
      var c := n.bufs[w.buf].current.value;
      if b.current.Some? {
        CurrentOk(s, w.buf);
        BatchIsSafe(s, c);
      }
      ThreadsLinked(End(s, t));
      PutDurable(End(s, t), c, n.batches[c], w.buf, n.bufs[w.buf]);
      LooserDurable(Put(End(s, t), c, n.batches[c], w.buf, n.bufs[w.buf]), n);
    }
  }

  lemma ThreadsLinked(s: State)
    requires Links(s)
    ensures ThreadLinks(s)
  {
  }

  lemma SwapDurable(s: State, t: nat, id0: nat)
    requires Links(s) && Durable(s) && CanSwap(s, t, id0)
    ensures Durable(DoSwap(s, t, id0))
  {
    hide Links, Durable;
    ThreadOk(s, t);
    EndDurable(s, t);
    EndLinks(s, t);
    var id := s.threads[t].buf;
    var b := s.bufs[id];
    if !(b.flushing.Some? || b.current.None? || s.batches[b.current.value].bytes == 0) {
      var c := b.current.value;
      CurrentOk(s, id);
      BatchIsSafe(s, c);
      var flushing := s.batches[c].(phase := Flushing(t));
      var b1, b2 := b.(current := None, flushing := Some(c)), b.(current := Some(id0), flushing := Some(c));
      ThreadsLinked(End(s, t));
      PutDurable(End(s, t), c, flushing, id, b1);
      PutLinks(End(s, t), c, flushing, id, b1);
      var s1 := Put(End(s, t), c, flushing, id, b1);
      ThreadsLinked(s1);
      PutDurable(s1, id0, NewBatch(id), id, b2);
      GoDurable(Put(s1, id0, NewBatch(id), id, b2), t, Swapped(id, c));
    }
  }

  lemma StoreDurable(s: State, t: nat, ok: bool)
    requires Links(s) && Durable(s) && CanStore(s, t)
    ensures Durable(DoStore(s, t, ok))
  {
    hide Links, Durable;
    var w := s.threads[t];
    var inode := s.bufs[w.buf].inode;
    if ok && inode in s.files {
      var m := s.(files := DoStore(s, t, ok).files);
      FilesDurable(s, m);
      GoDurable(m, t, Stored(w.buf, w.batch, true));
    } else {
      GoDurable(s, t, Stored(w.buf, w.batch, false));
    }
  }

  lemma SettleDurable(s: State, t: nat)
    requires Links(s) && Durable(s) && CanSettle(s, t)
    ensures Durable(DoSettle(s, t))
  {
    hide Links, Durable;
    ThreadOk(s, t);
    PcIsSafe(s, t);
    EndDurable(s, t);
    EndLinks(s, t);
    var w := s.threads[t];
    var n := DoSettle(s, t);
    BatchIsSafe(s, w.batch);
    ThreadsLinked(End(s, t));
    PutDurable(End(s, t), w.batch, n.batches[w.batch], w.buf, n.bufs[w.buf]);
    GoDurable(Put(End(s, t), w.batch, n.batches[w.batch], w.buf, n.bufs[w.buf]), t, Settling(w.batch));
  }

  /** Closing and releasing change a batch that is done. */
  lemma DonePut(s: State, t: nat, c: nat, batch: Batch)
    requires Links(s) && Durable(s) && c in s.batches && s.batches[c].phase.Settled? && batch.owner in s.bufs
    requires batch == s.batches[c].(phase := batch.phase, closed := batch.closed) && Done(batch.phase)
    ensures Durable(PutBatch(End(s, t), c, batch))
  {
    hide Links, Durable;
    EndDurable(s, t);
    EndLinks(s, t);
    BatchIsSafe(s, c);
    ThreadsLinked(End(s, t));
    PutDurable(End(s, t), c, batch, batch.owner, s.bufs[batch.owner]);
  }

  lemma FinishDurable(cfg: Config, s: State, e: Event)
    requires Links(s) && Durable(s) && Enabled(cfg, s, e) && (e.Close? || e.Release? || e.DropFree?)
    ensures Durable(Next(cfg, s, e))
  {
    hide Links, Durable;
    var n := Next(cfg, s, e);
    ThreadOk(s, e.t);
    match e
    case Close(t) =>
      var c := s.threads[t].batch;
      DonePut(s, t, c, s.batches[c].(closed := true));
      GoDurable(PutBatch(End(s, t), c, s.batches[c].(closed := true)), t, Closing(c));
    case Release(t) =>
      var c := s.threads[t].batch;
      DonePut(s, t, c, s.batches[c].(phase := Released));
      LooserDurable(PutBatch(End(s, t), c, s.batches[c].(phase := Released)), n);
    case DropFree(t) =>
      var w := s.threads[t];
      if w.freed.None? {
        GoDurable(s, t, DropLast(w.inode));
      } else {
        var c := w.freed.value;
        DonePut(s, t, c, s.batches[c].(phase := Released));
        var m := PutBatch(End(s, t), c, s.batches[c].(phase := Released));
        GoDurable(m, t, DropLast(w.inode));
        LooserDurable(Go(m, t, DropLast(w.inode)), n);
      }
  }

  lemma EmptyBatch(es: seq<Extent>)
    requires (forall i :: 0 <= i < |es| ==> es[i].data != []) && SumLen(es) == 0
    ensures es == []
  {
  }

  /** Everything buffered is in a batch that fsync waits for: a batch it skips is empty. */
  lemma SnapDurable(s: State, t: nat)
    requires Links(s) && Counted(s) && Stamps(s) && Durable(s) && CanSnap(s, t)
    ensures Durable(DoSnap(s, t))
  {
    hide Durable, SumLen;
    var id := s.threads[t].buf;
    var b := s.bufs[id];
    if b.poisoned {
      EndDurable(s, t);
    } else {
      var waits, snap := WaitsOf(s, b), Buffered(s, b);
      forall e | e in snap
        ensures e in Awaited(s, waits)
      {
        if b.flushing.Some? && b.flushing.value in s.batches && e in s.batches[b.flushing.value].extents {
          assert b.flushing.value in waits;
        } else {
          var c := b.current.value;
          assert Bounded(s, s.batches[c].extents);
          if s.batches[c].bytes == 0 {
            EmptyBatch(s.batches[c].extents);
          }
          assert c in waits;
        }
      }
      GoDurable(s, t, Waiting(id, waits, snap));
    }
  }

  lemma DropEmptyDurable(s: State, t: nat)
    requires Links(s) && Durable(s) && CanDropEmpty(s, t)
    ensures Durable(DoDropEmpty(s, t))
  {
    hide Links, Durable;
    ThreadOk(s, t);
    var w := s.threads[t];
    var b := s.bufs[w.buf];
    var empty := b.(current := None, liveSize := 0);
    if b.current.None? {
      BufDurable(s, w.buf, empty);
      GoDurable(s.(bufs := s.bufs[w.buf := empty]), t, DropFreed(w.inode, None));
    } else {
      var c := b.current.value;
      CurrentOk(s, w.buf);
      BatchIsSafe(s, c);
      var m := s.(gone := s.gone + StampsOf(Elements(s.batches[c].extents)));
      LooserDurable(s, m);
      HeldLinks(s, m);
      EndDurable(m, t);
      EndLinks(m, t);
      ThreadsLinked(End(m, t));
      var batch := s.batches[c].(phase := Settled(t), closed := true);
      PutDurable(End(m, t), c, batch, w.buf, empty);
      GoDurable(Put(End(m, t), c, batch, w.buf, empty), t, DropFreed(w.inode, Some(c)));
      assert Go(Put(End(m, t), c, batch, w.buf, empty), t, DropFreed(w.inode, Some(c))) == DoDropEmpty(s, t);
    }
  }

  lemma BufDurable(s: State, b: nat, buf: Buf)
    requires Durable(s) && b in s.bufs && buf.inode == s.bufs[b].inode && (s.bufs[b].poisoned ==> buf.poisoned)
    ensures Durable(s.(bufs := s.bufs[b := buf]))
  {
    var n := s.(bufs := s.bufs[b := buf]);
    forall c | c in n.batches
      ensures BatchSafe(n, n.batches[c])
    {
      assert BatchSafe(s, s.batches[c]);
    }
    forall t | t in n.threads
      ensures PcSafe(n, n.threads[t])
    {
      assert PcSafe(s, s.threads[t]);
      SamePcSafe(s, n, s.threads[t]);
    }
  }

  /** Clipping the current batch leaves of each extent what the recorded cut says. */
  lemma InvalidatedDurable(s: State, i: nat, size: nat)
    requires Links(s) && Stamps(s) && Durable(s)
    ensures Durable(Invalidated(s, i, size))
  {
    hide Links, Stamps, Durable, Clipped, MaxEnd, SumLen;
    if i in s.table && s.table[i] in s.bufs {
      var id := s.table[i];
      var b := s.bufs[id];
      var small := b.(liveSize := Min(b.liveSize, size));
      if b.current.Some? && b.current.value in s.batches {
        var c := b.current.value;
        var es := s.batches[c].extents;
        CurrentOk(s, id);
        var m := s.(cut := s.cut + CutsOf(Elements(es), size));
        LooserDurable(s, m);
        HeldLinks(s, m);
        ThreadsLinked(m);
        BatchIsSafe(m, c);
        ExtentsBounded(s, c);
        forall e | e in es
          ensures Accounted(m.cut, m.gone, Elements(Clipped(es, size)), e)
        {
          KeptOrCut(es, size, e, m.cut, m.gone);
        }
        PutDurable(m, c, ClipBatch(s.batches[c], size), id, small);
        LooserDurable(Put(m, c, ClipBatch(s.batches[c], size), id, small), Invalidated(s, i, size));
      } else {
        BufDurable(s, id, small);
      }
    }
  }

  lemma ExtentsBounded(s: State, c: nat)
    requires Stamps(s) && c in s.batches
    ensures Bounded(s, s.batches[c].extents)
  {
  }

  lemma KeptOrCut(es: seq<Extent>, size: nat, e: Extent, cut: set<Cut>, gone: set<nat>)
    requires e in es && e.data != [] && CutsOf(Elements(es), size) <= cut
    ensures Accounted(cut, gone, Elements(Clipped(es, size)), e)
  {
    hide Clipped;
    if e.off < size {
      ClippedKeeps(es, size, e);
    }
    CutAccounted(Elements(es), size, e, cut, gone, Elements(Clipped(es, size)));
  }

  /** An extent that reaches past the cut is accounted for by its part below. */
  lemma CutAccounted(es: set<Extent>, size: nat, e: Extent, cut: set<Cut>, gone: set<nat>, held: set<Extent>)
    requires e in es && e.data != [] && CutsOf(es, size) <= cut && (e.off < size ==> e.Below(size) in held)
    ensures Accounted(cut, gone, held, e)
  {
    if e.End() > size {
      assert Cut(e, size) in cut;
      assert e.off < size ==> Accounted(cut, gone, held, e.Below(size));
    }
  }

  lemma ResizeDurable(s: State, i: nat, size: nat)
    requires Links(s) && Stamps(s) && Durable(s) && CanResize(s, i, size)
    ensures Durable(DoResize(s, i, size))
  {
    hide Links, Durable, Stamps, Clipped, MaxEnd, SumLen;
    var n := DoResize(s, i, size);
    if size < StatSize(s, i) {
      var m := Invalidated(s, i, size);
      InvalidatedDurable(s, i, size);
      InvalidatedFiles(s, i, size);
      FilesBounded(s);
      NoFlushOf(s, i);
      assert m.threads == s.threads;
      forall e | e in s.files[i].frags
        ensures Safe(n, i, e)
      {
        CutAccounted(s.files[i].frags, size, e, n.cut, n.gone, n.files[i].frags);
      }
      FilesDurable(m, n);
    } else {
      FilesDurable(s, n);
    }
  }

  lemma InvalidatedFiles(s: State, i: nat, size: nat)
    ensures var m := Invalidated(s, i, size);
            m.files == s.files && m.threads == s.threads && m.gone == s.gone && m.seqGen == s.seqGen
            && m.table == s.table && m.bufs.Keys == s.bufs.Keys
            && forall b :: b in s.bufs ==> m.bufs[b].inode == s.bufs[b].inode
  {
    hide Clipped, MaxEnd, SumLen;
  }

  /** While a size change is allowed, no flush of the inode is between disk and settle. */
  lemma NoFlushOf(s: State, i: nat)
    requires Links(s) && NoFlush(s, i)
    ensures forall t :: t in s.threads && s.threads[t].Stored? ==>
      s.threads[t].buf in s.bufs && s.bufs[s.threads[t].buf].inode != i
  {
    forall t | t in s.threads && s.threads[t].Stored?
      ensures s.threads[t].buf in s.bufs && s.bufs[s.threads[t].buf].inode != i
    {
      assert PcOk(s, t, s.threads[t]);
    }
  }

  lemma GoStepDurable(cfg: Config, s: State, e: Event)
    requires Links(s) && Durable(s) && Enabled(cfg, s, e)
    requires e.Create? || e.Acquire? || e.GetBuf? || e.Pick? || e.Fsync? || e.Return? || e.Unlink? || e.Drop?
             || e.DropSee? || e.DropDelete?
    ensures Durable(Next(cfg, s, e))
  {
    hide Links, Durable;
    var n := Next(cfg, s, e);
    match e
    case Create(i) => CreateFlushes(s, i); FilesDurable(s, n);
    case Unlink(i) => FilesDurable(s, n);
    case Acquire(t, i, off, data) =>
      GoDurable(s, t, Writing(i, off, data));
      LooserDurable(Go(s, t, Writing(i, off, data)), n);
    case GetBuf(t, id0) => GetBufDurable(s, t, id0);
    case Pick(t, i) => GoDurable(s, t, FlushHas(s.table[i]));
    case Fsync(t, i) => GoDurable(s, t, FsyncHas(s.table[i]));
    case Return(t) => EndDurable(s, t);
    case Drop(t, i) => GoDurable(s, t, DropHas(i, s.table[i]));
    case DropSee(t) => GoDurable(s, t, DropSaw(s.threads[t].inode, s.threads[t].buf));
    case DropDelete(t) => EndDurable(s, t); LooserDurable(End(s, t), n);
  }

  lemma CreateFlushes(s: State, i: nat)
    requires Links(s) && CanCreate(s, i)
    ensures FlushesKept(s, DoCreate(s, i))
  {
  }

  lemma GetBufDurable(s: State, t: nat, id0: nat)
    requires Links(s) && Durable(s) && CanGetBuf(s, t, id0)
    ensures Durable(DoGetBuf(s, t, id0))
  {
    hide Links;
    var w := s.threads[t];
    if w.inode in s.table {
      GoDurable(s, t, DoGetBuf(s, t, id0).threads[t]);
    } else {
      var m := AddBuf(s, id0, w.inode);
      forall c | c in m.batches
        ensures BatchSafe(m, m.batches[c])
      {
        assert BatchSafe(s, s.batches[c]);
      }
      forall u | u in m.threads
        ensures PcSafe(m, m.threads[u])
      {
        SamePcSafe(s, m, s.threads[u]);
      }
      GoDurable(m, t, DoGetBuf(s, t, id0).threads[t]);
    }
  }

  lemma DurableKept(cfg: Config, s: State, e: Event)
    requires Inv(cfg, s) && Enabled(cfg, s, e)
    ensures Durable(Next(cfg, s, e))
  {
    hide Links, Durable, Stamps, Counted, DoCreate, DoAcquire, DoGetBuf, DoAppend, DoPick, DoSwap, DoStore, DoSettle,
         DoClose, DoRelease, DoFsync, DoSnap, DoResize, DoUnlink, DoDrop, DoDropSee, DoDropEmpty, DoDropFree,
         DoDropDelete;
    match e
    case Append(t, id0) => AppendDurable(cfg, s, t, id0);
    case Swap(t, id0) => SwapDurable(s, t, id0);
    case Store(t, ok) => StoreDurable(s, t, ok);
    case Settle(t) => SettleDurable(s, t);
    case Close(t) => FinishDurable(cfg, s, e);
    case Release(t) => FinishDurable(cfg, s, e);
    case DropFree(t) => FinishDurable(cfg, s, e);
    case Snap(t) => SnapDurable(s, t);
    case Resize(i, size) => ResizeDurable(s, i, size);
    case DropEmpty(t) => DropEmptyDurable(s, t);
    case TakeStamps(n) => LooserDurable(s, DoTakeStamps(s, n));
    case _ => GoStepDurable(cfg, s, e);
  }

  // ----- refinement

  lemma GoStepRefines(cfg: Config, s: State, e: Event, a: Spec)
    requires Links(s) && Refines(s, a) && Enabled(cfg, s, e)
    requires e.Acquire? || e.Pick? || e.Fsync? || e.Snap? || e.Return? || e.Unlink? || e.Drop? || e.DropSee?
             || e.DropDelete? || e.TakeStamps?
    ensures Refines(Next(cfg, s, e), SpecNext(s, a, e))
  {
    hide Links, InodeOk, StampsOf, WaitsOf, Buffered;
    var n, b := Next(cfg, s, e), SpecNext(s, a, e);
    if e.DropDelete? {
      ThreadOk(s, e.t);
    }
    assert Refines(s, b);
    forall i | i in b
      ensures SameInode(s, n, i)
    {
      InodeInFiles(s, i, b[i]);
      GoStepSame(cfg, s, e, i);
    }
    FrameRefines(s, n, b);
  }

  lemma GoStepSame(cfg: Config, s: State, e: Event, i: nat)
    requires Enabled(cfg, s, e) && i in s.files
    requires e.Acquire? || e.Pick? || e.Fsync? || e.Snap? || e.Return? || e.Unlink? || e.Drop? || e.DropSee?
             || e.DropDelete? || e.TakeStamps?
    requires e.Unlink? ==> i != e.inode
    requires e.DropDelete? ==> s.threads[e.t].inode !in s.files
    ensures SameInode(s, Next(cfg, s, e), i)
  {
    hide StampsOf, WaitsOf, Buffered;
  }

  lemma FinishRefines(cfg: Config, s: State, e: Event, a: Spec)
    requires Links(s) && Refines(s, a) && Enabled(cfg, s, e) && (e.Close? || e.Release? || e.DropFree?)
    ensures Refines(Next(cfg, s, e), a)
  {
    hide Links, InodeOk;
    var n := Next(cfg, s, e);
    match e
    case Close(t) => LooseRefines(s, n, s.threads[t].batch, a);
    case Release(t) => LooseRefines(s, n, s.threads[t].batch, a);
    case DropFree(t) =>
      if s.threads[t].freed.Some? {
        LooseRefines(s, n, s.threads[t].freed.value, a);
      } else {
        forall i | i in a
          ensures SameInode(s, n, i)
        {
          InodeInFiles(s, i, a[i]);
        }
        FrameRefines(s, n, a);
      }
  }

  lemma RefinesKept(cfg: Config, s: State, e: Event, a: Spec)
    requires Inv(cfg, s) && Refines(s, a) && Enabled(cfg, s, e)
    ensures Refines(Next(cfg, s, e), SpecNext(s, a, e))
  {
    hide Links, Durable, Stamps, Memory, Refines, DoCreate, DoAcquire, DoGetBuf, DoAppend, DoPick, DoSwap, DoStore,
         DoSettle, DoClose, DoRelease, DoFsync, DoSnap, DoResize, DoUnlink, DoDrop, DoDropSee, DoDropEmpty, DoDropFree,
         DoDropDelete;
    match e
    case Create(i) => CreateRefines(s, i, a);
    case GetBuf(t, id0) => GetBufRefines(s, t, id0, a);
    case Append(t, id0) => AppendRefines(cfg, s, t, id0, a);
    case Swap(t, id0) => SwapRefines(s, t, id0, a);
    case Store(t, ok) => StoreRefines(s, t, ok, a);
    case Settle(t) => SettleRefines(s, t, a);
    case Close(t) => FinishRefines(cfg, s, e, a);
    case Release(t) => FinishRefines(cfg, s, e, a);
    case DropFree(t) => FinishRefines(cfg, s, e, a);
    case Resize(i, size) => ResizeRefines(s, i, size, a);
    case DropEmpty(t) => DropEmptyRefines(s, t, a);
    case _ => GoStepRefines(cfg, s, e, a);
  }

  // ----- whole runs

  /** A run: any interleaving of enabled steps from the empty store. */
  ghost predicate Run(cfg: Config, states: seq<State>, events: seq<Event>) {
    && |states| == |events| + 1 && states[0] == EMPTY_STATE
    && forall k :: 0 <= k < |events| ==>
         Enabled(cfg, states[k], events[k]) && states[k + 1] == Next(cfg, states[k], events[k])
  }

  /** The specification after the first k steps. */
  ghost function SpecAt(states: seq<State>, events: seq<Event>, k: nat): Spec
    requires k <= |events| < |states|
  {
    if k == 0 then map[] else SpecNext(states[k - 1], SpecAt(states, events, k - 1), events[k - 1])
  }

  /** In every reachable state of every interleaving: references are sound, the semaphore holds exactly the bytes in
      memory and never exceeds the cap, stamps are unique, fsync cannot lie, and every file reads and sizes as
      specified. */
  lemma {:induction false} EveryRun(cfg: Config, states: seq<State>, events: seq<Event>, k: nat)
    requires Run(cfg, states, events) && k < |states|
    ensures Inv(cfg, states[k]) && Refines(states[k], SpecAt(states, events, k))
    decreases k
  {
    if k == 0 {
      EmptyInv(cfg);
    } else {
      EveryRun(cfg, states, events, k - 1);
      hide Inv, Refines, Enabled, Next;
      var s, e := states[k - 1], events[k - 1];
      assert Enabled(cfg, s, e) && states[k] == Next(cfg, s, e);
      StepKept(cfg, s, e, SpecAt(states, events, k - 1));
    }
  }

  lemma StepKept(cfg: Config, s: State, e: Event, a: Spec)
    requires Inv(cfg, s) && Refines(s, a) && Enabled(cfg, s, e)
    ensures Inv(cfg, Next(cfg, s, e)) && Refines(Next(cfg, s, e), SpecNext(s, a, e))
  {
    hide Links, Memory, Stamps, Durable, Refines, Enabled, Next;
    LinksKept(cfg, s, e);
    MemoryKept(cfg, s, e);
    StampsKept(cfg, s, e);
    DurableKept(cfg, s, e);
    RefinesKept(cfg, s, e, a);
  }

  lemma EmptyInv(cfg: Config)
    ensures Inv(cfg, EMPTY_STATE)
  {
  }

  // ----- what the theorems say about one run

  ghost predicate WritesAt(s: State, e: Event, i: nat, p: int) {
    e.Append? && e.t in s.threads && s.threads[e.t].WriteHas? && s.threads[e.t].inode == i
    && s.threads[e.t].off <= p < s.threads[e.t].off + |s.threads[e.t].data|
  }

  /** No step from j on writes byte p of the inode, cuts the file at or below p, or ends the promise about the inode. */
  ghost predicate Untouched(states: seq<State>, events: seq<Event>, i: nat, p: int, j: nat, k: nat)
    requires j <= k <= |events| < |states|
  {
    forall m :: j <= m < k ==>
      !WritesAt(states[m], events[m], i, p) && events[m] != Create(i)
      && !(events[m].Resize? && events[m].inode == i && events[m].size <= p)
  }

  /** One step's effect on one byte of the specification. */
  lemma SpecByte(s: State, a: Spec, e: Event, i: nat, p: int)
    requires i in SpecNext(s, a, e) && e != Create(i)
    ensures i in a
    ensures var f, g := a[i], SpecNext(s, a, e)[i];
            if WritesAt(s, e, i, p) then p in g.bytes && g.bytes[p] == s.threads[e.t].data[p - s.threads[e.t].off]
            else if e.Resize? && e.inode == i && e.size <= p then p !in g.bytes
            else (p in g.bytes <==> p in f.bytes) && (p in f.bytes ==> g.bytes[p] == f.bytes[p])
  {
  }

  lemma {:induction false} UntouchedByte(states: seq<State>, events: seq<Event>, i: nat, p: int, j: nat, k: nat)
    requires j <= k <= |events| < |states| && Untouched(states, events, i, p, j, k)
    requires i in SpecAt(states, events, k)
    ensures i in SpecAt(states, events, j)
    ensures p in SpecAt(states, events, k)[i].bytes <==> p in SpecAt(states, events, j)[i].bytes
    ensures p in SpecAt(states, events, k)[i].bytes ==>
      SpecAt(states, events, k)[i].bytes[p] == SpecAt(states, events, j)[i].bytes[p]
    decreases k
  {
    hide SpecNext, WritesAt;
    if j < k {
      assert !WritesAt(states[k - 1], events[k - 1], i, p);
      SpecByte(states[k - 1], SpecAt(states, events, k - 1), events[k - 1], i, p);
      UntouchedByte(states, events, i, p, j, k - 1);
    }
  }

  /** The merged extents show the specification's byte. */
  lemma ShowsByte(s: State, i: nat, f: SpecFile, p: int)
    requires InodeOk(s, i, f)
    ensures i in s.files
    ensures p in f.bytes ==> exists x :: Newest(Merged(s, i), x, p) && x.At(p) == f.bytes[p]
    ensures p !in f.bytes ==> forall x :: x in Merged(s, i) ==> !x.Covers(p)
  {
    hide BufferOk, Merged;
  }

  /** Every byte reads as the last write that covered it, over any interleaving of writers, ticks and flush workers. */
  lemma LastWriteWins(cfg: Config, states: seq<State>, events: seq<Event>, i: nat, p: int, j: nat, k: nat)
    requires Run(cfg, states, events) && j < k <= |events| && WritesAt(states[j], events[j], i, p)
    requires Untouched(states, events, i, p, j + 1, k) && i in SpecAt(states, events, k)
    ensures var w := states[j].threads[events[j].t];
            i in states[k].files && exists x :: Newest(Merged(states[k], i), x, p) && x.At(p) == w.data[p - w.off]
  {
    hide Inv, Enabled, Next, SpecNext, InodeOk, Merged;
    EveryRun(cfg, states, events, k);
    UntouchedByte(states, events, i, p, j + 1, k);
    SpecByte(states[j], SpecAt(states, events, j), events[j], i, p);
    ShowsByte(states[k], i, SpecAt(states, events, k)[i], p);
  }

  /** Shrink, then grow: from the cut on the file reads as a hole until rewritten, whatever sizes are set later. */
  lemma ShrinkThenGrow(cfg: Config, states: seq<State>, events: seq<Event>, i: nat, p: int, j: nat, k: nat)
    requires Run(cfg, states, events) && j < k <= |events|
    requires events[j].Resize? && events[j].inode == i && events[j].size <= p
    requires Untouched(states, events, i, p, j + 1, k) && i in SpecAt(states, events, k)
    ensures i in states[k].files && forall x :: x in Merged(states[k], i) ==> !x.Covers(p)
  {
    hide Inv, Enabled, Next, SpecNext, InodeOk, Merged;
    EveryRun(cfg, states, events, k);
    UntouchedByte(states, events, i, p, j + 1, k);
    SpecByte(states[j], SpecAt(states, events, j), events[j], i, p);
    ShowsByte(states[k], i, SpecAt(states, events, k)[i], p);
  }

  /** How one step moves the size: a write raises it to its own end, a size change sets it, nothing else moves it. */
  ghost function SizeAfter(s: State, e: Event, i: nat, size: nat): nat {
    if e.Resize? && e.inode == i then e.size
    else if e.Append? && e.t in s.threads && s.threads[e.t].WriteHas? && s.threads[e.t].inode == i
    then Max(size, s.threads[e.t].off + |s.threads[e.t].data|)
    else size
  }

  lemma SpecSize(s: State, a: Spec, e: Event, i: nat)
    requires i in SpecNext(s, a, e) && e != Create(i)
    ensures i in a && SpecNext(s, a, e)[i].size == SizeAfter(s, e, i, a[i].size)
  {
  }

  lemma StatShows(s: State, i: nat, f: SpecFile)
    requires InodeOk(s, i, f)
    ensures i in s.files && StatSize(s, i) == f.size
  {
  }

  /** Stat reports the abstract size after every step of every run. */
  lemma StatIsExact(cfg: Config, states: seq<State>, events: seq<Event>, i: nat, k: nat)
    requires Run(cfg, states, events) && k < |events| && events[k] != Create(i) && i in SpecAt(states, events, k + 1)
    ensures i in states[k].files && i in states[k + 1].files
    ensures StatSize(states[k + 1], i) == SizeAfter(states[k], events[k], i, StatSize(states[k], i))
  {
    hide Inv, Enabled, Next, SpecNext, InodeOk, StatSize, SizeAfter;
    EveryRun(cfg, states, events, k);
    EveryRun(cfg, states, events, k + 1);
    SpecSize(states[k], SpecAt(states, events, k), events[k], i);
    StatShows(states[k], i, SpecAt(states, events, k)[i]);
    StatShows(states[k + 1], i, SpecAt(states, events, k + 1)[i]);
  }

  /** Fsync never lies, on any run. */
  lemma FsyncOnEveryRun(cfg: Config, states: seq<State>, events: seq<Event>, k: nat)
    requires Run(cfg, states, events) && k < |events| && events[k].Return?
    ensures var s, t := states[k], events[k].t; var w := s.threads[t];
            && (FsyncOk(s, t) ==> forall e :: e in w.snap ==> Safe(s, s.bufs[w.buf].inode, e))
            && ((exists c :: c in w.waits && s.batches[c].failed) ==> !FsyncOk(s, t))
  {
    EveryRun(cfg, states, events, k);
    FsyncNeverLies(states[k], events[k].t);
  }
}
