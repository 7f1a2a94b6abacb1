/** What every step of the write-back buffer keeps: who holds what, the memory accounting and the stamps. */
module CoalescerLinks {
  import opened Bytes
  import opened Stripes
  import opened Extents
  import opened Sums
  import opened Coalescers

  // ----- references

  ghost predicate BufLinks(s: State) {
    forall b :: b in s.bufs ==>
      && (s.bufs[b].current.Some? ==>
            Points(s, s.bufs[b].current.value, b) && s.batches[s.bufs[b].current.value].phase.Current?)
      && (s.bufs[b].flushing.Some? ==>
            Points(s, s.bufs[b].flushing.value, b) && s.batches[s.bufs[b].flushing.value].phase.Flushing?)
  }

  ghost predicate Points(s: State, c: nat, b: nat) { c in s.batches && s.batches[c].owner == b }

  ghost predicate BatchLinks(s: State) {
    forall c :: c in s.batches ==>
      && s.batches[c].owner in s.bufs
      && (s.batches[c].phase.Current? ==> s.bufs[s.batches[c].owner].current == Some(c))
      && (s.batches[c].phase.Flushing? ==> s.bufs[s.batches[c].owner].flushing == Some(c))
  }

  ghost predicate PcOk(s: State, t: nat, pc: Pc) {
    match pc
    case Writing(_, _, data) => data != []
    case WriteHas(b, i, _, data) => data != [] && b in s.bufs && s.bufs[b].inode == i
    case FlushHas(b) => b in s.bufs
    case Swapped(b, c) => b in s.bufs && Points(s, c, b) && s.batches[c].phase == Flushing(t)
    case Stored(b, c, _) => b in s.bufs && Points(s, c, b) && s.batches[c].phase == Flushing(t)
    case Settling(c) => c in s.batches && s.batches[c].phase == Settled(t)
    case Closing(c) => c in s.batches && s.batches[c].phase == Settled(t) && s.batches[c].closed
    case FsyncHas(b) => b in s.bufs
    case Waiting(b, waits, _) => b in s.bufs && forall c :: c in waits ==> Points(s, c, b)
    case DropHas(i, b) => b in s.bufs && s.bufs[b].inode == i && i !in s.files
    case DropSaw(i, b) => b in s.bufs && s.bufs[b].inode == i && i !in s.files
    case DropFreed(i, freed) =>
      i !in s.files && (freed.Some? ==> freed.value in s.batches && s.batches[freed.value].phase == Settled(t))
    case DropLast(i) => i !in s.files
  }

  ghost predicate ThreadLinks(s: State) {
    forall t :: t in s.threads ==> PcOk(s, t, s.threads[t])
  }

  ghost predicate TableLinks(s: State) {
    forall i :: i in s.table ==> s.table[i] in s.bufs && s.bufs[s.table[i]].inode == i
  }

  ghost predicate Links(s: State) {
    BufLinks(s) && BatchLinks(s) && ThreadLinks(s) && TableLinks(s)
  }

  // ----- three moves make up every step: a goroutine ends, a batch is put, a goroutine goes on

  lemma EndLinks(s: State, t: nat)
    requires Links(s)
    ensures Links(End(s, t))
  {
    forall u | u in End(s, t).threads
      ensures PcOk(End(s, t), u, s.threads[u])
    {
      assert PcOk(s, u, s.threads[u]);
    }
  }

  lemma GoLinks(s: State, t: nat, pc: Pc)
    requires Links(s) && PcOk(s, t, pc)
    ensures Links(Go(s, t, pc))
  {
    var n := Go(s, t, pc);
    forall u | u in n.threads
      ensures PcOk(n, u, n.threads[u])
    {
      assert u != t ==> PcOk(s, u, s.threads[u]);
    }
  }

  /** The buffer's pointers follow the batch's phase, and no goroutine loses hold of it. */
  ghost predicate CanPut(s: State, c: nat, batch: Batch, b: nat, buf: Buf) {
    && b in s.bufs && batch.owner == b && buf.inode == s.bufs[b].inode
    && buf.current == Pointer(s.bufs[b].current, c, batch.phase.Current?)
    && buf.flushing == Pointer(s.bufs[b].flushing, c, batch.phase.Flushing?)
    && (batch.phase.Current? ==> s.bufs[b].current == None || s.bufs[b].current == Some(c))
    && (batch.phase.Flushing? ==> s.bufs[b].flushing == None || s.bufs[b].flushing == Some(c))
    && (c in s.batches ==>
          s.batches[c].owner == b && (s.batches[c].closed ==> batch.closed)
          && (batch.phase == s.batches[c].phase || Unheld(s, s.batches[c].phase)))
  }

  ghost function Pointer(old': Option<nat>, c: nat, here: bool): Option<nat> {
    if here then Some(c) else if old' == Some(c) then None else old'
  }

  ghost predicate Unheld(s: State, p: Phase) {
    match p
    case Flushing(t) => t !in s.threads
    case Settled(t) => t !in s.threads
    case _ => true
  }

  lemma PutLinks(s: State, c: nat, batch: Batch, b: nat, buf: Buf)
    requires Links(s) && CanPut(s, c, batch, b, buf)
    ensures Links(Put(s, c, batch, b, buf))
  {
    var n := Put(s, c, batch, b, buf);
    PutBufLinks(s, c, batch, b, buf);
    PutBatchLinks(s, c, batch, b, buf);
    forall u | u in n.threads
      ensures PcOk(n, u, n.threads[u])
    {
      PutPc(s, c, batch, b, buf, u);
    }
    assert TableLinks(n);
  }

  lemma PutBufLinks(s: State, c: nat, batch: Batch, b: nat, buf: Buf)
    requires BufLinks(s) && BatchLinks(s) && CanPut(s, c, batch, b, buf)
    ensures BufLinks(Put(s, c, batch, b, buf))
  {
  }

  lemma PutBatchLinks(s: State, c: nat, batch: Batch, b: nat, buf: Buf)
    requires BufLinks(s) && BatchLinks(s) && CanPut(s, c, batch, b, buf)
    ensures BatchLinks(Put(s, c, batch, b, buf))
  {
  }

  lemma PutPc(s: State, c: nat, batch: Batch, b: nat, buf: Buf, u: nat)
    requires CanPut(s, c, batch, b, buf) && u in s.threads && PcOk(s, u, s.threads[u])
    ensures PcOk(Put(s, c, batch, b, buf), u, s.threads[u])
  {
  }

  lemma ThreadOk(s: State, t: nat)
    requires Links(s) && t in s.threads
    ensures PcOk(s, t, s.threads[t])
  {
  }

  // ----- each step

  lemma AppendLinks(cfg: Config, s: State, t: nat, id0: nat)
    requires Links(s) && cfg.width > 0 && CanAppend(s, t, id0)
    ensures Links(DoAppend(cfg, s, t, id0))
  {
    hide Links, Chunks, Stamped;
    ThreadOk(s, t);
    EndLinks(s, t);
    var w := s.threads[t];
    var b := s.bufs[w.buf];
    if b.poisoned {
      HeldLinks(End(s, t), DoAppend(cfg, s, t, id0));
    } else {
      if b.current.Some? {
        CurrentOk(s, w.buf);
      }
      FlushingOk(s, w.buf);
      var c := if b.current.Some? then b.current.value else id0;
      var batch := DoAppend(cfg, s, t, id0).batches[c];
      var buf := b.(current := Some(c), liveSize := Max(b.liveSize, w.off + |w.data|));
      PutLinks(End(s, t), c, batch, w.buf, buf);
      HeldLinks(Put(End(s, t), c, batch, w.buf, buf), DoAppend(cfg, s, t, id0));
    }
  }

  lemma SwapLinks(s: State, t: nat, id0: nat)
    requires Links(s) && CanSwap(s, t, id0)
    ensures Links(DoSwap(s, t, id0))
  {
    hide Links;
    ThreadOk(s, t);
    EndLinks(s, t);
    var id := s.threads[t].buf;
    var b := s.bufs[id];
    if !(b.flushing.Some? || b.current.None? || s.batches[b.current.value].bytes == 0) {
      var c := b.current.value;
      CurrentOk(s, id);
      var flushing := s.batches[c].(phase := Flushing(t));
      PutLinks(End(s, t), c, flushing, id, b.(current := None, flushing := Some(c)));
      var s1 := Put(End(s, t), c, flushing, id, b.(current := None, flushing := Some(c)));
      PutLinks(s1, id0, NewBatch(id), id, b.(current := Some(id0), flushing := Some(c)));
      GoLinks(Put(s1, id0, NewBatch(id), id, b.(current := Some(id0), flushing := Some(c))), t, Swapped(id, c));
    }
  }

  lemma CurrentOk(s: State, b: nat)
    requires Links(s) && b in s.bufs && s.bufs[b].current.Some?
    ensures Points(s, s.bufs[b].current.value, b) && s.batches[s.bufs[b].current.value].phase.Current?
    ensures s.bufs[b].flushing != s.bufs[b].current
  {
  }

  lemma FlushingOk(s: State, b: nat)
    requires Links(s) && b in s.bufs
    ensures s.bufs[b].flushing.Some? ==>
      Points(s, s.bufs[b].flushing.value, b) && s.batches[s.bufs[b].flushing.value].phase.Flushing?
  {
  }

  lemma OwnerOk(s: State, c: nat)
    requires Links(s) && c in s.batches
    ensures s.batches[c].owner in s.bufs
    ensures s.bufs[s.batches[c].owner].current == Some(c) <==> s.batches[c].phase.Current?
    ensures s.bufs[s.batches[c].owner].flushing == Some(c) <==> s.batches[c].phase.Flushing?
  {
  }

  lemma SettleLinks(s: State, t: nat)
    requires Links(s) && CanSettle(s, t)
    ensures Links(DoSettle(s, t))
  {
    hide Links;
    ThreadOk(s, t);
    EndLinks(s, t);
    var w := s.threads[t];
    var b := s.bufs[w.buf];
    OwnerOk(s, w.batch);
    var batch := s.batches[w.batch].(phase := Settled(t), failed := !w.ok);
    var buf := b.(flushing := None, poisoned := b.poisoned || !w.ok);
    PutLinks(End(s, t), w.batch, batch, w.buf, buf);
    GoLinks(Put(End(s, t), w.batch, batch, w.buf, buf), t, Settling(w.batch));
  }

  lemma CloseLinks(s: State, t: nat)
    requires Links(s) && CanClose(s, t)
    ensures Links(DoClose(s, t))
  {
    hide Links;
    ThreadOk(s, t);
    EndLinks(s, t);
    var c := s.threads[t].batch;
    OwnerOk(s, c);
    var batch := s.batches[c].(closed := true);
    PutLinks(End(s, t), c, batch, batch.owner, s.bufs[batch.owner]);
    GoLinks(PutBatch(End(s, t), c, batch), t, Closing(c));
  }

  lemma ReleaseLinks(s: State, t: nat)
    requires Links(s) && CanRelease(s, t)
    ensures Links(DoRelease(s, t))
  {
    ThreadOk(s, t);
    EndLinks(s, t);
    var c := s.threads[t].batch;
    OwnerOk(s, c);
    var batch := s.batches[c].(phase := Released);
    PutLinks(End(s, t), c, batch, batch.owner, s.bufs[batch.owner]);
    HeldLinks(PutBatch(End(s, t), c, batch), DoRelease(s, t));
  }

  /** Links do not depend on the semaphore, the counters or the records of discarded stamps. */
  lemma HeldLinks(s: State, n: State)
    requires Links(s) && n == s.(held := n.held, seqGen := n.seqGen, cut := n.cut, gone := n.gone)
    ensures Links(n)
  {
    forall u | u in n.threads
      ensures PcOk(n, u, n.threads[u])
    {
      assert PcOk(s, u, s.threads[u]);
    }
  }

  lemma DropEmptyLinks(s: State, t: nat)
    requires Links(s) && CanDropEmpty(s, t)
    ensures Links(DoDropEmpty(s, t))
  {
    hide Links, StampsOf, Elements;
    ThreadOk(s, t);
    EndLinks(s, t);
    var w := s.threads[t];
    var b := s.bufs[w.buf];
    var empty := b.(current := None, liveSize := 0);
    if b.current.None? {
      LiveSizeLinks(s, w.buf, 0);
      GoLinks(s.(bufs := s.bufs[w.buf := empty]), t, DropFreed(w.inode, None));
    } else {
      var c := b.current.value;
      CurrentOk(s, w.buf);
      var batch := s.batches[c].(phase := Settled(t), closed := true);
      PutLinks(End(s, t), c, batch, w.buf, empty);
      var n := Put(End(s, t), c, batch, w.buf, empty);
      GoLinks(n, t, DropFreed(w.inode, Some(c)));
      HeldLinks(Go(n, t, DropFreed(w.inode, Some(c))), DoDropEmpty(s, t));
    }
  }

  lemma LiveSizeLinks(s: State, b: nat, size: nat)
    requires Links(s) && b in s.bufs
    ensures Links(s.(bufs := s.bufs[b := s.bufs[b].(liveSize := size)]))
  {
    var n := s.(bufs := s.bufs[b := s.bufs[b].(liveSize := size)]);
    forall u | u in n.threads
      ensures PcOk(n, u, n.threads[u])
    {
      assert PcOk(s, u, s.threads[u]);
    }
  }

  lemma DropFreeLinks(s: State, t: nat)
    requires Links(s) && CanDropFree(s, t)
    ensures Links(DoDropFree(s, t))
  {
    hide Links;
    ThreadOk(s, t);
    EndLinks(s, t);
    var w := s.threads[t];
    if w.freed.None? {
      GoLinks(s, t, DropLast(w.inode));
    } else {
      var c := w.freed.value;
      OwnerOk(s, c);
      var batch := s.batches[c].(phase := Released);
      PutLinks(End(s, t), c, batch, batch.owner, s.bufs[batch.owner]);
      var n := PutBatch(End(s, t), c, batch);
      GoLinks(n, t, DropLast(w.inode));
      HeldLinks(Go(n, t, DropLast(w.inode)), DoDropFree(s, t));
    }
  }

  lemma GetBufLinks(s: State, t: nat, id0: nat)
    requires Links(s) && CanGetBuf(s, t, id0)
    ensures Links(DoGetBuf(s, t, id0))
  {
    ThreadOk(s, t);
    var w := s.threads[t];
    if w.inode in s.table {
      GoLinks(s, t, WriteHas(s.table[w.inode], w.inode, w.off, w.data));
    } else {
      AddBufLinks(s, id0, w.inode);
      GoLinks(AddBuf(s, id0, w.inode), t, WriteHas(id0, w.inode, w.off, w.data));
    }
  }

  lemma AddBufLinks(s: State, b: nat, inode: nat)
    requires Links(s) && b !in s.bufs
    ensures Links(AddBuf(s, b, inode))
  {
    var n := AddBuf(s, b, inode);
    forall u | u in n.threads
      ensures PcOk(n, u, n.threads[u])
    {
      assert PcOk(s, u, s.threads[u]);
    }
  }

  /** Adding or removing inodes: no drop in progress may see its inode come back. */
  lemma FilesLinks(s: State, n: State)
    requires Links(s) && n == s.(files := n.files, gone := n.gone, cut := n.cut)
    requires forall i, t :: i in n.files && i !in s.files && t in s.threads ==> !Mentions(s.threads[t], i)
    ensures Links(n)
  {
    forall u | u in n.threads
      ensures PcOk(n, u, n.threads[u])
    {
      assert PcOk(s, u, s.threads[u]);
    }
  }

  lemma ResizeLinks(s: State, inode: nat, size: nat)
    requires Links(s) && CanResize(s, inode, size)
    ensures Links(DoResize(s, inode, size))
  {
    hide Links, Clipped, MaxEnd, SumLen, CutSet, CutsOf, Elements;
    var n := DoResize(s, inode, size);
    if size < StatSize(s, inode) {
      var s1 := Invalidated(s, inode, size);
      InvalidatedLinks(s, inode, size);
      FilesLinks(s1, n);
    } else {
      FilesLinks(s, n);
    }
  }

  lemma InvalidatedLinks(s: State, inode: nat, size: nat)
    requires Links(s)
    ensures Links(Invalidated(s, inode, size))
  {
    hide Links, Clipped, MaxEnd, SumLen, CutsOf, Elements;
    if inode in s.table && s.table[inode] in s.bufs {
      var id := s.table[inode];
      var b := s.bufs[id];
      var small := b.(liveSize := Min(b.liveSize, size));
      if b.current.Some? && b.current.value in s.batches {
        CurrentOk(s, id);
        var c := ClipBatch(s.batches[b.current.value], size);
        PutLinks(s, b.current.value, c, id, small);
        HeldLinks(Put(s, b.current.value, c, id, small), Invalidated(s, inode, size));
      } else {
        LiveSizeLinks(s, id, Min(b.liveSize, size));
      }
    }
  }

  lemma SnapLinks(s: State, t: nat)
    requires Links(s) && CanSnap(s, t)
    ensures Links(DoSnap(s, t))
  {
    var id := s.threads[t].buf;
    if s.bufs[id].poisoned {
      EndLinks(s, t);
    } else {
      GoLinks(s, t, Waiting(id, WaitsOf(s, s.bufs[id]), Buffered(s, s.bufs[id])));
    }
  }

  lemma StoreLinks(s: State, t: nat, ok: bool)
    requires Links(s) && CanStore(s, t)
    ensures Links(DoStore(s, t, ok))
  {
    hide Elements;
    ThreadOk(s, t);
    var w := s.threads[t];
    GoLinks(s, t, Stored(w.buf, w.batch, ok && s.bufs[w.buf].inode in s.files));
    FilesLinks(Go(s, t, Stored(w.buf, w.batch, ok && s.bufs[w.buf].inode in s.files)), DoStore(s, t, ok));
  }

  lemma DropDeleteLinks(s: State, t: nat)
    requires Links(s) && CanDropDelete(s, t)
    ensures Links(DoDropDelete(s, t))
  {
    EndLinks(s, t);
    var n, m := End(s, t), DoDropDelete(s, t);
    forall u | u in m.threads
      ensures PcOk(m, u, m.threads[u])
    {
      assert PcOk(n, u, n.threads[u]);
    }
  }

  lemma GoStepLinks(cfg: Config, s: State, e: Event)
    requires Links(s) && Enabled(cfg, s, e)
    requires e.Acquire? || e.Pick? || e.Fsync? || e.Return? || e.Drop? || e.DropSee?
    ensures Links(Next(cfg, s, e))
  {
    hide Links;
    match e
    case Acquire(t, i, off, data) =>
      GoLinks(s, t, Writing(i, off, data));
      HeldLinks(Go(s, t, Writing(i, off, data)), DoAcquire(s, t, i, off, data));
    case Pick(t, i) => TableOk(s, i); GoLinks(s, t, FlushHas(s.table[i]));
    case Fsync(t, i) => TableOk(s, i); GoLinks(s, t, FsyncHas(s.table[i]));
    case Return(t) => EndLinks(s, t);
    case Drop(t, i) => TableOk(s, i); GoLinks(s, t, DropHas(i, s.table[i]));
    case DropSee(t) => ThreadOk(s, t); GoLinks(s, t, DropSaw(s.threads[t].inode, s.threads[t].buf));
  }

  lemma TableOk(s: State, i: nat)
    requires Links(s) && i in s.table
    ensures s.table[i] in s.bufs && s.bufs[s.table[i]].inode == i
  {
  }

  lemma LinksKept(cfg: Config, s: State, e: Event)
    requires Links(s) && Enabled(cfg, s, e)
    ensures Links(Next(cfg, s, e))
  {
    hide Links, DoCreate, DoAcquire, DoGetBuf, DoAppend, DoPick, DoSwap, DoStore, DoSettle, DoClose, DoRelease, DoFsync,
         DoSnap, DoResize, DoUnlink, DoDrop, DoDropSee, DoDropEmpty, DoDropFree, DoDropDelete;
    match e
    case Create(i) => CreateLinks(s, i);
    case GetBuf(t, id0) => GetBufLinks(s, t, id0);
    case Append(t, id0) => AppendLinks(cfg, s, t, id0);
    case Swap(t, id0) => SwapLinks(s, t, id0);
    case Store(t, ok) => StoreLinks(s, t, ok);
    case Settle(t) => SettleLinks(s, t);
    case Close(t) => CloseLinks(s, t);
    case Release(t) => ReleaseLinks(s, t);
    case Snap(t) => SnapLinks(s, t);
    case Resize(i, size) => ResizeLinks(s, i, size);
    case Unlink(i) => UnlinkLinks(s, i);
    case DropEmpty(t) => DropEmptyLinks(s, t);
    case DropFree(t) => DropFreeLinks(s, t);
    case DropDelete(t) => DropDeleteLinks(s, t);
    case TakeStamps(n) => HeldLinks(s, DoTakeStamps(s, n));
    case _ => GoStepLinks(cfg, s, e);
  }

  lemma CreateLinks(s: State, inode: nat)
    requires Links(s) && CanCreate(s, inode)
    ensures Links(DoCreate(s, inode))
  {
    hide Links;
    FilesLinks(s, DoCreate(s, inode));
  }

  lemma UnlinkLinks(s: State, inode: nat)
    requires Links(s) && inode in s.files
    ensures Links(DoUnlink(s, inode))
  {
    hide Links, StampsOf;
    FilesLinks(s, DoUnlink(s, inode));
  }
}
