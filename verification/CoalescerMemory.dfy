/** Memory accounting: the semaphore holds exactly the bytes that are in memory or on their way there. */
module CoalescerMemory {
  import opened Bytes
  import opened Stripes
  import opened Extents
  import opened Sums
  import opened Coalescers

  /** What a batch weighs: its bytes until they are given back. */
  ghost function BatchWeight(c: Batch): int { if c.phase.Released? then 0 else c.bytes }

  /** What a goroutine has acquired and not yet put into a batch. */
  ghost function PcWeight(pc: Pc): int {
    match pc
    case Writing(_, _, data) => |data|
    case WriteHas(_, _, _, data) => |data|
    case _ => 0
  }

  ghost function InMemory(s: State): int { Sum(s.batches, BatchWeight) + Sum(s.threads, PcWeight) }

  ghost predicate Counted(s: State) {
    forall c :: c in s.batches ==> s.batches[c].bytes == SumLen(s.batches[c].extents)
  }

  /** The accounting invariant. */
  ghost predicate Memory(cfg: Config, s: State) {
    Counted(s) && s.held == InMemory(s) && s.held <= cfg.cap
  }

  lemma EndMemory(s: State, t: nat)
    requires t in s.threads
    ensures InMemory(End(s, t)) == InMemory(s) - PcWeight(s.threads[t])
  {
    SumRemove(s.threads, PcWeight, t);
  }

  lemma GoMemory(s: State, t: nat, pc: Pc)
    ensures InMemory(Go(s, t, pc))
            == InMemory(s) - (if t in s.threads then PcWeight(s.threads[t]) else 0) + PcWeight(pc)
  {
    SumSet(s.threads, PcWeight, t, pc);
  }

  lemma PutMemory(s: State, c: nat, batch: Batch, b: nat, buf: Buf)
    ensures InMemory(Put(s, c, batch, b, buf))
            == InMemory(s) - (if c in s.batches then BatchWeight(s.batches[c]) else 0) + BatchWeight(batch)
  {
    SumSet(s.batches, BatchWeight, c, batch);
  }

  lemma AppendMemory(cfg: Config, s: State, t: nat, id0: nat)
    requires Memory(cfg, s) && cfg.width > 0 && CanAppend(s, t, id0)
    requires s.bufs[s.threads[t].buf].current.Some? ==>
      !s.batches[s.bufs[s.threads[t].buf].current.value].phase.Released?
    ensures Memory(cfg, DoAppend(cfg, s, t, id0))
  {
    hide Chunks, Stamped, Sum;
    EndMemory(s, t);
    var w := s.threads[t];
    var b := s.bufs[w.buf];
    if !b.poisoned {
      var c := if b.current.Some? then b.current.value else id0;
      var n := DoAppend(cfg, s, t, id0);
      var was := if b.current.Some? then s.batches[c] else NewBatch(w.buf);
      var news := Stamped(Chunks(cfg.width, w.off, w.data), s.seqGen);
      PutMemory(End(s, t), c, n.batches[c], w.buf, n.bufs[w.buf]);
      StampedLength(cfg.width, w.off, w.data, s.seqGen);
      SumLenConcat(was.extents, news);
      assert n.batches[c].extents == was.extents + news;
    }
  }

  lemma SwapMemory(cfg: Config, s: State, t: nat, id0: nat)
    requires Memory(cfg, s) && CanSwap(s, t, id0)
    requires s.bufs[s.threads[t].buf].current.Some? ==>
      !s.batches[s.bufs[s.threads[t].buf].current.value].phase.Released?
    ensures Memory(cfg, DoSwap(s, t, id0))
  {
    hide Sum;
    EndMemory(s, t);
    var id := s.threads[t].buf;
    var b := s.bufs[id];
    if !(b.flushing.Some? || b.current.None? || s.batches[b.current.value].bytes == 0) {
      var c := b.current.value;
      var flushing := s.batches[c].(phase := Flushing(t));
      var b1, b2 := b.(current := None, flushing := Some(c)), b.(current := Some(id0), flushing := Some(c));
      PutMemory(End(s, t), c, flushing, id, b1);
      var s1 := Put(End(s, t), c, flushing, id, b1);
      PutMemory(s1, id0, NewBatch(id), id, b2);
      GoMemory(Put(s1, id0, NewBatch(id), id, b2), t, Swapped(id, c));
    }
  }

  lemma SettleMemory(cfg: Config, s: State, t: nat)
    requires Memory(cfg, s) && CanSettle(s, t) && !s.batches[s.threads[t].batch].phase.Released?
    ensures Memory(cfg, DoSettle(s, t))
  {
    hide Sum;
    EndMemory(s, t);
    var w := s.threads[t];
    var n := DoSettle(s, t);
    PutMemory(End(s, t), w.batch, n.batches[w.batch], w.buf, n.bufs[w.buf]);
    GoMemory(Put(End(s, t), w.batch, n.batches[w.batch], w.buf, n.bufs[w.buf]), t, Settling(w.batch));
  }

  lemma CloseMemory(cfg: Config, s: State, t: nat)
    requires Memory(cfg, s) && CanClose(s, t)
    ensures Memory(cfg, DoClose(s, t))
  {
    hide Sum;
    EndMemory(s, t);
    var c := s.threads[t].batch;
    var batch := s.batches[c].(closed := true);
    PutMemory(End(s, t), c, batch, batch.owner, s.bufs[batch.owner]);
    GoMemory(PutBatch(End(s, t), c, batch), t, Closing(c));
  }

  lemma ReleaseMemory(cfg: Config, s: State, t: nat)
    requires Memory(cfg, s) && CanRelease(s, t) && s.batches[s.threads[t].batch].phase.Settled?
    ensures Memory(cfg, DoRelease(s, t))
  {
    hide Sum;
    EndMemory(s, t);
    var c := s.threads[t].batch;
    var batch := s.batches[c].(phase := Released);
    PutMemory(End(s, t), c, batch, batch.owner, s.bufs[batch.owner]);
  }

  lemma DropEmptyMemory(cfg: Config, s: State, t: nat)
    requires Memory(cfg, s) && CanDropEmpty(s, t)
    requires s.bufs[s.threads[t].buf].current.Some? ==>
      !s.batches[s.bufs[s.threads[t].buf].current.value].phase.Released?
    ensures Memory(cfg, DoDropEmpty(s, t))
  {
    hide Sum, StampsOf, Elements;
    var w := s.threads[t];
    var b := s.bufs[w.buf];
    var empty := b.(current := None, liveSize := 0);
    if b.current.None? {
      GoMemory(s.(bufs := s.bufs[w.buf := empty]), t, DropFreed(w.inode, None));
    } else {
      EndMemory(s, t);
      var c := b.current.value;
      var batch := s.batches[c].(phase := Settled(t), closed := true);
      PutMemory(End(s, t), c, batch, w.buf, empty);
      GoMemory(Put(End(s, t), c, batch, w.buf, empty), t, DropFreed(w.inode, Some(c)));
    }
  }

  lemma DropFreeMemory(cfg: Config, s: State, t: nat)
    requires Memory(cfg, s) && CanDropFree(s, t)
    requires s.threads[t].freed.Some? ==> s.batches[s.threads[t].freed.value].phase.Settled?
    ensures Memory(cfg, DoDropFree(s, t))
  {
    hide Sum;
    var w := s.threads[t];
    if w.freed.None? {
      GoMemory(s, t, DropLast(w.inode));
    } else {
      EndMemory(s, t);
      var c := w.freed.value;
      var batch := s.batches[c].(phase := Released);
      PutMemory(End(s, t), c, batch, batch.owner, s.bufs[batch.owner]);
      GoMemory(PutBatch(End(s, t), c, batch), t, DropLast(w.inode));
    }
  }

  lemma {:induction false} ClippedShorter(es: seq<Extent>, size: nat)
    ensures SumLen(Clipped(es, size)) <= SumLen(es)
  {
    if es != [] {
      var n := |es| - 1;
      ClippedShorter(es[..n], size);
      var last := if es[n].off >= size then [] else [es[n].Below(size)];
      SumLenConcat(Clipped(es[..n], size), last);
      if es[n].off < size {
        assert last[..0] == [];
        assert SumLen(last) == |es[n].Below(size).data|;
      }
    }
  }

  lemma InvalidatedMemory(cfg: Config, s: State, inode: nat, size: nat)
    requires Memory(cfg, s)
    requires inode in s.table && s.table[inode] in s.bufs && s.bufs[s.table[inode]].current.Some?
             && s.bufs[s.table[inode]].current.value in s.batches ==>
               !s.batches[s.bufs[s.table[inode]].current.value].phase.Released?
    ensures Memory(cfg, Invalidated(s, inode, size))
  {
    hide Sum, Clipped, MaxEnd, CutsOf, Elements;
    if inode in s.table && s.table[inode] in s.bufs {
      var id := s.table[inode];
      var b := s.bufs[id];
      if b.current.Some? && b.current.value in s.batches {
        var c := s.batches[b.current.value];
        ClippedShorter(c.extents, size);
        PutMemory(s, b.current.value, ClipBatch(c, size), id, b.(liveSize := Min(b.liveSize, size)));
      }
    }
  }

  /** Steps that touch no batch. */
  lemma GoStepMemory(cfg: Config, s: State, n: State, t: nat)
    requires Memory(cfg, s) && n.batches == s.batches && n.held == s.held && t in s.threads
    requires if t in n.threads
             then n.threads == Go(s, t, n.threads[t]).threads && PcWeight(n.threads[t]) == PcWeight(s.threads[t])
             else n.threads == End(s, t).threads && PcWeight(s.threads[t]) == 0
    ensures Memory(cfg, n)
  {
    hide Sum;
    EndMemory(s, t);
    if t in n.threads {
      GoMemory(s, t, n.threads[t]);
    }
  }

  lemma StartMemory(cfg: Config, s: State, n: State, t: nat)
    requires Memory(cfg, s) && n.batches == s.batches && t !in s.threads && t in n.threads
    requires n.threads == Go(s, t, n.threads[t]).threads && n.held == s.held + PcWeight(n.threads[t]) <= cfg.cap
    ensures Memory(cfg, n)
  {
    hide Sum;
    GoMemory(s, t, n.threads[t]);
  }

  lemma StepMemory(cfg: Config, s: State, e: Event)
    requires Memory(cfg, s) && Enabled(cfg, s, e)
    requires e.Create? || e.Acquire? || e.GetBuf? || e.Pick? || e.Store? || e.Fsync? || e.Snap? || e.Return?
             || e.Unlink?
             || e.Drop? || e.DropSee? || e.DropDelete?
    ensures Memory(cfg, Next(cfg, s, e))
  {
    hide Memory, Elements, StampsOf, WaitsOf, Buffered;
    var n := Next(cfg, s, e);
    match e
    case Create(_) => SameMemory(cfg, s, n);
    case Unlink(_) => SameMemory(cfg, s, n);
    case Acquire(t, i, off, data) => StartMemory(cfg, s, n, t);
    case Pick(t, _) => MemoryBound(cfg, s); StartMemory(cfg, s, n, t);
    case Fsync(t, _) => MemoryBound(cfg, s); StartMemory(cfg, s, n, t);
    case Drop(t, _) => MemoryBound(cfg, s); StartMemory(cfg, s, n, t);
    case _ => MidStepMemory(cfg, s, e);
  }

  lemma MidStepMemory(cfg: Config, s: State, e: Event)
    requires Memory(cfg, s) && Enabled(cfg, s, e)
    requires e.GetBuf? || e.Store? || e.Snap? || e.Return? || e.DropSee? || e.DropDelete?
    ensures Memory(cfg, Next(cfg, s, e))
  {
    hide Memory, Elements, StampsOf, WaitsOf, Buffered;
    GoStepMemory(cfg, s, Next(cfg, s, e), e.t);
  }

  lemma MemoryBound(cfg: Config, s: State)
    requires Memory(cfg, s)
    ensures s.held <= cfg.cap
  {
  }

  lemma SameMemory(cfg: Config, s: State, n: State)
    requires Memory(cfg, s) && n.batches == s.batches && n.threads == s.threads && n.held == s.held
    ensures Memory(cfg, n)
  {
  }
}
