/** What the buffer holds is apart from what was stored, cut or discarded before, so fsync answers for everything that
    happened since its snapshot and for nothing less. */
module CoalescerSince {
  import opened Bytes
  import opened Stripes
  import opened Extents
  import opened Coalescers
  import opened CoalescerLinks
  import opened CoalescerMemory
  import opened CoalescerDurable
  import opened CoalescerRefinement
  import opened CoalescerRuns

  // ----- invariants

  /** x is in a batch that has not settled. */
  ghost predicate LiveExtent(s: State, c: nat, x: Extent) {
    c in s.batches && !Done(s.batches[c].phase) && x in s.batches[c].extents
  }

  /** The batch has reached the disk of this inode and not settled. */
  ghost predicate JustStored(s: State, c: nat, inode: nat) {
    c in s.batches && s.batches[c].owner in s.bufs && s.bufs[s.batches[c].owner].inode == inode
    && s.batches[c].phase.Flushing? && s.batches[c].phase.worker in s.threads
    && s.threads[s.batches[c].phase.worker] == Stored(s.batches[c].owner, c, true)
  }

  /** A stamp is in memory and on disk only while its flush settles. */
  ghost predicate StoredApart(s: State) {
    forall c, x, i, e :: LiveExtent(s, c, x) && i in s.files && e in s.files[i].frags && e.stamp == x.stamp ==>
      JustStored(s, c, i)
  }

  /** What was cut was longer than what is left of it in memory. */
  ghost predicate CutLonger(s: State) {
    forall c, x, k :: LiveExtent(s, c, x) && k in s.cut && k.was.stamp == x.stamp ==> |x.data| < |k.was.data|
  }

  /** What is gone is in memory only while its file is gone too. */
  ghost predicate GoneRemoved(s: State) {
    forall c, x :: LiveExtent(s, c, x) && x.stamp in s.gone ==>
      s.batches[c].owner in s.bufs && s.bufs[s.batches[c].owner].inode !in s.files
  }

  ghost predicate Recorded(s: State) {
    (forall k :: k in s.cut ==> k.was.stamp <= s.seqGen) && (forall g :: g in s.gone ==> g <= s.seqGen)
  }

  ghost predicate OneStored(s: State) {
    forall i :: i in s.files ==> OnePerStamp(s.files[i].frags)
  }

  /** A file that exists has one buffer, the one in the table. */
  ghost predicate OneBuffer(s: State) {
    forall b :: b in s.bufs && s.bufs[b].inode in s.files ==>
      s.bufs[b].inode in s.table && s.table[s.bufs[b].inode] == b
  }

  ghost predicate StampsApart(s: State) {
    StoredApart(s) && CutLonger(s) && GoneRemoved(s) && Recorded(s) && OneStored(s)
  }

  // ----- steps that only move batches along

  ghost predicate Quiet(s: State, n: State) {
    && (forall c, x :: LiveExtent(n, c, x) ==> LiveExtent(s, c, x) && n.batches[c].owner == s.batches[c].owner)
    && (forall b :: b in s.bufs ==> b in n.bufs && n.bufs[b].inode == s.bufs[b].inode)
    && (forall i :: i in n.files ==> i in s.files && n.files[i].frags == s.files[i].frags)
    && n.cut == s.cut && n.gone == s.gone && s.seqGen <= n.seqGen
    && (forall c, i :: JustStored(s, c, i) && c in n.batches && !Done(n.batches[c].phase) ==> JustStored(n, c, i))
  }

  lemma QuietApart(s: State, n: State)
    requires StampsApart(s) && Quiet(s, n)
    ensures StampsApart(n)
  {
    hide JustStored, OnePerStamp;
  }

  lemma EndQuiet(s: State, t: nat)
    requires t !in s.threads || !s.threads[t].Stored?
    ensures Quiet(s, End(s, t))
  {
  }

  lemma GoQuiet(s: State, t: nat, pc: Pc)
    requires t !in s.threads || !s.threads[t].Stored?
    ensures Quiet(s, Go(s, t, pc))
  {
  }

  lemma GetBufQuiet(s: State, t: nat, id0: nat)
    requires Links(s) && CanGetBuf(s, t, id0)
    ensures Quiet(s, DoGetBuf(s, t, id0))
  {
    hide Links;
  }

  lemma PutQuiet(s: State, c: nat, batch: Batch, b: nat, buf: Buf)
    requires b in s.bufs && buf.inode == s.bufs[b].inode && batch.owner == b && !Done(batch.phase)
    requires c in s.batches ==>
      s.batches[c].phase.Current? && batch.extents == s.batches[c].extents && s.batches[c].owner == b
    requires c !in s.batches ==> batch.extents == []
    ensures Quiet(s, Put(s, c, batch, b, buf))
  {
  }

  lemma QuietTransitive(s: State, m: State, n: State)
    requires Quiet(s, m) && Quiet(m, n)
    requires forall c :: c in s.batches && c in n.batches ==>
      c in m.batches && (Done(m.batches[c].phase) ==> Done(n.batches[c].phase))
    ensures Quiet(s, n)
  {
    hide LiveExtent;
    forall c, i | JustStored(s, c, i) && c in n.batches && !Done(n.batches[c].phase)
      ensures JustStored(n, c, i)
    {
      assert JustStored(m, c, i);
    }
  }

  lemma SwapQuiet(s: State, t: nat, id0: nat)
    requires Links(s) && CanSwap(s, t, id0)
    ensures Quiet(s, DoSwap(s, t, id0))
  {
    EndQuiet(s, t);
    var id := s.threads[t].buf;
    var b := s.bufs[id];
    if !(b.flushing.Some? || b.current.None? || s.batches[b.current.value].bytes == 0) {
      var c := b.current.value;
      CurrentOk(s, id);
      hide Links, Quiet;
      var s0 := End(s, t);
      var flushing := s.batches[c].(phase := Flushing(t));
      var b1, b2 := b.(current := None, flushing := Some(c)), b.(current := Some(id0), flushing := Some(c));
      PutQuiet(s0, c, flushing, id, b1);
      var s1 := Put(s0, c, flushing, id, b1);
      QuietTransitive(s, s0, s1);
      PutQuiet(s1, id0, NewBatch(id), id, b2);
      var s2 := Put(s1, id0, NewBatch(id), id, b2);
      QuietTransitive(s, s1, s2);
      GoQuiet(s2, t, Swapped(id, c));
      QuietTransitive(s, s2, Go(s2, t, Swapped(id, c)));
    }
  }

  lemma SettleQuiet(s: State, t: nat)
    requires CanSettle(s, t)
    ensures Quiet(s, DoSettle(s, t))
  {
  }

  /** Closing and releasing a batch that is done. */
  lemma DoneQuiet(s: State, t: nat, c: nat, batch: Batch, n: State)
    requires t in s.threads && !s.threads[t].Stored? && OwnedBatch(s, c) && Done(s.batches[c].phase)
    requires Done(batch.phase) && batch.owner == s.batches[c].owner
    requires n == s.(batches := s.batches[c := batch], bufs := s.bufs[batch.owner := s.bufs[batch.owner]],
        threads := n.threads, held := n.held)
    requires forall u :: u != t && u in s.threads ==> u in n.threads && n.threads[u] == s.threads[u]
    ensures Quiet(s, n)
  {
  }

  lemma CloseQuiet(s: State, t: nat)
    requires Links(s) && CanClose(s, t)
    ensures Quiet(s, DoClose(s, t))
  {
    ThreadOk(s, t);
    hide Links, Quiet;
    var c := s.threads[t].batch;
    DoneQuiet(s, t, c, s.batches[c].(closed := true), DoClose(s, t));
  }

  lemma ReleaseQuiet(s: State, t: nat)
    requires Links(s) && CanRelease(s, t)
    ensures Quiet(s, DoRelease(s, t))
  {
    ThreadOk(s, t);
    hide Links, Quiet;
    var c := s.threads[t].batch;
    DoneQuiet(s, t, c, s.batches[c].(phase := Released), DoRelease(s, t));
  }

  lemma DropFreeQuiet(s: State, t: nat)
    requires Links(s) && CanDropFree(s, t)
    ensures Quiet(s, DoDropFree(s, t))
  {
    ThreadOk(s, t);
    hide Links, Quiet;
    if s.threads[t].freed.None? {
      GoQuiet(s, t, DropLast(s.threads[t].inode));
    } else {
      var c := s.threads[t].freed.value;
      DoneQuiet(s, t, c, s.batches[c].(phase := Released), DoDropFree(s, t));
    }
  }

  /** Steps that touch no batch, file or record. */
  ghost predicate OnlyThreads(s: State, n: State) {
    n == s.(threads := n.threads, held := n.held, table := n.table, seqGen := n.seqGen) && s.seqGen <= n.seqGen
  }

  lemma ThreadsQuiet(s: State, n: State)
    requires OnlyThreads(s, n)
    requires forall t :: t in s.threads && s.threads[t].Stored? ==> t in n.threads && n.threads[t] == s.threads[t]
    ensures Quiet(s, n)
  {
  }

  lemma ThreadStepQuiet(cfg: Config, s: State, e: Event)
    requires Enabled(cfg, s, e)
    requires e.Acquire? || e.Pick? || e.Fsync? || e.Snap? || e.Return? || e.Drop? || e.DropSee? || e.DropDelete?
             || e.TakeStamps?
    ensures Quiet(s, Next(cfg, s, e))
  {
    hide Quiet, WaitsOf, Buffered;
    ThreadsQuiet(s, Next(cfg, s, e));
  }

  // ----- the steps that do more

  lemma CreateApart(s: State, i: nat)
    requires StampsApart(s) && CanCreate(s, i)
    ensures StampsApart(DoCreate(s, i))
  {
    var n := DoCreate(s, i);
    forall c, x | LiveExtent(n, c, x) && x.stamp in n.gone
      ensures n.batches[c].owner in n.bufs && n.bufs[n.batches[c].owner].inode !in n.files
    {
      assert LiveExtent(s, c, x);
    }
    forall c, x, j, e | LiveExtent(n, c, x) && j in n.files && e in n.files[j].frags && e.stamp == x.stamp
      ensures JustStored(n, c, j)
    {
      assert LiveExtent(s, c, x) && JustStored(s, c, j);
    }
    assert forall c, x :: LiveExtent(n, c, x) ==> LiveExtent(s, c, x);
  }

  lemma UnlinkApart(s: State, i: nat)
    requires Links(s) && Stamps(s) && StampsApart(s) && i in s.files
    ensures StampsApart(DoUnlink(s, i))
  {
    var n := DoUnlink(s, i);
    assert forall c, x :: LiveExtent(n, c, x) ==> LiveExtent(s, c, x);
    forall c, x, j, e | LiveExtent(n, c, x) && j in n.files && e in n.files[j].frags && e.stamp == x.stamp
      ensures JustStored(n, c, j)
    {
      assert JustStored(s, c, j);
    }
    forall c, x | LiveExtent(n, c, x) && x.stamp in n.gone
      ensures n.batches[c].owner in n.bufs && n.bufs[n.batches[c].owner].inode !in n.files
    {
      if x.stamp !in s.gone {
        var e :| e in s.files[i].frags && e.stamp == x.stamp;
        assert JustStored(s, c, i);
      }
    }
  }

  /** Stamps above the counter are nowhere else. */
  lemma AppendApart(cfg: Config, s: State, t: nat, id0: nat)
    requires Links(s) && Stamps(s) && StampsApart(s) && cfg.width > 0 && CanAppend(s, t, id0)
    ensures StampsApart(DoAppend(cfg, s, t, id0))
  {
    hide Chunks, Links;
    var n := DoAppend(cfg, s, t, id0);
    if s.bufs[s.threads[t].buf].poisoned {
      EndQuiet(s, t);
      QuietApart(s, End(s, t));
      assert StampsApart(n) by { SameApart(End(s, t), n); }
    } else {
      var c := n.bufs[s.threads[t].buf].current.value;
      ThreadOk(s, t);
      if s.bufs[s.threads[t].buf].current.Some? {
        CurrentOk(s, s.threads[t].buf);
      }
      forall d, x | LiveExtent(n, d, x)
        ensures LiveExtent(s, d, x) || (d == c && s.seqGen < x.stamp)
      {
      }
      GrownApart(s, n, t, c);
    }
  }

  lemma SameApart(s: State, n: State)
    requires StampsApart(s) && n == s.(held := n.held)
    ensures StampsApart(n)
  {
    assert forall c, x :: LiveExtent(n, c, x) ==> LiveExtent(s, c, x);
    assert forall c, i :: JustStored(s, c, i) ==> JustStored(n, c, i);
  }

  lemma GrownApart(s: State, n: State, t: nat, c: nat)
    requires Stamps(s) && StampsApart(s) && s.seqGen <= n.seqGen && n.files == s.files && n.cut == s.cut
    requires n.gone == s.gone
    requires n.threads == s.threads - {t} && t in s.threads && !s.threads[t].Stored?
    requires forall b :: b in s.bufs ==> b in n.bufs && n.bufs[b].inode == s.bufs[b].inode
    requires forall d :: d in s.batches ==>
      d in n.batches && n.batches[d].phase == s.batches[d].phase && n.batches[d].owner == s.batches[d].owner
    requires forall d, x :: LiveExtent(n, d, x) ==> LiveExtent(s, d, x) || (d == c && s.seqGen < x.stamp)
    ensures StampsApart(n)
  {
    FilesBounded(s);
    assert forall d, i :: JustStored(s, d, i) ==> JustStored(n, d, i);
    hide JustStored, Stamps, OnePerStamp;
  }

  lemma StoreApart(s: State, t: nat, ok: bool)
    requires Links(s) && Stamps(s) && StampsApart(s) && CanStore(s, t)
    ensures StampsApart(DoStore(s, t, ok))
  {
    var w := s.threads[t];
    var inode := s.bufs[w.buf].inode;
    ThreadOk(s, t);
    if ok && inode in s.files {
      StoredIsApart(s, t);
      StoredIsOne(s, t);
    } else {
      GoQuiet(s, t, Stored(w.buf, w.batch, false));
      QuietApart(s, Go(s, t, Stored(w.buf, w.batch, false)));
    }
  }

  /** Stamps are unique across batches. */
  lemma SameSlot(s: State, c: nat, x: Extent, d: nat, y: Extent)
    requires UniqueStamps(s) && c in s.batches && x in s.batches[c].extents && d in s.batches
    requires y in s.batches[d].extents && x.stamp == y.stamp
    ensures c == d && x == y
  {
    var i :| 0 <= i < |s.batches[c].extents| && s.batches[c].extents[i] == x;
    var j :| 0 <= j < |s.batches[d].extents| && s.batches[d].extents[j] == y;
    assert Slot(s, c, i) && Slot(s, d, j);
  }

  lemma StoredIsApart(s: State, t: nat)
    requires Stamps(s) && StampsApart(s) && CanStore(s, t) && s.bufs[s.threads[t].buf].inode in s.files
    requires PcOk(s, t, s.threads[t])
    ensures var n := DoStore(s, t, true); StoredApart(n) && CutLonger(n) && GoneRemoved(n) && Recorded(n)
  {
    var n, w := DoStore(s, t, true), s.threads[t];
    var inode := s.bufs[w.buf].inode;
    assert forall c, x :: LiveExtent(n, c, x) ==> LiveExtent(s, c, x);
    assert forall c, i :: JustStored(s, c, i) ==> JustStored(n, c, i);
    assert JustStored(n, w.batch, inode);
    forall c, x, i, e | LiveExtent(n, c, x) && i in n.files && e in n.files[i].frags && e.stamp == x.stamp
      ensures JustStored(n, c, i)
    {
      if i in s.files && e in s.files[i].frags {
        assert JustStored(s, c, i);
      } else {
        SameSlot(s, c, x, w.batch, e);
      }
    }
  }

  lemma StoredIsOne(s: State, t: nat)
    requires Stamps(s) && StampsApart(s) && CanStore(s, t) && s.bufs[s.threads[t].buf].inode in s.files
    requires PcOk(s, t, s.threads[t])
    ensures OneStored(DoStore(s, t, true))
    ensures OnePerStamp(s.files[s.bufs[s.threads[t].buf].inode].frags + Elements(s.batches[s.threads[t].batch].extents))
  {
    var w := s.threads[t];
    var c := s.batches[w.batch];
    var inode := s.bufs[w.buf].inode;
    var frags := s.files[inode].frags;
    assert OnePerStamp(frags);
    forall e, g | e in frags + Elements(c.extents) && g in frags + Elements(c.extents) && e.stamp == g.stamp
      ensures e == g
    {
      if e in Elements(c.extents) && g in Elements(c.extents) {
        SameSlot(s, w.batch, e, w.batch, g);
      } else if e in Elements(c.extents) || g in Elements(c.extents) {
        NotYetStored(s, t, if e in Elements(c.extents) then e else g, if e in Elements(c.extents) then g else e);
      }
    }
  }

  /** Before the store no stamp of the batch is on disk. */
  lemma NotYetStored(s: State, t: nat, x: Extent, e: Extent)
    requires StampsApart(s) && CanStore(s, t) && PcOk(s, t, s.threads[t]) && s.bufs[s.threads[t].buf].inode in s.files
    requires x in s.batches[s.threads[t].batch].extents && e in s.files[s.bufs[s.threads[t].buf].inode].frags
    ensures x.stamp != e.stamp
  {
    assert LiveExtent(s, s.threads[t].batch, x);
    assert !JustStored(s, s.threads[t].batch, s.bufs[s.threads[t].buf].inode);
  }

  lemma DropEmptyApart(s: State, t: nat)
    requires Links(s) && Stamps(s) && StampsApart(s) && CanDropEmpty(s, t)
    ensures StampsApart(DoDropEmpty(s, t))
  {
    DropEmptyLive(s, t);
    var n, w := DoDropEmpty(s, t), s.threads[t];
    if s.bufs[w.buf].current.Some? {
      var d := s.bufs[w.buf].current.value;
      CurrentOk(s, w.buf);
      ExtentsBounded(s, d);
      hide Links, LiveExtent, JustStored;
      forall c, x | LiveExtent(n, c, x) && x.stamp in n.gone
        ensures x.stamp in s.gone
      {
        if x.stamp !in s.gone {
          var y :| y in s.batches[d].extents && y.stamp == x.stamp;
          LiveInBatch(s, n, c, x);
          SameSlot(s, c, x, d, y);
        }
      }
    }
    hide StampsApart;
    DroppedApart(s, n);
  }

  lemma LiveInBatch(s: State, n: State, c: nat, x: Extent)
    requires LiveExtent(n, c, x) && LiveExtent(s, c, x)
    ensures c in s.batches && x in s.batches[c].extents && c in n.batches && !Done(n.batches[c].phase)
  {
  }

  lemma DropEmptyLive(s: State, t: nat)
    requires Links(s) && CanDropEmpty(s, t)
    ensures var n := DoDropEmpty(s, t);
            && (forall c, x :: LiveExtent(n, c, x) ==> LiveExtent(s, c, x))
            && (forall c :: c in s.batches ==> c in n.batches && n.batches[c].owner == s.batches[c].owner)
            && (forall b :: b in s.bufs ==> b in n.bufs && n.bufs[b].inode == s.bufs[b].inode)
            && (forall c, i :: JustStored(s, c, i) && !Done(n.batches[c].phase) ==> JustStored(n, c, i))
  {
    hide Links, Elements, StampsOf;
  }

  lemma DroppedApart(s: State, n: State)
    requires StampsApart(s) && n.files == s.files && n.cut == s.cut && s.seqGen == n.seqGen
    requires forall c, x :: LiveExtent(n, c, x) ==> LiveExtent(s, c, x)
    requires forall c, x :: LiveExtent(n, c, x) && x.stamp in n.gone ==> x.stamp in s.gone
    requires forall c :: c in s.batches ==> c in n.batches && n.batches[c].owner == s.batches[c].owner
    requires forall b :: b in s.bufs ==> b in n.bufs && n.bufs[b].inode == s.bufs[b].inode
    requires forall c, i :: JustStored(s, c, i) && !Done(n.batches[c].phase) ==> JustStored(n, c, i)
    requires forall g :: g in n.gone ==> g <= s.seqGen
    ensures StampsApart(n)
  {
    assert forall c, x :: LiveExtent(n, c, x) ==> !Done(n.batches[c].phase);
    hide JustStored, OnePerStamp, LiveExtent;
    assert StoredApart(n);
  }

  // ----- a size change

  lemma ResizeApart(s: State, i: nat, size: nat)
    requires Links(s) && Stamps(s) && StampsApart(s) && CanResize(s, i, size)
    ensures StampsApart(DoResize(s, i, size))
  {
    var n := DoResize(s, i, size);
    if size < StatSize(s, i) {
      ResizeLive(s, i, size);
      ResizedApart(s, i, size);
      ResizedCuts(s, i, size);
      CutSetOnePer(s.files[i].frags, size);
    } else {
      assert forall c, x :: LiveExtent(n, c, x) ==> LiveExtent(s, c, x);
      assert forall c, j :: JustStored(s, c, j) ==> JustStored(n, c, j);
    }
  }

  lemma ResizeLive(s: State, i: nat, size: nat)
    requires CanResize(s, i, size) && size < StatSize(s, i)
    ensures var n := DoResize(s, i, size);
            && (forall c, x :: LiveExtent(n, c, x) ==>
                  exists y :: LiveExtent(s, c, y) && x.stamp == y.stamp && |x.data| <= |y.data|)
            && (forall c :: c in s.batches ==> c in n.batches && n.batches[c].phase == s.batches[c].phase)
            && (forall c :: c in s.batches ==> n.batches[c].owner == s.batches[c].owner)
            && (forall b :: b in s.bufs ==> b in n.bufs && n.bufs[b].inode == s.bufs[b].inode)
            && n.threads == s.threads && n.gone == s.gone && n.seqGen == s.seqGen
            && (forall c, j :: JustStored(s, c, j) ==> JustStored(n, c, j))
  {
    hide Clipped, MaxEnd, SumLen, CutSet, CutsOf;
    var n := DoResize(s, i, size);
    forall c, x | LiveExtent(n, c, x)
      ensures exists y :: LiveExtent(s, c, y) && x.stamp == y.stamp && |x.data| <= |y.data|
    {
      if n.batches[c].extents != s.batches[c].extents {
        var k :| 0 <= k < |n.batches[c].extents| && n.batches[c].extents[k] == x;
        var y := ClippedFrom(s.batches[c].extents, size, k);
        assert LiveExtent(s, c, s.batches[c].extents[y]);
      } else {
        assert LiveExtent(s, c, x);
      }
    }
  }

  lemma ResizedApart(s: State, i: nat, size: nat)
    requires StampsApart(s) && CanResize(s, i, size) && size < StatSize(s, i)
    ensures StoredApart(DoResize(s, i, size)) && GoneRemoved(DoResize(s, i, size))
  {
    ResizeLive(s, i, size);
    var n := DoResize(s, i, size);
    hide Clipped, MaxEnd, SumLen, JustStored, CutsOf, LiveExtent, Invalidated;
    InvalidatedFiles(s, i, size);
    forall c, x, j, e | LiveExtent(n, c, x) && j in n.files && e in n.files[j].frags && e.stamp == x.stamp
      ensures JustStored(n, c, j)
    {
      var y :| LiveExtent(s, c, y) && x.stamp == y.stamp && |x.data| <= |y.data|;
      if j == i {
        var g := CutFrom(s.files[i].frags, size, e);
      }
      assert JustStored(s, c, j);
    }
    forall c, x | LiveExtent(n, c, x) && x.stamp in n.gone
      ensures n.batches[c].owner in n.bufs && n.bufs[n.batches[c].owner].inode !in n.files
    {
      var y :| LiveExtent(s, c, y) && x.stamp == y.stamp && |x.data| <= |y.data|;
      LiveBatch(s, c, y);
    }
  }

  lemma LiveBatch(s: State, c: nat, x: Extent)
    requires LiveExtent(s, c, x)
    ensures c in s.batches
  {
  }

  lemma ResizedCuts(s: State, i: nat, size: nat)
    requires Links(s) && Stamps(s) && StampsApart(s) && CanResize(s, i, size) && size < StatSize(s, i)
    ensures CutLonger(DoResize(s, i, size)) && Recorded(DoResize(s, i, size))
  {
    ResizeLive(s, i, size);
    var n := DoResize(s, i, size);
    FilesBounded(s);
    forall k | k in n.cut
      ensures k in s.cut || CutFromFile(s, i, size, k) || CutFromBatch(s, i, size, k)
    {
    }
    forall k | k in n.cut
      ensures k.was.stamp <= n.seqGen
    {
      if CutFromBatch(s, i, size, k) {
        ExtentsBounded(s, s.bufs[s.table[i]].current.value);
      }
    }
    forall c, x, k | LiveExtent(n, c, x) && k in n.cut && k.was.stamp == x.stamp
      ensures |x.data| < |k.was.data|
    {
      var y :| LiveExtent(s, c, y) && x.stamp == y.stamp && |x.data| <= |y.data|;
      if k in s.cut {
      } else if CutFromFile(s, i, size, k) {
        FileStampNotLive(s, i, c, y, k.was);
      } else {
        CutInBatch(s, i, size, c, x, k);
      }
    }
  }

  ghost predicate CutFromFile(s: State, i: nat, size: nat, k: Cut) {
    i in s.files && k.was in s.files[i].frags && k.size == size && k.was.End() > size
  }

  ghost predicate CutFromBatch(s: State, i: nat, size: nat, k: Cut) {
    i in s.table && s.table[i] in s.bufs && s.bufs[s.table[i]].current.Some?
        && s.bufs[s.table[i]].current.value in s.batches
    && k.was in s.batches[s.bufs[s.table[i]].current.value].extents && k.size == size && k.was.End() > size
  }

  /** While the size may change, no stored stamp of the inode is in memory. */
  lemma FileStampNotLive(s: State, i: nat, c: nat, y: Extent, e: Extent)
    requires Links(s) && StampsApart(s) && NoFlush(s, i) && LiveExtent(s, c, y) && i in s.files && e in s.files[i].frags
    ensures e.stamp != y.stamp
  {
    assert !JustStored(s, c, i) by {
      assert c in s.batches && s.batches[c].owner in s.bufs
          && (s.batches[c].phase.Flushing? ==> s.bufs[s.batches[c].owner].flushing == Some(c));
    }
  }

  lemma CutInBatch(s: State, i: nat, size: nat, c: nat, x: Extent, k: Cut)
    requires Links(s) && Stamps(s) && CanResize(s, i, size) && size < StatSize(s, i) && CutFromBatch(s, i, size, k)
    requires LiveExtent(DoResize(s, i, size), c, x) && x.stamp == k.was.stamp
    ensures |x.data| < |k.was.data|
  {
    hide MaxEnd, SumLen, CutSet, CutsOf, Clipped;
    var n, d := DoResize(s, i, size), s.bufs[s.table[i]].current.value;
    var es := s.batches[d].extents;
    if c == d {
      var m :| 0 <= m < |n.batches[c].extents| && n.batches[c].extents[m] == x;
      var j := ClippedFrom(es, size, m);
      SameSlot(s, d, es[j], d, k.was);
    } else {
      assert x in s.batches[c].extents;
      SameSlot(s, c, x, d, k.was);
    }
  }

  // ----- every step, every run

  lemma ApartKept(cfg: Config, s: State, e: Event)
    requires Links(s) && Stamps(s) && StampsApart(s) && Enabled(cfg, s, e)
    ensures StampsApart(Next(cfg, s, e))
  {
    hide Links, Stamps, StampsApart, Quiet, DoCreate, DoAcquire, DoGetBuf, DoAppend, DoPick, DoSwap, DoStore, DoSettle,
         DoClose, DoRelease, DoFsync, DoSnap, DoResize, DoUnlink, DoDrop, DoDropSee, DoDropEmpty, DoDropFree,
         DoDropDelete;
    match e
    case Create(i) => CreateApart(s, i);
    case Append(t, id0) => AppendApart(cfg, s, t, id0);
    case Store(t, ok) => StoreApart(s, t, ok);
    case Resize(i, size) => ResizeApart(s, i, size);
    case Unlink(i) => UnlinkApart(s, i);
    case DropEmpty(t) => DropEmptyApart(s, t);
    case GetBuf(t, id0) => GetBufQuiet(s, t, id0); QuietApart(s, Next(cfg, s, e));
    case Swap(t, id0) => SwapQuiet(s, t, id0); QuietApart(s, Next(cfg, s, e));
    case Settle(t) => SettleQuiet(s, t); QuietApart(s, Next(cfg, s, e));
    case Close(t) => CloseQuiet(s, t); QuietApart(s, Next(cfg, s, e));
    case Release(t) => ReleaseQuiet(s, t); QuietApart(s, Next(cfg, s, e));
    case DropFree(t) => DropFreeQuiet(s, t); QuietApart(s, Next(cfg, s, e));
    case _ => ThreadStepQuiet(cfg, s, e); QuietApart(s, Next(cfg, s, e));
  }

  lemma {:induction false} ApartOnEveryRun(cfg: Config, states: seq<State>, events: seq<Event>, k: nat)
    requires Run(cfg, states, events) && k < |states|
    ensures Inv(cfg, states[k]) && StampsApart(states[k])
    decreases k
  {
    EveryRun(cfg, states, events, k);
    if k == 0 {
      assert StampsApart(EMPTY_STATE);
    } else {
      ApartOnEveryRun(cfg, states, events, k - 1);
      hide Links, Memory, Stamps, Durable, StampsApart, Enabled, Next;
      ApartKept(cfg, states[k - 1], events[k - 1]);
    }
  }

  // ----- fsync, from its snapshot on

  /** The event is a step of goroutine t. */
  predicate By(e: Event, t: nat) { !e.Create? && !e.Resize? && !e.Unlink? && !e.TakeStamps? && e.t == t }

  /** Steps that put a batch. */
  predicate Puts(e: Event) { e.Append? || e.Swap? || e.Settle? || e.Close? || e.Release? || e.DropEmpty?
      || e.DropFree? }

  /** What such a step of goroutine t leaves as it was. */
  ghost predicate PutEffect(s: State, n: State, t: nat) {
    && (forall u :: u != t && u in s.threads ==> u in n.threads && n.threads[u] == s.threads[u])
    && n.bufs.Keys == s.bufs.Keys
    && (forall b :: b in s.bufs ==> n.bufs[b].inode == s.bufs[b].inode && (s.bufs[b].poisoned ==> n.bufs[b].poisoned))
    && n.table == s.table && n.files == s.files
  }

  lemma AppendEffect(cfg: Config, s: State, t: nat, id0: nat)
    requires cfg.width > 0 && CanAppend(s, t, id0)
    ensures PutEffect(s, DoAppend(cfg, s, t, id0), t)
  {
    hide Chunks, Stamped;
  }

  lemma SwapEffect(s: State, t: nat, id0: nat)
    requires CanSwap(s, t, id0)
    ensures PutEffect(s, DoSwap(s, t, id0), t)
  {
  }

  lemma SettleEffect(s: State, t: nat)
    requires CanSettle(s, t)
    ensures PutEffect(s, DoSettle(s, t), t)
  {
  }

  lemma CloseEffect(s: State, t: nat)
    requires CanClose(s, t)
    ensures PutEffect(s, DoClose(s, t), t)
  {
  }

  lemma ReleaseEffect(s: State, t: nat)
    requires CanRelease(s, t)
    ensures PutEffect(s, DoRelease(s, t), t)
  {
  }

  lemma DropEmptyEffect(s: State, t: nat)
    requires CanDropEmpty(s, t)
    ensures PutEffect(s, DoDropEmpty(s, t), t)
  {
    hide Elements, StampsOf;
  }

  lemma DropFreeEffect(s: State, t: nat)
    requires CanDropFree(s, t)
    ensures PutEffect(s, DoDropFree(s, t), t)
  {
  }

  lemma PutsEffect(cfg: Config, s: State, e: Event)
    requires Enabled(cfg, s, e) && Puts(e)
    ensures PutEffect(s, Next(cfg, s, e), e.t)
  {
    hide PutEffect, DoAppend, DoSwap, DoSettle, DoClose, DoRelease, DoDropEmpty, DoDropFree;
    match e
    case Append(t, id0) => AppendEffect(cfg, s, t, id0);
    case Swap(t, id0) => SwapEffect(s, t, id0);
    case Settle(t) => SettleEffect(s, t);
    case Close(t) => CloseEffect(s, t);
    case Release(t) => ReleaseEffect(s, t);
    case DropEmpty(t) => DropEmptyEffect(s, t);
    case DropFree(t) => DropFreeEffect(s, t);
  }

  lemma OtherThread(cfg: Config, s: State, e: Event, t: nat)
    requires Enabled(cfg, s, e) && !By(e, t) && t in s.threads
    ensures t in Next(cfg, s, e).threads && Next(cfg, s, e).threads[t] == s.threads[t]
  {
    if Puts(e) {
      PutsEffect(cfg, s, e);
      hide Next, Enabled;
    } else {
      hide WaitsOf, Buffered, Elements, StampsOf, CutsOf, CutSet, Invalidated;
      if e.Resize? {
        InvalidatedFiles(s, e.inode, e.size);
      }
    }
  }

  lemma {:induction false} ThreadWaits(cfg: Config, states: seq<State>, events: seq<Event>, j: nat, k: nat, t: nat)
    requires Run(cfg, states, events) && j <= k < |states| && t in states[j].threads
    requires forall m :: j <= m < k ==> !By(events[m], t)
    ensures t in states[k].threads && states[k].threads[t] == states[j].threads[t]
    decreases k
  {
    hide Enabled, Next;
    if j < k {
      ThreadWaits(cfg, states, events, j, k - 1, t);
      OtherThread(cfg, states[k - 1], events[k - 1], t);
    }
  }

  /** What was recorded before, of longer extents and other stamps, does not matter. */
  lemma {:induction false} AccountedSince(cut: set<Cut>, gone: set<nat>, held: set<Extent>, e: Extent, cut0: set<Cut>,
                                          gone0: set<nat>)
    requires Accounted(cut, gone, held, e) && e.stamp !in gone0
    requires forall c :: c in cut0 && c.was.stamp == e.stamp ==> |e.data| < |c.was.data|
    ensures Accounted(cut - cut0, gone - gone0, held, e)
    decreases |e.data|
  {
    if e !in held && e.stamp !in gone {
      var c :| c in cut && c.was == e
        && (c.size <= e.off || (c.size < e.End() && Accounted(cut, gone, held, e.Below(c.size))));
      assert c in cut - cut0;
      if c.size > e.off {
        AccountedSince(cut, gone, held, e.Below(c.size), cut0, gone0);
      }
    }
  }

  lemma BufferedLive(s: State, b: nat, e: Extent)
    requires Links(s) && b in s.bufs && e in Buffered(s, s.bufs[b])
    ensures exists c :: LiveExtent(s, c, e) && s.batches[c].owner == b
  {
    var buf := s.bufs[b];
    if buf.current.Some? && buf.current.value in s.batches && e in s.batches[buf.current.value].extents {
      assert LiveExtent(s, buf.current.value, e);
    } else {
      assert LiveExtent(s, buf.flushing.value, e);
    }
  }

  /** Fsync never lies, from snapshot to return: if it returns nil, then of every extent buffered when it took its
      snapshot, all that truncations since then have left is on disk, or the extent was discarded since then with its
      file. */
  lemma FsyncSinceSnapshot(cfg: Config, states: seq<State>, events: seq<Event>, j: nat, k: nat, t: nat)
    requires Run(cfg, states, events) && j < k < |events| && events[j] == Snap(t) && events[k] == Return(t)
    requires (forall m :: j < m < k ==> !By(events[m], t)) && !states[j].bufs[states[j].threads[t].buf].poisoned
    ensures var b := states[j].threads[t].buf; var i := states[j].bufs[b].inode;
            var gone0 := if i in states[j].files then states[j].gone else {};
            FsyncOk(states[k], t) ==> forall e :: e in Buffered(states[j], states[j].bufs[b]) ==>
              Accounted(states[k].cut - states[j].cut, states[k].gone - gone0, StoredOf(states[k], i), e)
  {
    var s, n, b := states[j], states[k], states[j].threads[t].buf;
    ApartOnEveryRun(cfg, states, events, j);
    if FsyncOk(n, t) {
      SnapSafe(cfg, states, events, j, k, t);
      hide Run, Inv, Links, StampsApart, Accounted, Buffered, Safe, Enabled, Next, By;
      SafeSince(s, n, b);
    }
  }

  lemma SnapSafe(cfg: Config, states: seq<State>, events: seq<Event>, j: nat, k: nat, t: nat)
    requires Run(cfg, states, events) && j < k < |events| && events[j] == Snap(t) && events[k] == Return(t)
    requires (forall m :: j < m < k ==> !By(events[m], t)) && !states[j].bufs[states[j].threads[t].buf].poisoned
    requires FsyncOk(states[k], t)
    ensures var b := states[j].threads[t].buf;
            forall e :: e in Buffered(states[j], states[j].bufs[b]) ==> Safe(states[k], states[j].bufs[b].inode, e)
  {
    hide Buffered, Safe, Next, By, WaitsOf;
    FsyncOnEveryRun(cfg, states, events, k);
    SnapToReturn(cfg, states, events, j, k, t);
  }

  /** The goroutine waits with its snapshot. */
  lemma SnapToReturn(cfg: Config, states: seq<State>, events: seq<Event>, j: nat, k: nat, t: nat)
    requires Run(cfg, states, events) && j < k < |events| && events[j] == Snap(t)
    requires (forall m :: j < m < k ==> !By(events[m], t)) && CanSnap(states[j], t)
    requires !states[j].bufs[states[j].threads[t].buf].poisoned
    ensures var s, n, b := states[j], states[k], states[j].threads[t].buf;
            && t in n.threads && n.threads[t] == Waiting(b, WaitsOf(s, s.bufs[b]), Buffered(s, s.bufs[b]))
            && b in n.bufs && n.bufs[b].inode == s.bufs[b].inode
  {
    hide Buffered, WaitsOf, Next, By;
    var s := states[j];
    assert states[j + 1] == Next(cfg, s, events[j]);
    SnapWaits(cfg, s, t);
    ThreadWaits(cfg, states, events, j + 1, k, t);
    InodeStays(cfg, states, events, j, k, s.threads[t].buf);
  }

  lemma SafeSince(s: State, n: State, b: nat)
    requires Links(s) && StampsApart(s) && b in s.bufs
    requires forall e :: e in Buffered(s, s.bufs[b]) ==> Safe(n, s.bufs[b].inode, e)
    ensures var i := s.bufs[b].inode; var gone0 := if i in s.files then s.gone else {};
            forall e :: e in Buffered(s, s.bufs[b]) ==> Accounted(n.cut - s.cut, n.gone - gone0, StoredOf(n, i), e)
  {
    hide Links, StampsApart, Accounted, Buffered;
    var i := s.bufs[b].inode;
    var gone0 := if i in s.files then s.gone else {};
    forall e | e in Buffered(s, s.bufs[b])
      ensures Accounted(n.cut - s.cut, n.gone - gone0, StoredOf(n, i), e)
    {
      SnapshotFresh(s, b, e);
      AccountedSince(n.cut, n.gone, StoredOf(n, i), e, s.cut, gone0);
    }
  }

  lemma SnapWaits(cfg: Config, s: State, t: nat)
    requires Enabled(cfg, s, Snap(t)) && !s.bufs[s.threads[t].buf].poisoned
    ensures t in Next(cfg, s, Snap(t)).threads
    ensures var b := s.threads[t].buf;
            Next(cfg, s, Snap(t)).threads[t] == Waiting(b, WaitsOf(s, s.bufs[b]), Buffered(s, s.bufs[b]))
  {
  }

  lemma SnapshotFresh(s: State, b: nat, e: Extent)
    requires Links(s) && StampsApart(s) && b in s.bufs && e in Buffered(s, s.bufs[b])
    ensures s.bufs[b].inode in s.files ==> e.stamp !in s.gone
    ensures forall c :: c in s.cut && c.was.stamp == e.stamp ==> |e.data| < |c.was.data|
  {
    BufferedLive(s, b, e);
    hide Buffered;
    var c :| LiveExtent(s, c, e) && s.batches[c].owner == b;
  }

  lemma {:induction false} InodeStays(cfg: Config, states: seq<State>, events: seq<Event>, j: nat, k: nat, b: nat)
    requires Run(cfg, states, events) && j <= k < |states| && b in states[j].bufs
    ensures b in states[k].bufs && states[k].bufs[b].inode == states[j].bufs[b].inode
    decreases k
  {
    hide Enabled, Next;
    if j < k {
      InodeStays(cfg, states, events, j, k - 1, b);
      BufStays(cfg, states[k - 1], events[k - 1], b);
    }
  }

  lemma BufStays(cfg: Config, s: State, e: Event, b: nat)
    requires Enabled(cfg, s, e) && b in s.bufs
    ensures b in Next(cfg, s, e).bufs && Next(cfg, s, e).bufs[b].inode == s.bufs[b].inode
  {
    if Puts(e) {
      PutsEffect(cfg, s, e);
      hide Next, Enabled;
    } else {
      hide WaitsOf, Buffered, Elements, StampsOf, CutsOf, CutSet, Invalidated;
      if e.Resize? {
        InvalidatedFiles(s, e.inode, e.size);
      }
    }
  }
}
