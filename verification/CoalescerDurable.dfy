/** Stamps stay unique, and what fsync waits for ends up on disk. */
module CoalescerDurable {
  import opened Bytes
  import opened Stripes
  import opened Extents
  import opened Coalescers
  import opened CoalescerLinks

  // ----- stamps

  ghost predicate Bounded(s: State, es: seq<Extent>) {
    forall i :: 0 <= i < |es| ==> es[i].stamp <= s.seqGen && es[i].data != []
  }

  ghost predicate Stamps(s: State) {
    && (forall c :: c in s.batches ==> Bounded(s, s.batches[c].extents))
    && (forall i, e :: i in s.files && e in s.files[i].frags ==> e.stamp <= s.seqGen && e.data != [])
    && UniqueStamps(s)
  }

  ghost predicate Slot(s: State, c: nat, i: int) { c in s.batches && 0 <= i < |s.batches[c].extents| }

  /** No two buffered extents ever carry the same stamp. */
  ghost predicate UniqueStamps(s: State) {
    forall c, d, i, j :: Slot(s, c, i) && Slot(s, d, j) ==>
      (s.batches[c].extents[i].stamp == s.batches[d].extents[j].stamp ==> c == d && i == j)
  }

  /** Batches keep their extents and ends; batches that appear are empty. */
  ghost predicate SameExtents(s: State, n: State) {
    && (forall c :: c in s.batches ==>
          c in n.batches && n.batches[c].extents == s.batches[c].extents && n.batches[c].maxEnd == s.batches[c].maxEnd)
    && (forall c :: c in n.batches && c !in s.batches ==> n.batches[c].extents == [])
  }

  lemma StampsFrame(s: State, n: State)
    requires Stamps(s) && SameExtents(s, n) && n.seqGen == s.seqGen
    requires forall i, e :: i in n.files && e in n.files[i].frags ==> e.stamp <= n.seqGen && e.data != []
    ensures Stamps(n)
  {
  }

  /** New extents above the counter go to the end of one batch. */
  lemma AppendStamps(cfg: Config, s: State, t: nat, id0: nat)
    requires Stamps(s) && cfg.width > 0 && CanAppend(s, t, id0)
    ensures Stamps(DoAppend(cfg, s, t, id0))
  {
    hide Chunks;
    var w := s.threads[t];
    var b := s.bufs[w.buf];
    if b.poisoned {
      StampsFrame(s, DoAppend(cfg, s, t, id0));
    } else {
      var c := if b.current.Some? then b.current.value else id0;
      var was := if b.current.Some? then s.batches[c].extents else [];
      var news := Stamped(Chunks(cfg.width, w.off, w.data), s.seqGen);
      ChunksNonEmpty(cfg.width, w.off, w.data);
      GrowStamps(s, DoAppend(cfg, s, t, id0), c, was, news);
    }
  }

  lemma ChunksNonEmpty(width: nat, off: nat, data: seq<byte>)
    requires width > 0
    ensures forall i :: 0 <= i < |Chunks(width, off, data)| ==> Chunks(width, off, data)[i].data != []
  {
    ChunksTile(width, off, data);
    assert forall i :: 0 <= i < |Chunks(width, off, data)| ==> StripeBounded(width, Chunks(width, off, data)[i]);
  }

  ghost predicate GrowsBatch(s: State, n: State, c: nat, was: seq<Extent>, news: seq<Extent>) {
    && n.files == s.files && n.seqGen == s.seqGen + |news| && c in n.batches
    && was == (if c in s.batches then s.batches[c].extents else [])
    && n.batches == s.batches[c := n.batches[c]] && n.batches[c].extents == was + news
    && (forall i :: 0 <= i < |news| ==> news[i].stamp == s.seqGen + 1 + i && news[i].data != [])
  }

  /** A slot of the grown state is an old slot, or holds one of the new extents. */
  lemma SlotOrigin(s: State, n: State, c: nat, was: seq<Extent>, news: seq<Extent>, d: nat, i: int)
    requires Stamps(s) && GrowsBatch(s, n, c, was, news) && Slot(n, d, i)
    ensures n.batches[d].extents[i].data != [] && n.batches[d].extents[i].stamp <= n.seqGen
    ensures d == c && i >= |was| ==> n.batches[d].extents[i].stamp == s.seqGen + 1 + (i - |was|)
    ensures !(d == c && i >= |was|) ==> Slot(s, d, i) && s.batches[d].extents[i] == n.batches[d].extents[i]
    ensures !(d == c && i >= |was|) ==> n.batches[d].extents[i].stamp <= s.seqGen
  {
    assert d in s.batches ==> Bounded(s, s.batches[d].extents);
  }

  lemma GrowStamps(s: State, n: State, c: nat, was: seq<Extent>, news: seq<Extent>)
    requires Stamps(s) && GrowsBatch(s, n, c, was, news)
    ensures Stamps(n)
  {
    assert n.files == s.files && s.seqGen <= n.seqGen;
    hide GrowsBatch;
    forall d | d in n.batches
      ensures Bounded(n, n.batches[d].extents)
    {
      forall i | 0 <= i < |n.batches[d].extents|
        ensures n.batches[d].extents[i].data != [] && n.batches[d].extents[i].stamp <= n.seqGen
      {
        SlotOrigin(s, n, c, was, news, d, i);
      }
    }
    forall d, e, i, j | Slot(n, d, i) && Slot(n, e, j)
      ensures n.batches[d].extents[i].stamp == n.batches[e].extents[j].stamp ==> d == e && i == j
    {
      SlotOrigin(s, n, c, was, news, d, i);
      SlotOrigin(s, n, c, was, news, e, j);
    }
  }

  /** Clipping keeps the order and the stamps. */
  lemma {:induction false} ClippedFrom(es: seq<Extent>, size: nat, k: nat) returns (i: nat)
    requires k < |Clipped(es, size)|
    ensures k <= i < |es| && es[i].off < size && Clipped(es, size)[k] == es[i].Below(size)
    decreases |es|
  {
    var n := |es| - 1;
    var head := Clipped(es[..n], size);
    if k < |head| {
      i := ClippedFrom(es[..n], size, k);
    } else {
      i := n;
      ClippedCount(es[..n], size);
    }
  }

  lemma {:induction false} ClippedCount(es: seq<Extent>, size: nat)
    ensures |Clipped(es, size)| <= |es|
  {
    if es != [] {
      ClippedCount(es[..|es| - 1], size);
    }
  }

  /** Two places in the clipped list come from two places in the list. */
  lemma {:induction false} ClippedDistinct(es: seq<Extent>, size: nat, k: nat, l: nat)
    requires k < l < |Clipped(es, size)|
    requires forall i, j :: 0 <= i < |es| && 0 <= j < |es| && es[i].stamp == es[j].stamp ==> i == j
    ensures Clipped(es, size)[k].stamp != Clipped(es, size)[l].stamp
    decreases |es|
  {
    var n := |es| - 1;
    var head := Clipped(es[..n], size);
    if l < |head| {
      ClippedDistinct(es[..n], size, k, l);
    } else {
      var i := ClippedFrom(es[..n], size, k);
      assert es[..n][i] == es[i];
    }
  }

  lemma {:induction false} ClippedKeeps(es: seq<Extent>, size: nat, e: Extent)
    requires e in es && e.off < size
    ensures e.Below(size) in Clipped(es, size)
    decreases |es|
  {
    var n := |es| - 1;
    assert es == es[..n] + [es[n]];
    if e != es[n] {
      ClippedKeeps(es[..n], size, e);
    }
  }

  lemma ClipStamps(s: State, n: State, c: nat, size: nat)
    requires Stamps(s) && c in s.batches && n.files == s.files && n.seqGen == s.seqGen
    requires n.batches == s.batches[c := ClipBatch(s.batches[c], size)]
    ensures Stamps(n)
  {
    hide Clipped, SumLen, MaxEnd;
    var es, kept := s.batches[c].extents, n.batches[c].extents;
    forall k | 0 <= k < |kept|
      ensures kept[k].data != [] && kept[k].stamp <= s.seqGen
      ensures exists i :: 0 <= i < |es| && kept[k].stamp == es[i].stamp
    {
      var i := ClippedFrom(es, size, k);
      assert Bounded(s, es);
    }
    assert forall i :: 0 <= i < |es| ==> Slot(s, c, i);
    forall k, l | 0 <= k < l < |kept|
      ensures kept[k].stamp != kept[l].stamp
    {
      ClippedDistinct(es, size, k, l);
    }
    forall d, l, k | d != c && Slot(n, d, l) && 0 <= k < |kept|
      ensures kept[k].stamp != n.batches[d].extents[l].stamp
    {
      var i :| 0 <= i < |es| && kept[k].stamp == es[i].stamp;
      assert Slot(s, c, i) && Slot(s, d, l);
    }
  }

  // ----- durability

  ghost predicate Done(p: Phase) { p.Settled? || p.Released? }

  /** Following the recorded cuts, what is left of the extent is held, or it is gone with its file. */
  ghost predicate Accounted(cut: set<Cut>, gone: set<nat>, held: set<Extent>, e: Extent)
    decreases |e.data|
  {
    || e in held || e.stamp in gone
    || exists c :: c in cut && c.was == e
         && (c.size <= e.off || (c.size < e.End() && Accounted(cut, gone, held, e.Below(c.size))))
  }

  /** What is held may be accounted for elsewhere in turn. */
  lemma {:induction false} AccountedOnward(cut: set<Cut>, gone: set<nat>, held: set<Extent>, cut': set<Cut>,
                                           gone': set<nat>,
                                           held': set<Extent>, e: Extent)
    requires Accounted(cut, gone, held, e) && cut <= cut' && gone <= gone'
    requires forall x :: x in held ==> Accounted(cut', gone', held', x)
    ensures Accounted(cut', gone', held', e)
    decreases |e.data|
  {
    if e !in held && e.stamp !in gone {
      var c :| c in cut && c.was == e
        && (c.size <= e.off || (c.size < e.End() && Accounted(cut, gone, held, e.Below(c.size))));
      assert c in cut';
      if c.size > e.off {
        AccountedOnward(cut, gone, held, cut', gone', held', e.Below(c.size));
      }
    }
  }

  ghost function StoredOf(s: State, inode: nat): set<Extent> {
    if inode in s.files then s.files[inode].frags else {}
  }

  /** What truncations have left of the extent is on disk, or it went with its file. */
  ghost predicate Safe(s: State, inode: nat, e: Extent) {
    Accounted(s.cut, s.gone, StoredOf(s, inode), e)
  }

  lemma SafeOnward(s: State, n: State, inode: nat, e: Extent)
    requires Safe(s, inode, e) && s.cut <= n.cut && s.gone <= n.gone
    requires forall x :: x in StoredOf(s, inode) ==> Safe(n, inode, x)
    ensures Safe(n, inode, e)
  {
    AccountedOnward(s.cut, s.gone, StoredOf(s, inode), n.cut, n.gone, StoredOf(n, inode), e);
  }

  ghost predicate BatchSafe(s: State, c: Batch) {
    && c.owner in s.bufs
    && (c.closed ==> Done(c.phase))
    && (c.failed ==> Done(c.phase) && s.bufs[c.owner].poisoned)
    && (Done(c.phase) && !c.failed ==> forall e :: e in c.extents ==> Safe(s, s.bufs[c.owner].inode, e))
  }

  ghost predicate PcSafe(s: State, pc: Pc) {
    match pc
    case Stored(b, c, ok) =>
      ok ==> b in s.bufs && c in s.batches && (forall e :: e in s.batches[c].extents ==> Safe(s, s.bufs[b].inode, e))
             && (s.bufs[b].inode in s.files ==> Elements(s.batches[c].extents) <= s.files[s.bufs[b].inode].frags)
    case Waiting(_, waits, snap) =>
      forall e :: e in snap ==> Accounted(s.cut, s.gone, Awaited(s, waits), e)
    case _ => true
  }

  /** What the awaited batches carry. */
  ghost function Awaited(s: State, waits: set<nat>): set<Extent> {
    set c, e | c in waits && c in s.batches && e in s.batches[c].extents :: e
  }

  ghost predicate Durable(s: State) {
    && (forall c :: c in s.batches ==> BatchSafe(s, s.batches[c]))
    && (forall t :: t in s.threads ==> PcSafe(s, s.threads[t]))
  }

  /** Fsync never lies: it returns nil only when, of every extent it found buffered, all that truncations have left is
      on disk or gone with its file; and a failed flush of a batch it waited for makes it return an error. */
  lemma FsyncNeverLies(s: State, t: nat)
    requires Links(s) && Durable(s) && CanReturn(s, t)
    ensures FsyncOk(s, t) ==> forall e :: e in s.threads[t].snap ==> Safe(s, s.bufs[s.threads[t].buf].inode, e)
    ensures (exists c :: c in s.threads[t].waits && s.batches[c].failed) ==> !FsyncOk(s, t)
  {
    var w := s.threads[t];
    assert PcOk(s, t, w) && PcSafe(s, w);
    forall c | c in w.waits
      ensures BatchSafe(s, s.batches[c]) && Points(s, c, w.buf)
    {
    }
    if FsyncOk(s, t) {
      var i := s.bufs[w.buf].inode;
      forall e | e in w.snap
        ensures Safe(s, i, e)
      {
        AccountedOnward(s.cut, s.gone, Awaited(s, w.waits), s.cut, s.gone, StoredOf(s, i), e);
      }
    }
  }

  lemma EndDurable(s: State, t: nat)
    requires Durable(s)
    ensures Durable(End(s, t))
  {
    var n := End(s, t);
    assert forall c :: c in n.batches ==> BatchSafe(s, s.batches[c]);
    assert forall u :: u in n.threads ==> PcSafe(s, n.threads[u]);
  }

  lemma GoDurable(s: State, t: nat, pc: Pc)
    requires Durable(s) && PcSafe(s, pc)
    ensures Durable(Go(s, t, pc))
  {
    var n := Go(s, t, pc);
    assert forall c :: c in n.batches ==> BatchSafe(s, s.batches[c]);
    forall u | u in n.threads
      ensures PcSafe(n, n.threads[u])
    {
      assert u != t ==> PcSafe(s, s.threads[u]);
      SamePcSafe(s, n, n.threads[u]);
    }
  }

  lemma SamePcSafe(s: State, n: State, pc: Pc)
    requires PcSafe(s, pc) && n.batches == s.batches && n.files == s.files && n.cut == s.cut && n.gone == s.gone
    requires forall b :: b in s.bufs ==> b in n.bufs && n.bufs[b].inode == s.bufs[b].inode
    ensures PcSafe(n, pc)
  {
    if pc.Waiting? {
      assert Awaited(n, pc.waits) == Awaited(s, pc.waits);
    } else if pc.Stored? && pc.ok {
      assert StoredOf(n, n.bufs[pc.buf].inode) == StoredOf(s, s.bufs[pc.buf].inode);
    }
  }

  /** Putting a batch keeps durability: no flushed batch changes, an extent leaves only for what a cut left of it. */
  ghost predicate PutsSafely(s: State, c: nat, batch: Batch, b: nat, buf: Buf) {
    && b in s.bufs && buf.inode == s.bufs[b].inode && (s.bufs[b].poisoned ==> buf.poisoned)
    && (c in s.batches ==>
          && (s.batches[c].phase.Current? || batch.extents == s.batches[c].extents)
          && forall e :: e in s.batches[c].extents ==> Accounted(s.cut, s.gone, Elements(batch.extents), e))
    && BatchSafe(s.(bufs := s.bufs[b := buf]), batch)
  }

  lemma PutDurable(s: State, c: nat, batch: Batch, b: nat, buf: Buf)
    requires Durable(s) && ThreadLinks(s) && PutsSafely(s, c, batch, b, buf)
    ensures Durable(Put(s, c, batch, b, buf))
  {
    var n := Put(s, c, batch, b, buf);
    forall d | d in n.batches
      ensures BatchSafe(n, n.batches[d])
    {
      if d != c {
        assert BatchSafe(s, s.batches[d]);
      }
    }
    forall t | t in n.threads
      ensures PcSafe(n, n.threads[t])
    {
      PutPcSafe(s, c, batch, b, buf, t);
    }
  }

  lemma PutPcSafe(s: State, c: nat, batch: Batch, b: nat, buf: Buf, t: nat)
    requires t in s.threads && PcSafe(s, s.threads[t]) && PcOk(s, t, s.threads[t]) && PutsSafely(s, c, batch, b, buf)
    ensures PcSafe(Put(s, c, batch, b, buf), s.threads[t])
  {
    var n, pc := Put(s, c, batch, b, buf), s.threads[t];
    if pc.Waiting? {
      forall e | e in pc.snap
        ensures Accounted(n.cut, n.gone, Awaited(n, pc.waits), e)
      {
        forall x | x in Awaited(s, pc.waits)
          ensures Accounted(n.cut, n.gone, Awaited(n, pc.waits), x)
        {
          PutAwaited(s, c, batch, b, buf, pc.waits, x);
        }
        AccountedOnward(s.cut, s.gone, Awaited(s, pc.waits), n.cut, n.gone, Awaited(n, pc.waits), e);
      }
    }
  }

  lemma InAwaited(s: State, waits: set<nat>, c: nat)
    requires c in waits && c in s.batches
    ensures Elements(s.batches[c].extents) <= Awaited(s, waits)
  {
  }

  lemma PutAwaited(s: State, c: nat, batch: Batch, b: nat, buf: Buf, waits: set<nat>, x: Extent)
    requires PutsSafely(s, c, batch, b, buf) && x in Awaited(s, waits)
    ensures Accounted(s.cut, s.gone, Awaited(Put(s, c, batch, b, buf), waits), x)
  {
    var n := Put(s, c, batch, b, buf);
    var d :| d in waits && d in s.batches && x in s.batches[d].extents;
    assert n.batches[d].extents == if d == c then batch.extents else s.batches[d].extents;
    InAwaited(n, waits, d);
    if d == c {
      AccountedOnward(s.cut, s.gone, Elements(batch.extents), s.cut, s.gone, Awaited(n, waits), x);
    }
  }

  /** What was stored stays stored, or what a cut left of it does, or it is gone. */
  ghost predicate FilesKept(s: State, n: State) {
    && s.cut <= n.cut && s.gone <= n.gone
    && forall i, e :: i in s.files && e in s.files[i].frags ==> Safe(n, i, e)
  }

  /** No flush that already reached the disk belongs to a changed inode, unless the inode only gained extents. */
  ghost predicate FlushesKept(s: State, n: State) {
    forall t :: t in s.threads && s.threads[t].Stored? && s.threads[t].buf in s.bufs ==>
      var i := s.bufs[s.threads[t].buf].inode;
      i in n.files ==> i in s.files && s.files[i].frags <= n.files[i].frags
  }

  lemma FilesDurable(s: State, n: State)
    requires Durable(s) && FilesKept(s, n) && FlushesKept(s, n)
    requires n == s.(files := n.files, cut := n.cut, gone := n.gone)
    ensures Durable(n)
  {
    forall i, e | Safe(s, i, e)
      ensures Safe(n, i, e)
    {
      SafeOnward(s, n, i, e);
    }
    hide Safe;
    forall c | c in n.batches
      ensures BatchSafe(n, n.batches[c])
    {
      assert BatchSafe(s, s.batches[c]);
    }
    forall t | t in n.threads
      ensures PcSafe(n, n.threads[t])
    {
      FilesPcSafe(s, n, t);
    }
  }

  lemma FilesPcSafe(s: State, n: State, t: nat)
    requires t in s.threads && PcSafe(s, s.threads[t]) && FilesKept(s, n) && FlushesKept(s, n)
    requires n == s.(files := n.files, cut := n.cut, gone := n.gone)
    ensures PcSafe(n, s.threads[t])
  {
    var pc := s.threads[t];
    if pc.Waiting? {
      assert Awaited(n, pc.waits) == Awaited(s, pc.waits);
      forall e | e in pc.snap
        ensures Accounted(n.cut, n.gone, Awaited(n, pc.waits), e)
      {
        AccountedOnward(s.cut, s.gone, Awaited(s, pc.waits), n.cut, n.gone, Awaited(n, pc.waits), e);
      }
    } else if pc.Stored? && pc.ok {
      forall e | e in s.batches[pc.batch].extents
        ensures Safe(n, s.bufs[pc.buf].inode, e)
      {
        SafeOnward(s, n, s.bufs[pc.buf].inode, e);
      }
    }
  }

  /** Durability does not depend on the semaphore or the counters, and more recorded stamps only help. */
  lemma LooserDurable(s: State, n: State)
    requires Durable(s) && s.cut <= n.cut && s.gone <= n.gone
    requires n == s.(held := n.held, seqGen := n.seqGen, cut := n.cut, gone := n.gone, table := n.table)
    ensures Durable(n)
  {
    var m := s.(cut := n.cut, gone := n.gone);
    FilesDurable(s, m);
    forall c | c in n.batches
      ensures BatchSafe(n, n.batches[c])
    {
      assert BatchSafe(m, m.batches[c]);
    }
    forall t | t in n.threads
      ensures PcSafe(n, n.threads[t])
    {
      assert PcSafe(m, m.threads[t]);
      SamePcSafe(m, n, n.threads[t]);
    }
  }
}
