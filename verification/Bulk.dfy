/** Bulk sessions: many unsynced writes, one fsync pass and one batch at commit (index/index.go:741-869). */
module Bulk {
  import opened Bytes
  import opened Keys
  import opened Fragments
  import opened Shadow
  import opened Records
  import opened SegmentSets
  import opened Disks
  import opened Stripes
  import opened Rewrites
  import opened Indexes

  /** A queued piece: written, inside one stripe, its segment on the list to fsync. */
  ghost predicate Queued(width: nat, d: Disk, f: Fragment, data: seq<byte>, tier: Tier, touched: set<(Tier, nat)>)
    requires width > 0
  {
    && Written(d, f, data) && f.tier == tier && (f.tier, f.segment) in touched
    && f.off >= 0 && ExtentOk(AppendExtent(0, f.off, data, tier)) && f.off / width < U32
    && !Straddles(width, AppendExtent(0, f.off, data, tier))
  }

  lemma QueuedGrows(width: nat, d: Disk, e: Disk, f: Fragment, data: seq<byte>, tier: Tier,
                    touched: set<(Tier, nat)>, more: set<(Tier, nat)>)
    requires width > 0 && Queued(width, d, f, data, tier, touched) && DiskGrows(d, e) && touched <= more
    ensures Queued(width, e, f, data, tier, more)
  {
    hide Straddles, ExtentOk;
    WrittenGrows(d, e, f, data);
  }

  /** While files only grow, no read changes. */
  lemma GrowthKeepsFiles(crc: Checksum, width: nat, d: Disk, e: Disk)
    requires DiskOk(crc, width, d) && DiskOk(crc, width, e) && DiskGrows(d, e) && e.frags == d.frags
    ensures SameFiles(width, d, e)
  {
    hide Content, SetOk;
    forall k | k in d.frags
      ensures Payload(e, d.frags[k]) == Payload(d, d.frags[k])
    {
      PlacedGrows(d, e, d.frags[k]);
    }
    forall inode, p
      ensures Content(width, e, inode, p) == Content(width, d, inode, p)
    {
      UntouchedContent(width, d, e, inode, p);
    }
  }

  lemma ChunkQueued(width: nat, d: Disk, off: nat, payload: seq<byte>, i: nat, f: Fragment, tier: Tier,
                    touched: set<(Tier, nat)>)
    requires width > 0 && i < |Chunks(width, off, payload)|
    requires |payload| < U32 && Int64(off + |payload|) && (off + |payload|) / width < U32
    requires (tier == HOT || tier == COLD)
    requires var c := Chunks(width, off, payload)[i];
             f.off == c.off && Written(d, f, c.data) && f.tier == tier && (f.tier, f.segment) in touched
    ensures Queued(width, d, f, Chunks(width, off, payload)[i].data, tier, touched)
  {
    hide Chunks, StripeStart, Written;
    ChunksTile(width, off, payload);
    ChunkInside(width, off, payload, i);
    DivMonotone(f.off, off + |payload|, width);
    assert StripeBounded(width, Chunks(width, off, payload)[i]);
  }

  /** Stamp 0 goes into the log; the record gets its stamp at commit. */
  function ChunkHeader(width: nat, inode: nat, c: Chunk): (h: Header)
    requires width > 0
  {
    Header(inode, c.off / width, 0, c.off, |c.data|)
  }

  lemma ChunkHeaderOk(width: nat, off: nat, payload: seq<byte>, i: nat, inode: nat)
    requires width > 0 && i < |Chunks(width, off, payload)| && inode < U64
    requires |payload| < U32 && Int64(off + |payload|) && (off + |payload|) / width < U32
    ensures var c := Chunks(width, off, payload)[i]; var h := ChunkHeader(width, inode, c);
            h.Valid() && h.length == |c.data| && h.off == c.off
  {
    hide Chunks;
    ChunkInside(width, off, payload, i);
    DivMonotone(Chunks(width, off, payload)[i].off, off + |payload|, width);
  }

  class BulkSession {
    const idx: Index
    const inode: nat
    const tier: Tier
    var pending: seq<Fragment>
    var touched: set<(Tier, nat)>
    /** The bytes behind each pending piece. */
    ghost var payloads: seq<seq<byte>>

    constructor (idx: Index, inode: nat, tier: Tier)
      requires idx.Valid() && inode < U64 && (tier == HOT || tier == COLD)
      ensures this.idx == idx && this.inode == inode && this.tier == tier && pending == [] && Ready()
    {
      this.idx, this.inode, this.tier := idx, inode, tier;
      pending, touched, payloads := [], {}, [];
    }

    ghost predicate Ready()
      reads this, idx, idx.hot, idx.cold
    {
      && idx.Valid() && inode < U64 && (tier == HOT || tier == COLD) && |pending| == |payloads|
      && (forall i :: 0 <= i < |pending| ==> Queued(idx.stripeSize, idx.View(), pending[i], payloads[i], tier, touched))
      && (forall x :: x in touched ==> x.1 in idx.SetFor(x.0).files)
    }

    /** Write queues the chunks of a payload. Nothing becomes visible. */
    method Write(off: nat, payload: seq<byte>)
      requires Ready() && |payload| < U32
      requires Int64(off + |payload|) && (off + |payload|) / idx.stripeSize < U32
      modifies this, idx.hot, idx.cold, idx`history
      ensures Ready() && SameFiles(idx.stripeSize, old(idx.View()), idx.View())
      ensures |pending| == |old(pending)| + |Chunks(idx.stripeSize, off, payload)|
      ensures pending[..|old(pending)|] == old(pending)
      ensures payloads[..|old(pending)|] == old(payloads)
      ensures forall i :: 0 <= i < |Chunks(idx.stripeSize, off, payload)| ==>
        var c := Chunks(idx.stripeSize, off, payload)[i];
        pending[|old(pending)| + i].off == c.off && payloads[|old(pending)| + i] == c.data
    {
      hide SetOk, RecordsOk, Chunks, Queued, SameFiles, Grows;
      ghost var d0 := idx.View();
      GrowsRefl(d0.hot);
      GrowsRefl(d0.cold);
      var n := |pending|;
      var chunks := Split(idx.stripeSize, off, payload);
      for i := 0 to |chunks|
        invariant Ready() && DiskGrows(d0, idx.View()) && idx.frags == old(idx.frags)
        invariant |pending| == n + i && pending[..n] == old(pending) && payloads[..n] == old(payloads)
        invariant forall j :: 0 <= j < i ==> pending[n + j].off == chunks[j].off && payloads[n + j] == chunks[j].data
      {
        ghost var d := idx.View();
        WriteChunk(off, payload, i, chunks[i]);
        DiskGrowsTransitive(d0, d, idx.View());
      }
      GrowthKeepsFiles(idx.crc, idx.stripeSize, d0, idx.View());
    }

    method WriteChunk(ghost off: nat, ghost payload: seq<byte>, ghost i: nat, c: Chunk)
      requires Ready() && |payload| < U32
      requires Int64(off + |payload|) && (off + |payload|) / idx.stripeSize < U32
      requires i < |Chunks(idx.stripeSize, off, payload)| && c == Chunks(idx.stripeSize, off, payload)[i]
      modifies this, idx.hot, idx.cold, idx`history
      ensures Ready() && DiskGrows(old(idx.View()), idx.View()) && idx.frags == old(idx.frags)
      ensures |pending| == |old(pending)| + 1 && pending[..|old(pending)|] == old(pending)
      ensures payloads == old(payloads) + [c.data] && pending[|old(pending)|].off == c.off
    {
      hide SetOk, RecordsOk, Chunks, Queued, Grows, StripeStart, Written, ChunkHeader, DiskSteps, LastFrame;
      ghost var d := idx.View();
      ChunkHeaderOk(idx.stripeSize, off, payload, i, inode);
      var h := ChunkHeader(idx.stripeSize, inode, c);
      var f := idx.WriteRecord(tier, h, c.data);
      WrittenThere(idx.View(), f, c.data);
      ghost var more := touched + {(tier, f.segment)};
      forall j | 0 <= j < |pending|
        ensures Queued(idx.stripeSize, idx.View(), pending[j], payloads[j], tier, more)
      {
        QueuedGrows(idx.stripeSize, d, idx.View(), pending[j], payloads[j], tier, touched, more);
      }
      ChunkQueued(idx.stripeSize, idx.View(), off, payload, i, f, tier, more);
      KeysGrow(d, idx.View());
      pending, payloads, touched := pending + [f], payloads + [c.data], touched + {(tier, f.segment)};
    }

    /** Commit: one fsync per touched segment, fresh stamps in queue order, one batch. */
    method Commit() returns (placed: seq<Fragment>)
      requires Ready() && idx.seqGen + |pending| < U64
      modifies idx, idx.hot, idx.cold
      ensures idx.Valid() && old(idx.history) <= idx.history
      ensures Trace(idx.crc, old(idx.View()), idx.history[|old(idx.history)| - 1..], idx.View())
      ensures |placed| == |pending| && forall f :: f in placed ==> f.off >= 0
      ensures idx.frags == Overlay(idx.stripeSize, old(idx.frags), inode, placed)
      ensures LastQueuedWins(idx.stripeSize, old(idx.View()), idx.View(), inode, placed, payloads)
      ensures AddsIn(old(idx.frags), idx.frags, inode, tier)
    {
      hide SetOk, RecordsOk, Overlay, Queued, Grows, LastQueuedWins, Trace, DiskSteps, AddsIn;
      ghost var d0 := idx.View();
      ghost var n0 := |idx.history| - 1;
      idx.SyncTouched(touched);
      ghost var d1, passed := idx.View(), idx.history;
      placed := [];
      ghost var es: seq<AppendExtent> := [];
      for i := 0 to |pending|
        invariant idx.Wired() && idx.View() == d1 && idx.history == passed && idx.seqGen == old(idx.seqGen) + i
        invariant |placed| == |es| == i
        invariant forall j :: 0 <= j < i ==> pending[j].off >= 0
        invariant forall j :: 0 <= j < i ==> placed[j] == pending[j].(stamp := old(idx.seqGen) + 1 + j)
        invariant forall j :: 0 <= j < i ==>
          es[j] == AppendExtent(old(idx.seqGen) + 1 + j, pending[j].off, payloads[j], tier)
      {
        QueuedStart(idx.stripeSize, d0, pending[i], payloads[i], tier, touched);
        var n := idx.NextSeq();
        placed := placed + [pending[i].(stamp := n)];
        es := es + [AppendExtent(n, pending[i].off, payloads[i], tier)];
      }
      QueuedStored(idx.crc, idx.stripeSize, d0, d1, pending, payloads, tier, touched, placed, es, old(idx.seqGen));
      CommitOk(idx.crc, idx.stripeSize, d1, inode, placed, es);
      idx.CommitBatch(Overlay(idx.stripeSize, idx.frags, inode, placed));
      CommitTrace(idx.crc, passed, n0, idx.View());
      CommitStamps(idx.stripeSize, d0.frags, inode, placed, idx.seqGen);
      CommitStores(d1, idx.View(), placed, es);
      StampsFresh(idx.stripeSize, d0, idx.View(), old(idx.seqGen), placed, es);
      StoredTier(idx.View(), placed, es, tier);
      OverlayAdds(idx.stripeSize, d0, inode, placed, tier);
      QueueWins(idx.stripeSize, d0, idx.View(), inode, placed, es, payloads);
    }
  }

  lemma WrittenThere(d: Disk, f: Fragment, data: seq<byte>)
    requires Written(d, f, data)
    ensures f.segment in d.Set(f.tier).files
  {
  }

  lemma KeysGrow(d: Disk, e: Disk)
    requires DiskGrows(d, e)
    ensures d.hot.files.Keys <= e.hot.files.Keys && d.cold.files.Keys <= e.cold.files.Keys
  {
  }

  lemma QueuedStart(width: nat, d: Disk, f: Fragment, data: seq<byte>, tier: Tier, touched: set<(Tier, nat)>)
    requires width > 0 && Queued(width, d, f, data, tier, touched)
    ensures f.off >= 0
  {
  }

  /** After the fsyncs each queued piece is stored, under its new stamp. */
  lemma QueuedStored(crc: Checksum, width: nat, d: Disk, e: Disk, pending: seq<Fragment>, payloads: seq<seq<byte>>,
                     tier: Tier,
                     touched: set<(Tier, nat)>, fs: seq<Fragment>, es: seq<AppendExtent>, base: nat)
    requires DiskOk(crc, width, e) && DiskGrows(d, e) && |pending| == |payloads| == |fs| == |es|
    requires base + |pending| < U64
    requires forall i :: 0 <= i < |pending| ==> Queued(width, d, pending[i], payloads[i], tier, touched)
    requires forall x :: x in touched ==> IsSynced(e, x.0, x.1)
    requires forall j :: 0 <= j < |pending| ==> pending[j].off >= 0 && fs[j] == pending[j].(stamp := base + 1 + j)
    requires forall j :: 0 <= j < |pending| ==>
      es[j] == AppendExtent(base + 1 + j, pending[j].off, payloads[j], tier)
    ensures StoresAll(e, fs, es) && BatchOk(width, es)
    ensures forall x :: x in es ==> !Straddles(width, x)
  {
    hide DiskOk, DiskGrows;
    assert width > 0 by { WidthPositive(crc, width, e); }
    forall j | 0 <= j < |es|
      ensures Stores(e, fs[j], es[j]) && ExtentOk(es[j]) && es[j].off / width < U32 && !Straddles(width, es[j])
    {
      QueuedGrows(width, d, e, pending[j], payloads[j], tier, touched, touched);
      assert IsSynced(e, fs[j].tier, fs[j].segment);
    }
  }

  lemma WidthPositive(crc: Checksum, width: nat, d: Disk)
    requires DiskOk(crc, width, d)
    ensures width > 0
  {
  }

  /** Each byte under the queue is now the last queued byte there; everything else is as it was. */
  ghost predicate LastQueuedWins(width: nat, d: Disk, e: Disk, inode: nat, fs: seq<Fragment>, payloads: seq<seq<byte>>)
    requires RecordsOk(width, d) && RecordsOk(width, e) && |fs| == |payloads|
  {
    && (forall i: nat, p :: LastCover(fs, i, p) ==>
          fs[i].off <= p < fs[i].off + |payloads[i]| && Content(width, e, inode, p) == Some(payloads[i][p - fs[i].off]))
    && (forall other, p :: other != inode || !Covered(fs, p) ==>
          Content(width, e, other, p) == Content(width, d, other, p))
  }

  lemma QueueWins(width: nat, d: Disk, e: Disk, inode: nat, fs: seq<Fragment>, es: seq<AppendExtent>,
                  payloads: seq<seq<byte>>)
    requires width > 0 && RecordsOk(width, d) && RecordsOk(width, e) && Fresh(d, fs)
    requires forall f :: f in fs ==> f.off >= 0
    requires e.frags == Overlay(width, d.frags, inode, fs) && DiskGrows(d, e)
    requires StoresAll(e, fs, es) && |payloads| == |fs| && forall i :: 0 <= i < |es| ==> es[i].data == payloads[i]
    ensures LastQueuedWins(width, d, e, inode, fs, payloads)
  {
    hide Content, RecordsOk, Overlay, DiskGrows, Fresh, Covered, LastCover, Stores;
    forall i: nat, p | LastCover(fs, i, p)
      ensures i < |fs| && fs[i].off <= p < fs[i].off + |payloads[i]|
      ensures Content(width, e, inode, p) == Some(payloads[i][p - fs[i].off])
    {
      AppendedContent(width, d, e, inode, fs, inode, p);
      LastCoverIndex(fs, i, p);
      StoredByte(e, fs[i], es[i], p);
    }
    forall other, p | other != inode || !Covered(fs, p)
      ensures Content(width, e, other, p) == Content(width, d, other, p)
    {
      AppendedContent(width, d, e, inode, fs, other, p);
    }
  }

  lemma LastCoverIndex(fs: seq<Fragment>, i: nat, p: int)
    requires LastCover(fs, i, p)
    ensures i < |fs| && fs[i].Covers(p)
  {
  }

  lemma StoredByte(d: Disk, f: Fragment, e: AppendExtent, p: int)
    requires Stores(d, f, e) && f.Covers(p)
    ensures f.len == |e.data| && ByteOf(d, f, p) == e.data[p - f.off]
  {
  }
}
