/** The index: appends, reads, truncation, moves and garbage collection (index/index.go). */
module Indexes {
  import opened Bytes
  import opened Keys
  import opened Fragments
  import opened Shadow
  import opened Records
  import opened SegmentSets
  import opened Disks
  import opened Stripes
  import opened Rewrites

  /** One stripe-bounded write with a stamp chosen by the caller. */
  datatype AppendExtent = AppendExtent(stamp: nat, off: nat, data: seq<byte>, tier: Tier)

  predicate ExtentOk(e: AppendExtent) {
    e.data != [] && |e.data| < U32 && e.stamp < U64 && Int64(e.off) && (e.tier == HOT || e.tier == COLD)
  }

  predicate Straddles(width: nat, e: AppendExtent)
    requires width > 0
  {
    e.off + |e.data| > StripeStart(width, e.off / width + 1)
  }

  /** f's payload is in its file, though not necessarily synced. */
  ghost predicate Written(d: Disk, f: Fragment, data: seq<byte>) {
    var files := d.Set(f.tier).files;
    f.segment in files && files[f.segment].linked && 0 <= f.segOff && f.len == |data|
    && f.segOff + f.len <= |files[f.segment].data|
    && files[f.segment].data[f.segOff..f.segOff + f.len] == data
  }

  /** The file of f ends with the frame of r, whose payload f is, and is no larger than the set allows, or holds nothing
      else. */
  ghost predicate LastFrame(s: SegmentSet, f: Fragment, r: Record)
    requires r.Valid()
    reads s
  {
    && s.active == Some(f.segment) && f.segment in s.files && f.segOff >= HEADER_SIZE
    && |s.files[f.segment].data| == f.segOff - HEADER_SIZE + r.FramedSize()
    && s.files[f.segment].data[f.segOff - HEADER_SIZE..] == Frame(s.crc, r)
    && (|s.files[f.segment].data| <= s.maxSize || f.segOff == HEADER_SIZE)
  }

  lemma WrittenGrows(d: Disk, e: Disk, f: Fragment, data: seq<byte>)
    requires Written(d, f, data) && DiskGrows(d, e)
    ensures Written(e, f, data)
  {
    assert FileGrows(d.Set(f.tier).files[f.segment], e.Set(f.tier).files[f.segment]);
  }

  predicate IsSynced(d: Disk, t: Tier, id: nat) {
    id in d.Set(t).files && d.Set(t).files[id].synced == |d.Set(t).files[id].data|
  }

  /** What the caller of AppendBatchCtx hands over: sound extents, each with a stamp of its own. */
  predicate BatchOk(width: nat, extents: seq<AppendExtent>)
    requires width > 0
  {
    && (forall e :: e in extents ==> ExtentOk(e) && e.off / width < U32)
    && (forall i, j :: 0 <= i < j < |extents| ==> extents[i].stamp != extents[j].stamp)
  }

  /** f is the durable form of e. */
  ghost predicate Stores(d: Disk, f: Fragment, e: AppendExtent) {
    f.stamp == e.stamp && f.off == e.off && f.tier == e.tier && Placed(d, f) && Payload(d, f) == e.data
  }

  ghost predicate StoresAll(d: Disk, fs: seq<Fragment>, es: seq<AppendExtent>) {
    |fs| == |es| && forall i :: 0 <= i < |es| ==> Stores(d, fs[i], es[i])
  }

  lemma StoredRecordOk(width: nat, d: Disk, inode: nat, f: Fragment, e: AppendExtent)
    requires width > 0 && Stores(d, f, e) && ExtentOk(e) && !Straddles(width, e)
    ensures RecordOk(width, KeyFor(width, inode, f), f)
  {
    StripeUnique(width, f.off / width, f.off);
  }

  lemma CommitOk(crc: Checksum, width: nat, d: Disk, inode: nat, fs: seq<Fragment>, es: seq<AppendExtent>)
    requires DiskOk(crc, width, d) && StoresAll(d, fs, es) && BatchOk(width, es)
    requires forall e :: e in es ==> !Straddles(width, e)
    ensures forall f :: f in fs ==> f.off >= 0
    ensures DistinctStamps(fs) && DiskOk(crc, width, d.(frags := Overlay(width, d.frags, inode, fs)))
  {
    hide SetOk, Overlay, RecordOk, Straddles, Payload, StripeStart;
    assert forall f :: f in fs ==> f.off >= 0 by {
      assert forall i :: 0 <= i < |fs| ==> Stores(d, fs[i], es[i]);
    }
    OverlayEntries(width, d.frags, inode, fs);
    var e := d.(frags := Overlay(width, d.frags, inode, fs));
    forall f | f in fs
      ensures RecordOk(width, KeyFor(width, inode, f), f) && Placed(e, f)
    {
      var i :| 0 <= i < |fs| && fs[i] == f;
      assert Stores(d, fs[i], es[i]) && es[i] in es;
      StoredRecordOk(width, d, inode, f, es[i]);
    }
    forall k | k in e.frags
      ensures RecordOk(width, k, e.frags[k]) && Placed(e, e.frags[k])
    {
      if !exists f :: f in fs && k == KeyFor(width, inode, f) {
        assert Placed(d, d.frags[k]);
      }
    }
  }

  /** A run from before to after: each step is one primitive file operation, and only the last may be the commit of a
      batch. */
  ghost predicate Trace(crc: Checksum, before: Disk, trace: seq<Disk>, after: Disk) {
    && |trace| > 0 && trace[0] == before && trace[|trace| - 1] == after
    && (forall i :: 0 <= i < |trace| - 2 ==> DiskStep(crc, trace[i], trace[i + 1]))
    && (|trace| > 1 ==> DiskStep(crc, trace[|trace| - 2], after) || CommitStep(trace[|trace| - 2], after))
  }

  /** Every state of a run is sound, keeps what was there, and has the records from before unless it is the last. */
  lemma TraceStates(crc: Checksum, width: nat, before: Disk, trace: seq<Disk>, after: Disk, at: nat)
    requires Trace(crc, before, trace, after) && DiskOk(crc, width, before) && DiskOk(crc, width, after) && at < |trace|
    ensures DiskOk(crc, width, trace[at]) && DiskGrows(before, after) && DiskGrows(trace[at], after)
    ensures trace[at] == after || trace[at].frags == before.frags
  {
    hide DiskOk, DiskStep;
    var n := |trace| - 1;
    if n == 0 {
      DiskGrowsRefl(before);
    } else {
      var path := trace[..n];
      assert DiskSteps(crc, path, 0) && path[0] == before && path[n - 1] == trace[n - 1];
      DiskStepsKeep(crc, width, path, 0, 0, n - 1);
      LastGrows(crc, width, trace[n - 1], after);
      DiskGrowsTransitive(before, trace[n - 1], after);
      if at < n {
        DiskStepsKeep(crc, width, path, 0, at, n - 1);
        DiskGrowsTransitive(trace[at], trace[n - 1], after);
      } else {
        DiskGrowsRefl(after);
      }
    }
  }

  lemma LastGrows(crc: Checksum, width: nat, d: Disk, e: Disk)
    requires DiskOk(crc, width, d) && (DiskStep(crc, d, e) || CommitStep(d, e))
    ensures DiskGrows(d, e)
  {
    if CommitStep(d, e) {
      GrowsRefl(d.hot);
      GrowsRefl(d.cold);
    } else {
      hide DiskStep;
      DiskStepKeeps(crc, width, d, e);
    }
  }

  /** Crash atomicity: reopening after a crash at any point of the run shows all of its records or none, and each
      visible record still holds the exact bytes written. */
  lemma CrashAtomic(crc: Checksum, width: nat, before: Disk, trace: seq<Disk>, after: Disk, at: nat, w: Wreck, r: Disk)
    requires Trace(crc, before, trace, after) && DiskOk(crc, width, before) && DiskOk(crc, width, after)
    requires at < |trace| && DiskCrashes(trace[at], w) && Reopens(crc, w, r)
    ensures DiskOk(crc, width, r) && (r.frags == before.frags || r.frags == after.frags)
    ensures forall k :: k in r.frags ==>
      Placed(after, r.frags[k]) && Payload(r, r.frags[k]) == Payload(after, r.frags[k])
  {
    hide SetOk, Reopens, DiskCrashes, Trace;
    var d := trace[at];
    TraceStates(crc, width, before, trace, after, at);
    CrashSafe(crc, width, d, w, r);
    assert d == after || d.frags == before.frags;
    forall k | k in d.frags
      ensures Placed(after, d.frags[k]) && Payload(after, d.frags[k]) == Payload(d, d.frags[k])
    {
      FileBound(crc, after, d, d.frags[k]);
      PlacedGrows(d, after, d.frags[k]);
    }
  }

  /** Read through files: after the crash every file reads as before the run, or every file reads as after it. */
  lemma CrashAtomicContent(crc: Checksum, width: nat, before: Disk, trace: seq<Disk>, after: Disk, at: nat, w: Wreck,
                           r: Disk)
    requires Trace(crc, before, trace, after) && DiskOk(crc, width, before) && DiskOk(crc, width, after)
    requires at < |trace| && DiskCrashes(trace[at], w) && Reopens(crc, w, r)
    ensures DiskOk(crc, width, r) && (SameFiles(width, before, r) || SameFiles(width, after, r))
  {
    hide DiskCrashes, Reopens, SetOk, Content, Trace;
    TraceStates(crc, width, before, trace, after, at);
    CrashAtomic(crc, width, before, trace, after, at, w, r);
    var base := if r.frags == before.frags then before else after;
    forall k | k in base.frags
      ensures Payload(r, r.frags[k]) == Payload(base, base.frags[k])
    {
      if base == before {
        FileBound(crc, after, before, before.frags[k]);
        PlacedGrows(before, after, before.frags[k]);
      }
    }
    forall inode, p
      ensures Content(width, r, inode, p) == Content(width, base, inode, p)
    {
      UntouchedContent(width, base, r, inode, p);
    }
  }

  lemma FileBound(crc: Checksum, e: Disk, d: Disk, f: Fragment)
    requires SetOk(crc, e.hot) && SetOk(crc, e.cold) && DiskGrows(d, e) && Placed(d, f)
    ensures f.segment in e.Set(f.tier).files
            && e.Set(f.tier).files[f.segment].synced <= |e.Set(f.tier).files[f.segment].data|
  {
  }

  class Index {
    const crc: Checksum
    const stripeSize: nat
    const hot: SegmentSet
    const cold: SegmentSet
    var frags: map<FragKey, Fragment>
    var seqGen: nat
    /** Every durable state so far; each primitive file operation and each committed batch adds the one it leaves. */
    ghost var history: seq<Disk>

    constructor (crc: Checksum, stripeSize: nat, hot: SegmentSet, cold: SegmentSet)
      ensures this.crc == crc && this.stripeSize == stripeSize && this.hot == hot && this.cold == cold
      ensures frags == map[] && seqGen == 0 && |history| == 1 && history[0] == View()
    {
      this.crc, this.stripeSize, this.hot, this.cold := crc, stripeSize, hot, cold;
      frags, seqGen := map[], 0;
      new;
      history := [View()];
    }

    function View(): Disk
      reads this, hot, cold
    {
      Disk(hot.View(), cold.View(), frags)
    }

    ghost predicate Wired()
      reads this, hot, cold
    {
      hot != cold && hot.crc == crc && cold.crc == crc && hot.Tracked() && cold.Tracked()
      && |history| > 0 && history[|history| - 1] == View()
    }

    ghost predicate Valid()
      reads this, hot, cold
    {
      Wired() && DiskOk(crc, stripeSize, View()) && forall k :: k in frags ==> k.stamp <= seqGen
    }

    method NextSeq() returns (n: nat)
      modifies this`seqGen
      ensures n == seqGen == old(seqGen) + 1
    {
      seqGen := seqGen + 1;
      n := seqGen;
    }

    function SetFor(t: Tier): SegmentSet { if t == COLD then cold else hot }

    /** One batch of the key/value store, atomic and durable. */
    method CommitBatch(next: map<FragKey, Fragment>)
      requires Wired()
      modifies this`frags, this`history
      ensures Wired() && frags == next && history == old(history) + [View()] && CommitStep(old(View()), View())
    {
      frags := next;
      history := history + [View()];
    }

    /** The segment a tier writes to, rotated first when the record does not fit. */
    method ActiveSegment(t: Tier, recordSize: int) returns (id: nat)
      requires Wired() && DiskOk(crc, stripeSize, View()) && (t == HOT || t == COLD)
      modifies hot, cold, this`history
      ensures Wired() && frags == old(frags) && DiskOk(crc, stripeSize, View()) && DiskGrows(old(View()), View())
      ensures old(history) <= history && DiskSteps(crc, history, |old(history)| - 1)
      ensures id in SetFor(t).files && SetFor(t).files[id].linked && SetFor(t).active == Some(id)
      ensures |SetFor(t).files[id].data| + recordSize <= SetFor(t).maxSize || SetFor(t).files[id].data == []
      ensures old(SetFor(t).Fits(recordSize)) ==> View() == old(View())
    {
      hide SetOk, RecordsOk, DiskSteps, SetSteps;
      ghost var d0, n := View(), |SetFor(t).history|;
      var s := SetFor(t);
      id := s.Active(recordSize);
      LiftedSteps(crc, d0, t, history, s.history, n);
      history := history + Lifted(d0, t, s.history[n..]);
      SetStepOk(crc, stripeSize, d0, t, s.View());
      assert View() == d0.With(t, s.View());
      ActiveLinked(crc, s.View());
    }

    /** Append of one record to a segment. */
    method AppendRecord(t: Tier, id: nat, h: Header, data: seq<byte>) returns (f: Fragment)
      requires Wired() && DiskOk(crc, stripeSize, View()) && (t == HOT || t == COLD)
      requires h.Valid() && h.length == |data| && id in SetFor(t).files && SetFor(t).files[id].linked
      modifies hot, cold, this`history
      ensures Wired() && frags == old(frags) && DiskOk(crc, stripeSize, View()) && DiskGrows(old(View()), View())
      ensures history == old(history) + [View()] && DiskStep(crc, old(View()), View())
      ensures f.stamp == h.stamp && f.off == h.off && f.len == |data| && f.tier == t && Written(View(), f, data)
      ensures f.segment == id && f.segOff == old(|SetFor(t).files[id].data|) + HEADER_SIZE && id in SetFor(t).files
      ensures SetFor(t).active == old(SetFor(t).active)
      ensures SetFor(t).files[id].data == old(SetFor(t).files[id].data) + Frame(crc, Record(h, data))
    {
      hide SetOk, RecordsOk, DiskStep, SetStep;
      ghost var d := View();
      var s := SetFor(t);
      var at := s.Append(id, h, data);
      history := history + [View()];
      assert View() == d.With(t, s.View());
      SetStepOk(crc, stripeSize, d, t, s.View());
      OneTierStep(crc, d, View(), t);
      f := Fragment(h.stamp, h.off, |data|, t, id, at.value);
    }

    /** Active then Append on one tier: the record, framed, ends the file the tier writes to, which outgrows the
        largest size only if it holds nothing else. */
    method WriteRecord(t: Tier, h: Header, data: seq<byte>) returns (f: Fragment)
      requires Wired() && DiskOk(crc, stripeSize, View())
      requires h.Valid() && h.length == |data| && (t == HOT || t == COLD)
      modifies hot, cold, this`history
      ensures Wired() && frags == old(frags) && DiskOk(crc, stripeSize, View()) && DiskGrows(old(View()), View())
      ensures old(history) <= history && DiskSteps(crc, history, |old(history)| - 1)
      ensures f.stamp == h.stamp && f.off == h.off && f.len == |data| && f.tier == t && Written(View(), f, data)
      ensures LastFrame(SetFor(t), f, Record(h, data))
      ensures old(SetFor(t).Fits(HEADER_SIZE + |data| + TRAILER_SIZE)) ==> SetFor(t).active == old(SetFor(t).active)
    {
      hide DiskOk, DiskStep, Grows, Written;
      ghost var d0 := View();
      var id := ActiveSegment(t, HEADER_SIZE + |data| + TRAILER_SIZE);
      ghost var d1 := View();
      f := AppendRecord(t, id, h, data);
      DiskGrowsTransitive(d0, d1, View());
    }

    /** Fsync of one segment. */
    method SyncSegment(t: Tier, id: nat)
      requires Wired() && DiskOk(crc, stripeSize, View()) && id in SetFor(t).files
      modifies hot, cold, this`history
      ensures Wired() && frags == old(frags) && IsSynced(View(), t, id)
      ensures forall u, i :: IsSynced(old(View()), u, i) ==> IsSynced(View(), u, i)
      ensures hot.files.Keys == old(hot.files.Keys) && cold.files.Keys == old(cold.files.Keys)
      ensures DiskOk(crc, stripeSize, View()) && DiskGrows(old(View()), View())
      ensures history == old(history) + [View()] && DiskStep(crc, old(View()), View())
    {
      hide SetOk, RecordsOk, DiskStep, SetStep;
      ghost var d := View();
      SetFor(t).Sync(id);
      history := history + [View()];
      SetStepOk(crc, stripeSize, d, t, SetFor(t).View());
      OneTierStep(crc, d, View(), if t == COLD then COLD else HOT);
    }

    /** One fsync per touched segment. */
    method SyncTouched(touched: set<(Tier, nat)>)
      requires Wired() && DiskOk(crc, stripeSize, View())
      requires forall x :: x in touched ==> x.1 in SetFor(x.0).files
      modifies hot, cold, this`history
      ensures Wired() && frags == old(frags) && DiskOk(crc, stripeSize, View()) && DiskGrows(old(View()), View())
      ensures old(history) <= history && DiskSteps(crc, history, |old(history)| - 1)
      ensures forall x :: x in touched ==> IsSynced(View(), x.0, x.1)
    {
      hide DiskOk, Grows, IsSynced, DiskStep;
      ghost var d0 := View();
      DiskGrowsRefl(d0);
      var left := touched;
      while left != {}
        invariant left <= touched && Wired() && frags == old(frags) && DiskOk(crc, stripeSize, View())
        invariant DiskGrows(d0, View())
        invariant old(history) <= history && DiskSteps(crc, history, |old(history)| - 1)
        invariant forall x :: x in touched ==> x.1 in SetFor(x.0).files
        invariant forall x :: x in touched && x !in left ==> IsSynced(View(), x.0, x.1)
      {
        var x :| x in left;
        ghost var d := View();
        SyncSegment(x.0, x.1);
        DiskGrowsTransitive(d0, d, View());
        left := left - {x};
      }
    }

    /** AppendBatchCtx: stage every extent, fsync what was touched, commit every record in one batch. */
    method AppendBatch(inode: nat, extents: seq<AppendExtent>) returns (ok: bool, placed: seq<Fragment>)
      requires Valid() && inode < U64 && BatchOk(stripeSize, extents)
      requires forall e :: e in extents ==> e.stamp <= seqGen
      modifies this`frags, this`history, hot, cold
      ensures Valid() && DiskGrows(old(View()), View())
      ensures old(history) <= history && Trace(crc, old(View()), history[|old(history)| - 1..], View())
      ensures ok <==> forall e :: e in extents ==> !Straddles(stripeSize, e)
      ensures !ok ==> frags == old(frags)
      ensures ok ==>
        && StoresAll(View(), placed, extents) && DistinctStamps(placed)
        && (forall f :: f in placed ==> f.off >= 0)
        && frags == Overlay(stripeSize, old(frags), inode, placed)
    {
      hide SetOk, RecordsOk, Overlay, Stores, DiskStep, Trace, LastFrame, SegmentSet.Fits;
      ghost var d0, n := View(), |history| - 1;
      DiskGrowsRefl(d0);
      placed := [];
      var touched: set<(Tier, nat)> := {};
      for i := 0 to |extents|
        invariant Wired() && frags == old(frags) && DiskOk(crc, stripeSize, View()) && DiskGrows(d0, View())
        invariant old(history) <= history && DiskSteps(crc, history, n)
        invariant |placed| == i && forall j :: 0 <= j < i ==> Staged(View(), placed[j], extents[j], touched)
        invariant forall j :: 0 <= j < i ==> !Straddles(stripeSize, extents[j])
        invariant forall x :: x in touched ==> x.1 in SetFor(x.0).files
      {
        var e := extents[i];
        assert e in extents;
        var stripe := e.off / stripeSize;
        if Straddles(stripeSize, e) {
          ok := false;
          StepsTrace(crc, history, n);
          return;
        }
        ghost var d := View();
        var f := WriteRecord(e.tier, Header(inode, stripe, e.stamp, e.off, |e.data|), e.data);
        DiskGrowsTransitive(d0, d, View());
        StagedGrows(d, View(), placed, extents[..i], touched, touched + {(e.tier, f.segment)});
        touched := touched + {(e.tier, f.segment)};
        placed := placed + [f];
      }
      ghost var d1 := View();
      SyncTouched(touched);
      DiskGrowsTransitive(d0, d1, View());
      StagedGrows(d1, View(), placed, extents, touched, touched);
      ghost var d2 := View();
      SyncedStores(crc, d2, placed, extents, touched);
      CommitOk(crc, stripeSize, d2, inode, placed, extents);
      ghost var passed := history;
      CommitBatch(Overlay(stripeSize, frags, inode, placed));
      CommitTrace(crc, passed, n, View());
      DiskGrowsRefl(View());
      DiskGrowsTransitive(d0, d2, View());
      CommitStores(d2, View(), placed, extents);
      CommitStamps(stripeSize, old(frags), inode, placed, seqGen);
      ok := true;
    }

    /** One fresh stamp per chunk, in order. */
    method StampChunks(chunks: seq<Chunk>, tier: Tier) returns (extents: seq<AppendExtent>)
      modifies this`seqGen
      ensures seqGen == old(seqGen) + |chunks| && |extents| == |chunks|
      ensures forall j :: 0 <= j < |chunks| ==>
        extents[j] == AppendExtent(old(seqGen) + 1 + j, chunks[j].off, chunks[j].data, tier)
    {
      extents := [];
      for i := 0 to |chunks|
        invariant seqGen == old(seqGen) + i && |extents| == i
        invariant forall j :: 0 <= j < i ==>
          extents[j] == AppendExtent(old(seqGen) + 1 + j, chunks[j].off, chunks[j].data, tier)
      {
        var n := NextSeq();
        extents := extents + [AppendExtent(n, chunks[i].off, chunks[i].data, tier)];
      }
    }

    /** AppendToWithTxCtx: split at stripe boundaries, stamp each chunk, append as one batch. */
    method AppendTo(inode: nat, off: nat, payload: seq<byte>, tier: Tier)
      requires Valid() && inode < U64 && (tier == HOT || tier == COLD) && |payload| < U32
      requires Int64(off + |payload|) && (off + |payload|) / stripeSize < U32 && seqGen + |payload| < U64
      modifies this, hot, cold
      ensures Valid() && old(history) <= history && Trace(crc, old(View()), history[|old(history)| - 1..], View())
      ensures Overwrites(stripeSize, old(View()), View(), inode, off, payload)
      ensures AddsIn(old(frags), frags, inode, tier)
      ensures old(seqGen) <= seqGen <= old(seqGen) + |payload|
    {
      hide SetOk, RecordsOk, Overlay, Tiling, Chunks, BatchOk, Straddles, Overwrites, Trace, AddsIn;
      ghost var d0 := View();
      var chunks := Split(stripeSize, off, payload);
      ChunksTile(stripeSize, off, payload);
      ChunkCount(stripeSize, off, payload);
      var extents := StampChunks(chunks, tier);
      assert View() == d0;
      ChunkExtentsOk(stripeSize, off, payload, chunks, extents, old(seqGen), tier);
      var ok, placed;
      ok, placed := AppendBatch(inode, extents);
      StampsFresh(stripeSize, d0, View(), old(seqGen), placed, extents);
      StoredTier(View(), placed, extents, tier);
      OverlayAdds(stripeSize, d0, inode, placed, tier);
      AppendOverwrites(stripeSize, d0, View(), inode, off, payload, chunks, extents, placed);
    }

    /** An iterator's walk over some records, collecting the fragments. */
    method Collect(keys: set<FragKey>) returns (fs: seq<Fragment>)
      requires keys <= frags.Keys
      ensures forall k :: k in keys ==> frags[k] in fs
      ensures forall f :: f in fs ==> exists k :: k in keys && frags[k] == f
    {
      var left := keys;
      fs := [];
      while left != {}
        invariant left <= keys
        invariant forall k :: k in keys && k !in left ==> frags[k] in fs
        invariant forall f :: f in fs ==> exists k :: k in keys && frags[k] == f
      {
        var k :| k in left;
        left := left - {k};
        fs := fs + [frags[k]];
      }
    }

    /** fragmentsInRange over the stripes a read touches. */
    method FragmentsInRange(inode: nat, off: nat, length: int) returns (fs: seq<Fragment>)
      requires Valid()
      ensures length <= 0 ==> fs == []
      ensures length > 0 ==> ListsStripes(View(), inode, off / stripeSize, (off + length - 1) / stripeSize, fs)
    {
      hide SetOk, RecordsOk;
      if length <= 0 {
        return [];
      }
      var first, last := off / stripeSize, (off + length - 1) / stripeSize;
      fs := Collect(set k | k in frags && InStripes(k, inode, first, last));
    }

    /** PlanReadCtx: the plan names, for every byte, where its current value is stored. */
    method PlanRead(inode: nat, off: nat, length: int) returns (slices: seq<ReadSlice>)
      requires Valid()
      ensures length <= 0 ==> slices == []
      ensures length > 0 ==> Tiles(slices, off, off + length)
      ensures forall s :: s in slices ==> SliceReads(stripeSize, View(), inode, s)
    {
      if length <= 0 {
        return [];
      }
      var fs := FragmentsInRange(inode, off, length);
      ListedNonEmpty(stripeSize, View(), inode, off / stripeSize, (off + length - 1) / stripeSize, fs);
      slices := Shadow.PlanRead(fs, off, length);
      forall s | s in slices
        ensures SliceReads(stripeSize, View(), inode, s)
      {
        TileInside(slices, off, off + length, s);
        PlannedSliceReads(stripeSize, View(), inode, off, length, fs, s);
      }
    }

    /** Truncate: every record of the inode is kept, clipped or dropped, in one batch. */
    method Truncate(inode: nat, size: nat)
      requires Valid()
      modifies this`frags, this`history
      ensures Valid() && TruncatesTo(old(View()), View(), inode, size) && history == old(history) + [View()]
    {
      hide SetOk, Placed, StripeStart;
      var next := frags;
      var left := set k | k in frags && k.inode == inode;
      while left != {}
        invariant left <= set k | k in frags && k.inode == inode
        invariant forall k :: k in next ==> k in frags
        invariant forall k :: k in frags && (k.inode != inode || k in left) ==> k in next && next[k] == frags[k]
        invariant forall k :: k in frags && k.inode == inode && k !in left ==> Left(next, k, Truncated(size, frags[k]))
      {
        var k :| k in left;
        assert RecordOk(stripeSize, k, frags[k]);
        left := left - {k};
        if StripeStart(stripeSize, k.stripe) >= size {
          next := next - {k};
        } else {
          var f := frags[k];
          if f.off >= size {
            next := next - {k};
          } else if f.off + f.len > size {
            next := next[k := f.(len := size - f.off)];
          }
        }
      }
      ghost var d := View();
      CommitBatch(next);
      TruncatedOk(stripeSize, d, View(), inode, size);
    }

    /** DeleteInode: every record of the inode goes, as if truncated to nothing. */
    method DeleteInode(inode: nat)
      requires Valid()
      modifies this`frags, this`history
      ensures Valid() && TruncatesTo(old(View()), View(), inode, 0) && history == old(history) + [View()]
    {
      hide SetOk, Placed;
      ghost var d := View();
      var keys := set k | k in frags && k.inode == inode;
      CommitBatch(frags - keys);
      forall k | k in d.frags && k.inode == inode
        ensures Truncated(0, d.frags[k]) == None
      {
        assert RecordOk(stripeSize, k, d.frags[k]);
      }
      TruncatedOk(stripeSize, d, View(), inode, 0);
    }

    /** The fragments of one stripe, as FragmentsOf and the head of Move list them. */
    method StripeList(inode: nat, stripe: nat) returns (fs: seq<Fragment>)
      requires Valid()
      ensures IsStripeList(View(), inode, stripe, fs) && NonEmpty(fs)
    {
      fs := Collect(set k | k in frags && InStripeOf(k, inode, stripe));
      forall f | f in fs
        ensures f.len > 0
      {
        var k :| k in frags && InStripeOf(k, inode, stripe) && frags[k] == f;
        assert RecordOk(stripeSize, k, frags[k]);
      }
    }

    /** Move's loop: re-stamp what is already in the target tier, copy the rest there. */
    method Recopy(inode: nat, stripe: nat, target: Tier, view: seq<Fragment>) returns (news: seq<Fragment>)
      requires Wired() && DiskOk(crc, stripeSize, View())
      requires inode < U64 && stripe < U32 && (target == HOT || target == COLD) && seqGen + |view| < U64
      requires forall q :: q in view ==>
        Placed(View(), q) && 0 < q.len < U32 && Int64(q.off) && (q.tier == HOT || q.tier == COLD)
      modifies this`seqGen, this`history, hot, cold
      ensures Wired() && frags == old(frags) && seqGen == old(seqGen) + |view|
      ensures DiskOk(crc, stripeSize, View()) && DiskGrows(old(View()), View())
      ensures old(history) <= history && DiskSteps(crc, history, |old(history)| - 1)
      ensures |news| == |view| && forall i :: 0 <= i < |view| ==>
        Copies(old(View()), view[i], View(), news[i]) && news[i].tier == target && news[i].stamp == old(seqGen) + 1 + i
    {
      hide SetOk, RecordsOk, Grows, Copies, DiskStep;
      ghost var d0 := View();
      DiskGrowsRefl(d0);
      news := [];
      for i := 0 to |view|
        invariant Wired() && frags == old(frags) && seqGen == old(seqGen) + i && DiskOk(crc, stripeSize, View())
        invariant DiskGrows(d0, View())
        invariant old(history) <= history && DiskSteps(crc, history, |old(history)| - 1)
        invariant |news| == i && forall j :: 0 <= j < i ==>
          Copies(d0, view[j], View(), news[j]) && news[j].tier == target && news[j].stamp == old(seqGen) + 1 + j
      {
        var q := view[i];
        assert q in view;
        ghost var d := View();
        var n := NextSeq();
        StillPlaced(crc, stripeSize, d0, d, q);
        var g: Fragment;
        if q.tier == target {
          g := q.(stamp := n);
          RestampCopies(d0, q, d, g);
        } else {
          g := CopyPiece(inode, stripe, n, target, q, d0);
          DiskGrowsTransitive(d0, d, View());
          forall j | 0 <= j < i
            ensures Copies(d0, view[j], View(), news[j])
          {
            CopiesGrow(crc, stripeSize, d0, view[j], d, View(), news[j]);
          }
        }
        news := news + [g];
      }
    }

    /** Copy one piece: read it, append it to the target tier, fsync. */
    method CopyPiece(inode: nat, stripe: nat, stamp: nat, target: Tier, q: Fragment, ghost d0: Disk)
      returns (g: Fragment)
      requires Wired() && DiskOk(crc, stripeSize, View())
      requires inode < U64 && stripe < U32 && stamp < U64 && (target == HOT || target == COLD)
      requires Placed(d0, q) && Placed(View(), q) && Payload(View(), q) == Payload(d0, q)
      requires 0 < q.len < U32 && Int64(q.off)
      modifies hot, cold, this`history
      ensures Wired() && frags == old(frags) && DiskOk(crc, stripeSize, View()) && DiskGrows(old(View()), View())
      ensures old(history) <= history && DiskSteps(crc, history, |old(history)| - 1)
      ensures Copies(d0, q, View(), g) && g.tier == target && g.stamp == stamp
    {
      hide SetOk, RecordsOk, DiskStep, LastFrame;
      ghost var d := View();
      var buf := SetFor(q.tier).files[q.segment].data[q.segOff..q.segOff + q.len];
      g := WriteRecord(target, Header(inode, stripe, stamp, q.off, |buf|), buf);
      ghost var d1 := View();
      SyncSegment(target, g.segment);
      WrittenGrows(d1, View(), g, buf);
      DiskGrowsTransitive(d, d1, View());
      assert IsSynced(View(), g.tier, g.segment);
    }

    /** Move: rewrite one stripe as the canonical view, all of it in the target tier. */
    method Move(inode: nat, stripe: nat, target: Tier)
      requires Valid() && inode < U64 && stripe < U32 && (target == HOT || target == COLD)
      requires stripeSize < U32 && Int64(StripeStart(stripeSize, stripe + 1)) && seqGen + stripeSize < U64
      modifies this, hot, cold
      ensures Valid() && DiskGrows(old(View()), View())
      ensures old(history) <= history && Trace(crc, old(View()), history[|old(history)| - 1..], View())
      ensures SameFiles(stripeSize, old(View()), View())
      ensures CleanStripe(View(), inode, stripe, target) && SameCoverage(old(View()), View(), inode, stripe)
      ensures Restamps(old(View()), View(), inode, stripe, old(seqGen)) && old(seqGen) <= seqGen
    {
      hide SetOk, Trace, SameFiles, CleanStripe, SameCoverage, IsCanonical, IsStripeList, MovesTo, Restamps, DiskStep;
      ghost var d0, n := View(), |history| - 1;
      var fs := StripeList(inode, stripe);
      var view := CanonicalView(fs);
      ViewPieces(stripeSize, d0, inode, stripe, fs, view);
      var news := Recopy(inode, stripe, target, view);
      ghost var d1, passed := View(), history;
      CommitBatch(Overlay(stripeSize, WithoutStripe(frags, inode, stripe), inode, news));
      SwapOk(crc, stripeSize, d0, d1, View(), inode, stripe, fs, view, news, old(seqGen));
      CommitTrace(crc, passed, n, View());
      MovedFiles(stripeSize, d0, View(), inode, stripe, fs, view, news);
      MovedStripe(stripeSize, d0, View(), inode, stripe, fs, view, news, target);
      MovedRestamps(stripeSize, d0, View(), inode, stripe, fs, view, news, old(seqGen));
    }

    /** GC's scan: the segments of one tier that some record references, and its active one. */
    method ReferencedSegments(t: Tier) returns (refs: set<nat>)
      requires t == HOT || t == COLD
      ensures forall id :: id in refs <==> InUse(View(), t, id)
    {
      var left := frags.Keys;
      refs := {};
      while left != {}
        invariant left <= frags.Keys
        invariant forall k :: k in frags && k !in left && frags[k].tier == t ==> frags[k].segment in refs
        invariant forall id :: id in refs ==> exists k :: k in frags && frags[k].tier == t && frags[k].segment == id
      {
        var k :| k in left;
        left := left - {k};
        if frags[k].tier == t {
          refs := refs + {frags[k].segment};
        }
      }
      if SetFor(t).active.Some? {
        refs := refs + {SetFor(t).active.value};
      }
    }

    /** GC's first pass over one tier: remove every segment not in refs. */
    method RemoveUnreferenced(s: SegmentSet, refs: set<nat>)
      requires s.Valid() && (s.active.Some? ==> s.active.value in refs)
      modifies s
      ensures s.Valid() && s.View() == Kept(old(s.View()), refs)
    {
      hide SetOk;
      var left := s.files.Keys;
      while left != {}
        invariant left <= old(s.files.Keys) && s.Valid() && s.active == old(s.active) && s.nextID == old(s.nextID)
        invariant forall id :: id in s.files <==> id in old(s.files) && (id in left || id in refs)
        invariant forall id :: id in s.files ==> s.files[id] == old(s.files)[id]
      {
        var id :| id in left;
        left := left - {id};
        if id !in refs {
          RemovedOk(s.crc, s.View(), id);
          s.Remove(id);
        }
      }
      assert s.files == Kept(old(s.View()), refs).files;
    }

    /** GC as one step: no read changes, and only segments in use remain. */
    method GC()
      requires Valid()
      modifies hot, cold, this`history
      ensures Valid() && frags == old(frags) && SameFiles(stripeSize, old(View()), View())
      ensures forall t, id :: (t == HOT || t == COLD) ==>
        (id in View().Set(t).files <==> id in old(View()).Set(t).files && InUse(old(View()), t, id))
      ensures forall t, id :: id in View().Set(t).files ==> InUse(View(), t, id) || !(t == HOT || t == COLD)
    {
      hide SetOk;
      ghost var d := View();
      var hotRefs := ReferencedSegments(HOT);
      var coldRefs := ReferencedSegments(COLD);
      RemoveUnreferenced(hot, hotRefs);
      RemoveUnreferenced(cold, coldRefs);
      history := history + [View()];
      CollectedOk(stripeSize, d, View(), hotRefs, coldRefs);
    }
  }

  /** An index over two new, empty directories. */
  method NewIndex(crc: Checksum, width: nat, segmentMax: int) returns (ix: Index)
    requires width > 0
    ensures fresh(ix) && fresh(ix.hot) && fresh(ix.cold) && ix.Valid() && ix.crc == crc && ix.stripeSize == width
    ensures ix.frags == map[] && ix.seqGen == 0
  {
    var hot := new SegmentSet.Open(crc, segmentMax, map[]);
    var cold := new SegmentSet.Open(crc, segmentMax, map[]);
    ix := new Index(crc, width, hot, cold);
  }

  /** e's record is written and its segment is on the list to fsync. */
  ghost predicate Staged(d: Disk, f: Fragment, e: AppendExtent, touched: set<(Tier, nat)>) {
    f.stamp == e.stamp && f.off == e.off && f.tier == e.tier && Written(d, f, e.data) && (f.tier, f.segment) in touched
  }

  lemma StagedGrows(d: Disk, e: Disk, fs: seq<Fragment>, es: seq<AppendExtent>,
                    touched: set<(Tier, nat)>, more: set<(Tier, nat)>)
    requires DiskGrows(d, e) && touched <= more && |fs| == |es|
    requires forall j :: 0 <= j < |fs| ==> Staged(d, fs[j], es[j], touched)
    ensures forall j :: 0 <= j < |fs| ==> Staged(e, fs[j], es[j], more)
  {
    forall j | 0 <= j < |fs|
      ensures Staged(e, fs[j], es[j], more)
    {
      WrittenGrows(d, e, fs[j], es[j].data);
    }
  }

  lemma SyncedStores(crc: Checksum, d: Disk, fs: seq<Fragment>, es: seq<AppendExtent>, touched: set<(Tier, nat)>)
    requires |fs| == |es| && forall j :: 0 <= j < |fs| ==> Staged(d, fs[j], es[j], touched)
    requires forall x :: x in touched ==> IsSynced(d, x.0, x.1)
    ensures StoresAll(d, fs, es)
  {
    forall j | 0 <= j < |es|
      ensures Stores(d, fs[j], es[j])
    {
      assert Staged(d, fs[j], es[j], touched);
      assert IsSynced(d, fs[j].tier, fs[j].segment);
    }
  }

  lemma StoredTier(d: Disk, fs: seq<Fragment>, es: seq<AppendExtent>, tier: Tier)
    requires StoresAll(d, fs, es) && forall i :: 0 <= i < |es| ==> es[i].tier == tier
    ensures forall f :: f in fs ==> f.tier == tier
  {
    forall i | 0 <= i < |fs|
      ensures fs[i].tier == tier
    {
      assert Stores(d, fs[i], es[i]);
    }
  }

  lemma CommitStores(d: Disk, e: Disk, fs: seq<Fragment>, es: seq<AppendExtent>)
    requires e.hot == d.hot && e.cold == d.cold && StoresAll(d, fs, es)
    ensures StoresAll(e, fs, es)
  {
    forall i | 0 <= i < |es|
      ensures Stores(e, fs[i], es[i])
    {
      assert Stores(d, fs[i], es[i]);
    }
  }

  lemma CommitStamps(width: nat, m: map<FragKey, Fragment>, inode: nat, fs: seq<Fragment>, top: nat)
    requires width > 0 && DistinctStamps(fs) && forall f :: f in fs ==> f.off >= 0 && f.stamp <= top
    requires forall k :: k in m ==> k.stamp <= top
    ensures forall k :: k in Overlay(width, m, inode, fs) ==> k.stamp <= top
  {
    OverlayEntries(width, m, inode, fs);
  }

  lemma OneTierStep(crc: Checksum, d: Disk, e: Disk, t: Tier)
    requires (t == HOT || t == COLD) && e == d.With(t, e.Set(t)) && SetStep(crc, d.Set(t), e.Set(t))
    ensures DiskStep(crc, d, e)
  {
  }

  /** File operations alone are a run. */
  lemma StepsTrace(crc: Checksum, history: seq<Disk>, n: nat)
    requires n < |history| && DiskSteps(crc, history, n)
    ensures Trace(crc, history[n], history[n..], history[|history| - 1])
  {
    hide DiskStep;
    var trace := history[n..];
    forall i | 0 <= i < |trace| - 1
      ensures DiskStep(crc, trace[i], trace[i + 1])
    {
      assert DiskStep(crc, history[n + i], history[n + i + 1]);
    }
  }

  /** And so are file operations with a commit at the end. */
  lemma CommitTrace(crc: Checksum, history: seq<Disk>, n: nat, after: Disk)
    requires n < |history| && DiskSteps(crc, history, n) && CommitStep(history[|history| - 1], after)
    ensures Trace(crc, history[n], (history + [after])[n..], after)
  {
    hide DiskStep, CommitStep;
    var trace := (history + [after])[n..];
    forall i | 0 <= i < |trace| - 2
      ensures DiskStep(crc, trace[i], trace[i + 1])
    {
      assert DiskStep(crc, history[n + i], history[n + i + 1]);
    }
    assert trace[|trace| - 2] == history[|history| - 1];
  }

  lemma {:induction false} ChunkCount(width: nat, off: nat, data: seq<byte>)
    requires width > 0
    ensures |Chunks(width, off, data)| <= |data|
    decreases |data|
  {
    if data != [] {
      var n := ChunkLen(width, off, |data|);
      ChunkCount(width, off + n, data[n..]);
    }
  }

  lemma ChunkExtentsOk(width: nat, off: nat, data: seq<byte>, cs: seq<Chunk>, es: seq<AppendExtent>, base: nat,
                       tier: Tier)
    requires width > 0 && Tiling(width, off, data, cs) && |es| == |cs| <= |data|
    requires forall j :: 0 <= j < |cs| ==> es[j] == AppendExtent(base + 1 + j, cs[j].off, cs[j].data, tier)
    requires |data| < U32 && Int64(off + |data|) && (off + |data|) / width < U32 && base + |data| < U64
    requires tier == HOT || tier == COLD
    ensures BatchOk(width, es)
    ensures forall e :: e in es ==> !Straddles(width, e) && base < e.stamp <= base + |cs|
  {
    hide StripeStart;
    forall j | 0 <= j < |cs|
      ensures ExtentOk(es[j]) && es[j].off / width < U32 && !Straddles(width, es[j])
    {
      var c := cs[j];
      assert StripeBounded(width, c);
      assert c.Covers(c.off) && c.Covers(c.off + |c.data| - 1);
      DivMonotone(c.off, off + |data|, width);
    }
  }

  lemma MulMonotone(x: nat, y: nat, w: nat)
    requires x <= y
    ensures x * w <= y * w
  {
  }

  lemma DivMonotone(a: nat, b: nat, width: nat)
    requires width > 0 && a <= b
    ensures a / width <= b / width
  {
    var x, y := a / width, b / width;
    StripeUnique(width, x, a);
    StripeUnique(width, y, b);
    if y < x {
      MulMonotone(y + 1, x, width);
    }
  }

  lemma StampsFresh(width: nat, d: Disk, e: Disk, top: nat, fs: seq<Fragment>, es: seq<AppendExtent>)
    requires RecordsOk(width, d) && forall k :: k in d.frags ==> k.stamp <= top
    requires StoresAll(e, fs, es) && forall j :: 0 <= j < |es| ==> es[j].stamp == top + 1 + j
    ensures Fresh(d, fs)
  {
    assert forall j :: 0 <= j < |fs| ==> Stores(e, fs[j], es[j]);
    forall f, k | f in fs && k in d.frags
      ensures d.frags[k].stamp < f.stamp
    {
      assert RecordOk(width, k, d.frags[k]);
    }
  }

  /** e differs from d in that inode's bytes from off on, which are now data. */
  ghost predicate Overwrites(width: nat, d: Disk, e: Disk, inode: nat, off: nat, data: seq<byte>)
    requires RecordsOk(width, d) && RecordsOk(width, e)
  {
    forall other, p {:trigger Content(width, e, other, p)} ::
      Content(width, e, other, p) == (if other == inode && off <= p < off + |data| then Some(data[p - off])
                                      else Content(width, d, other, p))
  }

  lemma AppendOverwrites(width: nat, d: Disk, e: Disk, inode: nat, off: nat, data: seq<byte>, cs: seq<Chunk>,
                         es: seq<AppendExtent>, fs: seq<Fragment>)
    requires width > 0 && RecordsOk(width, d) && RecordsOk(width, e)
    requires cs == Chunks(width, off, data) && |es| == |cs| && StoresAll(e, fs, es) && Fresh(d, fs)
    requires forall j :: 0 <= j < |cs| ==> es[j].off == cs[j].off && es[j].data == cs[j].data
    requires forall f :: f in fs ==> f.off >= 0
    requires e.frags == Overlay(width, d.frags, inode, fs) && DiskGrows(d, e)
    ensures Overwrites(width, d, e, inode, off, data)
  {
    hide Content, RecordsOk, Overlay, DiskGrows, StoresAll, Fresh;
    forall other, p
      ensures Content(width, e, other, p) == (if other == inode && off <= p < off + |data| then Some(data[p - off])
                                              else Content(width, d, other, p))
    {
      AppendedAt(width, d, e, inode, off, data, cs, es, fs, other, p);
    }
  }

  /** Content after an append: the payload where it was written, the old bytes elsewhere. */
  lemma AppendedAt(width: nat, d: Disk, e: Disk, inode: nat, off: nat, data: seq<byte>, cs: seq<Chunk>,
                   es: seq<AppendExtent>, fs: seq<Fragment>, other: nat, p: int)
    requires width > 0 && RecordsOk(width, d) && RecordsOk(width, e)
    requires cs == Chunks(width, off, data) && |es| == |cs| && StoresAll(e, fs, es) && Fresh(d, fs)
    requires forall j :: 0 <= j < |cs| ==> es[j].off == cs[j].off && es[j].data == cs[j].data
    requires forall f :: f in fs ==> f.off >= 0
    requires e.frags == Overlay(width, d.frags, inode, fs) && DiskGrows(d, e)
    ensures Content(width, e, other, p) ==
      if other == inode && off <= p < off + |data| then Some(data[p - off]) else Content(width, d, other, p)
  {
    hide Overlay, Content, RecordsOk, DiskGrows, Chunks, StoresAll, Fresh, LastCover, ByteOf;
    AppendedContent(width, d, e, inode, fs, other, p);
    if off <= p < off + |data| {
      var i := ChunkLastCover(width, e, off, data, cs, es, fs, p);
    } else {
      NotInChunks(width, e, off, data, cs, es, fs, p);
    }
  }

  lemma ChunkByte(width: nat, off: nat, data: seq<byte>, i: nat, p: int)
    requires width > 0 && i < |Chunks(width, off, data)| && Chunks(width, off, data)[i].Covers(p)
    ensures off <= p < off + |data|
    ensures var c := Chunks(width, off, data)[i]; c.data[p - c.off] == data[p - off]
  {
    hide Chunks;
    ChunksTile(width, off, data);
  }

  lemma ChunkInside(width: nat, off: nat, data: seq<byte>, i: nat)
    requires width > 0 && i < |Chunks(width, off, data)|
    ensures var c := Chunks(width, off, data)[i];
            c.data != [] && off <= c.off && c.off + |c.data| <= off + |data|
  {
    hide Chunks, StripeStart;
    ChunksTile(width, off, data);
    var c := Chunks(width, off, data)[i];
    assert StripeBounded(width, c);
    assert c.Covers(c.off) && c.Covers(c.off + |c.data| - 1);
  }

  lemma ChunkLastCover(width: nat, e: Disk, off: nat, data: seq<byte>, cs: seq<Chunk>, es: seq<AppendExtent>,
                       fs: seq<Fragment>, p: int)
    returns (i: nat)
    requires width > 0 && cs == Chunks(width, off, data) && |es| == |cs| && StoresAll(e, fs, es)
    requires forall j :: 0 <= j < |cs| ==> es[j].off == cs[j].off && es[j].data == cs[j].data
    requires off <= p < off + |data|
    ensures LastCover(fs, i, p) && Placed(e, fs[i]) && ByteOf(e, fs[i], p) == data[p - off]
  {
    hide Chunks;
    i := ChunkAt(width, off, data, p);
    ChunkByte(width, off, data, i, p);
    assert forall j :: 0 <= j < |fs| ==> Stores(e, fs[j], es[j]);
    assert forall j :: 0 <= j < |fs| ==> (fs[j].Covers(p) <==> cs[j].Covers(p));
  }

  lemma NotInChunks(width: nat, e: Disk, off: nat, data: seq<byte>, cs: seq<Chunk>, es: seq<AppendExtent>,
                    fs: seq<Fragment>, p: int)
    requires width > 0 && cs == Chunks(width, off, data) && |es| == |cs| && StoresAll(e, fs, es)
    requires forall j :: 0 <= j < |cs| ==> es[j].off == cs[j].off && es[j].data == cs[j].data
    requires !(off <= p < off + |data|)
    ensures !Covered(fs, p)
  {
    ChunksTile(width, off, data);
    forall i | 0 <= i < |fs|
      ensures !fs[i].Covers(p)
    {
      assert Stores(e, fs[i], es[i]);
      assert cs[i].Covers(p) ==> off <= p < off + |data|;
    }
  }

  // ----- reading by stripes

  predicate InStripes(k: FragKey, inode: nat, first: nat, last: nat) {
    k.inode == inode && first <= k.stripe <= last
  }

  /** fs is exactly the inode's records in stripes first..last. */
  ghost predicate ListsStripes(d: Disk, inode: nat, first: nat, last: nat, fs: seq<Fragment>) {
    && (forall k :: k in d.frags && InStripes(k, inode, first, last) ==> d.frags[k] in fs)
    && (forall f :: f in fs ==> exists k :: k in d.frags && InStripes(k, inode, first, last) && d.frags[k] == f)
  }

  lemma ListedNonEmpty(width: nat, d: Disk, inode: nat, first: nat, last: nat, fs: seq<Fragment>)
    requires RecordsOk(width, d) && ListsStripes(d, inode, first, last, fs)
    ensures NonEmpty(fs)
  {
    forall f | f in fs
      ensures f.len > 0
    {
      var k :| k in d.frags && InStripes(k, inode, first, last) && d.frags[k] == f;
      assert RecordOk(width, k, d.frags[k]);
    }
  }

  lemma CoveringListed(width: nat, d: Disk, inode: nat, off: nat, length: nat, fs: seq<Fragment>, p: nat, k: FragKey)
    requires width > 0 && RecordsOk(width, d) && off <= p < off + length
    requires ListsStripes(d, inode, off / width, (off + length - 1) / width, fs)
    requires k in d.frags && k.inode == inode && d.frags[k].Covers(p)
    ensures d.frags[k] in fs && Covered(fs, p)
  {
    assert RecordOk(width, k, d.frags[k]);
    StripeUnique(width, k.stripe, p);
    DivMonotone(off, p, width);
    DivMonotone(p, off + length - 1, width);
    CoveredMember(fs, d.frags[k], p);
  }

  /** Stripe-local planning is complete: for the bytes of a read, the records of the touched stripes decide exactly as
      all of the inode's records do. */
  lemma StripeLocalPlanning(width: nat, d: Disk, inode: nat, off: nat, length: nat, fs: seq<Fragment>, p: nat)
    requires width > 0 && RecordsOk(width, d) && off <= p < off + length
    requires ListsStripes(d, inode, off / width, (off + length - 1) / width, fs)
    ensures Covered(fs, p) <==> DiskCovers(d, inode, p)
    ensures forall k :: KeyWins(d, inode, p, k) ==> Wins(fs, d.frags[k], p)
    ensures forall f :: Wins(fs, f, p) ==> exists k :: KeyWins(d, inode, p, k) && d.frags[k] == f
  {
    hide RecordsOk;
    forall k | k in d.frags && k.inode == inode && d.frags[k].Covers(p)
      ensures d.frags[k] in fs && Covered(fs, p)
    {
      CoveringListed(width, d, inode, off, length, fs, p, k);
    }
    ListedDecide(d, inode, off / width, (off + length - 1) / width, fs, p);
  }

  lemma ListedDecide(d: Disk, inode: nat, first: nat, last: nat, fs: seq<Fragment>, p: nat)
    requires ListsStripes(d, inode, first, last, fs)
    requires forall k :: k in d.frags && k.inode == inode && d.frags[k].Covers(p) ==> d.frags[k] in fs
    ensures Covered(fs, p) ==> DiskCovers(d, inode, p)
    ensures forall k :: KeyWins(d, inode, p, k) ==> Wins(fs, d.frags[k], p)
    ensures forall f :: Wins(fs, f, p) ==> exists k :: KeyWins(d, inode, p, k) && d.frags[k] == f
  {
    forall f | Wins(fs, f, p)
      ensures exists k :: KeyWins(d, inode, p, k) && d.frags[k] == f
    {
      var k :| k in d.frags && InStripes(k, inode, first, last) && d.frags[k] == f;
      assert KeyWins(d, inode, p, k);
    }
    if Covered(fs, p) {
      var i :| 0 <= i < |fs| && fs[i].Covers(p);
      assert fs[i] in fs;
      var k :| k in d.frags && InStripes(k, inode, first, last) && d.frags[k] == fs[i];
    }
  }

  /** A locator is inside its segment file. */
  predicate Readable(d: Disk, loc: Locator) {
    loc.segment in d.Set(loc.tier).files && 0 <= loc.offset && 0 <= loc.length
    && loc.offset + loc.length <= |d.Set(loc.tier).files[loc.segment].data|
  }

  function LocatorBytes(d: Disk, loc: Locator): (b: seq<byte>)
    requires Readable(d, loc)
    ensures |b| == loc.length
  {
    d.Set(loc.tier).files[loc.segment].data[loc.offset..loc.offset + loc.length]
  }

  /** A slice of a plan tells the file's contents: a hole, or the bytes at its locator. */
  ghost predicate SliceReads(width: nat, d: Disk, inode: nat, s: ReadSlice)
    requires RecordsOk(width, d)
  {
    if s.sparse then forall p :: s.off <= p < s.off + s.len ==> Content(width, d, inode, p) == None
    else Readable(d, s.loc) && s.loc.length == s.len
         && forall p :: s.off <= p < s.off + s.len ==>
              Content(width, d, inode, p) == Some(LocatorBytes(d, s.loc)[p - s.off])
  }

  lemma {:induction false} TileInside(slices: seq<ReadSlice>, lo: int, hi: int, s: ReadSlice)
    requires Tiles(slices, lo, hi) && s in slices
    ensures lo <= s.off && s.off + s.len <= hi && s.len > 0
  {
    var i :| 0 <= i < |slices| && slices[i] == s;
    TileBelow(slices, lo, hi, i);
    TileAbove(slices, lo, hi, i);
  }

  lemma {:induction false} TileBelow(slices: seq<ReadSlice>, lo: int, hi: int, i: nat)
    requires Tiles(slices, lo, hi) && i < |slices|
    ensures lo <= slices[i].off
  {
    if i > 0 {
      TileBelow(slices, lo, hi, i - 1);
      assert slices[i - 1].off + slices[i - 1].len == slices[i - 1 + 1].off;
    }
  }

  lemma {:induction false} TileAbove(slices: seq<ReadSlice>, lo: int, hi: int, i: nat)
    requires Tiles(slices, lo, hi) && i < |slices|
    ensures slices[i].off + slices[i].len <= hi
    decreases |slices| - i
  {
    if i + 1 < |slices| {
      TileAbove(slices, lo, hi, i + 1);
    }
  }

  lemma PlannedSliceReads(width: nat, d: Disk, inode: nat, off: nat, length: nat, fs: seq<Fragment>, s: ReadSlice)
    requires width > 0 && RecordsOk(width, d) && length > 0
    requires ListsStripes(d, inode, off / width, (off + length - 1) / width, fs)
    requires SliceCorrect(fs, s) && off <= s.off && s.off + s.len <= off + length && s.len > 0
    ensures SliceReads(width, d, inode, s)
  {
    hide Content, RecordsOk, ListsStripes;
    if s.sparse {
      forall p: nat | s.off <= p < s.off + s.len
        ensures Content(width, d, inode, p) == None
      {
        StripeLocalPlanning(width, d, inode, off, length, fs, p);
        HoleIsNone(width, d, inode, p);
      }
    } else {
      var f :| f in fs && SliceFrom(f, s) && forall p :: s.off <= p < s.off + s.len ==> Wins(fs, f, p);
      assert Wins(fs, f, s.off) && Wins(fs, f, s.off + s.len - 1);
      WinnerReads(width, d, inode, off, length, fs, f, s.off);
      forall p: nat | s.off <= p < s.off + s.len
        ensures Content(width, d, inode, p) == Some(LocatorBytes(d, s.loc)[p - s.off])
      {
        assert Wins(fs, f, p);
        WinnerReads(width, d, inode, off, length, fs, f, p);
      }
    }
  }

  lemma WinnerReads(width: nat, d: Disk, inode: nat, off: nat, length: nat, fs: seq<Fragment>, f: Fragment, p: nat)
    requires width > 0 && RecordsOk(width, d) && off <= p < off + length
    requires ListsStripes(d, inode, off / width, (off + length - 1) / width, fs) && Wins(fs, f, p)
    ensures Placed(d, f) && Content(width, d, inode, p) == Some(ByteOf(d, f, p))
  {
    StripeLocalPlanning(width, d, inode, off, length, fs, p);
    var k :| KeyWins(d, inode, p, k) && d.frags[k] == f;
    WinnerDecides(width, d, inode, p, k);
  }

  // ----- move

  /** Every byte of every file reads the same. */
  ghost predicate SameFiles(width: nat, d: Disk, e: Disk)
    requires RecordsOk(width, d) && RecordsOk(width, e)
  {
    forall inode, p :: Content(width, e, inode, p) == Content(width, d, inode, p)
  }

  predicate InStripeKey(d: Disk, k: FragKey, inode: nat, stripe: nat) { k in d.frags && InStripeOf(k, inode, stripe) }

  /** The stripe's records do not overlap and are all in one tier. */
  ghost predicate CleanStripe(d: Disk, inode: nat, stripe: nat, target: Tier) {
    && (forall k :: k in d.frags && InStripeOf(k, inode, stripe) ==> d.frags[k].tier == target)
    && (forall j, k :: InStripeKey(d, j, inode, stripe) && InStripeKey(d, k, inode, stripe) && j != k ==>
          Apart(d.frags[j], d.frags[k]))
  }

  ghost predicate StripeCovers(d: Disk, inode: nat, stripe: nat, p: int) {
    exists k :: k in d.frags && InStripeOf(k, inode, stripe) && d.frags[k].Covers(p)
  }

  ghost predicate SameCoverage(d: Disk, e: Disk, inode: nat, stripe: nat) {
    forall p :: StripeCovers(e, inode, stripe, p) <==> StripeCovers(d, inode, stripe, p)
  }

  lemma StillPlaced(crc: Checksum, width: nat, d: Disk, e: Disk, q: Fragment)
    requires DiskOk(crc, width, e) && DiskGrows(d, e) && Placed(d, q)
    ensures Placed(e, q) && Payload(e, q) == Payload(d, q)
  {
    FileBound(crc, e, d, q);
    PlacedGrows(d, e, q);
  }

  lemma RestampCopies(d: Disk, q: Fragment, e: Disk, g: Fragment)
    requires Placed(d, q) && Placed(e, q) && Payload(e, q) == Payload(d, q) && g == q.(stamp := g.stamp)
    ensures Copies(d, q, e, g)
  {
  }

  lemma CopiesGrow(crc: Checksum, width: nat, d0: Disk, q: Fragment, d: Disk, e: Disk, g: Fragment)
    requires Copies(d0, q, d, g) && DiskOk(crc, width, e) && DiskGrows(d, e)
    ensures Copies(d0, q, e, g)
  {
    StillPlaced(crc, width, d, e, g);
  }

  /** The pieces of a stripe's canonical view are placed, inside the stripe and at most one per byte. */
  lemma ViewPieces(width: nat, d: Disk, inode: nat, stripe: nat, fs: seq<Fragment>, view: seq<Fragment>)
    requires width > 0 && RecordsOk(width, d) && IsStripeList(d, inode, stripe, fs) && IsCanonical(fs, view)
    ensures forall q :: q in view ==>
      Placed(d, q) && q.off >= 0 && 0 < q.len <= width && InStripe(width, stripe, q) && (q.tier == HOT
          || q.tier == COLD)
    ensures |view| <= width
  {
    forall q | q in view
      ensures Placed(d, q) && q.off >= 0 && 0 < q.len <= width && InStripe(width, stripe, q)
      ensures (q.tier == HOT || q.tier == COLD)
    {
      ViewPiece(width, d, inode, stripe, fs, q);
    }
    if |view| > 0 {
      OrderedSpread(view, |view| - 1);
      assert view[0] in view && view[|view| - 1] in view;
    }
  }

  lemma ViewPiece(width: nat, d: Disk, inode: nat, stripe: nat, fs: seq<Fragment>, q: Fragment)
    requires width > 0 && RecordsOk(width, d) && IsStripeList(d, inode, stripe, fs) && WinningPiece(fs, q)
    ensures Placed(d, q) && q.off >= 0 && 0 < q.len <= width && InStripe(width, stripe, q)
    ensures (q.tier == HOT || q.tier == COLD)
  {
    var f :| f in fs && PieceOf(q, f) && forall x :: q.Covers(x) ==> Wins(fs, f, x);
    var k :| k in d.frags && InStripeOf(k, inode, stripe) && d.frags[k] == f;
    assert RecordOk(width, k, f) && Placed(d, f);
  }

  lemma {:induction false} OrderedSpread(view: seq<Fragment>, i: nat)
    requires Ordered(view) && i < |view|
    ensures view[i].off >= view[0].off + i
  {
    if i > 0 {
      OrderedSpread(view, i - 1);
      assert view[i - 1] in view;
    }
  }

  function WithoutStripe(m: map<FragKey, Fragment>, inode: nat, stripe: nat): map<FragKey, Fragment> {
    map k | k in m && !InStripeOf(k, inode, stripe) :: m[k]
  }

  /** The new records are sound and carry the stripe's key. */
  lemma NewsOk(width: nat, d: Disk, mid: Disk, inode: nat, stripe: nat, view: seq<Fragment>, news: seq<Fragment>,
               base: nat, g: Fragment)
    requires width > 0 && |news| == |view| && g in news
    requires forall i :: 0 <= i < |view| ==>
      Copies(d, view[i], mid, news[i]) && (news[i].tier == HOT || news[i].tier == COLD) && news[i].stamp == base + 1 + i
    requires forall q :: q in view ==> q.off >= 0 && q.len > 0 && InStripe(width, stripe, q)
    ensures g.off >= 0 && KeyFor(width, inode, g) == FragKey(inode, stripe, g.stamp)
    ensures RecordOk(width, KeyFor(width, inode, g), g) && Placed(mid, g) && base < g.stamp <= base + |view|
  {
    var i :| 0 <= i < |news| && news[i] == g;
    assert Copies(d, view[i], mid, news[i]) && view[i] in view;
    StripeUnique(width, stripe, g.off);
  }

  /** The batch that swaps the stripe's records keeps the disk in order and does what MovesTo says. */
  lemma SwapOk(crc: Checksum, width: nat, d: Disk, mid: Disk, e: Disk, inode: nat, stripe: nat,
               fs: seq<Fragment>, view: seq<Fragment>, news: seq<Fragment>, base: nat)
    requires DiskOk(crc, width, d) && DiskOk(crc, width, mid) && DiskGrows(d, mid) && mid.frags == d.frags
    requires IsStripeList(d, inode, stripe, fs) && IsCanonical(fs, view) && |news| == |view|
    requires forall k :: k in d.frags ==> k.stamp <= base
    requires forall i :: 0 <= i < |view| ==>
      Copies(d, view[i], mid, news[i]) && (news[i].tier == HOT || news[i].tier == COLD) && news[i].stamp == base + 1 + i
    requires forall q :: q in view ==> q.off >= 0 && q.len > 0 && InStripe(width, stripe, q)
    requires forall g :: g in news ==> g.off >= 0
    requires e.hot == mid.hot && e.cold == mid.cold
    requires e.frags == Overlay(width, WithoutStripe(d.frags, inode, stripe), inode, news)
    ensures DiskOk(crc, width, e) && MovesTo(width, d, e, inode, stripe, fs, view, news)
    ensures forall k :: k in e.frags ==> k.stamp <= base + |view|
  {
    hide SetOk, IsStripeList, IsCanonical, Overlay, InStripe, RecordOk, KeyFor, Payload, InStripeOf, WithoutStripe,
         Copies;
    forall g | g in news
      ensures KeyFor(width, inode, g) == FragKey(inode, stripe, g.stamp)
        && RecordOk(width, FragKey(inode, stripe, g.stamp), g) && Placed(mid, g) && g.stamp <= base + |view|
    {
      NewsOk(width, d, mid, inode, stripe, view, news, base, g);
    }
    SwapEntries(width, d.frags, inode, stripe, news, e.frags);
    forall k | k in e.frags
      ensures RecordOk(width, k, e.frags[k]) && Placed(mid, e.frags[k]) && k.stamp <= base + |view|
    {
      if !InStripeOf(k, inode, stripe) {
        assert k in d.frags && Placed(mid, d.frags[k]);
      }
    }
    forall i | 0 <= i < |view|
      ensures Copies(d, view[i], e, news[i])
    {
      SameSetsCopies(d, view[i], mid, e, news[i]);
    }
  }

  /** Dropping a stripe's keys and setting the new ones leaves exactly the new ones in the stripe. */
  lemma SwapEntries(width: nat, m: map<FragKey, Fragment>, inode: nat, stripe: nat, news: seq<Fragment>,
                    after: map<FragKey, Fragment>)
    requires width > 0 && DistinctStamps(news)
    requires forall g :: g in news ==> g.off >= 0 && KeyFor(width, inode, g) == FragKey(inode, stripe, g.stamp)
    requires after == Overlay(width, WithoutStripe(m, inode, stripe), inode, news)
    ensures forall k :: k in m && !InStripeOf(k, inode, stripe) ==> k in after && after[k] == m[k]
    ensures forall k :: k in after && !InStripeOf(k, inode, stripe) ==> k in m
    ensures forall k :: k in after && InStripeOf(k, inode, stripe) ==>
      after[k] in news && k == FragKey(inode, stripe, after[k].stamp)
    ensures forall g :: g in news ==>
      FragKey(inode, stripe, g.stamp) in after && after[FragKey(inode, stripe, g.stamp)] == g
  {
    hide Overlay, KeyFor;
    OverlayEntries(width, WithoutStripe(m, inode, stripe), inode, news);
  }

  lemma SameSetsCopies(d: Disk, q: Fragment, mid: Disk, e: Disk, g: Fragment)
    requires Copies(d, q, mid, g) && e.hot == mid.hot && e.cold == mid.cold
    ensures Copies(d, q, e, g)
  {
  }

  lemma MovedFiles(width: nat, d: Disk, e: Disk, inode: nat, stripe: nat,
                   fs: seq<Fragment>, view: seq<Fragment>, news: seq<Fragment>)
    requires width > 0 && RecordsOk(width, d) && RecordsOk(width, e)
    requires MovesTo(width, d, e, inode, stripe, fs, view, news)
    ensures SameFiles(width, d, e)
  {
    hide Content, RecordsOk, MovesTo;
    forall other, p
      ensures Content(width, e, other, p) == Content(width, d, other, p)
    {
      MovedContent(width, d, e, inode, stripe, fs, view, news, other, p);
    }
  }

  /** The stripe's records all carry stamps above base; the others are untouched. */
  ghost predicate Restamps(d: Disk, e: Disk, inode: nat, stripe: nat, base: nat) {
    && (forall k :: k in e.frags && InStripeOf(k, inode, stripe) ==> k.stamp > base)
    && (forall k :: !InStripeOf(k, inode, stripe) ==>
          (k in d.frags <==> k in e.frags) && (k in d.frags ==> e.frags[k] == d.frags[k]))
  }

  lemma MovedRestamps(width: nat, d: Disk, e: Disk, inode: nat, stripe: nat,
                      fs: seq<Fragment>, view: seq<Fragment>, news: seq<Fragment>, base: nat)
    requires width > 0 && RecordsOk(width, e) && MovesTo(width, d, e, inode, stripe, fs, view, news)
    requires forall i :: 0 <= i < |news| ==> news[i].stamp == base + 1 + i
    ensures Restamps(d, e, inode, stripe, base)
  {
    forall k | k in e.frags && InStripeOf(k, inode, stripe)
      ensures k.stamp > base
    {
      assert RecordOk(width, k, e.frags[k]) && e.frags[k] in news;
    }
  }

  lemma MovedStripe(width: nat, d: Disk, e: Disk, inode: nat, stripe: nat,
                    fs: seq<Fragment>, view: seq<Fragment>, news: seq<Fragment>, target: Tier)
    requires width > 0 && RecordsOk(width, d) && RecordsOk(width, e)
    requires MovesTo(width, d, e, inode, stripe, fs, view, news)
    requires forall i :: 0 <= i < |news| ==> news[i].tier == target
    ensures CleanStripe(e, inode, stripe, target) && SameCoverage(d, e, inode, stripe)
  {
    forall j, k | j in e.frags && k in e.frags && InStripeOf(j, inode, stripe) && InStripeOf(k, inode, stripe) && j != k
      ensures Apart(e.frags[j], e.frags[k])
    {
      MovedApart(width, d, e, inode, stripe, fs, view, news, j, k);
    }
    forall p
      ensures StripeCovers(e, inode, stripe, p) <==> StripeCovers(d, inode, stripe, p)
    {
      MovedCoverage(width, d, e, inode, stripe, fs, view, news, p);
    }
  }

  lemma MovedApart(width: nat, d: Disk, e: Disk, inode: nat, stripe: nat,
                   fs: seq<Fragment>, view: seq<Fragment>, news: seq<Fragment>, j: FragKey, k: FragKey)
    requires width > 0 && RecordsOk(width, e) && MovesTo(width, d, e, inode, stripe, fs, view, news)
    requires j in e.frags && k in e.frags && InStripeOf(j, inode, stripe) && InStripeOf(k, inode, stripe) && j != k
    ensures Apart(e.frags[j], e.frags[k])
  {
    assert RecordOk(width, j, e.frags[j]) && RecordOk(width, k, e.frags[k]);
    var a :| 0 <= a < |news| && news[a] == e.frags[j];
    var b :| 0 <= b < |news| && news[b] == e.frags[k];
    assert Copies(d, view[a], e, news[a]) && Copies(d, view[b], e, news[b]);
    assert a < b || b < a;
  }

  lemma MovedCoverage(width: nat, d: Disk, e: Disk, inode: nat, stripe: nat,
                      fs: seq<Fragment>, view: seq<Fragment>, news: seq<Fragment>, p: int)
    requires width > 0 && MovesTo(width, d, e, inode, stripe, fs, view, news)
    ensures StripeCovers(e, inode, stripe, p) <==> StripeCovers(d, inode, stripe, p)
  {
    if StripeCovers(e, inode, stripe, p) {
      var k :| k in e.frags && InStripeOf(k, inode, stripe) && e.frags[k].Covers(p);
      NewCoversOld(width, d, e, inode, stripe, fs, view, news, k, p);
    }
    if StripeCovers(d, inode, stripe, p) {
      var k :| k in d.frags && InStripeOf(k, inode, stripe) && d.frags[k].Covers(p);
      CoveredMember(fs, d.frags[k], p);
      assert Covered(view, p);
      var i :| 0 <= i < |view| && view[i].Covers(p);
      assert Copies(d, view[i], e, news[i]) && news[i] in news;
    }
  }

  // ----- garbage collection

  /** Some record's payload is in the segment, or the tier is writing to it. */
  ghost predicate InUse(d: Disk, t: Tier, id: nat) {
    (exists k :: k in d.frags && d.frags[k].tier == t && d.frags[k].segment == id) || d.Set(t).active == Some(id)
  }

  function Kept(s: SegSet, refs: set<nat>): SegSet {
    s.(files := map id | id in s.files && id in refs :: s.files[id])
  }

  lemma CollectedOk(width: nat, d: Disk, e: Disk, hotRefs: set<nat>, coldRefs: set<nat>)
    requires width > 0 && RecordsOk(width, d) && e.frags == d.frags
    requires e.hot == Kept(d.hot, hotRefs) && e.cold == Kept(d.cold, coldRefs)
    requires forall id :: id in hotRefs <==> InUse(d, HOT, id)
    requires forall id :: id in coldRefs <==> InUse(d, COLD, id)
    ensures RecordsOk(width, e) && SameFiles(width, d, e)
  {
    hide Content;
    forall k | k in d.frags
      ensures Placed(e, d.frags[k]) && Payload(e, d.frags[k]) == Payload(d, d.frags[k])
    {
      assert RecordOk(width, k, d.frags[k]) && Placed(d, d.frags[k]);
      assert InUse(d, d.frags[k].tier, d.frags[k].segment);
    }
    forall inode, p
      ensures Content(width, e, inode, p) == Content(width, d, inode, p)
    {
      UntouchedContent(width, d, e, inode, p);
    }
  }

  lemma ActiveLinked(crc: Checksum, s: SegSet)
    requires SetOk(crc, s) && s.active.Some?
    ensures s.active.value in s.files && s.files[s.active.value].linked
  {
  }
}
