/** How the index and the write-back machine stay alike while stripes move under the buffer. */
module Tracking {
  import opened Bytes
  import opened Records
  import opened SegmentSets
  import opened Disks
  import opened Stripes
  import opened Extents
  import opened Rewrites
  import opened Indexes
  import opened Coalescers
  import opened CoalescerLinks
  import opened CoalescerMemory
  import opened CoalescerDurable
  import opened CoalescerRefinement
  import opened CoalescerRuns
  import opened CoalescerSince
  import opened Handles
  import opened Layers
  import opened Persistence

  // ----- two sets of extents that read alike at one offset

  ghost function UpTo(es: set<Extent>, top: nat): set<Extent> { set x | x in es && x.stamp <= top }

  /** Above top both have the same extents over p; up to top they read the same there. */
  ghost predicate AlikeAt(a: set<Extent>, b: set<Extent>, p: int, top: nat) {
    && (forall x: Extent :: x.Covers(p) && x.stamp > top ==> (x in a <==> x in b))
    && (forall v :: ReadsByte(UpTo(a, top), p, v) <==> ReadsByte(UpTo(b, top), p, v))
  }

  lemma AlikeReads(a: set<Extent>, b: set<Extent>, p: int, top: nat, v: Option<byte>)
    requires AlikeAt(a, b, p, top) && ReadsByte(a, p, v)
    ensures ReadsByte(b, p, v)
  {
    if v.Some? && exists x :: Newest(a, x, p) && x.At(p) == v.value && x.stamp > top {
      var x :| Newest(a, x, p) && x.At(p) == v.value && x.stamp > top;
      assert Newest(b, x, p);
    } else {
      LowReads(a, p, top, v);
      assert ReadsByte(UpTo(b, top), p, v);
      assert forall x: Extent :: x.Covers(p) ==> (x in UpTo(b, top) <==> x in b) by {
        NoneAbove(a, p, top, v);
      }
      ReadsByteLocal(UpTo(b, top), b, p, v);
    }
  }

  lemma NoneAbove(a: set<Extent>, p: int, top: nat, v: Option<byte>)
    requires ReadsByte(a, p, v) && !(v.Some? && exists x :: Newest(a, x, p) && x.At(p) == v.value && x.stamp > top)
    ensures forall x :: x in a && x.Covers(p) ==> x.stamp <= top
  {
    if v.Some? {
      var x :| Newest(a, x, p) && x.At(p) == v.value;
    }
  }

  lemma LowReads(a: set<Extent>, p: int, top: nat, v: Option<byte>)
    requires ReadsByte(a, p, v) && !(v.Some? && exists x :: Newest(a, x, p) && x.At(p) == v.value && x.stamp > top)
    ensures ReadsByte(UpTo(a, top), p, v)
  {
    NoneAbove(a, p, top, v);
    ReadsByteLocal(a, UpTo(a, top), p, v);
  }

  lemma AlikeBoth(a: set<Extent>, b: set<Extent>, p: int, top: nat)
    requires AlikeAt(a, b, p, top)
    ensures AlikeAt(b, a, p, top) && forall v :: ReadsByte(a, p, v) <==> ReadsByte(b, p, v)
  {
    forall v
      ensures ReadsByte(a, p, v) <==> ReadsByte(b, p, v)
    {
      if ReadsByte(a, p, v) {
        AlikeReads(a, b, p, top, v);
      }
      if ReadsByte(b, p, v) {
        AlikeReads(b, a, p, top, v);
      }
    }
  }

  lemma LocalBoth(a: set<Extent>, b: set<Extent>, p: int)
    requires forall x: Extent :: x.Covers(p) ==> (x in a <==> x in b)
    ensures forall v :: ReadsByte(a, p, v) <==> ReadsByte(b, p, v)
  {
    forall v
      ensures ReadsByte(a, p, v) <==> ReadsByte(b, p, v)
    {
      if ReadsByte(a, p, v) {
        ReadsByteLocal(a, b, p, v);
      }
      if ReadsByte(b, p, v) {
        ReadsByteLocal(b, a, p, v);
      }
    }
  }

  /** Only the extents over p matter. */
  lemma AlikeLocal(a: set<Extent>, b: set<Extent>, a': set<Extent>, b': set<Extent>, p: int, top: nat)
    requires AlikeAt(a, b, p, top)
    requires forall x: Extent :: x.Covers(p) ==> (x in a <==> x in a') && (x in b <==> x in b')
    ensures AlikeAt(a', b', p, top)
  {
    hide ReadsByte;
    LocalBoth(UpTo(a, top), UpTo(a', top), p);
    LocalBoth(UpTo(b, top), UpTo(b', top), p);
  }

  /** Extents newer than top over p may join both. */
  lemma AlikeAdd(a: set<Extent>, b: set<Extent>, c: set<Extent>, p: int, top: nat)
    requires AlikeAt(a, b, p, top) && forall x :: x in c && x.Covers(p) ==> x.stamp > top
    ensures AlikeAt(a + c, b + c, p, top)
  {
    hide ReadsByte;
    LocalBoth(UpTo(a, top), UpTo(a + c, top), p);
    LocalBoth(UpTo(b, top), UpTo(b + c, top), p);
  }

  lemma CutBack(es: set<Extent>, size: nat, p: int, v: Option<byte>)
    requires ReadsByte(CutSet(es, size), p, v) && p < size
    ensures ReadsByte(es, p, v)
  {
    if v.Some? {
      var g :| Newest(CutSet(es, size), g, p) && g.At(p) == v.value;
      var e := CutFrom(es, size, g);
      forall z | z in es && z.Covers(p)
        ensures z.stamp <= e.stamp
      {
        assert z.Below(size) in CutSet(es, size) && z.Below(size).Covers(p);
      }
      assert Newest(es, e, p) && e.At(p) == g.At(p);
    } else {
      forall z | z in es
        ensures !z.Covers(p)
      {
        if z.Covers(p) {
          assert z.Below(size) in CutSet(es, size) && z.Below(size).Covers(p);
        }
      }
    }
  }

  lemma CutBoth(es: set<Extent>, size: nat, p: int)
    requires p < size
    ensures forall v :: ReadsByte(CutSet(es, size), p, v) <==> ReadsByte(es, p, v)
  {
    forall v
      ensures ReadsByte(CutSet(es, size), p, v) <==> ReadsByte(es, p, v)
    {
      if ReadsByte(es, p, v) {
        ReadsByteCut(es, size, p, v);
      }
      if ReadsByte(CutSet(es, size), p, v) {
        CutBack(es, size, p, v);
      }
    }
  }

  lemma CutUpTo(es: set<Extent>, size: nat, top: nat)
    ensures UpTo(CutSet(es, size), top) == CutSet(UpTo(es, top), size)
  {
  }

  /** A cut leaves alike what was alike below it, and nothing above it. */
  lemma AlikeCut(a: set<Extent>, b: set<Extent>, size: nat, p: int, top: nat)
    requires AlikeAt(a, b, p, top)
    ensures AlikeAt(CutSet(a, size), CutSet(b, size), p, top)
  {
    if p < size {
      hide ReadsByte;
      CutUpTo(a, size, top);
      CutUpTo(b, size, top);
      CutBoth(UpTo(a, top), size, p);
      CutBoth(UpTo(b, top), size, p);
      forall x: Extent | x.Covers(p) && x.stamp > top
        ensures x in CutSet(a, size) <==> x in CutSet(b, size)
      {
        if x in CutSet(a, size) {
          var e := CutFrom(a, size, x);
          assert e in b;
        }
        if x in CutSet(b, size) {
          var e := CutFrom(b, size, x);
          assert e in a;
        }
      }
    } else {
      NothingPast(a, size, p);
      NothingPast(b, size, p);
      AlikeEmpty(p, top);
      AlikeLocal({}, {}, CutSet(a, size), CutSet(b, size), p, top);
    }
  }

  lemma NothingPast(es: set<Extent>, size: nat, p: int)
    requires p >= size
    ensures forall x :: x in CutSet(es, size) ==> !x.Covers(p)
  {
  }

  lemma AlikeEmpty(p: int, top: nat)
    ensures AlikeAt({}, {}, p, top)
  {
  }

  /** Sets that read the same and have nothing above top are alike. */
  lemma AlikeTop(a: set<Extent>, b: set<Extent>, p: int, top: nat)
    requires (forall x :: x in a || x in b ==> x.stamp <= top) && forall v :: ReadsByte(a, p, v) <==> ReadsByte(b, p, v)
    ensures AlikeAt(a, b, p, top)
  {
    assert UpTo(a, top) == a && UpTo(b, top) == b;
  }

  // ----- one inode

  /** Whatever is in memory over p is newer than top. */
  ghost predicate NewerThan(s: State, i: nat, p: int, top: nat) {
    forall c, x :: LiveExtent(s, c, x) && InodeBatch(s, c, i) && x.Covers(p) ==> x.stamp > top
  }

  ghost predicate Tracks(s: State, stored: set<Extent>, i: nat, p: int, top: nat) {
    top <= s.seqGen && AlikeAt(stored, StoredOf(s, i), p, top) && NewerThan(s, i, p, top)
  }

  ghost predicate TracksAt(s: State, stored: set<Extent>, i: nat, p: int) {
    exists top: nat :: Tracks(s, stored, i, p, top)
  }

  /** Stamps on disk are issued, unique, and shared with memory only by what the machine has stored itself. */
  ghost predicate Known(s: State, stored: set<Extent>, i: nat) {
    && OnePerStamp(stored) && (forall g :: g in stored ==> g.stamp <= s.seqGen)
    && (forall g, c, x :: g in stored && LiveExtent(s, c, x) && g.stamp == x.stamp ==> g in StoredOf(s, i))
  }

  /** The disk's extents of a file read, alone and under the buffer, as the machine's. */
  ghost predicate InodeInStep(s: State, stored: set<Extent>, i: nat) {
    if i in s.files then Known(s, stored, i) && forall p :: TracksAt(s, stored, i, p) else stored == {}
  }

  /** What is in memory after a step was there before, or is new. */
  ghost predicate LiveFrom(s: State, n: State, i: nat) {
    && s.seqGen <= n.seqGen
    && (forall c, x :: LiveExtent(n, c, x) ==> x.stamp > s.seqGen || LiveStamp(s, c, x.stamp))
    && (forall c, x, p :: LiveExtent(n, c, x) && InodeBatch(n, c, i) && x.Covers(p) ==>
          x.stamp > s.seqGen || LiveOver(s, c, i, p, x.stamp))
  }

  ghost predicate LiveStamp(s: State, c: nat, stamp: nat) { exists y :: LiveExtent(s, c, y) && y.stamp == stamp }

  ghost predicate LiveOver(s: State, c: nat, i: nat, p: int, stamp: nat) {
    exists y :: LiveExtent(s, c, y) && InodeBatch(s, c, i) && y.Covers(p) && y.stamp == stamp
  }

  lemma TracksFrom(s: State, n: State, stored: set<Extent>, after: set<Extent>, i: nat, p: int, top: nat)
    requires Tracks(s, stored, i, p, top) && LiveFrom(s, n, i) && AlikeAt(after, StoredOf(n, i), p, top)
    ensures TracksAt(n, after, i, p)
  {
    hide AlikeAt;
    forall c, x | LiveExtent(n, c, x) && InodeBatch(n, c, i) && x.Covers(p)
      ensures x.stamp > top
    {
      if x.stamp <= s.seqGen {
        var y :| LiveExtent(s, c, y) && InodeBatch(s, c, i) && y.Covers(p) && y.stamp == x.stamp;
      }
    }
    assert Tracks(n, after, i, p, top);
  }

  lemma KnownFrom(s: State, n: State, stored: set<Extent>, after: set<Extent>, i: nat)
    requires Known(s, stored, i) && LiveFrom(s, n, i) && OnePerStamp(after)
    requires forall g :: g in after ==>
      exists h :: h in stored && h.stamp == g.stamp && (h in StoredOf(s, i) ==> g in StoredOf(n, i))
    ensures Known(n, after, i)
  {
    hide OnePerStamp;
    forall g, c, x | g in after && LiveExtent(n, c, x) && g.stamp == x.stamp
      ensures g in StoredOf(n, i)
    {
      var h :| h in stored && h.stamp == g.stamp && (h in StoredOf(s, i) ==> g in StoredOf(n, i));
      var y :| LiveExtent(s, c, y) && y.stamp == x.stamp;
    }
  }

  /** A step that changes neither what is stored nor, but for new stamps, what is in memory. */
  lemma SameInStep(s: State, n: State, stored: set<Extent>, i: nat)
    requires InodeInStep(s, stored, i) && LiveFrom(s, n, i) && StoredOf(n, i) == StoredOf(s, i)
    requires (i in n.files <==> i in s.files)
    ensures InodeInStep(n, stored, i)
  {
    hide AlikeAt, LiveFrom, Known, Tracks;
    if i in s.files {
      KnownSame(s, n, stored, i);
      forall p
        ensures TracksAt(n, stored, i, p)
      {
        assert TracksAt(s, stored, i, p);
        var top: nat :| Tracks(s, stored, i, p, top);
        TrackedAlike(s, stored, i, p, top);
        TracksFrom(s, n, stored, stored, i, p, top);
      }
    }
  }

  lemma TrackedAlike(s: State, stored: set<Extent>, i: nat, p: int, top: nat)
    requires Tracks(s, stored, i, p, top)
    ensures AlikeAt(stored, StoredOf(s, i), p, top)
  {
  }

  lemma KnownSame(s: State, n: State, stored: set<Extent>, i: nat)
    requires Known(s, stored, i) && LiveFrom(s, n, i) && StoredOf(n, i) == StoredOf(s, i)
    ensures Known(n, stored, i)
  {
    hide LiveFrom;
    KnownFrom(s, n, stored, stored, i);
  }

  // ----- where memory comes from, step by step

  lemma QuietFrom(s: State, n: State, i: nat)
    requires Links(s) && Quiet(s, n)
    ensures LiveFrom(s, n, i)
  {
    forall c, x | LiveExtent(n, c, x)
      ensures LiveStamp(s, c, x.stamp) && (InodeBatch(n, c, i) ==> InodeBatch(s, c, i))
    {
      assert LiveExtent(s, c, x);
      OwnerOk(s, c);
    }
    forall c, x, p | LiveExtent(n, c, x) && InodeBatch(n, c, i) && x.Covers(p)
      ensures LiveOver(s, c, i, p, x.stamp)
    {
      assert LiveExtent(s, c, x) && InodeBatch(s, c, i);
    }
  }

  lemma SameBatchesFrom(s: State, n: State, i: nat)
    requires n.batches == s.batches && n.bufs == s.bufs && s.seqGen <= n.seqGen
    ensures LiveFrom(s, n, i)
  {
    forall c, x | LiveExtent(n, c, x)
      ensures LiveStamp(s, c, x.stamp)
    {
      assert LiveExtent(s, c, x);
    }
    forall c, x, p | LiveExtent(n, c, x) && InodeBatch(n, c, i) && x.Covers(p)
      ensures LiveOver(s, c, i, p, x.stamp)
    {
      assert LiveExtent(s, c, x) && InodeBatch(s, c, i);
    }
  }

  lemma AppendFrom(cfg: Config, s: State, t: nat, id0: nat, i: nat)
    requires Links(s) && cfg.width > 0 && CanAppend(s, t, id0)
    ensures LiveFrom(s, DoAppend(cfg, s, t, id0), i)
  {
    hide Chunks;
    var n, w := DoAppend(cfg, s, t, id0), s.threads[t];
    ThreadOk(s, t);
    if s.bufs[w.buf].current.Some? {
      CurrentOk(s, w.buf);
    }
    forall c, x | LiveExtent(n, c, x) && x.stamp <= s.seqGen
      ensures LiveExtent(s, c, x) && (InodeBatch(n, c, i) ==> InodeBatch(s, c, i))
    {
    }
    OldFrom(s, n, i);
  }

  lemma OldFrom(s: State, n: State, i: nat)
    requires s.seqGen <= n.seqGen
    requires forall c, x :: LiveExtent(n, c, x) && x.stamp <= s.seqGen ==>
      LiveExtent(s, c, x) && (InodeBatch(n, c, i) ==> InodeBatch(s, c, i))
    ensures LiveFrom(s, n, i)
  {
    hide LiveExtent, InodeBatch;
    forall c, x | LiveExtent(n, c, x) && x.stamp <= s.seqGen
      ensures LiveStamp(s, c, x.stamp)
    {
      assert LiveExtent(s, c, x);
    }
    forall c, x, p | LiveExtent(n, c, x) && InodeBatch(n, c, i) && x.Covers(p) && x.stamp <= s.seqGen
      ensures LiveOver(s, c, i, p, x.stamp)
    {
      assert LiveExtent(s, c, x) && InodeBatch(s, c, i);
    }
  }

  lemma DropEmptyFrom(s: State, t: nat, i: nat)
    requires Links(s) && CanDropEmpty(s, t)
    ensures LiveFrom(s, DoDropEmpty(s, t), i)
  {
    DropEmptyLive(s, t);
    var n := DoDropEmpty(s, t);
    forall c, x | LiveExtent(n, c, x)
      ensures LiveExtent(s, c, x) && (InodeBatch(n, c, i) ==> InodeBatch(s, c, i))
    {
      OwnerOk(s, c);
    }
    OldFrom(s, n, i);
  }

  lemma ResizeFrom(s: State, j: nat, size: nat, i: nat)
    requires Links(s) && CanResize(s, j, size) && size < StatSize(s, j)
    ensures LiveFrom(s, DoResize(s, j, size), i)
  {
    ResizeLive(s, j, size);
    var n := DoResize(s, j, size);
    forall c, x | LiveExtent(n, c, x)
      ensures LiveStamp(s, c, x.stamp)
    {
      var y :| LiveExtent(s, c, y) && x.stamp == y.stamp && |x.data| <= |y.data|;
    }
    forall c, x, p | LiveExtent(n, c, x) && InodeBatch(n, c, i) && x.Covers(p)
      ensures LiveOver(s, c, i, p, x.stamp)
    {
      OwnerOk(s, c);
      ResizedOver(s, j, size, c, x, p);
      var y :| LiveExtent(s, c, y) && y.Covers(p) && y.stamp == x.stamp;
      assert InodeBatch(s, c, i);
    }
  }

  lemma ResizedOver(s: State, j: nat, size: nat, c: nat, x: Extent, p: int)
    requires CanResize(s, j, size) && size < StatSize(s, j) && LiveExtent(DoResize(s, j, size), c, x) && x.Covers(p)
    ensures exists y :: LiveExtent(s, c, y) && y.Covers(p) && y.stamp == x.stamp
  {
    hide Clipped, MaxEnd, SumLen, CutSet, CutsOf;
    var n := DoResize(s, j, size);
    if n.batches[c].extents != s.batches[c].extents {
      var k :| 0 <= k < |n.batches[c].extents| && n.batches[c].extents[k] == x;
      var m := ClippedFrom(s.batches[c].extents, size, k);
      assert LiveExtent(s, c, s.batches[c].extents[m]);
    } else {
      assert LiveExtent(s, c, x);
    }
  }

  // ----- steps that change what is stored

  lemma StoreInStep(s: State, t: nat, stored: set<Extent>, i: nat)
    requires Links(s) && Stamps(s) && StampsApart(s) && CanStore(s, t) && i in s.files
    requires s.bufs[s.threads[t].buf].inode == i
    requires InodeInStep(s, stored, i)
    ensures InodeInStep(DoStore(s, t, true), stored + Elements(s.batches[s.threads[t].batch].extents), i)
  {
    var n, c := DoStore(s, t, true), s.threads[t].batch;
    var es := Elements(s.batches[c].extents);
    ThreadOk(s, t);
    SameBatchesFrom(s, n, i);
    StoreKnown(s, t, stored, i);
    hide Links, Stamps, StampsApart, LiveFrom, Tracks, OnePerStamp, Known, LiveExtent;
    forall p
      ensures TracksAt(n, stored + es, i, p)
    {
      assert TracksAt(s, stored, i, p);
      var top: nat :| Tracks(s, stored, i, p, top);
      TrackedAlike(s, stored, i, p, top);
      BatchNewer(s, t, stored, i, p, top);
      AlikeAdd(stored, StoredOf(s, i), es, p, top);
      TracksFrom(s, n, stored, stored + es, i, p, top);
    }
  }

  lemma StoreKnown(s: State, t: nat, stored: set<Extent>, i: nat)
    requires Stamps(s) && StampsApart(s) && CanStore(s, t) && PcOk(s, t, s.threads[t]) && i in s.files
    requires s.bufs[s.threads[t].buf].inode == i && Known(s, stored, i)
    ensures Known(DoStore(s, t, true), stored + Elements(s.batches[s.threads[t].batch].extents), i)
  {
    var n, c := DoStore(s, t, true), s.threads[t].batch;
    var es := Elements(s.batches[c].extents);
    BatchFresh(s, t, stored, i);
    ExtentsBounded(s, c);
    hide Stamps, StampsApart, OnePerStamp;
    forall g, d, x | g in stored + es && LiveExtent(n, d, x) && g.stamp == x.stamp
      ensures g in StoredOf(n, i)
    {
      assert LiveExtent(s, d, x);
    }
  }

  lemma BatchNewer(s: State, t: nat, stored: set<Extent>, i: nat, p: int, top: nat)
    requires CanStore(s, t) && PcOk(s, t, s.threads[t]) && s.bufs[s.threads[t].buf].inode == i
    requires Tracks(s, stored, i, p, top)
    ensures forall x :: x in s.batches[s.threads[t].batch].extents && x.Covers(p) ==> x.stamp > top
  {
    forall x | x in s.batches[s.threads[t].batch].extents && x.Covers(p)
      ensures x.stamp > top
    {
      assert LiveExtent(s, s.threads[t].batch, x) && InodeBatch(s, s.threads[t].batch, i);
    }
  }

  /** Before the store the batch shares no stamp with the disk, and its own are unique. */
  lemma BatchFresh(s: State, t: nat, stored: set<Extent>, i: nat)
    requires Stamps(s) && StampsApart(s) && CanStore(s, t) && PcOk(s, t, s.threads[t]) && i in s.files
    requires s.bufs[s.threads[t].buf].inode == i && Known(s, stored, i)
    ensures OnePerStamp(stored + Elements(s.batches[s.threads[t].batch].extents))
  {
    var c := s.threads[t].batch;
    var es := Elements(s.batches[c].extents);
    forall e, g | e in stored + es && g in stored + es && e.stamp == g.stamp
      ensures e == g
    {
      if e in es && g in es {
        SameSlot(s, c, e, c, g);
      } else if e in es || g in es {
        var x, y := if e in es then e else g, if e in es then g else e;
        assert LiveExtent(s, c, x);
        NotYetStored(s, t, x, y);
      }
    }
  }

  lemma CutInStep(s: State, i: nat, size: nat, stored: set<Extent>)
    requires Links(s) && CanResize(s, i, size) && size < StatSize(s, i) && InodeInStep(s, stored, i)
    ensures InodeInStep(DoResize(s, i, size), CutSet(stored, size), i)
  {
    var n := DoResize(s, i, size);
    ResizeFrom(s, i, size, i);
    CutSetOnePer(stored, size);
    hide Links, LiveFrom, Tracks, DoResize, StatSize;
    CutStored(s, i, size);
    forall g | g in CutSet(stored, size)
      ensures exists h :: h in stored && h.stamp == g.stamp && (h in StoredOf(s, i) ==> g in StoredOf(n, i))
    {
      var h := CutFrom(stored, size, g);
    }
    KnownFrom(s, n, stored, CutSet(stored, size), i);
    forall p
      ensures TracksAt(n, CutSet(stored, size), i, p)
    {
      assert TracksAt(s, stored, i, p);
      var top: nat :| Tracks(s, stored, i, p, top);
      TrackedAlike(s, stored, i, p, top);
      AlikeCut(stored, StoredOf(s, i), size, p, top);
      TracksFrom(s, n, stored, CutSet(stored, size), i, p, top);
    }
  }

  lemma CutStored(s: State, i: nat, size: nat)
    requires CanResize(s, i, size) && size < StatSize(s, i)
    ensures i in DoResize(s, i, size).files && StoredOf(DoResize(s, i, size), i) == CutSet(StoredOf(s, i), size)
  {
  }

  // ----- a move

  /** Index.Move on a stripe of which nothing is in memory, taking n stamps. */
  ghost predicate StripeMoves(crc: Checksum, width: nat, s: State, d: Disk, e: Disk, inode: nat, stripe: nat, n: nat)
    requires width > 0 && RecordsOk(width, d)
  {
    && DiskOk(crc, width, e) && DiskGrows(d, e) && SameFiles(width, d, e) && Restamps(d, e, inode, stripe, s.seqGen)
    && (forall k :: k in e.frags ==> k.stamp <= s.seqGen + n)
    && (forall c, x, p: nat :: LiveExtent(s, c, x) && InodeBatch(s, c, inode) && x.Covers(p) ==> p / width != stripe)
  }

  /** What the disk alone reads as at p is its content there. */
  lemma ContentIff(width: nat, d: Disk, inode: nat, p: int, v: Option<byte>)
    requires width > 0 && RecordsOk(width, d)
    ensures ReadsByte(DiskExtents(width, d, inode), p, v) <==> Content(width, d, inode, p) == v
  {
    hide RecordsOk, Content;
    HoleIsNone(width, d, inode, p);
    forall x | x in DiskExtents(width, d, inode) && x.Covers(p)
      ensures DiskCovers(d, inode, p)
    {
      CoveringRecord(width, d, inode, p, x);
    }
    if DiskCovers(d, inode, p) {
      var k := CoveredHasWinner(d, inode, p);
      WinnerDecides(width, d, inode, p, k);
      WinnerExtent(width, d, inode, p, k);
      var w := RecordExtent(d, d.frags[k]);
      assert ReadsByte(DiskExtents(width, d, inode), p, Some(w.At(p)));
    }
  }

  /** The winning record's extent is the one newest extent. */
  lemma WinnerExtent(width: nat, d: Disk, inode: nat, p: int, k: FragKey)
    requires width > 0 && RecordsOk(width, d) && KeyWins(d, inode, p, k)
    ensures Placed(d, d.frags[k]) && d.frags[k].off >= 0 && RecordExtent(d, d.frags[k]).Covers(p)
    ensures RecordExtent(d, d.frags[k]).At(p) == ByteOf(d, d.frags[k], p)
    ensures forall x :: Newest(DiskExtents(width, d, inode), x, p) <==> x == RecordExtent(d, d.frags[k])
  {
    hide RecordsOk;
    RecordShows(width, d, inode, k);
    var w := RecordExtent(d, d.frags[k]);
    forall x | x in DiskExtents(width, d, inode) && x.Covers(p)
      ensures x.stamp <= w.stamp && (x.stamp == w.stamp ==> x == w)
    {
      var j := RecordOf(width, d, inode, x);
      SameStripe(width, d, p, j, k);
      StampOfRecord(width, d, j);
      StampOfRecord(width, d, k);
    }
  }

  lemma MoveKnown(crc: Checksum, width: nat, s: State, d: Disk, e: Disk, inode: nat, stripe: nat, n: nat, i: nat)
    requires DiskOk(crc, width, d) && StripeMoves(crc, width, s, d, e, inode, stripe, n) && Stamps(s)
    requires Known(s, DiskExtents(width, d, i), i)
    ensures Known(DoTakeStamps(s, n), DiskExtents(width, e, i), i)
  {
    hide SetOk, DiskGrows;
    var m, after := DoTakeStamps(s, n), DiskExtents(width, e, i);
    forall g | g in after
      ensures g.stamp <= m.seqGen && (g in DiskExtents(width, d, i) || g.stamp > s.seqGen)
    {
      MovedOrOld(crc, width, s, d, e, inode, stripe, n, i, g);
    }
    forall g, h | g in after && h in after && g.stamp == h.stamp
      ensures g == h
    {
      if g.stamp > s.seqGen {
        SameMoved(width, s, d, e, inode, stripe, i, g, h);
      } else {
        assert g in DiskExtents(width, d, i) && h in DiskExtents(width, d, i);
      }
    }
    forall g, c, x | g in after && LiveExtent(m, c, x) && g.stamp == x.stamp
      ensures g in StoredOf(m, i)
    {
      assert LiveExtent(s, c, x);
      ExtentsBounded(s, c);
    }
  }

  /** A record after the move is one from before, or new. */
  lemma MovedOrOld(crc: Checksum, width: nat, s: State, d: Disk, e: Disk, inode: nat, stripe: nat, n: nat, i: nat,
                   g: Extent)
    requires DiskOk(crc, width, d) && StripeMoves(crc, width, s, d, e, inode, stripe, n)
    requires g in DiskExtents(width, e, i)
    ensures g.stamp <= s.seqGen + n && (g in DiskExtents(width, d, i) || g.stamp > s.seqGen)
  {
    hide SetOk, DiskGrows;
    var k := RecordOf(width, e, i, g);
    StampOfRecord(width, e, k);
    if !InStripeOf(k, inode, stripe) {
      SamePayload(crc, width, d, e, k);
      assert e.frags[k] == d.frags[k];
    }
  }

  /** New records have stamps of their own. */
  lemma SameMoved(width: nat, s: State, d: Disk, e: Disk, inode: nat, stripe: nat, i: nat, g: Extent, h: Extent)
    requires RecordsOk(width, d) && RecordsOk(width, e) && Restamps(d, e, inode, stripe, s.seqGen)
    requires forall x :: x in DiskExtents(width, d, i) ==> x.stamp <= s.seqGen
    requires g in DiskExtents(width, e, i) && h in DiskExtents(width, e, i) && g.stamp == h.stamp > s.seqGen
    ensures g == h
  {
    var j := NewKey(width, s, d, e, inode, stripe, i, g);
    var k := NewKey(width, s, d, e, inode, stripe, i, h);
  }

  lemma NewKey(width: nat, s: State, d: Disk, e: Disk, inode: nat, stripe: nat, i: nat, g: Extent) returns (k: FragKey)
    requires RecordsOk(width, d) && RecordsOk(width, e) && Restamps(d, e, inode, stripe, s.seqGen)
    requires forall x :: x in DiskExtents(width, d, i) ==> x.stamp <= s.seqGen
    requires g in DiskExtents(width, e, i) && g.stamp > s.seqGen
    ensures k == FragKey(inode, stripe, g.stamp) && k in e.frags && Placed(e, e.frags[k]) && e.frags[k].off >= 0
    ensures g == RecordExtent(e, e.frags[k])
  {
    k := RecordOf(width, e, i, g);
    StampOfRecord(width, e, k);
    if !InStripeOf(k, inode, stripe) {
      RecordShows(width, d, i, k);
    }
  }

  lemma MoveTracks(crc: Checksum, width: nat, s: State, d: Disk, e: Disk, inode: nat, stripe: nat, n: nat, i: nat,
                   p: int)
    requires DiskOk(crc, width, d) && StripeMoves(crc, width, s, d, e, inode, stripe, n) && Stamps(s) && i in s.files
    requires TracksAt(s, DiskExtents(width, d, i), i, p)
    ensures TracksAt(DoTakeStamps(s, n), DiskExtents(width, e, i), i, p)
  {
    var m := DoTakeStamps(s, n);
    var was, now := DiskExtents(width, d, i), DiskExtents(width, e, i);
    var top: nat :| Tracks(s, was, i, p, top);
    SameBatchesFrom(s, m, i);
    if i == inode && p >= 0 && p / width == stripe {
      MovedTracks(crc, width, s, d, e, stripe, n, i, p, top);
    } else {
      hide SetOk, DiskGrows, Stamps, LiveFrom, SameFiles;
      forall x: Extent | x.Covers(p)
        ensures x in was <==> x in now
      {
        ElsewhereSame(crc, width, s, d, e, inode, stripe, n, i, p, x);
      }
      TrackedAlike(s, was, i, p, top);
      AlikeLocal(was, StoredOf(s, i), now, StoredOf(m, i), p, top);
      TracksFrom(s, m, was, now, i, p, top);
    }
  }

  lemma ElsewhereSame(crc: Checksum, width: nat, s: State, d: Disk, e: Disk, inode: nat, stripe: nat, n: nat, i: nat,
                      p: int, x: Extent)
    requires DiskOk(crc, width, d) && StripeMoves(crc, width, s, d, e, inode, stripe, n) && x.Covers(p)
    requires !(i == inode && p >= 0 && p / width == stripe)
    ensures x in DiskExtents(width, d, i) <==> x in DiskExtents(width, e, i)
  {
    if i == inode {
      OutsideStripe(crc, width, d, e, inode, stripe, s.seqGen, p, x);
    } else {
      hide SetOk;
      forall k: FragKey | k.inode == i && k in d.frags
        ensures k in e.frags && e.frags[k] == d.frags[k] && RecordExtent(e, e.frags[k]) == RecordExtent(d, d.frags[k])
      {
        SamePayload(crc, width, d, e, k);
      }
      SameKeysSameExtents(width, d, e, i);
    }
  }

  /** In the moved stripe nothing is in memory, and the new records read as the old ones did. */
  lemma MovedTracks(crc: Checksum, width: nat, s: State, d: Disk, e: Disk, stripe: nat, n: nat, i: nat, p: nat,
                    top: nat)
    requires DiskOk(crc, width, d) && StripeMoves(crc, width, s, d, e, i, stripe, n) && Stamps(s) && i in s.files
    requires p / width == stripe
    requires Tracks(s, DiskExtents(width, d, i), i, p, top)
    ensures TracksAt(DoTakeStamps(s, n), DiskExtents(width, e, i), i, p)
  {
    var m := DoTakeStamps(s, n);
    var was, now := DiskExtents(width, d, i), DiskExtents(width, e, i);
    AlikeBoth(was, StoredOf(s, i), p, top);
    forall v
      ensures ReadsByte(now, p, v) <==> ReadsByte(StoredOf(m, i), p, v)
    {
      ContentIff(width, d, i, p, v);
      ContentIff(width, e, i, p, v);
    }
    forall x | x in now || x in StoredOf(m, i)
      ensures x.stamp <= m.seqGen
    {
      if x in now {
        MovedOrOld(crc, width, s, d, e, i, stripe, n, i, x);
      }
    }
    AlikeTop(now, StoredOf(m, i), p, m.seqGen);
    forall c, x | LiveExtent(m, c, x) && InodeBatch(m, c, i)
      ensures !x.Covers(p)
    {
      assert LiveExtent(s, c, x) && InodeBatch(s, c, i);
    }
    assert Tracks(m, now, i, p, m.seqGen);
  }
}
