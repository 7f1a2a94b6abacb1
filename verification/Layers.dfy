/** The index does to stored extents what the steps of the write-back buffer say: a flush adds the batch, a size change
    cuts, a removal empties (store/coalescer.go:705-739, store/store.go:906-958). */
module Layers {
  import opened Bytes
  import opened Keys
  import opened Fragments
  import opened Records
  import opened SegmentSets
  import opened Disks
  import opened Extents
  import opened Rewrites
  import opened Indexes
  import opened Handles

  // ----- records that stay

  lemma SamePayload(crc: Checksum, width: nat, d: Disk, e: Disk, k: FragKey)
    requires DiskOk(crc, width, d) && DiskOk(crc, width, e) && DiskGrows(d, e) && k in d.frags
    ensures Placed(d, d.frags[k]) && d.frags[k].off >= 0 && RecordOk(width, k, d.frags[k])
    ensures Placed(e, d.frags[k]) && RecordExtent(e, d.frags[k]) == RecordExtent(d, d.frags[k])
  {
    hide WholeLog;
    FileBound(crc, e, d, d.frags[k]);
    PlacedGrows(d, e, d.frags[k]);
  }

  /** Records found under the same keys with the same bytes are the same extents. */
  lemma SameKeysSameExtents(width: nat, d: Disk, e: Disk, inode: nat)
    requires RecordsOk(width, d) && RecordsOk(width, e)
    requires forall k: FragKey :: k.inode == inode ==> (k in d.frags <==> k in e.frags)
    requires forall k: FragKey :: k.inode == inode && k in d.frags ==>
      RecordExtent(e, e.frags[k]) == RecordExtent(d, d.frags[k])
    ensures DiskExtents(width, e, inode) == DiskExtents(width, d, inode)
  {
    hide RecordExtent;
    forall x
      ensures x in DiskExtents(width, e, inode) <==> x in DiskExtents(width, d, inode)
    {
      if x in DiskExtents(width, e, inode) {
        var k :| k in e.frags && k.inode == inode && x == RecordExtent(e, e.frags[k]);
        assert k in d.frags && x == RecordExtent(d, d.frags[k]);
      }
      if x in DiskExtents(width, d, inode) {
        var k :| k in d.frags && k.inode == inode && x == RecordExtent(d, d.frags[k]);
        assert k in e.frags && x == RecordExtent(e, e.frags[k]);
      }
    }
  }

  // ----- a flush

  /** e is d with the fragments fs of the inode committed on top. */
  ghost predicate Commits(crc: Checksum, width: nat, d: Disk, e: Disk, inode: nat, fs: seq<Fragment>) {
    && DiskOk(crc, width, d) && DiskOk(crc, width, e) && DiskGrows(d, e)
    && (forall f :: f in fs ==> f.off >= 0) && DistinctStamps(fs) && e.frags == Overlay(width, d.frags, inode, fs)
  }

  lemma OtherInodesSame(crc: Checksum, width: nat, d: Disk, e: Disk, inode: nat, fs: seq<Fragment>, other: nat)
    requires Commits(crc, width, d, e, inode, fs) && other != inode
    ensures DiskExtents(width, e, other) == DiskExtents(width, d, other)
  {
    hide Overlay, SetOk, DiskGrows, RecordExtent;
    OverlayEntries(width, d.frags, inode, fs);
    forall k: FragKey | k.inode == other && k in d.frags
      ensures k in e.frags && e.frags[k] == d.frags[k] && RecordExtent(e, e.frags[k]) == RecordExtent(d, d.frags[k])
    {
      SamePayload(crc, width, d, e, k);
    }
    SameKeysSameExtents(width, d, e, other);
  }

  /** What a committed fragment holds. */
  ghost predicate HoldsAll(d: Disk, fs: seq<Fragment>, es: seq<Extent>) {
    |fs| == |es| && forall i :: 0 <= i < |es| ==> Placed(d, fs[i]) && fs[i].off >= 0 && RecordExtent(d, fs[i]) == es[i]
  }

  lemma OldOrNew(crc: Checksum, width: nat, d: Disk, e: Disk, inode: nat, fs: seq<Fragment>, es: seq<Extent>, x: Extent)
    requires Commits(crc, width, d, e, inode, fs) && HoldsAll(e, fs, es) && x in DiskExtents(width, e, inode)
    ensures x in DiskExtents(width, d, inode) + Elements(es)
  {
    hide Overlay, SetOk, DiskGrows, RecordExtent;
    OverlayEntries(width, d.frags, inode, fs);
    var k :| k in e.frags && k.inode == inode && x == RecordExtent(e, e.frags[k]);
    if f :| f in fs && k == KeyFor(width, inode, f) {
      var i :| 0 <= i < |fs| && fs[i] == f;
      assert es[i] == x && es[i] in es;
    } else {
      SamePayload(crc, width, d, e, k);
    }
  }

  lemma NewIsThere(crc: Checksum, width: nat, d: Disk, e: Disk, inode: nat, fs: seq<Fragment>, es: seq<Extent>, i: nat)
    requires Commits(crc, width, d, e, inode, fs) && HoldsAll(e, fs, es) && i < |es|
    ensures es[i] in DiskExtents(width, e, inode)
  {
    hide Overlay, SetOk, DiskGrows, RecordExtent;
    OverlayEntries(width, d.frags, inode, fs);
    assert fs[i] in fs;
    assert e.frags[KeyFor(width, inode, fs[i])] == fs[i];
  }

  lemma OldIsThere(crc: Checksum, width: nat, d: Disk, e: Disk, inode: nat, fs: seq<Fragment>, es: seq<Extent>,
                   x: Extent)
    requires Commits(crc, width, d, e, inode, fs) && HoldsAll(e, fs, es) && x in DiskExtents(width, d, inode)
    requires OnePerStamp(DiskExtents(width, d, inode) + Elements(es))
    ensures x in DiskExtents(width, e, inode)
  {
    hide Overlay, SetOk, DiskGrows, RecordExtent, OnePerStamp;
    OverlayEntries(width, d.frags, inode, fs);
    var k :| k in d.frags && k.inode == inode && x == RecordExtent(d, d.frags[k]);
    SamePayload(crc, width, d, e, k);
    if f :| f in fs && k == KeyFor(width, inode, f) {
      var i :| 0 <= i < |fs| && fs[i] == f;
      assert es[i] in Elements(es);
      SameStampSame(DiskExtents(width, d, inode) + Elements(es), x, es[i], d, e, d.frags[k], f);
      NewIsThere(crc, width, d, e, inode, fs, es, i);
    } else {
      assert e.frags[k] == d.frags[k];
    }
  }

  /** The committed batch joins the inode's extents; a stamp that was there already names the same extent. */
  lemma FlushAdds(crc: Checksum, width: nat, d: Disk, e: Disk, inode: nat, fs: seq<Fragment>, es: seq<Extent>)
    requires Commits(crc, width, d, e, inode, fs) && HoldsAll(e, fs, es)
    requires OnePerStamp(DiskExtents(width, d, inode) + Elements(es))
    ensures DiskExtents(width, e, inode) == DiskExtents(width, d, inode) + Elements(es)
  {
    hide HoldsAll, OnePerStamp, DiskExtents;
    forall x
      ensures x in DiskExtents(width, e, inode) <==> x in DiskExtents(width, d, inode) + Elements(es)
    {
      if x in DiskExtents(width, e, inode) {
        OldOrNew(crc, width, d, e, inode, fs, es, x);
      }
      if x in DiskExtents(width, d, inode) {
        OldIsThere(crc, width, d, e, inode, fs, es, x);
      }
      if i :| 0 <= i < |es| && es[i] == x {
        NewIsThere(crc, width, d, e, inode, fs, es, i);
      }
    }
  }

  lemma SameStampSame(all: set<Extent>, x: Extent, y: Extent, d: Disk, e: Disk, f: Fragment, g: Fragment)
    requires OnePerStamp(all) && x in all && y in all && f.stamp == g.stamp
    requires Placed(d, f) && f.off >= 0 && x == RecordExtent(d, f) && Placed(e, g) && g.off >= 0
    requires y == RecordExtent(e, g)
    ensures x == y
  {
  }

  // ----- a size change, a removal

  /** Index.Truncate cuts the inode's extents, and no others. */
  lemma TruncateCuts(width: nat, d: Disk, e: Disk, inode: nat, size: nat)
    requires RecordsOk(width, d) && RecordsOk(width, e) && TruncatesTo(d, e, inode, size)
    ensures DiskExtents(width, e, inode) == CutSet(DiskExtents(width, d, inode), size)
    ensures forall other :: other != inode ==> DiskExtents(width, e, other) == DiskExtents(width, d, other)
  {
    var was, now := DiskExtents(width, d, inode), DiskExtents(width, e, inode);
    forall x | x in now
      ensures x in CutSet(was, size)
    {
      var k :| k in e.frags && k.inode == inode && x == RecordExtent(e, e.frags[k]);
      TruncatedExtent(width, d, e, inode, size, k);
      assert RecordExtent(d, d.frags[k]) in was;
    }
    forall y | y in was && y.off < size
      ensures y.Below(size) in now
    {
      var k :| k in d.frags && k.inode == inode && y == RecordExtent(d, d.frags[k]);
      TruncatedExtent(width, d, e, inode, size, k);
    }
    forall other | other != inode
      ensures DiskExtents(width, e, other) == DiskExtents(width, d, other)
    {
      SameKeysSameExtents(width, d, e, other);
    }
  }

  lemma TruncatedExtent(width: nat, d: Disk, e: Disk, inode: nat, size: nat, k: FragKey)
    requires RecordsOk(width, d) && RecordsOk(width, e) && TruncatesTo(d, e, inode, size) && k in d.frags
    requires k.inode == inode
    ensures var x := RecordExtent(d, d.frags[k]);
            (k in e.frags <==> x.off < size) && (k in e.frags ==> RecordExtent(e, e.frags[k]) == x.Below(size))
  {
    assert RecordOk(width, k, d.frags[k]) && Placed(d, d.frags[k]);
  }

  // ----- the flusher's call

  /** The numeric ranges the record format can hold. */
  predicate Storable(width: nat, e: Extent)
    requires width > 0
  {
    e.data != [] && |e.data| < U32 && e.stamp < U64 && Int64(e.off) && e.off / width < U32
  }

  predicate InsideStripe(width: nat, e: Extent)
    requires width > 0
  {
    e.End() <= StripeStart(width, e.off / width + 1)
  }

  lemma NoneStraddles(width: nat, ae: seq<AppendExtent>, es: seq<Extent>)
    requires width > 0 && |ae| == |es|
    requires forall i :: 0 <= i < |es| ==> ae[i].off == es[i].off && ae[i].data == es[i].data
    ensures (forall a :: a in ae ==> !Straddles(width, a)) <==> (forall e :: e in es ==> InsideStripe(width, e))
  {
    hide StripeStart;
    forall i | 0 <= i < |es|
      ensures Straddles(width, ae[i]) <==> !InsideStripe(width, es[i])
    {
    }
    assert forall i :: 0 <= i < |es| ==> ae[i] in ae && es[i] in es;
  }

  ghost predicate HasStamp(es: seq<Extent>, stamp: nat) { exists e :: e in es && e.stamp == stamp }

  /** Records change only under the batch's stamps, and those that do are the inode's and lie in the tier. */
  ghost predicate RewritesIn(m: map<FragKey, Fragment>, n: map<FragKey, Fragment>, inode: nat, es: seq<Extent>,
                             tier: Tier) {
    && (forall k :: k in m ==> k in n)
    && (forall k :: k in n && !(k in m && n[k] == m[k]) ==>
          k.inode == inode && n[k].tier == tier && HasStamp(es, k.stamp))
  }

  lemma RewritesTier(width: nat, d: Disk, inode: nat, fs: seq<Fragment>, es: seq<Extent>, e: Disk, tier: Tier)
    requires width > 0 && DistinctStamps(fs) && HoldsAll(e, fs, es)
    requires forall f :: f in fs ==> f.off >= 0 && f.tier == tier
    ensures RewritesIn(d.frags, Overlay(width, d.frags, inode, fs), inode, es, tier)
  {
    hide Overlay;
    var n := Overlay(width, d.frags, inode, fs);
    forall k
      ensures k in d.frags ==> k in n
      ensures k in n && !(k in d.frags && n[k] == d.frags[k]) ==>
        k.inode == inode && n[k].tier == tier && HasStamp(es, k.stamp)
    {
      OverlayOrigin(width, d.frags, inode, fs, k);
      if k in n && n[k] in fs && n[k].stamp == k.stamp {
        var i :| 0 <= i < |fs| && fs[i] == n[k];
        assert RecordExtent(e, fs[i]) == es[i] && es[i] in es;
      }
    }
  }

  /** flushInode between swap and settle: hand the batch to the index. All of it joins the inode's stored extents and no
      other inode's change; an extent across a stripe boundary, which no write makes, would leave all as it was. */
  method FlushBatch(ix: Index, inode: nat, extents: seq<Extent>, tier: Tier) returns (ok: bool)
    requires ix.Valid() && inode < U64 && (tier == HOT || tier == COLD)
    requires forall e :: e in extents ==> Storable(ix.stripeSize, e) && e.stamp <= ix.seqGen
    requires forall i, j :: 0 <= i < j < |extents| ==> extents[i].stamp != extents[j].stamp
    requires OnePerStamp(DiskExtents(ix.stripeSize, ix.View(), inode) + Elements(extents))
    modifies ix`frags, ix`history, ix.hot, ix.cold
    ensures ix.Valid() && ix.seqGen == old(ix.seqGen)
    ensures ok ==>
      DiskExtents(ix.stripeSize, ix.View(), inode)
      == old(DiskExtents(ix.stripeSize, ix.View(), inode)) + Elements(extents)
    ensures ok ==> forall other :: other != inode ==>
      DiskExtents(ix.stripeSize, ix.View(), other) == old(DiskExtents(ix.stripeSize, ix.View(), other))
    ensures !ok ==> ix.frags == old(ix.frags)
    ensures ok ==> RewritesIn(old(ix.frags), ix.frags, inode, extents, tier)
    ensures ok <==> forall e :: e in extents ==> InsideStripe(ix.stripeSize, e)
  {
    hide SetOk, RecordsOk, Overlay, DiskExtents, OnePerStamp, Straddles, InsideStripe, RewritesIn;
    ghost var d := ix.View();
    var ae: seq<AppendExtent> := [];
    for i := 0 to |extents|
      invariant |ae| == i && forall j :: 0 <= j < i ==>
        ae[j] == AppendExtent(extents[j].stamp, extents[j].off, extents[j].data, tier)
    {
      ae := ae + [AppendExtent(extents[i].stamp, extents[i].off, extents[i].data, tier)];
    }
    assert forall i :: 0 <= i < |extents| ==> extents[i] in extents;
    NoneStraddles(ix.stripeSize, ae, extents);
    var placed;
    ok, placed := ix.AppendBatch(inode, ae);
    if ok {
      ghost var e := ix.View();
      assert Commits(ix.crc, ix.stripeSize, d, e, inode, placed);
      StoredHolds(e, placed, ae, extents);
      StoredTier(e, placed, ae, tier);
      RewritesTier(ix.stripeSize, d, inode, placed, extents, e, tier);
      FlushAdds(ix.crc, ix.stripeSize, d, e, inode, placed, extents);
      forall other | other != inode
        ensures DiskExtents(ix.stripeSize, e, other) == DiskExtents(ix.stripeSize, d, other)
      {
        OtherInodesSame(ix.crc, ix.stripeSize, d, e, inode, placed, other);
      }
    }
  }

  lemma StoredHolds(d: Disk, fs: seq<Fragment>, ae: seq<AppendExtent>, es: seq<Extent>)
    requires StoresAll(d, fs, ae) && |ae| == |es|
    requires forall i :: 0 <= i < |es| ==>
      ae[i].stamp == es[i].stamp && ae[i].off == es[i].off && ae[i].data == es[i].data
    ensures HoldsAll(d, fs, es)
  {
    assert forall i :: 0 <= i < |es| ==> Stores(d, fs[i], ae[i]);
  }

  // ----- Move under a buffer that still holds extents

  lemma ByteIsLocal(a: set<Extent>, b: set<Extent>, p: int, v: byte)
    requires forall x: Extent :: x.Covers(p) ==> (x in a <==> x in b)
    ensures ByteIs(a, p, v) <==> ByteIs(b, p, v)
  {
    forall x
      ensures Newest(a, x, p) <==> Newest(b, x, p)
    {
    }
  }

  /** What a move leaves on disk of the bytes outside its stripe. */
  lemma OutsideStripe(crc: Checksum, width: nat, d: Disk, e: Disk, inode: nat, stripe: nat, base: nat, p: nat,
                      x: Extent)
    requires DiskOk(crc, width, d) && DiskOk(crc, width, e) && DiskGrows(d, e) && Restamps(d, e, inode, stripe, base)
    requires p / width != stripe && x.Covers(p)
    ensures x in DiskExtents(width, d, inode) <==> x in DiskExtents(width, e, inode)
  {
    hide SetOk, DiskGrows, StripeStart;
    if x in DiskExtents(width, d, inode) {
      var k :| k in d.frags && k.inode == inode && x == RecordExtent(d, d.frags[k]);
      StripeOfRecord(width, d, k, p);
      SamePayload(crc, width, d, e, k);
    }
    if x in DiskExtents(width, e, inode) {
      var k :| k in e.frags && k.inode == inode && x == RecordExtent(e, e.frags[k]);
      StripeOfRecord(width, e, k, p);
      SamePayload(crc, width, d, e, k);
    }
  }

  lemma StripeOfRecord(width: nat, d: Disk, k: FragKey, p: nat)
    requires width > 0 && RecordsOk(width, d) && k in d.frags && d.frags[k].Covers(p)
    ensures k.stripe == p / width
  {
    StripeUnique(width, k.stripe, p);
  }

  lemma CoveringRecord(width: nat, d: Disk, inode: nat, p: int, x: Extent)
    requires RecordsOk(width, d) && x in DiskExtents(width, d, inode) && x.Covers(p)
    ensures DiskCovers(d, inode, p)
  {
    var k := RecordOf(width, d, inode, x);
    assert d.frags[k].Covers(p);
  }

  /** The moved stripe's records are newer than anything buffered: where they are, they win. */
  lemma MovedWins(crc: Checksum, width: nat, d: Disk, e: Disk, inode: nat, stripe: nat, base: nat, mem: set<Extent>,
                  p: nat, v: byte)
    requires DiskOk(crc, width, d) && DiskOk(crc, width, e) && SameFiles(width, d, e)
    requires Restamps(d, e, inode, stripe, base)
    requires (forall x :: x in mem ==> x.stamp <= base) && p / width == stripe && DiskCovers(d, inode, p)
    ensures ByteIs(DiskExtents(width, e, inode) + mem, p, v) <==> Content(width, d, inode, p) == Some(v)
  {
    hide SetOk, Content, RecordsOk, StripeStart;
    var all := DiskExtents(width, e, inode) + mem;
    HoleIsNone(width, d, inode, p);
    assert Content(width, e, inode, p) == Content(width, d, inode, p);
    HoleIsNone(width, e, inode, p);
    var k := CoveredHasWinner(e, inode, p);
    WinnerDecides(width, e, inode, p, k);
    RecordShows(width, e, inode, k);
    var w := RecordExtent(e, e.frags[k]);
    forall x | x in all && x.Covers(p)
      ensures x.stamp <= w.stamp && (x.stamp == w.stamp ==> x == w)
    {
      StripeOfRecord(width, e, k, p);
      StampOfRecord(width, e, k);
      if x !in mem {
        var i := RecordOf(width, e, inode, x);
        StampOfRecord(width, e, i);
        SameStripe(width, e, p, i, k);
      }
    }
    assert Newest(all, w, p) && w.At(p) == ByteOf(e, e.frags[k], p);
  }

  lemma StampOfRecord(width: nat, d: Disk, k: FragKey)
    requires RecordsOk(width, d) && k in d.frags
    ensures d.frags[k].stamp == k.stamp
  {
  }

  /** Byte by byte: a move changes nothing except that stored bytes of its stripe come to the front. */
  lemma MoveUnderBuffer(crc: Checksum, width: nat, d: Disk, e: Disk, inode: nat, stripe: nat, base: nat,
                        mem: set<Extent>, p: nat, v: byte)
    requires DiskOk(crc, width, d) && DiskOk(crc, width, e) && DiskGrows(d, e) && SameFiles(width, d, e)
    requires Restamps(d, e, inode, stripe, base) && forall x :: x in mem ==> x.stamp <= base
    ensures ByteIs(DiskExtents(width, e, inode) + mem, p, v) <==>
            if p / width == stripe && DiskCovers(d, inode, p) then Content(width, d, inode, p) == Some(v)
            else ByteIs(DiskExtents(width, d, inode) + mem, p, v)
  {
    hide SetOk, Content, DiskGrows, Restamps, DiskExtents, ByteIs;
    if p / width == stripe && DiskCovers(d, inode, p) {
      MovedWins(crc, width, d, e, inode, stripe, base, mem, p, v);
    } else {
      var was, now := DiskExtents(width, d, inode), DiskExtents(width, e, inode);
      forall x: Extent | x.Covers(p)
        ensures x in was <==> x in now
      {
        if p / width != stripe {
          OutsideStripe(crc, width, d, e, inode, stripe, base, p, x);
        } else {
          UncoveredBoth(width, d, e, inode, p, x);
        }
      }
      ByteIsLocal(was + mem, now + mem, p, v);
    }
  }

  lemma UncoveredBoth(width: nat, d: Disk, e: Disk, inode: nat, p: nat, x: Extent)
    requires RecordsOk(width, d) && RecordsOk(width, e) && SameFiles(width, d, e) && !DiskCovers(d, inode, p)
    requires x.Covers(p)
    ensures x !in DiskExtents(width, d, inode) && x !in DiskExtents(width, e, inode)
  {
    hide RecordsOk, Content;
    HoleIsNone(width, d, inode, p);
    assert Content(width, e, inode, p) == Content(width, d, inode, p);
    HoleIsNone(width, e, inode, p);
    if x in DiskExtents(width, d, inode) {
      CoveringRecord(width, d, inode, p, x);
    }
    if x in DiskExtents(width, e, inode) {
      CoveringRecord(width, e, inode, p, x);
    }
  }

  /** A buffered extent is the newest over a stored byte of the stripe, and differs from it. */
  ghost predicate Uncovers(width: nat, d: Disk, inode: nat, stripe: nat, mem: set<Extent>)
    requires width > 0 && RecordsOk(width, d)
  {
    exists p: nat, x :: p / width == stripe && x in mem && Newest(DiskExtents(width, d, inode) + mem, x, p)
      && DiskCovers(d, inode, p) && Content(width, d, inode, p) != Some(x.At(p))
  }

  /** A merged read is the same after a move exactly if no newer buffered byte of the stripe lies over a different
      stored one. */
  lemma MoveReadsIff(crc: Checksum, width: nat, d: Disk, e: Disk, inode: nat, stripe: nat, base: nat, mem: set<Extent>)
    requires DiskOk(crc, width, d) && DiskOk(crc, width, e) && DiskGrows(d, e) && SameFiles(width, d, e)
    requires Restamps(d, e, inode, stripe, base) && forall x :: x in mem ==> x.stamp <= base
    requires OnePerStamp(DiskExtents(width, d, inode) + mem)
    ensures (forall p: nat, v :: ByteIs(DiskExtents(width, e, inode) + mem, p, v) <==> ByteIs(DiskExtents(width, d,
        inode) + mem, p, v))
            <==> !Uncovers(width, d, inode, stripe, mem)
  {
    hide SetOk, Content, DiskGrows, Restamps, DiskExtents, ByteIs, OnePerStamp, DiskCovers, RecordsOk;
    var was, now := DiskExtents(width, d, inode) + mem, DiskExtents(width, e, inode) + mem;
    if Uncovers(width, d, inode, stripe, mem) {
      var p: nat, x :| p / width == stripe && x in mem && Newest(was, x, p) && DiskCovers(d, inode, p)
          && Content(width, d, inode, p) != Some(x.At(p));
      MoveUnderBuffer(crc, width, d, e, inode, stripe, base, mem, p, x.At(p));
      NewestByte(was, x, p, x.At(p));
    } else {
      forall p: nat, v
        ensures ByteIs(now, p, v) <==> ByteIs(was, p, v)
      {
        MoveUnderBuffer(crc, width, d, e, inode, stripe, base, mem, p, v);
        if p / width == stripe && DiskCovers(d, inode, p) {
          MergedIsStored(width, d, inode, stripe, mem, p, v);
        }
      }
    }
  }

  lemma NewestByte(all: set<Extent>, x: Extent, p: int, v: byte)
    requires Newest(all, x, p) && OnePerStamp(all)
    ensures ByteIs(all, p, v) <==> x.At(p) == v
  {
  }

  /** Unless a buffered byte lies over it, a covered byte reads as stored. */
  lemma MergedIsStored(width: nat, d: Disk, inode: nat, stripe: nat, mem: set<Extent>, p: nat, v: byte)
    requires width > 0 && RecordsOk(width, d) && OnePerStamp(DiskExtents(width, d, inode) + mem)
    requires !Uncovers(width, d, inode, stripe, mem)
    requires p / width == stripe && DiskCovers(d, inode, p)
    ensures ByteIs(DiskExtents(width, d, inode) + mem, p, v) <==> Content(width, d, inode, p) == Some(v)
  {
    hide Content, RecordsOk, OnePerStamp;
    var all := DiskExtents(width, d, inode) + mem;
    var k := CoveredHasWinner(d, inode, p);
    WinnerDecides(width, d, inode, p, k);
    RecordShows(width, d, inode, k);
    var w := RecordExtent(d, d.frags[k]);
    var x := NewestAt(all, p, w);
    if x in mem {
      NewestByte(all, x, p, v);
    } else {
      var i := RecordOf(width, d, inode, x);
      SameStamps(all, x, w);
      NewestByte(all, w, p, v);
      assert w.At(p) == ByteOf(d, d.frags[k], p);
    }
  }

  lemma SameStamps(all: set<Extent>, x: Extent, y: Extent)
    requires OnePerStamp(all) && x in all && y in all
    ensures x.stamp == y.stamp ==> x == y
  {
  }

  lemma {:induction false} NewestAt(all: set<Extent>, p: int, start: Extent) returns (x: Extent)
    requires start in all && start.Covers(p)
    ensures Newest(all, x, p)
    decreases all
  {
    x := start;
    var left := all;
    while left != {}
      invariant x in all && x.Covers(p) && left <= all
      invariant forall y :: y in all && y !in left && y.Covers(p) ==> y.stamp <= x.stamp
    {
      var y :| y in left;
      left := left - {y};
      if y.Covers(p) && y.stamp > x.stamp {
        x := y;
      }
    }
  }

  method StoreSeven(crc: Checksum) returns (ix: Index)
    ensures fresh(ix) && fresh(ix.hot) && fresh(ix.cold) && ix.Valid() && ix.crc == crc && ix.stripeSize == 4
    ensures ix.seqGen <= 1
    ensures Content(4, ix.View(), 5, 0) == Some(7)
  {
    hide Content, Overwrites, Trace, DiskOk;
    ix := NewIndex(crc, 4, 1000);
    ValidRecords(ix);
    ghost var empty := ix.View();
    ix.AppendTo(5, 0, [7], HOT);
    ValidRecords(ix);
    FirstByte(4, empty, ix.View(), 5, [7]);
  }

  /** 7 is stored at offset 0 of inode 5 and 9 buffered over it: the read gives 9. The stripe moves: it gives 7. */
  method MoveBringsBack(crc: Checksum) returns (x: Extent, ghost d: Disk, ghost e: Disk)
    ensures x.data == [9] && DiskOk(crc, 4, d) && DiskOk(crc, 4, e)
    ensures SameFiles(4, d, e) && DiskGrows(d, e) && Restamps(d, e, 5, 0, x.stamp)
    ensures forall v :: ByteIs(DiskExtents(4, d, 5) + {x}, 0, v) <==> v == 9
    ensures forall v :: ByteIs(DiskExtents(4, e, 5) + {x}, 0, v) <==> v == 7
  {
    hide Content, Overwrites, Trace, SameFiles, CleanStripe, SameCoverage, Restamps, ByteIs, DiskExtents;
    hide SetOk, RecordsOk;
    var ix := StoreSeven(crc);
    d := ix.View();
    var n := ix.NextSeq();
    x := Extent(n, 0, [9]);
    BufferedWins(crc, 4, d, 5, x);
    ix.Move(5, 0, COLD);
    e := ix.View();
    HoleIsNone(4, d, 5, 0);
    forall v
      ensures ByteIs(DiskExtents(4, e, 5) + {x}, 0, v) <==> v == 7
    {
      MovedWins(crc, 4, d, e, 5, 0, n, {x}, 0, v);
    }
  }

  lemma FirstByte(width: nat, d: Disk, e: Disk, inode: nat, data: seq<byte>)
    requires RecordsOk(width, d) && RecordsOk(width, e) && Overwrites(width, d, e, inode, 0, data) && data != []
    ensures Content(width, e, inode, 0) == Some(data[0])
  {
  }

  /** A buffered byte newer than every record decides its offset. */
  lemma BufferedWins(crc: Checksum, width: nat, d: Disk, inode: nat, x: Extent)
    requires DiskOk(crc, width, d) && (forall k :: k in d.frags ==> k.stamp < x.stamp) && x.data != []
    ensures forall v :: ByteIs(DiskExtents(width, d, inode) + {x}, x.off, v) <==> v == x.data[0]
  {
    hide SetOk;
    var all := DiskExtents(width, d, inode) + {x};
    forall y | y in all && y != x
      ensures y.stamp < x.stamp
    {
      var k := RecordOf(width, d, inode, y);
      StampOfRecord(width, d, k);
    }
    assert Newest(all, x, x.off) && x.At(x.off) == x.data[0];
  }
}
