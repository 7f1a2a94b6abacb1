/** Reading through the buffer: store/handle.go:39-110. */
module Handles {
  import opened Bytes
  import opened Fragments
  import opened Shadow
  import opened Records
  import opened SegmentSets
  import opened Stripes
  import opened Disks
  import opened Extents
  import opened Coalescers
  import opened CoalescerRefinement
  import opened CoalescerLinks
  import opened CoalescerMemory
  import opened CoalescerDurable
  import opened CoalescerRuns
  import opened CoalescerCode
  import opened Indexes

  // ----- disk records as extents

  /** The inode's records with their bytes. */
  ghost function DiskExtents(width: nat, d: Disk, inode: nat): set<Extent>
    requires RecordsOk(width, d)
  {
    set k | k in d.frags && k.inode == inode :: RecordExtent(d, d.frags[k])
  }

  ghost function RecordExtent(d: Disk, f: Fragment): Extent
    requires Placed(d, f) && f.off >= 0
  {
    Extent(f.stamp, f.off, Payload(d, f))
  }

  /** The fragment stands for the extent in a plan. */
  predicate Shows(f: Fragment, e: Extent) {
    f.stamp == e.stamp && f.off == e.off && f.len == |e.data|
  }

  /** fs stands for the extents es as far as [lo, hi) goes. */
  ghost predicate Lists(es: set<Extent>, fs: seq<Fragment>, lo: int, hi: int) {
    && (forall f :: f in fs ==> exists e :: e in es && Shows(f, e))
    && (forall e, p :: e in es && lo <= p < hi && e.Covers(p) ==> exists f :: f in fs && Shows(f, e))
  }

  /** What each listed fragment stands for: MEM ones for a buffered extent, the others for a stored one. */
  ghost predicate Sourced(width: nat, d: Disk, inode: nat, mem: set<Extent>, fs: seq<Fragment>)
    requires RecordsOk(width, d)
  {
    forall f :: f in fs ==>
      (f.tier == MEM && exists e :: e in mem && f == MemFragment(e))
      || (f.tier != MEM && exists k :: k in d.frags && k.inode == inode && f == d.frags[k])
  }

  lemma CombinedLists(width: nat, d: Disk, inode: nat, mem: set<Extent>, off: nat, length: nat, fs: seq<Fragment>,
                      gs: seq<Fragment>)
    requires width > 0 && RecordsOk(width, d) && length > 0
    requires ListsStripes(d, inode, off / width, (off + length - 1) / width, fs)
    requires ListsExtents(mem, off, off + length, gs)
    ensures Lists(DiskExtents(width, d, inode) + mem, fs + gs, off, off + length)
    ensures Sourced(width, d, inode, mem, fs + gs)
  {
    hide RecordsOk;
    var all, both := DiskExtents(width, d, inode) + mem, fs + gs;
    forall f | f in both
      ensures exists e :: e in all && Shows(f, e)
      ensures (f.tier == MEM && exists e :: e in mem && f == MemFragment(e))
              || (f.tier != MEM && exists k :: k in d.frags && k.inode == inode && f == d.frags[k])
    {
      if f in fs {
        var k :| k in d.frags && InStripes(k, inode, off / width, (off + length - 1) / width) && d.frags[k] == f;
        RecordShows(width, d, inode, k);
      } else {
        var e :| e in mem && Meets(e, off, off + length) && f == MemFragment(e);
        assert Shows(f, e);
      }
    }
    forall e, p | e in all && off <= p < off + length && e.Covers(p)
      ensures exists f :: f in both && Shows(f, e)
    {
      if e in mem {
        assert MemFragment(e) in both && Shows(MemFragment(e), e);
      } else {
        var k := RecordOf(width, d, inode, e);
        CoveringListed(width, d, inode, off, length, fs, p, k);
        assert d.frags[k] in both;
      }
    }
  }

  lemma RecordShows(width: nat, d: Disk, inode: nat, k: FragKey)
    requires RecordsOk(width, d) && k in d.frags && k.inode == inode
    ensures Placed(d, d.frags[k]) && d.frags[k].off >= 0 && d.frags[k].tier != MEM
    ensures RecordExtent(d, d.frags[k]) in DiskExtents(width, d, inode)
    ensures Shows(d.frags[k], RecordExtent(d, d.frags[k]))
  {
  }

  lemma RecordOf(width: nat, d: Disk, inode: nat, e: Extent) returns (k: FragKey)
    requires RecordsOk(width, d) && e in DiskExtents(width, d, inode)
    ensures k in d.frags && k.inode == inode && Shows(d.frags[k], e) && Placed(d, d.frags[k])
    ensures d.frags[k].off >= 0 && e == RecordExtent(d, d.frags[k])
    ensures forall p :: e.Covers(p) ==> d.frags[k].Covers(p)
  {
    k :| k in d.frags && k.inode == inode && e == RecordExtent(d, d.frags[k]);
  }

  // ----- one slice

  /** b is what es reads as at p: the newest covering extent's byte, or zero in a hole. */
  ghost predicate ByteIs(es: set<Extent>, p: int, b: byte) {
    (exists e :: Newest(es, e, p) && e.At(p) == b) || (b == 0 && forall e :: e in es ==> !e.Covers(p))
  }

  /** bytes is what es reads as from off on. */
  ghost predicate RangeIs(es: set<Extent>, off: int, bytes: seq<byte>) {
    forall i :: 0 <= i < |bytes| ==> ByteIs(es, off + i, bytes[i])
  }

  /** A winner of the plan is the newest extent. */
  lemma WinnerIsNewest(es: set<Extent>, fs: seq<Fragment>, lo: int, hi: int, f: Fragment, e: Extent, p: int)
    requires Lists(es, fs, lo, hi) && lo <= p < hi && Wins(fs, f, p) && e in es && Shows(f, e)
    ensures Newest(es, e, p)
  {
    forall g | g in es && g.Covers(p)
      ensures g.stamp <= e.stamp
    {
      var h :| h in fs && Shows(h, g);
      assert h.Covers(p);
    }
  }

  lemma SparseIsHole(es: set<Extent>, fs: seq<Fragment>, lo: int, hi: int, s: ReadSlice, zeros: seq<byte>)
    requires Lists(es, fs, lo, hi) && SliceCorrect(fs, s) && s.sparse && lo <= s.off && s.off + s.len <= hi
    requires |zeros| == s.len && forall i :: 0 <= i < |zeros| ==> zeros[i] == 0
    ensures RangeIs(es, s.off, zeros)
  {
    forall e, p | e in es && s.off <= p < s.off + s.len
      ensures !e.Covers(p)
    {
      if e.Covers(p) {
        var f :| f in fs && Shows(f, e);
        CoveredMember(fs, f, p);
      }
    }
  }

  /** A slice from disk: its locator is readable and holds the newest bytes. */
  lemma DiskSliceReads(width: nat, d: Disk, inode: nat, mem: set<Extent>, fs: seq<Fragment>, lo: int, hi: int,
                       s: ReadSlice)
    requires RecordsOk(width, d) && Lists(DiskExtents(width, d, inode) + mem, fs, lo, hi)
    requires Sourced(width, d, inode, mem, fs)
    requires SliceCorrect(fs, s) && !s.sparse && s.loc.tier != MEM && lo <= s.off && s.off + s.len <= hi && s.len > 0
    ensures Readable(d, s.loc) && s.loc.length == s.len
    ensures RangeIs(DiskExtents(width, d, inode) + mem, s.off, LocatorBytes(d, s.loc))
  {
    hide RecordsOk, Lists;
    var f :| f in fs && SliceFrom(f, s) && forall p :: s.off <= p < s.off + s.len ==> Wins(fs, f, p);
    var k :| k in d.frags && k.inode == inode && f == d.frags[k];
    RecordShows(width, d, inode, k);
    var e := RecordExtent(d, f);
    assert Wins(fs, f, s.off) && Wins(fs, f, s.off + s.len - 1);
    var bytes := LocatorBytes(d, s.loc);
    forall i | 0 <= i < |bytes|
      ensures ByteIs(DiskExtents(width, d, inode) + mem, s.off + i, bytes[i])
    {
      var p := s.off + i;
      assert Wins(fs, f, p);
      WinnerIsNewest(DiskExtents(width, d, inode) + mem, fs, lo, hi, f, e, p);
      assert e.At(p) == bytes[i];
    }
  }

  /** The slice starts where its buffered extent does. */
  ghost predicate StartsExtent(mem: set<Extent>, s: ReadSlice) {
    !s.sparse && s.loc.tier == MEM ==> exists e :: e in mem && e.stamp == s.loc.offset && e.off == s.off
  }

  /** The buffered extent a MEM slice is planned from. */
  lemma MemSource(width: nat, d: Disk, inode: nat, mem: set<Extent>, fs: seq<Fragment>, lo: int, hi: int, s: ReadSlice)
    returns (e: Extent)
    requires RecordsOk(width, d) && Lists(DiskExtents(width, d, inode) + mem, fs, lo, hi)
    requires Sourced(width, d, inode, mem, fs)
    requires SliceEdge(fs, s, lo) && s.loc.tier == MEM && lo <= s.off && s.off + s.len <= hi && s.len > 0
    ensures e in mem && s.loc.length == s.len && s.loc.offset == e.stamp + (s.off - e.off)
    ensures EdgeOf(fs, MemFragment(e), s.off, lo)
    ensures forall p :: s.off <= p < s.off + s.len ==> Newest(DiskExtents(width, d, inode) + mem, e, p)
  {
    hide RecordsOk, Lists;
    var f :| f in fs && SliceFrom(f, s) && (forall p :: s.off <= p < s.off + s.len ==> Wins(fs, f, p))
        && EdgeOf(fs, f, s.off, lo);
    e :| e in mem && f == MemFragment(e);
    forall p | s.off <= p < s.off + s.len
      ensures Newest(DiskExtents(width, d, inode) + mem, e, p)
    {
      assert Wins(fs, f, p);
      WinnerIsNewest(DiskExtents(width, d, inode) + mem, fs, lo, hi, f, e, p);
    }
  }

  /** CopyOut serves a MEM slice exactly when it starts at its extent's own offset: a slice clipped on the left asks for
      a later stamp, and an extent with that stamp that held its bytes would have won them. */
  lemma ServedExactly(all: set<Extent>, mem: set<Extent>, e: Extent, s: ReadSlice)
    requires mem <= all && OnePerStamp(all) && e in mem && s.len > 0
    requires s.loc.length == s.len && s.loc.offset == e.stamp + (s.off - e.off)
    requires forall p :: s.off <= p < s.off + s.len ==> Newest(all, e, p)
    ensures forall x :: x in mem && Serves(x, s.loc, s.off) ==> x == e && s.off == e.off
    ensures s.off == e.off <==> Serves(e, s.loc, s.off)
    ensures (forall x :: x in mem ==> x.data != []) ==>
      (s.off == e.off <==> exists x :: x in mem && x.stamp == s.loc.offset && x.off == s.off)
  {
    assert Newest(all, e, s.off) && Newest(all, e, s.off + s.len - 1);
    forall x | x in mem && Serves(x, s.loc, s.off)
      ensures x == e && s.off == e.off
    {
      assert x.Covers(s.off);
      assert x.stamp <= e.stamp;
    }
    forall x | x in mem && x.stamp == s.loc.offset && x.off == s.off && x.data != []
      ensures s.off == e.off
    {
      assert x.Covers(s.off);
    }
  }

  lemma ServedBytes(all: set<Extent>, e: Extent, s: ReadSlice)
    requires s.len > 0 && s.off == e.off && forall p :: s.off <= p < s.off + s.len ==> Newest(all, e, p)
    ensures s.len <= |e.data| && RangeIs(all, s.off, e.data[..s.len])
  {
    assert Newest(all, e, s.off + s.len - 1);
    forall i | 0 <= i < s.len
      ensures ByteIs(all, s.off + i, e.data[..s.len][i])
    {
      assert Newest(all, e, s.off + i) && e.At(s.off + i) == e.data[i];
    }
  }

  // ----- where the plan cuts into buffered extents

  /** At p the read would have to enter the buffered extent e past its start: e is the newest there, starts before, and
      either the read starts at p or something newer ends there. */
  ghost predicate EntersInside(all: set<Extent>, mem: set<Extent>, e: Extent, p: int, lo: int) {
    e in mem && e.off < p && Newest(all, e, p) && (p == lo || !Newest(all, e, p - 1))
  }

  /** A MEM slice that does not start its extent marks such a place. */
  lemma InsideFromSlice(width: nat, d: Disk, inode: nat, mem: set<Extent>, fs: seq<Fragment>, lo: int, hi: int,
                        s: ReadSlice)
    requires RecordsOk(width, d) && Lists(DiskExtents(width, d, inode) + mem, fs, lo, hi)
    requires Sourced(width, d, inode, mem, fs)
    requires OnePerStamp(DiskExtents(width, d, inode) + mem)
    requires SliceEdge(fs, s, lo) && lo <= s.off && s.off + s.len <= hi && s.len > 0 && !StartsExtent(mem, s)
    ensures exists e :: EntersInside(DiskExtents(width, d, inode) + mem, mem, e, s.off, lo)
  {
    hide RecordsOk, Sourced;
    var all := DiskExtents(width, d, inode) + mem;
    var e := MemSource(width, d, inode, mem, fs, lo, hi, s);
    assert Newest(all, e, s.off);
    if s.off != lo {
      assert s.off != e.off;
      var g :| g in fs && g.Covers(s.off - 1) && !g.Covers(s.off) && g.stamp >= MemFragment(e).stamp;
      var x :| x in all && Shows(g, x);
      assert x.Covers(s.off - 1) && !x.Covers(s.off);
    }
    assert EntersInside(all, mem, e, s.off, lo);
  }

  lemma {:induction false} SliceAt(slices: seq<ReadSlice>, lo: int, hi: int, p: int, from: nat) returns (i: nat)
    requires Tiles(slices, lo, hi) && from < |slices| && slices[from].off <= p < hi
    ensures i < |slices| && slices[i].off <= p < slices[i].off + slices[i].len
    decreases |slices| - from
  {
    if p < slices[from].off + slices[from].len {
      return from;
    }
    i := SliceAt(slices, lo, hi, p, from + 1);
  }

  /** And such a place, unless the extent is on disk too, is the start of a slice the buffer cannot serve. */
  lemma SliceFromInside(width: nat, d: Disk, inode: nat, mem: set<Extent>, fs: seq<Fragment>, plan: seq<ReadSlice>,
                        lo: int, hi: int, e: Extent, p: int)
    requires RecordsOk(width, d) && Lists(DiskExtents(width, d, inode) + mem, fs, lo, hi)
    requires Sourced(width, d, inode, mem, fs)
    requires OnePerStamp(DiskExtents(width, d, inode) + mem) && forall x :: x in mem ==> x.data != []
    requires IsPlan(fs, plan, lo, hi) && (forall s :: s in plan && !s.sparse ==> SliceEdge(fs, s, lo))
    requires lo <= p < hi && EntersInside(DiskExtents(width, d, inode) + mem, mem, e, p, lo)
    requires e !in DiskExtents(width, d, inode)
    ensures exists s :: s in plan && !StartsExtent(mem, s)
  {
    hide RecordsOk, Sourced, SliceEdge, Lists;
    var all := DiskExtents(width, d, inode) + mem;
    var i := SliceAt(plan, lo, hi, p, 0);
    var s := plan[i];
    assert s in plan;
    TileInside(plan, lo, hi, s);
    NotSparse(all, fs, lo, hi, s, e, p);
    var f := SliceWinner(width, d, inode, mem, fs, lo, hi, s, e, p);
    var x := MemSource(width, d, inode, mem, fs, lo, hi, s);
    assert Newest(all, x, p);
    assert x == e;
    assert s.off < p ==> Newest(all, e, p - 1);
    ServedExactly(all, mem, e, s);
  }

  lemma NotSparse(all: set<Extent>, fs: seq<Fragment>, lo: int, hi: int, s: ReadSlice, e: Extent, p: int)
    requires Lists(all, fs, lo, hi) && lo <= p < hi && SliceCorrect(fs, s) && s.off <= p < s.off + s.len
    requires Newest(all, e, p)
    ensures !s.sparse
  {
    var f :| f in fs && Shows(f, e);
    CoveredMember(fs, f, p);
  }

  /** The fragment behind the slice over p stands for the newest extent there. */
  lemma SliceWinner(width: nat, d: Disk, inode: nat, mem: set<Extent>, fs: seq<Fragment>, lo: int, hi: int,
                    s: ReadSlice, e: Extent, p: int)
    returns (f: Fragment)
    requires RecordsOk(width, d) && Lists(DiskExtents(width, d, inode) + mem, fs, lo, hi)
    requires Sourced(width, d, inode, mem, fs)
    requires OnePerStamp(DiskExtents(width, d, inode) + mem)
    requires lo <= p < hi && SliceCorrect(fs, s) && !s.sparse && s.off <= p < s.off + s.len
    requires Newest(DiskExtents(width, d, inode) + mem, e, p) && e !in DiskExtents(width, d, inode)
    ensures f in fs && SliceFrom(f, s) && f.tier == MEM
  {
    hide RecordsOk;
    f :| f in fs && SliceFrom(f, s) && forall p :: s.off <= p < s.off + s.len ==> Wins(fs, f, p);
    if f.tier != MEM {
      var k :| k in d.frags && k.inode == inode && f == d.frags[k];
      RecordShows(width, d, inode, k);
      var x := RecordExtent(d, f);
      assert Wins(fs, f, p);
      WinnerIsNewest(DiskExtents(width, d, inode) + mem, fs, lo, hi, f, x, p);
    }
  }

  // ----- ReadAt

  /** Everything a read of the inode merges. */
  ghost function MergedExtents(ix: Index, co: Coalescer, inode: nat): set<Extent>
    requires ix.Valid()
    reads ix, ix.hot, ix.cold, co
  {
    DiskExtents(ix.stripeSize, ix.View(), inode) + co.Held(inode)
  }

  /** One slice's bytes; None where CopyOut reports an error. */
  method FetchSlice(ix: Index, co: Coalescer, inode: nat, ghost fs: seq<Fragment>, s: ReadSlice, ghost lo: int,
                    ghost hi: int)
    returns (bytes: Option<seq<byte>>)
    requires ix.Valid() && co.Linked(inode)
    requires OnePerStamp(MergedExtents(ix, co, inode)) && forall x :: x in co.Held(inode) ==> x.data != []
    requires Lists(MergedExtents(ix, co, inode), fs, lo, hi)
    requires Sourced(ix.stripeSize, ix.View(), inode, co.Held(inode), fs)
    requires SliceCorrect(fs, s) && (!s.sparse ==> SliceEdge(fs, s, lo)) && lo <= s.off && s.off + s.len <= hi
    requires s.len > 0
    ensures bytes.Some? <==> StartsExtent(co.Held(inode), s)
    ensures bytes.Some? ==> |bytes.value| == s.len && RangeIs(MergedExtents(ix, co, inode), s.off, bytes.value)
  {
    hide Lists, Sourced, SliceCorrect, SliceEdge, DiskOk, RecordsOk, Newest, OnePerStamp;
    ghost var all := MergedExtents(ix, co, inode);
    if s.sparse {
      bytes := Some(seq(s.len, i => 0));
      SparseIsHole(all, fs, lo, hi, s, bytes.value);
      return;
    }
    ValidRecords(ix);
    if s.loc.tier != MEM {
      DiskSliceReads(ix.stripeSize, ix.View(), inode, co.Held(inode), fs, lo, hi, s);
      return Some(LocatorBytes(ix.View(), s.loc));
    }
    ghost var e := MemSource(ix.stripeSize, ix.View(), inode, co.Held(inode), fs, lo, hi, s);
    ServedExactly(all, co.Held(inode), e, s);
    HeldOnePer(all, co.Held(inode));
    bytes := co.CopyOut(inode, s.loc, s.off);
    if bytes.Some? {
      ServedBytes(all, e, s);
    }
  }

  lemma ValidRecords(ix: Index)
    requires ix.Valid()
    ensures RecordsOk(ix.stripeSize, ix.View()) && ix.stripeSize > 0
  {
  }

  lemma HeldOnePer(all: set<Extent>, mem: set<Extent>)
    requires OnePerStamp(all) && mem <= all
    ensures OnePerStamp(mem)
  {
  }

  /** The plan of a read: disk and buffer merged, winners by stamp. */
  method PlanMerged(ix: Index, co: Coalescer, inode: nat, off: nat, length: nat)
    returns (plan: seq<ReadSlice>, ghost fs: seq<Fragment>)
    requires ix.Valid() && co.Linked(inode) && length > 0 && forall x :: x in co.Held(inode) ==> x.data != []
    ensures Lists(MergedExtents(ix, co, inode), fs, off, off + length)
    ensures Sourced(ix.stripeSize, ix.View(), inode, co.Held(inode), fs)
    ensures IsPlan(fs, plan, off, off + length) && forall s :: s in plan && !s.sparse ==> SliceEdge(fs, s, off)
  {
    hide Lists, Sourced, SliceCorrect, SliceEdge, DiskOk, RecordsOk, ListsStripes, Tiles;
    ValidRecords(ix);
    var stored := ix.FragmentsInRange(inode, off, length);
    var buffered := co.FragmentsFor(inode, off, length);
    var combined := stored;
    if |buffered| > 0 {
      combined := stored + buffered;
    }
    assert combined == stored + buffered;
    ListedNonEmpty(ix.stripeSize, ix.View(), inode, off / ix.stripeSize, (off + length - 1) / ix.stripeSize, stored);
    CombinedLists(ix.stripeSize, ix.View(), inode, co.Held(inode), off, length, stored, buffered);
    fs := combined;
    plan := Shadow.PlanRead(combined, off, length);
  }

  /** The read enters some buffered extent of [lo, hi) past its start. */
  ghost predicate EntersSome(all: set<Extent>, mem: set<Extent>, lo: int, hi: int) {
    exists e, p :: lo <= p < hi && EntersInside(all, mem, e, p, lo)
  }

  /** The same for an extent that is in memory only. */
  ghost predicate EntersUnstored(disk: set<Extent>, mem: set<Extent>, lo: int, hi: int) {
    exists e, p :: lo <= p < hi && e !in disk && EntersInside(disk + mem, mem, e, p, lo)
  }

  lemma PlanServed(width: nat, d: Disk, inode: nat, mem: set<Extent>, fs: seq<Fragment>, plan: seq<ReadSlice>, lo: int,
                   hi: int)
    requires RecordsOk(width, d) && Lists(DiskExtents(width, d, inode) + mem, fs, lo, hi)
    requires Sourced(width, d, inode, mem, fs)
    requires OnePerStamp(DiskExtents(width, d, inode) + mem) && forall x :: x in mem ==> x.data != []
    requires IsPlan(fs, plan, lo, hi) && (forall s :: s in plan && !s.sparse ==> SliceEdge(fs, s, lo))
    ensures !EntersSome(DiskExtents(width, d, inode) + mem, mem, lo, hi) ==> forall s :: s in plan ==>
      StartsExtent(mem, s)
    ensures EntersUnstored(DiskExtents(width, d, inode), mem, lo, hi) ==> exists s :: s in plan && !StartsExtent(mem, s)
  {
    hide RecordsOk, Lists, Sourced, OnePerStamp, SliceEdge, SliceCorrect, StartsExtent;
    var disk := DiskExtents(width, d, inode);
    forall s | s in plan && !StartsExtent(mem, s)
      ensures EntersSome(disk + mem, mem, lo, hi)
    {
      TileInside(plan, lo, hi, s);
      SparseStarts(mem, s);
      InsideFromSlice(width, d, inode, mem, fs, lo, hi, s);
    }
    if EntersUnstored(disk, mem, lo, hi) {
      var e, p :| lo <= p < hi && e !in disk && EntersInside(disk + mem, mem, e, p, lo);
      SliceFromInside(width, d, inode, mem, fs, plan, lo, hi, e, p);
    }
  }

  lemma SparseStarts(mem: set<Extent>, s: ReadSlice)
    ensures s.sparse ==> StartsExtent(mem, s)
  {
  }

  function Clamp(length: nat, off: nat, size: nat): nat {
    if off >= size then 0 else if off + length > size then size - off else length
  }

  /** ReadAtCtx: node is the stored size of the inode, None without a node. A successful read fills the buffer with the
      newest bytes and zeros for holes, up to the size. It succeeds whenever the read enters no buffered extent past its
      start, and fails whenever it enters one that is in memory only. */
  method ReadAt(ix: Index, co: Coalescer, inode: nat, node: Option<nat>, p: array<byte>, off: nat)
    returns (n: Option<nat>)
    requires ix.Valid() && co.Linked(inode)
    requires OnePerStamp(MergedExtents(ix, co, inode)) && forall x :: x in co.Held(inode) ==> x.data != []
    modifies p
    ensures p.Length == 0 ==> n == Some(0)
    ensures p.Length > 0 && node.None? ==> n == None
    ensures n.Some? && p.Length > 0 ==>
      node.Some? && n.value == Clamp(p.Length, off, co.LiveSize(inode, node.value)) <= p.Length
      && RangeIs(MergedExtents(ix, co, inode), off, p[..n.value])
    ensures n.Some? ==> n.value <= p.Length && p[n.value..] == old(p[n.value..])
    ensures n.Some? && 0 < n.value ==> node.Some? && off + n.value <= co.LiveSize(inode, node.value)
    ensures n.Some? && n.value < p.Length ==> node.Some? && off + n.value >= co.LiveSize(inode, node.value)
    ensures node.Some? ==>
      var hi := off + Clamp(p.Length, off, co.LiveSize(inode, node.value));
      && (!EntersSome(MergedExtents(ix, co, inode), co.Held(inode), off, hi) ==> n.Some?)
      && (EntersUnstored(DiskExtents(ix.stripeSize, ix.View(), inode), co.Held(inode), off, hi) ==> n == None)
  {
    if p.Length == 0 {
      return Some(0);
    }
    if node.None? {
      return None;
    }
    hide DiskOk, RecordsOk, OnePerStamp, EntersInside, RangeIs;
    var size := co.LiveSize(inode, node.value);
    if off >= size {
      NothingRead(MergedExtents(ix, co, inode), off);
      return Some(0);
    }
    var want := p.Length;
    if off + want > size {
      want := size - off;
    }
    var ok := ReadRange(ix, co, inode, p, off, want);
    n := if ok then Some(want) else None;
  }

  /** ReadAtCtx once the length is clamped: plan, then copy. */
  method ReadRange(ix: Index, co: Coalescer, inode: nat, p: array<byte>, off: nat, want: nat) returns (ok: bool)
    requires ix.Valid() && co.Linked(inode) && 0 < want <= p.Length
    requires OnePerStamp(MergedExtents(ix, co, inode)) && forall x :: x in co.Held(inode) ==> x.data != []
    modifies p
    ensures ok ==> RangeIs(MergedExtents(ix, co, inode), off, p[..want])
    ensures p[want..] == old(p[want..])
    ensures !EntersSome(MergedExtents(ix, co, inode), co.Held(inode), off, off + want) ==> ok
    ensures EntersUnstored(DiskExtents(ix.stripeSize, ix.View(), inode), co.Held(inode), off, off + want) ==> !ok
  {
    hide Lists, Sourced, SliceCorrect, SliceEdge, DiskOk, RecordsOk, OnePerStamp, EntersSome, EntersUnstored,
         StartsExtent, RangeIs;
    var plan; ghost var fs;
    plan, fs := PlanMerged(ix, co, inode, off, want);
    ValidRecords(ix);
    PlanServed(ix.stripeSize, ix.View(), inode, co.Held(inode), fs, plan, off, off + want);
    ok := FillSlices(ix, co, inode, fs, plan, p, off, want);
  }

  lemma NothingRead(all: set<Extent>, off: int)
    ensures RangeIs(all, off, [])
  {
  }

  /** One turn of the copy loop: the slice that starts behind what is filled already. */
  method FillSlice(ix: Index, co: Coalescer, inode: nat, ghost fs: seq<Fragment>, s: ReadSlice, p: array<byte>,
                   off: nat, cur: nat, want: nat)
    returns (ok: bool)
    requires ix.Valid() && co.Linked(inode) && want <= p.Length
    requires OnePerStamp(MergedExtents(ix, co, inode)) && forall x :: x in co.Held(inode) ==> x.data != []
    requires Lists(MergedExtents(ix, co, inode), fs, off, off + want)
    requires Sourced(ix.stripeSize, ix.View(), inode, co.Held(inode), fs)
    requires SliceCorrect(fs, s) && (!s.sparse ==> SliceEdge(fs, s, off)) && s.off == off + cur && s.len > 0
    requires cur + s.len <= want
    requires RangeIs(MergedExtents(ix, co, inode), off, p[..cur])
    modifies p
    ensures ok <==> StartsExtent(co.Held(inode), s)
    ensures ok ==> RangeIs(MergedExtents(ix, co, inode), off, p[..cur + s.len])
    ensures p[want..] == old(p[want..])
  {
    hide Lists, Sourced, SliceCorrect, SliceEdge, DiskOk, RecordsOk, OnePerStamp, StartsExtent, RangeIs, MergedExtents;
    var bytes := FetchSlice(ix, co, inode, fs, s, off, off + want);
    if bytes.None? {
      return false;
    }
    ghost var before := p[..cur];
    RangeConcat(MergedExtents(ix, co, inode), off, before, bytes.value);
    CopyInto(p, cur, bytes.value);
    assert p[..cur + s.len] == before + bytes.value;
    return true;
  }

  /** The copy loop of ReadAtCtx. */
  method FillSlices(ix: Index, co: Coalescer, inode: nat, ghost fs: seq<Fragment>, plan: seq<ReadSlice>, p: array<byte>,
                    off: nat, want: nat)
    returns (ok: bool)
    requires ix.Valid() && co.Linked(inode) && 0 < want <= p.Length
    requires OnePerStamp(MergedExtents(ix, co, inode)) && forall x :: x in co.Held(inode) ==> x.data != []
    requires Lists(MergedExtents(ix, co, inode), fs, off, off + want)
    requires Sourced(ix.stripeSize, ix.View(), inode, co.Held(inode), fs)
    requires IsPlan(fs, plan, off, off + want) && forall s :: s in plan && !s.sparse ==> SliceEdge(fs, s, off)
    modifies p
    ensures ok <==> forall s :: s in plan ==> StartsExtent(co.Held(inode), s)
    ensures ok ==> RangeIs(MergedExtents(ix, co, inode), off, p[..want])
    ensures p[want..] == old(p[want..])
  {
    hide Lists, Sourced, SliceCorrect, SliceEdge, DiskOk, RecordsOk, OnePerStamp, StartsExtent, RangeIs, MergedExtents;
    var cur := 0;
    NothingRead(MergedExtents(ix, co, inode), off);
    assert p[..0] == [];
    for i := 0 to |plan|
      invariant cur == (if i < |plan| then plan[i].off else plan[i - 1].off + plan[i - 1].len) - off
      invariant 0 <= cur <= want && RangeIs(MergedExtents(ix, co, inode), off, p[..cur])
      invariant forall j :: 0 <= j < i ==> StartsExtent(co.Held(inode), plan[j])
      invariant p[want..] == old(p[want..])
    {
      var s := plan[i];
      assert s in plan;
      TileInside(plan, off, off + want, s);
      ok := FillSlice(ix, co, inode, fs, s, p, off, cur, want);
      if !ok {
        return;
      }
      cur := cur + s.len;
    }
    ok := true;
  }

  /** copy: overwrite part of the buffer. */
  method CopyInto(p: array<byte>, at: nat, bytes: seq<byte>)
    requires at + |bytes| <= p.Length
    modifies p
    ensures p[..] == old(p[..at]) + bytes + old(p[at + |bytes|..])
  {
    for i := 0 to |bytes|
      invariant p[..at] == old(p[..at]) && p[at..at + i] == bytes[..i] && p[at + i..] == old(p[at + i..])
    {
      p[at + i] := bytes[i];
    }
  }

  lemma RangeConcat(all: set<Extent>, off: int, a: seq<byte>, b: seq<byte>)
    requires RangeIs(all, off, a) && RangeIs(all, off + |a|, b)
    ensures RangeIs(all, off, a + b)
  {
    forall i | |a| <= i < |a + b|
      ensures ByteIs(all, off + i, (a + b)[i])
    {
      assert ByteIs(all, off + |a| + (i - |a|), b[i - |a|]);
    }
  }

  // ----- what a read returns on a run

  /** After any run, with the buffer in the run's state and the index holding its files, a read may be issued, and it
      returns the specification's bytes and stops at its size. */
  lemma ReadOnEveryRun(cfg: Config, states: seq<State>, events: seq<Event>, k: nat, ix: Index, co: Coalescer, i: nat,
                       off: nat, bytes: seq<byte>)
    requires Run(cfg, states, events) && k <= |events| && i in SpecAt(states, events, k)
    requires ix.Valid() && co.Agrees(states[k]) && i in states[k].files
    requires DiskExtents(ix.stripeSize, ix.View(), i) == states[k].files[i].frags
    ensures co.Linked(i) && OnePerStamp(MergedExtents(ix, co, i)) && forall x :: x in co.Held(i) ==> x.data != []
    ensures var f := SpecAt(states, events, k)[i];
            && co.LiveSize(i, states[k].files[i].size) == f.size
            && (RangeIs(MergedExtents(ix, co, i), off, bytes) <==>
                forall n :: 0 <= n < |bytes| ==> bytes[n] == if off + n in f.bytes then f.bytes[off + n] else 0)
  {
    hide Links, Memory, Stamps, Durable, Enabled, Next, InodeOk, DiskExtents, SpecAt, OnePerStamp;
    EveryRun(cfg, states, events, k);
    var f := SpecAt(states, events, k)[i];
    assert InodeOk(states[k], i, f);
    BufferLinked(co, states[k], i);
    ReadMatchesSpec(ix, co, states[k], i, f, off, bytes);
  }

  lemma BufferLinked(co: Coalescer, s: State, i: nat)
    requires co.Agrees(s) && Links(s) && Stamps(s)
    ensures co.Linked(i) && forall x :: x in co.Held(i) ==> x.data != []
  {
  }

  lemma ReadMatchesSpec(ix: Index, co: Coalescer, s: State, i: nat, f: SpecFile, off: nat, bytes: seq<byte>)
    requires ix.Valid() && co.Agrees(s) && co.Linked(i) && InodeOk(s, i, f)
    requires DiskExtents(ix.stripeSize, ix.View(), i) == s.files[i].frags
    ensures OnePerStamp(MergedExtents(ix, co, i)) && co.LiveSize(i, s.files[i].size) == f.size
    ensures RangeIs(MergedExtents(ix, co, i), off, bytes) <==>
      forall k :: 0 <= k < |bytes| ==> bytes[k] == if off + k in f.bytes then f.bytes[off + k] else 0
  {
    hide ReadsAs, OnePerStamp, DiskExtents, Newest;
    var all := MergedExtents(ix, co, i);
    assert all == Merged(s, i);
    forall p, b
      ensures ByteIs(all, p, b) <==> b == if p in f.bytes then f.bytes[p] else 0
    {
      ByteIsSpec(all, f.bytes, p, b);
    }
  }

  lemma ByteIsSpec(all: set<Extent>, bytes: map<int, byte>, p: int, b: byte)
    requires ReadsAs(all, bytes) && OnePerStamp(all)
    ensures ByteIs(all, p, b) <==> b == if p in bytes then bytes[p] else 0
  {
    if p in bytes {
      var e :| Newest(all, e, p) && e.At(p) == bytes[p];
    }
  }

  /** Two bytes are written at 0; a read of the second one fails. */
  method ReadInsideFails(crc: Checksum) returns (ix: Index, co: Coalescer, n: Option<nat>)
    ensures ix.Valid() && DiskExtents(ix.stripeSize, ix.View(), 5) == {}
    ensures co.Linked(5) && co.Held(5) == {Extent(1, 0, [7, 7])} && co.LiveSize(5, 0) == 2
    ensures n == None
  {
    hide DiskOk, DiskExtents, EntersUnstored, EntersSome, Newest, InBuffer;
    ix := NewIndex(crc, 4, 1000);
    ValidRecords(ix);
    NothingStored(4, ix.View(), 5);
    co := WriteTwo();
    EntersSecond();
    var p := new byte[1];
    HeldAlone(co.Held(5), Extent(1, 0, [7, 7]));
    n := ReadAt(ix, co, 5, Some(0), p, 1);
  }

  lemma NothingStored(width: nat, d: Disk, inode: nat)
    requires RecordsOk(width, d) && d.frags == map[]
    ensures DiskExtents(width, d, inode) == {}
  {
  }

  lemma HeldAlone(es: set<Extent>, e: Extent)
    requires es == {e}
    ensures OnePerStamp({} + es)
  {
  }

  lemma EntersSecond()
    ensures EntersUnstored({}, {Extent(1, 0, [7, 7])}, 1, 2)
  {
    var e := Extent(1, 0, [7, 7]);
    assert Newest({} + {e}, e, 1);
    assert EntersInside({} + {e}, {e}, e, 1, 1);
  }

  /** The write path's four steps for [7, 7] at offset 0 of inode 5. */
  method WriteTwo() returns (co: Coalescer)
    ensures fresh(co) && co.Linked(5) && co.Held(5) == {Extent(1, 0, [7, 7])} && co.LiveSize(5, 0) == 2
  {
    hide Chunks;
    co := new Coalescer(4);
    ghost var cfg, s := Config(4, 100), EMPTY_STATE;
    co.Acquire(cfg, s, 1, 5, 0, [7, 7]);
    s := DoAcquire(s, 1, 5, 0, [7, 7]);
    ghost var id0 := co.nextID;
    var b := co.GetOrCreateBuf(s, 1, 5);
    s := DoGetBuf(s, 1, id0);
    id0 := co.nextID;
    var ok := co.WriteLocked(cfg, s, 1, b, 0, [7, 7]);
    s := DoAppend(cfg, s, 1, id0);
    OneChunk();
    assert s.batches[id0].extents == [Extent(1, 0, [7, 7])];
    assert Elements([Extent(1, 0, [7, 7])]) == {Extent(1, 0, [7, 7])};
  }

  lemma OneChunk()
    ensures Stamped(Chunks(4, 0, [7, 7]), 0) == [Extent(1, 0, [7, 7])]
  {
    assert ChunkLen(4, 0, 2) == 2;
    ChunksStep(4, 0, [7, 7]);
    assert [7, 7][..2] == [7, 7] && [7, 7][2..] == [];
  }

  /** Where an extent is in memory and on disk, the plan may take either: the read of its second byte succeeds by one
      plan and fails by the other. */
  lemma TieDecides()
    ensures var e := Extent(1, 0, [7, 7]);
            var fs := [Fragment(1, 0, 2, HOT, 0, 40), MemFragment(e)];
            var fromDisk, fromMemory := [SliceOf(fs[0].Clip(1, 2))], [SliceOf(fs[1].Clip(1, 2))];
            && IsPlan(fs, fromDisk, 1, 2) && SliceEdge(fs, fromDisk[0], 1) && StartsExtent({e}, fromDisk[0])
            && IsPlan(fs, fromMemory, 1, 2) && SliceEdge(fs, fromMemory[0], 1) && !StartsExtent({e}, fromMemory[0])
  {
    var e := Extent(1, 0, [7, 7]);
    var fs := [Fragment(1, 0, 2, HOT, 0, 40), MemFragment(e)];
    assert Wins(fs, fs[0], 1) && Wins(fs, fs[1], 1);
    assert SliceFrom(fs[0], SliceOf(fs[0].Clip(1, 2))) && SliceFrom(fs[1], SliceOf(fs[1].Clip(1, 2)));
  }
}
