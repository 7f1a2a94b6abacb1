/** The coalescer's locked sections as the program runs them, each proved to be the step of the same name. */
module CoalescerCode {
  import opened Bytes
  import opened Stripes
  import opened Extents
  import opened Coalescers
  import opened CoalescerMemory
  import opened CoalescerRefinement
  import opened Fragments
  import Shadow

  lemma {:induction false} StampedPrefix(cs: seq<Chunk>, base: nat, i: nat)
    requires i < |cs|
    ensures Stamped(cs[..i + 1], base) == Stamped(cs[..i], base) + [Extent(base + 1 + i, cs[i].off, cs[i].data)]
  {
  }

  lemma SumLenOne(es: seq<Extent>, e: Extent)
    ensures SumLen(es + [e]) == SumLen(es) + |e.data|
  {
    assert (es + [e])[..|es|] == es;
  }

  lemma {:induction false} ClippedStep(es: seq<Extent>, size: nat, e: Extent)
    ensures Clipped(es + [e], size) == Clipped(es, size) + if e.off >= size then [] else [e.Below(size)]
  {
    assert (es + [e])[..|es|] == es;
  }

  lemma MaxEndStep(es: seq<Extent>, e: Extent)
    ensures MaxEnd(es + [e]) == Max(MaxEnd(es), e.End())
  {
    assert (es + [e])[..|es|] == es;
  }

  /** The clip closure: keep, shorten or drop each extent, counting the bytes given up. */
  method ClipExtents(es: seq<Extent>, size: nat) returns (kept: seq<Extent>, newMax: nat, freed: int)
    ensures kept == Clipped(es, size) && newMax == MaxEnd(kept) && freed == SumLen(es) - SumLen(kept) >= 0
  {
    hide Clipped, MaxEnd, SumLen;
    kept, newMax, freed := [], 0, 0;
    NothingYet(size);
    for i := 0 to |es|
      invariant kept == Clipped(es[..i], size) && newMax == MaxEnd(kept)
      invariant freed == SumLen(es[..i]) - SumLen(kept) >= 0
    {
      var e := es[i];
      assert es[..i + 1] == es[..i] + [e];
      ClippedStep(es[..i], size, e);
      SumLenOne(es[..i], e);
      if e.off >= size {
        assert kept + [] == kept;
        freed := freed + |e.data|;
      } else if e.off + |e.data| > size {
        var keepLen := size - e.off;
        freed := freed + |e.data| - keepLen;
        var short := e.(data := e.data[..keepLen]);
        SumLenOne(kept, short);
        MaxEndStep(kept, short);
        kept := kept + [short];
        if e.off + keepLen > newMax {
          newMax := e.off + keepLen;
        }
      } else {
        SumLenOne(kept, e);
        MaxEndStep(kept, e);
        kept := kept + [e];
        if e.off + |e.data| > newMax {
          newMax := e.off + |e.data|;
        }
      }
    }
    assert es[..|es|] == es;
  }

  lemma NothingYet(size: nat)
    ensures Clipped([], size) == [] && MaxEnd([]) == 0 && SumLen([]) == 0
  {
  }

  /** The write loop of coalescer.Write: one extent per chunk, with running byte count and end. */
  method AppendChunks(width: nat, was: Batch, off: nat, data: seq<byte>, seqGen: nat)
    returns (batch: Batch, seqGen': nat)
    requires width > 0 && data != []
    ensures var news := Stamped(Chunks(width, off, data), seqGen);
            seqGen' == seqGen + |news|
            && batch == was.(extents := was.extents + news, bytes := was.bytes + |data|,
                             maxEnd := Max(was.maxEnd, off + |data|))
  {
    hide Chunks, SumLen;
    var chunks := Split(width, off, data);
    ChunksTile(width, off, data);
    StampedLength(width, off, data, seqGen);
    var extents, bytes, maxEnd := was.extents, was.bytes, was.maxEnd;
    seqGen' := seqGen;
    NothingYet(0);
    assert Stamped(chunks[..0], seqGen) == [];
    for i := 0 to |chunks|
      invariant seqGen' == seqGen + i && extents == was.extents + Stamped(chunks[..i], seqGen)
      invariant bytes == was.bytes + SumLen(Stamped(chunks[..i], seqGen))
      invariant maxEnd == if i == 0 then was.maxEnd else Max(was.maxEnd, chunks[i - 1].off + |chunks[i - 1].data|)
    {
      var c := chunks[i];
      StampedPrefix(chunks, seqGen, i);
      var e := Extent(seqGen + 1 + i, c.off, c.data);
      SumLenOne(Stamped(chunks[..i], seqGen), e);
      seqGen' := seqGen' + 1;
      extents := extents + [Extent(seqGen', c.off, c.data)];
      bytes := bytes + |c.data|;
      if c.off + |c.data| > maxEnd {
        maxEnd := c.off + |c.data|;
      }
      assert i > 0 ==> chunks[i - 1].off + |chunks[i - 1].data| == chunks[i - 1 + 1].off;
    }
    assert chunks[..|chunks|] == chunks;
    batch := was.(extents := extents, bytes := bytes, maxEnd := maxEnd);
  }

  /** The bytes a batch gives up to a clip. */
  ghost function Freed(c: Batch, size: nat): int { SumLen(c.extents) - SumLen(Clipped(c.extents, size)) }

  /** The batch after a clip that takes `charge` off its byte count. */
  ghost function Charged(c: Batch, size: nat, charge: int): Batch { ClipBatch(c, size).(bytes := c.bytes - charge) }

  lemma ChargedOwn(c: Batch, size: nat)
    ensures Charged(c, size, Freed(c, size)) == ClipBatch(c, size)
    ensures Freed(c, size) == SumLen(c.extents) - SumLen(Clipped(c.extents, size))
  {
  }

  lemma ChargedMore(c: Batch, size: nat, extra: int)
    requires c.bytes == SumLen(c.extents)
    ensures var n := Charged(c, size, extra + Freed(c, size)); n.bytes == SumLen(n.extents) <==> extra == 0
  {
  }

  /** The buffer's batches exist and are two. */
  ghost predicate Attached(batches: map<nat, Batch>, b: Buf) {
    && (b.current.Some? ==> b.current.value in batches)
    && (b.flushing.Some? ==> b.flushing.value in batches)
    && (b.current.Some? ==> b.flushing != b.current)
  }

  ghost function FreedBoth(batches: map<nat, Batch>, b: Buf, size: nat): int
    requires Attached(batches, b)
  {
    (if b.current.Some? then Freed(batches[b.current.value], size) else 0)
    + (if b.flushing.Some? then Freed(batches[b.flushing.value], size) else 0)
  }

  /** Both batches clipped, the flushing one charged for what either gave up. */
  ghost function ClippedBoth(batches: map<nat, Batch>, b: Buf, size: nat): map<nat, Batch>
    requires Attached(batches, b)
  {
    var clipped :=
      if b.current.Some?
      then batches[b.current.value := Charged(batches[b.current.value], size, Freed(batches[b.current.value], size))]
      else batches;
    if b.flushing.Some?
    then clipped[b.flushing.value := Charged(batches[b.flushing.value], size, FreedBoth(batches, b, size))]
    else clipped
  }

  ghost predicate BothIn(s: State, inode: nat) {
    inode in s.table && s.table[inode] in s.bufs && Attached(s.batches, s.bufs[s.table[inode]])
  }

  /** What InvalidatePastSize leaves. */
  ghost function InvalidatedBoth(s: State, inode: nat, size: nat): State
    requires BothIn(s, inode)
  {
    var b := s.bufs[s.table[inode]];
    s.(batches := ClippedBoth(s.batches, b, size),
       bufs := s.bufs[s.table[inode] := b.(liveSize := Min(b.liveSize, size))],
       held := s.held - FreedBoth(s.batches, b, size))
  }

  /** Where the program's fields agree with m they agree with n. */
  ghost predicate SameFields(m: State, n: State) {
    m.batches == n.batches && m.bufs == n.bufs && m.table == n.table && m.seqGen == n.seqGen && m.held == n.held
  }

  lemma NotBuffered(s: State, inode: nat, size: nat)
    requires inode !in s.table
    ensures Invalidated(s, inode, size) == s
  {
  }

  lemma BothOrOne(s: State, inode: nat, size: nat)
    requires Counted(s) && BothIn(s, inode)
    ensures var b := s.bufs[s.table[inode]]; var n := InvalidatedBoth(s, inode, size);
            if b.flushing.None? then SameFields(n, Invalidated(s, inode, size))
            else (n.batches[b.flushing.value].bytes == SumLen(n.batches[b.flushing.value].extents)
                  <==> b.current.None? || Freed(s.batches[b.current.value], size) == 0)
  {
    hide Clipped, SumLen, Charged, Freed, ClipBatch;
    var b := s.bufs[s.table[inode]];
    if b.current.Some? {
      ChargedOwn(s.batches[b.current.value], size);
    }
    if b.flushing.Some? {
      var freed := if b.current.Some? then Freed(s.batches[b.current.value], size) else 0;
      ChargedMore(s.batches[b.flushing.value], size, freed);
    }
  }

  const ONE_BYTE := Batch([Extent(1, 0, [1])], 1, 1, 0, Flushing(0), false, false)
  const TWO_BYTES := Batch([Extent(2, 0, [1, 1])], 2, 2, 0, Current, false, false)

  lemma CutToOne()
    ensures SumLen(ONE_BYTE.extents) == 1 && SumLen(TWO_BYTES.extents) == 2
    ensures Freed(ONE_BYTE, 1) == 0 && Freed(TWO_BYTES, 1) == 1 && Clipped(ONE_BYTE.extents, 1) == ONE_BYTE.extents
  {
    hide Clipped, SumLen, MaxEnd;
    var a, b := Extent(2, 0, [1, 1]), Extent(1, 0, [1]);
    NothingYet(1);
    ClippedStep([], 1, a);
    ClippedStep([], 1, b);
    SumLenOne([], a);
    SumLenOne([], a.Below(1));
    SumLenOne([], b);
    assert [] + [a] == [a] && [] + [b] == [b] && [] + [a.Below(1)] == [a.Below(1)];
  }

  /** Inode 5 has one byte at 0 in flight and two more at 0 in memory. */
  const TWO_BATCHES := State(
    map[1 := ONE_BYTE, 2 := TWO_BYTES], map[0 := Buf(5, Some(2), Some(1), 2, false)], map[5 := 0],
    map[5 := StoredFile({}, 0)], 2, 3, map[0 := Swapped(0, 1)], {}, {})

  /** The batch keeps its extents and counts nothing. */
  ghost predicate Miscounts(s: State, n: State, c: nat) {
    c in s.batches && c in n.batches && n.batches[c].extents == s.batches[c].extents != [] && n.batches[c].bytes == 0
  }

  /** Truncating it to 1 leaves the batch in flight with its byte and a count of none. */
  lemma TruncateMiscounts()
    ensures BothIn(TWO_BATCHES, 5) && Counted(TWO_BATCHES)
    ensures Miscounts(TWO_BATCHES, InvalidatedBoth(TWO_BATCHES, 5, 1), 1)
    ensures !Counted(InvalidatedBoth(TWO_BATCHES, 5, 1))
  {
    CutToOne();
    hide Clipped, SumLen, MaxEnd, Freed;
    var s := TWO_BATCHES;
    var n := InvalidatedBoth(s, 5, 1);
    assert s.batches[1] == ONE_BYTE && s.batches[2] == TWO_BYTES;
    assert n.batches[1] == Charged(ONE_BYTE, 1, 1);
  }

  // ----- buffered extents as fragments

  /** The fragment a reader plans with: its address is the stamp. */
  function MemFragment(e: Extent): Fragment { Fragment(e.stamp, e.off, |e.data|, MEM, 0, e.stamp) }

  predicate Meets(e: Extent, lo: int, hi: int) { e.End() > lo && e.off < hi }

  /** fs is exactly the fragments of the extents that meet the range. */
  ghost predicate ListsExtents(es: set<Extent>, lo: int, hi: int, fs: seq<Fragment>) {
    && (forall e :: e in es && Meets(e, lo, hi) ==> MemFragment(e) in fs)
    && (forall f :: f in fs ==> exists e :: e in es && Meets(e, lo, hi) && f == MemFragment(e))
  }

  /** The collect closure of FragmentsFor, over one batch. */
  method CollectExtents(es: seq<Extent>, lo: int, hi: int) returns (fs: seq<Fragment>)
    ensures ListsExtents(Elements(es), lo, hi, fs)
  {
    fs := [];
    for i := 0 to |es|
      invariant ListsExtents(Elements(es[..i]), lo, hi, fs)
    {
      var e := es[i];
      assert es[..i + 1] == es[..i] + [e];
      assert Elements(es[..i + 1]) == Elements(es[..i]) + {e};
      ListsOneMore(Elements(es[..i]), e, lo, hi, fs);
      if e.off + |e.data| > lo && e.off < hi {
        fs := fs + [Fragment(e.stamp, e.off, |e.data|, MEM, 0, e.stamp)];
      }
    }
    assert es[..|es|] == es;
  }

  lemma ListsOneMore(es: set<Extent>, e: Extent, lo: int, hi: int, fs: seq<Fragment>)
    requires ListsExtents(es, lo, hi, fs)
    ensures ListsExtents(es + {e}, lo, hi, if Meets(e, lo, hi) then fs + [MemFragment(e)] else fs)
  {
  }

  lemma NothingListed(lo: int, hi: int)
    ensures ListsExtents({}, lo, hi, [])
  {
  }

  lemma ListsUnion(a: set<Extent>, b: set<Extent>, lo: int, hi: int, fs: seq<Fragment>, gs: seq<Fragment>)
    requires ListsExtents(a, lo, hi, fs) && ListsExtents(b, lo, hi, gs)
    ensures ListsExtents(a + b, lo, hi, fs + gs)
  {
  }

  /** The find closure of CopyOut. */
  method FindExtent(es: seq<Extent>, stamp: int) returns (r: Option<Extent>)
    ensures r.Some? ==> r.value in Elements(es) && r.value.stamp == stamp
    ensures r.None? ==> forall e :: e in Elements(es) ==> e.stamp != stamp
  {
    for i := 0 to |es|
      invariant forall j :: 0 <= j < i ==> es[j].stamp != stamp
    {
      if es[i].stamp == stamp {
        return Some(es[i]);
      }
    }
    return None;
  }

  /** CopyOut can serve the locator, planned to start at base, from e. */
  predicate Serves(e: Extent, loc: Shadow.Locator, base: int) {
    e.stamp == loc.offset && e.off <= base && base - e.off + loc.length <= |e.data|
  }

  class Coalescer {
    const width: nat
    var batches: map<nat, Batch>
    var bufs: map<nat, Buf>
    var table: map<nat, nat>
    var seqGen: nat
    var held: int
    var nextID: nat

    /** The program's fields are the machine's. */
    ghost predicate Agrees(s: State)
      reads this
    {
      batches == s.batches && bufs == s.bufs && table == s.table && seqGen == s.seqGen && held == s.held
    }

    ghost predicate FreshID()
      reads this
    {
      nextID !in batches && nextID !in bufs && forall i :: i in batches || i in bufs ==> i < nextID
    }

    ghost function Machine(): State
      reads this
    {
      State(batches, bufs, table, map[], seqGen, held, map[], {}, {})
    }

    /** Every extent buffered for the inode. */
    ghost function Held(inode: nat): set<Extent>
      reads this
    {
      InBuffer(Machine(), inode)
    }

    /** Stat's size: LiveAttrs raises what the node says. */
    function LiveSize(inode: nat, nodeSize: nat): nat
      requires Linked(inode)
      reads this
    {
      if inode in table && bufs[table[inode]].liveSize > nodeSize then bufs[table[inode]].liveSize else nodeSize
    }

    ghost predicate Linked(inode: nat)
      reads this
    {
      inode in table ==> table[inode] in bufs && Attached(batches, bufs[table[inode]])
    }

    /** FragmentsFor: every buffered extent that meets the range, current before flushing. */
    method FragmentsFor(inode: nat, off: nat, length: int) returns (fs: seq<Fragment>)
      requires Linked(inode)
      ensures length <= 0 ==> fs == []
      ensures length > 0 ==> ListsExtents(Held(inode), off, off + length, fs)
    {
      fs := [];
      if length <= 0 || inode !in table {
        return;
      }
      hide ListsExtents;
      var buf := bufs[table[inode]];
      NothingListed(off, off + length);
      var now, flushing := [], [];
      if buf.current.Some? {
        now := CollectExtents(batches[buf.current.value].extents, off, off + length);
      }
      if buf.flushing.Some? {
        flushing := CollectExtents(batches[buf.flushing.value].extents, off, off + length);
      }
      fs := now + flushing;
      ListsUnion(if buf.current.Some? then Elements(batches[buf.current.value].extents) else {},
                 if buf.flushing.Some? then Elements(batches[buf.flushing.value].extents) else {},
                 off, off + length, now, flushing);
    }

    /** CopyOut: the bytes of the buffered extent whose stamp is the locator's offset, from base on; None for its errors
        (no buffer, no such extent, out of the extent's bounds). */
    method CopyOut(inode: nat, loc: Shadow.Locator, base: int) returns (r: Option<seq<byte>>)
      requires Linked(inode) && loc.length >= 0
      ensures r.Some? ==>
        exists e :: e in Held(inode) && Serves(e, loc, base)
            && r.value == e.data[base - e.off..base - e.off + loc.length]
      ensures OnePerStamp(Held(inode)) && r.None? ==> forall e :: e in Held(inode) ==> !Serves(e, loc, base)
    {
      if inode !in table {
        return None;
      }
      var buf := bufs[table[inode]];
      var found := None;
      if buf.current.Some? {
        found := FindExtent(batches[buf.current.value].extents, loc.offset);
      }
      if found.None? && buf.flushing.Some? {
        found := FindExtent(batches[buf.flushing.value].extents, loc.offset);
      }
      if found.None? {
        return None;
      }
      var e := found.value;
      assert e in Held(inode);
      var delta := base - e.off;
      if delta < 0 || delta + loc.length > |e.data| {
        return None;
      }
      assert Serves(e, loc, base);
      return Some(e.data[delta..delta + loc.length]);
    }

    constructor (width: nat)
      ensures this.width == width && Agrees(EMPTY_STATE) && FreshID()
    {
      this.width := width;
      batches, bufs, table, seqGen, held, nextID := map[], map[], map[], 0, 0, 0;
    }

    /** globalSem.Acquire, once it fits. */
    method Acquire(ghost cfg: Config, ghost s: State, ghost t: nat, ghost inode: nat, ghost off: nat, data: seq<byte>)
      requires Agrees(s) && FreshID() && CanAcquire(cfg, s, t, data)
      modifies this`held
      ensures Agrees(DoAcquire(s, t, inode, off, data)) && FreshID()
    {
      held := held + |data|;
    }

    /** close(batch.done), then globalSem.Release. */
    method ReleaseBatch(ghost s: State, ghost t: nat, c: nat)
      requires Agrees(s) && FreshID() && CanClose(s, t) && s.threads[t] == Settling(c)
      modifies this`batches, this`held
      ensures Agrees(DoRelease(DoClose(s, t), t)) && FreshID()
    {
      batches := batches[c := batches[c].(closed := true)];
      held := held - batches[c].bytes;
      batches := batches[c := batches[c].(phase := Released)];
    }

    method GetOrCreateBuf(ghost s: State, ghost t: nat, inode: nat) returns (b: nat)
      requires Agrees(s) && FreshID() && t in s.threads && s.threads[t].Writing? && s.threads[t].inode == inode
      modifies this
      ensures Agrees(DoGetBuf(s, t, old(nextID))) && FreshID()
      ensures DoGetBuf(s, t, old(nextID)).threads[t].buf == b
    {
      if inode in table {
        return table[inode];
      }
      b := nextID;
      nextID := nextID + 1;
      bufs := bufs[b := Buf(inode, None, None, 0, false)];
      table := table[inode := b];
    }

    /** Write, from taking the buffer's lock to giving it back. */
    method WriteLocked(ghost cfg: Config, ghost s: State, ghost t: nat, b: nat, off: nat, data: seq<byte>)
      returns (ok: bool)
      requires cfg.width == width > 0 && Agrees(s) && FreshID() && CanAppend(s, t, nextID) && data != []
      requires s.threads[t] == WriteHas(b, s.threads[t].inode, off, data)
      modifies this
      ensures Agrees(DoAppend(cfg, s, t, old(nextID))) && FreshID()
      ensures ok == !s.bufs[b].poisoned
    {
      hide Chunks, Stamped;
      var buf := bufs[b];
      if buf.poisoned {
        held := held - |data|;
        return false;
      }
      var c := nextID;
      var was := Batch([], 0, 0, b, Current, false, false);
      if buf.current.Some? {
        c := buf.current.value;
        was := batches[c];
      } else {
        nextID := nextID + 1;
      }
      var batch;
      batch, seqGen := AppendChunks(width, was, off, data, seqGen);
      batches := batches[c := batch];
      var live := buf.liveSize;
      if off + |data| > live {
        live := off + |data|;
      }
      bufs := bufs[b := buf.(current := Some(c), liveSize := live)];
      ok := true;
    }

    /** flushInode's swap by worker t; None when it bails. */
    method SwapLocked(ghost s: State, t: nat, b: nat) returns (c: Option<nat>)
      requires Agrees(s) && FreshID() && CanSwap(s, t, nextID) && s.threads[t] == FlushHas(b)
      modifies this
      ensures Agrees(DoSwap(s, t, old(nextID))) && FreshID()
      ensures c.None? ==> DoSwap(s, t, old(nextID)) == End(s, t)
      ensures c.Some? ==> DoSwap(s, t, old(nextID)).threads == s.threads[t := Swapped(b, c.value)]
    {
      var buf := bufs[b];
      if buf.flushing.Some? || buf.current.None? || batches[buf.current.value].bytes == 0 {
        return None;
      }
      c := buf.current;
      batches := batches[c.value := batches[c.value].(phase := Flushing(t))];
      batches := batches[nextID := Batch([], 0, 0, b, Current, false, false)];
      bufs := bufs[b := buf.(current := Some(nextID), flushing := c)];
      nextID := nextID + 1;
    }

    /** flushInode's settling of a stored (ok) or failed batch. */
    method SettleLocked(ghost s: State, t: nat, b: nat, c: nat, ok: bool)
      requires Agrees(s) && FreshID() && CanSettle(s, t) && s.threads[t] == Stored(b, c, ok)
      modifies this
      ensures Agrees(DoSettle(s, t)) && FreshID()
    {
      batches := batches[c := batches[c].(phase := Settled(t), failed := !ok)];
      var buf := bufs[b];
      if !ok {
        buf := buf.(poisoned := true);
      }
      bufs := bufs[b := buf.(flushing := None)];
    }

    /** Drop's section under the buffer's lock. */
    method DropLocked(ghost s: State, t: nat, b: nat) returns (freed: Option<nat>)
      requires Agrees(s) && FreshID() && CanDropEmpty(s, t) && s.threads[t] == DropSaw(s.threads[t].inode, b)
      modifies this
      ensures Agrees(DoDropEmpty(s, t)) && FreshID()
      ensures DoDropEmpty(s, t).threads[t] == DropFreed(s.threads[t].inode, freed)
    {
      var buf := bufs[b];
      freed := buf.current;
      if buf.current.Some? {
        var c := buf.current.value;
        batches := batches[c := batches[c].(phase := Settled(t), closed := true)];
      }
      bufs := bufs[b := buf.(current := None, liveSize := 0)];
    }

    /** One call of the clip closure: `freed` is shared by the calls, and the batch gives up all of it. */
    method Clip(c: nat, size: nat, freed: int) returns (freed': int)
      requires c in batches
      modifies this`batches
      ensures var was := old(batches[c]);
              freed' == freed + Freed(was, size) >= freed
              && batches == old(batches)[c := Charged(was, size, freed')]
    {
      hide Clipped, SumLen, MaxEnd;
      var batch := batches[c];
      var kept, newMax, own := ClipExtents(batch.extents, size);
      freed' := freed + own;
      batch := batch.(extents := kept, bytes := batch.bytes - freed');
      if batch.maxEnd > newMax {
        batch := batch.(maxEnd := newMax);
      }
      batches := batches[c := batch];
    }

    /** The two calls of the closure. */
    method ClipBoth(buf: Buf, size: nat) returns (freed: int)
      requires Attached(batches, buf)
      modifies this`batches
      ensures batches == ClippedBoth(old(batches), buf, size) && batches.Keys == old(batches).Keys
      ensures freed == FreedBoth(old(batches), buf, size) >= 0
    {
      hide Clipped, SumLen, Charged, Freed, ClipBatch;
      freed := 0;
      if buf.current.Some? {
        freed := Clip(buf.current.value, size, freed);
      }
      if buf.flushing.Some? {
        freed := Clip(buf.flushing.value, size, freed);
      }
    }

    /** InvalidatePastSize. While nothing of the inode is being flushed it is the machine's step. With a flush in
        flight, the flushing batch also gives up what current freed, so its byte count stays the sum of its extents
        exactly when nothing was freed from current. */
    method InvalidatePastSize(ghost s: State, inode: nat, size: nat)
      requires Agrees(s) && FreshID() && Counted(s)
      requires inode in table ==> table[inode] in bufs && Attached(batches, bufs[table[inode]])
      modifies this
      ensures FreshID() && Agrees(if inode in s.table then InvalidatedBoth(s, inode, size) else s)
      ensures inode !in s.table || s.bufs[s.table[inode]].flushing.None? ==> Agrees(Invalidated(s, inode, size))
      ensures inode in s.table && s.bufs[s.table[inode]].flushing.Some? ==>
        var b := s.bufs[s.table[inode]]; var f := InvalidatedBoth(s, inode, size).batches[b.flushing.value];
        (f.bytes == SumLen(f.extents) <==> b.current.None? || Freed(s.batches[b.current.value], size) == 0)
    {
      hide Clipped, SumLen, Charged, Freed, ClipBatch, Invalidated, ClippedBoth, FreedBoth;
      if inode !in table {
        NotBuffered(s, inode, size);
        return;
      }
      BothOrOne(s, inode, size);
      var b := table[inode];
      var buf := bufs[b];
      var freed := ClipBoth(buf, size);
      if buf.liveSize > size {
        buf := buf.(liveSize := size);
      }
      bufs := bufs[b := buf];
      if freed > 0 {
        held := held - freed;
      }
    }
  }
}
