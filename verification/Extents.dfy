/** Buffered and stored writes as stamped extents, and what a set of them reads as. */
module Extents {
  import opened Bytes
  import opened Stripes

  /** One chunk of a write with the stamp it keeps in memory and on disk. */
  datatype Extent = Extent(stamp: nat, off: nat, data: seq<byte>)
  {
    predicate Covers(p: int) { off <= p < off + |data| }

    function End(): nat { off + |data| }

    function At(p: int): byte
      requires Covers(p)
    {
      data[p - off]
    }

    /** The part below size. */
    function Below(size: nat): Extent
      requires off < size
    {
      if End() > size then this.(data := data[..size - off]) else this
    }
  }

  // ----- reading a set of extents

  ghost predicate Newest(es: set<Extent>, e: Extent, p: int) {
    e in es && e.Covers(p) && forall g :: g in es && g.Covers(p) ==> g.stamp <= e.stamp
  }

  /** bytes is what es reads as: where no extent covers an offset there is a hole, elsewhere the newest decides. */
  ghost predicate ReadsAs(es: set<Extent>, bytes: map<int, byte>) {
    && (forall e, p :: e in es && e.Covers(p) ==> p in bytes)
    && (forall p :: p in bytes ==> exists e :: Newest(es, e, p) && e.At(p) == bytes[p])
  }

  ghost predicate OnePerStamp(es: set<Extent>) {
    forall e, g :: e in es && g in es && e.stamp == g.stamp ==> e == g
  }

  // ----- a write

  ghost function Stamped(cs: seq<Chunk>, base: nat): (es: seq<Extent>)
    ensures |es| == |cs| && forall i :: 0 <= i < |cs| ==> es[i] == Extent(base + 1 + i, cs[i].off, cs[i].data)
  {
    seq(|cs|, i requires 0 <= i < |cs| => Extent(base + 1 + i, cs[i].off, cs[i].data))
  }

  ghost function Elements(es: seq<Extent>): set<Extent> { set e | e in es }

  ghost function Overwritten(bytes: map<int, byte>, off: nat, data: seq<byte>): map<int, byte> {
    map p | p in bytes.Keys + Offsets(off, |data|) :: if off <= p < off + |data| then data[p - off]
        else if p in bytes then bytes[p] else 0
  }

  ghost function Offsets(off: int, len: nat): (s: set<int>)
    ensures forall p :: p in s <==> off <= p < off + len
    decreases len
  {
    if len == 0 then {} else Offsets(off, len - 1) + {off + len - 1}
  }

  /** The extents of a write cover its range and carry its bytes. */
  lemma StampedBytes(width: nat, off: nat, data: seq<byte>, base: nat, e: Extent, p: int)
    requires width > 0 && e in Elements(Stamped(Chunks(width, off, data), base)) && e.Covers(p)
    ensures off <= p < off + |data| && e.At(p) == data[p - off]
  {
    hide Chunks;
    var cs := Chunks(width, off, data);
    ChunksTile(width, off, data);
    var i :| 0 <= i < |cs| && Stamped(cs, base)[i] == e;
    assert cs[i].Covers(p);
  }

  /** Adding the chunks of a write with stamps above everything there is overwrites exactly its range. */
  lemma WriteReads(width: nat, es: set<Extent>, bytes: map<int, byte>, base: nat, off: nat, data: seq<byte>)
    requires width > 0 && ReadsAs(es, bytes) && forall e :: e in es ==> e.stamp <= base
    ensures ReadsAs(es + Elements(Stamped(Chunks(width, off, data), base)), Overwritten(bytes, off, data))
  {
    hide Chunks, Stamped, Elements;
    var news := Elements(Stamped(Chunks(width, off, data), base));
    var all, after := es + news, Overwritten(bytes, off, data);
    forall e, p | e in news && e.Covers(p)
      ensures off <= p < off + |data| && e.At(p) == data[p - off]
    {
      StampedBytes(width, off, data, base, e, p);
    }
    forall p | p in after
      ensures exists e :: Newest(all, e, p) && e.At(p) == after[p]
    {
      if off <= p < off + |data| {
        var e := NewestOfWrite(width, es, base, off, data, p);
      } else {
        var e :| Newest(es, e, p) && e.At(p) == bytes[p];
        assert Newest(all, e, p);
      }
    }
  }

  lemma NewestOfWrite(width: nat, es: set<Extent>, base: nat, off: nat, data: seq<byte>, p: int) returns (e: Extent)
    requires width > 0 && off <= p < off + |data| && forall g :: g in es ==> g.stamp <= base
    ensures var news := Elements(Stamped(Chunks(width, off, data), base));
            e in news && Newest(es + news, e, p)
  {
    hide Chunks;
    var i := ChunkAt(width, off, data, p);
    NewChunkIsNewest(es, Chunks(width, off, data), base, i, p);
    e := Stamped(Chunks(width, off, data), base)[i];
  }

  lemma NewChunkIsNewest(es: set<Extent>, cs: seq<Chunk>, base: nat, i: nat, p: int)
    requires i < |cs| && cs[i].Covers(p) && forall j :: 0 <= j < |cs| && cs[j].Covers(p) ==> j == i
    requires forall e :: e in es ==> e.stamp <= base
    ensures Newest(es + Elements(Stamped(cs, base)), Stamped(cs, base)[i], p)
  {
    var news := Stamped(cs, base);
    assert news[i] in Elements(news);
    forall g | g in es + Elements(news) && g.Covers(p)
      ensures g.stamp <= news[i].stamp
    {
      if g in Elements(news) {
        var j :| 0 <= j < |news| && news[j] == g;
        assert cs[j].Covers(p);
      }
    }
  }

  // ----- a truncation

  ghost function CutSet(es: set<Extent>, size: nat): set<Extent> {
    set e | e in es && e.off < size :: e.Below(size)
  }

  ghost function CutBytes(bytes: map<int, byte>, size: nat): map<int, byte> {
    map p | p in bytes && p < size :: bytes[p]
  }

  lemma CutReads(es: set<Extent>, bytes: map<int, byte>, size: nat)
    requires ReadsAs(es, bytes)
    ensures ReadsAs(CutSet(es, size), CutBytes(bytes, size))
  {
    forall g, p | g in CutSet(es, size) && g.Covers(p)
      ensures p in CutBytes(bytes, size)
    {
      var e := CutFrom(es, size, g);
      assert e.Covers(p);
    }
    forall p | p in CutBytes(bytes, size)
      ensures exists g :: Newest(CutSet(es, size), g, p) && g.At(p) == CutBytes(bytes, size)[p]
    {
      var e :| Newest(es, e, p) && e.At(p) == bytes[p];
      CutNewest(es, size, e, p);
    }
  }

  lemma CutFrom(es: set<Extent>, size: nat, g: Extent) returns (e: Extent)
    requires g in CutSet(es, size)
    ensures e in es && e.off < size && g == e.Below(size) && forall p :: g.Covers(p) ==> e.Covers(p)
  {
    e :| e in es && e.off < size && g == e.Below(size);
  }

  /** The newest extent over an offset below the cut stays the newest. */
  lemma CutNewest(es: set<Extent>, size: nat, e: Extent, p: int)
    requires Newest(es, e, p) && p < size
    ensures Newest(CutSet(es, size), e.Below(size), p) && e.Below(size).At(p) == e.At(p)
  {
    forall h | h in CutSet(es, size) && h.Covers(p)
      ensures h.stamp <= e.stamp
    {
      var x := CutFrom(es, size, h);
    }
  }

  /** Sum of the payload lengths. */
  function SumLen(es: seq<Extent>): nat {
    if es == [] then 0 else SumLen(es[..|es| - 1]) + |es[|es| - 1].data|
  }

  lemma {:induction false} SumLenConcat(a: seq<Extent>, b: seq<Extent>)
    ensures SumLen(a + b) == SumLen(a) + SumLen(b)
    decreases |b|
  {
    if b == [] {
      assert a + b == a;
    } else {
      SumLenConcat(a, b[..|b| - 1]);
      assert (a + b)[..|a + b| - 1] == a + b[..|b| - 1];
    }
  }

  lemma {:induction false} StampedLength(width: nat, off: nat, data: seq<byte>, base: nat)
    requires width > 0
    ensures SumLen(Stamped(Chunks(width, off, data), base)) == |data|
    decreases |data|
  {
    var cs := Chunks(width, off, data);
    if data != [] {
      var n := ChunkLen(width, off, |data|);
      var rest := Chunks(width, off + n, data[n..]);
      StampedLength(width, off + n, data[n..], base + 1);
      var first := [Extent(base + 1, off, data[..n])];
      assert Stamped(cs, base) == first + Stamped(rest, base + 1);
      SumLenConcat(first, Stamped(rest, base + 1));
      assert first[..0] == [];
    }
  }
}
