/** Splitting a write at stripe boundaries: the loop of AppendToWithTxCtx (index/index.go:440-458), BulkSession.Write
    (index/index.go:795-830) and coalescer.Write (store/coalescer.go:237-260). */
module Stripes {
  import opened Bytes
  import opened Disks

  datatype Chunk = Chunk(off: nat, data: seq<byte>)
  {
    predicate Covers(p: int) { off <= p < off + |data| }
  }

  function ChunkLen(width: nat, off: nat, len: nat): (n: nat)
    requires width > 0 && len > 0
    ensures 0 < n <= len && off + n <= StripeStart(width, off / width + 1)
    ensures n == len || off + n == StripeStart(width, off / width + 1)
  {
    StripeUnique(width, off / width, off);
    var end := StripeStart(width, off / width + 1);
    if off + len > end then end - off else len
  }

  function Chunks(width: nat, off: nat, data: seq<byte>): (r: seq<Chunk>)
    requires width > 0
    decreases |data|
  {
    if data == [] then []
    else
      var n := ChunkLen(width, off, |data|);
      [Chunk(off, data[..n])] + Chunks(width, off + n, data[n..])
  }

  predicate StripeBounded(width: nat, c: Chunk)
    requires width > 0
  {
    c.data != [] && StripeStart(width, c.off / width) <= c.off
    && c.off + |c.data| <= StripeStart(width, c.off / width + 1)
  }

  /** The chunks tile the payload in order, none empty, none crossing a stripe boundary. */
  ghost predicate Tiling(width: nat, off: nat, data: seq<byte>, cs: seq<Chunk>)
    requires width > 0
  {
    && (forall i :: 0 <= i < |cs| ==> StripeBounded(width, cs[i]))
    && (cs == [] <==> data == [])
    && (cs != [] ==> cs[0].off == off && cs[|cs| - 1].off + |cs[|cs| - 1].data| == off + |data|)
    && (forall i :: 0 <= i < |cs| - 1 ==> cs[i].off + |cs[i].data| == cs[i + 1].off)
    && (forall i, p :: 0 <= i < |cs| && cs[i].Covers(p) ==>
          off <= p < off + |data| && cs[i].data[p - cs[i].off] == data[p - off])
  }

  lemma TilingCons(width: nat, off: nat, data: seq<byte>, n: nat, rest: seq<Chunk>)
    requires width > 0 && 0 < n <= |data| && StripeBounded(width, Chunk(off, data[..n]))
    requires Tiling(width, off + n, data[n..], rest)
    ensures Tiling(width, off, data, [Chunk(off, data[..n])] + rest)
  {
    hide StripeBounded;
    var cs := [Chunk(off, data[..n])] + rest;
    assert forall i :: 0 < i < |cs| ==> cs[i] == rest[i - 1];
    forall i, p | 0 <= i < |cs| && cs[i].Covers(p)
      ensures off <= p < off + |data| && cs[i].data[p - cs[i].off] == data[p - off]
    {
      if i > 0 {
        assert rest[i - 1].Covers(p);
      }
    }
  }

  lemma {:induction false} ChunksTile(width: nat, off: nat, data: seq<byte>)
    requires width > 0
    ensures Tiling(width, off, data, Chunks(width, off, data))
    decreases |data|
  {
    hide StripeStart, Tiling;
    if data == [] {
      EmptyTiling(width, off);
    } else {
      var n := ChunkLen(width, off, |data|);
      StripeUnique(width, off / width, off);
      ChunksTile(width, off + n, data[n..]);
      TilingCons(width, off, data, n, Chunks(width, off + n, data[n..]));
    }
  }

  lemma EmptyTiling(width: nat, off: nat)
    requires width > 0
    ensures Tiling(width, off, [], [])
  {
  }

  /** Every offset of the write lies in exactly one chunk. */
  lemma {:induction false} ChunkAt(width: nat, off: nat, data: seq<byte>, p: int) returns (i: nat)
    requires width > 0 && off <= p < off + |data|
    ensures var cs := Chunks(width, off, data);
            i < |cs| && cs[i].Covers(p)
    ensures var cs := Chunks(width, off, data);
            forall j :: 0 <= j < |cs| && cs[j].Covers(p) ==> j == i
    decreases |data|
  {
    var n := ChunkLen(width, off, |data|);
    var rest, cs := Chunks(width, off + n, data[n..]), Chunks(width, off, data);
    assert cs == [Chunk(off, data[..n])] + rest;
    ChunksTile(width, off + n, data[n..]);
    assert forall j :: 0 < j < |cs| ==> cs[j] == rest[j - 1];
    if p < off + n {
      i := 0;
    } else {
      var k := ChunkAt(width, off + n, data[n..], p);
      i := k + 1;
    }
  }

  /** How much of the rest belongs to the current stripe. */
  method Take(width: nat, cur: nat, len: nat) returns (take: nat)
    requires width > 0 && len > 0
    ensures take == ChunkLen(width, cur, len)
  {
    var stripe := cur / width;
    var stripeEnd := StripeStart(width, stripe + 1);
    take := len;
    if cur + len > stripeEnd {
      StripeUnique(width, stripe, cur);
      take := stripeEnd - cur;
    }
  }

  lemma ChunksStep(width: nat, off: nat, data: seq<byte>)
    requires width > 0 && data != []
    ensures var n := ChunkLen(width, off, |data|);
            Chunks(width, off, data) == [Chunk(off, data[..n])] + Chunks(width, off + n, data[n..])
  {
  }

  /** The splitting loop itself. */
  method Split(width: nat, off: nat, data: seq<byte>) returns (cs: seq<Chunk>)
    requires width > 0
    ensures cs == Chunks(width, off, data)
  {
    cs := [];
    var rem, cur: nat := data, off;
    while |rem| > 0
      invariant Chunks(width, off, data) == cs + Chunks(width, cur, rem)
      decreases |rem|
    {
      var take := Take(width, cur, |rem|);
      ChunksStep(width, cur, rem);
      hide Chunks;
      cs := cs + [Chunk(cur, rem[..take])];
      rem, cur := rem[take..], cur + take;
    }
  }
}
