/** Fragments and their 40-byte record (index/fragment.go:19-73). */
module Fragments {
  import opened Bytes
  import opened Keys

  /** The durable byte value of a tier (segment/segment.go:28-41). */
  type Tier = byte
  const HOT: Tier := 1
  const COLD: Tier := 2
  const MEM: Tier := 3

  /** A run of file bytes and where its payload lives; `stamp` is the write sequence number. */
  datatype Fragment = Fragment(
    stamp: nat, off: int, len: int, tier: Tier, segment: nat, segOff: int)
  {
    predicate Covers(p: int) { off <= p < off + len }

    /** The part of this fragment over [lo, hi), its payload address shifted along. */
    function Clip(lo: int, hi: int): Fragment {
      this.(off := lo, len := hi - lo, segOff := segOff + (lo - off))
    }

    /** Where in its segment the byte for file offset p lives. */
    function Address(p: int): int { segOff + (p - off) }
  }

  const FRAGMENT_SIZE: nat := 40

  predicate Int64(x: int) { -0x8000_0000_0000_0000 <= x < 0x8000_0000_0000_0000 }

  /** Two's complement view of a signed 64-bit field and back. */
  function AsUnsigned(x: int): nat
    requires Int64(x)
  {
    if x < 0 then x + U64 else x
  }

  function AsSigned(n: nat): int {
    if n < 0x8000_0000_0000_0000 then n else n - U64
  }

  predicate Encodable(f: Fragment) {
    f.stamp < U64 && Int64(f.off) && Int64(f.len) && f.segment < U32 && Int64(f.segOff)
  }

  ghost function EncodeFragment(f: Fragment): (r: seq<byte>)
    requires Encodable(f)
    ensures |r| == FRAGMENT_SIZE
  {
    LE(f.stamp, 8) + LE(AsUnsigned(f.off), 8) + LE(AsUnsigned(f.len), 8) + [f.tier, 0, 0, 0]
    + LE(f.segment, 4) + LE(AsUnsigned(f.segOff), 8)
  }

  function DecodeFragment(buf: seq<byte>): Fragment
    requires |buf| >= FRAGMENT_SIZE
  {
    Fragment(FromLE(buf[0..8]), AsSigned(FromLE(buf[8..16])), AsSigned(FromLE(buf[16..24])),
             buf[24], FromLE(buf[28..32]), AsSigned(FromLE(buf[32..40])))
  }

  /** The six fields of a record can be cut back out of it. */
  lemma Fields(a: seq<byte>, b: seq<byte>, c: seq<byte>, t: seq<byte>, d: seq<byte>, e: seq<byte>, rest: seq<byte>)
    requires |a| == |b| == |c| == |e| == 8 && |t| == |d| == 4
    ensures var r := a + b + c + t + d + e + rest;
            r[0..8] == a && r[8..16] == b && r[16..24] == c && r[24] == t[0] && r[28..32] == d && r[32..40] == e
  {
  }

  lemma FragmentRoundTrip(f: Fragment, rest: seq<byte>)
    requires Encodable(f)
    ensures DecodeFragment(EncodeFragment(f) + rest) == f
  {
    Widths();
    var a, b, c := LE(f.stamp, 8), LE(AsUnsigned(f.off), 8), LE(AsUnsigned(f.len), 8);
    var d, e := LE(f.segment, 4), LE(AsUnsigned(f.segOff), 8);
    Fields(a, b, c, [f.tier, 0, 0, 0], d, e, rest);
    LERoundTrip(f.stamp, 8);
    LERoundTrip(AsUnsigned(f.off), 8);
    LERoundTrip(AsUnsigned(f.len), 8);
    LERoundTrip(f.segment, 4);
    LERoundTrip(AsUnsigned(f.segOff), 8);
  }

  /** Where each field's digits lie: stamp, offset and length from 0, 8 and 16, the tier at 24, three zeros, the segment
      from 28 and the offset in it from 32, all little endian. */
  lemma FragmentLayout(f: Fragment)
    requires Encodable(f)
    ensures var b := EncodeFragment(f);
            && b[24] == f.tier && b[25] == b[26] == b[27] == 0
            && (forall i :: 0 <= i < 8 ==>
                  b[i] == Digit(f.stamp, i) && b[8 + i] == Digit(AsUnsigned(f.off), i)
                  && b[16 + i] == Digit(AsUnsigned(f.len), i) && b[32 + i] == Digit(AsUnsigned(f.segOff), i))
            && forall i :: 0 <= i < 4 ==> b[28 + i] == Digit(f.segment, i)
  {
    forall i | 0 <= i < 8
      ensures LE(f.stamp, 8)[i] == Digit(f.stamp, i) && LE(AsUnsigned(f.off), 8)[i] == Digit(AsUnsigned(f.off), i)
      ensures LE(AsUnsigned(f.len), 8)[i] == Digit(AsUnsigned(f.len), i)
      ensures LE(AsUnsigned(f.segOff), 8)[i] == Digit(AsUnsigned(f.segOff), i)
    {
      LEDigit(f.stamp, 8, i);
      LEDigit(AsUnsigned(f.off), 8, i);
      LEDigit(AsUnsigned(f.len), 8, i);
      LEDigit(AsUnsigned(f.segOff), 8, i);
    }
    forall i | 0 <= i < 4
      ensures LE(f.segment, 4)[i] == Digit(f.segment, i)
    {
      LEDigit(f.segment, 4, i);
    }
    hide Digit, LE;
  }

  ghost function EncodeAll(fs: seq<Fragment>): (r: seq<byte>)
    requires forall f :: f in fs ==> Encodable(f)
    ensures |r| == FRAGMENT_SIZE * |fs|
  {
    if fs == [] then [] else EncodeFragment(fs[0]) + EncodeAll(fs[1..])
  }

  /** Trailing bytes short of a whole record are ignored. */
  ghost function DecodeAll(buf: seq<byte>): seq<Fragment> {
    if |buf| < FRAGMENT_SIZE then [] else [DecodeFragment(buf)] + DecodeAll(buf[FRAGMENT_SIZE..])
  }

  lemma {:induction false} FragmentsRoundTrip(fs: seq<Fragment>)
    requires forall f :: f in fs ==> Encodable(f)
    ensures DecodeAll(EncodeAll(fs)) == fs
  {
    if fs != [] {
      FragmentsRoundTrip(fs[1..]);
      FragmentRoundTrip(fs[0], EncodeAll(fs[1..]));
      assert EncodeAll(fs)[FRAGMENT_SIZE..] == EncodeAll(fs[1..]);
    }
  }

  lemma {:induction false} EncodeAllAppend(fs: seq<Fragment>, f: Fragment)
    requires (forall g :: g in fs ==> Encodable(g)) && Encodable(f)
    ensures EncodeAll(fs + [f]) == EncodeAll(fs) + EncodeFragment(f)
  {
    hide EncodeFragment;
    var all, last := fs + [f], EncodeFragment(f);
    if fs == [] {
      assert all[0] == f && all[1..] == [];
      assert EncodeAll(all[1..]) == [] && EncodeAll(fs) == [];
    } else {
      var first := EncodeFragment(fs[0]);
      EncodeAllAppend(fs[1..], f);
      assert all[0] == fs[0] && all[1..] == fs[1..] + [f];
      assert EncodeAll(all) == first + (EncodeAll(fs[1..]) + last);
      assert EncodeAll(fs) == first + EncodeAll(fs[1..]);
    }
  }

  /** `s` with the bytes from `at` on overwritten by `b`. */
  ghost function Splice(s: seq<byte>, at: nat, b: seq<byte>): (r: seq<byte>)
    requires at + |b| <= |s|
    ensures |r| == |s|
  {
    s[..at] + b + s[at + |b|..]
  }

  lemma SpliceSplice(s: seq<byte>, at: nat, a: seq<byte>, b: seq<byte>)
    requires at + |a| + |b| <= |s|
    ensures Splice(Splice(s, at, a), at + |a|, b) == Splice(s, at, a + b)
  {
  }

  lemma SpliceNothing(s: seq<byte>)
    ensures Splice(s, 0, []) == s
  {
  }

  lemma SpliceWhole(s: seq<byte>, b: seq<byte>)
    requires |b| == |s|
    ensures Splice(s, 0, b) == b
  {
  }

  /** binary.LittleEndian.PutUint64 and PutUint32 on a buffer. */
  method PutLE(buf: array<byte>, at: nat, n: nat, width: nat)
    requires at + width <= buf.Length
    modifies buf
    ensures buf[..] == Splice(old(buf[..]), at, LE(n, width))
    decreases width
  {
    ghost var before := buf[..];
    if width > 0 {
      buf[at] := n % 256;
      assert buf[..] == Splice(before, at, [n % 256]);
      PutLE(buf, at + 1, n / 256, width - 1);
      SpliceSplice(before, at, [n % 256], LE(n / 256, width - 1));
    }
  }

  method PutTier(buf: array<byte>, at: nat, t: Tier)
    requires at + 4 <= buf.Length
    modifies buf
    ensures buf[..] == Splice(old(buf[..]), at, [t, 0, 0, 0])
  {
    buf[at], buf[at + 1], buf[at + 2], buf[at + 3] := t, 0, 0, 0;
  }

  method EncodeFragmentInto(buf: array<byte>, at: nat, f: Fragment)
    requires at + FRAGMENT_SIZE <= buf.Length && Encodable(f)
    modifies buf
    ensures buf[..] == Splice(old(buf[..]), at, EncodeFragment(f))
  {
    ghost var before := buf[..];
    ghost var a, b, c := LE(f.stamp, 8), LE(AsUnsigned(f.off), 8), LE(AsUnsigned(f.len), 8);
    ghost var t, d, e := [f.tier, 0, 0, 0], LE(f.segment, 4), LE(AsUnsigned(f.segOff), 8);
    PutLE(buf, at, f.stamp, 8);
    PutLE(buf, at + 8, AsUnsigned(f.off), 8);
    SpliceSplice(before, at, a, b);
    PutLE(buf, at + 16, AsUnsigned(f.len), 8);
    SpliceSplice(before, at, a + b, c);
    PutTier(buf, at + 24, f.tier);
    SpliceSplice(before, at, a + b + c, t);
    PutLE(buf, at + 28, f.segment, 4);
    SpliceSplice(before, at, a + b + c + t, d);
    PutLE(buf, at + 32, AsUnsigned(f.segOff), 8);
    SpliceSplice(before, at, a + b + c + t + d, e);
  }

  lemma EncodeStep(before: seq<byte>, fs: seq<Fragment>, i: nat)
    requires forall f :: f in fs ==> Encodable(f)
    requires i < |fs| && |before| == |fs| * FRAGMENT_SIZE
    ensures Splice(Splice(before, 0, EncodeAll(fs[..i])), i * FRAGMENT_SIZE, EncodeFragment(fs[i]))
            == Splice(before, 0, EncodeAll(fs[..i + 1]))
  {
    hide EncodeFragment;
    var done, next := EncodeAll(fs[..i]), EncodeFragment(fs[i]);
    SpliceSplice(before, 0, done, next);
    EncodeAllAppend(fs[..i], fs[i]);
    assert fs[..i + 1] == fs[..i] + [fs[i]];
  }

  method EncodeFragments(fs: seq<Fragment>) returns (out: seq<byte>)
    requires forall f :: f in fs ==> Encodable(f)
    ensures out == EncodeAll(fs)
  {
    hide EncodeFragment, Splice;
    var buf := new byte[|fs| * FRAGMENT_SIZE](i => 0);
    ghost var before := buf[..];
    SpliceNothing(before);
    for i := 0 to |fs|
      invariant buf[..] == Splice(before, 0, EncodeAll(fs[..i]))
    {
      EncodeFragmentInto(buf, i * FRAGMENT_SIZE, fs[i]);
      EncodeStep(before, fs, i);
    }
    assert fs[..|fs|] == fs;
    SpliceWhole(before, EncodeAll(fs));
    out := buf[..];
  }

  method DecodeFragments(buf: seq<byte>) returns (out: seq<Fragment>)
    ensures out == DecodeAll(buf)
  {
    var n := |buf| / FRAGMENT_SIZE;
    out := [];
    for i := 0 to n
      invariant DecodeAll(buf) == out + DecodeAll(buf[i * FRAGMENT_SIZE..])
    {
      var rest := buf[i * FRAGMENT_SIZE..];
      out := out + [DecodeFragment(rest)];
      assert rest[FRAGMENT_SIZE..] == buf[(i + 1) * FRAGMENT_SIZE..];
    }
  }
}
