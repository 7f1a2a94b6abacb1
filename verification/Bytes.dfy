/** Byte strings, fixed-width integers and the bytewise order of the key/value store. */
module Bytes {

  type byte = x: int | 0 <= x < 256

  datatype Option<+T> = None | Some(value: T)

  function Max(a: int, b: int): int { if a > b then a else b }
  function Min(a: int, b: int): int { if a < b then a else b }

  ghost function Pow256(width: nat): (r: nat)
    ensures r >= 1
  {
    if width == 0 then 1 else 256 * Pow256(width - 1)
  }

  /** Little-endian encoding, least significant byte first. */
  function LE(n: nat, width: nat): (r: seq<byte>)
    ensures |r| == width
    decreases width, n
  {
    if width == 0 then [] else [n % 256] + LE(n / 256, width - 1)
  }

  function FromLE(b: seq<byte>): nat {
    if b == [] then 0 else b[0] + 256 * FromLE(b[1..])
  }

  /** Big-endian encoding, most significant byte first. */
  function BE(n: nat, width: nat): (r: seq<byte>)
    ensures |r| == width
    decreases width, n
  {
    if width == 0 then [] else BE(n / 256, width - 1) + [n % 256]
  }

  function FromBE(b: seq<byte>): nat {
    if b == [] then 0 else 256 * FromBE(b[..|b| - 1]) + b[|b| - 1]
  }

  lemma {:induction false} LERoundTrip(n: nat, width: nat)
    requires n < Pow256(width)
    ensures FromLE(LE(n, width)) == n
    decreases width, n
  {
    if width > 0 {
      LERoundTrip(n / 256, width - 1);
      assert LE(n, width)[1..] == LE(n / 256, width - 1);
    }
  }

  lemma {:induction false} BERoundTrip(n: nat, width: nat)
    requires n < Pow256(width)
    ensures FromBE(BE(n, width)) == n
    decreases width, n
  {
    if width > 0 {
      BERoundTrip(n / 256, width - 1);
      assert BE(n, width)[..width - 1] == BE(n / 256, width - 1);
    }
  }

  lemma {:induction false} FromLEInverse(b: seq<byte>)
    ensures LE(FromLE(b), |b|) == b && FromLE(b) < Pow256(|b|)
  {
    if b != [] {
      FromLEInverse(b[1..]);
      assert FromLE(b) / 256 == FromLE(b[1..]) && FromLE(b) % 256 == b[0];
    }
  }

  /** The i-th digit of n in base 256, counted from the least significant one. */
  ghost function Digit(n: nat, i: nat): byte
    decreases i
  {
    if i == 0 then n % 256 else Digit(n / 256, i - 1)
  }

  /** Little endian means that the i-th byte is the i-th digit. */
  lemma {:induction false} LEDigit(n: nat, width: nat, i: nat)
    requires i < width
    ensures LE(n, width)[i] == Digit(n, i)
    decreases i, n
  {
    if i > 0 {
      LEDigit(n / 256, width - 1, i - 1);
    }
  }

  /** Bytewise lexicographic order; a proper prefix sorts first. */
  predicate Less(a: seq<byte>, b: seq<byte>) {
    b != [] && (a == [] || a[0] < b[0] || (a[0] == b[0] && Less(a[1..], b[1..])))
  }

  lemma {:induction false} LessIrreflexive(a: seq<byte>)
    ensures !Less(a, a)
  {
    if a != [] {
      LessIrreflexive(a[1..]);
    }
  }

  /** Two strings that start with equally long blocks compare block by block. */
  lemma {:induction false} LessBlocks(a: seq<byte>, b: seq<byte>, c: seq<byte>, d: seq<byte>)
    requires |a| == |b|
    ensures Less(a + c, b + d) <==> Less(a, b) || (a == b && Less(c, d))
  {
    if a == [] {
      assert a + c == c && b + d == d;
    } else {
      LessBlocks(a[1..], b[1..], c, d);
      assert (a + c)[1..] == a[1..] + c && (b + d)[1..] == b[1..] + d;
      assert a == b <==> a[0] == b[0] && a[1..] == b[1..] by {
        assert a == [a[0]] + a[1..] && b == [b[0]] + b[1..];
      }
    }
  }

  /** Big-endian byte order is numeric order. */
  lemma {:induction false} BEOrder(m: nat, n: nat, width: nat)
    requires m < Pow256(width) && n < Pow256(width)
    ensures Less(BE(m, width), BE(n, width)) <==> m < n
    ensures BE(m, width) == BE(n, width) <==> m == n
    decreases width, n
  {
    BERoundTrip(m, width);
    BERoundTrip(n, width);
    if width > 0 {
      BEOrder(m / 256, n / 256, width - 1);
      LessBlocks(BE(m / 256, width - 1), BE(n / 256, width - 1), [m % 256], [n % 256]);
    }
  }
}
