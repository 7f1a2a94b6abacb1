/** The key layout shared by index and store (kv/keys.go). */
module Keys {
  import opened Bytes

  const TAG_STRIPE: byte := 115  // 's'

  /** Number of values of a 32-bit and of a 64-bit unsigned field. */
  const U32: nat := 0x1_0000_0000
  const U64: nat := 0x1_0000_0000_0000_0000

  lemma Widths()
    ensures Pow256(4) == U32 && Pow256(8) == U64
  {
    assert Pow256(2) == 65536;
    assert Pow256(4) == U32;
    assert Pow256(6) == U32 * 65536;
  }

  function StripePrefix(inode: nat): (k: seq<byte>)
    ensures |k| == 9
  {
    [TAG_STRIPE] + BE(inode, 8)
  }

  function FragmentStripePrefix(inode: nat, stripe: nat): (k: seq<byte>)
    ensures |k| == 13
  {
    StripePrefix(inode) + BE(stripe, 4)
  }

  function FragmentKey(inode: nat, stripe: nat, stamp: nat): (k: seq<byte>)
    ensures |k| == 21
  {
    FragmentStripePrefix(inode, stripe) + BE(stamp, 8)
  }

  function StripeInodeFromFragmentKey(k: seq<byte>): nat
    requires |k| >= 9
  {
    FromBE(k[1..9])
  }

  function StripeIDFromFragmentKey(k: seq<byte>): nat
    requires |k| >= 13
  {
    FromBE(k[9..13])
  }

  function SeqFromFragmentKey(k: seq<byte>): nat
    requires |k| >= 21
  {
    FromBE(k[13..21])
  }

  predicate IsFragmentKey(k: seq<byte>) { |k| == 21 }

  predicate InFields(inode: nat, stripe: nat, stamp: nat) {
    inode < U64 && stripe < U32 && stamp < U64
  }

  /** The extractors invert the key builder. */
  lemma FragmentKeyFields(inode: nat, stripe: nat, stamp: nat)
    requires InFields(inode, stripe, stamp)
    ensures var k := FragmentKey(inode, stripe, stamp);
            IsFragmentKey(k) && StripeInodeFromFragmentKey(k) == inode
            && StripeIDFromFragmentKey(k) == stripe && SeqFromFragmentKey(k) == stamp
  {
    Widths();
    BERoundTrip(inode, 8);
    BERoundTrip(stripe, 4);
    BERoundTrip(stamp, 8);
    var k := FragmentKey(inode, stripe, stamp);
    assert k[1..9] == BE(inode, 8);
    assert k[9..13] == BE(stripe, 4);
    assert k[13..21] == BE(stamp, 8);
  }

  predicate PairLess(i: nat, s: nat, j: nat, t: nat) {
    i < j || (i == j && s < t)
  }

  lemma StripePrefixOrder(i: nat, j: nat)
    requires i < U64 && j < U64
    ensures Less(StripePrefix(i), StripePrefix(j)) <==> i < j
    ensures StripePrefix(i) == StripePrefix(j) <==> i == j
  {
    Widths();
    BEOrder(i, j, 8);
    LessBlocks([TAG_STRIPE], [TAG_STRIPE], BE(i, 8), BE(j, 8));
    LessIrreflexive([TAG_STRIPE]);
    if StripePrefix(i) == StripePrefix(j) {
      assert StripePrefix(i)[1..] == BE(i, 8) && StripePrefix(j)[1..] == BE(j, 8);
    }
  }

  lemma FragmentStripePrefixOrder(i: nat, s: nat, j: nat, t: nat)
    requires i < U64 && j < U64 && s < U32 && t < U32
    ensures Less(FragmentStripePrefix(i, s), FragmentStripePrefix(j, t)) <==> PairLess(i, s, j, t)
    ensures FragmentStripePrefix(i, s) == FragmentStripePrefix(j, t) <==> i == j && s == t
  {
    Widths();
    StripePrefixOrder(i, j);
    BEOrder(s, t, 4);
    LessBlocks(StripePrefix(i), StripePrefix(j), BE(s, 4), BE(t, 4));
    var a, b := FragmentStripePrefix(i, s), FragmentStripePrefix(j, t);
    assert a[..9] == StripePrefix(i) && b[..9] == StripePrefix(j);
    assert a[9..] == BE(s, 4) && b[9..] == BE(t, 4);
  }

  /** Byte order of fragment keys is the order of (inode, stripe, seq). */
  lemma FragmentKeyOrder(i: nat, s: nat, m: nat, j: nat, t: nat, n: nat)
    requires InFields(i, s, m) && InFields(j, t, n)
    ensures Less(FragmentKey(i, s, m), FragmentKey(j, t, n))
            <==> PairLess(i, s, j, t) || (i == j && s == t && m < n)
    ensures FragmentKey(i, s, m) == FragmentKey(j, t, n) <==> i == j && s == t && m == n
  {
    Widths();
    FragmentStripePrefixOrder(i, s, j, t);
    BEOrder(m, n, 8);
    LessBlocks(FragmentStripePrefix(i, s), FragmentStripePrefix(j, t), BE(m, 8), BE(n, 8));
    FragmentKeyFields(i, s, m);
    FragmentKeyFields(j, t, n);
  }

  /** The half-open iterator range [lo, hi); no upper bound when hi is None. */
  predicate InRange(k: seq<byte>, lo: seq<byte>, hi: Option<seq<byte>>) {
    !Less(k, lo) && (hi.None? || Less(k, hi.value))
  }

  predicate AllFF(s: seq<byte>) {
    forall i :: 0 <= i < |s| ==> s[i] == 255
  }

  /** Only extensions of 0xff...0xff are not below it. */
  lemma {:induction false} AboveFF(k: seq<byte>, p: seq<byte>)
    requires AllFF(p)
    ensures !Less(k, p) <==> p <= k
  {
    if p != [] && k != [] {
      AboveFF(k[1..], p[1..]);
      assert p == [p[0]] + p[1..] && k == [k[0]] + k[1..];
      assert p[0] == 255;
    }
  }

  /** Bumping the last byte that is not 0xff bounds exactly the keys with the prefix. */
  lemma {:induction false} BumpBounds(a: seq<byte>, x: byte, tail: seq<byte>, k: seq<byte>)
    requires x < 255 && AllFF(tail)
    ensures InRange(k, a + [x] + tail, Some(a + [x + 1])) <==> a + [x] + tail <= k
  {
    var p, hi := a + [x] + tail, a + [x + 1];
    if k == [] {
    } else if a == [] {
      AboveFF(k[1..], tail);
      assert p == [x] + tail && hi == [x + 1] && k == [k[0]] + k[1..];
      assert p[0] == x && p[1..] == tail && hi[0] == x + 1 && hi[1..] == [];
      assert p <= k <==> k[0] == x && tail <= k[1..];
      assert !Less(k[1..], []);
      assert Less(k, hi) <==> k[0] <= x;
      assert Less(k, p) <==> k[0] < x || (k[0] == x && Less(k[1..], tail));
    } else {
      BumpBounds(a[1..], x, tail, k[1..]);
      assert p[1..] == a[1..] + [x] + tail && hi[1..] == a[1..] + [x + 1];
      assert p == [a[0]] + p[1..] && k == [k[0]] + k[1..];
    }
  }

  /** kv/keys.go PrefixUpperBound: bump the last byte, dropping bytes that overflow. */
  method PrefixUpperBound(prefix: seq<byte>) returns (hi: Option<seq<byte>>)
    ensures forall k: seq<byte> :: InRange(k, prefix, hi) <==> prefix <= k
    ensures hi.None? <==> AllFF(prefix)
  {
    var end := new byte[|prefix|](i requires 0 <= i < |prefix| => prefix[i]);
    var i := |prefix|;
    while i > 0
      invariant 0 <= i <= |prefix|
      invariant forall j :: 0 <= j < i ==> end[j] == prefix[j]
      invariant AllFF(prefix[i..])
    {
      i := i - 1;
      var bumped: int := end[i] as int + 1;
      end[i] := bumped % 256;
      if end[i] != 0 {
        hi := Some(end[..i + 1]);
        assert end[..i + 1] == prefix[..i] + [prefix[i] + 1];
        assert prefix == prefix[..i] + [prefix[i]] + prefix[i + 1..];
        forall k: seq<byte>
          ensures InRange(k, prefix, hi) <==> prefix <= k
        {
          BumpBounds(prefix[..i], prefix[i], prefix[i + 1..], k);
        }
        return;
      }
      assert prefix[i..] == [255] + prefix[i + 1..];
    }
    assert prefix[0..] == prefix;
    hi := None;
    forall k: seq<byte>
      ensures InRange(k, prefix, hi) <==> prefix <= k
    {
      AboveFF(k, prefix);
    }
  }

  /** The bounds fragmentsInRange hands to the iterator (index/index.go:680-690). */
  method StripeRangeBounds(inode: nat, first: nat, last: nat)
    returns (lo: seq<byte>, hi: Option<seq<byte>>)
    requires inode < U64 && first < U32 && last < U32
    ensures forall i: nat, s: nat, q: nat :: InFields(i, s, q) ==>
      (InRange(FragmentKey(i, s, q), lo, hi) <==> i == inode && first <= s <= last)
  {
    lo := FragmentStripePrefix(inode, first);
    if last == U32 - 1 {
      hi := PrefixUpperBound(StripePrefix(inode));
    } else {
      hi := Some(FragmentStripePrefix(inode, last + 1));
    }
    forall i: nat, s: nat, q: nat | InFields(i, s, q)
      ensures InRange(FragmentKey(i, s, q), lo, hi) <==> i == inode && first <= s <= last
    {
      var k := FragmentKey(i, s, q);
      KeyAgainstPrefix(i, s, q, inode, first);
      if last == U32 - 1 {
        assert k[..9] == StripePrefix(i);
        StripePrefixOrder(i, inode);
        assert StripePrefix(inode) <= k <==> i == inode;
        KeyAgainstInode(i, s, q, inode);
        assert InRange(k, StripePrefix(inode), hi) <==> i == inode;
      } else {
        KeyAgainstPrefix(i, s, q, inode, last + 1);
      }
    }
  }

  /** A fragment key lies below a stripe prefix exactly when its (inode, stripe) does. */
  lemma KeyAgainstPrefix(i: nat, s: nat, q: nat, inode: nat, stripe: nat)
    requires InFields(i, s, q) && inode < U64 && stripe < U32
    ensures Less(FragmentKey(i, s, q), FragmentStripePrefix(inode, stripe)) <==> PairLess(i, s, inode, stripe)
  {
    var p := FragmentStripePrefix(inode, stripe);
    LessBlocks(FragmentStripePrefix(i, s), p, BE(q, 8), []);
    assert p + [] == p;
    FragmentStripePrefixOrder(i, s, inode, stripe);
  }

  lemma KeyAgainstInode(i: nat, s: nat, q: nat, inode: nat)
    requires InFields(i, s, q) && inode < U64
    ensures Less(FragmentKey(i, s, q), StripePrefix(inode)) <==> i < inode
  {
    var p := StripePrefix(inode);
    LessBlocks(StripePrefix(i), p, BE(s, 4) + BE(q, 8), []);
    assert p + [] == p;
    assert FragmentKey(i, s, q) == StripePrefix(i) + (BE(s, 4) + BE(q, 8));
    StripePrefixOrder(i, inode);
  }
}
