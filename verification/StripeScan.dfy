/** Key-order iteration and the per-stripe summary IterStripes reports (index/index.go:967-1044). */
module StripeScan {
  import opened Bytes
  import opened Keys
  import opened Fragments
  import opened Shadow
  import opened Disks
  import opened Rewrites

  /** Key order; by Keys.FragmentKeyOrder this is the byte order of the stored keys. */
  predicate KeyLess(j: FragKey, k: FragKey) {
    PairLess(j.inode, j.stripe, k.inode, k.stripe) || (j.inode == k.inode && j.stripe == k.stripe && j.stamp < k.stamp)
  }

  predicate Ascending(ks: seq<FragKey>) {
    forall i, j :: 0 <= i < j < |ks| ==> KeyLess(ks[i], ks[j])
  }

  method LeastKey(keys: set<FragKey>) returns (k: FragKey)
    requires keys != {}
    ensures k in keys && forall j :: j in keys && j != k ==> KeyLess(k, j)
  {
    k :| k in keys;
    var left := keys - {k};
    while left != {}
      invariant left <= keys && k in keys && k !in left
      invariant forall j :: j in keys && j !in left && j != k ==> KeyLess(k, j)
    {
      var j :| j in left;
      left := left - {j};
      if KeyLess(j, k) {
        k := j;
      }
    }
  }

  /** The walk of a database iterator over all fragment keys. */
  method Walk(keys: set<FragKey>) returns (ks: seq<FragKey>)
    ensures Ascending(ks) && forall k :: k in ks <==> k in keys
  {
    ks := [];
    var left := keys;
    while left != {}
      invariant left <= keys && Ascending(ks) && forall k :: k in ks <==> k in keys && k !in left
      invariant forall j, k :: j in ks && k in left ==> KeyLess(j, k)
    {
      var k := LeastKey(left);
      left := left - {k};
      ks := ks + [k];
    }
  }

  /** The fragments of one stripe, in key order. */
  ghost function Members(m: map<FragKey, Fragment>, ks: seq<FragKey>, inode: nat, stripe: nat): seq<Fragment>
    requires forall k :: k in ks ==> k in m
    decreases |ks|
  {
    if ks == [] then []
    else
      var last := ks[|ks| - 1];
      Members(m, ks[..|ks| - 1], inode, stripe) + if InStripeOf(last, inode, stripe) then [m[last]] else []
  }

  ghost function TotalLen(fs: seq<Fragment>): int {
    if fs == [] then 0 else TotalLen(fs[..|fs| - 1]) + fs[|fs| - 1].len
  }

  ghost function SumTier(fs: seq<Fragment>, t: Tier): int {
    if fs == [] then 0
    else SumTier(fs[..|fs| - 1], t) + if fs[|fs| - 1].tier == t then fs[|fs| - 1].len else 0
  }

  // ----- counting covered offsets

  ghost function Span(lo: int, hi: int): (s: set<int>)
    ensures forall p :: p in s <==> lo <= p < hi
    ensures |s| == if lo < hi then hi - lo else 0
    decreases hi - lo
  {
    if lo >= hi then {} else Span(lo, hi - 1) + {hi - 1}
  }

  /** The distinct offsets some fragment covers. */
  ghost function CoveredOffsets(fs: seq<Fragment>): set<int>
    decreases |fs|
  {
    if fs == [] then {}
    else CoveredOffsets(fs[..|fs| - 1]) + Span(fs[|fs| - 1].off, fs[|fs| - 1].off + fs[|fs| - 1].len)
  }

  lemma {:induction false} OffsetsAreCovered(fs: seq<Fragment>, p: int)
    ensures p in CoveredOffsets(fs) <==> Covered(fs, p)
    decreases |fs|
  {
    if fs != [] {
      var n := |fs| - 1;
      OffsetsAreCovered(fs[..n], p);
      CoveredAppend(fs[..n], fs[n], p);
      assert fs == fs[..n] + [fs[n]];
    }
  }

  lemma UnionSize(a: set<int>, b: set<int>)
    ensures |a + b| <= |a| + |b|
    ensures a !! b ==> |a + b| == |a| + |b|
  {
    assert a + b == a + (b - a);
    SubsetSize(b - a, b);
    if a !! b {
      assert b - a == b;
    }
  }

  lemma SubsetSize(a: set<int>, b: set<int>)
    requires a <= b
    ensures |a| <= |b|
  {
    assert b == a + (b - a);
  }

  lemma OrderedLastApart(fs: seq<Fragment>)
    requires fs != [] && Ordered(fs)
    ensures var last := fs[|fs| - 1];
            Ordered(fs[..|fs| - 1]) && CoveredOffsets(fs[..|fs| - 1]) !! Span(last.off, last.off + last.len)
  {
    var n := |fs| - 1;
    forall p | p in CoveredOffsets(fs[..n])
      ensures p < fs[n].off
    {
      OffsetsAreCovered(fs[..n], p);
      var i :| 0 <= i < n && fs[..n][i].Covers(p);
    }
  }

  /** Distinct offsets never outnumber bytes; without overlap they are as many. */
  lemma {:induction false} OffsetsCount(fs: seq<Fragment>)
    requires NonEmpty(fs)
    ensures |CoveredOffsets(fs)| <= TotalLen(fs)
    ensures Ordered(fs) ==> |CoveredOffsets(fs)| == TotalLen(fs)
    decreases |fs|
  {
    hide Ordered, Span;
    if fs != [] {
      var n := |fs| - 1;
      OffsetsCount(fs[..n]);
      assert fs[n] in fs;
      UnionSize(CoveredOffsets(fs[..n]), Span(fs[n].off, fs[n].off + fs[n].len));
      if Ordered(fs) {
        OrderedLastApart(fs);
      }
    }
  }

  /** The lengths of a canonical view add up to the number of distinct covered offsets. */
  lemma LiveCount(fs: seq<Fragment>, view: seq<Fragment>)
    requires IsCanonical(fs, view)
    ensures TotalLen(view) == |CoveredOffsets(fs)|
  {
    hide CoveredOffsets, TotalLen, Covered, WinningPiece;
    OffsetsCount(view);
    forall p
      ensures p in CoveredOffsets(view) <==> p in CoveredOffsets(fs)
    {
      OffsetsAreCovered(view, p);
      OffsetsAreCovered(fs, p);
    }
    assert CoveredOffsets(view) == CoveredOffsets(fs);
  }

  lemma {:induction false} SumByTier(fs: seq<Fragment>)
    requires forall f :: f in fs ==> f.tier == HOT || f.tier == COLD
    ensures TotalLen(fs) == SumTier(fs, HOT) + SumTier(fs, COLD)
    decreases |fs|
  {
    if fs != [] {
      assert fs[|fs| - 1] in fs;
      SumByTier(fs[..|fs| - 1]);
    }
  }

  datatype StripeInfo = StripeInfo(inode: nat, stripe: nat, hotBytes: int, coldBytes: int, liveBytes: int)

  /** What a report must say about a stripe with these fragments. */
  ghost predicate Reports(info: StripeInfo, fs: seq<Fragment>) {
    && fs != [] && info.hotBytes == SumTier(fs, HOT) && info.coldBytes == SumTier(fs, COLD)
    && info.liveBytes == |CoveredOffsets(fs)|
  }

  lemma LiveAtMostStored(info: StripeInfo, fs: seq<Fragment>)
    requires Reports(info, fs) && NonEmpty(fs) && forall f :: f in fs ==> f.tier == HOT || f.tier == COLD
    ensures info.liveBytes <= info.hotBytes + info.coldBytes
  {
    OffsetsCount(fs);
    SumByTier(fs);
  }

  /** Each stripe that has a fragment is reported exactly once, in key order, with its own figures. */
  ghost predicate Summary(m: map<FragKey, Fragment>, ks: seq<FragKey>, infos: seq<StripeInfo>)
    requires forall k :: k in ks ==> k in m
  {
    && (forall i, j :: 0 <= i < j < |infos| ==>
          PairLess(infos[i].inode, infos[i].stripe, infos[j].inode, infos[j].stripe))
    && (forall x :: x in infos ==> Reports(x, Members(m, ks, x.inode, x.stripe)))
    && (forall k :: k in ks ==> exists x :: x in infos && InStripeOf(k, x.inode, x.stripe))
  }

  /** flush: the figures accumulated for the current stripe, live bytes from its canonical view. */
  method Flush(inode: nat, stripe: nat, fs: seq<Fragment>, hot: int, cold: int) returns (info: StripeInfo)
    requires fs != [] && NonEmpty(fs) && hot == SumTier(fs, HOT) && cold == SumTier(fs, COLD)
    ensures info.inode == inode && info.stripe == stripe && Reports(info, fs)
  {
    hide CoveredOffsets, IsCanonical, SumTier;
    var view := CanonicalView(fs);
    var live := 0;
    for i := 0 to |view|
      invariant live == TotalLen(view[..i])
    {
      assert view[..i + 1][..i] == view[..i];
      live := live + view[i].len;
    }
    assert view[..|view|] == view;
    LiveCount(fs, view);
    info := StripeInfo(inode, stripe, hot, cold, live);
  }

  lemma MembersStep(m: map<FragKey, Fragment>, ks: seq<FragKey>, k: FragKey, inode: nat, stripe: nat)
    requires k in m && forall j :: j in ks ==> j in m
    ensures InStripeOf(k, inode, stripe) ==>
      Members(m, ks + [k], inode, stripe) == Members(m, ks, inode, stripe) + [m[k]]
    ensures !InStripeOf(k, inode, stripe) ==> Members(m, ks + [k], inode, stripe) == Members(m, ks, inode, stripe)
  {
    assert (ks + [k])[..|ks|] == ks;
    assert Members(m, ks, inode, stripe) + [] == Members(m, ks, inode, stripe);
  }

  lemma {:induction false} MembersNone(m: map<FragKey, Fragment>, ks: seq<FragKey>, inode: nat, stripe: nat)
    requires (forall j :: j in ks ==> j in m) && forall j :: j in ks ==> !InStripeOf(j, inode, stripe)
    ensures Members(m, ks, inode, stripe) == []
    decreases |ks|
  {
    if ks != [] {
      MembersNone(m, ks[..|ks| - 1], inode, stripe);
      assert ks[|ks| - 1] in ks;
    }
  }

  /** Everything before the current stripe is reported; the current one is being accumulated. */
  ghost predicate Scanning(m: map<FragKey, Fragment>, done: seq<FragKey>, infos: seq<StripeInfo>, have: bool,
                           inode: nat, stripe: nat)
    requires forall k :: k in done ==> k in m
  {
    && (!have ==> done == [] && infos == [])
    && (have ==> done != [] && InStripeOf(done[|done| - 1], inode, stripe))
    && (forall i, j :: 0 <= i < j < |infos| ==>
          PairLess(infos[i].inode, infos[i].stripe, infos[j].inode, infos[j].stripe))
    && (forall x :: x in infos ==>
          PairLess(x.inode, x.stripe, inode, stripe) && Reports(x, Members(m, done, x.inode, x.stripe)))
    && (forall k :: k in done ==>
          InStripeOf(k, inode, stripe) || exists x :: x in infos && InStripeOf(k, x.inode, x.stripe))
  }

  /** Reported stripes are finished: later keys do not belong to them. */
  lemma EarlierStay(m: map<FragKey, Fragment>, done: seq<FragKey>, k: FragKey, x: StripeInfo)
    requires k in m && (forall j :: j in done ==> j in m) && !InStripeOf(k, x.inode, x.stripe)
    requires Reports(x, Members(m, done, x.inode, x.stripe))
    ensures Reports(x, Members(m, done + [k], x.inode, x.stripe))
  {
    hide Members, Reports;
    MembersStep(m, done, k, x.inode, x.stripe);
  }

  lemma SameStripeStep(m: map<FragKey, Fragment>, done: seq<FragKey>, k: FragKey, infos: seq<StripeInfo>, inode: nat,
                       stripe: nat)
    requires k in m && (forall j :: j in done ==> j in m) && Scanning(m, done, infos, true, inode, stripe)
    requires InStripeOf(k, inode, stripe)
    ensures Scanning(m, done + [k], infos, true, inode, stripe)
  {
    forall x | x in infos
      ensures Reports(x, Members(m, done + [k], x.inode, x.stripe))
    {
      EarlierStay(m, done, k, x);
    }
  }

  lemma NextStripeStep(m: map<FragKey, Fragment>, done: seq<FragKey>, k: FragKey, infos: seq<StripeInfo>, x: StripeInfo)
    requires k in m && (forall j :: j in done ==> j in m) && Scanning(m, done, infos, true, x.inode, x.stripe)
    requires Reports(x, Members(m, done, x.inode, x.stripe)) && PairLess(x.inode, x.stripe, k.inode, k.stripe)
    ensures Scanning(m, done + [k], infos + [x], true, k.inode, k.stripe)
  {
    var all := infos + [x];
    forall y | y in all
      ensures PairLess(y.inode, y.stripe, k.inode, k.stripe) && Reports(y, Members(m, done + [k], y.inode, y.stripe))
    {
      EarlierStay(m, done, k, y);
    }
    forall j | j in done + [k]
      ensures InStripeOf(j, k.inode, k.stripe) || exists y :: y in all && InStripeOf(j, y.inode, y.stripe)
    {
      if j in done {
        if InStripeOf(j, x.inode, x.stripe) {
          assert x in all;
        } else {
          var y :| y in infos && InStripeOf(j, y.inode, y.stripe);
          assert y in all;
        }
      }
    }
  }

  lemma FirstStep(m: map<FragKey, Fragment>, k: FragKey)
    requires k in m
    ensures Scanning(m, [k], [], true, k.inode, k.stripe)
  {
  }

  /** IterStripes with a callback that never stops it; `infos` is what the callback receives. */
  method IterStripes(m: map<FragKey, Fragment>) returns (ks: seq<FragKey>, infos: seq<StripeInfo>)
    requires forall k :: k in m ==> m[k].len > 0
    ensures Ascending(ks) && forall k :: k in ks <==> k in m
    ensures Summary(m, ks, infos)
  {
    hide Members, SumTier, Reports;
    ks := Walk(m.Keys);
    infos := [];
    var have, curInode, curStripe := false, 0, 0;
    var curFrags: seq<Fragment>, curHot, curCold := [], 0, 0;
    for i := 0 to |ks|
      invariant Scanning(m, ks[..i], infos, have, curInode, curStripe) && NonEmpty(curFrags)
      invariant have ==> curFrags != [] && curFrags == Members(m, ks[..i], curInode, curStripe)
      invariant have ==> curHot == SumTier(curFrags, HOT) && curCold == SumTier(curFrags, COLD)
    {
      var k := ks[i];
      ghost var done := ks[..i];
      assert ks[..i + 1] == done + [k];
      if !have || k.inode != curInode || k.stripe != curStripe {
        if have {
          var x := Flush(curInode, curStripe, curFrags, curHot, curCold);
          assert KeyLess(done[i - 1], k);
          NextStripeStep(m, done, k, infos, x);
          infos := infos + [x];
        } else {
          FirstStep(m, k);
          assert done + [k] == [k];
        }
        NewStripeEmpty(m, ks, i);
        have, curInode, curStripe := true, k.inode, k.stripe;
        curFrags, curHot, curCold := [], 0, 0;
        SumNothing();
      } else {
        SameStripeStep(m, done, k, infos, curInode, curStripe);
      }
      MembersStep(m, done, k, curInode, curStripe);
      var f := m[k];
      SumStep(curFrags, f);
      curFrags := curFrags + [f];
      if f.tier == HOT {
        curHot := curHot + f.len;
      } else if f.tier == COLD {
        curCold := curCold + f.len;
      }
    }
    assert ks[..|ks|] == ks;
    if have {
      var x := Flush(curInode, curStripe, curFrags, curHot, curCold);
      infos := infos + [x];
    }
  }

  lemma NewStripeEmpty(m: map<FragKey, Fragment>, ks: seq<FragKey>, i: nat)
    requires i < |ks| && Ascending(ks) && (forall k :: k in ks ==> k in m)
    requires i > 0 ==> !InStripeOf(ks[i - 1], ks[i].inode, ks[i].stripe)
    ensures Members(m, ks[..i], ks[i].inode, ks[i].stripe) == []
  {
    forall j | j in ks[..i]
      ensures !InStripeOf(j, ks[i].inode, ks[i].stripe)
    {
      var a :| 0 <= a < i && ks[a] == j;
      assert KeyLess(ks[i - 1], ks[i]);
      assert a == i - 1 || KeyLess(ks[a], ks[i - 1]);
    }
    MembersNone(m, ks[..i], ks[i].inode, ks[i].stripe);
  }

  lemma SumNothing()
    ensures SumTier([], HOT) == 0 && SumTier([], COLD) == 0
  {
  }

  lemma SumStep(fs: seq<Fragment>, f: Fragment)
    ensures forall t :: SumTier(fs + [f], t) == SumTier(fs, t) + if f.tier == t then f.len else 0
  {
    assert (fs + [f])[..|fs|] == fs;
  }
}
