/** Newer-wins resolution of overlapping fragments (index/fragment.go:75-235). */
module Shadow {
  import opened Bytes
  import opened Fragments

  /** Every fragment carries at least one byte. */
  predicate NonEmpty(fs: seq<Fragment>) {
    forall f :: f in fs ==> f.len > 0
  }

  ghost predicate Covered(fs: seq<Fragment>, p: int) {
    exists i :: 0 <= i < |fs| && fs[i].Covers(p)
  }

  /** The specification of a read: the covering fragment with the largest stamp supplies byte p. */
  ghost predicate Wins(fs: seq<Fragment>, f: Fragment, p: int) {
    f in fs && f.Covers(p) && forall g :: g in fs && g.Covers(p) ==> g.stamp <= f.stamp
  }

  /** Fragments in file order, none overlapping. */
  predicate Ordered(fs: seq<Fragment>) {
    NonEmpty(fs) && forall i, j :: 0 <= i < j < |fs| ==> fs[i].off + fs[i].len <= fs[j].off
  }

  predicate Apart(f: Fragment, g: Fragment) {
    f.off + f.len <= g.off || g.off + g.len <= f.off
  }

  // ----- intervals still to be covered

  datatype Interval = Interval(start: int, end: int)

  predicate OrderedGaps(us: seq<Interval>) {
    && (forall i :: 0 <= i < |us| ==> us[i].start < us[i].end)
    && (forall i, j :: 0 <= i < j < |us| ==> us[i].end < us[j].start)
  }

  ghost predicate InGaps(us: seq<Interval>, p: int) {
    exists i :: 0 <= i < |us| && us[i].start <= p < us[i].end
  }

  lemma InGapsConcat(a: seq<Interval>, b: seq<Interval>, p: int)
    ensures InGaps(a + b, p) <==> InGaps(a, p) || InGaps(b, p)
  {
    if InGaps(a, p) {
      var i :| 0 <= i < |a| && a[i].start <= p < a[i].end;
      assert (a + b)[i] == a[i];
    }
    if InGaps(b, p) {
      var i :| 0 <= i < |b| && b[i].start <= p < b[i].end;
      assert (a + b)[|a| + i] == b[i];
    }
  }

  lemma CoveredAppend(fs: seq<Fragment>, f: Fragment, p: int)
    ensures Covered(fs + [f], p) <==> Covered(fs, p) || f.Covers(p)
  {
    if Covered(fs, p) {
      var i :| 0 <= i < |fs| && fs[i].Covers(p);
      assert (fs + [f])[i] == fs[i];
    }
    if f.Covers(p) {
      assert (fs + [f])[|fs|] == f;
    }
  }

  predicate Overlaps(f: Fragment, u: Interval) {
    u.start < f.off + f.len && f.off < u.end
  }

  /** What is left of one uncovered interval once f is subtracted. */
  function Remnants(f: Fragment, u: Interval): seq<Interval> {
    var lo, hi := Max(f.off, u.start), Min(f.off + f.len, u.end);
    if !Overlaps(f, u) then [u]
    else (if u.start < lo then [Interval(u.start, lo)] else [])
         + (if hi < u.end then [Interval(hi, u.end)] else [])
  }

  /** The part of the interval that f takes. */
  function Taken(f: Fragment, u: Interval): seq<Fragment> {
    if !Overlaps(f, u) then [] else [f.Clip(Max(f.off, u.start), Min(f.off + f.len, u.end))]
  }

  lemma SplitPoint(f: Fragment, u: Interval, p: int)
    requires f.len > 0 && u.start < u.end
    ensures InGaps(Remnants(f, u), p) <==> u.start <= p < u.end && !f.Covers(p)
    ensures Covered(Taken(f, u), p) <==> u.start <= p < u.end && f.Covers(p)
  {
    var r := Remnants(f, u);
    assert 1 <= |r| ==> (InGaps(r, p) <== r[0].start <= p < r[0].end);
    assert 2 <= |r| ==> (InGaps(r, p) <== r[1].start <= p < r[1].end);
    if Overlaps(f, u) {
      assert Taken(f, u)[0].Covers(p) <==> u.start <= p < u.end && f.Covers(p);
    }
  }

  lemma SplitPlacement(f: Fragment, u: Interval)
    requires f.len > 0 && u.start < u.end
    ensures OrderedGaps(Remnants(f, u))
    ensures forall i :: 0 <= i < |Remnants(f, u)| ==>
      u.start <= Remnants(f, u)[i].start && Remnants(f, u)[i].end <= u.end
    ensures |Taken(f, u)| <= 1
    ensures forall q :: q in Taken(f, u) ==> u.start <= q.off && q.off + q.len <= u.end && PieceOf(q, f)
    ensures forall q :: q in Taken(f, u) ==> q.off == f.off || q.off == u.start
  {
  }

  lemma SubtractStep(f: Fragment, done: seq<Interval>, u: Interval, next: seq<Interval>, cut: seq<Fragment>, p: int)
    requires f.len > 0 && u.start < u.end
    requires InGaps(next, p) <==> InGaps(done, p) && !f.Covers(p)
    requires Covered(cut, p) <==> InGaps(done, p) && f.Covers(p)
    ensures InGaps(next + Remnants(f, u), p) <==> InGaps(done + [u], p) && !f.Covers(p)
    ensures Covered(cut + Taken(f, u), p) <==> InGaps(done + [u], p) && f.Covers(p)
  {
    SplitPoint(f, u, p);
    InGapsConcat(next, Remnants(f, u), p);
    CoveredConcat(cut, Taken(f, u), p);
    InGapsConcat(done, [u], p);
    assert InGaps([u], p) <==> u.start <= p < u.end by {
      assert [u][0] == u;
    }
  }

  /** One interval: the overlap becomes a piece, what is left of it on either side stays uncovered. */
  method SubtractOne(f: Fragment, u: Interval) returns (took: seq<Fragment>, rest: seq<Interval>)
    ensures took == Taken(f, u) && rest == Remnants(f, u)
  {
    if f.off + f.len <= u.start || f.off >= u.end {
      return [], [u];
    }
    var ovStart, ovEnd := f.off, f.off + f.len;
    if u.start > ovStart {
      ovStart := u.start;
    }
    if u.end < ovEnd {
      ovEnd := u.end;
    }
    took, rest := [f.Clip(ovStart, ovEnd)], [];
    if u.start < ovStart {
      rest := rest + [Interval(u.start, ovStart)];
    }
    if ovEnd < u.end {
      rest := rest + [Interval(ovEnd, u.end)];
    }
  }

  /** The inner loop of planRead and canonicalView: subtract f from every uncovered interval. */
  method Subtract(f: Fragment, uncovered: seq<Interval>) returns (cut: seq<Fragment>, next: seq<Interval>)
    requires f.len > 0 && OrderedGaps(uncovered)
    ensures OrderedGaps(next) && Ordered(cut)
    ensures forall p :: InGaps(next, p) <==> InGaps(uncovered, p) && !f.Covers(p)
    ensures forall p :: Covered(cut, p) <==> InGaps(uncovered, p) && f.Covers(p)
    ensures forall q :: q in cut ==> PieceOf(q, f) && (q.off == f.off || !InGaps(uncovered, q.off - 1))
  {
    hide Taken, Remnants;
    cut, next := [], [];
    for i := 0 to |uncovered|
      invariant OrderedGaps(next) && Ordered(cut)
      invariant forall j, k :: 0 <= j < |next| && i <= k < |uncovered| ==> next[j].end < uncovered[k].start
      invariant forall j, k :: 0 <= j < |cut| && i <= k < |uncovered| ==> cut[j].off + cut[j].len <= uncovered[k].start
      invariant forall p :: InGaps(next, p) <==> InGaps(uncovered[..i], p) && !f.Covers(p)
      invariant forall p :: Covered(cut, p) <==> InGaps(uncovered[..i], p) && f.Covers(p)
      invariant forall q :: q in cut ==> PieceOf(q, f) && (q.off == f.off || !InGaps(uncovered, q.off - 1))
    {
      var u := uncovered[i];
      ghost var cut0, next0 := cut, next;
      var took, rest := SubtractOne(f, u);
      SplitPlacement(f, u);
      next := next + rest;
      cut := cut + took;
      assert uncovered[..i + 1] == uncovered[..i] + [u];
      forall p
        ensures InGaps(next, p) <==> InGaps(uncovered[..i + 1], p) && !f.Covers(p)
        ensures Covered(cut, p) <==> InGaps(uncovered[..i + 1], p) && f.Covers(p)
      {
        SubtractStep(f, uncovered[..i], u, next0, cut0, p);
      }
    }
    assert uncovered[..|uncovered|] == uncovered;
  }

  /** q is f restricted to some of its bytes, addresses included. */
  predicate PieceOf(q: Fragment, f: Fragment) {
    q.len > 0 && f.off <= q.off && q.off + q.len <= f.off + f.len && q == f.Clip(q.off, q.off + q.len)
  }

  predicate Descending(fs: seq<Fragment>) {
    forall i, j :: 0 <= i < j < |fs| ==> fs[i].stamp >= fs[j].stamp
  }

  /** q comes from one fragment, which wins every byte of q. */
  ghost predicate WinningPiece(fs: seq<Fragment>, q: Fragment) {
    exists f :: f in fs && PieceOf(q, f) && forall p :: q.Covers(p) ==> Wins(fs, f, p)
  }

  /** q is clipped on the left only where the range starts or where a fragment as new as its own ends. */
  ghost predicate WinningEdge(fs: seq<Fragment>, q: Fragment, lo: int) {
    exists f :: f in fs && PieceOf(q, f) && (forall p :: q.Covers(p) ==> Wins(fs, f, p)) && EdgeOf(fs, f, q.off, lo)
  }

  ghost predicate EdgeOf(fs: seq<Fragment>, f: Fragment, start: int, lo: int) {
    || start == f.off || start == lo
    || exists g :: g in fs && g.Covers(start - 1) && !g.Covers(start) && g.stamp >= f.stamp
  }

  ghost predicate PairwiseApart(fs: seq<Fragment>) {
    forall i, j :: 0 <= i < j < |fs| ==> Apart(fs[i], fs[j])
  }

  /** The outer loop: newest first, each fragment takes what is still uncovered of [lo, hi). */
  method Carve(sorted: seq<Fragment>, lo: int, hi: int) returns (cut: seq<Fragment>, gaps: seq<Interval>)
    requires lo < hi && NonEmpty(sorted) && Descending(sorted)
    ensures NonEmpty(cut) && PairwiseApart(cut) && OrderedGaps(gaps)
    ensures forall q :: q in cut ==> WinningEdge(sorted, q, lo)
    ensures forall p :: Covered(cut, p) <==> lo <= p < hi && Covered(sorted, p)
    ensures forall p :: InGaps(gaps, p) <==> lo <= p < hi && !Covered(sorted, p)
  {
    gaps := [Interval(lo, hi)];
    cut := [];
    var k := 0;
    assert forall p :: InGaps(gaps, p) <==> lo <= p < hi by {
      assert gaps[0] == Interval(lo, hi);
    }
    while k < |sorted| && |gaps| > 0
      invariant 0 <= k <= |sorted|
      invariant NonEmpty(cut) && PairwiseApart(cut) && OrderedGaps(gaps)
      invariant forall q :: q in cut ==> WinningEdge(sorted, q, lo)
      invariant forall p :: Covered(cut, p) <==> lo <= p < hi && Covered(sorted[..k], p)
      invariant forall p :: InGaps(gaps, p) <==> lo <= p < hi && !Covered(sorted[..k], p)
    {
      var f := sorted[k];
      var more, next := Subtract(f, gaps);
      assert sorted[..k + 1] == sorted[..k] + [f];
      forall p
        ensures Covered(cut + more, p) <==> lo <= p < hi && Covered(sorted[..k + 1], p)
        ensures InGaps(next, p) <==> lo <= p < hi && !Covered(sorted[..k + 1], p)
      {
        CoveredAppend(sorted[..k], f, p);
        CoveredConcat(cut, more, p);
      }
      ApartConcat(cut, more);
      forall q | q in more
        ensures WinningEdge(sorted, q, lo)
      {
        forall p, j | q.Covers(p) && 0 <= j < k
          ensures !sorted[j].Covers(p)
        {
          CoveredMember(more, q, p);
          assert sorted[..k][j] == sorted[j];
        }
        if q.off != f.off && q.off != lo {
          CoveredMember(more, q, q.off);
          var j := EarlierCover(sorted, k, q.off - 1);
        }
        FirstCovererWins(sorted, k, q, lo);
      }
      cut, gaps, k := cut + more, next, k + 1;
    }
    forall p
      ensures Covered(cut, p) <==> lo <= p < hi && Covered(sorted, p)
      ensures InGaps(gaps, p) <==> lo <= p < hi && !Covered(sorted, p)
    {
      CoveredConcat(sorted[..k], sorted[k..], p);
      assert sorted == sorted[..k] + sorted[k..];
      if |gaps| > 0 {
        assert sorted[k..] == [];
      }
    }
  }

  lemma CoveredMember(fs: seq<Fragment>, f: Fragment, p: int)
    requires f in fs && f.Covers(p)
    ensures Covered(fs, p)
  {
    var i :| 0 <= i < |fs| && fs[i] == f;
    assert fs[i].Covers(p);
  }

  lemma CoveredConcat(a: seq<Fragment>, b: seq<Fragment>, p: int)
    ensures Covered(a + b, p) <==> Covered(a, p) || Covered(b, p)
  {
    if Covered(a, p) {
      var i :| 0 <= i < |a| && a[i].Covers(p);
      assert (a + b)[i] == a[i];
    }
    if Covered(b, p) {
      var i :| 0 <= i < |b| && b[i].Covers(p);
      assert (a + b)[|a| + i] == b[i];
    }
  }

  /** New pieces only use bytes no earlier piece took. */
  lemma ApartConcat(a: seq<Fragment>, b: seq<Fragment>)
    requires NonEmpty(a) && NonEmpty(b) && PairwiseApart(a) && PairwiseApart(b)
    requires forall p :: !(Covered(a, p) && Covered(b, p))
    ensures PairwiseApart(a + b)
  {
    forall i, j | 0 <= i < |a| && 0 <= j < |b|
      ensures Apart(a[i], b[j])
    {
      var p := Max(a[i].off, b[j].off);
      if !Apart(a[i], b[j]) {
        assert a[i].Covers(p) && b[j].Covers(p);
        assert Covered(a, p) && Covered(b, p);
      }
    }
  }

  lemma EarlierCover(sorted: seq<Fragment>, k: nat, p: int) returns (j: nat)
    requires k <= |sorted| && Covered(sorted[..k], p)
    ensures j < k && sorted[j].Covers(p)
  {
    j :| j < |sorted[..k]| && sorted[..k][j].Covers(p);
  }

  lemma FirstCovererWins(sorted: seq<Fragment>, k: nat, q: Fragment, lo: int)
    requires Descending(sorted) && k < |sorted| && PieceOf(q, sorted[k])
    requires forall p, j :: q.Covers(p) && 0 <= j < k ==> !sorted[j].Covers(p)
    requires q.off == sorted[k].off || q.off == lo || exists j :: 0 <= j < k && sorted[j].Covers(q.off - 1)
    ensures WinningEdge(sorted, q, lo)
  {
    var f := sorted[k];
    forall p | q.Covers(p)
      ensures Wins(sorted, f, p)
    {
      forall g | g in sorted && g.Covers(p)
        ensures g.stamp <= f.stamp
      {
        var j :| 0 <= j < |sorted| && sorted[j] == g;
      }
    }
    if q.off != f.off && q.off != lo {
      var j :| 0 <= j < k && sorted[j].Covers(q.off - 1);
      assert q.Covers(q.off);
      assert sorted[j].stamp >= f.stamp;
    }
    assert EdgeOf(sorted, f, q.off, lo);
  }

  // ----- sorting

  /** perm lists each index below n exactly once. */
  ghost predicate IsPermutation(perm: seq<nat>, n: nat) {
    && |perm| == n
    && (forall i :: 0 <= i < n ==> perm[i] < n)
    && (forall i, j :: 0 <= i < j < n ==> perm[i] != perm[j])
  }

  ghost predicate SortedBy<T>(r: seq<T>, key: T -> int) {
    forall i, j :: 0 <= i < j < |r| ==> key(r[i]) <= key(r[j])
  }

  /** r is s in the order perm. */
  ghost predicate Reorders<T>(r: seq<T>, perm: seq<nat>, s: seq<T>) {
    |r| == |s| && IsPermutation(perm, |s|) && (forall i :: 0 <= i < |r| ==> r[i] == s[perm[i]])
        && forall k :: 0 <= k < |s| ==> s[k] in r
  }

  lemma SortedNothing<T>(s: seq<T>, key: T -> int)
    ensures SortedBy([], key) && Reorders([], [], s[..0])
  {
  }

  lemma SortedPairs<T>(r: seq<T>, key: T -> int)
    requires SortedBy(r, key)
    ensures forall i, j :: 0 <= i < j < |r| ==> key(r[i]) <= key(r[j])
  {
  }

  /** Where x goes: behind everything with a key up to its own. */
  method InsertionPoint<T>(r: seq<T>, x: T, key: T -> int) returns (at: nat)
    requires SortedBy(r, key)
    ensures at <= |r|
    ensures forall i :: 0 <= i < at ==> key(r[i]) <= key(x)
    ensures forall i :: at <= i < |r| ==> key(x) <= key(r[i])
  {
    at := |r|;
    while at > 0 && key(r[at - 1]) > key(x)
      invariant at <= |r| && forall i :: at <= i < |r| ==> key(x) <= key(r[i])
    {
      at := at - 1;
    }
  }

  lemma SortedInsert<T>(r: seq<T>, x: T, key: T -> int, at: nat)
    requires SortedBy(r, key) && at <= |r|
    requires forall i :: 0 <= i < at ==> key(r[i]) <= key(x)
    requires forall i :: at <= i < |r| ==> key(x) <= key(r[i])
    ensures SortedBy(Inserted(r, x, at), key)
  {
  }

  lemma ReordersInsert<T>(r: seq<T>, perm: seq<nat>, s: seq<T>, x: T, at: nat)
    requires Reorders(r, perm, s) && at <= |r|
    ensures Reorders(Inserted(r, x, at), Inserted<nat>(perm, |s|, at), s + [x])
  {
    hide IsPermutation;
    InsertPermutation(perm, |s|, at);
    InsertMembers(r, x, at);
    PermutationBelow(perm, |s|);
    var all, order := Inserted(r, x, at), Inserted<nat>(perm, |s|, at);
    PermutationBelow(order, |s| + 1);
    forall i | 0 <= i < |all|
      ensures all[i] == (s + [x])[order[i]]
    {
    }
    forall k | 0 <= k < |s + [x]|
      ensures (s + [x])[k] in all
    {
    }
  }

  lemma PermutationBelow(perm: seq<nat>, n: nat)
    requires IsPermutation(perm, n)
    ensures |perm| == n && forall i :: 0 <= i < n ==> perm[i] < n
  {
  }

  lemma ReordersMembers<T>(r: seq<T>, perm: seq<nat>, s: seq<T>)
    requires Reorders(r, perm, s)
    ensures |r| == |s| && IsPermutation(perm, |s|) && forall i :: 0 <= i < |r| ==> r[i] == s[perm[i]]
    ensures forall x :: x in r <==> x in s
  {
  }

  /** sort.Slice: some reordering of s with ascending keys; equal keys land in any order. */
  method SortBy<T>(s: seq<T>, key: T -> int) returns (r: seq<T>, ghost perm: seq<nat>)
    ensures forall i, j :: 0 <= i < j < |r| ==> key(r[i]) <= key(r[j])
    ensures |r| == |s| && IsPermutation(perm, |s|)
    ensures forall i :: 0 <= i < |r| ==> r[i] == s[perm[i]]
    ensures forall x :: x in r <==> x in s
  {
    hide Inserted, IsPermutation, SortedBy, Reorders;
    r, perm := [], [];
    SortedNothing(s, key);
    for n := 0 to |s|
      invariant |r| == |perm| == n && SortedBy(r, key) && Reorders(r, perm, s[..n])
    {
      var at := InsertionPoint(r, s[n], key);
      assert s[..n + 1] == s[..n] + [s[n]];
      ReordersInsert(r, perm, s[..n], s[n], at);
      SortedInsert(r, s[n], key, at);
      r, perm := Inserted(r, s[n], at), Inserted<nat>(perm, n, at);
    }
    assert s[..|s|] == s;
    ReordersMembers(r, perm, s);
    SortedPairs(r, key);
  }

  function Inserted<T>(r: seq<T>, x: T, at: nat): (r': seq<T>)
    requires at <= |r|
    ensures |r'| == |r| + 1
    ensures forall i :: 0 <= i < |r'| ==> r'[i] == if i < at then r[i] else if i == at then x else r[i - 1]
  {
    r[..at] + [x] + r[at..]
  }

  lemma InsertMembers<T>(r: seq<T>, x: T, at: nat)
    requires at <= |r|
    ensures forall y :: y in Inserted(r, x, at) <==> y in r || y == x
  {
    assert r == r[..at] + r[at..];
  }

  lemma InsertPermutation(perm: seq<nat>, n: nat, at: nat)
    requires IsPermutation(perm, n) && at <= n
    ensures IsPermutation(Inserted<nat>(perm, n, at), n + 1)
  {
  }

  method SortNewestFirst(fs: seq<Fragment>) returns (sorted: seq<Fragment>)
    ensures Descending(sorted) && forall f :: f in sorted <==> f in fs
  {
    ghost var perm;
    sorted, perm := SortBy(fs, (f: Fragment) => 0 - f.stamp);
  }

  lemma MembersDecide(r: seq<Fragment>, s: seq<Fragment>)
    requires forall f :: f in r <==> f in s
    ensures forall p :: Covered(r, p) <==> Covered(s, p)
    ensures forall f, p :: Wins(r, f, p) <==> Wins(s, f, p)
    ensures forall q, lo :: WinningEdge(r, q, lo) <==> WinningEdge(s, q, lo)
  {
    forall p ensures Covered(r, p) <==> Covered(s, p) {
      if Covered(r, p) { var i :| 0 <= i < |r| && r[i].Covers(p); assert r[i] in s; }
      if Covered(s, p) { var i :| 0 <= i < |s| && s[i].Covers(p); assert s[i] in r; }
    }
    assert forall f, p :: Wins(r, f, p) <==> Wins(s, f, p);
    assert forall f, start, lo :: EdgeOf(r, f, start, lo) <==> EdgeOf(s, f, start, lo);
    forall q, lo ensures WinningEdge(r, q, lo) <==> WinningEdge(s, q, lo) {
      if WinningEdge(r, q, lo) {
        var f :| f in r && PieceOf(q, f) && (forall p :: q.Covers(p) ==> Wins(r, f, p)) && EdgeOf(r, f, q.off, lo);
        assert f in s && forall p :: q.Covers(p) ==> Wins(s, f, p);
      }
      if WinningEdge(s, q, lo) {
        var f :| f in s && PieceOf(q, f) && (forall p :: q.Covers(p) ==> Wins(s, f, p)) && EdgeOf(s, f, q.off, lo);
        assert f in r && forall p :: q.Covers(p) ==> Wins(r, f, p);
      }
    }
  }

  // ----- planRead

  datatype Locator = Locator(tier: Tier, segment: nat, offset: int, length: int)

  datatype ReadSlice = ReadSlice(off: int, len: int, sparse: bool, loc: Locator)

  const NO_LOCATOR := Locator(0, 0, 0, 0)

  function SliceOf(q: Fragment): ReadSlice {
    ReadSlice(q.off, q.len, false, Locator(q.tier, q.segment, q.segOff, q.len))
  }

  function GapSlice(u: Interval): ReadSlice {
    ReadSlice(u.start, u.end - u.start, true, NO_LOCATOR)
  }

  /** The slices follow one another without hole or overlap from lo to hi. */
  ghost predicate Tiles(slices: seq<ReadSlice>, lo: int, hi: int) {
    && |slices| > 0 && slices[0].off == lo && slices[|slices| - 1].off + slices[|slices| - 1].len == hi
    && (forall i :: 0 <= i < |slices| ==> slices[i].len > 0)
    && (forall i :: 0 <= i < |slices| - 1 ==> slices[i].off + slices[i].len == slices[i + 1].off)
  }

  /** One slice says the truth: no fragment covers it, or one fragment wins all of it and is addressed there. */
  ghost predicate SliceCorrect(fs: seq<Fragment>, s: ReadSlice) {
    if s.sparse then
      forall p :: s.off <= p < s.off + s.len ==> !Covered(fs, p)
    else
      exists f :: f in fs && SliceFrom(f, s) && forall p :: s.off <= p < s.off + s.len ==> Wins(fs, f, p)
  }

  predicate SliceFrom(f: Fragment, s: ReadSlice) {
    !s.sparse && s.loc == Locator(f.tier, f.segment, f.Address(s.off), s.len)
  }

  /** A slice starts inside its winner only where the read starts or where a fragment as new ends. */
  ghost predicate SliceEdge(fs: seq<Fragment>, s: ReadSlice, lo: int) {
    exists f :: f in fs && SliceFrom(f, s) && (forall p :: s.off <= p < s.off + s.len ==> Wins(fs, f, p))
        && EdgeOf(fs, f, s.off, lo)
  }

  ghost predicate IsPlan(fs: seq<Fragment>, slices: seq<ReadSlice>, lo: int, hi: int) {
    Tiles(slices, lo, hi) && forall s :: s in slices ==> SliceCorrect(fs, s)
  }

  predicate SlicesApart(s: ReadSlice, t: ReadSlice) {
    s.off + s.len <= t.off || t.off + t.len <= s.off
  }

  ghost predicate InSlices(slices: seq<ReadSlice>, p: int) {
    exists i :: 0 <= i < |slices| && slices[i].off <= p < slices[i].off + slices[i].len
  }

  lemma SortedSlicesTile(s: seq<ReadSlice>, lo: int, hi: int)
    requires lo < hi
    requires forall i :: 0 <= i < |s| ==> s[i].len > 0
    requires forall i, j :: 0 <= i < j < |s| ==> s[i].off <= s[j].off && SlicesApart(s[i], s[j])
    requires forall p :: InSlices(s, p) <==> lo <= p < hi
    ensures Tiles(s, lo, hi)
  {
    assert InSlices(s, lo) && InSlices(s, hi - 1);
    var z := |s| - 1;
    assert InSlices(s, s[0].off) && InSlices(s, s[z].off + s[z].len - 1) by {
      assert s[0].off <= s[0].off < s[0].off + s[0].len;
      assert s[z].off <= s[z].off + s[z].len - 1 < s[z].off + s[z].len;
    }
    forall i | 0 <= i < z
      ensures s[i].off + s[i].len == s[i + 1].off
    {
      NoHoleAfter(s, lo, hi, i);
    }
  }

  lemma NoHoleAfter(s: seq<ReadSlice>, lo: int, hi: int, i: nat)
    requires i + 1 < |s|
    requires forall i :: 0 <= i < |s| ==> s[i].len > 0
    requires forall i, j :: 0 <= i < j < |s| ==> s[i].off <= s[j].off && SlicesApart(s[i], s[j])
    requires forall p :: InSlices(s, p) <==> lo <= p < hi
    ensures s[i].off + s[i].len == s[i + 1].off
  {
    var p := s[i].off + s[i].len;
    assert SlicesApart(s[i], s[i + 1]) && p <= s[i + 1].off;
    assert InSlices(s, s[i].off) by { assert s[i].off <= s[i].off < p; }
    assert InSlices(s, s[i + 1].off) by { assert s[i + 1].off <= s[i + 1].off < s[i + 1].off + s[i + 1].len; }
    assert forall j :: 0 <= j < i ==> s[j].off + s[j].len <= s[i].off by {
      assert forall j :: 0 <= j < i ==> SlicesApart(s[j], s[i]);
    }
    assert InSlices(s, p);
  }

  lemma PieceSliceCorrect(fs: seq<Fragment>, q: Fragment, lo: int)
    requires WinningEdge(fs, q, lo)
    ensures SliceCorrect(fs, SliceOf(q)) && SliceEdge(fs, SliceOf(q), lo)
  {
    var f :| f in fs && PieceOf(q, f) && (forall p :: q.Covers(p) ==> Wins(fs, f, p)) && EdgeOf(fs, f, q.off, lo);
    var s := SliceOf(q);
    assert SliceFrom(f, s);
    forall p | s.off <= p < s.off + s.len ensures Wins(fs, f, p) { assert q.Covers(p); }
  }

  lemma GapSliceCorrect(fs: seq<Fragment>, gaps: seq<Interval>, i: nat)
    requires i < |gaps| && forall p :: InGaps(gaps, p) ==> !Covered(fs, p)
    ensures SliceCorrect(fs, GapSlice(gaps[i]))
  {
    forall p | gaps[i].start <= p < gaps[i].end ensures !Covered(fs, p) { assert InGaps(gaps, p); }
  }

  lemma SlicesCover(cut: seq<Fragment>, gaps: seq<Interval>, all: seq<ReadSlice>, p: int)
    requires |all| == |cut| + |gaps|
    requires forall i :: 0 <= i < |cut| ==> all[i] == SliceOf(cut[i])
    requires forall i :: 0 <= i < |gaps| ==> all[|cut| + i] == GapSlice(gaps[i])
    ensures InSlices(all, p) <==> Covered(cut, p) || InGaps(gaps, p)
  {
    if Covered(cut, p) {
      var i :| 0 <= i < |cut| && cut[i].Covers(p);
      assert all[i].off <= p < all[i].off + all[i].len;
    }
    if InGaps(gaps, p) {
      var i :| 0 <= i < |gaps| && gaps[i].start <= p < gaps[i].end;
      var s := all[|cut| + i];
      assert s.off <= p < s.off + s.len;
    }
    if InSlices(all, p) {
      var i :| 0 <= i < |all| && all[i].off <= p < all[i].off + all[i].len;
      if i < |cut| {
        assert cut[i].Covers(p);
      } else {
        assert all[|cut| + (i - |cut|)] == GapSlice(gaps[i - |cut|]);
        assert gaps[i - |cut|].start <= p < gaps[i - |cut|].end;
      }
    }
  }

  lemma SlicesDisjoint(cut: seq<Fragment>, gaps: seq<Interval>, all: seq<ReadSlice>)
    requires NonEmpty(cut) && PairwiseApart(cut) && OrderedGaps(gaps)
    requires forall p :: !(Covered(cut, p) && InGaps(gaps, p))
    requires |all| == |cut| + |gaps|
    requires forall i :: 0 <= i < |cut| ==> all[i] == SliceOf(cut[i])
    requires forall i :: 0 <= i < |gaps| ==> all[|cut| + i] == GapSlice(gaps[i])
    ensures forall i, j :: 0 <= i < j < |all| ==> SlicesApart(all[i], all[j])
  {
    forall i, j | 0 <= i < j < |all|
      ensures SlicesApart(all[i], all[j])
    {
      if j < |cut| {
        assert Apart(cut[i], cut[j]);
      } else {
        var u := gaps[j - |cut|];
        assert all[|cut| + (j - |cut|)] == GapSlice(u);
        if i < |cut| {
          var p := Max(cut[i].off, u.start);
          if !SlicesApart(all[i], all[j]) {
            assert cut[i].Covers(p) && u.start <= p < u.end;
            assert Covered(cut, p) && InGaps(gaps, p);
          }
        } else {
          assert all[|cut| + (i - |cut|)] == GapSlice(gaps[i - |cut|]);
        }
      }
    }
  }

  lemma AllCorrect(fs: seq<Fragment>, cut: seq<Fragment>, gaps: seq<Interval>, all: seq<ReadSlice>, lo: int)
    requires NonEmpty(cut) && OrderedGaps(gaps)
    requires forall q :: q in cut ==> WinningEdge(fs, q, lo)
    requires forall p :: InGaps(gaps, p) ==> !Covered(fs, p)
    requires |all| == |cut| + |gaps|
    requires forall i :: 0 <= i < |cut| ==> all[i] == SliceOf(cut[i])
    requires forall i :: 0 <= i < |gaps| ==> all[|cut| + i] == GapSlice(gaps[i])
    ensures forall s :: s in all ==> SliceCorrect(fs, s) && s.len > 0 && (!s.sparse ==> SliceEdge(fs, s, lo))
  {
    hide WinningEdge, SliceCorrect, SliceEdge, InGaps;
    forall i | 0 <= i < |all|
      ensures SliceCorrect(fs, all[i]) && all[i].len > 0 && (!all[i].sparse ==> SliceEdge(fs, all[i], lo))
    {
      if i < |cut| {
        assert cut[i] in cut;
        PieceSliceCorrect(fs, cut[i], lo);
      } else {
        assert all[|cut| + (i - |cut|)] == GapSlice(gaps[i - |cut|]);
        GapSliceCorrect(fs, gaps, i - |cut|);
      }
    }
  }

  /** index/fragment.go planRead. */
  method PlanRead(fs: seq<Fragment>, readOff: int, readLen: int) returns (slices: seq<ReadSlice>)
    requires NonEmpty(fs)
    ensures readLen <= 0 ==> slices == []
    ensures readLen > 0 ==> IsPlan(fs, slices, readOff, readOff + readLen)
    ensures forall s :: s in slices && !s.sparse ==> SliceEdge(fs, s, readOff)
  {
    hide Covered, Wins, WinningEdge, SliceCorrect, SliceEdge, InGaps;
    if readLen <= 0 {
      return [];
    }
    var sorted := SortNewestFirst(fs);
    var cut, gaps := Carve(sorted, readOff, readOff + readLen);
    MembersDecide(sorted, fs);
    var all := seq(|cut|, i requires 0 <= i < |cut| => SliceOf(cut[i]))
             + seq(|gaps|, i requires 0 <= i < |gaps| => GapSlice(gaps[i]));
    SlicesDisjoint(cut, gaps, all);
    AllCorrect(fs, cut, gaps, all, readOff);
    ghost var perm;
    slices, perm := SortBy(all, (s: ReadSlice) => s.off);
    forall p
      ensures InSlices(slices, p) <==> readOff <= p < readOff + readLen
    {
      SlicesCover(cut, gaps, all, p);
      InSlicesMembers(slices, all, p);
    }
    SortedSlicesTile(slices, readOff, readOff + readLen);
  }

  lemma InSlicesMembers(r: seq<ReadSlice>, s: seq<ReadSlice>, p: int)
    requires forall x :: x in r <==> x in s
    ensures InSlices(r, p) <==> InSlices(s, p)
  {
    if InSlices(r, p) { var i :| 0 <= i < |r| && r[i].off <= p < r[i].off + r[i].len; assert r[i] in s; }
    if InSlices(s, p) { var i :| 0 <= i < |s| && s[i].off <= p < s[i].off + s[i].len; assert s[i] in r; }
  }

  // ----- canonicalView

  /** Each byte some fragment covers, exactly once, with its winner; nothing else. */
  ghost predicate IsCanonical(fs: seq<Fragment>, view: seq<Fragment>) {
    && Ordered(view)
    && (forall q :: q in view ==> WinningPiece(fs, q))
    && (forall p :: Covered(view, p) <==> Covered(fs, p))
  }

  /** The smallest range that holds every fragment (index/fragment.go:183-191). */
  method Bounds(fs: seq<Fragment>) returns (lo: int, hi: int)
    requires |fs| > 0 && NonEmpty(fs)
    ensures lo < hi && forall p :: Covered(fs, p) ==> lo <= p < hi
  {
    lo, hi := fs[0].off, fs[0].off + fs[0].len;
    for i := 1 to |fs|
      invariant lo < hi && forall j :: 0 <= j < i ==> lo <= fs[j].off && fs[j].off + fs[j].len <= hi
    {
      lo := Min(lo, fs[i].off);
      hi := Max(hi, fs[i].off + fs[i].len);
    }
  }

  method CanonicalView(fs: seq<Fragment>) returns (view: seq<Fragment>)
    requires NonEmpty(fs)
    ensures IsCanonical(fs, view)
  {
    if |fs| == 0 {
      return [];
    }
    var sorted := SortNewestFirst(fs);
    assert |sorted| > 0 by { assert fs[0] in sorted; }
    var lo, hi := Bounds(sorted);
    var cut, gaps := Carve(sorted, lo, hi);
    MembersDecide(sorted, fs);
    ghost var perm;
    view, perm := SortBy(cut, (f: Fragment) => f.off);
    MembersDecide(view, cut);
    forall q | q in view
      ensures WinningPiece(fs, q)
    {
      assert WinningEdge(fs, q, lo);
    }
    forall i, j | 0 <= i < j < |view|
      ensures view[i].off + view[i].len <= view[j].off
    {
      assert Apart(cut[perm[i]], cut[perm[j]]);
      assert view[i].len > 0 && view[j].len > 0;
    }
  }
}
