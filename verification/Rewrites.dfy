/** What appending, moving, truncating and deleting fragment records do to file contents. */
module Rewrites {
  import opened Bytes
  import opened Fragments
  import opened Shadow
  import opened Records
  import opened SegmentSets
  import opened Disks

  // ----- setting records one by one, as a batch does

  function KeyFor(width: nat, inode: nat, f: Fragment): FragKey
    requires width > 0 && f.off >= 0
  {
    FragKey(inode, f.off / width, f.stamp)
  }

  function Overlay(width: nat, m: map<FragKey, Fragment>, inode: nat, fs: seq<Fragment>): map<FragKey, Fragment>
    requires width > 0 && forall f :: f in fs ==> f.off >= 0
    decreases |fs|
  {
    if fs == [] then m
    else
      var last := fs[|fs| - 1];
      Overlay(width, m, inode, fs[..|fs| - 1])[KeyFor(width, inode, last) := last]
  }

  predicate DistinctStamps(fs: seq<Fragment>) {
    forall i, j :: 0 <= i < j < |fs| ==> fs[i].stamp != fs[j].stamp
  }

  lemma {:induction false} OverlayEntries(width: nat, m: map<FragKey, Fragment>, inode: nat, fs: seq<Fragment>)
    requires width > 0 && DistinctStamps(fs) && forall f :: f in fs ==> f.off >= 0
    ensures forall f :: f in fs ==>
      var k := KeyFor(width, inode, f); k in Overlay(width, m, inode, fs) && Overlay(width, m, inode, fs)[k] == f
    ensures forall k :: k in Overlay(width, m, inode, fs) ==>
      (exists f :: f in fs && k == KeyFor(width, inode, f)) || (k in m && Overlay(width, m, inode, fs)[k] == m[k])
    ensures forall k :: k in m && (forall f :: f in fs ==> k != KeyFor(width, inode, f)) ==>
      k in Overlay(width, m, inode, fs)
    decreases |fs|
  {
    if fs != [] {
      var n := |fs| - 1;
      OverlayEntries(width, m, inode, fs[..n]);
      var before, after := Overlay(width, m, inode, fs[..n]), Overlay(width, m, inode, fs);
      assert fs == fs[..n] + [fs[n]];
      forall f | f in fs
        ensures var k := KeyFor(width, inode, f); k in after && after[k] == f
      {
        if f != fs[n] {
          var i :| 0 <= i < |fs| && fs[i] == f;
          assert f in fs[..n];
        }
      }
    }
  }

  // ----- contents

  /** Equal bytes from the winners, or holes on both sides, mean equal contents. */
  lemma SameContent(width: nat, d: Disk, e: Disk, inode: nat, other: nat, p: int, k: FragKey, j: FragKey)
    requires width > 0 && RecordsOk(width, d) && RecordsOk(width, e)
    requires DiskCovers(d, inode, p) <==> DiskCovers(e, other, p)
    requires DiskCovers(d, inode, p) ==>
      KeyWins(d, inode, p, k) && KeyWins(e, other, p, j) && ByteOf(d, d.frags[k], p) == ByteOf(e, e.frags[j], p)
    ensures Content(width, d, inode, p) == Content(width, e, other, p)
  {
    HoleIsNone(width, d, inode, p);
    HoleIsNone(width, e, other, p);
    if DiskCovers(d, inode, p) {
      WinnerDecides(width, d, inode, p, k);
      WinnerDecides(width, e, other, p, j);
    }
  }

  /** Offsets whose covering records are the same in both states read the same. */
  lemma UntouchedContent(width: nat, d: Disk, e: Disk, inode: nat, p: int)
    requires width > 0 && RecordsOk(width, d) && RecordsOk(width, e)
    requires forall k :: k in d.frags && k.inode == inode && d.frags[k].Covers(p) ==>
      k in e.frags && e.frags[k].Covers(p) && e.frags[k].stamp == d.frags[k].stamp
      && ByteOf(e, e.frags[k], p) == ByteOf(d, d.frags[k], p)
    requires forall k :: k in e.frags && k.inode == inode && e.frags[k].Covers(p) ==>
      k in d.frags && d.frags[k].Covers(p)
    ensures Content(width, e, inode, p) == Content(width, d, inode, p)
  {
    if DiskCovers(d, inode, p) {
      var k := CoveredHasWinner(d, inode, p);
      assert KeyWins(e, inode, p, k);
      SameContent(width, d, e, inode, inode, p, k, k);
    } else {
      HoleIsNone(width, d, inode, p);
      HoleIsNone(width, e, inode, p);
    }
  }

  /** The payload of a piece is the matching part of its fragment's payload. */
  lemma PieceBytes(d: Disk, q: Fragment, f: Fragment, p: int)
    requires PieceOf(q, f) && Placed(d, f) && q.Covers(p)
    ensures Placed(d, q) && ByteOf(d, q, p) == ByteOf(d, f, p)
  {
  }

  // ----- append

  /** The new records are newer than everything stored, and each is newer than those before it. */
  ghost predicate Fresh(d: Disk, fs: seq<Fragment>) {
    && (forall i, j :: 0 <= i < j < |fs| ==> fs[i].stamp < fs[j].stamp)
    && (forall f, k :: f in fs && k in d.frags ==> d.frags[k].stamp < f.stamp)
  }

  /** No old record changes; what is new belongs to the inode and lies in the tier. */
  ghost predicate AddsIn(m: map<FragKey, Fragment>, n: map<FragKey, Fragment>, inode: nat, tier: Tier) {
    && (forall k :: k in m ==> k in n && n[k] == m[k])
    && (forall k :: k in n && k !in m ==> k.inode == inode && n[k].tier == tier)
  }

  /** A record is an old one, or one of fs under its own key. */
  lemma OverlayOrigin(width: nat, m: map<FragKey, Fragment>, inode: nat, fs: seq<Fragment>, k: FragKey)
    requires width > 0 && DistinctStamps(fs) && forall f :: f in fs ==> f.off >= 0
    ensures var n := Overlay(width, m, inode, fs);
            && (k in n ==> (k in m && n[k] == m[k]) || (k.inode == inode && n[k] in fs && n[k].stamp == k.stamp))
            && (k in m ==> k in n && (n[k] == m[k] || (k.inode == inode && n[k] in fs && n[k].stamp == k.stamp)))
  {
    hide Overlay;
    OverlayEntries(width, m, inode, fs);
  }

  lemma OverlayAdds(width: nat, d: Disk, inode: nat, fs: seq<Fragment>, tier: Tier)
    requires width > 0 && RecordsOk(width, d) && Fresh(d, fs) && forall f :: f in fs ==> f.off >= 0 && f.tier == tier
    ensures DistinctStamps(fs) && AddsIn(d.frags, Overlay(width, d.frags, inode, fs), inode, tier)
  {
    hide Overlay;
    forall k
      ensures k in Overlay(width, d.frags, inode, fs) && k !in d.frags ==>
        k.inode == inode && Overlay(width, d.frags, inode, fs)[k].tier == tier
      ensures k in d.frags ==>
        k in Overlay(width, d.frags, inode, fs) && Overlay(width, d.frags, inode, fs)[k] == d.frags[k]
    {
      OverlayOrigin(width, d.frags, inode, fs, k);
      assert k in d.frags ==> RecordOk(width, k, d.frags[k]);
    }
  }

  lemma OldRecordsKept(width: nat, d: Disk, e: Disk, inode: nat, fs: seq<Fragment>)
    requires width > 0 && RecordsOk(width, d) && RecordsOk(width, e) && Fresh(d, fs)
    requires forall f :: f in fs ==> f.off >= 0
    requires e.frags == Overlay(width, d.frags, inode, fs) && DiskGrows(d, e)
    ensures forall k :: k in d.frags ==>
      k in e.frags && e.frags[k] == d.frags[k] && Payload(e, d.frags[k]) == Payload(d, d.frags[k])
  {
    OverlayEntries(width, d.frags, inode, fs);
    forall k | k in d.frags
      ensures k in e.frags && e.frags[k] == d.frags[k] && Payload(e, d.frags[k]) == Payload(d, d.frags[k])
    {
      assert RecordOk(width, k, d.frags[k]);
      PlacedGrows(d, e, d.frags[k]);
    }
  }

  /** fs[i] is the last of the new records to cover p. */
  ghost predicate LastCover(fs: seq<Fragment>, i: nat, p: int) {
    i < |fs| && fs[i].Covers(p) && forall j :: i < j < |fs| ==> !fs[j].Covers(p)
  }

  /** Bytes under new records are those of the last one there; all other bytes of all inodes stay. */
  lemma AppendedContent(width: nat, d: Disk, e: Disk, inode: nat, fs: seq<Fragment>, other: nat, p: int)
    requires width > 0 && RecordsOk(width, d) && RecordsOk(width, e) && Fresh(d, fs)
    requires forall f :: f in fs ==> f.off >= 0
    requires e.frags == Overlay(width, d.frags, inode, fs) && DiskGrows(d, e)
    ensures other != inode || !Covered(fs, p) ==> Content(width, e, other, p) == Content(width, d, other, p)
    ensures forall i: nat :: LastCover(fs, i, p) ==>
      Placed(e, fs[i]) && Content(width, e, inode, p) == Some(ByteOf(e, fs[i], p))
  {
    hide Overlay, Content, DiskGrows, RecordsOk, Covered, Fresh;
    forall i: nat | LastCover(fs, i, p)
      ensures Placed(e, fs[i]) && Content(width, e, inode, p) == Some(ByteOf(e, fs[i], p))
    {
      NewestDecides(width, d, e, inode, fs, i, p);
    }
    if other != inode || !Covered(fs, p) {
      NotCoveredContent(width, d, e, inode, fs, other, p);
    }
  }

  lemma NewestDecides(width: nat, d: Disk, e: Disk, inode: nat, fs: seq<Fragment>, i: nat, p: int)
    requires width > 0 && RecordsOk(width, d) && RecordsOk(width, e) && Fresh(d, fs)
    requires (forall f :: f in fs ==> f.off >= 0) && e.frags == Overlay(width, d.frags, inode, fs)
    requires LastCover(fs, i, p)
    ensures Placed(e, fs[i]) && fs[i].Covers(p) && Content(width, e, inode, p) == Some(ByteOf(e, fs[i], p))
  {
    hide Overlay, Content, Fresh;
    NewRecordWins(width, d, e, inode, fs, i, p);
    WinnerDecides(width, e, inode, p, KeyFor(width, inode, fs[i]));
  }

  lemma NotCoveredContent(width: nat, d: Disk, e: Disk, inode: nat, fs: seq<Fragment>, other: nat, p: int)
    requires width > 0 && RecordsOk(width, d) && RecordsOk(width, e) && Fresh(d, fs)
    requires (forall f :: f in fs ==> f.off >= 0) && e.frags == Overlay(width, d.frags, inode, fs) && DiskGrows(d, e)
    requires other != inode || !Covered(fs, p)
    ensures Content(width, e, other, p) == Content(width, d, other, p)
  {
    hide Overlay, Content, DiskGrows;
    OverlayEntries(width, d.frags, inode, fs);
    OldRecordsKept(width, d, e, inode, fs);
    forall f | f in fs && f.Covers(p)
      ensures Covered(fs, p)
    {
      CoveredMember(fs, f, p);
    }
    UntouchedContent(width, d, e, other, p);
  }

  lemma NewRecordWins(width: nat, d: Disk, e: Disk, inode: nat, fs: seq<Fragment>, i: nat, p: int)
    requires width > 0 && RecordsOk(width, d) && Fresh(d, fs)
    requires forall g :: g in fs ==> g.off >= 0
    requires e.frags == Overlay(width, d.frags, inode, fs)
    requires LastCover(fs, i, p)
    ensures var k := KeyFor(width, inode, fs[i]); KeyWins(e, inode, p, k) && e.frags[k] == fs[i]
  {
    hide Overlay, Placed, InStripe;
    OverlayEntries(width, d.frags, inode, fs);
    assert fs[i] in fs;
    forall j | j in e.frags && j.inode == inode && e.frags[j].Covers(p)
      ensures e.frags[j].stamp <= fs[i].stamp
    {
      if exists g :: g in fs && j == KeyFor(width, inode, g) {
        var g :| g in fs && j == KeyFor(width, inode, g);
        var b :| 0 <= b < |fs| && fs[b] == g;
        assert b <= i;
      }
    }
  }

  // ----- truncate and delete

  /** Truncate's decision for one record: drop it, clip it or keep it (index/index.go:897-915). */
  function Truncated(size: nat, f: Fragment): Option<Fragment> {
    if f.off >= size then None
    else if f.off + f.len > size then Some(f.(len := size - f.off))
    else Some(f)
  }

  /** m maps k to f, or not at all. */
  predicate Left(m: map<FragKey, Fragment>, k: FragKey, f: Option<Fragment>) {
    if f.None? then k !in m else k in m && m[k] == f.value
  }

  ghost predicate TruncatesTo(d: Disk, e: Disk, inode: nat, size: nat) {
    && e.hot == d.hot && e.cold == d.cold
    && (forall k :: k in e.frags ==> k in d.frags)
    && (forall k :: k in d.frags ==>
          if k.inode != inode then k in e.frags && e.frags[k] == d.frags[k]
          else Left(e.frags, k, Truncated(size, d.frags[k])))
  }

  lemma TruncatedOk(width: nat, d: Disk, e: Disk, inode: nat, size: nat)
    requires RecordsOk(width, d) && TruncatesTo(d, e, inode, size)
    ensures RecordsOk(width, e)
  {
    forall k | k in e.frags
      ensures RecordOk(width, k, e.frags[k]) && Placed(e, e.frags[k])
    {
      assert RecordOk(width, k, d.frags[k]) && Placed(d, d.frags[k]);
    }
  }

  lemma TruncatedContent(width: nat, d: Disk, e: Disk, inode: nat, size: nat, other: nat, p: int)
    requires width > 0 && RecordsOk(width, d) && RecordsOk(width, e) && TruncatesTo(d, e, inode, size)
    ensures Content(width, e, other, p) ==
            if other == inode && p >= size then None else Content(width, d, other, p)
  {
    hide Content;
    if other == inode && p >= size {
      HoleIsNone(width, e, inode, p);
    } else {
      forall k | k in d.frags && k.inode == other && d.frags[k].Covers(p)
        ensures k in e.frags && e.frags[k].Covers(p) && ByteOf(e, e.frags[k], p) == ByteOf(d, d.frags[k], p)
      {
        assert RecordOk(width, k, d.frags[k]) && Placed(d, d.frags[k]);
      }
      UntouchedContent(width, d, e, other, p);
    }
  }

  // ----- move

  /** The records of one stripe. */
  predicate InStripeOf(k: FragKey, inode: nat, stripe: nat) {
    k.inode == inode && k.stripe == stripe
  }

  ghost predicate IsStripeList(d: Disk, inode: nat, stripe: nat, fs: seq<Fragment>) {
    && (forall k :: k in d.frags && InStripeOf(k, inode, stripe) ==> d.frags[k] in fs)
    && (forall f :: f in fs ==> exists k :: k in d.frags && InStripeOf(k, inode, stripe) && d.frags[k] == f)
  }

  /** g is q rewritten elsewhere: same range, same bytes. */
  ghost predicate Copies(d: Disk, q: Fragment, e: Disk, g: Fragment) {
    g.off == q.off && g.len == q.len && Placed(d, q) && Placed(e, g) && Payload(e, g) == Payload(d, q)
  }

  /** Move's outcome: the stripe's records replaced by copies of its canonical view, the rest untouched. */
  ghost predicate MovesTo(width: nat, d: Disk, e: Disk, inode: nat, stripe: nat,
                          fs: seq<Fragment>, view: seq<Fragment>, news: seq<Fragment>)
    requires width > 0
  {
    && IsStripeList(d, inode, stripe, fs) && IsCanonical(fs, view)
    && |news| == |view| && (forall i :: 0 <= i < |view| ==> Copies(d, view[i], e, news[i]))
    && DistinctStamps(news) && (forall g :: g in news ==> g.off >= 0)
    && (forall k :: k in d.frags && !InStripeOf(k, inode, stripe) ==> k in e.frags && e.frags[k] == d.frags[k])
    && (forall k :: k in e.frags && !InStripeOf(k, inode, stripe) ==> k in d.frags)
    && (forall k :: k in e.frags && InStripeOf(k, inode, stripe) ==> e.frags[k] in news)
    && (forall g :: g in news ==>
          FragKey(inode, stripe, g.stamp) in e.frags && e.frags[FragKey(inode, stripe, g.stamp)] == g)
    && DiskGrows(d, e)
  }

  lemma {:induction false} MovedContent(width: nat, d: Disk, e: Disk, inode: nat, stripe: nat,
                     fs: seq<Fragment>, view: seq<Fragment>, news: seq<Fragment>, other: nat, p: int)
    requires width > 0 && RecordsOk(width, d) && RecordsOk(width, e)
    requires MovesTo(width, d, e, inode, stripe, fs, view, news)
    ensures Content(width, e, other, p) == Content(width, d, other, p)
  {
    if other == inode && exists k :: k in d.frags && InStripeOf(k, inode, stripe) && d.frags[k].Covers(p) {
      var k :| k in d.frags && InStripeOf(k, inode, stripe) && d.frags[k].Covers(p);
      CoveredMember(fs, d.frags[k], p);
      MovedByte(width, d, e, inode, stripe, fs, view, news, p);
    } else {
      forall k | k in d.frags && k.inode == other && d.frags[k].Covers(p)
        ensures k in e.frags && e.frags[k] == d.frags[k] && ByteOf(e, e.frags[k], p) == ByteOf(d, d.frags[k], p)
      {
        PlacedGrows(d, e, d.frags[k]);
      }
      forall k | k in e.frags && k.inode == other && e.frags[k].Covers(p)
        ensures k in d.frags && d.frags[k].Covers(p)
      {
        NewCoversOld(width, d, e, inode, stripe, fs, view, news, k, p);
      }
      UntouchedContent(width, d, e, other, p);
    }
  }

  /** A byte a new record covers was covered by an old record of the same stripe. */
  lemma NewCoversOld(width: nat, d: Disk, e: Disk, inode: nat, stripe: nat,
                     fs: seq<Fragment>, view: seq<Fragment>, news: seq<Fragment>, k: FragKey, p: int)
    requires width > 0 && MovesTo(width, d, e, inode, stripe, fs, view, news)
    requires k in e.frags && e.frags[k].Covers(p)
    ensures if InStripeOf(k, inode, stripe)
            then exists j :: j in d.frags && InStripeOf(j, inode, stripe) && d.frags[j].Covers(p)
            else k in d.frags && d.frags[k].Covers(p)
  {
    if InStripeOf(k, inode, stripe) {
      var i :| 0 <= i < |news| && news[i] == e.frags[k];
      assert Copies(d, view[i], e, news[i]);
      CoveredMember(view, view[i], p);
      var a :| 0 <= a < |fs| && fs[a].Covers(p);
      assert fs[a] in fs;
      var j :| j in d.frags && InStripeOf(j, inode, stripe) && d.frags[j] == fs[a];
    }
  }

  lemma MovedByte(width: nat, d: Disk, e: Disk, inode: nat, stripe: nat,
                  fs: seq<Fragment>, view: seq<Fragment>, news: seq<Fragment>, p: int)
    requires width > 0 && RecordsOk(width, d) && RecordsOk(width, e)
    requires MovesTo(width, d, e, inode, stripe, fs, view, news) && Covered(fs, p)
    ensures Content(width, e, inode, p) == Content(width, d, inode, p)
  {
    hide Content, Payload, RecordsOk, WinningPiece;
    assert Covered(view, p);
    var i :| 0 <= i < |view| && view[i].Covers(p);
    assert view[i] in view && news[i] in news && Copies(d, view[i], e, news[i]);
    var k := OldSource(width, d, inode, stripe, fs, view[i], p);
    NewSource(width, d, e, inode, stripe, fs, view, news, i, p);
    SameContent(width, d, e, inode, inode, p, k, FragKey(inode, stripe, news[i].stamp));
  }

  lemma NewSource(width: nat, d: Disk, e: Disk, inode: nat, stripe: nat,
                  fs: seq<Fragment>, view: seq<Fragment>, news: seq<Fragment>, i: nat, p: int)
    requires width > 0 && RecordsOk(width, d) && RecordsOk(width, e)
    requires MovesTo(width, d, e, inode, stripe, fs, view, news)
    requires i < |view| && view[i].Covers(p)
    ensures var j := FragKey(inode, stripe, news[i].stamp);
            KeyWins(e, inode, p, j) && Placed(d, view[i]) && ByteOf(e, e.frags[j], p) == ByteOf(d, view[i], p)
  {
    var g := news[i];
    assert g in news && Copies(d, view[i], e, g);
    forall h | h in e.frags && h.inode == inode && e.frags[h].Covers(p)
      ensures e.frags[h] == g
    {
      OnlyOneNew(width, d, e, inode, stripe, fs, view, news, i, h, p);
    }
  }

  /** The record a piece of the view was cut from wins the piece's bytes on the old disk. */
  lemma OldSource(width: nat, d: Disk, inode: nat, stripe: nat, fs: seq<Fragment>, q: Fragment, p: int)
    returns (k: FragKey)
    requires width > 0 && RecordsOk(width, d) && IsStripeList(d, inode, stripe, fs)
    requires WinningPiece(fs, q) && q.Covers(p)
    ensures KeyWins(d, inode, p, k) && RecordsOk(width, d) && Placed(d, q) && Placed(d, d.frags[k])
            && ByteOf(d, q, p) == ByteOf(d, d.frags[k], p)
  {
    var f :| f in fs && PieceOf(q, f) && forall x :: q.Covers(x) ==> Wins(fs, f, x);
    assert Wins(fs, f, p);
    k :| k in d.frags && InStripeOf(k, inode, stripe) && d.frags[k] == f;
    StripeWinnerWins(width, d, inode, stripe, fs, k, p);
    PieceBytes(d, q, f, p);
  }

  lemma StripeWinnerWins(width: nat, d: Disk, inode: nat, stripe: nat, fs: seq<Fragment>, k: FragKey, p: int)
    requires width > 0 && RecordsOk(width, d) && IsStripeList(d, inode, stripe, fs)
    requires k in d.frags && InStripeOf(k, inode, stripe) && Wins(fs, d.frags[k], p)
    ensures KeyWins(d, inode, p, k)
  {
    forall h | h in d.frags && h.inode == inode && d.frags[h].Covers(p)
      ensures d.frags[h].stamp <= d.frags[k].stamp
    {
      SameStripe(width, d, p, h, k);
      assert d.frags[h] in fs;
    }
  }

  lemma OnlyOneNew(width: nat, d: Disk, e: Disk, inode: nat, stripe: nat,
                   fs: seq<Fragment>, view: seq<Fragment>, news: seq<Fragment>, i: nat, h: FragKey, p: int)
    requires width > 0 && RecordsOk(width, d) && RecordsOk(width, e)
    requires MovesTo(width, d, e, inode, stripe, fs, view, news)
    requires i < |view| && view[i].Covers(p)
    requires h in e.frags && h.inode == inode && e.frags[h].Covers(p)
    ensures e.frags[h] == news[i]
  {
    var g := news[i];
    assert g in news && Copies(d, view[i], e, g);
    var j := FragKey(inode, stripe, g.stamp);
    assert e.frags[j] == g;
    SameStripe(width, e, p, h, j);
    var b :| 0 <= b < |news| && news[b] == e.frags[h];
    assert Copies(d, view[b], e, news[b]);
  }
}
