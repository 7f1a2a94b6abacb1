/** The durable state below the store: both segment sets and the fragment records, what a file contains, and what a
    crash leaves of it (index/index.go, kv/keys.go). */
module Disks {
  import opened Bytes
  import opened Fragments
  import opened Records
  import opened SegmentSets

  /** A fragment record's key; its bytes are Keys.FragmentKey. */
  datatype FragKey = FragKey(inode: nat, stripe: nat, stamp: nat)

  datatype Disk = Disk(hot: SegSet, cold: SegSet, frags: map<FragKey, Fragment>)
  {
    /** setFor: everything that is not cold is hot. */
    function Set(t: Tier): SegSet { if t == COLD then cold else hot }

    function With(t: Tier, s: SegSet): Disk { if t == COLD then this.(cold := s) else this.(hot := s) }
  }

  // ----- stripes

  /** First file offset of a stripe. */
  function StripeStart(width: nat, stripe: nat): nat { stripe * width }

  /** f lies inside one stripe. */
  predicate InStripe(width: nat, stripe: nat, f: Fragment) {
    StripeStart(width, stripe) <= f.off && f.off + f.len <= StripeStart(width, stripe + 1)
  }

  /** An offset lies in the stripe stripeOf computes and in no other. */
  lemma StripeUnique(width: nat, stripe: nat, p: nat)
    requires width > 0
    ensures StripeStart(width, stripe) <= p < StripeStart(width, stripe + 1) <==> p / width == stripe
  {
    var q, r := p / width, p % width;
    assert p == q * width + r && 0 <= r < width;
    if q < stripe {
      assert (q + 1) * width <= stripe * width;
    } else if q > stripe {
      assert (stripe + 1) * width <= q * width;
    }
  }

  predicate RecordOk(width: nat, k: FragKey, f: Fragment) {
    && f.stamp == k.stamp && f.off >= 0 && f.len > 0 && InStripe(width, k.stripe, f)
    && (f.tier == HOT || f.tier == COLD)
  }

  /** The payload is in a linked file, below the length a crash can reach. */
  predicate Placed(d: Disk, f: Fragment) {
    var files := d.Set(f.tier).files;
    f.segment in files && files[f.segment].linked
    && 0 <= f.segOff && f.len >= 0 && f.segOff + f.len <= files[f.segment].synced <= |files[f.segment].data|
  }

  function Payload(d: Disk, f: Fragment): (b: seq<byte>)
    requires Placed(d, f)
    ensures |b| == f.len
  {
    d.Set(f.tier).files[f.segment].data[f.segOff..f.segOff + f.len]
  }

  ghost predicate DiskOk(crc: Checksum, width: nat, d: Disk) {
    && width > 0
    && SetOk(crc, d.hot) && SetOk(crc, d.cold)
    && RecordsOk(width, d)
  }

  ghost predicate RecordsOk(width: nat, d: Disk) {
    forall k :: k in d.frags ==> RecordOk(width, k, d.frags[k]) && Placed(d, d.frags[k])
  }

  ghost predicate DiskGrows(d: Disk, e: Disk) {
    Grows(d.hot, e.hot) && Grows(d.cold, e.cold)
  }

  lemma DiskGrowsTransitive(d: Disk, e: Disk, g: Disk)
    requires DiskGrows(d, e) && DiskGrows(e, g)
    ensures DiskGrows(d, g)
  {
    GrowsTransitive(d.hot, e.hot, g.hot);
    GrowsTransitive(d.cold, e.cold, g.cold);
  }

  /** As files grow, payloads stay put. */
  lemma PlacedGrows(d: Disk, e: Disk, f: Fragment)
    requires DiskGrows(d, e) && Placed(d, f)
    requires f.segment in e.Set(f.tier).files
             && e.Set(f.tier).files[f.segment].synced <= |e.Set(f.tier).files[f.segment].data|
    ensures Placed(e, f) && Payload(e, f) == Payload(d, f)
  {
    assert FileGrows(d.Set(f.tier).files[f.segment], e.Set(f.tier).files[f.segment]);
  }

  /** A step of one set that keeps it in order and loses nothing keeps the whole disk in order. */
  lemma SetStepOk(crc: Checksum, width: nat, d: Disk, t: Tier, s: SegSet)
    requires DiskOk(crc, width, d) && SetOk(crc, s) && Grows(d.Set(t), s)
    ensures DiskOk(crc, width, d.With(t, s)) && DiskGrows(d, d.With(t, s))
  {
    hide WholeLog;
    var e := d.With(t, s);
    GrowsRefl(d.hot);
    GrowsRefl(d.cold);
    forall k | k in e.frags
      ensures Placed(e, e.frags[k])
    {
      PlacedGrows(d, e, d.frags[k]);
    }
  }

  lemma GrowsRefl(s: SegSet)
    ensures Grows(s, s)
  {
  }

  // ----- histories

  /** One primitive operation on the files of one tier; no record changes. */
  ghost predicate TierStep(crc: Checksum, d: Disk, e: Disk, t: Tier) {
    e == d.With(t, e.Set(t)) && SetStep(crc, d.Set(t), e.Set(t))
  }

  ghost predicate DiskStep(crc: Checksum, d: Disk, e: Disk) {
    TierStep(crc, d, e, HOT) || TierStep(crc, d, e, COLD)
  }

  /** One batch of the key/value store: records change, files do not. */
  ghost predicate CommitStep(d: Disk, e: Disk) { e.hot == d.hot && e.cold == d.cold }

  /** From the state at n on, each is one primitive file operation after the one before. */
  ghost predicate DiskSteps(crc: Checksum, history: seq<Disk>, n: nat) {
    forall i :: n <= i < |history| - 1 ==> DiskStep(crc, history[i], history[i + 1])
  }

  lemma DiskStepKeeps(crc: Checksum, width: nat, d: Disk, e: Disk)
    requires DiskOk(crc, width, d) && DiskStep(crc, d, e)
    ensures DiskOk(crc, width, e) && DiskGrows(d, e) && e.frags == d.frags
  {
    hide SetOk, SetStep, RecordsOk;
    var t := if TierStep(crc, d, e, HOT) then HOT else COLD;
    SetStepKeeps(crc, d.Set(t), e.Set(t));
    SetStepOk(crc, width, d, t, e.Set(t));
  }

  /** File operations keep a sound disk sound, lose nothing and touch no record. */
  lemma {:induction false} DiskStepsKeep(crc: Checksum, width: nat, history: seq<Disk>, n: nat, i: nat, j: nat)
    requires n <= i <= j < |history| && DiskOk(crc, width, history[n]) && DiskSteps(crc, history, n)
    ensures DiskOk(crc, width, history[i]) && DiskOk(crc, width, history[j]) && DiskGrows(history[i], history[j])
    ensures history[j].frags == history[i].frags == history[n].frags
    decreases j
  {
    hide DiskOk, DiskGrows, DiskStep;
    if n == j {
      assert DiskGrows(history[n], history[n]) by { DiskGrowsRefl(history[n]); }
    } else if i == j {
      DiskStepsKeep(crc, width, history, n, j - 1, j - 1);
      assert DiskStep(crc, history[j - 1], history[j - 1 + 1]);
      DiskStepKeeps(crc, width, history[j - 1], history[j]);
      DiskGrowsRefl(history[j]);
    } else {
      DiskStepsKeep(crc, width, history, n, i, j - 1);
      assert DiskStep(crc, history[j - 1], history[j - 1 + 1]);
      DiskStepKeeps(crc, width, history[j - 1], history[j]);
      DiskGrowsTransitive(history[i], history[j - 1], history[j]);
    }
  }

  lemma DiskGrowsRefl(d: Disk)
    ensures DiskGrows(d, d)
  {
  }

  /** The states of one tier's files as states of the disk. */
  ghost function Lifted(d: Disk, t: Tier, states: seq<SegSet>): seq<Disk> {
    seq(|states|, i requires 0 <= i < |states| => d.With(t, states[i]))
  }

  lemma LiftedSteps(crc: Checksum, d: Disk, t: Tier, before: seq<Disk>, states: seq<SegSet>, n: nat)
    requires |before| > 0 && before[|before| - 1] == d && 0 < n <= |states| && states[n - 1] == d.Set(t)
    requires (t == HOT || t == COLD)
    requires SetSteps(crc, states, n - 1)
    ensures DiskSteps(crc, before + Lifted(d, t, states[n..]), |before| - 1)
    ensures var all := before + Lifted(d, t, states[n..]); all[|all| - 1] == d.With(t, states[|states| - 1])
  {
    hide SetStep;
    var all, m := before + Lifted(d, t, states[n..]), |before| - 1;
    forall i | m <= i < |all|
      ensures all[i] == d.With(t, states[n - 1 + (i - m)])
    {
    }
    forall i | m <= i < |all| - 1
      ensures DiskStep(crc, all[i], all[i + 1])
    {
      assert SetStep(crc, states[n - 1 + (i - m)], states[n - 1 + (i - m) + 1]);
      assert TierStep(crc, all[i], all[i + 1], t);
    }
  }

  // ----- what a file contains

  /** k's fragment supplies byte p of the inode: it covers p and no covering fragment is newer. */
  ghost predicate KeyWins(d: Disk, inode: nat, p: int, k: FragKey) {
    && k in d.frags && k.inode == inode && d.frags[k].Covers(p)
    && forall j :: j in d.frags && j.inode == inode && d.frags[j].Covers(p) ==> d.frags[j].stamp <= d.frags[k].stamp
  }

  ghost predicate DiskCovers(d: Disk, inode: nat, p: int) {
    exists k :: k in d.frags && k.inode == inode && d.frags[k].Covers(p)
  }

  function ByteOf(d: Disk, f: Fragment, p: int): byte
    requires Placed(d, f) && f.Covers(p)
  {
    Payload(d, f)[p - f.off]
  }

  /** The byte at offset p, or None in a hole. */
  ghost function Content(width: nat, d: Disk, inode: nat, p: int): Option<byte>
    requires RecordsOk(width, d)
  {
    if exists k :: KeyWins(d, inode, p, k)
    then var k :| KeyWins(d, inode, p, k); Some(ByteOf(d, d.frags[k], p))
    else None
  }

  /** Two records of an inode that cover one offset share the stripe, so equal stamps mean the same record. */
  lemma SameStripe(width: nat, d: Disk, p: int, j: FragKey, k: FragKey)
    requires width > 0 && RecordsOk(width, d)
    requires j in d.frags && k in d.frags && d.frags[j].Covers(p) && d.frags[k].Covers(p)
    ensures j.stripe == k.stripe
  {
    StripeUnique(width, j.stripe, p);
    StripeUnique(width, k.stripe, p);
  }

  lemma WinnerDecides(width: nat, d: Disk, inode: nat, p: int, k: FragKey)
    requires width > 0 && RecordsOk(width, d) && KeyWins(d, inode, p, k)
    ensures Content(width, d, inode, p) == Some(ByteOf(d, d.frags[k], p))
  {
    forall j | KeyWins(d, inode, p, j)
      ensures j == k
    {
      SameStripe(width, d, p, j, k);
    }
  }

  /** Where something covers an offset, something wins it. */
  lemma CoveredHasWinner(d: Disk, inode: nat, p: int) returns (k: FragKey)
    requires DiskCovers(d, inode, p)
    ensures KeyWins(d, inode, p, k)
  {
    k :| k in d.frags && k.inode == inode && d.frags[k].Covers(p);
    var left := set j | j in d.frags && j.inode == inode && d.frags[j].Covers(p);
    while left != {}
      invariant k in d.frags && k.inode == inode && d.frags[k].Covers(p)
      invariant forall j :: j in d.frags && j.inode == inode && d.frags[j].Covers(p) && j !in left ==>
        d.frags[j].stamp <= d.frags[k].stamp
    {
      var j :| j in left;
      left := left - {j};
      if d.frags[j].stamp > d.frags[k].stamp {
        k := j;
      }
    }
  }

  lemma HoleIsNone(width: nat, d: Disk, inode: nat, p: int)
    requires RecordsOk(width, d)
    ensures Content(width, d, inode, p) == None <==> !DiskCovers(d, inode, p)
  {
    if DiskCovers(d, inode, p) {
      var k := CoveredHasWinner(d, inode, p);
    }
  }

  // ----- crashes

  datatype Wreck = Wreck(hot: map<nat, seq<byte>>, cold: map<nat, seq<byte>>, frags: map<FragKey, Fragment>)

  /** A crash tears the files; committed batches stay whole in the key/value store. */
  ghost predicate DiskCrashes(d: Disk, w: Wreck) {
    Crashes(d.hot, w.hot) && Crashes(d.cold, w.cold) && w.frags == d.frags
  }

  /** r is what Open makes of the wreck: both sets reopened, their tails repaired. */
  ghost predicate Reopens(crc: Checksum, w: Wreck, r: Disk) {
    exists hot, cold :: Opens(w.hot, hot) && Opens(w.cold, cold)
      && r == Disk(Repaired(crc, hot), Repaired(crc, cold), w.frags)
  }

  /** After any crash every visible fragment is in place and holds the bytes it held before. */
  lemma CrashSafe(crc: Checksum, width: nat, d: Disk, w: Wreck, r: Disk)
    requires DiskOk(crc, width, d) && DiskCrashes(d, w) && Reopens(crc, w, r)
    ensures DiskOk(crc, width, r) && r.frags == d.frags
    ensures forall k :: k in d.frags ==> Payload(r, r.frags[k]) == Payload(d, d.frags[k])
  {
    hide Repaired, SetOk, Opens, Crashes, Survives, Payload, Placed;
    var hot, cold :| Opens(w.hot, hot) && Opens(w.cold, cold)
      && r == Disk(Repaired(crc, hot), Repaired(crc, cold), w.frags);
    CrashThenReopen(crc, d.hot, w.hot, hot);
    CrashThenReopen(crc, d.cold, w.cold, cold);
    forall k | k in d.frags
      ensures Placed(r, d.frags[k]) && Payload(r, d.frags[k]) == Payload(d, d.frags[k])
    {
      SurvivesPayload(d, r, d.frags[k]);
    }
  }

  lemma SurvivesPayload(d: Disk, r: Disk, f: Fragment)
    requires Survives(d.hot, r.hot) && Survives(d.cold, r.cold) && Placed(d, f)
    ensures Placed(r, f) && Payload(r, f) == Payload(d, f)
  {
    var a, b := d.Set(f.tier).files[f.segment], r.Set(f.tier).files[f.segment];
    assert a.data[..a.synced] == b.data[..a.synced];
    assert a.data[f.segOff..f.segOff + f.len] == a.data[..a.synced][f.segOff..f.segOff + f.len];
    assert b.data[f.segOff..f.segOff + f.len] == b.data[..a.synced][f.segOff..f.segOff + f.len];
  }

  /** So file contents survive a crash unchanged. */
  lemma CrashKeepsContent(crc: Checksum, width: nat, d: Disk, w: Wreck, r: Disk, inode: nat, p: int)
    requires DiskOk(crc, width, d) && DiskCrashes(d, w) && Reopens(crc, w, r)
    ensures DiskOk(crc, width, r) && Content(width, r, inode, p) == Content(width, d, inode, p)
  {
    CrashSafe(crc, width, d, w, r);
    HoleIsNone(width, d, inode, p);
    HoleIsNone(width, r, inode, p);
    if DiskCovers(d, inode, p) {
      var k := CoveredHasWinner(d, inode, p);
      WinnerDecides(width, d, inode, p, k);
      WinnerDecides(width, r, inode, p, k);
    }
  }
}
