/** Splitting legacy per-stripe blobs into one record per fragment (index/index.go:239-319). */
module Migration {
  import opened Bytes
  import opened Keys
  import opened Fragments
  import opened Shadow

  /** A stripe key: the 13-byte blob key or the 21-byte record key. */
  datatype StripeKey = Blob(inode: nat, stripe: nat) | Rec(inode: nat, stripe: nat, stamp: nat)

  type DB = map<StripeKey, seq<byte>>

  /** Records are 40 bytes and carry the stamp of their key. */
  ghost predicate WellFormed(db: DB) {
    forall k :: k in db && k.Rec? ==> |db[k]| == FRAGMENT_SIZE && DecodeFragment(db[k]).stamp == k.stamp
  }

  /** f is one of the stripe's fragments, in whichever layout. */
  ghost predicate Holds(db: DB, inode: nat, stripe: nat, f: Fragment) {
    || (Blob(inode, stripe) in db && f in DecodeAll(db[Blob(inode, stripe)]))
    || HoldsRecord(db, Rec(inode, stripe, f.stamp), f)
  }

  ghost predicate HoldsRecord(db: DB, k: StripeKey, f: Fragment) {
    k in db && |db[k]| == FRAGMENT_SIZE && DecodeFragment(db[k]) == f
  }

  /** No two different fragments of a stripe share a stamp. */
  ghost predicate OneFragmentPerStamp(db: DB) {
    forall i, s, f, g :: Holds(db, i, s, f) && Holds(db, i, s, g) && f.stamp == g.stamp ==> f == g
  }

  /** b's fragments are a's, one for each stamp of each stripe at least. */
  ghost predicate KeepsStamps(a: DB, b: DB) {
    && (forall i, s, f :: Holds(b, i, s, f) ==> Holds(a, i, s, f))
    && (forall i, s, f :: Holds(a, i, s, f) ==> exists g :: Holds(b, i, s, g) && g.stamp == f.stamp)
  }

  ghost predicate SameFragments(a: DB, b: DB) {
    forall i, s, f :: Holds(a, i, s, f) <==> Holds(b, i, s, f)
  }

  lemma {:induction false} FromLEBound(b: seq<byte>)
    ensures FromLE(b) < Pow256(|b|)
  {
    if b != [] {
      FromLEBound(b[1..]);
    }
  }

  /** Whatever bytes a blob holds, the fragments decoded from it fit back into a record. */
  lemma DecodedEncodable(b: seq<byte>)
    requires |b| >= FRAGMENT_SIZE
    ensures Encodable(DecodeFragment(b))
  {
    hide FromLE;
    Widths();
    FromLEBound(b[0..8]);
    FromLEBound(b[8..16]);
    FromLEBound(b[16..24]);
    FromLEBound(b[28..32]);
    FromLEBound(b[32..40]);
  }

  lemma {:induction false} AllEncodable(b: seq<byte>)
    ensures forall f :: f in DecodeAll(b) ==> Encodable(f)
    decreases |b|
  {
    hide DecodeFragment;
    if |b| >= FRAGMENT_SIZE {
      DecodedEncodable(b);
      AllEncodable(b[FRAGMENT_SIZE..]);
    }
  }

  lemma EncodedRecord(f: Fragment)
    requires Encodable(f)
    ensures |EncodeAll([f])| == FRAGMENT_SIZE && DecodeFragment(EncodeAll([f])) == f
  {
    hide EncodeFragment, DecodeFragment;
    FragmentRoundTrip(f, []);
    assert [f][1..] == [];
    assert EncodeAll([f]) == EncodeFragment(f) + EncodeAll([]);
  }

  /** The batch built so far: a record for each fragment of the blobs already split. */
  ghost predicate Batched(db: DB, sets: DB, split: set<StripeKey>) {
    && (forall k :: k in split ==> k in db && k.Blob?)
    && (forall k :: k in sets ==>
          k.Rec? && Blob(k.inode, k.stripe) in split
          && |sets[k]| == FRAGMENT_SIZE && FromBlob(db, k, DecodeFragment(sets[k])))
    && (forall k, f :: k in split && f in DecodeAll(db[k]) ==> Rec(k.inode, k.stripe, f.stamp) in sets)
  }

  ghost predicate FromBlob(db: DB, k: StripeKey, f: Fragment) {
    k.Rec? && f.stamp == k.stamp && Blob(k.inode, k.stripe) in db && f in DecodeAll(db[Blob(k.inode, k.stripe)])
  }

  /** The batch while the blob at k is being split: the first n of its fragments are in. */
  ghost predicate Splitting(db: DB, k: StripeKey, sets0: DB, sets: DB, fs: seq<Fragment>, n: nat)
    requires k in db && n <= |fs|
  {
    && (forall j :: j in sets0 ==> j in sets)
    && (forall j :: j in sets ==> j.Rec?)
    && (forall j :: j in sets && !(j.inode == k.inode && j.stripe == k.stripe) ==> j in sets0 && sets[j] == sets0[j])
    && (forall j :: j in sets && j.inode == k.inode && j.stripe == k.stripe ==>
          |sets[j]| == FRAGMENT_SIZE && FromBlob(db, j, DecodeFragment(sets[j])))
    && (forall a :: 0 <= a < n ==> Rec(k.inode, k.stripe, fs[a].stamp) in sets)
  }

  lemma SplitStart(db: DB, k: StripeKey, sets0: DB, split: set<StripeKey>, fs: seq<Fragment>)
    requires k in db && k.Blob? && k !in split && Batched(db, sets0, split)
    ensures Splitting(db, k, sets0, sets0, fs, 0)
  {
    assert Blob(k.inode, k.stripe) == k;
  }

  lemma SplitStep(db: DB, k: StripeKey, sets0: DB, sets: DB, fs: seq<Fragment>, n: nat, v: seq<byte>)
    requires k in db && k.Blob? && n < |fs| && Splitting(db, k, sets0, sets, fs, n) && fs == DecodeAll(db[k])
    requires |v| == FRAGMENT_SIZE && DecodeFragment(v) == fs[n]
    ensures Splitting(db, k, sets0, sets[Rec(k.inode, k.stripe, fs[n].stamp) := v], fs, n + 1)
  {
    hide DecodeFragment, DecodeAll;
    var key := Rec(k.inode, k.stripe, fs[n].stamp);
    assert Blob(k.inode, k.stripe) == k && fs[n] in fs;
    assert FromBlob(db, key, fs[n]);
  }

  lemma SplitEnd(db: DB, k: StripeKey, sets0: DB, sets: DB, split: set<StripeKey>, fs: seq<Fragment>)
    requires k in db && k.Blob? && k !in split && Batched(db, sets0, split)
    requires fs == DecodeAll(db[k]) && Splitting(db, k, sets0, sets, fs, |fs|)
    ensures Batched(db, sets, split + {k})
  {
    hide DecodeFragment, DecodeAll;
    assert Blob(k.inode, k.stripe) == k;
    forall f | f in DecodeAll(db[k])
      ensures Rec(k.inode, k.stripe, f.stamp) in sets
    {
      var a :| 0 <= a < |fs| && fs[a] == f;
    }
  }

  /** Queue one record per fragment of a blob, and track the largest stamp. */
  method SplitBlob(db: DB, k: StripeKey, sets0: DB, split: set<StripeKey>, max0: nat) returns (sets: DB, maxSeq: nat)
    requires k in db && k.Blob? && k !in split && Batched(db, sets0, split)
    requires forall j :: j in sets0 ==> j.stamp <= max0
    ensures Batched(db, sets, split + {k}) && maxSeq >= max0
    ensures forall j :: j in sets ==> j.Rec? && j.stamp <= maxSeq
  {
    var fs := DecodeFragments(db[k]);
    AllEncodable(db[k]);
    sets, maxSeq := sets0, max0;
    SplitStart(db, k, sets0, split, fs);
    hide DecodeFragment, EncodeAll, DecodeAll, FRAGMENT_SIZE, Splitting, Batched;
    for i := 0 to |fs|
      invariant maxSeq >= max0 && Splitting(db, k, sets0, sets, fs, i)
      invariant forall j :: j in sets ==> j.stamp <= maxSeq
    {
      var f := fs[i];
      if f.stamp > maxSeq {
        maxSeq := f.stamp;
      }
      EncodedRecord(f);
      var v := EncodeFragments([f]);
      SplitStep(db, k, sets0, sets, fs, i, v);
      sets := sets[Rec(k.inode, k.stripe, f.stamp) := v];
    }
    SplitEnd(db, k, sets0, sets, split, fs);
    BatchedRecords(db, sets, split + {k});
  }

  lemma BatchedRecords(db: DB, sets: DB, split: set<StripeKey>)
    requires Batched(db, sets, split)
    ensures forall j :: j in sets ==> j.Rec?
  {
  }

  function Applied(db: DB, sets: DB, blobs: set<StripeKey>): DB {
    (db + sets) - blobs
  }

  ghost function BlobsOf(db: DB): set<StripeKey> { set k | k in db && k.Blob? }

  /** migrateBlobsToFragments. */
  method Migrate(db: DB, seqGen: nat) returns (after: DB, seqGen': nat)
    requires WellFormed(db)
    ensures WellFormed(after) && forall k :: k in after ==> k.Rec?
    ensures BlobsOf(db) == {} ==> after == db
    ensures seqGen <= seqGen' && forall k :: k in after ==> k.stamp <= seqGen'
    ensures SameFragments(db, after) <==> OneFragmentPerStamp(db)
    ensures KeepsStamps(db, after)
  {
    hide DecodeFragment, DecodeAll;
    var sets: DB, maxSeq: nat := map[], 0;
    var blobs: set<StripeKey> := {};
    var left := db.Keys;
    while left != {}
      invariant left <= db.Keys
      invariant Batched(db, sets, blobs) && forall k :: k in sets ==> k.Rec? && k.stamp <= maxSeq
      invariant blobs == set k | k in db && k !in left && k.Blob?
      invariant forall k :: k in db && k !in left && k.Rec? ==> k.stamp <= maxSeq
    {
      var k :| k in left;
      if k.Rec? {
        if k.stamp > maxSeq {
          maxSeq := k.stamp;
        }
      } else {
        sets, maxSeq := SplitBlob(db, k, sets, blobs, maxSeq);
        blobs := blobs + {k};
      }
      left := left - {k};
    }
    assert blobs == BlobsOf(db);
    seqGen' := seqGen;
    after := db;
    if blobs == {} && maxSeq == 0 {
      NothingToSplit(db, sets);
    } else {
      if seqGen <= maxSeq {
        seqGen' := maxSeq + 1;
      }
      if blobs != {} {
        after := Applied(db, sets, blobs);
      } else {
        NothingToSplit(db, sets);
      }
    }
    assert after == Applied(db, sets, blobs);
    MigratedExactly(db, sets, blobs);
  }

  lemma NothingToSplit(db: DB, sets: DB)
    requires Batched(db, sets, {})
    ensures sets == map[] && Applied(db, sets, {}) == db
  {
  }

  lemma MigratedExactly(db: DB, sets: DB, blobs: set<StripeKey>)
    requires WellFormed(db) && blobs == BlobsOf(db) && Batched(db, sets, blobs)
    ensures var after := Applied(db, sets, blobs);
            WellFormed(after) && (forall k :: k in after ==> k.Rec?)
            && (SameFragments(db, after) <==> OneFragmentPerStamp(db)) && KeepsStamps(db, after)
  {
    var after := Applied(db, sets, blobs);
    AppliedRecords(db, sets, blobs);
    RecordsOnePerStamp(after);
    hide Holds, Batched, WellFormed, Applied;
    forall i, s, f
      ensures Holds(after, i, s, f) ==> Holds(db, i, s, f)
      ensures OneFragmentPerStamp(db) && Holds(db, i, s, f) ==> Holds(after, i, s, f)
      ensures Holds(db, i, s, f) ==> exists g :: Holds(after, i, s, g) && g.stamp == f.stamp
    {
      HoldsAfter(db, sets, blobs, i, s, f);
      if Holds(db, i, s, f) {
        StampSurvives(db, sets, blobs, i, s, f);
      }
    }
  }

  lemma AppliedRecords(db: DB, sets: DB, blobs: set<StripeKey>)
    requires WellFormed(db) && blobs == BlobsOf(db) && Batched(db, sets, blobs)
    ensures WellFormed(Applied(db, sets, blobs)) && forall k :: k in Applied(db, sets, blobs) ==> k.Rec?
  {
    hide DecodeFragment, DecodeAll;
  }

  /** Each stamp of a stripe keeps one of its fragments. */
  lemma StampSurvives(db: DB, sets: DB, blobs: set<StripeKey>, i: nat, s: nat, f: Fragment)
    requires WellFormed(db) && blobs == BlobsOf(db) && Batched(db, sets, blobs) && Holds(db, i, s, f)
    ensures exists g :: Holds(Applied(db, sets, blobs), i, s, g) && g.stamp == f.stamp
  {
    hide DecodeFragment, DecodeAll;
    var after, k := Applied(db, sets, blobs), Rec(i, s, f.stamp);
    if k in sets {
      assert FromBlob(db, k, DecodeFragment(sets[k])) && after[k] == sets[k];
      assert Holds(after, i, s, DecodeFragment(after[k]));
    } else {
      assert after[k] == db[k] && Holds(after, i, s, f);
    }
  }

  lemma RecordsOnePerStamp(db: DB)
    requires forall k :: k in db ==> k.Rec?
    ensures OneFragmentPerStamp(db)
  {
  }

  lemma HoldsAfter(db: DB, sets: DB, blobs: set<StripeKey>, i: nat, s: nat, f: Fragment)
    requires WellFormed(db) && blobs == BlobsOf(db) && Batched(db, sets, blobs)
    ensures var after := Applied(db, sets, blobs);
            && (Holds(after, i, s, f) ==> Holds(db, i, s, f))
            && (OneFragmentPerStamp(db) && Holds(db, i, s, f) ==> Holds(after, i, s, f))
  {
    hide DecodeFragment, DecodeAll;
    var after, k := Applied(db, sets, blobs), Rec(i, s, f.stamp);
    if OneFragmentPerStamp(db) && Holds(db, i, s, f) {
      if k in sets {
        var g := DecodeFragment(sets[k]);
        assert FromBlob(db, k, g) && Holds(db, i, s, g);
        assert after[k] == sets[k];
      } else {
        assert after[k] == db[k];
      }
    }
  }

  /** Where no fragment is lost, every offset of every stripe keeps its winner, so every read stays the same. */
  lemma MigratedReads(db: DB, after: DB, i: nat, s: nat, fs: seq<Fragment>, gs: seq<Fragment>, p: int)
    requires SameFragments(db, after)
    requires (forall f :: f in fs <==> Holds(db, i, s, f)) && (forall f :: f in gs <==> Holds(after, i, s, f))
    ensures Covered(fs, p) <==> Covered(gs, p)
    ensures forall f :: Wins(fs, f, p) <==> Wins(gs, f, p)
  {
    hide Holds;
    forall f
      ensures f in fs <==> f in gs
    {
      assert Holds(db, i, s, f) <==> Holds(after, i, s, f);
    }
    MembersDecide(fs, gs);
  }

  /** A blob with two fragments of stamp 3. */
  method TwoOfOneStamp() returns (db: DB, f: Fragment, g: Fragment)
    ensures WellFormed(db) && f != g && f.stamp == g.stamp && Holds(db, 5, 0, f) && Holds(db, 5, 0, g)
    ensures forall x :: Holds(db, 5, 0, x) ==> x == f || x == g
  {
    f, g := Fragment(3, 0, 10, HOT, 1, 40), Fragment(3, 20, 10, HOT, 1, 94);
    var blob := EncodeFragments([f, g]);
    FragmentsRoundTrip([f, g]);
    hide EncodeFragment, EncodeAll, DecodeAll;
    db := map[Blob(5, 0) := blob];
    OnlyTwo(db, blob, f, g);
  }

  lemma OnlyTwo(db: DB, blob: seq<byte>, f: Fragment, g: Fragment)
    requires DecodeAll(blob) == [f, g] && db == map[Blob(5, 0) := blob]
    ensures Holds(db, 5, 0, f) && Holds(db, 5, 0, g) && forall x :: Holds(db, 5, 0, x) ==> x == f || x == g
  {
    hide DecodeAll;
    assert f in [f, g] && g in [f, g];
  }

  /** Of two fragments of one stripe and stamp the migration keeps exactly one. */
  method MigrationLosesOne() returns (db: DB, after: DB, f: Fragment, g: Fragment)
    ensures WellFormed(db) && f != g && Holds(db, 5, 0, f) && Holds(db, 5, 0, g)
    ensures !OneFragmentPerStamp(db) && KeepsStamps(db, after) && forall k :: k in after ==> k.Rec?
    ensures Holds(after, 5, 0, f) <==> !Holds(after, 5, 0, g)
  {
    db, f, g := TwoOfOneStamp();
    hide Holds, WellFormed;
    var seqGen;
    after, seqGen := Migrate(db, 0);
    RecordsOnePerStamp(after);
    ghost var kept :| Holds(after, 5, 0, kept) && kept.stamp == f.stamp;
  }
}
