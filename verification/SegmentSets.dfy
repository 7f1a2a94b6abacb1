/** The segments of one tier: rotation, sync, removal, reopening and tail repair (segment/segment.go:312-608). */
module SegmentSets {
  import opened Bytes
  import opened Records

  /** One segment file: its bytes, how many a crash cannot take, and whether its directory entry is durable. */
  datatype File = File(data: seq<byte>, synced: nat, linked: bool)

  datatype SegSet = SegSet(files: map<nat, File>, active: Option<nat>, nextID: nat)

  /** Segments from the active one on are whole logs, synced at a record boundary; older ones are never scanned. */
  ghost predicate SetOk(crc: Checksum, s: SegSet) {
    && (forall id :: id in s.files ==> id < s.nextID && s.files[id].synced <= |s.files[id].data|)
    && (s.active.Some? ==> s.active.value in s.files && s.files[s.active.value].linked)
    && (forall id :: id in s.files && (s.active.None? || id >= s.active.value) ==> WholeLog(crc, s.files[id]))
  }

  ghost predicate WholeLog(crc: Checksum, f: File) {
    f.synced <= |f.data| && IsLog(crc, f.data) && IsLog(crc, f.data[..f.synced])
  }

  /** Nothing that was on disk is lost or altered. */
  ghost predicate FileGrows(f: File, g: File) {
    f.data <= g.data && f.synced <= g.synced && (f.linked ==> g.linked)
  }

  ghost predicate Grows(s: SegSet, t: SegSet) {
    forall id :: id in s.files ==> id in t.files && FileGrows(s.files[id], t.files[id])
  }

  lemma GrowsTransitive(s: SegSet, t: SegSet, u: SegSet)
    requires Grows(s, t) && Grows(t, u)
    ensures Grows(s, u)
  {
    forall id | id in s.files
      ensures id in u.files && FileGrows(s.files[id], u.files[id])
    {
      assert FileGrows(s.files[id], t.files[id]) && FileGrows(t.files[id], u.files[id]);
    }
  }

  // ----- the steps a running set takes

  function Synced(s: SegSet, id: nat): SegSet
    requires id in s.files
  {
    s.(files := s.files[id := s.files[id].(synced := |s.files[id].data|)])
  }

  /** openSegment on a fresh id; its directory entry is not durable yet. */
  function FileCreated(s: SegSet): SegSet {
    s.(files := s.files[s.nextID := File([], 0, false)], nextID := s.nextID + 1)
  }

  /** fsync of the directory, then the new file becomes the write target. */
  function Installed(s: SegSet, id: nat): SegSet
    requires id in s.files
  {
    s.(files := map i | i in s.files :: s.files[i].(linked := true), active := Some(id))
  }

  function Appended(crc: Checksum, s: SegSet, id: nat, r: Record): SegSet
    requires id in s.files && r.Valid()
  {
    s.(files := s.files[id := s.files[id].(data := s.files[id].data + Frame(crc, r))])
  }

  function Removed(s: SegSet, id: nat): SegSet {
    SegSet(s.files - {id}, if s.active == Some(id) then None else s.active, s.nextID)
  }

  lemma SyncedOk(crc: Checksum, s: SegSet, id: nat)
    requires SetOk(crc, s) && id in s.files
    ensures SetOk(crc, Synced(s, id)) && Grows(s, Synced(s, id))
  {
    hide IsLog;
    var f := s.files[id];
    assert f.data[..|f.data|] == f.data;
  }

  lemma CreatedOk(crc: Checksum, s: SegSet)
    requires SetOk(crc, s)
    ensures SetOk(crc, FileCreated(s)) && Grows(s, FileCreated(s)) && s.nextID !in s.files
  {
    hide IsLog;
    IsLogEmpty(crc);
    var empty: seq<byte> := [];
    assert empty[..0] == [];
  }

  lemma InstalledOk(crc: Checksum, s: SegSet, id: nat)
    requires SetOk(crc, s) && id in s.files && (s.active.None? || id >= s.active.value)
    ensures SetOk(crc, Installed(s, id)) && Grows(s, Installed(s, id))
  {
    hide IsLog;
  }

  lemma AppendedOk(crc: Checksum, s: SegSet, id: nat, r: Record)
    requires SetOk(crc, s) && id in s.files && r.Valid()
    ensures SetOk(crc, Appended(crc, s, id, r)) && Grows(s, Appended(crc, s, id, r))
  {
    hide Frame, IsLog;
    var f := s.files[id];
    if s.active.None? || id >= s.active.value {
      IsLogAppend(crc, f.data, r);
    }
    assert (f.data + Frame(crc, r))[..f.synced] == f.data[..f.synced];
  }

  lemma RemovedOk(crc: Checksum, s: SegSet, id: nat)
    requires SetOk(crc, s) && s.active != Some(id)
    ensures SetOk(crc, Removed(s, id))
  {
    hide IsLog;
  }

  /** One primitive operation on the files of a set: an fsync, a new file, an fsync of the directory with the switch to
      the new file, or the append of one record. */
  ghost predicate SetStep(crc: Checksum, s: SegSet, t: SegSet) {
    || (exists id :: id in s.files && t == Synced(s, id))
    || t == FileCreated(s)
    || (exists id :: id in s.files && (s.active.None? || id >= s.active.value) && t == Installed(s, id))
    || (exists id, r: Record :: id in s.files && r.Valid() && t == Appended(crc, s, id, r))
  }

  lemma SetStepKeeps(crc: Checksum, s: SegSet, t: SegSet)
    requires SetOk(crc, s) && SetStep(crc, s, t)
    ensures SetOk(crc, t) && Grows(s, t)
  {
    hide SetOk, Grows, Synced, FileCreated, Installed, Appended;
    if id :| id in s.files && t == Synced(s, id) {
      SyncedOk(crc, s, id);
    } else if t == FileCreated(s) {
      CreatedOk(crc, s);
    } else if id :| id in s.files && (s.active.None? || id >= s.active.value) && t == Installed(s, id) {
      InstalledOk(crc, s, id);
    } else {
      var id, r: Record :| id in s.files && r.Valid() && t == Appended(crc, s, id, r);
      AppendedOk(crc, s, id, r);
    }
  }

  /** From the state at n on, each is one primitive operation after the one before. */
  ghost predicate SetSteps(crc: Checksum, history: seq<SegSet>, n: nat) {
    forall i :: n <= i < |history| - 1 ==> SetStep(crc, history[i], history[i + 1])
  }

  // ----- crash and reopen

  /** What a crash can leave: unlinked files may vanish, and each file keeps at least its synced prefix. */
  ghost predicate Crashes(s: SegSet, dir: map<nat, seq<byte>>) {
    && dir.Keys <= s.files.Keys
    && (forall id :: id in s.files && s.files[id].linked ==> id in dir)
    && (forall id :: id in dir ==> dir[id] <= s.files[id].data && s.files[id].synced <= |dir[id]|)
  }

  ghost predicate IsMax(ids: set<nat>, m: nat) {
    m in ids && forall i :: i in ids ==> i <= m
  }

  /** The state OpenSet builds from a directory. */
  ghost predicate Opens(dir: map<nat, seq<byte>>, s: SegSet) {
    && s.files == (map id | id in dir :: File(dir[id], |dir[id]|, true))
    && (if dir == map[] then s.active == None && s.nextID == 0
        else s.active.Some? && IsMax(dir.Keys, s.active.value) && s.nextID == s.active.value + 1)
  }

  /** RepairTail: cut the active segment where its scan stops. */
  function Repaired(crc: Checksum, s: SegSet): SegSet {
    if s.active.None? || s.active.value !in s.files then s
    else
      var f := s.files[s.active.value];
      var end := ScanFrom(crc, f.data, 0).end;
      if end < |f.data| then s.(files := s.files[s.active.value := File(f.data[..end], end, f.linked)]) else s
  }

  /** Repairing twice is repairing once, whatever the file holds. */
  lemma RepairIdempotent(crc: Checksum, s: SegSet)
    ensures Repaired(crc, Repaired(crc, s)) == Repaired(crc, s)
  {
    if s.active.Some? && s.active.value in s.files {
      hide ScanFrom;
      ScanOfScanned(crc, s.files[s.active.value].data, 0);
    }
  }

  /** All that was synced into a linked file is still there. */
  ghost predicate Survives(s: SegSet, t: SegSet) {
    forall id :: id in s.files && s.files[id].linked ==>
      id in t.files && t.files[id].linked && s.files[id].synced <= |s.files[id].data|
      && s.files[id].synced <= t.files[id].synced <= |t.files[id].data|
      && t.files[id].data[..s.files[id].synced] == s.files[id].data[..s.files[id].synced]
  }

  lemma ReopenActive(crc: Checksum, f: File, left: seq<byte>)
    requires WholeLog(crc, f) && left <= f.data && f.synced <= |left|
    ensures var end := ScanFrom(crc, left, 0).end;
            f.synced <= end && left[..f.synced] == f.data[..f.synced]
            && IsLog(crc, left[..end]) && left[..end][..end] == left[..end]
  {
    hide ScanFrom, IsLog;
    assert left == f.data[..|left|];
    ScanAfterCut(crc, f.data, f.synced, |left|);
    var end := ScanFrom(crc, left, 0).end;
    assert left[..end] == f.data[..end];
  }

  /** Whatever the crash left, reopening and repairing the tail restores the invariant and keeps all synced bytes. */
  lemma CrashThenReopen(crc: Checksum, s: SegSet, dir: map<nat, seq<byte>>, found: SegSet)
    requires SetOk(crc, s) && Crashes(s, dir) && Opens(dir, found)
    ensures SetOk(crc, Repaired(crc, found)) && Survives(s, Repaired(crc, found))
  {
    hide ScanFrom, IsLog;
    if dir != map[] {
      var m := found.active.value;
      assert s.active.Some? ==> s.active.value in dir;
      ReopenActive(crc, s.files[m], dir[m]);
      assert dir[m][..|dir[m]|] == dir[m];
    }
  }

  /** The highest id, which seeds the rotation counter and names the active segment. */
  method MaxID(ids: set<nat>) returns (m: nat)
    requires ids != {}
    ensures IsMax(ids, m)
  {
    m :| m in ids;
    var left := ids - {m};
    while left != {}
      invariant left <= ids && m in ids
      invariant forall i :: i in ids && i !in left ==> i <= m
    {
      var id :| id in left;
      left := left - {id};
      if id > m {
        m := id;
      }
    }
  }

  /** The set as the program holds it; one method per operation of segment.Set and segment.Segment. */
  class SegmentSet {
    const crc: Checksum
    const maxSize: int
    var files: map<nat, File>
    var active: Option<nat>
    var nextID: nat
    /** Every state of the files so far; each primitive operation adds the one it leaves. */
    ghost var history: seq<SegSet>

    function View(): SegSet
      reads this
    {
      SegSet(files, active, nextID)
    }

    /** The history is up to date. */
    ghost predicate Tracked()
      reads this
    {
      |history| > 0 && history[|history| - 1] == View()
    }

    ghost predicate Valid()
      reads this
    {
      SetOk(crc, View()) && Tracked()
    }

    /** The write target has room for a record of this size. */
    predicate Fits(recordSize: int)
      reads this
    {
      && active.Some? && active.value in files
      && |files[active.value].data| + recordSize <= maxSize
    }

    /** OpenSet over the files found in the directory. */
    constructor Open(crc: Checksum, maxSize: int, dir: map<nat, seq<byte>>)
      ensures this.crc == crc && this.maxSize == maxSize && Opens(dir, View()) && Tracked()
    {
      this.crc := crc;
      this.maxSize := maxSize;
      files := map id | id in dir :: File(dir[id], |dir[id]|, true);
      active, nextID := None, 0;
      if dir != map[] {
        assert dir.Keys != {};
        var last := MaxID(dir.Keys);
        active, nextID := Some(last), last + 1;
      }
      new;
      history := [View()];
    }

    // ----- primitive operations

    method Sync(id: nat)
      requires Valid() && id in files
      modifies this`files, this`history
      ensures Valid() && View() == Synced(old(View()), id) && Grows(old(View()), View())
      ensures history == old(history) + [View()] && SetStep(crc, old(View()), View())
    {
      hide IsLog;
      SyncedOk(crc, View(), id);
      files := files[id := files[id].(synced := |files[id].data|)];
      history := history + [View()];
    }

    /** openSegment under the next id. */
    method CreateFile() returns (id: nat)
      requires Valid()
      modifies this`files, this`nextID, this`history
      ensures Valid() && View() == FileCreated(old(View())) && id == old(nextID) && Grows(old(View()), View())
      ensures history == old(history) + [View()] && SetStep(crc, old(View()), View())
    {
      hide IsLog;
      CreatedOk(crc, View());
      id := nextID;
      nextID := nextID + 1;
      files := files[id := File([], 0, false)];
      history := history + [View()];
    }

    /** fsyncDir, then the file becomes the write target. */
    method Install(id: nat)
      requires Valid() && id in files && (active.None? || id >= active.value)
      modifies this`files, this`active, this`history
      ensures Valid() && View() == Installed(old(View()), id) && Grows(old(View()), View())
      ensures history == old(history) + [View()] && SetStep(crc, old(View()), View())
    {
      hide IsLog;
      InstalledOk(crc, View(), id);
      files := map i | i in files :: files[i].(linked := true);
      active := Some(id);
      history := history + [View()];
    }

    /** AppendCtx: the payload's offset, or None when the header contradicts the payload. */
    method Append(id: nat, h: Header, payload: seq<byte>) returns (payloadOff: Option<nat>)
      requires Valid() && id in files && h.Valid()
      modifies this`files, this`history
      ensures Valid() && Grows(old(View()), View())
      ensures payloadOff.None? <==> h.length != |payload|
      ensures payloadOff.None? ==> View() == old(View()) && history == old(history)
      ensures payloadOff.Some? ==>
        && View() == Appended(crc, old(View()), id, Record(h, payload))
        && history == old(history) + [View()] && SetStep(crc, old(View()), View())
        && payloadOff.value == |old(files[id].data)| + HEADER_SIZE
        && payloadOff.value + |payload| <= |files[id].data|
        && files[id].data[payloadOff.value..payloadOff.value + |payload|] == payload
    {
      hide IsLog;
      if h.length != |payload| {
        return None;
      }
      var r := Record(h, payload);
      AppendedOk(crc, View(), id, r);
      ghost var before := files[id].data;
      payloadOff := Some(|files[id].data| + HEADER_SIZE);
      files := files[id := files[id].(data := files[id].data + Frame(crc, r))];
      history := history + [View()];
      FrameHoldsPayload(crc, before, r);
    }

    /** Remove: the segment goes and, if it was the write target, nothing is until the next rotation. */
    method Remove(id: nat)
      modifies this`files, this`active, this`history
      ensures View() == Removed(old(View()), id) && history == old(history) + [View()]
      ensures id !in files && active != Some(id) && (old(active) != Some(id) ==> active == old(active))
      ensures forall i :: i != id ==> (i in files <==> i in old(files)) && (i in files ==> files[i] == old(files)[i])
    {
      if id in files {
        files := files - {id};
      }
      if active == Some(id) {
        active := None;
      }
      history := history + [View()];
    }

    method RepairTail()
      requires active.Some? ==> active.value in files
      modifies this`files, this`history
      ensures View() == Repaired(crc, old(View())) && history == old(history) + [View()]
    {
      if active.Some? {
        var f := files[active.value];
        var visits, truncAt := Scan(crc, f.data);
        if truncAt < |f.data| {
          files := files[active.value := File(f.data[..truncAt], truncAt, f.linked)];
        }
      }
      history := history + [View()];
    }

    // ----- rotation

    /** Active: the write target, rotated first when the record does not fit. */
    method Active(recordSize: int) returns (id: nat)
      requires Valid()
      modifies this
      ensures Valid() && active == Some(id) && id in files && Grows(old(View()), View())
      ensures old(history) <= history && SetSteps(crc, history, |old(history)| - 1)
      ensures old(Fits(recordSize)) ==> View() == old(View()) && history == old(history)
      ensures !old(Fits(recordSize)) ==>
        id == old(nextID) && files[id].data == [] && (old(active).Some? ==>
          old(active).value in files && files[old(active).value].synced == |files[old(active).value].data|)
    {
      hide WholeLog, SetStep;
      if active.Some? && |files[active.value].data| + recordSize <= maxSize {
        return active.value;
      }
      ghost var s0 := View();
      if active.Some? {
        Sync(active.value);
      }
      ghost var s1 := View();
      id := CreateFile();
      GrowsTransitive(s0, s1, View());
      ghost var s2 := View();
      Install(id);
      GrowsTransitive(s0, s2, View());
    }
  }

  lemma FrameHoldsPayload(crc: Checksum, before: seq<byte>, r: Record)
    requires r.Valid()
    ensures var at := |before| + HEADER_SIZE;
            (before + Frame(crc, r))[at..at + |r.payload|] == r.payload
  {
    var head := HeaderBytes(r.header);
    assert Frame(crc, r)[HEADER_SIZE..HEADER_SIZE + |r.payload|] == r.payload;
  }
}
