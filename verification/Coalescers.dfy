/** The write-back buffer as interleaved steps of writers, flush workers, fsyncs, size changes and drops
    (store/coalescer.go, store/store.go:242-266, 906-958). */
module Coalescers {
  import opened Bytes
  import opened Stripes
  import opened Extents
  import opened Sums

  datatype Config = Config(width: nat, cap: nat)

  /** Where a batch is in its life. */
  datatype Phase =
    | Current                   // accumulating writes
    | Flushing(worker: nat)     // being drained by a flush worker
    | Settled(worker: nat)      // out of the buffer, its weight not returned yet
    | Released

  /** bufBatch. `closed` is its done channel, `failed` its err. */
  datatype Batch = Batch(
    extents: seq<Extent>, bytes: int, maxEnd: nat, owner: nat, phase: Phase, closed: bool, failed: bool)

  /** inodeBuf. */
  datatype Buf = Buf(inode: nat, current: Option<nat>, flushing: Option<nat>, liveSize: nat, poisoned: bool)

  /** The durable side of an inode: its fragments, with their bytes, and the node's size. */
  datatype StoredFile = StoredFile(frags: set<Extent>, size: nat)

  /** Where a goroutine stands between two atomic sections. */
  datatype Pc =
    | Writing(inode: nat, off: nat, data: seq<byte>)
    | WriteHas(buf: nat, inode: nat, off: nat, data: seq<byte>)
    | FlushHas(buf: nat)
    | Swapped(buf: nat, batch: nat)
    | Stored(buf: nat, batch: nat, ok: bool)
    | Settling(batch: nat)
    | Closing(batch: nat)
    | FsyncHas(buf: nat)
    | Waiting(buf: nat, waits: set<nat>, snap: set<Extent>)
    | DropHas(inode: nat, buf: nat)
    | DropSaw(inode: nat, buf: nat)
    | DropFreed(inode: nat, freed: Option<nat>)
    | DropLast(inode: nat)

  /** A truncation to size found this extent reaching past it. */
  datatype Cut = Cut(was: Extent, size: nat)

  /** `cut` records every extent that a truncation shortened or removed, as it was, and `gone` the stamps that a drop or
      an unlink discarded. */
  datatype State = State(
    batches: map<nat, Batch>, bufs: map<nat, Buf>, table: map<nat, nat>, files: map<nat, StoredFile>,
    seqGen: nat, held: int, threads: map<nat, Pc>, cut: set<Cut>, gone: set<nat>)

  const EMPTY_STATE := State(map[], map[], map[], map[], 0, 0, map[], {}, {})

  // ----- steps

  ghost function NewBatch(owner: nat): Batch { Batch([], 0, 0, owner, Current, false, false) }

  /** The goroutine is done, or moves on to pc. */
  ghost function End(s: State, t: nat): State { s.(threads := s.threads - {t}) }

  ghost function Go(s: State, t: nat, pc: Pc): State { s.(threads := s.threads[t := pc]) }

  /** Store one batch and the buffer that owns it. */
  ghost function Put(s: State, c: nat, batch: Batch, b: nat, buf: Buf): State {
    s.(batches := s.batches[c := batch], bufs := s.bufs[b := buf])
  }

  /** The inode exists from here on; inode numbers are never reused. */
  ghost predicate CanCreate(s: State, inode: nat) {
    && inode !in s.files && inode !in s.table
    && (forall b :: b in s.bufs ==> s.bufs[b].inode != inode)
    && (forall t :: t in s.threads ==> !Mentions(s.threads[t], inode))
  }

  predicate Mentions(pc: Pc, inode: nat) {
    match pc
    case Writing(i, _, _) => i == inode
    case WriteHas(_, i, _, _) => i == inode
    case DropHas(i, _) => i == inode
    case DropSaw(i, _) => i == inode
    case DropFreed(i, _) => i == inode
    case DropLast(i) => i == inode
    case _ => false
  }

  ghost function DoCreate(s: State, inode: nat): State
    requires CanCreate(s, inode)
  {
    s.(files := s.files[inode := StoredFile({}, 0)])
  }

  /** Write: acquire the semaphore. */
  ghost predicate CanAcquire(cfg: Config, s: State, t: nat, data: seq<byte>) {
    t !in s.threads && data != [] && s.held + |data| <= cfg.cap
  }

  ghost function DoAcquire(s: State, t: nat, inode: nat, off: nat, data: seq<byte>): State {
    Go(s, t, Writing(inode, off, data)).(held := s.held + |data|)
  }

  /** Write: getOrCreateBuf. */
  ghost predicate CanGetBuf(s: State, t: nat, id0: nat) {
    t in s.threads && s.threads[t].Writing? && id0 !in s.bufs
  }

  ghost function AddBuf(s: State, b: nat, inode: nat): State {
    s.(bufs := s.bufs[b := Buf(inode, None, None, 0, false)], table := s.table[inode := b])
  }

  ghost function DoGetBuf(s: State, t: nat, id0: nat): State
    requires CanGetBuf(s, t, id0)
  {
    var w := s.threads[t];
    if w.inode in s.table then
      Go(s, t, WriteHas(s.table[w.inode], w.inode, w.off, w.data))
    else
      Go(AddBuf(s, id0, w.inode), t, WriteHas(id0, w.inode, w.off, w.data))
  }

  /** Write: the section under the buffer's lock. */
  ghost predicate CanAppend(s: State, t: nat, id0: nat) {
    t in s.threads && s.threads[t].WriteHas? && s.threads[t].buf in s.bufs && id0 !in s.batches
    && (s.bufs[s.threads[t].buf].current.Some? ==> s.bufs[s.threads[t].buf].current.value in s.batches)
  }

  ghost function DoAppend(cfg: Config, s: State, t: nat, id0: nat): State
    requires cfg.width > 0 && CanAppend(s, t, id0)
  {
    var w := s.threads[t];
    var b := s.bufs[w.buf];
    if b.poisoned then
      End(s, t).(held := s.held - |w.data|)
    else
      var c := if b.current.Some? then b.current.value else id0;
      var was := if b.current.Some? then s.batches[c] else NewBatch(w.buf);
      var news := Stamped(Chunks(cfg.width, w.off, w.data), s.seqGen);
      var batch := was.(extents := was.extents + news, bytes := was.bytes + |w.data|,
                        maxEnd := Max(was.maxEnd, w.off + |w.data|));
      var live := Max(b.liveSize, w.off + |w.data|);
      Put(End(s, t), c, batch, w.buf, b.(current := Some(c), liveSize := live)).(seqGen := s.seqGen + |news|)
  }

  /** flushInode: look the buffer up. */
  ghost predicate CanPick(s: State, t: nat, inode: nat) {
    t !in s.threads && inode in s.table
  }

  ghost function DoPick(s: State, t: nat, inode: nat): State
    requires CanPick(s, t, inode)
  {
    Go(s, t, FlushHas(s.table[inode]))
  }

  /** flushInode: move current to flushing, or bail. */
  ghost predicate CanSwap(s: State, t: nat, id0: nat) {
    t in s.threads && s.threads[t].FlushHas? && s.threads[t].buf in s.bufs && id0 !in s.batches
    && (s.bufs[s.threads[t].buf].current.Some? ==> s.bufs[s.threads[t].buf].current.value in s.batches)
  }

  ghost function DoSwap(s: State, t: nat, id0: nat): State
    requires CanSwap(s, t, id0)
  {
    var id := s.threads[t].buf;
    var b := s.bufs[id];
    if b.flushing.Some? || b.current.None? || s.batches[b.current.value].bytes == 0 then End(s, t)
    else
      var c := b.current.value;
      var s1 := Put(End(s, t), c, s.batches[c].(phase := Flushing(t)), id, b.(current := None, flushing := Some(c)));
      Go(Put(s1, id0, NewBatch(id), id, b.(current := Some(id0), flushing := Some(c))), t, Swapped(id, c))
  }

  /** AppendBatchCtx with the size hook: all of the batch becomes durable, or nothing does. Without a node the hook
      fails. */
  ghost predicate CanStore(s: State, t: nat) {
    t in s.threads && s.threads[t].Swapped? && s.threads[t].buf in s.bufs && s.threads[t].batch in s.batches
  }

  ghost function DoStore(s: State, t: nat, ok: bool): State
    requires CanStore(s, t)
  {
    var w := s.threads[t];
    var inode := s.bufs[w.buf].inode;
    if ok && inode in s.files then
      var c := s.batches[w.batch];
      var f := s.files[inode];
      Go(s, t, Stored(w.buf, w.batch, true)).(
        files := s.files[inode := StoredFile(f.frags + Elements(c.extents), Max(f.size, c.maxEnd))])
    else
      Go(s, t, Stored(w.buf, w.batch, false))
  }

  /** flushInode: settle under the lock. */
  ghost predicate CanSettle(s: State, t: nat) {
    t in s.threads && s.threads[t].Stored? && s.threads[t].buf in s.bufs && s.threads[t].batch in s.batches
  }

  ghost function DoSettle(s: State, t: nat): State
    requires CanSettle(s, t)
  {
    var w := s.threads[t];
    var b := s.bufs[w.buf];
    Go(Put(End(s, t), w.batch, s.batches[w.batch].(phase := Settled(t), failed := !w.ok),
           w.buf, b.(flushing := None, poisoned := b.poisoned || !w.ok)),
       t, Settling(w.batch))
  }

  /** close(batch.done). */
  ghost predicate CanClose(s: State, t: nat) {
    t in s.threads && s.threads[t].Settling? && OwnedBatch(s, s.threads[t].batch)
  }

  ghost predicate OwnedBatch(s: State, c: nat) {
    c in s.batches && s.batches[c].owner in s.bufs
  }

  ghost function PutBatch(s: State, c: nat, batch: Batch): State
    requires batch.owner in s.bufs
  {
    Put(s, c, batch, batch.owner, s.bufs[batch.owner])
  }

  ghost function DoClose(s: State, t: nat): State
    requires CanClose(s, t)
  {
    var c := s.threads[t].batch;
    Go(PutBatch(End(s, t), c, s.batches[c].(closed := true)), t, Closing(c))
  }

  /** Return the batch's weight to the semaphore. */
  ghost predicate CanRelease(s: State, t: nat) {
    t in s.threads && s.threads[t].Closing? && OwnedBatch(s, s.threads[t].batch)
  }

  ghost function DoRelease(s: State, t: nat): State
    requires CanRelease(s, t)
  {
    var c := s.threads[t].batch;
    PutBatch(End(s, t), c, s.batches[c].(phase := Released)).(held := s.held - s.batches[c].bytes)
  }

  /** Fsync: look the buffer up. */
  ghost predicate CanFsync(s: State, t: nat, inode: nat) {
    t !in s.threads && inode in s.table
  }

  ghost function DoFsync(s: State, t: nat, inode: nat): State
    requires CanFsync(s, t, inode)
  {
    Go(s, t, FsyncHas(s.table[inode]))
  }

  /** The batches Fsync waits for. */
  ghost function WaitsOf(s: State, b: Buf): set<nat> {
    (if b.flushing.Some? then {b.flushing.value} else {})
    + (if b.current.Some? && b.current.value in s.batches
        && s.batches[b.current.value].bytes > 0 then {b.current.value} else {})
  }

  /** Every extent the buffer holds. */
  ghost function Buffered(s: State, b: Buf): set<Extent> {
    (if b.current.Some? && b.current.value in s.batches then Elements(s.batches[b.current.value].extents) else {})
    + (if b.flushing.Some? && b.flushing.value in s.batches then Elements(s.batches[b.flushing.value].extents) else {})
  }

  /** Fsync: snapshot under the lock; a poisoned buffer makes it return an error at once. */
  ghost predicate CanSnap(s: State, t: nat) {
    t in s.threads && s.threads[t].FsyncHas? && s.threads[t].buf in s.bufs
  }

  ghost function DoSnap(s: State, t: nat): State
    requires CanSnap(s, t)
  {
    var id := s.threads[t].buf;
    var b := s.bufs[id];
    if b.poisoned then End(s, t)
    else Go(s, t, Waiting(id, WaitsOf(s, b), Buffered(s, b)))
  }

  /** Fsync: every awaited batch is done. */
  ghost predicate CanReturn(s: State, t: nat) {
    t in s.threads && s.threads[t].Waiting? && s.threads[t].buf in s.bufs
    && forall c :: c in s.threads[t].waits ==> c in s.batches && s.batches[c].closed
  }

  /** Fsync's result: nil exactly when the buffer is not poisoned. */
  ghost function FsyncOk(s: State, t: nat): bool
    requires CanReturn(s, t)
  {
    !s.bufs[s.threads[t].buf].poisoned
  }

  // ----- Stat and size changes

  /** Stat: the node's size, raised to what the buffer has seen. */
  ghost function StatSize(s: State, inode: nat): nat
    requires inode in s.files
  {
    if inode in s.table && s.table[inode] in s.bufs then Max(s.files[inode].size, s.bufs[s.table[inode]].liveSize)
    else s.files[inode].size
  }

  /** What clip leaves of a batch's extents, in order. */
  ghost function Clipped(es: seq<Extent>, size: nat): seq<Extent> {
    if es == [] then []
    else
      var n := |es| - 1;
      Clipped(es[..n], size) + if es[n].off >= size then [] else [es[n].Below(size)]
  }

  ghost function MaxEnd(es: seq<Extent>): nat {
    if es == [] then 0 else Max(MaxEnd(es[..|es| - 1]), es[|es| - 1].End())
  }

  ghost function ClipBatch(c: Batch, size: nat): Batch {
    var kept := Clipped(c.extents, size);
    c.(extents := kept, bytes := c.bytes - (SumLen(c.extents) - SumLen(kept)), maxEnd := Min(c.maxEnd, MaxEnd(kept)))
  }

  /** The extents that reach past size. */
  ghost function CutsOf(es: set<Extent>, size: nat): set<Cut> {
    set e | e in es && e.End() > size :: Cut(e, size)
  }

  /** No batch of the inode is being flushed. */
  ghost predicate NoFlush(s: State, inode: nat) {
    forall b :: b in s.bufs && s.bufs[b].inode == inode ==> s.bufs[b].flushing.None?
  }

  /** Setattr with a size; it shrinks the file only while nothing of it is being flushed. */
  ghost predicate CanResize(s: State, inode: nat, size: nat) {
    inode in s.files && (size < StatSize(s, inode) ==> NoFlush(s, inode))
  }

  ghost function DoResize(s: State, inode: nat, size: nat): State
    requires CanResize(s, inode, size)
  {
    if size < StatSize(s, inode) then
      var s1 := Invalidated(s, inode, size);
      s1.(files := s.files[inode := StoredFile(CutSet(s.files[inode].frags, size), size)],
          cut := s1.cut + CutsOf(s.files[inode].frags, size))
    else
      s.(files := s.files[inode := s.files[inode].(size := size)])
  }

  /** InvalidatePastSize: clip the buffered extents and give their bytes back. */
  ghost function Invalidated(s: State, inode: nat, size: nat): State {
    if inode in s.table && s.table[inode] in s.bufs then
      var id := s.table[inode];
      var b := s.bufs[id];
      var small := b.(liveSize := Min(b.liveSize, size));
      if b.current.Some? && b.current.value in s.batches then
        var c := s.batches[b.current.value];
        Put(s, b.current.value, ClipBatch(c, size), id, small).(
          held := s.held - (SumLen(c.extents) - SumLen(Clipped(c.extents, size))),
          cut := s.cut + CutsOf(Elements(c.extents), size))
      else s.(bufs := s.bufs[id := small])
    else s
  }

  // ----- unlink and drop

  ghost function StampsOf(es: set<Extent>): set<nat> { set e | e in es :: e.stamp }

  /** The last link goes: node and fragments leave. */
  ghost function DoUnlink(s: State, inode: nat): State
    requires inode in s.files
  {
    s.(files := s.files - {inode}, gone := s.gone + StampsOf(s.files[inode].frags))
  }

  ghost predicate CanDrop(s: State, t: nat, inode: nat) {
    t !in s.threads && inode in s.table && inode !in s.files
  }

  ghost function DoDrop(s: State, t: nat, inode: nat): State
    requires CanDrop(s, t, inode)
  {
    Go(s, t, DropHas(inode, s.table[inode]))
  }

  /** Drop: the buffer was seen without a flush in flight. */
  ghost predicate CanDropSee(s: State, t: nat) {
    t in s.threads && s.threads[t].DropHas? && s.threads[t].buf in s.bufs && s.bufs[s.threads[t].buf].flushing.None?
  }

  ghost function DoDropSee(s: State, t: nat): State
    requires CanDropSee(s, t)
  {
    Go(s, t, DropSaw(s.threads[t].inode, s.threads[t].buf))
  }

  /** Drop: abandon the current batch under the lock. */
  ghost predicate CanDropEmpty(s: State, t: nat) {
    t in s.threads && s.threads[t].DropSaw? && s.threads[t].buf in s.bufs
    && (s.bufs[s.threads[t].buf].current.Some? ==> s.bufs[s.threads[t].buf].current.value in s.batches)
  }

  ghost function DoDropEmpty(s: State, t: nat): State
    requires CanDropEmpty(s, t)
  {
    var w := s.threads[t];
    var b := s.bufs[w.buf];
    var empty := b.(current := None, liveSize := 0);
    if b.current.None? then Go(s.(bufs := s.bufs[w.buf := empty]), t, DropFreed(w.inode, None))
    else
      var c := b.current.value;
      var done := s.batches[c].(phase := Settled(t), closed := true);
      Go(Put(End(s, t), c, done, w.buf, empty), t, DropFreed(w.inode, Some(c))).(
        gone := s.gone + StampsOf(Elements(s.batches[c].extents)))
  }

  ghost predicate CanDropFree(s: State, t: nat) {
    t in s.threads && s.threads[t].DropFreed? && (s.threads[t].freed.Some? ==> OwnedBatch(s, s.threads[t].freed.value))
  }

  ghost function DoDropFree(s: State, t: nat): State
    requires CanDropFree(s, t)
  {
    var w := s.threads[t];
    if w.freed.None? then Go(s, t, DropLast(w.inode))
    else
      var c := w.freed.value;
      var s1 := Go(PutBatch(End(s, t), c, s.batches[c].(phase := Released)), t, DropLast(w.inode));
      s1.(held := s.held - s.batches[c].bytes)
  }

  ghost predicate CanDropDelete(s: State, t: nat) {
    t in s.threads && s.threads[t].DropLast?
  }

  ghost function DoDropDelete(s: State, t: nat): State
    requires CanDropDelete(s, t)
  {
    End(s, t).(table := s.table - {s.threads[t].inode})
  }

  /** Others draw from the same counter: a move, a bulk commit. */
  ghost function DoTakeStamps(s: State, n: nat): State { s.(seqGen := s.seqGen + n) }

  // ----- runs

  datatype Event =
    | Create(inode: nat)
    | Acquire(t: nat, inode: nat, off: nat, data: seq<byte>)
    | GetBuf(t: nat, id0: nat)
    | Append(t: nat, id0: nat)
    | Pick(t: nat, inode: nat)
    | Swap(t: nat, id0: nat)
    | Store(t: nat, ok: bool)
    | Settle(t: nat)
    | Close(t: nat)
    | Release(t: nat)
    | Fsync(t: nat, inode: nat)
    | Snap(t: nat)
    | Return(t: nat)
    | Resize(inode: nat, size: nat)
    | Unlink(inode: nat)
    | Drop(t: nat, inode: nat)
    | DropSee(t: nat)
    | DropEmpty(t: nat)
    | DropFree(t: nat)
    | DropDelete(t: nat)
    | TakeStamps(n: nat)

  ghost predicate Enabled(cfg: Config, s: State, e: Event) {
    cfg.width > 0 &&
    match e
    case Create(i) => CanCreate(s, i)
    case Acquire(t, _, _, data) => CanAcquire(cfg, s, t, data)
    case GetBuf(t, id0) => CanGetBuf(s, t, id0)
    case Append(t, id0) => CanAppend(s, t, id0)
    case Pick(t, i) => CanPick(s, t, i)
    case Swap(t, id0) => CanSwap(s, t, id0)
    case Store(t, _) => CanStore(s, t)
    case Settle(t) => CanSettle(s, t)
    case Close(t) => CanClose(s, t)
    case Release(t) => CanRelease(s, t)
    case Fsync(t, i) => CanFsync(s, t, i)
    case Snap(t) => CanSnap(s, t)
    case Return(t) => CanReturn(s, t)
    case Resize(i, size) => CanResize(s, i, size)
    case Unlink(i) => i in s.files
    case Drop(t, i) => CanDrop(s, t, i)
    case DropSee(t) => CanDropSee(s, t)
    case DropEmpty(t) => CanDropEmpty(s, t)
    case DropFree(t) => CanDropFree(s, t)
    case DropDelete(t) => CanDropDelete(s, t)
    case TakeStamps(_) => true
  }

  ghost function Next(cfg: Config, s: State, e: Event): State
    requires Enabled(cfg, s, e)
  {
    match e
    case Create(i) => DoCreate(s, i)
    case Acquire(t, i, off, data) => DoAcquire(s, t, i, off, data)
    case GetBuf(t, id0) => DoGetBuf(s, t, id0)
    case Append(t, id0) => DoAppend(cfg, s, t, id0)
    case Pick(t, i) => DoPick(s, t, i)
    case Swap(t, id0) => DoSwap(s, t, id0)
    case Store(t, ok) => DoStore(s, t, ok)
    case Settle(t) => DoSettle(s, t)
    case Close(t) => DoClose(s, t)
    case Release(t) => DoRelease(s, t)
    case Fsync(t, i) => DoFsync(s, t, i)
    case Snap(t) => DoSnap(s, t)
    case Return(t) => End(s, t)
    case Resize(i, size) => DoResize(s, i, size)
    case Unlink(i) => DoUnlink(s, i)
    case Drop(t, i) => DoDrop(s, t, i)
    case DropSee(t) => DoDropSee(s, t)
    case DropEmpty(t) => DoDropEmpty(s, t)
    case DropFree(t) => DoDropFree(s, t)
    case DropDelete(t) => DoDropDelete(s, t)
    case TakeStamps(n) => DoTakeStamps(s, n)
  }
}
