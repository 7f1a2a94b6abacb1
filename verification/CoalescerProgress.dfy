/** No goroutine waits for nothing: who holds a batch can go on, and what is left waiting when nobody does. */
module CoalescerProgress {
  import opened Bytes
  import opened Stripes
  import opened Extents
  import opened Sums
  import opened Coalescers
  import opened CoalescerLinks
  import opened CoalescerMemory
  import opened CoalescerDurable
  import opened CoalescerRuns
  import opened CoalescerSince
  import opened Persistence

  // ----- every batch on its way has its goroutine

  /** The goroutine stands where it drains this batch. */
  predicate Drains(pc: Pc, c: nat) { (pc.Swapped? || pc.Stored?) && pc.batch == c }

  /** The goroutine gives this batch's weight back; `closed` tells whether it has closed it. */
  predicate GivesBack(pc: Pc, c: nat, closed: bool) {
    if closed then pc == Closing(c) || (pc.DropFreed? && pc.freed == Some(c)) else pc == Settling(c)
  }

  ghost predicate Manned(s: State, c: nat)
    requires c in s.batches
  {
    var b := s.batches[c];
    match b.phase
    case Current => !b.closed
    case Flushing(t) => !b.closed && t in s.threads && Drains(s.threads[t], c)
    case Settled(t) => t in s.threads && GivesBack(s.threads[t], c, b.closed)
    case Released => b.closed
  }

  ghost predicate AllManned(s: State) { forall c :: c in s.batches ==> Manned(s, c) }

  /** The goroutine holds no batch. */
  predicate Bare(pc: Pc) {
    !pc.Swapped? && !pc.Stored? && !pc.Settling? && !pc.Closing? && !(pc.DropFreed? && pc.freed.Some?)
  }

  /** The batches are in the same place, and no goroutine but a bare one moved. */
  ghost predicate SamePlaces(s: State, n: State) {
    && (forall c :: c in n.batches ==> c in s.batches && n.batches[c].phase == s.batches[c].phase
                                       && n.batches[c].closed == s.batches[c].closed)
    && (forall t :: t in s.threads && !Bare(s.threads[t]) ==> t in n.threads && n.threads[t] == s.threads[t])
  }

  lemma MannedFrame(s: State, n: State)
    requires AllManned(s) && SamePlaces(s, n)
    ensures AllManned(n)
  {
  }

  /** The goroutine holds no batch but this one. */
  predicate HoldsOnly(pc: Pc, c: nat) {
    Bare(pc) || Drains(pc, c) || GivesBack(pc, c, true) || GivesBack(pc, c, false)
  }

  /** A step of one goroutine that moves one batch. */
  lemma MannedBut(s: State, n: State, t: nat, c: nat)
    requires AllManned(s) && t in s.threads && HoldsOnly(s.threads[t], c) && (c in n.batches ==> Manned(n, c))
    requires forall d :: d in n.batches && d != c ==> d in s.batches && n.batches[d] == s.batches[d]
    requires forall u :: u in s.threads && u != t ==> u in n.threads && n.threads[u] == s.threads[u]
    ensures AllManned(n)
  {
    forall d | d in n.batches && d != c
      ensures Manned(n, d)
    {
      assert Manned(s, d);
    }
  }

  lemma MannedKept(cfg: Config, s: State, e: Event)
    requires Links(s) && AllManned(s) && Enabled(cfg, s, e)
    ensures AllManned(Next(cfg, s, e))
  {
    hide Links, AllManned, DoGetBuf, DoAppend, DoSwap, DoStore, DoSettle, DoClose, DoRelease, DoDropEmpty, DoDropFree,
      DoResize;
    match e
    case Append(t, id0) => AppendManned(cfg, s, t, id0);
    case Swap(t, id0) => SwapManned(s, t, id0);
    case Store(t, ok) => StoreManned(s, t, ok);
    case Settle(t) => SettleManned(s, t);
    case Close(t) => CloseManned(s, t);
    case Release(t) => ReleaseManned(s, t);
    case DropEmpty(t) => DropEmptyManned(s, t);
    case DropFree(t) => DropFreeManned(s, t);
    case Resize(i, size) => ResizeManned(s, i, size);
    case GetBuf(t, id0) => GetBufManned(s, t, id0);
    case _ => BareManned(cfg, s, e);
  }

  /** Steps that touch no batch. */
  lemma BareManned(cfg: Config, s: State, e: Event)
    requires AllManned(s) && Enabled(cfg, s, e) && !Puts(e) && !e.GetBuf? && !e.Store? && !e.Resize?
    ensures AllManned(Next(cfg, s, e))
  {
    hide AllManned, WaitsOf, Buffered, StampsOf;
    MannedFrame(s, Next(cfg, s, e));
  }

  lemma GetBufManned(s: State, t: nat, id0: nat)
    requires AllManned(s) && CanGetBuf(s, t, id0)
    ensures AllManned(DoGetBuf(s, t, id0))
  {
    MannedFrame(s, DoGetBuf(s, t, id0));
  }

  lemma AppendManned(cfg: Config, s: State, t: nat, id0: nat)
    requires Links(s) && AllManned(s) && cfg.width > 0 && CanAppend(s, t, id0)
    ensures AllManned(DoAppend(cfg, s, t, id0))
  {
    var n, w := DoAppend(cfg, s, t, id0), s.threads[t];
    if s.bufs[w.buf].current.Some? {
      CurrentOk(s, w.buf);
    }
    hide Links, Chunks, Stamped;
    forall c | c in n.batches
      ensures Manned(n, c)
    {
      assert c in s.batches ==> Manned(s, c);
    }
  }

  lemma SwapManned(s: State, t: nat, id0: nat)
    requires Links(s) && AllManned(s) && CanSwap(s, t, id0)
    ensures AllManned(DoSwap(s, t, id0))
  {
    var n, b := DoSwap(s, t, id0), s.threads[t].buf;
    if s.bufs[b].current.Some? {
      CurrentOk(s, b);
    }
    hide Links;
    forall c | c in n.batches
      ensures Manned(n, c)
    {
      assert c in s.batches ==> Manned(s, c);
    }
  }

  lemma StoreManned(s: State, t: nat, ok: bool)
    requires AllManned(s) && CanStore(s, t)
    ensures AllManned(DoStore(s, t, ok))
  {
    var n := DoStore(s, t, ok);
    forall c | c in n.batches
      ensures Manned(n, c)
    {
      assert Manned(s, c);
    }
  }

  lemma SettleManned(s: State, t: nat)
    requires Links(s) && AllManned(s) && CanSettle(s, t)
    ensures AllManned(DoSettle(s, t))
  {
    var c := s.threads[t].batch;
    assert Manned(s, c);
    ThreadOk(s, t);
    hide Links, AllManned;
    MannedBut(s, DoSettle(s, t), t, c);
  }

  lemma CloseManned(s: State, t: nat)
    requires AllManned(s) && CanClose(s, t) && Links(s)
    ensures AllManned(DoClose(s, t))
  {
    var c := s.threads[t].batch;
    ThreadOk(s, t);
    hide Links, AllManned;
    MannedBut(s, DoClose(s, t), t, c);
  }

  lemma ReleaseManned(s: State, t: nat)
    requires AllManned(s) && CanRelease(s, t) && Links(s)
    ensures AllManned(DoRelease(s, t))
  {
    var c := s.threads[t].batch;
    ThreadOk(s, t);
    hide Links, AllManned;
    MannedBut(s, DoRelease(s, t), t, c);
  }

  lemma DropEmptyManned(s: State, t: nat)
    requires AllManned(s) && CanDropEmpty(s, t)
    ensures AllManned(DoDropEmpty(s, t))
  {
    hide AllManned, Elements, StampsOf;
    var n, b := DoDropEmpty(s, t), s.bufs[s.threads[t].buf];
    if b.current.Some? {
      MannedBut(s, n, t, b.current.value);
    } else {
      MannedFrame(s, n);
    }
  }

  lemma DropFreeManned(s: State, t: nat)
    requires Links(s) && AllManned(s) && CanDropFree(s, t)
    ensures AllManned(DoDropFree(s, t))
  {
    var n, freed := DoDropFree(s, t), s.threads[t].freed;
    if freed.Some? {
      ThreadOk(s, t);
      assert Manned(s, freed.value);
      hide Links, AllManned;
      MannedBut(s, n, t, freed.value);
    } else {
      hide Links, AllManned;
      MannedFrame(s, n);
    }
  }

  lemma ResizeManned(s: State, i: nat, size: nat)
    requires Links(s) && AllManned(s) && CanResize(s, i, size)
    ensures AllManned(DoResize(s, i, size))
  {
    hide AllManned, Links, Clipped, SumLen, CutsOf, CutSet, StatSize, Elements;
    MannedFrame(s, DoResize(s, i, size));
  }

  lemma {:induction false} MannedOnEveryRun(cfg: Config, states: seq<State>, events: seq<Event>, k: nat)
    requires Run(cfg, states, events) && k < |states|
    ensures AllManned(states[k])
    decreases k
  {
    if k > 0 {
      MannedOnEveryRun(cfg, states, events, k - 1);
      RunStep(cfg, states, events, k - 1);
      hide AllManned, Links, Enabled, Next;
      MannedKept(cfg, states[k - 1], events[k - 1]);
    }
  }

  // ----- who can go on

  /** The next step of a goroutine; new buffers and batches get this id. */
  ghost function StepOf(t: nat, pc: Pc, id0: nat, ok: bool): Event {
    match pc
    case Writing(_, _, _) => GetBuf(t, id0)
    case WriteHas(_, _, _, _) => Append(t, id0)
    case FlushHas(_) => Swap(t, id0)
    case Swapped(_, _) => Store(t, ok)
    case Stored(_, _, _) => Settle(t)
    case Settling(_) => Close(t)
    case Closing(_) => Release(t)
    case FsyncHas(_) => Snap(t)
    case Waiting(_, _, _) => Return(t)
    case DropHas(_, _) => DropSee(t)
    case DropSaw(_, _) => DropEmpty(t)
    case DropFreed(_, _) => DropFree(t)
    case DropLast(_) => DropDelete(t)
  }

  /** The goroutine waits for others: an fsync for an open batch, a drop for a flush in flight. */
  ghost predicate Blocked(s: State, pc: Pc) {
    match pc
    case Waiting(_, waits, _) => exists c :: c in waits && c in s.batches && !s.batches[c].closed
    case DropHas(_, b) => b in s.bufs && s.bufs[b].flushing.Some?
    case _ => false
  }

  /** A goroutine can take its next step exactly if it does not wait for others. */
  lemma CanGoOn(cfg: Config, s: State, t: nat, id0: nat, ok: bool)
    requires Links(s) && cfg.width > 0 && t in s.threads && id0 !in s.bufs && id0 !in s.batches
    ensures Enabled(cfg, s, StepOf(t, s.threads[t], id0, ok)) <==> !Blocked(s, s.threads[t])
  {
    ThreadOk(s, t);
    var pc := s.threads[t];
    if pc.WriteHas? || pc.FlushHas? || pc.DropSaw? {
      if s.bufs[pc.buf].current.Some? {
        CurrentOk(s, pc.buf);
      }
    } else if pc.Settling? || pc.Closing? {
      OwnerOk(s, pc.batch);
    } else if pc.DropFreed? && pc.freed.Some? {
      OwnerOk(s, pc.freed.value);
    }
    hide Links;
  }

  /** A goroutine that can go on stands where it drains or closes this batch. */
  ghost predicate Working(s: State, c: nat) {
    exists t :: t in s.threads && (Drains(s.threads[t], c) || s.threads[t] == Settling(c))
  }

  /** A batch that an fsync waits for in vain is the current one of its buffer; any other has a goroutine at work on it,
      which nothing blocks. */
  lemma OpenBatch(s: State, c: nat)
    requires Links(s) && AllManned(s) && c in s.batches && !s.batches[c].closed
    ensures s.batches[c].owner in s.bufs
    ensures Working(s, c) <==> s.bufs[s.batches[c].owner].current != Some(c)
    ensures forall t :: t in s.threads && (Drains(s.threads[t], c) || s.threads[t] == Settling(c)) ==>
      !Blocked(s, s.threads[t])
  {
    OwnerOk(s, c);
    assert Manned(s, c);
    forall t | t in s.threads && (Drains(s.threads[t], c) || s.threads[t] == Settling(c))
      ensures !s.batches[c].phase.Current?
    {
      ThreadOk(s, t);
    }
  }

  /** What a flush worker does with the buffer it found: it takes the current batch exactly if that holds bytes and no
      other flush is in flight, and leaves a fresh one; otherwise it gives up. */
  lemma SwapTakes(s: State, t: nat, id0: nat)
    requires Links(s) && CanSwap(s, t, id0)
    ensures var b := s.threads[t].buf; var buf := s.bufs[b]; var n := DoSwap(s, t, id0);
            if buf.flushing.None? && buf.current.Some? && s.batches[buf.current.value].bytes != 0 then
              && t in n.threads && n.threads[t] == Swapped(b, buf.current.value)
              && n.bufs[b].flushing == buf.current && n.bufs[b].current == Some(id0)
              && n.batches[id0].extents == [] && n.batches[id0].bytes == 0
              && n.batches[buf.current.value].extents == s.batches[buf.current.value].extents
              && n.held == s.held && n.table == s.table && n.files == s.files
            else n == s.(threads := s.threads - {t})
  {
    if s.bufs[s.threads[t].buf].current.Some? {
      CurrentOk(s, s.threads[t].buf);
    }
  }

  lemma RunState(cfg: Config, states: seq<State>, events: seq<Event>, k: nat)
    requires Run(cfg, states, events) && k < |states|
    ensures Links(states[k]) && OneBuffer(states[k]) && Memory(cfg, states[k]) && Counted(states[k])
    ensures Stamps(states[k]) && AllManned(states[k])
  {
    SaneOnEveryRun(cfg, states, events, k);
    MannedOnEveryRun(cfg, states, events, k);
  }

  /** A drop waits for a flush that a goroutine is working on. */
  lemma DropGoesOn(s: State, t: nat)
    requires Links(s) && AllManned(s) && t in s.threads && s.threads[t].DropHas? && Blocked(s, s.threads[t])
    ensures s.threads[t].buf in s.bufs && s.bufs[s.threads[t].buf].flushing.Some?
    ensures Working(s, s.bufs[s.threads[t].buf].flushing.value)
  {
    FlushingOk(s, s.threads[t].buf);
    assert Manned(s, s.bufs[s.threads[t].buf].flushing.value);
    hide Links;
  }

  // ----- an fsync left waiting

  /** The fsync waits for the buffer's current batch, and that holds nothing. */
  ghost predicate WaitsInVain(s: State, t: nat, c: nat) {
    && t in s.threads && s.threads[t].Waiting? && c in s.threads[t].waits
    && c in s.batches && !s.batches[c].closed && s.batches[c].bytes == 0 && s.batches[c].extents == []
    && s.batches[c].owner in s.bufs && s.bufs[s.batches[c].owner].current == Some(c)
  }

  /** The current batch of the buffer that the table knows for the inode; it holds bytes, and a flush takes it. */
  ghost predicate Takeable(s: State, i: nat, c: nat) {
    && i in s.table && s.table[i] in s.bufs && s.bufs[s.table[i]].current == Some(c)
    && c in s.batches && s.batches[c].bytes > 0
  }

  /** An fsync of a file that exists can return, or a batch it waits for is being worked on by a goroutine that nothing
      blocks, or lies where a flush finds and takes it, or it waits in vain. */
  lemma FsyncGoesOn(cfg: Config, states: seq<State>, events: seq<Event>, k: nat, t: nat, i: nat)
    requires Run(cfg, states, events) && k < |states| && t in states[k].threads && states[k].threads[t].Waiting?
    requires states[k].threads[t].buf in states[k].bufs && states[k].bufs[states[k].threads[t].buf].inode == i
    requires i in states[k].files && !CanReturn(states[k], t)
    ensures exists c ::
      && c in states[k].threads[t].waits && c in states[k].batches && !states[k].batches[c].closed
      && (Working(states[k], c) || Takeable(states[k], i, c) || WaitsInVain(states[k], t, c))
  {
    var s := states[k];
    RunState(cfg, states, events, k);
    ThreadOk(s, t);
    var c :| c in s.threads[t].waits && !s.batches[c].closed;
    OpenBatch(s, c);
    ExtentsBounded(s, c);
    assert s.batches[c].bytes == SumLen(s.batches[c].extents);
    if s.batches[c].bytes == 0 {
      EmptyBatch(s.batches[c].extents);
    }
    hide Links, Memory, Counted, Stamps, AllManned, Working;
  }

  /** A write or a drop that reaches this buffer. */
  ghost predicate Reaches(s: State, e: Event, b: nat) {
    (e.Append? || e.DropEmpty?) && e.t in s.threads
    && (s.threads[e.t].WriteHas? || s.threads[e.t].DropSaw?) && s.threads[e.t].buf == b
  }

  /** The batch and its place in the buffer are as before. */
  ghost predicate SamePlace(s: State, n: State, c: nat)
    requires c in s.batches && s.batches[c].owner in s.bufs
  {
    && c in n.batches && n.batches[c] == s.batches[c]
    && s.batches[c].owner in n.bufs && n.bufs[s.batches[c].owner].current == s.bufs[s.batches[c].owner].current
  }

  /** No flush helps it: it waits on until a write or a drop reaches the buffer. */
  lemma VainKept(cfg: Config, s: State, e: Event, t: nat, c: nat)
    requires Links(s) && WaitsInVain(s, t, c) && Enabled(cfg, s, e) && !Reaches(s, e, s.batches[c].owner)
    ensures WaitsInVain(Next(cfg, s, e), t, c) && Next(cfg, s, e).batches[c].owner == s.batches[c].owner
  {
    if e.Resize? {
      ResizeVain(s, e.inode, e.size, t, c);
    } else if Puts(e) {
      WaitingStays(cfg, s, e, t);
      PlaceKept(cfg, s, e, c);
      hide Links, Next, Enabled, Reaches;
    } else {
      NoBatchVain(cfg, s, e, t, c);
    }
  }

  lemma WaitingStays(cfg: Config, s: State, e: Event, t: nat)
    requires t in s.threads && s.threads[t].Waiting? && Enabled(cfg, s, e) && Puts(e)
    ensures t in Next(cfg, s, e).threads && Next(cfg, s, e).threads[t] == s.threads[t]
  {
    PutsEffect(cfg, s, e);
    hide Next;
  }

  lemma NoBatchVain(cfg: Config, s: State, e: Event, t: nat, c: nat)
    requires WaitsInVain(s, t, c) && Enabled(cfg, s, e) && !Puts(e) && !e.Resize?
    ensures WaitsInVain(Next(cfg, s, e), t, c) && Next(cfg, s, e).batches[c].owner == s.batches[c].owner
  {
    hide WaitsOf, Buffered, StampsOf, Elements;
  }

  lemma PlaceKept(cfg: Config, s: State, e: Event, c: nat)
    requires Links(s) && Enabled(cfg, s, e) && Puts(e)
    requires c in s.batches && s.batches[c].owner in s.bufs
    requires s.bufs[s.batches[c].owner].current == Some(c) && !Reaches(s, e, s.batches[c].owner)
    requires e.Swap? && s.threads[e.t].buf == s.batches[c].owner ==> s.batches[c].bytes == 0
    ensures SamePlace(s, Next(cfg, s, e), c)
  {
    hide Links, SamePlace, DoAppend, DoSwap, DoSettle, DoClose, DoRelease, DoDropEmpty, DoDropFree;
    match e
    case Append(t, id0) => AppendPlace(cfg, s, t, id0, c);
    case Swap(t, id0) => SwapPlace(s, t, id0, c);
    case Settle(t) => SettlePlace(s, t, c);
    case DropEmpty(t) => DropEmptyPlace(s, t, c);
    case Close(t) => ClosePlace(s, t, c);
    case Release(t) => ReleasePlace(s, t, c);
    case DropFree(t) => DropFreePlace(s, t, c);
  }

  lemma AppendPlace(cfg: Config, s: State, t: nat, id0: nat, c: nat)
    requires Links(s) && cfg.width > 0 && CanAppend(s, t, id0)
    requires c in s.batches && s.batches[c].owner in s.bufs && s.threads[t].buf != s.batches[c].owner
    ensures SamePlace(s, DoAppend(cfg, s, t, id0), c)
  {
    if s.bufs[s.threads[t].buf].current.Some? {
      CurrentOk(s, s.threads[t].buf);
    }
    hide Links, Chunks, Stamped;
  }

  lemma SwapPlace(s: State, t: nat, id0: nat, c: nat)
    requires Links(s) && CanSwap(s, t, id0)
    requires c in s.batches && s.batches[c].owner in s.bufs && s.bufs[s.batches[c].owner].current == Some(c)
    requires s.threads[t].buf == s.batches[c].owner ==> s.batches[c].bytes == 0
    ensures SamePlace(s, DoSwap(s, t, id0), c)
  {
    if s.bufs[s.threads[t].buf].current.Some? {
      CurrentOk(s, s.threads[t].buf);
    }
    hide Links;
  }

  lemma SettlePlace(s: State, t: nat, c: nat)
    requires Links(s) && CanSettle(s, t) && c in s.batches && s.batches[c].owner in s.bufs
    requires s.bufs[s.batches[c].owner].current == Some(c)
    ensures SamePlace(s, DoSettle(s, t), c)
  {
    ThreadOk(s, t);
    OwnerOk(s, c);
    hide Links;
  }

  lemma DropEmptyPlace(s: State, t: nat, c: nat)
    requires Links(s) && CanDropEmpty(s, t) && c in s.batches && s.batches[c].owner in s.bufs
    requires s.bufs[s.batches[c].owner].current == Some(c) && s.threads[t].buf != s.batches[c].owner
    ensures SamePlace(s, DoDropEmpty(s, t), c)
  {
    if s.bufs[s.threads[t].buf].current.Some? {
      CurrentOk(s, s.threads[t].buf);
    }
    hide Links, Elements, StampsOf;
  }

  lemma ClosePlace(s: State, t: nat, c: nat)
    requires Links(s) && CanClose(s, t) && c in s.batches && s.batches[c].owner in s.bufs
    requires s.bufs[s.batches[c].owner].current == Some(c)
    ensures SamePlace(s, DoClose(s, t), c)
  {
    ThreadOk(s, t);
    CurrentOk(s, s.batches[c].owner);
    hide Links;
  }

  lemma ReleasePlace(s: State, t: nat, c: nat)
    requires Links(s) && CanRelease(s, t) && c in s.batches && s.batches[c].owner in s.bufs
    requires s.bufs[s.batches[c].owner].current == Some(c)
    ensures SamePlace(s, DoRelease(s, t), c)
  {
    ThreadOk(s, t);
    CurrentOk(s, s.batches[c].owner);
    hide Links;
  }

  lemma DropFreePlace(s: State, t: nat, c: nat)
    requires Links(s) && CanDropFree(s, t) && c in s.batches && s.batches[c].owner in s.bufs
    requires s.bufs[s.batches[c].owner].current == Some(c)
    ensures SamePlace(s, DoDropFree(s, t), c)
  {
    ThreadOk(s, t);
    CurrentOk(s, s.batches[c].owner);
    hide Links;
  }

  lemma ResizeVain(s: State, i: nat, size: nat, t: nat, c: nat)
    requires Links(s) && WaitsInVain(s, t, c) && CanResize(s, i, size)
    ensures WaitsInVain(DoResize(s, i, size), t, c) && DoResize(s, i, size).batches[c].owner == s.batches[c].owner
  {
    hide CutsOf, CutSet, Elements;
    assert Clipped(s.batches[c].extents, size) == [];
    if i in s.table && s.table[i] in s.bufs && s.bufs[s.table[i]].current.Some? {
      CurrentOk(s, s.table[i]);
    }
    hide Links, Clipped, SumLen, StatSize;
  }

  lemma VainBlocked(cfg: Config, s: State, e: Event, t: nat, c: nat)
    requires WaitsInVain(s, t, c) && Enabled(cfg, s, e)
    ensures e != Return(t)
  {
  }

  ghost predicate VainAt(s: State, t: nat, c: nat, b: nat) { WaitsInVain(s, t, c) && s.batches[c].owner == b }

  lemma VainStep(cfg: Config, states: seq<State>, events: seq<Event>, k: nat, t: nat, c: nat, b: nat)
    requires Run(cfg, states, events) && k < |events| && VainAt(states[k], t, c, b) && !Reaches(states[k], events[k], b)
    ensures VainAt(states[k + 1], t, c, b) && events[k] != Return(t)
  {
    RunStep(cfg, states, events, k);
    hide Links, OneBuffer, Next, Enabled, Run, Reaches;
    VainBlocked(cfg, states[k], events[k], t, c);
    VainKept(cfg, states[k], events[k], t, c);
  }

  /** Such an fsync does not return while no write and no drop reaches the buffer, whatever else happens. */
  lemma {:induction false} VainOnRun(cfg: Config, states: seq<State>, events: seq<Event>, j: nat, k: nat, t: nat,
                                     c: nat, b: nat)
    requires Run(cfg, states, events) && j <= k < |states| && VainAt(states[j], t, c, b)
    requires forall m :: j <= m < k ==> !Reaches(states[m], events[m], b)
    ensures VainAt(states[k], t, c, b) && forall m :: j <= m < k ==> events[m] != Return(t)
    decreases k
  {
    if j < k {
      VainOnRun(cfg, states, events, j, k - 1, t, c, b);
      hide Run, Reaches, VainAt;
      VainStep(cfg, states, events, k - 1, t, c, b);
    }
  }

  /** A run goes one step further. */
  lemma Further(cfg: Config, states: seq<State>, events: seq<Event>, e: Event) returns (ss: seq<State>, es: seq<Event>)
    requires Run(cfg, states, events) && Enabled(cfg, states[|events|], e)
    ensures Run(cfg, ss, es) && es == events + [e] && |ss| == |states| + 1
    ensures ss[|es|] == Next(cfg, states[|events|], e)
  {
    hide Enabled, Next;
    ss, es := states + [Next(cfg, states[|events|], e)], events + [e];
  }

  /** One byte is written; an fsync starts; before a worker picks the batch up, a truncation to nothing empties it. */
  lemma FsyncLeftWaiting(cfg: Config) returns (states: seq<State>, events: seq<Event>)
    requires cfg.width > 0 && cfg.cap > 0
    ensures Run(cfg, states, events)
    ensures events == [Create(5), Acquire(1, 5, 0, [7]), GetBuf(1, 0), Append(1, 0), Fsync(2, 5), Snap(2), Resize(5, 0)]
    ensures WaitsInVain(states[7], 2, 0) && states[7].threads.Keys == {2} && 5 in states[7].files
  {
    states, events := WrittenOnce(cfg);
    var s := states[4];
    hide Run, Clipped, SumLen, CutSet, CutsOf, Elements;
    states, events := Further(cfg, states, events, Fsync(2, 5));
    states, events := Further(cfg, states, events, Snap(2));
    assert states[6].batches == s.batches && states[6].bufs == s.bufs && states[6].threads[2].waits == {0};
    RunCounted(cfg, states, events, 6);
    CutToNothing(states[6].batches[0].extents);
    states, events := Further(cfg, states, events, Resize(5, 0));
  }

  lemma RunCounted(cfg: Config, states: seq<State>, events: seq<Event>, k: nat)
    requires Run(cfg, states, events) && k < |states|
    ensures forall c :: c in states[k].batches ==> states[k].batches[c].bytes == SumLen(states[k].batches[c].extents)
  {
    RunState(cfg, states, events, k);
  }

  lemma WrittenOnce(cfg: Config) returns (states: seq<State>, events: seq<Event>)
    requires cfg.width > 0 && cfg.cap > 0
    ensures Run(cfg, states, events) && events == [Create(5), Acquire(1, 5, 0, [7]), GetBuf(1, 0), Append(1, 0)]
    ensures var s := states[4];
            && s.threads == map[] && s.files == map[5 := StoredFile({}, 0)] && s.table == map[5 := 0]
            && s.bufs == map[0 := Buf(5, Some(0), None, 1, false)]
            && s.batches.Keys == {0} && s.batches[0].bytes == 1 && s.batches[0].owner == 0 && !s.batches[0].closed
  {
    states, events := [EMPTY_STATE], [];
    assert Run(cfg, states, events);
    hide Run, Chunks, Stamped;
    states, events := Further(cfg, states, events, Create(5));
    states, events := Further(cfg, states, events, Acquire(1, 5, 0, [7]));
    states, events := Further(cfg, states, events, GetBuf(1, 0));
    states, events := Further(cfg, states, events, Append(1, 0));
  }

  lemma {:induction false} CutToNothing(es: seq<Extent>)
    ensures Clipped(es, 0) == [] && SumLen([]) == 0
  {
    if es != [] {
      CutToNothing(es[..|es| - 1]);
    }
  }

  // ----- a flush from swap to release, and what a failed one leaves

  lemma StoredAndSettled(s: State, t: nat, ok: bool)
    requires CanStore(s, t)
    ensures CanSettle(DoStore(s, t, ok), t)
    ensures var n := DoSettle(DoStore(s, t, ok), t);
            var b, c, i := s.threads[t].buf, s.threads[t].batch, s.bufs[s.threads[t].buf].inode;
            var stored := ok && i in s.files;
            && n.threads == s.threads[t := Settling(c)] && n.table == s.table && n.held == s.held
            && n.batches == s.batches[c := s.batches[c].(phase := Settled(t), failed := !stored)]
            && n.bufs == s.bufs[b := s.bufs[b].(flushing := None, poisoned := s.bufs[b].poisoned || !stored)]
            && n.files == if stored then s.files[i := StoredFile(s.files[i].frags + Elements(s.batches[c].extents),
                                                                 Max(s.files[i].size, s.batches[c].maxEnd))]
                          else s.files
  {
    hide Elements;
    assert (s.threads[t := Stored(s.threads[t].buf, s.threads[t].batch, ok)] - {t}) == s.threads - {t};
    assert (s.threads - {t})[t := Settling(s.threads[t].batch)] == s.threads[t := Settling(s.threads[t].batch)];
  }

  lemma ClosedAndReleased(s: State, t: nat)
    requires CanClose(s, t)
    ensures CanRelease(DoClose(s, t), t)
    ensures var n := DoRelease(DoClose(s, t), t);
            var c := s.threads[t].batch;
            && n.threads == s.threads - {t} && n.table == s.table && n.held == s.held - s.batches[c].bytes
            && n.batches == s.batches[c := s.batches[c].(phase := Released, closed := true)]
            && n.bufs == s.bufs && n.files == s.files
  {
    var b := s.batches[s.threads[t].batch].owner;
    assert s.bufs[b := s.bufs[b]] == s.bufs;
    assert (s.threads - {t})[t := Closing(s.threads[t].batch)] - {t} == s.threads - {t};
  }

  /** The four steps after the swap, in a row: the batch is stored, or the buffer is poisoned; the buffer is free for
      the next flush, the batch is closed and its weight is back. */
  lemma FlushCompletes(s: State, t: nat, ok: bool)
    requires Links(s) && t in s.threads && s.threads[t].Swapped?
    ensures CanStore(s, t) && CanSettle(DoStore(s, t, ok), t)
    ensures var settled := DoSettle(DoStore(s, t, ok), t);
            CanClose(settled, t) && CanRelease(DoClose(settled, t), t) &&
            var n := DoRelease(DoClose(settled, t), t);
            var b, c, i := s.threads[t].buf, s.threads[t].batch, s.bufs[s.threads[t].buf].inode;
            var stored := ok && i in s.files;
            && n.threads == s.threads - {t} && n.table == s.table && n.held == s.held - s.batches[c].bytes
            && n.batches == s.batches[c := s.batches[c].(phase := Released, closed := true, failed := !stored)]
            && n.bufs == s.bufs[b := s.bufs[b].(flushing := None, poisoned := s.bufs[b].poisoned || !stored)]
            && n.files == if stored then s.files[i := StoredFile(s.files[i].frags + Elements(s.batches[c].extents),
                                                                 Max(s.files[i].size, s.batches[c].maxEnd))]
                          else s.files
  {
    ThreadOk(s, t);
    StoredAndSettled(s, t, ok);
    hide Links, Elements, DoStore, DoSettle, DoClose, DoRelease;
    ClosedAndReleased(DoSettle(DoStore(s, t, ok), t), t);
  }

  lemma PoisonKept(cfg: Config, s: State, e: Event, b: nat)
    requires Enabled(cfg, s, e) && b in s.bufs && s.bufs[b].poisoned
    ensures b in Next(cfg, s, e).bufs && Next(cfg, s, e).bufs[b].poisoned
  {
    if Puts(e) {
      PutsEffect(cfg, s, e);
      hide Next, Enabled;
    } else {
      hide WaitsOf, Buffered, Elements, StampsOf, CutsOf, CutSet, ClipBatch;
    }
  }

  ghost predicate PoisonedAt(s: State, b: nat) { b in s.bufs && s.bufs[b].poisoned }

  lemma {:induction false} PoisonStays(cfg: Config, states: seq<State>, events: seq<Event>, j: nat, k: nat, b: nat)
    requires Run(cfg, states, events) && j <= k < |states| && PoisonedAt(states[j], b)
    ensures PoisonedAt(states[k], b)
    decreases k
  {
    if j < k {
      PoisonStays(cfg, states, events, j, k - 1, b);
      PoisonStep(cfg, states, events, k - 1, b);
    }
  }

  lemma PoisonStep(cfg: Config, states: seq<State>, events: seq<Event>, k: nat, b: nat)
    requires Run(cfg, states, events) && k < |events| && PoisonedAt(states[k], b)
    ensures PoisonedAt(states[k + 1], b)
  {
    hide Next, Enabled;
    PoisonKept(cfg, states[k], events[k], b);
  }

  /** After a flush that failed, every write through the buffer is refused and leaves nothing but its weight returned,
      and every fsync through it fails: the one that takes its snapshot then, and the one that returns then. */
  lemma FailedFlushRefuses(cfg: Config, states: seq<State>, events: seq<Event>, j: nat, k: nat, b: nat)
    requires Run(cfg, states, events) && j < k < |events| && events[j].Settle?
    requires states[j].threads[events[j].t].buf == b && !states[j].threads[events[j].t].ok
    ensures events[k].Append? && states[k].threads[events[k].t].buf == b ==>
      states[k + 1] == states[k].(threads := states[k].threads - {events[k].t},
                                  held := states[k].held - |states[k].threads[events[k].t].data|)
    ensures events[k].Snap? && states[k].threads[events[k].t].buf == b ==> events[k].t !in states[k + 1].threads
    ensures events[k].Return? && states[k].threads[events[k].t].buf == b ==> !FsyncOk(states[k], events[k].t)
  {
    RunStep(cfg, states, events, j);
    RunStep(cfg, states, events, k);
    assert Enabled(cfg, states[j], events[j]) && states[j + 1] == DoSettle(states[j], events[j].t);
    hide Links, OneBuffer, Chunks, Stamped, WaitsOf, Buffered;
    PoisonStays(cfg, states, events, j + 1, k, b);
  }
}
