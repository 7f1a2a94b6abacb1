/** Memory comes back: whose bytes a flush still finds, and whose nobody ever will. */
module CoalescerWeight {
  import opened Bytes
  import opened Stripes
  import opened Extents
  import opened Sums
  import opened Coalescers
  import opened CoalescerLinks
  import opened CoalescerMemory
  import opened CoalescerRuns
  import opened CoalescerSince
  import opened Persistence
  import opened CoalescerProgress

  // ----- memory comes back

  /** Bytes lie in the buffer's current batch. */
  ghost predicate HoldsBytes(s: State, b: nat) {
    && b in s.bufs && s.bufs[b].current.Some? && s.bufs[b].current.value in s.batches
    && s.batches[s.bufs[b].current.value].bytes > 0
  }

  lemma {:induction false} SomeWeight<T>(m: map<nat, T>, w: T -> int) returns (k: nat)
    requires Sum(m, w) > 0
    ensures k in m && w(m[k]) > 0
    decreases |m|
  {
    k :| k in m;
    if w(m[k]) <= 0 {
      SumRemove(m, w, k);
      assert |m - {k}| < |m| by { Shrinks(m, k); }
      k := SomeWeight(m - {k}, w);
    }
  }

  lemma {:induction false} NoDebts<T>(m: map<nat, T>, w: T -> int)
    requires forall k :: k in m ==> w(m[k]) >= 0
    ensures Sum(m, w) >= 0
    decreases |m|
  {
    if k :| k in m {
      SumRemove(m, w, k);
      assert |m - {k}| < |m| by { Shrinks(m, k); }
      NoDebts(m - {k}, w);
    }
  }

  /** While weight is taken, a writer or a goroutine that will give a batch's weight back can go on, or bytes lie in the
      current batch of some buffer. */
  lemma WeightComesBack(cfg: Config, states: seq<State>, events: seq<Event>, k: nat)
    requires Run(cfg, states, events) && k < |states| && states[k].held > 0
    ensures (exists t :: t in states[k].threads && !Blocked(states[k], states[k].threads[t]))
            || exists b :: HoldsBytes(states[k], b)
  {
    var s := states[k];
    RunState(cfg, states, events, k);
    if Sum(s.threads, PcWeight) > 0 {
      var t := SomeWeight(s.threads, PcWeight);
      assert !Blocked(s, s.threads[t]);
    } else {
      var c := SomeWeight(s.batches, BatchWeight);
      assert Manned(s, c);
      OwnerOk(s, c);
      assert s.batches[c].phase.Current? ==> HoldsBytes(s, s.batches[c].owner);
    }
  }

  /** With no goroutine under way and nothing in the current batches, all weight has been given back. */
  lemma QuietHoldsNothing(cfg: Config, states: seq<State>, events: seq<Event>, k: nat)
    requires Run(cfg, states, events) && k < |states| && states[k].threads == map[]
    ensures states[k].held > 0 <==>
            exists b :: HoldsBytes(states[k], b)
  {
    var s := states[k];
    RunState(cfg, states, events, k);
    if s.held > 0 {
      WeightComesBack(cfg, states, events, k);
    }
    if b :| HoldsBytes(s, b) {
      CurrentOk(s, b);
      WeightAtLeast(s, s.bufs[b].current.value);
    }
  }

  lemma WeightAtLeast(s: State, c: nat)
    requires Counted(s) && c in s.batches
    ensures Sum(s.batches, BatchWeight) >= BatchWeight(s.batches[c]) && BatchWeight(s.batches[c]) >= 0
  {
    SumRemove(s.batches, BatchWeight, c);
    assert forall d :: d in s.batches ==> BatchWeight(s.batches[d]) >= 0;
    NoDebts(s.batches - {c}, BatchWeight);
  }

  // ----- bytes in buffers that the table does not know

  /** The table knows the buffer. */
  ghost predicate Known(s: State, b: nat)
    requires b in s.bufs
  {
    s.bufs[b].inode in s.table && s.table[s.bufs[b].inode] == b
  }

  /** What a drop under way has made sure of. */
  ghost predicate DropTidy(s: State, pc: Pc) {
    match pc
    case DropHas(i, d) => forall b :: HoldsBytes(s, b) && s.bufs[b].inode == i ==> b == d
    case DropSaw(i, d) => forall b :: HoldsBytes(s, b) && s.bufs[b].inode == i ==> b == d
    case DropFreed(i, _) => forall b :: HoldsBytes(s, b) ==> s.bufs[b].inode != i
    case DropLast(i) => forall b :: HoldsBytes(s, b) ==> s.bufs[b].inode != i
    case _ => true
  }

  /** Bytes lie only in buffers that the table knows. */
  ghost predicate Tidy(s: State) {
    && (forall b :: HoldsBytes(s, b) ==> Known(s, b))
    && (forall t :: t in s.threads ==> DropTidy(s, s.threads[t]))
  }

  /** A write to a buffer that the table does not know, or that a drop under way will make it forget. */
  ghost predicate LateWrite(s: State, e: Event) {
    && e.Append? && e.t in s.threads && s.threads[e.t].WriteHas? && s.threads[e.t].buf in s.bufs
    && (!Known(s, s.threads[e.t].buf)
        || exists u :: u in s.threads && Dropping(s.threads[u]) && s.threads[u].inode == s.threads[e.t].inode)
  }

  /** Only a file that is gone can be written late. */
  lemma LateIsGone(s: State, e: Event)
    requires Links(s) && OneBuffer(s) && LateWrite(s, e)
    ensures s.threads[e.t].inode !in s.files
  {
    ThreadOk(s, e.t);
    if u :| u in s.threads && Dropping(s.threads[u]) && s.threads[u].inode == s.threads[e.t].inode {
      ThreadOk(s, u);
    }
    hide Links;
  }

  /** No buffer gains bytes or leaves its place, and no drop moves on. */
  ghost predicate GainsNothing(s: State, n: State) {
    && (forall b :: HoldsBytes(n, b) ==> HoldsBytes(s, b) && n.bufs[b].inode == s.bufs[b].inode)
    && (forall t :: t in n.threads ==> (t in s.threads && n.threads[t] == s.threads[t]) || !Dropping(n.threads[t]))
  }

  predicate Dropping(pc: Pc) { pc.DropHas? || pc.DropSaw? || pc.DropFreed? || pc.DropLast? }

  lemma TidyFrame(s: State, n: State)
    requires Tidy(s) && GainsNothing(s, n) && n.table == s.table
    ensures Tidy(n)
  {
    forall t | t in n.threads
      ensures DropTidy(n, n.threads[t])
    {
      assert t in s.threads && n.threads[t] == s.threads[t] ==> DropTidy(s, s.threads[t]);
    }
  }

  lemma TidyKept(cfg: Config, s: State, e: Event)
    requires Links(s) && Tidy(s) && Enabled(cfg, s, e) && !LateWrite(s, e)
    ensures Tidy(Next(cfg, s, e))
  {
    hide Links, Tidy, LateWrite, DoGetBuf, DoAppend, DoSwap, DoDropEmpty, DoDropFree, DoResize, DoDropDelete,
      DoDrop, DoDropSee, DoStore, DoSettle, DoClose, DoRelease;
    match e
    case GetBuf(t, id0) => GetBufTidy(s, t, id0);
    case Append(t, id0) => AppendTidy(cfg, s, t, id0);
    case Swap(t, id0) => SwapTidy(s, t, id0);
    case Settle(t) => SettleTidy(s, t);
    case Close(t) => CloseTidy(s, t);
    case Release(t) => ReleaseTidy(s, t);
    case Resize(i, size) => ResizeTidy(s, i, size);
    case Drop(t, i) => DropTidies(s, t, i);
    case DropSee(t) => DropSeeTidy(s, t);
    case DropEmpty(t) => DropEmptyTidy(s, t);
    case DropFree(t) => DropFreeTidy(s, t);
    case DropDelete(t) => DropDeleteTidy(s, t);
    case _ => OtherTidy(cfg, s, e);
  }

  /** Steps that leave buffers, batches and table alone; no drop moves on. */
  lemma OtherEffect(cfg: Config, s: State, e: Event)
    requires Enabled(cfg, s, e)
    requires e.Create? || e.Acquire? || e.Pick? || e.Store? || e.Fsync? || e.Snap? || e.Return? || e.Unlink?
      || e.TakeStamps?
    ensures var n := Next(cfg, s, e);
            && n.bufs == s.bufs && n.batches == s.batches && n.table == s.table
            && forall t :: t in n.threads ==>
                 (t in s.threads && n.threads[t] == s.threads[t]) || !Dropping(n.threads[t])
  {
    hide WaitsOf, Buffered, StampsOf, Elements;
  }

  lemma OtherTidy(cfg: Config, s: State, e: Event)
    requires Tidy(s) && Enabled(cfg, s, e)
    requires e.Create? || e.Acquire? || e.Pick? || e.Store? || e.Fsync? || e.Snap? || e.Return? || e.Unlink?
      || e.TakeStamps?
    ensures Tidy(Next(cfg, s, e))
  {
    OtherEffect(cfg, s, e);
    hide Tidy, Next, Enabled;
    TidyFrame(s, Next(cfg, s, e));
  }

  lemma SettleTidy(s: State, t: nat)
    requires Links(s) && Tidy(s) && CanSettle(s, t)
    ensures Tidy(DoSettle(s, t))
  {
    ThreadOk(s, t);
    hide Links, Tidy;
    TidyFrame(s, DoSettle(s, t));
  }

  lemma CloseTidy(s: State, t: nat)
    requires Links(s) && Tidy(s) && CanClose(s, t)
    ensures Tidy(DoClose(s, t))
  {
    ThreadOk(s, t);
    hide Links, Tidy;
    TidyFrame(s, DoClose(s, t));
  }

  lemma ReleaseTidy(s: State, t: nat)
    requires Links(s) && Tidy(s) && CanRelease(s, t)
    ensures Tidy(DoRelease(s, t))
  {
    ThreadOk(s, t);
    hide Links, Tidy;
    TidyFrame(s, DoRelease(s, t));
  }

  lemma SwapTidy(s: State, t: nat, id0: nat)
    requires Links(s) && Tidy(s) && CanSwap(s, t, id0)
    ensures Tidy(DoSwap(s, t, id0))
  {
    var n := DoSwap(s, t, id0);
    forall b | HoldsBytes(n, b)
      ensures HoldsBytes(s, b)
    {
      if s.bufs[b].current.Some? {
        CurrentOk(s, b);
      }
    }
    hide Links, Tidy;
    TidyFrame(s, n);
  }

  lemma ResizeTidy(s: State, i: nat, size: nat)
    requires Links(s) && Tidy(s) && CanResize(s, i, size)
    ensures Tidy(DoResize(s, i, size))
  {
    hide Tidy, Links, Clipped, SumLen, CutsOf, CutSet, StatSize, Elements;
    var n := DoResize(s, i, size);
    forall b | HoldsBytes(n, b)
      ensures HoldsBytes(s, b)
    {
      var c := s.bufs[b].current.value;
      ClippedShorter(s.batches[c].extents, size);
    }
    TidyFrame(s, n);
  }

  lemma GetBufTidy(s: State, t: nat, id0: nat)
    requires Tidy(s) && CanGetBuf(s, t, id0)
    ensures Tidy(DoGetBuf(s, t, id0))
  {
    var n := DoGetBuf(s, t, id0);
    assert forall b :: HoldsBytes(n, b) ==> HoldsBytes(s, b);
    forall u | u in n.threads
      ensures DropTidy(n, n.threads[u])
    {
      assert u != t ==> DropTidy(s, s.threads[u]);
    }
  }

  /** A write puts bytes into one buffer. */
  lemma AppendHolds(cfg: Config, s: State, t: nat, id0: nat)
    requires Links(s) && cfg.width > 0 && CanAppend(s, t, id0)
    ensures var n, w := DoAppend(cfg, s, t, id0), s.threads[t];
            && n.table == s.table && n.threads == s.threads - {t} && s.bufs[w.buf].inode == w.inode
            && forall b :: HoldsBytes(n, b) ==>
                 b in s.bufs && (b == w.buf || HoldsBytes(s, b)) && n.bufs[b].inode == s.bufs[b].inode
  {
    hide Chunks, Stamped;
    var n, w := DoAppend(cfg, s, t, id0), s.threads[t];
    ThreadOk(s, t);
    if s.bufs[w.buf].current.Some? {
      CurrentOk(s, w.buf);
    }
    forall b | HoldsBytes(n, b)
      ensures b == w.buf || HoldsBytes(s, b)
    {
      if b != w.buf && s.bufs[b].current.Some? {
        CurrentOk(s, b);
      }
    }
    hide Links;
  }

  lemma AppendTidy(cfg: Config, s: State, t: nat, id0: nat)
    requires Links(s) && Tidy(s) && cfg.width > 0 && CanAppend(s, t, id0) && !LateWrite(s, Append(t, id0))
    ensures Tidy(DoAppend(cfg, s, t, id0))
  {
    AppendHolds(cfg, s, t, id0);
    var n, w := DoAppend(cfg, s, t, id0), s.threads[t];
    hide Links, DoAppend, HoldsBytes;
    forall u | u in n.threads
      ensures DropTidy(n, n.threads[u])
    {
      assert DropTidy(s, s.threads[u]);
    }
  }

  lemma DropTidies(s: State, t: nat, i: nat)
    requires Tidy(s) && CanDrop(s, t, i)
    ensures Tidy(DoDrop(s, t, i))
  {
    var n := DoDrop(s, t, i);
    assert forall b :: HoldsBytes(n, b) <==> HoldsBytes(s, b);
    forall u | u in n.threads
      ensures DropTidy(n, n.threads[u])
    {
      assert u != t ==> DropTidy(s, s.threads[u]);
    }
  }

  lemma DropSeeTidy(s: State, t: nat)
    requires Tidy(s) && CanDropSee(s, t)
    ensures Tidy(DoDropSee(s, t))
  {
    var n := DoDropSee(s, t);
    assert forall b :: HoldsBytes(n, b) <==> HoldsBytes(s, b);
    forall u | u in n.threads
      ensures DropTidy(n, n.threads[u])
    {
      assert DropTidy(s, s.threads[u]);
    }
  }

  /** A drop takes the bytes out of one buffer. */
  lemma DropEmptyHolds(s: State, t: nat)
    requires Links(s) && CanDropEmpty(s, t)
    ensures var n, w := DoDropEmpty(s, t), s.threads[t];
            && n.table == s.table && n.threads.Keys == s.threads.Keys && n.threads[t].DropFreed?
            && n.threads[t].inode == w.inode && s.bufs[w.buf].inode == w.inode
            && (forall u :: u in s.threads && u != t ==> n.threads[u] == s.threads[u])
            && forall b :: HoldsBytes(n, b) ==>
                 HoldsBytes(s, b) && b != w.buf && n.bufs[b].inode == s.bufs[b].inode
  {
    ThreadOk(s, t);
    hide Links, Elements, StampsOf;
  }

  lemma DropEmptyTidy(s: State, t: nat)
    requires Links(s) && Tidy(s) && CanDropEmpty(s, t)
    ensures Tidy(DoDropEmpty(s, t))
  {
    DropEmptyHolds(s, t);
    var n := DoDropEmpty(s, t);
    hide Links, DoDropEmpty;
    forall u | u in n.threads
      ensures DropTidy(n, n.threads[u])
    {
      assert DropTidy(s, s.threads[u]);
    }
  }

  lemma DropFreeTidy(s: State, t: nat)
    requires Tidy(s) && CanDropFree(s, t)
    ensures Tidy(DoDropFree(s, t))
  {
    var n := DoDropFree(s, t);
    assert forall b :: HoldsBytes(n, b) <==> HoldsBytes(s, b);
    forall u | u in n.threads
      ensures DropTidy(n, n.threads[u])
    {
      assert DropTidy(s, s.threads[u]);
    }
  }

  lemma DropDeleteTidy(s: State, t: nat)
    requires Tidy(s) && CanDropDelete(s, t)
    ensures Tidy(DoDropDelete(s, t))
  {
    var n := DoDropDelete(s, t);
    assert DropTidy(s, s.threads[t]);
    assert forall b :: HoldsBytes(n, b) <==> HoldsBytes(s, b);
    forall u | u in n.threads
      ensures DropTidy(n, n.threads[u])
    {
      assert DropTidy(s, s.threads[u]);
    }
  }

  lemma {:induction false} TidyOnEveryRun(cfg: Config, states: seq<State>, events: seq<Event>, k: nat)
    requires Run(cfg, states, events) && k < |states|
    requires forall m :: 0 <= m < k ==> !LateWrite(states[m], events[m])
    ensures Tidy(states[k])
    decreases k
  {
    if k > 0 {
      TidyOnEveryRun(cfg, states, events, k - 1);
      RunStep(cfg, states, events, k - 1);
      hide Tidy, Links, OneBuffer, Enabled, Next, LateWrite;
      TidyKept(cfg, states[k - 1], events[k - 1]);
    }
  }

  /** As long as no write comes late, weight that is taken comes back: some goroutine can go on, or bytes lie in a
      buffer that the table knows, where a flush takes them. */
  lemma WeightIsFound(cfg: Config, states: seq<State>, events: seq<Event>, k: nat)
    requires Run(cfg, states, events) && k < |states| && states[k].held > 0
    requires forall m :: 0 <= m < k ==> !LateWrite(states[m], events[m])
    ensures (exists t :: t in states[k].threads && !Blocked(states[k], states[k].threads[t]))
            || exists i :: i in states[k].table && HoldsBytes(states[k], states[k].table[i])
  {
    TidyOnEveryRun(cfg, states, events, k);
    WeightComesBack(cfg, states, events, k);
  }

  // ----- bytes that come late

  /** The buffer holds bytes of a file that is gone; the table does not know it, and no goroutine reaches it. */
  ghost predicate Orphan(s: State, b: nat) {
    && HoldsBytes(s, b) && !Known(s, b) && s.bufs[b].inode !in s.files
    && forall t :: t in s.threads ==> !HasBuffer(s.threads[t], b)
  }

  /** The goroutine may still write to the buffer, flush it or drop it. */
  predicate HasBuffer(pc: Pc, b: nat) {
    (pc.WriteHas? || pc.FlushHas? || pc.DropHas? || pc.DropSaw?) && pc.buf == b
  }

  lemma OrphanKept(cfg: Config, s: State, e: Event, b: nat)
    requires Links(s) && Orphan(s, b) && Enabled(cfg, s, e)
    ensures Orphan(Next(cfg, s, e), b)
  {
    hide Links, Orphan, DoGetBuf, DoAppend, DoSwap, DoSettle, DoClose, DoRelease, DoDropEmpty, DoDropFree, DoResize;
    if Puts(e) {
      PutOrphan(cfg, s, e, b);
    } else if e.GetBuf? {
      GetBufOrphan(s, e.t, e.id0, b);
    } else if e.Resize? {
      ResizeOrphan(s, e.inode, e.size, b);
    } else {
      OtherOrphan(cfg, s, e, b);
    }
  }

  lemma PutOrphan(cfg: Config, s: State, e: Event, b: nat)
    requires Links(s) && Orphan(s, b) && Enabled(cfg, s, e) && Puts(e)
    ensures Orphan(Next(cfg, s, e), b)
  {
    CurrentOk(s, b);
    PutMisses(cfg, s, e, b);
    PutsEffect(cfg, s, e);
    PutGoesOn(cfg, s, e);
    hide Links, Next, Enabled, PutEffect, SamePlace;
    OrphanFrame(s, Next(cfg, s, e), e.t, b);
  }

  lemma OrphanFrame(s: State, n: State, t: nat, b: nat)
    requires Orphan(s, b) && PutEffect(s, n, t) && Points(s, s.bufs[b].current.value, b)
    requires SamePlace(s, n, s.bufs[b].current.value)
    requires forall u :: u in n.threads && u != t ==> u in s.threads
    requires t in n.threads ==> !HasBuffer(n.threads[t], b)
    ensures Orphan(n, b)
  {
  }

  lemma PutMisses(cfg: Config, s: State, e: Event, b: nat)
    requires Links(s) && Orphan(s, b) && Enabled(cfg, s, e) && Puts(e) && Points(s, s.bufs[b].current.value, b)
    ensures SamePlace(s, Next(cfg, s, e), s.bufs[b].current.value)
  {
    hide Links, Next;
    PlaceKept(cfg, s, e, s.bufs[b].current.value);
  }

  /** Such a step leaves its goroutine without a buffer. */
  lemma PutGoesOn(cfg: Config, s: State, e: Event)
    requires Enabled(cfg, s, e) && Puts(e)
    ensures var n := Next(cfg, s, e);
            (forall u :: u in n.threads && u != e.t ==> u in s.threads)
            && (e.t in n.threads ==> forall b :: !HasBuffer(n.threads[e.t], b))
  {
    hide Chunks, Stamped, Elements, StampsOf;
  }

  lemma GetBufOrphan(s: State, t: nat, id0: nat, b: nat)
    requires Links(s) && Orphan(s, b) && CanGetBuf(s, t, id0)
    ensures Orphan(DoGetBuf(s, t, id0), b)
  {
    var i := s.threads[t].inode;
    if i in s.table {
      TableOk(s, i);
    }
    hide Links;
  }

  lemma ResizeOrphan(s: State, i: nat, size: nat, b: nat)
    requires Links(s) && Orphan(s, b) && CanResize(s, i, size)
    ensures Orphan(DoResize(s, i, size), b)
  {
    CurrentOk(s, b);
    if i in s.table {
      TableOk(s, i);
      if s.bufs[s.table[i]].current.Some? {
        CurrentOk(s, s.table[i]);
      }
    }
    hide Links, Clipped, SumLen, CutsOf, CutSet, StatSize, Elements;
  }

  /** Steps that touch no batch: the buffers stay, the table only shrinks, and a goroutine is handed a buffer by the
      table. */
  lemma OtherKeeps(cfg: Config, s: State, e: Event, b: nat)
    requires Enabled(cfg, s, e) && !Puts(e) && !e.GetBuf? && !e.Resize?
    requires forall i :: i in s.table ==> s.table[i] != b
    requires forall t :: t in s.threads ==> !HasBuffer(s.threads[t], b)
    ensures var n := Next(cfg, s, e);
            && n.bufs == s.bufs && n.batches == s.batches
            && (forall i :: i in n.table ==> i in s.table && n.table[i] == s.table[i])
            && (forall i :: i in n.files && i !in s.files ==> e == Create(i))
            && forall t :: t in n.threads ==> !HasBuffer(n.threads[t], b)
  {
    hide WaitsOf, Buffered, StampsOf, Elements;
  }

  lemma OtherOrphan(cfg: Config, s: State, e: Event, b: nat)
    requires Links(s) && Orphan(s, b) && Enabled(cfg, s, e) && !Puts(e) && !e.GetBuf? && !e.Resize?
    ensures Orphan(Next(cfg, s, e), b)
  {
    forall i | i in s.table
      ensures s.table[i] != b
    {
      TableOk(s, i);
    }
    OtherKeeps(cfg, s, e, b);
    hide Links, Next;
  }

  /** Once orphaned, bytes are never flushed and never dropped, and their weight never comes back. */
  lemma {:induction false} OrphanForever(cfg: Config, states: seq<State>, events: seq<Event>, j: nat, k: nat, b: nat)
    requires Run(cfg, states, events) && j <= k < |states| && Orphan(states[j], b)
    ensures Orphan(states[k], b) && states[k].held > 0
    decreases k
  {
    if j < k {
      OrphanForever(cfg, states, events, j, k - 1, b);
      hide Orphan, Run;
      OrphanStep(cfg, states, events, k - 1, b);
    }
    hide Orphan, Run;
    OrphanHeld(cfg, states, events, k, b);
  }

  lemma OrphanStep(cfg: Config, states: seq<State>, events: seq<Event>, k: nat, b: nat)
    requires Run(cfg, states, events) && k < |events| && Orphan(states[k], b)
    ensures Orphan(states[k + 1], b)
  {
    RunStep(cfg, states, events, k);
    hide Orphan, Links, OneBuffer, Enabled, Next;
    OrphanKept(cfg, states[k], events[k], b);
  }

  lemma OrphanHeld(cfg: Config, states: seq<State>, events: seq<Event>, k: nat, b: nat)
    requires Run(cfg, states, events) && k < |states| && Orphan(states[k], b)
    ensures states[k].held > 0
  {
    RunState(cfg, states, events, k);
    CurrentOk(states[k], b);
    WeightAtLeast(states[k], states[k].bufs[b].current.value);
    NoDebts(states[k].threads, PcWeight);
  }

  /** Only a late write makes orphans. */
  lemma OrphanNeedsLateWrite(cfg: Config, states: seq<State>, events: seq<Event>, k: nat, b: nat)
    requires Run(cfg, states, events) && k < |states| && Orphan(states[k], b)
    ensures exists m :: 0 <= m < k && LateWrite(states[m], events[m])
  {
    hide LateWrite;
    if forall m :: 0 <= m < k ==> !LateWrite(states[m], events[m]) {
      TidyOnEveryRun(cfg, states, events, k);
      assert false;
    }
  }

  /** And a write makes one exactly if its buffer, which works, is the table's no longer and no one else has it. */
  lemma OrphanMadeIff(cfg: Config, s: State, t: nat, id0: nat)
    requires Links(s) && cfg.width > 0 && CanAppend(s, t, id0) && s.threads[t].inode !in s.files
    requires forall c :: c in s.batches ==> s.batches[c].bytes >= 0
    requires !Orphan(s, s.threads[t].buf) && !HoldsBytes(s, s.threads[t].buf)
    ensures var b := s.threads[t].buf;
            Orphan(DoAppend(cfg, s, t, id0), b) <==>
              && !s.bufs[b].poisoned && !Known(s, b)
              && forall u :: u in s.threads && u != t ==> !HasBuffer(s.threads[u], b)
  {
    ThreadOk(s, t);
    if s.bufs[s.threads[t].buf].current.Some? {
      CurrentOk(s, s.threads[t].buf);
    }
    hide Links, Chunks, Stamped;
    var n, b := DoAppend(cfg, s, t, id0), s.threads[t].buf;
    assert n.table == s.table && n.files == s.files && n.bufs[b].inode == s.bufs[b].inode;
    assert HoldsBytes(n, b) <==> !s.bufs[b].poisoned;
    assert forall u :: u in n.threads <==> u in s.threads && u != t;
    assert Known(n, b) <==> Known(s, b);
  }

  /** A writer finds the buffer, the file's last link goes and a drop runs through, and only then the writer writes. */
  lemma LateWriteOrphans(cfg: Config) returns (states: seq<State>, events: seq<Event>)
    requires cfg.width > 0 && cfg.cap > 0
    ensures Run(cfg, states, events)
    ensures events == [Create(5), Acquire(1, 5, 0, [7]), GetBuf(1, 0), Unlink(5), Drop(2, 5), DropSee(2), DropEmpty(2),
                       DropFree(2), DropDelete(2), Append(1, 0)]
    ensures Orphan(states[10], 0) && states[10].threads == map[]
  {
    states, events := BufferFound(cfg);
    hide Run;
    states, events := DropSees(cfg, states, events);
    states, events := DropRuns(cfg, states, events);
    WritesIntoNothing(cfg, states[9]);
    hide DoAppend, Orphan;
    states, events := Further(cfg, states, events, Append(1, 0));
  }

  lemma DropSees(cfg: Config, before: seq<State>, early: seq<Event>) returns (states: seq<State>, events: seq<Event>)
    requires Run(cfg, before, early) && |before| == |early| + 1 == 4 && cfg.width > 0
    requires before[3] == State(map[], map[0 := Buf(5, None, None, 0, false)], map[5 := 0], map[5 := StoredFile({}, 0)],
                                0, 1, map[1 := WriteHas(0, 5, 0, [7])], {}, {})
    ensures Run(cfg, states, events) && |states| == 7 && events == early + [Unlink(5), Drop(2, 5), DropSee(2)]
    ensures states[6].batches == map[] && states[6].bufs == before[3].bufs && states[6].table == map[5 := 0]
    ensures states[6].files == map[] && states[6].threads == map[1 := WriteHas(0, 5, 0, [7]), 2 := DropSaw(5, 0)]
  {
    hide Run, StampsOf;
    states, events := Further(cfg, before, early, Unlink(5));
    assert before[3].files - {5} == map[];
    states, events := Further(cfg, states, events, Drop(2, 5));
    states, events := Further(cfg, states, events, DropSee(2));
  }

  lemma DropRuns(cfg: Config, before: seq<State>, early: seq<Event>) returns (states: seq<State>, events: seq<Event>)
    requires Run(cfg, before, early) && |before| == |early| + 1 == 7 && cfg.width > 0
    requires before[6].batches == map[] && before[6].bufs == map[0 := Buf(5, None, None, 0, false)]
    requires before[6].table == map[5 := 0] && before[6].files == map[]
    requires before[6].threads == map[1 := WriteHas(0, 5, 0, [7]), 2 := DropSaw(5, 0)]
    ensures Run(cfg, states, events) && |states| == 10 && events == early + [DropEmpty(2), DropFree(2), DropDelete(2)]
    ensures states[9].batches == map[] && states[9].bufs == before[6].bufs && states[9].table == map[]
    ensures states[9].files == map[] && states[9].threads == map[1 := WriteHas(0, 5, 0, [7])]
  {
    hide Run;
    states, events := Further(cfg, before, early, DropEmpty(2));
    assert states[7] == before[6].(threads := before[6].threads[2 := DropFreed(5, None)]);
    states, events := Further(cfg, states, events, DropFree(2));
    assert states[8] == before[6].(threads := before[6].threads[2 := DropLast(5)]);
    states, events := Further(cfg, states, events, DropDelete(2));
    assert before[6].threads[2 := DropLast(5)] - {2} == map[1 := WriteHas(0, 5, 0, [7])];
  }

  lemma BufferFound(cfg: Config) returns (states: seq<State>, events: seq<Event>)
    requires cfg.width > 0 && cfg.cap > 0
    ensures Run(cfg, states, events) && |states| == 4
    ensures events == [Create(5), Acquire(1, 5, 0, [7]), GetBuf(1, 0)]
    ensures states[3] == State(map[], map[0 := Buf(5, None, None, 0, false)], map[5 := 0], map[5 := StoredFile({}, 0)],
                               0, 1, map[1 := WriteHas(0, 5, 0, [7])], {}, {})
  {
    states, events := [EMPTY_STATE], [];
    assert Run(cfg, states, events);
    hide Run;
    states, events := Further(cfg, states, events, Create(5));
    states, events := Further(cfg, states, events, Acquire(1, 5, 0, [7]));
    states, events := Further(cfg, states, events, GetBuf(1, 0));
  }

  /** The write finds the emptied buffer and puts its byte there. */
  lemma WritesIntoNothing(cfg: Config, s: State)
    requires cfg.width > 0 && s.threads == map[1 := WriteHas(0, 5, 0, [7])] && s.batches == map[]
    requires s.table == map[] && s.files == map[] && s.bufs == map[0 := Buf(5, None, None, 0, false)]
    ensures CanAppend(s, 1, 0) && Orphan(DoAppend(cfg, s, 1, 0), 0) && DoAppend(cfg, s, 1, 0).threads == map[]
  {
    hide Chunks, Stamped;
  }
}
