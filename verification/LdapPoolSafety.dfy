/** What every interleaving of the pooled factory keeps. */
module LdapPoolSafety {
  import opened Wrappers
  import opened LdapPool

  // ----- what a thread has in its hands -----------------------------------------------------------

  /** The client a thread is responsible for. */
  function ClientOf(pc: Pc): Option<ClientId> {
    match pc
    case GrowDialed(c) => Some(c)
    case Checking(c) => Some(c)
    case RefreshClosing(c) => Some(c)
    case RefreshDialing(c) => Some(c)
    case Holding(c) => Some(c)
    case Releasing(c, _) => Some(c)
    case Forgetting(d, _) => d
    case Signalling(d, _) => d
    case Disconnecting(c, _) => Some(c)
    case _ => None
  }

  /** 1 while the thread's slot is still counted in `size`. */
  function SlotWeight(pc: Pc): nat {
    if pc.GrowDialing? || pc.GrowDialed? || pc.Checking? || pc.RefreshClosing? || pc.RefreshDialing?
       || pc.Holding? || pc.Releasing? || pc.Forgetting? then 1 else 0
  }

  /** 1 while the thread still has to close a client that is no longer counted. */
  function GhostWeight(pc: Pc): nat {
    if (pc.Signalling? && pc.dropped.Some?) || pc.Disconnecting? then 1 else 0
  }

  function Total(ts: seq<Pc>, w: Pc -> nat): nat {
    if ts == [] then 0 else Total(ts[..|ts| - 1], w) + w(ts[|ts| - 1])
  }

  /** Slots held by threads that are not yet past forget. */
  function Slots(s: State): nat { Total(s.threads, SlotWeight) }

  /** Threads that have forgotten a client and not yet closed it. */
  function Lingering(s: State): nat { Total(s.threads, GhostWeight) }

  predicate Closer(pc: Pc) {
    || pc.Draining? || pc.WaitReading? || pc.Parked? || pc.CloseReturned?
    || ((pc.Releasing? || pc.Forgetting? || pc.Signalling? || pc.Disconnecting?) && pc.resume.ToDrain?)
  }

  predicate PastDrain(pc: Pc) {
    pc.WaitReading? || pc.Parked? || pc.CloseReturned?
  }

  // ----- the invariant ----------------------------------------------------------------------------

  /** Every slot counted in `size` is a client in the channel or held by a thread, and no more than `count`
      clients are counted or waiting to be closed. */
  ghost predicate Counted(s: State) {
    && s.pool.size == |s.pool.queue| + Slots(s)
    && s.pool.size + Lingering(s) <= s.pool.count
  }

  /** A client is in the channel once, or with one thread, or closed. */
  ghost predicate Owned(s: State) {
    && SingleOwner(s.pool.queue, s.pool.next, s.threads)
    && (forall t :: 0 <= t < |s.threads| && s.threads[t].RefreshDialing? ==> s.threads[t].client !in s.pool.open)
    && (forall c :: c in s.pool.open ==> c in s.pool.queue || HeldByThread(s.threads, c))
  }

  /** Nothing is owned twice: the channel holds each client once and no thread holds one that is elsewhere. */
  ghost predicate SingleOwner(q: seq<ClientId>, next: nat, ts: seq<Pc>) {
    && Distinct(q)
    && (forall c :: c in q ==> c < next)
    && (forall u :: 0 <= u < |ts| && ClientOf(ts[u]).Some? ==> ClientOf(ts[u]).value < next && ClientOf(ts[u]).value !in q)
    && (forall u, v :: 0 <= u < v < |ts| && ClientOf(ts[u]).Some? ==> ClientOf(ts[u]) != ClientOf(ts[v]))
  }

  ghost predicate HeldByThread(ts: seq<Pc>, c: ClientId) {
    exists t :: 0 <= t < |ts| && ClientOf(ts[t]) == Some(c)
  }

  /** Only Close leads past the drain, one call at a time; a client is dropped only when the pool is closing. */
  ghost predicate ClosingOrdered(s: State) {
    && (forall t :: 0 <= t < |s.threads| && Closer(s.threads[t]) ==> s.pool.closing)
    && (forall t, u :: 0 <= t < u < |s.threads| ==> !(Closer(s.threads[t]) && Closer(s.threads[u])))
    && (s.pool.closing ==> exists t :: 0 <= t < |s.threads| && Closer(s.threads[t]))
    && (forall t :: 0 <= t < |s.threads| && PastDrain(s.threads[t]) ==> s.pool.queue == [])
    && (forall t :: 0 <= t < |s.threads| && s.threads[t] == CloseReturned(true) ==> s.pool.size == 0)
    && (forall t :: 0 <= t < |s.threads| && (s.threads[t].Forgetting? || s.threads[t].Signalling?) && s.threads[t].dropped.Some?
          ==> s.pool.closing)
    && (forall t :: 0 <= t < |s.threads| && s.threads[t].Disconnecting? ==> s.pool.closing)
    && (forall t :: 0 <= t < |s.threads| && s.threads[t].Releasing? ==> !s.threads[t].resume.ToDrain?)
  }

  ghost predicate WakePending(s: State) {
    s.pool.wake || exists t :: 0 <= t < |s.threads| && s.threads[t].Signalling?
  }

  /** A parked waiter that read more than the current size has a wake-up on its way. */
  ghost predicate WakeKept(s: State) {
    forall t :: 0 <= t < |s.threads| && s.threads[t].Parked? ==>
      s.pool.size <= s.threads[t].outstanding && (s.pool.size < s.threads[t].outstanding ==> WakePending(s))
  }

  ghost predicate Inv(s: State) {
    Counted(s) && Owned(s) && ClosingOrdered(s) && WakeKept(s)
  }

  // ----- counting over the threads ----------------------------------------------------------------

  lemma {:induction false} TotalUpdate(ts: seq<Pc>, w: Pc -> nat, t: nat, pc: Pc)
    requires t < |ts|
    ensures Total(ts[t := pc], w) + w(ts[t]) == Total(ts, w) + w(pc)
  {
    var last := |ts| - 1;
    if t == last {
      assert ts[t := pc][..last] == ts[..last];
    } else {
      assert ts[t := pc][..last] == ts[..last][t := pc];
      TotalUpdate(ts[..last], w, t, pc);
    }
  }

  lemma {:induction false} TotalAtLeast(ts: seq<Pc>, w: Pc -> nat, t: nat)
    requires t < |ts|
    ensures Total(ts, w) >= w(ts[t])
  {
    if t < |ts| - 1 {
      TotalAtLeast(ts[..|ts| - 1], w, t);
    }
  }

  lemma {:induction false} TotalZero(ts: seq<Pc>, w: Pc -> nat)
    requires forall t :: 0 <= t < |ts| ==> w(ts[t]) == 0
    ensures Total(ts, w) == 0
  {
    if ts != [] {
      TotalZero(ts[..|ts| - 1], w);
    }
  }

  // ----- the invariant holds at the start and survives each step ----------------------------------

  lemma InitInv(s: State)
    requires Init(s)
    ensures Inv(s)
  {
    TotalZero(s.threads, SlotWeight);
    TotalZero(s.threads, GhostWeight);
  }

  /** One thread's step moves a slot between the channel, the thread and `size`, and never loses one. */
  lemma AdvanceCounted(p: Pool, pc: Pc, ch: Choice)
    requires Advance(p, pc, ch).Some?
    requires |p.queue| + SlotWeight(pc) <= p.size
    requires GhostWeight(pc) == 1 ==> p.closing
    requires p.size <= p.count
    requires (pc.Forgetting? && pc.dropped.Some?) ==> p.closing
    ensures var (p', pc') := Advance(p, pc, ch).value;
            && p'.size + |p.queue| + SlotWeight(pc) == p.size + |p'.queue| + SlotWeight(pc')
            && p'.count == p.count
            && (p'.size + GhostWeight(pc') <= p.size + GhostWeight(pc) || (!p.closing && p'.size <= p.count && GhostWeight(pc') == 0))
  {
  }

  lemma CountedStep(s: State, t: nat, ch: Choice)
    requires Inv(s) && Apply(s, Move(t, ch)).Some?
    ensures Counted(Apply(s, Move(t, ch)).value)
  {
    var pc' := Advance(s.pool, s.threads[t], ch).value.1;
    TotalUpdate(s.threads, SlotWeight, t, pc');
    TotalUpdate(s.threads, GhostWeight, t, pc');
    TotalAtLeast(s.threads, SlotWeight, t);
    if !s.pool.closing {
      TotalZero(s.threads, GhostWeight);
    }
    AdvanceCounted(s.pool, s.threads[t], ch);
  }

  /** The ways one step can move a client: not at all, out of the channel, into it, or newly dialed. */
  ghost predicate Transfer(p: Pool, pc: Pc, p': Pool, pc': Pc) {
    || (p'.next == p.next && p'.queue == p.queue && (ClientOf(pc') == ClientOf(pc) || ClientOf(pc').None?))
    || (p'.next == p.next && p.queue != [] && p'.queue == p.queue[1..] && ClientOf(pc').Some? && ClientOf(pc').value == p.queue[0])
    || (p'.next == p.next && ClientOf(pc).Some? && p'.queue == p.queue + [ClientOf(pc).value] && ClientOf(pc').None?)
    || (p'.next == p.next + 1 && p'.queue == p.queue && ClientOf(pc') == Some(p.next))
  }

  lemma AdvanceTransfers(p: Pool, pc: Pc, ch: Choice)
    requires Advance(p, pc, ch).Some?
    ensures var (p', pc') := Advance(p, pc, ch).value;
            && Transfer(p, pc, p', pc')
            && p'.open <= p.open + {p.next}
            && (p'.open <= p.open || ClientOf(pc') == Some(p.next))
            && (pc'.RefreshDialing? ==> pc'.client !in p'.open)
  {
  }

  /** An open connection that one step takes from its owner ends up with the thread or in the channel. */
  lemma AdvanceKeepsOwner(p: Pool, pc: Pc, ch: Choice, c: ClientId)
    requires Advance(p, pc, ch).Some?
    requires pc.RefreshDialing? ==> pc.client !in p.open
    requires c in Advance(p, pc, ch).value.0.open && c in p.open
    ensures var (p', pc') := Advance(p, pc, ch).value;
            ClientOf(pc) == Some(c) || c in p.queue ==> ClientOf(pc') == Some(c) || c in p'.queue
  {
    var (p', pc') := Advance(p, pc, ch).value;
    if pc.Releasing? && c == pc.client && p'.queue != p.queue {
      assert p'.queue[|p.queue|] == c;
    }
  }

  lemma KeepsSingleOwner(q: seq<ClientId>, next: nat, ts: seq<Pc>, t: nat, pc: Pc)
    requires SingleOwner(q, next, ts) && t < |ts| && (ClientOf(pc) == ClientOf(ts[t]) || ClientOf(pc).None?)
    ensures SingleOwner(q, next, ts[t := pc])
  {
  }

  lemma TakesSingleOwner(q: seq<ClientId>, next: nat, ts: seq<Pc>, t: nat, pc: Pc)
    requires SingleOwner(q, next, ts) && t < |ts| && q != [] && ClientOf(pc) == Some(q[0])
    ensures SingleOwner(q[1..], next, ts[t := pc])
  {
    assert q[0] in q;
    forall c | c in q[1..] ensures c in q && c != q[0] {
      var i :| 0 <= i < |q[1..]| && q[1..][i] == c;
      assert q[i + 1] == c;
    }
  }

  lemma PutsSingleOwner(q: seq<ClientId>, next: nat, ts: seq<Pc>, t: nat, pc: Pc)
    requires SingleOwner(q, next, ts) && t < |ts| && ClientOf(ts[t]).Some? && ClientOf(pc).None?
    ensures SingleOwner(q + [ClientOf(ts[t]).value], next, ts[t := pc])
  {
    var c := ClientOf(ts[t]).value;
    forall u | 0 <= u < |ts| && u != t ensures ClientOf(ts[u]) != Some(c) {
    }
    forall i | 0 <= i < |q| ensures q[i] != c {
      assert q[i] in q;
    }
  }

  lemma DialsSingleOwner(q: seq<ClientId>, next: nat, ts: seq<Pc>, t: nat, pc: Pc)
    requires SingleOwner(q, next, ts) && t < |ts| && ClientOf(pc) == Some(next)
    ensures SingleOwner(q, next + 1, ts[t := pc])
  {
  }

  lemma TransferKeepsSingleOwner(s: State, t: nat, p': Pool, pc': Pc)
    requires SingleOwner(s.pool.queue, s.pool.next, s.threads) && t < |s.threads|
    requires Transfer(s.pool, s.threads[t], p', pc')
    ensures SingleOwner(p'.queue, p'.next, s.threads[t := pc'])
  {
    var p := s.pool;
    if p'.next == p.next + 1 {
      DialsSingleOwner(p.queue, p.next, s.threads, t, pc');
    } else if p'.queue == p.queue && (ClientOf(pc') == ClientOf(s.threads[t]) || ClientOf(pc').None?) {
      KeepsSingleOwner(p.queue, p.next, s.threads, t, pc');
    } else if ClientOf(pc').None? {
      PutsSingleOwner(p.queue, p.next, s.threads, t, pc');
    } else {
      TakesSingleOwner(p.queue, p.next, s.threads, t, pc');
    }
  }

  lemma OwnedStep(s: State, t: nat, ch: Choice)
    requires Inv(s) && Apply(s, Move(t, ch)).Some?
    ensures Owned(Apply(s, Move(t, ch)).value)
  {
    var s' := Apply(s, Move(t, ch)).value;
    var (p', pc') := Advance(s.pool, s.threads[t], ch).value;
    AdvanceTransfers(s.pool, s.threads[t], ch);
    TransferKeepsSingleOwner(s, t, p', pc');
    forall c | c in p'.open
      ensures c in p'.queue || HeldByThread(s'.threads, c)
    {
      if c in s.pool.open {
        AdvanceKeepsOwner(s.pool, s.threads[t], ch, c);
        if u :| 0 <= u < |s.threads| && u != t && ClientOf(s.threads[u]) == Some(c) {
          assert ClientOf(s'.threads[u]) == Some(c);
        }
      }
      assert ClientOf(s'.threads[t]) == Some(c) ==> HeldByThread(s'.threads, c);
    }
  }

  /** Once `closing` is set a thread can only take from the channel and lower the size. */
  lemma AdvanceClosing(p: Pool, pc: Pc, ch: Choice)
    requires Advance(p, pc, ch).Some? && p.closing
    ensures var (p', pc') := Advance(p, pc, ch).value;
            && p'.closing && p'.size <= p.size && (p'.queue == p.queue || (p.queue != [] && p'.queue == p.queue[1..]))
            && (Closer(pc) <==> Closer(pc'))
  {
  }

  /** Only Close makes a closer, and it sets `closing`; the drain ends on an empty channel and the wait on size 0. */
  lemma AdvanceCloser(p: Pool, pc: Pc, ch: Choice)
    requires Advance(p, pc, ch).Some? && (Closer(pc) ==> p.closing)
    ensures var (p', pc') := Advance(p, pc, ch).value;
            && (!p.closing ==> (p'.closing <==> Closer(pc')))
            && (PastDrain(pc') ==> PastDrain(pc) || p'.queue == [])
            && (pc' == CloseReturned(true) ==> p'.size == 0)
  {
  }

  /** A client is dropped only when the pool is closing, because an open pool always has room for it. */
  lemma AdvanceDrops(p: Pool, pc: Pc, ch: Choice)
    requires Advance(p, pc, ch).Some?
    requires |p.queue| + SlotWeight(pc) <= p.count
    requires Closer(pc) ==> p.closing
    requires (pc.Forgetting? || pc.Signalling?) && pc.dropped.Some? ==> p.closing
    requires pc.Disconnecting? ==> p.closing
    requires pc.Releasing? ==> !pc.resume.ToDrain?
    ensures var (p', pc') := Advance(p, pc, ch).value;
            && ((pc'.Forgetting? || pc'.Signalling?) && pc'.dropped.Some? ==> p'.closing)
            && (pc'.Disconnecting? ==> p'.closing)
            && (pc'.Releasing? ==> !pc'.resume.ToDrain?)
  {
  }

  lemma ClosingOrderedStep(s: State, t: nat, ch: Choice)
    requires Inv(s) && Apply(s, Move(t, ch)).Some?
    ensures ClosingOrdered(Apply(s, Move(t, ch)).value)
  {
    var s' := Apply(s, Move(t, ch)).value;
    TotalAtLeast(s.threads, SlotWeight, t);
    AdvanceCloser(s.pool, s.threads[t], ch);
    AdvanceDrops(s.pool, s.threads[t], ch);
    if s.pool.closing {
      AdvanceClosing(s.pool, s.threads[t], ch);
      var u :| 0 <= u < |s.threads| && Closer(s.threads[u]);
      assert Closer(s'.threads[u]);
    } else if s'.pool.closing {
      assert Closer(s'.threads[t]);
    }
  }

  /** A token leaves `wake` only with the waiter, a signal puts one there, and a lower size leaves a signal to send. */
  lemma AdvanceWake(p: Pool, pc: Pc, ch: Choice)
    requires Advance(p, pc, ch).Some?
    ensures var (p', pc') := Advance(p, pc, ch).value;
            && (p.wake && !p'.wake ==> pc.Parked?)
            && (pc.Signalling? ==> p'.wake)
            && (p'.size < p.size ==> pc'.Signalling?)
            && (pc'.Parked? ==> p'.size == pc'.outstanding)
  {
  }

  lemma WakeKeptStep(s: State, t: nat, ch: Choice)
    requires Inv(s) && Apply(s, Move(t, ch)).Some?
    ensures WakeKept(Apply(s, Move(t, ch)).value)
  {
    var s' := Apply(s, Move(t, ch)).value;
    AdvanceWake(s.pool, s.threads[t], ch);
    forall u | 0 <= u < |s'.threads| && s'.threads[u].Parked?
      ensures s'.pool.size <= s'.threads[u].outstanding
      ensures s'.pool.size < s'.threads[u].outstanding ==> WakePending(s')
    {
      if u != t {
        assert s.threads[u] == s'.threads[u] && Closer(s.threads[u]);
        AdvanceClosing(s.pool, s.threads[t], ch);
        WakeStays(s, t, ch);
      }
    }
  }

  /** While someone else waits, a pending wake-up stays pending. */
  lemma WakeStays(s: State, t: nat, ch: Choice)
    requires Inv(s) && Apply(s, Move(t, ch)).Some? && !s.threads[t].Parked?
    ensures var s' := Apply(s, Move(t, ch)).value;
            WakePending(s) || s'.pool.size < s.pool.size ==> WakePending(s')
  {
    var s' := Apply(s, Move(t, ch)).value;
    AdvanceWake(s.pool, s.threads[t], ch);
    if s'.pool.size < s.pool.size {
      assert s'.threads[t].Signalling?;
    } else if !s.pool.wake && WakePending(s) {
      var v :| 0 <= v < |s.threads| && s.threads[v].Signalling?;
      assert v != t ==> s'.threads[v].Signalling?;
    }
  }

  /** Each step of each thread, and each lost connection, keeps the invariant. */
  lemma StepInv(s: State, e: Event)
    requires Inv(s) && Apply(s, e).Some?
    ensures Inv(Apply(s, e).value)
  {
    match e
    case Move(t, ch) =>
      CountedStep(s, t, ch);
      OwnedStep(s, t, ch);
      ClosingOrderedStep(s, t, ch);
      WakeKeptStep(s, t, ch);
    case Drop(_) =>
  }

  lemma {:induction false} ExecInv(s: State, events: seq<Event>)
    requires Inv(s) && Exec(s, events).Some?
    ensures Inv(Exec(s, events).value)
  {
    if events != [] {
      var front := events[..|events| - 1];
      ExecInv(s, front);
      StepInv(Exec(s, front).value, events[|events| - 1]);
    }
  }

  /** The invariant holds in every reachable state of every interleaving. */
  lemma ReachableInv(s: State)
    requires Reachable(s)
    ensures Inv(s)
  {
    var s0, events :| Init(s0) && Exec(s0, events) == Some(s);
    InitInv(s0);
    ExecInv(s0, events);
  }
}
