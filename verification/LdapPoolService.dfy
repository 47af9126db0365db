/** What the callers of an open pool get: which client, when a new one is dialed, and when they leave without one. */
module LdapPoolService {
  import opened Wrappers
  import opened LdapPool
  import opened LdapPoolSafety
  import opened LdapPoolTheorems
  import opened LdapPoolProgress

  // ----- single steps -----------------------------------------------------------------------------

  /** A caller is handed a client only in these ways: one it has just dialed to grow the open pool, one from the channel
      that has passed its health check, or a replacement it has just dialed. The last two are open at that moment. */
  lemma HandOver(p: Pool, pc: Pc, ch: Choice)
    requires Advance(p, pc, ch).Some? && !pc.Holding? && Advance(p, pc, ch).value.1.Holding?
    ensures var (p', pc') := Advance(p, pc, ch).value;
            || (pc == GrowDialed(pc'.client) && !p.closing)
            || (ch.Succeed? && pc == Checking(pc'.client) && p' == p && pc'.client in p.open)
            || (ch.Succeed? && pc.RefreshDialing? && pc'.client == p.next && pc'.client in p'.open)
  {
  }

  /** The thread is inside GetClient and has nothing to show yet. */
  predicate Acquiring(pc: Pc) {
    || pc.Entered? || pc.Growing? || pc.GrowDialing? || pc.GrowDialed? || pc.Receiving? || pc.Checking?
    || pc.RefreshClosing? || pc.RefreshDialing? || pc.BackingOff?
    || ((pc.Releasing? || pc.Forgetting? || pc.Signalling? || pc.Disconnecting?) && (pc.resume.ToReceive? || pc.resume.ToBackoff?))
  }

  /** A caller inside GetClient stays there until it is handed a client, or gives up waiting: no failed dial and no
      failed health check sends it away empty-handed. */
  lemma AcquireGoesOn(p: Pool, pc: Pc, ch: Choice)
    requires Advance(p, pc, ch).Some? && Acquiring(pc)
    ensures var (_, pc') := Advance(p, pc, ch).value;
            Acquiring(pc') || pc'.Holding? || (pc'.Idle? && ch.GiveUp? && (pc.Receiving? || pc.BackingOff?))
  {
  }

  /** A waiting caller can leave at any time, and leaves everything as it is. */
  lemma WaitCanBeGivenUp(p: Pool, pc: Pc)
    requires pc.Receiving? || pc.BackingOff?
    ensures Advance(p, pc, GiveUp) == Some((p, Idle))
  {
  }

  /** The thread has failed to replace a client and has not yet backed off. */
  predicate MustBackOff(pc: Pc) {
    pc.BackingOff? || ((pc.Releasing? || pc.Forgetting? || pc.Signalling? || pc.Disconnecting?) && pc.resume.ToBackoff?)
  }

  /** After a failed replacement the client goes back and the thread backs off before it receives again. */
  lemma FailedRefreshBacksOff(p: Pool, pc: Pc, ch: Choice)
    requires Advance(p, pc, ch).Some? && ((pc.RefreshDialing? && ch.Fail?) || MustBackOff(pc))
    ensures var (p', pc') := Advance(p, pc, ch).value;
            && (MustBackOff(pc') || (pc.BackingOff? && (pc'.Receiving? || pc'.Idle?)))
            && (pc.RefreshDialing? ==> p' == p && ClientOf(pc') == ClientOf(pc))
  {
  }

  // ----- a healthy client -------------------------------------------------------------------------

  /** A caller who finds an open client at the head of the channel can be handed that very client by steps of its own:
      nothing is dialed, nothing is closed, and the size stays. */
  lemma Borrow(s: State, t: nat) returns (events: seq<Event>)
    requires t < |s.threads| && s.threads[t].Idle? && !s.pool.closing
    requires s.pool.queue != [] && s.pool.queue[0] in s.pool.open
    ensures OnlyMoves(events, t)
    ensures Exec(s, events) == Some(State(s.pool.(queue := s.pool.queue[1..]), s.threads[t := Holding(s.pool.queue[0])]))
  {
    var es, m := Follow(s, [], s, t, Acquire);
    es, m := Follow(s, es, m, t, Proceed);
    assert m == State(s.pool, s.threads[t := Receiving]);
    var fs := TakeHead(m, t);
    ExecAppend(s, es, fs);
    events := es + fs;
    assert m.threads[t := Holding(s.pool.queue[0])] == s.threads[t := Holding(s.pool.queue[0])];
  }

  lemma TakeHead(s: State, t: nat) returns (events: seq<Event>)
    requires t < |s.threads| && s.threads[t].Receiving? && s.pool.queue != [] && s.pool.queue[0] in s.pool.open
    ensures OnlyMoves(events, t)
    ensures Exec(s, events) == Some(State(s.pool.(queue := s.pool.queue[1..]), s.threads[t := Holding(s.pool.queue[0])]))
  {
    var m;
    events, m := Follow(s, [], s, t, Proceed);
    events, m := Follow(s, events, m, t, Succeed);
    assert m.threads == s.threads[t := Holding(s.pool.queue[0])];
  }

  /** A caller who releases a client to an open pool puts it at the end of the channel and is done. */
  lemma GiveBack(s: State, t: nat) returns (events: seq<Event>)
    requires t < |s.threads| && s.threads[t].Holding? && !s.pool.closing && |s.pool.queue| < s.pool.count
    ensures OnlyMoves(events, t)
    ensures Exec(s, events) == Some(State(s.pool.(queue := s.pool.queue + [s.threads[t].client]), s.threads[t := Idle]))
  {
    var m;
    events, m := Follow(s, [], s, t, Release);
    events, m := Follow(s, events, m, t, Proceed);
    assert m.threads == s.threads[t := Idle];
  }

  /** Borrowing and giving back leaves everything as it was, but for the client's place in the channel. */
  lemma BorrowAndGiveBack(s: State, t: nat) returns (events: seq<Event>)
    requires t < |s.threads| && s.threads[t].Idle? && !s.pool.closing && |s.pool.queue| <= s.pool.count
    requires s.pool.queue != [] && s.pool.queue[0] in s.pool.open
    ensures OnlyMoves(events, t)
    ensures Exec(s, events) == Some(s.(pool := s.pool.(queue := s.pool.queue[1..] + [s.pool.queue[0]])))
  {
    var es := Borrow(s, t);
    var m := Exec(s, es).value;
    var fs := GiveBack(m, t);
    ExecAppend(s, es, fs);
    events := es + fs;
    assert m.threads[t := Idle] == s.threads;
  }

  // ----- runs of an open pool ---------------------------------------------------------------------

  /** Nothing goes wrong: no health check and no dial fails, no connection is lost, and nobody calls Close. */
  ghost predicate Untroubled(events: seq<Event>) {
    forall i :: 0 <= i < |events| ==> events[i].Move? && !events[i].choice.Fail? && !events[i].choice.Close?
  }

  predicate Refreshing(pc: Pc) { pc.RefreshClosing? || pc.RefreshDialing? }

  /** 1 while the thread may still dial to grow the pool. */
  function DialWeight(pc: Pc): nat { if pc.Growing? || pc.GrowDialing? then 1 else 0 }

  /** The event is a caller finding the channel empty. */
  predicate FindsEmpty(s: State, e: Event) {
    e.Move? && e.thread < |s.threads| && s.threads[e.thread].Entered? && s.pool.queue == []
  }

  function TimesFoundEmpty(s: State, events: seq<Event>): nat
    requires Exec(s, events).Some?
  {
    if events == [] then 0
    else
      var front := events[..|events| - 1];
      TimesFoundEmpty(s, front) + if FindsEmpty(Exec(s, front).value, events[|events| - 1]) then 1 else 0
  }

  lemma UntroubledAdvance(p: Pool, pc: Pc, ch: Choice)
    requires Advance(p, pc, ch).Some? && !ch.Fail? && !ch.Close?
    requires !p.closing && !Refreshing(pc) && !pc.Disconnecting? && |p.queue| + SlotWeight(pc) <= p.count
    ensures var (p', pc') := Advance(p, pc, ch).value;
            && !p'.closing && p.open <= p'.open && !Refreshing(pc')
            && p'.next + DialWeight(pc') <= p.next + DialWeight(pc) + (if pc.Entered? && p.queue == [] then 1 else 0)
  {
  }

  lemma UntroubledStep(s: State, e: Event)
    requires Reachable(s) && !s.pool.closing && (forall t :: 0 <= t < |s.threads| ==> !Refreshing(s.threads[t]))
    requires Untroubled([e]) && Apply(s, e).Some?
    ensures var s' := Apply(s, e).value;
            && !s'.pool.closing && s.pool.open <= s'.pool.open
            && (forall t :: 0 <= t < |s'.threads| ==> !Refreshing(s'.threads[t]))
            && s'.pool.next + Total(s'.threads, DialWeight)
               <= s.pool.next + Total(s.threads, DialWeight) + (if FindsEmpty(s, e) then 1 else 0)
  {
    assert [e][0] == e;
    ReachableInv(s);
    var t := e.thread;
    TotalAtLeast(s.threads, SlotWeight, t);
    UntroubledAdvance(s.pool, s.threads[t], e.choice);
    TotalUpdate(s.threads, DialWeight, t, Advance(s.pool, s.threads[t], e.choice).value.1);
  }

  /** While nothing goes wrong an open pool keeps every connection it has, and dials at most once for each caller that
      found the channel empty: no healthy client is ever closed or replaced. */
  lemma {:induction false} HealthyClientsAreKept(s: State, events: seq<Event>)
    requires Reachable(s) && !s.pool.closing && (forall t :: 0 <= t < |s.threads| ==> !Refreshing(s.threads[t]))
    requires Untroubled(events) && Exec(s, events).Some?
    ensures var s' := Exec(s, events).value;
            && !s'.pool.closing && s.pool.open <= s'.pool.open
            && (forall t :: 0 <= t < |s'.threads| ==> !Refreshing(s'.threads[t]))
            && s'.pool.next + Total(s'.threads, DialWeight)
               <= s.pool.next + Total(s.threads, DialWeight) + TimesFoundEmpty(s, events)
  {
    if events != [] {
      var front := events[..|events| - 1];
      HealthyClientsAreKept(s, front);
      ReachableExtends(s, front);
      UntroubledStep(Exec(s, front).value, events[|events| - 1]);
    }
  }

  // ----- closing ----------------------------------------------------------------------------------

  /** A caller can close an open pool: from every reachable state some run that starts with its call of Close has it
      return cleanly. */
  lemma CloseCanSucceed(s: State, t: nat) returns (events: seq<Event>)
    requires Reachable(s) && t < |s.threads| && s.threads[t].Idle? && !s.pool.closing
    ensures |events| > 0 && events[0] == Move(t, Close) && Exec(s, events).Some?
    ensures t < |Exec(s, events).value.threads| && Exec(s, events).value.threads[t] == CloseReturned(true)
  {
    var m := Take(s, Move(t, Close));
    var rest := CloseCanComplete(m, t);
    PrependEvent(s, Move(t, Close), rest);
    events := [Move(t, Close)] + rest;
  }
}
