/** Close cannot get stuck: whatever the threads have done, it can still finish without its timeout. */
module LdapPoolProgress {
  import opened Wrappers
  import opened LdapPool
  import opened LdapPoolSafety
  import opened LdapPoolTheorems

  /** The choice that brings a thread closer to leaving the factory once the pool is closing. */
  function Homeward(pc: Pc): Choice {
    match pc
    case Idle => Acquire
    case GrowDialing => Fail
    case Receiving => GiveUp
    case Checking(_) => Fail
    case RefreshDialing(_) => Fail
    case BackingOff => GiveUp
    case Holding(_) => Release
    case _ => Proceed
  }

  function ResumeRank(r: Resume): nat {
    match r
    case ToCaller => 0
    case ToReceive => 1
    case ToBackoff => 1
    case ToDrain => 3
  }

  /** How many homeward steps a thread still has ahead of it. */
  function Rank(pc: Pc): nat {
    match pc
    case Idle => 0
    case Entered => 3
    case Growing => 2
    case GrowDialing => 5
    case GrowDialed(_) => 5
    case Receiving => 1
    case Checking(_) => 8
    case RefreshClosing(_) => 7
    case RefreshDialing(_) => 6
    case BackingOff => 1
    case Holding(_) => 5
    case Releasing(_, r) => 4 + ResumeRank(r)
    case Forgetting(_, r) => 3 + ResumeRank(r)
    case Signalling(_, r) => 2 + ResumeRank(r)
    case Disconnecting(_, r) => 1 + ResumeRank(r)
    case Draining => 3
    case WaitReading => 1
    case Parked(_) => 2
    case CloseReturned(_) => 0
  }

  function Distance(s: State): nat {
    Total(s.threads, Rank) + 5 * |s.pool.queue|
  }

  lemma HomewardAdvance(p: Pool, pc: Pc)
    requires p.closing && !pc.Idle? && !pc.CloseReturned? && (pc.Parked? ==> p.wake) && (pc.WaitReading? ==> p.size == 0)
    ensures Advance(p, pc, Homeward(pc)).Some?
    ensures Advance(p, pc, Homeward(pc)).value.1 != CloseReturned(false)
    ensures var (p', pc') := Advance(p, pc, Homeward(pc)).value;
            Rank(pc') + 5 * |p'.queue| < Rank(pc) + 5 * |p.queue|
  {
  }

  lemma DistanceFalls(s: State, t: nat, p': Pool, pc': Pc)
    requires t < |s.threads| && Rank(pc') + 5 * |p'.queue| < Rank(s.threads[t]) + 5 * |s.pool.queue|
    ensures Distance(State(p', s.threads[t := pc'])) < Distance(s)
  {
    TotalUpdate(s.threads, Rank, t, pc');
  }

  lemma HomewardStep(s: State, t: nat) returns (s': State)
    requires Reachable(s) && s.pool.closing && t < |s.threads|
    requires var pc := s.threads[t];
             !pc.Idle? && !pc.CloseReturned? && (pc.Parked? ==> s.pool.wake) && (pc.WaitReading? ==> s.pool.size == 0)
    ensures Apply(s, Move(t, Homeward(s.threads[t]))) == Some(s')
    ensures Reachable(s') && s'.pool.closing && |s'.threads| == |s.threads| && Distance(s') < Distance(s)
    ensures s'.threads == s.threads[t := s'.threads[t]] && s'.threads[t] != CloseReturned(false)
  {
    HomewardAdvance(s.pool, s.threads[t]);
    AdvanceClosing(s.pool, s.threads[t], Homeward(s.threads[t]));
    var (p', pc') := Advance(s.pool, s.threads[t], Homeward(s.threads[t])).value;
    DistanceFalls(s, t, p', pc');
    s' := Take(s, Move(t, Homeward(s.threads[t])));
  }

  /** With every other thread out of the factory, a waiting Close has nothing left to wait for. */
  lemma AloneMeansDone(s: State, t: nat)
    requires Reachable(s) && t < |s.threads| && PastDrain(s.threads[t])
    requires forall u :: 0 <= u < |s.threads| && u != t ==> s.threads[u].Idle?
    ensures s.pool.size == 0
    ensures s.threads[t].Parked? ==> s.pool.wake
  {
    ReachableInv(s);
    TotalZero(s.threads, SlotWeight);
    if s.threads[t].Parked? {
      NoLostWakeup(s, t);
    }
  }

  lemma {:induction false} PrependEvent(s: State, e: Event, es: seq<Event>)
    requires Apply(s, e).Some?
    ensures Exec(s, [e] + es) == Exec(Apply(s, e).value, es)
  {
    assert [e][..0] == [] && Exec(s, [e]) == Apply(s, e);
    ExecAppend(s, [e], es);
  }

  /** From every reachable state in which Close is under way, some continuation has it see size 0 and return cleanly:
      no interleaving leaves it waiting for a wake-up that cannot come. */
  lemma {:induction false} CloseCanComplete(s: State, t: nat) returns (events: seq<Event>)
    requires Reachable(s) && t < |s.threads| && Closer(s.threads[t]) && s.threads[t] != CloseReturned(false)
    ensures Exec(s, events).Some?
    ensures t < |Exec(s, events).value.threads| && Exec(s, events).value.threads[t] == CloseReturned(true)
    decreases Distance(s)
  {
    ReachableInv(s);
    if s.threads[t] == CloseReturned(true) {
      events := [];
    } else {
      var u: nat := t;
      if v: nat :| v < |s.threads| && v != t && !s.threads[v].Idle? {
        assert !Closer(s.threads[v]);
        u := v;
      } else if PastDrain(s.threads[t]) {
        AloneMeansDone(s, t);
      }
      var s' := HomewardStep(s, u);
      assert Closer(s'.threads[t]) by {
        AdvanceClosing(s.pool, s.threads[u], Homeward(s.threads[u]));
      }
      var rest := CloseCanComplete(s', t);
      events := [Move(u, Homeward(s.threads[u]))] + rest;
      PrependEvent(s, Move(u, Homeward(s.threads[u])), rest);
    }
  }

  // ----- every run of a closing pool ends ---------------------------------------------------------

  /** Where a thread stands on its way out of a closing pool, whatever it chooses: every step leads lower, counting what
      the step takes from the channel and what it puts in `wake`. */
  function Height(pc: Pc): nat {
    match pc
    case Idle => 0
    case Entered => 3
    case Growing => 2
    case GrowDialing => 8
    case GrowDialed(_) => 7
    case Receiving => 1
    case Checking(_) => 11
    case RefreshClosing(_) => 10
    case RefreshDialing(_) => 9
    case BackingOff => 2
    case Holding(_) => 7
    case Releasing(_, r) => 6 + Above(r)
    case Forgetting(_, r) => 5 + Above(r)
    case Signalling(_, r) => 4 + Above(r)
    case Disconnecting(_, r) => 1 + Above(r)
    case Draining => 3
    case WaitReading => 2
    case Parked(_) => 1
    case CloseReturned(_) => 0
  }

  /** Where a release or a forget leads. */
  function Above(r: Resume): nat {
    match r
    case ToCaller => 0
    case ToReceive => 1
    case ToBackoff => 2
    case ToDrain => 3
  }

  function Stock(p: Pool): nat { 11 * |p.queue| + if p.wake then 2 else 0 }

  /** A bound on the steps the threads inside a closing pool can still take. */
  function Budget(s: State): nat { Total(s.threads, Height) + Stock(s.pool) }

  /** Every step of a thread inside a closing pool, whatever the choice, leads lower; a call from outside is refused. */
  lemma EveryStepDescends(p: Pool, pc: Pc, ch: Choice)
    requires p.closing && Advance(p, pc, ch).Some?
    ensures var (p', pc') := Advance(p, pc, ch).value;
            if pc.Idle? then p' == p && pc' == pc else Height(pc') + Stock(p') < Height(pc) + Stock(p)
  {
  }

  /** The event is a step of a thread that is inside the factory. */
  predicate Inside(s: State, e: Event) {
    e.Move? && e.thread < |s.threads| && !s.threads[e.thread].Idle?
  }

  /** How many events of a run are such steps. */
  function StepsInside(s: State, events: seq<Event>): nat
    requires Exec(s, events).Some?
  {
    if events == [] then 0
    else
      var front := events[..|events| - 1];
      StepsInside(s, front) + if Inside(Exec(s, front).value, events[|events| - 1]) then 1 else 0
  }

  lemma EventDescends(s: State, e: Event)
    requires s.pool.closing && Apply(s, e).Some?
    ensures Budget(Apply(s, e).value) + (if Inside(s, e) then 1 else 0) <= Budget(s)
  {
    if e.Move? {
      var (p', pc') := Advance(s.pool, s.threads[e.thread], e.choice).value;
      EveryStepDescends(s.pool, s.threads[e.thread], e.choice);
      TotalUpdate(s.threads, Height, e.thread, pc');
    }
  }

  /** Once the pool is closing, no run has more than a fixed number of steps inside the factory, whatever the threads
      choose, however dials and health checks turn out, and whoever keeps calling. */
  lemma {:induction false} ClosingRunsAreBounded(s: State, events: seq<Event>)
    requires s.pool.closing && Exec(s, events).Some?
    ensures StepsInside(s, events) + Budget(Exec(s, events).value) <= Budget(s)
  {
    if events != [] {
      var front := events[..|events| - 1];
      ClosingRunsAreBounded(s, front);
      ClosingIsAbsorbing(s, front);
      EventDescends(Exec(s, front).value, events[|events| - 1]);
    }
  }

  /** Nothing is left for the threads to do but to give up waiting, to be refused, or to release a client. */
  ghost predicate Quiet(s: State) {
    forall t: nat, ch: Choice {:trigger Advance(s.pool, s.threads[t], ch)} ::
      t < |s.threads| && !s.threads[t].Idle? && Advance(s.pool, s.threads[t], ch).Some? ==> ch.GiveUp? || ch.Release?
  }

  lemma QuietThread(s: State, t: nat)
    requires Quiet(s) && t < |s.threads|
    ensures var pc := s.threads[t];
            pc.Idle? || pc.Receiving? || pc.Holding? || (pc.Parked? && !s.pool.wake) || pc.CloseReturned?
  {
    var pc := s.threads[t];
    if !pc.Idle? {
      assert Advance(s.pool, s.threads[t], Proceed).Some? ==> false;
      assert Advance(s.pool, s.threads[t], Fail).Some? ==> false;
    }
  }

  /** When a closing pool has come to rest and nobody holds a client, Close has returned and the size is 0. */
  lemma QuietMeansClosed(s: State, t: nat)
    requires Reachable(s) && t < |s.threads| && Closer(s.threads[t])
    requires Quiet(s) && forall u :: 0 <= u < |s.threads| ==> !s.threads[u].Holding?
    ensures s.threads[t].CloseReturned? && s.pool.size == 0
  {
    ReachableInv(s);
    forall u | 0 <= u < |s.threads| ensures SlotWeight(s.threads[u]) == 0 && !s.threads[u].Signalling? {
      QuietThread(s, u);
    }
    TotalZero(s.threads, SlotWeight);
    QuietThread(s, t);
    if s.threads[t].Parked? {
      NoLostWakeup(s, t);
    }
  }

  /** Close does not time out in the run. */
  ghost predicate NeverGivesUp(events: seq<Event>, t: nat) {
    forall i :: 0 <= i < |events| ==> events[i] != Move(t, GiveUp)
  }

  lemma CloserStep(s: State, t: nat, e: Event)
    requires s.pool.closing && Apply(s, e).Some? && t < |s.threads| && e != Move(t, GiveUp)
    requires Closer(s.threads[t]) && s.threads[t] != CloseReturned(false)
    ensures var s' := Apply(s, e).value;
            t < |s'.threads| && Closer(s'.threads[t]) && s'.threads[t] != CloseReturned(false)
  {
    if e.Move? && e.thread == t {
      AdvanceClosing(s.pool, s.threads[t], e.choice);
    }
  }

  lemma {:induction false} CloserStays(s: State, t: nat, events: seq<Event>)
    requires s.pool.closing && Exec(s, events).Some? && t < |s.threads|
    requires Closer(s.threads[t]) && s.threads[t] != CloseReturned(false) && NeverGivesUp(events, t)
    ensures var s' := Exec(s, events).value;
            t < |s'.threads| && Closer(s'.threads[t]) && s'.threads[t] != CloseReturned(false)
  {
    if events != [] {
      var front, last := events[..|events| - 1], events[|events| - 1];
      CloserStays(s, t, front);
      ClosingIsAbsorbing(s, front);
      CloserStep(Exec(s, front).value, t, last);
    }
  }

  /** Close always finishes: every run from the moment it has begun comes to rest after a bounded number of steps, and
      when it has, with all clients released and without its timeout, Close has seen size 0 and returned. */
  lemma CloseFinishes(s: State, t: nat, events: seq<Event>)
    requires Reachable(s) && t < |s.threads| && Closer(s.threads[t]) && s.threads[t] != CloseReturned(false)
    requires Exec(s, events).Some? && NeverGivesUp(events, t)
    ensures StepsInside(s, events) <= Budget(s)
    ensures var s' := Exec(s, events).value;
            Quiet(s') && (forall u :: 0 <= u < |s'.threads| ==> !s'.threads[u].Holding?) ==>
              t < |s'.threads| && s'.threads[t] == CloseReturned(true)
  {
    ReachableInv(s);
    ClosingRunsAreBounded(s, events);
    CloserStays(s, t, events);
    ReachableExtends(s, events);
    var s' := Exec(s, events).value;
    if Quiet(s') && forall u :: 0 <= u < |s'.threads| ==> !s'.threads[u].Holding? {
      QuietMeansClosed(s', t);
    }
  }

  // ----- a caller can be served -------------------------------------------------------------------

  /** Every event is a step of thread `t`. */
  ghost predicate OnlyMoves(events: seq<Event>, t: nat) {
    forall i :: 0 <= i < |events| ==> events[i].Move? && events[i].thread == t
  }

  /** One more step of thread `t` at the end of a run. */
  lemma Follow(s: State, es: seq<Event>, m: State, t: nat, ch: Choice) returns (es': seq<Event>, m': State)
    requires Exec(s, es) == Some(m) && OnlyMoves(es, t) && Apply(m, Move(t, ch)).Some?
    ensures es' == es + [Move(t, ch)] && OnlyMoves(es', t)
    ensures Some(m') == Apply(m, Move(t, ch)) && Exec(s, es') == Some(m')
  {
    es', m' := es + [Move(t, ch)], Apply(m, Move(t, ch)).value;
    assert es'[..|es|] == es;
  }

  /** Steps of thread `t` alone lead from `s` to a state in which it holds an open client. */
  ghost predicate Served(s: State, events: seq<Event>, t: nat) {
    && OnlyMoves(events, t) && t < |s.threads| && Exec(s, events).Some?
    && var s' := Exec(s, events).value;
       && |s'.threads| == |s.threads| && s'.threads[t].Holding? && s'.threads[t].client in s'.pool.open
       && s'.threads == s.threads[t := s'.threads[t]]
  }

  lemma ServedLater(s: State, es: seq<Event>, m: State, rest: seq<Event>, t: nat)
    requires Exec(s, es) == Some(m) && OnlyMoves(es, t) && Served(m, rest, t)
    requires t < |s.threads| && |m.threads| == |s.threads| && m.threads == s.threads[t := m.threads[t]]
    ensures Served(s, es + rest, t)
  {
    ExecAppend(s, es, rest);
  }

  /** A caller of an open pool that has a client in the channel or a free slot is handed an open client by steps of its
      own, whatever the other threads have done: it never has to wait for one of them. */
  lemma AcquireCanSucceed(s: State, t: nat) returns (events: seq<Event>)
    requires t < |s.threads| && s.threads[t].Idle? && !s.pool.closing
    requires s.pool.queue != [] || s.pool.size < s.pool.count
    ensures Served(s, events, t)
  {
    var es, m := Follow(s, [], s, t, Acquire);
    var rest := EnterSucceeds(m, t);
    ServedLater(s, es, m, rest, t);
    events := es + rest;
  }

  lemma EnterSucceeds(s: State, t: nat) returns (events: seq<Event>)
    requires t < |s.threads| && s.threads[t].Entered? && !s.pool.closing
    requires s.pool.queue != [] || s.pool.size < s.pool.count
    ensures Served(s, events, t)
  {
    var es, m := Follow(s, [], s, t, Proceed);
    var rest;
    if s.pool.queue == [] {
      rest := GrowSucceeds(m, t);
    } else {
      rest := ReceiveSucceeds(m, t);
    }
    ServedLater(s, es, m, rest, t);
    events := es + rest;
  }

  lemma GrowSucceeds(s: State, t: nat) returns (events: seq<Event>)
    requires t < |s.threads| && s.threads[t].Growing? && !s.pool.closing && s.pool.size < s.pool.count
    ensures Served(s, events, t)
  {
    var m;
    events, m := Follow(s, [], s, t, Proceed);
    events, m := Follow(s, events, m, t, Succeed);
    events, m := Follow(s, events, m, t, Proceed);
  }

  lemma ReceiveSucceeds(s: State, t: nat) returns (events: seq<Event>)
    requires t < |s.threads| && s.threads[t].Receiving? && s.pool.queue != []
    ensures Served(s, events, t)
  {
    var es, m := Follow(s, [], s, t, Proceed);
    var rest := CheckSucceeds(m, t);
    ServedLater(s, es, m, rest, t);
    events := es + rest;
  }

  lemma CheckSucceeds(s: State, t: nat) returns (events: seq<Event>)
    requires t < |s.threads| && s.threads[t].Checking?
    ensures Served(s, events, t)
  {
    var m;
    if s.threads[t].client in s.pool.open {
      events, m := Follow(s, [], s, t, Succeed);
    } else {
      events, m := Follow(s, [], s, t, Fail);
      events, m := Follow(s, events, m, t, Proceed);
      events, m := Follow(s, events, m, t, Succeed);
    }
  }
}
