/** The promises of the pooled factory, over whole runs. */
module LdapPoolTheorems {
  import opened Wrappers
  import opened LdapPool
  import opened LdapPoolSafety

  // ----- accounting and ownership -----------------------------------------------------------------

  /** `size` is exactly the clients in the channel plus the slots of threads not yet past forget, it never exceeds
      `count`, and a thread about to lower it always finds it positive. */
  lemma SizeIsExact(s: State)
    requires Reachable(s)
    ensures s.pool.size == |s.pool.queue| + Slots(s)
    ensures s.pool.size <= s.pool.count
    ensures forall t :: 0 <= t < |s.threads| && s.threads[t].Forgetting? ==> s.pool.size > 0
  {
    ReachableInv(s);
    forall t | 0 <= t < |s.threads| && s.threads[t].Forgetting? ensures s.pool.size > 0 {
      TotalAtLeast(s.threads, SlotWeight, t);
    }
  }

  /** No two callers hold the same client, and no held client is in the channel, where it could be handed out again. */
  lemma OneOwner(s: State, t: nat, u: nat, c: ClientId)
    requires Reachable(s)
    requires t < |s.threads| && s.threads[t] == Holding(c)
    ensures c !in s.pool.queue
    ensures u < |s.threads| && u != t ==> ClientOf(s.threads[u]) != Some(c)
  {
    ReachableInv(s);
    assert ClientOf(s.threads[t]) == Some(c);
  }

  /** While the pool is open every release finds room, so no client is ever closed as surplus. */
  lemma ReleaseFindsRoom(s: State, t: nat)
    requires Reachable(s)
    requires t < |s.threads| && s.threads[t].Releasing? && !s.pool.closing
    ensures |s.pool.queue| < s.pool.count
    ensures PutBack(s.pool, s.threads[t].client).1
  {
    ReachableInv(s);
    TotalAtLeast(s.threads, SlotWeight, t);
  }

  function ClientWeight(pc: Pc): nat { if ClientOf(pc).Some? then 1 else 0 }

  function ThreadClients(ts: seq<Pc>): (r: set<ClientId>)
    ensures forall t :: 0 <= t < |ts| && ClientOf(ts[t]).Some? ==> ClientOf(ts[t]).value in r
    ensures |r| <= Total(ts, ClientWeight)
  {
    if ts == [] then {}
    else
      var front := ts[..|ts| - 1];
      var last := ClientOf(ts[|ts| - 1]);
      assert forall t :: 0 <= t < |front| ==> ts[t] == front[t];
      if last.Some? then ThreadClients(front) + {last.value} else ThreadClients(front)
  }

  function QueueClients(q: seq<ClientId>): (r: set<ClientId>)
    ensures forall c :: c in q ==> c in r
    ensures |r| <= |q|
  {
    if q == [] then {} else QueueClients(q[1..]) + {q[0]}
  }

  lemma {:induction false} ClientsAreCounted(ts: seq<Pc>)
    ensures Total(ts, ClientWeight) <= Total(ts, SlotWeight) + Total(ts, GhostWeight)
  {
    if ts != [] {
      ClientsAreCounted(ts[..|ts| - 1]);
    }
  }

  lemma SubsetCardinality(a: set<ClientId>, b: set<ClientId>)
    requires a <= b
    ensures |a| <= |b|
  {
    assert |b| == |a| + |b - a| by { assert b == a + (b - a); }
  }

  /** At most `count` connections are open at any moment of any run, refreshing and closing included. */
  lemma OpenConnectionsBounded(s: State)
    requires Reachable(s)
    ensures |s.pool.open| <= s.pool.count
  {
    ReachableInv(s);
    var held, queued := ThreadClients(s.threads), QueueClients(s.pool.queue);
    ClientsAreCounted(s.threads);
    assert s.pool.open <= held + queued;
    SubsetCardinality(s.pool.open, held + queued);
    assert |held + queued| <= |held| + |queued|;
  }

  // ----- closing ----------------------------------------------------------------------------------

  /** `q` is what is left of `p` after taking some clients from its front. */
  ghost predicate SuffixOf(q: seq<ClientId>, p: seq<ClientId>) {
    |q| <= |p| && q == p[|p| - |q|..]
  }

  /** Closing is absorbing: from then on the channel only loses clients and the size never rises. */
  lemma {:induction false} ClosingIsAbsorbing(s: State, events: seq<Event>)
    requires s.pool.closing && Exec(s, events).Some?
    ensures var s' := Exec(s, events).value;
            s'.pool.closing && s'.pool.size <= s.pool.size && SuffixOf(s'.pool.queue, s.pool.queue)
  {
    if events != [] {
      var front, last := events[..|events| - 1], events[|events| - 1];
      ClosingIsAbsorbing(s, front);
      var m := Exec(s, front).value;
      if last.Move? {
        AdvanceClosing(m.pool, m.threads[last.thread], last.choice);
      }
    }
  }

  /** Threads never disappear, and a closing call that is past its drain or has returned stays so. */
  lemma {:induction false} PastDrainPersists(s: State, events: seq<Event>, t: nat)
    requires Exec(s, events).Some? && t < |s.threads| && PastDrain(s.threads[t])
    ensures var s' := Exec(s, events).value;
            |s'.threads| == |s.threads| && PastDrain(s'.threads[t])
            && (s.threads[t].CloseReturned? ==> s'.threads[t] == s.threads[t])
  {
    if events != [] {
      PastDrainPersists(s, events[..|events| - 1], t);
    }
  }

  lemma {:induction false} ExecAppend(s: State, es: seq<Event>, fs: seq<Event>)
    requires Exec(s, es).Some?
    ensures Exec(s, es + fs) == Exec(Exec(s, es).value, fs)
  {
    if fs == [] {
      assert es + fs == es;
    } else {
      ExecAppend(s, es, fs[..|fs| - 1]);
      assert (es + fs)[..|es + fs| - 1] == es + fs[..|fs| - 1];
    }
  }

  lemma ReachableExtends(s: State, events: seq<Event>)
    requires Reachable(s) && Exec(s, events).Some?
    ensures Reachable(Exec(s, events).value)
  {
    var s0, es :| Init(s0) && Exec(s0, es) == Some(s);
    ExecAppend(s0, es, events);
  }

  /** After drain has seen the channel empty it is empty for ever. */
  lemma DrainedForEver(s: State, t: nat, events: seq<Event>)
    requires Reachable(s) && Exec(s, events).Some?
    requires t < |s.threads| && PastDrain(s.threads[t])
    ensures Exec(s, events).value.pool.queue == []
  {
    ReachableExtends(s, events);
    ReachableInv(Exec(s, events).value);
    PastDrainPersists(s, events, t);
  }

  /** Once the closing call has seen size 0, no thread holds a counted client and none is ever handed one again. */
  lemma CleanCloseIsFinal(s: State, t: nat, events: seq<Event>)
    requires Reachable(s) && Exec(s, events).Some?
    requires t < |s.threads| && s.threads[t] == CloseReturned(true)
    ensures var s' := Exec(s, events).value;
            && s'.pool.size == 0 && s'.pool.queue == []
            && forall u :: 0 <= u < |s'.threads| ==> SlotWeight(s'.threads[u]) == 0 && !s'.threads[u].Holding?
  {
    var s' := Exec(s, events).value;
    ReachableExtends(s, events);
    ReachableInv(s');
    PastDrainPersists(s, events, t);
    forall u | 0 <= u < |s'.threads|
      ensures SlotWeight(s'.threads[u]) == 0 && !s'.threads[u].Holding?
    {
      TotalAtLeast(s'.threads, SlotWeight, u);
    }
  }

  /** What a clean Close may leave behind: only connections that a thread has forgotten and is about to close, so
      none at all once no thread lingers there. */
  lemma CleanCloseLeavesOnlyLingering(s: State, t: nat)
    requires Reachable(s)
    requires t < |s.threads| && s.threads[t] == CloseReturned(true)
    ensures |s.pool.open| <= Lingering(s)
    ensures forall c :: c in s.pool.open ==>
              exists v :: 0 <= v < |s.threads| && GhostWeight(s.threads[v]) == 1 && ClientOf(s.threads[v]) == Some(c)
  {
    CleanCloseIsFinal(s, t, []);
    ReachableInv(s);
    TotalZero(s.threads, SlotWeight);
    ClientsAreCounted(s.threads);
    SubsetCardinality(s.pool.open, ThreadClients(s.threads));
    forall c | c in s.pool.open
      ensures exists v :: 0 <= v < |s.threads| && GhostWeight(s.threads[v]) == 1 && ClientOf(s.threads[v]) == Some(c)
    {
      var v :| 0 <= v < |s.threads| && ClientOf(s.threads[v]) == Some(c);
      assert SlotWeight(s.threads[v]) == 0;
    }
  }

  /** So after a clean Close no connection is open exactly when no such thread's client is. */
  lemma CleanCloseAllClosedIff(s: State, t: nat)
    requires Reachable(s)
    requires t < |s.threads| && s.threads[t] == CloseReturned(true)
    ensures s.pool.open == {} <==>
            forall v :: 0 <= v < |s.threads| && GhostWeight(s.threads[v]) == 1 ==> ClientOf(s.threads[v]).value !in s.pool.open
  {
    CleanCloseLeavesOnlyLingering(s, t);
    if c :| c in s.pool.open {
      var v :| 0 <= v < |s.threads| && GhostWeight(s.threads[v]) == 1 && ClientOf(s.threads[v]) == Some(c);
    }
  }

  /** A thread without a slot dials nothing in a closing pool. */
  lemma AdvanceDialsNothing(p: Pool, pc: Pc, ch: Choice)
    requires Advance(p, pc, ch).Some? && p.closing && SlotWeight(pc) == 0
    ensures var (p', _) := Advance(p, pc, ch).value; p'.next == p.next && p'.open <= p.open
  {
  }

  lemma CleanCloseStep(s: State, t: nat, e: Event)
    requires Reachable(s) && t < |s.threads| && s.threads[t] == CloseReturned(true) && Apply(s, e).Some?
    ensures Apply(s, e).value.pool.next == s.pool.next && Apply(s, e).value.pool.open <= s.pool.open
  {
    if e.Move? {
      CleanCloseIsFinal(s, t, []);
      ReachableInv(s);
      assert Closer(s.threads[t]);
      AdvanceDialsNothing(s.pool, s.threads[e.thread], e.choice);
    }
  }

  /** After a clean Close nothing is ever dialed again and connections are only closed. */
  lemma {:induction false} CleanCloseOnlyCloses(s: State, t: nat, events: seq<Event>)
    requires Reachable(s) && Exec(s, events).Some?
    requires t < |s.threads| && s.threads[t] == CloseReturned(true)
    ensures var s' := Exec(s, events).value;
            s'.pool.next == s.pool.next && s'.pool.open <= s.pool.open
  {
    if events != [] {
      var front := events[..|events| - 1];
      CleanCloseOnlyCloses(s, t, front);
      PastDrainPersists(s, front, t);
      ReachableExtends(s, front);
      CleanCloseStep(Exec(s, front).value, t, events[|events| - 1]);
    }
  }

  /** And none is open any more once every other thread has left the factory, nor ever after. */
  lemma CleanCloseThenAllClosed(s: State, t: nat, events: seq<Event>)
    requires Reachable(s) && Exec(s, events).Some?
    requires t < |s.threads| && s.threads[t] == CloseReturned(true)
    requires forall u :: 0 <= u < |s.threads| && u != t ==> s.threads[u].Idle?
    ensures Exec(s, events).value.pool.open == {}
  {
    CleanCloseLeavesOnlyLingering(s, t);
    TotalZero(s.threads, GhostWeight);
    CleanCloseOnlyCloses(s, t, events);
  }

  lemma Take(s: State, e: Event) returns (s': State)
    requires Reachable(s) && Apply(s, e).Some?
    ensures s' == Apply(s, e).value && Reachable(s')
  {
    s' := Apply(s, e).value;
    assert Exec(s, []) == Some(s) && [e][..0] == [];
    assert Exec(s, [e]) == Some(s');
    ReachableExtends(s, [e]);
  }

  lemma ClientTaken() returns (s: State)
    ensures Reachable(s)
    ensures s == State(Pool(1, [], false, 1, false, 1, {0}), [Checking(0), Idle])
  {
    s := State(Pool(1, [0], false, 1, false, 1, {0}), [Idle, Idle]);
    assert Reachable(s) by { assert Init(s) && Exec(s, []) == Some(s); }
    s := Take(s, Move(0, Acquire));
    s := Take(s, Move(0, Proceed));
    s := Take(s, Move(0, Proceed));
  }

  lemma ClientReleased() returns (s: State)
    ensures Reachable(s)
    ensures s == State(Pool(1, [], false, 1, false, 1, {0}), [Releasing(0, ToCaller), Idle])
  {
    s := ClientTaken();
    s := Take(s, Move(0, Succeed));
    s := Take(s, Move(0, Release));
  }

  lemma ReleasedWhileClosing() returns (s: State)
    ensures Reachable(s)
    ensures s == State(Pool(1, [], true, 1, false, 1, {0}), [Releasing(0, ToCaller), WaitReading])
  {
    s := ClientReleased();
    s := Take(s, Move(1, Close));
    s := Take(s, Move(1, Proceed));
  }

  lemma SizeLowered() returns (s: State)
    ensures Reachable(s)
    ensures s == State(Pool(1, [], true, 0, false, 1, {0}), [Signalling(Some(0), ToCaller), WaitReading])
  {
    s := ReleasedWhileClosing();
    s := Take(s, Move(0, Proceed));
    s := Take(s, Move(0, Proceed));
  }

  /** And it can leave one: release lowers the size before it closes the client, so Close may see size 0 and return
      cleanly while the releasing thread still has the connection open. */
  lemma CleanCloseMayPrecedeDisconnect() returns (s: State)
    ensures Reachable(s)
    ensures |s.threads| == 2 && s.threads[1] == CloseReturned(true)
    ensures s.pool.open == {0} && s.threads[0] == Signalling(Some(0), ToCaller)
  {
    s := SizeLowered();
    s := Take(s, Move(1, Proceed));
  }

  // ----- waiting ----------------------------------------------------------------------------------

  /** No lost wake-up: a waiter parked on a count larger than the current size has a token in `wake`, or a thread
      between its decrement and its signal. */
  lemma NoLostWakeup(s: State, t: nat)
    requires Reachable(s)
    requires t < |s.threads| && s.threads[t].Parked?
    ensures s.pool.size <= s.threads[t].outstanding
    ensures s.pool.size < s.threads[t].outstanding ==> WakePending(s)
    ensures s.pool.size == 0 ==> WakePending(s)
  {
    ReachableInv(s);
    ParkedReadsPositive(s, t);
  }

  lemma {:induction false} ParkedPositiveRun(s0: State, events: seq<Event>, t: nat)
    requires Init(s0) && Exec(s0, events).Some?
    requires t < |Exec(s0, events).value.threads| && Exec(s0, events).value.threads[t].Parked?
    ensures Exec(s0, events).value.threads[t].outstanding > 0
  {
    if events != [] {
      var front := events[..|events| - 1];
      if Exec(s0, front).value.threads[t].Parked? {
        ParkedPositiveRun(s0, front, t);
      }
    }
  }

  lemma ParkedReadsPositive(s: State, t: nat)
    requires Reachable(s)
    requires t < |s.threads| && s.threads[t].Parked?
    ensures s.threads[t].outstanding > 0
  {
    var s0, events :| Init(s0) && Exec(s0, events) == Some(s);
    ParkedPositiveRun(s0, events, t);
  }
}
