/** The factory object itself: Initialize, and the sections each thread runs under the mutex, proved to be the
    steps of the transition system. */
module LdapPoolFactory {
  import opened Wrappers
  import opened LdapPool

  datatype Error = PoolClosedInitialize | NoConnections

  const DEFAULT_COUNT: nat := 5

  function Successes(dials: seq<bool>): nat {
    if dials == [] then 0 else Successes(dials[..|dials| - 1]) + if dials[|dials| - 1] then 1 else 0
  }

  class PooledLDAPClientFactory {
    const count: nat
    var made: bool              // the channel exists
    var queue: seq<ClientId>
    var closing: bool
    var size: nat
    var wake: bool
    var next: nat
    var open: set<ClientId>

    ghost function View(): Pool
      reads this
    {
      Pool(count, queue, closing, size, wake, next, open)
    }

    /** `configured` is the pooling count of the configuration. */
    constructor (configured: int)
      ensures count == if configured > 0 then configured else DEFAULT_COUNT
      ensures count > 0 && !made && View() == Pool(count, [], false, 0, false, 0, {})
    {
      count := if configured <= 0 then DEFAULT_COUNT else configured;
      made, queue, closing, size, wake, next, open := false, [], false, 0, false, 0, {};
    }

    /** Fills the pool, one dial per slot; `dials` says which of them succeed. Another thread may call Close meanwhile:
        `closed` says from which turn on the lock finds the pool closing. A first call on an open factory leaves a state
        every run may start from, or that state with Close begun. It holds one client per dial that succeeded before the
        pool was closing; a client dialed after that is closed again and ends the call. It fails for want of
        connections exactly when no dial succeeds. */
    method Initialize(dials: seq<bool>, closed: nat) returns (err: Option<Error>)
      requires |dials| == count
      requires !made ==> View() == Pool(count, [], closing, 0, false, 0, {})
      modifies this
      ensures old(closing) ==> err == Some(PoolClosedInitialize) && unchanged(this)
      ensures !old(closing) && old(made) ==> err == None && unchanged(this)
      ensures !old(closing) && !old(made) ==>
                && made && closing == (closed < count)
                && Initialized(View().(closing := false))
                && size == |queue| == Successes(dials[..if closed < count then closed else count])
                && open == (set c | c in queue)
                && (err == Some(PoolClosedInitialize) <==> exists i :: closed <= i < |dials| && dials[i])
                && (err == Some(NoConnections) <==> forall i :: 0 <= i < |dials| ==> !dials[i])
    {
      if closing {
        return Some(PoolClosedInitialize);
      }
      if made {
        return None;
      }
      made := true;
      var failures := 0;
      for i := 0 to count
        invariant made && !wake && closing == (closed < i)
        invariant size == |queue| == next && open == set c | c in queue
        invariant forall k :: 0 <= k < |queue| ==> queue[k] == k
        invariant size == Successes(dials[..if closed < i then closed else i]) && failures == i - size
        invariant forall k :: closed <= k < i ==> !dials[k]
        invariant failures == i <==> forall k :: 0 <= k < i ==> !dials[k]
      {
        assert dials[..i + 1][..i] == dials[..i];
        // The other thread's Close, if it comes in this turn.
        if closed == i {
          closing := true;
        }
        if !dials[i] {
          failures := failures + 1;
        } else {
          var client := next;
          next, open := next + 1, open + {client};
          if closing {
            open := open - {client};
            return Some(PoolClosedInitialize);
          }
          queue, size := queue + [client], size + 1;
        }
      }
      assert dials[..count] == dials;
      if failures == count {
        return Some(NoConnections);
      }
      return None;
    }

    /** release, under the mutex. */
    method ReleaseSection(c: ClientId) returns (kept: bool)
      modifies this`queue
      ensures (View(), kept) == PutBack(old(View()), c)
    {
      kept := false;
      if !closing && |queue| < count {
        queue, kept := queue + [c], true;
      }
    }

    /** forget, under the mutex. */
    method ForgetSection()
      modifies this`size
      ensures View() == LowerSize(old(View()))
    {
      if size > 0 {
        size := size - 1;
      }
    }

    /** grow, under the mutex the first time. */
    method GrowSection() returns (reserved: bool)
      modifies this`size
      ensures (View(), reserved) == Reserve(old(View()))
    {
      reserved := !closing && size < count;
      if reserved {
        size := size + 1;
      }
    }

    /** drain run to its end, as it does once nothing else touches the channel: every queued client is forgotten and
        closed, and nothing else is. `failing` are the clients whose close reports an error. */
    method Drain(failing: set<ClientId>) returns (errs: seq<ClientId>)
      requires closing && |queue| <= size
      modifies this
      ensures closing && queue == []
      ensures size == old(size) - |old(queue)|
      ensures open == old(open) - set c | c in old(queue)
      ensures made == old(made) && next == old(next)
      ensures old(queue) != [] ==> wake
      ensures forall c :: c in errs <==> c in old(queue) && c in old(open) && c in failing
    {
      errs := [];
      ghost var taken := 0;
      while |queue| > 0
        invariant closing && made == old(made) && next == old(next)
        invariant 0 <= taken <= |old(queue)| && queue == old(queue)[taken..]
        invariant size == old(size) - taken
        invariant open == old(open) - set c | c in old(queue)[..taken]
        invariant taken > 0 ==> wake
        invariant forall c :: c in errs <==> c in old(queue)[..taken] && c in old(open) && c in failing
      {
        var client := queue[0];
        assert old(queue)[..taken + 1] == old(queue)[..taken] + [client];
        queue := queue[1..];
        ForgetSection();
        wake := true;
        if client in open {
          open := open - {client};
          if client in failing {
            errs := errs + [client];
          }
        }
        taken := taken + 1;
      }
      assert old(queue)[..taken] == old(queue);
    }
  }
}
