/**
The pooled LDAP client factory as a transition system.

Any number of threads call GetClient, ReleaseClient and Close. One step is one critical section,
channel operation, dial or client close, so every interleaving the mutex allows is a run.
Dial results, health checks and timeouts are choices of the environment.
*/
module LdapPool {
  import opened Wrappers

  type ClientId = nat

  /** The state the threads share. `done` is closed in the step that sets `closing`, so it needs no field.
      `queue` is the buffered channel, `open` the clients whose connection is up, `next` the next client number. */
  datatype Pool = Pool(
    count: nat,
    queue: seq<ClientId>,
    closing: bool,
    size: nat,
    wake: bool,
    next: nat,
    open: set<ClientId>)

  /** Where control goes when a release or a forget has finished. */
  datatype Resume = ToCaller | ToReceive | ToBackoff | ToDrain

  /** The point a thread has reached; Idle threads are outside the factory and hold nothing. */
  datatype Pc =
    | Idle
    | Entered                                                  // acquire, past the closing check
    | Growing                                                  // grow, before its lock
    | GrowDialing                                              // grow, slot reserved, dialing
    | GrowDialed(client: ClientId)                             // grow, dialed, before its second lock
    | Receiving                                                // acquire, at the select
    | Checking(client: ClientId)                               // acquire, client taken from the channel
    | RefreshClosing(client: ClientId)                         // refresh, about to close the unhealthy client
    | RefreshDialing(client: ClientId)                         // refresh, dialing a replacement
    | BackingOff                                               // backoff
    | Holding(client: ClientId)                                // the caller has the client
    | Releasing(client: ClientId, resume: Resume)              // release, before its lock
    | Forgetting(dropped: Option<ClientId>, resume: Resume)    // forget, before its lock
    | Signalling(dropped: Option<ClientId>, resume: Resume)    // forget, size lowered, wake not yet sent
    | Disconnecting(client: ClientId, resume: Resume)          // about to close a forgotten client
    | Draining                                                 // Close, in drain
    | WaitReading                                              // Close, in wait, about to read size
    | Parked(outstanding: nat)                                 // Close, in wait, at the select
    | CloseReturned(clean: bool)                               // the closing call has returned

  datatype State = State(pool: Pool, threads: seq<Pc>)

  /** What the scheduler and the environment pick: an operation to call, or how the pending one turns out. */
  datatype Choice = Acquire | Release | Close | Proceed | Succeed | Fail | GiveUp

  datatype Event = Move(thread: nat, choice: Choice) | Drop(client: ClientId)

  // ----- the critical sections and channel operations ---------------------------------------------

  /** The locked part of release: hand the client back unless the pool is closing or full. */
  function PutBack(p: Pool, c: ClientId): (Pool, bool) {
    if !p.closing && |p.queue| < p.count then (p.(queue := p.queue + [c]), true) else (p, false)
  }

  /** The locked part of forget. */
  function LowerSize(p: Pool): Pool {
    if p.size > 0 then p.(size := p.size - 1) else p
  }

  /** The first locked part of grow: reserve a slot. */
  function Reserve(p: Pool): (Pool, bool) {
    if p.closing || p.size >= p.count then (p, false) else (p.(size := p.size + 1), true)
  }

  function Dial(p: Pool): Pool {
    p.(next := p.next + 1, open := p.open + {p.next})
  }

  function Disconnect(p: Pool, c: ClientId): Pool {
    p.(open := p.open - {c})
  }

  function Resumed(r: Resume): Pc {
    match r
    case ToCaller => Idle
    case ToReceive => Receiving
    case ToBackoff => BackingOff
    case ToDrain => Draining
  }

  // ----- steps ------------------------------------------------------------------------------------

  /** One step of a thread; None when the choice does not apply at this point. */
  function Advance(p: Pool, pc: Pc, ch: Choice): Option<(Pool, Pc)> {
    match pc
    case Idle =>
      if ch.Acquire? then Some((p, if p.closing then Idle else Entered))
      else if ch.Close? then Some(if p.closing then (p, Idle) else (p.(closing := true), Draining))
      else None
    case Entered =>
      if ch.Proceed? then Some((p, if |p.queue| == 0 then Growing else Receiving)) else None
    case Growing =>
      if !ch.Proceed? then None
      else var (p', reserved) := Reserve(p);
        Some((p', if reserved then GrowDialing else Receiving))
    case GrowDialing =>
      if ch.Succeed? then Some((Dial(p), GrowDialed(p.next)))
      else if ch.Fail? then Some((p, Forgetting(None, ToReceive)))
      else None
    case GrowDialed(c) =>
      if ch.Proceed? then Some((p, if p.closing then Forgetting(Some(c), ToReceive) else Holding(c))) else None
    case Receiving =>
      // GiveUp is the context expiring, which may happen at any time, or `done` being closed.
      if ch.Proceed? && |p.queue| > 0 then Some((p.(queue := p.queue[1..]), Checking(p.queue[0])))
      else if ch.GiveUp? then Some((p, Idle))
      else None
    case Checking(c) =>
      // A client whose connection is down is never healthy.
      if ch.Succeed? && c in p.open then Some((p, Holding(c)))
      else if ch.Fail? then Some((p, RefreshClosing(c)))
      else None
    case RefreshClosing(c) =>
      if ch.Proceed? then Some((Disconnect(p, c), RefreshDialing(c))) else None
    case RefreshDialing(c) =>
      if ch.Succeed? then Some((Dial(p), Holding(p.next)))
      else if ch.Fail? then Some((p, Releasing(c, ToBackoff)))
      else None
    case BackingOff =>
      if ch.Proceed? then Some((p, Receiving))
      else if ch.GiveUp? then Some((p, Idle))
      else None
    case Holding(c) =>
      if ch.Release? then Some((p, Releasing(c, ToCaller))) else None
    case Releasing(c, r) =>
      if !ch.Proceed? then None
      else var (p', kept) := PutBack(p, c);
        Some((p', if kept then Resumed(r) else Forgetting(Some(c), r)))
    case Forgetting(d, r) =>
      if ch.Proceed? then Some((LowerSize(p), Signalling(d, r))) else None
    case Signalling(d, r) =>
      if ch.Proceed? then Some((p.(wake := true), if d.Some? then Disconnecting(d.value, r) else Resumed(r))) else None
    case Disconnecting(c, r) =>
      if ch.Proceed? then Some((Disconnect(p, c), Resumed(r))) else None
    case Draining =>
      if !ch.Proceed? then None
      else if |p.queue| > 0 then Some((p.(queue := p.queue[1..]), Forgetting(Some(p.queue[0]), ToDrain)))
      else Some((p, WaitReading))
    case WaitReading =>
      if ch.Proceed? then Some((p, if p.size == 0 then CloseReturned(true) else Parked(p.size))) else None
    case Parked(_) =>
      if ch.Proceed? && p.wake then Some((p.(wake := false), WaitReading))
      else if ch.GiveUp? then Some((p, CloseReturned(false)))
      else None
    case CloseReturned(_) => None
  }

  /** A step of the system: a thread moves, or a connection is lost from outside. */
  function Apply(s: State, e: Event): Option<State> {
    match e
    case Move(t, ch) =>
      if t < |s.threads| then
        match Advance(s.pool, s.threads[t], ch)
        case None => None
        case Some((p, pc)) => Some(State(p, s.threads[t := pc]))
      else None
    case Drop(c) => Some(s.(pool := Disconnect(s.pool, c)))
  }

  /** The state a run of events leads to, when every event applies. */
  function Exec(s: State, events: seq<Event>): Option<State> {
    if events == [] then Some(s)
    else
      match Exec(s, events[..|events| - 1])
      case None => None
      case Some(m) => Apply(m, events[|events| - 1])
  }

  ghost predicate Distinct(q: seq<ClientId>) {
    forall i, j :: 0 <= i < j < |q| ==> q[i] != q[j]
  }

  /** The pools Initialize leaves: each client in the channel was dialed and counted once. */
  ghost predicate Initialized(p: Pool) {
    && !p.closing && !p.wake
    && p.size == |p.queue| <= p.count
    && Distinct(p.queue)
    && (forall c :: c in p.queue ==> c < p.next)
    && (forall c :: c in p.open ==> c in p.queue)
  }

  ghost predicate Init(s: State) {
    && Initialized(s.pool)
    && (forall t :: 0 <= t < |s.threads| ==> s.threads[t].Idle?)
  }

  /** `s` occurs in some run from a state Initialize returned in. */
  ghost predicate Reachable(s: State) {
    exists s0, events :: Init(s0) && Exec(s0, events) == Some(s)
  }
}
