/** The credential cache: how a credential pair becomes a key, and the shared, expiring checks behind Check. */
module CredentialCache {
  import opened Wrappers

  type Bytes = seq<Byte>

  const MAX_LENGTH: int := 0xFFFF_FFFF

  // ----- the message that is authenticated --------------------------------------------------------

  function BigEndian(n: nat): Bytes
    requires n <= MAX_LENGTH
  {
    [n / 0x100_0000, n / 0x1_0000 % 0x100, n / 0x100 % 0x100, n % 0x100]
  }

  function Length(b: Bytes): nat
    requires |b| == 4
  {
    b[0] as int * 0x100_0000 + b[1] as int * 0x1_0000 + b[2] as int * 0x100 + b[3] as int
  }

  lemma LengthInverts(n: nat)
    requires n <= MAX_LENGTH
    ensures Length(BigEndian(n)) == n
  {
    assert n / 0x100 == n / 0x1_0000 * 0x100 + n / 0x100 % 0x100;
    assert n / 0x1_0000 == n / 0x100_0000 * 0x100 + n / 0x1_0000 % 0x100;
  }

  datatype Credential = Credential(username: Bytes, password: Bytes)

  predicate Encodable(c: Credential) {
    |c.password| <= MAX_LENGTH && |c.username| <= MAX_LENGTH
  }

  function Framed(value: Bytes): Bytes
    requires |value| <= MAX_LENGTH
  {
    BigEndian(|value|) + value
  }

  function Message(c: Credential): Bytes
    requires Encodable(c)
  {
    Framed(c.password) + Framed(c.username)
  }

  /** Takes one framed value off the front. */
  function Unframe(m: Bytes): Option<(Bytes, Bytes)> {
    if |m| < 4 then None
    else
      var n := Length(m[..4]);
      if |m| < 4 + n then None else Some((m[4..4 + n], m[4 + n..]))
  }

  function Decode(m: Bytes): Option<Credential> {
    match Unframe(m)
    case None => None
    case Some((password, rest)) =>
      match Unframe(rest)
      case None => None
      case Some((username, rest')) => if rest' == [] then Some(Credential(username, password)) else None
  }

  lemma UnframeInverts(value: Bytes, rest: Bytes)
    requires |value| <= MAX_LENGTH
    ensures Unframe(Framed(value) + rest) == Some((value, rest))
  {
    var m := Framed(value) + rest;
    assert m[..4] == BigEndian(|value|);
    LengthInverts(|value|);
    assert m[4..4 + |value|] == value && m[4 + |value|..] == rest;
  }

  /** The message has an inverse. */
  lemma DecodeInverts(c: Credential)
    requires Encodable(c)
    ensures Decode(Message(c)) == Some(c)
  {
    UnframeInverts(c.password, Framed(c.username));
    UnframeInverts(c.username, []);
    assert Framed(c.username) + [] == Framed(c.username);
  }

  /** Distinct credential pairs never share a message. */
  lemma MessagesDistinct(c: Credential, d: Credential)
    requires Encodable(c) && Encodable(d) && Message(c) == Message(d)
    ensures c == d
  {
    DecodeInverts(c);
    DecodeInverts(d);
  }

  class Digest {
    var written: Bytes

    constructor ()
      ensures written == []
    {
      written := [];
    }

    method WriteDigest(value: Bytes) returns (ok: bool)
      modifies this
      ensures ok <==> |value| <= MAX_LENGTH
      ensures written == if ok then old(written) + Framed(value) else old(written)
    {
      var n := |value|;
      if n > MAX_LENGTH {
        return false;
      }
      written := written + [n / 0x100_0000, n / 0x1_0000 % 0x100, n / 0x100 % 0x100, n % 0x100];
      written := written + value;
      return true;
    }
  }

  /** The message of a credential pair, or an error exactly when a part is too long to be framed. */
  method Sum(username: Bytes, password: Bytes) returns (message: Option<Bytes>)
    ensures message == if Encodable(Credential(username, password)) then Some(Message(Credential(username, password))) else None
  {
    var digest := new Digest();
    var ok := digest.WriteDigest(password);
    if !ok {
      return None;
    }
    assert digest.written == Framed(password);
    ok := digest.WriteDigest(username);
    if !ok {
      return None;
    }
    return Some(digest.written);
  }

  // ----- the cache --------------------------------------------------------------------------------

  datatype Entry = Entry(expires: int, value: Bytes)

  type Values = map<Bytes, Entry>

  /** `valid`, under the mutex: an entry that has expired is removed, any other is compared. */
  function Consult(values: Values, username: Bytes, key: Bytes, now: int): (Values, bool) {
    if username !in values then (values, false)
    else if values[username].expires < now then (values - {username}, false)
    else (values, values[username].value == key)
  }

  class Cache {
    const lifespan: int
    var values: Values

    constructor (lifespan: int)
      ensures this.lifespan == lifespan && values == map[]
    {
      this.lifespan, values := lifespan, map[];
    }

    method Valid(username: Bytes, key: Bytes, now: int) returns (valid: bool, ok: bool)
      modifies this
      ensures (values, valid) == Consult(old(values), username, key, now)
      ensures ok <==> username in values
      ensures valid ==> ok
      ensures ok ==> now <= values[username].expires
    {
      if username !in values {
        return false, false;
      }
      if values[username].expires < now {
        values := values - {username};
        return false, false;
      }
      return values[username].value == key, true;
    }

    method Put(username: Bytes, key: Bytes, now: int)
      modifies this
      ensures values == old(values)[username := Entry(now + lifespan, key)]
    {
      values := values[username := Entry(now + lifespan, key)];
    }
  }

  // ----- concurrent checks ------------------------------------------------------------------------

  /** `mac` stands for the HMAC under the fixed secret. */
  datatype Config = Config(mac: Bytes -> Bytes, lifespan: int)

  ghost predicate Injective(mac: Bytes -> Bytes) {
    forall a, b :: mac(a) == mac(b) ==> a == b
  }

  function Key(cfg: Config, c: Credential): Bytes
    requires Encodable(c)
  {
    cfg.mac(Message(c))
  }

  /** `said` is the record of the provider's answer that is about to be stored. */
  datatype Phase = Looking | Asking | Storing(said: nat)

  /** One shared check; all concurrent calls with the same key wait for it. */
  datatype Flight = Flight(cred: Credential, phase: Phase)

  /** What a call returned, when, and the last record that had been made by then. */
  datatype Answer = Answer(valid: bool, cached: bool, err: bool, at: int, record: int)

  datatype Call = Waiting(cred: Credential) | Answered(cred: Credential, answer: Answer)

  /** What happened, in order. */
  datatype Record =
    | Said(cred: Credential, valid: bool, err: bool, at: int)    // the provider's CheckUserPassword
    | Stored(cred: Credential, said: nat, at: int)               // put, after the answer in record `said`
    | Hit(cred: Credential, at: int)                             // a positive answer from the cache

  datatype State = State(
    values: Values,
    flights: map<Bytes, Flight>,
    calls: map<nat, Call>,
    log: seq<Record>,
    now: int)

  datatype Event =
    | Begin(call: nat, cred: Credential)
    | Look(key: Bytes)
    | Ask(key: Bytes, valid: bool, err: bool)
    | Store(key: Bytes)
    | Tick(passed: nat)

  /** The flight for `key` ends: it is removed and every call waiting for it gets its answer. */
  function Finish(cfg: Config, s: State, key: Bytes, valid: bool, cached: bool, err: bool): State {
    var answer := Answer(valid, cached, err, s.now, |s.log| - 1);
    s.(flights := s.flights - {key},
       calls := map c | c in s.calls :: if WaitsFor(cfg, s.calls[c], key) then Answered(s.calls[c].cred, answer) else s.calls[c])
  }

  predicate WaitsFor(cfg: Config, call: Call, key: Bytes) {
    call.Waiting? && Encodable(call.cred) && Key(cfg, call.cred) == key
  }

  function Begun(cfg: Config, s: State, call: nat, cred: Credential): State {
    if call in s.calls then s
    else if !Encodable(cred) then s.(calls := s.calls[call := Answered(cred, Answer(false, false, true, s.now, |s.log| - 1))])
    else
      var key := Key(cfg, cred);
      s.(calls := s.calls[call := Waiting(cred)],
         flights := if key in s.flights then s.flights else s.flights[key := Flight(cred, Looking)])
  }

  function Looked(cfg: Config, s: State, key: Bytes): State
    requires key in s.flights
  {
    var cred := s.flights[key].cred;
    var (values, hit) := Consult(s.values, cred.username, key, s.now);
    if hit then Finish(cfg, s.(values := values, log := s.log + [Hit(cred, s.now)]), key, true, true, false)
    else s.(values := values, flights := s.flights[key := Flight(cred, Asking)])
  }

  function Asked(cfg: Config, s: State, key: Bytes, valid: bool, err: bool): State
    requires key in s.flights
  {
    var cred := s.flights[key].cred;
    var s' := s.(log := s.log + [Said(cred, valid, err, s.now)]);
    if err || !valid then Finish(cfg, s', key, valid, false, err)
    else s'.(flights := s.flights[key := Flight(cred, Storing(|s.log|))])
  }

  function EntryStored(cfg: Config, s: State, key: Bytes): State
    requires key in s.flights && s.flights[key].phase.Storing?
  {
    var cred := s.flights[key].cred;
    s.(values := s.values[cred.username := Entry(s.now + cfg.lifespan, key)],
       log := s.log + [Stored(cred, s.flights[key].phase.said, s.now)])
  }

  function Put(cfg: Config, s: State, key: Bytes): State
    requires key in s.flights && s.flights[key].phase.Storing?
  {
    Finish(cfg, EntryStored(cfg, s, key), key, true, false, false)
  }

  function Step(cfg: Config, s: State, e: Event): State {
    match e
    case Begin(c, cred) => Begun(cfg, s, c, cred)
    case Look(k) => if k in s.flights && s.flights[k].phase.Looking? then Looked(cfg, s, k) else s
    case Ask(k, v, err) => if k in s.flights && s.flights[k].phase.Asking? then Asked(cfg, s, k, v, err) else s
    case Store(k) => if k in s.flights && s.flights[k].phase.Storing? then Put(cfg, s, k) else s
    case Tick(d) => s.(now := s.now + d)
  }

  function Exec(cfg: Config, start: int, events: seq<Event>): State {
    if events == [] then State(map[], map[], map[], [], start)
    else Step(cfg, Exec(cfg, start, events[..|events| - 1]), events[|events| - 1])
  }

  // ----- what backs an answer ---------------------------------------------------------------------

  /** Record `i` is the provider saying `valid` for `c`, without error, by time `t`. */
  ghost predicate SaidAt(log: seq<Record>, i: int, c: Credential, valid: bool, t: int) {
    0 <= i < |log| && log[i] == Said(c, valid, false, log[i].at) && log[i].at <= t
  }

  /** `c` was stored, among the first `n` records, at a time from which its lifespan covers `t`. */
  ghost predicate StoredFor(log: seq<Record>, n: nat, c: Credential, lifespan: int, t: int) {
    exists i :: 0 <= i < n && i < |log| && log[i].Stored? && log[i].cred == c && log[i].at <= t <= log[i].at + lifespan
  }

  /** No store came from record `said` yet. */
  ghost predicate Unused(log: seq<Record>, said: nat) {
    forall j :: 0 <= j < |log| && log[j].Stored? ==> log[j].said != said
  }

  /** Every store followed a provider success for its credential, no two the same one, and every hit found a store that
      had not outlived its lifespan. */
  ghost predicate LogSound(log: seq<Record>, lifespan: int, now: int) {
    && (forall i :: 0 <= i < |log| ==> log[i].at <= now)
    && (forall i :: 0 <= i < |log| && log[i].Stored? ==> log[i].said < i && SaidAt(log, log[i].said, log[i].cred, true, log[i].at))
    && (forall i, j :: 0 <= i < j < |log| && log[i].Stored? && log[j].Stored? ==> log[i].said != log[j].said)
    && (forall i :: 0 <= i < |log| && log[i].Hit? ==> StoredFor(log, i, log[i].cred, lifespan, log[i].at))
  }

  /** The entry of a user is the key of one of the user's credentials, stored when it says it was. */
  ghost predicate EntryBacked(cfg: Config, log: seq<Record>, username: Bytes, e: Entry) {
    exists i :: 0 <= i < |log| && log[i].Stored? && log[i].cred.username == username && Encodable(log[i].cred)
                && Key(cfg, log[i].cred) == e.value && log[i].at + cfg.lifespan == e.expires
  }

  /** The record an answer was given on, made at the very time of the answer: a hit for a cached one, a store for a
      positive one, the provider's own word for a negative one or an error. Only a pair that is too long is refused
      without any. */
  ghost predicate AnswerBacked(log: seq<Record>, c: Credential, a: Answer) {
    if !Encodable(c) then a.err && !a.valid && !a.cached
    else
      && 0 <= a.record < |log| && log[a.record].at == a.at && log[a.record].cred == c
      && (if a.err then !a.cached && log[a.record] == Said(c, a.valid, true, a.at)
          else if a.cached then a.valid && log[a.record].Hit?
          else if a.valid then log[a.record].Stored?
          else log[a.record] == Said(c, false, false, a.at))
  }

  ghost predicate ValuesBacked(cfg: Config, log: seq<Record>, values: Values) {
    forall u :: u in values ==> EntryBacked(cfg, log, u, values[u])
  }

  ghost predicate FlightRight(cfg: Config, log: seq<Record>, key: Bytes, f: Flight, now: int) {
    && Encodable(f.cred) && Key(cfg, f.cred) == key
    && (f.phase.Storing? ==> SaidAt(log, f.phase.said, f.cred, true, now) && Unused(log, f.phase.said))
  }

  ghost predicate FlightsRight(cfg: Config, log: seq<Record>, flights: map<Bytes, Flight>, now: int) {
    forall k :: k in flights ==> FlightRight(cfg, log, k, flights[k], now)
  }

  ghost predicate CallRight(cfg: Config, log: seq<Record>, flights: map<Bytes, Flight>, call: Call) {
    match call
    case Waiting(c) => Encodable(c) && Key(cfg, c) in flights
    case Answered(c, a) => AnswerBacked(log, c, a)
  }

  ghost predicate CallsRight(cfg: Config, log: seq<Record>, flights: map<Bytes, Flight>, calls: map<nat, Call>) {
    forall c :: c in calls ==> CallRight(cfg, log, flights, calls[c])
  }

  ghost predicate Inv(cfg: Config, s: State) {
    && LogSound(s.log, cfg.lifespan, s.now)
    && ValuesBacked(cfg, s.log, s.values)
    && FlightsRight(cfg, s.log, s.flights, s.now)
    && CallsRight(cfg, s.log, s.flights, s.calls)
  }

  lemma KeysDistinct(cfg: Config, c: Credential, d: Credential)
    requires Injective(cfg.mac) && Encodable(c) && Encodable(d) && Key(cfg, c) == Key(cfg, d)
    ensures c == d
  {
    assert Message(c) == Message(d);
    MessagesDistinct(c, d);
  }

  // A longer log backs what a shorter one did.

  lemma StoredForGrows(log: seq<Record>, r: Record, n: nat, c: Credential, lifespan: int, t: int)
    requires StoredFor(log, n, c, lifespan, t)
    ensures StoredFor(log + [r], n, c, lifespan, t)
  {
    var i :| 0 <= i < n && i < |log| && log[i].Stored? && log[i].cred == c && log[i].at <= t <= log[i].at + lifespan;
    assert (log + [r])[i] == log[i];
  }

  lemma EntryBackedGrows(cfg: Config, log: seq<Record>, r: Record, username: Bytes, e: Entry)
    requires EntryBacked(cfg, log, username, e)
    ensures EntryBacked(cfg, log + [r], username, e)
  {
    var i :| 0 <= i < |log| && log[i].Stored? && log[i].cred.username == username && Encodable(log[i].cred)
             && Key(cfg, log[i].cred) == e.value && log[i].at + cfg.lifespan == e.expires;
    assert (log + [r])[i] == log[i];
  }

  /** What a new record must show. */
  ghost predicate RecordRight(log: seq<Record>, r: Record, lifespan: int, now: int) {
    && r.at == now
    && (r.Stored? ==> SaidAt(log, r.said, r.cred, true, now) && Unused(log, r.said))
    && (r.Hit? ==> StoredFor(log, |log|, r.cred, lifespan, now))
  }

  lemma LogSoundGrows(log: seq<Record>, r: Record, lifespan: int, now: int)
    requires LogSound(log, lifespan, now) && RecordRight(log, r, lifespan, now)
    ensures LogSound(log + [r], lifespan, now)
  {
    var log' := log + [r];
    forall i | 0 <= i < |log'| && log'[i].Hit? ensures StoredFor(log', i, log'[i].cred, lifespan, log'[i].at) {
      StoredForGrows(log, r, i, log'[i].cred, lifespan, log'[i].at);
    }
  }

  /** The new record comes from no answer that a check has yet to store, unless it is that check's own store. */
  lemma FlightsRightGrow(cfg: Config, log: seq<Record>, r: Record, flights: map<Bytes, Flight>, now: int)
    requires FlightsRight(cfg, log, flights, now)
    requires r.Stored? ==> forall k :: k in flights && flights[k].phase.Storing? ==> flights[k].phase.said != r.said
    ensures FlightsRight(cfg, log + [r], flights, now)
  {
    forall k | k in flights ensures FlightRight(cfg, log + [r], k, flights[k], now) {
      assert FlightRight(cfg, log, k, flights[k], now);
    }
  }

  lemma LogGrows(cfg: Config, s: State, r: Record)
    requires Inv(cfg, s) && RecordRight(s.log, r, cfg.lifespan, s.now)
    requires r.Stored? ==> forall k :: k in s.flights && s.flights[k].phase.Storing? ==> s.flights[k].phase.said != r.said
    ensures Inv(cfg, s.(log := s.log + [r]))
  {
    LogSoundGrows(s.log, r, cfg.lifespan, s.now);
    FlightsRightGrow(cfg, s.log, r, s.flights, s.now);
    forall u | u in s.values ensures EntryBacked(cfg, s.log + [r], u, s.values[u]) {
      EntryBackedGrows(cfg, s.log, r, u, s.values[u]);
    }
    forall c | c in s.calls ensures CallRight(cfg, s.log + [r], s.flights, s.calls[c]) {
      assert CallRight(cfg, s.log, s.flights, s.calls[c]);
    }
  }

  /** Every call that shares a flight asked about the flight's own credential, so its answer is theirs. */
  lemma FinishInv(cfg: Config, s: State, key: Bytes, valid: bool, cached: bool, err: bool)
    requires Injective(cfg.mac) && Inv(cfg, s) && key in s.flights
    requires AnswerBacked(s.log, s.flights[key].cred, Answer(valid, cached, err, s.now, |s.log| - 1))
    ensures Inv(cfg, Finish(cfg, s, key, valid, cached, err))
  {
    var s' := Finish(cfg, s, key, valid, cached, err);
    forall c | c in s'.calls ensures CallRight(cfg, s'.log, s'.flights, s'.calls[c]) {
      assert CallRight(cfg, s.log, s.flights, s.calls[c]);
      if WaitsFor(cfg, s.calls[c], key) {
        KeysDistinct(cfg, s.calls[c].cred, s.flights[key].cred);
      }
    }
  }

  /** An entry that answers for a credential was stored for that very credential, and has not outlived its lifespan. */
  lemma HitWasStored(cfg: Config, s: State, cred: Credential)
    requires Injective(cfg.mac) && Inv(cfg, s) && Encodable(cred)
    requires Consult(s.values, cred.username, Key(cfg, cred), s.now).1
    ensures StoredFor(s.log, |s.log|, cred, cfg.lifespan, s.now)
  {
    var e := s.values[cred.username];
    assert EntryBacked(cfg, s.log, cred.username, e);
    var i :| 0 <= i < |s.log| && s.log[i].Stored? && s.log[i].cred.username == cred.username && Encodable(s.log[i].cred)
             && Key(cfg, s.log[i].cred) == e.value && s.log[i].at + cfg.lifespan == e.expires;
    KeysDistinct(cfg, cred, s.log[i].cred);
  }

  lemma FewerValues(cfg: Config, s: State, values: Values)
    requires Inv(cfg, s) && forall u :: u in values ==> u in s.values && values[u] == s.values[u]
    ensures Inv(cfg, s.(values := values))
  {
  }

  lemma NextPhase(cfg: Config, s: State, key: Bytes, phase: Phase)
    requires Inv(cfg, s) && key in s.flights
    requires phase.Storing? ==> SaidAt(s.log, phase.said, s.flights[key].cred, true, s.now) && Unused(s.log, phase.said)
    ensures Inv(cfg, s.(flights := s.flights[key := Flight(s.flights[key].cred, phase)]))
  {
    var s' := s.(flights := s.flights[key := Flight(s.flights[key].cred, phase)]);
    assert FlightRight(cfg, s.log, key, s.flights[key], s.now);
    forall c | c in s.calls ensures CallRight(cfg, s'.log, s'.flights, s'.calls[c]) {
      assert CallRight(cfg, s.log, s.flights, s.calls[c]);
    }
  }

  lemma LookedInv(cfg: Config, s: State, key: Bytes)
    requires Injective(cfg.mac) && Inv(cfg, s) && key in s.flights
    ensures Inv(cfg, Looked(cfg, s, key))
  {
    var cred := s.flights[key].cred;
    var (values, hit) := Consult(s.values, cred.username, key, s.now);
    FewerValues(cfg, s, values);
    var s1 := s.(values := values);
    assert FlightRight(cfg, s.log, key, s.flights[key], s.now);
    if hit {
      HitWasStored(cfg, s, cred);
      LogGrows(cfg, s1, Hit(cred, s.now));
      FinishInv(cfg, s1.(log := s.log + [Hit(cred, s.now)]), key, true, true, false);
    } else {
      NextPhase(cfg, s1, key, Asking);
    }
  }

  lemma AskedInv(cfg: Config, s: State, key: Bytes, valid: bool, err: bool)
    requires Injective(cfg.mac) && Inv(cfg, s) && key in s.flights
    ensures Inv(cfg, Asked(cfg, s, key, valid, err))
  {
    var r := Said(s.flights[key].cred, valid, err, s.now);
    LogGrows(cfg, s, r);
    var s1 := s.(log := s.log + [r]);
    if err || !valid {
      FinishInv(cfg, s1, key, valid, false, err);
    } else {
      assert Unused(s1.log, |s.log|);
      NextPhase(cfg, s1, key, Storing(|s.log|));
    }
  }

  lemma EntryPutInv(cfg: Config, s: State, username: Bytes, e: Entry)
    requires Inv(cfg, s) && EntryBacked(cfg, s.log, username, e)
    ensures Inv(cfg, s.(values := s.values[username := e]))
  {
  }

  lemma StoredEntryBacked(cfg: Config, log: seq<Record>, cred: Credential, said: nat, now: int)
    requires Encodable(cred)
    ensures EntryBacked(cfg, log + [Stored(cred, said, now)], cred.username, Entry(now + cfg.lifespan, Key(cfg, cred)))
  {
    assert (log + [Stored(cred, said, now)])[|log|] == Stored(cred, said, now);
  }

  /** Checks for different keys have had different answers. */
  lemma SaidApart(cfg: Config, s: State, k: Bytes, l: Bytes)
    requires Inv(cfg, s) && k in s.flights && l in s.flights && k != l
    requires s.flights[k].phase.Storing? && s.flights[l].phase.Storing?
    ensures s.flights[k].phase.said != s.flights[l].phase.said
  {
    assert FlightRight(cfg, s.log, k, s.flights[k], s.now) && FlightRight(cfg, s.log, l, s.flights[l], s.now);
  }

  /** The state after the store is recorded, with the check no longer about to store. */
  function Recorded(s: State, key: Bytes): State
    requires key in s.flights && s.flights[key].phase.Storing?
  {
    var f := s.flights[key];
    s.(flights := s.flights[key := Flight(f.cred, Asking)], log := s.log + [Stored(f.cred, f.phase.said, s.now)])
  }

  lemma RecordedInv(cfg: Config, s: State, key: Bytes)
    requires Inv(cfg, s) && key in s.flights && s.flights[key].phase.Storing?
    ensures Inv(cfg, Recorded(s, key))
  {
    var cred, said := s.flights[key].cred, s.flights[key].phase.said;
    assert FlightRight(cfg, s.log, key, s.flights[key], s.now);
    forall k | k in s.flights && k != key && s.flights[k].phase.Storing? ensures s.flights[k].phase.said != said {
      SaidApart(cfg, s, k, key);
    }
    NextPhase(cfg, s, key, Asking);
    LogGrows(cfg, s.(flights := s.flights[key := Flight(cred, Asking)]), Stored(cred, said, s.now));
  }

  function Replaced(cfg: Config, s: State, key: Bytes): State
    requires key in s.flights && s.flights[key].phase.Storing?
  {
    Recorded(s, key).(values := s.values[s.flights[key].cred.username := Entry(s.now + cfg.lifespan, key)])
  }

  lemma ReplacedInv(cfg: Config, s: State, key: Bytes)
    requires Inv(cfg, s) && key in s.flights && s.flights[key].phase.Storing?
    ensures Inv(cfg, Replaced(cfg, s, key))
  {
    RecordedInv(cfg, s, key);
    assert FlightRight(cfg, s.log, key, s.flights[key], s.now);
    StoredEntryBacked(cfg, s.log, s.flights[key].cred, s.flights[key].phase.said, s.now);
    EntryPutInv(cfg, Recorded(s, key), s.flights[key].cred.username, Entry(s.now + cfg.lifespan, key));
  }

  /** Nothing of a flight but the calls waiting for it matters to how it ends. */
  lemma PutIsFinish(cfg: Config, s: State, key: Bytes)
    requires key in s.flights && s.flights[key].phase.Storing? && Encodable(s.flights[key].cred)
    ensures Put(cfg, s, key) == Finish(cfg, Replaced(cfg, s, key), key, true, false, false)
    ensures AnswerBacked(Replaced(cfg, s, key).log, s.flights[key].cred, Answer(true, false, false, s.now, |Replaced(cfg, s, key).log| - 1))
  {
    assert Replaced(cfg, s, key).flights - {key} == s.flights - {key};
  }

  lemma PutInv(cfg: Config, s: State, key: Bytes)
    requires Injective(cfg.mac) && Inv(cfg, s) && key in s.flights && s.flights[key].phase.Storing?
    ensures Inv(cfg, Put(cfg, s, key))
  {
    assert FlightRight(cfg, s.log, key, s.flights[key], s.now);
    ReplacedInv(cfg, s, key);
    PutIsFinish(cfg, s, key);
    FinishInv(cfg, Replaced(cfg, s, key), key, true, false, false);
  }

  lemma TickInv(cfg: Config, s: State, d: nat)
    requires Inv(cfg, s)
    ensures Inv(cfg, s.(now := s.now + d))
  {
    forall k | k in s.flights ensures FlightRight(cfg, s.log, k, s.flights[k], s.now + d) {
      assert FlightRight(cfg, s.log, k, s.flights[k], s.now);
    }
    forall c | c in s.calls ensures CallRight(cfg, s.log, s.flights, s.calls[c]) {
      assert CallRight(cfg, s.log, s.flights, s.calls[c]);
    }
  }

  lemma StepInv(cfg: Config, s: State, e: Event)
    requires Injective(cfg.mac) && Inv(cfg, s)
    ensures Inv(cfg, Step(cfg, s, e))
  {
    match e
    case Begin(c, cred) => BegunInv(cfg, s, c, cred);
    case Look(k) => if k in s.flights { LookedInv(cfg, s, k); }
    case Ask(k, v, err) => if k in s.flights { AskedInv(cfg, s, k, v, err); }
    case Store(k) => if k in s.flights && s.flights[k].phase.Storing? { PutInv(cfg, s, k); }
    case Tick(d) => TickInv(cfg, s, d);
  }

  lemma NewFlightInv(cfg: Config, s: State, cred: Credential)
    requires Inv(cfg, s) && Encodable(cred)
    ensures Inv(cfg, s.(flights := s.flights[Key(cfg, cred) := Flight(cred, Looking)]))
  {
    var s' := s.(flights := s.flights[Key(cfg, cred) := Flight(cred, Looking)]);
    forall c | c in s.calls ensures CallRight(cfg, s'.log, s'.flights, s'.calls[c]) {
      assert CallRight(cfg, s.log, s.flights, s.calls[c]);
    }
  }

  lemma NewCallInv(cfg: Config, s: State, id: nat, call: Call)
    requires Inv(cfg, s) && CallRight(cfg, s.log, s.flights, call)
    ensures Inv(cfg, s.(calls := s.calls[id := call]))
  {
  }

  lemma BegunInv(cfg: Config, s: State, call: nat, cred: Credential)
    requires Inv(cfg, s)
    ensures Inv(cfg, Begun(cfg, s, call, cred))
  {
    if call !in s.calls {
      if !Encodable(cred) {
        NewCallInv(cfg, s, call, Answered(cred, Answer(false, false, true, s.now, |s.log| - 1)));
      } else {
        var s' := s;
        if Key(cfg, cred) !in s.flights {
          NewFlightInv(cfg, s, cred);
          s' := s.(flights := s.flights[Key(cfg, cred) := Flight(cred, Looking)]);
        }
        NewCallInv(cfg, s', call, Waiting(cred));
      }
    }
  }

  lemma {:induction false} ExecInv(cfg: Config, start: int, events: seq<Event>)
    requires Injective(cfg.mac)
    ensures Inv(cfg, Exec(cfg, start, events))
  {
    if events != [] {
      ExecInv(cfg, start, events[..|events| - 1]);
      StepInv(cfg, Exec(cfg, start, events[..|events| - 1]), events[|events| - 1]);
    }
  }

  // ----- theorems ---------------------------------------------------------------------------------

  /** Record `k` is a hit on `cred` at time `t`, record `j` a store of `cred`, no more than the lifespan before `t`, and
      record `i` the provider success that was stored. */
  ghost predicate Chain(log: seq<Record>, cred: Credential, lifespan: int, t: int, i: int, j: int, k: int) {
    && 0 <= i < j < k < |log|
    && log[k] == Hit(cred, t)
    && log[j] == Stored(cred, i, log[j].at) && log[j].at <= t <= log[j].at + lifespan
    && SaidAt(log, i, cred, true, log[j].at)
  }

  /** Every cached positive answer, in every interleaving, rests on a provider success for the same user and password
      that was stored no longer than the lifespan before the time of the answer. */
  lemma CachedAnswersAreBacked(cfg: Config, start: int, events: seq<Event>, call: nat)
    requires Injective(cfg.mac)
    requires var s := Exec(cfg, start, events); call in s.calls && s.calls[call].Answered? && s.calls[call].answer.cached && !s.calls[call].answer.err
    ensures var s := Exec(cfg, start, events);
            var c := s.calls[call];
            exists i, j :: Chain(s.log, c.cred, cfg.lifespan, c.answer.at, i, j, c.answer.record)
  {
    ExecInv(cfg, start, events);
    var s := Exec(cfg, start, events);
    var c := s.calls[call];
    assert CallRight(cfg, s.log, s.flights, c);
    var k := c.answer.record;
    assert StoredFor(s.log, k, c.cred, cfg.lifespan, c.answer.at);
    var j :| 0 <= j < k && s.log[j].Stored? && s.log[j].cred == c.cred && s.log[j].at <= c.answer.at <= s.log[j].at + cfg.lifespan;
    assert Chain(s.log, c.cred, cfg.lifespan, c.answer.at, s.log[j].said, j, k);
  }

  /** An answer carries an error exactly when the pair is too long to be framed or the provider failed on it at that very
      time: a wrong password is no error, and an error is never cached. */
  lemma ErrorsAreTheProviders(cfg: Config, start: int, events: seq<Event>, call: nat)
    requires Injective(cfg.mac)
    requires var s := Exec(cfg, start, events); call in s.calls && s.calls[call].Answered?
    ensures var s := Exec(cfg, start, events);
            var (c, a) := (s.calls[call].cred, s.calls[call].answer);
            && (a.err <==> !Encodable(c) || (0 <= a.record < |s.log| && s.log[a.record] == Said(c, a.valid, true, a.at)))
            && (a.err ==> !a.cached)
  {
    ExecInv(cfg, start, events);
    var s := Exec(cfg, start, events);
    assert CallRight(cfg, s.log, s.flights, s.calls[call]);
  }

  /** No provider success is stored twice, so an entry is renewed only by asking again. */
  lemma EachStoreAsksAgain(cfg: Config, start: int, events: seq<Event>, j: nat, k: nat)
    requires Injective(cfg.mac)
    requires var log := Exec(cfg, start, events).log; j < k < |log| && log[j].Stored? && log[k].Stored?
    ensures var log := Exec(cfg, start, events).log;
            && log[j].said != log[k].said
            && SaidAt(log, log[j].said, log[j].cred, true, log[j].at) && SaidAt(log, log[k].said, log[k].cred, true, log[k].at)
  {
    ExecInv(cfg, start, events);
  }

  /** A stored credential is answered from the cache up to and including the end of its lifespan, no longer, and no other
      password of the user is. */
  lemma HitsUntilExpiry(cfg: Config, s: State, key: Bytes, other: Credential, now: int)
    requires Injective(cfg.mac) && Inv(cfg, s) && key in s.flights && s.flights[key].phase.Storing? && Encodable(other)
    requires other.username == s.flights[key].cred.username
    ensures Consult(EntryStored(cfg, s, key).values, other.username, Key(cfg, other), now).1
            <==> other == s.flights[key].cred && now <= s.now + cfg.lifespan
  {
    assert FlightRight(cfg, s.log, key, s.flights[key], s.now);
    if Key(cfg, other) == key {
      KeysDistinct(cfg, other, s.flights[key].cred);
    }
  }

  /** A user has an entry only if the provider has accepted one of the user's passwords: a negative or failing check
      creates none. */
  lemma EntriesNeedSuccess(cfg: Config, start: int, events: seq<Event>, username: Bytes)
    requires Injective(cfg.mac)
    requires username in Exec(cfg, start, events).values
    ensures var s := Exec(cfg, start, events);
            exists i :: 0 <= i < |s.log| && s.log[i].Said? && s.log[i].cred.username == username && s.log[i].valid && !s.log[i].err
                        && Encodable(s.log[i].cred) && s.values[username].value == Key(cfg, s.log[i].cred)
  {
    ExecInv(cfg, start, events);
    var s := Exec(cfg, start, events);
    assert EntryBacked(cfg, s.log, username, s.values[username]);
    var j :| 0 <= j < |s.log| && s.log[j].Stored? && s.log[j].cred.username == username && Encodable(s.log[j].cred)
             && Key(cfg, s.log[j].cred) == s.values[username].value && s.log[j].at + cfg.lifespan == s.values[username].expires;
    assert SaidAt(s.log, s.log[j].said, s.log[j].cred, true, s.log[j].at);
  }

  /** Against a provider whose verdicts are fixed, Check and CheckUserPassword agree: every answer given without an
      error, cached, shared or fresh, is the provider's verdict on the caller's own credential. */
  lemma CheckAgreesWithProvider(cfg: Config, start: int, events: seq<Event>, call: nat, verdict: Credential -> bool)
    requires Injective(cfg.mac)
    requires var log := Exec(cfg, start, events).log;
             forall i :: 0 <= i < |log| && log[i].Said? && !log[i].err ==> log[i].valid == verdict(log[i].cred)
    requires var s := Exec(cfg, start, events); call in s.calls && s.calls[call].Answered? && !s.calls[call].answer.err
    ensures var c := Exec(cfg, start, events).calls[call];
            c.answer.valid == verdict(c.cred)
  {
    ExecInv(cfg, start, events);
    var c := Exec(cfg, start, events).calls[call];
    var s := Exec(cfg, start, events);
    assert CallRight(cfg, s.log, s.flights, c);
    if c.answer.cached {
      CachedAnswersAreBacked(cfg, start, events, call);
    } else if c.answer.valid {
      assert SaidAt(s.log, s.log[c.answer.record].said, c.cred, true, c.answer.at);
    }
  }
}
