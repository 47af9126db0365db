/** What a caller of Check sees: when the cache answers, when the provider is asked, and how often. */
module CredentialCacheRuns {
  import opened Wrappers
  import opened CredentialCache

  // ----- the latest store stays in the cache ------------------------------------------------------

  /** Record `j` is the last store for the user. */
  ghost predicate LatestStore(log: seq<Record>, username: Bytes, j: int) {
    && 0 <= j < |log| && log[j].Stored? && log[j].cred.username == username
    && forall i :: j < i < |log| && log[i].Stored? ==> log[i].cred.username != username
  }

  lemma LatestGrows(log: seq<Record>, r: Record, username: Bytes, j: int)
    requires LatestStore(log + [r], username, j)
    ensures if r.Stored? && r.cred.username == username then j == |log| else LatestStore(log, username, j)
  {
    var log' := log + [r];
    assert log'[|log|] == r && forall i :: 0 <= i < |log| ==> log'[i] == log[i];
  }

  /** What was stored last for the user, and has not expired, is the user's entry. */
  ghost predicate KeptFor(cfg: Config, s: State, username: Bytes, j: int) {
    LatestStore(s.log, username, j) && s.now <= s.log[j].at + cfg.lifespan ==>
      && Encodable(s.log[j].cred) && username in s.values
      && s.values[username] == Entry(s.log[j].at + cfg.lifespan, Key(cfg, s.log[j].cred))
  }

  ghost predicate Kept(cfg: Config, s: State) {
    forall u, j {:trigger KeptFor(cfg, s, u, j)} :: KeptFor(cfg, s, u, j)
  }

  /** A record that is no store changes nothing, nor does removing what has expired. */
  lemma KeptRecord(cfg: Config, s: State, r: Record, values: Values, u: Bytes, j: int)
    requires KeptFor(cfg, s, u, j) && !r.Stored?
    requires u in s.values && s.now <= s.values[u].expires ==> u in values && values[u] == s.values[u]
    ensures KeptFor(cfg, s.(log := s.log + [r], values := values), u, j) && KeptFor(cfg, s.(values := values), u, j)
  {
    if LatestStore(s.log + [r], u, j) {
      LatestGrows(s.log, r, u, j);
    }
  }

  lemma KeptLooked(cfg: Config, s: State, key: Bytes)
    requires Kept(cfg, s) && key in s.flights
    ensures Kept(cfg, Looked(cfg, s, key))
  {
    var cred := s.flights[key].cred;
    var (values, hit) := Consult(s.values, cred.username, key, s.now);
    forall u, j ensures KeptFor(cfg, Looked(cfg, s, key), u, j) {
      assert KeptFor(cfg, s, u, j);
      KeptRecord(cfg, s, Hit(cred, s.now), values, u, j);
    }
  }

  lemma KeptAsked(cfg: Config, s: State, key: Bytes, valid: bool, err: bool)
    requires Kept(cfg, s) && key in s.flights
    ensures Kept(cfg, Asked(cfg, s, key, valid, err))
  {
    forall u, j ensures KeptFor(cfg, Asked(cfg, s, key, valid, err), u, j) {
      assert KeptFor(cfg, s, u, j);
      KeptRecord(cfg, s, Said(s.flights[key].cred, valid, err, s.now), s.values, u, j);
    }
  }

  lemma KeptPut(cfg: Config, s: State, key: Bytes)
    requires Inv(cfg, s) && Kept(cfg, s) && key in s.flights && s.flights[key].phase.Storing?
    ensures Kept(cfg, Put(cfg, s, key))
  {
    var f := s.flights[key];
    assert FlightRight(cfg, s.log, key, f, s.now);
    var r := Stored(f.cred, f.phase.said, s.now);
    forall u, j ensures KeptFor(cfg, Put(cfg, s, key), u, j) {
      assert KeptFor(cfg, s, u, j);
      if LatestStore(s.log + [r], u, j) {
        LatestGrows(s.log, r, u, j);
      }
    }
  }

  /** Neither a new call nor time changes what is kept. */
  lemma KeptElse(cfg: Config, s: State, s': State)
    requires Kept(cfg, s) && s'.log == s.log && s'.values == s.values && s.now <= s'.now
    ensures Kept(cfg, s')
  {
    forall u, j ensures KeptFor(cfg, s', u, j) {
      assert KeptFor(cfg, s, u, j);
    }
  }

  lemma KeptStep(cfg: Config, s: State, e: Event)
    requires Inv(cfg, s) && Kept(cfg, s)
    ensures Kept(cfg, Step(cfg, s, e))
  {
    match e
    case Begin(c, cred) => KeptElse(cfg, s, Step(cfg, s, e));
    case Look(k) => if k in s.flights { KeptLooked(cfg, s, k); }
    case Ask(k, v, err) => if k in s.flights { KeptAsked(cfg, s, k, v, err); }
    case Store(k) => if k in s.flights && s.flights[k].phase.Storing? { KeptPut(cfg, s, k); }
    case Tick(d) => KeptElse(cfg, s, Step(cfg, s, e));
  }

  lemma {:induction false} ExecKept(cfg: Config, start: int, events: seq<Event>)
    requires Injective(cfg.mac)
    ensures Kept(cfg, Exec(cfg, start, events))
  {
    if events != [] {
      ExecKept(cfg, start, events[..|events| - 1]);
      ExecInv(cfg, start, events[..|events| - 1]);
      KeptStep(cfg, Exec(cfg, start, events[..|events| - 1]), events[|events| - 1]);
    }
  }

  // ----- one call ---------------------------------------------------------------------------------

  lemma ExecTwo(cfg: Config, start: int, events: seq<Event>, d: Event, e: Event)
    ensures Exec(cfg, start, events + [d, e]) == Step(cfg, Step(cfg, Exec(cfg, start, events), d), e)
  {
    var whole := events + [d, e];
    assert whole[..|whole| - 1] == events + [d] && (events + [d])[..|events|] == events;
  }

  /** A call that finds a live entry for its key is answered from the cache, and the provider is not asked. */
  lemma HitAnswers(cfg: Config, s: State, call: nat, cred: Credential)
    requires Encodable(cred) && call !in s.calls && Key(cfg, cred) !in s.flights
    requires cred.username in s.values && s.now <= s.values[cred.username].expires && s.values[cred.username].value == Key(cfg, cred)
    ensures var s' := Step(cfg, Step(cfg, s, Begin(call, cred)), Look(Key(cfg, cred)));
            && call in s'.calls && s'.calls[call] == Answered(cred, Answer(true, true, false, s.now, |s.log|))
            && s'.log == s.log + [Hit(cred, s.now)] && s'.values == s.values && s'.flights == s.flights
  {
    var key := Key(cfg, cred);
    var s1 := Step(cfg, s, Begin(call, cred));
    assert s1.flights[key] == Flight(cred, Looking) && WaitsFor(cfg, s1.calls[call], key);
    assert s1.flights - {key} == s.flights;
  }

  /** In every run a Check within the lifespan of the last store for its user, if that was of the same password, is
      answered from the cache: valid, cached, without error, and without asking the provider. */
  lemma StoredIsCached(cfg: Config, start: int, events: seq<Event>, call: nat, cred: Credential, j: int)
    requires Injective(cfg.mac) && Encodable(cred)
    requires var s := Exec(cfg, start, events);
             && call !in s.calls && Key(cfg, cred) !in s.flights
             && LatestStore(s.log, cred.username, j) && s.log[j].cred == cred && s.now <= s.log[j].at + cfg.lifespan
    ensures var s := Exec(cfg, start, events);
            var s' := Exec(cfg, start, events + [Begin(call, cred), Look(Key(cfg, cred))]);
            && call in s'.calls && s'.calls[call] == Answered(cred, Answer(true, true, false, s.now, |s.log|))
            && s'.log == s.log + [Hit(cred, s.now)]
  {
    var s := Exec(cfg, start, events);
    ExecKept(cfg, start, events);
    assert KeptFor(cfg, s, cred.username, j);
    HitAnswers(cfg, s, call, cred);
    ExecTwo(cfg, start, events, Begin(call, cred), Look(Key(cfg, cred)));
  }

  /** The call has no live entry to find. */
  predicate Misses(cfg: Config, s: State, cred: Credential)
    requires Encodable(cred)
  {
    cred.username in s.values ==> s.values[cred.username].expires < s.now || s.values[cred.username].value != Key(cfg, cred)
  }

  /** The calls waiting for `key` once both `call` and `other` have begun. */
  lemma BothWait(cfg: Config, s: State, call: nat, other: nat, cred: Credential)
    requires Encodable(cred) && call !in s.calls && other !in s.calls && call != other && Key(cfg, cred) !in s.flights && Misses(cfg, s, cred)
    ensures var key := Key(cfg, cred);
            var s' := Step(cfg, Step(cfg, Step(cfg, s, Begin(call, cred)), Begin(other, cred)), Look(key));
            && key in s'.flights && s'.flights[key] == Flight(cred, Asking) && s'.log == s.log && s'.now == s.now
            && call in s'.calls && other in s'.calls && s'.calls[call] == Waiting(cred) && s'.calls[other] == Waiting(cred)
  {
  }

  lemma AllAnswered(cfg: Config, s: State, key: Bytes, valid: bool, err: bool, call: nat)
    requires key in s.flights && s.flights[key].phase.Asking? && call in s.calls && WaitsFor(cfg, s.calls[call], key)
    requires s.calls[call].cred == s.flights[key].cred
    ensures var cred := s.calls[call].cred;
            var s' := Step(cfg, Step(cfg, s, Ask(key, valid, err)), Store(key));
            && call in s'.calls && key !in s'.flights
            && (if valid && !err
                then && s'.calls[call] == Answered(cred, Answer(true, false, false, s.now, |s.log| + 1))
                     && s'.log == s.log + [Said(cred, true, false, s.now), Stored(cred, |s.log|, s.now)]
                     && s'.values == s.values[cred.username := Entry(s.now + cfg.lifespan, key)]
                else && s'.calls[call] == Answered(cred, Answer(valid, false, err, s.now, |s.log|))
                     && s'.log == s.log + [Said(cred, valid, err, s.now)] && s'.values == s.values)
  {
    var s1 := Step(cfg, s, Ask(key, valid, err));
    if valid && !err {
      assert s1.flights[key].phase == Storing(|s.log|) && s1.calls == s.calls;
      assert s1.log + [Stored(s.calls[call].cred, |s.log|, s.now)] ==
             s.log + [Said(s.calls[call].cred, true, false, s.now), Stored(s.calls[call].cred, |s.log|, s.now)];
    } else {
      assert key !in s1.flights;
    }
  }

  /** Two calls for one pair that is not cached share one question: the provider is asked once, both get its verdict or
      its error as it was given, and exactly a success is stored. */
  lemma SharedCheckAsksOnce(cfg: Config, s: State, call: nat, other: nat, cred: Credential, valid: bool, err: bool)
    requires Encodable(cred) && call !in s.calls && other !in s.calls && call != other && Key(cfg, cred) !in s.flights && Misses(cfg, s, cred)
    ensures var key := Key(cfg, cred);
            var s1 := Step(cfg, Step(cfg, Step(cfg, s, Begin(call, cred)), Begin(other, cred)), Look(key));
            var s' := Step(cfg, Step(cfg, s1, Ask(key, valid, err)), Store(key));
            && call in s'.calls && other in s'.calls && s'.calls[call] == s'.calls[other]
            && s'.calls[call].Answered? && s'.calls[call].cred == cred
            && s'.calls[call].answer.valid == valid && s'.calls[call].answer.err == err && !s'.calls[call].answer.cached
            && s'.log == s.log + [Said(cred, valid, err, s.now)] + (if valid && !err then [Stored(cred, |s.log|, s.now)] else [])
            && (valid && !err ==> cred.username in s'.values && s'.values[cred.username] == Entry(s.now + cfg.lifespan, key))
            && (!valid || err ==> forall u :: u in s'.values ==> u in s.values && s'.values[u] == s.values[u])
  {
    var key := Key(cfg, cred);
    BothWait(cfg, s, call, other, cred);
    var s1 := Step(cfg, Step(cfg, Step(cfg, s, Begin(call, cred)), Begin(other, cred)), Look(key));
    AllAnswered(cfg, s1, key, valid, err, call);
    AllAnswered(cfg, s1, key, valid, err, other);
  }

  /** A call that comes while a check for its pair is under way joins it and disturbs nothing. */
  lemma LateCallJoins(cfg: Config, s: State, other: nat, cred: Credential)
    requires Encodable(cred) && other !in s.calls && Key(cfg, cred) in s.flights
    ensures Step(cfg, s, Begin(other, cred)) == s.(calls := s.calls[other := Waiting(cred)])
  {
  }

  /** So however late it comes it gets the answer of that check: after the provider was asked, without asking again. */
  lemma LateCallShares(cfg: Config, s: State, key: Bytes, call: nat, other: nat, valid: bool, err: bool)
    requires key in s.flights && call in s.calls && WaitsFor(cfg, s.calls[call], key) && s.calls[call].cred == s.flights[key].cred
    requires other !in s.calls
    ensures s.flights[key].phase.Asking? ==>
              var s' := Step(cfg, Step(cfg, Step(cfg, s, Begin(other, s.calls[call].cred)), Ask(key, valid, err)), Store(key));
              && call in s'.calls && other in s'.calls && s'.calls[other] == s'.calls[call] && s'.calls[other].Answered?
              && s'.log == s.log + [Said(s.calls[call].cred, valid, err, s.now)]
                           + (if valid && !err then [Stored(s.calls[call].cred, |s.log|, s.now)] else [])
    ensures s.flights[key].phase.Storing? ==>
              var s' := Step(cfg, Step(cfg, s, Begin(other, s.calls[call].cred)), Store(key));
              && call in s'.calls && other in s'.calls && s'.calls[other] == s'.calls[call]
              && s'.calls[other] == Answered(s.calls[call].cred, Answer(true, false, false, s.now, |s.log|))
              && s'.log == s.log + [Stored(s.calls[call].cred, s.flights[key].phase.said, s.now)]
  {
    var cred := s.calls[call].cred;
    LateCallJoins(cfg, s, other, cred);
    var s1 := Step(cfg, s, Begin(other, cred));
    if s.flights[key].phase.Asking? {
      AllAnswered(cfg, s1, key, valid, err, call);
      AllAnswered(cfg, s1, key, valid, err, other);
    }
  }

  /** Once a check has looked, an answer and a store end it. */
  lemma AskedEnds(cfg: Config, s: State, key: Bytes, call: nat)
    requires call in s.calls
    requires s.calls[call].Answered? || (key in s.flights && !s.flights[key].phase.Looking? && WaitsFor(cfg, s.calls[call], key))
    ensures var s' := Step(cfg, Step(cfg, s, Ask(key, true, false)), Store(key));
            call in s'.calls && s'.calls[call].Answered? && s'.calls[call].cred == s.calls[call].cred
  {
    var s1 := Step(cfg, s, Ask(key, true, false));
    assert call in s1.calls && s1.calls[call] == s.calls[call];
    assert s1.calls[call].Waiting? ==> key in s1.flights && s1.flights[key].phase.Storing?;
  }

  lemma LookedWaits(cfg: Config, s: State, key: Bytes, call: nat)
    requires key in s.flights && call in s.calls && WaitsFor(cfg, s.calls[call], key)
    ensures var s' := Step(cfg, s, Look(key));
            && call in s'.calls && s'.calls[call].cred == s.calls[call].cred
            && (s'.calls[call].Answered? || (key in s'.flights && !s'.flights[key].phase.Looking? && WaitsFor(cfg, s'.calls[call], key)))
  {
  }

  /** No call is stuck: from every state of every run one that waits is answered by three steps of its check. */
  lemma WaitingCallsCanFinish(cfg: Config, s: State, call: nat) returns (key: Bytes)
    requires Inv(cfg, s) && call in s.calls && s.calls[call].Waiting?
    ensures var s' := Step(cfg, Step(cfg, Step(cfg, s, Look(key)), Ask(key, true, false)), Store(key));
            call in s'.calls && s'.calls[call].Answered? && s'.calls[call].cred == s.calls[call].cred
  {
    assert CallRight(cfg, s.log, s.flights, s.calls[call]);
    key := Key(cfg, s.calls[call].cred);
    LookedWaits(cfg, s, key, call);
    AskedEnds(cfg, Step(cfg, s, Look(key)), key, call);
  }
}
