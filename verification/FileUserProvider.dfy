/** The file provider's calls as clients of the database, alone and interleaved. */
module FileUserProvider {
  import opened Wrappers
  import opened Text
  import opened UserDatabase
  import opened UserStore
  import opened FileUserDatabase
  import File = DatabaseFile

  /** What UpdatePassword asks of the record it finds at its commit point. */
  function SetPassword(digest: string): Details -> Option<Details> {
    (d: Details) => if d.disabled then None else Some(d.(password := digest))
  }

  /** What AdminUpdateUser asks: the given fields replaced, the others kept. */
  datatype AdminChange = AdminChange(displayName: Option<string>, email: Option<string>, groups: Option<seq<string>>, disabled: Option<bool>)

  function Edit(change: AdminChange): Details -> Option<Details> {
    (d: Details) => Some(d.(
      displayName := if change.displayName.Some? then change.displayName.value else d.displayName,
      email := if change.email.Some? then change.email.value else d.email,
      groups := if change.groups.Some? then change.groups.value else d.groups,
      disabled := if change.disabled.Some? then change.disabled.value else d.disabled))
  }

  predicate Blank(s: string) { TrimSpace(s) == "" }

  datatype Reply = Ok | OperationFailed | Exists | Missing | Weak | Failed

  const COOLDOWN: int := 500_000_000

  class Provider {
    const database: Database
    var timeoutReload: int      // nanoseconds

    constructor (database: Database, now: int)
      ensures this.database == database && timeoutReload == now - 1_000_000_000
    {
      this.database, timeoutReload := database, now - 1_000_000_000;
    }

    /** `digest` is the hash of the password, None if hashing fails. */
    method CreateUser(details: Details, digest: Option<string>, now: int, io: File.Io) returns (reply: Reply)
      requires io.tempName != database.path && io.tempName !in database.dir
      modifies this, database
      ensures !Acceptable(details, digest) ==> !reply.Ok? && database.View() == old(database.View())
      ensures Acceptable(details, digest) ==>
                var (st, outcome) := Create(old(database.View()), database.search, details.username, Stored(details, digest), io.fault);
                database.View() == st && (reply.Ok? <==> outcome.Done?) && (reply.Exists? <==> outcome.AlreadyExists?)
      ensures reply.Ok? ==>
                && details.username in database.users
                && var user := database.users[details.username];
                   && user.username == details.username && user.displayName == details.displayName && user.email == details.email
                   && user.groups == details.groups && user.disabled == details.disabled
                   && (if details.password == "" then user.password == "" else Some(user.password) == digest)
      ensures if Blank(details.username) || Blank(details.displayName) || Blank(details.email) then reply.OperationFailed?
              else if Lookup(old(database.View()).memory, database.search, details.username).Some? then reply.Exists?
              else if !Acceptable(details, digest) then reply.OperationFailed?
              else reply.Ok? || reply.Exists? || reply.OperationFailed?
      ensures timeoutReload == if reply.Ok? then now + COOLDOWN else old(timeoutReload)
    {
      if Blank(details.username) || Blank(details.displayName) || Blank(details.email) {
        return OperationFailed;
      }
      if Lookup(Memory(database.users, database.emails, database.aliases), database.search, details.username).Some? {
        return Exists;
      }
      if details.password != "" && (Blank(details.password) || digest.None?) {
        return OperationFailed;
      }
      var outcome, _ := database.CreateUserDetails(details.username, Some(Stored(details, digest)), io);
      if outcome.AlreadyExists? {
        return Exists;
      }
      if !outcome.Done? {
        return OperationFailed;
      }
      timeoutReload := now + COOLDOWN;
      return Ok;
    }

    method AdminUpdateUser(username: string, change: AdminChange, now: int, io: File.Io) returns (reply: Reply)
      requires io.tempName != database.path && io.tempName !in database.dir
      modifies this, database
      ensures change.email.Some? && Blank(change.email.value) ==> reply.OperationFailed? && database.View() == old(database.View())
      ensures !(change.email.Some? && Blank(change.email.value)) ==>
                var (st, outcome) := Update(old(database.View()), database.search, username, Edit(change), io.fault);
                database.View() == st && (reply.Ok? <==> outcome.Done?)
      ensures reply.Ok? ==>
                var key := Lookup(old(database.View()).memory, database.search, username);
                && key.Some? && key.value in old(database.users) && key.value in database.users
                && database.users - {key.value} == old(database.users) - {key.value}
                && var (before, after) := (old(database.users)[key.value], database.users[key.value]);
                   && (if change.displayName.Some? then Some(after.displayName) == change.displayName else after.displayName == before.displayName)
                   && (if change.email.Some? then Some(after.email) == change.email else after.email == before.email)
                   && (if change.groups.Some? then Some(after.groups) == change.groups else after.groups == before.groups)
                   && (if change.disabled.Some? then Some(after.disabled) == change.disabled else after.disabled == before.disabled)
                   && after.password == before.password
      ensures timeoutReload == if reply.Ok? then now + COOLDOWN else old(timeoutReload)
    {
      if change.email.Some? && Blank(change.email.value) {
        return OperationFailed;
      }
      var user, outcome, _ := database.UpdateUserDetails(username, Edit(change), io);
      if !outcome.Done? {
        return Failed;
      }
      timeoutReload := now + COOLDOWN;
      return Ok;
    }

    method AdminDeleteUser(username: string, now: int, io: File.Io) returns (reply: Reply)
      requires io.tempName != database.path && io.tempName !in database.dir
      modifies this, database
      ensures var (st, outcome) := Delete(old(database.View()), database.search, username, io.fault);
              && database.View() == st && (reply.Ok? <==> outcome.Done?)
              && (reply.Missing? <==> outcome.NotFound?)
      ensures reply.Ok? ==>
                var key := Lookup(old(database.View()).memory, database.search, username);
                key.Some? && key.value in old(database.users) && database.users == old(database.users) - {key.value}
      ensures timeoutReload == if reply.Ok? then now + COOLDOWN else old(timeoutReload)
    {
      var outcome, _ := database.DeleteUserDetails(username, io);
      if !outcome.Done? {
        return if outcome.NotFound? then Missing else Failed;
      }
      timeoutReload := now + COOLDOWN;
      return Ok;
    }

    method UpdatePassword(username: string, newPassword: string, digest: Option<string>, now: int, io: File.Io) returns (reply: Reply)
      requires io.tempName != database.path && io.tempName !in database.dir
      modifies this, database
      ensures Blank(newPassword) ==> reply.Weak?
      ensures Blank(newPassword) || digest.None? ==> !reply.Ok? && database.View() == old(database.View())
      ensures !Blank(newPassword) && digest.Some? ==>
                var (st, outcome) := Update(old(database.View()), database.search, username, SetPassword(digest.value), io.fault);
                && database.View() == st && (reply.Ok? <==> outcome.Done?)
                && (reply.Missing? <==> outcome.NotFound? || outcome.Rejected?) && !reply.Weak?
      ensures reply.Ok? ==>
                var key := Lookup(old(database.View()).memory, database.search, username);
                && key.Some? && key.value in old(database.users) && !old(database.users)[key.value].disabled
                && key.value in database.users && digest.Some?
                && database.users[key.value] == old(database.users)[key.value].(username := key.value, password := digest.value)
                && database.users - {key.value} == old(database.users) - {key.value}
      ensures timeoutReload == if reply.Ok? then now + COOLDOWN else old(timeoutReload)
    {
      if Blank(newPassword) {
        return Weak;
      }
      if digest.None? {
        return Failed;
      }
      var user, outcome, _ := database.UpdateUserDetails(username, SetPassword(digest.value), io);
      if !outcome.Done? {
        return if outcome.NotFound? || outcome.Rejected? then Missing else Failed;
      }
      timeoutReload := now + COOLDOWN;
      return Ok;
    }
  }

  /** What CreateUser demands before it turns to the database. */
  predicate Acceptable(details: Details, digest: Option<string>) {
    && !Blank(details.username) && !Blank(details.displayName) && !Blank(details.email)
    && (details.password != "" ==> !Blank(details.password) && digest.Some?)
  }

  function Stored(details: Details, digest: Option<string>): Details {
    details.(password := if details.password != "" && digest.Some? then digest.value else "")
  }

  /** Blank is all white space, or nothing. */
  lemma BlankIsAllSpace(s: string)
    ensures Blank(s) <==> AllSpace(s)
  {
    TrimSpaceEmpty(s);
  }

  // ----- interleaved calls ------------------------------------------------------------------------

  /** The database, and the CreateUser calls that have passed their unlocked check and not yet committed. */
  datatype Calls = Calls(store: Store, pending: map<nat, (string, Details)>)

  datatype Event =
    | Check(call: nat, username: string, details: Details)
    | CommitCreate(call: nat, fault: Option<File.Step>)
    | CommitChange(username: string, change: Details -> Option<Details>, fault: Option<File.Step>)
    | CommitPassword(username: string, digest: string, fault: Option<File.Step>)
    | CommitDelete(username: string, fault: Option<File.Step>)

  /** The database operation an event performs, if it gets that far. */
  ghost function OpOf(s: Calls, e: Event): Option<Op> {
    match e
    case Check(_, _, _) => None
    case CommitCreate(c, f) => if c in s.pending then Some(CreateOp(s.pending[c].0, s.pending[c].1, f)) else None
    case CommitChange(u, c, f) => Some(UpdateOp(u, c, f))
    case CommitPassword(u, d, f) => Some(UpdateOp(u, SetPassword(d), f))
    case CommitDelete(u, f) => Some(DeleteOp(u, f))
  }

  ghost function Step(s: Calls, search: Search, e: Event): Calls {
    match e
    case Check(c, u, d) =>
      if Lookup(s.store.memory, search, u).Some? then s else s.(pending := s.pending[c := (u, d)])
    case _ =>
      var op := OpOf(s, e);
      if op.None? then s
      else Calls(Apply(s.store, search, op.value).0, if e.CommitCreate? then s.pending - {e.call} else s.pending)
  }

  ghost function Exec(s: Calls, search: Search, events: seq<Event>): Calls {
    if events == [] then s else Step(Exec(s, search, events[..|events| - 1]), search, events[|events| - 1])
  }

  ghost function Ops(s: Calls, search: Search, events: seq<Event>): seq<Op> {
    if events == [] then []
    else
      var front := events[..|events| - 1];
      var op := OpOf(Exec(s, search, front), events[|events| - 1]);
      Ops(s, search, front) + if op.Some? then [op.value] else []
  }

  /** How many CreateUser calls for `username` have returned nil. */
  ghost function NilReturns(s: Calls, search: Search, events: seq<Event>, username: string): nat {
    if events == [] then 0
    else
      var front, e := events[..|events| - 1], events[|events| - 1];
      var m := Exec(s, search, front);
      NilReturns(s, search, front, username) +
      Count(e.CommitCreate? && e.call in m.pending && m.pending[e.call].0 == username
            && Apply(m.store, search, OpOf(m, e).value).1.Done?)
  }

  lemma RunExtends(st: Store, search: Search, ops: seq<Op>, op: Op, username: string)
    ensures Run(st, search, ops + [op]) == Apply(Run(st, search, ops), search, op).0
    ensures Creations(st, search, ops + [op], username) == Creations(st, search, ops, username) +
              Count(op.CreateOp? && op.username == username && Apply(Run(st, search, ops), search, op).1.Done?)
  {
    assert (ops + [op])[..|ops|] == ops;
  }

  /** Every interleaving of calls is, for the database, a run of its atomic operations. */
  lemma {:induction false} ExecIsRun(s: Calls, search: Search, events: seq<Event>, username: string)
    ensures Exec(s, search, events).store == Run(s.store, search, Ops(s, search, events))
    ensures NilReturns(s, search, events, username) == Creations(s.store, search, Ops(s, search, events), username)
  {
    if events != [] {
      var front, e := events[..|events| - 1], events[|events| - 1];
      ExecIsRun(s, search, front, username);
      var ops := Ops(s, search, front);
      var op := OpOf(Exec(s, search, front), e);
      if op.Some? {
        RunExtends(s.store, search, ops, op.value, username);
      } else {
        assert Ops(s, search, events) == ops;
      }
    }
  }

  /** At most one CreateUser for a username returns nil, however calls interleave, unless the user is deleted in
      between; and none does if the user was there already. */
  lemma AtMostOneCreateSucceeds(s: Calls, search: Search, events: seq<Event>, username: string)
    requires Sound(s.store, search)
    requires Deletions(s.store, search, Ops(s, search, events), username) == 0
    ensures NilReturns(s, search, events, username) <= 1
    ensures username in s.store.memory.users ==> NilReturns(s, search, events, username) == 0
    ensures NilReturns(s, search, events, username) == 1 ==> username in Exec(s, search, events).store.memory.users
  {
    ExecIsRun(s, search, events, username);
    CreationsBalance(s.store, search, Ops(s, search, events), username);
  }

  /** In every interleaving, a password is only ever set on a record that is enabled at the commit point, and then
      nothing but that record's password changes; a disabled record is left as it is, in memory and on disk. */
  lemma PasswordOnlyWhenEnabled(s: Calls, search: Search, events: seq<Event>, username: string, digest: string, fault: Option<File.Step>)
    requires Sound(s.store, search)
    ensures var before := Exec(s, search, events);
            var after := Exec(s, search, events + [CommitPassword(username, digest, fault)]);
            var users, users' := before.store.memory.users, after.store.memory.users;
            var key := Lookup(before.store.memory, search, username);
            && Sound(after.store, search)
            && (users' != users ==> key.Some? && !users[key.value].disabled && users' == users[key.value := users[key.value].(username := key.value, password := digest)])
            && (key.Some? && users[key.value].disabled ==> after.store == before.store)
  {
    var e := CommitPassword(username, digest, fault);
    assert (events + [e])[..|events|] == events;
    ExecIsRun(s, search, events, username);
    RunSound(s.store, search, Ops(s, search, events));
    ApplySound(Exec(s, search, events).store, search, UpdateOp(username, SetPassword(digest), fault));
  }

  /** Which provider calls can leave a file that does not load: setting a password never does, nor creating a user, whose
      display name must not be blank; updating a user does exactly when it is given an empty display name. */
  lemma CallsThatUnload(st: Store, search: Search, username: string, digest: string, details: Details, hash: Option<string>, change: AdminChange, fault: Option<File.Step>)
    requires SchemaValid(st.memory.users)
    ensures !Unloads(st, search, UpdateOp(username, SetPassword(digest), fault))
    ensures Acceptable(details, hash) ==> !Unloads(st, search, CreateOp(username, Stored(details, hash), fault))
    ensures var op := UpdateOp(username, Edit(change), fault);
            Unloads(st, search, op) <==> Saves(st, search, op) && change.displayName == Some("")
  {
  }

  /** As in giving the only user an empty display name, which AdminUpdateUser accepts. */
  lemma EmptyDisplayNameUnloads() returns (st: Store, search: Search, op: Op)
    ensures Sound(st, search) && InStep(st) && Restartable(st, search)
    ensures op == UpdateOp("a", Edit(AdminChange(Some(""), None, None, None)), None)
    ensures Apply(st, search, op).1.Done? && !Restartable(Apply(st, search, op).0, search)
  {
    st, search, op := DisplayNameTakenUnloads("a", "A", Edit(AdminChange(Some(""), None, None, None)));
  }

  /** Exactly when a password change goes through: the name finds a user, who is enabled, and the write succeeds. */
  lemma PasswordSucceedsIff(st: Store, search: Search, username: string, digest: string, fault: Option<File.Step>)
    requires Sound(st, search)
    ensures Update(st, search, username, SetPassword(digest), fault).1.Done? <==>
              && !NameFree(st.memory.users, search, username) && fault.None?
              && Lookup(st.memory, search, username).Some? && !st.memory.users[Lookup(st.memory, search, username).value].disabled
  {
    FreeNameFindsNobody(st.memory, search, username);
    EmailKeptNeverRefused(st, search, username, SetPassword(digest), fault);
  }

  /** An admin update that leaves the email alone goes through exactly when the name finds a user and the write
      succeeds; one that sets it, exactly when the new email also clashes with nobody and can be indexed. */
  lemma AdminUpdateSucceedsIff(st: Store, search: Search, username: string, change: AdminChange, fault: Option<File.Step>)
    requires Sound(st, search)
    ensures change.email.None? ==>
              (Update(st, search, username, Edit(change), fault).1.Done? <==> !NameFree(st.memory.users, search, username) && fault.None?)
    ensures change.email.Some? && Trimmed(change.email.value) && EmailsTrimmed(st.memory.users)
            && Lookup(st.memory, search, username).Some? ==>
              var key := Lookup(st.memory, search, username).value;
              var users := st.memory.users[key := Edit(change)(st.memory.users[key].(username := key)).value];
              Update(st, search, username, Edit(change), fault).1.Done? <==>
                UniqueFor(users, key) && NamesIndexable(users, search) && fault.None?
  {
    FreeNameFindsNobody(st.memory, search, username);
    var found := Lookup(st.memory, search, username);
    if change.email.None? {
      EmailKeptNeverRefused(st, search, username, Edit(change), fault);
    } else if Trimmed(change.email.value) && EmailsTrimmed(st.memory.users) && found.Some? {
      UpdateSucceedsIff(st, search, username, Edit(change), fault, found.value, Edit(change)(st.memory.users[found.value].(username := found.value)).value);
    }
  }

  /** What CreateUser asks for: a username, a display name and an email that are not all white space, and a password that
      is left out or is neither all white space nor impossible to hash. */
  lemma AcceptableIff(details: Details, digest: Option<string>)
    ensures Acceptable(details, digest) <==>
              && !AllSpace(details.username) && !AllSpace(details.displayName) && !AllSpace(details.email)
              && (details.password == "" || (!AllSpace(details.password) && digest.Some?))
  {
    BlankIsAllSpace(details.username);
    BlankIsAllSpace(details.displayName);
    BlankIsAllSpace(details.email);
    BlankIsAllSpace(details.password);
  }

  /** A CreateUser whose first look finds the name taken goes no further. */
  lemma CheckRefuses(s: Calls, search: Search, events: seq<Event>, call: nat, username: string, details: Details)
    ensures var before := Exec(s, search, events);
            var after := Exec(s, search, events + [Check(call, username, details)]);
            && after.store == before.store
            && (if Lookup(before.store.memory, search, username).Some? then after == before
                else call in after.pending && after.pending[call] == (username, details))
  {
    assert (events + [Check(call, username, details)])[..|events|] == events;
  }
}
