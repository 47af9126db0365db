/** Create, update and delete as transformations of the database, in memory and on disk, and what runs of them keep. */
module UserStore {
  import opened Wrappers
  import opened Text
  import opened UserDatabase
  import File = DatabaseFile

  datatype Outcome = Done | NotFound | AlreadyExists | Rejected | Unloadable | WriteFailed

  /** The database in memory and the file it is saved to. */
  datatype Store = Store(memory: Memory, file: Option<File.Content<Users>>)

  /** Build the indexes of the new users, write them out, then swap them in. */
  ghost function Commit(st: Store, search: Search, users: Users, fault: Option<File.Step>): (Store, Outcome) {
    if !Loadable(users, search) then (st, Unloadable)
    else if fault.None? then
      (Store(Memory(users, EmailIndex(users, search), AliasIndex(users, search)), Some(File.Whole(users))), Done)
    else if File.AfterRename(fault.value) then (st.(file := Some(File.Whole(users))), WriteFailed)
    else (st, WriteFailed)
  }

  ghost function Create(st: Store, search: Search, username: string, details: Details, fault: Option<File.Step>): (Store, Outcome) {
    var users := st.memory.users[username := details.(username := username)];
    if Lookup(st.memory, search, username).Some? then (st, AlreadyExists)
    else if !UniqueFor(users, username) then (st, AlreadyExists)
    else Commit(st, search, users, fault)
  }

  ghost function Update(st: Store, search: Search, username: string, change: Details -> Option<Details>, fault: Option<File.Step>): (Store, Outcome) {
    var found := Lookup(st.memory, search, username);
    if found.None? then (st, NotFound)
    else
      var key := found.value;
      var changed := change(st.memory.users[key].(username := key));
      if changed.None? then (st, Rejected)
      else
        var users := st.memory.users[key := changed.value];
        if !UniqueFor(users, key) then (st, AlreadyExists) else Commit(st, search, users, fault)
  }

  ghost function Delete(st: Store, search: Search, username: string, fault: Option<File.Step>): (Store, Outcome) {
    var found := Lookup(st.memory, search, username);
    if found.None? then (st, NotFound) else Commit(st, search, st.memory.users - {found.value}, fault)
  }

  // ----- runs -------------------------------------------------------------------------------------

  datatype Op =
    | CreateOp(username: string, details: Details, fault: Option<File.Step>)
    | UpdateOp(username: string, change: Details -> Option<Details>, fault: Option<File.Step>)
    | DeleteOp(username: string, fault: Option<File.Step>)

  ghost function Apply(st: Store, search: Search, op: Op): (Store, Outcome) {
    match op
    case CreateOp(u, d, f) => Create(st, search, u, d, f)
    case UpdateOp(u, c, f) => Update(st, search, u, c, f)
    case DeleteOp(u, f) => Delete(st, search, u, f)
  }

  ghost function Run(st: Store, search: Search, ops: seq<Op>): Store {
    if ops == [] then st else Apply(Run(st, search, ops[..|ops| - 1]), search, ops[|ops| - 1]).0
  }

  /** Identities are unique and the indexes are the ones a rebuild would give. */
  ghost predicate Sound(st: Store, search: Search) {
    Unique(st.memory.users) && Indexed(st.memory, search)
  }

  lemma CommitSound(st: Store, search: Search, users: Users, fault: Option<File.Step>)
    requires Sound(st, search) && Unique(users)
    ensures Sound(Commit(st, search, users, fault).0, search)
  {
  }

  lemma UniqueShrinks(users: Users, key: string)
    requires Unique(users)
    ensures Unique(users - {key})
  {
    forall a, b | a in users - {key} && b in users - {key} && a != b ensures Compatible(users - {key}, a, b) {
      assert Compatible(users, a, b);
    }
  }

  lemma ApplySound(st: Store, search: Search, op: Op)
    requires Sound(st, search)
    ensures Sound(Apply(st, search, op).0, search)
  {
    var users := st.memory.users;
    match op
    case CreateOp(u, d, f) =>
      var details := d.(username := u);
      if UniqueFor(users[u := details], u) {
        UniqueExtends(users, u, details);
        CommitSound(st, search, users[u := details], f);
      }
    case UpdateOp(u, c, f) =>
      var found := Lookup(st.memory, search, u);
      if found.Some? {
        var changed := c(users[found.value].(username := found.value));
        if changed.Some? && UniqueFor(users[found.value := changed.value], found.value) {
          UniqueExtends(users, found.value, changed.value);
          CommitSound(st, search, users[found.value := changed.value], f);
        }
      }
    case DeleteOp(u, f) =>
      var found := Lookup(st.memory, search, u);
      if found.Some? {
        UniqueShrinks(users, found.value);
        CommitSound(st, search, users - {found.value}, f);
      }
  }

  /** Every run, of operations that succeed and operations that fail, keeps identities unique and the indexes exact,
      although each operation checks only the user it changes. */
  lemma {:induction false} RunSound(st: Store, search: Search, ops: seq<Op>)
    requires Sound(st, search)
    ensures Sound(Run(st, search, ops), search)
  {
    if ops != [] {
      RunSound(st, search, ops[..|ops| - 1]);
      ApplySound(Run(st, search, ops[..|ops| - 1]), search, ops[|ops| - 1]);
    }
  }

  /** From a sound state a delete is refused only if there is no such user or the write fails. */
  lemma DeleteNeverRefused(st: Store, search: Search, username: string, fault: Option<File.Step>)
    requires Sound(st, search)
    ensures var outcome := Delete(st, search, username, fault).1;
            outcome == if Lookup(st.memory, search, username).None? then NotFound
                       else if fault.Some? then WriteFailed else Done
  {
    var found := Lookup(st.memory, search, username);
    if found.Some? {
      LoadableSubmap(st.memory.users, st.memory.users - {found.value}, search);
    }
  }

  lemma SameEmailAccepted(users: Users, search: Search, key: string, details: Details)
    requires Unique(users) && Loadable(users, search) && key in users && details.email == users[key].email
    ensures UniqueFor(users[key := details], key) && Loadable(users[key := details], search)
  {
    var users' := users[key := details];
    LoadableSameEmails(users, users', search);
    forall o | o in users' && o != key ensures Compatible(users', key, o) {
      assert Compatible(users, key, o);
    }
  }

  /** From a sound state an update that leaves the email alone is refused only if there is no such user, the change
      itself is rejected or the write fails. */
  lemma EmailKeptNeverRefused(st: Store, search: Search, username: string, change: Details -> Option<Details>, fault: Option<File.Step>)
    requires Sound(st, search)
    requires var found := Lookup(st.memory, search, username);
             found.Some? ==>
               var before := st.memory.users[found.value].(username := found.value);
               change(before).Some? ==> change(before).value.email == before.email
    ensures var found := Lookup(st.memory, search, username);
            Update(st, search, username, change, fault).1 ==
              if found.None? then NotFound
              else if change(st.memory.users[found.value].(username := found.value)).None? then Rejected
              else if fault.Some? then WriteFailed else Done
  {
    var users := st.memory.users;
    var found := Lookup(st.memory, search, username);
    if found.Some? && change(users[found.value].(username := found.value)).Some? {
      var key := found.value;
      SameEmailAccepted(users, search, key, change(users[key].(username := key)).value);
    }
  }

  function WithoutFault(op: Op): Op { op.(fault := None) }

  /** The write fails after the rename, in an operation that nothing else would have stopped. */
  ghost predicate FailsAfterRename(st: Store, search: Search, op: Op) {
    op.fault.Some? && File.AfterRename(op.fault.value) && Apply(st, search, WithoutFault(op)).1.Done?
  }

  /** Commit is atomic: success puts the same new users in memory and on disk, failure leaves memory as it was. The file
      changes under an error only if a step after the rename failed, and then it does hold all of the new users. */
  lemma CommitIsAtomic(st: Store, search: Search, op: Op)
    ensures var (st', outcome) := Apply(st, search, op);
            var clean := Apply(st, search, WithoutFault(op)).0;
            && (outcome.Done? ==> st'.memory == clean.memory && st'.file == Some(File.Whole(st'.memory.users)))
            && (!outcome.Done? ==> st'.memory == st.memory)
            && (FailsAfterRename(st, search, op) ==> outcome.WriteFailed? && st'.file == Some(File.Whole(clean.memory.users)))
            && (!outcome.Done? && !FailsAfterRename(st, search, op) ==> st'.file == st.file)
  {
  }

  /** The file holds what memory holds. */
  predicate InStep(st: Store) { st.file == Some(File.Whole(st.memory.users)) }

  /** Exactly when an operation takes file and memory apart: its write fails after the rename and would have changed
      the users. */
  lemma StaysInStep(st: Store, search: Search, op: Op)
    requires InStep(st)
    ensures InStep(Apply(st, search, op).0) <==>
            !(FailsAfterRename(st, search, op) && Apply(st, search, WithoutFault(op)).0.memory.users != st.memory.users)
  {
    CommitIsAtomic(st, search, op);
  }

  /** A database of one user, in memory and on disk. */
  function OneUser(name: string, displayName: string): Store {
    Store(Memory(map[name := Details(name, "", displayName, "", [], false)], map[], map[]),
          Some(File.Whole(map[name := Details(name, "", displayName, "", [], false)])))
  }

  lemma OneUserSound(name: string, displayName: string)
    requires displayName != ""
    ensures var st := OneUser(name, displayName);
            Sound(st, Search(false, false)) && InStep(st) && Restartable(st, Search(false, false))
    ensures Lookup(OneUser(name, displayName).memory, Search(false, false), name) == Some(name)
  {
    var users := OneUser(name, displayName).memory.users;
    assert name in users && EmailIndex(users, Search(false, false)) == map[];
  }

  /** As in creating a second user when the directory cannot be synced: the file has the user, memory does not. */
  lemma FileAheadOfMemory() returns (st: Store, search: Search, op: Op)
    ensures Sound(st, search) && InStep(st) && Restartable(st, search)
    ensures var st' := Apply(st, search, op).0;
            st'.memory == st.memory && "b" !in st'.memory.users && st'.file.Some? && st'.file.value.Whole? && "b" in st'.file.value.value
  {
    search, st := Search(false, false), OneUser("a", "A");
    OneUserSound("a", "A");
    op := CreateOp("b", Details("b", "", "B", "", [], false), Some(File.SyncDir));
    assert "a" != "b" && Lookup(st.memory, search, "b") == None;
    var users := st.memory.users["b" := op.details];
    assert TrimSpace("") == "";
    assert UniqueFor(users, "b") && Loadable(users, search);
  }

  /** Over a run without such a failure file and memory stay together, whatever else fails. */
  lemma {:induction false} RunStaysInStep(st: Store, search: Search, ops: seq<Op>)
    requires InStep(st)
    requires forall i :: 0 <= i < |ops| ==> ops[i].fault.None? || !File.AfterRename(ops[i].fault.value)
    ensures InStep(Run(st, search, ops))
  {
    if ops != [] {
      RunStaysInStep(st, search, ops[..|ops| - 1]);
      StaysInStep(Run(st, search, ops[..|ops| - 1]), search, ops[|ops| - 1]);
    }
  }

  // ----- restarting -------------------------------------------------------------------------------

  /** What the schema of the file demands: there are users, and each has a display name. */
  predicate SchemaValid(users: Users) {
    users != map[] && forall k :: k in users ==> users[k].displayName != ""
  }

  /** Loading accepts the file: it holds a whole set of users, which satisfies the schema and can be indexed. */
  ghost predicate Restartable(st: Store, search: Search) {
    st.file.Some? && st.file.value.Whole? && SchemaValid(st.file.value.value) && Loadable(st.file.value.value, search)
  }

  /** The users as they are read: each takes its username from its key. */
  function Named(users: Users): Users { map k | k in users :: users[k].(username := k) }

  /** Names do not matter to the checks. */
  lemma NamedSame(users: Users, search: Search)
    ensures Unique(Named(users)) <==> Unique(users)
    ensures Loadable(Named(users), search) <==> Loadable(users, search)
    ensures SchemaValid(Named(users)) <==> SchemaValid(users)
  {
    var named := Named(users);
    assert users != map[] <==> named != map[] by {
      if k :| k in users {
        assert k in named;
      }
    }
    forall k | k in users ensures named[k].displayName == users[k].displayName && named[k].email == users[k].email {
    }
    LoadableSameEmails(users, named, search);
    forall a, b | a in users && b in users ensures Compatible(named, a, b) <==> Compatible(users, a, b) {
    }
  }

  /** What a restart loads: the users of the file and the indexes made from them. */
  ghost function Restarted(st: Store, search: Search): Store
    requires Restartable(st, search)
  {
    var users := Named(st.file.value.value);
    NamedSame(st.file.value.value, search);
    st.(memory := Memory(users, EmailIndex(users, search), AliasIndex(users, search)))
  }

  /** The file holds a whole set of users with unique identities that can be indexed. */
  ghost predicate FileSound(st: Store, search: Search) {
    st.file.Some? && st.file.value.Whole? && Unique(st.file.value.value) && Loadable(st.file.value.value, search)
  }

  /** The operation gets as far as putting its users in the file. */
  ghost predicate Saves(st: Store, search: Search, op: Op) {
    Apply(st, search, WithoutFault(op)).1.Done? && (op.fault.None? || File.AfterRename(op.fault.value))
  }

  /** What an operation does to the file: all of its new users, or nothing. */
  lemma SavesAll(st: Store, search: Search, op: Op)
    ensures Apply(st, search, op).0.file ==
            if Saves(st, search, op) then Some(File.Whole(Apply(st, search, WithoutFault(op)).0.memory.users)) else st.file
  {
  }

  /** The operation deletes the only user, or leaves a user without a display name. */
  ghost predicate Spoils(st: Store, search: Search, op: Op)
    requires Apply(st, search, WithoutFault(op)).1.Done?
  {
    match op
    case CreateOp(_, details, _) => details.displayName == ""
    case UpdateOp(u, change, _) =>
      var key := Lookup(st.memory, search, u).value;
      change(st.memory.users[key].(username := key)).value.displayName == ""
    case DeleteOp(_, _) => |st.memory.users| == 1
  }

  lemma OnlyUserDeleted(users: Users, key: string)
    requires key in users
    ensures users - {key} == map[] <==> |users| == 1
  {
    var rest := users - {key};
    assert users.Keys == rest.Keys + {key};
    assert |users.Keys| == |rest.Keys| + 1;
    assert |rest| == 0 <==> rest == map[];
  }

  /** One key set in a valid set of users: only the new record matters. */
  lemma SchemaAfterSet(users: Users, key: string, details: Details)
    requires SchemaValid(users)
    ensures SchemaValid(users[key := details]) <==> details.displayName != ""
  {
    var users' := users[key := details];
    assert users'[key] == details && users' != map[];
  }

  lemma SchemaAfter(st: Store, search: Search, op: Op)
    requires SchemaValid(st.memory.users) && Apply(st, search, WithoutFault(op)).1.Done?
    ensures SchemaValid(Apply(st, search, WithoutFault(op)).0.memory.users) <==> !Spoils(st, search, op)
  {
    var users := st.memory.users;
    match op
    case CreateOp(u, d, _) => SchemaAfterSet(users, u, d.(username := u));
    case UpdateOp(u, c, _) =>
      var key := Lookup(st.memory, search, u).value;
      SchemaAfterSet(users, key, c(users[key].(username := key)).value);
    case DeleteOp(u, _) => OnlyUserDeleted(users, Lookup(st.memory, search, u).value);
  }

  /** The operation puts users in the file that loading refuses. */
  ghost predicate Unloads(st: Store, search: Search, op: Op) {
    Saves(st, search, op) && Spoils(st, search, op)
  }

  lemma ApplyFileSound(st: Store, search: Search, op: Op)
    requires Sound(st, search) && FileSound(st, search)
    ensures FileSound(Apply(st, search, op).0, search)
  {
    SavesAll(st, search, op);
    ApplySound(st, search, WithoutFault(op));
  }

  /** Exactly when a file that loads still loads after an operation, failing or not: unless the operation reaches the
      rename and deletes the only user or leaves a user without a display name. */
  lemma StaysRestartable(st: Store, search: Search, op: Op)
    requires Sound(st, search) && SchemaValid(st.memory.users) && Restartable(st, search)
    ensures Restartable(Apply(st, search, op).0, search) <==> !Unloads(st, search, op)
    ensures !Unloads(st, search, op) ==> SchemaValid(Apply(st, search, op).0.memory.users)
  {
    SavesAll(st, search, op);
    CommitIsAtomic(st, search, op);
    ApplySound(st, search, WithoutFault(op));
    if Apply(st, search, WithoutFault(op)).1.Done? {
      SchemaAfter(st, search, op);
    }
  }

  /** In every run, failing writes included, the file is always whole, with unique identities and users that can be
      indexed, so whenever it loads the restart is sound. */
  lemma {:induction false} RunFileSound(st: Store, search: Search, ops: seq<Op>)
    requires Sound(st, search) && FileSound(st, search)
    ensures FileSound(Run(st, search, ops), search)
    ensures Restartable(Run(st, search, ops), search) ==> Sound(Restarted(Run(st, search, ops), search), search)
  {
    if Restartable(Run(st, search, ops), search) {
      NamedSame(Run(st, search, ops).file.value.value, search);
    }
    if ops != [] {
      RunFileSound(st, search, ops[..|ops| - 1]);
      RunSound(st, search, ops[..|ops| - 1]);
      ApplyFileSound(Run(st, search, ops[..|ops| - 1]), search, ops[|ops| - 1]);
    }
  }

  /** The file loads at the end of the run and at every point before. */
  ghost predicate AlwaysRestartable(st: Store, search: Search, ops: seq<Op>) {
    && Restartable(Run(st, search, ops), search)
    && (ops != [] ==> AlwaysRestartable(st, search, ops[..|ops| - 1]))
  }

  /** No operation of the run, at the state it meets, puts users in the file that loading refuses. */
  ghost predicate NeverUnloads(st: Store, search: Search, ops: seq<Op>) {
    ops != [] ==>
      && !Unloads(Run(st, search, ops[..|ops| - 1]), search, ops[|ops| - 1])
      && NeverUnloads(st, search, ops[..|ops| - 1])
  }

  /** The file loads at every point of a run if and only if no operation of the run, at the state it meets, reaches the
      rename and deletes the only user or leaves a user without a display name. */
  lemma {:induction false} RunRestartable(st: Store, search: Search, ops: seq<Op>)
    requires Sound(st, search) && SchemaValid(st.memory.users) && Restartable(st, search)
    ensures AlwaysRestartable(st, search, ops) <==> NeverUnloads(st, search, ops)
    ensures NeverUnloads(st, search, ops) ==> SchemaValid(Run(st, search, ops).memory.users) && Restartable(Run(st, search, ops), search)
  {
    if ops != [] {
      var front := ops[..|ops| - 1];
      RunRestartable(st, search, front);
      RunSound(st, search, front);
      if NeverUnloads(st, search, front) {
        StaysRestartable(Run(st, search, front), search, ops[|ops| - 1]);
      }
    }
  }

  /** Deleting the only user leaves a file that loading refuses. */
  lemma OnlyUserDeletedUnloads() returns (st: Store, search: Search, op: Op)
    ensures Sound(st, search) && InStep(st) && Restartable(st, search)
    ensures op.DeleteOp? && op.fault.None? && Apply(st, search, op).1.Done? && !Restartable(Apply(st, search, op).0, search)
  {
    search, st, op := Search(false, false), OneUser("a", "A"), DeleteOp("a", None);
    OneUserSound("a", "A");
    DeleteNeverRefused(st, search, "a", None);
    assert |st.memory.users| == 1;
    StaysRestartable(st, search, op);
  }

  /** So does an update that takes a display name away. */
  lemma DisplayNameTakenUnloads(name: string, displayName: string, change: Details -> Option<Details>) returns (st: Store, search: Search, op: Op)
    requires displayName != ""
    requires var d := Details(name, "", displayName, "", [], false); change(d) == Some(d.(displayName := ""))
    ensures st == OneUser(name, displayName) && op == UpdateOp(name, change, None)
    ensures Sound(st, search) && InStep(st) && Restartable(st, search)
    ensures Apply(st, search, op).1.Done? && !Restartable(Apply(st, search, op).0, search)
  {
    search, st, op := Search(false, false), OneUser(name, displayName), UpdateOp(name, change, None);
    OneUserSound(name, displayName);
    EmailKeptNeverRefused(st, search, name, change, None);
    StaysRestartable(st, search, op);
  }

  // ----- who is in the database -------------------------------------------------------------------

  function Count(b: bool): nat { if b then 1 else 0 }

  /** How often `username` was created and how often its user was deleted during a run. */
  ghost function Creations(st: Store, search: Search, ops: seq<Op>, username: string): nat {
    if ops == [] then 0
    else
      var front, op := ops[..|ops| - 1], ops[|ops| - 1];
      Creations(st, search, front, username) +
      Count(op.CreateOp? && op.username == username && Apply(Run(st, search, front), search, op).1.Done?)
  }

  ghost function Deletions(st: Store, search: Search, ops: seq<Op>, username: string): nat {
    if ops == [] then 0
    else
      var front, op := ops[..|ops| - 1], ops[|ops| - 1];
      var m := Run(st, search, front);
      Deletions(st, search, front, username) +
      Count(op.DeleteOp? && Lookup(m.memory, search, op.username) == Some(username) && Apply(m, search, op).1.Done?)
  }

  /** Who is there after an operation. */
  ghost function KeysAfter(st: Store, search: Search, op: Op): set<string> {
    var keys, found := st.memory.users.Keys, Lookup(st.memory, search, op.username);
    if !Apply(st, search, op).1.Done? then keys
    else if op.CreateOp? then keys + {op.username}
    else if op.DeleteOp? && found.Some? then keys - {found.value}
    else keys
  }

  lemma KeysAfterApply(st: Store, search: Search, op: Op)
    ensures Apply(st, search, op).0.memory.users.Keys == KeysAfter(st, search, op)
  {
    match op
    case CreateOp(u, d, f) =>
    case UpdateOp(u, c, f) =>
    case DeleteOp(u, f) =>
  }

  /** One operation: a user appears only by being created and disappears only by being deleted. */
  lemma PresenceBalance(st: Store, search: Search, op: Op, username: string)
    requires Sound(st, search)
    ensures var (st', outcome) := Apply(st, search, op);
            Count(username in st.memory.users) + Count(op.CreateOp? && op.username == username && outcome.Done?)
            == Count(username in st'.memory.users)
               + Count(op.DeleteOp? && Lookup(st.memory, search, op.username) == Some(username) && outcome.Done?)
  {
    KeysAfterApply(st, search, op);
    var before, after := st.memory.users, Apply(st, search, op).0.memory.users;
    assert username in before <==> username in before.Keys;
    assert username in after <==> username in after.Keys;
    if op.CreateOp? && username in before {
      FindsOwnUser(st.memory, search, username);
    }
  }

  /** Creations and deletions of a username balance over every run: no run creates a user that is there, or deletes
      one that is not. */
  lemma {:induction false} CreationsBalance(st: Store, search: Search, ops: seq<Op>, username: string)
    requires Sound(st, search)
    ensures Count(username in st.memory.users) + Creations(st, search, ops, username)
            == Count(username in Run(st, search, ops).memory.users) + Deletions(st, search, ops, username)
  {
    if ops != [] {
      var front, op := ops[..|ops| - 1], ops[|ops| - 1];
      CreationsBalance(st, search, front, username);
      RunSound(st, search, front);
      PresenceBalance(Run(st, search, front), search, op, username);
    }
  }

  // ----- what an operation changes for lookups ----------------------------------------------------

  /** A created user is new, is found under the given username with the given details, and no one else has changed. */
  lemma CreateThenFind(st: Store, search: Search, username: string, details: Details)
    requires Sound(st, search)
    requires Create(st, search, username, details, None).1.Done?
    ensures var m := Create(st, search, username, details, None).0.memory;
            && username !in st.memory.users && m.users - {username} == st.memory.users
            && Lookup(m, search, username) == Some(username) && m.users[username] == details.(username := username)
  {
    ApplySound(st, search, CreateOp(username, details, None));
    var m := Create(st, search, username, details, None).0.memory;
    if username in st.memory.users {
      FindsOwnUser(st.memory, search, username);
    }
    FindsOwnUser(m, search, username);
    forall o | o in m.users && o != username ensures !MatchesEmail(m.users, search, o, username) {
      EmailIndexed(st.memory.users, search, o, username);
    }
  }

  /** Deleting a user just created restores the database, indexes included. */
  lemma DeleteUndoesCreate(st: Store, search: Search, username: string, details: Details)
    requires Sound(st, search)
    requires Create(st, search, username, details, None).1.Done?
    ensures var st' := Create(st, search, username, details, None).0;
            && Delete(st', search, username, None).1.Done?
            && Delete(st', search, username, None).0.memory == st.memory
  {
    CreateThenFind(st, search, username, details);
    var st' := Create(st, search, username, details, None).0;
    ApplySound(st, search, CreateOp(username, details, None));
    DeleteNeverRefused(st', search, username, None);
  }

  /** Exactly when the name given to a delete finds no one afterwards: unless it is the username of a user that was
      hidden behind another's email. Identities being unique, that takes surrounding white space. */
  lemma DeleteThenGone(st: Store, search: Search, username: string)
    requires Sound(st, search)
    requires Delete(st, search, username, None).1.Done?
    ensures Lookup(Delete(st, search, username, None).0.memory, search, username) == None <==>
            (username in st.memory.users ==> Lookup(st.memory, search, username) == Some(username))
    ensures Trimmed(username) || (forall k :: k in st.memory.users ==> Trimmed(st.memory.users[k].email)) ==>
              Lookup(Delete(st, search, username, None).0.memory, search, username) == None
  {
    var users, key := st.memory.users, Lookup(st.memory, search, username).value;
    var m := Delete(st, search, username, None).0.memory;
    ApplySound(st, search, DeleteOp(username, None));
    assert m.users == users - {key};
    WhoAnswersNext(st.memory, m, search, username, key);
    if username in users && (Trimmed(username) || forall k :: k in users ==> Trimmed(users[k].email)) {
      UniqueFindsOwnUser(st.memory, search, username);
    }
  }

  lemma WhoAnswersNext(m: Memory, m': Memory, search: Search, username: string, key: string)
    requires Indexed(m, search) && Indexed(m', search) && m'.users == m.users - {key}
    requires Lookup(m, search, username) == Some(key)
    ensures Lookup(m', search, username) == if username in m.users && username != key then Some(username) else None
  {
    if Lookup(m', search, username).Some? {
      OnlyExactNameAnswers(m, m', search, username, key, Lookup(m', search, username).value);
    } else if username in m'.users {
      FindsOwnUser(m', search, username);
    }
  }

  lemma OnlyExactNameAnswers(m: Memory, m': Memory, search: Search, username: string, key: string, o: string)
    requires Indexed(m, search) && Indexed(m', search) && m'.users == m.users - {key}
    requires Lookup(m, search, username) == Some(key) && Lookup(m', search, username) == Some(o)
    ensures o == username && o in m.users && o != key
  {
    LookupIsScan(m, search, username, key);
    LookupIsScan(m', search, username, o);
    assert o in m'.users;
    OnlyExactNameHidden(m, search, username, key, o);
  }

  /** Of two users that answer to one name, one is found and the other has exactly that username. */
  lemma OnlyExactNameHidden(m: Memory, search: Search, username: string, k: string, o: string)
    requires Indexed(m, search) && ScanFinds(m.users, search, username, k)
    requires o in m.users && o != k
    requires MatchesEmail(m.users, search, o, username) || MatchesFolded(m.users, search, o, username) || o == username
    ensures o == username
  {
    EmailIndexed(m.users, search, k, username);
    EmailIndexed(m.users, search, o, username);
    AliasIndexed(m.users, search, k, username);
    AliasIndexed(m.users, search, o, username);
    EqualFoldIsLowerEqual(m.users[k].email, username);
    EqualFoldIsLowerEqual(o, username);
    EqualFoldIsLowerEqual(o, m.users[k].email);
  }

  lemma FoundByEmail(m: Memory, search: Search, key: string, name: string)
    requires Indexed(m, search) && search.email && key in m.users && m.users[key].email != ""
    ensures Lookup(m, search, m.users[key].email) == Some(key)
    ensures Lookup(m, search, name) == Some(key) ==> EqualFold(m.users[key].email, name) || EqualFold(key, name)
  {
    EqualFoldIsLowerEqual(m.users[key].email, m.users[key].email);
    EqualFoldIsLowerEqual(key, key);
    LookupIsScan(m, search, m.users[key].email, key);
    LookupIsScan(m, search, name, key);
  }

  /** After an update that sets the email the user is found under the new email, and under the former one only if that
      is the new email or the username, up to case. */
  lemma EmailChangeMovesLookup(st: Store, search: Search, username: string, change: Details -> Option<Details>)
    requires Sound(st, search) && search.email
    requires Update(st, search, username, change, None).1.Done?
    ensures var key := Lookup(st.memory, search, username).value;
            var m := Update(st, search, username, change, None).0.memory;
            var former, email := st.memory.users[key].email, m.users[key].email;
            && m.users - {key} == st.memory.users - {key}
            && Some(m.users[key]) == change(st.memory.users[key].(username := key))
            && (email != "" ==> Lookup(m, search, email) == Some(key))
            && (email != "" && Lookup(m, search, former) == Some(key) ==> EqualFold(email, former) || EqualFold(key, former))
  {
    ApplySound(st, search, UpdateOp(username, change, None));
    var key := Lookup(st.memory, search, username).value;
    var m := Update(st, search, username, change, None).0.memory;
    if m.users[key].email != "" {
      FoundByEmail(m, search, key, st.memory.users[key].email);
    }
  }

  // ----- what an operation stores, and when it succeeds -------------------------------------------

  /** An update that succeeds stores the changed record under the key it found, whatever the search settings, and leaves
      every other user alone. */
  lemma UpdateTakesEffect(st: Store, search: Search, username: string, change: Details -> Option<Details>, fault: Option<File.Step>)
    requires Update(st, search, username, change, fault).1.Done?
    ensures var found := Lookup(st.memory, search, username);
            var m := Update(st, search, username, change, fault).0.memory;
            && found.Some? && found.value in st.memory.users && found.value in m.users
            && Some(m.users[found.value]) == change(st.memory.users[found.value].(username := found.value))
            && m.users - {found.value} == st.memory.users - {found.value}
  {
  }

  /** A delete that succeeds takes away the user it found and no other. */
  lemma DeleteTakesEffect(st: Store, search: Search, username: string, fault: Option<File.Step>)
    requires Delete(st, search, username, fault).1.Done?
    ensures var found := Lookup(st.memory, search, username);
            var m := Delete(st, search, username, fault).0.memory;
            && found.Some? && found.value in st.memory.users && found.value !in m.users
            && m.users == st.memory.users - {found.value}
  {
  }

  /** The name is no one's email, username up to case (where these are searched) or exact username. */
  ghost predicate NameFree(users: Users, search: Search, username: string) {
    forall k :: k in users ==> !MatchesEmail(users, search, k, username) && !MatchesFolded(users, search, k, username) && k != username
  }

  lemma FreeNameFindsNobody(m: Memory, search: Search, username: string)
    requires Indexed(m, search)
    ensures Lookup(m, search, username) == None <==> NameFree(m.users, search, username)
  {
    var found := Lookup(m, search, username);
    if found.Some? {
      LookupIsScan(m, search, username, found.value);
    } else {
      forall k | k in m.users ensures !MatchesEmail(m.users, search, k, username) {
        LookupIsScan(m, search, username, k);
      }
      forall k | k in m.users ensures !MatchesFolded(m.users, search, k, username) {
        LookupIsScan(m, search, username, k);
      }
    }
  }

  ghost predicate EmailsTrimmed(users: Users) { forall k :: k in users ==> Trimmed(users[k].email) }

  /** Under case-insensitive search: usernames are lowercase, and the empty one does not meet a user without an email. */
  ghost predicate NamesIndexable(users: Users, search: Search) {
    search.ci ==>
      && (forall k :: k in users ==> Lower(k) == k)
      && ("" in users ==> forall o :: o in users && o != "" ==> users[o].email != "")
  }

  lemma SetLoadable(users: Users, search: Search, key: string, details: Details)
    requires Unique(users) && EmailsTrimmed(users[key := details]) && UniqueFor(users[key := details], key)
    ensures Loadable(users[key := details], search) <==> NamesIndexable(users[key := details], search)
  {
    UniqueExtends(users, key, details);
    LoadableWhenUnique(users[key := details], search);
  }

  /** Exactly when a create succeeds in a sound database of trimmed emails: the name is free, neither it nor the email is
      another user's identity, it can be indexed, and the write succeeds. */
  lemma CreateSucceedsIff(st: Store, search: Search, username: string, details: Details, fault: Option<File.Step>)
    requires Sound(st, search) && EmailsTrimmed(st.memory.users) && Trimmed(details.email)
    ensures var users := st.memory.users[username := details.(username := username)];
            Create(st, search, username, details, fault).1.Done? <==>
              NameFree(st.memory.users, search, username) && UniqueFor(users, username) && NamesIndexable(users, search) && fault.None?
  {
    FreeNameFindsNobody(st.memory, search, username);
    var record := details.(username := username);
    if UniqueFor(st.memory.users[username := record], username) {
      SetLoadable(st.memory.users, search, username, record);
    }
  }

  /** An update does not find its user exactly when the name is free. */
  lemma UpdateFindsIff(st: Store, search: Search, username: string, change: Details -> Option<Details>, fault: Option<File.Step>)
    requires Sound(st, search)
    ensures Update(st, search, username, change, fault).1.NotFound? <==> NameFree(st.memory.users, search, username)
  {
    FreeNameFindsNobody(st.memory, search, username);
  }

  /** Exactly when an update that is not rejected succeeds in such a database: the new identity clashes with nobody's,
      can be indexed, and the write succeeds. */
  lemma UpdateSucceedsIff(st: Store, search: Search, username: string, change: Details -> Option<Details>, fault: Option<File.Step>, key: string, changed: Details)
    requires Sound(st, search) && EmailsTrimmed(st.memory.users) && Trimmed(changed.email)
    requires Lookup(st.memory, search, username) == Some(key) && change(st.memory.users[key].(username := key)) == Some(changed)
    ensures var users := st.memory.users[key := changed];
            Update(st, search, username, change, fault).1.Done? <==>
              UniqueFor(users, key) && NamesIndexable(users, search) && fault.None?
  {
    if UniqueFor(st.memory.users[key := changed], key) {
      SetLoadable(st.memory.users, search, key, changed);
    }
  }
}
