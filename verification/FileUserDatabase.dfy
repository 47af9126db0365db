/** The database object: its loops and in-place updates, proved against the specification. */
module FileUserDatabase {
  import opened Wrappers
  import opened Text
  import opened UserDatabase
  import opened UserStore
  import File = DatabaseFile

  /** validateUniqueUserIdentity: compares the changed user with every other, in any order. */
  method ValidateUniqueUserIdentity(users: Users, key: string) returns (outcome: Outcome)
    ensures key !in users ==> outcome == NotFound
    ensures key in users ==> outcome == if UniqueFor(users, key) then Done else AlreadyExists
  {
    if key !in users {
      return NotFound;
    }
    var email := TrimSpace(users[key].email);
    var todo := users.Keys;
    while todo != {}
      invariant todo <= users.Keys
      invariant forall o :: o in users && o !in todo && o != key ==> Compatible(users, key, o)
      decreases todo
    {
      var username :| username in todo;
      todo := todo - {username};
      if username == key {
        continue;
      }
      var otherEmail := TrimSpace(users[username].email);
      if email != "" && EqualFold(email, otherEmail) {
        return AlreadyExists;
      }
      if email != "" && EqualFold(email, username) {
        return AlreadyExists;
      }
      if otherEmail != "" && EqualFold(key, otherEmail) {
        return AlreadyExists;
      }
    }
    return Done;
  }

  /** `emails` indexes exactly the users in `done`. */
  ghost predicate EmailsOf(users: Users, done: set<string>, search: Search, emails: map<string, string>) {
    && (forall k :: k in done && k in users && search.email && users[k].email != "" ==>
          Lower(users[k].email) in emails && emails[Lower(users[k].email)] == k)
    && (forall e :: e in emails ==>
          search.email && emails[e] in done && emails[e] in users
          && users[emails[e]].email != "" && Lower(users[emails[e]].email) == e)
  }

  ghost predicate AliasesOf(users: Users, done: set<string>, search: Search, aliases: map<string, string>) {
    forall a :: (a in aliases <==> search.ci && a in users && a in done) && (a in aliases ==> aliases[a] == a)
  }

  lemma EmailAdded(users: Users, done: set<string>, search: Search, emails: map<string, string>, k: string)
    requires done <= users.Keys && k in users && k !in done && search.email && users[k].email != ""
    requires EmailsOf(users, done, search, emails) && EmailLoadable(users, k)
    ensures EmailsOf(users, done + {k}, search, emails[Lower(users[k].email) := k])
  {
    forall o | o in done ensures Lower(users[o].email) != Lower(users[k].email) {
      EqualFoldIsLowerEqual(Lower(users[k].email), users[o].email);
      LowerIdempotent(users[k].email);
    }
  }

  lemma IndexesComplete(users: Users, search: Search, emails: map<string, string>, aliases: map<string, string>)
    requires Loadable(users, search)
    requires EmailsOf(users, users.Keys, search, emails) && AliasesOf(users, users.Keys, search, aliases)
    ensures emails == EmailIndex(users, search) && aliases == AliasIndex(users, search)
  {
    forall e ensures e in emails <==> e in EmailIndex(users, search) {
      if e in emails {
        EqualFoldIsLowerEqual(users[emails[e]].email, e);
        LowerIdempotent(users[emails[e]].email);
        EmailIndexed(users, search, emails[e], e);
      }
    }
  }

  class Database {
    const path: string
    const search: Search
    var users: Users
    var emails: map<string, string>
    var aliases: map<string, string>
    var dir: File.Directory<Users>

    ghost function View(): Store
      reads this
    {
      Store(Memory(users, emails, aliases), File.File(dir, path))
    }

    constructor (path: string, search: Search, users: Users, dir: File.Directory<Users>)
      ensures this.path == path && this.search == search && this.users == users && this.dir == dir
      ensures emails == map[] && aliases == map[]
    {
      this.path, this.search, this.users, this.dir := path, search, users, dir;
      emails, aliases := map[], map[];
    }

    method LoadAlias(k: string) returns (ok: bool)
      requires k in users
      modifies this`aliases
      ensures ok <==> AliasLoadable(users, k)
      ensures aliases == if ok then old(aliases)[Lower(k) := k] else old(aliases)
    {
      var u := Lower(k);
      if u != k {
        return false;
      }
      var todo := users.Keys;
      while todo != {}
        invariant todo <= users.Keys && aliases == old(aliases)
        invariant forall o :: o in users && o !in todo && o != k ==> !EqualFold(k, users[o].email)
        decreases todo
      {
        var username :| username in todo;
        todo := todo - {username};
        if username != k && EqualFold(u, users[username].email) {
          return false;
        }
      }
      aliases := aliases[u := k];
      return true;
    }

    method LoadAliasEmail(k: string) returns (ok: bool)
      requires k in users
      modifies this`emails
      ensures ok <==> EmailLoadable(users, k)
      ensures emails == if ok then old(emails)[Lower(users[k].email) := k] else old(emails)
    {
      var e := Lower(users[k].email);
      var duplicates: seq<string> := [];
      var todo := users.Keys;
      while todo != {}
        invariant todo <= users.Keys && emails == old(emails)
        invariant duplicates == [] <==> forall o :: o in users && o !in todo && o != k ==> !EqualFold(e, users[o].email)
        decreases todo
      {
        var username :| username in todo;
        todo := todo - {username};
        if username != k && EqualFold(e, users[username].email) {
          duplicates := duplicates + [username];
        }
      }
      if duplicates != [] {
        return false;
      }
      if e in users && k != e {
        return false;
      }
      emails := emails[e := k];
      return true;
    }

    /** Builds both indexes, visiting the users in any order. It succeeds exactly when every pair of users allows it,
        and the indexes are then fully determined by the users. */
    method LoadAliases() returns (ok: bool)
      modifies this`emails, this`aliases
      ensures ok <==> Loadable(users, search)
      ensures ok ==> emails == EmailIndex(users, search) && aliases == AliasIndex(users, search)
    {
      emails, aliases := map[], map[];
      if !search.email && !search.ci {
        return true;
      }
      var todo := users.Keys;
      while todo != {}
        invariant todo <= users.Keys
        invariant forall k :: k in users && k !in todo ==>
                    && (search.email && users[k].email != "" ==> EmailLoadable(users, k))
                    && (search.ci ==> AliasLoadable(users, k))
        invariant EmailsOf(users, users.Keys - todo, search, emails)
        invariant AliasesOf(users, users.Keys - todo, search, aliases)
        decreases todo
      {
        var k :| k in todo;
        ghost var done := users.Keys - todo;
        todo := todo - {k};
        assert users.Keys - todo == done + {k};
        ghost var before := emails;
        if search.email && users[k].email != "" {
          var loaded := LoadAliasEmail(k);
          if !loaded {
            return false;
          }
          EmailAdded(users, done, search, before, k);
        }
        if search.ci {
          var loaded := LoadAlias(k);
          if !loaded {
            return false;
          }
        }
      }
      ok := true;
      assert users.Keys - todo == users.Keys;
      IndexesComplete(users, search, emails, aliases);
    }

    /** Load: reads the file, checks it against its schema, takes the users over and builds the indexes. It succeeds
        exactly when the file is one that loads, and then memory is what a restart gives. A file that is missing, partial
        or against the schema changes nothing; users that cannot be indexed have been taken over all the same. */
    method Load() returns (ok: bool)
      modifies this`users, this`emails, this`aliases
      ensures ok <==> Restartable(old(View()), search)
      ensures ok ==> View() == Restarted(old(View()), search)
      ensures !ok ==> View() == old(View()) || (File.File(dir, path).Some? && File.File(dir, path).value.Whole? && users == Named(File.File(dir, path).value.value))
    {
      if path !in dir || dir[path].Part? || !SchemaValid(dir[path].value) {
        return false;
      }
      users := Named(dir[path].value);
      NamedSame(dir[path].value, search);
      ok := LoadAliases();
    }

    /** The common tail of the three operations: index the new users in a database of their own, write it out, and
        take it over only when both have succeeded. */
    method Replace(users': Users, io: File.Io) returns (outcome: Outcome, ghost seen: seq<File.Directory<Users>>)
      requires io.tempName != path && io.tempName !in dir
      modifies this
      ensures (View(), outcome) == Commit(old(View()), search, users', io.fault)
      ensures File.Steady(seen, old(dir), dir, path, io.tempName)
    {
      seen := [];
      var database := new Database(path, search, users', dir);
      var loaded := database.LoadAliases();
      if !loaded {
        return Unloadable, seen;
      }
      var dir', written, trace;
      ghost var switch;
      dir', written, trace, switch := File.Write(dir, path, database.users, io);
      dir, seen := dir', trace;
      if !written {
        return WriteFailed, seen;
      }
      users, emails, aliases := database.users, database.emails, database.aliases;
      return Done, seen;
    }

    method CreateUserDetails(username: string, details: Option<Details>, io: File.Io) returns (outcome: Outcome, ghost seen: seq<File.Directory<Users>>)
      requires io.tempName != path && io.tempName !in dir
      modifies this
      ensures File.Steady(seen, old(dir), dir, path, io.tempName)
      ensures details.None? ==> outcome == Done && View() == old(View())
      ensures details.Some? ==> (View(), outcome) == Create(old(View()), search, username, details.value, io.fault)
    {
      seen := [];
      if details.None? {
        return Done, seen;
      }
      if Lookup(Memory(users, emails, aliases), search, username).Some? {
        return AlreadyExists, seen;
      }
      var users' := users[username := details.value.(username := username)];
      outcome := ValidateUniqueUserIdentity(users', username);
      if outcome.Done? {
        outcome, seen := Replace(users', io);
      }
    }

    method DeleteUserDetails(username: string, io: File.Io) returns (outcome: Outcome, ghost seen: seq<File.Directory<Users>>)
      requires io.tempName != path && io.tempName !in dir
      modifies this
      ensures File.Steady(seen, old(dir), dir, path, io.tempName)
      ensures (View(), outcome) == Delete(old(View()), search, username, io.fault)
    {
      var key := Lookup(Memory(users, emails, aliases), search, username);
      if key.None? {
        return NotFound, [];
      }
      outcome, seen := Replace(users - {key.value}, io);
    }

    /** `change` stands for the closure that edits a copy of the record, None for the error it may return. */
    method UpdateUserDetails(username: string, change: Details -> Option<Details>, io: File.Io) returns (user: Option<Details>, outcome: Outcome, ghost seen: seq<File.Directory<Users>>)
      requires io.tempName != path && io.tempName !in dir
      modifies this
      ensures File.Steady(seen, old(dir), dir, path, io.tempName)
      ensures (View(), outcome) == Update(old(View()), search, username, change, io.fault)
      ensures user.Some? <==> outcome.Done?
      ensures user.Some? ==>
                && Lookup(old(View()).memory, search, username) == Some(user.value.username)
                && user.value.username in users && user.value == users[user.value.username].(username := user.value.username)
    {
      var key := Lookup(Memory(users, emails, aliases), search, username);
      seen := [];
      if key.None? {
        return None, NotFound, seen;
      }
      var updated := change(users[key.value].(username := key.value));
      if updated.None? {
        return None, Rejected, seen;
      }
      var users' := users[key.value := updated.value];
      outcome := ValidateUniqueUserIdentity(users', key.value);
      if outcome.Done? {
        outcome, seen := Replace(users', io);
      }
      user := if outcome.Done? then Some(updated.value.(username := key.value)) else None;
    }
  }
}
