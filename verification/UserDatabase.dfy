/** The users of the file backend, the two indexes derived from them, and what identifies a user. */
module UserDatabase {
  import opened Wrappers
  import opened Text

  datatype Details = Details(
    username: string,
    password: string,
    displayName: string,
    email: string,
    groups: seq<string>,
    disabled: bool)

  type Users = map<string, Details>

  datatype Search = Search(email: bool, ci: bool)

  // ----- when the indexes can be built, and what they are -----------------------------------------

  predicate EmailLoadable(users: Users, k: string)
    requires k in users
  {
    var e := Lower(users[k].email);
    && (forall o :: o in users && o != k ==> !EqualFold(e, users[o].email))
    && (e in users ==> e == k)
  }

  predicate AliasLoadable(users: Users, k: string) {
    && Lower(k) == k
    && (forall o :: o in users && o != k ==> !EqualFold(k, users[o].email))
  }

  predicate Loadable(users: Users, search: Search) {
    forall k :: k in users ==>
      && (search.email && users[k].email != "" ==> EmailLoadable(users, k))
      && (search.ci ==> AliasLoadable(users, k))
  }

  lemma EmailsDistinct(users: Users, search: Search)
    requires Loadable(users, search) && search.email
    ensures forall a, b :: a in users && b in users && users[a].email != "" && Lower(users[a].email) == Lower(users[b].email) ==> a == b
  {
    forall a, b | a in users && b in users && users[a].email != "" && Lower(users[a].email) == Lower(users[b].email)
      ensures a == b
    {
      EqualFoldIsLowerEqual(Lower(users[a].email), users[b].email);
      LowerIdempotent(users[a].email);
    }
  }

  /** Folded email to username, for every user with an email. */
  function EmailIndex(users: Users, search: Search): map<string, string>
    requires Loadable(users, search)
  {
    if !search.email then map[]
    else
      EmailsDistinct(users, search);
      map k | k in users && users[k].email != "" :: Lower(users[k].email) := k
  }

  /** Folded username to username. */
  function AliasIndex(users: Users, search: Search): map<string, string>
    requires Loadable(users, search)
  {
    if search.ci then map k | k in users :: Lower(k) := k else map[]
  }

  /** Whether the indexes can be built depends on each pair of users, so it survives taking users away. */
  lemma LoadableSubmap(users: Users, sub: Users, search: Search)
    requires Loadable(users, search)
    requires forall k :: k in sub ==> k in users && sub[k] == users[k]
    ensures Loadable(sub, search)
  {
  }

  /** Only usernames and emails matter to the indexes. */
  lemma LoadableSameEmails(users: Users, users': Users, search: Search)
    requires users.Keys == users'.Keys
    requires forall k :: k in users ==> users[k].email == users'[k].email
    ensures Loadable(users, search) <==> Loadable(users', search)
    ensures Loadable(users, search) ==>
              EmailIndex(users, search) == EmailIndex(users', search) && AliasIndex(users, search) == AliasIndex(users', search)
  {
  }

  // ----- looking a user up ------------------------------------------------------------------------

  /** The database in memory. */
  datatype Memory = Memory(users: Users, emails: map<string, string>, aliases: map<string, string>)

  ghost predicate Indexed(m: Memory, search: Search) {
    && Loadable(m.users, search)
    && m.emails == EmailIndex(m.users, search)
    && m.aliases == AliasIndex(m.users, search)
  }

  /** getUserDetailsWithKey: the key a lookup resolves to. */
  function Lookup(m: Memory, search: Search, username: string): Option<string> {
    var u := Lower(username);
    if search.email && u in m.emails then
      if m.emails[u] in m.users then Some(m.emails[u]) else None
    else if search.ci && u in m.aliases then
      if m.aliases[u] in m.users then Some(m.aliases[u]) else None
    else if username in m.users then Some(username)
    else None
  }

  predicate MatchesEmail(users: Users, search: Search, k: string, username: string) {
    search.email && k in users && users[k].email != "" && EqualFold(users[k].email, username)
  }

  predicate MatchesFolded(users: Users, search: Search, k: string, username: string) {
    search.ci && k in users && EqualFold(k, username)
  }

  /** What a scan of all users finds: by folded email, else by folded username, else by exact username. */
  ghost predicate ScanFinds(users: Users, search: Search, username: string, k: string) {
    || MatchesEmail(users, search, k, username)
    || ((forall o :: o in users ==> !MatchesEmail(users, search, o, username)) &&
        (|| MatchesFolded(users, search, k, username)
         || ((forall o :: o in users ==> !MatchesFolded(users, search, o, username)) && k == username && k in users)))
  }

  lemma EmailIndexed(users: Users, search: Search, k: string, username: string)
    requires Loadable(users, search)
    ensures MatchesEmail(users, search, k, username) <==>
            var index := EmailIndex(users, search); Lower(username) in index && index[Lower(username)] == k
  {
    if k in users {
      EqualFoldIsLowerEqual(users[k].email, username);
    }
  }

  lemma AliasIndexed(users: Users, search: Search, k: string, username: string)
    requires Loadable(users, search)
    ensures MatchesFolded(users, search, k, username) <==>
            var index := AliasIndex(users, search); Lower(username) in index && index[Lower(username)] == k
  {
    EqualFoldIsLowerEqual(k, username);
  }

  /** The indexed lookup is the linear scan, for all settings of the two search flags: it resolves to a key exactly
      when the scan finds that key, and so the scan never finds two. */
  lemma LookupIsScan(m: Memory, search: Search, username: string, k: string)
    requires Indexed(m, search)
    ensures Lookup(m, search, username) == Some(k) <==> ScanFinds(m.users, search, username, k)
  {
    forall o ensures MatchesEmail(m.users, search, o, username) <==> search.email && Lower(username) in m.emails && m.emails[Lower(username)] == o {
      EmailIndexed(m.users, search, o, username);
    }
    forall o ensures MatchesFolded(m.users, search, o, username) <==> search.ci && Lower(username) in m.aliases && m.aliases[Lower(username)] == o {
      AliasIndexed(m.users, search, o, username);
    }
    var u := Lower(username);
    if search.email && u in m.emails {
      assert MatchesEmail(m.users, search, m.emails[u], username);
    } else if search.ci && u in m.aliases {
      assert MatchesFolded(m.users, search, m.aliases[u], username);
    }
  }

  /** Exactly when a username finds its own user: unless another user's email is that username up to case. */
  lemma FindsOwnUser(m: Memory, search: Search, username: string)
    requires Indexed(m, search) && username in m.users
    ensures Lookup(m, search, username).Some?
    ensures Lookup(m, search, username) == Some(username) <==>
            forall o :: o in m.users && o != username ==> !MatchesEmail(m.users, search, o, username)
  {
    LookupIsScan(m, search, username, username);
    var u := Lower(username);
    if search.ci {
      AliasIndexed(m.users, search, username, username);
    }
    if search.email && u in m.emails {
      EmailIndexed(m.users, search, m.emails[u], username);
    } else {
      forall o | o in m.users ensures !MatchesEmail(m.users, search, o, username) {
        EmailIndexed(m.users, search, o, username);
      }
    }
  }

  /** Every lowercase username finds its own user. */
  lemma LowercaseFindsOwnUser(m: Memory, search: Search, username: string)
    requires Indexed(m, search) && username in m.users && Lower(username) == username
    ensures Lookup(m, search, username) == Some(username)
  {
    FindsOwnUser(m, search, username);
    forall o | o in m.users && o != username ensures !MatchesEmail(m.users, search, o, username) {
      EqualFoldIsLowerEqual(m.users[o].email, username);
    }
  }

  // ----- identity uniqueness ----------------------------------------------------------------------

  /** The comparison validateUniqueUserIdentity makes between the changed user and one other. */
  predicate Compatible(users: Users, a: string, b: string)
    requires a in users && b in users
  {
    var ea, eb := TrimSpace(users[a].email), TrimSpace(users[b].email);
    && !(ea != "" && EqualFold(ea, eb))
    && !(ea != "" && EqualFold(ea, b))
    && !(eb != "" && EqualFold(a, eb))
  }

  predicate UniqueFor(users: Users, key: string)
    requires key in users
  {
    forall o :: o in users && o != key ==> Compatible(users, key, o)
  }

  /** No two users share an email and no user's email is another's username. */
  predicate Unique(users: Users) {
    forall a, b :: a in users && b in users && a != b ==> Compatible(users, a, b)
  }

  lemma CompatibleSymmetric(users: Users, a: string, b: string)
    requires a in users && b in users
    ensures Compatible(users, a, b) <==> Compatible(users, b, a)
  {
    EqualFoldIsLowerEqual(TrimSpace(users[a].email), TrimSpace(users[b].email));
  }

  /** Checking only the changed key is enough. */
  lemma UniqueExtends(users: Users, key: string, details: Details)
    requires Unique(users)
    requires UniqueFor(users[key := details], key)
    ensures Unique(users[key := details])
  {
    var users' := users[key := details];
    forall a, b | a in users' && b in users' && a != b ensures Compatible(users', a, b) {
      if b == key {
        CompatibleSymmetric(users', a, b);
      } else if a != key {
        assert Compatible(users, a, b);
      }
    }
  }

  /** With identities unique every username finds its own user, whatever its case, provided either it or the emails
      carry no surrounding white space (which the uniqueness check ignores and the index does not). */
  lemma UniqueFindsOwnUser(m: Memory, search: Search, username: string)
    requires Indexed(m, search) && Unique(m.users) && username in m.users
    requires Trimmed(username) || forall k :: k in m.users ==> Trimmed(m.users[k].email)
    ensures Lookup(m, search, username) == Some(username)
  {
    FindsOwnUser(m, search, username);
    forall o | o in m.users && o != username ensures !MatchesEmail(m.users, search, o, username) {
      assert Compatible(m.users, o, username);
      if EqualFold(m.users[o].email, username) {
        FoldKeepsTrimmed(m.users[o].email, username);
        TrimmedIsFixed(m.users[o].email);
      }
    }
  }

  function TwoUsers(hidden: string, other: string, email: string): Users {
    map[hidden := Details(hidden, "", "", "", [], false), other := Details(other, "", "", email, [], false)]
  }

  lemma TwoUsersPass(hidden: string, other: string, email: string)
    requires hidden != other && EqualFold(email, hidden) && !EqualFold(TrimSpace(email), hidden) && Lower(hidden) != hidden
    ensures Unique(TwoUsers(hidden, other, email)) && Loadable(TwoUsers(hidden, other, email), Search(true, false))
  {
    EqualFoldIsLowerEqual(email, hidden);
    LowerIdempotent(email);
    assert TrimSpace("") == "";
    CompatibleSymmetric(TwoUsers(hidden, other, email), hidden, other);
  }

  /** A username is hidden behind another user's email that equals it up to case, once trimming keeps the uniqueness
      check from seeing so. */
  lemma HiddenBehindEmail(hidden: string, other: string, email: string)
    requires hidden != other && EqualFold(email, hidden) && !EqualFold(TrimSpace(email), hidden) && Lower(hidden) != hidden
    ensures var search := Search(true, false);
            var users := TwoUsers(hidden, other, email);
            && Unique(users) && Loadable(users, search)
            && Lookup(Memory(users, EmailIndex(users, search), AliasIndex(users, search)), search, hidden) == Some(other)
  {
    TwoUsersPass(hidden, other, email);
    EmailIndexed(TwoUsers(hidden, other, email), Search(true, false), other, hidden);
  }

  /** Without that proviso it fails: the uniqueness check accepts the username " X" beside the email " x", and looking
      " X" up by email finds the other user. */
  lemma WhiteSpaceHidesUser() returns (m: Memory)
    ensures Indexed(m, Search(true, false)) && Unique(m.users)
    ensures " X" in m.users && Lookup(m, Search(true, false), " X") == Some("k")
  {
    var search, users := Search(true, false), TwoUsers(" X", "k", " x");
    TrimmedIsFixed(" x");
    TrimSpaceShrinks(" x");
    assert Lower(" X")[1] == 'x';
    HiddenBehindEmail(" X", "k", " x");
    m := Memory(users, EmailIndex(users, search), AliasIndex(users, search));
  }

  /** When identities are unique and emails are trimmed, the email checks of LoadAliases never fail: what is left is
      that usernames are lowercase, and that the empty username does not meet a user without an email. */
  lemma LoadableWhenUnique(users: Users, search: Search)
    requires Unique(users)
    requires forall k :: k in users ==> Trimmed(users[k].email)
    ensures Loadable(users, search) <==>
            (search.ci ==>
               && (forall k :: k in users ==> Lower(k) == k)
               && ("" in users ==> forall o :: o in users && o != "" ==> users[o].email != ""))
  {
    forall a, b | a in users && b in users && a != b
      ensures users[a].email != "" ==> !EqualFold(Lower(users[a].email), users[b].email) && Lower(users[a].email) != b
      ensures users[b].email != "" ==> !EqualFold(a, users[b].email)
    {
      assert Compatible(users, a, b);
      TrimmedIsFixed(users[a].email);
      TrimmedIsFixed(users[b].email);
      LowerIdempotent(users[a].email);
      EqualFoldIsLowerEqual(users[a].email, users[b].email);
      EqualFoldIsLowerEqual(Lower(users[a].email), users[b].email);
      EqualFoldIsLowerEqual(users[a].email, b);
    }
    if search.ci && Loadable(users, search) && "" in users {
      forall o | o in users && o != "" ensures users[o].email != "" {
        assert AliasLoadable(users, "");
        assert !EqualFold("", users[o].email);
      }
    }
  }

  /** As in two users without an email, one of them with the empty username: identities are unique, but the indexes
      cannot be built. */
  lemma EmptyUsernameBreaksIndex() returns (users: Users)
    ensures users.Keys == {"", "k"} && Unique(users)
    ensures forall k :: k in users ==> Lower(k) == k && Trimmed(users[k].email)
    ensures !Loadable(users, Search(false, true))
  {
    users := TwoUsers("", "k", "");
    assert TrimSpace("") == "" && Lower("") == "" && Lower("k") == "k";
    assert Compatible(users, "", "k") && Compatible(users, "k", "");
    assert !AliasLoadable(users, "") by {
      assert EqualFold("", users["k"].email);
    }
  }
}
