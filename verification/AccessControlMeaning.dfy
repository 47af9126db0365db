/** What the criteria of a rule mean: how each grows and shrinks, how they combine, and how they are written. */
module AccessControlMeaning {
  import opened Wrappers
  import opened Text
  import opened AccessControl
  import Explain = AccessControlExplain

  // ----- the subjects of a rule -------------------------------------------------------------------

  /** A rule without subjects is for everybody. */
  lemma NoSubjects(r: Rule, s: Subject)
    requires r.subjects == []
    ensures MatchesSubjectExact(r, s) && MatchesSubjects(r, s)
  {
  }

  /** The items of a list are a conjunction: nothing is asked by an empty list, and a further item keeps exactly those
      who match it too. */
  lemma ItemsAreConjunction(list: seq<SubjectMatcher>, item: SubjectMatcher, s: Subject)
    ensures MatchesAll([], s)
    ensures MatchesAll(list + [item], s) <==> MatchesAll(list, s) && MatchesSubject(item, s)
  {
    var longer := list + [item];
    assert longer[|list|] == item && forall j :: 0 <= j < |list| ==> longer[j] == list[j];
  }

  /** The lists of a rule are alternatives: a further list admits exactly the named subjects that match all its items,
      and costs nobody the match they had. */
  lemma ListsAreAlternatives(r: Rule, list: seq<SubjectMatcher>, s: Subject)
    requires !IsAnonymous(s)
    ensures MatchesSubjectExact(r.(subjects := r.subjects + [list]), s) <==>
            MatchesAll(list, s) || (r.subjects != [] && MatchesSubjectExact(r, s))
  {
    var lists := r.subjects + [list];
    assert lists[|r.subjects|] == list && forall i :: 0 <= i < |r.subjects| ==> lists[i] == r.subjects[i];
  }

  /** A named subject that matches a rule with one list matches each of its items, and the other way round. */
  lemma OneListAsksAll(r: Rule, s: Subject)
    requires !IsAnonymous(s) && |r.subjects| == 1
    ensures MatchesSubjectExact(r, s) <==> forall j :: 0 <= j < |r.subjects[0]| ==> MatchesSubject(r.subjects[0][j], s)
  {
    assert MatchesAll(r.subjects[0], s) <==> forall j :: 0 <= j < |r.subjects[0]| ==> MatchesSubject(r.subjects[0][j], s);
  }

  /** Adding an item to any list of a rule never makes it match a subject it did not match. */
  lemma ItemNarrows(r: Rule, i: nat, item: SubjectMatcher, s: Subject)
    requires i < |r.subjects| && MatchesSubjectExact(r.(subjects := r.subjects[i := r.subjects[i] + [item]]), s)
    ensures MatchesSubjectExact(r, s)
  {
    ItemsAreConjunction(r.subjects[i], item, s);
    var lists := r.subjects[i := r.subjects[i] + [item]];
    var k :| 0 <= k < |lists| && MatchesAll(lists[k], s);
    assert MatchesAll(r.subjects[k], s);
  }

  /** An item names a user exactly, a group the subject is in, or a client exactly. */
  lemma ItemNames(name: string, s: Subject, t: Subject)
    ensures MatchesSubject(User(name), s) && MatchesSubject(User(name), t) ==> s.username == t.username
    ensures MatchesSubject(Client(name), s) && MatchesSubject(Client(name), t) ==> s.clientId == t.clientId
    ensures MatchesSubject(User(s.username), s) && MatchesSubject(Client(s.clientId), s)
    ensures MatchesSubject(Group(name), s.(groups := s.groups + [name])) && !MatchesSubject(Group(name), s.(groups := []))
    ensures MatchesSubject(Group(name), s) ==> MatchesSubject(Group(name), s.(groups := s.groups + t.groups))
    ensures !MatchesSubject(Group(name), s) && MatchesSubject(Group(name), s.(groups := s.groups + t.groups)) ==> name in t.groups
  {
  }

  /** Somebody is anonymous exactly when no item that names a user, a group or a client is about them. */
  lemma AnonymousIff(s: Subject)
    ensures IsAnonymous(s) <==>
            forall name :: !MatchesSubject(Group(name), s) && (name != "" ==> !MatchesSubject(User(name), s) && !MatchesSubject(Client(name), s))
  {
    if forall name :: !MatchesSubject(Group(name), s) && (name != "" ==> !MatchesSubject(User(name), s) && !MatchesSubject(Client(name), s)) {
      assert MatchesSubject(User(s.username), s) && MatchesSubject(Client(s.clientId), s);
      assert s.groups != [] ==> MatchesSubject(Group(s.groups[0]), s);
    }
  }

  // ----- the other criteria -----------------------------------------------------------------------

  /** A criterion that is not given lets everything through. */
  lemma NotGiven(lib: Library, r: Rule, s: Subject, o: Object)
    ensures MatchesDomains(lib, r.(domains := []), s, o) && MatchesResources(lib, r.(resources := []), s, o)
    ensures MatchesQuery(lib, r.(query := []), o) && MatchesMethods(r.(methods := []), o) && MatchesNetworks(lib, r.(networks := []), s)
  {
  }

  /** Domains are alternatives: a further one lets through exactly what it matches itself, and keeps the rest. */
  lemma DomainsAreAlternatives(lib: Library, r: Rule, m: StringMatcher, s: Subject, o: Object)
    ensures MatchesDomains(lib, r.(domains := r.domains + [m]), s, o) <==>
            Matches(lib, m, o.domain, s) || (r.domains != [] && MatchesDomains(lib, r, s, o))
  {
    var ms := r.domains + [m];
    assert ms[|r.domains|] == m && forall i :: 0 <= i < |r.domains| ==> ms[i] == r.domains[i];
  }

  lemma ResourcesAreAlternatives(lib: Library, r: Rule, m: StringMatcher, s: Subject, o: Object)
    ensures MatchesResources(lib, r.(resources := r.resources + [m]), s, o) <==>
            Matches(lib, m, o.path, s) || (r.resources != [] && MatchesResources(lib, r, s, o))
  {
    var ms := r.resources + [m];
    assert ms[|r.resources|] == m && forall i :: 0 <= i < |r.resources| ==> ms[i] == r.resources[i];
  }

  lemma MethodsAreAlternatives(r: Rule, m: string, o: Object)
    ensures MatchesMethods(r.(methods := r.methods + [m]), o) <==> o.method' == m || (r.methods != [] && MatchesMethods(r, o))
  {
  }

  lemma NetworksAreAlternatives(lib: Library, r: Rule, n: Network, s: Subject)
    ensures MatchesNetworks(lib, r.(networks := r.networks + [n]), s) <==>
            lib.contains(n, s.ip) || (r.networks != [] && MatchesNetworks(lib, r, s))
  {
    var ns := r.networks + [n];
    assert ns[|r.networks|] == n && forall i :: 0 <= i < |r.networks| ==> ns[i] == r.networks[i];
  }

  /** Lists of query criteria are alternatives, and the criteria of a list a conjunction. */
  lemma QueriesAreAlternatives(lib: Library, r: Rule, list: seq<string>, item: string, o: Object)
    ensures MatchesQuery(lib, r.(query := r.query + [list]), o) <==> QueryAll(lib, list, o) || (r.query != [] && MatchesQuery(lib, r, o))
    ensures QueryAll(lib, [], o)
    ensures QueryAll(lib, list + [item], o) <==> QueryAll(lib, list, o) && lib.query(item, o)
  {
    var q := r.query + [list];
    assert q[|r.query|] == list && forall i :: 0 <= i < |r.query| ==> q[i] == r.query[i];
    var longer := list + [item];
    assert longer[|list|] == item && forall j :: 0 <= j < |list| ==> longer[j] == list[j];
  }

  // ----- a rule as a whole ------------------------------------------------------------------------

  /** The rule with no criteria at all. */
  function Bare(r: Rule): Rule { r.(domains := [], resources := [], query := [], methods := [], networks := [], subjects := []) }

  /** A rule matches exactly what each of its six criteria, standing alone, matches. */
  lemma CriteriaAreConjunction(lib: Library, r: Rule, s: Subject, o: Object)
    ensures IsMatch(lib, r, s, o) <==>
            && IsMatch(lib, Bare(r).(domains := r.domains), s, o) && IsMatch(lib, Bare(r).(resources := r.resources), s, o)
            && IsMatch(lib, Bare(r).(query := r.query), s, o) && IsMatch(lib, Bare(r).(methods := r.methods), s, o)
            && IsMatch(lib, Bare(r).(networks := r.networks), s, o) && IsMatch(lib, Bare(r).(subjects := r.subjects), s, o)
    ensures IsMatch(lib, Bare(r), s, o)
  {
  }

  /** Standing alone, subjects match the anonymous and the exact; the others match what the criterion does. */
  lemma CriteriaAlone(lib: Library, r: Rule, s: Subject, o: Object)
    ensures IsMatch(lib, Bare(r).(domains := r.domains), s, o) <==> MatchesDomains(lib, r, s, o)
    ensures IsMatch(lib, Bare(r).(resources := r.resources), s, o) <==> MatchesResources(lib, r, s, o)
    ensures IsMatch(lib, Bare(r).(query := r.query), s, o) <==> MatchesQuery(lib, r, o)
    ensures IsMatch(lib, Bare(r).(methods := r.methods), s, o) <==> MatchesMethods(r, o)
    ensures IsMatch(lib, Bare(r).(networks := r.networks), s, o) <==> MatchesNetworks(lib, r, s)
    ensures IsMatch(lib, Bare(r).(subjects := r.subjects), s, o) <==> IsAnonymous(s) || MatchesSubjectExact(r, s)
  {
  }

  /** Each column of an explanation says whether the criterion it is headed by, standing alone, matches. */
  lemma ColumnsAreCriteria(lib: Library, rules: seq<Rule>, s: Subject, o: Object, results: seq<Explain.RuleMatch>, i: nat)
    requires Explain.Explains(lib, rules, s, o, results) && i < |rules|
    ensures var (c, r) := (results[i], rules[i]);
            && c.rule == r
            && (c.domain <==> IsMatch(lib, Bare(r).(domains := r.domains), s, o))
            && (c.resources <==> IsMatch(lib, Bare(r).(resources := r.resources), s, o))
            && (c.query <==> IsMatch(lib, Bare(r).(query := r.query), s, o))
            && (c.methods <==> IsMatch(lib, Bare(r).(methods := r.methods), s, o))
            && (c.networks <==> IsMatch(lib, Bare(r).(networks := r.networks), s, o))
            && (c.subjects <==> IsMatch(lib, Bare(r).(subjects := r.subjects), s, o))
  {
    CriteriaAlone(lib, rules[i], s, o);
  }

  // ----- identity in domains and resources --------------------------------------------------------

  /** A pattern with both slots asks for both. */
  lemma SlotsAreConjunction(lib: Library, p: Pattern, user: nat, group: nat, input: string, s: Subject)
    ensures Matches(lib, Grouped(p, Some(user), Some(group)), input, s) <==>
            Matches(lib, Grouped(p, Some(user), None), input, s) && Matches(lib, Grouped(p, None, Some(group)), input, s)
  {
  }

  /** A pattern that names a group matches a named subject exactly when it matches the input and the subject is in that
      group, up to case: a subject without groups is not matched, and further groups never cost a match. */
  lemma NamedGroupIsMembership(lib: Library, p: Pattern, group: nat, input: string, s: Subject, more: seq<string>)
    requires !IsAnonymous(s)
    ensures var m := Grouped(p, None, Some(group));
            var found := lib.find(p, input);
            && (Matches(lib, m, input, s) ==> found.Found? && exists g :: g in s.groups && Lower(g) == Lower(found.sub(group)))
            && (found.Found? && found.sub(group) in s.groups ==> Matches(lib, m, input, s))
            && (s.groups == [] ==> !Matches(lib, m, input, s))
            && (Matches(lib, m, input, s) ==> Matches(lib, m, input, s.(groups := s.groups + more)))
  {
    var m := Grouped(p, None, Some(group));
    var found := lib.find(p, input);
    if Matches(lib, m, input, s) {
      var i :| 0 <= i < |s.groups| && EqualFold(found.sub(group), s.groups[i]);
      EqualFoldIsLowerEqual(found.sub(group), s.groups[i]);
      assert s.groups[i] in s.groups;
      assert (s.groups + more)[i] == s.groups[i];
    }
    if found.Found? && found.sub(group) in s.groups {
      var i :| 0 <= i < |s.groups| && s.groups[i] == found.sub(group);
      EqualFoldIsLowerEqual(s.groups[i], s.groups[i]);
    }
  }

  /** A pattern that names a user matches the subject of that name. */
  lemma NamedUserMatches(lib: Library, p: Pattern, user: nat, input: string, s: Subject)
    requires lib.find(p, input).Found? && s.username == lib.find(p, input).sub(user)
    ensures Matches(lib, Grouped(p, Some(user), None), input, s)
  {
    EqualFoldIsLowerEqual(s.username, s.username);
  }

  // ----- domains as they are written --------------------------------------------------------------

  /** A domain is plain when it is no wildcard and no identity token. */
  predicate PlainDomain(domain: string) {
    var d := Lower(domain);
    !HasPrefix(d, "*.") && !HasPrefix(d, "{user}") && !HasPrefix(d, "{group}")
  }

  /** A plain domain matches itself, up to case, and nothing else, whoever asks. */
  lemma PlainDomainMatches(lib: Library, domain: string, input: string, s: Subject)
    requires PlainDomain(domain)
    ensures Matches(lib, DomainMatcher(domain), input, s) <==> Lower(input) == Lower(domain)
  {
    EqualFoldIsLowerEqual(input, Lower(domain));
    LowerIdempotent(domain);
  }

  lemma LowerAppend(a: string, b: string)
    ensures Lower(a + b) == Lower(a) + Lower(b)
  {
  }

  /** `s` ends in `suffix`. */
  ghost predicate EndsIn(s: string, suffix: string) { |s| >= |suffix| && s[|s| - |suffix|..] == suffix }

  lemma EndsInIff(s: string, suffix: string)
    ensures EndsIn(s, suffix) <==> exists x :: s == x + suffix
  {
    if EndsIn(s, suffix) {
      assert s == s[..|s| - |suffix|] + suffix;
    }
  }

  lemma SuffixFold(input: string, suffix: string)
    ensures HasSuffixFold(input, suffix) <==> EndsIn(Lower(input), Lower(suffix))
  {
    if |input| >= |suffix| {
      var cut := |input| - |suffix|;
      EqualFoldIsLowerEqual(input[cut..], suffix);
      assert Lower(input)[cut..] == Lower(input[cut..]);
    }
  }

  lemma WildcardName(domain: string)
    ensures DomainMatcher("*." + domain) == DomainName("." + Lower(domain), true)
    ensures Lower("." + Lower(domain)) == "." + Lower(domain)
  {
    LowerAppend("*.", domain);
    assert Lower("*.") == "*.";
    var d := Lower("*." + domain);
    assert d[..2] == "*." && d[1..] == "." + Lower(domain);
    LowerAppend(".", Lower(domain));
    LowerIdempotent(domain);
    assert Lower(".") == ".";
  }

  /** A wildcard matches exactly the domains that end in its dot and the rest of it, up to case, whoever asks: so never
      the bare domain behind it. */
  lemma WildcardMatches(lib: Library, domain: string, input: string, s: Subject)
    ensures Matches(lib, DomainMatcher("*." + domain), input, s) <==> exists x :: Lower(input) == x + ("." + Lower(domain))
    ensures !Matches(lib, DomainMatcher("*." + domain), domain, s)
  {
    WildcardName(domain);
    SuffixFold(input, "." + Lower(domain));
    EndsInIff(Lower(input), "." + Lower(domain));
  }

  /** A token is a pattern with a slot for the user, or for the group, made from what follows it. */
  lemma TokenMatcher(rest: string)
    ensures DomainMatcher("{user}" + rest) == Grouped(Pattern(UserToken(Lower(rest)), ["", "User"]), Some(1), None)
    ensures DomainMatcher("{group}" + rest) == Grouped(Pattern(GroupToken(Lower(rest)), ["", "Group"]), None, Some(1))
  {
    LowerAppend("{user}", rest);
    LowerAppend("{group}", rest);
    assert Lower("{user}") == "{user}" && Lower("{group}") == "{group}";
    var u, g := Lower("{user}" + rest), Lower("{group}" + rest);
    assert u[0] == '{' && g[0] == '{' && g[1] == 'g' && "{user}"[1] == 'u';
    assert u[..6] == "{user}" && u[6..] == Lower(rest) && g[..7] == "{group}" && g[7..] == Lower(rest);
    TokenSlots();
  }

  lemma TokenSlots()
    ensures LastIndex(["", "User"], "User") == Some(1) && LastIndex(["", "User"], "Group") == None
    ensures LastIndex(["", "Group"], "Group") == Some(1) && LastIndex(["", "Group"], "User") == None
  {
    assert "User"[0] == 'U' && "Group"[0] == 'G';
    assert ["", "User"][..1] == [""] && ["", "Group"][..1] == [""] && [""][..0] == [];
  }

  // ----- a rule as it is configured ---------------------------------------------------------------

  /** A configured rule matches a domain by one of its names or one of its patterns. */
  lemma ConfiguredDomains(lib: Library, position: nat, c: Config, s: Subject, o: Object)
    ensures MatchesDomains(lib, RuleOf(position, c), s, o) <==>
            || (c.domains == [] && c.domainPatterns == [])
            || (exists i :: 0 <= i < |c.domains| && Matches(lib, DomainMatcher(c.domains[i]), o.domain, s))
            || (exists i :: 0 <= i < |c.domainPatterns| && Matches(lib, RegexMatcher(c.domainPatterns[i]), o.domain, s))
  {
    var ms, n := RuleOf(position, c).domains, |c.domains|;
    if i :| 0 <= i < |c.domains| && Matches(lib, DomainMatcher(c.domains[i]), o.domain, s) {
      assert ms[i] == DomainMatcher(c.domains[i]);
    }
    if i :| 0 <= i < |c.domainPatterns| && Matches(lib, RegexMatcher(c.domainPatterns[i]), o.domain, s) {
      assert ms[n + i] == RegexMatcher(c.domainPatterns[i]);
    }
    if i :| 0 <= i < |ms| && Matches(lib, ms[i], o.domain, s) {
      assert ms[i] == if i < n then DomainMatcher(c.domains[i]) else RegexMatcher(c.domainPatterns[i - n]);
    }
  }

  /** It matches a path by one of its patterns, a method in upper case, a query by a list of criteria, an address by a
      network, and has the position and the level it was given. */
  lemma ConfiguredCriteria(lib: Library, position: nat, c: Config, s: Subject, o: Object)
    ensures var r := RuleOf(position, c);
            && (MatchesResources(lib, r, s, o) <==>
                  c.resources == [] || exists i :: 0 <= i < |c.resources| && Matches(lib, RegexMatcher(c.resources[i]), o.path, s))
            && (MatchesMethods(r, o) <==> c.methods == [] || exists i :: 0 <= i < |c.methods| && Upper(c.methods[i]) == o.method')
            && (MatchesQuery(lib, r, o) <==> c.query == [] || exists i :: 0 <= i < |c.query| && QueryAll(lib, c.query[i], o))
            && (MatchesNetworks(lib, r, s) <==> c.networks == [] || exists i :: 0 <= i < |c.networks| && lib.contains(c.networks[i], s.ip))
            && r.position == position && r.policy == NewLevel(c.policy)
  {
  }

  /** Of those who are logged in it matches those who match all the recognised items of one of its lists, or everybody if
      no list has any. */
  lemma ConfiguredSubjects(position: nat, c: Config, s: Subject)
    requires !IsAnonymous(s)
    ensures MatchesSubjectExact(RuleOf(position, c), s) <==>
            || (forall i :: 0 <= i < |c.subjects| ==> SubjectsOf(c.subjects[i]) == [])
            || (exists i :: 0 <= i < |c.subjects| && SubjectsOf(c.subjects[i]) != [] && MatchesAll(SubjectsOf(c.subjects[i]), s))
  {
    var kept := RuleOf(position, c).subjects;
    forall i | 0 <= i < |c.subjects| && SubjectsOf(c.subjects[i]) != [] ensures SubjectsOf(c.subjects[i]) in kept {
      RecognisedLists(c.subjects, SubjectsOf(c.subjects[i]));
    }
    if i :| 0 <= i < |c.subjects| && SubjectsOf(c.subjects[i]) != [] && MatchesAll(SubjectsOf(c.subjects[i]), s) {
      var k :| 0 <= k < |kept| && kept[k] == SubjectsOf(c.subjects[i]);
    }
    if kept != [] {
      RecognisedLists(c.subjects, kept[0]);
      assert kept[0] in kept;
    }
    if k :| 0 <= k < |kept| && MatchesAll(kept[k], s) {
      assert kept[k] in kept;
      RecognisedLists(c.subjects, kept[k]);
    }
  }

  // ----- levels, methods and subjects as they are written -----------------------------------------

  /** Level.String. */
  function LevelName(l: Level): string {
    match l
    case Bypass => "bypass"
    case OneFactor => "one_factor"
    case TwoFactor => "two_factor"
    case Denied => "deny"
  }

  /** A level's name gives the level back, and any text that is not the name of one denies. */
  lemma LevelRoundTrip(l: Level, text: string)
    ensures NewLevel(LevelName(l)) == l
    ensures NewLevel(text) == l && !l.Denied? ==> text == LevelName(l)
    ensures (forall k: Level :: text != LevelName(k)) ==> NewLevel(text).Denied?
  {
    assert "bypass"[0] == 'b' && "one_factor"[0] == 'o' && "two_factor"[0] == 't' && "deny"[0] == 'd';
    assert forall k: Level :: text != LevelName(k) ==> k != NewLevel(text) || k.Denied?;
  }

  /** A method is compared in upper case. */
  lemma UpperMeaning(s: string)
    ensures EqualFold(Upper(s), s) && forall i :: 0 <= i < |Upper(s)| ==> !('a' <= Upper(s)[i] <= 'z')
  {
  }

  /** A subject as it is written in a configuration. */
  function SubjectText(m: SubjectMatcher): string {
    match m
    case User(n) => "user:" + n
    case Group(n) => "group:" + n
    case Client(id) => "oauth2:client:" + id
  }

  predicate NoOuterBlanks(s: string) { s == "" || (s[0] != ' ' && s[|s| - 1] != ' ') }

  ghost predicate AllBlanks(s: string) { forall i :: 0 <= i < |s| ==> s[i] == ' ' }

  /** The name in a subject loses the blanks around it, all of them, and nothing else. */
  lemma {:induction false} TrimMiddle(s: string) returns (before: string, after: string)
    ensures s == before + Trim(s) + after && AllBlanks(before) && AllBlanks(after) && NoOuterBlanks(Trim(s))
  {
    if s != [] && s[0] == ' ' {
      before, after := TrimMiddle(s[1..]);
      before := [s[0]] + before;
    } else if s != [] && s[|s| - 1] == ' ' {
      before, after := TrimMiddle(s[..|s| - 1]);
      after := after + [s[|s| - 1]];
    } else {
      before, after := "", "";
    }
  }

  lemma TrimFixed(s: string)
    requires NoOuterBlanks(s)
    ensures Trim(s) == s
  {
  }

  /** Reading back what was written gives the subject. */
  lemma SubjectRoundTrip(m: SubjectMatcher)
    requires NoOuterBlanks(match m case User(n) => n case Group(n) => n case Client(id) => id)
    ensures SubjectOf(SubjectText(m)) == Some(m)
  {
    var t := SubjectText(m);
    match m
    case User(n) =>
      TrimFixed(n);
      assert t[5..] == n;
    case Group(n) =>
      TrimFixed(n);
      assert t[0] == 'g' && "user:"[0] == 'u' && t[6..] == n;
    case Client(id) =>
      TrimFixed(id);
      assert t[0] == 'o' && "user:"[0] == 'u' && "group:"[0] == 'g' && t[14..] == id;
  }

  /** Of a list of texts exactly the recognised ones become items. */
  lemma {:induction false} RecognisedItems(texts: seq<string>, m: SubjectMatcher)
    ensures m in SubjectsOf(texts) <==> exists i :: 0 <= i < |texts| && SubjectOf(texts[i]) == Some(m)
  {
    if texts != [] {
      var front := texts[..|texts| - 1];
      RecognisedItems(front, m);
      assert forall i :: 0 <= i < |front| ==> front[i] == texts[i];
    }
  }

  /** Of the lists exactly those with a recognised item are kept. */
  lemma {:induction false} RecognisedLists(lists: seq<seq<string>>, list: seq<SubjectMatcher>)
    ensures list in SubjectLists(lists) <==> list != [] && exists i :: 0 <= i < |lists| && SubjectsOf(lists[i]) == list
  {
    if lists != [] {
      var front := lists[..|lists| - 1];
      RecognisedLists(front, list);
      assert forall i :: 0 <= i < |front| ==> front[i] == lists[i];
    }
  }

  // ----- an example -------------------------------------------------------------------------------

  /** A configuration of one rule for the members of a group who are also a given user. */
  function TeamRule(user: string, group: string): Config {
    Config([], [], [], [], [], [], [[SubjectText(User(user)), SubjectText(Group(group))]], "one_factor")
  }

  lemma TeamRuleSubjects(user: string, group: string)
    requires NoOuterBlanks(user) && NoOuterBlanks(group)
    ensures RuleOf(1, TeamRule(user, group)).subjects == [[User(user), Group(group)]]
    ensures RuleOf(1, TeamRule(user, group)).policy == OneFactor && RuleOf(1, TeamRule(user, group)).hasSubjects
  {
    SubjectRoundTrip(User(user));
    SubjectRoundTrip(Group(group));
    var texts := [SubjectText(User(user)), SubjectText(Group(group))];
    assert texts[..1] == [texts[0]] && texts[..1][..0] == [];
    assert SubjectsOf(texts[..1]) == [User(user)];
    assert SubjectsOf(texts) == [User(user), Group(group)];
    var lists: seq<seq<string>> := [texts];
    assert lists[..0] == [];
    LevelRoundTrip(OneFactor, "one_factor");
  }

  lemma TeamRuleMatches(lib: Library, user: string, group: string, s: Subject, o: Object)
    requires NoOuterBlanks(user) && NoOuterBlanks(group)
    ensures IsMatch(lib, RuleOf(1, TeamRule(user, group)), s, o) <==>
            IsAnonymous(s) || (s.username == user && group in s.groups)
  {
    var r := RuleOf(1, TeamRule(user, group));
    TeamRuleSubjects(user, group);
    var list := [User(user), Group(group)];
    if !IsAnonymous(s) {
      ItemsAreConjunction([User(user)], Group(group), s);
      ItemsAreConjunction([], User(user), s);
      assert [] + [User(user)] == [User(user)] && [User(user)] + [Group(group)] == list;
      assert MatchesSubjectExact(r, s) <==> MatchesAll(r.subjects[0], s);
    }
  }

  /** Behind such a rule and a default of deny, the user in the group needs one factor, the user outside it and everybody
      else is denied, and somebody who has not logged in is told that logging in may help. */
  lemma TeamRuleDecides(lib: Library, user: string, group: string, s: Subject, o: Object)
    requires NoOuterBlanks(user) && NoOuterBlanks(group)
    ensures RequiredLevel(lib, Authorizer(RulesOf([TeamRule(user, group)]), Denied), s, o) ==
            if IsAnonymous(s) || (s.username == user && group in s.groups) then (true, OneFactor) else (false, Denied)
  {
    TeamRuleMatches(lib, user, group, s, o);
    TeamRuleSubjects(user, group);
    var rules := RulesOf([TeamRule(user, group)]);
    assert |rules| == 1 && rules[0] == RuleOf(1, TeamRule(user, group));
  }
}
