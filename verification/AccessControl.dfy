/** Access control rules: how they are built from configuration, matched, and decide a request. */
module AccessControl {
  import opened Wrappers
  import opened Text

  datatype Level = Bypass | OneFactor | TwoFactor | Denied

  /** A compiled regular expression, known by what it was compiled from and the names of its groups. */
  datatype Source = Raw(text: string) | UserToken(suffix: string) | GroupToken(suffix: string)
  datatype Pattern = Pattern(source: Source, names: seq<string>)

  datatype Network = Network(cidr: string)

  datatype Subject = Subject(username: string, groups: seq<string>, clientId: string, ip: string)

  datatype Object = Object(url: string, domain: string, path: string, method': string)

  /** The foreign libraries: submatches of a pattern, membership of a network, and one query criterion of an object. */
  datatype Found = Missed | Found(sub: nat -> string)
  datatype Library = Library(
    find: (Pattern, string) -> Found,
    contains: (Network, string) -> bool,
    query: (string, Object) -> bool)

  predicate IsAnonymous(s: Subject) {
    s.username == "" && |s.groups| == 0 && s.clientId == ""
  }

  // ----- matchers ---------------------------------------------------------------------------------

  datatype StringMatcher =
    | DomainName(name: string, wildcard: bool)
    | Plain(pattern: Pattern)
    | Grouped(pattern: Pattern, user: Option<nat>, group: Option<nat>)

  predicate HasSuffixFold(s: string, suffix: string) {
    |s| >= |suffix| && EqualFold(s[|s| - |suffix|..], suffix)
  }

  predicate InFold(x: string, xs: seq<string>) {
    exists i :: 0 <= i < |xs| && EqualFold(x, xs[i])
  }

  predicate Matches(lib: Library, m: StringMatcher, input: string, s: Subject) {
    match m
    case DomainName(name, wildcard) =>
      if wildcard then HasSuffixFold(input, name) else EqualFold(input, name)
    case Plain(p) => lib.find(p, input).Found?
    case Grouped(p, user, group) =>
      var found := lib.find(p, input);
      && found.Found?
      && (|| IsAnonymous(s)
          || ((user.Some? ==> EqualFold(s.username, found.sub(user.value)))
              && (group.Some? ==> InFold(found.sub(group.value), s.groups))))
  }

  datatype SubjectMatcher = User(name: string) | Group(name: string) | Client(id: string)

  predicate MatchesSubject(m: SubjectMatcher, s: Subject) {
    match m
    case User(n) => s.username == n
    case Group(n) => n in s.groups
    case Client(id) => id == s.clientId
  }

  datatype Rule = Rule(
    position: nat,
    hasSubjects: bool,
    domains: seq<StringMatcher>,
    resources: seq<StringMatcher>,
    query: seq<seq<string>>,
    methods: seq<string>,
    networks: seq<Network>,
    subjects: seq<seq<SubjectMatcher>>,
    policy: Level)

  predicate MatchesDomains(lib: Library, r: Rule, s: Subject, o: Object) {
    |r.domains| == 0 || exists i :: 0 <= i < |r.domains| && Matches(lib, r.domains[i], o.domain, s)
  }

  predicate MatchesResources(lib: Library, r: Rule, s: Subject, o: Object) {
    |r.resources| == 0 || exists i :: 0 <= i < |r.resources| && Matches(lib, r.resources[i], o.path, s)
  }

  /** AccessControlQuery.IsMatch: all the criteria of one list. */
  predicate QueryAll(lib: Library, list: seq<string>, o: Object) {
    forall j :: 0 <= j < |list| ==> lib.query(list[j], o)
  }

  predicate MatchesQuery(lib: Library, r: Rule, o: Object) {
    |r.query| == 0 || exists i :: 0 <= i < |r.query| && QueryAll(lib, r.query[i], o)
  }

  predicate MatchesMethods(r: Rule, o: Object) {
    |r.methods| == 0 || o.method' in r.methods
  }

  predicate MatchesNetworks(lib: Library, r: Rule, s: Subject) {
    |r.networks| == 0 || exists i :: 0 <= i < |r.networks| && lib.contains(r.networks[i], s.ip)
  }

  /** AccessControlSubjects.IsMatch: all the items of one list. */
  predicate MatchesAll(list: seq<SubjectMatcher>, s: Subject) {
    forall j :: 0 <= j < |list| ==> MatchesSubject(list[j], s)
  }

  predicate MatchesSubjectExact(r: Rule, s: Subject) {
    || |r.subjects| == 0
    || (!IsAnonymous(s) && exists i :: 0 <= i < |r.subjects| && MatchesAll(r.subjects[i], s))
  }

  predicate MatchesSubjects(r: Rule, s: Subject) {
    IsAnonymous(s) || MatchesSubjectExact(r, s)
  }

  predicate IsMatch(lib: Library, r: Rule, s: Subject, o: Object) {
    && MatchesDomains(lib, r, s, o)
    && MatchesResources(lib, r, s, o)
    && MatchesQuery(lib, r, o)
    && MatchesMethods(r, o)
    && MatchesNetworks(lib, r, s)
    && MatchesSubjects(r, s)
  }

  // ----- deciding ---------------------------------------------------------------------------------

  datatype Authorizer = Authorizer(rules: seq<Rule>, defaultPolicy: Level)

  /** The index of the rule that decides, or the number of rules when none matches. */
  function FirstMatch(lib: Library, rules: seq<Rule>, s: Subject, o: Object): (k: nat)
    ensures k <= |rules|
    ensures k < |rules| ==> IsMatch(lib, rules[k], s, o)
    ensures forall i :: 0 <= i < k ==> !IsMatch(lib, rules[i], s, o)
  {
    if rules == [] then 0
    else if IsMatch(lib, rules[0], s, o) then 0
    else
      var k := FirstMatch(lib, rules[1..], s, o);
      assert forall i :: 1 <= i < |rules| ==> rules[i] == rules[1..][i - 1];
      1 + k
  }

  function RequiredLevel(lib: Library, a: Authorizer, s: Subject, o: Object): (bool, Level) {
    var k := FirstMatch(lib, a.rules, s, o);
    if k < |a.rules| then (a.rules[k].hasSubjects, a.rules[k].policy) else (false, a.defaultPolicy)
  }

  /** The loop over the rules decides by the first that matches. */
  method GetRequiredLevel(lib: Library, a: Authorizer, s: Subject, o: Object) returns (hasSubjects: bool, level: Level)
    ensures (hasSubjects, level) == RequiredLevel(lib, a, s, o)
  {
    for i := 0 to |a.rules|
      invariant forall j :: 0 <= j < i ==> !IsMatch(lib, a.rules[j], s, o)
    {
      if IsMatch(lib, a.rules[i], s, o) {
        return a.rules[i].hasSubjects, a.rules[i].policy;
      }
    }
    return false, a.defaultPolicy;
  }

  // ----- building a rule --------------------------------------------------------------------------

  datatype Config = Config(
    domains: seq<string>,
    domainPatterns: seq<Pattern>,
    resources: seq<Pattern>,
    query: seq<seq<string>>,
    methods: seq<string>,
    networks: seq<Network>,
    subjects: seq<seq<string>>,
    policy: string)

  function NewLevel(policy: string): Level {
    if policy == "bypass" then Bypass
    else if policy == "one_factor" then OneFactor
    else if policy == "two_factor" then TwoFactor
    else Denied
  }

  /** The last group with the given name, as the loop over the names leaves it. */
  function LastIndex(names: seq<string>, name: string): Option<nat> {
    if names == [] then None
    else if names[|names| - 1] == name then Some(|names| - 1)
    else LastIndex(names[..|names| - 1], name)
  }

  function RegexMatcher(p: Pattern): StringMatcher {
    var user, group := LastIndex(p.names, "User"), LastIndex(p.names, "Group");
    if user.Some? || group.Some? then Grouped(p, user, group) else Plain(p)
  }

  /** NewAccessControlDomainRegex and NewAccessControlResource: finds the identity groups by name. */
  method NewRegexMatcher(p: Pattern) returns (subjects: bool, m: StringMatcher)
    ensures m == RegexMatcher(p)
    ensures subjects <==> m.Grouped?
  {
    var iuser, igroup := -1, -1;
    for i := 0 to |p.names|
      invariant LastIndex(p.names[..i], "User") == if iuser == -1 then None else Some(iuser)
      invariant LastIndex(p.names[..i], "Group") == if igroup == -1 then None else Some(igroup)
      invariant -1 <= iuser < i && -1 <= igroup < i
    {
      assert p.names[..i + 1][..i] == p.names[..i];
      if p.names[i] == "User" {
        iuser := i;
      } else if p.names[i] == "Group" {
        igroup := i;
      }
    }
    assert p.names[..|p.names|] == p.names;
    if iuser != -1 || igroup != -1 {
      return true, Grouped(p, if iuser == -1 then None else Some(iuser), if igroup == -1 then None else Some(igroup));
    }
    return false, Plain(p);
  }

  predicate HasPrefix(s: string, prefix: string) { prefix <= s }

  /** NewAccessControlDomain: a wildcard, an identity token, or a plain name. */
  function DomainMatcher(domain: string): StringMatcher {
    var d := Lower(domain);
    if HasPrefix(d, "*.") then DomainName(d[1..], true)
    else if HasPrefix(d, "{user}") then RegexMatcher(Pattern(UserToken(d[6..]), ["", "User"]))
    else if HasPrefix(d, "{group}") then RegexMatcher(Pattern(GroupToken(d[7..]), ["", "Group"]))
    else DomainName(d, false)
  }

  function Trim(s: string): string {
    if s != [] && s[0] == ' ' then Trim(s[1..])
    else if s != [] && s[|s| - 1] == ' ' then Trim(s[..|s| - 1])
    else s
  }

  function SubjectOf(text: string): Option<SubjectMatcher> {
    if HasPrefix(text, "user:") then Some(User(Trim(text[5..])))
    else if HasPrefix(text, "group:") then Some(Group(Trim(text[6..])))
    else if HasPrefix(text, "oauth2:client:") then Some(Client(Trim(text[14..])))
    else None
  }

  function SubjectsOf(texts: seq<string>): seq<SubjectMatcher> {
    if texts == [] then []
    else
      var front := SubjectsOf(texts[..|texts| - 1]);
      var last := SubjectOf(texts[|texts| - 1]);
      if last.Some? then front + [last.value] else front
  }

  /** schemaSubjectsToACL: a list none of whose items is recognised is dropped. */
  function SubjectLists(lists: seq<seq<string>>): seq<seq<SubjectMatcher>> {
    if lists == [] then []
    else
      var front := SubjectLists(lists[..|lists| - 1]);
      var last := SubjectsOf(lists[|lists| - 1]);
      if last != [] then front + [last] else front
  }

  function Mapped<T, U>(xs: seq<T>, f: T -> U): (r: seq<U>)
    ensures |r| == |xs| && forall i :: 0 <= i < |xs| ==> r[i] == f(xs[i])
  {
    seq(|xs|, i requires 0 <= i < |xs| => f(xs[i]))
  }

  function UpperChar(c: char): char {
    if 'a' <= c <= 'z' then (c as int - 32) as char else c
  }

  function Upper(s: string): string { Mapped(s, UpperChar) }

  predicate AnyGrouped(ms: seq<StringMatcher>) {
    exists i :: 0 <= i < |ms| && ms[i].Grouped?
  }

  lemma AnyGroupedGrows(ms: seq<StringMatcher>, m: StringMatcher)
    ensures AnyGrouped(ms + [m]) <==> AnyGrouped(ms) || m.Grouped?
  {
    assert (ms + [m])[|ms|] == m;
    if i :| 0 <= i < |ms| && ms[i].Grouped? {
      assert (ms + [m])[i].Grouped?;
    }
  }

  /** A rule under construction; `listed` says whether it lists subjects of its own. */
  class RuleBuilder {
    const listed: bool
    var hasSubjects: bool
    var domains: seq<StringMatcher>
    var resources: seq<StringMatcher>

    /** The flag says exactly whether any criterion so far looks at who the subject is. */
    ghost predicate FlagExact()
      reads this
    {
      hasSubjects <==> listed || AnyGrouped(domains) || AnyGrouped(resources)
    }

    constructor (listed: bool)
      ensures this.listed == listed && domains == [] && resources == [] && FlagExact()
    {
      this.listed, hasSubjects, domains, resources := listed, listed, [], [];
    }

    method AddDomains(rules: seq<string>)
      requires FlagExact()
      modifies this
      ensures FlagExact()
      ensures domains == old(domains) + Mapped(rules, DomainMatcher) && resources == old(resources)
    {
      for k := 0 to |rules|
        invariant domains == old(domains) + Mapped(rules, DomainMatcher)[..k] && resources == old(resources)
        invariant FlagExact()
      {
        var m := DomainMatcher(rules[k]);
        AnyGroupedGrows(domains, m);
        domains := domains + [m];
        if !hasSubjects && m.Grouped? {
          hasSubjects := true;
        }
      }
    }

    method AddDomainPatterns(patterns: seq<Pattern>)
      requires FlagExact()
      modifies this
      ensures FlagExact()
      ensures domains == old(domains) + Mapped(patterns, RegexMatcher) && resources == old(resources)
    {
      for k := 0 to |patterns|
        invariant domains == old(domains) + Mapped(patterns, RegexMatcher)[..k] && resources == old(resources)
        invariant FlagExact()
      {
        var subjects, m := NewRegexMatcher(patterns[k]);
        AnyGroupedGrows(domains, m);
        domains := domains + [m];
        if !hasSubjects && subjects {
          hasSubjects := true;
        }
      }
    }

    method AddResources(patterns: seq<Pattern>)
      requires FlagExact()
      modifies this
      ensures FlagExact()
      ensures resources == old(resources) + Mapped(patterns, RegexMatcher) && domains == old(domains)
    {
      for k := 0 to |patterns|
        invariant resources == old(resources) + Mapped(patterns, RegexMatcher)[..k] && domains == old(domains)
        invariant FlagExact()
      {
        var subjects, m := NewRegexMatcher(patterns[k]);
        AnyGroupedGrows(resources, m);
        resources := resources + [m];
        if !hasSubjects && subjects {
          hasSubjects := true;
        }
      }
    }
  }

  /** The flag of a finished rule is on exactly when some criterion of it looks at who the subject is. */
  predicate FlagExact(r: Rule) {
    r.hasSubjects <==> |r.subjects| != 0 || AnyGrouped(r.domains) || AnyGrouped(r.resources)
  }

  function RuleOf(position: nat, config: Config): Rule {
    var domains := Mapped(config.domains, DomainMatcher) + Mapped(config.domainPatterns, RegexMatcher);
    var resources := Mapped(config.resources, RegexMatcher);
    var subjects := SubjectLists(config.subjects);
    Rule(position, |subjects| != 0 || AnyGrouped(domains) || AnyGrouped(resources),
         domains, resources, config.query, Mapped(config.methods, Upper), config.networks, subjects, NewLevel(config.policy))
  }

  /** The rules of a configuration, numbered from one. */
  function RulesOf(configs: seq<Config>): seq<Rule> {
    seq(|configs|, i requires 0 <= i < |configs| => RuleOf(i + 1, configs[i]))
  }

  method SchemaSubjectsToACL(lists: seq<seq<string>>) returns (subjects: seq<seq<SubjectMatcher>>)
    ensures subjects == SubjectLists(lists)
  {
    subjects := [];
    for i := 0 to |lists|
      invariant subjects == SubjectLists(lists[..i])
    {
      var subject: seq<SubjectMatcher> := [];
      for j := 0 to |lists[i]|
        invariant subject == SubjectsOf(lists[i][..j])
      {
        assert lists[i][..j + 1][..j] == lists[i][..j];
        var item := SubjectOf(lists[i][j]);
        if item.Some? {
          subject := subject + [item.value];
        }
      }
      assert lists[i][..|lists[i]|] == lists[i] && lists[..i + 1][..i] == lists[..i];
      if |subject| != 0 {
        subjects := subjects + [subject];
      }
    }
    assert lists[..|lists|] == lists;
  }

  method NewAccessControlRule(position: nat, config: Config) returns (r: Rule)
    ensures r == RuleOf(position, config)
  {
    var subjects := SchemaSubjectsToACL(config.subjects);
    var b := new RuleBuilder(|subjects| != 0);
    b.AddDomains(config.domains);
    b.AddDomainPatterns(config.domainPatterns);
    b.AddResources(config.resources);
    assert b.domains == Mapped(config.domains, DomainMatcher) + Mapped(config.domainPatterns, RegexMatcher);
    assert b.resources == Mapped(config.resources, RegexMatcher);
    r := Rule(position, b.hasSubjects, b.domains, b.resources, config.query, Mapped(config.methods, Upper), config.networks, subjects, NewLevel(config.policy));
  }

  method NewAccessControlRules(configs: seq<Config>) returns (rules: seq<Rule>)
    ensures rules == RulesOf(configs)
  {
    rules := [];
    for i := 0 to |configs|
      invariant rules == RulesOf(configs)[..i]
    {
      var r := NewAccessControlRule(i + 1, configs[i]);
      rules := rules + [r];
    }
  }

  // ----- anonymous decisions ----------------------------------------------------------------------

  /** A rule that matches a subject matches the anonymous subject at the same address; if its flag is off it matches
      both or neither. */
  lemma AnonymousIsLenient(lib: Library, r: Rule, anon: Subject, s: Subject, o: Object)
    requires IsAnonymous(anon) && anon.ip == s.ip
    ensures IsMatch(lib, r, s, o) ==> IsMatch(lib, r, anon, o)
    ensures FlagExact(r) && !r.hasSubjects ==> (IsMatch(lib, r, s, o) <==> IsMatch(lib, r, anon, o))
  {
    forall m: StringMatcher, input ensures Matches(lib, m, input, s) ==> Matches(lib, m, input, anon) {
    }
    forall m: StringMatcher, input | !m.Grouped? ensures Matches(lib, m, input, s) <==> Matches(lib, m, input, anon) {
    }
  }

  /** Logging in never moves a decision to an earlier rule. */
  lemma LoginNeverDecidesEarlier(lib: Library, rules: seq<Rule>, anon: Subject, s: Subject, o: Object)
    requires IsAnonymous(anon) && anon.ip == s.ip
    ensures FirstMatch(lib, rules, anon, o) <= FirstMatch(lib, rules, s, o)
  {
    var k := FirstMatch(lib, rules, s, o);
    if k < |rules| {
      AnonymousIsLenient(lib, rules[k], anon, s, o);
    }
  }

  lemma UnflaggedDecisionIsFinal(lib: Library, a: Authorizer, anon: Subject, s: Subject, o: Object)
    requires forall i :: 0 <= i < |a.rules| ==> FlagExact(a.rules[i])
    requires IsAnonymous(anon) && anon.ip == s.ip
    requires !RequiredLevel(lib, a, anon, o).0
    ensures RequiredLevel(lib, a, s, o) == RequiredLevel(lib, a, anon, o)
  {
    LoginNeverDecidesEarlier(lib, a.rules, anon, s, o);
    var k := FirstMatch(lib, a.rules, anon, o);
    if k < |a.rules| {
      AnonymousIsLenient(lib, a.rules[k], anon, s, o);
    }
  }

  /** An anonymous decision that claims to depend on no subject is final: for every configuration, every subject at the
      same address gets the same level and the same claim. */
  lemma AnonymousDecisionIsFinal(lib: Library, configs: seq<Config>, defaultPolicy: Level, anon: Subject, s: Subject, o: Object)
    requires IsAnonymous(anon) && anon.ip == s.ip
    requires !RequiredLevel(lib, Authorizer(RulesOf(configs), defaultPolicy), anon, o).0
    ensures RequiredLevel(lib, Authorizer(RulesOf(configs), defaultPolicy), s, o)
            == RequiredLevel(lib, Authorizer(RulesOf(configs), defaultPolicy), anon, o)
  {
    UnflaggedDecisionIsFinal(lib, Authorizer(RulesOf(configs), defaultPolicy), anon, s, o);
  }

  /** A domain or resource that names its user belongs to one user: two subjects it matches have the same username, up to
      case. */
  lemma NamedUserIsExclusive(lib: Library, m: StringMatcher, input: string, s: Subject, t: Subject)
    requires m.Grouped? && m.user.Some? && !IsAnonymous(s) && !IsAnonymous(t)
    requires Matches(lib, m, input, s) && Matches(lib, m, input, t)
    ensures EqualFold(s.username, t.username)
  {
    var named := lib.find(m.pattern, input).sub(m.user.value);
    EqualFoldIsLowerEqual(s.username, named);
    EqualFoldIsLowerEqual(t.username, named);
    EqualFoldIsLowerEqual(s.username, t.username);
  }

  /** A pattern gets a user or group slot exactly when one of its groups has that name, so tokens always get one. */
  lemma SlotIffNamed(p: Pattern)
    ensures RegexMatcher(p).Grouped? <==> "User" in p.names || "Group" in p.names
    ensures RegexMatcher(p).Grouped? && RegexMatcher(p).user.Some? ==>
              && RegexMatcher(p).user.value < |p.names| && p.names[RegexMatcher(p).user.value] == "User"
              && "User" !in p.names[RegexMatcher(p).user.value + 1..]
    ensures RegexMatcher(p).Grouped? && RegexMatcher(p).group.Some? ==>
              && RegexMatcher(p).group.value < |p.names| && p.names[RegexMatcher(p).group.value] == "Group"
              && "Group" !in p.names[RegexMatcher(p).group.value + 1..]
  {
    LastIndexFinds(p.names, "User");
    LastIndexFinds(p.names, "Group");
  }

  lemma {:induction false} LastIndexFinds(names: seq<string>, name: string)
    ensures LastIndex(names, name).Some? <==> name in names
    ensures LastIndex(names, name).Some? ==> LastIndex(names, name).value < |names| && names[LastIndex(names, name).value] == name
    ensures LastIndex(names, name).Some? ==> name !in names[LastIndex(names, name).value + 1..]
  {
    if names != [] {
      var front, last := names[..|names| - 1], names[|names| - 1];
      LastIndexFinds(front, name);
      assert names == front + [last];
      var k := LastIndex(names, name);
      if k.Some? && last != name {
        assert names[k.value + 1..] == front[k.value + 1..] + [last];
      }
    }
  }
}
