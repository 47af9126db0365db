/** The check-policy command explains a decision; it names the rule the decision was made by. */
module AccessControlExplain {
  import opened Wrappers
  import opened AccessControl

  datatype RuleMatch = RuleMatch(
    rule: Rule,
    skipped: bool,
    domain: bool,
    resources: bool,
    query: bool,
    methods: bool,
    networks: bool,
    subjects: bool,
    subjectsExact: bool)
  {
    predicate IsMatch() { domain && resources && query && methods && networks && subjectsExact }
    predicate IsPotentialMatch() { domain && resources && query && methods && networks && subjects && !subjectsExact }
  }

  function MatchOf(lib: Library, r: Rule, s: Subject, o: Object, skipped: bool): RuleMatch {
    RuleMatch(r, skipped, MatchesDomains(lib, r, s, o), MatchesResources(lib, r, s, o), MatchesQuery(lib, r, o),
              MatchesMethods(r, o), MatchesNetworks(lib, r, s), MatchesSubjects(r, s), MatchesSubjectExact(r, s))
  }

  /** Each result describes its own rule and is skipped exactly when an earlier one is an exact match. */
  ghost predicate Explains(lib: Library, rules: seq<Rule>, s: Subject, o: Object, results: seq<RuleMatch>) {
    && |results| == |rules|
    && (forall i :: 0 <= i < |rules| ==> results[i] == MatchOf(lib, rules[i], s, o, results[i].skipped))
    && SkipsAfterMatch(results)
  }

  ghost predicate SkipsAfterMatch(results: seq<RuleMatch>) {
    forall i :: 0 <= i < |results| ==> (results[i].skipped <==> exists j :: 0 <= j < i && results[j].IsMatch())
  }

  method GetRuleMatchResults(lib: Library, rules: seq<Rule>, s: Subject, o: Object) returns (results: seq<RuleMatch>)
    ensures Explains(lib, rules, s, o, results)
  {
    var skipped := false;
    results := [];
    for i := 0 to |rules|
      invariant Explains(lib, rules[..i], s, o, results)
      invariant skipped <==> exists j :: 0 <= j < i && results[j].IsMatch()
    {
      var r := MatchOf(lib, rules[i], s, o, skipped);
      var before := results;
      results := results + [r];
      assert forall j :: 0 <= j < i ==> results[j] == before[j];
      skipped := skipped || r.IsMatch();
      assert results[i] == r;
    }
    assert rules[..|rules|] == rules;
  }

  /** What the summary says; rules are named by their place in the list, from one. */
  datatype Summary = Applied(rule: nat) | PotentialThenApplied(potential: nat, rule: nat) | PotentialThenDefault(potential: nat) | Default
  {
    /** The rule named first, or None for the default policy. */
    function Named(): Option<nat> {
      match this
      case Applied(r) => Some(r)
      case PotentialThenApplied(p, _) => Some(p)
      case PotentialThenDefault(p) => Some(p)
      case Default => None
    }
  }

  /** An unskipped result that matches, or may. */
  predicate Candidate(r: RuleMatch) { r.IsMatch() || r.IsPotentialMatch() }

  lemma CandidateIsMatch(lib: Library, rules: seq<Rule>, s: Subject, o: Object, results: seq<RuleMatch>, i: nat)
    requires Explains(lib, rules, s, o, results) && i < |rules|
    ensures Candidate(results[i]) <==> IsMatch(lib, rules[i], s, o)
    ensures !IsAnonymous(s) ==> !results[i].IsPotentialMatch()
  {
  }

  /** A result may match exactly when the rule matches somebody who has not logged in and lists subjects; it is an exact
      match when the rule matches otherwise. */
  lemma PotentialIff(lib: Library, rules: seq<Rule>, s: Subject, o: Object, results: seq<RuleMatch>, i: nat)
    requires Explains(lib, rules, s, o, results) && i < |rules|
    ensures results[i].IsPotentialMatch() <==> IsMatch(lib, rules[i], s, o) && IsAnonymous(s) && |rules[i].subjects| != 0
    ensures results[i].IsMatch() <==> IsMatch(lib, rules[i], s, o) && !(IsAnonymous(s) && |rules[i].subjects| != 0)
  {
  }

  /** The first result that matches or may match, or the number of results. */
  function FirstCandidate(results: seq<RuleMatch>): (k: nat)
    ensures k <= |results|
    ensures k < |results| ==> Candidate(results[k])
    ensures forall i :: 0 <= i < k ==> !Candidate(results[i])
  {
    if results == [] || Candidate(results[0]) then 0
    else
      assert forall i :: 1 <= i < |results| ==> results[i] == results[1..][i - 1];
      1 + FirstCandidate(results[1..])
  }

  /** Nothing is skipped up to the first candidate, and everything after it if it is an exact match. */
  lemma SkippedFromFirst(results: seq<RuleMatch>)
    requires SkipsAfterMatch(results)
    ensures var k := FirstCandidate(results);
            && (forall j :: 0 <= j < |results| && j <= k ==> !results[j].skipped)
            && (k < |results| && results[k].IsMatch() ==> forall j :: k < j < |results| ==> results[j].skipped)
  {
  }

  /** At most one result is an unskipped match. */
  lemma OneUnskippedMatch(results: seq<RuleMatch>, i: nat, j: nat)
    requires SkipsAfterMatch(results) && i < |results| && j < |results|
    requires results[i].IsMatch() && !results[i].skipped && results[j].IsMatch() && !results[j].skipped
    ensures i == j
  {
  }

  /** The selection loop of the check-policy output and the summary after it. For either verbosity it names first the
      first result that matches or may match, then the exact match if that is a later one, and the default policy when
      there is none. */
  method Summarize(results: seq<RuleMatch>, verbose: bool) returns (summary: Summary)
    requires SkipsAfterMatch(results)
    ensures var k := FirstCandidate(results);
            summary.Named() == if k < |results| then Some(k + 1) else None
    ensures summary.Applied? ==> 0 < summary.rule <= |results| && results[summary.rule - 1].IsMatch()
    ensures summary.PotentialThenApplied? ==>
              summary.potential < summary.rule <= |results| && results[summary.rule - 1].IsMatch() && !results[summary.rule - 1].skipped
    ensures summary.PotentialThenDefault? ==> forall i :: 0 <= i < |results| ==> !results[i].IsMatch()
  {
    ghost var k := FirstCandidate(results);
    SkippedFromFirst(results);
    var appliedPos, potentialPos := 0, 0;
    for i := 0 to |results|
      invariant 0 <= appliedPos <= i && 0 <= potentialPos <= i
      invariant i <= k ==> appliedPos == 0 && potentialPos == 0
      invariant i > k && results[k].IsMatch() ==> appliedPos == k + 1 && potentialPos == 0
      invariant i > k && !results[k].IsMatch() ==> potentialPos == k + 1 && appliedPos != k + 1
      invariant appliedPos != 0 ==> k < appliedPos && results[appliedPos - 1].IsMatch() && !results[appliedPos - 1].skipped
      invariant appliedPos == 0 ==> forall j :: 0 <= j < i ==> !results[j].IsMatch()
    {
      var result := results[i];
      if result.skipped && !verbose {
        break;
      }
      if result.IsMatch() && !result.skipped {
        appliedPos := i + 1;
      } else if result.IsPotentialMatch() && !result.skipped {
        if potentialPos == 0 {
          potentialPos := i + 1;
        }
      }
    }
    if appliedPos != 0 && (potentialPos == 0 || potentialPos > appliedPos) {
      summary := Applied(appliedPos);
    } else if potentialPos != 0 && appliedPos != 0 {
      summary := PotentialThenApplied(potentialPos, appliedPos);
    } else if potentialPos != 0 {
      summary := PotentialThenDefault(potentialPos);
    } else {
      summary := Default;
    }
  }

  /** Explaining agrees with deciding: the first candidate among the results is the rule the decision is made by, for
      every rule list, subject and object. */
  lemma ExplainAgreesWithDecide(lib: Library, rules: seq<Rule>, s: Subject, o: Object, results: seq<RuleMatch>)
    requires Explains(lib, rules, s, o, results)
    ensures FirstCandidate(results) == FirstMatch(lib, rules, s, o)
    ensures !IsAnonymous(s) ==> forall i :: 0 <= i < |results| ==> !results[i].IsPotentialMatch()
  {
    forall i: nat | i < |rules|
      ensures (Candidate(results[i]) <==> IsMatch(lib, rules[i], s, o)) && (!IsAnonymous(s) ==> !results[i].IsPotentialMatch())
    {
      CandidateIsMatch(lib, rules, s, o, results, i);
    }
  }

  /** The command as a whole: for every rule list, subject, object and verbosity it names first the rule, or the default
      policy, that GetRequiredLevel decides by. */
  method CheckPolicy(lib: Library, a: Authorizer, s: Subject, o: Object, verbose: bool) returns (summary: Summary, policy: Level)
    ensures var k := FirstMatch(lib, a.rules, s, o);
            summary.Named() == if k < |a.rules| then Some(k + 1) else None
    ensures policy == RequiredLevel(lib, a, s, o).1
    ensures !IsAnonymous(s) ==> summary.Applied? || summary.Default?
  {
    var results := GetRuleMatchResults(lib, a.rules, s, o);
    ExplainAgreesWithDecide(lib, a.rules, s, o, results);
    if |results| == 0 {
      return Default, a.defaultPolicy;
    }
    summary := Summarize(results, verbose);
    policy := match summary.Named() case Some(n) => results[n - 1].rule.policy case None => a.defaultPolicy;
  }
}
