/** Authentication method references: reading them from a claim and writing them back (section 2 of RFC 8176). */
module Amr {

  /** The registered values, by name. */
  datatype Registry<T> = Registry(
    kba: T, mfa: T, mca: T, user: T, pin: T, pwd: T,
    otp: T, pop: T, hwk: T, swk: T, sms: T)

  const RFC8176: Registry<string> := Registry("kba", "mfa", "mca", "user", "pin", "pwd", "otp", "pop", "hwk", "swk", "sms")

  /** No two of the values are the same. */
  ghost predicate Distinct<T>(v: Registry<T>) {
    && v.pwd != v.kba && v.pwd != v.otp && v.pwd != v.sms && v.pwd != v.pop && v.pwd != v.hwk && v.pwd != v.swk && v.pwd != v.user && v.pwd != v.pin && v.pwd != v.mfa && v.pwd != v.mca
    && v.kba != v.otp && v.kba != v.sms && v.kba != v.pop && v.kba != v.hwk && v.kba != v.swk && v.kba != v.user && v.kba != v.pin && v.kba != v.mfa && v.kba != v.mca
    && v.otp != v.sms && v.otp != v.pop && v.otp != v.hwk && v.otp != v.swk && v.otp != v.user && v.otp != v.pin && v.otp != v.mfa && v.otp != v.mca
    && v.sms != v.pop && v.sms != v.hwk && v.sms != v.swk && v.sms != v.user && v.sms != v.pin && v.sms != v.mfa && v.sms != v.mca
    && v.pop != v.hwk && v.pop != v.swk && v.pop != v.user && v.pop != v.pin && v.pop != v.mfa && v.pop != v.mca
    && v.hwk != v.swk && v.hwk != v.user && v.hwk != v.pin && v.hwk != v.mfa && v.hwk != v.mca
    && v.swk != v.user && v.swk != v.pin && v.swk != v.mfa && v.swk != v.mca
    && v.user != v.pin && v.user != v.mfa && v.user != v.mca
    && v.pin != v.mfa && v.pin != v.mca
    && v.mfa != v.mca
  }

  lemma RegisteredValuesDiffer()
    ensures Distinct(RFC8176)
  {
    var v := RFC8176;
    assert |v.user| == 4 && v.kba[0] == 'k' && v.otp[0] == 'o' && v.hwk[0] == 'h';
    assert v.mfa[0] == 'm' && v.mfa[1] == 'f' && v.mca[0] == 'm' && v.mca[1] == 'c';
    assert v.pin[0] == 'p' && v.pin[1] == 'i' && v.pwd[0] == 'p' && v.pwd[1] == 'w' && v.pop[0] == 'p' && v.pop[1] == 'o';
    assert v.swk[0] == 's' && v.swk[1] == 'w' && v.sms[0] == 's' && v.sms[1] == 'm';
  }

  /** The methods a session has used. */
  datatype Methods = Methods(
    knowledge: bool,
    password: bool,
    totp: bool,
    duo: bool,
    webauthn: bool,
    hardware: bool,
    software: bool,
    presence: bool,
    verified: bool)
  {
    predicate FactorKnowledge() { password || knowledge }
    predicate FactorPossession() { totp || duo || webauthn || hardware || software }
    predicate MultiFactor() { FactorKnowledge() && FactorPossession() }
    predicate ChannelBrowser() { password || totp || webauthn || hardware || software }
    predicate ChannelService() { duo }
    predicate MultiChannel() { ChannelBrowser() && ChannelService() }
  }

  datatype References<T> = References(methods: Methods, extra: seq<T>)

  // ----- sequences --------------------------------------------------------------------------------

  function Filter<T(==)>(xs: seq<T>, p: T -> bool): seq<T> {
    if xs == [] then []
    else if p(xs[|xs| - 1]) then Filter(xs[..|xs| - 1], p) + [xs[|xs| - 1]]
    else Filter(xs[..|xs| - 1], p)
  }

  lemma {:induction false} FilterContents<T>(xs: seq<T>, p: T -> bool)
    ensures forall x :: x in Filter(xs, p) <==> x in xs && p(x)
  {
    if xs != [] {
      FilterContents(xs[..|xs| - 1], p);
      assert xs == xs[..|xs| - 1] + [xs[|xs| - 1]];
    }
  }

  lemma FilterGrow<T>(xs: seq<T>, x: T, p: T -> bool)
    ensures Filter(xs + [x], p) == if p(x) then Filter(xs, p) + [x] else Filter(xs, p)
  {
    assert (xs + [x])[..|xs|] == xs;
  }

  ghost predicate NoDuplicates<T>(xs: seq<T>) {
    forall i, j :: 0 <= i < j < |xs| ==> xs[i] != xs[j]
  }

  lemma {:induction false} FilterAppend<T>(xs: seq<T>, ys: seq<T>, p: T -> bool)
    ensures Filter(xs + ys, p) == Filter(xs, p) + Filter(ys, p)
  {
    if ys == [] {
      assert xs + ys == xs;
    } else {
      FilterAppend(xs, ys[..|ys| - 1], p);
      assert (xs + ys)[..|xs + ys| - 1] == xs + ys[..|ys| - 1];
    }
  }

  lemma {:induction false} FilterAll<T>(xs: seq<T>, p: T -> bool)
    requires forall x :: x in xs ==> p(x)
    ensures Filter(xs, p) == xs
  {
    if xs != [] {
      FilterAll(xs[..|xs| - 1], p);
      assert xs == xs[..|xs| - 1] + [xs[|xs| - 1]];
    }
  }

  lemma {:induction false} FilterNone<T>(xs: seq<T>, p: T -> bool)
    requires forall x :: x in xs ==> !p(x)
    ensures Filter(xs, p) == []
  {
    if xs != [] {
      FilterNone(xs[..|xs| - 1], p);
    }
  }

  lemma {:induction false} FilterNoDuplicates<T>(xs: seq<T>, p: T -> bool)
    requires NoDuplicates(xs)
    ensures NoDuplicates(Filter(xs, p))
  {
    if xs != [] {
      FilterNoDuplicates(xs[..|xs| - 1], p);
      FilterContents(xs[..|xs| - 1], p);
      var front := Filter(xs[..|xs| - 1], p);
      assert xs[|xs| - 1] !in front;
    }
  }

  /** What a loop appends to `seen` from `xs`, skipping what is there already. */
  function Fresh<T(==)>(seen: seq<T>, xs: seq<T>): seq<T> {
    if xs == [] then []
    else
      var front, last := Fresh(seen, xs[..|xs| - 1]), xs[|xs| - 1];
      if last in seen || last in front then front else front + [last]
  }

  lemma {:induction false} FreshContents<T>(seen: seq<T>, xs: seq<T>)
    ensures forall x :: x in Fresh(seen, xs) ==> x in xs && x !in seen
    ensures forall x :: x in xs && x !in seen ==> x in Fresh(seen, xs)
  {
    if xs != [] {
      FreshContents(seen, xs[..|xs| - 1]);
      assert xs == xs[..|xs| - 1] + [xs[|xs| - 1]];
    }
  }

  lemma FreshGrow<T>(seen: seq<T>, xs: seq<T>, x: T)
    ensures Fresh(seen, xs + [x]) == if x in seen + Fresh(seen, xs) then Fresh(seen, xs) else Fresh(seen, xs) + [x]
  {
    assert (xs + [x])[..|xs|] == xs;
  }

  lemma {:induction false} FreshNoDuplicates<T>(seen: seq<T>, xs: seq<T>)
    requires NoDuplicates(seen)
    ensures NoDuplicates(Fresh(seen, xs)) && NoDuplicates(seen + Fresh(seen, xs))
  {
    if xs != [] {
      FreshNoDuplicates(seen, xs[..|xs| - 1]);
    }
    var added := Fresh(seen, xs);
    FreshContents(seen, xs);
    forall i, j | 0 <= i < |seen| && 0 <= j < |added| ensures seen[i] != added[j] {
      assert added[j] in added;
    }
  }

  lemma {:induction false} FreshIsIdentity<T>(seen: seq<T>, xs: seq<T>)
    requires NoDuplicates(xs) && forall x :: x in xs ==> x !in seen
    ensures Fresh(seen, xs) == xs
  {
    if xs != [] {
      FreshIsIdentity(seen, xs[..|xs| - 1]);
      assert xs == xs[..|xs| - 1] + [xs[|xs| - 1]];
      assert xs[|xs| - 1] !in xs[..|xs| - 1];
    }
  }

  // ----- reading ----------------------------------------------------------------------------------

  /** The values that have a field of their own. */
  predicate HasField<T(==)>(v: Registry<T>, ref: T) {
    || ref == v.kba || ref == v.pwd || ref == v.otp || ref == v.sms || ref == v.pop || ref == v.hwk || ref == v.swk
    || ref == v.pin || ref == v.user
  }

  function NoField<T(==)>(v: Registry<T>): T -> bool { ref => !HasField(v, ref) }

  /** The value is one that printing works out from the fields. */
  predicate Computed<T(==)>(v: Registry<T>, m: Methods, ref: T) {
    (ref == v.mfa && m.MultiFactor()) || (ref == v.mca && m.MultiChannel())
  }

  function NotComputed<T(==)>(v: Registry<T>, m: Methods): T -> bool { ref => !Computed(v, m, ref) }

  function Fields<T(==)>(v: Registry<T>, claim: seq<T>): Methods {
    Methods(v.kba in claim, v.pwd in claim, v.otp in claim, v.sms in claim,
            v.pop in claim || v.hwk in claim || v.swk in claim,
            v.hwk in claim, v.swk in claim, v.user in claim, v.pin in claim)
  }

  function Parse<T(==)>(v: Registry<T>, claim: seq<T>): References<T> {
    var m := Fields(v, claim);
    References(m, Filter(Filter(claim, NoField(v)), NotComputed(v, m)))
  }

  /** What one value of the claim does to the fields. */
  function Absorb<T(==)>(v: Registry<T>, m: Methods, ref: T): Methods {
    if ref == v.kba then m.(knowledge := true)
    else if ref == v.pwd then m.(password := true)
    else if ref == v.otp then m.(totp := true)
    else if ref == v.sms then m.(duo := true)
    else if ref == v.pop then m.(webauthn := true)
    else if ref == v.hwk then m.(webauthn := true, hardware := true)
    else if ref == v.swk then m.(webauthn := true, software := true)
    else if ref == v.pin then m.(verified := true)
    else if ref == v.user then m.(presence := true)
    else m
  }

  lemma FieldsGrow<T>(v: Registry<T>, claim: seq<T>, ref: T)
    ensures var m := Fields(v, claim);
            Fields(v, claim + [ref]) ==
              Methods(m.knowledge || ref == v.kba, m.password || ref == v.pwd, m.totp || ref == v.otp, m.duo || ref == v.sms,
                      m.webauthn || ref == v.pop || ref == v.hwk || ref == v.swk,
                      m.hardware || ref == v.hwk, m.software || ref == v.swk, m.presence || ref == v.user, m.verified || ref == v.pin)
  {
    assert forall x :: x in claim + [ref] <==> x in claim || x == ref;
  }

  lemma FieldsAbsorb<T>(v: Registry<T>, claim: seq<T>, ref: T)
    requires Distinct(v)
    ensures Fields(v, claim + [ref]) == Absorb(v, Fields(v, claim), ref)
  {
    FieldsGrow(v, claim, ref);
    var m := Fields(v, claim);
    AbsorbOne(v, m, ref);
  }

  lemma AbsorbOne<T>(v: Registry<T>, m: Methods, ref: T)
    requires Distinct(v)
    ensures Absorb(v, m, ref) ==
              Methods(m.knowledge || ref == v.kba, m.password || ref == v.pwd, m.totp || ref == v.otp, m.duo || ref == v.sms,
                      m.webauthn || ref == v.pop || ref == v.hwk || ref == v.swk,
                      m.hardware || ref == v.hwk, m.software || ref == v.swk, m.presence || ref == v.user, m.verified || ref == v.pin)
  {
  }

  /** NewAuthenticationMethodsReferencesFromClaim: the first loop sets the fields and puts the other values aside, the
      second drops those of them that printing would work out again. */
  method NewFromClaim<T(==)>(v: Registry<T>, claim: seq<T>) returns (amr: References<T>)
    requires Distinct(v)
    ensures amr == Parse(v, claim)
    ensures amr.methods.knowledge == (v.kba in claim) && amr.methods.password == (v.pwd in claim)
    ensures amr.methods.totp == (v.otp in claim) && amr.methods.duo == (v.sms in claim)
    ensures amr.methods.webauthn == (v.pop in claim || v.hwk in claim || v.swk in claim)
    ensures amr.methods.hardware == (v.hwk in claim) && amr.methods.software == (v.swk in claim)
    ensures amr.methods.presence == (v.user in claim) && amr.methods.verified == (v.pin in claim)
    ensures forall x :: x in amr.extra ==>
              x in claim && x !in [v.kba, v.pwd, v.otp, v.sms, v.pop, v.hwk, v.swk, v.user, v.pin]
  {
    var methods := Methods(false, false, false, false, false, false, false, false, false);
    var extras: seq<T> := [];
    for i := 0 to |claim|
      invariant methods == Fields(v, claim[..i])
      invariant extras == Filter(claim[..i], NoField(v))
    {
      FieldsAbsorb(v, claim[..i], claim[i]);
      FilterGrow(claim[..i], claim[i], NoField(v));
      assert claim[..i + 1] == claim[..i] + [claim[i]];
      methods := Absorb(v, methods, claim[i]);
      if !HasField(v, claim[i]) {
        extras := extras + [claim[i]];
      }
    }
    assert claim[..|claim|] == claim;
    amr := References(methods, []);
    for i := 0 to |extras|
      invariant amr == References(methods, Filter(extras[..i], NotComputed(v, methods)))
    {
      FilterGrow(extras[..i], extras[i], NotComputed(v, methods));
      assert extras[..i + 1] == extras[..i] + [extras[i]];
      if (extras[i] == v.mfa && amr.methods.MultiFactor()) || (extras[i] == v.mca && amr.methods.MultiChannel()) {
        continue;
      }
      amr := amr.(extra := amr.extra + [extras[i]]);
    }
    assert extras[..|extras|] == extras;
    ParseExtra(v, claim);
  }

  // ----- writing ----------------------------------------------------------------------------------

  predicate PrintedFactor<T(==)>(v: Registry<T>, m: Methods, ref: T) {
    (ref == v.pwd && m.password) || (ref == v.kba && m.knowledge) || (ref == v.otp && m.totp) || (ref == v.sms && m.duo)
  }

  predicate PrintedKey<T(==)>(v: Registry<T>, m: Methods, ref: T) {
    (ref == v.pop && (m.webauthn || m.hardware || m.software)) || (ref == v.hwk && m.hardware) || (ref == v.swk && m.software)
  }

  predicate PrintedFlag<T(==)>(v: Registry<T>, m: Methods, ref: T) {
    (ref == v.user && m.presence) || (ref == v.pin && m.verified)
  }

  /** The values printed because of a field, not because they are extra. */
  predicate Printed<T(==)>(v: Registry<T>, m: Methods, ref: T) {
    PrintedFactor(v, m, ref) || PrintedKey(v, m, ref) || PrintedFlag(v, m, ref) || Computed(v, m, ref)
  }

  function IsPrinted<T(==)>(v: Registry<T>, m: Methods): T -> bool { ref => Printed(v, m, ref) }

  /** The order in which values that come from the fields are printed. */
  function PrintOrder<T(==)>(v: Registry<T>): seq<T> {
    [v.pwd, v.kba, v.otp, v.sms, v.pop, v.hwk, v.swk, v.user, v.pin, v.mfa, v.mca]
  }

  /** Those the fields call for, in that order. */
  function Base<T(==)>(v: Registry<T>, m: Methods): seq<T> {
    Filter(PrintOrder(v), IsPrinted(v, m))
  }

  function Marshal<T(==)>(v: Registry<T>, r: References<T>): seq<T> {
    Base(v, r.methods) + Fresh(Base(v, r.methods), r.extra)
  }

  /** Which values the fields call for. */
  lemma PrintedFields<T>(v: Registry<T>, m: Methods)
    requires Distinct(v)
    ensures Printed(v, m, v.pwd) == m.password && Printed(v, m, v.kba) == m.knowledge
    ensures Printed(v, m, v.otp) == m.totp && Printed(v, m, v.sms) == m.duo
    ensures Printed(v, m, v.pop) == (m.webauthn || m.hardware || m.software)
    ensures Printed(v, m, v.hwk) == m.hardware && Printed(v, m, v.swk) == m.software
    ensures Printed(v, m, v.user) == m.presence && Printed(v, m, v.pin) == m.verified
    ensures Printed(v, m, v.mfa) == m.MultiFactor() && Printed(v, m, v.mca) == m.MultiChannel()
  {
  }

  /** What is printed for the first `i` places of the order. */
  function PrintedUpTo<T(==)>(v: Registry<T>, m: Methods, i: nat): seq<T>
    requires i <= |PrintOrder(v)|
  {
    Filter(PrintOrder(v)[..i], IsPrinted(v, m))
  }

  /** One conditional append: the next place of the order. */
  method AppendIf<T(==)>(v: Registry<T>, amr: seq<T>, b: bool, x: T, ghost m: Methods, ghost i: nat) returns (amr': seq<T>)
    requires i < |PrintOrder(v)| && PrintOrder(v)[i] == x && b == Printed(v, m, x)
    requires amr == PrintedUpTo(v, m, i)
    ensures amr' == PrintedUpTo(v, m, i + 1)
  {
    FilterGrow(PrintOrder(v)[..i], x, IsPrinted(v, m));
    assert PrintOrder(v)[..i + 1] == PrintOrder(v)[..i] + [x];
    amr' := amr;
    if b {
      amr' := amr' + [x];
    }
  }

  method PrintFactors<T(==)>(v: Registry<T>, m: Methods) returns (amr: seq<T>)
    requires Distinct(v)
    ensures amr == PrintedUpTo(v, m, 4)
  {
    PrintedFields(v, m);
    amr := [];
    amr := AppendIf(v, amr, m.password, v.pwd, m, 0);
    amr := AppendIf(v, amr, m.knowledge, v.kba, m, 1);
    amr := AppendIf(v, amr, m.totp, v.otp, m, 2);
    amr := AppendIf(v, amr, m.duo, v.sms, m, 3);
  }

  method PrintKeys<T(==)>(v: Registry<T>, m: Methods, before: seq<T>) returns (amr: seq<T>)
    requires Distinct(v) && before == PrintedUpTo(v, m, 4)
    ensures amr == PrintedUpTo(v, m, 7)
  {
    PrintedFields(v, m);
    amr := AppendIf(v, before, m.webauthn || m.hardware || m.software, v.pop, m, 4);
    amr := AppendIf(v, amr, m.hardware, v.hwk, m, 5);
    amr := AppendIf(v, amr, m.software, v.swk, m, 6);
  }

  method PrintFlags<T(==)>(v: Registry<T>, m: Methods, before: seq<T>) returns (amr: seq<T>)
    requires Distinct(v) && before == PrintedUpTo(v, m, 7)
    ensures amr == PrintedUpTo(v, m, 11)
  {
    PrintedFields(v, m);
    amr := AppendIf(v, before, m.presence, v.user, m, 7);
    amr := AppendIf(v, amr, m.verified, v.pin, m, 8);
    amr := AppendIf(v, amr, m.MultiFactor(), v.mfa, m, 9);
    amr := AppendIf(v, amr, m.MultiChannel(), v.mca, m, 10);
  }

  /** The part of MarshalRFC8176 before its loop: of the eleven values, in their order, exactly those the fields call
      for, none twice. */
  method PrintFields<T(==)>(v: Registry<T>, m: Methods) returns (amr: seq<T>)
    requires Distinct(v)
    ensures amr == Base(v, m)
    ensures forall y :: y in amr <==> Printed(v, m, y)
    ensures NoDuplicates(amr)
  {
    amr := PrintFactors(v, m);
    amr := PrintKeys(v, m, amr);
    amr := PrintFlags(v, m, amr);
    assert PrintOrder(v)[..11] == PrintOrder(v);
    BaseContents(v, m);
  }

  /** The loop of MarshalRFC8176 over the extra values. */
  method AppendFresh<T(==)>(base: seq<T>, extra: seq<T>) returns (amr: seq<T>)
    ensures amr == base + Fresh(base, extra)
  {
    amr := base;
    for i := 0 to |extra|
      invariant amr == base + Fresh(base, extra[..i])
    {
      FreshGrow(base, extra[..i], extra[i]);
      assert extra[..i + 1] == extra[..i] + [extra[i]];
      if extra[i] in amr {
        continue;
      }
      amr := amr + [extra[i]];
    }
    assert extra[..|extra|] == extra;
  }

  method MarshalRFC8176<T(==)>(v: Registry<T>, r: References<T>) returns (amr: seq<T>)
    requires Distinct(v)
    ensures amr == Marshal(v, r)
  {
    amr := PrintFields(v, r.methods);
    amr := AppendFresh(amr, r.extra);
  }

  // ----- there and back ---------------------------------------------------------------------------

  lemma OrderNoDuplicates<T>(v: Registry<T>)
    requires Distinct(v)
    ensures NoDuplicates(PrintOrder(v))
  {
  }

  lemma PrintedInOrder<T>(v: Registry<T>, m: Methods, y: T)
    requires Printed(v, m, y)
    ensures y in PrintOrder(v)
  {
  }

  /** Printing the fields prints exactly the values they call for, none twice. */
  lemma BaseContents<T>(v: Registry<T>, m: Methods)
    requires Distinct(v)
    ensures forall y :: y in Base(v, m) <==> Printed(v, m, y)
    ensures NoDuplicates(Base(v, m))
  {
    FilterContents(PrintOrder(v), IsPrinted(v, m));
    OrderNoDuplicates(v);
    FilterNoDuplicates(PrintOrder(v), IsPrinted(v, m));
    forall y | Printed(v, m, y) ensures y in PrintOrder(v) {
      PrintedInOrder(v, m, y);
    }
  }

  /** What parsing always yields. */
  predicate Normal<T(==)>(v: Registry<T>, r: References<T>) {
    && (r.methods.hardware || r.methods.software ==> r.methods.webauthn)
    && (forall x :: x in r.extra ==> !HasField(v, x) && !Computed(v, r.methods, x))
  }

  lemma ParseExtra<T>(v: Registry<T>, claim: seq<T>)
    ensures forall x :: x in Parse(v, claim).extra <==> x in claim && !HasField(v, x) && !Computed(v, Fields(v, claim), x)
  {
    FilterContents(claim, NoField(v));
    FilterContents(Filter(claim, NoField(v)), NotComputed(v, Fields(v, claim)));
  }

  lemma FieldsOfMarshal<T>(v: Registry<T>, r: References<T>)
    requires Distinct(v) && Normal(v, r)
    ensures Fields(v, Marshal(v, r)) == r.methods
  {
    BaseContents(v, r.methods);
    FreshContents(Base(v, r.methods), r.extra);
    forall x | HasField(v, x) ensures x in Marshal(v, r) <==> Printed(v, r.methods, x) {
      assert x !in r.extra;
    }
    PrintedFields(v, r.methods);
  }

  lemma RestIsComputed<T>(v: Registry<T>, m: Methods)
    requires Distinct(v)
    ensures forall x :: x in Filter(Base(v, m), NoField(v)) ==> Computed(v, m, x)
  {
    BaseContents(v, m);
    FilterContents(Base(v, m), NoField(v));
    forall x | x in Filter(Base(v, m), NoField(v)) ensures Computed(v, m, x) {
      assert Printed(v, m, x) && !HasField(v, x);
    }
  }

  /** Parsing what was printed gives the fields back, and the extra values without their repetitions. */
  lemma ParseMarshal<T>(v: Registry<T>, r: References<T>)
    requires Distinct(v) && Normal(v, r)
    ensures Parse(v, Marshal(v, r)) == r.(extra := Fresh(Base(v, r.methods), r.extra))
  {
    var base, added := Base(v, r.methods), Fresh(Base(v, r.methods), r.extra);
    FieldsOfMarshal(v, r);
    FreshContents(base, r.extra);
    FilterAppend(base, added, NoField(v));
    FilterAll(added, NoField(v));
    var rest := Filter(base, NoField(v));
    FilterAppend(rest, added, NotComputed(v, r.methods));
    FilterAll(added, NotComputed(v, r.methods));
    RestIsComputed(v, r.methods);
    FilterNone(rest, NotComputed(v, r.methods));
  }

  lemma FieldsArePrinted<T>(v: Registry<T>, claim: seq<T>, x: T)
    requires x in claim && HasField(v, x)
    ensures Printed(v, Fields(v, claim), x)
  {
  }

  /** Printing what was parsed loses no value of the claim, adds only what the fields imply, and repeats nothing. */
  lemma MarshalParseKeepsClaim<T>(v: Registry<T>, claim: seq<T>)
    requires Distinct(v)
    ensures forall x :: x in claim ==> x in Marshal(v, Parse(v, claim))
    ensures forall x :: x in Marshal(v, Parse(v, claim)) ==> x in claim || Printed(v, Fields(v, claim), x)
    ensures NoDuplicates(Marshal(v, Parse(v, claim)))
  {
    var m, extra := Fields(v, claim), Parse(v, claim).extra;
    var base := Base(v, m);
    BaseContents(v, m);
    ParseExtra(v, claim);
    FreshContents(base, extra);
    FreshNoDuplicates(base, extra);
    var added := Fresh(base, extra);
    assert Marshal(v, Parse(v, claim)) == base + added;
    forall x | x in claim ensures x in base + added {
      if HasField(v, x) {
        FieldsArePrinted(v, claim, x);
      }
      assert x in base || x in added;
    }
    forall x | x in base + added ensures x in claim || Printed(v, m, x) {
      if x in added {
        assert x in extra;
      } else {
        assert x in base;
      }
    }
  }

  /** Parsing and printing again changes nothing. */
  lemma MarshalParseIdempotent<T>(v: Registry<T>, claim: seq<T>)
    requires Distinct(v)
    ensures var once := Marshal(v, Parse(v, claim));
            Marshal(v, Parse(v, once)) == once
  {
    var r := Parse(v, claim);
    var base := Base(v, r.methods);
    var added := Fresh(base, r.extra);
    ParseExtra(v, claim);
    ParseMarshal(v, r);
    BaseContents(v, r.methods);
    FreshNoDuplicates(base, r.extra);
    FreshContents(base, r.extra);
    FreshIsIdentity(base, added);
  }

  /** Exactly which structs survive being printed and parsed. */
  lemma ParseMarshalIdentity<T>(v: Registry<T>, r: References<T>)
    requires Distinct(v)
    ensures Parse(v, Marshal(v, r)) == r <==> Normal(v, r) && NoDuplicates(r.extra)
  {
    var base := Base(v, r.methods);
    BaseContents(v, r.methods);
    if Normal(v, r) && NoDuplicates(r.extra) {
      ParseMarshal(v, r);
      assert forall x :: x in r.extra ==> x !in base;
      FreshIsIdentity(base, r.extra);
    }
    if Parse(v, Marshal(v, r)) == r {
      ParseExtra(v, Marshal(v, r));
      FreshNoDuplicates(base, r.extra);
      FilterNoDuplicates(Marshal(v, r), NoField(v));
      FilterNoDuplicates(Filter(Marshal(v, r), NoField(v)), NotComputed(v, Fields(v, Marshal(v, r))));
    }
  }

  /** The order of printing, seen when everything is printed, and kept when less is. */
  lemma PrintedInOrderAlways<T>(v: Registry<T>, m: Methods)
    requires Distinct(v)
    ensures var all := Methods(true, true, true, true, true, true, true, true, true);
            Base(v, all) == [v.pwd, v.kba, v.otp, v.sms, v.pop, v.hwk, v.swk, v.user, v.pin, v.mfa, v.mca]
    ensures Subsequence(Base(v, m), [v.pwd, v.kba, v.otp, v.sms, v.pop, v.hwk, v.swk, v.user, v.pin, v.mfa, v.mca])
  {
    var all := Methods(true, true, true, true, true, true, true, true, true);
    PrintedFields(v, all);
    FilterAll(PrintOrder(v), IsPrinted(v, all));
    FilterSubsequence(PrintOrder(v), IsPrinted(v, m));
  }

  /** The elements of `xs` are among those of `ys`, in the same order. */
  predicate Subsequence<T(==)>(xs: seq<T>, ys: seq<T>) {
    if xs == [] then true
    else if ys == [] then false
    else if xs[|xs| - 1] == ys[|ys| - 1] then Subsequence(xs[..|xs| - 1], ys[..|ys| - 1])
    else Subsequence(xs, ys[..|ys| - 1])
  }

  lemma {:induction false} FilterSubsequence<T>(xs: seq<T>, p: T -> bool)
    ensures Subsequence(Filter(xs, p), xs)
  {
    if xs != [] {
      var front, last := xs[..|xs| - 1], xs[|xs| - 1];
      FilterSubsequence(front, p);
      if p(last) {
        assert Filter(xs, p)[..|Filter(xs, p)| - 1] == Filter(front, p);
      } else {
        FilterContents(front, p);
        assert forall x :: x in Filter(front, p) ==> x != last;
      }
    }
  }

  /** A claim holds a value of something known, of something possessed, or that came through the browser. */
  predicate Knows<T(==)>(v: Registry<T>, claim: seq<T>) { v.pwd in claim || v.kba in claim }

  predicate Possesses<T(==)>(v: Registry<T>, claim: seq<T>) {
    v.otp in claim || v.sms in claim || v.pop in claim || v.hwk in claim || v.swk in claim
  }

  predicate Browses<T(==)>(v: Registry<T>, claim: seq<T>) {
    v.pwd in claim || v.otp in claim || v.pop in claim || v.hwk in claim || v.swk in claim
  }

  /** Reading a claim and printing it adds "mfa" exactly when the claim shows two kinds of factor, and "mca" exactly when
      it shows two channels; either stays if it was there. */
  lemma MultiPrintedIff<T>(v: Registry<T>, claim: seq<T>)
    requires Distinct(v)
    ensures v.mfa in Marshal(v, Parse(v, claim)) <==> v.mfa in claim || (Knows(v, claim) && Possesses(v, claim))
    ensures v.mca in Marshal(v, Parse(v, claim)) <==> v.mca in claim || (Browses(v, claim) && v.sms in claim)
  {
    var m := Fields(v, claim);
    MarshalParseKeepsClaim(v, claim);
    BaseContents(v, m);
    PrintedFields(v, m);
    assert Marshal(v, Parse(v, claim)) == Base(v, m) + Fresh(Base(v, m), Parse(v, claim).extra);
    assert m.MultiFactor() <==> Knows(v, claim) && Possesses(v, claim);
    assert m.MultiChannel() <==> Browses(v, claim) && v.sms in claim;
    assert v.mfa in Base(v, m) <==> m.MultiFactor();
    assert v.mca in Base(v, m) <==> m.MultiChannel();
  }

  /** All of it for the values of the registry: printing what was parsed loses nothing, repeats nothing and is final, and
      a struct survives being printed and parsed exactly when it is one that parsing could have yielded, without
      repetitions. */
  lemma RegistryRoundTrips(claim: seq<string>, r: References<string>)
    ensures var printed := Marshal(RFC8176, Parse(RFC8176, claim));
            && (forall x :: x in claim ==> x in printed)
            && (forall x :: x in printed ==> x in claim || Printed(RFC8176, Fields(RFC8176, claim), x))
            && NoDuplicates(printed)
            && Marshal(RFC8176, Parse(RFC8176, printed)) == printed
    ensures Parse(RFC8176, Marshal(RFC8176, r)) == r <==> Normal(RFC8176, r) && NoDuplicates(r.extra)
  {
    RegisteredValuesDiffer();
    RoundTrips(RFC8176, claim, r);
  }

  lemma RoundTrips<T>(v: Registry<T>, claim: seq<T>, r: References<T>)
    requires Distinct(v)
    ensures var printed := Marshal(v, Parse(v, claim));
            && (forall x :: x in claim ==> x in printed)
            && (forall x :: x in printed ==> x in claim || Printed(v, Fields(v, claim), x))
            && NoDuplicates(printed)
            && Marshal(v, Parse(v, printed)) == printed
    ensures Parse(v, Marshal(v, r)) == r <==> Normal(v, r) && NoDuplicates(r.extra)
  {
    MarshalParseKeepsClaim(v, claim);
    MarshalParseIdempotent(v, claim);
    ParseMarshalIdentity(v, r);
  }
}
