/** Which certificates each kind of waiver covers, and when: the rules of the store
    written out on names, numbers and times. */
module WaiverForms {
  import opened Bytes
  import opened Deviation
  import opened Outcomes
  import opened Serial

  // ----- props and substrings -----

  /** A prop is the first of its name. */
  lemma {:induction false} PropExactly(props: seq<(string, PropValue)>, name: string, value: PropValue)
    ensures GetProp(props, name) == Some(value) <==>
            exists i :: 0 <= i < |props| && props[i] == (name, value) && forall j :: 0 <= j < i ==> props[j].0 != name
  {
    if props == [] {
    } else if props[0].0 == name {
      assert props[0] == (name, props[0].1);
    } else {
      var rest := props[1..];
      PropExactly(rest, name, value);
      if i :| 0 <= i < |rest| && rest[i] == (name, value) && forall j :: 0 <= j < i ==> rest[j].0 != name {
        assert props[i + 1] == (name, value);
        assert forall j :: 0 < j < i + 1 ==> props[j] == rest[j - 1];
      }
      if i :| 0 <= i < |props| && props[i] == (name, value) && forall j :: 0 <= j < i ==> props[j].0 != name {
        assert rest[i - 1] == (name, value);
        assert forall j :: 0 <= j < i - 1 ==> rest[j] == props[j + 1];
      }
    }
  }

  /** A text contains another when that stands somewhere between two stretches of it. */
  ghost predicate StandsIn(s: string, part: string) {
    exists before, after :: s == before + part + after
  }

  lemma ContainsExactly(s: string, part: string)
    ensures Contains(s, part) <==> StandsIn(s, part)
  {
    if i :| 0 <= i <= |s| && part <= s[i..] {
      assert s == s[..i] + part + s[i..][|part|..];
    }
    if before, after :| s == before + part + after {
      assert s[|before|..] == part + after;
    }
  }

  // ----- the kinds of scopes -----

  /** The issuer's name, as text in lower case, contains the substring of the scope. */
  lemma {:induction false} ContainsScope(names: Names, props: seq<(string, PropValue)>, cert: Certificate)
    ensures ScopeMatches(names, Scope("pkix-lint.scope.issuer-dn-contains", props), cert) <==>
            match GetProp(props, "pkix-lint.issuer-dn-substring")
            case Some(Text(t)) => StandsIn(names.lower(names.render(cert.issuer)), t)
            case _ => false
  {
    match GetProp(props, "pkix-lint.issuer-dn-substring")
    case Some(Text(t)) => ContainsExactly(names.lower(names.render(cert.issuer)), t);
    case _ =>
  }

  /** The issuer's name is the one of the scope after RFC 4518 preparation. */
  predicate NamedBy(names: Names, der: Option<PropValue>, issuer: Name) {
    match der
    case Some(Octets(octets)) =>
      names.decode(octets).Some? && names.prepare(names.decode(octets).value) == names.prepare(issuer)
    case _ => false
  }

  lemma {:induction false} ExactScope(names: Names, props: seq<(string, PropValue)>, cert: Certificate)
    ensures ScopeMatches(names, Scope("pkix-lint.scope.issuer-dn-exact", props), cert)
            <==> NamedBy(names, GetProp(props, "pkix-lint.issuer-dn-der"), cert.issuer)
  {
  }

  /** The issuer is the one of the scope, and the serial number, as a number, lies between
      the two bounds, both included. */
  lemma {:induction false} RangeScope(names: Names, props: seq<(string, PropValue)>, cert: Certificate)
    ensures ScopeMatches(names, Scope("pkix-lint.scope.serial-range", props), cert) <==>
            && NamedBy(names, GetProp(props, "pkix-lint.issuer-dn-der"), cert.issuer)
            && match (GetProp(props, "pkix-lint.serial-start"), GetProp(props, "pkix-lint.serial-end"))
               case (Some(Octets(first)), Some(Octets(last))) => Value(first) <= Value(cert.serial) <= Value(last)
               case _ => false
  {
    match (GetProp(props, "pkix-lint.serial-start"), GetProp(props, "pkix-lint.serial-end"))
    case (Some(Octets(first)), Some(Octets(last))) =>
      SerialOrderIsNumeric(cert.serial, first);
      SerialOrderIsNumeric(cert.serial, last);
    case _ =>
  }

  /** Of the other kinds one covers everything, and the rest nothing. */
  lemma OtherScopes(names: Names, scope: Scope, cert: Certificate)
    requires scope.kind != "pkix-lint.scope.issuer-dn-contains"
    requires scope.kind != "pkix-lint.scope.issuer-dn-exact" && scope.kind != "pkix-lint.scope.serial-range"
    ensures ScopeMatches(names, scope, cert) <==> scope.kind == "pkix-lint.scope.any"
  {
  }

  // ----- when a waiver covers a finding -----

  /** For its lint alone, from its start up to but not including its end, a bound that is
      missing being no bound, and within its scope: for a chain, the scope of some
      certificate of it. */
  lemma CoverExactly(names: Names, lintId: string, chain: seq<Certificate>, cert: Certificate, now: u64, w: Waiver)
    ensures FitsCert(names, lintId, cert, now)(w) <==>
            && w.targetLint == lintId
            && (w.effectiveStart == None || w.effectiveStart.value <= now)
            && (w.effectiveEnd == None || now < w.effectiveEnd.value)
            && ScopeMatches(names, w.scope, cert)
    ensures FitsChain(names, lintId, chain, now)(w) <==> exists c :: c in chain && FitsCert(names, lintId, c, now)(w)
  {
    if c :| c in chain && FitsCert(names, lintId, c, now)(w) {
      assert w.AppliesTo(names, c, now);
    }
    if c :| c in chain && w.targetLint == lintId && w.AppliesTo(names, c, now) {
      assert FitsCert(names, lintId, c, now)(w);
    }
  }

  // ----- what the store refuses and keeps -----

  /** The two texts first, in this order, then the id, then the scope. */
  lemma RefusalByTable(waivers: seq<Waiver>, w: Waiver)
    ensures w.justification == "" ==> Refusal(waivers, w) == Some(EmptyField("justification"))
    ensures w.justification != "" && w.authorizedBy == "" ==> Refusal(waivers, w) == Some(EmptyField("authorized_by"))
    ensures w.justification != "" && w.authorizedBy != "" ==>
              && (Refusal(waivers, w) == Some(DuplicateId(w.id)) <==> exists d :: d in waivers && d.id == w.id)
              && ((forall d <- waivers :: d.id != w.id) ==>
                    Refusal(waivers, w)
                    == if WellFormedScope(w.scope) then None else Some(MalformedScope(w.scope.kind)))
  {
  }

  /** A scope of a known kind needs the props it is read by. */
  lemma {:induction false} ScopeNeeds(props: seq<(string, PropValue)>)
    ensures WellFormedScope(Scope("pkix-lint.scope.any", props))
    ensures WellFormedScope(Scope("pkix-lint.scope.issuer-dn-contains", props)) <==>
            exists t :: GetProp(props, "pkix-lint.issuer-dn-substring") == Some(Text(t))
    ensures WellFormedScope(Scope("pkix-lint.scope.issuer-dn-exact", props)) <==>
            exists o :: GetProp(props, "pkix-lint.issuer-dn-der") == Some(Octets(o))
    ensures WellFormedScope(Scope("pkix-lint.scope.serial-range", props)) <==>
            && (exists o :: GetProp(props, "pkix-lint.issuer-dn-der") == Some(Octets(o)))
            && (exists o :: GetProp(props, "pkix-lint.serial-start") == Some(Octets(o)))
            && (exists o :: GetProp(props, "pkix-lint.serial-end") == Some(Octets(o)))
  {
  }

  /** The store changes nothing of a waiver but the substring of an issuer scope, and so
      that waiver matches without regard to case: both sides are lowered alike. */
  lemma StoredSubstring(names: Names, w: Waiver, cert: Certificate, t: string)
    requires w.scope.kind == "pkix-lint.scope.issuer-dn-contains"
    requires GetProp(w.scope.props, "pkix-lint.issuer-dn-substring") == Some(Text(t))
    ensures Stored(names, w).(scope := w.scope) == w && Stored(names, w).scope.kind == w.scope.kind
    ensures ScopeMatches(names, Stored(names, w).scope, cert)
            <==> StandsIn(names.lower(names.render(cert.issuer)), names.lower(t))
  {
    LoweredProp(names, w.scope.props, "pkix-lint.issuer-dn-substring");
    ContainsScope(names, Stored(names, w).scope.props, cert);
  }

  lemma StoredUnchanged(names: Names, w: Waiver)
    requires w.scope.kind != "pkix-lint.scope.issuer-dn-contains"
    ensures Stored(names, w) == w
  {
  }
}
