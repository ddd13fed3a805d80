/** Operator waivers of lint findings (pkix-lint/src/deviation.rs): the store, the
    choice of the waiver that applies, and the split of findings. */
module Deviation {
  import opened Bytes
  import opened Outcomes
  import opened Serial

  // ----- certificates and names -----

  type Name = seq<byte>

  datatype Certificate = Certificate(issuer: Name, serial: seq<byte>, content: seq<byte>)

  /** What the scope rules use of other crates: the RFC 4514 text of a name, name
      decoding, RFC 4518 preparation and Unicode lower-casing. */
  datatype Names = Names(
    render: Name -> string,
    decode: seq<byte> -> Option<Name>,
    prepare: Name -> Name,
    lower: string -> string)
  {
    predicate Match(a: Name, b: Name) {
      prepare(a) == prepare(b)
    }
  }

  // ----- scopes -----

  const SCOPE_KIND_ANY := "pkix-lint.scope.any"
  const SCOPE_KIND_ISSUER_DN_CONTAINS := "pkix-lint.scope.issuer-dn-contains"
  const SCOPE_KIND_ISSUER_DN_EXACT := "pkix-lint.scope.issuer-dn-exact"
  const SCOPE_KIND_SERIAL_RANGE := "pkix-lint.scope.serial-range"
  const PROP_ISSUER_DN_SUBSTRING := "pkix-lint.issuer-dn-substring"
  const PROP_ISSUER_DN_DER := "pkix-lint.issuer-dn-der"
  const PROP_SERIAL_START := "pkix-lint.serial-start"
  const PROP_SERIAL_END := "pkix-lint.serial-end"

  datatype PropValue = Text(text: string) | Octets(octets: seq<byte>)

  datatype Scope = Scope(kind: string, props: seq<(string, PropValue)>)

  /** The first prop of that name. */
  function GetProp(props: seq<(string, PropValue)>, name: string): Option<PropValue> {
    if props == [] then None
    else if props[0].0 == name then Some(props[0].1)
    else GetProp(props[1..], name)
  }

  predicate HasText(scope: Scope, name: string) {
    GetProp(scope.props, name).Some? && GetProp(scope.props, name).value.Text?
  }

  predicate HasOctets(scope: Scope, name: string) {
    GetProp(scope.props, name).Some? && GetProp(scope.props, name).value.Octets?
  }

  function TextOf(scope: Scope, name: string): string
    requires HasText(scope, name)
  {
    GetProp(scope.props, name).value.text
  }

  function OctetsOf(scope: Scope, name: string): seq<byte>
    requires HasOctets(scope, name)
  {
    GetProp(scope.props, name).value.octets
  }

  predicate Contains(s: string, part: string) {
    exists i :: 0 <= i <= |s| && part <= s[i..]
  }

  /** `DeviationScope::matches`: unknown kinds and malformed props never match. */
  predicate ScopeMatches(names: Names, scope: Scope, cert: Certificate) {
    if scope.kind == SCOPE_KIND_ANY then
      true
    else if scope.kind == SCOPE_KIND_ISSUER_DN_CONTAINS then
      HasText(scope, PROP_ISSUER_DN_SUBSTRING)
      && Contains(names.lower(names.render(cert.issuer)), TextOf(scope, PROP_ISSUER_DN_SUBSTRING))
    else if scope.kind == SCOPE_KIND_ISSUER_DN_EXACT then
      HasOctets(scope, PROP_ISSUER_DN_DER) && IssuerIs(names, OctetsOf(scope, PROP_ISSUER_DN_DER), cert)
    else if scope.kind == SCOPE_KIND_SERIAL_RANGE then
      && HasOctets(scope, PROP_ISSUER_DN_DER)
      && HasOctets(scope, PROP_SERIAL_START)
      && HasOctets(scope, PROP_SERIAL_END)
      && IssuerIs(names, OctetsOf(scope, PROP_ISSUER_DN_DER), cert)
      && SerialCmp(cert.serial, OctetsOf(scope, PROP_SERIAL_START)).IsGe()
      && SerialCmp(cert.serial, OctetsOf(scope, PROP_SERIAL_END)).IsLe()
    else
      false
  }

  predicate IssuerIs(names: Names, der: seq<byte>, cert: Certificate) {
    var name := names.decode(der);
    name.Some? && names.Match(name.value, cert.issuer)
  }

  /** `validate_scope` */
  predicate WellFormedScope(scope: Scope) {
    if scope.kind == SCOPE_KIND_ISSUER_DN_CONTAINS then
      HasText(scope, PROP_ISSUER_DN_SUBSTRING)
    else if scope.kind == SCOPE_KIND_ISSUER_DN_EXACT then
      HasOctets(scope, PROP_ISSUER_DN_DER)
    else if scope.kind == SCOPE_KIND_SERIAL_RANGE then
      HasOctets(scope, PROP_ISSUER_DN_DER) && HasOctets(scope, PROP_SERIAL_START) && HasOctets(scope, PROP_SERIAL_END)
    else
      true
  }

  /** A serial-range scope holds exactly the certificates of its issuer whose serial
      number, as a number, lies between the bounds, both included. */
  lemma SerialRangeIsNumeric(names: Names, scope: Scope, cert: Certificate)
    requires scope.kind == SCOPE_KIND_SERIAL_RANGE && WellFormedScope(scope)
    ensures ScopeMatches(names, scope, cert) <==>
            && IssuerIs(names, OctetsOf(scope, PROP_ISSUER_DN_DER), cert)
            && Value(OctetsOf(scope, PROP_SERIAL_START)) <= Value(cert.serial)
            && Value(cert.serial) <= Value(OctetsOf(scope, PROP_SERIAL_END))
  {
    SerialOrderIsNumeric(cert.serial, OctetsOf(scope, PROP_SERIAL_START));
    SerialOrderIsNumeric(cert.serial, OctetsOf(scope, PROP_SERIAL_END));
  }

  // ----- deviations -----

  datatype Severity = Info | Warning | Failure

  datatype Action = DowngradeSeverityTo(severity: Severity) | Suppress

  datatype Waiver = Waiver(
    id: string,
    targetLint: string,
    scope: Scope,
    effectiveStart: Option<u64>,
    effectiveEnd: Option<u64>,
    action: Action,
    justification: string,
    authorizedBy: string,
    evidenceUri: Option<string>,
    priority: int)
  {
    predicate IsActiveAt(now: u64) {
      && (effectiveStart.Some? ==> now >= effectiveStart.value)
      && (effectiveEnd.Some? ==> now < effectiveEnd.value)
    }

    predicate AppliesTo(names: Names, cert: Certificate, now: u64) {
      IsActiveAt(now) && ScopeMatches(names, scope, cert)
    }
  }

  // ----- the choice of a waiver -----

  /** The choice the source's loop makes: the index of the waiver kept so far, replaced
      by a later one only when its priority is higher. */
  function Choose(waivers: seq<Waiver>, fits: Waiver -> bool): (best: Option<nat>)
    ensures best.Some? ==> best.value < |waivers|
  {
    if waivers == [] then
      None
    else
      var n := |waivers| - 1;
      var before := Choose(waivers[..n], fits);
      if fits(waivers[n]) && (before.None? || waivers[n].priority > waivers[before.value].priority)
      then Some(n) else before
  }

  /** Highest priority, and the earliest inserted of those. */
  ghost predicate IsBest(waivers: seq<Waiver>, fits: Waiver -> bool, i: nat) {
    && i < |waivers| && fits(waivers[i])
    && forall j :: 0 <= j < |waivers| && fits(waivers[j]) ==>
         waivers[j].priority < waivers[i].priority || (waivers[j].priority == waivers[i].priority && i <= j)
  }

  /** The choice is the best fitting waiver, and there is none only when none fits. */
  lemma {:induction false} ChoiceIsBest(waivers: seq<Waiver>, fits: Waiver -> bool)
    ensures match Choose(waivers, fits)
            case Some(i) => IsBest(waivers, fits, i)
            case None => forall w <- waivers :: !fits(w)
  {
    if waivers == [] {
    } else {
      var n := |waivers| - 1;
      ChoiceIsBest(waivers[..n], fits);
      assert waivers == waivers[..n] + [waivers[n]];
      match Choose(waivers[..n], fits) {
        case None =>
          forall j | 0 <= j < n ensures !fits(waivers[j]) {
            assert waivers[..n][j] in waivers[..n];
          }
        case Some(i) =>
          forall j | 0 <= j < n && fits(waivers[j])
            ensures waivers[j].priority < waivers[i].priority
                    || (waivers[j].priority == waivers[i].priority && i <= j)
          {
            assert fits(waivers[..n][j]);
          }
      }
    }
  }

  /** `f` is the first waiver that fits. */
  ghost predicate IsFirst(waivers: seq<Waiver>, fits: Waiver -> bool, f: nat) {
    f < |waivers| && fits(waivers[f]) && forall j :: 0 <= j < f ==> !fits(waivers[j])
  }

  /** The documentation of `run_path` says that the first match wins.  It does exactly
      when no later match has a higher priority. */
  lemma {:induction false} FirstMatchWins(waivers: seq<Waiver>, fits: Waiver -> bool, f: nat)
    requires IsFirst(waivers, fits, f)
    ensures Choose(waivers, fits) == Some(f)
            <==> forall j :: 0 <= j < |waivers| && fits(waivers[j]) ==> waivers[j].priority <= waivers[f].priority
  {
    ChoiceIsBest(waivers, fits);
    assert waivers[f] in waivers;
  }

  function FitsCert(names: Names, lintId: string, cert: Certificate, now: u64): Waiver -> bool {
    (w: Waiver) => w.targetLint == lintId && w.AppliesTo(names, cert, now)
  }

  function FitsChain(names: Names, lintId: string, chain: seq<Certificate>, now: u64): Waiver -> bool {
    (w: Waiver) => w.targetLint == lintId && exists cert :: cert in chain && w.AppliesTo(names, cert, now)
  }

  /** A waiver of every finding of a lint, at any time. */
  function Wildcard(id: string, lintId: string, priority: int): Waiver {
    Waiver(id, lintId, Scope(SCOPE_KIND_ANY, []), None, None, Suppress, "justified", "author", None, priority)
  }

  /** A store, valid for any chain, where the first match does not win. */
  lemma FirstMatchLoses(names: Names, chain: seq<Certificate>, now: u64)
    requires chain != []
    ensures var waivers, fits := [Wildcard("a", "lint", 0), Wildcard("b", "lint", 1)],
                                 FitsChain(names, "lint", chain, now);
            IsFirst(waivers, fits, 0) && Choose(waivers, fits) == Some(1)
  {
    var waivers, fits := [Wildcard("a", "lint", 0), Wildcard("b", "lint", 1)], FitsChain(names, "lint", chain, now);
    assert chain[0] in chain && fits(waivers[0]) && fits(waivers[1]);
    assert waivers[..1] == [waivers[0]] && waivers[..1][..0] == [];
  }

  /** `a` is at least as good a choice as `b`. */
  predicate AtLeastAsGood(waivers: seq<Waiver>, a: nat, b: nat)
    requires a < |waivers| && b < |waivers|
  {
    waivers[b].priority < waivers[a].priority || (waivers[b].priority == waivers[a].priority && a <= b)
  }

  /** The choice for a chain is the best of the choices for its certificates. */
  lemma {:induction false} ChainChoiceIsBestOfCerts(names: Names, waivers: seq<Waiver>, lintId: string,
                                                    chain: seq<Certificate>, now: u64)
    ensures match Choose(waivers, FitsChain(names, lintId, chain, now))
            case None => forall c <- chain :: Choose(waivers, FitsCert(names, lintId, c, now)).None?
            case Some(i) =>
              && (exists c :: c in chain && Choose(waivers, FitsCert(names, lintId, c, now)) == Some(i))
              && (forall c <- chain ::
                    var k := Choose(waivers, FitsCert(names, lintId, c, now));
                    k.Some? ==> AtLeastAsGood(waivers, i, k.value))
  {
    var fits := FitsChain(names, lintId, chain, now);
    ChoiceIsBest(waivers, fits);
    forall c | c in chain
      ensures var k := Choose(waivers, FitsCert(names, lintId, c, now));
              k.Some? ==> IsBest(waivers, FitsCert(names, lintId, c, now), k.value) && fits(waivers[k.value])
    {
      ChoiceIsBest(waivers, FitsCert(names, lintId, c, now));
    }
    match Choose(waivers, fits) {
      case None =>
      case Some(i) =>
        var c :| c in chain && waivers[i].AppliesTo(names, c, now);
        ChoiceIsBest(waivers, FitsCert(names, lintId, c, now));
        assert FitsCert(names, lintId, c, now)(waivers[i]);
        var k := Choose(waivers, FitsCert(names, lintId, c, now));
        assert k.Some? && IsBest(waivers, FitsCert(names, lintId, c, now), k.value);
        assert fits(waivers[k.value]);
    }
  }

  // ----- the store -----

  datatype AddError = DuplicateId(id: string) | EmptyField(field: string) | MalformedScope(kind: string)

  /** The props with the issuer substring in lower case. */
  function LowerSubstring(names: Names, props: seq<(string, PropValue)>): (lowered: seq<(string, PropValue)>)
    ensures |lowered| == |props|
  {
    if props == [] then
      []
    else
      var (name, value) := props[0];
      [(name, if name == PROP_ISSUER_DN_SUBSTRING && value.Text? then Text(names.lower(value.text)) else value)]
      + LowerSubstring(names, props[1..])
  }

  /** The waiver as the store keeps it. */
  function Stored(names: Names, w: Waiver): Waiver {
    if w.scope.kind == SCOPE_KIND_ISSUER_DN_CONTAINS
    then w.(scope := w.scope.(props := LowerSubstring(names, w.scope.props)))
    else w
  }

  /** Why a waiver is refused, checked in this order. */
  function Refusal(waivers: seq<Waiver>, w: Waiver): Option<AddError> {
    if w.justification == "" then Some(EmptyField("justification"))
    else if w.authorizedBy == "" then Some(EmptyField("authorized_by"))
    else if exists d :: d in waivers && d.id == w.id then Some(DuplicateId(w.id))
    else if !WellFormedScope(w.scope) then Some(MalformedScope(w.scope.kind))
    else None
  }

  lemma {:induction false} LoweredProp(names: Names, props: seq<(string, PropValue)>, name: string)
    ensures GetProp(LowerSubstring(names, props), name)
            == match GetProp(props, name)
               case None => None
               case Some(Text(t)) => Some(Text(if name == PROP_ISSUER_DN_SUBSTRING then names.lower(t) else t))
               case Some(Octets(o)) => Some(Octets(o))
  {
    if props == [] || props[0].0 == name {
    } else {
      LoweredProp(names, props[1..], name);
    }
  }

  class WaiverStore {
    const names: Names
    var waivers: seq<Waiver>

    /** No two waivers share an id; each has a justification, an author and a scope
        that can match. */
    ghost predicate Valid()
      reads this
    {
      && (forall i, j :: 0 <= i < j < |waivers| ==> waivers[i].id != waivers[j].id)
      && (forall w <- waivers :: w.justification != "" && w.authorizedBy != "" && WellFormedScope(w.scope))
    }

    constructor (names: Names)
      ensures Valid() && waivers == [] && this.names == names
    {
      this.names := names;
      waivers := [];
    }

    method Add(w: Waiver) returns (refused: Option<AddError>)
      requires Valid()
      modifies this`waivers
      ensures Valid()
      ensures refused == Refusal(old(waivers), w)
      ensures waivers == if refused == None then old(waivers) + [Stored(names, w)] else old(waivers)
    {
      if w.justification == "" {
        return Some(EmptyField("justification"));
      }
      if w.authorizedBy == "" {
        return Some(EmptyField("authorized_by"));
      }
      for i := 0 to |waivers|
        invariant forall k :: 0 <= k < i ==> waivers[k].id != w.id
      {
        if waivers[i].id == w.id {
          return Some(DuplicateId(w.id));
        }
      }
      if !WellFormedScope(w.scope) {
        return Some(MalformedScope(w.scope.kind));
      }
      LoweredProp(names, w.scope.props, PROP_ISSUER_DN_SUBSTRING);
      waivers := waivers + [Stored(names, w)];
      return None;
    }

    method FindDeviation(lintId: string, cert: Certificate, now: u64) returns (found: Option<Waiver>)
      ensures found == match Choose(waivers, FitsCert(names, lintId, cert, now))
                       case Some(i) => Some(waivers[i])
                       case None => None
    {
      ghost var fits := FitsCert(names, lintId, cert, now);
      found := None;
      for i := 0 to |waivers|
        invariant found == match Choose(waivers[..i], fits)
                           case Some(k) => Some(waivers[k])
                           case None => None
      {
        var d := waivers[i];
        assert waivers[..i + 1][..i] == waivers[..i];
        if d.targetLint == lintId && d.AppliesTo(names, cert, now) {
          if found == None || d.priority > found.value.priority {
            found := Some(d);
          }
        }
      }
      assert waivers[..|waivers|] == waivers;
    }

    method FindDeviationForChain(lintId: string, chain: seq<Certificate>, now: u64) returns (found: Option<Waiver>)
      ensures found == match Choose(waivers, FitsChain(names, lintId, chain, now))
                       case Some(i) => Some(waivers[i])
                       case None => None
    {
      ghost var fits := FitsChain(names, lintId, chain, now);
      found := None;
      for i := 0 to |waivers|
        invariant found == match Choose(waivers[..i], fits)
                           case Some(k) => Some(waivers[k])
                           case None => None
      {
        var d := waivers[i];
        assert waivers[..i + 1][..i] == waivers[..i];
        var any := AnyApplies(d, chain, now);
        if d.targetLint == lintId && any {
          if found == None || d.priority > found.value.priority {
            found := Some(d);
          }
        }
      }
      assert waivers[..|waivers|] == waivers;
    }

    method AnyApplies(d: Waiver, chain: seq<Certificate>, now: u64) returns (any: bool)
      ensures any <==> exists cert :: cert in chain && d.AppliesTo(names, cert, now)
    {
      for i := 0 to |chain|
        invariant forall k :: 0 <= k < i ==> !d.AppliesTo(names, chain[k], now)
      {
        if d.AppliesTo(names, chain[i], now) {
          return true;
        }
      }
      return false;
    }
  }
}
