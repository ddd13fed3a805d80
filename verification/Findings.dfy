/** What becomes of lint findings (pkix-lint/src/lib.rs, pkix-lint/src/deviation.rs):
    running the lints on a certificate, and setting aside the findings that a waiver
    covers. */
module Findings {
  import opened Bytes
  import opened Deviation
  import opened Outcomes

  // ----- lints and findings -----

  datatype LintResult = Pass | NotApplicable | Warn(detail: string) | Error(detail: string) | Fatal(detail: string)
  {
    predicate IsFinding() {
      Warn? || Error? || Fatal?
    }
  }

  datatype SubjectKind = Leaf | IntermediateCa | AnchorIssued | Any
  {
    predicate Matches(filter: SubjectKind) {
      match filter
      case Any => true
      case IntermediateCa => IntermediateCa? || AnchorIssued?
      case other => this == other
    }
  }

  datatype LintScope = CertificateScope | PathScope

  datatype Lint = Lint(
    id: string,
    citation: string,
    scope: LintScope,
    appliesTo: SubjectKind,
    checkCert: (Certificate, SubjectKind, u64) -> LintResult)

  datatype Finding = Finding(
    lintId: string,
    citation: string,
    ruleBundleVersion: string,
    result: LintResult,
    certIndex: Option<nat>,
    evaluatedAt: u64,
    certSha256: Option<seq<byte>>)

  datatype DeviatedFinding = DeviatedFinding(
    lintId: string,
    citation: string,
    originalResult: LintResult,
    deviationId: string,
    action: Action,
    justification: string,
    evidenceUri: Option<string>,
    certIndex: Option<nat>,
    evaluatedAt: u64)

  datatype RunResult = RunResult(findings: seq<Finding>, deviated: seq<DeviatedFinding>)

  datatype LintRunner = LintRunner(
    lints: seq<Lint>, bundleVersion: string, certSha256Of: Certificate -> Option<seq<byte>>)

  // ----- the report on one certificate -----

  function Evaluate(lint: Lint, cert: Certificate, kind: SubjectKind, now: u64): LintResult {
    if kind.Matches(lint.appliesTo) then lint.checkCert(cert, kind, now) else NotApplicable
  }

  function Report(runner: LintRunner, lint: Lint, cert: Certificate, kind: SubjectKind, index: nat, now: u64): Finding {
    Finding(lint.id, lint.citation, runner.bundleVersion, Evaluate(lint, cert, kind, now), Some(index), now,
            runner.certSha256Of(cert))
  }

  /** A lint for all positions runs everywhere, one for intermediates also below the anchor,
      and any other at its own position only. */
  lemma KindsByTable(kind: SubjectKind, filter: SubjectKind)
    ensures kind.Matches(filter)
            <==> filter == Any || kind == filter || (filter == IntermediateCa && kind == AnchorIssued)
  {
  }

  /** The report of the lints on one certificate; a fatal result is its last. */
  function ReportOf(runner: LintRunner, lints: seq<Lint>, cert: Certificate, kind: SubjectKind, index: nat, now: u64)
    : (findings: seq<Finding>)
    ensures forall f <- findings :: f.certIndex == Some(index)
  {
    if lints == [] then
      []
    else if lints[0].scope != CertificateScope then
      ReportOf(runner, lints[1..], cert, kind, index, now)
    else
      var first := Report(runner, lints[0], cert, kind, index, now);
      [first] + if first.result.Fatal? then [] else ReportOf(runner, lints[1..], cert, kind, index, now)
  }

  method RunCert(runner: LintRunner, cert: Certificate, kind: SubjectKind, index: nat, now: u64)
    returns (findings: seq<Finding>)
    ensures findings == ReportOf(runner, runner.lints, cert, kind, index, now)
  {
    var lints := runner.lints;
    var certSha256 := runner.certSha256Of(cert);
    findings := [];
    for i := 0 to |lints|
      invariant findings + ReportOf(runner, lints[i..], cert, kind, index, now)
             == ReportOf(runner, lints, cert, kind, index, now)
    {
      var lint := lints[i];
      if lint.scope != CertificateScope {
        continue;
      }
      var result := if kind.Matches(lint.appliesTo) then lint.checkCert(cert, kind, now) else NotApplicable;
      var finding := Finding(lint.id, lint.citation, runner.bundleVersion, result, Some(index), now, certSha256);
      findings := findings + [finding];
      if result.Fatal? {
        return;
      }
    }
  }

  /** The certificate lints, in order. */
  function CertLints(lints: seq<Lint>): seq<Lint> {
    if lints == [] then []
    else if lints[0].scope == CertificateScope then [lints[0]] + CertLints(lints[1..])
    else CertLints(lints[1..])
  }

  lemma CertLintsOfOne(lint: Lint)
    ensures CertLints([lint]) == if lint.scope.CertificateScope? then [lint] else []
  {
    assert [lint][1..] == [];
  }

  /** The certificate lints keep their order, and the path lints among them drop out. */
  lemma {:induction false} CertLintsInOrder(a: seq<Lint>, b: seq<Lint>)
    ensures CertLints(a + b) == CertLints(a) + CertLints(b)
  {
    if a == [] {
      assert a + b == b;
    } else {
      CertLintsInOrder(a[1..], b);
      assert a == [a[0]] + a[1..] && a + b == [a[0]] + (a[1..] + b);
    }
  }

  /** The finding carries what the lint says of the certificate when it applies at that
      position, under the lint's own id and citation, with the place of the certificate,
      its hash, the time and the version of the rules. */
  predicate IsReportOf(f: Finding, runner: LintRunner, lint: Lint, cert: Certificate, kind: SubjectKind, index: nat,
                       now: u64)
  {
    && f.lintId == lint.id && f.citation == lint.citation && f.ruleBundleVersion == runner.bundleVersion
    && f.certIndex == Some(index) && f.evaluatedAt == now && f.certSha256 == runner.certSha256Of(cert)
    && f.result == (if lint.appliesTo == Any || lint.appliesTo == kind
                       || (lint.appliesTo == IntermediateCa && kind == AnchorIssued)
                    then lint.checkCert(cert, kind, now) else NotApplicable)
  }

  /** The report is one finding for each certificate lint, in order, with what that lint
      says of the certificate, up to and with the first that ends fatally. */
  lemma {:induction false} ReportEndsAtFatal(runner: LintRunner, lints: seq<Lint>, cert: Certificate, kind: SubjectKind,
                                             index: nat, now: u64)
    ensures var findings, all := ReportOf(runner, lints, cert, kind, index, now), CertLints(lints);
            && |findings| <= |all|
            && (forall k :: 0 <= k < |findings| ==> IsReportOf(findings[k], runner, all[k], cert, kind, index, now))
            && (forall k :: 0 <= k < |findings| - 1 ==> !findings[k].result.Fatal?)
            && (|findings| < |all| ==> findings != [] && findings[|findings| - 1].result.Fatal?)
  {
    if lints == [] {
    } else {
      ReportEndsAtFatal(runner, lints[1..], cert, kind, index, now);
      KindsByTable(kind, lints[0].appliesTo);
    }
  }

  // ----- setting findings aside -----

  /** The waiver that covers a finding, if any. */
  type Cover = Finding -> Option<Waiver>

  function MakeDeviated(f: Finding, w: Waiver): DeviatedFinding {
    DeviatedFinding(f.lintId, f.citation, f.result, w.id, w.action, w.justification, w.evidenceUri,
                    f.certIndex, f.evaluatedAt)
  }

  predicate SetAside(f: Finding, cover: Cover) {
    f.result.IsFinding() && cover(f).Some?
  }

  function Sorted(raw: seq<Finding>, cover: Cover): (split: RunResult) {
    if raw == [] then
      RunResult([], [])
    else
      var f := raw[|raw| - 1];
      var before := Sorted(raw[..|raw| - 1], cover);
      if SetAside(f, cover)
      then before.(deviated := before.deviated + [MakeDeviated(f, cover(f).value)])
      else before.(findings := before.findings + [f])
  }

  function At(waivers: seq<Waiver>, i: Option<nat>): Option<Waiver>
    requires i.Some? ==> i.value < |waivers|
  {
    match i
    case None => None
    case Some(k) => Some(waivers[k])
  }

  function CertCover(names: Names, waivers: seq<Waiver>, cert: Certificate, now: u64): Cover {
    (f: Finding) => At(waivers, Choose(waivers, FitsCert(names, f.lintId, cert, now)))
  }

  function ChainCover(names: Names, waivers: seq<Waiver>, chain: seq<Certificate>, now: u64): Cover {
    (f: Finding) => At(waivers, Choose(waivers, FitsChain(names, f.lintId, chain, now)))
  }

  /** A finding is set aside exactly when it is actionable and some waiver covers it, and
      then under the best of those waivers. */
  lemma SetAsideByBestWaiver(names: Names, waivers: seq<Waiver>, cert: Certificate, now: u64,
                             f: Finding)
    ensures var cover, fits := CertCover(names, waivers, cert, now), FitsCert(names, f.lintId, cert, now);
            && (SetAside(f, cover) <==>
                  f.result != Pass && f.result != NotApplicable && exists w :: w in waivers && fits(w))
            && (cover(f).Some? ==> exists i: nat :: IsBest(waivers, fits, i) && cover(f) == Some(waivers[i]))
  {
    var fits := FitsCert(names, f.lintId, cert, now);
    ChoiceIsBest(waivers, fits);
    var best := Choose(waivers, fits);
    if best.Some? {
      assert IsBest(waivers, fits, best.value) && waivers[best.value] in waivers;
    }
  }

  method ApplyDeviations(store: WaiverStore, raw: seq<Finding>, cert: Certificate, now: u64) returns (result: RunResult)
    ensures result == Sorted(raw, CertCover(store.names, store.waivers, cert, now))
  {
    ghost var cover := CertCover(store.names, store.waivers, cert, now);
    result := RunResult([], []);
    for i := 0 to |raw|
      invariant result == Sorted(raw[..i], cover)
    {
      var finding := raw[i];
      assert raw[..i + 1][..i] == raw[..i];
      if !finding.result.IsFinding() {
        result := result.(findings := result.findings + [finding]);
        continue;
      }
      var found := store.FindDeviation(finding.lintId, cert, now);
      match found {
        case None =>
          result := result.(findings := result.findings + [finding]);
        case Some(dev) =>
          result := result.(deviated := result.deviated + [MakeDeviated(finding, dev)]);
      }
    }
    assert raw[..|raw|] == raw;
  }

  method ApplyDeviationsForChain(store: WaiverStore, raw: seq<Finding>, chain: seq<Certificate>, now: u64)
    returns (result: RunResult)
    ensures result == Sorted(raw, ChainCover(store.names, store.waivers, chain, now))
  {
    ghost var cover := ChainCover(store.names, store.waivers, chain, now);
    result := RunResult([], []);
    for i := 0 to |raw|
      invariant result == Sorted(raw[..i], cover)
    {
      var finding := raw[i];
      assert raw[..i + 1][..i] == raw[..i];
      if !finding.result.IsFinding() {
        result := result.(findings := result.findings + [finding]);
        continue;
      }
      var found := store.FindDeviationForChain(finding.lintId, chain, now);
      match found {
        case None =>
          result := result.(findings := result.findings + [finding]);
        case Some(dev) =>
          result := result.(deviated := result.deviated + [MakeDeviated(finding, dev)]);
      }
    }
    assert raw[..|raw|] == raw;
  }

  // ----- nothing is lost, repeated or reordered -----

  predicate Increasing(places: seq<nat>) {
    forall a, b :: 0 <= a < b < |places| ==> places[a] < places[b]
  }

  /** What a deviated finding keeps of the finding it came from. */
  predicate Describes(d: DeviatedFinding, f: Finding) {
    d.lintId == f.lintId && d.citation == f.citation && d.originalResult == f.result
    && d.certIndex == f.certIndex && d.evaluatedAt == f.evaluatedAt
  }

  predicate PlacesIn(places: seq<nat>, n: nat) {
    Increasing(places) && forall k :: 0 <= k < |places| ==> places[k] < n
  }

  /** Every place below `n` is in one of the lists and in no more than one. */
  ghost predicate OneList(kept: seq<nat>, moved: seq<nat>, n: nat) {
    forall i: nat :: i < n ==> (i in kept <==> i !in moved)
  }

  /** `kept` and `moved` list, in order, the places of the report whose findings were left
      alone and set aside: every place is in exactly one list, and the two outputs hold
      what stood at those places. */
  ghost predicate Accounts(raw: seq<Finding>, split: RunResult, kept: seq<nat>, moved: seq<nat>) {
    && PlacesIn(kept, |raw|) && PlacesIn(moved, |raw|)
    && OneList(kept, moved, |raw|)
    && |split.findings| == |kept| && |split.deviated| == |moved|
    && (forall k :: 0 <= k < |kept| ==> split.findings[k] == raw[kept[k]])
    && (forall k :: 0 <= k < |moved| ==> Describes(split.deviated[k], raw[moved[k]]))
  }

  /** The places of the findings that are set aside, or of those that are not. */
  function Places(raw: seq<Finding>, cover: Cover, aside: bool): (places: seq<nat>)
    ensures PlacesIn(places, |raw|)
  {
    if raw == [] then
      []
    else
      var n := |raw| - 1;
      var before := Places(raw[..n], cover, aside);
      if SetAside(raw[n], cover) == aside then before + [n] else before
  }

  lemma {:induction false} PlacesAreExact(raw: seq<Finding>, cover: Cover, aside: bool, i: nat)
    requires i < |raw|
    ensures i in Places(raw, cover, aside) <==> SetAside(raw[i], cover) == aside
  {
    var n := |raw| - 1;
    if i < n {
      PlacesAreExact(raw[..n], cover, aside, i);
    } else {
      assert forall k :: 0 <= k < |Places(raw[..n], cover, aside)| ==> Places(raw[..n], cover, aside)[k] < n;
    }
  }

  lemma {:induction false} KeptAsTheyStood(raw: seq<Finding>, cover: Cover)
    ensures var kept, split := Places(raw, cover, false), Sorted(raw, cover).findings;
            |split| == |kept| && forall k :: 0 <= k < |kept| ==> split[k] == raw[kept[k]]
  {
    if raw == [] {
    } else {
      KeptAsTheyStood(raw[..|raw| - 1], cover);
    }
  }

  /** What a deviated finding takes from the waiver. */
  predicate CarriesWaiver(d: DeviatedFinding, w: Waiver) {
    d.deviationId == w.id && d.action == w.action && d.justification == w.justification
    && d.evidenceUri == w.evidenceUri
  }

  /** Each finding set aside is actionable and carries the waiver that covers it. */
  lemma {:induction false} MovedWithTheirWaiver(raw: seq<Finding>, cover: Cover)
    ensures var moved, split := Places(raw, cover, true), Sorted(raw, cover).deviated;
            |split| == |moved| && forall k :: 0 <= k < |moved| ==>
              && SetAside(raw[moved[k]], cover)
              && Describes(split[k], raw[moved[k]])
              && CarriesWaiver(split[k], cover(raw[moved[k]]).value)
  {
    if raw == [] {
    } else {
      MovedWithTheirWaiver(raw[..|raw| - 1], cover);
    }
  }

  lemma {:induction false} PlacesInOneList(raw: seq<Finding>, cover: Cover)
    ensures OneList(Places(raw, cover, false), Places(raw, cover, true), |raw|)
  {
    forall i: nat | i < |raw|
      ensures i in Places(raw, cover, false) <==> i !in Places(raw, cover, true)
    {
      PlacesAreExact(raw, cover, true, i);
      PlacesAreExact(raw, cover, false, i);
    }
  }

  /** Every finding of the report comes out exactly once and in order, unchanged or as
      the deviated finding that describes it. */
  lemma {:induction false} NoFindingIsLost(raw: seq<Finding>, cover: Cover)
    ensures Accounts(raw, Sorted(raw, cover), Places(raw, cover, false), Places(raw, cover, true))
  {
    KeptAsTheyStood(raw, cover);
    MovedWithTheirWaiver(raw, cover);
    PlacesInOneList(raw, cover);
  }

  // ----- a whole chain -----

  /** The reports on the certificates of a chain, one after the other. */
  function ChainReport(runner: LintRunner, chain: seq<Certificate>, kinds: seq<SubjectKind>, now: u64): seq<Finding>
    requires |kinds| == |chain|
  {
    if chain == [] then
      []
    else
      var i := |chain| - 1;
      ChainReport(runner, chain[..i], kinds[..i], now) + ReportOf(runner, runner.lints, chain[i], kinds[i], i, now)
  }

  /** The waiver for a finding on one certificate of the chain is looked up for that
      certificate alone. */
  function OwnCover(names: Names, waivers: seq<Waiver>, chain: seq<Certificate>, now: u64): Cover {
    (f: Finding) =>
      if f.certIndex.Some? && f.certIndex.value < |chain|
      then CertCover(names, waivers, chain[f.certIndex.value], now)(f)
      else None
  }

  /** The findings about certificate `i`, in order. */
  function AboutCert(findings: seq<Finding>, i: nat): seq<Finding> {
    if findings == [] then
      []
    else
      var last := findings[|findings| - 1];
      AboutCert(findings[..|findings| - 1], i) + if last.certIndex == Some(i) then [last] else []
  }

  lemma {:induction false} AboutCertJoins(a: seq<Finding>, b: seq<Finding>, i: nat)
    ensures AboutCert(a + b, i) == AboutCert(a, i) + AboutCert(b, i)
  {
    if b == [] {
      assert a + b == a;
    } else {
      AboutCertJoins(a, b[..|b| - 1], i);
      assert (a + b)[..|a + b| - 1] == a + b[..|b| - 1];
    }
  }

  lemma {:induction false} AboutOneCert(findings: seq<Finding>, own: nat, i: nat)
    requires forall f <- findings :: f.certIndex == Some(own)
    ensures AboutCert(findings, i) == if i == own then findings else []
  {
    if findings == [] {
    } else {
      AboutOneCert(findings[..|findings| - 1], own, i);
    }
  }

  lemma {:induction false} AboutBoth(before: seq<Finding>, own: seq<Finding>, n: nat, i: nat)
    requires forall f <- own :: f.certIndex == Some(n)
    ensures AboutCert(before + own, i) == if i == n then AboutCert(before, i) + own else AboutCert(before, i)
  {
    AboutCertJoins(before, own, i);
    AboutOneCert(own, n, i);
  }

  /** The report on a chain goes from certificate to certificate. */
  ghost predicate InChainOrder(findings: seq<Finding>, n: nat) {
    && (forall f <- findings :: f.certIndex.Some? && f.certIndex.value < n)
    && (forall a, b :: 0 <= a < b < |findings| ==> findings[a].certIndex.value <= findings[b].certIndex.value)
  }

  lemma {:induction false} ChainReportInOrder(runner: LintRunner, chain: seq<Certificate>, kinds: seq<SubjectKind>,
                                              now: u64)
    requires |kinds| == |chain|
    ensures InChainOrder(ChainReport(runner, chain, kinds, now), |chain|)
  {
    if chain == [] {
    } else {
      var n := |chain| - 1;
      ChainReportInOrder(runner, chain[..n], kinds[..n], now);
    }
  }

  /** What the report on a chain says of each certificate is the report on that one, at its
      own place and as its own kind. */
  lemma {:induction false} ChainReportByCert(runner: LintRunner, chain: seq<Certificate>, kinds: seq<SubjectKind>,
                                             now: u64, i: nat)
    requires |kinds| == |chain|
    ensures AboutCert(ChainReport(runner, chain, kinds, now), i)
            == if i < |chain| then ReportOf(runner, runner.lints, chain[i], kinds[i], i, now) else []
  {
    if chain == [] {
    } else {
      var n := |chain| - 1;
      ChainReportByCert(runner, chain[..n], kinds[..n], now, i);
      AboutBoth(ChainReport(runner, chain[..n], kinds[..n], now),
                ReportOf(runner, runner.lints, chain[n], kinds[n], n, now), n, i);
    }
  }

  /** In a chain run a finding about certificate `i` is set aside exactly when it is
      actionable and some waiver covers that certificate, and then under the best of the
      waivers that do. */
  lemma SetAsideInChain(names: Names, waivers: seq<Waiver>, chain: seq<Certificate>, now: u64, f: Finding, i: nat)
    requires i < |chain| && f.certIndex == Some(i)
    ensures var cover, fits := OwnCover(names, waivers, chain, now), FitsCert(names, f.lintId, chain[i], now);
            && (SetAside(f, cover) <==>
                  f.result != Pass && f.result != NotApplicable && exists w :: w in waivers && fits(w))
            && (cover(f).Some? ==> exists b: nat :: IsBest(waivers, fits, b) && cover(f) == Some(waivers[b]))
  {
    SetAsideByBestWaiver(names, waivers, chain[i], now, f);
  }

  /** Running a chain certificate by certificate sorts the chain's whole report at once,
      each finding by the certificate it is about. */
  method RunChain(runner: LintRunner, store: WaiverStore, chain: seq<Certificate>, kinds: seq<SubjectKind>, now: u64)
    returns (result: RunResult)
    requires |kinds| == |chain|
    ensures result == Sorted(ChainReport(runner, chain, kinds, now), OwnCover(store.names, store.waivers, chain, now))
  {
    ghost var cover := OwnCover(store.names, store.waivers, chain, now);
    result := RunResult([], []);
    for i := 0 to |chain|
      invariant result == Sorted(ChainReport(runner, chain[..i], kinds[..i], now), cover)
    {
      var raw := RunCert(runner, chain[i], kinds[i], i, now);
      var partial := ApplyDeviations(store, raw, chain[i], now);
      assert chain[..i + 1][..i] == chain[..i] && kinds[..i + 1][..i] == kinds[..i];
      SortedByOwnCert(store.names, store.waivers, chain, now, ChainReport(runner, chain[..i], kinds[..i], now), raw, i);
      result := RunResult(result.findings + partial.findings, result.deviated + partial.deviated);
    }
    assert chain[..|chain|] == chain && kinds[..|chain|] == kinds;
  }

  lemma {:induction false} SortedByOwnCert(names: Names, waivers: seq<Waiver>, chain: seq<Certificate>, now: u64,
                                           reported: seq<Finding>, raw: seq<Finding>, i: nat)
    requires i < |chain| && forall f <- raw :: f.certIndex == Some(i)
    ensures var cover, own := OwnCover(names, waivers, chain, now), CertCover(names, waivers, chain[i], now);
            var before, here := Sorted(reported, cover), Sorted(raw, own);
            Sorted(reported + raw, cover)
            == RunResult(before.findings + here.findings, before.deviated + here.deviated)
  {
    var cover := OwnCover(names, waivers, chain, now);
    SortedWhenCoversAgree(raw, cover, CertCover(names, waivers, chain[i], now));
    SortedJoins(reported, raw, cover);
  }

  lemma {:induction false} SortedWhenCoversAgree(raw: seq<Finding>, a: Cover, b: Cover)
    requires forall f <- raw :: a(f) == b(f)
    ensures Sorted(raw, a) == Sorted(raw, b)
  {
    if raw == [] {
    } else {
      SortedWhenCoversAgree(raw[..|raw| - 1], a, b);
    }
  }

  lemma {:induction false} SortedJoins(left: seq<Finding>, right: seq<Finding>, cover: Cover)
    ensures Sorted(left + right, cover).findings == Sorted(left, cover).findings + Sorted(right, cover).findings
    ensures Sorted(left + right, cover).deviated == Sorted(left, cover).deviated + Sorted(right, cover).deviated
  {
    if right == [] {
      assert left + right == left;
    } else {
      var rest := right[..|right| - 1];
      SortedJoins(left, rest, cover);
      assert (left + right)[..|left + right| - 1] == left + rest;
    }
  }
}
