/** Chain verification (pkix-chain/src/lib.rs): path validation with reassembly,
    the revocation walk, and the OCSP no-check shim. */
module ChainVerify {
  import opened AiaBatches
  import opened AiaChain
  import opened AiaGuarantees
  import opened ChainTypes
  import opened Outcomes

  // ----- the revocation walk -----

  /** What a checker says of one check; None means it passes. */
  function Perform(checker: Checker, check: Check): Option<int> {
    match check
    case ByIssuer(cert, issuer) => checker.againstIssuer(cert, issuer)
    case ByAnchor(cert, anchor) => checker.againstAnchor(cert, anchor)
  }

  function CheckOf(chain: seq<Certificate>, anchor: TrustAnchor, i: nat): (check: Check)
    requires i < |chain|
    ensures check.cert == chain[i]
  {
    if i + 1 < |chain| then ByIssuer(chain[i], chain[i + 1]) else ByAnchor(chain[i], anchor)
  }

  /** The checks a chain calls for: every certificate against its successor, the last
      against the anchor. */
  function ChecksOf(chain: seq<Certificate>, anchor: TrustAnchor): (checks: seq<Check>)
    ensures |checks| == |chain|
    ensures forall i :: 0 <= i < |chain| ==> checks[i] == CheckOf(chain, anchor, i)
  {
    seq(|chain|, i requires 0 <= i < |chain| => CheckOf(chain, anchor, i))
  }

  /** The outcome of a walk and the checks it performed, the failing one last. */
  function Walk(checker: Checker, checks: seq<Check>): (Result<(), Error>, seq<Check>) {
    if checks == [] then
      (Ok(()), [])
    else
      match Perform(checker, checks[0])
      case Some(code) => (Err(Revocation(code)), [checks[0]])
      case None =>
        var rest := Walk(checker, checks[1..]);
        (rest.0, [checks[0]] + rest.1)
  }

  /** A walk stops at the first check that fails; it succeeds exactly when all pass,
      and then it has performed them all. */
  lemma {:induction false} WalkStopsAtFirstFailure(checker: Checker, checks: seq<Check>)
    ensures var (result, done) := Walk(checker, checks);
            && done <= checks
            && (result.Ok? <==> forall c <- checks :: Perform(checker, c).None?)
            && (result.Ok? ==> done == checks)
            && (result.Err? ==>
                  && done != []
                  && Perform(checker, done[|done| - 1]).Some?
                  && result == Err(Revocation(Perform(checker, done[|done| - 1]).value))
                  && forall i :: 0 <= i < |done| - 1 ==> Perform(checker, done[i]).None?)
  {
    if checks == [] {
    } else {
      WalkStopsAtFirstFailure(checker, checks[1..]);
      assert checks == [checks[0]] + checks[1..];
    }
  }

  /** Every certificate passes against its successor, and the last against the anchor. */
  ghost predicate AllPass(checker: Checker, chain: seq<Certificate>, anchor: TrustAnchor) {
    && (forall i :: 0 <= i < |chain| - 1 ==> checker.againstIssuer(chain[i], chain[i + 1]).None?)
    && (chain != [] ==> checker.againstAnchor(chain[|chain| - 1], anchor).None?)
  }

  /** Certificate `k` is the first to fail, with that code. */
  ghost predicate FirstFailure(checker: Checker, chain: seq<Certificate>, anchor: TrustAnchor, k: nat, code: int) {
    && k < |chain|
    && (forall i :: 0 <= i < k ==> checker.againstIssuer(chain[i], chain[i + 1]).None?)
    && (k < |chain| - 1 ==> checker.againstIssuer(chain[k], chain[k + 1]) == Some(code))
    && (k == |chain| - 1 ==> checker.againstAnchor(chain[k], anchor) == Some(code))
  }

  lemma CheckAt(checker: Checker, chain: seq<Certificate>, anchor: TrustAnchor, i: nat)
    requires i < |chain|
    ensures Perform(checker, ChecksOf(chain, anchor)[i])
            == if i < |chain| - 1 then checker.againstIssuer(chain[i], chain[i + 1])
               else checker.againstAnchor(chain[|chain| - 1], anchor)
  {
  }

  lemma PassingChecks(checker: Checker, chain: seq<Certificate>, anchor: TrustAnchor)
    requires forall c <- ChecksOf(chain, anchor) :: Perform(checker, c).None?
    ensures AllPass(checker, chain, anchor)
  {
    var checks := ChecksOf(chain, anchor);
    forall i: nat | i < |chain| ensures Perform(checker, checks[i]).None? {
      assert checks[i] in checks;
    }
    if chain != [] {
      CheckAt(checker, chain, anchor, |chain| - 1);
    }
    forall i | 0 <= i < |chain| - 1 ensures checker.againstIssuer(chain[i], chain[i + 1]).None? {
      CheckAt(checker, chain, anchor, i);
    }
  }

  /** What the checks of a chain come to: they pass when every certificate does, else the
      code of the first failing one is reported. */
  ghost predicate DecidedByChecks<T>(checker: Checker, chain: seq<Certificate>, anchor: TrustAnchor, success: T,
                                     result: Result<T, Error>) {
    match result
    case Ok(value) => value == success && AllPass(checker, chain, anchor)
    case Err(e) => exists k: nat, code :: e == Revocation(code) && FirstFailure(checker, chain, anchor, k, code)
  }

  /** The result is determined by that. */
  lemma OneDecision<T>(checker: Checker, chain: seq<Certificate>, anchor: TrustAnchor, success: T,
                       result: Result<T, Error>)
    requires DecidedByChecks(checker, chain, anchor, success, result)
    ensures result == Ok(success) <==> AllPass(checker, chain, anchor)
    ensures forall k: nat, code :: FirstFailure(checker, chain, anchor, k, code) ==> result == Err(Revocation(code))
  {
    forall k: nat, code | FirstFailure(checker, chain, anchor, k, code)
      ensures result == Err(Revocation(code))
    {
      if result.Err? {
        var k': nat, code' :| result.error == Revocation(code') && FirstFailure(checker, chain, anchor, k', code');
      }
    }
  }

  lemma {:induction false} WalkOutcome(checker: Checker, chain: seq<Certificate>, anchor: TrustAnchor)
    ensures DecidedByChecks(checker, chain, anchor, (), Walk(checker, ChecksOf(chain, anchor)).0)
  {
    var checks := ChecksOf(chain, anchor);
    WalkStopsAtFirstFailure(checker, checks);
    if Walk(checker, checks).0.Ok? {
      PassingChecks(checker, chain, anchor);
    } else {
      FailedWalk(checker, chain, anchor);
    }
  }

  lemma {:induction false} FailedWalk(checker: Checker, chain: seq<Certificate>, anchor: TrustAnchor)
    requires Walk(checker, ChecksOf(chain, anchor)).0.Err?
    ensures DecidedByChecks(checker, chain, anchor, (), Walk(checker, ChecksOf(chain, anchor)).0)
  {
    var checks := ChecksOf(chain, anchor);
    WalkStopsAtFirstFailure(checker, checks);
    var done := Walk(checker, checks).1;
    FailureIsFirst(checker, chain, anchor, |done| - 1, Perform(checker, done[|done| - 1]).value);
  }

  lemma FailureIsFirst(checker: Checker, chain: seq<Certificate>, anchor: TrustAnchor, k: nat, code: int)
    requires var checks := ChecksOf(chain, anchor);
             && k < |checks| && Perform(checker, checks[k]) == Some(code)
             && forall i :: 0 <= i < k ==> Perform(checker, checks[i]).None?
    ensures FirstFailure(checker, chain, anchor, k, code)
  {
    CheckAt(checker, chain, anchor, k);
    forall i | 0 <= i < k ensures checker.againstIssuer(chain[i], chain[i + 1]).None? {
      CheckAt(checker, chain, anchor, i);
    }
  }

  method RunRevocationChecks(v: Verifier, checker: Checker, chain: seq<Certificate>, anchorIndex: nat)
    returns (result: Result<(), Error>, performed: seq<Check>)
    requires anchorIndex < |v.anchors|
    ensures (result, performed) == Walk(checker, ChecksOf(chain, v.anchors[anchorIndex]))
    ensures DecidedByChecks(checker, chain, v.anchors[anchorIndex], (), result)
  {
    WalkOutcome(checker, chain, v.anchors[anchorIndex]);
    ghost var checks := ChecksOf(chain, v.anchors[anchorIndex]);
    performed := [];
    assert checks[0..] == checks && [] + Walk(checker, checks).1 == Walk(checker, checks).1;
    for i := 0 to |chain|
      invariant performed == checks[..i]
      invariant Walk(checker, checks)
             == (Walk(checker, checks[i..]).0, performed + Walk(checker, checks[i..]).1)
    {
      var cert := chain[i];
      var answer;
      WalkStep(checker, checks, i);
      if i + 1 < |chain| {
        answer := checker.againstIssuer(cert, chain[i + 1]);
        performed := performed + [ByIssuer(cert, chain[i + 1])];
      } else {
        answer := checker.againstAnchor(cert, v.anchors[anchorIndex]);
        performed := performed + [ByAnchor(cert, v.anchors[anchorIndex])];
      }
      if answer.Some? {
        return Err(Revocation(answer.value)), performed;
      }
    }
    assert checks[|chain|..] == [] && performed + [] == performed;
    return Ok(()), performed;
  }

  lemma {:induction false} WalkStep(checker: Checker, checks: seq<Check>, i: nat)
    requires i < |checks|
    ensures var here, later := checks[i], Walk(checker, checks[i + 1..]);
            && Walk(checker, checks[i..])
               == (match Perform(checker, here)
                   case Some(code) => (Err(Revocation(code)), [here])
                   case None => (later.0, [here] + later.1))
            && checks[..i + 1] == checks[..i] + [here]
            && checks[..i] + ([here] + later.1) == checks[..i] + [here] + later.1
  {
    assert checks[i..][0] == checks[i] && checks[i..][1..] == checks[i + 1..];
  }

  // ----- verification of one chain -----

  predicate AiaRecoverable(e: PathError) {
    e.ChainBroken? || e.NoTrustedPath? || e.SignatureInvalid?
  }

  /** The answer, the chain that was validated, the batches fetched for it and the
      revocation checks performed. */
  datatype Outcome = Outcome(
    result: Result<nat, Error>, used: seq<Certificate>, batches: seq<Batch>, performed: seq<Check>)

  /** Validate `chain`, built with those batches, then walk it. */
  function ValidateAndWalk(v: Verifier, checker: Checker, chain: seq<Certificate>, batches: seq<Batch>): Outcome
    requires ValidatorContract(v)
  {
    match v.validatePath(chain)
    case Err(e) => Outcome(Err(Path(e)), chain, batches, [])
    case Ok(anchorIndex) =>
      var walk := Walk(checker, ChecksOf(chain, v.anchors[anchorIndex]));
      match walk.0
      case Ok(_) => Outcome(Ok(anchorIndex), chain, batches, walk.1)
      case Err(e) => Outcome(Err(e), chain, batches, walk.1)
  }

  function VerifyRun(v: Verifier, checker: Checker, chain: seq<Certificate>): Outcome
    requires ValidatorContract(v)
  {
    if v.validatePath(chain).Err? && AiaRecoverable(v.validatePath(chain).error) then
      var (built, last) := BuildRun(v, chain);
      match built
      case Err(e) => Outcome(Err(e), chain, last.log, [])
      case Ok(path) => ValidateAndWalk(v, checker, path, last.log)
    else
      ValidateAndWalk(v, checker, chain, [])
  }

  method VerifyOne(v: Verifier, checker: Checker, chain: seq<Certificate>) returns (outcome: Outcome)
    requires ValidatorContract(v)
    ensures outcome == VerifyRun(v, checker, chain)
  {
    match v.validatePath(chain) {
      case Ok(anchorIndex) =>
        var result, performed := RunRevocationChecks(v, checker, chain, anchorIndex);
        if result.Err? {
          return Outcome(Err(result.error), chain, [], performed);
        }
        return Outcome(Ok(anchorIndex), chain, [], performed);
      case Err(e) =>
        if !AiaRecoverable(e) {
          return Outcome(Err(Path(e)), chain, [], []);
        }
    }
    var built, batches := BuildWithAia(v, chain);
    if built.Err? {
      return Outcome(Err(built.error), chain, batches, []);
    }
    match v.validatePath(built.value) {
      case Err(e) =>
        return Outcome(Err(Path(e)), built.value, batches, []);
      case Ok(anchorIndex) =>
        var result, performed := RunRevocationChecks(v, checker, built.value, anchorIndex);
        if result.Err? {
          return Outcome(Err(result.error), built.value, batches, performed);
        }
        return Outcome(Ok(anchorIndex), built.value, batches, performed);
    }
  }

  // ----- soundness -----

  /** A built chain was drawn from the pool of some state of the run. */
  lemma {:induction false} BuiltChainIsDrawn(leaf: Certificate, turn: State -> Round,
                                             after: State -> Built, st: State, rounds: nat)
    requires forall s: State :: s.pool <= turn(s).state.pool
    requires forall s: State :: turn(s).Finished? ==> DrawnIfBuilt(leaf, turn(s).state.pool, turn(s).result)
    requires forall s: State :: DrawnIfBuilt(leaf, s.pool, after(s))
    ensures var (result, last) := Iterate(turn, after, st, rounds);
            st.pool <= last.pool && DrawnIfBuilt(leaf, last.pool, result)
    decreases rounds
  {
    if rounds == 0 || turn(st).Finished? {
    } else {
      BuiltChainIsDrawn(leaf, turn, after, turn(st).state, rounds - 1);
    }
  }

  ghost predicate DrawnIfBuilt(leaf: Certificate, pool: seq<Certificate>, built: Built) {
    built.Ok? ==> DrawnFrom(leaf, pool, built.value)
  }

  lemma BuildRunIsDrawn(v: Verifier, chain: seq<Certificate>)
    requires BuilderContract(v) && chain != []
    ensures chain <= BuildRun(v, chain).1.pool
    ensures DrawnIfBuilt(chain[0], BuildRun(v, chain).1.pool, BuildRun(v, chain).0)
  {
    var leaf := chain[0];
    forall s: State ensures s.pool <= Turn(v, leaf)(s).state.pool {
      RoundCases(v, leaf, s);
      PoolKept(v, s);
    }
    BuiltChainIsDrawn(leaf, Turn(v, leaf), AfterLoop(v, leaf), InitialState(chain), AIA_MAX_DEPTH);
  }

  /** The responses to the URIs of batch `i`. */
  function Answers(v: Verifier, log: seq<Batch>, i: nat): seq<Response>
    requires i < |log|
  {
    Paired(log[i].uris, v.batchFetch(log[..i + 1]))
  }

  /** The fetcher brought the certificate in answer to a URI of one of the batches. */
  ghost predicate Brought(v: Verifier, log: seq<Batch>, c: Certificate) {
    exists i: nat :: i < |log| && Fetched(c) in Answers(v, log, i)
  }

  /** Every certificate of the pool was supplied or brought. */
  ghost predicate Sourced(v: Verifier, supplied: seq<Certificate>, st: State) {
    forall c <- st.pool :: c in supplied || Brought(v, st.log, c)
  }

  lemma BroughtBefore(v: Verifier, log: seq<Batch>, batch: Batch, c: Certificate)
    requires Brought(v, log, c)
    ensures Brought(v, log + [batch], c)
  {
    var i: nat :| i < |log| && Fetched(c) in Answers(v, log, i);
    assert (log + [batch])[..i + 1] == log[..i + 1];
    assert Fetched(c) in Answers(v, log + [batch], i);
  }

  lemma BroughtNow(v: Verifier, log: seq<Batch>, batch: Batch, c: Certificate)
    requires c in FetchedCerts(Paired(batch.uris, v.batchFetch(log + [batch])))
    ensures Brought(v, log + [batch], c)
  {
    var all := log + [batch];
    FetchedIsResponse(Paired(batch.uris, v.batchFetch(all)), c);
    assert all[..|log| + 1] == all;
    assert Fetched(c) in Answers(v, all, |log|);
  }

  lemma FetchKeepsSourced(v: Verifier, supplied: seq<Certificate>, st: State)
    requires Sourced(v, supplied, st)
    ensures Sourced(v, supplied, FetchRound(v, st).state)
  {
    var uris := Fresh(OrphanUris(v, st.pool, st.pool), st.tried);
    if uris != [] {
      var next, batch := FetchRound(v, st).state, Batch(st.pool, uris);
      forall c | c in next.pool ensures c in supplied || Brought(v, next.log, c) {
        if c in st.pool {
          if c !in supplied {
            BroughtBefore(v, st.log, batch, c);
          }
        } else {
          BroughtNow(v, st.log, batch, c);
        }
      }
    }
  }

  /** At the end of every run, whatever the fetcher answers, each certificate of the pool
      was supplied or came as the answer to a URI that was asked for. */
  lemma PoolIsSourced(v: Verifier, supplied: seq<Certificate>)
    ensures Sourced(v, supplied, BuildRun(v, supplied).1)
  {
    if supplied != [] {
      var leaf, keeps := supplied[0], (s: State) => Sourced(v, supplied, s);
      forall s: State | keeps(s) ensures keeps(Turn(v, leaf)(s).state) {
        RoundCases(v, leaf, s);
        FetchKeepsSourced(v, supplied, s);
      }
      KeptByRun(keeps, Turn(v, leaf), AfterLoop(v, leaf), InitialState(supplied), AIA_MAX_DEPTH);
    }
  }

  lemma WalkDecides(v: Verifier, checker: Checker, chain: seq<Certificate>, batches: seq<Batch>)
    requires ValidatorContract(v) && v.validatePath(chain).Ok?
    ensures var anchorIndex := v.validatePath(chain).value;
            var outcome := ValidateAndWalk(v, checker, chain, batches);
            && DecidedByChecks(checker, chain, v.anchors[anchorIndex], anchorIndex, outcome.result)
            && (outcome.result.Ok? ==> outcome.performed == ChecksOf(chain, v.anchors[anchorIndex]))
            && outcome.used == chain && outcome.batches == batches
  {
    var anchor := v.anchors[v.validatePath(chain).value];
    WalkOutcome(checker, chain, anchor);
    WalkStopsAtFirstFailure(checker, ChecksOf(chain, anchor));
  }

  /** Success comes from validating a chain and walking it. */
  lemma OkIsDecided(v: Verifier, checker: Checker, chain: seq<Certificate>)
    requires ValidatorContract(v) && VerifyRun(v, checker, chain).result.Ok?
    ensures var outcome := VerifyRun(v, checker, chain);
            && v.validatePath(outcome.used) == Ok(outcome.result.value)
            && AllPass(checker, outcome.used, v.anchors[outcome.result.value])
            && outcome.performed == ChecksOf(outcome.used, v.anchors[outcome.result.value])
  {
    var outcome := VerifyRun(v, checker, chain);
    WalkDecides(v, checker, outcome.used, outcome.batches);
  }

  /** Success means: validation accepted a chain headed by the caller's leaf, every
      certificate of which was supplied or fetched, and each certificate of it passed
      exactly one revocation check, against its successor or, for the last, the anchor
      that validation reported. */
  lemma VerifiedMeansChecked(v: Verifier, checker: Checker, chain: seq<Certificate>)
    requires ValidatorContract(v) && BuilderContract(v)
    requires VerifyRun(v, checker, chain).result.Ok?
    ensures var outcome := VerifyRun(v, checker, chain);
            var used, anchorIndex := outcome.used, outcome.result.value;
            && chain != [] && used != [] && used[0] == chain[0]
            && v.validatePath(used) == Ok(anchorIndex)
            && (forall c <- used :: c in chain || Brought(v, outcome.batches, c))
            && outcome.performed == ChecksOf(used, v.anchors[anchorIndex])
            && (forall i :: 0 <= i < |used| - 1 ==> checker.againstIssuer(used[i], used[i + 1]).None?)
            && checker.againstAnchor(used[|used| - 1], v.anchors[anchorIndex]).None?
  {
    var outcome := VerifyRun(v, checker, chain);
    var used := outcome.used;
    OkIsDecided(v, checker, chain);
    if v.validatePath(chain).Err? {
      BuildRunIsDrawn(v, chain);
      PoolIsSourced(v, chain);
      var pool := BuildRun(v, chain).1.pool;
      assert pool[0] == chain[0];
      forall c | c in used ensures c in pool {
        assert used == [used[0]] + used[1..];
      }
    }
  }

  /** A chain that validates as supplied is accepted or refused by its checks alone, a
      fault that more certificates cannot repair is reported as it is, and in both cases
      nothing is fetched. */
  lemma FastPathIsFinal(v: Verifier, checker: Checker, chain: seq<Certificate>)
    requires ValidatorContract(v)
    ensures var outcome := VerifyRun(v, checker, chain);
            match v.validatePath(chain)
            case Ok(anchorIndex) =>
              && DecidedByChecks(checker, chain, v.anchors[anchorIndex], anchorIndex, outcome.result)
              && outcome.batches == [] && outcome.used == chain
            case Err(OtherPathError(code)) =>
              && outcome.result == Err(Path(OtherPathError(code)))
              && outcome.batches == [] && outcome.performed == []
            case Err(_) => true
  {
    if v.validatePath(chain).Ok? {
      WalkDecides(v, checker, chain, []);
    }
  }

  /** A broken chain, one without a trusted path and one with an invalid signature are
      reassembled.  A chain that was built is validated, and then its checks decide; an
      error of reassembly or of validation is reported and nothing is checked. */
  lemma SlowPathOutcome(v: Verifier, checker: Checker, chain: seq<Certificate>)
    requires ValidatorContract(v)
    requires v.validatePath(chain).Err?
    requires var e := v.validatePath(chain).error; e.ChainBroken? || e.NoTrustedPath? || e.SignatureInvalid?
    ensures var outcome := VerifyRun(v, checker, chain);
            && outcome.batches == BuildRun(v, chain).1.log
            && match BuildRun(v, chain).0
               case Err(e) => outcome.result == Err(e) && outcome.performed == []
               case Ok(path) =>
                 && outcome.used == path
                 && match v.validatePath(path)
                    case Err(e) => outcome.result == Err(Path(e)) && outcome.performed == []
                    case Ok(anchorIndex) =>
                      DecidedByChecks(checker, path, v.anchors[anchorIndex], anchorIndex, outcome.result)
  {
    var (built, last) := BuildRun(v, chain);
    if built.Ok? && v.validatePath(built.value).Ok? {
      WalkDecides(v, checker, built.value, last.log);
    }
  }

  // ----- the no-check shim -----

  datatype LeafIdent = LeafIdent(issuer: Name, serial: seq<int>) {
    static function Of(cert: Certificate): LeafIdent {
      LeafIdent(cert.issuer, cert.serial)
    }

    predicate Matches(cert: Certificate) {
      serial == cert.serial && issuer == cert.issuer
    }
  }

  /** `NoCheckShim`: passes the designated leaf, asks the inner checker otherwise. */
  function NoCheckShim(inner: Checker, leafId: Option<LeafIdent>): Checker {
    Checker(
      (cert: Certificate, issuer: Certificate) =>
        if leafId.Some? && leafId.value.Matches(cert) then None else inner.againstIssuer(cert, issuer),
      (cert: Certificate, anchor: TrustAnchor) =>
        if leafId.Some? && leafId.value.Matches(cert) then None else inner.againstAnchor(cert, anchor))
  }

  /** The shim passes what has the leaf's issuer and serial number, octet for octet, and
      hands on everything else. */
  lemma ShimAnswers(inner: Checker, leafId: Option<LeafIdent>, check: Check)
    ensures Perform(NoCheckShim(inner, leafId), check)
            == if && leafId.Some? && leafId.value.serial == check.cert.serial
                  && leafId.value.issuer == check.cert.issuer
               then None
               else Perform(inner, check)
  {
    if leafId.Some? {
      var id := leafId.value;
      assert id.Matches(check.cert) <==> id.serial == check.cert.serial && id.issuer == check.cert.issuer;
    }
  }

  /** Where the shim does not match, the walk is that of the inner checker. */
  lemma {:induction false} ShimOfOthers(inner: Checker, leafId: Option<LeafIdent>, checks: seq<Check>)
    requires forall c <- checks :: leafId.Some? ==> !leafId.value.Matches(c.cert)
    ensures Walk(NoCheckShim(inner, leafId), checks) == Walk(inner, checks)
  {
    if checks == [] {
    } else {
      ShimAnswers(inner, leafId, checks[0]);
      ShimOfOthers(inner, leafId, checks[1..]);
    }
  }

  /** On a chain where no other certificate has the leaf's issuer and serial number,
      the walk under the shim is the inner checker's walk with exactly index 0 skipped,
      whether the leaf is checked against an issuer or against the anchor. */
  lemma {:induction false} ShimSkipsExactlyLeaf(inner: Checker, chain: seq<Certificate>, anchor: TrustAnchor)
    requires chain != []
    requires forall i :: 0 < i < |chain| ==> !LeafIdent.Of(chain[0]).Matches(chain[i])
    ensures var checks := ChecksOf(chain, anchor);
            var skipped := Walk(inner, checks[1..]);
            Walk(NoCheckShim(inner, Some(LeafIdent.Of(chain[0]))), checks)
            == (skipped.0, [checks[0]] + skipped.1)
  {
    var checks, id := ChecksOf(chain, anchor), Some(LeafIdent.Of(chain[0]));
    forall c | c in checks[1..] ensures !id.value.Matches(c.cert) {
      var i :| 0 <= i < |checks[1..]| && checks[1..][i] == c;
      assert checks[i + 1] == c;
    }
    ShimOfOthers(inner, id, checks[1..]);
    assert checks[0].cert == chain[0];
    ShimAnswers(inner, id, checks[0]);
  }

  // ----- OCSP responders -----

  /** `verify_ocsp_responder`; `signedBy` is the signature check of the delegation. */
  method VerifyOcspResponder(v: Verifier, checker: Checker, chain: seq<Certificate>, issuer: Certificate,
                             signedBy: (Certificate, Certificate) -> bool)
    returns (result: Result<nat, Error>)
    requires ValidatorContract(v)
    ensures chain == [] ==> result == Err(OcspDelegation)
    ensures chain != [] ==>
              var verified := VerifyRun(v, NoCheckShim(checker, LeafToSkip(chain[0])), chain).result;
              var delegated := v.prepare(chain[0].issuer) == v.prepare(issuer.subject) && signedBy(chain[0], issuer);
              result == if verified.Ok? && !delegated then Err(OcspDelegation) else verified
  {
    if chain == [] {
      return Err(OcspDelegation);
    }
    var shim := NoCheckShim(checker, LeafToSkip(chain[0]));
    var verified := VerifyOne(v, shim, chain);
    if verified.result.Err? {
      return verified.result;
    }
    if !v.NamesMatch(chain[0].issuer, issuer.subject) {
      return Err(OcspDelegation);
    }
    if !signedBy(chain[0], issuer) {
      return Err(OcspDelegation);
    }
    return verified.result;
  }

  function LeafToSkip(leaf: Certificate): Option<LeafIdent> {
    if leaf.ocspNoCheck then Some(LeafIdent.Of(leaf)) else None
  }

  /** Certificate `i` has the leaf's issuer and serial number, and the leaf carries the
      no-check extension. */
  predicate Exempt(chain: seq<Certificate>, i: nat)
    requires i < |chain|
  {
    && chain[0].ocspNoCheck
    && chain[i].serial == chain[0].serial && chain[i].issuer == chain[0].issuer
  }

  /** Every certificate that is not exempt passes the caller's own checks. */
  ghost predicate OthersPass(checker: Checker, chain: seq<Certificate>, anchor: TrustAnchor) {
    && (forall i :: 0 <= i < |chain| - 1 ==>
          Exempt(chain, i) || checker.againstIssuer(chain[i], chain[i + 1]).None?)
    && (chain != [] ==>
          Exempt(chain, |chain| - 1) || checker.againstAnchor(chain[|chain| - 1], anchor).None?)
  }

  lemma ShimPasses(checker: Checker, chain: seq<Certificate>, anchor: TrustAnchor)
    requires chain != []
    ensures AllPass(NoCheckShim(checker, LeafToSkip(chain[0])), chain, anchor)
            <==> OthersPass(checker, chain, anchor)
  {
    var shim, last := NoCheckShim(checker, LeafToSkip(chain[0])), |chain| - 1;
    forall i | 0 <= i < last
      ensures shim.againstIssuer(chain[i], chain[i + 1])
              == if Exempt(chain, i) then None else checker.againstIssuer(chain[i], chain[i + 1])
    {
      ShimAnswers(checker, LeafToSkip(chain[0]), ByIssuer(chain[i], chain[i + 1]));
    }
    ShimAnswers(checker, LeafToSkip(chain[0]), ByAnchor(chain[last], anchor));
  }

  /** A responder chain that validates as supplied is verified exactly when every
      certificate passes the caller's own checks, other than those that share issuer and
      serial number with a responder that carries the no-check extension. */
  lemma ResponderExactly(v: Verifier, checker: Checker, chain: seq<Certificate>, anchorIndex: nat)
    requires ValidatorContract(v) && v.validatePath(chain) == Ok(anchorIndex)
    ensures VerifyRun(v, NoCheckShim(checker, LeafToSkip(chain[0])), chain).result == Ok(anchorIndex)
            <==> OthersPass(checker, chain, v.anchors[anchorIndex])
  {
    FastPathIsFinal(v, NoCheckShim(checker, LeafToSkip(chain[0])), chain);
    ShimPasses(checker, chain, v.anchors[anchorIndex]);
  }

  /** An accepted responder chain has passed the caller's own revocation check for every
      certificate, except the responder itself when it carries the no-check extension. */
  lemma AcceptedResponderIsChecked(v: Verifier, checker: Checker, chain: seq<Certificate>)
    requires ValidatorContract(v) && BuilderContract(v)
    requires forall used :: v.validatePath(used).Ok? ==>
               forall i :: 0 < i < |used| ==> !LeafIdent.Of(used[0]).Matches(used[i])
    requires chain != []
    requires VerifyRun(v, NoCheckShim(checker, LeafToSkip(chain[0])), chain).result.Ok?
    ensures var outcome := VerifyRun(v, NoCheckShim(checker, LeafToSkip(chain[0])), chain);
            var used, anchor := outcome.used, v.anchors[outcome.result.value];
            && used != [] && used[0] == chain[0]
            && (forall i :: (if chain[0].ocspNoCheck then 1 else 0) <= i < |used| - 1 ==>
                  checker.againstIssuer(used[i], used[i + 1]).None?)
            && (|used| > 1 || !chain[0].ocspNoCheck ==> checker.againstAnchor(used[|used| - 1], anchor).None?)
  {
    var shim := NoCheckShim(checker, LeafToSkip(chain[0]));
    VerifiedMeansChecked(v, shim, chain);
    var outcome := VerifyRun(v, shim, chain);
    var used := outcome.used;
    ShimPasses(checker, used, v.anchors[outcome.result.value]);
    forall i | 0 < i < |used| ensures !Exempt(used, i) {
      assert !LeafIdent.Of(used[0]).Matches(used[i]);
    }
  }
}
