/** Chain reassembly by AIA fetching (pkix-chain/src/lib.rs, `build_with_aia`):
    the loop of the source and the run it performs. */
module AiaChain {
  import opened ChainTypes
  import opened Outcomes

  const AIA_MAX_DEPTH: nat := 5

  /** The loop's variables, and the batches issued so far. */
  datatype State = State(pool: seq<Certificate>, tried: set<Uri>, lastError: Option<AiaError>, log: seq<Batch>)

  datatype Round = Finished(result: Result<seq<Certificate>, Error>, state: State) | Continues(state: State)

  type Built = Result<seq<Certificate>, Error>

  /** Is there a certificate in the pool, or an anchor, named like the issuer? */
  predicate IssuerResolvable(v: Verifier, cert: Certificate, pool: seq<Certificate>) {
    || (exists c :: c in pool && v.NamesMatch(c.subject, cert.issuer))
    || (exists a :: a in v.anchors && v.NamesMatch(a.subject, cert.issuer))
  }

  /** The caIssuers URIs of the certificates among `certs` with no issuer in `pool`. */
  function OrphanUris(v: Verifier, certs: seq<Certificate>, pool: seq<Certificate>): seq<Uri> {
    if certs == [] then
      []
    else
      var last := certs[|certs| - 1];
      OrphanUris(v, certs[..|certs| - 1], pool) + if IssuerResolvable(v, last, pool) then [] else last.caIssuers
  }

  /** The URIs of `uris` not tried yet, each once, in order of first appearance. */
  function Fresh(uris: seq<Uri>, tried: set<Uri>): seq<Uri> {
    if uris == [] then
      []
    else
      var before := Fresh(uris[..|uris| - 1], tried);
      var last := uris[|uris| - 1];
      if last in tried || last in before then before else before + [last]
  }

  function Elements(uris: seq<Uri>): set<Uri> {
    set u | u in uris
  }

  /** The certificates that a batch brought. */
  function FetchedCerts(responses: seq<Response>): seq<Certificate> {
    if responses == [] then
      []
    else
      var last := responses[|responses| - 1];
      FetchedCerts(responses[..|responses| - 1]) + if last.Fetched? then [last.cert] else []
  }

  /** The most recent AIA error after a batch. */
  function LastError(lastError: Option<AiaError>, responses: seq<Response>): Option<AiaError> {
    if responses == [] then
      lastError
    else
      match responses[|responses| - 1]
      case Fetched(_) => LastError(lastError, responses[..|responses| - 1])
      case NotACertificate => Some(MalformedCertificate)
      case Failed(e) => Some(e)
  }

  /** The responses that are paired with a URI of the batch. */
  function Paired(uris: seq<Uri>, responses: seq<Response>): seq<Response> {
    if |responses| <= |uris| then responses else responses[..|uris|]
  }

  /** Falling back to a chain by topology alone. */
  function TopologyOnly(v: Verifier, leaf: Certificate, pool: seq<Certificate>): Built {
    match v.buildPath(leaf, pool)
    case Ok(chain) => Ok(chain)
    case Err(e) => Err(PathBuild(e))
  }

  function FetchRound(v: Verifier, st: State): Round {
    var uris := Fresh(OrphanUris(v, st.pool, st.pool), st.tried);
    if uris == [] then
      Finished(Err(if st.lastError.Some? then Aia(st.lastError.value) else PathBuild(NoPathFound)), st)
    else
      var log := st.log + [Batch(st.pool, uris)];
      var responses := Paired(uris, v.batchFetch(log));
      var fetched := FetchedCerts(responses);
      var next := State(st.pool + fetched, st.tried + Elements(uris), LastError(st.lastError, responses), log);
      if fetched == [] then
        Finished(Err(Aia(if next.lastError.Some? then next.lastError.value else FetchingDisabled)), next)
      else
        Continues(next)
  }

  /** One turn of the loop: build, and when no path exists, fetch. */
  function OneRound(v: Verifier, leaf: Certificate, st: State): Round {
    match v.buildFirstValidPath(leaf, st.pool)
    case Ok(chain) => Finished(Ok(chain), st)
    case Err(NoPathFound) => FetchRound(v, st)
    case Err(NoValidPath) => Finished(TopologyOnly(v, leaf, st.pool), st)
    case Err(e) => Finished(Err(PathBuild(e)), st)
  }

  /** The attempt after the loop. */
  function LastAttempt(v: Verifier, leaf: Certificate, pool: seq<Certificate>): Built {
    match v.buildFirstValidPath(leaf, pool)
    case Ok(chain) => Ok(chain)
    case Err(NoValidPath) => TopologyOnly(v, leaf, pool)
    case Err(_) => Err(AiaDepthExceeded)
  }

  /** At most `rounds` turns of a loop, and what happens after the last. */
  function Iterate(turn: State -> Round, after: State -> Built, st: State, rounds: nat): (Built, State)
    decreases rounds, st
  {
    if rounds == 0 then
      (after(st), st)
    else
      match turn(st)
      case Finished(result, last) => (result, last)
      case Continues(next) => Iterate(turn, after, next, rounds - 1)
  }

  function Turn(v: Verifier, leaf: Certificate): State -> Round {
    (st: State) => OneRound(v, leaf, st)
  }

  function AfterLoop(v: Verifier, leaf: Certificate): State -> Built {
    (st: State) => LastAttempt(v, leaf, st.pool)
  }

  function InitialState(supplied: seq<Certificate>): State {
    State(supplied, {}, None, [])
  }

  function BuildRun(v: Verifier, supplied: seq<Certificate>): (Built, State) {
    if supplied == [] then
      (Err(PathBuild(NoPathFound)), InitialState([]))
    else
      Iterate(Turn(v, supplied[0]), AfterLoop(v, supplied[0]), InitialState(supplied), AIA_MAX_DEPTH)
  }

  // ----- the code of the source -----

  /** The loops over the URIs have looked at `seen`, and kept those not tried before. */
  ghost predicate Collected(seen: seq<Uri>, triedBefore: set<Uri>, newUris: seq<Uri>, tried: set<Uri>) {
    newUris == Fresh(seen, triedBefore) && tried == triedBefore + Elements(newUris)
  }

  /** The inner loop, over one certificate's URIs. */
  method PushNewUris(uris: seq<Uri>, newBefore: seq<Uri>, triedNow: set<Uri>,
                     ghost seenBefore: seq<Uri>, ghost triedBefore: set<Uri>)
    returns (newUris: seq<Uri>, tried: set<Uri>)
    requires Collected(seenBefore, triedBefore, newBefore, triedNow)
    ensures Collected(seenBefore + uris, triedBefore, newUris, tried)
  {
    newUris, tried := newBefore, triedNow;
    ghost var seen := seenBefore;
    for j := 0 to |uris|
      invariant seen == seenBefore + uris[..j]
      invariant Collected(seen, triedBefore, newUris, tried)
    {
      seen := seen + [uris[j]];
      if uris[j] !in tried {
        tried := tried + {uris[j]};
        newUris := newUris + [uris[j]];
      }
    }
    assert uris[..|uris|] == uris;
  }

  method CollectNewUris(v: Verifier, pool: seq<Certificate>, triedBefore: set<Uri>)
    returns (newUris: seq<Uri>, tried: set<Uri>)
    ensures newUris == Fresh(OrphanUris(v, pool, pool), triedBefore)
    ensures tried == triedBefore + Elements(newUris)
  {
    newUris, tried := [], triedBefore;
    ghost var seen: seq<Uri> := [];
    for i := 0 to |pool|
      invariant seen == OrphanUris(v, pool[..i], pool)
      invariant Collected(seen, triedBefore, newUris, tried)
    {
      var cert := pool[i];
      NextOrphan(v, pool, i);
      var resolvable := HasIssuer(v, cert, pool);
      if resolvable {
        continue;
      }
      newUris, tried := PushNewUris(cert.caIssuers, newUris, tried, seen, triedBefore);
      seen := seen + cert.caIssuers;
    }
    assert pool[..|pool|] == pool;
  }

  lemma {:induction false} NextOrphan(v: Verifier, pool: seq<Certificate>, i: nat)
    requires i < |pool|
    ensures OrphanUris(v, pool[..i + 1], pool)
            == if IssuerResolvable(v, pool[i], pool) then OrphanUris(v, pool[..i], pool)
               else OrphanUris(v, pool[..i], pool) + pool[i].caIssuers
  {
    assert pool[..i + 1][..i] == pool[..i];
  }

  method HasIssuer(v: Verifier, cert: Certificate, pool: seq<Certificate>) returns (found: bool)
    ensures found == IssuerResolvable(v, cert, pool)
    ensures !found <==>
            && (forall c <- pool :: v.prepare(c.subject) != v.prepare(cert.issuer))
            && (forall a <- v.anchors :: v.prepare(a.subject) != v.prepare(cert.issuer))
  {
    for i := 0 to |pool|
      invariant forall k :: 0 <= k < i ==> !v.NamesMatch(pool[k].subject, cert.issuer)
    {
      if v.NamesMatch(pool[i].subject, cert.issuer) {
        return true;
      }
    }
    for i := 0 to |v.anchors|
      invariant forall k :: 0 <= k < i ==> !v.NamesMatch(v.anchors[k].subject, cert.issuer)
    {
      if v.NamesMatch(v.anchors[i].subject, cert.issuer) {
        return true;
      }
    }
    return false;
  }

  method AbsorbResponses(poolBefore: seq<Certificate>, errorBefore: Option<AiaError>,
                         uris: seq<Uri>, results: seq<Response>)
    returns (pool: seq<Certificate>, lastError: Option<AiaError>, addedAny: bool)
    ensures pool == poolBefore + FetchedCerts(Paired(uris, results))
    ensures lastError == LastError(errorBefore, Paired(uris, results))
    ensures addedAny <==> FetchedCerts(Paired(uris, results)) != []
  {
    pool, lastError, addedAny := poolBefore, errorBefore, false;
    var k := 0;
    while k < |uris| && k < |results|
      invariant k <= |uris| && k <= |results|
      invariant pool == poolBefore + FetchedCerts(results[..k])
      invariant lastError == LastError(errorBefore, results[..k])
      invariant addedAny <==> FetchedCerts(results[..k]) != []
    {
      assert results[..k + 1][..k] == results[..k];
      match results[k] {
        case Fetched(cert) =>
          pool := pool + [cert];
          addedAny := true;
        case NotACertificate =>
          lastError := Some(MalformedCertificate);
        case Failed(e) =>
          lastError := Some(e);
      }
      k := k + 1;
    }
    assert results[..k] == Paired(uris, results);
  }

  /** How the run goes on from `st` with that many turns left. */
  function RunFrom(v: Verifier, leaf: Certificate, st: State, rounds: nat): (Built, State) {
    Iterate(Turn(v, leaf), AfterLoop(v, leaf), st, rounds)
  }

  lemma TurnOfRun(v: Verifier, leaf: Certificate, st: State, rounds: nat)
    ensures rounds == 0 ==> RunFrom(v, leaf, st, rounds) == (LastAttempt(v, leaf, st.pool), st)
    ensures rounds > 0 ==>
              match OneRound(v, leaf, st)
              case Finished(result, last) => RunFrom(v, leaf, st, rounds) == (result, last)
              case Continues(next) => RunFrom(v, leaf, st, rounds) == RunFrom(v, leaf, next, rounds - 1)
  {
  }

  method BuildWithAia(v: Verifier, supplied: seq<Certificate>) returns (result: Built, log: seq<Batch>)
    ensures result == BuildRun(v, supplied).0
    ensures log == BuildRun(v, supplied).1.log
  {
    log := [];
    if supplied == [] {
      return Err(PathBuild(NoPathFound)), log;
    }
    var leaf := supplied[0];
    var pool := supplied;
    var tried: set<Uri> := {};
    var lastError: Option<AiaError> := None;
    ghost var end := BuildRun(v, supplied);
    for iteration := 0 to AIA_MAX_DEPTH
      invariant RunFrom(v, leaf, State(pool, tried, lastError, log), AIA_MAX_DEPTH - iteration) == end
    {
      TurnOfRun(v, leaf, State(pool, tried, lastError, log), AIA_MAX_DEPTH - iteration);
      match v.buildFirstValidPath(leaf, pool) {
        case Ok(built) =>
          return Ok(built), log;
        case Err(NoPathFound) =>
        case Err(NoValidPath) =>
          return TopologyOnly(v, leaf, pool), log;
        case Err(e) =>
          return Err(PathBuild(e)), log;
      }
      var newUris;
      newUris, tried := CollectNewUris(v, pool, tried);
      if newUris == [] {
        return Err(if lastError.Some? then Aia(lastError.value) else PathBuild(NoPathFound)), log;
      }
      log := log + [Batch(pool, newUris)];
      var results := v.batchFetch(log);
      var addedAny;
      pool, lastError, addedAny := AbsorbResponses(pool, lastError, newUris, results);
      if !addedAny {
        return Err(Aia(if lastError.Some? then lastError.value else FetchingDisabled)), log;
      }
    }
    TurnOfRun(v, leaf, State(pool, tried, lastError, log), 0);
    match v.buildFirstValidPath(leaf, pool) {
      case Ok(built) =>
        return Ok(built), log;
      case Err(NoValidPath) =>
        return TopologyOnly(v, leaf, pool), log;
      case Err(_) =>
    }
    return Err(AiaDepthExceeded), log;
  }
}
