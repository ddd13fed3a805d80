/** What every run of chain reassembly keeps, and when it succeeds. */
module AiaGuarantees {
  import opened AiaChain
  import opened ChainTypes
  import opened Outcomes

  // ----- safety over a whole run -----

  predicate NoRepeats(uris: seq<Uri>) {
    forall i, j :: 0 <= i < j < |uris| ==> uris[i] != uris[j]
  }

  /** Every URI fetched so far, in order. */
  function AllFetched(log: seq<Batch>): seq<Uri> {
    if log == [] then [] else AllFetched(log[..|log| - 1]) + log[|log| - 1].uris
  }

  /** No certificate of the pool and no anchor is named like the issuer of `cert`. */
  ghost predicate IssuerMissing(v: Verifier, cert: Certificate, pool: seq<Certificate>) {
    && (forall d <- pool :: v.prepare(d.subject) != v.prepare(cert.issuer))
    && (forall a <- v.anchors :: v.prepare(a.subject) != v.prepare(cert.issuer))
  }

  /** The loop passes over exactly the certificates whose issuer is not missing. */
  lemma ResolvableOrMissing(v: Verifier, cert: Certificate, pool: seq<Certificate>)
    ensures IssuerResolvable(v, cert, pool) <==> !IssuerMissing(v, cert, pool)
  {
    if IssuerResolvable(v, cert, pool) {
      if c :| c in pool && v.NamesMatch(c.subject, cert.issuer) {
        assert v.prepare(c.subject) == v.prepare(cert.issuer);
      }
    }
  }

  /** The URI comes from a certificate of the pool whose issuer is missing. */
  ghost predicate Justified(v: Verifier, pool: seq<Certificate>, u: Uri) {
    exists c :: c in pool && IssuerMissing(v, c, pool) && u in c.caIssuers
  }

  /** Every batch is a non-empty set of justified URIs of its own pool. */
  ghost predicate BatchesJustified(v: Verifier, log: seq<Batch>) {
    forall batch <- log :: batch.uris != [] && forall u <- batch.uris :: Justified(v, batch.pool, u)
  }

  /** From batch to batch the pool has grown, starting from the supplied chain. */
  ghost predicate PoolsGrow(supplied: seq<Certificate>, log: seq<Batch>) {
    && (log != [] ==> log[0].pool == supplied)
    && (forall i :: 0 < i < |log| ==> log[i - 1].pool < log[i].pool)
  }

  /** What a run has done so far: justified batches, no URI fetched twice, a pool
      that every batch but the last made grow. */
  ghost predicate SafeSoFar(v: Verifier, supplied: seq<Certificate>, st: State) {
    && BatchesJustified(v, st.log)
    && NoRepeats(AllFetched(st.log))
    && PoolsGrow(supplied, st.log)
    && (if st.log == [] then st.pool == supplied else st.log[|st.log| - 1].pool <= st.pool)
  }

  /** What the loop keeps: also the last batch made the pool grow, and the tried URIs
      are the fetched ones. */
  ghost predicate RunInvariant(v: Verifier, supplied: seq<Certificate>, st: State) {
    && SafeSoFar(v, supplied, st)
    && (st.log != [] ==> st.log[|st.log| - 1].pool < st.pool)
    && st.tried == Elements(AllFetched(st.log))
  }

  lemma {:induction false} OrphanUriIsJustified(v: Verifier, certs: seq<Certificate>, pool: seq<Certificate>, u: Uri)
    ensures u in OrphanUris(v, certs, pool)
            <==> exists c :: c in certs && IssuerMissing(v, c, pool) && u in c.caIssuers
  {
    if certs == [] {
    } else {
      var init, last := certs[..|certs| - 1], certs[|certs| - 1];
      ResolvableOrMissing(v, last, pool);
      OrphanUriIsJustified(v, init, pool, u);
      assert certs == init + [last];
    }
  }

  lemma {:induction false} FreshIsNew(uris: seq<Uri>, tried: set<Uri>)
    ensures NoRepeats(Fresh(uris, tried))
    ensures forall u :: u in Fresh(uris, tried) <==> u in uris && u !in tried
  {
    if uris == [] {
    } else {
      var init, last := uris[..|uris| - 1], uris[|uris| - 1];
      FreshIsNew(init, tried);
      assert uris == init + [last];
    }
  }

  lemma NoRepeatsAppend(a: seq<Uri>, b: seq<Uri>)
    requires NoRepeats(a) && NoRepeats(b) && forall u :: u in b ==> u !in a
    ensures NoRepeats(a + b)
  {
    forall i, j | 0 <= i < j < |a + b| ensures (a + b)[i] != (a + b)[j] {
      if i < |a| <= j {
        assert b[j - |a|] in b && a[i] in a;
      }
    }
  }

  lemma {:induction false} FreshUrisAreJustified(v: Verifier, pool: seq<Certificate>, tried: set<Uri>)
    ensures forall u <- Fresh(OrphanUris(v, pool, pool), tried) :: Justified(v, pool, u) && u !in tried
    ensures NoRepeats(Fresh(OrphanUris(v, pool, pool), tried))
  {
    FreshIsNew(OrphanUris(v, pool, pool), tried);
    forall u | u in Fresh(OrphanUris(v, pool, pool), tried) ensures Justified(v, pool, u) {
      OrphanUriIsJustified(v, pool, pool, u);
    }
  }

  lemma {:induction false} PushFetched(log: seq<Batch>, batch: Batch)
    requires NoRepeats(AllFetched(log)) && NoRepeats(batch.uris)
    requires forall u <- batch.uris :: u !in Elements(AllFetched(log))
    ensures NoRepeats(AllFetched(log + [batch]))
    ensures Elements(AllFetched(log + [batch])) == Elements(AllFetched(log)) + Elements(batch.uris)
  {
    assert (log + [batch])[..|log|] == log;
    assert AllFetched(log + [batch]) == AllFetched(log) + batch.uris;
    NoRepeatsAppend(AllFetched(log), batch.uris);
  }

  lemma PushGrown(supplied: seq<Certificate>, log: seq<Batch>, batch: Batch)
    requires PoolsGrow(supplied, log)
    requires if log == [] then batch.pool == supplied else log[|log| - 1].pool < batch.pool
    ensures PoolsGrow(supplied, log + [batch])
  {
  }

  /** Logging one more batch of new URIs keeps what holds of the log. */
  lemma PushBatch(v: Verifier, supplied: seq<Certificate>, st: State, uris: seq<Uri>)
    requires RunInvariant(v, supplied, st)
    requires uris != [] && NoRepeats(uris)
    requires forall u <- uris :: Justified(v, st.pool, u) && u !in st.tried
    ensures var log := st.log + [Batch(st.pool, uris)];
            && BatchesJustified(v, log) && NoRepeats(AllFetched(log)) && PoolsGrow(supplied, log)
            && Elements(AllFetched(log)) == st.tried + Elements(uris)
  {
    PushFetched(st.log, Batch(st.pool, uris));
    PushGrown(supplied, st.log, Batch(st.pool, uris));
  }

  /** What one round may do. */
  ghost predicate SafeRound(v: Verifier, supplied: seq<Certificate>, st: State, round: Round) {
    match round
    case Finished(result, last) =>
      SafeSoFar(v, supplied, last) && |last.log| <= |st.log| + 1 && result != Err(AiaDepthExceeded)
    case Continues(next) =>
      RunInvariant(v, supplied, next) && |next.log| == |st.log| + 1
  }

  /** A round of fetching keeps the invariant, up to the growth it may not bring. */
  lemma FetchKeepsInvariant(v: Verifier, supplied: seq<Certificate>, st: State)
    requires RunInvariant(v, supplied, st)
    ensures SafeRound(v, supplied, st, FetchRound(v, st))
  {
    var uris := Fresh(OrphanUris(v, st.pool, st.pool), st.tried);
    FreshUrisAreJustified(v, st.pool, st.tried);
    if uris != [] {
      PushBatch(v, supplied, st, uris);
    }
  }

  /** Only a round without any path fetches; every other ends the run as it is. */
  lemma RoundCases(v: Verifier, leaf: Certificate, st: State)
    ensures v.buildFirstValidPath(leaf, st.pool) == Err(NoPathFound) ==> OneRound(v, leaf, st) == FetchRound(v, st)
    ensures v.buildFirstValidPath(leaf, st.pool) != Err(NoPathFound) ==>
              var round := OneRound(v, leaf, st);
              round.Finished? && round.state == st && round.result != Err(AiaDepthExceeded)
  {
  }

  lemma RoundKeepsInvariant(v: Verifier, supplied: seq<Certificate>, leaf: Certificate, st: State)
    requires RunInvariant(v, supplied, st)
    ensures SafeRound(v, supplied, st, OneRound(v, leaf, st))
  {
    RoundCases(v, leaf, st);
    if v.buildFirstValidPath(leaf, st.pool) == Err(NoPathFound) {
      FetchKeepsInvariant(v, supplied, st);
    }
  }

  /** How a run may end, `rounds` rounds after `st`. */
  ghost predicate SafeEnd(v: Verifier, supplied: seq<Certificate>, result: Built, last: State, batches: nat) {
    && SafeSoFar(v, supplied, last)
    && |last.log| <= batches
    && (result == Err(AiaDepthExceeded) ==> RunInvariant(v, supplied, last) && |last.log| == batches)
  }

  /** An invariant of the rounds that go on, each logging one batch, bounds the batches of
      the run and holds when it ends. */
  lemma {:induction false} RunsEndWell(keeps: State -> bool, ends: (Built, State, nat) -> bool,
                                       turn: State -> Round, after: State -> Built, st: State, rounds: nat)
    requires keeps(st)
    requires forall s: State :: keeps(s) && turn(s).Continues? ==>
               keeps(turn(s).state) && |turn(s).state.log| == |s.log| + 1
    requires forall s: State, n: nat :: keeps(s) && turn(s).Finished? && |s.log| < n ==>
               ends(turn(s).result, turn(s).state, n)
    requires forall s: State :: keeps(s) ==> ends(after(s), s, |s.log|)
    ensures var (result, last) := Iterate(turn, after, st, rounds); ends(result, last, |st.log| + rounds)
    decreases rounds
  {
    if rounds == 0 || turn(st).Finished? {
    } else {
      RunsEndWell(keeps, ends, turn, after, turn(st).state, rounds - 1);
    }
  }

  lemma RoundGoesOn(v: Verifier, supplied: seq<Certificate>, leaf: Certificate, s: State)
    requires RunInvariant(v, supplied, s) && OneRound(v, leaf, s).Continues?
    ensures var next := OneRound(v, leaf, s).state; RunInvariant(v, supplied, next) && |next.log| == |s.log| + 1
  {
    RoundKeepsInvariant(v, supplied, leaf, s);
  }

  lemma RoundEndsSafely(v: Verifier, supplied: seq<Certificate>, leaf: Certificate, s: State, n: nat)
    requires RunInvariant(v, supplied, s) && OneRound(v, leaf, s).Finished? && |s.log| < n
    ensures SafeEnd(v, supplied, OneRound(v, leaf, s).result, OneRound(v, leaf, s).state, n)
  {
    RoundKeepsInvariant(v, supplied, leaf, s);
  }

  /** Safety of every run, with any fetcher, builder and validator: at most five
      batches; no URI fetched twice; every fetched URI from a certificate without an
      issuer in the pool of that moment; and a run that ends at the depth limit has
      issued all five batches, each of which added a certificate. */
  lemma RunIsSafe(v: Verifier, supplied: seq<Certificate>)
    ensures SafeEnd(v, supplied, BuildRun(v, supplied).0, BuildRun(v, supplied).1, 5)
  {
    if supplied != [] {
      var leaf := supplied[0];
      var keeps := (s: State) => RunInvariant(v, supplied, s);
      var ends := (result: Built, last: State, n: nat) => SafeEnd(v, supplied, result, last, n);
      forall s: State | keeps(s) && Turn(v, leaf)(s).Continues?
        ensures keeps(Turn(v, leaf)(s).state) && |Turn(v, leaf)(s).state.log| == |s.log| + 1
      {
        RoundGoesOn(v, supplied, leaf, s);
      }
      forall s: State, n: nat | keeps(s) && Turn(v, leaf)(s).Finished? && |s.log| < n
        ensures ends(Turn(v, leaf)(s).result, Turn(v, leaf)(s).state, n)
      {
        RoundEndsSafely(v, supplied, leaf, s, n);
      }
      RunsEndWell(keeps, ends, Turn(v, leaf), AfterLoop(v, leaf), InitialState(supplied), AIA_MAX_DEPTH);
    }
  }

  // ----- a fetcher that never brings a certificate -----

  ghost predicate NeverFetches(v: Verifier) {
    forall log, k :: 0 <= k < |v.batchFetch(log)| ==> !v.batchFetch(log)[k].Fetched?
  }

  lemma {:induction false} NothingFetched(responses: seq<Response>)
    requires forall k :: 0 <= k < |responses| ==> !responses[k].Fetched?
    ensures FetchedCerts(responses) == []
  {
    if responses == [] {
    } else {
      NothingFetched(responses[..|responses| - 1]);
    }
  }

  /** The error that is reported after a batch that brought nothing: the last of its
      failures, or that fetching is disabled when the fetcher answered nothing at all. */
  function ReportedError(responses: seq<Response>): AiaError {
    var last := LastError(None, responses);
    if last.Some? then last.value else FetchingDisabled
  }

  lemma LastFailureIsReported(responses: seq<Response>)
    requires forall k :: 0 <= k < |responses| ==> !responses[k].Fetched?
    ensures ReportedError(responses)
            == if responses == [] then FetchingDisabled
               else match responses[|responses| - 1]
                    case Failed(e) => e
                    case _ => MalformedCertificate
  {
  }

  /** It is asked at most once.  When it was asked, the run ends with the error of the
      last response to that one batch. */
  lemma FailingFetcherAskedOnce(v: Verifier, supplied: seq<Certificate>)
    requires NeverFetches(v)
    ensures var (result, last) := BuildRun(v, supplied);
            && |last.log| <= 1
            && last.pool == supplied
            && (last.log != [] ==>
                  result == Err(Aia(ReportedError(Paired(last.log[0].uris, v.batchFetch(last.log))))))
  {
    if supplied != [] {
      var st := InitialState(supplied);
      var uris := Fresh(OrphanUris(v, st.pool, st.pool), st.tried);
      var responses := Paired(uris, v.batchFetch([Batch(supplied, uris)]));
      assert st.log + [Batch(supplied, uris)] == [Batch(supplied, uris)];
      NothingFetched(responses);
      assert st.pool + [] == st.pool;
    }
  }

  // ----- progress -----

  /** A chain of certificates, leaf first, each named as the issuer of the one
      before, and a universe of certificates with pairwise distinct names. */
  ghost predicate DistinctNames(v: Verifier, universe: set<Certificate>) {
    forall c, d :: c in universe && d in universe && v.NamesMatch(c.subject, d.subject) ==> c == d
  }

  ghost predicate Linked(v: Verifier, path: seq<Certificate>) {
    forall j :: 0 <= j < |path| - 1 ==> v.NamesMatch(path[j].issuer, path[j + 1].subject)
  }

  /** No anchor is named like an intermediate of the path. */
  ghost predicate AnchorsElsewhere(v: Verifier, path: seq<Certificate>) {
    forall j, a :: 1 <= j < |path| && a in v.anchors ==> !v.NamesMatch(a.subject, path[j].subject)
  }

  /** A builder that returns `path` when the pool has all of it, else finds none. */
  ghost predicate IdealBuilder(v: Verifier, universe: set<Certificate>, path: seq<Certificate>) {
    path != [] &&
    forall pool: seq<Certificate> :: (forall c <- pool :: c in universe) ==>
      v.buildFirstValidPath(path[0], pool)
      == if forall c <- path :: c in pool then Ok(path) else Err(NoPathFound)
  }

  /** A fetcher that answers every URI, answers a URI of a path certificate with its
      issuer, and brings nothing from outside the universe. */
  ghost predicate ResolvingFetcher(v: Verifier, universe: set<Certificate>, path: seq<Certificate>) {
    forall log: seq<Batch> :: log != [] ==>
      var batch, responses := log[|log| - 1], v.batchFetch(log);
      && |responses| == |batch.uris|
      && (forall k :: 0 <= k < |responses| && responses[k].Fetched? ==> responses[k].cert in universe)
      && (forall k, j :: 0 <= k < |responses| && 0 <= j < |path| - 1 && batch.uris[k] in path[j].caIssuers ==>
            responses[k] == Fetched(path[j + 1]))
  }

  /** How many certificates of the path the pool lacks. */
  function Missing(path: seq<Certificate>, pool: seq<Certificate>): nat {
    if path == [] then 0 else Missing(path[1..], pool) + if path[0] in pool then 0 else 1
  }

  /** Every setting in which reassembly is expected to work. */
  ghost predicate Reassemblable(v: Verifier, universe: set<Certificate>, path: seq<Certificate>) {
    && path != []
    && (forall c <- path :: c in universe)
    && DistinctNames(v, universe) && Linked(v, path) && AnchorsElsewhere(v, path)
    && IdealBuilder(v, universe, path) && ResolvingFetcher(v, universe, path)
    && (forall j :: 0 <= j < |path| - 1 ==> path[j].caIssuers != [])
  }

  /** A tried URI of a path certificate has brought its issuer. */
  ghost predicate TriedResolved(path: seq<Certificate>, st: State) {
    && (forall j, u :: 0 <= j < |path| - 1 && u in path[j].caIssuers && u in st.tried ==> path[j + 1] in st.pool)
  }

  lemma {:induction false} MissingNone(path: seq<Certificate>, pool: seq<Certificate>)
    ensures Missing(path, pool) == 0 <==> forall c <- path :: c in pool
  {
    if path == [] {
    } else {
      MissingNone(path[1..], pool);
      assert path == [path[0]] + path[1..];
    }
  }

  lemma {:induction false} MissingShrinks(path: seq<Certificate>, pool: seq<Certificate>, more: seq<Certificate>,
                                          j: nat)
    requires j < |path| && path[j] !in pool && path[j] in more
    ensures Missing(path, pool + more) < Missing(path, pool)
  {
    MissingMonotone(path[1..], pool, more);
    if j == 0 {
    } else {
      MissingShrinks(path[1..], pool, more, j - 1);
    }
  }

  lemma {:induction false} MissingMonotone(path: seq<Certificate>, pool: seq<Certificate>, more: seq<Certificate>)
    ensures Missing(path, pool + more) <= Missing(path, pool)
  {
    if path == [] {
    } else {
      MissingMonotone(path[1..], pool, more);
    }
  }

  lemma {:induction false} FetchedIsResponse(responses: seq<Response>, c: Certificate)
    ensures c in FetchedCerts(responses) <==> Fetched(c) in responses
  {
    if responses == [] {
    } else {
      var init, last := responses[..|responses| - 1], responses[|responses| - 1];
      FetchedIsResponse(init, c);
      assert responses == init + [last];
    }
  }

  /** The lowest gap: a certificate of the path that is in the pool while its issuer
      is not. */
  lemma {:induction false} LowestGap(path: seq<Certificate>, pool: seq<Certificate>) returns (j: nat)
    requires path != [] && path[0] in pool && Missing(path, pool) > 0
    ensures j + 1 < |path| && path[j] in pool && path[j + 1] !in pool
  {
    if |path| == 1 {
      assert false;
    } else if path[1] in pool {
      j := LowestGap(path[1..], pool);
      j := j + 1;
    } else {
      j := 0;
    }
  }

  /** While something is missing, a round fetches and the gap gets smaller. */
  lemma {:induction false} RoundClosesGap(v: Verifier, universe: set<Certificate>, path: seq<Certificate>, st: State)
    requires Reassemblable(v, universe, path)
    requires (forall c <- st.pool :: c in universe) && path[0] in st.pool && TriedResolved(path, st)
    requires Missing(path, st.pool) > 0
    ensures var round := OneRound(v, path[0], st);
            && round.Continues?
            && (forall c <- round.state.pool :: c in universe)
            && path[0] in round.state.pool
            && TriedResolved(path, round.state)
            && Missing(path, round.state.pool) < Missing(path, st.pool)
  {
    MissingNone(path, st.pool);
    var j := LowestGap(path, st.pool);
    IssuerIsFetched(v, universe, path, st, j);
    var uris := Fresh(OrphanUris(v, st.pool, st.pool), st.tried);
    var log := st.log + [Batch(st.pool, uris)];
    assert log[|log| - 1] == Batch(st.pool, uris);
    MissingShrinks(path, st.pool, FetchedCerts(v.batchFetch(log)), j + 1);
    FetchedFromUniverse(v, universe, path, log);
    FetchKeepsResolved(v, universe, path, st, log);
  }

  /** The batch asks for the issuer that is missing, and the fetcher brings it. */
  lemma {:induction false} IssuerIsFetched(v: Verifier, universe: set<Certificate>, path: seq<Certificate>,
                                           st: State, j: nat)
    requires Reassemblable(v, universe, path)
    requires (forall c <- st.pool :: c in universe) && TriedResolved(path, st)
    requires j + 1 < |path| && path[j] in st.pool && path[j + 1] !in st.pool
    ensures var uris := Fresh(OrphanUris(v, st.pool, st.pool), st.tried);
            uris != [] && path[j + 1] in FetchedCerts(v.batchFetch(st.log + [Batch(st.pool, uris)]))
  {
    var orphans := OrphanUris(v, st.pool, st.pool);
    var uris := Fresh(orphans, st.tried);
    var u := path[j].caIssuers[0];
    OrphanUriIsJustified(v, st.pool, st.pool, u);
    FreshIsNew(orphans, st.tried);
    assert u in uris;
    var k :| 0 <= k < |uris| && uris[k] == u;
    var log := st.log + [Batch(st.pool, uris)];
    assert log[|log| - 1] == Batch(st.pool, uris);
    assert v.batchFetch(log)[k] == Fetched(path[j + 1]);
    FetchedIsResponse(v.batchFetch(log), path[j + 1]);
  }

  lemma FetchedFromUniverse(v: Verifier, universe: set<Certificate>, path: seq<Certificate>,
                            log: seq<Batch>)
    requires ResolvingFetcher(v, universe, path) && log != []
    ensures forall c <- FetchedCerts(v.batchFetch(log)) :: c in universe
  {
    forall c | c in FetchedCerts(v.batchFetch(log)) ensures c in universe {
      FetchedIsResponse(v.batchFetch(log), c);
    }
  }

  lemma FetchKeepsResolved(v: Verifier, universe: set<Certificate>, path: seq<Certificate>,
                           st: State, log: seq<Batch>)
    requires ResolvingFetcher(v, universe, path) && TriedResolved(path, st) && log != []
    ensures var uris, fetched := log[|log| - 1].uris, FetchedCerts(v.batchFetch(log));
            forall j, u :: 0 <= j < |path| - 1 && u in path[j].caIssuers && u in st.tried + Elements(uris) ==>
              path[j + 1] in st.pool + fetched
  {
    var uris, responses := log[|log| - 1].uris, v.batchFetch(log);
    forall j, u | 0 <= j < |path| - 1 && u in path[j].caIssuers && u in Elements(uris)
      ensures path[j + 1] in FetchedCerts(responses)
    {
      var k :| 0 <= k < |uris| && uris[k] == u;
      assert responses[k] == Fetched(path[j + 1]);
      FetchedIsResponse(responses, path[j + 1]);
    }
  }

  /** The builder's answer to a pool of the universe. */
  lemma {:induction false} IdealAnswer(v: Verifier, universe: set<Certificate>, path: seq<Certificate>,
                                       pool: seq<Certificate>)
    requires IdealBuilder(v, universe, path) && forall c <- pool :: c in universe
    ensures v.buildFirstValidPath(path[0], pool) == if Missing(path, pool) == 0 then Ok(path) else Err(NoPathFound)
  {
    MissingNone(path, pool);
  }

  /** The states that a run can be in when the gap is being closed. */
  ghost predicate Closing(universe: set<Certificate>, path: seq<Certificate>, st: State) {
    && path != []
    && (forall c <- st.pool :: c in universe)
    && path[0] in st.pool
    && TriedResolved(path, st)
  }

  /** Rounds that each make the gap smaller close it in as many rounds as it is wide,
      the attempt after the last round included. */
  lemma {:induction false} ShrinkingRoundsCloseGap(universe: set<Certificate>, path: seq<Certificate>,
                                                   turn: State -> Round, after: State -> Built,
                                                   st: State, rounds: nat)
    requires Closing(universe, path, st) && Missing(path, st.pool) <= rounds
    requires forall s :: Closing(universe, path, s) && Missing(path, s.pool) == 0 ==>
                           turn(s) == Finished(Ok(path), s) && after(s) == Ok(path)
    requires forall s :: Closing(universe, path, s) && Missing(path, s.pool) > 0 ==>
                           && turn(s).Continues? && Closing(universe, path, turn(s).state)
                           && Missing(path, turn(s).state.pool) < Missing(path, s.pool)
    ensures Iterate(turn, after, st, rounds).0 == Ok(path)
    decreases rounds
  {
    if Missing(path, st.pool) == 0 {
    } else {
      ShrinkingRoundsCloseGap(universe, path, turn, after, turn(st).state, rounds - 1);
    }
  }

  /** Progress: with pairwise distinct names, an ideal builder and a fetcher that
      resolves the URIs of the path, any supplied chain that starts with the leaf and
      lacks at most five certificates of the path is completed. */
  lemma {:induction false} GapUpToDepthIsClosed(v: Verifier, universe: set<Certificate>, path: seq<Certificate>,
                                                supplied: seq<Certificate>)
    requires Reassemblable(v, universe, path)
    requires supplied != [] && supplied[0] == path[0] && (forall c <- supplied :: c in universe)
    requires Missing(path, supplied) <= 5
    ensures BuildRun(v, supplied).0 == Ok(path)
  {
    var leaf := path[0];
    forall s | Closing(universe, path, s) && Missing(path, s.pool) == 0
      ensures Turn(v, leaf)(s) == Finished(Ok(path), s) && AfterLoop(v, leaf)(s) == Ok(path)
    {
      IdealAnswer(v, universe, path, s.pool);
    }
    forall s | Closing(universe, path, s) && Missing(path, s.pool) > 0
      ensures && Turn(v, leaf)(s).Continues? && Closing(universe, path, Turn(v, leaf)(s).state)
              && Missing(path, Turn(v, leaf)(s).state.pool) < Missing(path, s.pool)
    {
      RoundClosesGap(v, universe, path, s);
    }
    ShrinkingRoundsCloseGap(universe, path, Turn(v, leaf), AfterLoop(v, leaf), InitialState(supplied), AIA_MAX_DEPTH);
  }

  // ----- the limit is sharp -----

  ghost predicate NoRepeatedCerts(path: seq<Certificate>) {
    forall i, j :: 0 <= i < j < |path| ==> path[i] != path[j]
  }

  /** The pool holds exactly the first `r + 1` certificates of the path. */
  ghost predicate Climbed(path: seq<Certificate>, st: State, r: nat) {
    && r < |path|
    && (forall c <- st.pool :: c in path[..r + 1])
    && (forall c <- path[..r + 1] :: c in st.pool)
    && TriedResolved(path, st)
  }

  lemma {:induction false} ClimbedIsClosing(universe: set<Certificate>, path: seq<Certificate>, st: State, r: nat)
    requires Climbed(path, st, r) && NoRepeatedCerts(path) && forall c <- path :: c in universe
    ensures Closing(universe, path, st)
    ensures Missing(path, st.pool) == 0 <==> r + 1 == |path|
  {
    MissingNone(path, st.pool);
    assert path[..r + 1][0] == path[0];
    if r + 1 < |path| {
      assert path[r + 1] in path && path[r + 1] !in path[..r + 1];
    } else {
      assert path[..r + 1] == path;
    }
  }

  lemma IssuerOfClimbed(v: Verifier, path: seq<Certificate>, st: State, r: nat, i: nat)
    requires Climbed(path, st, r) && Linked(v, path) && i < r
    ensures exists d :: d in st.pool && v.prepare(d.subject) == v.prepare(path[i].issuer)
  {
    assert path[i + 1] == path[..r + 1][i + 1];
    assert v.NamesMatch(path[i].issuer, path[i + 1].subject);
  }

  /** Below the top, every certificate has its issuer in the pool. */
  lemma OnlyTopIsOrphan(v: Verifier, path: seq<Certificate>, st: State, r: nat, c: Certificate)
    requires Climbed(path, st, r) && Linked(v, path)
    requires c in st.pool && IssuerMissing(v, c, st.pool)
    ensures c == path[r]
  {
    var i :| 0 <= i <= r && path[..r + 1][i] == c;
    if i < r {
      IssuerOfClimbed(v, path, st, r, i);
    }
  }

  /** Only the topmost certificate lacks its issuer, so only that issuer is fetched. */
  lemma FetchBringsNext(v: Verifier, universe: set<Certificate>, path: seq<Certificate>,
                        st: State, r: nat, c: Certificate)
    requires Reassemblable(v, universe, path) && NoRepeatedCerts(path)
    requires Climbed(path, st, r) && r + 1 < |path|
    requires FetchRound(v, st).Continues?
    requires c in FetchRound(v, st).state.pool
    ensures c in st.pool || c == path[r + 1]
  {
    var uris := Fresh(OrphanUris(v, st.pool, st.pool), st.tried);
    var log := st.log + [Batch(st.pool, uris)];
    var responses := v.batchFetch(log);
    assert log[|log| - 1] == Batch(st.pool, uris);
    if c !in st.pool {
      FetchedIsResponse(responses, c);
      var k :| 0 <= k < |responses| && responses[k] == Fetched(c);
      FreshUrisAreJustified(v, st.pool, st.tried);
      assert uris[k] in uris;
      var owner :| owner in st.pool && IssuerMissing(v, owner, st.pool) && uris[k] in owner.caIssuers;
      OnlyTopIsOrphan(v, path, st, r, owner);
    }
  }

  lemma NextArrives(v: Verifier, universe: set<Certificate>, path: seq<Certificate>, st: State,
                    r: nat)
    requires Reassemblable(v, universe, path) && NoRepeatedCerts(path)
    requires Climbed(path, st, r) && r + 1 < |path|
    ensures var round := FetchRound(v, st);
            && round.Continues? && TriedResolved(path, round.state)
            && OneRound(v, path[0], st) == round
            && path[r + 1] in round.state.pool
  {
    ClimbedIsClosing(universe, path, st, r);
    RoundClosesGap(v, universe, path, st);
    IdealAnswer(v, universe, path, st.pool);
    RoundCases(v, path[0], st);
    var next := FetchRound(v, st).state;
    if path[r + 1] !in next.pool {
      forall c | c in path ensures c in st.pool <==> c in next.pool {
        PoolKept(v, st);
        if c in next.pool {
          FetchBringsNext(v, universe, path, st, r, c);
        }
      }
      SamePoolSameMissing(path, st.pool, next.pool);
    }
  }

  lemma ClimbOneLevel(v: Verifier, universe: set<Certificate>, path: seq<Certificate>, st: State,
                      r: nat)
    requires Reassemblable(v, universe, path) && NoRepeatedCerts(path)
    requires Climbed(path, st, r) && r + 1 < |path|
    ensures var round := OneRound(v, path[0], st); round.Continues? && Climbed(path, round.state, r + 1)
  {
    NextArrives(v, universe, path, st, r);
    PoolKept(v, st);
    var next := FetchRound(v, st).state;
    forall c | c in next.pool ensures c in st.pool || c == path[r + 1] {
      FetchBringsNext(v, universe, path, st, r, c);
    }
    OneMoreClimbed(path, st, next, r);
  }

  lemma OneMoreClimbed(path: seq<Certificate>, st: State, next: State, r: nat)
    requires Climbed(path, st, r) && r + 1 < |path| && TriedResolved(path, next)
    requires st.pool <= next.pool && path[r + 1] in next.pool
    requires forall c <- next.pool :: c in st.pool || c == path[r + 1]
    ensures Climbed(path, next, r + 1)
  {
    var more := next.pool[|st.pool|..];
    assert next.pool == st.pool + more;
    assert path[..r + 1 + 1] == path[..r + 1] + [path[r + 1]];
  }

  lemma PoolKept(v: Verifier, st: State)
    ensures st.pool <= FetchRound(v, st).state.pool
  {
  }

  lemma {:induction false} SamePoolSameMissing(path: seq<Certificate>, pool: seq<Certificate>, pool': seq<Certificate>)
    requires forall c :: c in path ==> (c in pool <==> c in pool')
    ensures Missing(path, pool) == Missing(path, pool')
  {
    if path == [] {
    } else {
      SamePoolSameMissing(path[1..], pool, pool');
    }
  }

  /** Rounds that each climb one level end at the top, or run out before it. */
  lemma {:induction false} ClimbingRounds(path: seq<Certificate>, turn: State -> Round, after: State -> Built,
                                          st: State, r: nat, rounds: nat)
    requires Climbed(path, st, r)
    requires forall s, i: nat :: Climbed(path, s, i) && i + 1 < |path| ==>
               && turn(s).Continues? && Climbed(path, turn(s).state, i + 1)
               && |turn(s).state.log| == |s.log| + 1
               && after(s) == Err(AiaDepthExceeded)
    requires forall s, i: nat :: Climbed(path, s, i) && i + 1 == |path| ==>
               turn(s) == Finished(Ok(path), s) && after(s) == Ok(path)
    ensures var (result, last) := Iterate(turn, after, st, rounds);
            if |path| - 1 - r <= rounds
            then result == Ok(path) && |last.log| == |st.log| + (|path| - 1 - r)
            else result == Err(AiaDepthExceeded) && |last.log| == |st.log| + rounds
    decreases rounds
  {
    if rounds == 0 || r + 1 >= |path| {
    } else {
      ClimbingRounds(path, turn, after, turn(st).state, r + 1, rounds - 1);
    }
  }

  lemma FetchLogsOneBatch(v: Verifier, leaf: Certificate, st: State)
    requires OneRound(v, leaf, st).Continues?
    ensures |OneRound(v, leaf, st).state.log| == |st.log| + 1
  {
    RoundCases(v, leaf, st);
  }

  /** From a lone leaf the chain is completed exactly when at most five certificates are
      above it, with one batch for each.  With five above it all five rounds fetch, so
      it is the attempt after the loop that completes it.  A longer chain ends at the
      depth limit after five batches. */
  lemma LoneLeafExactly(v: Verifier, universe: set<Certificate>, path: seq<Certificate>)
    requires Reassemblable(v, universe, path) && NoRepeatedCerts(path)
    ensures var (result, last) := BuildRun(v, [path[0]]);
            if |path| - 1 <= 5
            then result == Ok(path) && |last.log| == |path| - 1
            else result == Err(AiaDepthExceeded) && |last.log| == 5
  {
    var leaf, start := path[0], InitialState([path[0]]);
    assert path[..1] == [leaf];
    forall s, i: nat | Climbed(path, s, i) && i + 1 < |path|
      ensures && Turn(v, leaf)(s).Continues? && Climbed(path, Turn(v, leaf)(s).state, i + 1)
              && |Turn(v, leaf)(s).state.log| == |s.log| + 1
              && AfterLoop(v, leaf)(s) == Err(AiaDepthExceeded)
    {
      ClimbOneLevel(v, universe, path, s, i);
      FetchLogsOneBatch(v, leaf, s);
      ClimbedIsClosing(universe, path, s, i);
      IdealAnswer(v, universe, path, s.pool);
    }
    forall s, i: nat | Climbed(path, s, i) && i + 1 == |path|
      ensures Turn(v, leaf)(s) == Finished(Ok(path), s) && AfterLoop(v, leaf)(s) == Ok(path)
    {
      ClimbedIsClosing(universe, path, s, i);
      IdealAnswer(v, universe, path, s.pool);
    }
    ClimbingRounds(path, Turn(v, leaf), AfterLoop(v, leaf), start, 0, AIA_MAX_DEPTH);
  }

  // ----- such settings exist, for every length -----

  /** Certificate `i` of a chain: named `i`, issued by `i + 1`, with one URI. */
  function Numbered(i: nat): Certificate {
    Certificate([i], [i + 1], [i], [seq(i, _ => 'a')], false, [])
  }

  function NumberedPath(n: nat): (path: seq<Certificate>)
    ensures |path| == n && forall i :: 0 <= i < n ==> path[i] == Numbered(i)
  {
    seq(n, i requires 0 <= i < n => Numbered(i))
  }

  /** The answer to a URI: the certificate one up from the one that carries it. */
  function Answer(path: seq<Certificate>, u: Uri): Response {
    if |u| + 1 < |path| then Fetched(path[|u| + 1]) else NotACertificate
  }

  function Setting(path: seq<Certificate>): Verifier {
    Verifier(
      [],
      (name: Name) => name,
      (chain: seq<Certificate>) => Err(NoTrustedPath),
      (leaf: Certificate, pool: seq<Certificate>) =>
        if forall c :: c in path ==> c in pool then Ok(path) else Err(NoPathFound),
      (leaf: Certificate, pool: seq<Certificate>) => Err(NoPathFound),
      (log: seq<Batch>) =>
        if log == [] then [] else
          var uris := log[|log| - 1].uris;
          seq(|uris|, k requires 0 <= k < |uris| => Answer(path, uris[k])))
  }

  function AllOf(path: seq<Certificate>): set<Certificate> {
    set c | c in path
  }

  lemma NumberedNames(n: nat)
    ensures DistinctNames(Setting(NumberedPath(n)), AllOf(NumberedPath(n)))
  {
    var path := NumberedPath(n);
    forall c, d | c in AllOf(path) && d in AllOf(path) && c.subject == d.subject ensures c == d {
      var i :| 0 <= i < n && path[i] == c;
      var j :| 0 <= j < n && path[j] == d;
      assert c.subject[0] == i && d.subject[0] == j;
    }
  }

  lemma NumberedLinks(n: nat)
    ensures var path := NumberedPath(n);
            Linked(Setting(path), path) && AnchorsElsewhere(Setting(path), path)
  {
  }

  lemma AnswersOf(n: nat, u: Uri)
    ensures var path := NumberedPath(n);
            && (Answer(path, u).Fetched? ==> Answer(path, u).cert in AllOf(path))
            && (forall j :: 0 <= j < n - 1 && u in path[j].caIssuers ==> Answer(path, u) == Fetched(path[j + 1]))
  {
  }

  lemma NumberedFetcher(n: nat)
    ensures ResolvingFetcher(Setting(NumberedPath(n)), AllOf(NumberedPath(n)), NumberedPath(n))
  {
    var path := NumberedPath(n);
    forall log: seq<Batch>, k | log != [] && 0 <= k < |log[|log| - 1].uris|
      ensures Setting(path).batchFetch(log)[k] == Answer(path, log[|log| - 1].uris[k])
    {
      AnswersOf(n, log[|log| - 1].uris[k]);
    }
    forall u: Uri {
      AnswersOf(n, u);
    }
  }

  lemma NumberedBuilder(n: nat)
    requires n >= 1
    ensures IdealBuilder(Setting(NumberedPath(n)), AllOf(NumberedPath(n)), NumberedPath(n))
  {
  }

  lemma NumberedDistinct(n: nat)
    ensures NoRepeatedCerts(NumberedPath(n))
  {
    forall i, j | 0 <= i < j < n ensures Numbered(i) != Numbered(j) {
      assert Numbered(i).subject[0] != Numbered(j).subject[0];
    }
  }

  /** There is a setting for the results above with a path of every length, so both the
      completed runs and the runs that end at the depth limit do occur. */
  lemma SettingOfEveryLength(n: nat)
    requires n >= 1
    ensures var path := NumberedPath(n);
            Reassemblable(Setting(path), AllOf(path), path) && NoRepeatedCerts(path)
  {
    NumberedNames(n);
    NumberedLinks(n);
    NumberedFetcher(n);
    NumberedBuilder(n);
    NumberedDistinct(n);
  }
}
