/** What the batches of a run of chain reassembly contain, and how its rounds and
    the run itself end, in terms of the names, the builder and the fetcher alone. */
module AiaBatches {
  import opened AiaChain
  import opened AiaGuarantees
  import opened ChainTypes
  import opened Outcomes

  /** What every turn keeps holds at the end of the run. */
  lemma {:induction false} KeptByRun(keeps: State -> bool, turn: State -> Round, after: State -> Built,
                                     st: State, rounds: nat)
    requires keeps(st)
    requires forall s: State :: keeps(s) ==> keeps(turn(s).state)
    ensures keeps(Iterate(turn, after, st, rounds).1)
    decreases rounds
  {
    if rounds == 0 || turn(st).Finished? {
    } else {
      KeptByRun(keeps, turn, after, turn(st).state, rounds - 1);
    }
  }

  // ----- the URIs of a batch -----

  /** Every batch holds the untried URIs of its pool's certificates without an issuer. */
  ghost predicate BatchesExact(v: Verifier, log: seq<Batch>) {
    forall i :: 0 <= i < |log| ==>
      log[i].uris == Fresh(OrphanUris(v, log[i].pool, log[i].pool), Elements(AllFetched(log[..i])))
  }

  ghost predicate LogIsExact(v: Verifier, st: State) {
    BatchesExact(v, st.log) && st.tried == Elements(AllFetched(st.log))
  }

  lemma {:induction false} PushExact(v: Verifier, log: seq<Batch>, batch: Batch)
    requires BatchesExact(v, log)
    requires batch.uris == Fresh(OrphanUris(v, batch.pool, batch.pool), Elements(AllFetched(log)))
    ensures BatchesExact(v, log + [batch])
  {
    var all := log + [batch];
    assert all[..|log|] == log;
    forall i | 0 <= i < |log| ensures all[..i] == log[..i] {
    }
  }

  lemma FetchKeepsExact(v: Verifier, st: State)
    requires LogIsExact(v, st)
    ensures LogIsExact(v, FetchRound(v, st).state)
  {
    var uris := Fresh(OrphanUris(v, st.pool, st.pool), st.tried);
    if uris != [] {
      PushExact(v, st.log, Batch(st.pool, uris));
    }
  }

  lemma RunIsExact(v: Verifier, supplied: seq<Certificate>)
    ensures BatchesExact(v, BuildRun(v, supplied).1.log)
  {
    if supplied != [] {
      var leaf, keeps := supplied[0], (s: State) => LogIsExact(v, s);
      forall s: State | keeps(s) ensures keeps(Turn(v, leaf)(s).state) {
        RoundCases(v, leaf, s);
        FetchKeepsExact(v, s);
      }
      KeptByRun(keeps, Turn(v, leaf), AfterLoop(v, leaf), InitialState(supplied), AIA_MAX_DEPTH);
    }
  }

  lemma {:induction false} InAllFetched(log: seq<Batch>, u: Uri)
    ensures u in AllFetched(log) <==> exists j :: 0 <= j < |log| && u in log[j].uris
  {
    if log == [] {
    } else {
      InAllFetched(log[..|log| - 1], u);
    }
  }

  /** In every run, with any fetcher, builder and validator, a batch asks for a URI exactly
      when no earlier batch did and some certificate of the batch's pool carries it whose
      issuer's name is that of no certificate of the pool and of no anchor. */
  lemma BatchExactly(v: Verifier, supplied: seq<Certificate>, i: nat, u: Uri)
    requires i < |BuildRun(v, supplied).1.log|
    ensures var log := BuildRun(v, supplied).1.log;
            u in log[i].uris
            <==> && (forall j :: 0 <= j < i ==> u !in log[j].uris)
                 && (exists c :: c in log[i].pool && u in c.caIssuers
                       && (forall d <- log[i].pool :: v.prepare(d.subject) != v.prepare(c.issuer))
                       && (forall a <- v.anchors :: v.prepare(a.subject) != v.prepare(c.issuer)))
  {
    var log := BuildRun(v, supplied).1.log;
    RunIsExact(v, supplied);
    AskedExactly(v, log, i, u);
  }

  lemma AskedExactly(v: Verifier, log: seq<Batch>, i: nat, u: Uri)
    requires BatchesExact(v, log) && i < |log|
    ensures u in log[i].uris
            <==> && (forall j :: 0 <= j < i ==> u !in log[j].uris)
                 && exists c :: c in log[i].pool && IssuerMissing(v, c, log[i].pool) && u in c.caIssuers
  {
    FreshIsNew(OrphanUris(v, log[i].pool, log[i].pool), Elements(AllFetched(log[..i])));
    OrphanUriIsJustified(v, log[i].pool, log[i].pool, u);
    InAllFetched(log[..i], u);
    EarlierBatches(log, i, u);
  }

  lemma EarlierBatches(log: seq<Batch>, i: nat, u: Uri)
    requires i < |log|
    ensures (exists j :: 0 <= j < |log[..i]| && u in log[..i][j].uris) <==> exists j :: 0 <= j < i && u in log[j].uris
  {
    if j :| 0 <= j < i && u in log[j].uris {
      assert log[..i][j] == log[j];
    }
  }

  // ----- the order of a batch -----

  /** One certificate contributes its URIs when its issuer is missing, else nothing. */
  lemma {:induction false} UrisOfOne(v: Verifier, cert: Certificate, pool: seq<Certificate>)
    ensures OrphanUris(v, [cert], pool)
            == if && (forall d <- pool :: v.prepare(d.subject) != v.prepare(cert.issuer))
                  && (forall a <- v.anchors :: v.prepare(a.subject) != v.prepare(cert.issuer))
               then cert.caIssuers else []
  {
    ResolvableOrMissing(v, cert, pool);
    assert [cert][..0] == [];
  }

  /** The certificates contribute in the order of the pool. */
  lemma {:induction false} UrisInOrder(v: Verifier, a: seq<Certificate>, b: seq<Certificate>, pool: seq<Certificate>)
    ensures OrphanUris(v, a + b, pool) == OrphanUris(v, a, pool) + OrphanUris(v, b, pool)
    decreases b
  {
    if b == [] {
      assert a + b == a;
    } else {
      var init, last := b[..|b| - 1], b[|b| - 1];
      UrisInOrder(v, a, init, pool);
      assert (a + b)[..|a + b| - 1] == a + init && (a + b)[|a + b| - 1] == last;
    }
  }

  /** `a` occurs before any `b`. */
  ghost predicate OccursFirst(uris: seq<Uri>, a: Uri, b: Uri) {
    exists i :: 0 <= i < |uris| && uris[i] == a && b !in uris[..i]
  }

  /** Of two URIs of a batch, the one that is asked for first occurs first. */
  lemma {:induction false} FirstAppearance(uris: seq<Uri>, tried: set<Uri>, k: nat, l: nat)
    requires k < l < |Fresh(uris, tried)|
    ensures OccursFirst(uris, Fresh(uris, tried)[k], Fresh(uris, tried)[l])
  {
    if uris == [] {
    } else {
      var n := |uris| - 1;
      var before := Fresh(uris[..n], tried);
      FreshIsNew(uris[..n], tried);
      if l < |before| {
        FirstAppearance(uris[..n], tried, k, l);
      } else {
        assert before[k] in before;
      }
    }
  }

  /** The order of every batch of a run. */
  lemma {:induction false} BatchOrder(v: Verifier, supplied: seq<Certificate>, i: nat, k: nat, l: nat)
    requires i < |BuildRun(v, supplied).1.log| && k < l < |BuildRun(v, supplied).1.log[i].uris|
    ensures var batch := BuildRun(v, supplied).1.log[i];
            OccursFirst(OrphanUris(v, batch.pool, batch.pool), batch.uris[k], batch.uris[l])
  {
    var log := BuildRun(v, supplied).1.log;
    RunIsExact(v, supplied);
    FirstAppearance(OrphanUris(v, log[i].pool, log[i].pool), Elements(AllFetched(log[..i])), k, l);
  }

  // ----- the responses to a batch -----

  /** Responses count as far as both lists reach. */
  lemma PairedExactly(uris: seq<Uri>, responses: seq<Response>)
    ensures |Paired(uris, responses)| <= |uris| && |Paired(uris, responses)| <= |responses|
    ensures |Paired(uris, responses)| == |uris| || |Paired(uris, responses)| == |responses|
    ensures forall k :: 0 <= k < |Paired(uris, responses)| ==> Paired(uris, responses)[k] == responses[k]
  {
  }

  /** A response adds its certificate, when it has one. */
  lemma FetchedByOne(cert: Certificate, e: AiaError)
    ensures FetchedCerts([Fetched(cert)]) == [cert]
    ensures FetchedCerts([NotACertificate]) == [] && FetchedCerts([Failed(e)]) == []
  {
    assert [Fetched(cert)][..0] == [];
  }

  /** The certificates are added in the order of the responses. */
  lemma {:induction false} FetchedInOrder(a: seq<Response>, b: seq<Response>)
    ensures FetchedCerts(a + b) == FetchedCerts(a) + FetchedCerts(b)
    decreases b
  {
    if b == [] {
      assert a + b == a;
    } else {
      FetchedInOrder(a, b[..|b| - 1]);
      assert (a + b)[..|a + b| - 1] == a + b[..|b| - 1];
    }
  }

  function FailureOf(response: Response): AiaError
    requires !response.Fetched?
  {
    if response.Failed? then response.error else MalformedCertificate
  }

  /** The error that is kept is that of the last failure. */
  lemma {:induction false} LastErrorExactly(before: Option<AiaError>, responses: seq<Response>, k: nat)
    requires k < |responses| && !responses[k].Fetched?
    requires forall m :: k < m < |responses| ==> responses[m].Fetched?
    ensures LastError(before, responses) == Some(FailureOf(responses[k]))
    decreases |responses|
  {
    if k + 1 >= |responses| {
    } else {
      LastErrorExactly(before, responses[..|responses| - 1], k);
    }
  }

  /** Without a failure the error of the batches before is kept. */
  lemma {:induction false} LastErrorKept(before: Option<AiaError>, responses: seq<Response>)
    requires forall r <- responses :: r.Fetched?
    ensures LastError(before, responses) == before
  {
    if responses == [] {
    } else {
      LastErrorKept(before, responses[..|responses| - 1]);
    }
  }

  // ----- how a round ends -----

  /** The answers of the builder that end the run at once. */
  lemma RoundWithoutFetching(v: Verifier, leaf: Certificate, st: State)
    ensures match v.buildFirstValidPath(leaf, st.pool)
            case Ok(chain) => OneRound(v, leaf, st) == Finished(Ok(chain), st)
            case Err(NoValidPath) =>
              (match v.buildPath(leaf, st.pool)
               case Ok(chain) => OneRound(v, leaf, st) == Finished(Ok(chain), st)
               case Err(e) => OneRound(v, leaf, st) == Finished(Err(PathBuild(e)), st))
            case Err(DepthExceeded) => OneRound(v, leaf, st) == Finished(Err(PathBuild(DepthExceeded)), st)
            case Err(BudgetExceeded) => OneRound(v, leaf, st) == Finished(Err(PathBuild(BudgetExceeded)), st)
            case Err(NoPathFound) => true
  {
  }

  lemma SomeUri(uris: seq<Uri>)
    ensures uris != [] ==> exists u :: u in uris
  {
    if uris != [] {
      assert uris[0] in uris;
    }
  }

  /** Without a path and with no new URI to ask for, the last fetching error is reported,
      or that there is no path. */
  lemma RoundWithoutUris(v: Verifier, leaf: Certificate, st: State)
    requires v.buildFirstValidPath(leaf, st.pool) == Err(NoPathFound)
    requires forall u: Uri :: Justified(v, st.pool, u) ==> u in st.tried
    ensures OneRound(v, leaf, st)
            == Finished(if st.lastError.Some? then Err(Aia(st.lastError.value)) else Err(PathBuild(NoPathFound)), st)
  {
    var uris := Fresh(OrphanUris(v, st.pool, st.pool), st.tried);
    FreshUrisAreJustified(v, st.pool, st.tried);
    SomeUri(uris);
  }

  /** Without a path and with a new URI, one batch is logged and its responses are
      absorbed; when they bring no certificate the run ends with the error of the last. */
  lemma {:induction false} RoundWithUris(v: Verifier, leaf: Certificate, st: State, u: Uri)
    requires v.buildFirstValidPath(leaf, st.pool) == Err(NoPathFound)
    requires Justified(v, st.pool, u) && u !in st.tried
    ensures var round := OneRound(v, leaf, st);
            var uris := Fresh(OrphanUris(v, st.pool, st.pool), st.tried);
            var responses := Paired(uris, v.batchFetch(round.state.log));
            && u in uris
            && round.state.log == st.log + [Batch(st.pool, uris)]
            && round.state.pool == st.pool + FetchedCerts(responses)
            && (round.Continues? <==> exists r :: r in responses && r.Fetched?)
            && (round.Finished? && responses != [] ==>
                  round.result == Err(Aia(FailureOf(responses[|responses| - 1]))))
            && (round.Finished? && responses == [] ==>
                  round.result == Err(Aia(if st.lastError.Some? then st.lastError.value else FetchingDisabled)))
  {
    FreshIsNew(OrphanUris(v, st.pool, st.pool), st.tried);
    OrphanUriIsJustified(v, st.pool, st.pool, u);
    var uris := Fresh(OrphanUris(v, st.pool, st.pool), st.tried);
    var responses := Paired(uris, v.batchFetch(st.log + [Batch(st.pool, uris)]));
    AnyFetched(responses);
    if responses != [] && !responses[|responses| - 1].Fetched? {
      LastErrorExactly(st.lastError, responses, |responses| - 1);
    }
  }

  lemma {:induction false} AnyFetched(responses: seq<Response>)
    ensures FetchedCerts(responses) != [] <==> exists r :: r in responses && r.Fetched?
  {
    if FetchedCerts(responses) != [] {
      var c := FetchedCerts(responses)[0];
      FetchedIsResponse(responses, c);
      assert Fetched(c) in responses;
    }
    if r :| r in responses && r.Fetched? {
      FetchedIsResponse(responses, r.cert);
      assert r == Fetched(r.cert);
    }
  }

  // ----- how a run ends -----

  /** The outcome of a run of at most `rounds` rounds, from what the builder says of the
      final pool. */
  ghost predicate EndsAsBuilt(v: Verifier, leaf: Certificate, rounds: nat, result: Built, last: State) {
    match v.buildFirstValidPath(leaf, last.pool)
    case Ok(chain) => result == Ok(chain)
    case Err(NoValidPath) =>
      (match v.buildPath(leaf, last.pool)
       case Ok(chain) => result == Ok(chain)
       case Err(e) => result == Err(PathBuild(e)))
    case Err(NoPathFound) =>
      && result.Err?
      && (result.error == AiaDepthExceeded || result.error.Aia? || result.error == PathBuild(NoPathFound))
      && (result.error == AiaDepthExceeded <==> UsedUp(last, rounds))
    case Err(e) => result == Err(if |last.log| == rounds then AiaDepthExceeded else PathBuild(e))
  }

  /** Every round fetched, and the last one too made the pool grow. */
  ghost predicate UsedUp(st: State, rounds: nat) {
    |st.log| == rounds && (st.log == [] || st.log[|st.log| - 1].pool < st.pool)
  }

  ghost predicate Grown(st: State) {
    st.log == [] || st.log[|st.log| - 1].pool < st.pool
  }

  lemma FetchEndsAsBuilt(v: Verifier, leaf: Certificate, st: State, rounds: nat)
    requires FetchRound(v, st).Finished? && |st.log| < rounds
    requires v.buildFirstValidPath(leaf, st.pool) == Err(NoPathFound)
    ensures EndsAsBuilt(v, leaf, rounds, FetchRound(v, st).result, FetchRound(v, st).state)
  {
    var last := FetchRound(v, st).state;
    assert last.pool == st.pool;
  }

  lemma RoundEndsAsBuilt(v: Verifier, leaf: Certificate, st: State, rounds: nat)
    requires OneRound(v, leaf, st).Finished? && |st.log| < rounds
    ensures EndsAsBuilt(v, leaf, rounds, OneRound(v, leaf, st).result, OneRound(v, leaf, st).state)
  {
    RoundCases(v, leaf, st);
    if v.buildFirstValidPath(leaf, st.pool) == Err(NoPathFound) {
      FetchEndsAsBuilt(v, leaf, st, rounds);
    } else {
      RoundWithoutFetching(v, leaf, st);
    }
  }

  /** Every run: an empty chain has no path and nothing is fetched; otherwise the result
      is what the builder says of the pool at the end; the depth error comes after five
      batches that each brought a certificate, and stands for whatever the builder then
      says but a path or that every path is invalid. */
  lemma RunEndsAsBuilt(v: Verifier, supplied: seq<Certificate>)
    ensures supplied == [] ==>
              BuildRun(v, supplied).0 == Err(PathBuild(NoPathFound)) && BuildRun(v, supplied).1.log == []
    ensures supplied != [] ==>
              EndsAsBuilt(v, supplied[0], 5, BuildRun(v, supplied).0, BuildRun(v, supplied).1)
  {
    if supplied != [] {
      var leaf := supplied[0];
      var ends := (result: Built, last: State, n: nat) => EndsAsBuilt(v, leaf, n, result, last);
      forall s: State | Grown(s) && Turn(v, leaf)(s).Continues?
        ensures Grown(Turn(v, leaf)(s).state) && |Turn(v, leaf)(s).state.log| == |s.log| + 1
      {
      }
      forall s: State, n: nat | Grown(s) && Turn(v, leaf)(s).Finished? && |s.log| < n
        ensures ends(Turn(v, leaf)(s).result, Turn(v, leaf)(s).state, n)
      {
        RoundEndsAsBuilt(v, leaf, s, n);
      }
      RunsEndWell(Grown, ends, Turn(v, leaf), AfterLoop(v, leaf), InitialState(supplied), AIA_MAX_DEPTH);
    }
  }
}
