/** The values that chain verification (pkix-chain/src/lib.rs) works on, and the
    components it calls, which are parameters of the model. */
module ChainTypes {
  import opened Outcomes

  type Name = seq<int>
  type Uri = string

  /** What chain verification reads of a certificate.  `caIssuers` are its HTTP
      caIssuers URIs in order; `content` is everything else. */
  datatype Certificate = Certificate(
    subject: Name,
    issuer: Name,
    serial: seq<int>,
    caIssuers: seq<Uri>,
    ocspNoCheck: bool,
    content: seq<int>)

  datatype TrustAnchor = TrustAnchor(subject: Name, key: seq<int>)

  datatype AiaError = FetchingDisabled | MalformedCertificate | OtherAiaError(code: int)

  datatype PathError =
    | ChainBroken(index: nat)
    | NoTrustedPath
    | SignatureInvalid(index: nat)
    | OtherPathError(code: int)

  datatype BuildError = NoPathFound | DepthExceeded | BudgetExceeded | NoValidPath

  datatype Error =
    | Path(path: PathError)
    | Revocation(code: int)
    | OcspDelegation
    | Aia(aia: AiaError)
    | PathBuild(build: BuildError)
    | AiaDepthExceeded

  /** One slot of a batch response after decoding the fetched octets. */
  datatype Response = Fetched(cert: Certificate) | NotACertificate | Failed(error: AiaError)

  /** A batch of URIs and the pool it was computed from. */
  datatype Batch = Batch(pool: seq<Certificate>, uris: seq<Uri>)

  /** The components of `Verifier`: the trust anchors, RFC 4518 name preparation,
      path validation and path building under the configured policy and signature
      backend, and the fetcher.  A fetcher may answer differently over time, so its
      answer depends on every batch so far, the last being the one to answer. */
  datatype Verifier = Verifier(
    anchors: seq<TrustAnchor>,
    prepare: Name -> Name,
    validatePath: seq<Certificate> -> Result<nat, PathError>,
    buildFirstValidPath: (Certificate, seq<Certificate>) -> Result<seq<Certificate>, BuildError>,
    buildPath: (Certificate, seq<Certificate>) -> Result<seq<Certificate>, BuildError>,
    batchFetch: seq<Batch> -> seq<Response>)
  {
    predicate NamesMatch(a: Name, b: Name) {
      prepare(a) == prepare(b)
    }
  }

  /** The contract of `validate_path`: it accepts no empty chain, and reports the
      index of one of the anchors. */
  ghost predicate ValidatorContract(v: Verifier) {
    forall chain :: v.validatePath(chain).Ok? ==> chain != [] && v.validatePath(chain).value < |v.anchors|
  }

  /** The contract of the path builder: a chain it returns starts with the target and
      draws the rest from the pool. */
  ghost predicate BuilderContract(v: Verifier) {
    && (forall leaf, pool :: v.buildFirstValidPath(leaf, pool).Ok? ==>
          DrawnFrom(leaf, pool, v.buildFirstValidPath(leaf, pool).value))
    && (forall leaf, pool :: v.buildPath(leaf, pool).Ok? ==>
          DrawnFrom(leaf, pool, v.buildPath(leaf, pool).value))
  }

  ghost predicate DrawnFrom(leaf: Certificate, pool: seq<Certificate>, chain: seq<Certificate>) {
    chain != [] && chain[0] == leaf && forall c <- chain[1..] :: c in pool
  }

  /** A revocation checker; None means not revoked. */
  datatype Checker = Checker(
    againstIssuer: (Certificate, Certificate) -> Option<int>,
    againstAnchor: (Certificate, TrustAnchor) -> Option<int>)

  /** One revocation check. */
  datatype Check = ByIssuer(cert: Certificate, issuer: Certificate) | ByAnchor(cert: Certificate, anchor: TrustAnchor)
}
