/** Outcomes of the Certificate Transparency operations (pkix-ct/src/lib.rs). */
module CtErrors {
  import opened Outcomes

  datatype Error =
    | ParseError
    | UnsupportedVersion(version: int)
    | TruncatedOrTrailing
    | CertDerTooLong
    | MerkleProofInvalid
    | MerkleProofMalformed

  type CtResult<+T> = Result<T, Error>
}
