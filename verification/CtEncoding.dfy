/** The octet strings that a Certificate Transparency log signs and hashes
    (RFC 6962, sections 3.2, 3.4 and 3.5): the layouts, the builders of
    pkix-ct/src/verify.rs, and the independent reader of the leaf format in
    pkix-difftest/python/fetch-ct.py. */
module CtEncoding {
  import opened Bytes
  import opened CtErrors
  import opened MerkleTree
  import opened Outcomes

  const MAX_U16 := 0xFFFF
  const MAX_U24 := 0xFF_FFFF

  const SCT_VERSION_V1: byte := 0
  const SIG_TYPE_CERTIFICATE_TIMESTAMP: byte := 0
  const SIG_TYPE_TREE_HASH: byte := 1
  const MERKLE_LEAF_TYPE_TIMESTAMPED_ENTRY: byte := 0
  const ENTRY_TYPE_X509: u16 := 0
  const ENTRY_TYPE_PRECERT: u16 := 1

  datatype SignedCertificateTimestamp = SignedCertificateTimestamp(
    version: byte,
    logId: Digest,
    timestampMs: u64,
    extensions: seq<byte>,
    hashAlg: byte,
    sigAlg: byte,
    signature: seq<byte>)

  datatype SignedTreeHead = SignedTreeHead(treeSize: u64, timestampMs: u64, rootHash: Digest)

  /** What a log entry commits to. */
  datatype LogEntry =
    | X509Entry(cert: seq<byte>)
    | PrecertEntry(issuerKeyHash: Digest, tbs: seq<byte>)
  {
    /** Does the variable-length part fit its 24-bit length prefix? */
    predicate Fits() {
      match this
      case X509Entry(cert) => |cert| <= MAX_U24
      case PrecertEntry(_, tbs) => |tbs| <= MAX_U24
    }
  }

  /** The three things a log signs. */
  datatype Signed =
    | CertificateTimestamp(timestampMs: u64, entry: LogEntry, extensions: seq<byte>)
    | TreeHead(timestampMs: u64, treeSize: u64, rootHash: Digest)
  {
    predicate Fits() {
      CertificateTimestamp? ==> entry.Fits() && |extensions| <= MAX_U16
    }
  }

  // ----- layouts -----

  function Opaque16(s: seq<byte>): seq<byte> {
    BigEndian(|s|, 2) + s
  }

  function Opaque24(s: seq<byte>): seq<byte> {
    BigEndian(|s|, 3) + s
  }

  /** `timestamp`, `entry_type`, the entry and `extensions`. */
  function TimestampedEntry(timestampMs: u64, entry: LogEntry, extensions: seq<byte>): seq<byte> {
    BigEndian(timestampMs, 8) +
    match entry
    case X509Entry(cert) =>
      BigEndian(ENTRY_TYPE_X509, 2) + (Opaque24(cert) + Opaque16(extensions))
    case PrecertEntry(issuerKeyHash, tbs) =>
      BigEndian(ENTRY_TYPE_PRECERT, 2) + (issuerKeyHash + (Opaque24(tbs) + Opaque16(extensions)))
  }

  function SignedInput(s: Signed): seq<byte> {
    match s
    case CertificateTimestamp(timestampMs, entry, extensions) =>
      [SCT_VERSION_V1, SIG_TYPE_CERTIFICATE_TIMESTAMP] + TimestampedEntry(timestampMs, entry, extensions)
    case TreeHead(timestampMs, treeSize, rootHash) =>
      [SCT_VERSION_V1, SIG_TYPE_TREE_HASH]
      + (BigEndian(timestampMs, 8) + (BigEndian(treeSize, 8) + rootHash))
  }

  function MerkleTreeLeaf(timestampMs: u64, entry: LogEntry, extensions: seq<byte>): seq<byte> {
    [SCT_VERSION_V1, MERKLE_LEAF_TYPE_TIMESTAMPED_ENTRY] + TimestampedEntry(timestampMs, entry, extensions)
  }

  // ----- builders -----

  lemma {:induction false} TwoOctets(n: nat)
    ensures BigEndian(n, 2) == [n / 256 % 256, n % 256]
  {
    assert BigEndian(n / 256, 1) == [n / 256 % 256];
  }

  /** The source writes a 24-bit length as its top octet followed by a truncated
      16-bit length; below 2^24 that is the plain three-octet encoding. */
  lemma {:induction false} U24InTwoSteps(len: nat)
    requires len <= MAX_U24
    ensures [len / 0x1_0000 % 0x100] + BigEndian(len % 0x1_0000, 2) == BigEndian(len, 3)
  {
    var low := len % 0x1_0000;
    TwoOctets(len / 256);
    TwoOctets(low);
    assert low / 256 == len / 256 % 256 && len / 256 / 256 == len / 0x1_0000;
  }

  /** Pushing the fields one after the other gives the nested layout. */
  lemma PushesMakeLayout(head: seq<byte>, time: seq<byte>, kind: seq<byte>,
                         hi: seq<byte>, lo: seq<byte>, body: seq<byte>,
                         extLen: seq<byte>, ext: seq<byte>)
    ensures head + time + kind + hi + lo + body + extLen + ext
            == head + (time + (kind + ((hi + lo + body) + (extLen + ext))))
  {
    var front := head + time + kind;
    Associates(front + hi + lo + body, extLen, ext);
    Associates(front, hi, lo);
    Associates(front, hi + lo, body);
    Associates(front, hi + lo + body, extLen + ext);
    Associates(head + time, kind, (hi + lo + body) + (extLen + ext));
    Associates(head, time, kind + ((hi + lo + body) + (extLen + ext)));
  }

  lemma FitsU16(n: nat)
    requires n <= MAX_U16
    ensures n % 0x1_0000 == n
  {
  }

  lemma {:induction false} PushX509Entry(head: seq<byte>, t: u64, cert: seq<byte>, ext: seq<byte>)
    requires |cert| <= MAX_U24 && |ext| <= MAX_U16
    ensures head + BigEndian(t, 8) + BigEndian(ENTRY_TYPE_X509, 2)
            + [|cert| / 0x1_0000 % 0x100] + BigEndian(|cert| % 0x1_0000, 2) + cert
            + BigEndian(|ext| % 0x1_0000, 2) + ext
            == head + TimestampedEntry(t, X509Entry(cert), ext)
  {
    var time, kind, extLen := BigEndian(t, 8), BigEndian(ENTRY_TYPE_X509, 2), BigEndian(|ext| % 0x1_0000, 2);
    var hi: seq<byte>, lo := [|cert| / 0x1_0000 % 0x100], BigEndian(|cert| % 0x1_0000, 2);
    U24InTwoSteps(|cert|);
    PushesMakeLayout(head, time, kind, hi, lo, cert, extLen, ext);
    assert hi + lo + cert == Opaque24(cert);
    FitsU16(|ext|);
    assert TimestampedEntry(t, X509Entry(cert), ext) == time + (kind + (Opaque24(cert) + Opaque16(ext)));
  }

  lemma {:induction false} PushPrecertEntry(head: seq<byte>, t: u64, keyHash: Digest, tbs: seq<byte>, ext: seq<byte>)
    requires |tbs| <= MAX_U24 && |ext| <= MAX_U16
    ensures head + BigEndian(t, 8) + BigEndian(ENTRY_TYPE_PRECERT, 2) + keyHash
            + [|tbs| / 0x1_0000 % 0x100] + BigEndian(|tbs| % 0x1_0000, 2) + tbs
            + BigEndian(|ext| % 0x1_0000, 2) + ext
            == head + TimestampedEntry(t, PrecertEntry(keyHash, tbs), ext)
  {
    var time, kind, extLen := BigEndian(t, 8), BigEndian(ENTRY_TYPE_PRECERT, 2), BigEndian(|ext| % 0x1_0000, 2);
    var hi: seq<byte>, lo := [|tbs| / 0x1_0000 % 0x100], BigEndian(|tbs| % 0x1_0000, 2);
    U24InTwoSteps(|tbs|);
    PushesMakeLayout(head, time, kind + keyHash, hi, lo, tbs, extLen, ext);
    Associates(head + time, kind, keyHash);
    Associates(kind, keyHash, Opaque24(tbs) + Opaque16(ext));
    assert hi + lo + tbs == Opaque24(tbs);
    FitsU16(|ext|);
    assert TimestampedEntry(t, PrecertEntry(keyHash, tbs), ext)
        == time + (kind + (keyHash + (Opaque24(tbs) + Opaque16(ext))));
  }

  method BuildSignedInputX509Entry(sct: SignedCertificateTimestamp, certDer: seq<byte>)
    returns (r: CtResult<seq<byte>>)
    requires |sct.extensions| <= MAX_U16
    ensures |certDer| > 0xFF_FFFF ==> r == Err(CertDerTooLong)
    ensures |certDer| <= 0xFF_FFFF ==>
              r == Ok(SignedInput(CertificateTimestamp(sct.timestampMs, X509Entry(certDer), sct.extensions)))
  {
    if |certDer| > MAX_U24 {
      return Err(CertDerTooLong);
    }
    var certLen := |certDer|;
    var out: seq<byte> := [];
    out := out + [SCT_VERSION_V1];
    out := out + [SIG_TYPE_CERTIFICATE_TIMESTAMP];
    assert out == [SCT_VERSION_V1, SIG_TYPE_CERTIFICATE_TIMESTAMP];
    out := out + BigEndian(sct.timestampMs, 8);
    out := out + BigEndian(ENTRY_TYPE_X509, 2);
    out := out + [certLen / 0x1_0000 % 0x100];
    out := out + BigEndian(certLen % 0x1_0000, 2);
    out := out + certDer;
    out := out + BigEndian(|sct.extensions| % 0x1_0000, 2);
    out := out + sct.extensions;
    PushX509Entry([SCT_VERSION_V1, SIG_TYPE_CERTIFICATE_TIMESTAMP], sct.timestampMs, certDer, sct.extensions);
    return Ok(out);
  }

  method BuildSignedInputPrecertEntry(sct: SignedCertificateTimestamp, issuerKeyHash: Digest, tbsNoSct: seq<byte>)
    returns (r: CtResult<seq<byte>>)
    requires |sct.extensions| <= MAX_U16
    ensures |tbsNoSct| > 0xFF_FFFF ==> r == Err(CertDerTooLong)
    ensures |tbsNoSct| <= 0xFF_FFFF ==>
              r == Ok(SignedInput(CertificateTimestamp(
                         sct.timestampMs, PrecertEntry(issuerKeyHash, tbsNoSct), sct.extensions)))
  {
    if |tbsNoSct| > MAX_U24 {
      return Err(CertDerTooLong);
    }
    var tbsLen := |tbsNoSct|;
    var out: seq<byte> := [];
    out := out + [SCT_VERSION_V1];
    out := out + [SIG_TYPE_CERTIFICATE_TIMESTAMP];
    assert out == [SCT_VERSION_V1, SIG_TYPE_CERTIFICATE_TIMESTAMP];
    out := out + BigEndian(sct.timestampMs, 8);
    out := out + BigEndian(ENTRY_TYPE_PRECERT, 2);
    out := out + issuerKeyHash;
    out := out + [tbsLen / 0x1_0000 % 0x100];
    out := out + BigEndian(tbsLen % 0x1_0000, 2);
    out := out + tbsNoSct;
    out := out + BigEndian(|sct.extensions| % 0x1_0000, 2);
    out := out + sct.extensions;
    PushPrecertEntry([SCT_VERSION_V1, SIG_TYPE_CERTIFICATE_TIMESTAMP], sct.timestampMs, issuerKeyHash,
                     tbsNoSct, sct.extensions);
    return Ok(out);
  }

  method BuildSignedInputTreeHead(sth: SignedTreeHead) returns (out: seq<byte>)
    ensures out == SignedInput(TreeHead(sth.timestampMs, sth.treeSize, sth.rootHash))
  {
    out := [];
    out := out + [SCT_VERSION_V1];
    out := out + [SIG_TYPE_TREE_HASH];
    out := out + BigEndian(sth.timestampMs, 8);
    out := out + BigEndian(sth.treeSize, 8);
    out := out + sth.rootHash;
  }

  method BuildMerkleTreeLeafX509Entry(sct: SignedCertificateTimestamp, certDer: seq<byte>)
    returns (r: CtResult<seq<byte>>)
    requires |sct.extensions| <= MAX_U16
    ensures |certDer| > 0xFF_FFFF ==> r == Err(CertDerTooLong)
    ensures |certDer| <= 0xFF_FFFF ==>
              r == Ok(MerkleTreeLeaf(sct.timestampMs, X509Entry(certDer), sct.extensions))
  {
    if |certDer| > MAX_U24 {
      return Err(CertDerTooLong);
    }
    var certLen := |certDer|;
    var out: seq<byte> := [];
    out := out + [SCT_VERSION_V1];
    out := out + [MERKLE_LEAF_TYPE_TIMESTAMPED_ENTRY];
    assert out == [SCT_VERSION_V1, MERKLE_LEAF_TYPE_TIMESTAMPED_ENTRY];
    out := out + BigEndian(sct.timestampMs, 8);
    out := out + BigEndian(ENTRY_TYPE_X509, 2);
    out := out + [certLen / 0x1_0000 % 0x100];
    out := out + BigEndian(certLen % 0x1_0000, 2);
    out := out + certDer;
    out := out + BigEndian(|sct.extensions| % 0x1_0000, 2);
    out := out + sct.extensions;
    PushX509Entry([SCT_VERSION_V1, MERKLE_LEAF_TYPE_TIMESTAMPED_ENTRY], sct.timestampMs, certDer, sct.extensions);
    return Ok(out);
  }

  method BuildMerkleTreeLeafPrecertEntry(sct: SignedCertificateTimestamp, issuerKeyHash: Digest, tbsNoSct: seq<byte>)
    returns (r: CtResult<seq<byte>>)
    requires |sct.extensions| <= MAX_U16
    ensures |tbsNoSct| > 0xFF_FFFF ==> r == Err(CertDerTooLong)
    ensures |tbsNoSct| <= 0xFF_FFFF ==>
              r == Ok(MerkleTreeLeaf(sct.timestampMs, PrecertEntry(issuerKeyHash, tbsNoSct), sct.extensions))
  {
    if |tbsNoSct| > MAX_U24 {
      return Err(CertDerTooLong);
    }
    var tbsLen := |tbsNoSct|;
    var out: seq<byte> := [];
    out := out + [SCT_VERSION_V1];
    out := out + [MERKLE_LEAF_TYPE_TIMESTAMPED_ENTRY];
    assert out == [SCT_VERSION_V1, MERKLE_LEAF_TYPE_TIMESTAMPED_ENTRY];
    out := out + BigEndian(sct.timestampMs, 8);
    out := out + BigEndian(ENTRY_TYPE_PRECERT, 2);
    out := out + issuerKeyHash;
    out := out + [tbsLen / 0x1_0000 % 0x100];
    out := out + BigEndian(tbsLen % 0x1_0000, 2);
    out := out + tbsNoSct;
    out := out + BigEndian(|sct.extensions| % 0x1_0000, 2);
    out := out + sct.extensions;
    PushPrecertEntry([SCT_VERSION_V1, MERKLE_LEAF_TYPE_TIMESTAMPED_ENTRY], sct.timestampMs, issuerKeyHash,
                     tbsNoSct, sct.extensions);
    return Ok(out);
  }

  // ----- injectivity and separation -----

  lemma SamePrefix<T>(a: seq<T>, x: seq<T>, b: seq<T>, y: seq<T>)
    requires |a| == |b| && a + x == b + y
    ensures a == b && x == y
  {
    assert a == (a + x)[..|a|] && b == (b + y)[..|b|];
    assert x == (a + x)[|a|..] && y == (b + y)[|b|..];
  }

  lemma {:induction false} SameNumber(m: nat, x: seq<byte>, n: nat, y: seq<byte>, width: nat)
    requires m < Capacity(width) && n < Capacity(width)
    requires BigEndian(m, width) + x == BigEndian(n, width) + y
    ensures m == n && x == y
  {
    SamePrefix(BigEndian(m, width), x, BigEndian(n, width), y);
    BigEndianInjective(m, n, width);
  }

  lemma SameOpaque24(a: seq<byte>, x: seq<byte>, b: seq<byte>, y: seq<byte>)
    requires |a| <= MAX_U24 && |b| <= MAX_U24 && Opaque24(a) + x == Opaque24(b) + y
    ensures a == b && x == y
  {
    assert Opaque24(a) + x == BigEndian(|a|, 3) + (a + x);
    assert Opaque24(b) + y == BigEndian(|b|, 3) + (b + y);
    SameNumber(|a|, a + x, |b|, b + y, 3);
    SamePrefix(a, x, b, y);
  }

  lemma SameOpaque16(a: seq<byte>, b: seq<byte>)
    requires |a| <= MAX_U16 && |b| <= MAX_U16 && Opaque16(a) == Opaque16(b)
    ensures a == b
  {
    SameNumber(|a|, a, |b|, b, 2);
  }

  /** Within the length bounds, a timestamped entry determines its entry kind and
      every one of its fields. */
  lemma TimestampedEntryInjective(t: u64, e: LogEntry, x: seq<byte>, t': u64, e': LogEntry,
                                  x': seq<byte>)
    requires e.Fits() && e'.Fits() && |x| <= MAX_U16 && |x'| <= MAX_U16
    requires TimestampedEntry(t, e, x) == TimestampedEntry(t', e', x')
    ensures t == t' && e == e' && x == x'
  {
    Capacities();
    var rest, rest' := TimestampedEntry(t, e, x)[8..], TimestampedEntry(t', e', x')[8..];
    assert TimestampedEntry(t, e, x) == BigEndian(t, 8) + rest;
    assert TimestampedEntry(t', e', x') == BigEndian(t', 8) + rest';
    SameNumber(t, rest, t', rest', 8);
    assert rest == BigEndian(if e.X509Entry? then ENTRY_TYPE_X509 else ENTRY_TYPE_PRECERT, 2) + rest[2..];
    assert rest' == BigEndian(if e'.X509Entry? then ENTRY_TYPE_X509 else ENTRY_TYPE_PRECERT, 2) + rest'[2..];
    SameNumber(if e.X509Entry? then ENTRY_TYPE_X509 else ENTRY_TYPE_PRECERT, rest[2..],
               if e'.X509Entry? then ENTRY_TYPE_X509 else ENTRY_TYPE_PRECERT, rest'[2..], 2);
    match e {
      case X509Entry(cert) =>
        assert rest[2..] == Opaque24(cert) + Opaque16(x);
        assert rest'[2..] == Opaque24(e'.cert) + Opaque16(x');
        SameOpaque24(cert, Opaque16(x), e'.cert, Opaque16(x'));
      case PrecertEntry(issuerKeyHash, tbs) =>
        assert rest[2..] == issuerKeyHash + (Opaque24(tbs) + Opaque16(x));
        assert rest'[2..] == e'.issuerKeyHash + (Opaque24(e'.tbs) + Opaque16(x'));
        SamePrefix(issuerKeyHash, Opaque24(tbs) + Opaque16(x),
                   e'.issuerKeyHash, Opaque24(e'.tbs) + Opaque16(x'));
        SameOpaque24(tbs, Opaque16(x), e'.tbs, Opaque16(x'));
    }
    SameOpaque16(x, x');
  }

  lemma Capacities()
    ensures Capacity(2) == 0xFFFF + 1
    ensures Capacity(3) == 0xFF_FFFF + 1
    ensures Capacity(8) == 0x1_0000_0000_0000_0000
  {
  }

  /** No two different things a log signs have the same signed input: neither two
      entries, nor an X.509 entry and a precertificate entry, nor an entry and a
      tree head. */
  lemma SignedInputInjective(s: Signed, s': Signed)
    requires s.Fits() && s'.Fits()
    requires SignedInput(s) == SignedInput(s')
    ensures s == s'
  {
    Capacities();
    var w, w' := SignedInput(s), SignedInput(s');
    assert w[1] == w'[1];
    SamePrefix(w[..2], w[2..], w'[..2], w'[2..]);
    match s {
      case CertificateTimestamp(t, e, x) =>
        assert w[2..] == TimestampedEntry(t, e, x);
        assert w'[2..] == TimestampedEntry(s'.timestampMs, s'.entry, s'.extensions);
        TimestampedEntryInjective(t, e, x, s'.timestampMs, s'.entry, s'.extensions);
      case TreeHead(t, size, root) =>
        var rest, rest' := BigEndian(size, 8) + root, BigEndian(s'.treeSize, 8) + s'.rootHash;
        assert w[2..] == BigEndian(t, 8) + rest;
        assert w'[2..] == BigEndian(s'.timestampMs, 8) + rest';
        SameNumber(t, rest, s'.timestampMs, rest', 8);
        SameNumber(size, root, s'.treeSize, s'.rootHash, 8);
    }
  }

  /** Leaf octets determine the timestamp, the entry and the extensions. */
  lemma MerkleTreeLeafInjective(t: u64, e: LogEntry, x: seq<byte>, t': u64, e': LogEntry,
                                x': seq<byte>)
    requires e.Fits() && e'.Fits() && |x| <= MAX_U16 && |x'| <= MAX_U16
    requires MerkleTreeLeaf(t, e, x) == MerkleTreeLeaf(t', e', x')
    ensures t == t' && e == e' && x == x'
  {
    SamePrefix([SCT_VERSION_V1, MERKLE_LEAF_TYPE_TIMESTAMPED_ENTRY], TimestampedEntry(t, e, x),
               [SCT_VERSION_V1, MERKLE_LEAF_TYPE_TIMESTAMPED_ENTRY], TimestampedEntry(t', e', x'));
    TimestampedEntryInjective(t, e, x, t', e', x');
  }

  /** The octets a log hashes for an entry are the octets it signed. */
  lemma LeafIsSignedInput(t: u64, e: LogEntry, x: seq<byte>)
    ensures MerkleTreeLeaf(t, e, x) == SignedInput(CertificateTimestamp(t, e, x))
  {
  }

  // ----- the Python reader -----

  datatype DecodedLeaf =
    | X509Leaf(timestampMs: nat, leafDer: seq<byte>, extensionsLen: nat)
    | PrecertLeaf(timestampMs: nat)

  /** Python slicing: bounds past the end are clipped, never an error. */
  function Slice(buf: seq<byte>, from: nat, to: nat): seq<byte>
    requires from <= to
  {
    if from >= |buf| then [] else if to > |buf| then buf[from..] else buf[from..to]
  }

  /** A fixed-width read at `off`; None stands for IndexError or struct.error. */
  function ReadNumber(buf: seq<byte>, off: nat, width: nat): Option<nat> {
    if off + width <= |buf| then Some(Value(buf[off..off + width])) else None
  }

  /** `_read_u24`: one octet and then a two-octet number. */
  function ReadU24(buf: seq<byte>, off: nat): Option<nat> {
    match (ReadNumber(buf, off, 1), ReadNumber(buf, off + 1, 2))
    case (Some(hi), Some(lo)) => Some(hi * 0x1_0000 + lo)
    case _ => None
  }

  /** `decode_merkle_tree_leaf`; None stands for any raised exception. */
  function DecodeMerkleTreeLeaf(buf: seq<byte>): Option<DecodedLeaf> {
    if ReadNumber(buf, 0, 1) != Some(0) || ReadNumber(buf, 1, 1) != Some(0) then
      None
    else
      match (ReadNumber(buf, 2, 8), ReadNumber(buf, 10, 2))
      case (Some(timestamp), Some(0)) =>
        (match ReadU24(buf, 12)
         case None => None
         case Some(certLen) =>
           var cert := Slice(buf, 15, 15 + certLen);
           match ReadNumber(buf, 15 + certLen, 2)
           case None => None
           case Some(extLen) => Some(X509Leaf(timestamp, cert, extLen)))
      case (Some(timestamp), Some(1)) =>
        (match ReadU24(buf, 44)
         case None => None
         case Some(_) => Some(PrecertLeaf(timestamp)))
      case _ => None
  }

  /** A number written at `off` is the number read there. */
  lemma {:induction false} NumberAt(buf: seq<byte>, off: nat, n: nat, width: nat, rest: seq<byte>)
    requires off <= |buf| && n < Capacity(width)
    requires buf[off..] == BigEndian(n, width) + rest
    ensures ReadNumber(buf, off, width) == Some(n)
    ensures off + width <= |buf| && buf[off + width..] == rest
  {
    FieldAt(buf, off, BigEndian(n, width), rest);
    ValueOfBigEndian(n, width);
  }

  lemma OctetAt(buf: seq<byte>, off: nat, b: byte, rest: seq<byte>)
    requires off <= |buf| && buf[off..] == [b] + rest
    ensures ReadNumber(buf, off, 1) == Some(b)
    ensures off + 1 <= |buf| && buf[off + 1..] == rest
  {
    FieldAt(buf, off, [b], rest);
    ValueOfOctet(b);
  }

  lemma ValueOfOctet(b: byte)
    ensures Value([b]) == b
  {
    assert Value([]) == 0;
  }

  lemma {:induction false} U24Parts(n: nat, rest: seq<byte>)
    requires n <= MAX_U24
    ensures n / 0x1_0000 < 0x100 && n % 0x1_0000 < Capacity(2)
    ensures BigEndian(n, 3) + rest == [n / 0x1_0000] + (BigEndian(n % 0x1_0000, 2) + rest)
  {
    U24InTwoSteps(n);
    Associates([n / 0x1_0000], BigEndian(n % 0x1_0000, 2), rest);
  }

  lemma {:induction false} U24At(buf: seq<byte>, off: nat, n: nat, rest: seq<byte>)
    requires off <= |buf| && n <= MAX_U24
    requires buf[off..] == BigEndian(n, 3) + rest
    ensures ReadU24(buf, off) == Some(n)
    ensures off + 3 <= |buf| && buf[off + 3..] == rest
  {
    U24Parts(n, rest);
    OctetAt(buf, off, n / 0x1_0000, BigEndian(n % 0x1_0000, 2) + rest);
    NumberAt(buf, off + 1, n % 0x1_0000, 2, rest);
  }

  lemma ReadTwoZeros(buf: seq<byte>, rest: seq<byte>)
    requires buf == [0, 0] + rest
    ensures ReadNumber(buf, 0, 1) == Some(0) && ReadNumber(buf, 1, 1) == Some(0)
    ensures |buf| >= 2 && buf[2..] == rest
  {
    assert buf == [0] + ([0] + rest);
    OctetAt(buf, 0, 0, [0] + rest);
    OctetAt(buf, 1, 0, rest);
  }

  lemma {:induction false} ReadHead(t: u64, e: LogEntry, x: seq<byte>, entryType: nat, rest: seq<byte>)
    requires entryType <= MAX_U16
    requires TimestampedEntry(t, e, x) == BigEndian(t, 8) + (BigEndian(entryType, 2) + rest)
    ensures var buf := MerkleTreeLeaf(t, e, x);
            && ReadNumber(buf, 0, 1) == Some(0) && ReadNumber(buf, 1, 1) == Some(0)
            && ReadNumber(buf, 2, 8) == Some(t) && ReadNumber(buf, 10, 2) == Some(entryType)
            && |buf| >= 12 && buf[12..] == rest
  {
    Capacities();
    var buf := MerkleTreeLeaf(t, e, x);
    ReadTwoZeros(buf, TimestampedEntry(t, e, x));
    NumberAt(buf, 2, t, 8, BigEndian(entryType, 2) + rest);
    NumberAt(buf, 10, entryType, 2, rest);
  }

  lemma ReaderRecoversX509(t: u64, cert: seq<byte>, x: seq<byte>)
    requires |cert| <= MAX_U24 && |x| <= MAX_U16
    ensures DecodeMerkleTreeLeaf(MerkleTreeLeaf(t, X509Entry(cert), x)) == Some(X509Leaf(t, cert, |x|))
  {
    Capacities();
    var buf := MerkleTreeLeaf(t, X509Entry(cert), x);
    ReadHead(t, X509Entry(cert), x, ENTRY_TYPE_X509, Opaque24(cert) + Opaque16(x));
    Associates(BigEndian(|cert|, 3), cert, Opaque16(x));
    U24At(buf, 12, |cert|, cert + Opaque16(x));
    FieldAt(buf, 15, cert, Opaque16(x));
    NumberAt(buf, 15 + |cert|, |x|, 2, x);
  }

  lemma ReaderRecoversPrecert(t: u64, keyHash: Digest, tbs: seq<byte>, x: seq<byte>)
    requires |tbs| <= MAX_U24 && |x| <= MAX_U16
    ensures DecodeMerkleTreeLeaf(MerkleTreeLeaf(t, PrecertEntry(keyHash, tbs), x)) == Some(PrecertLeaf(t))
  {
    var buf, body := MerkleTreeLeaf(t, PrecertEntry(keyHash, tbs), x), Opaque24(tbs) + Opaque16(x);
    ReadHead(t, PrecertEntry(keyHash, tbs), x, ENTRY_TYPE_PRECERT, keyHash + body);
    FieldAt(buf, 12, keyHash, body);
    Associates(BigEndian(|tbs|, 3), tbs, Opaque16(x));
    U24At(buf, 44, |tbs|, tbs + Opaque16(x));
  }

  /** The Python reader recovers from a leaf the kind of entry, its timestamp and,
      for an X.509 entry, the certificate and the length of the extensions. */
  lemma ReaderRecoversLeaf(t: u64, e: LogEntry, x: seq<byte>)
    requires e.Fits() && |x| <= MAX_U16
    ensures DecodeMerkleTreeLeaf(MerkleTreeLeaf(t, e, x))
            == Some(if e.X509Entry? then X509Leaf(t, e.cert, |x|) else PrecertLeaf(t))
  {
    match e {
      case X509Entry(cert) => ReaderRecoversX509(t, cert, x);
      case PrecertEntry(keyHash, tbs) => ReaderRecoversPrecert(t, keyHash, tbs, x);
    }
  }

  // ----- the layouts, octet by octet -----

  /** Version 0, type 0, the timestamp in eight octets, and the kind of entry in two. */
  ghost predicate HeadAt(w: seq<byte>, t: u64, kind: byte) {
    && |w| >= 12 && w[0] == 0 && w[1] == 0 && Value(w[2..10]) == t && w[10] == 0 && w[11] == kind
  }

  /** A string with its length in three octets, then one with its length in two, then
      the end. */
  ghost predicate StringsAt(w: seq<byte>, off: nat, a: seq<byte>, b: seq<byte>) {
    && |w| == off + 3 + |a| + 2 + |b|
    && Value(w[off..off + 3]) == |a| && w[off + 3..off + 3 + |a|] == a
    && Value(w[off + 3 + |a|..off + 5 + |a|]) == |b| && w[off + 5 + |a|..] == b
  }

  lemma {:induction false} HeadOfLeaf(t: u64, e: LogEntry, x: seq<byte>, kind: byte, rest: seq<byte>)
    requires kind <= 1
    requires TimestampedEntry(t, e, x) == BigEndian(t, 8) + (BigEndian(kind, 2) + rest)
    ensures HeadAt(MerkleTreeLeaf(t, e, x), t, kind) && MerkleTreeLeaf(t, e, x)[12..] == rest
  {
    var w := MerkleTreeLeaf(t, e, x);
    ReadHead(t, e, x, kind, rest);
    ValueOfFew(w[0], w[1], 0);
    ValueOfFew(w[10], w[11], 0);
    assert w[0..1] == [w[0]] && w[1..2] == [w[1]] && w[10..12] == [w[10], w[11]];
  }

  lemma StringsOfLeaf(w: seq<byte>, off: nat, a: seq<byte>, b: seq<byte>)
    requires |a| <= MAX_U24 && |b| <= MAX_U16
    requires off <= |w| && w[off..] == Opaque24(a) + Opaque16(b)
    ensures StringsAt(w, off, a, b)
  {
    Capacities();
    Associates(BigEndian(|a|, 3), a, Opaque16(b));
    FieldAt(w, off, BigEndian(|a|, 3), a + Opaque16(b));
    FieldAt(w, off + 3, a, Opaque16(b));
    FieldAt(w, off + 3 + |a|, BigEndian(|b|, 2), b);
    ValueOfBigEndian(|a|, 3);
    ValueOfBigEndian(|b|, 2);
  }

  /** The leaf and the signed input of a certificate entry. */
  lemma X509Layout(t: u64, cert: seq<byte>, x: seq<byte>)
    requires |cert| <= 0xFF_FFFF && |x| <= 0xFFFF
    ensures var w := MerkleTreeLeaf(t, X509Entry(cert), x);
            && SignedInput(CertificateTimestamp(t, X509Entry(cert), x)) == w
            && HeadAt(w, t, 0) && StringsAt(w, 12, cert, x)
  {
    HeadOfLeaf(t, X509Entry(cert), x, 0, Opaque24(cert) + Opaque16(x));
    StringsOfLeaf(MerkleTreeLeaf(t, X509Entry(cert), x), 12, cert, x);
  }

  /** The leaf and the signed input of a precertificate entry. */
  lemma PrecertLayout(t: u64, keyHash: Digest, tbs: seq<byte>, x: seq<byte>)
    requires |tbs| <= 0xFF_FFFF && |x| <= 0xFFFF
    ensures var w := MerkleTreeLeaf(t, PrecertEntry(keyHash, tbs), x);
            && SignedInput(CertificateTimestamp(t, PrecertEntry(keyHash, tbs), x)) == w
            && HeadAt(w, t, 1) && w[12..44] == keyHash && StringsAt(w, 44, tbs, x)
  {
    var w := MerkleTreeLeaf(t, PrecertEntry(keyHash, tbs), x);
    HeadOfLeaf(t, PrecertEntry(keyHash, tbs), x, 1, keyHash + (Opaque24(tbs) + Opaque16(x)));
    FieldAt(w, 12, keyHash, Opaque24(tbs) + Opaque16(x));
    StringsOfLeaf(w, 44, tbs, x);
  }

  /** A tree head: version 0, signature type 1, timestamp, size, root. */
  lemma TreeHeadLayout(t: u64, size: u64, root: Digest)
    ensures var w := SignedInput(TreeHead(t, size, root));
            && |w| == 50 && w[0] == 0 && w[1] == 1
            && Value(w[2..10]) == t && Value(w[10..18]) == size && w[18..] == root
  {
    Capacities();
    var w := SignedInput(TreeHead(t, size, root));
    FieldAt(w, 2, BigEndian(t, 8), BigEndian(size, 8) + root);
    FieldAt(w, 10, BigEndian(size, 8), root);
    ValueOfBigEndian(t, 8);
    ValueOfBigEndian(size, 8);
  }
}
