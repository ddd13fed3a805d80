/** The SCT wire format (RFC 6962, sections 3.2 and 3.3): the cursor-based parser
    of pkix-ct/src/sct.rs, proved against a serializer. */
module SctList {
  import opened Bytes
  import opened CtEncoding
  import opened CtErrors
  import opened Outcomes

  type Sct = SignedCertificateTimestamp

  // ----- the format -----

  /** The fields an SCT of protocol version 1 can have on the wire. */
  predicate Encodable(s: Sct) {
    s.version == 0 && |s.extensions| <= MAX_U16 && |s.signature| <= MAX_U16
  }

  function SerializeSct(s: Sct): seq<byte> {
    [s.version] + (s.logId + (BigEndian(s.timestampMs, 8)
    + (Opaque16(s.extensions) + ([s.hashAlg] + ([s.sigAlg] + Opaque16(s.signature))))))
  }

  function SerializeBody(scts: seq<Sct>): seq<byte> {
    if scts == [] then [] else Opaque16(SerializeSct(scts[0])) + SerializeBody(scts[1..])
  }

  function SerializeList(scts: seq<Sct>): seq<byte> {
    Opaque16(SerializeBody(scts))
  }

  /** The lists that fit the format: not empty, every SCT and the whole body
      within a 16-bit length. */
  predicate EncodableList(scts: seq<Sct>) {
    && scts != []
    && (forall s <- scts :: Encodable(s) && |SerializeSct(s)| <= MAX_U16)
    && |SerializeBody(scts)| <= MAX_U16
  }

  /** Where the fields of an SCT are. */
  lemma SctLayout(s: Sct)
    requires Encodable(s)
    ensures var w, e := SerializeSct(s), |s.extensions|;
            && |w| == 47 + e + |s.signature|
            && w[0] == 0 && w[1..33] == s.logId && Value(w[33..41]) == s.timestampMs
            && Value(w[41..43]) == e && w[43..43 + e] == s.extensions
            && w[43 + e] == s.hashAlg && w[44 + e] == s.sigAlg
            && Value(w[45 + e..47 + e]) == |s.signature| && w[47 + e..] == s.signature
  {
    Capacities();
    var w, e := SerializeSct(s), |s.extensions|;
    var afterE := [s.hashAlg] + ([s.sigAlg] + Opaque16(s.signature));
    assert w[0..] == w;
    FieldAt(w, 0, [s.version], s.logId + (BigEndian(s.timestampMs, 8) + (Opaque16(s.extensions) + afterE)));
    FieldAt(w, 1, s.logId, BigEndian(s.timestampMs, 8) + (Opaque16(s.extensions) + afterE));
    FieldAt(w, 33, BigEndian(s.timestampMs, 8), Opaque16(s.extensions) + afterE);
    Associates(BigEndian(e, 2), s.extensions, afterE);
    FieldAt(w, 41, BigEndian(e, 2), s.extensions + afterE);
    FieldAt(w, 43, s.extensions, afterE);
    FieldAt(w, 43 + e, [s.hashAlg], [s.sigAlg] + Opaque16(s.signature));
    FieldAt(w, 44 + e, [s.sigAlg], Opaque16(s.signature));
    FieldAt(w, 45 + e, BigEndian(|s.signature|, 2), s.signature);
    ValueOfBigEndian(s.timestampMs, 8);
    ValueOfBigEndian(e, 2);
    ValueOfBigEndian(|s.signature|, 2);
  }

  /** A list is its length in two octets and then each SCT after its own length in two
      octets, in order. */
  lemma {:induction false} ListLayout(s: Sct, scts: seq<Sct>)
    ensures SerializeBody([]) == []
    ensures SerializeBody([s] + scts) == (BigEndian(|SerializeSct(s)|, 2) + SerializeSct(s)) + SerializeBody(scts)
    ensures SerializeList(scts) == BigEndian(|SerializeBody(scts)|, 2) + SerializeBody(scts)
  {
    assert ([s] + scts)[1..] == scts;
  }

  // ----- what a reader must return: a value and the octets left over -----

  datatype Parsed<+T> = Parsed(value: T, rest: seq<byte>)

  function TakeBytes(data: seq<byte>, n: nat): CtResult<Parsed<seq<byte>>> {
    if |data| < n then Err(TruncatedOrTrailing) else Ok(Parsed(data[..n], data[n..]))
  }

  function TakeNumber(data: seq<byte>, width: nat): CtResult<Parsed<nat>> {
    var p :- TakeBytes(data, width);
    Ok(Parsed(Value(p.value), p.rest))
  }

  function TakeOpaque16(data: seq<byte>): CtResult<Parsed<seq<byte>>> {
    var len :- TakeNumber(data, 2);
    TakeBytes(len.rest, len.value)
  }

  function TakeSct(data: seq<byte>): CtResult<Parsed<Sct>> {
    var version :- TakeBytes(data, 1);
    if version.value[0] != 0 then
      Err(UnsupportedVersion(version.value[0]))
    else
      var logId :- TakeBytes(version.rest, 32);
      var timestamp :- TakeBytes(logId.rest, 8);
      var extensions :- TakeOpaque16(timestamp.rest);
      var hashAlg :- TakeBytes(extensions.rest, 1);
      var sigAlg :- TakeBytes(hashAlg.rest, 1);
      var signature :- TakeOpaque16(sigAlg.rest);
      U64Value(timestamp.value);
      Ok(Parsed(SignedCertificateTimestamp(0, logId.value, Value(timestamp.value), extensions.value,
                                           hashAlg.value[0], sigAlg.value[0], signature.value),
                signature.rest))
  }

  lemma {:induction false} U64Value(s: seq<byte>)
    requires |s| == 8
    ensures Value(s) < 0x1_0000_0000_0000_0000
  {
    Capacities();
    ValueBound(s);
  }

  function ParseSct(input: seq<byte>): CtResult<Sct> {
    var p :- TakeSct(input);
    if p.rest == [] then Ok(p.value) else Err(TruncatedOrTrailing)
  }

  /** A list result with `first` in front. */
  function Prepend(first: seq<Sct>, others: CtResult<seq<Sct>>): CtResult<seq<Sct>> {
    var scts :- others;
    Ok(first + scts)
  }

  function ParseBody(body: seq<byte>): CtResult<seq<Sct>>
    decreases |body|
  {
    if body == [] then
      Ok([])
    else
      var item :- TakeOpaque16(body);
      var sct :- ParseSct(item.value);
      Prepend([sct], ParseBody(item.rest))
  }

  function ParseList(bytes: seq<byte>): CtResult<seq<Sct>> {
    var body :- TakeOpaque16(bytes);
    if body.rest != [] then Err(TruncatedOrTrailing)
    else if body.value == [] then Err(ParseError)
    else ParseBody(body.value)
  }

  // ----- the parser of the source -----

  class Cursor {
    var data: seq<byte>

    constructor (data: seq<byte>)
      ensures this.data == data
    {
      this.data := data;
    }

    predicate IsEmpty()
      reads this
    {
      data == []
    }

    method ReadBytes(n: nat) returns (r: CtResult<seq<byte>>)
      modifies this
      ensures match TakeBytes(old(data), n)
              case Ok(p) => r == Ok(p.value) && data == p.rest
              case Err(e) => r == Err(e) && data == old(data)
    {
      if |data| < n {
        return Err(TruncatedOrTrailing);
      }
      var head := data[..n];
      data := data[n..];
      return Ok(head);
    }

    method ReadU8() returns (r: CtResult<byte>)
      modifies this
      ensures match TakeBytes(old(data), 1)
              case Ok(p) => r == Ok(p.value[0]) && data == p.rest
              case Err(e) => r == Err(e) && data == old(data)
    {
      var bytes :- ReadBytes(1);
      return Ok(bytes[0]);
    }

    method ReadU16Be() returns (r: CtResult<u16>)
      modifies this
      ensures match TakeNumber(old(data), 2)
              case Ok(p) => r == Ok(p.value) && data == p.rest
              case Err(e) => r == Err(e) && data == old(data)
    {
      var bytes :- ReadBytes(2);
      assert Value(bytes[..1]) == bytes[0] by { assert bytes[..1][..0] == []; }
      var n := bytes[0] as int * 0x100 + bytes[1];
      return Ok(n);
    }

    method ReadU64Be() returns (r: CtResult<u64>)
      modifies this
      ensures match TakeNumber(old(data), 8)
              case Ok(p) => r == Ok(p.value) && data == p.rest
              case Err(e) => r == Err(e) && data == old(data)
    {
      var bytes :- ReadBytes(8);
      U64Value(bytes);
      var n: nat := 0;
      for i := 0 to 8
        invariant n == Value(bytes[..i])
      {
        assert bytes[..i + 1][..i] == bytes[..i];
        n := n * 0x100 + bytes[i];
      }
      assert bytes[..8] == bytes;
      return Ok(n);
    }

    /** A failure inside the body leaves the two length octets consumed. */
    method ReadU16Prefixed() returns (r: CtResult<seq<byte>>)
      modifies this
      ensures match TakeOpaque16(old(data))
              case Ok(p) => r == Ok(p.value) && data == p.rest
              case Err(e) => r == Err(e) && data == if |old(data)| < 2 then old(data) else old(data)[2..]
    {
      var len :- ReadU16Be();
      r := ReadBytes(len);
    }
  }

  method ReadSct(cur: Cursor) returns (r: CtResult<Sct>)
    modifies cur
    ensures match TakeSct(old(cur.data))
            case Ok(p) => r == Ok(p.value) && cur.data == p.rest
            case Err(e) => r == Err(e)
  {
    var version :- cur.ReadU8();
    if version != 0 {
      return Err(UnsupportedVersion(version));
    }
    var logId :- cur.ReadBytes(32);
    var timestampMs :- cur.ReadU64Be();
    var extensions :- cur.ReadU16Prefixed();
    var hashAlg :- cur.ReadU8();
    var sigAlg :- cur.ReadU8();
    var signature :- cur.ReadU16Prefixed();
    return Ok(SignedCertificateTimestamp(version, logId, timestampMs, extensions, hashAlg, sigAlg, signature));
  }

  method FromBytes(input: seq<byte>) returns (r: CtResult<Sct>)
    ensures r == ParseSct(input)
  {
    var cur := new Cursor(input);
    var sct :- ReadSct(cur);
    if !cur.IsEmpty() {
      return Err(TruncatedOrTrailing);
    }
    return Ok(sct);
  }

  method FromSerializedList(bytes: seq<byte>) returns (r: CtResult<seq<Sct>>)
    ensures r == ParseList(bytes)
  {
    var outer := new Cursor(bytes);
    var body :- outer.ReadU16Prefixed();
    if !outer.IsEmpty() {
      return Err(TruncatedOrTrailing);
    }
    if body == [] {
      return Err(ParseError);
    }
    var inner := new Cursor(body);
    var scts: seq<Sct> := [];
    PrependNothing(ParseBody(body));
    while !inner.IsEmpty()
      invariant ParseBody(body) == Prepend(scts, ParseBody(inner.data))
      decreases |inner.data|
    {
      PrependTwice(scts, inner.data);
      var sctBytes :- inner.ReadU16Prefixed();
      var sctCur := new Cursor(sctBytes);
      var sct :- ReadSct(sctCur);
      if !sctCur.IsEmpty() {
        return Err(TruncatedOrTrailing);
      }
      scts := scts + [sct];
    }
    assert scts + [] == scts;
    return Ok(scts);
  }

  lemma PrependNothing(others: CtResult<seq<Sct>>)
    ensures Prepend([], others) == others
  {
    if others.Ok? {
      assert [] + others.value == others.value;
    }
  }

  lemma PrependAssociates(a: seq<Sct>, b: seq<Sct>, others: CtResult<seq<Sct>>)
    ensures Prepend(a, Prepend(b, others)) == Prepend(a + b, others)
  {
    if others.Ok? {
      assert a + (b + others.value) == a + b + others.value;
    }
  }

  /** One turn of the list loop. */
  lemma {:induction false} PrependTwice(scts: seq<Sct>, body: seq<byte>)
    ensures body != [] ==>
              Prepend(scts, ParseBody(body)) ==
              match TakeOpaque16(body)
              case Err(e) => Err(e)
              case Ok(item) =>
                match ParseSct(item.value)
                case Err(e) => Err(e)
                case Ok(sct) => Prepend(scts + [sct], ParseBody(item.rest))
  {
    if body != [] && TakeOpaque16(body).Ok? {
      var item := TakeOpaque16(body).value;
      if ParseSct(item.value).Ok? {
        PrependAssociates(scts, [ParseSct(item.value).value], ParseBody(item.rest));
      }
    }
  }

  // ----- round trips -----

  lemma TakeBytesBack(field: seq<byte>, rest: seq<byte>)
    ensures TakeBytes(field + rest, |field|) == Ok(Parsed(field, rest))
  {
  }

  lemma TakeOpaque16Back(s: seq<byte>, rest: seq<byte>)
    requires |s| <= MAX_U16
    ensures TakeOpaque16(Opaque16(s) + rest) == Ok(Parsed(s, rest))
  {
    Capacities();
    Associates(BigEndian(|s|, 2), s, rest);
    TakeBytesBack(BigEndian(|s|, 2), s + rest);
    ValueOfBigEndian(|s|, 2);
    TakeBytesBack(s, rest);
  }

  lemma TakeOpaque16Gives(data: seq<byte>)
    ensures match TakeOpaque16(data)
            case Ok(p) => data == Opaque16(p.value) + p.rest && |p.value| <= MAX_U16
            case Err(e) => e == TruncatedOrTrailing
  {
    if |data| >= 2 {
      Capacities();
      ValueBound(data[..2]);
      BigEndianOfValue(data[..2]);
    }
  }

  /** A serialized SCT and what follows it, field by field. */
  lemma SctFields(s: Sct, rest: seq<byte>)
    ensures SerializeSct(s) + rest
            == [s.version] + (s.logId + (BigEndian(s.timestampMs, 8) + (Opaque16(s.extensions)
               + ([s.hashAlg] + ([s.sigAlg] + (Opaque16(s.signature) + rest))))))
  {
    var f := Opaque16(s.signature);
    var e := [s.sigAlg] + f;
    var d := [s.hashAlg] + e;
    var c := Opaque16(s.extensions) + d;
    var b := BigEndian(s.timestampMs, 8) + c;
    Associates([s.sigAlg], f, rest);
    Associates([s.hashAlg], e, rest);
    Associates(Opaque16(s.extensions), d, rest);
    Associates(BigEndian(s.timestampMs, 8), c, rest);
    Associates(s.logId, b, rest);
    Associates([s.version], s.logId + b, rest);
  }

  /** Reading back a written SCT gives it and exactly the octets after it. */
  lemma TakeSerializedSct(s: Sct, rest: seq<byte>)
    requires Encodable(s)
    ensures TakeSct(SerializeSct(s) + rest) == Ok(Parsed(s, rest))
  {
    Capacities();
    SctFields(s, rest);
    var f := Opaque16(s.signature) + rest;
    var e := [s.hashAlg] + ([s.sigAlg] + f);
    var d := Opaque16(s.extensions) + e;
    var c := BigEndian(s.timestampMs, 8) + d;
    TakeBytesBack([s.version], s.logId + c);
    TakeBytesBack(s.logId, c);
    TakeBytesBack(BigEndian(s.timestampMs, 8), d);
    ValueOfBigEndian(s.timestampMs, 8);
    TakeOpaque16Back(s.extensions, e);
    TakeBytesBack([s.hashAlg], [s.sigAlg] + f);
    TakeBytesBack([s.sigAlg], f);
    TakeOpaque16Back(s.signature, rest);
  }

  lemma TakeBytesGives(data: seq<byte>, n: nat)
    requires n <= |data|
    ensures var p := TakeBytes(data, n).value; data == p.value + p.rest && |p.value| == n
  {
  }

  /** An SCT that is read was written there. */
  lemma TakenSctSerializes(data: seq<byte>)
    requires TakeSct(data).Ok?
    ensures var p := TakeSct(data).value;
            Encodable(p.value) && data == SerializeSct(p.value) + p.rest
  {
    var p := TakeSct(data).value;
    var s := p.value;
    var afterVersion := TakeBytes(data, 1).value.rest;
    var afterLogId := TakeBytes(afterVersion, 32).value.rest;
    var afterTime := TakeBytes(afterLogId, 8).value.rest;
    var afterExtensions := TakeOpaque16(afterTime).value.rest;
    var afterHashAlg := TakeBytes(afterExtensions, 1).value.rest;
    var afterSigAlg := TakeBytes(afterHashAlg, 1).value.rest;
    TakeBytesGives(data, 1);
    TakeBytesGives(afterVersion, 32);
    TakeBytesGives(afterLogId, 8);
    BigEndianOfValue(TakeBytes(afterLogId, 8).value.value);
    TakeOpaque16Gives(afterTime);
    TakeBytesGives(afterExtensions, 1);
    TakeBytesGives(afterHashAlg, 1);
    TakeOpaque16Gives(afterSigAlg);
    assert TakeBytes(data, 1).value.value == [s.version];
    assert TakeBytes(afterExtensions, 1).value.value == [s.hashAlg];
    assert TakeBytes(afterHashAlg, 1).value.value == [s.sigAlg];
    SctFields(s, p.rest);
  }

  lemma {:induction false} ParseBodyItem(item: seq<byte>, rest: seq<byte>)
    requires |item| <= MAX_U16 && ParseSct(item).Ok?
    ensures ParseBody(Opaque16(item) + rest) == Prepend([ParseSct(item).value], ParseBody(rest))
  {
    TakeOpaque16Back(item, rest);
  }

  lemma ParseSerializedSct(s: Sct)
    requires Encodable(s)
    ensures ParseSct(SerializeSct(s)) == Ok(s)
  {
    TakeSerializedSct(s, []);
    assert SerializeSct(s) + [] == SerializeSct(s);
  }

  lemma {:induction false} ParseSerializedBody(scts: seq<Sct>)
    requires forall s <- scts :: Encodable(s) && |SerializeSct(s)| <= MAX_U16
    ensures ParseBody(SerializeBody(scts)) == Ok(scts)
  {
    if scts == [] {
    } else {
      var s := scts[0];
      ParseSerializedSct(s);
      ParseBodyItem(SerializeSct(s), SerializeBody(scts[1..]));
      ParseSerializedBody(scts[1..]);
      assert [s] + scts[1..] == scts;
    }
  }

  lemma {:induction false} ParsedBodySerializes(body: seq<byte>)
    requires ParseBody(body).Ok?
    ensures var scts := ParseBody(body).value;
            && SerializeBody(scts) == body
            && (forall s <- scts :: Encodable(s) && |SerializeSct(s)| <= MAX_U16)
    decreases |body|
  {
    if body == [] {
    } else {
      TakeOpaque16Gives(body);
      var item := TakeOpaque16(body).value;
      TakenSctSerializes(item.value);
      var sct := ParseSct(item.value).value;
      assert SerializeSct(sct) + [] == SerializeSct(sct);
      ParsedBodySerializes(item.rest);
      var scts := ParseBody(body).value;
      assert scts[0] == sct && scts[1..] == ParseBody(item.rest).value;
    }
  }

  /** parse(serialize(l)) = l for every list the format can carry. */
  lemma ParseSerializedList(scts: seq<Sct>)
    requires EncodableList(scts)
    ensures ParseList(SerializeList(scts)) == Ok(scts)
  {
    var body := SerializeBody(scts);
    TakeOpaque16Back(body, []);
    assert Opaque16(body) + [] == Opaque16(body);
    assert |body| >= 2;
    ParseSerializedBody(scts);
  }

  /** serialize(parse(b)) = b for every accepted b, and only lists the format can
      carry come out. */
  lemma ParsedListSerializes(bytes: seq<byte>)
    requires ParseList(bytes).Ok?
    ensures EncodableList(ParseList(bytes).value) && SerializeList(ParseList(bytes).value) == bytes
  {
    TakeOpaque16Gives(bytes);
    var body := TakeOpaque16(bytes).value.value;
    assert Opaque16(body) + [] == Opaque16(body);
    ParsedBodySerializes(body);
  }

  /** Acceptance, described by the format alone. */
  lemma AcceptedExactly(bytes: seq<byte>, scts: seq<Sct>)
    ensures ParseList(bytes) == Ok(scts) <==> EncodableList(scts) && bytes == SerializeList(scts)
  {
    if ParseList(bytes) == Ok(scts) {
      ParsedListSerializes(bytes);
    }
    if EncodableList(scts) {
      ParseSerializedList(scts);
    }
  }

  // ----- refusals -----

  lemma SctRefusal(input: seq<byte>)
    requires ParseSct(input).Err?
    ensures ParseSct(input).error
            == if input != [] && input[0] != 0 then UnsupportedVersion(input[0]) else TruncatedOrTrailing
  {
  }

  /** One SCT is read exactly from its serialization.  Anything else is refused: for its
      version when its first octet is not zero, and as truncated or trailing otherwise. */
  lemma SctOutcome(input: seq<byte>)
    ensures forall s: Sct :: ParseSct(input) == Ok(s) <==> Encodable(s) && input == SerializeSct(s)
    ensures ParseSct(input).Err? ==>
              ParseSct(input).error
              == if input != [] && input[0] != 0 then UnsupportedVersion(input[0]) else TruncatedOrTrailing
  {
    if ParseSct(input).Ok? {
      TakenSctSerializes(input);
      assert SerializeSct(ParseSct(input).value) + [] == SerializeSct(ParseSct(input).value);
    } else {
      SctRefusal(input);
    }
    forall s: Sct | Encodable(s) && input == SerializeSct(s) ensures ParseSct(input) == Ok(s) {
      ParseSerializedSct(s);
    }
  }

  predicate EachEncodable(scts: seq<Sct>) {
    forall s <- scts :: Encodable(s) && |SerializeSct(s)| <= MAX_U16
  }

  /** After complete SCTs comes one with version `v`. */
  ghost predicate ForeignItem(body: seq<byte>, v: int, good: seq<Sct>, item: seq<byte>, rest: seq<byte>) {
    && EachEncodable(good) && 0 < |item| <= MAX_U16 && item[0] == v && v != 0
    && body == SerializeBody(good) + ((BigEndian(|item|, 2) + item) + rest)
  }

  lemma {:induction false} ForeignItemIsNamed(body: seq<byte>, v: int, good: seq<Sct>, item: seq<byte>, rest: seq<byte>)
    requires ForeignItem(body, v, good, item, rest)
    ensures ParseBody(body) == Err(UnsupportedVersion(v))
    decreases |good|
  {
    if good == [] {
      assert SerializeBody(good) + (Opaque16(item) + rest) == Opaque16(item) + rest;
      TakeOpaque16Back(item, rest);
    } else {
      var s := good[0];
      var later := SerializeBody(good[1..]) + (Opaque16(item) + rest);
      Associates(Opaque16(SerializeSct(s)), SerializeBody(good[1..]), Opaque16(item) + rest);
      ParseSerializedSct(s);
      ParseBodyItem(SerializeSct(s), later);
      ForeignItemIsNamed(later, v, good[1..], item, rest);
    }
  }

  lemma {:induction false} RefusedBody(body: seq<byte>) returns (good: seq<Sct>, item: seq<byte>, rest: seq<byte>)
    requires ParseBody(body).Err?
    ensures match ParseBody(body).error
            case UnsupportedVersion(v) => ForeignItem(body, v, good, item, rest)
            case e => e == TruncatedOrTrailing
    decreases |body|
  {
    good, item, rest := [], [], [];
    TakeOpaque16Gives(body);
    if TakeOpaque16(body).Ok? {
      item, rest := TakeOpaque16(body).value.value, TakeOpaque16(body).value.rest;
      SctOutcome(item);
      assert SerializeBody([]) + (Opaque16(item) + rest) == body;
      if ParseSct(item).Ok? {
        var s, later := ParseSct(item).value, rest;
        good, item, rest := RefusedBody(later);
        Associates(Opaque16(SerializeSct(s)), SerializeBody(good), Opaque16(item) + rest);
        ListLayout(s, good);
        good := [s] + good;
      }
    }
  }

  /** The body has the stated length. */
  predicate Framed(bytes: seq<byte>) {
    |bytes| >= 2 && |bytes| == 2 + Value(bytes[..2])
  }

  lemma ParseFramed(bytes: seq<byte>)
    ensures ParseList(bytes)
            == if !Framed(bytes) then Err(TruncatedOrTrailing)
               else if |bytes| == 2 then Err(ParseError)
               else ParseBody(bytes[2..])
  {
    if |bytes| >= 2 {
      var rest, n := bytes[2..], Value(bytes[..2]);
      if |rest| == n {
        assert rest[..n] == rest && rest[n..] == [];
      }
    }
  }

  /** Refused as a parse error: exactly the list without any SCT. */
  lemma EmptyListOnly(bytes: seq<byte>)
    ensures ParseList(bytes) == Err(ParseError) <==> bytes == [0, 0]
  {
    ParseFramed(bytes);
    if |bytes| == 2 {
      ValueOfFew(bytes[0], bytes[1], 0);
      assert bytes == [bytes[0], bytes[1]] && bytes[..2] == bytes;
    } else if Framed(bytes) && ParseBody(bytes[2..]).Err? {
      var good, item, rest := RefusedBody(bytes[2..]);
    }
  }

  /** Refused for a version: exactly when, in a body of the stated length, an SCT of that
      version follows complete SCTs. */
  lemma ForeignVersionIsNamed(bytes: seq<byte>, v: int)
    ensures ParseList(bytes) == Err(UnsupportedVersion(v))
            <==> Framed(bytes) && exists good, item, rest :: ForeignItem(bytes[2..], v, good, item, rest)
  {
    ParseFramed(bytes);
    if Framed(bytes) {
      if |bytes| > 2 && ParseBody(bytes[2..]).Err? {
        var good, item, rest := RefusedBody(bytes[2..]);
      }
      forall good, item, rest | ForeignItem(bytes[2..], v, good, item, rest)
        ensures |bytes| > 2 && ParseBody(bytes[2..]) == Err(UnsupportedVersion(v))
      {
        ForeignItemIsNamed(bytes[2..], v, good, item, rest);
      }
    }
  }

  /** No accepted string is a strict prefix of another: cutting octets off the end
      or adding some is reported as truncation or trailing data. */
  lemma NoAcceptedPrefix(bytes: seq<byte>, other: seq<byte>)
    requires ParseList(bytes).Ok?
    requires other < bytes || bytes < other
    ensures ParseList(other) == Err(TruncatedOrTrailing)
  {
    if |other| >= 2 {
      assert other[..2] == bytes[..2];
      assert |bytes| == 2 + Value(bytes[..2]);
    }
  }
}
