/** DER lengths and the size of an RSA modulus (pkix-lint-cabf/src/cabf_tls_br.rs,
    `parse_der_length`, `der_peel_tlv` and `rsa_modulus_bit_len`). */
module RsaKey {
  import opened Bits
  import opened Bytes
  import opened Outcomes

  const TAG_SEQUENCE: byte := 0x30
  const TAG_INTEGER: byte := 0x02
  const MIN_MODULUS_BITS: nat := 2048
  const USIZE_RANGE := 0x1_0000_0000_0000_0000

  // ----- lengths and values -----

  /** The length a length field states, and the octets after the field. */
  function LengthValue(input: seq<byte>): Option<(nat, seq<byte>)> {
    if input == [] then
      None
    else if input[0] < 0x80 then
      Some((input[0], input[1..]))
    else
      var n := input[0] - 0x80;
      var rest := input[1..];
      if n == 0 || n > 4 || |rest| < n then None else Some((Value(rest[..n]), rest[n..]))
  }

  /** The shift drops bits beyond 64, but at most four octets are accumulated, so none
      is lost. */
  method ParseDerLength(input: seq<byte>) returns (r: Option<(nat, seq<byte>)>)
    ensures r == LengthValue(input)
  {
    if input == [] {
      return None;
    }
    var first, rest := input[0], input[1..];
    if first < 0x80 {
      return Some((first, rest));
    }
    var nBytes := first % 0x80;
    if nBytes == 0 || nBytes > 4 || |rest| < nBytes {
      return None;
    }
    var lenBytes := rest[..nBytes];
    var length: nat := 0;
    for i := 0 to nBytes
      invariant length == Value(lenBytes[..i]) < Capacity(i)
    {
      assert lenBytes[..i + 1][..i] == lenBytes[..i];
      CapacityMonotone(i, 3);
      var shifted := length * 0x100 % USIZE_RANGE;
      assert shifted == length * 0x100;
      length := shifted + lenBytes[i];
    }
    assert lenBytes[..nBytes] == lenBytes;
    return Some((length, rest[nBytes..]));
  }

  /** `der_peel_tlv` */
  function PeelTlv(input: seq<byte>, expectedTag: byte): Option<(seq<byte>, seq<byte>)> {
    if input == [] || input[0] != expectedTag then
      None
    else
      match LengthValue(input[1..])
      case None => None
      case Some(p) => if |p.1| < p.0 then None else Some((p.1[..p.0], p.1[p.0..]))
  }

  /** A definite length field for `len` (section 8.1.3 of ITU-T X.690): the short form,
      or the long form with `n` octets, leading zeros allowed. */
  predicate EncodesLength(field: seq<byte>, len: nat) {
    || (len < 0x80 && field == [len])
    || (&& 2 <= |field| <= 5
        && field[0] == 0x80 + (|field| - 1)
        && len == Value(field[1..]))
  }

  lemma LengthBack(field: seq<byte>, len: nat, rest: seq<byte>)
    requires EncodesLength(field, len)
    ensures LengthValue(field + rest) == Some((len, rest))
  {
    var input := field + rest;
    if field == [len] {
      assert input[1..] == rest;
    } else {
      var n := |field| - 1;
      assert input[1..][..n] == field[1..] && input[1..][n..] == rest;
    }
  }

  lemma LengthGives(input: seq<byte>) returns (field: seq<byte>)
    requires LengthValue(input).Some?
    ensures EncodesLength(field, LengthValue(input).value.0)
    ensures input == field + LengthValue(input).value.1
  {
    if input[0] < 0x80 {
      field := [input[0]];
    } else {
      var n := input[0] - 0x80;
      field := input[..n + 1];
      assert field[1..] == input[1..][..n];
    }
  }

  /** Peeling accepts exactly the encodings, of any definite form, of a value under the
      expected tag, and gives back the value and what follows it. */
  lemma PeelExactly(input: seq<byte>, tag: byte, value: seq<byte>, rest: seq<byte>)
    ensures PeelTlv(input, tag) == Some((value, rest)) <==>
            exists field :: EncodesLength(field, |value|) && input == [tag] + (field + (value + rest))
  {
    if PeelTlv(input, tag) == Some((value, rest)) {
      var field := LengthGives(input[1..]);
      var p := LengthValue(input[1..]).value;
      assert p.1 == value + rest;
      assert input == [tag] + (field + (value + rest));
    }
    forall field | EncodesLength(field, |value|) && input == [tag] + (field + (value + rest))
      ensures PeelTlv(input, tag) == Some((value, rest))
    {
      LengthBack(field, |value|, value + rest);
      assert input[1..] == field + (value + rest);
    }
  }

  /** Every value below 2^32 octets has such an encoding, the four-octet one. */
  lemma {:induction false} EveryLengthEncodes(len: nat)
    requires len < 0x1_0000_0000
    ensures EncodesLength([0x84] + BigEndian(len, 4), len)
  {
    assert Capacity(4) == 0x1_0000_0000;
    ValueOfBigEndian(len, 4);
    assert ([0x84] + BigEndian(len, 4))[1..] == BigEndian(len, 4);
  }

  // ----- the modulus -----

  /** The content octets of the first INTEGER of an RSAPublicKey. */
  function ModulusOctets(der: seq<byte>): Option<seq<byte>> {
    match PeelTlv(der, TAG_SEQUENCE)
    case None => None
    case Some(outer) =>
      match PeelTlv(outer.0, TAG_INTEGER)
      case None => None
      case Some(inner) => Some(inner.0)
  }

  /** The bit length of the modulus as a number; none when it is missing or zero. */
  function ModulusBits(der: seq<byte>): Option<nat> {
    match ModulusOctets(der)
    case None => None
    case Some(octets) => if Value(octets) == 0 then None else Some(BitLength(Value(octets)))
  }

  /** `leading_zeros` of an octet. */
  function LeadingZeros8(b: byte): (z: nat)
    ensures z == 8 - BitLength(b)
  {
    BitLengthAtMost(b, 8);
    assert Pow2(8) == 0x100;
    8 - BitLength(b)
  }

  lemma {:induction false} LeadingZeroIsNothing(s: seq<byte>)
    requires s != [] && s[0] == 0
    ensures Value(s) == Value(s[1..])
  {
    if |s| == 1 {
      assert s[..0] == [] && s[1..] == [];
    } else {
      var init := s[..|s| - 1];
      LeadingZeroIsNothing(init);
      assert s[1..][..|s| - 2] == init[1..];
    }
  }

  lemma EightMoreBits(v: nat, b: byte)
    requires v > 0
    ensures BitLength(256 * v + b) == BitLength(v) + 8
  {
    var w := 256 * v + b;
    HalfBits(w);
    HalfBits(w / 2);
    HalfBits(w / 4);
    HalfBits(w / 8);
    HalfBits(w / 16);
    HalfBits(w / 32);
    HalfBits(w / 64);
    HalfBits(w / 128);
    assert w / 128 / 2 == v;
    assert w / 2 / 2 == w / 4 && w / 4 / 2 == w / 8 && w / 8 / 2 == w / 16;
    assert w / 16 / 2 == w / 32 && w / 32 / 2 == w / 64 && w / 64 / 2 == w / 128;
  }

  lemma {:induction false} HalfBits(w: nat)
    ensures w > 0 ==> BitLength(w) == BitLength(w / 2) + 1
  {
  }

  /** Bits of a number without leading zero octet, counted from its octets. */
  lemma {:induction false} BitsOfOctets(s: seq<byte>)
    requires s != [] && s[0] != 0
    ensures Value(s) > 0
    ensures BitLength(Value(s)) == (|s| - 1) * 8 + BitLength(s[0])
  {
    var init := s[..|s| - 1];
    if |s| == 1 {
      assert init == [] && Value(s) == s[0];
    } else {
      BitsOfOctets(init);
      EightMoreBits(Value(init), s[|s| - 1]);
    }
  }

  method RsaModulusBitLen(der: seq<byte>) returns (r: Option<nat>)
    ensures r == ModulusBits(der)
  {
    var outer := PeelTlv(der, TAG_SEQUENCE);
    if outer == None {
      return None;
    }
    var inner := PeelTlv(outer.value.0, TAG_INTEGER);
    if inner == None {
      return None;
    }
    var intValue := inner.value.0;
    ghost var modulus := Value(intValue);
    if |intValue| >= 2 && intValue[0] == 0 && intValue[1] >= 0x80 {
      LeadingZeroIsNothing(intValue);
      intValue := intValue[1..];
    }
    while intValue != [] && intValue[0] == 0
      invariant Value(intValue) == modulus
      decreases |intValue|
    {
      LeadingZeroIsNothing(intValue);
      intValue := intValue[1..];
    }
    if intValue == [] {
      return None;
    }
    BitsOfOctets(intValue);
    var leadingZeros := LeadingZeros8(intValue[0]);
    return Some((|intValue| - 1) * 8 + (8 - leadingZeros));
  }

  /** The result k brackets the modulus: 2^(k-1) <= modulus < 2^k. */
  lemma ModulusBitsBracket(der: seq<byte>)
    requires ModulusBits(der).Some?
    ensures var k, modulus := ModulusBits(der).value, Value(ModulusOctets(der).value);
            k >= 1 && Pow2(k - 1) <= modulus < Pow2(k)
  {
    BitLengthBounds(Value(ModulusOctets(der).value));
  }

  /** The lint of TLS BR section 6.1.5. */
  predicate LintPasses(der: seq<byte>) {
    ModulusBits(der).Some? && ModulusBits(der).value >= MIN_MODULUS_BITS
  }

  /** A key in whatever definite length forms: a SEQUENCE that starts with the INTEGER of
      those content octets; `exponent` is the rest of the SEQUENCE. */
  predicate KeyLayout(der: seq<byte>, outerField: seq<byte>, innerField: seq<byte>, modulus: seq<byte>,
                      exponent: seq<byte>, trailing: seq<byte>)
  {
    var content := [0x02] + (innerField + (modulus + exponent));
    && EncodesLength(innerField, |modulus|)
    && EncodesLength(outerField, |content|) && der == [0x30] + (outerField + (content + trailing))
  }

  lemma LayoutGivesModulus(der: seq<byte>, outerField: seq<byte>, innerField: seq<byte>, modulus: seq<byte>,
                           exponent: seq<byte>, trailing: seq<byte>)
    requires KeyLayout(der, outerField, innerField, modulus, exponent, trailing)
    ensures ModulusOctets(der) == Some(modulus)
  {
    var content := [0x02] + (innerField + (modulus + exponent));
    PeelExactly(der, 0x30, content, trailing);
    PeelExactly(content, 0x02, modulus, exponent);
  }

  lemma ModulusGivesLayout(der: seq<byte>, modulus: seq<byte>)
    requires ModulusOctets(der) == Some(modulus)
    ensures exists outerField, innerField, exponent, trailing ::
              KeyLayout(der, outerField, innerField, modulus, exponent, trailing)
  {
    var outer := PeelTlv(der, 0x30).value;
    var inner := PeelTlv(outer.0, 0x02).value;
    PeelExactly(der, 0x30, outer.0, outer.1);
    PeelExactly(outer.0, 0x02, inner.0, inner.1);
    var outerField :| EncodesLength(outerField, |outer.0|) && der == [0x30] + (outerField + (outer.0 + outer.1));
    var innerField :| EncodesLength(innerField, |inner.0|) && outer.0 == [0x02] + (innerField + (inner.0 + inner.1));
    assert KeyLayout(der, outerField, innerField, modulus, inner.1, outer.1);
  }

  lemma LintOfModulus(der: seq<byte>)
    ensures LintPasses(der) <==> ModulusOctets(der).Some? && Value(ModulusOctets(der).value) >= Pow2(2047)
  {
    if ModulusOctets(der).Some? {
      BitLengthAtMost(Value(ModulusOctets(der).value), 2047);
    }
  }

  /** For a key whose encoding is well formed, in whatever definite length forms and with
      whatever zero padding of the modulus, the lint compares the number itself. */
  lemma {:induction false} LintIsNumeric(der: seq<byte>, outerField: seq<byte>, innerField: seq<byte>,
                                         modulus: seq<byte>, exponent: seq<byte>, trailing: seq<byte>)
    requires KeyLayout(der, outerField, innerField, modulus, exponent, trailing)
    ensures ModulusOctets(der) == Some(modulus)
    ensures LintPasses(der) <==> Value(modulus) >= Pow2(2047)
  {
    LayoutGivesModulus(der, outerField, innerField, modulus, exponent, trailing);
    LintOfModulus(der);
  }

  /** Only such keys pass. */
  lemma PassingKeyIsWellFormed(der: seq<byte>)
    requires LintPasses(der)
    ensures exists outerField, innerField, modulus, exponent, trailing ::
              && KeyLayout(der, outerField, innerField, modulus, exponent, trailing)
              && Value(modulus) >= Pow2(2047)
  {
    LintOfModulus(der);
    ModulusGivesLayout(der, ModulusOctets(der).value);
  }
}
