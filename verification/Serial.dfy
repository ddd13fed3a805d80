/** Ordering of certificate serial numbers (pkix-lint/src/deviation.rs,
    `serial_cmp` and `strip_leading_zeros`). */
module Serial {
  import opened Bytes

  datatype Ordering = Less | Equal | Greater {
    predicate IsGe() { !Less? }
    predicate IsLe() { !Greater? }
  }

  function CompareInts(a: int, b: int): Ordering {
    if a < b then Less else if a == b then Equal else Greater
  }

  /** Dictionary order of octet strings. */
  function CompareTexts(a: seq<byte>, b: seq<byte>): Ordering {
    if a == [] && b == [] then Equal
    else if a == [] then Less
    else if b == [] then Greater
    else if a[0] != b[0] then CompareInts(a[0], b[0])
    else CompareTexts(a[1..], b[1..])
  }

  function StripLeadingZeros(s: seq<byte>): (t: seq<byte>)
    ensures t != [] ==> t[0] != 0
    ensures Value(t) == Value(s)
  {
    if s != [] && s[0] == 0 then
      ValueOfConcat([0], s[1..]);
      assert s == [0] + s[1..];
      StripLeadingZeros(s[1..])
    else
      s
  }

  /** `serial_cmp`: the longer is greater, equal lengths compare as texts. */
  function SerialCmp(a: seq<byte>, b: seq<byte>): Ordering {
    var a', b' := StripLeadingZeros(a), StripLeadingZeros(b);
    if |a'| != |b'| then CompareInts(|a'|, |b'|) else CompareTexts(a', b')
  }

  lemma {:induction false} ValueByFirst(s: seq<byte>)
    requires s != []
    ensures Value(s) == s[0] * Capacity(|s| - 1) + Value(s[1..])
  {
    assert s == [s[0]] + s[1..];
    ValueOfConcat([s[0]], s[1..]);
    assert [s[0]][..0] == [];
    assert Value([s[0]]) == s[0];
  }

  lemma ScaledOrder(x: nat, y: nat, c: nat, v: nat)
    requires x < y && v < c
    ensures x * c + v < y * c
  {
    assert (x + 1) * c <= y * c;
  }

  /** Of equally long strings, text order is numeric order. */
  lemma {:induction false} TextOrderIsNumeric(a: seq<byte>, b: seq<byte>)
    requires |a| == |b|
    ensures CompareTexts(a, b) == CompareInts(Value(a), Value(b))
  {
    if a == [] {
    } else {
      ValueByFirst(a);
      ValueByFirst(b);
      ValueBound(a[1..]);
      ValueBound(b[1..]);
      if a[0] < b[0] {
        ScaledOrder(a[0], b[0], Capacity(|a| - 1), Value(a[1..]));
      } else if b[0] < a[0] {
        ScaledOrder(b[0], a[0], Capacity(|a| - 1), Value(b[1..]));
      } else {
        TextOrderIsNumeric(a[1..], b[1..]);
      }
    }
  }

  lemma AtLeastOnce(x: nat, c: nat)
    requires x >= 1
    ensures x * c >= c
  {
    assert x * c == (x - 1) * c + c;
  }

  /** Without leading zeros, the shorter number is the smaller. */
  lemma {:induction false} ShorterIsSmaller(a: seq<byte>, b: seq<byte>)
    requires |a| < |b| && b[0] != 0
    ensures Value(a) < Value(b)
  {
    ValueBound(a);
    CapacityMonotone(|a|, |b| - 1);
    ValueByFirst(b);
    AtLeastOnce(b[0], Capacity(|b| - 1));
  }

  /** On any two octet strings, however padded, the comparison is that of the numbers. */
  lemma {:induction false} SerialOrderIsNumeric(a: seq<byte>, b: seq<byte>)
    ensures SerialCmp(a, b) == CompareInts(Value(a), Value(b))
    ensures SerialCmp(a, b).IsLe() <==> Value(a) <= Value(b)
    ensures SerialCmp(a, b).IsGe() <==> Value(a) >= Value(b)
  {
    var a', b' := StripLeadingZeros(a), StripLeadingZeros(b);
    if |a'| < |b'| {
      ShorterIsSmaller(a', b');
    } else if |b'| < |a'| {
      ShorterIsSmaller(b', a');
    } else {
      TextOrderIsNumeric(a', b');
    }
  }
}
