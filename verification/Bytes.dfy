/** Octets, the unsigned machine integers of the Rust sources, and the
    network-order (big-endian) encoding that every wire format here uses. */
module Bytes {
  type byte = x: int | 0 <= x < 0x100
  type u16 = x: int | 0 <= x < 0x1_0000
  type u32 = x: int | 0 <= x < 0x1_0000_0000
  type u64 = x: int | 0 <= x < 0x1_0000_0000_0000_0000

  /** 256 to the power of `width`: how many values fit in `width` octets. */
  function Capacity(width: nat): (c: nat)
    ensures c >= 1
  {
    if width == 0 then 1 else 256 * Capacity(width - 1)
  }

  lemma {:induction false} CapacityMonotone(m: nat, n: nat)
    requires m <= n
    ensures Capacity(m) <= Capacity(n)
    decreases n
  {
    if m >= n {
    } else {
      CapacityMonotone(m, n - 1);
    }
  }

  /** The `width` low-order octets of `n`, most significant first. */
  function BigEndian(n: nat, width: nat): (s: seq<byte>)
    ensures |s| == width
  {
    if width == 0 then [] else BigEndian(n / 256, width - 1) + [n % 256]
  }

  /** The unsigned number that `s` denotes, most significant octet first. */
  function Value(s: seq<byte>): nat {
    if s == [] then 0 else 256 * Value(s[..|s| - 1]) + s[|s| - 1]
  }

  /** Two and three octets, most significant first. */
  lemma ValueOfFew(a: byte, b: byte, c: byte)
    ensures Value([a]) == a
    ensures Value([a, b]) == 0x100 * a + b
    ensures Value([a, b, c]) == 0x1_0000 * a + 0x100 * b + c
  {
    assert [a][..0] == [] && [a, b][..1] == [a] && [a, b, c][..2] == [a, b];
  }

  lemma {:induction false} ValueBound(s: seq<byte>)
    ensures Value(s) < Capacity(|s|)
  {
    if s == [] {
    } else {
      ValueBound(s[..|s| - 1]);
    }
  }

  /** Decoding undoes encoding for every number that fits. */
  lemma {:induction false} ValueOfBigEndian(n: nat, width: nat)
    requires n < Capacity(width)
    ensures Value(BigEndian(n, width)) == n
  {
    if width == 0 {
    } else {
      ValueOfBigEndian(n / 256, width - 1);
      var s := BigEndian(n, width);
      assert s[..|s| - 1] == BigEndian(n / 256, width - 1);
    }
  }

  /** Encoding undoes decoding for every octet string. */
  lemma {:induction false} BigEndianOfValue(s: seq<byte>)
    ensures BigEndian(Value(s), |s|) == s
  {
    if s == [] {
    } else {
      BigEndianOfValue(s[..|s| - 1]);
      assert s == s[..|s| - 1] + [s[|s| - 1]];
    }
  }

  /** Two numbers that fit in `width` octets and encode alike are equal. */
  lemma {:induction false} BigEndianInjective(m: nat, n: nat, width: nat)
    requires m < Capacity(width) && n < Capacity(width)
    requires BigEndian(m, width) == BigEndian(n, width)
    ensures m == n
  {
    ValueOfBigEndian(m, width);
    ValueOfBigEndian(n, width);
  }

  /** A decoded value splits at any octet boundary. */
  lemma {:induction false} ValueOfConcat(a: seq<byte>, b: seq<byte>)
    ensures Value(a + b) == Value(a) * Capacity(|b|) + Value(b)
  {
    if b == [] {
      assert a + b == a;
    } else {
      var b' := b[..|b| - 1];
      ValueOfConcat(a, b');
      assert (a + b)[..|a + b| - 1] == a + b';
      ScaleSum(Value(a), Capacity(|b'|), Value(b'));
    }
  }

  lemma ScaleSum(a: nat, c: nat, v: nat)
    ensures 256 * (a * c + v) == a * (256 * c) + 256 * v
  {
  }

  // ----- octet strings put together and taken apart -----

  lemma Associates(a: seq<byte>, b: seq<byte>, c: seq<byte>)
    ensures (a + b) + c == a + (b + c)
  {
  }

  /** One field of a layout, found at its offset. */
  lemma FieldAt(buf: seq<byte>, off: nat, field: seq<byte>, rest: seq<byte>)
    requires off <= |buf| && buf[off..] == field + rest
    ensures var end := off + |field|;
            end <= |buf| && buf[off..end] == field && buf[end..] == rest
  {
    var end := off + |field|;
    assert buf[off..][..|field|] == field && buf[off..][|field|..] == rest;
    assert buf[off..end] == buf[off..][..|field|];
    assert buf[end..] == buf[off..][|field|..];
  }
}
