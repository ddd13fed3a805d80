/** Exactly which texts the timestamp reader accepts (pkix-ct/src/log_list.rs,
    `parse_rfc3339_to_unix_ms`), and what they denote. */
module TimestampForms {
  import opened Bytes
  import opened Calendar
  import opened CtErrors
  import opened Outcomes
  import opened Timestamp

  /** The octets of `0` to `9`. */
  predicate AllDigits(s: seq<byte>) {
    forall i :: 0 <= i < |s| ==> 0x30 <= s[i] <= 0x39
  }

  /** The number that digits write. */
  function Number(s: seq<byte>): nat
    requires AllDigits(s)
  {
    if s == [] then 0 else Number(s[..|s| - 1]) * 10 + (s[|s| - 1] - 0x30)
  }

  lemma {:induction false} NumberBound(s: seq<byte>)
    requires AllDigits(s)
    ensures Number(s) < Power10(|s|)
  {
    if s == [] {
    } else {
      NumberBound(s[..|s| - 1]);
    }
  }

  /** Digits are read as their number when it fits 32 bits; anything else is refused. */
  lemma {:induction false} DigitsAreRead(s: seq<byte>)
    ensures DecimalValue(s)
            == if AllDigits(s) && Number(s) <= 0xFFFF_FFFF then Ok(Number(s)) else Err(ParseError)
  {
    if s == [] {
    } else {
      var init, last := s[..|s| - 1], s[|s| - 1];
      assert s == init + [last];
      DigitsAreRead(init);
      assert AllDigits(s) <==> AllDigits(init) && 0x30 <= last <= 0x39;
    }
  }

  lemma {:induction false} FieldIsRead(s: seq<byte>)
    requires |s| <= 4
    ensures DecimalValue(s) == if AllDigits(s) then Ok(Number(s)) else Err(ParseError)
  {
    DigitsAreRead(s);
    if AllDigits(s) {
      NumberBound(s);
      SmallPower(|s|);
    }
  }

  lemma {:induction false} SmallPower(width: nat)
    requires width <= 4
    ensures Power10(width) <= 10000
  {
    assert Power10(2) == 100;
  }

  // ----- what follows the seconds -----

  /** The characters of the fraction in a tail that starts with a dot. */
  function Fraction(tail: seq<byte>): seq<byte>
    requires |tail| >= 2
  {
    tail[1..|tail| - 1]
  }

  /** The part of a fraction that counts. */
  function FirstThree(fraction: seq<byte>): seq<byte> {
    if |fraction| <= 3 then fraction else fraction[..3]
  }

  /** The milliseconds of one to three digits after the dot. */
  function Thousandths(digits: seq<byte>): nat
    requires AllDigits(digits)
  {
    if |digits| == 1 then Number(digits) * 100
    else if |digits| == 2 then Number(digits) * 10
    else Number(digits)
  }

  /** Between a `Z` and the final `Z` anything may stand; after a dot there are one to six
      characters, of which the first three are digits. */
  predicate TailFits(tail: seq<byte>) {
    && tail != [] && tail[|tail| - 1] == 0x5A
    && (|| tail[0] == 0x5A
        || (&& tail[0] == 0x2E && |tail| >= 2
            && 1 <= |Fraction(tail)| <= 6 && AllDigits(FirstThree(Fraction(tail)))))
  }

  function TailValue(tail: seq<byte>): nat
    requires TailFits(tail)
  {
    if tail[0] == 0x5A then 0 else Thousandths(FirstThree(Fraction(tail)))
  }

  lemma {:induction false} PushZero(s: seq<byte>)
    ensures AllDigits(s + [0x30]) <==> AllDigits(s)
    ensures AllDigits(s) ==> Number(s + [0x30]) == 10 * Number(s)
  {
    assert (s + [0x30])[..|s|] == s;
    if AllDigits(s + [0x30]) {
      forall i | 0 <= i < |s| ensures 0x30 <= s[i] <= 0x39 {
        assert (s + [0x30])[i] == s[i];
      }
    }
  }

  /** Filling up with zeros on the right multiplies. */
  lemma PaddedNumber(fraction: seq<byte>)
    requires fraction != []
    ensures AllDigits(Milliseconds(fraction)) <==> AllDigits(FirstThree(fraction))
    ensures AllDigits(FirstThree(fraction)) ==> Number(Milliseconds(fraction)) == Thousandths(FirstThree(fraction))
  {
    if |fraction| == 1 {
      PushZero(fraction);
      PushZero(fraction + [0x30]);
      assert Milliseconds(fraction) == fraction + [0x30] + [0x30];
    } else if |fraction| == 2 {
      PushZero(fraction);
      assert Milliseconds(fraction) == fraction + [0x30];
    } else {
      assert Milliseconds(fraction) == FirstThree(fraction);
    }
  }

  lemma FractionIsRead(fraction: seq<byte>)
    requires fraction != []
    ensures DecimalValue(Milliseconds(fraction))
            == if AllDigits(FirstThree(fraction)) then Ok(Thousandths(FirstThree(fraction))) else Err(ParseError)
  {
    PaddedNumber(fraction);
    FieldIsRead(Milliseconds(fraction));
  }

  lemma TailIsRead(s: seq<byte>, tail: seq<byte>)
    requires |s| >= 20 && s[19..] == tail && s[|s| - 1] == 0x5A
    ensures FractionOf(s) == if TailFits(tail) then Ok(TailValue(tail)) else Err(ParseError)
  {
    assert tail[0] == s[19] && tail[|tail| - 1] == s[|s| - 1];
    if |s| >= 21 {
      assert s[20..|s| - 1] == Fraction(tail);
      if Fraction(tail) != [] {
        FractionIsRead(Fraction(tail));
      }
    }
  }

  lemma {:induction false} DropDigit(s: seq<byte>)
    requires AllDigits(s) && s != []
    ensures AllDigits(s[..|s| - 1]) && Number(s[..|s| - 1]) == Number(s) / 10
  {
  }

  /** Dropping up to three digits from the end divides. */
  lemma {:induction false} DropDigits(s: seq<byte>)
    requires AllDigits(s) && 3 < |s| <= 6
    ensures AllDigits(s[..3])
    ensures Number(s[..3]) == Number(s) / (if |s| == 4 then 10 else if |s| == 5 then 100 else 1000)
  {
    DropDigit(s);
    if |s| > 4 {
      var t := s[..|s| - 1];
      DropDigit(t);
      assert t[..|t| - 1] == s[..|s| - 2];
      if |s| > 5 {
        var u := s[..|s| - 2];
        DropDigit(u);
        assert u[..|u| - 1] == s[..3];
      }
    }
  }

  lemma {:induction false} PowersToSix(n: nat)
    ensures n == 1 ==> Power10(n) == 10
    ensures n == 2 ==> Power10(n) == 100
    ensures n == 3 ==> Power10(n) == 1000
    ensures n == 4 ==> Power10(n) == 10000
    ensures n == 5 ==> Power10(n) == 100000
    ensures n == 6 ==> Power10(n) == 1000000
  {
    assert Power10(3) == 1000;
  }

  lemma Cancel(x: nat)
    ensures x * 1000 / 10 == x * 100 && x * 1000 / 100 == x * 10 && x * 1000 / 1000 == x
    ensures x * 1000 / 10000 == x / 10 && x * 1000 / 100000 == x / 100 && x * 1000 / 1000000 == x / 1000
  {
  }

  /** Digits after the dot, one to six of them, are thousandths rounded down. */
  lemma {:induction false} ThousandthsRoundDown(digits: seq<byte>)
    requires AllDigits(digits) && 1 <= |digits| <= 6
    ensures AllDigits(FirstThree(digits))
    ensures Thousandths(FirstThree(digits)) == Number(digits) * 1000 / Power10(|digits|)
  {
    PowersToSix(|digits|);
    Cancel(Number(digits));
    if |digits| > 3 {
      DropDigits(digits);
    }
  }

  // ----- the whole text -----

  /** The seconds from the epoch that the fields stand for; a day past the end of its
      month runs on, and so do hours, minutes and seconds past their ranges. */
  function SecondsOf(l: Layout): int
    requires FieldsFit(l)
  {
    (DayNumber(Date(Number(l.year), Number(l.month), 1)) + Number(l.day) - 1) * 86400
    + Number(l.hour) * 3600 + Number(l.minute) * 60 + Number(l.second)
  }

  predicate FieldsFit(l: Layout) {
    && l.Shaped()
    && AllDigits(l.year) && AllDigits(l.month) && AllDigits(l.day)
    && AllDigits(l.hour) && AllDigits(l.minute) && AllDigits(l.second)
  }

  /** The texts of this layout denote `v`. */
  predicate Denotes(l: Layout, v: int) {
    && FieldsFit(l) && TailFits(l.tail)
    && 1 <= Number(l.month) <= 12 && 1 <= Number(l.day) <= 31
    && SecondsOf(l) >= 0
    && v == SecondsOf(l) * 1000 + TailValue(l.tail)
  }

  /** The layout of a text that is long enough. */
  function LayoutFrom(s: seq<byte>): (l: Layout)
    requires |s| >= 20
    ensures l.Shaped()
  {
    Layout(s[0..4], s[5..7], s[8..10], s[11..13], s[14..16], s[17..19], (s[4], s[7], s[13], s[16]), s[19..])
  }

  lemma Cut(s: seq<byte>, from: nat, to: nat)
    requires from <= to <= |s|
    ensures s[from..] == s[from..to] + s[to..]
  {
  }

  lemma CutOctet(s: seq<byte>, at: nat)
    requires at < |s|
    ensures s[at..] == [s[at]] + s[at + 1..]
  {
  }

  lemma RenderBack(s: seq<byte>)
    requires |s| >= 20 && s[10] == 0x54
    ensures Render(LayoutFrom(s)) == s
  {
    assert s[0..] == s;
    Cut(s, 0, 4);
    CutOctet(s, 4);
    Cut(s, 5, 7);
    CutOctet(s, 7);
    Cut(s, 8, 10);
    CutOctet(s, 10);
    Cut(s, 11, 13);
    CutOctet(s, 13);
    Cut(s, 14, 16);
    CutOctet(s, 16);
    Cut(s, 17, 19);
  }

  /** Reading by the fields of the text. */
  lemma ReadByFields(s: seq<byte>, l: Layout, v: int)
    requires |s| >= 20 && s[10] == 0x54 && s[|s| - 1] == 0x5A
    requires l.Shaped()
    requires s[0..4] == l.year && s[5..7] == l.month && s[8..10] == l.day
    requires s[11..13] == l.hour && s[14..16] == l.minute && s[17..19] == l.second && s[19..] == l.tail
    ensures TimestampValue(s) == Ok(v)
            <==> && FieldsFit(l) && TailFits(l.tail)
                 && Combine(Number(l.year), Number(l.month), Number(l.day), Number(l.hour), Number(l.minute),
                            Number(l.second), TailValue(l.tail)) == Ok(v)
  {
    FieldIsRead(l.year);
    FieldIsRead(l.month);
    FieldIsRead(l.day);
    FieldIsRead(l.hour);
    FieldIsRead(l.minute);
    FieldIsRead(l.second);
    TailIsRead(s, l.tail);
  }

  lemma CombinedValue(l: Layout, v: int)
    requires FieldsFit(l) && TailFits(l.tail)
    ensures Combine(Number(l.year), Number(l.month), Number(l.day), Number(l.hour), Number(l.minute),
                    Number(l.second), TailValue(l.tail)) == Ok(v)
            <==> Denotes(l, v)
  {
    DaysFromCivilCounts(Number(l.year), Number(l.month), Number(l.day));
  }

  lemma LayoutIsRead(l: Layout, v: int)
    requires l.Shaped() && l.tail != [] && l.tail[|l.tail| - 1] == 0x5A
    ensures TimestampValue(Render(l)) == Ok(v) <==> Denotes(l, v)
  {
    var s := Render(l);
    FieldsOfLayout(l);
    assert s[|s| - 1] == s[19..][|l.tail| - 1];
    ReadByFields(s, l, v);
    if FieldsFit(l) && TailFits(l.tail) {
      CombinedValue(l, v);
    }
  }

  /** The accepted texts and their meaning, in both directions.  The reader looks neither
      at the octets between the fields, other than the `T`, nor at those between two
      `Z`s, nor at a fraction past its third character. */
  lemma TimestampExactly(s: seq<byte>, v: int)
    ensures TimestampValue(s) == Ok(v) <==> exists l :: Denotes(l, v) && s == Render(l)
  {
    if TimestampValue(s) == Ok(v) {
      var l := LayoutFrom(s);
      RenderBack(s);
      assert l.tail[|l.tail| - 1] == s[|s| - 1];
      LayoutIsRead(l, v);
    }
    forall l | Denotes(l, v) && s == Render(l) ensures TimestampValue(s) == Ok(v) {
      LayoutIsRead(l, v);
    }
  }

  /** Every refusal is the same error. */
  lemma RefusalsAreParseErrors(s: seq<byte>)
    ensures TimestampValue(s).Err? ==> TimestampValue(s) == Err(ParseError)
  {
    if |s| >= 20 {
      DigitsAreRead(s[0..4]);
      DigitsAreRead(s[5..7]);
      DigitsAreRead(s[8..10]);
      DigitsAreRead(s[11..13]);
      DigitsAreRead(s[14..16]);
      DigitsAreRead(s[17..19]);
      if s[|s| - 1] == 0x5A {
        TailIsRead(s, s[19..]);
      }
    }
  }

  /** One to six digits after the dot are the moment's fraction of a second, rounded down
      to the millisecond. */
  lemma {:induction false} FractionRoundsDown(l: Layout, digits: seq<byte>, v: int)
    requires FieldsFit(l) && AllDigits(digits) && 1 <= |digits| <= 6
    requires l.tail == [0x2E] + digits + [0x5A]
    requires 1 <= Number(l.month) <= 12 && 1 <= Number(l.day) <= 31
    ensures TimestampValue(Render(l)) == Ok(v)
            <==> SecondsOf(l) >= 0 && v == SecondsOf(l) * 1000 + Number(digits) * 1000 / Power10(|digits|)
  {
    assert Fraction(l.tail) == digits;
    ThousandthsRoundDown(digits);
    LayoutIsRead(l, v);
  }
}
