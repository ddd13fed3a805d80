/** RFC 3339 timestamps of the log list (pkix-ct/src/log_list.rs,
    `parse_rfc3339_to_unix_ms` and `parse_digits`). */
module Timestamp {
  import opened Bytes
  import opened Calendar
  import opened CtErrors
  import opened Outcomes

  const ZERO: byte := 0x30
  const NINE: byte := 0x39
  const DASH: byte := 0x2D
  const DOT: byte := 0x2E
  const COLON: byte := 0x3A
  const LETTER_T: byte := 0x54
  const LETTER_Z: byte := 0x5A

  const MAX_U32 := 0xFFFF_FFFF

  predicate IsDigit(b: byte) {
    ZERO <= b <= NINE
  }

  /** The decimal number that `s` writes; an error for any other character and for
      a number that does not fit 32 bits. */
  function DecimalValue(s: seq<byte>): CtResult<u32> {
    if s == [] then
      Ok(0)
    else
      var high :- DecimalValue(s[..|s| - 1]);
      var last := s[|s| - 1];
      if IsDigit(last) && high * 10 + (last - ZERO) <= MAX_U32 then
        var n: int := high * 10 + (last - ZERO);
        Ok(n)
      else
        Err(ParseError)
  }

  lemma {:induction false} BadPrefix(s: seq<byte>, i: nat)
    requires i <= |s| && DecimalValue(s[..i]).Err?
    ensures DecimalValue(s) == Err(ParseError)
    decreases |s|
  {
    if i == |s| {
      assert s[..i] == s;
      var high := s[..|s| - 1];
      if DecimalValue(high).Err? {
        assert high[..|high|] == high;
        BadPrefix(high, |high|);
      }
    } else {
      assert s[..|s| - 1][..i] == s[..i];
      BadPrefix(s[..|s| - 1], i);
    }
  }

  method ParseDigits(bytes: seq<byte>) returns (r: CtResult<u32>)
    ensures r == DecimalValue(bytes)
  {
    var out: int := 0;
    for i := 0 to |bytes|
      invariant 0 <= out <= MAX_U32 && DecimalValue(bytes[..i]) == Ok(out)
    {
      var b := bytes[i];
      assert bytes[..i + 1][..i] == bytes[..i];
      if !IsDigit(b) {
        BadPrefix(bytes, i + 1);
        return Err(ParseError);
      }
      if out * 10 > MAX_U32 || out * 10 + (b - ZERO) > MAX_U32 {
        BadPrefix(bytes, i + 1);
        return Err(ParseError);
      }
      out := out * 10 + (b - ZERO);
    }
    assert bytes[..|bytes|] == bytes;
    return Ok(out);
  }

  // ----- the reader -----

  /** The first three of the fraction's characters, filled up with zeros. */
  function Milliseconds(fraction: seq<byte>): (padded: seq<byte>)
    ensures |padded| == 3
  {
    if |fraction| >= 3 then fraction[..3] else fraction + seq(3 - |fraction|, _ => ZERO)
  }

  /** The fraction, if any, between the seconds and the final `Z`. */
  function FractionOf(s: seq<byte>): CtResult<u32>
    requires |s| >= 20
  {
    if s[19] == DOT && |s| >= 21 then
      var fraction := s[20..|s| - 1];
      if fraction == [] || |fraction| > 6 then Err(ParseError) else DecimalValue(Milliseconds(fraction))
    else if s[19] == LETTER_Z then
      Ok(0)
    else
      Err(ParseError)
  }

  /** The moment a timestamp text denotes, in milliseconds since the epoch. */
  function TimestampValue(s: seq<byte>): CtResult<int> {
    if |s| < 20 || s[10] != LETTER_T || s[|s| - 1] != LETTER_Z then
      Err(ParseError)
    else
      var year :- DecimalValue(s[0..4]);
      var month :- DecimalValue(s[5..7]);
      var day :- DecimalValue(s[8..10]);
      var hour :- DecimalValue(s[11..13]);
      var min :- DecimalValue(s[14..16]);
      var sec :- DecimalValue(s[17..19]);
      var ms :- FractionOf(s);
      Combine(year, month, day, hour, min, sec, ms)
  }

  /** The moment that seven numbers stand for; only the date is range-checked. */
  function Combine(year: int, month: nat, day: nat, hour: nat, min: nat, sec: nat, ms: nat): CtResult<int> {
    var days :- DaysFromCivil(year, month, day);
    var secs := days * 86400 + hour * 3600 + min * 60 + sec;
    if secs < 0 then Err(ParseError) else Ok(secs * 1000 + ms)
  }

  /** The three-octet buffer that the reader fills with the fraction. */
  method PadFraction(fracStr: seq<byte>) returns (padding: seq<byte>)
    ensures padding == Milliseconds(fracStr)
  {
    var padded := new byte[3](_ => ZERO);
    var i := 0;
    while i < 3 && i < |fracStr|
      invariant i <= 3 && i <= |fracStr|
      invariant forall j :: 0 <= j < i ==> padded[j] == fracStr[j]
      invariant forall j :: i <= j < 3 ==> padded[j] == ZERO
    {
      padded[i] := fracStr[i];
      i := i + 1;
    }
    return padded[..];
  }

  method ParseRfc3339ToUnixMs(s: seq<byte>) returns (r: CtResult<int>)
    ensures r == TimestampValue(s)
  {
    if |s| < 20 || s[10] != LETTER_T || s[|s| - 1] != LETTER_Z {
      return Err(ParseError);
    }
    var year :- ParseDigits(s[0..4]);
    var month :- ParseDigits(s[5..7]);
    var day :- ParseDigits(s[8..10]);
    var hour :- ParseDigits(s[11..13]);
    var min :- ParseDigits(s[14..16]);
    var sec :- ParseDigits(s[17..19]);

    var fracMs := 0;
    if s[19] == DOT {
      var fracStr := s[20..|s| - 1];
      if |fracStr| == 0 || |fracStr| > 6 {
        return Err(ParseError);
      }
      var padded := PadFraction(fracStr);
      fracMs :- ParseDigits(padded);
    } else if s[19] != LETTER_Z {
      return Err(ParseError);
    }

    return Combine(year, month, day, hour, min, sec, fracMs);
  }

  // ----- the writer -----

  function Power10(n: nat): (p: nat)
    ensures p >= 1
  {
    if n == 0 then 1 else 10 * Power10(n - 1)
  }

  /** `n` as `width` decimal digits. */
  function Decimal(n: nat, width: nat): (s: seq<byte>)
    ensures |s| == width
    ensures forall i :: 0 <= i < width ==> IsDigit(s[i])
  {
    if width == 0 then [] else Decimal(n / 10, width - 1) + [ZERO + n % 10]
  }

  /** The last millisecond of the year 9999. */
  const LAST_MS := 253402300799999

  const MS_PER_DAY := 86400000

  /** A moment taken apart: date, hour, minute, second, millisecond. */
  datatype Moment = Moment(date: Date, hour: nat, minute: nat, second: nat, ms: nat)

  function MomentOf(t: nat): Moment {
    var inDay := t % MS_PER_DAY;
    Moment(DateOf(t / MS_PER_DAY), inDay / 3600000, inDay / 60000 % 60, inDay / 1000 % 60, inDay % 1000)
  }

  predicate ValidMoment(m: Moment) {
    && ValidDate(m.date) && 0 <= m.date.year <= 9999
    && m.hour < 24 && m.minute < 60 && m.second < 60 && m.ms < 1000
  }

  /** The second, counted from the epoch, in which `m` lies. */
  function SecondOf(m: Moment): int {
    DayNumber(m.date) * 86400 + m.hour * 3600 + m.minute * 60 + m.second
  }

  /** The millisecond that `m` stands for. */
  function MillisecondOf(m: Moment): int {
    SecondOf(m) * 1000 + m.ms
  }

  /** What reading the text of `m` with `ms` milliseconds must give: times before the
      epoch are refused. */
  function Reading(m: Moment, ms: nat): CtResult<int> {
    if SecondOf(m) < 0 then Err(ParseError) else Ok(SecondOf(m) * 1000 + ms)
  }

  /** The stretches of a timestamp text: six fields, the four octets between them that
      are not the `T`, and what follows the seconds. */
  datatype Layout = Layout(
    year: seq<byte>, month: seq<byte>, day: seq<byte>, hour: seq<byte>, minute: seq<byte>, second: seq<byte>,
    marks: (byte, byte, byte, byte), tail: seq<byte>)
  {
    predicate Shaped() {
      && |year| == 4 && |month| == 2 && |day| == 2
      && |hour| == 2 && |minute| == 2 && |second| == 2
    }
  }

  function RenderClock(l: Layout): seq<byte> {
    l.hour + ([l.marks.2] + (l.minute + ([l.marks.3] + (l.second + l.tail))))
  }

  function Render(l: Layout): seq<byte> {
    l.year + ([l.marks.0] + (l.month + ([l.marks.1] + (l.day + ([0x54] + RenderClock(l))))))
  }

  function LayoutOf(m: Moment, tail: seq<byte>): (l: Layout)
    requires ValidMoment(m)
    ensures l.Shaped()
  {
    Layout(Decimal(m.date.year, 4), Decimal(m.date.month, 2), Decimal(m.date.day, 2),
           Decimal(m.hour, 2), Decimal(m.minute, 2), Decimal(m.second, 2), (DASH, DASH, COLON, COLON), tail)
  }

  /** `YYYY-MM-DDTHH:MM:SS` and then `tail`. */
  function FormatSeconds(m: Moment, tail: seq<byte>): seq<byte>
    requires ValidMoment(m)
  {
    Render(LayoutOf(m, tail))
  }

  /** `YYYY-MM-DDTHH:MM:SS.fffZ` */
  function Format(m: Moment): seq<byte>
    requires ValidMoment(m)
  {
    FormatSeconds(m, [DOT] + (Decimal(m.ms, 3) + [LETTER_Z]))
  }

  // ----- round trip -----

  lemma {:induction false} DecimalRoundTrip(n: nat, width: nat)
    requires n < Power10(width) && n <= MAX_U32
    ensures DecimalValue(Decimal(n, width)) == Ok(n)
  {
    if width == 0 {
    } else {
      DecimalRoundTrip(n / 10, width - 1);
      assert Decimal(n, width)[..width - 1] == Decimal(n / 10, width - 1);
    }
  }

  lemma {:induction false} FieldParses(n: nat, width: nat, limit: nat)
    requires (width == 2 && limit == 100) || (width == 3 && limit == 1000) || (width == 4 && limit == 10000)
    requires n < limit
    ensures DecimalValue(Decimal(n, width)) == Ok(n)
  {
    PowerOfWidth(width);
    DecimalRoundTrip(n, width);
  }

  lemma {:induction false} PowerOfWidth(width: nat)
    ensures width == 2 ==> Power10(width) == 100
    ensures width == 3 ==> Power10(width) == 1000
    ensures width == 4 ==> Power10(width) == 10000
  {
    assert Power10(2) == 100;
  }

  lemma ClockOfLayout(s: seq<byte>, l: Layout)
    requires l.Shaped() && |s| >= 11 && s[11..] == RenderClock(l)
    ensures |s| == 19 + |l.tail|
    ensures s[11..13] == l.hour && s[14..16] == l.minute && s[17..19] == l.second && s[19..] == l.tail
  {
    var r17 := l.second + l.tail;
    var r14 := l.minute + ([l.marks.3] + r17);
    FieldAt(s, 11, l.hour, [l.marks.2] + r14);
    FieldAt(s, 13, [l.marks.2], r14);
    FieldAt(s, 14, l.minute, [l.marks.3] + r17);
    FieldAt(s, 16, [l.marks.3], r17);
    FieldAt(s, 17, l.second, l.tail);
  }

  /** Where the fields of a text are. */
  lemma FieldsOfLayout(l: Layout)
    requires l.Shaped()
    ensures var s := Render(l);
            && |s| == 19 + |l.tail|
            && s[0..4] == l.year && s[5..7] == l.month && s[8..10] == l.day && s[10] == LETTER_T
            && s[11..13] == l.hour && s[14..16] == l.minute && s[17..19] == l.second && s[19..] == l.tail
  {
    ClockOfLayout(Render(l), l);
  }

  lemma FieldsOfFormat(m: Moment, tail: seq<byte>)
    requires ValidMoment(m)
    ensures var s := FormatSeconds(m, tail);
            && |s| == 19 + |tail|
            && s[0..4] == Decimal(m.date.year, 4) && s[5..7] == Decimal(m.date.month, 2)
            && s[8..10] == Decimal(m.date.day, 2) && s[10] == LETTER_T
            && s[11..13] == Decimal(m.hour, 2) && s[14..16] == Decimal(m.minute, 2)
            && s[17..19] == Decimal(m.second, 2) && s[19..] == tail
  {
    FieldsOfLayout(LayoutOf(m, tail));
  }

  lemma FieldsParse(m: Moment)
    requires ValidMoment(m)
    ensures DecimalValue(Decimal(m.date.year, 4)) == Ok(m.date.year)
    ensures DecimalValue(Decimal(m.date.month, 2)) == Ok(m.date.month)
    ensures DecimalValue(Decimal(m.date.day, 2)) == Ok(m.date.day)
    ensures DecimalValue(Decimal(m.hour, 2)) == Ok(m.hour)
    ensures DecimalValue(Decimal(m.minute, 2)) == Ok(m.minute)
    ensures DecimalValue(Decimal(m.second, 2)) == Ok(m.second)
    ensures DecimalValue(Decimal(m.ms, 3)) == Ok(m.ms)
  {
    FieldParses(m.date.year, 4, 10000);
    FieldParses(m.date.month, 2, 100);
    FieldParses(m.date.day, 2, 100);
    FieldParses(m.hour, 2, 100);
    FieldParses(m.minute, 2, 100);
    FieldParses(m.second, 2, 100);
    FieldParses(m.ms, 3, 1000);
  }

  lemma CombineFields(m: Moment, ms: nat)
    requires ValidMoment(m)
    ensures Combine(m.date.year, m.date.month, m.date.day, m.hour, m.minute, m.second, ms)
            == Reading(m, ms)
  {
    DaysFromCivilCounts(m.date.year, m.date.month, m.date.day);
  }

  lemma ReadFields(s: seq<byte>, m: Moment, ms: nat)
    requires |s| >= 20 && s[10] == LETTER_T && s[|s| - 1] == LETTER_Z
    requires DecimalValue(s[0..4]) == Ok(m.date.year) && DecimalValue(s[5..7]) == Ok(m.date.month)
    requires DecimalValue(s[8..10]) == Ok(m.date.day) && DecimalValue(s[11..13]) == Ok(m.hour)
    requires DecimalValue(s[14..16]) == Ok(m.minute) && DecimalValue(s[17..19]) == Ok(m.second)
    requires FractionOf(s) == Ok(ms)
    ensures m.date.month >= 0 && m.date.day >= 0
    ensures TimestampValue(s) == Combine(m.date.year, m.date.month, m.date.day, m.hour, m.minute, m.second, ms)
  {
  }

  /** A well-formed text is read as the moment it writes plus its fraction. */
  lemma ParseFormatted(m: Moment, tail: seq<byte>, ms: u32)
    requires ValidMoment(m)
    requires tail != [] && tail[|tail| - 1] == LETTER_Z
    requires |FormatSeconds(m, tail)| >= 20 && FractionOf(FormatSeconds(m, tail)) == Ok(ms)
    ensures TimestampValue(FormatSeconds(m, tail))
            == Reading(m, ms)
  {
    var s := FormatSeconds(m, tail);
    FieldsOfFormat(m, tail);
    assert s[|s| - 1] == s[19..][|tail| - 1];
    FieldsParse(m);
    ReadFields(s, m, ms);
    CombineFields(m, ms);
  }

  lemma FractionAt(s: seq<byte>, fraction: seq<byte>)
    requires 1 <= |fraction| <= 6 && |s| >= 19 && s[19..] == [DOT] + (fraction + [LETTER_Z])
    ensures |s| >= 20 && FractionOf(s) == DecimalValue(Milliseconds(fraction))
  {
    FieldAt(s, 19, [DOT], fraction + [LETTER_Z]);
    FieldAt(s, 20, fraction, [LETTER_Z]);
  }

  lemma FractionOfFormat(m: Moment, fraction: seq<byte>)
    requires ValidMoment(m) && 1 <= |fraction| <= 6
    ensures var s := FormatSeconds(m, [DOT] + (fraction + [LETTER_Z]));
            |s| >= 20 && FractionOf(s) == DecimalValue(Milliseconds(fraction))
  {
    var tail := [DOT] + (fraction + [LETTER_Z]);
    FractionAt(FormatSeconds(m, tail), fraction);
  }

  lemma {:induction false} ThreeDigits(fraction: seq<byte>, ms: u32)
    requires |fraction| == 3 && DecimalValue(fraction) == Ok(ms)
    ensures DecimalValue(Milliseconds(fraction)) == Ok(ms)
  {
    assert Milliseconds(fraction) == fraction;
  }

  /** A fraction of one to six digits counts by its first three. */
  lemma ParseWithFraction(m: Moment, fraction: seq<byte>, ms: u32)
    requires ValidMoment(m) && 1 <= |fraction| <= 6
    requires DecimalValue(Milliseconds(fraction)) == Ok(ms)
    ensures TimestampValue(FormatSeconds(m, [DOT] + (fraction + [LETTER_Z])))
            == Reading(m, ms)
  {
    var tail := [DOT] + (fraction + [LETTER_Z]);
    FractionOfFormat(m, fraction);
    assert tail[|tail| - 1] == LETTER_Z;
    ParseFormatted(m, tail, ms);
  }

  /** Without a fraction the text denotes a whole second. */
  lemma ParseWholeSecond(m: Moment)
    requires ValidMoment(m)
    ensures TimestampValue(FormatSeconds(m, [LETTER_Z]))
            == Reading(m, 0)
  {
    ParseFormatted(m, [LETTER_Z], 0);
  }

  lemma MomentOfIsValid(t: nat)
    requires t <= LAST_MS
    ensures ValidMoment(MomentOf(t)) && MomentOf(t).date.year >= 1970
    ensures MillisecondOf(MomentOf(t)) == t
  {
    var n, inDay := t / MS_PER_DAY, t % MS_PER_DAY;
    DayNumberOfDateOf(n);
    YearInRange(n);
    ClockIsExact(inDay);
  }

  lemma ClockIsExact(inDay: nat)
    requires inDay < MS_PER_DAY
    ensures inDay / 3600000 < 24
    ensures (inDay / 3600000 * 3600 + inDay / 60000 % 60 * 60 + inDay / 1000 % 60) * 1000 + inDay % 1000 == inDay
  {
    var s := inDay / 1000;
    assert inDay / 60000 == s / 60 && inDay / 3600000 == s / 60 / 60;
  }

  /** The days up to the end of 9999 fall in the years 1970 to 9999. */
  lemma {:induction false} YearInRange(n: nat)
    requires n <= 2932896
    ensures 1970 <= DateOf(n).year <= 9999
  {
    var d := DateOf(n);
    DayNumberOfDateOf(n);
    if d.year > 9999 {
      DayNumberInYear(d);
      DaysToYearClosed(d.year);
      DaysToYearClosed(10000);
      if d.year > 10000 {
        YearsMonotone(10000, d.year);
      }
    } else if d.year < 1970 {
      DayNumberInYear(d);
      YearsMonotone(d.year, 1970);
    }
  }

  lemma {:induction false} ParseMilliseconds(m: Moment, fraction: seq<byte>, ms: u32)
    requires ValidMoment(m)
    requires |fraction| == 3 && DecimalValue(fraction) == Ok(ms)
    ensures TimestampValue(FormatSeconds(m, [DOT] + (fraction + [LETTER_Z]))) == Reading(m, ms)
  {
    ThreeDigits(fraction, ms);
    ParseWithFraction(m, fraction, ms);
  }

  /** A printed moment is read back as its millisecond, or refused when it lies before
      the epoch. */
  lemma FormatRoundTrip(m: Moment)
    requires ValidMoment(m)
    ensures TimestampValue(Format(m)) == Reading(m, m.ms)
  {
    FieldParses(m.ms, 3, 1000);
    ParseMilliseconds(m, Decimal(m.ms, 3), m.ms);
  }

  lemma ReadingOfMoment(t: nat, m: Moment)
    requires t <= LAST_MS && m == MomentOf(t)
    ensures ValidMoment(m) && Reading(m, m.ms) == Ok(t)
  {
    MomentOfIsValid(t);
  }

  lemma ReadBack(m: Moment, value: int)
    requires ValidMoment(m) && Reading(m, m.ms) == Ok(value)
    ensures TimestampValue(Format(m)) == Ok(value)
  {
    FormatRoundTrip(m);
  }

  /** Every millisecond of the years 1970 to 9999, printed, is read back. */
  lemma TimestampRoundTrip(t: nat)
    requires t <= LAST_MS
    ensures ValidMoment(MomentOf(t)) && TimestampValue(Format(MomentOf(t))) == Ok(t)
  {
    ReadingOfMoment(t, MomentOf(t));
    ReadBack(MomentOf(t), t);
  }

  // ----- text order -----

  /** Dictionary order on octet strings. */
  predicate TextLess(a: seq<byte>, b: seq<byte>) {
    b != [] && (a == [] || a[0] < b[0] || (a[0] == b[0] && TextLess(a[1..], b[1..])))
  }

  lemma {:induction false} TextLessEarly(a: seq<byte>, b: seq<byte>, x: seq<byte>, y: seq<byte>)
    requires |a| == |b| && TextLess(a, b)
    ensures TextLess(a + x, b + y)
  {
    if a[0] != b[0] {
    } else {
      TextLessEarly(a[1..], b[1..], x, y);
      assert (a + x)[1..] == a[1..] + x && (b + y)[1..] == b[1..] + y;
    }
  }

  lemma {:induction false} TextLessLate(a: seq<byte>, x: seq<byte>, y: seq<byte>)
    requires TextLess(x, y)
    ensures TextLess(a + x, a + y)
  {
    if a == [] {
      assert a + x == x && a + y == y;
    } else {
      TextLessLate(a[1..], x, y);
      assert (a + x)[1..] == a[1..] + x && (a + y)[1..] == a[1..] + y;
    }
  }

  lemma {:induction false} DecimalOrder(m: nat, n: nat, width: nat)
    requires m < n < Power10(width)
    ensures TextLess(Decimal(m, width), Decimal(n, width))
  {
    if m / 10 < n / 10 {
      DecimalOrder(m / 10, n / 10, width - 1);
      TextLessEarly(Decimal(m / 10, width - 1), Decimal(n / 10, width - 1), [ZERO + m % 10], [ZERO + n % 10]);
    } else {
      TextLessLate(Decimal(m / 10, width - 1), [ZERO + m % 10], [ZERO + n % 10]);
    }
  }

  /** A smaller number, or the same number and a smaller remainder, makes a smaller text. */
  lemma {:induction false} FieldOrder(m: nat, x: seq<byte>, n: nat, y: seq<byte>, width: nat)
    requires m < Power10(width) && n < Power10(width)
    requires m < n || (m == n && TextLess(x, y))
    ensures TextLess(Decimal(m, width) + x, Decimal(n, width) + y)
  {
    if m < n {
      DecimalOrder(m, n, width);
      TextLessEarly(Decimal(m, width), Decimal(n, width), x, y);
    } else {
      TextLessLate(Decimal(m, width), x, y);
    }
  }

  predicate ClockBefore(a: Moment, b: Moment) {
    || a.hour < b.hour
    || (a.hour == b.hour &&
        (|| a.minute < b.minute
         || (a.minute == b.minute &&
             (a.second < b.second || (a.second == b.second && a.ms < b.ms)))))
  }

  /** Earlier moments have smaller texts. */
  lemma FormatOrder(a: Moment, b: Moment)
    requires ValidMoment(a) && ValidMoment(b)
    requires Before(a.date, b.date) || (a.date == b.date && ClockBefore(a, b))
    ensures TextLess(Format(a), Format(b))
  {
    PowerOfWidth(2);
    PowerOfWidth(3);
    PowerOfWidth(4);
    var a19, b19 := [DOT] + (Decimal(a.ms, 3) + [LETTER_Z]), [DOT] + (Decimal(b.ms, 3) + [LETTER_Z]);
    var a17, b17 := Decimal(a.second, 2) + a19, Decimal(b.second, 2) + b19;
    var a14, b14 := Decimal(a.minute, 2) + ([COLON] + a17), Decimal(b.minute, 2) + ([COLON] + b17);
    var a11, b11 := Decimal(a.hour, 2) + ([COLON] + a14), Decimal(b.hour, 2) + ([COLON] + b14);
    var a8, b8 := Decimal(a.date.day, 2) + ([LETTER_T] + a11), Decimal(b.date.day, 2) + ([LETTER_T] + b11);
    var a5, b5 := Decimal(a.date.month, 2) + ([DASH] + a8), Decimal(b.date.month, 2) + ([DASH] + b8);
    if a.date == b.date {
      if a.hour == b.hour {
        if a.minute == b.minute {
          if a.second == b.second {
            FieldOrder(a.ms, [LETTER_Z], b.ms, [LETTER_Z], 3);
            TextLessLate([DOT], a19[1..], b19[1..]);
          }
          FieldOrder(a.second, a19, b.second, b19, 2);
          TextLessLate([COLON], a17, b17);
        }
        FieldOrder(a.minute, [COLON] + a17, b.minute, [COLON] + b17, 2);
        TextLessLate([COLON], a14, b14);
      }
      FieldOrder(a.hour, [COLON] + a14, b.hour, [COLON] + b14, 2);
      TextLessLate([LETTER_T], a11, b11);
    }
    if a.date.year == b.date.year {
      if a.date.month == b.date.month {
        FieldOrder(a.date.day, [LETTER_T] + a11, b.date.day, [LETTER_T] + b11, 2);
        TextLessLate([DASH], a8, b8);
      }
      FieldOrder(a.date.month, [DASH] + a8, b.date.month, [DASH] + b8, 2);
      TextLessLate([DASH], a5, b5);
    }
    FieldOrder(a.date.year, [DASH] + a5, b.date.year, [DASH] + b5, 4);
  }

  lemma {:induction false} TextLessAsymmetric(a: seq<byte>, b: seq<byte>)
    requires TextLess(a, b)
    ensures !TextLess(b, a) && a != b
  {
    if a == [] || a[0] != b[0] {
    } else {
      TextLessAsymmetric(a[1..], b[1..]);
    }
  }

  lemma EarlierIsSmallerText(t: nat, u: nat)
    requires t < u <= LAST_MS
    requires ValidMoment(MomentOf(t)) && ValidMoment(MomentOf(u))
    ensures TextLess(Format(MomentOf(t)), Format(MomentOf(u)))
  {
    var a, b := MomentOf(t), MomentOf(u);
    MomentOfIsValid(t);
    MomentOfIsValid(u);
    DayNumberOfDateOf(t / MS_PER_DAY);
    DayNumberOfDateOf(u / MS_PER_DAY);
    if Before(b.date, a.date) {
      DayNumberMonotone(b.date, a.date);
    }
    FormatOrder(a, b);
  }

  /** On printed timestamps, text order is time order. */
  lemma TextOrderIsTimeOrder(t: nat, u: nat)
    requires t <= LAST_MS && u <= LAST_MS
    ensures ValidMoment(MomentOf(t)) && ValidMoment(MomentOf(u))
    ensures TextLess(Format(MomentOf(t)), Format(MomentOf(u))) <==> t < u
  {
    MomentOfIsValid(t);
    MomentOfIsValid(u);
    if t < u {
      EarlierIsSmallerText(t, u);
    } else {
      if u < t {
        EarlierIsSmallerText(u, t);
      }
      if TextLess(Format(MomentOf(t)), Format(MomentOf(u))) {
        TextLessAsymmetric(Format(MomentOf(t)), Format(MomentOf(u)));
      }
    }
  }
}
