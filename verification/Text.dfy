/** Splitting text at a separator, and writing and reading numbers, as the Rust
    standard library does it. */
module Text {
  import opened Outcomes

  /** The parts of a text with `c` in front, given the parts of the text. */
  function Attach(c: char, parts: seq<string>, sep: char): (all: seq<string>)
    requires parts != []
    ensures all != []
  {
    if c == sep then [""] + parts else [[c] + parts[0]] + parts[1..]
  }

  /** `str::split`: the stretches between separators; never empty. */
  function Split(s: string, sep: char): (parts: seq<string>)
    ensures parts != []
  {
    if s == "" then [""] else Attach(s[0], Split(s[1..], sep), sep)
  }

  /** The texts with a separator between neighbours. */
  function Join(parts: seq<string>, sep: char): string {
    if parts == [] then ""
    else if |parts| == 1 then parts[0]
    else parts[0] + ([sep] + Join(parts[1..], sep))
  }

  lemma {:induction false} SplitAtSeparator(a: string, b: string, sep: char)
    ensures Split(a + ([sep] + b), sep) == Split(a, sep) + Split(b, sep)
  {
    var s := a + ([sep] + b);
    if a == "" {
      assert s == [sep] + b && s[1..] == b;
    } else {
      assert s[1..] == a[1..] + ([sep] + b);
      SplitAtSeparator(a[1..], b, sep);
    }
  }

  lemma {:induction false} SplitNothing(s: string, sep: char)
    requires sep !in s
    ensures Split(s, sep) == [s]
  {
    if s == "" {
    } else {
      SplitNothing(s[1..], sep);
      assert [s[0]] + s[1..] == s;
    }
  }

  /** Splitting undoes joining texts without the separator. */
  lemma {:induction false} SplitOfJoin(parts: seq<string>, sep: char)
    requires parts != [] && forall p <- parts :: sep !in p
    ensures Split(Join(parts, sep), sep) == parts
  {
    SplitNothing(parts[0], sep);
    if |parts| > 1 {
      SplitOfJoin(parts[1..], sep);
      SplitAtSeparator(parts[0], Join(parts[1..], sep), sep);
      assert [parts[0]] + parts[1..] == parts;
    } else {
      assert parts == [parts[0]];
    }
  }

  /** Joining undoes splitting, and the parts are free of the separator. */
  lemma {:induction false} JoinOfSplit(s: string, sep: char)
    ensures Join(Split(s, sep), sep) == s
    ensures forall p <- Split(s, sep) :: sep !in p
  {
    if s == "" {
    } else {
      JoinOfSplit(s[1..], sep);
      JoinAttached(s[0], Split(s[1..], sep), sep);
      assert s == [s[0]] + s[1..];
    }
  }

  lemma {:induction false} JoinAttached(c: char, parts: seq<string>, sep: char)
    requires parts != []
    ensures Join(Attach(c, parts, sep), sep) == [c] + Join(parts, sep)
    ensures (forall p <- parts :: sep !in p) ==> forall p <- Attach(c, parts, sep) :: sep !in p
  {
    var all := Attach(c, parts, sep);
    if c == sep {
      assert all[1..] == parts;
    } else {
      assert all[1..] == parts[1..];
      assert parts == [parts[0]] + parts[1..];
    }
  }

  lemma {:induction false} SeparatorMakesParts(s: string, sep: char)
    ensures |Split(s, sep)| == 1 <==> sep !in s
  {
    if s == "" {
    } else {
      SeparatorMakesParts(s[1..], sep);
    }
  }

  // ----- numbers -----

  function DigitValue(c: char, radix: nat): Option<nat> {
    var d: int := if '0' <= c <= '9' then c as int - '0' as int
                  else if 'a' <= c <= 'f' then c as int - 'a' as int + 10
                  else if 'A' <= c <= 'F' then c as int - 'A' as int + 10
                  else -1;
    if 0 <= d < radix then Some(d) else None
  }

  /** `high` with a zero digit after it. */
  function Shifted(high: nat, radix: nat): nat
    requires radix == 10 || radix == 16
  {
    if radix == 10 then high * 10 else high * 16
  }

  function DigitsValue(s: string, radix: nat): Option<nat>
    requires radix == 10 || radix == 16
  {
    if s == "" then
      Some(0)
    else
      match (DigitsValue(s[..|s| - 1], radix), DigitValue(s[|s| - 1], radix))
      case (Some(high), Some(low)) => Some(Shifted(high, radix) + low)
      case _ => None
  }

  /** `from_str_radix` of an unsigned type with maximum `max`: one leading plus sign
      is allowed, nothing else but digits. */
  function FromStrRadix(s: string, radix: nat, max: nat): (n: Option<nat>)
    requires radix == 10 || radix == 16
    ensures n.Some? ==> n.value <= max
  {
    if s == "" || s == "+" then
      None
    else
      match DigitsValue(if s[0] == '+' then s[1..] else s, radix)
      case Some(n) => if n <= max then Some(n) else None
      case None => None
  }

  // ----- numerals, by a table of digits -----

  function HexDigit(c: char): Option<nat> {
    match c
    case '0' => Some(0)
    case '1' => Some(1)
    case '2' => Some(2)
    case '3' => Some(3)
    case '4' => Some(4)
    case '5' => Some(5)
    case '6' => Some(6)
    case '7' => Some(7)
    case '8' => Some(8)
    case '9' => Some(9)
    case 'a' => Some(10)
    case 'b' => Some(11)
    case 'c' => Some(12)
    case 'd' => Some(13)
    case 'e' => Some(14)
    case 'f' => Some(15)
    case 'A' => Some(10)
    case 'B' => Some(11)
    case 'C' => Some(12)
    case 'D' => Some(13)
    case 'E' => Some(14)
    case 'F' => Some(15)
    case _ => None
  }

  /** The number that hexadecimal digits of either case write. */
  function HexNumber(s: string): Option<nat> {
    if s == "" then Some(0)
    else
      match (HexNumber(s[..|s| - 1]), HexDigit(s[|s| - 1]))
      case (Some(high), Some(low)) => Some(16 * high + low)
      case _ => None
  }

  /** The number that decimal digits write. */
  function DecimalNumber(s: string): Option<nat> {
    if s == "" then Some(0)
    else
      match (DecimalNumber(s[..|s| - 1]), HexDigit(s[|s| - 1]))
      case (Some(high), Some(low)) => if low < 10 then Some(10 * high + low) else None
      case _ => None
  }

  lemma DigitByTable(c: char)
    ensures DigitValue(c, 16) == HexDigit(c)
    ensures DigitValue(c, 10) == if HexDigit(c).Some? && HexDigit(c).value < 10 then HexDigit(c) else None
  {
  }

  lemma {:induction false} DigitsByTable(s: string)
    ensures DigitsValue(s, 16) == HexNumber(s)
    ensures DigitsValue(s, 10) == DecimalNumber(s)
  {
    if s == "" {
    } else {
      DigitsByTable(s[..|s| - 1]);
      DigitByTable(s[|s| - 1]);
    }
  }

  /** The text without one plus sign in front. */
  function Unsigned(s: string): string {
    if s != "" && s[0] == '+' then s[1..] else s
  }

  /** `from_str_radix` reads at least one digit, after at most one plus sign, up to the
      maximum. */
  lemma ReadByTable(s: string, max: nat)
    ensures FromStrRadix(s, 16, max)
            == if Unsigned(s) != "" && HexNumber(Unsigned(s)).Some? && HexNumber(Unsigned(s)).value <= max
               then HexNumber(Unsigned(s)) else None
    ensures FromStrRadix(s, 10, max)
            == if Unsigned(s) != "" && DecimalNumber(Unsigned(s)).Some? && DecimalNumber(Unsigned(s)).value <= max
               then DecimalNumber(Unsigned(s)) else None
  {
    DigitsByTable(Unsigned(s));
    if s != "" && Unsigned(s) == "" {
      assert s == ['+'];
    }
  }

  predicate IsLowerHex(c: char) {
    '0' <= c <= '9' || 'a' <= c <= 'f'
  }

  /** The digit character that `{:x}` and `{}` write. */
  function DigitChar(d: nat): (c: char)
    requires d < 16
    ensures IsLowerHex(c)
  {
    if d < 10 then '0' + d as char else 'a' + (d - 10) as char
  }

  /** The number without its last digit, and the last digit, in radix 10 or 16. */
  function LastDigit(n: nat, radix: nat): (p: (nat, nat))
    requires radix == 10 || radix == 16
    ensures p.1 < radix && n == Shifted(p.0, radix) + p.1
    ensures n >= radix ==> 0 < p.0 < n
  {
    if radix == 10 then (n / 10, n % 10) else (n / 16, n % 16)
  }

  /** `n` in radix 10 or 16 without leading zeros. */
  function Show(n: nat, radix: nat): (s: string)
    requires radix == 10 || radix == 16
    ensures s != "" && s[0] != '+' && forall c <- s :: IsLowerHex(c)
  {
    if n < radix then
      [DigitChar(n)]
    else
      var p := LastDigit(n, radix);
      Show(p.0, radix) + [DigitChar(p.1)]
  }

  lemma {:induction false} ShowRoundTrip(n: nat, radix: nat)
    requires radix == 10 || radix == 16
    ensures DigitsValue(Show(n, radix), radix) == Some(n)
  {
    if n < radix {
      assert "" + [DigitChar(n)] == [DigitChar(n)];
    } else {
      var p := LastDigit(n, radix);
      ShowRoundTrip(p.0, radix);
    }
  }

  /** A shown number has no leading zero unless it is zero. */
  lemma {:induction false} ShowLeading(n: nat, radix: nat)
    requires radix == 10 || radix == 16
    ensures Show(n, radix)[0] == '0' <==> n == 0
    ensures n == 0 ==> Show(n, radix) == "0"
  {
    if n < radix {
    } else {
      ShowLeading(LastDigit(n, radix).0, radix);
    }
  }

  /** What is shown is read back, up to the maximum. */
  lemma {:induction false} ShowIsRead(n: nat, radix: nat, max: nat)
    requires (radix == 10 || radix == 16) && n <= max
    ensures FromStrRadix(Show(n, radix), radix, max) == Some(n)
  {
    ShowRoundTrip(n, radix);
  }
}
