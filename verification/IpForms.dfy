/** IP literals in the terms of their digits: which texts are read, as which octets, and
    what is displayed (pkix-identity/src/lib.rs). */
module IpForms {
  import opened Bytes
  import opened IpGuarantees
  import opened IpText
  import opened Outcomes
  import opened Text

  // ----- groups of IPv6 -----

  /** One to four characters: hexadecimal digits of either case, the first of them
      possibly a plus sign. */
  function GroupNumber(t: string): Option<nat> {
    if |t| > 4 || Unsigned(t) == "" then None else HexNumber(Unsigned(t))
  }

  lemma {:induction false} HexNumberBound(s: string)
    ensures HexNumber(s).Some? ==> HexNumber(s).value < Power16(|s|)
  {
    if s == "" {
    } else {
      HexNumberBound(s[..|s| - 1]);
    }
  }

  lemma {:induction false} FourDigitsFit(s: string)
    requires |s| <= 4
    ensures HexNumber(s).Some? ==> HexNumber(s).value <= 0xFFFF
  {
    HexNumberBound(s);
    assert Power16(2) == 0x100;
  }

  lemma GroupByTable(t: string)
    ensures GroupValue(t) == GroupNumber(t)
  {
    if |t| <= 4 {
      ReadByTable(t, 0xFFFF);
      FourDigitsFit(Unsigned(t));
    }
  }

  predicate HexGroups(texts: seq<string>) {
    forall t <- texts :: GroupNumber(t).Some?
  }

  lemma {:induction false} GroupsByTable(texts: seq<string>)
    ensures HexGroups(texts) <==> AllGroups(texts)
    ensures HexGroups(texts) ==>
              forall i :: 0 <= i < |texts| ==>
                GroupNumber(texts[i]).Some? && GroupValues(texts)[i] == GroupNumber(texts[i]).value
  {
    forall t | t in texts ensures GroupNumber(t) == GroupValue(t) {
      GroupByTable(t);
    }
    if HexGroups(texts) {
      GroupValuesAt(texts);
    }
  }

  lemma {:induction false} GroupValuesAt(texts: seq<string>)
    requires AllGroups(texts)
    ensures forall i :: 0 <= i < |texts| ==>
              IsGroup(texts[i]) && GroupValues(texts)[i] == GroupValue(texts[i]).value
  {
    if texts == [] {
    } else {
      GroupValuesAt(texts[1..]);
    }
  }

  // ----- the sixteen octets -----

  /** Group `j` of the address: the groups before the zeros, zeros, the groups after. */
  function GroupAt(left: seq<string>, right: seq<string>, j: nat): nat
    requires HexGroups(left) && HexGroups(right) && |left| + |right| <= 8 && j < 8
  {
    if j < |left| then
      assert left[j] in left;
      GroupNumber(left[j]).value
    else if j + |right| < 8 then
      0
    else
      assert right[j + |right| - 8] in right;
      GroupNumber(right[j + |right| - 8]).value
  }

  /** Two octets as a number, the high one first. */
  function PairAt(octets: seq<byte>, j: nat): nat
    requires 2 * j + 1 < |octets|
  {
    octets[2 * j] as int * 0x100 + octets[2 * j + 1]
  }

  /** Each group is two octets. */
  ghost predicate AreOctetsOf(octets: seq<byte>, left: seq<string>, right: seq<string>)
    requires HexGroups(left) && HexGroups(right) && |left| + |right| <= 8
  {
    && |octets| == 16
    && forall j: nat :: j < 8 ==> PairAt(octets, j) == GroupAt(left, right, j)
  }

  lemma {:induction false} OctetsAt(groups: seq<u16>, j: nat)
    requires j < |groups|
    ensures Octets(groups)[2 * j] == groups[j] / 256 && Octets(groups)[2 * j + 1] == groups[j] % 256
  {
    var n := |groups| - 1;
    assert groups == groups[..n] + [groups[n]];
    if j < n {
      OctetsAt(groups[..n], j);
    }
  }

  lemma {:induction false} PairOfOctets(groups: seq<u16>, j: nat)
    requires j < |groups|
    ensures PairAt(Octets(groups), j) == groups[j]
  {
    OctetsAt(groups, j);
  }

  lemma DenotedByTable(left: seq<string>, right: seq<string>)
    requires AllGroups(left) && AllGroups(right) && |left| + |right| <= 8
    ensures HexGroups(left) && HexGroups(right)
    ensures AreOctetsOf(Denoted(left, right), left, right)
  {
    GroupsByTable(left);
    GroupsByTable(right);
    var groups := GroupValues(left) + Zeros(8 - |left| - |right|) + GroupValues(right);
    forall j: nat | j < 8 ensures PairAt(Octets(groups), j) == GroupAt(left, right, j) {
      PairOfOctets(groups, j);
    }
  }

  /** Octets are determined by the groups they make. */
  lemma OctetsDetermined(a: seq<byte>, b: seq<byte>, left: seq<string>, right: seq<string>)
    requires HexGroups(left) && HexGroups(right) && |left| + |right| <= 8
    requires AreOctetsOf(a, left, right) && AreOctetsOf(b, left, right)
    ensures a == b
  {
    forall i | 0 <= i < 16 ensures a[i] == b[i] {
      var j := i / 2;
      assert PairAt(a, j) == GroupAt(left, right, j) == PairAt(b, j);
      assert i == 2 * j || i == 2 * j + 1;
    }
  }

  // ----- which texts are read -----

  /** Eight groups; or groups around `::`, which stands for at least one; or, beyond the
      forms of section 2.2 of RFC 4291, one colon more at the end of the latter, or one
      in place of a final `::`. */
  ghost predicate AddressText(s: string, left: seq<string>, right: seq<string>) {
    var l, r := Join(left, ':'), Join(right, ':');
    && HexGroups(left) && HexGroups(right) && |left| + |right| <= 8
    && (|| (|left| == 8 && right == [] && s == l)
        || (|left| + |right| <= 7 && s == l + "::" + r)
        || (|left| + |right| <= 7 && right != [] && s == l + "::" + r + ":")
        || (|left| <= 7 && left != [] && right == [] && s == l + ":"))
  }

  lemma SameForms(s: string, left: seq<string>, right: seq<string>)
    ensures AddressText(s, left, right)
            <==> (FormOne(s, left) && right == []) || FormTwo(s, left, right) || StrayColon(s, left, right)
  {
    var l, r := Join(left, ':'), Join(right, ':');
    GroupsByTable(left);
    GroupsByTable(right);
    assert l + (":" + (":" + r)) == l + "::" + r;
    assert l + (":" + (":" + (r + (":" + "")))) == l + "::" + r + ":";
    assert l + (":" + "") == l + ":";
  }

  /** The accepted texts and the octets they denote, in both directions. */
  lemma Ipv6ByTable(s: string, octets: seq<byte>)
    requires s != ""
    ensures Ipv6Value(s) == Some(octets)
            <==> exists left, right :: AddressText(s, left, right) && AreOctetsOf(octets, left, right)
  {
    Ipv6Exactly(s, octets);
    if Ipv6Value(s) == Some(octets) {
      var left, right :|
        && ((FormOne(s, left) && right == []) || FormTwo(s, left, right) || StrayColon(s, left, right))
        && octets == Denoted(left, right);
      SameForms(s, left, right);
      DenotedByTable(left, right);
    }
    forall left, right | AddressText(s, left, right) && AreOctetsOf(octets, left, right)
      ensures Ipv6Value(s) == Some(octets)
    {
      SameForms(s, left, right);
      GroupsByTable(left);
      GroupsByTable(right);
      DenotedByTable(left, right);
      OctetsDetermined(octets, Denoted(left, right), left, right);
    }
  }

  // ----- IPv4 -----

  predicate DecimalDigits(s: string) {
    s != "" && forall c <- s :: '0' <= c <= '9'
  }

  /** A decimal without a leading zero is the number's own. */
  lemma {:induction false} CanonicalDecimal(s: string)
    requires DecimalNumber(s).Some? && s != "" && (|s| == 1 || s[0] != '0')
    ensures s == Show(DecimalNumber(s).value, 10)
    ensures DecimalNumber(s).value == 0 ==> s == "0"
  {
    var init, last := s[..|s| - 1], s[|s| - 1];
    DigitByTable(last);
    DigitShown(last);
    if init == "" {
      assert s == [last];
    } else {
      FirstDigit(init);
      CanonicalDecimal(init);
      assert s == init + [last];
    }
  }

  lemma DigitShown(c: char)
    requires HexDigit(c).Some? && HexDigit(c).value < 10
    ensures DigitChar(HexDigit(c).value) == c
  {
  }

  lemma {:induction false} FirstDigit(s: string)
    requires DecimalNumber(s).Some? && s != "" && s[0] != '0'
    ensures DecimalNumber(s).value > 0
  {
    if |s| == 1 {
      assert s[..0] == "";
    } else {
      FirstDigit(s[..|s| - 1]);
    }
  }

  /** Without a sign an octet has one text, its decimal; after a plus sign leading zeros
      are accepted too. */
  lemma {:induction false} OctetByTable(t: string, v: byte)
    ensures (t == "" || t[0] != '+') ==> (OctetValue(t) == Some(v) <==> t == Show(v, 10))
    ensures OctetValue("+" + t) == Some(v) <==> t != "" && DecimalNumber(t) == Some(v)
  {
    ReadByTable(t, 0xFFFF_FFFF);
    ReadByTable("+" + t, 0xFFFF_FFFF);
    assert Unsigned("+" + t) == t;
    ShownOctet(v);
    if (t == "" || t[0] != '+') && OctetValue(t) == Some(v) {
      CanonicalDecimal(t);
    }
  }

  /** A text of an octet: its decimal, or a plus sign and digits that write it. */
  predicate OctetText(t: string, v: byte) {
    t == Show(v, 10) || (|t| > 1 && t[0] == '+' && DecimalNumber(t[1..]) == Some(v))
  }

  lemma OctetIsText(t: string, v: byte)
    ensures OctetValue(t) == Some(v) <==> OctetText(t, v)
  {
    OctetByTable(t, v);
    if t != "" && t[0] == '+' {
      OctetByTable(t[1..], v);
      assert t == "+" + t[1..];
      ShownOctet(v);
    }
  }

  /** The text of four octets. */
  ghost predicate Quad(s: string, a: string, b: string, c: string, d: string, octets: seq<byte>) {
    && |octets| == 4 && s == a + "." + b + "." + c + "." + d
    && OctetText(a, octets[0]) && OctetText(b, octets[1]) && OctetText(c, octets[2]) && OctetText(d, octets[3])
  }

  lemma QuadIsRead(s: string, a: string, b: string, c: string, d: string, octets: seq<byte>)
    requires Quad(s, a, b, c, d, octets)
    ensures Ipv4Value(s) == Some(octets)
  {
    JoinOfFour(a, b, c, d);
    OctetIsText(a, octets[0]);
    OctetIsText(b, octets[1]);
    OctetIsText(c, octets[2]);
    OctetIsText(d, octets[3]);
    NoDotInOctet(a);
    NoDotInOctet(b);
    NoDotInOctet(c);
    NoDotInOctet(d);
    SplitOfJoin([a, b, c, d], '.');
    assert octets == [octets[0], octets[1], octets[2], octets[3]];
  }

  lemma ReadIsQuad(s: string, octets: seq<byte>)
    requires Ipv4Value(s) == Some(octets)
    ensures exists a, b, c, d :: Quad(s, a, b, c, d, octets)
  {
    var parts := Split(s, '.');
    JoinOfSplit(s, '.');
    JoinOfFour(parts[0], parts[1], parts[2], parts[3]);
    assert parts == [parts[0], parts[1], parts[2], parts[3]];
    OctetIsText(parts[0], octets[0]);
    OctetIsText(parts[1], octets[1]);
    OctetIsText(parts[2], octets[2]);
    OctetIsText(parts[3], octets[3]);
    assert Quad(s, parts[0], parts[1], parts[2], parts[3], octets);
  }

  /** A dotted quad and its octets, in both directions. */
  lemma Ipv4ByTable(s: string, octets: seq<byte>)
    ensures Ipv4Value(s) == Some(octets) <==> exists a, b, c, d :: Quad(s, a, b, c, d, octets)
  {
    if Ipv4Value(s) == Some(octets) {
      ReadIsQuad(s, octets);
    }
    forall a, b, c, d | Quad(s, a, b, c, d, octets) ensures Ipv4Value(s) == Some(octets) {
      QuadIsRead(s, a, b, c, d, octets);
    }
  }

  lemma JoinOfFour(a: string, b: string, c: string, d: string)
    ensures Join([a, b, c, d], '.') == a + "." + b + "." + c + "." + d
  {
    assert [a, b, c, d][1..] == [b, c, d] && [b, c, d][1..] == [c, d] && [c, d][1..] == [d];
    assert Join([c, d], '.') == c + "." + d;
    assert Join([b, c, d], '.') == b + "." + c + "." + d;
  }

  lemma NoDotInOctet(t: string)
    requires OctetValue(t).Some?
    ensures '.' !in t
  {
    var digits := if t[0] == '+' then t[1..] else t;
    DigitsAreDigits(digits, 10);
    assert t == if t[0] == '+' then [t[0]] + digits else digits;
  }

  // ----- identities -----

  /** A zone is refused; one pair of brackets around a literal comes off; a colon makes
      an IPv6 literal, and anything else is an IPv4 literal. */
  lemma AddressKinds(s: string)
    ensures '%' in s ==> IpAddressOf(s) == None
    ensures '%' !in s ==> IpAddressOf("[" + s + "]") == IpLiteralValue(s)
    ensures '%' !in s && !("[" <= s) ==> IpAddressOf(s) == IpLiteralValue(s)
    ensures ':' in s ==>
              IpLiteralValue(s) == match Ipv6Value(s) case Some(octets) => Some(V6(octets)) case None => None
    ensures s != "" && ':' !in s ==>
              IpLiteralValue(s) == match Ipv4Value(s) case Some(octets) => Some(V4(octets)) case None => None
    ensures IpLiteralValue("") == None
  {
    if |s| >= 2 && s[0] == '[' && s[|s| - 1] == ']' {
      assert s == [s[0]] + s[1..|s| - 1] + [s[|s| - 1]];
    }
  }

  /** What is displayed: decimals between dots, or lower-case hexadecimals between colons
      in brackets, one for each pair of octets. */
  lemma DisplayByTable(o: seq<byte>, p: seq<byte>)
    requires |o| == 4 && |p| == 16
    ensures Display(V4(o)) == Show(o[0], 10) + "." + Show(o[1], 10) + "." + Show(o[2], 10) + "." + Show(o[3], 10)
    ensures exists texts :: |texts| == 8 && Display(V6(p)) == "[" + Join(texts, ':') + "]"
                            && forall j: nat :: j < 8 ==> texts[j] == Show(PairAt(p, j), 16)
  {
    forall i | 0 <= i < 4 ensures ShowAll(o, 10)[i] == Show(o[i], 10) {
      ShownAt(o, 10, i);
    }
    assert ShowAll(o, 10) == [Show(o[0], 10), Show(o[1], 10), Show(o[2], 10), Show(o[3], 10)];
    JoinOfFour(Show(o[0], 10), Show(o[1], 10), Show(o[2], 10), Show(o[3], 10));
    var texts := ShowAll(GroupsOf(p), 16);
    forall j: nat | j < 8 ensures texts[j] == Show(PairAt(p, j), 16) {
      ShownAt(GroupsOf(p), 16, j);
      GroupOfOctets(p, j);
    }
  }

  lemma {:induction false} GroupOfOctets(octets: seq<byte>, j: nat)
    requires |octets| % 2 == 0 && 2 * j + 1 < |octets|
    ensures GroupsOf(octets)[j] == PairAt(octets, j)
    decreases |octets|
  {
    if 2 * j + 2 < |octets| {
      GroupOfOctets(octets[..|octets| - 2], j);
    }
  }

  /** The shown digits are lower case, write the number, and have no leading zero. */
  lemma {:induction false} ShowByTable(n: nat)
    ensures HexNumber(Show(n, 16)) == Some(n) && DecimalNumber(Show(n, 10)) == Some(n)
    ensures forall c <- Show(n, 16) :: '0' <= c <= '9' || 'a' <= c <= 'f'
    ensures n > 0 ==> Show(n, 16)[0] != '0' && Show(n, 10)[0] != '0'
    ensures Show(0, 16) == Show(0, 10) == "0"
  {
    ShowRoundTrip(n, 16);
    ShowRoundTrip(n, 10);
    DigitsByTable(Show(n, 16));
    DigitsByTable(Show(n, 10));
    ShowLeading(n, 16);
    ShowLeading(n, 10);
  }
}
