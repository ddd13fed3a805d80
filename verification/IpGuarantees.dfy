/** Exactly which texts the IPv6 reader accepts and what they denote, and the
    round trip of IP identities through their displayed form. */
module IpGuarantees {
  import opened Bytes
  import opened IpText
  import opened Outcomes
  import opened Text

  ghost predicate AllGroups(texts: seq<string>) {
    forall t <- texts :: IsGroup(t)
  }

  /** Form 1 of RFC 4291, section 2.2: eight groups. */
  ghost predicate FormOne(s: string, texts: seq<string>) {
    AllGroups(texts) && |texts| == 8 && s == Join(texts, ':')
  }

  /** Form 2: `::` stands for at least one group of zeros. */
  ghost predicate FormTwo(s: string, left: seq<string>, right: seq<string>) {
    AllGroups(left) && AllGroups(right) && |left| + |right| <= 7
    && s == Join(left, ':') + (":" + (":" + Join(right, ':')))
  }

  /** What the reader takes besides: one stray colon at the end, after a form 2 text
      that ends in a group, or standing for the `::` itself. */
  ghost predicate StrayColon(s: string, left: seq<string>, right: seq<string>) {
    && AllGroups(left) && AllGroups(right) && |left| + |right| <= 7
    && if right != [] then s == Join(left, ':') + (":" + (":" + (Join(right, ':') + (":" + ""))))
       else left != [] && s == Join(left, ':') + (":" + "")
  }

  /** The sixteen octets that group texts denote. */
  function Denoted(left: seq<string>, right: seq<string>): seq<byte>
    requires AllGroups(left) && AllGroups(right) && |left| + |right| <= 8
  {
    Around(GroupValues(left), GroupValues(right))
  }

  // ----- texts and their parts -----

  lemma {:induction false} DigitsAreDigits(s: string, radix: nat)
    requires radix == 10 || radix == 16
    requires DigitsValue(s, radix).Some?
    ensures forall c <- s :: DigitValue(c, radix).Some?
  {
    if s == "" {
    } else {
      DigitsAreDigits(s[..|s| - 1], radix);
      assert s == s[..|s| - 1] + [s[|s| - 1]];
    }
  }

  lemma GroupHasNoColon(t: string)
    requires IsGroup(t)
    ensures t != "" && ':' !in t
  {
    var digits := if t[0] == '+' then t[1..] else t;
    DigitsAreDigits(digits, 16);
    assert t == if t[0] == '+' then [t[0]] + digits else digits;
  }

  /** The parts of one side of `::`; an empty side is one empty part. */
  function Side(texts: seq<string>): seq<string> {
    if texts == [] then [""] else texts
  }

  lemma {:induction false} SplitOfSide(texts: seq<string>)
    requires AllGroups(texts)
    ensures Split(Join(texts, ':'), ':') == Side(texts)
  {
    forall t | t in texts ensures ':' !in t {
      GroupHasNoColon(t);
    }
    if texts != [] {
      SplitOfJoin(texts, ':');
    }
  }

  lemma {:induction false} SplitOfTwoColons(a: string, b: string)
    ensures Split(a + (":" + (":" + b)), ':') == Split(a, ':') + ([""] + Split(b, ':'))
  {
    SplitAtSeparator(a, ":" + b, ':');
    assert "" + ([':'] + b) == ":" + b;
    SplitAtSeparator("", b, ':');
  }

  lemma {:induction false} SplitInjective(s: string, t: string)
    requires Split(s, ':') == Split(t, ':')
    ensures s == t
  {
    JoinOfSplit(s, ':');
    JoinOfSplit(t, ':');
  }

  lemma {:induction false} FormTwoParts(left: seq<string>, right: seq<string>)
    requires AllGroups(left) && AllGroups(right)
    ensures Split(Join(left, ':') + (":" + (":" + Join(right, ':'))), ':') == Side(left) + ([""] + Side(right))
  {
    SplitOfTwoColons(Join(left, ':'), Join(right, ':'));
    SplitOfSide(left);
    SplitOfSide(right);
  }

  lemma {:induction false} StrayColonParts(left: seq<string>, right: seq<string>)
    requires AllGroups(left) && AllGroups(right)
    ensures right != [] ==>
              Split(Join(left, ':') + (":" + (":" + (Join(right, ':') + (":" + "")))), ':')
              == Side(left) + ([""] + (right + [""]))
    ensures left != [] ==> Split(Join(left, ':') + (":" + ""), ':') == left + [""]
  {
    SplitOfSide(left);
    SplitOfSide(right);
    SplitAtSeparator(Join(left, ':'), "", ':');
    SplitAtSeparator(Join(right, ':'), "", ':');
    SplitOfTwoColons(Join(left, ':'), Join(right, ':') + (":" + ""));
  }

  // ----- scanning -----

  lemma Regroup<T>(a: seq<T>, x: T, b: seq<T>)
    ensures a + [x] + b == a + ([x] + b)
  {
  }

  /** Scanning past groups. */
  lemma {:induction false} ScanGroups(texts: seq<string>, rest: seq<string>, sofar: Scan)
    requires AllGroups(texts) && |sofar.groups| + |texts| <= 8
    ensures ScanParts(texts + rest, sofar)
            == ScanParts(rest, sofar.(groups := sofar.groups + GroupValues(texts)))
  {
    if texts == [] {
      assert texts + rest == rest && sofar.groups + [] == sofar.groups;
    } else {
      assert IsGroup(texts[0]);
      var g := GroupValue(texts[0]).value;
      assert texts + rest == [texts[0]] + (texts[1..] + rest);
      ScanGroups(texts[1..], rest, sofar.(groups := sofar.groups + [g]));
      Regroup(sofar.groups, g, GroupValues(texts[1..]));
    }
  }

  /** After the run of zeros only groups may follow, and perhaps one stray colon. */
  lemma {:induction false} ScanAfterRun(parts: seq<string>, sofar: Scan) returns (right: seq<string>)
    requires sofar.zeroRunAt.Some? && |sofar.groups| <= 8 && ScanParts(parts, sofar).Some?
    ensures AllGroups(right)
    ensures parts == right || parts == right + [""]
    ensures |sofar.groups| + |right| <= 8
    ensures ScanParts(parts, sofar).value == sofar.(groups := sofar.groups + GroupValues(right))
  {
    if parts == [] || parts[0] == "" {
      right := [];
      assert sofar.groups + [] == sofar.groups;
      assert parts != [] ==> parts == [] + [""];
    } else {
      var g := GroupValue(parts[0]).value;
      right := ScanAfterRun(parts[1..], sofar.(groups := sofar.groups + [g]));
      Regroup(sofar.groups, g, GroupValues(right));
      right := [parts[0]] + right;
      assert right[1..] + [""] == (right + [""])[1..];
      assert parts == [parts[0]] + parts[1..];
    }
  }

  /** Before the run of zeros there are only groups. */
  lemma {:induction false} ScanBeforeRun(parts: seq<string>, sofar: Scan)
    returns (left: seq<string>, tail: Option<seq<string>>)
    requires sofar.zeroRunAt.None? && |sofar.groups| <= 8 && ScanParts(parts, sofar).Some?
    ensures AllGroups(left) && |sofar.groups| + |left| <= 8
    ensures var groups := sofar.groups + GroupValues(left);
            match tail
            case None => parts == left && ScanParts(parts, sofar) == Some(Scan(groups, None))
            case Some(t) => parts == left + ([""] + t)
                            && ScanParts(parts, sofar) == ScanParts(t, Scan(groups, Some(|groups|)))
  {
    assert sofar.groups + [] == sofar.groups;
    if parts == [] {
      left, tail := [], None;
    } else if parts[0] == "" {
      left, tail := [], Some(parts[1..]);
      assert parts == [] + ([""] + parts[1..]);
    } else {
      var g := GroupValue(parts[0]).value;
      left, tail := ScanBeforeRun(parts[1..], sofar.(groups := sofar.groups + [g]));
      Regroup(sofar.groups, g, GroupValues(left));
      assert parts == [parts[0]] + parts[1..];
      left := [parts[0]] + left;
      assert left[1..] + [""] == (left + [""])[1..];
    }
  }

  /** A text with a leading colon has an empty first part. */
  lemma {:induction false} LeadingColon(s: string)
    ensures ":" <= s <==> s != "" && Split(s, ':')[0] == ""
  {
  }

  // ----- every address form is read -----

  lemma {:induction false} ScanAllGroups(texts: seq<string>)
    requires AllGroups(texts) && |texts| <= 8
    ensures ScanParts(texts, Scan([], None)) == Some(Scan(GroupValues(texts), None))
  {
    ScanGroups(texts, [], Scan([], None));
    assert texts + [] == texts && [] + GroupValues(texts) == GroupValues(texts);
  }

  lemma {:induction false} DenotedAlone(texts: seq<string>)
    requires AllGroups(texts) && |texts| == 8
    ensures Denoted(texts, []) == Octets(GroupValues(texts))
  {
    assert GroupValues(texts) + Zeros(0) + GroupValues([]) == GroupValues(texts);
  }

  lemma FormOneIsRead(s: string, texts: seq<string>)
    requires FormOne(s, texts)
    ensures Ipv6Value(s) == Some(Denoted(texts, []))
  {
    SplitOfSide(texts);
    GroupHasNoColon(texts[0]);
    LeadingColon(s);
    ScanAllGroups(texts);
    DenotedAlone(texts);
  }

  /** The parts after the `::`, with at most one stray colon at the end. */
  ghost predicate TailOf(tail: seq<string>, right: seq<string>) {
    tail == Side(right) || (right != [] && tail == right + [""])
  }

  lemma {:induction false} ScanTail(tail: seq<string>, right: seq<string>, sofar: Scan)
    requires sofar.zeroRunAt.Some? && AllGroups(right) && |sofar.groups| + |right| <= 8
    requires TailOf(tail, right)
    ensures ScanParts(tail, sofar) == Some(sofar.(groups := sofar.groups + GroupValues(right)))
  {
    assert right + [] == right && sofar.groups + [] == sofar.groups;
    ScanGroups(right, [], sofar);
    ScanGroups(right, [""], sofar);
  }

  lemma LeadingRunIsRead(s: string, right: seq<string>, tail: seq<string>)
    requires AllGroups(right) && |right| <= 7
    requires TailOf(tail, right)
    requires "::" <= s && Split(s[2..], ':') == tail
    ensures Ipv6Value(s) == Some(Denoted([], right))
  {
    DoubleColonParts(s);
    assert Split(s, ':')[2..] == tail;
    if s == "::" {
      GroupsNotEmpty(right);
      assert Zeros(8) == [] + Zeros(8) + [];
    } else {
      ScanTail(tail, right, Scan([], Some(0)));
      assert GroupValues([]) == [];
    }
  }

  lemma {:induction false} ScanToRun(left: seq<string>, tail: seq<string>)
    requires AllGroups(left) && |left| <= 8
    ensures ScanParts(left + ([""] + tail), Scan([], None)) == ScanParts(tail, Scan(GroupValues(left), Some(|left|)))
  {
    assert [] + GroupValues(left) == GroupValues(left);
    ScanGroups(left, [""] + tail, Scan([], None));
    assert ([""] + tail)[1..] == tail;
  }

  lemma {:induction false} LaterRunIsRead(s: string, left: seq<string>, right: seq<string>, tail: seq<string>)
    requires left != [] && AllGroups(left) && AllGroups(right) && |left| + |right| <= 7
    requires TailOf(tail, right) || (right == [] && tail == [])
    requires Split(s, ':') == left + ([""] + tail)
    ensures Ipv6Value(s) == Some(Denoted(left, right))
  {
    GroupHasNoColon(left[0]);
    LeadingColon(s);
    ScanToRun(left, tail);
    if tail == [] {
      assert GroupValues(left) + GroupValues(right) == GroupValues(left);
    } else {
      ScanTail(tail, right, Scan(GroupValues(left), Some(|left|)));
    }
  }

  lemma GroupsNotEmpty(right: seq<string>)
    requires AllGroups(right)
    ensures TailOf([""], right) ==> right == []
  {
    if right != [] {
      GroupHasNoColon(right[0]);
      assert [""][0] != right[0];
    }
  }

  lemma AfterTwo<T>(x: T, y: T, a: seq<T>, b: seq<T>)
    requires [x] + ([y] + a) == [x, y] + b
    ensures a == b
  {
    assert ([x] + ([y] + a))[2..] == a && ([x, y] + b)[2..] == b;
  }

  /** Wherever the `::` sits, a form 2 address is read as what it denotes, and so is
      one with a stray colon. */
  lemma FormTwoIsRead(s: string, left: seq<string>, right: seq<string>)
    requires FormTwo(s, left, right) || StrayColon(s, left, right)
    ensures Ipv6Value(s) == Some(Denoted(left, right))
  {
    FormTwoParts(left, right);
    StrayColonParts(left, right);
    var tail := if FormTwo(s, left, right) then Side(right) else if right != [] then right + [""] else [];
    if left == [] {
      DoubleColonParts(s);
      AfterTwo("", "", tail, Split(s[2..], ':'));
      LeadingRunIsRead(s, right, tail);
    } else {
      assert left + [""] == left + ([""] + []);
      LaterRunIsRead(s, left, right, tail);
    }
  }

  // ----- nothing else is read -----

  lemma ReadAfterRun(s: string, left: seq<string>, tail: seq<string>) returns (right: seq<string>)
    requires AllGroups(left) && |left| <= 7
    requires tail != []
    requires Split(s, ':') == Side(left) + ([""] + tail)
    requires var scan := ScanParts(tail, Scan(GroupValues(left), Some(|left|)));
             scan.Some? && |scan.value.groups| < 8
    ensures FormTwo(s, left, right) || StrayColon(s, left, right)
  {
    right := ScanAfterRun(tail, Scan(GroupValues(left), Some(|left|)));
    FormTwoParts(left, right);
    StrayColonParts(left, right);
    if right == [] || tail == right {
      assert tail == Side(right);
      SplitInjective(s, Join(left, ':') + (":" + (":" + Join(right, ':'))));
    } else {
      SplitInjective(s, Join(left, ':') + (":" + (":" + (Join(right, ':') + (":" + "")))));
    }
  }

  lemma AcceptedLeadingRun(s: string) returns (right: seq<string>)
    requires "::" < s && Ipv6Value(s).Some?
    ensures FormTwo(s, [], right) || StrayColon(s, [], right)
  {
    var parts := Split(s, ':');
    DoubleColonParts(s);
    ScanKeepsBounds(parts[2..], Scan([], Some(0)));
    assert GroupValues([]) == [];
    assert parts == [""] + ([""] + parts[2..]) && parts[2..] == Split(s[2..], ':');
    right := ScanAfterRun(parts[2..], Scan([], Some(0)));
    right := ReadAfterRun(s, [], parts[2..]);
  }

  lemma AcceptedLaterRun(s: string, left: seq<string>, tail: seq<string>)
    returns (right: seq<string>)
    requires s != "" && !(":" <= s) && Ipv6Value(s).Some?
    requires AllGroups(left) && |left| <= 8 && Split(s, ':') == left + ([""] + tail)
    requires ScanParts(Split(s, ':'), Scan([], None)) == ScanParts(tail, Scan(GroupValues(left), Some(|left|)))
    ensures FormTwo(s, left, right) || StrayColon(s, left, right)
  {
    LeadingColon(s);
    if tail == [] {
      right := [];
      StrayColonParts(left, []);
      SplitInjective(s, Join(left, ':') + (":" + ""));
    } else {
      right := ScanAfterRun(tail, Scan(GroupValues(left), Some(|left|)));
      right := ReadAfterRun(s, left, tail);
    }
  }

  /** Every accepted text is of form 1 or form 2, or has one stray colon. */
  lemma AcceptedIsForm(s: string) returns (left: seq<string>, right: seq<string>)
    requires s != "" && Ipv6Value(s).Some?
    ensures (FormOne(s, left) && right == []) || FormTwo(s, left, right) || StrayColon(s, left, right)
  {
    var parts := Split(s, ':');
    LeadingColon(s);
    if s == "::" {
      left, right := [], [];
    } else if "::" <= s {
      left := [];
      right := AcceptedLeadingRun(s);
    } else {
      var tail;
      left, tail := ScanBeforeRun(parts, Scan([], None));
      right := [];
      assert [] + GroupValues(left) == GroupValues(left);
      match tail {
        case None =>
          SplitOfSide(left);
          SplitInjective(s, Join(left, ':'));
        case Some(t) =>
          right := AcceptedLaterRun(s, left, t);
      }
    }
  }

  /** The accepted language and its meaning, in both directions. */
  lemma Ipv6Exactly(s: string, octets: seq<byte>)
    requires s != ""
    ensures Ipv6Value(s) == Some(octets) <==>
            exists left, right ::
              && ((FormOne(s, left) && right == []) || FormTwo(s, left, right) || StrayColon(s, left, right))
              && octets == Denoted(left, right)
  {
    if Ipv6Value(s).Some? {
      var left, right := AcceptedIsForm(s);
      if FormOne(s, left) && right == [] {
        FormOneIsRead(s, left);
      } else {
        FormTwoIsRead(s, left, right);
      }
    }
    forall left, right | (FormOne(s, left) && right == []) || FormTwo(s, left, right) || StrayColon(s, left, right)
      ensures Ipv6Value(s) == Some(Denoted(left, right))
    {
      if FormOne(s, left) && right == [] {
        FormOneIsRead(s, left);
      } else {
        FormTwoIsRead(s, left, right);
      }
    }
  }

  // ----- display and back -----

  function Power16(k: nat): nat {
    if k == 0 then 1 else 16 * Power16(k - 1)
  }

  lemma {:induction false} ShowIsShort(n: nat, k: nat)
    requires k >= 1 && n < Power16(k)
    ensures |Show(n, 16)| <= k
    decreases k
  {
    if n < 16 {
    } else {
      ShowIsShort(n / 16, k - 1);
    }
  }

  lemma {:induction false} ShownGroup(g: u16)
    ensures GroupValue(Show(g, 16)) == Some(g)
  {
    ShowIsRead(g, 16, 0xFFFF);
    assert Power16(4) == 0x1_0000;
    ShowIsShort(g, 4);
  }

  lemma {:induction false} ShownAt(numbers: seq<nat>, radix: nat, i: nat)
    requires (radix == 10 || radix == 16) && i < |numbers|
    ensures ShowAll(numbers, radix)[i] == Show(numbers[i], radix)
  {
    if i == 0 {
    } else {
      ShownAt(numbers[1..], radix, i - 1);
    }
  }

  lemma {:induction false} ShownGroups(groups: seq<u16>)
    ensures AllGroups(ShowAll(groups, 16)) && GroupValues(ShowAll(groups, 16)) == groups
  {
    if groups == [] {
    } else {
      ShownGroup(groups[0]);
      ShownGroups(groups[1..]);
      assert ShowAll(groups, 16)[1..] == ShowAll(groups[1..], 16);
    }
  }

  lemma {:induction false} ShownOctet(b: byte)
    ensures OctetValue(Show(b, 10)) == Some(b)
  {
    ShowIsRead(b, 10, MAX_U32);
    ShowLeading(b, 10);
  }

  lemma {:induction false} OctetsOfGroups(octets: seq<byte>)
    requires |octets| % 2 == 0
    ensures Octets(GroupsOf(octets)) == octets
    decreases |octets|
  {
    if octets == [] {
    } else {
      var n := |octets|;
      OctetsOfGroups(octets[..n - 2]);
      var hi, low := octets[n - 2], octets[n - 1];
    }
  }

  predicate Plain(c: char) {
    IsLowerHex(c) || c == '.' || c == ':'
  }

  lemma {:induction false} JoinedIsPlain(numbers: seq<nat>, radix: nat, sep: char)
    requires (radix == 10 || radix == 16) && (sep == '.' || sep == ':')
    ensures forall c <- Join(ShowAll(numbers, radix), sep) :: Plain(c)
    ensures forall t <- ShowAll(numbers, radix) :: sep !in t
  {
    if numbers == [] {
    } else {
      JoinedIsPlain(numbers[1..], radix, sep);
      assert ShowAll(numbers, radix)[1..] == ShowAll(numbers[1..], radix);
    }
  }

  lemma {:induction false} V4RoundTrip(octets: seq<byte>)
    requires |octets| == 4
    ensures Ipv4Value(Join(ShowAll(octets, 10), '.')) == Some(octets)
  {
    var texts := ShowAll(octets, 10);
    JoinedIsPlain(octets, 10, '.');
    SplitOfJoin(texts, '.');
    forall i | 0 <= i < 4 ensures OctetValue(texts[i]) == Some(octets[i]) {
      ShownAt(octets, 10, i);
      ShownOctet(octets[i]);
    }
    assert octets == [octets[0], octets[1], octets[2], octets[3]];
  }

  lemma {:induction false} V6RoundTrip(octets: seq<byte>)
    requires |octets| == 16
    ensures Ipv6Value(Join(ShowAll(GroupsOf(octets), 16), ':')) == Some(octets)
  {
    var groups := GroupsOf(octets);
    ShownGroups(groups);
    FormOneIsRead(Join(ShowAll(groups, 16), ':'), ShowAll(groups, 16));
    OctetsOfGroups(octets);
    assert GroupValues([]) == [] && groups + Zeros(0) + [] == groups;
  }

  /** Every IP identity survives being displayed and parsed again. */
  lemma DisplayRoundTrip(ip: IpAddress)
    requires ip.Valid()
    ensures IpAddressOf(Display(ip)) == Some(ip)
  {
    match ip {
      case V4(octets) =>
        V4RoundTrip(octets);
        JoinedIsPlain(octets, 10, '.');
        NoColonInQuad(octets);
        var s := Display(ip);
        assert Plain(s[0]) && '%' !in s;
      case V6(octets) =>
        V6RoundTrip(octets);
        JoinedIsPlain(GroupsOf(octets), 16, ':');
    }
  }

  lemma {:induction false} NoColonInQuad(octets: seq<byte>)
    requires |octets| == 4
    ensures var s := Join(ShowAll(octets, 10), '.'); s != "" && ':' !in s
  {
    NoColon(octets);
    assert ShowAll(octets, 10)[0] == Show(octets[0], 10);
  }

  lemma {:induction false} NoColon(numbers: seq<nat>)
    ensures ':' !in Join(ShowAll(numbers, 10), '.')
  {
    if numbers == [] {
    } else {
      NoColon(numbers[1..]);
      assert ShowAll(numbers, 10)[1..] == ShowAll(numbers[1..], 10);
    }
  }
}
