/** IP literals (pkix-identity/src/lib.rs, `parse_ipv4`, `parse_ipv6`,
    `ServerName::ip_address` and `Display`). */
module IpText {
  import opened Bytes
  import opened Outcomes
  import opened Text

  const MAX_U32 := 0xFFFF_FFFF

  datatype IpAddress = V4(octets: seq<byte>) | V6(octets: seq<byte>) {
    predicate Valid() {
      |octets| == if V4? then 4 else 16
    }
  }

  // ----- IPv4 -----

  /** One part of a dotted quad: no empty text, no leading zero, at most 255. */
  function OctetValue(part: string): Option<byte> {
    if part == "" || (|part| > 1 && part[0] == '0') then
      None
    else
      match FromStrRadix(part, 10, MAX_U32)
      case Some(n) => if n <= 255 then Some(n) else None
      case None => None
  }

  /** Exactly four parts, each of them an octet. */
  function Ipv4Value(s: string): Option<seq<byte>> {
    var parts := Split(s, '.');
    if |parts| != 4 then
      None
    else
      match (OctetValue(parts[0]), OctetValue(parts[1]), OctetValue(parts[2]), OctetValue(parts[3]))
      case (Some(a), Some(b), Some(c), Some(d)) => Some([a, b, c, d])
      case _ => None
  }

  method ParseIpv4(s: string) returns (r: Option<seq<byte>>)
    ensures r == Ipv4Value(s)
  {
    var parts := Split(s, '.');
    var octets := new byte[4](_ => 0);
    var count := 0;
    for i := 0 to |parts|
      invariant count == i <= 4
      invariant forall k :: 0 <= k < i ==> OctetValue(parts[k]) == Some(octets[k])
    {
      var part := parts[i];
      if count == 4 {
        return None;
      }
      if part == "" || (|part| > 1 && part[0] == '0') {
        assert OctetValue(parts[i]) == None;
        return None;
      }
      var value := FromStrRadix(part, 10, MAX_U32);
      if value == None || value.value > 255 {
        assert OctetValue(parts[i]) == None;
        return None;
      }
      octets[count] := value.value;
      count := count + 1;
    }
    if count != 4 {
      return None;
    }
    assert octets[..] == [octets[0], octets[1], octets[2], octets[3]];
    return Some(octets[..]);
  }

  // ----- IPv6 -----

  /** The value of a group of at most four hexadecimal digits. */
  function GroupValue(part: string): Option<u16> {
    if |part| > 4 then
      None
    else
      match FromStrRadix(part, 16, 0xFFFF)
      case Some(n) => Some(n)
      case None => None
  }

  predicate IsGroup(part: string) {
    GroupValue(part).Some?
  }

  function GroupValues(texts: seq<string>): (groups: seq<u16>)
    requires forall t <- texts :: IsGroup(t)
    ensures |groups| == |texts|
  {
    if texts == [] then
      []
    else
      assert IsGroup(texts[0]);
      [GroupValue(texts[0]).value] + GroupValues(texts[1..])
  }

  /** What the loop over the remaining parts makes of them: the groups, and where the
      run of zeros is if one was marked. */
  datatype Scan = Scan(groups: seq<u16>, zeroRunAt: Option<nat>)

  function ScanParts(parts: seq<string>, sofar: Scan): Option<Scan> {
    if parts == [] then
      Some(sofar)
    else if parts[0] == "" then
      if sofar.zeroRunAt.Some? then
        (if |parts| == 1 then Some(sofar) else None)
      else
        ScanParts(parts[1..], sofar.(zeroRunAt := Some(|sofar.groups|)))
    else
      match GroupValue(parts[0])
      case None => None
      case Some(g) =>
        if |sofar.groups| + 1 > 8 then None
        else ScanParts(parts[1..], sofar.(groups := sofar.groups + [g]))
  }

  function Zeros(n: nat): (z: seq<u16>)
    ensures |z| == n
  {
    seq(n, _ => 0)
  }

  function Octets(groups: seq<u16>): (octets: seq<byte>)
    ensures |octets| == 2 * |groups|
  {
    if groups == [] then []
    else Octets(groups[..|groups| - 1]) + [groups[|groups| - 1] / 256, groups[|groups| - 1] % 256]
  }

  /** The sixteen octets of groups with zeros put between them. */
  function Around(left: seq<u16>, right: seq<u16>): (octets: seq<byte>)
    requires |left| + |right| <= 8
    ensures |octets| == 16
  {
    Octets(left + Zeros(8 - |left| - |right|) + right)
  }

  /** The address of scanned groups: all eight, or fewer with the zeros put in. */
  function Assemble(scan: Scan): Option<seq<byte>>
    requires scan.zeroRunAt.Some? ==> scan.zeroRunAt.value <= |scan.groups|
  {
    var total := |scan.groups|;
    match scan.zeroRunAt
    case None => if total == 8 then Some(Octets(scan.groups)) else None
    case Some(at) =>
      if total < 8 then Some(Around(scan.groups[..at], scan.groups[at..])) else None
  }

  lemma {:induction false} ScanKeepsBounds(parts: seq<string>, sofar: Scan)
    requires |sofar.groups| <= 8 && (sofar.zeroRunAt.Some? ==> sofar.zeroRunAt.value <= |sofar.groups|)
    ensures var r := ScanParts(parts, sofar);
            r.Some? ==>
              && |r.value.groups| <= 8
              && (r.value.zeroRunAt.Some? ==> r.value.zeroRunAt.value <= |r.value.groups|)
  {
    if parts == [] {
    } else {
      if parts[0] == "" {
        if sofar.zeroRunAt.None? {
          ScanKeepsBounds(parts[1..], sofar.(zeroRunAt := Some(|sofar.groups|)));
        }
      } else if GroupValue(parts[0]).Some? && |sofar.groups| < 8 {
        ScanKeepsBounds(parts[1..], sofar.(groups := sofar.groups + [GroupValue(parts[0]).value]));
      }
    }
  }

  function ScanAndAssemble(parts: seq<string>, zeroRunAt: Option<nat>): Option<seq<byte>>
    requires zeroRunAt.Some? ==> zeroRunAt.value == 0
  {
    ScanKeepsBounds(parts, Scan([], zeroRunAt));
    match ScanParts(parts, Scan([], zeroRunAt))
    case None => None
    case Some(scan) => Assemble(scan)
  }

  function Ipv6Value(s: string): Option<seq<byte>> {
    var parts := Split(s, ':');
    if s == "::" then Some(Octets(Zeros(8)))
    else if "::" <= s then
      DoubleColonParts(s);
      ScanAndAssemble(parts[2..], Some(0))
    else if ":" <= s then None
    else ScanAndAssemble(parts, None)
  }

  lemma {:induction false} DoubleColonParts(s: string)
    requires "::" <= s
    ensures Split(s, ':') == ["", ""] + Split(s[2..], ':')
  {
    assert s[1..][1..] == s[2..];
    assert Split(s, ':') == [""] + ([""] + Split(s[2..], ':'));
  }

  method PackOctets(groups: seq<u16>) returns (out: seq<byte>)
    requires |groups| == 8
    ensures out == Octets(groups)
  {
    var octets := new byte[16](_ => 0);
    for i := 0 to 8
      invariant octets[..2 * i] == Octets(groups[..i])
    {
      assert groups[..i + 1][..i] == groups[..i];
      octets[2 * i] := groups[i] / 256;
      octets[2 * i + 1] := groups[i] % 256;
      assert octets[..2 * (i + 1)] == octets[..2 * i] + [octets[2 * i], octets[2 * i + 1]];
    }
    assert groups[..8] == groups;
    return octets[..];
  }

  /** Put the groups before and after the run of zeros into an address of zeros. */
  method FillAround(groups: seq<u16>, at: nat) returns (filled: seq<u16>)
    requires at <= |groups| < 8
    ensures filled == groups[..at] + Zeros(8 - |groups|) + groups[at..]
  {
    var elided := 8 - |groups|;
    var outGroups := new u16[8](_ => 0);
    for i := 0 to at
      invariant forall k :: 0 <= k < i ==> outGroups[k] == groups[k]
      invariant forall k :: i <= k < 8 ==> outGroups[k] == 0
    {
      outGroups[i] := groups[i];
    }
    for i := 0 to |groups| - at
      invariant forall k :: 0 <= k < at ==> outGroups[k] == groups[k]
      invariant forall k :: at <= k < at + elided ==> outGroups[k] == 0
      invariant forall k :: at <= k < at + i ==> outGroups[elided + k] == groups[k]
    {
      outGroups[at + elided + i] := groups[at + i];
    }
    filled := outGroups[..];
    assert forall k :: at + elided <= k < 8 ==> filled[k] == groups[k - elided] by {
      forall k | at + elided <= k < 8 ensures filled[k] == groups[k - elided] {
        assert outGroups[elided + (k - elided)] == groups[k - elided];
      }
    }
  }

  /** The loop over the remaining parts. */
  method ScanLoop(parts: seq<string>, start: Scan) returns (r: Option<Scan>)
    requires |start.groups| <= 8 && (start.zeroRunAt.Some? ==> start.zeroRunAt.value <= |start.groups|)
    ensures r == ScanParts(parts, start)
  {
    var groups: seq<u16>, zeroRunAt: Option<nat> := start.groups, start.zeroRunAt;
    var i := 0;
    while i < |parts|
      invariant i <= |parts| && |groups| <= 8
      invariant ScanParts(parts[i..], Scan(groups, zeroRunAt)) == ScanParts(parts, start)
    {
      var part := parts[i];
      assert parts[i..][0] == part && parts[i..][1..] == parts[i + 1..];
      i := i + 1;
      if part == "" {
        if zeroRunAt.Some? {
          if i == |parts| {
            return Some(Scan(groups, zeroRunAt));
          }
          return None;
        }
        zeroRunAt := Some(|groups|);
        if i == |parts| {
          break;
        }
        continue;
      }
      if |part| > 4 {
        return None;
      }
      var value := FromStrRadix(part, 16, 0xFFFF);
      if value == None {
        return None;
      }
      groups := groups + [value.value];
      if |groups| > 8 {
        return None;
      }
    }
    return Some(Scan(groups, zeroRunAt));
  }

  method ParseIpv6(s: string) returns (r: Option<seq<byte>>)
    ensures r == Ipv6Value(s)
  {
    var parts := Split(s, ':');
    var zeroRunAt: Option<nat> := None;
    if "::" <= s {
      zeroRunAt := Some(0);
      DoubleColonParts(s);
      parts := parts[2..];
      if s == "::" {
        ZeroOctets(8);
        return Some(seq(16, _ => 0));
      }
    } else if ":" <= s {
      return None;
    }
    ScanKeepsBounds(parts, Scan([], zeroRunAt));
    var scanned := ScanLoop(parts, Scan([], zeroRunAt));
    if scanned == None {
      return None;
    }
    var groups := scanned.value.groups;
    var total := |groups|;
    match scanned.value.zeroRunAt {
      case None =>
        if total != 8 {
          return None;
        }
        var out := PackOctets(groups);
        return Some(out);
      case Some(at) =>
        if total >= 8 {
          return None;
        }
        var filled := FillAround(groups, at);
        var out := PackOctets(filled);
        return Some(out);
    }
  }

  lemma {:induction false} ZeroOctets(n: nat)
    ensures Octets(Zeros(n)) == seq(2 * n, _ => 0)
  {
    if n == 0 {
    } else {
      ZeroOctets(n - 1);
      assert Zeros(n)[..n - 1] == Zeros(n - 1);
    }
  }

  // ----- identities -----

  /** `parse_ip_literal`: a colon decides for IPv6. */
  function IpLiteralValue(s: string): Option<IpAddress> {
    if s == "" then
      None
    else if ':' in s then
      match Ipv6Value(s)
      case Some(octets) => Some(V6(octets))
      case None => None
    else
      match Ipv4Value(s)
      case Some(octets) => Some(V4(octets))
      case None => None
  }

  /** `ServerName::ip_address`: one pair of brackets is taken off, a zone is refused. */
  function IpAddressOf(s: string): Option<IpAddress> {
    var trimmed := if |s| >= 2 && s[0] == '[' && s[|s| - 1] == ']' then s[1..|s| - 1] else s;
    if '%' in trimmed then None else IpLiteralValue(trimmed)
  }

  function ShowAll(numbers: seq<nat>, radix: nat): (texts: seq<string>)
    requires radix == 10 || radix == 16
    ensures |texts| == |numbers|
  {
    if numbers == [] then [] else [Show(numbers[0], radix)] + ShowAll(numbers[1..], radix)
  }

  /** The groups of an even number of octets. */
  function GroupsOf(octets: seq<byte>): (groups: seq<u16>)
    requires |octets| % 2 == 0
    ensures 2 * |groups| == |octets|
    decreases |octets|
  {
    if octets == [] then
      []
    else
      var n := |octets|;
      GroupsOf(octets[..n - 2]) + [octets[n - 2] as int * 256 + octets[n - 1]]
  }

  /** `Display`: a dotted quad, or eight groups in brackets. */
  function Display(ip: IpAddress): string
    requires ip.Valid()
  {
    match ip
    case V4(octets) => Join(ShowAll(octets, 10), '.')
    case V6(octets) => "[" + Join(ShowAll(GroupsOf(octets), 16), ':') + "]"
  }
}
