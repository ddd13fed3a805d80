/** DNS identities (pkix-identity/src/lib.rs): normalizing a target name and
    matching it against a subject-alternative-name entry. */
module DnsMatch {
  import opened Outcomes
  import opened Text

  const DNS_NAME_MAX_LEN := 253
  const DNS_LABEL_MAX_LEN := 63

  function LowerChar(c: char): char {
    if 'A' <= c <= 'Z' then (c as int + 32) as char else c
  }

  /** `to_ascii_lowercase` */
  function Lower(s: string): (l: string)
    ensures |l| == |s|
    ensures forall i :: 0 <= i < |s| ==> l[i] == LowerChar(s[i])
  {
    if s == "" then "" else [LowerChar(s[0])] + Lower(s[1..])
  }

  /** `eq_ignore_ascii_case` */
  predicate SameIgnoringCase(a: string, b: string) {
    Lower(a) == Lower(b)
  }

  predicate IsAscii(s: string) {
    forall c <- s :: 0 <= c as int <= 127
  }

  /** Without one trailing dot, if there is one. */
  function StripDot(s: string): string {
    if s != "" && s[|s| - 1] == '.' then s[..|s| - 1] else s
  }

  // ----- valid names -----

  predicate LabelChar(c: char) {
    'a' <= c <= 'z' || 'A' <= c <= 'Z' || '0' <= c <= '9' || c == '-' || c == '_'
  }

  predicate ValidLabel(part: string) {
    && 1 <= |part| <= DNS_LABEL_MAX_LEN
    && part[0] != '-' && part[|part| - 1] != '-'
    && forall c <- part :: LabelChar(c)
  }

  /** A name is valid when it is short enough and each of its labels is. */
  predicate ValidName(name: string) {
    |name| <= DNS_NAME_MAX_LEN && forall l <- Split(name, '.') :: ValidLabel(l)
  }

  method ValidateAsciiLabel(part: string) returns (ok: bool)
    ensures ok == ValidLabel(part)
  {
    if part == "" || |part| > DNS_LABEL_MAX_LEN {
      return false;
    }
    if part[0] == '-' || part[|part| - 1] == '-' {
      return false;
    }
    for i := 0 to |part|
      invariant forall k :: 0 <= k < i ==> LabelChar(part[k])
    {
      if !LabelChar(part[i]) {
        return false;
      }
    }
    return true;
  }

  /** Cutting a text at a separator, the last stretch being free of it. */
  lemma SplitOffLast(s: string, from: nat, to: nat)
    requires from <= to <= |s| && '.' !in s[from..to]
    requires from > 0 ==> s[from - 1] == '.'
    ensures Split(s[..to], '.') == (if from == 0 then [] else Split(s[..from - 1], '.')) + [s[from..to]]
  {
    SplitNothing(s[from..to], '.');
    if from > 0 {
      assert s[..to] == s[..from - 1] + (['.'] + s[from..to]);
      SplitAtSeparator(s[..from - 1], s[from..to], '.');
    } else {
      assert s[..to] == s[from..to];
    }
  }

  method ValidateAsciiDns(name: string) returns (ok: bool)
    ensures ok == ValidName(name)
  {
    if |name| > DNS_NAME_MAX_LEN {
      return false;
    }
    var labelStart := 0;
    for i := 0 to |name|
      invariant labelStart <= i && '.' !in name[labelStart..i]
      invariant labelStart > 0 ==> name[labelStart - 1] == '.'
      invariant labelStart > 0 ==> forall l <- Split(name[..labelStart - 1], '.') :: ValidLabel(l)
    {
      if name[i] == '.' {
        SplitOffLast(name, labelStart, i);
        var valid := ValidateAsciiLabel(name[labelStart..i]);
        if !valid {
          LabelsOfPrefix(name, i);
          assert name[labelStart..i] in Split(name[..i], '.');
          return false;
        }
        labelStart := i + 1;
      }
    }
    SplitOffLast(name, labelStart, |name|);
    assert name[..|name|] == name && name[labelStart..|name|] == name[labelStart..];
    ok := ValidateAsciiLabel(name[labelStart..]);
    assert name[labelStart..] in Split(name, '.');
  }

  lemma {:induction false} LabelsOfPrefix(name: string, i: nat)
    requires i < |name| && name[i] == '.'
    ensures forall l <- Split(name[..i], '.') :: l in Split(name, '.')
  {
    assert name == name[..i] + (['.'] + name[i + 1..]);
    SplitAtSeparator(name[..i], name[i + 1..], '.');
  }

  /** `normalize_dns_name`; `toAscii` stands for the IDNA conversion of non-ASCII
      names and may answer anything. */
  function NormalizeDnsName(name: string, toAscii: string -> Option<string>): Option<string> {
    if name == "" || '*' in name then
      None
    else
      var trimmed := StripDot(name);
      if trimmed == "" then
        None
      else if IsAscii(trimmed) then
        if ValidName(trimmed) then Some(Lower(trimmed)) else None
      else
        match toAscii(trimmed)
        case None => None
        case Some(ascii) => if ValidName(ascii) then Some(ascii) else None
  }

  // ----- matching -----

  /** The text before and after the first dot. */
  function SplitOnce(s: string): Option<(string, string)> {
    if s == "" then None
    else if s[0] == '.' then Some(("", s[1..]))
    else
      match SplitOnce(s[1..])
      case None => None
      case Some(p) => Some(([s[0]] + p.0, p.1))
  }

  /** `matches_dns_san` */
  predicate MatchesDnsSan(sanEntry: string, target: string) {
    var san := StripDot(sanEntry);
    if san == "" then
      false
    else if "*." <= san then
      var rest := san[2..];
      if '*' in rest || rest == "" || '.' !in rest then
        false
      else
        match SplitOnce(target)
        case None => false
        case Some(p) => p.0 != "" && SameIgnoringCase(p.1, rest)
    else if '*' in san then
      false
    else
      SameIgnoringCase(san, target)
  }

  predicate NoStar(labels: seq<string>) {
    forall l <- labels :: '*' !in l
  }

  predicate SameLabels(a: seq<string>, b: seq<string>) {
    |a| == |b| && forall i :: 0 <= i < |a| ==> SameIgnoringCase(a[i], b[i])
  }

  /** The rule of RFC 6125, section 6.4.3, on label lists: the labels are the same
      ignoring case, or a sole leftmost `*` stands for one label of a name of the same
      length, with at least two more labels that are the same. */
  predicate LabelsMatch(san: seq<string>, target: seq<string>)
    requires san != []
  {
    if san[0] == "*" then
      |san| >= 3 && |san| == |target| && NoStar(san[1..]) && SameLabels(san[1..], target[1..])
    else
      NoStar(san) && SameLabels(san, target)
  }

  function LowerAll(parts: seq<string>): (lower: seq<string>)
    ensures |lower| == |parts|
    ensures forall i :: 0 <= i < |parts| ==> lower[i] == Lower(parts[i])
  {
    if parts == [] then [] else [Lower(parts[0])] + LowerAll(parts[1..])
  }

  lemma {:induction false} SplitOfLower(s: string)
    ensures Split(Lower(s), '.') == LowerAll(Split(s, '.'))
  {
    if s == "" {
    } else {
      SplitOfLower(s[1..]);
      var rest := Split(s[1..], '.');
      assert Lower(s)[1..] == Lower(s[1..]);
      assert LowerAll(Attach(s[0], rest, '.')) == Attach(LowerChar(s[0]), LowerAll(rest), '.') by {
        assert s[0] != '.' ==> Lower([s[0]] + rest[0]) == [LowerChar(s[0])] + Lower(rest[0]);
      }
    }
  }

  /** Comparing texts and comparing their labels is the same. */
  lemma {:induction false} SameTextSameLabels(a: string, b: string)
    ensures SameIgnoringCase(a, b) <==> SameLabels(Split(a, '.'), Split(b, '.'))
  {
    SplitOfLower(a);
    SplitOfLower(b);
    JoinOfSplit(Lower(a), '.');
    JoinOfSplit(Lower(b), '.');
    if SameLabels(Split(a, '.'), Split(b, '.')) {
      assert LowerAll(Split(a, '.')) == LowerAll(Split(b, '.'));
    }
  }

  lemma {:induction false} StarInSomeLabel(s: string)
    ensures '*' in s <==> !NoStar(Split(s, '.'))
  {
    if s == "" {
    } else {
      StarInSomeLabel(s[1..]);
      assert s == [s[0]] + s[1..];
      StarAttached(s[0], Split(s[1..], '.'));
    }
  }

  lemma StarAttached(c: char, parts: seq<string>)
    requires parts != []
    ensures NoStar(Attach(c, parts, '.')) <==> c != '*' && NoStar(parts)
  {
    var all := Attach(c, parts, '.');
    assert parts == [parts[0]] + parts[1..];
    if c == '.' {
      assert all == [""] + parts;
    } else {
      assert all[0] in all && all[0] == [c] + parts[0];
      assert forall l <- parts[1..] :: l in all;
    }
  }

  lemma {:induction false} SplitOnceIsFirstLabel(s: string)
    ensures match SplitOnce(s)
            case None => Split(s, '.') == [s]
            case Some(p) => Split(s, '.') == [p.0] + Split(p.1, '.')
  {
    if s == "" || s[0] == '.' {
    } else {
      SplitOnceIsFirstLabel(s[1..]);
      match SplitOnce(s[1..]) {
        case None => assert [s[0]] + s[1..] == s;
        case Some(p) => assert Split(s[1..], '.')[1..] == Split(p.1, '.');
      }
    }
  }

  lemma {:induction false} LowerKeepsLabel(part: string)
    requires ValidLabel(part)
    ensures ValidLabel(Lower(part))
  {
    forall c | c in Lower(part) ensures LabelChar(c) {
      var i :| 0 <= i < |part| && c == LowerChar(part[i]);
      assert LabelChar(part[i]);
    }
  }

  lemma {:induction false} LowerKeepsName(name: string)
    requires ValidName(name)
    ensures ValidName(Lower(name))
  {
    SplitOfLower(name);
    var labels := Split(name, '.');
    forall l | l in LowerAll(labels) ensures ValidLabel(l) {
      var i :| 0 <= i < |labels| && l == Lower(labels[i]);
      LowerKeepsLabel(labels[i]);
    }
  }

  lemma NormalizedIsValid(name: string, toAscii: string -> Option<string>)
    requires NormalizeDnsName(name, toAscii).Some?
    ensures ValidName(NormalizeDnsName(name, toAscii).value)
  {
    var trimmed := StripDot(name);
    if IsAscii(trimmed) {
      LowerKeepsName(trimmed);
    }
  }

  /** For every valid target, and so for every normalized one, matching texts is the
      label rule. */
  lemma {:induction false} MatchIsLabelRule(sanEntry: string, target: string)
    requires ValidName(target)
    ensures MatchesDnsSan(sanEntry, target)
            <==> LabelsMatch(Split(StripDot(sanEntry), '.'), Split(target, '.'))
  {
    var san := StripDot(sanEntry);
    var labels := Split(target, '.');
    assert ValidLabel(labels[0]);
    StarInSomeLabel(san);
    SameTextSameLabels(san, target);
    if san == "" {
      assert !SameIgnoringCase("", labels[0]);
    } else if "*." <= san {
      WildcardMatch(san, target);
    } else if Split(san, '.')[0] == "*" {
      SplitNothing("*", '.');
    }
  }

  lemma {:induction false} WildcardMatch(san: string, target: string)
    requires "*." <= san && ValidName(target)
    ensures (&& '*' !in san[2..] && san[2..] != "" && '.' in san[2..]
             && SplitOnce(target).Some? && SplitOnce(target).value.0 != ""
             && SameIgnoringCase(SplitOnce(target).value.1, san[2..]))
            <==> LabelsMatch(Split(san, '.'), Split(target, '.'))
  {
    var rest, labels := san[2..], Split(target, '.');
    assert Split(san, '.')[1..] == Split(rest, '.');
    StarInSomeLabel(rest);
    SeparatorMakesParts(rest, '.');
    SplitOnceIsFirstLabel(target);
    assert ValidLabel(labels[0]);
    match SplitOnce(target) {
      case None =>
      case Some(p) =>
        assert labels[1..] == Split(p.1, '.');
        SameTextSameLabels(rest, p.1);
    }
  }

  /** The guarantee for targets as the crate builds them. */
  lemma NormalizedMatchIsLabelRule(sanEntry: string, name: string, toAscii: string -> Option<string>)
    requires NormalizeDnsName(name, toAscii).Some?
    ensures var target := NormalizeDnsName(name, toAscii).value;
            MatchesDnsSan(sanEntry, target)
            <==> LabelsMatch(Split(StripDot(sanEntry), '.'), Split(target, '.'))
  {
    NormalizedIsValid(name, toAscii);
    MatchIsLabelRule(sanEntry, NormalizeDnsName(name, toAscii).value);
  }
}
