/** The characters, lengths and forms of DNS identities, written out: what the
    predicates of name validation and matching come to. */
module DnsForms {
  import opened DnsMatch
  import opened Outcomes
  import opened Text

  const UPPER := "ABCDEFGHIJKLMNOPQRSTUVWXYZ"
  const LOWER := "abcdefghijklmnopqrstuvwxyz"

  // ----- letters -----

  /** The letter at a place of the alphabet, in either case. */
  lemma LetterAt(i: nat)
    requires i < 26
    ensures UPPER[i] as int == 65 + i && LOWER[i] as int == 97 + i
  {
  }

  /** Lower-casing turns each capital into the small letter of the same place and leaves
      every other character alone. */
  lemma LowerByAlphabet(c: char)
    ensures forall i: nat :: i < 26 && c == UPPER[i] ==> LowerChar(c) == LOWER[i]
    ensures c !in UPPER ==> LowerChar(c) == c
  {
    forall i: nat | i < 26 && c == UPPER[i] ensures LowerChar(c) == LOWER[i] {
      LetterAt(i);
    }
    if 'A' <= c <= 'Z' {
      LetterAt(c as int - 65);
    }
  }

  /** Two characters are the same, or the two cases of one letter. */
  ghost predicate SameLetter(c: char, d: char) {
    c == d || exists i: nat :: i < 26 && ((c == UPPER[i] && d == LOWER[i]) || (c == LOWER[i] && d == UPPER[i]))
  }

  lemma SameWhenLowered(c: char, d: char)
    ensures LowerChar(c) == LowerChar(d) <==> SameLetter(c, d)
  {
    if i: nat :| i < 26 && ((c == UPPER[i] && d == LOWER[i]) || (c == LOWER[i] && d == UPPER[i])) {
      LetterAt(i);
    }
    if LowerChar(c) == LowerChar(d) && c != d {
      LetterAt(LowerChar(c) as int - 97);
    }
  }

  /** Texts are the same ignoring case when they are, letter by letter. */
  lemma SameTextExactly(a: string, b: string)
    ensures SameIgnoringCase(a, b) <==> |a| == |b| && forall i :: 0 <= i < |a| ==> SameLetter(a[i], b[i])
  {
    forall i: nat | i < |a| && i < |b| ensures LowerChar(a[i]) == LowerChar(b[i]) <==> SameLetter(a[i], b[i]) {
      SameWhenLowered(a[i], b[i]);
    }
    if |a| == |b| && forall i :: 0 <= i < |a| ==> SameLetter(a[i], b[i]) {
      assert Lower(a) == Lower(b);
    }
    if Lower(a) == Lower(b) {
      forall i: nat | i < |a| ensures SameLetter(a[i], b[i]) {
        assert Lower(a)[i] == Lower(b)[i];
      }
    }
  }

  // ----- labels and names -----

  /** A name is accepted when it has at most 253 octets and each of its labels has
      between 1 and 63 of the characters allowed, a hyphen neither first nor last. */
  ghost predicate LetterDigitName(name: string) {
    && |name| <= 253
    && forall l <- Split(name, '.') ::
         && 1 <= |l| <= 63 && l[0] != '-' && l[|l| - 1] != '-'
         && forall c <- l :: c in UPPER || c in LOWER || c in "0123456789-_"
  }

  lemma LabelExactly(l: string)
    ensures ValidLabel(l)
            <==> && 1 <= |l| <= 63 && l[0] != '-' && l[|l| - 1] != '-'
                 && forall c <- l :: c in UPPER || c in LOWER || c in "0123456789-_"
  {
    assert forall c <- l :: LabelChar(c) <==> c in UPPER || c in LOWER || c in "0123456789-_";
  }

  lemma NameExactly(name: string)
    ensures ValidName(name) <==> LetterDigitName(name)
  {
    forall l | l in Split(name, '.')
      ensures ValidLabel(l)
              <==> && 1 <= |l| <= 63 && l[0] != '-' && l[|l| - 1] != '-'
                   && forall c <- l :: c in UPPER || c in LOWER || c in "0123456789-_"
    {
      LabelExactly(l);
    }
  }

  // ----- normalizing -----

  lemma {:induction false} CharOfSomeLabel(s: string, c: char)
    requires c in s && c != '.'
    ensures exists i: nat :: i < |Split(s, '.')| && c in Split(s, '.')[i]
  {
    var all, rest := Split(s, '.'), Split(s[1..], '.');
    if c == s[0] {
      assert c in all[0];
    } else {
      CharOfSomeLabel(s[1..], c);
      var i: nat :| i < |rest| && c in rest[i];
      if s[0] == '.' {
        assert all[i + 1] == rest[i];
      } else {
        assert all[0] == [s[0]] + rest[0] && (i > 0 ==> all[i] == rest[i]);
        assert c in all[i];
      }
    }
  }

  /** A valid name is of ASCII characters without a star. */
  lemma ValidNameChars(name: string)
    requires ValidName(name)
    ensures IsAscii(name) && '*' !in name
  {
    forall c | c in name ensures 0 <= c as int <= 127 && c != '*' {
      if c != '.' {
        CharOfSomeLabel(name, c);
        var i: nat :| i < |Split(name, '.')| && c in Split(name, '.')[i];
        assert Split(name, '.')[i] in Split(name, '.');
      }
    }
  }

  lemma {:induction false} EmptyLabelAtEnd(name: string)
    requires name == "" || name[|name| - 1] == '.'
    ensures "" in Split(name, '.')
  {
    if name != "" {
      var init := name[..|name| - 1];
      assert name == init + (['.'] + "");
      SplitAtSeparator(init, "", '.');
      assert Split("", '.') == [""];
    }
  }

  lemma ValidNameEnds(name: string)
    requires ValidName(name)
    ensures name != "" && name[|name| - 1] != '.'
  {
    if name == "" || name[|name| - 1] == '.' {
      EmptyLabelAtEnd(name);
    }
  }

  lemma {:induction false} ValidNormalized(name: string, toAscii: string -> Option<string>, valid: string)
    requires ValidName(valid) && (name == valid || name == valid + ".")
    ensures NormalizeDnsName(name, toAscii) == Some(Lower(valid))
  {
    ValidNameChars(valid);
    ValidNameEnds(valid);
    assert '*' !in name;
  }

  /** A valid name, or one with one dot after it, and its lower case. */
  ghost predicate LowersTo(name: string, valid: string, target: string) {
    LetterDigitName(valid) && (name == valid || name == valid + ".") && target == Lower(valid)
  }

  lemma WithoutDot(name: string)
    ensures name == StripDot(name) || name == StripDot(name) + "."
  {
  }

  lemma AsciiWithoutDot(name: string)
    requires IsAscii(name)
    ensures IsAscii(StripDot(name))
  {
    forall c | c in StripDot(name) ensures 0 <= c as int <= 127 {
      assert c in name;
    }
  }

  lemma NormalizedLowers(name: string, toAscii: string -> Option<string>, target: string)
    requires IsAscii(name) && NormalizeDnsName(name, toAscii) == Some(target)
    ensures LowersTo(name, StripDot(name), target)
  {
    WithoutDot(name);
    AsciiWithoutDot(name);
    NameExactly(StripDot(name));
  }

  /** Of an ASCII text, normalizing accepts exactly the valid names, with or without one
      dot after them, and gives the name in lower case. */
  lemma NormalizedAsciiExactly(name: string, toAscii: string -> Option<string>, target: string)
    requires IsAscii(name)
    ensures NormalizeDnsName(name, toAscii) == Some(target) <==> exists valid :: LowersTo(name, valid, target)
  {
    if NormalizeDnsName(name, toAscii) == Some(target) {
      NormalizedLowers(name, toAscii, target);
    }
    if valid :| LowersTo(name, valid, target) {
      NameExactly(valid);
      ValidNormalized(name, toAscii, valid);
    }
  }

  /** Of a text that is not ASCII, normalizing accepts exactly what the IDNA conversion of
      the text, without one dot at its end, turns into a valid name. */
  lemma NormalizedOtherExactly(name: string, toAscii: string -> Option<string>, target: string)
    requires !IsAscii(name)
    ensures NormalizeDnsName(name, toAscii) == Some(target) <==>
            && '*' !in name && toAscii(StripDot(name)) == Some(target) && LetterDigitName(target)
  {
    var trimmed := StripDot(name);
    assert name == trimmed || name == trimmed + ".";
    assert !IsAscii(trimmed);
    NameExactly(target);
  }
}
