/** What each field of a rule asks of a report, stated on the texts themselves. */
module AttestationFields {
  import opened Octets
  import opened AttestationPolicy
  import Hex

  /******* Numbers *******/

  /** The decimal text of a number. */
  function Digits(n: nat): (r: string)
    ensures r != ""
  {
    if n < 10 then ["0123456789"[n]] else Digits(n / 10) + ["0123456789"[n % 10]]
  }

  function Text(n: int): string { if n < 0 then "-" + Digits(-n) else Digits(n) }

  ghost predicate NoDigitFirst(s: string) { s != "" ==> !('0' <= s[0] <= '9') }

  ghost predicate AllSpaces(s: string) {
    forall i :: 0 <= i < |s| ==> s[i] as int in {9, 10, 11, 12, 13, 32}
  }

  lemma ReadDigit(d: nat, tail: string, acc: nat)
    requires d < 10
    ensures '0' <= "0123456789"[d] <= '9'
    ensures DigitsValue(["0123456789"[d]] + tail, acc) == DigitsValue(tail, 10 * acc + d)
  {
    var c := "0123456789"[d];
    assert c as int == '0' as int + d;
    assert ([c] + tail)[1..] == tail;
  }

  lemma {:induction false} ReadDigits(n: nat, tail: string)
    ensures '0' <= Digits(n)[0] <= '9'
    ensures DigitsValue(Digits(n) + tail, 0) == DigitsValue(tail, n)
  {
    var d := "0123456789"[n % 10];
    ReadDigit(n % 10, tail, n / 10);
    if n >= 10 {
      ReadDigits(n / 10, [d] + tail);
      assert Digits(n) + tail == Digits(n / 10) + ([d] + tail);
    }
  }

  lemma {:induction false} SkipsSpaces(spaces: string, rest: string)
    requires AllSpaces(spaces) && (rest != "" ==> !IsSpace(rest[0]))
    ensures SkipSpaces(spaces + rest) == rest
  {
    if spaces == "" {
      assert spaces + rest == rest;
    } else {
      assert (spaces + rest)[1..] == spaces[1..] + rest;
      SkipsSpaces(spaces[1..], rest);
    }
  }

  datatype Sign = Unsigned | Plus | Minus {
    function Text(): string { match this case Unsigned => "" case Plus => "+" case Minus => "-" }
  }

  lemma StoiParts(text: string, sign: Sign, digits: string)
    requires SkipSpaces(text) == sign.Text() + digits && digits != "" && '0' <= digits[0] <= '9'
    ensures var v: int := (if sign == Minus then -1 else 1) * DigitsValue(digits, 0);
            Stoi(text) == if -0x8000_0000 <= v <= 0x7fff_ffff then Some(v) else None
  {
    var s := SkipSpaces(text);
    if sign == Unsigned { assert s == digits; } else { assert s[1..] == digits; }
  }

  /** A number after any white space and before anything but a digit is read as it is, if it fits an int. */
  lemma StoiReads(spaces: string, sign: Sign, m: nat, tail: string)
    requires AllSpaces(spaces) && NoDigitFirst(tail)
    ensures var v: int := if sign == Minus then -1 * m else m;
            Stoi(spaces + (sign.Text() + (Digits(m) + tail))) ==
              if -0x8000_0000 <= v <= 0x7fff_ffff then Some(v) else None
  {
    var digits := Digits(m) + tail;
    var text := sign.Text() + digits;
    ReadDigits(m, tail);
    assert digits[0] == Digits(m)[0];
    assert text[0] == if sign == Unsigned then digits[0] else sign.Text()[0];
    SkipsSpaces(spaces, text);
    StoiParts(spaces + text, sign, digits);
  }

  /** Anything else after the white space and its sign is no number. */
  lemma StoiRefuses(spaces: string, sign: Sign, rest: string)
    requires AllSpaces(spaces) && NoDigitFirst(rest)
    requires sign == Unsigned && rest != "" ==>
               rest[0] as int !in {9, 10, 11, 12, 13, 32} && rest[0] != '+' && rest[0] != '-'
    ensures Stoi(spaces + (sign.Text() + rest)) == None
  {
    var text := sign.Text() + rest;
    if sign == Unsigned { assert text == rest; } else { assert text[1..] == rest; }
    SkipsSpaces(spaces, text);
  }

  lemma StoiText(n: int)
    requires -0x8000_0000 <= n <= 0x7fff_ffff
    ensures Stoi(Text(n)) == Some(n)
  {
    var sign, m: nat := if n < 0 then Minus else Unsigned, if n < 0 then -n else n;
    StoiReads("", sign, m, "");
    assert Digits(m) + "" == Digits(m);
    assert "" + (sign.Text() + (Digits(m) + "")) == Text(n);
  }

  lemma SvnTexts(m: int, n: int)
    requires -0x8000_0000 <= m <= 0x7fff_ffff && -0x8000_0000 <= n <= 0x7fff_ffff
    ensures SvnMatches(Text(n), Text(m)) <==> m <= n
  {
    StoiText(m);
    StoiText(n);
  }

  lemma SvnOnly(sha: Bytes -> Bytes, a: Attributes, text: string)
    ensures var rule := NO_ATTRIBUTES.(minIsvSvn := text);
            && (Accepts(sha, a, [rule]) <==> SvnMatches(a.minIsvSvn, text))
            && (RulePassesOver(a, rule) <==> !SvnMatches(a.minIsvSvn, text))
  {
    SingleRule(sha, a, NO_ATTRIBUTES.(minIsvSvn := text));
  }

  /** A rule with a least version accepts exactly the reports whose version is no smaller, and is
      passed over for the others. */
  lemma SvnLaw(sha: Bytes -> Bytes, a: Attributes, m: int, n: int)
    requires -0x8000_0000 <= m <= 0x7fff_ffff && -0x8000_0000 <= n <= 0x7fff_ffff && a.minIsvSvn == Text(n)
    ensures var rule := NO_ATTRIBUTES.(minIsvSvn := Text(m));
            (Accepts(sha, a, [rule]) <==> m <= n) && (RulePassesOver(a, rule) <==> n < m)
  {
    SvnTexts(m, n);
    SvnOnly(sha, a, Text(m));
  }

  /** Where either text is no number that fits, the rule is passed over. */
  lemma SvnUnreadable(sha: Bytes -> Bytes, a: Attributes, text: string)
    requires text != "" && (Stoi(text).None? || Stoi(a.minIsvSvn).None?)
    ensures RulePassesOver(a, NO_ATTRIBUTES.(minIsvSvn := text))
  {
    SvnOnly(sha, a, text);
  }

  /******* Texts *******/

  /** An empty expectation is met by any text, another one by the same text up to ASCII case. */
  ghost predicate Meets(actual: string, expected: string) { expected == "" || Hex.SameText(expected, actual) }

  lemma StringIs(actual: string, expected: string)
    ensures StringMatches(actual, expected) <==> Meets(actual, expected)
  {
    Hex.EqualsIgnoreCaseIff(expected, actual);
  }

  ghost predicate Truthy(s: string) { s == "1" || Hex.SameText(s, "true") }

  lemma BoolIs(actual: string, expected: string)
    ensures BoolMatches(actual, expected) <==> expected == "" || (Truthy(expected) <==> Truthy(actual))
  {
    Hex.EqualsIgnoreCaseIff(expected, "true");
    Hex.EqualsIgnoreCaseIff(actual, "true");
  }

  /** The ten texts that are compared before the two soft fields. */
  function Leading(a: Attributes): (r: seq<string>)
    ensures |r| == 10
  {
    [a.platform, a.hwVersion, a.swVersion, a.secureFlags, a.platformMeasurement,
     a.bootMeasurement, a.taMeasurement, a.taDynMeasurement, a.signer, a.prodId]
  }

  ghost predicate LeadingMeet(a: Attributes, e: Attributes) {
    forall i :: 0 <= i < 10 ==> Meets(Leading(a)[i], Leading(e)[i])
  }

  /** A rule by its fields: all texts met, the key by the hash of its text, and the two soft fields. */
  lemma RuleIs(sha: Bytes -> Bytes, a: Attributes, e: Attributes)
    ensures LeadingMatches(a, e) <==> LeadingMeet(a, e)
    ensures RuleMatches(sha, a, e) <==>
            && LeadingMeet(a, e)
            && SvnMatches(a.minIsvSvn, e.minIsvSvn) && BoolMatches(a.debugDisabled, e.debugDisabled)
            && Meets(a.userData, e.userData) && Meets(a.nonce, e.nonce)
            && (e.pubkey != "" ==> Meets(a.pubkey, Hex.ToHex(sha(Hex.TextBytes(e.pubkey)))))
    ensures RulePassesOver(a, e) <==>
            && LeadingMeet(a, e)
            && !(SvnMatches(a.minIsvSvn, e.minIsvSvn) && BoolMatches(a.debugDisabled, e.debugDisabled))
  {
    var x, y := Leading(a), Leading(e);
    forall i | 0 <= i < 10 ensures StringMatches(x[i], y[i]) <==> Meets(x[i], y[i]) { StringIs(x[i], y[i]); }
    assert LeadingMatches(a, e) <==>
           && StringMatches(x[0], y[0]) && StringMatches(x[1], y[1]) && StringMatches(x[2], y[2])
           && StringMatches(x[3], y[3]) && StringMatches(x[4], y[4]) && StringMatches(x[5], y[5])
           && StringMatches(x[6], y[6]) && StringMatches(x[7], y[7]) && StringMatches(x[8], y[8])
           && StringMatches(x[9], y[9]);
    StringIs(a.userData, e.userData);
    StringIs(a.nonce, e.nonce);
    StringIs(a.pubkey, Hex.ToHex(sha(Hex.TextBytes(e.pubkey))));
  }
}
