/** Matching the attributes of a verified report against the rules of a policy. A string that
    does not match raises and ends the search; only ISVSVN and DEBUGDISABLED let the search go on. */
module AttestationPolicy {
  import opened Octets
  import Hex

  datatype Attributes = Attributes(
    platform: string,
    hwVersion: string,
    swVersion: string,
    secureFlags: string,
    platformMeasurement: string,
    bootMeasurement: string,
    taMeasurement: string,
    taDynMeasurement: string,
    signer: string,
    prodId: string,
    minIsvSvn: string,
    debugDisabled: string,
    userData: string,
    pubkey: string,
    nonce: string)

  const NO_ATTRIBUTES: Attributes := Attributes("", "", "", "", "", "", "", "", "", "", "", "", "", "", "")

  /******* Single fields *******/

  /** An empty expectation passes; strings compare without regard to ASCII case. */
  predicate StringMatches(actual: string, expected: string) {
    expected == "" || Hex.EqualsIgnoreCase(expected, actual)
  }

  predicate IsTrue(s: string) { Hex.EqualsIgnoreCase(s, "true") || s == "1" }

  predicate BoolMatches(actual: string, expected: string) {
    expected == "" || IsTrue(expected) == IsTrue(actual)
  }

  predicate IsSpace(c: char) { c == ' ' || '\t' <= c <= '\r' }

  predicate IsDigit(c: char) { '0' <= c <= '9' }

  function SkipSpaces(s: string): string {
    if s != "" && IsSpace(s[0]) then SkipSpaces(s[1..]) else s
  }

  /** The value of the leading digits, given the value of those before them. */
  function DigitsValue(s: string, acc: nat): nat
    decreases |s|
  {
    if s != "" && IsDigit(s[0]) then DigitsValue(s[1..], 10 * acc + (s[0] as int - '0' as int)) else acc
  }

  /** `std::stoi`: no digits is invalid_argument, a value beyond int is out_of_range. */
  function Stoi(text: string): Option<int> {
    var s := SkipSpaces(text);
    var negative := s != "" && s[0] == '-';
    var digits := if s != "" && (s[0] == '-' || s[0] == '+') then s[1..] else s;
    if digits == "" || !IsDigit(digits[0]) then None
    else
      var v := (if negative then -1 else 1) * DigitsValue(digits, 0);
      if -0x8000_0000 <= v < 0x8000_0000 then Some(v) else None
  }

  predicate SvnMatches(actual: string, expected: string) {
    expected == "" || (Stoi(expected).Some? && Stoi(actual).Some? && Stoi(expected).value <= Stoi(actual).value)
  }

  /******* One rule *******/

  /** The ten strings compared before the two fields that can fail without raising. */
  predicate LeadingMatches(a: Attributes, e: Attributes) {
    && StringMatches(a.platform, e.platform)
    && StringMatches(a.hwVersion, e.hwVersion)
    && StringMatches(a.swVersion, e.swVersion)
    && StringMatches(a.secureFlags, e.secureFlags)
    && StringMatches(a.platformMeasurement, e.platformMeasurement)
    && StringMatches(a.bootMeasurement, e.bootMeasurement)
    && StringMatches(a.taMeasurement, e.taMeasurement)
    && StringMatches(a.taDynMeasurement, e.taDynMeasurement)
    && StringMatches(a.signer, e.signer)
    && StringMatches(a.prodId, e.prodId)
  }

  predicate SoftMatches(a: Attributes, e: Attributes) {
    SvnMatches(a.minIsvSvn, e.minIsvSvn) && BoolMatches(a.debugDisabled, e.debugDisabled)
  }

  /** The public key in a rule is hashed before it is compared. */
  predicate TrailingMatches(sha: Bytes -> Bytes, a: Attributes, e: Attributes) {
    && StringMatches(a.userData, e.userData)
    && (e.pubkey == "" || StringMatches(a.pubkey, Hex.ToHex(sha(Hex.TextBytes(e.pubkey)))))
    && StringMatches(a.nonce, e.nonce)
  }

  predicate RuleMatches(sha: Bytes -> Bytes, a: Attributes, e: Attributes) {
    LeadingMatches(a, e) && SoftMatches(a, e) && TrailingMatches(sha, a, e)
  }

  /** The rule is passed over: the search goes on with the next one. */
  predicate RulePassesOver(a: Attributes, e: Attributes) {
    LeadingMatches(a, e) && !SoftMatches(a, e)
  }

  datatype Match = Matches | Fails(field: string) | Raises(field: string)

  method AttrsIsMatch(sha: Bytes -> Bytes, a: Attributes, e: Attributes) returns (m: Match)
    ensures m.Matches? <==> RuleMatches(sha, a, e)
    ensures m.Fails? <==> RulePassesOver(a, e)
    ensures m.Raises? <==> !RuleMatches(sha, a, e) && !RulePassesOver(a, e)
    ensures m.Fails? ==> m.field == if SvnMatches(a.minIsvSvn, e.minIsvSvn) then "DEBUGDISABLED" else "ISVSVN"
  {
    if !StringMatches(a.platform, e.platform) { return Raises("PLATFORM"); }
    if !StringMatches(a.hwVersion, e.hwVersion) { return Raises("PLATFORMHWVERSION"); }
    if !StringMatches(a.swVersion, e.swVersion) { return Raises("PLATFORMSWVERSION"); }
    if !StringMatches(a.secureFlags, e.secureFlags) { return Raises("SECUREFLAGS"); }
    if !StringMatches(a.platformMeasurement, e.platformMeasurement) { return Raises("MRPLATFORM"); }
    if !StringMatches(a.bootMeasurement, e.bootMeasurement) { return Raises("MRBOOT"); }
    if !StringMatches(a.taMeasurement, e.taMeasurement) { return Raises("MRTRUSTAPP"); }
    if !StringMatches(a.taDynMeasurement, e.taDynMeasurement) { return Raises("MRTRUSTAPPDYN"); }
    if !StringMatches(a.signer, e.signer) { return Raises("SIGNER"); }
    if !StringMatches(a.prodId, e.prodId) { return Raises("PRODID"); }
    if !SvnMatches(a.minIsvSvn, e.minIsvSvn) { return Fails("ISVSVN"); }
    if !BoolMatches(a.debugDisabled, e.debugDisabled) { return Fails("DEBUGDISABLED"); }
    if !StringMatches(a.userData, e.userData) { return Raises("USERDATA"); }
    if e.pubkey != "" {
      var expectedHash := Hex.ToHex(sha(Hex.TextBytes(e.pubkey)));
      if !StringMatches(a.pubkey, expectedHash) { return Raises("PUBLICKEY"); }
    }
    if !StringMatches(a.nonce, e.nonce) { return Raises("NONCE"); }
    return Matches;
  }

  /******* Policies *******/

  datatype Verdict = Accepted | Raised(rule: nat, field: string) | NoMatch(errors: seq<string>)

  /** The first rule that is not passed over decides. */
  ghost predicate FirstDecisive(a: Attributes, rules: seq<Attributes>, k: int) {
    && 0 <= k < |rules|
    && !RulePassesOver(a, rules[k])
    && forall i :: 0 <= i < k ==> RulePassesOver(a, rules[i])
  }

  ghost predicate Accepts(sha: Bytes -> Bytes, a: Attributes, rules: seq<Attributes>) {
    exists k :: FirstDecisive(a, rules, k) && RuleMatches(sha, a, rules[k])
  }

  method VerifyAttributes(sha: Bytes -> Bytes, a: Attributes, rules: seq<Attributes>) returns (v: Verdict)
    ensures v.Accepted? <==> Accepts(sha, a, rules)
    ensures v.Raised? <==> exists k :: FirstDecisive(a, rules, k) && !RuleMatches(sha, a, rules[k])
    ensures v.Raised? ==> FirstDecisive(a, rules, v.rule) && !RuleMatches(sha, a, rules[v.rule])
    ensures v.NoMatch? <==> forall i :: 0 <= i < |rules| ==> RulePassesOver(a, rules[i])
    ensures v.NoMatch? ==> |v.errors| == |rules|
    ensures v.NoMatch? ==> forall i :: 0 <= i < |rules| ==>
              v.errors[i] == if SvnMatches(a.minIsvSvn, rules[i].minIsvSvn) then "DEBUGDISABLED" else "ISVSVN"
  {
    var errors: seq<string> := [];
    for i := 0 to |rules|
      invariant |errors| == i
      invariant forall j :: 0 <= j < i ==>
                  errors[j] == if SvnMatches(a.minIsvSvn, rules[j].minIsvSvn) then "DEBUGDISABLED" else "ISVSVN"
      invariant forall j :: 0 <= j < i ==> RulePassesOver(a, rules[j])
    {
      var m := AttrsIsMatch(sha, a, rules[i]);
      if !m.Fails? {
        assert FirstDecisive(a, rules, i);
        return if m.Matches? then Accepted else Raised(i, m.field);
      }
      errors := errors + [m.field];
    }
    return NoMatch(errors);
  }

  /** Acceptance is sound, and an empty policy accepts nothing. */
  lemma AcceptanceIsSound(sha: Bytes -> Bytes, a: Attributes, rules: seq<Attributes>)
    requires Accepts(sha, a, rules)
    ensures rules != [] && exists k :: 0 <= k < |rules| && RuleMatches(sha, a, rules[k])
  {
    var k :| FirstDecisive(a, rules, k) && RuleMatches(sha, a, rules[k]);
    assert RuleMatches(sha, a, rules[k]);
  }

  /** One rule: accepted exactly when it matches. */
  lemma SingleRule(sha: Bytes -> Bytes, a: Attributes, rule: Attributes)
    ensures Accepts(sha, a, [rule]) <==> RuleMatches(sha, a, rule)
  {
    if RuleMatches(sha, a, rule) { assert FirstDecisive(a, [rule], 0); }
  }

  /** Rules added at the end never turn acceptance into rejection. */
  lemma AppendKeepsAcceptance(sha: Bytes -> Bytes, a: Attributes, rules: seq<Attributes>, more: seq<Attributes>)
    requires Accepts(sha, a, rules)
    ensures Accepts(sha, a, rules + more)
  {
    var k :| FirstDecisive(a, rules, k) && RuleMatches(sha, a, rules[k]);
    assert FirstDecisive(a, rules + more, k);
  }

  lemma DecisiveShift(a: Attributes, first: Attributes, rules: seq<Attributes>, k: nat)
    ensures FirstDecisive(a, [first] + rules, k + 1) <==> RulePassesOver(a, first) && FirstDecisive(a, rules, k)
  {
    var all := [first] + rules;
    assert forall i :: 0 <= i < |rules| ==> all[i + 1] == rules[i];
    if FirstDecisive(a, all, k + 1) {
      assert RulePassesOver(a, all[0]);
      forall i | 0 <= i < k ensures RulePassesOver(a, rules[i]) { assert RulePassesOver(a, all[i + 1]); }
    }
    if RulePassesOver(a, first) && FirstDecisive(a, rules, k) {
      forall i | 0 <= i < k + 1 ensures RulePassesOver(a, all[i]) { if i > 0 { assert all[i] == rules[i - 1]; } }
    }
  }

  /** A rule put in front decides alone unless it is passed over. */
  lemma PrependDecides(sha: Bytes -> Bytes, a: Attributes, first: Attributes, rules: seq<Attributes>)
    ensures Accepts(sha, a, [first] + rules) <==>
            if RulePassesOver(a, first) then Accepts(sha, a, rules) else RuleMatches(sha, a, first)
  {
    var all := [first] + rules;
    assert FirstDecisive(a, all, 0) <==> !RulePassesOver(a, first);
    if Accepts(sha, a, all) {
      var k :| FirstDecisive(a, all, k) && RuleMatches(sha, a, all[k]);
      if k > 0 { DecisiveShift(a, first, rules, k - 1); }
    }
    if RulePassesOver(a, first) && Accepts(sha, a, rules) { PassedOverInFront(sha, a, first, rules); }
  }

  lemma PassedOverInFront(sha: Bytes -> Bytes, a: Attributes, first: Attributes, rules: seq<Attributes>)
    requires RulePassesOver(a, first) && Accepts(sha, a, rules)
    ensures Accepts(sha, a, [first] + rules)
  {
    var all := [first] + rules;
    var k :| FirstDecisive(a, rules, k) && RuleMatches(sha, a, rules[k]);
    DecisiveShift(a, first, rules, k);
    assert all[k + 1] == rules[k];
  }

  /** A matching rule alone is not enough: another platform's rule in front of it raises. */
  lemma MatchingRuleCanBeMissed(sha: Bytes -> Bytes)
    ensures var a := NO_ATTRIBUTES.(platform := "TDX");
            var other := NO_ATTRIBUTES.(platform := "SGX_DCAP");
            && RuleMatches(sha, a, a)
            && !Accepts(sha, a, [other, a])
            && Accepts(sha, a, [a, other])
  {
    var a := NO_ATTRIBUTES.(platform := "TDX");
    var other := NO_ATTRIBUTES.(platform := "SGX_DCAP");
    Hex.EqualsIgnoreCaseSelf("TDX");
    assert |"SGX_DCAP"| != |"TDX"|;
    PrependDecides(sha, a, other, [a]);
    assert [other] + [a] == [other, a];
    PrependDecides(sha, a, a, [other]);
    assert [a] + [other] == [a, other];
  }

  /** "Some rule matches" decides acceptance exactly when no rule ahead of the first match raises. */
  lemma AcceptsIffSomeRuleMatches(sha: Bytes -> Bytes, a: Attributes, rules: seq<Attributes>)
    ensures (Accepts(sha, a, rules) <==> exists k :: 0 <= k < |rules| && RuleMatches(sha, a, rules[k])) <==>
            !(exists j, k :: 0 <= j < k < |rules|
                  && FirstDecisive(a, rules, j) && !RuleMatches(sha, a, rules[j]) && RuleMatches(sha, a, rules[k]))
  {
    if Accepts(sha, a, rules) {
      var j :| FirstDecisive(a, rules, j) && RuleMatches(sha, a, rules[j]);
      assert forall i :: FirstDecisive(a, rules, i) ==> i == j;
    } else if exists k :: 0 <= k < |rules| && RuleMatches(sha, a, rules[k]) {
      var k :| 0 <= k < |rules| && RuleMatches(sha, a, rules[k]);
      var j := DecisiveBefore(a, rules, k);
      assert j != k;
    }
  }

  lemma DecisiveBefore(a: Attributes, rules: seq<Attributes>, k: nat) returns (j: nat)
    requires k < |rules| && !RulePassesOver(a, rules[k])
    ensures j <= k && FirstDecisive(a, rules, j)
  {
    j := 0;
    while RulePassesOver(a, rules[j])
      invariant j <= k && forall i :: 0 <= i < j ==> RulePassesOver(a, rules[i])
      decreases k - j
    {
      j := j + 1;
    }
  }
}
