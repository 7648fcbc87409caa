/** From a certificate and a nonce to a TDX report and back: what the generator puts into the
    report data, what the verifier reads out of the quote, and when a client's policy accepts it. */
module TdxBinding {
  import opened Octets
  import opened AttestationPolicy
  import Hex

  const HASH_SIZE: nat := 32
  const REPORT_DATA_SIZE: nat := 64
  const MEASUREMENT_SIZE: nat := 48
  const TDX: string := "TDX"
  const SIM: string := "sim"
  const TEE_TYPE_TDX: nat := 0x81

  /** SHA-256 is any function to 32 bytes. */
  type Hash = h: Bytes -> Bytes | forall x :: |h(x)| == HASH_SIZE witness x => Zeros(32)

  /******* Generation *******/

  datatype GenParams = GenParams(nonceHex: string, userDataHex: string, publicKeyHex: string)

  predicate ValidParams(p: GenParams) {
    |p.nonceHex| <= 2 * HASH_SIZE && |p.userDataHex| <= 2 * HASH_SIZE && (p.nonceHex == "" || p.userDataHex == "")
  }

  function Padded(b: Bytes): (r: Bytes)
    requires |b| <= HASH_SIZE
    ensures |r| == HASH_SIZE
  {
    b + Zeros(HASH_SIZE - |b|)
  }

  /** The lower half holds the nonce or the user data, the upper half the hash of the public key. */
  function ReportDataOf(sha: Hash, p: GenParams): (r: Bytes)
    requires ValidParams(p)
    ensures |r| == REPORT_DATA_SIZE
  {
    Padded(Hex.FromHex(if p.nonceHex != "" then p.nonceHex else p.userDataHex)) +
    (if p.publicKeyHex != "" then sha(Hex.FromHex(p.publicKeyHex)) else Zeros(HASH_SIZE))
  }

  /** `src` laid over `s` from `at` on. */
  function Overlay(s: Bytes, at: nat, src: Bytes): (r: Bytes)
    requires at + |src| <= |s|
    ensures |r| == |s|
  {
    s[..at] + src + s[at + |src|..]
  }

  method CopyInto(d: array<Byte>, at: nat, src: Bytes)
    requires at + |src| <= d.Length
    modifies d
    ensures d[..] == Overlay(old(d[..]), at, src)
  {
    for i := 0 to |src|
      invariant d[..] == old(d[..at]) + src[..i] + old(d[at + i..])
    {
      d[at + i] := src[i];
    }
    assert src[..|src|] == src;
  }

  /** Cleared report data, the low part laid over its start, the key hash over its upper half. */
  lemma LayersMakeReportData(sha: Hash, p: GenParams, before: Bytes)
    requires ValidParams(p) && |before| == REPORT_DATA_SIZE
    ensures var cleared := Overlay(before, 0, Zeros(REPORT_DATA_SIZE));
            var withNonce := if p.nonceHex != "" then Overlay(cleared, 0, Hex.FromHex(p.nonceHex)) else cleared;
            var low := if p.userDataHex != "" then Overlay(withNonce, 0, Hex.FromHex(p.userDataHex)) else withNonce;
            (if p.publicKeyHex != "" then Overlay(low, HASH_SIZE, sha(Hex.FromHex(p.publicKeyHex))) else low)
              == ReportDataOf(sha, p)
  {
    var cleared := Overlay(before, 0, Zeros(REPORT_DATA_SIZE));
    var bytes := Hex.FromHex(if p.nonceHex != "" then p.nonceHex else p.userDataHex);
    assert cleared == Zeros(REPORT_DATA_SIZE);
    assert Overlay(cleared, 0, bytes) == Padded(bytes) + Zeros(HASH_SIZE);
    assert Padded([]) + Zeros(HASH_SIZE) == cleared;
    var hash := sha(Hex.FromHex(p.publicKeyHex));
    assert Overlay(Padded(bytes) + Zeros(HASH_SIZE), HASH_SIZE, hash) == Padded(bytes) + hash;
  }

  /** Fills the report data in place, or refuses parameters that are too long or both given. */
  method PrepareTdxReportData(sha: Hash, p: GenParams, d: array<Byte>) returns (ok: bool)
    requires d.Length == REPORT_DATA_SIZE
    modifies d
    ensures ok <==> |p.nonceHex| <= 64 && |p.userDataHex| <= 64 && (p.nonceHex == "" || p.userDataHex == "")
    ensures ok ==> d[..] == ReportDataOf(sha, p)
    ensures !ok ==> d[..] == old(d[..])
  {
    if |p.nonceHex| > 2 * HASH_SIZE { return false; }
    if |p.userDataHex| > 2 * HASH_SIZE { return false; }
    if p.nonceHex != "" && p.userDataHex != "" { return false; }
    LayersMakeReportData(sha, p, d[..]);
    CopyInto(d, 0, Zeros(REPORT_DATA_SIZE));
    if p.nonceHex != "" {
      var nonce := Hex.FromHex(p.nonceHex);
      CopyInto(d, 0, nonce);
    }
    if p.userDataHex != "" {
      var userData := Hex.FromHex(p.userDataHex);
      CopyInto(d, 0, userData);
    }
    if p.publicKeyHex != "" {
      var keyHash := sha(Hex.FromHex(p.publicKeyHex));
      CopyInto(d, HASH_SIZE, keyHash);
    }
    return true;
  }

  /******* Verification *******/

  datatype ReportBody = ReportBody(
    mrSeam: Bytes,
    mrSignerSeam: Bytes,
    mrTd: Bytes,
    mrConfigId: Bytes,
    mrOwner: Bytes,
    mrOwnerConfig: Bytes,
    rtMr0: Bytes,
    rtMr1: Bytes,
    rtMr2: Bytes,
    rtMr3: Bytes,
    tdAttributes: nat,
    reportData: Bytes)

  /** A quote as the parser sees it: large enough for both layouts or not, and its header. */
  datatype Quote = Quote(largeEnough: bool, teeType: nat, version: nat, body: ReportBody)

  ghost predicate ValidBody(b: ReportBody) {
    && |b.mrSeam| == |b.mrSignerSeam| == |b.mrTd| == |b.mrConfigId|
          == |b.mrOwner| == |b.mrOwnerConfig| == MEASUREMENT_SIZE
    && |b.rtMr0| == |b.rtMr1| == |b.rtMr2| == |b.rtMr3| == MEASUREMENT_SIZE
    && |b.reportData| == REPORT_DATA_SIZE
  }

  function PlatformRegisters(b: ReportBody): Bytes {
    b.mrSeam + b.mrSignerSeam + b.mrTd + b.mrConfigId + b.mrOwner + b.mrOwnerConfig
  }

  function PlatformMeasurement(b: ReportBody): string {
    Hex.ToHex(b.mrSeam) + Hex.ToHex(b.mrSignerSeam) + Hex.ToHex(b.mrTd) +
    Hex.ToHex(b.mrConfigId) + Hex.ToHex(b.mrOwner) + Hex.ToHex(b.mrOwnerConfig)
  }

  function BootMeasurement(b: ReportBody): string { Hex.ToHex(b.rtMr0) + Hex.ToHex(b.rtMr1) }

  function TaMeasurement(b: ReportBody): string { Hex.ToHex(b.rtMr2) + Hex.ToHex(b.rtMr3) }

  /** The verifier applies the SGX debug mask, bit 1, to the attributes of the trust domain. */
  predicate SgxDebugMask(b: ReportBody) { b.tdAttributes / 2 % 2 == 1 }

  /** DEBUG in the ATTRIBUTES field of a trust domain is bit 0 (Intel TDX Module specification). */
  predicate InDebugMode(b: ReportBody) { b.tdAttributes % 2 == 1 }

  function ParseBody(b: ReportBody): Attributes
    requires ValidBody(b)
  {
    NO_ATTRIBUTES.(
      platform := TDX,
      platformMeasurement := PlatformMeasurement(b),
      bootMeasurement := BootMeasurement(b),
      taMeasurement := TaMeasurement(b),
      userData := Hex.ToHex(b.reportData[..HASH_SIZE]),
      pubkey := Hex.ToHex(b.reportData[HASH_SIZE..]),
      debugDisabled := if SgxDebugMask(b) then "false" else "true")
  }

  function ParseUnifiedReport(q: Quote): Option<Attributes>
    requires ValidBody(q.body)
  {
    if !q.largeEnough || q.teeType != TEE_TYPE_TDX || !(q.version == 4 || q.version == 5) then None
    else Some(ParseBody(q.body))
  }

  /******* Measurements determine the registers *******/

  lemma {:induction false} ToHexConcat(a: Bytes, b: Bytes)
    ensures Hex.ToHex(a + b) == Hex.ToHex(a) + Hex.ToHex(b)
  {
    if a == [] {
      assert a + b == b;
    } else {
      assert (a + b)[1..] == a[1..] + b;
      ToHexConcat(a[1..], b);
    }
  }

  lemma PlatformMeasurementIs(b: ReportBody)
    ensures PlatformMeasurement(b) == Hex.ToHex(PlatformRegisters(b))
  {
    ToHexConcat(b.mrSeam, b.mrSignerSeam);
    ToHexConcat(b.mrSeam + b.mrSignerSeam, b.mrTd);
    ToHexConcat(b.mrSeam + b.mrSignerSeam + b.mrTd, b.mrConfigId);
    ToHexConcat(b.mrSeam + b.mrSignerSeam + b.mrTd + b.mrConfigId, b.mrOwner);
    ToHexConcat(b.mrSeam + b.mrSignerSeam + b.mrTd + b.mrConfigId + b.mrOwner, b.mrOwnerConfig);
  }

  lemma ConcatInjective(a: Bytes, b: Bytes, a': Bytes, b': Bytes)
    requires |a| == |a'| && a + b == a' + b'
    ensures a == a' && b == b'
  {
    assert a == (a + b)[..|a|] && a' == (a' + b')[..|a|];
    assert b == (a + b)[|a|..] && b' == (a' + b')[|a|..];
  }

  lemma PlatformRegistersInjective(b: ReportBody, c: ReportBody)
    requires ValidBody(b) && ValidBody(c) && PlatformRegisters(b) == PlatformRegisters(c)
    ensures b.mrSeam == c.mrSeam && b.mrSignerSeam == c.mrSignerSeam && b.mrTd == c.mrTd
    ensures b.mrConfigId == c.mrConfigId && b.mrOwner == c.mrOwner && b.mrOwnerConfig == c.mrOwnerConfig
  {
    ConcatInjective(b.mrSeam + b.mrSignerSeam + b.mrTd + b.mrConfigId + b.mrOwner, b.mrOwnerConfig,
                    c.mrSeam + c.mrSignerSeam + c.mrTd + c.mrConfigId + c.mrOwner, c.mrOwnerConfig);
    ConcatInjective(b.mrSeam + b.mrSignerSeam + b.mrTd + b.mrConfigId, b.mrOwner,
                    c.mrSeam + c.mrSignerSeam + c.mrTd + c.mrConfigId, c.mrOwner);
    ConcatInjective(b.mrSeam + b.mrSignerSeam + b.mrTd, b.mrConfigId, c.mrSeam + c.mrSignerSeam + c.mrTd, c.mrConfigId);
    ConcatInjective(b.mrSeam + b.mrSignerSeam, b.mrTd, c.mrSeam + c.mrSignerSeam, c.mrTd);
    ConcatInjective(b.mrSeam, b.mrSignerSeam, c.mrSeam, c.mrSignerSeam);
  }

  ghost predicate SameRegisters(b: ReportBody, c: ReportBody) {
    && b.mrSeam == c.mrSeam && b.mrSignerSeam == c.mrSignerSeam && b.mrTd == c.mrTd
    && b.mrConfigId == c.mrConfigId && b.mrOwner == c.mrOwner && b.mrOwnerConfig == c.mrOwnerConfig
    && b.rtMr0 == c.rtMr0 && b.rtMr1 == c.rtMr1 && b.rtMr2 == c.rtMr2 && b.rtMr3 == c.rtMr3
  }

  lemma PairMeasurement(x: Bytes, y: Bytes, x': Bytes, y': Bytes)
    requires |x| == |x'|
    ensures Hex.EqualsIgnoreCase(Hex.ToHex(x) + Hex.ToHex(y), Hex.ToHex(x') + Hex.ToHex(y')) <==> x == x' && y == y'
  {
    ToHexConcat(x, y);
    ToHexConcat(x', y');
    Hex.HexInjective(x + y, x' + y');
    if x + y == x' + y' { ConcatInjective(x, y, x', y'); }
  }

  /** The three measurement strings agree up to case exactly when all ten registers agree. */
  lemma MeasurementsIff(b: ReportBody, c: ReportBody)
    requires ValidBody(b) && ValidBody(c)
    ensures (&& Hex.EqualsIgnoreCase(PlatformMeasurement(b), PlatformMeasurement(c))
             && Hex.EqualsIgnoreCase(BootMeasurement(b), BootMeasurement(c))
             && Hex.EqualsIgnoreCase(TaMeasurement(b), TaMeasurement(c))) <==> SameRegisters(b, c)
  {
    PlatformMeasurementIs(b);
    PlatformMeasurementIs(c);
    Hex.HexInjective(PlatformRegisters(b), PlatformRegisters(c));
    if PlatformRegisters(b) == PlatformRegisters(c) { PlatformRegistersInjective(b, c); }
    PairMeasurement(b.rtMr0, b.rtMr1, c.rtMr0, c.rtMr1);
    PairMeasurement(b.rtMr2, b.rtMr3, c.rtMr2, c.rtMr3);
  }

  /** The texts in order: 96 digits a register, the platform's six, then two and two run-time registers. */
  lemma MeasurementTexts(b: ReportBody)
    requires ValidBody(b)
    ensures var p := PlatformMeasurement(b);
            && |p| == 576
            && p[..96] == Hex.ToHex(b.mrSeam) && p[96..192] == Hex.ToHex(b.mrSignerSeam)
            && p[192..288] == Hex.ToHex(b.mrTd) && p[288..384] == Hex.ToHex(b.mrConfigId)
            && p[384..480] == Hex.ToHex(b.mrOwner) && p[480..] == Hex.ToHex(b.mrOwnerConfig)
    ensures var t := BootMeasurement(b);
            |t| == 192 && t[..96] == Hex.ToHex(b.rtMr0) && t[96..] == Hex.ToHex(b.rtMr1)
    ensures var t := TaMeasurement(b);
            |t| == 192 && t[..96] == Hex.ToHex(b.rtMr2) && t[96..] == Hex.ToHex(b.rtMr3)
  {}

  /** A rule that quotes the measurements of a reference report. */
  function ReferenceRule(c: ReportBody): Attributes {
    NO_ATTRIBUTES.(
      platformMeasurement := PlatformMeasurement(c),
      bootMeasurement := BootMeasurement(c),
      taMeasurement := TaMeasurement(c))
  }

  /** Such a rule accepts exactly the reports with the reference's registers. */
  lemma ReferenceRuleIff(sha: Hash, b: ReportBody, c: ReportBody)
    requires ValidBody(b) && ValidBody(c)
    ensures Accepts(sha, ParseBody(b), [ReferenceRule(c)]) <==> SameRegisters(b, c)
  {
    SingleRule(sha, ParseBody(b), ReferenceRule(c));
    MeasurementsIff(c, b);
    assert |PlatformMeasurement(c)| > 0 && |BootMeasurement(c)| > 0 && |TaMeasurement(c)| > 0;
    assert !RulePassesOver(ParseBody(b), ReferenceRule(c));
  }

  /******* The certificate and the nonce *******/

  /** The client's digest: the pieces joined by dots, fed to the hash one after the other. */
  function Joined(args: seq<Bytes>): Bytes
    requires args != []
  {
    if |args| == 1 then args[0] else Joined(args[..|args| - 1]) + ['.' as int] + args[|args| - 1]
  }

  method Sha256(sha: Hash, args: seq<Bytes>) returns (digest: Bytes)
    requires args != []
    ensures digest == sha(Joined(args))
  {
    var fed := args[0];
    assert args[..1] == [args[0]];
    for i := 1 to |args|
      invariant fed == Joined(args[..i])
    {
      assert args[..i + 1][..i] == args[..i];
      fed := fed + ['.' as int];
      fed := fed + args[i];
    }
    assert args[..|args|] == args;
    return sha(fed);
  }

  /** From the front: the first piece, a dot, and the others joined. */
  lemma {:induction false} JoinedFront(first: Bytes, rest: seq<Bytes>)
    requires rest != []
    ensures Joined([first]) == first
    ensures Joined([first] + rest) == first + ['.' as int] + Joined(rest)
    decreases |rest|
  {
    var n := |rest| - 1;
    var all := [first] + rest;
    var front, dot, last := rest[..n], ['.' as int], rest[n];
    assert all[..n + 1] == [first] + front && all[n + 1] == last;
    if n == 0 {
      assert [first] + front == [first] && rest == [last];
    } else {
      JoinedFront(first, front);
      var j := Joined(front);
      assert (first + dot + j) + dot + last == first + dot + (j + dot + last);
    }
  }

  /** What GetRaCert asks the generator to put into the report; nothing in simulation. */
  function RaParams(sha: Hash, platform: string, cert: Bytes, nonce: Bytes): Option<GenParams> {
    if platform == SIM then None
    else Some(GenParams("", Hex.ToHex(sha(cert + ['.' as int] + nonce)), ""))
  }

  /** The policy the client builds from the certificate it was given and the nonce it chose. */
  function ClientRule(sha: Hash, cert: Bytes, nonce: Bytes): Attributes {
    NO_ATTRIBUTES.(userData := Hex.ToHex(sha(Joined([cert, nonce]))))
  }

  lemma JoinedPair(cert: Bytes, nonce: Bytes)
    ensures Joined([cert, nonce]) == cert + ['.' as int] + nonce
  {
    assert [cert, nonce][..1] == [cert];
  }

  /** A client accepts a report exactly when its lower report data is the digest the client computes. */
  lemma ClientAcceptsIff(sha: Hash, b: ReportBody, cert: Bytes, nonce: Bytes)
    requires ValidBody(b)
    ensures Accepts(sha, ParseBody(b), [ClientRule(sha, cert, nonce)]) <==>
            b.reportData[..HASH_SIZE] == sha(cert + ['.' as int] + nonce)
  {
    JoinedPair(cert, nonce);
    SingleRule(sha, ParseBody(b), ClientRule(sha, cert, nonce));
    Hex.HexInjective(sha(cert + ['.' as int] + nonce), b.reportData[..HASH_SIZE]);
    assert |ClientRule(sha, cert, nonce).userData| == 64;
  }

  /** What GetRaCert asks for is always a valid request, and its digest fills the lower report data. */
  lemma RaParamsValid(sha: Hash, platform: string, cert: Bytes, nonce: Bytes)
    requires platform != SIM
    ensures var p := RaParams(sha, platform, cert, nonce).value;
            ValidParams(p) && ReportDataOf(sha, p)[..HASH_SIZE] == sha(cert + ['.' as int] + nonce)
  {
    var digest := sha(cert + ['.' as int] + nonce);
    Hex.HexRoundTrip(digest);
    assert Padded(digest) == digest;
  }

  /** A quote passes a policy: it parses and its attributes are accepted. */
  ghost predicate QuoteAccepted(sha: Hash, q: Quote, rules: seq<Attributes>)
    requires ValidBody(q.body)
  {
    ParseUnifiedReport(q).Some? && Accepts(sha, ParseUnifiedReport(q).value, rules)
  }

  /** The quote made for one certificate and nonce passes the policy built from another pair exactly
      when it parses and the two digests are equal; in particular it passes its own. */
  lemma RaBinding(sha: Hash, platform: string, p: GenParams, q: Quote,
                  cert: Bytes, nonce: Bytes, cert': Bytes, nonce': Bytes)
    requires ValidBody(q.body) && platform != SIM
    requires RaParams(sha, platform, cert, nonce) == Some(p) && ValidParams(p) &&
             q.body.reportData == ReportDataOf(sha, p)
    ensures QuoteAccepted(sha, q, [ClientRule(sha, cert', nonce')]) <==>
            && q.largeEnough && q.teeType == TEE_TYPE_TDX && q.version in {4, 5}
            && sha(cert + ['.' as int] + nonce) == sha(cert' + ['.' as int] + nonce')
  {
    RaParamsValid(sha, platform, cert, nonce);
    ClientAcceptsIff(sha, q.body, cert', nonce');
  }

  /** A public key put into the report passes a rule that names it exactly when hashing the decoded key
      and hashing its text give the same digest: the two sides hash different byte strings. */
  lemma PublicKeyAcceptedIff(sha: Hash, b: ReportBody, p: GenParams)
    requires ValidBody(b) && ValidParams(p) && p.publicKeyHex != "" && b.reportData == ReportDataOf(sha, p)
    ensures Accepts(sha, ParseBody(b), [NO_ATTRIBUTES.(pubkey := p.publicKeyHex)]) <==>
            sha(Hex.FromHex(p.publicKeyHex)) == sha(Hex.TextBytes(p.publicKeyHex))
    ensures Hex.FromHex(p.publicKeyHex) != Hex.TextBytes(p.publicKeyHex)
  {
    var rule := NO_ATTRIBUTES.(pubkey := p.publicKeyHex);
    var expected := sha(Hex.TextBytes(p.publicKeyHex));
    SingleRule(sha, ParseBody(b), rule);
    assert b.reportData[HASH_SIZE..] == sha(Hex.FromHex(p.publicKeyHex));
    Hex.HexInjective(expected, b.reportData[HASH_SIZE..]);
    assert |Hex.ToHex(expected)| == 64;
    assert |Hex.FromHex(p.publicKeyHex)| < |Hex.TextBytes(p.publicKeyHex)|;
  }

  const NO_DEBUG: Attributes := NO_ATTRIBUTES.(debugDisabled := "1")

  lemma DebugRuleIff(sha: Hash, b: ReportBody)
    requires ValidBody(b)
    ensures Accepts(sha, ParseBody(b), [NO_DEBUG]) <==> !SgxDebugMask(b)
  {
    SingleRule(sha, ParseBody(b), NO_DEBUG);
    Hex.EqualsIgnoreCaseSelf("true");
    assert |"false"| != |"true"| && |"1"| != |"true"|;
    assert IsTrue("1") && IsTrue("true") && !IsTrue("false");
  }

  /** A rule against debugging accepts exactly the domains not in debug mode when bits 0 and 1 of
      their attributes are equal, and errs on all others. */
  lemma DebugRuleAgreesIff(sha: Hash, b: ReportBody)
    requires ValidBody(b)
    ensures (Accepts(sha, ParseBody(b), [NO_DEBUG]) <==> !InDebugMode(b)) <==>
            b.tdAttributes % 2 == b.tdAttributes / 2 % 2
  {
    DebugRuleIff(sha, b);
  }

  /** A domain whose only attribute is DEBUG is accepted. */
  lemma DebugRuleMisses(sha: Hash, b: ReportBody)
    requires ValidBody(b) && b.tdAttributes == 1
    ensures InDebugMode(b) && Accepts(sha, ParseBody(b), [NO_DEBUG])
  {
    DebugRuleIff(sha, b);
  }

  const ZERO_KEY: string := "00"

  lemma ZeroKeyBytes()
    ensures Hex.FromHex(ZERO_KEY) == [0] && Hex.TextBytes(ZERO_KEY) == [0x30, 0x30]
  {
    assert Hex.FromHex(ZERO_KEY[2..]) == [];
  }

  /** The key "00" is one zero byte to the generator and two digits to the verifier, so it is refused
      by every hash that tells these apart. */
  lemma PublicKeyMissed(sha: Hash, b: ReportBody, p: GenParams)
    requires ValidBody(b) && ValidParams(p) && p.publicKeyHex == ZERO_KEY && b.reportData == ReportDataOf(sha, p)
    requires sha([0]) != sha([0x30, 0x30])
    ensures !Accepts(sha, ParseBody(b), [NO_ATTRIBUTES.(pubkey := p.publicKeyHex)])
  {
    ZeroKeyBytes();
    PublicKeyAcceptedIff(sha, b, p);
  }

  /** The joined text determines certificate and nonce when certificates carry no dot. */
  lemma JoinInjective(cert: Bytes, nonce: Bytes, cert': Bytes, nonce': Bytes)
    requires '.' as int !in cert && '.' as int !in cert'
    requires cert + ['.' as int] + nonce == cert' + ['.' as int] + nonce'
    ensures cert == cert' && nonce == nonce'
  {
    var text, text' := cert + ['.' as int] + nonce, cert' + ['.' as int] + nonce';
    assert text[|cert|] == '.' as int && text'[|cert'|] == '.' as int;
    assert forall i :: 0 <= i < |cert| ==> text[i] == cert[i];
    assert forall i :: 0 <= i < |cert'| ==> text'[i] == cert'[i];
    assert text == cert + (['.' as int] + nonce) && text' == cert' + (['.' as int] + nonce');
    ConcatInjective(cert, ['.' as int] + nonce, cert', ['.' as int] + nonce');
    ConcatInjective(['.' as int], nonce, ['.' as int], nonce');
  }

  /** A nonce goes where user data goes, and survives under the same condition. */
  lemma NonceRoundTrip(sha: Hash, b: ReportBody, p: GenParams)
    requires ValidBody(b) && ValidParams(p) && p.nonceHex != "" && b.reportData == ReportDataOf(sha, p)
    ensures Hex.EqualsIgnoreCase(ParseBody(b).userData, p.nonceHex) <==>
            |p.nonceHex| == 64 && Hex.AllHexDigits(p.nonceHex)
  {
    assert b.reportData[..HASH_SIZE] == Padded(Hex.FromHex(p.nonceHex));
    LowerHalfSurvives(p.nonceHex);
  }

  lemma LowerHalfSurvives(h: string)
    requires |h| <= 64
    ensures Hex.EqualsIgnoreCase(Hex.ToHex(Padded(Hex.FromHex(h))), h) <==> |h| == 64 && Hex.AllHexDigits(h)
  {
    if |h| == 64 {
      assert Padded(Hex.FromHex(h)) == Hex.FromHex(h);
      Hex.TextRoundTrip(h);
    }
  }

  /** User data survives generation and parsing, up to case, exactly when it is 32 bytes of hex. */
  lemma UserDataRoundTrip(sha: Hash, b: ReportBody, p: GenParams)
    requires ValidBody(b) && ValidParams(p) && p.nonceHex == "" && b.reportData == ReportDataOf(sha, p)
    ensures Hex.EqualsIgnoreCase(ParseBody(b).userData, p.userDataHex) <==>
            |p.userDataHex| == 64 && Hex.AllHexDigits(p.userDataHex)
  {
    assert b.reportData[..HASH_SIZE] == Padded(Hex.FromHex(p.userDataHex));
    LowerHalfSurvives(p.userDataHex);
  }
}
