/** Base64 as used here: the unpadded URL-safe form of the online client, decoded by CPython's
    lenient decoder, and the padded standard form in which data keys travel. */
module Base64 {
  import opened Octets

  type Sextet = i: int | 0 <= i < 64

  datatype Alphabet = Standard | UrlSafe

  /** Tables 1 and 2 of section 4 and 5 of RFC 4648. */
  function ToChar(t: Alphabet, i: Sextet): (c: char)
    ensures c != '='
  {
    if i < 26 then ('A' as int + i) as char
    else if i < 52 then ('a' as int + i - 26) as char
    else if i < 62 then ('0' as int + i - 52) as char
    else if i == 62 then (if t == Standard then '+' else '-')
    else (if t == Standard then '/' else '_')
  }

  function FromStandardChar(c: char): Option<Sextet> {
    if 'A' <= c <= 'Z' then Some(c as int - 'A' as int)
    else if 'a' <= c <= 'z' then Some(c as int - 'a' as int + 26)
    else if '0' <= c <= '9' then Some(c as int - '0' as int + 52)
    else if c == '+' then Some(62)
    else if c == '/' then Some(63)
    else None
  }

  /** `altchars` translates '-' and '_' to '+' and '/' and leaves those two as they are. */
  function FromPythonChar(c: char): Option<Sextet> {
    if c == '-' then Some(62) else if c == '_' then Some(63) else FromStandardChar(c)
  }

  lemma CharRoundTrip(t: Alphabet, i: Sextet)
    ensures FromPythonChar(ToChar(t, i)) == Some(i)
    ensures t == Standard ==> FromStandardChar(ToChar(t, i)) == Some(i)
  {}

  /** Tables 1 and 2 of RFC 4648, written out. */
  lemma AlphabetIs(t: Alphabet, i: Sextet)
    ensures i < 26 ==> ToChar(t, i) == "ABCDEFGHIJKLMNOPQRSTUVWXYZ"[i]
    ensures 26 <= i < 52 ==> ToChar(t, i) == "abcdefghijklmnopqrstuvwxyz"[i - 26]
    ensures 52 <= i ==> ToChar(t, i) == (if t == Standard then "0123456789+/" else "0123456789-_")[i - 52]
  {}

  /******* Encoding *******/

  function Sextets(b: Bytes): (r: seq<Sextet>)
    ensures |r| == (|b| * 4 + 2) / 3
  {
    if |b| == 0 then []
    else if |b| == 1 then [b[0] / 4, b[0] % 4 * 16]
    else if |b| == 2 then [b[0] / 4, b[0] % 4 * 16 + b[1] / 16, b[1] % 16 * 4]
    else [b[0] / 4, b[0] % 4 * 16 + b[1] / 16, b[1] % 16 * 4 + b[2] / 64, b[2] % 64] + Sextets(b[3..])
  }

  /** Four characters carry the 24 bits of three bytes in order, and the characters of a last group
      carry its bits followed by zeros. */
  lemma SextetsAre(x: Byte, y: Byte, z: Byte, rest: Bytes)
    ensures var s: seq<int> := Sextets([x, y, z] + rest);
            && |s| >= 4 && s[4..] == Sextets(rest)
            && 0x4_0000 * s[0] + 0x1000 * s[1] + 0x40 * s[2] + s[3] == 0x1_0000 * x + 0x100 * y + z
    ensures var s: seq<int> := Sextets([x, y]); |s| == 3 && 0x1000 * s[0] + 0x40 * s[1] + s[2] == 4 * (0x100 * x + y)
    ensures var s: seq<int> := Sextets([x]); |s| == 2 && 0x40 * s[0] + s[1] == 16 * x
  {
    var b := [x, y, z] + rest;
    assert b[0] == x && b[1] == y && b[2] == z && b[3..] == rest;
  }

  function Chars(t: Alphabet, s: seq<Sextet>): (r: string)
    ensures |r| == |s| && forall i :: 0 <= i < |s| ==> r[i] == ToChar(t, s[i])
  {
    seq(|s|, i requires 0 <= i < |s| => ToChar(t, s[i]))
  }

  function Pads(n: nat): (r: string)
    ensures |r| == n && forall i :: 0 <= i < n ==> r[i] == '='
  {
    seq(n, _ => '=')
  }

  function PadCount(n: nat): nat {
    if n % 3 == 0 then 0 else 3 - n % 3
  }

  function Encode(t: Alphabet, b: Bytes): string {
    Chars(t, Sextets(b)) + Pads(PadCount(|b|))
  }

  function StripPads(s: string): string {
    if s != "" && s[|s| - 1] == '=' then StripPads(s[..|s| - 1]) else s
  }

  /** `encode_base64` of the client. */
  function EncodeUnpadded(b: Bytes): string {
    StripPads(Encode(UrlSafe, b))
  }

  lemma {:induction false} StripPadsOf(s: string, n: nat)
    requires s == "" || s[|s| - 1] != '='
    ensures StripPads(s + Pads(n)) == s
  {
    if n == 0 {
      assert s + Pads(0) == s;
    } else {
      assert (s + Pads(n))[..|s| + n - 1] == s + Pads(n - 1);
      StripPadsOf(s, n - 1);
    }
  }

  lemma UnpaddedIs(b: Bytes)
    ensures EncodeUnpadded(b) == Chars(UrlSafe, Sextets(b))
  {
    StripPadsOf(Chars(UrlSafe, Sextets(b)), PadCount(|b|));
  }

  /******* The lenient decoder *******/

  /** Where the decoder is: position in the group of four, bits held back, pads seen, output. */
  datatype Decoder = Decoder(quad: nat, left: nat, pads: nat, out: Bytes)

  ghost predicate ValidDecoder(d: Decoder) {
    && d.quad < 4
    && (d.quad == 1 ==> d.left < 64)
    && (d.quad == 2 ==> d.left < 16)
    && (d.quad == 3 ==> d.left < 4)
  }

  function Feed(d: Decoder, ch: Sextet): (r: Decoder)
    requires ValidDecoder(d)
    ensures ValidDecoder(r)
  {
    match d.quad
    case 0 => Decoder(1, ch, 0, d.out)
    case 1 => Decoder(2, ch % 16, 0, d.out + [d.left * 4 + ch / 16])
    case 2 => Decoder(3, ch % 4, 0, d.out + [d.left * 16 + ch / 4])
    case _ => Decoder(0, 0, 0, d.out + [d.left * 64 + ch])
  }

  /** Characters outside the alphabet are skipped, and enough padding ends the input. */
  function Decode(d: Decoder, s: string): Option<Bytes>
    requires ValidDecoder(d)
    decreases |s|
  {
    if s == "" then (if d.quad == 0 then Some(d.out) else None)
    else if s[0] == '=' then
      if d.quad >= 2 && d.quad + d.pads + 1 >= 4 then Some(d.out)
      else Decode(if d.quad >= 2 then d.(pads := d.pads + 1) else d, s[1..])
    else
      match FromPythonChar(s[0])
      case None => Decode(d, s[1..])
      case Some(ch) => Decode(Feed(d, ch), s[1..])
  }

  const START: Decoder := Decoder(0, 0, 0, [])

  /** `decode_base64` of the client: restores the padding, then decodes. */
  function DecodeUnpadded(s: string): Option<Bytes> {
    Decode(START, s + Pads(3 - (|s| + 3) % 4))
  }

  function FeedAll(d: Decoder, s: seq<Sextet>): (r: Decoder)
    requires ValidDecoder(d)
    ensures ValidDecoder(r)
    decreases |s|
  {
    if s == [] then d else FeedAll(Feed(d, s[0]), s[1..])
  }

  lemma {:induction false} DecodeFeeds(t: Alphabet, d: Decoder, s: seq<Sextet>, rest: string)
    requires ValidDecoder(d)
    ensures Decode(d, Chars(t, s) + rest) == Decode(FeedAll(d, s), rest)
    decreases |s|
  {
    if s == [] {
      assert Chars(t, s) + rest == rest;
    } else {
      var text := Chars(t, s) + rest;
      assert text[0] == ToChar(t, s[0]);
      assert text[1..] == Chars(t, s[1..]) + rest;
      CharRoundTrip(t, s[0]);
      DecodeFeeds(t, Feed(d, s[0]), s[1..], rest);
    }
  }

  /** The three bytes of four sextets. */
  function Group(p: Sextet, q: Sextet, r: Sextet, t: Sextet): Bytes {
    var p: nat, q: nat, r: nat, t: nat := p, q, r, t;
    [p * 4 + q / 16, q % 16 * 16 + r / 4, r % 4 * 64 + t]
  }

  lemma GroupOfThree(x: Byte, y: Byte, z: Byte)
    ensures Group(x / 4, x % 4 * 16 + y / 16, y % 16 * 4 + z / 64, z % 64) == [x, y, z]
  {
    FirstByte(x, y);
    SecondByte(x, y, z);
    ThirdByte(y, z);
  }

  lemma FirstByte(x: Byte, y: Byte)
    ensures x / 4 * 4 + (x % 4 * 16 + y / 16) / 16 == x
  {}

  lemma SecondByte(x: Byte, y: Byte, z: Byte)
    ensures (x % 4 * 16 + y / 16) % 16 * 16 + (y % 16 * 4 + z / 64) / 4 == y
  {}

  lemma ThirdByte(y: Byte, z: Byte)
    ensures (y % 16 * 4 + z / 64) % 4 * 64 + z % 64 == z
  {}

  lemma FeedGroup(out: Bytes, p: Sextet, q: Sextet, r: Sextet, t: Sextet)
    ensures Feed(Feed(Decoder(0, 0, 0, out), p), q) == Decoder(2, q % 16, 0, out + Group(p, q, r, t)[..1])
    ensures Feed(Decoder(2, q % 16, 0, out + Group(p, q, r, t)[..1]), r)
            == Decoder(3, r % 4, 0, out + Group(p, q, r, t)[..2])
    ensures Feed(Decoder(3, r % 4, 0, out + Group(p, q, r, t)[..2]), t) == Decoder(0, 0, 0, out + Group(p, q, r, t))
  {
    var g := Group(p, q, r, t);
    assert out + g[..2] == out + g[..1] + [g[1]];
    assert out + g == out + g[..2] + [g[2]];
  }

  lemma FeedAllConcat(d: Decoder, s: seq<Sextet>, rest: seq<Sextet>)
    requires ValidDecoder(d)
    ensures FeedAll(d, s + rest) == FeedAll(FeedAll(d, s), rest)
    decreases |s|
  {
    if s == [] {
      assert s + rest == rest;
    } else {
      assert (s + rest)[1..] == s[1..] + rest;
      FeedAllConcat(Feed(d, s[0]), s[1..], rest);
    }
  }

  lemma FeedShort(d: Decoder, p: Sextet, q: Sextet)
    requires ValidDecoder(d)
    ensures FeedAll(d, [p]) == Feed(d, p)
    ensures FeedAll(d, [p, q]) == Feed(Feed(d, p), q)
  {
    assert FeedAll(d, [p]) == FeedAll(Feed(d, p), [p][1..]);
    assert [p, q][1..] == [q];
    assert FeedAll(Feed(d, p), [q]) == FeedAll(Feed(Feed(d, p), q), [q][1..]);
  }

  lemma FeedFour(out: Bytes, p: Sextet, q: Sextet, r: Sextet, t: Sextet)
    ensures FeedAll(Decoder(0, 0, 0, out), [p, q, r, t]) == Decoder(0, 0, 0, out + Group(p, q, r, t))
  {
    var d := Decoder(0, 0, 0, out);
    assert [p, q, r, t] == [p, q] + [r, t];
    FeedAllConcat(d, [p, q], [r, t]);
    FeedShort(d, p, q);
    FeedShort(Feed(Feed(d, p), q), r, t);
    FeedGroup(out, p, q, r, t);
  }

  ghost function QuadAfter(n: nat): nat {
    if n % 3 == 0 then 0 else if n % 3 == 1 then 2 else 3
  }

  lemma FeedOneByte(out: Bytes, x: Byte)
    ensures var d := FeedAll(Decoder(0, 0, 0, out), Sextets([x])); d.out == out + [x] && d.pads == 0 && d.quad == 2
  {
    FeedShort(Decoder(0, 0, 0, out), x / 4, x % 4 * 16);
    FeedGroup(out, x / 4, x % 4 * 16, 0, 0);
    GroupOfThree(x, 0, 0);
  }

  lemma FeedTwoBytes(out: Bytes, x: Byte, y: Byte)
    ensures var d := FeedAll(Decoder(0, 0, 0, out), Sextets([x, y]));
            d.out == out + [x, y] && d.pads == 0 && d.quad == 3
  {
    var p: Sextet, q: Sextet, r: Sextet := x / 4, x % 4 * 16 + y / 16, y % 16 * 4;
    var d := Decoder(0, 0, 0, out);
    assert Sextets([x, y]) == [p, q] + [r];
    FeedAllConcat(d, [p, q], [r]);
    FeedShort(d, p, q);
    FeedShort(Feed(Feed(d, p), q), r, 0);
    GroupOfThree(x, y, 0);
    FeedGroup(out, p, q, r, 0);
  }

  lemma TakeThree(b: Bytes)
    requires |b| >= 3
    ensures b[..3] == [b[0], b[1], b[2]]
  {}

  lemma SextetsHead(b: Bytes) returns (p: Sextet, q: Sextet, r: Sextet, t: Sextet)
    requires |b| >= 3
    ensures Sextets(b) == [p, q, r, t] + Sextets(b[3..]) && Group(p, q, r, t) == b[..3]
  {
    p, q, r, t := b[0] / 4, b[0] % 4 * 16 + b[1] / 16, b[1] % 16 * 4 + b[2] / 64, b[2] % 64;
    GroupOfThree(b[0], b[1], b[2]);
    TakeThree(b);
  }

  lemma FeedThreeBytes(out: Bytes, b: Bytes)
    requires |b| >= 3
    ensures FeedAll(Decoder(0, 0, 0, out), Sextets(b)) == FeedAll(Decoder(0, 0, 0, out + b[..3]), Sextets(b[3..]))
  {
    var p, q, r, t := SextetsHead(b);
    FeedFour(out, p, q, r, t);
    FeedAllConcat(Decoder(0, 0, 0, out), [p, q, r, t], Sextets(b[3..]));
  }

  lemma QuadStep(n: nat)
    requires n >= 3
    ensures QuadAfter(n - 3) == QuadAfter(n)
  {}

  /** Feeding an encoding gives the bytes back and stops where its length says. */
  lemma {:induction false} FeedSextets(out: Bytes, b: Bytes)
    ensures var d := FeedAll(Decoder(0, 0, 0, out), Sextets(b));
            d.out == out + b && d.pads == 0 && d.quad == QuadAfter(|b|)
    decreases |b|
  {
    if |b| == 0 {
      assert out + b == out;
    } else if |b| == 1 {
      FeedOneByte(out, b[0]);
      assert b == [b[0]];
    } else if |b| == 2 {
      FeedTwoBytes(out, b[0], b[1]);
      assert b == [b[0], b[1]];
    } else {
      FeedThreeBytes(out, b);
      QuadStep(|b|);
      FeedSextets(out + b[..3], b[3..]);
      ConcatAssoc(out, b[..3], b[3..]);
      assert b[..3] + b[3..] == b;
    }
  }

  /** Padding of the right length closes an open group. */
  lemma ClosePads(d: Decoder, n: nat)
    requires ValidDecoder(d) && d.pads == 0
    requires d.quad != 1 && n == if d.quad == 0 then 0 else 4 - d.quad
    ensures Decode(d, Pads(n)) == Some(d.out)
  {
    if n == 2 {
      assert Pads(2)[1..] == Pads(1);
      assert Decode(d, Pads(2)) == Decode(d.(pads := 1), Pads(1));
    }
  }

  lemma PadFormula(n: nat)
    ensures 3 - ((n * 4 + 2) / 3 + 3) % 4 == PadCount(n)
  {
    var q, r := n / 3, n % 3;
    assert (n * 4 + 2) / 3 == 4 * q + (r * 4 + 2) / 3;
  }

  /** For every byte string decoding undoes encoding: the padding formula restores what was stripped. */
  lemma UnpaddedRoundTrip(b: Bytes)
    ensures DecodeUnpadded(EncodeUnpadded(b)) == Some(b)
  {
    UnpaddedIs(b);
    PadFormula(|b|);
    PaddedRoundTrip(UrlSafe, b);
  }

  lemma PaddedRoundTrip(t: Alphabet, b: Bytes)
    ensures Decode(START, Chars(t, Sextets(b)) + Pads(PadCount(|b|))) == Some(b)
  {
    var s := Sextets(b);
    FeedSextets([], b);
    assert [] + b == b;
    DecodeFeeds(t, START, s, Pads(PadCount(|b|)));
    ClosePads(FeedAll(START, s), PadCount(|b|));
  }

  /******* Which texts decode *******/

  ghost predicate AlphabetOnly(s: string) {
    forall i :: 0 <= i < |s| ==> FromPythonChar(s[i]).Some?
  }

  lemma {:induction false} DecodeText(d: Decoder, s: string, rest: string) returns (e: Decoder)
    requires ValidDecoder(d) && d.pads == 0 && AlphabetOnly(s)
    ensures ValidDecoder(e) && e.pads == 0 && e.quad == (d.quad + |s|) % 4
    ensures Decode(d, s + rest) == Decode(e, rest)
    decreases |s|
  {
    if s == "" {
      assert s + rest == rest;
      e := d;
    } else {
      assert (s + rest)[1..] == s[1..] + rest;
      e := DecodeText(Feed(d, FromPythonChar(s[0]).value), s[1..], rest);
    }
  }

  lemma OpenGroupFails(d: Decoder)
    requires ValidDecoder(d) && d.quad == 1
    ensures Decode(d, Pads(3)) == None
  {
    assert Pads(3)[1..] == Pads(2) && Pads(2)[1..] == Pads(1) && Pads(1)[1..] == Pads(0);
    assert Decode(d, Pads(3)) == Decode(d, Pads(2)) == Decode(d, Pads(1)) == Decode(d, Pads(0));
  }

  /** A text of alphabet characters decodes unless its length is one more than a multiple of four. */
  lemma DecodesIff(s: string)
    requires AlphabetOnly(s)
    ensures DecodeUnpadded(s).Some? <==> |s| % 4 != 1
  {
    var n := 3 - (|s| + 3) % 4;
    var e := DecodeText(START, s, Pads(n));
    if e.quad == 1 { OpenGroupFails(e); } else { ClosePads(e, n); }
  }

  /** The text without the characters outside the alphabet. */
  function Kept(s: string): string {
    if s == "" then ""
    else (if s[0] == '=' || FromPythonChar(s[0]).Some? then [s[0]] else "") + Kept(s[1..])
  }

  /** The lenient decoder reads a text as if its foreign characters were not there. */
  lemma {:induction false} ForeignSkipped(d: Decoder, s: string)
    requires ValidDecoder(d)
    ensures Decode(d, s) == Decode(d, Kept(s))
    decreases |s|
  {
    if s != "" {
      var rest, k := s[1..], Kept(s);
      if s[0] == '=' {
        assert k[0] == '=' && k[1..] == Kept(rest);
        ForeignSkipped(if d.quad >= 2 then d.(pads := d.pads + 1) else d, rest);
      } else if FromPythonChar(s[0]).Some? {
        assert k[0] == s[0] && k[1..] == Kept(rest);
        ForeignSkipped(Feed(d, FromPythonChar(s[0]).value), rest);
      } else {
        assert k == Kept(rest);
        ForeignSkipped(d, rest);
      }
    }
  }

  /******* The padded standard form *******/

  predicate WellPadded(s: string) {
    && |s| % 4 == 0
    && (forall i :: 0 <= i < |s| - 2 ==> FromStandardChar(s[i]).Some?)
    && (|s| >= 4 ==>
          && (FromStandardChar(s[|s| - 1]).Some? || s[|s| - 1] == '=')
          && (FromStandardChar(s[|s| - 2]).Some? || s[|s| - 2..] == "=="))
  }

  /** The strict decoder of the proxies: foreign characters and wrong padding are errors. */
  function DecodeStandard(s: string): Option<Bytes> {
    if WellPadded(s) then Decode(START, s) else None
  }

  ghost predicate IsStandardChar(c: char) {
    'A' <= c <= 'Z' || 'a' <= c <= 'z' || '0' <= c <= '9' || c == '+' || c == '/'
  }

  lemma StandardCharIff(c: char)
    ensures FromStandardChar(c).Some? <==> IsStandardChar(c)
  {}

  lemma WellPaddedDecodes(s: string)
    requires WellPadded(s)
    ensures Decode(START, s).Some?
  {
    var n := if s == "" || s[|s| - 1] != '=' then 0 else if s[|s| - 2] != '=' then 1 else 2;
    var body := s[..|s| - n];
    assert s == body + Pads(n);
    var e := DecodeText(START, body, Pads(n));
    ClosePads(e, n);
  }

  /** The strict decoder takes exactly the texts of whole groups of four alphabet characters, the last
      two of which may be "=" or "==" at the end. */
  lemma DecodeStandardIff(s: string)
    ensures DecodeStandard(s).Some? <==>
            && |s| % 4 == 0
            && (forall i :: 0 <= i < |s| - 2 ==> IsStandardChar(s[i]))
            && (s != "" ==>
                  || (IsStandardChar(s[|s| - 2]) && (IsStandardChar(s[|s| - 1]) || s[|s| - 1] == '='))
                  || (s[|s| - 2] == '=' && s[|s| - 1] == '='))
  {
    forall i | 0 <= i < |s| ensures FromStandardChar(s[i]).Some? <==> IsStandardChar(s[i]) { StandardCharIff(s[i]); }
    if |s| >= 4 { assert s[|s| - 2..] == "==" <==> s[|s| - 2] == '=' && s[|s| - 1] == '='; }
    if WellPadded(s) { WellPaddedDecodes(s); }
  }

  lemma EncodeIsWellPadded(b: Bytes)
    ensures WellPadded(Encode(Standard, b))
  {
    var s := Sextets(b);
    forall i | 0 <= i < |s| ensures FromStandardChar(Chars(Standard, s)[i]).Some? {
      CharRoundTrip(Standard, s[i]);
    }
    EncodedLength(|b|);
    var text := Encode(Standard, b);
    if |b| > 0 && |b| % 3 == 1 { assert text[|text| - 2..] == Pads(2) == "=="; }
  }

  lemma EncodedLength(n: nat)
    ensures ((n * 4 + 2) / 3 + PadCount(n)) % 4 == 0
    ensures n > 0 ==> (n * 4 + 2) / 3 >= 2
  {
    var q, r := n / 3, n % 3;
    assert (n * 4 + 2) / 3 == 4 * q + (r * 4 + 2) / 3;
  }

  lemma StandardRoundTrip(b: Bytes)
    ensures DecodeStandard(Encode(Standard, b)) == Some(b)
  {
    EncodeIsWellPadded(b);
    PaddedRoundTrip(Standard, b);
  }
}
