/** Hexadecimal text as abseil writes and reads it, and ASCII case-insensitive comparison. */
module Hex {
  import opened Octets

  function Lower(c: char): char {
    if 'A' <= c <= 'Z' then (c as int + 32) as char else c
  }

  predicate EqualsIgnoreCase(s: string, t: string) {
    |s| == |t| && forall i :: 0 <= i < |s| ==> Lower(s[i]) == Lower(t[i])
  }

  lemma EqualsIgnoreCaseSelf(s: string)
    ensures EqualsIgnoreCase(s, s)
  {}

  /** The same character, or the two cases of one ASCII letter. */
  ghost predicate SameLetter(c: char, d: char) {
    || c == d
    || ('A' <= c <= 'Z' && d as int == c as int + 32)
    || ('A' <= d <= 'Z' && c as int == d as int + 32)
  }

  ghost predicate SameText(s: string, t: string) {
    |s| == |t| && forall i :: 0 <= i < |s| ==> SameLetter(s[i], t[i])
  }

  lemma EqualsIgnoreCaseIff(s: string, t: string)
    ensures EqualsIgnoreCase(s, t) <==> SameText(s, t)
  {
    assert forall c: char, d: char :: Lower(c) == Lower(d) <==> SameLetter(c, d);
  }

  /** The bytes of a text; characters beyond a byte do not occur in the texts hashed here. */
  function TextBytes(s: string): (r: Bytes)
    ensures |r| == |s|
  {
    seq(|s|, i requires 0 <= i < |s| => s[i] as int % 256)
  }

  function HexDigit(n: int): (c: char)
    requires 0 <= n < 16
  {
    if n < 10 then ('0' as int + n) as char else ('a' as int + n - 10) as char
  }

  predicate IsHexDigit(c: char) {
    '0' <= c <= '9' || 'a' <= c <= 'f' || 'A' <= c <= 'F'
  }

  /** The lenient table: anything that is not a hex digit counts as zero. */
  function HexValue(c: char): (n: int)
    ensures 0 <= n < 16
  {
    if '0' <= c <= '9' then c as int - '0' as int
    else if 'a' <= c <= 'f' then c as int - 'a' as int + 10
    else if 'A' <= c <= 'F' then c as int - 'A' as int + 10
    else 0
  }

  function ToHex(b: Bytes): (r: string)
    ensures |r| == 2 * |b|
  {
    if b == [] then "" else [HexDigit(b[0] / 16), HexDigit(b[0] % 16)] + ToHex(b[1..])
  }

  /** Two digits a byte; an odd digit at the end is dropped. */
  function FromHex(s: string): (r: Bytes)
    ensures |r| == |s| / 2
  {
    if |s| < 2 then [] else [HexValue(s[0]) * 16 + HexValue(s[1])] + FromHex(s[2..])
  }

  /** Two lower-case digits a byte, the high one first. */
  lemma {:induction false} HexText(b: Bytes, k: nat)
    requires k < |b|
    ensures ToHex(b)[2 * k] == "0123456789abcdef"[b[k] / 16] && ToHex(b)[2 * k + 1] == "0123456789abcdef"[b[k] % 16]
  {
    if k == 0 {
      DigitIs(b[0] / 16);
      DigitIs(b[0] % 16);
    } else {
      HexText(b[1..], k - 1);
      assert ToHex(b)[2..] == ToHex(b[1..]);
      assert ToHex(b)[2 * k] == ToHex(b)[2..][2 * (k - 1)] && ToHex(b)[2 * k + 1] == ToHex(b)[2..][2 * (k - 1) + 1];
    }
  }

  lemma DigitIs(n: int)
    requires 0 <= n < 16
    ensures HexDigit(n) == "0123456789abcdef"[n]
  {}

  lemma DigitRoundTrip(n: int, c: char)
    requires 0 <= n < 16
    ensures HexValue(HexDigit(n)) == n && IsHexDigit(HexDigit(n)) && Lower(HexDigit(n)) == HexDigit(n)
    ensures Lower(HexDigit(HexValue(c))) == Lower(c) <==> IsHexDigit(c)
  {}

  lemma {:induction false} HexRoundTrip(b: Bytes)
    ensures FromHex(ToHex(b)) == b
  {
    if b != [] {
      DigitRoundTrip(b[0] / 16, ' ');
      DigitRoundTrip(b[0] % 16, ' ');
      var s := ToHex(b);
      assert s[2..] == ToHex(b[1..]);
      HexRoundTrip(b[1..]);
    }
  }

  /** Hex texts agree up to case exactly when the bytes agree. */
  lemma {:induction false} HexInjective(a: Bytes, b: Bytes)
    ensures EqualsIgnoreCase(ToHex(a), ToHex(b)) <==> a == b
  {
    if a == b {
    } else if EqualsIgnoreCase(ToHex(a), ToHex(b)) {
      HexIsLower(a);
      HexIsLower(b);
      assert ToHex(a) == ToHex(b);
      HexRoundTrip(a);
      HexRoundTrip(b);
    }
  }

  lemma {:induction false} HexIsLower(b: Bytes)
    ensures forall i :: 0 <= i < |ToHex(b)| ==> Lower(ToHex(b)[i]) == ToHex(b)[i]
  {
    if b != [] {
      DigitRoundTrip(b[0] / 16, ' ');
      DigitRoundTrip(b[0] % 16, ' ');
      HexIsLower(b[1..]);
      var tail := ToHex(b[1..]);
      forall i | 0 <= i < |ToHex(b)| ensures Lower(ToHex(b)[i]) == ToHex(b)[i] {
        if i >= 2 { assert ToHex(b)[i] == tail[i - 2]; }
      }
    }
  }

  predicate AllHexDigits(s: string) { forall i :: 0 <= i < |s| ==> IsHexDigit(s[i]) }

  lemma EqualsTwoAnd(x: char, y: char, tail: string, x': char, y': char, tail': string)
    ensures EqualsIgnoreCase([x, y] + tail, [x', y'] + tail') <==>
            Lower(x) == Lower(x') && Lower(y) == Lower(y') && EqualsIgnoreCase(tail, tail')
  {
    var s, t := [x, y] + tail, [x', y'] + tail';
    if EqualsIgnoreCase(s, t) {
      assert Lower(s[0]) == Lower(t[0]) && Lower(s[1]) == Lower(t[1]);
      forall i | 0 <= i < |tail| ensures Lower(tail[i]) == Lower(tail'[i]) {
        assert Lower(s[i + 2]) == Lower(t[i + 2]);
      }
    }
  }

  lemma AllHexTwoAnd(x: char, y: char, tail: string)
    ensures AllHexDigits([x, y] + tail) <==> IsHexDigit(x) && IsHexDigit(y) && AllHexDigits(tail)
  {
    var s := [x, y] + tail;
    if AllHexDigits(s) {
      assert IsHexDigit(s[0]) && IsHexDigit(s[1]);
      forall i | 0 <= i < |tail| ensures IsHexDigit(tail[i]) { assert IsHexDigit(s[i + 2]); }
    }
  }

  /** Writing back what was read gives the same text up to case exactly for whole hex texts. */
  lemma {:induction false} TextRoundTrip(s: string)
    ensures EqualsIgnoreCase(ToHex(FromHex(s)), s) <==> |s| % 2 == 0 && AllHexDigits(s)
    decreases |s|
  {
    if |s| >= 2 {
      var x, y, tail := s[0], s[1], s[2..];
      TextRoundTrip(tail);
      DigitRoundTrip(HexValue(x), x);
      DigitRoundTrip(HexValue(y), y);
      Nibbles(HexValue(x), HexValue(y));
      ToHexHead(HexValue(x) * 16 + HexValue(y), FromHex(tail));
      assert FromHex(s) == [HexValue(x) * 16 + HexValue(y)] + FromHex(tail);
      assert s == [x, y] + tail;
      EqualsTwoAnd(HexDigit(HexValue(x)), HexDigit(HexValue(y)), ToHex(FromHex(tail)), x, y, tail);
      AllHexTwoAnd(x, y, tail);
    }
  }

  lemma Nibbles(h: int, l: int)
    requires 0 <= h < 16 && 0 <= l < 16
    ensures (h * 16 + l) / 16 == h && (h * 16 + l) % 16 == l
  {}

  lemma ToHexHead(b: Byte, rest: Bytes)
    ensures ToHex([b] + rest) == [HexDigit(b / 16), HexDigit(b % 16)] + ToHex(rest)
  {
    assert ([b] + rest)[1..] == rest;
  }
}
