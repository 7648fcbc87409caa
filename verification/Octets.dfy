/** Bytes, optional and failing results, and little-endian integers. */
module Octets {

  datatype Option<+T> = None | Some(value: T)

  datatype Result<+T, +E> = Ok(value: T) | Err(error: E)

  type Byte = b: int | 0 <= b < 256

  type Bytes = seq<Byte>

  const TWO32: nat := 0x1_0000_0000
  const TWO64: nat := 0x1_0000_0000_0000_0000

  function Min(x: int, y: int): int { if x < y then x else y }

  function Zeros(n: nat): (r: Bytes)
    ensures |r| == n
  {
    seq(n, _ => 0)
  }

  function Flatten<T>(parts: seq<seq<T>>): seq<T> {
    if parts == [] then [] else parts[0] + Flatten(parts[1..])
  }

  lemma {:induction false} FlattenConcat<T>(xs: seq<seq<T>>, ys: seq<seq<T>>)
    ensures Flatten(xs + ys) == Flatten(xs) + Flatten(ys)
  {
    if xs == [] {
      assert xs + ys == ys;
    } else {
      assert (xs + ys)[1..] == xs[1..] + ys;
      FlattenConcat(xs[1..], ys);
    }
  }

  lemma FlattenOne<T>(x: seq<T>)
    ensures Flatten([x]) == x
  {
    assert [x][1..] == [];
  }

  lemma FlattenSnoc<T>(parts: seq<seq<T>>, k: nat)
    requires k < |parts|
    ensures Flatten(parts[..k + 1]) == Flatten(parts[..k]) + parts[k]
  {
    assert parts[..k + 1] == parts[..k] + [parts[k]];
    FlattenConcat(parts[..k], [parts[k]]);
    FlattenOne(parts[k]);
  }

  lemma ConcatAssoc<T>(a: seq<T>, b: seq<T>, c: seq<T>)
    ensures (a + b) + c == a + (b + c)
  {}

  /** A write at `pos` overwrites what is there and extends the file past its end. */
  function WriteAt(content: Bytes, pos: nat, chunk: Bytes): Bytes {
    if pos <= |content| then content[..pos] + chunk + content[Min(pos + |chunk|, |content|)..]
    else content + Zeros(pos - |content|) + chunk
  }

  /** Byte by byte: the chunk where it was written, the old contents elsewhere, zeros in a gap. */
  lemma WriteAtIs(content: Bytes, pos: nat, chunk: Bytes, k: nat)
    ensures |WriteAt(content, pos, chunk)| ==
            if pos + |chunk| > |content| then pos + |chunk| else |content|
    ensures k < |WriteAt(content, pos, chunk)| ==>
              WriteAt(content, pos, chunk)[k] ==
                if pos <= k < pos + |chunk| then chunk[k - pos] else if k < |content| then content[k] else 0
  {}

  lemma WriteAtEnd(content: Bytes, chunk: Bytes)
    ensures WriteAt(content, |content|, chunk) == content + chunk
  {}

  function Pow256(k: nat): (r: nat)
    ensures r > 0
  {
    if k == 0 then 1 else 256 * Pow256(k - 1)
  }

  lemma {:induction false} Pow256Monotone(j: nat, k: nat)
    requires j <= k
    ensures Pow256(j) <= Pow256(k)
  {
    if j < k { Pow256Monotone(j, k - 1); }
  }

  /** The value of a little-endian byte string. */
  function FromLittleEndian(s: Bytes): (r: nat) {
    if s == [] then 0 else s[0] + 256 * FromLittleEndian(s[1..])
  }

  /** The first bytes weigh least. */
  lemma {:induction false} LittleEndianConcat(s: Bytes, t: Bytes)
    ensures FromLittleEndian(s + t) == FromLittleEndian(s) + Pow256(|s|) * FromLittleEndian(t)
    ensures |s| == 1 ==> FromLittleEndian(s) == s[0]
  {
    if s == [] {
      assert s + t == t;
    } else {
      var x, y := FromLittleEndian(s[1..]), FromLittleEndian(t);
      assert (s + t)[1..] == s[1..] + t;
      LittleEndianConcat(s[1..], t);
      MulRegroup(Pow256(|s| - 1), y);
    }
  }

  lemma MulRegroup(p: nat, y: nat)
    ensures 256 * (p * y) == (256 * p) * y
  {}

  /** The object representation of an unsigned integer on a little-endian machine. */
  function LittleEndian(n: nat, width: nat): (r: Bytes)
    ensures |r| == width
  {
    if width == 0 then [] else [n % 256] + LittleEndian(n / 256, width - 1)
  }

  lemma {:induction false} FromLittleEndianBound(s: Bytes)
    ensures FromLittleEndian(s) < Pow256(|s|)
  {
    if s != [] { FromLittleEndianBound(s[1..]); }
  }

  lemma {:induction false} LittleEndianRoundTrip(n: nat, width: nat)
    requires n < Pow256(width)
    ensures FromLittleEndian(LittleEndian(n, width)) == n
  {
    if width > 0 {
      LittleEndianRoundTrip(n / 256, width - 1);
      assert LittleEndian(n, width)[1..] == LittleEndian(n / 256, width - 1);
    }
  }

  lemma {:induction false} LittleEndianOfValue(s: Bytes)
    ensures LittleEndian(FromLittleEndian(s), |s|) == s
  {
    if s != [] {
      LittleEndianOfValue(s[1..]);
      ByteAndRest(s[0], FromLittleEndian(s[1..]));
    }
  }

  lemma ByteAndRest(b: Byte, rest: nat)
    ensures (b + 256 * rest) % 256 == b && (b + 256 * rest) / 256 == rest
  {}

  lemma Pow256Literals()
    ensures Pow256(1) == 256 && Pow256(4) == TWO32 && Pow256(8) == TWO64
  {
    assert Pow256(2) == 65536;
    assert Pow256(6) == 65536 * Pow256(4);
  }

  /** `ret << 8 | byte` on a `width`-byte unsigned integer: the shift drops what
      leaves the word, and the low eight bits it clears are filled by the byte. */
  function ShiftIn(ret: nat, b: Byte, width: nat): nat {
    (ret * 256) % Pow256(width) + b
  }

  lemma ModSmall(x: nat, m: nat)
    requires x < m
    ensures x % m == x
  {}

  lemma ShiftInStep(s: Bytes, b: Byte, width: nat)
    requires |s| < width
    ensures ShiftIn(FromLittleEndian(s), b, width) == FromLittleEndian([b] + s)
  {
    FromLittleEndianBound(s);
    Pow256Monotone(|s| + 1, width);
    var shifted := FromLittleEndian(s) * 256;
    assert shifted < Pow256(width);
    ModSmall(shifted, Pow256(width));
    assert ([b] + s)[1..] == s;
  }

  method Bytes2Int(bytes: Bytes, width: nat) returns (r: Option<nat>)
    ensures r.Some? <==> |bytes| <= width
    ensures r.Some? ==> r.value == FromLittleEndian(bytes) < Pow256(|bytes|)
  {
    if |bytes| > width { return None; }
    var ret: nat := 0;
    var len := |bytes|;
    for i := 0 to len
      invariant ret == FromLittleEndian(bytes[len - i..])
    {
      ShiftInStep(bytes[len - i..], bytes[len - i - 1], width);
      assert bytes[len - i - 1..] == [bytes[len - i - 1]] + bytes[len - i..];
      ret := ShiftIn(ret, bytes[len - i - 1], width);
    }
    FromLittleEndianBound(bytes);
    return Some(ret);
  }
}
