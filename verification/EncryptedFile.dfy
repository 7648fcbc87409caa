/** The chunked container that holds one encrypted file: a 20-byte header followed
    by blocks, each a 66-byte IV/MAC header and the ciphertext of one chunk. */
module EncryptedFile {
  import opened Octets

  const VERSION: nat := 1
  const SCHEMA: nat := 1
  const HEADER_LEN: nat := 20
  const BLOCK_LEN: nat := 0x2000
  const IV_LEN: Byte := 12
  const IV_FIELD: nat := 32
  const MAC_LEN: Byte := 16
  const MAC_FIELD: nat := 32
  const BLOCK_HEADER: nat := 1 + IV_FIELD + 1 + MAC_FIELD
  const CHUNK_LEN: nat := BLOCK_LEN - BLOCK_HEADER

  datatype Error =
    | InPlace
    | HeaderTooShort
    | NoPackets
    | ZeroBlockLen
    | Overflow
    | TooShort
    | TooLong
    | BlockFormat
    | BadKey
    | AuthFailed

  /******* Authenticated encryption, an abstract pair *******/

  datatype Sealed = Sealed(cipher: Bytes, mac: Bytes)

  datatype AeadOps = AeadOps(
    seal: (Bytes, Bytes, Bytes) -> Sealed,
    open: (Bytes, Bytes, Bytes, Bytes) -> Option<Bytes>)

  predicate ValidKey(key: Bytes) {
    |key| == 16 || |key| == 32
  }

  /** AES-GCM keeps lengths, and opening what was sealed gives the message back. */
  ghost predicate Lawful(a: AeadOps) {
    && (forall k, iv, m :: ValidKey(k) && |iv| == IV_LEN ==>
          var s := a.seal(k, iv, m);
          && |s.cipher| == |m|
          && |s.mac| == MAC_LEN
          && a.open(k, iv, s.cipher, s.mac) == Some(m))
    && (forall k, iv, c, t :: a.open(k, iv, c, t).Some? ==> |a.open(k, iv, c, t).value| == |c|)
  }

  const PLAIN_TEXT: AeadOps := AeadOps((k, iv, m) => Sealed(m, Zeros(16)), (k, iv, c, t) => Some(c))

  type Aead = a: AeadOps | Lawful(a) witness PLAIN_TEXT

  /******* Blocks *******/

  /** What EncryptDataBlock writes for one chunk. */
  function SealBlock(a: Aead, key: Bytes, iv: Bytes, chunk: Bytes): (r: Bytes)
    requires ValidKey(key) && |iv| == IV_LEN
    ensures |r| == BLOCK_HEADER + |chunk|
  {
    var s := a.seal(key, iv, chunk);
    [IV_LEN] + iv + Zeros(IV_FIELD - |iv|) + [MAC_LEN] + s.mac + Zeros(MAC_FIELD - |s.mac|) + s.cipher
  }

  /** What DecryptDataBlock answers. The lengths in the block are not checked against
      their fields: `subspan` clips them at the end of the block. */
  function OpenBlock(a: Aead, key: Bytes, block: Bytes): (r: Result<Bytes, Error>)
    ensures r.Ok? ==> ValidKey(key) && |block| == BLOCK_HEADER + |r.value|
  {
    if |block| < BLOCK_HEADER then Err(BlockFormat)
    else if !ValidKey(key) then Err(BadKey)
    else
      var ivLen: nat, macLen: nat := block[0], block[33];
      var iv := block[1..Min(1 + ivLen, |block|)];
      var mac := block[34..Min(34 + macLen, |block|)];
      match a.open(key, iv, block[BLOCK_HEADER..], mac)
      case Some(m) => Ok(m)
      case None => Err(AuthFailed)
  }

  lemma OpenSealedBlock(a: Aead, key: Bytes, iv: Bytes, chunk: Bytes)
    requires ValidKey(key) && |iv| == IV_LEN
    ensures OpenBlock(a, key, SealBlock(a, key, iv, chunk)) == Ok(chunk)
  {
    var s := a.seal(key, iv, chunk);
    var b := SealBlock(a, key, iv, chunk);
    assert b[1..13] == iv;
    assert b[33] == MAC_LEN;
    assert b[34..50] == s.mac;
    assert b[66..] == s.cipher;
  }

  /** At most `n` bytes from the front. */
  function Front(s: Bytes, n: nat): Bytes { s[..Min(n, |s|)] }

  /** A block by its bytes: a length, a 32-byte field, a length, a 32-byte field, and the ciphertext.
      The key must be 16 or 32 bytes long and the cipher must accept the tag. */
  lemma OpenBlockIs(a: Aead, key: Bytes, ivLen: Byte, ivField: Bytes, macLen: Byte, macField: Bytes, cipher: Bytes)
    requires |ivField| == 32 && |macField| == 32
    ensures var iv := Front(ivField + [macLen] + macField + cipher, ivLen);
            var mac := Front(macField + cipher, macLen);
            OpenBlock(a, key, [ivLen] + ivField + [macLen] + macField + cipher) ==
              if |key| != 16 && |key| != 32 then Err(BadKey)
              else if a.open(key, iv, cipher, mac).None? then Err(AuthFailed)
              else Ok(a.open(key, iv, cipher, mac).value)
  {
    var block := [ivLen] + ivField + [macLen] + macField + cipher;
    assert block[0] == ivLen && block[33] == macLen;
    assert block[1..] == ivField + [macLen] + macField + cipher && block[34..] == macField + cipher;
    assert block[1..Min(1 + ivLen, |block|)] == Front(block[1..], ivLen);
    assert block[34..Min(34 + macLen, |block|)] == Front(block[34..], macLen);
    assert block[66..] == cipher;
  }

  /** Every block of 66 bytes or more has these parts, and a shorter one is refused for its format. */
  lemma BlockParts(a: Aead, key: Bytes, block: Bytes)
    returns (ivLen: Byte, ivField: Bytes, macLen: Byte, macField: Bytes, cipher: Bytes)
    ensures |block| < 66 ==> OpenBlock(a, key, block) == Err(BlockFormat)
    ensures |block| >= 66 ==>
              && |ivField| == 32 && |macField| == 32
              && block == [ivLen] + ivField + [macLen] + macField + cipher
  {
    if |block| < 66 { return 0, [], 0, [], []; }
    return block[0], block[1..33], block[33], block[34..66], block[66..];
  }

  /******* Tiling *******/

  /** `n` blocks of at most `size` bytes, all but the last one full, hold `len` bytes. */
  ghost predicate Fits(len: int, n: int, size: int) {
    n >= 1 && (n - 1) * size <= len <= n * size
  }

  lemma FitsStep(len: int, n: int, size: nat)
    requires Fits(len, n, size) && n > 1
    ensures len >= size && Fits(len - size, n - 1, size)
  {
    OneMore(n - 2, size);
    OneMore(n - 1, size);
  }

  lemma OneMore(n: nat, size: nat)
    ensures (n + 1) * size == n * size + size && n * size >= 0
  {}

  /** The pieces read by the packet loops: n - 1 full ones and the rest. */
  function Split(data: Bytes, n: nat, size: nat): (r: seq<Bytes>)
    requires Fits(|data|, n, size)
    ensures |r| == n
    decreases n
  {
    if n == 1 then [data]
    else
      FitsStep(|data|, n, size);
      [data[..size]] + Split(data[size..], n - 1, size)
  }

  ghost predicate Tiles(blocks: seq<Bytes>, size: nat) {
    && |blocks| >= 1
    && (forall i :: 0 <= i < |blocks| - 1 ==> |blocks[i]| == size)
    && |blocks[|blocks| - 1]| <= size
  }

  ghost predicate TilesData(blocks: seq<Bytes>, size: nat, data: Bytes) {
    Tiles(blocks, size) && Flatten(blocks) == data
  }

  lemma TilesOne(data: Bytes, size: nat)
    requires |data| <= size
    ensures TilesData([data], size, data)
  {
    FlattenOne(data);
  }

  lemma TilesPrepend(first: Bytes, rest: seq<Bytes>, size: nat, data: Bytes)
    requires |first| == size && TilesData(rest, size, data)
    ensures TilesData([first] + rest, size, first + data)
  {
    assert ([first] + rest)[1..] == rest;
  }

  lemma SplitStep(data: Bytes, n: nat, size: nat)
    requires Fits(|data|, n, size) && n > 1
    ensures size <= |data| && Fits(|data[size..]|, n - 1, size) && data[..size] + data[size..] == data
    ensures Split(data, n, size) == [data[..size]] + Split(data[size..], n - 1, size)
  {
    FitsStep(|data|, n, size);
  }

  lemma SplitOne(data: Bytes, size: nat)
    requires Fits(|data|, 1, size)
    ensures |data| <= size && Split(data, 1, size) == [data]
  {}

  /** The pieces cover the data exactly, each byte once and in order. */
  lemma {:induction false} SplitTiles(data: Bytes, n: nat, size: nat)
    requires Fits(|data|, n, size)
    ensures Tiles(Split(data, n, size), size)
    ensures Flatten(Split(data, n, size)) == data
    decreases n
  {
    if n == 1 {
      SplitOne(data, size);
      TilesOne(data, size);
    } else {
      SplitStep(data, n, size);
      SplitTiles(data[size..], n - 1, size);
      TilesPrepend(data[..size], Split(data[size..], n - 1, size), size, data[size..]);
    }
  }

  lemma {:induction false} SplitLast(data: Bytes, n: nat, size: nat)
    requires Fits(|data|, n, size)
    ensures |Split(data, n, size)[n - 1]| == |data| - (n - 1) * size
    decreases n
  {
    if n > 1 {
      FitsStep(|data|, n, size);
      SplitLast(data[size..], n - 1, size);
      assert (n - 1) * size == (n - 2) * size + size;
    }
  }

  /** There is no other way to tile: the split is determined by count and size. */
  lemma {:induction false} SplitUnique(blocks: seq<Bytes>, size: nat)
    requires Tiles(blocks, size)
    ensures Fits(|Flatten(blocks)|, |blocks|, size)
    ensures Split(Flatten(blocks), |blocks|, size) == blocks
  {
    var n := |blocks|;
    if n == 1 {
      FlattenOne(blocks[0]);
      assert blocks == [blocks[0]];
    } else {
      SplitUnique(blocks[1..], size);
      assert (n - 1) * size == (n - 2) * size + size;
      assert n * size == (n - 1) * size + size;
      assert Flatten(blocks)[size..] == Flatten(blocks[1..]);
      assert Flatten(blocks)[..size] == blocks[0];
    }
  }

  /******* Whole files *******/

  function PacketCount(len: nat): (n: nat)
    ensures len > 0 ==> n >= 1 && (n - 1) * CHUNK_LEN < len <= n * CHUNK_LEN
    ensures len == 0 ==> n == 0
  {
    len / CHUNK_LEN + (if len % CHUNK_LEN != 0 then 1 else 0)
  }

  function Header(packets: nat): (r: Bytes)
    ensures |r| == HEADER_LEN
  {
    LittleEndian(VERSION, 4) + LittleEndian(SCHEMA, 4) + LittleEndian(packets, 8) + LittleEndian(BLOCK_LEN, 4)
  }

  ghost predicate ValidIvs(ivs: seq<Bytes>, n: nat) {
    |ivs| == n && forall i :: 0 <= i < n ==> |ivs[i]| == IV_LEN
  }

  function SealAll(a: Aead, key: Bytes, ivs: seq<Bytes>, chunks: seq<Bytes>): (r: seq<Bytes>)
    requires ValidKey(key) && ValidIvs(ivs, |chunks|)
    ensures |r| == |chunks|
  {
    seq(|chunks|, i requires 0 <= i < |chunks| => SealBlock(a, key, ivs[i], chunks[i]))
  }

  /** The container EncryptFile writes for a non-empty file. */
  function EncodeFile(a: Aead, key: Bytes, ivs: seq<Bytes>, data: Bytes): Bytes
    requires ValidKey(key) && data != [] && ValidIvs(ivs, PacketCount(|data|))
  {
    var n := PacketCount(|data|);
    Header(n) + Flatten(SealAll(a, key, ivs, Split(data, n, CHUNK_LEN)))
  }

  /** Opens blocks in order; the first bad block ends the work. */
  function OpenAll(a: Aead, key: Bytes, blocks: seq<Bytes>): Result<Bytes, Error> {
    if blocks == [] then Ok([])
    else Then(OpenBlock(a, key, blocks[0]), OpenAll(a, key, blocks[1..]))
  }

  function Then(first: Result<Bytes, Error>, second: Result<Bytes, Error>): Result<Bytes, Error> {
    match first
    case Err(e) => Err(e)
    case Ok(x) => match second case Err(e) => Err(e) case Ok(y) => Ok(x + y)
  }

  lemma {:induction false} OpenAllConcat(a: Aead, key: Bytes, xs: seq<Bytes>, ys: seq<Bytes>)
    ensures OpenAll(a, key, xs + ys) == Then(OpenAll(a, key, xs), OpenAll(a, key, ys))
  {
    if xs == [] {
      assert xs + ys == ys;
      match OpenAll(a, key, ys) case Ok(y) => assert [] + y == y; case Err(_) =>
    } else {
      assert (xs + ys)[1..] == xs[1..] + ys;
      OpenAllConcat(a, key, xs[1..], ys);
      match OpenBlock(a, key, xs[0])
      case Err(_) =>
      case Ok(x) =>
        match OpenAll(a, key, xs[1..])
        case Err(_) =>
        case Ok(y) =>
          match OpenAll(a, key, ys)
          case Err(_) =>
          case Ok(z) => assert x + (y + z) == (x + y) + z;
    }
  }

  /** What DecryptFile has written when the first bad block, or the end, is reached. */
  function Plaintexts(a: Aead, key: Bytes, blocks: seq<Bytes>): seq<Bytes> {
    if blocks == [] || OpenBlock(a, key, blocks[0]).Err? then []
    else [OpenBlock(a, key, blocks[0]).value] + Plaintexts(a, key, blocks[1..])
  }

  lemma {:induction false} PlaintextsOfOpened(a: Aead, key: Bytes, blocks: seq<Bytes>)
    requires OpenAll(a, key, blocks).Ok?
    ensures OpenAll(a, key, blocks) == Ok(Flatten(Plaintexts(a, key, blocks)))
  {
    if blocks != [] {
      PlaintextsOfOpened(a, key, blocks[1..]);
      assert Plaintexts(a, key, blocks)[1..] == Plaintexts(a, key, blocks[1..]);
    }
  }

  /** The first block that does not open ends the output. */
  lemma {:induction false} PlaintextsStop(a: Aead, key: Bytes, blocks: seq<Bytes>, i: nat)
    requires i < |blocks| && OpenAll(a, key, blocks[..i]).Ok? && OpenBlock(a, key, blocks[i]).Err?
    ensures Flatten(Plaintexts(a, key, blocks)) == OpenAll(a, key, blocks[..i]).value
    decreases i
  {
    if i > 0 {
      assert blocks[..i][1..] == blocks[1..][..i - 1] && blocks[..i][0] == blocks[0] && blocks[1..][i - 1] == blocks[i];
      PlaintextsStop(a, key, blocks[1..], i - 1);
      assert Plaintexts(a, key, blocks)[1..] == Plaintexts(a, key, blocks[1..]);
    }
  }

  /** The first block that does not open decides the error. */
  lemma {:induction false} FirstError(a: Aead, key: Bytes, blocks: seq<Bytes>, i: nat)
    requires i < |blocks| && OpenBlock(a, key, blocks[i]).Err?
    requires forall j :: 0 <= j < i ==> OpenBlock(a, key, blocks[j]).Ok?
    ensures OpenAll(a, key, blocks) == Err(OpenBlock(a, key, blocks[i]).error)
    decreases i
  {
    if i > 0 { FirstError(a, key, blocks[1..], i - 1); }
  }

  /** OpenAll succeeds exactly when every block opens, with the plaintexts in order. */
  lemma {:induction false} OpenAllIff(a: Aead, key: Bytes, blocks: seq<Bytes>)
    ensures OpenAll(a, key, blocks).Ok? <==> forall i :: 0 <= i < |blocks| ==> OpenBlock(a, key, blocks[i]).Ok?
  {
    if blocks != [] {
      OpenAllIff(a, key, blocks[1..]);
      if OpenAll(a, key, blocks).Ok? {
        forall i | 0 <= i < |blocks| ensures OpenBlock(a, key, blocks[i]).Ok? {
          if i > 0 { assert blocks[i] == blocks[1..][i - 1]; }
        }
      }
    }
  }

  lemma {:induction false} OpenAllParts(a: Aead, key: Bytes, blocks: seq<Bytes>, parts: seq<Bytes>)
    requires |parts| == |blocks|
    requires forall i :: 0 <= i < |blocks| ==> OpenBlock(a, key, blocks[i]) == Ok(parts[i])
    ensures OpenAll(a, key, blocks) == Ok(Flatten(parts))
  {
    if blocks != [] {
      forall i | 0 <= i < |blocks| - 1 ensures OpenBlock(a, key, blocks[1..][i]) == Ok(parts[1..][i]) {
        assert blocks[1..][i] == blocks[i + 1];
      }
      OpenAllParts(a, key, blocks[1..], parts[1..]);
    }
  }

  /** uint64 multiplication. */
  function Mul64(x: nat, y: nat): nat { (x * y) % TWO64 }

  /** The guards of DecryptFile over the header fields, with wrapping products. */
  function CheckHeader(fileLen: nat, packets: nat, blockLen: nat): Option<Error> {
    if fileLen <= HEADER_LEN then Some(HeaderTooShort)
    else if packets < 1 then Some(NoPackets)
    else if blockLen == 0 then Some(ZeroBlockLen)
    else if Mul64(packets - 1, blockLen) / blockLen != packets - 1 then Some(Overflow)
    else if Mul64(packets, blockLen) / blockLen != packets then Some(Overflow)
    else if fileLen - HEADER_LEN < Mul64(packets - 1, blockLen) then Some(TooShort)
    else if Mul64(blockLen, packets) < fileLen - HEADER_LEN then Some(TooLong)
    else None
  }

  /** Dividing the wrapped product back detects every overflow and nothing else. */
  lemma OverflowGuard(x: nat, y: nat)
    requires y > 0
    ensures Mul64(x, y) / y == x <==> x * y < TWO64
  {
    var p := x * y;
    var w := p % TWO64;
    if p < TWO64 {
      ModSmall(p, TWO64);
      DivExact(x, y);
    } else {
      assert w < p;
      if w / y == x { DivBound(w, y); assert false; }
    }
  }

  lemma MulStep(x: nat, q: nat, y: nat)
    requires x < q
    ensures x * y + y <= q * y
  {
    var d: nat := q - x - 1;
    assert q * y == (x + 1 + d) * y == x * y + y + d * y;
  }

  lemma DivBound(w: nat, y: nat)
    requires y > 0
    ensures (w / y) * y <= w < (w / y) * y + y
  {}

  lemma DivExact(x: nat, y: nat)
    requires y > 0
    ensures (x * y) / y == x
  {
    var q := (x * y) / y;
    DivBound(x * y, y);
    if x < q { MulStep(x, q, y); }
    if q < x { MulStep(q, x, y); }
  }

  lemma ProductsNotWrapped(packets: nat, blockLen: nat)
    requires packets >= 1 && blockLen > 0
    ensures packets * blockLen == (packets - 1) * blockLen + blockLen
    ensures packets * blockLen < TWO64 ==>
              && Mul64(packets - 1, blockLen) == (packets - 1) * blockLen
              && Mul64(packets, blockLen) == Mul64(blockLen, packets) == packets * blockLen
  {
    assert (packets - 1) * blockLen >= 0;
    if packets * blockLen < TWO64 {
      ModSmall((packets - 1) * blockLen, TWO64);
      ModSmall(packets * blockLen, TWO64);
      assert blockLen * packets == packets * blockLen;
    }
  }

  /** The wrapping guards admit a header exactly when the true product fits a uint64
      and the payload lies between n - 1 and n full blocks. */
  lemma GuardsIff(fileLen: nat, packets: nat, blockLen: nat)
    requires fileLen < TWO64 && packets < TWO64 && blockLen < TWO32
    ensures CheckHeader(fileLen, packets, blockLen) == None <==>
            && fileLen > HEADER_LEN && blockLen > 0
            && packets * blockLen < TWO64
            && Fits(fileLen - HEADER_LEN, packets, blockLen)
  {
    if fileLen > HEADER_LEN && packets >= 1 && blockLen > 0 {
      OverflowGuard(packets - 1, blockLen);
      OverflowGuard(packets, blockLen);
      ProductsNotWrapped(packets, blockLen);
    }
  }

  /** Which error each refused header has, in true integers. */
  lemma HeaderErrors(fileLen: nat, packets: nat, blockLen: nat)
    requires fileLen < TWO64 && packets < TWO64 && blockLen < TWO32
    ensures CheckHeader(fileLen, packets, blockLen) ==
            if fileLen <= 20 then Some(HeaderTooShort)
            else if packets == 0 then Some(NoPackets)
            else if blockLen == 0 then Some(ZeroBlockLen)
            else if packets * blockLen >= TWO64 then Some(Overflow)
            else if fileLen - 20 < (packets - 1) * blockLen then Some(TooShort)
            else if packets * blockLen < fileLen - 20 then Some(TooLong)
            else None
  {
    if fileLen > 20 && packets >= 1 && blockLen > 0 {
      OverflowGuard(packets - 1, blockLen);
      OverflowGuard(packets, blockLen);
      ProductsNotWrapped(packets, blockLen);
    }
  }

  function PacketsOf(file: Bytes): nat
    requires |file| > HEADER_LEN
  {
    FromLittleEndian(file[8..16])
  }

  function BlockLenOf(file: Bytes): nat
    requires |file| > HEADER_LEN
  {
    FromLittleEndian(file[16..20])
  }

  lemma HeaderFieldBounds(file: Bytes)
    requires |file| > HEADER_LEN
    ensures PacketsOf(file) < TWO64 && BlockLenOf(file) < TWO32
  {
    FromLittleEndianBound(file[8..16]);
    FromLittleEndianBound(file[16..20]);
    Pow256Literals();
  }

  /** The blocks DecryptFile reads when the header passes its guards. */
  function BlocksOf(file: Bytes): seq<Bytes>
    requires |file| < TWO64
  {
    if |file| <= HEADER_LEN || CheckHeader(|file|, PacketsOf(file), BlockLenOf(file)).Some? then []
    else
      HeaderFieldBounds(file);
      GuardsIff(|file|, PacketsOf(file), BlockLenOf(file));
      Split(file[HEADER_LEN..], PacketsOf(file), BlockLenOf(file))
  }

  /** What DecryptFile answers for a file of any content. */
  function DecodeFile(a: Aead, key: Bytes, file: Bytes): (r: Result<Bytes, Error>)
    requires |file| < TWO64
  {
    if |file| <= HEADER_LEN then Err(HeaderTooShort)
    else
      match CheckHeader(|file|, PacketsOf(file), BlockLenOf(file))
      case Some(e) => Err(e)
      case None => OpenAll(a, key, BlocksOf(file))
  }
}
