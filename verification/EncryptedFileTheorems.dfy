/** What the container format guarantees for every file, key and choice of IVs. */
module EncryptedFileTheorems {
  import opened Octets
  import opened EncryptedFile

  /******* Round trip *******/

  lemma {:induction false} SealedBlocksTile(a: Aead, key: Bytes, ivs: seq<Bytes>, chunks: seq<Bytes>)
    requires ValidKey(key) && ValidIvs(ivs, |chunks|) && Tiles(chunks, CHUNK_LEN)
    ensures Tiles(SealAll(a, key, ivs, chunks), BLOCK_LEN)
  {
    var sealed := SealAll(a, key, ivs, chunks);
    forall i | 0 <= i < |chunks| ensures |sealed[i]| == BLOCK_HEADER + |chunks[i]| {}
  }

  lemma {:induction false} SealedLength(a: Aead, key: Bytes, ivs: seq<Bytes>, chunks: seq<Bytes>)
    requires ValidKey(key) && ValidIvs(ivs, |chunks|)
    ensures |Flatten(SealAll(a, key, ivs, chunks))| == BLOCK_HEADER * |chunks| + |Flatten(chunks)|
  {
    if chunks != [] {
      assert SealAll(a, key, ivs, chunks)[1..] == SealAll(a, key, ivs[1..], chunks[1..]);
      SealedLength(a, key, ivs[1..], chunks[1..]);
    }
  }

  /** The size of the output, and of the last chunk, which survives the narrowing to uint32. */
  lemma EncodedLength(a: Aead, key: Bytes, ivs: seq<Bytes>, data: Bytes)
    requires ValidKey(key) && data != [] && ValidIvs(ivs, PacketCount(|data|))
    ensures var n := PacketCount(|data|);
            && |EncodeFile(a, key, ivs, data)| == HEADER_LEN + BLOCK_HEADER * n + |data|
            && 1 <= |data| - (n - 1) * CHUNK_LEN <= CHUNK_LEN < TWO32
  {
    var n := PacketCount(|data|);
    SplitTiles(data, n, CHUNK_LEN);
    SealedLength(a, key, ivs, Split(data, n, CHUNK_LEN));
  }

  lemma EncodedHeader(a: Aead, key: Bytes, ivs: seq<Bytes>, data: Bytes)
    requires ValidKey(key) && data != [] && ValidIvs(ivs, PacketCount(|data|))
    requires |EncodeFile(a, key, ivs, data)| < TWO64
    ensures var f := EncodeFile(a, key, ivs, data);
            && |f| > HEADER_LEN
            && PacketsOf(f) == PacketCount(|data|) < TWO64
            && BlockLenOf(f) == BLOCK_LEN
  {
    var n := PacketCount(|data|);
    var f := EncodeFile(a, key, ivs, data);
    EncodedLength(a, key, ivs, data);
    assert f[8..16] == Header(n)[8..16] == LittleEndian(n, 8);
    assert f[16..20] == Header(n)[16..20] == LittleEndian(BLOCK_LEN, 4);
    Pow256Literals();
    LittleEndianRoundTrip(n, 8);
    LittleEndianRoundTrip(BLOCK_LEN, 4);
  }

  lemma HeaderBytes(n: nat)
    ensures Header(n) == [1, 0, 0, 0, 1, 0, 0, 0] + LittleEndian(n, 8) + [0, 0x20, 0, 0]
  {
    assert LittleEndian(0, 0) == [] && LittleEndian(0, 1) == [0] && LittleEndian(0, 2) == [0, 0];
    assert LittleEndian(0, 3) == [0, 0, 0] && LittleEndian(1, 4) == [1, 0, 0, 0];
    assert LittleEndian(0x20, 3) == [0x20, 0, 0] && LittleEndian(0x2000, 4) == [0, 0x20, 0, 0];
  }

  /** The output byte by byte: the header, and a block a chunk of 8126 bytes, the last one shorter. */
  lemma EncodedBytes(a: Aead, key: Bytes, ivs: seq<Bytes>, data: Bytes) returns (chunks: seq<Bytes>, blocks: seq<Bytes>)
    requires ValidKey(key) && data != [] && ValidIvs(ivs, PacketCount(|data|))
    ensures EncodeFile(a, key, ivs, data) ==
            [1, 0, 0, 0, 1, 0, 0, 0] + LittleEndian(|blocks|, 8) + [0, 0x20, 0, 0] + Flatten(blocks)
    ensures |chunks| == |blocks| == |ivs| >= 1 && Flatten(chunks) == data
    ensures forall i :: 0 <= i < |chunks| - 1 ==> |chunks[i]| == 8126
    ensures 1 <= |chunks[|chunks| - 1]| <= 8126
    ensures forall i :: 0 <= i < |blocks| ==>
              var s := a.seal(key, ivs[i], chunks[i]);
              blocks[i] == [12] + ivs[i] + Zeros(20) + [16] + s.mac + Zeros(16) + s.cipher
  {
    var n := PacketCount(|data|);
    chunks := Split(data, n, CHUNK_LEN);
    blocks := SealAll(a, key, ivs, chunks);
    SplitTiles(data, n, CHUNK_LEN);
    SplitLast(data, n, CHUNK_LEN);
    HeaderBytes(n);
  }

  /** The blocks DecryptFile reads back are the sealed ones, and they open to the data. */
  lemma EncodedBlocksOpen(a: Aead, key: Bytes, ivs: seq<Bytes>, data: Bytes)
    requires ValidKey(key) && data != [] && ValidIvs(ivs, PacketCount(|data|))
    ensures var n := PacketCount(|data|);
            var blocks := SealAll(a, key, ivs, Split(data, n, CHUNK_LEN));
            && Fits(|Flatten(blocks)|, n, BLOCK_LEN)
            && Split(Flatten(blocks), n, BLOCK_LEN) == blocks
            && OpenAll(a, key, blocks) == Ok(data)
  {
    var n := PacketCount(|data|);
    var chunks := Split(data, n, CHUNK_LEN);
    SplitTiles(data, n, CHUNK_LEN);
    var blocks := SealAll(a, key, ivs, chunks);
    SealedBlocksTile(a, key, ivs, chunks);
    SplitUnique(blocks, BLOCK_LEN);
    forall i | 0 <= i < n ensures OpenBlock(a, key, blocks[i]) == Ok(chunks[i]) {
      OpenSealedBlock(a, key, ivs[i], chunks[i]);
    }
    OpenAllParts(a, key, blocks, chunks);
  }

  /** The guards on the header EncryptFile writes fail only by overflow. */
  lemma EncodedGuards(fileLen: nat, n: nat)
    requires HEADER_LEN < fileLen < TWO64 && n < TWO64 && Fits(fileLen - HEADER_LEN, n, BLOCK_LEN)
    ensures CheckHeader(fileLen, n, BLOCK_LEN) == if n * BLOCK_LEN < TWO64 then None else Some(Overflow)
  {
    GuardsIff(fileLen, n, BLOCK_LEN);
    OverflowGuard(n - 1, BLOCK_LEN);
    OverflowGuard(n, BLOCK_LEN);
  }

  /** DecryptFile undoes EncryptFile exactly when packets * 8192 fits a uint64. */
  lemma RoundTrip(a: Aead, key: Bytes, ivs: seq<Bytes>, data: Bytes)
    requires ValidKey(key) && data != [] && ValidIvs(ivs, PacketCount(|data|))
    requires |EncodeFile(a, key, ivs, data)| < TWO64
    ensures DecodeFile(a, key, EncodeFile(a, key, ivs, data)) ==
            if PacketCount(|data|) * BLOCK_LEN < TWO64 then Ok(data) else Err(Overflow)
  {
    var n := PacketCount(|data|);
    var f := EncodeFile(a, key, ivs, data);
    var blocks := SealAll(a, key, ivs, Split(data, n, CHUNK_LEN));
    EncodedHeader(a, key, ivs, data);
    EncodedBlocksOpen(a, key, ivs, data);
    assert f[HEADER_LEN..] == Flatten(blocks);
    EncodedGuards(|f|, n);
  }

  /** Every output whose blocks fit a uint64 is itself a file of representable length. */
  lemma EncodedIsRepresentable(a: Aead, key: Bytes, ivs: seq<Bytes>, data: Bytes)
    requires ValidKey(key) && data != [] && ValidIvs(ivs, PacketCount(|data|))
    requires PacketCount(|data|) * BLOCK_LEN < TWO64
    ensures |EncodeFile(a, key, ivs, data)| < TWO64
  {
    EncodedLength(a, key, ivs, data);
  }

  const TWO63: nat := 0x8000_0000_0000_0000

  /** Below the lengths a signed file offset can reach, decrypting always undoes encrypting. */
  lemma RoundTripOfFile(a: Aead, key: Bytes, ivs: seq<Bytes>, data: Bytes)
    requires ValidKey(key) && data != [] && ValidIvs(ivs, PacketCount(|data|))
    requires |EncodeFile(a, key, ivs, data)| < TWO63
    ensures DecodeFile(a, key, EncodeFile(a, key, ivs, data)) == Ok(data)
  {
    EncodedLength(a, key, ivs, data);
    RoundTrip(a, key, ivs, data);
  }

  const TWO51: nat := 0x8_0000_0000_0000

  /** One byte more than 2^51 - 1 full chunks. */
  const OVERFLOWING: nat := 0xfdef_ffff_ffff_e043

  lemma OverflowingCount()
    ensures OVERFLOWING == (TWO51 - 1) * CHUNK_LEN + 1 && PacketCount(OVERFLOWING) == TWO51
    ensures TWO51 * BLOCK_LEN == TWO64 && HEADER_LEN + BLOCK_HEADER * TWO51 + OVERFLOWING == TWO64 - 8105
  {}

  /** A container of 2^64 - 8105 bytes is reported as an overflow. */
  lemma TooManyPackets(a: Aead, key: Bytes, ivs: seq<Bytes>, data: Bytes)
    requires ValidKey(key) && |data| == OVERFLOWING && ValidIvs(ivs, TWO51)
    ensures data != [] && PacketCount(|data|) == TWO51
    ensures |EncodeFile(a, key, ivs, data)| == TWO64 - 8105
    ensures DecodeFile(a, key, EncodeFile(a, key, ivs, data)) == Err(Overflow)
  {
    OverflowingCount();
    EncodedLength(a, key, ivs, data);
    RoundTrip(a, key, ivs, data);
  }

  /******* The grammar DecryptFile accepts *******/

  /** `file` is eight ignored bytes, a count, a block length and that many blocks. */
  ghost predicate IsContainer(file: Bytes, size: nat, blocks: seq<Bytes>) {
    && |file| > HEADER_LEN
    && 0 < size < TWO32
    && |blocks| * size < TWO64
    && file == file[..8] + LittleEndian(|blocks|, 8) + LittleEndian(size, 4) + Flatten(blocks)
    && Tiles(blocks, size)
  }

  ghost predicate Opens(a: Aead, key: Bytes, blocks: seq<Bytes>, parts: seq<Bytes>) {
    |parts| == |blocks| && forall i :: 0 <= i < |blocks| ==> OpenBlock(a, key, blocks[i]) == Ok(parts[i])
  }

  ghost predicate Accepts(a: Aead, key: Bytes, file: Bytes, size: nat, blocks: seq<Bytes>,
                          parts: seq<Bytes>, data: Bytes) {
    IsContainer(file, size, blocks) && Opens(a, key, blocks, parts) && data == Flatten(parts)
  }

  lemma ContainerBlocks(file: Bytes, size: nat, blocks: seq<Bytes>)
    requires |file| < TWO64 && IsContainer(file, size, blocks)
    ensures PacketsOf(file) == |blocks| && BlockLenOf(file) == size && BlocksOf(file) == blocks
    ensures CheckHeader(|file|, |blocks|, size) == None
  {
    SplitUnique(blocks, size);
    MulAtLeast(|blocks|, size);
    Pow256Literals();
    assert file[8..16] == LittleEndian(|blocks|, 8);
    assert file[16..20] == LittleEndian(size, 4);
    LittleEndianRoundTrip(|blocks|, 8);
    LittleEndianRoundTrip(size, 4);
    assert file[HEADER_LEN..] == Flatten(blocks);
    GuardsIff(|file|, |blocks|, size);
  }

  lemma ContainerDecodes(a: Aead, key: Bytes, file: Bytes, size: nat, blocks: seq<Bytes>, parts: seq<Bytes>,
                         data: Bytes)
    requires |file| < TWO64 && Accepts(a, key, file, size, blocks, parts, data)
    ensures DecodeFile(a, key, file) == Ok(data)
    ensures PacketsOf(file) == |blocks| && BlockLenOf(file) == size
  {
    ContainerBlocks(file, size, blocks);
    OpenAllParts(a, key, blocks, parts);
  }

  /** A container with a block whose tag the cipher refuses never decrypts, and when it is the first
      bad block the answer says so. */
  lemma RefusedTag(a: Aead, key: Bytes, file: Bytes, size: nat, blocks: seq<Bytes>, i: nat,
                   ivLen: Byte, ivField: Bytes, macLen: Byte, macField: Bytes, cipher: Bytes)
    requires |file| < TWO64 && IsContainer(file, size, blocks) && i < |blocks|
    requires |ivField| == 32 && |macField| == 32
    requires blocks[i] == [ivLen] + ivField + [macLen] + macField + cipher
    requires a.open(key, Front(ivField + [macLen] + macField + cipher, ivLen), cipher,
                    Front(macField + cipher, macLen)).None?
    ensures DecodeFile(a, key, file).Err?
    ensures (|key| == 16 || |key| == 32) && (forall j :: 0 <= j < i ==> OpenBlock(a, key, blocks[j]).Ok?) ==>
              DecodeFile(a, key, file) == Err(AuthFailed)
  {
    ContainerBlocks(file, size, blocks);
    OpenBlockIs(a, key, ivLen, ivField, macLen, macField, cipher);
    OpenAllIff(a, key, blocks);
    if forall j :: 0 <= j < i ==> OpenBlock(a, key, blocks[j]).Ok? { FirstError(a, key, blocks, i); }
  }

  lemma MulAtLeast(n: nat, size: nat)
    requires size > 0
    ensures n <= n * size
  {}

  lemma SplitIsContainer(file: Bytes)
    requires HEADER_LEN < |file| < TWO64
    requires CheckHeader(|file|, PacketsOf(file), BlockLenOf(file)) == None
    ensures Fits(|file| - HEADER_LEN, PacketsOf(file), BlockLenOf(file))
    ensures IsContainer(file, BlockLenOf(file), Split(file[HEADER_LEN..], PacketsOf(file), BlockLenOf(file)))
  {
    HeaderFieldBounds(file);
    GuardsIff(|file|, PacketsOf(file), BlockLenOf(file));
    SplitTiles(file[HEADER_LEN..], PacketsOf(file), BlockLenOf(file));
    LittleEndianOfValue(file[8..16]);
    LittleEndianOfValue(file[16..20]);
    assert file == file[..8] + file[8..16] + file[16..20] + file[HEADER_LEN..];
  }

  lemma DecodesContainer(a: Aead, key: Bytes, file: Bytes) returns (blocks: seq<Bytes>, parts: seq<Bytes>)
    requires |file| < TWO64 && DecodeFile(a, key, file).Ok?
    ensures Accepts(a, key, file, BlockLenOf(file), blocks, parts, DecodeFile(a, key, file).value)
  {
    SplitIsContainer(file);
    blocks := Split(file[HEADER_LEN..], PacketsOf(file), BlockLenOf(file));
    parts := OpenedParts(a, key, blocks);
  }

  lemma OpenedParts(a: Aead, key: Bytes, blocks: seq<Bytes>) returns (parts: seq<Bytes>)
    requires OpenAll(a, key, blocks).Ok?
    ensures Opens(a, key, blocks, parts) && OpenAll(a, key, blocks) == Ok(Flatten(parts))
  {
    OpenAllIff(a, key, blocks);
    parts := seq(|blocks|, i requires 0 <= i < |blocks| => OpenBlock(a, key, blocks[i]).value);
    OpenAllParts(a, key, blocks, parts);
  }

  /** DecryptFile answers `data` exactly for the containers whose blocks open to it. */
  lemma DecodeFileIff(a: Aead, key: Bytes, file: Bytes, data: Bytes)
    requires |file| < TWO64
    ensures DecodeFile(a, key, file) == Ok(data) <==>
            exists size, blocks, parts :: Accepts(a, key, file, size, blocks, parts, data)
  {
    if DecodeFile(a, key, file) == Ok(data) {
      var blocks, parts := DecodesContainer(a, key, file);
      assert Accepts(a, key, file, BlockLenOf(file), blocks, parts, data);
    }
    if exists size, blocks, parts :: Accepts(a, key, file, size, blocks, parts, data) {
      var size, blocks, parts :| Accepts(a, key, file, size, blocks, parts, data);
      ContainerDecodes(a, key, file, size, blocks, parts, data);
    }
  }

  /******* The packet count is determined *******/

  ghost predicate IsCeiling(n: int, len: int, size: int) {
    (n - 1) * size < len <= n * size
  }

  lemma CeilingUnique(m: nat, n: nat, len: nat, size: nat)
    requires size > 0 && IsCeiling(m, len, size) && IsCeiling(n, len, size)
    ensures m == n
  {
    if m < n - 1 { MulStep(m, n - 1, size); }
    if n < m - 1 { MulStep(n, m - 1, size); }
  }

  /** A file that decrypts has the one packet count that its length and block length
      allow, and its plaintext is the payload less 66 bytes a block. */
  lemma FinishedCount(a: Aead, key: Bytes, file: Bytes)
    requires |file| < TWO64 && DecodeFile(a, key, file).Ok?
    ensures IsCeiling(PacketsOf(file), |file| - HEADER_LEN, BlockLenOf(file))
    ensures |DecodeFile(a, key, file).value| == |file| - HEADER_LEN - BLOCK_HEADER * PacketsOf(file)
  {
    var n, size := PacketsOf(file), BlockLenOf(file);
    HeaderFieldBounds(file);
    GuardsIff(|file|, n, size);
    SplitTiles(file[HEADER_LEN..], n, size);
    SplitLast(file[HEADER_LEN..], n, size);
    var blocks := Split(file[HEADER_LEN..], n, size);
    OpenAllIff(a, key, blocks);
    assert OpenBlock(a, key, blocks[n - 1]).Ok?;
    OpenedLength(a, key, blocks);
  }

  lemma {:induction false} OpenedLength(a: Aead, key: Bytes, blocks: seq<Bytes>)
    requires OpenAll(a, key, blocks).Ok?
    ensures |OpenAll(a, key, blocks).value| == |Flatten(blocks)| - BLOCK_HEADER * |blocks|
  {
    if blocks != [] { OpenedLength(a, key, blocks[1..]); }
  }

  lemma FinishedCountUnique(a: Aead, key: Bytes, file: Bytes, a': Aead, key': Bytes, file': Bytes)
    requires |file| == |file'| < TWO64
    requires DecodeFile(a, key, file).Ok? && DecodeFile(a', key', file').Ok?
    requires BlockLenOf(file) == BlockLenOf(file')
    ensures PacketsOf(file) == PacketsOf(file')
  {
    FinishedCount(a, key, file);
    FinishedCount(a', key', file');
    HeaderFieldBounds(file);
    GuardsIff(|file|, PacketsOf(file), BlockLenOf(file));
    CeilingUnique(PacketsOf(file), PacketsOf(file'), |file| - HEADER_LEN, BlockLenOf(file));
  }

  /** The guards alone admit one more count when the payload is a whole number of blocks,
      and no other count in any case. */
  lemma AdmittedCounts(fileLen: nat, q: nat, blockLen: nat, n: nat)
    requires HEADER_LEN < fileLen < TWO64 && 0 < blockLen < TWO32 && n < TWO64
    requires IsCeiling(q, fileLen - HEADER_LEN, blockLen)
    ensures CheckHeader(fileLen, n, blockLen) == None <==>
            && n * blockLen < TWO64
            && (n == q || (n == q + 1 && fileLen - HEADER_LEN == q * blockLen))
  {
    GuardsIff(fileLen, n, blockLen);
    assert q >= 1 by { if q == 0 { assert -1 * blockLen < 0; } }
    var len := fileLen - HEADER_LEN;
    if n == q + 1 {
      assert n * blockLen == q * blockLen + blockLen;
    } else if n > q + 1 {
      MulStep(q, n - 1, blockLen);
    } else if n < q && n >= 1 {
      if n < q - 1 { MulStep(n, q - 1, blockLen); }
    }
  }
}
