/** EncryptFile and DecryptFile over file streams, each tied to the container format. */
module FileCrypto {
  import opened Octets
  import opened EncryptedFile

  class FileInputStream {
    const content: Bytes
    var pos: nat
    ghost var pieces: seq<Bytes>  // what each Read returned, in order

    constructor (content: Bytes)
      ensures this.content == content && pos == 0 && pieces == []
    {
      this.content := content;
      pos, pieces := 0, [];
    }

    method Seekg(p: nat)
      modifies this
      ensures pos == p && pieces == old(pieces)
    {
      pos := p;
    }

    /** A read never runs past the end: every caller has to show it. */
    method Read(n: nat) returns (buf: Bytes)
      requires pos + n <= |content|
      modifies this
      ensures pos == old(pos) + n && |buf| == n
      ensures buf == content[old(pos)..pos]
      ensures pieces == old(pieces) + [buf]
    {
      buf := content[pos..pos + n];
      pos := pos + n;
      pieces := pieces + [buf];
    }
  }

  class FileOutputStream {
    var content: Bytes

    constructor ()
      ensures content == []
    {
      content := [];
    }

    method Open()
      modifies this
      ensures content == []
    {
      content := [];
    }

    method Write(b: Bytes)
      modifies this
      ensures content == old(content) + b
    {
      content := content + b;
    }
  }

  /******* Blocks *******/

  lemma OneByte(s: Bytes, i: nat)
    requires i < |s|
    ensures FromLittleEndian(s[i..i + 1]) == s[i]
  {
    assert s[i..i + 1][1..] == [];
  }

  method DecryptDataBlock(a: Aead, block: Bytes, key: Bytes) returns (r: Result<Bytes, Error>)
    ensures r == OpenBlock(a, key, block)
  {
    if |block| < 1 { return Err(BlockFormat); }
    Pow256Literals();
    var offset := 0;
    var ivLen := Bytes2Int(block[offset..offset + 1], 8);
    OneByte(block, offset);
    offset := offset + 1;

    if |block| < offset + IV_FIELD { return Err(BlockFormat); }
    var iv := block[offset..Min(offset + ivLen.value, |block|)];
    offset := offset + IV_FIELD;

    if |block| < offset + 1 { return Err(BlockFormat); }
    var macLen := Bytes2Int(block[offset..offset + 1], 8);
    OneByte(block, offset);
    offset := offset + 1;

    if |block| < offset + MAC_FIELD { return Err(BlockFormat); }
    var mac := block[offset..Min(offset + macLen.value, |block|)];
    offset := offset + MAC_FIELD;

    var encrypted := block[offset..];
    assert iv == block[1..Min(1 + ivLen.value, |block|)] && mac == block[34..Min(34 + macLen.value, |block|)];
    if |key| == 16 || |key| == 32 {
      var raw := a.open(key, iv, encrypted, mac);
      return if raw.Some? then Ok(raw.value) else Err(AuthFailed);
    }
    return Err(BadKey);
  }

  /** Reads one chunk and writes its block, or reads it and reports a bad key. */
  method EncryptDataBlock(a: Aead, input: FileInputStream, output: FileOutputStream, blockLen: nat,
                          key: Bytes, iv: Bytes,
                          ghost chunk: Bytes)
    returns (ok: bool)
    requires input.pos + blockLen <= |input.content| && |iv| == IV_LEN
    requires chunk == input.content[input.pos..input.pos + blockLen]
    modifies input, output
    ensures ok <==> ValidKey(key)
    ensures input.pos == old(input.pos) + blockLen && input.pieces == old(input.pieces) + [chunk]
    ensures ValidKey(key) ==> output.content == old(output.content) + SealBlock(a, key, iv, chunk)
    ensures !ValidKey(key) ==> output.content == old(output.content)
  {
    var raw := input.Read(blockLen);
    if |key| != 16 && |key| != 32 { return false; }
    var s := a.seal(key, iv, raw);
    ghost var before := output.content;
    output.Write([IV_LEN]);
    output.Write(iv);
    output.Write(Zeros(IV_FIELD - |iv|));
    output.Write([MAC_LEN]);
    output.Write(s.mac);
    output.Write(Zeros(MAC_FIELD - |s.mac|));
    output.Write(s.cipher);
    assert output.content == before + SealBlock(a, key, iv, raw);
    return true;
  }

  /******* Files *******/

  /** Where piece `i` starts. */
  ghost function Offset(base: nat, i: nat, size: nat): nat {
    if i == 0 then base else Offset(base, i - 1, size) + size
  }

  lemma {:induction false} OffsetIs(base: nat, i: nat, size: nat)
    ensures Offset(base, i, size) == base + i * size
  {
    if i > 0 {
      OffsetIs(base, i - 1, size);
      assert i * size == (i - 1) * size + size;
    }
  }

  /** Reading from offset `i` gives piece `i` of the split, and never runs past the end. */
  lemma {:induction false} PieceAt(content: Bytes, base: nat, n: nat, size: nat, i: nat)
    requires base <= |content| < TWO64 && Fits(|content| - base, n, size) && i < n
    ensures var start := Offset(base, i, size);
            var end := if i < n - 1 then start + size else |content|;
            && start <= end <= |content|
            && Split(content[base..], n, size)[i] == content[start..end]
    decreases i
  {
    if n > 1 { FitsStep(|content| - base, n, size); }
    if i == 0 {
      assert content[base..|content|] == content[base..];
      assert n > 1 ==> content[base..][..size] == content[base..base + size];
    } else {
      assert content[base..][size..] == content[base + size..];
      PieceAt(content, base + size, n - 1, size, i - 1);
      OffsetShift(base, i, size);
    }
  }

  lemma OffsetShift(base: nat, i: nat, size: nat)
    requires i > 0
    ensures Offset(base + size, i - 1, size) == Offset(base, i, size)
  {
    OffsetIs(base, i, size);
    OffsetIs(base + size, i - 1, size);
    assert i * size == (i - 1) * size + size;
  }

  /** The blocks are what lies in the file from `base` on, one after the other to the end. */
  ghost predicate Laid(content: Bytes, base: nat, blocks: seq<Bytes>, size: nat) {
    && |content| < TWO64
    && |blocks| >= 1
    && forall i :: 0 <= i < |blocks| ==> LaidAt(content, base, blocks, size, i)
  }

  ghost predicate LaidAt(content: Bytes, base: nat, blocks: seq<Bytes>, size: nat, i: nat)
    requires i < |blocks|
  {
    var start := Offset(base, i, size);
    var end := if i < |blocks| - 1 then start + size else |content|;
    start <= end <= |content| && blocks[i] == content[start..end]
  }

  lemma SplitLaid(content: Bytes, base: nat, n: nat, size: nat)
    requires base <= |content| < TWO64 && Fits(|content| - base, n, size)
    ensures Laid(content, base, Split(content[base..], n, size), size)
  {
    forall i | 0 <= i < n ensures LaidAt(content, base, Split(content[base..], n, size), size, i) {
      PieceAt(content, base, n, size, i);
    }
  }

  /** The subtraction of the wrapped product measures what is left for the last block. */
  lemma LastLength(content: Bytes, base: nat, blocks: seq<Bytes>, size: nat)
    requires Laid(content, base, blocks, size)
    ensures var last := |blocks| - 1;
            |content| - base - Mul64(last, size) == |content| - Offset(base, last, size) == |blocks[last]|
  {
    var last := |blocks| - 1;
    assert LaidAt(content, base, blocks, size, last);
    OffsetIs(base, last, size);
    ModSmall(last * size, TWO64);
  }

  /** What the first `i` chunks have put into the output. */
  ghost function SealedUpTo(a: Aead, key: Bytes, ivs: seq<Bytes>, chunks: seq<Bytes>, i: nat): Bytes
    requires i <= |chunks| && ValidIvs(ivs, |chunks|)
  {
    if ValidKey(key) then Flatten(SealAll(a, key, ivs[..i], chunks[..i])) else []
  }

  lemma SealedStep(a: Aead, key: Bytes, ivs: seq<Bytes>, chunks: seq<Bytes>, i: nat, before: Bytes)
    requires i < |chunks| && ValidIvs(ivs, |chunks|)
    ensures before + SealedUpTo(a, key, ivs, chunks, i + 1) ==
            before + SealedUpTo(a, key, ivs, chunks, i) +
            (if ValidKey(key) then SealBlock(a, key, ivs[i], chunks[i]) else [])
  {
    if ValidKey(key) {
      var last := SealBlock(a, key, ivs[i], chunks[i]);
      var prefix := SealAll(a, key, ivs[..i], chunks[..i]);
      assert SealAll(a, key, ivs[..i + 1], chunks[..i + 1]) == prefix + [last];
      FlattenConcat(prefix, [last]);
      FlattenOne(last);
      assert before + (Flatten(prefix) + last) == before + Flatten(prefix) + last;
    }
  }

  lemma SealedWhole(a: Aead, key: Bytes, ivs: seq<Bytes>, chunks: seq<Bytes>)
    requires ValidIvs(ivs, |chunks|)
    ensures SealedUpTo(a, key, ivs, chunks, 0) == []
    ensures SealedUpTo(a, key, ivs, chunks, |chunks|) ==
            if ValidKey(key) then Flatten(SealAll(a, key, ivs, chunks)) else []
  {
    assert ivs[..|chunks|] == ivs && chunks[..|chunks|] == chunks;
  }

  method EncryptFile(a: Aead, srcPath: string, destPath: string, input: FileInputStream, output: FileOutputStream,
                     key: Bytes, ivs: seq<Bytes>)
    returns (r: Result<(), Error>)
    requires input.pos == 0 && |input.content| < TWO64 && input.pieces == []
    requires ValidIvs(ivs, PacketCount(|input.content|))
    modifies input, output
    ensures r.Ok? <==> srcPath != destPath && input.content != [] && ValidKey(key)
    ensures r.Ok? ==> output.content == EncodeFile(a, key, ivs, input.content)
    ensures r.Ok? ==> input.pieces == Split(input.content, PacketCount(|input.content|), CHUNK_LEN)
    ensures r.Err? ==>
              output.content == if srcPath == destPath || input.content == [] then old(output.content)
                                else Header(PacketCount(|input.content|))
  {
    if srcPath == destPath { return Err(InPlace); }
    var fileLen := |input.content|;
    var packets: nat := fileLen / CHUNK_LEN + (if fileLen % CHUNK_LEN != 0 then 1 else 0);
    if packets < 1 { return Err(NoPackets); }

    output.Open();
    output.Write(LittleEndian(VERSION, 4));
    output.Write(LittleEndian(SCHEMA, 4));
    output.Write(LittleEndian(packets, 8));
    output.Write(LittleEndian(BLOCK_LEN, 4));
    assert output.content == Header(packets);

    ghost var chunks := Split(input.content, packets, CHUNK_LEN);
    assert input.content[0..] == input.content;
    SplitLaid(input.content, 0, packets, CHUNK_LEN);
    SplitTiles(input.content, packets, CHUNK_LEN);
    SealedWhole(a, key, ivs, chunks);
    var ok := EncryptBlocks(a, input, output, key, ivs, packets, chunks);
    return if ok then Ok(()) else Err(BadKey);
  }

  method EncryptBlocks(a: Aead, input: FileInputStream, output: FileOutputStream, key: Bytes, ivs: seq<Bytes>,
                       packets: nat, ghost chunks: seq<Bytes>)
    returns (ok: bool)
    requires input.pos == 0 && input.pieces == []
    requires |chunks| == packets && Laid(input.content, 0, chunks, CHUNK_LEN)
    requires |chunks[packets - 1]| <= CHUNK_LEN
    requires ValidIvs(ivs, packets)
    modifies input, output
    ensures ok <==> ValidKey(key)
    ensures output.content == old(output.content) + SealedUpTo(a, key, ivs, chunks, packets)
    ensures ok ==> input.pieces == chunks
  {
    ghost var before := output.content;
    SealedWhole(a, key, ivs, chunks);
    for i := 0 to packets - 1
      invariant input.pos == Offset(0, i, CHUNK_LEN) && input.pieces == chunks[..i]
      invariant output.content == before + SealedUpTo(a, key, ivs, chunks, i)
      invariant i > 0 ==> ValidKey(key)
    {
      assert LaidAt(input.content, 0, chunks, CHUNK_LEN, i);
      ok := EncryptNext(a, input, output, CHUNK_LEN, key, ivs, chunks, i, before);
      if !ok { return; }
    }
    assert chunks == chunks[..packets - 1] + [chunks[packets - 1]];
    ok := EncryptLast(a, input, output, key, ivs, packets, chunks, before);
  }

  /** The last chunk is what is left, by a subtraction that is narrowed to 32 bits. */
  method EncryptLast(a: Aead, input: FileInputStream, output: FileOutputStream, key: Bytes, ivs: seq<Bytes>,
                     packets: nat, ghost chunks: seq<Bytes>, ghost before: Bytes)
    returns (ok: bool)
    requires |chunks| == packets && Laid(input.content, 0, chunks, CHUNK_LEN) && ValidIvs(ivs, packets)
    requires |chunks[packets - 1]| <= CHUNK_LEN && input.pos == Offset(0, packets - 1, CHUNK_LEN)
    requires output.content == before + SealedUpTo(a, key, ivs, chunks, packets - 1)
    modifies input, output
    ensures ok <==> ValidKey(key)
    ensures input.pieces == old(input.pieces) + [chunks[packets - 1]]
    ensures output.content == before + SealedUpTo(a, key, ivs, chunks, packets)
  {
    assert LaidAt(input.content, 0, chunks, CHUNK_LEN, packets - 1);
    LastLength(input.content, 0, chunks, CHUNK_LEN);
    var lastLen := (|input.content| - Mul64(packets - 1, CHUNK_LEN)) % TWO32;
    assert lastLen == |input.content| - input.pos;
    ok := EncryptNext(a, input, output, lastLen, key, ivs, chunks, packets - 1, before);
  }

  /** Seals chunk `i` after the chunks before it. */
  method EncryptNext(a: Aead, input: FileInputStream, output: FileOutputStream, blockLen: nat, key: Bytes,
                     ivs: seq<Bytes>, ghost chunks: seq<Bytes>, i: nat, ghost before: Bytes)
    returns (ok: bool)
    requires i < |chunks| && ValidIvs(ivs, |chunks|) && input.pos + blockLen <= |input.content|
    requires chunks[i] == input.content[input.pos..input.pos + blockLen]
    requires output.content == before + SealedUpTo(a, key, ivs, chunks, i)
    modifies input, output
    ensures ok <==> ValidKey(key)
    ensures input.pos == old(input.pos) + blockLen && input.pieces == old(input.pieces) + [chunks[i]]
    ensures output.content == before + SealedUpTo(a, key, ivs, chunks, i + 1)
    ensures !ok ==> SealedUpTo(a, key, ivs, chunks, i + 1) == []
  {
    SealedStep(a, key, ivs, chunks, i, before);
    ok := EncryptDataBlock(a, input, output, blockLen, key, ivs[i], chunks[i]);
  }

  method DecryptFile(a: Aead, srcPath: string, destPath: string, input: FileInputStream,
                     output: FileOutputStream, key: Bytes)
    returns (r: Result<(), Error>)
    requires input.pos == 0 && |input.content| < TWO64 && input.pieces == []
    modifies input, output
    ensures srcPath == destPath ==> r == Err(InPlace) && output.content == old(output.content)
    ensures srcPath != destPath ==>
            match DecodeFile(a, key, input.content)
            case Ok(data) => r == Ok(()) && output.content == data
            case Err(e) => r == Err(e)
    ensures srcPath != destPath ==> output.content == Flatten(Plaintexts(a, key, BlocksOf(input.content)))
    ensures r.Ok? ==>
              && |input.content| > HEADER_LEN
              && input.pieces == [input.content[8..16], input.content[16..20]] + BlocksOf(input.content)
  {
    if srcPath == destPath { return Err(InPlace); }
    output.Open();
    var fileLen := |input.content|;
    if fileLen <= HEADER_LEN { return Err(HeaderTooShort); }
    input.Seekg(8);
    var packets, size := ReadCounts(input);
    if packets < 1 { return Err(NoPackets); }

    if size == 0 { return Err(ZeroBlockLen); }
    if Mul64(packets - 1, size) / size != packets - 1 { return Err(Overflow); }
    if Mul64(packets, size) / size != packets { return Err(Overflow); }
    if fileLen - HEADER_LEN < Mul64(packets - 1, size) { return Err(TooShort); }
    if Mul64(size, packets) < fileLen - HEADER_LEN { return Err(TooLong); }
    HeaderFieldBounds(input.content);
    GuardsIff(fileLen, packets, size);
    SplitLaid(input.content, HEADER_LEN, packets, size);
    r := DecryptBlocks(a, input, output, key, packets, size, BlocksOf(input.content));
  }

  method ReadCounts(input: FileInputStream) returns (packets: nat, size: nat)
    requires input.pos == 8 && |input.content| > HEADER_LEN && input.pieces == []
    modifies input
    ensures input.pos == HEADER_LEN
    ensures input.pieces == [input.content[8..16], input.content[16..20]]
    ensures packets == PacketsOf(input.content) && size == BlockLenOf(input.content)
  {
    var buf := input.Read(8);
    var count := Bytes2Int(buf, 8);
    buf := input.Read(4);
    var len := Bytes2Int(buf, 4);
    return count.value, len.value;
  }

  method DecryptBlocks(a: Aead, input: FileInputStream, output: FileOutputStream, key: Bytes,
                       packets: nat, size: nat, ghost blocks: seq<Bytes>)
    returns (r: Result<(), Error>)
    requires input.pos == HEADER_LEN && output.content == []
    requires |blocks| == packets && Laid(input.content, HEADER_LEN, blocks, size)
    modifies input, output
    ensures match OpenAll(a, key, blocks)
            case Ok(data) => r == Ok(()) && output.content == data
            case Err(e) => r == Err(e)
    ensures output.content == Flatten(Plaintexts(a, key, blocks))
    ensures r.Ok? ==> input.pieces == old(input.pieces) + blocks
  {
    for i := 0 to packets - 1
      invariant input.pos == Offset(HEADER_LEN, i, size)
      invariant input.pieces == old(input.pieces) + blocks[..i]
      invariant OpenAll(a, key, blocks[..i]) == Ok(output.content)
    {
      assert LaidAt(input.content, HEADER_LEN, blocks, size, i);
      r := DecryptNext(a, input, output, key, size, blocks, i);
      if r.Err? { return; }
      assert blocks[..i + 1] == blocks[..i] + [blocks[i]];
    }
    var last := packets - 1;
    assert LaidAt(input.content, HEADER_LEN, blocks, size, last);
    LastLength(input.content, HEADER_LEN, blocks, size);
    assert blocks[..last] + [blocks[last]] == blocks == blocks[..last + 1];
    r := DecryptNext(a, input, output, key, |input.content| - HEADER_LEN - Mul64(packets - 1, size), blocks, last);
    if r.Ok? { PlaintextsOfOpened(a, key, blocks); }
  }

  /** Reads block `i` and writes its plaintext after those of the blocks before it. */
  method DecryptNext(a: Aead, input: FileInputStream, output: FileOutputStream, key: Bytes, len: nat,
                     ghost blocks: seq<Bytes>, ghost i: nat)
    returns (r: Result<(), Error>)
    requires i < |blocks| && input.pos + len <= |input.content|
    requires blocks[i] == input.content[input.pos..input.pos + len]
    requires OpenAll(a, key, blocks[..i]) == Ok(output.content)
    modifies input, output
    ensures input.pos == old(input.pos) + len && input.pieces == old(input.pieces) + [blocks[i]]
    ensures r.Ok? ==> r == Ok(()) && OpenAll(a, key, blocks[..i + 1]) == Ok(output.content)
    ensures r.Err? ==>
              OpenAll(a, key, blocks) == Err(r.error) && output.content == Flatten(Plaintexts(a, key, blocks))
  {
    OpenedStep(a, key, blocks, i);
    var buf := input.Read(len);
    var plain := DecryptDataBlock(a, buf, key);
    if plain.Err? {
      PlaintextsStop(a, key, blocks, i);
      return Err(plain.error);
    }
    output.Write(plain.value);
    return Ok(());
  }

  /** Opening one more block either extends the plaintext or settles the answer. */
  lemma OpenedStep(a: Aead, key: Bytes, blocks: seq<Bytes>, i: nat)
    requires i < |blocks|
    ensures blocks[..i + 1] == blocks[..i] + [blocks[i]]
    ensures OpenAll(a, key, blocks[..i + 1]) == Then(OpenAll(a, key, blocks[..i]), OpenBlock(a, key, blocks[i]))
    ensures OpenAll(a, key, blocks[..i + 1]).Err? ==> OpenAll(a, key, blocks) == OpenAll(a, key, blocks[..i + 1])
  {
    var next := [blocks[i]];
    assert |next[1..]| == 0;
    OpenAllConcat(a, key, blocks[..i], [blocks[i]]);
    assert blocks == blocks[..i + 1] + blocks[i + 1..];
    OpenAllConcat(a, key, blocks[..i + 1], blocks[i + 1..]);
    match OpenBlock(a, key, blocks[i]) case Ok(x) => assert x + [] == x; case Err(_) =>
  }
}
