/** Codec dispatch by id; the LZ4 block functions are a parameter. */
module Codecs {
  import opened Wire

  const STORE := 0x00
  const LZ4 := 0x01

  /** `lz4.block.compress` and `lz4.block.decompress`, which may fail. */
  datatype Lz4 = Lz4(compress: Bytes -> Option<Bytes>, decompress: (Bytes, int) -> Option<Bytes>)

  /** What the library promises about one block. */
  predicate BlockInverts(lz4: Lz4, plaintext: Bytes) {
    var block := lz4.compress(plaintext);
    block.Some? && lz4.decompress(block.value, |plaintext|) == Some(plaintext)
  }

  /** What `compress` returns, or the exception it ends in: an unsupported codec, a failure of
    * the library, or a length that does not fit the prefix. */
  datatype Compressed = Block(bytes: Bytes) | UnsupportedCodec | LibraryError | OverflowError

  function Compress(lz4: Lz4, codec: int, plaintext: Bytes): Compressed {
    if codec == STORE then Block(plaintext)
    else if codec == LZ4 then
      var block := lz4.compress(plaintext);
      if block.None? then LibraryError
      else if !Fits(|plaintext|, 4) then OverflowError
      else Block(Le(|plaintext|, 4) + block.value)
    else UnsupportedCodec
  }

  function Decompress(lz4: Lz4, codec: int, compressed: Bytes, expectedLen: int): (r: Result<Bytes>)
    ensures r.Success? ==> |r.value| == expectedLen
  {
    if codec == STORE then
      if |compressed| != expectedLen then Failure(Corrupt) else Success(compressed)
    else if codec == LZ4 then
      if |compressed| < 4 then Failure(Corrupt) else
      var result := lz4.decompress(compressed[4..], expectedLen);
      if result.None? || |result.value| != expectedLen then Failure(Corrupt)
      else Success(result.value)
    else Failure(Unsupported)
  }

  /** Compression fails exactly for other codecs, on what the library refuses, and at lengths of
    * 2^32 bytes or more under LZ4. Decompression undoes it: always for the store codec, and for
    * LZ4 exactly on the blocks the library inverts. Any other codec is refused both ways. */
  lemma CodecRoundTrip(lz4: Lz4, codec: int, plaintext: Bytes)
    ensures var c := Compress(lz4, codec, plaintext);
            && (c.Block? <==> codec == STORE
                              || (codec == LZ4 && lz4.compress(plaintext).Some? && |plaintext| < 0x1_0000_0000))
            && (c.Block? ==>
                  (Decompress(lz4, codec, c.bytes, |plaintext|) == Success(plaintext)
                   <==> codec == STORE || BlockInverts(lz4, plaintext)))
    ensures codec !in {STORE, LZ4} ==>
              && Compress(lz4, codec, plaintext) == UnsupportedCodec
              && forall b, n :: Decompress(lz4, codec, b, n) == Failure(Unsupported)
  {
    FourBytes();
    if codec == LZ4 && lz4.compress(plaintext).Some? {
      var block := lz4.compress(plaintext).value;
      assert (Le(|plaintext|, 4) + block)[4..] == block;
    }
  }

  /** Both directions in full, for every codec id: 0 stores, 1 is an LZ4 block behind its length
    * in four bytes, which decompression does not look at. */
  lemma CodecsSpelledOut(lz4: Lz4, b: Bytes, n: int)
    ensures Compress(lz4, 0, b) == Block(b)
    ensures lz4.compress(b).Some? && |b| < 0x1_0000_0000 ==> Compress(lz4, 1, b) == Block(Le(|b|, 4) + lz4.compress(b).value)
    ensures lz4.compress(b).None? ==> Compress(lz4, 1, b) == LibraryError
    ensures lz4.compress(b).Some? && |b| >= 0x1_0000_0000 ==> Compress(lz4, 1, b) == OverflowError
    ensures Decompress(lz4, 0, b, n) == if |b| == n then Success(b) else Failure(Corrupt)
    ensures |b| < 4 ==> Decompress(lz4, 1, b, n) == Failure(Corrupt)
    ensures |b| >= 4 ==>
              var plain := lz4.decompress(b[4..], n);
              Decompress(lz4, 1, b, n)
              == if plain.Some? && |plain.value| == n then Success(plain.value) else Failure(Corrupt)
    ensures forall codec :: codec !in {0, 1} ==>
              Compress(lz4, codec, b) == UnsupportedCodec && Decompress(lz4, codec, b, n) == Failure(Unsupported)
  {
    FourBytes();
  }

  lemma FourBytes()
    ensures Bound(4) == 0x1_0000_0000
  {
  }
}
