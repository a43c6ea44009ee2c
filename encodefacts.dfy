/**
 * A file written as the PNG format lays it out (signature, IHDR, data chunks, IEND) is read back
 * by the decoding pass as exactly what was written.
 */
module EncodeFacts {
  import opened Wrappers
  import opened Bytes
  import opened Crc
  import opened Png
  import opened PngFacts
  import opened DecodeFacts

  /** A chunk to write: a 4-byte type and data whose length fits the 32-bit length field. */
  datatype Item = Item(chunkType: seq<byte>, data: seq<byte>)

  predicate Writable(it: Item) {
    |it.chunkType| == 4 && |it.data| < 0x1_0000_0000
  }

  /** A data chunk: writable, and neither IHDR nor IEND. */
  predicate Ordinary(it: Item) {
    Writable(it) && it.chunkType != IhdrType && it.chunkType != IendType
  }

  predicate AllOrdinary(items: seq<Item>) {
    forall k :: 0 <= k < |items| ==> Ordinary(items[k])
  }

  /** The chunks written one after the other. */
  function EncodeItems(items: seq<Item>): seq<byte>
    requires AllOrdinary(items)
  {
    if items == [] then [] else EncodeChunk(items[0].chunkType, items[0].data) + EncodeItems(items[1..])
  }

  /** The chunk the reader builds for a written item. */
  function Written(it: Item): Chunk {
    Chunk(|it.data|, it.chunkType, it.data, Crc32(it.chunkType + it.data))
  }

  function WrittenAll(items: seq<Item>): (r: seq<Chunk>)
    ensures |r| == |items|
  {
    if items == [] then [] else [Written(items[0])] + WrittenAll(items[1..])
  }

  /** The data of the items joined in order. */
  function JoinData(items: seq<Item>): seq<byte> {
    if items == [] then [] else items[0].data + JoinData(items[1..])
  }

  /** The empty IEND chunk. */
  function EncodeEnd(): seq<byte> {
    EncodeChunk(IendType, [])
  }

  /** Reading one written data chunk adds the chunk it describes. */
  lemma AbsorbWritten(it: Item, rest: seq<byte>, acc: Collected)
    requires Ordinary(it)
    ensures ReadFrame(EncodeChunk(it.chunkType, it.data) + rest) == Ok((EncodedFrame(it.chunkType, it.data), rest))
    ensures Absorb(EncodedFrame(it.chunkType, it.data), acc) == Continue(Collected(acc.header, acc.chunks + [Written(it)]))
  {
    ReadEncoded(it.chunkType, it.data, rest);
    EncodedCrc(it.chunkType, it.data);
  }

  /** One step of the chunk loop over a frame that is absorbed and read further. */
  lemma LoopContinues(s: seq<byte>, acc: Collected, f: Frame, after: seq<byte>, c: Collected)
    requires ReadFrame(s) == Ok((f, after)) && Absorb(f, acc) == Continue(c)
    ensures ChunkLoop(s, acc) == ChunkLoop(after, c)
  {
  }

  /** One written item in front of the rest of a written file. */
  lemma ItemsCons(items: seq<Item>, tail: seq<byte>)
    requires AllOrdinary(items) && items != []
    ensures EncodeItems(items) + EncodeEnd() + tail ==
      EncodeChunk(items[0].chunkType, items[0].data) + (EncodeItems(items[1..]) + EncodeEnd() + tail)
  {
    var e, x := EncodeChunk(items[0].chunkType, items[0].data), EncodeItems(items[1..]);
    assert EncodeItems(items) == e + x;
    AppendAssoc(e, x, EncodeEnd());
    AppendAssoc(e, x + EncodeEnd(), tail);
  }

  /** A written data chunk in front of any bytes: the loop goes on with that chunk collected. */
  lemma LoopAfterItem(it: Item, rest: seq<byte>, acc: Collected, c: Collected)
    requires Ordinary(it)
    requires ChunkLoop(rest, Collected(acc.header, acc.chunks + [Written(it)])) == Ok(c)
    ensures ChunkLoop(EncodeChunk(it.chunkType, it.data) + rest, acc) == Ok(c)
  {
    AbsorbWritten(it, rest, acc);
    LoopContinues(EncodeChunk(it.chunkType, it.data) + rest, acc, EncodedFrame(it.chunkType, it.data), rest,
                  Collected(acc.header, acc.chunks + [Written(it)]));
  }

  /** The written IEND chunk ends the loop with what was collected, whatever follows it. */
  lemma LoopAtEnd(tail: seq<byte>, acc: Collected)
    ensures ChunkLoop(EncodeEnd() + tail, acc) == Ok(acc)
  {
    ReadEncoded(IendType, [], tail);
  }

  /** Collecting the first written chunk and then the rest is collecting them all. */
  lemma CollectWritten(items: seq<Item>, chunks: seq<Chunk>)
    requires items != []
    ensures chunks + [Written(items[0])] + WrittenAll(items[1..]) == chunks + WrittenAll(items)
  {
    assert WrittenAll(items) == [Written(items[0])] + WrittenAll(items[1..]);
    AppendAssoc(chunks, [Written(items[0])], WrittenAll(items[1..]));
  }

  /** The chunk loop over written data chunks and IEND collects exactly those chunks, whatever follows. */
  lemma {:induction false} LoopOverWritten(items: seq<Item>, tail: seq<byte>, acc: Collected)
    requires AllOrdinary(items)
    ensures ChunkLoop(EncodeItems(items) + EncodeEnd() + tail, acc) ==
      Ok(Collected(acc.header, acc.chunks + WrittenAll(items)))
    decreases |items|
  {
    if items == [] {
      assert EncodeItems(items) + EncodeEnd() == EncodeEnd() by { EmptyAppend(EncodeEnd()); }
      assert acc.chunks + WrittenAll(items) == acc.chunks by { AppendEmpty(acc.chunks); }
      LoopAtEnd(tail, acc);
    } else {
      var it, more := items[0], items[1..];
      assert AllOrdinary(more);
      var rest := EncodeItems(more) + EncodeEnd() + tail;
      var next := Collected(acc.header, acc.chunks + [Written(it)]);
      LoopOverWritten(more, tail, next);
      CollectWritten(items, acc.chunks);
      LoopAfterItem(it, rest, acc, Collected(acc.header, acc.chunks + WrittenAll(items)));
      ItemsCons(items, tail);
    }
  }

  /** Without IEND the loop runs off the end of the file where the next length is due. */
  lemma {:induction false} LoopWithoutEnd(items: seq<Item>, acc: Collected)
    requires AllOrdinary(items)
    ensures ChunkLoop(EncodeItems(items), acc) == Err(UnexpectedEnd)
    decreases |items|
  {
    if items != [] {
      var it := items[0];
      var rest := EncodeItems(items[1..]);
      AbsorbWritten(it, rest, acc);
      LoopWithoutEnd(items[1..], Collected(acc.header, acc.chunks + [Written(it)]));
    }
  }

  /** The joined payload of the read chunks is the joined data that was written. */
  lemma {:induction false} PayloadWritten(items: seq<Item>)
    ensures Payload(WrittenAll(items)) == JoinData(items)
    decreases |items|
  {
    if items != [] {
      assert WrittenAll(items)[1..] == WrittenAll(items[1..]);
      PayloadWritten(items[1..]);
    }
  }

  /** The 13 bytes of IHDR data: width and height big-endian, then the five one-byte fields. */
  function HeaderData(width: nat, height: nat, depth: nat, colour: nat, compression: nat, filter: nat, interlace: nat): (r: seq<byte>)
    requires width < 0x1_0000_0000 && height < 0x1_0000_0000
    requires depth < 0x100 && colour < 0x100 && compression < 0x100 && filter < 0x100 && interlace < 0x100
    ensures |r| == 13
  {
    BE4(width) + BE4(height) + [ByteOf(depth), ByteOf(colour), ByteOf(compression), ByteOf(filter), ByteOf(interlace)]
  }

  /** One byte read as a 1-byte field. */
  lemma OneByteField(s: seq<byte>, i: nat, x: nat)
    requires i < |s| && x < 0x100 && s[i] == ByteOf(x)
    ensures ParseInt(s, i, 1) == x
  {
    ByteValue(x);
    assert Slice(s, i, i + 1) == [s[i]];
    assert [s[i]][..0] == [];
  }

  /** The IHDR constructor reads back every field that was written. */
  lemma HeaderRoundTrip(width: nat, height: nat, depth: nat, colour: nat, compression: nat, filter: nat, interlace: nat, crc: nat)
    requires width < 0x1_0000_0000 && height < 0x1_0000_0000
    requires depth < 0x100 && colour < 0x100 && compression < 0x100 && filter < 0x100 && interlace < 0x100
    ensures var d := HeaderData(width, height, depth, colour, compression, filter, interlace);
      HeaderFrom(d, crc) == Header(Chunk(13, IhdrType, d, crc), width, height, depth, colour, compression, filter, interlace)
  {
    var d := HeaderData(width, height, depth, colour, compression, filter, interlace);
    assert Slice(d, 0, 4) == BE4(width);
    assert Slice(d, 4, 8) == BE4(height);
    BE4RoundTrip(width);
    BE4RoundTrip(height);
    OneByteField(d, 8, depth);
    OneByteField(d, 9, colour);
    OneByteField(d, 10, compression);
    OneByteField(d, 11, filter);
    OneByteField(d, 12, interlace);
  }

  /** The data of the IHDR chunk in the IHDR constructor's documented example. */
  const ExampleHeaderData: seq<byte> := [0x00, 0x00, 0x00, 0x03, 0x00, 0x00, 0x00, 0x03, 0x08, 0x02, 0x00, 0x00, 0x00]
  /** Its stored CRC bytes, d9 4a 22 e8. */
  const ExampleHeaderCrc: seq<byte> := [0xd9, 0x4a, 0x22, 0xe8]

  /** The documented example: a 3 by 3 image, bit depth 8, colour type 2, and so simplified. */
  lemma ExampleHeader()
    ensures var h := HeaderFrom(ExampleHeaderData, ParseInt(ExampleHeaderCrc, 0, 4));
      h.width == 3 && h.height == 3 && h.depth == 8 && h.colour == 2 && IsSimplified(h)
  {
    var d := HeaderData(3, 3, 8, 2, 0, 0, 0);
    ByteValue(3);
    ByteValue(8);
    ByteValue(2);
    assert ByteOf(0) == 0;
    assert BE4(3) == [0, 0, 0, ByteOf(3)];
    assert d == ExampleHeaderData;
    HeaderRoundTrip(3, 3, 8, 2, 0, 0, 0, ParseInt(ExampleHeaderCrc, 0, 4));
  }

  /** An image file as the format lays it out: signature, IHDR of a simplified image, data chunks, IEND. */
  function EncodeFile(width: nat, height: nat, items: seq<Item>): seq<byte>
    requires width < 0x1_0000_0000 && height < 0x1_0000_0000 && AllOrdinary(items)
  {
    Signature + EncodeChunk(IhdrType, HeaderData(width, height, 8, 2, 0, 0, 0)) + EncodeItems(items) + EncodeEnd()
  }

  /** The header the reader builds for a written simplified IHDR chunk. */
  function WrittenHeader(width: nat, height: nat): Header
    requires width < 0x1_0000_0000 && height < 0x1_0000_0000
  {
    var d := HeaderData(width, height, 8, 2, 0, 0, 0);
    HeaderFrom(d, Crc32(IhdrType + d))
  }

  /** The written file is the signature followed by the IHDR chunk and the rest. */
  lemma FileParts(width: nat, height: nat, items: seq<Item>)
    requires width < 0x1_0000_0000 && height < 0x1_0000_0000 && AllOrdinary(items)
    ensures var file, rest := EncodeFile(width, height, items),
      EncodeChunk(IhdrType, HeaderData(width, height, 8, 2, 0, 0, 0)) + (EncodeItems(items) + EncodeEnd() + []);
      |file| >= 8 && file[..8] == Signature && file[8..] == rest
  {
    var hc, x, e := EncodeChunk(IhdrType, HeaderData(width, height, 8, 2, 0, 0, 0)), EncodeItems(items), EncodeEnd();
    var rest := hc + (x + e + []);
    assert x + e + [] == x + e;
    AppendAssoc(Signature, hc, x);
    AppendAssoc(Signature, hc + x, e);
    AppendAssoc(hc, x, e);
    assert EncodeFile(width, height, items) == Signature + rest;
    TakeAppend(Signature, rest, 8);
    DropAppend(Signature, rest, 8);
  }

  /** Reading a written IHDR chunk records the header built from its data. */
  lemma AbsorbWrittenHeader(hd: seq<byte>, body: seq<byte>)
    requires |hd| == 13
    ensures ReadFrame(EncodeChunk(IhdrType, hd) + body) == Ok((EncodedFrame(IhdrType, hd), body))
    ensures Absorb(EncodedFrame(IhdrType, hd), Collected(None, [])) ==
      Continue(Collected(Some(HeaderFrom(hd, Crc32(IhdrType + hd))), []))
  {
    ReadEncoded(IhdrType, hd, body);
    EncodedCrc(IhdrType, hd);
  }

  /** A written IHDR chunk in front of any bytes: the loop goes on from the header built from its data. */
  lemma LoopAfterHeader(hd: seq<byte>, body: seq<byte>, c: Collected)
    requires |hd| == 13
    requires ChunkLoop(body, Collected(Some(HeaderFrom(hd, Crc32(IhdrType + hd))), [])) == Ok(c)
    ensures ChunkLoop(EncodeChunk(IhdrType, hd) + body, Collected(None, [])) == Ok(c)
  {
    AbsorbWrittenHeader(hd, body);
    LoopContinues(EncodeChunk(IhdrType, hd) + body, Collected(None, []), EncodedFrame(IhdrType, hd), body,
                  Collected(Some(HeaderFrom(hd, Crc32(IhdrType + hd))), []));
  }

  /** The chunk loop over a written IHDR chunk, data chunks and IEND collects that header and those chunks. */
  lemma LoopOverFile(hd: seq<byte>, items: seq<Item>)
    requires |hd| == 13 && AllOrdinary(items)
    ensures ChunkLoop(EncodeChunk(IhdrType, hd) + (EncodeItems(items) + EncodeEnd() + []), Collected(None, [])) ==
      Ok(Collected(Some(HeaderFrom(hd, Crc32(IhdrType + hd))), WrittenAll(items)))
  {
    var acc := Collected(Some(HeaderFrom(hd, Crc32(IhdrType + hd))), []);
    LoopOverWritten(items, [], acc);
    assert acc.chunks + WrittenAll(items) == WrittenAll(items) by { EmptyAppend(WrittenAll(items)); }
    LoopAfterHeader(hd, EncodeItems(items) + EncodeEnd() + [], Collected(acc.header, WrittenAll(items)));
  }

  /** The written header has the written width and height and is simplified. */
  lemma WrittenHeaderFields(width: nat, height: nat)
    requires width < 0x1_0000_0000 && height < 0x1_0000_0000
    ensures WrittenHeader(width, height).width == width && WrittenHeader(width, height).height == height
    ensures IsSimplified(WrittenHeader(width, height))
  {
    var hd := HeaderData(width, height, 8, 2, 0, 0, 0);
    HeaderRoundTrip(width, height, 8, 2, 0, 0, 0, Crc32(IhdrType + hd));
  }

  /**
   * A written file decodes to what was written: the header with the written width and height,
   * the written chunks, and the pixels sliced from the inflated joined data; it fails only
   * when that data does not inflate.
   */
  lemma DecodeWritten(width: nat, height: nat, items: seq<Item>, inflate: seq<byte> -> Option<seq<byte>>)
    requires width < 0x1_0000_0000 && height < 0x1_0000_0000 && AllOrdinary(items)
    ensures WrittenHeader(width, height).width == width && WrittenHeader(width, height).height == height
    ensures IsSimplified(WrittenHeader(width, height))
    ensures Decode(EncodeFile(width, height, items), inflate) ==
      match inflate(JoinData(items))
      case None => Err(DecompressFailed)
      case Some(d) => Ok(Image(WrittenHeader(width, height), WrittenAll(items), d, PixelRows(d, width, height)))
  {
    WrittenHeaderFields(width, height);
    FileParts(width, height, items);
    DecodeUnfold(EncodeFile(width, height, items), inflate);
    LoopOverFile(HeaderData(width, height, 8, 2, 0, 0, 0), items);
    PayloadWritten(items);
  }

  /** The frame of a written chunk whose data had bit j of byte i inverted after its CRC was computed. */
  function CorruptFrame(t: seq<byte>, d: seq<byte>, i: nat, j: nat): Frame
    requires |d| < 0x1_0000_0000 && i < |d| && j < 8
  {
    Frame(BE4(|d|), t, Flip(d, i, j), BE4(Crc32(t + d)))
  }

  /** Those are the bytes of the written chunk with bit j of data byte i inverted. */
  lemma CorruptBytes(t: seq<byte>, d: seq<byte>, i: nat, j: nat)
    requires |t| == 4 && |d| < 0x1_0000_0000 && i < |d| && j < 8
    ensures FrameBytes(CorruptFrame(t, d, i, j)) == Flip(EncodeChunk(t, d), 8 + i, j)
  {
    var e, f := EncodeChunk(t, d), FrameBytes(CorruptFrame(t, d, i, j));
    assert |f| == |e|;
    forall k | 0 <= k < |e|
      ensures f[k] == Flip(e, 8 + i, j)[k]
    {
      if k < 8 + i || k > 8 + i {
      }
    }
  }

  /** A corrupted frame fails the CRC check: CRC-32 detects every single-bit error. */
  lemma CorruptFailsCrc(t: seq<byte>, d: seq<byte>, i: nat, j: nat)
    requires |t| == 4 && |d| < 0x1_0000_0000 && i < |d| && j < 8
    ensures !CrcMatches(CorruptFrame(t, d, i, j))
  {
    EncodedCrc(t, d);
    assert t + Flip(d, i, j) == Flip(t + d, |t| + i, j);
    SingleBitFlipDetected(t + d, |t| + i, j);
  }

  /**
   * A chunk other than IEND whose data has one bit inverted stops the whole pass with the
   * chunk validation error, whatever follows it: no chunk is skipped.
   */
  lemma CorruptChunkRejected(t: seq<byte>, d: seq<byte>, i: nat, j: nat, rest: seq<byte>, acc: Collected)
    requires |t| == 4 && |d| < 0x1_0000_0000 && i < |d| && j < 8 && t != IendType
    ensures ChunkLoop(Flip(EncodeChunk(t, d), 8 + i, j) + rest, acc) == Err(InvalidChunk)
  {
    var f := CorruptFrame(t, d, i, j);
    CorruptBytes(t, d, i, j);
    BE4RoundTrip(|d|);
    ReadFrameBytes(f, rest);
    CorruptFailsCrc(t, d, i, j);
  }

  /** The frame of a written chunk whose type had bit j of byte i inverted after its CRC was computed. */
  function CorruptTypeFrame(t: seq<byte>, d: seq<byte>, i: nat, j: nat): Frame
    requires |t| == 4 && |d| < 0x1_0000_0000 && i < 4 && j < 8
  {
    Frame(BE4(|d|), Flip(t, i, j), d, BE4(Crc32(t + d)))
  }

  /** Those are the bytes of the written chunk with bit j of type byte i inverted. */
  lemma CorruptTypeBytes(t: seq<byte>, d: seq<byte>, i: nat, j: nat)
    requires |t| == 4 && |d| < 0x1_0000_0000 && i < 4 && j < 8
    ensures FrameBytes(CorruptTypeFrame(t, d, i, j)) == Flip(EncodeChunk(t, d), 4 + i, j)
  {
    var e, f := EncodeChunk(t, d), FrameBytes(CorruptTypeFrame(t, d, i, j));
    assert |f| == |e|;
    forall k | 0 <= k < |e|
      ensures f[k] == Flip(e, 4 + i, j)[k]
    {
      if k < 4 + i || k > 4 + i {
      }
    }
  }

  /** A frame whose type had one bit inverted fails the CRC check. */
  lemma CorruptTypeFailsCrc(t: seq<byte>, d: seq<byte>, i: nat, j: nat)
    requires |t| == 4 && |d| < 0x1_0000_0000 && i < 4 && j < 8
    ensures !CrcMatches(CorruptTypeFrame(t, d, i, j))
  {
    EncodedCrc(t, d);
    assert Flip(t, i, j) + d == Flip(t + d, i, j);
    SingleBitFlipDetected(t + d, i, j);
  }

  /**
   * A chunk whose type had one bit inverted stops the whole pass with the chunk validation error,
   * whatever follows, unless the inverted type happens to be IEND, whose CRC is never checked.
   * That includes a type turned into IHDR, whose CRC is checked as well.
   */
  lemma CorruptTypeRejected(t: seq<byte>, d: seq<byte>, i: nat, j: nat, rest: seq<byte>, acc: Collected)
    requires |t| == 4 && |d| < 0x1_0000_0000 && i < 4 && j < 8 && Flip(t, i, j) != IendType
    ensures ChunkLoop(Flip(EncodeChunk(t, d), 4 + i, j) + rest, acc) == Err(InvalidChunk)
  {
    var f := CorruptTypeFrame(t, d, i, j);
    CorruptTypeBytes(t, d, i, j);
    BE4RoundTrip(|d|);
    ReadFrameBytes(f, rest);
    CorruptTypeFailsCrc(t, d, i, j);
  }
}
