/**
 * Properties of the PNG decoding pass: what the reads return on well-formed chunks, what the
 * chunk loop collects compared with a plain scan of the file, which files are rejected and
 * how the pixel matrix is laid out.
 */
module PngFacts {
  import opened Wrappers
  import opened Bytes
  import opened Crc
  import opened Png

  // ---------------------------------------------------------------------------------------
  // Reading well-formed bytes

  /** A request for exactly the bytes of x returns x and leaves what follows. */
  lemma TakeExact(x: seq<byte>, y: seq<byte>)
    requires |x| > 0
    ensures Take(x + y, |x|) == Some((x, y))
  {
    assert (x + y)[..|x|] == x;
    assert (x + y)[|x|..] == y;
  }

  /** A full read is not affected by bytes appended to the file. */
  lemma TakeExtend(rest: seq<byte>, n: nat, tail: seq<byte>)
    requires n > 0 && Take(rest, n).Some? && |Take(rest, n).value.0| == n
    ensures Take(rest + tail, n) == Some((Take(rest, n).value.0, Take(rest, n).value.1 + tail))
  {
    var (x, y) := Take(rest, n).value;
    assert rest + tail == x + (y + tail);
    TakeExact(x, y + tail);
  }

  /** A chunk as an encoder writes it: length, type, data and the CRC of type and data, big-endian. */
  function EncodeChunk(t: seq<byte>, d: seq<byte>): (r: seq<byte>)
    requires |t| == 4 && |d| < 0x1_0000_0000
    ensures |r| == 12 + |d|
  {
    BE4(|d|) + t + d + BE4(Crc32(t + d))
  }

  /** The frame the reader sees for an encoded chunk. */
  function EncodedFrame(t: seq<byte>, d: seq<byte>): Frame
    requires |d| < 0x1_0000_0000
  {
    Frame(BE4(|d|), t, d, BE4(Crc32(t + d)))
  }

  /** The stored checksum of an encoded chunk reads back as the CRC it was computed from. */
  lemma EncodedCrc(t: seq<byte>, d: seq<byte>)
    requires |t| == 4 && |d| < 0x1_0000_0000
    ensures Len(EncodedFrame(t, d)) == |d|
    ensures ParseInt(EncodedFrame(t, d).crc, 0, 4) == Crc32(t + d)
    ensures CrcMatches(EncodedFrame(t, d))
  {
    BE4RoundTrip(|d|);
    BE4RoundTrip(Crc32(t + d));
    ParseIntWhole(BE4(Crc32(t + d)));
  }

  /** What ReadFrame guarantees of a frame it returns together with the bytes after it. */
  predicate Readable(f: Frame, after: seq<byte>) {
    |f.lenField| == 4 && |f.chunkType| == 4 && |f.data| == Len(f) &&
    1 <= |f.crc| <= 4 && (|f.crc| < 4 ==> after == [])
  }

  /** A request for at least as many bytes as are left returns all of them. */
  lemma TakeAll(x: seq<byte>, n: nat)
    requires 0 < |x| <= n
    ensures Take(x, n) == Some((x, []))
  {
    assert x[..|x|] == x;
  }

  lemma ReadCrcBytes(data: seq<byte>, crc: seq<byte>, after: seq<byte>)
    requires 1 <= |crc| <= 4 && (|crc| < 4 ==> after == [])
    ensures ReadCrc(data, crc + after, data + (crc + after)) == Ok((data, crc, after))
  {
    if |crc| == 4 {
      TakeExact(crc, after);
    } else {
      assert crc + after == crc;
      TakeAll(crc, 4);
    }
  }

  lemma ReadDataBytes(data: seq<byte>, r3: seq<byte>)
    ensures ReadData(|data|, data + r3) == Some((data, r3))
  {
    if |data| > 0 {
      TakeExact(data, r3);
    } else {
      assert data + r3 == r3;
    }
  }

  lemma ReadTailBytes(data: seq<byte>, crc: seq<byte>, after: seq<byte>)
    requires 1 <= |crc| <= 4 && (|crc| < 4 ==> after == [])
    ensures ReadTail(|data|, data + crc + after) == Ok((data, crc, after))
  {
    assert data + crc + after == data + (crc + after);
    ReadDataBytes(data, crc + after);
    ReadCrcBytes(data, crc, after);
  }

  lemma ReadBodyBytes(f: Frame, after: seq<byte>)
    requires Readable(f, after)
    ensures ReadBody(f.lenField, f.chunkType + f.data + f.crc + after) == Ok((f, after))
  {
    var r2 := f.data + f.crc + after;
    assert f.chunkType + f.data + f.crc + after == f.chunkType + r2;
    TakeExact(f.chunkType, r2);
    ReadTailBytes(f.data, f.crc, after);
  }

  /** The converse of ReadFrame's guarantee: the bytes of any readable frame are read back as that frame. */
  lemma ReadFrameBytes(f: Frame, after: seq<byte>)
    requires Readable(f, after)
    ensures ReadFrame(FrameBytes(f) + after) == Ok((f, after))
  {
    var r1 := f.chunkType + f.data + f.crc + after;
    assert FrameBytes(f) + after == f.lenField + r1;
    TakeExact(f.lenField, r1);
    ReadBodyBytes(f, after);
  }

  /** ReadFrame succeeds with a frame exactly when the input is that frame's bytes and the frame is readable. */
  lemma ReadFrameCharacterised(rest: seq<byte>, f: Frame, after: seq<byte>)
    ensures ReadFrame(rest) == Ok((f, after)) <==> rest == FrameBytes(f) + after && Readable(f, after)
  {
    if rest == FrameBytes(f) + after && Readable(f, after) {
      ReadFrameBytes(f, after);
    }
  }

  /** Reading an encoded chunk gives back its type and data with a matching CRC, and stops right after it. */
  lemma ReadEncoded(t: seq<byte>, d: seq<byte>, rest: seq<byte>)
    requires |t| == 4 && |d| < 0x1_0000_0000
    ensures ReadFrame(EncodeChunk(t, d) + rest) == Ok((EncodedFrame(t, d), rest))
    ensures CrcMatches(EncodedFrame(t, d))
  {
    EncodedCrc(t, d);
    ReadFrameBytes(EncodedFrame(t, d), rest);
  }

  /** A frame read with a full CRC field is read the same way when bytes are appended to the file. */
  lemma ReadFrameExtend(rest: seq<byte>, f: Frame, after: seq<byte>, tail: seq<byte>)
    requires ReadFrame(rest) == Ok((f, after)) && |f.crc| == 4
    ensures ReadFrame(rest + tail) == Ok((f, after + tail))
  {
    assert rest + tail == FrameBytes(f) + (after + tail);
    ReadFrameBytes(f, after + tail);
  }

  /**
   * A frame whose CRC field was cut short by the end of the file keeps its length, type and
   * data when bytes are appended; only its CRC field changes.
   */
  lemma ReadFrameExtendShort(rest: seq<byte>, f: Frame, tail: seq<byte>)
    requires ReadFrame(rest) == Ok((f, [])) && |f.crc| < 4
    ensures ReadFrame(rest + tail).Ok?
    ensures ReadFrame(rest + tail).value.0.chunkType == f.chunkType
    ensures ReadFrame(rest + tail).value.0.data == f.data
  {
    ReadFrameCharacterised(rest, f, []);
    assert rest == FrameBytes(f) + [];
    assert rest == FrameBytes(f);
    ShortCrcExtend(f, tail);
  }

  lemma ShortCrcExtend(f: Frame, tail: seq<byte>)
    requires Readable(f, [])
    ensures ReadFrame(FrameBytes(f) + tail).Ok?
    ensures ReadFrame(FrameBytes(f) + tail).value.0.chunkType == f.chunkType
    ensures ReadFrame(FrameBytes(f) + tail).value.0.data == f.data
  {
    var c := Take(f.crc + tail, 4).value;
    var g := Frame(f.lenField, f.chunkType, f.data, c.0);
    assert Readable(g, c.1);
    assert FrameBytes(f) + tail == FrameBytes(g) + c.1 by {
      assert FrameBytes(f) + tail == f.lenField + f.chunkType + f.data + (f.crc + tail);
    }
    ReadFrameBytes(g, c.1);
  }

  // ---------------------------------------------------------------------------------------
  // The chunk loop

  /** Bytes after the loop has seen IEND are never read. */
  lemma {:induction false} LoopIgnoresTrailing(rest: seq<byte>, acc: Collected, tail: seq<byte>)
    requires ChunkLoop(rest, acc).Ok?
    ensures ChunkLoop(rest + tail, acc) == ChunkLoop(rest, acc)
    decreases |rest|
  {
    var (f, after) := ReadFrame(rest).value;
    if f.chunkType == IendType {
      if |f.crc| == 4 {
        ReadFrameExtend(rest, f, after, tail);
      } else {
        ReadFrameExtendShort(rest, f, tail);
      }
    } else {
      var c := Absorb(f, acc).next;
      ReadFrameExtend(rest, f, after, tail);
      LoopIgnoresTrailing(after, c, tail);
    }
  }

  /**
   * The frames up to IEND as a plain scan reads them, without checking any CRC: the reference
   * the chunk loop is compared with.
   */
  function Scan(rest: seq<byte>): Result<seq<Frame>, Error>
    decreases |rest|
  {
    match ReadFrame(rest)
    case Err(e) => Err(e)
    case Ok((f, after)) =>
      if f.chunkType == IendType then Ok([])
      else
        match Scan(after)
        case Err(e) => Err(e)
        case Ok(fs) => Ok([f] + fs)
  }

  /** Every frame carries a matching CRC. */
  predicate AllMatch(fs: seq<Frame>) {
    forall k :: 0 <= k < |fs| ==> CrcMatches(fs[k])
  }

  /** The chunk the Chunk constructor builds from a frame. */
  function ChunkOf(f: Frame): Chunk {
    Chunk(Len(f), f.chunkType, f.data, ParseInt(f.crc, 0, 4))
  }

  /** The chunks of the frames that are not IHDR, in order. */
  function ChunksOf(fs: seq<Frame>): (r: seq<Chunk>)
    ensures |r| <= |fs|
  {
    if fs == [] then []
    else (if fs[0].chunkType == IhdrType then [] else [ChunkOf(fs[0])]) + ChunksOf(fs[1..])
  }

  /** The header after a run of frames: each IHDR frame replaces the one before it. */
  function HeaderAfter(fs: seq<Frame>, h: Option<Header>): Option<Header> {
    if fs == [] then h
    else HeaderAfter(fs[1..], if fs[0].chunkType == IhdrType then Some(HeaderFrom(fs[0].data, ParseInt(fs[0].crc, 0, 4))) else h)
  }

  /** i is the position of the last IHDR frame of fs. */
  predicate IsLastIhdr(fs: seq<Frame>, i: nat) {
    i < |fs| && fs[i].chunkType == IhdrType && forall k :: i < k < |fs| ==> fs[k].chunkType != IhdrType
  }

  /** Without any IHDR frame the header stays what it was. */
  lemma {:induction false} HeaderAfterNone(fs: seq<Frame>, h: Option<Header>)
    requires forall k :: 0 <= k < |fs| ==> fs[k].chunkType != IhdrType
    ensures HeaderAfter(fs, h) == h
    decreases |fs|
  {
    if fs != [] {
      assert fs[0].chunkType != IhdrType;
      assert forall k :: 0 <= k < |fs| - 1 ==> fs[1..][k] == fs[k + 1];
      HeaderAfterNone(fs[1..], h);
    }
  }

  /** The header after a run of frames is the one decoded from the last IHDR frame. */
  lemma {:induction false} HeaderAfterIsLast(fs: seq<Frame>, h: Option<Header>, i: nat)
    requires IsLastIhdr(fs, i)
    ensures HeaderAfter(fs, h) == Some(HeaderFrom(fs[i].data, ParseInt(fs[i].crc, 0, 4)))
    decreases |fs|
  {
    var tl := fs[1..];
    var h' := if fs[0].chunkType == IhdrType then Some(HeaderFrom(fs[0].data, ParseInt(fs[0].crc, 0, 4))) else h;
    assert HeaderAfter(fs, h) == HeaderAfter(tl, h');
    if i == 0 {
      forall k | 0 <= k < |tl|
        ensures tl[k].chunkType != IhdrType
      {
        assert tl[k] == fs[k + 1];
      }
      HeaderAfterNone(tl, h');
    } else {
      assert tl[i - 1] == fs[i];
      forall k | i - 1 < k < |tl|
        ensures tl[k].chunkType != IhdrType
      {
        assert tl[k] == fs[k + 1];
      }
      HeaderAfterIsLast(tl, h', i - 1);
    }
  }

  /**
   * The chunk loop agrees with the plain scan: it succeeds exactly when the scan does and every
   * frame before IEND carries a matching CRC; it then collects the header of the last IHDR frame
   * and the chunks of all other frames in order; and it fails with anything other than
   * InvalidChunk only where the scan fails the same way.
   */
  lemma {:induction false} LoopMatchesScan(rest: seq<byte>, acc: Collected)
    ensures ChunkLoop(rest, acc).Ok? <==> Scan(rest).Ok? && AllMatch(Scan(rest).value)
    ensures ChunkLoop(rest, acc).Ok? ==>
      ChunkLoop(rest, acc).value ==
        Collected(HeaderAfter(Scan(rest).value, acc.header), acc.chunks + ChunksOf(Scan(rest).value))
    ensures ChunkLoop(rest, acc).Err? && ChunkLoop(rest, acc).error != InvalidChunk ==>
      Scan(rest) == Err(ChunkLoop(rest, acc).error)
    decreases |rest|
  {
    match ReadFrame(rest)
    case Err(e) =>
    case Ok((f, after)) =>
      if f.chunkType == IendType {
        assert acc.chunks + ChunksOf([]) == acc.chunks by { AppendEmpty(acc.chunks); }
      } else if !CrcMatches(f) {
        assert ChunkLoop(rest, acc) == Err(InvalidChunk);
        ScanCons(rest, f, after);
        if Scan(after).Ok? {
          AllMatchCons(f, Scan(after).value);
        }
      } else {
        var c := Absorb(f, acc).next;
        assert ChunkLoop(rest, acc) == ChunkLoop(after, c);
        LoopMatchesScan(after, c);
        ScanCons(rest, f, after);
        if Scan(after).Ok? {
          AllMatchCons(f, Scan(after).value);
          if f.chunkType == IhdrType {
            CollectConsHeader(f, Scan(after).value, acc);
          } else {
            CollectConsChunk(f, Scan(after).value, acc);
          }
        }
      }
  }

  /** The success half of LoopMatchesScan as one equation. */
  lemma LoopMatchesScanOk(rest: seq<byte>, acc: Collected, fs: seq<Frame>)
    requires Scan(rest) == Ok(fs) && AllMatch(fs)
    ensures ChunkLoop(rest, acc) == Ok(Collected(HeaderAfter(fs, acc.header), acc.chunks + ChunksOf(fs)))
  {
    LoopMatchesScan(rest, acc);
  }

  lemma ScanCons(rest: seq<byte>, f: Frame, after: seq<byte>)
    requires ReadFrame(rest) == Ok((f, after)) && f.chunkType != IendType
    ensures Scan(rest) == if Scan(after).Err? then Err(Scan(after).error) else Ok([f] + Scan(after).value)
  {
  }

  lemma AllMatchCons(f: Frame, fs: seq<Frame>)
    ensures AllMatch([f] + fs) <==> CrcMatches(f) && AllMatch(fs)
  {
    var gs := [f] + fs;
    assert gs[0] == f;
    assert forall k :: 0 <= k < |fs| ==> gs[k + 1] == fs[k];
  }

  lemma EmptyAppend<T>(a: seq<T>)
    ensures [] + a == a
  {
  }

  lemma AppendEmpty<T>(a: seq<T>)
    ensures a + [] == a
  {
  }

  lemma AppendAssoc<T>(a: seq<T>, b: seq<T>, c: seq<T>)
    ensures a + b + c == a + (b + c)
  {
  }

  /** An IHDR frame in front of a run: the loop's view (left) and the scan's view (right) agree. */
  lemma CollectConsHeader(f: Frame, fs: seq<Frame>, acc: Collected)
    requires f.chunkType == IhdrType
    ensures var c := Collected(Some(HeaderFrom(f.data, ParseInt(f.crc, 0, 4))), acc.chunks);
      Collected(HeaderAfter(fs, c.header), c.chunks + ChunksOf(fs)) ==
      Collected(HeaderAfter([f] + fs, acc.header), acc.chunks + ChunksOf([f] + fs))
  {
    assert ([f] + fs)[0] == f && ([f] + fs)[1..] == fs;
    assert ChunksOf([f] + fs) == ChunksOf(fs);
    assert HeaderAfter([f] + fs, acc.header) == HeaderAfter(fs, Some(HeaderFrom(f.data, ParseInt(f.crc, 0, 4))));
  }

  /** Any other accepted frame in front of a run: the two views agree. */
  lemma CollectConsChunk(f: Frame, fs: seq<Frame>, acc: Collected)
    requires f.chunkType != IhdrType
    ensures var c := Collected(acc.header, acc.chunks + [ChunkOf(f)]);
      Collected(HeaderAfter(fs, c.header), c.chunks + ChunksOf(fs)) ==
      Collected(HeaderAfter([f] + fs, acc.header), acc.chunks + ChunksOf([f] + fs))
  {
    assert ([f] + fs)[0] == f && ([f] + fs)[1..] == fs;
    assert ChunksOf([f] + fs) == [ChunkOf(f)] + ChunksOf(fs);
    assert HeaderAfter([f] + fs, acc.header) == HeaderAfter(fs, acc.header);
    AppendAssoc(acc.chunks, [ChunkOf(f)], ChunksOf(fs));
  }

  /**
   * What the loop keeps true of what it has collected: a header that passed the Chunk
   * constructor's check as an IHDR chunk, and chunks that passed it and are neither IHDR nor IEND.
   */
  predicate ValidCollected(c: Collected) {
    (c.header.Some? ==> IsValid(c.header.value.chunk) && c.header.value.chunk.chunkType == IhdrType) &&
    forall k :: 0 <= k < |c.chunks| ==>
      IsValid(c.chunks[k]) && c.chunks[k].chunkType != IhdrType && c.chunks[k].chunkType != IendType
  }

  lemma AbsorbKeepsValid(f: Frame, acc: Collected)
    requires ValidCollected(acc) && Absorb(f, acc).Continue?
    ensures ValidCollected(Absorb(f, acc).next)
  {
    var c := Absorb(f, acc).next;
    if f.chunkType != IhdrType {
      assert c.chunks == acc.chunks + [ChunkOf(f)];
      assert forall k :: 0 <= k < |acc.chunks| ==> c.chunks[k] == acc.chunks[k];
      assert c.chunks[|acc.chunks|] == ChunkOf(f);
    }
  }

  /** Every run of the loop that succeeds leaves a valid collection behind. */
  lemma {:induction false} LoopKeepsValid(rest: seq<byte>, acc: Collected)
    requires ValidCollected(acc)
    ensures ChunkLoop(rest, acc).Ok? ==> ValidCollected(ChunkLoop(rest, acc).value)
    decreases |rest|
  {
    if ReadFrame(rest).Ok? {
      var (f, after) := ReadFrame(rest).value;
      if Absorb(f, acc).Continue? {
        AbsorbKeepsValid(f, acc);
        assert ChunkLoop(rest, acc) == ChunkLoop(after, Absorb(f, acc).next);
        LoopKeepsValid(after, Absorb(f, acc).next);
      }
    }
  }

  /** The loop fails only by running out of bytes or on a chunk whose CRC does not match. */
  lemma {:induction false} LoopErrors(rest: seq<byte>, acc: Collected)
    ensures ChunkLoop(rest, acc).Err? ==>
      ChunkLoop(rest, acc).error in {UnexpectedEnd, StreamEnded, InvalidChunk}
    decreases |rest|
  {
    if ReadFrame(rest).Ok? {
      var (f, after) := ReadFrame(rest).value;
      if Absorb(f, acc).Continue? {
        assert ChunkLoop(rest, acc) == ChunkLoop(after, Absorb(f, acc).next);
        LoopErrors(after, Absorb(f, acc).next);
      }
    }
  }
}
