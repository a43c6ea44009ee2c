/**
 * The simplified PNG decoder of pyfuck/png.py over an in-memory file.
 *
 * The pure functions (Take, ReadFrame, ChunkLoop, Decode) say what one decoding pass computes;
 * the classes Reader and Png do the same work step by step, as the source does, and their
 * methods are proved against those functions.
 */
module Png {
  import opened Wrappers
  import opened Bytes
  import opened Crc

  /** What stops a decoding pass. */
  datatype Error =
    | SignatureMismatch   // ValidationException: the first eight bytes are not the PNG signature
    | UnexpectedEnd       // ValidationException: no byte left where a chunk length is due
    | InvalidChunk        // ValidationException raised by the Chunk constructor
    | NotSimplified       // ValidationException: the header is outside the supported profile
    | DecompressFailed    // ValidationException: the joined payload does not inflate
    | StreamEnded         // StopIteration from the reader, not caught by the parser
    | MissingHeader       // AttributeError: no IHDR chunk was seen, so no header exists

  /** PNG.SIGNATURE: 89 50 4E 47 0D 0A 1A 0A. */
  const Signature: seq<byte> := [0x89, 0x50, 0x4E, 0x47, 0x0D, 0x0A, 0x1A, 0x0A]
  /** The chunk types "IHDR" and "IEND" in ASCII. */
  const IhdrType: seq<byte> := [0x49, 0x48, 0x44, 0x52]
  const IendType: seq<byte> := [0x49, 0x45, 0x4E, 0x44]

  // ---------------------------------------------------------------------------------------
  // Reading

  /**
   * One request of n bytes from the file reader, given the bytes not yet read: None when
   * nothing is left (the reader stops), otherwise the next min(n, available) bytes and what
   * follows them. A short read is returned as it is.
   */
  function Take(rest: seq<byte>, n: nat): (r: Option<(seq<byte>, seq<byte>)>)
    requires n > 0
    ensures r.None? <==> rest == []
    ensures r.Some? ==> r.value.0 + r.value.1 == rest && |r.value.0| == Min(n, |rest|)
    ensures r.Some? && r.value.1 != [] ==> |r.value.0| == n
  {
    if rest == [] then None
    else
      var k := Min(n, |rest|);
      assert rest[..k] + rest[k..] == rest;
      Some((rest[..k], rest[k..]))
  }

  /** The four fields of one chunk as they were read: length, type, data and CRC bytes. */
  datatype Frame = Frame(lenField: seq<byte>, chunkType: seq<byte>, data: seq<byte>, crc: seq<byte>)

  /** The chunk length the length field declares. */
  function Len(f: Frame): nat { BigEndian(f.lenField) }

  /** The bytes a frame was read from. */
  function FrameBytes(f: Frame): seq<byte> {
    f.lenField + f.chunkType + f.data + f.crc
  }

  /**
   * Reads a chunk's data (only when its length is positive) and its CRC, after the type.
   * Every failure here is the reader stopping, which the parser does not catch.
   */
  function ReadTail(len: nat, r2: seq<byte>): (r: Result<(seq<byte>, seq<byte>, seq<byte>), Error>)
    ensures r.Err? ==> r.error == StreamEnded
    ensures r.Ok? ==>
      r2 == r.value.0 + r.value.1 + r.value.2 && r2 != [] && |r.value.0| == len &&
      1 <= |r.value.1| <= 4 && (|r.value.1| < 4 ==> r.value.2 == [])
  {
    match ReadData(len, r2)
    case None => Err(StreamEnded)
    case Some(d) => ReadCrc(d.0, d.1, r2)
  }

  /** The data read: nothing for a zero length, otherwise up to len bytes. */
  function ReadData(len: nat, r2: seq<byte>): (r: Option<(seq<byte>, seq<byte>)>)
    ensures r.None? <==> len > 0 && r2 == []
    ensures len == 0 ==> r == Some(([], r2))
    ensures r.Some? ==> r.value.0 + r.value.1 == r2 && |r.value.0| == Min(len, |r2|)
    ensures r.Some? ==> (r.value.1 != [] ==> |r.value.0| == len)
  {
    if len > 0 then Take(r2, len) else Some(([], r2))
  }

  /** The CRC read after the data. */
  function ReadCrc(data: seq<byte>, r3: seq<byte>, ghost r2: seq<byte>): (r: Result<(seq<byte>, seq<byte>, seq<byte>), Error>)
    requires data + r3 == r2
    ensures r.Err? ==> r.error == StreamEnded
    ensures r.Ok? ==>
      r.value.0 == data && r2 == data + r.value.1 + r.value.2 && r3 != [] &&
      1 <= |r.value.1| <= 4 && (|r.value.1| < 4 ==> r.value.2 == [])
  {
    match Take(r3, 4)
    case None => Err(StreamEnded)
    case Some(c) =>
      assert r2 == data + c.0 + c.1;
      Ok((data, c.0, c.1))
  }

  /** Reads type, data and CRC once the length field has been read. */
  function ReadBody(lenField: seq<byte>, r1: seq<byte>): (r: Result<(Frame, seq<byte>), Error>)
    ensures r.Err? ==> r.error == StreamEnded
    ensures r.Ok? ==>
      r1 != [] && lenField + r1 == FrameBytes(r.value.0) + r.value.1 && r.value.0.lenField == lenField &&
      |r.value.0.chunkType| == 4 && |r.value.0.data| == Len(r.value.0) &&
      1 <= |r.value.0.crc| <= 4 && (|r.value.0.crc| < 4 ==> r.value.1 == [])
  {
    var t := Take(r1, 4);
    if t.None? then Err(StreamEnded)
    else
      var tail := ReadTail(BigEndian(lenField), t.value.1);
      if tail.Err? then Err(StreamEnded)
      else
        var f := Frame(lenField, t.value.0, tail.value.0, tail.value.1);
        FrameBytesSplit(f, t.value.1, tail.value.2);
        Ok((f, tail.value.2))
  }

  /** The bytes of a frame split after its length field and type. */
  lemma FrameBytesSplit(f: Frame, r2: seq<byte>, after: seq<byte>)
    requires r2 == f.data + f.crc + after
    ensures FrameBytes(f) + after == f.lenField + (f.chunkType + r2)
  {
  }

  /**
   * Reads length, type, data (only when the length is positive) and CRC. Running out of bytes
   * where the length is due is UnexpectedEnd; running out at any later field is StreamEnded.
   * A successful read has a full length, type and data; only the CRC can be short, and only
   * when it ends the input.
   */
  function ReadFrame(rest: seq<byte>): (r: Result<(Frame, seq<byte>), Error>)
    ensures r.Err? ==> (r.error == UnexpectedEnd <==> rest == []) && (r.error == UnexpectedEnd || r.error == StreamEnded)
    ensures r.Ok? ==>
      var (f, after) := r.value;
      rest == FrameBytes(f) + after &&
      |f.lenField| == 4 && |f.chunkType| == 4 && |f.data| == Len(f) &&
      1 <= |f.crc| <= 4 && (|f.crc| < 4 ==> after == [])
  {
    match Take(rest, 4)
    case None => Err(UnexpectedEnd)
    case Some((lenField, r1)) => ReadBody(lenField, r1)
  }

  // ---------------------------------------------------------------------------------------
  // Chunks and the header

  /** A chunk as the Chunk constructor stores it; crc is the stored checksum as an integer. */
  datatype Chunk = Chunk(len: nat, chunkType: seq<byte>, data: seq<byte>, crc: nat)

  /** Chunk.isValid: a 4-byte type and a stored CRC equal to CRC-32 of type followed by data. */
  predicate IsValid(c: Chunk) {
    |c.chunkType| == 4 && c.crc == Crc32(c.chunkType + c.data)
  }

  /** Chunk(len, type, data, crc): stores the fields and fails unless the result is valid. */
  function NewChunk(len: nat, chunkType: seq<byte>, data: seq<byte>, crc: seq<byte>): (r: Result<Chunk, Error>)
    ensures r.Ok? <==> |chunkType| == 4 && ParseInt(crc, 0, 4) == Crc32(chunkType + data)
    ensures r.Ok? ==> IsValid(r.value) && r.value.chunkType == chunkType && r.value.data == data && r.value.len == len
    ensures r.Err? ==> r.error == InvalidChunk
  {
    var c := Chunk(len, chunkType, data, ParseInt(crc, 0, 4));
    if IsValid(c) then Ok(c) else Err(InvalidChunk)
  }

  /** An IHDR chunk: the chunk itself and the seven fields decoded from its data. */
  datatype Header = Header(chunk: Chunk, width: nat, height: nat, depth: nat, colour: nat,
                           compression: nat, filter: nat, interlace: nat)

  /** The header fields at their fixed offsets; a field past the end of short data reads as 0. */
  function HeaderFrom(data: seq<byte>, crc: nat): Header {
    Header(Chunk(13, IhdrType, data, crc),
           ParseInt(data, 0, 4), ParseInt(data, 4, 4), ParseInt(data, 8, 1), ParseInt(data, 9, 1),
           ParseInt(data, 10, 1), ParseInt(data, 11, 1), ParseInt(data, 12, 1))
  }

  /**
   * IHDR(data, crc): validated as a chunk of type IHDR and length 13, then decoded. A failure is
   * the validation error, as evidently intended; module Findings models the AttributeError that
   * the code as written raises instead.
   */
  function NewHeader(data: seq<byte>, crc: seq<byte>): (r: Result<Header, Error>)
    ensures r.Ok? <==> Crc32(IhdrType + data) == ParseInt(crc, 0, 4)
    ensures r.Ok? ==> IsValid(r.value.chunk) && r.value.chunk.data == data
    ensures r.Ok? ==> r.value.chunk.len == 13 && r.value.chunk.chunkType == IhdrType
    ensures r.Ok? ==> r.value == HeaderFrom(data, ParseInt(crc, 0, 4))
    ensures r.Err? ==> r.error == InvalidChunk
  {
    var h := HeaderFrom(data, ParseInt(crc, 0, 4));
    if IsValid(h.chunk) then Ok(h) else Err(InvalidChunk)
  }

  /** IHDR.isSimplified: bit depth 8, colour type 2 (RGB), and compression, filter and interlace method 0. */
  predicate IsSimplified(h: Header) {
    h.depth == 8 && h.colour == 2 && h.compression == 0 && h.filter == 0 && h.interlace == 0
  }

  // ---------------------------------------------------------------------------------------
  // The chunk loop and the whole decoding pass

  /** What the loop leaves behind: the last header seen and the other chunks in file order. */
  datatype Collected = Collected(header: Option<Header>, chunks: seq<Chunk>)

  /** The outcome of one pass of the loop. */
  datatype Step = Fail(error: Error) | Stop(result: Collected) | Continue(next: Collected)

  /** The frame's stored CRC matches CRC-32 of its type and data, and its type has four bytes. */
  predicate CrcMatches(f: Frame) {
    |f.chunkType| == 4 && ParseInt(f.crc, 0, 4) == Crc32(f.chunkType + f.data)
  }

  /**
   * One pass of the `while True` loop of PNG._parse for a frame that was read: an IHDR chunk
   * replaces the header, IEND ends the loop (its CRC is not checked), any other chunk is
   * validated and appended.
   */
  function Absorb(f: Frame, acc: Collected): (r: Step)
    ensures r.Stop? <==> f.chunkType == IendType
    ensures r.Stop? ==> r.result == acc
    ensures r.Fail? <==> f.chunkType != IendType && !CrcMatches(f)
    ensures r.Fail? ==> r.error == InvalidChunk
    ensures r.Continue? && f.chunkType == IhdrType ==>
      r.next.chunks == acc.chunks && r.next.header == Some(HeaderFrom(f.data, ParseInt(f.crc, 0, 4)))
    ensures r.Continue? && f.chunkType != IhdrType ==>
      r.next.header == acc.header &&
      r.next.chunks == acc.chunks + [Chunk(Len(f), f.chunkType, f.data, ParseInt(f.crc, 0, 4))]
  {
    if f.chunkType == IhdrType then HeaderStep(f, acc)
    else if f.chunkType == IendType then Stop(acc)
    else ChunkStep(f, acc)
  }

  /** An IHDR frame: the header it decodes replaces the previous one. */
  function HeaderStep(f: Frame, acc: Collected): (r: Step)
    requires f.chunkType == IhdrType
    ensures !r.Stop?
    ensures r.Fail? <==> !CrcMatches(f)
    ensures r.Fail? ==> r.error == InvalidChunk
    ensures r.Continue? ==> r.next == Collected(Some(HeaderFrom(f.data, ParseInt(f.crc, 0, 4))), acc.chunks)
  {
    match NewHeader(f.data, f.crc)
    case Err(e) => Fail(e)
    case Ok(h) => Continue(Collected(Some(h), acc.chunks))
  }

  /** Any frame other than IHDR and IEND: validated as a chunk and appended. */
  function ChunkStep(f: Frame, acc: Collected): (r: Step)
    ensures !r.Stop?
    ensures r.Fail? <==> !CrcMatches(f)
    ensures r.Fail? ==> r.error == InvalidChunk
    ensures r.Continue? ==>
      r.next == Collected(acc.header, acc.chunks + [Chunk(Len(f), f.chunkType, f.data, ParseInt(f.crc, 0, 4))])
  {
    match NewChunk(Len(f), f.chunkType, f.data, f.crc)
    case Err(e) => Fail(e)
    case Ok(c) => Continue(Collected(acc.header, acc.chunks + [c]))
  }

  /** The `while True` loop of PNG._parse from a given point, until IEND or an error. */
  function ChunkLoop(rest: seq<byte>, acc: Collected): Result<Collected, Error>
    decreases |rest|
  {
    match ReadFrame(rest)
    case Err(e) => Err(e)
    case Ok((f, after)) =>
      match Absorb(f, acc)
      case Fail(e) => Err(e)
      case Stop(c) => Ok(c)
      case Continue(c) => ChunkLoop(after, c)
  }

  /** One pixel: the tuple of channel values sliced from the decompressed data (three when the data is long enough). */
  type Pixel = seq<byte>

  /** Python's range(start, stop, step) for a positive step. */
  function Range(start: nat, stop: nat, step: nat): (r: seq<nat>)
    requires step > 0
    decreases stop - start
  {
    if start >= stop then [] else [start] + Range(start + step, stop, step)
  }

  /** Bytes per scanline: one filter-type byte, then three per pixel. */
  function LineLength(width: nat): nat { 1 + 3 * width }

  /** Row y of the pixel matrix: one slice of three bytes at each x in range(1, lineLength, 3). */
  function Scanline(d: seq<byte>, width: nat, y: nat): seq<Pixel> {
    var base := y * LineLength(width);
    var xs := Range(1, LineLength(width), 3);
    seq(|xs|, k requires 0 <= k < |xs| => Slice(d, base + xs[k], base + xs[k] + 3))
  }

  /** The pixel matrix built from the decompressed data: `height` scanlines. */
  function PixelRows(d: seq<byte>, width: nat, height: nat): seq<seq<Pixel>> {
    seq(height, y requires 0 <= y < height => Scanline(d, width, y))
  }

  /** b"".join(chunk.data for chunk in chunks). */
  function Payload(chunks: seq<Chunk>): seq<byte> {
    if chunks == [] then [] else chunks[0].data + Payload(chunks[1..])
  }

  /** A decoded image: the fields PNG._parse sets on success. */
  datatype Image = Image(header: Header, chunks: seq<Chunk>, decompressed: seq<byte>, pixels: seq<seq<Pixel>>)

  /**
   * What PNG._parse does after the chunk loop: the header must exist and be simplified, the
   * joined payload must inflate, and the pixel matrix is sliced from the result.
   */
  function Finish(collected: Collected, inflate: seq<byte> -> Option<seq<byte>>): Result<Image, Error> {
    match collected.header
    case None => Err(MissingHeader)
    case Some(h) =>
      if !IsSimplified(h) then Err(NotSimplified)
      else
        match inflate(Payload(collected.chunks))
        case None => Err(DecompressFailed)
        case Some(d) => Ok(Image(h, collected.chunks, d, PixelRows(d, h.width, h.height)))
  }

  /**
   * PNG._parse over the file's bytes; `inflate` stands for zlib.decompress (None when it raises zlib.error).
   */
  function Decode(file: seq<byte>, inflate: seq<byte> -> Option<seq<byte>>): Result<Image, Error> {
    match Take(file, 8)
    case None => Err(StreamEnded)
    case Some((sig, rest)) =>
      if sig != Signature then Err(SignatureMismatch)
      else
        match ChunkLoop(rest, Collected(None, []))
        case Err(e) => Err(e)
        case Ok(collected) => Finish(collected, inflate)
  }

  // ---------------------------------------------------------------------------------------
  // The imperative reader and parser

  /** PNG._reader: a forward-only cursor over the file that keeps its position between requests. */
  class Reader {
    const source: seq<byte>
    var pos: nat

    ghost predicate Valid()
      reads this
    {
      pos <= |source|
    }

    /** The bytes not yet read. */
    function Remaining(): seq<byte>
      reads this
      requires Valid()
    {
      source[pos..]
    }

    constructor (source: seq<byte>)
      ensures Valid() && this.source == source && Remaining() == source
    {
      this.source := source;
      pos := 0;
    }

    /** send(n): None once the file is exhausted, otherwise up to n bytes. */
    method Read(n: nat) returns (r: Option<seq<byte>>)
      requires Valid() && n > 0
      modifies this
      ensures Valid()
      ensures Take(old(Remaining()), n) == if r.None? then None else Some((r.value, Remaining()))
      ensures r.None? ==> Remaining() == old(Remaining())
    {
      if pos == |source| {
        r := None;
      } else {
        var k := Min(n, |source| - pos);
        r := Some(source[pos..pos + k]);
        pos := pos + k;
        assert old(Remaining())[..k] == r.value;
        assert old(Remaining())[k..] == Remaining();
      }
    }

    /**
     * The reads of one pass of the chunk loop (png.py lines 77-93): length, type, data when
     * the length is positive, and CRC.
     */
    method NextFrame() returns (r: Result<Frame, Error>)
      requires Valid()
      modifies this
      ensures Valid()
      ensures ReadFrame(old(Remaining())).Err? ==> r == Err(ReadFrame(old(Remaining())).error)
      ensures ReadFrame(old(Remaining())).Ok? ==> r.Ok? && ReadFrame(old(Remaining())) == Ok((r.value, Remaining()))
    {
      ghost var r0 := Remaining();
      var lenField := Read(4);
      if lenField.None? {
        return Err(UnexpectedEnd);
      }
      var len := BigEndian(lenField.value);
      ghost var r1 := Remaining();
      var chunkType := Read(4);
      if chunkType.None? {
        assert ReadBody(lenField.value, r1) == Err(StreamEnded);
        return Err(StreamEnded);
      }
      ghost var r2 := Remaining();
      var data: seq<byte>;
      if len > 0 {
        var d := Read(len);
        if d.None? {
          assert ReadTail(len, r2) == Err(StreamEnded);
          return Err(StreamEnded);
        }
        data := d.value;
      } else {
        data := [];
      }
      ghost var r3 := Remaining();
      var crc := Read(4);
      if crc.None? {
        assert ReadTail(len, r2) == Err(StreamEnded);
        return Err(StreamEnded);
      }
      assert ReadTail(len, r2) == Ok((data, crc.value, Remaining()));
      r := Ok(Frame(lenField.value, chunkType.value, data, crc.value));
    }
  }

  /** A PNG image object: the file name and the fields PNG._parse fills in. */
  class Png {
    const filename: string
    var header: Option<Header>
    var chunks: seq<Chunk>
    var decompressed: seq<byte>
    var pixels: seq<seq<Pixel>>

    /** The object before parsing: no header attribute yet. */
    constructor (filename: string)
      ensures this.filename == filename && header == None && chunks == [] && decompressed == [] && pixels == []
    {
      this.filename := filename;
      header := None;
      chunks := [];
      decompressed := [];
      pixels := [];
    }

    /** The header and chunks collected so far. */
    function Progress(): Collected
      reads this
    {
      Collected(header, chunks)
    }

    /**
     * The body of the `while True` loop of PNG._parse for one frame (png.py lines 95-101):
     * returns whether the loop stops and the error that stops it, if any.
     */
    method Accept(f: Frame) returns (stop: bool, failure: Option<Error>)
      modifies this`header, this`chunks
      ensures var step := Absorb(f, old(Progress()));
        (failure.Some? <==> step.Fail?) && (failure.Some? ==> failure.value == step.error) &&
        (stop <==> step.Stop?) && (step.Continue? ==> Progress() == step.next) &&
        (step.Stop? ==> Progress() == step.result)
      ensures decompressed == old(decompressed) && pixels == old(pixels)
    {
      stop, failure := false, None;
      ghost var acc := Progress();
      if f.chunkType == IhdrType {
        assert Absorb(f, acc) == HeaderStep(f, acc);
        var h := NewHeader(f.data, f.crc);
        if h.Err? {
          return false, Some(h.error);
        }
        header := Some(h.value);
      } else if f.chunkType == IendType {
        stop := true;
      } else {
        assert Absorb(f, acc) == ChunkStep(f, acc);
        var c := NewChunk(Len(f), f.chunkType, f.data, f.crc);
        if c.Err? {
          return false, Some(c.error);
        }
        chunks := chunks + [c.value];
      }
    }

    /**
     * The `while True` loop of PNG._parse (png.py lines 75-101), reading chunks from the reader
     * until IEND: returns the error that ends it early, if any; otherwise header and chunks are
     * what ChunkLoop collects.
     */
    method ReadChunks(reader: Reader) returns (failure: Option<Error>)
      requires reader.Valid()
      modifies this`header, this`chunks, reader
      ensures reader.Valid()
      ensures failure.Some? ==> ChunkLoop(old(reader.Remaining()), old(Progress())) == Err(failure.value)
      ensures failure.None? ==> ChunkLoop(old(reader.Remaining()), old(Progress())) == Ok(Progress())
      ensures decompressed == old(decompressed) && pixels == old(pixels)
    {
      ghost var start := reader.Remaining();
      while true
        invariant reader.Valid()
        invariant ChunkLoop(reader.Remaining(), Progress()) == ChunkLoop(start, old(Progress()))
        decreases |reader.Remaining()|
      {
        ghost var before := reader.Remaining();
        ghost var acc := Progress();
        var next := reader.NextFrame();
        if next.Err? {
          assert ChunkLoop(before, acc) == Err(next.error);
          return Some(next.error);
        }
        var stop: bool;
        stop, failure := Accept(next.value);
        assert ChunkLoop(before, acc) == match Absorb(next.value, acc)
          case Fail(e) => Err(e)
          case Stop(c) => Ok(c)
          case Continue(c) => ChunkLoop(reader.Remaining(), c);
        if failure.Some? || stop {
          return;
        }
      }
    }

    /**
     * PNG._parse: the signature check, the chunk loop, the profile check, decompression and
     * the pixel matrix. Returns the error that stops it, if any; on success the fields hold
     * exactly what Decode computes.
     */
    method Parse(file: seq<byte>, inflate: seq<byte> -> Option<seq<byte>>) returns (failure: Option<Error>)
      requires header == None && chunks == []
      modifies this
      ensures failure.None? <==> Decode(file, inflate).Ok?
      ensures failure.Some? ==> failure.value == Decode(file, inflate).error
      ensures failure.None? ==>
        var img := Decode(file, inflate).value;
        header == Some(img.header) && chunks == img.chunks &&
        decompressed == img.decompressed && pixels == img.pixels
    {
      var reader := new Reader(file);
      var sig := reader.Read(8);
      if sig.None? {
        return Some(StreamEnded);
      }
      if sig.value != Signature {
        return Some(SignatureMismatch);
      }
      ghost var start := reader.Remaining();
      assert Take(file, 8) == Some((sig.value, start));
      chunks := [];
      var loopFailure := ReadChunks(reader);
      if loopFailure.Some? {
        return loopFailure;
      }
      assert Decode(file, inflate) == Finish(Progress(), inflate);
      failure := Complete(inflate);
    }

    /**
     * The end of PNG._parse (png.py lines 103-120): the header must exist and be simplified, the
     * joined payload must inflate, and the pixel matrix is sliced from the result.
     */
    method Complete(inflate: seq<byte> -> Option<seq<byte>>) returns (failure: Option<Error>)
      modifies this`decompressed, this`pixels
      ensures failure.None? <==> Finish(old(Progress()), inflate).Ok?
      ensures failure.Some? ==> failure.value == Finish(old(Progress()), inflate).error
      ensures failure.None? ==>
        var img := Finish(old(Progress()), inflate).value;
        header == Some(img.header) && chunks == img.chunks &&
        decompressed == img.decompressed && pixels == img.pixels
      ensures header == old(header) && chunks == old(chunks)
    {
      if header.None? {
        return Some(MissingHeader);
      }
      var h := header.value;
      if !IsSimplified(h) {
        return Some(NotSimplified);
      }
      var inflated := inflate(Payload(chunks));
      if inflated.None? {
        return Some(DecompressFailed);
      }
      var d := inflated.value;
      var rows := PixelRows(d, h.width, h.height);
      decompressed := d;
      pixels := rows;
      return None;
    }
  }

  /** PNG(filename) over the file's contents: the parsed image, or the error that the constructor raises. */
  method Load(filename: string, file: seq<byte>, inflate: seq<byte> -> Option<seq<byte>>) returns (r: Result<Png, Error>)
    ensures r.Err? <==> Decode(file, inflate).Err?
    ensures r.Err? ==> r.error == Decode(file, inflate).error
    ensures r.Ok? ==>
      var img := Decode(file, inflate).value;
      fresh(r.value) && r.value.filename == filename && r.value.header == Some(img.header) &&
      r.value.chunks == img.chunks && r.value.decompressed == img.decompressed && r.value.pixels == img.pixels
  {
    var image := new Png(filename);
    var failure := image.Parse(file, inflate);
    if failure.Some? {
      return Err(failure.value);
    }
    return Ok(image);
  }
}
