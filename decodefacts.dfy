/**
 * Properties of a whole decoding pass: which files PNG._parse accepts, what an accepted file
 * yields, and that a file written chunk by chunk decodes back to what was written.
 */
module DecodeFacts {
  import opened Wrappers
  import opened Bytes
  import opened Crc
  import opened Png
  import opened PngFacts

  /** The bytes after the signature of a file that is long enough to have one. */
  function AfterSignature(file: seq<byte>): seq<byte> {
    if |file| < 8 then [] else file[8..]
  }

  /** Decode is the chunk loop over the bytes after a matching signature, then Finish. */
  lemma DecodeUnfold(file: seq<byte>, inflate: seq<byte> -> Option<seq<byte>>)
    requires |file| >= 8 && file[..8] == Signature
    ensures Decode(file, inflate) ==
      match ChunkLoop(file[8..], Collected(None, []))
      case Err(e) => Err(e)
      case Ok(c) => Finish(c, inflate)
  {
    assert Take(file, 8) == Some((file[..8], file[8..]));
  }

  /**
   * The signature gate: an empty file stops the reader before anything is compared; otherwise
   * the first (up to) eight bytes must be the PNG signature.
   */
  lemma DecodeNeedsSignature(file: seq<byte>, inflate: seq<byte> -> Option<seq<byte>>)
    ensures file == [] ==> Decode(file, inflate) == Err(StreamEnded)
    ensures file != [] && file[..Min(8, |file|)] != Signature ==> Decode(file, inflate) == Err(SignatureMismatch)
    ensures Decode(file, inflate).Ok? ==> |file| >= 8 && file[..8] == Signature
  {
  }

  /** An accepted file carries the signature, and its result is Finish of a successful loop. */
  lemma DecodeLoopOk(file: seq<byte>, inflate: seq<byte> -> Option<seq<byte>>)
    requires Decode(file, inflate).Ok?
    ensures |file| >= 8 && file[..8] == Signature && AfterSignature(file) == file[8..]
    ensures ChunkLoop(file[8..], Collected(None, [])).Ok?
    ensures Decode(file, inflate) == Finish(ChunkLoop(file[8..], Collected(None, [])).value, inflate)
  {
    DecodeNeedsSignature(file, inflate);
    DecodeUnfold(file, inflate);
  }

  /** A successful Finish: the collected header is simplified and the payload inflated to the pixels' source. */
  lemma FinishOk(c: Collected, inflate: seq<byte> -> Option<seq<byte>>)
    requires Finish(c, inflate).Ok?
    ensures var img := Finish(c, inflate).value;
      c.header == Some(img.header) && img.chunks == c.chunks && IsSimplified(img.header) &&
      inflate(Payload(img.chunks)) == Some(img.decompressed) &&
      img.pixels == PixelRows(img.decompressed, img.header.width, img.header.height)
  {
  }

  /**
   * What an accepted file was read from: frames up to IEND that all passed their CRC check,
   * the header of the last IHDR frame among them, and the chunks of the other frames in order.
   */
  lemma DecodeSuccess(file: seq<byte>, inflate: seq<byte> -> Option<seq<byte>>)
    requires Decode(file, inflate).Ok?
    ensures Scan(AfterSignature(file)).Ok?
    ensures var img, fs := Decode(file, inflate).value, Scan(AfterSignature(file)).value;
      AllMatch(fs) && Some(img.header) == HeaderAfter(fs, None) && img.chunks == ChunksOf(fs)
  {
    DecodeLoopOk(file, inflate);
    var c := ChunkLoop(file[8..], Collected(None, [])).value;
    LoopMatchesScan(file[8..], Collected(None, []));
    var fs := Scan(file[8..]).value;
    LoopAfterScan(file[8..], fs);
    FinishOk(c, inflate);
  }

  /**
   * What an accepted file yields: a simplified header and chunks that passed the Chunk
   * constructor's check, the inflated joined payload, and a pixel matrix of `height` rows
   * sliced from it.
   */
  lemma DecodeImage(file: seq<byte>, inflate: seq<byte> -> Option<seq<byte>>)
    requires Decode(file, inflate).Ok?
    ensures var img := Decode(file, inflate).value;
      IsSimplified(img.header) && ValidCollected(Collected(Some(img.header), img.chunks)) &&
      inflate(Payload(img.chunks)) == Some(img.decompressed) &&
      img.pixels == PixelRows(img.decompressed, img.header.width, img.header.height)
  {
    DecodeLoopOk(file, inflate);
    var c := ChunkLoop(file[8..], Collected(None, [])).value;
    LoopKeepsValid(file[8..], Collected(None, []));
    FinishOk(c, inflate);
  }

  /** Bytes after the IEND chunk of an accepted file change nothing. */
  lemma DecodeIgnoresTrailing(file: seq<byte>, tail: seq<byte>, inflate: seq<byte> -> Option<seq<byte>>)
    requires Decode(file, inflate).Ok?
    ensures Decode(file + tail, inflate) == Decode(file, inflate)
  {
    DecodeNeedsSignature(file, inflate);
    DecodeUnfold(file, inflate);
    TakeAppend(file, tail, 8);
    DropAppend(file, tail, 8);
    DecodeUnfold(file + tail, inflate);
    LoopIgnoresTrailing(file[8..], Collected(None, []), tail);
  }

  /** Some frame is an IHDR frame. */
  predicate HasIhdr(fs: seq<Frame>) {
    exists k :: 0 <= k < |fs| && fs[k].chunkType == IhdrType
  }

  /** A run with an IHDR frame has a last one. */
  lemma {:induction false} LastIhdrExists(fs: seq<Frame>)
    requires HasIhdr(fs)
    ensures exists i :: IsLastIhdr(fs, i)
    decreases |fs|
  {
    var n := |fs| - 1;
    if fs[n].chunkType == IhdrType {
      assert IsLastIhdr(fs, n);
    } else {
      var k :| 0 <= k < |fs| && fs[k].chunkType == IhdrType;
      var init := fs[..n];
      assert init[k] == fs[k];
      LastIhdrExists(init);
      var i :| IsLastIhdr(init, i);
      assert IsLastIhdr(fs, i);
    }
  }

  /** The loop ends without a header exactly when no frame before IEND is an IHDR frame. */
  lemma HeaderAfterIsNone(fs: seq<Frame>)
    ensures HeaderAfter(fs, None).None? <==> !HasIhdr(fs)
  {
    if HasIhdr(fs) {
      LastIhdrExists(fs);
      var i :| IsLastIhdr(fs, i);
      HeaderAfterIsLast(fs, None, i);
    } else {
      HeaderAfterNone(fs, None);
    }
  }

  /**
   * The AttributeError case: a file whose chunks up to IEND all check out but none of which is
   * IHDR is rejected for want of a header, and that is the only way to get that error.
   */
  lemma DecodeMissingHeader(file: seq<byte>, inflate: seq<byte> -> Option<seq<byte>>)
    ensures Decode(file, inflate) == Err(MissingHeader) <==>
      |file| >= 8 && file[..8] == Signature && Scan(file[8..]).Ok? &&
      AllMatch(Scan(file[8..]).value) && !HasIhdr(Scan(file[8..]).value)
  {
    if |file| >= 8 && file[..8] == Signature {
      DecodeUnfold(file, inflate);
      LoopMissingHeader(file[8..], inflate);
    } else {
      DecodeBadSignature(file, inflate);
    }
  }

  /** Without the signature the only errors are the reader stopping and the signature mismatch. */
  lemma DecodeBadSignature(file: seq<byte>, inflate: seq<byte> -> Option<seq<byte>>)
    requires !(|file| >= 8 && file[..8] == Signature)
    ensures Decode(file, inflate) == Err(StreamEnded) || Decode(file, inflate) == Err(SignatureMismatch)
  {
    if file != [] && |file| < 8 {
      assert |file[..Min(8, |file|)]| < 8;
    }
  }

  /** After the signature: the loop succeeds and has seen no IHDR frame exactly when the scan says so. */
  lemma LoopMissingHeader(rest: seq<byte>, inflate: seq<byte> -> Option<seq<byte>>)
    ensures (match ChunkLoop(rest, Collected(None, []))
             case Err(e) => Err(e)
             case Ok(c) => Finish(c, inflate)) == Err(MissingHeader) <==>
      Scan(rest).Ok? && AllMatch(Scan(rest).value) && !HasIhdr(Scan(rest).value)
  {
    var acc := Collected(None, []);
    var r := ChunkLoop(rest, acc);
    LoopMatchesScan(rest, acc);
    LoopErrors(rest, acc);
    if r.Ok? {
      HeaderAfterIsNone(Scan(rest).value);
      assert r.value.header == HeaderAfter(Scan(rest).value, None);
    }
  }

  /**
   * Once every frame up to IEND has been read and has passed its CRC check, the outcome is
   * decided after the loop from the last IHDR header and the other chunks.
   */
  lemma DecodeAfterScan(file: seq<byte>, inflate: seq<byte> -> Option<seq<byte>>)
    requires |file| >= 8 && file[..8] == Signature && Scan(file[8..]).Ok? && AllMatch(Scan(file[8..]).value)
    ensures var fs := Scan(file[8..]).value;
      Decode(file, inflate) == Finish(Collected(HeaderAfter(fs, None), ChunksOf(fs)), inflate)
  {
    DecodeUnfold(file, inflate);
    LoopAfterScan(file[8..], Scan(file[8..]).value);
  }

  /** The chunk loop over frames that all pass their CRC check collects the last header and the other chunks. */
  lemma LoopAfterScan(rest: seq<byte>, fs: seq<Frame>)
    requires Scan(rest) == Ok(fs) && AllMatch(fs)
    ensures ChunkLoop(rest, Collected(None, [])) == Ok(Collected(HeaderAfter(fs, None), ChunksOf(fs)))
  {
    var acc := Collected(None, []);
    assert acc.chunks + ChunksOf(fs) == ChunksOf(fs) by { EmptyAppend(ChunksOf(fs)); }
    LoopMatchesScanOk(rest, acc, fs);
  }
  /** The profile gate: a well-formed file whose last header is not simplified is rejected. */
  lemma DecodeNotSimplified(file: seq<byte>, inflate: seq<byte> -> Option<seq<byte>>, h: Header)
    requires |file| >= 8 && file[..8] == Signature && Scan(file[8..]).Ok? && AllMatch(Scan(file[8..]).value)
    requires HeaderAfter(Scan(file[8..]).value, None) == Some(h) && !IsSimplified(h)
    ensures Decode(file, inflate) == Err(NotSimplified)
  {
    DecodeAfterScan(file, inflate);
  }

  /** A well-formed simplified file whose joined payload does not inflate is rejected. */
  lemma DecodeInflateFails(file: seq<byte>, inflate: seq<byte> -> Option<seq<byte>>, h: Header)
    requires |file| >= 8 && file[..8] == Signature && Scan(file[8..]).Ok? && AllMatch(Scan(file[8..]).value)
    requires HeaderAfter(Scan(file[8..]).value, None) == Some(h) && IsSimplified(h)
    requires inflate(Payload(ChunksOf(Scan(file[8..]).value))) == None
    ensures Decode(file, inflate) == Err(DecompressFailed)
  {
    DecodeAfterScan(file, inflate);
  }

  /** Conversely to DecodeSuccess: a well-formed simplified file whose payload inflates is accepted. */
  lemma DecodeAccepts(file: seq<byte>, inflate: seq<byte> -> Option<seq<byte>>, h: Header, d: seq<byte>)
    requires |file| >= 8 && file[..8] == Signature && Scan(file[8..]).Ok? && AllMatch(Scan(file[8..]).value)
    requires HeaderAfter(Scan(file[8..]).value, None) == Some(h) && IsSimplified(h)
    requires inflate(Payload(ChunksOf(Scan(file[8..]).value))) == Some(d)
    ensures Decode(file, inflate) == Ok(Image(h, ChunksOf(Scan(file[8..]).value), d, PixelRows(d, h.width, h.height)))
  {
    DecodeAfterScan(file, inflate);
  }
}
