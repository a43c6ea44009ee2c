/**
 * The exception an invalid IHDR chunk raises as pyfuck/png.py is written. The Chunk constructor
 * builds its ValidationException message from str(self). For an IHDR that is IHDR.__str__, and
 * it reads self.width, which IHDR.__init__ assigns only after the Chunk constructor returns. The
 * message is therefore never built: the parser stops with an AttributeError instead of the
 * validation error. The rest of the model uses the evidently intended Png.NewHeader, whose only
 * error is the validation error InvalidChunk.
 */
module Findings {
  import opened Wrappers
  import opened Bytes
  import opened Crc
  import opened Png

  /** What escapes from a failed constructor call. */
  datatype Raised = ValidationException | AttributeError

  /** IHDR(data, crc) as written: the same header on success, an AttributeError on failure. */
  function NewHeaderAsWritten(data: seq<byte>, crc: seq<byte>): (r: Result<Header, Raised>)
    ensures r.Ok? <==> NewHeader(data, crc).Ok?
    ensures r.Ok? ==> r.value == NewHeader(data, crc).value
    ensures r.Err? ==> r.error == AttributeError
  {
    var h := HeaderFrom(data, ParseInt(crc, 0, 4));
    if IsValid(h.chunk) then Ok(h) else Err(AttributeError)
  }

  /**
   * A concrete input showing the difference. The data is the single byte 1. The stored CRC is
   * the checksum of "IHDR" followed by the byte 0. One bit differs, so the check fails. As
   * written this raises AttributeError; the intended constructor reports InvalidChunk.
   */
  lemma BadHeaderRaisesAttributeError()
    ensures var data, crc := [1 as byte], BE4(Crc32(IhdrType + [0]));
      NewHeaderAsWritten(data, crc) == Err(AttributeError) && NewHeader(data, crc) == Err(InvalidChunk)
  {
    var good: seq<byte> := IhdrType + [0];
    var crc := BE4(Crc32(good));
    BE4RoundTrip(Crc32(good));
    ParseIntWhole(crc);
    assert IhdrType + [1 as byte] == Flip(good, 4, 0);
    SingleBitFlipDetected(good, 4, 0);
  }
}
