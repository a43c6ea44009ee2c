/**
 * The colour remap of pyfuck/braincopter.py: every pixel (r, g, b) of a decoded image is
 * replaced by the Brainloller command colour COMMANDS[(-2r + 3g + b) mod 11], and the result
 * is written back into the image's pixel matrix.
 */
module Braincopter {
  import opened Wrappers
  import opened Bytes
  import opened Png
  import opened PixelFacts

  /** Braincopter.COMMANDS: the eleven Brainloller colours, in the order > < + - . , [ ] R L and "any other". */
  const Commands: seq<Pixel> := [
    [255, 0, 0], [128, 0, 0], [0, 255, 0], [0, 128, 0], [0, 0, 255], [0, 0, 128],
    [255, 255, 0], [128, 128, 0], [0, 255, 255], [0, 128, 128], [0, 0, 0]]

  /** Every pixel of the matrix unpacks into three values r, g, b. */
  predicate AllTriples(rows: seq<seq<Pixel>>) {
    forall y, x :: 0 <= y < |rows| && 0 <= x < |rows[y]| ==> |rows[y][x]| == 3
  }

  /** -2r + 3g + b over the integers. */
  function Weight(p: Pixel): int
    requires |p| == 3
  {
    -2 * (p[0] as int) + 3 * (p[1] as int) + p[2] as int
  }

  /**
   * The command a pixel stands for. Python's % with a positive modulus and Dafny's % on int
   * agree: both give the remainder in [0, 11), however negative the weight.
   */
  function CommandIndex(p: Pixel): (k: nat)
    requires |p| == 3
    ensures k < |Commands|
    ensures (Weight(p) - k) % 11 == 0
  {
    Weight(p) % 11
  }

  /**
   * A worked example with a negative weight: red (255, 0, 0) weighs -510, and -510 mod 11 is 7
   * (a truncating remainder would give -4), so red becomes dark yellow.
   */
  lemma RedIndex()
    ensures Weight([255, 0, 0]) == -510
    ensures CommandIndex([255, 0, 0]) == 7 && Commands[7] == [128, 128, 0]
  {
  }

  /** The colour a pixel is replaced by. */
  function Recolour(p: Pixel): Pixel
    requires |p| == 3
  {
    Commands[CommandIndex(p)]
  }

  /**
   * The comprehension of Braincopter.eval: None where unpacking some pixel into r, g, b fails
   * (Python's ValueError), otherwise every pixel recoloured in place.
   */
  function Remap(rows: seq<seq<Pixel>>): Option<seq<seq<Pixel>>> {
    if !AllTriples(rows) then None
    else Some(seq(|rows|, y requires 0 <= y < |rows| =>
                seq(|rows[y]|, x requires 0 <= x < |rows[y]| => Recolour(rows[y][x]))))
  }

  /** The remap fails exactly when some pixel is not a triple. */
  lemma RemapDefined(rows: seq<seq<Pixel>>)
    ensures Remap(rows).Some? <==> AllTriples(rows)
  {
  }

  /**
   * The remapped matrix has the shape of the input, and the pixel at each row and column is the
   * command colour of the input pixel there.
   */
  lemma RemapPointwise(rows: seq<seq<Pixel>>)
    requires Remap(rows).Some?
    ensures var out := Remap(rows).value;
      |out| == |rows| &&
      (forall y :: 0 <= y < |rows| ==> |out[y]| == |rows[y]|) &&
      forall y, x :: 0 <= y < |rows| && 0 <= x < |rows[y]| ==>
        |rows[y][x]| == 3 && out[y][x] == Commands[CommandIndex(rows[y][x])]
  {
  }

  /** Every remapped pixel is one of the eleven command colours. */
  lemma RemapInCommands(rows: seq<seq<Pixel>>)
    requires Remap(rows).Some?
    ensures var out := Remap(rows).value;
      forall y, x :: 0 <= y < |out| && 0 <= x < |out[y]| ==> out[y][x] in Commands
  {
    var out := Remap(rows).value;
    forall y, x | 0 <= y < |out| && 0 <= x < |out[y]|
      ensures out[y][x] in Commands
    {
      var k := CommandIndex(rows[y][x]);
      assert out[y][x] == Commands[k];
    }
  }

  /** A remapped matrix consists of triples only, so it can be remapped again. */
  lemma RemapAgain(rows: seq<seq<Pixel>>)
    requires Remap(rows).Some?
    ensures Remap(Remap(rows).value).Some?
  {
    var out := Remap(rows).value;
    RemapInCommands(rows);
    forall y, x | 0 <= y < |out| && 0 <= x < |out[y]|
      ensures |out[y][x]| == 3
    {
      var c := out[y][x];
      assert c in Commands;
    }
  }

  /**
   * On a decoded pixel matrix the remap is defined exactly when the decompressed data covers
   * every scanline (or the matrix is empty): otherwise the last pixel is cut short.
   */
  lemma RemapDecoded(d: seq<byte>, width: nat, height: nat)
    ensures AllTriples(PixelRows(d, width, height)) <==>
      width == 0 || height == 0 || |d| >= height * LineLength(width)
  {
    var rows := PixelRows(d, width, height);
    PixelRowsShape(d, width, height);
    if width == 0 || height == 0 {
    } else if |d| >= height * LineLength(width) {
      forall y, x | 0 <= y < |rows| && 0 <= x < |rows[y]|
        ensures |rows[y][x]| == 3
      {
        FullPixels(d, width, height, y, x);
      }
    } else {
      LastPixelEnd(width, height);
      assert |rows[height - 1][width - 1]| < 3;
    }
  }

  /** The last pixel of the matrix ends exactly where the last scanline does. */
  lemma LastPixelEnd(width: nat, height: nat)
    requires width > 0 && height > 0
    ensures PixelStart(width, height - 1, width - 1) + 3 == height * LineLength(width)
  {
    assert height * LineLength(width) == (height - 1) * LineLength(width) + LineLength(width);
  }

  /**
   * Braincopter.eval up to the interpreter call: replaces the image's pixel matrix by its
   * remap and changes nothing else; when some pixel is not a triple it fails and the image
   * is left as it was.
   */
  method Eval(image: Png) returns (ok: bool)
    modifies image`pixels
    ensures ok <==> AllTriples(old(image.pixels))
    ensures ok ==> image.pixels == Remap(old(image.pixels)).value
    ensures !ok ==> image.pixels == old(image.pixels)
    ensures image.header == old(image.header) && image.chunks == old(image.chunks)
    ensures image.decompressed == old(image.decompressed)
  {
    var remapped := Remap(image.pixels);
    if remapped.None? {
      return false;
    }
    image.pixels := remapped.value;
    return true;
  }
}
