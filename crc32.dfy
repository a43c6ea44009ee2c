/**
 * CRC-32 as computed by zlib's `crc32` and required for PNG chunks (ISO 3309 / ITU-T V.42
 * polynomial 0x04C11DB7, reflected; register preset to all ones, complemented at the end).
 *
 * The 32-bit shift register is modelled as a sequence of 32 booleans, bit 0 first, so that
 * its linearity can be proved bit by bit; `Value` turns it back into the unsigned integer
 * that Python's `zlib.crc32` returns.
 */
module Crc {
  import opened Bytes

  /** The checksum register: bit i of the 32-bit value is r[i]. */
  type Reg = r: seq<bool> | |r| == 32 witness seq(32, i => false)

  /** Bits 0..31 of the reflected polynomial 0xEDB88320. */
  const PolyBits: seq<bool> := [false, false, false, false, false, true, false, false,
                                true, true, false, false, false, false, false, true,
                                false, false, false, true, true, true, false, true,
                                true, false, true, true, false, true, true, true]

  /** The register with every bit clear, and with every bit set. */
  function Zero(): Reg { seq(32, i => false) }
  function Ones(): Reg { seq(32, i => true) }

  /** Bitwise exclusive or of two registers. */
  function RegXor(a: Reg, b: Reg): Reg {
    seq(32, i requires 0 <= i < 32 => a[i] != b[i])
  }

  /** One shift of the register to the right, adding the polynomial when the bit shifted out is set. */
  function Step(c: Reg): Reg {
    seq(32, i requires 0 <= i < 32 => (i < 31 && c[i + 1]) != (c[0] && PolyBits[i]))
  }

  /** k shifts of the register. */
  function Shift(c: Reg, k: nat): Reg
    decreases k
  {
    if k == 0 then c else Shift(Step(c), k - 1)
  }

  /** The byte whose only set bit is bit j. */
  function Mask(j: nat): (m: byte)
    requires j < 8
  {
    [1, 2, 4, 8, 16, 32, 64, 128][j]
  }

  /** Bit j of byte b. */
  predicate ByteBit(b: byte, j: nat)
    requires j < 8
  {
    b & Mask(j) != 0
  }

  /** The register with a byte xored into its low eight bits. */
  function Feed(c: Reg, b: byte): Reg {
    seq(32, i requires 0 <= i < 32 => c[i] != (i < 8 && ByteBit(b, i)))
  }

  /** The register after processing the bytes of s, each least significant bit first. */
  function Update(c: Reg, s: seq<byte>): Reg
    decreases |s|
  {
    if s == [] then c else Update(Shift(Feed(c, s[0]), 8), s[1..])
  }

  function Pow2(n: nat): (r: nat)
    ensures r >= 1
  {
    if n == 0 then 1 else 2 * Pow2(n - 1)
  }

  lemma {:induction false} Pow2Add(a: nat, b: nat)
    ensures Pow2(a + b) == Pow2(a) * Pow2(b)
  {
    if a > 0 {
      Pow2Add(a - 1, b);
      assert Pow2(a + b) == 2 * Pow2(a - 1 + b);
    }
  }

  lemma Pow2Of32()
    ensures Pow2(32) == 0x1_0000_0000
  {
    assert Pow2(2) == 4;
    Pow2Add(2, 2);
    Pow2Add(4, 4);
    Pow2Add(8, 8);
    Pow2Add(16, 16);
  }

  /** The unsigned integer whose binary digits, least significant first, are the given bits. */
  function Value(bits: seq<bool>): (r: nat)
    ensures r < Pow2(|bits|)
  {
    if bits == [] then 0 else (if bits[0] then 1 else 0) + 2 * Value(bits[1..])
  }

  /** zlib.crc32(s) with the default start value. */
  function Crc32(s: seq<byte>): (r: nat)
    ensures r < 0x1_0000_0000
  {
    Pow2Of32();
    Value(RegXor(Update(Ones(), s), Ones()))
  }

  /** Byte-wise exclusive or of two strings of equal length. */
  function Xor(s: seq<byte>, t: seq<byte>): (r: seq<byte>)
    requires |s| == |t|
    ensures |r| == |s|
  {
    seq(|s|, k requires 0 <= k < |s| => s[k] ^ t[k])
  }

  /** s with bit j of byte i inverted. */
  function Flip(s: seq<byte>, i: nat, j: nat): (r: seq<byte>)
    requires i < |s| && j < 8
    ensures |r| == |s| && r[i] != s[i]
    ensures forall k :: 0 <= k < |s| && k != i ==> r[k] == s[k]
  {
    s[i := s[i] ^ Mask(j)]
  }

  lemma StepXor(a: Reg, b: Reg)
    ensures Step(RegXor(a, b)) == RegXor(Step(a), Step(b))
  {
  }

  lemma {:induction false} ShiftXor(a: Reg, b: Reg, k: nat)
    ensures Shift(RegXor(a, b), k) == RegXor(Shift(a, k), Shift(b, k))
    decreases k
  {
    if k > 0 {
      StepXor(a, b);
      ShiftXor(Step(a), Step(b), k - 1);
    }
  }

  lemma MaskXor(a: byte, b: byte, m: byte)
    requires m == 1 || m == 2 || m == 4 || m == 8 || m == 16 || m == 32 || m == 64 || m == 128
    ensures ((a ^ b) & m != 0) == ((a & m != 0) != (b & m != 0))
  {
  }

  lemma ByteBitXor(a: byte, b: byte, j: nat)
    requires j < 8
    ensures ByteBit(a ^ b, j) == (ByteBit(a, j) != ByteBit(b, j))
  {
    MaskXor(a, b, Mask(j));
  }

  lemma FeedXor(c: Reg, d: Reg, a: byte, b: byte)
    ensures Feed(RegXor(c, d), a ^ b) == RegXor(Feed(c, a), Feed(d, b))
  {
    forall j | 0 <= j < 8 {
      ByteBitXor(a, b, j);
    }
  }

  /** The register update is linear: processing the xor of two inputs from the xor of two states. */
  lemma {:induction false} UpdateXor(c: Reg, d: Reg, s: seq<byte>, t: seq<byte>)
    requires |s| == |t|
    ensures Update(RegXor(c, d), Xor(s, t)) == RegXor(Update(c, s), Update(d, t))
    decreases |s|
  {
    if s != [] {
      var x := Xor(s, t);
      FeedXor(c, d, s[0], t[0]);
      ShiftXor(Feed(c, s[0]), Feed(d, t[0]), 8);
      assert x[1..] == Xor(s[1..], t[1..]);
      UpdateXor(Shift(Feed(c, s[0]), 8), Shift(Feed(d, t[0]), 8), s[1..], t[1..]);
    }
  }

  lemma StepNonZero(c: Reg)
    requires c != Zero()
    ensures Step(c) != Zero()
  {
    var k :| 0 <= k < 32 && c[k];
    if c[0] {
      assert Step(c)[31];
    } else {
      assert Step(c)[k - 1];
    }
  }

  lemma {:induction false} ShiftNonZero(c: Reg, k: nat)
    requires c != Zero()
    ensures Shift(c, k) != Zero()
    decreases k
  {
    if k > 0 {
      StepNonZero(c);
      ShiftNonZero(Step(c), k - 1);
    }
  }

  lemma {:induction false} ShiftZero(k: nat)
    ensures Shift(Zero(), k) == Zero()
    decreases k
  {
    if k > 0 {
      assert Step(Zero()) == Zero();
      ShiftZero(k - 1);
    }
  }

  /** A non-zero register stays non-zero while zero bytes are processed. */
  lemma {:induction false} UpdateZerosNonZero(c: Reg, s: seq<byte>)
    requires c != Zero()
    requires forall k :: 0 <= k < |s| ==> s[k] == 0
    ensures Update(c, s) != Zero()
    decreases |s|
  {
    if s != [] {
      assert Feed(c, s[0]) == c;
      ShiftNonZero(c, 8);
      UpdateZerosNonZero(Shift(c, 8), s[1..]);
    }
  }

  /** Processing a string whose only non-zero byte is a single bit leaves a zero register non-zero. */
  lemma {:induction false} UpdateSingleBit(s: seq<byte>, i: nat, j: nat)
    requires i < |s| && j < 8 && s[i] == Mask(j)
    requires forall k :: 0 <= k < |s| && k != i ==> s[k] == 0
    ensures Update(Zero(), s) != Zero()
    decreases |s|
  {
    if i == 0 {
      assert ByteBit(Mask(j), j);
      assert Feed(Zero(), s[0])[j];
      ShiftNonZero(Feed(Zero(), s[0]), 8);
      UpdateZerosNonZero(Shift(Feed(Zero(), s[0]), 8), s[1..]);
    } else {
      assert Feed(Zero(), s[0]) == Zero();
      ShiftZero(8);
      UpdateSingleBit(s[1..], i - 1, j);
    }
  }

  /** Distinct bit strings of the same length denote distinct integers. */
  lemma {:induction false} ValueInjective(a: seq<bool>, b: seq<bool>)
    requires |a| == |b| && a != b
    ensures Value(a) != Value(b)
  {
    if a[0] == b[0] {
      ValueInjective(a[1..], b[1..]);
    }
  }

  /** CRC-32 detects every single-bit error: inverting any one bit of the input changes the checksum. */
  lemma SingleBitFlipDetected(s: seq<byte>, i: nat, j: nat)
    requires i < |s| && j < 8
    ensures Crc32(Flip(s, i, j)) != Crc32(s)
  {
    var e := seq(|s|, k requires 0 <= k < |s| => if k == i then Mask(j) else 0);
    assert Flip(s, i, j) == Xor(s, e);
    assert RegXor(Ones(), Zero()) == Ones();
    UpdateXor(Ones(), Zero(), s, e);
    UpdateSingleBit(e, i, j);
    var u, d := Update(Ones(), s), Update(Zero(), e);
    var k :| 0 <= k < 32 && d[k];
    assert RegXor(RegXor(u, d), Ones())[k] != RegXor(u, Ones())[k];
    ValueInjective(RegXor(RegXor(u, d), Ones()), RegXor(u, Ones()));
  }
}
