/** Byte strings and the integer decoding used by the PNG reader (big-endian, as PNG prescribes). */
module Bytes {

  type byte = bv8

  function Min(a: nat, b: nat): nat { if a <= b then a else b }

  /** 256 to the power n: one more than the largest value n bytes can hold. */
  function Pow256(n: nat): (r: nat)
    ensures r >= 1
  {
    if n == 0 then 1 else 256 * Pow256(n - 1)
  }

  /** Unsigned big-endian value of a byte string (Python's `int.from_bytes(s, "big")`). */
  function BigEndian(s: seq<byte>): (r: nat)
    ensures r < Pow256(|s|)
    decreases |s|
  {
    if s == [] then 0
    else
      var p := BigEndian(s[..|s| - 1]);
      assert p < Pow256(|s| - 1);
      assert p * 256 + 255 < Pow256(|s| - 1) * 256 by {
        assert (p + 1) * 256 <= Pow256(|s| - 1) * 256;
      }
      p * 256 + s[|s| - 1] as nat
  }

  /** Python's slice `s[start:stop]` for non-negative bounds: clipped to the sequence, empty when stop <= start. */
  function Slice<T>(s: seq<T>, start: nat, stop: nat): (r: seq<T>)
    ensures |r| == if start >= |s| || stop <= start then 0 else Min(stop, |s|) - start
    ensures forall k :: 0 <= k < |r| ==> r[k] == s[start + k]
  {
    if start >= |s| || stop <= start then [] else s[start..Min(stop, |s|)]
  }

  /** `Chunk._parseInt(bytes, start, len)`: the big-endian value of at most `len` bytes from `start`. */
  function ParseInt(s: seq<byte>, start: nat, len: nat): (r: nat)
    ensures r < Pow256(len)
  {
    var part := Slice(s, start, start + len);
    PowMonotone(|part|, len);
    BigEndian(part)
  }

  lemma {:induction false} PowMonotone(m: nat, n: nat)
    requires m <= n
    ensures Pow256(m) <= Pow256(n)
  {
    if m < n { PowMonotone(m, n - 1); }
  }

  /** Slicing a concatenation inside its first part. */
  lemma TakeAppend<T>(a: seq<T>, b: seq<T>, n: nat)
    requires n <= |a|
    ensures (a + b)[..n] == a[..n]
  {
  }

  lemma DropAppend<T>(a: seq<T>, b: seq<T>, n: nat)
    requires n <= |a|
    ensures (a + b)[n..] == a[n..] + b
  {
  }

  /** The 4-byte big-endian encoding of a 32-bit unsigned value. */
  function BE4(n: nat): (r: seq<byte>)
    requires n < 0x1_0000_0000
    ensures |r| == 4
  {
    var q1 := n / 0x100;
    var q2 := q1 / 0x100;
    var q3 := q2 / 0x100;
    [ByteOf(q3), ByteOf(q2 % 0x100), ByteOf(q1 % 0x100), ByteOf(n % 0x100)]
  }

  /** The byte whose value is x, counted up from zero. */
  function ByteOf(x: nat): byte
    requires x < 0x100
  {
    if x == 0 then 0 else ByteOf(x - 1) + 1
  }

  lemma {:induction false} ByteValue(x: nat)
    requires x < 0x100
    ensures ByteOf(x) as nat == x
  {
    if x > 0 {
      ByteValue(x - 1);
      assert ByteOf(x - 1) < 255;
    }
  }

  /** Four bytes read big-endian. */
  lemma BigEndian4(s: seq<byte>)
    requires |s| == 4
    ensures BigEndian(s) == s[0] as nat * 0x100_0000 + s[1] as nat * 0x1_0000 + s[2] as nat * 0x100 + s[3] as nat
  {
    assert s[..3][..2] == s[..2];
    assert s[..2][..1] == s[..1];
    assert s[..1][..0] == [];
  }

  /** Decoding the 4-byte encoding gives the value back. */
  lemma BE4RoundTrip(n: nat)
    requires n < 0x1_0000_0000
    ensures BigEndian(BE4(n)) == n
  {
    var q1 := n / 0x100;
    var q2 := q1 / 0x100;
    var q3 := q2 / 0x100;
    var s := BE4(n);
    ByteValue(q3);
    ByteValue(q2 % 0x100);
    ByteValue(q1 % 0x100);
    ByteValue(n % 0x100);
    assert s[..3][..2][..1][..0] == [];
    assert BigEndian(s[..1]) == q3;
    assert BigEndian(s[..2]) == q2 by { assert s[..2][..1] == s[..1]; }
    assert BigEndian(s[..3]) == q1 by { assert s[..3][..2] == s[..2]; }
  }

  /** A 4-byte field read from at most four bytes is their big-endian value. */
  lemma ParseIntWhole(s: seq<byte>)
    requires |s| <= 4
    ensures ParseInt(s, 0, 4) == BigEndian(s)
  {
    if s != [] { assert Slice(s, 0, 4) == s; }
  }

  /** The two examples documented on `Chunk._parseInt`. */
  lemma ParseIntExamples()
    ensures ParseInt([0xa6], 0, 1) == 166
    ensures ParseInt([0xa6, 0xff, 0x75], 0, 2) == 42751
  {
    var s: seq<byte> := [0xa6, 0xff, 0x75];
    assert Slice(s, 0, 2) == [0xa6, 0xff];
    assert Slice(s, 0, 2)[..1] == [0xa6];
  }
}
