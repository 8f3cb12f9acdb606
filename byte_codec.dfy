/** The big-endian codec between 16 bytes and a 128-bit address
    (`bytes_to_u128_be`, `u128_to_bytes_be`). */
module ByteCodec {
  import opened Bits

  type byte = x: int | 0 <= x < 256

  /** The number whose big-endian bytes are `s`. */
  function BigEndian(s: seq<byte>): (v: nat)
    ensures v < Pow2(8 * |s|)
  {
    if s == [] then 0
    else
      var hi := BigEndian(s[..|s| - 1]);
      Pow2Add(8 * (|s| - 1), 8);
      MulMonotone(hi + 1, Pow2(8 * (|s| - 1)), 256);
      hi * 256 + s[|s| - 1]
  }

  /** The low `n` bytes of `v`, most significant first. */
  function BigEndianBytes(v: nat, n: nat): (s: seq<byte>)
    ensures |s| == n
  {
    if n == 0 then [] else BigEndianBytes(v / 256, n - 1) + [v % 256]
  }

  /** Decoding the encoding of a value that fits in `n` bytes gives it back. */
  lemma {:induction false} DecodeEncode(v: nat, n: nat)
    requires v < Pow2(8 * n)
    ensures BigEndian(BigEndianBytes(v, n)) == v
  {
    if n > 0 {
      var s := BigEndianBytes(v, n);
      Pow2Add(8 * (n - 1), 8);
      DivModUnique(v, 256, v / 256, v % 256);
      if v / 256 >= Pow2(8 * (n - 1)) {
        MulMonotone(Pow2(8 * (n - 1)), v / 256, 256);
      }
      DecodeEncode(v / 256, n - 1);
      assert s[..n - 1] == BigEndianBytes(v / 256, n - 1);
    }
  }

  /** Encoding the value of a byte string gives the byte string back. */
  lemma {:induction false} EncodeDecode(s: seq<byte>)
    ensures BigEndianBytes(BigEndian(s), |s|) == s
  {
    if s != [] {
      var p := s[..|s| - 1];
      var b := s[|s| - 1];
      DivModUnique(BigEndian(s), 256, BigEndian(p), b);
      EncodeDecode(p);
      assert s == p + [b];
    }
  }

  /** One step of `bytes_to_u128_be`: while the value read so far has room for
      one more byte in the `w`-bit accumulator, `(v << 8) | b` loses no bit and
      appends `b` below `v`. */
  lemma ShiftInByte(v: nat, b: byte, n: nat, w: nat)
    requires n + 8 <= w && v < Pow2(n)
    ensures Shl(v, 8, w) == v * 256
    ensures Or(v * 256, b, w) == v * 256 + b
  {
    assert Pow2(8) == 256;
    Pow2Add(n, 8);
    Pow2Monotone(n + 8, w);
    MulMonotone(v + 1, Pow2(n), 256);
    ShlNoWrap(v, 8, w);
    ModOfMultiple(v, 256);
    OrDisjoint(v * 256, b, 8, w);
  }

  /** `bytes_to_u128_be`: shift each byte in from the right. */
  method BytesToU128(b: array<byte>) returns (v: nat)
    requires b.Length == 16
    ensures v == BigEndian(b[..]) && v < Pow2(128)
  {
    v := 0;
    for i := 0 to 16
      invariant v == BigEndian(b[..i])
    {
      ShiftInByte(v, b[i], 8 * i, 128);
      v := Shl(v, 8, 128);   // v <<= 8
      v := Or(v, b[i], 128); // v |= b[i]
      assert b[..i + 1][..i] == b[..i];
    }
    assert b[..16] == b[..];
  }

  /** One step of `u128_to_bytes_be`: `v & 0xFF` is the low byte and `v >> 8`
      the rest. */
  lemma PeelLowByte(x: nat)
    ensures And(x, 255, 128) == x % 256 && Shr(x, 8) == x / 256
  {
    assert Pow2(8) == 256;
    AndLowMask(x, 8, 128);
  }

  /** `acc` preceded by the low `n` bytes of `x`, built from the right the way
      `u128_to_bytes_be` fills its buffer. */
  function PrependBytes(x: nat, n: nat, acc: seq<byte>): seq<byte>
  {
    if n == 0 then acc else PrependBytes(x / 256, n - 1, [x % 256] + acc)
  }

  lemma {:induction false} PrependBytesIsEncoding(x: nat, n: nat, acc: seq<byte>)
    ensures PrependBytes(x, n, acc) == BigEndianBytes(x, n) + acc
  {
    if n > 0 {
      PrependBytesIsEncoding(x / 256, n - 1, [x % 256] + acc);
      assert BigEndianBytes(x / 256, n - 1) + ([x % 256] + acc)
        == (BigEndianBytes(x / 256, n - 1) + [x % 256]) + acc;
    } else {
      assert [] + acc == acc;
    }
  }

  /** `u128_to_bytes_be`: peel the low byte off into each slot from the right. */
  method U128ToBytes(v: nat, out: array<byte>)
    requires v < Pow2(128) && out.Length == 16
    modifies out
    ensures out[..] == BigEndianBytes(v, 16)
  {
    var x := v;
    var i: int := 15;
    PrependBytesIsEncoding(v, 16, []);
    assert BigEndianBytes(v, 16) + [] == BigEndianBytes(v, 16);
    assert out[i + 1..] == [];
    while i >= 0
      invariant -1 <= i <= 15
      invariant PrependBytes(x, i + 1, out[i + 1..]) == BigEndianBytes(v, 16)
    {
      ghost var rest := out[i + 1..];
      PeelLowByte(x);
      out[i] := And(x, 255, 128); // out[i] = v & 0xFF
      x := Shr(x, 8);             // v >>= 8
      assert out[i + 1..] == rest;
      assert out[i..] == [out[i]] + rest;
      i := i - 1;
    }
  }
}
