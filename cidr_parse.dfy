/** The block parser: one cleaned line `address/prefix` to the closed interval
    of the addresses in that block (`parse_cidr_ipv4`, `parse_cidr_ipv6`).

    The address text and the prefix text are decoded by foreign library calls
    (`inet_pton`, `std::stoi`); they are parameters here.  `inet_pton` yields
    the address bytes in network order, which `ntohl` (IPv4) or
    `bytes_to_u128_be` (IPv6) turn into an integer: both are the big-endian
    value of the bytes. */
module CidrParse {
  import opened Bits
  import opened Types
  import opened ByteCodec
  import LineClean

  type Bytes4 = s: seq<byte> | |s| == 4 witness [0, 0, 0, 0]
  type Bytes16 = s: seq<byte> | |s| == 16 witness [0, 0, 0, 0, 0, 0, 0, 0, 0, 0, 0, 0, 0, 0, 0, 0]

  /** `0xFFFFFFFFu`. */
  const U32_MAX: nat := Pow2(32) - 1

  /** The split at the first `/` into the address text and the prefix text;
      `None` when there is no `/`. */
  function SplitAtSlash(cidr: string): (parts: Option<(string, string)>)
    ensures parts.None? <==> '/' !in cidr
    ensures parts.Some? ==> cidr == parts.value.0 + "/" + parts.value.1 && '/' !in parts.value.0
  {
    match LineClean.Find(cidr, "/")
    case None =>
      assert forall i :: 0 <= i < |cidr| ==> !LineClean.OccursAt(cidr, "/", i);
      assert forall i :: 0 <= i < |cidr| ==> cidr[i] != '/' by {
        forall i | 0 <= i < |cidr| ensures cidr[i] != '/' {
          assert !LineClean.OccursAt(cidr, "/", i);
          assert cidr[i..i + 1] == [cidr[i]];
        }
      }
      None
    case Some(pos) =>
      assert cidr[pos..pos + 1] == "/";
      assert forall i :: 0 <= i < pos ==> cidr[i] != '/' by {
        forall i | 0 <= i < pos ensures cidr[i] != '/' {
          assert !LineClean.OccursAt(cidr, "/", i);
          assert cidr[i..i + 1] == [cidr[i]];
        }
      }
      assert cidr == cidr[..pos] + "/" + cidr[pos + 1..];
      Some((cidr[..pos], cidr[pos + 1..]))
  }

  /** The IPv4 network mask: `0` for prefix 0, else `0xFFFFFFFF << (32 - prefix)`
      in 32 bits. */
  function MaskV4(prefix: nat): nat
    requires prefix <= 32
  {
    if prefix == 0 then 0 else Shl(U32_MAX, 32 - prefix, 32)
  }

  /** The IPv6 network mask: `0` for prefix 0, all ones for prefix 128, else
      `U128_MAX << (128 - prefix)` in 128 bits. */
  function MaskV6(prefix: nat): nat
    requires prefix <= 128
  {
    if prefix == 0 then 0
    else if prefix == 128 then U128_MAX
    else Shl(U128_MAX, 128 - prefix, 128)
  }

  /** Both special cases agree with the general shape: the mask is `prefix`
      ones followed by `32 - prefix` zeros. */
  lemma MaskV4Value(prefix: nat)
    requires prefix <= 32
    ensures MaskV4(prefix) == HighOnes(32 - prefix, 32)
  {
    if prefix > 0 {
      ShlOnes(32 - prefix, 32);
    }
  }

  lemma MaskV6Value(prefix: nat)
    requires prefix <= 128
    ensures MaskV6(prefix) == HighOnes(128 - prefix, 128)
  {
    if 0 < prefix < 128 {
      ShlOnes(128 - prefix, 128);
    }
  }

  /** `iv` is the block of `2^(w - prefix)` consecutive `w`-bit addresses that
      holds `x` and starts at a multiple of its size. */
  predicate AlignedBlockAround(iv: Interval, x: nat, prefix: nat, w: nat)
    requires prefix <= w
  {
    iv.l <= x <= iv.r < Pow2(w) && iv.r - iv.l + 1 == Pow2(w - prefix) && iv.l % Pow2(w - prefix) == 0
  }

  /** There is only one such block, so `AlignedBlockAround` fixes the interval
      the parsers return. */
  lemma AlignedBlockUnique(iv: Interval, jv: Interval, x: nat, prefix: nat, w: nat)
    requires prefix <= w
    requires AlignedBlockAround(iv, x, prefix, w) && AlignedBlockAround(jv, x, prefix, w)
    ensures iv == jv
  {
    var size := Pow2(w - prefix);
    assert iv.l == (iv.l / size) * size && jv.l == (jv.l / size) * size;
    DivModUnique(x, size, iv.l / size, x - iv.l);
    DivModUnique(x, size, jv.l / size, x - jv.l);
  }

  /** `[x & mask, (x & mask) | ~mask]` at width `w`. */
  function BlockOf(x: nat, mask: nat, w: nat): Interval
  {
    var net := And(x, mask, w);
    Interval(net, Or(net, Not(mask, w), w))
  }

  /** The parsed interval of `x/prefix` is the aligned block of `2^(w - prefix)`
      addresses around `x`. */
  lemma {:induction false} BlockOfMeaning(x: nat, prefix: nat, w: nat, mask: nat)
    requires prefix <= w && x < Pow2(w) && mask == HighOnes(w - prefix, w)
    ensures AlignedBlockAround(BlockOf(x, mask, w), x, prefix, w)
  {
    var k := w - prefix;
    var size := Pow2(k);
    AndHighMask(x, k, w);
    RoundDown(x, size);
    var net := x - x % size;
    NotValue(mask, w);
    OrDisjoint(net, size - 1, k, w);
    Pow2DividesPow2(k, w);
    NextMultiple(net, Pow2(w), size);
  }

  /** The block holds exactly the addresses that share the top `prefix` bits
      with `x`. */
  lemma BlockMembers(x: nat, prefix: nat, w: nat, a: nat)
    requires prefix <= w && x < Pow2(w)
    ensures var iv := BlockOf(x, HighOnes(w - prefix, w), w);
      iv.l <= a <= iv.r <==> a / Pow2(w - prefix) == x / Pow2(w - prefix)
  {
    BlockOfMeaning(x, prefix, w, HighOnes(w - prefix, w));
    AndHighMask(x, w - prefix, w);
    var iv := BlockOf(x, HighOnes(w - prefix, w), w);
    SameQuotient(x, a, Pow2(w - prefix), iv.l);
  }

  /** The multiples-of-`size` window `[l, l + size - 1]` around `x` holds
      exactly the numbers with the same quotient by `size`. */
  lemma SameQuotient(x: nat, a: nat, size: nat, l: nat)
    requires size > 0 && l == x - x % size
    ensures l <= a <= l + size - 1 <==> a / size == x / size
  {
    assert l == (x / size) * size;
    if l <= a <= l + size - 1 {
      DivModUnique(a, size, x / size, a - l);
    }
    if a / size == x / size {
      assert a == (x / size) * size + a % size;
    }
  }

  /** The interval of the IPv4 block `x/prefix`: `[x & mask, (x & mask) | ~mask]`. */
  function BlockV4(x: nat, prefix: nat): (iv: Interval)
    requires x < Pow2(32) && prefix <= 32
    ensures AlignedBlockAround(iv, x, prefix, 32)
  {
    MaskV4Value(prefix);
    BlockOfMeaning(x, prefix, 32, MaskV4(prefix));
    BlockOf(x, MaskV4(prefix), 32)
  }

  /** The interval of the IPv6 block `x/prefix`. */
  function BlockV6(x: nat, prefix: nat): (iv: Interval)
    requires x < Pow2(128) && prefix <= 128
    ensures AlignedBlockAround(iv, x, prefix, 128)
  {
    MaskV6Value(prefix);
    BlockOfMeaning(x, prefix, 128, MaskV6(prefix));
    BlockOf(x, MaskV6(prefix), 128)
  }

  /** An address of `w / 8` bytes is a `w`-bit value. */
  lemma AddressBelow(bytes: seq<byte>, w: nat)
    requires 8 * |bytes| == w
    ensures BigEndian(bytes) < Pow2(w)
  {
  }

  /** `parse_cidr_ipv4`: `None` is the `false` return. */
  function ParseCidrV4(cidr: string, stoi: string -> Option<int>, pton: string -> Option<Bytes4>): (res: Option<Interval>)
    ensures res.Some? <==>
      SplitAtSlash(cidr).Some? && stoi(SplitAtSlash(cidr).value.1).Some? &&
      0 <= stoi(SplitAtSlash(cidr).value.1).value <= 32 && pton(SplitAtSlash(cidr).value.0).Some?
    ensures res.Some? ==>
      AlignedBlockAround(res.value, BigEndian(pton(SplitAtSlash(cidr).value.0).value),
        stoi(SplitAtSlash(cidr).value.1).value, 32)
  {
    match SplitAtSlash(cidr)
    case None => None
    case Some((ip, ps)) =>
      match stoi(ps)
      case None => None
      case Some(prefix) =>
        if prefix < 0 || prefix > 32 then None
        else
          match pton(ip)
          case None => None
          case Some(bytes) =>
            AddressBelow(bytes, 32);
            Some(BlockV4(BigEndian(bytes), prefix))
  }

  /** `parse_cidr_ipv6`: `None` is the `false` return. */
  function ParseCidrV6(cidr: string, stoi: string -> Option<int>, pton: string -> Option<Bytes16>): (res: Option<Interval>)
    ensures res.Some? <==>
      SplitAtSlash(cidr).Some? && stoi(SplitAtSlash(cidr).value.1).Some? &&
      0 <= stoi(SplitAtSlash(cidr).value.1).value <= 128 && pton(SplitAtSlash(cidr).value.0).Some?
    ensures res.Some? ==>
      AlignedBlockAround(res.value, BigEndian(pton(SplitAtSlash(cidr).value.0).value),
        stoi(SplitAtSlash(cidr).value.1).value, 128)
  {
    match SplitAtSlash(cidr)
    case None => None
    case Some((ip, ps)) =>
      match stoi(ps)
      case None => None
      case Some(prefix) =>
        if prefix < 0 || prefix > 128 then None
        else
          match pton(ip)
          case None => None
          case Some(bytes) =>
            AddressBelow(bytes, 128);
            Some(BlockV6(BigEndian(bytes), prefix))
  }
}
