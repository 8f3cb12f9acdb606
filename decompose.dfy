/** The CIDR decomposer: the greedy split of one interval `[l, r]` into aligned
    power-of-two blocks (`floor_pow2`, `interval_to_cidrs_v4`,
    `interval_to_cidrs_v6`). */
module Decompose {
  import opened Bits
  import opened Types

  // ---------------------------------------------------------------------------
  // CIDR blocks and covers

  /** A CIDR block of a `w`-bit family: a prefix in `[0, w]`, a base aligned
      to the block size `2^(w - prefix)`, and the whole block inside the space. */
  predicate ValidCidr(w: nat, c: Cidr)
  {
    0 <= c.prefix <= w && c.base % Pow2(w - c.prefix) == 0 && c.base + Pow2(w - c.prefix) <= Pow2(w)
  }

  /** The address `a` lies in the block `c`, which spans
      `[base, base + 2^(w - prefix) - 1]`. */
  predicate InBlock(w: nat, c: Cidr, a: nat)
  {
    0 <= c.prefix <= w && c.base <= a < c.base + Pow2(w - c.prefix)
  }

  predicate InBlocks(w: nat, cs: seq<Cidr>, a: nat)
  {
    exists i :: 0 <= i < |cs| && InBlock(w, cs[i], a)
  }

  /** `cs` tiles `[l, r]`: the blocks are valid, the first starts at `l`, each
      next one starts where the previous one ends, and the last ends at `r`. */
  predicate IsCover(w: nat, cs: seq<Cidr>, l: nat, r: nat)
    decreases |cs|
  {
    if cs == [] then l == r + 1
    else
      ValidCidr(w, cs[0]) && cs[0].base == l && l + Pow2(w - cs[0].prefix) <= r + 1 &&
      IsCover(w, cs[1..], l + Pow2(w - cs[0].prefix), r)
  }

  /** A cover holds exactly the addresses of the interval it tiles. */
  lemma {:induction false} CoverMembers(w: nat, cs: seq<Cidr>, l: nat, r: nat, a: nat)
    requires IsCover(w, cs, l, r)
    ensures InBlocks(w, cs, a) <==> l <= a <= r
    decreases |cs|
  {
    if cs != [] {
      var s := Pow2(w - cs[0].prefix);
      CoverMembers(w, cs[1..], l + s, r, a);
      if InBlocks(w, cs, a) {
        var i :| 0 <= i < |cs| && InBlock(w, cs[i], a);
        if i > 0 {
          assert cs[1..][i - 1] == cs[i];
        }
      }
      if l <= a <= r {
        if a < l + s {
          assert InBlock(w, cs[0], a);
        } else {
          var i :| 0 <= i < |cs[1..]| && InBlock(w, cs[1..][i], a);
          assert cs[i + 1] == cs[1..][i];
        }
      }
    }
  }

  /** The blocks of a cover are ascending and pairwise disjoint: each one ends
      before any later one starts. */
  lemma {:induction false} CoverAscending(w: nat, cs: seq<Cidr>, l: nat, r: nat, i: nat, j: nat)
    requires IsCover(w, cs, l, r) && i < j < |cs|
    ensures 0 <= cs[i].prefix <= w
    ensures cs[i].base + Pow2(w - cs[i].prefix) <= cs[j].base
    decreases |cs|
  {
    var s := Pow2(w - cs[0].prefix);
    if i == 0 {
      CoverStartsAbove(w, cs[1..], l + s, r, j - 1);
    } else {
      CoverAscending(w, cs[1..], l + s, r, i - 1, j - 1);
    }
  }

  lemma {:induction false} CoverStartsAbove(w: nat, cs: seq<Cidr>, l: nat, r: nat, j: nat)
    requires IsCover(w, cs, l, r) && j < |cs|
    ensures l <= cs[j].base
    decreases |cs|
  {
    if j > 0 {
      CoverStartsAbove(w, cs[1..], l + Pow2(w - cs[0].prefix), r, j - 1);
    }
  }

  // ---------------------------------------------------------------------------
  // The reference decomposition: always the largest block that fits

  /** The block of `2^k` addresses at `l` is a valid CIDR block (aligned) and
      ends no later than `r`. */
  predicate Fits(w: nat, l: nat, r: nat, k: nat)
  {
    k <= w && l % Pow2(k) == 0 && l + Pow2(k) <= r + 1
  }

  /** The largest exponent `j <= k` whose block fits at `l`, or `0`. */
  function LargestFit(w: nat, l: nat, r: nat, k: nat): nat
    decreases k
  {
    if k == 0 || Fits(w, l, r, k) then k else LargestFit(w, l, r, k - 1)
  }

  lemma {:induction false} LargestFitFits(w: nat, l: nat, r: nat, k: nat)
    requires l <= r
    ensures LargestFit(w, l, r, k) <= k && Fits(w, l, r, LargestFit(w, l, r, k))
    decreases k
  {
    if k > 0 && !Fits(w, l, r, k) {
      LargestFitFits(w, l, r, k - 1);
    }
  }

  lemma {:induction false} LargestFitMaximal(w: nat, l: nat, r: nat, k: nat, j: nat)
    requires j <= k && Fits(w, l, r, j)
    ensures j <= LargestFit(w, l, r, k)
    decreases k
  {
    if k > 0 && !Fits(w, l, r, k) {
      LargestFitMaximal(w, l, r, k - 1, j);
    }
  }

  /** A block of `2^k` addresses inside `[l, r]` has `k <= r - l`. */
  lemma FitsBelowSpan(w: nat, l: nat, r: nat, k: nat)
    requires Fits(w, l, r, k)
    ensures l <= r && k <= r - l
  {
    Pow2Exceeds(k);
  }

  /** The size exponent of the largest block that fits at `l` in `[l, r]`:
      the search starts at `r - l`, above which nothing fits. */
  function BlockExp(w: nat, l: nat, r: nat): nat
    requires l <= r
  {
    LargestFit(w, l, r, r - l)
  }

  lemma BlockExpFits(w: nat, l: nat, r: nat)
    requires l <= r
    ensures Fits(w, l, r, BlockExp(w, l, r))
  {
    LargestFitFits(w, l, r, r - l);
  }

  lemma BlockExpMaximal(w: nat, l: nat, r: nat, k: nat)
    requires Fits(w, l, r, k)
    ensures l <= r && k <= BlockExp(w, l, r)
  {
    FitsBelowSpan(w, l, r, k);
    LargestFitMaximal(w, l, r, r - l, k);
  }

  /** The block at `l` fits, and no larger one does. */
  lemma BlockExpLargest(w: nat, l: nat, r: nat)
    requires l <= r
    ensures Fits(w, l, r, BlockExp(w, l, r))
    ensures forall k: nat :: Fits(w, l, r, k) ==> k <= BlockExp(w, l, r)
  {
    BlockExpFits(w, l, r);
    forall k: nat | Fits(w, l, r, k)
      ensures k <= BlockExp(w, l, r)
    {
      BlockExpMaximal(w, l, r, k);
    }
  }

  /** The greedy decomposition of `[l, r]`: the largest block that fits at
      `l`, then the rest; empty when `l > r`. */
  function Decomposition(w: nat, l: nat, r: nat): seq<Cidr>
    decreases r + 1 - l
  {
    if l > r then []
    else
      var j := BlockExp(w, l, r);
      [Cidr(l, w - j)] + Decomposition(w, l + Pow2(j), r)
  }

  lemma DecompositionStep(w: nat, l: nat, r: nat)
    requires l <= r
    ensures Decomposition(w, l, r) ==
      [Cidr(l, w - BlockExp(w, l, r))] + Decomposition(w, l + Pow2(BlockExp(w, l, r)), r)
  {
  }

  lemma DecompositionLength(w: nat, l: nat, r: nat)
    ensures |Decomposition(w, l, r)| == if l > r then 0 else 1 + |Decomposition(w, l + Pow2(BlockExp(w, l, r)), r)|
  {
  }

  /** The greedy decomposition tiles the interval. */
  lemma {:induction false} DecompositionIsCover(w: nat, l: nat, r: nat)
    requires l <= r + 1 && r < Pow2(w)
    ensures IsCover(w, Decomposition(w, l, r), l, r)
    decreases r + 1 - l
  {
    if l <= r {
      var j := BlockExp(w, l, r);
      BlockExpFits(w, l, r);
      var cs := Decomposition(w, l, r);
      assert cs[0] == Cidr(l, w - j);
      assert w - (w - j) == j;
      DecompositionIsCover(w, l + Pow2(j), r);
      assert cs[1..] == Decomposition(w, l + Pow2(j), r);
    }
  }

  /** The whole address space is the single block `0/0`. */
  lemma DecompositionFullRange(w: nat, l: nat, r: nat)
    requires l == 0 && r == Pow2(w) - 1
    ensures Decomposition(w, l, r) == [Cidr(0, 0)]
  {
    assert Fits(w, l, r, w);
    BlockExpFits(w, l, r);
    BlockExpMaximal(w, l, r, w);
    assert BlockExp(w, l, r) == w;
    assert Decomposition(w, Pow2(w), r) == [];
  }

  lemma ModDifference(x: nat, y: nat, d: nat)
    requires d > 0 && x % d == 0 && y % d == 0 && y <= x
    ensures (x - y) % d == 0
  {
    assert x == (x / d) * d && y == (y / d) * d;
    assert x - y == (x / d - y / d) * d;
    DivModUnique(x - y, d, x / d - y / d, 0);
  }

  /** Inside a `g`-aligned block, a `b`-aligned step of size `b` dividing `g`
      cannot run past the block's end. */
  lemma AlignedStep(l: nat, m: nat, g: nat, b: nat)
    requires b > 0 && g % b == 0 && l % b == 0 && m % b == 0 && l < m < l + g
    ensures m + b <= l + g
  {
    ModDifference(m, l, b);
    NextMultiple(m - l, g, b);
  }

  /** One greedy step from inside an aligned block stays inside it. */
  lemma GreedyInsideStep(w: nat, l: nat, k: nat, m: nat, r: nat)
    requires l % Pow2(k) == 0 && l < m < l + Pow2(k) <= r + 1
    ensures m + Pow2(BlockExp(w, m, r)) <= l + Pow2(k)
  {
    var g := Pow2(k);
    var j := BlockExp(w, m, r);
    BlockExpFits(w, m, r);
    if j >= k {
      Pow2Divides(m, k, j);
      NextMultiple(l, m, g);
      assert false;
    }
    Pow2Divides(l, j, k);
    Pow2DividesPow2(j, k);
    AlignedStep(l, m, g, Pow2(j));
  }

  /** From an address `m` strictly inside an aligned block `[l, l + 2^k)` that
      fits in `[l, r]`, the greedy decomposition needs at least one block to
      reach `l + 2^k`. */
  lemma {:induction false} GreedyInsideBlock(w: nat, l: nat, k: nat, m: nat, r: nat)
    requires l % Pow2(k) == 0 && l < m < l + Pow2(k) <= r + 1
    ensures |Decomposition(w, m, r)| >= 1 + |Decomposition(w, l + Pow2(k), r)|
    decreases l + Pow2(k) - m
  {
    var next := m + Pow2(BlockExp(w, m, r));
    GreedyInsideStep(w, l, k, m, r);
    DecompositionLength(w, m, r);
    if next < l + Pow2(k) {
      GreedyInsideBlock(w, l, k, next, r);
    }
  }

  /** Starting with the greedy block costs no more blocks than starting with
      any other block that fits at `l`. */
  lemma GreedyNotWorse(w: nat, l: nat, k: nat, r: nat)
    requires Fits(w, l, r, k)
    ensures |Decomposition(w, l, r)| <= 1 + |Decomposition(w, l + Pow2(k), r)|
  {
    var j := BlockExp(w, l, r);
    BlockExpFits(w, l, r);
    BlockExpMaximal(w, l, r, k);
    DecompositionLength(w, l, r);
    if k < j {
      Pow2StrictMonotone(k, j);
      GreedyInsideBlock(w, l, j, l + Pow2(k), r);
    }
  }

  /** No cover of `[l, r]` has fewer blocks than the greedy decomposition. */
  lemma {:induction false} DecompositionMinimal(w: nat, cs: seq<Cidr>, l: nat, r: nat)
    requires IsCover(w, cs, l, r)
    ensures |Decomposition(w, l, r)| <= |cs|
    decreases |cs|
  {
    if cs == [] {
      assert Decomposition(w, l, r) == [];
    } else {
      var k := CoverHead(w, cs, l, r);
      DecompositionMinimal(w, cs[1..], l + Pow2(k), r);
      GreedyNotWorse(w, l, k, r);
    }
  }

  /** The first block of a non-empty cover, as its size exponent `k`. */
  lemma CoverHead(w: nat, cs: seq<Cidr>, l: nat, r: nat) returns (k: nat)
    requires IsCover(w, cs, l, r) && cs != []
    ensures k == w - cs[0].prefix && Fits(w, l, r, k)
    ensures IsCover(w, cs[1..], l + Pow2(k), r)
  {
    k := w - cs[0].prefix;
  }

  // ---------------------------------------------------------------------------
  // The choice as the source computes it: min(lowbit, floor_pow2)

  /** The largest block size the alignment of `l` allows: `2^lsb(l)`, and
      `2^w` for `l == 0`, whose alignment does not constrain. */
  function AlignOf(w: nat, l: nat): nat
  {
    if l == 0 then Pow2(w) else Pow2(Lsb(l))
  }

  /** `min(max_align, max_len)`: the block the decomposers take at `l`. */
  function SourceBlock(w: nat, l: nat, r: nat): nat
    requires l <= r
  {
    var maxAlign := AlignOf(w, l);
    var maxLen := FloorPow2(r - l + 1);
    if maxAlign < maxLen then maxAlign else maxLen
  }

  /** `min(max_align, max_len)` is a power of two whose block fits. */
  lemma SourceBlockFits(w: nat, l: nat, r: nat) returns (j: nat)
    requires l <= r < Pow2(w)
    ensures SourceBlock(w, l, r) == Pow2(j) && Fits(w, l, r, j)
  {
    var rem := r - l + 1;
    var len := FloorPow2(rem);
    var align := AlignOf(w, l);
    if align < len {
      assert l != 0;
      j := Lsb(l);
      LsbDivides(l);
    } else {
      j := Msb(rem);
      if l != 0 {
        LsbDivides(l);
        if Lsb(l) < j {
          Pow2StrictMonotone(Lsb(l), j);
        }
        Pow2Divides(l, j, Lsb(l));
      }
    }
    if j > w {
      Pow2StrictMonotone(w, j);
    }
  }

  /** Every block that fits is at most `min(max_align, max_len)`. */
  lemma SourceBlockLargest(w: nat, l: nat, r: nat, k: nat)
    requires l <= r && Fits(w, l, r, k)
    ensures Pow2(k) <= SourceBlock(w, l, r)
  {
    var align := AlignOf(w, l);
    if l == 0 {
      Pow2Monotone(k, w);
    } else {
      LsbMaximal(l, k);
      Pow2Monotone(k, Lsb(l));
    }
    assert Pow2(k) <= align;
    var len := FloorPow2(r - l + 1);
    FloorPow2Maximal(r - l + 1, k);
    assert Pow2(k) <= len;
  }

  /** The source's `min(max_align, max_len)` is exactly the largest block that
      fits, and `msb` of it is its exponent. */
  lemma SourceBlockIsLargest(w: nat, l: nat, r: nat)
    requires l <= r < Pow2(w)
    ensures SourceBlock(w, l, r) == Pow2(BlockExp(w, l, r))
    ensures Msb(SourceBlock(w, l, r)) == BlockExp(w, l, r)
  {
    var j := SourceBlockFits(w, l, r);
    var e := BlockExp(w, l, r);
    BlockExpFits(w, l, r);
    BlockExpMaximal(w, l, r, j);
    SourceBlockLargest(w, l, r, e);
    if j < e {
      Pow2StrictMonotone(j, e);
    }
    MsbOfPow2(e);
  }

  /** The source's choice written out with its two inputs: when `max_align`
      is the alignment of `cur` and `max_len` the largest power of two in the
      remaining length, `min(max_align, max_len)` is the reference block and
      `msb` of it is its exponent. */
  lemma SourceChoice(w: nat, r: nat, cur: nat, remaining: nat, maxAlign: nat, maxLen: nat, block: nat)
    requires cur <= r < Pow2(w) && remaining == r - cur + 1
    requires maxAlign == AlignOf(w, cur)
    requires maxLen == FloorPow2(remaining)
    requires block == (if maxAlign < maxLen then maxAlign else maxLen)
    ensures block == Pow2(BlockExp(w, cur, r)) && Msb(block) == BlockExp(w, cur, r)
    ensures BlockExp(w, cur, r) <= w && cur + block <= r + 1
  {
    assert block == SourceBlock(w, cur, r);
    SourceBlockIsLargest(w, cur, r);
    BlockExpFits(w, cur, r);
  }

  // ---------------------------------------------------------------------------
  // The loop both decomposers run

  /** `acc` followed by the greedy decomposition of `[l, r]`, built the way
      the decomposers' loop builds it: one block appended per pass. */
  function EmitFrom(w: nat, acc: seq<Cidr>, l: nat, r: nat): seq<Cidr>
    decreases r + 1 - l
  {
    if l > r then acc
    else
      var j := BlockExp(w, l, r);
      EmitFrom(w, acc + [Cidr(l, w - j)], l + Pow2(j), r)
  }

  /** Appending block by block yields exactly the greedy decomposition. */
  lemma {:induction false} EmitFromIsDecomposition(w: nat, acc: seq<Cidr>, l: nat, r: nat)
    ensures EmitFrom(w, acc, l, r) == acc + Decomposition(w, l, r)
    decreases r + 1 - l
  {
    if l <= r {
      var j := BlockExp(w, l, r);
      var c := Cidr(l, w - j);
      EmitFromIsDecomposition(w, acc + [c], l + Pow2(j), r);
      DecompositionStep(w, l, r);
      assert (acc + [c]) + Decomposition(w, l + Pow2(j), r) == acc + ([c] + Decomposition(w, l + Pow2(j), r));
    } else {
      assert acc + [] == acc;
    }
  }

  /** One pass of the loop: appending the block at `l` and moving past it
      leaves what remains to be emitted unchanged. */
  lemma EmitStep(w: nat, acc: seq<Cidr>, l: nat, r: nat, acc': seq<Cidr>, l': nat)
    requires l <= r
    requires acc' == acc + [Cidr(l, w - BlockExp(w, l, r))] && l' == l + Pow2(BlockExp(w, l, r))
    ensures EmitFrom(w, acc', l', r) == EmitFrom(w, acc, l, r)
  {
  }

  // ---------------------------------------------------------------------------
  // interval_to_cidrs_v4: 64-bit arithmetic on 32-bit addresses

  /** The 64-bit word holds every value the 32-bit decomposer computes. */
  lemma WordRoom()
    ensures 2 * Pow2(32) < Pow2(64)
  {
    Pow2StrictMonotone(33, 64);
    assert Pow2(33) == 2 * Pow2(32);
  }

  /** `interval_to_cidrs_v4`: the greedy decomposition of `[l, r]`, computed
      with the 64-bit counters `L`, `R` of the source. */
  method IntervalToCidrsV4(l: nat, r: nat) returns (out: seq<Cidr>)
    requires l < Pow2(32) && r < Pow2(32)
    ensures out == Decomposition(32, l, r)
  {
    out := [];
    var cur, last := l, r;
    EmitFromIsDecomposition(32, [], l, r);
    assert [] + Decomposition(32, l, r) == Decomposition(32, l, r);
    while cur <= last
      invariant cur <= Pow2(32)
      invariant EmitFrom(32, out, cur, last) == Decomposition(32, l, r)
      decreases last + 1 - cur
    {
      var block, prefix := BlockAtV4(cur, last);
      ghost var out0, cur0 := out, cur;
      out := out + [Cidr(cur, prefix)];
      cur := cur + block;
      EmitStep(32, out0, cur0, last, out, cur);
    }
  }

  /** One pass of `interval_to_cidrs_v4`'s loop: `max_align` from the lowest
      set bit of `L` (or `2^32` at `0`), `max_len` by doubling, their
      minimum, and its exponent `log2` by counting up. */
  method BlockAtV4(cur: nat, last: nat) returns (block: nat, prefix: int)
    requires cur <= last < Pow2(32)
    ensures block == Pow2(BlockExp(32, cur, last)) && prefix == 32 - BlockExp(32, cur, last)
    ensures cur + block <= last + 1
  {
    var remaining := last - cur + 1;
    WordRoom();
    var maxAlign: nat;
    if cur == 0 {
      maxAlign := ShiftedOne(32, 64);
    } else {
      maxAlign := LowestSetBit(cur, 64);
    }
    var maxLen := MaxLenV4(remaining);
    block := if maxLen < maxAlign then maxLen else maxAlign;
    SourceChoice(32, last, cur, remaining, maxAlign, maxLen, block);
    ghost var e := BlockExp(32, cur, last);
    var log2 := 0;
    while ShiftedOne(log2, 64) < block
      invariant log2 <= e
      decreases e - log2
    {
      if log2 >= e {
        Pow2Monotone(e, log2);
      }
      log2 := log2 + 1;
    }
    if log2 < e {
      Pow2StrictMonotone(log2, e);
    }
    prefix := 32 - log2;
  }

  /** The inner doubling loop of `interval_to_cidrs_v4`: the largest power of
      two not above `remaining`. */
  method MaxLenV4(remaining: nat) returns (maxLen: nat)
    requires 0 < remaining <= Pow2(32)
    ensures maxLen == FloorPow2(remaining)
  {
    maxLen := 1;
    ghost var j := 0;
    WordRoom();
    while Doubled(maxLen, 64) <= remaining
      invariant j <= 32 && maxLen == Pow2(j) && maxLen <= remaining
      decreases Pow2(32) - maxLen
    {
      maxLen := Doubled(maxLen, 64);
      j := j + 1;
      if j > 32 {
        Pow2Monotone(33, j);
      }
    }
    MsbUnique(remaining, j);
  }

  // ---------------------------------------------------------------------------
  // interval_to_cidrs_v6

  /** The lowest set bit of a non-zero `w`-bit value is below `w`. */
  lemma LsbBelow(x: nat, w: nat)
    requires 0 < x < Pow2(w)
    ensures Lsb(x) < w
  {
    LsbDivides(x);
    RoundDown(x, Pow2(Lsb(x)));
    if Lsb(x) >= w {
      Pow2Monotone(w, Lsb(x));
      DivModUnique(x, Pow2(Lsb(x)), 0, x);
    }
  }

  /** `interval_to_cidrs_v6` with its two 128-bit overflows removed: the
      cursor is unbounded, so it can reach `2^128` after the last block, and
      the alignment of `0` is `2^128`. */
  method IntervalToCidrsV6(l: nat, r: nat) returns (out: seq<Cidr>)
    requires l < Pow2(128) && r < Pow2(128)
    ensures out == Decomposition(128, l, r)
  {
    if l == 0 && r == U128_MAX {
      DecompositionFullRange(128, l, r);
      return [Cidr(0, 0)];
    }
    out := [];
    var cur := l;
    EmitFromIsDecomposition(128, [], l, r);
    assert [] + Decomposition(128, l, r) == Decomposition(128, l, r);
    while cur <= r
      invariant EmitFrom(128, out, cur, r) == Decomposition(128, l, r)
      decreases r + 1 - cur
    {
      var block, prefix := BlockAtV6(cur, r);
      ghost var out0, cur0 := out, cur;
      out := out + [Cidr(cur, prefix)];
      cur := cur + block;
      EmitStep(128, out0, cur0, r, out, cur);
    }
  }

  /** One pass of the corrected `interval_to_cidrs_v6` loop: `tz` from the
      lowest set bit (`128` at `0`), `max_align = 1 << tz` (`2^128` at `0`),
      `max_len = floor_pow2(remaining)`, their minimum and its `msb`. */
  method BlockAtV6(cur: nat, r: nat) returns (block: nat, prefix: int)
    requires cur <= r < Pow2(128)
    ensures block == Pow2(BlockExp(128, cur, r)) && prefix == 128 - BlockExp(128, cur, r)
  {
    var remaining := r - cur + 1;
    var tz := if cur == 0 then 128 else Lsb(cur);
    if cur != 0 {
      LsbBelow(cur, 128);
    }
    var maxAlign: nat;
    if tz == 128 {
      maxAlign := Pow2(128);
    } else {
      maxAlign := ShiftedOne(tz, 128);
    }
    var maxLen := FloorPow2(remaining);
    block := if maxAlign < maxLen then maxAlign else maxLen;
    SourceChoice(128, r, cur, remaining, maxAlign, maxLen, block);
    prefix := 128 - Msb(block);
  }

  // ---------------------------------------------------------------------------
  // `interval_to_cidrs_v6` as written, in `w`-bit arithmetic (`w = 128`)

  /** The outcome of one pass of the source loop: it emits `(base, prefix)`
      and moves the cursor to `next`, or it asks boost for `msb(0)`, which
      boost rejects by throwing. */
  datatype StepResult = Emitted(base: nat, prefix: int, next: nat) | MsbOfZero

  /** One pass of the `interval_to_cidrs_v6` loop with every value a `w`-bit
      unsigned word: `remaining` and the cursor wrap modulo `2^w`, and the
      alignment of `0` is `(1 << (w - 1)) << 1`, which is `0` in `w` bits. */
  function StepAsWritten(w: nat, l: nat, r: nat): StepResult
    requires 0 < w && l <= r < Pow2(w)
  {
    var remaining := (r - l + 1) % Pow2(w);
    var tz := if l == 0 then w else Lsb(l);
    var maxAlign := if tz == w then Shl(Shl(1, w - 1, w), 1, w) else Shl(1, tz, w);
    if remaining == 0 then MsbOfZero // floor_pow2(0)
    else
      var maxLen := Shl(1, Msb(remaining), w);
      var block := if maxAlign < maxLen then maxAlign else maxLen;
      if block == 0 then MsbOfZero
      else Emitted(l, w - Msb(block), (l + block) % Pow2(w))
  }

  /** The source's own instance: 128-bit words. */
  function V6StepAsWritten(l: nat, r: nat): StepResult
    requires l <= r < Pow2(128)
  {
    StepAsWritten(128, l, r)
  }

  /** An interval that starts at address `0` and is not the whole space makes
      the first pass compute a zero alignment and a zero block, then
      `msb(0)`; the corrected decomposer emits at least one block for it. */
  lemma ZeroStartAsWritten(w: nat, r: nat)
    requires 0 < w && r < Pow2(w) - 1
    ensures StepAsWritten(w, 0, r) == MsbOfZero
    ensures Decomposition(w, 0, r) != []
  {
    TopBitShiftedOut(w);
    DivModUnique(r + 1, Pow2(w), 0, r + 1);
    DecompositionLength(w, 0, r);
  }

  /** An interval that ends at the last address makes the cursor wrap to `0`
      after its last block; the loop test `l <= r` still holds, and the next
      pass computes `floor_pow2(0)`.  Shown on the one-address block at the
      top: the corrected decomposer emits that block and stops. */
  lemma TopAddressAsWritten(w: nat, l: nat, r: nat)
    requires 0 < w && l == r == Pow2(w) - 1
    ensures StepAsWritten(w, l, r) == Emitted(l, w, 0)
    ensures StepAsWritten(w, 0, r) == MsbOfZero
    ensures Decomposition(w, l, r) == [Cidr(l, w)]
  {
    TopStepWraps(w, l, r);
    WrappedCursorFails(w, r);
    TopBlockAlone(w, l, r);
  }

  lemma TopStepWraps(w: nat, l: nat, r: nat)
    requires 0 < w && l == r == Pow2(w) - 1
    ensures StepAsWritten(w, l, r) == Emitted(l, w, 0)
  {
    AllOnesOdd(w);
    assert Lsb(l) == 0;
    OneShiftedByZero(w);
    assert Msb(1) == 0;
    ModOfMultiple(1, Pow2(w));
  }

  /** The all-ones word is odd. */
  lemma AllOnesOdd(w: nat)
    requires 0 < w
    ensures (Pow2(w) - 1) % 2 == 1
  {
    assert Pow2(w) - 1 == (Pow2(w - 1) - 1) * 2 + 1;
    DivModUnique(Pow2(w) - 1, 2, Pow2(w - 1) - 1, 1);
  }

  /** `1 << 0` is `1`, and `1` is below the word size. */
  lemma OneShiftedByZero(w: nat)
    requires 0 < w
    ensures Shl(1, 0, w) == 1 && 1 % Pow2(w) == 1
  {
    Pow2StrictMonotone(0, w);
    DivModUnique(1, Pow2(w), 0, 1);
  }

  lemma WrappedCursorFails(w: nat, r: nat)
    requires 0 < w && r == Pow2(w) - 1
    ensures StepAsWritten(w, 0, r) == MsbOfZero
  {
    ModOfMultiple(1, Pow2(w));
  }

  lemma TopBlockAlone(w: nat, l: nat, r: nat)
    requires l == r == Pow2(w) - 1
    ensures Decomposition(w, l, r) == [Cidr(l, w)]
  {
    BlockExpFits(w, l, r);
    DecompositionStep(w, l, r);
    assert Decomposition(w, l + 1, r) == [];
  }

  /** `::/128` (the interval `[0, 0]`) is one such input. */
  lemma V6ZeroStartAsWritten(r: nat)
    requires r < U128_MAX
    ensures V6StepAsWritten(0, r) == MsbOfZero
  {
    ZeroStartAsWritten(128, r);
  }

  /** `ffff:ffff:ffff:ffff:ffff:ffff:ffff:ffff/128` is one such input. */
  lemma V6TopAddressAsWritten(l: nat, r: nat)
    requires l == r == U128_MAX
    ensures V6StepAsWritten(l, r) == Emitted(l, 128, 0)
    ensures V6StepAsWritten(0, r) == MsbOfZero
  {
    TopAddressAsWritten(128, l, r);
  }
}
