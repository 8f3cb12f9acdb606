# Route aggregation, modelled in Dafny

The aggregator downloads lists of IPv4 and IPv6 address blocks. It turns each
list into the smallest set of CIDR blocks that covers exactly the same
addresses. This project models the core of that pipeline, one address family
at a time (width `w = 32` or `w = 128`), and proves its properties.

- **Line cleaning** (`LineClean`): `trim`, `is_comment_or_empty`, and the
  inline-comment stripping of the reading loop.
- **Block parsing** (`CidrParse`, `ByteCodec`): `parse_cidr_ipv4` and
  `parse_cidr_ipv6` turn `address/prefix` into the closed interval
  `[x & mask, (x & mask) | ~mask]`. `bytes_to_u128_be` and
  `u128_to_bytes_be` form the big-endian codec for 16-byte addresses.
- **Normalisation** (`Normalize`): `union_normalize` sorts the intervals by
  `(l, r)`. It then sweeps once and merges intervals that overlap or touch.
- **Decomposition** (`Decompose`): `floor_pow2`, `interval_to_cidrs_v4` and
  `interval_to_cidrs_v6` split one interval greedily into aligned
  power-of-two blocks.

Each C++ unsigned integer of width `w` is a `nat` below `2^w` (module `Bits`).
The operators `&`, `|`, `~`, `<<` and `>>` are written out at that width, so
wrap-around is explicit. boost's `lsb` and `msb` are the recursive functions
`Lsb` and `Msb`.

The loops of the source are Dafny methods:
- `Trim`, `BytesToU128`, `U128ToBytes` and `UnionNormalize`;
- `IntervalToCidrsV4`, with its inner doubling and counting loops;
- `IntervalToCidrsV6`.

Each method is proved equal to a specification function:
- `Trimmed`;
- `BigEndian` and `BigEndianBytes`;
- `Normalized`;
- `Decomposition`, the reference greedy split that always takes the largest
  aligned block that fits.

The lemmas then prove what the pipeline promises about those functions:
- the encoding round-trips;
- parsed intervals are aligned blocks;
- normalisation keeps the covered set, and its output is sorted, separated by
  gaps and idempotent;
- the decomposition tiles the interval exactly and uses the fewest blocks of
  any tiling.

## Model

| member | source | states |
|---|---|---|
| LineClean.DropLeadingShape | src/main.cpp:73 | skipping leading spaces leaves a suffix; everything it cut is a space, and it does not start with a space |
| LineClean.DropTrailingShape | src/main.cpp:74 | skipping trailing spaces leaves a prefix; everything it cut is a space, and it does not end with a space |
| LineClean.TrimmedShape | src/main.cpp:71-76 | `trim` returns a contiguous piece of its argument with only spaces, tabs, CR and LF around it, and none at either end |
| LineClean.TrimmedFixed | src/main.cpp:71-76 | a string with no space character at either end is left unchanged by `trim` |
| LineClean.TrimIdempotent | src/main.cpp:71-76 | `trim(trim(s)) == trim(s)` |
| LineClean.TrimmedKeepsStart | src/main.cpp:71-76 | a string that starts with a non-space keeps that start: `trim` only cuts a tail, and the result is non-empty |
| LineClean.Trim | src/main.cpp:71-76 | the two index loops moving `b` and `e` return exactly the trimmed string |
| LineClean.CommentPrefixes | src/main.cpp:78-84 | `is_comment_or_empty` holds exactly for the empty line and for lines starting with `#`, `//` or `;` |
| LineClean.FindFrom | src/main.cpp:398-401 | `find` from a position: the result is an occurrence at or after it, with none before it; `npos` means there is no occurrence |
| LineClean.Find | src/main.cpp:398-401 | `line.find(pat)` returns the first occurrence, and `npos` exactly when there is none |
| LineClean.StripKeepsStart | src/main.cpp:398-401 | cutting a trimmed, non-empty line at ` #` or ` ;` and trimming again leaves a non-empty prefix that no longer contains the marker |
| LineClean.NoOccurrenceInPrefix | src/main.cpp:400-401 | a prefix of a line without the marker is also without it, so the ` ;` cut keeps the ` #` cut's result free of ` #` |
| LineClean.IsCommentOrEmpty | src/main.cpp:78-84 | `is_comment_or_empty`, branch by branch; `CommentPrefixes` states its meaning |
| LineClean.StripAfter | src/main.cpp:399-402 | one inline-comment cut: `trim(line.substr(0, p))` at the first occurrence of the marker, or the line unchanged; `StripKeepsStart` states what it keeps |
| LineClean.CommentStart | src/main.cpp:398-401 | the inline comment of a line starts at the first index where ` #` or ` ;` occurs, or at the end when neither does |
| LineClean.StripBoth | src/main.cpp:398-401 | the ` #` cut followed by the ` ;` cut keeps exactly the trimmed text before the first marker of either kind |
| LineClean.CleanLine | src/main.cpp:394-404 | a line is skipped exactly when its trimmed form is a comment or is empty. A kept line is the trimmed text of the trimmed line before its first ` #` or ` ;`, and the whole trimmed line when it has neither. That text is not a comment and contains no marker, so the `line.empty()` test at line 404 never fires |
| CidrParse.SplitAtSlash | src/main.cpp:87-90 | no split exactly when there is no `/`; otherwise the line is `ip + "/" + ps` and `ip` has no `/` |
| CidrParse.MaskV4 | src/main.cpp:99 | the IPv4 mask expression, `0` for prefix 0 and else `0xFFFFFFFF << (32 - prefix)` in 32 bits; `MaskV4Value` states its value |
| CidrParse.MaskV6 | src/main.cpp:137-144 | the IPv6 mask with its three cases; `MaskV6Value` states its value |
| CidrParse.BlockOf | src/main.cpp:100-101 | `[x & mask, (x & mask) \| ~mask]` at width `w`, the IPv4 lines and lines 146-147 alike; `BlockOfMeaning` states what it is |
| CidrParse.MaskV4Value | src/main.cpp:99 | the IPv4 mask, with its prefix-0 case, is `prefix` ones followed by `32 - prefix` zeros |
| CidrParse.MaskV6Value | src/main.cpp:137-144 | the IPv6 mask, with its prefix-0 and prefix-128 cases, is `prefix` ones followed by `128 - prefix` zeros |
| CidrParse.AlignedBlockUnique | src/main.cpp:99-104 | there is exactly one aligned block of size `2^(w - prefix)` around `x`, so the parsers' contract fixes the interval |
| CidrParse.BlockOfMeaning | src/main.cpp:100-101 | `[x & mask, (x & mask) \| ~mask]` holds `x`, has `2^(w - prefix)` addresses, starts at a multiple of that size and ends inside the space |
| CidrParse.BlockMembers | src/main.cpp:146-147 | an address is in the parsed interval exactly when it shares the top `prefix` bits with `x` |
| CidrParse.SameQuotient | src/main.cpp:146-147 | the window of `size` addresses that starts at a multiple of `size` holds exactly the numbers with the same quotient by `size` |
| CidrParse.BlockV4 | src/main.cpp:99-104 | the IPv4 interval is the aligned block of `2^(32 - prefix)` addresses around `x` |
| CidrParse.BlockV6 | src/main.cpp:137-150 | the IPv6 interval is the aligned block of `2^(128 - prefix)` addresses around `x` |
| CidrParse.AddressBelow | src/main.cpp:97 | the value of the 4 or 16 address bytes fits in 32 or 128 bits |
| CidrParse.ParseCidrV4 | src/main.cpp:86-106 | fails exactly when there is no `/`, `stoi` fails, the prefix is outside `[0, 32]`, or `inet_pton` fails. On success the interval is the aligned block of `2^(32 - prefix)` addresses around the address |
| CidrParse.ParseCidrV6 | src/main.cpp:124-152 | the same as `ParseCidrV4`, with the range `[0, 128]` and 16-byte addresses decoded by `bytes_to_u128_be` |
| ByteCodec.BigEndian | src/main.cpp:108-115 | the big-endian value of `n` bytes is below `2^(8n)` |
| ByteCodec.BigEndianBytes | src/main.cpp:117-122 | the encoding into `n` bytes has length `n` |
| ByteCodec.DecodeEncode | src/main.cpp:108-122 | `bytes_to_u128_be(u128_to_bytes_be(v)) == v` for every `v` that fits |
| ByteCodec.EncodeDecode | src/main.cpp:108-122 | `u128_to_bytes_be(bytes_to_u128_be(b)) == b` for every byte string |
| ByteCodec.ShiftInByte | src/main.cpp:111-112 | while the value read so far has room, `(v << 8) \| b` loses no bit and is `256 v + b` |
| ByteCodec.BytesToU128 | src/main.cpp:108-115 | the shift-in loop returns the big-endian value of the 16 bytes, which is below `2^128` |
| ByteCodec.PeelLowByte | src/main.cpp:119-120 | `v & 0xFF` is the low byte and `v >> 8` is the rest |
| ByteCodec.PrependBytesIsEncoding | src/main.cpp:117-122 | filling the buffer from the right, low byte first, gives the big-endian encoding |
| ByteCodec.U128ToBytes | src/main.cpp:117-122 | the loop writes the big-endian encoding of `v` into the 16-byte buffer |
| Normalize.Insert | src/main.cpp:174-177 | insertion keeps the multiset plus the new element and keeps a sorted list sorted |
| Normalize.SortIntervals | src/main.cpp:174-177 | the sort's result is ordered by `(l, r)` and is a permutation of the input |
| Normalize.SortSorted | src/main.cpp:174-177 | sorting an already sorted list returns it unchanged |
| Normalize.Mergeable | src/main.cpp:186-189 | the merge test: overlap, or adjacency tested only when `cur.r != U128_MAX` |
| Normalize.Sweep | src/main.cpp:179-197 | the merge loop as a recursion over the sorted list, from the running interval `cur` |
| Normalize.Normalized | src/main.cpp:172-198 | `union_normalize` as a function: the empty list for the empty input, else the sweep of the sorted list; the lemmas below state its properties |
| Normalize.SweepStep | src/main.cpp:182-194 | proof helper: the one-step unfolding of `Sweep` that the loop invariant uses, in both branches |
| Normalize.UnionNormalize | src/main.cpp:172-198 | the sort, the accumulator loop and the final `push_back` return exactly `Normalized(xs)`; `cur.r + 1` is only computed when `cur.r != U128_MAX` |
| Normalize.SweepStart | src/main.cpp:179-196 | the sweep's output is non-empty and starts where its running interval starts |
| Normalize.SweepReadyStep | src/main.cpp:185-194 | each pass keeps the sweep's input sorted and well formed; when no merge happens, the emitted interval ends below `U128_MAX` and before a gap |
| Normalize.SweepSeparated | src/main.cpp:179-196 | from sorted, well-formed input the sweep emits well-formed intervals separated by gaps |
| Normalize.NormalizedSeparated | src/main.cpp:172-198 | every output interval has `l <= r`, and each ends below `U128_MAX` and more than one address before the next one starts |
| Normalize.SortedValid | src/main.cpp:174-177 | sorting keeps every interval well formed |
| Normalize.SeparatedAscending | src/main.cpp:172-198 | output intervals are strictly increasing, pairwise disjoint and non-adjacent |
| Normalize.CoveredConcat | src/main.cpp:192-196 | an address covered by a concatenation is covered by one of its parts, and conversely |
| Normalize.CoveredPermutation | src/main.cpp:174-177 | sorting keeps the set of covered addresses |
| Normalize.SweepCovers | src/main.cpp:179-196 | the sweep covers exactly what its running interval and the rest cover |
| Normalize.NormalizedCovers | src/main.cpp:172-198 | `union_normalize` keeps exactly the set of covered addresses |
| Normalize.SweepFixed | src/main.cpp:179-196 | the sweep leaves a separated list unchanged |
| Normalize.SeparatedSorted | src/main.cpp:172-198 | a separated list is sorted |
| Normalize.NormalizedFixedPoints | src/main.cpp:172-198 | the lists that normalisation leaves unchanged are exactly the separated ones |
| Normalize.NormalizedIdempotent | src/main.cpp:172-198 | normalising the output again returns it unchanged |
| Normalize.NormalizedEmpty | src/main.cpp:173 | the output is empty exactly when the input is |
| Normalize.SweepBelow | src/main.cpp:179-196 | merging never raises an end above every input end |
| Normalize.NormalizedBelow | src/main.cpp:172-198 | every output interval ends below any bound that every input ends below. So IPv4 results fit 32 bits, and the casts back to `uint32_t` at line 427 lose nothing |
| Bits.And | src/main.cpp:100 | C++ `&` on `w`-bit unsigned values, bit by bit |
| Bits.Or | src/main.cpp:101 | C++ `\|` on `w`-bit unsigned values, bit by bit |
| Bits.Not | src/main.cpp:101 | C++ `~` on a `w`-bit unsigned value |
| Bits.Shl | src/main.cpp:99 | C++ `<<` on a `w`-bit unsigned value; bits shifted past the width are lost |
| Bits.Shr | src/main.cpp:120 | C++ `>>` on an unsigned value |
| Bits.Lsb | src/main.cpp:219 | boost `lsb`, the index of the lowest set bit, for a non-zero argument; `LsbDivides` and `LsbMaximal` state its meaning |
| Bits.Msb | src/main.cpp:202 | boost `msb`, the index of the highest set bit, for a non-zero argument; `MsbBounds` states its meaning |
| Bits.NotValue | src/main.cpp:101 | `~a` in `w` bits is `2^w - 1 - a` |
| Bits.AndLowMask | src/main.cpp:119 | `x & (2^k - 1)` is `x mod 2^k` |
| Bits.AndHighMask | src/main.cpp:100 | `x & mask`, with `mask` being high ones over `k` low zeros, rounds `x` down to a multiple of `2^k` |
| Bits.OrDisjoint | src/main.cpp:101 | `hi \| lo` is `hi + lo` when `lo` fits in the low zero bits of `hi` |
| Bits.ShlOnes | src/main.cpp:143 | `U128_MAX << k` (and `0xFFFFFFFF << k`) is `w - k` ones over `k` zeros |
| Bits.LsbDivides | src/main.cpp:219 | `2^lsb(x)` divides `x` and `2^(lsb(x) + 1)` does not |
| Bits.LsbMaximal | src/main.cpp:219 | every power of two dividing `x` is at most `2^lsb(x)` |
| Bits.MsbBounds | src/main.cpp:202 | `2^msb(x) <= x < 2^(msb(x) + 1)` |
| Bits.MsbUnique | src/main.cpp:202 | `msb(x)` is the only `k` with `2^k <= x < 2^(k + 1)` |
| Bits.MsbOfPow2 | src/main.cpp:225 | `msb(2^k) == k` |
| Bits.FloorPow2 | src/main.cpp:200-204 | `floor_pow2(x)` is a power of two `p` with `p <= x < 2p` |
| Bits.FloorPow2Maximal | src/main.cpp:200-204 | every power of two not above `x` is at most `floor_pow2(x)` |
| Bits.NegateValue | src/main.cpp:247 | `~L + 1` in `w` bits is `2^w - L` |
| Bits.LowbitTwosComplement | src/main.cpp:247 | `x & (2^w - x)` is `2^lsb(x)` |
| Bits.LowestSetBit | src/main.cpp:247 | `L & (~L + 1)` is `2^lsb(L)` for non-zero `L` |
| Bits.ShlNoWrap | src/main.cpp:220 | a left shift that does not carry past the width is a multiplication by `2^k` |
| Bits.ShiftedOne | src/main.cpp:245 | `1 << k` is `2^k` while `k` is below the width |
| Bits.ShlOneNoWrap | src/main.cpp:251 | `a << 1` that does not wrap is `2a` |
| Bits.Doubled | src/main.cpp:251 | `max_len << 1` in 64 bits is `2 max_len` while it fits |
| Bits.TopBitShiftedOut | src/main.cpp:220 | `(1 << (w - 1)) << 1` is `0` in `w` bits |
| Decompose.CoverMembers | src/main.cpp:215-231 | the blocks of a tiling hold exactly the addresses of the interval |
| Decompose.CoverAscending | src/main.cpp:215-231 | the blocks of a tiling are ascending and pairwise disjoint, and their prefixes lie in `[0, w]` |
| Decompose.CoverStartsAbove | src/main.cpp:239-261 | every block of a tiling of `[l, r]` starts at or after `l` |
| Decompose.LargestFitFits | src/main.cpp:218-223 | the downward search returns an exponent whose block is aligned and fits |
| Decompose.LargestFitMaximal | src/main.cpp:218-223 | no larger exponent within the search range fits |
| Decompose.FitsBelowSpan | src/main.cpp:216 | a block of `2^k` addresses inside `[l, r]` has `k <= r - l` |
| Decompose.BlockExpFits | src/main.cpp:218-223 | the reference block at `l` is aligned and fits in `[l, r]` |
| Decompose.BlockExpMaximal | src/main.cpp:218-223 | every block that fits at `l` is at most the reference block |
| Decompose.BlockExpLargest | src/main.cpp:218-223 | the reference block is the largest aligned block that fits at `l` |
| Decompose.DecompositionStep | src/main.cpp:229-230 | proof helper: the one-step unfolding of `Decomposition`; the decomposition is the block at `l` followed by the decomposition of what is left |
| Decompose.DecompositionLength | src/main.cpp:215-231 | proof helper: the one-step unfolding of the length of `Decomposition`; each block of the decomposition is followed by the decomposition of the rest, so its length counts the loop's passes |
| Decompose.DecompositionIsCover | src/main.cpp:215-231 | the first base is `l`, each next base is the previous base plus its block size, the last block ends exactly at `r`, every prefix lies in `[0, w]`, and every base is aligned to its size |
| Decompose.DecompositionFullRange | src/main.cpp:210-213 | the whole space `[0, 2^w - 1]` decomposes to exactly `0/0`, for IPv6 (the special case) and for IPv4 (`max_align = 2^32`) alike |
| Decompose.ModDifference | src/main.cpp:230 | the difference of two multiples of `d` is a multiple of `d` |
| Decompose.AlignedStep | src/main.cpp:230 | inside an aligned block, an aligned step of a smaller power of two cannot run past the block's end |
| Decompose.GreedyInsideStep | src/main.cpp:223 | one greedy block started strictly inside an aligned block that fits stays inside it |
| Decompose.GreedyInsideBlock | src/main.cpp:215-231 | from strictly inside an aligned block that fits, the greedy loop needs at least one block to reach its end |
| Decompose.GreedyNotWorse | src/main.cpp:223 | starting with the greedy block costs no more blocks than starting with any other block that fits |
| Decompose.DecompositionMinimal | src/main.cpp:215-231 | no tiling of `[l, r]` has fewer blocks than the greedy decomposition |
| Decompose.CoverHead | src/main.cpp:229 | the first block of a non-empty tiling fits at `l`, and the rest tiles what follows it |
| Decompose.AlignOf | src/main.cpp:219-220 | `max_align`: `2^lsb(l)`, and `2^w` for `l == 0` as the IPv4 code has it at lines 243-248 (the corrected IPv6 value) |
| Decompose.SourceBlock | src/main.cpp:222-223 | `min(max_align, max_len)` with `max_len = floor_pow2(r - l + 1)`, the block both decomposers take (lines 250-253 for IPv4); `SourceBlockIsLargest` states what it is |
| Decompose.SourceBlockFits | src/main.cpp:222-223 | `min(max_align, max_len)` is a power of two whose block is aligned and fits |
| Decompose.SourceBlockLargest | src/main.cpp:222-223 | every block that fits is at most `min(max_align, max_len)` |
| Decompose.SourceBlockIsLargest | src/main.cpp:218-226 | `min(max_align, max_len)` is exactly the reference block, and `msb` of it is its exponent |
| Decompose.SourceChoice | src/main.cpp:240-253 | with `max_align` from the alignment and `max_len = floor_pow2(remaining)`, their minimum is the reference block and never runs past `r` |
| Decompose.EmitFromIsDecomposition | src/main.cpp:229-230 | appending block after block to `out` yields `out` followed by the greedy decomposition |
| Decompose.EmitStep | src/main.cpp:259-260 | proof helper: the one-step unfolding of `EmitFrom` that the loop invariant uses; one pass, which appends the block and advances the cursor, leaves the final output unchanged |
| Decompose.WordRoom | src/main.cpp:238 | the 64-bit counters hold `2^32` and every `L + block` |
| Decompose.IntervalToCidrsV4 | src/main.cpp:235-263 | `interval_to_cidrs_v4` returns exactly the greedy decomposition of `[l, r]` |
| Decompose.BlockAtV4 | src/main.cpp:240-257 | one pass picks the reference block at `L` and the prefix `32 - log2` of its size, and the block never runs past `R` |
| Decompose.MaxLenV4 | src/main.cpp:250-251 | the doubling loop ends with the largest power of two not above `remaining` |
| Decompose.LsbBelow | src/main.cpp:219 | the lowest set bit of a non-zero 128-bit value is below 128 |
| Decompose.IntervalToCidrsV6 | src/main.cpp:206-233 | the corrected `interval_to_cidrs_v6` returns exactly the greedy decomposition of `[l, r]`, for every interval that fits in 128 bits |
| Decompose.BlockAtV6 | src/main.cpp:216-226 | one pass picks the reference block at `l` and the prefix `128 - msb(block)` |
| Decompose.StepAsWritten | src/main.cpp:216-230 | one pass of `interval_to_cidrs_v6` exactly as written, in `w`-bit wrapping arithmetic: `remaining`, `tz`, `max_align`, `max_len`, `block`, the pushed pair and the advanced cursor `l + block`, or the `msb(0)` failure |
| Decompose.V6StepAsWritten | src/main.cpp:216-230 | the as-written pass at `w = 128` |
| Decompose.ZeroStartAsWritten | src/main.cpp:219-225 | as written, an interval `[0, r]` that is not the whole space makes the first pass reach `msb(0)`, while the greedy decomposition has blocks for it |
| Decompose.TopAddressAsWritten | src/main.cpp:215-230 | as written, the block that ends at the last address moves the cursor to `0`, and the next pass reaches `msb(0)`; the greedy decomposition is that one block |
| Decompose.TopStepWraps | src/main.cpp:216-230 | as written, the pass at the last address emits it with prefix `w` and moves the cursor to `0` |
| Decompose.WrappedCursorFails | src/main.cpp:215-222 | as written, the pass at `0` with `r = MAX` computes `remaining = 0`, and `floor_pow2(0)` is `msb(0)` |
| Decompose.TopBlockAlone | src/main.cpp:215-231 | the greedy decomposition of the last address alone is one block of prefix `w` |
| Decompose.AllOnesOdd | src/main.cpp:219 | the all-ones word is odd, so its lowest set bit is bit 0 |
| Decompose.OneShiftedByZero | src/main.cpp:220 | `1 << 0` is `1` |
| Decompose.V6ZeroStartAsWritten | src/main.cpp:219-225 | for 128-bit words: `[0, r]` with `r < U128_MAX` (such as `::/128`) reaches `msb(0)` in the first pass |
| Decompose.V6TopAddressAsWritten | src/main.cpp:215-230 | for 128-bit words: the last address alone (`ffff:…:ffff/128`) is emitted, the cursor wraps to `0`, and the next pass reaches `msb(0)` |

## Left out

- Network I/O (`curl_write_cb`, `http_get_to_string`, `curl_global_*`), the
  output writers (`write_txt`, `write_set_only_nft`), the timestamp, the
  argument loop and `mkdir -p`: these are I/O and process glue.
- Splitting a downloaded body into lines with `std::getline` is not modelled:
  `CleanLine` takes one line.
- `inet_pton` is a parameter `pton` of the parsers, returning the address
  bytes or failure. `ntohl` and `bytes_to_u128_be` both read those bytes as a
  big-endian number (`BigEndian`).
- `std::stoi` is a parameter `stoi`, returning the parsed number or failure.
  Its exceptions are the failure case; its leniency (it accepts `"24x"`) is
  whatever the parameter does.
- `inet_ntop`, `u128_to_ipv6` and `u32_to_ipv4` format addresses for output
  and are not modelled.
- `std::sort`: `SortIntervals` is a functional insertion sort. The comparator
  is a total order on pairs, so every correct sort gives the same result. The
  in-place update of the vector is not modelled, and `UnionNormalize` works on
  a sequence value.
- boost's `lsb` and `msb` are the recursive functions `Lsb` and `Msb`, which
  require a non-zero argument. Their failure on `0` appears only as the
  `MsbOfZero` outcome of `Decompose.StepAsWritten`.
- The loop in `main` that concatenates the per-interval blocks (lines 421-436)
  is not a member of its own. `Normalize.NormalizedBelow` covers the one fact
  it relies on: the casts to `uint32_t` lose nothing.
- Decompose.IntervalToCidrsV6: models the corrected loop, not the code as
  written. The cursor is unbounded, so it can reach `2^128` after the last
  block, and the alignment of `0` is `2^128`. The code as written is modelled
  one pass at a time by `Decompose.StepAsWritten`; its whole loop, which
  throws or never ends on the inputs under "Findings", is not.
- The loop bodies of `interval_to_cidrs_v4` and `interval_to_cidrs_v6` are
  the methods `BlockAtV4` and `BlockAtV6`. The loops call them once per pass.
- `main` hands every normalised interval to `interval_to_cidrs_v6`, and
  `interval_to_cidrs_v4` handles every interval. The comment at
  src/main.cpp:220 ("won't be used here") shows that `l == 0` was expected
  only for the full range. `IntervalToCidrsV6` handles every interval. The
  as-written members show the code's behaviour on the two inputs under
  "Findings".

## Findings

| source | as written | input that shows it | evidently intended | confidence | as-written member | corrected member |
|---|---|---|---|---|---|---|
| src/main.cpp:219-225 | for `l == 0` the alignment `(u128(1) << 127) << 1` wraps to `0`. So `block` is `0`, and `msb(0)` is called, which boost rejects by throwing; the cursor would never advance anyway | `::/128` (the interval `[0, 0]`), or any interval `[0, r]` with `r < U128_MAX`, such as `::/1` | `0` is aligned to every block size, as `interval_to_cidrs_v4` treats it with `max_align = 2^32`. The first block is `floor_pow2(r + 1)` | high, not executed | Decompose.V6ZeroStartAsWritten | Decompose.IntervalToCidrsV6 |
| src/main.cpp:215-230 | after a block that ends at `U128_MAX`, `l += block` wraps to `0`. `l <= r` still holds, so the loop runs again with `remaining = 0` and calls `floor_pow2(0)`, which is `msb(0)` | `ffff:ffff:ffff:ffff:ffff:ffff:ffff:ffff/128`, or any interval other than `::/0` that ends at the last address (such as `ffff::/16`) | the loop stops after the block that ends at `r` | high, not executed | Decompose.V6TopAddressAsWritten | Decompose.IntervalToCidrsV6 |
