/** The interval normaliser (`union_normalize`): sort by `(l, r)` and sweep
    once, merging each interval into the running one when it overlaps it or
    starts right after it. */
module Normalize {
  import opened Types

  /** The comparator handed to `std::sort`, as a non-strict order. */
  predicate LexLeq(a: Interval, b: Interval)
  {
    a.l < b.l || (a.l == b.l && a.r <= b.r)
  }

  predicate Sorted(s: seq<Interval>)
  {
    forall i :: 0 <= i < |s| - 1 ==> LexLeq(s[i], s[i + 1])
  }

  function Insert(x: Interval, s: seq<Interval>): (t: seq<Interval>)
    ensures multiset(t) == multiset(s) + multiset{x}
    ensures Sorted(s) ==> Sorted(t)
    ensures t != [] && (t[0] == x || (s != [] && t[0] == s[0]))
  {
    if s == [] || LexLeq(x, s[0]) then [x] + s
    else
      assert s == [s[0]] + s[1..];
      [s[0]] + Insert(x, s[1..])
  }

  /** The order `std::sort` leaves the intervals in.  Since the comparator is a
      total order on pairs, the sorted permutation is unique and any sorting
      algorithm yields this one. */
  function SortIntervals(xs: seq<Interval>): (s: seq<Interval>)
    ensures Sorted(s) && multiset(s) == multiset(xs)
  {
    if xs == [] then []
    else
      assert xs == [xs[0]] + xs[1..];
      Insert(xs[0], SortIntervals(xs[1..]))
  }

  lemma {:induction false} SortSorted(xs: seq<Interval>)
    requires Sorted(xs)
    ensures SortIntervals(xs) == xs
  {
    if xs != [] {
      SortSorted(xs[1..]);
    }
  }

  /** `cur` absorbs `nx`: they overlap, or `nx` starts right after `cur`.  The
      adjacency test is only made when `cur.r + 1` fits in 128 bits. */
  predicate Mergeable(cur: Interval, nx: Interval)
  {
    var adjacent := cur.r != U128_MAX && nx.l == cur.r + 1;
    var overlap := nx.l <= cur.r;
    overlap || adjacent
  }

  /** The sweep from the running interval `cur` over the intervals `rest` still
      to be read. */
  function Sweep(cur: Interval, rest: seq<Interval>): seq<Interval>
    decreases |rest|
  {
    if rest == [] then [cur]
    else if Mergeable(cur, rest[0]) then
      Sweep(Interval(cur.l, if rest[0].r > cur.r then rest[0].r else cur.r), rest[1..])
    else [cur] + Sweep(rest[0], rest[1..])
  }

  /** What `union_normalize` returns. */
  function Normalized(xs: seq<Interval>): seq<Interval>
  {
    if xs == [] then []
    else
      var s := SortIntervals(xs);
      Sweep(s[0], s[1..])
  }

  /** One step of the sweep loop keeps `out + Sweep(cur, rest)` fixed. */
  lemma SweepStep(out: seq<Interval>, cur: Interval, rest: seq<Interval>, whole: seq<Interval>)
    requires rest != [] && out + Sweep(cur, rest) == whole
    ensures Mergeable(cur, rest[0]) ==>
      out + Sweep(Interval(cur.l, if rest[0].r > cur.r then rest[0].r else cur.r), rest[1..]) == whole
    ensures !Mergeable(cur, rest[0]) ==> (out + [cur]) + Sweep(rest[0], rest[1..]) == whole
  {
  }

  /** `union_normalize`: the in-place sort is `SortIntervals`; the loop holds
      the accumulator `cur` and appends to `out`. */
  method UnionNormalize(xs: seq<Interval>) returns (out: seq<Interval>)
    requires forall i :: 0 <= i < |xs| ==> xs[i].r <= U128_MAX
    ensures out == Normalized(xs)
  {
    if |xs| == 0 {
      return [];
    }
    var sorted := SortIntervals(xs);
    assert forall i :: 0 <= i < |sorted| ==> sorted[i].r <= U128_MAX by {
      forall i | 0 <= i < |sorted| ensures sorted[i].r <= U128_MAX {
        assert sorted[i] in multiset(xs);
      }
    }
    out := [];
    var cur := sorted[0];
    for i := 1 to |sorted|
      invariant cur.r <= U128_MAX
      invariant out + Sweep(cur, sorted[i..]) == Sweep(sorted[0], sorted[1..])
    {
      var nx := sorted[i];
      var adjacent := false;
      if cur.r != U128_MAX {
        assert cur.r + 1 <= U128_MAX; // cur.r + 1 does not wrap here
        adjacent := nx.l == cur.r + 1;
      }
      var overlap := nx.l <= cur.r;
      SweepStep(out, cur, sorted[i..], Sweep(sorted[0], sorted[1..]));
      assert sorted[i..][1..] == sorted[i + 1..];
      if overlap || adjacent {
        if nx.r > cur.r {
          cur := cur.(r := nx.r);
        }
      } else {
        out := out + [cur];
        cur := nx;
      }
    }
    out := out + [cur];
  }

  // ---------------------------------------------------------------------------
  // Properties of the output

  /** Every interval is well formed, and each is followed by a gap: it ends
      below `U128_MAX` and more than one address before the next one starts. */
  predicate Separated(out: seq<Interval>)
  {
    (forall i :: 0 <= i < |out| ==> out[i].l <= out[i].r <= U128_MAX) &&
    (forall i :: 0 <= i < |out| - 1 ==> out[i].r < U128_MAX && out[i].r + 1 < out[i + 1].l)
  }

  /** Every interval is well formed and fits in 128 bits (`Interval128`). */
  predicate AllValid(xs: seq<Interval>)
  {
    forall i :: 0 <= i < |xs| ==> xs[i].l <= xs[i].r <= U128_MAX
  }

  /** The sweep's view of its input: `cur` starts no later than the rest, and
      the rest is sorted. */
  predicate SweepReady(cur: Interval, rest: seq<Interval>)
  {
    cur.l <= cur.r <= U128_MAX && AllValid(rest) && Sorted(rest) &&
    (rest != [] ==> cur.l <= rest[0].l)
  }

  lemma {:induction false} SweepStart(cur: Interval, rest: seq<Interval>)
    ensures Sweep(cur, rest) != [] && Sweep(cur, rest)[0].l == cur.l
    decreases |rest|
  {
    if rest != [] {
      if Mergeable(cur, rest[0]) {
        SweepStart(Interval(cur.l, if rest[0].r > cur.r then rest[0].r else cur.r), rest[1..]);
      } else {
        SweepStart(rest[0], rest[1..]);
      }
    }
  }

  /** Stepping the sweep keeps its input in shape. */
  lemma SweepReadyStep(cur: Interval, rest: seq<Interval>)
    requires SweepReady(cur, rest) && rest != []
    ensures Mergeable(cur, rest[0]) ==>
      SweepReady(Interval(cur.l, if rest[0].r > cur.r then rest[0].r else cur.r), rest[1..])
    ensures !Mergeable(cur, rest[0]) ==> SweepReady(rest[0], rest[1..])
    ensures !Mergeable(cur, rest[0]) ==> cur.r < U128_MAX && cur.r + 1 < rest[0].l
  {
    if |rest| > 1 {
      assert LexLeq(rest[0], rest[1]);
    }
  }

  /** From sorted, well-formed input the sweep produces separated output. */
  lemma {:induction false} SweepSeparated(cur: Interval, rest: seq<Interval>)
    requires SweepReady(cur, rest)
    ensures Separated(Sweep(cur, rest))
    decreases |rest|
  {
    if rest != [] {
      SweepReadyStep(cur, rest);
      if Mergeable(cur, rest[0]) {
        SweepSeparated(Interval(cur.l, if rest[0].r > cur.r then rest[0].r else cur.r), rest[1..]);
      } else {
        SweepSeparated(rest[0], rest[1..]);
        SweepStart(rest[0], rest[1..]);
      }
    }
  }

  /** The normaliser's output is well formed, sorted, and separated by gaps. */
  lemma NormalizedSeparated(xs: seq<Interval>)
    requires AllValid(xs)
    ensures Separated(Normalized(xs))
  {
    if xs != [] {
      var s := SortIntervals(xs);
      SortedValid(xs);
      if |s| > 1 {
        assert LexLeq(s[0], s[1]);
      }
      SweepSeparated(s[0], s[1..]);
    }
  }

  /** Sorting keeps every interval, so it keeps every property that holds of
      all of them. */
  lemma SortedValid(xs: seq<Interval>)
    requires AllValid(xs)
    ensures AllValid(SortIntervals(xs))
  {
    var s := SortIntervals(xs);
    forall i | 0 <= i < |s| ensures s[i].l <= s[i].r <= U128_MAX {
      assert s[i] in multiset(xs);
    }
  }

  /** Separated intervals are pairwise disjoint, ascending and non-adjacent. */
  lemma {:induction false} SeparatedAscending(out: seq<Interval>, i: nat, j: nat)
    requires Separated(out) && i < j < |out|
    ensures out[i].r + 1 < out[j].l
    decreases j - i
  {
    if i + 1 < j {
      SeparatedAscending(out, i + 1, j);
    }
  }

  // ---------------------------------------------------------------------------
  // The covered addresses are preserved

  lemma CoveredConcat(s: seq<Interval>, t: seq<Interval>, a: nat)
    ensures Covered(s + t, a) <==> Covered(s, a) || Covered(t, a)
  {
    if Covered(s + t, a) {
      var i :| 0 <= i < |s + t| && (s + t)[i].l <= a <= (s + t)[i].r;
      if i >= |s| {
        assert t[i - |s|] == (s + t)[i];
      }
    }
    if Covered(s, a) {
      var i :| 0 <= i < |s| && s[i].l <= a <= s[i].r;
      assert (s + t)[i] == s[i];
    }
    if Covered(t, a) {
      var i :| 0 <= i < |t| && t[i].l <= a <= t[i].r;
      assert (s + t)[i + |s|] == t[i];
    }
  }

  lemma CoveredPermutation(s: seq<Interval>, t: seq<Interval>, a: nat)
    requires multiset(s) == multiset(t)
    ensures Covered(s, a) <==> Covered(t, a)
  {
    if Covered(s, a) {
      var i :| 0 <= i < |s| && s[i].l <= a <= s[i].r;
      assert s[i] in multiset(t);
      var j :| 0 <= j < |t| && t[j] == s[i];
    }
    if Covered(t, a) {
      var i :| 0 <= i < |t| && t[i].l <= a <= t[i].r;
      assert t[i] in multiset(s);
      var j :| 0 <= j < |s| && s[j] == t[i];
    }
  }

  /** The sweep covers what the running interval and the rest cover. */
  lemma {:induction false} SweepCovers(cur: Interval, rest: seq<Interval>, a: nat)
    requires SweepReady(cur, rest)
    ensures Covered(Sweep(cur, rest), a) <==> (cur.l <= a <= cur.r || Covered(rest, a))
    decreases |rest|
  {
    if rest == [] {
      assert [cur][0] == cur;
    } else {
      var nx, tail := rest[0], rest[1..];
      assert rest == [nx] + tail;
      CoveredConcat([nx], tail, a);
      assert Covered([nx], a) <==> nx.l <= a <= nx.r by { assert [nx][0] == nx; }
      SweepReadyStep(cur, rest);
      if Mergeable(cur, nx) {
        SweepCovers(Interval(cur.l, if nx.r > cur.r then nx.r else cur.r), tail, a);
      } else {
        SweepCovers(nx, tail, a);
        CoveredConcat([cur], Sweep(nx, tail), a);
        assert Covered([cur], a) <==> cur.l <= a <= cur.r by { assert [cur][0] == cur; }
      }
    }
  }

  /** `union_normalize` keeps exactly the set of covered addresses. */
  lemma NormalizedCovers(xs: seq<Interval>, a: nat)
    requires AllValid(xs)
    ensures Covered(Normalized(xs), a) <==> Covered(xs, a)
  {
    if xs != [] {
      var s := SortIntervals(xs);
      SortedValid(xs);
      if |s| > 1 {
        assert LexLeq(s[0], s[1]);
      }
      SweepCovers(s[0], s[1..], a);
      assert s == [s[0]] + s[1..];
      CoveredConcat([s[0]], s[1..], a);
      assert Covered([s[0]], a) <==> s[0].l <= a <= s[0].r by { assert [s[0]][0] == s[0]; }
      CoveredPermutation(s, xs, a);
    }
  }

  // ---------------------------------------------------------------------------
  // Fixed points and idempotence

  /** The sweep leaves separated input alone. */
  lemma {:induction false} SweepFixed(cur: Interval, rest: seq<Interval>)
    requires Separated([cur] + rest)
    ensures Sweep(cur, rest) == [cur] + rest
    decreases |rest|
  {
    if rest != [] {
      assert ([cur] + rest)[1] == rest[0];
      assert ([cur] + rest)[0] == cur;
      assert Separated(rest) by {
        forall i | 0 <= i < |rest| - 1 ensures rest[i].r < U128_MAX && rest[i].r + 1 < rest[i + 1].l {
          assert ([cur] + rest)[i + 1] == rest[i];
          assert ([cur] + rest)[i + 2] == rest[i + 1];
        }
        forall i | 0 <= i < |rest| ensures rest[i].l <= rest[i].r <= U128_MAX {
          assert ([cur] + rest)[i + 1] == rest[i];
        }
      }
      assert [rest[0]] + rest[1..] == rest;
      SweepFixed(rest[0], rest[1..]);
    }
  }

  lemma SeparatedSorted(out: seq<Interval>)
    requires Separated(out)
    ensures Sorted(out)
  {
  }

  /** The normaliser's fixed points are exactly the separated sequences. */
  lemma NormalizedFixedPoints(ys: seq<Interval>)
    requires AllValid(ys)
    ensures Normalized(ys) == ys <==> Separated(ys)
  {
    if Separated(ys) && ys != [] {
      SeparatedSorted(ys);
      SortSorted(ys);
      assert [ys[0]] + ys[1..] == ys;
      SweepFixed(ys[0], ys[1..]);
    }
    NormalizedSeparated(ys);
  }

  /** Normalising twice is normalising once. */
  lemma NormalizedIdempotent(xs: seq<Interval>)
    requires AllValid(xs)
    ensures Normalized(Normalized(xs)) == Normalized(xs)
  {
    NormalizedSeparated(xs);
    NormalizedFixedPoints(Normalized(xs));
  }

  /** Empty input gives empty output, and only empty input does. */
  lemma NormalizedEmpty(xs: seq<Interval>)
    ensures Normalized(xs) == [] <==> xs == []
  {
    if xs != [] {
      var s := SortIntervals(xs);
      assert |s| == |xs| by { assert |multiset(s)| == |multiset(xs)|; }
      SweepStart(s[0], s[1..]);
    }
  }

  // ---------------------------------------------------------------------------
  // Bounds: the 32-bit family stays in 32 bits

  predicate AllBelow(xs: seq<Interval>, bound: nat)
  {
    forall i :: 0 <= i < |xs| ==> xs[i].r < bound
  }

  lemma {:induction false} SweepBelow(cur: Interval, rest: seq<Interval>, bound: nat)
    requires cur.r < bound && AllBelow(rest, bound)
    ensures AllBelow(Sweep(cur, rest), bound)
    decreases |rest|
  {
    if rest != [] {
      if Mergeable(cur, rest[0]) {
        SweepBelow(Interval(cur.l, if rest[0].r > cur.r then rest[0].r else cur.r), rest[1..], bound);
      } else {
        SweepBelow(rest[0], rest[1..], bound);
      }
    }
  }

  /** Every output interval ends below any bound all input intervals end below;
      for IPv4 input the results fit back into 32 bits. */
  lemma NormalizedBelow(xs: seq<Interval>, bound: nat)
    requires AllBelow(xs, bound)
    ensures AllBelow(Normalized(xs), bound)
  {
    if xs != [] {
      var s := SortIntervals(xs);
      forall i | 0 <= i < |s| ensures s[i].r < bound {
        assert s[i] in multiset(xs);
      }
      SweepBelow(s[0], s[1..], bound);
    }
  }
}
