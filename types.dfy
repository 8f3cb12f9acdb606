/** The values that flow through the aggregation pipeline. */
module Types {
  import opened Bits

  datatype Option<T> = None | Some(value: T)

  /** A closed interval `[l, r]` of addresses (`Interval128`).  Both address
      families store their intervals in this one 128-bit record. */
  datatype Interval = Interval(l: nat, r: nat)

  /** A CIDR block `base/prefix` as the decomposer emits it. */
  datatype Cidr = Cidr(base: nat, prefix: int)

  /** `U128_MAX`, the all-ones 128-bit value. */
  const U128_MAX: nat := Pow2(128) - 1

  /** Some interval of `xs` contains the address `a`. */
  predicate Covered(xs: seq<Interval>, a: nat)
  {
    exists i :: 0 <= i < |xs| && xs[i].l <= a <= xs[i].r
  }
}
