/**
 * The random-number library calls of the core, with only the contracts the core relies on.
 *
 * Every `Pcg64::seed_from_u64(42)` in `src/lib.rs` builds a fresh generator, so what such a
 * generator answers to a query depends on the query alone. A `Seed42` value records those
 * answers; passing the same value to every call models the reseeding exactly. The generator's
 * internals (PCG state, widening-multiply range reduction, floating-point scaling) are not modelled.
 */
module Rng {
  import opened Ints
  import opened Wrappers

  datatype Seed42 = Seed42(
    /** `traitDraw(n, i)`: the i-th value of `gen_range(0..n)` on a fresh generator. */
    traitDraw: (u32, nat) -> u32,
    /** Index that `choose` picks in a slice of length n on a fresh generator. */
    chooseIndex: nat -> nat,
    /** Outcome of `Bernoulli::from_ratio(num, den).sample` when it needs a draw (num < den). */
    bernoulliDraw: (u32, u32) -> bool,
    /** Index that `choose` picks in a slice of length len after that sample. */
    chooseAfterSample: (u32, u32, nat) -> nat)

  /** The range and edge-case contracts of `gen_range`, `choose` and `Bernoulli`. */
  ghost predicate Valid(s: Seed42)
  {
    (forall n: u32, i: nat :: 0 < n ==> s.traitDraw(n, i) < n) &&
    (forall n: nat :: 0 < n ==> s.chooseIndex(n) < n) &&
    (forall d: u32 :: !s.bernoulliDraw(0, d)) &&
    (forall num: u32, den: u32, len: nat :: 0 < len ==> s.chooseAfterSample(num, den, len) < len)
  }

  /** `SliceRandom::choose`: None on an empty slice, otherwise the element at the drawn index. */
  function Choose<T>(xs: seq<T>, index: nat): (r: Option<T>)
    requires xs != [] ==> index < |xs|
    ensures r.None? <==> xs == []
    ensures r.Some? ==> r.value in xs
  {
    if xs == [] then None else Some(xs[index])
  }

  /** A Bernoulli distribution built from a ratio; `from_ratio` keeps the two integers. */
  datatype Bernoulli = Bernoulli(numerator: u32, denominator: u32)

  /** `Bernoulli::from_ratio`: an error unless the ratio is a probability. */
  function FromRatio(numerator: u32, denominator: u32): (r: Option<Bernoulli>)
    ensures r.Some? <==> 0 < denominator && numerator <= denominator
    ensures r.Some? ==> r.value.numerator <= r.value.denominator
  {
    if numerator > denominator || denominator == 0 then None
    else Some(Bernoulli(numerator, denominator))
  }

  /** `Bernoulli::sample`: probability 1 answers true without drawing; otherwise one draw. */
  function Sample(b: Bernoulli, s: Seed42): (coin: bool)
    requires Valid(s)
    ensures b.numerator == b.denominator ==> coin
    ensures b.numerator == 0 && b.denominator != 0 ==> !coin
  {
    if b.numerator == b.denominator then true else s.bernoulliDraw(b.numerator, b.denominator)
  }
}
