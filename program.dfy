/**
 * `src/main.rs`: `add_random` and `main`. The generator seeded with 50 is shared and consumed in
 * order: first the ten draws of `add_random`, then two coordinate draws per round. Its output is
 * given as those draw sequences.
 */
module Program {
  import opened Ints
  import opened Wrappers
  import Rng
  import opened Lattice

  /** The configuration of src/main.rs:13: 5 features, 10 traits, a 10 x 10 lattice. */
  const MainConfig: SimulationConfig := SimulationConfig(5, 10, 10, 10)

  /**
   * `add_random` (src/main.rs:5-10) with its draw r of `gen_range(1..11)`: the sum is val plus
   * something from 1 to 10. None is an i32 overflow of `val + r`, which panics.
   */
  function AddRandom(val: i32, r: i32): (sum: Option<i32>)
    requires 1 <= r <= 10
    ensures sum.Some? <==> val as int + r as int <= I32_MAX
    ensures sum.Some? ==> val < sum.value && sum.value as int <= val as int + 10
    ensures sum.Some? ==> sum.value as int - val as int == r as int
  {
    if val as int + r as int <= I32_MAX then Some(val + r) else None
  }

  /** The configuration of `main` builds without panicking and is the 10 x 10 lattice with at least one feature. */
  lemma MainConfigSound()
    ensures TerritoryBuildable(MainConfig)
    ensures MainConfig.numFeatures >= 1 && MainConfig.width == 10 && MainConfig.height == 10
  {
  }

  /**
   * `main` (src/main.rs:12-36). `addDraws` are the generator's first ten draws; the values
   * `add_random` prints are returned as `sums`. The round loop is `0..0`, so no round runs and
   * the territory returned is the one `Territory::new` built. Had the loop run, every round over
   * in-lattice focal cells would have completed.
   */
  method Run(s: Rng.Seed42, addDraws: seq<i32>) returns (simulation: Territory, sums: seq<i32>)
    requires Rng.Valid(s)
    requires |addDraws| == 10 && forall k :: 0 <= k < 10 ==> 1 <= addDraws[k] <= 10
    ensures simulation.Valid() && simulation.NeighborsExact() && simulation.width == 10 && simulation.height == 10
    ensures simulation.FeaturesOk(MainConfig)
    ensures forall x, y :: 0 <= x < 10 && 0 <= y < 10 ==>
      simulation.territory[x][y].features == FeatureDraws(MainConfig, s)
    ensures |sums| == 10 && forall k :: 0 <= k < 10 ==> sums[k] as int == k + addDraws[k] as int
    ensures forall draws: seq<(u32, u32)> :: (forall k :: 0 <= k < |draws| ==> draws[k].0 < 10 && draws[k].1 < 10) ==>
      simulation.RoundsOk(MainConfig, draws, |draws|, s)
  {
    var config := MainConfig;
    simulation := new Territory(config, s);
    sums := [];
    for i := 0 to 10
      invariant |sums| == i
      invariant forall k :: 0 <= k < i ==> sums[k] as int == k + addDraws[k] as int
    {
      var sum := AddRandom(i as i32, addDraws[i]);
      sums := sums + [sum.value];
    }
    var ok := simulation.Rounds(config, [], s);
    MainConfigSound();
    forall draws: seq<(u32, u32)> | forall k :: 0 <= k < |draws| ==> draws[k].0 < 10 && draws[k].1 < 10
      ensures simulation.RoundsOk(MainConfig, draws, |draws|, s)
    {
      simulation.TenByTenRoundsOk(MainConfig, draws, s);
    }
  }
}
