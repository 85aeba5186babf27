/**
 * The lattice of `src/lib.rs`: the configuration, the individuals and the territory that owns
 * them, `Territory::new`, `return_neighbor_clone`, `Individual::new`, `choose_random_neighbor`
 * and `interact`, and the one-round step that `main` writes inline (src/main.rs:26-33).
 */
module Lattice {
  import opened Ints
  import opened Wrappers
  import Rng
  import opened Topology
  import opened Interaction

  /** `SimulationConfig` (src/lib.rs:7-13); `SimulationConfig::new` is this constructor. */
  datatype SimulationConfig = SimulationConfig(numFeatures: u32, numTraits: u32, width: u32, height: u32)

  /** The vector collected at src/lib.rs:94-95 from a fresh generator: draw i of `gen_range(0..num_traits)`. */
  function FeatureDraws(config: SimulationConfig, s: Rng.Seed42): (r: seq<u32>)
    ensures |r| == config.numFeatures as int
  {
    seq(config.numFeatures as int, i requires 0 <= i => s.traitDraw(config.numTraits, i))
  }

  /** Every drawn feature is a trait below `num_traits`; with a single trait every feature is 0. */
  lemma FeatureDrawsInRange(config: SimulationConfig, s: Rng.Seed42)
    requires Rng.Valid(s) && (config.numFeatures > 0 ==> config.numTraits > 0)
    ensures forall k :: 0 <= k < |FeatureDraws(config, s)| ==> FeatureDraws(config, s)[k] < config.numTraits
    ensures config.numTraits == 1 ==> FeatureDraws(config, s) == seq(config.numFeatures as int, _ => 0)
  {
  }

  /**
   * `Individual::new` runs without panicking: `gen_range(0..0)` panics when a feature must be drawn
   * from no traits (src/lib.rs:95), and the subtractions at 97-98 and inside the match underflow.
   */
  predicate IndividualBuildable(location: Point, config: SimulationConfig)
  {
    (config.numFeatures > 0 ==> config.numTraits > 0) &&
    NeighborsOf(location, config.width, config.height).Some?
  }

  /** `Territory::new` runs without panicking. An empty lattice builds no individual at all. */
  predicate TerritoryBuildable(config: SimulationConfig)
  {
    config.width == 0 || config.height == 0 ||
    ((config.numFeatures > 0 ==> config.numTraits > 0) && (config.width == 1) == (config.height == 1))
  }

  /** The lattice builds exactly when every one of its cells does. */
  lemma TerritoryBuildableIff(config: SimulationConfig)
    ensures TerritoryBuildable(config) <==>
      forall x: u32, y: u32 :: x < config.width && y < config.height ==> IndividualBuildable(Point(x, y), config)
  {
    var w, h := config.width, config.height;
    if TerritoryBuildable(config) {
      forall x: u32, y: u32 | x < w && y < h
        ensures IndividualBuildable(Point(x, y), config)
      {
        MatchUndefinedIff(Point(x, y), w - 1, h - 1);
      }
    } else {
      if config.numFeatures > 0 && config.numTraits == 0 {
        assert !IndividualBuildable(Point(0, 0), config);
      } else {
        MatchUndefinedIff(Point(w - 1, h - 1), w - 1, h - 1);
        assert !IndividualBuildable(Point(w - 1, h - 1), config);
      }
    }
  }

  /** `Individual` (src/lib.rs:84-88). Its location and neighbours are never reassigned. */
  class Individual {
    const location: Point
    var features: seq<u32>
    const neighbors: seq<Point>

    /** `Individual::new` (src/lib.rs:91-131): features from a fresh seed-42 generator, neighbours from the match. */
    constructor (location: Point, config: SimulationConfig, s: Rng.Seed42)
      requires IndividualBuildable(location, config)
      ensures this.location == location
      ensures features == FeatureDraws(config, s)
      ensures NeighborsOf(location, config.width, config.height) == Some(neighbors)
    {
      this.location := location;
      features := FeatureDraws(config, s);
      neighbors := NeighborsOf(location, config.width, config.height).value;
    }

    /** The value built by `return_neighbor_clone` (src/lib.rs:75-79): a copy of the features and no neighbours. */
    constructor Snapshot(location: Point, features: seq<u32>)
      ensures this.location == location && this.features == features && neighbors == []
    {
      this.location := location;
      this.features := features;
      neighbors := [];
    }

    /**
     * `choose_random_neighbor` (src/lib.rs:133-137). The `unwrap` panics on an empty list. The
     * generator is reseeded with 42, so the pick depends on the list alone.
     */
    function ChooseRandomNeighbor(s: Rng.Seed42): (p: Point)
      requires neighbors != [] && Rng.Valid(s)
      ensures p in neighbors
    {
      Rng.Choose(neighbors, s.chooseIndex(|neighbors|)).value
    }

    /**
     * `interact` (src/lib.rs:139-170), writing the chosen feature in place. The `unwrap` of
     * `from_ratio` panics when the vector is empty.
     */
    method Interact(other: Individual, s: Rng.Seed42)
      requires CanInteract(features, s)
      modifies this
      ensures features == InteractAsWritten(old(features), old(other.features), s)
      ensures features == old(features)
    {
      var mine, theirs := features, other.features;
      var denominator := |mine|;
      var numerator := Numerator(mine, theirs);
      var isInteract := Rng.Sample(Rng.FromRatio(numerator as u32, denominator as u32).value, s);
      if isInteract {
        var candidates := MatchingIndices(mine, theirs);
        MatchingIndicesSpec(mine, theirs);
        var chosen := Rng.Choose(candidates, s.chooseAfterSample(numerator as u32, denominator as u32, |candidates|));
        var featureToMutate := chosen.value;
        features := features[featureToMutate := theirs[featureToMutate]];
      }
      InteractAsWrittenIsIdentity(mine, theirs, s);
    }
  }

  /** `Territory` (src/lib.rs:47-51): `territory[x][y]` is the individual at column x, row y. */
  class Territory {
    const width: u32
    const height: u32
    const territory: seq<seq<Individual>>

    /**
     * The shape built by `Territory::new`: width columns of height cells, each knowing its place
     * and having at least one neighbour, so that `choose_random_neighbor` does not panic.
     */
    ghost predicate Valid()
    {
      |territory| == width as int &&
      (forall x :: 0 <= x < |territory| ==> |territory[x]| == height as int) &&
      (forall x, y :: 0 <= x < |territory| && 0 <= y < |territory[x]| ==>
        territory[x][y].location.x as int == x && territory[x][y].location.y as int == y &&
        territory[x][y].neighbors != [])
    }

    /** Every cell's neighbour list is the one the match of `Individual::new` gives its location. */
    ghost predicate NeighborsExact()
    {
      forall x, y :: 0 <= x < |territory| && 0 <= y < |territory[x]| ==>
        NeighborsOf(territory[x][y].location, width, height) == Some(territory[x][y].neighbors)
    }

    ghost function Cells(): set<Individual>
    {
      set x, y | 0 <= x < |territory| && 0 <= y < |territory[x]| :: territory[x][y]
    }

    /** Every feature vector has `num_features` entries, each a trait below `num_traits`. */
    ghost predicate FeaturesOk(config: SimulationConfig)
      reads Cells()
    {
      forall x, y :: 0 <= x < |territory| && 0 <= y < |territory[x]| ==>
        |territory[x][y].features| == config.numFeatures as int &&
        forall k :: 0 <= k < |territory[x][y].features| ==> territory[x][y].features[k] < config.numTraits
    }

    /** `Territory::new` (src/lib.rs:54-70): column by column, row by row, one `Individual::new` per cell. */
    constructor (config: SimulationConfig, s: Rng.Seed42)
      requires TerritoryBuildable(config)
      ensures width == config.width && height == config.height
      ensures Valid() && NeighborsExact()
      ensures forall x, y :: 0 <= x < |territory| && 0 <= y < |territory[x]| ==>
        territory[x][y].features == FeatureDraws(config, s)
      ensures Rng.Valid(s) ==> FeaturesOk(config)
      ensures fresh(Cells())
    {
      TerritoryBuildableIff(config);
      var columns := NewColumns(config, s);
      width := config.width;
      height := config.height;
      territory := columns;
      new;
      assert forall i :: 0 <= i < |territory| ==> ColumnBuilt(territory[i], i, config, s);
      forall x, y | 0 <= x < |territory| && 0 <= y < |territory[x]|
        ensures territory[x][y].neighbors != []
      {
        assert ColumnBuilt(territory[x], x, config, s);
        EmptyIffOutOfGrid(territory[x][y].location, width - 1, height - 1);
      }
      if Rng.Valid(s) && config.width > 0 && config.height > 0 {
        FeatureDrawsInRange(config, s);
      }
    }

    /** The outer loop of `Territory::new` (src/lib.rs:57-67): the columns 0 to width - 1. */
    static method NewColumns(config: SimulationConfig, s: Rng.Seed42) returns (columns: seq<seq<Individual>>)
      requires forall x: u32, y: u32 :: x < config.width && y < config.height ==> IndividualBuildable(Point(x, y), config)
      ensures |columns| == config.width as int
      ensures forall i :: 0 <= i < |columns| ==> ColumnBuilt(columns[i], i, config, s)
      ensures forall i, j :: 0 <= i < |columns| && 0 <= j < |columns[i]| ==> fresh(columns[i][j])
    {
      columns := [];
      var x: u32 := 0;
      while x < config.width
        invariant x <= config.width && |columns| == x as int
        invariant forall i :: 0 <= i < |columns| ==> ColumnBuilt(columns[i], i, config, s)
        invariant forall i, j :: 0 <= i < |columns| && 0 <= j < |columns[i]| ==> fresh(columns[i][j])
      {
        var column := NewColumn(x, config, s);
        columns := columns + [column];
        x := x + 1;
      }
    }

    /** Column i as `Territory::new` builds it: height cells (i, j) with their neighbours and the drawn features. */
    static ghost predicate ColumnBuilt(column: seq<Individual>, i: int, config: SimulationConfig, s: Rng.Seed42)
      reads set j | 0 <= j < |column| :: column[j]
    {
      |column| == config.height as int &&
      forall j :: 0 <= j < |column| ==>
        column[j].location.x as int == i && column[j].location.y as int == j &&
        NeighborsOf(column[j].location, config.width, config.height) == Some(column[j].neighbors) &&
        column[j].features == FeatureDraws(config, s)
    }

    /** The inner loop of `Territory::new` (src/lib.rs:59-64): the vector of column x. */
    static method NewColumn(x: u32, config: SimulationConfig, s: Rng.Seed42) returns (column: seq<Individual>)
      requires x < config.width
      requires forall y: u32 :: y < config.height ==> IndividualBuildable(Point(x, y), config)
      ensures forall j :: 0 <= j < |column| ==> fresh(column[j])
      ensures ColumnBuilt(column, x as int, config, s)
    {
      column := [];
      var y: u32 := 0;
      while y < config.height
        invariant y <= config.height && |column| == y as int
        invariant forall j :: 0 <= j < |column| ==> fresh(column[j])
        invariant forall j :: 0 <= j < |column| ==>
          column[j].location == Point(x, j as u32) &&
          NeighborsOf(column[j].location, config.width, config.height) == Some(column[j].neighbors) &&
          column[j].features == FeatureDraws(config, s)
      {
        var individual := new Individual(Point(x, y), config, s);
        column := column + [individual];
        y := y + 1;
      }
    }

    /** `return_neighbor_clone` (src/lib.rs:72-80). Indexing panics outside the lattice; the territory is only read. */
    method ReturnNeighborClone(location: Point) returns (neighbor: Individual)
      requires Valid() && location.x < width && location.y < height
      ensures fresh(neighbor)
      ensures neighbor.location == location && neighbor.neighbors == []
      ensures neighbor.features == territory[location.x][location.y].features
    {
      var cell := territory[location.x][location.y];
      neighbor := new Individual.Snapshot(location, cell.features);
    }

    /**
     * A round at (x, y) runs to its end: the neighbour `choose_random_neighbor` picks lies in the
     * lattice, so the indexing at src/lib.rs:73 succeeds, and the vectors are non-empty, so
     * `from_ratio` at 151 succeeds.
     */
    ghost predicate RoundOk(config: SimulationConfig, x: u32, y: u32, s: Rng.Seed42)
    {
      x as int < |territory| && y as int < |territory[x]| &&
      var neighbors := territory[x][y].neighbors;
      var i := s.chooseIndex(|neighbors|);
      config.numFeatures >= 1 && i < |neighbors| && neighbors[i].x < width && neighbors[i].y < height
    }

    /** Each of the first n rounds, one per drawn focal cell, runs to its end. */
    ghost predicate RoundsOk(config: SimulationConfig, draws: seq<(u32, u32)>, n: nat, s: Rng.Seed42)
    {
      forall m :: 0 <= m < n && m < |draws| ==> RoundOk(config, draws[m].0, draws[m].1, s)
    }

    /** On the 10 x 10 lattice every neighbour a round can choose lies in the lattice. */
    lemma TenByTenRoundOk(config: SimulationConfig, x: u32, y: u32, s: Rng.Seed42)
      requires Valid() && NeighborsExact() && width == 10 && height == 10 && x < 10 && y < 10
      requires Rng.Valid(s) && config.numFeatures >= 1
      ensures RoundOk(config, x, y, s)
    {
      var cell := territory[x][y];
      TenByTenNeighborsValid(cell.location);
      assert InGrid(cell.ChooseRandomNeighbor(s), 9, 9);
    }

    /**
     * One round of `main` (src/main.rs:26-33) at the drawn focal cell (x, y): choose a neighbour,
     * snapshot it, let the focal individual interact with the snapshot. `ok` is false where the
     * source panics, and then nothing has changed. Only the focal cell may change, and as the
     * interaction is written no feature changes at all.
     */
    method Round(config: SimulationConfig, x: u32, y: u32, s: Rng.Seed42) returns (ok: bool)
      requires Valid() && config.width == width && config.height == height
      requires FeaturesOk(config) && Rng.Valid(s)
      requires x < width && y < height
      modifies territory[x][y]
      ensures ok == RoundOk(config, x, y, s)
      ensures ok ==> var n := territory[x][y].ChooseRandomNeighbor(s);
        territory[x][y].features ==
          InteractAsWritten(old(territory[x][y].features), old(territory[n.x][n.y].features), s)
      ensures forall i, j :: 0 <= i < |territory| && 0 <= j < |territory[i]| ==>
        territory[i][j].features == old(territory[i][j].features)
    {
      var chosen := territory[x][y];
      var locNeighbor := chosen.ChooseRandomNeighbor(s);
      if !(locNeighbor.x < width && locNeighbor.y < height) {
        return false;
      }
      var neighbor := ReturnNeighborClone(locNeighbor);
      if |chosen.features| == 0 {
        return false;
      }
      chosen.Interact(neighbor, s);
      ok := true;
    }

    /** On the 10 x 10 lattice of `main` every sequence of rounds runs to its end. */
    lemma TenByTenRoundsOk(config: SimulationConfig, draws: seq<(u32, u32)>, s: Rng.Seed42)
      requires Valid() && NeighborsExact() && width == 10 && height == 10
      requires Rng.Valid(s) && config.numFeatures >= 1
      requires forall k :: 0 <= k < |draws| ==> draws[k].0 < width && draws[k].1 < height
      ensures RoundsOk(config, draws, |draws|, s)
    {
      forall m | 0 <= m < |draws|
        ensures RoundOk(config, draws[m].0, draws[m].1, s)
      {
        TenByTenRoundOk(config, draws[m].0, draws[m].1, s);
      }
    }

    /**
     * The round loop of `main` (src/main.rs:23-34), one round per drawn focal cell, ending at the
     * first round that panics. No feature of any cell changes.
     */
    method Rounds(config: SimulationConfig, draws: seq<(u32, u32)>, s: Rng.Seed42) returns (ok: bool)
      requires Valid() && config.width == width && config.height == height
      requires FeaturesOk(config) && Rng.Valid(s)
      requires forall k :: 0 <= k < |draws| ==> draws[k].0 < width && draws[k].1 < height
      modifies Cells()
      ensures ok <==> RoundsOk(config, draws, |draws|, s)
      ensures forall i, j :: 0 <= i < |territory| && 0 <= j < |territory[i]| ==>
        territory[i][j].features == old(territory[i][j].features)
    {
      var k := 0;
      while k < |draws|
        invariant 0 <= k <= |draws|
        invariant RoundsOk(config, draws, k, s)
        invariant forall i, j :: 0 <= i < |territory| && 0 <= j < |territory[i]| ==>
          territory[i][j].features == old(territory[i][j].features)
        invariant FeaturesOk(config)
      {
        var roundOk := Round(config, draws[k].0, draws[k].1, s);
        if !roundOk {
          return false;
        }
        k := k + 1;
      }
      ok := true;
    }
  }
}
