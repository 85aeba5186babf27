# Axelrod cultural-dissemination lattice, modelled in Dafny

This project models the engine of an Axelrod culture simulation written in Rust. A `width` x `height`
lattice of individuals is held as `territory[x][y]`. Each individual has a location, a vector of
`num_features` cultural features drawn from `0..num_traits`, and a list of 4-connected neighbours
fixed when it is built. One simulation round picks a focal cell, picks one of its neighbours,
takes a value copy of that neighbour, and lets the focal individual `interact` with the copy.
`interact` flips a coin that comes up true with probability "matching features / features". On
true it copies one feature from the neighbour. The model also covers `add_random` and `main`.

Modules, one per concern:

- `Ints` (`ints.dfy`): the `u32` and `i32` of the source, as newtypes. Every subtraction or
  addition that could overflow is modelled as a failure, the way a debug build panics.
- `Wrappers` (`wrappers.dfy`): `Option`.
- `Rng` (`rng.dfy`): the library calls `gen_range`, `SliceRandom::choose`,
  `Bernoulli::from_ratio` and `Bernoulli::sample`, with only the contracts the core relies on.
  Every `Pcg64::seed_from_u64(42)` in `src/lib.rs` makes a fresh generator. What it returns
  therefore depends only on the query, and a `Seed42` value records those answers. The same
  value reaches every call, which is what reseeding means: all individuals draw identical
  features, and the neighbour choice depends only on the neighbour list.
- `Topology` (`topology.dfy`): the guarded `match` of `Individual::new` as the function
  `NeighborMatch(loc, w, h)`, where `w = width - 1` and `h = height - 1`. It keeps the literal
  `9` and `8` of two corners. `NeighborsIntended` is the corrected version. The lemmas cover
  what holds on every lattice and what holds only on the 10 x 10 lattice.
- `Interaction` (`interaction.dfy`): `interact` on values. This covers the numerator, the
  candidate-index filter as written (`MatchingIndices`) and as intended (`DifferingIndices`),
  the as-written interaction `InteractAsWritten` and the intended one `InteractIntended`.
- `Lattice` (`lattice.dfy`): `SimulationConfig`, and `Individual` and `Territory` as classes.
  `Individual.features` is the field that `interact` overwrites in place. `Territory::new` is a
  constructor built from nested loops. The one round of `main` is `Territory.Round`, and the
  round loop is `Territory.Rounds`.
- `Program` (`program.dfy`): `add_random` and `main`.

Randomness, panics and I/O:

- The `main` generator (seed 50) is shared. Its output is passed in as draw sequences: first the
  ten `add_random` draws, then one `(x, y)` pair per round.
- A Rust panic becomes one of two things. It is a `requires` where the caller can rule it out.
  The conditions for `Individual::new` and `Territory::new` to run are `IndividualBuildable`
  and `TerritoryBuildable`. Elsewhere it is an explicit failure value: `None` in
  `NeighborMatch` and `AddRandom`, and `ok == false` in `Round` and `Rounds`, with nothing
  changed.
- `SimulationConfig::new`, `Point::new`, `Point::x` and `Point::y` are the datatype constructors
  and field selectors. The casts from `u32` to `usize` only widen.

The usual statement of Axelrod's model differs from this code in several points. The model
follows the code in each of them:

- In the usual model, one random generator is threaded through the whole run. The code reseeds
  with 42 in `Individual::new`, `choose_random_neighbor` and `interact`.
- In the usual model, two identical cultures do not interact, and a neighbour is skipped without
  drawing anything. The code has no such early return. With identical cultures the Bernoulli coin
  has probability 1. The filter is then non-empty, because it keeps the EQUAL positions.
- In the usual model, the feature adopted is one where the two cultures differ. The code picks
  among the equal ones; see Findings.
- A lattice narrower or lower than 2 cells has ill-defined corners. The code still builds most
  lattices. It panics in two cases:
  - at the far corner of a lattice exactly one cell wide or exactly one cell high (but not
    1 x 1), where a `u32` subtraction underflows;
  - on every non-empty lattice when `num_traits` is 0 and `num_features` is positive, because
    `gen_range(0..0)` at src/lib.rs:95 has no value to draw.
- Studies of the model usually report cluster labels, a culture histogram and the fraction of
  the largest cluster. The code computes none of these, so none is modelled.

As written, `interact` never changes a feature: the index it writes is one where both vectors
agree. `Territory.Round` and `Territory.Rounds` therefore provably leave every cell unchanged,
and `main`'s loop over `0..0` runs no round at all. The corrected definitions stand beside the
as-written ones and carry the intended properties. The round itself models the code as written,
because that is what `main` runs.

## Model

| member | source | states |
|---|---|---|
| `Rng.Choose` | src/lib.rs:136 | `choose` returns nothing exactly on an empty slice, and otherwise an element of the slice |
| `Rng.FromRatio` | src/lib.rs:151-152 | `from_ratio` fails exactly when the denominator is 0 or the numerator exceeds it |
| `Rng.Sample` | src/lib.rs:151-153 | the coin is true when numerator equals denominator and false when the numerator is 0 |
| `Topology.NeighborMatch` | src/lib.rs:100-128 | the guarded match, with `None` for the arm whose subtraction underflows; its contract is in `MatchUndefinedIff`, `EmptyIffOutOfGrid`, `NeighborCount`, `MatchIsNeighborhood` and the two corner lemmas |
| `Topology.NeighborsOf` | src/lib.rs:97-128 | `w` and `h` computed by the subtractions at 97-98, `None` when one underflows, then the match; the lemmas of `NeighborMatch` at `width - 1` and `height - 1` describe its lists, and `TerritoryBuildableIff` says when it is defined for every cell |
| `Topology.NeighborsIntended` | src/lib.rs:100-128 | the match with the corners (1, h), (w, 1) and (w - 1, 0) in place of the literals; its contract is in `NeighborsIntendedExact` and `TenByTenAgrees` |
| `Topology.MatchUndefinedIff` | src/lib.rs:100-128 | the match panics exactly at cell (w, h) when exactly one of w and h is 0 |
| `Topology.EmptyIffOutOfGrid` | src/lib.rs:127 | the empty fallback list is produced exactly for locations outside the lattice |
| `Topology.NeighborCount` | src/lib.rs:100-125 | on a lattice of at least 2 x 2 every cell gets a list without repeats: 2 entries at the four corners, 3 on other border cells, 4 inside |
| `Topology.MatchIsNeighborhood` | src/lib.rs:100-125 | away from corners (0, h) and (w, 0), the list holds exactly the in-lattice cells at Manhattan distance 1 |
| `Topology.BottomLeftCornerIff` | src/lib.rs:104 | corner (0, h) gets exactly its true neighbours if and only if the lattice is 10 high |
| `Topology.TopRightCornerIff` | src/lib.rs:105 | corner (w, 0) gets exactly its true neighbours if and only if the lattice is 10 wide |
| `Topology.ThreeByThreeCornerEscapes` | src/lib.rs:104 | on a 3 x 3 lattice corner (0, 2) lists (1, 9), a cell outside the lattice |
| `Topology.TenByTenAgrees` | src/lib.rs:104-105 | on the 10 x 10 lattice the literal corners equal the symmetric ones for every location |
| `Topology.NeighborsIntendedExact` | src/lib.rs:100-125 | the corrected match lists, for every cell of every lattice of at least 2 x 2, exactly its in-lattice side neighbours, each once |
| `Topology.TenByTenNeighborsValid` | src/lib.rs:100-125 | on the 10 x 10 lattice every listed neighbour of every cell is in the lattice and adjacent |
| `Interaction.Numerator` | src/lib.rs:144-149 | the numerator is at most both lengths, and it reaches the shorter length exactly when the zipped prefixes are equal |
| `Interaction.MatchingIndices` | src/lib.rs:157-162 | the list `different_characteristics` as written; its contract is in `MatchingIndicesSpec` and `FilterCounterexample` |
| `Interaction.DifferingIndices` | src/lib.rs:157-162 | the corrected list, keeping `m != t`; its contract is in `DifferingIndicesSpec` |
| `Interaction.MatchingIndicesSpec` | src/lib.rs:157-162 | the list called `different_characteristics` holds, in increasing order, exactly the positions where the two features are EQUAL, and its length is the numerator |
| `Interaction.DifferingIndicesSpec` | src/lib.rs:157-162 | the corrected list holds exactly the differing positions; its length plus the numerator is the zipped length |
| `Interaction.InteractAsWritten` | src/lib.rs:144-165 | `interact` on values: numerator, coin, filtered list, chosen index, write; its contract is in `InteractAsWrittenIsIdentity`, and `Lattice.Individual.Interact` is proved equal to it |
| `Interaction.InteractIntended` | src/lib.rs:144-165 | the corrected `interact`, with the early return and the `m != t` filter; its contract is in `InteractIntendedAdopts` |
| `Interaction.InteractAsWrittenIsIdentity` | src/lib.rs:151-165 | for every input and every coin or index the generator yields, `interact` leaves the feature vector as it was; a true coin implies a non-empty list, so the second `unwrap` cannot fail |
| `Interaction.InteractIntendedAdopts` | src/lib.rs:155-165 | the corrected interaction changes at most one feature, only where the two differed, to the neighbour's value; it changes one exactly when they differ and the coin is true, and the similarity then grows by one |
| `Interaction.FilterCounterexample` | src/lib.rs:159-160 | on [0, 1] and [0, 2] the as-written list is [0], while the differing position is 1 |
| `Lattice.FeatureDraws` | src/lib.rs:94-95 | the `num_features` draws of a fresh seed-42 generator, of exactly that length; its range is stated by `FeatureDrawsInRange` |
| `Lattice.IndividualBuildable` | src/lib.rs:94-128 | `Individual::new` does not panic: no draw from an empty trait range at 95 and no underflow at 97-98 or in the match; `TerritoryBuildableIff` relates it to the lattice |
| `Lattice.TerritoryBuildable` | src/lib.rs:54-67 | `Territory::new` does not panic; `TerritoryBuildableIff` proves it holds exactly when every cell's `Individual::new` does |
| `Lattice.FeatureDrawsInRange` | src/lib.rs:92-95 | every drawn feature is below `num_traits`, and with one trait every feature is 0 |
| `Lattice.TerritoryBuildableIff` | src/lib.rs:57-64 | `Territory::new` completes exactly when `Individual::new` completes for every cell of the lattice |
| `Lattice.Individual.constructor` | src/lib.rs:91-131 | the individual keeps its location; its features are the draws of a fresh seed-42 generator; its neighbours are the match's list |
| `Lattice.Individual.Snapshot` | src/lib.rs:75-79 | the clone has the given location, a copy of the features and no neighbours |
| `Lattice.Individual.ChooseRandomNeighbor` | src/lib.rs:133-137 | the chosen point is one of the individual's neighbours; it is a function of the list alone |
| `Lattice.Individual.Interact` | src/lib.rs:139-170 | the in-place write leaves the features equal to the as-written interaction of the old vectors, that is, unchanged |
| `Lattice.Territory.constructor` | src/lib.rs:54-70 | exactly `width` columns of `height` fresh individuals, cell (x, y) located at (x, y) with the match's neighbours, never an empty list, so `choose(..).unwrap()` at src/lib.rs:136 cannot panic; all feature vectors are the same seed-42 draws, of length `num_features`, with entries below `num_traits` |
| `Lattice.Territory.NewColumns` | src/lib.rs:57-67 | the outer loop yields `width` columns, column i built as `NewColumn` builds it, all of fresh individuals |
| `Lattice.Territory.NewColumn` | src/lib.rs:59-64 | column x holds `height` fresh individuals at (x, 0) to (x, height - 1) |
| `Lattice.Territory.ReturnNeighborClone` | src/lib.rs:72-80 | a fresh individual at the given location with that cell's features and no neighbours; the territory is only read |
| `Lattice.Territory.TenByTenRoundOk` | src/lib.rs:73 | on the 10 x 10 lattice every neighbour a round chooses is in the lattice, so the indexing cannot panic |
| `Lattice.Territory.Round` | src/main.rs:26-33 | a round completes exactly when the chosen neighbour is in the lattice and vectors are non-empty; only the focal cell may change, equal to the as-written interaction with a snapshot taken before the write; no feature of any cell changes |
| `Lattice.Territory.TenByTenRoundsOk` | src/main.rs:23-34 | on the 10 x 10 lattice every sequence of rounds runs to its end |
| `Lattice.Territory.Rounds` | src/main.rs:23-34 | the rounds all complete exactly when each one does; the territory's features are unchanged |
| `Program.AddRandom` | src/main.rs:5-10 | the result is `val + r` with r from 1 to 10; it fails exactly on i32 overflow |
| `Program.MainConfigSound` | src/main.rs:13 | the configuration 5, 10, 10, 10 builds without panicking and is the 10 x 10 lattice |
| `Program.Run` | src/main.rs:12-36 | the printed sums are `i + r_i`; the territory at the end is the freshly built 10 x 10 one with unchanged features, on which every sequence of in-lattice rounds would run to its end |

## Left out

- The generator internals: the PCG state, `seed_from_u64`, the range reduction of `gen_range`, and the index choice of `choose`. `Rng.Seed42` and the draw sequences carry only their range, membership and edge-case contracts.
- The floating-point probability inside `Bernoulli` (`numerator / denominator` scaled to `u64`). Only its two exact cases are modelled: probability 0 is false and probability 1 is true.
- `Lattice.Individual.Interact`: does not model the truncating `as u32` casts of `numerator` and `denominator` at src/lib.rs:151. It requires vectors of at most `u32::MAX` features, which every vector built from a `u32` count satisfies.
- A panic aborts the process in the source. In the model the failing round returns `ok == false` and changes nothing. Rust release builds, where arithmetic wraps instead of panicking, are not modelled.
- Rust ownership: `Vec<Vec<Individual>>` owns its values. In the model the cells are distinct objects. Distinctness follows from each cell's fixed location, so a round's write cannot reach another cell.
- The `println!` output at src/lib.rs:156,166 and src/main.rs:7-8. The sums `add_random` prints are returned by `Program.Run` instead.
- The `#[cfg(Tests)]` module at src/lib.rs:173-179, which is `unimplemented!()` and checks nothing.
- `create_territory_image.py`: file and JSON loading and plotting.
- Cluster counting, labelling, the largest-cluster fraction, parameter sweeps and JSON output. The source has none of them.

## Findings

| source | as written | input that shows it | evidently intended | confidence | as-written member | corrected member |
|---|---|---|---|---|---|---|
| src/lib.rs:159-160 | the filter for "different characteristics" keeps the positions where `m == t`, so the write at line 165 copies a value onto itself and no interaction ever changes a feature | features [0, 1] against [0, 2]: the list is [0] | keep `m != t`, and return early when all features agree, since otherwise the list is empty and the `unwrap` at line 164 panics | high, not executed | `Interaction.InteractAsWrittenIsIdentity` | `Interaction.InteractIntendedAdopts` |
| src/lib.rs:104-105 | corner (0, h) lists (1, 9), and corner (w, 0) lists (9, 1) and (8, 0) | a 3 x 3 lattice: corner (0, 2) lists (1, 9), outside the lattice | (1, h), and (w, 1) and (w - 1, 0) | high, not executed | `Topology.BottomLeftCornerIff` | `Topology.NeighborsIntendedExact` |
