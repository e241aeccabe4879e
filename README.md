# Geo-radius query planning, modelled in Dafny

This project models the planning arithmetic of the geographic filter of a
search engine's secondary index (`src/geo_index.c` with the types of
`src/geo_index.h`). A geo filter asks for every document whose stored point
lies within a radius of a center. The planner turns that into nine
lookups, some over slots the loop skipped, on a sorted numeric index keyed by 52-bit geohash scores. It does
this in four steps:

- **Distance units** (`GeoDistanceUnits`). The `GeoDistance` enumeration comes
  from an X-macro table: `KM`↔"km", `M`↔"m", `FT`↔"ft", `MI`↔"mi", plus the
  placeholder `INVALID` = -1. Built on that table are:
  - `GeoDistance_Parse`, a case-insensitive (`strcasecmp`) token lookup;
  - `GeoDistance_ToString`, which prints "<badunit>" for anything outside
    the table;
  - `extractUnitFactor`, giving meters per unit.
- **Score interval of a cell** (`GeoHashBox`). A geohash cell is a prefix of
  `2*step` interleaved bits. `scoresOfGeoHashBox` left-aligns the prefix to 52
  bits to get `min`, then increments the prefix and aligns again to get the
  excluded `max`. The model performs this on `uint64_t` with explicit
  wrap-around. For cells the geohash library produces, it proves that:
  - nothing wraps;
  - `min < max`, and the width depends only on the step;
  - a 52-bit score lies in `[min, max)` exactly when its top `2*step` bits
    are the prefix;
  - the excluded `max` is the first score of the next sibling cell.
- **The nine-slot neighbour loop** (`NeighborDedup`, and the
  `GeoFilter.CalcAllNeighbors` method). The center and its N, S, E, W, NE,
  NW, SE and SW neighbours are visited in this fixed order. An empty cell
  (`HASHISZERO`) is skipped. A cell equal to the one at `last_processed` is
  skipped, but only while `last_processed` is non-zero. Each remaining slot's
  interval is written into `ranges[i]` in place. `NeighborDedup` states what
  the loop writes as a function of the nine cells (`LastProcessed`,
  `Written`, `FillRanges`). The class method is proved against that
  statement through its loop invariants. The lemmas show that:
  - suppression never loses a cell;
  - the first non-empty neighbour is always written, even when it equals the
    center;
  - nine identical non-empty cells produce exactly two intervals;
  - running the loop again changes nothing.
- **The filter object** (`GeoFilters.GeoFilter`). The class has the struct's
  fields and its nine-element `ranges` array. Its members are:
  - the constructor (`NewGeoFilter`): zeroed ranges, and a NULL unit
    defaults to kilometers;
  - `Validate` (`GeoFilter_Validate`): the ordered gate of unit, then
    coordinates, then radius, returning 1 or 0 with the error message;
  - `CalcRanges` (`calcRanges`): returns -1 and writes nothing when the
    radius in meters is negative, and otherwise fills the ranges and
    returns 0.

Latitude, longitude, radius and unit factors are `real`. Scores and cell
prefixes are unbounded naturals bounded by explicit `uint64_t` limits.
Strings are `seq<char>`. Case folding is ASCII-only, as `tolower` does in
the C locale.

The code always leaves nine pairs in `ranges`: a filter built by
`NewGeoFilter` starts with every slot at `[0, 0]`, and a slot the loop skips
keeps its previous pair. When all
nine cells collapse into one, the loop writes two identical intervals (see
Findings). For `INVALID`, `extractUnitFactor` returns -1 after `assert(0)`.

## Model

| member | source | states |
|---|---|---|
| `GeoDistanceUnits.Ordinal` | src/geo_index.h:30-41 | INVALID is -1 and no valid unit has value -1; every valid unit's value is its position 0..3 in the token table, so the values are distinct |
| `GeoDistanceUnits.TokensExclusive` | src/geo_index.h:32-36 | no string matches two different unit tokens ignoring case, so table order cannot change a parse |
| `GeoDistanceUnits.Parse` | src/geo_index.c:177-185 | a valid unit is returned only if its token equals the input ignoring case |
| `GeoDistanceUnits.ParseExact` | src/geo_index.c:177-185 | Parse returns unit u exactly when u's token equals the input ignoring case, and returns INVALID exactly when no table token matches |
| `GeoDistanceUnits.ParseIgnoresCase` | src/geo_index.c:177-185 | lower-casing the input first never changes the parsed unit |
| `GeoDistanceUnits.ToString` | src/geo_index.c:187-195 | the output is "<badunit>" exactly for INVALID; otherwise it is the unit's table token |
| `GeoDistanceUnits.ToStringRoundTrip` | src/geo_index.c:177-195 | Parse(ToString(d)) == d for every d, including INVALID via "<badunit>" |
| `GeoDistanceUnits.UnitFactor` | src/geo_index.c:197-218 | the factor is positive exactly for the four valid units, and -1 for INVALID |
| `GeoHashBox.BoxRangeExact` | src/geo_index.c:276-298 | for a library cell, min = bits·2^(52−2·step) and max = (bits+1)·2^(52−2·step) with no uint64 wrap; max ≤ 2^52 |
| `GeoHashBox.BoxRangeWidth` | src/geo_index.c:272-298 | the interval is non-empty (min < max) and its width is 2^(52−2·step), a function of the step alone |
| `GeoHashBox.BoxRangeMembership` | src/geo_index.c:276-295 | a 52-bit score s has min ≤ s < max exactly when its top 2·step bits equal the cell's prefix |
| `GeoHashBox.SiblingBoxesAdjacent` | src/geo_index.c:285-294 | the excluded max of a cell is the min of the next sibling cell at the same step |
| `GeoHashBox.SameStepBoxesDisjoint` | src/geo_index.c:272-295 | two different cells at one step have disjoint intervals, ordered as their prefixes |
| `GeoHashBox.ScoresOfGeoHashBox` | src/geo_index.c:275-299 | out-parameters are the aligned prefix and aligned incremented prefix; for a library cell min < max, max − min = 2^(52−2·step), max ≤ 2^52; the caller's cell is a value and is not changed |
| `NeighborDedup.Slots` | src/geo_index.c:304-315 | nine slots, center in slot 0; the body lists the neighbours in source order N, S, E, W, NE, NW, SE, SW |
| `NeighborDedup.LastProcessed` | src/geo_index.c:305-335 | `last_processed` at slot k is 0 or an earlier slot |
| `NeighborDedup.LastProcessedWasWritten` | src/geo_index.c:328-335 | a non-zero `last_processed` always names a slot the loop wrote |
| `NeighborDedup.LastProcessedZeroIff` | src/geo_index.c:305-335 | `last_processed` stays 0 exactly while every neighbour slot seen so far was empty; writing the center does not move it |
| `NeighborDedup.LastIsLatest` | src/geo_index.c:328-335 | no slot after `last_processed` and before the current slot was written, so the comparison is against the most recently written slot |
| `NeighborDedup.FirstNeighbourWritten` | src/geo_index.c:305-335 | the first non-empty neighbour is always written, even when it is the same cell as the center |
| `NeighborDedup.SkippedRepeatsLastWritten` | src/geo_index.c:320-332 | a non-empty slot is skipped only when it equals the last written slot, and that slot is a neighbour, not the center |
| `NeighborDedup.EveryNonZeroCellCovered` | src/geo_index.c:317-336 | every non-empty cell has its interval written in its own slot or an earlier slot with the same cell: dedup loses no coverage |
| `NeighborDedup.AllIdenticalWritesSlotsZeroAndOne` | src/geo_index.c:324-335 | nine identical non-empty cells: exactly slots 0 and 1 are written |
| `NeighborDedup.FillRangesIdempotent` | src/geo_index.c:319-336 | running the loop over its own output leaves the ranges as they are |
| `NeighborDedup.IntendedAllIdenticalWritesOnlyCenter` | src/geo_index.c:324-327 | corrected dedup: nine identical non-empty cells give exactly one written slot, the center |
| `NeighborDedup.IntendedDedupSound` | src/geo_index.c:324-327 | corrected dedup never writes a cell equal to the previously written one, center included, and still covers every non-empty cell |
| `NeighborDedup.AsWrittenAgreesWithoutCenter` | src/geo_index.c:305-335 | with an empty center cell the loop as written and the corrected dedup write the same slots: the two differ only through the center |
| `GeoFilters.InvalidUnitNegativeRadiusPassesGate` | src/geo_index.c:344-347 | radius −2 with INVALID unit gives radius_meters = 2, which passes the `< 0` gate |
| `GeoFilters.IntendedGateSound` | src/geo_index.c:344-347 | corrected gate (valid unit, radius ≥ 0) admits only non-negative meter radii, and agrees with the written gate for every valid unit |
| `GeoFilters.UnitFactorsAgree` | src/geo_index.c:197-218 | a radius in mi, ft or km converts to the same meters as 1.60934× it in km, 0.3048× it in m, 1000× it in m |
| `GeoFilters.GeoFilter.constructor` | src/geo_index.c:221-235 | lon, lat and radius stored unchanged; fresh 9-slot ranges all [0, 0]; unit is Parse(unit), or KM when NULL, and INVALID is not rejected here |
| `GeoFilters.GeoFilter.Validate` | src/geo_index.c:239-258 | Pass (code 1) iff unit ≠ INVALID, lat ∈ [−90, 90], lon ∈ [−180, 180] and radius > 0; the first failing check in order unit, lat/lon, radius decides the error message |
| `GeoFilters.GeoFilter.CalcAllNeighbors` | src/geo_index.c:302-337 | the ranges array afterwards equals FillRanges of the nine slots over its old contents: written slots hold their cell's interval, all others and all fields are unchanged |
| `GeoFilters.GeoFilter.CalcRanges` | src/geo_index.c:341-355 | returns −1 exactly when radius × factor < 0, leaving ranges untouched; otherwise fills the ranges and returns 0; a filter that passes Validate always returns 0 |

## Left out

- Redis key management and document registration are I/O through `RedisModule_Call`: `GeoIndex_Create`, `GeoIndex_PrepareKey`, `GeoIndex_RemoveKey`, `GeoIndex_Free`, `GeoIndex_AddStrings`, `GeoIndex_RemoveEntries`.
- `GeoFilter_Parse` is argument-cursor plumbing over an external parser. It has a precedence slip at src/geo_index.c:95: `rv` receives the comparison, not the cursor's error code.
- `GeoFilter_Free` and the `property` field are memory management and an opaque name, so they are not modelled. The constructor leaves `property` NULL.
- `geoRangeLoad` and the first `NewGeoRangeIterator` make a `GEORADIUS` call and parse its reply.
- The second `NewGeoRangeIterator` (src/geo_index.c:367-376) only wires external numeric-filter and union iterators. It builds the union iterator but has no `return` statement. It builds each numeric filter with inclusive flags `1, 1`, which contradicts the excluded `max` documented at src/geo_index.c:272-274. That lets the first score of an adjacent sibling cell into the lookup. It also scans all nine slots, including those the loop skipped, which still hold [0, 0] or a stale pair.
- `encodeGeo`, `decodeGeo` and `isWithinRadius` wrap the WGS84 geodesy library, which is not part of this model.
- `geohashGetAreasByRadiusWGS84` is not part of this model. Its result, the center cell and its eight neighbours, is the `area` parameter of `CalcRanges`. The link between that result and the radius in meters is therefore not modelled.
- `geohashAlign52Bits` and `HASHISZERO` come from the geohash helper library, which is not part of this model. The first is modelled as the left shift by `52 - 2*step` on `uint64_t`. The second is modelled as `bits == 0 && step == 0`.
- GeoFilters.GeoFilter.CalcAllNeighbors: drops the `lon`, `lat` and `radius` parameters, which the source never reads.
- GeoFilters.GeoFilter.CalcAllNeighbors: requires every cell to have `step <= 26` and `bits < 2^64`, which the geohash library guarantees. The source would shift by a negative count otherwise.
- GeoDistanceUnits.ToString: the C enum is an `int`, and any integer outside the table prints "<badunit>"; the model's closed `GeoDistance` folds every such integer into `Invalid`.
- GeoDistanceUnits.UnitFactor: returns -1 for INVALID, as in builds where `assert(0)` is compiled out. Where that assertion aborts the process, the abort is not modelled.
- Floating point is not modelled: the radius × factor product is exact over `real`. Rounding, NaN comparisons in `GeoFilter_Validate`, and the `double` casts of 52-bit scores are out.
- `calcRanges` takes its filter as `const GeoFilter *` yet writes `ranges` through it. The model gives that method `modifies ranges`.

## Findings

| source | as written | input that shows it | evidently intended | confidence | as-written member | corrected member |
|---|---|---|---|---|---|---|
| src/geo_index.c:305-335 | `last_processed` starts at 0 and is tested for truthiness, so the center (slot 0) never counts as processed | all nine covering cells are the same non-empty cell (a very large radius): slots 0 and 1 both get the same interval | "skip every range which is the same as the one processed previously", including the center, giving one interval | high; not executed | `NeighborDedup.AllIdenticalWritesSlotsZeroAndOne` | `NeighborDedup.IntendedAllIdenticalWritesOnlyCenter` |
| src/geo_index.c:344-347 | the gate tests only `radius * extractUnitFactor(unit) < 0`, and the factor for INVALID is -1 | unit INVALID with radius -2: radius_meters = 2, so planning proceeds and returns 0 | reject an unknown unit and a negative radius | medium; masked where `assert(0)` aborts; not executed | `GeoFilters.InvalidUnitNegativeRadiusPassesGate` | `GeoFilters.IntendedGateSound` |

The class methods model the code as written. The corrected definitions,
`NeighborDedup.IntendedWritten` and `GeoFilters.IntendedGate`, stand beside
them, and their intended properties are proved.
