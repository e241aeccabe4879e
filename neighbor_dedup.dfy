/** What the neighbour loop of `calcAllNeighbors` (src/geo_index.c) writes,
    stated slot by slot: the nine cells are visited in the fixed order
    center, N, S, E, W, NE, NW, SE, SW; an empty cell is skipped; a cell
    equal to the one at `last_processed` is skipped while `last_processed`
    is not 0; every other slot receives the score interval of its cell and
    becomes `last_processed`. Because `last_processed` starts at 0, which is
    also the index of the center, the test is off until a neighbour has been
    written. `IntendedWritten` below is the deduplication the comment of
    that loop describes, where the center counts as processed. */
module NeighborDedup {
  import opened Options
  import opened GeoHashBox

  /** RANGE_COUNT: the center cell and its eight neighbours. */
  const RANGE_COUNT: nat := 9

  datatype GeoHashNeighbors = GeoHashNeighbors(
    north: GeoHashBits, south: GeoHashBits, east: GeoHashBits, west: GeoHashBits,
    northEast: GeoHashBits, northWest: GeoHashBits, southEast: GeoHashBits, southWest: GeoHashBits)

  /** The covering cells that the geohash library computes for a center and
      a radius (`GeoHashRadius`; its bounding area is not used here). */
  datatype GeoHashRadius = GeoHashRadius(hash: GeoHashBits, neighbors: GeoHashNeighbors)

  /** The local `neighbors` array, filled in the order the loop visits it. */
  function Slots(n: GeoHashRadius): (cells: seq<GeoHashBits>)
    ensures |cells| == RANGE_COUNT && cells[0] == n.hash
  {
    [n.hash, n.neighbors.north, n.neighbors.south, n.neighbors.east, n.neighbors.west,
     n.neighbors.northEast, n.neighbors.northWest, n.neighbors.southEast, n.neighbors.southWest]
  }

  predicate AllRepresentable(cells: seq<GeoHashBits>)
  {
    forall i :: 0 <= i < |cells| ==> Representable(cells[i])
  }

  /** Whether slot `i` is written when the loop reaches it with `last`
      in `last_processed`. */
  predicate Processes(cells: seq<GeoHashBits>, i: nat, last: nat)
    requires i < |cells| && last < |cells|
  {
    !IsZero(cells[i]) && !(last != 0 && cells[i] == cells[last])
  }

  /** `last_processed` when the loop reaches slot `k`. */
  function LastProcessed(cells: seq<GeoHashBits>, k: nat): (last: nat)
    requires k <= |cells|
    ensures last == 0 || last < k
  {
    if k == 0 then 0
    else
      var p := LastProcessed(cells, k - 1);
      if Processes(cells, k - 1, p) then k - 1 else p
  }

  /** Whether the loop writes slot `i`. */
  predicate Written(cells: seq<GeoHashBits>, i: nat)
    requires i < |cells|
  {
    Processes(cells, i, LastProcessed(cells, i))
  }

  /** The ranges after the loop, given the ranges `prev` before it: a written
      slot holds the interval of its cell, every other slot is untouched. */
  function FillRanges(cells: seq<GeoHashBits>, prev: seq<ScorePair>): (r: seq<ScorePair>)
    requires |prev| == |cells| && AllRepresentable(cells)
    ensures |r| == |prev|
  {
    seq(|cells|, i requires 0 <= i < |cells| => if Written(cells, i) then BoxRange(cells[i]) else prev[i])
  }

  /** A non-zero `last_processed` always names a slot that was written. */
  lemma {:induction false} LastProcessedWasWritten(cells: seq<GeoHashBits>, k: nat)
    requires k <= |cells|
    ensures LastProcessed(cells, k) != 0 ==> Written(cells, LastProcessed(cells, k))
  {
    if k > 0 {
      LastProcessedWasWritten(cells, k - 1);
    }
  }

  /** `last_processed` is the most recently written slot: nothing after it
      and before `k` was written. */
  lemma {:induction false} LastIsLatest(cells: seq<GeoHashBits>, k: nat)
    requires k <= |cells|
    ensures forall j :: LastProcessed(cells, k) < j < k ==> !Written(cells, j)
  {
    if k > 0 {
      LastIsLatest(cells, k - 1);
    }
  }

  /** `last_processed` is still 0 exactly while every neighbour seen so far
      was empty: writing the center leaves it at 0. */
  lemma {:induction false} LastProcessedZeroIff(cells: seq<GeoHashBits>, k: nat)
    requires 1 <= k <= |cells|
    ensures LastProcessed(cells, k) == 0 <==> forall j :: 1 <= j < k ==> IsZero(cells[j])
  {
    if k > 1 {
      LastProcessedZeroIff(cells, k - 1);
    }
  }

  /** The first non-empty neighbour is always written, even when it is the
      same cell as the center. */
  lemma FirstNeighbourWritten(cells: seq<GeoHashBits>, i: nat)
    requires 1 <= i < |cells| && !IsZero(cells[i])
    requires forall j :: 1 <= j < i ==> IsZero(cells[j])
    ensures Written(cells, i)
  {
    LastProcessedZeroIff(cells, i);
  }

  /** A non-empty slot is skipped only when its cell repeats the last
      written one, and that one is a neighbour, never the center. */
  lemma SkippedRepeatsLastWritten(cells: seq<GeoHashBits>, i: nat)
    requires i < |cells| && !IsZero(cells[i]) && !Written(cells, i)
    ensures 0 < LastProcessed(cells, i) < i
    ensures Written(cells, LastProcessed(cells, i))
    ensures cells[LastProcessed(cells, i)] == cells[i]
  {
    LastProcessedWasWritten(cells, i);
  }

  /** Suppression loses no coverage: every non-empty cell has its interval
      written in its own slot or in an earlier slot holding the same cell. */
  lemma EveryNonZeroCellCovered(cells: seq<GeoHashBits>, i: nat)
    requires i < |cells| && !IsZero(cells[i])
    ensures exists j :: 0 <= j <= i && Written(cells, j) && cells[j] == cells[i]
  {
    if !Written(cells, i) {
      SkippedRepeatsLastWritten(cells, i);
    }
  }

  lemma {:induction false} LastProcessedOfIdentical(cells: seq<GeoHashBits>, c: GeoHashBits, k: nat)
    requires 2 <= k <= |cells| && !IsZero(c)
    requires forall i :: 0 <= i < |cells| ==> cells[i] == c
    ensures LastProcessed(cells, k) == 1
  {
    if k > 2 {
      LastProcessedOfIdentical(cells, c, k - 1);
    } else {
      assert LastProcessed(cells, 1) == 0;
    }
  }

  /** As written: when the nine cells are one and the same non-empty cell,
      the loop writes slots 0 and 1 (two equal intervals) and skips the rest. */
  lemma AllIdenticalWritesSlotsZeroAndOne(cells: seq<GeoHashBits>, c: GeoHashBits)
    requires |cells| == RANGE_COUNT && !IsZero(c)
    requires forall i :: 0 <= i < |cells| ==> cells[i] == c
    ensures forall i :: 0 <= i < |cells| ==> (Written(cells, i) <==> i < 2)
  {
    forall i | 2 <= i < |cells|
      ensures !Written(cells, i)
    {
      LastProcessedOfIdentical(cells, c, i);
    }
    assert LastProcessed(cells, 1) == 0;
  }

  /** Running the loop again over its own output changes nothing. */
  lemma FillRangesIdempotent(cells: seq<GeoHashBits>, prev: seq<ScorePair>)
    requires |prev| == |cells| && AllRepresentable(cells)
    ensures FillRanges(cells, FillRanges(cells, prev)) == FillRanges(cells, prev)
  {
  }

  // The deduplication as the loop's comment describes it: "the one
  // processed previously" includes the center.

  /** Whether slot `i` is written when `last` is the previously written slot, if any. */
  predicate IntendedProcesses(cells: seq<GeoHashBits>, i: nat, last: Option<nat>)
    requires i < |cells| && (last.Some? ==> last.value < |cells|)
  {
    !IsZero(cells[i]) && (last.None? || cells[i] != cells[last.value])
  }

  /** The previously written slot when slot `k` is reached, if any. */
  function IntendedLast(cells: seq<GeoHashBits>, k: nat): (last: Option<nat>)
    requires k <= |cells|
    ensures last.Some? ==> last.value < k
  {
    if k == 0 then None
    else
      var p := IntendedLast(cells, k - 1);
      if IntendedProcesses(cells, k - 1, p) then Some(k - 1) else p
  }

  predicate IntendedWritten(cells: seq<GeoHashBits>, i: nat)
    requires i < |cells|
  {
    IntendedProcesses(cells, i, IntendedLast(cells, i))
  }

  lemma {:induction false} IntendedLastOfIdentical(cells: seq<GeoHashBits>, c: GeoHashBits, k: nat)
    requires 1 <= k <= |cells| && !IsZero(c)
    requires forall i :: 0 <= i < |cells| ==> cells[i] == c
    ensures IntendedLast(cells, k) == Some(0)
  {
    if k > 1 {
      IntendedLastOfIdentical(cells, c, k - 1);
    }
  }

  /** Intended: nine identical non-empty cells give exactly one interval. */
  lemma IntendedAllIdenticalWritesOnlyCenter(cells: seq<GeoHashBits>, c: GeoHashBits)
    requires |cells| == RANGE_COUNT && !IsZero(c)
    requires forall i :: 0 <= i < |cells| ==> cells[i] == c
    ensures forall i :: 0 <= i < |cells| ==> (IntendedWritten(cells, i) <==> i == 0)
  {
    forall i | 1 <= i < |cells|
      ensures !IntendedWritten(cells, i)
    {
      IntendedLastOfIdentical(cells, c, i);
    }
  }

  lemma {:induction false} IntendedLastWasWritten(cells: seq<GeoHashBits>, k: nat)
    requires k <= |cells|
    ensures IntendedLast(cells, k).Some? ==> IntendedWritten(cells, IntendedLast(cells, k).value)
  {
    if k > 0 {
      IntendedLastWasWritten(cells, k - 1);
    }
  }

  /** Intended: no written interval repeats the one written just before it,
      and still every non-empty cell is covered. */
  lemma IntendedDedupSound(cells: seq<GeoHashBits>, i: nat)
    requires i < |cells|
    ensures IntendedWritten(cells, i) && IntendedLast(cells, i).Some? ==>
              cells[i] != cells[IntendedLast(cells, i).value]
    ensures !IsZero(cells[i]) ==> exists j :: 0 <= j <= i && IntendedWritten(cells, j) && cells[j] == cells[i]
  {
    IntendedLastWasWritten(cells, i);
  }

  lemma {:induction false} LastProcessedMatchesIntended(cells: seq<GeoHashBits>, k: nat)
    requires 1 <= k <= |cells| && IsZero(cells[0])
    ensures IntendedLast(cells, k) == if LastProcessed(cells, k) == 0 then None else Some(LastProcessed(cells, k))
  {
    if k > 1 {
      LastProcessedMatchesIntended(cells, k - 1);
    }
  }

  /** The two definitions differ only through the center: with an empty
      center cell the loop as written already deduplicates as intended. */
  lemma AsWrittenAgreesWithoutCenter(cells: seq<GeoHashBits>, i: nat)
    requires i < |cells| && IsZero(cells[0])
    ensures Written(cells, i) <==> IntendedWritten(cells, i)
  {
    if i > 0 {
      LastProcessedMatchesIntended(cells, i);
    }
  }
}
