/** Geohash cells and the half-open score interval each one covers in the
    52-bit score space of the sorted index (`scoresOfGeoHashBox` in
    src/geo_index.c). A cell at precision `step` is identified by a prefix
    of 2*step interleaved bits; a stored score is a full 52-bit geohash. */
module GeoHashBox {

  /** The finest precision: 26 bit pairs make a 52-bit score. */
  const GEO_STEP_MAX: nat := 26
  const SCORE_BITS: nat := 52

  /** 2^64: `GeoHashFix52Bits` and the `bits` of a cell are `uint64_t`. */
  const U64: nat := 0x1_0000_0000_0000_0000

  function Pow2(n: nat): (p: nat)
    ensures p >= 1
  {
    if n == 0 then 1 else 2 * Pow2(n - 1)
  }

  /** A geohash cell (`GeoHashBits`): its bit prefix and its precision. */
  datatype GeoHashBits = GeoHashBits(bits: nat, step: nat)

  /** A `[min, max)` pair of scores, one row of `GeoFilter.ranges`. */
  datatype ScorePair = ScorePair(min: nat, max: nat)

  /** The cells the C code can align: `bits` fits its `uint64_t`, and the
      shift `52 - 2*step` is not negative. */
  predicate Representable(h: GeoHashBits)
  {
    h.bits < U64 && h.step <= GEO_STEP_MAX
  }

  /** The cells the geohash library produces: exactly 2*step bits of prefix. */
  predicate WellFormed(h: GeoHashBits)
  {
    h.step <= GEO_STEP_MAX && h.bits < Pow2(2 * h.step)
  }

  /** HASHISZERO of the geohash library: the empty-cell sentinel. */
  predicate IsZero(h: GeoHashBits)
  {
    h.bits == 0 && h.step == 0
  }

  /** How many scores a cell at `step` spans: 2^(52 - 2*step). */
  function Width(step: nat): (w: nat)
    requires step <= GEO_STEP_MAX
    ensures w >= 1
  {
    Pow2(SCORE_BITS - 2 * step)
  }

  /** The top 2*step bits of a 52-bit score. */
  function Prefix(score: nat, step: nat): nat
    requires step <= GEO_STEP_MAX
  {
    score / Width(step)
  }

  /** geohashAlign52Bits: the prefix shifted left into the top of a 52-bit
      score, on `uint64_t`, so bits shifted past bit 63 are lost. */
  function Align52(h: GeoHashBits): (a: nat)
    requires Representable(h)
    ensures a < U64
  {
    (h.bits * Width(h.step)) % U64
  }

  /** `hash.bits++` on the `uint64_t` prefix. */
  function Incremented(h: GeoHashBits): (n: GeoHashBits)
    requires Representable(h)
    ensures Representable(n) && n.step == h.step
  {
    h.(bits := (h.bits + 1) % U64)
  }

  /** The score interval of a cell: the aligned prefix, and the aligned
      incremented prefix. */
  function BoxRange(h: GeoHashBits): ScorePair
    requires Representable(h)
  {
    ScorePair(Align52(h), Align52(Incremented(h)))
  }

  lemma {:induction false} Pow2Add(a: nat, b: nat)
    ensures Pow2(a + b) == Pow2(a) * Pow2(b)
  {
    if a > 0 {
      Pow2Add(a - 1, b);
      assert Pow2(a + b) == 2 * Pow2(a - 1 + b);
    }
  }

  /** The 52-bit score space fits a `uint64_t`. */
  lemma ScoreSpaceFitsU64()
    ensures Pow2(SCORE_BITS) < U64
  {
    assert Pow2(4) == 16;
    Pow2Add(4, 4);
    Pow2Add(8, 8);
    Pow2Add(16, 16);
    Pow2Add(32, 20);
    Pow2Add(16, 4);
  }

  /** A prefix of 2*step bits followed by 52 - 2*step zero bits. */
  lemma CellFillsScoreSpace(step: nat)
    requires step <= GEO_STEP_MAX
    ensures Pow2(2 * step) * Width(step) == Pow2(SCORE_BITS)
    ensures Pow2(SCORE_BITS) < U64
  {
    Pow2Add(2 * step, SCORE_BITS - 2 * step);
    ScoreSpaceFitsU64();
  }

  lemma ModSmall(x: nat)
    requires x < U64
    ensures x % U64 == x
  {
  }

  lemma MulSucc(a: nat, w: nat)
    ensures (a + 1) * w == a * w + w
  {
  }

  lemma MulMonotone(a: nat, b: nat, w: nat)
    requires a <= b
    ensures a * w <= b * w
  {
  }

  /** For a cell the library produces nothing wraps: `min` is the prefix
      times the width, `max` the next prefix times the width, and `max`
      reaches at most the end of the 52-bit score space. */
  lemma BoxRangeExact(h: GeoHashBits)
    requires WellFormed(h)
    ensures Representable(h)
    ensures BoxRange(h).min == h.bits * Width(h.step)
    ensures BoxRange(h).max == (h.bits + 1) * Width(h.step)
    ensures BoxRange(h).max == BoxRange(h).min + Width(h.step)
    ensures BoxRange(h).max <= Pow2(SCORE_BITS)
  {
    PrefixTimesWidthFits(h.bits + 1, h.step);
    PrefixTimesWidthFits(h.bits, h.step);
    AlignWithoutWrap(h);
    assert Incremented(h) == GeoHashBits(h.bits + 1, h.step);
    AlignWithoutWrap(Incremented(h));
    MulSucc(h.bits, Width(h.step));
  }

  /** When the shifted prefix fits 64 bits, aligning is a plain multiplication. */
  lemma AlignWithoutWrap(h: GeoHashBits)
    requires Representable(h) && h.bits * Width(h.step) < U64
    ensures Align52(h) == h.bits * Width(h.step)
  {
    ModSmall(h.bits * Width(h.step));
  }

  /** A prefix of at most 2^(2*step) cells, left-aligned, stays within the
      52-bit score space. */
  lemma PrefixTimesWidthFits(n: nat, step: nat)
    requires step <= GEO_STEP_MAX && n <= Pow2(2 * step)
    ensures n * Width(step) <= Pow2(SCORE_BITS) < U64
    ensures n <= Pow2(SCORE_BITS)
  {
    var w, cells := Width(step), Pow2(2 * step);
    CellFillsScoreSpace(step);
    MulMonotone(n, cells, w);
    MulMonotone(1, w, n);
  }

  /** The interval is non-empty, and its width depends on the step alone. */
  lemma BoxRangeWidth(h: GeoHashBits)
    requires WellFormed(h)
    ensures Representable(h)
    ensures BoxRange(h).min < BoxRange(h).max
    ensures BoxRange(h).max - BoxRange(h).min == Width(h.step)
  {
    BoxRangeExact(h);
  }

  /** `q * w <= s < (q + 1) * w` pins down the quotient `s / w`. */
  lemma DivisionBracket(s: nat, w: nat, q: nat)
    requires w > 0
    ensures (q * w <= s < (q + 1) * w) <==> s / w == q
  {
    var d, r := s / w, s % w;
    assert s == d * w + r && 0 <= r < w;
    if q * w <= s < (q + 1) * w {
      if d < q {
        MulMonotone(d + 1, q, w);
        assert false;
      } else if d > q {
        MulMonotone(q + 1, d, w);
        assert false;
      }
    }
  }

  /** The interval is exact: a 52-bit score falls in `[min, max)` precisely
      when its top 2*step bits are the cell's prefix. */
  lemma BoxRangeMembership(h: GeoHashBits, score: nat)
    requires WellFormed(h) && score < Pow2(SCORE_BITS)
    ensures Representable(h)
    ensures BoxRange(h).min <= score < BoxRange(h).max <==> Prefix(score, h.step) == h.bits
  {
    BoxRangeExact(h);
    DivisionBracket(score, Width(h.step), h.bits);
  }

  /** The excluded upper bound of a cell is the first score of its next
      sibling at the same step. */
  lemma SiblingBoxesAdjacent(h: GeoHashBits)
    requires WellFormed(h) && h.bits + 1 < Pow2(2 * h.step)
    ensures Representable(h) && WellFormed(Incremented(h))
    ensures BoxRange(h).max == BoxRange(Incremented(h)).min
  {
    PrefixTimesWidthFits(h.bits + 1, h.step);
    ModSmall(h.bits + 1);
    var g := Incremented(h);
    assert g == GeoHashBits(h.bits + 1, h.step);
    BoxRangeExact(h);
    BoxRangeExact(g);
  }

  /** Different cells at one step cover disjoint intervals. */
  lemma SameStepBoxesDisjoint(h: GeoHashBits, g: GeoHashBits)
    requires WellFormed(h) && WellFormed(g) && h.step == g.step && h.bits < g.bits
    ensures Representable(h) && Representable(g)
    ensures BoxRange(h).max <= BoxRange(g).min
  {
    BoxRangeExact(h);
    BoxRangeExact(g);
    MulMonotone(h.bits + 1, g.bits, Width(h.step));
  }

  /** scoresOfGeoHashBox: `hash` is a copy, so the caller's cell is not
      changed by the increment. */
  method ScoresOfGeoHashBox(hash: GeoHashBits) returns (min: nat, max: nat)
    requires Representable(hash)
    ensures ScorePair(min, max) == BoxRange(hash)
    ensures WellFormed(hash) ==> min < max && max - min == Width(hash.step) && max <= Pow2(SCORE_BITS)
  {
    var h := hash;
    min := Align52(h);
    h := h.(bits := (h.bits + 1) % U64);
    max := Align52(h);
    if WellFormed(hash) {
      BoxRangeExact(hash);
    }
  }
}
