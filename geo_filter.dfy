/** The geo filter of a query (`GeoFilter` in src/geo_index.h) and the
    operations of src/geo_index.c that build it, validate it and fill its
    nine score ranges. */
module GeoFilters {
  import opened Options
  import opened GeoDistanceUnits
  import opened GeoHashBox
  import opened NeighborDedup

  /** The error `QERR_MKSYNTAXERR` records: a syntax error with its message. */
  datatype QueryError = SyntaxError(msg: string)

  /** The outcome of `GeoFilter_Validate`: the return code with the error it sets. */
  datatype Validation = Pass | Fail(err: QueryError)
  {
    /** The C return value: 1 if valid, 0 if not. */
    function Code(): int
    {
      if Pass? then 1 else 0
    }
  }

  /** The planning gate of `calcRanges`: the radius in meters must not be negative. */
  function RadiusMeters(radius: real, unit: GeoDistance): real
  {
    radius * UnitFactor(unit)
  }

  /** The gate as the source wrote it is passed by an invalid unit with a
      negative radius: the factor -1 makes the product positive. */
  lemma InvalidUnitNegativeRadiusPassesGate()
    ensures !(RadiusMeters(-2.0, Invalid) < 0.0)
    ensures RadiusMeters(-2.0, Invalid) == 2.0
  {
  }

  /** The gate as evidently intended: a known unit and a radius that is not negative. */
  predicate IntendedGate(radius: real, unit: GeoDistance)
  {
    unit != Invalid && radius >= 0.0
  }

  /** The intended gate admits only inputs the written gate admits, with a
      proper unit; for a known unit the two agree. */
  lemma IntendedGateSound(radius: real, unit: GeoDistance)
    ensures IntendedGate(radius, unit) ==> unit != Invalid && RadiusMeters(radius, unit) >= 0.0
    ensures unit != Invalid ==> (IntendedGate(radius, unit) <==> !(RadiusMeters(radius, unit) < 0.0))
  {
  }

  /** The factors agree with each other: a radius in miles covers the same
      meters as 1.60934 times that radius in kilometers, a radius in feet
      the same as 0.3048 times it in meters. */
  lemma UnitFactorsAgree(radius: real)
    ensures RadiusMeters(radius, Mi) == RadiusMeters(1.60934 * radius, Km)
    ensures RadiusMeters(radius, Ft) == RadiusMeters(0.3048 * radius, M)
    ensures RadiusMeters(radius, Km) == RadiusMeters(1000.0 * radius, M)
  {
  }

  class GeoFilter {
    var lat: real
    var lon: real
    var radius: real
    var unitType: GeoDistance
    /** `ranges[RANGE_COUNT][2]`: a `[min, max)` score pair per slot. */
    const ranges: array<ScorePair>

    ghost predicate Valid()
      reads this
    {
      ranges.Length == RANGE_COUNT
    }

    /** NewGeoFilter: coordinates and radius as given, every range zeroed, and
        the unit parsed from `unit`, or kilometers when `unit` is NULL. An
        unknown unit is kept as `Invalid`; rejecting it is left to `Validate`. */
    constructor (lon: real, lat: real, radius: real, unit: Option<string>)
      ensures Valid() && fresh(ranges)
      ensures this.lon == lon && this.lat == lat && this.radius == radius
      ensures unitType == if unit.Some? then Parse(unit.value) else Km
      ensures forall i :: 0 <= i < RANGE_COUNT ==> ranges[i] == ScorePair(0, 0)
    {
      this.lon := lon;
      this.lat := lat;
      this.radius := radius;
      ranges := new ScorePair[RANGE_COUNT](_ => ScorePair(0, 0));
      if unit.Some? {
        unitType := Parse(unit.value);
      } else {
        unitType := Km;
      }
    }

    /** GeoFilter_Validate: accepts exactly a known unit, a latitude in
        [-90, 90], a longitude in [-180, 180] and a positive radius; the
        checks run unit, coordinates, radius, and the first that fails
        decides the error. */
    function Validate(): (r: Validation)
      reads this
      ensures r.Pass? <==> unitType != Invalid && -90.0 <= lat <= 90.0 && -180.0 <= lon <= 180.0 && radius > 0.0
      ensures r.Code() == 1 <==> r.Pass?
      ensures unitType == Invalid ==> r == Fail(SyntaxError("Invalid GeoFilter unit"))
      ensures unitType != Invalid && !(-90.0 <= lat <= 90.0 && -180.0 <= lon <= 180.0) ==>
                r == Fail(SyntaxError("Invalid GeoFilter lat/lon"))
      ensures r.Fail? && unitType != Invalid && -90.0 <= lat <= 90.0 && -180.0 <= lon <= 180.0 ==>
                r == Fail(SyntaxError("Invalid GeoFilter radius")) && radius <= 0.0
    {
      if unitType == Invalid then Fail(SyntaxError("Invalid GeoFilter unit"))
      else if lat > 90.0 || lat < -90.0 || lon > 180.0 || lon < -180.0 then Fail(SyntaxError("Invalid GeoFilter lat/lon"))
      else if radius <= 0.0 then Fail(SyntaxError("Invalid GeoFilter radius"))
      else Pass
    }

    /** calcAllNeighbors: visits the nine covering cells in slot order and
        writes, in place, the score interval of every slot the
        deduplication keeps; other slots and fields stay as they were. */
    method CalcAllNeighbors(n: GeoHashRadius)
      requires Valid() && AllRepresentable(Slots(n))
      modifies ranges
      ensures ranges[..] == FillRanges(Slots(n), old(ranges[..]))
    {
      var neighbors := Slots(n);
      var lastProcessed: nat := 0;
      for i := 0 to RANGE_COUNT
        invariant lastProcessed == LastProcessed(neighbors, i)
        invariant forall k :: 0 <= k < i ==>
                    ranges[k] == if Written(neighbors, k) then BoxRange(neighbors[k]) else old(ranges[k])
        invariant forall k :: i <= k < RANGE_COUNT ==> ranges[k] == old(ranges[k])
      {
        if IsZero(neighbors[i]) {
          continue;
        }
        if lastProcessed != 0 &&
           neighbors[i].bits == neighbors[lastProcessed].bits &&
           neighbors[i].step == neighbors[lastProcessed].step {
          continue;
        }
        var min, max := ScoresOfGeoHashBox(neighbors[i]);
        ranges[i] := ScorePair(min, max);
        lastProcessed := i;
      }
    }

    /** calcRanges: converts the radius to meters and, unless that is
        negative (-1, nothing written), fills the ranges from `area`, the
        covering cells the geohash library computes for the center and that
        radius, and returns 0. A filter that passed `Validate` always gets
        its ranges. */
    method CalcRanges(area: GeoHashRadius) returns (rc: int)
      requires Valid() && AllRepresentable(Slots(area))
      modifies ranges
      ensures rc == -1 <==> RadiusMeters(radius, unitType) < 0.0
      ensures rc == -1 || rc == 0
      ensures rc == -1 ==> ranges[..] == old(ranges[..])
      ensures rc == 0 ==> ranges[..] == FillRanges(Slots(area), old(ranges[..]))
      ensures Validate().Pass? ==> rc == 0
    {
      var radiusMeters := RadiusMeters(radius, unitType);
      if radiusMeters < 0.0 {
        return -1;
      }
      IntendedGateSound(radius, unitType);
      CalcAllNeighbors(area);
      return 0;
    }
  }
}
