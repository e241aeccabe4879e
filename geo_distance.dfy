/** Distance units of a geo filter: the `GeoDistance` enumeration with its
    token table (src/geo_index.h) and the three lookups built on that table
    in src/geo_index.c: parsing a token, printing a unit, and the
    meters-per-unit factor. */
module GeoDistanceUnits {

  /** The enumeration. `Invalid` is the placeholder for a token that names no unit. */
  datatype GeoDistance = Invalid | Km | M | Ft | Mi

  /** The X-macro table, in declaration order: each unit with its token. */
  const UnitTable: seq<(GeoDistance, string)> := [(Km, "km"), (M, "m"), (Ft, "ft"), (Mi, "mi")]

  /** The token printed for any value outside the table. */
  const BadUnitToken: string := "<badunit>"

  /** The integer the C enumeration gives each member: the placeholder is -1,
      and the table entries take the consecutive values 0, 1, 2, 3 in table order. */
  function Ordinal(d: GeoDistance): (v: int)
    ensures v == -1 <==> d == Invalid
    ensures d != Invalid ==> 0 <= v < |UnitTable| && UnitTable[v].0 == d
  {
    match d
    case Invalid => -1
    case Km => 0
    case M => 1
    case Ft => 2
    case Mi => 3
  }

  /** The token of a valid unit, read from its table entry. */
  function Token(d: GeoDistance): string
    requires d != Invalid
  {
    UnitTable[Ordinal(d)].1
  }

  /** `tolower` in the C locale: only the ASCII capitals change. */
  function ToLower(c: char): char
  {
    if 'A' <= c <= 'Z' then (c as int + 32) as char else c
  }

  /** The whole string through `ToLower`. */
  function LowerCase(s: string): (r: string)
    ensures |r| == |s|
    ensures forall i :: 0 <= i < |s| ==> r[i] == ToLower(s[i])
  {
    if s == [] then [] else [ToLower(s[0])] + LowerCase(s[1..])
  }

  /** `strcasecmp(a, b) == 0`: same length, and equal character by character
      after `tolower`. */
  predicate EqualsIgnoreCase(a: string, b: string)
  {
    |a| == |b| && forall i :: 0 <= i < |a| ==> ToLower(a[i]) == ToLower(b[i])
  }

  /** The expanded X-macro of `GeoDistance_Parse`: table entries from `k` on
      are tried in order, and the first whose token matches is returned. */
  function ParseFrom(s: string, k: nat): (d: GeoDistance)
    requires k <= |UnitTable|
    ensures d != Invalid ==> EqualsIgnoreCase(Token(d), s)
    decreases |UnitTable| - k
  {
    if k == |UnitTable| then Invalid
    else if EqualsIgnoreCase(UnitTable[k].1, s) then UnitTable[k].0
    else ParseFrom(s, k + 1)
  }

  /** GeoDistance_Parse: the unit whose token equals `s` ignoring case,
      or `Invalid`. */
  function Parse(s: string): (d: GeoDistance)
    ensures d != Invalid ==> EqualsIgnoreCase(Token(d), s)
  {
    ParseFrom(s, 0)
  }

  /** GeoDistance_ToString: the token of a valid unit, "<badunit>" otherwise. */
  function ToString(d: GeoDistance): (r: string)
    ensures r == BadUnitToken <==> d == Invalid
    ensures d != Invalid ==> r == Token(d)
  {
    if d == Invalid then BadUnitToken else Token(d)
  }

  /** extractUnitFactor: meters per unit; -1 for the placeholder, where the
      source also trips an assertion. */
  function UnitFactor(d: GeoDistance): (r: real)
    ensures r > 0.0 <==> d != Invalid
    ensures d == Invalid ==> r == -1.0
  {
    match d
    case M => 1.0
    case Km => 1000.0
    case Ft => 0.3048
    case Mi => 1609.34
    case Invalid => -1.0
  }

  /** No string matches two different tokens, so the order of the table
      does not decide what `Parse` returns. */
  lemma TokensExclusive(s: string, u: GeoDistance, w: GeoDistance)
    requires u != Invalid && w != Invalid && u != w
    ensures EqualsIgnoreCase(Token(u), s) ==> !EqualsIgnoreCase(Token(w), s)
  {
    if EqualsIgnoreCase(Token(u), s) {
      assert ToLower(s[0]) == ToLower(Token(u)[0]);
    }
  }

  /** Parsing is exact: a valid unit comes back precisely when its token
      matches ignoring case, and `Invalid` precisely when no token matches. */
  lemma ParseExact(s: string, u: GeoDistance)
    requires u != Invalid
    ensures Parse(s) == u <==> EqualsIgnoreCase(Token(u), s)
    ensures Parse(s) == Invalid <==> forall k :: 0 <= k < |UnitTable| ==> !EqualsIgnoreCase(UnitTable[k].1, s)
  {
    var d := Parse(s);
    if d != Invalid && d != u {
      TokensExclusive(s, d, u);
    }
    assert ParseFrom(s, 0) == (if EqualsIgnoreCase("km", s) then Km else ParseFrom(s, 1));
    assert ParseFrom(s, 1) == (if EqualsIgnoreCase("m", s) then M else ParseFrom(s, 2));
    assert ParseFrom(s, 2) == (if EqualsIgnoreCase("ft", s) then Ft else ParseFrom(s, 3));
    assert ParseFrom(s, 3) == (if EqualsIgnoreCase("mi", s) then Mi else ParseFrom(s, 4));
  }

  /** `Parse` ignores case: lower-casing the token first changes nothing. */
  lemma ParseIgnoresCase(s: string)
    ensures Parse(LowerCase(s)) == Parse(s)
  {
    var t := LowerCase(s);
    forall k | 0 <= k < |UnitTable|
      ensures EqualsIgnoreCase(UnitTable[k].1, t) == EqualsIgnoreCase(UnitTable[k].1, s)
    {
      assert forall i :: 0 <= i < |s| ==> ToLower(t[i]) == ToLower(s[i]);
    }
    ParseExact(s, Km);
    ParseExact(t, Km);
    ParseExact(s, M);
    ParseExact(t, M);
    ParseExact(s, Ft);
    ParseExact(t, Ft);
    ParseExact(s, Mi);
    ParseExact(t, Mi);
  }

  /** Round trip: parsing what `ToString` prints gives the unit back; the
      placeholder prints as "<badunit>", which parses as the placeholder. */
  lemma ToStringRoundTrip(d: GeoDistance)
    ensures Parse(ToString(d)) == d
  {
    if d == Invalid {
      ParseExact(BadUnitToken, Km);
    } else {
      ParseExact(ToString(d), d);
    }
  }
}
