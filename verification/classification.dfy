/**
 * The colour rule of the map endpoint (the inner `get_color` of
 * `get_map_data`): a missing average is grey, otherwise strict
 * greater-than thresholds at 17 and 15 pick red, yellow or blue.
 */
module Classification {
  import opened Wrappers

  const NoData: string := "#808080"
  const Red: string := "#FF0000"
  const Yellow: string := "#FFFF00"
  const Blue: string := "#0000FF"

  const HighThreshold: real := 17.0
  const MidThreshold: real := 15.0

  /** An upper-case `#RRGGBB` colour string. */
  predicate IsHexColor(c: string)
  {
    |c| == 7 && c[0] == '#' && forall i :: 1 <= i < 7 ==> c[i] in "0123456789ABCDEF"
  }

  /** Colour of a district whose average is `average` (None for NaN / NA). */
  function Color(average: Option<real>): (c: string)
    ensures c in {NoData, Red, Yellow, Blue} && IsHexColor(c)
    ensures c == NoData <==> average.None?
    ensures c == Red <==> average.Some? && average.value > HighThreshold
    ensures c == Yellow <==> average.Some? && MidThreshold < average.value <= HighThreshold
    ensures c == Blue <==> average.Some? && average.value <= MidThreshold
  {
    if average.None? then NoData
    else if average.value > HighThreshold then Red
    else if average.value > MidThreshold then Yellow
    else Blue
  }

  /** Position of a value colour on the scale, coldest first. */
  function Rank(c: string): nat
  {
    if c == Red then 2 else if c == Yellow then 1 else 0
  }

  /** A higher average never gets a colder colour. */
  lemma ColorMonotone(a: real, b: real)
    requires a <= b
    ensures Rank(Color(Some(a))) <= Rank(Color(Some(b)))
  {
  }

  /** A value exactly on a threshold falls to the lower tier. */
  lemma ThresholdsFallToLowerTier()
    ensures Color(Some(17.0)) == Yellow && Color(Some(15.0)) == Blue
    ensures Color(Some(17.1)) == Red && Color(Some(10.0)) == Blue
  {
  }
}
