/** Threshold partitions: a sorted list of breakpoints splits the number line
    into contiguous bands, each band closed on its low end.  The seven
    threshold classifiers of the colour engine (hue, brightness, saturation,
    temperature, shade, intensity, complexity) are such partitions; this
    module states, once, what it means for a value to fall into a band. */
module Partition {

  /** The bounds never decrease. */
  predicate Sorted(bounds: seq<real>) {
    forall i, j :: 0 <= i < j < |bounds| ==> bounds[i] <= bounds[j]
  }

  /** The bounds strictly increase, so no band is empty. */
  predicate Increasing(bounds: seq<real>) {
    forall i, j :: 0 <= i < j < |bounds| ==> bounds[i] < bounds[j]
  }

  /** The index of the band that holds x: the length of the longest prefix of
      bounds whose every breakpoint is at most x. */
  function Rank(x: real, bounds: seq<real>): (k: nat)
    ensures k <= |bounds|
  {
    if bounds == [] || x < bounds[0] then 0 else 1 + Rank(x, bounds[1..])
  }

  /** The label of the band that holds x. */
  function Band(x: real, bounds: seq<real>, names: seq<string>): (l: string)
    requires |names| == |bounds| + 1
    ensures l in names
  {
    names[Rank(x, bounds)]
  }

  /** x lies in band Rank(x): at or above the breakpoint below it and strictly
      below the breakpoint above it. */
  lemma {:induction false} RankInBand(x: real, bounds: seq<real>)
    ensures Rank(x, bounds) > 0 ==> bounds[Rank(x, bounds) - 1] <= x
    ensures Rank(x, bounds) < |bounds| ==> x < bounds[Rank(x, bounds)]
  {
    if bounds != [] && x >= bounds[0] {
      RankInBand(x, bounds[1..]);
    }
  }

  /** With sorted bounds, band Rank(x) is the only band that holds x. */
  lemma {:induction false} RankUnique(x: real, bounds: seq<real>, k: nat)
    requires Sorted(bounds)
    requires k <= |bounds|
    requires k > 0 ==> bounds[k - 1] <= x
    requires k < |bounds| ==> x < bounds[k]
    ensures Rank(x, bounds) == k
  {
    if k > 0 {
      assert bounds[0] <= bounds[k - 1];
      RankUnique(x, bounds[1..], k - 1);
    }
  }

  /** A breakpoint belongs to the band above it. */
  lemma RankAtBreakpoint(bounds: seq<real>, i: nat)
    requires Increasing(bounds)
    requires i < |bounds|
    ensures Rank(bounds[i], bounds) == i + 1
  {
    RankUnique(bounds[i], bounds, i + 1);
  }

  /** A larger value never lands in a lower band. */
  lemma {:induction false} RankMonotone(x: real, y: real, bounds: seq<real>)
    requires x <= y
    ensures Rank(x, bounds) <= Rank(y, bounds)
  {
    if bounds != [] && x >= bounds[0] {
      RankMonotone(x, y, bounds[1..]);
    }
  }

  /** The position of l in names, or |names| when it is absent. */
  function Position(names: seq<string>, l: string): (k: nat)
    ensures k <= |names|
    ensures k < |names| ==> names[k] == l
    ensures forall i :: 0 <= i < k ==> names[i] != l
  {
    if names == [] then 0
    else if names[0] == l then 0
    else 1 + Position(names[1..], l)
  }

  /** No name is listed twice. */
  predicate Distinct(names: seq<string>) {
    forall i, j :: 0 <= i < j < |names| ==> names[i] != names[j]
  }

  /** In a list of distinct names, the position of the k-th name is k. */
  lemma PositionOf(names: seq<string>, k: nat)
    requires Distinct(names)
    requires k < |names|
    ensures Position(names, names[k]) == k
  {
  }

  /** Over distinct names, a larger value never gets a label listed earlier. */
  lemma BandMonotone(x: real, y: real, bounds: seq<real>, names: seq<string>)
    requires |names| == |bounds| + 1 && Distinct(names)
    requires x <= y
    ensures Position(names, Band(x, bounds, names)) <= Position(names, Band(y, bounds, names))
  {
    RankMonotone(x, y, bounds);
    PositionOf(names, Rank(x, bounds));
    PositionOf(names, Rank(y, bounds));
  }
}
