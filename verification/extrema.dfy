/** The two maximum-finding primitives the aggregation helpers borrow from
    their libraries: lodash's `maxBy`, which scans left to right and keeps its
    candidate unless a later element is strictly greater, and `Math.max`. */
module Extrema {

  /** Position of the element `maxBy` picks: a maximum, and the first one. */
  function FirstMaxIndex(xs: seq<int>): (k: nat)
    requires |xs| > 0
    ensures k < |xs|
    ensures forall j :: 0 <= j < |xs| ==> xs[j] <= xs[k]
    ensures forall j :: 0 <= j < k ==> xs[j] < xs[k]
  {
    if |xs| == 1 then 0
    else
      var k := FirstMaxIndex(xs[..|xs| - 1]);
      if xs[|xs| - 1] > xs[k] then |xs| - 1 else k
  }

  /** `Math.max(...xs)`: the greatest element. (With no arguments JavaScript
      answers -Infinity, which has no counterpart here.) */
  function Max(xs: seq<int>): (m: int)
    requires |xs| > 0
    ensures m in xs
    ensures forall j :: 0 <= j < |xs| ==> xs[j] <= m
  {
    if |xs| == 1 then xs[0]
    else
      var m := Max(xs[1..]);
      assert forall j :: 1 <= j < |xs| ==> xs[j] == xs[1..][j - 1];
      if xs[0] > m then xs[0] else m
  }

  /** `maxBy` and `Math.max` agree on the value: the element at the chosen
      position is the maximum. */
  lemma MaxAtFirstMaxIndex(xs: seq<int>)
    requires |xs| > 0
    ensures xs[FirstMaxIndex(xs)] == Max(xs)
  {
  }
}
