/** Ingredient vectors: four tiers of integer counts, used both as an
    inventory and as the signed delta of a spell or an order (sol.py:8). */
module Ingredients {

  /** The number of ingredient tiers. */
  const Tiers := 4

  type Ingredients = s: seq<int> | |s| == 4 witness [0, 0, 0, 0]

  /** `all(i >= t for i, t in zip(xs, ys))`, one pair at a time. */
  function ZipCovers(xs: seq<int>, ys: seq<int>): (r: bool)
    requires |xs| == |ys|
    ensures r <==> forall k :: 0 <= k < |xs| ==> xs[k] >= ys[k]
  {
    xs == [] || (xs[0] >= ys[0] && ZipCovers(xs[1..], ys[1..]))
  }

  /** `tuple(map(lambda t: t[0] + t[1], zip(xs, ys)))`, one pair at a time. */
  function ZipSum(xs: seq<int>, ys: seq<int>): (r: seq<int>)
    requires |xs| == |ys|
    ensures |r| == |xs|
    ensures forall k :: 0 <= k < |r| ==> r[k] == xs[k] + ys[k]
  {
    if xs == [] then [] else [xs[0] + ys[0]] + ZipSum(xs[1..], ys[1..])
  }

  /** An inventory can brew a target when it covers it tier by tier. */
  function CanBrew(inventory: Ingredients, target: Ingredients): (r: bool)
    ensures r <==> forall k :: 0 <= k < Tiers ==> inventory[k] >= target[k]
  {
    ZipCovers(inventory, target)
  }

  /** The componentwise sum of two ingredient vectors. */
  function AddInventories(x: Ingredients, y: Ingredients): (r: Ingredients)
    ensures forall k :: 0 <= k < Tiers ==> r[k] == x[k] + y[k]
  {
    ZipSum(x, y)
  }

  /** No tier is negative (the negation of `any(item < 0 ...)`). */
  predicate Nonnegative(inventory: Ingredients) {
    forall k :: 0 <= k < Tiers ==> inventory[k] >= 0
  }

  /** `any(can_brew(inventory, t) for t in targets)`. */
  function AnyBrewable(inventory: Ingredients, targets: seq<Ingredients>): (r: bool)
    ensures r <==> exists k :: 0 <= k < |targets| && CanBrew(inventory, targets[k])
  {
    if targets == [] then false
    else
      CanBrew(inventory, targets[0]) || AnyBrewable(inventory, targets[1..])
  }

  /** The target an order poses: its delta with every tier negated (sol.py:218). */
  function Negated(delta: Ingredients): (r: Ingredients)
    ensures forall k :: 0 <= k < Tiers ==> r[k] == -delta[k]
  {
    [-delta[0], -delta[1], -delta[2], -delta[3]]
  }

  /** Covering the negated delta is the same as the delta leaving no tier
      negative: the planner's goal and the order's affordability agree. */
  lemma CanBrewNegated(inventory: Ingredients, delta: Ingredients)
    ensures CanBrew(inventory, Negated(delta)) <==> Nonnegative(AddInventories(inventory, delta))
  {
  }

}
