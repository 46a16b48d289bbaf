/** The turn policy of `main` without its input and output (sol.py:206-229):
    brew the best affordable order if there is one, otherwise take the first
    step of the shortest plan towards affording some order. */
module Policy {
  import opened Wrappers
  import opened Ingredients
  import opened Witches
  import opened Planner

  /** A potion order: brewing it adds `delta` (negative tiers are the
      ingredients it consumes) and earns `price` (sol.py:22-24). */
  datatype Brew = Brew(actionId: int, delta: Ingredients, price: int)

  /** The command a turn prints (sol.py:216, 225-229). */
  datatype Command = BrewCmd(id: int) | CastCmd(id: int) | RestCmd

  /** The inventory can pay for the order: no tier goes negative (sol.py:208-209). */
  predicate Affordable(inventory: Ingredients, order: Brew) {
    Nonnegative(AddInventories(inventory, order.delta))
  }

  /** Order `i` is affordable, costs `price`, and every affordable order
      before it is strictly cheaper: it is the one the scan keeps. */
  predicate ChosenAt(inventory: Ingredients, orders: seq<Brew>, i: int, price: int) {
    && 0 <= i < |orders|
    && Affordable(inventory, orders[i])
    && orders[i].price == price
    && forall j :: 0 <= j < i && Affordable(inventory, orders[j]) ==> orders[j].price < price
  }

  /** The order scan of sol.py:206-213: starting from price 0 and id 0, an
      affordable order replaces the current choice only when strictly
      dearer, so ties go to the earliest order and a price of 0 or less
      is never chosen. */
  method ChooseOrder(inventory: Ingredients, orders: seq<Brew>) returns (maxPrice: int, maxId: int)
    ensures maxPrice >= 0
    ensures forall i :: 0 <= i < |orders| && Affordable(inventory, orders[i]) ==> orders[i].price <= maxPrice
    ensures maxPrice == 0 ==> maxId == 0
    ensures maxPrice > 0 ==>
      exists i :: ChosenAt(inventory, orders, i, maxPrice) && orders[i].actionId == maxId
  {
    maxPrice, maxId := 0, 0;
    for i := 0 to |orders|
      invariant maxPrice >= 0
      invariant forall k :: 0 <= k < i && Affordable(inventory, orders[k]) ==> orders[k].price <= maxPrice
      invariant maxPrice == 0 ==> maxId == 0
      invariant maxPrice > 0 ==>
        exists k :: k < i && ChosenAt(inventory, orders, k, maxPrice) && orders[k].actionId == maxId
    {
      if Affordable(inventory, orders[i]) && orders[i].price > maxPrice {
        maxPrice, maxId := orders[i].price, orders[i].actionId;
        assert ChosenAt(inventory, orders, i, maxPrice);
      }
    }
  }

  /** The planner's targets: each order's delta negated (sol.py:218). */
  function Targets(orders: seq<Brew>): (r: seq<Ingredients>)
    ensures |r| == |orders|
    ensures forall i, k :: 0 <= i < |r| && 0 <= k < Tiers ==> r[i][k] == -orders[i].delta[k]
  {
    seq(|orders|, i requires 0 <= i < |orders| => Negated(orders[i].delta))
  }

  /** A node satisfies the targets exactly when its inventory can afford
      some order: the search looks for the nearest node from which an
      order can be brewed. */
  lemma SatisfiesTargetsIffAffordable(w: Witch, orders: seq<Brew>)
    ensures Satisfies(w, Targets(orders)) <==> exists i :: 0 <= i < |orders| && Affordable(w.inventory, orders[i])
  {
    var targets := Targets(orders);
    if Satisfies(w, targets) {
      var k :| 0 <= k < |targets| && CanBrew(w.inventory, targets[k]);
      CanBrewNegated(w.inventory, orders[k].delta);
    }
    if exists i :: 0 <= i < |orders| && Affordable(w.inventory, orders[i]) {
      var i :| 0 <= i < |orders| && Affordable(w.inventory, orders[i]);
      CanBrewNegated(w.inventory, orders[i].delta);
      assert CanBrew(w.inventory, targets[i]);
    }
  }

  /** One turn (sol.py:206-229): brew the chosen order if its price is
      positive; otherwise search from the current inventory and spells and
      take the first step of the plan found, `result[-1]`, or rest when
      there is none. The search is given `fuel` dequeues; running out is
      answered with a rest. */
  method Turn(inventory: Ingredients, spells: seq<Spell>, orders: seq<Brew>, fuel: nat)
    returns (cmd: Command)
    ensures cmd.BrewCmd? <==>
      exists i :: 0 <= i < |orders| && Affordable(inventory, orders[i]) && orders[i].price > 0
    ensures cmd.BrewCmd? ==>
      exists i :: 0 <= i < |orders| && ChosenAt(inventory, orders, i, orders[i].price) && orders[i].actionId == cmd.id
        && forall j :: 0 <= j < |orders| && Affordable(inventory, orders[j]) ==> orders[j].price <= orders[i].price
    ensures cmd.CastCmd? ==>
      exists plan: seq<Action> :: |plan| > 0 && plan[0].Cast? && plan[0].spell.actionId == cmd.id
        && ReachesGoal(Witch(inventory, spells), Targets(orders), plan)
        && forall other :: ReachesGoal(Witch(inventory, spells), Targets(orders), other) ==> |plan| <= |other|
  {
    var maxPrice, maxId := ChooseOrder(inventory, orders);
    if maxPrice > 0 {
      return BrewCmd(maxId);
    }
    var start := Witch(inventory, spells);
    var result, _ := FastestBrew(start, Targets(orders), fuel);
    if result.Some? && result.value != [] {
      var first := result.value[|result.value| - 1];
      ReverseFirst(result.value);
      var plan := Reverse(result.value);
      assert plan[0] == first;
      match first
      case Rest =>
        cmd := RestCmd;
      case Cast(spell) =>
        cmd := CastCmd(spell.actionId);
        assert ReachesGoal(start, Targets(orders), plan);
    } else {
      cmd := RestCmd;
    }
  }
}
