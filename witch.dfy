/** The search node of the planner: a witch's inventory and spells
    (sol.py:15-39), the two kinds of step out of a node (sol.py:73-119),
    and plans as sequences of such steps. */
module Witches {
  import opened Wrappers
  import opened Ingredients

  /** A spell the witch knows; `castable` goes false once it is used
      and true again after a rest. */
  datatype Spell = Spell(actionId: int, delta: Ingredients, price: int, castable: bool)

  /** A search node. Equality is structural, as for Python's frozen dataclass. */
  datatype Witch = Witch(inventory: Ingredients, spells: seq<Spell>)

  /** The step that led to a node: a rest, or the cast of a spell as it
      stood in the parent's spell list. */
  datatype Action = Rest | Cast(spell: Spell)

  /** The node reached by casting `spell` from `w` (sol.py:77-92). */
  function CastSuccessor(w: Witch, spell: Spell): Witch {
    var spells := seq(|w.spells|, i requires 0 <= i < |w.spells| =>
      var s := w.spells[i];
      Spell(s.actionId, s.delta, s.price, if spell.actionId == s.actionId then false else s.castable));
    Witch(AddInventories(w.inventory, spell.delta), spells)
  }

  /** Casting adds the spell's delta to the inventory and marks every spell
      with the same id as used; the other spells keep their flags, and no
      spell changes id, delta, price or position. */
  lemma CastSuccessorSpec(w: Witch, spell: Spell)
    ensures var r := CastSuccessor(w, spell);
      && (forall k :: 0 <= k < Tiers ==> r.inventory[k] == w.inventory[k] + spell.delta[k])
      && |r.spells| == |w.spells|
      && (forall i :: 0 <= i < |w.spells| ==>
           && r.spells[i].actionId == w.spells[i].actionId
           && r.spells[i].delta == w.spells[i].delta
           && r.spells[i].price == w.spells[i].price
           && (w.spells[i].actionId == spell.actionId ==> !r.spells[i].castable)
           && (w.spells[i].actionId != spell.actionId ==> r.spells[i].castable == w.spells[i].castable))
  {
  }

  /** The node reached by resting (sol.py:103-114). */
  function RestSuccessor(w: Witch): Witch {
    var spells := seq(|w.spells|, i requires 0 <= i < |w.spells| =>
      var s := w.spells[i];
      Spell(s.actionId, s.delta, s.price, true));
    Witch(w.inventory, spells)
  }

  /** Resting keeps the inventory and makes every spell castable, changing
      nothing else about the spells. */
  lemma RestSuccessorSpec(w: Witch)
    ensures var r := RestSuccessor(w);
      && r.inventory == w.inventory
      && |r.spells| == |w.spells|
      && forall i :: 0 <= i < |w.spells| ==>
           && r.spells[i].actionId == w.spells[i].actionId
           && r.spells[i].delta == w.spells[i].delta
           && r.spells[i].price == w.spells[i].price
           && r.spells[i].castable
  {
  }

  /** The successor relation the planner explores: a rest is always possible;
      a cast only of a castable spell of the node, and only when no tier of
      the result is negative. */
  function Apply(w: Witch, a: Action): Option<Witch> {
    match a
    case Rest => Some(RestSuccessor(w))
    case Cast(s) =>
      if s in w.spells && s.castable && Nonnegative(AddInventories(w.inventory, s.delta))
      then Some(CastSuccessor(w, s))
      else None
  }

  /** The node a plan leads to, its steps taken first to last; None when
      some step is not possible. */
  function Run(w: Witch, plan: seq<Action>): Option<Witch>
    decreases |plan|
  {
    if plan == [] then Some(w)
    else
      match Apply(w, plan[0])
      case None => None
      case Some(next) => Run(next, plan[1..])
  }

  /** The node satisfies some target. */
  predicate Satisfies(w: Witch, targets: seq<Ingredients>) {
    AnyBrewable(w.inventory, targets)
  }

  /** The plan is possible and ends at a node that satisfies some target. */
  predicate ReachesGoal(start: Witch, targets: seq<Ingredients>, plan: seq<Action>) {
    Run(start, plan).Some? && Satisfies(Run(start, plan).value, targets)
  }

  /** Python's `reversed`. */
  function Reverse<T>(s: seq<T>): seq<T> {
    if s == [] then [] else Reverse(s[1..]) + [s[0]]
  }

  /** Appending to a list prepends to its reversal. */
  lemma {:induction false} ReverseSnoc<T>(s: seq<T>, x: T)
    ensures Reverse(s + [x]) == [x] + Reverse(s)
    decreases |s|
  {
    if s != [] {
      assert (s + [x])[1..] == s[1..] + [x];
      ReverseSnoc(s[1..], x);
    }
  }

  /** Reversal keeps the length, and the first step of the reversed list is
      the last element of the list (`result[-1]`, sol.py:223). */
  lemma {:induction false} ReverseFirst<T>(s: seq<T>)
    ensures |Reverse(s)| == |s|
    ensures s != [] ==> Reverse(s)[0] == s[|s| - 1]
    decreases |s|
  {
    if s != [] {
      ReverseFirst(s[1..]);
      var init := s[..|s| - 1];
      assert s == init + [s[|s| - 1]];
      ReverseSnoc(init, s[|s| - 1]);
    }
  }

  /** Running a plan extended by one step is running the plan, then the step. */
  lemma {:induction false} RunSnoc(w: Witch, plan: seq<Action>, a: Action)
    ensures Run(w, plan + [a]) ==
      (if Run(w, plan).Some? then Apply(Run(w, plan).value, a) else None)
    decreases |plan|
  {
    if plan == [] {
      assert [] + [a] == [a];
    } else {
      assert (plan + [a])[1..] == plan[1..] + [a];
      match Apply(w, plan[0])
      case None =>
      case Some(next) => RunSnoc(next, plan[1..], a);
    }
  }

  /** A step keeps a nonnegative inventory nonnegative and the spell list's length. */
  lemma ApplyKeepsNonnegative(w: Witch, a: Action)
    requires Nonnegative(w.inventory)
    requires Apply(w, a).Some?
    ensures Nonnegative(Apply(w, a).value.inventory)
    ensures |Apply(w, a).value.spells| == |w.spells|
  {
  }

  /** Every node a plan reaches from a nonnegative start is nonnegative. */
  lemma {:induction false} RunKeepsNonnegative(w: Witch, plan: seq<Action>)
    requires Nonnegative(w.inventory)
    requires Run(w, plan).Some?
    ensures Nonnegative(Run(w, plan).value.inventory)
    ensures |Run(w, plan).value.spells| == |w.spells|
    decreases |plan|
  {
    if plan != [] {
      ApplyKeepsNonnegative(w, plan[0]);
      RunKeepsNonnegative(Apply(w, plan[0]).value, plan[1..]);
    }
  }

  /** No spell of `w` with id `id` is castable. */
  predicate UsedUp(w: Witch, id: int) {
    forall sp :: sp in w.spells && sp.actionId == id ==> !sp.castable
  }

  /** A cast keeps a used-up id used up. */
  lemma CastKeepsUsedUp(w: Witch, s: Spell, id: int)
    requires UsedUp(w, id)
    ensures UsedUp(CastSuccessor(w, s), id)
  {
    var r := CastSuccessor(w, s);
    CastSuccessorSpec(w, s);
    forall sp | sp in r.spells && sp.actionId == id
      ensures !sp.castable
    {
      var i :| 0 <= i < |r.spells| && r.spells[i] == sp;
      assert w.spells[i] in w.spells;
    }
  }

  /** A plan made only of casts keeps a used-up id used up. */
  lemma {:induction false} CastsKeepUsedUp(w: Witch, plan: seq<Action>, id: int)
    requires UsedUp(w, id)
    requires forall i :: 0 <= i < |plan| ==> plan[i].Cast?
    ensures Run(w, plan).Some? ==> UsedUp(Run(w, plan).value, id)
    decreases |plan|
  {
    if plan != [] && Apply(w, plan[0]).Some? {
      CastKeepsUsedUp(w, plan[0].spell, id);
      CastsKeepUsedUp(Apply(w, plan[0]).value, plan[1..], id);
    }
  }

  /** After a cast, no spell with that id can be cast again before a rest:
      any run of further casts that ends by casting that id fails. */
  lemma CastUsedUntilRest(w: Witch, s: Spell, plan: seq<Action>, t: Spell)
    requires Apply(w, Cast(s)).Some?
    requires forall i :: 0 <= i < |plan| ==> plan[i].Cast?
    requires t.actionId == s.actionId
    ensures Run(Apply(w, Cast(s)).value, plan + [Cast(t)]).None?
  {
    var next := Apply(w, Cast(s)).value;
    assert UsedUp(next, s.actionId) by {
      CastSuccessorSpec(w, s);
      forall sp | sp in next.spells && sp.actionId == s.actionId
        ensures !sp.castable
      {
        var i :| 0 <= i < |next.spells| && next.spells[i] == sp;
      }
    }
    CastsKeepUsedUp(next, plan, s.actionId);
    RunSnoc(next, plan, Cast(t));
  }

  /** Resting twice is resting once. */
  lemma RestIdempotent(w: Witch)
    ensures RestSuccessor(RestSuccessor(w)) == RestSuccessor(w)
  {
  }

  /** A rest erases the marks a cast leaves: cast-then-rest differs from
      rest alone only in the inventory. */
  lemma RestAfterCast(w: Witch, s: Spell)
    ensures RestSuccessor(CastSuccessor(w, s)).spells == RestSuccessor(w).spells
    ensures RestSuccessor(CastSuccessor(w, s)).inventory == AddInventories(w.inventory, s.delta)
  {
  }
}
