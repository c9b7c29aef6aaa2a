/** Goals and actions, the vocabulary of the planner (Assets/Planner/Goal.cs and
    Assets/Planner/Action.cs). A goal asks for one variable to have one value; an
    action has a set of goals as effects and a list of goals as preconditions. Each
    goal lists the actions that achieve it, so the two classes refer to each other
    and share this module. The per-type static goal table is an explicit
    `GoalTable` object here. */
module Domain {
  import opened Wrappers
  import opened Uids
  import opened Variables
  import opened LinkedLists

  /** The coroutine factory an action carries to execute it (Action.cs:32); the
      planner only stores it. */
  class Behavior {}

  class Goal<V(==,0)> {
    /** The uid issued by `UidBase` (UIDBase.cs:11). */
    const uid: nat
    const variable: Variable<V>
    const value: V
    /** `IsValidFor` (Goal.cs:23), consulted only by the executive. */
    var isValidFor: Agent? -> bool
    /** `Achievers` (Goal.cs:32): the actions that have this goal as an effect. */
    var achievers: seq<Action<V>>

    /** The goal is true in the game state for agent `a`: the engine's value of its
        variable is the goal's value. */
    predicate HoldsFor(a: Agent?)
    {
      variable.valueInEngine(a) == value
    }

    /** `Cost` (Goal.cs:37), the planner's estimate for achieving one goal: the
        same for every goal. */
    function Cost(): (c: int)
      ensures c == 1
    {
      1
    }

    /** The private constructor (Goal.cs:72-76), run only by `GoalTable.Find`; the
        new goal takes the next uid, has no achievers and is valid for every agent. */
    constructor (uids: UidSource, variable: Variable<V>, value: V)
      requires uids.Valid()
      modifies uids
      ensures uids.Valid()
      ensures uid == old(uids.nextUid) && uids.nextUid == Successor(old(uids.nextUid))
      ensures this.variable == variable && this.value == value
      ensures achievers == [] && forall a :: isValidFor(a)
    {
      var u := uids.Issue();
      uid := u;
      this.variable := variable;
      this.value := value;
      isValidFor := _ => true;
      achievers := [];
    }

    /** `IsTrueFor(a)` (Goal.cs:66): compares the variable's (cached) value with the
        goal's value, for every agent, `null` included. With a consistent cache and a
        real agent the answer is whether the goal holds, and the cache stays
        consistent. */
    method IsTrueFor(a: Agent?) returns (b: bool)
      modifies variable
      ensures variable.cachedFor == a
      ensures b <==> variable.cachedValue == value
      ensures variable.cachedValue
              == if old(variable.cachedFor) != a then variable.valueInEngine(a) else old(variable.cachedValue)
      ensures old(variable.CacheValid()) ==> variable.CacheValid()
      ensures old(variable.CacheValid()) && a != null ==> (b <==> HoldsFor(a))
    {
      var v := variable.ValueFor(a);
      b := v == value;
    }

    /** `ValidWhen(predicate)` (Goal.cs:99-103): replaces `IsValidFor` and returns the
        goal itself for chaining. */
    method ValidWhen(valid: Agent? -> bool) returns (self: Goal<V>)
      modifies this`isValidFor
      ensures self == this && isValidFor == valid
    {
      isValidFor := valid;
      self := this;
    }
  }

  /** No two distinct goals of `goals` ask for the same value of the same variable. */
  ghost predicate Interned<V(0)>(goals: set<Goal<V>>)
  {
    forall g, h :: g in goals && h in goals && g.variable == h.variable && g.value == h.value ==> g == h
  }

  /** The static `GoalTable` of `Goal<T>` (Goal.cs:92). */
  class GoalTable<V(==,0)> {
    var goals: map<(Variable<V>, V), Goal<V>>

    /** Every entry is the goal for its own key. */
    ghost predicate Valid()
      reads this
    {
      forall k :: k in goals ==> goals[k].variable == k.0 && goals[k].value == k.1
    }

    constructor ()
      ensures goals == map[] && Valid()
    {
      goals := map[];
    }

    /** `Goal<T>.Find(v, value)` (Goal.cs:81-87): the goal already recorded for the
        pair, or else a new goal, which is recorded. Only a new goal consumes a uid. */
    method Find(uids: UidSource, v: Variable<V>, value: V) returns (g: Goal<V>)
      requires Valid() && uids.Valid()
      modifies this, uids
      ensures Valid() && uids.Valid()
      ensures g.variable == v && g.value == value
      ensures (v, value) in goals && goals[(v, value)] == g
      ensures (v, value) in old(goals) ==>
                g == old(goals[(v, value)]) && goals == old(goals) && uids.nextUid == old(uids.nextUid)
      ensures (v, value) !in old(goals) ==>
                && fresh(g) && g.achievers == [] && goals == old(goals)[(v, value) := g]
                && g.uid == old(uids.nextUid) && uids.nextUid == Successor(old(uids.nextUid))
    {
      if (v, value) in goals {
        g := goals[(v, value)];
        return;
      }
      g := new Goal(uids, v, value);
      goals := goals[(v, value) := g];
    }
  }

  /** The implicit conversion of a Boolean variable to a goal (Goal.cs:42): the
      interned goal asking for the variable to be true. */
  method FromBool(table: GoalTable<bool>, uids: UidSource, b: Variable<bool>) returns (g: Goal<bool>)
    requires table.Valid() && uids.Valid()
    modifies table, uids
    ensures table.Valid() && uids.Valid()
    ensures g.variable == b && g.value == true
    ensures (b, true) in table.goals && table.goals[(b, true)] == g
    ensures table.goals == old(table.goals)[(b, true) := g]
    ensures (b, true) in old(table.goals) ==> g == old(table.goals[(b, true)]) && uids.nextUid == old(uids.nextUid)
    ensures (b, true) !in old(table.goals) ==> fresh(g) && uids.nextUid == Successor(old(uids.nextUid))
  {
    g := table.Find(uids, b, true);
  }

  /** Since only `Find` creates goals, the goals of a valid table are interned: a
      variable and a value determine at most one goal. */
  lemma TableInterns<V(0)>(table: GoalTable<V>)
    requires table.Valid()
    ensures Interned(table.goals.Values)
  {
    forall g, h | g in table.goals.Values && h in table.goals.Values && g.variable == h.variable && g.value == h.value
      ensures g == h
    {
      var k :| k in table.goals && table.goals[k] == g;
      var k' :| k' in table.goals && table.goals[k'] == h;
      assert k == k';
    }
  }

  /** The operator `v != value` (Variable.cs:91) is not implemented: it always throws. */
  function NotEquals<V(==,0)>(v: Variable<V>, value: V): (r: Result<Goal<V>, Exception>)
    ensures r == Failure(NotImplemented)
  {
    Failure(NotImplemented)
  }

  /** `n` copies of `x`. */
  function Repeat<T>(x: T, n: nat): (s: seq<T>)
    ensures |s| == n && forall i :: 0 <= i < n ==> s[i] == x
  {
    if n == 0 then [] else Repeat(x, n - 1) + [x]
  }

  /** The number of times `x` occurs in `s`. */
  function Occurrences<T(==)>(s: seq<T>, x: T): (n: nat)
    ensures n <= |s| && (n > 0 <==> x in s)
  {
    if s == [] then 0 else Occurrences(s[..|s| - 1], x) + (if s[|s| - 1] == x then 1 else 0)
  }

  /** Every achiever recorded for `g` has `g` among its effects. */
  ghost predicate Wired<V(0)>(g: Goal<V>)
    reads g, g.achievers
  {
    forall a :: a in g.achievers ==> g in a.effects
  }

  class Action<V(==,0)> {
    const name: string
    /** `Implementation` (Action.cs:32). */
    const implementation: Behavior?
    /** `Effects` (Action.cs:24), a hash set. */
    var effects: set<Goal<V>>
    /** `Preconditions` (Action.cs:28). */
    var preconditions: seq<Goal<V>>
    /** `Cost` (Action.cs:40). */
    var cost: int

    /** `new Action(name, implementation)` (Action.cs:34-38, 40): no effects, no
        preconditions, cost 1. */
    constructor (name: string, implementation: Behavior?)
      ensures this.name == name && this.implementation == implementation
      ensures effects == {} && preconditions == [] && cost == 1
    {
      this.name := name;
      this.implementation := implementation;
      effects := {};
      preconditions := [];
      cost := 1;
    }

    /** `Achieves(effects)` (Action.cs:42-50): adds every goal to the effects and the
        action to every goal's achievers, once per occurrence of the goal in the
        argument, and returns the action for chaining. Every goal of `goals` whose
        achievers all had it as an effect still has that property. */
    method Achieves(newEffects: seq<Goal<V>>, ghost goals: set<Goal<V>>) returns (self: Action<V>)
      modifies this`effects, set g | g in newEffects :: g`achievers
      ensures self == this
      ensures effects == old(effects) + set g | g in newEffects
      ensures forall g :: g in newEffects ==>
                g.achievers == old(g.achievers) + Repeat(this, Occurrences(newEffects, g))
      ensures forall g :: g in goals && old(Wired(g)) ==> Wired(g)
    {
      for i := 0 to |newEffects|
        invariant effects == old(effects) + set g | g in newEffects[..i]
        invariant forall g :: g in newEffects ==>
                    g.achievers == old(g.achievers) + Repeat(this, Occurrences(newEffects[..i], g))
      {
        var e := newEffects[i];
        assert e in newEffects;
        assert newEffects[..i + 1][..i] == newEffects[..i];
        AddEffect(e);
        AppendAssociative(old(e.achievers), Repeat(this, Occurrences(newEffects[..i], e)), [this]);
      }
      assert newEffects[..|newEffects|] == newEffects;
      forall g | g in goals && old(Wired(g))
        ensures Wired(g)
      {
        forall a | a in g.achievers
          ensures g in a.effects
        {
          if g in newEffects {
            if a !in old(g.achievers) {
              assert a == this;
            }
          } else {
            assert a in old(g.achievers);
          }
        }
      }
      self := this;
    }

    /** One iteration of the loop of `Achieves` (Action.cs:46-47). */
    method AddEffect(e: Goal<V>)
      modifies this`effects, e`achievers
      ensures effects == old(effects) + {e} && e.achievers == old(e.achievers) + [this]
    {
      effects := effects + {e};
      e.achievers := e.achievers + [this];
    }

    /** `Needs(preconditions)` (Action.cs:52-56): replaces the preconditions and
        returns the action for chaining. */
    method Needs(newPreconditions: seq<Goal<V>>) returns (self: Action<V>)
      modifies this`preconditions
      ensures self == this && preconditions == newPreconditions
    {
      preconditions := newPreconditions;
      self := this;
    }
  }
}
