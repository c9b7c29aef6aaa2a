/** The planner-visible game state of Assets/Planner/Variable.cs. A variable reads
    its value for an agent from the game engine through a probe function, and caches
    the value for the most recent agent. The static list `AllVariables` is the field
    of an explicit `VariableRegistry` object here. */
module Variables {
  import opened Uids

  /** An agent (NPC) of the game. The planner only passes agents around and compares
      them by reference. */
  class Agent {}

  class Variable<V(==,0)> {
    /** The uid issued by `UidBase` (UIDBase.cs:11). */
    const uid: nat
    const name: string
    /** `valueInEngine` (Variable.cs:57): the game's value of the variable for an
        agent. It is a fixed function here: the game state does not change while the
        planner runs. */
    const valueInEngine: Agent? -> V
    /** `CachedFor` and `cachedValue` (Variable.cs:27, 58). */
    var cachedFor: Agent?
    var cachedValue: V

    /** The cached value is the engine's value for the agent it is cached for. */
    ghost predicate CacheValid()
      reads this
    {
      cachedFor != null ==> cachedValue == valueInEngine(cachedFor)
    }

    /** `new Variable<T>(name, valueInEngine)` (Variable.cs:38-42, 81-84): takes the
        next uid, registers itself in `AllVariables`, and starts with nothing cached. */
    constructor (registry: VariableRegistry<V>, uids: UidSource, name: string, valueInEngine: Agent? -> V)
      requires uids.Valid()
      modifies registry, uids
      ensures uids.Valid()
      ensures uid == old(uids.nextUid) && uids.nextUid == Successor(old(uids.nextUid))
      ensures this.name == name && this.valueInEngine == valueInEngine
      ensures cachedFor == null && CacheValid()
      ensures registry.allVariables == old(registry.allVariables) + [this]
    {
      var u := uids.Issue();
      uid := u;
      this.name := name;
      this.valueInEngine := valueInEngine;
      cachedFor := null;
      new;
      registry.allVariables := registry.allVariables + [this];
    }

    /** `ValueFor(a)` (Variable.cs:65-74): asks the engine only when the cache belongs
        to a different agent. With a consistent cache the answer for a real agent is
        the engine's value; for `null` the stored value is returned as it is. */
    method ValueFor(a: Agent?) returns (v: V)
      modifies this
      ensures cachedFor == a && v == cachedValue
      ensures old(cachedFor) != a ==> v == valueInEngine(a)
      ensures old(cachedFor) == a ==> v == old(cachedValue)
      ensures old(CacheValid()) ==> CacheValid()
      ensures old(CacheValid()) && a != null ==> v == valueInEngine(a)
    {
      if cachedFor != a {
        cachedValue := valueInEngine(a);
        cachedFor := a;
      }
      v := cachedValue;
    }
  }

  /** The static `AllVariables` list (Variable.cs:21). */
  class VariableRegistry<V(==,0)> {
    var allVariables: seq<Variable<V>>

    constructor ()
      ensures allVariables == []
    {
      allVariables := [];
    }

    /** `InvalidateCachedValues` (Variable.cs:32-36): forgets the cached agent of every
        registered variable, which leaves every cache consistent. */
    method InvalidateCachedValues()
      modifies set v | v in allVariables
      ensures forall v :: v in allVariables ==> v.cachedFor == null && v.CacheValid()
      ensures forall v :: v in allVariables ==> v.cachedValue == old(v.cachedValue)
    {
      for i := 0 to |allVariables|
        invariant forall j :: 0 <= j < i ==> allVariables[j].cachedFor == null
        invariant forall v :: v in allVariables ==> v.cachedValue == old(v.cachedValue)
      {
        allVariables[i].cachedFor := null;
      }
    }
  }
}
