/** The search nodes of the planner (Assets/Planner/PartialPlan.cs) and the
    protected-goal dictionary they carry. */
module PartialPlans {
  import opened Wrappers
  import opened LinkedLists
  import opened Variables
  import opened Domain

  /** A partially worked-out plan (PartialPlan.cs:11-40): the actions chosen so far,
      first-to-execute first; the subgoals still to establish before them; the goals
      already true that they rely on, keyed by variable; and the summed action cost. */
  datatype PartialPlan<V(==,0)> = PartialPlan(
    plan: LList<Action<V>>,
    remainingSubgoals: LList<Goal<V>>,
    protected: map<Variable<V>, Goal<V>>,
    cost: int)

  /** The constructor (PartialPlan.cs:33-39) stores its four arguments, and a node is
      nothing but them: two nodes with the same fields are the same node, so a node
      cannot change once built. */
  lemma PartialPlanStores<V(0)>(plan: LList<Action<V>>, remainingSubgoals: LList<Goal<V>>,
                                protected: map<Variable<V>, Goal<V>>, cost: int, other: PartialPlan<V>)
    ensures var n := PartialPlan(plan, remainingSubgoals, protected, cost);
            && n.plan == plan && n.remainingSubgoals == remainingSubgoals
            && n.protected == protected && n.cost == cost
            && (n == other <==> other.plan == plan && other.remainingSubgoals == remainingSubgoals
                                && other.protected == protected && other.cost == cost)
  {
  }

  /** Every protected entry is the goal of its own variable and holds for `agent`. */
  ghost predicate ProtectsTrueGoals<V(0)>(protected: map<Variable<V>, Goal<V>>, agent: Agent?)
  {
    forall v :: v in protected ==> protected[v].variable == v && protected[v].HoldsFor(agent)
  }

  /** `ImmutableSortedDictionary.Add(key, value)`: adding a key that is already
      present is allowed only with the same value, and then changes nothing;
      otherwise it throws `ArgumentException`. */
  function DictionaryAdd<K, W(==)>(m: map<K, W>, key: K, value: W): (r: Result<map<K, W>, Exception>)
    ensures r.Success? <==> key !in m || m[key] == value
    ensures r.Success? ==> r.value.Keys == m.Keys + {key} && r.value[key] == value
    ensures r.Success? ==> forall k :: k in m ==> r.value[k] == m[k]
    ensures r.Failure? ==> r.error == DuplicateKey
  {
    if key in m && m[key] != value then Failure(DuplicateKey) else Success(m[key := value])
  }

  /** The variables of the preconditions that hold for `agent`. */
  ghost function HeldVariables<V(0)>(preconditions: seq<Goal<V>>, agent: Agent?): set<Variable<V>>
  {
    set p | p in preconditions && p.HoldsFor(agent) :: p.variable
  }

  lemma HeldVariablesSnoc<V(0)>(ps: seq<Goal<V>>, p: Goal<V>, agent: Agent?)
    ensures HeldVariables(ps + [p], agent) == HeldVariables(ps, agent) + (if p.HoldsFor(agent) then {p.variable} else {})
  {
    assert forall q :: q in ps + [p] <==> q in ps || q == p;
  }

  /** `after` is `before` with every precondition that holds for `agent` protected
      under its variable, and nothing else added or changed. */
  ghost predicate ProtectionExtended<V(0)>(before: map<Variable<V>, Goal<V>>, after: map<Variable<V>, Goal<V>>,
                                           preconditions: seq<Goal<V>>, agent: Agent?)
  {
    && after.Keys == before.Keys + HeldVariables(preconditions, agent)
    && (forall v :: v in before ==> after[v] == before[v])
    && (forall p :: p in preconditions && p.HoldsFor(agent) ==> after[p.variable] == p)
  }

  /** A precondition that holds and agrees with what is protected is protected
      under its variable (Planner.cs:103). */
  lemma ProtectionAdds<V(0)>(before: map<Variable<V>, Goal<V>>, after: map<Variable<V>, Goal<V>>,
                             ps: seq<Goal<V>>, p: Goal<V>, agent: Agent?)
    requires ProtectionExtended(before, after, ps, agent) && p.HoldsFor(agent)
    requires p.variable !in after || after[p.variable] == p
    ensures ProtectionExtended(before, after[p.variable := p], ps + [p], agent)
  {
    HeldVariablesSnoc(ps, p, agent);
    assert forall q :: q in ps + [p] <==> q in ps || q == p;
  }

  /** A precondition that does not hold protects nothing. */
  lemma ProtectionSkips<V(0)>(before: map<Variable<V>, Goal<V>>, after: map<Variable<V>, Goal<V>>,
                              ps: seq<Goal<V>>, p: Goal<V>, agent: Agent?)
    requires ProtectionExtended(before, after, ps, agent) && !p.HoldsFor(agent)
    ensures ProtectionExtended(before, after, ps + [p], agent)
  {
    HeldVariablesSnoc(ps, p, agent);
    assert forall q :: q in ps + [p] <==> q in ps || q == p;
  }

  /** Protecting the true preconditions keeps every protected goal true. */
  lemma ExtendedProtectsTrueGoals<V(0)>(before: map<Variable<V>, Goal<V>>, after: map<Variable<V>, Goal<V>>,
                                        preconditions: seq<Goal<V>>, agent: Agent?)
    requires ProtectsTrueGoals(before, agent) && ProtectionExtended(before, after, preconditions, agent)
    ensures ProtectsTrueGoals(after, agent)
    ensures after.Values <= before.Values + set p | p in preconditions
  {
    forall v | v in after
      ensures after[v].variable == v && after[v].HoldsFor(agent)
      ensures after[v] in before.Values + set p | p in preconditions
    {
      if v !in before {
        assert v in HeldVariables(preconditions, agent);
        var p :| p in preconditions && p.HoldsFor(agent) && p.variable == v;
        assert after[v] == p;
      } else {
        assert after[v] == before[v];
      }
    }
  }

  /** A true goal never conflicts with a protected goal when goals are interned: a
      protected goal on the same variable is true too, so it asks for the same value
      and is the same goal. This is why `ImmutableSortedDictionary.Add` never throws
      in the planner (Planner.cs:103). */
  lemma ConflictFree<V(0)>(protected: map<Variable<V>, Goal<V>>, p: Goal<V>, agent: Agent?, goals: set<Goal<V>>)
    requires ProtectsTrueGoals(protected, agent) && p.HoldsFor(agent)
    requires protected.Values <= goals && p in goals && Interned(goals)
    ensures p.variable !in protected || protected[p.variable] == p
  {
    if p.variable in protected {
      var q := protected[p.variable];
      assert q in protected.Values;
    }
  }
}
