/** The backward-chaining best-first search of Assets/Planner/Planner.cs. Starting
    from a node whose only subgoal is the goal, the planner repeatedly removes the
    cheapest node from a priority queue; a node with no subgoals left is a plan.
    Otherwise the node's first subgoal is expanded with each of its achievers: the
    achiever is prepended to the plan, the subgoals it establishes are dropped, its
    preconditions that already hold are protected and the others become subgoals.

    The game state does not change during one call, so whether a goal holds is the
    fixed predicate `Goal.HoldsFor`; `Goal.IsTrueFor` answers the same for a real
    agent whenever the variable's cache is consistent. */
module Planning {
  import opened Wrappers
  import opened LinkedLists
  import opened MinQueues
  import opened Variables
  import opened Domain
  import opened PartialPlans

  /** The default of `Planner.Timeout` (Planner.cs:14), the number of nodes the
      search may remove from its queue. */
  const DefaultTimeout: int := 100

  /** Keeps the goals that do not hold for `agent`. */
  function Unmet<V(==,0)>(agent: Agent?): Goal<V> -> bool
  {
    (p: Goal<V>) => !p.HoldsFor(agent)
  }

  /** Keeps the goals that are not among `effects`. */
  function NotAmong<V(==,0)>(effects: set<Goal<V>>): Goal<V> -> bool
  {
    (g: Goal<V>) => g !in effects
  }

  /** `s` back to front. */
  function Reversed<T>(s: seq<T>): (r: seq<T>)
    ensures |r| == |s| && forall i :: 0 <= i < |s| ==> r[i] == s[|s| - 1 - i]
  {
    if s == [] then [] else [s[|s| - 1]] + Reversed(s[..|s| - 1])
  }

  lemma ReversedMembers<T>(s: seq<T>)
    ensures forall x :: x in Reversed(s) <==> x in s
  {
    forall x | x in s
      ensures x in Reversed(s)
    {
      var i :| 0 <= i < |s| && s[i] == x;
      assert Reversed(s)[|s| - 1 - i] == x;
    }
  }

  lemma ReversedSnoc<T>(s: seq<T>, x: T)
    ensures Reversed(s + [x]) == [x] + Reversed(s)
  {
    assert (s + [x])[..|s|] == s;
  }

  /** The subgoals and estimate after the preconditions `ps` were sorted: the unmet
      ones were pushed one at a time onto `subgoals`, each adding 1 to `heuristic`. */
  ghost predicate PushedUnmet<V(0)>(agent: Agent?, ps: seq<Goal<V>>, subgoals: LList<Goal<V>>, heuristic: int,
                                    newSubgoals: LList<Goal<V>>, newHeuristic: int)
  {
    && Elements(newSubgoals) == Reversed(Filter(ps, Unmet(agent))) + Elements(subgoals)
    && newHeuristic == heuristic + |Filter(ps, Unmet(agent))|
  }

  /** The outcome of sorting the preconditions `ps`, starting from the protected
      goals `protectedGoals`, the subgoals `subgoals` and the estimate `heuristic`. */
  ghost predicate SortedInto<V(0)>(agent: Agent?, ps: seq<Goal<V>>,
                                   protectedGoals: map<Variable<V>, Goal<V>>, subgoals: LList<Goal<V>>, heuristic: int,
                                   newProtected: map<Variable<V>, Goal<V>>, newSubgoals: LList<Goal<V>>, newHeuristic: int)
  {
    && ProtectionExtended(protectedGoals, newProtected, ps, agent)
    && PushedUnmet(agent, ps, subgoals, heuristic, newSubgoals, newHeuristic)
  }

  /** Filtering a list with a last element `x`. */
  lemma FilterSnoc<T>(s: seq<T>, x: T, keep: T -> bool)
    ensures Filter(s + [x], keep) == Filter(s, keep) + (if keep(x) then [x] else [])
  {
    FilterAppend(s, [x], keep);
    FilterCons(x, [], keep);
    assert [x] + [] == [x];
  }

  /** One more precondition `p` that holds leaves the subgoals and the estimate
      alone. */
  lemma PushSkipsMet<V(0)>(agent: Agent?, ps: seq<Goal<V>>, p: Goal<V>, subgoals: LList<Goal<V>>, heuristic: int,
                           newSubgoals: LList<Goal<V>>, newHeuristic: int)
    requires PushedUnmet(agent, ps, subgoals, heuristic, newSubgoals, newHeuristic) && p.HoldsFor(agent)
    ensures PushedUnmet(agent, ps + [p], subgoals, heuristic, newSubgoals, newHeuristic)
  {
    FilterSnoc(ps, p, Unmet(agent));
    assert Filter(ps + [p], Unmet(agent)) == Filter(ps, Unmet(agent)) + [];
  }

  /** One more precondition `p` that does not hold is pushed onto the subgoals and
      adds 1 to the estimate. */
  lemma PushUnmet<V(0)>(agent: Agent?, ps: seq<Goal<V>>, p: Goal<V>, subgoals: LList<Goal<V>>, heuristic: int,
                        newSubgoals: LList<Goal<V>>, newHeuristic: int, pushed: LList<Goal<V>>)
    requires PushedUnmet(agent, ps, subgoals, heuristic, newSubgoals, newHeuristic) && !p.HoldsFor(agent)
    requires Elements(pushed) == [p] + Elements(newSubgoals)
    ensures PushedUnmet(agent, ps + [p], subgoals, heuristic, pushed, newHeuristic + 1)
  {
    FilterSnoc(ps, p, Unmet(agent));
    PushReversed(Filter(ps, Unmet(agent)), p, Elements(subgoals));
  }

  lemma PushReversed<T>(s: seq<T>, x: T, rest: seq<T>)
    ensures [x] + (Reversed(s) + rest) == Reversed(s + [x]) + rest
  {
    AppendAssociative([x], Reversed(s), rest);
    ReversedSnoc(s, x);
  }

  /** One more precondition `p` that holds and agrees with what is protected: it
      is protected under its variable. */
  lemma SortMet<V(0)>(agent: Agent?, ps: seq<Goal<V>>, p: Goal<V>,
                      protectedGoals: map<Variable<V>, Goal<V>>, subgoals: LList<Goal<V>>, heuristic: int,
                      newProtected: map<Variable<V>, Goal<V>>, newSubgoals: LList<Goal<V>>, newHeuristic: int)
    requires SortedInto(agent, ps, protectedGoals, subgoals, heuristic, newProtected, newSubgoals, newHeuristic)
    requires p.HoldsFor(agent) && (p.variable !in newProtected || newProtected[p.variable] == p)
    ensures SortedInto(agent, ps + [p], protectedGoals, subgoals, heuristic,
                       newProtected[p.variable := p], newSubgoals, newHeuristic)
  {
    ProtectionAdds(protectedGoals, newProtected, ps, p, agent);
    PushSkipsMet(agent, ps, p, subgoals, heuristic, newSubgoals, newHeuristic);
  }

  /** One more precondition `p` that does not hold: it is pushed onto the subgoals. */
  lemma SortUnmet<V(0)>(agent: Agent?, ps: seq<Goal<V>>, p: Goal<V>,
                        protectedGoals: map<Variable<V>, Goal<V>>, subgoals: LList<Goal<V>>, heuristic: int,
                        newProtected: map<Variable<V>, Goal<V>>, newSubgoals: LList<Goal<V>>, newHeuristic: int,
                        pushed: LList<Goal<V>>)
    requires SortedInto(agent, ps, protectedGoals, subgoals, heuristic, newProtected, newSubgoals, newHeuristic)
    requires !p.HoldsFor(agent) && Elements(pushed) == [p] + Elements(newSubgoals)
    ensures SortedInto(agent, ps + [p], protectedGoals, subgoals, heuristic,
                       newProtected, pushed, newHeuristic + 1)
  {
    ProtectionSkips(protectedGoals, newProtected, ps, p, agent);
    PushUnmet(agent, ps, p, subgoals, heuristic, newSubgoals, newHeuristic, pushed);
  }

  /** While the preconditions are sorted, a precondition that holds never conflicts
      with what is protected so far, when the goals protected at the start hold and
      all goals involved are interned. */
  lemma NoConflict<V(0)>(agent: Agent?, preconditions: seq<Goal<V>>, i: int,
                         protectedGoals: map<Variable<V>, Goal<V>>, newProtected: map<Variable<V>, Goal<V>>)
    requires 0 <= i < |preconditions| && preconditions[i].HoldsFor(agent)
    requires ProtectionExtended(protectedGoals, newProtected, preconditions[..i], agent)
    requires ProtectsTrueGoals(protectedGoals, agent) && Interned(protectedGoals.Values + set p | p in preconditions)
    ensures var p := preconditions[i];
            p.variable !in newProtected || newProtected[p.variable] == p
  {
    var goals := protectedGoals.Values + set p | p in preconditions;
    ExtendedProtectsTrueGoals(protectedGoals, newProtected, preconditions[..i], agent);
    assert newProtected.Values <= goals by {
      forall g | g in set p | p in preconditions[..i]
        ensures g in preconditions
      {
      }
    }
    ConflictFree(newProtected, preconditions[i], agent, goals);
  }

  /** `TotalGoalCost` (Planner.cs:116-122): every goal costs 1, so the estimate is
      the number of subgoals. */
  method TotalGoalCost<V(==,0)>(newSubgoals: LList<Goal<V>>) returns (heuristic: int)
    ensures heuristic == Length(newSubgoals)
  {
    heuristic := 0;
    var cell := newSubgoals;
    while cell != Nil
      invariant heuristic + Length(cell) == Length(newSubgoals)
      decreases cell
    {
      heuristic := heuristic + cell.first.Cost();
      cell := cell.rest;
    }
  }

  /** `SortPreconditions` (Planner.cs:94-111). The preconditions that hold are
      protected; the others are pushed onto the subgoals one at a time, so they end
      up in reverse order in front of them, each adding its cost to the estimate.
      Protecting fails only on a variable already protected with a different goal,
      which cannot happen when the protected goals hold and goals are interned. */
  method SortPreconditions<V(==,0)>(agent: Agent?, preconditions: seq<Goal<V>>,
                                    protectedGoals: map<Variable<V>, Goal<V>>,
                                    subgoals: LList<Goal<V>>, heuristic: int, next: nat)
    returns (r: Result<(map<Variable<V>, Goal<V>>, LList<Goal<V>>, int), Exception>, next': nat)
    ensures next' >= next
    ensures r.Success? ==>
              SortedInto(agent, preconditions, protectedGoals, subgoals, heuristic, r.value.0, r.value.1, r.value.2)
    ensures r.Failure? ==> r.error == DuplicateKey
    ensures ProtectsTrueGoals(protectedGoals, agent) && Interned(protectedGoals.Values + set p | p in preconditions)
            ==> r.Success?
  {
    var newProtected, newSubgoals, newHeuristic := protectedGoals, subgoals, heuristic;
    next' := next;
    for i := 0 to |preconditions|
      invariant next' >= next
      invariant SortedInto(agent, preconditions[..i], protectedGoals, subgoals, heuristic,
                           newProtected, newSubgoals, newHeuristic)
    {
      var p := preconditions[i];
      assert preconditions[..i + 1] == preconditions[..i] + [p];
      if p.HoldsFor(agent) {
        if ProtectsTrueGoals(protectedGoals, agent) && Interned(protectedGoals.Values + set p | p in preconditions) {
          NoConflict(agent, preconditions, i, protectedGoals, newProtected);
        }
        var added := DictionaryAdd(newProtected, p.variable, p);
        if added.Failure? {
          return Failure(DuplicateKey), next';
        }
        SortMet(agent, preconditions[..i], p, protectedGoals, subgoals, heuristic,
                newProtected, newSubgoals, newHeuristic);
        newProtected := added.value;
      } else {
        var (cell, n) := New(p, newSubgoals, next');
        SortUnmet(agent, preconditions[..i], p, protectedGoals, subgoals, heuristic,
                  newProtected, newSubgoals, newHeuristic, cell);
        newSubgoals, next' := cell, n;
        newHeuristic := newHeuristic + p.Cost();
      }
    }
    assert preconditions[..|preconditions|] == preconditions;
    r := Success((newProtected, newSubgoals, newHeuristic));
  }

  /** `child` is the elaboration of `node` by the achiever `a` of its first subgoal
      (Planner.cs:56-72), with cells allocated from `next` on: `a` is prepended to
      the plan and its cost added; the rest of the subgoals goes through `Where` as
      written, so it loses the effects of `a` up to the last subgoal `a` does not
      achieve (see `WhereShape`); the unmet preconditions of `a` are pushed in front
      of it; the met preconditions are protected. */
  ghost predicate ChildOf<V(0)>(agent: Agent?, node: PartialPlan<V>, a: Action<V>, next: nat, child: PartialPlan<V>)
    requires node.remainingSubgoals.Cell?
    reads a
  {
    && child.plan.Cell? && child.plan.first == a && child.plan.rest == node.plan
    && child.cost == node.cost + a.cost
    && ProtectionExtended(node.protected, child.protected, a.preconditions, agent)
    && Elements(child.remainingSubgoals)
       == Reversed(Filter(a.preconditions, Unmet(agent)))
          + Elements(Where(node.remainingSubgoals.rest, NotAmong(a.effects), Nil, next).0)
  }

  /** The body of the planner's `foreach` over the achievers (Planner.cs:56-75):
      builds the child of `node` for the achiever `a` and its queue priority, the
      child's cost plus the number of its subgoals. */
  method Elaborate<V(==,0)>(agent: Agent?, node: PartialPlan<V>, a: Action<V>, next: nat)
    returns (r: Result<(PartialPlan<V>, int), Exception>, next': nat)
    requires node.remainingSubgoals.Cell?
    ensures next' >= next
    ensures r.Success? ==>
              && ChildOf(agent, node, a, next, r.value.0)
              && r.value.1 == r.value.0.cost + Length(r.value.0.remainingSubgoals)
    ensures r.Failure? ==> r.error == DuplicateKey
    ensures ProtectsTrueGoals(node.protected, agent) && Interned(node.protected.Values + set p | p in a.preconditions)
            ==> r.Success?
  {
    var effects := a.effects;
    var (newSubgoals, n1) := Where(node.remainingSubgoals.rest, NotAmong(effects), Nil, next);
    var heuristic := TotalGoalCost(newSubgoals);
    var sorted, n2 := SortPreconditions(agent, a.preconditions, node.protected, newSubgoals, heuristic, n1);
    if sorted.Failure? {
      return Failure(sorted.error), n2;
    }
    var (newProtected, subgoals, estimate) := sorted.value;
    var (plan, n3) := New(a, node.plan, n2);
    var child := PartialPlan(plan, subgoals, newProtected, node.cost + a.cost);
    r := Success((child, child.cost + estimate));
    next' := n3;
  }

  /** A node the planner queues: its protected goals hold; it has at most `bound`
      actions; it is either the root, whose one subgoal is the goal, or its last
      action is an achiever of the goal and none of its subgoals holds. */
  ghost predicate Sound<V(0)>(n: PartialPlan<V>, goal: Goal<V>, achievers: seq<Action<V>>, agent: Agent?, bound: int)
  {
    && ProtectsTrueGoals(n.protected, agent)
    && Length(n.plan) <= bound
    && (n.plan == Nil ==> Elements(n.remainingSubgoals) == [goal] && n.protected == map[])
    && (n.plan != Nil ==>
          && Elements(n.plan)[Length(n.plan) - 1] in achievers
          && forall g :: g in Elements(n.remainingSubgoals) ==> !g.HoldsFor(agent))
  }

  /** Every goal a node mentions belongs to `universe`. */
  ghost predicate WithinUniverse<V(0)>(n: PartialPlan<V>, universe: set<Goal<V>>)
  {
    && n.protected.Values <= universe
    && forall g :: g in Elements(n.remainingSubgoals) ==> g in universe
  }

  /** The preconditions of every achiever of a goal of `universe` are in `universe`. */
  ghost predicate Closed<V(0)>(universe: set<Goal<V>>)
    reads universe, set g, a | g in universe && a in g.achievers :: a
  {
    forall g, a, p :: g in universe && a in g.achievers && p in a.preconditions ==> p in universe
  }

  /** Every subgoal of a child is an unmet precondition of its action or one of the
      parent's remaining subgoals after the first. */
  lemma ChildSubgoal<V(0)>(agent: Agent?, node: PartialPlan<V>, a: Action<V>, next: nat, child: PartialPlan<V>, g: Goal<V>)
    requires node.remainingSubgoals.Cell? && ChildOf(agent, node, a, next, child)
    requires g in Elements(child.remainingSubgoals)
    ensures (g in a.preconditions && !g.HoldsFor(agent)) || g in Elements(node.remainingSubgoals.rest)
  {
    var pre := Filter(a.preconditions, Unmet(agent));
    if g in Reversed(pre) {
      ReversedMembers(pre);
      FilterMembers(a.preconditions, Unmet(agent));
    } else {
      WhereMembers(node.remainingSubgoals.rest, NotAmong(a.effects), Nil, next, g);
    }
  }

  lemma ChildSubgoals<V(0)>(agent: Agent?, node: PartialPlan<V>, a: Action<V>, next: nat, child: PartialPlan<V>)
    requires node.remainingSubgoals.Cell? && ChildOf(agent, node, a, next, child)
    ensures forall g :: g in Elements(child.remainingSubgoals) ==>
              (g in a.preconditions && !g.HoldsFor(agent)) || g in Elements(node.remainingSubgoals.rest)
  {
    forall g | g in Elements(child.remainingSubgoals)
      ensures (g in a.preconditions && !g.HoldsFor(agent)) || g in Elements(node.remainingSubgoals.rest)
    {
      ChildSubgoal(agent, node, a, next, child, g);
    }
  }

  /** The children of a sound node are sound, one action further. */
  lemma ChildSound<V(0)>(agent: Agent?, node: PartialPlan<V>, a: Action<V>, next: nat, child: PartialPlan<V>,
                         goal: Goal<V>, achievers: seq<Action<V>>, bound: int)
    requires node.remainingSubgoals.Cell? && a in node.remainingSubgoals.first.achievers
    requires goal.achievers == achievers
    requires Sound(node, goal, achievers, agent, bound) && ChildOf(agent, node, a, next, child)
    ensures Sound(child, goal, achievers, agent, bound + 1)
  {
    ChildSubgoals(agent, node, a, next, child);
    ExtendedProtectsTrueGoals(node.protected, child.protected, a.preconditions, agent);
    var rest := Elements(node.remainingSubgoals.rest);
    assert Elements(node.remainingSubgoals) == [node.remainingSubgoals.first] + rest;
    assert Elements(child.plan) == [a] + Elements(node.plan);
    if node.plan == Nil {
      assert [node.remainingSubgoals.first] + rest == [goal];
      assert |[node.remainingSubgoals.first] + rest| == 1 + |rest| == 1;
      assert ([node.remainingSubgoals.first] + rest)[0] == node.remainingSubgoals.first;
      assert node.remainingSubgoals.first == goal;
      assert |rest| == 0;
      assert rest == [];
      assert Elements(child.plan) == [a] && Length(child.plan) == 1;
    } else {
      assert Elements(child.plan)[Length(child.plan) - 1] == Elements(node.plan)[Length(node.plan) - 1];
    }
  }

  /** In a closed universe, the children of a node within the universe stay within
      it, and so do the goals elaborating the node may protect. */
  lemma ChildWithinUniverse<V(0)>(agent: Agent?, node: PartialPlan<V>, a: Action<V>, next: nat, child: PartialPlan<V>,
                                  universe: set<Goal<V>>)
    requires node.remainingSubgoals.Cell? && a in node.remainingSubgoals.first.achievers
    requires WithinUniverse(node, universe) && Closed(universe)
    ensures node.protected.Values + (set p | p in a.preconditions) <= universe
    ensures ProtectsTrueGoals(node.protected, agent) && ChildOf(agent, node, a, next, child)
            ==> WithinUniverse(child, universe)
  {
    var rest := Elements(node.remainingSubgoals.rest);
    assert Elements(node.remainingSubgoals) == [node.remainingSubgoals.first] + rest;
    assert node.remainingSubgoals.first in universe;
    if ProtectsTrueGoals(node.protected, agent) && ChildOf(agent, node, a, next, child) {
      ChildSubgoals(agent, node, a, next, child);
      ExtendedProtectsTrueGoals(node.protected, child.protected, a.preconditions, agent);
    }
  }

  /** Every queued node is sound with at most `bound` actions and, when `closed`
      holds, within `universe`. */
  ghost predicate AllSound<V(0)>(data: seq<(int, PartialPlan<V>)>, goal: Goal<V>, achievers: seq<Action<V>>,
                                 agent: Agent?, bound: int, closed: bool, universe: set<Goal<V>>)
  {
    forall e :: e in data ==> Sound(e.1, goal, achievers, agent, bound) && (closed ==> WithinUniverse(e.1, universe))
  }

  lemma AllSoundShrinks<V(0)>(before: seq<(int, PartialPlan<V>)>, after: seq<(int, PartialPlan<V>)>,
                              goal: Goal<V>, achievers: seq<Action<V>>, agent: Agent?, bound: int,
                              closed: bool, universe: set<Goal<V>>)
    requires AllSound(before, goal, achievers, agent, bound, closed, universe) && multiset(after) <= multiset(before)
    ensures AllSound(after, goal, achievers, agent, bound, closed, universe)
  {
    forall e | e in after
      ensures e in before
    {
      assert e in multiset(after);
    }
  }

  lemma AllSoundLater<V(0)>(data: seq<(int, PartialPlan<V>)>, goal: Goal<V>, achievers: seq<Action<V>>,
                            agent: Agent?, bound: int,
                            closed: bool, universe: set<Goal<V>>)
    requires AllSound(data, goal, achievers, agent, bound, closed, universe)
    ensures AllSound(data, goal, achievers, agent, bound + 1, closed, universe)
  {
  }

  lemma AllSoundGrows<V(0)>(before: seq<(int, PartialPlan<V>)>, after: seq<(int, PartialPlan<V>)>, added: (int, PartialPlan<V>),
                            goal: Goal<V>, achievers: seq<Action<V>>, agent: Agent?, bound: int,
                            closed: bool, universe: set<Goal<V>>)
    requires AllSound(before, goal, achievers, agent, bound, closed, universe)
    requires Sound(added.1, goal, achievers, agent, bound) && (closed ==> WithinUniverse(added.1, universe))
    requires multiset(after) == multiset(before) + multiset{added}
    ensures AllSound(after, goal, achievers, agent, bound, closed, universe)
  {
    forall e | e in after
      ensures e in before || e == added
    {
      assert e in multiset(after);
    }
  }

  /** Queueing a child of a sound node keeps every queued node sound. */
  lemma ChildQueued<V(0)>(agent: Agent?, node: PartialPlan<V>, a: Action<V>, next: nat, child: PartialPlan<V>, priority: int,
                          before: seq<(int, PartialPlan<V>)>, after: seq<(int, PartialPlan<V>)>,
                          goal: Goal<V>, achievers: seq<Action<V>>, bound: int,
                          closed: bool, universe: set<Goal<V>>)
    requires node.remainingSubgoals.Cell? && a in node.remainingSubgoals.first.achievers
    requires goal.achievers == achievers
    requires Sound(node, goal, achievers, agent, bound) && ChildOf(agent, node, a, next, child)
    requires closed ==> WithinUniverse(node, universe) && Closed(universe)
    requires AllSound(before, goal, achievers, agent, bound + 1, closed, universe)
    requires multiset(after) == multiset(before) + multiset{(priority, child)}
    ensures AllSound(after, goal, achievers, agent, bound + 1, closed, universe)
  {
    ChildSound(agent, node, a, next, child, goal, achievers, bound);
    if closed {
      ChildWithinUniverse(agent, node, a, next, child, universe);
    }
    AllSoundGrows(before, after, (priority, child), goal, achievers, agent, bound + 1, closed, universe);
  }

  /** `after` is `before` with the entry `e` removed, and `e` was a best entry of
      `before`: one of least priority. */
  ghost predicate RemovedBest<T>(before: seq<(int, T)>, after: seq<(int, T)>, e: (int, T))
  {
    && e in before
    && multiset(after) == multiset(before) - multiset{e}
    && forall d :: d in before ==> e.0 <= d.0
  }

  /** `queue.RemoveMin()` on a non-empty queue of sound nodes (Planner.cs:36-37): the
      best entry, one of least priority, leaves the queue and nothing else does; the
      removed node is sound, and so are the nodes left, with one more action
      allowed to each. */
  method PopBest<V(==,0)>(queue: MinQueue<PartialPlan<V>>, ghost goal: Goal<V>, ghost achievers: seq<Action<V>>,
                          agent: Agent?, ghost bound: int,
                          ghost closed: bool, ghost universe: set<Goal<V>>)
    returns (priority: int, node: PartialPlan<V>)
    requires queue.Valid() && queue.data != [] && AllSound(queue.data, goal, achievers, agent, bound, closed, universe)
    modifies queue
    ensures RemovedBest(old(queue.data), queue.data, (priority, node))
    ensures queue.Valid() && AllSound(queue.data, goal, achievers, agent, bound + 1, closed, universe)
    ensures Sound(node, goal, achievers, agent, bound) && (closed ==> WithinUniverse(node, universe))
    ensures Closed(universe) == old(Closed(universe))
  {
    ghost var before := queue.data;
    var popped := queue.RemoveMin();
    priority, node := popped.value.0, popped.value.1;
    forall e | e in before ensures priority <= e.0 {
      if e != popped.value {
        assert e in multiset(before);
        assert e in multiset(queue.data);
      }
    }
    assert popped.value in before;
    AllSoundShrinks(before, queue.data, goal, achievers, agent, bound, closed, universe);
    AllSoundLater(queue.data, goal, achievers, agent, bound, closed, universe);
  }

  /** A sound node without subgoals is a plan: at least one action, at most `bound`,
      the last one an achiever of the goal. */
  lemma SoundComplete<V(0)>(n: PartialPlan<V>, goal: Goal<V>, achievers: seq<Action<V>>, agent: Agent?, bound: int)
    requires Sound(n, goal, achievers, agent, bound) && n.remainingSubgoals == Nil
    ensures var plan := Elements(n.plan);
            && 0 < |plan| <= bound
            && plan[|plan| - 1] in achievers
  {
  }

  /** `partialPlan.Plan.ToArray()` on a finished node (Planner.cs:38-40): the
      actions of the plan, which is complete as `SoundComplete` states. */
  method Finish<V(==,0)>(n: PartialPlan<V>, ghost goal: Goal<V>, ghost achievers: seq<Action<V>>, agent: Agent?,
                         ghost bound: int)
    returns (plan: seq<Action<V>>)
    requires Sound(n, goal, achievers, agent, bound) && n.remainingSubgoals == Nil
    ensures plan == Elements(n.plan)
    ensures 0 < |plan| <= bound && plan[|plan| - 1] in achievers
  {
    var actions := ToArray(n.plan);
    plan := actions[..];
    assert plan == Elements(n.plan);
    SoundComplete(n, goal, achievers, agent, bound);
  }

  /** The first subgoal of a sound node is never the very goal protected for its
      variable (the assertion at Planner.cs:49): the root protects nothing, and the
      subgoals of any other node are false while protected goals are true. */
  lemma ProtectedDiffers<V(0)>(n: PartialPlan<V>, goal: Goal<V>, achievers: seq<Action<V>>, agent: Agent?, bound: int)
    requires Sound(n, goal, achievers, agent, bound) && n.remainingSubgoals.Cell?
    requires n.remainingSubgoals.first.variable in n.protected
    ensures n.protected[n.remainingSubgoals.first.variable] != n.remainingSubgoals.first
  {
    var first := n.remainingSubgoals.first;
    assert first in Elements(n.remainingSubgoals);
    assert n.protected[first.variable].HoldsFor(agent);
  }

  /** When the goal has no achiever, the only sound node is the root. */
  lemma RootOnly<V(0)>(n: PartialPlan<V>, goal: Goal<V>, agent: Agent?, bound: int)
    requires Sound(n, goal, [], agent, bound)
    ensures n.plan == Nil && n.remainingSubgoals.Cell? && n.remainingSubgoals.first == goal
  {
    assert Elements(n.remainingSubgoals)[0] == n.remainingSubgoals.first;
  }

  /** The `foreach` over the achievers of the node's first subgoal (Planner.cs:54-76):
      queues one elaboration of `node` for each achiever, in order. The queued nodes
      stay sound, one action further; a protection conflict, impossible in a closed
      universe of interned goals, stops the expansion. */
  method Expand<V(==,0)>(queue: MinQueue<PartialPlan<V>>, node: PartialPlan<V>, agent: Agent?, next: nat,
                         ghost goal: Goal<V>, ghost achievers: seq<Action<V>>, ghost bound: int,
                         ghost closed: bool, ghost universe: set<Goal<V>>)
    returns (error: Option<Exception>, next': nat)
    requires queue.Valid() && node.remainingSubgoals.Cell? && goal.achievers == achievers
    requires Sound(node, goal, achievers, agent, bound) && AllSound(queue.data, goal, achievers, agent, bound + 1, closed, universe)
    requires closed ==> WithinUniverse(node, universe) && Closed(universe) && Interned(universe)
    modifies queue
    ensures queue.Valid() && AllSound(queue.data, goal, achievers, agent, bound + 1, closed, universe)
    ensures error.Some? ==> error.value == DuplicateKey
    ensures closed ==> error == None
    ensures error == None ==> |queue.data| == old(|queue.data|) + |node.remainingSubgoals.first.achievers|
    ensures achievers == [] ==> error == None && queue.data == old(queue.data)
    ensures Closed(universe) == old(Closed(universe))
  {
    next' := next;
    if achievers == [] {
      RootOnly(node, goal, agent, bound);
    }
    var candidates := node.remainingSubgoals.first.achievers;
    for i := 0 to |candidates|
      invariant queue.Valid() && AllSound(queue.data, goal, achievers, agent, bound + 1, closed, universe)
      invariant |queue.data| == old(|queue.data|) + i
      invariant achievers == [] ==> queue.data == old(queue.data)
    {
      var a := candidates[i];
      if closed {
        ChildWithinUniverse(agent, node, a, next', node, universe);
      }
      ghost var firstCell := next';
      var elaborated, n := Elaborate(agent, node, a, next');
      next' := n;
      if elaborated.Failure? {
        return Some(elaborated.error), next';
      }
      var (child, priority) := elaborated.value;
      ghost var queued := queue.data;
      queue.Add(child, priority);
      ChildQueued(agent, node, a, firstCell, child, priority, queued, queue.data, goal, achievers, bound, closed, universe);
    }
    error := None;
  }

  /** The queue the search starts from (Planner.cs:25-27): the root node, whose only
      subgoal is the goal, with cost 1, nothing protected and priority 0. */
  method Start<V(==,0)>(goal: Goal<V>, agent: Agent?, ghost closed: bool, ghost universe: set<Goal<V>>)
    returns (queue: MinQueue<PartialPlan<V>>, next: nat)
    requires closed ==> goal in universe
    ensures fresh(queue) && queue.Valid()
    ensures AllSound(queue.data, goal, goal.achievers, agent, 0, closed, universe)
    ensures queue.data == [(0, PartialPlan(Nil, Singleton(goal, 0).0, map[], 1))]
  {
    queue := new MinQueue<PartialPlan<V>>();
    var rootSubgoals := Singleton(goal, 0);
    next := rootSubgoals.1;
    var root := PartialPlan(Nil, rootSubgoals.0, map[], 1);
    queue.Add(root, 0);
    assert queue.data[0] in multiset(queue.data);
    assert queue.data == [(0, root)];
    AllSoundGrows([], queue.data, (0, root), goal, goal.achievers, agent, 0, closed, universe);
  }

  /** `plan` is a plan for `goal` within the budget `timeout`: a non-empty sequence
      of fewer than `timeout` actions whose last action is an achiever of the goal,
      and so has the goal among its effects when the goal's achievers are wired. */
  ghost predicate Solves<V(0)>(plan: seq<Action<V>>, goal: Goal<V>, timeout: int)
    reads goal, goal.achievers, plan
  {
    && 0 < |plan| < timeout
    && plan[|plan| - 1] in goal.achievers
    && (Wired(goal) ==> goal in plan[|plan| - 1].effects)
  }

  lemma FinishedSolves<V(0)>(plan: seq<Action<V>>, goal: Goal<V>, bound: int, timeout: int)
    requires 0 < |plan| <= bound < timeout && plan[|plan| - 1] in goal.achievers
    ensures Solves(plan, goal, timeout)
  {
  }

  /** `Planner.Plan(goal, agent)` (Planner.cs:22-81) with the search budget
      `timeout` (`Planner.Timeout`, Planner.cs:14, 30). A plan found is a non-empty
      sequence of fewer than `timeout` actions whose last action is an achiever of
      the goal, and so has the goal among its effects when the goal's achievers
      are wired. The search never fails on a protection conflict when the goal
      lies in a closed universe of interned goals. */
  method Plan<V(==,0)>(goal: Goal<V>, agent: Agent?, timeout: int, ghost universe: set<Goal<V>>)
    returns (r: Result<Option<seq<Action<V>>>, Exception>)
    ensures r.Failure? ==> r.error == DuplicateKey
    ensures goal in universe && Interned(universe) && Closed(universe) ==> r.Success?
    ensures r.Success? && r.value.Some? ==> Solves(r.value.value, goal, timeout)
    ensures timeout <= 0 ==> r == Success(None)
    ensures goal.achievers == [] ==> r == Success(None)
  {
    ghost var closed := goal in universe && Interned(universe) && Closed(universe);
    ghost var achievers := goal.achievers;
    var queue, next := Start(goal, agent, closed, universe);
    var step := 0;
    while step < timeout
      invariant 0 <= step
      invariant fresh(queue) && queue.Valid()
      invariant AllSound(queue.data, goal, achievers, agent, step, closed, universe)
      invariant goal.achievers == achievers && Closed(universe) == old(Closed(universe))
      decreases timeout - step
    {
      if queue.IsEmpty() {
        return Success(None);
      }
      assert queue.data != [];
      var _, partialPlan := PopBest(queue, goal, achievers, agent, step, closed, universe);
      if partialPlan.remainingSubgoals == Nil {
        var plan := Finish(partialPlan, goal, achievers, agent, step);
        FinishedSolves(plan, goal, step, timeout);
        return Success(Some(plan));
      }
      var nextSubgoal := partialPlan.remainingSubgoals.first;
      if nextSubgoal.variable in partialPlan.protected {
        ProtectedDiffers(partialPlan, goal, achievers, agent, step);
        assert partialPlan.protected[nextSubgoal.variable] != nextSubgoal;
        step := step + 1;
        continue;
      }
      var failure, n := Expand(queue, partialPlan, agent, next, goal, achievers, step, closed, universe);
      next := n;
      if failure.Some? {
        return Failure(failure.value);
      }
      step := step + 1;
    }
    return Success(None);
  }
}
