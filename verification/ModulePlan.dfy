/**
 * The three groups of emitted schemas: the core, ProductionContext itself (`target`), and the bound
 * schemas that depend on it. The script sorts the core and the bound group separately and never looks
 * at the references of ProductionContext; what that misses is stated exactly below.
 */
module ModulePlan {
  import opened Wrappers
  import opened Planning

  /** One or more references lead from `name` to `target`. */
  ghost predicate Reaches<T(!new)>(ordered: seq<T>, deps: Graph<T>, name: T, target: T) {
    exists w :: Walk(ordered, deps, w) && |w| > 1 && w[0] == name && w[|w| - 1] == target
  }

  lemma ReachesDirectly<T(!new)>(ordered: seq<T>, deps: Graph<T>, name: T, target: T)
    requires name in ordered && target in ordered && target in References(deps, name)
    ensures Reaches(ordered, deps, name, target)
  {
    assert Walk(ordered, deps, [name, target]);
  }

  lemma ReachesThrough<T(!new)>(ordered: seq<T>, deps: Graph<T>, name: T, next: T, target: T)
    requires name in ordered && next in References(deps, name) && Reaches(ordered, deps, next, target)
    ensures Reaches(ordered, deps, name, target)
  {
    var w :| Walk(ordered, deps, w) && |w| > 1 && w[0] == next && w[|w| - 1] == target;
    assert Walk(ordered, deps, [name] + w);
  }

  /** `name` references the target or one of the dependents found so far. */
  predicate Uses<T(==, !new)>(deps: Graph<T>, name: T, target: T, dependents: set<T>) {
    target in References(deps, name) || References(deps, name) * dependents != {}
  }

  ghost predicate Saturated<T(!new)>(ordered: seq<T>, deps: Graph<T>, target: T, dependents: set<T>) {
    forall n :: n in ordered && n != target && Uses(deps, n, target, dependents) ==> n in dependents
  }

  ghost predicate Sound<T(!new)>(ordered: seq<T>, deps: Graph<T>, target: T, dependents: set<T>) {
    forall n :: n in dependents ==> n in ordered && n != target && Reaches(ordered, deps, n, target)
  }

  lemma {:induction false} SaturatedIsComplete<T(!new)>(ordered: seq<T>, deps: Graph<T>, target: T,
                                                        dependents: set<T>, w: seq<T>)
    requires Saturated(ordered, deps, target, dependents)
    requires Walk(ordered, deps, w) && |w| > 1 && w[0] != target && w[|w| - 1] == target
    ensures w[0] in dependents
  {
    assert w[1] in References(deps, w[0]);
    if w[1] != target {
      SaturatedIsComplete(ordered, deps, target, dependents, w[1..]);
      assert w[1] in References(deps, w[0]) * dependents;
    }
  }

  lemma AddDependent<T(!new)>(ordered: seq<T>, deps: Graph<T>, target: T, dependents: set<T>, name: T)
    requires Sound(ordered, deps, target, dependents) && target in ordered
    requires name in ordered && name != target && Uses(deps, name, target, dependents)
    ensures Sound(ordered, deps, target, dependents + {name})
  {
    if target in References(deps, name) {
      ReachesDirectly(ordered, deps, name, target);
    } else {
      var d :| d in References(deps, name) * dependents;
      ReachesThrough(ordered, deps, name, d, target);
    }
  }

  /** Transitive dependents: grows the set until a whole pass adds nothing. */
  method Dependents<T(==, !new)>(ordered: seq<T>, deps: Graph<T>, target: T) returns (dependents: set<T>)
    requires target in ordered
    ensures forall n :: n in dependents <==> n in ordered && n != target && Reaches(ordered, deps, n, target)
    ensures Saturated(ordered, deps, target, dependents)
  {
    dependents := {};
    var grew := true;
    while grew
      invariant Sound(ordered, deps, target, dependents)
      invariant !grew ==> Saturated(ordered, deps, target, dependents)
      decreases Elements(ordered) - dependents, grew
    {
      grew := false;
      ghost var before := dependents;
      for i := 0 to |ordered|
        invariant Sound(ordered, deps, target, dependents) && before <= dependents
        invariant grew <==> before != dependents
        invariant !grew ==> forall j :: 0 <= j < i && ordered[j] != target && Uses(deps, ordered[j], target, dependents)
                                        ==> ordered[j] in dependents
      {
        var name := ordered[i];
        if !(name in dependents || name == target) && Uses(deps, name, target, dependents) {
          AddDependent(ordered, deps, target, dependents, name);
          dependents := dependents + {name};
          assert name !in before;
          grew := true;
        }
      }
      if grew {
        ghost var added :| added in dependents && added !in before;
        assert added in Elements(ordered) - before;
      }
    }
    forall n | n in ordered && n != target && Reaches(ordered, deps, n, target)
      ensures n in dependents
    {
      var w :| Walk(ordered, deps, w) && |w| > 1 && w[0] == n && w[|w| - 1] == target;
      SaturatedIsComplete(ordered, deps, target, dependents, w);
    }
  }

  datatype Plan<T> = Plan(core: seq<T>, bound: seq<T>)

  ghost function Emission<T>(plan: Plan<T>, target: T): seq<T> {
    plan.core + [target] + plan.bound
  }

  ghost predicate Closed<T(!new)>(ordered: seq<T>, deps: Graph<T>) {
    forall n :: n in ordered ==> References(deps, n) <= Elements(ordered)
  }

  /** The three groups partition the schemas, each is internally in order, and only the bound group
      and ProductionContext can use ProductionContext. */
  ghost predicate Grouped<T(!new)>(ordered: seq<T>, deps: Graph<T>, target: T, plan: Plan<T>) {
    && Distinct(Emission(plan, target)) && Elements(Emission(plan, target)) == Elements(ordered)
    && IsOrder(plan.core, deps, plan.core) && IsOrder(plan.bound, deps, plan.bound)
    && (forall n :: n in plan.core ==> target !in References(deps, n) && References(deps, n) !! Elements(plan.bound))
    && (forall n :: n in plan.bound <==> n in ordered && n != target && Reaches(ordered, deps, n, target))
  }

  /** No order of the same schemas comes before this one. */
  ghost predicate LeastOrder<T(!new)>(deps: Graph<T>, order: map<T, int>, group: seq<T>) {
    forall p :: IsOrder(group, deps, p) ==> group == p || LexicographicallyBefore(order, group, p)
  }

  lemma SameGroup<T(!new)>(names: seq<T>, group: seq<T>, deps: Graph<T>, p: seq<T>)
    requires (forall n :: n in names <==> n in group) && IsOrder(group, deps, p)
    ensures IsOrder(names, deps, p)
  {
    assert forall n :: n in names <==> n in Elements(names);
    assert forall n :: n in group <==> n in Elements(group);
    assert Elements(names) == Elements(group);
    assert forall n :: InGroup(names, deps, n) == InGroup(group, deps, n);
  }

  lemma GroupIsLeast<T(!new)>(names: seq<T>, deps: Graph<T>, order: map<T, int>, group: seq<T>)
    requires IsOrder(names, deps, group)
    requires forall p :: IsOrder(names, deps, p) ==> group == p || LexicographicallyBefore(order, group, p)
    ensures LeastOrder(deps, order, group)
  {
    OrderOfItself(names, deps, group);
    forall p | IsOrder(group, deps, p)
      ensures group == p || LexicographicallyBefore(order, group, p)
    {
      SameGroup(names, group, deps, p);
    }
  }

  method PlanModules<T(==, !new)>(ordered: seq<T>, deps: Graph<T>, order: map<T, int>, target: T)
    returns (r: Result<Plan<T>, string>)
    requires Distinct(ordered) && Indexed(ordered, order) && target in ordered
    ensures r.Ok? ==> Grouped(ordered, deps, target, r.value)
    ensures r.Ok? ==> LeastOrder(deps, order, r.value.core) && LeastOrder(deps, order, r.value.bound)
    ensures r.Ok? <==> forall w :: Cycle(ordered, deps, w) ==> target in w
  {
    var dependents := Dependents(ordered, deps, target);
    var coreNames := Filter(ordered, Elements(ordered) - {target} - dependents);
    var core, _ := TopologicalOrder(coreNames, deps, order);
    if core.Err? {
      CycleInGroup(coreNames, ordered, deps, target);
      return Err(core.error);
    }
    var boundNames := Filter(ordered, dependents);
    var bound, _ := TopologicalOrder(boundNames, deps, order);
    if bound.Err? {
      CycleInGroup(boundNames, ordered, deps, target);
      return Err(bound.error);
    }
    var plan := Plan(core.value, bound.value);
    PlanIsGrouped(ordered, deps, target, dependents, coreNames, boundNames, plan);
    GroupIsLeast(coreNames, deps, order, plan.core);
    GroupIsLeast(boundNames, deps, order, plan.bound);
    forall w | Cycle(ordered, deps, w)
      ensures target in w
    {
      CycleInOneGroup(ordered, deps, target, dependents, coreNames, boundNames, w);
    }
    return Ok(plan);
  }

  lemma CycleInGroup<T(!new)>(group: seq<T>, ordered: seq<T>, deps: Graph<T>, target: T)
    requires !Acyclic(group, deps) && forall n :: n in group ==> n in ordered && n != target
    ensures exists w :: Cycle(ordered, deps, w) && target !in w
  {
    var w :| Cycle(group, deps, w);
    assert Cycle(ordered, deps, w);
  }

  lemma {:induction false} WalkBackwards<T(!new)>(ordered: seq<T>, deps: Graph<T>, target: T, dependents: set<T>,
                                                  w: seq<T>)
    requires Saturated(ordered, deps, target, dependents) && Walk(ordered, deps, w) && target !in w && w != []
    ensures w[|w| - 1] in dependents ==> forall n :: n in w ==> n in dependents
  {
    if |w| > 1 {
      WalkBackwards(ordered, deps, target, dependents, w[1..]);
      assert w[1] in dependents ==> w[1] in References(deps, w[0]) * dependents;
      assert forall n :: n in w <==> n == w[0] || n in w[1..];
    }
  }

  /** A cycle that avoids the target lies in the bound group or in the core. */
  lemma CycleInOneGroup<T(!new)>(ordered: seq<T>, deps: Graph<T>, target: T, dependents: set<T>,
                                 coreNames: seq<T>, boundNames: seq<T>, w: seq<T>)
    requires Saturated(ordered, deps, target, dependents) && Cycle(ordered, deps, w)
    requires forall n :: n in coreNames <==> n in ordered && n != target && n !in dependents
    requires forall n :: n in boundNames <==> n in ordered && n in dependents
    ensures target in w || Cycle(coreNames, deps, w) || Cycle(boundNames, deps, w)
  {
    if target !in w {
      WalkBackwards(ordered, deps, target, dependents, w);
      forall i | 0 <= i < |w|
        ensures w[i] in dependents ==> w[0] in dependents
      {
        WalkBackwards(ordered, deps, target, dependents, w[..i + 1]);
        assert w[0] in w[..i + 1];
      }
    }
  }

  lemma OrderOfItself<T(!new)>(names: seq<T>, deps: Graph<T>, p: seq<T>)
    requires IsOrder(names, deps, p)
    ensures IsOrder(p, deps, p) && forall n :: n in p <==> n in names
  {
    assert forall n :: n in p <==> n in Elements(p);
    assert forall n :: n in names <==> n in Elements(names);
    assert forall n :: InGroup(p, deps, n) == InGroup(names, deps, n);
  }

  lemma PlanIsGrouped<T(!new)>(ordered: seq<T>, deps: Graph<T>, target: T, dependents: set<T>,
                               coreNames: seq<T>, boundNames: seq<T>, plan: Plan<T>)
    requires target in ordered && Saturated(ordered, deps, target, dependents)
    requires forall n :: n in dependents <==> n in ordered && n != target && Reaches(ordered, deps, n, target)
    requires forall n :: n in coreNames <==> n in ordered && n != target && n !in dependents
    requires forall n :: n in boundNames <==> n in ordered && n in dependents
    requires IsOrder(coreNames, deps, plan.core) && IsOrder(boundNames, deps, plan.bound)
    ensures Grouped(ordered, deps, target, plan)
  {
    OrderOfItself(coreNames, deps, plan.core);
    OrderOfItself(boundNames, deps, plan.bound);
    forall n | n in plan.core
      ensures target !in References(deps, n) && References(deps, n) !! Elements(plan.bound)
    {
      assert !Uses(deps, n, target, dependents);
      assert Elements(plan.bound) == dependents;
      forall d | d in References(deps, n)
        ensures d !in Elements(plan.bound)
      {
        assert d in dependents ==> d in References(deps, n) * dependents;
      }
    }
    DistinctEmission(target, plan);
    assert forall n :: n in Emission(plan, target) <==> n in plan.core || n == target || n in plan.bound;
  }

  lemma DistinctEmission<T(!new)>(target: T, plan: Plan<T>)
    requires Distinct(plan.core) && Distinct(plan.bound) && target !in plan.core && target !in plan.bound
    requires forall n :: n in plan.core ==> n !in plan.bound
    ensures Distinct(Emission(plan, target))
  {
    var all, k := Emission(plan, target), |plan.core|;
    forall i, j | 0 <= i < j < |all|
      ensures all[i] != all[j]
    {
      assert i < k ==> all[i] == plan.core[i] && all[i] in plan.core;
      assert i > k ==> all[i] == plan.bound[i - k - 1];
      assert j < k ==> all[j] == plan.core[j];
      assert j > k ==> all[j] == plan.bound[j - k - 1] && all[j] in plan.bound;
    }
  }

  // ----- When the emission is a valid order of all schemas ---------------------------------------

  /** ProductionContext uses neither itself nor a bound schema. */
  ghost predicate TargetUsesCoreOnly<T(!new)>(deps: Graph<T>, target: T, plan: Plan<T>) {
    target !in References(deps, target) && References(deps, target) !! Elements(plan.bound)
  }

  lemma EmissionPrefix<T(!new)>(plan: Plan<T>, target: T, i: nat)
    requires i < |Emission(plan, target)|
    ensures i < |plan.core| ==> Emission(plan, target)[..i] == plan.core[..i]
    ensures i == |plan.core| ==> Emission(plan, target)[..i] == plan.core
    ensures i > |plan.core| ==> Emission(plan, target)[..i] == plan.core + [target] + plan.bound[..i - |plan.core| - 1]
  {
  }

  lemma CoreApart<T(!new)>(plan: Plan<T>, target: T, n: T)
    requires Distinct(Emission(plan, target)) && n in plan.core
    ensures n != target && n !in plan.bound
  {
    var all, k := Emission(plan, target), |plan.core|;
    var i :| 0 <= i < k && plan.core[i] == n;
    assert all[i] == n && all[k] == target;
    forall j | 0 <= j < |plan.bound|
      ensures plan.bound[j] != n
    {
      assert all[k + 1 + j] == plan.bound[j];
    }
  }

  lemma CoreOnlyOrdersAll<T(!new)>(ordered: seq<T>, deps: Graph<T>, target: T, plan: Plan<T>)
    requires Closed(ordered, deps) && target in ordered && Grouped(ordered, deps, target, plan)
    ensures IsOrder(ordered, deps, Emission(plan, target)) <==> TargetUsesCoreOnly(deps, target, plan)
  {
    var all := Emission(plan, target);
    var k := |plan.core|;
    EmissionPrefix(plan, target, k);
    assert all[k] == target;
    assert forall n :: n in all <==> n in Elements(all);
    assert forall n :: n in ordered <==> n in Elements(ordered);
    assert InGroup(ordered, deps, target) == References(deps, target);
    if IsOrder(ordered, deps, all) {
      assert InGroup(ordered, deps, all[k]) <= Elements(all[..k]);
      assert all[..k] == plan.core;
      assert References(deps, target) <= Elements(plan.core);
      forall n | n in plan.core
        ensures n != target && n !in plan.bound
      {
        CoreApart(plan, target, n);
      }
    }
    if TargetUsesCoreOnly(deps, target, plan) {
      forall i | 0 <= i < |all|
        ensures InGroup(ordered, deps, all[i]) <= Elements(all[..i])
      {
        EmissionPrefix(plan, target, i);
        EmissionStep(ordered, deps, target, plan, i);
      }
    }
  }

  lemma EmissionStep<T(!new)>(ordered: seq<T>, deps: Graph<T>, target: T, plan: Plan<T>, i: nat)
    requires Closed(ordered, deps) && target in ordered && Grouped(ordered, deps, target, plan)
    requires TargetUsesCoreOnly(deps, target, plan) && i < |Emission(plan, target)|
    ensures References(deps, Emission(plan, target)[i]) <= Elements(Emission(plan, target)[..i])
  {
    var all := Emission(plan, target);
    var k := |plan.core|;
    EmissionPrefix(plan, target, i);
    assert forall n :: n in ordered <==> n in Elements(ordered);
    assert all[i] in Elements(all);
    forall d | d in References(deps, all[i])
      ensures d in all[..i]
    {
      assert d in Elements(ordered);
      assert d in Elements(all);
      assert d in plan.core || d == target || d in plan.bound;
      if i < k {
        assert all[i] == plan.core[i];
        assert d in InGroup(plan.core, deps, plan.core[i]);
      } else if i > k {
        assert all[i] == plan.bound[i - k - 1];
        if d in plan.bound {
          assert d in InGroup(plan.bound, deps, plan.bound[i - k - 1]);
          assert d in Elements(plan.bound[..i - k - 1]);
        }
      }
    }
  }

  lemma UnreachedUsesCoreOnly<T(!new)>(ordered: seq<T>, deps: Graph<T>, target: T, plan: Plan<T>)
    requires target in ordered && Grouped(ordered, deps, target, plan)
    requires !Reaches(ordered, deps, target, target)
    ensures TargetUsesCoreOnly(deps, target, plan)
  {
    if target in References(deps, target) {
      ReachesDirectly(ordered, deps, target, target);
    }
    forall d | d in References(deps, target) && d in plan.bound
      ensures false
    {
      ReachesThrough(ordered, deps, target, d, target);
    }
  }

  /** Main result: a returned plan lists every schema once, after all its references, exactly when no
      references lead from ProductionContext back to itself, that is, exactly when the graph is acyclic. */
  lemma PlanOrdersAll<T(!new)>(ordered: seq<T>, deps: Graph<T>, target: T, plan: Plan<T>)
    requires Closed(ordered, deps) && target in ordered && Grouped(ordered, deps, target, plan)
    ensures IsOrder(ordered, deps, Emission(plan, target)) <==> !Reaches(ordered, deps, target, target)
    ensures IsOrder(ordered, deps, Emission(plan, target)) <==> Acyclic(ordered, deps)
  {
    CoreOnlyOrdersAll(ordered, deps, target, plan);
    if !Reaches(ordered, deps, target, target) {
      UnreachedUsesCoreOnly(ordered, deps, target, plan);
    } else {
      var w :| Walk(ordered, deps, w) && |w| > 1 && w[0] == target && w[|w| - 1] == target;
      assert Cycle(ordered, deps, w);
    }
    if IsOrder(ordered, deps, Emission(plan, target)) {
      OrderExcludesCycles(ordered, deps, Emission(plan, target));
    }
  }

  lemma CycleOfTwo(deps: Graph<int>, w: seq<int>)
    requires deps == map[0 := {1}, 1 := {0}] && Cycle([0, 1], deps, w)
    ensures 0 in w
  {
    assert w[1] in References(deps, w[0]);
    assert w[0] in w && w[1] in w;
    assert References(deps, 1) == {0};
  }

  lemma TwoGrouped(deps: Graph<int>)
    requires deps == map[0 := {1}, 1 := {0}]
    ensures Closed([0, 1], deps) && Grouped([0, 1], deps, 0, Plan([], [1]))
    ensures Cycle([0, 1], deps, [0, 1, 0])
  {
    ReachesDirectly([0, 1], deps, 1, 0);
    assert Emission(Plan([], [1]), 0) == [0, 1];
    assert References(deps, 0) == {1} && References(deps, 1) == {0};
  }

  /** A cycle through ProductionContext is planned without complaint: 0 is the target, and 0 and 1 use
      each other. Every cycle passes through 0, so the planner accepts the graph; the plan then emits 0
      before its reference 1. */
  lemma UndetectedCycle()
    ensures var ordered, deps, plan := [0, 1], map[0 := {1}, 1 := {0}], Plan([], [1]);
      && Closed(ordered, deps) && Grouped(ordered, deps, 0, plan)
      && (forall w :: Cycle(ordered, deps, w) ==> 0 in w)
      && Cycle(ordered, deps, [0, 1, 0]) && !IsOrder(ordered, deps, Emission(plan, 0))
  {
    var ordered, deps, plan := [0, 1], map[0 := {1}, 1 := {0}], Plan([], [1]);
    TwoGrouped(deps);
    forall w | Cycle(ordered, deps, w)
      ensures 0 in w
    {
      CycleOfTwo(deps, w);
    }
    assert !Acyclic(ordered, deps);
    PlanOrdersAll(ordered, deps, 0, plan);
  }
}
