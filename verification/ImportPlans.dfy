/** Pruning an import: objects whose upstream is unsupported or missing are
    omitted, and so is everything that then loses its source. */
module ImportPlans {
  import opened Common
  import opened GraphModel

  datatype PlanWire = PlanWire(source: NodeId, to: Port)

  /** What one imported object adds, and the objects its inputs come from. */
  datatype Plan = Plan(root: NodeId, ops: seq<GraphOp>, added: seq<NodeId>, wires: seq<PlanWire>)

  type Endpoints = map<NodeId, Port>

  /** Nodes added by the plans whose roots are in `kept`. */
  function Provided(plans: seq<Plan>, kept: set<NodeId>): set<NodeId> {
    set p, x | p in plans && p.root in kept && x in p.added :: x
  }

  predicate Resolved(plan: Plan, endpoints: Endpoints, available: set<NodeId>) {
    forall w :: w in plan.wires ==> w.source in endpoints && endpoints[w.source].node in available
  }

  /** Every wire of a kept plan starts at a node some kept plan adds. */
  ghost predicate SelfContained(plans: seq<Plan>, endpoints: Endpoints, kept: set<NodeId>) {
    forall p :: p in plans && p.root in kept ==> Resolved(p, endpoints, Provided(plans, kept))
  }

  function Roots(plans: seq<Plan>): set<NodeId> {
    set p | p in plans :: p.root
  }

  /** The greatest self-contained set of plans. */
  ghost predicate Greatest(plans: seq<Plan>, endpoints: Endpoints, kept: set<NodeId>) {
    && kept <= Roots(plans)
    && SelfContained(plans, endpoints, kept)
    && forall other :: other <= Roots(plans) && SelfContained(plans, endpoints, other) ==> other <= kept
  }

  /** What it takes for a set of plans to stand on its own, wire by wire. */
  lemma SelfContainedMeans(plans: seq<Plan>, endpoints: Endpoints, kept: set<NodeId>)
    ensures SelfContained(plans, endpoints, kept) <==>
      forall p, w :: p in plans && p.root in kept && w in p.wires ==>
        && w.source in endpoints
        && exists q :: q in plans && q.root in kept && endpoints[w.source].node in q.added
  {
    if SelfContained(plans, endpoints, kept) {
      forall p, w | p in plans && p.root in kept && w in p.wires
        ensures w.source in endpoints
        ensures exists q :: q in plans && q.root in kept && endpoints[w.source].node in q.added
      {
        assert Resolved(p, endpoints, Provided(plans, kept));
      }
    }
  }

  lemma ProvidedGrows(plans: seq<Plan>, a: set<NodeId>, b: set<NodeId>)
    requires a <= b
    ensures Provided(plans, a) <= Provided(plans, b)
  {
  }

  /** No plan of a self-contained set has been excluded. */
  ghost predicate NoneLost(plans: seq<Plan>, endpoints: Endpoints, excluded: set<NodeId>) {
    forall other :: other <= Roots(plans) && SelfContained(plans, endpoints, other) ==> other !! excluded
  }

  /** Excluding an unresolved plan loses no self-contained set. */
  lemma ExcludeUnresolved(
    plans: seq<Plan>, endpoints: Endpoints, plan: Plan, before: set<NodeId>, excluded: set<NodeId>)
    requires plan in plans && before <= excluded && NoneLost(plans, endpoints, excluded)
    requires !Resolved(plan, endpoints, Provided(plans, Roots(plans) - before))
    ensures NoneLost(plans, endpoints, excluded + {plan.root})
  {
    hide Provided, Roots, Resolved;
    forall other | other <= Roots(plans) && SelfContained(plans, endpoints, other)
      ensures other !! excluded + {plan.root}
    {
      var candidates := Roots(plans) - before;
      assert other <= candidates;
      ProvidedGrows(plans, other, candidates);
      ResolvedGrows(plan, endpoints, Provided(plans, other), Provided(plans, candidates));
    }
  }

  lemma ResolvedGrows(plan: Plan, endpoints: Endpoints, a: set<NodeId>, b: set<NodeId>)
    requires a <= b
    ensures Resolved(plan, endpoints, a) ==> Resolved(plan, endpoints, b)
  {
  }

  /** Nodes added by the plans not excluded so far. */
  function Available(plans: seq<Plan>, excluded: set<NodeId>): set<NodeId> {
    set p, x | p in plans && p.root !in excluded && x in p.added :: x
  }

  lemma AvailableIsProvided(plans: seq<Plan>, excluded: set<NodeId>)
    ensures Available(plans, excluded) == Provided(plans, Roots(plans) - excluded)
    ensures forall p :: p in plans ==> p.root in Roots(plans)
  {
    assert forall p :: p in plans ==> p.root in Roots(plans);
  }

  /** The pruning loop ends with the greatest set of plans that need nothing
      outside themselves. */
  method Prune(plans: seq<Plan>, endpoints: Endpoints) returns (excluded: set<NodeId>)
    ensures excluded <= Roots(plans)
    ensures Greatest(plans, endpoints, Roots(plans) - excluded)
  {
    hide Provided, SelfContained, Resolved, Roots, Greatest, Available;
    excluded := {};
    assert NoneLost(plans, endpoints, {});
    hide NoneLost;
    while true
      invariant excluded <= Roots(plans) && NoneLost(plans, endpoints, excluded)
      decreases |Roots(plans) - excluded|
    {
      var changed := false;
      var available := Available(plans, excluded);
      AvailableIsProvided(plans, excluded);
      ghost var before := excluded;
      for i := 0 to |plans|
        invariant before <= excluded <= Roots(plans)
        invariant changed <==> excluded != before
        invariant NoneLost(plans, endpoints, excluded)
        invariant forall k :: 0 <= k < i && plans[k].root !in excluded ==> Resolved(plans[k], endpoints, available)
      {
        var plan := plans[i];
        if plan.root !in excluded && !Resolved(plan, endpoints, available) {
          ExcludeUnresolved(plans, endpoints, plan, before, excluded);
          excluded := excluded + {plan.root};
          changed := true;
        }
      }
      if !changed {
        FixpointIsGreatest(plans, endpoints, excluded);
        return;
      }
      SmallerSet(Roots(plans) - excluded, Roots(plans) - before);
    }
  }

  lemma FixpointIsGreatest(plans: seq<Plan>, endpoints: Endpoints, excluded: set<NodeId>)
    requires excluded <= Roots(plans) && NoneLost(plans, endpoints, excluded)
    requires forall k :: 0 <= k < |plans| && plans[k].root !in excluded ==>
      Resolved(plans[k], endpoints, Provided(plans, Roots(plans) - excluded))
    ensures Greatest(plans, endpoints, Roots(plans) - excluded)
  {
    hide Provided, Resolved;
  }

  lemma SmallerSet(a: set<NodeId>, b: set<NodeId>)
    requires a <= b && a != b
    ensures |a| < |b|
  {
    assert b == a + (b - a);
    assert b - a != {};
  }

  /** The outcome does not depend on the order the plans are listed in. */
  lemma PruningIgnoresOrder(
    plans: seq<Plan>, shuffled: seq<Plan>, endpoints: Endpoints, kept: set<NodeId>, kept': set<NodeId>)
    requires forall p :: p in plans <==> p in shuffled
    requires Greatest(plans, endpoints, kept) && Greatest(shuffled, endpoints, kept')
    ensures kept == kept'
  {
    assert Roots(plans) == Roots(shuffled);
    forall k: set<NodeId> ensures SelfContained(plans, endpoints, k) == SelfContained(shuffled, endpoints, k) {
      assert Provided(plans, k) == Provided(shuffled, k);
    }
  }

  // ------------------------------------------------------------------
  // assembling the survivors
  // ------------------------------------------------------------------

  datatype ImportError = NothingFound | InvalidWiring(error: (nat, GraphError))

  datatype Import = Import(nodeIds: seq<NodeId>, ops: seq<GraphOp>)

  /** The plans not excluded, in the order they were listed. */
  function Surviving(plans: seq<Plan>, excluded: set<NodeId>): seq<Plan> {
    if plans == [] then []
    else
      var last := plans[|plans| - 1];
      Surviving(plans[..|plans| - 1], excluded) + (if last.root !in excluded then [last] else [])
  }

  predicate Wired(plans: seq<Plan>, endpoints: Endpoints) {
    forall p :: p in plans ==> forall w :: w in p.wires ==> w.source in endpoints
  }

  function RootsInOrder(plans: seq<Plan>): seq<NodeId> {
    if plans == [] then [] else RootsInOrder(plans[..|plans| - 1]) + [plans[|plans| - 1].root]
  }

  function OpsInOrder(plans: seq<Plan>): seq<GraphOp> {
    if plans == [] then [] else OpsInOrder(plans[..|plans| - 1]) + plans[|plans| - 1].ops
  }

  function PlanWires(plan: Plan, endpoints: Endpoints): seq<GraphOp>
    requires forall w :: w in plan.wires ==> w.source in endpoints
  {
    seq(|plan.wires|, j requires 0 <= j < |plan.wires| => Connect(endpoints[plan.wires[j].source], plan.wires[j].to))
  }

  function WiresInOrder(plans: seq<Plan>, endpoints: Endpoints): seq<GraphOp>
    requires Wired(plans, endpoints)
  {
    if plans == [] then []
    else WiresInOrder(plans[..|plans| - 1], endpoints) + PlanWires(plans[|plans| - 1], endpoints)
  }

  lemma {:induction false} SurvivingMeans(plans: seq<Plan>, excluded: set<NodeId>)
    ensures forall p :: p in Surviving(plans, excluded) <==> p in plans && p.root !in excluded
  {
    if plans != [] {
      var n := |plans| - 1;
      SurvivingMeans(plans[..n], excluded);
      LastOf(plans);
    }
  }

  /** After pruning every lookup of a wire's source succeeds. */
  lemma SurvivorsAreWired(plans: seq<Plan>, endpoints: Endpoints, excluded: set<NodeId>)
    requires SelfContained(plans, endpoints, Roots(plans) - excluded)
    ensures Wired(Surviving(plans, excluded), endpoints)
  {
    SurvivingMeans(plans, excluded);
    forall p | p in Surviving(plans, excluded) ensures forall w :: w in p.wires ==> w.source in endpoints {
      assert p in plans && p.root in Roots(plans) - excluded;
    }
  }

  /** And every wire starts at a node that a surviving plan adds. */
  lemma {:induction false} WiresStartAtSurvivors(
    plans: seq<Plan>, endpoints: Endpoints, kept: set<NodeId>, some: seq<Plan>, op: GraphOp)
    requires SelfContained(plans, endpoints, kept) && Wired(some, endpoints)
    requires forall p :: p in some ==> p in plans && p.root in kept
    requires op in WiresInOrder(some, endpoints)
    ensures op.Connect? && op.from.node in Provided(plans, kept)
    decreases |some|
  {
    var n := |some| - 1;
    if op in WiresInOrder(some[..n], endpoints) {
      WiresStartAtSurvivors(plans, endpoints, kept, some[..n], op);
    } else {
      var plan := some[n];
      var j :| 0 <= j < |plan.wires| && PlanWires(plan, endpoints)[j] == op;
      assert plan in some && plan.wires[j] in plan.wires && Resolved(plan, endpoints, Provided(plans, kept));
    }
  }

  /** Order: the survivors of two lists are those of the first followed by those of the
      second, and so are their roots, operations and wires. */
  lemma {:induction false} SurvivorsKeepOrder(a: seq<Plan>, b: seq<Plan>, excluded: set<NodeId>)
    ensures Surviving(a + b, excluded) == Surviving(a, excluded) + Surviving(b, excluded)
    decreases |b|
  {
    if b == [] {
      assert a + b == a;
    } else {
      hide Surviving;
      var n := |b| - 1;
      SurvivorsKeepOrder(a, b[..n], excluded);
      JoinLast(a, b);
      OneMoreSurvives(a + b[..n], b[n], excluded);
      OneMoreSurvives(b[..n], b[n], excluded);
    }
  }

  lemma {:induction false} RootsKeepOrder(a: seq<Plan>, b: seq<Plan>)
    ensures RootsInOrder(a + b) == RootsInOrder(a) + RootsInOrder(b)
    decreases |b|
  {
    if b == [] {
      assert a + b == a;
    } else {
      hide RootsInOrder, OpsInOrder;
      var n := |b| - 1;
      RootsKeepOrder(a, b[..n]);
      JoinLast(a, b);
      OneMoreListed(a + b[..n], b[n]);
      OneMoreListed(b[..n], b[n]);
      Associates(RootsInOrder(a), RootsInOrder(b[..n]), [b[n].root]);
    }
  }

  lemma {:induction false} OpsKeepOrder(a: seq<Plan>, b: seq<Plan>)
    ensures OpsInOrder(a + b) == OpsInOrder(a) + OpsInOrder(b)
    decreases |b|
  {
    if b == [] {
      assert a + b == a;
    } else {
      hide RootsInOrder, OpsInOrder;
      var n := |b| - 1;
      OpsKeepOrder(a, b[..n]);
      JoinLast(a, b);
      OneMoreListed(a + b[..n], b[n]);
      OneMoreListed(b[..n], b[n]);
      Associates(OpsInOrder(a), OpsInOrder(b[..n]), b[n].ops);
    }
  }

  lemma Associates<T>(x: seq<T>, y: seq<T>, z: seq<T>)
    ensures x + y + z == x + (y + z)
  {
  }

  lemma {:induction false} WiresKeepOrder(a: seq<Plan>, b: seq<Plan>, endpoints: Endpoints)
    requires Wired(a + b, endpoints)
    ensures Wired(a, endpoints) && Wired(b, endpoints)
    ensures WiresInOrder(a + b, endpoints) == WiresInOrder(a, endpoints) + WiresInOrder(b, endpoints)
    decreases |b|
  {
    WiredParts(a, b, endpoints);
    if b == [] {
      assert a + b == a;
    } else {
      hide WiresInOrder, Wired, PlanWires;
      var n := |b| - 1;
      JoinLast(a, b);
      OneMorePlan(a + b[..n], b[n], endpoints);
      OneMorePlan(b[..n], b[n], endpoints);
      WiresKeepOrder(a, b[..n], endpoints);
    }
  }

  lemma WiredParts(a: seq<Plan>, b: seq<Plan>, endpoints: Endpoints)
    requires Wired(a + b, endpoints)
    ensures Wired(a, endpoints) && Wired(b, endpoints)
  {
    assert forall p :: p in a || p in b ==> p in a + b;
  }

  lemma JoinLast(a: seq<Plan>, b: seq<Plan>)
    requires b != []
    ensures a + b == a + b[..|b| - 1] + [b[|b| - 1]] && b == b[..|b| - 1] + [b[|b| - 1]]
  {
  }

  lemma OneMoreSurvives(some: seq<Plan>, plan: Plan, excluded: set<NodeId>)
    ensures Surviving(some + [plan], excluded) ==
            if plan.root !in excluded then Surviving(some, excluded) + [plan] else Surviving(some, excluded)
  {
    assert (some + [plan])[..|some|] == some;
  }

  lemma OneMoreListed(some: seq<Plan>, plan: Plan)
    ensures RootsInOrder(some + [plan]) == RootsInOrder(some) + [plan.root]
    ensures OpsInOrder(some + [plan]) == OpsInOrder(some) + plan.ops
  {
    assert (some + [plan])[..|some|] == some;
  }

  /** One plan yields its root and its operations. */
  lemma OnePlanYields(plan: Plan, excluded: set<NodeId>)
    ensures Surviving([plan], excluded) == if plan.root in excluded then [] else [plan]
    ensures RootsInOrder([plan]) == [plan.root] && OpsInOrder([plan]) == plan.ops
  {
    assert [plan][..0] == [];
  }

  /** And each of its wires, connected from the endpoint of its source to its own input,
      in its own order. */
  lemma OnePlanWires(plan: Plan, endpoints: Endpoints)
    requires Wired([plan], endpoints)
    ensures |WiresInOrder([plan], endpoints)| == |plan.wires|
    ensures forall j :: 0 <= j < |plan.wires| ==>
      && plan.wires[j].source in endpoints
      && WiresInOrder([plan], endpoints)[j] == Connect(endpoints[plan.wires[j].source], plan.wires[j].to)
  {
    var none: seq<Plan> := [];
    assert none + [plan] == [plan];
    OneMorePlan(none, plan, endpoints);
    NoWires(endpoints);
    hide WiresInOrder, Wired;
    forall j | 0 <= j < |plan.wires| ensures plan.wires[j].source in endpoints {
      assert plan.wires[j] in plan.wires;
    }
  }

  lemma NoWires(endpoints: Endpoints)
    ensures Wired([], endpoints) && WiresInOrder([], endpoints) == []
  {
  }

  lemma SurvivingStep(plans: seq<Plan>, excluded: set<NodeId>, i: nat)
    requires i < |plans|
    ensures Surviving(plans[..i + 1], excluded) ==
            if plans[i].root !in excluded then Surviving(plans[..i], excluded) + [plans[i]]
                else Surviving(plans[..i], excluded)
  {
    assert plans[..i + 1][..i] == plans[..i];
  }

  lemma OneMorePlan(some: seq<Plan>, plan: Plan, endpoints: Endpoints)
    requires Wired(some + [plan], endpoints)
    ensures Wired(some, endpoints) && (forall w :: w in plan.wires ==> w.source in endpoints)
    ensures RootsInOrder(some + [plan]) == RootsInOrder(some) + [plan.root]
    ensures OpsInOrder(some + [plan]) == OpsInOrder(some) + plan.ops
    ensures WiresInOrder(some + [plan], endpoints) == WiresInOrder(some, endpoints) + PlanWires(plan, endpoints)
  {
    assert (some + [plan])[..|some|] == some;
    assert plan in some + [plan];
  }

  /** The import: roots, operations and then wires of the surviving plans, each in
      plan order, if there are any and they replay on an empty graph. */
  method Assemble(plans: seq<Plan>, endpoints: Endpoints, excluded: set<NodeId>)
    returns (r: Result<Import, ImportError>)
    requires SelfContained(plans, endpoints, Roots(plans) - excluded)
    ensures Wired(Surviving(plans, excluded), endpoints)
    ensures var kept := Surviving(plans, excluded);
            var ops := OpsInOrder(kept) + WiresInOrder(kept, endpoints);
            r == if kept == [] then Err(NothingFound)
                 else match ApplyAll(EMPTY, ops)
                      case Err(e) => Err(InvalidWiring(e))
                      case Ok(_) => Ok(Import(RootsInOrder(kept), ops))
  {
    hide SelfContained, ApplyAll, RootsInOrder, OpsInOrder, WiresInOrder, Surviving;
    SurvivorsAreWired(plans, endpoints, excluded);
    var ops, wires := Collect(plans, endpoints, excluded);
    var nodeIds := CollectRoots(plans, excluded);
    ops := ops + wires;
    RootsCount(Surviving(plans, excluded));
    if nodeIds == [] {
      return Err(NothingFound);
    }
    var applied := ApplyEach(EMPTY, ops);
    match applied {
      case Err(e) => return Err(InvalidWiring(e));
      case Ok(_) => return Ok(Import(nodeIds, ops));
    }
  }

  lemma RootsCount(plans: seq<Plan>)
    ensures RootsInOrder(plans) == [] <==> plans == []
  {
  }

  method CollectRoots(plans: seq<Plan>, excluded: set<NodeId>) returns (nodeIds: seq<NodeId>)
    ensures nodeIds == RootsInOrder(Surviving(plans, excluded))
  {
    nodeIds := [];
    for i := 0 to |plans|
      invariant nodeIds == RootsInOrder(Surviving(plans[..i], excluded))
    {
      SurvivingStep(plans, excluded, i);
      if plans[i].root !in excluded {
        ghost var before := Surviving(plans[..i], excluded);
        assert (before + [plans[i]])[..|before|] == before;
        nodeIds := nodeIds + [plans[i].root];
      }
    }
    assert plans[..|plans|] == plans;
  }

  method Collect(plans: seq<Plan>, endpoints: Endpoints, excluded: set<NodeId>)
    returns (ops: seq<GraphOp>, wires: seq<GraphOp>)
    requires Wired(Surviving(plans, excluded), endpoints)
    ensures ops == OpsInOrder(Surviving(plans, excluded))
    ensures wires == WiresInOrder(Surviving(plans, excluded), endpoints)
  {
    SurvivingMeans(plans, excluded);
    WiredPrefix(plans, endpoints, excluded, 0);
    ops, wires := [], [];
    assert plans[..0] == [];
    for i := 0 to |plans|
      invariant Wired(Surviving(plans[..i], excluded), endpoints)
      invariant ops == OpsInOrder(Surviving(plans[..i], excluded))
      invariant wires == WiresInOrder(Surviving(plans[..i], excluded), endpoints)
    {
      hide Surviving, OpsInOrder, WiresInOrder, Wired, PlanWires;
      var plan := plans[i];
      SurvivingStep(plans, excluded, i);
      WiredPrefix(plans, endpoints, excluded, i + 1);
      if plan.root !in excluded {
        OneMorePlan(Surviving(plans[..i], excluded), plan, endpoints);
        var own := WireOps(plan, endpoints);
        wires := wires + own;
        ops := ops + plan.ops;
      }
    }
    assert plans[..|plans|] == plans;
  }

  lemma WiredPrefix(plans: seq<Plan>, endpoints: Endpoints, excluded: set<NodeId>, i: nat)
    requires Wired(Surviving(plans, excluded), endpoints) && i <= |plans|
    ensures Wired(Surviving(plans[..i], excluded), endpoints)
  {
    hide Surviving;
    SurvivingMeans(plans, excluded);
    SurvivingMeans(plans[..i], excluded);
    forall p | p in Surviving(plans[..i], excluded) ensures p in Surviving(plans, excluded) {
      assert p in plans[..i];
    }
  }

  method WireOps(plan: Plan, endpoints: Endpoints) returns (ops: seq<GraphOp>)
    requires forall w :: w in plan.wires ==> w.source in endpoints
    ensures ops == PlanWires(plan, endpoints)
  {
    ops := [];
    for j := 0 to |plan.wires|
      invariant |ops| == j
      invariant forall i :: 0 <= i < j ==> ops[i] == PlanWires(plan, endpoints)[i]
    {
      assert plan.wires[j] in plan.wires;
      ops := ops + [Connect(endpoints[plan.wires[j].source], plan.wires[j].to)];
    }
  }
}
