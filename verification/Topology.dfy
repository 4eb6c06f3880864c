/** The feature navigator's dependency ordering: Kahn's algorithm over a cached
    copy of the graph's nodes and wires. */
module Topology {
  import opened Common
  import opened Paths
  import opened GraphModel
  import opened Blocks
  import opened History
  import opened Session

  // ------------------------------------------------------------------
  // what the navigator promises
  // ------------------------------------------------------------------

  /** Dependencies between existing nodes; several wires count once. */
  function Dependencies(nodes: set<NodeId>, edges: seq<Edge>): Arcs {
    set e | e in edges && e.from.node in nodes && e.to.node in nodes :: (e.from.node, e.to.node)
  }

  function Sources(arcs: Arcs, id: NodeId): set<NodeId> {
    set a | a in arcs && a.1 == id :: a.0
  }

  function Targets(arcs: Arcs, id: NodeId): set<NodeId> {
    set a | a in arcs && a.0 == id :: a.1
  }

  function Elements(s: seq<NodeId>): set<NodeId> {
    set x | x in s
  }

  ghost predicate Distinct(s: seq<NodeId>) {
    forall i, j :: 0 <= i < j < |s| ==> s[i] != s[j]
  }

  /** A node all of whose sources are listed, and which is not listed itself. */
  ghost predicate IsReady(nodes: set<NodeId>, arcs: Arcs, listed: set<NodeId>, id: NodeId) {
    id in nodes && id !in listed && Sources(arcs, id) <= listed
  }

  /** Each entry is the least node that was ready when it was listed. */
  ghost predicate Greedy(nodes: set<NodeId>, arcs: Arcs, order: seq<NodeId>) {
    forall k :: 0 <= k < |order| ==>
      && IsReady(nodes, arcs, Elements(order[..k]), order[k])
      && forall id :: IsReady(nodes, arcs, Elements(order[..k]), id) ==> order[k] <= id
  }

  /** An order of all nodes in which every source precedes its targets. */
  ghost predicate Topological(nodes: set<NodeId>, arcs: Arcs, order: seq<NodeId>) {
    && Distinct(order) && Elements(order) == nodes
    && forall k :: 0 <= k < |order| ==> Sources(arcs, order[k]) <= Elements(order[..k])
  }

  ghost predicate LexAtMost(a: seq<NodeId>, b: seq<NodeId>) {
    a == b || exists k :: 0 <= k < |a| && k < |b| && a[..k] == b[..k] && a[k] < b[k]
  }

  /** A cycle lies at or above the node. */
  ghost predicate BelowCycle(arcs: Arcs, id: NodeId) {
    exists c :: IsCycle(arcs, c) && Reaches(arcs, c[0], id)
  }

  // ------------------------------------------------------------------
  // consequences of greedy listing
  // ------------------------------------------------------------------

  lemma PrefixElements(s: seq<NodeId>, k: nat)
    requires k < |s|
    ensures Elements(s[..k + 1]) == Elements(s[..k]) + {s[k]}
    ensures Elements(s[..k]) <= Elements(s)
  {
    assert s[..k + 1] == s[..k] + [s[k]];
  }

  lemma GreedyIsDistinct(nodes: set<NodeId>, arcs: Arcs, order: seq<NodeId>)
    requires Greedy(nodes, arcs, order)
    ensures Distinct(order)
  {
    forall i, j | 0 <= i < j < |order| ensures order[i] != order[j] {
      assert order[i] in order[..j];
    }
  }

  /** No other topological order is lexicographically smaller. */
  lemma GreedyIsLexLeast(nodes: set<NodeId>, arcs: Arcs, order: seq<NodeId>, other: seq<NodeId>)
    requires Greedy(nodes, arcs, order) && Elements(order) == nodes
    requires Topological(nodes, arcs, other)
    ensures LexAtMost(order, other)
  {
    GreedyIsDistinct(nodes, arcs, order);
    SameElementsSameLength(order, other);
    LexFrom(nodes, arcs, order, other, 0);
  }

  lemma {:induction false} SameElementsSameLength(a: seq<NodeId>, b: seq<NodeId>)
    requires Distinct(a) && Distinct(b) && Elements(a) == Elements(b)
    ensures |a| == |b|
  {
    DistinctCount(a);
    DistinctCount(b);
  }

  lemma {:induction false} DistinctCount(s: seq<NodeId>)
    requires Distinct(s)
    ensures |Elements(s)| == |s|
  {
    if s != [] {
      var n := |s| - 1;
      DistinctCount(s[..n]);
      PrefixElements(s, n);
      assert s[..n + 1] == s;
      assert s[n] !in s[..n];
    }
  }

  lemma {:induction false} LexFrom(nodes: set<NodeId>, arcs: Arcs, order: seq<NodeId>, other: seq<NodeId>, k: nat)
    requires Greedy(nodes, arcs, order) && Topological(nodes, arcs, other)
    requires |order| == |other| && k <= |order| && order[..k] == other[..k]
    ensures LexAtMost(order, other)
    decreases |order| - k
  {
    if k == |order| {
      assert order == other;
    } else if order[k] == other[k] {
      assert order[..k + 1] == other[..k + 1];
      LexFrom(nodes, arcs, order, other, k + 1);
    } else {
      assert other[k] !in other[..k];
      assert IsReady(nodes, arcs, Elements(order[..k]), other[k]);
    }
  }

  /** Nothing listed lies below a cycle: sources come strictly earlier. */
  lemma {:induction false} ListedPathsRun(nodes: set<NodeId>, arcs: Arcs, order: seq<NodeId>, p: seq<NodeId>, k: nat)
    requires Greedy(nodes, arcs, order) && IsPath(arcs, p) && k < |order| && p[|p| - 1] == order[k]
    ensures |p| <= k + 1
    ensures |p| > 1 ==> p[0] in order[..k] && p[0] != order[k]
    decreases |p|
  {
    if |p| > 1 {
      var q := p[..|p| - 1];
      assert (p[|p| - 2], p[|p| - 1]) in arcs;
      assert p[|p| - 2] in Sources(arcs, order[k]);
      var j :| 0 <= j < k && order[j] == p[|p| - 2];
      ListedPathsRun(nodes, arcs, order, q, j);
      if |q| > 1 {
        var i :| 0 <= i < j && order[..j][i] == p[0];
        assert order[..k][i] == p[0];
      } else {
        assert order[..k][j] == p[0];
      }
    }
  }

  lemma ListedIndex(nodes: set<NodeId>, arcs: Arcs, order: seq<NodeId>, p: seq<NodeId>, k: nat) returns (j: nat)
    requires Greedy(nodes, arcs, order) && IsPath(arcs, p) && k < |order| && p[|p| - 1] == order[k]
    ensures j <= k && order[j] == p[0]
  {
    ListedPathsRun(nodes, arcs, order, p, k);
    if |p| > 1 {
      j :| 0 <= j < k && order[..k][j] == p[0];
    } else {
      j := k;
    }
  }

  lemma ListedPathIsNoCycle(
    nodes: set<NodeId>, arcs: Arcs, order: seq<NodeId>, k: nat, c: seq<NodeId>, p: seq<NodeId>)
    requires Greedy(nodes, arcs, order) && k < |order|
    requires IsPath(arcs, c) && PathBetween(arcs, p, c[|c| - 1], order[k])
    ensures !IsCycle(arcs, c)
  {
    var j := ListedIndex(nodes, arcs, order, p, k);
    ListedPathsRun(nodes, arcs, order, c, j);
  }

  lemma ListedIsNotBelowCycle(nodes: set<NodeId>, arcs: Arcs, order: seq<NodeId>, k: nat)
    requires Greedy(nodes, arcs, order) && k < |order|
    ensures !BelowCycle(arcs, order[k])
  {
    forall c | IsPath(arcs, c) && Reaches(arcs, c[|c| - 1], order[k]) ensures !IsCycle(arcs, c) {
      var p :| PathBetween(arcs, p, c[|c| - 1], order[k]);
      ListedPathIsNoCycle(nodes, arcs, order, k, c, p);
    }
  }

  /** When nothing is ready, every unlisted node has an unlisted source, and walking
      those back runs into a cycle. */
  lemma UnlistedIsBelowCycle(nodes: set<NodeId>, arcs: Arcs, listed: set<NodeId>, id: NodeId)
    requires forall a :: a in arcs ==> a.0 in nodes && a.1 in nodes
    requires forall n :: !IsReady(nodes, arcs, listed, n)
    requires id in nodes && id !in listed
    ensures BelowCycle(arcs, id)
  {
    var p := WalkBack(nodes, arcs, listed, id, |nodes|);
    var c := LongPathHasCycle(arcs, nodes, p);
  }

  lemma {:induction false} WalkBack(nodes: set<NodeId>, arcs: Arcs, listed: set<NodeId>, id: NodeId, length: nat)
    returns (p: seq<NodeId>)
    requires forall a :: a in arcs ==> a.0 in nodes && a.1 in nodes
    requires forall n :: !IsReady(nodes, arcs, listed, n)
    requires id in nodes && id !in listed
    ensures IsPath(arcs, p) && |p| == length + 1 && p[|p| - 1] == id
    ensures forall x :: x in p ==> x in nodes
    ensures p[0] !in listed
    decreases length
  {
    if length == 0 {
      p := [id];
    } else {
      var q := WalkBack(nodes, arcs, listed, id, length - 1);
      assert !IsReady(nodes, arcs, listed, q[0]) && q[0] in q;
      var source :| source in Sources(arcs, q[0]) && source !in listed;
      p := [source] + q;
    }
  }

  /** For an acyclic graph, no unready node is left over. */
  lemma AcyclicMeansNoneBelowCycle(arcs: Arcs, id: NodeId)
    requires Acyclic(arcs)
    ensures !BelowCycle(arcs, id)
  {
  }

  // ------------------------------------------------------------------
  // depth
  // ------------------------------------------------------------------

  lemma LastArc(arcs: Arcs, p: seq<NodeId>)
    ensures IsPath(arcs, p) && |p| > 1 ==> p[|p| - 2] in Sources(arcs, p[|p| - 1]) && IsPath(arcs, p[..|p| - 1])
  {
    if IsPath(arcs, p) && |p| > 1 {
      assert (p[|p| - 2], p[|p| - 2 + 1]) in arcs;
    }
  }

  lemma LongestPathOfSource(arcs: Arcs, id: NodeId)
    requires Sources(arcs, id) == {}
    ensures LongestPath(arcs, id, 0)
  {
    assert IsPath(arcs, [id]);
    forall p | IsPath(arcs, p) && p[|p| - 1] == id ensures |p| <= 1 {
      LastArc(arcs, p);
    }
  }

  /** The longest path to a node is one arc more than the longest to a source. */
  lemma LongestPathStep(arcs: Arcs, id: NodeId, depth: map<NodeId, nat>, d: nat)
    requires forall s :: s in Sources(arcs, id) ==> s in depth && LongestPath(arcs, s, depth[s]) && depth[s] + 1 <= d
    requires exists s :: s in Sources(arcs, id) && depth[s] + 1 == d
    ensures LongestPath(arcs, id, d)
  {
    var s :| s in Sources(arcs, id) && depth[s] + 1 == d;
    var q :| IsPath(arcs, q) && q[|q| - 1] == s && |q| == depth[s] + 1;
    assert IsPath(arcs, q + [id]);
    forall p | IsPath(arcs, p) && p[|p| - 1] == id ensures |p| <= d + 1 {
      LastArc(arcs, p);
    }
  }

  // ------------------------------------------------------------------
  // the cached computation
  // ------------------------------------------------------------------

  ghost predicate Increasing(s: seq<NodeId>) {
    forall i, j :: 0 <= i < j < |s| ==> s[i] < s[j]
  }

  lemma LeastFirst(s: set<NodeId>, m: NodeId, rest: seq<NodeId>)
    requires m in s && (forall k :: k in s ==> m <= k)
    requires Elements(rest) == s - {m} && Increasing(rest)
    ensures Elements([m] + rest) == s && Increasing([m] + rest)
  {
    forall i, j | 0 <= i < j < |rest| + 1 ensures ([m] + rest)[i] < ([m] + rest)[j] {
      assert rest[j - 1] in Elements(rest);
    }
    assert Elements([m] + rest) == {m} + Elements(rest);
  }

  /** The keys of a `BTreeMap` in the order it yields them. */
  function Ascending(s: set<NodeId>): (r: seq<NodeId>)
    ensures Elements(r) == s && Increasing(r)
    decreases |s|
  {
    if s == {} then []
    else
      var m := MinOf(s);
      var rest := Ascending(s - {m});
      LeastFirst(s, m, rest);
      [m] + rest
  }

  function DepthOf(depth: map<NodeId, nat>, id: NodeId): nat {
    if id in depth then depth[id] else 0
  }

  /** The depth recorded so far: one more than the deepest listed source. */
  ghost predicate DepthOk(arcs: Arcs, listed: set<NodeId>, depth: map<NodeId, nat>, id: NodeId) {
    var sources := Sources(arcs, id) * listed;
    && (forall s :: s in sources ==> DepthOf(depth, s) + 1 <= DepthOf(depth, id))
    && (sources == {} ==> DepthOf(depth, id) == 0)
    && (sources != {} ==> exists s :: s in sources && DepthOf(depth, s) + 1 == DepthOf(depth, id))
  }

  /** Each counter holds how many sources are still unlisted. */
  ghost predicate CountsOk(nodes: set<NodeId>, arcs: Arcs, listed: set<NodeId>, remaining: map<NodeId, nat>) {
    remaining.Keys == nodes && forall id :: id in nodes ==> remaining[id] == |Sources(arcs, id) - listed|
  }

  ghost predicate WorklistOk(nodes: set<NodeId>, arcs: Arcs, listed: set<NodeId>, ready: set<NodeId>) {
    forall id :: id in ready <==> IsReady(nodes, arcs, listed, id)
  }

  ghost predicate DepthsOk(nodes: set<NodeId>, arcs: Arcs, listed: set<NodeId>, depth: map<NodeId, nat>) {
    forall id :: id in nodes ==> DepthOk(arcs, listed, depth, id)
  }

  ghost predicate FinalOk(arcs: Arcs, listed: set<NodeId>, depth: map<NodeId, nat>) {
    forall id :: id in listed ==> LongestPath(arcs, id, DepthOf(depth, id))
  }

  /** The state of the worklist loop once `order` has been listed. */
  ghost predicate LoopOk(
    nodes: set<NodeId>, arcs: Arcs, order: seq<NodeId>, remaining: map<NodeId, nat>, ready: set<NodeId>,
    depth: map<NodeId, nat>)
  {
    && Greedy(nodes, arcs, order) && Elements(order) <= nodes
    && CountsOk(nodes, arcs, Elements(order), remaining)
    && WorklistOk(nodes, arcs, Elements(order), ready)
    && DepthsOk(nodes, arcs, Elements(order), depth)
    && FinalOk(arcs, Elements(order), depth)
  }

  /** A finished ordering: the greedy part, then the nodes it could not reach. */
  ghost predicate Ordered(nodes: set<NodeId>, arcs: Arcs, order: seq<NodeId>, sorted: nat, depth: map<NodeId, nat>) {
    && sorted <= |order|
    && Distinct(order) && Elements(order) == nodes
    && Greedy(nodes, arcs, order[..sorted])
    && (forall id :: !IsReady(nodes, arcs, Elements(order[..sorted]), id))
    && (forall k :: 0 <= k < sorted ==> LongestPath(arcs, order[k], DepthOf(depth, order[k])))
    && (forall i, j :: sorted <= i < j < |order| ==> order[i] < order[j])
  }

  /** The sorted part is exactly the nodes with no cycle at or above them; for an
      acyclic graph it is everything, and the lexicographically least topological
      order. */
  lemma OrderedMeans(nodes: set<NodeId>, arcs: Arcs, order: seq<NodeId>, sorted: nat, depth: map<NodeId, nat>)
    requires Ordered(nodes, arcs, order, sorted, depth)
    requires forall a :: a in arcs ==> a.0 in nodes && a.1 in nodes
    ensures forall k :: 0 <= k < |order| ==> (k < sorted <==> !BelowCycle(arcs, order[k]))
    ensures Acyclic(arcs) ==> sorted == |order| && Topological(nodes, arcs, order)
    ensures Acyclic(arcs) ==> forall other :: Topological(nodes, arcs, other) ==> LexAtMost(order, other)
  {
    forall k | 0 <= k < |order| ensures k < sorted <==> !BelowCycle(arcs, order[k]) {
      if k < sorted {
        ListedIsNotBelowCycle(nodes, arcs, order[..sorted], k);
      } else {
        assert order[k] !in order[..sorted];
        assert order[k] in Elements(order);
        UnlistedIsBelowCycle(nodes, arcs, Elements(order[..sorted]), order[k]);
      }
    }
    if Acyclic(arcs) {
      if sorted < |order| {
        AcyclicMeansNoneBelowCycle(arcs, order[sorted]);
        assert false;
      }
      assert order[..sorted] == order;
      forall other | Topological(nodes, arcs, other) ensures LexAtMost(order, other) {
        GreedyIsLexLeast(nodes, arcs, order, other);
      }
    }
  }

  /** A well-formed graph is acyclic, so its navigator lists every feature in the
      least topological order, each at the depth of its longest chain of sources. */
  lemma WellFormedOrderIsTopological(g: Graph, order: seq<NodeId>, sorted: nat, depth: map<NodeId, nat>)
    requires WellFormed(g)
    requires Ordered(g.nodes.Keys, Dependencies(g.nodes.Keys, g.edges), order, sorted, depth)
    ensures LeastOrder(g.nodes.Keys, ArcsOf(g.edges), order, depth)
  {
    var arcs := Dependencies(g.nodes.Keys, g.edges);
    assert arcs == ArcsOf(g.edges);
    OrderedMeans(g.nodes.Keys, arcs, order, sorted, depth);
  }

  /** The least topological order of all nodes, with longest-path depths. */
  ghost predicate LeastOrder(nodes: set<NodeId>, arcs: Arcs, order: seq<NodeId>, depth: map<NodeId, nat>) {
    && Topological(nodes, arcs, order)
    && (forall other :: Topological(nodes, arcs, other) ==> LexAtMost(order, other))
    && (forall k :: 0 <= k < |order| ==> LongestPath(arcs, order[k], DepthOf(depth, order[k])))
  }

  /** So it is for the graph of every valid history, whatever it holds. */
  lemma HistoryOrderIsTopological(
    c: Primitives, blocks: seq<Block>, order: seq<NodeId>, sorted: nat, depth: map<NodeId, nat>)
    requires History.Valid(c, blocks)
    requires var g := ReplayBlocks(blocks).value;
             Ordered(g.nodes.Keys, Dependencies(g.nodes.Keys, g.edges), order, sorted, depth)
    ensures var g := ReplayBlocks(blocks).value;
            LeastOrder(g.nodes.Keys, ArcsOf(g.edges), order, depth)
  {
    hide WellFormed, Ordered, LeastOrder, Dependencies, ArcsOf, History.Valid, ReplayBlocks;
    RebuiltIsWellFormed(c, blocks);
    WellFormedOrderIsTopological(ReplayBlocks(blocks).value, order, sorted, depth);
  }

  /** And for whatever a document displays: edits in flight and earlier blocks too. */
  lemma DisplayedOrderIsTopological(d: Document, navigator: Navigator)
    requires d.Valid() && navigator.Valid()
    requires Elements(navigator.nodes) == d.Displayed().nodes.Keys && navigator.edges == d.Displayed().edges
    ensures LeastOrder(d.Displayed().nodes.Keys, ArcsOf(d.Displayed().edges), navigator.order, navigator.depth)
  {
    hide Document.Valid, WellFormed, Ordered, LeastOrder, Dependencies, ArcsOf, Elements;
    SessionGraphsAreWellFormed(d);
    WellFormedOrderIsTopological(d.Displayed(), navigator.order, navigator.sorted, navigator.depth);
  }

  // ------------------------------------------------------------------
  // one step of the worklist
  // ------------------------------------------------------------------

  /** A target lies at least one below the node just listed. */
  function Raised(targets: set<NodeId>, d: nat, depth: map<NodeId, nat>, x: NodeId): nat {
    if x in targets && DepthOf(depth, x) < d + 1 then d + 1 else DepthOf(depth, x)
  }

  /** The effect of releasing the targets of a node listed at depth `d`. */
  ghost predicate Released(
    targets: set<NodeId>, d: nat, remaining: map<NodeId, nat>, ready: set<NodeId>, depth: map<NodeId, nat>,
    remaining': map<NodeId, nat>, ready': set<NodeId>, depth': map<NodeId, nat>)
  {
    && remaining'.Keys == remaining.Keys
    && (forall x :: x in remaining ==> remaining'[x] + (if x in targets then 1 else 0) == remaining[x])
    && (forall x :: x in ready' <==> x in ready || (x in targets && x in remaining && remaining[x] == 1))
    && (forall x :: DepthOf(depth', x) == Raised(targets, d, depth, x))
  }

  lemma SetLosesOne(s: set<NodeId>, listed: set<NodeId>, id: NodeId)
    requires id !in listed
    ensures |s - listed| == |s - (listed + {id})| + (if id in s then 1 else 0)
  {
    if id in s {
      assert s - listed == (s - (listed + {id})) + {id};
    } else {
      assert s - listed == s - (listed + {id});
    }
  }

  lemma SourceOrTarget(arcs: Arcs, a: NodeId, b: NodeId)
    ensures a in Sources(arcs, b) <==> b in Targets(arcs, a)
    ensures a in Sources(arcs, b) <==> (a, b) in arcs
  {
    if b in Targets(arcs, a) {
      assert (a, b) in arcs;
    }
  }

  /** A ready node's depth is already the length of its longest path. */
  lemma ReadyDepthIsLongest(nodes: set<NodeId>, arcs: Arcs, listed: set<NodeId>, depth: map<NodeId, nat>, id: NodeId)
    requires IsReady(nodes, arcs, listed, id) && DepthsOk(nodes, arcs, listed, depth) && FinalOk(arcs, listed, depth)
    ensures LongestPath(arcs, id, DepthOf(depth, id))
  {
    var sources := Sources(arcs, id);
    assert sources * listed == sources && DepthOk(arcs, listed, depth, id);
    hide LongestPath, Sources;
    if sources == {} {
      LongestPathOfSource(arcs, id);
    } else {
      var known := map s | s in sources :: DepthOf(depth, s);
      LongestPathStep(arcs, id, known, DepthOf(depth, id));
    }
  }

  /** Releasing a node's targets never touches a listed node, nor the node itself. */
  lemma ListedAreNoTargets(nodes: set<NodeId>, arcs: Arcs, order: seq<NodeId>, id: NodeId)
    requires Greedy(nodes, arcs, order) && IsReady(nodes, arcs, Elements(order), id)
    ensures forall x :: x in Elements(order) + {id} ==> x !in Targets(arcs, id)
  {
    forall x | x in Elements(order) + {id} ensures x !in Targets(arcs, id) {
      SourceOrTarget(arcs, id, x);
      if x != id {
        var k :| 0 <= k < |order| && order[k] == x;
        PrefixElements(order, k);
        assert Sources(arcs, x) <= Elements(order);
      }
    }
  }

  lemma AppendElements(order: seq<NodeId>, id: NodeId)
    ensures Elements(order + [id]) == Elements(order) + {id}
  {
  }

  lemma GreedyStep(nodes: set<NodeId>, arcs: Arcs, order: seq<NodeId>, id: NodeId)
    requires Greedy(nodes, arcs, order) && IsReady(nodes, arcs, Elements(order), id)
    requires forall x :: IsReady(nodes, arcs, Elements(order), x) ==> id <= x
    ensures Greedy(nodes, arcs, order + [id])
  {
    var longer := order + [id];
    forall k | 0 <= k < |longer|
      ensures IsReady(nodes, arcs, Elements(longer[..k]), longer[k])
      ensures forall x :: IsReady(nodes, arcs, Elements(longer[..k]), x) ==> longer[k] <= x
    {
      if k < |order| {
        assert longer[..k] == order[..k] && longer[k] == order[k];
      } else {
        assert longer[..k] == order;
      }
    }
  }

  lemma EmptyDifference(a: set<NodeId>, b: set<NodeId>)
    ensures a <= b <==> |a - b| == 0
  {
    assert |a - b| == 0 <==> a - b == {};
    assert a - b == {} ==> forall x :: x in a ==> x !in a - b;
  }

  lemma CountsStep(
    nodes: set<NodeId>, arcs: Arcs, listed: set<NodeId>, id: NodeId, remaining: map<NodeId, nat>,
    remaining': map<NodeId, nat>)
    requires CountsOk(nodes, arcs, listed, remaining) && id !in listed && remaining'.Keys == nodes
    requires forall x :: x in nodes ==> remaining'[x] + (if x in Targets(arcs, id) then 1 else 0) == remaining[x]
    ensures CountsOk(nodes, arcs, listed + {id}, remaining')
  {
    hide Sources, Targets;
    forall x | x in nodes ensures remaining'[x] == |Sources(arcs, x) - (listed + {id})| {
      SetLosesOne(Sources(arcs, x), listed, id);
      SourceOrTarget(arcs, id, x);
    }
  }

  lemma WorklistStep(
    nodes: set<NodeId>, arcs: Arcs, listed: set<NodeId>, id: NodeId, remaining: map<NodeId, nat>,
    ready: set<NodeId>, ready': set<NodeId>)
    requires CountsOk(nodes, arcs, listed, remaining) && WorklistOk(nodes, arcs, listed, ready) && id in ready
    requires forall x :: x in listed + {id} ==> x !in Targets(arcs, id)
    requires forall x :: x in ready' <==>
      x in ready - {id} || (x in Targets(arcs, id) && x in remaining && remaining[x] == 1)
    ensures WorklistOk(nodes, arcs, listed + {id}, ready')
  {
    hide Sources, Targets;
    assert IsReady(nodes, arcs, listed, id);
    forall x ensures x in ready' <==> IsReady(nodes, arcs, listed + {id}, x) {
      var sources := Sources(arcs, x);
      SetLosesOne(sources, listed, id);
      SourceOrTarget(arcs, id, x);
      EmptyDifference(sources, listed + {id});
      EmptyDifference(sources, listed);
    }
  }

  lemma DepthStep(
    arcs: Arcs, listed: set<NodeId>, id: NodeId, depth: map<NodeId, nat>, depth': map<NodeId, nat>, x: NodeId)
    requires id !in listed && DepthOk(arcs, listed, depth, x)
    requires forall y :: y in listed + {id} ==> DepthOf(depth', y) == DepthOf(depth, y)
    requires DepthOf(depth', x) == Raised(Targets(arcs, id), DepthOf(depth, id), depth, x)
    ensures DepthOk(arcs, listed + {id}, depth', x)
  {
    SourceOrTarget(arcs, id, x);
    hide Sources, Targets, DepthOf;
    var before, after := Sources(arcs, x) * listed, Sources(arcs, x) * (listed + {id});
    if x in Targets(arcs, id) {
      assert after == before + {id} && id in after;
      if before != {} && DepthOf(depth, x) >= DepthOf(depth, id) + 1 {
        var s :| s in before && DepthOf(depth, s) + 1 == DepthOf(depth, x);
        assert s in after && DepthOf(depth', s) + 1 == DepthOf(depth', x);
      } else {
        assert DepthOf(depth', id) + 1 == DepthOf(depth', x);
      }
    } else {
      assert after == before;
      if before != {} {
        var s :| s in before && DepthOf(depth, s) + 1 == DepthOf(depth, x);
        assert s in after && DepthOf(depth', s) + 1 == DepthOf(depth', x);
      }
    }
  }

  lemma DepthsStep(
    nodes: set<NodeId>, arcs: Arcs, listed: set<NodeId>, id: NodeId, depth: map<NodeId, nat>, depth': map<NodeId, nat>)
    requires id !in listed && DepthsOk(nodes, arcs, listed, depth) && FinalOk(arcs, listed, depth)
    requires LongestPath(arcs, id, DepthOf(depth, id))
    requires forall x :: x in listed + {id} ==> x !in Targets(arcs, id)
    requires forall x :: DepthOf(depth', x) == Raised(Targets(arcs, id), DepthOf(depth, id), depth, x)
    ensures DepthsOk(nodes, arcs, listed + {id}, depth') && FinalOk(arcs, listed + {id}, depth')
  {
    hide LongestPath, DepthOk, Sources, Targets, DepthOf;
    forall x | x in nodes ensures DepthOk(arcs, listed + {id}, depth', x) {
      DepthStep(arcs, listed, id, depth, depth', x);
    }
  }

  /** Listing the least ready node and releasing its targets keeps the loop state. */
  lemma {:induction false} LoopStep(
    nodes: set<NodeId>, arcs: Arcs, order: seq<NodeId>, id: NodeId,
    remaining: map<NodeId, nat>, ready: set<NodeId>, depth: map<NodeId, nat>,
    remaining': map<NodeId, nat>, ready': set<NodeId>, depth': map<NodeId, nat>)
    requires LoopOk(nodes, arcs, order, remaining, ready, depth)
    requires id in ready && forall x :: x in ready ==> id <= x
    requires Released(Targets(arcs, id), DepthOf(depth, id), remaining, ready - {id}, depth, remaining', ready', depth')
    ensures LoopOk(nodes, arcs, order + [id], remaining', ready', depth')
  {
    hide Greedy, IsReady, FinalOk, DepthsOk, Sources, Targets, Elements, DepthOf;
    var listed := Elements(order);
    AppendElements(order, id);
    LeastReady(nodes, arcs, listed, ready, id);
    GreedyStep(nodes, arcs, order, id);
    ReadyDepthIsLongest(nodes, arcs, listed, depth, id);
    ListedAreNoTargets(nodes, arcs, order, id);
    CountsStep(nodes, arcs, listed, id, remaining, remaining');
    WorklistStep(nodes, arcs, listed, id, remaining, ready, ready');
    DepthsStep(nodes, arcs, listed, id, depth, depth');
  }

  lemma LeastReady(nodes: set<NodeId>, arcs: Arcs, listed: set<NodeId>, ready: set<NodeId>, id: NodeId)
    requires WorklistOk(nodes, arcs, listed, ready)
    requires id in ready && forall x :: x in ready ==> id <= x
    ensures IsReady(nodes, arcs, listed, id) && id in nodes && id !in listed
    ensures forall x :: IsReady(nodes, arcs, listed, x) ==> id <= x
  {
  }

  // ------------------------------------------------------------------
  // the navigator's cache
  // ------------------------------------------------------------------

  /** The neighbours shown beside a feature: all its sources and all its targets. */
  ghost predicate Neighbours(
    nodes: set<NodeId>, edges: seq<Edge>, upstream: map<NodeId, set<NodeId>>, downstream: map<NodeId, set<NodeId>>)
  {
    && upstream.Keys == downstream.Keys == nodes
    && forall id :: id in nodes ==>
      && upstream[id] == Sources(Dependencies(nodes, edges), id)
      && downstream[id] == Targets(Dependencies(nodes, edges), id)
  }

  /** Sources and targets of every node, one wire at a time. */
  method Wire(nodes: set<NodeId>, edges: seq<Edge>)
    returns (upstream: map<NodeId, set<NodeId>>, downstream: map<NodeId, set<NodeId>>)
    ensures Neighbours(nodes, edges, upstream, downstream)
  {
    NoDependencies(nodes);
    hide Dependencies, Sources, Targets;
    upstream := map id | id in nodes :: {};
    downstream := upstream;
    assert edges[..0] == [];
    for i := 0 to |edges|
      invariant upstream.Keys == downstream.Keys == nodes
      invariant forall id :: id in nodes ==>
        && upstream[id] == Sources(Dependencies(nodes, edges[..i]), id)
        && downstream[id] == Targets(Dependencies(nodes, edges[..i]), id)
    {
      var edge := edges[i];
      DependenciesStep(nodes, edges, i);
      if edge.from.node in nodes && edge.to.node in nodes {
        upstream := upstream[edge.to.node := upstream[edge.to.node] + {edge.from.node}];
        downstream := downstream[edge.from.node := downstream[edge.from.node] + {edge.to.node}];
      }
    }
    assert edges[..|edges|] == edges;
  }

  lemma NoDependencies(nodes: set<NodeId>)
    ensures forall id :: Sources(Dependencies(nodes, []), id) == {} == Targets(Dependencies(nodes, []), id)
  {
  }

  lemma DependenciesStep(nodes: set<NodeId>, edges: seq<Edge>, i: nat)
    requires i < |edges|
    ensures var e := edges[i];
            var added := if e.from.node in nodes && e.to.node in nodes then {(e.from.node, e.to.node)} else {};
            && Dependencies(nodes, edges[..i + 1]) == Dependencies(nodes, edges[..i]) + added
            && (forall id :: Sources(Dependencies(nodes, edges[..i + 1]), id) ==
                  Sources(Dependencies(nodes, edges[..i]), id)
                  + (if added != {} && e.to.node == id then {e.from.node} else {}))
            && (forall id :: Targets(Dependencies(nodes, edges[..i + 1]), id) ==
                  Targets(Dependencies(nodes, edges[..i]), id)
                  + (if added != {} && e.from.node == id then {e.to.node} else {}))
  {
    assert forall e :: e in edges[..i + 1] <==> e in edges[..i] || e == edges[i];
  }

  /** Release the targets of one listed node. The counters never underflow. */
  method Release(
    targets: set<NodeId>, d: nat, remaining: map<NodeId, nat>, ready: set<NodeId>, depth: map<NodeId, nat>
  ) returns (remaining': map<NodeId, nat>, ready': set<NodeId>, depth': map<NodeId, nat>)
    requires forall x :: x in targets ==> x in remaining && remaining[x] >= 1
    ensures Released(targets, d, remaining, ready, depth, remaining', ready', depth')
  {
    remaining', ready', depth' := remaining, ready, depth;
    var rest := targets;
    while rest != {}
      invariant rest <= targets
      invariant Released(targets - rest, d, remaining, ready, depth, remaining', ready', depth')
      decreases |rest|
    {
      var next := MinOf(rest);
      var nextDepth := DepthOf(depth', next);
      ghost var before := depth';
      depth' := depth'[next := if nextDepth < d + 1 then d + 1 else nextDepth];
      forall x ensures DepthOf(depth', x) == Raised(targets - (rest - {next}), d, depth, x) {
        assert DepthOf(before, x) == Raised(targets - rest, d, depth, x);
      }
      var count := remaining'[next] - 1;
      remaining' := remaining'[next := count];
      if count == 0 {
        ready' := ready' + {next};
      }
      rest := rest - {next};
    }
    assert targets - rest == targets;
  }

  class Navigator {
    var nodes: seq<NodeId>
    var edges: seq<Edge>
    var order: seq<NodeId>
    var depth: map<NodeId, nat>
    var upstream: map<NodeId, set<NodeId>>
    var downstream: map<NodeId, set<NodeId>>
    ghost var sorted: nat

    /** The cached order belongs to the cached nodes and wires. */
    ghost predicate Valid()
      reads this
    {
      && nodes == Ascending(Elements(nodes))
      && Ordered(Elements(nodes), Dependencies(Elements(nodes), edges), order, sorted, depth)
      && Neighbours(Elements(nodes), edges, upstream, downstream)
    }

    constructor Empty()
      ensures Valid()
    {
      nodes, edges, order, depth, sorted := [], [], [], map[], 0;
      upstream, downstream := map[], map[];
      new;
      assert Elements(nodes) == {} && Elements(order[..0]) == {};
    }

    /** Whatever was cached before, afterwards the order is that of `graph`. */
    method Refresh(graph: Graph)
      requires Valid()
      modifies this
      ensures Valid() && Elements(nodes) == graph.nodes.Keys && edges == graph.edges
      ensures Distinct(order) && Elements(order) == graph.nodes.Keys && sorted <= |order|
      ensures var arcs := Dependencies(graph.nodes.Keys, graph.edges);
              && (forall k :: 0 <= k < |order| ==> (k < sorted <==> !BelowCycle(arcs, order[k])))
              && (forall k :: 0 <= k < sorted ==> LongestPath(arcs, order[k], DepthOf(depth, order[k])))
              && (forall i, j :: sorted <= i < j < |order| ==> order[i] < order[j])
              && (Acyclic(arcs) ==> LeastOrder(graph.nodes.Keys, arcs, order, depth))
      ensures Neighbours(graph.nodes.Keys, graph.edges, upstream, downstream)
    {
      hide Acyclic, BelowCycle, LongestPath, DepthOf, Topological, LexAtMost, Greedy, IsReady, FinalOk, Dependencies,
          Ascending;
      RefreshOrder(graph);
      DependenciesAreInside(graph.nodes.Keys, graph.edges);
      OrderedMeans(graph.nodes.Keys, Dependencies(graph.nodes.Keys, graph.edges), order, sorted, depth);
    }

    /** Recompute unless the graph's nodes and wires are the cached ones. */
    method RefreshOrder(graph: Graph)
      requires Valid()
      modifies this
      ensures Valid() && Elements(nodes) == graph.nodes.Keys && edges == graph.edges
    {
      hide Greedy, IsReady, LongestPath, FinalOk, Dependencies, Ordered, Neighbours, DepthOf, Ascending, Elements;
      if nodes == Ascending(graph.nodes.Keys) && edges == graph.edges {
        return;
      }
      nodes := Ascending(graph.nodes.Keys);
      edges := graph.edges;
      upstream, downstream := Wire(graph.nodes.Keys, edges);
      var listed;
      listed, depth := SortByReadiness(graph.nodes.Keys, edges, upstream, downstream);
      sorted := |listed|;
      var visited := Elements(listed);
      var leftOver := Ascending(graph.nodes.Keys - visited);
      order := listed + leftOver;
      JoinLeftOver(graph.nodes.Keys, Dependencies(graph.nodes.Keys, edges), listed, leftOver, depth);
    }
  }

  lemma DependenciesAreInside(nodes: set<NodeId>, edges: seq<Edge>)
    ensures forall a :: a in Dependencies(nodes, edges) ==> a.0 in nodes && a.1 in nodes
  {
  }

  lemma JoinLeftOver(
    nodes: set<NodeId>, arcs: Arcs, listed: seq<NodeId>, leftOver: seq<NodeId>, depth: map<NodeId, nat>)
    requires Greedy(nodes, arcs, listed) && Elements(listed) <= nodes
    requires forall id :: !IsReady(nodes, arcs, Elements(listed), id)
    requires FinalOk(arcs, Elements(listed), depth)
    requires leftOver == Ascending(nodes - Elements(listed))
    ensures Ordered(nodes, arcs, listed + leftOver, |listed|, depth)
  {
    GreedyIsDistinct(nodes, arcs, listed);
    hide Greedy, IsReady, LongestPath, DepthOf, Ascending;
    var order := listed + leftOver;
    assert order[..|listed|] == listed;
    DisjointJoin(listed, leftOver);
    forall k | 0 <= k < |listed| ensures LongestPath(arcs, order[k], DepthOf(depth, order[k])) {
      assert listed[k] in Elements(listed);
    }
    assert Elements(order) == nodes;
  }

  lemma DisjointJoin(a: seq<NodeId>, b: seq<NodeId>)
    requires Distinct(a) && Elements(a) * Elements(b) == {}
    requires forall i, j :: 0 <= i < j < |b| ==> b[i] < b[j]
    ensures Distinct(a + b) && Elements(a + b) == Elements(a) + Elements(b)
  {
    forall i, j | 0 <= i < j < |a + b| ensures (a + b)[i] != (a + b)[j] {
      if i < |a| <= j {
        assert a[i] in Elements(a) && b[j - |a|] in Elements(b) && a[i] !in Elements(a) * Elements(b);
      }
    }
  }

  /** The worklist loop itself. */
  method SortByReadiness(
    nodes: set<NodeId>, edges: seq<Edge>, upstream: map<NodeId, set<NodeId>>, downstream: map<NodeId, set<NodeId>>
  ) returns (order: seq<NodeId>, depth: map<NodeId, nat>)
    requires Neighbours(nodes, edges, upstream, downstream)
    ensures var arcs := Dependencies(nodes, edges);
            && Greedy(nodes, arcs, order) && Elements(order) <= nodes
            && (forall id :: !IsReady(nodes, arcs, Elements(order), id))
            && FinalOk(arcs, Elements(order), depth)
  {
    ghost var arcs := Dependencies(nodes, edges);
    assert forall a :: a in arcs ==> a.0 in nodes && a.1 in nodes;
    hide LoopOk, Released, Greedy, IsReady, FinalOk, Sources, Targets, Elements, DepthOf, Dependencies;
    var remaining: map<NodeId, nat> := map id | id in nodes :: |upstream[id]|;
    var ready := set id | id in nodes && remaining[id] == 0;
    order, depth := [], map[];
    LoopStarts(nodes, arcs, remaining, ready);
    while ready != {}
      invariant LoopOk(nodes, arcs, order, remaining, ready, depth)
      decreases |nodes - Elements(order)|
    {
      var id := MinOf(ready);
      ReadyMeans(nodes, arcs, order, remaining, ready, depth, id);
      var remaining', ready', depth' := Release(downstream[id], DepthOf(depth, id), remaining, ready - {id}, depth);
      LoopStep(nodes, arcs, order, id, remaining, ready, depth, remaining', ready', depth');
      ListingShrinksRest(nodes, order, id);
      order, remaining, ready, depth := order + [id], remaining', ready', depth';
    }
    LoopEnds(nodes, arcs, order, remaining, depth);
  }

  lemma ListingShrinksRest(nodes: set<NodeId>, order: seq<NodeId>, id: NodeId)
    requires id in nodes && id !in Elements(order)
    ensures |nodes - Elements(order + [id])| < |nodes - Elements(order)|
  {
    AppendElements(order, id);
    SetLosesOne(nodes, Elements(order), id);
  }

  lemma LoopEnds(
    nodes: set<NodeId>, arcs: Arcs, order: seq<NodeId>, remaining: map<NodeId, nat>, depth: map<NodeId, nat>)
    requires LoopOk(nodes, arcs, order, remaining, {}, depth)
    ensures Greedy(nodes, arcs, order) && Elements(order) <= nodes && FinalOk(arcs, Elements(order), depth)
    ensures forall id :: !IsReady(nodes, arcs, Elements(order), id)
  {
  }

  lemma NothingListed(arcs: Arcs, id: NodeId)
    ensures Elements([]) == {} && Sources(arcs, id) - {} == Sources(arcs, id) && Sources(arcs, id) * {} == {}
  {
  }

  lemma CountsStart(nodes: set<NodeId>, arcs: Arcs, remaining: map<NodeId, nat>)
    requires remaining.Keys == nodes && forall id :: id in nodes ==> remaining[id] == |Sources(arcs, id)|
    ensures CountsOk(nodes, arcs, {}, remaining)
  {
    hide Sources;
    forall id | id in nodes ensures remaining[id] == |Sources(arcs, id) - {}| {
      NothingListed(arcs, id);
    }
  }

  lemma WorklistStarts(nodes: set<NodeId>, arcs: Arcs, remaining: map<NodeId, nat>, ready: set<NodeId>)
    requires remaining.Keys == nodes && forall id :: id in nodes ==> remaining[id] == |Sources(arcs, id)|
    requires forall id :: id in ready <==> id in nodes && remaining[id] == 0
    ensures WorklistOk(nodes, arcs, {}, ready)
  {
    hide Sources;
    forall id ensures id in ready <==> IsReady(nodes, arcs, {}, id) {
      NothingListed(arcs, id);
      EmptyDifference(Sources(arcs, id), {});
    }
  }

  lemma DepthsStart(nodes: set<NodeId>, arcs: Arcs)
    ensures DepthsOk(nodes, arcs, {}, map[])
  {
    hide Sources;
    forall id | id in nodes ensures DepthOk(arcs, {}, map[], id) {
      NothingListed(arcs, id);
    }
  }

  lemma {:induction false} LoopStarts(
    nodes: set<NodeId>, arcs: Arcs, remaining: map<NodeId, nat>, ready: set<NodeId>)
    requires remaining.Keys == nodes && forall id :: id in nodes ==> remaining[id] == |Sources(arcs, id)|
    requires forall id :: id in ready <==> id in nodes && remaining[id] == 0
    ensures LoopOk(nodes, arcs, [], remaining, ready, map[])
  {
    hide CountsOk, WorklistOk, DepthsOk, IsReady, LongestPath, Sources;
    CountsStart(nodes, arcs, remaining);
    WorklistStarts(nodes, arcs, remaining, ready);
    DepthsStart(nodes, arcs);
    assert Elements([]) == {};
  }

  lemma {:induction false} ReadyMeans(
    nodes: set<NodeId>, arcs: Arcs, order: seq<NodeId>, remaining: map<NodeId, nat>, ready: set<NodeId>,
    depth: map<NodeId, nat>, id: NodeId)
    requires LoopOk(nodes, arcs, order, remaining, ready, depth) && id in ready
    requires forall a :: a in arcs ==> a.0 in nodes && a.1 in nodes
    ensures id in nodes && id !in Elements(order)
    ensures forall x :: x in Targets(arcs, id) ==> x in remaining && remaining[x] >= 1
  {
    assert IsReady(nodes, arcs, Elements(order), id);
    forall x | x in Targets(arcs, id) ensures x in remaining && remaining[x] >= 1 {
      SourceOrTarget(arcs, id, x);
      assert id in Sources(arcs, x) - Elements(order);
      EmptyDifference(Sources(arcs, x), Elements(order));
    }
  }
}
