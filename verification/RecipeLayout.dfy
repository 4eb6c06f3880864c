/** Command recipes and the grid layout that follows their wiring. */
module RecipeLayout {
  import opened Common
  import opened Paths
  import opened GraphModel

  const COLUMN_WIDTH := 240.0
  const ROW_HEIGHT := 155.0

  predicate Internal(op: GraphOp, added: set<NodeId>) {
    op.Connect? && op.from.node in added && op.to.node in added
  }

  /** The wires of a recipe between the nodes it adds. */
  function InternalArcs(ops: seq<GraphOp>, added: set<NodeId>): Arcs {
    set op | op in ops && Internal(op, added) :: (op.from.node, op.to.node)
  }

  /** They are exactly the pairs of added nodes some connection joins. */
  lemma InternalArcsAre(ops: seq<GraphOp>, added: set<NodeId>, a: NodeId, b: NodeId)
    ensures (a, b) in InternalArcs(ops, added) <==>
      a in added && b in added && exists from, to :: Connect(from, to) in ops && from.node == a && to.node == b
  {
    if (a, b) in InternalArcs(ops, added) {
      var op :| op in ops && Internal(op, added) && (op.from.node, op.to.node) == (a, b);
      assert Connect(op.from, op.to) in ops;
    }
    if from, to :| Connect(from, to) in ops && from.node == a && to.node == b && a in added && b in added {
      assert Internal(Connect(from, to), added);
    }
  }

  type Depths = map<NodeId, nat>

  /** Each depth is the length of some path that ends there. */
  ghost predicate Attained(arcs: Arcs, depths: Depths) {
    forall x :: x in depths ==> exists p :: IsPath(arcs, p) && p[|p| - 1] == x && |p| == depths[x] + 1
  }

  /** Paths of at most `k` arcs are already accounted for. */
  ghost predicate CoversPaths(arcs: Arcs, depths: Depths, k: nat) {
    forall p :: IsPath(arcs, p) && |p| <= k + 1 && p[|p| - 1] in depths ==> depths[p[|p| - 1]] >= |p| - 1
  }

  ghost predicate Descends(arcs: Arcs, start: Depths, depths: Depths) {
    forall a :: a in arcs && a.0 in start && a.1 in depths ==> depths[a.1] >= start[a.0] + 1
  }

  lemma StartCovers(arcs: Arcs, depths: Depths)
    requires forall x :: x in depths ==> depths[x] == 0
    ensures CoversPaths(arcs, depths, 0) && Attained(arcs, depths)
  {
    forall x | x in depths ensures exists p :: IsPath(arcs, p) && p[|p| - 1] == x && |p| == depths[x] + 1 {
      assert IsPath(arcs, [x]) && |[x]| == depths[x] + 1;
    }
  }

  lemma PathInit(arcs: Arcs, p: seq<nat>)
    ensures IsPath(arcs, p) && |p| > 1 ==> IsPath(arcs, p[..|p| - 1]) && (p[|p| - 2], p[|p| - 1]) in arcs
  {
    if IsPath(arcs, p) && |p| > 1 {
      assert (p[|p| - 2], p[|p| - 2 + 1]) in arcs;
    }
  }

  /** One full pass accounts for paths one arc longer. */
  lemma PassCoversMore(arcs: Arcs, nodes: set<NodeId>, start: Depths, depths: Depths, k: nat)
    requires start.Keys == depths.Keys == nodes && forall a :: a in arcs ==> a.0 in nodes && a.1 in nodes
    requires CoversPaths(arcs, start, k) && Descends(arcs, start, depths)
    requires forall x :: x in nodes ==> start[x] <= depths[x]
    ensures CoversPaths(arcs, depths, k + 1)
  {
    forall p | IsPath(arcs, p) && |p| <= k + 2 && p[|p| - 1] in depths ensures depths[p[|p| - 1]] >= |p| - 1 {
      PathInit(arcs, p);
      if |p| > 1 {
        var arc := (p[|p| - 2], p[|p| - 1]);
        assert arc in arcs && depths[arc.1] >= start[arc.0] + 1;
        assert p[..|p| - 1][|p| - 2] == arc.0;
      }
    }
  }

  /** A pass that changes nothing has reached every path. */
  lemma {:induction false} StableCoversAll(arcs: Arcs, nodes: set<NodeId>, depths: Depths, p: seq<nat>)
    requires depths.Keys == nodes && forall a :: a in arcs ==> a.0 in nodes && a.1 in nodes
    requires Descends(arcs, depths, depths) && IsPath(arcs, p) && p[|p| - 1] in nodes
    ensures depths[p[|p| - 1]] >= |p| - 1
    decreases |p|
  {
    if |p| > 1 {
      PathInit(arcs, p);
      var q := p[..|p| - 1];
      StableCoversAll(arcs, nodes, depths, q);
      assert q[|q| - 1] == p[|p| - 2] && (p[|p| - 2], p[|p| - 1]) in arcs;
    }
  }

  /** On an acyclic relation no path has more nodes than there are. */
  lemma AcyclicPathsAreShort(arcs: Arcs, nodes: set<NodeId>, p: seq<nat>)
    requires Acyclic(arcs) && forall a :: a in arcs ==> a.0 in nodes && a.1 in nodes
    requires IsPath(arcs, p) && p[|p| - 1] in nodes
    ensures |p| <= |nodes|
  {
    forall x | x in p ensures x in nodes {
      var i :| 0 <= i < |p| && p[i] == x;
      if i < |p| - 1 {
        assert (p[i], p[i + 1]) in arcs;
      }
    }
    if |p| > |nodes| {
      var c := LongPathHasCycle(arcs, nodes, p);
      assert false;
    }
  }

  /** Bounded relaxation is exact on an acyclic recipe: it ends with the longest
      path to every node, whether it stopped early or ran out of passes. */
  lemma RelaxedIsLongest(arcs: Arcs, nodes: set<NodeId>, depths: Depths, passes: nat)
    requires Acyclic(arcs) && depths.Keys == nodes && forall a :: a in arcs ==> a.0 in nodes && a.1 in nodes
    requires Attained(arcs, depths)
    requires Descends(arcs, depths, depths) || (CoversPaths(arcs, depths, passes) && passes >= |nodes|)
    ensures forall x :: x in nodes ==> LongestPath(arcs, x, depths[x])
    ensures forall a :: a in arcs ==> depths[a.0] < depths[a.1]
  {
    forall x, p | x in nodes && IsPath(arcs, p) && p[|p| - 1] == x ensures |p| <= depths[x] + 1 {
      if Descends(arcs, depths, depths) {
        StableCoversAll(arcs, nodes, depths, p);
      } else {
        AcyclicPathsAreShort(arcs, nodes, p);
      }
    }
    forall a | a in arcs ensures depths[a.0] < depths[a.1] {
      var p :| IsPath(arcs, p) && p[|p| - 1] == a.0 && |p| == depths[a.0] + 1;
      assert IsPath(arcs, p + [a.1]) && (p + [a.1])[|p|] == a.1;
    }
  }

  lemma RaiseKeepsAttained(arcs: Arcs, depths: Depths, from: NodeId, to: NodeId)
    requires Attained(arcs, depths) && (from, to) in arcs && from in depths
    ensures Attained(arcs, depths[to := depths[from] + 1])
  {
    var raised := depths[to := depths[from] + 1];
    forall x | x in raised ensures exists p :: IsPath(arcs, p) && p[|p| - 1] == x && |p| == raised[x] + 1 {
      if x == to {
        var p :| IsPath(arcs, p) && p[|p| - 1] == from && |p| == depths[from] + 1;
        assert IsPath(arcs, p + [to]) && (p + [to])[|p|] == to && |p + [to]| == raised[to] + 1;
      } else {
        assert x in depths && raised[x] == depths[x];
      }
    }
  }

  // ------------------------------------------------------------------
  // the recipe
  // ------------------------------------------------------------------

  /** Positions differ, so no two nodes share a grid cell. */
  ghost predicate DistinctCells(ops: seq<GraphOp>) {
    forall i, j :: 0 <= i < j < |ops| && ops[i].AddNode? && ops[j].AddNode? ==> ops[i].pos != ops[j].pos
  }

  /** The same operation, except perhaps for where it places its node. */
  predicate OnlyPlaced(op: GraphOp, placed: GraphOp) {
    if op.AddNode? then placed.AddNode? && placed == AddNode(op.id, op.typeName, placed.pos) else placed == op
  }

  function CellOf(left: real, depth: nat, row: nat): Pos {
    Pos(Finite(left + depth as real * COLUMN_WIDTH), Finite(row as real * ROW_HEIGHT))
  }

  lemma CellsDiffer(left: real, depth: nat, row: nat, depth': nat, row': nat)
    requires (depth, row) != (depth', row')
    ensures CellOf(left, depth, row) != CellOf(left, depth', row')
  {
  }

  /** Columns are 240 apart and rows 155: two cells differ by that much somewhere. */
  lemma CellsAreApart(left: real, depth: nat, row: nat, depth': nat, row': nat)
    ensures var p, q := CellOf(left, depth, row), CellOf(left, depth', row');
            && ValueOf(p.x) - ValueOf(q.x) == (depth as real - depth' as real) * 240.0
            && ValueOf(p.y) - ValueOf(q.y) == (row as real - row' as real) * 155.0
            && ((depth, row) != (depth', row') ==>
                  || ValueOf(p.x) - ValueOf(q.x) >= 240.0 || ValueOf(q.x) - ValueOf(p.x) >= 240.0
                  || ValueOf(p.y) - ValueOf(q.y) >= 155.0 || ValueOf(q.y) - ValueOf(p.y) >= 155.0)
    ensures ValueOf(CellOf(left, 0, 0).x) == left && ValueOf(CellOf(left, 0, 0).y) == 0.0
  {
  }

  class Recipe {
    var ops: seq<GraphOp>
    var added: seq<NodeId>

    /** Only nodes the recipe has listed are added by it. */
    ghost predicate Valid()
      reads this
    {
      forall op :: op in ops && op.AddNode? ==> op.id in added
    }

    constructor Empty()
      ensures Valid() && ops == [] && added == []
    {
      ops, added := [], [];
    }

    method Add(id: NodeId, component: string)
      requires Valid()
      modifies this
      ensures Valid() && added == old(added) + [id]
      ensures ops == old(ops) + [AddNode(id, component, Pos(Finite(0.0), Finite(0.0)))]
    {
      added := added + [id];
      ops := ops + [AddNode(id, component, Pos(Finite(0.0), Finite(0.0)))];
    }

    method Wire(from: NodeId, to: NodeId, port: nat)
      requires Valid()
      modifies this`ops
      ensures Valid() && ops == old(ops) + [Connect(Port(from, 0), Port(to, port))]
    {
      ops := ops + [Connect(Port(from, 0), Port(to, port))];
    }

    /** Place every added node in the column of its depth, right of the whole
        document, each in a cell of its own. `xs` are the document's node columns. */
    method Layout(xs: seq<real>)
      requires Valid()
      modifies this`ops
      ensures Valid() && |ops| == |old(ops)|
      ensures forall i :: 0 <= i < |ops| ==> OnlyPlaced(old(ops)[i], ops[i])
      ensures DistinctCells(ops)
      ensures exists left, depths ::
        && IsRightOf(xs, left) && DepthsOf(InternalArcs(old(ops), AddedSet(added)), AddedSet(added), depths)
        && InCells(old(ops), ops, depths, left)
    {
      var left := RightOf(xs);
      var depths := Relax(ops, AddedSet(added));
      ghost var before := ops;
      ops := Place(ops, depths, left);
      assert IsRightOf(xs, left) && DepthsOf(InternalArcs(before, AddedSet(added)), AddedSet(added), depths)
        && InCells(before, ops, depths, left);
      forall op | op in ops && op.AddNode? ensures op.id in added {
        var i :| 0 <= i < |ops| && ops[i] == op;
        assert before[i] in before;
      }
    }
  }

  /** `left` is the least column at or right of the origin clear of every node. */
  ghost predicate IsRightOf(xs: seq<real>, left: real) {
    && left >= 0.0 && (forall i :: 0 <= i < |xs| ==> xs[i] + COLUMN_WIDTH <= left)
    && (left == 0.0 || exists i :: 0 <= i < |xs| && left == xs[i] + COLUMN_WIDTH)
  }

  /** Every depth is the length of a path, and for acyclic wiring of the longest. */
  ghost predicate DepthsOf(arcs: Arcs, added: set<NodeId>, depths: Depths) {
    && depths.Keys == added && Attained(arcs, depths)
    && (Acyclic(arcs) ==> forall x :: x in added ==> LongestPath(arcs, x, depths[x]))
  }

  /** How many of the operations add a node at this depth. */
  function CountAt(ops: seq<GraphOp>, depths: Depths, depth: nat): nat {
    if ops == [] then 0
    else
      var op := ops[|ops| - 1];
      CountAt(ops[..|ops| - 1], depths, depth) + Adds(op, depths, depth)
  }

  function Adds(op: GraphOp, depths: Depths, depth: nat): nat {
    if op.AddNode? && op.id in depths && depths[op.id] == depth then 1 else 0
  }

  /** Column by depth, and row by how many operations came before in that column. */
  ghost predicate InCells(ops: seq<GraphOp>, placed: seq<GraphOp>, depths: Depths, left: real) {
    && |placed| == |ops|
    && forall i :: 0 <= i < |ops| && ops[i].AddNode? ==>
      && placed[i].AddNode? && ops[i].id in depths
      && placed[i].pos == CellOf(left, depths[ops[i].id], CountAt(ops[..i], depths, depths[ops[i].id]))
  }

  /** The operations that add a node at this depth. */
  function Column(ops: seq<GraphOp>, depths: Depths, depth: nat): set<nat> {
    set i | 0 <= i < |ops| && ops[i].AddNode? && ops[i].id in depths && depths[ops[i].id] == depth
  }

  lemma ColumnStep(ops: seq<GraphOp>, depths: Depths, depth: nat)
    requires ops != []
    ensures var n := |ops| - 1;
            Column(ops, depths, depth)
              == Column(ops[..n], depths, depth) + (if Adds(ops[n], depths, depth) == 1 then {n} else {})
    ensures |ops| - 1 !in Column(ops[..|ops| - 1], depths, depth)
  {
    var n := |ops| - 1;
    forall i: nat ensures i in Column(ops, depths, depth) <==>
      i in Column(ops[..n], depths, depth) || (i == n && Adds(ops[n], depths, depth) == 1)
    {
      assert i < n ==> ops[..n][i] == ops[i];
    }
  }

  /** The row of an operation is the number of earlier ones that add a node in its column. */
  lemma {:induction false} CountIsExact(ops: seq<GraphOp>, depths: Depths, depth: nat)
    ensures CountAt(ops, depths, depth) == |Column(ops, depths, depth)|
    decreases |ops|
  {
    if ops != [] {
      var n := |ops| - 1;
      CountIsExact(ops[..n], depths, depth);
      ColumnStep(ops, depths, depth);
      hide Column;
    }
  }

  lemma CountStep(ops: seq<GraphOp>, depths: Depths, i: nat)
    requires i < |ops|
    ensures forall depth ::
      CountAt(ops[..i + 1], depths, depth) == CountAt(ops[..i], depths, depth) + Adds(ops[i], depths, depth)
  {
    assert ops[..i + 1][..i] == ops[..i];
  }

  lemma {:induction false} CountGrows(ops: seq<GraphOp>, depths: Depths, depth: nat, i: nat, j: nat)
    requires i <= j <= |ops|
    ensures CountAt(ops[..i], depths, depth) <= CountAt(ops[..j], depths, depth)
    decreases j
  {
    if i < j {
      CountGrows(ops, depths, depth, i, j - 1);
      CountStep(ops, depths, j - 1);
    }
  }

  /** Handing out rows in operation order gives every node a cell of its own. */
  lemma CellsAreDistinct(ops: seq<GraphOp>, placed: seq<GraphOp>, depths: Depths, left: real)
    requires InCells(ops, placed, depths, left)
    requires forall i :: 0 <= i < |ops| ==> OnlyPlaced(ops[i], placed[i])
    ensures DistinctCells(placed)
  {
    hide CellOf;
    forall i, j | 0 <= i < j < |placed| && placed[i].AddNode? && placed[j].AddNode?
      ensures placed[i].pos != placed[j].pos
    {
      var d, e := depths[ops[i].id], depths[ops[j].id];
      CountStep(ops, depths, i);
      CountGrows(ops, depths, d, i + 1, j);
      CellsDiffer(left, d, CountAt(ops[..i], depths, d), e, CountAt(ops[..j], depths, e));
    }
  }

  function AddedSet(added: seq<NodeId>): set<NodeId> {
    set id | id in added
  }

  /** Relaxation of the depth map, at most one pass per added node. */
  method Relax(ops: seq<GraphOp>, added: set<NodeId>) returns (depths: Depths)
    ensures DepthsOf(InternalArcs(ops, added), added, depths)
    ensures Acyclic(InternalArcs(ops, added)) ==> forall a :: a in InternalArcs(ops, added) ==>
        depths[a.0] < depths[a.1]
  {
    ghost var arcs := InternalArcs(ops, added);
    assert forall a :: a in arcs ==> a.0 in added && a.1 in added;
    depths := map id | id in added :: 0;
    StartCovers(arcs, depths);
    hide InternalArcs, Attained, CoversPaths, Descends, LongestPath, Acyclic;
    var stable := false;
    var pass := 0;
    while pass < |added| && !stable
      invariant depths.Keys == added && Attained(arcs, depths)
      invariant CoversPaths(arcs, depths, pass)
      invariant stable ==> Descends(arcs, depths, depths)
    {
      ghost var start := depths;
      var changed;
      depths, changed := Pass(ops, added, depths);
      PassCoversMore(arcs, added, start, depths, pass);
      stable := !changed;
      pass := pass + 1;
    }
    if Acyclic(arcs) {
      RelaxedIsLongest(arcs, added, depths, pass);
    }
  }

  /** One pass over the recipe's wires. */
  method Pass(ops: seq<GraphOp>, added: set<NodeId>, start: Depths) returns (depths: Depths, changed: bool)
    requires start.Keys == added && Attained(InternalArcs(ops, added), start)
    ensures depths.Keys == added && Attained(InternalArcs(ops, added), depths)
    ensures Descends(InternalArcs(ops, added), start, depths)
    ensures forall x :: x in added ==> start[x] <= depths[x]
    ensures !changed ==> depths == start
  {
    hide Attained;
    depths, changed := start, false;
    for i := 0 to |ops|
      invariant depths.Keys == added && Attained(InternalArcs(ops, added), depths)
      invariant forall x :: x in added ==> start[x] <= depths[x]
      invariant forall k :: 0 <= k < i && Internal(ops[k], added) ==>
          depths[ops[k].to.node] >= start[ops[k].from.node] + 1
      invariant !changed ==> depths == start
    {
      var op := ops[i];
      if Internal(op, added) {
        var next := depths[op.from.node] + 1;
        if next > depths[op.to.node] {
          assert op in ops;
          RaiseKeepsAttained(InternalArcs(ops, added), depths, op.from.node, op.to.node);
          depths := depths[op.to.node := next];
          changed := true;
        }
      }
    }
  }

  function RowsTaken(rows: map<nat, nat>, depth: nat): nat {
    if depth in rows then rows[depth] else 0
  }

  /** The operation with its node put in its cell. */
  function PlacedOp(ops: seq<GraphOp>, depths: Depths, left: real, i: nat): GraphOp
    requires i < |ops|
  {
    var op := ops[i];
    if op.AddNode? && op.id in depths then
      AddNode(op.id, op.typeName, CellOf(left, depths[op.id], CountAt(ops[..i], depths, depths[op.id])))
    else op
  }

  /** Rows are handed out per depth in operation order. */
  method Place(ops: seq<GraphOp>, depths: Depths, left: real) returns (placed: seq<GraphOp>)
    requires forall op :: op in ops && op.AddNode? ==> op.id in depths
    ensures InCells(ops, placed, depths, left) && DistinctCells(placed)
    ensures forall i :: 0 <= i < |ops| ==> OnlyPlaced(ops[i], placed[i])
  {
    placed := [];
    var rows: map<nat, nat> := map[];
    assert ops[..0] == [];
    for i := 0 to |ops|
      invariant |placed| == i && forall k :: 0 <= k < i ==> placed[k] == PlacedOp(ops, depths, left, k)
      invariant forall d :: CountAt(ops[..i], depths, d) == RowsTaken(rows, d)
    {
      hide CellOf, CountAt;
      var op := ops[i];
      CountStep(ops, depths, i);
      if op.AddNode? {
        assert op in ops;
        var depth := depths[op.id];
        var row := RowsTaken(rows, depth);
        placed := placed + [AddNode(op.id, op.typeName, CellOf(left, depth, row))];
        rows := rows[depth := row + 1];
      } else {
        placed := placed + [op];
      }
    }
    hide CellOf, CountAt;
    forall i | 0 <= i < |ops| && ops[i].AddNode? ensures ops[i].id in depths {
      assert ops[i] in ops;
    }
    CellsAreDistinct(ops, placed, depths, left);
  }

  /** The column right of everything in the document. */
  method RightOf(xs: seq<real>) returns (left: real)
    ensures IsRightOf(xs, left)
  {
    left := 0.0;
    for i := 0 to |xs|
      invariant IsRightOf(xs[..i], left)
    {
      assert xs[..i + 1] == xs[..i] + [xs[i]];
      if left < xs[i] + COLUMN_WIDTH {
        left := xs[i] + COLUMN_WIDTH;
        assert xs[..i + 1][i] + COLUMN_WIDTH == left;
      } else if left != 0.0 {
        var k :| 0 <= k < i && left == xs[k] + COLUMN_WIDTH;
        assert xs[..i + 1][k] + COLUMN_WIDTH == left;
      }
    }
    assert xs[..|xs|] == xs;
  }
}
