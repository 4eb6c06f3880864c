/** The uncommitted side of a session on plain values: gestures and the single
    operation each records, the undo and redo books, and the rebasing of pending
    operations onto a longer history. */
module Ledger {
  import opened Common
  import opened GraphModel

  // ------------------------------------------------------------------
  // gestures
  // ------------------------------------------------------------------

  /** An in-flight gesture, whose intermediate states are not recorded. */
  datatype Gesture =
    | Param(id: NodeId, key: string, start: Option<ParamValue>, last: ParamValue)
    | Move(from: map<NodeId, Pos>)

  function Lookup(g: Graph, id: NodeId, key: string): Option<ParamValue> {
    if id in g.nodes && key in g.nodes[id].params then Some(g.nodes[id].params[key]) else None
  }

  /** `graph` is `rest` with the dragged nodes where the gesture has put them. */
  ghost predicate Dragged(rest: Graph, graph: Graph, from: map<NodeId, Pos>) {
    && graph.edges == rest.edges
    && graph.nodes.Keys == rest.nodes.Keys
    && from.Keys <= rest.nodes.Keys
    && (forall id :: id in from ==> from[id] == rest.nodes[id].pos)
    && (forall id :: id in rest.nodes ==> graph.nodes[id] == rest.nodes[id].(pos := graph.nodes[id].pos))
    && (forall id :: id in rest.nodes && id !in from ==> graph.nodes[id] == rest.nodes[id])
  }

  /** How the working graph departs from `rest`, the graph when the gesture began. */
  ghost predicate Overlaid(rest: Graph, graph: Graph, gesture: Option<Gesture>) {
    match gesture
    case None => graph == rest
    case Some(Param(id, key, start, last)) =>
      if id in rest.nodes
      then start == Lookup(rest, id, key) && Apply(rest, SetParam(id, key, last)) == Ok(graph)
      else graph == rest
    case Some(Move(from)) => Dragged(rest, graph, from)
  }

  /** One move per node that ended away from its start, in ascending id order. */
  function MoveOps(g: Graph, from: map<NodeId, Pos>): seq<GraphOp>
    decreases |from|
  {
    if from == map[] then []
    else
      var id := MinOf(from.Keys);
      (if id in g.nodes && !PosEq(g.nodes[id].pos, from[id]) then [MoveNode(id, g.nodes[id].pos)] else [])
      + MoveOps(g, from - {id})
  }

  lemma NoMoves(g: Graph)
    ensures MoveOps(g, map[]) == []
  {
  }

  lemma MoveOpsStep(g: Graph, ops: seq<GraphOp>, rest: map<NodeId, Pos>)
    requires rest != map[]
    ensures var id := MinOf(rest.Keys);
            var moved := id in g.nodes && !PosEq(g.nodes[id].pos, rest[id]);
            var move := if moved then [MoveNode(id, g.nodes[id].pos)] else [];
            ops + MoveOps(g, rest) == ops + move + MoveOps(g, rest - {id})
  {
  }

  /** The operations that finishing a gesture records. */
  function GestureOps(g: Graph, gesture: Option<Gesture>): seq<GraphOp> {
    match gesture
    case None => []
    case Some(Param(id, key, start, last)) =>
      if id !in g.nodes || (start.Some? && ParamEq(start.value, last)) then [] else [SetParam(id, key, last)]
    case Some(Move(from)) => MoveOps(g, from)
  }

  lemma ApplyFirst(g: Graph, op: GraphOp, ops: seq<GraphOp>)
    requires Apply(g, op).Ok?
    ensures ApplyAll(g, [op] + ops).Ok? <==> ApplyAll(Apply(g, op).value, ops).Ok?
    ensures ApplyAll(g, [op] + ops).Ok? ==> ApplyAll(g, [op] + ops) == ApplyAll(Apply(g, op).value, ops)
  {
    SingleOp(g, op);
    ApplyAllConcat(g, [op], ops);
  }

  /** No dragged node ended where it started but for the sign of a zero. */
  ghost predicate NoZeroFlips(graph: Graph, from: map<NodeId, Pos>) {
    forall id :: id in from && id in graph.nodes && PosEq(graph.nodes[id].pos, from[id]) ==>
        graph.nodes[id].pos == from[id]
  }

  /** The gesture ended on the other zero: IEEE equality sees no change there. */
  ghost predicate ZeroFlips(graph: Graph, gesture: Option<Gesture>) {
    match gesture
    case None => false
    case Some(Param(id, key, start, last)) =>
      id in graph.nodes && start.Some? && ParamEq(start.value, last) && start.value != last
    case Some(Move(from)) => !NoZeroFlips(graph, from)
  }

  lemma {:induction false} MovesReachDraggedGraph(rest: Graph, graph: Graph, from: map<NodeId, Pos>)
    requires Dragged(rest, graph, from) && NoZeroFlips(graph, from)
    ensures ApplyAll(rest, MoveOps(graph, from)) == Ok(graph)
    decreases |from|
  {
    hide Dragged, NoZeroFlips, ApplyAll, Apply, PosEq, MoveOps;
    if from == map[] {
      NothingDragged(rest, graph);
    } else {
      var id := MinOf(from.Keys);
      var later := from - {id};
      DraggedLess(rest, graph, from, id);
      MoveOpsHead(graph, from);
      if PosEq(graph.nodes[id].pos, from[id]) {
        MovesReachDraggedGraph(rest, graph, later);
      } else {
        var move := MoveNode(id, graph.nodes[id].pos);
        MovedIsDraggedLess(rest, graph, from, id);
        MovesReachDraggedGraph(Apply(rest, move).value, graph, later);
        ApplyFirst(rest, move, MoveOps(graph, later));
      }
    }
  }

  lemma MoveOpsHead(g: Graph, from: map<NodeId, Pos>)
    requires from != map[]
    ensures var id := MinOf(from.Keys);
            MoveOps(g, from) ==
              if id in g.nodes && !PosEq(g.nodes[id].pos, from[id])
              then [MoveNode(id, g.nodes[id].pos)] + MoveOps(g, from - {id})
              else MoveOps(g, from - {id})
  {
    hide PosEq;
    var id := MinOf(from.Keys);
    var none: seq<GraphOp> := [];
    assert none + MoveOps(g, from - {id}) == MoveOps(g, from - {id});
  }

  lemma NothingDragged(rest: Graph, graph: Graph)
    requires Dragged(rest, graph, map[])
    ensures ApplyAll(rest, MoveOps(graph, map[])) == Ok(graph)
  {
    assert graph.nodes == rest.nodes;
    ApplyNone(rest, []);
  }

  lemma DraggedLess(rest: Graph, graph: Graph, from: map<NodeId, Pos>, id: NodeId)
    requires Dragged(rest, graph, from) && NoZeroFlips(graph, from) && id in from
    ensures id in graph.nodes && NoZeroFlips(graph, from - {id})
    ensures PosEq(graph.nodes[id].pos, from[id]) ==> Dragged(rest, graph, from - {id})
  {
  }

  lemma MovedIsDraggedLess(rest: Graph, graph: Graph, from: map<NodeId, Pos>, id: NodeId)
    requires Dragged(rest, graph, from) && id in from
    ensures var moved := Apply(rest, MoveNode(id, graph.nodes[id].pos));
            moved.Ok? && Dragged(moved.value, graph, from - {id})
  {
  }

  /** The graph the recorded moves reach: nodes back on their start stay there. */
  function Snapped(graph: Graph, from: map<NodeId, Pos>): Graph {
    graph.(nodes := map id | id in graph.nodes ::
      if id in from && PosEq(graph.nodes[id].pos, from[id]) then graph.nodes[id].(pos := from[id]) else graph.nodes[id])
  }

  lemma {:induction false} SnappedMoves(graph: Graph, all: map<NodeId, Pos>, from: map<NodeId, Pos>)
    requires forall id :: id in from ==> id in all && all[id] == from[id]
    ensures MoveOps(Snapped(graph, all), from) == MoveOps(graph, from)
    decreases |from|
  {
    if from != map[] {
      SnappedMoves(graph, all, from - {MinOf(from.Keys)});
    }
  }

  lemma SnappedIsDragged(rest: Graph, graph: Graph, from: map<NodeId, Pos>)
    requires Dragged(rest, graph, from)
    ensures Dragged(rest, Snapped(graph, from), from) && NoZeroFlips(Snapped(graph, from), from)
  {
    hide PosEq;
  }

  lemma SnappedIsSame(graph: Graph, from: map<NodeId, Pos>)
    ensures SameGraph(Snapped(graph, from), graph)
  {
    var snapped := Snapped(graph, from);
    hide UnsignedParams;
    forall id | id in graph.nodes ensures UnsignedNode(snapped.nodes[id]) == UnsignedNode(graph.nodes[id]) {
    }
    assert UnsignedGraph(snapped).nodes == UnsignedGraph(graph).nodes;
  }

  lemma SnappedIsExact(graph: Graph, from: map<NodeId, Pos>)
    ensures Snapped(graph, from) == graph <==> NoZeroFlips(graph, from)
  {
    hide PosEq;
    var snapped := Snapped(graph, from);
    if NoZeroFlips(graph, from) {
      assert snapped.nodes == graph.nodes;
    } else {
      var id :| id in from && id in graph.nodes && PosEq(graph.nodes[id].pos, from[id])
          && graph.nodes[id].pos != from[id];
      assert snapped.nodes[id].pos == from[id];
    }
  }

  lemma SkippedParamIsSame(rest: Graph, graph: Graph, id: NodeId, key: string, start: ParamValue, last: ParamValue)
    requires Lookup(rest, id, key) == Some(start) && Apply(rest, SetParam(id, key, last)) == Ok(graph)
    requires ParamEq(start, last)
    ensures SameGraph(rest, graph) && (rest == graph <==> start == last)
  {
    var node := rest.nodes[id];
    var changed := node.(params := node.params[key := last]);
    UnsignedParamUpdate(node.params, key, last);
    assert UnsignedParams(node.params)[key := UnsignedParam(last)] == UnsignedParams(node.params);
    UnsignedUpdate(rest.nodes, id, changed, rest.edges);
    assert UnsignedGraph(rest).nodes[id := UnsignedNode(changed)] == UnsignedGraph(rest).nodes;
    if start == last {
      assert node.params[key := last] == node.params && rest.nodes[id := node] == rest.nodes;
    } else {
      assert graph.nodes[id].params[key] != rest.nodes[id].params[key];
    }
  }

  /** Recording one coalesced operation per gesture loses nothing: replaying it
      on the graph the gesture began with gives the graph it left on screen, and
      exactly that one unless the gesture ended on the other zero. */
  lemma GestureLosesNothing(rest: Graph, graph: Graph, gesture: Option<Gesture>)
    requires Overlaid(rest, graph, gesture)
    ensures Replays(rest, GestureOps(graph, gesture))
    ensures SameGraph(ApplyAll(rest, GestureOps(graph, gesture)).value, graph)
    ensures ApplyAll(rest, GestureOps(graph, gesture)) == Ok(graph) <==> !ZeroFlips(graph, gesture)
  {
    hide SameGraph, UnsignedGraph;
    SameIsReflexive(graph);
    match gesture
    case None =>
    case Some(Param(id, key, start, last)) =>
      if id in rest.nodes {
        SingleOp(rest, SetParam(id, key, last));
        ApplyNone(rest, []);
        if start.Some? && ParamEq(start.value, last) {
          SkippedParamIsSame(rest, graph, id, key, start.value, last);
        }
      }
    case Some(Move(from)) =>
      hide MoveOps, ApplyAll, Dragged, NoZeroFlips;
      SnappedIsDragged(rest, graph, from);
      SnappedIsSame(graph, from);
      SnappedIsExact(graph, from);
      SnappedMoves(graph, from, from);
      MovesReachDraggedGraph(rest, Snapped(graph, from), from);
  }

  lemma SameIsReflexive(g: Graph)
    ensures SameGraph(g, g)
  {
  }

  /** Dragged values that are numbers, so that IEEE equality can see them unchanged. */
  ghost predicate NoNaN(graph: Graph, gesture: Option<Gesture>) {
    match gesture
    case None => true
    case Some(Param(_, _, _, last)) => !(last.Number? && last.n.NaN?)
    case Some(Move(from)) => forall id :: id in from ==> !from[id].x.NaN? && !from[id].y.NaN?
  }

  /** A gesture that leaves the graph as it found it records nothing, unless it holds
      a NaN, which never equals itself; one that records nothing has left it so, up
      to the signs of zeros. */
  lemma UnchangedRecordsNothing(rest: Graph, graph: Graph, gesture: Option<Gesture>)
    requires Overlaid(rest, graph, gesture)
    ensures graph == rest && NoNaN(graph, gesture) ==> GestureOps(graph, gesture) == []
    ensures GestureOps(graph, gesture) == [] ==> SameGraph(rest, graph)
  {
    GestureLosesNothing(rest, graph, gesture);
    ApplyNone(rest, []);
    if graph == rest && NoNaN(graph, gesture) {
      match gesture
      case None =>
      case Some(Param(id, key, start, last)) =>
        if id in rest.nodes {
          assert rest.nodes[id].params[key] == graph.nodes[id].params[key];
        }
      case Some(Move(from)) => StillMovesAreNone(graph, from);
    }
  }

  lemma {:induction false} StillMovesAreNone(graph: Graph, from: map<NodeId, Pos>)
    requires forall id :: id in from && id in graph.nodes ==> PosEq(graph.nodes[id].pos, from[id])
    ensures MoveOps(graph, from) == []
    decreases |from|
  {
    if from == map[] {
      NoMoves(graph);
    } else {
      MoveOpsHead(graph, from);
      StillMovesAreNone(graph, from - {MinOf(from.Keys)});
    }
  }

  ghost predicate IsMoveOf(op: GraphOp, graph: Graph, from: map<NodeId, Pos>) {
    && op.MoveNode? && op.id in from && op.id in graph.nodes
    && op.pos == graph.nodes[op.id].pos && !PosEq(op.pos, from[op.id])
  }

  /** One move for each node that ended elsewhere, to where it ended, in ascending
      order and so at most one for each. */
  ghost predicate ListsMoves(ops: seq<GraphOp>, graph: Graph, from: map<NodeId, Pos>) {
    && (forall op :: op in ops ==> IsMoveOf(op, graph, from))
    && (forall i, j :: 0 <= i < j < |ops| ==> Subject(ops[i]) < Subject(ops[j]))
    && (forall id :: id in from && id in graph.nodes && !PosEq(graph.nodes[id].pos, from[id]) ==>
          MoveNode(id, graph.nodes[id].pos) in ops)
  }

  lemma SkippedMove(rest: seq<GraphOp>, graph: Graph, from: map<NodeId, Pos>, id: NodeId)
    requires id in from && ListsMoves(rest, graph, from - {id})
    requires !(id in graph.nodes && !PosEq(graph.nodes[id].pos, from[id]))
    ensures ListsMoves(rest, graph, from)
  {
    hide PosEq;
    forall op | op in rest ensures IsMoveOf(op, graph, from) {
      assert IsMoveOf(op, graph, from - {id});
    }
  }

  lemma InFront(op: GraphOp, rest: seq<GraphOp>)
    ensures forall x :: x in [op] + rest <==> x == op || x in rest
  {
  }

  lemma AscendingInFront(op: GraphOp, rest: seq<GraphOp>)
    requires forall x :: x in rest ==> Subject(op) < Subject(x)
    requires forall i, j :: 0 <= i < j < |rest| ==> Subject(rest[i]) < Subject(rest[j])
    ensures forall i, j :: 0 <= i < j < |rest| + 1 ==> Subject(([op] + rest)[i]) < Subject(([op] + rest)[j])
  {
    forall i, j | 0 <= i < j < |rest| + 1 ensures Subject(([op] + rest)[i]) < Subject(([op] + rest)[j]) {
      assert rest[j - 1] in rest;
    }
  }

  lemma LeadingMove(rest: seq<GraphOp>, graph: Graph, from: map<NodeId, Pos>, id: NodeId)
    requires id in from && (forall k :: k in from ==> id <= k) && ListsMoves(rest, graph, from - {id})
    requires id in graph.nodes && !PosEq(graph.nodes[id].pos, from[id])
    ensures ListsMoves([MoveNode(id, graph.nodes[id].pos)] + rest, graph, from)
  {
    hide PosEq;
    var op := MoveNode(id, graph.nodes[id].pos);
    forall x | x in rest ensures IsMoveOf(x, graph, from) && Subject(op) < Subject(x) {
      assert IsMoveOf(x, graph, from - {id});
    }
    InFront(op, rest);
    AscendingInFront(op, rest);
  }

  /** What a drag records. */
  lemma {:induction false} MovesAreExact(graph: Graph, from: map<NodeId, Pos>)
    ensures ListsMoves(MoveOps(graph, from), graph, from)
    decreases |from|
  {
    if from == map[] {
      NoMoves(graph);
    } else {
      hide MoveOps, PosEq, ListsMoves;
      var id := MinOf(from.Keys);
      MoveOpsHead(graph, from);
      MovesAreExact(graph, from - {id});
      if id in graph.nodes && !PosEq(graph.nodes[id].pos, from[id]) {
        LeadingMove(MoveOps(graph, from - {id}), graph, from, id);
      } else {
        SkippedMove(MoveOps(graph, from - {id}), graph, from, id);
      }
    }
  }

  // ------------------------------------------------------------------
  // undo and redo
  // ------------------------------------------------------------------

  /** Pending operations, the offsets before each edit, and the undone batches. */
  datatype Book = Book(pending: seq<GraphOp>, undo: seq<nat>, redo: seq<seq<GraphOp>>)

  /** All undone batches in the order Redo would bring them back. */
  function Future(redo: seq<seq<GraphOp>>): seq<GraphOp> {
    if redo == [] then [] else redo[|redo| - 1] + Future(redo[..|redo| - 1])
  }

  ghost predicate BookOk(base: Graph, b: Book) {
    && (forall i :: 0 <= i < |b.undo| ==> b.undo[i] < |b.pending|)
    && (forall i, j :: 0 <= i < j < |b.undo| ==> b.undo[i] < b.undo[j])
    && (forall i :: 0 <= i < |b.redo| ==> b.redo[i] != [])
    && Replays(base, b.pending + Future(b.redo))
  }

  /** A recorded edit: one undo step, and nothing left to redo. */
  function Recorded(b: Book, ops: seq<GraphOp>): Book {
    if ops == [] then b else Book(b.pending + ops, b.undo + [|b.pending|], [])
  }

  function Undone(b: Book): Book
    requires b.undo != [] && b.undo[|b.undo| - 1] <= |b.pending|
  {
    var at := b.undo[|b.undo| - 1];
    Book(b.pending[..at], b.undo[..|b.undo| - 1], b.redo + [b.pending[at..]])
  }

  function Redone(b: Book): Book
    requires b.redo != []
  {
    Book(b.pending + b.redo[|b.redo| - 1], b.undo + [|b.pending|], b.redo[..|b.redo| - 1])
  }

  lemma PendingReplays(base: Graph, b: Book)
    requires BookOk(base, b)
    ensures Replays(base, b.pending)
    ensures forall k :: 0 <= k <= |b.pending| ==> Replays(base, b.pending[..k])
  {
    ApplyAllConcat(base, b.pending, Future(b.redo));
    forall k | 0 <= k <= |b.pending| ensures Replays(base, b.pending[..k]) {
      assert b.pending == b.pending[..k] + b.pending[k..];
      ApplyAllConcat(base, b.pending[..k], b.pending[k..]);
    }
  }

  lemma RecordedIsOk(base: Graph, b: Book, ops: seq<GraphOp>)
    requires BookOk(base, b) && Replays(base, b.pending + ops)
    ensures BookOk(base, Recorded(b, ops))
  {
    if ops != [] {
      assert b.pending + ops + Future([]) == b.pending + ops;
    }
  }

  lemma FuturePush(redo: seq<seq<GraphOp>>, batch: seq<GraphOp>)
    ensures Future(redo + [batch]) == batch + Future(redo)
  {
    assert (redo + [batch])[..|redo|] == redo;
  }

  lemma FuturePop(redo: seq<seq<GraphOp>>)
    requires redo != []
    ensures Future(redo) == redo[|redo| - 1] + Future(redo[..|redo| - 1])
  {
  }

  /** Neither Undo nor Redo moves the whole timeline. */
  lemma UndoKeepsTimeline(b: Book)
    requires b.undo != [] && b.undo[|b.undo| - 1] <= |b.pending|
    ensures Undone(b).pending + Future(Undone(b).redo) == b.pending + Future(b.redo)
    ensures Redone(Undone(b)) == b
  {
    hide Future;
    var at := b.undo[|b.undo| - 1];
    FuturePush(b.redo, b.pending[at..]);
    assert b.pending[..at] + b.pending[at..] == b.pending;
    assert (b.redo + [b.pending[at..]])[..|b.redo|] == b.redo;
    LastOf(b.undo);
    SeqJoins(b.pending[..at], b.pending[at..], Future(b.redo));
  }

  lemma RedoKeepsTimeline(b: Book)
    requires b.redo != []
    ensures Redone(b).pending + Future(Redone(b).redo) == b.pending + Future(b.redo)
    ensures Undone(Redone(b)) == b
  {
    hide Future;
    var next, undo := b.redo[|b.redo| - 1], b.undo + [|b.pending|];
    FuturePop(b.redo);
    LastOf(b.redo);
    SeqJoins(b.pending, next, Future(b.redo[..|b.redo| - 1]));
    assert (b.pending + next)[..|b.pending|] == b.pending && (b.pending + next)[|b.pending|..] == next;
    assert undo[..|undo| - 1] == b.undo;
  }

  lemma SeqJoins(a: seq<GraphOp>, b: seq<GraphOp>, c: seq<GraphOp>)
    ensures a + b + c == a + (b + c)
  {
  }

  /** Undo keeps the books replayable and Redo takes it back exactly. */
  lemma UndoThenRedo(base: Graph, b: Book)
    requires BookOk(base, b) && b.undo != []
    ensures BookOk(base, Undone(b)) && Redone(Undone(b)) == b
    ensures Replays(base, Undone(b).pending)
  {
    hide Future, ApplyAll;
    UndoKeepsTimeline(b);
    PendingReplays(base, b);
  }

  lemma RedoThenUndo(base: Graph, b: Book)
    requires BookOk(base, b) && b.redo != []
    ensures BookOk(base, Redone(b)) && Undone(Redone(b)) == b
    ensures Replays(base, Redone(b).pending)
  {
    hide Future, ApplyAll;
    RedoKeepsTimeline(b);
    PendingReplays(base, Redone(b));
  }

  function UndoTimes(b: Book, k: nat): Option<Book> {
    if k == 0 then Some(b)
    else
      match UndoTimes(b, k - 1)
      case None => None
      case Some(u) =>
        if u.undo != [] && u.undo[|u.undo| - 1] <= |u.pending| then Some(Undone(u)) else None
  }

  function RedoTimes(b: Book, k: nat): Option<Book>
    decreases k
  {
    if k == 0 then Some(b)
    else if b.redo == [] then None
    else RedoTimes(Redone(b), k - 1)
  }

  lemma OffsetsFit(base: Graph, b: Book)
    requires BookOk(base, b)
    ensures b.undo != [] ==> b.undo[|b.undo| - 1] <= |b.pending|
  {
  }

  lemma UndoOnce(base: Graph, b: Book, k: nat, u: Book)
    requires BookOk(base, b) && UndoTimes(b, k) == Some(u) && k < |b.undo|
    ensures u.undo != [] && u.undo[|u.undo| - 1] < |u.pending|
    ensures UndoTimes(b, k + 1) == Some(Undone(u))
  {
    UndosThenRedos(base, b, k);
    assert u.undo[|u.undo| - 1] < |u.pending|;
    hide BookOk, Replays;
  }

  lemma RedoOnce(b: Book, k: nat)
    requires k > 0 && b.redo != []
    ensures RedoTimes(b, k) == RedoTimes(Redone(b), k - 1)
  {
  }

  /** One Undo takes back one whole edit, and nothing else: what was pending and what
      could be undone is as before, and Redo holds exactly the edit. */
  lemma UndoTakesBackEdit(b: Book, ops: seq<GraphOp>)
    requires ops != []
    ensures var edited := Recorded(b, ops);
            && edited.undo != [] && edited.undo[|edited.undo| - 1] <= |edited.pending|
            && edited.pending == b.pending + ops
            && Undone(edited).pending == b.pending && Undone(edited).undo == b.undo && Undone(edited).redo == [ops]
            && |edited.pending| - |Undone(edited).pending| == |ops|
  {
    var edited := Recorded(b, ops);
    assert edited.undo[..|b.undo|] == b.undo && edited.undo[|b.undo|] == |b.pending|;
    assert edited.pending[..|b.pending|] == b.pending && edited.pending[|b.pending|..] == ops;
    assert [] + [ops] == [ops];
  }

  /** As many undos as there are edits always succeed, and as many redos restore
      pending operations and both histories exactly. */
  lemma {:induction false} UndosThenRedos(base: Graph, b: Book, k: nat)
    requires BookOk(base, b)
    ensures UndoTimes(b, k).Some? <==> k <= |b.undo|
    ensures k <= |b.undo| ==>
      && BookOk(base, UndoTimes(b, k).value)
      && |UndoTimes(b, k).value.undo| == |b.undo| - k
      && |UndoTimes(b, k).value.redo| == |b.redo| + k
      && RedoTimes(UndoTimes(b, k).value, k) == Some(b)
    decreases k
  {
    hide BookOk, Future, Replays;
    if k > 0 {
      UndosThenRedos(base, b, k - 1);
      if k <= |b.undo| {
        var u := UndoTimes(b, k - 1).value;
        OffsetsFit(base, u);
        UndoThenRedo(base, u);
        RedoOnce(Undone(u), k);
      }
    }
  }

  // ------------------------------------------------------------------
  // rebasing pending operations
  // ------------------------------------------------------------------

  datatype Rebase = Rebase(graph: Graph, kept: seq<GraphOp>, setAside: seq<GraphOp>)

  /** Re-apply pending operations one by one; those that fail are set aside. */
  function Rebased(base: Graph, pending: seq<GraphOp>): Rebase {
    if pending == [] then Rebase(base, [], [])
    else
      var op := pending[|pending| - 1];
      var r := Rebased(base, pending[..|pending| - 1]);
      match Apply(r.graph, op)
      case Ok(g) => Rebase(g, r.kept + [op], r.setAside)
      case Err(_) => r.(setAside := r.setAside + [op])
  }

  lemma RebasedStep(base: Graph, pending: seq<GraphOp>, i: nat)
    requires i < |pending|
    ensures var r := Rebased(base, pending[..i]);
            Rebased(base, pending[..i + 1]) ==
              match Apply(r.graph, pending[i])
              case Ok(g) => Rebase(g, r.kept + [pending[i]], r.setAside)
              case Err(_) => r.(setAside := r.setAside + [pending[i]])
  {
    assert pending[..i + 1][..i] == pending[..i];
  }

  function Pick(ops: seq<GraphOp>, mask: seq<bool>, wanted: bool): seq<GraphOp>
    requires |mask| == |ops|
  {
    if ops == [] then []
    else
      var n := |ops| - 1;
      Pick(ops[..n], mask[..n], wanted) + (if mask[n] == wanted then [ops[n]] else [])
  }

  /** Which pending operations survive the merge. */
  function Survivors(base: Graph, pending: seq<GraphOp>): (mask: seq<bool>)
    ensures |mask| == |pending|
  {
    if pending == [] then []
    else
      var init := pending[..|pending| - 1];
      Survivors(base, init) + [Apply(Rebased(base, init).graph, pending[|pending| - 1]).Ok?]
  }

  lemma SplitOne(ops: seq<GraphOp>, op: GraphOp, chosen: seq<GraphOp>, others: seq<GraphOp>)
    requires multiset(chosen) + multiset(others) == multiset(ops)
    ensures multiset(chosen + [op]) + multiset(others) == multiset(ops + [op])
    ensures multiset(chosen) + multiset(others + [op]) == multiset(ops + [op])
  {
    assert multiset(chosen + [op]) == multiset(chosen) + multiset{op};
    assert multiset(others + [op]) == multiset(others) + multiset{op};
    assert multiset(ops + [op]) == multiset(ops) + multiset{op};
  }

  lemma PickLast(ops: seq<GraphOp>, mask: seq<bool>, wanted: bool)
    requires |mask| == |ops| > 0
    ensures var n := |ops| - 1;
            Pick(ops, mask, wanted) ==
              if mask[n] == wanted then Pick(ops[..n], mask[..n], wanted) + [ops[n]]
                  else Pick(ops[..n], mask[..n], wanted)
  {
  }

  lemma {:induction false} PickSplits(ops: seq<GraphOp>, mask: seq<bool>)
    requires |mask| == |ops|
    ensures multiset(Pick(ops, mask, true)) + multiset(Pick(ops, mask, false)) == multiset(ops)
    decreases |ops|
  {
    if ops == [] {
      PickNothing(mask);
    } else {
      hide Pick;
      var n := |ops| - 1;
      PickSplits(ops[..n], mask[..n]);
      PickLast(ops, mask, true);
      PickLast(ops, mask, false);
      SplitOne(ops[..n], ops[n], Pick(ops[..n], mask[..n], true), Pick(ops[..n], mask[..n], false));
      LastOf(ops);
    }
  }

  lemma PickNothing(mask: seq<bool>)
    requires mask == []
    ensures Pick([], mask, true) == [] == Pick([], mask, false)
  {
  }

  /** Nothing is lost or reordered: the kept and the set-aside operations are the
      two halves of one selection. */
  lemma {:induction false} RebaseConserves(base: Graph, pending: seq<GraphOp>)
    ensures var r := Rebased(base, pending);
            var mask := Survivors(base, pending);
            r.kept == Pick(pending, mask, true) && r.setAside == Pick(pending, mask, false)
    decreases |pending|
  {
    if pending != [] {
      var n := |pending| - 1;
      RebaseConserves(base, pending[..n]);
      assert Survivors(base, pending)[..n] == Survivors(base, pending[..n]);
    }
  }

  /** What is kept replays to the merged graph. */
  lemma {:induction false} RebaseReplays(base: Graph, pending: seq<GraphOp>)
    ensures ApplyAll(base, Rebased(base, pending).kept) == Ok(Rebased(base, pending).graph)
    decreases |pending|
  {
    hide Apply;
    if pending != [] {
      var init := pending[..|pending| - 1];
      RebaseReplays(base, init);
      ApplyAllSnoc(base, Rebased(base, init).kept, pending[|pending| - 1]);
    }
  }

  /** An operation is set aside exactly when it fails on the graph built so far. */
  lemma {:induction false} SetAsideMeansFailed(base: Graph, pending: seq<GraphOp>, i: nat)
    requires i < |pending|
    ensures Survivors(base, pending)[i] <==> Apply(Rebased(base, pending[..i]).graph, pending[i]).Ok?
    decreases |pending|
  {
    var n := |pending| - 1;
    if i < n {
      assert pending[..n][..i] == pending[..i];
      SetAsideMeansFailed(base, pending[..n], i);
    }
  }

  lemma EmptyRebase(base: Graph)
    ensures Rebased(base, []) == Rebase(base, [], []) && ApplyAll(base, []) == Ok(base)
  {
  }

  /** A merge whose pending operations still apply sets nothing aside. */
  lemma {:induction false} CleanRebaseKeepsAll(base: Graph, pending: seq<GraphOp>)
    ensures Rebased(base, pending).setAside == [] <==> Replays(base, pending)
    ensures Replays(base, pending) ==>
      Rebased(base, pending) == Rebase(ApplyAll(base, pending).value, pending, [])
    decreases |pending|
  {
    hide Apply, Rebased, ApplyAll;
    if pending == [] {
      EmptyRebase(base);
    } else {
      var n := |pending| - 1;
      CleanRebaseKeepsAll(base, pending[..n]);
      RebasedStep(base, pending, n);
      ApplyAllSnoc(base, pending[..n], pending[n]);
      LastOf(pending);
      assert pending[..n + 1] == pending;
    }
  }
}
