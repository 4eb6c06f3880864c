/** The graph document and the operations a chain records. `Apply` is the single
    mutation path of live editing and of replay, so its branches are the format. */
module GraphModel {
  import opened Common
  import opened Paths

  type NodeId = nat

  /** A float without rounding. Zero has two signs: `Finite(0.0)` is the positive one. */
  datatype Float = Finite(v: real) | NegativeZero | Infinite(negative: bool) | NaN

  predicate IsFinite(f: Float) {
    f.Finite? || f.NegativeZero?
  }

  /** The number a finite float stands for. */
  function ValueOf(f: Float): real {
    if f.Finite? then f.v else 0.0
  }

  /** The float without the sign of a zero. */
  function Unsigned(f: Float): Float {
    if f.NegativeZero? then Finite(0.0) else f
  }

  /** IEEE equality: the zeros are equal, and NaN equals nothing, itself included. */
  predicate FloatEq(a: Float, b: Float) {
    Unsigned(a) == Unsigned(b) && !a.NaN?
  }

  datatype ParamValue = Number(n: Float) | Text(s: string) | Flag(b: bool)

  function UnsignedParam(p: ParamValue): ParamValue {
    if p.Number? then Number(Unsigned(p.n)) else p
  }

  predicate ParamEq(a: ParamValue, b: ParamValue) {
    UnsignedParam(a) == UnsignedParam(b) && (a.Number? ==> !a.n.NaN?)
  }

  datatype Pos = Pos(x: Float, y: Float)

  function UnsignedPos(p: Pos): Pos {
    Pos(Unsigned(p.x), Unsigned(p.y))
  }

  predicate PosEq(a: Pos, b: Pos) {
    FloatEq(a.x, b.x) && FloatEq(a.y, b.y)
  }

  datatype Port = Port(node: NodeId, index: nat)

  datatype Edge = Edge(from: Port, to: Port)

  datatype Node = Node(id: NodeId, typeName: string, pos: Pos, params: map<string, ParamValue>)

  datatype GraphOp =
    | AddNode(id: NodeId, typeName: string, pos: Pos)
    | RemoveNode(id: NodeId)
    | Connect(from: Port, to: Port)
    | Disconnect(from: Port, to: Port)
    | SetParam(id: NodeId, key: string, value: ParamValue)
    | MoveNode(id: NodeId, pos: Pos)

  datatype GraphError =
    | DuplicateNode(id: NodeId)
    | UnknownNode(id: NodeId)
    | EdgeExists
    | UnknownEdge
    | Cycle
    | SelfLoop

  datatype Graph = Graph(nodes: map<NodeId, Node>, edges: seq<Edge>)

  const EMPTY := Graph(map[], [])

  predicate FiniteOp(op: GraphOp) {
    match op
    case AddNode(_, _, pos) => IsFinite(pos.x) && IsFinite(pos.y)
    case MoveNode(_, pos) => IsFinite(pos.x) && IsFinite(pos.y)
    case SetParam(_, _, value) => value.Number? ==> IsFinite(value.n)
    case _ => true
  }

  predicate FiniteOps(ops: seq<GraphOp>) {
    forall i :: 0 <= i < |ops| ==> FiniteOp(ops[i])
  }

  function ArcsOf(edges: seq<Edge>): Arcs {
    set e | e in edges :: (e.from.node, e.to.node)
  }

  /** The wires one operation takes out of the graph. */
  datatype Cut = Incident(id: NodeId) | Into(to: Port) | Exactly(edge: Edge)

  predicate Spares(cut: Cut, e: Edge) {
    match cut
    case Incident(id) => e.from.node != id && e.to.node != id
    case Into(to) => e.to != to
    case Exactly(edge) => e != edge
  }

  /** `Vec::retain`. */
  function Retain(edges: seq<Edge>, cut: Cut): (r: seq<Edge>)
    ensures forall e :: e in r <==> e in edges && Spares(cut, e)
    ensures |r| <= |edges|
    ensures |r| == |edges| <==> forall e :: e in edges ==> Spares(cut, e)
  {
    if edges == [] then []
    else
      var last := edges[|edges| - 1];
      assert edges == edges[..|edges| - 1] + [last];
      Retain(edges[..|edges| - 1], cut) + (if Spares(cut, last) then [last] else [])
  }

  function Apply(g: Graph, op: GraphOp): Result<Graph, GraphError> {
    match op
    case AddNode(id, typeName, pos) =>
      if id in g.nodes then Err(DuplicateNode(id))
      else Ok(g.(nodes := g.nodes[id := Node(id, typeName, pos, map[])]))
    case RemoveNode(id) =>
      if id !in g.nodes then Err(UnknownNode(id))
      else Ok(Graph(g.nodes - {id}, Retain(g.edges, Incident(id))))
    case Connect(from, to) =>
      if from.node !in g.nodes then Err(UnknownNode(from.node))
      else if to.node !in g.nodes then Err(UnknownNode(to.node))
      else if from.node == to.node then Err(SelfLoop)
      else if Edge(from, to) in g.edges then Err(EdgeExists)
      else if from.node in ReachSet(ArcsOf(g.edges), {to.node}) then Err(Cycle)
      else Ok(g.(edges := Retain(g.edges, Into(to)) + [Edge(from, to)]))
    case Disconnect(from, to) =>
      var kept := Retain(g.edges, Exactly(Edge(from, to)));
      if |kept| == |g.edges| then Err(UnknownEdge)
      else Ok(g.(edges := kept))
    case SetParam(id, key, value) =>
      if id !in g.nodes then Err(UnknownNode(id))
      else Ok(g.(nodes := g.nodes[id := g.nodes[id].(params := g.nodes[id].params[key := value])]))
    case MoveNode(id, pos) =>
      if id !in g.nodes then Err(UnknownNode(id))
      else Ok(g.(nodes := g.nodes[id := g.nodes[id].(pos := pos)]))
  }

  /** Apply a batch; the error names the first operation that fails. */
  function ApplyAll(g: Graph, ops: seq<GraphOp>): Result<Graph, (nat, GraphError)> {
    if ops == [] then Ok(g)
    else
      match ApplyAll(g, ops[..|ops| - 1])
      case Err(e) => Err(e)
      case Ok(h) =>
        match Apply(h, ops[|ops| - 1])
        case Err(e) => Err((|ops| - 1, e))
        case Ok(r) => Ok(r)
  }

  predicate Replays(g: Graph, ops: seq<GraphOp>) {
    ApplyAll(g, ops).Ok?
  }

  lemma ApplyAllSnoc(g: Graph, ops: seq<GraphOp>, op: GraphOp)
    ensures Replays(g, ops + [op]) <==> Replays(g, ops) && Apply(ApplyAll(g, ops).value, op).Ok?
    ensures Replays(g, ops + [op]) ==> ApplyAll(g, ops + [op]).value == Apply(ApplyAll(g, ops).value, op).value
  {
    assert (ops + [op])[..|ops|] == ops;
  }

  lemma SingleOp(g: Graph, op: GraphOp)
    ensures ApplyAll(g, [op]) == match Apply(g, op) case Ok(h) => Ok(h) case Err(e) => Err((0, e))
  {
    hide Apply;
    assert [op][..0] == [] && ApplyAll(g, []) == Ok(g);
  }

  lemma ApplyNone(g: Graph, ops: seq<GraphOp>)
    ensures ApplyAll(g, []) == Ok(g) && ApplyAll(g, ops[..0]) == Ok(g)
  {
    assert ops[..0] == [];
  }

  /** Replaying a concatenation is replaying its halves in turn. */
  lemma {:induction false} ApplyAllConcat(g: Graph, a: seq<GraphOp>, b: seq<GraphOp>)
    ensures Replays(g, a + b) <==> Replays(g, a) && Replays(ApplyAll(g, a).value, b)
    ensures Replays(g, a + b) ==> ApplyAll(g, a + b).value == ApplyAll(ApplyAll(g, a).value, b).value
    decreases |b|
  {
    if b == [] {
      assert a + b == a;
    } else {
      var n := |b| - 1;
      ApplyAllConcat(g, a, b[..n]);
      assert a + b == (a + b[..n]) + [b[n]];
      ApplyAllSnoc(g, a + b[..n], b[n]);
    }
  }

  /** A failing prefix decides the outcome of the whole batch. */
  lemma {:induction false} ErrorStops(g: Graph, ops: seq<GraphOp>, k: nat)
    requires k <= |ops| && ApplyAll(g, ops[..k]).Err?
    ensures ApplyAll(g, ops) == ApplyAll(g, ops[..k])
    decreases |ops|
  {
    if k < |ops| {
      assert ops[..|ops| - 1][..k] == ops[..k];
      ErrorStops(g, ops[..|ops| - 1], k);
    } else {
      assert ops[..k] == ops;
    }
  }

  // ------------------------------------------------------------------
  // graphs that differ in the signs of zeros at most
  // ------------------------------------------------------------------

  function UnsignedParams(params: map<string, ParamValue>): map<string, ParamValue> {
    map key | key in params :: UnsignedParam(params[key])
  }

  function UnsignedNode(n: Node): Node {
    Node(n.id, n.typeName, UnsignedPos(n.pos), UnsignedParams(n.params))
  }

  function UnsignedGraph(g: Graph): Graph {
    Graph(map id | id in g.nodes :: UnsignedNode(g.nodes[id]), g.edges)
  }

  predicate SameGraph(g: Graph, h: Graph) {
    UnsignedGraph(g) == UnsignedGraph(h)
  }

  function UnsignedOp(op: GraphOp): GraphOp {
    match op
    case AddNode(id, typeName, pos) => AddNode(id, typeName, UnsignedPos(pos))
    case SetParam(id, key, value) => SetParam(id, key, UnsignedParam(value))
    case MoveNode(id, pos) => MoveNode(id, UnsignedPos(pos))
    case _ => op
  }

  lemma UnsignedUpdate(nodes: map<NodeId, Node>, id: NodeId, n: Node, edges: seq<Edge>)
    ensures UnsignedGraph(Graph(nodes[id := n], edges)).nodes
         == UnsignedGraph(Graph(nodes, edges)).nodes[id := UnsignedNode(n)]
  {
  }

  lemma UnsignedParamUpdate(params: map<string, ParamValue>, key: string, value: ParamValue)
    ensures UnsignedParams(params[key := value]) == UnsignedParams(params)[key := UnsignedParam(value)]
  {
  }

  /** Applying an operation never looks at the sign of a zero. */
  lemma ApplyUnsigned(g: Graph, op: GraphOp)
    ensures Apply(UnsignedGraph(g), UnsignedOp(op)) ==
      match Apply(g, op)
      case Ok(h) => Ok(UnsignedGraph(h))
      case Err(e) => Err(e)
  {
    hide ReachSet, Retain;
    match op
    case AddNode(id, typeName, pos) =>
      UnsignedUpdate(g.nodes, id, Node(id, typeName, pos, map[]), g.edges);
    case RemoveNode(id) =>
      assert UnsignedGraph(Graph(g.nodes - {id}, g.edges)).nodes == UnsignedGraph(g).nodes - {id};
    case SetParam(id, key, value) =>
      if id in g.nodes {
        UnsignedParamUpdate(g.nodes[id].params, key, value);
        UnsignedUpdate(g.nodes, id, g.nodes[id].(params := g.nodes[id].params[key := value]), g.edges);
      }
    case MoveNode(id, pos) =>
      if id in g.nodes {
        UnsignedUpdate(g.nodes, id, g.nodes[id].(pos := pos), g.edges);
      }
    case _ =>
  }

  lemma SameApply(g: Graph, h: Graph, op: GraphOp)
    requires SameGraph(g, h)
    ensures Apply(g, op).Ok? <==> Apply(h, op).Ok?
    ensures Apply(g, op).Ok? ==> SameGraph(Apply(g, op).value, Apply(h, op).value)
  {
    hide Apply, UnsignedGraph;
    ApplyUnsigned(g, op);
    ApplyUnsigned(h, op);
  }

  /** Nor does replaying a batch. */
  lemma {:induction false} SameApplyAll(g: Graph, h: Graph, ops: seq<GraphOp>)
    requires SameGraph(g, h)
    ensures Replays(g, ops) <==> Replays(h, ops)
    ensures Replays(g, ops) ==> SameGraph(ApplyAll(g, ops).value, ApplyAll(h, ops).value)
    decreases |ops|
  {
    hide Apply, SameGraph;
    if ops != [] {
      var n := |ops| - 1;
      SameApplyAll(g, h, ops[..n]);
      if Replays(g, ops[..n]) {
        SameApply(ApplyAll(g, ops[..n]).value, ApplyAll(h, ops[..n]).value, ops[n]);
      }
    }
  }

  // ------------------------------------------------------------------
  // what one operation leaves alone, and what takes it back
  // ------------------------------------------------------------------

  function Subject(op: GraphOp): NodeId {
    match op
    case Connect(_, to) => to.node
    case Disconnect(_, to) => to.node
    case AddNode(id, _, _) => id
    case RemoveNode(id) => id
    case SetParam(id, _, _) => id
    case MoveNode(id, _) => id
  }

  /** An operation changes no node but its subject and no wire that does not touch it. */
  lemma OperationsAreLocal(g: Graph, op: GraphOp)
    requires Apply(g, op).Ok?
    ensures var h := Apply(g, op).value;
            && (forall id :: id != Subject(op) ==>
                  (id in h.nodes <==> id in g.nodes) && (id in g.nodes ==> h.nodes[id] == g.nodes[id]))
            && (forall e: Edge :: e.from.node != Subject(op) && e.to.node != Subject(op) ==>
                  (e in h.edges <==> e in g.edges))
  {
  }

  lemma {:induction false} RetainAll(edges: seq<Edge>, cut: Cut)
    requires forall e :: e in edges ==> Spares(cut, e)
    ensures Retain(edges, cut) == edges
  {
    if edges != [] {
      var n := |edges| - 1;
      LastOf(edges);
      RetainAll(edges[..n], cut);
    }
  }

  /** Removing a node just added restores the graph. */
  lemma AddThenRemove(g: Graph, id: NodeId, typeName: string, pos: Pos)
    requires WellFormed(g) && id !in g.nodes
    ensures Apply(Apply(g, AddNode(id, typeName, pos)).value, RemoveNode(id)) == Ok(g)
  {
    hide Retain;
    RetainAll(g.edges, Incident(id));
    PutThenTake(g.nodes, id, Node(id, typeName, pos, map[]));
  }

  lemma PutThenTake(nodes: map<NodeId, Node>, id: NodeId, n: Node)
    requires id !in nodes
    ensures nodes[id := n] - {id} == nodes
  {
  }

  lemma RetainSnoc(edges: seq<Edge>, e: Edge, cut: Cut)
    ensures Retain(edges + [e], cut) == Retain(edges, cut) + (if Spares(cut, e) then [e] else [])
  {
    assert (edges + [e])[..|edges|] == edges;
  }

  lemma ConnectToFreeInput(g: Graph, from: Port, to: Port)
    requires Apply(g, Connect(from, to)).Ok? && forall e :: e in g.edges ==> e.to != to
    ensures Apply(g, Connect(from, to)) == Ok(g.(edges := g.edges + [Edge(from, to)])) && Edge(from, to) !in g.edges
  {
    hide Retain, ReachSet;
    RetainAll(g.edges, Into(to));
  }

  lemma DisconnectLast(g: Graph, from: Port, to: Port)
    requires Edge(from, to) !in g.edges
    ensures Apply(g.(edges := g.edges + [Edge(from, to)]), Disconnect(from, to)) == Ok(g)
  {
    hide Retain, ReachSet;
    var edge := Edge(from, to);
    var edges := g.edges + [edge];
    forall e | e in g.edges ensures Spares(Exactly(edge), e) {
    }
    RetainAll(g.edges, Exactly(edge));
    RetainSnoc(g.edges, edge, Exactly(edge));
    assert Retain(edges, Exactly(edge)) == g.edges;
  }

  /** Disconnecting a wire just connected to a free input restores the graph. */
  lemma ConnectThenDisconnect(g: Graph, from: Port, to: Port)
    requires Apply(g, Connect(from, to)).Ok? && forall e :: e in g.edges ==> e.to != to
    ensures Apply(Apply(g, Connect(from, to)).value, Disconnect(from, to)) == Ok(g)
  {
    hide Apply;
    ConnectToFreeInput(g, from, to);
    DisconnectLast(g, from, to);
  }

  /** The last of two parameter values wins, as if it had been the only one. */
  lemma LastParamWins(g: Graph, id: NodeId, key: string, first: ParamValue, last: ParamValue)
    requires Apply(g, SetParam(id, key, first)).Ok?
    ensures Apply(Apply(g, SetParam(id, key, first)).value, SetParam(id, key, last))
         == Apply(g, SetParam(id, key, last))
  {
    var node := g.nodes[id];
    assert node.params[key := first][key := last] == node.params[key := last];
    var once := node.(params := node.params[key := last]);
    assert g.nodes[id := node.(params := node.params[key := first])][id := once] == g.nodes[id := once];
  }

  // ------------------------------------------------------------------
  // what one operation needs and leaves behind
  // ------------------------------------------------------------------

  /** The floats an operation carries. */
  function FloatsOf(op: GraphOp): set<Float> {
    match op
    case AddNode(_, _, pos) => {pos.x, pos.y}
    case MoveNode(_, pos) => {pos.x, pos.y}
    case SetParam(_, _, Number(n)) => {n}
    case _ => {}
  }

  /** Finite operations carry no NaN and no infinity, and they are all the others. */
  lemma FiniteMeans(op: GraphOp)
    ensures FiniteOp(op) <==> forall f :: f in FloatsOf(op) ==> !f.NaN? && !f.Infinite?
  {
  }

  /** When an operation is accepted. */
  lemma AcceptedExactly(g: Graph, op: GraphOp)
    ensures op.AddNode? ==> (Apply(g, op).Ok? <==> op.id !in g.nodes)
    ensures op.RemoveNode? || op.SetParam? || op.MoveNode? ==> (Apply(g, op).Ok? <==> op.id in g.nodes)
    ensures op.Disconnect? ==> (Apply(g, op).Ok? <==> Edge(op.from, op.to) in g.edges)
    ensures op.Connect? ==>
      (Apply(g, op).Ok? <==>
        && op.from.node in g.nodes && op.to.node in g.nodes && op.from.node != op.to.node
        && Edge(op.from, op.to) !in g.edges && !Reaches(ArcsOf(g.edges), op.to.node, op.from.node))
  {
    if op.Connect? {
      ReachSetIsReachability(ArcsOf(g.edges), {op.to.node}, op.from.node);
      hide ReachSet, Reaches;
    }
  }

  /** A refusal names what is wrong. */
  lemma RefusalNamesCause(g: Graph, op: GraphOp)
    requires Apply(g, op).Err?
    ensures match Apply(g, op).error
            case DuplicateNode(id) => op.AddNode? && op.id == id && id in g.nodes
            case UnknownNode(id) =>
              && id !in g.nodes
              && (((op.RemoveNode? || op.SetParam? || op.MoveNode?) && op.id == id)
                  || (op.Connect? && (op.from.node == id || op.to.node == id)))
            case EdgeExists => op.Connect? && Edge(op.from, op.to) in g.edges
            case UnknownEdge => op.Disconnect? && Edge(op.from, op.to) !in g.edges
            case SelfLoop => op.Connect? && op.from.node == op.to.node
            case Cycle =>
              op.Connect? && op.from.node != op.to.node && Reaches(ArcsOf(g.edges), op.to.node, op.from.node)
  {
    if op.Connect? {
      ReachSetIsReachability(ArcsOf(g.edges), {op.to.node}, op.from.node);
      hide ReachSet, Reaches;
    }
  }

  /** What an accepted operation leaves in the node it is about. */
  lemma SubjectHolds(g: Graph, op: GraphOp)
    requires Apply(g, op).Ok?
    ensures var h := Apply(g, op).value;
            match op
            case AddNode(id, typeName, pos) =>
              && id in h.nodes && h.nodes[id].typeName == typeName && h.nodes[id].pos == pos
              && h.nodes[id].params == map[]
            case RemoveNode(id) => id !in h.nodes
            case MoveNode(id, pos) =>
              && id in h.nodes && h.nodes[id].pos == pos
              && h.nodes[id].typeName == g.nodes[id].typeName && h.nodes[id].params == g.nodes[id].params
            case SetParam(id, key, value) =>
              && id in h.nodes && key in h.nodes[id].params && h.nodes[id].params[key] == value
              && h.nodes[id].params.Keys == g.nodes[id].params.Keys + {key}
              && (forall k :: k in g.nodes[id].params && k != key ==> h.nodes[id].params[k] == g.nodes[id].params[k])
              && h.nodes[id].typeName == g.nodes[id].typeName && h.nodes[id].pos == g.nodes[id].pos
            case _ => h.nodes == g.nodes
  {
    hide Retain, ReachSet;
  }

  /** Which wires an accepted operation leaves: a connection takes over its input,
      a disconnection cuts one wire, a removal cuts those of its node. */
  lemma WiresLeft(g: Graph, op: GraphOp, e: Edge)
    requires Apply(g, op).Ok?
    ensures e in Apply(g, op).value.edges <==>
      match op
      case Connect(from, to) => e == Edge(from, to) || (e in g.edges && e.to != to)
      case Disconnect(from, to) => e in g.edges && e != Edge(from, to)
      case RemoveNode(id) => e in g.edges && e.from.node != id && e.to.node != id
      case _ => e in g.edges
  {
    hide ReachSet;
  }

  /** The operation puts the node somewhere. */
  predicate Puts(op: GraphOp, id: NodeId, pos: Pos) {
    (op.AddNode? || op.MoveNode?) && op.id == id && op.pos == pos
  }

  lemma StaysPut(g: Graph, op: GraphOp, id: NodeId)
    requires Apply(g, op).Ok? && id in g.nodes
    requires !(op.MoveNode? && op.id == id) && !(op.RemoveNode? && op.id == id)
    ensures id in Apply(g, op).value.nodes && Apply(g, op).value.nodes[id].pos == g.nodes[id].pos
    ensures Apply(g, op).value.nodes[id].typeName == g.nodes[id].typeName
  {
    hide Apply;
    OperationsAreLocal(g, op);
    SubjectHolds(g, op);
    AcceptedExactly(g, op);
  }

  /** In any replayed batch a node stands where the last operation that placed it
      put it, however many others followed. */
  lemma {:induction false} NodeStandsWherePut(g: Graph, ops: seq<GraphOp>, i: nat, id: NodeId, pos: Pos)
    requires Replays(g, ops) && i < |ops| && Puts(ops[i], id, pos)
    requires forall j :: i < j < |ops| && (ops[j].MoveNode? || ops[j].RemoveNode?) ==> ops[j].id != id
    ensures var h := ApplyAll(g, ops).value; id in h.nodes && h.nodes[id].pos == pos
    decreases |ops|
  {
    hide Apply;
    var n := |ops| - 1;
    var before := ApplyAll(g, ops[..n]).value;
    if i == n {
      SubjectHolds(before, ops[n]);
    } else {
      NodeStandsWherePut(g, ops[..n], i, id, pos);
      StaysPut(before, ops[n], id);
    }
  }

  /** And it keeps the type it was added with. */
  lemma {:induction false} NodeKeepsType(g: Graph, ops: seq<GraphOp>, i: nat)
    requires Replays(g, ops) && i < |ops| && ops[i].AddNode?
    requires forall j :: i < j < |ops| && ops[j].RemoveNode? ==> ops[j].id != ops[i].id
    ensures var h := ApplyAll(g, ops).value; ops[i].id in h.nodes && h.nodes[ops[i].id].typeName == ops[i].typeName
    decreases |ops|
  {
    hide Apply;
    var n, id := |ops| - 1, ops[i].id;
    var before := ApplyAll(g, ops[..n]).value;
    SubjectHolds(before, ops[n]);
    if i < n {
      NodeKeepsType(g, ops[..n], i);
      OperationsAreLocal(before, ops[n]);
      AcceptedExactly(before, ops[n]);
    }
  }

  ghost predicate HasParam(g: Graph, id: NodeId, key: string, value: ParamValue) {
    id in g.nodes && key in g.nodes[id].params && g.nodes[id].params[key] == value
  }

  lemma ParamStays(g: Graph, op: GraphOp, id: NodeId, key: string, value: ParamValue)
    requires Apply(g, op).Ok? && HasParam(g, id, key, value)
    requires !(op.SetParam? && op.id == id && op.key == key) && !(op.RemoveNode? && op.id == id)
    ensures HasParam(Apply(g, op).value, id, key, value)
  {
    hide Apply;
    OperationsAreLocal(g, op);
    SubjectHolds(g, op);
    AcceptedExactly(g, op);
  }

  /** A parameter holds the last value it was set to. */
  lemma {:induction false} ParamKeepsLastValue(g: Graph, ops: seq<GraphOp>, i: nat)
    requires Replays(g, ops) && i < |ops| && ops[i].SetParam?
    requires forall j :: i < j < |ops| ==>
      !(ops[j].SetParam? && ops[j].id == ops[i].id && ops[j].key == ops[i].key)
      && !(ops[j].RemoveNode? && ops[j].id == ops[i].id)
    ensures HasParam(ApplyAll(g, ops).value, ops[i].id, ops[i].key, ops[i].value)
    decreases |ops|
  {
    hide Apply;
    var n := |ops| - 1;
    var before := ApplyAll(g, ops[..n]).value;
    if i == n {
      SubjectHolds(before, ops[n]);
    } else {
      ParamKeepsLastValue(g, ops[..n], i);
      ParamStays(before, ops[n], ops[i].id, ops[i].key, ops[i].value);
    }
  }

  /** The operation cuts the wire or takes over its input. */
  predicate Cuts(op: GraphOp, e: Edge) {
    match op
    case Connect(_, to) => to == e.to
    case Disconnect(from, to) => Edge(from, to) == e
    case RemoveNode(id) => id == e.from.node || id == e.to.node
    case _ => false
  }

  /** A wire stands until it is cut. */
  lemma {:induction false} WireStands(g: Graph, ops: seq<GraphOp>, i: nat)
    requires Replays(g, ops) && i < |ops| && ops[i].Connect?
    requires forall j :: i < j < |ops| ==> !Cuts(ops[j], Edge(ops[i].from, ops[i].to))
    ensures Edge(ops[i].from, ops[i].to) in ApplyAll(g, ops).value.edges
    decreases |ops|
  {
    hide Apply;
    var n, e := |ops| - 1, Edge(ops[i].from, ops[i].to);
    WiresLeft(ApplyAll(g, ops[..n]).value, ops[n], e);
    if i < n {
      WireStands(g, ops[..n], i);
    }
  }

  /** The reported position is that of the first operation that fails: everything
      before it replays, and it fails there with the reported error. */
  lemma {:induction false} ErrorIsLocated(g: Graph, ops: seq<GraphOp>, k: nat, e: GraphError)
    ensures ApplyAll(g, ops) == Err((k, e)) <==>
      && k < |ops| && Replays(g, ops[..k]) && Apply(ApplyAll(g, ops[..k]).value, ops[k]) == Err(e)
    decreases |ops|
  {
    hide Apply;
    if ops != [] {
      var n := |ops| - 1;
      ErrorIsLocated(g, ops[..n], k, e);
      if k < n {
        assert ops[..n][..k] == ops[..k];
        if ApplyAll(g, ops[..n]).Err? {
          ErrorStops(g, ops, n);
        }
      }
    }
  }

  // ------------------------------------------------------------------
  // what every replayed graph satisfies
  // ------------------------------------------------------------------

  ghost predicate UniqueInputs(edges: seq<Edge>) {
    forall i, j :: 0 <= i < j < |edges| ==> edges[i].to != edges[j].to
  }

  /** Nodes are filed under their own id, wires join existing nodes, an input
      port holds one wire, and no wire closes a cycle. */
  ghost predicate WellFormed(g: Graph) {
    && (forall id :: id in g.nodes ==> g.nodes[id].id == id)
    && (forall e :: e in g.edges ==> e.from.node in g.nodes && e.to.node in g.nodes)
    && UniqueInputs(g.edges)
    && Acyclic(ArcsOf(g.edges))
  }

  lemma {:induction false} RetainKeepsUniqueInputs(edges: seq<Edge>, cut: Cut)
    requires UniqueInputs(edges)
    ensures UniqueInputs(Retain(edges, cut))
  {
    if edges != [] {
      var init, last := edges[..|edges| - 1], edges[|edges| - 1];
      RetainKeepsUniqueInputs(init, cut);
      var kept := Retain(init, cut);
      forall i | 0 <= i < |kept| ensures kept[i].to != last.to {
        assert kept[i] in init;
      }
    }
  }

  lemma RetainKeepsWires(g: Graph, cut: Cut)
    requires WellFormed(g)
    ensures UniqueInputs(Retain(g.edges, cut)) && Acyclic(ArcsOf(Retain(g.edges, cut)))
  {
    RetainKeepsUniqueInputs(g.edges, cut);
    FewerArcsKeepAcyclic(ArcsOf(g.edges), ArcsOf(Retain(g.edges, cut)));
  }

  lemma FewerArcsReachLess(fewer: Arcs, arcs: Arcs, a: NodeId, b: NodeId)
    requires fewer <= arcs && Reaches(fewer, a, b)
    ensures Reaches(arcs, a, b)
  {
    var p :| PathBetween(fewer, p, a, b);
    assert PathBetween(arcs, p, a, b);
  }

  lemma AcceptedWireClosesNothing(g: Graph, from: Port, to: Port)
    requires Apply(g, Connect(from, to)).Ok?
    ensures !Reaches(ArcsOf(Retain(g.edges, Into(to))), to.node, from.node) && from.node != to.node
  {
    var arcs, kept := ArcsOf(g.edges), ArcsOf(Retain(g.edges, Into(to)));
    ReachSetIsReachability(arcs, {to.node}, from.node);
    hide Reaches, ReachSet, Retain;
    assert kept <= arcs;
    if Reaches(kept, to.node, from.node) {
      FewerArcsReachLess(kept, arcs, to.node, from.node);
      assert false;
    }
  }

  lemma ConnectKeepsWires(g: Graph, from: Port, to: Port)
    requires WellFormed(g) && Apply(g, Connect(from, to)).Ok?
    ensures var edges := Apply(g, Connect(from, to)).value.edges;
            UniqueInputs(edges) && Acyclic(ArcsOf(edges))
  {
    hide Reaches, ReachSet, Acyclic, Retain;
    var kept := Retain(g.edges, Into(to));
    RetainKeepsWires(g, Into(to));
    AcceptedWireClosesNothing(g, from, to);
    AddArcKeepsAcyclic(ArcsOf(kept), from.node, to.node);
    assert ArcsOf(kept + [Edge(from, to)]) == ArcsOf(kept) + {(from.node, to.node)};
    forall i | 0 <= i < |kept| ensures kept[i].to != to {
      assert kept[i] in kept;
    }
    assert UniqueInputs(kept + [Edge(from, to)]);
    assert Apply(g, Connect(from, to)).value.edges == kept + [Edge(from, to)];
  }

  lemma SameWellFormed(g: Graph, h: Graph)
    requires SameGraph(g, h) && WellFormed(g)
    ensures WellFormed(h)
  {
    assert UnsignedGraph(g).nodes.Keys == g.nodes.Keys && UnsignedGraph(h).nodes.Keys == h.nodes.Keys;
    forall id | id in h.nodes ensures h.nodes[id].id == id {
      assert UnsignedGraph(h).nodes[id] == UnsignedNode(h.nodes[id]);
      assert UnsignedGraph(g).nodes[id] == UnsignedNode(g.nodes[id]);
    }
    assert UnsignedGraph(g).edges == g.edges && UnsignedGraph(h).edges == h.edges;
  }

  lemma ApplyKeepsWellFormed(g: Graph, op: GraphOp)
    requires WellFormed(g) && Apply(g, op).Ok?
    ensures WellFormed(Apply(g, op).value)
  {
    match op
    case RemoveNode(id) => RetainKeepsWires(g, Incident(id));
    case Disconnect(from, to) => RetainKeepsWires(g, Exactly(Edge(from, to)));
    case Connect(from, to) => ConnectKeepsWires(g, from, to);
    case _ =>
  }

  /** Whatever operations a history holds, the graph they rebuild is well formed
      and free of cycles. */
  lemma {:induction false} ReplayedGraphsAreWellFormed(g: Graph, ops: seq<GraphOp>)
    requires WellFormed(g) && Replays(g, ops)
    ensures WellFormed(ApplyAll(g, ops).value)
    decreases |ops|
  {
    if ops != [] {
      ReplayedGraphsAreWellFormed(g, ops[..|ops| - 1]);
      ApplyKeepsWellFormed(ApplyAll(g, ops[..|ops| - 1]).value, ops[|ops| - 1]);
    }
  }

  lemma EmptyIsWellFormed()
    ensures WellFormed(EMPTY)
  {
    assert forall p :: IsCycle({}, p) ==> (p[0], p[1]) in ArcsOf([]);
    assert Acyclic(ArcsOf([]));
  }

  /** A connection is refused as a cycle exactly when adding its wire to the present
      ones, the wire it would replace included, closes a cycle. */
  lemma CycleErrorIsExact(g: Graph, from: Port, to: Port)
    requires WellFormed(g) && from.node in g.nodes && to.node in g.nodes
    requires from.node != to.node && Edge(from, to) !in g.edges
    ensures Apply(g, Connect(from, to)) == Err(Cycle)
        <==> !Acyclic(ArcsOf(g.edges) + {(from.node, to.node)})
  {
    var arcs := ArcsOf(g.edges);
    ReachSetIsReachability(arcs, {to.node}, from.node);
    if Reaches(arcs, to.node, from.node) {
      var p :| PathBetween(arcs, p, to.node, from.node);
      assert IsCycle(arcs + {(from.node, to.node)}, [from.node] + p);
    } else {
      AddArcKeepsAcyclic(arcs, from.node, to.node);
    }
  }

  /** Apply a batch one operation at a time, stopping at the first error. */
  method ApplyEach(g: Graph, ops: seq<GraphOp>) returns (r: Result<Graph, (nat, GraphError)>)
    ensures r == ApplyAll(g, ops)
  {
    var graph := g;
    for i := 0 to |ops|
      invariant ApplyAll(g, ops[..i]) == Ok(graph)
    {
      assert ops[..i + 1][..i] == ops[..i];
      match Apply(graph, ops[i])
      case Err(error) =>
        ErrorStops(g, ops, i + 1);
        return Err((i, error));
      case Ok(next) => graph := next;
    }
    assert ops[..|ops|] == ops;
    return Ok(graph);
  }

  /** The depth-first cycle check over the wire list. */
  method ReachesByStack(g: Graph, from: NodeId, to: NodeId) returns (found: bool)
    ensures found <==> Reaches(ArcsOf(g.edges), from, to)
  {
    ghost var arcs := ArcsOf(g.edges);
    ReachesSelf(arcs, from);
    if from == to {
      return true;
    }
    var stack := [from];
    var seen: set<NodeId> := {};
    ghost var open := {from};
    while stack != []
      invariant forall n :: n in stack || n in seen ==> Reaches(arcs, from, n)
      invariant to !in seen && from != to
      invariant open == set n | n in stack
      invariant open <= seen + {from}
      invariant forall a, b :: (a, b) in arcs && a in seen + {from} && a !in open ==> b in seen
      decreases Outside(arcs, seen), |stack|
    {
      var n := stack[|stack| - 1];
      stack := stack[..|stack| - 1];
      open := set m | m in stack;
      ghost var before, height := seen, |stack|;
      for i := 0 to |g.edges|
        invariant forall m :: m in stack || m in seen ==> Reaches(arcs, from, m)
        invariant to !in seen
        invariant open == set m | m in stack
        invariant open <= seen + {from}
        invariant forall a, b :: (a, b) in arcs && a in seen + {from} && a !in open && a != n ==> b in seen
        invariant forall k :: 0 <= k < i && g.edges[k].from.node == n ==> g.edges[k].to.node in seen
        invariant before <= seen
        invariant (seen == before && |stack| == height) || Outside(arcs, seen) < Outside(arcs, before)
      {
        var e := g.edges[i];
        if e.from.node == n {
          var next := e.to.node;
          assert (n, next) in arcs;
          ReachesStep(arcs, from, n, next);
          if next == to {
            return true;
          }
          if next !in seen {
            assert (n, next) in Outside(arcs, seen) && (n, next) !in Outside(arcs, seen + {next});
            seen := seen + {next};
            stack := stack + [next];
            open := open + {next};
          }
        }
      }
    }
    var closed := seen + {from};
    forall p | IsPath(arcs, p) && p[0] == from ensures p[|p| - 1] != to {
      ClosedKeepsPath(arcs, closed, p);
    }
    return false;
  }
}
