/** One editing session: the chain, the working graph, the uncommitted ledger,
    time travel and the caches. `Valid` is the invariant every method keeps. */
module Session {
  import opened Common
  import opened GraphModel
  import opened Blocks
  import opened History
  import opened Commitment
  import opened Ledger
  import opened Sizes
  import opened OpLog

  datatype SessionError =
    | ReadOnly
    | OpFailed(error: GraphError)
    | BatchFailed(index: nat, error: GraphError)
    | NothingToUndo
    | NothingToRedo
    | NothingToCommit
    | NotPristine
    | ChainFailed(chainError: ChainError)

  datatype MergeReport = MergeReport(appended: nat, dropped: nat)

  const ORIGIN := Pos(Finite(0.0), Finite(0.0))

  /** What evaluation depends on: everything but the layout. The evaluator is any
      pure function of this, so its argument stands for its output. */
  function Shape(g: Graph): Graph {
    g.(nodes := map id | id in g.nodes :: g.nodes[id].(pos := ORIGIN))
  }

  /** The characters `str::trim` removes: Unicode's White_Space. */
  predicate IsSpace(c: char) {
    || '\U{9}' <= c <= '\U{d}' || c == ' ' || c == '\U{85}' || c == '\U{a0}' || c == '\U{1680}'
    || '\U{2000}' <= c <= '\U{200a}' || c in ['\U{2028}', '\U{2029}', '\U{202f}', '\U{205f}', '\U{3000}']
  }

  /** A blank commit message is replaced. */
  function CommitMessage(message: string): string {
    if forall i :: 0 <= i < |message| ==> IsSpace(message[i]) then "(no message)" else message
  }

  /** A message with a visible character is sealed as it is, any other is replaced. */
  lemma CommitMessageMeans(message: string)
    ensures (exists i :: 0 <= i < |message| && !IsSpace(message[i])) ==> CommitMessage(message) == message
    ensures (forall i :: 0 <= i < |message| ==> IsSpace(message[i])) ==> CommitMessage(message) == "(no message)"
    ensures forall ch :: '!' <= ch <= '~' ==> !IsSpace(ch)
    ensures IsSpace(' ') && IsSpace('\t') && IsSpace('\n') && IsSpace('\r')
  {
  }

  /** A wrapping 64-bit counter. */
  function Bump(revision: nat): nat {
    (revision + 1) % 0x1_0000_0000_0000_0000
  }

  /** One or two changes never bring the counter back to where it was. */
  lemma BumpsDiffer(revision: nat)
    ensures Bump(revision) != revision && Bump(Bump(revision)) != revision
    ensures revision < 0xffff_ffff_ffff_ffff ==> Bump(revision) == revision + 1
    ensures Bump(0xffff_ffff_ffff_ffff) == 0
  {
  }

  /** The graph a history rebuilds. */
  function Rebuilt(blocks: seq<Block>): Graph {
    if ReplayBlocks(blocks).Ok? then ReplayBlocks(blocks).value else EMPTY
  }

  /** Replay of the chain plus the pending operations is the working graph, up to
      an in-flight gesture, and Undo and Redo stay replayable. */
  ghost predicate GraphMatchesLedger(base: Graph, book: Book, graph: Graph, gesture: Option<Gesture>, flipped: bool) {
    && BookOk(base, book)
    && Replays(base, book.pending)
    && Departs(ApplyAll(base, book.pending).value, graph, gesture, flipped)
  }

  /** The graph a gesture began with: the replay, but for the signs of zeros once
      an earlier gesture has ended on the other zero. */
  ghost predicate Began(rest: Graph, before: Graph, flipped: bool) {
    SameGraph(before, rest) && (!flipped ==> before == rest)
  }

  ghost predicate Departs(rest: Graph, graph: Graph, gesture: Option<Gesture>, flipped: bool) {
    exists before :: Began(rest, before, flipped) && Overlaid(before, graph, gesture)
  }

  lemma DepartsByNothing(rest: Graph, graph: Graph, flipped: bool)
    ensures Departs(rest, graph, None, flipped) <==> Began(rest, graph, flipped)
    ensures Began(graph, graph, false)
  {
    assert Began(rest, graph, flipped) ==> Overlaid(graph, graph, None);
  }

  /** A time-travel view is the replay through its block, strictly below the head. */
  ghost predicate ViewOk(blocks: seq<Block>, index: Option<nat>, view: Option<Graph>) {
    match index
    case None => view.None?
    case Some(i) => i + 1 < |blocks| && view == Some(Rebuilt(blocks[..i + 1]))
  }

  /** The session invariant on plain values. */
  ghost predicate Consistent(
    c: Primitives, blocks: seq<Block>, book: Book, graph: Graph, gesture: Option<Gesture>,
    index: Option<nat>, view: Option<Graph>, flipped: bool)
  {
    && History.Valid(c, blocks)
    && GraphMatchesLedger(Rebuilt(blocks), book, graph, gesture, flipped)
    && ViewOk(blocks, index, view)
    && (view.Some? ==> gesture.None?)
  }

  /** One live frame: a rejected operation leaves the graph alone. */
  function Live(g: Graph, op: GraphOp): Graph {
    if Apply(g, op).Ok? then Apply(g, op).value else g
  }

  /** Evaluation sees everything except where nodes stand. */
  lemma ShapeIsAllButLayout(g: Graph, h: Graph)
    ensures Shape(g) == Shape(h) <==>
      && g.edges == h.edges && g.nodes.Keys == h.nodes.Keys
      && forall id :: id in g.nodes ==>
           && g.nodes[id].id == h.nodes[id].id && g.nodes[id].typeName == h.nodes[id].typeName
           && g.nodes[id].params == h.nodes[id].params
  {
    var a, b := Shape(g), Shape(h);
    assert a.nodes.Keys == g.nodes.Keys && b.nodes.Keys == h.nodes.Keys;
    if a == b {
      forall id | id in g.nodes
        ensures g.nodes[id].id == h.nodes[id].id && g.nodes[id].typeName == h.nodes[id].typeName
        ensures g.nodes[id].params == h.nodes[id].params
      {
        assert a.nodes[id] == g.nodes[id].(pos := ORIGIN) && b.nodes[id] == h.nodes[id].(pos := ORIGIN);
      }
    } else if g.edges == h.edges && g.nodes.Keys == h.nodes.Keys {
      assert a.nodes != b.nodes;
      var id :| id in g.nodes && a.nodes[id] != b.nodes[id];
      assert a.nodes[id] == g.nodes[id].(pos := ORIGIN) && b.nodes[id] == h.nodes[id].(pos := ORIGIN);
    }
  }

  lemma MovesKeepShape(g: Graph, op: GraphOp)
    requires op.MoveNode?
    ensures Shape(Live(g, op)) == Shape(g)
  {
  }

  lemma ConsistentMeans(
    c: Primitives, blocks: seq<Block>, book: Book, graph: Graph, gesture: Option<Gesture>,
    index: Option<nat>, view: Option<Graph>, flipped: bool)
    requires Consistent(c, blocks, book, graph, gesture, index, view, flipped)
    ensures History.Valid(c, blocks) && blocks != [] && ReplayBlocks(blocks) == Ok(Rebuilt(blocks))
    ensures Replays(Rebuilt(blocks), book.pending)
    ensures gesture.None? ==> Began(ApplyAll(Rebuilt(blocks), book.pending).value, graph, flipped)
    ensures index.None? <==> view.None?
    ensures view.Some? ==> gesture.None?
    ensures index.Some? ==> index.value + 1 < |blocks|
  {
  }

  lemma FreshBookMatches(base: Graph, pending: seq<GraphOp>)
    requires Replays(base, pending)
    ensures GraphMatchesLedger(base, Book(pending, [], []), ApplyAll(base, pending).value, None, false)
  {
    hide Apply, SameGraph;
    DepartsByNothing(ApplyAll(base, pending).value, ApplyAll(base, pending).value, false);
    assert pending + Future([]) == pending;
  }

  lemma FreshIsConsistent(c: Primitives, blocks: seq<Block>, pending: seq<GraphOp>)
    requires History.Valid(c, blocks) && Replays(Rebuilt(blocks), pending)
    ensures Consistent(
      c, blocks, Book(pending, [], []), ApplyAll(Rebuilt(blocks), pending).value, None, None, None, false)
  {
    FreshBookMatches(Rebuilt(blocks), pending);
  }

  lemma {:induction false} SettlingKeepsConsistent(
    c: Primitives, blocks: seq<Block>, book: Book, graph: Graph, gesture: Option<Gesture>,
    index: Option<nat>, view: Option<Graph>, flipped: bool)
    requires Consistent(c, blocks, book, graph, gesture, index, view, flipped)
    ensures Consistent(
      c, blocks, Recorded(book, GestureOps(graph, gesture)), graph, None, index, view,
      flipped || ZeroFlips(graph, gesture))
    ensures gesture.None? ==> Recorded(book, GestureOps(graph, gesture)) == book
  {
    hide BookOk, GestureOps, History.Valid, ViewOk, Rebuilt, Overlaid, SameGraph, ZeroFlips;
    var ops, base := GestureOps(graph, gesture), Rebuilt(blocks);
    var rest := ApplyAll(base, book.pending).value;
    NoGestureNoOps(graph, book);
    var before :| Began(rest, before, flipped) && Overlaid(before, graph, gesture);
    GestureLosesNothing(before, graph, gesture);
    SameApplyAll(before, rest, ops);
    SameIsSymmetric(ApplyAll(before, ops).value, graph);
    SameIsTransitive(graph, ApplyAll(before, ops).value, ApplyAll(rest, ops).value);
    ApplyAllConcat(base, book.pending, ops);
    RecordedIsOk(base, book, ops);
    DepartsByNothing(ApplyAll(rest, ops).value, graph, flipped || ZeroFlips(graph, gesture));
    assert ops == [] ==> Recorded(book, ops) == book;
  }

  lemma SameIsSymmetric(g: Graph, h: Graph)
    requires SameGraph(g, h)
    ensures SameGraph(h, g)
  {
  }

  lemma SameIsTransitive(g: Graph, h: Graph, k: Graph)
    requires SameGraph(g, h) && SameGraph(h, k)
    ensures SameGraph(g, k)
  {
  }

  lemma NoGestureNoOps(graph: Graph, book: Book)
    ensures GestureOps(graph, None) == [] && Recorded(book, []) == book && !ZeroFlips(graph, None)
  {
  }

  lemma RecordingKeepsConsistent(
    c: Primitives, blocks: seq<Block>, book: Book, graph: Graph, ops: seq<GraphOp>, flipped: bool)
    requires Consistent(c, blocks, book, graph, None, None, None, flipped) && Replays(graph, ops)
    ensures Consistent(c, blocks, Recorded(book, ops), ApplyAll(graph, ops).value, None, None, None, flipped)
  {
    hide BookOk, Apply, ApplyAll, History.Valid, Rebuilt, SameGraph, Overlaid;
    var rest := ApplyAll(Rebuilt(blocks), book.pending).value;
    DepartsByNothing(rest, graph, flipped);
    SameApplyAll(graph, rest, ops);
    ApplyAllConcat(Rebuilt(blocks), book.pending, ops);
    RecordedIsOk(Rebuilt(blocks), book, ops);
    DepartsByNothing(ApplyAll(rest, ops).value, ApplyAll(graph, ops).value, flipped);
    RecordedPending(book, ops);
    NoOpsChangeNothing(graph, ops);
  }

  lemma RecordedPending(book: Book, ops: seq<GraphOp>)
    ensures Recorded(book, ops).pending == book.pending + ops
  {
  }

  lemma NoOpsChangeNothing(g: Graph, ops: seq<GraphOp>)
    ensures ops == [] ==> ApplyAll(g, ops) == Ok(g)
  {
  }

  lemma {:induction false} UndoKeepsConsistent(
    c: Primitives, blocks: seq<Block>, book: Book, graph: Graph, flipped: bool)
    requires Consistent(c, blocks, book, graph, None, None, None, flipped) && book.undo != []
    ensures book.undo[|book.undo| - 1] < |book.pending|
    ensures Replays(Rebuilt(blocks), Undone(book).pending)
    ensures Consistent(
      c, blocks, Undone(book), ApplyAll(Rebuilt(blocks), Undone(book).pending).value, None, None, None, false)
  {
    var base, book' := Rebuilt(blocks), Undone(book);
    UndoThenRedo(base, book);
    assert book.undo[|book.undo| - 1] < |book.pending|;
    hide BookOk, Apply, ApplyAll, Rebuilt, History.Valid;
    DepartsByNothing(ApplyAll(base, book'.pending).value, ApplyAll(base, book'.pending).value, false);
    assert GraphMatchesLedger(base, book', ApplyAll(base, book'.pending).value, None, false);
  }

  lemma {:induction false} RedoKeepsConsistent(
    c: Primitives, blocks: seq<Block>, book: Book, graph: Graph, flipped: bool)
    requires Consistent(c, blocks, book, graph, None, None, None, flipped) && book.redo != []
    ensures Replays(Rebuilt(blocks), Redone(book).pending)
    ensures Consistent(
      c, blocks, Redone(book), ApplyAll(Rebuilt(blocks), Redone(book).pending).value, None, None, None, false)
  {
    var base, book' := Rebuilt(blocks), Redone(book);
    RedoThenUndo(base, book);
    hide BookOk, Apply, ApplyAll, Rebuilt, History.Valid;
    DepartsByNothing(ApplyAll(base, book'.pending).value, ApplyAll(base, book'.pending).value, false);
    assert GraphMatchesLedger(base, book', ApplyAll(base, book'.pending).value, None, false);
  }

  lemma DepartsWith(rest: Graph, before: Graph, graph: Graph, gesture: Option<Gesture>, flipped: bool)
    requires Began(rest, before, flipped) && Overlaid(before, graph, gesture)
    ensures Departs(rest, graph, gesture, flipped)
  {
  }

  /** The first frame of a parameter drag. */
  lemma DragStartKeepsConsistent(
    c: Primitives, blocks: seq<Block>, book: Book, graph: Graph, id: NodeId, key: string, value: ParamValue,
    flipped: bool)
    requires Consistent(c, blocks, book, graph, None, None, None, flipped)
    ensures Consistent(c, blocks, book, Live(graph, SetParam(id, key, value)),
                       Some(Param(id, key, Lookup(graph, id, key), value)), None, None, flipped)
  {
    hide BookOk, ApplyAll, Rebuilt, History.Valid, Departs, Began;
    var rest := ApplyAll(Rebuilt(blocks), book.pending).value;
    DepartsByNothing(rest, graph, flipped);
    DepartsWith(rest, graph, Live(graph, SetParam(id, key, value)),
                Some(Param(id, key, Lookup(graph, id, key), value)), flipped);
  }

  lemma DragFrameOverlays(before: Graph, graph: Graph, drag: Gesture, value: ParamValue)
    requires drag.Param? && Overlaid(before, graph, Some(drag))
    ensures Overlaid(before, Live(graph, SetParam(drag.id, drag.key, value)), Some(drag.(last := value)))
  {
    if drag.id in before.nodes {
      var node := before.nodes[drag.id];
      assert node.params[drag.key := drag.last][drag.key := value] == node.params[drag.key := value];
      var once := node.(params := node.params[drag.key := value]);
      assert before.nodes[drag.id := graph.nodes[drag.id]][drag.id := once] == before.nodes[drag.id := once];
    }
  }

  /** A later frame overwrites the previous one. */
  lemma {:induction false} DragFrameKeepsConsistent(
    c: Primitives, blocks: seq<Block>, book: Book, graph: Graph, drag: Gesture, value: ParamValue, flipped: bool)
    requires drag.Param? && Consistent(c, blocks, book, graph, Some(drag), None, None, flipped)
    ensures Consistent(c, blocks, book, Live(graph, SetParam(drag.id, drag.key, value)),
                       Some(drag.(last := value)), None, None, flipped)
  {
    hide BookOk, ApplyAll, Rebuilt, History.Valid, Began, Overlaid, Live;
    var rest := ApplyAll(Rebuilt(blocks), book.pending).value;
    var before :| Began(rest, before, flipped) && Overlaid(before, graph, Some(drag));
    DragFrameOverlays(before, graph, drag, value);
    DepartsWith(rest, before, Live(graph, SetParam(drag.id, drag.key, value)), Some(drag.(last := value)), flipped);
  }

  lemma SetParamIsSeen(g: Graph, id: NodeId, key: string, value: ParamValue)
    ensures var live := Live(g, SetParam(id, key, value));
            id in live.nodes ==> Lookup(live, id, key) == Some(value)
  {
  }

  lemma MoveStartKeepsConsistent(
    c: Primitives, blocks: seq<Block>, book: Book, graph: Graph, from: map<NodeId, Pos>, flipped: bool)
    requires Consistent(c, blocks, book, graph, None, None, None, flipped)
    requires forall id :: id in from ==> id in graph.nodes && from[id] == graph.nodes[id].pos
    ensures Consistent(c, blocks, book, graph, Some(Move(from)), None, None, flipped)
  {
    hide BookOk, ApplyAll, Rebuilt, History.Valid, Departs, Began;
    var rest := ApplyAll(Rebuilt(blocks), book.pending).value;
    DepartsByNothing(rest, graph, flipped);
    DepartsWith(rest, graph, graph, Some(Move(from)), flipped);
  }

  lemma MoveFrameOverlays(before: Graph, graph: Graph, from: map<NodeId, Pos>, id: NodeId, pos: Pos)
    requires Overlaid(before, graph, Some(Move(from))) && id in from
    ensures Apply(graph, MoveNode(id, pos)).Ok?
    ensures Overlaid(before, Live(graph, MoveNode(id, pos)), Some(Move(from)))
  {
  }

  lemma {:induction false} MoveFrameKeepsConsistent(
    c: Primitives, blocks: seq<Block>, book: Book, graph: Graph, from: map<NodeId, Pos>, id: NodeId, pos: Pos,
    flipped: bool)
    requires Consistent(c, blocks, book, graph, Some(Move(from)), None, None, flipped) && id in from
    ensures Apply(graph, MoveNode(id, pos)).Ok?
    ensures Consistent(c, blocks, book, Live(graph, MoveNode(id, pos)), Some(Move(from)), None, None, flipped)
  {
    hide BookOk, Apply, ApplyAll, Rebuilt, History.Valid, Began, Overlaid, Live;
    var rest := ApplyAll(Rebuilt(blocks), book.pending).value;
    var before :| Began(rest, before, flipped) && Overlaid(before, graph, Some(Move(from)));
    MoveFrameOverlays(before, graph, from, id, pos);
    DepartsWith(rest, before, Live(graph, MoveNode(id, pos)), Some(Move(from)), flipped);
  }

  lemma ViewKeepsConsistent(
    c: Primitives, blocks: seq<Block>, book: Book, graph: Graph, index: Option<nat>, view: Option<Graph>, i: nat,
    flipped: bool)
    requires Consistent(c, blocks, book, graph, None, index, view, flipped)
    ensures i + 1 < |blocks| ==>
      && ReplayBlocks(blocks[..i + 1]) == Ok(Rebuilt(blocks[..i + 1]))
      && Consistent(c, blocks, book, graph, None, Some(i), Some(Rebuilt(blocks[..i + 1])), flipped)
    ensures Consistent(c, blocks, book, graph, None, None, None, flipped)
  {
    if i + 1 < |blocks| {
      PrefixIsValid(c, blocks, i + 1);
      ValidIsLinkedAndReplayable(c, blocks[..i + 1]);
    }
    hide History.Valid, ReplayBlocks, GraphMatchesLedger;
  }

  lemma ViewSurvivesGrowth(blocks: seq<Block>, longer: seq<Block>, index: Option<nat>, view: Option<Graph>)
    requires ViewOk(blocks, index, view) && blocks <= longer
    ensures ViewOk(longer, index, view)
  {
    hide Rebuilt;
    if index.Some? {
      assert longer[..index.value + 1] == blocks[..index.value + 1];
    }
  }

  /** Committing whatever is pending changes the replay base, not the graph. */
  lemma {:induction false} CommitKeepsConsistent(
    c: Primitives, blocks: seq<Block>, book: Book, graph: Graph, message: string, id: Identity, now: nat, flipped: bool)
    requires SignatureLaws(c) && Consistent(c, blocks, book, graph, None, None, None, flipped)
    ensures var r := AppendOutcome(c, blocks, book.pending, message, id, now);
            && (r.Ok? <==> book.pending != [] && FiniteOps(book.pending))
            && (r.Ok? ==> Carries(c, r.value, book.pending, message, id, now))
            && (r.Ok? ==> Began(Rebuilt(blocks + [r.value]), graph, flipped))
            && (r.Ok? ==> Consistent(c, blocks + [r.value], Book([], [], []), graph, None, None, None, flipped))
  {
    ConsistentMeans(c, blocks, book, graph, None, None, None, flipped);
    AppendIsExact(c, blocks, book.pending, message, id, now);
    var r := AppendOutcome(c, blocks, book.pending, message, id, now);
    if r.Ok? {
      var longer := blocks + [r.value];
      ValidIsLinkedAndReplayable(c, longer);
      hide Validate, ReplayBlocks, Carries, Began, SameGraph, AppendOutcome;
      ApplyNone(Rebuilt(longer), []);
      FreshIsConsistent(c, longer, []);
      DepartsByNothing(Rebuilt(longer), graph, flipped);
    }
    hide Validate, ReplayBlocks, ApplyAll, Carries, Departs, Began, SameGraph;
  }

  /** Merging rebuilds the graph from the longer chain and the operations kept;
      a time-travel view stays what it was. */
  lemma {:induction false} MergeKeepsConsistent(
    c: Primitives, blocks: seq<Block>, book: Book, graph: Graph, index: Option<nat>, view: Option<Graph>,
    offered: seq<Block>, flipped: bool)
    requires Consistent(c, blocks, book, graph, None, index, view, flipped)
    ensures match ExtendOutcome(c, blocks, offered)
            case Err(_) => true
            case Ok((longer, base)) =>
              var merged := Rebased(base, book.pending);
              && base == Rebuilt(longer) && ReplayBlocks(longer) == Ok(base)
              && Consistent(c, longer, Book(merged.kept, [], []), merged.graph, None, index, view, false)
  {
    ExtensionRefinesValidation(c, blocks, offered);
    var r := ExtendOutcome(c, blocks, offered);
    if r.Ok? {
      var (longer, base) := r.value;
      ValidIsLinkedAndReplayable(c, longer);
      RebaseReplays(base, book.pending);
      FreshBookMatches(base, Rebased(base, book.pending).kept);
      ViewSurvivesGrowth(blocks, longer, index, view);
    }
    hide Validate, ReplayBlocks, ApplyAll, GraphMatchesLedger, ViewOk, ExtendOutcome;
  }

  lemma AdoptedIsConsistent(c: Primitives, blocks: seq<Block>)
    requires History.Valid(c, blocks)
    ensures Validate(c, blocks) == Ok(Rebuilt(blocks))
    ensures Consistent(c, blocks, Book([], [], []), Rebuilt(blocks), None, None, None, false)
  {
    ValidIsLinkedAndReplayable(c, blocks);
    ApplyNone(Rebuilt(blocks), []);
    FreshIsConsistent(c, blocks, []);
    hide Consistent, ReplayBlocks;
  }

  lemma GenesisHasNoOps(c: Primitives, blocks: seq<Block>)
    requires History.Valid(c, blocks)
    ensures |blocks| == 1 ==> OpsOf(blocks) == []
  {
    hide ValidateGenesis, ReplayBlocks, LinkError;
    GenesisOfLinked(c, blocks[0]);
    if |blocks| == 1 {
      assert blocks[..0] == [];
    }
  }

  class Document {
    var chain: Chain
    var graph: Graph
    var pending: seq<GraphOp>
    var recovery: seq<GraphOp>
    var undoHistory: seq<nat>
    var redoHistory: seq<seq<GraphOp>>
    var identity: Identity
    var lastEval: Option<Graph>
    var viewIndex: Option<nat>
    var viewGraph: Option<Graph>
    var gesture: Option<Gesture>
    var evalDirty: bool
    var revision: nat
    var sizes: ChainSizes
    ghost var measured: seq<Block>
    // a gesture has ended on the other zero since the graph was last rebuilt
    ghost var flipped: bool

    ghost predicate Valid()
      reads this, chain
    {
      && Consistent(chain.crypto, chain.blocks, Books(), graph, gesture, viewIndex, viewGraph, flipped)
      && (!evalDirty ==> lastEval == Some(Shape(Displayed())))
      && CacheOk(chain.crypto, sizes, measured)
    }

    ghost function Books(): Book
      reads this
    {
      Book(pending, undoHistory, redoHistory)
    }

    /** The books once the gesture in flight has been recorded. */
    ghost function Settled(): Book
      reads this
    {
      Recorded(Books(), GestureOps(graph, gesture))
    }

    /** Whether the gesture in flight, or one before it, ends on the other zero. */
    ghost predicate SettledFlips()
      reads this
    {
      flipped || ZeroFlips(graph, gesture)
    }

    /** What an autosave must not miss a change of. */
    ghost function Saved(): (seq<Block>, seq<GraphOp>, seq<GraphOp>)
      reads this, chain
    {
      (chain.blocks, pending, recovery)
    }

    function Displayed(): Graph
      reads this
    {
      if viewGraph.Some? then viewGraph.value else graph
    }

    predicate Editable()
      reads this
    {
      viewGraph.None?
    }

    constructor WithChain(identity: Identity, chain: Chain)
      requires History.Valid(chain.crypto, chain.blocks) && Rebuilt(chain.blocks) == EMPTY
      ensures Valid() && this.chain == chain && Books() == Book([], [], []) && graph == EMPTY
      ensures recovery == [] && viewIndex.None? && gesture.None? && !flipped
    {
      this.chain := chain;
      graph := EMPTY;
      pending, recovery, undoHistory, redoHistory := [], [], [], [];
      this.identity := identity;
      lastEval, viewIndex, viewGraph, gesture := None, None, None, None;
      evalDirty := true;
      revision := 0;
      sizes := NO_SIZES;
      measured := [];
      flipped := false;
      new;
      FreshIsConsistent(chain.crypto, chain.blocks, []);
      ApplyNone(EMPTY, []);
      hide Consistent, ApplyAll;
    }

    /** A document over an already replayed snapshot. */
    constructor Snapshot(identity: Identity, chain: Chain, graph: Graph, pending: seq<GraphOp>, recovery: seq<GraphOp>)
      requires History.Valid(chain.crypto, chain.blocks) && ApplyAll(Rebuilt(chain.blocks), pending) == Ok(graph)
      ensures Valid() && this.chain == chain && Books() == Book(pending, [], []) && this.graph == graph
      ensures this.recovery == recovery && viewIndex.None? && gesture.None? && !flipped
    {
      this.chain := chain;
      this.graph := graph;
      this.pending, this.recovery, undoHistory, redoHistory := pending, recovery, [], [];
      this.identity := identity;
      lastEval, viewIndex, viewGraph, gesture := None, None, None, None;
      evalDirty := true;
      revision := 0;
      sizes := NO_SIZES;
      measured := [];
      flipped := false;
      new;
      FreshIsConsistent(chain.crypto, chain.blocks, pending);
      hide Consistent, ApplyAll;
    }

    /** Restore and fully validate a durable snapshot; all or nothing. */
    static method Restore(
      crypto: Primitives, identity: Identity, blocks: seq<Block>, pending: seq<GraphOp>,
      recovery: seq<GraphOp>, view: Option<nat>
    ) returns (r: Result<Document, SessionError>)
      ensures r.Ok? <==> History.Valid(crypto, blocks) && Replays(ReplayBlocks(blocks).value, pending)
      ensures r.Ok? ==>
        var d := r.value;
        && fresh(d) && fresh(d.chain) && d.Valid()
        && d.chain.crypto == crypto && d.Saved() == (blocks, pending, recovery)
        && d.undoHistory == [] && d.redoHistory == [] && d.gesture.None? && !d.flipped
        && d.viewIndex == if view.Some? && view.value + 1 < |blocks| then view else None
    {
      hide Consistent, CacheOk, ZeroFlips, GestureOps, Recorded, Shape, LinkError, ValidateGenesis, ApplyAll,
          ReplayBlocks;
      var chain := new Chain.FromBlocks(crypto, blocks);
      var validated := chain.ValidateAndReplay();
      ValidIsLinkedAndReplayable(crypto, blocks);
      if validated.Err? {
        return Err(ChainFailed(validated.error));
      }
      var applied := ApplyEach(validated.value, pending);
      if applied.Err? {
        return Err(BatchFailed(applied.error.0, applied.error.1));
      }
      var d := new Document.Snapshot(identity, chain, applied.value, pending, recovery);
      NoGestureNoOps(d.graph, d.Books());
      d.SetView(view);
      return Ok(d);
    }

    // ------------------------------------------------------------------
    // time travel and evaluation
    // ------------------------------------------------------------------

    /** Enter or leave time travel; an index at or past the head returns to it. */
    method SetView(index: Option<nat>)
      requires Valid()
      modifies this`gesture, this`flipped, this`pending, this`undoHistory, this`redoHistory, this`revision
      modifies this`viewIndex, this`viewGraph, this`evalDirty
      ensures Valid()
      ensures flipped ==> old(SettledFlips())
      ensures viewIndex == if index.Some? && index.value + 1 < |chain.blocks| then index else None
      ensures if viewIndex == old(viewIndex) then Books() == old(Books()) && gesture == old(gesture)
              else Books() == old(Settled()) && gesture.None? && evalDirty
      ensures revision == old(revision) ==> Saved() == old(Saved())
    {
      hide Consistent, CacheOk, ZeroFlips, Began, Apply, ApplyAll, ReplayBlocks, Rebuilt, GestureOps, Shape, Bump;
      hide History.Valid, AppendOutcome, ExtendOutcome, FiniteOps, Recorded;
      ConsistentMeans(chain.crypto, chain.blocks, Books(), graph, gesture, viewIndex, viewGraph, flipped);
      var target := if index.Some? && index.value + 1 < |chain.blocks| then index else None;
      if target == viewIndex {
        return;
      }
      BumpsDiffer(revision);
      EndGesture();
      match target {
        case Some(i) =>
          ViewKeepsConsistent(chain.crypto, chain.blocks, Books(), graph, viewIndex, viewGraph, i, flipped);
          var view := chain.Replay(Some(i));
          viewIndex := Some(i);
          viewGraph := Some(view.value);
        case None =>
          ViewKeepsConsistent(chain.crypto, chain.blocks, Books(), graph, viewIndex, viewGraph, 0, flipped);
          viewIndex := None;
          viewGraph := None;
      }
      evalDirty := true;
    }

    /** Evaluate the displayed graph unless the stored output is current. */
    method Evaluate()
      requires Valid()
      modifies this`lastEval, this`evalDirty
      ensures Valid() && !evalDirty
      ensures lastEval == Some(Shape(Displayed()))
    {
      hide Consistent, CacheOk;
      if !evalDirty {
        return;
      }
      lastEval := Some(Shape(Displayed()));
      evalDirty := false;
    }

    // ------------------------------------------------------------------
    // recorded edits
    // ------------------------------------------------------------------

    method InvalidateFor(op: GraphOp)
      modifies this`evalDirty
      ensures evalDirty == (old(evalDirty) || !op.MoveNode?)
    {
      if !op.MoveNode? {
        evalDirty := true;
      }
    }

    method PersistedChange()
      modifies this`revision
      ensures revision == Bump(old(revision))
    {
      revision := (revision + 1) % 0x1_0000_0000_0000_0000;
    }

    method RecordHistoryBoundary()
      modifies this`undoHistory, this`redoHistory
      ensures undoHistory == old(undoHistory) + [|pending|] && redoHistory == []
    {
      undoHistory := undoHistory + [|pending|];
      redoHistory := [];
    }

    /** Record operations already applied as one undo step. */
    method Record(ops: seq<GraphOp>)
      requires ops != []
      modifies this`pending, this`undoHistory, this`redoHistory, this`revision
      ensures Books() == Recorded(old(Books()), ops) && revision == Bump(old(revision))
    {
      RecordHistoryBoundary();
      pending := pending + ops;
      PersistedChange();
    }

    /** Mark the evaluation stale unless every operation is a mere move. */
    method InvalidateForEach(ghost next: Graph, ops: seq<GraphOp>)
      requires ApplyAll(graph, ops) == Ok(next)
      requires !evalDirty ==> lastEval == Some(Shape(graph))
      modifies this`evalDirty
      ensures !evalDirty ==> lastEval == Some(Shape(next))
    {
      hide Apply, ApplyAll, Shape;
      ApplyNone(graph, ops);
      for i := 0 to |ops|
        invariant Replays(graph, ops[..i])
        invariant !evalDirty ==> lastEval == Some(Shape(ApplyAll(graph, ops[..i]).value))
      {
        assert ops[..i + 1] == ops[..i] + [ops[i]];
        ApplyAllConcat(graph, ops[..i + 1], ops[i + 1..]);
        assert ops == ops[..i + 1] + ops[i + 1..];
        ApplyAllSnoc(graph, ops[..i], ops[i]);
        if ops[i].MoveNode? {
          MovesKeepShape(ApplyAll(graph, ops[..i]).value, ops[i]);
        }
        InvalidateFor(ops[i]);
      }
      assert ops[..|ops|] == ops;
    }

    /** Take the graph that operations lead to and record them. */
    method Accept(ops: seq<GraphOp>, next: Graph)
      requires ops != [] && ApplyAll(graph, ops) == Ok(next)
      requires !evalDirty ==> lastEval == Some(Shape(graph))
      modifies this`pending, this`undoHistory, this`redoHistory, this`revision, this`graph, this`evalDirty
      ensures graph == next && Books() == Recorded(old(Books()), ops) && revision == Bump(old(revision))
      ensures !evalDirty ==> lastEval == Some(Shape(next))
    {
      hide Recorded, Shape, ApplyAll, Bump;
      InvalidateForEach(next, ops);
      graph := next;
      Record(ops);
    }

    /** Apply an operation and record it as one undo step. */
    method ApplyOp(op: GraphOp) returns (r: Result<(), SessionError>)
      requires Valid()
      modifies this`gesture, this`flipped, this`pending, this`undoHistory, this`redoHistory, this`revision
      modifies this`graph, this`evalDirty
      ensures Valid()
      ensures flipped ==> old(SettledFlips())
      ensures !old(Editable()) ==> r == Err(ReadOnly) && Books() == old(Books()) && graph == old(graph)
      ensures old(Editable()) ==>
        && gesture.None?
        && match Apply(old(graph), op)
           case Ok(g) => r == Ok(()) && graph == g && Books() == Recorded(old(Settled()), [op])
           case Err(e) => r == Err(OpFailed(e)) && graph == old(graph) && Books() == old(Settled())
      ensures revision == old(revision) ==> Saved() == old(Saved())
    {
      hide Consistent, CacheOk, ZeroFlips, Began, Apply, ApplyAll, ReplayBlocks, Rebuilt, GestureOps, Shape, Bump;
      hide History.Valid, AppendOutcome, ExtendOutcome, FiniteOps;
      ConsistentMeans(chain.crypto, chain.blocks, Books(), graph, gesture, viewIndex, viewGraph, flipped);
      BumpsDiffer(revision);
      if !Editable() {
        return Err(ReadOnly);
      }
      EndGesture();
      var applied := Apply(graph, op);
      if applied.Err? {
        return Err(OpFailed(applied.error));
      }
      SingleOp(graph, op);
      RecordingKeepsConsistent(chain.crypto, chain.blocks, Books(), graph, [op], flipped);
      Accept([op], applied.value);
      return Ok(());
    }

    /** A one-shot parameter change. */
    method SetParamOnce(id: NodeId, key: string, value: ParamValue) returns (r: Result<(), SessionError>)
      requires Valid()
      modifies this`gesture, this`flipped, this`pending, this`undoHistory, this`redoHistory, this`revision
      modifies this`graph, this`evalDirty
      ensures Valid()
      ensures flipped ==> old(SettledFlips())
      ensures r.Ok? <==> old(Editable()) && id in old(graph).nodes
      ensures r.Ok? ==> Lookup(graph, id, key) == Some(value)
      ensures r.Ok? ==> Books() == Recorded(old(Settled()), [SetParam(id, key, value)])
    {
      hide Consistent, CacheOk;
      r := ApplyOp(SetParam(id, key, value));
    }

    /** Apply several operations as one user action; a failing batch changes
        nothing, not even the gesture. */
    method ApplyOps(ops: seq<GraphOp>) returns (r: Result<nat, SessionError>)
      requires Valid()
      modifies this`gesture, this`flipped, this`pending, this`undoHistory, this`redoHistory, this`revision
      modifies this`graph, this`evalDirty
      ensures Valid()
      ensures flipped ==> old(SettledFlips())
      ensures r.Err? || ops == [] ==> Books() == old(Books()) && graph == old(graph) && gesture == old(gesture)
      ensures !old(Editable()) ==> r == Err(ReadOnly)
      ensures old(Editable()) ==>
        match ApplyAll(old(graph), ops)
        case Err((i, e)) => r == Err(BatchFailed(i, e))
        case Ok(g) =>
          && r == Ok(|ops|) && graph == g
          && (ops != [] ==> gesture.None? && Books() == Recorded(old(Settled()), ops))
      ensures revision == old(revision) ==> Saved() == old(Saved())
    {
      hide Consistent, CacheOk, ZeroFlips, Began, Apply, ApplyAll, ReplayBlocks, Rebuilt, GestureOps, Shape, Bump;
      hide History.Valid, AppendOutcome, ExtendOutcome, FiniteOps;
      ConsistentMeans(chain.crypto, chain.blocks, Books(), graph, gesture, viewIndex, viewGraph, flipped);
      BumpsDiffer(revision);
      if !Editable() {
        return Err(ReadOnly);
      }
      if ops == [] {
        ApplyNone(graph, []);
        return Ok(0);
      }
      var next := ApplyEach(graph, ops);
      if next.Err? {
        return Err(BatchFailed(next.error.0, next.error.1));
      }
      EndGesture();
      RecordingKeepsConsistent(chain.crypto, chain.blocks, Books(), graph, ops, flipped);
      Accept(ops, next.value);
      return Ok(|ops|);
    }

    // ------------------------------------------------------------------
    // undo and redo
    // ------------------------------------------------------------------

    method ReplayPending(ops: seq<GraphOp>) returns (r: Result<Graph, (nat, GraphError)>)
      requires History.Valid(chain.crypto, chain.blocks)
      ensures r == ApplyAll(Rebuilt(chain.blocks), ops)
    {
      ValidIsLinkedAndReplayable(chain.crypto, chain.blocks);
      hide ReplayBlocks, Validate;
      var replayed := chain.Replay(None);
      r := ApplyEach(replayed.value, ops);
    }

    /** Replace the books together with the graph they rebuild. */
    method Travel(book: Book, rebuilt: Graph)
      modifies this`pending, this`undoHistory, this`redoHistory, this`revision, this`flipped
      modifies this`graph, this`evalDirty
      ensures Books() == book && graph == rebuilt && !flipped && evalDirty && revision == Bump(old(revision))
    {
      pending, undoHistory, redoHistory := book.pending, book.undo, book.redo;
      graph := rebuilt;
      flipped := false;
      PersistedChange();
      evalDirty := true;
    }

    /** Undo one uncommitted edit. Its replay cannot fail. */
    method UndoPending() returns (r: Result<nat, SessionError>)
      requires Valid()
      modifies this`gesture, this`flipped, this`pending, this`undoHistory, this`redoHistory, this`revision
      modifies this`graph, this`evalDirty
      ensures Valid()
      ensures flipped ==> old(SettledFlips())
      ensures !old(Editable()) ==> r == Err(ReadOnly) && Books() == old(Books()) && graph == old(graph)
      ensures old(Editable()) ==> gesture.None?
      ensures old(Editable()) && old(Settled()).undo == [] ==>
        r == Err(NothingToUndo) && Books() == old(Settled()) && graph == old(graph)
      ensures old(Editable()) && old(Settled()).undo != [] ==>
        && old(Settled()).undo[|old(Settled()).undo| - 1] < |old(Settled()).pending|
        && Books() == Undone(old(Settled()))
        && r == Ok(|old(Settled()).pending| - |pending|)
        && ApplyAll(Rebuilt(chain.blocks), pending) == Ok(graph) && !flipped
      ensures revision == old(revision) ==> Saved() == old(Saved())
    {
      hide Consistent, CacheOk, ZeroFlips, Began, Apply, ApplyAll, ReplayBlocks, Rebuilt, GestureOps, Shape, Bump;
      hide History.Valid, AppendOutcome, ExtendOutcome, FiniteOps, Recorded;
      ConsistentMeans(chain.crypto, chain.blocks, Books(), graph, gesture, viewIndex, viewGraph, flipped);
      BumpsDiffer(revision);
      if !Editable() {
        return Err(ReadOnly);
      }
      EndGesture();
      if undoHistory == [] {
        return Err(NothingToUndo);
      }
      UndoKeepsConsistent(chain.crypto, chain.blocks, Books(), graph, flipped);
      var previous := undoHistory[|undoHistory| - 1];
      var replayed := ReplayPending(pending[..previous]);
      var removed := pending[previous..];
      Travel(Book(pending[..previous], undoHistory[..|undoHistory| - 1], redoHistory + [removed]), replayed.value);
      return Ok(|removed|);
    }

    /** Redo one undone edit. Its replay cannot fail. */
    method RedoPending() returns (r: Result<nat, SessionError>)
      requires Valid()
      modifies this`gesture, this`flipped, this`pending, this`undoHistory, this`redoHistory, this`revision
      modifies this`graph, this`evalDirty
      ensures Valid()
      ensures flipped ==> old(SettledFlips())
      ensures !old(Editable()) ==> r == Err(ReadOnly) && Books() == old(Books()) && graph == old(graph)
      ensures old(Editable()) ==> gesture.None?
      ensures old(Editable()) && old(Settled()).redo == [] ==>
        r == Err(NothingToRedo) && Books() == old(Settled()) && graph == old(graph)
      ensures old(Editable()) && old(Settled()).redo != [] ==>
        && Books() == Redone(old(Settled()))
        && r == Ok(|pending| - |old(Settled()).pending|)
        && ApplyAll(Rebuilt(chain.blocks), pending) == Ok(graph) && !flipped
      ensures revision == old(revision) ==> Saved() == old(Saved())
    {
      hide Consistent, CacheOk, ZeroFlips, Began, Apply, ApplyAll, ReplayBlocks, Rebuilt, GestureOps, Shape, Bump;
      hide History.Valid, AppendOutcome, ExtendOutcome, FiniteOps, Recorded;
      ConsistentMeans(chain.crypto, chain.blocks, Books(), graph, gesture, viewIndex, viewGraph, flipped);
      BumpsDiffer(revision);
      if !Editable() {
        return Err(ReadOnly);
      }
      EndGesture();
      if redoHistory == [] {
        return Err(NothingToRedo);
      }
      RedoKeepsConsistent(chain.crypto, chain.blocks, Books(), graph, flipped);
      var next := redoHistory[|redoHistory| - 1];
      var replayed := ReplayPending(pending + next);
      Travel(Book(pending + next, undoHistory + [|pending|], redoHistory[..|redoHistory| - 1]), replayed.value);
      return Ok(|next|);
    }

    // ------------------------------------------------------------------
    // gestures
    // ------------------------------------------------------------------

    /** Change the graph without recording (one frame of a gesture). */
    method ApplyLive(op: GraphOp)
      requires !evalDirty ==> lastEval == Some(Shape(Displayed()))
      modifies this`graph, this`evalDirty
      ensures graph == Live(old(graph), op)
      ensures !evalDirty ==> lastEval == Some(Shape(Displayed()))
    {
      hide Apply, Shape;
      var applied := Apply(graph, op);
      if applied.Ok? {
        if op.MoveNode? {
          MovesKeepShape(graph, op);
        }
        graph := applied.value;
        InvalidateFor(op);
      }
    }

    /** One frame of a parameter drag. */
    method ParamDrag(id: NodeId, key: string, value: ParamValue)
      requires Valid()
      modifies this`gesture, this`flipped, this`pending, this`undoHistory, this`redoHistory, this`revision
      modifies this`graph, this`evalDirty
      ensures Valid()
      ensures flipped ==> old(SettledFlips())
      ensures !old(Editable()) ==> gesture == old(gesture) && graph == old(graph) && Books() == old(Books())
      ensures old(Editable()) ==>
        && (gesture.Some? && gesture.value.Param? && gesture.value.id == id && gesture.value.key == key
            && gesture.value.last == value)
        && gesture.value.start == (
             if old(gesture.Some? && gesture.value.Param? && gesture.value.id == id && gesture.value.key == key)
             then old(gesture).value.start else Lookup(old(graph), id, key))
        && graph == Live(old(graph), SetParam(id, key, value))
        && (id in graph.nodes ==> Lookup(graph, id, key) == Some(value))
        && Books() == (
             if old(gesture.Some? && gesture.value.Param? && gesture.value.id == id && gesture.value.key == key)
             then old(Books()) else old(Settled()))
      ensures revision == old(revision) ==> Saved() == old(Saved())
    {
      hide Consistent, CacheOk, ZeroFlips, Began, Apply, ApplyAll, ReplayBlocks, Rebuilt, GestureOps, Shape, Bump;
      hide History.Valid, AppendOutcome, ExtendOutcome, FiniteOps, Recorded, Live;
      ConsistentMeans(chain.crypto, chain.blocks, Books(), graph, gesture, viewIndex, viewGraph, flipped);
      BumpsDiffer(revision);
      if !Editable() {
        return;
      }
      var matching := gesture.Some? && gesture.value.Param? && gesture.value.id == id && gesture.value.key == key;
      SetParamIsSeen(graph, id, key, value);
      if !matching {
        EndGesture();
        DragStartKeepsConsistent(chain.crypto, chain.blocks, Books(), graph, id, key, value, flipped);
        Frame(Param(id, key, Lookup(graph, id, key), value), SetParam(id, key, value));
      } else {
        DragFrameKeepsConsistent(chain.crypto, chain.blocks, Books(), graph, gesture.value, value, flipped);
        Frame(gesture.value.(last := value), SetParam(id, key, value));
      }
    }

    /** One frame: the gesture so far and the live change it makes. */
    method Frame(drag: Gesture, op: GraphOp)
      requires !evalDirty ==> lastEval == Some(Shape(Displayed()))
      modifies this`gesture, this`graph, this`evalDirty
      ensures gesture == Some(drag) && graph == Live(old(graph), op)
      ensures !evalDirty ==> lastEval == Some(Shape(Displayed()))
    {
      hide Live, Shape;
      gesture := Some(drag);
      ApplyLive(op);
    }

    /** Finish a parameter gesture: one operation, or none when nothing changed
        or the node is gone. */
    method EndParamDrag()
      modifies this`gesture, this`flipped, this`pending, this`undoHistory, this`redoHistory, this`revision
      ensures !old(gesture.Some? && gesture.value.Param?) ==>
        gesture == old(gesture) && Books() == old(Books()) && revision == old(revision) && flipped == old(flipped)
      ensures old(gesture.Some? && gesture.value.Param?) ==>
        && gesture.None? && Books() == old(Settled()) && flipped == old(SettledFlips())
        && revision == if GestureOps(graph, old(gesture)) == [] then old(revision) else Bump(old(revision))
    {
      if gesture.None? || !gesture.value.Param? {
        return;
      }
      flipped := SettledFlips();
      var Param(id, key, start, last) := gesture.value;
      gesture := None;
      if id !in graph.nodes {
        return;
      }
      if start.Some? && ParamEq(start.value, last) {
        return;
      }
      RecordHistoryBoundary();
      pending := pending + [SetParam(id, key, last)];
      PersistedChange();
    }

    /** Where the known ones of these nodes are. */
    static method Positions(g: Graph, ids: seq<NodeId>) returns (start: map<NodeId, Pos>)
      ensures start.Keys == set id | id in ids && id in g.nodes
      ensures forall id :: id in start ==> start[id] == g.nodes[id].pos
    {
      start := map[];
      for i := 0 to |ids|
        invariant start.Keys == set id | id in ids[..i] && id in g.nodes
        invariant forall id :: id in start ==> start[id] == g.nodes[id].pos
      {
        assert forall x :: x in ids[..i + 1] <==> x in ids[..i] || x == ids[i];
        if ids[i] in g.nodes {
          start := start[ids[i] := g.nodes[ids[i]].pos];
        }
      }
      assert ids[..|ids|] == ids;
    }

    /** Start dragging nodes, snapshotting where the known ones are. */
    method BeginMove(ids: seq<NodeId>)
      requires Valid()
      modifies this`gesture, this`flipped, this`pending, this`undoHistory, this`redoHistory, this`revision
      ensures Valid()
      ensures flipped ==> old(SettledFlips())
      ensures if old(Editable()) then Books() == old(Settled()) else Books() == old(Books()) && gesture == old(gesture)
      ensures old(Editable()) ==>
        var known := set id | id in ids && id in graph.nodes;
        if known == {} then gesture.None?
        else gesture.Some? && gesture.value.Move? && gesture.value.from.Keys == known
             && forall id :: id in known ==> gesture.value.from[id] == graph.nodes[id].pos
      ensures revision == old(revision) ==> Saved() == old(Saved())
    {
      hide Consistent, CacheOk, ZeroFlips, Began, Apply, ApplyAll, ReplayBlocks, Rebuilt, GestureOps, Shape, Bump;
      hide History.Valid, AppendOutcome, ExtendOutcome, FiniteOps, Recorded;
      ConsistentMeans(chain.crypto, chain.blocks, Books(), graph, gesture, viewIndex, viewGraph, flipped);
      BumpsDiffer(revision);
      if !Editable() {
        return;
      }
      EndGesture();
      var start := Positions(graph, ids);
      if start != map[] {
        MoveStartKeepsConsistent(chain.crypto, chain.blocks, Books(), graph, start, flipped);
        gesture := Some(Move(start));
      }
    }

    /** One frame of a node drag; only nodes the gesture holds may move. */
    method MoveLive(id: NodeId, pos: Pos)
      requires Valid()
      modifies this`graph, this`evalDirty
      ensures Valid()
      ensures if old(Editable() && gesture.Some? && gesture.value.Move? && id in gesture.value.from)
              then Apply(old(graph), MoveNode(id, pos)) == Ok(graph)
              else graph == old(graph)
    {
      hide Consistent, CacheOk, ZeroFlips, Began, Apply, ApplyAll, ReplayBlocks, Rebuilt, GestureOps, Shape, Bump;
      hide History.Valid, AppendOutcome, ExtendOutcome, FiniteOps;
      ConsistentMeans(chain.crypto, chain.blocks, Books(), graph, gesture, viewIndex, viewGraph, flipped);
      if !Editable() {
        return;
      }
      if gesture.Some? && gesture.value.Move? && id in gesture.value.from {
        MoveFrameKeepsConsistent(chain.crypto, chain.blocks, Books(), graph, gesture.value.from, id, pos, flipped);
        ApplyLive(MoveNode(id, pos));
      }
    }

    /** Walk the start positions in id order. */
    static method CollectMoves(g: Graph, start: map<NodeId, Pos>) returns (ops: seq<GraphOp>)
      ensures ops == MoveOps(g, start)
    {
      NoMoves(g);
      hide MoveOps, PosEq;
      ops := [];
      var rest := start;
      while rest != map[]
        invariant ops + MoveOps(g, rest) == MoveOps(g, start)
        decreases |rest|
      {
        MoveOpsStep(g, ops, rest);
        var id := MinOf(rest.Keys);
        if id in g.nodes {
          var pos := g.nodes[id].pos;
          if !PosEq(pos, rest[id]) {
            ops := ops + [MoveNode(id, pos)];
          }
        }
        rest := rest - {id};
      }
    }

    /** Finish a node drag: one move per node that moved. */
    method EndMove()
      modifies this`gesture, this`flipped, this`pending, this`undoHistory, this`redoHistory, this`revision
      ensures !old(gesture.Some? && gesture.value.Move?) ==>
        gesture == old(gesture) && Books() == old(Books()) && revision == old(revision) && flipped == old(flipped)
      ensures old(gesture.Some? && gesture.value.Move?) ==>
        && gesture.None? && Books() == old(Settled()) && flipped == old(SettledFlips())
        && revision == if GestureOps(graph, old(gesture)) == [] then old(revision) else Bump(old(revision))
    {
      if gesture.None? || !gesture.value.Move? {
        return;
      }
      flipped := SettledFlips();
      var start := gesture.value.from;
      gesture := None;
      var ops := CollectMoves(graph, start);
      if ops != [] {
        RecordHistoryBoundary();
        pending := pending + ops;
        PersistedChange();
      }
    }

    /** Finish whatever gesture is active. */
    method EndGesture()
      requires Valid()
      modifies this`gesture, this`flipped, this`pending, this`undoHistory, this`redoHistory, this`revision
      ensures Valid() && gesture.None? && Books() == old(Settled()) && flipped == old(SettledFlips())
      ensures revision == if GestureOps(graph, old(gesture)) == [] then old(revision) else Bump(old(revision))
      ensures revision == old(revision) ==> Saved() == old(Saved())
    {
      BumpsDiffer(revision);
      hide Consistent, CacheOk, ZeroFlips, Began, Apply, ApplyAll, ReplayBlocks, Rebuilt, GestureOps, Shape, Bump;
      hide History.Valid, AppendOutcome, ExtendOutcome, FiniteOps;
      SettlingKeepsConsistent(chain.crypto, chain.blocks, Books(), graph, gesture, viewIndex, viewGraph, flipped);
      NoGestureNoOps(graph, Books());
      match gesture {
        case Some(Param(_, _, _, _)) => EndParamDrag();
        case Some(Move(_)) => EndMove();
        case None =>
      }
    }

    // ------------------------------------------------------------------
    // commit, merge, adopt
    // ------------------------------------------------------------------

    /** Seal the pending operations into a signed block. Everything pending and
        finite commits, and the working graph stays what it was. */
    method Commit(message: string, now: nat) returns (r: Result<nat, SessionError>)
      requires Valid() && SignatureLaws(chain.crypto)
      modifies this`gesture, this`flipped, this`pending, this`undoHistory, this`redoHistory, this`revision
      modifies chain
      ensures Valid() && gesture.None?
      ensures flipped ==> old(SettledFlips())
      ensures r.Ok? <==> old(Editable()) && old(Settled()).pending != [] && FiniteOps(old(Settled()).pending)
      ensures r.Err? ==> chain.blocks == old(chain.blocks) && Books() == old(Settled())
      ensures r.Ok? ==>
        && Books() == Book([], [], [])
        && r.value == |old(Settled()).pending|
        && |chain.blocks| == |old(chain.blocks)| + 1 && old(chain.blocks) <= chain.blocks
        && Carries(chain.crypto, chain.blocks[|chain.blocks| - 1], old(Settled()).pending,
                   CommitMessage(message), identity, now)
        && Began(Rebuilt(chain.blocks), graph, flipped)
      ensures !old(Editable()) ==> r == Err(ReadOnly)
      ensures old(Editable()) && old(Settled()).pending == [] ==> r == Err(NothingToCommit)
      ensures revision == old(revision) ==> Saved() == old(Saved())
    {
      hide Consistent, CacheOk, ZeroFlips, Began, Apply, ApplyAll, ReplayBlocks, Rebuilt, GestureOps, Shape, Bump;
      hide History.Valid, AppendOutcome, ExtendOutcome, FiniteOps, Recorded, Carries, CommitMessage;
      ConsistentMeans(chain.crypto, chain.blocks, Books(), graph, gesture, viewIndex, viewGraph, flipped);
      BumpsDiffer(revision);
      EndGesture();
      if !Editable() {
        return Err(ReadOnly);
      }
      r := CommitSettled(CommitMessage(message), now);
    }

    /** Seal what is pending once the gesture in flight is recorded. */
    method CommitSettled(message: string, now: nat) returns (r: Result<nat, SessionError>)
      requires Valid() && SignatureLaws(chain.crypto) && gesture.None? && Editable()
      modifies this`pending, this`undoHistory, this`redoHistory, this`revision, chain
      ensures Valid()
      ensures r.Ok? <==> old(pending) != [] && FiniteOps(old(pending))
      ensures r.Err? ==> chain.blocks == old(chain.blocks) && Books() == old(Books()) && revision == old(revision)
      ensures r.Ok? ==>
        && Books() == Book([], [], []) && r.value == |old(pending)| && revision == Bump(old(revision))
        && |chain.blocks| == |old(chain.blocks)| + 1 && old(chain.blocks) <= chain.blocks
        && Carries(chain.crypto, chain.blocks[|chain.blocks| - 1], old(pending), message, identity, now)
        && Began(Rebuilt(chain.blocks), graph, flipped)
      ensures old(pending) == [] ==> r == Err(NothingToCommit)
    {
      hide Consistent, CacheOk, ZeroFlips, Began, Apply, ApplyAll, ReplayBlocks, Rebuilt, GestureOps, Shape, Bump;
      hide History.Valid, AppendOutcome, ExtendOutcome, FiniteOps, Recorded, Carries;
      ConsistentMeans(chain.crypto, chain.blocks, Books(), graph, gesture, viewIndex, viewGraph, flipped);
      if pending == [] {
        return Err(NothingToCommit);
      }
      var ops := pending;
      CommitKeepsConsistent(chain.crypto, chain.blocks, Books(), graph, message, identity, now, flipped);
      var appended := chain.Append(ops, message, identity, now);
      if appended.Err? {
        return Err(ChainFailed(appended.error));
      }
      pending, undoHistory, redoHistory := [], [], [];
      PersistedChange();
      return Ok(|ops|);
    }

    /** Re-apply operations one by one on a new base. */
    static method RebasePending(base: Graph, ops: seq<GraphOp>)
      returns (merged: Graph, kept: seq<GraphOp>, conflicts: seq<GraphOp>)
      ensures Rebased(base, ops) == Rebase(merged, kept, conflicts)
    {
      hide Apply;
      merged, kept, conflicts := base, [], [];
      for i := 0 to |ops|
        invariant Rebased(base, ops[..i]) == Rebase(merged, kept, conflicts)
      {
        RebasedStep(base, ops, i);
        match Apply(merged, ops[i]) {
          case Ok(g) => merged, kept := g, kept + [ops[i]];
          case Err(_) => conflicts := conflicts + [ops[i]];
        }
      }
      assert ops[..|ops|] == ops;
    }

    /** Merge remote blocks: extend the chain, rebuild the graph from it, and
        re-apply pending operations, setting aside those that no longer apply. */
    method MergeSettled(offered: seq<Block>) returns (r: Result<MergeReport, ChainError>)
      requires Valid() && gesture.None?
      modifies this`pending, this`undoHistory, this`redoHistory, this`revision, this`flipped
      modifies this`graph, this`evalDirty, this`recovery, chain
      ensures Valid()
      ensures old(chain.blocks) <= chain.blocks
      ensures match ExtendOutcome(chain.crypto, old(chain.blocks), offered)
              case Err(e) =>
                && r == Err(e) && chain.blocks == old(chain.blocks)
                && Books() == old(Books()) && graph == old(graph) && recovery == old(recovery)
              case Ok((extended, base)) =>
                && chain.blocks == extended
                && if |extended| == |old(chain.blocks)| then
                     && r == Ok(MergeReport(0, 0))
                     && Books() == old(Books()) && graph == old(graph) && recovery == old(recovery)
                   else
                     var merged := Rebased(base, old(Books()).pending);
                     && r == Ok(MergeReport(|extended| - |old(chain.blocks)|, |merged.setAside|))
                     && graph == merged.graph && Books() == Book(merged.kept, [], [])
                     && recovery == old(recovery) + merged.setAside
      ensures |chain.blocks| > |old(chain.blocks)| ==> revision == Bump(old(revision))
      ensures |chain.blocks| == |old(chain.blocks)| ==> revision == old(revision)
      ensures flipped ==> old(flipped)
    {
      hide Consistent, CacheOk, ZeroFlips, Began, Apply, ApplyAll, ReplayBlocks, Rebuilt, GestureOps, Shape, Bump;
      hide History.Valid, AppendOutcome, ExtendOutcome, FiniteOps, Recorded, Rebased;
      ConsistentMeans(chain.crypto, chain.blocks, Books(), graph, gesture, viewIndex, viewGraph, flipped);
      MergeKeepsConsistent(chain.crypto, chain.blocks, Books(), graph, viewIndex, viewGraph, offered, flipped);
      ghost var before := chain.blocks;
      var extended := chain.TryExtend(offered);
      if extended.Err? {
        return Err(extended.error);
      }
      if extended.value == 0 {
        assert chain.blocks == before;
        return Ok(MergeReport(0, 0));
      }
      var replayed := chain.Replay(None);
      assert ExtendOutcome(chain.crypto, before, offered) == Ok((chain.blocks, replayed.value));
      var dropped := RebuildOn(replayed.value);
      return Ok(MergeReport(extended.value, dropped));
    }

    /** Take `base` as the committed graph and re-apply what is pending. */
    method RebuildOn(base: Graph) returns (dropped: nat)
      modifies this`pending, this`undoHistory, this`redoHistory, this`revision, this`flipped
      modifies this`graph, this`evalDirty, this`recovery
      ensures var merged := Rebased(base, old(pending));
              && graph == merged.graph && Books() == Book(merged.kept, [], [])
              && recovery == old(recovery) + merged.setAside && dropped == |merged.setAside|
      ensures evalDirty && !flipped && revision == Bump(old(revision))
    {
      hide Rebased;
      var merged, kept, conflicts := RebasePending(base, pending);
      recovery := recovery + conflicts;
      pending := kept;
      graph := merged;
      flipped := false;
      undoHistory, redoHistory := [], [];
      evalDirty := true;
      PersistedChange();
      return |conflicts|;
    }

    /** Merge remote blocks once the gesture in flight is recorded. */
    method MergeRemote(offered: seq<Block>) returns (r: Result<MergeReport, ChainError>)
      requires Valid()
      modifies this`gesture, this`flipped, this`pending, this`undoHistory, this`redoHistory, this`revision
      modifies this`graph, this`evalDirty, this`recovery, chain
      ensures Valid() && gesture.None?
      ensures flipped ==> old(SettledFlips())
      ensures old(chain.blocks) <= chain.blocks
      ensures match ExtendOutcome(chain.crypto, old(chain.blocks), offered)
              case Err(e) =>
                && r == Err(e) && chain.blocks == old(chain.blocks)
                && Books() == old(Settled()) && graph == old(graph) && recovery == old(recovery)
              case Ok((extended, base)) =>
                && chain.blocks == extended
                && if |extended| == |old(chain.blocks)| then
                     && r == Ok(MergeReport(0, 0))
                     && Books() == old(Settled()) && graph == old(graph) && recovery == old(recovery)
                   else
                     var merged := Rebased(base, old(Settled()).pending);
                     && r == Ok(MergeReport(|extended| - |old(chain.blocks)|, |merged.setAside|))
                     && graph == merged.graph && Books() == Book(merged.kept, [], [])
                     && recovery == old(recovery) + merged.setAside
      ensures revision == old(revision) ==> Saved() == old(Saved())
    {
      hide Consistent, CacheOk, ZeroFlips, Began, GestureOps, Shape, Bump, Recorded, Rebased, Rebuilt, ExtendOutcome,
          History.Valid;
      BumpsDiffer(revision);
      EndGesture();
      r := MergeSettled(offered);
      assert |chain.blocks| == |old(chain.blocks)| ==> chain.blocks == old(chain.blocks);
    }

    predicate Pristine()
      reads this, chain
    {
      |chain.blocks| == 1 && |OpsOf(chain.blocks)| == 0 && pending == []
    }

    /** Replace a pristine placeholder chain by a complete remote history. */
    method AdoptSettled(blocks: seq<Block>) returns (r: Result<nat, SessionError>)
      requires Valid() && gesture.None?
      modifies this`pending, this`undoHistory, this`redoHistory, this`revision, this`flipped
      modifies this`chain, this`graph, this`evalDirty, this`viewIndex, this`viewGraph
      ensures Valid()
      ensures chain.crypto == old(chain.crypto)
      ensures r.Ok? <==>
        |old(chain.blocks)| == 1 && old(Books()).pending == [] && History.Valid(chain.crypto, blocks)
      ensures r.Err? ==> chain == old(chain) && Books() == old(Books()) && graph == old(graph)
      ensures r.Ok? ==>
        && fresh(chain) && chain.blocks == blocks && r.value == |blocks|
        && Books() == Book([], [], []) && graph == Rebuilt(blocks) && viewIndex.None?
      ensures unchanged(old(chain))
      ensures revision == if r.Ok? then Bump(old(revision)) else old(revision)
      ensures flipped ==> old(flipped)
    {
      hide Consistent, CacheOk, ZeroFlips, Began, Apply, ApplyAll, ReplayBlocks, Rebuilt, GestureOps, Shape, Bump;
      hide Validate, AppendOutcome, ExtendOutcome, FiniteOps, Recorded, OpsOf;
      ConsistentMeans(chain.crypto, chain.blocks, Books(), graph, gesture, viewIndex, viewGraph, flipped);
      GenesisHasNoOps(chain.crypto, chain.blocks);
      if !Pristine() {
        return Err(NotPristine);
      }
      var adopted := new Chain.FromBlocks(chain.crypto, blocks);
      var validated := adopted.ValidateAndReplay();
      if validated.Err? {
        return Err(ChainFailed(validated.error));
      }
      AdoptedIsConsistent(chain.crypto, blocks);
      Install(adopted, validated.value);
      return Ok(|blocks|);
    }

    /** Start over from another chain and its replayed graph. */
    method Install(adopted: Chain, replayed: Graph)
      modifies this`pending, this`undoHistory, this`redoHistory, this`revision, this`flipped
      modifies this`chain, this`graph, this`evalDirty, this`viewIndex, this`viewGraph
      ensures chain == adopted && graph == replayed && Books() == Book([], [], [])
      ensures viewIndex.None? && viewGraph.None? && evalDirty && !flipped && revision == Bump(old(revision))
    {
      chain := adopted;
      graph := replayed;
      flipped := false;
      pending, undoHistory, redoHistory := [], [], [];
      viewIndex, viewGraph := None, None;
      evalDirty := true;
      PersistedChange();
    }

    /** Adopt a remote history once the gesture in flight is recorded. */
    method AdoptRemote(blocks: seq<Block>) returns (r: Result<nat, SessionError>)
      requires Valid()
      modifies this`gesture, this`flipped, this`pending, this`undoHistory, this`redoHistory, this`revision
      modifies this`chain, this`graph, this`evalDirty, this`viewIndex, this`viewGraph
      ensures Valid() && gesture.None?
      ensures flipped ==> old(SettledFlips())
      ensures chain.crypto == old(chain.crypto)
      ensures r.Ok? <==>
        |old(chain.blocks)| == 1 && old(Settled()).pending == [] && History.Valid(chain.crypto, blocks)
      ensures r.Err? ==> chain == old(chain) && Books() == old(Settled()) && graph == old(graph)
      ensures r.Ok? ==>
        && fresh(chain) && chain.blocks == blocks && r.value == |blocks|
        && Books() == Book([], [], []) && graph == Rebuilt(blocks) && viewIndex.None?
      ensures unchanged(old(chain))
      ensures revision == old(revision) ==> chain.blocks == old(chain.blocks) && pending == old(pending)
    {
      hide Consistent, CacheOk, ZeroFlips, Began, GestureOps, Shape, Bump, Recorded, Rebased, Rebuilt, ExtendOutcome,
          History.Valid;
      BumpsDiffer(revision);
      EndGesture();
      r := AdoptSettled(blocks);
    }

    // ------------------------------------------------------------------
    // size cache
    // ------------------------------------------------------------------

    /** Measure the blocks the cached sizes do not cover yet. */
    static method MeasureRest(c: Primitives, blocks: seq<Block>, sizes: ChainSizes, ghost all: seq<Block>)
      returns (r: ChainSizes)
      requires Covers(c, sizes, all, blocks)
      ensures r == Measured(c, all)
    {
      hide Measured, BlockSize;
      r := sizes;
      var from := |sizes.blocks|;
      for i := from to |blocks|
        invariant r.(head := "") == Measured(c, all[..i]).(head := "")
      {
        assert all[i] == all[from..][i - from] && blocks[i] == blocks[from..][i - from];
        MeasuredStep(c, all, i);
        var bytes := BlockSize(c, blocks[i]);
        r := r.(blocks := r.blocks + [bytes], blockBytes := r.blockBytes + bytes, ops := r.ops + |blocks[i].ops|);
      }
      assert all[..|blocks|] == all;
      HeadOfMeasured(c, all);
      r := r.(head := blocks[|blocks| - 1].hash);
    }

    /** Bring the cached sizes up to the chain, measuring each block once. The
        result is a full recount unless two blocks collide. */
    method CacheChainSizes()
      requires Valid() && DigestLaw(chain.crypto)
      modifies this`sizes, this`measured
      ensures Valid()
      ensures sizes == Measured(chain.crypto, chain.blocks) || Collides(chain.crypto, measured, chain.blocks)
    {
      hide Consistent, History.Valid, ReplayBlocks, Linked, Measured, Covers, CacheOk, Collides, DigestLaw;
      ConsistentMeans(chain.crypto, chain.blocks, Books(), graph, gesture, viewIndex, viewGraph, flipped);
      ValidIsLinkedAndReplayable(chain.crypto, chain.blocks);
      var c, blocks := chain.crypto, chain.blocks;
      var head := blocks[|blocks| - 1].hash;
      if sizes.head != head {
        ghost var all := RefreshedHistory(c, sizes, measured, blocks);
        var kept := if Continues(sizes, blocks) then sizes else NO_SIZES;
        sizes := MeasureRest(c, blocks, kept, all);
        measured := all;
      }
      SameHeadSameSizes(c, sizes, measured, blocks);
    }

    /** The chain's JSON size from the cache: wrapper, blocks and commas. */
    method ChainByteSize() returns (n: nat)
      requires Valid() && DigestLaw(chain.crypto)
      modifies this`sizes, this`measured
      ensures Valid()
      ensures n == |ChainJson(chain.crypto, chain.blocks)| || Collides(chain.crypto, measured, chain.blocks)
    {
      CacheChainSizes();
      MeasuredLengths(chain.crypto, measured);
      JoinedJsonLength(chain.crypto, chain.blocks);
      n := |"{\"blocks\":[]}"| + sizes.blockBytes + (if sizes.blocks == [] then 0 else |sizes.blocks| - 1);
      MeasuredLengths(chain.crypto, chain.blocks);
    }

    method ChainTotalOps() returns (n: nat)
      requires Valid() && DigestLaw(chain.crypto)
      modifies this`sizes, this`measured
      ensures Valid()
      ensures n == |OpsOf(chain.blocks)| || Collides(chain.crypto, measured, chain.blocks)
    {
      CacheChainSizes();
      n := sizes.ops;
      MeasuredLengths(chain.crypto, chain.blocks);
    }

    /** The serialized size of one block, zero outside the chain. */
    method BlockByteSize(index: nat) returns (n: nat)
      requires Valid() && DigestLaw(chain.crypto)
      modifies this`sizes, this`measured
      ensures Valid()
      ensures Collides(chain.crypto, measured, chain.blocks) ||
        n == if index < |chain.blocks| then BlockSize(chain.crypto, chain.blocks[index]) else 0
    {
      CacheChainSizes();
      n := if index < |sizes.blocks| then sizes.blocks[index] else 0;
      MeasuredLengths(chain.crypto, chain.blocks);
      if index < |chain.blocks| {
        MeasuredAt(chain.crypto, chain.blocks, index);
      }
    }
  }

  // ------------------------------------------------------------------
  // consequences for a whole session
  // ------------------------------------------------------------------

  /** When replay is exact, and that it is always right up to the signs of zeros. */
  lemma ReplayMatches(d: Document)
    requires d.Valid() && d.gesture.None?
    ensures ReplayBlocks(d.chain.blocks) == Ok(Rebuilt(d.chain.blocks)) && Replays(Rebuilt(d.chain.blocks), d.pending)
    ensures SameGraph(ApplyAll(Rebuilt(d.chain.blocks), d.pending).value, d.graph)
    ensures !d.flipped ==> ApplyAll(Rebuilt(d.chain.blocks), d.pending) == Ok(d.graph)
  {
    hide Consistent, CacheOk, ApplyAll, Rebuilt, ReplayBlocks, History.Valid, SameGraph;
    ConsistentMeans(d.chain.crypto, d.chain.blocks, d.Books(), d.graph, d.gesture, d.viewIndex, d.viewGraph, d.flipped);
    SameIsSymmetric(d.graph, ApplyAll(Rebuilt(d.chain.blocks), d.pending).value);
  }

  /** The input on which replay is not exact: a number at positive zero is dragged
      to negative zero. Nothing is recorded, and the log keeps the other zero. */
  method DragAcrossZero(d: Document, id: NodeId, key: string)
    requires d.Valid() && d.Editable() && d.gesture.None? && !d.flipped
    requires Lookup(d.graph, id, key) == Some(Number(Finite(0.0)))
    modifies d
    ensures d.Valid() && d.gesture.None? && d.flipped && d.pending == old(d.pending) && d.chain == old(d.chain)
    ensures Lookup(d.graph, id, key) == Some(Number(NegativeZero))
    ensures var replayed := ApplyAll(Rebuilt(d.chain.blocks), d.pending);
            replayed.Ok? && replayed.value != d.graph && SameGraph(replayed.value, d.graph)
            && Lookup(replayed.value, id, key) == Some(Number(Finite(0.0)))
  {
    hide Document.Valid, ApplyAll, Rebuilt, ReplayBlocks, SameGraph, Recorded;
    ReplayMatches(d);
    NoGestureNoOps(d.graph, d.Books());
    d.ParamDrag(id, key, Number(NegativeZero));
    assert GestureOps(d.graph, d.gesture) == [] && ZeroFlips(d.graph, d.gesture);
    NoGestureNoOps(d.graph, d.Books());
    d.EndGesture();
    ReplayMatches(d);
  }

  lemma RebuiltIsWellFormed(c: Primitives, blocks: seq<Block>)
    requires History.Valid(c, blocks)
    ensures ReplayBlocks(blocks) == Ok(Rebuilt(blocks)) && WellFormed(Rebuilt(blocks))
  {
    ValidIsLinkedAndReplayable(c, blocks);
    ReplayIsApplyAll(blocks);
    EmptyIsWellFormed();
    hide WellFormed, ApplyAll, ReplayBlocks, OpsOf;
    ReplayedGraphsAreWellFormed(EMPTY, OpsOf(blocks));
  }

  lemma DraggedIsWellFormed(rest: Graph, graph: Graph, from: map<NodeId, Pos>)
    requires WellFormed(rest) && Dragged(rest, graph, from)
    ensures WellFormed(graph)
  {
    assert forall id :: id in graph.nodes ==> id in rest.nodes && graph.nodes[id].id == rest.nodes[id].id;
  }

  /** No gesture leaves the well-formed graphs. */
  lemma OverlaidIsWellFormed(rest: Graph, graph: Graph, gesture: Option<Gesture>)
    requires WellFormed(rest) && Overlaid(rest, graph, gesture)
    ensures WellFormed(graph)
  {
    hide WellFormed, Dragged, Apply;
    match gesture
    case None =>
    case Some(Param(id, key, _, last)) =>
      if id in rest.nodes {
        ApplyKeepsWellFormed(rest, SetParam(id, key, last));
      }
    case Some(Move(from)) => DraggedIsWellFormed(rest, graph, from);
  }

  lemma EditedIsWellFormed(base: Graph, book: Book, graph: Graph, gesture: Option<Gesture>, flipped: bool)
    requires WellFormed(base) && GraphMatchesLedger(base, book, graph, gesture, flipped)
    ensures WellFormed(graph)
  {
    hide WellFormed, Overlaid, BookOk, ApplyAll, SameGraph;
    ReplayedGraphsAreWellFormed(base, book.pending);
    var rest := ApplyAll(base, book.pending).value;
    var before :| Began(rest, before, flipped) && Overlaid(before, graph, gesture);
    SameIsSymmetric(before, rest);
    SameWellFormed(rest, before);
    OverlaidIsWellFormed(before, graph, gesture);
  }

  lemma ViewIsWellFormed(c: Primitives, blocks: seq<Block>, index: Option<nat>, view: Option<Graph>)
    requires History.Valid(c, blocks) && ViewOk(blocks, index, view)
    ensures view.Some? ==> WellFormed(view.value)
  {
    hide WellFormed, Rebuilt, History.Valid;
    if index.Some? {
      PrefixIsValid(c, blocks, index.value + 1);
      RebuiltIsWellFormed(c, blocks[..index.value + 1]);
    }
  }

  /** Whatever a session does, the graph being edited and the graph on display have
      no dangling wire, no doubly used input and no cycle. */
  lemma SessionGraphsAreWellFormed(d: Document)
    requires d.Valid()
    ensures WellFormed(d.graph) && WellFormed(d.Displayed())
  {
    hide WellFormed, GraphMatchesLedger, ViewOk, CacheOk, Rebuilt, History.Valid, Shape;
    var c, blocks := d.chain.crypto, d.chain.blocks;
    RebuiltIsWellFormed(c, blocks);
    EditedIsWellFormed(Rebuilt(blocks), d.Books(), d.graph, d.gesture, d.flipped);
    ViewIsWellFormed(c, blocks, d.viewIndex, d.viewGraph);
  }

  /** Nothing but books, gesture and graph is touched between two states. */
  twostate predicate OnlyEdited(d: Document)
    reads d
  {
    d.chain == old(d.chain) && d.recovery == old(d.recovery) && d.viewGraph == old(d.viewGraph)
  }

  method UndoRepeatedly(d: Document, k: nat)
    requires d.Valid() && d.Editable() && 0 < k <= |d.Settled().undo|
    modifies d
    ensures d.Valid() && d.gesture.None? && OnlyEdited(d)
    ensures !d.flipped
    ensures UndoTimes(old(d.Settled()), k) == Some(d.Books())
  {
    hide Document.Valid, BookOk, ApplyAll, Rebuilt, Recorded, GestureOps, Apply;
    ghost var start, base := d.Settled(), Rebuilt(d.chain.blocks);
    assert UndoTimes(start, 0) == Some(start);
    hide UndoTimes, RedoTimes;
    SettledReplays(d);
    UndoOnce(base, start, 0, start);
    var undone := d.UndoPending();
    for i := 1 to k
      invariant d.Valid() && d.gesture.None? && OnlyEdited(d) && !d.flipped
      invariant UndoTimes(start, i) == Some(d.Books())
    {
      UndoOnce(base, start, i, d.Books());
      NoGestureNoOps(d.graph, d.Books());
      undone := d.UndoPending();
    }
  }

  method RedoRepeatedly(d: Document, k: nat)
    requires d.Valid() && d.Editable() && d.gesture.None? && RedoTimes(d.Books(), k).Some?
    modifies d
    ensures d.Valid() && d.gesture.None? && OnlyEdited(d)
    ensures k > 0 || !old(d.flipped) ==> !d.flipped
    ensures RedoTimes(old(d.Books()), k) == Some(d.Books())
  {
    hide Document.Valid, Recorded, GestureOps;
    for i := 0 to k
      invariant d.Valid() && d.gesture.None? && OnlyEdited(d) && (i > 0 || !old(d.flipped) ==> !d.flipped)
      invariant RedoTimes(d.Books(), k - i) == RedoTimes(old(d.Books()), k)
    {
      NoGestureNoOps(d.graph, d.Books());
      var redone := d.RedoPending();
    }
  }

  /** Undo `k` times and redo `k` times: the document is as it was, with the gesture
      that was in flight recorded. */
  method UndoAndRedo(d: Document, k: nat)
    requires d.Valid() && d.Editable() && k <= |d.Settled().undo|
    modifies d
    ensures d.Valid() && OnlyEdited(d)
    ensures d.Books() == (if k == 0 then old(d.Books()) else old(d.Settled()))
    ensures SameGraph(d.graph, old(d.graph)) && (!old(d.SettledFlips()) ==> d.graph == old(d.graph))
  {
    hide Document.Valid, BookOk, ApplyAll, Rebuilt, Recorded, GestureOps, UndoTimes, RedoTimes, SameGraph;
    SameIsReflexive(d.graph);
    if k > 0 {
      SettledReplays(d);
      ghost var rest := ApplyAll(Rebuilt(d.chain.blocks), d.Settled().pending).value;
      ghost var start := d.graph;
      UndosThenRedos(Rebuilt(d.chain.blocks), d.Settled(), k);
      UndoRepeatedly(d, k);
      RedoRepeatedly(d, k);
      SettledReplays(d);
      NoGestureNoOps(d.graph, d.Books());
      SameIsSymmetric(start, rest);
    }
  }

  /** An edit followed by one Undo gives back what was there: all of the edit goes, and
      nothing else, and Redo holds exactly the edit. */
  method EditThenUndo(d: Document, ops: seq<GraphOp>) returns (undone: nat)
    requires d.Valid() && d.Editable() && ops != [] && Replays(d.graph, ops)
    modifies d
    ensures d.Valid() && d.gesture.None? && OnlyEdited(d) && undone == |ops|
    ensures d.pending == old(d.Settled()).pending && d.undoHistory == old(d.Settled()).undo && d.redoHistory == [ops]
    ensures SameGraph(d.graph, old(d.graph)) && (!old(d.SettledFlips()) ==> d.graph == old(d.graph))
  {
    hide Document.Valid, BookOk, ApplyAll, Rebuilt, Recorded, Undone, GestureOps, SameGraph, ZeroFlips, Apply;
    ghost var settled, graph := d.Settled(), d.graph;
    SettledReplays(d);
    UndoTakesBackEdit(settled, ops);
    var applied := d.ApplyOps(ops);
    NoGestureNoOps(d.graph, d.Books());
    var r := d.UndoPending();
    undone := r.value;
    SameIsSymmetric(graph, d.graph);
  }

  /** So does finishing a gesture: one Undo takes back all it recorded. */
  method FinishThenUndo(d: Document) returns (undone: nat)
    requires d.Valid() && d.Editable() && GestureOps(d.graph, d.gesture) != []
    modifies d
    ensures d.Valid() && d.gesture.None? && OnlyEdited(d) && undone == |GestureOps(old(d.graph), old(d.gesture))|
    ensures d.Books() == Book(old(d.pending), old(d.undoHistory), [GestureOps(old(d.graph), old(d.gesture))])
    ensures ApplyAll(Rebuilt(d.chain.blocks), d.pending) == Ok(d.graph)
  {
    hide Document.Valid, BookOk, ApplyAll, Rebuilt, Recorded, Undone, GestureOps, SameGraph, ZeroFlips;
    ghost var book, ops := d.Books(), GestureOps(d.graph, d.gesture);
    UndoTakesBackEdit(book, ops);
    d.EndGesture();
    NoGestureNoOps(d.graph, d.Books());
    var r := d.UndoPending();
    undone := r.value;
  }

  /** What is on display: the working graph, or in time travel the replay through the
      block looked at; only the former can be edited. */
  lemma DisplayedMeans(d: Document)
    requires d.Valid()
    ensures d.Editable() <==> d.viewIndex.None?
    ensures d.viewIndex.None? ==> d.Displayed() == d.graph
    ensures d.viewIndex.Some? ==>
      && d.viewIndex.value + 1 < |d.chain.blocks| && d.gesture.None?
      && ReplayBlocks(d.chain.blocks[..d.viewIndex.value + 1]) == Ok(d.Displayed())
  {
    hide CacheOk, GraphMatchesLedger, Shape;
    if d.viewIndex.Some? {
      ViewKeepsConsistent(d.chain.crypto, d.chain.blocks, d.Books(), d.graph, d.viewIndex, d.viewGraph,
                          d.viewIndex.value, d.flipped);
    }
  }

  /** A valid document is pristine when it is a bare genesis with nothing pending. */
  lemma PristineMeans(d: Document)
    requires d.Valid()
    ensures d.Pristine() <==> |d.chain.blocks| == 1 && d.pending == []
  {
    hide Consistent, CacheOk;
    ConsistentMeans(
      d.chain.crypto, d.chain.blocks, d.Books(), d.graph, d.gesture, d.viewIndex, d.viewGraph, d.flipped);
    GenesisHasNoOps(d.chain.crypto, d.chain.blocks);
  }

  /** The books a session would settle to replay to the working graph, exactly
      unless a gesture has ended on the other zero since it was last rebuilt. */
  lemma SettledReplays(d: Document)
    requires d.Valid()
    ensures BookOk(Rebuilt(d.chain.blocks), d.Settled())
    ensures Replays(Rebuilt(d.chain.blocks), d.Settled().pending)
    ensures Began(ApplyAll(Rebuilt(d.chain.blocks), d.Settled().pending).value, d.graph, d.SettledFlips())
    ensures d.gesture.None? ==> d.Settled() == d.Books()
  {
    hide CacheOk, BookOk, ApplyAll, GestureOps, Recorded, Rebuilt, History.Valid, Began, ZeroFlips;
    SettlingKeepsConsistent(
      d.chain.crypto, d.chain.blocks, d.Books(), d.graph, d.gesture, d.viewIndex, d.viewGraph, d.flipped);
    DepartsByNothing(
      ApplyAll(Rebuilt(d.chain.blocks), d.Settled().pending).value, d.graph, d.SettledFlips());
  }
}
