/** Placement of imported definitions: nodes are enlarged and pushed down below
    whatever already stands in the columns they cover. */
module Skyline {
  import opened Common
  import opened GraphModel

  const RANGE := 1000000000.0
  const SCALE := 1.5
  const COLUMN := 120.0
  const WIDTH := 210.0
  const MARGIN := 24.0

  datatype Imported = Imported(id: NodeId, typeName: string, x: Float, y: Float)

  datatype Spot = Spot(x: real, y: real, height: real)

  predicate InRange(pos: Pos) {
    && IsFinite(pos.x) && IsFinite(pos.y)
    && -RANGE <= ValueOf(pos.x) <= RANGE && -RANGE <= ValueOf(pos.y) <= RANGE
  }

  /** The nodes a definition adds, in operation order. */
  function Added(ops: seq<GraphOp>): (nodes: seq<Imported>)
    requires forall i :: 0 <= i < |ops| && ops[i].AddNode? ==> InRange(ops[i].pos)
    ensures forall n :: n in nodes <==> AddNode(n.id, n.typeName, Pos(n.x, n.y)) in ops
  {
    if ops == [] then []
    else
      var last := ops[|ops| - 1];
      assert last in ops && (last.AddNode? ==> InRange(last.pos));
      var before := Added(ops[..|ops| - 1]);
      assert ops == ops[..|ops| - 1] + [last];
      if last.AddNode? then before + [Imported(last.id, last.typeName, last.pos.x, last.pos.y)] else before
  }

  // ------------------------------------------------------------------
  // reading order
  // ------------------------------------------------------------------

  /** `f32::total_cmp` on finite floats: by value, negative zero before positive. */
  predicate Less(a: Float, b: Float) {
    ValueOf(a) < ValueOf(b) || (ValueOf(a) == ValueOf(b) && a.NegativeZero? && !b.NegativeZero?)
  }

  /** By row, then column, then id. */
  predicate NotAfter(a: Imported, b: Imported) {
    Less(a.y, b.y) || (!Less(b.y, a.y) && (Less(a.x, b.x) || (!Less(b.x, a.x) && a.id <= b.id)))
  }

  ghost predicate InReadingOrder(nodes: seq<Imported>) {
    forall i, j :: 0 <= i < j < |nodes| ==> NotAfter(nodes[i], nodes[j])
  }

  lemma ReadingOrderIsTotal(a: Imported, b: Imported)
    ensures NotAfter(a, b) || NotAfter(b, a)
  {
  }

  lemma ReadingOrderIsTransitive(nodes: seq<Imported>, n: Imported)
    requires InReadingOrder(nodes) && nodes != [] && NotAfter(nodes[|nodes| - 1], n)
    ensures InReadingOrder(nodes + [n])
  {
    forall i | 0 <= i < |nodes| ensures NotAfter(nodes[i], n) {
      assert i < |nodes| - 1 ==> NotAfter(nodes[i], nodes[|nodes| - 1]);
    }
  }

  /** Insert behind everything that is not after the new node. */
  function Insert(nodes: seq<Imported>, n: Imported): seq<Imported>
    decreases |nodes|
  {
    if nodes == [] || NotAfter(nodes[|nodes| - 1], n) then nodes + [n]
    else Insert(nodes[..|nodes| - 1], n) + [nodes[|nodes| - 1]]
  }

  lemma {:induction false} InsertAddsOne(nodes: seq<Imported>, n: Imported)
    ensures multiset(Insert(nodes, n)) == multiset(nodes) + multiset{n}
    decreases |nodes|
  {
    if nodes != [] && !NotAfter(nodes[|nodes| - 1], n) {
      InsertAddsOne(nodes[..|nodes| - 1], n);
      assert nodes == nodes[..|nodes| - 1] + [nodes[|nodes| - 1]];
    }
  }

  lemma {:induction false} InsertKeepsOrder(nodes: seq<Imported>, n: Imported)
    requires InReadingOrder(nodes)
    ensures InReadingOrder(Insert(nodes, n))
    decreases |nodes|
  {
    if nodes != [] {
      var last := nodes[|nodes| - 1];
      if NotAfter(last, n) {
        ReadingOrderIsTransitive(nodes, n);
      } else {
        ReadingOrderIsTotal(last, n);
        var front := nodes[..|nodes| - 1];
        InsertKeepsOrder(front, n);
        InsertAddsOne(front, n);
        forall i | 0 <= i < |front| + 1 ensures NotAfter(Insert(front, n)[i], last) {
          assert |Insert(front, n)| == |multiset(Insert(front, n))| == |front| + 1;
          assert Insert(front, n)[i] in multiset(front) + multiset{n};
        }
        hide NotAfter;
      }
    }
  }

  /** The stable order the import lays nodes out in. */
  function Sorted(nodes: seq<Imported>): (r: seq<Imported>) {
    if nodes == [] then [] else Insert(Sorted(nodes[..|nodes| - 1]), nodes[|nodes| - 1])
  }

  lemma {:induction false} SortedIsInOrder(nodes: seq<Imported>)
    ensures InReadingOrder(Sorted(nodes)) && multiset(Sorted(nodes)) == multiset(nodes)
  {
    if nodes != [] {
      var front, last := nodes[..|nodes| - 1], nodes[|nodes| - 1];
      SortedIsInOrder(front);
      InsertAddsOne(Sorted(front), last);
      InsertKeepsOrder(Sorted(front), last);
      assert nodes == front + [last];
    }
  }

  // ------------------------------------------------------------------
  // what a placement promises
  // ------------------------------------------------------------------

  function ColumnOf(x: real): int {
    (x / COLUMN).Floor
  }

  /** The two spots stand in a common column. */
  predicate ShareColumn(a: Spot, b: Spot) {
    ColumnOf(a.x) <= ColumnOf(b.x + WIDTH) && ColumnOf(b.x) <= ColumnOf(a.x + WIDTH)
  }

  /** The closed horizontal spans of the two nodes meet. */
  predicate SpansMeet(a: Spot, b: Spot) {
    a.x <= b.x + WIDTH && b.x <= a.x + WIDTH
  }

  predicate Below(lower: Spot, upper: Spot) {
    lower.y >= upper.y + upper.height + MARGIN
  }

  function HeightOf(ports: map<string, nat>, typeName: string): (h: real)
    ensures h >= 110.0
  {
    var count := if typeName in ports then ports[typeName] else 1;
    var h := 60.0 + count as real * 20.0 + if typeName == "number_slider" then 42.0 else 0.0;
    if h < 110.0 then 110.0 else h
  }

  /** Heights start at 60, gain 20 for each port and 42 for a slider's control, and are
      never below 110; an unknown component counts as one port. */
  lemma HeightIsExact(ports: map<string, nat>, typeName: string)
    ensures var n := if typeName in ports then ports[typeName] as real else 1.0;
            var wanted := 60.0 + 20.0 * n + if typeName == "number_slider" then 42.0 else 0.0;
            && HeightOf(ports, typeName) >= wanted && HeightOf(ports, typeName) >= 110.0
            && (HeightOf(ports, typeName) == wanted || HeightOf(ports, typeName) == 110.0)
  {
  }

  /** The scaled top edge, before anything is pushed down. */
  function ScaledTop(nodes: seq<Imported>, y: real): real {
    (y - Least(Tops(nodes))) * SCALE
  }

  function ScaledLeft(nodes: seq<Imported>, x: real): real {
    (x - Least(Lefts(nodes))) * SCALE
  }

  function Tops(nodes: seq<Imported>): seq<real> {
    seq(|nodes|, i requires 0 <= i < |nodes| => ValueOf(nodes[i].y))
  }

  function Lefts(nodes: seq<Imported>): seq<real> {
    seq(|nodes|, i requires 0 <= i < |nodes| => ValueOf(nodes[i].x))
  }

  function Least(s: seq<real>): (m: real)
    ensures forall x :: x in s ==> m <= x
    ensures s != [] ==> m in s
  {
    if |s| <= 1 then (if s == [] then 0.0 else s[0])
    else
      var m := Least(s[..|s| - 1]);
      var last := s[|s| - 1];
      assert s == s[..|s| - 1] + [last];
      if last < m then last else m
  }

  /** Spot `k` is the highest one at or below its scaled place that clears every
      earlier spot it shares a column with. */
  ghost predicate RestsAt(spots: seq<Spot>, k: nat, top: real)
    requires k < |spots|
  {
    && spots[k].y >= top
    && (forall j :: 0 <= j < k && ShareColumn(spots[j], spots[k]) ==> Below(spots[k], spots[j]))
    && (spots[k].y == top
        || exists j :: 0 <= j < k && ShareColumn(spots[j], spots[k])
                       && spots[k].y == spots[j].y + spots[j].height + MARGIN)
  }

  ghost predicate LaidAt(nodes: seq<Imported>, ports: map<string, nat>, spots: seq<Spot>, k: nat)
    requires k < |nodes| && k < |spots|
  {
    && spots[k].x == ScaledLeft(nodes, ValueOf(nodes[k].x))
    && spots[k].height == HeightOf(ports, nodes[k].typeName)
    && RestsAt(spots, k, ScaledTop(nodes, ValueOf(nodes[k].y)))
  }

  ghost predicate Laid(nodes: seq<Imported>, ports: map<string, nat>, spots: seq<Spot>) {
    |spots| == |nodes| && forall k :: 0 <= k < |nodes| ==> LaidAt(nodes, ports, spots, k)
  }

  /** The returned map holds, for every id, the spot of some node with that id. */
  ghost predicate Reports(nodes: seq<Imported>, spots: seq<Spot>, result: map<NodeId, (real, real)>) {
    && |spots| == |nodes|
    && (forall k :: 0 <= k < |nodes| ==> nodes[k].id in result)
    && forall id :: id in result ==>
      exists k :: 0 <= k < |nodes| && nodes[k].id == id && result[id] == (spots[k].x, spots[k].y)
  }

  /** The map reports some placement that keeps every promise. */
  ghost predicate LaidOut(nodes: seq<Imported>, ports: map<string, nat>, result: map<NodeId, (real, real)>) {
    exists spots :: Laid(nodes, ports, spots) && Reports(nodes, spots, result)
  }

  // ------------------------------------------------------------------
  // consequences
  // ------------------------------------------------------------------

  /** Columns are 120 wide, starting from zero. */
  lemma ColumnIsExact(x: real)
    ensures ColumnOf(x) as real * 120.0 <= x < (ColumnOf(x) + 1) as real * 120.0
  {
  }

  /** Positions up to a thousand million either way are in range, finite ones only. */
  lemma RangeIsExact(pos: Pos)
    ensures InRange(pos) <==>
      && !pos.x.NaN? && !pos.x.Infinite? && !pos.y.NaN? && !pos.y.Infinite?
      && -1000000000.0 <= ValueOf(pos.x) <= 1000000000.0 && -1000000000.0 <= ValueOf(pos.y) <= 1000000000.0
  {
  }

  lemma ColumnsRise(x: real, y: real)
    requires x <= y
    ensures ColumnOf(x) <= ColumnOf(y)
  {
    assert x / COLUMN <= y / COLUMN;
  }

  lemma MeetingSpansShareColumn(a: Spot, b: Spot)
    requires SpansMeet(a, b)
    ensures ShareColumn(a, b)
  {
    ColumnsRise(a.x, b.x + WIDTH);
    ColumnsRise(b.x, a.x + WIDTH);
  }

  /** Columns are coarse, but nodes a whole column apart never share one. */
  lemma SharedColumnIsNear(a: Spot, b: Spot)
    requires ShareColumn(a, b)
    ensures a.x - (b.x + 210.0) < 120.0 && b.x - (a.x + 210.0) < 120.0
  {
    assert a.x / COLUMN < (b.x + WIDTH) / COLUMN + 1.0;
    assert b.x / COLUMN < (a.x + WIDTH) / COLUMN + 1.0;
  }

  /** No two placed nodes overlap: where spans meet, the one later in reading
      order starts below the earlier one, and no node rises above its scaled place. */
  lemma NothingOverlaps(nodes: seq<Imported>, ports: map<string, nat>, spots: seq<Spot>)
    requires Laid(nodes, ports, spots)
    ensures forall j, k ::
      0 <= j < k < |nodes| && spots[j].x <= spots[k].x + 210.0 && spots[k].x <= spots[j].x + 210.0 ==>
        spots[k].y >= spots[j].y + spots[j].height + 24.0
    ensures forall k :: 0 <= k < |nodes| ==> spots[k].y >= ScaledTop(nodes, ValueOf(nodes[k].y)) >= 0.0
  {
    forall j, k | 0 <= j < k < |nodes| && SpansMeet(spots[j], spots[k])
      ensures spots[k].y >= spots[j].y + spots[j].height + 24.0
    {
      MeetingSpansShareColumn(spots[j], spots[k]);
      assert LaidAt(nodes, ports, spots, k);
    }
    forall k | 0 <= k < |nodes| ensures spots[k].y >= ScaledTop(nodes, ValueOf(nodes[k].y)) >= 0.0 {
      assert LaidAt(nodes, ports, spots, k);
      ScaledIsPositive(nodes, k);
    }
  }

  lemma ReportedAt(
    nodes: seq<Imported>, spots: seq<Spot>, result: map<NodeId, (real, real)>, id: NodeId) returns (k: nat)
    requires Reports(nodes, spots, result) && id in result
    ensures k < |nodes| == |spots| && nodes[k].id == id && result[id] == (spots[k].x, spots[k].y)
  {
    k :| 0 <= k < |nodes| && nodes[k].id == id && result[id] == (spots[k].x, spots[k].y);
  }

  lemma NodeIsReported(nodes: seq<Imported>, spots: seq<Spot>, result: map<NodeId, (real, real)>, n: Imported)
    requires Reports(nodes, spots, result) && n in nodes
    ensures n.id in result
  {
  }

  /** The returned map holds exactly the added ids. */
  lemma ReportedIdsAreTheAdded(
    ops: seq<GraphOp>, spots: seq<Spot>, result: map<NodeId, (real, real)>, id: NodeId)
    requires forall i :: 0 <= i < |ops| && ops[i].AddNode? ==> InRange(ops[i].pos)
    requires Reports(Sorted(Added(ops)), spots, result)
    ensures id in result <==> exists i :: 0 <= i < |ops| && ops[i].AddNode? && ops[i].id == id
  {
    hide Sorted, Added, InReadingOrder, Reports;
    var added := Added(ops);
    var nodes := Sorted(added);
    SortedIsInOrder(added);
    forall n ensures n in nodes <==> n in added {
      assert n in nodes <==> n in multiset(nodes);
    }
    if i :| 0 <= i < |ops| && ops[i].AddNode? && ops[i].id == id {
      assert InRange(ops[i].pos) && ops[i] in ops;
      NodeIsReported(nodes, spots, result, Imported(id, ops[i].typeName, ops[i].pos.x, ops[i].pos.y));
    }
    if id in result {
      var j := ReportedAt(nodes, spots, result, id);
      assert nodes[j] in nodes;
    }
  }

  /** Two reported ids whose spans meet are at least the least height and the
      margin apart, whichever of them comes first. */
  lemma ReportedPositionsAreClear(
    nodes: seq<Imported>, ports: map<string, nat>, spots: seq<Spot>, result: map<NodeId, (real, real)>, a: NodeId,
    b: NodeId)
    requires Laid(nodes, ports, spots) && Reports(nodes, spots, result)
    requires a in result && b in result && a != b
    requires result[a].0 <= result[b].0 + 210.0 && result[b].0 <= result[a].0 + 210.0
    ensures result[a].1 >= result[b].1 + 110.0 + 24.0 || result[b].1 >= result[a].1 + 110.0 + 24.0
  {
    hide ScaledTop, ScaledLeft, RestsAt, Reports;
    NothingOverlaps(nodes, ports, spots);
    var j := ReportedAt(nodes, spots, result, a);
    var k := ReportedAt(nodes, spots, result, b);
    assert LaidAt(nodes, ports, spots, j) && LaidAt(nodes, ports, spots, k);
    assert SpansMeet(spots[j], spots[k]) && SpansMeet(spots[k], spots[j]);
  }

  /** The promises leave no choice: any two placements that keep them are equal. */
  lemma {:induction false} LaidIsUnique(
    nodes: seq<Imported>, ports: map<string, nat>, a: seq<Spot>, b: seq<Spot>, k: nat)
    requires Laid(nodes, ports, a) && Laid(nodes, ports, b) && k <= |nodes|
    ensures a[..k] == b[..k]
  {
    if k > 0 {
      LaidIsUnique(nodes, ports, a, b, k - 1);
      var top := ScaledTop(nodes, ValueOf(nodes[k - 1].y));
      assert LaidAt(nodes, ports, a, k - 1) && LaidAt(nodes, ports, b, k - 1);
      hide ScaledTop, ScaledLeft, HeightOf, ShareColumn;
      assert forall j :: 0 <= j < k - 1 ==> a[j] == a[..k - 1][j] == b[..k - 1][j] == b[j];
      assert a[k - 1] == b[k - 1];
      assert a[..k] == a[..k - 1] + [a[k - 1]] && b[..k] == b[..k - 1] + [b[k - 1]];
    }
  }

  /** Scaling by 1.5 keeps the imported picture: distances grow alike, and the node
      furthest left or up lies on zero. */
  lemma ScalingKeepsPicture(nodes: seq<Imported>, a: real, b: real)
    ensures ScaledLeft(nodes, a) - ScaledLeft(nodes, b) == (a - b) * 1.5
    ensures ScaledTop(nodes, a) - ScaledTop(nodes, b) == (a - b) * 1.5
    ensures nodes != [] ==> exists k :: 0 <= k < |nodes| && ScaledLeft(nodes, ValueOf(nodes[k].x)) == 0.0
    ensures nodes != [] ==> exists k :: 0 <= k < |nodes| && ScaledTop(nodes, ValueOf(nodes[k].y)) == 0.0
  {
    if nodes != [] {
      var k :| 0 <= k < |nodes| && Lefts(nodes)[k] == Least(Lefts(nodes));
      var l :| 0 <= l < |nodes| && Tops(nodes)[l] == Least(Tops(nodes));
      assert ScaledLeft(nodes, ValueOf(nodes[k].x)) == 0.0 && ScaledTop(nodes, ValueOf(nodes[l].y)) == 0.0;
    }
  }

  // ------------------------------------------------------------------
  // the skyline
  // ------------------------------------------------------------------

  type Levels = map<int, real>

  function LevelAt(skyline: Levels, column: int): real {
    if column in skyline then skyline[column] else 0.0
  }

  predicate Covers(spot: Spot, column: int) {
    ColumnOf(spot.x) <= column <= ColumnOf(spot.x + WIDTH)
  }

  function Foot(spot: Spot): real {
    spot.y + spot.height + MARGIN
  }

  /** The skyline over a column: the lowest foot of the spots that stand in it. */
  ghost predicate LevelOk(spots: seq<Spot>, level: real, column: int) {
    && level >= 0.0
    && (forall j :: 0 <= j < |spots| && Covers(spots[j], column) ==> Foot(spots[j]) <= level)
    && (level == 0.0 || exists j :: 0 <= j < |spots| && Covers(spots[j], column) && Foot(spots[j]) == level)
  }

  ghost predicate SkylineOk(spots: seq<Spot>, skyline: Levels) {
    forall column :: LevelOk(spots, LevelAt(skyline, column), column)
  }

  /** Clearing every column a node covers clears exactly the spots it shares one with. */
  lemma ClearedSpotRests(spots: seq<Spot>, skyline: Levels, spot: Spot, top: real)
    requires SkylineOk(spots, skyline) && top >= 0.0
    requires spot.y >= top && forall c :: Covers(spot, c) ==> LevelAt(skyline, c) <= spot.y
    requires spot.y == top || exists c :: Covers(spot, c) && LevelAt(skyline, c) == spot.y
    ensures RestsAt(spots + [spot], |spots|, top)
  {
    var all := spots + [spot];
    forall j | 0 <= j < |spots| && ShareColumn(all[j], spot) ensures Below(spot, all[j]) {
      var c := if ColumnOf(spot.x) <= ColumnOf(all[j].x) then ColumnOf(all[j].x) else ColumnOf(spot.x);
      ColumnsRise(spot.x, spot.x + WIDTH);
      ColumnsRise(all[j].x, all[j].x + WIDTH);
      assert Covers(spots[j], c) && Covers(spot, c);
      assert LevelOk(spots, LevelAt(skyline, c), c);
    }
    if spot.y != top {
      var c :| Covers(spot, c) && LevelAt(skyline, c) == spot.y;
      assert LevelOk(spots, LevelAt(skyline, c), c);
      var j :| 0 <= j < |spots| && Covers(spots[j], c) && Foot(spots[j]) == spot.y;
      assert ShareColumn(all[j], spot) && spot.y == all[j].y + all[j].height + MARGIN;
    }
  }

  /** Raising the covered columns to the new foot keeps the skyline exact. */
  lemma RaisedSkylineIsExact(spots: seq<Spot>, skyline: Levels, spot: Spot, raised: Levels)
    requires SkylineOk(spots, skyline) && spot.y >= 0.0 && spot.height >= 0.0
    requires forall c :: Covers(spot, c) ==> LevelAt(skyline, c) <= spot.y && LevelAt(raised, c) == Foot(spot)
    requires forall c :: !Covers(spot, c) ==> LevelAt(raised, c) == LevelAt(skyline, c)
    ensures SkylineOk(spots + [spot], raised)
  {
    var all := spots + [spot];
    forall c ensures LevelOk(all, LevelAt(raised, c), c) {
      assert LevelOk(spots, LevelAt(skyline, c), c);
      if Covers(spot, c) {
        assert all[|spots|] == spot;
      } else if LevelAt(skyline, c) != 0.0 {
        var j :| 0 <= j < |spots| && Covers(spots[j], c) && Foot(spots[j]) == LevelAt(skyline, c);
        assert all[j] == spots[j];
      }
    }
  }

  lemma RestingIsLocal(spots: seq<Spot>, spot: Spot, k: nat, top: real)
    requires k < |spots| && RestsAt(spots, k, top)
    ensures RestsAt(spots + [spot], k, top)
  {
    var all := spots + [spot];
    if spots[k].y != top {
      var j :| 0 <= j < k && ShareColumn(spots[j], spots[k]) && spots[k].y == spots[j].y + spots[j].height + MARGIN;
      assert ShareColumn(all[j], all[k]) && all[k].y == all[j].y + all[j].height + MARGIN;
    }
  }

  /** Drop one node onto the skyline and raise it. */
  method Drop(skyline: Levels, x: real, top: real, height: real) returns (y: real, raised: Levels)
    requires top >= 0.0
    ensures y >= top && forall c :: Covers(Spot(x, y, height), c) ==> LevelAt(skyline, c) <= y
    ensures y == top || exists c :: Covers(Spot(x, y, height), c) && LevelAt(skyline, c) == y
    ensures forall c :: Covers(Spot(x, y, height), c) ==> LevelAt(raised, c) == Foot(Spot(x, y, height))
    ensures forall c :: !Covers(Spot(x, y, height), c) ==> LevelAt(raised, c) == LevelAt(skyline, c)
  {
    y, raised := top, skyline;
    var start, end := ColumnOf(x), ColumnOf(x + WIDTH);
    ColumnsRise(x, x + WIDTH);
    hide ColumnOf;
    for column := start to end + 1
      invariant y >= top && forall c :: start <= c < column ==> LevelAt(skyline, c) <= y
      invariant y == top || exists c :: start <= c < column && LevelAt(skyline, c) == y
    {
      if y < LevelAt(skyline, column) {
        y := LevelAt(skyline, column);
      }
    }
    for column := start to end + 1
      invariant forall c :: start <= c < column ==> LevelAt(raised, c) == y + height + MARGIN
      invariant forall c :: c < start || column <= c ==> LevelAt(raised, c) == LevelAt(skyline, c)
    {
      ghost var before := raised;
      raised := raised[column := y + height + MARGIN];
      assert forall c :: LevelAt(raised, c) == if c == column then y + height + MARGIN else LevelAt(before, c);
    }
  }

  /** The next node, dropped, keeps every spot laid and the skyline exact. */
  lemma DropStep(
    nodes: seq<Imported>, ports: map<string, nat>, spots: seq<Spot>, skyline: Levels, spot: Spot, raised: Levels)
    requires |spots| < |nodes| && SkylineOk(spots, skyline)
    requires forall k :: 0 <= k < |spots| ==> LaidAt(nodes, ports, spots, k)
    requires var node := nodes[|spots|]; var top := ScaledTop(nodes, ValueOf(node.y));
             && spot.x == ScaledLeft(nodes, ValueOf(node.x)) && spot.height == HeightOf(ports, node.typeName)
             && spot.y >= top >= 0.0
             && (spot.y == top || exists c :: Covers(spot, c) && LevelAt(skyline, c) == spot.y)
    requires forall c :: Covers(spot, c) ==> LevelAt(skyline, c) <= spot.y && LevelAt(raised, c) == Foot(spot)
    requires forall c :: !Covers(spot, c) ==> LevelAt(raised, c) == LevelAt(skyline, c)
    ensures SkylineOk(spots + [spot], raised)
    ensures forall k :: 0 <= k <= |spots| ==> LaidAt(nodes, ports, spots + [spot], k)
  {
    hide ScaledTop, ScaledLeft, HeightOf, SkylineOk, RestsAt, Covers, LevelAt, Foot;
    ClearedSpotRests(spots, skyline, spot, ScaledTop(nodes, ValueOf(nodes[|spots|].y)));
    RaisedSkylineIsExact(spots, skyline, spot, raised);
    forall k | 0 <= k < |spots| ensures LaidAt(nodes, ports, spots + [spot], k) {
      assert LaidAt(nodes, ports, spots, k);
      RestingIsLocal(spots, spot, k, ScaledTop(nodes, ValueOf(nodes[k].y)));
    }
  }

  method ImportPositions(ops: seq<GraphOp>, ports: map<string, nat>)
    returns (r: Result<map<NodeId, (real, real)>, ()>)
    ensures r.Ok? <==> forall i :: 0 <= i < |ops| && ops[i].AddNode? ==> InRange(ops[i].pos)
    ensures r.Ok? ==> LaidOut(Sorted(Added(ops)), ports, r.value)
  {
    for i := 0 to |ops|
      invariant forall k :: 0 <= k < i && ops[k].AddNode? ==> InRange(ops[k].pos)
    {
      if ops[i].AddNode? && !InRange(ops[i].pos) {
        return Err(());
      }
    }
    var placed := Lay(Sorted(Added(ops)), ports);
    return Ok(placed);
  }

  /** Lay out nodes in the order given. */
  method Lay(nodes: seq<Imported>, ports: map<string, nat>) returns (result: map<NodeId, (real, real)>)
    ensures LaidOut(nodes, ports, result)
  {
    assert SkylineOk([], map[]);
    hide ScaledTop, ScaledLeft, HeightOf, SkylineOk, LaidAt, Covers, LevelAt, Foot;
    result := map[];
    var skyline: Levels := map[];
    ghost var spots: seq<Spot> := [];
    for i := 0 to |nodes|
      invariant |spots| == i && SkylineOk(spots, skyline)
      invariant forall k :: 0 <= k < i ==> LaidAt(nodes, ports, spots, k)
      invariant Reports(nodes[..i], spots, result)
    {
      var node := nodes[i];
      ScaledIsPositive(nodes, i);
      var x, top := ScaledLeft(nodes, ValueOf(node.x)), ScaledTop(nodes, ValueOf(node.y));
      var height := HeightOf(ports, node.typeName);
      var y, raised := Drop(skyline, x, top, height);
      ghost var spot := Spot(x, y, height);
      DropStep(nodes, ports, spots, skyline, spot, raised);
      ReportsStep(nodes, i, spots, result, spot);
      spots, skyline := spots + [spot], raised;
      result := result[node.id := (x, y)];
    }
    assert nodes[..|nodes|] == nodes;
    assert Laid(nodes, ports, spots);
  }

  lemma ScaledIsPositive(nodes: seq<Imported>, k: nat)
    requires k < |nodes|
    ensures ScaledTop(nodes, ValueOf(nodes[k].y)) >= 0.0 && ScaledLeft(nodes, ValueOf(nodes[k].x)) >= 0.0
  {
    assert Tops(nodes)[k] == ValueOf(nodes[k].y) && Lefts(nodes)[k] == ValueOf(nodes[k].x);
    assert ValueOf(nodes[k].y) in Tops(nodes) && ValueOf(nodes[k].x) in Lefts(nodes);
  }

  lemma ReportsStep(nodes: seq<Imported>, i: nat, spots: seq<Spot>, result: map<NodeId, (real, real)>, spot: Spot)
    requires i < |nodes| && Reports(nodes[..i], spots, result)
    ensures Reports(nodes[..i + 1], spots + [spot], result[nodes[i].id := (spot.x, spot.y)])
  {
    var next, more, all := nodes[..i + 1], result[nodes[i].id := (spot.x, spot.y)], spots + [spot];
    forall id | id in more
      ensures exists k :: 0 <= k < i + 1 && next[k].id == id && more[id] == (all[k].x, all[k].y)
    {
      if id == nodes[i].id {
        assert next[i].id == id;
      } else {
        var k :| 0 <= k < i && nodes[..i][k].id == id && result[id] == (spots[k].x, spots[k].y);
        assert next[k].id == id && (spots + [spot])[k] == spots[k];
      }
    }
    forall k | 0 <= k < i + 1 ensures next[k].id in more {
      if k < i {
        assert nodes[..i][k].id in result;
      }
    }
  }
}
