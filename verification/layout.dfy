/**
 * The grid layout of a list of nodes: helper attribute nodes (label
 * `_tmp_attr`) are set aside, the other ("regular") nodes are sorted top to
 * bottom and left to right and laid out row-major with per-column maximum
 * widths and per-row maximum heights, anchored at the regular nodes' former
 * top-left corner; each helper is then put 150 units left of the regular
 * node whose name it carries after an `Attr_` prefix.
 */
module Layout {
  import opened Graph
  import opened Ordering
  import opened Text

  function Max(a: real, b: real): real {
    if a >= b then a else b
  }

  // ---------------------------------------------------------------------------
  // Grid arithmetic over the sorted cells
  // ---------------------------------------------------------------------------

  /** The width of column `c` after the first `n` cells: the widest cell of
      the column, and not below 0 (each column starts at 0). */
  function ColumnWidth(ws: seq<real>, cols: nat, c: nat, n: nat): (w: real)
    requires cols > 0 && n <= |ws|
    ensures w >= 0.0
    ensures forall j :: 0 <= j < n && j % cols == c ==> ws[j] <= w
    ensures w == 0.0 || exists j :: 0 <= j < n && j % cols == c && ws[j] == w
  {
    if n == 0 then 0.0
    else
      var w := ColumnWidth(ws, cols, c, n - 1);
      if (n - 1) % cols == c then Max(w, ws[n - 1]) else w
  }

  /** The height of row `r` after the first `n` cells, likewise. */
  function RowHeight(hs: seq<real>, cols: nat, r: nat, n: nat): (h: real)
    requires cols > 0 && n <= |hs|
    ensures h >= 0.0
    ensures forall j :: 0 <= j < n && j / cols == r ==> hs[j] <= h
    ensures h == 0.0 || exists j :: 0 <= j < n && j / cols == r && hs[j] == h
  {
    if n == 0 then 0.0
    else
      var h := RowHeight(hs, cols, r, n - 1);
      if (n - 1) / cols == r then Max(h, hs[n - 1]) else h
  }

  /** The total width of the columns left of column `c`. */
  function ColumnsBefore(ws: seq<real>, cols: nat, c: nat): real
    requires cols > 0
  {
    if c == 0 then 0.0 else ColumnsBefore(ws, cols, c - 1) + ColumnWidth(ws, cols, c - 1, |ws|)
  }

  /** The total height of the rows above row `r`. */
  function RowsBefore(hs: seq<real>, cols: nat, r: nat): real
    requires cols > 0
  {
    if r == 0 then 0.0 else RowsBefore(hs, cols, r - 1) + RowHeight(hs, cols, r - 1, |hs|)
  }

  /** The grid: origin, cell sizes in visiting order, column count, gaps. */
  datatype Grid = Grid(ox: real, oy: real, ws: seq<real>, hs: seq<real>, cols: nat, gapX: real, gapY: real)

  predicate ValidGrid(g: Grid) {
    g.cols > 0 && |g.ws| == |g.hs|
  }

  /** The room taken by `n` gaps of size `g`, added up one gap at a time. */
  function Gaps(n: nat, g: real): real {
    if n == 0 then 0.0 else Gaps(n - 1, g) + g
  }

  /** The room taken by `n` gaps is the host's product `n * g`. */
  lemma {:induction false} GapsProduct(n: nat, g: real)
    ensures Gaps(n, g) == n as real * g
  {
    if n > 0 {
      GapsProduct(n - 1, g);
      assert n as real * g == (n - 1) as real * g + g;
    }
  }

  /** The x coordinate of the `k`-th cell. */
  function CellX(g: Grid, k: nat): real
    requires ValidGrid(g)
  {
    g.ox + ColumnsBefore(g.ws, g.cols, k % g.cols) + Gaps(k % g.cols, g.gapX)
  }

  /** The y coordinate of the `k`-th cell (y grows upwards). */
  function CellY(g: Grid, k: nat): real
    requires ValidGrid(g)
  {
    g.oy - RowsBefore(g.hs, g.cols, k / g.cols) - Gaps(k / g.cols, g.gapY)
  }

  lemma {:induction false} ColumnsBeforeGrow(ws: seq<real>, cols: nat, a: nat, b: nat)
    requires cols > 0 && a < b
    ensures ColumnsBefore(ws, cols, a) + ColumnWidth(ws, cols, a, |ws|) <= ColumnsBefore(ws, cols, b)
    decreases b
  {
    if a + 1 < b {
      ColumnsBeforeGrow(ws, cols, a, b - 1);
    }
  }

  lemma {:induction false} RowsBeforeGrow(hs: seq<real>, cols: nat, a: nat, b: nat)
    requires cols > 0 && a < b
    ensures RowsBefore(hs, cols, a) + RowHeight(hs, cols, a, |hs|) <= RowsBefore(hs, cols, b)
    decreases b
  {
    if a + 1 < b {
      RowsBeforeGrow(hs, cols, a, b - 1);
    }
  }

  lemma {:induction false} ScaleMonotone(a: nat, b: nat, g: real)
    requires a < b && g >= 0.0
    ensures Gaps(a, g) + g <= Gaps(b, g)
    decreases b
  {
    if a + 1 < b {
      ScaleMonotone(a, b - 1, g);
    }
  }

  /** Column `cj` right of column `ci` starts at least a gap beyond the
      right edge of anything in column `ci`. */
  lemma ColumnsSeparated(ws: seq<real>, cols: nat, gapX: real, ci: nat, cj: nat, w: real)
    requires cols > 0 && ci < cj && gapX >= 0.0 && w <= ColumnWidth(ws, cols, ci, |ws|)
    ensures ColumnsBefore(ws, cols, ci) + Gaps(ci, gapX) + w + gapX
         <= ColumnsBefore(ws, cols, cj) + Gaps(cj, gapX)
  {
    ColumnsBeforeGrow(ws, cols, ci, cj);
    ScaleMonotone(ci, cj, gapX);
  }

  /** Row `rj` below row `ri` starts at least a gap below the bottom edge of
      anything in row `ri`. */
  lemma RowsSeparated(hs: seq<real>, cols: nat, gapY: real, ri: nat, rj: nat, h: real)
    requires cols > 0 && ri < rj && gapY >= 0.0 && h <= RowHeight(hs, cols, ri, |hs|)
    ensures RowsBefore(hs, cols, ri) + Gaps(ri, gapY) + h + gapY
         <= RowsBefore(hs, cols, rj) + Gaps(rj, gapY)
  {
    RowsBeforeGrow(hs, cols, ri, rj);
    ScaleMonotone(ri, rj, gapY);
  }

  /** Cells never overlap: a cell in a column further right starts at least
      a gap beyond the right edge of the other, and a cell in a lower row
      starts at least a gap below its bottom edge; cells of one column share
      their x and cells of one row their y. */
  lemma CellsSeparated(g: Grid, i: nat, j: nat)
    requires ValidGrid(g) && i < |g.ws| && j < |g.ws|
    requires g.gapX >= 0.0 && g.gapY >= 0.0
    ensures i % g.cols < j % g.cols ==> CellX(g, i) + g.ws[i] + g.gapX <= CellX(g, j)
    ensures i / g.cols < j / g.cols ==> CellY(g, j) <= CellY(g, i) - g.hs[i] - g.gapY
    ensures i % g.cols == j % g.cols ==> CellX(g, i) == CellX(g, j)
    ensures i / g.cols == j / g.cols ==> CellY(g, i) == CellY(g, j)
  {
    var ci, cj := i % g.cols, j % g.cols;
    var ri, rj := i / g.cols, j / g.cols;
    if ci < cj {
      ColumnsSeparated(g.ws, g.cols, g.gapX, ci, cj, g.ws[i]);
    }
    if ri < rj {
      RowsSeparated(g.hs, g.cols, g.gapY, ri, rj, g.hs[i]);
    }
  }

  lemma DistinctCell(i: nat, j: nat, cols: nat)
    requires cols > 0 && i != j
    ensures i % cols != j % cols || i / cols != j / cols
  {
    assert i == (i / cols) * cols + i % cols;
    assert j == (j / cols) * cols + j % cols;
  }

  /** Two distinct cells occupy disjoint boxes `[x, x + width] x [y - height, y]`
      (up to a shared edge when a gap is 0). */
  lemma CellsDisjoint(g: Grid, i: nat, j: nat)
    requires ValidGrid(g) && i < |g.ws| && j < |g.ws| && i != j
    requires g.gapX >= 0.0 && g.gapY >= 0.0
    ensures || CellX(g, i) + g.ws[i] <= CellX(g, j)
            || CellX(g, j) + g.ws[j] <= CellX(g, i)
            || CellY(g, j) <= CellY(g, i) - g.hs[i]
            || CellY(g, i) <= CellY(g, j) - g.hs[j]
  {
    DistinctCell(i, j, g.cols);
    CellsSeparated(g, i, j);
    CellsSeparated(g, j, i);
  }

  /** The first cell sits at the origin. */
  lemma FirstCellAtOrigin(g: Grid)
    requires ValidGrid(g)
    ensures CellX(g, 0) == g.ox && CellY(g, 0) == g.oy
  {
  }

  // ---------------------------------------------------------------------------
  // Nodes
  // ---------------------------------------------------------------------------

  predicate AllIn(t: Tree, ids: seq<NodeId>) {
    forall k :: 0 <= k < |ids| ==> ids[k] in t.nodes
  }

  predicate IsHelper(n: Node) {
    n.nodeLabel == TmpAttrLabel
  }

  /** The nodes of `ids` that are helpers (`helper`) or regular (`!helper`),
      order kept. */
  function Select(t: Tree, ids: seq<NodeId>, helper: bool): (r: seq<NodeId>)
    requires AllIn(t, ids)
    ensures AllIn(t, r)
    ensures forall id :: id in r <==> id in ids && IsHelper(t.nodes[id]) == helper
    ensures NoDup(ids) ==> NoDup(r)
  {
    if ids == [] then []
    else if IsHelper(t.nodes[ids[0]]) == helper then [ids[0]] + Select(t, ids[1..], helper)
    else Select(t, ids[1..], helper)
  }

  /** The locations of `ids`, as the sort reads them. */
  function PointsOf(t: Tree, ids: seq<NodeId>): (r: seq<Point>)
    requires AllIn(t, ids)
    ensures |r| == |ids| && forall k :: 0 <= k < |ids| ==> r[k] == Point(t.nodes[ids[k]].x, t.nodes[ids[k]].y)
  {
    if ids == [] then [] else [Point(t.nodes[ids[0]].x, t.nodes[ids[0]].y)] + PointsOf(t, ids[1..])
  }

  function WidthsOf(t: Tree, ids: seq<NodeId>): (r: seq<real>)
    requires AllIn(t, ids)
    ensures |r| == |ids| && forall k :: 0 <= k < |ids| ==> r[k] == t.nodes[ids[k]].width
  {
    if ids == [] then [] else [t.nodes[ids[0]].width] + WidthsOf(t, ids[1..])
  }

  function HeightsOf(t: Tree, ids: seq<NodeId>): (r: seq<real>)
    requires AllIn(t, ids)
    ensures |r| == |ids| && forall k :: 0 <= k < |ids| ==> r[k] == t.nodes[ids[k]].height
  {
    if ids == [] then [] else [t.nodes[ids[0]].height] + HeightsOf(t, ids[1..])
  }

  /** The least x among the nodes `ids`. */
  function MinX(t: Tree, ids: seq<NodeId>): (m: real)
    requires AllIn(t, ids) && ids != []
    ensures forall k :: 0 <= k < |ids| ==> m <= t.nodes[ids[k]].x
    ensures exists k :: 0 <= k < |ids| && m == t.nodes[ids[k]].x
  {
    if |ids| == 1 then t.nodes[ids[0]].x
    else
      var m := MinX(t, ids[1..]);
      assert forall k :: 1 <= k < |ids| ==> ids[k] == ids[1..][k - 1];
      if t.nodes[ids[0]].x <= m then t.nodes[ids[0]].x else m
  }

  /** The greatest x among the nodes `ids`. */
  function MaxX(t: Tree, ids: seq<NodeId>): (m: real)
    requires AllIn(t, ids) && ids != []
    ensures forall k :: 0 <= k < |ids| ==> t.nodes[ids[k]].x <= m
    ensures exists k :: 0 <= k < |ids| && m == t.nodes[ids[k]].x
  {
    if |ids| == 1 then t.nodes[ids[0]].x
    else
      var m := MaxX(t, ids[1..]);
      assert forall k :: 1 <= k < |ids| ==> ids[k] == ids[1..][k - 1];
      if t.nodes[ids[0]].x >= m then t.nodes[ids[0]].x else m
  }

  /** The greatest y among the nodes `ids`. */
  function MaxY(t: Tree, ids: seq<NodeId>): (m: real)
    requires AllIn(t, ids) && ids != []
    ensures forall k :: 0 <= k < |ids| ==> t.nodes[ids[k]].y <= m
    ensures exists k :: 0 <= k < |ids| && m == t.nodes[ids[k]].y
  {
    if |ids| == 1 then t.nodes[ids[0]].y
    else
      var m := MaxY(t, ids[1..]);
      assert forall k :: 1 <= k < |ids| ==> ids[k] == ids[1..][k - 1];
      if t.nodes[ids[0]].y >= m then t.nodes[ids[0]].y else m
  }

  /** The regular nodes of `ids` in visiting order: stably sorted by y
      descending, then x ascending. */
  function GridOrder(t: Tree, ids: seq<NodeId>): (s: seq<NodeId>)
    requires AllIn(t, ids)
    ensures AllIn(t, s)
  {
    var reg := Select(t, ids, false);
    var perm := SortedPositions(PointsOf(t, reg));
    seq(|perm|, k requires 0 <= k < |perm| => reg[perm[k]])
  }

  /** The grid the regular nodes of `ids` are laid out on. */
  function GridOf(t: Tree, ids: seq<NodeId>, cols: nat, gapX: real, gapY: real): (g: Grid)
    requires AllIn(t, ids) && cols > 0 && Select(t, ids, false) != []
    ensures ValidGrid(g)
  {
    var reg := Select(t, ids, false);
    var s := GridOrder(t, ids);
    Grid(MinX(t, reg), MaxY(t, reg), WidthsOf(t, s), HeightsOf(t, s), cols, gapX, gapY)
  }

  /** `t` with node `id` moved to `(x, y)`. */
  function SetLocation(t: Tree, id: NodeId, x: real, y: real): (r: Tree)
    requires id in t.nodes
    ensures r.nodes.Keys == t.nodes.Keys && r.links == t.links && r.order == t.order
    ensures r.name == t.name && r.kind == t.kind
    ensures r.nodes[id] == t.nodes[id].(x := x, y := y)
    ensures forall i :: i in t.nodes && i != id ==> r.nodes[i] == t.nodes[i]
  {
    t.(nodes := t.nodes[id := t.nodes[id].(x := x, y := y)])
  }

  /** Only locations differ. */
  predicate Relocated(a: Node, b: Node) {
    && a.typeTag == b.typeTag && a.idName == b.idName && a.name == b.name && a.nodeLabel == b.nodeLabel
    && a.width == b.width && a.height == b.height && a.inputs == b.inputs && a.outputs == b.outputs
    && a.payload == b.payload && a.parent == b.parent
    && a.attributeName == b.attributeName && a.attributeType == b.attributeType
  }

  /** The tree differs from `t` at most in the locations of nodes `ids`. */
  predicate MovesOnly(t: Tree, r: Tree, ids: seq<NodeId>) {
    && r.nodes.Keys == t.nodes.Keys && r.links == t.links && r.order == t.order
    && r.name == t.name && r.kind == t.kind
    && (forall id :: id in t.nodes ==> Relocated(t.nodes[id], r.nodes[id]))
    && (forall id :: id in t.nodes && id !in ids ==> r.nodes[id] == t.nodes[id])
  }

  lemma MovesOnlyTrans(t: Tree, u: Tree, r: Tree, a: seq<NodeId>, b: seq<NodeId>, c: seq<NodeId>)
    requires MovesOnly(t, u, a) && MovesOnly(u, r, b)
    requires forall id :: id in a || id in b ==> id in c
    ensures MovesOnly(t, r, c)
  {
  }

  /** Cells `from ..` of `s` placed on grid `g`, one after the other. */
  function PlaceCells(t: Tree, s: seq<NodeId>, g: Grid, from: nat): (r: Tree)
    requires AllIn(t, s) && ValidGrid(g) && from <= |s|
    ensures MovesOnly(t, r, s[from..])
    decreases |s| - from
  {
    if from == |s| then t
    else
      var r := PlaceCells(SetLocation(t, s[from], CellX(g, from), CellY(g, from)), s, g, from + 1);
      assert forall id :: id in s[from + 1..] ==> id in s[from..];
      r
  }

  lemma {:induction false} PlaceCellsAt(t: Tree, s: seq<NodeId>, g: Grid, from: nat, k: nat)
    requires AllIn(t, s) && ValidGrid(g) && from <= k < |s| && NoDup(s)
    ensures PlaceCells(t, s, g, from).nodes[s[k]].x == CellX(g, k)
    ensures PlaceCells(t, s, g, from).nodes[s[k]].y == CellY(g, k)
    decreases |s| - from
  {
    var t1 := SetLocation(t, s[from], CellX(g, from), CellY(g, from));
    if from < k {
      PlaceCellsAt(t1, s, g, from + 1, k);
    } else {
      assert s[k] !in s[k + 1..];
    }
  }

  /** The first regular node of `reg` called `name`. */
  function FirstNamed(t: Tree, reg: seq<NodeId>, name: string): (r: Option<NodeId>)
    requires AllIn(t, reg)
    ensures r.Some? ==> r.value in reg && t.nodes[r.value].name == name
    ensures r.None? <==> forall k :: 0 <= k < |reg| ==> t.nodes[reg[k]].name != name
  {
    if reg == [] then None
    else if t.nodes[reg[0]].name == name then Some(reg[0])
    else FirstNamed(t, reg[1..], name)
  }

  const HelperPrefix := "Attr_"
  const HelperOffset := 150.0

  /** The regular node a helper node is placed next to: the first whose name
      is the helper's name with every `Attr_` removed. */
  function HelperParent(t: Tree, reg: seq<NodeId>, a: NodeId): Option<NodeId>
    requires AllIn(t, reg) && a in t.nodes
  {
    FirstNamed(t, reg, RemoveAll(t.nodes[a].name, HelperPrefix))
  }

  /** Helper `a` placed left of its regular node, when it has one.  The
      pairing is decided on the tree `t0` before the layout; the regular
      node's location is read from the current tree `t`. */
  function PlaceHelper(t0: Tree, t: Tree, reg: seq<NodeId>, a: NodeId): (r: Tree)
    requires AllIn(t0, reg) && a in t0.nodes && t.nodes.Keys == t0.nodes.Keys
    ensures MovesOnly(t, r, [a])
    ensures HelperParent(t0, reg, a).None? ==> r == t
    ensures HelperParent(t0, reg, a).Some? ==>
      var p := HelperParent(t0, reg, a).value;
      r.nodes[a].x == t.nodes[p].x - HelperOffset && r.nodes[a].y == t.nodes[p].y
  {
    match HelperParent(t0, reg, a)
    case None => t
    case Some(p) => SetLocation(t, a, t.nodes[p].x - HelperOffset, t.nodes[p].y)
  }

  /** The helpers `hs` placed one after the other. */
  function PlaceHelpers(t0: Tree, t: Tree, reg: seq<NodeId>, hs: seq<NodeId>): (r: Tree)
    requires AllIn(t0, reg) && AllIn(t0, hs) && t.nodes.Keys == t0.nodes.Keys
    ensures MovesOnly(t, r, hs)
    decreases |hs|
  {
    if hs == [] then t
    else
      var t1 := PlaceHelper(t0, t, reg, hs[0]);
      var r := PlaceHelpers(t0, t1, reg, hs[1..]);
      assert forall id :: id in hs[1..] ==> id in hs;
      r
  }

  /** The host's `layout_nodes_grid(ids, cols, gapX, gapY)`. */
  function LayoutNodesGrid(t: Tree, ids: seq<NodeId>, cols: nat, gapX: real, gapY: real): (r: Tree)
    requires AllIn(t, ids)
    requires cols > 0 || Select(t, ids, false) == []
    ensures MovesOnly(t, r, ids)
    ensures Select(t, ids, false) == [] ==> r == t
  {
    var reg := Select(t, ids, false);
    if reg == [] then t
    else
      var s := GridOrder(t, ids);
      var t1 := PlaceCells(t, s, GridOf(t, ids, cols, gapX, gapY), 0);
      var hs := Select(t, ids, true);
      var r := PlaceHelpers(t, t1, reg, hs);
      SortedPositionsSpec(PointsOf(t, reg));
      assert forall id :: id in s ==> id in ids by {
        forall id | id in s ensures id in ids {
          var k :| 0 <= k < |s| && s[k] == id;
        }
      }
      MovesOnlyTrans(t, t1, r, s, hs, ids);
      r
  }

  // ---------------------------------------------------------------------------
  // What the layout does to each node
  // ---------------------------------------------------------------------------

  /** Where a helper lands depends only on the helper and its regular node. */
  lemma PlaceHelperLocal(t0: Tree, t: Tree, u: Tree, reg: seq<NodeId>, a: NodeId)
    requires AllIn(t0, reg) && a in t0.nodes && t.nodes.Keys == t0.nodes.Keys && u.nodes.Keys == t0.nodes.Keys
    requires t.nodes[a] == u.nodes[a]
    requires HelperParent(t0, reg, a).Some? ==> t.nodes[HelperParent(t0, reg, a).value] == u.nodes[HelperParent(t0, reg, a).value]
    ensures PlaceHelper(t0, t, reg, a).nodes[a] == PlaceHelper(t0, u, reg, a).nodes[a]
  {
  }

  /** Each helper of a duplicate-free `hs` ends where placing it alone on
      the tree before any helper moved would put it. */
  lemma {:induction false} PlaceHelpersAt(t0: Tree, t: Tree, reg: seq<NodeId>, hs: seq<NodeId>, a: NodeId)
    requires AllIn(t0, reg) && AllIn(t0, hs) && t.nodes.Keys == t0.nodes.Keys && a in hs && NoDup(hs)
    requires forall id :: id in reg ==> id !in hs
    ensures PlaceHelpers(t0, t, reg, hs).nodes[a] == PlaceHelper(t0, t, reg, a).nodes[a]
    decreases |hs|
  {
    var t1 := PlaceHelper(t0, t, reg, hs[0]);
    var r := PlaceHelpers(t0, t1, reg, hs[1..]);
    if a == hs[0] {
      assert a !in hs[1..];
    } else {
      assert a in hs[1..];
      PlaceHelpersAt(t0, t1, reg, hs[1..], a);
      if HelperParent(t0, reg, a).Some? {
        assert HelperParent(t0, reg, a).value !in hs;
      }
      PlaceHelperLocal(t0, t1, t, reg, a);
    }
  }

  /** The visiting order is the regular nodes of the list sorted by y
      descending, x ascending, ties in list order: a permutation of the
      regular nodes, duplicate-free when the list is. */
  lemma GridOrderSpec(t: Tree, ids: seq<NodeId>)
    requires AllIn(t, ids)
    ensures var reg := Select(t, ids, false);
            var perm := SortedPositions(PointsOf(t, reg));
            && |GridOrder(t, ids)| == |perm| == |reg|
            && multiset(perm) == multiset(Positions(|reg|))
            && Sorted(PointsOf(t, reg), perm)
            && (forall k :: 0 <= k < |perm| ==> GridOrder(t, ids)[k] == reg[perm[k]])
    ensures forall id :: id in GridOrder(t, ids) <==> id in Select(t, ids, false)
  {
    var reg := Select(t, ids, false);
    var perm := SortedPositions(PointsOf(t, reg));
    var s := GridOrder(t, ids);
    SortedPositionsSpec(PointsOf(t, reg));
    forall id | id in reg ensures id in s {
      var j :| 0 <= j < |reg| && reg[j] == id;
      assert j in perm;
      var k :| 0 <= k < |perm| && perm[k] == j;
      assert s[k] == id;
    }
  }

  /** The visiting order of a duplicate-free list is duplicate-free. */
  lemma GridOrderNoDup(t: Tree, ids: seq<NodeId>)
    requires AllIn(t, ids) && NoDup(ids)
    ensures NoDup(GridOrder(t, ids))
  {
    var reg := Select(t, ids, false);
    var perm := SortedPositions(PointsOf(t, reg));
    var s := GridOrder(t, ids);
    SortedPositionsSpec(PointsOf(t, reg));
    forall a, b | 0 <= a < b < |s| ensures s[a] != s[b] {
      assert perm[a] != perm[b];
    }
  }

  /** The layout is the cell placement followed by the helper placement. */
  lemma LayoutSteps(t: Tree, ids: seq<NodeId>, cols: nat, gapX: real, gapY: real)
    requires AllIn(t, ids) && cols > 0 && Select(t, ids, false) != []
    ensures LayoutNodesGrid(t, ids, cols, gapX, gapY)
      == PlaceHelpers(t, PlaceCells(t, GridOrder(t, ids), GridOf(t, ids, cols, gapX, gapY), 0),
                      Select(t, ids, false), Select(t, ids, true))
  {
  }

  /** For a duplicate-free list with a regular node, the `k`-th node of the
      visiting order lands in cell `k` of the grid. */
  lemma LayoutCells(t: Tree, ids: seq<NodeId>, cols: nat, gapX: real, gapY: real, k: nat)
    requires AllIn(t, ids) && NoDup(ids) && cols > 0 && Select(t, ids, false) != []
    requires k < |GridOrder(t, ids)|
    ensures var r := LayoutNodesGrid(t, ids, cols, gapX, gapY);
            var s := GridOrder(t, ids);
            var g := GridOf(t, ids, cols, gapX, gapY);
            r.nodes[s[k]].x == CellX(g, k) && r.nodes[s[k]].y == CellY(g, k)
  {
    var reg := Select(t, ids, false);
    var hs := Select(t, ids, true);
    var s := GridOrder(t, ids);
    var g := GridOf(t, ids, cols, gapX, gapY);
    var t1 := PlaceCells(t, s, g, 0);
    LayoutSteps(t, ids, cols, gapX, gapY);
    GridOrderSpec(t, ids);
    GridOrderNoDup(t, ids);
    PlaceCellsAt(t, s, g, 0, k);
    assert s[k] in reg && s[k] !in hs;
  }

  /** For a duplicate-free list with a regular node, each helper ends 150
      units left of its regular node's final location, at the same height,
      and a helper without one stays where it was. */
  lemma LayoutHelper(t: Tree, ids: seq<NodeId>, cols: nat, gapX: real, gapY: real, a: NodeId)
    requires AllIn(t, ids) && NoDup(ids) && cols > 0 && Select(t, ids, false) != []
    requires a in ids && IsHelper(t.nodes[a])
    ensures var r := LayoutNodesGrid(t, ids, cols, gapX, gapY);
            var p := HelperParent(t, Select(t, ids, false), a);
            if p.None? then r.nodes[a] == t.nodes[a]
            else r.nodes[a].x == r.nodes[p.value].x - HelperOffset && r.nodes[a].y == r.nodes[p.value].y
  {
    var reg := Select(t, ids, false);
    var hs := Select(t, ids, true);
    var s := GridOrder(t, ids);
    var g := GridOf(t, ids, cols, gapX, gapY);
    var t1 := PlaceCells(t, s, g, 0);
    var r := PlaceHelpers(t, t1, reg, hs);
    LayoutSteps(t, ids, cols, gapX, gapY);
    GridOrderSpec(t, ids);
    assert a in hs && a !in s[0..];
    assert t1.nodes[a] == t.nodes[a];
    assert forall id :: id in reg ==> id !in hs;
    PlaceHelpersAt(t, t1, reg, hs, a);
    var h := PlaceHelper(t, t1, reg, a);
    assert r.nodes[a] == h.nodes[a];
    var p := HelperParent(t, reg, a);
    if p.Some? {
      assert p.value !in hs;
      assert r.nodes[p.value] == t1.nodes[p.value];
    } else {
      assert h == t1;
    }
  }
}
