/**
 * Placement of a block of nodes left of the nodes still in use: the block is
 * laid out on a grid, translated so that its right-most node sits a margin
 * left of the left-most used node, and wrapped in a new frame.
 */
module Placement {
  import opened Graph
  import opened Layout

  /** The grid the block is laid out on. */
  const BlockCols := 6
  const BlockGapX := 120.0
  const BlockGapY := 80.0

  /** The frame's corner sits this far left of and above the block. */
  const FramePad := 40.0
  const FrameLabel := "The Material Editor Exterminatus"

  /** The host's `nodes.new("NodeFrame")` with the label and location the
      placement gives it; `name` is the name the host chooses. */
  function FrameNode(name: string, x: real, y: real): (n: Node)
    ensures n.typeTag == FrameType && n.idName == FrameIdName && n.nodeLabel == FrameLabel
    ensures n.x == x && n.y == y && n.width == 0.0 && n.name == name
    ensures n.inputs == [] && n.outputs == [] && n.parent.None? && n.payload.None?
  {
    Node(FrameType, FrameIdName, name, FrameLabel, x, y, 0.0, 0.0, [], [], None, None, "", None)
  }

  /** Node `id` moved right by `dx`. */
  function MoveRight(t: Tree, id: NodeId, dx: real): (r: Tree)
    requires id in t.nodes
    ensures MovesOnly(t, r, [id])
    ensures r.nodes[id].x == t.nodes[id].x + dx && r.nodes[id].y == t.nodes[id].y
  {
    SetLocation(t, id, t.nodes[id].x + dx, t.nodes[id].y)
  }

  /** Every node of `ids` moved right by `dx`, one after the other (a node
      listed twice moves twice). */
  function ShiftX(t: Tree, ids: seq<NodeId>, dx: real): (r: Tree)
    requires AllIn(t, ids)
    ensures MovesOnly(t, r, ids)
    decreases |ids|
  {
    if ids == [] then t
    else
      var r := ShiftX(MoveRight(t, ids[0], dx), ids[1..], dx);
      assert forall i :: i in ids[1..] ==> i in ids;
      r
  }

  /** Each node of a duplicate-free list moves by exactly `dx`, horizontally. */
  lemma {:induction false} ShiftXAt(t: Tree, ids: seq<NodeId>, dx: real, id: NodeId)
    requires AllIn(t, ids) && NoDup(ids) && id in ids
    ensures ShiftX(t, ids, dx).nodes[id].x == t.nodes[id].x + dx
    ensures ShiftX(t, ids, dx).nodes[id].y == t.nodes[id].y
    decreases |ids|
  {
    var t1 := MoveRight(t, ids[0], dx);
    if id == ids[0] {
      assert id !in ids[1..];
    } else {
      assert id in ids[1..];
      ShiftXAt(t1, ids[1..], dx, id);
    }
  }

  /** Every node of `ids` put into frame `f`. */
  function SetParents(t: Tree, ids: seq<NodeId>, f: NodeId): (r: Tree)
    ensures r.nodes.Keys == t.nodes.Keys && r.links == t.links && r.order == t.order
    ensures r.name == t.name && r.kind == t.kind
    ensures forall id :: id in t.nodes && id in ids ==> r.nodes[id].parent == Some(f)
    ensures forall id :: id in t.nodes ==> r.nodes[id] == t.nodes[id].(parent := r.nodes[id].parent)
    ensures forall id :: id in t.nodes && id !in ids ==> r.nodes[id] == t.nodes[id]
  {
    t.(nodes := map id | id in t.nodes :: if id in ids then t.nodes[id].(parent := Some(f)) else t.nodes[id])
  }

  /** Moving nodes keeps a tree well formed. */
  lemma MovesOnlyWellFormed(t: Tree, r: Tree, ids: seq<NodeId>)
    requires MovesOnly(t, r, ids)
    ensures WellFormed(t) ==> WellFormed(r)
  {
    if WellFormed(t) {
      forall x | x in r.links
        ensures x.fromNode in r.nodes && x.fromSocket < |r.nodes[x.fromNode].outputs|
        ensures x.toNode in r.nodes && x.toSocket < |r.nodes[x.toNode].inputs|
      {
        assert Relocated(t.nodes[x.fromNode], r.nodes[x.fromNode]);
        assert Relocated(t.nodes[x.toNode], r.nodes[x.toNode]);
      }
    }
  }

  /** Framing nodes keeps a tree well formed. */
  lemma SetParentsWellFormed(t: Tree, ids: seq<NodeId>, f: NodeId)
    ensures WellFormed(t) ==> WellFormed(SetParents(t, ids, f))
  {
    var r := SetParents(t, ids, f);
    if WellFormed(t) {
      forall x | x in r.links
        ensures x.fromNode in r.nodes && x.fromSocket < |r.nodes[x.fromNode].outputs|
        ensures x.toNode in r.nodes && x.toSocket < |r.nodes[x.toNode].inputs|
      {
        assert r.nodes[x.fromNode].outputs == t.nodes[x.fromNode].outputs;
        assert r.nodes[x.toNode].inputs == t.nodes[x.toNode].inputs;
      }
    }
  }

  /** When every x of `ids` in `b` is its x in `a` moved by `dx`, so are the
      least and the greatest. */
  lemma ExtremesShiftX(a: Tree, b: Tree, ids: seq<NodeId>, dx: real)
    requires AllIn(a, ids) && AllIn(b, ids) && ids != []
    requires forall k :: 0 <= k < |ids| ==> b.nodes[ids[k]].x == a.nodes[ids[k]].x + dx
    ensures MaxX(b, ids) == MaxX(a, ids) + dx
    ensures MinX(b, ids) == MinX(a, ids) + dx
  {
    var i :| 0 <= i < |ids| && MaxX(a, ids) == a.nodes[ids[i]].x;
    var j :| 0 <= j < |ids| && MaxX(b, ids) == b.nodes[ids[j]].x;
    assert b.nodes[ids[i]].x <= MaxX(b, ids);
    assert a.nodes[ids[j]].x <= MaxX(a, ids);
    var i' :| 0 <= i' < |ids| && MinX(a, ids) == a.nodes[ids[i']].x;
    var j' :| 0 <= j' < |ids| && MinX(b, ids) == b.nodes[ids[j']].x;
    assert MinX(b, ids) <= b.nodes[ids[i']].x;
    assert MinX(a, ids) <= a.nodes[ids[j']].x;
  }

  /** When the y of `ids` agree in `a` and `b`, so does the greatest. */
  lemma MaxYSame(a: Tree, b: Tree, ids: seq<NodeId>)
    requires AllIn(a, ids) && AllIn(b, ids) && ids != []
    requires forall k :: 0 <= k < |ids| ==> b.nodes[ids[k]].y == a.nodes[ids[k]].y
    ensures MaxY(b, ids) == MaxY(a, ids)
  {
    var i :| 0 <= i < |ids| && MaxY(a, ids) == a.nodes[ids[i]].y;
    var j :| 0 <= j < |ids| && MaxY(b, ids) == b.nodes[ids[j]].y;
    assert b.nodes[ids[i]].y <= MaxY(b, ids);
    assert a.nodes[ids[j]].y <= MaxY(a, ids);
  }

  /** The left edge of the used nodes after the block's layout, 0 when there
      are none. */
  function UsedMinX(t: Tree, used: seq<NodeId>): (m: real)
    requires AllIn(t, used)
    ensures used == [] ==> m == 0.0
    ensures forall k :: 0 <= k < |used| ==> m <= t.nodes[used[k]].x
    ensures used != [] ==> exists k :: 0 <= k < |used| && m == t.nodes[used[k]].x
  {
    if used == [] then 0.0 else MinX(t, used)
  }

  /** The block laid out on its grid, before it is moved. */
  function BlockLayout(t: Tree, group: seq<NodeId>): (r: Tree)
    requires AllIn(t, group)
    ensures MovesOnly(t, r, group)
  {
    LayoutNodesGrid(t, group, BlockCols, BlockGapX, BlockGapY)
  }

  /** The horizontal move that puts the block's right-most node `margin`
      left of the used nodes. */
  function BlockShift(t: Tree, group: seq<NodeId>, used: seq<NodeId>, margin: real): real
    requires AllIn(t, group) && AllIn(t, used) && group != []
  {
    var l := BlockLayout(t, group);
    (UsedMinX(l, used) - margin) - MaxX(l, group)
  }

  /** The block laid out and moved left of the used nodes. */
  function ShiftedBlock(t: Tree, group: seq<NodeId>, used: seq<NodeId>, margin: real): (s: Tree)
    requires AllIn(t, group) && AllIn(t, used) && group != []
    ensures MovesOnly(t, s, group)
    ensures WellFormed(t) ==> WellFormed(s)
  {
    var l := BlockLayout(t, group);
    var s := ShiftX(l, group, BlockShift(t, group, used, margin));
    MovesOnlyTrans(t, l, s, group, group, group);
    MovesOnlyWellFormed(t, s, group);
    s
  }

  /** A new frame around the nodes `group` of `s`: it is added 40 units left
      of and above their top-left corner, and becomes their parent. */
  function Enframe(s: Tree, group: seq<NodeId>, frameName: string): (r: (Tree, NodeId))
    requires AllIn(s, group) && group != []
    ensures r.1 !in s.nodes && r.0.nodes.Keys == s.nodes.Keys + {r.1}
    ensures r.0.links == s.links && r.0.name == s.name && r.0.kind == s.kind && r.0.order == s.order + [r.1]
    ensures r.0.nodes[r.1] == FrameNode(frameName, MinX(s, group) - FramePad, MaxY(s, group) + FramePad)
    ensures forall id :: id in s.nodes ==>
      r.0.nodes[id] == s.nodes[id].(parent := if id in group then Some(r.1) else s.nodes[id].parent)
    ensures WellFormed(s) ==> WellFormed(r.0)
  {
    var f := FreshId(s);
    var a := AddNode(s, f, FrameNode(frameName, MinX(s, group) - FramePad, MaxY(s, group) + FramePad));
    SetParentsWellFormed(a, group, f);
    (SetParents(a, group, f), f)
  }

  /** The host's `place_group_left_of_used(tree, group, used, margin)`: the
      new tree and the frame created, if any; `frameName` is the name the
      host gives the frame. */
  function PlaceGroupLeftOfUsed(t: Tree, group: seq<NodeId>, used: seq<NodeId>, margin: real, frameName: string)
    : (r: (Tree, Option<NodeId>))
    requires AllIn(t, group) && AllIn(t, used)
    ensures group == [] <==> r.1.None?
    ensures group == [] ==> r.0 == t
    ensures r.1.Some? ==> r.1.value !in t.nodes && r.0.nodes.Keys == t.nodes.Keys + {r.1.value}
    ensures r.1.Some? ==> r.0.order == t.order + [r.1.value]
    ensures r.0.links == t.links && r.0.name == t.name && r.0.kind == t.kind
    ensures WellFormed(t) ==> WellFormed(r.0)
  {
    if group == [] then (t, None)
    else
      var e := Enframe(ShiftedBlock(t, group, used, margin), group, frameName);
      (e.0, Some(e.1))
  }

  /** For a duplicate-free block, each block node ends where the grid put it,
      moved right by the one shift `BlockShift`, inside the new frame. */
  lemma PlaceGroupMoves(t: Tree, group: seq<NodeId>, used: seq<NodeId>, margin: real, frameName: string, id: NodeId)
    requires AllIn(t, group) && AllIn(t, used) && NoDup(group) && id in group
    ensures var r := PlaceGroupLeftOfUsed(t, group, used, margin, frameName);
            var l := BlockLayout(t, group);
            && r.0.nodes[id].x == l.nodes[id].x + BlockShift(t, group, used, margin)
            && r.0.nodes[id].y == l.nodes[id].y
            && r.0.nodes[id].parent == r.1
            && r.0.nodes[id] == l.nodes[id].(x := r.0.nodes[id].x, parent := r.1)
  {
    var l := BlockLayout(t, group);
    var dx := BlockShift(t, group, used, margin);
    ShiftXAt(l, group, dx, id);
  }

  /** Every node keeps its kind, name, label, size, sockets and payload:
      only locations and frames change. */
  lemma PlaceGroupKeeps(t: Tree, group: seq<NodeId>, used: seq<NodeId>, margin: real, frameName: string, id: NodeId)
    requires AllIn(t, group) && AllIn(t, used) && id in t.nodes
    ensures var n := PlaceGroupLeftOfUsed(t, group, used, margin, frameName).0.nodes[id];
            Relocated(t.nodes[id], n.(parent := t.nodes[id].parent))
  {
    if group != [] {
      var s := ShiftedBlock(t, group, used, margin);
      assert Relocated(t.nodes[id], s.nodes[id]);
    }
  }

  /** Every block node ends in the new frame. */
  lemma PlaceGroupParent(t: Tree, group: seq<NodeId>, used: seq<NodeId>, margin: real, frameName: string, id: NodeId)
    requires AllIn(t, group) && AllIn(t, used) && id in group
    ensures var r := PlaceGroupLeftOfUsed(t, group, used, margin, frameName);
            r.1.Some? && r.0.nodes[id].parent == r.1
  {
  }

  /** Nodes outside the block are left exactly as they were. */
  lemma PlaceGroupOthers(t: Tree, group: seq<NodeId>, used: seq<NodeId>, margin: real, frameName: string, id: NodeId)
    requires AllIn(t, group) && AllIn(t, used) && id in t.nodes && id !in group
    ensures PlaceGroupLeftOfUsed(t, group, used, margin, frameName).0.nodes[id] == t.nodes[id]
  {
    if group != [] {
      var s := ShiftedBlock(t, group, used, margin);
      assert s.nodes[id] == t.nodes[id];
    }
  }

  /** The frame leaves every location as it was. */
  lemma EnframeKeepsLocations(s: Tree, group: seq<NodeId>, frameName: string)
    requires AllIn(s, group) && group != []
    ensures var e := Enframe(s, group, frameName);
            && AllIn(e.0, group)
            && MaxX(e.0, group) == MaxX(s, group)
            && MinX(e.0, group) == MinX(s, group)
            && MaxY(e.0, group) == MaxY(s, group)
  {
    var e := Enframe(s, group, frameName);
    forall k | 0 <= k < |group|
      ensures e.0.nodes[group[k]].x == s.nodes[group[k]].x + 0.0
      ensures e.0.nodes[group[k]].y == s.nodes[group[k]].y
    {
    }
    ExtremesShiftX(s, e.0, group, 0.0);
    MaxYSame(s, e.0, group);
  }

  /** After the move the block's right-most node sits exactly `margin` left
      of the left-most used node (of 0 when no node is used). */
  lemma ShiftedBlockMargin(t: Tree, group: seq<NodeId>, used: seq<NodeId>, margin: real)
    requires AllIn(t, group) && AllIn(t, used) && NoDup(group) && group != []
    ensures MaxX(ShiftedBlock(t, group, used, margin), group) == UsedMinX(BlockLayout(t, group), used) - margin
  {
    var l := BlockLayout(t, group);
    var dx := BlockShift(t, group, used, margin);
    var s := ShiftedBlock(t, group, used, margin);
    assert s == ShiftX(l, group, dx);
    forall k | 0 <= k < |group|
      ensures s.nodes[group[k]].x == l.nodes[group[k]].x + dx
    {
      ShiftXAt(l, group, dx, group[k]);
    }
    ExtremesShiftX(l, s, group, dx);
  }

  /** After the placement the block's right-most node sits exactly `margin`
      left of the left-most used node (of 0 when no node is used). */
  lemma PlaceGroupMargin(t: Tree, group: seq<NodeId>, used: seq<NodeId>, margin: real, frameName: string)
    requires AllIn(t, group) && AllIn(t, used) && NoDup(group) && group != []
    ensures var r := PlaceGroupLeftOfUsed(t, group, used, margin, frameName);
            AllIn(r.0, group) && MaxX(r.0, group) == UsedMinX(BlockLayout(t, group), used) - margin
  {
    var s := ShiftedBlock(t, group, used, margin);
    ShiftedBlockMargin(t, group, used, margin);
    EnframeKeepsLocations(s, group, frameName);
  }

  /** The new node is a frame labelled "The Material Editor Exterminatus",
      of width 0, 40 units left of and above the block's final top-left
      corner. */
  lemma PlaceGroupFrame(t: Tree, group: seq<NodeId>, used: seq<NodeId>, margin: real, frameName: string)
    requires AllIn(t, group) && AllIn(t, used) && group != []
    ensures var r := PlaceGroupLeftOfUsed(t, group, used, margin, frameName);
            var f := r.0.nodes[r.1.value];
            && AllIn(r.0, group)
            && f.typeTag == FrameType && f.nodeLabel == FrameLabel && f.name == frameName && f.width == 0.0
            && f.payload.None?
            && f.x == MinX(r.0, group) - FramePad && f.y == MaxY(r.0, group) + FramePad
  {
    var s := ShiftedBlock(t, group, used, margin);
    var e := Enframe(s, group, frameName);
    EnframeKeepsLocations(s, group, frameName);
    var f := e.0.nodes[e.1];
    assert f.x == MinX(s, group) - FramePad;
    assert f.y == MaxY(s, group) + FramePad;
  }
}
