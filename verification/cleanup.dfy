/**
 * The two clean-up passes run before the unused nodes are grouped: removal
 * of the helper attribute nodes left by an earlier run, and removal of the
 * frame an earlier run created.
 */
module Cleanup {
  import opened Graph

  /** The helper attribute nodes of `t`. */
  function TmpAttributeIds(t: Tree): (r: set<NodeId>)
    ensures forall id :: id in r <==> id in t.nodes && IsTmpAttribute(t.nodes[id])
  {
    set id | id in t.nodes && IsTmpAttribute(t.nodes[id])
  }

  /** The host's `remove_tmp_attribute_nodes`: every attribute-kind node
      labelled as a helper goes, every other node stays. */
  function RemoveTmpAttributeNodes(t: Tree): (r: Tree)
    ensures forall id :: id in r.nodes <==> id in t.nodes && !IsTmpAttribute(t.nodes[id])
    ensures forall id :: id in r.nodes ==> r.nodes[id] == Detach(t.nodes[id], TmpAttributeIds(t))
    ensures forall l :: l in r.links <==>
      l in t.links && l.fromNode !in TmpAttributeIds(t) && l.toNode !in TmpAttributeIds(t)
    ensures WellFormed(t) ==> WellFormed(r)
  {
    RemoveNodes(t, TmpAttributeIds(t))
  }

  /** After the pass no helper attribute node is left, so a second pass
      removes nothing. */
  lemma RemoveTmpAttributeNodesIdempotent(t: Tree)
    ensures TmpAttributeIds(RemoveTmpAttributeNodes(t)) == {}
    ensures RemoveTmpAttributeNodes(RemoveTmpAttributeNodes(t)) == RemoveTmpAttributeNodes(t)
  {
    var r := RemoveTmpAttributeNodes(t);
    forall id | id in r.nodes ensures !IsTmpAttribute(r.nodes[id]) {
      assert r.nodes[id] == Detach(t.nodes[id], TmpAttributeIds(t));
    }
    RemoveNodesTwice(t, TmpAttributeIds(t), {});
    assert TmpAttributeIds(t) + {} == TmpAttributeIds(t);
  }

  const UnusedFrameName := "UNUSED_FRAME"

  predicate IsUnusedFrame(n: Node) {
    n.typeTag == FrameType && n.name == UnusedFrameName
  }

  /** The first node of `order` that is a frame called `UNUSED_FRAME`. */
  function FirstUnusedFrame(t: Tree, order: seq<NodeId>): (r: Option<NodeId>)
    ensures r.None? <==> forall i :: 0 <= i < |order| ==> !(order[i] in t.nodes && IsUnusedFrame(t.nodes[order[i]]))
    ensures r.Some? ==> r.value in t.nodes && IsUnusedFrame(t.nodes[r.value])
    ensures r.Some? ==>
      (exists i :: 0 <= i < |order| && order[i] == r.value
         && forall j :: 0 <= j < i ==> !(order[j] in t.nodes && IsUnusedFrame(t.nodes[order[j]])))
  {
    if order == [] then None
    else if order[0] in t.nodes && IsUnusedFrame(t.nodes[order[0]]) then Some(order[0])
    else
      var r := FirstUnusedFrame(t, order[1..]);
      if r.Some? then
        var i :| 0 <= i < |order[1..]| && order[1..][i] == r.value
          && forall j :: 0 <= j < i ==> !(order[1..][j] in t.nodes && IsUnusedFrame(t.nodes[order[1..][j]]));
        assert order[i + 1] == r.value;
        assert forall j :: 0 < j < i + 1 ==> order[j] == order[1..][j - 1];
        r
      else r
  }

  /** A frame appended to an order that holds none is the one found. */
  lemma FirstUnusedFrameAppended(t: Tree, order: seq<NodeId>, f: NodeId)
    requires f in t.nodes && IsUnusedFrame(t.nodes[f])
    requires forall i :: 0 <= i < |order| ==> !(order[i] in t.nodes && IsUnusedFrame(t.nodes[order[i]]))
    ensures FirstUnusedFrame(t, order + [f]) == Some(f)
  {
    var s := order + [f];
    assert s[|order|] == f;
    assert forall i :: 0 <= i < |order| ==> s[i] == order[i];
  }

  /** `_remove_existing_unused_frame`: the first `UNUSED_FRAME` frame in
      collection order is removed (its children are detached by the host);
      later frames of that name and all other nodes stay. */
  function RemoveExistingUnusedFrame(t: Tree): (r: Tree)
    ensures FirstUnusedFrame(t, t.order).None? ==> r == t
    ensures FirstUnusedFrame(t, t.order).Some? ==>
      r == RemoveNodes(t, {FirstUnusedFrame(t, t.order).value})
      && r.nodes.Keys == t.nodes.Keys - {FirstUnusedFrame(t, t.order).value}
    ensures WellFormed(t) ==> WellFormed(r)
  {
    match FirstUnusedFrame(t, t.order)
    case None => t
    case Some(id) => RemoveNodes(t, {id})
  }

  /** In a well-formed tree the pass removes a frame exactly when one
      called `UNUSED_FRAME` exists, and then exactly one node goes. */
  lemma RemoveExistingUnusedFrameCount(t: Tree)
    requires WellFormed(t)
    ensures (exists id :: id in t.nodes && IsUnusedFrame(t.nodes[id])) <==>
      |RemoveExistingUnusedFrame(t).nodes.Keys| == |t.nodes.Keys| - 1
    ensures !(exists id :: id in t.nodes && IsUnusedFrame(t.nodes[id])) ==> RemoveExistingUnusedFrame(t) == t
  {
    var f := FirstUnusedFrame(t, t.order);
    if exists id :: id in t.nodes && IsUnusedFrame(t.nodes[id]) {
      var id :| id in t.nodes && IsUnusedFrame(t.nodes[id]);
      assert id in t.order;
      var i :| 0 <= i < |t.order| && t.order[i] == id;
      assert f.Some?;
    } else {
      assert f.None?;
    }
  }
}
