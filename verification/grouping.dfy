/**
 * The grouping operation on one node tree: the frame and the helper nodes
 * of an earlier run are removed, the unused nodes are searched, each gets a
 * helper attribute node where it has a free input, and all of them are laid
 * out left of the used nodes inside a frame called `UNUSED_FRAME`.
 */
module Grouping {
  import opened Graph
  import opened Reachability
  import opened Unused
  import opened Cleanup
  import opened Layout
  import opened Placement
  import opened Attribute
  import opened GroupUsage

  /** An unused node and the helper attached to it, if one was created. */
  datatype Pair = Pair(helper: Option<NodeId>, target: NodeId)

  /** The nodes to lay out: per pair, the helper if any, then the target. */
  function GroupedNodes(pairs: seq<Pair>): (r: seq<NodeId>)
    ensures forall id :: id in r <==> exists i :: 0 <= i < |pairs| && (pairs[i].target == id || pairs[i].helper == Some(id))
  {
    if pairs == [] then []
    else
      var head := (if pairs[0].helper.Some? then [pairs[0].helper.value] else []) + [pairs[0].target];
      var r := head + GroupedNodes(pairs[1..]);
      assert forall i :: 1 <= i < |pairs| ==> pairs[i] == pairs[1..][i - 1];
      r
  }

  /** Grouping distributes over appending pairs. */
  lemma {:induction false} GroupedNodesAppend(a: seq<Pair>, b: seq<Pair>)
    ensures GroupedNodes(a + b) == GroupedNodes(a) + GroupedNodes(b)
  {
    if a != [] {
      GroupedNodesAppend(a[1..], b);
      assert (a + b)[1..] == a[1..] + b;
    } else {
      assert a + b == b;
    }
  }

  /** The nodes of `order` that are neither grouped nor frames. */
  function UsedList(t: Tree, all: seq<NodeId>, order: seq<NodeId>): (r: seq<NodeId>)
    ensures AllIn(t, r)
    ensures forall id :: id in r <==> id in order && id in t.nodes && id !in all && t.nodes[id].typeTag != FrameType
  {
    if order == [] then []
    else
      var id := order[0];
      var rest := UsedList(t, all, order[1..]);
      if id in t.nodes && id !in all && t.nodes[id].typeTag != FrameType then [id] + rest else rest
  }

  const GroupMargin := 400.0
  const UnusedFrameLabel := "UNUSED"

  /** The host's `_create_unused_frame`: nothing for no pairs; otherwise the
      grouped nodes are placed 400 units left of every other non-frame node
      and framed, and the frame is called `UNUSED_FRAME` and labelled
      `UNUSED`.  The host's own name for the frame is overwritten, so the
      frame is given its final name directly. */
  function CreateUnusedFrame(t: Tree, pairs: seq<Pair>): (r: (Tree, Option<NodeId>))
    requires AllIn(t, GroupedNodes(pairs))
    ensures pairs == [] <==> r.1.None?
    ensures pairs == [] ==> r.0 == t
    ensures r.1.Some? ==> r.1.value !in t.nodes && r.0.nodes.Keys == t.nodes.Keys + {r.1.value}
    ensures r.1.Some? ==> r.0.order == t.order + [r.1.value]
    ensures r.1.Some? ==> IsUnusedFrame(r.0.nodes[r.1.value]) && r.0.nodes[r.1.value].nodeLabel == UnusedFrameLabel
    ensures r.1.Some? ==> r.0.nodes[r.1.value].payload.None?
    ensures r.0.links == t.links && r.0.name == t.name && r.0.kind == t.kind
    ensures WellFormed(t) ==> WellFormed(r.0)
  {
    if pairs == [] then (t, None)
    else
      var all := GroupedNodes(pairs);
      var p := PlaceGroupLeftOfUsed(t, all, UsedList(t, all, t.order), GroupMargin, UnusedFrameName);
      PlaceGroupFrame(t, all, UsedList(t, all, t.order), GroupMargin, UnusedFrameName);
      (Relabel(p.0, p.1.value, UnusedFrameLabel), p.1)
  }

  /** `t` with node `id` labelled `text`. */
  function Relabel(t: Tree, id: NodeId, text: string): (r: Tree)
    requires id in t.nodes
    ensures r.nodes.Keys == t.nodes.Keys && r.links == t.links && r.order == t.order
    ensures r.name == t.name && r.kind == t.kind
    ensures r.nodes[id] == t.nodes[id].(nodeLabel := text)
    ensures forall i :: i in t.nodes && i != id ==> r.nodes[i] == t.nodes[i]
    ensures WellFormed(t) ==> WellFormed(r)
  {
    var r := t.(nodes := t.nodes[id := t.nodes[id].(nodeLabel := text)]);
    assert WellFormed(t) ==> WellFormed(r) by {
      if WellFormed(t) {
        forall x | x in r.links
          ensures x.fromNode in r.nodes && x.fromSocket < |r.nodes[x.fromNode].outputs|
          ensures x.toNode in r.nodes && x.toSocket < |r.nodes[x.toNode].inputs|
        {
          assert r.nodes[x.fromNode].outputs == t.nodes[x.fromNode].outputs;
          assert r.nodes[x.toNode].inputs == t.nodes[x.toNode].inputs;
        }
      }
    }
    r
  }

  /** Relabelling moves nothing. */
  lemma RelabelKeepsX(t: Tree, id: NodeId, text: string, ids: seq<NodeId>)
    requires id in t.nodes && AllIn(t, ids) && ids != []
    ensures AllIn(Relabel(t, id, text), ids) && MaxX(Relabel(t, id, text), ids) == MaxX(t, ids)
  {
    var r := Relabel(t, id, text);
    forall k | 0 <= k < |ids| ensures r.nodes[ids[k]].x == t.nodes[ids[k]].x + 0.0 {
    }
    ExtremesShiftX(t, r, ids, 0.0);
  }

  /** Relabelling keeps the top-left corner of a block. */
  lemma RelabelKeepsCorner(t: Tree, id: NodeId, text: string, ids: seq<NodeId>)
    requires id in t.nodes && AllIn(t, ids) && ids != []
    ensures AllIn(Relabel(t, id, text), ids)
    ensures MinX(Relabel(t, id, text), ids) == MinX(t, ids) && MaxY(Relabel(t, id, text), ids) == MaxY(t, ids)
  {
    var r := Relabel(t, id, text);
    forall k | 0 <= k < |ids|
      ensures r.nodes[ids[k]].x == t.nodes[ids[k]].x + 0.0
      ensures r.nodes[ids[k]].y == t.nodes[ids[k]].y
    {
    }
    ExtremesShiftX(t, r, ids, 0.0);
    MaxYSame(t, r, ids);
  }

  /** Every grouped node ends in the new frame, keeping its kind, name and
      sockets; every other old node is left as it was. */
  lemma CreateUnusedFrameNodes(t: Tree, pairs: seq<Pair>, id: NodeId)
    requires AllIn(t, GroupedNodes(pairs)) && id in t.nodes
    ensures var r := CreateUnusedFrame(t, pairs);
            && (id in GroupedNodes(pairs) ==> r.0.nodes[id].parent == r.1)
            && (id !in GroupedNodes(pairs) ==> r.0.nodes[id] == t.nodes[id])
            && Relocated(t.nodes[id], r.0.nodes[id].(parent := t.nodes[id].parent))
  {
    if pairs != [] {
      var all := GroupedNodes(pairs);
      var used := UsedList(t, all, t.order);
      var p := PlaceGroupLeftOfUsed(t, all, used, GroupMargin, UnusedFrameName);
      assert CreateUnusedFrame(t, pairs) == (Relabel(p.0, p.1.value, UnusedFrameLabel), p.1);
      PlaceGroupKeeps(t, all, used, GroupMargin, UnusedFrameName, id);
      if id in all {
        PlaceGroupParent(t, all, used, GroupMargin, UnusedFrameName, id);
      } else {
        PlaceGroupOthers(t, all, used, GroupMargin, UnusedFrameName, id);
      }
    }
  }

  /** The grouped nodes end with their right-most one 400 units left of the
      left-most node that stays in use (of 0 when none does). */
  lemma CreateUnusedFrameMargin(t: Tree, pairs: seq<Pair>)
    requires AllIn(t, GroupedNodes(pairs)) && NoDup(GroupedNodes(pairs)) && pairs != []
    ensures var all := GroupedNodes(pairs);
            var r := CreateUnusedFrame(t, pairs);
            AllIn(r.0, all) && MaxX(r.0, all) == UsedMinX(BlockLayout(t, all), UsedList(t, all, t.order)) - GroupMargin
  {
    var all := GroupedNodes(pairs);
    var used := UsedList(t, all, t.order);
    var p := PlaceGroupLeftOfUsed(t, all, used, GroupMargin, UnusedFrameName);
    assert CreateUnusedFrame(t, pairs) == (Relabel(p.0, p.1.value, UnusedFrameLabel), p.1);
    PlaceGroupMargin(t, all, used, GroupMargin, UnusedFrameName);
    RelabelKeepsX(p.0, p.1.value, UnusedFrameLabel, all);
  }

  /** The frame is called `UNUSED_FRAME`, labelled `UNUSED`, has width 0
      and no payload, and sits 40 units left of and above the top-left corner
      of the grouped nodes. */
  lemma CreateUnusedFrameFrame(t: Tree, pairs: seq<Pair>)
    requires AllIn(t, GroupedNodes(pairs)) && pairs != []
    ensures var all := GroupedNodes(pairs);
            var r := CreateUnusedFrame(t, pairs);
            var f := r.0.nodes[r.1.value];
            && all != [] && AllIn(r.0, all)
            && f.typeTag == FrameType && f.name == UnusedFrameName && f.nodeLabel == UnusedFrameLabel
            && f.width == 0.0 && f.payload.None?
            && f.x == MinX(r.0, all) - FramePad && f.y == MaxY(r.0, all) + FramePad
  {
    var all := GroupedNodes(pairs);
    var used := UsedList(t, all, t.order);
    var p := PlaceGroupLeftOfUsed(t, all, used, GroupMargin, UnusedFrameName);
    assert CreateUnusedFrame(t, pairs) == (Relabel(p.0, p.1.value, UnusedFrameLabel), p.1);
    PlaceGroupFrame(t, all, used, GroupMargin, UnusedFrameName);
    RelabelKeepsCorner(p.0, p.1.value, UnusedFrameLabel, all);
  }

  /** The next run's clean-up finds the frame this run created, when the tree
      had none before, and removing it gives back the old node set. */
  lemma CreateUnusedFrameFoundNext(t: Tree, pairs: seq<Pair>)
    requires AllIn(t, GroupedNodes(pairs)) && WellFormed(t) && pairs != []
    requires forall id :: id in t.nodes ==> !IsUnusedFrame(t.nodes[id])
    ensures var r := CreateUnusedFrame(t, pairs);
            && FirstUnusedFrame(r.0, r.0.order) == r.1
            && RemoveExistingUnusedFrame(r.0).nodes.Keys == t.nodes.Keys
  {
    var r := CreateUnusedFrame(t, pairs);
    var f := r.1.value;
    forall i | 0 <= i < |t.order|
      ensures !(t.order[i] in r.0.nodes && IsUnusedFrame(r.0.nodes[t.order[i]]))
    {
      CreateUnusedFrameNodes(t, pairs, t.order[i]);
    }
    FirstUnusedFrameAppended(r.0, t.order, f);
  }

  /** The tree the search sees: an earlier run's frame and helpers removed. */
  function Prepared(t: Tree): (r: Tree)
    ensures r.nodes.Keys <= t.nodes.Keys && r.name == t.name && r.kind == t.kind
    ensures TmpAttributeIds(r) == {}
    ensures PayloadsKept(t, r)
    ensures WellFormed(t) ==> WellFormed(r)
  {
    var u := RemoveExistingUnusedFrame(t);
    RemoveTmpAttributeNodesIdempotent(u);
    RemoveTmpAttributeNodes(u)
  }

  /** The unused nodes the search reports on the prepared tree. */
  ghost function SearchKeys(lib: Library, rank: map<TreeId, nat>, tid: TreeId): set<NodeRef>
    requires Ranked(lib, rank) && tid in lib
  {
    RankedReplace(lib, rank, tid, Prepared(lib[tid]));
    RecursiveKeys(lib[tid := Prepared(lib[tid])], rank, tid, true)
  }

  /** The target nodes of `pairs`. */
  function Targets(pairs: seq<Pair>): set<NodeId> {
    set i | 0 <= i < |pairs| :: pairs[i].target
  }

  /** Input `j` of node `id` is linked in `a` exactly when it is in `b`. */
  ghost predicate SameInputs(a: Tree, b: Tree, id: NodeId) {
    forall j: nat :: InputLinked(a, id, j) <==> InputLinked(b, id, j)
  }

  /** The free input search sees only the node's sockets and its links. */
  lemma {:induction false} FreeInputFromSame(a: Tree, b: Tree, id: NodeId, i: nat)
    requires id in a.nodes && id in b.nodes && a.nodes[id] == b.nodes[id] && SameInputs(a, b, id)
    ensures FreeInputFrom(a, id, i) == FreeInputFrom(b, id, i)
    decreases |a.nodes[id].inputs| - i
  {
    if i < |a.nodes[id].inputs| {
      FreeInputFromSame(a, b, id, i + 1);
    }
  }

  /** Adding a helper to `target` leaves every other node and its input
      links alone. */
  lemma AddAttributeNodeOthers(t: Tree, target: NodeId, attrText: string, attrType: string, channel: string,
                               host: string -> Template, id: NodeId)
    requires target in t.nodes && id in t.nodes && id != target
    ensures var r := AddAttributeNode(t, target, attrText, attrType, channel, host);
            id in r.0.nodes && r.0.nodes[id] == t.nodes[id] && SameInputs(r.0, t, id)
  {
    AddAttributeNodeLinks(t, target, attrText, attrType, channel, host);
  }

  /** The per-pair facts while helpers are being added to the prepared tree
      `t2`: each target is a node of `t2`, it has a helper exactly when it
      had a free input, and the helper is a new node built for it. */
  ghost predicate PairsMade(t2: Tree, cur: Tree, pairs: seq<Pair>, attrText: string, attrType: string,
                            host: string -> Template)
  {
    forall i :: 0 <= i < |pairs| ==>
      && pairs[i].target in t2.nodes
      && (pairs[i].helper.None? <==> FirstFreeInput(t2, pairs[i].target).None?)
      && (pairs[i].helper.Some? ==>
            && pairs[i].helper.value in cur.nodes && pairs[i].helper.value !in t2.nodes
            && cur.nodes[pairs[i].helper.value]
               == HelperNode(t2.kind, t2.nodes[pairs[i].target], attrText, attrType, host))
  }

  /** The nodes of `cur` beyond those of `t2` are helpers of `pairs`. */
  ghost predicate OnlyHelpersAdded(t2: Tree, cur: Tree, pairs: seq<Pair>) {
    forall id :: id in cur.nodes && id !in t2.nodes ==> exists i :: 0 <= i < |pairs| && pairs[i].helper == Some(id)
  }

  /** The nodes of `t2` are as they were, and those not yet handled have
      the same inputs linked. */
  ghost predicate Untouched(t2: Tree, cur: Tree, done: set<NodeId>) {
    forall id :: id in t2.nodes ==>
      && id in cur.nodes && cur.nodes[id] == t2.nodes[id]
      && (id !in done ==> SameInputs(cur, t2, id))
  }

  /** The link `_add_attribute_node` makes for pair `p`: from the helper's
      channel output to the target's first free input in the prepared tree
      `t2`; none when there is no helper or the helper has no outputs. */
  function PairLinks(t2: Tree, p: Pair, channel: string, host: string -> Template): set<Link> {
    var outs := host(AttributeIdName(t2.kind)).outputs;
    if p.helper.Some? && p.target in t2.nodes && FirstFreeInput(t2, p.target).Some? && outs != [] then
      {Link(p.helper.value, ChannelOutput(outs, channel).value, p.target, FirstFreeInput(t2, p.target).value)}
    else {}
  }

  /** The links made for all of `pairs`. */
  function HelperLinks(t2: Tree, pairs: seq<Pair>, channel: string, host: string -> Template): set<Link>
    decreases |pairs|
  {
    if pairs == [] then {}
    else HelperLinks(t2, pairs[..|pairs| - 1], channel, host) + PairLinks(t2, pairs[|pairs| - 1], channel, host)
  }

  /** A link is made for the pairs exactly when it is made for one of them. */
  lemma {:induction false} HelperLinksSpec(t2: Tree, pairs: seq<Pair>, channel: string, host: string -> Template, l: Link)
    ensures l in HelperLinks(t2, pairs, channel, host) <==> exists i :: 0 <= i < |pairs| && l in PairLinks(t2, pairs[i], channel, host)
    decreases |pairs|
  {
    if pairs != [] {
      var init := pairs[..|pairs| - 1];
      HelperLinksSpec(t2, init, channel, host, l);
      if l in HelperLinks(t2, init, channel, host) {
        var i :| 0 <= i < |init| && l in PairLinks(t2, init[i], channel, host);
        assert pairs[i] == init[i];
      }
      if exists i :: 0 <= i < |pairs| && l in PairLinks(t2, pairs[i], channel, host) {
        var i :| 0 <= i < |pairs| && l in PairLinks(t2, pairs[i], channel, host);
        if i < |init| {
          assert pairs[i] == init[i];
        }
      }
    }
  }

  /** What holds while helpers are being added to the prepared tree `t2`:
      `cur` is the tree so far, `done` the targets handled, `pairs` the pairs
      made. */
  ghost predicate Staging(t2: Tree, cur: Tree, pairs: seq<Pair>, done: set<NodeId>,
                          attrText: string, attrType: string, channel: string, host: string -> Template)
  {
    && Targets(pairs) == done
    && t2.nodes.Keys <= cur.nodes.Keys && cur.name == t2.name && cur.kind == t2.kind
    && PairsMade(t2, cur, pairs, attrText, attrType, host)
    && Untouched(t2, cur, done)
    && OnlyHelpersAdded(t2, cur, pairs)
    && cur.links == t2.links + HelperLinks(t2, pairs, channel, host)
    && AllIn(cur, GroupedNodes(pairs)) && NoDup(GroupedNodes(pairs))
    && (WellFormed(t2) ==> WellFormed(cur))
  }

  lemma StagingStart(t2: Tree, attrText: string, attrType: string, channel: string, host: string -> Template)
    ensures Staging(t2, t2, [], {}, attrText, attrType, channel, host)
  {
  }

  lemma TargetsAppend(pairs: seq<Pair>, p: Pair)
    ensures Targets(pairs + [p]) == Targets(pairs) + {p.target}
  {
    var pairs' := pairs + [p];
    assert forall i :: 0 <= i < |pairs| ==> pairs'[i] == pairs[i];
    assert pairs'[|pairs|] == p;
  }

  lemma PairsMadeStep(t2: Tree, cur: Tree, pairs: seq<Pair>, done: set<NodeId>,
                      attrText: string, attrType: string, channel: string, host: string -> Template, id: NodeId)
    requires t2.nodes.Keys <= cur.nodes.Keys && cur.kind == t2.kind
    requires PairsMade(t2, cur, pairs, attrText, attrType, host) && Untouched(t2, cur, done)
    requires id in t2.nodes && id !in done
    ensures var res := AddAttributeNode(cur, id, attrText, attrType, channel, host);
            PairsMade(t2, res.0, pairs + [Pair(res.1, id)], attrText, attrType, host)
  {
    var res := AddAttributeNode(cur, id, attrText, attrType, channel, host);
    var pairs' := pairs + [Pair(res.1, id)];
    FreeInputFromSame(cur, t2, id, 0);
    forall i | 0 <= i < |pairs'|
      ensures pairs'[i].target in t2.nodes
      ensures pairs'[i].helper.None? <==> FirstFreeInput(t2, pairs'[i].target).None?
      ensures pairs'[i].helper.Some? ==>
            && pairs'[i].helper.value in res.0.nodes && pairs'[i].helper.value !in t2.nodes
            && res.0.nodes[pairs'[i].helper.value]
               == HelperNode(t2.kind, t2.nodes[pairs'[i].target], attrText, attrType, host)
    {
      if i < |pairs| {
        assert pairs'[i] == pairs[i];
      }
    }
  }

  lemma OnlyHelpersStep(t2: Tree, cur: Tree, pairs: seq<Pair>, attrText: string, attrType: string, channel: string,
                        host: string -> Template, id: NodeId)
    requires OnlyHelpersAdded(t2, cur, pairs) && id in cur.nodes
    ensures var res := AddAttributeNode(cur, id, attrText, attrType, channel, host);
            OnlyHelpersAdded(t2, res.0, pairs + [Pair(res.1, id)])
  {
    var res := AddAttributeNode(cur, id, attrText, attrType, channel, host);
    var pairs' := pairs + [Pair(res.1, id)];
    forall x | x in res.0.nodes && x !in t2.nodes
      ensures exists i :: 0 <= i < |pairs'| && pairs'[i].helper == Some(x)
    {
      if x in cur.nodes {
        var i :| 0 <= i < |pairs| && pairs[i].helper == Some(x);
        assert pairs'[i] == pairs[i];
      } else {
        assert pairs'[|pairs|].helper == Some(x);
      }
    }
  }

  lemma UntouchedStep(t2: Tree, cur: Tree, done: set<NodeId>, attrText: string, attrType: string, channel: string,
                      host: string -> Template, id: NodeId)
    requires Untouched(t2, cur, done) && id in cur.nodes
    ensures var res := AddAttributeNode(cur, id, attrText, attrType, channel, host);
            Untouched(t2, res.0, done + {id})
  {
    var res := AddAttributeNode(cur, id, attrText, attrType, channel, host);
    forall x | x in t2.nodes
      ensures x in res.0.nodes && res.0.nodes[x] == t2.nodes[x]
      ensures x !in done + {id} ==> SameInputs(res.0, t2, x)
    {
      if x != id {
        AddAttributeNodeOthers(cur, id, attrText, attrType, channel, host, x);
      }
    }
  }

  lemma GroupedSingle(p: Pair)
    ensures GroupedNodes([p]) == (if p.helper.Some? then [p.helper.value] else []) + [p.target]
  {
    assert [p][1..] == [];
  }

  /** The ids of `g` stay clear of a new pair whose target was not handled
      yet and whose helper is new. */
  lemma GroupedClear(t2: Tree, cur: Tree, pairs: seq<Pair>, done: set<NodeId>, p: Pair)
    requires Targets(pairs) == done && AllIn(cur, GroupedNodes(pairs))
    requires forall i :: 0 <= i < |pairs| && pairs[i].helper.Some? ==> pairs[i].helper.value !in t2.nodes
    requires p.target in t2.nodes && p.target !in done && (p.helper.Some? ==> p.helper.value !in cur.nodes)
    ensures forall x :: x in GroupedNodes(pairs) ==> x !in GroupedNodes([p])
  {
    var g := GroupedNodes(pairs);
    GroupedSingle(p);
    forall x | x in g ensures x in cur.nodes && x != p.target {
      var k :| 0 <= k < |g| && g[k] == x;
      var i :| 0 <= i < |pairs| && (pairs[i].target == x || pairs[i].helper == Some(x));
      if pairs[i].target == x {
        assert x in Targets(pairs);
      }
    }
  }

  /** A new pair for an unhandled target, with a helper new to `cur`, keeps
      the grouped nodes present in the grown tree `u` and distinct. */
  lemma GroupedStep(t2: Tree, cur: Tree, u: Tree, pairs: seq<Pair>, done: set<NodeId>, p: Pair)
    requires Targets(pairs) == done && AllIn(cur, GroupedNodes(pairs)) && NoDup(GroupedNodes(pairs))
    requires forall i :: 0 <= i < |pairs| && pairs[i].helper.Some? ==> pairs[i].helper.value !in t2.nodes
    requires p.target in t2.nodes && p.target !in done && p.target in cur.nodes && cur.nodes.Keys <= u.nodes.Keys
    requires p.helper.Some? ==> p.helper.value !in cur.nodes && p.helper.value in u.nodes
    ensures AllIn(u, GroupedNodes(pairs + [p])) && NoDup(GroupedNodes(pairs + [p]))
  {
    GroupedNodesAppend(pairs, [p]);
    GroupedSingle(p);
    GroupedClear(t2, cur, pairs, done, p);
    NoDupAppend(GroupedNodes(pairs), GroupedNodes([p]), GroupedNodes(pairs + [p]));
    AllInAppend(u, GroupedNodes(pairs), GroupedNodes([p]), GroupedNodes(pairs + [p]));
  }

  lemma AllInAppend(t: Tree, a: seq<NodeId>, b: seq<NodeId>, c: seq<NodeId>)
    requires AllIn(t, a) && AllIn(t, b) && c == a + b
    ensures AllIn(t, c)
  {
  }

  /** One helper added keeps the staging facts. */
  lemma StagingStep(t2: Tree, cur: Tree, pairs: seq<Pair>, done: set<NodeId>,
                    attrText: string, attrType: string, channel: string, host: string -> Template, id: NodeId)
    requires Staging(t2, cur, pairs, done, attrText, attrType, channel, host)
    requires id in t2.nodes && id !in done
    ensures var res := AddAttributeNode(cur, id, attrText, attrType, channel, host);
            Staging(t2, res.0, pairs + [Pair(res.1, id)], done + {id}, attrText, attrType, channel, host)
  {
    var res := AddAttributeNode(cur, id, attrText, attrType, channel, host);
    TargetsAppend(pairs, Pair(res.1, id));
    PairsMadeStep(t2, cur, pairs, done, attrText, attrType, channel, host, id);
    OnlyHelpersStep(t2, cur, pairs, attrText, attrType, channel, host, id);
    UntouchedStep(t2, cur, done, attrText, attrType, channel, host, id);
    GroupedStep(t2, cur, res.0, pairs, done, Pair(res.1, id));
    LinksStep(t2, cur, pairs, done, attrText, attrType, channel, host, id);
  }

  /** One helper added adds exactly the link made for its pair. */
  lemma LinksStep(t2: Tree, cur: Tree, pairs: seq<Pair>, done: set<NodeId>,
                  attrText: string, attrType: string, channel: string, host: string -> Template, id: NodeId)
    requires cur.kind == t2.kind && Untouched(t2, cur, done)
    requires cur.links == t2.links + HelperLinks(t2, pairs, channel, host)
    requires id in t2.nodes && id !in done
    ensures var res := AddAttributeNode(cur, id, attrText, attrType, channel, host);
            res.0.links == t2.links + HelperLinks(t2, pairs + [Pair(res.1, id)], channel, host)
  {
    var res := AddAttributeNode(cur, id, attrText, attrType, channel, host);
    var p := Pair(res.1, id);
    assert (pairs + [p])[..|pairs|] == pairs;
    assert HelperLinks(t2, pairs + [p], channel, host) == HelperLinks(t2, pairs, channel, host) + PairLinks(t2, p, channel, host);
    FreeInputFromSame(cur, t2, id, 0);
    AddAttributeNodeLinks(cur, id, attrText, attrType, channel, host);
  }

  /** Helpers carry no payload, so staging keeps the payloads of `t2`. */
  lemma StagingPayloads(t2: Tree, cur: Tree, pairs: seq<Pair>, done: set<NodeId>,
                        attrText: string, attrType: string, channel: string, host: string -> Template)
    requires Staging(t2, cur, pairs, done, attrText, attrType, channel, host)
    ensures PayloadsKept(t2, cur)
  {
    forall id | id in cur.nodes && id !in t2.nodes ensures cur.nodes[id].payload.None? {
      var i :| 0 <= i < |pairs| && pairs[i].helper == Some(id);
    }
  }

  lemma PayloadsKeptTrans(a: Tree, b: Tree, c: Tree)
    requires PayloadsKept(a, b) && PayloadsKept(b, c)
    ensures PayloadsKept(a, c)
  {
  }

  /** Framing adds a frame without payload and keeps every other payload. */
  lemma CreateUnusedFramePayloads(t: Tree, pairs: seq<Pair>)
    requires AllIn(t, GroupedNodes(pairs))
    ensures PayloadsKept(t, CreateUnusedFrame(t, pairs).0)
  {
    var r := CreateUnusedFrame(t, pairs);
    if pairs != [] {
      forall id | id in r.0.nodes && r.0.nodes[id].payload.Some?
        ensures id in t.nodes && r.0.nodes[id].payload == t.nodes[id].payload
        ensures id in t.nodes && r.0.nodes[id].typeTag == t.nodes[id].typeTag
      {
        if id in t.nodes {
          CreateUnusedFrameNodes(t, pairs, id);
        }
      }
    }
  }

  /** Two duplicate-free sequences with no common element concatenate to a
      duplicate-free sequence. */
  lemma NoDupAppend(a: seq<NodeId>, b: seq<NodeId>, c: seq<NodeId>)
    requires NoDup(a) && NoDup(b) && (forall x :: x in a ==> x !in b) && c == a + b
    ensures NoDup(c)
  {
    forall i, j | 0 <= i < j < |c| ensures c[i] != c[j] {
      if i < |a| && j >= |a| {
        assert c[i] == a[i] && c[j] == b[j - |a|];
        assert c[i] in a && c[j] in b;
      } else if i >= |a| {
        assert c[i] == b[i - |a|] && c[j] == b[j - |a|];
      } else {
        assert c[i] == a[i] && c[j] == a[j];
      }
    }
  }

  /** How grouping one tree ends.  `Grouped`: the finished tree, whether
      unused nodes were found, the pairs made and the tree once the helpers
      were added.  `Failed`: the search reported a node of a nested group
      tree, which the host cannot link to from this tree; the search lists
      the tree's own unused nodes before any nested one, so by then each of
      them has its helper, and `pairs` and `staged` record that state, in
      which the host leaves the tree.  `NoTree`: there was no tree. */
  datatype Outcome =
    | Grouped(tree: Tree, found: bool, pairs: seq<Pair>, staged: Tree)
    | Failed(pairs: seq<Pair>, staged: Tree)
    | NoTree

  /** The tree the host is left with after `o`. */
  function Remains(o: Outcome): Tree
    requires !o.NoTree?
  {
    if o.Grouped? then o.tree else o.staged
  }

  /** `o` is how `_process_node_tree` ends on tree `tid` of `lib`: it fails
      exactly when the search on the prepared tree reports a node of a
      nested tree; either way each unused node of the tree itself, and no
      other node, got one helper on the prepared tree; on success the tree
      is framed exactly when something was found and is left prepared
      otherwise; and what remains keeps the payloads and well-formedness of
      the tree it replaces. */
  ghost predicate Processed(lib: Library, rank: map<TreeId, nat>, tid: TreeId, attrText: string, attrType: string,
                            channel: string, host: string -> Template, o: Outcome)
  {
    && Ranked(lib, rank) && tid in lib && !o.NoTree?
    && (o.Failed? <==> HasForeign(SearchKeys(lib, rank, tid), tid))
    && Targets(o.pairs) == OwnIds(SearchKeys(lib, rank, tid), tid)
    && (forall i :: 0 <= i < |o.pairs| ==> o.pairs[i].target !in UsedNodes(Prepared(lib[tid])))
    && Staging(Prepared(lib[tid]), o.staged, o.pairs, Targets(o.pairs), attrText, attrType, channel, host)
    && (o.Grouped? ==> (o.found <==> SearchKeys(lib, rank, tid) != {}))
    && (o.Grouped? && !o.found ==> o.tree == Prepared(lib[tid]) && o.pairs == [])
    && (o.Grouped? && o.found ==> o.tree == CreateUnusedFrame(o.staged, o.pairs).0)
    && PayloadsKept(lib[tid], Remains(o))
    && (WellFormed(lib[tid]) ==> WellFormed(Remains(o)))
  }

  /** The host's `_process_node_tree`, with the tree `tid` of `lib`.  The
      unused nodes come from a hash set, so their order is left open: each
      step takes any of the remaining ones, and the contract holds for
      every order. */
  method ProcessNodeTree(lib: Library, rank: map<TreeId, nat>, tid: TreeId, attrText: string, attrType: string,
                         channel: string, host: string -> Template) returns (o: Outcome)
    requires Ranked(lib, rank) && tid in lib
    ensures Processed(lib, rank, tid, attrText, attrType, channel, host, o)
  {
    var t2, found := SearchPrepared(lib, rank, tid);
    o := GroupFound(t2, tid, found, attrText, attrType, channel, host);
    PayloadsKeptTrans(lib[tid], t2, Remains(o));
  }

  /** The second half of `_process_node_tree`, given the prepared tree and
      the search result. */
  method GroupFound(t2: Tree, tid: TreeId, found: map<NodeRef, Record>, attrText: string, attrType: string,
                    channel: string, host: string -> Template) returns (o: Outcome)
    requires forall k :: k in found && k.tree == tid ==> k.id in t2.nodes && k.id !in UsedNodes(t2)
    ensures !o.NoTree?
    ensures o.Failed? <==> HasForeign(found.Keys, tid)
    ensures Targets(o.pairs) == OwnIds(found.Keys, tid)
    ensures forall i :: 0 <= i < |o.pairs| ==> o.pairs[i].target !in UsedNodes(t2)
    ensures Staging(t2, o.staged, o.pairs, Targets(o.pairs), attrText, attrType, channel, host)
    ensures o.Grouped? ==> (o.found <==> found != map[])
    ensures o.Grouped? && !o.found ==> o.tree == t2 && o.pairs == []
    ensures o.Grouped? && o.found ==> o.tree == CreateUnusedFrame(o.staged, o.pairs).0
    ensures WellFormed(t2) ==> WellFormed(Remains(o))
    ensures PayloadsKept(t2, Remains(o))
  {
    if found == map[] {
      StagingStart(t2, attrText, attrType, channel, host);
      assert OwnIds(found.Keys, tid) == {};
      return Grouped(t2, false, [], t2);
    }
    var ids := OwnIds(found.Keys, tid);
    if HasForeign(found.Keys, tid) {
      var cur, pairs := AddHelpers(t2, ids, attrText, attrType, channel, host);
      StagingPayloads(t2, cur, pairs, ids, attrText, attrType, channel, host);
      return Failed(pairs, cur);
    }
    assert ids != {} by {
      var k :| k in found;
      assert k.id in ids;
    }
    o := GroupAll(t2, ids, attrText, attrType, channel, host);
  }

  /** Helpers for the targets `ids`, then the frame around targets and
      helpers. */
  method GroupAll(t2: Tree, ids: set<NodeId>, attrText: string, attrType: string, channel: string,
                  host: string -> Template) returns (o: Outcome)
    requires ids <= t2.nodes.Keys && ids != {}
    requires forall id :: id in ids ==> id !in UsedNodes(t2)
    ensures o.Grouped? && o.found && Targets(o.pairs) == ids
    ensures o.Grouped? ==> forall i :: 0 <= i < |o.pairs| ==> o.pairs[i].target !in UsedNodes(t2)
    ensures o.Grouped? ==> Staging(t2, o.staged, o.pairs, Targets(o.pairs), attrText, attrType, channel, host)
    ensures o.Grouped? && o.found ==> o.tree == CreateUnusedFrame(o.staged, o.pairs).0
    ensures o.Grouped? && WellFormed(t2) ==> WellFormed(o.tree)
    ensures o.Grouped? ==> PayloadsKept(t2, o.tree)
  {
    var cur, pairs := AddHelpers(t2, ids, attrText, attrType, channel, host);
    var framed := CreateUnusedFrame(cur, pairs);
    StagingPayloads(t2, cur, pairs, ids, attrText, attrType, channel, host);
    CreateUnusedFramePayloads(cur, pairs);
    PayloadsKeptTrans(t2, cur, framed.0);
    return Grouped(framed.0, true, pairs, cur);
  }

  /** The first half of `_process_node_tree`: the earlier run's frame and
      helpers go, and the recursive search runs on what is left. */
  method SearchPrepared(lib: Library, rank: map<TreeId, nat>, tid: TreeId) returns (t2: Tree, found: map<NodeRef, Record>)
    requires Ranked(lib, rank) && tid in lib
    ensures t2 == Prepared(lib[tid])
    ensures found.Keys == SearchKeys(lib, rank, tid)
    ensures forall k :: k in found && k.tree == tid ==> k.id in t2.nodes && k.id !in UsedNodes(t2)
  {
    t2 := Prepared(lib[tid]);
    var lib2 := lib[tid := t2];
    RankedReplace(lib, rank, tid, t2);
    found := FindUnusedNodesRecursive(lib2, rank, tid, "", true);
    forall k | k in found && k.tree == tid ensures k.id in t2.nodes && k.id !in UsedNodes(t2) {
      OwnKeys(lib2, rank, tid, true, k);
      FindUnusedKeys(lib2, tid, "", true, k.id);
    }
  }

  /** The loop of `_process_node_tree` that attaches a helper to each target,
      in any order. */
  method AddHelpers(t2: Tree, ids: set<NodeId>, attrText: string, attrType: string, channel: string,
                    host: string -> Template) returns (cur: Tree, pairs: seq<Pair>)
    requires ids <= t2.nodes.Keys
    ensures Staging(t2, cur, pairs, ids, attrText, attrType, channel, host)
    ensures forall i :: 0 <= i < |pairs| ==> pairs[i].target in ids
    ensures ids != {} ==> pairs != []
  {
    var todo := ids;
    ghost var done: set<NodeId> := {};
    cur := t2;
    pairs := [];
    StagingStart(t2, attrText, attrType, channel, host);
    while todo != {}
      invariant todo !! done && todo + done == ids
      invariant Staging(t2, cur, pairs, done, attrText, attrType, channel, host)
      decreases |todo|
    {
      var id :| id in todo;
      StagingStep(t2, cur, pairs, done, attrText, attrType, channel, host, id);
      var res := AddAttributeNode(cur, id, attrText, attrType, channel, host);
      cur := res.0;
      pairs := pairs + [Pair(res.1, id)];
      MoveOne(todo, done, ids, id);
      todo := todo - {id};
      done := done + {id};
    }
    if ids != {} {
      var x :| x in ids;
      assert x in Targets(pairs);
    }
    forall i | 0 <= i < |pairs| ensures pairs[i].target in ids {
      assert pairs[i].target in Targets(pairs);
    }
  }

  /** `NODE_OT_GroupUnusedNodesActive`: without an active tree the operator
      is cancelled; otherwise the tree is processed, and what remains of it,
      grouped or not, replaces it. */
  method GroupActive(lib: Library, rank: map<TreeId, nat>, active: Option<TreeId>, attrText: string, attrType: string,
                     channel: string, host: string -> Template) returns (o: Outcome)
    requires Ranked(lib, rank)
    ensures o.NoTree? <==> active.None? || active.value !in lib
    ensures !o.NoTree? ==> Processed(lib, rank, active.value, attrText, attrType, channel, host, o)
  {
    if active.None? || active.value !in lib {
      return NoTree;
    }
    o := ProcessNodeTree(lib, rank, active.value, attrText, attrType, channel, host);
  }

  /** What a run over all materials ends in: the library afterwards and the
      counts reported, or the host's CANCELLED with the library as the
      failing material left it, since nothing is rolled back. */
  datatype Run = Finished(lib: Library, processed: nat, withUnused: nat) | Cancelled(lib: Library)

  /** What a step of the loop over materials does to the library: a
      material without nodes enabled or without a tree gives `NoTree` and
      changes nothing; otherwise its tree, and only its tree, is replaced by
      what the host leaves of it, on success and on failure alike. */
  predicate Replaced(lib: Library, m: Material, o: Outcome, next: Library) {
    && (o.NoTree? <==> !Usable(lib, m))
    && (o.NoTree? ==> next == lib)
    && (!o.NoTree? ==> next == lib[m.tree.value := Remains(o)])
  }

  /** One step of the loop over materials: the library changes as
      `Replaced` says, and a material with a tree has it processed. */
  ghost predicate MaterialGrouped(lib: Library, rank: map<TreeId, nat>, m: Material, attrText: string, attrType: string,
                                  channel: string, host: string -> Template, o: Outcome, next: Library)
  {
    && Ranked(lib, rank)
    && Replaced(lib, m, o, next)
    && (!o.NoTree? ==> Processed(lib, rank, m.tree.value, attrText, attrType, channel, host, o))
  }

  /** The body of the loop over materials. */
  method GroupMaterial(lib: Library, rank: map<TreeId, nat>, m: Material, attrText: string, attrType: string,
                       channel: string, host: string -> Template) returns (o: Outcome, next: Library)
    requires Ranked(lib, rank)
    ensures MaterialGrouped(lib, rank, m, attrText, attrType, channel, host, o, next)
    ensures o.NoTree? <==> !Usable(lib, m)
    ensures next.Keys == lib.Keys && Ranked(next, rank)
    ensures AllWellFormed(lib) ==> AllWellFormed(next)
  {
    if !Usable(lib, m) {
      return NoTree, lib;
    }
    var tid := m.tree.value;
    o := ProcessNodeTree(lib, rank, tid, attrText, attrType, channel, host);
    ReplaceTree(lib, rank, tid, Remains(o));
    next := lib[tid := Remains(o)];
  }

  /** The number of outcomes in `outs` that found unused nodes: the
      materials for which `_process_node_tree` returned true. */
  function CountFound(outs: seq<Outcome>): (n: nat)
    ensures n <= |outs|
  {
    if outs == [] then 0
    else CountFound(outs[..|outs| - 1]) + (if outs[|outs| - 1].Grouped? && outs[|outs| - 1].found then 1 else 0)
  }

  lemma CountFoundStep(outs: seq<Outcome>, o: Outcome)
    ensures CountFound(outs + [o]) == CountFound(outs) + (if o.Grouped? && o.found then 1 else 0)
  {
    assert (outs + [o])[..|outs|] == outs;
  }

  /** One more step adds its own share to both counts of the run. */
  lemma CountsStep(lib: Library, mats: seq<Material>, i: nat, outs: seq<Outcome>, o: Outcome)
    requires i < |mats| && (o.NoTree? <==> !Usable(lib, mats[i]))
    ensures CountUsable(lib, mats[..i + 1]) == CountUsable(lib, mats[..i]) + (if o.NoTree? then 0 else 1)
    ensures CountFound(outs + [o]) == CountFound(outs) + (if o.Grouped? && o.found then 1 else 0)
  {
    CountUsableStep(lib, mats, i);
    CountFoundStep(outs, o);
  }

  /** The step relation of the loop over materials. */
  ghost function GroupStep(rank: map<TreeId, nat>, attrText: string, attrType: string, channel: string, host: string -> Template)
    : (Library, Material, Outcome, Library) -> bool
  {
    (lib, m, o, next) => MaterialGrouped(lib, rank, m, attrText, attrType, channel, host, o, next)
  }

  /** A step leaves alone every tree that its material does not name. */
  lemma OthersUnchangedStep(lib: Library, mats: seq<Material>, n: nat, cur: Library, o: Outcome, next: Library)
    requires n < |mats|
    requires forall tid :: tid in lib && !TreeOfSome(mats[..n], tid) ==> tid in cur && cur[tid] == lib[tid]
    requires Replaced(cur, mats[n], o, next)
    ensures forall tid :: tid in lib && !TreeOfSome(mats[..n + 1], tid) ==> tid in next && next[tid] == lib[tid]
  {
    forall tid | tid in lib && !TreeOfSome(mats[..n + 1], tid) ensures tid in next && next[tid] == lib[tid] {
      TreeOfSomeStep(mats, n, tid);
    }
  }

  /** The state of the run over `mats` after `n` steps that all succeeded:
      the steps are recorded, the library reached keeps the trees, the
      ranking and well-formedness, and no tree that none of the first `n`
      materials names has changed. */
  ghost predicate RunState(lib: Library, rank: map<TreeId, nat>, mats: seq<Material>, attrText: string, attrType: string,
                           channel: string, host: string -> Template, trace: seq<Library>, outs: seq<Outcome>, n: nat)
  {
    && n <= |mats| && |outs| == n && Steps(GroupStep(rank, attrText, attrType, channel, host), mats, trace, outs) && trace[0] == lib
    && (forall j :: 0 <= j < n ==> !outs[j].Failed?)
    && trace[n].Keys == lib.Keys && Ranked(trace[n], rank)
    && (forall tid :: tid in lib && !TreeOfSome(mats[..n], tid) ==> tid in trace[n] && trace[n][tid] == lib[tid])
    && (AllWellFormed(lib) ==> AllWellFormed(trace[n]))
  }

  lemma RunStateStep(lib: Library, rank: map<TreeId, nat>, mats: seq<Material>, attrText: string, attrType: string,
                     channel: string, host: string -> Template, trace: seq<Library>, outs: seq<Outcome>, n: nat, o: Outcome, next: Library)
    requires RunState(lib, rank, mats, attrText, attrType, channel, host, trace, outs, n) && n < |mats|
    requires Steps(GroupStep(rank, attrText, attrType, channel, host), mats, trace + [next], outs + [o])
    requires Replaced(trace[n], mats[n], o, next) && !o.Failed?
    requires next.Keys == trace[n].Keys && Ranked(next, rank)
    requires AllWellFormed(trace[n]) ==> AllWellFormed(next)
    ensures RunState(lib, rank, mats, attrText, attrType, channel, host, trace + [next], outs + [o], n + 1)
  {
    OthersUnchangedStep(lib, mats, n, trace[n], o, next);
    assert (trace + [next])[n + 1] == next && (trace + [next])[0] == lib;
    var outs' := outs + [o];
    forall j | 0 <= j < n + 1 ensures !outs'[j].Failed? {
      if j < n {
        assert outs'[j] == outs[j];
      }
    }
  }

  /** How a run over `mats` from `lib` ended, given its record: `trace`
      holds the library before each step and after the last, `outs` the
      outcome of each step.  Each step is a `MaterialGrouped` one; the run is
      cancelled exactly at a step that failed, which is then its last step
      and leaves its library as the result; a finished run took every
      material and reports how many had a tree and how many of those had
      unused nodes; trees, ranking and well-formedness are kept, and trees
      that no material names are unchanged. */
  ghost predicate RunEnded(lib: Library, rank: map<TreeId, nat>, mats: seq<Material>, attrText: string,
                           attrType: string, channel: string, host: string -> Template, res: Run, trace: seq<Library>, outs: seq<Outcome>)
  {
    && Steps(GroupStep(rank, attrText, attrType, channel, host), mats, trace, outs) && trace[0] == lib && res.lib == trace[|outs|]
    && (forall j :: 0 <= j < |outs| ==> (outs[j].Failed? <==> res.Cancelled? && j == |outs| - 1))
    && (res.Cancelled? ==> |outs| > 0)
    && (res.Finished? ==> |outs| == |mats| && res.processed == CountUsable(lib, mats))
    && (res.Finished? ==> res.withUnused == CountFound(outs))
    && res.lib.Keys == lib.Keys && Ranked(res.lib, rank)
    && (forall tid :: tid in lib && !TreeOfSome(mats, tid) ==> res.lib[tid] == lib[tid])
    && (AllWellFormed(lib) ==> AllWellFormed(res.lib))
  }

  /** One turn of the loop over materials, after `n` steps that all
      succeeded: the material's step is recorded; unless it failed the run's
      state carries over to `n + 1` steps, and if it failed the run ends
      cancelled there. */
  method RunStep(lib: Library, rank: map<TreeId, nat>, mats: seq<Material>, attrText: string, attrType: string,
                 channel: string, host: string -> Template, trace: seq<Library>, outs: seq<Outcome>, n: nat)
    returns (o: Outcome, next: Library)
    requires RunState(lib, rank, mats, attrText, attrType, channel, host, trace, outs, n) && n < |mats|
    ensures o.NoTree? <==> !Usable(lib, mats[n])
    ensures !o.Failed? ==> RunState(lib, rank, mats, attrText, attrType, channel, host, trace + [next], outs + [o], n + 1)
    ensures o.Failed? ==> RunEnded(lib, rank, mats, attrText, attrType, channel, host, Cancelled(next), trace + [next], outs + [o])
  {
    o, next := GroupMaterial(trace[n], rank, mats[n], attrText, attrType, channel, host);
    assert GroupStep(rank, attrText, attrType, channel, host)(trace[n], mats[n], o, next);
    StepsAppend(GroupStep(rank, attrText, attrType, channel, host), mats, trace, outs, o, next);
    if o.Failed? {
      CancelledEnds(lib, rank, mats, attrText, attrType, channel, host, trace, outs, n, o, next);
    } else {
      RunStateStep(lib, rank, mats, attrText, attrType, channel, host, trace, outs, n, o, next);
    }
  }

  /** A failing step ends the run cancelled. */
  lemma CancelledEnds(lib: Library, rank: map<TreeId, nat>, mats: seq<Material>, attrText: string, attrType: string,
                      channel: string, host: string -> Template, trace: seq<Library>, outs: seq<Outcome>, n: nat, o: Outcome, next: Library)
    requires RunState(lib, rank, mats, attrText, attrType, channel, host, trace, outs, n) && n < |mats|
    requires Steps(GroupStep(rank, attrText, attrType, channel, host), mats, trace + [next], outs + [o])
    requires Replaced(trace[n], mats[n], o, next) && o.Failed?
    requires next.Keys == trace[n].Keys && Ranked(next, rank)
    requires AllWellFormed(trace[n]) ==> AllWellFormed(next)
    ensures RunEnded(lib, rank, mats, attrText, attrType, channel, host, Cancelled(next), trace + [next], outs + [o])
  {
    OthersUnchangedStep(lib, mats, n, trace[n], o, next);
    TreeOfSomePrefix(mats, n + 1);
    var outs' := outs + [o];
    forall j | 0 <= j < |outs'| ensures outs'[j].Failed? <==> j == |outs'| - 1 {
      if j < n {
        assert outs'[j] == outs[j];
      }
    }
  }

  /** A run whose every material succeeded ends finished. */
  lemma FinishedEnds(lib: Library, rank: map<TreeId, nat>, mats: seq<Material>, attrText: string, attrType: string,
                     channel: string, host: string -> Template, trace: seq<Library>, outs: seq<Outcome>, processed: nat, withUnused: nat)
    requires RunState(lib, rank, mats, attrText, attrType, channel, host, trace, outs, |mats|)
    requires processed == CountUsable(lib, mats[..|mats|]) && withUnused == CountFound(outs)
    ensures RunEnded(lib, rank, mats, attrText, attrType, channel, host, Finished(trace[|mats|], processed, withUnused), trace, outs)
  {
    assert mats[..|mats|] == mats;
  }

  /** `NODE_OT_GroupUnusedNodesAll`: every material with nodes enabled and a
      node tree is grouped in turn; a material whose search reports nodes of
      a nested tree cancels the whole run. */
  method GroupAllMaterials(lib: Library, rank: map<TreeId, nat>, mats: seq<Material>, attrText: string,
                           attrType: string, channel: string, host: string -> Template)
    returns (res: Run, trace: seq<Library>, outs: seq<Outcome>)
    requires Ranked(lib, rank)
    ensures RunEnded(lib, rank, mats, attrText, attrType, channel, host, res, trace, outs)
  {
    var processed := 0;
    var withUnused := 0;
    trace := [lib];
    outs := [];
    for i := 0 to |mats|
      invariant RunState(lib, rank, mats, attrText, attrType, channel, host, trace, outs, i)
      invariant processed == CountUsable(lib, mats[..i]) && withUnused == CountFound(outs)
    {
      var o, next := RunStep(lib, rank, mats, attrText, attrType, channel, host, trace, outs, i);
      if o.Failed? {
        return Cancelled(next), trace + [next], outs + [o];
      }
      CountsStep(lib, mats, i, outs, o);
      processed := processed + (if o.NoTree? then 0 else 1);
      withUnused := withUnused + (if o.Grouped? && o.found then 1 else 0);
      trace := trace + [next];
      outs := outs + [o];
    }
    FinishedEnds(lib, rank, mats, attrText, attrType, channel, host, trace, outs, processed, withUnused);
    return Finished(trace[|mats|], processed, withUnused), trace, outs;
  }
}
