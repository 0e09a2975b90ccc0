/**
 * The used-node analysis: every node connected, following links in either
 * direction, to one of the tree's output nodes.  `UsedNodes` defines it as a
 * least fixpoint; `TraverseFromOutputs` is the depth-first visit of the
 * source, proved to compute the same set.
 */
module Reachability {
  import opened Graph

  /** The ids of the output-typed nodes of `t`. */
  function OutputNodes(t: Tree): set<NodeId> {
    set id | id in t.nodes && IsOutput(t.nodes[id])
  }

  /** `get_output_nodes`: the output-typed nodes, in the order `order`
      lists them; each listed once when `order` lists each once. */
  function OutputList(t: Tree, order: seq<NodeId>): (r: seq<NodeId>)
    ensures forall id :: id in r <==> id in order && id in t.nodes && IsOutput(t.nodes[id])
    ensures NoDup(order) ==> NoDup(r)
    decreases |order|
  {
    if order == [] then []
    else
      var rest := OutputList(t, order[1..]);
      assert forall id :: id in order <==> id == order[0] || id in order[1..];
      if order[0] in t.nodes && IsOutput(t.nodes[order[0]]) then
        assert NoDup(order) ==> order[0] !in order[1..] && NoDup(order[1..]);
        [order[0]] + rest
      else rest
  }

  /** In a well-formed tree the listed output nodes, taken in the tree's
      own node order, are exactly its output nodes, each once. */
  lemma OutputListExact(t: Tree)
    requires WellFormed(t)
    ensures forall id :: id in OutputList(t, t.order) <==> id in OutputNodes(t)
    ensures NoDup(OutputList(t, t.order))
    ensures |OutputList(t, t.order)| == |OutputNodes(t)|
  {
    var r := OutputList(t, t.order);
    DistinctCount(r);
    assert Elems(r) == OutputNodes(t);
  }

  /** The ids a list names. */
  function Elems(s: seq<NodeId>): set<NodeId> {
    set x | x in s
  }

  /** A list naming each id once has as many entries as it names ids. */
  lemma {:induction false} DistinctCount(s: seq<NodeId>)
    requires NoDup(s)
    ensures |Elems(s)| == |s|
    decreases |s|
  {
    if s != [] {
      var tail := s[1..];
      assert NoDup(tail) by {
        forall i, j | 0 <= i < j < |tail| ensures tail[i] != tail[j] {
          assert tail[i] == s[i + 1] && tail[j] == s[j + 1];
        }
      }
      DistinctCount(tail);
      var a := Elems(tail);
      assert s[0] !in a by {
        forall j | 0 <= j < |tail| ensures tail[j] != s[0] {
          assert tail[j] == s[j + 1];
        }
      }
      assert Elems(s) == a + {s[0]} by {
        assert s == [s[0]] + tail;
      }
      assert |a + {s[0]}| == |a| + 1;
    }
  }

  /** Sources of the links entering `n` and targets of the links leaving it. */
  function Neighbours(t: Tree, n: NodeId): set<NodeId> {
    (set l | l in t.links && l.toNode == n :: l.fromNode)
    + (set l | l in t.links && l.fromNode == n :: l.toNode)
  }

  /** Every id the traversal could ever reach. */
  function Universe(t: Tree): set<NodeId> {
    t.nodes.Keys
    + (set l | l in t.links :: l.fromNode)
    + (set l | l in t.links :: l.toNode)
  }

  /** One round of the traversal: add the neighbours of every member of `s`. */
  function Step(t: Tree, s: set<NodeId>): set<NodeId> {
    s
    + (set l | l in t.links && l.toNode in s :: l.fromNode)
    + (set l | l in t.links && l.fromNode in s :: l.toNode)
  }

  /** `s` is closed under following links in both directions. */
  ghost predicate Closed(t: Tree, s: set<NodeId>) {
    forall l :: l in t.links ==> (l.toNode in s ==> l.fromNode in s) && (l.fromNode in s ==> l.toNode in s)
  }

  lemma ProperSubsetSmaller(a: set<NodeId>, b: set<NodeId>)
    requires a < b
    ensures |a| < |b|
  {
    assert b == a + (b - a);
    assert a * (b - a) == {};
    assert b - a != {};
  }

  lemma StepInUniverse(t: Tree, s: set<NodeId>)
    requires s <= Universe(t)
    ensures s <= Step(t, s) <= Universe(t)
  {
    forall n | n in Step(t, s)
      ensures n in Universe(t)
    {
      if n !in s {
        if n in (set l | l in t.links && l.toNode in s :: l.fromNode) {
          var l :| l in t.links && l.toNode in s && l.fromNode == n;
          assert n in (set l | l in t.links :: l.fromNode);
        } else {
          var l :| l in t.links && l.fromNode in s && l.toNode == n;
          assert n in (set l | l in t.links :: l.toNode);
        }
      }
    }
  }

  lemma FixedStepClosed(t: Tree, s: set<NodeId>)
    requires Step(t, s) == s
    ensures Closed(t, s)
  {
    forall l | l in t.links
      ensures (l.toNode in s ==> l.fromNode in s) && (l.fromNode in s ==> l.toNode in s)
    {
      if l.toNode in s {
        assert l.fromNode in (set l | l in t.links && l.toNode in s :: l.fromNode);
      }
      if l.fromNode in s {
        assert l.toNode in (set l | l in t.links && l.fromNode in s :: l.toNode);
      }
    }
  }

  lemma StepStaysInClosed(t: Tree, s: set<NodeId>, c: set<NodeId>)
    requires s <= c && Closed(t, c)
    ensures Step(t, s) <= c
  {
    forall n | n in Step(t, s)
      ensures n in c
    {
      if n !in s {
        if n in (set l | l in t.links && l.toNode in s :: l.fromNode) {
          var l :| l in t.links && l.toNode in s && l.fromNode == n;
        } else {
          var l :| l in t.links && l.fromNode in s && l.toNode == n;
        }
      }
    }
  }

  /** The closure of `s` under links in both directions. */
  function Closure(t: Tree, s: set<NodeId>): (r: set<NodeId>)
    requires s <= Universe(t)
    ensures s <= r <= Universe(t)
    ensures Closed(t, r)
    decreases |Universe(t) - s|
  {
    StepInUniverse(t, s);
    var s' := Step(t, s);
    if s' == s then
      FixedStepClosed(t, s);
      s
    else
      ProperSubsetSmaller(Universe(t) - s', Universe(t) - s);
      Closure(t, s')
  }

  /** The used set of `t`: it holds every output node and is closed under
      links in both directions (`UsedNodesLeastClosed` adds that it is the
      least such set). */
  function UsedNodes(t: Tree): (r: set<NodeId>)
    ensures OutputNodes(t) <= r
    ensures Closed(t, r)
  {
    Closure(t, OutputNodes(t))
  }

  /** The closure is contained in every closed set that contains its seed. */
  lemma {:induction false} ClosureLeast(t: Tree, s: set<NodeId>, c: set<NodeId>)
    requires s <= Universe(t)
    requires s <= c && Closed(t, c)
    ensures Closure(t, s) <= c
    decreases |Universe(t) - s|
  {
    StepInUniverse(t, s);
    var s' := Step(t, s);
    if s' != s {
      StepStaysInClosed(t, s, c);
      ProperSubsetSmaller(Universe(t) - s', Universe(t) - s);
      ClosureLeast(t, s', c);
    }
  }

  /** The used set is the least set that holds every output node and is
      closed under links in both directions; in a well-formed tree it holds
      only nodes of the tree. */
  lemma UsedNodesLeastClosed(t: Tree)
    ensures OutputNodes(t) <= UsedNodes(t)
    ensures Closed(t, UsedNodes(t))
    ensures forall c :: OutputNodes(t) <= c && Closed(t, c) ==> UsedNodes(t) <= c
    ensures WellFormed(t) ==> UsedNodes(t) <= t.nodes.Keys
  {
    forall c | OutputNodes(t) <= c && Closed(t, c)
      ensures UsedNodes(t) <= c
    {
      ClosureLeast(t, OutputNodes(t), c);
    }
    if WellFormed(t) {
      assert Universe(t) == t.nodes.Keys;
    }
  }

  /** A tree without output nodes has no used node. */
  lemma NoOutputsNoneUsed(t: Tree)
    requires OutputNodes(t) == {}
    ensures UsedNodes(t) == {}
  {
    assert Step(t, {}) == {};
  }

  /** Two ids joined by a link, in either direction. */
  ghost predicate Linked(t: Tree, a: NodeId, b: NodeId) {
    exists l :: l in t.links && ((l.fromNode == a && l.toNode == b) || (l.toNode == a && l.fromNode == b))
  }

  /** `p` is a walk along links, ignoring their direction. */
  ghost predicate IsWalk(t: Tree, p: seq<NodeId>) {
    |p| > 0 && forall i :: 0 <= i < |p| - 1 ==> Linked(t, p[i], p[i + 1])
  }

  /** Some walk leads from an output node of `t` to `n`. */
  ghost predicate ConnectedToOutput(t: Tree, n: NodeId) {
    exists p :: IsWalk(t, p) && p[0] in OutputNodes(t) && p[|p| - 1] == n
  }

  /** Every node on a walk that starts in a closed set stays in it. */
  lemma {:induction false} WalkStaysClosed(t: Tree, p: seq<NodeId>, c: set<NodeId>)
    requires IsWalk(t, p) && Closed(t, c) && p[0] in c
    ensures p[|p| - 1] in c
    decreases |p|
  {
    if |p| > 1 {
      var q := p[..|p| - 1];
      assert IsWalk(t, q);
      WalkStaysClosed(t, q, c);
      assert Linked(t, p[|p| - 2], p[|p| - 1]);
    }
  }

  /** A walk extended by one more link is still a walk. */
  lemma ExtendWalk(t: Tree, p: seq<NodeId>, n: NodeId)
    requires IsWalk(t, p) && Linked(t, p[|p| - 1], n)
    ensures IsWalk(t, p + [n])
  {
    var p' := p + [n];
    forall i | 0 <= i < |p'| - 1
      ensures Linked(t, p'[i], p'[i + 1])
    {
      if i < |p| - 1 {
        assert p'[i] == p[i] && p'[i + 1] == p[i + 1];
      }
    }
  }

  /** The nodes joined to an output by a walk form a closed set. */
  lemma ConnectedSetClosed(t: Tree)
    ensures Closed(t, set m | m in Universe(t) && ConnectedToOutput(t, m))
  {
    var c := set m | m in Universe(t) && ConnectedToOutput(t, m);
    forall l | l in t.links
      ensures (l.toNode in c ==> l.fromNode in c) && (l.fromNode in c ==> l.toNode in c)
    {
      if l.toNode in c {
        var p :| IsWalk(t, p) && p[0] in OutputNodes(t) && p[|p| - 1] == l.toNode;
        assert Linked(t, l.toNode, l.fromNode);
        ExtendWalk(t, p, l.fromNode);
        assert (p + [l.fromNode])[0] == p[0];
        assert l.fromNode in (set l | l in t.links :: l.fromNode);
      }
      if l.fromNode in c {
        var p :| IsWalk(t, p) && p[0] in OutputNodes(t) && p[|p| - 1] == l.fromNode;
        assert Linked(t, l.fromNode, l.toNode);
        ExtendWalk(t, p, l.toNode);
        assert (p + [l.toNode])[0] == p[0];
        assert l.toNode in (set l | l in t.links :: l.toNode);
      }
    }
  }

  /** A node is used exactly when a walk along links, in either direction,
      joins it to an output node. */
  lemma UsedIffConnected(t: Tree, n: NodeId)
    ensures n in UsedNodes(t) <==> ConnectedToOutput(t, n)
  {
    UsedNodesLeastClosed(t);
    if ConnectedToOutput(t, n) {
      var p :| IsWalk(t, p) && p[0] in OutputNodes(t) && p[|p| - 1] == n;
      WalkStaysClosed(t, p, UsedNodes(t));
    }
    if n in UsedNodes(t) {
      var c := set m | m in Universe(t) && ConnectedToOutput(t, m);
      forall o | o in OutputNodes(t)
        ensures o in c
      {
        assert IsWalk(t, [o]);
      }
      ConnectedSetClosed(t);
      assert n in c;
    }
  }

  lemma NeighboursInClosed(t: Tree, n: NodeId, c: set<NodeId>)
    requires n in c && Closed(t, c)
    ensures Neighbours(t, n) <= c
  {
    forall m | m in Neighbours(t, n)
      ensures m in c
    {
      if m in (set l | l in t.links && l.toNode == n :: l.fromNode) {
        var l :| l in t.links && l.toNode == n && l.fromNode == m;
      } else {
        var l :| l in t.links && l.fromNode == n && l.toNode == m;
      }
    }
  }

  lemma NeighbourClosedIsClosed(t: Tree, s: set<NodeId>)
    requires forall m :: m in s ==> Neighbours(t, m) <= s
    ensures Closed(t, s)
  {
    forall l | l in t.links
      ensures (l.toNode in s ==> l.fromNode in s) && (l.fromNode in s ==> l.toNode in s)
    {
      if l.toNode in s {
        assert l.fromNode in Neighbours(t, l.toNode);
      }
      if l.fromNode in s {
        assert l.toNode in Neighbours(t, l.fromNode);
      }
    }
  }

  /** Taking `n` off the work list keeps the neighbours of visited nodes
      covered, whether `n` is visited now or was visited before. */
  lemma VisitKeepsCover(t: Tree, used: set<NodeId>, work: set<NodeId>, n: NodeId)
    requires n in work
    requires forall m :: m in used ==> Neighbours(t, m) <= used + work
    ensures n in used ==> forall m :: m in used ==> Neighbours(t, m) <= used + (work - {n})
    ensures forall m :: m in used + {n} ==> Neighbours(t, m) <= (used + {n}) + ((work - {n}) + Neighbours(t, n))
  {
  }

  /** The depth-first visit from every output node, following input links
      to their source and output links to their target, each node once. */
  method TraverseFromOutputs(t: Tree) returns (used: set<NodeId>)
    ensures used == UsedNodes(t)
  {
    ghost var all := UsedNodes(t);
    used := {};
    var work := OutputNodes(t);
    while work != {}
      invariant used <= all && work <= all
      invariant OutputNodes(t) <= used + work
      invariant forall m :: m in used ==> Neighbours(t, m) <= used + work
      decreases |all - used|, |work|
    {
      var n :| n in work;
      VisitKeepsCover(t, used, work, n);
      if n in used {
        work := work - {n};
      } else {
        NeighboursInClosed(t, n, all);
        ProperSubsetSmaller(all - (used + {n}), all - used);
        used := used + {n};
        work := (work - {n}) + Neighbours(t, n);
      }
    }
    NeighbourClosedIsClosed(t, used);
    ClosureLeast(t, OutputNodes(t), used);
  }
}
