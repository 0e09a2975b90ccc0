/**
 * Immutable model of the host's node-editor data: a library of node trees,
 * each holding nodes (addressed by a stable id), the ordered sockets of those
 * nodes and the links between sockets.  Node identity across trees is the pair
 * (tree id, node id), which plays the role of the host object used as a
 * dictionary key.
 */
module Graph {

  datatype Option<+T> = None | Some(value: T)

  type NodeId = nat
  type TreeId = nat

  datatype Socket = Socket(name: string)

  /** One node.  `typeTag` is the host's `node.type`, `idName` its `bl_idname`,
      `height` the second component of `node.dimensions`, `payload` the tree a
      group node instantiates, `parent` the frame the node sits in. */
  datatype Node = Node(
    typeTag: string,
    idName: string,
    name: string,
    nodeLabel: string,
    x: real,
    y: real,
    width: real,
    height: real,
    inputs: seq<Socket>,
    outputs: seq<Socket>,
    payload: Option<TreeId>,
    parent: Option<NodeId>,
    attributeName: string,
    attributeType: Option<string>)

  /** A link from output socket `fromSocket` of `fromNode` to input socket
      `toSocket` of `toNode`. */
  datatype Link = Link(fromNode: NodeId, fromSocket: nat, toNode: NodeId, toSocket: nat)

  /** A node tree.  `order` is the host collection's iteration order. */
  datatype Tree = Tree(
    name: string,
    kind: string,
    nodes: map<NodeId, Node>,
    order: seq<NodeId>,
    links: set<Link>)

  type Library = map<TreeId, Tree>

  /** Identity of a node anywhere in the library. */
  datatype NodeRef = NodeRef(tree: TreeId, id: NodeId)

  /** The fixed set of output type tags (a mix of type tags and class names, kept literally). */
  const OutputTypes: set<string> := {
    "OUTPUT_MATERIAL", "OUTPUT_WORLD", "OUTPUT_LIGHT",
    "CompositorNodeComposite", "CompositorNodeOutputFile",
    "CompositorNodeViewer", "NodeGroupOutput"
  }

  const ShaderAttributeId := "ShaderNodeAttribute"
  const NamedAttributeId := "GeometryNodeInputNamedAttribute"
  const AttributeIdNames: set<string> := {ShaderAttributeId, NamedAttributeId}

  const AttributeType := "ATTRIBUTE"
  const GroupType := "GROUP"
  const FrameType := "FRAME"
  const FrameIdName := "NodeFrame"

  /** Label that marks helper attribute nodes generated by a previous run. */
  const TmpAttrLabel := "_tmp_attr"

  predicate IsOutput(n: Node) {
    n.typeTag in OutputTypes
  }

  predicate IsAttributeKind(n: Node) {
    n.typeTag == AttributeType || n.idName in AttributeIdNames
  }

  predicate IsTmpAttribute(n: Node) {
    IsAttributeKind(n) && n.nodeLabel == TmpAttrLabel
  }

  predicate IsGroup(n: Node) {
    n.typeTag == GroupType
  }

  /** The host's `socket.is_linked` for input socket `i` of node `id`. */
  predicate InputLinked(t: Tree, id: NodeId, i: nat) {
    exists l :: l in t.links && l.toNode == id && l.toSocket == i
  }

  /** The host's `socket.is_linked` for output socket `i` of node `id`. */
  predicate OutputLinked(t: Tree, id: NodeId, i: nat) {
    exists l :: l in t.links && l.fromNode == id && l.fromSocket == i
  }

  predicate NoDup<T(==)>(s: seq<T>) {
    forall i, j :: 0 <= i < j < |s| ==> s[i] != s[j]
  }

  /** What the host guarantees of every tree: links join sockets of nodes of
      this tree, and the collection order lists every node exactly once. */
  ghost predicate WellFormed(t: Tree) {
    && (forall l :: l in t.links ==>
          && l.fromNode in t.nodes && l.fromSocket < |t.nodes[l.fromNode].outputs|
          && l.toNode in t.nodes && l.toSocket < |t.nodes[l.toNode].inputs|)
    && NoDup(t.order)
    && (forall id :: id in t.order <==> id in t.nodes)
  }

  /** `s` without the elements of `ks`, order kept. */
  function Without(s: seq<NodeId>, ks: set<NodeId>): (r: seq<NodeId>)
    ensures forall x :: x in r <==> x in s && x !in ks
    ensures NoDup(s) ==> NoDup(r)
    ensures |r| <= |s|
  {
    if s == [] then []
    else if s[0] in ks then Without(s[1..], ks)
    else [s[0]] + Without(s[1..], ks)
  }

  lemma {:induction false} WithoutTwice(s: seq<NodeId>, a: set<NodeId>, b: set<NodeId>)
    ensures Without(Without(s, a), b) == Without(s, a + b)
  {
    if s != [] {
      WithoutTwice(s[1..], a, b);
      if s[0] !in a {
        assert Without(s, a) == [s[0]] + Without(s[1..], a);
        assert Without(s, a)[1..] == Without(s[1..], a);
      }
    }
  }

  lemma {:induction false} WithoutNothing(s: seq<NodeId>)
    ensures Without(s, {}) == s
  {
    if s != [] {
      WithoutNothing(s[1..]);
      assert [s[0]] + s[1..] == s;
    }
  }

  /** The parent field after the nodes `ks` are removed: the host detaches
      the children of a removed frame. */
  function Detach(n: Node, ks: set<NodeId>): Node {
    if n.parent.Some? && n.parent.value in ks then n.(parent := None) else n
  }

  /** The host's `nodes.remove` applied to every node of `ks`: the nodes go,
      with every link attached to them and every parent pointer to them. */
  function RemoveNodes(t: Tree, ks: set<NodeId>): (r: Tree)
    ensures r.nodes.Keys == t.nodes.Keys - ks
    ensures forall id :: id in r.nodes ==> r.nodes[id] == Detach(t.nodes[id], ks)
    ensures forall l :: l in r.links <==> l in t.links && l.fromNode !in ks && l.toNode !in ks
    ensures r.name == t.name && r.kind == t.kind
    ensures WellFormed(t) ==> WellFormed(r)
  {
    var r := t.(nodes := map id | id in t.nodes && id !in ks :: Detach(t.nodes[id], ks),
                order := Without(t.order, ks),
                links := set l | l in t.links && l.fromNode !in ks && l.toNode !in ks);
    assert WellFormed(t) ==> WellFormed(r) by {
      if WellFormed(t) {
        forall l | l in r.links
          ensures l.fromNode in r.nodes && l.fromSocket < |r.nodes[l.fromNode].outputs|
          ensures l.toNode in r.nodes && l.toSocket < |r.nodes[l.toNode].inputs|
        {
          assert l in t.links;
        }
      }
    }
    r
  }

  /** Removing no node leaves the tree as it is. */
  lemma RemoveNone(t: Tree)
    ensures RemoveNodes(t, {}) == t
  {
    var r := RemoveNodes(t, {});
    WithoutNothing(t.order);
    forall id | id in r.nodes ensures r.nodes[id] == t.nodes[id] {
      assert r.nodes[id] == Detach(t.nodes[id], {});
    }
    assert r.nodes == t.nodes;
    assert r.links == t.links;
  }

  lemma RemoveNodesTwiceNodes(t: Tree, a: set<NodeId>, b: set<NodeId>)
    ensures RemoveNodes(RemoveNodes(t, a), b).nodes == RemoveNodes(t, a + b).nodes
  {
    var lhs := RemoveNodes(RemoveNodes(t, a), b);
    var rhs := RemoveNodes(t, a + b);
    forall id | id in lhs.nodes
      ensures id in rhs.nodes && lhs.nodes[id] == rhs.nodes[id]
    {
      assert lhs.nodes[id] == Detach(Detach(t.nodes[id], a), b);
    }
  }

  /** Removing two batches one after the other is removing their union. */
  lemma RemoveNodesTwice(t: Tree, a: set<NodeId>, b: set<NodeId>)
    ensures RemoveNodes(RemoveNodes(t, a), b) == RemoveNodes(t, a + b)
  {
    var lhs := RemoveNodes(RemoveNodes(t, a), b);
    var rhs := RemoveNodes(t, a + b);
    WithoutTwice(t.order, a, b);
    RemoveNodesTwiceNodes(t, a, b);
    assert lhs.links == rhs.links;
  }

  /** A node id not in `s`, searching upwards from `k`. */
  function FreshFrom(s: set<NodeId>, k: NodeId): (r: NodeId)
    ensures r !in s && r >= k
    decreases |s|
  {
    if k !in s then k
    else FreshFrom(s - {k}, k + 1)
  }

  /** A node id not used in `t`: the id the host gives a newly created node. */
  function FreshId(t: Tree): (r: NodeId)
    ensures r !in t.nodes
  {
    FreshFrom(t.nodes.Keys, 0)
  }

  /** The host's `nodes.new`: the node joins the tree, last in collection order. */
  function AddNode(t: Tree, id: NodeId, n: Node): (r: Tree)
    requires id !in t.nodes
    ensures r.nodes == t.nodes[id := n] && r.links == t.links
    ensures WellFormed(t) ==> WellFormed(r)
  {
    t.(nodes := t.nodes[id := n], order := t.order + [id])
  }

  /** The node a reference points at, if any. */
  function NodeAt(lib: Library, k: NodeRef): Option<Node> {
    if k.tree in lib && k.id in lib[k.tree].nodes then Some(lib[k.tree].nodes[k.id]) else None
  }

  /** Every tree of the library is well formed. */
  ghost predicate AllWellFormed(lib: Library) {
    forall tid :: tid in lib ==> WellFormed(lib[tid])
  }
}
