/**
 * The helper attribute node the grouping operation attaches to each unused
 * node: created only when the node has a free input, named after the node,
 * labelled as a helper, and linked from the requested output channel (or the
 * first output) into the node's first free input.
 */
module Attribute {
  import opened Graph
  import opened Text
  import opened Layout
  import opened Cleanup

  /** The first input of node `id`, from index `i` on, that no link reaches. */
  function FreeInputFrom(t: Tree, id: NodeId, i: nat): (r: Option<nat>)
    requires id in t.nodes
    ensures r.None? <==> forall j :: i <= j < |t.nodes[id].inputs| ==> InputLinked(t, id, j)
    ensures r.Some? ==> i <= r.value < |t.nodes[id].inputs| && !InputLinked(t, id, r.value)
    ensures r.Some? ==> forall j :: i <= j < r.value ==> InputLinked(t, id, j)
    decreases |t.nodes[id].inputs| - i
  {
    if i >= |t.nodes[id].inputs| then None
    else if !InputLinked(t, id, i) then Some(i)
    else FreeInputFrom(t, id, i + 1)
  }

  /** The first input socket of node `id` that is not linked; none when the
      node has no inputs or all are linked. */
  function FirstFreeInput(t: Tree, id: NodeId): (r: Option<nat>)
    requires id in t.nodes
    ensures t.nodes[id].inputs == [] ==> r.None?
    ensures r.None? <==> forall j :: 0 <= j < |t.nodes[id].inputs| ==> InputLinked(t, id, j)
    ensures r.Some? ==> r.value < |t.nodes[id].inputs| && !InputLinked(t, id, r.value)
    ensures r.Some? ==> forall j :: 0 <= j < r.value ==> InputLinked(t, id, j)
  {
    FreeInputFrom(t, id, 0)
  }

  /** The first output, from index `i` on, called `channel`. */
  function NamedOutputFrom(outs: seq<Socket>, channel: string, i: nat): (r: Option<nat>)
    ensures r.None? <==> forall j :: i <= j < |outs| ==> outs[j].name != channel
    ensures r.Some? ==> i <= r.value < |outs| && outs[r.value].name == channel
    ensures r.Some? ==> forall j :: i <= j < r.value ==> outs[j].name != channel
    decreases |outs| - i
  {
    if i >= |outs| then None
    else if outs[i].name == channel then Some(i)
    else NamedOutputFrom(outs, channel, i + 1)
  }

  /** The output the helper is linked from: the first called `channel`,
      else the first output; none when there are no outputs. */
  function ChannelOutput(outs: seq<Socket>, channel: string): (r: Option<nat>)
    ensures r.None? <==> outs == []
    ensures r.Some? ==> r.value < |outs|
    ensures (exists j :: 0 <= j < |outs| && outs[j].name == channel) ==>
      r.Some? && outs[r.value].name == channel && forall j :: 0 <= j < r.value ==> outs[j].name != channel
    ensures outs != [] && (forall j :: 0 <= j < |outs| ==> outs[j].name != channel) ==> r == Some(0)
  {
    var named := NamedOutputFrom(outs, channel, 0);
    if named.Some? then named
    else if outs != [] then Some(0)
    else None
  }

  /** The node class the host creates for a helper in a tree of `kind`. */
  function AttributeIdName(kind: string): (r: string)
    ensures r in AttributeIdNames
    ensures r == NamedAttributeId <==> kind == "GEOMETRY"
  {
    if kind == "SHADER" then ShaderAttributeId
    else if kind == "GEOMETRY" then NamedAttributeId
    else ShaderAttributeId
  }

  /** What the host gives a new node of a class: its type tag, size and
      sockets.  These are host data, so they are a parameter. */
  datatype Template = Template(typeTag: string, width: real, height: real, inputs: seq<Socket>, outputs: seq<Socket>)

  /** The helper node for `target`: class by tree kind, name `Attr_` plus the
      target's name, helper label, attribute name `attrText`; the attribute
      type is set only where the class has one (the shader attribute node). */
  function HelperNode(kind: string, target: Node, attrText: string, attrType: string, host: string -> Template): (n: Node)
    ensures n.idName == AttributeIdName(kind) && IsTmpAttribute(n)
    ensures n.name == HelperPrefix + target.name && n.nodeLabel == TmpAttrLabel
    ensures n.attributeName == attrText
    ensures n.attributeType.Some? <==> n.idName == ShaderAttributeId
    ensures n.attributeType.Some? ==> n.attributeType.value == attrType
    ensures n.outputs == host(AttributeIdName(kind)).outputs && n.parent.None? && n.payload.None?
  {
    var idName := AttributeIdName(kind);
    var tpl := host(idName);
    Node(tpl.typeTag, idName, HelperPrefix + target.name, TmpAttrLabel, 0.0, 0.0, tpl.width, tpl.height,
         tpl.inputs, tpl.outputs, None, None, attrText,
         if idName == ShaderAttributeId then Some(attrType) else None)
  }

  /** The host's `_add_attribute_node`: the new tree and the helper created,
      if any. */
  function AddAttributeNode(t: Tree, target: NodeId, attrText: string, attrType: string, channel: string,
                            host: string -> Template): (r: (Tree, Option<NodeId>))
    requires target in t.nodes
    ensures r.1.None? <==> FirstFreeInput(t, target).None?
    ensures r.1.None? ==> r.0 == t
    ensures r.1.Some? ==> r.1.value !in t.nodes
    ensures r.1.Some? ==> r.0.nodes == t.nodes[r.1.value := HelperNode(t.kind, t.nodes[target], attrText, attrType, host)]
    ensures r.0.name == t.name && r.0.kind == t.kind
    ensures WellFormed(t) ==> WellFormed(r.0)
  {
    match FirstFreeInput(t, target)
    case None => (t, None)
    case Some(i) =>
      var n := HelperNode(t.kind, t.nodes[target], attrText, attrType, host);
      var a := FreshId(t);
      var t1 := AddNode(t, a, n);
      match ChannelOutput(n.outputs, channel)
      case None => (t1, Some(a))
      case Some(o) =>
        var r := t1.(links := t1.links + {Link(a, o, target, i)});
        assert WellFormed(t) ==> WellFormed(r) by {
          if WellFormed(t) {
            assert WellFormed(t1);
          }
        }
        (r, Some(a))
  }

  /** The links after the call: the old ones, plus one from the helper's
      channel output (or first output) into the first free input of the
      target when the helper has outputs. */
  lemma AddAttributeNodeLinks(t: Tree, target: NodeId, attrText: string, attrType: string, channel: string,
                              host: string -> Template)
    requires target in t.nodes
    ensures var r := AddAttributeNode(t, target, attrText, attrType, channel, host);
            var n := HelperNode(t.kind, t.nodes[target], attrText, attrType, host);
            r.1.Some? ==>
              if n.outputs == [] then r.0.links == t.links
              else r.0.links == t.links + {Link(r.1.value, ChannelOutput(n.outputs, channel).value,
                                                target, FirstFreeInput(t, target).value)}
  {
  }

  /** Removing a node added to a well-formed tree, whose nodes have their
      parents in the tree, gives back that tree's nodes and links when every
      added link touches the new node. */
  lemma RemoveAdded(t: Tree, u: Tree, a: NodeId)
    requires WellFormed(t) && a !in t.nodes && a in u.nodes
    requires forall id :: id in t.nodes ==> t.nodes[id].parent.None? || t.nodes[id].parent.value in t.nodes
    requires u.nodes == t.nodes[a := u.nodes[a]]
    requires t.links <= u.links && forall l :: l in u.links - t.links ==> l.fromNode == a || l.toNode == a
    ensures RemoveNodes(u, {a}).nodes == t.nodes && RemoveNodes(u, {a}).links == t.links
  {
    var c := RemoveNodes(u, {a});
    forall id | id in c.nodes ensures c.nodes[id] == t.nodes[id] {
      assert c.nodes[id] == Detach(t.nodes[id], {a});
    }
    forall l | l in t.links ensures l in c.links {
      assert l.fromNode in t.nodes && l.toNode in t.nodes;
    }
  }

  /** The helper pass undoes the call on a tree that held no helper: the
      helper and its link go, and the nodes and links are as before. */
  lemma AddAttributeNodeRemoved(t: Tree, target: NodeId, attrText: string, attrType: string, channel: string,
                                host: string -> Template)
    requires target in t.nodes && WellFormed(t) && TmpAttributeIds(t) == {}
    requires forall id :: id in t.nodes ==> t.nodes[id].parent.None? || t.nodes[id].parent.value in t.nodes
    ensures var r := AddAttributeNode(t, target, attrText, attrType, channel, host);
            var c := RemoveTmpAttributeNodes(r.0);
            c.nodes == t.nodes && c.links == t.links
  {
    var r := AddAttributeNode(t, target, attrText, attrType, channel, host);
    AddAttributeNodeLinks(t, target, attrText, attrType, channel, host);
    AddedHelperIds(t, r.0, r.1);
    if r.1.Some? {
      RemoveAdded(t, r.0, r.1.value);
    } else {
      RemoveNothing(t);
    }
  }

  lemma RemoveNothing(t: Tree)
    ensures RemoveNodes(t, {}).nodes == t.nodes && RemoveNodes(t, {}).links == t.links
  {
    var c := RemoveNodes(t, {});
    forall id | id in c.nodes ensures c.nodes[id] == t.nodes[id] {
      assert c.nodes[id] == Detach(t.nodes[id], {});
    }
  }

  /** Adding one helper to a tree without helpers leaves exactly that one. */
  lemma AddedHelperIds(t: Tree, u: Tree, a: Option<NodeId>)
    requires TmpAttributeIds(t) == {}
    requires a.None? ==> u == t
    requires a.Some? ==> a.value !in t.nodes && a.value in u.nodes && u.nodes == t.nodes[a.value := u.nodes[a.value]] && IsTmpAttribute(u.nodes[a.value])
    ensures TmpAttributeIds(u) == if a.Some? then {a.value} else {}
  {
    if a.Some? {
      forall id | id in u.nodes && id != a.value ensures !IsTmpAttribute(u.nodes[id]) {
        assert id !in TmpAttributeIds(t);
      }
    }
  }

  /** Removing the `Attr_` prefix from the helper's name gives the target's
      name back, when that name does not itself hold `Attr_`: the layout
      then places the helper next to its target. */
  lemma HelperNamesTarget(kind: string, target: Node, attrText: string, attrType: string, host: string -> Template)
    requires !Contains(target.name, HelperPrefix)
    ensures RemoveAll(HelperNode(kind, target, attrText, attrType, host).name, HelperPrefix) == target.name
  {
    RemoveAllPrefix(HelperPrefix, target.name);
  }
}
