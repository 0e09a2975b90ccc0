/**
 * The unused-node search: the complement of the used set in one tree, and
 * its recursive extension into the payload trees of unused group nodes,
 * namespaced by a dotted containment path.
 */
module Unused {
  import opened Graph
  import opened Reachability

  /** The per-node record of the result map. */
  datatype Record = Record(
    typeTag: string,
    materials: seq<string>,
    connectedToOutput: seq<string>,
    parentTree: string)

  /** The path stamped on records found directly in `t`. */
  function TreeLabel(t: Tree, parentName: string): string {
    if parentName != "" then parentName else t.name
  }

  /** The path handed to the search inside a group node called `nodeName`. */
  function NestedName(parentName: string, nodeName: string): string {
    if parentName != "" then parentName + "." + nodeName else nodeName
  }

  /** Whether an unused node stays in the result under the attribute filter. */
  predicate Shown(n: Node, showAttributes: bool) {
    showAttributes || !IsAttributeKind(n)
  }

  /** The unused nodes of tree `tid`; a tree id outside the library stands
      for a missing tree. */
  function FindUnusedNodes(lib: Library, tid: TreeId, parentName: string, showAttributes: bool): (r: map<NodeRef, Record>)
    ensures tid !in lib || OutputNodes(lib[tid]) == {} ==> r == map[]
    ensures forall k :: k in r ==>
      && k.tree == tid && tid in lib && k.id in lib[tid].nodes
      && r[k] == Record(lib[tid].nodes[k.id].typeTag, [], [], TreeLabel(lib[tid], parentName))
  {
    if tid !in lib then map[]
    else
      var t := lib[tid];
      if OutputNodes(t) == {} then map[]
      else
        var used := UsedNodes(t);
        map k | k in (set id | id in t.nodes && id !in used && Shown(t.nodes[id], showAttributes) :: NodeRef(tid, id))
          :: Record(t.nodes[k.id].typeTag, [], [], TreeLabel(t, parentName))
  }

  /** The keys of the flat search are exactly the shown nodes of the tree
      outside the used set, whenever the tree has an output node. */
  lemma FindUnusedKeys(lib: Library, tid: TreeId, parentName: string, showAttributes: bool, id: NodeId)
    requires tid in lib && OutputNodes(lib[tid]) != {}
    ensures NodeRef(tid, id) in FindUnusedNodes(lib, tid, parentName, showAttributes) <==>
      id in lib[tid].nodes && id !in UsedNodes(lib[tid]) && Shown(lib[tid].nodes[id], showAttributes)
  {
  }

  /** With attributes shown, a node of a well-formed tree that has an output
      node is an unused key exactly when it is outside the used set, and
      exactly when no walk joins it to an output node. */
  lemma UnusedIffNotConnected(lib: Library, tid: TreeId, parentName: string, id: NodeId)
    requires tid in lib && WellFormed(lib[tid]) && OutputNodes(lib[tid]) != {}
    requires id in lib[tid].nodes
    ensures NodeRef(tid, id) in FindUnusedNodes(lib, tid, parentName, true) <==> id !in UsedNodes(lib[tid])
    ensures NodeRef(tid, id) in FindUnusedNodes(lib, tid, parentName, true) <==> !ConnectedToOutput(lib[tid], id)
  {
    FindUnusedKeys(lib, tid, parentName, true, id);
    UsedIffConnected(lib[tid], id);
  }

  /** The unused keys and the used set partition the nodes of a well-formed
      tree that has an output node. */
  lemma UnusedPartition(lib: Library, tid: TreeId, parentName: string)
    requires tid in lib && WellFormed(lib[tid]) && OutputNodes(lib[tid]) != {}
    ensures forall id :: id in lib[tid].nodes ==>
      (NodeRef(tid, id) in FindUnusedNodes(lib, tid, parentName, true) <==> id !in UsedNodes(lib[tid]))
    ensures forall k :: k in FindUnusedNodes(lib, tid, parentName, true) ==> k.id !in UsedNodes(lib[tid])
    ensures UsedNodes(lib[tid]) <= lib[tid].nodes.Keys
  {
    forall id | id in lib[tid].nodes
      ensures NodeRef(tid, id) in FindUnusedNodes(lib, tid, parentName, true) <==> id !in UsedNodes(lib[tid])
    {
      FindUnusedKeys(lib, tid, parentName, true, id);
    }
    forall k | k in FindUnusedNodes(lib, tid, parentName, true)
      ensures k.id !in UsedNodes(lib[tid])
    {
      FindUnusedKeys(lib, tid, parentName, true, k.id);
    }
  }

  /** Unused group nodes of `tid` whose payload tree exists: the nodes the
      recursive search descends into. */
  predicate Descends(lib: Library, n: Node) {
    IsGroup(n) && n.payload.Some? && n.payload.value in lib
  }

  /** A rank that strictly decreases from every tree to the payload trees of
      its group nodes: the payload references are acyclic. */
  ghost predicate Ranked(lib: Library, rank: map<TreeId, nat>) {
    forall tid :: tid in lib ==>
      && tid in rank
      && forall id :: id in lib[tid].nodes && Descends(lib, lib[tid].nodes[id]) ==>
           lib[tid].nodes[id].payload.value in rank
           && rank[lib[tid].nodes[id].payload.value] < rank[tid]
  }

  function UnusedGroups(lib: Library, tid: TreeId, showAttributes: bool): (r: set<NodeId>)
    ensures forall id :: id in r ==> tid in lib && id in lib[tid].nodes && Descends(lib, lib[tid].nodes[id])
  {
    if tid !in lib then {}
    else
      set k | k in FindUnusedNodes(lib, tid, "", showAttributes) && Descends(lib, lib[tid].nodes[k.id]) :: k.id
  }

  /** Membership in `UnusedGroups` does not depend on the path. */
  lemma UnusedGroupsAnyPath(lib: Library, tid: TreeId, parentName: string, showAttributes: bool, id: NodeId)
    requires tid in lib
    ensures id in UnusedGroups(lib, tid, showAttributes) <==>
      NodeRef(tid, id) in FindUnusedNodes(lib, tid, parentName, showAttributes) && Descends(lib, lib[tid].nodes[id])
  {
    if OutputNodes(lib[tid]) != {} {
      FindUnusedKeys(lib, tid, parentName, showAttributes, id);
      FindUnusedKeys(lib, tid, "", showAttributes, id);
    }
  }

  function Payload(lib: Library, tid: TreeId, id: NodeId): TreeId
    requires tid in lib && id in lib[tid].nodes && Descends(lib, lib[tid].nodes[id])
  {
    lib[tid].nodes[id].payload.value
  }

  function RankOf(rank: map<TreeId, nat>, tid: TreeId): nat {
    if tid in rank then rank[tid] else 0
  }

  /** The keys of the recursive search: the flat keys of `tid` and the
      recursive keys of the payload of every unused group node. */
  ghost function RecursiveKeys(lib: Library, rank: map<TreeId, nat>, tid: TreeId, showAttributes: bool): set<NodeRef>
    requires Ranked(lib, rank)
    decreases RankOf(rank, tid), 1
  {
    if tid !in lib then {}
    else
      FindUnusedNodes(lib, tid, "", showAttributes).Keys
      + NestedKeys(lib, rank, tid, UnusedGroups(lib, tid, showAttributes), showAttributes)
  }

  /** The recursive keys of the payloads of the group nodes `ids` of `tid`. */
  ghost function NestedKeys(lib: Library, rank: map<TreeId, nat>, tid: TreeId, ids: set<NodeId>, showAttributes: bool): set<NodeRef>
    requires Ranked(lib, rank)
    requires ids <= UnusedGroups(lib, tid, showAttributes)
    decreases RankOf(rank, tid), 0
  {
    set id, k | id in ids && k in RecursiveKeys(lib, rank, Payload(lib, tid, id), showAttributes) :: k
  }

  lemma NestedKeysAdd(lib: Library, rank: map<TreeId, nat>, tid: TreeId, ids: set<NodeId>, id: NodeId, showAttributes: bool)
    requires Ranked(lib, rank)
    requires ids <= UnusedGroups(lib, tid, showAttributes)
    requires id in UnusedGroups(lib, tid, showAttributes)
    ensures NestedKeys(lib, rank, tid, ids + {id}, showAttributes)
         == NestedKeys(lib, rank, tid, ids, showAttributes) + RecursiveKeys(lib, rank, Payload(lib, tid, id), showAttributes)
  {
  }

  /** Every recursive key lies in a tree of rank at most that of `tid`. */
  lemma {:induction false} RecursiveKeysRank(lib: Library, rank: map<TreeId, nat>, tid: TreeId, showAttributes: bool, k: NodeRef)
    requires Ranked(lib, rank)
    requires k in RecursiveKeys(lib, rank, tid, showAttributes)
    ensures tid in lib && k.tree in lib && RankOf(rank, k.tree) <= RankOf(rank, tid)
    decreases RankOf(rank, tid)
  {
    if k !in FindUnusedNodes(lib, tid, "", showAttributes) {
      assert k in NestedKeys(lib, rank, tid, UnusedGroups(lib, tid, showAttributes), showAttributes);
      var id :| id in UnusedGroups(lib, tid, showAttributes)
        && k in RecursiveKeys(lib, rank, Payload(lib, tid, id), showAttributes);
      RecursiveKeysRank(lib, rank, Payload(lib, tid, id), showAttributes, k);
    }
  }

  /** `rec` is a record the recursive search of `tid` under `parentName`
      can leave for key `k`, for some visiting order of the unused group
      nodes: the flat record when `k` is a node of `tid`, otherwise a record
      the search of some unused group node's payload can leave. */
  ghost predicate PossibleRecord(lib: Library, rank: map<TreeId, nat>, tid: TreeId, parentName: string,
                                 showAttributes: bool, k: NodeRef, rec: Record)
    requires Ranked(lib, rank)
    decreases RankOf(rank, tid)
  {
    && tid in lib
    && var flat := FindUnusedNodes(lib, tid, parentName, showAttributes);
       if k in flat then rec == flat[k]
       else exists id :: id in UnusedGroups(lib, tid, showAttributes)
              && PossibleRecord(lib, rank, Payload(lib, tid, id),
                                NestedName(parentName, lib[tid].nodes[id].name), showAttributes, k, rec)
  }

  /** The flat keys do not depend on the path. */
  lemma FlatKeysAnyPath(lib: Library, tid: TreeId, parentName: string, showAttributes: bool)
    ensures FindUnusedNodes(lib, tid, parentName, showAttributes).Keys == FindUnusedNodes(lib, tid, "", showAttributes).Keys
  {
    forall k ensures k in FindUnusedNodes(lib, tid, parentName, showAttributes) <==> k in FindUnusedNodes(lib, tid, "", showAttributes) {
      if tid in lib && OutputNodes(lib[tid]) != {} {
        FindUnusedKeys(lib, tid, parentName, showAttributes, k.id);
        FindUnusedKeys(lib, tid, "", showAttributes, k.id);
      }
    }
  }

  /** Merging the result for one unused group node into a map of possible
      records keeps every record possible and every flat record in place. */
  lemma MergeKeepsPossible(lib: Library, rank: map<TreeId, nat>, tid: TreeId, parentName: string,
                           showAttributes: bool, id: NodeId, r: map<NodeRef, Record>, nested: map<NodeRef, Record>)
    requires Ranked(lib, rank)
    requires id in UnusedGroups(lib, tid, showAttributes)
    requires nested.Keys == RecursiveKeys(lib, rank, Payload(lib, tid, id), showAttributes)
    requires forall k :: k in nested ==>
      PossibleRecord(lib, rank, Payload(lib, tid, id), NestedName(parentName, lib[tid].nodes[id].name), showAttributes, k, nested[k])
    requires forall k :: k in r ==> PossibleRecord(lib, rank, tid, parentName, showAttributes, k, r[k])
    requires forall k :: k in FindUnusedNodes(lib, tid, parentName, showAttributes) ==>
      k in r && r[k] == FindUnusedNodes(lib, tid, parentName, showAttributes)[k]
    ensures forall k :: k in r + nested ==> PossibleRecord(lib, rank, tid, parentName, showAttributes, k, (r + nested)[k])
    ensures forall k :: k in FindUnusedNodes(lib, tid, parentName, showAttributes) ==>
      k in r + nested && (r + nested)[k] == FindUnusedNodes(lib, tid, parentName, showAttributes)[k]
  {
    var flat := FindUnusedNodes(lib, tid, parentName, showAttributes);
    NestedKeysElsewhere(lib, rank, tid, id, showAttributes, parentName, nested.Keys);
    forall k | k in r + nested
      ensures PossibleRecord(lib, rank, tid, parentName, showAttributes, k, (r + nested)[k])
    {
      if k in nested {
        assert k !in flat;
      }
    }
  }

  /** What the recursive search has established once the group nodes
      `done` have been visited. */
  ghost predicate SearchState(lib: Library, rank: map<TreeId, nat>, tid: TreeId, parentName: string,
                              showAttributes: bool, done: set<NodeId>, r: map<NodeRef, Record>)
    requires Ranked(lib, rank)
  {
    && done <= UnusedGroups(lib, tid, showAttributes)
    && r.Keys == FindUnusedNodes(lib, tid, "", showAttributes).Keys + NestedKeys(lib, rank, tid, done, showAttributes)
    && (forall k :: k in FindUnusedNodes(lib, tid, parentName, showAttributes) ==>
          k in r && r[k] == FindUnusedNodes(lib, tid, parentName, showAttributes)[k])
    && (forall k :: k in r ==> PossibleRecord(lib, rank, tid, parentName, showAttributes, k, r[k]))
  }

  lemma SearchStart(lib: Library, rank: map<TreeId, nat>, tid: TreeId, parentName: string, showAttributes: bool)
    requires Ranked(lib, rank) && tid in lib
    ensures SearchState(lib, rank, tid, parentName, showAttributes, {}, FindUnusedNodes(lib, tid, parentName, showAttributes))
  {
    FlatKeysAnyPath(lib, tid, parentName, showAttributes);
    assert NestedKeys(lib, rank, tid, {}, showAttributes) == {};
  }

  /** Visiting one more unused group node and merging its result. */
  lemma SearchStep(lib: Library, rank: map<TreeId, nat>, tid: TreeId, parentName: string,
                   showAttributes: bool, done: set<NodeId>, id: NodeId, r: map<NodeRef, Record>, nested: map<NodeRef, Record>)
    requires Ranked(lib, rank)
    requires SearchState(lib, rank, tid, parentName, showAttributes, done, r)
    requires id in UnusedGroups(lib, tid, showAttributes)
    requires nested.Keys == RecursiveKeys(lib, rank, Payload(lib, tid, id), showAttributes)
    requires forall k :: k in nested ==>
      PossibleRecord(lib, rank, Payload(lib, tid, id), NestedName(parentName, lib[tid].nodes[id].name), showAttributes, k, nested[k])
    ensures SearchState(lib, rank, tid, parentName, showAttributes, done + {id}, r + nested)
  {
    MergeKeepsPossible(lib, rank, tid, parentName, showAttributes, id, r, nested);
    StepKeys(lib, rank, tid, showAttributes, done, id, r.Keys, nested.Keys);
  }

  lemma StepKeys(lib: Library, rank: map<TreeId, nat>, tid: TreeId, showAttributes: bool,
                 done: set<NodeId>, id: NodeId, rk: set<NodeRef>, nk: set<NodeRef>)
    requires Ranked(lib, rank)
    requires done <= UnusedGroups(lib, tid, showAttributes) && id in UnusedGroups(lib, tid, showAttributes)
    requires rk == FindUnusedNodes(lib, tid, "", showAttributes).Keys + NestedKeys(lib, rank, tid, done, showAttributes)
    requires nk == RecursiveKeys(lib, rank, Payload(lib, tid, id), showAttributes)
    ensures done + {id} <= UnusedGroups(lib, tid, showAttributes)
    ensures rk + nk == FindUnusedNodes(lib, tid, "", showAttributes).Keys + NestedKeys(lib, rank, tid, done + {id}, showAttributes)
  {
    NestedKeysAdd(lib, rank, tid, done, id, showAttributes);
  }

  /** The recursive search.  The source visits the unused group nodes in the
      unspecified order of a set; here each step picks any of the remaining
      ones, and the contract holds for every order. */
  method FindUnusedNodesRecursive(lib: Library, rank: map<TreeId, nat>, tid: TreeId, parentName: string,
                                  showAttributes: bool) returns (r: map<NodeRef, Record>)
    requires Ranked(lib, rank)
    ensures r.Keys == RecursiveKeys(lib, rank, tid, showAttributes)
    ensures forall k :: k in FindUnusedNodes(lib, tid, parentName, showAttributes) ==>
      k in r && r[k] == FindUnusedNodes(lib, tid, parentName, showAttributes)[k]
    ensures forall k :: k in r ==> PossibleRecord(lib, rank, tid, parentName, showAttributes, k, r[k])
    decreases RankOf(rank, tid)
  {
    if tid !in lib {
      return map[];
    }
    r := FindUnusedNodes(lib, tid, parentName, showAttributes);
    SearchStart(lib, rank, tid, parentName, showAttributes);
    var todo := UnusedGroups(lib, tid, showAttributes);
    ghost var groups := todo;
    ghost var done: set<NodeId> := {};
    while todo != {}
      invariant todo !! done && todo + done == groups
      invariant SearchState(lib, rank, tid, parentName, showAttributes, done, r)
      decreases |todo|
    {
      var id :| id in todo;
      var nested := FindUnusedNodesRecursive(lib, rank, Payload(lib, tid, id),
                                             NestedName(parentName, lib[tid].nodes[id].name), showAttributes);
      SearchStep(lib, rank, tid, parentName, showAttributes, done, id, r, nested);
      MoveOne(todo, done, groups, id);
      r := r + nested;
      todo := todo - {id};
      done := done + {id};
    }
    assert done == groups;
  }

  /** Moving one element from the pending set to the finished set keeps the
      two a partition of the same whole. */
  lemma MoveOne(todo: set<NodeId>, done: set<NodeId>, whole: set<NodeId>, id: NodeId)
    requires todo !! done && todo + done == whole && id in todo
    ensures (todo - {id}) !! (done + {id}) && (todo - {id}) + (done + {id}) == whole
    ensures |todo - {id}| < |todo|
  {
  }

  /** The payload of an unused group node of `tid` holds no node of `tid`. */
  lemma NestedKeysElsewhere(lib: Library, rank: map<TreeId, nat>, tid: TreeId, id: NodeId, showAttributes: bool,
                            parentName: string, ks: set<NodeRef>)
    requires Ranked(lib, rank)
    requires id in UnusedGroups(lib, tid, showAttributes)
    requires ks == RecursiveKeys(lib, rank, Payload(lib, tid, id), showAttributes)
    ensures forall k :: k in ks ==> k.tree != tid && k !in FindUnusedNodes(lib, tid, parentName, showAttributes)
  {
    forall k | k in ks
      ensures k.tree != tid
    {
      RecursiveKeysRank(lib, rank, Payload(lib, tid, id), showAttributes, k);
    }
  }

  /** Every node of `u` with a payload is a node of `t` of the same kind with
      the same payload: what the editing operations keep of a tree. */
  predicate PayloadsKept(t: Tree, u: Tree) {
    forall id :: id in u.nodes && u.nodes[id].payload.Some? ==>
      id in t.nodes && u.nodes[id].typeTag == t.nodes[id].typeTag && u.nodes[id].payload == t.nodes[id].payload
  }

  /** A tree edited without new payload references keeps the library ranked. */
  lemma RankedReplace(lib: Library, rank: map<TreeId, nat>, tid: TreeId, u: Tree)
    requires Ranked(lib, rank) && tid in lib && PayloadsKept(lib[tid], u)
    ensures Ranked(lib[tid := u], rank)
  {
    var lib' := lib[tid := u];
    forall id | id in u.nodes && Descends(lib', u.nodes[id])
      ensures u.nodes[id].payload.value in rank && rank[u.nodes[id].payload.value] < rank[tid]
    {
      assert Descends(lib, lib[tid].nodes[id]);
    }
  }

  /** A recursive key in the searched tree itself is a key of the flat search:
      the payload trees rank lower, so none of their keys is in `tid`. */
  lemma OwnKeys(lib: Library, rank: map<TreeId, nat>, tid: TreeId, showAttributes: bool, k: NodeRef)
    requires Ranked(lib, rank) && k in RecursiveKeys(lib, rank, tid, showAttributes) && k.tree == tid
    ensures k in FindUnusedNodes(lib, tid, "", showAttributes) && tid in lib && k.id in lib[tid].nodes
  {
    assert tid in lib;
    var groups := UnusedGroups(lib, tid, showAttributes);
    forall id | id in groups ensures k !in RecursiveKeys(lib, rank, Payload(lib, tid, id), showAttributes) {
      NestedKeysElsewhere(lib, rank, tid, id, showAttributes, "", RecursiveKeys(lib, rank, Payload(lib, tid, id), showAttributes));
    }
    assert k !in NestedKeys(lib, rank, tid, groups, showAttributes);
  }

  /** Some key of `ks` is a node of a tree other than `tid`. */
  predicate HasForeign(ks: set<NodeRef>, tid: TreeId) {
    exists k :: k in ks && k.tree != tid
  }

  /** The ids of the keys of `ks` that are nodes of tree `tid`. */
  function OwnIds(ks: set<NodeRef>, tid: TreeId): (r: set<NodeId>)
    ensures forall id :: id in r <==> NodeRef(tid, id) in ks
  {
    set k | k in ks && k.tree == tid :: k.id
  }

  /** Putting back a changed tree keeps the library's trees, its ranking and
      the well-formedness of all its trees. */
  lemma ReplaceTree(lib: Library, rank: map<TreeId, nat>, tid: TreeId, u: Tree)
    requires Ranked(lib, rank) && tid in lib && PayloadsKept(lib[tid], u)
    requires WellFormed(lib[tid]) ==> WellFormed(u)
    ensures lib[tid := u].Keys == lib.Keys && Ranked(lib[tid := u], rank)
    ensures AllWellFormed(lib) ==> AllWellFormed(lib[tid := u])
  {
    RankedReplace(lib, rank, tid, u);
  }

  /** A record the recursive search can leave belongs to an existing node:
      it carries that node's type and empty usage lists. */
  lemma {:induction false} PossibleRecordShape(lib: Library, rank: map<TreeId, nat>, tid: TreeId, parentName: string,
                                               showAttributes: bool, k: NodeRef, rec: Record)
    requires Ranked(lib, rank) && PossibleRecord(lib, rank, tid, parentName, showAttributes, k, rec)
    ensures NodeAt(lib, k).Some? && rec.typeTag == NodeAt(lib, k).value.typeTag
    ensures rec.materials == [] && rec.connectedToOutput == []
    decreases RankOf(rank, tid)
  {
    if k !in FindUnusedNodes(lib, tid, parentName, showAttributes) {
      var id :| id in UnusedGroups(lib, tid, showAttributes)
        && PossibleRecord(lib, rank, Payload(lib, tid, id), NestedName(parentName, lib[tid].nodes[id].name), showAttributes, k, rec);
      PossibleRecordShape(lib, rank, Payload(lib, tid, id), NestedName(parentName, lib[tid].nodes[id].name), showAttributes, k, rec);
    }
  }
}
