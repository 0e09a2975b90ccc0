/**
 * The two delete operators: every node the recursive search reports is
 * removed from the searched tree, one after the other in the order of the
 * result map, whose own-tree keys come first.  A key of a nested group tree
 * is not a node of the searched tree, so the host refuses to remove it and
 * the operator is cancelled, after the own-tree nodes are gone.
 */
module Deletion {
  import opened Graph
  import opened Reachability
  import opened Unused
  import opened GroupUsage

  /** The removal loop: the own-tree nodes are removed one by one; `complete`
      is false when a key of another tree is met afterwards. */
  method RemoveFound(t: Tree, tid: TreeId, found: map<NodeRef, Record>) returns (r: Tree, complete: bool)
    ensures r == RemoveNodes(t, OwnIds(found.Keys, tid))
    ensures complete <==> !HasForeign(found.Keys, tid)
  {
    var todo := OwnIds(found.Keys, tid);
    ghost var removed: set<NodeId> := {};
    r := t;
    RemoveNone(t);
    while todo != {}
      invariant todo !! removed && todo + removed == OwnIds(found.Keys, tid)
      invariant r == RemoveNodes(t, removed)
      decreases |todo|
    {
      var id :| id in todo;
      RemoveNodesTwice(t, removed, {id});
      r := RemoveNodes(r, {id});
      MoveOne(todo, removed, OwnIds(found.Keys, tid), id);
      todo := todo - {id};
      removed := removed + {id};
    }
    complete := !exists k :: k in found && k.tree != tid;
  }

  /** How a delete run on one tree ends: finished with the count reported,
      cancelled after removing the own-tree nodes, or cancelled for want of
      a tree. */
  datatype Deletion = Deleted(tree: Tree, count: nat) | Interrupted(tree: Tree) | NoTree

  /** The nodes the delete operator removes from tree `tid`. */
  ghost function DeletedIds(lib: Library, rank: map<TreeId, nat>, tid: TreeId): set<NodeId>
    requires Ranked(lib, rank)
  {
    OwnIds(RecursiveKeys(lib, rank, tid, true), tid)
  }

  /** One tree's deletion, as both operators run it. */
  method DeleteInTree(lib: Library, rank: map<TreeId, nat>, tid: TreeId) returns (d: Deletion)
    requires Ranked(lib, rank) && tid in lib
    ensures !d.NoTree?
    ensures d.tree == RemoveNodes(lib[tid], DeletedIds(lib, rank, tid))
    ensures d.Interrupted? <==> HasForeign(RecursiveKeys(lib, rank, tid, true), tid)
    ensures d.Deleted? ==> d.count == |RecursiveKeys(lib, rank, tid, true)|
    ensures RecursiveKeys(lib, rank, tid, true) == {} ==> d == Deleted(lib[tid], 0)
  {
    var found := FindUnusedNodesRecursive(lib, rank, tid, "", true);
    if found == map[] {
      assert OwnIds(found.Keys, tid) == {};
      RemoveNone(lib[tid]);
      return Deleted(lib[tid], 0);
    }
    var r, complete := RemoveFound(lib[tid], tid, found);
    if complete {
      d := Deleted(r, |found|);
    } else {
      d := Interrupted(r);
    }
  }

  /** `NODE_OT_DeleteUnusedNodes`: the active tree, if any, loses its unused
      nodes. */
  method DeleteUnusedNodes(lib: Library, rank: map<TreeId, nat>, active: Option<TreeId>) returns (d: Deletion)
    requires Ranked(lib, rank)
    ensures d.NoTree? <==> active.None? || active.value !in lib
    ensures !d.NoTree? ==> d.tree == RemoveNodes(lib[active.value], DeletedIds(lib, rank, active.value))
    ensures !d.NoTree? ==> (d.Interrupted? <==> HasForeign(RecursiveKeys(lib, rank, active.value, true), active.value))
    ensures d.Deleted? ==> d.count == |RecursiveKeys(lib, rank, active.value, true)|
  {
    if active.None? || active.value !in lib {
      return NoTree;
    }
    d := DeleteInTree(lib, rank, active.value);
  }

  /** Removing nodes that are not output nodes keeps the output nodes. */
  lemma OutputsAfterRemoval(t: Tree, ks: set<NodeId>)
    requires forall id :: id in ks ==> id !in OutputNodes(t)
    ensures OutputNodes(RemoveNodes(t, ks)) == OutputNodes(t)
  {
    var r := RemoveNodes(t, ks);
    forall id | id in OutputNodes(t) ensures id in OutputNodes(r) {
      assert r.nodes[id] == Detach(t.nodes[id], ks);
    }
    forall id | id in OutputNodes(r) ensures id in OutputNodes(t) {
      assert r.nodes[id] == Detach(t.nodes[id], ks);
    }
  }

  /** A set closed under the links of a tree stays closed once other links go. */
  lemma ClosedAfterRemoval(t: Tree, ks: set<NodeId>, c: set<NodeId>)
    requires Closed(t, c)
    ensures Closed(RemoveNodes(t, ks), c)
  {
  }

  /** A subset of a closed set that avoids `ks` and is closed once `ks` is
      removed was closed before. */
  lemma ClosedBeforeRemoval(t: Tree, ks: set<NodeId>, u: set<NodeId>, c: set<NodeId>)
    requires Closed(t, u) && c <= u && u !! ks && Closed(RemoveNodes(t, ks), c)
    ensures Closed(t, c)
  {
    var r := RemoveNodes(t, ks);
    forall l | l in t.links
      ensures (l.toNode in c ==> l.fromNode in c) && (l.fromNode in c ==> l.toNode in c)
    {
      if l.toNode in c || l.fromNode in c {
        assert l.toNode in u && l.fromNode in u;
        assert l in r.links;
      }
    }
  }

  /** Removing nodes outside the used set leaves the used set as it was. */
  lemma UsedAfterRemoval(t: Tree, ks: set<NodeId>)
    requires forall id :: id in ks ==> id !in UsedNodes(t)
    ensures OutputNodes(RemoveNodes(t, ks)) == OutputNodes(t)
    ensures UsedNodes(RemoveNodes(t, ks)) == UsedNodes(t)
  {
    var u := UsedNodes(t);
    var r := RemoveNodes(t, ks);
    UsedNodesLeastClosed(t);
    UsedNodesLeastClosed(r);
    OutputsAfterRemoval(t, ks);
    ClosedAfterRemoval(t, ks, u);
    assert UsedNodes(r) <= u;
    ClosedBeforeRemoval(t, ks, u, UsedNodes(r));
  }

  /** A tree with the unused nodes of a delete run removed has none left: a
      second run on it finds nothing, not even in nested groups, because no
      unused group node is left to search. */
  lemma DeleteIdempotent(lib: Library, rank: map<TreeId, nat>, tid: TreeId)
    requires Ranked(lib, rank) && tid in lib
    ensures var u := RemoveNodes(lib[tid], DeletedIds(lib, rank, tid));
            PayloadsKept(lib[tid], u) && Ranked(lib[tid := u], rank) && RecursiveKeys(lib[tid := u], rank, tid, true) == {}
  {
    var t := lib[tid];
    var ks := DeletedIds(lib, rank, tid);
    var u := RemoveNodes(t, ks);
    assert PayloadsKept(t, u) by {
      forall id | id in u.nodes ensures u.nodes[id] == Detach(t.nodes[id], ks) {
      }
    }
    RankedReplace(lib, rank, tid, u);
    DeletedNotUsed(lib, rank, tid);
    UsedAfterRemoval(t, ks);
    NothingLeft(lib, rank, tid, u);
  }

  /** No node the delete run removes is used. */
  lemma DeletedNotUsed(lib: Library, rank: map<TreeId, nat>, tid: TreeId)
    requires Ranked(lib, rank) && tid in lib
    ensures forall id :: id in DeletedIds(lib, rank, tid) ==> id !in UsedNodes(lib[tid])
  {
    forall id | id in DeletedIds(lib, rank, tid) ensures id !in UsedNodes(lib[tid]) {
      OwnKeys(lib, rank, tid, true, NodeRef(tid, id));
      FindUnusedKeys(lib, tid, "", true, id);
    }
  }

  /** Once the tree is replaced by `u`, which keeps the output and used
      sets, the recursive search finds nothing. */
  lemma NothingLeft(lib: Library, rank: map<TreeId, nat>, tid: TreeId, u: Tree)
    requires Ranked(lib, rank) && tid in lib && Ranked(lib[tid := u], rank)
    requires u == RemoveNodes(lib[tid], DeletedIds(lib, rank, tid))
    requires OutputNodes(u) == OutputNodes(lib[tid]) && UsedNodes(u) == UsedNodes(lib[tid])
    ensures RecursiveKeys(lib[tid := u], rank, tid, true) == {}
  {
    var lib2 := lib[tid := u];
    if OutputNodes(u) != {} {
      AllUsedLeft(lib, rank, tid, u);
      FlatEmpty(lib2, tid);
    }
    assert FindUnusedNodes(lib2, tid, "", true) == map[];
    assert UnusedGroups(lib2, tid, true) == {};
    assert NestedKeys(lib2, rank, tid, {}, true) == {};
  }

  /** Every node left by the delete run is used. */
  lemma AllUsedLeft(lib: Library, rank: map<TreeId, nat>, tid: TreeId, u: Tree)
    requires Ranked(lib, rank) && tid in lib
    requires u == RemoveNodes(lib[tid], DeletedIds(lib, rank, tid))
    requires OutputNodes(lib[tid]) != {} && UsedNodes(u) == UsedNodes(lib[tid])
    ensures forall id :: id in u.nodes ==> id in UsedNodes(u)
  {
    forall id | id in u.nodes ensures id in UsedNodes(u) {
      FlatKeysAll(lib, rank, tid, id);
    }
  }

  /** A tree with an output node whose nodes are all used has no unused key. */
  lemma FlatEmpty(lib: Library, tid: TreeId)
    requires tid in lib && OutputNodes(lib[tid]) != {}
    requires forall id :: id in lib[tid].nodes ==> id in UsedNodes(lib[tid])
    ensures FindUnusedNodes(lib, tid, "", true) == map[]
  {
    forall id ensures NodeRef(tid, id) !in FindUnusedNodes(lib, tid, "", true) {
      FindUnusedKeys(lib, tid, "", true, id);
    }
  }

  /** A node of a tree with an output node is either used or a key of the
      delete run. */
  lemma FlatKeysAll(lib: Library, rank: map<TreeId, nat>, tid: TreeId, id: NodeId)
    requires Ranked(lib, rank) && tid in lib && id in lib[tid].nodes && OutputNodes(lib[tid]) != {}
    ensures id in UsedNodes(lib[tid]) || id in DeletedIds(lib, rank, tid)
  {
    FindUnusedKeys(lib, tid, "", true, id);
  }

  /** A tree whose flat search finds nothing: no unused node of its own and
      so no unused group to descend into. */
  predicate Clean(lib: Library, tid: TreeId) {
    FindUnusedNodes(lib, tid, "", true) == map[]
  }

  /** A tree is clean exactly when the recursive search finds nothing in it. */
  lemma CleanNoKeys(lib: Library, rank: map<TreeId, nat>, tid: TreeId)
    requires Ranked(lib, rank)
    ensures Clean(lib, tid) <==> RecursiveKeys(lib, rank, tid, true) == {}
  {
    if tid in lib && Clean(lib, tid) {
      assert UnusedGroups(lib, tid, true) == {};
      assert NestedKeys(lib, rank, tid, {}, true) == {};
    }
    if tid in lib && !Clean(lib, tid) {
      var k :| k in FindUnusedNodes(lib, tid, "", true);
      assert k in RecursiveKeys(lib, rank, tid, true);
    }
  }

  /** Whether a tree is clean depends on that tree alone. */
  lemma CleanKept(lib: Library, next: Library, tid: TreeId)
    requires tid in lib <==> tid in next
    requires tid in lib ==> next[tid] == lib[tid]
    ensures Clean(next, tid) <==> Clean(lib, tid)
  {
  }

  /** Only nodes go: every tree of `next` is one of `lib` with fewer nodes. */
  ghost predicate OnlyRemoved(lib: Library, next: Library) {
    next.Keys == lib.Keys && forall tid :: tid in lib ==> next[tid].nodes.Keys <= lib[tid].nodes.Keys
  }

  /** Some node of `lib` is gone in `next`. */
  ghost predicate SomeRemoved(lib: Library, next: Library) {
    exists tid, id :: tid in lib && tid in next && id in lib[tid].nodes && id !in next[tid].nodes
  }

  lemma OnlyRemovedTrans(a: Library, b: Library, c: Library)
    requires OnlyRemoved(a, b) && OnlyRemoved(b, c)
    ensures OnlyRemoved(a, c)
    ensures SomeRemoved(a, b) ==> SomeRemoved(a, c)
  {
    if SomeRemoved(a, b) {
      var tid, id :| tid in a && tid in b && id in a[tid].nodes && id !in b[tid].nodes;
      assert id !in c[tid].nodes;
    }
  }

  /** One material of `NODE_OT_DeleteAllUnusedNodes`: a material with nodes
      enabled and a tree loses that tree's unused nodes; `ok` is false when a
      key of a nested tree interrupts the removal. */
  method DeleteMaterial(lib: Library, rank: map<TreeId, nat>, m: Material) returns (ok: bool, next: Library, count: nat)
    requires Ranked(lib, rank)
    ensures next.Keys == lib.Keys && Ranked(next, rank) && OnlyRemoved(lib, next)
    ensures !Usable(lib, m) ==> ok && next == lib && count == 0
    ensures Usable(lib, m) ==>
      next == lib[m.tree.value := RemoveNodes(lib[m.tree.value], DeletedIds(lib, rank, m.tree.value))]
    ensures Usable(lib, m) ==> (!ok <==> HasForeign(RecursiveKeys(lib, rank, m.tree.value, true), m.tree.value))
    ensures Usable(lib, m) && ok ==> count == |RecursiveKeys(lib, rank, m.tree.value, true)|
    ensures !ok ==> count == 0
    ensures Usable(lib, m) ==> Clean(next, m.tree.value)
    ensures ok ==> (count == 0 <==> next == lib) && (count != 0 ==> SomeRemoved(lib, next))
    ensures OthersKept(lib, next, m)
    ensures AllWellFormed(lib) ==> AllWellFormed(next)
  {
    if !Usable(lib, m) {
      return true, lib, 0;
    }
    var tid := m.tree.value;
    var d := DeleteInTree(lib, rank, tid);
    DeleteOneTree(lib, rank, tid);
    UpdateOthersKept(lib, m, d.tree);
    next := lib[tid := d.tree];
    ok := d.Deleted?;
    count := if d.Deleted? then d.count else 0;
    if ok && count != 0 {
      CountRemoves(lib, rank, tid);
    }
  }

  /** The library with tree `tid` cleaned: same trees and ranking, only
      nodes removed, and tree `tid` clean. */
  lemma DeleteOneTree(lib: Library, rank: map<TreeId, nat>, tid: TreeId)
    requires Ranked(lib, rank) && tid in lib
    ensures var next := lib[tid := RemoveNodes(lib[tid], DeletedIds(lib, rank, tid))];
      && next.Keys == lib.Keys && Ranked(next, rank) && OnlyRemoved(lib, next) && Clean(next, tid)
      && (AllWellFormed(lib) ==> AllWellFormed(next))
  {
    var u := RemoveNodes(lib[tid], DeletedIds(lib, rank, tid));
    DeleteIdempotent(lib, rank, tid);
    ReplaceTree(lib, rank, tid, u);
    CleanNoKeys(lib[tid := u], rank, tid);
  }

  /** A run on a tree whose search reports only its own nodes, at least one,
      removes a node. */
  lemma CountRemoves(lib: Library, rank: map<TreeId, nat>, tid: TreeId)
    requires Ranked(lib, rank) && tid in lib
    requires RecursiveKeys(lib, rank, tid, true) != {} && !HasForeign(RecursiveKeys(lib, rank, tid, true), tid)
    ensures SomeRemoved(lib, lib[tid := RemoveNodes(lib[tid], DeletedIds(lib, rank, tid))])
    ensures lib[tid := RemoveNodes(lib[tid], DeletedIds(lib, rank, tid))] != lib
  {
    var k :| k in RecursiveKeys(lib, rank, tid, true);
    assert k.tree == tid;
    OwnKeys(lib, rank, tid, true, k);
    var next := lib[tid := RemoveNodes(lib[tid], DeletedIds(lib, rank, tid))];
    assert k.id in lib[tid].nodes && k.id !in next[tid].nodes;
  }

  /** Every tree but that of material `m` is as it was. */
  ghost predicate OthersKept(lib: Library, next: Library, m: Material) {
    forall tid :: tid in lib && !(m.useNodes && m.tree == Some(tid)) ==> tid in next && next[tid] == lib[tid]
  }

  lemma UpdateOthersKept(lib: Library, m: Material, u: Tree)
    requires m.useNodes && m.tree.Some?
    ensures OthersKept(lib, lib[m.tree.value := u], m)
  {
  }

  /** The trees the sweep has cleaned stay clean after the next material. */
  lemma CleanStep(cur: Library, next: Library, mats: seq<Material>, i: nat)
    requires i < |mats| && next.Keys == cur.Keys && OthersKept(cur, next, mats[i])
    requires forall tid :: TreeOfSome(mats[..i], tid) ==> Clean(cur, tid)
    requires Usable(cur, mats[i]) ==> Clean(next, mats[i].tree.value)
    ensures forall tid :: TreeOfSome(mats[..i + 1], tid) ==> Clean(next, tid)
  {
    forall tid: TreeId | TreeOfSome(mats[..i + 1], tid) ensures Clean(next, tid) {
      TreeOfSomeStep(mats, i, tid);
      if mats[i].useNodes && mats[i].tree == Some(tid) {
        if tid !in cur {
          assert FindUnusedNodes(next, tid, "", true) == map[];
        }
      } else {
        CleanKept(cur, next, tid);
      }
    }
  }

  /** The trees no material visited so far are still those of `lib`. */
  lemma KeptStep(lib: Library, cur: Library, next: Library, mats: seq<Material>, i: nat)
    requires i < |mats| && next.Keys == cur.Keys && cur.Keys == lib.Keys && OthersKept(cur, next, mats[i])
    requires forall tid :: tid in lib && !TreeOfSome(mats[..i], tid) ==> tid in cur && cur[tid] == lib[tid]
    ensures forall tid :: tid in lib && !TreeOfSome(mats[..i + 1], tid) ==> next[tid] == lib[tid]
  {
    forall tid: TreeId | tid in lib && !TreeOfSome(mats[..i + 1], tid) ensures next[tid] == lib[tid] {
      TreeOfSomeStep(mats, i, tid);
    }
  }

  /** How `NODE_OT_DeleteAllUnusedNodes` ends: the library with the totals it
      reports, or the library as far as it got when a removal failed. */
  datatype Sweep = Swept(lib: Library, deleted: nat, processed: nat) | Halted(lib: Library)

  /** What the sweep has achieved after the materials `done`: the trees
      of the visited materials are clean, the others untouched, nodes only
      removed, the totals kept, and a total of zero means nothing changed. */
  ghost predicate SweepState(lib: Library, rank: map<TreeId, nat>, cur: Library, done: seq<Material>,
                             deleted: nat, processed: nat) {
    && cur.Keys == lib.Keys && Ranked(cur, rank) && OnlyRemoved(lib, cur)
    && processed == CountUsable(lib, done)
    && (forall tid :: tid in lib && !TreeOfSome(done, tid) ==> tid in cur && cur[tid] == lib[tid])
    && (forall tid :: TreeOfSome(done, tid) ==> Clean(cur, tid))
    && Tally(lib, cur, deleted)
    && (AllWellFormed(lib) ==> AllWellFormed(cur))
  }

  /** The loop body of `NODE_OT_DeleteAllUnusedNodes`: material `i` is
      cleaned and the totals updated; `ok` is false when its removal was
      interrupted. */
  method SweepMaterial(lib: Library, rank: map<TreeId, nat>, cur: Library, mats: seq<Material>, i: nat,
                       deleted: nat, processed: nat) returns (ok: bool, next: Library, deleted': nat, processed': nat)
    requires Ranked(lib, rank) && i < |mats| && SweepState(lib, rank, cur, mats[..i], deleted, processed)
    ensures next.Keys == lib.Keys && Ranked(next, rank) && OnlyRemoved(lib, next)
    ensures forall tid :: tid in lib && !TreeOfSome(mats[..i + 1], tid) ==> next[tid] == lib[tid]
    ensures AllWellFormed(lib) ==> AllWellFormed(next)
    ensures ok ==> SweepState(lib, rank, next, mats[..i + 1], deleted', processed')
    ensures MaterialDeleted(cur, rank, mats[i], ok, next)
    ensures ok ==> deleted' == deleted + KeyCount(cur, rank, mats[i])
  {
    var count;
    ok, next, count := DeleteMaterial(cur, rank, mats[i]);
    MaterialDoneIntro(cur, rank, mats[i], ok, next, count);
    deleted' := deleted + count;
    processed' := if Usable(cur, mats[i]) then processed + 1 else processed;
    SweepStep(lib, rank, cur, mats, i, deleted, processed, ok, next, count, deleted', processed');
  }

  /** What the sweep needs to know of one material's deletion. */
  ghost predicate MaterialDone(lib: Library, rank: map<TreeId, nat>, m: Material, ok: bool, next: Library, count: nat) {
    && next.Keys == lib.Keys && Ranked(next, rank) && OnlyRemoved(lib, next) && OthersKept(lib, next, m)
    && (!Usable(lib, m) ==> ok && next == lib && count == 0)
    && (Usable(lib, m) ==> Clean(next, m.tree.value))
    && (ok ==> Tally(lib, next, count) && (next == lib ==> count == 0))
    && (AllWellFormed(lib) ==> AllWellFormed(next))
  }

  lemma MaterialDoneIntro(lib: Library, rank: map<TreeId, nat>, m: Material, ok: bool, next: Library, count: nat)
    requires next.Keys == lib.Keys && Ranked(next, rank) && OnlyRemoved(lib, next) && OthersKept(lib, next, m)
    requires !Usable(lib, m) ==> ok && next == lib && count == 0
    requires Usable(lib, m) ==> Clean(next, m.tree.value)
    requires ok ==> (count == 0 <==> next == lib) && (count != 0 ==> SomeRemoved(lib, next))
    requires AllWellFormed(lib) ==> AllWellFormed(next)
    ensures MaterialDone(lib, rank, m, ok, next, count)
  {
  }

  /** A count of removed nodes is zero exactly when nothing changed. */
  ghost predicate Tally(lib: Library, cur: Library, count: nat) {
    (count == 0 ==> cur == lib) && (count != 0 ==> SomeRemoved(lib, cur))
  }

  lemma TallyStep(lib: Library, cur: Library, next: Library, deleted: nat, count: nat)
    requires OnlyRemoved(lib, cur) && OnlyRemoved(cur, next)
    requires Tally(lib, cur, deleted) && Tally(cur, next, count)
    ensures Tally(lib, next, deleted + count)
  {
    OnlyRemovedTrans(lib, cur, next);
    if count != 0 && deleted != 0 {
      var tid, id :| tid in lib && tid in cur && id in lib[tid].nodes && id !in cur[tid].nodes;
      assert id !in next[tid].nodes;
    }
  }

  /** One material's deletion takes the sweep from `mats[..i]` to
      `mats[..i + 1]`. */
  lemma SweepStep(lib: Library, rank: map<TreeId, nat>, cur: Library, mats: seq<Material>, i: nat,
                  deleted: nat, processed: nat, ok: bool, next: Library, count: nat, deleted': nat, processed': nat)
    requires Ranked(lib, rank) && i < |mats| && SweepState(lib, rank, cur, mats[..i], deleted, processed)
    requires MaterialDone(cur, rank, mats[i], ok, next, count)
    requires deleted' == deleted + count
    requires processed' == if Usable(cur, mats[i]) then processed + 1 else processed
    ensures next.Keys == lib.Keys && Ranked(next, rank) && OnlyRemoved(lib, next)
    ensures forall tid :: tid in lib && !TreeOfSome(mats[..i + 1], tid) ==> next[tid] == lib[tid]
    ensures AllWellFormed(lib) ==> AllWellFormed(next)
    ensures ok ==> SweepState(lib, rank, next, mats[..i + 1], deleted', processed')
  {
    CountUsableStep(lib, mats, i);
    OnlyRemovedTrans(lib, cur, next);
    CleanStep(cur, next, mats, i);
    KeptStep(lib, cur, next, mats, i);
    if ok {
      TallyStep(lib, cur, next, deleted, count);
      SweepStateIntro(lib, rank, next, mats[..i + 1], deleted', processed');
    }
  }

  lemma SweepStateIntro(lib: Library, rank: map<TreeId, nat>, cur: Library, done: seq<Material>,
                        deleted: nat, processed: nat)
    requires cur.Keys == lib.Keys && Ranked(cur, rank) && OnlyRemoved(lib, cur)
    requires processed == CountUsable(lib, done)
    requires forall tid :: tid in lib && !TreeOfSome(done, tid) ==> tid in cur && cur[tid] == lib[tid]
    requires forall tid :: TreeOfSome(done, tid) ==> Clean(cur, tid)
    requires Tally(lib, cur, deleted)
    requires AllWellFormed(lib) ==> AllWellFormed(cur)
    ensures SweepState(lib, rank, cur, done, deleted, processed)
  {
  }

  /** One step of the delete sweep: a material with nodes enabled and a
      tree has that tree's unused nodes removed, and `ok` is false exactly
      when the search reported a node of a nested tree; any other material
      changes nothing. */
  ghost predicate MaterialDeleted(lib: Library, rank: map<TreeId, nat>, m: Material, ok: bool, next: Library) {
    && Ranked(lib, rank)
    && (!Usable(lib, m) ==> ok && next == lib)
    && (Usable(lib, m) ==>
          && next == lib[m.tree.value := RemoveNodes(lib[m.tree.value], DeletedIds(lib, rank, m.tree.value))]
          && (!ok <==> HasForeign(RecursiveKeys(lib, rank, m.tree.value, true), m.tree.value)))
  }

  /** The step relation of the delete sweep. */
  ghost function DeleteStep(rank: map<TreeId, nat>): (Library, Material, bool, Library) -> bool {
    (lib, m, ok, next) => MaterialDeleted(lib, rank, m, ok, next)
  }

  /** What the sweep adds to its total for material `m`: the number of
      unused nodes the search reports for its tree. */
  ghost function KeyCount(lib: Library, rank: map<TreeId, nat>, m: Material): nat {
    if Ranked(lib, rank) && Usable(lib, m) then |RecursiveKeys(lib, rank, m.tree.value, true)| else 0
  }

  /** The total the sweep reports after the first `n` steps of `trace`. */
  ghost function TraceTotal(rank: map<TreeId, nat>, mats: seq<Material>, trace: seq<Library>, n: nat): nat
    requires n <= |mats| && n < |trace|
  {
    if n == 0 then 0 else TraceTotal(rank, mats, trace, n - 1) + KeyCount(trace[n - 1], rank, mats[n - 1])
  }

  /** The total of the first `n` steps does not look past them. */
  lemma {:induction false} TraceTotalAppend(rank: map<TreeId, nat>, mats: seq<Material>, trace: seq<Library>,
                                            next: Library, n: nat)
    requires n <= |mats| && n < |trace|
    ensures TraceTotal(rank, mats, trace + [next], n) == TraceTotal(rank, mats, trace, n)
  {
    if n > 0 {
      TraceTotalAppend(rank, mats, trace, next, n - 1);
      assert (trace + [next])[n - 1] == trace[n - 1];
    }
  }

  /** The record of a sweep after `n` steps that all completed: the steps
      are in `trace` and `oks`, the last library is `cur`, and `deleted` is
      the total so far. */
  ghost predicate Recorded(lib: Library, rank: map<TreeId, nat>, mats: seq<Material>, trace: seq<Library>,
                           oks: seq<bool>, n: nat, cur: Library, deleted: nat)
  {
    && n <= |mats| && |oks| == n && Steps(DeleteStep(rank), mats, trace, oks) && trace[0] == lib && trace[n] == cur
    && (forall j :: 0 <= j < n ==> oks[j])
    && deleted == TraceTotal(rank, mats, trace, n)
  }

  /** How a sweep over `mats` from `lib` ended, given its record: `trace`
      holds the library before each step and after the last, `oks` whether
      each step completed.  Each step is a `MaterialDeleted` one; the sweep
      halts exactly at a step that did not complete, which is then its last
      step and leaves its library as the result; a finished sweep took
      every material, and reports the sum of the unused nodes found at each
      step, which is zero exactly when nothing changed, and the number of
      materials with a tree, whose trees are all clean; trees and ranking
      are kept, nodes are only removed, and trees that no material names are
      unchanged. */
  ghost predicate SweepEnded(lib: Library, rank: map<TreeId, nat>, mats: seq<Material>, res: Sweep,
                             trace: seq<Library>, oks: seq<bool>)
  {
    && Steps(DeleteStep(rank), mats, trace, oks) && trace[0] == lib && res.lib == trace[|oks|]
    && (forall j :: 0 <= j < |oks| ==> (!oks[j] <==> res.Halted? && j == |oks| - 1))
    && (res.Halted? ==> |oks| > 0)
    && (res.Swept? ==> |oks| == |mats| && res.deleted == TraceTotal(rank, mats, trace, |mats|))
    && res.lib.Keys == lib.Keys && Ranked(res.lib, rank) && OnlyRemoved(lib, res.lib)
    && (forall tid :: tid in lib && !TreeOfSome(mats, tid) ==> res.lib[tid] == lib[tid])
    && (AllWellFormed(lib) ==> AllWellFormed(res.lib))
    && (res.Swept? ==> res.processed == CountUsable(lib, mats))
    && (res.Swept? ==> forall tid :: TreeOfSome(mats, tid) ==> Clean(res.lib, tid))
    && (res.Swept? ==> (res.deleted == 0 <==> res.lib == lib))
  }

  /** A completed step extends the record. */
  lemma RecordStep(lib: Library, rank: map<TreeId, nat>, mats: seq<Material>, trace: seq<Library>, oks: seq<bool>,
                   n: nat, cur: Library, deleted: nat, next: Library, deleted': nat)
    requires Recorded(lib, rank, mats, trace, oks, n, cur, deleted) && n < |mats|
    requires MaterialDeleted(cur, rank, mats[n], true, next) && deleted' == deleted + KeyCount(cur, rank, mats[n])
    ensures Recorded(lib, rank, mats, trace + [next], oks + [true], n + 1, next, deleted')
  {
    assert DeleteStep(rank)(trace[n], mats[n], true, next);
    StepsAppend(DeleteStep(rank), mats, trace, oks, true, next);
    TraceTotalAppend(rank, mats, trace, next, n);
    assert (trace + [next])[n + 1] == next && (trace + [next])[0] == lib && (trace + [next])[n] == cur;
    var oks' := oks + [true];
    forall j | 0 <= j < n + 1 ensures oks'[j] {
      if j < n {
        assert oks'[j] == oks[j];
      }
    }
  }

  /** A step that did not complete ends the sweep. */
  lemma HaltedEnds(lib: Library, rank: map<TreeId, nat>, mats: seq<Material>, trace: seq<Library>, oks: seq<bool>,
                   n: nat, cur: Library, deleted: nat, next: Library)
    requires Recorded(lib, rank, mats, trace, oks, n, cur, deleted) && n < |mats|
    requires MaterialDeleted(cur, rank, mats[n], false, next)
    requires next.Keys == lib.Keys && Ranked(next, rank) && OnlyRemoved(lib, next)
    requires forall tid :: tid in lib && !TreeOfSome(mats[..n + 1], tid) ==> next[tid] == lib[tid]
    requires AllWellFormed(lib) ==> AllWellFormed(next)
    ensures SweepEnded(lib, rank, mats, Halted(next), trace + [next], oks + [false])
  {
    assert DeleteStep(rank)(trace[n], mats[n], false, next);
    StepsAppend(DeleteStep(rank), mats, trace, oks, false, next);
    TreeOfSomePrefix(mats, n + 1);
    var oks' := oks + [false];
    forall j | 0 <= j < n + 1 ensures !oks'[j] <==> j == n {
      if j < n {
        assert oks'[j] == oks[j];
      }
    }
  }

  /** A sweep whose every step completed ends swept. */
  lemma SweptEnds(lib: Library, rank: map<TreeId, nat>, mats: seq<Material>, trace: seq<Library>, oks: seq<bool>,
                  cur: Library, deleted: nat, processed: nat)
    requires Recorded(lib, rank, mats, trace, oks, |mats|, cur, deleted)
    requires SweepState(lib, rank, cur, mats[..|mats|], deleted, processed)
    ensures SweepEnded(lib, rank, mats, Swept(cur, deleted, processed), trace, oks)
  {
    assert mats[..|mats|] == mats;
  }

  /** One turn of the sweep's loop, after `n` steps that all completed. */
  method SweepTurn(lib: Library, rank: map<TreeId, nat>, mats: seq<Material>, trace: seq<Library>, oks: seq<bool>,
                   n: nat, cur: Library, deleted: nat, processed: nat)
    returns (ok: bool, next: Library, deleted': nat, processed': nat)
    requires Ranked(lib, rank) && n < |mats| && SweepState(lib, rank, cur, mats[..n], deleted, processed)
    requires Recorded(lib, rank, mats, trace, oks, n, cur, deleted)
    ensures ok ==> SweepState(lib, rank, next, mats[..n + 1], deleted', processed')
    ensures ok ==> Recorded(lib, rank, mats, trace + [next], oks + [ok], n + 1, next, deleted')
    ensures !ok ==> SweepEnded(lib, rank, mats, Halted(next), trace + [next], oks + [ok])
  {
    ok, next, deleted', processed' := SweepMaterial(lib, rank, cur, mats, n, deleted, processed);
    if ok {
      RecordStep(lib, rank, mats, trace, oks, n, cur, deleted, next, deleted');
    } else {
      HaltedEnds(lib, rank, mats, trace, oks, n, cur, deleted, next);
    }
  }

  /** `NODE_OT_DeleteAllUnusedNodes`: every material with nodes enabled and
      a tree loses its unused nodes; the totals count the nodes removed and
      the materials visited; a removal that meets a node of a nested tree
      halts the sweep. */
  method DeleteAllUnusedNodes(lib: Library, rank: map<TreeId, nat>, mats: seq<Material>)
    returns (res: Sweep, trace: seq<Library>, oks: seq<bool>)
    requires Ranked(lib, rank)
    ensures SweepEnded(lib, rank, mats, res, trace, oks)
  {
    var cur := lib;
    var deleted := 0;
    var processed := 0;
    trace := [lib];
    oks := [];
    for i := 0 to |mats|
      invariant SweepState(lib, rank, cur, mats[..i], deleted, processed)
      invariant Recorded(lib, rank, mats, trace, oks, i, cur, deleted)
    {
      var ok, next, deleted', processed' := SweepTurn(lib, rank, mats, trace, oks, i, cur, deleted, processed);
      if !ok {
        return Halted(next), trace + [next], oks + [ok];
      }
      trace, oks := trace + [next], oks + [ok];
      cur, deleted, processed := next, deleted', processed';
    }
    SweptEnds(lib, rank, mats, trace, oks, cur, deleted, processed);
    return Swept(cur, deleted, processed), trace, oks;
  }
}
