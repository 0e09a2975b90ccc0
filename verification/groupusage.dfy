/**
 * Group usage: for every unused group node of the result map, the materials
 * whose node tree instantiates the same payload tree, and those among them
 * whose first such instance has a linked output socket.
 */
module GroupUsage {
  import opened Graph
  import opened Unused

  /** A material: its name, the host's `use_nodes` flag and its node tree. */
  datatype Material = Material(name: string, useNodes: bool, tree: Option<TreeId>)

  /** Materials without a node tree (or whose tree is not in the library)
      are skipped. */
  predicate Usable(lib: Library, m: Material) {
    m.useNodes && m.tree.Some? && m.tree.value in lib
  }

  /** Whether some output socket `i` with `lo <= i < hi` of node `id` is linked. */
  function AnyOutputLinked(t: Tree, id: NodeId, lo: nat, hi: nat): (b: bool)
    requires lo <= hi
    ensures b <==> exists i :: lo <= i < hi && OutputLinked(t, id, i)
    decreases hi - lo
  {
    if lo == hi then false
    else OutputLinked(t, id, lo) || AnyOutputLinked(t, id, lo + 1, hi)
  }

  /** The host's check that an instance of a group is wired onwards: it has
      output sockets and at least one of them is linked. */
  function GroupConnected(t: Tree, id: NodeId): (b: bool)
    requires id in t.nodes
    ensures b <==> exists i :: 0 <= i < |t.nodes[id].outputs| && OutputLinked(t, id, i)
  {
    |t.nodes[id].outputs| > 0 && AnyOutputLinked(t, id, 0, |t.nodes[id].outputs|)
  }

  /** Node `id` of `t` is a group node instantiating tree `p`. */
  predicate IsInstance(t: Tree, id: NodeId, p: TreeId) {
    id in t.nodes && IsGroup(t.nodes[id]) && t.nodes[id].payload == Some(p)
  }

  /** The payload of the node behind a result key, when it is a group node
      with a payload: the only records the usage pass touches. */
  function GroupPayload(lib: Library, k: NodeRef): (r: Option<TreeId>)
    ensures r.Some? <==> NodeAt(lib, k).Some? && IsGroup(NodeAt(lib, k).value) && NodeAt(lib, k).value.payload.Some?
    ensures r.Some? ==> NodeAt(lib, k).value.payload == r
  {
    match NodeAt(lib, k)
    case Some(n) => if IsGroup(n) && n.payload.Some? then Some(n.payload.value) else None
    case None => None
  }

  /** Record `rec` after material `mname` has been found to instantiate its
      group; `connected` is the verdict on that instance. */
  function AddMaterial(rec: Record, mname: string, connected: bool): Record {
    rec.(materials := rec.materials + [mname],
         connectedToOutput := if mname !in rec.connectedToOutput && connected
                              then rec.connectedToOutput + [mname] else rec.connectedToOutput)
  }

  /** One group node of the material's tree instantiating `p`: every record
      whose own group has payload `p` and does not yet list the material
      gets it, with the verdict on this instance. */
  function VisitInstance(lib: Library, r: map<NodeRef, Record>, mname: string, p: TreeId, connected: bool): (r': map<NodeRef, Record>)
    ensures r'.Keys == r.Keys
  {
    map k | k in r :: if GroupPayload(lib, k) == Some(p) && mname !in r[k].materials
                      then AddMaterial(r[k], mname, connected) else r[k]
  }

  /** The scan over the nodes `order` of tree `t` of material `mname`. */
  function ScanTree(lib: Library, r: map<NodeRef, Record>, mname: string, t: Tree, order: seq<NodeId>): (r': map<NodeRef, Record>)
    ensures r'.Keys == r.Keys
  {
    if order == [] then r
    else
      var id := order[0];
      var r1 := if id in t.nodes && IsGroup(t.nodes[id]) && t.nodes[id].payload.Some?
                then VisitInstance(lib, r, mname, t.nodes[id].payload.value, GroupConnected(t, id))
                else r;
      ScanTree(lib, r1, mname, t, order[1..])
  }

  /** The host's `collect_group_usage`: materials in sequence, each
      material's tree nodes in collection order. */
  function CollectGroupUsage(lib: Library, r: map<NodeRef, Record>, mats: seq<Material>): (r': map<NodeRef, Record>)
    ensures r'.Keys == r.Keys
  {
    if mats == [] then r
    else
      var m := mats[0];
      var r1 := if Usable(lib, m) then ScanTree(lib, r, m.name, lib[m.tree.value], lib[m.tree.value].order) else r;
      CollectGroupUsage(lib, r1, mats[1..])
  }

  // ---------------------------------------------------------------------------
  // A reference definition, record by record
  // ---------------------------------------------------------------------------

  /** The first node of `order` instantiating `p`, if any. */
  function FirstInstance(t: Tree, order: seq<NodeId>, p: TreeId): (r: Option<NodeId>)
    ensures r.Some? ==> exists i :: 0 <= i < |order| && order[i] == r.value && IsInstance(t, r.value, p)
                                  && forall j :: 0 <= j < i ==> !IsInstance(t, order[j], p)
    ensures r.None? <==> forall i :: 0 <= i < |order| ==> !IsInstance(t, order[i], p)
  {
    if order == [] then None
    else if IsInstance(t, order[0], p) then Some(order[0])
    else FirstInstance(t, order[1..], p)
  }

  /** What one material does to one record whose group has payload `gp`:
      nothing unless the material is new to the record and its tree holds an
      instance of the payload; then the material is appended, and also to
      the connected list when the FIRST instance in collection order is
      wired onwards. */
  function MaterialEffect(lib: Library, rec: Record, gp: Option<TreeId>, mname: string, t: Tree, order: seq<NodeId>): Record {
    if gp.None? || mname in rec.materials then rec
    else match FirstInstance(t, order, gp.value)
      case None => rec
      case Some(id) => AddMaterial(rec, mname, GroupConnected(t, id))
  }

  /** The effect of all materials `mats` on one record. */
  function RecordUsage(lib: Library, rec: Record, gp: Option<TreeId>, mats: seq<Material>): Record
    decreases |mats|
  {
    if mats == [] then rec
    else
      var m := mats[0];
      var rec1 := if Usable(lib, m) then MaterialEffect(lib, rec, gp, m.name, lib[m.tree.value], lib[m.tree.value].order) else rec;
      RecordUsage(lib, rec1, gp, mats[1..])
  }

  /** The scan of one material's nodes acts on each record as `MaterialEffect`
      over the remaining nodes. */
  lemma {:induction false} ScanTreeRecord(lib: Library, r: map<NodeRef, Record>, mname: string, t: Tree,
                                          order: seq<NodeId>, k: NodeRef)
    requires k in r
    ensures ScanTree(lib, r, mname, t, order)[k] == MaterialEffect(lib, r[k], GroupPayload(lib, k), mname, t, order)
  {
    var gp := GroupPayload(lib, k);
    if order != [] {
      var id := order[0];
      var r1 := if id in t.nodes && IsGroup(t.nodes[id]) && t.nodes[id].payload.Some?
                then VisitInstance(lib, r, mname, t.nodes[id].payload.value, GroupConnected(t, id))
                else r;
      ScanTreeRecord(lib, r1, mname, t, order[1..], k);
      if gp.Some? && mname !in r[k].materials && IsInstance(t, id, gp.value) {
        assert r1[k] == AddMaterial(r[k], mname, GroupConnected(t, id));
        assert FirstInstance(t, order, gp.value) == Some(id);
      } else {
        assert r1[k] == r[k];
        if gp.Some? && mname !in r[k].materials {
          assert FirstInstance(t, order, gp.value) == FirstInstance(t, order[1..], gp.value);
        }
      }
    }
  }

  /** `CollectGroupUsage` acts on each record as `RecordUsage`. */
  lemma {:induction false} CollectGroupUsageRecord(lib: Library, r: map<NodeRef, Record>, mats: seq<Material>, k: NodeRef)
    requires k in r
    ensures CollectGroupUsage(lib, r, mats)[k] == RecordUsage(lib, r[k], GroupPayload(lib, k), mats)
  {
    if mats != [] {
      var m := mats[0];
      var r1 := if Usable(lib, m) then ScanTree(lib, r, m.name, lib[m.tree.value], lib[m.tree.value].order) else r;
      if Usable(lib, m) {
        var t := lib[m.tree.value];
        ScanTreeRecord(lib, r, m.name, t, t.order, k);
      }
      CollectGroupUsageRecord(lib, r1, mats[1..], k);
    }
  }

  // ---------------------------------------------------------------------------
  // Properties of the usage pass
  // ---------------------------------------------------------------------------

  /** A record's lists are duplicate-free and every connected material is
      also listed among the materials. */
  predicate WellListed(rec: Record) {
    NoDup(rec.materials) && NoDup(rec.connectedToOutput)
    && forall i :: 0 <= i < |rec.connectedToOutput| ==> rec.connectedToOutput[i] in rec.materials
  }

  lemma AddMaterialWellListed(rec: Record, mname: string, connected: bool)
    requires WellListed(rec) && mname !in rec.materials
    ensures WellListed(AddMaterial(rec, mname, connected))
  {
    var r' := AddMaterial(rec, mname, connected);
    assert forall i :: 0 <= i < |rec.materials| ==> r'.materials[i] == rec.materials[i];
  }

  /** The usage pass keeps the type and path of every record, leaves records
      of non-group nodes alone, and keeps the lists well formed. */
  lemma {:induction false} RecordUsageKeeps(lib: Library, rec: Record, gp: Option<TreeId>, mats: seq<Material>)
    ensures RecordUsage(lib, rec, gp, mats).typeTag == rec.typeTag
    ensures RecordUsage(lib, rec, gp, mats).parentTree == rec.parentTree
    ensures gp.None? ==> RecordUsage(lib, rec, gp, mats) == rec
    ensures WellListed(rec) ==> WellListed(RecordUsage(lib, rec, gp, mats))
    decreases |mats|
  {
    if mats != [] {
      var m := mats[0];
      var rec1 := if Usable(lib, m) then MaterialEffect(lib, rec, gp, m.name, lib[m.tree.value], lib[m.tree.value].order) else rec;
      if WellListed(rec) && Usable(lib, m) && gp.Some? && m.name !in rec.materials {
        var t := lib[m.tree.value];
        if FirstInstance(t, t.order, gp.value).Some? {
          AddMaterialWellListed(rec, m.name, GroupConnected(t, FirstInstance(t, t.order, gp.value).value));
        }
      }
      RecordUsageKeeps(lib, rec1, gp, mats[1..]);
    }
  }

  /** Material `m` has a tree holding an instance of `p`. */
  predicate Instantiates(lib: Library, m: Material, p: TreeId) {
    Usable(lib, m) && FirstInstance(lib[m.tree.value], lib[m.tree.value].order, p).Some?
  }

  /** After the pass, a record lists a material name exactly when it listed
      it before or some material of that name instantiates its payload. */
  lemma {:induction false} RecordUsageMaterials(lib: Library, rec: Record, p: TreeId, mats: seq<Material>, x: string)
    ensures x in RecordUsage(lib, rec, Some(p), mats).materials <==>
      x in rec.materials || exists j :: 0 <= j < |mats| && mats[j].name == x && Instantiates(lib, mats[j], p)
    decreases |mats|
  {
    if mats != [] {
      var m := mats[0];
      var rec1 := if Usable(lib, m) then MaterialEffect(lib, rec, Some(p), m.name, lib[m.tree.value], lib[m.tree.value].order) else rec;
      RecordUsageMaterials(lib, rec1, p, mats[1..], x);
      assert x in rec1.materials <==> x in rec.materials || (m.name == x && Instantiates(lib, m, p));
      if exists j :: 0 <= j < |mats| && mats[j].name == x && Instantiates(lib, mats[j], p) {
        var j :| 0 <= j < |mats| && mats[j].name == x && Instantiates(lib, mats[j], p);
        if j > 0 {
          assert mats[1..][j - 1] == mats[j];
        }
      }
      if exists j :: 0 <= j < |mats[1..]| && mats[1..][j].name == x && Instantiates(lib, mats[1..][j], p) {
        var j :| 0 <= j < |mats[1..]| && mats[1..][j].name == x && Instantiates(lib, mats[1..][j], p);
        assert mats[j + 1] == mats[1..][j];
      }
    }
  }

  /** The material of `mats` that decides connectivity for name `x` and
      payload `p`: the first one of that name instantiating `p`. */
  predicate DecidesFor(lib: Library, mats: seq<Material>, j: int, x: string, p: TreeId)
    requires 0 <= j < |mats|
  {
    && mats[j].name == x && Instantiates(lib, mats[j], p)
    && forall i :: 0 <= i < j ==> !(mats[i].name == x && Instantiates(lib, mats[i], p))
  }

  /** The verdict of the first instance of `p` in the tree of material `m`. */
  predicate FirstInstanceConnected(lib: Library, m: Material, p: TreeId)
    requires Instantiates(lib, m, p)
  {
    var t := lib[m.tree.value];
    GroupConnected(t, FirstInstance(t, t.order, p).value)
  }

  /** For a material name the record does not list yet, the record ends up
      listing it as connected exactly when the first material of that name
      instantiating the payload has its first instance wired onwards. */
  lemma {:induction false} RecordUsageConnected(lib: Library, rec: Record, p: TreeId, mats: seq<Material>, x: string)
    requires WellListed(rec) && x !in rec.materials
    ensures x in RecordUsage(lib, rec, Some(p), mats).connectedToOutput <==>
      exists j :: 0 <= j < |mats| && DecidesFor(lib, mats, j, x, p) && FirstInstanceConnected(lib, mats[j], p)
    decreases |mats|
  {
    if mats != [] {
      var m := mats[0];
      var rec1 := if Usable(lib, m) then MaterialEffect(lib, rec, Some(p), m.name, lib[m.tree.value], lib[m.tree.value].order) else rec;
      var tail := mats[1..];
      assert x !in rec.connectedToOutput;
      if m.name == x && Instantiates(lib, m, p) {
        // The first material settles it; later ones find the name listed.
        assert DecidesFor(lib, mats, 0, x, p);
        RecordUsageLater(lib, rec1, p, tail, x);
        assert x in rec1.connectedToOutput <==> FirstInstanceConnected(lib, m, p);
        forall j | 0 < j < |mats| ensures !DecidesFor(lib, mats, j, x, p) {
          assert mats[0].name == x && Instantiates(lib, mats[0], p);
        }
      } else {
        assert x !in rec1.materials && x !in rec1.connectedToOutput;
        if Usable(lib, m) && m.name !in rec.materials && FirstInstance(lib[m.tree.value], lib[m.tree.value].order, p).Some? {
          var t := lib[m.tree.value];
          AddMaterialWellListed(rec, m.name, GroupConnected(t, FirstInstance(t, t.order, p).value));
        }
        assert WellListed(rec1);
        RecordUsageConnected(lib, rec1, p, tail, x);
        forall j | 0 < j < |mats|
          ensures DecidesFor(lib, mats, j, x, p) <==> DecidesFor(lib, tail, j - 1, x, p)
        {
          assert tail[j - 1] == mats[j];
          forall i | 0 <= i < j - 1 ensures tail[i] == mats[i + 1] { }
          if DecidesFor(lib, tail, j - 1, x, p) {
            forall i | 0 <= i < j ensures !(mats[i].name == x && Instantiates(lib, mats[i], p)) {
              if i > 0 {
                assert mats[i] == tail[i - 1];
              }
            }
          }
        }
        assert !DecidesFor(lib, mats, 0, x, p);
        if exists j :: 0 <= j < |tail| && DecidesFor(lib, tail, j, x, p) && FirstInstanceConnected(lib, tail[j], p) {
          var j :| 0 <= j < |tail| && DecidesFor(lib, tail, j, x, p) && FirstInstanceConnected(lib, tail[j], p);
          assert DecidesFor(lib, mats, j + 1, x, p) && mats[j + 1] == tail[j];
        }
      }
    }
  }

  /** Once a record lists a material name, later materials leave its
      membership in the connected list alone. */
  lemma {:induction false} RecordUsageLater(lib: Library, rec: Record, p: TreeId, mats: seq<Material>, x: string)
    requires x in rec.materials
    ensures x in RecordUsage(lib, rec, Some(p), mats).materials
    ensures x in RecordUsage(lib, rec, Some(p), mats).connectedToOutput <==> x in rec.connectedToOutput
    decreases |mats|
  {
    if mats != [] {
      var m := mats[0];
      var rec1 := if Usable(lib, m) then MaterialEffect(lib, rec, Some(p), m.name, lib[m.tree.value], lib[m.tree.value].order) else rec;
      assert x in rec1.materials;
      assert x in rec1.connectedToOutput <==> x in rec.connectedToOutput;
      RecordUsageLater(lib, rec1, p, mats[1..], x);
    }
  }

  /** The usage pass on a whole result map: keys kept, types and paths kept,
      records of non-group nodes untouched, lists kept well formed, and for a
      freshly found group record (empty lists) the materials are exactly the
      names of materials instantiating its payload. */
  lemma CollectGroupUsageSpec(lib: Library, r: map<NodeRef, Record>, mats: seq<Material>, k: NodeRef, x: string)
    requires k in r
    ensures k in CollectGroupUsage(lib, r, mats)
    ensures CollectGroupUsage(lib, r, mats)[k].typeTag == r[k].typeTag
    ensures CollectGroupUsage(lib, r, mats)[k].parentTree == r[k].parentTree
    ensures GroupPayload(lib, k).None? ==> CollectGroupUsage(lib, r, mats)[k] == r[k]
    ensures WellListed(r[k]) ==> WellListed(CollectGroupUsage(lib, r, mats)[k])
    ensures GroupPayload(lib, k).Some? && r[k].materials == [] ==>
      (x in CollectGroupUsage(lib, r, mats)[k].materials <==>
       exists j :: 0 <= j < |mats| && mats[j].name == x && Instantiates(lib, mats[j], GroupPayload(lib, k).value))
    ensures GroupPayload(lib, k).Some? && r[k].materials == [] && r[k].connectedToOutput == [] ==>
      (x in CollectGroupUsage(lib, r, mats)[k].connectedToOutput <==>
       exists j :: 0 <= j < |mats| && DecidesFor(lib, mats, j, x, GroupPayload(lib, k).value)
                   && FirstInstanceConnected(lib, mats[j], GroupPayload(lib, k).value))
  {
    var gp := GroupPayload(lib, k);
    CollectGroupUsageRecord(lib, r, mats, k);
    RecordUsageKeeps(lib, r[k], gp, mats);
    if gp.Some? {
      RecordUsageMaterials(lib, r[k], gp.value, mats, x);
      if r[k].materials == [] && r[k].connectedToOutput == [] {
        RecordUsageConnected(lib, r[k], gp.value, mats, x);
      }
    }
  }

  /** The number of materials with nodes enabled and a node tree. */
  function CountUsable(lib: Library, mats: seq<Material>): (n: nat)
    ensures n <= |mats|
  {
    if mats == [] then 0
    else CountUsable(lib, mats[..|mats| - 1]) + (if Usable(lib, mats[|mats| - 1]) then 1 else 0)
  }

  /** Whether some material of `mats` that has nodes enabled has tree `tid`. */
  predicate TreeOfSome(mats: seq<Material>, tid: TreeId) {
    exists i :: 0 <= i < |mats| && mats[i].useNodes && mats[i].tree == Some(tid)
  }

  /** The counting is by position: one more material counts its own usability. */
  lemma CountUsableStep(lib: Library, mats: seq<Material>, i: nat)
    requires i < |mats|
    ensures CountUsable(lib, mats[..i + 1]) == CountUsable(lib, mats[..i]) + (if Usable(lib, mats[i]) then 1 else 0)
  {
    assert mats[..i + 1][..i] == mats[..i];
  }

  /** `trace` and `outs` record a run over a prefix of `mats`: material
      `mats[j]` took the library from `trace[j]` to `trace[j + 1]` with
      outcome `outs[j]`, as `step` relates them. */
  ghost predicate Steps<O>(step: (Library, Material, O, Library) -> bool, mats: seq<Material>,
                           trace: seq<Library>, outs: seq<O>)
  {
    && |outs| <= |mats| && |trace| == |outs| + 1
    && forall j :: 0 <= j < |outs| ==> step(trace[j], mats[j], outs[j], trace[j + 1])
  }

  /** One more step extends the record. */
  lemma StepsAppend<O>(step: (Library, Material, O, Library) -> bool, mats: seq<Material>,
                       trace: seq<Library>, outs: seq<O>, o: O, next: Library)
    requires Steps(step, mats, trace, outs) && |outs| < |mats|
    requires step(trace[|outs|], mats[|outs|], o, next)
    ensures Steps(step, mats, trace + [next], outs + [o])
  {
    var trace', outs' := trace + [next], outs + [o];
    forall j | 0 <= j < |outs'| ensures step(trace'[j], mats[j], outs'[j], trace'[j + 1]) {
      if j < |outs| {
        assert trace'[j] == trace[j] && trace'[j + 1] == trace[j + 1] && outs'[j] == outs[j];
      }
    }
  }

  /** A tree of a material of a prefix is a tree of a material of the whole. */
  lemma TreeOfSomePrefix(mats: seq<Material>, n: nat)
    requires n <= |mats|
    ensures forall tid: TreeId :: TreeOfSome(mats[..n], tid) ==> TreeOfSome(mats, tid)
  {
    forall tid: TreeId | TreeOfSome(mats[..n], tid) ensures TreeOfSome(mats, tid) {
      var j :| 0 <= j < n && mats[..n][j].useNodes && mats[..n][j].tree == Some(tid);
      assert mats[j] == mats[..n][j];
    }
  }

  lemma TreeOfSomeStep(mats: seq<Material>, i: nat, tid: TreeId)
    requires i < |mats|
    ensures TreeOfSome(mats[..i + 1], tid) <==> TreeOfSome(mats[..i], tid) || (mats[i].useNodes && mats[i].tree == Some(tid))
  {
    if TreeOfSome(mats[..i], tid) {
      var j :| 0 <= j < i && mats[..i][j].useNodes && mats[..i][j].tree == Some(tid);
      assert mats[..i + 1][j] == mats[..i][j];
    }
    if mats[i].useNodes && mats[i].tree == Some(tid) {
      assert mats[..i + 1][i] == mats[i];
    }
    if TreeOfSome(mats[..i + 1], tid) {
      var j :| 0 <= j < i + 1 && mats[..i + 1][j].useNodes && mats[..i + 1][j].tree == Some(tid);
      if j < i {
        assert mats[..i][j] == mats[..i + 1][j];
      }
    }
  }
}
