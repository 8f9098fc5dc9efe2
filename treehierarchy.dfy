/**
 * The tree viewer's hierarchy: `dataMap` built from the flat records (one
 * display parent per person, the other parent's linked children, the
 * roots), the children shown under a node, and the walk up through
 * `parents`/`parent` behind lineage highlighting and ancestor expansion.
 * Node references are modelled by ids: `dataMap` maps an id to its node,
 * and a node's `children`, `linkedChildren`, `parent` and `parents` hold ids.
 */
module TreeHierarchy {
  import opened Text
  import opened Genealogy
  import opened TreeCsv
  import Reach

  /** A node of `dataMap`: the record plus the links the hierarchy adds; `parent` is `""` for `null`. */
  datatype TreeNode = TreeNode(
    row: Row, children: seq<Id>, linkedChildren: seq<Id>, collapsed: bool, parent: Id, parents: seq<Id>)

  type NodeMap = map<Id, TreeNode>

  /** The node the first pass makes of a record: no links, collapsed. */
  function FreshNode(r: Row): TreeNode {
    TreeNode(r, [], [], true, "", [])
  }

  /** Every node is filed under its own record's id. */
  predicate Keyed(dm: NodeMap) {
    forall x :: x in dm ==> dm[x].row.id == x
  }

  /** Some record of `rows` has the id `x`. */
  predicate HasId(rows: seq<Row>, x: Id) {
    exists i :: 0 <= i < |rows| && rows[i].id == x
  }

  /** No two records share an id. */
  predicate DistinctIds(rows: seq<Row>) {
    forall i, j :: 0 <= i < j < |rows| ==> rows[i].id != rows[j].id
  }

  // ---------------------------------------------------------------------
  // First pass: a fresh node per record

  /** `dataMap` after the first pass; a later record of the same id replaces the earlier node. */
  function InitialMap(rows: seq<Row>): (dm: NodeMap)
    ensures forall x :: x in dm <==> HasId(rows, x)
  {
    if rows == [] then map[]
    else
      var init := rows[..|rows| - 1];
      assert forall i :: 0 <= i < |init| ==> init[i] == rows[i];
      InitialMap(init)[rows[|rows| - 1].id := FreshNode(rows[|rows| - 1])]
  }

  /** Every node of the first pass is fresh and filed under its id; with distinct ids, each record is its own node. */
  lemma {:induction false} InitialMapFresh(rows: seq<Row>)
    ensures Keyed(InitialMap(rows))
    ensures forall x :: x in InitialMap(rows) ==> InitialMap(rows)[x] == FreshNode(InitialMap(rows)[x].row)
    ensures DistinctIds(rows) ==> forall i :: 0 <= i < |rows| ==> InitialMap(rows)[rows[i].id].row == rows[i]
  {
    if rows != [] {
      var init := rows[..|rows| - 1];
      InitialMapFresh(init);
      assert forall i :: 0 <= i < |init| ==> init[i] == rows[i];
    }
  }

  // ---------------------------------------------------------------------
  // Second pass: parents, the display parent, the roots

  /** `[...new Set([fid, mid].filter(pid => pid && dataMap[pid]))]`. */
  function ParentIds(r: Row, keys: set<Id>): (ps: seq<Id>)
    ensures Distinct(ps) && |ps| <= 2
    ensures forall x :: x in ps <==> x != "" && x in keys && (x == r.fid || x == r.mid)
    ensures ps != [] ==> ps[0] == if r.fid != "" && r.fid in keys then r.fid else r.mid
  {
    Dedup(Filter([r.fid, r.mid], (pid: Id) => pid != "" && pid in keys))
  }

  /** The display parent: the first of `fid`, `mid` that names a node; `""` when neither does. */
  function DisplayParent(r: Row, keys: set<Id>): Id {
    var ps := ParentIds(r, keys);
    if ps == [] then "" else ps[0]
  }

  datatype Build = Build(dm: NodeMap, roots: seq<Id>)

  /** One record of the second pass: set its parents, hang it under its display parent, or make it a root. */
  function Attach(b: Build, r: Row): (b': Build)
    requires r.id in b.dm
    ensures b'.dm.Keys == b.dm.Keys
  {
    var ps := ParentIds(r, b.dm.Keys);
    if ps == [] then Build(b.dm, b.roots + [r.id])
    else
      var dm1 := b.dm[r.id := b.dm[r.id].(parents := ps)];
      var d := ps[0];
      var dm2 := dm1[d := dm1[d].(children := dm1[d].children + [r.id])];
      Build(dm2[r.id := dm2[r.id].(parent := d)], b.roots)
  }

  function AttachAll(b: Build, rows: seq<Row>): (b': Build)
    requires forall i :: 0 <= i < |rows| ==> rows[i].id in b.dm
    ensures b'.dm.Keys == b.dm.Keys
  {
    if rows == [] then b else Attach(AttachAll(b, rows[..|rows| - 1]), rows[|rows| - 1])
  }

  /** The records without a parent node, in order: the roots. */
  function RootIds(rows: seq<Row>, keys: set<Id>): seq<Id> {
    ConcatMap(RootOf(keys), rows)
  }

  function RootOf(keys: set<Id>): Row -> seq<Id> {
    (r: Row) => if ParentIds(r, keys) == [] then [r.id] else []
  }

  /** The records whose display parent is `p`, in order: the children of `p`. */
  function ChildIds(rows: seq<Row>, keys: set<Id>, p: Id): seq<Id> {
    ConcatMap(ChildOf(keys, p), rows)
  }

  function ChildOf(keys: set<Id>, p: Id): Row -> seq<Id> {
    (r: Row) => if ParentIds(r, keys) != [] && ParentIds(r, keys)[0] == p then [r.id] else []
  }

  /** One record of the second pass becomes a root exactly when it has no parent node. */
  lemma AttachRoots(b: Build, r: Row)
    requires r.id in b.dm
    ensures Attach(b, r).roots == b.roots + (if ParentIds(r, b.dm.Keys) == [] then [r.id] else [])
  {
  }

  /** One record of the second pass is appended to its display parent's children and changes no record, flag or linked list. */
  lemma AttachFields(b: Build, r: Row)
    requires r.id in b.dm
    ensures var ps := ParentIds(r, b.dm.Keys); var b' := Attach(b, r);
      forall x :: x in b.dm ==>
        && b'.dm[x].row == b.dm[x].row
        && b'.dm[x].collapsed == b.dm[x].collapsed
        && b'.dm[x].linkedChildren == b.dm[x].linkedChildren
        && b'.dm[x].children == b.dm[x].children + (if ps != [] && x == ps[0] then [r.id] else [])
  {
  }

  /** One record of the second pass sets its own parents and display parent, when it has parent nodes, and no one else's. */
  lemma AttachParents(b: Build, r: Row)
    requires r.id in b.dm
    ensures var ps := ParentIds(r, b.dm.Keys); var b' := Attach(b, r);
      && (forall x :: x in b.dm && x != r.id ==> b'.dm[x].parents == b.dm[x].parents && b'.dm[x].parent == b.dm[x].parent)
      && (ps != [] ==> b'.dm[r.id].parents == ps && b'.dm[r.id].parent == ps[0])
      && (ps == [] ==> b'.dm[r.id] == b.dm[r.id])
  {
  }

  /** The roots are exactly the records without a parent node, in record order. */
  lemma {:induction false} AttachAllRoots(b: Build, rows: seq<Row>)
    requires forall i :: 0 <= i < |rows| ==> rows[i].id in b.dm
    ensures AttachAll(b, rows).roots == b.roots + RootIds(rows, b.dm.Keys)
  {
    if rows != [] {
      var init := rows[..|rows| - 1];
      AttachAllRoots(b, init);
      AttachRoots(AttachAll(b, init), rows[|rows| - 1]);
      ConcatAssoc(b.roots, RootIds(init, b.dm.Keys), if ParentIds(rows[|rows| - 1], b.dm.Keys) == [] then [rows[|rows| - 1].id] else []);
    }
  }

  /** The children of a node are exactly the records it is the display parent of, in record order. */
  lemma {:induction false} AttachAllChildren(b: Build, rows: seq<Row>, p: Id)
    requires forall i :: 0 <= i < |rows| ==> rows[i].id in b.dm
    requires p in b.dm
    ensures AttachAll(b, rows).dm[p].children == b.dm[p].children + ChildIds(rows, b.dm.Keys, p)
  {
    if rows != [] {
      var init := rows[..|rows| - 1];
      var r := rows[|rows| - 1];
      AttachAllChildren(b, init, p);
      AttachFields(AttachAll(b, init), r);
      var ps := ParentIds(r, b.dm.Keys);
      ConcatAssoc(b.dm[p].children, ChildIds(init, b.dm.Keys, p), if ps != [] && ps[0] == p then [r.id] else []);
    }
  }

  /** The second pass keeps every record, flag and linked list. */
  lemma {:induction false} AttachAllKeeps(b: Build, rows: seq<Row>)
    requires forall i :: 0 <= i < |rows| ==> rows[i].id in b.dm
    ensures forall x :: x in b.dm ==>
      && AttachAll(b, rows).dm[x].row == b.dm[x].row
      && AttachAll(b, rows).dm[x].collapsed == b.dm[x].collapsed
      && AttachAll(b, rows).dm[x].linkedChildren == b.dm[x].linkedChildren
  {
    if rows != [] {
      var init := rows[..|rows| - 1];
      AttachAllKeeps(b, init);
      AttachFields(AttachAll(b, init), rows[|rows| - 1]);
    }
  }

  /** A node no record names keeps its parents and display parent. */
  lemma {:induction false} AttachAllUnnamed(b: Build, rows: seq<Row>, x: Id)
    requires forall i :: 0 <= i < |rows| ==> rows[i].id in b.dm
    requires x in b.dm && !HasId(rows, x)
    ensures AttachAll(b, rows).dm[x].parents == b.dm[x].parents && AttachAll(b, rows).dm[x].parent == b.dm[x].parent
  {
    if rows != [] {
      var init := rows[..|rows| - 1];
      assert forall i :: 0 <= i < |init| ==> init[i] == rows[i];
      AttachAllUnnamed(b, init, x);
      AttachParents(AttachAll(b, init), rows[|rows| - 1]);
    }
  }

  /** With distinct ids every record's node ends with its parent nodes and its display parent. */
  lemma {:induction false} AttachAllParents(b: Build, rows: seq<Row>, i: nat)
    requires DistinctIds(rows) && i < |rows|
    requires forall j :: 0 <= j < |rows| ==> rows[j].id in b.dm
    requires b.dm[rows[i].id].parents == [] && b.dm[rows[i].id].parent == ""
    ensures AttachAll(b, rows).dm[rows[i].id].parents == ParentIds(rows[i], b.dm.Keys)
    ensures AttachAll(b, rows).dm[rows[i].id].parent == DisplayParent(rows[i], b.dm.Keys)
  {
    var init := rows[..|rows| - 1];
    var r := rows[|rows| - 1];
    assert forall j :: 0 <= j < |init| ==> init[j] == rows[j];
    if i == |rows| - 1 {
      assert !HasId(init, r.id);
      AttachAllUnnamed(b, init, r.id);
    } else {
      AttachAllParents(b, init, i);
    }
    AttachParents(AttachAll(b, init), r);
  }

  // ---------------------------------------------------------------------
  // Third pass: the other parent's linked children

  /** Both `fid` and `mid` name nodes. */
  predicate BothParents(r: Row, keys: set<Id>) {
    r.fid != "" && r.fid in keys && r.mid != "" && r.mid in keys
  }

  function PushLinked(dm: NodeMap, p: Id, c: Id): (dm': NodeMap)
    requires p in dm
    ensures dm'.Keys == dm.Keys
  {
    dm[p := dm[p].(linkedChildren := dm[p].linkedChildren + [c])]
  }

  /** One record of the third pass: a child with both parent nodes is listed under the parent that does not display it. */
  function Link(dm: NodeMap, r: Row): (dm': NodeMap)
    ensures dm'.Keys == dm.Keys
  {
    if r.id !in dm || !BothParents(r, dm.Keys) then dm
    else
      var shown := dm[r.id].parent;
      if shown == dm[r.fid].row.id then PushLinked(dm, r.mid, r.id)
      else if shown == dm[r.mid].row.id then PushLinked(dm, r.fid, r.id)
      else PushLinked(PushLinked(dm, r.fid, r.id), r.mid, r.id)
  }

  function LinkAll(dm: NodeMap, rows: seq<Row>): (dm': NodeMap)
    ensures dm'.Keys == dm.Keys
  {
    if rows == [] then dm else Link(LinkAll(dm, rows[..|rows| - 1]), rows[|rows| - 1])
  }

  /** The records with both parent nodes whose mother is `p`, in order. */
  function LinkedIds(rows: seq<Row>, keys: set<Id>, p: Id): seq<Id> {
    ConcatMap(LinkedOf(keys, p), rows)
  }

  function LinkedOf(keys: set<Id>, p: Id): Row -> seq<Id> {
    (r: Row) => if BothParents(r, keys) && r.mid == p then [r.id] else []
  }

  /** The third pass changes nothing but linked lists. */
  lemma LinkFields(dm: NodeMap, r: Row)
    ensures forall x :: x in dm ==>
      && Link(dm, r)[x].row == dm[x].row
      && Link(dm, r)[x].children == dm[x].children
      && Link(dm, r)[x].collapsed == dm[x].collapsed
      && Link(dm, r)[x].parent == dm[x].parent
      && Link(dm, r)[x].parents == dm[x].parents
  {
  }

  /** A child displayed under its father is linked under its mother, once. */
  lemma LinkMother(dm: NodeMap, r: Row)
    requires Keyed(dm) && r.id in dm
    requires BothParents(r, dm.Keys) ==> dm[r.id].parent == r.fid
    ensures forall x :: x in dm ==>
      Link(dm, r)[x].linkedChildren == dm[x].linkedChildren + (if BothParents(r, dm.Keys) && x == r.mid then [r.id] else [])
  {
  }

  lemma {:induction false} LinkAllFields(dm: NodeMap, rows: seq<Row>)
    ensures forall x :: x in dm ==>
      && LinkAll(dm, rows)[x].row == dm[x].row
      && LinkAll(dm, rows)[x].children == dm[x].children
      && LinkAll(dm, rows)[x].collapsed == dm[x].collapsed
      && LinkAll(dm, rows)[x].parent == dm[x].parent
      && LinkAll(dm, rows)[x].parents == dm[x].parents
  {
    if rows != [] {
      LinkAllFields(dm, rows[..|rows| - 1]);
      LinkFields(LinkAll(dm, rows[..|rows| - 1]), rows[|rows| - 1]);
    }
  }

  /** When every child with both parent nodes is displayed under its father, the linked children of `p` are the children whose mother is `p`. */
  lemma {:induction false} LinkAllLinked(dm: NodeMap, rows: seq<Row>, p: Id)
    requires Keyed(dm) && p in dm
    requires forall i :: 0 <= i < |rows| ==> rows[i].id in dm
    requires forall i :: 0 <= i < |rows| && BothParents(rows[i], dm.Keys) ==> dm[rows[i].id].parent == rows[i].fid
    ensures LinkAll(dm, rows)[p].linkedChildren == dm[p].linkedChildren + LinkedIds(rows, dm.Keys, p)
  {
    if rows != [] {
      var init := rows[..|rows| - 1];
      var r := rows[|rows| - 1];
      assert forall i :: 0 <= i < |init| ==> init[i] == rows[i];
      LinkAllLinked(dm, init, p);
      LinkAllFields(dm, init);
      var dm' := LinkAll(dm, init);
      assert Keyed(dm');
      LinkMother(dm', r);
      ConcatAssoc(dm[p].linkedChildren, LinkedIds(init, dm.Keys, p), if BothParents(r, dm.Keys) && p == r.mid then [r.id] else []);
    }
  }

  // ---------------------------------------------------------------------
  // buildHierarchy

  /** The ids the records name. */
  function RowIdSet(rows: seq<Row>): set<Id> {
    set i | 0 <= i < |rows| :: rows[i].id
  }

  /** `buildHierarchy(flatData)`: the three passes; `dataMap` and the roots. */
  function Hierarchy(flat: seq<Row>): Build {
    var dm0 := InitialMap(flat);
    assert forall i :: 0 <= i < |flat| ==> HasId(flat, flat[i].id);
    var b := AttachAll(Build(dm0, []), flat);
    Build(LinkAll(b.dm, flat), b.roots)
  }

  /** After the first and second passes: the state the third pass starts from. */
  function Attached(flat: seq<Row>): (b: Build)
    ensures b.dm.Keys == RowIdSet(flat)
  {
    var dm0 := InitialMap(flat);
    assert forall i :: 0 <= i < |flat| ==> HasId(flat, flat[i].id);
    assert forall x :: x in dm0 <==> x in RowIdSet(flat);
    AttachAll(Build(dm0, []), flat)
  }

  lemma HierarchyAttached(flat: seq<Row>)
    ensures Hierarchy(flat) == Build(LinkAll(Attached(flat).dm, flat), Attached(flat).roots)
  {
  }

  /**
   * `dataMap` has a node for every record id and no other, each filed under
   * its id, still collapsed, holding the last record of its id.
   */
  lemma HierarchyNodes(flat: seq<Row>)
    ensures Hierarchy(flat).dm.Keys == RowIdSet(flat)
    ensures Keyed(Hierarchy(flat).dm)
    ensures forall x :: x in Hierarchy(flat).dm ==> Hierarchy(flat).dm[x].collapsed && Hierarchy(flat).dm[x].row == InitialMap(flat)[x].row
  {
    HierarchyAttached(flat);
    var dm0 := InitialMap(flat);
    assert forall i :: 0 <= i < |flat| ==> HasId(flat, flat[i].id);
    InitialMapFresh(flat);
    AttachAllKeeps(Build(dm0, []), flat);
    LinkAllFields(Attached(flat).dm, flat);
  }

  /** The roots are the records with no parent node, in record order. */
  lemma HierarchyRoots(flat: seq<Row>)
    ensures Hierarchy(flat).roots == RootIds(flat, RowIdSet(flat))
  {
    HierarchyAttached(flat);
    var dm0 := InitialMap(flat);
    assert forall i :: 0 <= i < |flat| ==> HasId(flat, flat[i].id);
    AttachAllRoots(Build(dm0, []), flat);
    assert [] + RootIds(flat, dm0.Keys) == RootIds(flat, dm0.Keys);
  }

  /** The children of every node are the records it is the display parent of, in record order. */
  lemma HierarchyChildren(flat: seq<Row>, p: Id)
    requires p in RowIdSet(flat)
    ensures Hierarchy(flat).dm[p].children == ChildIds(flat, RowIdSet(flat), p)
  {
    HierarchyAttached(flat);
    var dm0 := InitialMap(flat);
    assert forall i :: 0 <= i < |flat| ==> HasId(flat, flat[i].id);
    InitialMapFresh(flat);
    AttachAllChildren(Build(dm0, []), flat, p);
    LinkAllFields(Attached(flat).dm, flat);
    assert [] + ChildIds(flat, dm0.Keys, p) == ChildIds(flat, dm0.Keys, p);
  }

  /** With distinct ids, every record's node has its parent nodes as `parents` and its display parent as `parent`. */
  lemma HierarchyParents(flat: seq<Row>, i: nat)
    requires DistinctIds(flat) && i < |flat|
    ensures var n := Hierarchy(flat).dm[flat[i].id];
      && n.row == flat[i]
      && n.parents == ParentIds(flat[i], RowIdSet(flat))
      && n.parent == DisplayParent(flat[i], RowIdSet(flat))
  {
    HierarchyAttached(flat);
    HierarchyNodes(flat);
    var dm0 := InitialMap(flat);
    assert forall j :: 0 <= j < |flat| ==> HasId(flat, flat[j].id);
    InitialMapFresh(flat);
    AttachAllParents(Build(dm0, []), flat, i);
    LinkAllFields(Attached(flat).dm, flat);
  }

  /** With distinct ids, the linked children of every node are the records with both parent nodes whose mother it is. */
  lemma HierarchyLinked(flat: seq<Row>, p: Id)
    requires DistinctIds(flat) && p in RowIdSet(flat)
    ensures Hierarchy(flat).dm[p].linkedChildren == LinkedIds(flat, RowIdSet(flat), p)
  {
    HierarchyAttached(flat);
    var b := Attached(flat);
    var dm0 := InitialMap(flat);
    assert forall j :: 0 <= j < |flat| ==> HasId(flat, flat[j].id);
    InitialMapFresh(flat);
    AttachAllKeeps(Build(dm0, []), flat);
    assert Keyed(b.dm);
    forall i | 0 <= i < |flat| && BothParents(flat[i], b.dm.Keys)
      ensures b.dm[flat[i].id].parent == flat[i].fid
    {
      AttachAllParents(Build(dm0, []), flat, i);
    }
    LinkAllLinked(b.dm, flat, p);
    assert [] + LinkedIds(flat, b.dm.Keys, p) == LinkedIds(flat, b.dm.Keys, p);
  }

  /**
   * With distinct ids every record sits in exactly one place of the display
   * tree: among the roots when it has no parent node, otherwise among the
   * children of its display parent, the first of `fid`, `mid` that names a
   * node, and of no other node.
   */
  lemma HierarchyPlacement(flat: seq<Row>, i: nat)
    requires DistinctIds(flat) && i < |flat|
    ensures var keys := RowIdSet(flat); var h := Hierarchy(flat); var r := flat[i];
      && (r.id in h.roots <==> ParentIds(r, keys) == [])
      && (forall p :: p in h.dm ==> (r.id in h.dm[p].children <==> ParentIds(r, keys) != [] && p == ParentIds(r, keys)[0]))
  {
    RootPlacement(flat, i);
    HierarchyNodes(flat);
    forall p | p in Hierarchy(flat).dm
      ensures flat[i].id in Hierarchy(flat).dm[p].children <==>
        ParentIds(flat[i], RowIdSet(flat)) != [] && p == ParentIds(flat[i], RowIdSet(flat))[0]
    {
      ChildPlacement(flat, i, p);
    }
  }

  lemma RootPlacement(flat: seq<Row>, i: nat)
    requires DistinctIds(flat) && i < |flat|
    ensures flat[i].id in Hierarchy(flat).roots <==> ParentIds(flat[i], RowIdSet(flat)) == []
  {
    HierarchyRoots(flat);
    InRootIds(flat, RowIdSet(flat), i);
  }

  lemma ChildPlacement(flat: seq<Row>, i: nat, p: Id)
    requires DistinctIds(flat) && i < |flat| && p in RowIdSet(flat)
    ensures flat[i].id in Hierarchy(flat).dm[p].children <==>
      ParentIds(flat[i], RowIdSet(flat)) != [] && p == ParentIds(flat[i], RowIdSet(flat))[0]
  {
    HierarchyChildren(flat, p);
    InChildIds(flat, RowIdSet(flat), p, i);
  }

  lemma InRootIds(rows: seq<Row>, keys: set<Id>, i: nat)
    requires DistinctIds(rows) && i < |rows|
    ensures rows[i].id in RootIds(rows, keys) <==> ParentIds(rows[i], keys) == []
  {
    InConcatMap(RootOf(keys), rows, rows[i].id);
    if rows[i].id in RootIds(rows, keys) {
      var j :| 0 <= j < |rows| && rows[i].id in RootOf(keys)(rows[j]);
      assert j == i;
    }
  }

  lemma InChildIds(rows: seq<Row>, keys: set<Id>, p: Id, i: nat)
    requires DistinctIds(rows) && i < |rows|
    ensures rows[i].id in ChildIds(rows, keys, p) <==> ParentIds(rows[i], keys) != [] && p == ParentIds(rows[i], keys)[0]
  {
    InConcatMap(ChildOf(keys, p), rows, rows[i].id);
    if rows[i].id in ChildIds(rows, keys, p) {
      var j :| 0 <= j < |rows| && rows[i].id in ChildOf(keys, p)(rows[j]);
      assert j == i;
    }
  }

  lemma InLinkedIds(rows: seq<Row>, keys: set<Id>, p: Id, i: nat)
    requires DistinctIds(rows) && i < |rows|
    ensures rows[i].id in LinkedIds(rows, keys, p) <==> BothParents(rows[i], keys) && p == rows[i].mid
  {
    InConcatMap(LinkedOf(keys, p), rows, rows[i].id);
    if rows[i].id in LinkedIds(rows, keys, p) {
      var j :| 0 <= j < |rows| && rows[i].id in LinkedOf(keys, p)(rows[j]);
      assert j == i;
    }
  }

  /**
   * With distinct ids a record with both parent nodes is displayed under its
   * father and linked under its mother, and is in no other node's linked list.
   */
  lemma HierarchyLinkedPlacement(flat: seq<Row>, i: nat)
    requires DistinctIds(flat) && i < |flat|
    ensures var keys := RowIdSet(flat); var h := Hierarchy(flat); var r := flat[i];
      && (BothParents(r, keys) ==> h.dm[r.id].parent == r.fid && r.id in h.dm[r.fid].children)
      && (forall p :: p in h.dm ==> (r.id in h.dm[p].linkedChildren <==> BothParents(r, keys) && p == r.mid))
  {
    HierarchyParents(flat, i);
    HierarchyNodes(flat);
    if BothParents(flat[i], RowIdSet(flat)) {
      ChildPlacement(flat, i, flat[i].fid);
    }
    forall p | p in Hierarchy(flat).dm
      ensures flat[i].id in Hierarchy(flat).dm[p].linkedChildren <==> BothParents(flat[i], RowIdSet(flat)) && p == flat[i].mid
    {
      LinkedPlacement(flat, i, p);
    }
  }

  lemma LinkedPlacement(flat: seq<Row>, i: nat, p: Id)
    requires DistinctIds(flat) && i < |flat| && p in RowIdSet(flat)
    ensures flat[i].id in Hierarchy(flat).dm[p].linkedChildren <==> BothParents(flat[i], RowIdSet(flat)) && p == flat[i].mid
  {
    HierarchyLinked(flat, p);
    InLinkedIds(flat, RowIdSet(flat), p, i);
  }

  // ---------------------------------------------------------------------
  // getRenderableChildren

  /** A child entry counts only with a non-blank id. */
  predicate NonBlank(x: Id) {
    x != ""
  }

  /** `getRenderableChildren(node)`: the children, then the linked children, each id once where it first occurs. */
  function RenderableChildren(n: TreeNode): (r: seq<Id>)
    ensures Distinct(r)
    ensures forall x :: x in r <==> x != "" && (x in n.children || x in n.linkedChildren)
  {
    Dedup(Filter(n.children + n.linkedChildren, NonBlank))
  }

  /** The direct children come first, in their own order, each once. */
  lemma RenderableDirectFirst(n: TreeNode)
    ensures var d := Dedup(Filter(n.children, NonBlank));
      |d| <= |RenderableChildren(n)| && RenderableChildren(n)[..|d|] == d
  {
    var a := Filter(n.children, NonBlank);
    var b := Filter(n.linkedChildren, NonBlank);
    FilterAppend(n.children, n.linkedChildren, NonBlank);
    DedupFromAppend(a, b, {});
    var d := Dedup(a);
    assert RenderableChildren(n) == d + DedupFrom(b, {} + set x | x in a);
  }

  /**
   * With distinct ids a record is shown under a node exactly when that node
   * is its display parent or, when both parent nodes exist, its mother: a
   * child of a couple is reachable from both sides.
   */
  lemma HierarchyRenderable(flat: seq<Row>, i: nat, p: Id)
    requires DistinctIds(flat) && i < |flat| && p in RowIdSet(flat) && flat[i].id != ""
    ensures var keys := RowIdSet(flat); var r := flat[i];
      r.id in RenderableChildren(Hierarchy(flat).dm[p]) <==>
        (ParentIds(r, keys) != [] && p == ParentIds(r, keys)[0]) || (BothParents(r, keys) && p == r.mid)
    ensures BothParents(flat[i], RowIdSet(flat)) ==>
      (flat[i].id in RenderableChildren(Hierarchy(flat).dm[p]) <==> p == flat[i].fid || p == flat[i].mid)
  {
    HierarchyNodes(flat);
    ChildPlacement(flat, i, p);
    LinkedPlacement(flat, i, p);
  }

  // ---------------------------------------------------------------------
  // The walk up behind getLineageIds and expandAncestors

  /** The nodes the walk steps to from `x`: its parents, else its display parent, else none. */
  function Up(dm: NodeMap, x: Id): seq<Id> {
    if x !in dm then []
    else if |dm[x].parents| > 0 then dm[x].parents
    else if dm[x].parent != "" then [dm[x].parent]
    else []
  }

  function UpEdges(dm: NodeMap): Id -> set<Id> {
    (x: Id) => set y | y in Up(dm, x)
  }

  /** `b` is `a` or an ancestor of `a` through `parents`/`parent`. */
  ghost predicate Ancestral(dm: NodeMap, a: Id, b: Id) {
    exists path :: Reach.Connects(UpEdges(dm), path, a, b)
  }

  /** `y` is a step up from a node of the lineage of `a`: a node `expandAncestors(a)` opens. */
  ghost predicate Raised(dm: NodeMap, a: Id, y: Id) {
    exists v :: Ancestral(dm, a, v) && y in Up(dm, v)
  }

  lemma AncestralSelf(dm: NodeMap, a: Id)
    ensures Ancestral(dm, a, a)
  {
    assert Reach.Connects(UpEdges(dm), [a], a, a);
  }

  lemma AncestralStep(dm: NodeMap, a: Id, v: Id, u: Id)
    requires Ancestral(dm, a, v) && u in Up(dm, v)
    ensures Ancestral(dm, a, u)
  {
    var path :| Reach.Connects(UpEdges(dm), path, a, v);
    assert u in UpEdges(dm)(v);
    Reach.WalkSnoc(UpEdges(dm), path, u);
    assert Reach.Connects(UpEdges(dm), path + [u], a, u);
  }

  /** A set that holds `a` and every step up from each of its members holds every ancestor of `a`. */
  lemma {:induction false} ClosedHoldsAncestors(dm: NodeMap, a: Id, s: set<Id>, path: seq<Id>)
    requires a in s
    requires forall v, u :: v in s && u in Up(dm, v) ==> u in s
    requires Reach.IsWalk(UpEdges(dm), path) && path[0] == a
    ensures path[|path| - 1] in s
    decreases |path|
  {
    if |path| > 1 {
      Reach.WalkPrefix(UpEdges(dm), path);
      ClosedHoldsAncestors(dm, a, s, path[..|path| - 1]);
      assert path[|path| - 1] in UpEdges(dm)(path[|path| - 2]);
    }
  }

  /** Every id the walk can meet: the start and every step up from a node. */
  ghost function Universe(dm: NodeMap, start: Id): set<Id> {
    {start} + set x, y | x in dm && y in Up(dm, x) :: y
  }

  /** What holds at the head of the walk's loop. */
  ghost predicate WalkInv(dm: NodeMap, start: Id, lineage: set<Id>, raised: set<Id>, stack: seq<Id>) {
    && LineageOk(dm, start, lineage)
    && StackOk(dm, start, stack)
    && (start in lineage || start in stack)
    && ClosedUpTo(dm, lineage, stack)
    && RaisedOk(dm, lineage, raised)
  }

  ghost predicate LineageOk(dm: NodeMap, start: Id, lineage: set<Id>) {
    lineage <= Universe(dm, start) && forall v :: v in lineage ==> Ancestral(dm, start, v)
  }

  ghost predicate StackOk(dm: NodeMap, start: Id, stack: seq<Id>) {
    forall i :: 0 <= i < |stack| ==> stack[i] in Universe(dm, start) && Ancestral(dm, start, stack[i])
  }

  /** Every step up from the lineage is in the lineage or still on the stack. */
  ghost predicate ClosedUpTo(dm: NodeMap, lineage: set<Id>, stack: seq<Id>) {
    forall v, w :: v in lineage && w in Up(dm, v) ==> w in lineage || w in stack
  }

  ghost predicate RaisedOk(dm: NodeMap, lineage: set<Id>, raised: set<Id>) {
    forall y :: y in raised <==> exists v :: v in lineage && y in Up(dm, v)
  }

  lemma WalkStart(dm: NodeMap, start: Id)
    ensures WalkInv(dm, start, {}, {}, [start])
  {
    AncestralSelf(dm, start);
  }

  lemma WalkSeen(dm: NodeMap, start: Id, lineage: set<Id>, raised: set<Id>, stack: seq<Id>)
    requires stack != [] && WalkInv(dm, start, lineage, raised, stack) && stack[|stack| - 1] in lineage
    ensures WalkInv(dm, start, lineage, raised, stack[..|stack| - 1])
  {
    var rest := stack[..|stack| - 1];
    assert forall i :: 0 <= i < |rest| ==> rest[i] == stack[i];
    assert forall w :: w in stack ==> w in rest || w == stack[|stack| - 1];
  }

  lemma WalkVisit(dm: NodeMap, start: Id, lineage: set<Id>, raised: set<Id>, stack: seq<Id>)
    requires stack != [] && WalkInv(dm, start, lineage, raised, stack) && stack[|stack| - 1] !in lineage
    ensures var c := stack[|stack| - 1];
      WalkInv(dm, start, lineage + {c}, raised + (set w | w in Up(dm, c)), stack[..|stack| - 1] + Up(dm, c))
    ensures |Universe(dm, start) - (lineage + {stack[|stack| - 1]})| < |Universe(dm, start) - lineage|
  {
    var c := stack[|stack| - 1];
    var next := stack[..|stack| - 1] + Up(dm, c);
    VisitStack(dm, start, stack);
    assert c in Universe(dm, start) && Ancestral(dm, start, c);
    VisitClosed(dm, lineage, stack);
    VisitRaised(dm, lineage, raised, c);
    VisitLineage(dm, start, lineage, c);
    assert start in lineage + {c} || start in next;
    Shrinks(Universe(dm, start), lineage, c);
  }

  lemma VisitLineage(dm: NodeMap, start: Id, lineage: set<Id>, c: Id)
    requires LineageOk(dm, start, lineage) && c in Universe(dm, start) && Ancestral(dm, start, c)
    ensures LineageOk(dm, start, lineage + {c})
  {
  }

  lemma Shrinks<T>(u: set<T>, s: set<T>, c: T)
    requires c in u && c !in s
    ensures |u - (s + {c})| < |u - s|
  {
    assert u - s == (u - (s + {c})) + {c};
  }

  lemma VisitStack(dm: NodeMap, start: Id, stack: seq<Id>)
    requires stack != [] && StackOk(dm, start, stack)
    ensures StackOk(dm, start, stack[..|stack| - 1] + Up(dm, stack[|stack| - 1]))
  {
    var c := stack[|stack| - 1];
    var rest := stack[..|stack| - 1];
    var ps := Up(dm, c);
    var next := rest + ps;
    var u := Universe(dm, start);
    forall i | 0 <= i < |next| ensures next[i] in u && Ancestral(dm, start, next[i]) {
      if i < |rest| {
        assert next[i] == stack[i];
      } else {
        assert next[i] == ps[i - |rest|];
        AncestralStep(dm, start, c, next[i]);
        assert c in dm;
      }
    }
  }

  lemma VisitClosed(dm: NodeMap, lineage: set<Id>, stack: seq<Id>)
    requires stack != [] && ClosedUpTo(dm, lineage, stack)
    ensures var c := stack[|stack| - 1];
      ClosedUpTo(dm, lineage + {c}, stack[..|stack| - 1] + Up(dm, c))
  {
    var c := stack[|stack| - 1];
    var next := stack[..|stack| - 1] + Up(dm, c);
    assert forall w :: w in stack ==> w in next || w == c;
    assert forall w :: w in Up(dm, c) ==> w in next;
  }

  lemma VisitRaised(dm: NodeMap, lineage: set<Id>, raised: set<Id>, c: Id)
    requires RaisedOk(dm, lineage, raised)
    ensures RaisedOk(dm, lineage + {c}, raised + (set w | w in Up(dm, c)))
  {
  }

  lemma WalkEnd(dm: NodeMap, start: Id, lineage: set<Id>, raised: set<Id>)
    requires WalkInv(dm, start, lineage, raised, [])
    ensures forall v :: v in lineage <==> Ancestral(dm, start, v)
    ensures forall y :: y in raised <==> Raised(dm, start, y)
  {
    forall v | Ancestral(dm, start, v) ensures v in lineage {
      var path :| Reach.Connects(UpEdges(dm), path, start, v);
      ClosedHoldsAncestors(dm, start, lineage, path);
    }
  }

  /**
   * The stack loop of `getLineageIds(node)` and `expandAncestors(node)`:
   * `lineage` is the node and all its ancestors, `raised` the nodes the
   * loop opens. Each id is visited once, so cycles in the data end it.
   */
  method AncestorWalk(dm: NodeMap, start: Id) returns (lineage: set<Id>, raised: set<Id>)
    ensures forall v :: v in lineage <==> Ancestral(dm, start, v)
    ensures forall y :: y in raised <==> Raised(dm, start, y)
  {
    lineage, raised := {}, {};
    var stack := [start];
    WalkStart(dm, start);
    while stack != []
      invariant WalkInv(dm, start, lineage, raised, stack)
      decreases |Universe(dm, start) - lineage|, |stack|
    {
      var current := stack[|stack| - 1];
      if current in lineage {
        WalkSeen(dm, start, lineage, raised, stack);
        stack := stack[..|stack| - 1];
        continue;
      }
      WalkVisit(dm, start, lineage, raised, stack);
      stack := stack[..|stack| - 1];
      lineage := lineage + {current};
      var ps := Up(dm, current);
      raised := raised + set w | w in ps;
      stack := stack + ps;
    }
    WalkEnd(dm, start, lineage, raised);
  }

  /** A node `expandAncestors` opens is an ancestor of the start node. */
  lemma RaisedAncestral(dm: NodeMap, a: Id, y: Id)
    requires Raised(dm, a, y)
    ensures Ancestral(dm, a, y)
  {
    var v :| Ancestral(dm, a, v) && y in Up(dm, v);
    AncestralStep(dm, a, v, y);
  }

  /** `dm` with the given nodes opened and everything else as it was. */
  function Opened(dm: NodeMap, raised: set<Id>): (dm': NodeMap)
    ensures dm'.Keys == dm.Keys
    ensures forall x :: x in dm ==> dm'[x] == dm[x].(collapsed := dm[x].collapsed && x !in raised)
  {
    map x | x in dm :: dm[x].(collapsed := dm[x].collapsed && x !in raised)
  }

  /** `dataMap` after `expandAncestors(dataMap[id])`: every node a step up from the lineage of `id` opened. */
  ghost function Expanded(dm: NodeMap, id: Id): (dm': NodeMap)
    ensures dm'.Keys == dm.Keys
  {
    if id !in dm then dm
    else map x | x in dm :: dm[x].(collapsed := dm[x].collapsed && !Raised(dm, id, x))
  }

  /** Opening the nodes the walk raised is `Expanded`; only `collapsed` flags change, and only to `false`. */
  lemma OpenedIsExpanded(dm: NodeMap, id: Id, raised: set<Id>)
    requires id in dm
    requires forall y :: y in raised <==> Raised(dm, id, y)
    ensures Opened(dm, raised) == Expanded(dm, id)
  {
  }

  /** Opening changes nothing the walk reads, so the walk over the opened map is the same walk. */
  lemma OpenedKeepsUp(dm: NodeMap, raised: set<Id>, x: Id)
    ensures Up(Opened(dm, raised), x) == Up(dm, x)
  {
  }

  // ---------------------------------------------------------------------
  // Object.keys(dataMap)

  /** The record ids in order. */
  function RowIdSeq(rows: seq<Row>): (ids: seq<Id>)
    ensures |ids| == |rows| && forall i :: 0 <= i < |rows| ==> ids[i] == rows[i].id
  {
    if rows == [] then [] else RowIdSeq(rows[..|rows| - 1]) + [rows[|rows| - 1].id]
  }

  /** `Object.keys(dataMap)`: every node id once, in the order of the first record that names it. */
  function KeyOrder(rows: seq<Row>): (ks: seq<Id>)
    ensures Distinct(ks)
    ensures forall x :: x in ks <==> x in RowIdSet(rows)
  {
    assert forall x :: x in RowIdSeq(rows) <==> x in RowIdSet(rows) by {
      forall x | x in RowIdSeq(rows) ensures x in RowIdSet(rows) {
        var i :| 0 <= i < |rows| && RowIdSeq(rows)[i] == x;
      }
      forall x | x in RowIdSet(rows) ensures x in RowIdSeq(rows) {
        var i :| 0 <= i < |rows| && rows[i].id == x;
        assert RowIdSeq(rows)[i] == x;
      }
    }
    Dedup(RowIdSeq(rows))
  }

  lemma ConcatAssoc<T>(a: seq<T>, b: seq<T>, c: seq<T>)
    ensures a + b + c == a + (b + c)
  {
  }
}
