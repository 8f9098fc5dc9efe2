/**
 * The graph side of the relationship engine: the lookups with their
 * defaults, siblings, parents and grandparents, the labelled neighbour list
 * the search expands, and the breadth-first search that finds the shortest
 * labelled path between two people (`getRelationshipCode`).
 */
module KinshipGraph {
  import opened Text
  import opened Genealogy
  import KinshipCode
  import Reach
  import opened KinshipSearch

  // ---------------------------------------------------------------------
  // lookups

  /** `getPerson`: the record, or nothing when the id has none. */
  function GetPerson(g: Graph, id: Id): Option<Person> {
    if id in g.people then Some(g.people[id]) else None
  }

  /** `getChildrenIds`: the children list, empty when the id has none. */
  function GetChildrenIds(g: Graph, id: Id): seq<Id> {
    if id in g.children then g.children[id] else []
  }

  /** `getGender`: the gender, `Unknown` when the id has none. */
  function GetGender(g: Graph, id: Id): Gender {
    if id in g.genders then g.genders[id] else Unknown
  }

  // ---------------------------------------------------------------------
  // siblings

  /** The children listed under the father, then under the mother (empty parent ids are skipped). */
  function SiblingPool(g: Graph, p: Person): seq<Id> {
    (if p.fid != "" && p.fid in g.children then g.children[p.fid] else []) +
    (if p.mid != "" && p.mid in g.children then g.children[p.mid] else [])
  }

  /** The sibling list `getSiblings` returns: the pool without repeats and without the person. */
  function Siblings(g: Graph, id: Id): seq<Id> {
    if id !in g.people then [] else Without(Dedup(SiblingPool(g, g.people[id])), id)
  }

  /**
   * A sibling is anyone other than the person listed as a child of the
   * person's (non-empty) father or mother id; each appears once.
   */
  lemma SiblingsMembership(g: Graph, id: Id, x: Id)
    ensures Distinct(Siblings(g, id))
    ensures x in Siblings(g, id) <==>
      id in g.people && x != id &&
      ((g.people[id].fid != "" && x in GetChildrenIds(g, g.people[id].fid)) ||
       (g.people[id].mid != "" && x in GetChildrenIds(g, g.people[id].mid)))
  {
    if id in g.people {
      WithoutDistinct(Dedup(SiblingPool(g, g.people[id])), id);
    }
  }

  /** Nobody is their own sibling, and a person without a record has none. */
  lemma SiblingsIrreflexive(g: Graph, id: Id)
    ensures id !in Siblings(g, id)
    ensures id !in g.people ==> Siblings(g, id) == []
  {
  }

  /** One step of collecting into an insertion-ordered set. */
  lemma DedupStep(pre: seq<Id>, x: Id, acc: seq<Id>, seen: set<Id>)
    requires acc == Dedup(pre) && seen == set y | y in pre
    ensures x in seen ==> Dedup(pre + [x]) == acc && (set y | y in pre + [x]) == seen
    ensures x !in seen ==> Dedup(pre + [x]) == acc + [x] && (set y | y in pre + [x]) == seen + {x}
  {
    DedupSnoc(pre, x);
  }

  /** `getSiblings`: collects the pool into an insertion-ordered set, then deletes the person. */
  method GetSiblings(g: Graph, id: Id) returns (r: seq<Id>)
    ensures r == Siblings(g, id)
  {
    if id !in g.people {
      return [];
    }
    var pool := SiblingPool(g, g.people[id]);
    var acc := CollectSet(pool);
    r := Without(acc, id);
  }

  /** `new Set(pool)` read back in insertion order. */
  method CollectSet(pool: seq<Id>) returns (acc: seq<Id>)
    ensures acc == Dedup(pool)
  {
    acc := [];
    var seen: set<Id> := {};
    var i := 0;
    while i < |pool|
      invariant 0 <= i <= |pool|
      invariant acc == Dedup(pool[..i])
      invariant seen == set y | y in pool[..i]
    {
      var x := pool[i];
      assert pool[..i + 1] == pool[..i] + [x];
      DedupStep(pool[..i], x, acc, seen);
      if x !in seen {
        acc := acc + [x];
        seen := seen + {x};
      }
      i := i + 1;
    }
    assert pool[..i] == pool;
  }

  // ---------------------------------------------------------------------
  // parents and grandparents

  /** A related person together with the role shown for them. */
  datatype Kin = Kin(id: Id, role: string)

  /** `getParents`: father then mother, each only when the id is set. */
  function GetParents(g: Graph, id: Id): (r: seq<Kin>)
    ensures |r| <= 2
    ensures id !in g.people ==> r == []
    ensures forall k :: k in r ==> k.id != ""
  {
    if id !in g.people then []
    else
      var p := g.people[id];
      (if p.fid != "" then [Kin(p.fid, "Father")] else []) +
      (if p.mid != "" then [Kin(p.mid, "Mother")] else [])
  }

  function Side(prefix: string, parents: seq<Kin>): seq<Kin> {
    seq(|parents|, i requires 0 <= i < |parents| =>
      Kin(parents[i].id, prefix + (if parents[i].role == "Father" then "Grandfather" else "Grandmother")))
  }

  /** `getGrandParents`: the father's parents, then the mother's, each side only when that parent has a record. */
  function GetGrandParents(g: Graph, id: Id): (r: seq<Kin>)
    ensures |r| <= 4
  {
    if id !in g.people then []
    else
      var p := g.people[id];
      (if p.fid != "" then Side("Paternal ", GetParents(g, p.fid)) else []) +
      (if p.mid != "" then Side("Maternal ", GetParents(g, p.mid)) else [])
  }

  /** The ids among a list of relatives. */
  function KinIds(ks: seq<Kin>): set<Id> {
    set k | k in ks :: k.id
  }

  lemma KinIdsAppend(a: seq<Kin>, b: seq<Kin>)
    ensures KinIds(a + b) == KinIds(a) + KinIds(b)
  {
  }

  lemma SideIds(prefix: string, ps: seq<Kin>)
    ensures KinIds(Side(prefix, ps)) == KinIds(ps)
  {
    var sd := Side(prefix, ps);
    forall x | x in KinIds(ps) ensures x in KinIds(sd) {
      var k :| k in ps && k.id == x;
      var i :| 0 <= i < |ps| && ps[i] == k;
      assert sd[i].id == x;
    }
  }

  /** The ids of everybody's parents, for a set of people. */
  function ParentsOfAll(g: Graph, ids: set<Id>): set<Id> {
    set k, x | k in ids && x in KinIds(GetParents(g, k)) :: x
  }

  lemma ParentsOfAllUnion(g: Graph, a: set<Id>, b: set<Id>)
    ensures ParentsOfAll(g, a + b) == ParentsOfAll(g, a) + ParentsOfAll(g, b)
  {
  }

  lemma ParentsOfOne(g: Graph, x: Id)
    ensures ParentsOfAll(g, {x}) == KinIds(GetParents(g, x))
    ensures ParentsOfAll(g, {}) == {}
  {
  }

  /** The ids `getParents` lists: the father's and the mother's, when set. */
  lemma ParentIds(g: Graph, id: Id)
    requires id in g.people
    ensures KinIds(GetParents(g, id)) ==
      (if g.people[id].fid != "" then {g.people[id].fid} else {}) +
      (if g.people[id].mid != "" then {g.people[id].mid} else {})
  {
    var p := g.people[id];
    var fa := if p.fid != "" then [Kin(p.fid, "Father")] else [];
    var mo := if p.mid != "" then [Kin(p.mid, "Mother")] else [];
    KinIdsAppend(fa, mo);
  }

  /** The grandparent ids on one side: the parents of that parent, when set. */
  lemma SideOfParent(g: Graph, prefix: string, pid: Id)
    ensures KinIds(if pid != "" then Side(prefix, GetParents(g, pid)) else []) ==
      ParentsOfAll(g, if pid != "" then {pid} else {})
  {
    ParentsOfOne(g, pid);
    if pid != "" {
      SideIds(prefix, GetParents(g, pid));
    }
  }

  /**
   * The grandparents are exactly the parents of the parents: the ids
   * `getGrandParents` lists are the parent ids of the ids `getParents` lists.
   */
  lemma GrandParentsAreParentsOfParents(g: Graph, id: Id)
    ensures KinIds(GetGrandParents(g, id)) == ParentsOfAll(g, KinIds(GetParents(g, id)))
  {
    if id in g.people {
      var p := g.people[id];
      var fs := if p.fid != "" then Side("Paternal ", GetParents(g, p.fid)) else [];
      var ms := if p.mid != "" then Side("Maternal ", GetParents(g, p.mid)) else [];
      KinIdsAppend(fs, ms);
      SideOfParent(g, "Paternal ", p.fid);
      SideOfParent(g, "Maternal ", p.mid);
      ParentIds(g, id);
      ParentsOfAllUnion(g, if p.fid != "" then {p.fid} else {}, if p.mid != "" then {p.mid} else {});
    } else {
      ParentsOfOne(g, id);
    }
  }

  /** The role shown for each grandparent names the side of the family it comes from. */
  lemma GrandParentRoles(g: Graph, id: Id)
    ensures forall k :: k in GetGrandParents(g, id) ==>
      k.role in {"Paternal Grandfather", "Paternal Grandmother", "Maternal Grandfather", "Maternal Grandmother"}
  {
    assert "Paternal " + "Grandfather" == "Paternal Grandfather";
    assert "Paternal " + "Grandmother" == "Paternal Grandmother";
    assert "Maternal " + "Grandfather" == "Maternal Grandfather";
    assert "Maternal " + "Grandmother" == "Maternal Grandmother";
  }

  // ---------------------------------------------------------------------
  // the labelled neighbours the search expands

  function ChildLabel(gd: Gender): string {
    match gd
    case Male => "S"
    case Female => "D"
    case Unknown => "C"
  }

  function SpouseLabel(gd: Gender): string {
    match gd
    case Male => "H"
    case Female => "W"
    case Unknown => "P"
  }

  function SiblingLabel(gd: Gender): string {
    match gd
    case Male => "B"
    case Female => "Z"
    case Unknown => "Sib"
  }

  function Labelled(g: Graph, ids: seq<Id>, labelOf: Gender -> string): (r: seq<Link>)
    ensures |r| == |ids|
    ensures forall i :: 0 <= i < |ids| ==> r[i] == Link(ids[i], labelOf(GetGender(g, ids[i])))
  {
    seq(|ids|, i requires 0 <= i < |ids| => Link(ids[i], labelOf(GetGender(g, ids[i]))))
  }

  /**
   * The `add` calls of one expansion step, in order: father, mother,
   * children, spouses, siblings. A person without a record is not expanded.
   */
  function Neighbours(g: Graph, u: Id): seq<Link> {
    if u !in g.people then []
    else
      var p := g.people[u];
      (if p.fid != "" then [Link(p.fid, "F")] else []) +
      (if p.mid != "" then [Link(p.mid, "M")] else []) +
      Labelled(g, GetChildrenIds(g, u), ChildLabel) +
      Labelled(g, p.pids, SpouseLabel) +
      Labelled(g, Siblings(g, u), SiblingLabel)
  }

  /** The ids one step away from `u`. */
  function Targets(g: Graph, u: Id): set<Id> {
    Dests(Neighbours(g, u))
  }

  /** Every edge label is one of the letters the engine documents, or `C`, `P`, `Sib` for unknown genders. */
  lemma NeighbourLabels(g: Graph, u: Id)
    ensures forall l :: l in Neighbours(g, u) ==>
      l.letters in {"F", "M", "S", "D", "C", "H", "W", "P", "B", "Z", "Sib"}
  {
  }

  /** Parents, children, spouses and siblings are one step away. */
  lemma DirectRelativesAreNeighbours(g: Graph, u: Id)
    requires u in g.people
    ensures g.people[u].fid != "" ==> g.people[u].fid in Targets(g, u)
    ensures g.people[u].mid != "" ==> g.people[u].mid in Targets(g, u)
    ensures forall c :: c in GetChildrenIds(g, u) ==> c in Targets(g, u)
    ensures forall s :: s in g.people[u].pids ==> s in Targets(g, u)
    ensures forall s :: s in Siblings(g, u) ==> s in Targets(g, u)
  {
    var p := g.people[u];
    var a := (if p.fid != "" then [Link(p.fid, "F")] else []) + (if p.mid != "" then [Link(p.mid, "M")] else []);
    var kids := Labelled(g, GetChildrenIds(g, u), ChildLabel);
    var sps := Labelled(g, p.pids, SpouseLabel);
    var sibs := Labelled(g, Siblings(g, u), SiblingLabel);
    assert Neighbours(g, u) == a + kids + sps + sibs;
    assert Dests(a + kids + sps + sibs) == Dests(a) + Dests(kids) + Dests(sps) + Dests(sibs) by {
      DestsAppend(a + kids + sps, sibs);
      DestsAppend(a + kids, sps);
      DestsAppend(a, kids);
    }
    LabelledDests(g, GetChildrenIds(g, u), ChildLabel);
    LabelledDests(g, p.pids, SpouseLabel);
    LabelledDests(g, Siblings(g, u), SiblingLabel);
    if p.fid != "" {
      assert Link(p.fid, "F") in a;
    }
    if p.mid != "" {
      assert Link(p.mid, "M") in a;
    }
  }

  lemma DestsAppend(a: seq<Link>, b: seq<Link>)
    ensures Dests(a + b) == Dests(a) + Dests(b)
  {
  }

  /** Every listed id is reached by its labelled link. */
  lemma LabelledDests(g: Graph, ids: seq<Id>, labelOf: Gender -> string)
    ensures forall x :: x in ids ==> x in Dests(Labelled(g, ids, labelOf))
  {
    var ls := Labelled(g, ids, labelOf);
    forall x | x in ids ensures x in Dests(ls) {
      var i :| 0 <= i < |ids| && ids[i] == x;
      assert ls[i] in ls;
    }
  }

  /** The neighbour function of `g`, as the search consumes it. */
  function NbOf(g: Graph): Id -> seq<Link> {
    u => Neighbours(g, u)
  }

  /** A walk from `a` to `b` along links of `g`. */
  predicate LinkedBy(g: Graph, path: seq<Id>, a: Id, b: Id) {
    Connects(NbOf(g), g.people.Keys, path, a, b)
  }

  /** The raw code of a path through `g`. */
  function PathCode(g: Graph, path: seq<Id>): string {
    RawCode(NbOf(g), path)
  }

  /**
   * `getRelationshipCode(homeId, targetId)`: empty ids give nothing, the
   * same id gives `SELF`; otherwise the canonical code of a shortest walk
   * of at most `MaxDepth` links, or nothing when there is none.
   */
  method GetRelationshipCode(g: Graph, home: Id, target: Id) returns (r: Option<CodeResult>)
    ensures home == "" || target == "" ==> r == None
    ensures home != "" && home == target ==> r == Some(CodeResult("SELF", [home]))
    ensures home != "" && target != "" && home != target ==>
      (r.Some? <==> exists path :: LinkedBy(g, path, home, target) && |path| <= MaxDepth + 1)
    ensures home != target && r.Some? ==>
      LinkedBy(g, r.value.path, home, target) && Distinct(r.value.path) &&
      |r.value.path| <= MaxDepth + 1 &&
      r.value.code == KinshipCode.NormalForm(PathCode(g, r.value.path)) &&
      forall path :: LinkedBy(g, path, home, target) ==> |r.value.path| <= |path|
  {
    r := ShortestCode(NbOf(g), g.people.Keys, home, target);
  }
}
