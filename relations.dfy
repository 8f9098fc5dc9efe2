/**
 * The draft's `relations` map: for every person id its father id, mother
 * id and spouse set. A JavaScript `Map` and `Set` iterate in insertion
 * order, and the rest of the draft store depends on that order, so the map
 * keeps its keys in order and a spouse set is a list without repeats.
 */
module DraftRelations {
  import opened Text
  import opened Sorting
  import opened DraftData

  /** One entry: `fid` and `mid` are `""` when unset. */
  datatype Relation = Relation(fid: Id, mid: Id, spouses: seq<Id>)

  const EmptyRelation := Relation("", "", [])

  /** The `relations` map: its entries and its keys in insertion order. */
  datatype Relations = Relations(byId: map<Id, Relation>, order: seq<Id>)

  const NoRelations := Relations(map[], [])

  /** The order lists each key once, no key is empty, and no spouse set repeats an id. */
  ghost predicate WellFormed(t: Relations) {
    Distinct(t.order) &&
    (forall x :: x in t.order <==> x in t.byId) &&
    "" !in t.byId &&
    forall x :: x in t.byId ==> Distinct(t.byId[x].spouses)
  }

  /** Every spouse link is mirrored by the other spouse's entry. */
  ghost predicate SpouseSymmetric(t: Relations) {
    forall x, y :: x in t.byId && y in t.byId[x].spouses ==> y in t.byId && x in t.byId[y].spouses
  }

  function RelOf(t: Relations, id: Id): Relation {
    if id in t.byId then t.byId[id] else EmptyRelation
  }

  function SpousesOf(t: Relations, id: Id): seq<Id> {
    RelOf(t, id).spouses
  }

  /** `set.add(x)`: appended when absent. */
  function SetAdd(s: seq<Id>, x: Id): (r: seq<Id>)
    ensures forall y :: y in r <==> y in s || y == x
    ensures Distinct(s) ==> Distinct(r)
  {
    if x in s then s else s + [x]
  }

  /** Deleting an id just added to a set that lacked it gives the set back. */
  lemma WithoutSnoc(s: seq<Id>, x: Id)
    requires x !in s
    ensures Without(s + [x], x) == s
  {
    if s != [] {
      assert (s + [x])[1..] == s[1..] + [x];
      WithoutSnoc(s[1..], x);
      assert s == [s[0]] + s[1..];
    }
  }

  /** Adding a missing empty entry keeps the relations well formed and the links mirrored. */
  lemma EnsureIdKeeps(t: Relations, id: Id)
    requires id != []
    ensures WellFormed(t) ==> WellFormed(EnsureId(t, id))
    ensures SpouseSymmetric(t) ==> SpouseSymmetric(EnsureId(t, id))
  {
  }

  /** `ensureRelation` for an id already normalised: an empty entry is added at the end when missing. */
  function EnsureId(t: Relations, id: Id): (r: Relations)
    requires id != []
    ensures id in r.byId
    ensures forall x :: x != id ==> RelOf(r, x) == RelOf(t, x)
    ensures RelOf(r, id) == RelOf(t, id)
  {
    if id in t.byId then t else Relations(t.byId[id := EmptyRelation], t.order + [id])
  }

  /** `ensureRelation(personId)`: nothing happens when the id normalises to `""`. */
  function Ensure(t: Relations, raw: string): (r: Relations)
    ensures NormalizeId(raw) != [] ==> r == EnsureId(t, NormalizeId(raw))
    ensures NormalizeId(raw) == [] ==> r == t
  {
    if NormalizeId(raw) == [] then t else EnsureId(t, NormalizeId(raw))
  }

  lemma EnsureKeeps(t: Relations, raw: string)
    ensures WellFormed(t) ==> WellFormed(Ensure(t, raw))
  {
    if NormalizeId(raw) != [] {
      EnsureIdKeeps(t, NormalizeId(raw));
    }
  }

  /** Replaces the entry of an id that has one. */
  function Put(t: Relations, id: Id, rel: Relation): (r: Relations)
    requires id in t.byId
    ensures RelOf(r, id) == rel
    ensures forall x :: x != id ==> RelOf(r, x) == RelOf(t, x)
  {
    Relations(t.byId[id := rel], t.order)
  }

  /** `ensureRelation(a).spouses.add(b)`. */
  function AddOneWay(t: Relations, a: Id, b: Id): (r: Relations)
    requires a != []
    ensures forall x :: x != a ==> RelOf(r, x) == RelOf(t, x)
    ensures RelOf(r, a) == RelOf(t, a).(spouses := SetAdd(SpousesOf(t, a), b))
  {
    var t1 := EnsureId(t, a);
    Put(t1, a, RelOf(t1, a).(spouses := SetAdd(SpousesOf(t1, a), b)))
  }

  /** `ensureRelation(a).spouses.delete(b)`. */
  function RemoveOneWay(t: Relations, a: Id, b: Id): (r: Relations)
    requires a != []
    ensures forall x :: x != a ==> RelOf(r, x) == RelOf(t, x)
    ensures RelOf(r, a) == RelOf(t, a).(spouses := Without(SpousesOf(t, a), b))
  {
    var t1 := EnsureId(t, a);
    Put(t1, a, RelOf(t1, a).(spouses := Without(SpousesOf(t1, a), b)))
  }

  /** Both directions of a spouse link between two normalised, non-empty ids. */
  function AddMutual(t: Relations, a: Id, b: Id): Relations
    requires a != [] && b != []
  {
    AddOneWay(AddOneWay(t, a, b), b, a)
  }

  /** `addSpouseLink(a, b)`: nothing for an empty id or a person paired with itself. */
  function AddSpouse(t: Relations, a: string, b: string): Relations {
    var idA := NormalizeId(a);
    var idB := NormalizeId(b);
    if idA == [] || idB == [] || idA == idB then t else AddMutual(t, idA, idB)
  }

  /** Both directions of a spouse link removed, between two normalised, non-empty ids. */
  function RemoveMutual(t: Relations, a: Id, b: Id): Relations
    requires a != [] && b != []
  {
    RemoveOneWay(RemoveOneWay(t, a, b), b, a)
  }

  /** `removeSpouseLink(a, b)`: nothing for an empty id. */
  function RemoveSpouse(t: Relations, a: string, b: string): Relations {
    var idA := NormalizeId(a);
    var idB := NormalizeId(b);
    if idA == [] || idB == [] then t else RemoveMutual(t, idA, idB)
  }

  /** Replacing an entry by one without repeated spouses keeps the relations well formed. */
  lemma PutKeeps(t: Relations, id: Id, rel: Relation)
    requires id in t.byId
    ensures WellFormed(t) && Distinct(rel.spouses) ==> WellFormed(Put(t, id, rel))
  {
  }

  lemma AddOneWayKeeps(t: Relations, a: Id, b: Id)
    requires a != []
    ensures WellFormed(t) ==> WellFormed(AddOneWay(t, a, b))
  {
    var t1 := EnsureId(t, a);
    EnsureIdKeeps(t, a);
    PutKeeps(t1, a, RelOf(t1, a).(spouses := SetAdd(SpousesOf(t1, a), b)));
  }

  lemma RemoveOneWayKeeps(t: Relations, a: Id, b: Id)
    requires a != []
    ensures WellFormed(t) ==> WellFormed(RemoveOneWay(t, a, b))
  {
    var t1 := EnsureId(t, a);
    EnsureIdKeeps(t, a);
    WithoutDistinct(SpousesOf(t1, a), b);
    PutKeeps(t1, a, RelOf(t1, a).(spouses := Without(SpousesOf(t1, a), b)));
  }

  lemma AddMutualKeeps(t: Relations, a: Id, b: Id)
    requires a != [] && b != []
    ensures WellFormed(t) ==> WellFormed(AddMutual(t, a, b))
  {
    AddOneWayKeeps(t, a, b);
    AddOneWayKeeps(AddOneWay(t, a, b), b, a);
  }

  lemma RemoveMutualKeeps(t: Relations, a: Id, b: Id)
    requires a != [] && b != []
    ensures WellFormed(t) ==> WellFormed(RemoveMutual(t, a, b))
  {
    RemoveOneWayKeeps(t, a, b);
    RemoveOneWayKeeps(RemoveOneWay(t, a, b), b, a);
  }

  /** Linking two persons keeps the relations well formed. */
  lemma AddSpouseWellFormed(t: Relations, a: string, b: string)
    ensures WellFormed(t) ==> WellFormed(AddSpouse(t, a, b))
  {
    var idA := NormalizeId(a);
    var idB := NormalizeId(b);
    if idA != [] && idB != [] && idA != idB {
      AddMutualKeeps(t, idA, idB);
    }
  }

  /** Unlinking two persons keeps the relations well formed. */
  lemma RemoveSpouseWellFormed(t: Relations, a: string, b: string)
    ensures WellFormed(t) ==> WellFormed(RemoveSpouse(t, a, b))
  {
    var idA := NormalizeId(a);
    var idB := NormalizeId(b);
    if idA != [] && idB != [] {
      RemoveMutualKeeps(t, idA, idB);
    }
  }

  /**
   * A link between `a` and `b` appears in both entries; no other entry, no
   * parent and no other spouse changes.
   */
  lemma AddMutualLinks(t: Relations, a: Id, b: Id)
    requires a != [] && b != [] && a != b
    ensures b in SpousesOf(AddMutual(t, a, b), a) && a in SpousesOf(AddMutual(t, a, b), b)
    ensures SpousesOf(AddMutual(t, a, b), a) == SetAdd(SpousesOf(t, a), b)
    ensures SpousesOf(AddMutual(t, a, b), b) == SetAdd(SpousesOf(t, b), a)
    ensures forall x :: RelOf(AddMutual(t, a, b), x).fid == RelOf(t, x).fid
    ensures forall x :: RelOf(AddMutual(t, a, b), x).mid == RelOf(t, x).mid
    ensures forall x :: x != a && x != b ==> RelOf(AddMutual(t, a, b), x) == RelOf(t, x)
  {
    var t1 := AddOneWay(t, a, b);
    var r := AddOneWay(t1, b, a);
    assert r == AddMutual(t, a, b);
    assert RelOf(r, a) == RelOf(t1, a);
    assert RelOf(r, b) == RelOf(t1, b).(spouses := SetAdd(SpousesOf(t1, b), a));
    assert RelOf(t1, b) == RelOf(t, b);
  }

  /** `addSpouseLink` links both ways when the ids are non-empty and different, and does nothing otherwise. */
  lemma AddSpouseSymmetric(t: Relations, a: string, b: string)
    ensures
      var idA := NormalizeId(a);
      var idB := NormalizeId(b);
      var r := AddSpouse(t, a, b);
      (idA == [] || idB == [] || idA == idB ==> r == t) &&
      (idA != [] && idB != [] && idA != idB ==>
        idB in SpousesOf(r, idA) && idA in SpousesOf(r, idB) &&
        forall x :: x != idA && x != idB ==> RelOf(r, x) == RelOf(t, x))
  {
    var idA := NormalizeId(a);
    var idB := NormalizeId(b);
    if idA != [] && idB != [] && idA != idB {
      AddMutualLinks(t, idA, idB);
    }
  }

  /** Unlinking drops `b` from `a`'s spouses and `a` from `b`'s, and changes nothing else. */
  lemma RemoveMutualUnlinks(t: Relations, a: Id, b: Id)
    requires a != [] && b != []
    ensures a != b ==> SpousesOf(RemoveMutual(t, a, b), a) == Without(SpousesOf(t, a), b)
    ensures a != b ==> SpousesOf(RemoveMutual(t, a, b), b) == Without(SpousesOf(t, b), a)
    ensures a == b ==> SpousesOf(RemoveMutual(t, a, b), a) == Without(Without(SpousesOf(t, a), a), a)
    ensures forall x :: RelOf(RemoveMutual(t, a, b), x).fid == RelOf(t, x).fid
    ensures forall x :: RelOf(RemoveMutual(t, a, b), x).mid == RelOf(t, x).mid
    ensures forall x :: x != a && x != b ==> RelOf(RemoveMutual(t, a, b), x) == RelOf(t, x)
  {
    var t1 := RemoveOneWay(t, a, b);
    var r := RemoveOneWay(t1, b, a);
    assert r == RemoveMutual(t, a, b);
    assert RelOf(r, b) == RelOf(t1, b).(spouses := Without(SpousesOf(t1, b), a));
    if a != b {
      assert RelOf(r, a) == RelOf(t1, a);
      assert RelOf(t1, b) == RelOf(t, b);
    }
  }

  /** `removeSpouseLink` unlinks both ways and leaves every other entry alone. */
  lemma RemoveSpouseUnlinks(t: Relations, a: string, b: string)
    ensures
      var idA := NormalizeId(a);
      var idB := NormalizeId(b);
      var r := RemoveSpouse(t, a, b);
      (idA == [] || idB == [] ==> r == t) &&
      (idA != [] && idB != [] ==>
        idB !in SpousesOf(r, idA) && idA !in SpousesOf(r, idB) &&
        forall x :: x != idA && x != idB ==> RelOf(r, x) == RelOf(t, x))
  {
    var idA := NormalizeId(a);
    var idB := NormalizeId(b);
    if idA != [] && idB != [] {
      RemoveMutualUnlinks(t, idA, idB);
    }
  }

  /** Linking two persons that were not linked and unlinking them again restores every spouse set. */
  lemma RemoveUndoesAdd(t: Relations, a: string, b: string)
    requires NormalizeId(a) !in SpousesOf(t, NormalizeId(b)) && NormalizeId(b) !in SpousesOf(t, NormalizeId(a))
    ensures forall x :: SpousesOf(RemoveSpouse(AddSpouse(t, a, b), a, b), x) == SpousesOf(t, x)
  {
    var idA := NormalizeId(a);
    var idB := NormalizeId(b);
    if idA != [] && idB != [] && idA != idB {
      assert RemoveSpouse(AddSpouse(t, a, b), a, b) == RemoveMutual(AddMutual(t, idA, idB), idA, idB);
      RemoveMutualUndoesAdd(t, idA, idB);
    } else if idA != [] && idB != [] {
      assert RemoveSpouse(AddSpouse(t, a, b), a, b) == RemoveMutual(t, idA, idA);
      RemoveMutualUnlinks(t, idA, idA);
      WithoutAbsent(SpousesOf(t, idA), idA);
    }
  }

  lemma RemoveMutualUndoesAdd(t: Relations, a: Id, b: Id)
    requires a != [] && b != [] && a != b && a !in SpousesOf(t, b) && b !in SpousesOf(t, a)
    ensures forall x :: SpousesOf(RemoveMutual(AddMutual(t, a, b), a, b), x) == SpousesOf(t, x)
  {
    var t1 := AddMutual(t, a, b);
    var r := RemoveMutual(t1, a, b);
    AddMutualLinks(t, a, b);
    RemoveMutualUnlinks(t1, a, b);
    WithoutSnoc(SpousesOf(t, a), b);
    WithoutSnoc(SpousesOf(t, b), a);
    forall x ensures SpousesOf(r, x) == SpousesOf(t, x) {
      if x != a && x != b {
        assert RelOf(r, x) == RelOf(t1, x) == RelOf(t, x);
      }
    }
  }

  lemma WithoutAbsent(s: seq<Id>, x: Id)
    requires x !in s
    ensures Without(s, x) == s
  {
  }

  /** Adding a link between two different persons keeps every link mirrored. */
  lemma AddMutualKeepsSymmetry(t: Relations, a: Id, b: Id)
    requires a != [] && b != [] && a != b && SpouseSymmetric(t)
    ensures SpouseSymmetric(AddMutual(t, a, b))
  {
    AddMutualLinks(t, a, b);
    var r := AddMutual(t, a, b);
    forall x, y | x in r.byId && y in r.byId[x].spouses ensures y in r.byId && x in r.byId[y].spouses {
      assert y in SpousesOf(r, x);
      if x == a || x == b || y == a || y == b {
        assert x in t.byId || x == a || x == b;
      } else {
        assert y in SpousesOf(t, x);
      }
    }
  }

  /** `addSpouseLink` keeps every link mirrored. */
  lemma AddSpouseKeepsSymmetry(t: Relations, a: string, b: string)
    requires SpouseSymmetric(t)
    ensures SpouseSymmetric(AddSpouse(t, a, b))
  {
    var idA := NormalizeId(a);
    var idB := NormalizeId(b);
    if idA != [] && idB != [] && idA != idB {
      AddMutualKeepsSymmetry(t, idA, idB);
    }
  }

  /** `removeSpouseLink` keeps every link mirrored. */
  lemma RemoveSpouseKeepsSymmetry(t: Relations, a: string, b: string)
    requires SpouseSymmetric(t)
    ensures SpouseSymmetric(RemoveSpouse(t, a, b))
  {
    var idA := NormalizeId(a);
    var idB := NormalizeId(b);
    if idA != [] && idB != [] {
      var r := RemoveMutual(t, idA, idB);
      RemoveMutualUnlinks(t, idA, idB);
      forall x, y | x in r.byId && y in r.byId[x].spouses ensures y in r.byId && x in r.byId[y].spouses {
        assert y in SpousesOf(r, x);
        assert y in SpousesOf(t, x) by {
          if x == idA || x == idB {
          }
        }
        assert x in SpousesOf(t, y);
        assert x !in SpousesOf(r, y) ==> (x == idA && y == idB) || (x == idB && y == idA);
      }
    }
  }

  // ---------------------------------------------------------------------
  // removeSelectedPerson

  /** One entry after person `id` is deleted: parent links to it cleared, spouse link dropped. */
  function Unlink(rel: Relation, id: Id): (r: Relation)
    ensures r.fid != id || (id == [] && r.fid == [])
    ensures r.mid != id || (id == [] && r.mid == [])
    ensures id !in r.spouses
  {
    Relation(if rel.fid == id then "" else rel.fid, if rel.mid == id then "" else rel.mid, Without(rel.spouses, id))
  }

  /** The relations once person `id` is deleted: its entry gone and every reference to it cleared. */
  function Detach(t: Relations, id: Id): (r: Relations)
    ensures id !in r.byId
    ensures forall x :: x in r.byId <==> x in t.byId && x != id
    ensures forall x :: x in r.byId ==> r.byId[x] == Unlink(t.byId[x], id)
  {
    Relations(map x | x in t.byId && x != id :: Unlink(t.byId[x], id), Without(t.order, id))
  }

  /** Deleting a person keeps the relations well formed. */
  lemma DetachWellFormed(t: Relations, id: Id)
    requires WellFormed(t)
    ensures WellFormed(Detach(t, id))
  {
    WithoutDistinct(t.order, id);
    forall x | x in t.byId {
      WithoutDistinct(t.byId[x].spouses, id);
    }
  }

  /** After a deletion no entry names the deleted person as father, mother or spouse. */
  lemma DetachLeavesNoReference(t: Relations, id: Id)
    requires id != []
    ensures forall x :: x in Detach(t, id).byId ==>
      Detach(t, id).byId[x].fid != id && Detach(t, id).byId[x].mid != id && id !in Detach(t, id).byId[x].spouses
  {
  }

  /** Deleting a person keeps every remaining link mirrored. */
  lemma DetachKeepsSymmetry(t: Relations, id: Id)
    requires SpouseSymmetric(t)
    ensures SpouseSymmetric(Detach(t, id))
  {
    var r := Detach(t, id);
    assert forall x :: x in r.byId ==> r.byId[x].spouses == Without(t.byId[x].spouses, id);
    UnlinkedSymmetric(t, r, id);
  }

  /** Entries that only lost `id` from their spouses, `id`'s own entry dropped, stay mirrored. */
  lemma UnlinkedSymmetric(t: Relations, r: Relations, id: Id)
    requires SpouseSymmetric(t)
    requires forall x :: x in r.byId <==> x in t.byId && x != id
    requires forall x :: x in r.byId ==> r.byId[x].spouses == Without(t.byId[x].spouses, id)
    ensures SpouseSymmetric(r)
  {
    forall x, y | x in r.byId && y in r.byId[x].spouses ensures y in r.byId && x in r.byId[y].spouses {
      UnlinkedPair(t, x, y, id);
    }
  }

  lemma UnlinkedPair(t: Relations, x: Id, y: Id, id: Id)
    requires SpouseSymmetric(t)
    requires x in t.byId && x != id && y in Without(t.byId[x].spouses, id)
    ensures y in t.byId && y != id && x in Without(t.byId[y].spouses, id)
  {
    assert y in t.byId[x].spouses;
  }

  // ---------------------------------------------------------------------
  // getChildrenOf

  /** The ids in `order` whose entry names `id` as father or mother. */
  function ChildIds(t: Relations, order: seq<Id>, id: Id): (r: seq<Id>)
    ensures forall x :: x in r <==> x in order && (RelOf(t, x).fid == id || RelOf(t, x).mid == id)
    ensures Distinct(order) ==> Distinct(r)
  {
    if order == [] then []
    else
      var rest := ChildIds(t, order[1..], id);
      assert forall x :: x in order <==> x == order[0] || x in order[1..];
      if RelOf(t, order[0]).fid == id || RelOf(t, order[0]).mid == id then [order[0]] + rest else rest
  }

  /** `getChildrenOf(personId)`: the ids whose father or mother is the person, in ordinal order. */
  function ChildrenOf(t: Relations, personId: string): (r: seq<Id>)
    requires WellFormed(t)
    ensures forall x :: x in r <==>
      (x in t.byId && (t.byId[x].fid == NormalizeId(personId) || t.byId[x].mid == NormalizeId(personId)))
    ensures forall i, j :: 0 <= i < j < |r| ==> Below(r[i], r[j])
  {
    var ids := ChildIds(t, t.order, NormalizeId(personId));
    SortDistinct(ids);
    var r := SortStrings(ids);
    assert forall x :: x in r <==> x in multiset(r);
    assert forall x :: x in ids <==> x in multiset(ids);
    r
  }

  // ---------------------------------------------------------------------
  // buildRelationsFromFamilies

  /** A parent field of an entry: the father when `father` holds, else the mother. */
  function ParentOf(rel: Relation, father: bool): Id {
    if father then rel.fid else rel.mid
  }

  /** The husband (when `father` holds) or the wife of a family, normalised. */
  function PartnerOf(fam: Family, father: bool): Id {
    NormalizeId(if father then fam.husbandId else fam.wifeId)
  }

  /** Some entry of a children list normalises to `c`. */
  predicate Lists(children: seq<Id>, c: Id) {
    exists k :: 0 <= k < |children| && NormalizeId(children[k]) == c
  }

  /** The family lists `c` among its children and has the parent in question. */
  predicate ParentSource(fam: Family, c: Id, father: bool) {
    PartnerOf(fam, father) != [] && Lists(fam.children, c)
  }

  /** The family makes `x` and `y` spouses: both partners present and the pair is theirs. */
  predicate CoupleOf(fam: Family, x: Id, y: Id) {
    var h := NormalizeId(fam.husbandId);
    var w := NormalizeId(fam.wifeId);
    h != [] && w != [] && ((x == h && y == w) || (x == w && y == h))
  }

  /** The first loop: an entry for every person, in the order of the persons. */
  function EnsureAll(t: Relations, persons: seq<PersonRow>): (r: Relations)
    ensures forall x :: RelOf(r, x) == RelOf(t, x)
  {
    if persons == [] then t
    else Ensure(EnsureAll(t, persons[..|persons| - 1]), persons[|persons| - 1].personId)
  }

  /** One step of the children loop for the normalised child id `c`: the family's non-empty husband and wife become its parents. */
  function ImportChild(t: Relations, hid: Id, wid: Id, c: Id): (r: Relations)
  {
    if c == [] then t
    else
      var t1 := EnsureId(t, c);
      var rel := RelOf(t1, c);
      var rel1 := if hid != [] then rel.(fid := hid) else rel;
      Put(t1, c, if wid != [] then rel1.(mid := wid) else rel1)
  }

  /** The children loop of one family. */
  function ImportChildren(t: Relations, hid: Id, wid: Id, children: seq<Id>): (r: Relations)
  {
    if children == [] then t
    else ImportChild(ImportChildren(t, hid, wid, children[..|children| - 1]), hid, wid, NormalizeId(children[|children| - 1]))
  }

  /** One family: its couple linked both ways when both partners are present, then its children. */
  function ImportFamily(t: Relations, fam: Family): (r: Relations)
  {
    var hid := NormalizeId(fam.husbandId);
    var wid := NormalizeId(fam.wifeId);
    var linked := if hid != [] && wid != [] then AddMutual(t, hid, wid) else t;
    ImportChildren(linked, hid, wid, fam.children)
  }

  /** The family loop. */
  function ImportFamilies(t: Relations, families: seq<Family>): (r: Relations)
  {
    if families == [] then t
    else ImportFamily(ImportFamilies(t, families[..|families| - 1]), families[|families| - 1])
  }

  /** `buildRelationsFromFamilies`: the map cleared, an entry per person, then every family imported. */
  function BuildRelations(persons: seq<PersonRow>, families: seq<Family>): Relations
  {
    ImportFamilies(EnsureAll(NoRelations, persons), families)
  }

  lemma {:induction false} EnsureAllKeys(t: Relations, persons: seq<PersonRow>)
    ensures forall x :: x in t.byId ==> x in EnsureAll(t, persons).byId
    ensures forall i :: 0 <= i < |persons| && NormalizeId(persons[i].personId) != [] ==>
      NormalizeId(persons[i].personId) in EnsureAll(t, persons).byId
  {
    if persons != [] {
      var init := persons[..|persons| - 1];
      var prev := EnsureAll(t, init);
      var r := Ensure(prev, persons[|persons| - 1].personId);
      assert EnsureAll(t, persons) == r;
      EnsureAllKeys(t, init);
      assert forall x :: x in prev.byId ==> x in r.byId;
      forall i | 0 <= i < |persons| && NormalizeId(persons[i].personId) != []
        ensures NormalizeId(persons[i].personId) in r.byId
      {
        if i < |persons| - 1 {
          assert persons[i] == init[i];
        }
      }
    }
  }

  lemma {:induction false} EnsureAllWellFormed(t: Relations, persons: seq<PersonRow>)
    requires WellFormed(t)
    ensures WellFormed(EnsureAll(t, persons))
  {
    if persons != [] {
      EnsureAllWellFormed(t, persons[..|persons| - 1]);
      EnsureKeeps(EnsureAll(t, persons[..|persons| - 1]), persons[|persons| - 1].personId);
    }
  }

  lemma ImportChildKeys(t: Relations, hid: Id, wid: Id, c: Id)
    ensures forall x :: x in t.byId ==> x in ImportChild(t, hid, wid, c).byId
    ensures WellFormed(t) ==> WellFormed(ImportChild(t, hid, wid, c))
  {
  }

  lemma {:induction false} ImportChildrenKeys(t: Relations, hid: Id, wid: Id, children: seq<Id>)
    ensures forall x :: x in t.byId ==> x in ImportChildren(t, hid, wid, children).byId
    ensures WellFormed(t) ==> WellFormed(ImportChildren(t, hid, wid, children))
  {
    if children != [] {
      var init := children[..|children| - 1];
      ImportChildrenKeys(t, hid, wid, init);
      ImportChildKeys(ImportChildren(t, hid, wid, init), hid, wid, NormalizeId(children[|children| - 1]));
    }
  }

  lemma {:induction false} ImportFamiliesKeys(t: Relations, families: seq<Family>)
    ensures forall x :: x in t.byId ==> x in ImportFamilies(t, families).byId
    ensures WellFormed(t) ==> WellFormed(ImportFamilies(t, families))
  {
    if families != [] {
      var init := families[..|families| - 1];
      var fam := families[|families| - 1];
      ImportFamiliesKeys(t, init);
      var prev := ImportFamilies(t, init);
      var hid := NormalizeId(fam.husbandId);
      var wid := NormalizeId(fam.wifeId);
      if hid != [] && wid != [] {
        AddMutualKeys(prev, hid, wid);
        AddMutualKeeps(prev, hid, wid);
      }
      ImportChildrenKeys(if hid != [] && wid != [] then AddMutual(prev, hid, wid) else prev, hid, wid, fam.children);
    }
  }

  lemma AddMutualKeys(t: Relations, a: Id, b: Id)
    requires a != [] && b != []
    ensures forall x :: x in t.byId ==> x in AddMutual(t, a, b).byId
  {
    var t1 := AddOneWay(t, a, b);
    assert forall x :: x in t.byId ==> x in t1.byId;
  }

  /** The built relations are well formed and give every person an entry. */
  lemma BuildRelationsKeys(persons: seq<PersonRow>, families: seq<Family>)
    ensures WellFormed(BuildRelations(persons, families))
    ensures forall i :: 0 <= i < |persons| && NormalizeId(persons[i].personId) != [] ==>
      NormalizeId(persons[i].personId) in BuildRelations(persons, families).byId
  {
    EnsureAllKeys(NoRelations, persons);
    EnsureAllWellFormed(NoRelations, persons);
    ImportFamiliesKeys(EnsureAll(NoRelations, persons), families);
  }

  /** The parent `ImportChild` would give: the family's partner when present, else what was there. */
  function Given(partner: Id, old_: Id): Id {
    if partner != [] then partner else old_
  }

  /** Importing a child leaves every spouse set as it was and sets only that child's parents. */
  lemma ImportChildEffect(t: Relations, hid: Id, wid: Id, c: Id, x: Id)
    ensures SpousesOf(ImportChild(t, hid, wid, c), x) == SpousesOf(t, x)
    ensures x == c && c != [] ==> RelOf(ImportChild(t, hid, wid, c), x).fid == Given(hid, RelOf(t, x).fid)
    ensures x == c && c != [] ==> RelOf(ImportChild(t, hid, wid, c), x).mid == Given(wid, RelOf(t, x).mid)
    ensures x != c || c == [] ==> RelOf(ImportChild(t, hid, wid, c), x) == RelOf(t, x)
  {
  }

  /** Importing a children list sets the parents of exactly the listed children. */
  lemma {:induction false} ImportChildrenEffect(t: Relations, hid: Id, wid: Id, children: seq<Id>, x: Id)
    ensures SpousesOf(ImportChildren(t, hid, wid, children), x) == SpousesOf(t, x)
    ensures x != [] && Lists(children, x) ==> RelOf(ImportChildren(t, hid, wid, children), x).fid == Given(hid, RelOf(t, x).fid)
    ensures x != [] && Lists(children, x) ==> RelOf(ImportChildren(t, hid, wid, children), x).mid == Given(wid, RelOf(t, x).mid)
    ensures x == [] || !Lists(children, x) ==> RelOf(ImportChildren(t, hid, wid, children), x) == RelOf(t, x)
  {
    if children != [] {
      var init := children[..|children| - 1];
      var c := NormalizeId(children[|children| - 1]);
      var prev := ImportChildren(t, hid, wid, init);
      ImportChildrenEffect(t, hid, wid, init, x);
      ImportChildEffect(prev, hid, wid, c, x);
      ListsSnoc(children, x);
    }
  }

  lemma ListsSnoc(children: seq<Id>, x: Id)
    requires children != []
    ensures Lists(children, x) <==> Lists(children[..|children| - 1], x) || NormalizeId(children[|children| - 1]) == x
  {
    var init := children[..|children| - 1];
    if Lists(children, x) {
      var k :| 0 <= k < |children| && NormalizeId(children[k]) == x;
      if k < |children| - 1 {
        assert init[k] == children[k];
      }
    }
    if Lists(init, x) {
      var k :| 0 <= k < |init| && NormalizeId(init[k]) == x;
      assert children[k] == init[k];
    }
  }

  /** Linking a couple changes spouse sets only and adds exactly the couple's link. */
  lemma LinkCoupleEffect(t: Relations, a: Id, b: Id, x: Id, y: Id)
    requires a != [] && b != []
    ensures RelOf(AddMutual(t, a, b), x).fid == RelOf(t, x).fid
    ensures RelOf(AddMutual(t, a, b), x).mid == RelOf(t, x).mid
    ensures y in SpousesOf(AddMutual(t, a, b), x) <==> y in SpousesOf(t, x) || (x == a && y == b) || (x == b && y == a)
  {
    var t1 := AddOneWay(t, a, b);
    var r := AddOneWay(t1, b, a);
    assert r == AddMutual(t, a, b);
    assert RelOf(t1, x).fid == RelOf(t, x).fid && RelOf(t1, x).mid == RelOf(t, x).mid;
    assert y in SpousesOf(t1, x) <==> y in SpousesOf(t, x) || (x == a && y == b);
  }

  /** One family: its couple's link added and its listed children given that family's parents. */
  lemma ImportFamilyEffect(t: Relations, fam: Family, x: Id, y: Id, father: bool)
    ensures x != [] && ParentSource(fam, x, father) ==>
      ParentOf(RelOf(ImportFamily(t, fam), x), father) == PartnerOf(fam, father)
    ensures !(x != [] && ParentSource(fam, x, father)) ==>
      ParentOf(RelOf(ImportFamily(t, fam), x), father) == ParentOf(RelOf(t, x), father)
    ensures y in SpousesOf(ImportFamily(t, fam), x) <==> y in SpousesOf(t, x) || CoupleOf(fam, x, y)
  {
    var hid := NormalizeId(fam.husbandId);
    var wid := NormalizeId(fam.wifeId);
    var linked := if hid != [] && wid != [] then AddMutual(t, hid, wid) else t;
    if hid != [] && wid != [] {
      LinkCoupleEffect(t, hid, wid, x, y);
    }
    assert ImportFamily(t, fam) == ImportChildren(linked, hid, wid, fam.children);
    ImportChildrenEffect(linked, hid, wid, fam.children, x);
  }

  /** Whether a family is a source for the parent in question of `c`. */
  function SourceFor(c: Id, father: bool): Family -> bool {
    (fam: Family) => ParentSource(fam, c, father)
  }

  /** The parent in question a family gives. */
  function PartnerFor(father: bool): Family -> Id {
    (fam: Family) => PartnerOf(fam, father)
  }

  /** Some element of `s` satisfies `src`. */
  ghost predicate SomeWith<T>(s: seq<T>, src: T -> bool) {
    exists i :: 0 <= i < |s| && src(s[i])
  }

  /** `p` is the value `val` gives the last element of `s` that satisfies `src`. */
  ghost predicate LastWith<T, U>(s: seq<T>, src: T -> bool, val: T -> U, p: U) {
    exists i :: 0 <= i < |s| && src(s[i]) && p == val(s[i]) && forall j :: i < j < |s| ==> !src(s[j])
  }

  /** The parent a list of families gives `c`: the partner of the last family that is a source for it. */
  ghost predicate LastSource(families: seq<Family>, c: Id, father: bool, p: Id) {
    LastWith(families, SourceFor(c, father), PartnerFor(father), p)
  }

  /** The family loop: each parent comes from the last family listing the child with that parent. */
  lemma ImportFamiliesParents(t: Relations, families: seq<Family>, c: Id, father: bool)
    requires c != []
    ensures (forall i :: 0 <= i < |families| ==> !ParentSource(families[i], c, father)) ==>
      ParentOf(RelOf(ImportFamilies(t, families), c), father) == ParentOf(RelOf(t, c), father)
    ensures (exists i :: 0 <= i < |families| && ParentSource(families[i], c, father)) ==>
      LastSource(families, c, father, ParentOf(RelOf(ImportFamilies(t, families), c), father))
  {
    var src := SourceFor(c, father);
    if SomeWith(families, src) {
      ImportFamiliesLast(t, families, c, father);
    } else {
      ImportFamiliesNone(t, families, c, father);
    }
  }

  /** Without a family that is a source for `c`, the family loop leaves that parent of `c` alone. */
  lemma {:induction false} ImportFamiliesNone(t: Relations, families: seq<Family>, c: Id, father: bool)
    requires c != [] && !SomeWith(families, SourceFor(c, father))
    ensures ParentOf(RelOf(ImportFamilies(t, families), c), father) == ParentOf(RelOf(t, c), father)
  {
    if families != [] {
      var init := families[..|families| - 1];
      var src := SourceFor(c, father);
      assert !src(families[|families| - 1]);
      SomeWithSnoc(families, init, src);
      ImportFamiliesNone(t, init, c, father);
      ImportFamilyEffect(ImportFamilies(t, init), families[|families| - 1], c, c, father);
    }
  }

  /** With a family that is a source for `c`, the family loop gives `c` the partner of the last such family. */
  lemma {:induction false} ImportFamiliesLast(t: Relations, families: seq<Family>, c: Id, father: bool)
    requires c != [] && SomeWith(families, SourceFor(c, father))
    ensures LastWith(families, SourceFor(c, father), PartnerFor(father), ParentOf(RelOf(ImportFamilies(t, families), c), father))
  {
    var init := families[..|families| - 1];
    var last := families[|families| - 1];
    var src := SourceFor(c, father);
    var prev := ImportFamilies(t, init);
    ImportFamilyEffect(prev, last, c, c, father);
    if src(last) {
      LastWithLast(families, src, PartnerFor(father));
    } else {
      SomeWithSnoc(families, init, src);
      ImportFamiliesLast(t, init, c, father);
      LastWithKept(families, init, src, PartnerFor(father), ParentOf(RelOf(prev, c), father));
    }
  }

  /** A last element satisfying `src` is the last one that does. */
  lemma LastWithLast<T, U>(s: seq<T>, src: T -> bool, val: T -> U)
    requires s != [] && src(s[|s| - 1])
    ensures LastWith(s, src, val, val(s[|s| - 1]))
  {
    var i := |s| - 1;
    assert src(s[i]) && val(s[|s| - 1]) == val(s[i]);
  }

  /** Some element satisfies `src` exactly when an earlier one or the last one does. */
  lemma SomeWithSnoc<T>(s: seq<T>, init: seq<T>, src: T -> bool)
    requires s != [] && init == s[..|s| - 1]
    ensures SomeWith(s, src) <==> SomeWith(init, src) || src(s[|s| - 1])
  {
    if SomeWith(s, src) && !src(s[|s| - 1]) {
      var i :| 0 <= i < |s| && src(s[i]);
      assert s[i] == init[i];
    }
    if SomeWith(init, src) {
      var i :| 0 <= i < |init| && src(init[i]);
      assert s[i] == init[i];
    }
  }

  /** When the last element fails `src`, the last element satisfying it is the one among the earlier ones. */
  lemma LastWithKept<T, U>(s: seq<T>, init: seq<T>, src: T -> bool, val: T -> U, p: U)
    requires s != [] && init == s[..|s| - 1] && !src(s[|s| - 1])
    requires LastWith(init, src, val, p)
    ensures LastWith(s, src, val, p)
  {
    var i :| 0 <= i < |init| && src(init[i]) && p == val(init[i]) && forall j :: i < j < |init| ==> !src(init[j]);
    assert s[i] == init[i];
    forall j | i < j < |s| ensures !src(s[j]) {
      if j < |s| - 1 {
        assert s[j] == init[j];
      }
    }
  }

  /** The family loop: a spouse link is a prior link or the couple of some family. */
  lemma ImportFamiliesSpouses(t: Relations, families: seq<Family>, x: Id, y: Id)
    ensures y in SpousesOf(ImportFamilies(t, families), x) <==>
      y in SpousesOf(t, x) || exists i :: 0 <= i < |families| && CoupleOf(families[i], x, y)
  {
    ImportFamiliesCouples(t, families, x, y);
    if SomeWith(families, CoupleFor(x, y)) {
      var i :| 0 <= i < |families| && CoupleFor(x, y)(families[i]);
      assert CoupleOf(families[i], x, y);
    }
  }

  /** Whether a family makes `x` and `y` spouses. */
  function CoupleFor(x: Id, y: Id): Family -> bool {
    (fam: Family) => CoupleOf(fam, x, y)
  }

  lemma {:induction false} ImportFamiliesCouples(t: Relations, families: seq<Family>, x: Id, y: Id)
    ensures y in SpousesOf(ImportFamilies(t, families), x) <==> y in SpousesOf(t, x) || SomeWith(families, CoupleFor(x, y))
  {
    if families != [] {
      var init := families[..|families| - 1];
      ImportFamiliesCouples(t, init, x, y);
      ImportFamilyEffect(ImportFamilies(t, init), families[|families| - 1], x, y, true);
      SomeWithSnoc(families, init, CoupleFor(x, y));
    }
  }

  /**
   * What `buildRelationsFromFamilies` yields: every person has an entry;
   * two ids are spouses exactly when some family pairs them; a child's
   * father (mother) is unset when no family lists it with a husband (wife),
   * and otherwise is the husband (wife) of the last family that does.
   */
  lemma BuildRelationsMeaning(persons: seq<PersonRow>, families: seq<Family>, c: Id, x: Id, y: Id, father: bool)
    requires c != []
    ensures y in SpousesOf(BuildRelations(persons, families), x) <==>
      exists i :: 0 <= i < |families| && CoupleOf(families[i], x, y)
    ensures (forall i :: 0 <= i < |families| ==> !ParentSource(families[i], c, father)) ==>
      ParentOf(RelOf(BuildRelations(persons, families), c), father) == ""
    ensures (exists i :: 0 <= i < |families| && ParentSource(families[i], c, father)) ==>
      LastSource(families, c, father, ParentOf(RelOf(BuildRelations(persons, families), c), father))
  {
    BuildRelationsKeys(persons, families);
    var base := EnsureAll(NoRelations, persons);
    assert RelOf(base, c) == EmptyRelation && SpousesOf(base, x) == [];
    ImportFamiliesSpouses(base, families, x, y);
    ImportFamiliesParents(base, families, c, father);
  }

  /** The relations built from families keep every spouse link mirrored. */
  lemma BuildRelationsSymmetric(persons: seq<PersonRow>, families: seq<Family>)
    ensures SpouseSymmetric(BuildRelations(persons, families))
  {
    var r := BuildRelations(persons, families);
    BuildRelationsKeys(persons, families);
    forall x, y | x in r.byId && y in r.byId[x].spouses ensures y in r.byId && x in r.byId[y].spouses {
      assert y in SpousesOf(r, x);
      BuildRelationsMeaning(persons, families, "I", x, y, true);
      BuildRelationsMeaning(persons, families, "I", y, x, true);
      var i :| 0 <= i < |families| && CoupleOf(families[i], x, y);
      assert CoupleOf(families[i], y, x);
      assert x in SpousesOf(r, y);
    }
  }
}
