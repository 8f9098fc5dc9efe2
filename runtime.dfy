/**
 * `buildRuntimePeopleMap` and `syncRuntimeMapsFromDraft`: the draft turned
 * into the runtime person graph that the tree view and the relationship
 * engine read, so edits in the draft store show up in the viewer.
 */
module DraftRuntime {
  import opened Text
  import opened Sorting
  import opened DraftData
  import opened DraftRelations
  import G = Genealogy

  /** The trimmed given name and surname joined by a space, or the id when both are empty. */
  function FullName(p: PersonRow, id: Id): (r: string)
    ensures id != [] ==> r != []
  {
    var n := Trim(Trim(p.givenName) + " " + Trim(p.surname));
    if n == [] then id else n
  }

  /** The spouse ids that name an existing person, sorted. */
  function SpouseList(persons: seq<PersonRow>, rel: Relation): (r: seq<Id>)
    ensures forall s :: s in r <==> s in rel.spouses && HasPerson(persons, s)
    ensures forall i, j :: 0 <= i < j < |r| ==> AtMost(r[i], r[j])
  {
    var kept := Filter(rel.spouses, (s: Id) => HasPerson(persons, s));
    var r := SortStrings(kept);
    assert forall s :: s in r <==> s in multiset(kept);
    r
  }

  /** The runtime record of the row `p`, whose normalised id is `id`; `t` already has an entry for it. */
  function RuntimePerson(persons: seq<PersonRow>, t: Relations, photos: map<Id, string>, id: Id, p: PersonRow): (r: G.Person)
    ensures r.id == id
  {
    var rel := RelOf(t, id);
    G.Person(id, FullName(p, id), rel.fid, rel.mid, SpouseList(persons, rel), Trim(p.birthDate), Trim(PhotoOf(photos, id)))
  }

  /** The records `rec` builds from the rows, in row order, given their normalised ids. */
  function Records(rec: (Id, PersonRow) -> G.Person, ids: seq<Id>, rows: seq<PersonRow>): (r: seq<G.Person>)
    requires |ids| == |rows|
    ensures |r| == |rows| && forall i :: 0 <= i < |rows| ==> r[i] == rec(ids[i], rows[i])
  {
    seq(|rows|, i requires 0 <= i < |rows| => rec(ids[i], rows[i]))
  }

  /** The `out` map of `buildRuntimePeopleMap` over the records so far: keyed by id, skipping empty ids, a later record winning. */
  function PeopleMap(recs: seq<G.Person>): (r: map<Id, G.Person>)
    ensures forall id :: id in r <==> id != [] && exists i :: 0 <= i < |recs| && recs[i].id == id
    ensures forall id :: id in r ==> r[id].id == id && r[id] in recs
  {
    if recs == [] then map[]
    else
      var init := recs[..|recs| - 1];
      var p := recs[|recs| - 1];
      var prev := PeopleMap(init);
      assert forall i :: 0 <= i < |init| ==> init[i] == recs[i];
      if p.id == [] then prev else prev[p.id := p]
  }

  /** `childrenMap.get(parent).push(child)`, creating the list when missing. */
  function Push(children: map<Id, seq<Id>>, parent: Id, child: Id): (r: map<Id, seq<Id>>)
    ensures parent in r && r[parent] == (if parent in children then children[parent] else []) + [child]
    ensures forall x :: x != parent ==> (x in r <==> x in children) && (x in children ==> r[x] == children[x])
  {
    children[parent := (if parent in children then children[parent] else []) + [child]]
  }

  /** Does `parent` name a person of the runtime map? */
  predicate Known(people: map<Id, G.Person>, parent: Id) {
    parent != [] && parent in people
  }

  /** One entry of the relations walk: the child listed under each parent that is a runtime person. */
  function FileChild(people: map<Id, G.Person>, t: Relations, children: map<Id, seq<Id>>, c: Id): map<Id, seq<Id>> {
    if c !in people then children
    else
      var rel := RelOf(t, c);
      var m := if Known(people, rel.fid) then Push(children, rel.fid, c) else children;
      if Known(people, rel.mid) then Push(m, rel.mid, c) else m
  }

  /** The `childrenMap` loop over the relation entries `ids`. */
  function ChildrenMap(people: map<Id, G.Person>, t: Relations, ids: seq<Id>): map<Id, seq<Id>> {
    if ids == [] then map[] else FileChild(people, t, ChildrenMap(people, t, ids[..|ids| - 1]), ids[|ids| - 1])
  }

  /** The gender a sex code gives, when it gives one. */
  function GenderOf(sex: string): Option<G.Gender> {
    if sex == "M" then Some(G.Male) else if sex == "F" then Some(G.Female) else None
  }

  /** Each row's normalised id with the gender its upper-cased sex gives. */
  function SexCodes(persons: seq<PersonRow>): (r: seq<(Id, Option<G.Gender>)>)
    ensures |r| == |persons| && forall i :: 0 <= i < |persons| ==> r[i] == (NormalizeId(persons[i].personId), GenderOf(ToUpper(persons[i].sex)))
  {
    MapSeq(persons, (p: PersonRow) => (NormalizeId(p.personId), GenderOf(ToUpper(p.sex))))
  }

  /** The `genderMap` loop over the codes so far; a later row with the same id wins. */
  function GenderMap(codes: seq<(Id, Option<G.Gender>)>): (r: map<Id, G.Gender>)
    ensures forall id :: id in r ==> (id != [] && (id, Some(r[id])) in codes)
  {
    if codes == [] then map[]
    else
      var init := codes[..|codes| - 1];
      var (id, gender) := codes[|codes| - 1];
      var prev := GenderMap(init);
      assert forall x :: x in init ==> x in codes;
      if id != [] && gender.Some? then prev[id := gender.value] else prev
  }

  /** `window.peopleMap` after the sync. */
  function RuntimePeople(persons: seq<PersonRow>, t: Relations, photos: map<Id, string>): map<Id, G.Person> {
    PeopleMap(Records((id: Id, p: PersonRow) => RuntimePerson(persons, t, photos, id, p), RowIds(persons), persons))
  }

  /** `window.genderMap` after the sync. */
  function RuntimeGenders(persons: seq<PersonRow>): map<Id, G.Gender> {
    GenderMap(SexCodes(persons))
  }

  /** The three runtime maps, from relations that already hold an entry for every person. */
  function RuntimeGraph(persons: seq<PersonRow>, t: Relations, photos: map<Id, string>): G.Graph {
    var people := RuntimePeople(persons, t, photos);
    G.Graph(people, ChildrenMap(people, t, t.order), RuntimeGenders(persons))
  }

  // ---------------------------------------------------------------------

  /** A person's children list in the runtime map holds exactly the walked entries naming it as a parent. */
  lemma {:induction false} ChildrenMapMeaning(people: map<Id, G.Person>, t: Relations, ids: seq<Id>, p: Id, c: Id)
    ensures c in (if p in ChildrenMap(people, t, ids) then ChildrenMap(people, t, ids)[p] else []) <==>
      c in ids && c in people && Known(people, p) && (RelOf(t, c).fid == p || RelOf(t, c).mid == p)
  {
    if ids != [] {
      var init := ids[..|ids| - 1];
      var last := ids[|ids| - 1];
      var prev := ChildrenMap(people, t, init);
      ChildrenMapMeaning(people, t, init, p, c);
      assert forall x :: x in ids <==> x in init || x == last;
      var rel := RelOf(t, last);
      if last in people {
        var m := if Known(people, rel.fid) then Push(prev, rel.fid, last) else prev;
        assert ChildrenMap(people, t, ids) == if Known(people, rel.mid) then Push(m, rel.mid, last) else m;
        var before := if p in prev then prev[p] else [];
        var middle := if p in m then m[p] else [];
        assert middle == (if Known(people, rel.fid) && rel.fid == p then before + [last] else before);
      }
    }
  }

  /** A runtime map's children list only names people of the runtime map. */
  lemma {:induction false} ChildrenMapKeys(people: map<Id, G.Person>, t: Relations, ids: seq<Id>)
    ensures forall p :: p in ChildrenMap(people, t, ids) ==> Known(people, p)
  {
    if ids != [] {
      ChildrenMapKeys(people, t, ids[..|ids| - 1]);
    }
  }

  /** Records that keep their ids are keyed by exactly the non-empty ids. */
  lemma RecordsKeys(rec: (Id, PersonRow) -> G.Person, ids: seq<Id>, rows: seq<PersonRow>)
    requires |ids| == |rows|
    requires forall id, p :: rec(id, p).id == id
    ensures forall id :: id in PeopleMap(Records(rec, ids, rows)) <==> id != [] && id in ids
  {
    var recs := Records(rec, ids, rows);
    forall id | id != [] && id in ids
      ensures id in PeopleMap(recs)
    {
      var i :| 0 <= i < |ids| && ids[i] == id;
      assert recs[i].id == id;
    }
  }

  /** Each value of the map built from records is the record of one row. */
  lemma RecordsFrom(rec: (Id, PersonRow) -> G.Person, ids: seq<Id>, rows: seq<PersonRow>, id: Id) returns (i: nat)
    requires |ids| == |rows|
    requires id in PeopleMap(Records(rec, ids, rows))
    ensures i < |rows| && PeopleMap(Records(rec, ids, rows))[id] == rec(ids[i], rows[i])
  {
    var recs := Records(rec, ids, rows);
    i :| 0 <= i < |recs| && recs[i] == PeopleMap(recs)[id];
  }

  /** The runtime people are keyed by exactly the persons' non-empty normalised ids. */
  lemma PeopleKeys(persons: seq<PersonRow>, t: Relations, photos: map<Id, string>)
    ensures forall id :: id in RuntimePeople(persons, t, photos) <==> id in PersonIds(persons)
  {
    PersonIdsOfRows(persons);
    RecordsKeys((id: Id, p: PersonRow) => RuntimePerson(persons, t, photos, id, p), RowIds(persons), persons);
  }

  /** Row `i` is the last row whose normalised id is `id`. */
  predicate LastRowOf(persons: seq<PersonRow>, i: int, id: Id) {
    0 <= i < |persons| && NormalizeId(persons[i].personId) == id &&
    forall k :: i < k < |persons| ==> NormalizeId(persons[k].personId) != id
  }

  /** A map built from records holds, for each id, the last record with that id. */
  lemma {:induction false} PeopleMapLast(recs: seq<G.Person>, id: Id) returns (i: nat)
    requires id in PeopleMap(recs)
    ensures i < |recs| && recs[i].id == id && PeopleMap(recs)[id] == recs[i]
    ensures forall k :: i < k < |recs| ==> recs[k].id != id
  {
    var init := recs[..|recs| - 1];
    var p := recs[|recs| - 1];
    var m := PeopleMap(init);
    assert PeopleMap(recs) == if p.id == [] then m else m[p.id := p];
    if p.id == id {
      i := |recs| - 1;
    } else {
      assert id in m && PeopleMap(recs)[id] == m[id];
      i := PeopleMapLast(init, id);
      assert recs[i] == init[i];
      NoLaterId(recs, init, i, id);
    }
  }

  /** No record after `i` has `id`, when none of the earlier part does and the last record has another id. */
  lemma NoLaterId(recs: seq<G.Person>, init: seq<G.Person>, i: nat, id: Id)
    requires recs != [] && init == recs[..|recs| - 1] && recs[|recs| - 1].id != id
    requires forall k :: i < k < |init| ==> init[k].id != id
    ensures forall k :: i < k < |recs| ==> recs[k].id != id
  {
    forall k | i < k < |recs| ensures recs[k].id != id {
      if k < |init| {
        assert recs[k] == init[k];
      }
    }
  }

  /** The map built from records holds, for each id, the record of the last row with that id. */
  lemma RecordsLast(rec: (Id, PersonRow) -> G.Person, ids: seq<Id>, rows: seq<PersonRow>, id: Id) returns (i: nat)
    requires |ids| == |rows| && forall x, p :: rec(x, p).id == x
    requires id in PeopleMap(Records(rec, ids, rows))
    ensures i < |rows| && ids[i] == id && PeopleMap(Records(rec, ids, rows))[id] == rec(ids[i], rows[i])
    ensures forall k :: i < k < |rows| ==> ids[k] != id
  {
    var recs := Records(rec, ids, rows);
    i := PeopleMapLast(recs, id);
    forall k | i < k < |rows| ensures ids[k] != id {
      assert recs[k].id == ids[k];
    }
  }

  /**
   * A runtime person's record comes from the last row with its id: it has
   * that id, the draft's parents, the row's full name and trimmed birth
   * date, the trimmed photo path, and the spouses that exist, sorted.
   */
  lemma PeopleRecord(persons: seq<PersonRow>, t: Relations, photos: map<Id, string>, p: Id)
    requires p in RuntimePeople(persons, t, photos)
    ensures var r := RuntimePeople(persons, t, photos)[p];
      r.id == p && r.fid == RelOf(t, p).fid && r.mid == RelOf(t, p).mid &&
      (forall s :: s in r.pids <==> s in SpousesOf(t, p) && HasPerson(persons, s)) &&
      (forall i, j :: 0 <= i < j < |r.pids| ==> AtMost(r.pids[i], r.pids[j])) &&
      r.imageUrl == Trim(PhotoOf(photos, p))
    ensures var r := RuntimePeople(persons, t, photos)[p];
      exists i :: LastRowOf(persons, i, p) && r.name == FullName(persons[i], p) && r.birth == Trim(persons[i].birthDate)
  {
    var ids := RowIds(persons);
    var i := RecordsLast((id: Id, p: PersonRow) => RuntimePerson(persons, t, photos, id, p), ids, persons, p);
    var rel := RelOf(t, p);
    assert RuntimePeople(persons, t, photos)[p] == G.Person(p, FullName(persons[i], p), rel.fid, rel.mid,
      SpouseList(persons, rel), Trim(persons[i].birthDate), Trim(PhotoOf(photos, p)));
    assert LastRowOf(persons, i, p);
  }

  /**
   * Under each runtime person the children map lists exactly the runtime
   * persons whose relation entry names it as father or mother, when every
   * person has a relation entry.
   */
  lemma ChildrenOfRuntime(persons: seq<PersonRow>, t: Relations, photos: map<Id, string>, p: Id, c: Id)
    requires forall id :: id in PersonIds(persons) ==> id in t.byId
    requires WellFormed(t)
    ensures var g := RuntimeGraph(persons, t, photos);
      c in (if p in g.children then g.children[p] else []) <==>
      c in PersonIds(persons) && p in PersonIds(persons) && (RelOf(t, c).fid == p || RelOf(t, c).mid == p)
  {
    var people := RuntimePeople(persons, t, photos);
    PeopleKeys(persons, t, photos);
    ChildrenMapMeaning(people, t, t.order, p, c);
    if c in people {
      assert c in t.byId;
    }
  }

  /** Code `i` sets the gender of `id`. */
  predicate SetsGender(codes: seq<(Id, Option<G.Gender>)>, i: int, id: Id) {
    0 <= i < |codes| && codes[i].0 == id && codes[i].1.Some?
  }

  /** The gender map holds a non-empty id iff some code sets it, and then the gender of the last such code. */
  lemma {:induction false} GenderMapLast(codes: seq<(Id, Option<G.Gender>)>, id: Id)
    ensures id in GenderMap(codes) <==> id != [] && exists i :: SetsGender(codes, i, id)
    ensures id in GenderMap(codes) ==> exists i :: (SetsGender(codes, i, id) &&
      GenderMap(codes)[id] == codes[i].1.value && forall k :: i < k < |codes| ==> !SetsGender(codes, k, id))
  {
    if codes != [] {
      var init := codes[..|codes| - 1];
      var last := |codes| - 1;
      GenderMapLast(init, id);
      assert forall i :: SetsGender(init, i, id) <==> 0 <= i < last && SetsGender(codes, i, id);
      if !SetsGender(codes, last, id) {
        assert forall i :: SetsGender(codes, i, id) ==> i < last;
        if id in GenderMap(codes) {
          var i :| SetsGender(init, i, id) && GenderMap(init)[id] == init[i].1.value &&
            forall k :: i < k < |init| ==> !SetsGender(init, k, id);
          assert SetsGender(codes, i, id);
        }
      } else if id != [] {
        assert codes[last] == (id, codes[last].1);
        assert GenderMap(codes) == GenderMap(init)[id := codes[last].1.value];
      }
    }
  }

  /** Row `i` has the normalised id `id` and a sex of `M` or `F` in either case. */
  predicate RowSetsGender(persons: seq<PersonRow>, i: int, id: Id) {
    0 <= i < |persons| && NormalizeId(persons[i].personId) == id && GenderOf(ToUpper(persons[i].sex)).Some?
  }

  /**
   * The runtime gender map holds a non-empty id exactly when some row of
   * that id has sex M or F, and then the gender of the last such row.
   */
  lemma GendersLastRow(persons: seq<PersonRow>, p: Id)
    ensures p in RuntimeGenders(persons) <==> p != [] && exists i :: RowSetsGender(persons, i, p)
    ensures p in RuntimeGenders(persons) ==> exists i :: (RowSetsGender(persons, i, p) &&
      Some(RuntimeGenders(persons)[p]) == GenderOf(ToUpper(persons[i].sex)) &&
      forall k :: i < k < |persons| ==> !RowSetsGender(persons, k, p))
  {
    var codes := SexCodes(persons);
    GenderMapLast(codes, p);
    assert forall i :: SetsGender(codes, i, p) <==> RowSetsGender(persons, i, p);
  }

  /** The gender map holds an id only with the gender some row of that id gives it. */
  lemma GendersFromRows(persons: seq<PersonRow>, p: Id)
    requires p in RuntimeGenders(persons)
    ensures p in PersonIds(persons)
    ensures exists i :: (0 <= i < |persons| && NormalizeId(persons[i].personId) == p &&
      GenderOf(ToUpper(persons[i].sex)) == Some(RuntimeGenders(persons)[p]))
  {
    var codes := SexCodes(persons);
    var i :| 0 <= i < |codes| && codes[i] == (p, Some(GenderMap(codes)[p]));
    assert NormalizeId(persons[i].personId) == p;
  }
}
