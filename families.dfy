/**
 * `generateFamiliesFromRelations`: the draft's family list rebuilt from the
 * relations map. A family is identified by the text `husband|wife`; the
 * first pass files every existing person under the family of its parents,
 * the second adds a family for every spouse pair, and the result is
 * cleaned, sorted by key and numbered F0001, F0002, ….
 */
module DraftFamilies {
  import opened Text
  import opened Sorting
  import opened DraftData
  import opened DraftRelations

  /** A family while it is being collected. */
  datatype FamEntry = FamEntry(hid: Id, wid: Id, children: seq<Id>)

  /** The `famMap`: entries by key, keys in insertion order. */
  datatype FamMap = FamMap(byKey: map<string, FamEntry>, order: seq<string>)

  const NoFamilies := FamMap(map[], [])

  function FamKey(hid: Id, wid: Id): string {
    hid + "|" + wid
  }

  function KeyOf(f: FamEntry): string {
    FamKey(f.hid, f.wid)
  }

  /** Keys listed once, each entry filed under its own key, children without repeats. */
  ghost predicate Coherent(m: FamMap) {
    Distinct(m.order) &&
    (forall k :: k in m.order <==> k in m.byKey) &&
    (forall k :: k in m.byKey ==> KeyOf(m.byKey[k]) == k && Distinct(m.byKey[k].children))
  }

  /** `getOrCreateFamily`: the family of the normalised pair, created empty at the end when new. */
  function GetOrCreate(m: FamMap, husbandId: Id, wifeId: Id): (r: FamMap)
    ensures FamKey(NormalizeId(husbandId), NormalizeId(wifeId)) in r.byKey
    ensures forall k :: k in m.byKey ==> k in r.byKey && r.byKey[k] == m.byKey[k]
    ensures Coherent(m) ==> Coherent(r)
  {
    var hid := NormalizeId(husbandId);
    var wid := NormalizeId(wifeId);
    var key := FamKey(hid, wid);
    if key in m.byKey then m else FamMap(m.byKey[key := FamEntry(hid, wid, [])], m.order + [key])
  }

  /** The first loop's step: `childId` filed under the family of its parents, once. */
  function AddChildTo(m: FamMap, fid: Id, mid: Id, childId: Id): (r: FamMap)
    ensures var key := FamKey(NormalizeId(fid), NormalizeId(mid));
      key in r.byKey && childId in r.byKey[key].children
    ensures forall k :: k in m.byKey ==> k in r.byKey
    ensures forall k, c :: k in m.byKey && c in m.byKey[k].children ==> c in r.byKey[k].children
    ensures Coherent(m) ==> Coherent(r)
  {
    var m1 := GetOrCreate(m, fid, mid);
    var key := FamKey(NormalizeId(fid), NormalizeId(mid));
    var f := m1.byKey[key];
    if childId in f.children then m1
    else
      AppendChildCoherent(m1, key, childId);
      FamMap(m1.byKey[key := f.(children := f.children + [childId])], m1.order)
  }

  /** Appending a new child to one family keeps the map coherent. */
  lemma AppendChildCoherent(m: FamMap, key: string, childId: Id)
    requires key in m.byKey && childId !in m.byKey[key].children
    ensures var f := m.byKey[key];
      Coherent(m) ==> Coherent(FamMap(m.byKey[key := f.(children := f.children + [childId])], m.order))
  {
    var f := m.byKey[key];
    var r := FamMap(m.byKey[key := f.(children := f.children + [childId])], m.order);
    if Coherent(m) {
      assert Distinct(f.children + [childId]) by {
        var cs := f.children + [childId];
        forall i, j | 0 <= i < j < |cs| ensures cs[i] != cs[j] {
          if j == |cs| - 1 {
            assert cs[i] in f.children;
          }
        }
      }
      assert KeyOf(r.byKey[key]) == key;
    }
  }

  /** The first loop over the relation entries `ids`, skipping ids without a person. */
  function ChildPass(m: FamMap, t: Relations, persons: seq<PersonRow>, ids: seq<Id>): (r: FamMap)
    ensures forall k :: k in m.byKey ==> k in r.byKey
    ensures forall k, c :: k in m.byKey && c in m.byKey[k].children ==> c in r.byKey[k].children
    ensures Coherent(m) ==> Coherent(r)
  {
    if ids == [] then m
    else
      var prev := ChildPass(m, t, persons, ids[..|ids| - 1]);
      var id := ids[|ids| - 1];
      if !HasPerson(persons, id) then prev else AddChildTo(prev, RelOf(t, id).fid, RelOf(t, id).mid, id)
  }

  /** `sexOf`: the upper-cased sex of the person, `""` when there is none. */
  function SexOf(persons: seq<PersonRow>, id: Id): string {
    if persons == [] then ""
    else if persons[0].personId == NormalizeId(id) then ToUpper(persons[0].sex)
    else SexOf(persons[1..], id)
  }

  /** The husband and wife a spouse pair gives: by sex when one is M and the other F, else in sorted order. */
  function Orient(persons: seq<PersonRow>, id: Id, spouseId: Id): (Id, Id) {
    var sexA := SexOf(persons, id);
    var sexB := SexOf(persons, spouseId);
    if sexA == "F" && sexB == "M" then (spouseId, id)
    else if sexA == "M" && sexB == "F" then (id, spouseId)
    else if Below(spouseId, id) then (spouseId, id)
    else (id, spouseId)
  }

  /** A pair the second loop turns into a family: both persons exist and `id` comes first. */
  predicate PairVisited(persons: seq<PersonRow>, id: Id, spouseId: Id) {
    HasPerson(persons, spouseId) && Below(id, spouseId)
  }

  /** The inner loop of the second pass, over the spouses of `id`. */
  function SpousePass(m: FamMap, persons: seq<PersonRow>, id: Id, spouses: seq<Id>): (r: FamMap)
    ensures forall k :: k in m.byKey ==> k in r.byKey && r.byKey[k] == m.byKey[k]
    ensures forall s :: s in spouses && PairVisited(persons, id, s) ==>
      FamKey(NormalizeId(Orient(persons, id, s).0), NormalizeId(Orient(persons, id, s).1)) in r.byKey
    ensures Coherent(m) ==> Coherent(r)
  {
    if spouses == [] then m
    else
      var prev := SpousePass(m, persons, id, spouses[..|spouses| - 1]);
      var s := spouses[|spouses| - 1];
      assert forall x :: x in spouses ==> x in spouses[..|spouses| - 1] || x == s;
      if !PairVisited(persons, id, s) then prev
      else
        var pair := Orient(persons, id, s);
        GetOrCreate(prev, pair.0, pair.1)
  }

  /** The second loop over the relation entries `ids`. */
  function PairPass(m: FamMap, t: Relations, persons: seq<PersonRow>, ids: seq<Id>): (r: FamMap)
    ensures forall k :: k in m.byKey ==> k in r.byKey && r.byKey[k] == m.byKey[k]
    ensures Coherent(m) ==> Coherent(r)
  {
    if ids == [] then m
    else
      var prev := PairPass(m, t, persons, ids[..|ids| - 1]);
      var id := ids[|ids| - 1];
      if !HasPerson(persons, id) then prev else SpousePass(prev, persons, id, SpousesOf(t, id))
  }

  /** The filter of the output: a family with a husband, a wife or a child. */
  predicate Kept(f: FamEntry) {
    f.hid != [] || f.wid != [] || f.children != []
  }

  /** The map step of the output: children restricted to existing persons and sorted. */
  function Clean(persons: seq<PersonRow>, f: FamEntry): (r: FamEntry)
    ensures r.hid == f.hid && r.wid == f.wid
  {
    f.(children := SortStrings(Filter(f.children, (c: Id) => HasPerson(persons, c))))
  }

  /** The wanted families in key order, filtered and cleaned. */
  function Collect(m: FamMap, persons: seq<PersonRow>, keys: seq<string>): (r: seq<FamEntry>)
    requires Coherent(m)
    ensures forall g :: g in r ==> KeyOf(g) in keys || KeyOf(g) !in m.byKey
  {
    if keys == [] then []
    else
      var f := if keys[0] in m.byKey then m.byKey[keys[0]] else FamEntry("", "", []);
      var rest := Collect(m, persons, keys[1..]);
      if Kept(f) then
        var c := Clean(persons, f);
        assert KeyOf(c) == KeyOf(f);
        [c] + rest
      else rest
  }

  /** `family_id`s numbered from F0001 in list order. */
  function Number(fs: seq<FamEntry>): (r: seq<Family>)
    ensures |r| == |fs|
    ensures forall i :: 0 <= i < |r| ==> r[i].familyId == NumberedId('F', i + 1)
    ensures forall i :: 0 <= i < |r| ==>
      r[i].husbandId == fs[i].hid && r[i].wifeId == fs[i].wid && r[i].children == fs[i].children
  {
    seq(|fs|, i requires 0 <= i < |fs| => Family(NumberedId('F', i + 1), fs[i].hid, fs[i].wid, "", "", fs[i].children))
  }

  /** The collected map: the child pass, then the pair pass. */
  function Collected(t: Relations, persons: seq<PersonRow>): (r: FamMap)
    ensures Coherent(r)
  {
    assert Coherent(NoFamilies);
    PairPass(ChildPass(NoFamilies, t, persons, t.order), t, persons, t.order)
  }

  /** `generateFamiliesFromRelations`. */
  function GenerateFamilies(t: Relations, persons: seq<PersonRow>): seq<Family> {
    var m := Collected(t, persons);
    Number(SortBy(Collect(m, persons, m.order), KeyOf))
  }

  function FamilyKey(f: Family): string {
    FamKey(f.husbandId, f.wifeId)
  }

  // ---------------------------------------------------------------------

  /** Within one list of keys without repeats, collected families have different keys. */
  lemma {:induction false} CollectDistinct(m: FamMap, persons: seq<PersonRow>, keys: seq<string>)
    requires Coherent(m) && Distinct(keys)
    ensures forall i, j :: 0 <= i < j < |Collect(m, persons, keys)| ==>
      KeyOf(Collect(m, persons, keys)[i]) != KeyOf(Collect(m, persons, keys)[j])
  {
    if keys != [] {
      assert Distinct(keys[1..]);
      CollectDistinct(m, persons, keys[1..]);
      var r := Collect(m, persons, keys);
      var rest := Collect(m, persons, keys[1..]);
      var f := if keys[0] in m.byKey then m.byKey[keys[0]] else FamEntry("", "", []);
      if Kept(f) {
        assert r == [Clean(persons, f)] + rest;
        assert keys[0] in m.byKey;
        forall j | 0 <= j < |rest| ensures KeyOf(f) != KeyOf(rest[j]) {
          assert rest[j] in rest;
        }
      }
    }
  }

  /** A kept family filed under one of the keys is collected, cleaned. */
  lemma {:induction false} CollectHas(m: FamMap, persons: seq<PersonRow>, keys: seq<string>, k: string)
    requires Coherent(m)
    requires k in keys && k in m.byKey && Kept(m.byKey[k])
    ensures Clean(persons, m.byKey[k]) in Collect(m, persons, keys)
  {
    if keys[0] != k {
      CollectHas(m, persons, keys[1..], k);
    }
  }

  /** An output family's children exist and are strictly ordered. */
  lemma CleanChildren(persons: seq<PersonRow>, f: FamEntry)
    requires Distinct(f.children)
    ensures forall c :: c in Clean(persons, f).children ==> HasPerson(persons, c)
    ensures StrictlySortedBy(Clean(persons, f).children, Self)
  {
    var keep := (c: Id) => HasPerson(persons, c);
    var kept := Filter(f.children, keep);
    assert Distinct(kept);
    SortDistinct(kept);
    var r := SortStrings(kept);
    assert Clean(persons, f).children == r;
    forall c | c in r ensures HasPerson(persons, c) {
      assert c in multiset(kept);
      assert keep(c);
    }
  }

  /**
   * The output families: numbered consecutively from F0001 and strictly
   * ordered by `husband|wife` key, so there is one family per key.
   */
  lemma GenerateFamiliesShape(t: Relations, persons: seq<PersonRow>)
    ensures forall i :: 0 <= i < |GenerateFamilies(t, persons)| ==>
      GenerateFamilies(t, persons)[i].familyId == NumberedId('F', i + 1)
    ensures StrictlySortedBy(GenerateFamilies(t, persons), FamilyKey)
  {
    var m := Collected(t, persons);
    assert Coherent(NoFamilies);
    assert Coherent(m);
    var c := Collect(m, persons, m.order);
    CollectDistinct(m, persons, m.order);
    SortByDistinctKeys(c, KeyOf);
    var s := SortBy(c, KeyOf);
    var r := Number(s);
    assert r == GenerateFamilies(t, persons);
    forall i, j | 0 <= i < j < |r| ensures Below(FamilyKey(r[i]), FamilyKey(r[j])) {
      assert FamilyKey(r[i]) == KeyOf(s[i]) && FamilyKey(r[j]) == KeyOf(s[j]);
    }
  }

  /** Every member of a collected map's family lists exists and each list is strictly sorted, once cleaned. */
  lemma GenerateFamiliesChildren(t: Relations, persons: seq<PersonRow>, f: Family)
    requires f in GenerateFamilies(t, persons)
    ensures forall c :: c in f.children ==> HasPerson(persons, c)
    ensures StrictlySortedBy(f.children, Self)
  {
    var m := Collected(t, persons);
    assert Coherent(NoFamilies);
    var c := Collect(m, persons, m.order);
    var s := SortBy(c, KeyOf);
    var r := Number(s);
    var i :| 0 <= i < |r| && r[i] == f;
    assert s[i] in multiset(c);
    CollectMembers(m, persons, m.order, s[i]);
    var g :| g in m.byKey.Values && Kept(g) && s[i] == Clean(persons, g);
    CleanChildren(persons, g);
  }

  /** A collected family is a cleaned family of the map. */
  lemma {:induction false} CollectMembers(m: FamMap, persons: seq<PersonRow>, keys: seq<string>, f: FamEntry)
    requires Coherent(m) && f in Collect(m, persons, keys)
    ensures exists g :: g in m.byKey.Values && Kept(g) && f == Clean(persons, g)
  {
    var g := if keys[0] in m.byKey then m.byKey[keys[0]] else FamEntry("", "", []);
    if Kept(g) && f == Clean(persons, g) {
      assert keys[0] in m.byKey;
      assert g in m.byKey.Values;
    } else {
      CollectMembers(m, persons, keys[1..], f);
    }
  }

  /** The child pass files every existing person of `ids` under the family of its parents. */
  lemma {:induction false} ChildPassFiles(m: FamMap, t: Relations, persons: seq<PersonRow>, ids: seq<Id>, id: Id)
    requires id in ids && HasPerson(persons, id)
    ensures var key := FamKey(NormalizeId(RelOf(t, id).fid), NormalizeId(RelOf(t, id).mid));
      key in ChildPass(m, t, persons, ids).byKey && id in ChildPass(m, t, persons, ids).byKey[key].children
  {
    var init := ids[..|ids| - 1];
    var last := ids[|ids| - 1];
    if last != id {
      assert id in init;
      ChildPassFiles(m, t, persons, init, id);
      ChildPassKeeps(m, t, persons, ids);
    }
  }

  /** The last step of the child pass keeps what the earlier steps filed. */
  lemma ChildPassKeeps(m: FamMap, t: Relations, persons: seq<PersonRow>, ids: seq<Id>)
    requires ids != []
    ensures var prev := ChildPass(m, t, persons, ids[..|ids| - 1]);
      var r := ChildPass(m, t, persons, ids);
      forall k, c :: k in prev.byKey && c in prev.byKey[k].children ==> k in r.byKey && c in r.byKey[k].children
  {
    var prev := ChildPass(m, t, persons, ids[..|ids| - 1]);
    var last := ids[|ids| - 1];
    if HasPerson(persons, last) {
      var r := AddChildTo(prev, RelOf(t, last).fid, RelOf(t, last).mid, last);
      assert ChildPass(m, t, persons, ids) == r;
    }
  }

  /** The pair pass covers every visited pair of `ids`. */
  lemma {:induction false} PairPassCovers(m: FamMap, t: Relations, persons: seq<PersonRow>, ids: seq<Id>, id: Id, s: Id)
    requires id in ids && HasPerson(persons, id) && s in SpousesOf(t, id) && PairVisited(persons, id, s)
    ensures FamKey(NormalizeId(Orient(persons, id, s).0), NormalizeId(Orient(persons, id, s).1)) in PairPass(m, t, persons, ids).byKey
  {
    var init := ids[..|ids| - 1];
    if ids[|ids| - 1] != id {
      assert id in init;
      PairPassCovers(m, t, persons, init, id, s);
    }
  }

  /** A kept family of the collected map appears in the output, cleaned. */
  lemma OutputHas(t: Relations, persons: seq<PersonRow>, k: string) returns (f: Family)
    requires k in Collected(t, persons).byKey && Kept(Collected(t, persons).byKey[k])
    ensures f in GenerateFamilies(t, persons)
    ensures FamilyKey(f) == k
    ensures f.children == Clean(persons, Collected(t, persons).byKey[k]).children
  {
    var m := Collected(t, persons);
    assert Coherent(NoFamilies);
    assert Coherent(m);
    var c := Collect(m, persons, m.order);
    CollectHas(m, persons, m.order, k);
    var s := SortBy(c, KeyOf);
    var e := Clean(persons, m.byKey[k]);
    assert e in multiset(s);
    var i :| 0 <= i < |s| && s[i] == e;
    var r := Number(s);
    f := r[i];
  }

  /**
   * Every person of the relations is a child of the output family whose
   * key is its `fid|mid`.
   */
  lemma GenerateFamiliesCoversChildren(t: Relations, persons: seq<PersonRow>, id: Id)
    requires id in t.order && HasPerson(persons, id)
    ensures exists f :: (f in GenerateFamilies(t, persons) &&
      FamilyKey(f) == FamKey(NormalizeId(RelOf(t, id).fid), NormalizeId(RelOf(t, id).mid)) && id in f.children)
  {
    var key := FamKey(NormalizeId(RelOf(t, id).fid), NormalizeId(RelOf(t, id).mid));
    var m1 := ChildPass(NoFamilies, t, persons, t.order);
    ChildPassFiles(NoFamilies, t, persons, t.order, id);
    var m := Collected(t, persons);
    assert key in m.byKey && id in m.byKey[key].children;
    var f := OutputHas(t, persons, key);
    var kept := Filter(m.byKey[key].children, (c: Id) => HasPerson(persons, c));
    assert id in kept;
    assert id in multiset(f.children);
  }

  /**
   * Every spouse pair of existing persons, visited from its smaller id,
   * gives an output family keyed by the oriented pair.
   */
  lemma GenerateFamiliesCoversCouples(t: Relations, persons: seq<PersonRow>, id: Id, s: Id)
    requires id in t.order && HasPerson(persons, id) && s in SpousesOf(t, id) && PairVisited(persons, id, s)
    requires OrientedKey(persons, id, s) != "|"
    ensures exists f :: (f in GenerateFamilies(t, persons) &&
      FamilyKey(f) == FamKey(NormalizeId(Orient(persons, id, s).0), NormalizeId(Orient(persons, id, s).1)))
  {
    var pair := Orient(persons, id, s);
    var key := FamKey(NormalizeId(pair.0), NormalizeId(pair.1));
    var m1 := ChildPass(NoFamilies, t, persons, t.order);
    PairPassCovers(m1, t, persons, t.order, id, s);
    var m := Collected(t, persons);
    assert key in m.byKey;
    assert Coherent(NoFamilies);
    assert Coherent(m);
    assert KeyOf(m.byKey[key]) == key;
    assert Kept(m.byKey[key]);
    var f := OutputHas(t, persons, key);
  }

  // ---------------------------------------------------------------------
  // soundness: every output family comes from a child or a spouse pair

  /** The key of the family a person is filed under: `fid|mid`, normalised. */
  function ParentKey(t: Relations, c: Id): string {
    FamKey(NormalizeId(RelOf(t, c).fid), NormalizeId(RelOf(t, c).mid))
  }

  /** The key of the family a visited spouse pair creates. */
  function OrientedKey(persons: seq<PersonRow>, id: Id, s: Id): string {
    FamKey(NormalizeId(Orient(persons, id, s).0), NormalizeId(Orient(persons, id, s).1))
  }

  /** `c` is an existing person of `ids` whose parents have key `k`. */
  predicate ChildOf(t: Relations, persons: seq<PersonRow>, ids: seq<Id>, c: Id, k: string) {
    c in ids && HasPerson(persons, c) && ParentKey(t, c) == k
  }

  /** `id` of `ids` and its spouse `s` form a visited pair whose family has key `k`. */
  predicate PairOf(t: Relations, persons: seq<PersonRow>, ids: seq<Id>, id: Id, s: Id, k: string) {
    id in ids && HasPerson(persons, id) && s in SpousesOf(t, id) && PairVisited(persons, id, s) &&
    OrientedKey(persons, id, s) == k
  }

  /** Some visited pair of `ids` has key `k`. */
  ghost predicate PairKey(t: Relations, persons: seq<PersonRow>, ids: seq<Id>, k: string) {
    exists id, s :: PairOf(t, persons, ids, id, s, k)
  }

  /**
   * Every family of `m` was created for a child it may list, and every
   * child listed is filed under a key `src` accepts for it.
   */
  ghost predicate ChildSound(m: FamMap, src: (Id, string) -> bool) {
    (forall k :: k in m.byKey ==> exists c :: src(c, k)) &&
    (forall k, c :: k in m.byKey && c in m.byKey[k].children ==> src(c, k))
  }

  /** Every family of `r` missing from `m` is childless and has a key `src` accepts. */
  ghost predicate PairSound(r: FamMap, m: FamMap, src: string -> bool) {
    (forall k :: k in r.byKey ==> k in m.byKey || src(k)) &&
    (forall k :: k in r.byKey && k !in m.byKey ==> r.byKey[k].children == [])
  }

  /** `getOrCreateFamily` adds at most its own key, with no children. */
  lemma GetOrCreateEffect(m: FamMap, husbandId: Id, wifeId: Id)
    ensures var key := FamKey(NormalizeId(husbandId), NormalizeId(wifeId));
      var r := GetOrCreate(m, husbandId, wifeId);
      (forall k :: k in r.byKey ==> k in m.byKey || k == key) &&
      (key !in m.byKey ==> r.byKey[key].children == [])
  {
  }

  /** Filing a child adds at most its parents' key and no child but this one. */
  lemma AddChildToEffect(m: FamMap, fid: Id, mid: Id, childId: Id)
    ensures var key := FamKey(NormalizeId(fid), NormalizeId(mid));
      var r := AddChildTo(m, fid, mid, childId);
      (forall k :: k in r.byKey ==> k in m.byKey || k == key) &&
      (forall k, c :: k in r.byKey && c in r.byKey[k].children ==>
        (k in m.byKey && c in m.byKey[k].children) || (k == key && c == childId))
  {
    GetOrCreateEffect(m, fid, mid);
  }

  /** A step of the child pass keeps the map sound when the child's key is accepted. */
  lemma AddChildSound(m: FamMap, fid: Id, mid: Id, id: Id, src: (Id, string) -> bool)
    requires ChildSound(m, src) && src(id, FamKey(NormalizeId(fid), NormalizeId(mid)))
    ensures ChildSound(AddChildTo(m, fid, mid, id), src)
  {
    AddChildToEffect(m, fid, mid, id);
  }

  /** Soundness carries over to a weaker source. */
  lemma ChildSoundWiden(m: FamMap, src: (Id, string) -> bool, src2: (Id, string) -> bool)
    requires ChildSound(m, src) && forall c, k :: src(c, k) ==> src2(c, k)
    ensures ChildSound(m, src2)
  {
    forall k | k in m.byKey ensures exists c :: src2(c, k) {
      var c :| src(c, k);
      assert src2(c, k);
    }
  }

  /** The sources of the child pass over `ids`. */
  function ChildSource(t: Relations, persons: seq<PersonRow>, ids: seq<Id>): (Id, string) -> bool {
    (c, k) => ChildOf(t, persons, ids, c, k)
  }

  /** A child of `ids` is accepted by the child source of `ids`. */
  lemma ChildSourceOf(t: Relations, persons: seq<PersonRow>, ids: seq<Id>, c: Id, k: string)
    requires ChildOf(t, persons, ids, c, k)
    ensures ChildSource(t, persons, ids)(c, k)
  {
  }

  /** The child pass files each person under its parents' key and creates no other family. */
  lemma {:induction false} ChildPassSound(t: Relations, persons: seq<PersonRow>, ids: seq<Id>)
    ensures ChildSound(ChildPass(NoFamilies, t, persons, ids), ChildSource(t, persons, ids))
  {
    if ids != [] {
      var init := ids[..|ids| - 1];
      var id := ids[|ids| - 1];
      ChildPassSound(t, persons, init);
      var prev := ChildPass(NoFamilies, t, persons, init);
      assert forall c, k :: ChildSource(t, persons, init)(c, k) ==> ChildSource(t, persons, ids)(c, k);
      ChildSoundWiden(prev, ChildSource(t, persons, init), ChildSource(t, persons, ids));
      if HasPerson(persons, id) {
        assert id in ids;
        assert ChildOf(t, persons, ids, id, ParentKey(t, id));
        ChildSourceOf(t, persons, ids, id, ParentKey(t, id));
        AddChildSound(prev, RelOf(t, id).fid, RelOf(t, id).mid, id, ChildSource(t, persons, ids));
      }
    }
  }

  /** The sources of the pair pass over `ids`. */
  ghost function PairSource(t: Relations, persons: seq<PersonRow>, ids: seq<Id>): string -> bool {
    k => PairKey(t, persons, ids, k)
  }

  /** The spouse loop of one person only creates childless families of its visited pairs. */
  lemma {:induction false} SpousePassSound(m: FamMap, t: Relations, persons: seq<PersonRow>, ids: seq<Id>, id: Id, spouses: seq<Id>)
    requires id in ids && HasPerson(persons, id) && forall x :: x in spouses ==> x in SpousesOf(t, id)
    ensures PairSound(SpousePass(m, persons, id, spouses), m, PairSource(t, persons, ids))
  {
    if spouses != [] {
      var init := spouses[..|spouses| - 1];
      var s := spouses[|spouses| - 1];
      assert forall x :: x in init ==> x in spouses;
      SpousePassSound(m, t, persons, ids, id, init);
      var prev := SpousePass(m, persons, id, init);
      if PairVisited(persons, id, s) {
        var pair := Orient(persons, id, s);
        GetOrCreateEffect(prev, pair.0, pair.1);
        assert PairOf(t, persons, ids, id, s, OrientedKey(persons, id, s));
        assert PairSource(t, persons, ids)(OrientedKey(persons, id, s));
        PairSoundStep(GetOrCreate(prev, pair.0, pair.1), prev, m, PairSource(t, persons, ids), OrientedKey(persons, id, s));
      }
    }
  }

  /** Adding one childless accepted family to a sound map keeps it sound. */
  lemma PairSoundStep(r: FamMap, prev: FamMap, m: FamMap, src: string -> bool, key: string)
    requires PairSound(prev, m, src)
    requires forall k :: k in prev.byKey ==> k in r.byKey && r.byKey[k] == prev.byKey[k]
    requires forall k :: k in r.byKey ==> k in prev.byKey || k == key
    requires key in r.byKey && (key !in prev.byKey ==> r.byKey[key].children == [])
    requires src(key)
    ensures PairSound(r, m, src)
  {
  }

  /** Composing two sound extensions gives a sound extension. */
  lemma PairSoundTrans(r: FamMap, prev: FamMap, m: FamMap, src: string -> bool)
    requires PairSound(prev, m, src) && PairSound(r, prev, src)
    requires forall k :: k in prev.byKey ==> k in r.byKey && r.byKey[k] == prev.byKey[k]
    ensures PairSound(r, m, src)
  {
  }

  /** The pair pass only creates childless families of visited pairs. */
  lemma {:induction false} PairPassSound(m: FamMap, t: Relations, persons: seq<PersonRow>, ids: seq<Id>, all: seq<Id>)
    requires forall x :: x in ids ==> x in all
    ensures PairSound(PairPass(m, t, persons, ids), m, PairSource(t, persons, all))
  {
    if ids != [] {
      var init := ids[..|ids| - 1];
      var id := ids[|ids| - 1];
      assert forall x :: x in init ==> x in ids;
      PairPassSound(m, t, persons, init, all);
      var prev := PairPass(m, t, persons, init);
      if HasPerson(persons, id) {
        SpousePassSound(prev, t, persons, all, id, SpousesOf(t, id));
        PairSoundTrans(PairPass(m, t, persons, ids), prev, m, PairSource(t, persons, all));
      }
    }
  }

  /** Every family of the collected map comes from a child or a pair, and lists only children filed by their parents. */
  lemma CollectedSound(t: Relations, persons: seq<PersonRow>, k: string)
    requires k in Collected(t, persons).byKey
    ensures (exists c :: ChildOf(t, persons, t.order, c, k)) || PairKey(t, persons, t.order, k)
    ensures forall c :: c in Collected(t, persons).byKey[k].children ==> ChildOf(t, persons, t.order, c, k)
  {
    var m1 := ChildPass(NoFamilies, t, persons, t.order);
    ChildPassSound(t, persons, t.order);
    PairPassSound(m1, t, persons, t.order, t.order);
    var src := ChildSource(t, persons, t.order);
    if k in m1.byKey {
      var c :| src(c, k);
      assert ChildOf(t, persons, t.order, c, k);
    } else {
      assert PairSource(t, persons, t.order)(k);
    }
    forall c | c in Collected(t, persons).byKey[k].children ensures ChildOf(t, persons, t.order, c, k) {
      assert src(c, k);
    }
  }

  /** An output family is a kept, cleaned family of the collected map, filed under its own key. */
  lemma OutputFrom(t: Relations, persons: seq<PersonRow>, f: Family) returns (g: FamEntry)
    requires f in GenerateFamilies(t, persons)
    ensures FamilyKey(f) in Collected(t, persons).byKey && Collected(t, persons).byKey[FamilyKey(f)] == g
    ensures Kept(g) && f.husbandId == g.hid && f.wifeId == g.wid && f.children == Clean(persons, g).children
  {
    var m := Collected(t, persons);
    assert Coherent(NoFamilies);
    var c := Collect(m, persons, m.order);
    var s := SortBy(c, KeyOf);
    var r := Number(s);
    var i :| 0 <= i < |r| && r[i] == f;
    assert s[i] in multiset(c);
    CollectMembers(m, persons, m.order, s[i]);
    g :| g in m.byKey.Values && Kept(g) && s[i] == Clean(persons, g);
    var k :| k in m.byKey && m.byKey[k] == g;
    assert FamilyKey(f) == KeyOf(s[i]) == KeyOf(g) == k;
  }

  /**
   * Every output family comes from an existing person's parent pair or
   * from a visited spouse pair, has a husband, a wife or a child, and each
   * child it lists is a person of the relations whose normalised `fid|mid`
   * is the family's key.
   */
  lemma GenerateFamiliesSound(t: Relations, persons: seq<PersonRow>, f: Family)
    requires f in GenerateFamilies(t, persons)
    ensures forall c :: c in f.children ==> ChildOf(t, persons, t.order, c, FamilyKey(f))
    ensures (exists c :: ChildOf(t, persons, t.order, c, FamilyKey(f))) || PairKey(t, persons, t.order, FamilyKey(f))
    ensures f.husbandId != [] || f.wifeId != [] || f.children != []
  {
    var g := OutputFrom(t, persons, f);
    var k := FamilyKey(f);
    CollectedSound(t, persons, k);
    assert forall c :: c in g.children ==> ChildOf(t, persons, t.order, c, k);
    forall c | c in g.children ensures HasPerson(persons, c) {
      assert ChildOf(t, persons, t.order, c, k);
    }
    CleanKeeps(persons, g);
    assert f.children == Clean(persons, g).children;
  }

  /** Cleaning lists only children the family had, and drops none when all of them exist. */
  lemma CleanKeeps(persons: seq<PersonRow>, g: FamEntry)
    ensures forall x :: x in Clean(persons, g).children ==> x in g.children
    ensures g.children != [] && (forall x :: x in g.children ==> HasPerson(persons, x)) ==> Clean(persons, g).children != []
  {
    var kept := Filter(g.children, (y: Id) => HasPerson(persons, y));
    var r := SortStrings(kept);
    assert Clean(persons, g).children == r;
    forall x | x in r ensures x in g.children {
      assert x in multiset(r);
      assert x in kept;
    }
    if g.children != [] && (forall x :: x in g.children ==> HasPerson(persons, x)) {
      assert g.children[0] in kept;
      assert g.children[0] in multiset(r);
    }
  }

  /** A child is listed in an output family exactly when its parents' key is the family's key. */
  lemma GenerateFamiliesChildIff(t: Relations, persons: seq<PersonRow>, f: Family, c: Id)
    requires f in GenerateFamilies(t, persons)
    ensures c in f.children <==> ChildOf(t, persons, t.order, c, FamilyKey(f))
  {
    GenerateFamiliesSound(t, persons, f);
    if ChildOf(t, persons, t.order, c, FamilyKey(f)) {
      GenerateFamiliesCoversChildren(t, persons, c);
      var f' :| f' in GenerateFamilies(t, persons) && FamilyKey(f') == ParentKey(t, c) && c in f'.children;
      OneFamilyPerKey(t, persons, f, f');
    }
  }

  /** Two output families with the same key are the same family. */
  lemma OneFamilyPerKey(t: Relations, persons: seq<PersonRow>, f: Family, g: Family)
    requires f in GenerateFamilies(t, persons) && g in GenerateFamilies(t, persons) && FamilyKey(f) == FamilyKey(g)
    ensures f == g
  {
    var r := GenerateFamilies(t, persons);
    GenerateFamiliesShape(t, persons);
    var i :| 0 <= i < |r| && r[i] == f;
    var j :| 0 <= j < |r| && r[j] == g;
    BelowIrreflexive(FamilyKey(f));
    assert i == j;
  }

  /**
   * A key has an output family exactly when some person has those
   * parents, or some visited spouse pair has that key and it is not the
   * empty pair's key `|`.
   */
  lemma GenerateFamiliesKeys(t: Relations, persons: seq<PersonRow>, k: string)
    ensures (exists f :: f in GenerateFamilies(t, persons) && FamilyKey(f) == k) <==>
      (exists c :: ChildOf(t, persons, t.order, c, k)) ||
      (k != "|" && PairKey(t, persons, t.order, k))
  {
    if exists f :: f in GenerateFamilies(t, persons) && FamilyKey(f) == k {
      var f :| f in GenerateFamilies(t, persons) && FamilyKey(f) == k;
      GenerateFamiliesSound(t, persons, f);
      if k == "|" {
        FamKeyEmpty(f.husbandId, f.wifeId);
        assert f.children[0] in f.children;
      }
    }
    if exists c :: ChildOf(t, persons, t.order, c, k) {
      var c :| ChildOf(t, persons, t.order, c, k);
      GenerateFamiliesCoversChildren(t, persons, c);
    } else if k != "|" && PairKey(t, persons, t.order, k) {
      var id, s :| PairOf(t, persons, t.order, id, s, k);
      GenerateFamiliesCoversCouples(t, persons, id, s);
    }
  }

  /** Only two empty ids give the key `|`. */
  lemma FamKeyEmpty(a: Id, b: Id)
    requires FamKey(a, b) == "|"
    ensures a == [] && b == []
  {
    assert |a + "|" + b| == |a| + |b| + 1;
  }

  /** The key of an oriented pair holding a non-empty id is not `|`. */
  lemma KeyOfOrient(persons: seq<PersonRow>, id: Id, s: Id)
    requires NormalizeId(id) != []
    ensures FamKey(NormalizeId(Orient(persons, id, s).0), NormalizeId(Orient(persons, id, s).1)) != "|"
  {
    var pair := Orient(persons, id, s);
    assert NormalizeId(pair.0) == NormalizeId(id) || NormalizeId(pair.1) == NormalizeId(id);
    var a := NormalizeId(pair.0);
    var b := NormalizeId(pair.1);
    assert |a + "|" + b| == |a| + |b| + 1;
  }

  /** A pair of a man and a woman makes the man the husband; any other pair is in sorted order. */
  lemma OrientBySex(persons: seq<PersonRow>, id: Id, s: Id)
    requires Below(id, s)
    ensures var pair := Orient(persons, id, s);
      (SexOf(persons, id) == "M" && SexOf(persons, s) == "F" ==> pair == (id, s)) &&
      (SexOf(persons, id) == "F" && SexOf(persons, s) == "M" ==> pair == (s, id)) &&
      (!(SexOf(persons, id) == "M" && SexOf(persons, s) == "F") && !(SexOf(persons, id) == "F" && SexOf(persons, s) == "M") ==>
        pair == (id, s))
  {
    BelowAsymmetric(id, s);
  }
}
