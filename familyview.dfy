/**
 * The family viewer: the lookup maps built once from the people list, the
 * small family subset drawn around a focused person with its dangling
 * links removed, the node captions, the date formatter, the home person,
 * the sibling list of the person card and the search suggestions.
 */
module FamilyView {
  import opened Text
  import opened Genealogy

  // ---------------------------------------------------------------------
  // buildLookups

  /** `peopleMap.set(person.id, person)` for each person in turn: a later person with the same id wins. */
  function PeopleMap(pm: map<Id, Person>, people: seq<Person>): map<Id, Person> {
    if people == [] then pm
    else
      var p := people[|people| - 1];
      PeopleMap(pm, people[..|people| - 1])[p.id := p]
  }

  /** The `addChild` helper: the child appended to the parent's list, which is created when missing. */
  function AddChild(cm: map<Id, seq<Id>>, parent: Id, child: Id): map<Id, seq<Id>> {
    cm[parent := (if parent in cm then cm[parent] else []) + [child]]
  }

  /** One person's contribution to `childrenMap`: under its father, then under its mother. */
  function AddToParents(cm: map<Id, seq<Id>>, p: Person): map<Id, seq<Id>> {
    var c1 := if p.fid != "" then AddChild(cm, p.fid, p.id) else cm;
    if p.mid != "" then AddChild(c1, p.mid, p.id) else c1
  }

  /** `childrenMap` after the people so far. */
  function ChildrenMap(cm: map<Id, seq<Id>>, people: seq<Person>): map<Id, seq<Id>> {
    if people == [] then cm
    else AddToParents(ChildrenMap(cm, people[..|people| - 1]), people[|people| - 1])
  }

  /** Every entry of the people map is filed under its own id. */
  ghost predicate KeyedById(pm: map<Id, Person>) {
    forall k :: k in pm ==> pm[k].id == k
  }

  /**
   * Reference meaning of a child list: the ids of the people naming `x` as
   * father or mother, in list order (a person naming `x` as both is listed
   * twice).
   */
  function ChildIdsOf(people: seq<Person>, x: Id): seq<Id> {
    if people == [] then []
    else
      var p := people[|people| - 1];
      ChildIdsOf(people[..|people| - 1], x) + (if p.fid == x then [p.id] else []) + (if p.mid == x then [p.id] else [])
  }

  /** The two lookup maps of the viewer, filled in place by `buildLookups`. */
  class Lookups {
    var peopleMap: map<Id, Person>
    var childrenMap: map<Id, seq<Id>>

    constructor ()
      ensures peopleMap == map[] && childrenMap == map[]
    {
      peopleMap, childrenMap := map[], map[];
    }

    /** `buildLookups`: each person filed under its id and appended to its parents' child lists. */
    method BuildLookups(people: seq<Person>)
      modifies this
      ensures peopleMap == PeopleMap(old(peopleMap), people)
      ensures childrenMap == ChildrenMap(old(childrenMap), people)
    {
      var pm, cm := peopleMap, childrenMap;
      for i := 0 to |people|
        invariant pm == PeopleMap(old(peopleMap), people[..i])
        invariant cm == ChildrenMap(old(childrenMap), people[..i])
      {
        assert people[..i + 1][..i] == people[..i];
        var p := people[i];
        pm := pm[p.id := p];
        if p.fid != "" {
          cm := AddChild(cm, p.fid, p.id);
        }
        if p.mid != "" {
          cm := AddChild(cm, p.mid, p.id);
        }
      }
      assert people[..|people|] == people;
      peopleMap, childrenMap := pm, cm;
    }

    /** `getFamilySet(centerId)` on the current maps; nothing is changed. */
    method GetFamilySet(centerId: Id) returns (nodes: seq<ShownNode>)
      ensures nodes == FamilySet(peopleMap, childrenMap, centerId)
    {
      nodes := FamilySetOf(peopleMap, childrenMap, centerId);
    }
  }

  /** Filing people under their ids keeps every entry under its own id and files every person. */
  lemma {:induction false} PeopleMapKeyed(pm: map<Id, Person>, people: seq<Person>)
    requires KeyedById(pm)
    ensures KeyedById(PeopleMap(pm, people))
    ensures forall i :: 0 <= i < |people| ==> people[i].id in PeopleMap(pm, people)
    ensures forall k :: k in PeopleMap(pm, people) ==> k in pm || exists i :: 0 <= i < |people| && people[i].id == k
  {
    if people != [] {
      var init := people[..|people| - 1];
      PeopleMapKeyed(pm, init);
      assert forall i :: 0 <= i < |init| ==> init[i] == people[i];
    }
  }

  /** The person a later row of the same id does not override is the one filed. */
  lemma {:induction false} PeopleMapLastWins(pm: map<Id, Person>, people: seq<Person>, i: nat)
    requires i < |people|
    requires forall j :: i < j < |people| ==> people[j].id != people[i].id
    ensures people[i].id in PeopleMap(pm, people) && PeopleMap(pm, people)[people[i].id] == people[i]
  {
    if i < |people| - 1 {
      PeopleMapLastWins(pm, people[..|people| - 1], i);
    }
  }

  /**
   * Starting from empty maps, the child list of `x` (a non-empty id) holds
   * exactly the ids of the people naming `x` as a parent, in list order,
   * and `x` has a list exactly when someone names it.
   */
  lemma {:induction false} ChildrenMapMeaning(people: seq<Person>, x: Id)
    requires x != ""
    ensures x in ChildrenMap(map[], people) <==> ChildIdsOf(people, x) != []
    ensures x in ChildrenMap(map[], people) ==> ChildrenMap(map[], people)[x] == ChildIdsOf(people, x)
  {
    if people != [] {
      ChildrenMapMeaning(people[..|people| - 1], x);
    }
  }

  /** The reference child list holds exactly the people naming `x` as a parent. */
  lemma {:induction false} ChildIdsOfMembers(people: seq<Person>, x: Id, c: Id)
    ensures c in ChildIdsOf(people, x) <==> exists i :: 0 <= i < |people| && people[i].id == c && (people[i].fid == x || people[i].mid == x)
  {
    if people != [] {
      var init := people[..|people| - 1];
      ChildIdsOfMembers(init, x, c);
      assert forall i :: 0 <= i < |init| ==> init[i] == people[i];
    }
  }

  // ---------------------------------------------------------------------
  // getFamilySet

  /** A drawn node: the sanitised clone with its precomputed `_initials` and `_label`. */
  datatype ShownNode = ShownNode(person: Person, initials: string, caption: string)

  /** `addNode(id)`: a person not yet in the set is added at the end. */
  function AddNode(pm: map<Id, Person>, order: seq<Id>, id: Id): (r: seq<Id>)
    ensures forall x :: x in r <==> x in order || (x == id && id in pm)
  {
    if id in pm && id !in order then order + [id] else order
  }

  function AddNodes(pm: map<Id, Person>, order: seq<Id>, ids: seq<Id>): (r: seq<Id>)
    ensures forall x :: x in r <==> x in order || (x in ids && x in pm)
  {
    if ids == [] then order
    else
      var r := AddNodes(pm, order, ids[..|ids| - 1]);
      assert forall x :: x in ids <==> x in ids[..|ids| - 1] || x == ids[|ids| - 1];
      AddNode(pm, r, ids[|ids| - 1])
  }

  /** The ids the subset holds, in the order `addNode` met them: the person, the parents, the spouses, the children. */
  function FamilyIds(pm: map<Id, Person>, cm: map<Id, seq<Id>>, c: Id): (r: seq<Id>)
    requires c in pm
    ensures forall x :: x in r ==> x in pm
  {
    var p := pm[c];
    var o1 := AddNode(pm, [], c);
    var o2 := if p.fid != "" then AddNode(pm, o1, p.fid) else o1;
    var o3 := if p.mid != "" then AddNode(pm, o2, p.mid) else o2;
    var o4 := AddNodes(pm, o3, p.pids);
    if c in cm then AddNodes(pm, o4, cm[c]) else o4
  }

  /** `nodeIds`: the ids of the cloned people. */
  function NodeIdSet(pm: map<Id, Person>, ids: seq<Id>): set<Id>
    requires forall x :: x in ids ==> x in pm
  {
    set i | 0 <= i < |ids| :: pm[ids[i]].id
  }

  /** Links to people outside the subset dropped: spouses filtered, a missing parent set to `null`. */
  function Sanitised(p: Person, ids: set<Id>): Person {
    p.(pids := Filter(p.pids, (x: Id) => x in ids),
       fid := if p.fid != "" && p.fid !in ids then "" else p.fid,
       mid := if p.mid != "" && p.mid !in ids then "" else p.mid)
  }

  /** The caption fields computed for a sanitised clone. */
  function Shown(p: Person): ShownNode {
    ShownNode(p, NodeInitials(p.name, p.imageUrl), FormatNameForNode(p.name))
  }

  /** The sanitising half of the `nodes.map(...)` pass: each clone's links checked against `nodeIds`. */
  function Clones(pm: map<Id, Person>, ids: seq<Id>, nodeIds: set<Id>): (r: seq<Person>)
    requires forall x :: x in ids ==> x in pm
    ensures |r| == |ids|
  {
    if ids == [] then []
    else Clones(pm, ids[..|ids| - 1], nodeIds) + [Sanitised(pm[ids[|ids| - 1]], nodeIds)]
  }

  /** `getFamilySet(centerId)`: nothing for an unknown person, otherwise the sanitised, captioned subset. */
  function FamilySet(pm: map<Id, Person>, cm: map<Id, seq<Id>>, c: Id): seq<ShownNode> {
    if c !in pm then []
    else
      var ids := FamilyIds(pm, cm, c);
      MapSeq(Clones(pm, ids, NodeIdSet(pm, ids)), Shown)
  }

  /** The steps of `getFamilySet`: the `addNode` calls, the sanitising loop over the clones, then the captions. */
  method FamilySetOf(pm: map<Id, Person>, cm: map<Id, seq<Id>>, c: Id) returns (nodes: seq<ShownNode>)
    ensures nodes == FamilySet(pm, cm, c)
  {
    if c !in pm {
      return [];
    }
    var order := FamilyIdsOf(pm, cm, c);
    var nodeIds := NodeIdSet(pm, order);
    var clones := [];
    for i := 0 to |order|
      invariant clones == Clones(pm, order[..i], nodeIds)
    {
      ClonesSnoc(pm, order, i, nodeIds);
      clones := clones + [Sanitised(pm[order[i]], nodeIds)];
    }
    assert order[..|order|] == order;
    nodes := MapSeq(clones, Shown);
  }

  lemma ClonesSnoc(pm: map<Id, Person>, ids: seq<Id>, i: nat, nodeIds: set<Id>)
    requires i < |ids| && forall x :: x in ids ==> x in pm
    ensures Clones(pm, ids[..i + 1], nodeIds) == Clones(pm, ids[..i], nodeIds) + [Sanitised(pm[ids[i]], nodeIds)]
  {
    assert ids[..i + 1][..i] == ids[..i];
  }

  /** The `addNode` calls of `getFamilySet`. */
  method FamilyIdsOf(pm: map<Id, Person>, cm: map<Id, seq<Id>>, c: Id) returns (order: seq<Id>)
    requires c in pm
    ensures order == FamilyIds(pm, cm, c)
  {
    var p := pm[c];
    order := AddNode(pm, [], c);
    if p.fid != "" {
      order := AddNode(pm, order, p.fid);
    }
    if p.mid != "" {
      order := AddNode(pm, order, p.mid);
    }
    order := AddNodesLoop(pm, order, p.pids);
    if c in cm {
      order := AddNodesLoop(pm, order, cm[c]);
    }
  }

  /** The `forEach(pid => addNode(pid))` loops. */
  method AddNodesLoop(pm: map<Id, Person>, order: seq<Id>, ids: seq<Id>) returns (r: seq<Id>)
    ensures r == AddNodes(pm, order, ids)
  {
    r := order;
    for i := 0 to |ids|
      invariant r == AddNodes(pm, order, ids[..i])
    {
      assert ids[..i + 1][..i] == ids[..i];
      r := AddNode(pm, r, ids[i]);
    }
    assert ids[..|ids|] == ids;
  }

  lemma {:induction false} AddNodesDistinct(pm: map<Id, Person>, order: seq<Id>, ids: seq<Id>)
    requires Distinct(order) && forall x :: x in order ==> x in pm
    ensures Distinct(AddNodes(pm, order, ids)) && forall x :: x in AddNodes(pm, order, ids) ==> x in pm
  {
    if ids != [] {
      AddNodesDistinct(pm, order, ids[..|ids| - 1]);
    }
  }

  lemma {:induction false} AddNodesPrefix(pm: map<Id, Person>, order: seq<Id>, ids: seq<Id>)
    ensures |AddNodes(pm, order, ids)| >= |order| && AddNodes(pm, order, ids)[..|order|] == order
  {
    if ids != [] {
      AddNodesPrefix(pm, order, ids[..|ids| - 1]);
    }
  }

  /** The subset's ids: the person first, each id once, exactly the known ones among the person, its parents, spouses and children. */
  lemma FamilyIdsMeaning(pm: map<Id, Person>, cm: map<Id, seq<Id>>, c: Id)
    requires c in pm
    ensures var ids := FamilyIds(pm, cm, c); ids != [] && ids[0] == c && Distinct(ids)
    ensures forall x :: x in FamilyIds(pm, cm, c) <==>
      (x in pm && (x == c || (x != "" && (x == pm[c].fid || x == pm[c].mid)) ||
        x in pm[c].pids || (c in cm && x in cm[c])))
  {
    FamilyIdsFront(pm, cm, c);
  }

  lemma FamilyIdsFront(pm: map<Id, Person>, cm: map<Id, seq<Id>>, c: Id)
    requires c in pm
    ensures var ids := FamilyIds(pm, cm, c); ids != [] && ids[0] == c && Distinct(ids)
  {
    var p := pm[c];
    var o1 := AddNode(pm, [], c);
    var o2 := if p.fid != "" then AddNode(pm, o1, p.fid) else o1;
    var o3 := if p.mid != "" then AddNode(pm, o2, p.mid) else o2;
    assert o3 != [] && o3[0] == c && Distinct(o3);
    var o4 := AddNodes(pm, o3, p.pids);
    AddNodesDistinct(pm, o3, p.pids);
    AddNodesPrefix(pm, o3, p.pids);
    if c in cm {
      AddNodesDistinct(pm, o4, cm[c]);
      AddNodesPrefix(pm, o4, cm[c]);
    }
  }

  lemma {:induction false} ClonesAt(pm: map<Id, Person>, ids: seq<Id>, nodeIds: set<Id>)
    requires forall x :: x in ids ==> x in pm
    ensures forall i :: 0 <= i < |ids| ==> Clones(pm, ids, nodeIds)[i] == Sanitised(pm[ids[i]], nodeIds)
  {
    if ids != [] {
      var init := ids[..|ids| - 1];
      ClonesAt(pm, init, nodeIds);
      assert forall i :: 0 <= i < |init| ==> init[i] == ids[i];
    }
  }

  /** With every person filed under its own id, `nodeIds` is the set of the subset's ids. */
  lemma NodeIdSetKeyed(pm: map<Id, Person>, ids: seq<Id>)
    requires KeyedById(pm) && forall x :: x in ids ==> x in pm
    ensures forall y :: y in NodeIdSet(pm, ids) <==> y in ids
  {
    forall y | y in ids ensures y in NodeIdSet(pm, ids) {
      var i :| 0 <= i < |ids| && ids[i] == y;
      assert pm[ids[i]].id == y;
    }
  }

  /** After sanitising, every spouse and parent link points into the set (or the parent is `null`). */
  lemma SanitisedInside(p: Person, ids: set<Id>)
    ensures forall y :: y in Sanitised(p, ids).pids ==> y in ids
    ensures Sanitised(p, ids).fid == "" || Sanitised(p, ids).fid in ids
    ensures Sanitised(p, ids).mid == "" || Sanitised(p, ids).mid in ids
  {
  }

  /**
   * `getFamilySet` gives `[]` exactly for an unknown person; otherwise one
   * node per id of `FamilyIdsMeaning`, in that order (so the person comes
   * first and none repeats), and every spouse and parent link of a
   * returned node points inside the subset (or the parent is `null`).
   */
  lemma FamilySetMeaning(pm: map<Id, Person>, cm: map<Id, seq<Id>>, c: Id)
    requires KeyedById(pm)
    ensures FamilySet(pm, cm, c) == [] <==> c !in pm
    ensures c in pm ==> |FamilySet(pm, cm, c)| == |FamilyIds(pm, cm, c)|
    ensures c in pm ==> forall i :: 0 <= i < |FamilySet(pm, cm, c)| ==>
      FamilySet(pm, cm, c)[i].person.id == FamilyIds(pm, cm, c)[i]
    ensures c in pm ==> forall i :: 0 <= i < |FamilySet(pm, cm, c)| ==>
      forall y :: y in FamilySet(pm, cm, c)[i].person.pids ==> y in FamilyIds(pm, cm, c)
    ensures c in pm ==> forall i :: 0 <= i < |FamilySet(pm, cm, c)| ==>
      FamilySet(pm, cm, c)[i].person.fid == "" || FamilySet(pm, cm, c)[i].person.fid in FamilyIds(pm, cm, c)
    ensures c in pm ==> forall i :: 0 <= i < |FamilySet(pm, cm, c)| ==>
      FamilySet(pm, cm, c)[i].person.mid == "" || FamilySet(pm, cm, c)[i].person.mid in FamilyIds(pm, cm, c)
  {
    if c in pm {
      var ids := FamilyIds(pm, cm, c);
      var nodeIds := NodeIdSet(pm, ids);
      var clones := Clones(pm, ids, nodeIds);
      var r := MapSeq(clones, Shown);
      FamilyIdsMeaning(pm, cm, c);
      NodeIdSetKeyed(pm, ids);
      ClonesAt(pm, ids, nodeIds);
      forall i | 0 <= i < |r|
        ensures r[i].person.id == ids[i]
        ensures forall y :: y in r[i].person.pids ==> y in ids
        ensures r[i].person.fid == "" || r[i].person.fid in ids
        ensures r[i].person.mid == "" || r[i].person.mid in ids
      {
        assert r[i].person == clones[i] == Sanitised(pm[ids[i]], nodeIds);
        SanitisedInside(pm[ids[i]], nodeIds);
      }
    }
  }

  /** A person's clones in two subsets differ only in the links, never in the id, the name or the captions' source. */
  lemma SanitisedKeeps(p: Person, ids: set<Id>)
    ensures var q := Sanitised(p, ids); q.id == p.id && q.name == p.name && q.birth == p.birth && q.imageUrl == p.imageUrl
    ensures forall y :: y in Sanitised(p, ids).pids <==> y in p.pids && y in ids
  {
  }

  // ---------------------------------------------------------------------
  // captions

  /** The name's words, as `fullName ? fullName.split(/\s+/) : []`. */
  function NameParts(name: string): seq<string> {
    var full := Trim(name);
    if full != [] then SplitSpaces(full) else []
  }

  /** `?` for no word, the upper-case initial of one word, or the initials of the first and last word. */
  function InitialsOf(parts: seq<string>): string {
    if |parts| == 0 then "?"
    else if |parts| == 1 then UpperInitial(parts[0])
    else UpperInitial(parts[0]) + UpperInitial(parts[|parts| - 1])
  }

  /** `_initials`: empty when the node has a photo, otherwise the initials of its name. */
  function NodeInitials(name: string, imageUrl: string): string {
    if imageUrl != "" && Trim(imageUrl) != "" then "" else InitialsOf(NameParts(name))
  }

  /** `getInitials(name)`: the same rule on the non-empty words. */
  function GetInitials(name: string): string {
    InitialsOf(Filter(SplitSpaces(Trim(name)), (w: string) => w != []))
  }

  /** `formatNameForNode` and `_label`: all words but the last, then `.` and the upper-case surname initial. */
  function FormatNameForNode(name: string): string {
    var parts := NameParts(name);
    if |parts| <= 1 then Trim(name)
    else Join(parts[..|parts| - 1], " ") + "." + UpperInitial(parts[|parts| - 1])
  }

  /** Without a photo the node's initials are those `getInitials` gives. */
  lemma NodeInitialsAgree(name: string, imageUrl: string)
    requires imageUrl == "" || Trim(imageUrl) == ""
    ensures NodeInitials(name, imageUrl) == GetInitials(name)
  {
    var full := Trim(name);
    var parts := SplitSpaces(full);
    if full != [] {
      SplitSpacesWords(full);
      FilterKeepsAll(parts);
    } else {
      assert parts == [""];
      assert Filter(parts, (w: string) => w != []) == [];
    }
  }

  lemma {:induction false} FilterKeepsAll(parts: seq<string>)
    requires forall k :: 0 <= k < |parts| ==> IsWord(parts[k])
    ensures Filter(parts, (w: string) => w != []) == parts
  {
    if parts != [] {
      FilterKeepsAll(parts[1..]);
    }
  }

  /** For a name written as words separated by single spaces, `getInitials` takes the first and the last word's initial. */
  lemma InitialsOfWords(words: seq<string>)
    requires |words| >= 2 && forall k :: 0 <= k < |words| ==> IsWord(words[k])
    ensures GetInitials(Join(words, " ")) == UpperInitial(words[0]) + UpperInitial(words[|words| - 1])
    ensures |GetInitials(Join(words, " "))| == 2
  {
    var s := Join(words, " ");
    JoinWordsEdges(words);
    TrimNoEdgeSpace(s);
    SplitSpacesJoin(words);
    FilterKeepsAll(words);
    assert IsWord(words[0]) && IsWord(words[|words| - 1]);
  }

  /** For such a name the node label keeps every word but the last and shortens the surname to its initial. */
  lemma LabelOfWords(words: seq<string>)
    requires |words| >= 2 && forall k :: 0 <= k < |words| ==> IsWord(words[k])
    ensures FormatNameForNode(Join(words, " ")) ==
      Join(words[..|words| - 1], " ") + "." + UpperInitial(words[|words| - 1])
    ensures |UpperInitial(words[|words| - 1])| == 1
  {
    var s := Join(words, " ");
    JoinWordsEdges(words);
    TrimNoEdgeSpace(s);
    SplitSpacesJoin(words);
    assert IsWord(words[|words| - 1]);
  }

  /** A one-word name keeps its (trimmed) form and its initial. */
  lemma CaptionsOfWord(w: string)
    requires IsWord(w)
    ensures FormatNameForNode(w) == w
    ensures GetInitials(w) == [UpperChar(w[0])]
  {
    assert w[0] in w && w[|w| - 1] in w;
    TrimNoEdgeSpace(w);
    SplitRunsNoSep(w, IsSpace);
    FilterKeepsAll([w]);
  }

  // ---------------------------------------------------------------------
  // formatDate

  /**
   * The year as `formatDate` prints it: a year below 100 is put in the
   * 1900s when it is more than ten years past the current two-digit year,
   * in the 2000s otherwise.
   */
  function FullYear(y: nat, currentYY: nat): (r: nat)
    ensures y >= 100 ==> r == y
    ensures y < 100 ==> r % 100 == y && (1900 <= r < 2000 <==> y > currentYY + 10) && (2000 <= r < 2100 <==> y <= currentYY + 10)
  {
    if y < 100 then (if y > currentYY + 10 then 1900 + y else 2000 + y) else y
  }

  /** `${year}`: `NaN` when `parseInt` found no digits. */
  function YearText(y: Option<nat>, currentYY: nat): string {
    if y.None? then "NaN" else NatToString(FullYear(y.value, currentYY))
  }

  /** `formatDate(dateStr)` with the current two-digit year as a parameter. */
  function FormatDate(dateStr: string, currentYY: nat): string
    requires currentYY < 100
  {
    if dateStr == "" then ""
    else
      var parts := SplitChar(dateStr, '-');
      if |parts| == 3 then parts[0] + "-" + parts[1] + "-" + YearText(ParseInt(parts[2]), currentYY)
      else dateStr
  }

  /**
   * A string without exactly three `-` parts is returned as it is; one with
   * three keeps its day and month parts and gets the printed year as the
   * third part.
   */
  lemma FormatDateParts(dateStr: string, currentYY: nat)
    requires currentYY < 100
    ensures |SplitChar(dateStr, '-')| != 3 ==> FormatDate(dateStr, currentYY) == dateStr
    ensures dateStr != "" && |SplitChar(dateStr, '-')| == 3 ==>
      var parts := SplitChar(dateStr, '-');
      SplitChar(FormatDate(dateStr, currentYY), '-') == [parts[0], parts[1], YearText(ParseInt(parts[2]), currentYY)]
  {
    var parts := SplitChar(dateStr, '-');
    if dateStr != "" && |parts| == 3 {
      var y := YearText(ParseInt(parts[2]), currentYY);
      YearTextNoDash(ParseInt(parts[2]), currentYY);
      SplitThree(parts[0], parts[1], y);
    }
  }

  lemma SplitTwo(b: string, c: string)
    requires '-' !in b && '-' !in c
    ensures SplitChar(b + "-" + c, '-') == [b, c]
  {
    SplitCharNone(c, '-');
    SplitCharCons(b, '-', c);
  }

  lemma DashAssoc(a: string, b: string, c: string)
    ensures a + "-" + b + "-" + c == a + "-" + (b + "-" + c)
  {
  }

  lemma SplitThree(a: string, b: string, c: string)
    requires '-' !in a && '-' !in b && '-' !in c
    ensures SplitChar(a + "-" + b + "-" + c, '-') == [a, b, c]
  {
    DashAssoc(a, b, c);
    SplitTwo(b, c);
    SplitCharCons(a, '-', b + "-" + c);
  }

  lemma YearTextNoDash(y: Option<nat>, currentYY: nat)
    ensures '-' !in YearText(y, currentYY)
  {
    if y.Some? {
      var s := NatToString(FullYear(y.value, currentYY));
      assert forall k :: 0 <= k < |s| ==> IsDigit(s[k]);
    }
  }

  /** Formatting a formatted date changes nothing more: a printed year is four digits or `NaN`. */
  lemma FormatDateIdempotent(dateStr: string, currentYY: nat)
    requires currentYY < 100
    ensures FormatDate(FormatDate(dateStr, currentYY), currentYY) == FormatDate(dateStr, currentYY)
  {
    var parts := SplitChar(dateStr, '-');
    FormatDateParts(dateStr, currentYY);
    if dateStr != "" && |parts| == 3 {
      var y := ParseInt(parts[2]);
      YearTextReads(y, currentYY);
      if y.Some? {
        assert FullYear(FullYear(y.value, currentYY), currentYY) == FullYear(y.value, currentYY);
      }
    }
  }

  /** A date assembled from three dash-free parts keeps its day and month and gets the printed year. */
  lemma FormatDateOfParts(day: string, month: string, year: string, currentYY: nat)
    requires currentYY < 100 && '-' !in day && '-' !in month && '-' !in year
    ensures FormatDate(day + "-" + month + "-" + year, currentYY) == day + "-" + month + "-" + YearText(ParseInt(year), currentYY)
  {
    SplitThree(day, month, year);
  }

  /** A printed year reads back as itself, and `NaN` as `NaN`. */
  lemma YearTextReads(y: Option<nat>, currentYY: nat)
    ensures y.None? ==> ParseInt(YearText(y, currentYY)) == None
    ensures y.Some? ==> ParseInt(YearText(y, currentYY)) == Some(FullYear(y.value, currentYY))
  {
    if y.None? {
      ParseIntNaN([], "NaN");
      assert [] + "NaN" == "NaN";
    }
  }

  // ---------------------------------------------------------------------
  // getHomePersonId

  /** The name of the default home person. */
  const HomeName := "SRIKANTH DHARMAVARAM"

  /** `PEOPLE.find(p => p.name === name)`, as an index. */
  function FindByName(people: seq<Person>, name: string): (r: Option<nat>)
    ensures r.Some? ==> (r.value < |people| && people[r.value].name == name &&
      forall k :: 0 <= k < r.value ==> people[k].name != name)
    ensures r.None? ==> forall k :: 0 <= k < |people| ==> people[k].name != name
  {
    if people == [] then None
    else if people[0].name == name then Some(0)
    else
      var rest := FindByName(people[1..], name);
      if rest.Some? then Some(rest.value + 1) else None
  }

  /** `getHomePersonId` with the stored id (`""` when nothing is stored) as a parameter. */
  function HomePersonId(stored: string, people: seq<Person>, pm: map<Id, Person>): Option<Id> {
    if stored != "" && stored in pm then Some(stored)
    else
      var home := FindByName(people, HomeName);
      if home.Some? then Some(people[home.value].id)
      else if |people| > 0 then Some(people[0].id)
      else None
  }

  /**
   * A stored id naming a person is kept; otherwise the first person named
   * as the default home person, else the first person; `null` only when
   * there is neither a usable stored id nor any person.
   */
  lemma HomePersonMeaning(stored: string, people: seq<Person>, pm: map<Id, Person>)
    ensures HomePersonId(stored, people, pm).None? <==> (stored == "" || stored !in pm) && people == []
    ensures stored != "" && stored in pm ==> HomePersonId(stored, people, pm) == Some(stored)
    ensures !(stored != "" && stored in pm) && (exists k :: 0 <= k < |people| && people[k].name == HomeName) ==>
      exists k :: 0 <= k < |people| && people[k].name == HomeName && HomePersonId(stored, people, pm) == Some(people[k].id) &&
        forall j :: 0 <= j < k ==> people[j].name != HomeName
    ensures !(stored != "" && stored in pm) && (forall k :: 0 <= k < |people| ==> people[k].name != HomeName) && people != [] ==>
      HomePersonId(stored, people, pm) == Some(people[0].id)
  {
    var home := FindByName(people, HomeName);
    if home.Some? {
      assert people[home.value].name == HomeName;
    }
  }

  // ---------------------------------------------------------------------
  // the person card's sibling list

  /** The child list of a parent id, empty for no parent or no list. */
  function ListOf(cm: map<Id, seq<Id>>, parent: Id): seq<Id> {
    if parent != "" && parent in cm then cm[parent] else []
  }

  /** `siblingSet` of `openPersonModal`: the father's then the mother's children, each once, the person removed. */
  function SiblingIds(cm: map<Id, seq<Id>>, p: Person): (r: seq<Id>)
    ensures Distinct(r) && p.id !in r
    ensures forall x :: x in r <==> x != p.id && (x in ListOf(cm, p.fid) || x in ListOf(cm, p.mid))
  {
    WithoutDistinct(Dedup(ListOf(cm, p.fid) + ListOf(cm, p.mid)), p.id);
    Without(Dedup(ListOf(cm, p.fid) + ListOf(cm, p.mid)), p.id)
  }

  /**
   * Over lookups built from the people list, the card's siblings are the
   * other people who share the person's father or mother.
   */
  lemma SiblingsShareParent(people: seq<Person>, p: Person, x: Id)
    ensures x in SiblingIds(ChildrenMap(map[], people), p) <==> (x != p.id &&
      exists i :: 0 <= i < |people| && people[i].id == x &&
        ((p.fid != "" && (people[i].fid == p.fid || people[i].mid == p.fid)) ||
         (p.mid != "" && (people[i].fid == p.mid || people[i].mid == p.mid))))
  {
    var cm := ChildrenMap(map[], people);
    if p.fid != "" {
      ChildrenMapMeaning(people, p.fid);
      ChildIdsOfMembers(people, p.fid, x);
    }
    if p.mid != "" {
      ChildrenMapMeaning(people, p.mid);
      ChildIdsOfMembers(people, p.mid, x);
    }
  }

  // ---------------------------------------------------------------------
  // handleSearch

  /** The most suggestions shown. */
  const MaxSuggestions := 20

  /** Whether a person's name contains the (lower-cased, trimmed) query. */
  function NameMatches(query: string): Person -> bool {
    (p: Person) => Includes(ToLower(p.name), query)
  }

  /** The first twenty people, in list order, whose name contains the query. */
  function FirstMatches(people: seq<Person>, query: string): seq<Person> {
    var all := Filter(people, NameMatches(query));
    if |all| > MaxSuggestions then all[..MaxSuggestions] else all
  }

  /** The suggestions for a typed value: none below two characters, else the first twenty matches. */
  function Suggestions(people: seq<Person>, typed: string): seq<Person> {
    var query := Trim(ToLower(typed));
    if |query| < 2 then [] else FirstMatches(people, query)
  }

  /** `handleSearch`: the query normalised, then the matching loop. */
  method HandleSearch(people: seq<Person>, typed: string) returns (matches: seq<Person>)
    ensures matches == Suggestions(people, typed)
  {
    var query := Trim(ToLower(typed));
    if |query| < 2 {
      return [];
    }
    matches := SearchLoop(people, query);
  }

  /** The loop of `handleSearch` over the people, which stops at the twentieth match. */
  method SearchLoop(people: seq<Person>, query: string) returns (matches: seq<Person>)
    ensures matches == FirstMatches(people, query)
  {
    matches := [];
    var matching := NameMatches(query);
    var i := 0;
    while i < |people|
      invariant 0 <= i <= |people|
      invariant matches == Filter(people[..i], matching)
      invariant |matches| < MaxSuggestions
    {
      FilterStep(people, i, matching);
      if matching(people[i]) {
        matches := matches + [people[i]];
        if |matches| >= MaxSuggestions {
          FirstMatchesStop(people, i + 1, query);
          return;
        }
      }
      i := i + 1;
    }
    FirstMatchesAll(people, query);
  }

  lemma FilterStep(people: seq<Person>, i: nat, keep: Person -> bool)
    requires i < |people|
    ensures Filter(people[..i + 1], keep) == Filter(people[..i], keep) + (if keep(people[i]) then [people[i]] else [])
  {
    FilterAppend(people[..i], [people[i]], keep);
    assert people[..i + 1] == people[..i] + [people[i]];
  }

  /** Once twenty matches are found the rest of the list is not needed. */
  lemma FirstMatchesStop(people: seq<Person>, i: nat, query: string)
    requires i <= |people| && |Filter(people[..i], NameMatches(query))| == MaxSuggestions
    ensures FirstMatches(people, query) == Filter(people[..i], NameMatches(query))
  {
    var keep := NameMatches(query);
    FilterAppend(people[..i], people[i..], keep);
    assert people == people[..i] + people[i..];
  }

  lemma FirstMatchesAll(people: seq<Person>, query: string)
    requires |Filter(people[..|people|], NameMatches(query))| < MaxSuggestions
    ensures FirstMatches(people, query) == Filter(people[..|people|], NameMatches(query))
  {
    assert people[..|people|] == people;
  }

  /** The suggestions are at most twenty matching people, taken in list order, and all of them when there are fewer. */
  lemma SuggestionsMeaning(people: seq<Person>, typed: string)
    ensures var r := Suggestions(people, typed); var query := Trim(ToLower(typed));
      |r| <= MaxSuggestions &&
      (|query| < 2 ==> r == []) &&
      (forall p :: p in r ==> p in people && Contains(ToLower(p.name), query)) &&
      (|query| >= 2 ==> r == Filter(people, NameMatches(query))[..|r|]) &&
      (|query| >= 2 && |r| < MaxSuggestions ==> forall p :: p in people && Contains(ToLower(p.name), query) ==> p in r)
  {
    var query := Trim(ToLower(typed));
    var all := Filter(people, NameMatches(query));
    var r := Suggestions(people, typed);
    if |query| >= 2 {
      forall p | p in r ensures p in people && Contains(ToLower(p.name), query) {
        assert p in all;
      }
    }
  }
}
