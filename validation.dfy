/**
 * `runValidation` and `validateBeforeExport`: the draft's consistency
 * report. Each pass of the source is a function over the list it walks, so
 * the loops of the draft store can be checked against them; the lemmas
 * below say which draft defects make an error and which a warning.
 */
module DraftValidation {
  import opened Text
  import opened DraftData
  import opened DraftRelations

  datatype Level = Error | Warn

  /** What an issue reports; `Message` gives the text shown for it. */
  datatype Kind =
    | EmptyPersonId | NonStandardId | DuplicateId
    | MissingFather | OwnFather | MissingMother | OwnMother | SameParents
    | MissingSpouse | OwnSpouse | NotReciprocal
    | ContactWithoutId | ContactMissingPerson | ContactRepeated
    | PhotoMissingPerson | PhotoPathUnusual

  /** An issue about the person `id`; `other` is the parent, spouse or path it concerns. */
  datatype Issue = Issue(kind: Kind, id: Id, other: string)

  function LevelOf(k: Kind): Level {
    match k
    case EmptyPersonId | DuplicateId | MissingFather | OwnFather | MissingMother | OwnMother
      | MissingSpouse | OwnSpouse => Error
    case _ => Warn
  }

  /** The text of the issue, as the validation panel shows it. */
  function Message(i: Issue): string {
    match i.kind
    case EmptyPersonId => "Person with empty person_id found."
    case NonStandardId => "Non-standard person ID format: " + i.id
    case DuplicateId => "Duplicate person_id detected: " + i.id
    case MissingFather => i.id + " has missing father: " + i.other
    case OwnFather => i.id + " is linked as own father."
    case MissingMother => i.id + " has missing mother: " + i.other
    case OwnMother => i.id + " is linked as own mother."
    case SameParents => i.id + " has same ID for father and mother (" + i.other + ")."
    case MissingSpouse => i.id + " has missing spouse: " + i.other
    case OwnSpouse => i.id + " is linked as own spouse."
    case NotReciprocal => "Spouse link not reciprocal: " + i.id + " -> " + i.other
    case ContactWithoutId => "Contact row with empty person_id found."
    case ContactMissingPerson => "Contact points to missing person: " + i.id
    case ContactRepeated => "Multiple contact rows found for person: " + i.id
    case PhotoMissingPerson => "Photo mapping points to missing person: " + i.id
    case PhotoPathUnusual => "Photo path format looks unusual for " + i.id + ": " + i.other
  }

  predicate HasError(issues: seq<Issue>) {
    exists i :: 0 <= i < |issues| && LevelOf(issues[i].kind) == Error
  }

  lemma HasErrorAppend(a: seq<Issue>, b: seq<Issue>)
    ensures HasError(a + b) <==> HasError(a) || HasError(b)
  {
    if HasError(a + b) {
      var i :| 0 <= i < |a + b| && LevelOf((a + b)[i].kind) == Error;
      if i >= |a| {
        assert b[i - |a|] == (a + b)[i];
      } else {
        assert a[i] == (a + b)[i];
      }
    }
    if HasError(a) {
      var i :| 0 <= i < |a| && LevelOf(a[i].kind) == Error;
      assert (a + b)[i] == a[i];
    }
    if HasError(b) {
      var i :| 0 <= i < |b| && LevelOf(b[i].kind) == Error;
      assert (a + b)[i + |a|] == b[i];
    }
  }

  /** `issues.filter(i => i.level === 'error').length`. */
  function ErrorCount(issues: seq<Issue>): (n: nat)
    ensures n == 0 <==> !HasError(issues)
  {
    if issues == [] then 0
    else
      var rest := ErrorCount(issues[1..]);
      assert issues == [issues[0]] + issues[1..];
      HasErrorAppend([issues[0]], issues[1..]);
      (if LevelOf(issues[0].kind) == Error then 1 else 0) + rest
  }

  // ---------------------------------------------------------------------
  // The person pass

  /** The person pass's accumulators: the issues so far, `peopleIds` and `dupIds`. */
  datatype PersonScan = PersonScan(issues: seq<Issue>, people: seq<Id>, dups: seq<Id>)

  const NoScan := PersonScan([], [], [])

  /** `/^I\d+$/i`: the generated id form. */
  predicate StandardId(id: string) {
    IdNumber(id).Some?
  }

  /** One step of the person pass, for the normalised id `id`. */
  function ScanId(st: PersonScan, id: Id): PersonScan {
    if id == [] then st.(issues := st.issues + [Issue(EmptyPersonId, "", "")])
    else
      PersonScan(
        if StandardId(id) then st.issues else st.issues + [Issue(NonStandardId, id, "")],
        SetAdd(st.people, id),
        if id in st.people then SetAdd(st.dups, id) else st.dups)
  }

  function ScanIds(ids: seq<Id>): PersonScan {
    if ids == [] then NoScan else ScanId(ScanIds(ids[..|ids| - 1]), ids[|ids| - 1])
  }

  /** Two entries of `ids` are the non-empty id `x`. */
  ghost predicate Duplicated(ids: seq<Id>, x: Id) {
    x != [] && exists i, j :: 0 <= i < j < |ids| && ids[i] == x && ids[j] == x
  }

  lemma {:induction false} ScanIdsPeople(ids: seq<Id>)
    ensures forall x :: x in ScanIds(ids).people <==> x in ids && x != []
  {
    if ids != [] {
      ScanIdsPeople(ids[..|ids| - 1]);
      assert forall x :: x in ids <==> x in ids[..|ids| - 1] || x == ids[|ids| - 1];
    }
  }

  lemma {:induction false} ScanIdsErrors(ids: seq<Id>)
    ensures HasError(ScanIds(ids).issues) <==> [] in ids
  {
    if ids != [] {
      var init := ids[..|ids| - 1];
      var id := ids[|ids| - 1];
      var st := ScanIds(init);
      ScanIdsErrors(init);
      assert forall x :: x in ids <==> x in init || x == id;
      if id == [] {
        var one := [Issue(EmptyPersonId, "", "")];
        HasErrorAppend(st.issues, one);
        assert LevelOf(one[0].kind) == Error;
      } else if !StandardId(id) {
        HasErrorAppend(st.issues, [Issue(NonStandardId, id, "")]);
      }
    }
  }

  lemma {:induction false} ScanIdsDups(ids: seq<Id>)
    ensures forall x :: x in ScanIds(ids).dups <==> Duplicated(ids, x)
  {
    if ids != [] {
      var init := ids[..|ids| - 1];
      ScanIdsDups(init);
      ScanIdsPeople(init);
      forall x ensures Duplicated(ids, x) <==> Duplicated(init, x) || (x == ids[|ids| - 1] && x in init && x != []) {
        DuplicatedSnoc(ids, x);
      }
    }
  }

  lemma DuplicatedSnoc(ids: seq<Id>, x: Id)
    requires ids != []
    ensures var init := ids[..|ids| - 1];
      Duplicated(ids, x) <==> Duplicated(init, x) || (x == ids[|ids| - 1] && x in init && x != [])
  {
    var init := ids[..|ids| - 1];
    var n := |ids| - 1;
    if Duplicated(ids, x) {
      var i, j :| 0 <= i < j < |ids| && ids[i] == x && ids[j] == x;
      assert init[i] == ids[i];
      if j < n {
        assert init[j] == ids[j];
      }
    }
    if Duplicated(init, x) {
      var i, j :| 0 <= i < j < |init| && init[i] == x && init[j] == x;
      assert ids[i] == init[i] && ids[j] == init[j];
    }
    if x == ids[n] && x in init && x != [] {
      var i :| 0 <= i < |init| && init[i] == x;
      assert ids[i] == init[i];
    }
  }

  // ---------------------------------------------------------------------
  // The relations pass

  /** The father (or mother) check of one entry. */
  function ParentIssues(id: Id, parent: Id, father: bool, people: seq<Id>): seq<Issue> {
    if parent == [] then []
    else
      (if parent !in people then [Issue(if father then MissingFather else MissingMother, id, parent)] else []) +
      (if parent == id then [Issue(if father then OwnFather else OwnMother, id, "")] else [])
  }

  /** The check of one spouse; `t` is read for the other entry's spouse set. */
  function SpouseIssue(t: Relations, people: seq<Id>, id: Id, sid: Id): seq<Issue> {
    if sid !in people then [Issue(MissingSpouse, id, sid)]
    else if sid == id then [Issue(OwnSpouse, id, "")]
    else if id !in SpousesOf(t, sid) then [Issue(NotReciprocal, id, sid)]
    else []
  }

  function SpouseIssues(t: Relations, people: seq<Id>, id: Id, spouses: seq<Id>): seq<Issue> {
    if spouses == [] then []
    else SpouseIssues(t, people, id, spouses[..|spouses| - 1]) + SpouseIssue(t, people, id, spouses[|spouses| - 1])
  }

  function SameParentIssues(id: Id, rel: Relation): seq<Issue> {
    if rel.fid != [] && rel.mid != [] && rel.fid == rel.mid then [Issue(SameParents, id, rel.fid)] else []
  }

  /** Everything reported about one entry of the relations map. */
  function EntryIssues(t: Relations, people: seq<Id>, id: Id): seq<Issue> {
    if id !in people then []
    else
      var rel := RelOf(t, id);
      ParentIssues(id, rel.fid, true, people) + ParentIssues(id, rel.mid, false, people) +
      SameParentIssues(id, rel) + SpouseIssues(t, people, id, rel.spouses)
  }

  function RelationIssues(t: Relations, people: seq<Id>, ids: seq<Id>): seq<Issue> {
    if ids == [] then []
    else RelationIssues(t, people, ids[..|ids| - 1]) + EntryIssues(t, people, ids[|ids| - 1])
  }

  /** A parent link that is an error: set, and naming a missing person or the person itself. */
  predicate BadParent(id: Id, parent: Id, people: seq<Id>) {
    parent != [] && (parent !in people || parent == id)
  }

  /** An entry of an existing person with an error: a bad parent, or a spouse that is missing or itself. */
  ghost predicate BadEntry(t: Relations, people: seq<Id>, id: Id) {
    id in people &&
    (BadParent(id, RelOf(t, id).fid, people) || BadParent(id, RelOf(t, id).mid, people) ||
     exists s :: s in SpousesOf(t, id) && (s !in people || s == id))
  }

  lemma {:induction false} SpouseIssuesErrors(t: Relations, people: seq<Id>, id: Id, spouses: seq<Id>)
    ensures HasError(SpouseIssues(t, people, id, spouses)) <==> exists s :: s in spouses && (s !in people || s == id)
  {
    if spouses != [] {
      var init := spouses[..|spouses| - 1];
      var s := spouses[|spouses| - 1];
      SpouseIssuesErrors(t, people, id, init);
      HasErrorAppend(SpouseIssues(t, people, id, init), SpouseIssue(t, people, id, s));
      assert forall x :: x in spouses <==> x in init || x == s;
      assert HasError(SpouseIssue(t, people, id, s)) <==> s !in people || s == id by {
        if s !in people || s == id {
          assert LevelOf(SpouseIssue(t, people, id, s)[0].kind) == Error;
        }
      }
    }
  }

  lemma ParentIssuesErrors(id: Id, parent: Id, father: bool, people: seq<Id>)
    ensures HasError(ParentIssues(id, parent, father, people)) <==> BadParent(id, parent, people)
  {
    if parent != [] {
      var a: seq<Issue> := if parent !in people then [Issue(if father then MissingFather else MissingMother, id, parent)] else [];
      var b: seq<Issue> := if parent == id then [Issue(if father then OwnFather else OwnMother, id, "")] else [];
      HasErrorAppend(a, b);
      if parent !in people {
        assert LevelOf(a[0].kind) == Error;
      }
      if parent == id {
        assert LevelOf(b[0].kind) == Error;
      }
    }
  }

  lemma EntryIssuesErrors(t: Relations, people: seq<Id>, id: Id)
    ensures HasError(EntryIssues(t, people, id)) <==> BadEntry(t, people, id)
  {
    if id in people {
      var rel := RelOf(t, id);
      var a := ParentIssues(id, rel.fid, true, people);
      var b := ParentIssues(id, rel.mid, false, people);
      var c := SameParentIssues(id, rel);
      var d := SpouseIssues(t, people, id, rel.spouses);
      assert EntryIssues(t, people, id) == a + b + c + d;
      HasErrorAppend(a + b + c, d);
      HasErrorAppend(a + b, c);
      HasErrorAppend(a, b);
      ParentIssuesErrors(id, rel.fid, true, people);
      ParentIssuesErrors(id, rel.mid, false, people);
      SpouseIssuesErrors(t, people, id, rel.spouses);
      assert !HasError(c);
    }
  }

  /** The relations pass reports an error exactly when some visited entry has one. */
  lemma {:induction false} RelationIssuesErrors(t: Relations, people: seq<Id>, ids: seq<Id>)
    ensures HasError(RelationIssues(t, people, ids)) <==> exists id :: id in ids && BadEntry(t, people, id)
  {
    if ids != [] {
      var init := ids[..|ids| - 1];
      var last := ids[|ids| - 1];
      RelationIssuesErrors(t, people, init);
      EntryIssuesErrors(t, people, last);
      HasErrorAppend(RelationIssues(t, people, init), EntryIssues(t, people, last));
      assert forall x :: x in ids <==> x in init || x == last;
    }
  }

  lemma {:induction false} SpouseIssuesWarns(t: Relations, people: seq<Id>, id: Id, spouses: seq<Id>, sid: Id)
    requires sid in spouses && sid in people && sid != id && id !in SpousesOf(t, sid)
    ensures Issue(NotReciprocal, id, sid) in SpouseIssues(t, people, id, spouses)
  {
    var init := spouses[..|spouses| - 1];
    if spouses[|spouses| - 1] != sid {
      assert sid in init;
      SpouseIssuesWarns(t, people, id, init, sid);
    }
  }

  lemma {:induction false} RelationIssuesWarns(t: Relations, people: seq<Id>, ids: seq<Id>, id: Id, sid: Id)
    requires id in ids && id in people && sid in SpousesOf(t, id) && sid in people && sid != id && id !in SpousesOf(t, sid)
    ensures Issue(NotReciprocal, id, sid) in RelationIssues(t, people, ids)
  {
    var init := ids[..|ids| - 1];
    if ids[|ids| - 1] != id {
      assert id in init;
      RelationIssuesWarns(t, people, init, id, sid);
    } else {
      SpouseIssuesWarns(t, people, id, SpousesOf(t, id), sid);
      var rel := RelOf(t, id);
      assert EntryIssues(t, people, id) ==
        ParentIssues(id, rel.fid, true, people) + ParentIssues(id, rel.mid, false, people) +
        SameParentIssues(id, rel) + SpouseIssues(t, people, id, rel.spouses);
    }
  }

  // ---------------------------------------------------------------------
  // The contact and photo passes

  datatype ContactScan = ContactScan(issues: seq<Issue>, seen: seq<Id>)

  /** One step of the contact pass, for the contact's normalised id. */
  function ScanContact(people: seq<Id>, st: ContactScan, id: Id): ContactScan {
    if id == [] then st.(issues := st.issues + [Issue(ContactWithoutId, "", "")])
    else
      ContactScan(
        st.issues +
        (if id !in people then [Issue(ContactMissingPerson, id, "")] else []) +
        (if id in st.seen then [Issue(ContactRepeated, id, "")] else []),
        SetAdd(st.seen, id))
  }

  function ScanContacts(people: seq<Id>, ids: seq<Id>): ContactScan {
    if ids == [] then ContactScan([], [])
    else ScanContact(people, ScanContacts(people, ids[..|ids| - 1]), ids[|ids| - 1])
  }

  /** The normalised id of every contact row, in order. */
  function ContactIds(contacts: seq<Contact>): (r: seq<Id>)
    ensures |r| == |contacts| && forall i :: 0 <= i < |contacts| ==> r[i] == NormalizeId(contacts[i].personId)
  {
    MapSeq(contacts, (c: Contact) => NormalizeId(c.personId))
  }

  /** The accepted photo file extensions. */
  predicate PhotoExtension(e: string) {
    e == ".jpg" || e == ".jpeg" || e == ".png" || e == ".webp"
  }

  /** `/^icons\/I\d+\.(jpg|jpeg|png|webp)$/i`. */
  predicate PhotoPathOk(p: string) {
    var l := ToLower(p);
    |l| >= 7 && l[..6] == "icons/" && l[6] == 'i' &&
    var rest := l[7..];
    var k := DigitPrefixLength(rest);
    k >= 1 && PhotoExtension(rest[k..])
  }

  /** A photo entry as the photo pass reads it: the normalised key and the trimmed path. */
  datatype PhotoEntry = PhotoEntry(id: Id, path: string)

  /** The entries of the photo map in the given key order. */
  function PhotoEntries(photos: map<Id, string>, keys: seq<string>): (r: seq<PhotoEntry>)
    ensures |r| == |keys| && forall i :: 0 <= i < |keys| ==>
      r[i] == PhotoEntry(NormalizeId(keys[i]), Trim(PhotoOf(photos, keys[i])))
  {
    MapSeq(keys, (k: string) => PhotoEntry(NormalizeId(k), Trim(PhotoOf(photos, k))))
  }

  function PhotoIssues(people: seq<Id>, e: PhotoEntry): seq<Issue> {
    (if e.id !in people then [Issue(PhotoMissingPerson, e.id, "")] else []) +
    (if e.path != [] && !PhotoPathOk(e.path) then [Issue(PhotoPathUnusual, e.id, e.path)] else [])
  }

  function ScanPhotos(people: seq<Id>, entries: seq<PhotoEntry>): seq<Issue> {
    if entries == [] then []
    else ScanPhotos(people, entries[..|entries| - 1]) + PhotoIssues(people, entries[|entries| - 1])
  }

  lemma {:induction false} ContactsOnlyWarn(people: seq<Id>, ids: seq<Id>)
    ensures !HasError(ScanContacts(people, ids).issues)
  {
    if ids != [] {
      var init := ids[..|ids| - 1];
      var st := ScanContacts(people, init);
      var id := ids[|ids| - 1];
      ContactsOnlyWarn(people, init);
      if id == [] {
        HasErrorAppend(st.issues, [Issue(ContactWithoutId, "", "")]);
      } else {
        var a: seq<Issue> := if id !in people then [Issue(ContactMissingPerson, id, "")] else [];
        var b: seq<Issue> := if id in st.seen then [Issue(ContactRepeated, id, "")] else [];
        HasErrorAppend(st.issues + a, b);
        HasErrorAppend(st.issues, a);
      }
    }
  }

  lemma {:induction false} PhotosOnlyWarn(people: seq<Id>, entries: seq<PhotoEntry>)
    ensures !HasError(ScanPhotos(people, entries))
  {
    if entries != [] {
      var init := entries[..|entries| - 1];
      var e := entries[|entries| - 1];
      PhotosOnlyWarn(people, init);
      HasErrorAppend(ScanPhotos(people, init), PhotoIssues(people, e));
      var a: seq<Issue> := if e.id !in people then [Issue(PhotoMissingPerson, e.id, "")] else [];
      var b: seq<Issue> := if e.path != [] && !PhotoPathOk(e.path) then [Issue(PhotoPathUnusual, e.id, e.path)] else [];
      HasErrorAppend(a, b);
    }
  }

  // ---------------------------------------------------------------------
  // The whole report

  function DupIssues(dups: seq<Id>): (r: seq<Issue>)
    ensures |r| == |dups| && forall i :: 0 <= i < |dups| ==> r[i] == Issue(DuplicateId, dups[i], "")
  {
    MapSeq(dups, (id: Id) => Issue(DuplicateId, id, ""))
  }

  /**
   * `runValidation` over a relations map that gets no new entry while it
   * is walked: the person pass, the duplicates, the relations pass, the
   * contacts, and the photos in their key order.
   */
  function ValidationIssues(persons: seq<PersonRow>, t: Relations, contacts: seq<Contact>,
                            photos: map<Id, string>, photoKeys: seq<string>): seq<Issue>
  {
    var scan := ScanIds(RowIds(persons));
    scan.issues + DupIssues(scan.dups) + RelationIssues(t, scan.people, t.order) +
    ScanContacts(scan.people, ContactIds(contacts)).issues + ScanPhotos(scan.people, PhotoEntries(photos, photoKeys))
  }

  /** The spouses of `id` that pass the missing and self checks: `runValidation` calls `ensureRelation` on each. */
  function CheckedSpouses(people: seq<Id>, id: Id, spouses: seq<Id>): (r: seq<Id>)
    ensures forall s :: s in r <==> s in spouses && s in people && s != id
  {
    if spouses == [] then []
    else
      var init, last := spouses[..|spouses| - 1], spouses[|spouses| - 1];
      assert spouses == init + [last];
      CheckedSpouses(people, id, init) + (if last in people && last != id then [last] else [])
  }

  /** The ids `ensureRelation` is called on during the relations pass, entry by entry. */
  function EnsuredSpouses(t: Relations, people: seq<Id>, ids: seq<Id>): seq<Id> {
    if ids == [] then []
    else
      var id := ids[|ids| - 1];
      EnsuredSpouses(t, people, ids[..|ids| - 1]) + (if id in people then CheckedSpouses(people, id, SpousesOf(t, id)) else [])
  }

  /** `ensureRelation` applied to a list of ids in order. */
  function EnsureIds(t: Relations, ids: seq<Id>): (r: Relations)
    ensures forall x :: RelOf(r, x) == RelOf(t, x)
  {
    if ids == [] then t else Ensure(EnsureIds(t, ids[..|ids| - 1]), ids[|ids| - 1])
  }

  /**
   * The relations map after `runValidation`. Each checked spouse gets an
   * entry. A new entry is empty, so it reads like the missing one did and
   * adds no issue when the pass reaches it. So the issues can be computed
   * over the map as it was.
   */
  function ValidationRelations(persons: seq<PersonRow>, t: Relations): Relations {
    var people := ScanIds(RowIds(persons)).people;
    EnsureIds(t, EnsuredSpouses(t, people, t.order))
  }

  lemma {:induction false} EnsureIdsKeeps(t: Relations, ids: seq<Id>)
    requires WellFormed(t)
    ensures WellFormed(EnsureIds(t, ids))
    ensures forall x :: x in t.byId ==> x in EnsureIds(t, ids).byId
    ensures forall x :: x in ids && NormalizeId(x) != [] ==> NormalizeId(x) in EnsureIds(t, ids).byId
  {
    if ids != [] {
      var init := ids[..|ids| - 1];
      EnsureIdsKeeps(t, init);
      EnsureKeeps(EnsureIds(t, init), ids[|ids| - 1]);
      assert ids == init + [ids[|ids| - 1]];
    }
  }

  lemma {:induction false} EnsuredSpousesHas(t: Relations, people: seq<Id>, ids: seq<Id>, id: Id, s: Id)
    requires id in ids && id in people && s in SpousesOf(t, id) && s in people && s != id
    ensures s in EnsuredSpouses(t, people, ids)
  {
    var init := ids[..|ids| - 1];
    if id != ids[|ids| - 1] {
      assert ids == init + [ids[|ids| - 1]];
      EnsuredSpousesHas(t, people, init, id, s);
    }
  }

  /**
   * Validation changes no entry's parents or spouses and keeps the map
   * well formed. Afterwards every spouse that passes the missing and self
   * checks has an entry.
   */
  lemma ValidationRelationsMeaning(persons: seq<PersonRow>, t: Relations)
    requires WellFormed(t)
    ensures WellFormed(ValidationRelations(persons, t))
    ensures forall x :: RelOf(ValidationRelations(persons, t), x) == RelOf(t, x)
    ensures forall x :: x in t.byId ==> x in ValidationRelations(persons, t).byId
    ensures var people := ScanIds(RowIds(persons)).people;
      forall id, s :: id in t.order && id in people && s in SpousesOf(t, id) && s in people && s != id && NormalizeId(s) != [] ==>
        NormalizeId(s) in ValidationRelations(persons, t).byId
  {
    var people := ScanIds(RowIds(persons)).people;
    var ids := EnsuredSpouses(t, people, t.order);
    EnsureIdsKeeps(t, ids);
    forall id, s | id in t.order && id in people && s in SpousesOf(t, id) && s in people && s != id
      ensures s in ids
    {
      EnsuredSpousesHas(t, people, t.order, id, s);
    }
  }

  /** The defects that are errors: an empty id, a shared id, or an existing person's bad parent or spouse link. */
  ghost predicate DraftHasErrors(persons: seq<PersonRow>, t: Relations) {
    var ids := RowIds(persons);
    [] in ids ||
    (exists x :: Duplicated(ids, x)) ||
    exists id :: id in t.order && BadEntry(t, ScanIds(ids).people, id)
  }

  lemma DupIssuesErrors(dups: seq<Id>)
    ensures HasError(DupIssues(dups)) <==> dups != []
  {
    if dups != [] {
      assert LevelOf(DupIssues(dups)[0].kind) == Error;
    }
  }

  /** The report holds an error exactly when the draft has one of the error defects. */
  lemma ValidationErrors(persons: seq<PersonRow>, t: Relations, contacts: seq<Contact>,
                         photos: map<Id, string>, photoKeys: seq<string>)
    ensures HasError(ValidationIssues(persons, t, contacts, photos, photoKeys)) <==> DraftHasErrors(persons, t)
  {
    var ids := RowIds(persons);
    var scan := ScanIds(ids);
    var a := scan.issues;
    var b := DupIssues(scan.dups);
    var c := RelationIssues(t, scan.people, t.order);
    var d := ScanContacts(scan.people, ContactIds(contacts)).issues;
    var e := ScanPhotos(scan.people, PhotoEntries(photos, photoKeys));
    assert ValidationIssues(persons, t, contacts, photos, photoKeys) == a + b + c + d + e;
    HasErrorFive(a, b, c, d, e);
    ScanIdsErrors(ids);
    DupsErrors(ids);
    RelationIssuesErrors(t, scan.people, t.order);
    ContactsOnlyWarn(scan.people, ContactIds(contacts));
    PhotosOnlyWarn(scan.people, PhotoEntries(photos, photoKeys));
  }

  lemma HasErrorFive(a: seq<Issue>, b: seq<Issue>, c: seq<Issue>, d: seq<Issue>, e: seq<Issue>)
    ensures HasError(a + b + c + d + e) <==> HasError(a) || HasError(b) || HasError(c) || HasError(d) || HasError(e)
  {
    HasErrorAppend(a + b + c + d, e);
    HasErrorAppend(a + b + c, d);
    HasErrorAppend(a + b, c);
    HasErrorAppend(a, b);
  }

  /** The duplicate list is where the duplicate errors come from. */
  lemma DupsErrors(ids: seq<Id>)
    ensures HasError(DupIssues(ScanIds(ids).dups)) <==> exists x :: Duplicated(ids, x)
  {
    var dups := ScanIds(ids).dups;
    ScanIdsDups(ids);
    DupIssuesErrors(dups);
    if dups != [] {
      assert dups[0] in dups;
    }
  }

  /** A spouse link between two existing persons that is not mirrored is reported as a warning. */
  lemma ValidationWarnsNotReciprocal(persons: seq<PersonRow>, t: Relations, contacts: seq<Contact>,
                                     photos: map<Id, string>, photoKeys: seq<string>, id: Id, sid: Id)
    requires id in t.order && id != [] && id in RowIds(persons) && sid != [] && sid in RowIds(persons)
    requires sid in SpousesOf(t, id) && sid != id && id !in SpousesOf(t, sid)
    ensures Issue(NotReciprocal, id, sid) in ValidationIssues(persons, t, contacts, photos, photoKeys)
  {
    var ids := RowIds(persons);
    var scan := ScanIds(ids);
    ScanIdsPeople(ids);
    RelationIssuesWarns(t, scan.people, t.order, id, sid);
    var a := scan.issues;
    var b := DupIssues(scan.dups);
    var c := RelationIssues(t, scan.people, t.order);
    var d := ScanContacts(scan.people, ContactIds(contacts)).issues;
    var e := ScanPhotos(scan.people, PhotoEntries(photos, photoKeys));
    assert ValidationIssues(persons, t, contacts, photos, photoKeys) == a + b + c + d + e;
  }

  /** `validateBeforeExport`: export goes ahead when the report holds no error. */
  function ValidateBeforeExport(issues: seq<Issue>): (ok: bool)
    ensures ok <==> !HasError(issues)
  {
    ErrorCount(issues) == 0
  }
}
