/**
 * The relation-editing cores of the draft store's editor: saving the
 * edited person (`savePersonChanges`), adding children typed into a field
 * (`addChildrenFromInput`), removing a child link (the remove-child chip)
 * and the bounded action log (`addLog`, `markUnsavedLogsAsSaved`).
 */
module DraftEdits {
  import opened Text
  import opened DraftData
  import opened DraftRelations

  // ---------------------------------------------------------------------
  // savePersonChanges

  /** The editor's form fields, as typed. */
  datatype PersonForm = PersonForm(
    givenName: string, surname: string, sex: string, birthDate: string, birthPlaceId: string,
    fatherId: string, motherId: string, phone: string, email: string, note: string)

  /** Why a save is refused; `NoEntry` is the empty person id, for which `ensureRelation` gives nothing. */
  datatype SaveError = NoPerson | FatherIsSelf | MotherIsSelf | FatherNotFound(id: Id) | MotherNotFound(id: Id) | NoEntry

  /** The parent checks of a save, in the order they are made. */
  function CheckParents(persons: seq<PersonRow>, personId: Id, fatherId: Id, motherId: Id): (r: Option<SaveError>)
    ensures r == None <==>
      (fatherId == [] || (fatherId != personId && HasPerson(persons, fatherId))) &&
      (motherId == [] || (motherId != personId && HasPerson(persons, motherId)))
  {
    if fatherId != [] && fatherId == personId then Some(FatherIsSelf)
    else if motherId != [] && motherId == personId then Some(MotherIsSelf)
    else if fatherId != [] && !HasPerson(persons, fatherId) then Some(FatherNotFound(fatherId))
    else if motherId != [] && !HasPerson(persons, motherId) then Some(MotherNotFound(motherId))
    else None
  }

  /** The saved sex: `F` when the field normalises to `F`, `M` otherwise (an empty field counts as `M`). */
  function SexCode(raw: string): (r: string)
    ensures r == "F" || r == "M"
    ensures r == "F" <==> NormalizeId(raw) == "F"
  {
    if NormalizeId(if raw == [] then "M" else raw) == "F" then "F" else "M"
  }

  /** The person row once the form is saved: texts trimmed, sex `F` or `M`, place id normalised. */
  function EditedRow(p: PersonRow, form: PersonForm): PersonRow {
    p.(givenName := Trim(form.givenName), surname := Trim(form.surname), sex := SexCode(form.sex),
       birthDate := Trim(form.birthDate), birthPlaceId := NormalizeId(form.birthPlaceId))
  }

  /** The spouse draft entries kept by a save: not the person itself, and naming an existing person. */
  function KeptSpouses(persons: seq<PersonRow>, personId: Id, draft: seq<Id>): (r: seq<Id>)
    ensures forall s :: s in r <==> s in draft && s != personId && HasPerson(persons, s)
    ensures Distinct(draft) ==> Distinct(r)
  {
    Filter(draft, (s: Id) => s != personId && HasPerson(persons, s))
  }

  /** `ensureRelation(sid).spouses.add(personId)` for every kept spouse, given as normalised ids; an empty id has no entry and is passed over. */
  function LinkBack(t: Relations, sids: seq<Id>, personId: Id): Relations {
    if sids == [] then t
    else
      var prev := LinkBack(t, sids[..|sids| - 1], personId);
      var s := sids[|sids| - 1];
      if s == [] then prev else AddOneWay(prev, s, personId)
  }

  /** The relation part of a save for a non-empty person id. */
  function SavedRelations(t: Relations, persons: seq<PersonRow>, personId: Id, fatherId: Id, motherId: Id, draft: seq<Id>): Relations
    requires personId != []
  {
    var t1 := EnsureId(t, personId);
    var kept := KeptSpouses(persons, personId, draft);
    var t2 := Put(t1, personId, Relation(fatherId, motherId, kept));
    LinkBack(t2, MapSeq(kept, NormalizeId), personId)
  }

  /** The first contact row of a person, `getContact`. */
  function FirstContact(contacts: seq<Contact>, personId: Id): (r: Option<nat>)
    ensures r.Some? ==> (r.value < |contacts| && contacts[r.value].personId == personId &&
      forall k :: 0 <= k < r.value ==> contacts[k].personId != personId)
    ensures r.None? ==> forall k :: 0 <= k < |contacts| ==> contacts[k].personId != personId
  {
    if contacts == [] then None
    else if contacts[0].personId == personId then Some(0)
    else
      var rest := FirstContact(contacts[1..], personId);
      if rest.Some? then Some(rest.value + 1) else None
  }

  /** The contact rows once a save has given the person these trimmed details. */
  function SavedContacts(contacts: seq<Contact>, personId: Id, phone: string, email: string, note: string): seq<Contact> {
    var existing := FirstContact(contacts, personId);
    if phone != [] || email != [] || note != [] then
      if existing.Some? then contacts[existing.value := contacts[existing.value].(phone := phone, email := email, note := note)]
      else contacts + [Contact(personId, phone, email, note)]
    else if existing.Some? then Filter(contacts, (c: Contact) => c.personId != personId)
    else contacts
  }

  lemma {:induction false} LinkBackEffect(t: Relations, sids: seq<Id>, personId: Id, x: Id)
    ensures RelOf(LinkBack(t, sids, personId), x).fid == RelOf(t, x).fid
    ensures RelOf(LinkBack(t, sids, personId), x).mid == RelOf(t, x).mid
    ensures forall y :: y in SpousesOf(LinkBack(t, sids, personId), x) <==>
      y in SpousesOf(t, x) || (y == personId && x != [] && x in sids)
  {
    if sids != [] {
      var init := sids[..|sids| - 1];
      var s := sids[|sids| - 1];
      LinkBackEffect(t, init, personId, x);
      assert forall z :: z in sids <==> z in init || z == s;
    }
  }

  lemma {:induction false} LinkBackWellFormed(t: Relations, sids: seq<Id>, personId: Id)
    requires WellFormed(t)
    ensures WellFormed(LinkBack(t, sids, personId))
  {
    if sids != [] {
      LinkBackWellFormed(t, sids[..|sids| - 1], personId);
    }
  }

  /**
   * A save gives the person the form's parents and exactly the kept
   * spouses, links each kept spouse back to the person, and changes
   * nothing else; the spouse draft holds normalised ids.
   */
  lemma SavedRelationsMeaning(t: Relations, persons: seq<PersonRow>, personId: Id, fatherId: Id, motherId: Id, draft: seq<Id>, x: Id)
    requires personId != []
    requires forall s :: s in draft ==> IsNormalId(s)
    ensures var r := SavedRelations(t, persons, personId, fatherId, motherId, draft);
      var kept := KeptSpouses(persons, personId, draft);
      (x == personId ==> (RelOf(r, x).fid == fatherId && RelOf(r, x).mid == motherId &&
        forall s :: s in SpousesOf(r, x) <==> s in kept)) &&
      (x != personId ==> (RelOf(r, x).fid == RelOf(t, x).fid && RelOf(r, x).mid == RelOf(t, x).mid &&
        forall s :: s in SpousesOf(r, x) <==> s in SpousesOf(t, x) || (s == personId && x != [] && x in kept)))
  {
    var kept := KeptSpouses(persons, personId, draft);
    var t1 := EnsureId(t, personId);
    var t2 := Put(t1, personId, Relation(fatherId, motherId, kept));
    var sids := MapSeq(kept, NormalizeId);
    assert forall s :: s in sids <==> s in kept by {
      forall s ensures s in sids <==> s in kept {
        InMapSeq(kept, NormalizeId, s);
      }
    }
    LinkBackEffect(t2, sids, personId, x);
  }

  lemma SavedRelationsWellFormed(t: Relations, persons: seq<PersonRow>, personId: Id, fatherId: Id, motherId: Id, draft: seq<Id>)
    requires personId != [] && WellFormed(t) && Distinct(draft)
    ensures WellFormed(SavedRelations(t, persons, personId, fatherId, motherId, draft))
  {
    var kept := KeptSpouses(persons, personId, draft);
    var t2 := Put(EnsureId(t, personId), personId, Relation(fatherId, motherId, kept));
    LinkBackWellFormed(t2, MapSeq(kept, NormalizeId), personId);
  }

  /**
   * After a save the person's first contact row holds the details when there
   * are any, no row of the person is left when there are none, and the rows
   * of other persons stay.
   */
  lemma SavedContactsMeaning(contacts: seq<Contact>, personId: Id, phone: string, email: string, note: string)
    ensures var r := SavedContacts(contacts, personId, phone, email, note);
      (phone != [] || email != [] || note != [] ==>
        FirstContact(r, personId).Some? && r[FirstContact(r, personId).value] == Contact(personId, phone, email, note)) &&
      (phone == [] && email == [] && note == [] ==> FirstContact(r, personId).None?) &&
      forall c: Contact :: c.personId != personId ==> (c in r <==> c in contacts)
  {
    var r := SavedContacts(contacts, personId, phone, email, note);
    var existing := FirstContact(contacts, personId);
    if phone != [] || email != [] || note != [] {
      if existing.Some? {
        var k := existing.value;
        assert forall j :: 0 <= j < |r| && j != k ==> r[j] == contacts[j];
        assert r[k].personId == personId;
        var f := FirstContact(r, personId);
        assert f.Some? && f.value <= k;
        assert f.value == k;
        forall c: Contact | c.personId != personId ensures c in r <==> c in contacts {
          if c in contacts {
            var j :| 0 <= j < |contacts| && contacts[j] == c;
            assert r[j] == c;
          }
        }
      } else {
        var f := FirstContact(r, personId);
        assert r[|contacts|].personId == personId;
        assert f.value == |contacts|;
      }
    } else if existing.Some? {
      assert forall k :: 0 <= k < |r| ==> r[k] in r;
    }
  }

  // ---------------------------------------------------------------------
  // addChildrenFromInput

  /** Why nothing is added: no child id typed, or a co-parent that is missing or the person itself. */
  datatype ChildrenError = NoChildIds | CoParentNotFound(id: Id) | CoParentIsSelf

  /** A typed child id that is passed over, and why. */
  datatype Skipped = SkippedSelf(id: Id) | SkippedMissing(id: Id)

  /** The outcome of the children loop: the relations, the children updated and those passed over. */
  datatype ChildrenOutcome = ChildrenOutcome(t: Relations, success: seq<Id>, failed: seq<Skipped>)

  /** The checks made before the loop, in the order they are made. */
  function CheckChildren(persons: seq<PersonRow>, personId: Id, childIds: seq<Id>, coParentId: Id): (r: Option<ChildrenError>)
    ensures r == None <==> childIds != [] && (coParentId == [] || (HasPerson(persons, coParentId) && coParentId != personId))
  {
    if childIds == [] then Some(NoChildIds)
    else if coParentId != [] && !HasPerson(persons, coParentId) then Some(CoParentNotFound(coParentId))
    else if coParentId != [] && coParentId == personId then Some(CoParentIsSelf)
    else None
  }

  /** The role the person takes: mother for sex `F`, father for `M`, and the role picker's choice otherwise. */
  function AsMother(sex: string, role: string): bool {
    if sex == "F" then true else if sex == "M" then false else role == "mother"
  }

  /** The parents set by `AdoptChild`, before the spouse link. */
  function Adopted(t: Relations, personId: Id, coParentId: Id, asMother: bool, c: Id): Relations
    requires c != []
  {
    var t1 := EnsureId(t, c);
    var rel := RelOf(t1, c);
    Put(t1, c, if asMother then rel.(mid := personId, fid := if coParentId != [] then coParentId else rel.fid)
               else rel.(fid := personId, mid := if coParentId != [] then coParentId else rel.mid))
  }

  /** One child `c` given the person (and the co-parent, when set) as parents, then the parents linked as spouses. */
  function AdoptChild(t: Relations, personId: Id, coParentId: Id, asMother: bool, c: Id): (r: Relations)
    requires c != []
  {
    var t2 := Adopted(t, personId, coParentId, asMother, c);
    if coParentId != [] && personId != [] && coParentId != personId then AddMutual(t2, personId, coParentId) else t2
  }

  /** For normalised ids the link `AdoptChild` makes is `addSpouseLink(person, coParent)`. */
  lemma AdoptChildLinks(t: Relations, personId: Id, coParentId: Id, asMother: bool, c: Id)
    requires c != [] && IsNormalId(personId) && IsNormalId(coParentId) && coParentId != []
    ensures AdoptChild(t, personId, coParentId, asMother, c) == AddSpouse(Adopted(t, personId, coParentId, asMother, c), personId, coParentId)
  {
  }

  /** One pass of the children loop, for the typed id `c`. */
  function AddChild(prev: ChildrenOutcome, persons: seq<PersonRow>, personId: Id, coParentId: Id, asMother: bool, c: Id): ChildrenOutcome
  {
    if c == personId then prev.(failed := prev.failed + [SkippedSelf(c)])
    else if !HasPerson(persons, c) || c == [] then prev.(failed := prev.failed + [SkippedMissing(c)])
    else ChildrenOutcome(AdoptChild(prev.t, personId, coParentId, asMother, c), prev.success + [c], prev.failed)
  }

  /** The children loop over the typed ids. */
  function AddChildren(t: Relations, persons: seq<PersonRow>, personId: Id, coParentId: Id, asMother: bool, ids: seq<Id>): (r: ChildrenOutcome)
    ensures |r.success| + |r.failed| == |ids|
  {
    if ids == [] then ChildrenOutcome(t, [], [])
    else AddChild(AddChildren(t, persons, personId, coParentId, asMother, ids[..|ids| - 1]), persons, personId, coParentId, asMother, ids[|ids| - 1])
  }

  /** The parent a child ends up with on the person's side and on the co-parent's side. */
  predicate ParentsSet(rel: Relation, personId: Id, coParentId: Id, asMother: bool) {
    (if asMother then rel.mid else rel.fid) == personId &&
    (coParentId != [] ==> (if asMother then rel.fid else rel.mid) == coParentId)
  }

  lemma AdoptParentsEffect(t: Relations, personId: Id, coParentId: Id, asMother: bool, c: Id, x: Id)
    requires c != []
    ensures x == c ==> ParentsSet(RelOf(Adopted(t, personId, coParentId, asMother, c), x), personId, coParentId, asMother)
    ensures x != c ==> RelOf(Adopted(t, personId, coParentId, asMother, c), x) == RelOf(t, x)
  {
  }

  lemma AdoptChildEffect(t: Relations, personId: Id, coParentId: Id, asMother: bool, c: Id, x: Id)
    requires c != [] && personId != [] && coParentId != personId
    ensures x == c ==> ParentsSet(RelOf(AdoptChild(t, personId, coParentId, asMother, c), x), personId, coParentId, asMother)
    ensures x != c ==> RelOf(AdoptChild(t, personId, coParentId, asMother, c), x).fid == RelOf(t, x).fid
    ensures x != c ==> RelOf(AdoptChild(t, personId, coParentId, asMother, c), x).mid == RelOf(t, x).mid
    ensures coParentId != [] ==> coParentId in SpousesOf(AdoptChild(t, personId, coParentId, asMother, c), personId)
    ensures coParentId != [] ==> personId in SpousesOf(AdoptChild(t, personId, coParentId, asMother, c), coParentId)
  {
    var t2 := Adopted(t, personId, coParentId, asMother, c);
    AdoptParentsEffect(t, personId, coParentId, asMother, c, x);
    if coParentId != [] {
      LinkCoupleEffect(t2, personId, coParentId, x, x);
      LinkCoupleEffect(t2, personId, coParentId, personId, coParentId);
      LinkCoupleEffect(t2, personId, coParentId, coParentId, personId);
    }
  }

  /** A typed id the loop updates: not the person, and naming an existing person. */
  predicate Adoptable(persons: seq<PersonRow>, personId: Id, c: Id) {
    c != personId && c != [] && HasPerson(persons, c)
  }

  lemma AddChildrenStep(t: Relations, persons: seq<PersonRow>, personId: Id, coParentId: Id, asMother: bool, ids: seq<Id>, x: Id)
    requires ids != [] && personId != [] && coParentId != personId
    ensures var prev := AddChildren(t, persons, personId, coParentId, asMother, ids[..|ids| - 1]);
      var r := AddChildren(t, persons, personId, coParentId, asMother, ids);
      var c := ids[|ids| - 1];
      (x in r.success <==> x in prev.success || (x == c && Adoptable(persons, personId, c))) &&
      (x == c && Adoptable(persons, personId, c) ==> ParentsSet(RelOf(r.t, x), personId, coParentId, asMother)) &&
      (x != c ==> RelOf(r.t, x).fid == RelOf(prev.t, x).fid && RelOf(r.t, x).mid == RelOf(prev.t, x).mid)
  {
    var prev := AddChildren(t, persons, personId, coParentId, asMother, ids[..|ids| - 1]);
    var c := ids[|ids| - 1];
    if Adoptable(persons, personId, c) {
      AdoptChildEffect(prev.t, personId, coParentId, asMother, c, x);
    }
  }

  /**
   * The loop updates exactly the typed ids that are neither the person nor
   * missing, giving each the person (and the co-parent) as parents; every
   * other entry keeps its parents.
   */
  lemma {:induction false} AddChildrenMeaning(t: Relations, persons: seq<PersonRow>, personId: Id, coParentId: Id, asMother: bool, ids: seq<Id>, x: Id)
    requires personId != [] && coParentId != personId
    ensures var r := AddChildren(t, persons, personId, coParentId, asMother, ids);
      (x in r.success <==> x in ids && Adoptable(persons, personId, x)) &&
      (x in r.success ==> ParentsSet(RelOf(r.t, x), personId, coParentId, asMother)) &&
      (x !in ids ==> RelOf(r.t, x).fid == RelOf(t, x).fid && RelOf(r.t, x).mid == RelOf(t, x).mid)
  {
    if ids != [] {
      var init := ids[..|ids| - 1];
      AddChildrenMeaning(t, persons, personId, coParentId, asMother, init, x);
      AddChildrenStep(t, persons, personId, coParentId, asMother, ids, x);
      assert forall z :: z in ids <==> z in init || z == ids[|ids| - 1];
    }
  }

  lemma {:induction false} AddChildrenWellFormed(t: Relations, persons: seq<PersonRow>, personId: Id, coParentId: Id, asMother: bool, ids: seq<Id>)
    requires WellFormed(t)
    ensures WellFormed(AddChildren(t, persons, personId, coParentId, asMother, ids).t)
  {
    if ids != [] {
      var prev := AddChildren(t, persons, personId, coParentId, asMother, ids[..|ids| - 1]);
      AddChildrenWellFormed(t, persons, personId, coParentId, asMother, ids[..|ids| - 1]);
      if ids[|ids| - 1] != [] {
        AdoptChildWellFormed(prev.t, personId, coParentId, asMother, ids[|ids| - 1]);
      }
    }
  }

  lemma AdoptChildWellFormed(t: Relations, personId: Id, coParentId: Id, asMother: bool, c: Id)
    requires c != [] && WellFormed(t)
    ensures WellFormed(AdoptChild(t, personId, coParentId, asMother, c))
  {
    var t1 := EnsureId(t, c);
    var rel := RelOf(t1, c);
    EnsureIdKeeps(t, c);
    PutKeeps(t1, c, if asMother then rel.(mid := personId, fid := if coParentId != [] then coParentId else rel.fid)
                    else rel.(fid := personId, mid := if coParentId != [] then coParentId else rel.mid));
    var t2 := Adopted(t, personId, coParentId, asMother, c);
    if coParentId != [] && personId != [] && coParentId != personId {
      AddMutualKeeps(t2, personId, coParentId);
    }
  }

  // ---------------------------------------------------------------------
  // the remove-child chip

  /** The child's entry with every parent link to the person cleared, and whether one was. */
  datatype Unchilded = Unchilded(t: Relations, changed: bool)

  /** Clicking the remove-child chip of `childRaw` while `personId` is selected; an id that normalises to `""` has no entry and does nothing. */
  function RemoveChild(t: Relations, personId: Id, childRaw: string): (r: Unchilded)
    ensures WellFormed(t) ==> WellFormed(r.t)
  {
    var c := NormalizeId(childRaw);
    if c == [] then Unchilded(t, false)
    else
      var t1 := EnsureId(t, c);
      var rel := RelOf(t1, c);
      var changed := rel.fid == personId || rel.mid == personId;
      var cleared := rel.(fid := if rel.fid == personId then "" else rel.fid, mid := if rel.mid == personId then "" else rel.mid);
      EnsureIdKeeps(t, c);
      PutKeeps(t1, c, cleared);
      Unchilded(Put(t1, c, cleared), changed)
  }

  /** Removing a child link clears exactly the child's links to the person, reports whether any existed, and changes nothing else. */
  lemma RemoveChildMeaning(t: Relations, personId: Id, childRaw: string, x: Id)
    requires personId != []
    ensures var c := NormalizeId(childRaw);
      var r := RemoveChild(t, personId, childRaw);
      (c != [] ==> (RelOf(r.t, c).fid != personId && RelOf(r.t, c).mid != personId &&
        SpousesOf(r.t, c) == SpousesOf(t, c) &&
        (r.changed <==> RelOf(t, c).fid == personId || RelOf(t, c).mid == personId))) &&
      (x != c ==> RelOf(r.t, x) == RelOf(t, x)) &&
      (!r.changed ==> forall y :: RelOf(r.t, y) == RelOf(t, y))
  {
  }

  // ---------------------------------------------------------------------
  // the action log

  datatype LogStatus = Saved | Unsaved

  /** One action-log entry; `time` is the local time stamp taken when it is written. */
  datatype LogEntry = LogEntry(id: nat, time: string, message: string, status: LogStatus)

  /** The most entries the log keeps. */
  const MaxLogs := 300

  /** `addLog`'s list update: the entry put first, the list cut to `MaxLogs`. */
  function Prepend(logs: seq<LogEntry>, e: LogEntry): (r: seq<LogEntry>)
    ensures |r| == if |logs| + 1 > MaxLogs then MaxLogs else |logs| + 1
    ensures r[0] == e
    ensures forall i :: 1 <= i < |r| ==> r[i] == logs[i - 1]
  {
    var all := [e] + logs;
    if |all| > MaxLogs then all[..MaxLogs] else all
  }

  /** The number of entries still marked unsaved. */
  function UnsavedCount(logs: seq<LogEntry>): (n: nat)
    ensures n <= |logs|
    ensures n == 0 <==> forall i :: 0 <= i < |logs| ==> logs[i].status == Saved
  {
    if logs == [] then 0 else UnsavedCount(logs[..|logs| - 1]) + (if logs[|logs| - 1].status == Unsaved then 1 else 0)
  }

  /** Every entry marked saved, nothing else changed. */
  function AllSaved(logs: seq<LogEntry>): (r: seq<LogEntry>)
    ensures |r| == |logs| && forall i :: 0 <= i < |logs| ==> r[i] == logs[i].(status := Saved)
  {
    seq(|logs|, i requires 0 <= i < |logs| => logs[i].(status := Saved))
  }

  /** The message logged when entries were marked saved and no reason was given. */
  function MarkedMessage(n: nat): string {
    "Marked " + NatToString(n) + " action(s) as saved."
  }

  /** Marking twice changes nothing the second time: no entry is left unsaved. */
  lemma AllSavedIdempotent(logs: seq<LogEntry>)
    ensures UnsavedCount(AllSaved(logs)) == 0
    ensures AllSaved(AllSaved(logs)) == AllSaved(logs)
  {
  }
}
