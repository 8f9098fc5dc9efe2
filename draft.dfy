/**
 * The admin panel's working draft: the loaded files, the relations map
 * built from them, the editor's selection and spouse draft, the dirty flag
 * and the action log, as one object whose methods change it in place.
 * Every method's new state is stated through `State()`, the snapshot of
 * all fields, against a function of the old snapshot.
 */
module DraftStore {
  import opened Text
  import opened DraftData
  import opened DraftRelations
  import opened DraftEdits
  import V = DraftValidation
  import R = DraftRuntime
  import G = Genealogy

  /** A snapshot of every field of the draft. */
  datatype DraftState = DraftState(
    persons: seq<PersonRow>,
    families: seq<Family>,
    contacts: seq<Contact>,
    photos: map<Id, string>,
    photoKeys: seq<Id>,
    relations: Relations,
    selectedPersonId: Id,
    spouseDraft: seq<Id>,
    dirty: bool,
    actionLogs: seq<LogEntry>,
    logSeq: nat,
    lastValidation: seq<V.Issue>)

  /** The first row whose id is exactly `id`: the `persons.find` of `getPerson`. */
  function FindPerson(persons: seq<PersonRow>, id: Id): (r: Option<nat>)
    ensures r.Some? ==> (r.value < |persons| && persons[r.value].personId == id &&
      forall k :: 0 <= k < r.value ==> persons[k].personId != id)
    ensures r.None? ==> forall k :: 0 <= k < |persons| ==> persons[k].personId != id
  {
    if persons == [] then None
    else if persons[0].personId == id then Some(0)
    else
      var rest := FindPerson(persons[1..], id);
      if rest.Some? then Some(rest.value + 1) else None
  }

  /** `getPerson` finds a row exactly when the id names a person. */
  lemma FindPersonHas(persons: seq<PersonRow>, raw: string)
    ensures FindPerson(persons, NormalizeId(raw)).Some? <==> HasPerson(persons, raw)
  {
  }

  /** A new, empty person row with the given id and sex `M`, as `addNewPerson` writes it. */
  function BlankPerson(id: Id): PersonRow {
    PersonRow(id, "", "", "M", "", "")
  }

  /** The relations map is well formed, the spouse draft repeats no id and the log is within its bound. */
  ghost predicate Inv(s: DraftState) {
    WellFormed(s.relations) && Distinct(s.spouseDraft) && |s.actionLogs| <= MaxLogs
  }

  /** The two facts a validation run needs: its error verdict, and a well-formed relations map afterwards. */
  lemma ValidationFacts(persons: seq<PersonRow>, t: Relations, contacts: seq<Contact>, photos: map<Id, string>, photoKeys: seq<Id>)
    requires WellFormed(t)
    ensures V.HasError(V.ValidationIssues(persons, t, contacts, photos, photoKeys)) <==> V.DraftHasErrors(persons, t)
    ensures WellFormed(V.ValidationRelations(persons, t))
  {
    V.ValidationErrors(persons, t, contacts, photos, photoKeys);
    V.ValidationRelationsMeaning(persons, t);
  }

  class Draft {
    var persons: seq<PersonRow>
    var families: seq<Family>
    var contacts: seq<Contact>
    var photos: map<Id, string>
    /** The keys of `photos` in the order `Object.entries` lists them. */
    var photoKeys: seq<Id>
    var relations: Relations
    var selectedPersonId: Id
    /** The spouse set being edited, a `Set` in insertion order. */
    var spouseDraft: seq<Id>
    var dirty: bool
    var actionLogs: seq<LogEntry>
    var logSeq: nat
    var lastValidation: seq<V.Issue>

    function State(): DraftState
      reads this
    {
      DraftState(persons, families, contacts, photos, photoKeys, relations, selectedPersonId, spouseDraft, dirty,
                 actionLogs, logSeq, lastValidation)
    }

    /** `Inv` of the snapshot. */
    ghost predicate Valid()
      reads this
    {
      WellFormed(relations) && Distinct(spouseDraft) && |actionLogs| <= MaxLogs
    }

    /** The draft before anything is loaded. */
    constructor ()
      ensures Valid()
      ensures State() == DraftState([], [], [], map[], [], NoRelations, "", [], false, [], 0, [])
    {
      persons, families, contacts, photos, photoKeys := [], [], [], map[], [];
      relations, selectedPersonId, spouseDraft, dirty := NoRelations, "", [], false;
      actionLogs, logSeq, lastValidation := [], 0, [];
    }

    /** `ensureRelation(personId)`: reports whether the id normalises to a non-empty one, which then has an entry. */
    method EnsureRelation(personId: string) returns (found: bool)
      requires Valid()
      modifies this
      ensures Valid()
      ensures found <==> NormalizeId(personId) != []
      ensures found ==> NormalizeId(personId) in relations.byId
      ensures State() == old(State()).(relations := Ensure(old(relations), personId))
    {
      EnsureKeeps(relations, personId);
      relations := Ensure(relations, personId);
      found := NormalizeId(personId) != [];
    }

    /** `buildRelationsFromFamilies`: the map cleared, an entry per person, then every family's couple and children. */
    method BuildRelationsFromFamilies()
      requires Valid()
      modifies this
      ensures Valid()
      ensures State() == old(State()).(relations := BuildRelations(persons, families))
    {
      var base := EnsureEntries(NoRelations, persons);
      var rels := ImportAll(base, families);
      BuildRelationsKeys(persons, families);
      SetRelations(rels);
    }

    /** The first loop of the build: an entry for every person's id. */
    static method EnsureEntries(t: Relations, ps: seq<PersonRow>) returns (r: Relations)
      ensures r == EnsureAll(t, ps)
    {
      r := t;
      for i := 0 to |ps|
        invariant r == EnsureAll(t, ps[..i])
      {
        assert ps[..i + 1][..i] == ps[..i];
        r := Ensure(r, ps[i].personId);
      }
      assert ps[..|ps|] == ps;
    }

    /** The family loop of the build. */
    static method ImportAll(t: Relations, fams: seq<Family>) returns (r: Relations)
      ensures r == ImportFamilies(t, fams)
    {
      r := t;
      for j := 0 to |fams|
        invariant r == ImportFamilies(t, fams[..j])
      {
        assert fams[..j + 1][..j] == fams[..j];
        r := ImportOne(r, fams[j]);
      }
      assert fams[..|fams|] == fams;
    }

    /** Replaces the relations map, nothing else. */
    method SetRelations(rels: Relations)
      requires Valid() && WellFormed(rels)
      modifies this
      ensures Valid()
      ensures relations == rels
      ensures State() == old(State()).(relations := rels)
    {
      relations := rels;
    }

    /** One family of the import: the couple linked both ways, then each listed child given the family's parents. */
    static method ImportOne(t: Relations, fam: Family) returns (r: Relations)
      ensures r == ImportFamily(t, fam)
    {
      var hid := NormalizeId(fam.husbandId);
      var wid := NormalizeId(fam.wifeId);
      r := t;
      if hid != [] && wid != [] {
        r := AddOneWay(r, hid, wid);
        r := AddOneWay(r, wid, hid);
      }
      ghost var linked := r;
      for k := 0 to |fam.children|
        invariant r == ImportChildren(linked, hid, wid, fam.children[..k])
      {
        assert fam.children[..k + 1][..k] == fam.children[..k];
        var childId := NormalizeId(fam.children[k]);
        if childId != [] {
          r := EnsureId(r, childId);
          var rel := RelOf(r, childId);
          if hid != [] {
            rel := rel.(fid := hid);
          }
          if wid != [] {
            rel := rel.(mid := wid);
          }
          r := Put(r, childId, rel);
        }
      }
      assert fam.children[..|fam.children|] == fam.children;
    }

    /** `addSpouseLink(a, b)`. */
    method AddSpouseLink(a: string, b: string)
      requires Valid()
      modifies this
      ensures Valid()
      ensures State() == old(State()).(relations := AddSpouse(old(relations), a, b))
    {
      AddSpouseWellFormed(relations, a, b);
      relations := AddSpouse(relations, a, b);
    }

    /** `removeSpouseLink(a, b)`. */
    method RemoveSpouseLink(a: string, b: string)
      requires Valid()
      modifies this
      ensures Valid()
      ensures State() == old(State()).(relations := RemoveSpouse(old(relations), a, b))
    {
      RemoveSpouseWellFormed(relations, a, b);
      relations := RemoveSpouse(relations, a, b);
    }

    /** `nextPersonId`: the largest id number is found by walking the persons. */
    method NextPersonId() returns (id: Id)
      ensures id == NextId(persons)
      ensures forall i :: 0 <= i < |persons| ==> persons[i].personId != id
    {
      var max := 0;
      for i := 0 to |persons|
        invariant max == MaxIdNumber(persons[..i])
      {
        assert persons[..i + 1][..i] == persons[..i];
        var n := IdNumber(persons[i].personId);
        if n.Some? && n.value > max {
          max := n.value;
        }
      }
      assert persons[..|persons|] == persons;
      id := NumberedId('I', max + 1);
      NextIdFresh(persons);
    }

    /** Sets every field from a snapshot that keeps the invariant. */
    method Install(ns: DraftState)
      requires Inv(ns)
      modifies this
      ensures State() == ns
      ensures Valid()
    {
      persons, families, contacts, photos, photoKeys := ns.persons, ns.families, ns.contacts, ns.photos, ns.photoKeys;
      relations, selectedPersonId, spouseDraft, dirty := ns.relations, ns.selectedPersonId, ns.spouseDraft, ns.dirty;
      actionLogs, logSeq, lastValidation := ns.actionLogs, ns.logSeq, ns.lastValidation;
    }

    /** `addNewPerson`: a blank person with the next id, given an entry, selected, and the editor refreshed. */
    method AddNewPerson() returns (id: Id)
      requires Valid()
      modifies this
      ensures Valid()
      ensures id == NextId(old(persons))
      ensures State() == Rendered(Added(old(State()), id))
    {
      id := NextPersonId();
      var s := Added(State(), id);
      EnsureIdKeeps(relations, id);
      RenderedInv(s);
      var ns := RenderStep(s);
      Install(ns);
    }

    /**
     * The state part of `renderEditor`: the selection falls back to the
     * first person when it names nobody; the selected person's entry is
     * ensured and the spouse draft reset to its spouses.
     */
    method RenderEditor()
      requires Valid()
      modifies this
      ensures Valid()
      ensures State() == Rendered(old(State()))
    {
      RenderedInv(State());
      var ns := RenderStep(State());
      Install(ns);
    }

    /** `selectPerson`: an id naming a person is selected and the editor refreshed; any other id changes nothing. */
    method SelectPerson(raw: string) returns (ok: bool)
      requires Valid()
      modifies this
      ensures Valid()
      ensures ok <==> NormalizeId(raw) != [] && HasPerson(old(persons), raw)
      ensures ok ==> State() == Rendered(old(State()).(selectedPersonId := NormalizeId(raw)))
      ensures !ok ==> State() == old(State())
    {
      var id := NormalizeId(raw);
      NormalizeIdIdempotent(raw);
      if id == [] || !HasPerson(persons, id) {
        return false;
      }
      var s := State().(selectedPersonId := id);
      RenderedInv(s);
      var ns := RenderStep(s);
      Install(ns);
      ok := true;
    }

    // -------------------------------------------------------------------
    // editing the selected person

    /**
     * `savePersonChanges` with the form's fields: refused when nobody is
     * selected or a parent id is the person or names nobody; otherwise the
     * row, the person's entry, the kept spouses' back links and the contact
     * rows are updated and the editor refreshed.
     */
    method SavePersonChanges(form: PersonForm) returns (err: Option<SaveError>)
      requires Valid()
      modifies this
      ensures Valid()
      ensures err == Save(old(State()), form).err
      ensures State() == Save(old(State()), form).s
    {
      var ns;
      err, ns := SaveStep(State(), form);
      SaveKeepsInv(State(), form);
      Install(ns);
    }

    /**
     * `addChildrenFromInput`: the typed child ids, the co-parent and the
     * role picker's value; the checks, then the loop that gives each
     * existing child the person (and the co-parent) as parents.
     */
    method AddChildrenFromInput(raw: string, coParentRaw: string, role: string) returns (reply: ChildrenReply)
      requires Valid()
      modifies this
      ensures Valid()
      ensures reply == AddChildrenReply(old(State()), raw, coParentRaw, role).reply
      ensures State() == AddChildrenReply(old(State()), raw, coParentRaw, role).s
    {
      var ns;
      reply, ns := ChildrenInputStep(State(), raw, coParentRaw, role);
      AddChildrenKeepsInv(State(), raw, coParentRaw, role);
      Install(ns);
    }

    /** The remove-child chip: the selected person's parent links on the child cleared; the draft is dirty when one was. */
    method RemoveChildLink(childRaw: string) returns (changed: bool)
      requires Valid()
      modifies this
      ensures Valid()
      ensures changed == RemoveChildLinkSpec(old(State()), childRaw).changed
      ensures State() == RemoveChildLinkSpec(old(State()), childRaw).s
    {
      var ns;
      changed, ns := ChildRemovalStep(State(), childRaw);
      ChildRemovalKeepsInv(State(), childRaw);
      Install(ns);
    }

    /**
     * `removeSelectedPerson` once confirmed: the person's rows and entry
     * deleted, every other entry's links to the person cleared, the first
     * remaining person selected and the editor refreshed.
     */
    method RemoveSelectedPerson(confirmed: bool) returns (removed: bool)
      requires Valid()
      modifies this
      ensures Valid()
      ensures removed == RemoveSpec(old(State()), confirmed).removed
      ensures State() == RemoveSpec(old(State()), confirmed).s
    {
      var ns;
      removed, ns := RemoveStep(State(), confirmed);
      RemoveKeepsInv(State(), confirmed);
      Install(ns);
    }

    // -------------------------------------------------------------------
    // validation and the runtime maps

    /** `runValidation`: the report over the draft, kept as the last validation. */
    method RunValidation() returns (issues: seq<V.Issue>)
      requires Valid()
      modifies this
      ensures Valid()
      ensures issues == V.ValidationIssues(old(persons), old(relations), old(contacts), old(photos), old(photoKeys))
      ensures V.HasError(issues) <==> V.DraftHasErrors(old(persons), old(relations))
      ensures State() == old(State()).(lastValidation := issues, relations := V.ValidationRelations(old(persons), old(relations)))
    {
      issues := V.ValidationIssues(persons, relations, contacts, photos, photoKeys);
      ValidationFacts(persons, relations, contacts, photos, photoKeys);
      SetRelations(V.ValidationRelations(persons, relations));
      lastValidation := issues;
    }

    /** `validateBeforeExport`: export may go ahead exactly when the draft has no error defect. */
    method ValidateBeforeExport() returns (ok: bool)
      requires Valid()
      modifies this
      ensures Valid()
      ensures ok <==> !V.DraftHasErrors(old(persons), old(relations))
      ensures State() == old(State()).(lastValidation := V.ValidationIssues(old(persons), old(relations), old(contacts), old(photos), old(photoKeys)),
                                       relations := V.ValidationRelations(old(persons), old(relations)))
    {
      var issues := RunValidation();
      ok := V.ValidateBeforeExport(issues);
    }

    /**
     * `syncRuntimeMapsFromDraft` (the map building): every person's entry
     * ensured, then the people, children and gender maps the kinship
     * engine reads.
     */
    method SyncRuntimeMaps() returns (g: G.Graph)
      requires Valid()
      modifies this
      ensures Valid()
      ensures State() == old(State()).(relations := EnsureAll(old(relations), old(persons)))
      ensures g == R.RuntimeGraph(old(persons), EnsureAll(old(relations), old(persons)), old(photos))
    {
      var rels := EnsureEntries(relations, persons);
      EnsureAllWellFormed(relations, persons);
      g := R.RuntimeGraph(persons, rels, photos);
      relations := rels;
    }

    // -------------------------------------------------------------------
    // the action log

    /** `addLog`: the next sequence number on a new first entry; the log cut to its bound; nothing else changed. */
    method AddLog(message: string, time: string, unsaved: bool)
      requires Valid()
      modifies this
      ensures Valid()
      ensures logSeq == old(logSeq) + 1
      ensures actionLogs == Prepend(old(actionLogs), Entry(logSeq, time, message, unsaved))
      ensures State() == old(State()).(logSeq := logSeq, actionLogs := actionLogs)
    {
      var e := Entry(logSeq + 1, time, message, unsaved);
      SetLogs(Prepend(actionLogs, e), logSeq + 1);
    }

    /** Replaces the log and its sequence number, nothing else. */
    method SetLogs(logs: seq<LogEntry>, n: nat)
      requires Valid() && |logs| <= MaxLogs
      modifies this
      ensures Valid()
      ensures logSeq == n && actionLogs == logs
      ensures State() == old(State()).(logSeq := n, actionLogs := logs)
    {
      actionLogs := logs;
      logSeq := n;
    }

    /** The marking loop of `markUnsavedLogsAsSaved`: each unsaved entry marked saved and counted. */
    static method MarkLoop(logs0: seq<LogEntry>) returns (logs: seq<LogEntry>, changed: nat)
      ensures logs == AllSaved(logs0) && changed == UnsavedCount(logs0)
    {
      changed := 0;
      logs := logs0;
      for i := 0 to |logs|
        invariant |logs| == |logs0|
        invariant logs[..i] == AllSaved(logs0[..i]) && logs[i..] == logs0[i..]
        invariant changed == UnsavedCount(logs0[..i])
      {
        assert logs0[..i + 1][..i] == logs0[..i];
        assert logs[i] == logs0[i];
        if logs[i].status == Unsaved {
          logs := logs[i := logs[i].(status := Saved)];
          changed := changed + 1;
        }
      }
      assert logs == logs[..|logs|] && logs0 == logs0[..|logs|];
    }

    /**
     * `markUnsavedLogsAsSaved`: every entry marked saved and the number
     * changed returned; when it is not zero, a saved entry with the reason
     * (or the count message) is then logged.
     */
    method MarkUnsavedLogsAsSaved(reason: string, time: string) returns (changed: nat)
      requires Valid()
      modifies this
      ensures Valid()
      ensures changed == UnsavedCount(old(actionLogs))
      ensures changed == 0 ==> State() == old(State())
      ensures changed > 0 ==> (logSeq == old(logSeq) + 1 &&
        actionLogs == Prepend(AllSaved(old(actionLogs)), Entry(logSeq, time, if reason != [] then reason else MarkedMessage(changed), false)))
      ensures State() == old(State()).(logSeq := logSeq, actionLogs := actionLogs)
    {
      var logs;
      logs, changed := MarkLoop(actionLogs);
      if changed > 0 {
        SetLogs(logs, logSeq);
        AddLog(if reason != [] then reason else MarkedMessage(changed), time, false);
      } else {
        AllSavedUnchanged(actionLogs);
      }
    }

    /** The clear-logs button once confirmed: the log emptied, the sequence reset, then the clearing logged. */
    method ClearLogs(time: string)
      requires Valid()
      modifies this
      ensures Valid()
      ensures logSeq == 1 && actionLogs == [Entry(1, time, "Cleared action logs.", false)]
      ensures State() == old(State()).(logSeq := logSeq, actionLogs := actionLogs)
    {
      SetLogs([], 0);
      AddLog("Cleared action logs.", time, false);
    }
  }

  /** A log entry as `addLog` writes it: the message trimmed, the status from the unsaved flag. */
  function Entry(id: nat, time: string, message: string, unsaved: bool): (e: LogEntry)
    ensures e.id == id && e.time == time && e.message == Trim(message)
    ensures e.status == Unsaved <==> unsaved
  {
    LogEntry(id, time, Trim(message), if unsaved then Unsaved else Saved)
  }

  // ---------------------------------------------------------------------
  // the editor operations on a snapshot

  /** A spouse list read from a well-formed map repeats no id. */
  lemma SpousesDistinct(t: Relations, x: Id)
    requires WellFormed(t)
    ensures Distinct(SpousesOf(t, x))
  {
  }

  /** The selection `renderEditor` settles on: the selected id when it names a person, else the first person's id, else `""`. */
  function Fallback(persons: seq<PersonRow>, selected: Id): (r: Id)
    ensures r == selected || r == "" || (|persons| > 0 && r == persons[0].personId)
  {
    if selected != [] && HasPerson(persons, selected) then selected
    else if |persons| > 0 then persons[0].personId
    else ""
  }

  /**
   * The state `renderEditor` leaves. A selected person whose id normalises
   * to `""` gets no entry, and the editor stops there (`ensureRelation`
   * gives `null`).
   */
  function Rendered(s: DraftState): DraftState {
    var sel := Fallback(s.persons, s.selectedPersonId);
    var k := FindPerson(s.persons, NormalizeId(sel));
    if k.None? || NormalizeId(s.persons[k.value].personId) == [] then s.(selectedPersonId := sel)
    else
      var rels := Ensure(s.relations, s.persons[k.value].personId);
      s.(selectedPersonId := sel, relations := rels, spouseDraft := SpousesOf(rels, NormalizeId(s.persons[k.value].personId)))
  }

  datatype Saving = Saving(err: Option<SaveError>, s: DraftState)

  /** `savePersonChanges` on a snapshot. */
  function Save(s: DraftState, form: PersonForm): Saving {
    var k := FindPerson(s.persons, NormalizeId(s.selectedPersonId));
    if k.None? then Saving(Some(NoPerson), s)
    else
      var personId := s.persons[k.value].personId;
      var fatherId := NormalizeId(form.fatherId);
      var motherId := NormalizeId(form.motherId);
      var check := CheckParents(s.persons, personId, fatherId, motherId);
      if check.Some? then Saving(check, s)
      else
        var edited := s.persons[k.value := EditedRow(s.persons[k.value], form)];
        if personId == [] then Saving(Some(NoEntry), s.(persons := edited))
        else
          Saving(None, Rendered(s.(persons := edited,
            relations := SavedRelations(s.relations, s.persons, personId, fatherId, motherId, s.spouseDraft),
            contacts := SavedContacts(s.contacts, personId, Trim(form.phone), Trim(form.email), Trim(form.note)),
            dirty := true)))
  }

  /** What `addChildrenFromInput` reports: nobody selected, a refused input, or the children updated and passed over. */
  datatype ChildrenReply = NotSelected | Refused(why: ChildrenError) | Done(success: seq<Id>, failed: seq<Skipped>)

  datatype Adding = Adding(reply: ChildrenReply, s: DraftState)

  /** `addChildrenFromInput` on a snapshot. */
  function AddChildrenReply(s: DraftState, raw: string, coParentRaw: string, role: string): Adding {
    var k := FindPerson(s.persons, NormalizeId(s.selectedPersonId));
    if k.None? then Adding(NotSelected, s) else ChildrenChecked(s, k.value, raw, coParentRaw, role)
  }

  /** The checks of `addChildrenFromInput` for the selected row `k`, then the loop. */
  function ChildrenChecked(s: DraftState, k: nat, raw: string, coParentRaw: string, role: string): Adding
    requires k < |s.persons|
  {
    var personId := s.persons[k].personId;
    var childIds := ParseIdList(raw);
    var coParentId := NormalizeId(coParentRaw);
    var check := CheckChildren(s.persons, personId, childIds, coParentId);
    if check.Some? then Adding(Refused(check.value), s)
    else ChildrenAdded(s, personId, coParentId, AsMother(s.persons[k].sex, role), childIds)
  }

  /** The children loop run on the snapshot; the draft is dirty once a child was updated. */
  function ChildrenAdded(s: DraftState, personId: Id, coParentId: Id, asMother: bool, childIds: seq<Id>): Adding {
    var out := AddChildren(s.relations, s.persons, personId, coParentId, asMother, childIds);
    Adding(Done(out.success, out.failed), s.(relations := out.t, dirty := s.dirty || out.success != []))
  }

  datatype ChildRemoval = ChildRemoval(changed: bool, s: DraftState)

  /** The remove-child chip on a snapshot. */
  function RemoveChildLinkSpec(s: DraftState, childRaw: string): ChildRemoval {
    var k := FindPerson(s.persons, NormalizeId(s.selectedPersonId));
    if k.None? then ChildRemoval(false, s)
    else
      var r := RemoveChild(s.relations, s.persons[k.value].personId, childRaw);
      ChildRemoval(r.changed, s.(relations := r.t, dirty := s.dirty || r.changed))
  }

  lemma ChildRemovalKeepsInv(s: DraftState, childRaw: string)
    requires Inv(s)
    ensures Inv(RemoveChildLinkSpec(s, childRaw).s)
  {
  }

  /** The remove-child chip computed on a snapshot. */
  method ChildRemovalStep(s: DraftState, childRaw: string) returns (changed: bool, ns: DraftState)
    ensures ChildRemoval(changed, ns) == RemoveChildLinkSpec(s, childRaw)
  {
    var k := FindPerson(s.persons, NormalizeId(s.selectedPersonId));
    if k.None? {
      return false, s;
    }
    var r := RemoveChild(s.relations, s.persons[k.value].personId, childRaw);
    changed, ns := r.changed, s.(relations := r.t, dirty := s.dirty || r.changed);
  }

  datatype Removal = Removal(removed: bool, s: DraftState)

  /** The draft with person `id` removed, before the editor is refreshed. */
  function Removed(s: DraftState, id: Id): DraftState {
    var persons := Filter(s.persons, (p: PersonRow) => p.personId != id);
    s.(persons := persons,
       contacts := Filter(s.contacts, (c: Contact) => c.personId != id),
       relations := Detach(s.relations, id),
       selectedPersonId := if |persons| > 0 then persons[0].personId else "",
       dirty := true)
  }

  /** `removeSelectedPerson` on a snapshot. */
  function RemoveSpec(s: DraftState, confirmed: bool): Removal {
    var k := FindPerson(s.persons, NormalizeId(s.selectedPersonId));
    if k.None? || !confirmed then Removal(false, s)
    else Removal(true, Rendered(Removed(s, s.persons[k.value].personId)))
  }

  /** Marking a log with no unsaved entry changes nothing. */
  lemma AllSavedUnchanged(logs: seq<LogEntry>)
    requires UnsavedCount(logs) == 0
    ensures AllSaved(logs) == logs
  {
  }

  /** The draft `addNewPerson` leaves before the editor is refreshed. */
  function Added(s: DraftState, id: Id): DraftState
    requires id != []
  {
    s.(persons := s.persons + [BlankPerson(id)], relations := EnsureId(s.relations, id), selectedPersonId := id, dirty := true)
  }

  // ---------------------------------------------------------------------
  // the editor operations, step by step on a snapshot

  /** The branches of `renderEditor`. */
  method RenderStep(s: DraftState) returns (ns: DraftState)
    ensures ns == Rendered(s)
  {
    var sel := Fallback(s.persons, s.selectedPersonId);
    var k := FindPerson(s.persons, NormalizeId(sel));
    if k.None? || NormalizeId(s.persons[k.value].personId) == [] {
      return s.(selectedPersonId := sel);
    }
    var pid := s.persons[k.value].personId;
    var rels := Ensure(s.relations, pid);
    ns := s.(selectedPersonId := sel, relations := rels, spouseDraft := SpousesOf(rels, NormalizeId(pid)));
  }

  /** The checks and updates of `savePersonChanges`. */
  method SaveStep(s: DraftState, form: PersonForm) returns (err: Option<SaveError>, ns: DraftState)
    ensures Saving(err, ns) == Save(s, form)
  {
    ns := s;
    var k := FindPerson(s.persons, NormalizeId(s.selectedPersonId));
    if k.None? {
      return Some(NoPerson), s;
    }
    var personId := s.persons[k.value].personId;
    var fatherId := NormalizeId(form.fatherId);
    var motherId := NormalizeId(form.motherId);
    err := CheckParents(s.persons, personId, fatherId, motherId);
    if err.Some? {
      return;
    }
    var edited := s.persons[k.value := EditedRow(s.persons[k.value], form)];
    if personId == [] {
      return Some(NoEntry), s.(persons := edited);
    }
    var kept := KeptSpouses(s.persons, personId, s.spouseDraft);
    var rels := EnsureId(s.relations, personId);
    rels := Put(rels, personId, Relation(fatherId, motherId, kept));
    rels := LinkBackLoop(rels, MapSeq(kept, NormalizeId), personId);
    var cs := SavedContacts(s.contacts, personId, Trim(form.phone), Trim(form.email), Trim(form.note));
    ns := RenderStep(s.(persons := edited, relations := rels, contacts := cs, dirty := true));
  }

  /** The back-link loop of a save: `ensureRelation(sid).spouses.add(personId)` for every kept spouse. */
  method LinkBackLoop(t: Relations, sids: seq<Id>, personId: Id) returns (r: Relations)
    ensures r == LinkBack(t, sids, personId)
  {
    r := t;
    for i := 0 to |sids|
      invariant r == LinkBack(t, sids[..i], personId)
    {
      assert sids[..i + 1][..i] == sids[..i];
      if sids[i] != [] {
        r := AddOneWay(r, sids[i], personId);
      }
    }
    assert sids[..|sids|] == sids;
  }

  /** The checks and the loop of `addChildrenFromInput`. */
  method ChildrenInputStep(s: DraftState, raw: string, coParentRaw: string, role: string) returns (reply: ChildrenReply, ns: DraftState)
    ensures Adding(reply, ns) == AddChildrenReply(s, raw, coParentRaw, role)
  {
    var k := FindPerson(s.persons, NormalizeId(s.selectedPersonId));
    if k.None? {
      return NotSelected, s;
    }
    NormalizeIdIdempotent(s.selectedPersonId);
    reply, ns := ChildrenCheckStep(s, k.value, raw, coParentRaw, role);
  }

  /** The checks of `addChildrenFromInput`, for a selected row whose id is normalised. */
  method ChildrenCheckStep(s: DraftState, k: nat, raw: string, coParentRaw: string, role: string) returns (reply: ChildrenReply, ns: DraftState)
    requires k < |s.persons| && IsNormalId(s.persons[k].personId)
    ensures Adding(reply, ns) == ChildrenChecked(s, k, raw, coParentRaw, role)
  {
    var personId := s.persons[k].personId;
    var childIds := ParseIdList(raw);
    var coParentId := NormalizeId(coParentRaw);
    var check := CheckChildren(s.persons, personId, childIds, coParentId);
    if check.Some? {
      return Refused(check.value), s;
    }
    NormalizeIdIdempotent(coParentRaw);
    reply, ns := ChildrenApply(s, personId, coParentId, AsMother(s.persons[k].sex, role), childIds);
  }

  /** The loop of `addChildrenFromInput` once its checks have passed, and the dirty flag it sets. */
  method ChildrenApply(s: DraftState, personId: Id, coParentId: Id, asMother: bool, childIds: seq<Id>) returns (reply: ChildrenReply, ns: DraftState)
    requires IsNormalId(personId) && IsNormalId(coParentId)
    ensures Adding(reply, ns) == ChildrenAdded(s, personId, coParentId, asMother, childIds)
  {
    var out := ChildrenLoop(s.relations, s.persons, personId, coParentId, asMother, childIds);
    reply := Done(out.success, out.failed);
    ns := s.(relations := out.t, dirty := s.dirty || out.success != []);
  }

  /** The loop of `addChildrenFromInput`. */
  method ChildrenLoop(t: Relations, ps: seq<PersonRow>, personId: Id, coParentId: Id, asMother: bool, childIds: seq<Id>)
    returns (out: ChildrenOutcome)
    requires IsNormalId(personId) && IsNormalId(coParentId)
    ensures out == AddChildren(t, ps, personId, coParentId, asMother, childIds)
  {
    out := ChildrenOutcome(t, [], []);
    for i := 0 to |childIds|
      invariant out == AddChildren(t, ps, personId, coParentId, asMother, childIds[..i])
    {
      AddChildrenPrefix(t, ps, personId, coParentId, asMother, childIds, i);
      out := ChildStep(out, ps, personId, coParentId, asMother, childIds[i]);
    }
    assert childIds[..|childIds|] == childIds;
  }

  lemma AddChildrenPrefix(t: Relations, ps: seq<PersonRow>, personId: Id, coParentId: Id, asMother: bool, childIds: seq<Id>, i: nat)
    requires i < |childIds|
    ensures AddChildren(t, ps, personId, coParentId, asMother, childIds[..i + 1]) ==
      AddChild(AddChildren(t, ps, personId, coParentId, asMother, childIds[..i]), ps, personId, coParentId, asMother, childIds[i])
  {
    assert childIds[..i + 1][..i] == childIds[..i];
  }

  /** One pass of the children loop: a skipped id is recorded, any other child gets its parents and the parents their spouse link. */
  method ChildStep(prev: ChildrenOutcome, ps: seq<PersonRow>, personId: Id, coParentId: Id, asMother: bool, c: Id)
    returns (out: ChildrenOutcome)
    requires IsNormalId(personId) && IsNormalId(coParentId)
    ensures out == AddChild(prev, ps, personId, coParentId, asMother, c)
  {
    if c == personId {
      return prev.(failed := prev.failed + [SkippedSelf(c)]);
    }
    if !HasPerson(ps, c) || c == [] {
      return prev.(failed := prev.failed + [SkippedMissing(c)]);
    }
    var rels := AdoptParents(prev.t, personId, coParentId, asMother, c);
    if coParentId != [] {
      AdoptChildLinks(prev.t, personId, coParentId, asMother, c);
      rels := AddSpouse(rels, personId, coParentId);
    }
    out := ChildrenOutcome(rels, prev.success + [c], prev.failed);
  }

  /** The child's entry ensured and its parent fields set. */
  method AdoptParents(t: Relations, personId: Id, coParentId: Id, asMother: bool, c: Id) returns (r: Relations)
    requires c != []
    ensures r == Adopted(t, personId, coParentId, asMother, c)
  {
    r := EnsureId(t, c);
    var rel := RelOf(r, c);
    if asMother {
      rel := rel.(mid := personId);
      if coParentId != [] {
        rel := rel.(fid := coParentId);
      }
    } else {
      rel := rel.(fid := personId);
      if coParentId != [] {
        rel := rel.(mid := coParentId);
      }
    }
    r := Put(r, c, rel);
  }

  /** The confirmation and the deletions of `removeSelectedPerson`. */
  method RemoveStep(s: DraftState, confirmed: bool) returns (removed: bool, ns: DraftState)
    requires WellFormed(s.relations)
    ensures Removal(removed, ns) == RemoveSpec(s, confirmed)
  {
    var k := FindPerson(s.persons, NormalizeId(s.selectedPersonId));
    if k.None? || !confirmed {
      return false, s;
    }
    var id := s.persons[k.value].personId;
    var ps := Filter(s.persons, (p: PersonRow) => p.personId != id);
    var cs := Filter(s.contacts, (c: Contact) => c.personId != id);
    var rels := DetachAll(s.relations, id);
    var sel := if |ps| > 0 then ps[0].personId else "";
    ns := RenderStep(s.(persons := ps, contacts := cs, relations := rels, selectedPersonId := sel, dirty := true));
    removed := true;
  }

  /** `relations.delete(id)` and the loop over the remaining entries clearing every link to `id`. */
  method DetachAll(t: Relations, id: Id) returns (r: Relations)
    requires WellFormed(t)
    ensures r == Detach(t, id)
  {
    var byId := map x | x in t.byId && x != id :: t.byId[x];
    var order := Without(t.order, id);
    WithoutDistinct(t.order, id);
    ghost var done: set<Id> := {};
    for i := 0 to |order|
      invariant done == set j | 0 <= j < i :: order[j]
      invariant forall x :: x in byId <==> x in t.byId && x != id
      invariant forall x :: x in byId ==> byId[x] == if x in done then Unlink(t.byId[x], id) else t.byId[x]
    {
      var x := order[i];
      assert x in t.order && x != id;
      DoneStep(order, i);
      byId := byId[x := Unlink(byId[x], id)];
      done := done + {x};
    }
    DoneAll(order);
    r := Relations(byId, order);
    DetachedEntries(t, id, byId);
  }

  /** The next key of a repetition-free order has not been visited yet. */
  lemma DoneStep(order: seq<Id>, i: nat)
    requires Distinct(order) && i < |order|
    ensures order[i] !in (set j | 0 <= j < i :: order[j])
    ensures (set j | 0 <= j < i + 1 :: order[j]) == (set j | 0 <= j < i :: order[j]) + {order[i]}
  {
  }

  lemma DoneAll(order: seq<Id>)
    ensures forall x :: x in order ==> x in (set j | 0 <= j < |order| :: order[j])
  {
    forall x | x in order ensures x in (set j | 0 <= j < |order| :: order[j]) {
      var j :| 0 <= j < |order| && order[j] == x;
    }
  }

  /** A map with `id` dropped and every other entry unlinked from `id` is what `Detach` leaves. */
  lemma DetachedEntries(t: Relations, id: Id, byId: map<Id, Relation>)
    requires forall x :: x in byId <==> x in t.byId && x != id
    requires forall x :: x in byId ==> byId[x] == Unlink(t.byId[x], id)
    ensures Relations(byId, Without(t.order, id)) == Detach(t, id)
  {
    assert byId == Detach(t, id).byId;
  }

  // ---------------------------------------------------------------------
  // what the editor operations keep and achieve

  lemma RenderedInv(s: DraftState)
    requires Inv(s)
    ensures Inv(Rendered(s))
  {
    var sel := Fallback(s.persons, s.selectedPersonId);
    var k := FindPerson(s.persons, NormalizeId(sel));
    if k.Some? && NormalizeId(s.persons[k.value].personId) != [] {
      EnsureIdKeeps(s.relations, NormalizeId(s.persons[k.value].personId));
      SpousesDistinct(Ensure(s.relations, s.persons[k.value].personId), NormalizeId(s.persons[k.value].personId));
    }
  }

  lemma SaveKeepsInv(s: DraftState, form: PersonForm)
    requires Inv(s)
    ensures Inv(Save(s, form).s)
  {
    var k := FindPerson(s.persons, NormalizeId(s.selectedPersonId));
    if k.Some? {
      var personId := s.persons[k.value].personId;
      var fatherId := NormalizeId(form.fatherId);
      var motherId := NormalizeId(form.motherId);
      if CheckParents(s.persons, personId, fatherId, motherId).None? && personId != [] {
        var edited := s.persons[k.value := EditedRow(s.persons[k.value], form)];
        SavedRelationsWellFormed(s.relations, s.persons, personId, fatherId, motherId, s.spouseDraft);
        RenderedInv(s.(persons := edited,
          relations := SavedRelations(s.relations, s.persons, personId, fatherId, motherId, s.spouseDraft),
          contacts := SavedContacts(s.contacts, personId, Trim(form.phone), Trim(form.email), Trim(form.note)),
          dirty := true));
      }
    }
  }

  lemma AddChildrenKeepsInv(s: DraftState, raw: string, coParentRaw: string, role: string)
    requires Inv(s)
    ensures Inv(AddChildrenReply(s, raw, coParentRaw, role).s)
  {
    var k := FindPerson(s.persons, NormalizeId(s.selectedPersonId));
    if k.Some? {
      AddChildrenWellFormed(s.relations, s.persons, s.persons[k.value].personId, NormalizeId(coParentRaw),
        AsMother(s.persons[k.value].sex, role), ParseIdList(raw));
    }
  }

  lemma RemoveKeepsInv(s: DraftState, confirmed: bool)
    requires Inv(s)
    ensures Inv(RemoveSpec(s, confirmed).s)
  {
    var k := FindPerson(s.persons, NormalizeId(s.selectedPersonId));
    if k.Some? && confirmed {
      DetachWellFormed(s.relations, s.persons[k.value].personId);
      RenderedInv(Removed(s, s.persons[k.value].personId));
    }
  }

  /** `renderEditor` changes only the selection, the relations and the spouse draft. */
  lemma RenderedFrame(s: DraftState)
    ensures var r := Rendered(s);
      r == s.(selectedPersonId := r.selectedPersonId, relations := r.relations, spouseDraft := r.spouseDraft)
  {
  }

  /** `renderEditor` changes no link. */
  lemma RenderedLinks(s: DraftState, x: Id)
    ensures RelOf(Rendered(s).relations, x) == RelOf(s.relations, x)
  {
  }

  /**
   * What `renderEditor` does to the draft: only the selection, the
   * relations and the spouse draft change; the selection stays when it
   * names a person and falls back to the first person otherwise; no link
   * changes; and the selected person then has an entry whose spouses the
   * spouse draft holds.
   */
  lemma RenderedMeaning(s: DraftState)
    ensures var r := Rendered(s);
      r == s.(selectedPersonId := r.selectedPersonId, relations := r.relations, spouseDraft := r.spouseDraft) &&
      (s.selectedPersonId != [] && HasPerson(s.persons, s.selectedPersonId) ==> r.selectedPersonId == s.selectedPersonId) &&
      (!(s.selectedPersonId != [] && HasPerson(s.persons, s.selectedPersonId)) ==>
        r.selectedPersonId == if |s.persons| > 0 then s.persons[0].personId else "") &&
      (forall x :: RelOf(r.relations, x) == RelOf(s.relations, x)) &&
      (HasPerson(s.persons, r.selectedPersonId) && NormalizeId(r.selectedPersonId) != [] ==>
        NormalizeId(r.selectedPersonId) in r.relations.byId &&
        r.spouseDraft == SpousesOf(s.relations, NormalizeId(r.selectedPersonId)))
  {
    var sel := Fallback(s.persons, s.selectedPersonId);
    FindPersonHas(s.persons, sel);
    NormalizeIdIdempotent(sel);
  }

  /**
   * `addNewPerson` appends a blank row whose id no person has, selects it,
   * gives it an entry and marks the draft dirty; no link changes.
   */
  lemma AddNewPersonMeaning(s: DraftState)
    ensures Rendered(Added(s, NextId(s.persons))).persons == s.persons + [BlankPerson(NextId(s.persons))]
    ensures forall i :: 0 <= i < |s.persons| ==> s.persons[i].personId != NextId(s.persons)
    ensures var r := Rendered(Added(s, NextId(s.persons)));
      r.selectedPersonId == NextId(s.persons) && NextId(s.persons) in r.relations.byId && r.dirty
    ensures forall x :: RelOf(Rendered(Added(s, NextId(s.persons))).relations, x) == RelOf(s.relations, x)
    ensures Rendered(Added(s, NextId(s.persons))).spouseDraft == SpousesOf(s.relations, NextId(s.persons))
  {
    NextIdFresh(s.persons);
    NextIdNormal(s.persons);
    AddedMeaning(s, NextId(s.persons));
  }

  /** `AddNewPersonMeaning` for any normalised, non-empty id. */
  lemma AddedMeaning(s: DraftState, id: Id)
    requires id != [] && IsNormalId(id)
    ensures var r := Rendered(Added(s, id));
      r.persons == s.persons + [BlankPerson(id)] && r.selectedPersonId == id && id in r.relations.byId && r.dirty &&
      r.spouseDraft == SpousesOf(s.relations, id)
    ensures forall x :: RelOf(Rendered(Added(s, id)).relations, x) == RelOf(s.relations, x)
  {
    var a := Added(s, id);
    assert a.persons[|s.persons|].personId == NormalizeId(id);
    assert HasPerson(a.persons, id);
    var r := Rendered(a);
    RenderedFrame(a);
    FindPersonHas(a.persons, id);
    assert r.selectedPersonId == id;
    forall x ensures RelOf(r.relations, x) == RelOf(s.relations, x) {
      RenderedLinks(a, x);
    }
  }

  /** `savePersonChanges` is refused without a selected person, and a refused save (other than for an empty id) changes nothing. */
  lemma SaveRefused(s: DraftState, form: PersonForm)
    ensures Save(s, form).err == Some(NoPerson) <==> !HasPerson(s.persons, s.selectedPersonId)
    ensures Save(s, form).err.Some? && Save(s, form).err != Some(NoEntry) ==> Save(s, form).s == s
  {
    FindPersonHas(s.persons, s.selectedPersonId);
    var k := FindPerson(s.persons, NormalizeId(s.selectedPersonId));
    if k.Some? {
      var personId := s.persons[k.value].personId;
      var check := CheckParents(s.persons, personId, NormalizeId(form.fatherId), NormalizeId(form.motherId));
      if check.None? && personId != [] {
        assert Save(s, form).err == None;
      } else if check.Some? {
        assert Save(s, form) == Saving(check, s);
      }
    }
  }

  /**
   * A save that goes ahead edits the selected row, gives the person the
   * form's parents and exactly the kept spouses, links each kept spouse
   * back, leaves every other entry's parents alone and marks the draft dirty.
   */
  lemma SaveMeaning(s: DraftState, form: PersonForm, x: Id)
    requires forall d :: d in s.spouseDraft ==> IsNormalId(d)
    requires Save(s, form).err.None?
    ensures FindPerson(s.persons, NormalizeId(s.selectedPersonId)).Some?
    ensures var k := FindPerson(s.persons, NormalizeId(s.selectedPersonId)).value;
      Save(s, form).s.persons == s.persons[k := EditedRow(s.persons[k], form)] && Save(s, form).s.dirty
    ensures var pid := NormalizeId(s.selectedPersonId);
      RelOf(Save(s, form).s.relations, pid).fid == NormalizeId(form.fatherId) &&
      RelOf(Save(s, form).s.relations, pid).mid == NormalizeId(form.motherId)
    ensures var pid := NormalizeId(s.selectedPersonId);
      forall y :: y in SpousesOf(Save(s, form).s.relations, pid) <==> y in KeptSpouses(s.persons, pid, s.spouseDraft)
    ensures var pid := NormalizeId(s.selectedPersonId);
      x != pid ==> (RelOf(Save(s, form).s.relations, x).fid == RelOf(s.relations, x).fid &&
        RelOf(Save(s, form).s.relations, x).mid == RelOf(s.relations, x).mid)
    ensures var pid := NormalizeId(s.selectedPersonId);
      x != pid ==> forall y :: y in SpousesOf(Save(s, form).s.relations, x) <==>
        y in SpousesOf(s.relations, x) || (y == pid && x != [] && x in KeptSpouses(s.persons, pid, s.spouseDraft))
  {
    var pid := NormalizeId(s.selectedPersonId);
    var fatherId := NormalizeId(form.fatherId);
    var motherId := NormalizeId(form.motherId);
    SaveGoesAhead(s, form, pid);
    SaveGoesAhead(s, form, x);
    SavedRelationsMeaning(s.relations, s.persons, pid, fatherId, motherId, s.spouseDraft, pid);
    SavedRelationsMeaning(s.relations, s.persons, pid, fatherId, motherId, s.spouseDraft, x);
  }

  /** A save that goes ahead edits the selected row, marks the draft dirty and leaves the links `SavedRelations` gives. */
  lemma SaveGoesAhead(s: DraftState, form: PersonForm, x: Id)
    requires Save(s, form).err.None?
    ensures FindPerson(s.persons, NormalizeId(s.selectedPersonId)).Some? && NormalizeId(s.selectedPersonId) != []
    ensures var k := FindPerson(s.persons, NormalizeId(s.selectedPersonId)).value;
      Save(s, form).s.persons == s.persons[k := EditedRow(s.persons[k], form)] && Save(s, form).s.dirty
    ensures NormalizeId(s.selectedPersonId) != [] ==>
      RelOf(Save(s, form).s.relations, x) ==
      RelOf(SavedRelations(s.relations, s.persons, NormalizeId(s.selectedPersonId), NormalizeId(form.fatherId),
        NormalizeId(form.motherId), s.spouseDraft), x)
  {
    var k := FindPerson(s.persons, NormalizeId(s.selectedPersonId));
    var pid := s.persons[k.value].personId;
    var fatherId := NormalizeId(form.fatherId);
    var motherId := NormalizeId(form.motherId);
    var edited := s.persons[k.value := EditedRow(s.persons[k.value], form)];
    var saved := s.(persons := edited,
      relations := SavedRelations(s.relations, s.persons, pid, fatherId, motherId, s.spouseDraft),
      contacts := SavedContacts(s.contacts, pid, Trim(form.phone), Trim(form.email), Trim(form.note)),
      dirty := true);
    assert k.Some? && CheckParents(s.persons, pid, fatherId, motherId).None? && pid != [];
    assert Save(s, form).s == Rendered(saved);
    RenderedFrame(saved);
    RenderedLinks(saved, x);
  }

  /**
   * `addChildrenFromInput` answers `NotSelected` exactly without a selected
   * person and `NoChildIds` exactly when no id was typed; nothing changes
   * unless it goes ahead.
   */
  lemma AddChildrenReplyRefusals(s: DraftState, raw: string, coParentRaw: string, role: string)
    requires NormalizeId(s.selectedPersonId) != []
    ensures AddChildrenReply(s, raw, coParentRaw, role).reply == NotSelected <==> !HasPerson(s.persons, s.selectedPersonId)
    ensures AddChildrenReply(s, raw, coParentRaw, role).reply == Refused(NoChildIds) <==>
      HasPerson(s.persons, s.selectedPersonId) && ParseIdList(raw) == []
    ensures !AddChildrenReply(s, raw, coParentRaw, role).reply.Done? ==> AddChildrenReply(s, raw, coParentRaw, role).s == s
  {
    FindPersonHas(s.persons, s.selectedPersonId);
    var k := FindPerson(s.persons, NormalizeId(s.selectedPersonId));
    if k.Some? {
      ChildrenCheckedRefusals(s, k.value, raw, coParentRaw, role);
    }
  }

  /** For a selected row the checks refuse an empty id list, and change nothing unless they pass. */
  lemma ChildrenCheckedRefusals(s: DraftState, k: nat, raw: string, coParentRaw: string, role: string)
    requires k < |s.persons|
    ensures ChildrenChecked(s, k, raw, coParentRaw, role).reply != NotSelected
    ensures ChildrenChecked(s, k, raw, coParentRaw, role).reply == Refused(NoChildIds) <==> ParseIdList(raw) == []
    ensures !ChildrenChecked(s, k, raw, coParentRaw, role).reply.Done? ==> ChildrenChecked(s, k, raw, coParentRaw, role).s == s
  {
    var check := CheckChildren(s.persons, s.persons[k].personId, ParseIdList(raw), NormalizeId(coParentRaw));
    if check.Some? {
      assert ChildrenChecked(s, k, raw, coParentRaw, role) == Adding(Refused(check.value), s);
    }
  }

  /**
   * The effect of an `addChildrenFromInput` that goes ahead: the updated
   * children are exactly the typed ids naming another existing person, each
   * gets the person (and the co-parent) as parents, untyped entries keep
   * their parents, and the draft is dirty exactly when it was or a child
   * was updated.
   */
  lemma AddChildrenReplyMeaning(s: DraftState, raw: string, coParentRaw: string, role: string, x: Id)
    requires NormalizeId(s.selectedPersonId) != []
    ensures AddChildrenReply(s, raw, coParentRaw, role).reply.Done? ==>
      var a := AddChildrenReply(s, raw, coParentRaw, role);
      var pid := NormalizeId(s.selectedPersonId);
      var k := FindPerson(s.persons, pid).value;
      var co := NormalizeId(coParentRaw);
      (x in a.reply.success <==> x in ParseIdList(raw) && Adoptable(s.persons, pid, x)) &&
      (x in a.reply.success ==> ParentsSet(RelOf(a.s.relations, x), pid, co, AsMother(s.persons[k].sex, role))) &&
      (x !in ParseIdList(raw) ==> (RelOf(a.s.relations, x).fid == RelOf(s.relations, x).fid &&
        RelOf(a.s.relations, x).mid == RelOf(s.relations, x).mid)) &&
      (a.s.dirty <==> s.dirty || a.reply.success != [])
  {
    FindPersonHas(s.persons, s.selectedPersonId);
    var k := FindPerson(s.persons, NormalizeId(s.selectedPersonId));
    if k.Some? {
      var pid := s.persons[k.value].personId;
      var co := NormalizeId(coParentRaw);
      if CheckChildren(s.persons, pid, ParseIdList(raw), co).None? {
        AddChildrenMeaning(s.relations, s.persons, pid, co, AsMother(s.persons[k.value].sex, role), ParseIdList(raw), x);
      }
    }
  }

  /**
   * `removeSelectedPerson` goes ahead exactly when confirmed with a person
   * selected, and otherwise changes nothing.
   */
  lemma RemoveDecision(s: DraftState, confirmed: bool)
    requires NormalizeId(s.selectedPersonId) != []
    ensures RemoveSpec(s, confirmed).removed <==> confirmed && HasPerson(s.persons, s.selectedPersonId)
    ensures !RemoveSpec(s, confirmed).removed ==> RemoveSpec(s, confirmed).s == s
  {
    FindPersonHas(s.persons, s.selectedPersonId);
  }

  /**
   * The effect of a `removeSelectedPerson` that goes ahead: no row and no
   * contact of the person is left, no entry names it as father, mother or
   * spouse, every other entry only lost its links to it, and the draft is dirty.
   */
  lemma RemoveMeaning(s: DraftState, confirmed: bool)
    requires NormalizeId(s.selectedPersonId) != []
    ensures RemoveSpec(s, confirmed).removed ==>
      var r := RemoveSpec(s, confirmed).s;
      var id := NormalizeId(s.selectedPersonId);
      (forall p :: p in r.persons <==> p in s.persons && p.personId != id) &&
      (forall c :: c in r.contacts <==> c in s.contacts && c.personId != id) &&
      (forall x :: RelOf(r.relations, x).fid != id && RelOf(r.relations, x).mid != id && id !in SpousesOf(r.relations, x)) &&
      (forall x :: x != id ==> RelOf(r.relations, x) == Unlink(RelOf(s.relations, x), id)) &&
      r.dirty
  {
    if RemoveSpec(s, confirmed).removed {
      var r := RemoveSpec(s, confirmed).s;
      var id := NormalizeId(s.selectedPersonId);
      forall x ensures RelOf(r.relations, x) == RelOf(Detach(s.relations, id), x) {
        RemoveGoesAhead(s, confirmed, x);
      }
      RemoveGoesAhead(s, confirmed, id);
      DetachLeavesNoReference(s.relations, id);
      assert Without([], id) == [];
    }
  }

  /** A removal that goes ahead leaves the rows and contacts `Removed` keeps and the links `Detach` leaves. */
  lemma RemoveGoesAhead(s: DraftState, confirmed: bool, x: Id)
    requires NormalizeId(s.selectedPersonId) != [] && RemoveSpec(s, confirmed).removed
    ensures var r := RemoveSpec(s, confirmed).s;
      var id := NormalizeId(s.selectedPersonId);
      r.persons == Removed(s, id).persons && r.contacts == Removed(s, id).contacts && r.dirty &&
      RelOf(r.relations, x) == RelOf(Detach(s.relations, id), x)
  {
    var k := FindPerson(s.persons, NormalizeId(s.selectedPersonId));
    var d := Removed(s, s.persons[k.value].personId);
    assert RemoveSpec(s, confirmed).s == Rendered(d);
    RenderedFrame(d);
    RenderedLinks(d, x);
  }

  /** After marking, no entry of the log is left unsaved. */
  lemma MarkedLeavesNoneUnsaved(logs: seq<LogEntry>, e: LogEntry)
    requires e.status == Saved
    ensures UnsavedCount(Prepend(AllSaved(logs), e)) == 0
  {
  }
}
