/**
 * The tree viewer's state and commands: building `dataMap` from records,
 * loading a CSV file, the search cursor, focusing and locating a node, the
 * collapse and spouse-parent toggles, and the name helpers the tree's
 * labels use. Rendering is not modelled; each command's effect on the
 * state is.
 */
module TreeView {
  import opened Text
  import opened Genealogy
  import opened TreeCsv
  import opened TreeHierarchy

  const HomeMemberName := "SRIKANTH DHARMAVARAM"

  // ---------------------------------------------------------------------
  // Toggles

  /** `toggleSpouseParents(id)` on the set of expanded ids; a blank id changes nothing. */
  function ToggledSet(s: set<Id>, id: Id): (r: set<Id>)
    ensures id != "" ==> (id in r <==> id !in s)
    ensures forall x :: x != id ==> (x in r <==> x in s)
    ensures id == "" ==> r == s
  {
    if id == "" then s else if id in s then s - {id} else s + {id}
  }

  /** Toggling the same id twice restores the set. */
  lemma ToggledSetTwice(s: set<Id>, id: Id)
    ensures ToggledSet(ToggledSet(s, id), id) == s
  {
  }

  /** `toggleNode(id)` on `dataMap`: the node's `collapsed` flag flips; an id without a node changes nothing. */
  function ToggledCollapse(dm: NodeMap, id: Id): (dm': NodeMap)
    ensures dm'.Keys == dm.Keys
    ensures id in dm ==> dm'[id] == dm[id].(collapsed := !dm[id].collapsed)
    ensures forall x :: x in dm && x != id ==> dm'[x] == dm[x]
  {
    if id in dm then dm[id := dm[id].(collapsed := !dm[id].collapsed)] else dm
  }

  /** Toggling the same node twice restores `dataMap`. */
  lemma ToggledCollapseTwice(dm: NodeMap, id: Id)
    ensures ToggledCollapse(ToggledCollapse(dm, id), id) == dm
  {
    if id in dm {
      var dm2 := ToggledCollapse(ToggledCollapse(dm, id), id);
      assert forall x :: x in dm ==> dm2[x] == dm[x];
    }
  }

  // ---------------------------------------------------------------------
  // The search cursor

  /** The ids whose node has a name containing `lower` after lower-casing, in key order. */
  function SearchResults(dm: NodeMap, keys: seq<Id>, lower: string): (r: seq<Id>)
    ensures forall x :: x in r <==> x in keys && x in dm && dm[x].row.name != "" && Includes(ToLower(dm[x].row.name), lower)
  {
    Filter(keys, (x: Id) => x in dm && dm[x].row.name != "" && Includes(ToLower(dm[x].row.name), lower))
  }

  /** Repeating a query moves to the next result, wrapping to the first after the last. */
  function Advance(index: nat, count: nat): (r: nat)
    ensures count > 0 ==> r < count
    ensures count == 0 ==> r == 0
    ensures index + 1 < count ==> r == index + 1
  {
    if index + 1 >= count then 0 else index + 1
  }

  /** The cursor after `k` repeats of a query with `count` results. */
  function Repeated(count: nat, k: nat): nat {
    if k == 0 then 0 else Advance(Repeated(count, k - 1), count)
  }

  /** Repeating a query visits the results in order: after `k < count` repeats the cursor is at `k`. */
  lemma {:induction false} RepeatedCounts(count: nat, k: nat)
    requires k < count
    ensures Repeated(count, k) == k
  {
    if k > 0 {
      RepeatedCounts(count, k - 1);
    }
  }

  /** After the last result the cursor starts over: `count` repeats bring it back where it was. */
  lemma {:induction false} RepeatedPeriodic(count: nat, k: nat)
    requires count > 0
    ensures Repeated(count, k + count) == Repeated(count, k)
  {
    if k == 0 {
      RepeatedCounts(count, count - 1);
    } else {
      RepeatedPeriodic(count, k - 1);
      assert k + count - 1 == (k - 1) + count;
    }
  }

  // ---------------------------------------------------------------------
  // Names

  /** `formatName(name)`: all words but the last, a dot, the last word's first character; one word comes back as given. */
  function FormatName(name: string): string {
    if name == "" then ""
    else
      var parts := SplitSpaces(Trim(name));
      if |parts| > 1 then Join(parts[..|parts| - 1], " ") + "." + CharAt0(parts[|parts| - 1])
      else name
  }

  /** A name of two or more words is shortened to the leading words, a dot and the last word's first character. */
  lemma FormatNameWords(words: seq<string>)
    requires |words| >= 2 && forall k :: 0 <= k < |words| ==> IsWord(words[k])
    ensures FormatName(Join(words, " ")) == Join(words[..|words| - 1], " ") + "." + CharAt0(words[|words| - 1])
  {
    var s := Join(words, " ");
    JoinWordsEdges(words);
    TrimNoEdgeSpace(s);
    SplitSpacesJoin(words);
    assert IsWord(words[|words| - 1]);
  }

  /** A name without inner white space is returned exactly as given, surrounding spaces included. */
  lemma FormatNameOneWord(name: string)
    requires forall c :: c in Trim(name) ==> !IsSpace(c)
    ensures FormatName(name) == name
  {
    SplitRunsNoSep(Trim(name), IsSpace);
  }

  /** `getInitial(name)`: the first character of the trimmed name, upper-cased; `?` for no name. */
  function GetInitial(name: string): (r: string)
    ensures |r| <= 1
    ensures name == "" ==> r == "?"
  {
    if name == "" then "?" else ToUpper(CharAt0(Trim(name)))
  }

  /** The initial of a name made of words is the upper-cased first character of its first word. */
  lemma GetInitialWords(words: seq<string>)
    requires words != [] && forall k :: 0 <= k < |words| ==> IsWord(words[k])
    ensures GetInitial(Join(words, " ")) == UpperInitial(words[0])
  {
    var s := Join(words, " ");
    JoinWordsEdges(words);
    TrimNoEdgeSpace(s);
    assert IsWord(words[0]);
    JoinFirst(words, " ");
  }

  lemma JoinFirst(parts: seq<string>, sep: string)
    requires parts != [] && parts[0] != []
    ensures Join(parts, sep) != [] && Join(parts, sep)[0] == parts[0][0]
  {
    if |parts| > 1 {
      assert Join(parts, sep) == parts[0] + sep + Join(parts[1..], sep);
    }
  }

  /** The name of the node `id`, or nothing when there is no such node. */
  function NameOf(dm: NodeMap): Id -> string {
    (id: Id) => if id in dm then dm[id].row.name else ""
  }

  predicate NonEmpty(s: string) {
    s != ""
  }

  /** `getDisplayNames(ids)`: the names of the nodes named, comma-separated; `N/A` when there are none. */
  function DisplayNames(dm: NodeMap, ids: seq<Id>): string {
    if ids == [] then "N/A"
    else
      var names := Filter(MapSeq(ids, NameOf(dm)), NonEmpty);
      if |names| > 0 then Join(names, ", ") else "N/A"
  }

  /** Some id names a node with a name, or the text is `N/A`; it is never empty. */
  lemma DisplayNamesMeaning(dm: NodeMap, ids: seq<Id>)
    ensures DisplayNames(dm, ids) != ""
    ensures (forall i :: 0 <= i < |ids| ==> ids[i] !in dm || dm[ids[i]].row.name == "") ==> DisplayNames(dm, ids) == "N/A"
    ensures |ids| == 1 && ids[0] in dm && dm[ids[0]].row.name != "" ==> DisplayNames(dm, ids) == dm[ids[0]].row.name
  {
    if ids != [] {
      var all := MapSeq(ids, NameOf(dm));
      var names := Filter(all, NonEmpty);
      if |names| > 0 {
        assert names[0] in names;
        JoinFirst(names, ", ");
      }
      if |ids| == 1 && ids[0] in dm && dm[ids[0]].row.name != "" {
        assert all == [dm[ids[0]].row.name];
        assert all[0] in names;
        assert |names| == 1;
      }
    }
  }

  /** `getParentNames(node)`: the display names of the parent ids that are not blank. */
  function ParentNames(dm: NodeMap, r: Row): string {
    DisplayNames(dm, Filter([r.fid, r.mid], NonBlank))
  }

  // ---------------------------------------------------------------------
  // The viewer

  /** The home node at start-up: the stored id when it names a node, else the first node named `HomeMemberName`. */
  function HomeNode(dm: NodeMap, keys: seq<Id>, stored: Id): (r: Option<Id>)
    ensures r.Some? ==> r.value in dm || r.value in keys
    ensures stored != "" && stored in dm ==> r == Some(stored)
  {
    if stored != "" && stored in dm then Some(stored) else FirstNamed(dm, keys)
  }

  /** `Object.values(dataMap).find(n => n.name === HOME_MEMBER_NAME)`. */
  function FirstNamed(dm: NodeMap, keys: seq<Id>): (r: Option<Id>)
    ensures r.Some? ==> r.value in keys && r.value in dm && dm[r.value].row.name == HomeMemberName
    ensures r.None? ==> forall k :: k in keys && k in dm ==> dm[k].row.name != HomeMemberName
    ensures r.Some? ==> exists j :: 0 <= j < |keys| && keys[j] == r.value && FirstWithName(dm, keys, j)
  {
    if keys == [] then None
    else if keys[0] in dm && dm[keys[0]].row.name == HomeMemberName then
      assert FirstWithName(dm, keys, 0);
      Some(keys[0])
    else
      var rest := FirstNamed(dm, keys[1..]);
      if rest.Some? then
        var j :| 0 <= j < |keys[1..]| && keys[1..][j] == rest.value && FirstWithName(dm, keys[1..], j);
        assert forall i :: 0 < i <= j ==> keys[i] == keys[1..][i - 1];
        assert FirstWithName(dm, keys, j + 1);
        rest
      else rest
  }

  /** No key before position `j` names a node called `HomeMemberName`. */
  predicate FirstWithName(dm: NodeMap, keys: seq<Id>, j: nat)
    requires j <= |keys|
  {
    forall i :: 0 <= i < j && keys[i] in dm ==> dm[keys[i]].row.name != HomeMemberName
  }

  class Viewer {
    var dataMap: NodeMap
    /** `Object.keys(dataMap)` in insertion order. */
    var keys: seq<Id>
    var rootNodes: seq<Id>
    var searchResults: seq<Id>
    var searchIndex: nat
    var lastQuery: string
    var spouseParentsExpanded: set<Id>
    /** `""` stands for `null`. */
    var activeFocusId: Id

    /** The cursor points at a result whenever there is one. */
    predicate CursorOk()
      reads this
    {
      searchIndex < |searchResults| || (searchResults == [] && searchIndex == 0)
    }

    constructor ()
      ensures dataMap == map[] && keys == [] && rootNodes == []
      ensures searchResults == [] && searchIndex == 0 && lastQuery == ""
      ensures spouseParentsExpanded == {} && activeFocusId == ""
      ensures CursorOk()
    {
      dataMap, keys, rootNodes := map[], [], [];
      searchResults, searchIndex, lastQuery := [], 0, "";
      spouseParentsExpanded, activeFocusId := {}, "";
    }

    /** `rootNodes = buildHierarchy(flat)`: the three passes over the records. */
    method BuildHierarchy(flat: seq<Row>)
      modifies this
      ensures dataMap == Hierarchy(flat).dm && rootNodes == Hierarchy(flat).roots && keys == KeyOrder(flat)
      ensures searchResults == old(searchResults) && searchIndex == old(searchIndex) && lastQuery == old(lastQuery)
      ensures spouseParentsExpanded == old(spouseParentsExpanded) && activeFocusId == old(activeFocusId)
    {
      var dm := FirstPass(flat);
      var ks := KeysOf(flat);
      var roots;
      dm, roots := SecondPass(flat, dm);
      dm := ThirdPass(flat, dm);
      dataMap, keys, rootNodes := dm, ks, roots;
    }

    /** The file-input handler: parse the CSV text, rebuild the hierarchy, clear the focus. */
    method LoadCsv(text: string)
      modifies this
      ensures dataMap == Hierarchy(CsvRows(text)).dm && rootNodes == Hierarchy(CsvRows(text)).roots
      ensures keys == KeyOrder(CsvRows(text)) && activeFocusId == ""
      ensures searchResults == old(searchResults) && searchIndex == old(searchIndex) && lastQuery == old(lastQuery)
      ensures spouseParentsExpanded == old(spouseParentsExpanded)
    {
      var rows := ParseCsv(text);
      LoadRows(rows);
    }

    /** The rest of the file-input handler once the records are parsed. */
    method LoadRows(rows: seq<Row>)
      modifies this
      ensures dataMap == Hierarchy(rows).dm && rootNodes == Hierarchy(rows).roots
      ensures keys == KeyOrder(rows) && activeFocusId == ""
      ensures searchResults == old(searchResults) && searchIndex == old(searchIndex) && lastQuery == old(lastQuery)
      ensures spouseParentsExpanded == old(spouseParentsExpanded)
    {
      BuildHierarchy(rows);
      activeFocusId := "";
    }

    /**
     * `toggleNode(id)` as the page installs it: the wrapper makes `id` the
     * active focus, then the original flips the node's collapsed flag.
     */
    method ToggleNode(id: Id)
      modifies this
      ensures dataMap == ToggledCollapse(old(dataMap), id) && activeFocusId == id
      ensures keys == old(keys) && rootNodes == old(rootNodes)
      ensures searchResults == old(searchResults) && searchIndex == old(searchIndex) && lastQuery == old(lastQuery)
      ensures spouseParentsExpanded == old(spouseParentsExpanded)
    {
      activeFocusId := id;
      if id in dataMap {
        dataMap := dataMap[id := dataMap[id].(collapsed := !dataMap[id].collapsed)];
      }
    }

    /** `toggleSpouseParents(id)`. */
    method ToggleSpouseParents(id: Id)
      modifies this
      ensures spouseParentsExpanded == ToggledSet(old(spouseParentsExpanded), id)
      ensures dataMap == old(dataMap) && keys == old(keys) && rootNodes == old(rootNodes) && activeFocusId == old(activeFocusId)
      ensures searchResults == old(searchResults) && searchIndex == old(searchIndex) && lastQuery == old(lastQuery)
    {
      if id == "" {
        return;
      }
      if id in spouseParentsExpanded {
        spouseParentsExpanded := spouseParentsExpanded - {id};
      } else {
        spouseParentsExpanded := spouseParentsExpanded + {id};
      }
    }

    /** `expandAncestors(dataMap[id])`: every node a step up from the lineage of `id` is opened. */
    method ExpandAncestors(id: Id)
      modifies this
      ensures dataMap == Expanded(old(dataMap), id)
      ensures keys == old(keys) && rootNodes == old(rootNodes) && activeFocusId == old(activeFocusId)
      ensures searchResults == old(searchResults) && searchIndex == old(searchIndex) && lastQuery == old(lastQuery)
      ensures spouseParentsExpanded == old(spouseParentsExpanded)
    {
      if id !in dataMap {
        return;
      }
      var lineage, raised := AncestorWalk(dataMap, id);
      OpenedIsExpanded(dataMap, id, raised);
      dataMap := Opened(dataMap, raised);
    }

    /** `focusNode(id)`: focus the node and open its ancestors. */
    method FocusNode(id: Id)
      modifies this
      ensures activeFocusId == id && dataMap == Expanded(old(dataMap), id)
      ensures keys == old(keys) && rootNodes == old(rootNodes)
      ensures searchResults == old(searchResults) && searchIndex == old(searchIndex) && lastQuery == old(lastQuery)
      ensures spouseParentsExpanded == old(spouseParentsExpanded)
    {
      activeFocusId := id;
      ExpandAncestors(id);
    }

    /** `locateNode(id)`: open the node itself, then focus it; an id without a node changes nothing. */
    method LocateNode(id: Id)
      modifies this
      ensures id !in old(dataMap) ==> dataMap == old(dataMap) && activeFocusId == old(activeFocusId)
      ensures id in old(dataMap) ==>
        activeFocusId == id && dataMap == Expanded(old(dataMap)[id := old(dataMap)[id].(collapsed := false)], id)
      ensures keys == old(keys) && rootNodes == old(rootNodes)
      ensures searchResults == old(searchResults) && searchIndex == old(searchIndex) && lastQuery == old(lastQuery)
      ensures spouseParentsExpanded == old(spouseParentsExpanded)
    {
      if id !in dataMap {
        return;
      }
      dataMap := dataMap[id := dataMap[id].(collapsed := false)];
      FocusNode(id);
    }

    /** The start-up step after loading: locate the stored home id, else the node named `HomeMemberName`. */
    method LocateHome(stored: Id)
      modifies this
      ensures HomeNode(old(dataMap), old(keys), stored).None? ==> dataMap == old(dataMap) && activeFocusId == old(activeFocusId)
      ensures HomeNode(old(dataMap), old(keys), stored).Some? && HomeNode(old(dataMap), old(keys), stored).value in old(dataMap) ==>
        var id := HomeNode(old(dataMap), old(keys), stored).value;
        activeFocusId == id && dataMap == Expanded(old(dataMap)[id := old(dataMap)[id].(collapsed := false)], id)
      ensures keys == old(keys) && rootNodes == old(rootNodes)
      ensures searchResults == old(searchResults) && searchIndex == old(searchIndex) && lastQuery == old(lastQuery)
      ensures spouseParentsExpanded == old(spouseParentsExpanded)
    {
      var home := HomeNode(dataMap, keys, stored);
      if home.Some? {
        LocateNode(home.value);
      }
    }

    /**
     * `searchNode(name)`: a new query (after lower-casing) recomputes the
     * results and starts at the first; the same query again moves to the
     * next result, wrapping to the first; the result under the cursor is
     * focused.
     */
    method SearchNode(name: string)
      modifies this
      ensures name == "" ==>
        && dataMap == old(dataMap) && activeFocusId == old(activeFocusId)
        && searchResults == old(searchResults) && searchIndex == old(searchIndex) && lastQuery == old(lastQuery)
      ensures name != "" ==> lastQuery == ToLower(name)
      ensures name != "" && ToLower(name) != old(lastQuery) ==>
        searchResults == SearchResults(old(dataMap), old(keys), ToLower(name)) && searchIndex == 0
      ensures name != "" && ToLower(name) == old(lastQuery) ==>
        searchResults == old(searchResults) && searchIndex == Advance(old(searchIndex), |old(searchResults)|)
      ensures name != "" && searchResults != [] ==>
        activeFocusId == searchResults[searchIndex] && dataMap == Expanded(old(dataMap), activeFocusId)
      ensures searchResults == [] ==> dataMap == old(dataMap) && activeFocusId == old(activeFocusId)
      ensures name != "" ==> CursorOk()
      ensures old(CursorOk()) ==> CursorOk()
      ensures keys == old(keys) && rootNodes == old(rootNodes) && spouseParentsExpanded == old(spouseParentsExpanded)
    {
      if name == "" {
        return;
      }
      var lowerName := ToLower(name);
      if lowerName != lastQuery {
        searchResults := SearchResults(dataMap, keys, lowerName);
        searchIndex := 0;
        lastQuery := lowerName;
      } else {
        searchIndex := searchIndex + 1;
        if searchIndex >= |searchResults| {
          searchIndex := 0;
        }
      }
      if |searchResults| > 0 {
        FocusNode(searchResults[searchIndex]);
      }
    }

    /** `getLineageIds(dataMap[focusId])` as `applyLineageFocus` uses it: the focused node and all its ancestors, none without a focus. */
    method LineageIds(focusId: Id) returns (ids: set<Id>)
      ensures focusId == "" || focusId !in dataMap ==> ids == {}
      ensures focusId != "" && focusId in dataMap ==> forall v :: v in ids <==> Ancestral(dataMap, focusId, v)
    {
      if focusId == "" || focusId !in dataMap {
        return {};
      }
      var raised;
      ids, raised := AncestorWalk(dataMap, focusId);
    }
  }

  /** The first pass of `buildHierarchy`: a fresh node per record. */
  method FirstPass(flat: seq<Row>) returns (dm: NodeMap)
    ensures dm == InitialMap(flat)
  {
    dm := map[];
    for i := 0 to |flat|
      invariant dm == InitialMap(flat[..i])
    {
      assert flat[..i + 1][..i] == flat[..i];
      dm := dm[flat[i].id := FreshNode(flat[i])];
    }
    assert flat[..|flat|] == flat;
  }

  /** The key order the first pass leaves behind: an id is added when first assigned. */
  method KeysOf(flat: seq<Row>) returns (ks: seq<Id>)
    ensures ks == KeyOrder(flat)
  {
    ks := [];
    ghost var ids: seq<Id> := [];
    for i := 0 to |flat|
      invariant ids == RowIdSeq(flat[..i])
      invariant ks == Dedup(ids)
    {
      assert flat[..i + 1][..i] == flat[..i];
      DedupSnoc(ids, flat[i].id);
      if flat[i].id !in ks {
        ks := ks + [flat[i].id];
      }
      ids := ids + [flat[i].id];
    }
    assert flat[..|flat|] == flat;
  }

  /** The second pass of `buildHierarchy`: parents, display parent, roots. */
  method SecondPass(flat: seq<Row>, dm0: NodeMap) returns (dm: NodeMap, roots: seq<Id>)
    requires dm0 == InitialMap(flat)
    ensures forall i :: 0 <= i < |flat| ==> flat[i].id in dm0
    ensures Build(dm, roots) == AttachAll(Build(dm0, []), flat)
  {
    assert forall i :: 0 <= i < |flat| ==> HasId(flat, flat[i].id);
    dm, roots := dm0, [];
    for i := 0 to |flat|
      invariant Build(dm, roots) == AttachAll(Build(dm0, []), flat[..i])
    {
      assert flat[..i + 1][..i] == flat[..i];
      dm, roots := AttachRecord(dm, roots, flat[i]);
    }
    assert flat[..|flat|] == flat;
  }

  /** The body of the second pass for one record. */
  method AttachRecord(dm0: NodeMap, roots0: seq<Id>, node: Row) returns (dm: NodeMap, roots: seq<Id>)
    requires node.id in dm0
    ensures Build(dm, roots) == Attach(Build(dm0, roots0), node)
  {
    dm, roots := dm0, roots0;
    var parentIds := ParentIds(node, dm.Keys);
    if |parentIds| > 0 {
      dm := dm[node.id := dm[node.id].(parents := parentIds)];
    }
    if |parentIds| > 0 {
      var d := parentIds[0];
      dm := dm[d := dm[d].(children := dm[d].children + [node.id])];
      dm := dm[node.id := dm[node.id].(parent := d)];
    } else {
      roots := roots + [node.id];
    }
  }

  /** The third pass of `buildHierarchy`: a child with both parent nodes is linked under the parent that does not display it. */
  method ThirdPass(flat: seq<Row>, dm0: NodeMap) returns (dm: NodeMap)
    ensures dm == LinkAll(dm0, flat)
  {
    dm := dm0;
    for i := 0 to |flat|
      invariant dm == LinkAll(dm0, flat[..i])
    {
      assert flat[..i + 1][..i] == flat[..i];
      var node := flat[i];
      if node.id !in dm {
        continue;
      }
      var hasFather := node.fid != "" && node.fid in dm;
      var hasMother := node.mid != "" && node.mid in dm;
      if !hasFather || !hasMother {
        continue;
      }
      var shown := dm[node.id].parent;
      var father := dm[node.fid];
      var mother := dm[node.mid];
      if shown == father.row.id {
        dm := dm[node.mid := dm[node.mid].(linkedChildren := dm[node.mid].linkedChildren + [node.id])];
      } else if shown == mother.row.id {
        dm := dm[node.fid := dm[node.fid].(linkedChildren := dm[node.fid].linkedChildren + [node.id])];
      } else {
        dm := dm[node.fid := dm[node.fid].(linkedChildren := dm[node.fid].linkedChildren + [node.id])];
        dm := dm[node.mid := dm[node.mid].(linkedChildren := dm[node.mid].linkedChildren + [node.id])];
      }
    }
    assert flat[..|flat|] == flat;
  }
}
