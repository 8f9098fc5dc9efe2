/**
 * The records of the admin draft store and the pure helpers over them:
 * id normalisation, id lists typed by the editor, CSV cells of the log
 * export, generated person ids, and the sanitised export lists.
 */
module DraftData {
  import opened Text
  import opened Sorting

  type Id = string

  // ---------------------------------------------------------------------
  // records

  /** A row of the persons file. */
  datatype PersonRow = PersonRow(
    personId: Id,
    givenName: string,
    surname: string,
    sex: string,
    birthDate: string,
    birthPlaceId: Id)

  /** A row of the contacts file. */
  datatype Contact = Contact(personId: Id, phone: string, email: string, note: string)

  /** A row of the families file. */
  datatype Family = Family(
    familyId: string,
    husbandId: Id,
    wifeId: Id,
    marriageDate: string,
    marriagePlaceId: Id,
    children: seq<Id>)

  // ---------------------------------------------------------------------
  // ids

  /** `normalizeId`: trimmed and upper-cased. */
  function NormalizeId(v: string): (r: Id)
    ensures |r| <= |v|
  {
    ToUpper(Trim(v))
  }

  /** A normalised id normalises to itself. */
  lemma NormalizeIdIdempotent(v: string)
    ensures NormalizeId(NormalizeId(v)) == NormalizeId(v)
  {
    var t := Trim(v);
    var u := ToUpper(t);
    if t != [] {
      UpperKeepsSpace(t[0]);
      UpperKeepsSpace(t[|t| - 1]);
    }
    TrimNoEdgeSpace(u);
    ToUpperIdempotent(t);
  }

  predicate IsNormalId(id: Id) {
    NormalizeId(id) == id
  }

  /** The `getPerson` lookup: whether some row has exactly the normalised id. */
  predicate HasPerson(persons: seq<PersonRow>, id: string) {
    exists i :: 0 <= i < |persons| && persons[i].personId == NormalizeId(id)
  }

  /** The characters that separate ids typed into one field: white space, `,` and `;`. */
  predicate IsIdSeparator(c: char) {
    IsSpace(c) || c == ',' || c == ';'
  }

  predicate NonEmpty(x: string) { x != [] }

  /** `.map(normalizeId).filter(Boolean)`. */
  function NormalizeAll(parts: seq<string>): (r: seq<Id>)
    ensures forall x :: x in r <==> x != [] && exists p :: p in parts && NormalizeId(p) == x
  {
    var m := MapSeq(parts, NormalizeId);
    forall x ensures x in m <==> exists p :: p in parts && NormalizeId(p) == x {
      InMapSeq(parts, NormalizeId, x);
    }
    Filter(m, NonEmpty)
  }

  lemma UpperKeepsSeparator(c: char)
    ensures IsIdSeparator(UpperChar(c)) <==> IsIdSeparator(c)
  {
  }

  /**
   * `parseIdList`: the ids typed into one field, split at runs of
   * separators, normalised, without empty ids and without repeats, in
   * order of first occurrence.
   */
  function ParseIdList(raw: string): (r: seq<Id>)
    ensures Distinct(r)
    ensures forall x :: x in r <==>
      x != [] && exists p :: p in SplitRuns(raw, IsIdSeparator) && NormalizeId(p) == x
  {
    Dedup(NormalizeAll(SplitRuns(raw, IsIdSeparator)))
  }

  /** The ids keep the order in which each first appears among the normalised pieces. */
  lemma ParseIdListOrder(raw: string)
    ensures FirstSeenOrder(NormalizeAll(SplitRuns(raw, IsIdSeparator)), ParseIdList(raw))
  {
    DedupOrder(NormalizeAll(SplitRuns(raw, IsIdSeparator)));
  }

  /** Every listed id is normalised and holds no separator. */
  lemma ParseIdListClean(raw: string)
    ensures forall x :: x in ParseIdList(raw) ==> IsNormalId(x)
    ensures forall x, c :: x in ParseIdList(raw) && c in x ==> !IsIdSeparator(c)
  {
    var parts := SplitRuns(raw, IsIdSeparator);
    forall x | x in ParseIdList(raw) ensures IsNormalId(x) && forall c :: c in x ==> !IsIdSeparator(c) {
      var p :| p in parts && NormalizeId(p) == x;
      NormalizeIdIdempotent(p);
      var t := Trim(p);
      assert forall c :: c in p ==> !IsIdSeparator(c);
      TrimKeepsChars(p);
      forall c | c in x ensures !IsIdSeparator(c) {
        var k :| 0 <= k < |x| && x[k] == c;
        assert c == UpperChar(t[k]);
        assert t[k] in t;
        UpperKeepsSeparator(t[k]);
      }
    }
  }

  // ---------------------------------------------------------------------
  // CSV cells

  /** Every `"` doubled. */
  function EscapeQuotes(s: string): (r: string)
    ensures |r| >= |s|
  {
    if s == [] then []
    else (if s[0] == '"' then "\"\"" else [s[0]]) + EscapeQuotes(s[1..])
  }

  /** `toCsvCell`: the text in double quotes with inner quotes doubled. */
  function ToCsvCell(text: string): (r: string)
    ensures |r| >= 2 && r[0] == '"' && r[|r| - 1] == '"'
  {
    "\"" + EscapeQuotes(text) + "\""
  }

  /** Reads back the inside of a quoted cell: `""` stands for `"`, and a lone `"` is malformed. */
  function Unescape(s: string): Option<string> {
    if s == [] then Some([])
    else if s[0] == '"' then
      if |s| >= 2 && s[1] == '"' then
        match Unescape(s[2..])
        case None => None
        case Some(t) => Some("\"" + t)
      else None
    else
      match Unescape(s[1..])
      case None => None
      case Some(t) => Some([s[0]] + t)
  }

  /** The text of a quoted CSV cell, or nothing when the cell is malformed. */
  function ParseCsvCell(cell: string): Option<string> {
    if |cell| < 2 || cell[0] != '"' || cell[|cell| - 1] != '"' then None
    else Unescape(cell[1..|cell| - 1])
  }

  lemma {:induction false} UnescapeEscaped(s: string)
    ensures Unescape(EscapeQuotes(s)) == Some(s)
    decreases |s|
  {
    if s != [] {
      UnescapeEscaped(s[1..]);
      var e := EscapeQuotes(s);
      assert s == [s[0]] + s[1..];
      if s[0] == '"' {
        assert e[2..] == EscapeQuotes(s[1..]);
      } else {
        assert e[1..] == EscapeQuotes(s[1..]);
      }
    }
  }

  /** A cell reads back as the text it was made from. */
  lemma CsvCellRoundTrip(text: string)
    ensures ParseCsvCell(ToCsvCell(text)) == Some(text)
  {
    var c := ToCsvCell(text);
    assert c[1..|c| - 1] == EscapeQuotes(text);
    UnescapeEscaped(text);
  }

  // ---------------------------------------------------------------------
  // generated ids

  /** The number of an id of the form `I<digits>` (either case of `I`), as `/^I(\d+)$/i` matches. */
  function IdNumber(id: string): (r: Option<nat>)
    ensures r.Some? ==> |id| >= 2 && (id[0] == 'I' || id[0] == 'i') && AllDigits(id[1..])
  {
    if |id| >= 2 && (id[0] == 'I' || id[0] == 'i') && AllDigits(id[1..]) then Some(DigitsValue(id[1..]))
    else None
  }

  /** A letter followed by `n` zero-padded to four digits, as in `I0042` and `F0001`. */
  function NumberedId(letter: char, n: nat): string {
    [letter] + PadStart(NatToString(n), 4, '0')
  }

  /** The largest id number among the persons, 0 when there is none. */
  function MaxIdNumber(persons: seq<PersonRow>): (m: nat)
    ensures forall i :: 0 <= i < |persons| && IdNumber(persons[i].personId).Some? ==>
      IdNumber(persons[i].personId).value <= m
    ensures m == 0 || exists i :: 0 <= i < |persons| && IdNumber(persons[i].personId) == Some(m)
  {
    if persons == [] then 0
    else
      var rest := MaxIdNumber(persons[..|persons| - 1]);
      var last := IdNumber(persons[|persons| - 1].personId);
      var m := if last.Some? && last.value > rest then last.value else rest;
      assert forall i :: 0 <= i < |persons| - 1 ==> persons[i] == persons[..|persons| - 1][i];
      m
  }

  /** `nextPersonId`: `I` and one more than the largest id number, zero-padded. */
  function NextId(persons: seq<PersonRow>): (id: Id)
    ensures id != [] && id[0] == 'I'
  {
    NumberedId('I', MaxIdNumber(persons) + 1)
  }

  lemma IdNumberOfNumbered(n: nat)
    ensures IdNumber(NumberedId('I', n)) == Some(n)
  {
    var s := NumberedId('I', n);
    PaddedValue(n, 4);
    assert s[1..] == PadStart(NatToString(n), 4, '0');
  }

  /** The next id is numbered one past the largest id number, padded to at least four digits. */
  lemma NextIdNumber(persons: seq<PersonRow>)
    ensures IdNumber(NextId(persons)) == Some(MaxIdNumber(persons) + 1)
    ensures |NextId(persons)| == 1 + (if |NatToString(MaxIdNumber(persons) + 1)| >= 4 then |NatToString(MaxIdNumber(persons) + 1)| else 4)
  {
    IdNumberOfNumbered(MaxIdNumber(persons) + 1);
  }

  /** A capital letter followed by digits is already normalised. */
  lemma LetterDigitsNormal(s: string)
    requires s != [] && 'A' <= s[0] <= 'Z' && AllDigits(s[1..])
    ensures IsNormalId(s)
  {
    assert forall i :: 1 <= i < |s| ==> s[1..][i - 1] == s[i];
    TrimNoEdgeSpace(s);
    assert ToUpper(s) == s;
  }

  /** A padded number is digits only. */
  lemma PaddedDigits(w: string, width: nat)
    requires AllDigits(w)
    ensures AllDigits(PadStart(w, width, '0'))
  {
    var d := PadStart(w, width, '0');
    forall i | 0 <= i < |d| ensures IsDigit(d[i]) {
      if i >= |d| - |w| {
        assert d[i] == d[|d| - |w|..][i - (|d| - |w|)];
      }
    }
  }

  /** A generated id is already normalised. */
  lemma NumberedIdNormal(n: nat)
    ensures IsNormalId(NumberedId('I', n))
  {
    PaddedDigits(NatToString(n), 4);
    assert NumberedId('I', n)[1..] == PadStart(NatToString(n), 4, '0');
    LetterDigitsNormal(NumberedId('I', n));
  }

  lemma NextIdNormal(persons: seq<PersonRow>)
    ensures IsNormalId(NextId(persons))
  {
    NumberedIdNormal(MaxIdNumber(persons) + 1);
  }

  /** The generated id is not the id of any person. */
  lemma NextIdFresh(persons: seq<PersonRow>)
    ensures forall i :: 0 <= i < |persons| ==> persons[i].personId != NextId(persons)
  {
    IdNumberOfNumbered(MaxIdNumber(persons) + 1);
  }

  // ---------------------------------------------------------------------
  // sanitised export lists

  function PersonKey(p: PersonRow): string { p.personId }

  function ContactKey(c: Contact): string { c.personId }

  /** One person as exported: ids normalised, texts trimmed, sex `F` or `M`. */
  function SanitizePerson(p: PersonRow): (r: PersonRow)
    ensures r.sex == "F" || r.sex == "M"
    ensures IsNormalId(r.personId) && IsNormalId(r.birthPlaceId)
  {
    NormalizeIdIdempotent(p.personId);
    NormalizeIdIdempotent(p.birthPlaceId);
    PersonRow(NormalizeId(p.personId), Trim(p.givenName), Trim(p.surname),
              if ToUpper(if p.sex == [] then "M" else p.sex) == "F" then "F" else "M",
              Trim(p.birthDate), NormalizeId(p.birthPlaceId))
  }

  function SanitizeEach(persons: seq<PersonRow>): (r: seq<PersonRow>)
    ensures |r| == |persons|
    ensures forall i :: 0 <= i < |r| ==> r[i] == SanitizePerson(persons[i])
  {
    seq(|persons|, i requires 0 <= i < |persons| => SanitizePerson(persons[i]))
  }

  /** `sanitizePersons`: every person sanitised, ordered by id. */
  function SanitizePersons(persons: seq<PersonRow>): (r: seq<PersonRow>)
    ensures |r| == |persons|
    ensures multiset(r) == multiset(SanitizeEach(persons))
    ensures SortedBy(r, PersonKey)
  {
    SortBy(SanitizeEach(persons), PersonKey)
  }

  /** Every exported person is the sanitised form of a draft person, and the reverse. */
  lemma SanitizedPersonsAreDraftPersons(persons: seq<PersonRow>)
    ensures forall q :: q in SanitizePersons(persons) <==> exists i :: 0 <= i < |persons| && q == SanitizePerson(persons[i])
  {
    var s := SanitizeEach(persons);
    forall q ensures q in SanitizePersons(persons) <==> q in s {
      assert q in SanitizePersons(persons) <==> q in multiset(SanitizePersons(persons));
      assert q in s <==> q in multiset(s);
    }
  }

  function SanitizeContact(c: Contact): Contact {
    Contact(NormalizeId(c.personId), Trim(c.phone), Trim(c.email), Trim(c.note))
  }

  predicate HasDetails(c: Contact) {
    c.phone != [] || c.email != [] || c.note != []
  }

  /** The contacts of existing persons, sanitised, without the empty ones. */
  function KeptContacts(contacts: seq<Contact>, persons: seq<PersonRow>): (r: seq<Contact>)
    ensures forall c :: c in r ==>
      HasDetails(c) && exists k :: 0 <= k < |contacts| && HasPerson(persons, contacts[k].personId) && c == SanitizeContact(contacts[k])
    ensures forall k :: 0 <= k < |contacts| && HasPerson(persons, contacts[k].personId) ==>
      (HasDetails(SanitizeContact(contacts[k])) ==> SanitizeContact(contacts[k]) in r)
  {
    var known := Filter(contacts, (c: Contact) => HasPerson(persons, c.personId));
    var m := MapSeq(known, SanitizeContact);
    var r := Filter(m, HasDetails);
    forall c | c in r
      ensures exists k :: 0 <= k < |contacts| && HasPerson(persons, contacts[k].personId) && c == SanitizeContact(contacts[k])
    {
      InMapSeq(known, SanitizeContact, c);
      var x :| x in known && c == SanitizeContact(x);
      var k :| 0 <= k < |contacts| && contacts[k] == x;
    }
    forall k | 0 <= k < |contacts| && HasPerson(persons, contacts[k].personId)
      ensures HasDetails(SanitizeContact(contacts[k])) ==> SanitizeContact(contacts[k]) in r
    {
      assert contacts[k] in known;
      InMapSeq(known, SanitizeContact, SanitizeContact(contacts[k]));
    }
    r
  }

  /** `sanitizeContacts`: the kept contacts ordered by person id. */
  function SanitizeContacts(contacts: seq<Contact>, persons: seq<PersonRow>): (r: seq<Contact>)
    ensures SortedBy(r, ContactKey)
    ensures multiset(r) == multiset(KeptContacts(contacts, persons))
    ensures forall c :: c in r ==> HasDetails(c) && IsNormalId(c.personId) && HasPerson(persons, c.personId)
  {
    var kept := KeptContacts(contacts, persons);
    var r := SortBy(kept, ContactKey);
    forall c | c in r ensures HasDetails(c) && IsNormalId(c.personId) && HasPerson(persons, c.personId) {
      assert c in multiset(r);
      assert c in kept;
      var k :| 0 <= k < |contacts| && HasPerson(persons, contacts[k].personId) &&
        c == SanitizeContact(contacts[k]);
      NormalizeIdIdempotent(contacts[k].personId);
    }
    r
  }

  /** The normalised, non-empty person ids. */
  function PersonIds(persons: seq<PersonRow>): set<Id> {
    set i | 0 <= i < |persons| && NormalizeId(persons[i].personId) != [] :: NormalizeId(persons[i].personId)
  }

  /** The normalised id of every person, in order. */
  function RowIds(persons: seq<PersonRow>): (r: seq<Id>)
    ensures |r| == |persons| && forall i :: 0 <= i < |persons| ==> r[i] == NormalizeId(persons[i].personId)
  {
    MapSeq(persons, (p: PersonRow) => NormalizeId(p.personId))
  }

  /** The persons' ids are the non-empty normalised row ids. */
  lemma PersonIdsOfRows(persons: seq<PersonRow>)
    ensures forall id :: id in PersonIds(persons) <==> id != [] && id in RowIds(persons)
  {
    var ids := RowIds(persons);
    forall id | id != [] && id in ids
      ensures id in PersonIds(persons)
    {
      var i :| 0 <= i < |ids| && ids[i] == id;
    }
  }

  /** `photos[id]` as a string, `""` when absent. */
  function PhotoOf(photos: map<Id, string>, id: Id): string {
    if id in photos then photos[id] else ""
  }

  /** `sanitizePhotos`: the trimmed photo path of every person that has one. */
  function SanitizePhotos(persons: seq<PersonRow>, photos: map<Id, string>): (r: map<Id, string>)
    ensures forall id :: id in r <==> id in PersonIds(persons) && Trim(PhotoOf(photos, id)) != []
    ensures forall id :: id in r ==> r[id] == Trim(PhotoOf(photos, id))
  {
    map id | id in PersonIds(persons) && Trim(PhotoOf(photos, id)) != [] :: Trim(PhotoOf(photos, id))
  }
}
