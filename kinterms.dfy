/**
 * The term resolver: how a relationship code becomes a display term.
 * Dictionary terms (`getTerm`), birth-date parsing with the two-digit-year
 * pivot (`parseDate`), the age comparison (`compareAge`), the dictionary
 * dispatch with its five age rules (`resolveRelationName`), the entry point
 * `findRelationship`, and the sibling term of the report (`getSiblingTerm`).
 *
 * The ambient values the browser code reads from `window` and from the
 * clock are parameters: `lang` is the relation language, `dict` the
 * relationship dictionary and `yy` the current year modulo 100.
 */
module KinshipTerms {
  import opened Text
  import opened Genealogy
  import KinshipCode
  import opened KinshipSearch
  import opened KinshipGraph

  // ---------------------------------------------------------------------
  // dictionary terms

  /**
   * A dictionary value: absent, a plain string (the older dictionary
   * format) or an object from language code to text.
   */
  datatype Term = NoTerm | Plain(text: string) | Localized(texts: map<string, string>)

  /** JavaScript truthiness of a dictionary value: any object is truthy. */
  predicate Truthy(t: Term) {
    match t
    case NoTerm => false
    case Plain(s) => s != []
    case Localized(_) => true
  }

  /** `a || b` on dictionary values. */
  function Or(a: Term, b: Term): Term {
    if Truthy(a) then a else b
  }

  /** `obj[key]` read as a string, `""` when the key is absent. */
  function Lookup(m: map<string, string>, key: string): string {
    if key in m then m[key] else ""
  }

  /**
   * `getTerm`: the text of a dictionary value in language `lang`, falling
   * back to Telugu and then to the empty string.
   */
  function GetTerm(t: Term, lang: string): (r: string)
    ensures !Truthy(t) ==> r == []
    ensures t.Plain? ==> r == t.text
    ensures t.Localized? && Lookup(t.texts, lang) != [] ==> r == t.texts[lang]
    ensures t.Localized? && Lookup(t.texts, lang) == [] ==> r == Lookup(t.texts, "te")
  {
    match t
    case NoTerm => ""
    case Plain(s) => s
    case Localized(m) =>
      if Lookup(m, lang) != [] then m[lang] else Lookup(m, "te")
  }

  /** A term is empty exactly when neither the chosen language nor Telugu has text. */
  lemma GetTermEmpty(t: Term, lang: string)
    ensures GetTerm(t, lang) == [] <==>
      match t
      case NoTerm => true
      case Plain(s) => s == []
      case Localized(m) => Lookup(m, lang) == [] && Lookup(m, "te") == []
  {
  }

  /**
   * A dictionary entry. Absent fields are `NoTerm`; `ageRule` is the rule
   * name, `""` when the entry has none.
   */
  datatype DictEntry = DictEntry(
    name: Term,
    male: Term,
    female: Term,
    ageRule: string,
    pedda: Term,
    chinna: Term,
    elder: Term,
    younger: Term,
    defaultTerm: Term)

  // ---------------------------------------------------------------------
  // calendar

  /** A calendar date as `new Date(year, month, day)` receives it: `month` counts from 0. */
  datatype Date = Date(year: nat, month: nat, day: nat)

  predicate IsLeap(y: nat) {
    y % 4 == 0 && (y % 100 != 0 || y % 400 == 0)
  }

  function YearLength(y: nat): nat {
    if IsLeap(y) then 366 else 365
  }

  /** Days in month `m` (0 = January). */
  function MonthLength(m: nat, leap: bool): nat {
    if m == 1 then (if leap then 29 else 28)
    else if m == 3 || m == 5 || m == 8 || m == 10 then 30
    else 31
  }

  function DaysBeforeMonth(m: nat, leap: bool): nat {
    if m == 0 then 0 else DaysBeforeMonth(m - 1, leap) + MonthLength(m - 1, leap)
  }

  /** Days of the proleptic Gregorian calendar before 1 January of year `y`. */
  function DaysBeforeYear(y: nat): nat {
    if y == 0 then 0 else DaysBeforeYear(y - 1) + YearLength(y - 1)
  }

  /**
   * The day a `Date` stands for, counted from a fixed origin. Like the
   * JavaScript `Date` constructor, it lets the day run over: day 0 is the
   * last day of the previous month and 32-JAN is 1-FEB.
   */
  function DayNumber(d: Date): nat {
    DaysBeforeYear(d.year) + DaysBeforeMonth(d.month, IsLeap(d.year)) + d.day
  }

  /** A date that names a real calendar day, so that no roll-over happens. */
  predicate ValidDate(d: Date) {
    d.month < 12 && 1 <= d.day <= MonthLength(d.month, IsLeap(d.year))
  }

  /** Calendar order on (year, month, day) triples. */
  predicate Earlier(a: Date, b: Date) {
    a.year < b.year ||
    (a.year == b.year && a.month < b.month) ||
    (a.year == b.year && a.month == b.month && a.day < b.day)
  }

  lemma MonthsFitYear(leap: bool)
    ensures DaysBeforeMonth(12, leap) == if leap then 366 else 365
  {
    assert DaysBeforeMonth(1, leap) == 31;
    assert DaysBeforeMonth(2, leap) == 59 + (if leap then 1 else 0);
    assert DaysBeforeMonth(3, leap) == 90 + (if leap then 1 else 0);
    assert DaysBeforeMonth(4, leap) == 120 + (if leap then 1 else 0);
    assert DaysBeforeMonth(5, leap) == 151 + (if leap then 1 else 0);
    assert DaysBeforeMonth(6, leap) == 181 + (if leap then 1 else 0);
    assert DaysBeforeMonth(7, leap) == 212 + (if leap then 1 else 0);
    assert DaysBeforeMonth(8, leap) == 243 + (if leap then 1 else 0);
    assert DaysBeforeMonth(9, leap) == 273 + (if leap then 1 else 0);
    assert DaysBeforeMonth(10, leap) == 304 + (if leap then 1 else 0);
    assert DaysBeforeMonth(11, leap) == 334 + (if leap then 1 else 0);
    assert DaysBeforeMonth(12, leap) == 365 + (if leap then 1 else 0);
  }

  lemma {:induction false} DaysBeforeMonthMono(m1: nat, m2: nat, leap: bool)
    requires m1 < m2
    ensures DaysBeforeMonth(m1, leap) + MonthLength(m1, leap) <= DaysBeforeMonth(m2, leap)
    decreases m2
  {
    if m1 < m2 - 1 {
      DaysBeforeMonthMono(m1, m2 - 1, leap);
    }
  }

  lemma {:induction false} DaysBeforeYearMono(y1: nat, y2: nat)
    requires y1 < y2
    ensures DaysBeforeYear(y1) + YearLength(y1) <= DaysBeforeYear(y2)
    decreases y2
  {
    if y1 < y2 - 1 {
      DaysBeforeYearMono(y1, y2 - 1);
    }
  }

  /** A valid date ends within its own year. */
  lemma DayWithinYear(d: Date)
    requires ValidDate(d)
    ensures DaysBeforeMonth(d.month, IsLeap(d.year)) + d.day <= YearLength(d.year)
  {
    MonthsFitYear(IsLeap(d.year));
    if d.month < 11 {
      DaysBeforeMonthMono(d.month, 12, IsLeap(d.year));
    }
  }

  /** On real calendar days the day number orders dates exactly as the calendar does. */
  lemma DayNumberOrder(a: Date, b: Date)
    requires ValidDate(a) && ValidDate(b)
    ensures DayNumber(a) < DayNumber(b) <==> Earlier(a, b)
    ensures DayNumber(a) == DayNumber(b) <==> a == b
  {
    if a.year < b.year {
      DayWithinYear(a);
      DaysBeforeYearMono(a.year, b.year);
    } else if b.year < a.year {
      DayWithinYear(b);
      DaysBeforeYearMono(b.year, a.year);
    } else if a.month < b.month {
      DaysBeforeMonthMono(a.month, b.month, IsLeap(a.year));
    } else if b.month < a.month {
      DaysBeforeMonthMono(b.month, a.month, IsLeap(a.year));
    }
  }

  // ---------------------------------------------------------------------
  // parseDate

  const MonthKeys: seq<string> :=
    ["JAN", "FEB", "MAR", "APR", "MAY", "JUN", "JUL", "AUG", "SEP", "OCT", "NOV", "DEC"]

  /** `months[monthKey]`: the month number of a three-letter key. */
  function MonthIndex(key: string): (r: Option<nat>)
    ensures r.Some? ==> r.value < 12 && MonthKeys[r.value] == key
    ensures r.None? <==> key !in MonthKeys
  {
    if key == "JAN" then Some(0) else if key == "FEB" then Some(1)
    else if key == "MAR" then Some(2) else if key == "APR" then Some(3)
    else if key == "MAY" then Some(4) else if key == "JUN" then Some(5)
    else if key == "JUL" then Some(6) else if key == "AUG" then Some(7)
    else if key == "SEP" then Some(8) else if key == "OCT" then Some(9)
    else if key == "NOV" then Some(10) else if key == "DEC" then Some(11)
    else None
  }

  /** Each month key is three capital letters and names its own month. */
  lemma MonthKey(m: nat)
    requires m < 12
    ensures MonthIndex(MonthKeys[m]) == Some(m)
    ensures |MonthKeys[m]| == 3
    ensures forall i :: 0 <= i < 3 ==> 'A' <= MonthKeys[m][i] <= 'Z'
  {
  }

  /**
   * The year as `parseDate` completes it: a year below 100 is placed in the
   * 1900s when it lies more than ten years after the current two-digit
   * year `yy`, and in the 2000s otherwise.
   */
  function FullYear(y: nat, yy: nat): (r: nat)
    ensures y >= 100 ==> r == y
    ensures y < 100 ==> r % 100 == y && 1900 <= r < 2100
    ensures y < 100 ==> (r < 2000 <==> y > yy + 10)
  {
    if y < 100 then (if y > yy + 10 then 1900 + y else 2000 + y) else y
  }

  /**
   * While the current year is not in the last decade of its century, a
   * two-digit year lands in the hundred-year window that ends ten years
   * after the current year.
   */
  lemma PivotWindow(y: nat, yy: nat)
    requires y < 100 && yy < 90
    ensures 1900 + yy + 11 <= FullYear(y, yy) <= 2000 + yy + 10
  {
  }

  /** The first three characters of a string (all of it when shorter). */
  function Prefix3(s: string): (r: string)
    ensures |r| == if |s| < 3 then |s| else 3
    ensures r == s[..|r|]
  {
    if |s| <= 3 then s else s[..3]
  }

  /**
   * `parseDate`: a `day-month-year` string with exactly three `-`
   * separated parts, a month spelt by its first three letters in any case,
   * and a day and year read by `parseInt`.
   */
  function ParseDate(s: string, yy: nat): (r: Option<Date>)
    ensures s == [] || |SplitChar(s, '-')| != 3 ==> r == None
    ensures r.Some? ==> r.value.month < 12 && r.value.year >= 100
  {
    if s == [] then None
    else
      var parts := SplitChar(s, '-');
      if |parts| != 3 then None
      else
        var day := ParseInt(parts[0]);
        var month := MonthIndex(Prefix3(ToUpper(parts[1])));
        var year := ParseInt(parts[2]);
        if month.None? || day.None? || year.None? then None
        else Some(Date(FullYear(year.value, yy), month.value, day.value))
  }

  /** A date written the way the data writes it: `DD-MON-YYYY`. */
  function DateText(d: Date): (r: string)
    requires d.month < 12
  {
    PadStart(NatToString(d.day), 2, '0') + "-" + MonthKeys[d.month] + "-" + NatToString(d.year)
  }

  lemma SplitThree(a: string, b: string, c: string)
    requires '-' !in a && '-' !in b && '-' !in c
    ensures SplitChar(a + "-" + b + "-" + c, '-') == [a, b, c]
  {
    assert a + "-" + b + "-" + c == a + ['-'] + (b + ['-'] + c);
    SplitCharCons(a, '-', b + ['-'] + c);
    SplitCharCons(b, '-', c);
    SplitCharNone(c, '-');
  }

  lemma DigitsHaveNoDash(s: string)
    requires AllDigits(s)
    ensures '-' !in s
  {
  }

  lemma UpperKey(key: string)
    requires forall i :: 0 <= i < |key| ==> 'A' <= key[i] <= 'Z'
    ensures ToUpper(key) == key
  {
  }

  /** `parseInt` reads a numeral back as its number. */
  lemma ParseNumeral(s: string, n: nat)
    requires AllDigits(s) && s != [] && DigitsValue(s) == n
    ensures ParseInt(s) == Some(n)
  {
  }

  /** The three parts of `DD-MON-YYYY` read back as the day, month and year. */
  lemma ParseParts(dd: string, key: string, ys: string, d: Date, yy: nat)
    requires d.month < 12 && d.year >= 100 && key == MonthKeys[d.month]
    requires AllDigits(dd) && dd != [] && DigitsValue(dd) == d.day
    requires AllDigits(ys) && ys != [] && DigitsValue(ys) == d.year
    ensures ParseInt(dd) == Some(d.day)
    ensures MonthIndex(Prefix3(ToUpper(key))) == Some(d.month)
    ensures ParseInt(ys) == Some(d.year) && FullYear(d.year, yy) == d.year
  {
    ParseNumeral(dd, d.day);
    ParseNumeral(ys, d.year);
    MonthKey(d.month);
    UpperKey(key);
  }

  /** `DD-MON-YYYY` splits at its dashes into the day, the month key and the year. */
  lemma DateTextParts(d: Date)
    requires d.month < 12
    ensures DateText(d) != []
    ensures SplitChar(DateText(d), '-') == [PadStart(NatToString(d.day), 2, '0'), MonthKeys[d.month], NatToString(d.year)]
  {
    var dd := PadStart(NatToString(d.day), 2, '0');
    var key := MonthKeys[d.month];
    var ys := NatToString(d.year);
    PaddedValue(d.day, 2);
    DigitsHaveNoDash(dd);
    DigitsHaveNoDash(ys);
    MonthKey(d.month);
    assert '-' !in key;
    SplitThree(dd, key, ys);
  }

  /** Parsing a date written as `DD-MON-YYYY` gives the date back. */
  lemma ParseDateText(d: Date, yy: nat)
    requires d.month < 12 && d.year >= 100
    ensures ParseDate(DateText(d), yy) == Some(d)
  {
    var dd := PadStart(NatToString(d.day), 2, '0');
    var key := MonthKeys[d.month];
    var ys := NatToString(d.year);
    PaddedValue(d.day, 2);
    DateTextParts(d);
    ParseParts(dd, key, ys, d, yy);
    ParseSplit(DateText(d), [dd, key, ys], d, yy);
  }

  /** `parseDate` on a string whose three parts read as the day, month and year. */
  lemma ParseSplit(s: string, parts: seq<string>, d: Date, yy: nat)
    requires s != [] && SplitChar(s, '-') == parts && |parts| == 3
    requires ParseInt(parts[0]) == Some(d.day)
    requires MonthIndex(Prefix3(ToUpper(parts[1]))) == Some(d.month)
    requires ParseInt(parts[2]) == Some(d.year) && FullYear(d.year, yy) == d.year
    ensures ParseDate(s, yy) == Some(d)
  {
  }

  // ---------------------------------------------------------------------
  // compareAge

  /** The outcome of `compareAge`: 'older', 'younger' or 'same'. */
  datatype AgeOrder = Older | Younger | Same

  /** The parsed `Birth` of a person, when there is a person and a parseable date. */
  function BirthDate(p: Option<Person>, yy: nat): Option<Date> {
    if p.None? || p.value.birth == [] then None else ParseDate(p.value.birth, yy)
  }

  /**
   * `compareAge(p1, p2)`: nothing when either birth date is missing or does
   * not parse; otherwise `Older` when `p1` was born first.
   */
  function CompareAge(p1: Option<Person>, p2: Option<Person>, yy: nat): (r: Option<AgeOrder>)
    ensures r.None? <==> BirthDate(p1, yy).None? || BirthDate(p2, yy).None?
    ensures r.Some? ==>
      var d1 := BirthDate(p1, yy).value;
      var d2 := BirthDate(p2, yy).value;
      (r.value == Older <==> DayNumber(d1) < DayNumber(d2)) &&
      (r.value == Younger <==> DayNumber(d2) < DayNumber(d1))
  {
    var d1 := BirthDate(p1, yy);
    var d2 := BirthDate(p2, yy);
    if d1.None? || d2.None? then None
    else if DayNumber(d1.value) < DayNumber(d2.value) then Some(Older)
    else if DayNumber(d2.value) < DayNumber(d1.value) then Some(Younger)
    else Some(Same)
  }

  function Flip(o: Option<AgeOrder>): Option<AgeOrder> {
    match o
    case None => None
    case Some(Older) => Some(Younger)
    case Some(Younger) => Some(Older)
    case Some(Same) => Some(Same)
  }

  /** Comparing the other way round swaps 'older' and 'younger'. */
  lemma CompareAgeConverse(p1: Option<Person>, p2: Option<Person>, yy: nat)
    ensures CompareAge(p2, p1, yy) == Flip(CompareAge(p1, p2, yy))
  {
  }

  /** On real calendar days 'older' means an earlier birthday and 'same' the same one. */
  lemma CompareAgeCalendar(p1: Option<Person>, p2: Option<Person>, yy: nat)
    requires BirthDate(p1, yy).Some? && BirthDate(p2, yy).Some?
    requires ValidDate(BirthDate(p1, yy).value) && ValidDate(BirthDate(p2, yy).value)
    ensures CompareAge(p1, p2, yy) == Some(Older) <==> Earlier(BirthDate(p1, yy).value, BirthDate(p2, yy).value)
    ensures CompareAge(p1, p2, yy) == Some(Same) <==> BirthDate(p1, yy).value == BirthDate(p2, yy).value
  {
    DayNumberOrder(BirthDate(p1, yy).value, BirthDate(p2, yy).value);
  }

  /** Being born in an earlier year makes a person older. */
  lemma BornInEarlierYear(p1: Option<Person>, p2: Option<Person>, yy: nat)
    requires BirthDate(p1, yy).Some? && BirthDate(p2, yy).Some?
    requires ValidDate(BirthDate(p1, yy).value) && ValidDate(BirthDate(p2, yy).value)
    requires BirthDate(p1, yy).value.year < BirthDate(p2, yy).value.year
    ensures CompareAge(p1, p2, yy) == Some(Older)
  {
    CompareAgeCalendar(p1, p2, yy);
  }

  lemma ExampleTexts()
    ensures DateText(Date(1975, 0, 5)) == "05-JAN-1975"
    ensures DateText(Date(1980, 0, 10)) == "10-JAN-1980"
  {
    Example1975();
    Example1980();
  }

  lemma Example1975()
    ensures DateText(Date(1975, 0, 5)) == "05-JAN-1975"
  {
    assert NatToString(5) == "5";
    assert PadStart("5", 2, '0') == "05";
    assert NatToString(19) == "19";
    assert NatToString(197) == "197";
    assert NatToString(1975) == "1975";
  }

  lemma Example1980()
    ensures DateText(Date(1980, 0, 10)) == "10-JAN-1980"
  {
    assert NatToString(1) == "1";
    assert NatToString(10) == "10";
    assert PadStart("10", 2, '0') == "10";
    assert NatToString(19) == "19";
    assert NatToString(198) == "198";
    assert NatToString(1980) == "1980";
    assert MonthKeys[0] == "JAN";
  }

  lemma ExampleBirth(p: Person, yy: nat, text: string, d: Date)
    requires d.month < 12 && d.year >= 100 && text == DateText(d) && p.birth == text
    ensures BirthDate(Some(p), yy) == Some(d)
  {
    ParseDateText(d, yy);
  }

  /** Someone born on 05-JAN-1975 is older than someone born on 10-JAN-1980. */
  lemma CompareAgeExample(sib: Person, home: Person, yy: nat)
    requires sib.birth == "05-JAN-1975" && home.birth == "10-JAN-1980"
    ensures CompareAge(Some(sib), Some(home), yy) == Some(Older)
  {
    ExampleTexts();
    ExampleBirth(sib, yy, "05-JAN-1975", Date(1975, 0, 5));
    ExampleBirth(home, yy, "10-JAN-1980", Date(1980, 0, 10));
    BornInEarlierYear(Some(sib), Some(home), yy);
  }

  // ---------------------------------------------------------------------
  // resolveRelationName

  /**
   * The term an age comparison selects: the elder term for 'older', the
   * younger term for 'younger', and otherwise the default term when it has
   * text, else both joined by `/`.
   */
  function PickByAge(cmp: Option<AgeOrder>, elder: Term, younger: Term, dflt: Term, lang: string): (r: string)
    ensures cmp == Some(Older) ==> r == GetTerm(elder, lang)
    ensures cmp == Some(Younger) ==> r == GetTerm(younger, lang)
    ensures cmp != Some(Older) && cmp != Some(Younger) ==>
      r == if GetTerm(dflt, lang) != [] then GetTerm(dflt, lang)
           else GetTerm(elder, lang) + "/" + GetTerm(younger, lang)
  {
    match cmp
    case Some(Older) => GetTerm(elder, lang)
    case Some(Younger) => GetTerm(younger, lang)
    case _ =>
      var d := GetTerm(dflt, lang);
      if d != [] then d else GetTerm(elder, lang) + "/" + GetTerm(younger, lang)
  }

  /** The person just before the target on the path. */
  function PathParent(g: Graph, path: seq<Id>): Option<Person>
    requires |path| >= 2
  {
    GetPerson(g, path[|path| - 2])
  }

  /**
   * The age-rule block: the term of the entry's rule, or nothing when the
   * rule is unknown or the path is too short for it.
   */
  function AgeRuleTerm(g: Graph, e: DictEntry, lang: string, yy: nat, path: seq<Id>,
                       home: Person, target: Person): Option<string>
  {
    if e.ageRule == "pedda_chinna" && |path| >= 3 then
      Some(PickByAge(CompareAge(Some(target), PathParent(g, path), yy),
                     Or(e.pedda, e.elder), Or(e.chinna, e.younger), NoTerm, lang))
    else if e.ageRule == "sibling_child" && |path| >= 3 then
      Some(PickByAge(CompareAge(PathParent(g, path), Some(home), yy), e.elder, e.younger, NoTerm, lang))
    else if e.ageRule == "vadina_maradalu" && |path| >= 3 then
      Some(PickByAge(CompareAge(PathParent(g, path), Some(home), yy), e.elder, e.younger, NoTerm, lang))
    else if e.ageRule == "direct_age" then
      Some(PickByAge(CompareAge(Some(target), Some(home), yy), e.elder, e.younger, e.defaultTerm, lang))
    else if e.ageRule == "parent_age_compare" && |path| >= 2 then
      Some(PickByAge(CompareAge(PathParent(g, path), Some(home), yy), e.elder, e.younger, e.defaultTerm, lang))
    else None
  }

  /** Whether the entry's gendered names give a term for the target's gender. */
  predicate GenderMatch(g: Graph, e: DictEntry, target: Person) {
    (GetGender(g, target.id) == Male && Truthy(e.male)) ||
    (GetGender(g, target.id) == Female && Truthy(e.female))
  }

  /**
   * `resolveRelationName(result, home, target)`: "Unknown" without a
   * result; the expansion of a code the dictionary lacks; otherwise the
   * entry's direct name, its gendered name, its age rule, and finally the
   * code itself.
   */
  function ResolveRelationName(g: Graph, dict: map<string, DictEntry>, lang: string, yy: nat,
                               result: Option<CodeResult>, home: Person, target: Person): (r: string)
  {
    if result.None? then "Unknown"
    else
      var code := result.value.code;
      if code !in dict then KinshipCode.Expansion(code)
      else
        var e := dict[code];
        if Truthy(e.name) then GetTerm(e.name, lang)
        else if GetGender(g, target.id) == Male && Truthy(e.male) then GetTerm(e.male, lang)
        else if GetGender(g, target.id) == Female && Truthy(e.female) then GetTerm(e.female, lang)
        else if e.ageRule != [] && AgeRuleTerm(g, e, lang, yy, result.value.path, home, target).Some? then
          AgeRuleTerm(g, e, lang, yy, result.value.path, home, target).value
        else code
  }

  /** The entry a found code names, when the dictionary has one and no name or gendered name applies. */
  predicate ReachesAgeRules(g: Graph, dict: map<string, DictEntry>, result: Option<CodeResult>, target: Person) {
    result.Some? && result.value.code in dict &&
    !Truthy(dict[result.value.code].name) && !GenderMatch(g, dict[result.value.code], target)
  }

  /**
   * The precedence of the resolver: no result gives "Unknown", a code
   * outside the dictionary its expansion, and a dictionary entry its direct
   * name before its gendered name.
   */
  lemma ResolvePrecedence(g: Graph, dict: map<string, DictEntry>, lang: string, yy: nat,
                          result: Option<CodeResult>, home: Person, target: Person)
    ensures result.None? ==> ResolveRelationName(g, dict, lang, yy, result, home, target) == "Unknown"
    ensures result.Some? && result.value.code !in dict ==>
      ResolveRelationName(g, dict, lang, yy, result, home, target) == KinshipCode.Expansion(result.value.code)
    ensures result.Some? && result.value.code in dict && Truthy(dict[result.value.code].name) ==>
      ResolveRelationName(g, dict, lang, yy, result, home, target) == GetTerm(dict[result.value.code].name, lang)
    ensures result.Some? && result.value.code in dict && !Truthy(dict[result.value.code].name) &&
            GenderMatch(g, dict[result.value.code], target) ==>
      ResolveRelationName(g, dict, lang, yy, result, home, target) ==
        GetTerm(if GetGender(g, target.id) == Male then dict[result.value.code].male
                else dict[result.value.code].female, lang)
  {
  }

  /** `SELF` is looked up like any code; only a dictionary without it yields "Self". */
  lemma ResolveSelf(g: Graph, dict: map<string, DictEntry>, lang: string, yy: nat, p: Person)
    requires "SELF" !in dict
    ensures ResolveRelationName(g, dict, lang, yy, Some(CodeResult("SELF", [p.id])), p, p) == "Self"
  {
  }

  /**
   * A gendered entry met by a target of unknown gender gives no empty
   * term: without an age rule the code itself comes back.
   */
  lemma UnknownGenderGivesCode(g: Graph, dict: map<string, DictEntry>, lang: string, yy: nat,
                               result: Option<CodeResult>, home: Person, target: Person)
    requires result.Some? && result.value.code in dict
    requires !Truthy(dict[result.value.code].name) && dict[result.value.code].ageRule == []
    requires GetGender(g, target.id) == Unknown
    ensures ResolveRelationName(g, dict, lang, yy, result, home, target) == result.value.code
  {
  }

  /**
   * A rule that needs a person between home and target falls back to the
   * code on a path too short to have one, and so does an unknown rule.
   */
  lemma ShortPathGivesCode(g: Graph, dict: map<string, DictEntry>, lang: string, yy: nat,
                           result: Option<CodeResult>, home: Person, target: Person)
    requires ReachesAgeRules(g, dict, result, target)
    requires
      var rule := dict[result.value.code].ageRule;
      var n := |result.value.path|;
      ((rule == "pedda_chinna" || rule == "sibling_child" || rule == "vadina_maradalu") && n < 3) ||
      (rule == "parent_age_compare" && n < 2) ||
      (rule != "pedda_chinna" && rule != "sibling_child" && rule != "vadina_maradalu" &&
       rule != "direct_age" && rule != "parent_age_compare")
    ensures ResolveRelationName(g, dict, lang, yy, result, home, target) == result.value.code
  {
  }

  /**
   * The outcome of one age comparison: the elder term for 'older', the
   * younger term for 'younger', otherwise `dflt` when it has text, else
   * both joined by `/`.
   */
  predicate SelectsByAge(r: string, cmp: Option<AgeOrder>, elder: Term, younger: Term, dflt: Term, lang: string) {
    (cmp == Some(Older) ==> r == GetTerm(elder, lang)) &&
    (cmp == Some(Younger) ==> r == GetTerm(younger, lang)) &&
    (cmp != Some(Older) && cmp != Some(Younger) && GetTerm(dflt, lang) != [] ==> r == GetTerm(dflt, lang)) &&
    (cmp != Some(Older) && cmp != Some(Younger) && GetTerm(dflt, lang) == [] ==>
      r == GetTerm(elder, lang) + "/" + GetTerm(younger, lang))
  }

  /** pedda_chinna compares the target with the person before it, preferring the pedda/chinna terms. */
  lemma PeddaChinnaRule(g: Graph, dict: map<string, DictEntry>, lang: string, yy: nat,
                        result: Option<CodeResult>, home: Person, target: Person)
    requires ReachesAgeRules(g, dict, result, target)
    requires dict[result.value.code].ageRule == "pedda_chinna" && |result.value.path| >= 3
    ensures
      var e := dict[result.value.code];
      SelectsByAge(ResolveRelationName(g, dict, lang, yy, result, home, target),
                   CompareAge(Some(target), PathParent(g, result.value.path), yy),
                   Or(e.pedda, e.elder), Or(e.chinna, e.younger), NoTerm, lang)
  {
  }

  /** sibling_child and vadina_maradalu compare the person before the target with home. */
  lemma SiblingRules(g: Graph, dict: map<string, DictEntry>, lang: string, yy: nat,
                     result: Option<CodeResult>, home: Person, target: Person)
    requires ReachesAgeRules(g, dict, result, target)
    requires dict[result.value.code].ageRule in {"sibling_child", "vadina_maradalu"}
    requires |result.value.path| >= 3
    ensures
      var e := dict[result.value.code];
      SelectsByAge(ResolveRelationName(g, dict, lang, yy, result, home, target),
                   CompareAge(PathParent(g, result.value.path), Some(home), yy),
                   e.elder, e.younger, NoTerm, lang)
  {
  }

  /** direct_age compares the target with home, trying the default term before `elder/younger`. */
  lemma DirectAgeRule(g: Graph, dict: map<string, DictEntry>, lang: string, yy: nat,
                      result: Option<CodeResult>, home: Person, target: Person)
    requires ReachesAgeRules(g, dict, result, target)
    requires dict[result.value.code].ageRule == "direct_age"
    ensures
      var e := dict[result.value.code];
      SelectsByAge(ResolveRelationName(g, dict, lang, yy, result, home, target),
                   CompareAge(Some(target), Some(home), yy),
                   e.elder, e.younger, e.defaultTerm, lang)
  {
  }

  /** parent_age_compare compares the person before the target with home, trying the default term first. */
  lemma ParentAgeRule(g: Graph, dict: map<string, DictEntry>, lang: string, yy: nat,
                      result: Option<CodeResult>, home: Person, target: Person)
    requires ReachesAgeRules(g, dict, result, target)
    requires dict[result.value.code].ageRule == "parent_age_compare" && |result.value.path| >= 2
    ensures
      var e := dict[result.value.code];
      SelectsByAge(ResolveRelationName(g, dict, lang, yy, result, home, target),
                   CompareAge(PathParent(g, result.value.path), Some(home), yy),
                   e.elder, e.younger, e.defaultTerm, lang)
  {
  }

  /**
   * direct_age seen from both ends: when the target is the older of the
   * two, home is named by the elder term from one side and the target by
   * the younger term from the other.
   */
  lemma DirectAgeConverse(g: Graph, dict: map<string, DictEntry>, lang: string, yy: nat,
                          code: string, a: Person, b: Person, path: seq<Id>, back: seq<Id>)
    requires ReachesAgeRules(g, dict, Some(CodeResult(code, path)), b)
    requires ReachesAgeRules(g, dict, Some(CodeResult(code, back)), a)
    requires dict[code].ageRule == "direct_age"
    requires CompareAge(Some(b), Some(a), yy) == Some(Older)
    ensures ResolveRelationName(g, dict, lang, yy, Some(CodeResult(code, path)), a, b) == GetTerm(dict[code].elder, lang)
    ensures ResolveRelationName(g, dict, lang, yy, Some(CodeResult(code, back)), b, a) == GetTerm(dict[code].younger, lang)
  {
    DirectAgeRule(g, dict, lang, yy, Some(CodeResult(code, path)), a, b);
    CompareAgeConverse(Some(b), Some(a), yy);
    DirectAgeRule(g, dict, lang, yy, Some(CodeResult(code, back)), b, a);
  }

  /**
   * With home born on 10-JAN-1980 and the sibling before the target born on
   * 05-JAN-1975, the sibling_child and vadina_maradalu rules pick the elder term.
   */
  lemma SiblingRuleExample(g: Graph, dict: map<string, DictEntry>, lang: string, yy: nat,
                           result: Option<CodeResult>, home: Person, target: Person)
    requires ReachesAgeRules(g, dict, result, target)
    requires dict[result.value.code].ageRule in {"sibling_child", "vadina_maradalu"}
    requires |result.value.path| >= 3
    requires PathParent(g, result.value.path).Some? && PathParent(g, result.value.path).value.birth == "05-JAN-1975"
    requires home.birth == "10-JAN-1980"
    ensures ResolveRelationName(g, dict, lang, yy, result, home, target) == GetTerm(dict[result.value.code].elder, lang)
  {
    CompareAgeExample(PathParent(g, result.value.path).value, home, yy);
    SiblingRules(g, dict, lang, yy, result, home, target);
  }

  // ---------------------------------------------------------------------
  // findRelationship

  /** What `getRelationshipCode(home, target)` promises about its result. */
  ghost predicate CodeOutcome(g: Graph, home: Id, target: Id, r: Option<CodeResult>) {
    (home == "" || target == "" ==> r == None) &&
    (home != "" && home == target ==> r == Some(CodeResult("SELF", [home]))) &&
    (home != "" && target != "" && home != target ==>
      (r.Some? <==> exists path :: LinkedBy(g, path, home, target) && |path| <= MaxDepth + 1)) &&
    (home != target && r.Some? ==>
      LinkedBy(g, r.value.path, home, target) && Distinct(r.value.path) &&
      |r.value.path| <= MaxDepth + 1 &&
      r.value.code == KinshipCode.NormalForm(PathCode(g, r.value.path)) &&
      forall path :: LinkedBy(g, path, home, target) ==> |r.value.path| <= |path|)
  }

  /**
   * `findRelationship(id1, id2)`: "Unknown" when either person is missing;
   * otherwise the resolved term of the relationship code from `id1` to `id2`.
   */
  method FindRelationship(g: Graph, dict: map<string, DictEntry>, lang: string, yy: nat, id1: Id, id2: Id)
    returns (r: string)
    ensures id1 !in g.people || id2 !in g.people ==> r == "Unknown"
    ensures id1 in g.people && id2 in g.people ==>
      exists res :: CodeOutcome(g, id1, id2, res) &&
        r == ResolveRelationName(g, dict, lang, yy, res, g.people[id1], g.people[id2])
    ensures id1 in g.people && id1 != "" && id1 == id2 ==>
      r == ResolveRelationName(g, dict, lang, yy, Some(CodeResult("SELF", [id1])), g.people[id1], g.people[id1])
    ensures id1 in g.people && id2 in g.people && id1 != id2 &&
            !(exists path :: LinkedBy(g, path, id1, id2) && |path| <= MaxDepth + 1) ==>
      r == "Unknown"
  {
    var p1 := GetPerson(g, id1);
    var p2 := GetPerson(g, id2);
    if p1.None? || p2.None? {
      return "Unknown";
    }
    var res := GetRelationshipCode(g, id1, id2);
    assert CodeOutcome(g, id1, id2, res);
    r := ResolveRelationName(g, dict, lang, yy, res, p1.value, p2.value);
  }

  // ---------------------------------------------------------------------
  // getSiblingTerm

  const ElderBrother: Term := Localized(map["te" := "అన్న", "kn" := "ಅಣ್ಣ"])
  const YoungerBrother: Term := Localized(map["te" := "తమ్ముడు", "kn" := "ತಮ್ಮ"])
  const EitherBrother: Term := Localized(map["te" := "అన్న/తమ్ముడు", "kn" := "ಅಣ್ಣ/ತಮ್ಮ"])
  const ElderSister: Term := Localized(map["te" := "అక్క", "kn" := "ಅಕ್ಕ"])
  const YoungerSister: Term := Localized(map["te" := "చెల్లి", "kn" := "ತಂಗಿ"])
  const EitherSister: Term := Localized(map["te" := "అక్క/చెల్లి", "kn" := "ಅಕ್ಕ/ತಂಗಿ"])

  /**
   * `getSiblingTerm(homeId, siblingId)`: the Telugu or Kannada word for a
   * brother (male sibling) or sister (any other), elder when the sibling
   * was born before home, and the `elder/younger` form when either birth
   * date is unknown.
   */
  function GetSiblingTerm(g: Graph, lang: string, yy: nat, homeId: Id, siblingId: Id): string {
    var home := GetPerson(g, homeId);
    var sib := GetPerson(g, siblingId);
    var brother := GetGender(g, siblingId) == Male;
    var known := home.Some? && sib.Some? && home.value.birth != [] && sib.value.birth != [] &&
                 ParseDate(home.value.birth, yy).Some? && ParseDate(sib.value.birth, yy).Some?;
    if !known then GetTerm(if brother then EitherBrother else EitherSister, lang)
    else
      var isElder := DayNumber(ParseDate(sib.value.birth, yy).value) < DayNumber(ParseDate(home.value.birth, yy).value);
      if brother then GetTerm(if isElder then ElderBrother else YoungerBrother, lang)
      else GetTerm(if isElder then ElderSister else YoungerSister, lang)
  }

  /** The sibling word for an age comparison: a 'same' birthday counts as younger. */
  function SiblingWord(brother: bool, cmp: Option<AgeOrder>): Term {
    match cmp
    case None => if brother then EitherBrother else EitherSister
    case Some(Older) => if brother then ElderBrother else ElderSister
    case Some(_) => if brother then YoungerBrother else YoungerSister
  }

  /** `getSiblingTerm` decides exactly as `compareAge(sibling, home)` does. */
  lemma SiblingTermByAge(g: Graph, lang: string, yy: nat, homeId: Id, siblingId: Id)
    ensures GetSiblingTerm(g, lang, yy, homeId, siblingId) ==
      GetTerm(SiblingWord(GetGender(g, siblingId) == Male,
                          CompareAge(GetPerson(g, siblingId), GetPerson(g, homeId), yy)), lang)
  {
  }

  /** In every language the unknown-age word is the elder and younger words joined by `/`. */
  lemma EitherAgeJoinsWords(lang: string)
    ensures GetTerm(EitherBrother, lang) == GetTerm(ElderBrother, lang) + "/" + GetTerm(YoungerBrother, lang)
    ensures GetTerm(EitherSister, lang) == GetTerm(ElderSister, lang) + "/" + GetTerm(YoungerSister, lang)
  {
  }
}
