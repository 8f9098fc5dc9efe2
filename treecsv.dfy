/**
 * The quote-aware CSV reader of the tree viewer: one record per non-blank
 * line after the header, commas inside double quotes kept, quote
 * characters dropped, fields trimmed, spouse ids split and de-duplicated.
 */
module TreeCsv {
  import opened Text
  import opened Genealogy

  // ---------------------------------------------------------------------
  // parseCSV

  /** A flat record as `parseCSV` (or the JSON data file) gives it; `""` stands for a `null` parent. */
  datatype Row = Row(id: Id, name: string, fid: Id, mid: Id, pids: seq<Id>)

  /** `pieces.map(s => s.trim())`. */
  function TrimAll(pieces: seq<string>): (r: seq<string>)
    ensures |r| == |pieces|
  {
    if pieces == [] then [] else [Trim(pieces[0])] + TrimAll(pieces[1..])
  }

  lemma {:induction false} InTrimAll(pieces: seq<string>, x: string)
    ensures x in TrimAll(pieces) <==> exists y :: y in pieces && x == Trim(y)
  {
    if pieces != [] {
      InTrimAll(pieces[1..], x);
      assert forall y :: y in pieces <==> y == pieces[0] || y in pieces[1..];
    }
  }

  lemma {:induction false} TrimAllAppend(a: seq<string>, b: seq<string>)
    ensures TrimAll(a + b) == TrimAll(a) + TrimAll(b)
  {
    if a != [] {
      assert (a + b)[1..] == a[1..] + b;
      TrimAllAppend(a[1..], b);
    } else {
      assert a + b == b;
    }
  }

  /**
   * The scanner state of one line: the pieces finished so far, the piece
   * being read, and the `inQuote` flag. Pieces are kept as read; a field is
   * a trimmed piece.
   */
  datatype Scan = Scan(parts: seq<string>, current: string, inQuote: bool)

  /** One character of the line: a quote flips the flag and is dropped, a comma outside quotes ends a piece. */
  function ScanChar(st: Scan, ch: char): Scan {
    if ch == '"' then st.(inQuote := !st.inQuote)
    else if ch == ',' && !st.inQuote then Scan(st.parts + [st.current], "", st.inQuote)
    else st.(current := st.current + [ch])
  }

  function ScanFrom(st: Scan, s: string): Scan
    decreases |s|
  {
    if s == [] then st else ScanFrom(ScanChar(st, s[0]), s[1..])
  }

  /** The fields of one (trimmed, non-blank) line: every piece, the last one included, trimmed. */
  function Fields(line: string): seq<string> {
    TrimAll(Pieces(line))
  }

  /** The untrimmed pieces of one line. */
  function Pieces(line: string): seq<string> {
    var st := ScanFrom(Scan([], "", false), line);
    st.parts + [st.current]
  }

  /** The character loop of `parseCSV` for one line, trimming each field as its comma is reached. */
  method SplitFields(line: string) returns (parts: seq<string>)
    ensures parts == Fields(line)
  {
    var current, inQuote := "", false;
    parts := [];
    ghost var pieces: seq<string> := [];
    for i := 0 to |line|
      invariant parts == TrimAll(pieces)
      invariant ScanFrom(Scan(pieces, current, inQuote), line[i..]) == ScanFrom(Scan([], "", false), line)
    {
      assert line[i..][1..] == line[i + 1..];
      var ch := line[i];
      if ch == '"' {
        inQuote := !inQuote;
        continue;
      }
      if ch == ',' && !inQuote {
        TrimAllSnoc(pieces, current);
        parts := parts + [Trim(current)];
        pieces := pieces + [current];
        current := "";
        continue;
      }
      current := current + [ch];
    }
    TrimAllSnoc(pieces, current);
    parts := parts + [Trim(current)];
  }

  lemma TrimAllSnoc(pieces: seq<string>, x: string)
    ensures TrimAll(pieces + [x]) == TrimAll(pieces) + [Trim(x)]
  {
    TrimAllAppend(pieces, [x]);
    assert TrimAll([x]) == [Trim(x)];
  }

  lemma {:induction false} ScanAppend(st: Scan, a: string, b: string)
    ensures ScanFrom(st, a + b) == ScanFrom(ScanFrom(st, a), b)
    decreases |a|
  {
    if a != [] {
      assert (a + b)[0] == a[0] && (a + b)[1..] == a[1..] + b;
      ScanAppend(ScanChar(st, a[0]), a[1..], b);
    } else {
      assert a + b == b;
    }
  }

  lemma {:induction false} ScanNoQuote(st: Scan, s: string)
    requires forall k :: 0 <= k < |st.parts| ==> '"' !in st.parts[k]
    requires '"' !in st.current
    ensures forall k :: 0 <= k < |ScanFrom(st, s).parts| ==> '"' !in ScanFrom(st, s).parts[k]
    ensures '"' !in ScanFrom(st, s).current
    decreases |s|
  {
    if s != [] {
      ScanNoQuote(ScanChar(st, s[0]), s[1..]);
    }
  }

  /** Quote characters are dropped: no field contains one. */
  lemma FieldsHaveNoQuote(line: string)
    ensures forall f :: f in Fields(line) ==> '"' !in f
  {
    PiecesHaveNoQuote(line);
    var pieces := Pieces(line);
    forall f | f in TrimAll(pieces) ensures '"' !in f {
      InTrimAll(pieces, f);
      var y :| y in pieces && f == Trim(y);
      TrimKeepsChars(y);
    }
  }

  lemma PiecesHaveNoQuote(line: string)
    ensures forall y :: y in Pieces(line) ==> '"' !in y
  {
    ScanNoQuote(Scan([], "", false), line);
  }

  /** The state reached by scanning `s` from `st` outside quotes: every comma has closed a piece. */
  predicate PlainScan(st: Scan, s: string) {
    var sp := SplitChar(st.current + s, ',');
    ScanFrom(st, s) == Scan(st.parts + sp[..|sp| - 1], sp[|sp| - 1], false)
  }

  /** Outside quotes the scanner splits at every comma; the piece being read is the last piece so far. */
  lemma {:induction false} ScanPlain(st: Scan, s: string)
    requires !st.inQuote && ',' !in st.current && '"' !in s
    ensures PlainScan(st, s)
    decreases |s|
  {
    if s == [] {
      assert st.current + s == st.current;
      SplitCharNone(st.current, ',');
    } else if s[0] == ',' {
      ScanPlain(Scan(st.parts + [st.current], "", false), s[1..]);
      PlainComma(st, s);
    } else {
      assert s[0] in s;
      ScanPlain(st.(current := st.current + [s[0]]), s[1..]);
      PlainChar(st, s);
    }
  }

  lemma PlainComma(st: Scan, s: string)
    requires !st.inQuote && ',' !in st.current && s != [] && s[0] == ','
    requires PlainScan(Scan(st.parts + [st.current], "", false), s[1..])
    ensures PlainScan(st, s)
  {
    var st' := Scan(st.parts + [st.current], "", false);
    assert ScanFrom(st, s) == ScanFrom(st', s[1..]);
    assert st'.current + s[1..] == s[1..];
    var sp' := SplitChar(s[1..], ',');
    assert ScanFrom(st', s[1..]) == Scan(st'.parts + sp'[..|sp'| - 1], sp'[|sp'| - 1], false);
    HeadSplit(st.current, s);
    SplitCharCons(st.current, ',', s[1..]);
    ConsLast(st.current, sp');
    ConcatAssoc(st.parts, [st.current], sp'[..|sp'| - 1]);
  }

  lemma PlainChar(st: Scan, s: string)
    requires !st.inQuote && s != [] && s[0] != ',' && s[0] != '"'
    requires PlainScan(st.(current := st.current + [s[0]]), s[1..])
    ensures PlainScan(st, s)
  {
    var st' := st.(current := st.current + [s[0]]);
    assert ScanFrom(st, s) == ScanFrom(st', s[1..]);
    assert st'.current + s[1..] == st.current + s;
  }

  /** A non-empty suffix splits into its first character and the rest. */
  lemma HeadSplit(a: string, s: string)
    requires s != []
    ensures a + s == a + [s[0]] + s[1..]
  {
  }

  /** Putting `x` in front of `t` keeps the last element and extends the rest. */
  lemma ConsLast<T>(x: T, t: seq<T>)
    requires |t| >= 1
    ensures var u := [x] + t; u[..|u| - 1] == [x] + t[..|t| - 1] && u[|u| - 1] == t[|t| - 1]
  {
  }

  lemma ConcatAssoc<T>(a: seq<T>, b: seq<T>, c: seq<T>)
    ensures a + b + c == a + (b + c)
  {
  }

  /** A line without quotes splits exactly at its commas, each field trimmed. */
  lemma PlainFields(line: string)
    requires '"' !in line
    ensures Fields(line) == TrimAll(SplitChar(line, ','))
  {
    PlainPieces(line);
  }

  lemma PlainPieces(line: string)
    requires '"' !in line
    ensures Pieces(line) == SplitChar(line, ',')
  {
    PlainStart(line);
    var sp := SplitChar(line, ',');
    assert sp[..|sp| - 1] + [sp[|sp| - 1]] == sp;
  }

  lemma {:induction false} ScanQuoted(st: Scan, b: string)
    requires st.inQuote && '"' !in b
    ensures ScanFrom(st, b) == st.(current := st.current + b)
    decreases |b|
  {
    if b != [] {
      ScanQuoted(st.(current := st.current + [b[0]]), b[1..]);
      assert st.current + [b[0]] + b[1..] == st.current + b;
    } else {
      assert st.current + b == st.current;
    }
  }

  /** A quoted last field keeps its commas: `x,"b"` gives the fields of `x`, then `b` trimmed as one field. */
  lemma QuotedFieldKeepsCommas(x: string, b: string)
    requires '"' !in x && '"' !in b
    ensures Fields(x + ",\"" + b + "\"") == TrimAll(SplitChar(x, ',')) + [Trim(b)]
  {
    QuotedPieces(x, b);
    TrimAllSnoc(SplitChar(x, ','), b);
  }

  lemma QuotedPieces(x: string, b: string)
    requires '"' !in x && '"' !in b
    ensures Pieces(x + ",\"" + b + "\"") == SplitChar(x, ',') + [b]
  {
    var st0 := Scan([], "", false);
    var sp := SplitChar(x, ',');
    var st1 := ScanFrom(st0, x);
    PlainStart(x);
    assert sp[..|sp| - 1] + [sp[|sp| - 1]] == sp;
    var st2 := ScanFrom(st1, ",\"");
    assert st2 == Scan(sp, "", true);
    ScanQuoted(st2, b);
    assert "" + b == b;
    var st3 := ScanFrom(st2, b);
    var st4 := ScanFrom(st3, "\"");
    assert st4 == Scan(sp, b, false);
    ScanAppend(st0, x, ",\"");
    ScanAppend(st0, x + ",\"", b);
    ScanAppend(st0, x + ",\"" + b, "\"");
  }

  lemma PlainStart(x: string)
    requires '"' !in x
    ensures var sp := SplitChar(x, ',');
      ScanFrom(Scan([], "", false), x) == Scan(sp[..|sp| - 1], sp[|sp| - 1], false)
  {
    ScanPlain(Scan([], "", false), x);
    assert [] + x == x;
    var sp := SplitChar(x, ',');
    assert [] + sp[..|sp| - 1] == sp[..|sp| - 1];
  }

  /** A field that may be missing: JavaScript's `undefined || null` is `""` here. */
  function Field(parts: seq<string>, k: nat): string {
    if k < |parts| then parts[k] else ""
  }

  /** The `pids` of a row: split at commas, trimmed, blanks dropped, each id once in first-seen order. */
  function PidList(raw: string): (r: seq<Id>)
    ensures Distinct(r)
    ensures forall x :: x in r <==> x != "" && x in TrimAll(SplitChar(raw, ','))
  {
    if raw == "" then [] else Dedup(Filter(TrimAll(SplitChar(raw, ',')), PresentPid))
  }

  predicate PresentPid(x: string) { x != "" }

  /** The spouse ids keep the order in which each first appears among the trimmed, non-blank pieces. */
  lemma PidListOrder(raw: string)
    ensures FirstSeenOrder(Filter(TrimAll(SplitChar(raw, ',')), PresentPid), PidList(raw))
  {
    var pieces := Filter(TrimAll(SplitChar(raw, ',')), PresentPid);
    if raw == "" {
      NothingOutOfOrder(pieces, PidList(raw));
    } else {
      assert PidList(raw) == Dedup(pieces);
      DedupOrder(pieces);
    }
  }

  /** No spouse id is blank or has white space at either end. */
  lemma PidListClean(raw: string)
    ensures forall x :: x in PidList(raw) ==> x != "" && Trim(x) == x
  {
    forall x | x in PidList(raw) ensures x != "" && Trim(x) == x {
      InTrimAll(SplitChar(raw, ','), x);
      var y :| y in SplitChar(raw, ',') && x == Trim(y);
      TrimIdempotent(y);
    }
  }

  /** The record of one line's fields; a line of fewer than two fields gives none. */
  function RowOf(parts: seq<string>): (r: Option<Row>)
    ensures r.None? <==> |parts| < 2
    ensures r.Some? ==> r.value.id == parts[0] && r.value.name == parts[1] && r.value.pids == PidList(Field(parts, 4))
  {
    if |parts| < 2 then None
    else Some(Row(parts[0], parts[1], Field(parts, 2), Field(parts, 3), PidList(Field(parts, 4))))
  }

  /** What one physical line contributes: nothing when blank or too short, else its record. */
  function LineRow(raw: string): seq<Row> {
    var line := Trim(raw);
    if line == "" then []
    else
      var r := RowOf(Fields(line));
      if r.Some? then [r.value] else []
  }

  function LineRows(lines: seq<string>): seq<Row> {
    ConcatMap(LineRow, lines)
  }

  /** `parseCSV(text)`: the header line skipped, then every line's record. */
  function CsvRows(text: string): seq<Row> {
    var lines := SplitChar(Trim(text), '\n');
    LineRows(lines[1..])
  }

  /** `parseCSV`: the text trimmed and split into lines, the header line skipped. */
  method ParseCsv(text: string) returns (rows: seq<Row>)
    ensures rows == CsvRows(text)
  {
    var lines := SplitChar(Trim(text), '\n');
    rows := ParseLines(lines[1..]);
  }

  /** The line loop of `parseCSV`. */
  method ParseLines(lines: seq<string>) returns (rows: seq<Row>)
    ensures rows == LineRows(lines)
  {
    rows := [];
    for i := 0 to |lines|
      invariant rows == LineRows(lines[..i])
    {
      assert lines[..i + 1][..i] == lines[..i];
      var r := ParseLine(lines[i]);
      rows := rows + r;
    }
    assert lines[..|lines|] == lines;
  }

  /** The body of the line loop of `parseCSV`. */
  method ParseLine(raw: string) returns (r: seq<Row>)
    ensures r == LineRow(raw)
  {
    var line := Trim(raw);
    if line == "" {
      return [];
    }
    var parts := SplitFields(line);
    if |parts| < 2 {
      return [];
    }
    r := [Row(parts[0], parts[1], Field(parts, 2), Field(parts, 3), PidList(Field(parts, 4)))];
  }

  /** The line `raw` is not blank and its fields make the record `r`. */
  predicate Yields(raw: string, r: Row) {
    Trim(raw) != "" && RowOf(Fields(Trim(raw))) == Some(r)
  }

  lemma LineRowYields(raw: string, r: Row)
    ensures r in LineRow(raw) <==> Yields(raw, r)
  {
  }

  /**
   * Every record comes from a non-blank line of at least two fields, and
   * every such line gives its record: the lines before are not skipped,
   * the blank ones are.
   */
  lemma LineRowsMeaning(lines: seq<string>, r: Row)
    ensures r in LineRows(lines) <==> exists i :: 0 <= i < |lines| && Yields(lines[i], r)
  {
    InConcatMap(LineRow, lines, r);
    forall i | 0 <= i < |lines| ensures r in LineRow(lines[i]) <==> Yields(lines[i], r) {
      LineRowYields(lines[i], r);
    }
  }

  /** Records keep the order of their lines: the rows of two blocks of lines are the rows of each, in turn. */
  lemma LineRowsAppend(a: seq<string>, b: seq<string>)
    ensures LineRows(a + b) == LineRows(a) + LineRows(b)
  {
    ConcatMapAppend(LineRow, a, b);
  }

}
