/**
 * String helpers shared by the model: the handful of JavaScript string
 * methods the genealogy code relies on (`trim`, `toUpperCase`,
 * `toLowerCase`, `split` on a run of separators, `join`, `includes`,
 * `padStart`, `parseInt`), written out over `seq<char>`.
 */
module Text {

  /**
   * The characters JavaScript's `trim`, `\s` and `parseInt` skip: the
   * white-space characters (tab, vertical tab, form feed, the byte-order
   * mark and every space separator of Unicode category Zs) and the line
   * terminators (line feed, carriage return, U+2028 and U+2029).
   */
  predicate IsSpace(c: char) {
    c == '\t' || c == '\n' || c == '\U{000B}' || c == '\U{000C}' || c == '\r' || c == ' '
    || c == '\U{00A0}' || c == '\U{1680}' || '\U{2000}' <= c <= '\U{200A}'
    || c == '\U{2028}' || c == '\U{2029}' || c == '\U{202F}' || c == '\U{205F}'
    || c == '\U{3000}' || c == '\U{FEFF}'
  }

  predicate IsDigit(c: char) {
    '0' <= c <= '9'
  }

  predicate AllDigits(s: string) {
    forall i :: 0 <= i < |s| ==> IsDigit(s[i])
  }

  // ---------------------------------------------------------------------
  // trim

  function TrimStart(s: string): (r: string)
    ensures |r| <= |s| && r == s[|s| - |r|..]
    ensures r != [] ==> !IsSpace(r[0])
    ensures forall i :: 0 <= i < |s| - |r| ==> IsSpace(s[i])
  {
    if s != [] && IsSpace(s[0]) then TrimStart(s[1..]) else s
  }

  function TrimEnd(s: string): (r: string)
    ensures |r| <= |s| && r == s[..|r|]
    ensures r != [] ==> !IsSpace(r[|r| - 1])
    ensures forall i :: |r| <= i < |s| ==> IsSpace(s[i])
  {
    if s != [] && IsSpace(s[|s| - 1]) then TrimEnd(s[..|s| - 1]) else s
  }

  /** `r` is the slice of `s` starting at `a`, and every character of `s` outside it is white space. */
  predicate TrimmedAt(s: string, a: int, r: string) {
    0 <= a <= |s| - |r| && r == s[a..a + |r|]
    && (forall i :: 0 <= i < a ==> IsSpace(s[i]))
    && (forall i :: a + |r| <= i < |s| ==> IsSpace(s[i]))
  }

  /** `String.prototype.trim`. */
  function Trim(s: string): (r: string)
    ensures |r| <= |s|
    ensures r != [] ==> !IsSpace(r[0]) && !IsSpace(r[|r| - 1])
  {
    TrimEnd(TrimStart(s))
  }

  /**
   * What `trim` returns: the slice of `s` left once the leading and the
   * trailing white space are cut off, so it is empty only when `s` is all
   * white space, and otherwise starts and ends with a non-space character.
   */
  lemma TrimMeaning(s: string)
    ensures exists a :: TrimmedAt(s, a, Trim(s))
    ensures Trim(s) == [] <==> forall i :: 0 <= i < |s| ==> IsSpace(s[i])
    ensures Trim(s) != [] ==> !IsSpace(Trim(s)[0]) && !IsSpace(Trim(s)[|Trim(s)| - 1])
  {
    var a := |s| - |TrimStart(s)|;
    TrimSlice(s);
    var r := Trim(s);
    if r != [] {
      assert r[0] == s[a];
    }
  }

  /** The trimmed string is the slice that `TrimStart` starts. */
  lemma TrimSlice(s: string)
    ensures TrimmedAt(s, |s| - |TrimStart(s)|, Trim(s))
  {
    var t := TrimStart(s);
    CutBoth(s, |s| - |t|, t, TrimEnd(t));
  }

  /** Cutting white space off the front and then off the back of what is left leaves a trimmed slice. */
  lemma CutBoth(s: string, a: nat, t: string, r: string)
    requires a <= |s| && t == s[a..] && |r| <= |t| && r == t[..|r|]
    requires forall i :: 0 <= i < a ==> IsSpace(s[i])
    requires forall i :: |r| <= i < |t| ==> IsSpace(t[i])
    ensures TrimmedAt(s, a, r)
  {
    assert r == s[a..a + |r|];
    forall i | a + |r| <= i < |s|
      ensures IsSpace(s[i])
    {
      assert s[i] == t[i - a];
    }
  }

  lemma TrimNoEdgeSpace(s: string)
    requires s == [] || (!IsSpace(s[0]) && !IsSpace(s[|s| - 1]))
    ensures Trim(s) == s
  {
  }

  /** Trimming only drops characters. */
  lemma TrimKeepsChars(s: string)
    ensures forall c :: c in Trim(s) ==> c in s
  {
    var a := TrimStart(s);
    var r := TrimEnd(a);
    var k := |s| - |a|;
    assert r == s[k..k + |r|] by {
      assert r == a[..|r|];
    }
    InSlice(s, k, k + |r|);
  }

  lemma InSlice<T>(s: seq<T>, i: nat, j: nat)
    requires i <= j <= |s|
    ensures forall c :: c in s[i..j] ==> c in s
  {
    forall c | c in s[i..j] ensures c in s {
      var k :| 0 <= k < j - i && s[i..j][k] == c;
      assert s[i + k] == c;
    }
  }

  lemma TrimIdempotent(s: string)
    ensures Trim(Trim(s)) == Trim(s)
  {
    TrimNoEdgeSpace(Trim(s));
  }

  // ---------------------------------------------------------------------
  // case mapping (ASCII letters only)

  function UpperChar(c: char): char {
    if 'a' <= c <= 'z' then (c as int - 32) as char else c
  }

  function LowerChar(c: char): char {
    if 'A' <= c <= 'Z' then (c as int + 32) as char else c
  }

  /** `String.prototype.toUpperCase` on ASCII letters. */
  function ToUpper(s: string): (r: string)
    ensures |r| == |s|
    ensures forall i :: 0 <= i < |s| ==> r[i] == UpperChar(s[i])
  {
    seq(|s|, i requires 0 <= i < |s| => UpperChar(s[i]))
  }

  /** `String.prototype.toLowerCase` on ASCII letters. */
  function ToLower(s: string): (r: string)
    ensures |r| == |s|
    ensures forall i :: 0 <= i < |s| ==> r[i] == LowerChar(s[i])
  {
    seq(|s|, i requires 0 <= i < |s| => LowerChar(s[i]))
  }

  lemma UpperKeepsSpace(c: char)
    ensures IsSpace(UpperChar(c)) <==> IsSpace(c)
  {
  }

  lemma ToUpperIdempotent(s: string)
    ensures ToUpper(ToUpper(s)) == ToUpper(s)
  {
  }

  /** `s.charAt(0)`: the first character, or `""` for an empty string. */
  function CharAt0(s: string): (r: string)
    ensures s == [] ==> r == []
    ensures s != [] ==> r == [s[0]]
  {
    s[..if s == [] then 0 else 1]
  }

  /** The upper-case initial of a word, as `s.charAt(0).toUpperCase()`: empty for an empty word. */
  function UpperInitial(s: string): (r: string)
    ensures s == [] ==> r == []
    ensures s != [] ==> r == [UpperChar(s[0])]
  {
    ToUpper(s[..if s == [] then 0 else 1])
  }

  // ---------------------------------------------------------------------
  // split / join

  /** Index of the first character of `s` satisfying `sep`, or `|s|`. */
  function FirstSep(s: string, sep: char -> bool): (i: nat)
    ensures i <= |s|
    ensures forall k :: 0 <= k < i ==> !sep(s[k])
    ensures i < |s| ==> sep(s[i])
  {
    if s == [] || sep(s[0]) then 0 else 1 + FirstSep(s[1..], sep)
  }

  /** End of the run of separators starting at `i`. */
  function RunEnd(s: string, i: nat, sep: char -> bool): (j: nat)
    requires i <= |s|
    ensures i <= j <= |s|
    ensures forall k :: i <= k < j ==> sep(s[k])
    ensures j < |s| ==> !sep(s[j])
    decreases |s| - i
  {
    if i < |s| && sep(s[i]) then RunEnd(s, i + 1, sep) else i
  }

  /**
   * `s.split(/[...]+/)`: the pieces between maximal runs of separator
   * characters. A leading or trailing run yields an empty piece, and the
   * empty string splits into `[""]`.
   */
  function SplitRuns(s: string, sep: char -> bool): (r: seq<string>)
    ensures |r| >= 1
    ensures forall k :: 0 <= k < |r| ==> forall c :: c in r[k] ==> !sep(c)
    decreases |s|
  {
    var i := FirstSep(s, sep);
    if i == |s| then [s]
    else
      var j := RunEnd(s, i, sep);
      [s[..i]] + SplitRuns(s[j..], sep)
  }

  lemma SplitRunsNoSep(s: string, sep: char -> bool)
    requires forall c :: c in s ==> !sep(c)
    ensures SplitRuns(s, sep) == [s]
  {
  }

  /** `s.split(c)` for a one-character separator: the pieces between single occurrences of `c`. */
  function SplitChar(s: string, c: char): (r: seq<string>)
    ensures |r| >= 1
    ensures forall k :: 0 <= k < |r| ==> c !in r[k]
    decreases |s|
  {
    var i := FirstSep(s, x => x == c);
    if i == |s| then [s] else [s[..i]] + SplitChar(s[i + 1..], c)
  }

  lemma SplitCharNone(s: string, c: char)
    requires c !in s
    ensures SplitChar(s, c) == [s]
  {
  }

  lemma SplitCharCons(a: string, c: char, rest: string)
    requires c !in a
    ensures SplitChar(a + [c] + rest, c) == [a] + SplitChar(rest, c)
  {
    var s := a + [c] + rest;
    var i := FirstSep(s, x => x == c);
    assert s[|a|] == c;
    assert i == |a|;
    assert s[..i] == a && s[i + 1..] == rest;
  }

  /** Splitting at `c` and joining with `c` gives back the string. */
  lemma {:induction false} SplitCharJoin(s: string, c: char)
    ensures Join(SplitChar(s, c), [c]) == s
    decreases |s|
  {
    var i := FirstSep(s, x => x == c);
    if i < |s| {
      var rest := SplitChar(s[i + 1..], c);
      SplitCharJoin(s[i + 1..], c);
      assert SplitChar(s, c) == [s[..i]] + rest;
      assert ([s[..i]] + rest)[1..] == rest;
      assert s == s[..i] + [c] + s[i + 1..];
    }
  }

  /** A word: non-empty and free of white space. */
  predicate IsWord(w: string) {
    w != [] && forall c :: c in w ==> !IsSpace(c)
  }

  /** Words joined with single spaces start and end with a word character. */
  lemma {:induction false} JoinWordsEdges(words: seq<string>)
    requires words != [] && forall k :: 0 <= k < |words| ==> IsWord(words[k])
    ensures var s := Join(words, " "); s != [] && !IsSpace(s[0]) && !IsSpace(s[|s| - 1])
  {
    assert IsWord(words[0]);
    assert words[0][0] in words[0];
    if |words| > 1 {
      JoinWordsEdges(words[1..]);
      var rest := Join(words[1..], " ");
      assert Join(words, " ") == words[0] + " " + rest;
    } else {
      assert words[0][|words[0]| - 1] in words[0];
    }
  }

  /** The pieces of a non-empty string with no white space at either end are words. */
  lemma {:induction false} SplitSpacesWords(s: string)
    requires s != [] && !IsSpace(s[0]) && !IsSpace(s[|s| - 1])
    ensures forall k :: 0 <= k < |SplitSpaces(s)| ==> IsWord(SplitSpaces(s)[k])
    decreases |s|
  {
    var i := FirstSep(s, IsSpace);
    if i < |s| {
      var j := RunEnd(s, i, IsSpace);
      assert j < |s| by {
        assert i <= |s| - 1;
      }
      SplitSpacesWords(s[j..]);
      assert SplitSpaces(s) == [s[..i]] + SplitSpaces(s[j..]);
      assert s[..i] != [];
    }
  }

  /** Joining words with one space and splitting at white space gives the words back. */
  lemma {:induction false} SplitSpacesJoin(words: seq<string>)
    requires words != [] && forall k :: 0 <= k < |words| ==> IsWord(words[k])
    ensures SplitSpaces(Join(words, " ")) == words
  {
    if |words| == 1 {
      SplitRunsNoSep(words[0], IsSpace);
    } else {
      var rest := Join(words[1..], " ");
      assert Join(words, " ") == words[0] + " " + rest;
      JoinWordsEdges(words[1..]);
      assert IsWord(words[0]);
      SplitSpacesCons(words[0], rest);
      SplitSpacesJoin(words[1..]);
    }
  }

  /** A word, one space and a string starting with a non-space split into that word and the string's pieces. */
  lemma SplitSpacesCons(w: string, rest: string)
    requires IsWord(w) && rest != [] && !IsSpace(rest[0])
    ensures SplitSpaces(w + " " + rest) == [w] + SplitSpaces(rest)
  {
    var s := w + " " + rest;
    assert s[|w|] == ' ';
    assert forall k :: 0 <= k < |w| ==> s[k] == w[k] && w[k] in w;
    var i := FirstSep(s, IsSpace);
    assert i == |w|;
    assert s[|w| + 1] == rest[0];
    var j := RunEnd(s, i, IsSpace);
    assert j == |w| + 1;
    assert s[..i] == w && s[j..] == rest;
  }

  /** `s.split(/\s+/)`. */
  function SplitSpaces(s: string): seq<string> {
    SplitRuns(s, IsSpace)
  }

  /** `parts.join(sep)`. */
  function Join(parts: seq<string>, sep: string): (r: string)
    ensures parts == [] ==> r == []
    ensures |parts| == 1 ==> r == parts[0]
  {
    if parts == [] then []
    else if |parts| == 1 then parts[0]
    else parts[0] + sep + Join(parts[1..], sep)
  }

  lemma JoinSnoc(parts: seq<string>, x: string, sep: string)
    requires parts != []
    ensures Join(parts + [x], sep) == Join(parts, sep) + sep + x
  {
    if |parts| == 1 {
      assert parts + [x] == [parts[0], x];
    } else {
      assert (parts + [x])[1..] == parts[1..] + [x];
      JoinSnoc(parts[1..], x, sep);
    }
  }

  /** `sub` occurs in `s` starting at index `i`. */
  predicate OccursAt(s: string, sub: string, i: int) {
    0 <= i <= |s| - |sub| && s[i..i + |sub|] == sub
  }

  /** `s.includes(sub)`. */
  ghost predicate Contains(s: string, sub: string) {
    exists i :: OccursAt(s, sub, i)
  }

  /** Executable form of `Contains`. */
  function Includes(s: string, sub: string): (b: bool)
    ensures b <==> Contains(s, sub)
  {
    if |s| < |sub| then false
    else if s[..|sub|] == sub then assert OccursAt(s, sub, 0); true
    else
      var rest := Includes(s[1..], sub);
      assert rest ==> Contains(s, sub) by {
        if rest {
          var i :| OccursAt(s[1..], sub, i);
          assert s[i + 1..i + 1 + |sub|] == s[1..][i..i + |sub|];
          assert OccursAt(s, sub, i + 1);
        }
      }
      assert Contains(s, sub) ==> rest by {
        if Contains(s, sub) {
          var i :| OccursAt(s, sub, i);
          assert i != 0;
          assert s[1..][i - 1..i - 1 + |sub|] == s[i..i + |sub|];
          assert OccursAt(s[1..], sub, i - 1);
        }
      }
      rest
  }

  // ---------------------------------------------------------------------
  // `filter` and `map` on arrays

  function Filter<T(==,!new)>(s: seq<T>, keep: T -> bool): (r: seq<T>)
    ensures |r| <= |s|
    ensures forall x :: x in r <==> x in s && keep(x)
    ensures Distinct(s) ==> Distinct(r)
  {
    if s == [] then []
    else
      var rest := Filter(s[1..], keep);
      assert forall x :: x in s <==> x == s[0] || x in s[1..];
      assert Distinct(s) ==> Distinct(s[1..]) && s[0] !in s[1..];
      if keep(s[0]) then [s[0]] + rest else rest
  }

  /** The elements of `s` that `keep` accepts, in order. */
  function Kept<T>(s: seq<T>, keep: T -> bool): seq<T> {
    if s == [] then [] else (if keep(s[0]) then [s[0]] else []) + Kept(s[1..], keep)
  }

  lemma {:induction false} FilterIsKept<T(!new)>(s: seq<T>, keep: T -> bool)
    ensures Filter(s, keep) == Kept(s, keep)
  {
    if s != [] {
      FilterIsKept(s[1..], keep);
    }
  }

  lemma {:induction false} KeptAppend<T>(a: seq<T>, b: seq<T>, keep: T -> bool)
    ensures Kept(a + b, keep) == Kept(a, keep) + Kept(b, keep)
  {
    if a != [] {
      assert (a + b)[0] == a[0] && (a + b)[1..] == a[1..] + b;
      KeptAppend(a[1..], b, keep);
    } else {
      assert a + b == b;
    }
  }

  lemma FilterAppend<T(!new)>(a: seq<T>, b: seq<T>, keep: T -> bool)
    ensures Filter(a + b, keep) == Filter(a, keep) + Filter(b, keep)
  {
    FilterIsKept(a + b, keep);
    FilterIsKept(a, keep);
    FilterIsKept(b, keep);
    KeptAppend(a, b, keep);
  }

  function MapSeq<A, B>(s: seq<A>, f: A -> B): (r: seq<B>)
    ensures |r| == |s|
    ensures forall i :: 0 <= i < |s| ==> r[i] == f(s[i])
  {
    seq(|s|, i requires 0 <= i < |s| => f(s[i]))
  }

  /** The results of `f` on every element, one after another. */
  function ConcatMap<A, B>(f: A -> seq<B>, s: seq<A>): seq<B> {
    if s == [] then [] else ConcatMap(f, s[..|s| - 1]) + f(s[|s| - 1])
  }

  lemma {:induction false} InConcatMap<A, B>(f: A -> seq<B>, s: seq<A>, y: B)
    ensures y in ConcatMap(f, s) <==> exists i :: 0 <= i < |s| && y in f(s[i])
  {
    if s != [] {
      var init := s[..|s| - 1];
      InConcatMap(f, init, y);
      if exists i :: 0 <= i < |s| && y in f(s[i]) {
        var i :| 0 <= i < |s| && y in f(s[i]);
        if i < |init| {
          assert init[i] == s[i];
        }
      }
      if exists i :: 0 <= i < |init| && y in f(init[i]) {
        var i :| 0 <= i < |init| && y in f(init[i]);
        assert s[i] == init[i];
      }
    }
  }

  lemma {:induction false} ConcatMapAppend<A, B>(f: A -> seq<B>, a: seq<A>, b: seq<A>)
    ensures ConcatMap(f, a + b) == ConcatMap(f, a) + ConcatMap(f, b)
    decreases |b|
  {
    if b != [] {
      assert (a + b)[..|a + b| - 1] == a + b[..|b| - 1];
      ConcatMapAppend(f, a, b[..|b| - 1]);
    } else {
      assert a + b == a;
    }
  }

  lemma InMapSeq<A(!new), B>(s: seq<A>, f: A -> B, y: B)
    ensures y in MapSeq(s, f) <==> exists x :: x in s && y == f(x)
  {
    var r := MapSeq(s, f);
    if y in r {
      var i :| 0 <= i < |r| && r[i] == y;
      assert s[i] in s;
    }
    if exists x :: x in s && y == f(x) {
      var x :| x in s && y == f(x);
      var i :| 0 <= i < |s| && s[i] == x;
      assert r[i] == y;
    }
  }

  // ---------------------------------------------------------------------
  // first-occurrence de-duplication (`[...new Set(xs)]`)

  predicate Distinct<T(==)>(s: seq<T>) {
    forall i, j :: 0 <= i < j < |s| ==> s[i] != s[j]
  }

  function DedupFrom<T(==,!new)>(s: seq<T>, seen: set<T>): (r: seq<T>)
    ensures Distinct(r)
    ensures forall x :: x in r <==> x in s && x !in seen
  {
    if s == [] then []
    else if s[0] in seen then DedupFrom(s[1..], seen)
    else [s[0]] + DedupFrom(s[1..], seen + {s[0]})
  }

  /** The elements of `s` in order of first occurrence, each once. */
  function Dedup<T(==,!new)>(s: seq<T>): (r: seq<T>)
    ensures Distinct(r)
    ensures forall x :: x in r <==> x in s
    ensures |r| <= |s|
  {
    DedupLength(s, {});
    DedupFrom(s, {})
  }

  lemma DedupLength<T(!new)>(s: seq<T>, seen: set<T>)
    ensures |DedupFrom(s, seen)| <= |s|
  {
    if s != [] {
      DedupLength(s[1..], if s[0] in seen then seen else seen + {s[0]});
    }
  }

  lemma {:induction false} DedupFromDistinct<T(!new)>(s: seq<T>, seen: set<T>)
    requires Distinct(s) && forall x :: x in s ==> x !in seen
    ensures DedupFrom(s, seen) == s
  {
    if s != [] {
      assert forall x :: x in s[1..] ==> x !in seen + {s[0]} by {
        forall x | x in s[1..] ensures x !in seen + {s[0]} {
          var k :| 0 <= k < |s[1..]| && s[1..][k] == x;
          assert s[k + 1] == x;
        }
      }
      DedupFromDistinct(s[1..], seen + {s[0]});
    }
  }

  /** De-duplication keeps an already distinct sequence as it is, so it is idempotent. */
  lemma DedupIdempotent<T(!new)>(s: seq<T>)
    ensures Dedup(Dedup(s)) == Dedup(s)
  {
    DedupFromDistinct(Dedup(s), {});
  }

  lemma {:induction false} DedupFromAppend<T(!new)>(a: seq<T>, b: seq<T>, seen: set<T>)
    ensures DedupFrom(a + b, seen) == DedupFrom(a, seen) + DedupFrom(b, seen + set x | x in a)
  {
    if a == [] {
      assert a + b == b;
      assert (set x | x in a) == {};
      assert seen + (set x | x in a) == seen;
    } else {
      assert (a + b)[0] == a[0];
      assert (a + b)[1..] == a[1..] + b;
      var seen' := if a[0] in seen then seen else seen + {a[0]};
      DedupFromAppend(a[1..], b, seen');
      assert seen' + (set x | x in a[1..]) == seen + (set x | x in a);
    }
  }

  /** Adding an element keeps first-occurrence order: it is appended only when new. */
  lemma DedupSnoc<T(!new)>(s: seq<T>, x: T)
    ensures Dedup(s + [x]) == if x in s then Dedup(s) else Dedup(s) + [x]
  {
    DedupFromAppend(s, [x], {});
    var seen := {} + set y | y in s;
    assert DedupFrom([x], seen) == if x in seen then [] else [x];
  }

  /** The index of the first occurrence of `x` in `s`. */
  function FirstIndex<T(==)>(s: seq<T>, x: T): (k: nat)
    requires x in s
    ensures k < |s| && s[k] == x
    ensures forall i :: 0 <= i < k ==> s[i] != x
  {
    if s[0] == x then 0 else 1 + FirstIndex(s[1..], x)
  }

  /** Every element of `r` occurs in `s`, and an element listed earlier in `r` first occurs earlier in `s`. */
  predicate FirstSeenOrder<T(==)>(s: seq<T>, r: seq<T>) {
    forall i, j :: 0 <= i < j < |r| ==> r[i] in s && r[j] in s && FirstIndex(s, r[i]) < FirstIndex(s, r[j])
  }

  /** No element, so nothing out of order. */
  lemma NothingOutOfOrder<T>(s: seq<T>, r: seq<T>)
    requires r == []
    ensures FirstSeenOrder(s, r)
  {
  }

  /** `Dedup` keeps the order of first occurrence: an element listed earlier
      first occurs earlier in `s` (the iteration order of a JavaScript `Set`). */
  lemma DedupOrder<T(!new)>(s: seq<T>)
    ensures FirstSeenOrder(s, Dedup(s))
  {
    DedupFromOrder(s, {});
  }

  lemma {:induction false} DedupFromOrder<T(!new)>(s: seq<T>, seen: set<T>)
    ensures FirstSeenOrder(s, DedupFrom(s, seen))
  {
    if s != [] {
      var seen' := if s[0] in seen then seen else seen + {s[0]};
      var t := DedupFrom(s[1..], seen');
      DedupFromOrder(s[1..], seen');
      assert forall x :: x in t ==> x in s[1..] && x != s[0];
      ShiftOrder(s, t);
      if s[0] !in seen {
        ConsOrder(s, t, DedupFrom(s, seen));
      }
    }
  }

  /** An order kept in the tail of `s`, by elements other than its head, is kept in `s`. */
  lemma ShiftOrder<T>(s: seq<T>, t: seq<T>)
    requires s != [] && FirstSeenOrder(s[1..], t) && forall x :: x in t ==> x in s[1..] && x != s[0]
    ensures FirstSeenOrder(s, t)
  {
    forall x | x in t ensures x in s && FirstIndex(s, x) == 1 + FirstIndex(s[1..], x) {
      var k := FirstIndex(s[1..], x);
      assert s[k + 1] == x;
    }
  }

  /** The head of `s` put in front keeps the order. */
  lemma ConsOrder<T>(s: seq<T>, t: seq<T>, r: seq<T>)
    requires s != [] && r == [s[0]] + t && FirstSeenOrder(s, t)
    requires forall x :: x in t ==> x in s[1..] && x != s[0]
    ensures FirstSeenOrder(s, r)
  {
    forall x | x in t ensures x in s && FirstIndex(s, x) > 0 {
      var k := FirstIndex(s[1..], x);
      assert s[k + 1] == x;
    }
    assert FirstIndex(s, s[0]) == 0;
    forall i, j | 0 <= i < j < |r| ensures r[i] in s && r[j] in s && FirstIndex(s, r[i]) < FirstIndex(s, r[j]) {
      assert r[j] == t[j - 1] && t[j - 1] in t;
      if i > 0 {
        assert r[i] == t[i - 1];
      }
    }
  }


  /** `s` with every occurrence of `x` removed (`Set.delete` before `Array.from`). */
  function Without<T(==,!new)>(s: seq<T>, x: T): (r: seq<T>)
    ensures forall y :: y in r <==> y in s && y != x
  {
    if s == [] then []
    else if s[0] == x then Without(s[1..], x)
    else
      var rest := Without(s[1..], x);
      assert forall y :: y in s <==> y == s[0] || y in s[1..];
      [s[0]] + rest
  }

  /** Removing an element keeps a sequence free of repeats. */
  lemma {:induction false} WithoutDistinct<T(!new)>(s: seq<T>, x: T)
    ensures Distinct(s) ==> Distinct(Without(s, x))
  {
    if s != [] && Distinct(s) {
      assert Distinct(s[1..]) by {
        forall i, j | 0 <= i < j < |s[1..]| ensures s[1..][i] != s[1..][j] {
          assert s[1..][i] == s[i + 1] && s[1..][j] == s[j + 1];
        }
      }
      WithoutDistinct(s[1..], x);
      if s[0] != x {
        assert s[0] !in Without(s[1..], x) by {
          assert forall k :: 0 < k < |s| ==> s[k] != s[0];
        }
      }
    }
  }

  // ---------------------------------------------------------------------
  // decimal numerals

  function DigitValue(c: char): nat
    requires IsDigit(c)
  {
    c as int - '0' as int
  }

  /** Value of an all-digit string (most significant digit first). */
  function DigitsValue(s: string): nat
    requires AllDigits(s)
  {
    if s == [] then 0 else DigitsValue(s[..|s| - 1]) * 10 + DigitValue(s[|s| - 1])
  }

  function DigitChar(d: nat): (c: char)
    requires d < 10
    ensures IsDigit(c) && DigitValue(c) == d
  {
    ('0' as int + d) as char
  }

  /** `String(n)` for a natural number. */
  function NatToString(n: nat): (r: string)
    ensures r != [] && AllDigits(r)
    ensures DigitsValue(r) == n
    ensures |r| > 1 ==> r[0] != '0'
  {
    if n < 10 then [DigitChar(n)]
    else
      var r := NatToString(n / 10) + [DigitChar(n % 10)];
      assert r[..|r| - 1] == NatToString(n / 10);
      r
  }

  /** `s.padStart(width, c)`. */
  function PadStart(s: string, width: nat, c: char): (r: string)
    ensures |r| == if |s| >= width then |s| else width
    ensures r[|r| - |s|..] == s
    ensures forall i :: 0 <= i < |r| - |s| ==> r[i] == c
  {
    if |s| >= width then s else seq(width - |s|, _ => c) + s
  }

  lemma {:induction false} LeadingZeros(z: nat, s: string)
    requires AllDigits(s)
    ensures AllDigits(seq(z, _ => '0') + s)
    ensures DigitsValue(seq(z, _ => '0') + s) == DigitsValue(s)
    decreases z, |s|
  {
    var t := seq(z, _ => '0') + s;
    if s == [] {
      assert t == seq(z, _ => '0');
      if z > 0 {
        assert t[..|t| - 1] == seq(z - 1, _ => '0') + [];
        LeadingZeros(z - 1, []);
      }
    } else {
      assert t[..|t| - 1] == seq(z, _ => '0') + s[..|s| - 1];
      LeadingZeros(z, s[..|s| - 1]);
    }
  }

  /** A zero-padded numeral still denotes its number. */
  lemma PaddedValue(n: nat, width: nat)
    ensures AllDigits(PadStart(NatToString(n), width, '0'))
    ensures DigitsValue(PadStart(NatToString(n), width, '0')) == n
  {
    var s := NatToString(n);
    if |s| < width {
      LeadingZeros(width - |s|, s);
    }
  }

  /** Length of the leading run of decimal digits. */
  function DigitPrefixLength(s: string): (k: nat)
    ensures k <= |s| && AllDigits(s[..k])
    ensures k < |s| ==> !IsDigit(s[k])
  {
    if s == [] || !IsDigit(s[0]) then 0
    else
      var k := 1 + DigitPrefixLength(s[1..]);
      assert s[..k] == [s[0]] + s[1..][..k - 1];
      k
  }

  /**
   * `parseInt(s, 10)` on a string that starts with its digits: the value of
   * the leading digits, or None (NaN) when there are none.
   */
  function ParseIntPrefix(s: string): (r: Option<nat>)
    ensures AllDigits(s) && s != [] ==> r == Some(DigitsValue(s))
    ensures s == [] || !IsDigit(s[0]) ==> r == None
  {
    var k := DigitPrefixLength(s);
    if k == 0 then None else
      assert AllDigits(s) ==> k == |s| && s[..k] == s;
      Some(DigitsValue(s[..k]))
  }

  /**
   * `parseInt(s, 10)` on text that holds no `-`, such as one part of a
   * `-`-separated date: leading white space and a `+` sign are skipped,
   * then the leading digits are read; None stands for `NaN`.
   */
  function ParseInt(s: string): (r: Option<nat>)
    ensures AllDigits(s) && s != [] ==> r == Some(DigitsValue(s))
  {
    var t := TrimStart(s);
    assert AllDigits(s) && s != [] ==> t == s;
    if t != [] && t[0] == '+' then ParseIntPrefix(t[1..]) else ParseIntPrefix(t)
  }

  /** The digits after the white space and the optional `+` give the value; whatever follows them is ignored. */
  lemma ParseIntMeaning(w: string, sign: string, d: string, rest: string)
    requires forall i :: 0 <= i < |w| ==> IsSpace(w[i])
    requires sign == "" || sign == "+"
    requires AllDigits(d) && d != [] && (rest == [] || !IsDigit(rest[0]))
    ensures ParseInt(w + sign + d + rest) == Some(DigitsValue(d))
  {
    var n := d + rest;
    DigitPrefixOf(d, rest);
    assert IsDigit(n[0]);
    var x := sign + n;
    assert w + sign + d + rest == w + x by {
      AppendAssoc(w, sign, d, rest);
    }
    assert x[0] == '+' || IsDigit(x[0]);
    TrimStartSpaces(w, x);
    assert sign == "+" ==> x[1..] == n;
    assert sign == "" ==> x == n;
  }

  lemma AppendAssoc(a: string, b: string, c: string, e: string)
    ensures a + b + c + e == a + (b + (c + e))
  {
  }

  /** Text whose first character after the white space is neither a digit nor `+` reads as `NaN`. */
  lemma ParseIntNaN(w: string, rest: string)
    requires forall i :: 0 <= i < |w| ==> IsSpace(w[i])
    requires rest == [] || (!IsSpace(rest[0]) && !IsDigit(rest[0]) && rest[0] != '+')
    ensures ParseInt(w + rest) == None
  {
    TrimStartSpaces(w, rest);
  }

  lemma {:induction false} TrimStartSpaces(w: string, x: string)
    requires forall i :: 0 <= i < |w| ==> IsSpace(w[i])
    requires x == [] || !IsSpace(x[0])
    ensures TrimStart(w + x) == x
    decreases |w|
  {
    if w != [] {
      assert (w + x)[0] == w[0];
      assert (w + x)[1..] == w[1..] + x;
      TrimStartSpaces(w[1..], x);
    } else {
      assert w + x == x;
    }
  }

  lemma {:induction false} DigitPrefixOf(d: string, rest: string)
    requires AllDigits(d) && d != [] && (rest == [] || !IsDigit(rest[0]))
    ensures DigitPrefixLength(d + rest) == |d| && (d + rest)[..|d|] == d
    ensures ParseIntPrefix(d + rest) == Some(DigitsValue(d))
    decreases |d|
  {
    var s := d + rest;
    assert s[0] == d[0] && s[1..] == d[1..] + rest;
    if |d| > 1 {
      DigitPrefixOf(d[1..], rest);
    } else {
      assert d[1..] + rest == rest;
    }
    assert s[..|d|] == d;
  }

  datatype Option<+T> = None | Some(value: T)
}
