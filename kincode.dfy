/**
 * Kinship codes: the rewrite system that reduces a raw edge-label string to
 * its canonical code (`normalizeCode`), and the literal possessive expansion
 * used when the dictionary has no entry for a code (`expandCode`).
 *
 * Codes are plain character strings, exactly as the engine builds them, so
 * the three-letter unknown-gender sibling label `Sib` is three characters
 * here too.
 */
module KinshipCode {
  import opened Text

  // ---------------------------------------------------------------------
  // String.prototype.replace with a global regular expression

  /**
   * `s.replace(/pat/g, rep)`: every occurrence of `pat` found by a
   * left-to-right scan, without overlaps, is replaced by `rep`.
   */
  function ReplaceAll(s: string, pat: string, rep: string): string
    requires pat != []
    decreases |s|
  {
    if |s| < |pat| then s
    else if s[..|pat|] == pat then rep + ReplaceAll(s[|pat|..], pat, rep)
    else [s[0]] + ReplaceAll(s[1..], pat, rep)
  }

  /**
   * When the replacement is shorter than the pattern, a replace-all never
   * lengthens the string, leaves it unchanged exactly when the pattern does
   * not occur, and shortens it otherwise.
   */
  lemma {:induction false} ReplaceAllShrinks(s: string, pat: string, rep: string)
    requires pat != [] && |rep| < |pat|
    ensures |ReplaceAll(s, pat, rep)| <= |s|
    ensures Contains(s, pat) ==> |ReplaceAll(s, pat, rep)| < |s|
    ensures !Contains(s, pat) ==> ReplaceAll(s, pat, rep) == s
    decreases |s|
  {
    if |s| < |pat| {
    } else if s[..|pat|] == pat {
      ReplaceAllShrinks(s[|pat|..], pat, rep);
      assert OccursAt(s, pat, 0);
    } else {
      ReplaceAllShrinks(s[1..], pat, rep);
      if Contains(s, pat) {
        var i :| OccursAt(s, pat, i);
        assert i != 0;
        assert s[1..][i - 1..i - 1 + |pat|] == s[i..i + |pat|];
        assert OccursAt(s[1..], pat, i - 1);
      }
      if Contains(s[1..], pat) {
        var i :| OccursAt(s[1..], pat, i);
        assert s[i + 1..i + 1 + |pat|] == s[1..][i..i + |pat|];
        assert OccursAt(s, pat, i + 1);
      }
      if !Contains(s, pat) {
        assert [s[0]] + s[1..] == s;
      }
    }
  }

  lemma {:induction false} ReplaceAllNonEmpty(s: string, pat: string, rep: string)
    requires pat != [] && rep != []
    ensures s != [] ==> ReplaceAll(s, pat, rep) != []
  {
  }

  // ---------------------------------------------------------------------
  // the rewrite rules of normalizeCode, in the order they are applied

  datatype Rule = Rule(pat: string, rep: string)

  /** Parent + same-gender child is a sibling. */
  const ParentChild: seq<Rule> := [Rule("FS", "B"), Rule("FD", "Z"), Rule("MS", "B"), Rule("MD", "Z")]

  /** Parallel cousins are siblings. */
  const Cousins: seq<Rule> := [Rule("FBS", "B"), Rule("FBD", "Z"), Rule("MZS", "B"), Rule("MZD", "Z")]

  /** A grandparent's parallel sibling is a grandparent. */
  const Ancestors: seq<Rule> := [Rule("FFB", "FF"), Rule("MMZ", "MM"), Rule("MFB", "MF"), Rule("FMZ", "FM")]

  /** The twelve rules, in the order one pass applies them. */
  const Rules: seq<Rule> := ParentChild + Cousins + Ancestors

  /** Every rule has a non-empty replacement strictly shorter than its pattern. */
  predicate Shrinking(rules: seq<Rule>) {
    forall k :: 0 <= k < |rules| ==> rules[k].pat != [] && rules[k].rep != [] && |rules[k].rep| < |rules[k].pat|
  }

  lemma RulesShrink()
    ensures Shrinking(Rules)
  {
  }

  /** Applies each rule once, in order, as a replace-all. */
  function ApplyRules(s: string, rules: seq<Rule>): string
    requires Shrinking(rules)
    decreases |rules|
  {
    if rules == [] then s
    else ApplyRules(ReplaceAll(s, rules[0].pat, rules[0].rep), rules[1..])
  }

  /** No pattern of `rules` occurs in `s`. */
  ghost predicate Irreducible(s: string, rules: seq<Rule>) {
    forall k :: 0 <= k < |rules| ==> !Contains(s, rules[k].pat)
  }

  lemma {:induction false} ApplyRulesShrinks(s: string, rules: seq<Rule>)
    requires Shrinking(rules)
    ensures |ApplyRules(s, rules)| <= |s|
    ensures ApplyRules(s, rules) != s ==> |ApplyRules(s, rules)| < |s|
    ensures ApplyRules(s, rules) == s <==> Irreducible(s, rules)
    ensures s != [] ==> ApplyRules(s, rules) != []
    decreases |rules|
  {
    if rules != [] {
      var r := rules[0];
      var t := ReplaceAll(s, r.pat, r.rep);
      ReplaceAllShrinks(s, r.pat, r.rep);
      ReplaceAllNonEmpty(s, r.pat, r.rep);
      ApplyRulesShrinks(t, rules[1..]);
      if ApplyRules(s, rules) == s {
        assert t == s;
        assert Irreducible(s, rules) by {
          forall k | 0 <= k < |rules| ensures !Contains(s, rules[k].pat) {
            if k > 0 {
              assert rules[k] == rules[1..][k - 1];
            }
          }
        }
      }
      if Irreducible(s, rules) {
        assert !Contains(s, rules[0].pat);
        assert t == s;
        assert Irreducible(s, rules[1..]) by {
          forall k | 0 <= k < |rules[1..]| ensures !Contains(s, rules[1..][k].pat) {
            assert rules[1..][k] == rules[k + 1];
          }
        }
      }
    }
  }

  /** One pass of the do-while body of `normalizeCode`. */
  function Pass(s: string): string {
    RulesShrink();
    ApplyRules(s, Rules)
  }

  lemma PassShrinks(s: string)
    ensures |Pass(s)| <= |s|
    ensures Pass(s) != s ==> |Pass(s)| < |s|
    ensures Pass(s) == s <==> Irreducible(s, Rules)
    ensures s != [] ==> Pass(s) != []
  {
    RulesShrink();
    ApplyRulesShrinks(s, Rules);
  }

  /**
   * The fixed point reached by repeating `Pass`; it exists because every
   * pass that changes the string shortens it.
   */
  function NormalForm(s: string): string
    decreases |s|
  {
    var t := Pass(s);
    PassShrinks(s);
    if t == s then s else NormalForm(t)
  }

  /**
   * `normalizeCode(raw)`: repeat the pass until the string stops changing.
   * The source returns "" for an empty input before the loop.
   */
  method NormalizeCode(raw: string) returns (code: string)
    ensures code == NormalForm(raw)
  {
    if raw == [] {
      PassShrinks(raw);
      return [];
    }
    code := raw;
    var prev := code;
    code := Pass(code);
    while code != prev
      invariant code == Pass(prev)
      invariant NormalForm(prev) == NormalForm(raw)
      decreases |prev|
    {
      PassShrinks(prev);
      prev := code;
      code := Pass(code);
    }
  }

  /**
   * The canonical code is never longer than the raw code, is empty exactly
   * when the raw code is, and contains none of the twelve rule patterns.
   */
  lemma {:induction false} NormalFormProperties(s: string)
    ensures |NormalForm(s)| <= |s|
    ensures NormalForm(s) == [] <==> s == []
    ensures Irreducible(NormalForm(s), Rules)
    decreases |s|
  {
    PassShrinks(s);
    if Pass(s) != s {
      NormalFormProperties(Pass(s));
    }
  }

  /** A string is its own canonical code exactly when no rule applies to it. */
  lemma FixedPointIffIrreducible(s: string)
    ensures NormalForm(s) == s <==> Irreducible(s, Rules)
  {
    PassShrinks(s);
    NormalFormProperties(s);
    if Pass(s) != s {
      NormalFormProperties(Pass(s));
    }
  }

  /** Normalising twice gives the same code as normalising once. */
  lemma NormalFormIdempotent(s: string)
    ensures NormalForm(NormalForm(s)) == NormalForm(s)
  {
    NormalFormProperties(s);
    FixedPointIffIrreducible(NormalForm(s));
  }

  /** A string shorter than every pattern is left alone by the rules. */
  lemma {:induction false} ShorterThanPatterns(s: string, rules: seq<Rule>)
    requires Shrinking(rules)
    requires forall k :: 0 <= k < |rules| ==> |s| < |rules[k].pat|
    ensures ApplyRules(s, rules) == s
    decreases |rules|
  {
    if rules != [] {
      assert ReplaceAll(s, rules[0].pat, rules[0].rep) == s;
      ShorterThanPatterns(s, rules[1..]);
    }
  }

  lemma PassFatherSon()
    ensures Pass("FS") == "B"
  {
    RulesShrink();
    assert ReplaceAll("FS", "FS", "B") == "B" by {
      assert "FS"[..2] == "FS";
      assert "FS"[2..] == [];
    }
    ShorterThanPatterns("B", Rules[1..]);
  }

  lemma PassBrother()
    ensures Pass("B") == "B"
  {
    RulesShrink();
    ShorterThanPatterns("B", Rules);
  }

  /** Father's son is brother. */
  lemma NormalizeFatherSon()
    ensures NormalForm("FS") == "B"
  {
    PassFatherSon();
    PassBrother();
  }

  /** Rules none of which changes `s` leave it unchanged. */
  lemma {:induction false} SkipRules(s: string, rules: seq<Rule>)
    requires Shrinking(rules)
    requires forall k :: 0 <= k < |rules| ==> ReplaceAll(s, rules[k].pat, rules[k].rep) == s
    ensures ApplyRules(s, rules) == s
    decreases |rules|
  {
    if rules != [] {
      assert ReplaceAll(s, rules[0].pat, rules[0].rep) == s;
      forall k | 0 <= k < |rules[1..]|
        ensures ReplaceAll(s, rules[1..][k].pat, rules[1..][k].rep) == s
      {
        assert rules[1..][k] == rules[k + 1];
      }
      SkipRules(s, rules[1..]);
    }
  }

  /** A pattern whose first two letters never occur side by side in `s` does not occur. */
  lemma {:induction false} NoPairKept(s: string, pat: string, rep: string)
    requires |pat| >= 2
    requires forall i :: 0 <= i < |s| - 1 ==> !(s[i] == pat[0] && s[i + 1] == pat[1])
    ensures ReplaceAll(s, pat, rep) == s
    decreases |s|
  {
    if |s| >= |pat| {
      assert s[..|pat|] != pat by {
        assert s[..|pat|][0] == s[0] && s[..|pat|][1] == s[1];
      }
      forall i | 0 <= i < |s[1..]| - 1
        ensures !(s[1..][i] == pat[0] && s[1..][i + 1] == pat[1])
      {
        assert s[1..][i] == s[i + 1] && s[1..][i + 1] == s[i + 2];
      }
      NoPairKept(s[1..], pat, rep);
      assert [s[0]] + s[1..] == s;
    }
  }

  /** A string as long as a pattern but different from it does not contain it. */
  lemma SameLengthKept(s: string, pat: string, rep: string)
    requires pat != [] && |s| == |pat| && s != pat
    ensures ReplaceAll(s, pat, rep) == s
  {
    assert s[..|pat|] == s;
    assert [s[0]] + s[1..] == s;
  }

  /** Rules whose patterns are as long as `s` but differ from it leave it unchanged. */
  lemma {:induction false} SkipSameLength(s: string, rules: seq<Rule>)
    requires Shrinking(rules)
    requires forall k :: 0 <= k < |rules| ==> |rules[k].pat| == |s| && rules[k].pat != s
    ensures ApplyRules(s, rules) == s
    decreases |rules|
  {
    if rules != [] {
      SameLengthKept(s, rules[0].pat, rules[0].rep);
      assert forall k :: 0 <= k < |rules[1..]| ==> rules[1..][k] == rules[k + 1];
      SkipSameLength(s, rules[1..]);
    }
  }

  /** Applying `a + b` is applying `a`, then `b`. */
  lemma {:induction false} ApplyRulesAppend(s: string, a: seq<Rule>, b: seq<Rule>)
    requires Shrinking(a + b)
    ensures Shrinking(a) && Shrinking(b)
    ensures ApplyRules(s, a + b) == ApplyRules(ApplyRules(s, a), b)
    decreases |a|
  {
    assert forall k :: 0 <= k < |a| ==> (a + b)[k] == a[k];
    assert forall k :: 0 <= k < |b| ==> (a + b)[|a| + k] == b[k];
    if a == [] {
      assert a + b == b;
    } else {
      assert (a + b)[1..] == a[1..] + b;
      ApplyRulesAppend(ReplaceAll(s, a[0].pat, a[0].rep), a[1..], b);
    }
  }

  /** A pass applies the three groups of rules in turn. */
  lemma PassInGroups(s: string)
    ensures Shrinking(ParentChild) && Shrinking(Cousins) && Shrinking(Ancestors)
    ensures Pass(s) == ApplyRules(ApplyRules(ApplyRules(s, ParentChild), Cousins), Ancestors)
  {
    RulesShrink();
    ApplyRulesAppend(s, ParentChild + Cousins, Ancestors);
    ApplyRulesAppend(s, ParentChild, Cousins);
  }

  /** A parent step directly followed by a child step at `i`. */
  predicate ParentThenChild(s: string, i: int)
    requires 0 <= i < |s| - 1
  {
    (s[i] == 'F' || s[i] == 'M') && (s[i + 1] == 'S' || s[i + 1] == 'D')
  }

  /** No parent step followed by a child step: the parent + child rules do not fire. */
  lemma SkipParentChild(s: string)
    requires forall i :: 0 <= i < |s| - 1 ==> !ParentThenChild(s, i)
    ensures Shrinking(ParentChild)
    ensures ApplyRules(s, ParentChild) == s
  {
    forall k | 0 <= k < 4
      ensures ReplaceAll(s, ParentChild[k].pat, ParentChild[k].rep) == s
    {
      ParentChildKept(s, ParentChild[k]);
    }
    SkipRules(s, ParentChild);
  }

  /** Every parent + child pattern is a parent letter followed by a child letter. */
  lemma ParentChildShape(r: Rule)
    requires r in ParentChild
    ensures |r.pat| == 2 && (r.pat[0] == 'F' || r.pat[0] == 'M') && (r.pat[1] == 'S' || r.pat[1] == 'D')
  {
  }

  lemma ParentChildKept(s: string, r: Rule)
    requires forall i :: 0 <= i < |s| - 1 ==> !ParentThenChild(s, i)
    requires r in ParentChild
    ensures ReplaceAll(s, r.pat, r.rep) == s
  {
    ParentChildShape(r);
    forall i | 0 <= i < |s| - 1
      ensures !(s[i] == r.pat[0] && s[i + 1] == r.pat[1])
    {
      assert !ParentThenChild(s, i);
    }
    NoPairKept(s, r.pat, r.rep);
  }

  /** Of the cousin rules, only `FBS -> B` fires on `FFBSS`. */
  lemma CousinsOnChain()
    ensures Shrinking(Cousins)
    ensures ApplyRules("FFBSS", Cousins) == "FBS"
  {
    var s := "FFBSS";
    assert ReplaceAll(s, "FBS", "B") == "FBS" by {
      assert s[..3] == "FFB" && s[1..] == "FBSS";
      assert s[1..][..3] == "FBS" && s[1..][3..] == "S";
    }
    assert Cousins[1..] == [Rule("FBD", "Z"), Rule("MZS", "B"), Rule("MZD", "Z")];
    SkipSameLength("FBS", Cousins[1..]);
  }

  /** None of the grandparent rules fires on `FBS`. */
  lemma AncestorsKeepFBS()
    ensures Shrinking(Ancestors)
    ensures ApplyRules("FBS", Ancestors) == "FBS"
  {
    SkipSameLength("FBS", Ancestors);
  }

  /** Only `FBS -> B` fires in one pass over the chain `FFBSS`. */
  lemma PassCousinChain()
    ensures Pass("FFBSS") == "FBS"
  {
    PassInGroups("FFBSS");
    assert forall i :: 0 <= i < 4 ==> !ParentThenChild("FFBSS", i);
    SkipParentChild("FFBSS");
    CousinsOnChain();
    AncestorsKeepFBS();
  }

  /** The parallel cousin `FBS` becomes a brother in one pass. */
  lemma PassParallelCousin()
    ensures Pass("FBS") == "B"
  {
    PassInGroups("FBS");
    assert forall i :: 0 <= i < 2 ==> !ParentThenChild("FBS", i);
    SkipParentChild("FBS");
    assert ReplaceAll("FBS", "FBS", "B") == "B" by {
      assert "FBS"[..3] == "FBS" && "FBS"[3..] == [];
    }
    ShorterThanPatterns("B", Cousins[1..]);
    ShorterThanPatterns("B", Ancestors);
  }

  /** The example of the source's comment: father's father's brother's son's son is brother. */
  lemma NormalizeCousinChain()
    ensures NormalForm("FFBSS") == "B"
  {
    PassCousinChain();
    PassParallelCousin();
    PassBrother();
  }

  /**
   * A code with no parent step (F or M) before its last letter is already
   * canonical: every rule pattern starts with a parent step and has a
   * letter after it.
   */
  lemma NoInnerParentIsCanonical(s: string)
    requires forall i :: 0 <= i < |s| - 1 ==> s[i] != 'F' && s[i] != 'M'
    ensures NormalForm(s) == s
  {
    RulesStartWithParent();
    NoInnerParentIrreducible(s, Rules);
    FixedPointIffIrreducible(s);
  }

  /** Every pattern has at least two letters and starts with a parent step. */
  predicate ParentLed(rules: seq<Rule>) {
    forall k :: 0 <= k < |rules| ==> |rules[k].pat| >= 2 && (rules[k].pat[0] == 'F' || rules[k].pat[0] == 'M')
  }

  lemma NoInnerParentIrreducible(s: string, rules: seq<Rule>)
    requires ParentLed(rules)
    requires forall i :: 0 <= i < |s| - 1 ==> s[i] != 'F' && s[i] != 'M'
    ensures Irreducible(s, rules)
  {
    forall k | 0 <= k < |rules| ensures !Contains(s, rules[k].pat) {
      var p := rules[k].pat;
      forall i ensures !OccursAt(s, p, i) {
        if 0 <= i <= |s| - |p| {
          assert s[i..i + |p|][0] == s[i] != p[0];
        }
      }
    }
  }

  lemma RulesStartWithParent()
    ensures ParentLed(Rules)
  {
  }

  /** The sentinel code of a person with themselves is left unchanged. */
  lemma NormalizeSelf()
    ensures NormalForm("SELF") == "SELF"
  {
    NoInnerParentIsCanonical("SELF");
  }

  // ---------------------------------------------------------------------
  // expandCode

  /** The English word of a single-letter code; any other character stands for itself. */
  function Word(c: char): string {
    match c
    case 'F' => "Father"
    case 'M' => "Mother"
    case 'S' => "Son"
    case 'D' => "Daughter"
    case 'B' => "Brother"
    case 'Z' => "Sister"
    case 'H' => "Husband"
    case 'W' => "Wife"
    case _ => [c]
  }

  /** The word of every character of a code, in order (the `parts` array). */
  function Words(code: string): (r: seq<string>)
    ensures |r| == |code|
  {
    seq(|code|, i requires 0 <= i < |code| => Word(code[i]))
  }

  /** Every part but the last gets the possessive suffix "'s". */
  function Possessive(parts: seq<string>): (r: seq<string>)
    ensures |r| == |parts|
  {
    seq(|parts|, i requires 0 <= i < |parts| => if i < |parts| - 1 then parts[i] + "'s" else parts[i])
  }

  /** The literal expansion of a code: "SSWB" reads "Son's-Son's-Wife's-Brother". */
  function Expansion(code: string): string {
    if code == [] then []
    else if code == "SELF" then "Self"
    else
      var parts := Words(code);
      if |parts| == 1 then parts[0] else Join(Possessive(parts), "-")
  }

  /** `expandCode(code)`: one word per character, pushed in a loop, then joined. */
  method ExpandCode(code: string) returns (r: string)
    ensures r == Expansion(code)
  {
    if code == [] {
      return [];
    }
    if code == "SELF" {
      return "Self";
    }
    var parts: seq<string> := [];
    var i := 0;
    while i < |code|
      invariant 0 <= i <= |code|
      invariant parts == Words(code[..i])
    {
      assert code[..i + 1] == code[..i] + [code[i]];
      WordsSnoc(code[..i], code[i]);
      parts := parts + [Word(code[i])];
      i := i + 1;
    }
    assert code[..i] == code;
    if |parts| == 1 {
      return parts[0];
    }
    r := Join(Possessive(parts), "-");
  }

  lemma WordsSnoc(code: string, x: char)
    ensures Words(code + [x]) == Words(code) + [Word(x)]
  {
    assert forall i :: 0 <= i < |code| ==> (code + [x])[i] == code[i];
  }

  /** Extending the parts by one adds the suffix to the old last part. */
  lemma PossessiveSnoc(parts: seq<string>, w: string)
    requires parts != []
    ensures Possessive(parts + [w]) ==
            Possessive(parts)[..|parts| - 1] + [parts[|parts| - 1] + "'s"] + [w]
  {
  }

  /** Appending "'s" to the last part appends it to the joined string. */
  lemma {:induction false} JoinPossessive(init: seq<string>, last: string)
    ensures Join(init + [last + "'s"], "-") == Join(init + [last], "-") + "'s"
  {
    if init == [] {
      assert init + [last + "'s"] == [last + "'s"];
      assert init + [last] == [last];
    } else {
      JoinSnoc(init, last + "'s", "-");
      JoinSnoc(init, last, "-");
    }
  }

  /**
   * Extending a code by one letter adds "'s-" and that letter's word to the
   * expansion (as long as neither code is the SELF sentinel).
   */
  lemma ExpansionSnoc(code: string, x: char)
    requires code != [] && code != "SELF" && code + [x] != "SELF"
    ensures Expansion(code + [x]) == Expansion(code) + "'s-" + Word(x)
  {
    WordsSnoc(code, x);
    JoinedSnoc(Words(code), Word(x));
  }

  /** One more part adds "'s-" and that part to the joined possessive chain. */
  lemma JoinedSnoc(parts: seq<string>, w: string)
    requires parts != []
    ensures Join(Possessive(parts + [w]), "-") ==
      (if |parts| == 1 then parts[0] else Join(Possessive(parts), "-")) + "'s-" + w
  {
    PossessiveSnoc(parts, w);
    var pp := Possessive(parts);
    var n := |parts|;
    var init := pp[..n - 1];
    var pre := init + [parts[n - 1] + "'s"];
    JoinSnoc(pre, w, "-");
    JoinPossessive(init, parts[n - 1]);
    assert init + [parts[n - 1]] == pp;
    if n == 1 {
      assert init == [];
      assert pp == [parts[0]];
    }
  }

  /** The unknown-gender sibling label expands letter by letter. */
  lemma ExpandSib()
    ensures Expansion("Sib") == "Son's-i's-b"
  {
    var parts := Words("Sib");
    assert parts == ["Son", "i", "b"];
    var pp := Possessive(parts);
    assert pp[0] == "Son's" && pp[1] == "i's" && pp[2] == "b";
    assert pp == ["Son's", "i's", "b"];
  }

  /** A two-generation descendant code reads as a possessive chain. */
  lemma ExpandSonSon()
    ensures Expansion("SS") == "Son's-Son"
  {
    var parts := Words("SS");
    assert parts == ["Son", "Son"];
    var pp := Possessive(parts);
    assert pp[0] == "Son's" && pp[1] == "Son";
    assert pp == ["Son's", "Son"];
  }
}
