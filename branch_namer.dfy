/**
  `title_to_branch_name`: a PR title becomes a kebab-case branch name through four
  regular-expression steps, modelled over ASCII; `ReplaceRuns` serves the two that turn
  runs of a class into one hyphen.
 */
module BranchNamer {
  import opened Text

  /** The class `[\s_]`, whose runs become one hyphen. */
  const Separators: set<char> := WhiteSpace + {'_'}
  const Hyphen: set<char> := {'-'}

  /** The class `[\w\s-]` of characters the first step keeps. */
  predicate IsKept(c: char) { IsWordChar(c) || c in WhiteSpace || c == '-' }

  /** A character a branch name may hold: a lower-case letter, a digit or a hyphen. */
  predicate IsBranchChar(c: char) { IsLowerLetter(c) || IsDigit(c) || c == '-' }

  /** A character that can survive lower-casing and the first step. */
  predicate IsCleanChar(c: char) { IsKept(c) && !IsUpper(c) }

  predicate AllBranchChars(s: string) { forall i :: 0 <= i < |s| ==> IsBranchChar(s[i]) }
  predicate AllClean(s: string) { forall i :: 0 <= i < |s| ==> IsCleanChar(s[i]) }
  predicate NoneUpper(s: string) { forall i :: 0 <= i < |s| ==> !IsUpper(s[i]) }

  predicate NoDoubleHyphen(s: string)
  {
    forall i :: 0 <= i < |s| - 1 ==> !(s[i] == '-' && s[i + 1] == '-')
  }

  /** The shape every result has: branch characters only, no hyphen at either end, no `--`. */
  predicate IsBranchName(s: string)
  {
    && AllBranchChars(s)
    && (s == [] || (s[0] != '-' && s[|s| - 1] != '-'))
    && NoDoubleHyphen(s)
  }

  /** The letters and digits of `s`, in order. */
  function Alnums(s: string): string
  {
    if s == [] then [] else (if IsAlnum(s[0]) then [s[0]] else []) + Alnums(s[1..])
  }

  /** `re.sub(r'[^\w\s-]', '', s)`: drop every character outside `[\w\s-]`. */
  function RemoveUnkept(s: string): string
  {
    if s == [] then [] else (if IsKept(s[0]) then [s[0]] else []) + RemoveUnkept(s[1..])
  }

  /** `re.sub(r'[…]+', '-', s)` for the class `cs`: every maximal run of characters of `cs`
      becomes one hyphen. The conversion uses it twice, for `[\s_]+` and for `-+`. */
  function ReplaceRuns(s: string, cs: set<char>): string
    decreases |s|
  {
    if s == [] then []
    else if s[0] in cs then "-" + ReplaceRuns(LStrip(s[1..], cs), cs)
    else [s[0]] + ReplaceRuns(s[1..], cs)
  }

  /** `title_to_branch_name`: lower-case, drop what is outside `[\w\s-]`, strip whitespace,
      turn `[\s_]+` into `-`, collapse `-+`, strip `-`. */
  function TitleToBranchName(title: string): (name: string)
    ensures IsBranchName(name)
    ensures Alnums(name) == Lower(Alnums(title))
  {
    var lowered := Lower(title);
    var cleaned := RemoveUnkept(lowered);
    var stripped := Strip(cleaned, WhiteSpace);
    var kebab := ReplaceRuns(stripped, Separators);
    var collapsed := ReplaceRuns(kebab, Hyphen);
    var name := Strip(collapsed, Hyphen);
    ShapeOfName(title, lowered, cleaned, stripped, kebab, collapsed, name);
    AlnumsOfName(title, lowered, cleaned, stripped, kebab, collapsed, name);
    name
  }

  // ---- what each step keeps --------------------------------------------------------------

  lemma {:induction false} RemoveUnkeptClean(s: string)
    requires NoneUpper(s)
    ensures AllClean(RemoveUnkept(s))
  {
    if s != [] {
      assert NoneUpper(s[1..]);
      RemoveUnkeptClean(s[1..]);
    }
  }

  /** Whatever `Strip` leaves is a slice of its input, so slice-closed facts carry over. */
  lemma StripIsSlice(s: string, cs: set<char>) returns (lo: nat, hi: nat)
    ensures lo <= hi <= |s| && Strip(s, cs) == s[lo..hi]
  {
    lo := LeadingIn(s, cs);
    var l := s[lo..];
    hi := lo + |l| - TrailingIn(l, cs);
    assert l[..|l| - TrailingIn(l, cs)] == s[lo..hi];
  }

  lemma CleanSlice(s: string, lo: nat, hi: nat)
    requires lo <= hi <= |s| && AllClean(s)
    ensures AllClean(s[lo..hi])
  {
    assert forall i :: 0 <= i < hi - lo ==> s[lo..hi][i] == s[lo + i];
  }

  lemma ShapeOfSlice(s: string, lo: nat, hi: nat)
    requires lo <= hi <= |s| && AllBranchChars(s) && NoDoubleHyphen(s)
    ensures AllBranchChars(s[lo..hi]) && NoDoubleHyphen(s[lo..hi])
  {
    assert forall i :: 0 <= i < hi - lo ==> s[lo..hi][i] == s[lo + i];
  }

  lemma {:induction false} SeparatorRunsChars(s: string)
    requires AllClean(s)
    ensures AllBranchChars(ReplaceRuns(s, Separators))
    decreases |s|
  {
    if s != [] {
      if s[0] in Separators {
        var t := LStrip(s[1..], Separators);
        forall i | 0 <= i < |t| ensures IsCleanChar(t[i]) {
          assert t[i] == s[1..][|s| - 1 - |t| + i];
        }
        SeparatorRunsChars(t);
      } else {
        assert AllClean(s[1..]);
        SeparatorRunsChars(s[1..]);
      }
    }
  }

  lemma {:induction false} HyphenRunsShape(s: string)
    ensures s != [] ==> ReplaceRuns(s, Hyphen) != [] && ReplaceRuns(s, Hyphen)[0] == s[0]
    ensures NoDoubleHyphen(ReplaceRuns(s, Hyphen))
    ensures AllBranchChars(s) ==> AllBranchChars(ReplaceRuns(s, Hyphen))
    decreases |s|
  {
    if s != [] {
      if s[0] == '-' {
        var t := LStrip(s[1..], Hyphen);
        if AllBranchChars(s) {
          forall i | 0 <= i < |t| ensures IsBranchChar(t[i]) {
            assert t[i] == s[1..][|s| - 1 - |t| + i];
          }
        }
        HyphenRunsShape(t);
      } else {
        assert AllBranchChars(s) ==> AllBranchChars(s[1..]);
        HyphenRunsShape(s[1..]);
      }
    }
  }

  /** Why every result has the shape of a branch name. */
  lemma ShapeOfName(title: string, lowered: string, cleaned: string, stripped: string,
                    kebab: string, collapsed: string, name: string)
    requires lowered == Lower(title)
    requires cleaned == RemoveUnkept(lowered)
    requires stripped == Strip(cleaned, WhiteSpace)
    requires kebab == ReplaceRuns(stripped, Separators)
    requires collapsed == ReplaceRuns(kebab, Hyphen)
    requires name == Strip(collapsed, Hyphen)
    ensures IsBranchName(name)
  {
    RemoveUnkeptClean(lowered);
    var lo1, hi1 := StripIsSlice(cleaned, WhiteSpace);
    CleanSlice(cleaned, lo1, hi1);
    SeparatorRunsChars(stripped);
    HyphenRunsShape(kebab);
    var lo2, hi2 := StripIsSlice(collapsed, Hyphen);
    ShapeOfSlice(collapsed, lo2, hi2);
  }

  // ---- the letters and digits survive, in order --------------------------------------------

  lemma {:induction false} AlnumsConcat(a: string, b: string)
    ensures Alnums(a + b) == Alnums(a) + Alnums(b)
  {
    if a != [] {
      assert (a + b)[0] == a[0];
      assert (a + b)[1..] == a[1..] + b;
      AlnumsConcat(a[1..], b);
    } else {
      assert a + b == b;
    }
  }

  lemma {:induction false} AlnumsOfNone(s: string)
    requires forall i :: 0 <= i < |s| ==> !IsAlnum(s[i])
    ensures Alnums(s) == []
  {
    if s != [] { AlnumsOfNone(s[1..]); }
  }

  lemma LowerConcat(a: string, b: string)
    ensures Lower(a + b) == Lower(a) + Lower(b)
  {
    assert forall i :: 0 <= i < |a + b| ==> Lower(a + b)[i] == (Lower(a) + Lower(b))[i];
  }

  lemma {:induction false} AlnumsOfLower(s: string)
    ensures Alnums(Lower(s)) == Lower(Alnums(s))
  {
    if s != [] {
      assert Lower(s)[0] == ToLower(s[0]);
      assert Lower(s)[1..] == Lower(s[1..]);
      AlnumsOfLower(s[1..]);
      var head := if IsAlnum(s[0]) then [s[0]] else [];
      LowerConcat(head, Alnums(s[1..]));
    }
  }

  lemma {:induction false} AlnumsOfRemoveUnkept(s: string)
    ensures Alnums(RemoveUnkept(s)) == Alnums(s)
  {
    if s != [] {
      AlnumsOfRemoveUnkept(s[1..]);
      AlnumsConcat(if IsKept(s[0]) then [s[0]] else [], RemoveUnkept(s[1..]));
    }
  }

  /** Dropping a prefix that holds no letter or digit keeps the letters and digits. */
  lemma AlnumsOfDrop(s: string, k: nat)
    requires k <= |s|
    requires forall i :: 0 <= i < k ==> !IsAlnum(s[i])
    ensures Alnums(s[k..]) == Alnums(s)
  {
    assert s == s[..k] + s[k..];
    AlnumsConcat(s[..k], s[k..]);
    AlnumsOfNone(s[..k]);
  }

  lemma AlnumsOfStrip(s: string, cs: set<char>)
    requires forall c :: c in cs ==> !IsAlnum(c)
    ensures Alnums(Strip(s, cs)) == Alnums(s)
  {
    var l := LStrip(s, cs);
    AlnumsOfDrop(s, LeadingIn(s, cs));
    var r := RStrip(l, cs);
    assert l == r + l[|r|..];
    AlnumsConcat(r, l[|r|..]);
    AlnumsOfNone(l[|r|..]);
  }

  lemma {:induction false} AlnumsOfReplaceRuns(s: string, cs: set<char>)
    requires forall c :: c in cs ==> !IsAlnum(c)
    ensures Alnums(ReplaceRuns(s, cs)) == Alnums(s)
    decreases |s|
  {
    if s != [] {
      if s[0] in cs {
        var rest := s[1..];
        var k := LeadingIn(rest, cs);
        var t := rest[k..];
        assert Alnums(s) == Alnums(rest);
        AlnumsOfDrop(rest, k);
        AlnumsOfReplaceRuns(t, cs);
        AlnumsConcat("-", ReplaceRuns(t, cs));
      } else {
        AlnumsOfReplaceRuns(s[1..], cs);
        AlnumsConcat([s[0]], ReplaceRuns(s[1..], cs));
      }
    }
  }

  lemma NoAlnumIn()
    ensures forall c :: c in WhiteSpace ==> !IsAlnum(c)
    ensures forall c :: c in Separators ==> !IsAlnum(c)
    ensures forall c :: c in Hyphen ==> !IsAlnum(c)
  {
  }

  /** Why the result keeps the title's letters and digits, lower-cased and in order. */
  lemma AlnumsOfName(title: string, lowered: string, cleaned: string, stripped: string,
                     kebab: string, collapsed: string, name: string)
    requires lowered == Lower(title)
    requires cleaned == RemoveUnkept(lowered)
    requires stripped == Strip(cleaned, WhiteSpace)
    requires kebab == ReplaceRuns(stripped, Separators)
    requires collapsed == ReplaceRuns(kebab, Hyphen)
    requires name == Strip(collapsed, Hyphen)
    ensures Alnums(name) == Lower(Alnums(title))
  {
    AlnumsOfLower(title);
    AlnumsOfRemoveUnkept(lowered);
    NoAlnumIn();
    AlnumsOfStrip(cleaned, WhiteSpace);
    AlnumsOfReplaceRuns(stripped, Separators);
    AlnumsOfReplaceRuns(kebab, Hyphen);
    AlnumsOfStrip(collapsed, Hyphen);
  }

  // ---- a branch name is left alone: idempotence ---------------------------------------------

  lemma {:induction false} RemoveUnkeptKeepsBranchName(s: string)
    requires AllBranchChars(s)
    ensures RemoveUnkept(s) == s
  {
    if s != [] {
      assert AllBranchChars(s[1..]);
      RemoveUnkeptKeepsBranchName(s[1..]);
    }
  }

  /** Text without a character of `cs` passes a run replacement unchanged. */
  lemma {:induction false} RunsUntouched(s: string, cs: set<char>)
    requires forall i :: 0 <= i < |s| ==> s[i] !in cs
    ensures ReplaceRuns(s, cs) == s
  {
    if s != [] {
      RunsUntouched(s[1..], cs);
    }
  }

  lemma {:induction false} HyphenRunsKeepSingleHyphens(s: string)
    requires NoDoubleHyphen(s)
    ensures ReplaceRuns(s, Hyphen) == s
  {
    if s != [] {
      assert NoDoubleHyphen(s[1..]);
      if s[0] == '-' {
        assert LStrip(s[1..], Hyphen) == s[1..];
      }
      HyphenRunsKeepSingleHyphens(s[1..]);
    }
  }

  lemma LowerKeepsBranchName(s: string)
    requires AllBranchChars(s)
    ensures Lower(s) == s
  {
    assert forall i :: 0 <= i < |s| ==> Lower(s)[i] == s[i];
  }

  lemma StripKeepsBranchName(s: string)
    requires IsBranchName(s)
    ensures Strip(s, WhiteSpace) == s
    ensures Strip(s, Hyphen) == s
  {
    assert forall i :: 0 <= i < |s| ==> s[i] !in WhiteSpace;
    assert LStrip(s, Hyphen) == s;
    assert RStrip(s, Hyphen) == s;
  }

  /** A string that already has the shape of a branch name is its own branch name. */
  lemma BranchNameFixed(s: string)
    requires IsBranchName(s)
    ensures TitleToBranchName(s) == s
  {
    LowerKeepsBranchName(s);
    RemoveUnkeptKeepsBranchName(s);
    StripKeepsBranchName(s);
    NoAlnumIn();
    assert '-' !in Separators;
    RunsUntouched(s, Separators);
    HyphenRunsKeepSingleHyphens(s);
    assert TitleToBranchName(s)
        == Strip(ReplaceRuns(ReplaceRuns(Strip(RemoveUnkept(Lower(s)), WhiteSpace), Separators), Hyphen), Hyphen);
  }

  /** Applying the conversion to its own output changes nothing. */
  lemma BranchNameIdempotent(title: string)
    ensures TitleToBranchName(TitleToBranchName(title)) == TitleToBranchName(title)
  {
    BranchNameFixed(TitleToBranchName(title));
  }

  /** A string has no letter or digit exactly when `Alnums` finds none. */
  lemma {:induction false} AlnumsEmpty(s: string)
    ensures Alnums(s) == [] <==> forall i :: 0 <= i < |s| ==> !IsAlnum(s[i])
  {
    if s != [] {
      AlnumsEmpty(s[1..]);
      assert forall i :: 1 <= i < |s| ==> s[i] == s[1..][i - 1];
    }
  }

  /** A non-empty branch name starts with a letter or a digit. */
  lemma BranchNameHasAlnum(s: string)
    requires IsBranchName(s) && s != []
    ensures Alnums(s) != []
  {
    assert IsAlnum(s[0]);
  }

  /** The result is empty exactly when the title holds no ASCII letter or digit. */
  lemma EmptyExactlyWithoutAlnums(title: string)
    ensures TitleToBranchName(title) == [] <==> forall i :: 0 <= i < |title| ==> !IsAlnum(title[i])
  {
    var name := TitleToBranchName(title);
    AlnumsEmpty(title);
    if name != [] {
      BranchNameHasAlnum(name);
    }
    assert |Lower(Alnums(title))| == |Alnums(title)|;
  }

  // ---- where the hyphens go: titles made of words ------------------------------------------

  /** A word: a non-empty run of ASCII letters and digits. */
  predicate IsWord(w: string) { w != [] && forall i :: 0 <= i < |w| ==> IsAlnum(w[i]) }

  /** What may stand between words: anything but an ASCII letter or digit. */
  predicate IsGap(g: string) { forall i :: 0 <= i < |g| ==> !IsAlnum(g[i]) }

  /** A gap that keeps two words apart: it holds a whitespace, `_` or `-`, which the first
      step keeps. A gap of other characters only vanishes, and the words run together. */
  predicate IsBreak(g: string) { IsGap(g) && exists i :: 0 <= i < |g| && IsKept(g[i]) }

  /** The characters of `[\s_-]`. */
  const Dashes: set<char> := Separators + Hyphen

  /** `words[0] + gaps[0] + words[1] + … + gaps[n-2] + words[n-1]`. */
  function Weave(words: seq<string>, gaps: seq<string>): string
    requires |words| >= 1 && |gaps| == |words| - 1
    decreases |words|
  {
    if |words| == 1 then words[0] else words[0] + gaps[0] + Weave(words[1..], gaps[1..])
  }

  function LowerAll(words: seq<string>): (r: seq<string>)
    ensures |r| == |words|
    ensures forall k :: 0 <= k < |words| ==> r[k] == Lower(words[k])
  {
    seq(|words|, k requires 0 <= k < |words| => Lower(words[k]))
  }

  function CleanAll(gaps: seq<string>): (r: seq<string>)
    ensures |r| == |gaps|
    ensures forall k :: 0 <= k < |gaps| ==> r[k] == RemoveUnkept(gaps[k])
  {
    seq(|gaps|, k requires 0 <= k < |gaps| => RemoveUnkept(gaps[k]))
  }

  function RunsAll(gaps: seq<string>, cs: set<char>): (r: seq<string>)
    ensures |r| == |gaps|
    ensures forall k :: 0 <= k < |gaps| ==> r[k] == ReplaceRuns(gaps[k], cs)
  {
    seq(|gaps|, k requires 0 <= k < |gaps| => ReplaceRuns(gaps[k], cs))
  }

  lemma LowerWords(words: seq<string>)
    requires forall k :: 0 <= k < |words| ==> IsWord(words[k])
    ensures forall k :: 0 <= k < |words| ==> IsWord(LowerAll(words)[k])
  {
  }

  /** Woven words start and end with a letter or a digit. */
  lemma {:induction false} WeaveEnds(words: seq<string>, gaps: seq<string>)
    requires |words| >= 1 && |gaps| == |words| - 1
    requires forall k :: 0 <= k < |words| ==> IsWord(words[k])
    ensures Weave(words, gaps) != []
    ensures IsAlnum(Weave(words, gaps)[0])
    ensures IsAlnum(Weave(words, gaps)[|Weave(words, gaps)| - 1])
  {
    if |words| > 1 {
      WeaveEnds(words[1..], gaps[1..]);
      assert Weave(words, gaps) == words[0] + gaps[0] + Weave(words[1..], gaps[1..]);
    }
  }

  /** Words joined by one-hyphen gaps are the words joined with `-`. */
  lemma {:induction false} WeaveHyphens(words: seq<string>, gaps: seq<string>)
    requires |words| >= 1 && |gaps| == |words| - 1
    requires forall k :: 0 <= k < |gaps| ==> gaps[k] == "-"
    ensures Weave(words, gaps) == Join(words, '-')
  {
    if |words| > 1 {
      WeaveHyphens(words[1..], gaps[1..]);
    }
  }

  // Lower-casing.

  lemma {:induction false} LowerGap(g: string)
    requires IsGap(g)
    ensures Lower(g) == g
  {
    assert forall i :: 0 <= i < |g| ==> Lower(g)[i] == g[i];
  }

  lemma {:induction false} LowerWeave(words: seq<string>, gaps: seq<string>)
    requires |words| >= 1 && |gaps| == |words| - 1
    requires forall k :: 0 <= k < |gaps| ==> IsGap(gaps[k])
    ensures Lower(Weave(words, gaps)) == Weave(LowerAll(words), gaps)
  {
    if |words| > 1 {
      var rest := Weave(words[1..], gaps[1..]);
      LowerConcat(words[0] + gaps[0], rest);
      LowerConcat(words[0], gaps[0]);
      LowerGap(gaps[0]);
      LowerWeave(words[1..], gaps[1..]);
      assert LowerAll(words)[1..] == LowerAll(words[1..]);
    }
  }

  // The first step.

  lemma {:induction false} RemoveUnkeptConcat(a: string, b: string)
    ensures RemoveUnkept(a + b) == RemoveUnkept(a) + RemoveUnkept(b)
  {
    if a == [] {
      assert a + b == b;
    } else {
      var ab := a + b;
      assert ab[0] == a[0] && ab[1..] == a[1..] + b;
      RemoveUnkeptConcat(a[1..], b);
      var head := if IsKept(a[0]) then [a[0]] else [];
      assert RemoveUnkept(ab) == head + RemoveUnkept(a[1..] + b);
      assert RemoveUnkept(a) == head + RemoveUnkept(a[1..]);
    }
  }

  lemma {:induction false} RemoveUnkeptAllKept(s: string)
    requires forall i :: 0 <= i < |s| ==> IsKept(s[i])
    ensures RemoveUnkept(s) == s
  {
    if s != [] {
      RemoveUnkeptAllKept(s[1..]);
    }
  }

  /** What the first step leaves of a gap is made of `[\s_-]`, and a break leaves something. */
  lemma {:induction false} CleanGap(g: string)
    requires IsGap(g)
    ensures AllIn(RemoveUnkept(g), Dashes)
    ensures IsBreak(g) ==> RemoveUnkept(g) != []
  {
    if g != [] {
      CleanGap(g[1..]);
      if IsBreak(g) && !IsKept(g[0]) {
        var i :| 0 <= i < |g| && IsKept(g[i]);
        assert IsKept(g[1..][i - 1]);
      }
    }
  }

  lemma {:induction false} CleanWeave(words: seq<string>, gaps: seq<string>)
    requires |words| >= 1 && |gaps| == |words| - 1
    requires forall k :: 0 <= k < |words| ==> IsWord(words[k])
    ensures RemoveUnkept(Weave(words, gaps)) == Weave(words, CleanAll(gaps))
  {
    RemoveUnkeptAllKept(words[0]);
    if |words| > 1 {
      var rest := Weave(words[1..], gaps[1..]);
      RemoveUnkeptConcat(words[0] + gaps[0], rest);
      RemoveUnkeptConcat(words[0], gaps[0]);
      CleanWeave(words[1..], gaps[1..]);
      assert CleanAll(gaps)[1..] == CleanAll(gaps[1..]);
    }
  }

  // The run replacements.

  /** A run replacement splits over a concatenation whose seam is not inside a run. */
  lemma {:induction false} RunsConcat(x: string, y: string, cs: set<char>)
    requires x == [] || y == [] || x[|x| - 1] !in cs || y[0] !in cs
    ensures ReplaceRuns(x + y, cs) == ReplaceRuns(x, cs) + ReplaceRuns(y, cs)
    decreases |x|
  {
    if x == [] {
      assert x + y == y;
    } else {
      assert (x + y)[0] == x[0] && (x + y)[1..] == x[1..] + y;
      if x[0] in cs {
        var tail := x[1..];
        if AllIn(tail, cs) {
          LStripPast(tail, y, cs);
          StripAllIn(tail, cs);
          if y != [] {
            assert LeadingIn(y, cs) == 0;
          }
          assert LStrip(y, cs) == y;
        } else {
          var t := LStrip(tail, cs);
          LStripConcat(tail, y, cs);
          assert t[|t| - 1] == x[|x| - 1];
          RunsConcat(t, y, cs);
        }
      } else {
        RunsConcat(x[1..], y, cs);
      }
    }
  }

  /** Around a middle that starts and ends outside `cs`, a run replacement works part by part. */
  lemma {:induction false} RunsAround(a: string, w: string, c: string, cs: set<char>)
    requires w != [] && w[0] !in cs && w[|w| - 1] !in cs
    ensures ReplaceRuns(a + w + c, cs) == ReplaceRuns(a, cs) + ReplaceRuns(w, cs) + ReplaceRuns(c, cs)
  {
    assert a + w + c == a + (w + c);
    RunsConcat(w, c, cs);
    RunsConcat(a, w + c, cs);
  }

  lemma {:induction false} RunsWeave(words: seq<string>, gaps: seq<string>, cs: set<char>)
    requires |words| >= 1 && |gaps| == |words| - 1
    requires forall k :: 0 <= k < |words| ==> IsWord(words[k])
    requires forall c :: c in cs ==> !IsAlnum(c)
    ensures ReplaceRuns(Weave(words, gaps), cs) == Weave(words, RunsAll(gaps, cs))
  {
    RunsUntouched(words[0], cs);
    if |words| > 1 {
      var rest := Weave(words[1..], gaps[1..]);
      WeaveEnds(words[1..], gaps[1..]);
      assert words[0] + gaps[0] + rest == words[0] + (gaps[0] + rest);
      RunsConcat(words[0], gaps[0] + rest, cs);
      RunsConcat(gaps[0], rest, cs);
      RunsWeave(words[1..], gaps[1..], cs);
      assert RunsAll(gaps, cs)[1..] == RunsAll(gaps[1..], cs);
    }
  }

  /** `[\s_]+` turns text of `[\s_-]` into hyphens only, and leaves something of something. */
  lemma {:induction false} SeparatorRunsOfDashes(g: string)
    requires AllIn(g, Dashes)
    ensures AllIn(ReplaceRuns(g, Separators), Hyphen)
    ensures g != [] ==> ReplaceRuns(g, Separators) != []
    decreases |g|
  {
    if g != [] {
      if g[0] in Separators {
        var t := LStrip(g[1..], Separators);
        assert forall i :: 0 <= i < |t| ==> t[i] == g[1..][LeadingIn(g[1..], Separators) + i];
        SeparatorRunsOfDashes(t);
      } else {
        SeparatorRunsOfDashes(g[1..]);
      }
    }
  }

  /** `-+` turns a non-empty run of hyphens into one hyphen. */
  lemma {:induction false} HyphenRunsOfHyphens(g: string)
    requires AllIn(g, Hyphen)
    ensures ReplaceRuns(g, Hyphen) == if g == [] then [] else "-"
  {
    if g != [] {
      StripAllIn(g[1..], Hyphen);
    }
  }

  /** A break between words ends as a single hyphen. */
  lemma {:induction false} BreakBecomesHyphen(g: string)
    requires IsBreak(g)
    ensures ReplaceRuns(ReplaceRuns(RemoveUnkept(g), Separators), Hyphen) == "-"
  {
    CleanGap(g);
    SeparatorRunsOfDashes(RemoveUnkept(g));
    HyphenRunsOfHyphens(ReplaceRuns(RemoveUnkept(g), Separators));
  }

  /** The gap before the first word or after the last ends as hyphens only. */
  /** Stripping whitespace from text of `[\s_-]` leaves text of `[\s_-]`. */
  lemma StripsKeepDashes(c: string)
    requires AllIn(c, Dashes)
    ensures AllIn(LStrip(c, WhiteSpace), Dashes) && AllIn(RStrip(c, WhiteSpace), Dashes)
  {
    assert forall i :: 0 <= i < |LStrip(c, WhiteSpace)| ==> LStrip(c, WhiteSpace)[i] == c[LeadingIn(c, WhiteSpace) + i];
    assert forall i :: 0 <= i < |RStrip(c, WhiteSpace)| ==> RStrip(c, WhiteSpace)[i] == c[i];
  }

  lemma {:induction false} EndBecomesHyphens(g: string, x: string)
    requires IsGap(g)
    requires x == LStrip(RemoveUnkept(g), WhiteSpace) || x == RStrip(RemoveUnkept(g), WhiteSpace)
    ensures AllIn(ReplaceRuns(ReplaceRuns(x, Separators), Hyphen), Hyphen)
  {
    CleanGap(g);
    StripsKeepDashes(RemoveUnkept(g));
    SeparatorRunsOfDashes(x);
    HyphenRunsOfHyphens(ReplaceRuns(x, Separators));
  }

  // The result.

  /** The first three steps on words with gaps: capitals lowered, gaps reduced to `[\s_-]`,
      whitespace stripped from the two ends. */
  lemma {:induction false} FirstSteps(lead: string, words: seq<string>, gaps: seq<string>, trail: string)
    requires |words| >= 1 && |gaps| == |words| - 1
    requires forall k :: 0 <= k < |words| ==> IsWord(words[k])
    requires forall k :: 0 <= k < |gaps| ==> IsGap(gaps[k])
    requires IsGap(lead) && IsGap(trail)
    ensures Strip(RemoveUnkept(Lower(lead + Weave(words, gaps) + trail)), WhiteSpace)
      == LStrip(RemoveUnkept(lead), WhiteSpace) + Weave(LowerAll(words), CleanAll(gaps))
         + RStrip(RemoveUnkept(trail), WhiteSpace)
  {
    var lw := LowerAll(words);
    var w := Weave(words, gaps);
    LowerConcat(lead + w, trail);
    LowerConcat(lead, w);
    LowerGap(lead);
    LowerGap(trail);
    LowerWeave(words, gaps);
    LowerWords(words);
    var w1 := Weave(lw, gaps);
    RemoveUnkeptConcat(lead + w1, trail);
    RemoveUnkeptConcat(lead, w1);
    CleanWeave(lw, gaps);
    var w2 := Weave(lw, CleanAll(gaps));
    WeaveEnds(lw, CleanAll(gaps));
    NoAlnumIn();
    StripAround(RemoveUnkept(lead), w2, RemoveUnkept(trail), WhiteSpace);
  }

  /** `[\s_]+` on words with gaps works gap by gap. */
  lemma {:induction false} SeparatorStep(l: string, words: seq<string>, gaps: seq<string>, t: string)
    requires |words| >= 1 && |gaps| == |words| - 1
    requires forall k :: 0 <= k < |words| ==> IsWord(words[k])
    ensures ReplaceRuns(l + Weave(words, gaps) + t, Separators)
      == ReplaceRuns(l, Separators) + Weave(words, RunsAll(gaps, Separators)) + ReplaceRuns(t, Separators)
  {
    NoAlnumIn();
    WeaveEnds(words, gaps);
    RunsAround(l, Weave(words, gaps), t, Separators);
    RunsWeave(words, gaps, Separators);
  }

  /** `-+` on words with hyphen gaps: each gap becomes one hyphen. */
  lemma {:induction false} HyphenRuns(l: string, words: seq<string>, gaps: seq<string>, t: string)
    requires |words| >= 1 && |gaps| == |words| - 1
    requires forall k :: 0 <= k < |words| ==> IsWord(words[k])
    requires forall k :: 0 <= k < |gaps| ==> ReplaceRuns(gaps[k], Hyphen) == "-"
    ensures ReplaceRuns(l + Weave(words, gaps) + t, Hyphen)
      == ReplaceRuns(l, Hyphen) + Join(words, '-') + ReplaceRuns(t, Hyphen)
  {
    NoAlnumIn();
    WeaveEnds(words, gaps);
    RunsAround(l, Weave(words, gaps), t, Hyphen);
    RunsWeave(words, gaps, Hyphen);
    WeaveHyphens(words, RunsAll(gaps, Hyphen));
  }

  /** The final strip leaves the words joined by hyphens. */
  lemma {:induction false} HyphenStrip(l: string, words: seq<string>, t: string)
    requires words != [] && forall k :: 0 <= k < |words| ==> IsWord(words[k])
    requires AllIn(l, Hyphen) && AllIn(t, Hyphen)
    ensures Strip(l + Join(words, '-') + t, Hyphen) == Join(words, '-')
  {
    NoAlnumIn();
    JoinEnds(words, '-');
    var j := Join(words, '-');
    assert IsAlnum(j[0]) && IsAlnum(j[|j| - 1]);
    StripAround(l, j, t, Hyphen);
    StripAllIn(l, Hyphen);
    StripAllIn(t, Hyphen);
  }

  /** `-+` and the final strip: each break becomes one hyphen, the ends vanish. */
  lemma {:induction false} HyphenStep(l: string, words: seq<string>, gaps: seq<string>, t: string)
    requires |words| >= 1 && |gaps| == |words| - 1
    requires forall k :: 0 <= k < |words| ==> IsWord(words[k])
    requires forall k :: 0 <= k < |gaps| ==> ReplaceRuns(gaps[k], Hyphen) == "-"
    requires AllIn(ReplaceRuns(l, Hyphen), Hyphen) && AllIn(ReplaceRuns(t, Hyphen), Hyphen)
    ensures Strip(ReplaceRuns(l + Weave(words, gaps) + t, Hyphen), Hyphen) == Join(words, '-')
  {
    HyphenRuns(l, words, gaps, t);
    HyphenStrip(ReplaceRuns(l, Hyphen), words, ReplaceRuns(t, Hyphen));
  }

  /** The last three steps. */
  lemma {:induction false} LastSteps(l: string, words: seq<string>, gaps: seq<string>, t: string)
    requires |words| >= 1 && |gaps| == |words| - 1
    requires forall k :: 0 <= k < |words| ==> IsWord(words[k])
    requires forall k :: 0 <= k < |gaps| ==> ReplaceRuns(ReplaceRuns(gaps[k], Separators), Hyphen) == "-"
    requires AllIn(ReplaceRuns(ReplaceRuns(l, Separators), Hyphen), Hyphen)
    requires AllIn(ReplaceRuns(ReplaceRuns(t, Separators), Hyphen), Hyphen)
    ensures Strip(ReplaceRuns(ReplaceRuns(l + Weave(words, gaps) + t, Separators), Hyphen), Hyphen)
      == Join(words, '-')
  {
    SeparatorStep(l, words, gaps, t);
    HyphenStep(ReplaceRuns(l, Separators), words, RunsAll(gaps, Separators), ReplaceRuns(t, Separators));
  }

  /**
    Where the hyphens go. A title made of words of letters and digits, with any gaps of
    other characters before, between and after them, becomes its lower-cased words joined
    by single hyphens, provided every gap between two words holds a whitespace, `_` or `-`.
   */
  lemma {:induction false} WordsToBranchName(lead: string, words: seq<string>, gaps: seq<string>, trail: string)
    requires |words| >= 1 && |gaps| == |words| - 1
    requires forall k :: 0 <= k < |words| ==> IsWord(words[k])
    requires forall k :: 0 <= k < |gaps| ==> IsBreak(gaps[k])
    requires IsGap(lead) && IsGap(trail)
    ensures TitleToBranchName(lead + Weave(words, gaps) + trail) == Join(LowerAll(words), '-')
  {
    var title := lead + Weave(words, gaps) + trail;
    var lw := LowerAll(words);
    var g2 := CleanAll(gaps);
    var l3 := LStrip(RemoveUnkept(lead), WhiteSpace);
    var t3 := RStrip(RemoveUnkept(trail), WhiteSpace);
    FirstSteps(lead, words, gaps, trail);
    LowerWords(words);
    forall k | 0 <= k < |g2| ensures ReplaceRuns(ReplaceRuns(g2[k], Separators), Hyphen) == "-" {
      BreakBecomesHyphen(gaps[k]);
    }
    EndBecomesHyphens(lead, l3);
    EndBecomesHyphens(trail, t3);
    LastSteps(l3, lw, g2, t3);
    assert TitleToBranchName(title)
        == Strip(ReplaceRuns(ReplaceRuns(Strip(RemoveUnkept(Lower(title)), WhiteSpace), Separators), Hyphen), Hyphen);
  }

  /** The title below, as words and gaps: its first word and gap, then the rest. Each
      literal fact is kept short, since comparing long literal strings is costly. */
  lemma SpacedTitle()
    ensures "  " + Weave(["multiple", "spaces", "and", "underscores"], ["   ", "_", "_"]) + " "
         == "  multiple   spaces_and_underscores "
  {
    var ws: seq<string> := ["multiple", "spaces", "and", "underscores"];
    var gs: seq<string> := ["   ", "_", "_"];
    var rest := Weave(ws[1..], gs[1..]);
    assert ws[1..] == ["spaces", "and", "underscores"] && gs[1..] == ["_", "_"];
    SpacedRight();
    SpacedLeft();
    SpacedHalves();
    calc {
      "  " + Weave(ws, gs) + " ";
      "  " + ("multiple" + "   " + rest) + " ";
      ("  " + "multiple" + "   ") + (rest + " ");
      "  multiple   " + "spaces_and_underscores ";
    }
  }

  lemma SpacedLeft()
    ensures "  " + "multiple" + "   " == "  multiple   "
  {
  }

  lemma SpacedRight()
    ensures Weave(["spaces", "and", "underscores"], ["_", "_"]) + " " == "spaces_and_underscores "
  {
    assert ["spaces", "and", "underscores"][1..] == ["and", "underscores"];
    assert ["_", "_"][1..] == ["_"];
    assert ["and", "underscores"][1..] == ["underscores"];
  }

  lemma SpacedHalves()
    ensures "  multiple   " + "spaces_and_underscores " == "  multiple   spaces_and_underscores "
  {
  }

  /** Lower-casing words without capitals changes nothing. */
  lemma {:induction false} LowerAllUnchanged(words: seq<string>)
    requires forall k :: 0 <= k < |words| ==> NoneUpper(words[k])
    ensures LowerAll(words) == words
  {
    forall k | 0 <= k < |words| ensures Lower(words[k]) == words[k] {
      assert forall i :: 0 <= i < |words[k]| ==> Lower(words[k])[i] == words[k][i];
    }
  }

  /** Its words have no capitals. */
  lemma SpacedLowered()
    ensures LowerAll(["multiple", "spaces", "and", "underscores"]) == ["multiple", "spaces", "and", "underscores"]
  {
    assert NoneUpper("multiple") && NoneUpper("spaces") && NoneUpper("and") && NoneUpper("underscores");
    LowerAllUnchanged(["multiple", "spaces", "and", "underscores"]);
  }

  /** Its branch name, as words. */
  lemma SpacedName()
    ensures Join(["multiple", "spaces", "and", "underscores"], '-') == "multiple-spaces-and-underscores"
  {
  }

  /** Its words and gaps qualify. */
  lemma {:induction false} SpacedParts()
    ensures forall k :: 0 <= k < 4 ==> IsWord(["multiple", "spaces", "and", "underscores"][k])
    ensures forall k :: 0 <= k < 3 ==> IsBreak(["   ", "_", "_"][k])
    ensures IsGap("  ") && IsGap(" ")
  {
    var gaps := ["   ", "_", "_"];
    assert forall k :: 0 <= k < |gaps| ==> IsKept(gaps[k][0]);
  }

  /** Whitespace at the ends is dropped, and every run of spaces or `_` between words
      becomes one hyphen. */
  lemma SpacesAndUnderscoresExample()
    ensures TitleToBranchName("  multiple   spaces_and_underscores ") == "multiple-spaces-and-underscores"
  {
    SpacedTitle();
    SpacedLowered();
    SpacedName();
    SpacedParts();
    WordsToBranchName("  ", ["multiple", "spaces", "and", "underscores"], ["   ", "_", "_"], " ");
  }

  /** `Fix Login Bug!!` as words and gaps: no lead, one space between words, `!!` after. */
  lemma FixLoginBugTitle()
    ensures "" + Weave(["Fix", "Login", "Bug"], [" ", " "]) + "!!" == "Fix Login Bug!!"
  {
  }

  /** Each word with its capital lowered. */
  lemma FixLoginBugLowered()
    ensures LowerAll(["Fix", "Login", "Bug"]) == ["fix", "login", "bug"]
  {
    assert Lower("Fix") == "fix" by {
      assert ToLower('F') == 'f';
    }
    assert Lower("Login") == "login" by {
      assert ToLower('L') == 'l';
    }
    assert Lower("Bug") == "bug" by {
      assert ToLower('B') == 'b';
    }
  }

  /** Its branch name, as words. */
  lemma FixLoginBugName()
    ensures Join(["fix", "login", "bug"], '-') == "fix-login-bug"
  {
  }

  /** Its words and gaps qualify. */
  lemma {:induction false} FixLoginBugParts()
    ensures forall k :: 0 <= k < 3 ==> IsWord(["Fix", "Login", "Bug"][k])
    ensures forall k :: 0 <= k < 2 ==> IsBreak([" ", " "][k])
    ensures IsGap("") && IsGap("!!")
  {
    assert IsKept(" "[0]);
  }

  /** The trailing punctuation is dropped and each space becomes one hyphen. */
  lemma FixLoginBugExample()
    ensures TitleToBranchName("Fix Login Bug!!") == "fix-login-bug"
  {
    FixLoginBugTitle();
    FixLoginBugLowered();
    FixLoginBugName();
    FixLoginBugParts();
    WordsToBranchName("", ["Fix", "Login", "Bug"], [" ", " "], "!!");
  }
}
