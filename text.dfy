/**
  ASCII character classes and the few Python `str` operations the CLI relies on:
  `lower`/`upper`, `strip`/`lstrip`/`rstrip` with a character set, `split` on one
  separator, `startswith`, `removesuffix` and the first token of `split()`.
 */
module Text {
  import opened Wrappers

  /** Python's whitespace (`str.isspace`, which is also what `\s` matches) restricted to ASCII. */
  const WhiteSpace: set<char> :=
    {' ', '\t', '\n', '\r', '\U{B}', '\U{C}', '\U{1C}', '\U{1D}', '\U{1E}', '\U{1F}'}

  predicate IsUpper(c: char) { 'A' <= c <= 'Z' }
  predicate IsLowerLetter(c: char) { 'a' <= c <= 'z' }
  predicate IsDigit(c: char) { '0' <= c <= '9' }
  predicate IsAlnum(c: char) { IsUpper(c) || IsLowerLetter(c) || IsDigit(c) }
  /** The regular-expression class `\w` over ASCII. */
  predicate IsWordChar(c: char) { IsAlnum(c) || c == '_' }

  function ToLower(c: char): (r: char)
    ensures !IsUpper(r)
    ensures IsAlnum(r) <==> IsAlnum(c)
    ensures !IsUpper(c) ==> r == c
  {
    if IsUpper(c) then (c as int + 32) as char else c
  }

  function ToUpper(c: char): (r: char)
    ensures !IsLowerLetter(r)
    ensures !IsLowerLetter(c) ==> r == c
  {
    if IsLowerLetter(c) then (c as int - 32) as char else c
  }

  /** Python's `s.lower()` over ASCII. */
  function Lower(s: string): (r: string)
    ensures |r| == |s|
    ensures forall i :: 0 <= i < |s| ==> r[i] == ToLower(s[i])
  {
    if s == [] then [] else [ToLower(s[0])] + Lower(s[1..])
  }

  /** Python's `s.upper()` over ASCII. */
  function Upper(s: string): (r: string)
    ensures |r| == |s|
    ensures forall i :: 0 <= i < |s| ==> r[i] == ToUpper(s[i])
  {
    if s == [] then [] else [ToUpper(s[0])] + Upper(s[1..])
  }

  /** How many characters at the front of `s` belong to `cs`. */
  function LeadingIn(s: string, cs: set<char>): (k: nat)
    ensures k <= |s|
    ensures forall i :: 0 <= i < k ==> s[i] in cs
    ensures k < |s| ==> s[k] !in cs
  {
    if s != [] && s[0] in cs then 1 + LeadingIn(s[1..], cs) else 0
  }

  /** How many characters at the end of `s` belong to `cs`. */
  function TrailingIn(s: string, cs: set<char>): (k: nat)
    ensures k <= |s|
    ensures forall i :: |s| - k <= i < |s| ==> s[i] in cs
    ensures k < |s| ==> s[|s| - k - 1] !in cs
  {
    if s != [] && s[|s| - 1] in cs then 1 + TrailingIn(s[..|s| - 1], cs) else 0
  }

  /** Python's `s.lstrip(cs)`: the suffix left after dropping every leading character in `cs`. */
  function LStrip(s: string, cs: set<char>): string
  {
    s[LeadingIn(s, cs)..]
  }

  /** Python's `s.rstrip(cs)`: the prefix left after dropping every trailing character in `cs`. */
  function RStrip(s: string, cs: set<char>): string
  {
    s[..|s| - TrailingIn(s, cs)]
  }

  /** Python's `s.strip(cs)`. */
  function Strip(s: string, cs: set<char>): (r: string)
    ensures r == [] || (r[0] !in cs && r[|r| - 1] !in cs)
    ensures (forall i :: 0 <= i < |s| ==> s[i] !in cs) ==> r == s
  {
    RStrip(LStrip(s, cs), cs)
  }

  /** Text whose two ends lie outside `cs` is its own strip. */
  lemma StripUntouched(s: string, cs: set<char>)
    requires s == [] || (s[0] !in cs && s[|s| - 1] !in cs)
    ensures Strip(s, cs) == s
  {
    assert LStrip(s, cs) == s;
    assert RStrip(s, cs) == s;
  }

  /** Every character of `s` belongs to `cs`. */
  predicate AllIn(s: string, cs: set<char>) { forall i :: 0 <= i < |s| ==> s[i] in cs }

  /** Stripping text made only of `cs` leaves nothing. */
  lemma {:induction false} StripAllIn(s: string, cs: set<char>)
    requires AllIn(s, cs)
    ensures LStrip(s, cs) == [] && RStrip(s, cs) == []
  {
    assert LeadingIn(s, cs) == |s|;
    assert TrailingIn(s, cs) == |s|;
  }

  /** `LeadingIn` is the only count with its two properties. */
  lemma {:induction false} LeadingInUnique(s: string, cs: set<char>, k: nat)
    requires k <= |s| && (forall i :: 0 <= i < k ==> s[i] in cs) && (k < |s| ==> s[k] !in cs)
    ensures LeadingIn(s, cs) == k
  {
  }

  /** `TrailingIn` is the only count with its two properties. */
  lemma {:induction false} TrailingInUnique(s: string, cs: set<char>, k: nat)
    requires k <= |s| && (forall i :: |s| - k <= i < |s| ==> s[i] in cs)
    requires k < |s| ==> s[|s| - k - 1] !in cs
    ensures TrailingIn(s, cs) == k
  {
  }

  /** `lstrip` of a concatenation stays in the first part when that part does not vanish. */
  lemma {:induction false} LStripConcat(a: string, b: string, cs: set<char>)
    requires LeadingIn(a, cs) < |a|
    ensures LStrip(a + b, cs) == LStrip(a, cs) + b
  {
    var k := LeadingIn(a, cs);
    var s := a + b;
    assert forall i :: 0 <= i <= k ==> s[i] == a[i];
    LeadingInUnique(s, cs, k);
    assert s[k..] == a[k..] + b;
  }

  /** A first part made only of `cs` is stripped away whole. */
  lemma {:induction false} LStripPast(a: string, b: string, cs: set<char>)
    requires AllIn(a, cs)
    ensures LStrip(a + b, cs) == LStrip(b, cs)
  {
    var m := LeadingIn(b, cs);
    var s := a + b;
    assert forall i :: 0 <= i < |a| ==> s[i] == a[i];
    assert forall i :: |a| <= i < |s| ==> s[i] == b[i - |a|];
    LeadingInUnique(s, cs, |a| + m);
    assert s[|a| + m..] == b[m..];
  }

  /** `rstrip` of a concatenation stays in the second part unless that part vanishes. */
  lemma {:induction false} RStripConcat(a: string, b: string, cs: set<char>)
    ensures TrailingIn(b, cs) < |b| ==> RStrip(a + b, cs) == a + RStrip(b, cs)
    ensures TrailingIn(b, cs) == |b| ==> RStrip(a + b, cs) == RStrip(a, cs)
  {
    var k := TrailingIn(b, cs);
    var s := a + b;
    if k < |b| {
      assert forall i :: |a| <= i < |s| ==> s[i] == b[i - |a|];
      TrailingInUnique(s, cs, k);
      assert s[..|s| - k] == a + b[..|b| - k];
    } else {
      var m := TrailingIn(a, cs);
      assert forall i :: 0 <= i < |a| ==> s[i] == a[i];
      assert forall i :: |a| <= i < |s| ==> s[i] == b[i - |a|];
      TrailingInUnique(s, cs, |b| + m);
      assert s[..|a| - m] == a[..|a| - m];
    }
  }

  /** In front of a part that starts outside `cs`, `lstrip` works on the first part alone. */
  lemma {:induction false} LStripBefore(a: string, b: string, cs: set<char>)
    requires b != [] && b[0] !in cs
    ensures LStrip(a + b, cs) == LStrip(a, cs) + b
  {
    if LeadingIn(a, cs) < |a| {
      LStripConcat(a, b, cs);
    } else {
      LStripPast(a, b, cs);
      assert LeadingIn(b, cs) == 0;
    }
  }

  /** Behind a part that ends outside `cs`, `rstrip` works on the last part alone. */
  lemma {:induction false} RStripAfter(a: string, b: string, cs: set<char>)
    requires a != [] && a[|a| - 1] !in cs
    ensures RStrip(a + b, cs) == a + RStrip(b, cs)
  {
    RStripConcat(a, b, cs);
    if TrailingIn(b, cs) == |b| {
      assert TrailingIn(a, cs) == 0;
    }
  }

  /** Around a middle whose ends lie outside `cs`, `strip` works on the outer parts alone. */
  lemma {:induction false} StripAround(a: string, b: string, c: string, cs: set<char>)
    requires b != [] && b[0] !in cs && b[|b| - 1] !in cs
    ensures Strip(a + b + c, cs) == LStrip(a, cs) + b + RStrip(c, cs)
  {
    assert a + b + c == a + (b + c);
    LStripBefore(a, b + c, cs);
    var l := LStrip(a, cs) + b;
    assert LStrip(a + b + c, cs) == l + c;
    RStripAfter(l, c, cs);
    assert Strip(a + b + c, cs) == RStrip(l + c, cs);
  }

  /** `bool(s.strip())`: the text holds something besides whitespace. */
  predicate HasContent(s: string) { Strip(s, WhiteSpace) != [] }

  /** Python's `s.startswith(p)`. */
  predicate StartsWith(s: string, p: string) { |p| <= |s| && s[..|p|] == p }

  /** Python's `s.endswith(p)`. */
  predicate EndsWith(s: string, p: string) { |p| <= |s| && s[|s| - |p|..] == p }

  /** Python's `s.removesuffix(p)`. */
  function RemoveSuffix(s: string, p: string): (r: string)
    ensures EndsWith(s, p) ==> r + p == s
    ensures !EndsWith(s, p) ==> r == s
  {
    if EndsWith(s, p) then s[..|s| - |p|] else s
  }

  /** The position of the first `c` in `s`. */
  function IndexOf(s: string, c: char): (k: nat)
    requires c in s
    ensures k < |s| && s[k] == c && c !in s[..k]
  {
    if s[0] == c then 0 else 1 + IndexOf(s[1..], c)
  }

  /** Python's `s.split(sep)` for a one-character separator. */
  function Split(s: string, sep: char): (parts: seq<string>)
    ensures |parts| >= 1
    ensures forall i :: 0 <= i < |parts| ==> sep !in parts[i]
    ensures Join(parts, sep) == s
    decreases |s|
  {
    if sep !in s then [s]
    else
      var k := IndexOf(s, sep);
      var rest := Split(s[k + 1..], sep);
      assert s == s[..k] + [sep] + s[k + 1..];
      [s[..k]] + rest
  }

  /** Python's `sep.join(parts)`. */
  function Join(parts: seq<string>, sep: char): string
  {
    if parts == [] then []
    else if |parts| == 1 then parts[0]
    else parts[0] + [sep] + Join(parts[1..], sep)
  }

  /** Splitting a join gives back the parts, when no part holds the separator. */
  lemma {:induction false} SplitJoin(parts: seq<string>, sep: char)
    requires |parts| >= 1
    requires forall i :: 0 <= i < |parts| ==> sep !in parts[i]
    ensures Split(Join(parts, sep), sep) == parts
  {
    if |parts| > 1 {
      var s := Join(parts, sep);
      assert s == parts[0] + [sep] + Join(parts[1..], sep);
      assert sep !in parts[0];
      assert s == parts[0] + ([sep] + Join(parts[1..], sep));
      PrefixIndex(parts[0], [sep] + Join(parts[1..], sep), sep);
      assert s[|parts[0]| + 1..] == Join(parts[1..], sep);
      SplitJoin(parts[1..], sep);
    }
  }

  lemma PrefixIndex(a: string, b: string, c: char)
    requires c !in a && b != [] && b[0] == c
    ensures c in a + b && IndexOf(a + b, c) == |a|
  {
    assert (a + b)[|a|] == c;
    assert (a + b)[..|a|] == a;
  }

  /** A join of non-empty parts starts with the first part's first character and ends
      with the last part's last character. */
  lemma {:induction false} JoinEnds(parts: seq<string>, sep: char)
    requires parts != [] && forall i :: 0 <= i < |parts| ==> parts[i] != []
    ensures Join(parts, sep) != []
    ensures Join(parts, sep)[0] == parts[0][0]
    ensures Join(parts, sep)[|Join(parts, sep)| - 1] == parts[|parts| - 1][|parts[|parts| - 1]| - 1]
  {
    if |parts| > 1 {
      JoinEnds(parts[1..], sep);
    }
  }

  /** Python's `s.count(c)` for one character. */
  function Occurrences(s: string, c: char): nat
  {
    if s == [] then 0 else (if s[0] == c then 1 else 0) + Occurrences(s[1..], c)
  }

  lemma {:induction false} OccurrencesConcat(a: string, b: string, c: char)
    ensures Occurrences(a + b, c) == Occurrences(a, c) + Occurrences(b, c)
  {
    if a != [] {
      assert (a + b)[1..] == a[1..] + b;
      OccurrencesConcat(a[1..], b, c);
    } else {
      assert a + b == b;
    }
  }

  lemma {:induction false} OccurrencesAbsent(s: string, c: char)
    requires c !in s
    ensures Occurrences(s, c) == 0
  {
    if s != [] {
      assert forall i :: 0 <= i < |s[1..]| ==> s[1..][i] == s[i + 1];
      OccurrencesAbsent(s[1..], c);
    }
  }

  /** `s.split(sep)` has one piece more than `s` has separators. */
  lemma {:induction false} SplitCount(s: string, sep: char)
    ensures |Split(s, sep)| == Occurrences(s, sep) + 1
    decreases |s|
  {
    if sep !in s {
      OccurrencesAbsent(s, sep);
    } else {
      var k := IndexOf(s, sep);
      assert s == s[..k] + ([sep] + s[k + 1..]);
      OccurrencesConcat(s[..k], [sep] + s[k + 1..], sep);
      OccurrencesConcat([sep], s[k + 1..], sep);
      OccurrencesAbsent(s[..k], sep);
      SplitCount(s[k + 1..], sep);
    }
  }

  /** A join of parts free of the separator holds one separator fewer than it has parts. */
  lemma JoinCount(parts: seq<string>, sep: char)
    requires |parts| >= 1
    requires forall i :: 0 <= i < |parts| ==> sep !in parts[i]
    ensures Occurrences(Join(parts, sep), sep) == |parts| - 1
  {
    SplitJoin(parts, sep);
    SplitCount(Join(parts, sep), sep);
  }

  /** Joining two non-empty lists of parts joins their joins. */
  lemma {:induction false} JoinAppend(a: seq<string>, b: seq<string>, sep: char)
    requires a != [] && b != []
    ensures Join(a + b, sep) == Join(a, sep) + [sep] + Join(b, sep)
  {
    if |a| > 1 {
      assert (a + b)[1..] == a[1..] + b;
      JoinAppend(a[1..], b, sep);
    } else {
      assert (a + b)[1..] == b;
    }
  }

  /** Lengthening the last part lengthens the join by the same characters. */
  lemma JoinExtendLast(parts: seq<string>, x: string, w: string, sep: char)
    ensures Join(parts + [x + w], sep) == Join(parts + [x], sep) + w
  {
    if parts != [] {
      JoinAppend(parts, [x + w], sep);
      JoinAppend(parts, [x], sep);
    }
  }

  /** How many characters at the end of `s` differ from `sep`. */
  function TrailingOther(s: string, sep: char): (k: nat)
    ensures k <= |s|
    ensures forall i :: |s| - k <= i < |s| ==> s[i] != sep
    ensures k < |s| ==> s[|s| - k - 1] == sep
  {
    if s != [] && s[|s| - 1] != sep then 1 + TrailingOther(s[..|s| - 1], sep) else 0
  }

  /** Python's `s.split(sep)[-1]`: what follows the last separator, or `s` when there is none. */
  function LastSegment(s: string, sep: char): (r: string)
    ensures sep !in r
    ensures |r| <= |s| && r == s[|s| - |r|..]
    ensures |r| < |s| ==> s[|s| - |r| - 1] == sep
  {
    s[|s| - TrailingOther(s, sep)..]
  }

  /** The longest prefix of `s` holding no character of `cs`. */
  function TakeUntil(s: string, cs: set<char>): (r: string)
    ensures |r| <= |s| && r == s[..|r|]
    ensures forall i :: 0 <= i < |r| ==> r[i] !in cs
    ensures |r| < |s| ==> s[|r|] in cs
  {
    if s == [] || s[0] in cs then [] else [s[0]] + TakeUntil(s[1..], cs)
  }

  /** Python's `s.split()[0]`, or `None` where that raises `IndexError` (no token at all). */
  function FirstToken(s: string): (r: Option<string>)
    ensures r.None? <==> forall i :: 0 <= i < |s| ==> s[i] in WhiteSpace
    ensures r.Some? ==> r.value != [] && forall i :: 0 <= i < |r.value| ==> r.value[i] !in WhiteSpace
  {
    var t := LStrip(s, WhiteSpace);
    if t == [] then None else Some(TakeUntil(t, WhiteSpace))
  }

  /** The token in front of the first whitespace, for a line that starts with a token. */
  lemma FirstTokenOfLine(tok: string, rest: string)
    requires tok != [] && forall i :: 0 <= i < |tok| ==> tok[i] !in WhiteSpace
    requires rest == [] || rest[0] in WhiteSpace
    ensures FirstToken(tok + rest) == Some(tok)
  {
    var s := tok + rest;
    assert LStrip(s, WhiteSpace) == s;
    TakeUntilPrefix(tok, rest);
  }

  lemma {:induction false} TakeUntilPrefix(tok: string, rest: string)
    requires forall i :: 0 <= i < |tok| ==> tok[i] !in WhiteSpace
    requires rest == [] || rest[0] in WhiteSpace
    ensures TakeUntil(tok + rest, WhiteSpace) == tok
  {
    if tok != [] {
      assert (tok + rest)[1..] == tok[1..] + rest;
      TakeUntilPrefix(tok[1..], rest);
    }
  }

  function DigitChar(d: nat): (c: char)
    requires d < 10
    ensures IsDigit(c)
  {
    ('0' as int + d) as char
  }

  /** Python's `str(n)` for a natural number. */
  function NatToString(n: nat): (r: string)
    ensures r != [] && forall i :: 0 <= i < |r| ==> IsDigit(r[i])
  {
    if n < 10 then [DigitChar(n)] else NatToString(n / 10) + [DigitChar(n % 10)]
  }

  /** Python's `str(n)` (an f-string of an int). */
  function IntToString(n: int): string
  {
    if n < 0 then "-" + NatToString(-n) else NatToString(n)
  }
}
