/**
  POSIX paths as `pathlib.Path` sees them: a path is absolute or not and has a list of
  parts; building a path from text drops empty and "." parts, and `str` joins them back.
 */
module Paths {
  import opened Text

  datatype Path = Path(absolute: bool, parts: seq<string>)

  /** A part `pathlib` keeps: non-empty, not ".", no '/'. */
  predicate ValidPart(p: string) { p != [] && p != "." && '/' !in p }

  predicate IsNormal(p: Path) { forall i :: 0 <= i < |p.parts| ==> ValidPart(p.parts[i]) }

  /** The segments of a split path that `pathlib` keeps. */
  function KeptParts(segments: seq<string>): (r: seq<string>)
    requires forall i :: 0 <= i < |segments| ==> '/' !in segments[i]
    ensures forall i :: 0 <= i < |r| ==> ValidPart(r[i])
    ensures (forall i :: 0 <= i < |segments| ==> ValidPart(segments[i])) ==> r == segments
  {
    if segments == [] then []
    else (if segments[0] in {"", "."} then [] else [segments[0]]) + KeptParts(segments[1..])
  }

  /** `Path(s)`. */
  function ParsePath(s: string): (p: Path)
    ensures IsNormal(p)
    ensures p.absolute <==> StartsWith(s, "/")
  {
    Path(|s| > 0 && s[0] == '/', KeptParts(Split(s, '/')))
  }

  /** `str(p)`: parts joined by '/', with a leading '/' when absolute; "." for the empty relative path. */
  function PathString(p: Path): string
  {
    if p.absolute then "/" + Join(p.parts, '/')
    else if p.parts == [] then "."
    else Join(p.parts, '/')
  }

  /** `p.parent`: the path without its last part; the root and "." are their own parents. */
  function Parent(p: Path): (q: Path)
    ensures q.absolute == p.absolute
    ensures p.parts != [] ==> q.parts + [p.parts[|p.parts| - 1]] == p.parts
    ensures p.parts == [] ==> q == p
    ensures IsNormal(p) ==> IsNormal(q)
  {
    if p.parts == [] then p else Path(p.absolute, p.parts[..|p.parts| - 1])
  }

  /** `p.name`: the last part, or "" when there is none. */
  function Name(p: Path): (n: string)
    ensures p.parts != [] ==> n == p.parts[|p.parts| - 1]
    ensures p.parts == [] ==> n == []
  {
    if p.parts == [] then [] else p.parts[|p.parts| - 1]
  }

  /** `p / s`: the parts of `s` appended, unless `s` is absolute, which replaces `p`. */
  function Append(p: Path, s: string): (q: Path)
    ensures !StartsWith(s, "/") ==> q == Path(p.absolute, p.parts + ParsePath(s).parts)
    ensures StartsWith(s, "/") ==> q == ParsePath(s)
  {
    var t := ParsePath(s);
    if t.absolute then t else Path(p.absolute, p.parts + t.parts)
  }

  /** A single valid part reads as a one-part relative path. */
  lemma ParseOnePart(name: string)
    requires ValidPart(name)
    ensures ParsePath(name) == Path(false, [name])
  {
    assert Split(name, '/') == [name];
  }

  /** Appending one valid part gives a child: its parent is where it was appended and its
      name is that part. */
  lemma AppendOnePart(p: Path, name: string)
    requires ValidPart(name)
    ensures Append(p, name) == Path(p.absolute, p.parts + [name])
    ensures Parent(Append(p, name)) == p
    ensures Name(Append(p, name)) == name
  {
    ParseOnePart(name);
    assert (p.parts + [name])[..|p.parts|] == p.parts;
  }

  /** Reading back the text of a normal path gives the same path. */
  lemma ParsePathString(p: Path)
    requires IsNormal(p)
    ensures ParsePath(PathString(p)) == p
  {
    if p.parts == [] {
      if p.absolute {
        assert PathString(p) == "/";
        assert Split("/", '/') == ["", ""] by {
          assert IndexOf("/", '/') == 0;
          assert Split([], '/') == [[]];
        }
      } else {
        assert Split(".", '/') == ["."];
      }
    } else {
      var body := Join(p.parts, '/');
      SplitJoin(p.parts, '/');
      if p.absolute {
        var s := "/" + body;
        assert IndexOf(s, '/') == 0;
        assert s[1..] == body;
        assert Split(s, '/') == [""] + p.parts;
        assert KeptParts([""] + p.parts) == KeptParts(p.parts);
      } else {
        assert p.parts[0] != [] && p.parts[0][0] != '/';
        JoinEnds(p.parts, '/');
      }
    }
  }

  /** The text of a normal path is never empty. */
  lemma PathStringNonEmpty(p: Path)
    requires IsNormal(p)
    ensures PathString(p) != []
  {
    if !p.absolute && p.parts != [] {
      JoinEnds(p.parts, '/');
    }
  }

  /** Two valid parts joined by '/' read as a two-part relative path. */
  lemma ParseTwoParts(first: string, second: string)
    requires ValidPart(first) && ValidPart(second)
    ensures ParsePath(first + "/" + second) == Path(false, [first, second])
  {
    SplitJoin([first, second], '/');
    assert Join([first, second], '/') == first + "/" + second;
    assert (first + "/" + second)[0] == first[0];
  }

  lemma {:induction false} KeptPartsLength(segments: seq<string>)
    requires forall i :: 0 <= i < |segments| ==> '/' !in segments[i]
    ensures |KeptParts(segments)| <= |segments|
  {
    if segments != [] {
      KeptPartsLength(segments[1..]);
    }
  }

  /** An absolute path read from text has no more parts than the text has '/'s. */
  lemma ParsedPartsBound(s: string)
    requires StartsWith(s, "/")
    ensures |ParsePath(s).parts| <= Occurrences(s, '/')
  {
    assert s[0] == '/';
    assert IndexOf(s, '/') == 0;
    var rest := Split(s[1..], '/');
    assert Split(s, '/') == [""] + rest;
    assert KeptParts([""] + rest) == KeptParts(rest);
    KeptPartsLength(rest);
    SplitCount(s[1..], '/');
  }

  /** The first token of a line that starts with `/` and has whitespace after `x` ends
      within `x`, so the path it names has no more parts than `x` has '/'s. */
  lemma {:induction false} TokenPartsBound(x: string, rest: string)
    requires StartsWith(x, "/")
    requires rest != [] && rest[0] in WhiteSpace
    ensures FirstToken(x + rest).Some?
    ensures |ParsePath(FirstToken(x + rest).value).parts| <= Occurrences(x, '/')
  {
    var line := x + rest;
    assert line[0] == '/';
    assert LStrip(line, WhiteSpace) == line;
    var tok := TakeUntil(line, WhiteSpace);
    assert FirstToken(line).value == tok;
    assert line[|x|] == rest[0];
    assert |tok| <= |x|;
    assert x == tok + x[|tok|..];
    OccurrencesConcat(tok, x[|tok|..], '/');
    assert tok[..1] == "/";
    ParsedPartsBound(tok);
  }

  /** Lengthening the last part of a path lengthens its text by the same characters. */
  lemma PathStringExtendLast(absolute: bool, parts: seq<string>, x: string, w: string)
    ensures PathString(Path(absolute, parts + [x + w])) == PathString(Path(absolute, parts + [x])) + w
  {
    JoinExtendLast(parts, x, w, '/');
  }
}
