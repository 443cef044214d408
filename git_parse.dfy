/**
  Reading what `git` prints: the rows of `git for-each-ref`, the origin URL, and the
  porcelain listing of worktrees.
 */
module GitParse {
  import opened Wrappers
  import opened Text
  import opened Paths

  /** The lines of a command's output, as `stdout.split("\n")`. */
  function Lines(out: string): seq<string>
  {
    Split(out, '\n')
  }

  // ---------------------------------------------------------------- branch rows

  /** A branch and the relative date of its last commit. */
  datatype BranchRow = BranchRow(name: string, lastChange: string)

  /** The row as `--format=%(refname:short)|%(committerdate:relative)` prints it. */
  function RenderRow(row: BranchRow): string
  {
    row.name + "|" + row.lastChange
  }

  /** A line split at its first `|`, or `None` when it has none. */
  function ParseBranchRow(line: string): (r: Option<BranchRow>)
    ensures r.Some? <==> '|' in line
    ensures r.Some? ==> RenderRow(r.value) == line && '|' !in r.value.name
  {
    if '|' in line then
      var k := IndexOf(line, '|');
      assert line == line[..k] + "|" + line[k + 1..];
      Some(BranchRow(line[..k], line[k + 1..]))
    else None
  }

  /** The rows of the table, one per line holding a `|`, in order. */
  function BranchRows(lines: seq<string>): (rows: seq<BranchRow>)
    ensures |rows| <= |lines|
    ensures forall i :: 0 <= i < |rows| ==> '|' !in rows[i].name
    ensures (forall i :: 0 <= i < |lines| ==> '|' !in lines[i]) ==> rows == []
  {
    if lines == [] then []
    else
      (match ParseBranchRow(lines[0]) case Some(row) => [row] case None => [])
      + BranchRows(lines[1..])
  }

  function RenderRows(rows: seq<BranchRow>): (lines: seq<string>)
    ensures |lines| == |rows|
  {
    if rows == [] then [] else [RenderRow(rows[0])] + RenderRows(rows[1..])
  }

  /** The date may hold `|`; the branch name cannot, so a printed row reads back as itself. */
  lemma ParseRenderedRow(row: BranchRow)
    requires '|' !in row.name
    ensures ParseBranchRow(RenderRow(row)) == Some(row)
  {
    PrefixIndex(row.name, "|" + row.lastChange, '|');
    assert RenderRow(row) == row.name + ("|" + row.lastChange);
  }

  /** Reading the printed rows back gives every row, in order. */
  lemma {:induction false} BranchRowsRoundTrip(rows: seq<BranchRow>)
    requires forall i :: 0 <= i < |rows| ==> '|' !in rows[i].name
    ensures BranchRows(RenderRows(rows)) == rows
  {
    if rows != [] {
      ParseRenderedRow(rows[0]);
      assert RenderRows(rows)[1..] == RenderRows(rows[1..]);
      BranchRowsRoundTrip(rows[1..]);
    }
  }

  /** Lines without `|` never reach the table. */
  lemma BranchRowsSkipLine(line: string, lines: seq<string>)
    requires '|' !in line
    ensures BranchRows([line] + lines) == BranchRows(lines)
  {
    assert ([line] + lines)[1..] == lines;
  }

  /** What the `branch` command shows for the reply to its `for-each-ref`. */
  datatype BranchListing = ListingFailed(code: int) | NoBranches | Branches(rows: seq<BranchRow>)

  function ListBranches(code: int, out: string): (r: BranchListing)
    ensures code != 0 <==> r == ListingFailed(code)
    ensures r == NoBranches <==> code == 0 && !HasContent(out)
    ensures r.Branches? ==> r.rows == BranchRows(Lines(Strip(out, WhiteSpace)))
  {
    if code != 0 then ListingFailed(code)
    else if !HasContent(out) then NoBranches
    else Branches(BranchRows(Lines(Strip(out, WhiteSpace))))
  }

  // ---------------------------------------------------------------- repository name

  /** The characters `rstrip(".git")` removes: it takes its argument as a set. */
  const GitSuffixChars: set<char> := {'.', 'g', 'i', 't'}

  /** `get_repo_name` as written: strips every trailing '.', 'g', 'i' or 't' from the URL. */
  function RepoNameAsWritten(code: int, out: string, cwdName: string): (name: string)
    ensures code != 0 || out == [] ==> name == cwdName
    ensures code == 0 && out != [] ==> '/' !in name && (name == [] || name[|name| - 1] !in GitSuffixChars)
  {
    if code == 0 && out != [] then LastSegment(RStrip(out, GitSuffixChars), '/')
    else cwdName
  }

  /** `get_repo_name` as intended: the last path segment of the URL without a `.git` suffix. */
  function RepoName(code: int, out: string, cwdName: string): (name: string)
    ensures code != 0 || out == [] ==> name == cwdName
    ensures code == 0 && out != [] ==> '/' !in name
  {
    if code == 0 && out != [] then LastSegment(RemoveSuffix(out, ".git"), '/')
    else cwdName
  }

  lemma LastSegmentAfter(a: string, sep: char, b: string)
    requires sep !in b
    ensures LastSegment(a + [sep] + b, sep) == b
  {
    var s := a + [sep] + b;
    var r := LastSegment(s, sep);
    assert s[|s| - |b| - 1] == sep;
    assert |r| == |b|;
    assert s[|s| - |b|..] == b;
  }

  lemma RemoveGitSuffix(bare: string)
    ensures RemoveSuffix(bare + ".git", ".git") == bare
  {
    var url := bare + ".git";
    assert url[|url| - 4..] == ".git";
  }

  /** The intended name is the repository's own, with or without `.git` on the URL. */
  lemma RepoNameOfUrl(prefix: string, name: string, cwdName: string)
    requires '/' !in name
    ensures RepoName(0, prefix + "/" + name + ".git", cwdName) == name
    ensures !EndsWith(name, ".git") ==> RepoName(0, prefix + "/" + name, cwdName) == name
  {
    var bare := prefix + "/" + name;
    assert LastSegment(bare, '/') == name by {
      LastSegmentAfter(prefix, '/', name);
    }
    assert RemoveSuffix(bare + ".git", ".git") == bare by {
      RemoveGitSuffix(bare);
    }
    if !EndsWith(name, ".git") {
      assert RemoveSuffix(bare, ".git") == bare;
    }
  }

  /** The repository `ghg` comes out as `gh`: the `g` left before `.git` is stripped too. */
  lemma RepoNameAsWrittenLosesLetters(prefix: string, cwdName: string)
    ensures RepoNameAsWritten(0, prefix + "/" + "ghg" + ".git", cwdName) == "gh"
    ensures RepoName(0, prefix + "/" + "ghg" + ".git", cwdName) == "ghg"
  {
    assert RStrip(prefix + "/" + "ghg" + ".git", GitSuffixChars) == prefix + "/" + "gh" by {
      RStripGhg(prefix);
    }
    assert LastSegment(prefix + "/" + "gh", '/') == "gh" by {
      LastSegmentAfter(prefix, '/', "gh");
    }
    RepoNameOfUrl(prefix, "ghg", cwdName);
  }

  lemma RStripGhg(prefix: string)
    ensures RStrip(prefix + "/" + "ghg" + ".git", GitSuffixChars) == prefix + "/" + "gh"
  {
    var url := prefix + "/" + "ghg" + ".git";
    var r := RStrip(url, GitSuffixChars);
    var n := |prefix|;
    assert url[n + 2] == 'h';
    assert url[..n + 3] == prefix + "/" + "gh";
  }

  // ---------------------------------------------------------------- worktree listing

  /** A line of `git worktree list --porcelain` that opens a worktree's record. */
  predicate IsWorktreeLine(line: string)
  {
    StartsWith(line, "worktree ")
  }

  /** A line of the porcelain listing naming the record's branch. */
  predicate IsBranchLine(line: string)
  {
    StartsWith(line, "branch ")
  }

  /** The path of a worktree line, what follows its first space. */
  function WorktreeOf(line: string): Path
    requires IsWorktreeLine(line)
  {
    ParsePath(line[|"worktree "|..])
  }

  /** `get_main_worktree`: the first worktree of the listing, or `cwd` when the listing
      failed, was empty or named none. */
  method MainWorktree(code: int, out: string, cwd: Path) returns (main: Path)
    ensures code != 0 || out == [] || (forall i :: 0 <= i < |Lines(out)| ==> !IsWorktreeLine(Lines(out)[i]))
      ==> main == cwd
    ensures code == 0 && out != [] && (exists i :: 0 <= i < |Lines(out)| && IsWorktreeLine(Lines(out)[i]))
      ==> exists i :: 0 <= i < |Lines(out)| && IsWorktreeLine(Lines(out)[i])
            && (forall j :: 0 <= j < i ==> !IsWorktreeLine(Lines(out)[j]))
            && main == WorktreeOf(Lines(out)[i])
  {
    if code == 0 && out != [] {
      var lines := Lines(out);
      for i := 0 to |lines|
        invariant forall j :: 0 <= j < i ==> !IsWorktreeLine(lines[j])
      {
        if IsWorktreeLine(lines[i]) {
          return WorktreeOf(lines[i]);
        }
      }
    }
    return cwd;
  }

  /** Some worktree line comes before line `k`: line `k` lies inside a record. */
  predicate InRecord(lines: seq<string>, k: nat)
    requires k <= |lines|
  {
    exists j :: 0 <= j < k && IsWorktreeLine(lines[j])
  }

  /** The worktree whose record line `k` belongs to: the last worktree line before it. */
  function CurrentWorktree(lines: seq<string>, k: nat): (r: Option<Path>)
    requires k <= |lines|
    ensures r.None? <==> !InRecord(lines, k)
  {
    if k == 0 then None
    else if IsWorktreeLine(lines[k - 1]) then Some(WorktreeOf(lines[k - 1]))
    else CurrentWorktree(lines, k - 1)
  }

  /** Line `i` names `branch` (by its last `/`-segment) inside some worktree's record. */
  predicate MatchesAt(lines: seq<string>, i: nat, branch: string)
    requires i < |lines|
  {
    !IsWorktreeLine(lines[i]) && IsBranchLine(lines[i])
    && InRecord(lines, i) && LastSegment(lines[i], '/') == branch
  }

  /** The first line from `from` on that names `branch` inside a record. */
  function FirstMatch(lines: seq<string>, branch: string, from: nat): (r: Option<nat>)
    requires from <= |lines|
    ensures r.None? <==> forall i :: from <= i < |lines| ==> !MatchesAt(lines, i, branch)
    ensures r.Some? ==>
      from <= r.value < |lines| && MatchesAt(lines, r.value, branch)
      && forall j :: from <= j < r.value ==> !MatchesAt(lines, j, branch)
    decreases |lines| - from
  {
    if from == |lines| then None
    else if MatchesAt(lines, from, branch) then Some(from)
    else FirstMatch(lines, branch, from + 1)
  }

  /** A branch name holding `/` never matches: only the last segment of a ref is compared. */
  lemma {:induction false} NestedBranchNeverMatches(lines: seq<string>, branch: string, from: nat)
    requires '/' in branch && from <= |lines|
    ensures FirstMatch(lines, branch, from) == None
    decreases |lines| - from
  {
    if from < |lines| {
      assert !MatchesAt(lines, from, branch) by {
        assert '/' !in LastSegment(lines[from], '/');
      }
      NestedBranchNeverMatches(lines, branch, from + 1);
    }
  }

  /** `find_worktree_by_branch`: the worktree of the first branch line that names `branch`. */
  method FindWorktreeByBranch(code: int, out: string, branch: string) returns (found: Option<Path>)
    ensures code != 0 ==> found == None
    ensures code == 0 ==> found == match FirstMatch(Lines(out), branch, 0)
      case None => None
      case Some(i) => CurrentWorktree(Lines(out), i)
  {
    if code != 0 {
      return None;
    }
    var lines := Lines(out);
    var current: Option<Path> := None;
    for k := 0 to |lines|
      invariant current == CurrentWorktree(lines, k)
      invariant FirstMatch(lines, branch, k) == FirstMatch(lines, branch, 0)
    {
      var line := lines[k];
      assert CurrentWorktree(lines, k + 1) == if IsWorktreeLine(line) then Some(WorktreeOf(line)) else current;
      if IsWorktreeLine(line) {
        current := Some(WorktreeOf(line));
      } else if IsBranchLine(line) && current.Some? {
        if LastSegment(line, '/') == branch {
          assert MatchesAt(lines, k, branch);
          return current;
        }
      }
      assert !MatchesAt(lines, k, branch);
    }
    return None;
  }
}
