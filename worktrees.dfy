/**
  The `wt` commands: a worktree for branch `b` of repository `r` lives in the sibling
  directory `r-b` of the main worktree; `wt list` shows only the main worktree and such
  siblings.
 */
module Worktrees {
  import opened Wrappers
  import opened Text
  import opened Paths
  import opened Runner
  import opened GitParse

  /** `main_worktree.parent / f"{repo_name}-{branch}"`. */
  function WorktreePath(main: Path, repo: string, branch: string): Path
  {
    Append(Parent(main), repo + "-" + branch)
  }

  /** A symbolic link placed at `at`, pointing to `target`. */
  datatype Symlink = Symlink(at: Path, target: Path)

  /** The new worktree's `.envrc`, linked to `../<repo>/.envrc`. */
  function EnvrcLink(worktree: Path, repo: string): Symlink
  {
    Symlink(Append(worktree, ".envrc"), Append(Append(ParsePath(".."), repo), ".envrc"))
  }

  /**
    `wt create`: refuses outside a repository and when the directory exists, issuing no
    `git worktree add`; otherwise runs one `git worktree add`, with `-b` exactly when a new
    branch is asked for, and links `.envrc` when the main worktree has one. `onDisk` is the
    filesystem as the command finds it; `envrcCheckedOut` says that after the add the new
    worktree already holds an `.envrc` (a tracked one that git checked out). Then
    `symlink_to` raises `FileExistsError` and the command ends with exit status 1, the
    worktree created but nothing linked.
   */
  method WtCreate(isRepo: bool, repo: string, main: Path, branch: string, newBranch: bool,
                  onDisk: Path -> bool, envrcCheckedOut: bool, o: Oracle)
    returns (exit: int, trace: seq<Command>, link: Option<Symlink>)
    ensures !isRepo || onDisk(WorktreePath(main, repo, branch)) ==>
      exit == 1 && trace == [] && link == None
    ensures isRepo && !onDisk(WorktreePath(main, repo, branch)) ==>
      trace == [WorktreeAdd(PathString(WorktreePath(main, repo, branch)), branch, newBranch)]
    ensures exit == 0 || exit == 1
    ensures exit == 0 <==>
      && isRepo && !onDisk(WorktreePath(main, repo, branch)) && AllSucceeded(o, trace)
      && !(onDisk(Append(main, ".envrc")) && envrcCheckedOut)
    ensures link.Some? <==> exit == 0 && onDisk(Append(main, ".envrc"))
    ensures link.Some? ==> link.value == EnvrcLink(WorktreePath(main, repo, branch), repo)
  {
    trace := [];
    link := None;
    if !isRepo {
      return 1, trace, link;
    }
    var worktree := WorktreePath(main, repo, branch);
    if onDisk(worktree) {
      return 1, trace, link;
    }
    var cmd := WorktreeAdd(PathString(worktree), branch, newBranch);
    var reply;
    reply, trace := Exec(o, trace, cmd);
    if reply.code != 0 {
      assert o(0, trace[0]).code != 0;
      return 1, trace, link;
    }
    if onDisk(Append(main, ".envrc")) {
      if envrcCheckedOut {
        return 1, trace, link;
      }
      link := Some(EnvrcLink(worktree, repo));
    }
    return 0, trace, link;
  }

  /** For plain names the worktree is a sibling of the main worktree, named `repo-branch`. */
  lemma WorktreeIsSibling(main: Path, repo: string, branch: string)
    requires '/' !in repo && '/' !in branch
    ensures Parent(WorktreePath(main, repo, branch)) == Parent(main)
    ensures Name(WorktreePath(main, repo, branch)) == repo + "-" + branch
  {
    var name := repo + "-" + branch;
    assert name[|repo|] == '-';
    AppendOnePart(Parent(main), name);
  }

  // ---------------------------------------------------------------- wt list

  /** The main worktree itself, or a sibling of it whose name starts with `repo-`. */
  predicate IsManaged(p: Path, repo: string, main: Path)
  {
    p == main || (Parent(p) == Parent(main) && StartsWith(Name(p), repo + "-"))
  }

  /** Whether `wt list` keeps a non-empty line: by the path in its first field; `None`
      where `line.split()[0]` raises, on a line of whitespace only. */
  function KeepLine(line: string, repo: string, main: Path): (r: Option<bool>)
    ensures r.None? <==> forall i :: 0 <= i < |line| ==> line[i] in WhiteSpace
  {
    match FirstToken(line)
    case None => None
    case Some(tok) => Some(IsManaged(ParsePath(tok), repo, main))
  }

  /** A filter over lines that skips empty lines, keeps a line when `keep` says so, and
      crashes (`None`) on the first line for which `keep` has no answer. */
  function KeptBy(lines: seq<string>, keep: string -> Option<bool>): (r: Option<seq<string>>)
    ensures r.Some? ==> |r.value| <= |lines|
  {
    if lines == [] then Some([])
    else
      var init := KeptBy(lines[..|lines| - 1], keep);
      var line := lines[|lines| - 1];
      if init.None? then None
      else if line == [] then init
      else match keep(line)
        case None => None
        case Some(k) => if k then Some(init.value + [line]) else init
  }

  /** The filter crashes exactly when some non-empty line has no answer. */
  lemma {:induction false} KeptByCrash(lines: seq<string>, keep: string -> Option<bool>)
    ensures KeptBy(lines, keep).None? <==>
      exists i :: 0 <= i < |lines| && lines[i] != [] && keep(lines[i]).None?
  {
    if lines != [] {
      var init := lines[..|lines| - 1];
      var last := lines[|lines| - 1];
      KeptByCrash(init, keep);
      assert KeptBy(lines, keep).None? <==>
        KeptBy(init, keep).None? || (last != [] && keep(last).None?);
      assert forall i :: 0 <= i < |init| ==> init[i] == lines[i];
    }
  }

  /** When it does not crash, the filter keeps exactly the non-empty lines `keep` accepts. */
  lemma {:induction false} KeptByMembers(lines: seq<string>, keep: string -> Option<bool>)
    requires KeptBy(lines, keep).Some?
    ensures forall x :: x in KeptBy(lines, keep).value <==>
      x in lines && x != [] && keep(x) == Some(true)
  {
    if lines != [] {
      var init := lines[..|lines| - 1];
      var line := lines[|lines| - 1];
      assert lines == init + [line];
      KeptByMembers(init, keep);
      forall x ensures x in lines <==> x in init || x == line {
      }
    }
  }

  /** The positions of the non-empty lines that `keep` accepts, in increasing order. */
  function KeptPositions(lines: seq<string>, keep: string -> Option<bool>): seq<nat>
  {
    if lines == [] then []
    else
      var last := |lines| - 1;
      KeptPositions(lines[..last], keep)
        + (if lines[last] != [] && keep(lines[last]) == Some(true) then [last] else [])
  }

  /** The filter keeps the lines in their order: what it shows is the input at a strictly
      increasing sequence of positions, and those positions are exactly the ones of the
      non-empty lines `keep` accepts. */
  lemma {:induction false} KeptByOrder(lines: seq<string>, keep: string -> Option<bool>)
    requires KeptBy(lines, keep).Some?
    ensures var kept, idx := KeptBy(lines, keep).value, KeptPositions(lines, keep);
      && |idx| == |kept|
      && (forall i :: 0 <= i < |idx| ==> idx[i] < |lines| && kept[i] == lines[idx[i]])
      && (forall i, j :: 0 <= i < j < |idx| ==> idx[i] < idx[j])
      && (forall p :: 0 <= p < |lines| ==> (p in idx <==> lines[p] != [] && keep(lines[p]) == Some(true)))
  {
    KeptAtPositions(lines, keep);
    PositionsIncrease(lines, keep);
    PositionsAccepted(lines, keep);
  }

  /** The kept lines are the lines at the kept positions. */
  lemma {:induction false} KeptAtPositions(lines: seq<string>, keep: string -> Option<bool>)
    requires KeptBy(lines, keep).Some?
    ensures var kept, idx := KeptBy(lines, keep).value, KeptPositions(lines, keep);
      && |idx| == |kept|
      && (forall i :: 0 <= i < |idx| ==> idx[i] < |lines| && kept[i] == lines[idx[i]])
  {
    if lines != [] {
      var last := |lines| - 1;
      var init := lines[..last];
      KeptAtPositions(init, keep);
      assert forall p :: 0 <= p < last ==> init[p] == lines[p];
    }
  }

  /** The kept positions increase strictly and lie below `|lines|`. */
  lemma {:induction false} PositionsIncrease(lines: seq<string>, keep: string -> Option<bool>)
    ensures forall i :: 0 <= i < |KeptPositions(lines, keep)| ==> KeptPositions(lines, keep)[i] < |lines|
    ensures forall i, j :: 0 <= i < j < |KeptPositions(lines, keep)| ==>
      KeptPositions(lines, keep)[i] < KeptPositions(lines, keep)[j]
  {
    if lines != [] {
      var last := |lines| - 1;
      var front := KeptPositions(lines[..last], keep);
      PositionsIncrease(lines[..last], keep);
      var extra: seq<nat> := if lines[last] != [] && keep(lines[last]) == Some(true) then [last] else [];
      var idx := front + extra;
      assert KeptPositions(lines, keep) == idx;
      assert forall i :: 0 <= i < |front| ==> idx[i] == front[i] && front[i] < last;
      assert forall i :: |front| <= i < |idx| ==> idx[i] == last;
    }
  }

  /** A position is kept exactly when its line is non-empty and accepted. */
  lemma {:induction false} PositionsAccepted(lines: seq<string>, keep: string -> Option<bool>)
    ensures forall p :: 0 <= p < |lines| ==>
      (p in KeptPositions(lines, keep) <==> lines[p] != [] && keep(lines[p]) == Some(true))
  {
    if lines != [] {
      var last := |lines| - 1;
      var init := lines[..last];
      var front := KeptPositions(init, keep);
      PositionsAccepted(init, keep);
      PositionsIncrease(init, keep);
      assert forall p :: 0 <= p < last ==> init[p] == lines[p];
      var extra: seq<nat> := if lines[last] != [] && keep(lines[last]) == Some(true) then [last] else [];
      assert KeptPositions(lines, keep) == front + extra;
      assert last !in front by {
        assert forall i :: 0 <= i < |front| ==> front[i] < last;
      }
      forall p | 0 <= p < |lines|
        ensures p in KeptPositions(lines, keep) <==> lines[p] != [] && keep(lines[p]) == Some(true)
      {
        assert p in front + extra <==> p in front || p in extra;
        if p < last {
          assert p !in extra;
        }
      }
    }
  }

  /** The rule of `wt list` for one line. */
  function ManagedRule(repo: string, main: Path): string -> Option<bool>
  {
    line => KeepLine(line, repo, main)
  }

  /** The lines `wt list` shows, in order; `None` when one of them makes it crash. */
  function KeptLines(lines: seq<string>, repo: string, main: Path): Option<seq<string>>
  {
    KeptBy(lines, ManagedRule(repo, main))
  }

  /** A line that makes the filter crash: not empty, but nothing besides whitespace. */
  predicate Crashes(line: string, repo: string, main: Path)
  {
    line != [] && KeepLine(line, repo, main).None?
  }

  /** `wt list` crashes exactly when some line is whitespace only. */
  lemma KeptLinesCrash(lines: seq<string>, repo: string, main: Path)
    ensures KeptLines(lines, repo, main).None? <==>
      exists i :: 0 <= i < |lines| && Crashes(lines[i], repo, main)
  {
    KeptByCrash(lines, ManagedRule(repo, main));
  }

  /** When it does not crash, `wt list` shows exactly the lines of managed worktrees. */
  lemma KeptLinesMembers(lines: seq<string>, repo: string, main: Path)
    requires KeptLines(lines, repo, main).Some?
    ensures forall x :: x in KeptLines(lines, repo, main).value <==>
      x in lines && x != [] && KeepLine(x, repo, main) == Some(true)
  {
    KeptByMembers(lines, ManagedRule(repo, main));
  }

  /** The loop of `wt list` that collects the lines to show. */
  method FilterManaged(lines: seq<string>, repo: string, main: Path) returns (kept: Option<seq<string>>)
    ensures kept == KeptLines(lines, repo, main)
  {
    var acc: seq<string> := [];
    for i := 0 to |lines|
      invariant KeptLines(lines[..i], repo, main) == Some(acc)
    {
      var line := lines[i];
      assert lines[..i + 1][..i] == lines[..i];
      if line == [] {
        continue;
      }
      var tok := FirstToken(line);
      if tok.None? {
        KeptLinesCrash(lines, repo, main);
        return None;
      }
      var worktree := ParsePath(tok.value);
      var isMain := worktree == main;
      var isGhgManaged := Parent(worktree) == Parent(main) && StartsWith(Name(worktree), repo + "-");
      if isMain || isGhgManaged {
        acc := acc + [line];
      }
    }
    assert lines[..|lines|] == lines;
    return Some(acc);
  }

  /** What `wt list` shows. */
  datatype Listing =
    | NotARepo
    | ListFailed
    | NoWorktrees
    | Echo(text: string)
    | Managed(lines: seq<string>)
    | NoneManaged
    | Crashed

  /** `wt list` given the reply to `git worktree list`, the repository name and the main
      worktree. The reply's stdout is already trimmed, so the source's second strip before
      splitting leaves it as it is (`Runner.StripTrimmed`). */
  method WtList(isRepo: bool, all: bool, reply: Reply, repo: string, main: Path) returns (shown: Listing)
    ensures !isRepo ==> shown == NotARepo
    ensures isRepo && reply.code != 0 ==> shown == ListFailed
    ensures isRepo && reply.code == 0 && reply.stdout == [] ==> shown == NoWorktrees
    ensures isRepo && reply.code == 0 && reply.stdout != [] && all ==> shown == Echo(reply.stdout)
    ensures isRepo && reply.code == 0 && reply.stdout != [] && !all ==>
      shown == match KeptLines(Lines(reply.stdout), repo, main)
        case None => Crashed
        case Some(kept) => if kept == [] then NoneManaged else Managed(kept)
  {
    if !isRepo {
      return NotARepo;
    }
    if reply.code != 0 {
      return ListFailed;
    }
    var stdout := reply.stdout;
    if stdout == [] {
      return NoWorktrees;
    }
    if all {
      return Echo(stdout);
    }
    StripTrimmed(stdout);
    var kept := FilterManaged(Lines(Strip(stdout, WhiteSpace)), repo, main);
    if kept.None? {
      return Crashed;
    }
    if kept.value == [] {
      return NoneManaged;
    }
    return Managed(kept.value);
  }

  /** The worktree `wt create` makes for a plain branch name is a normal path that passes
      the test of `wt list`. */
  lemma {:induction false} CreatedWorktreeIsManaged(main: Path, repo: string, branch: string)
    requires IsNormal(main) && '/' !in repo && '/' !in branch
    ensures IsNormal(WorktreePath(main, repo, branch))
    ensures IsManaged(WorktreePath(main, repo, branch), repo, main)
  {
    var name := repo + "-" + branch;
    assert name[|repo|] == '-';
    AppendOnePart(Parent(main), name);
    WorktreeIsSibling(main, repo, branch);
    assert name[..|repo + "-"|] == repo + "-";
  }

  /** A worktree `wt create` made for a plain branch name is listed by `wt list`, whatever
      follows its path on the line. */
  lemma CreatedWorktreeIsListed(main: Path, repo: string, branch: string, rest: string)
    requires IsNormal(main) && '/' !in repo && '/' !in branch
    requires forall i :: 0 <= i < |PathString(WorktreePath(main, repo, branch))| ==>
      PathString(WorktreePath(main, repo, branch))[i] !in WhiteSpace
    requires rest == [] || rest[0] in WhiteSpace
    ensures KeepLine(PathString(WorktreePath(main, repo, branch)) + rest, repo, main) == Some(true)
  {
    var w := WorktreePath(main, repo, branch);
    CreatedWorktreeIsManaged(main, repo, branch);
    ParsePathString(w);
    PathStringNonEmpty(w);
    FirstTokenOfLine(PathString(w), rest);
  }

  /** A path with fewer parts than the main worktree is neither the main worktree nor a
      sibling of it. */
  lemma ShortPathIsHidden(p: Path, repo: string, main: Path)
    requires |p.parts| < |main.parts|
    ensures !IsManaged(p, repo, main)
  {
    if p.parts == [] {
      assert !StartsWith(Name(p), repo + "-");
    }
  }

  /** The text of a path below the directory `parts[j]`, with that directory's name cut at
      `k`: what comes before the cut has `j + 1` '/'s. */
  lemma {:induction false} CutText(parts: seq<string>, j: nat, k: nat)
    requires forall i :: 0 <= i < |parts| ==> '/' !in parts[i]
    requires j < |parts| - 1 && k < |parts[j]|
    ensures var head := "/" + Join(parts[..j] + [parts[j][..k]], '/');
      && PathString(Path(true, parts)) == head + parts[j][k..] + "/" + Join(parts[j + 1..], '/')
      && Occurrences(head, '/') == j + 1
  {
    var d := parts[j];
    var front := parts[..j] + [d[..k]];
    assert d[..k] + d[k..] == d;
    assert parts == (parts[..j] + [d]) + parts[j + 1..];
    JoinAppend(parts[..j] + [d[..k] + d[k..]], parts[j + 1..], '/');
    JoinExtendLast(parts[..j], d[..k], d[k..], '/');
    assert forall i :: 0 <= i < k ==> d[..k][i] == d[i];
    assert forall i :: 0 <= i < |front| ==> '/' !in front[i];
    JoinCount(front, '/');
    assert ("/" + Join(front, '/'))[1..] == Join(front, '/');
  }

  /** When the directory `j` levels below the root, above the worktree, has whitespace at
      `k` in its name, `line.split()[0]` ends within that directory, and `wt list` hides
      the line of every path in the directory holding the main worktree. */
  lemma {:induction false} CutAboveIsHidden(main: Path, j: nat, k: nat, b: string, tail: string, repo: string)
    requires IsNormal(main) && ValidPart(b)
    requires j < |main.parts| - 1 && k < |main.parts[j]| && main.parts[j][k] in WhiteSpace
    ensures KeepLine(PathString(Path(true, Parent(main).parts + [b])) + tail, repo, main) == Some(false)
  {
    var parts := Parent(main).parts + [b];
    assert parts[..j] == main.parts[..j] && parts[j] == main.parts[j];
    CutText(parts, j, k);
    var head := "/" + Join(parts[..j] + [parts[j][..k]], '/');
    var rest := parts[j][k..] + "/" + Join(parts[j + 1..], '/') + tail;
    assert PathString(Path(true, parts)) + tail == head + rest;
    assert head[..1] == "/";
    TokenPartsBound(head, rest);
    ShortPathIsHidden(ParsePath(FirstToken(head + rest).value), repo, main);
  }

  /**
    `line.split()[0]` ends a path at its first whitespace. When a directory above the
    worktree, the one holding the main worktree `main` or one further up, has whitespace
    in its name, `wt list` hides the main worktree's own line and the line of every
    worktree `wt create` made beside it. `main` is absolute, as git lists it.
   */
  lemma SpacedPathIsHidden(main: Path, j: nat, k: nat, repo: string, branch: string, tail: string)
    requires main.absolute && IsNormal(main) && '/' !in repo && '/' !in branch
    requires j < |main.parts| - 1 && k < |main.parts[j]| && main.parts[j][k] in WhiteSpace
    ensures KeepLine(PathString(main) + tail, repo, main) == Some(false)
    ensures KeepLine(PathString(WorktreePath(main, repo, branch)) + tail, repo, main) == Some(false)
  {
    var last := main.parts[|main.parts| - 1];
    assert main == Path(true, Parent(main).parts + [last]);
    CutAboveIsHidden(main, j, k, last, tail, repo);
    var name := repo + "-" + branch;
    assert name[|repo|] == '-';
    AppendOnePart(Parent(main), name);
    CutAboveIsHidden(main, j, k, name, tail, repo);
  }

  /** Characters added to a branch name are added to the end of its worktree's text. */
  lemma {:induction false} LongerBranchText(main: Path, repo: string, branch: string, w: string)
    requires '/' !in repo && '/' !in branch && '/' !in w
    ensures PathString(WorktreePath(main, repo, branch + w)) == PathString(WorktreePath(main, repo, branch)) + w
  {
    var name := repo + "-" + branch;
    assert name[|repo|] == '-';
    assert (name + w)[|repo|] == '-';
    assert repo + "-" + (branch + w) == name + w;
    AppendOnePart(Parent(main), name);
    AppendOnePart(Parent(main), name + w);
    PathStringExtendLast(main.absolute, Parent(main).parts, name, w);
  }

  /** Whitespace in the worktree's own name after `repo-` cuts the path within that name:
      `/d/repo-x y` is read as `/d/repo-x`, still a sibling, and `wt list` shows it. */
  lemma SpacedNameIsListed(main: Path, repo: string, branch: string, w: string, tail: string)
    requires IsNormal(main) && '/' !in repo && '/' !in branch && '/' !in w
    requires forall i :: 0 <= i < |PathString(WorktreePath(main, repo, branch))| ==>
      PathString(WorktreePath(main, repo, branch))[i] !in WhiteSpace
    requires w != [] && w[0] in WhiteSpace
    ensures KeepLine(PathString(WorktreePath(main, repo, branch + w)) + tail, repo, main) == Some(true)
  {
    LongerBranchText(main, repo, branch, w);
    var front := PathString(WorktreePath(main, repo, branch));
    assert front + w + tail == front + (w + tail);
    CreatedWorktreeIsListed(main, repo, branch, w + tail);
  }

  /** A branch name `a/b` puts the worktree one level deeper, at `repo-a/b`, where the
      parent check of `wt list` never lets it through. */
  lemma NestedBranchIsHidden(main: Path, repo: string, a: string, b: string)
    requires '/' !in repo && '/' !in a && ValidPart(b)
    ensures WorktreePath(main, repo, a + "/" + b)
      == Path(Parent(main).absolute, Parent(main).parts + [repo + "-" + a, b])
    ensures !IsManaged(WorktreePath(main, repo, a + "/" + b), repo, main)
  {
    var first := repo + "-" + a;
    assert first[|repo|] == '-';
    assert repo + "-" + (a + "/" + b) == first + "/" + b;
    ParseTwoParts(first, b);
    var w := WorktreePath(main, repo, a + "/" + b);
    assert |w.parts| == |Parent(main).parts| + 2;
    assert w != main by {
      if main.parts != [] {
        assert |main.parts| == |Parent(main).parts| + 1;
      }
    }
    assert |Parent(w).parts| == |Parent(main).parts| + 1;
  }
}
