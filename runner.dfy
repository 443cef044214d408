/**
  The commands the tool runs, seen from outside: every command is answered by an oracle
  that stands for `git`/`gh` and the repository they act on, and an operation is
  described by the trace of commands it issued and the exit status it ends with.
 */
module Runner {
  import opened Text

  /** A command line, as the list handed to `subprocess.run`. */
  type Argv = seq<string>

  /** The commands the tool issues. */
  datatype Command =
    | Status
    | StashPush(message: string)
    | StashPop
    | Checkout(branch: string)
    | CheckoutNew(branch: string)
    | PullOrigin(branch: string)
    | RevParseAbbrev
    | AddAll
    | Commit(message: string)
    | RevParseHead
    | RevList(n: int)
    | CherryPick(commit: string)
    | PushUpstream(branch: string)
    | PrCreate(title: string, body: string, merge: bool)
    | PrAddMergeLabel(number: string)
    | PrList(author: string)
    | WorktreeAdd(path: string, branch: string, newBranch: bool)

  /** The command line of each command, as the list handed to `subprocess.run`: every value
      the user or a reply supplies is one argument, never split or quoted. */
  function ArgvOf(c: Command): (argv: Argv)
    ensures |argv| >= 3
    ensures argv[0] == (if c.PrCreate? || c.PrAddMergeLabel? || c.PrList? then "gh" else "git")
    ensures c.Checkout? || c.CheckoutNew? || c.PullOrigin? || c.PushUpstream? ==>
      argv[|argv| - 1] == c.branch
    ensures c.StashPush? || c.Commit? ==> argv[|argv| - 1] == c.message
    ensures c.CherryPick? ==> argv[2] == c.commit
    ensures c.PrCreate? ==>
      |argv| == (if c.merge then 9 else 7) && argv[4] == c.title && argv[6] == c.body
    ensures c.PrAddMergeLabel? ==> |argv| == 6 && argv[3] == c.number
    ensures c.PrList? ==> |argv| == 7 && argv[4] == c.author
    ensures c.WorktreeAdd? ==>
      |argv| == (if c.newBranch then 6 else 5) && argv[3] == c.path && argv[|argv| - 1] == c.branch
  {
    match c
    case Status => ["git", "status", "--porcelain"]
    case StashPush(message) => ["git", "stash", "push", "-m", message]
    case StashPop => ["git", "stash", "pop"]
    case Checkout(branch) => ["git", "checkout", branch]
    case CheckoutNew(branch) => ["git", "checkout", "-b", branch]
    case PullOrigin(branch) => ["git", "pull", "origin", branch]
    case RevParseAbbrev => ["git", "rev-parse", "--abbrev-ref", "HEAD"]
    case AddAll => ["git", "add", "-A"]
    case Commit(message) => ["git", "commit", "-m", message]
    case RevParseHead => ["git", "rev-parse", "HEAD"]
    case RevList(n) => ["git", "rev-list", "--reverse", "HEAD~" + IntToString(n) + "..HEAD"]
    case CherryPick(commit) => ["git", "cherry-pick", commit]
    case PushUpstream(branch) => ["git", "push", "-u", "origin", branch]
    case PrCreate(title, body, merge) =>
      ["gh", "pr", "create", "--title", title, "--body", body] + (if merge then ["--label", "merge"] else [])
    case PrAddMergeLabel(number) => ["gh", "pr", "edit", number, "--add-label", "merge"]
    case PrList(author) =>
      ["gh", "pr", "list", "--author", author, "--json", "number,title,headRefName,statusCheckRollup"]
    case WorktreeAdd(path, branch, newBranch) =>
      ["git", "worktree", "add", path] + (if newBranch then ["-b", branch] else [branch])
  }

  /** Text with no whitespace at either end. */
  predicate IsTrimmed(s: string)
  {
    s == [] || (s[0] !in WhiteSpace && s[|s| - 1] !in WhiteSpace)
  }

  type Trimmed = s: string | IsTrimmed(s) witness ""

  /** What a command reports back through `run_git_command`: its exit code and its stdout,
      stripped of surrounding whitespace. */
  datatype Reply = Reply(code: int, stdout: Trimmed)

  /** The world's answer to the `k`-th command of an operation. */
  type Oracle = (nat, Command) -> Reply

  /** `git worktree add` is handed the path and then the branch, with `-b` in between
      exactly when a new branch is asked for. */
  lemma WorktreeAddArgv(path: string, branch: string, newBranch: bool)
    requires branch != "-b"
    ensures var argv := ArgvOf(WorktreeAdd(path, branch, newBranch));
      && argv[..4] == ["git", "worktree", "add", path]
      && argv[|argv| - 1] == branch
      && ("-b" in argv[4..] <==> newBranch)
  {
  }

  /** Stripping trimmed text again changes nothing, so the source's second `.strip()` on
      an output is the identity, and `bool(out.strip())` is `out != ""`. */
  lemma StripTrimmed(s: string)
    requires IsTrimmed(s)
    ensures Strip(s, WhiteSpace) == s
    ensures HasContent(s) <==> s != []
  {
    StripUntouched(s, WhiteSpace);
  }

  /** Every command of the trace but the last exited with status 0. */
  predicate SucceededBeforeLast(o: Oracle, trace: seq<Command>)
  {
    forall k :: 0 <= k < |trace| - 1 ==> o(k, trace[k]).code == 0
  }

  /** Every command of the trace exited with status 0. */
  predicate AllSucceeded(o: Oracle, trace: seq<Command>)
  {
    forall k :: 0 <= k < |trace| ==> o(k, trace[k]).code == 0
  }

  /** The trace ends with a command that failed. */
  predicate LastFailed(o: Oracle, trace: seq<Command>)
  {
    trace != [] && o(|trace| - 1, trace[|trace| - 1]).code != 0
  }

  /** Runs `c` as the next command of the trace. */
  method Exec(o: Oracle, trace: seq<Command>, c: Command) returns (reply: Reply, trace': seq<Command>)
    ensures trace' == trace + [c]
    ensures reply == o(|trace|, c)
  {
    reply := o(|trace|, c);
    trace' := trace + [c];
  }

  /** Running the next command of a plan keeps the trace a prefix of the plan; the trace
      stays all-successful exactly as long as the new command succeeds. */
  lemma StepInPlan(o: Oracle, plan: seq<Command>, t: seq<Command>, c: Command)
    requires t <= plan && |t| < |plan| && plan[|t|] == c
    requires AllSucceeded(o, t)
    ensures t + [c] <= plan
    ensures SucceededBeforeLast(o, t + [c])
    ensures AllSucceeded(o, t + [c]) <==> o(|t|, c).code == 0
  {
    assert plan[..|t| + 1] == plan[..|t|] + [plan[|t|]];
    assert (t + [c])[|t|] == c;
  }

  /** What a phase of consecutive commands did to the trace: on success it ran all of
      `steps`, on failure it stopped right after the first one that failed; either way the
      trace is still a prefix of the plan. */
  predicate Ran(o: Oracle, plan: seq<Command>, before: seq<Command>, steps: seq<Command>,
                after: seq<Command>, ok: bool)
  {
    after <= plan && SucceededBeforeLast(o, after)
    && (ok ==> after == before + steps && AllSucceeded(o, after))
    && (!ok ==> |before| < |after| <= |before| + |steps| && LastFailed(o, after))
  }

  /** `steps` comes next in the plan after `t`. */
  predicate NextInPlan(plan: seq<Command>, t: seq<Command>, steps: seq<Command>)
  {
    t <= plan && |t| + |steps| <= |plan| && plan[|t|..|t| + |steps|] == steps
  }

  /** When `a + b` comes next in the plan, so does `a`, and `b` follows `a`. */
  lemma NextInPlanSplit(plan: seq<Command>, t: seq<Command>, a: seq<Command>, b: seq<Command>)
    requires NextInPlan(plan, t, a + b)
    ensures NextInPlan(plan, t, a)
    ensures NextInPlan(plan, t + a, b)
  {
    var n := |t|;
    assert plan[n..n + |a|] == (a + b)[..|a|] == a;
    assert plan[n + |a|..n + |a| + |b|] == (a + b)[|a|..] == b;
    assert plan[..n + |a|] == plan[..n] + plan[n..n + |a|];
  }

  /** In the plan `a + b`, after running `a` comes `b`. */
  lemma NextInConcat(a: seq<Command>, b: seq<Command>)
    ensures NextInPlan(a + b, a, b)
  {
    assert (a + b)[..|a|] == a;
    assert (a + b)[|a|..|a| + |b|] == b;
  }
}
