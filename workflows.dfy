/**
  The commands that drive `git` and `gh` step by step: `move`, `cherry` and `merge`. Each
  runs its commands against an oracle, stops at the first command that fails, and ends
  with an exit status.
 */
module Workflows {
  import opened Wrappers
  import opened Text
  import opened Runner
  import opened GitParse
  import opened BranchNamer

  const CheckoutMaster: Command := Checkout("master")
  const PullMaster: Command := PullOrigin("master")

  /** The stash `move` makes is labelled with the target branch. */
  function MoveStash(branch: string): Command { StashPush("gpp move to " + branch) }

  /** The three commands that put a new branch on top of an updated master. */
  function FreshBranchSteps(name: string): seq<Command>
  {
    [CheckoutMaster, PullMaster, CheckoutNew(name)]
  }

  /** Switches to master, pulls it from origin and creates the branch `name` there,
      stopping at the first command that fails. */
  method FreshBranch(o: Oracle, ghost plan: seq<Command>, before: seq<Command>, name: string)
    returns (ok: bool, trace: seq<Command>)
    requires NextInPlan(plan, before, FreshBranchSteps(name)) && AllSucceeded(o, before)
    ensures Ran(o, plan, before, FreshBranchSteps(name), trace, ok)
  {
    ghost var n := |before|;
    assert plan[n] == CheckoutMaster && plan[n + 1] == PullMaster && plan[n + 2] == CheckoutNew(name)
    by {
      assert plan[n..n + 3] == FreshBranchSteps(name);
    }
    var reply;
    StepInPlan(o, plan, before, CheckoutMaster);
    reply, trace := Exec(o, before, CheckoutMaster);
    if reply.code != 0 {
      return false, trace;
    }
    StepInPlan(o, plan, trace, PullMaster);
    reply, trace := Exec(o, trace, PullMaster);
    if reply.code != 0 {
      return false, trace;
    }
    StepInPlan(o, plan, trace, CheckoutNew(name));
    reply, trace := Exec(o, trace, CheckoutNew(name));
    if reply.code != 0 {
      return false, trace;
    }
    return true, trace;
  }

  // ---------------------------------------------------------------- move

  /** `move` stashes exactly when `git status --porcelain` printed something. */
  function MoveStashes(o: Oracle): bool
  {
    o(0, Status).stdout != []
  }

  /** The commands of a `move` that goes through. */
  function MovePlan(branch: string, stashed: bool): seq<Command>
  {
    [Status] + (if stashed then [MoveStash(branch)] else [])
    + FreshBranchSteps(branch)
    + (if stashed then [StashPop] else [])
  }

  /** `move`: a prefix of its plan, cut at the first failing command. The status output is
      already trimmed, so the source's `bool(stdout.strip())` is `stdout != ""`
      (`Runner.StripTrimmed`). */
  method Move(isRepo: bool, branch: string, o: Oracle) returns (exit: int, trace: seq<Command>)
    ensures !isRepo ==> exit == 1 && trace == []
    ensures isRepo ==> trace != [] && trace <= MovePlan(branch, MoveStashes(o))
    ensures SucceededBeforeLast(o, trace)
    ensures exit == 0 || exit == 1
    ensures exit == 0 <==> isRepo && trace == MovePlan(branch, MoveStashes(o)) && AllSucceeded(o, trace)
    ensures isRepo && exit == 1 ==> LastFailed(o, trace)
  {
    trace := [];
    if !isRepo {
      return 1, trace;
    }
    ghost var stashed := MoveStashes(o);
    ghost var plan := MovePlan(branch, stashed);
    ghost var front := [Status] + (if stashed then [MoveStash(branch)] else []);
    assert plan == front + FreshBranchSteps(branch) + (if stashed then [StashPop] else []);
    var reply;
    StepInPlan(o, plan, trace, Status);
    reply, trace := Exec(o, trace, Status);
    if reply.code != 0 {
      return 1, trace;
    }
    var hasChanges := reply.stdout != [];
    var stashCreated := false;
    if hasChanges {
      StepInPlan(o, plan, trace, MoveStash(branch));
      reply, trace := Exec(o, trace, MoveStash(branch));
      if reply.code != 0 {
        return 1, trace;
      }
      stashCreated := true;
    }
    assert trace == front;
    var ok;
    ok, trace := FreshBranch(o, plan, trace, branch);
    if !ok {
      return 1, trace;
    }
    if stashCreated {
      StepInPlan(o, plan, trace, StashPop);
      reply, trace := Exec(o, trace, StashPop);
      if reply.code != 0 {
        return 1, trace;
      }
    }
    return 0, trace;
  }

  /** The stash is popped only in a plan that pushed it first, as its second command, and
      then as the very last command. */
  lemma PopFollowsPush(branch: string, stashed: bool, t: seq<Command>, k: nat)
    requires t <= MovePlan(branch, stashed) && k < |t| && t[k] == StashPop
    ensures stashed && k == 5 && t[1] == MoveStash(branch)
  {
    assert t[k] == MovePlan(branch, stashed)[k];
  }

  /** The new branch is always created from an updated master: checkout, pull, then
      `checkout -b`, in that order, whether or not there was a stash. */
  lemma MovePlanCreatesBranchFromMaster(branch: string, stashed: bool)
    ensures var plan := MovePlan(branch, stashed);
      var i := if stashed then 2 else 1;
      plan[i..i + 3] == [CheckoutMaster, PullMaster, CheckoutNew(branch)]
      && |plan| == i + 3 + (if stashed then 1 else 0)
  {
  }

  // ---------------------------------------------------------------- cherry

  /** The branch `cherry` starts from and returns to. */
  function OriginalBranch(o: Oracle): string
  {
    o(0, RevParseAbbrev).stdout
  }

  /** Whether `cherry` found uncommitted changes. */
  function CherryHasChanges(o: Oracle): bool
  {
    o(1, Status).stdout != []
  }

  /** The number of commits `-n` asks for; 1 without it. */
  function Requested(num: Option<int>): int
  {
    num.GetOr(1)
  }

  /** The hashes printed by `git rev-list`, one per line; none for empty output. */
  function CommitLines(out: Trimmed): seq<string>
  {
    if out != [] then Lines(out) else []
  }

  /** `rev-list` output read back: no hashes for empty output, and otherwise the lines
      whose join with newlines is the output. */
  lemma CommitLinesJoin(out: Trimmed)
    ensures out == [] <==> CommitLines(out) == []
    ensures out != [] ==> Join(CommitLines(out), '\n') == out
    ensures forall i :: 0 <= i < |CommitLines(out)| ==> '\n' !in CommitLines(out)[i]
  {
  }

  /** Whatever hashes `rev-list` prints, one per line, are the commits `cherry` picks. */
  lemma CommitLinesOfListing(hashes: seq<string>)
    requires hashes != [] && Join(hashes, '\n') != []
    requires forall i :: 0 <= i < |hashes| ==> '\n' !in hashes[i]
    requires IsTrimmed(Join(hashes, '\n'))
    ensures CommitLines(Join(hashes, '\n')) == hashes
  {
    SplitJoin(hashes, '\n');
  }

  /** The commits `cherry` picks: the commit it just made, or the ones `rev-list` listed. */
  function CommitsToPick(o: Oracle, num: Option<int>): seq<string>
  {
    if CherryHasChanges(o) then [o(4, RevParseHead).stdout]
    else CommitLines(o(2, RevList(Requested(num))).stdout)
  }

  /** One `git cherry-pick` per commit, in the order given (oldest first). */
  function Picks(commits: seq<string>): (r: seq<Command>)
    ensures |r| == |commits|
    ensures forall i :: 0 <= i < |r| ==> r[i] == CherryPick(commits[i])
  {
    seq(|commits|, i requires 0 <= i < |commits| => CherryPick(commits[i]))
  }

  /** What `cherry` runs to find the commits it picks: the current branch, the status,
      then either a commit of the changes or a `rev-list` of the last `n` commits. */
  function CollectSteps(title: string, changes: bool, n: int): seq<Command>
  {
    [RevParseAbbrev, Status] + (if changes then CommitSteps(title) else [RevList(n)])
  }

  /** Everything `cherry` does after it picks. */
  function PublishSteps(name: string, title: string, merge: bool, prBody: string, original: string): seq<Command>
  {
    [PushUpstream(name), PrCreate(title, prBody, merge), Checkout(original)]
  }

  /** The commands of a `cherry` that goes through, for the branch `name`. */
  function CherryPlan(title: string, name: string, merge: bool, prBody: string, original: string,
                      changes: bool, n: int, commits: seq<string>): seq<Command>
  {
    CollectSteps(title, changes, n) + DeliverSteps(name, commits, title, merge, prBody, original)
  }

  /** The plan of `cherry` for this oracle: the branch is named after the title and the
      pull request body defaults to the title. */
  function CherryPlanFor(title: string, merge: bool, num: Option<int>, body: Option<string>, o: Oracle): seq<Command>
  {
    CherryPlan(title, TitleToBranchName(title), merge, body.GetOr(title), OriginalBranch(o),
               CherryHasChanges(o), Requested(num), CommitsToPick(o, num))
  }

  /** How `cherry` commits uncommitted changes: stage everything, commit under the title,
      read back the new commit's hash. */
  function CommitSteps(title: string): seq<Command>
  {
    [AddAll, Commit(title), RevParseHead]
  }

  /** Commits the changes and returns the hash of the new commit. */
  method CommitChanges(o: Oracle, ghost plan: seq<Command>, before: seq<Command>, title: string)
    returns (ok: bool, hash: string, trace: seq<Command>)
    requires NextInPlan(plan, before, CommitSteps(title)) && AllSucceeded(o, before)
    ensures Ran(o, plan, before, CommitSteps(title), trace, ok)
    ensures ok ==> hash == o(|before| + 2, RevParseHead).stdout
  {
    ghost var n := |before|;
    assert plan[n] == AddAll && plan[n + 1] == Commit(title) && plan[n + 2] == RevParseHead
    by {
      assert plan[n..n + 3] == CommitSteps(title);
    }
    hash := "";
    var reply;
    StepInPlan(o, plan, before, AddAll);
    reply, trace := Exec(o, before, AddAll);
    if reply.code != 0 {
      return false, hash, trace;
    }
    StepInPlan(o, plan, trace, Commit(title));
    reply, trace := Exec(o, trace, Commit(title));
    if reply.code != 0 {
      return false, hash, trace;
    }
    StepInPlan(o, plan, trace, RevParseHead);
    reply, trace := Exec(o, trace, RevParseHead);
    if reply.code != 0 {
      return false, hash, trace;
    }
    return true, reply.stdout, trace;
  }

  /** Why `cherry` stopped short: the last command failed, or one of its two refusals
      applies (`-n` with uncommitted changes, right after the status; a commit count other
      than the one asked for, right after `rev-list`). */
  predicate CherryStopped(o: Oracle, num: Option<int>, trace: seq<Command>)
  {
    || LastFailed(o, trace)
    || (|trace| == 2 && num.Some? && CherryHasChanges(o))
    || (|trace| == 3 && !CherryHasChanges(o) && |CommitsToPick(o, num)| != Requested(num))
  }

  /** The first phase of `cherry`: reads the current branch and the status, refuses `-n`
      with uncommitted changes, then commits those changes or lists the last `n` commits,
      and refuses when fewer (or more) than `n` come back. */
  method CherryCollect(title: string, num: Option<int>, o: Oracle, ghost plan: seq<Command>)
    returns (ok: bool, original: string, changes: bool, commits: seq<string>, trace: seq<Command>)
    requires CollectSteps(title, CherryHasChanges(o), Requested(num)) <= plan
    ensures trace != [] && trace <= plan && SucceededBeforeLast(o, trace)
    ensures ok ==> trace == CollectSteps(title, CherryHasChanges(o), Requested(num)) && AllSucceeded(o, trace)
    ensures ok ==> original == OriginalBranch(o)
    ensures ok ==> changes == CherryHasChanges(o) && commits == CommitsToPick(o, num)
    ensures !ok ==> |trace| <= |CollectSteps(title, CherryHasChanges(o), Requested(num))|
    ensures num.Some? && CherryHasChanges(o) ==> !ok && |trace| <= 2
    ensures !CherryHasChanges(o) && |CommitsToPick(o, num)| != Requested(num) ==> !ok && |trace| <= 3
    ensures !ok ==> CherryStopped(o, num, trace)
  {
    trace := [];
    commits := [];
    original := "";
    changes := false;
    var reply;
    StepInPlan(o, plan, trace, RevParseAbbrev);
    reply, trace := Exec(o, trace, RevParseAbbrev);
    if reply.code != 0 {
      return false, original, changes, commits, trace;
    }
    original := reply.stdout;
    StepInPlan(o, plan, trace, Status);
    reply, trace := Exec(o, trace, Status);
    if reply.code != 0 {
      return false, original, changes, commits, trace;
    }
    changes := reply.stdout != [];
    if num.Some? && changes {
      return false, original, changes, commits, trace;
    }
    if changes {
      assert trace + CommitSteps(title) == CollectSteps(title, true, Requested(num));
      NextInConcat(trace, CommitSteps(title));
      var committed, hash;
      committed, hash, trace := CommitChanges(o, plan, trace, title);
      if !committed {
        return false, original, changes, commits, trace;
      }
      commits := [hash];
    } else {
      var numToGet := if num.Some? then num.value else 1;
      StepInPlan(o, plan, trace, RevList(numToGet));
      reply, trace := Exec(o, trace, RevList(numToGet));
      if reply.code != 0 {
        return false, original, changes, commits, trace;
      }
      commits := CommitLines(reply.stdout);
      if |commits| != numToGet {
        return false, original, changes, commits, trace;
      }
    }
    return true, original, changes, commits, trace;
  }

  /** Cherry-picks the commits in order, stopping at the first pick that fails. */
  method PickAll(o: Oracle, ghost plan: seq<Command>, before: seq<Command>, commits: seq<string>)
    returns (ok: bool, trace: seq<Command>)
    requires NextInPlan(plan, before, Picks(commits)) && AllSucceeded(o, before)
    ensures Ran(o, plan, before, Picks(commits), trace, ok)
  {
    ghost var n := |before|;
    trace := before;
    for k := 0 to |commits|
      invariant trace == before + Picks(commits)[..k]
      invariant AllSucceeded(o, trace)
    {
      assert plan[n + k] == CherryPick(commits[k]) by {
        assert plan[n..n + |commits|][k] == Picks(commits)[k];
      }
      StepInPlan(o, plan, trace, CherryPick(commits[k]));
      var reply;
      reply, trace := Exec(o, trace, CherryPick(commits[k]));
      if reply.code != 0 {
        return false, trace;
      }
      assert Picks(commits)[..k + 1] == Picks(commits)[..k] + [CherryPick(commits[k])];
    }
    assert Picks(commits)[..|commits|] == Picks(commits);
    return true, trace;
  }

  /** The last phase of `cherry`: pushes the branch, opens the pull request and switches
      back. A failing `gh pr create` passes its own exit status on; every other failure
      exits with 1. */
  method Publish(o: Oracle, ghost plan: seq<Command>, before: seq<Command>, name: string,
                 title: string, merge: bool, prBody: string, original: string)
    returns (exit: int, trace: seq<Command>)
    requires NextInPlan(plan, before, PublishSteps(name, title, merge, prBody, original))
    requires AllSucceeded(o, before)
    ensures Ran(o, plan, before, PublishSteps(name, title, merge, prBody, original), trace, exit == 0)
    ensures exit != 0 && exit != 1 ==>
      |trace| == |before| + 2 && exit == o(|before| + 1, PrCreate(title, prBody, merge)).code
    ensures |trace| == |before| + 2 && LastFailed(o, trace) ==>
      exit == o(|before| + 1, PrCreate(title, prBody, merge)).code
  {
    ghost var n := |before|;
    assert plan[n] == PushUpstream(name) && plan[n + 1] == PrCreate(title, prBody, merge)
      && plan[n + 2] == Checkout(original)
    by {
      assert plan[n..n + 3] == PublishSteps(name, title, merge, prBody, original);
    }
    var reply;
    StepInPlan(o, plan, before, PushUpstream(name));
    reply, trace := Exec(o, before, PushUpstream(name));
    if reply.code != 0 {
      return 1, trace;
    }
    var prCmd := PrCreate(title, prBody, merge);
    StepInPlan(o, plan, trace, prCmd);
    reply, trace := Exec(o, trace, prCmd);
    if reply.code != 0 {
      return reply.code, trace;
    }
    StepInPlan(o, plan, trace, Checkout(original));
    reply, trace := Exec(o, trace, Checkout(original));
    if reply.code != 0 {
      return 1, trace;
    }
    return 0, trace;
  }

  /** Everything `cherry` runs once it has the commits: a fresh branch, the picks, then
      the push, the pull request and the switch back. */
  function DeliverSteps(name: string, commits: seq<string>, title: string, merge: bool,
                        prBody: string, original: string): seq<Command>
  {
    FreshBranchSteps(name) + Picks(commits) + PublishSteps(name, title, merge, prBody, original)
  }

  /** The phases of `cherry` after the commits are known, in order, each stopping the
      whole workflow at its first failure. */
  method Deliver(o: Oracle, ghost plan: seq<Command>, before: seq<Command>, name: string,
                 commits: seq<string>, title: string, merge: bool, prBody: string, original: string)
    returns (exit: int, trace: seq<Command>)
    requires NextInPlan(plan, before, DeliverSteps(name, commits, title, merge, prBody, original))
    requires AllSucceeded(o, before)
    ensures Ran(o, plan, before, DeliverSteps(name, commits, title, merge, prBody, original), trace, exit == 0)
    ensures exit != 0 && exit != 1 ==>
      |trace| == |before| + |DeliverSteps(name, commits, title, merge, prBody, original)| - 1
      && exit == o(|trace| - 1, PrCreate(title, prBody, merge)).code
    ensures (|trace| == |before| + |DeliverSteps(name, commits, title, merge, prBody, original)| - 1
             && LastFailed(o, trace)) ==>
      exit == o(|trace| - 1, PrCreate(title, prBody, merge)).code
  {
    ghost var toBranch := FreshBranchSteps(name);
    ghost var picks := Picks(commits);
    ghost var publish := PublishSteps(name, title, merge, prBody, original);
    assert DeliverSteps(name, commits, title, merge, prBody, original) == toBranch + (picks + publish);
    NextInPlanSplit(plan, before, toBranch, picks + publish);
    NextInPlanSplit(plan, before + toBranch, picks, publish);
    var ok;
    ok, trace := FreshBranch(o, plan, before, name);
    if !ok {
      return 1, trace;
    }
    ok, trace := PickAll(o, plan, trace, commits);
    if !ok {
      return 1, trace;
    }
    assert trace == before + toBranch + picks;
    exit, trace := Publish(o, plan, trace, name, title, merge, prBody, original);
    assert exit == 0 ==> trace == before + (toBranch + (picks + publish));
  }

  /** `cherry`: a prefix of its plan, stopping at the first failing command or refusal. */
  method Cherry(isRepo: bool, ghFound: bool, title: string, merge: bool, num: Option<int>,
                body: Option<string>, o: Oracle)
    returns (exit: int, trace: seq<Command>)
    ensures !isRepo || !ghFound ==> exit == 1 && trace == []
    ensures isRepo && ghFound ==> trace != [] && trace <= CherryPlanFor(title, merge, num, body, o)
    ensures SucceededBeforeLast(o, trace)
    ensures exit == 0 <==>
      isRepo && ghFound && trace == CherryPlanFor(title, merge, num, body, o) && AllSucceeded(o, trace)
    ensures isRepo && ghFound && num.Some? && CherryHasChanges(o) ==> exit == 1 && |trace| <= 2
    ensures isRepo && ghFound && !CherryHasChanges(o) && |CommitsToPick(o, num)| != Requested(num) ==>
      exit == 1 && |trace| <= 3
    ensures isRepo && ghFound && exit != 0 ==> CherryStopped(o, num, trace)
    ensures exit != 0 && exit != 1 ==>
      |trace| == |CherryPlanFor(title, merge, num, body, o)| - 1
      && exit == o(|trace| - 1, PrCreate(title, body.GetOr(title), merge)).code
    ensures isRepo && ghFound && |trace| == |CherryPlanFor(title, merge, num, body, o)| - 1 && LastFailed(o, trace) ==>
      exit == o(|trace| - 1, PrCreate(title, body.GetOr(title), merge)).code
  {
    trace := [];
    if !isRepo || !ghFound {
      return 1, trace;
    }
    ghost var plan := CherryPlanFor(title, merge, num, body, o);
    ghost var collect := CollectSteps(title, CherryHasChanges(o), Requested(num));
    var ok, original, changes, commits;
    ok, original, changes, commits, trace := CherryCollect(title, num, o, plan);
    if !ok {
      return 1, trace;
    }
    var branchName := TitleToBranchName(title);
    var prBody := body.GetOr(title);
    ghost var deliver := DeliverSteps(branchName, commits, title, merge, prBody, original);
    assert plan == collect + deliver;
    NextInConcat(collect, deliver);
    exit, trace := Deliver(o, plan, trace, branchName, commits, title, merge, prBody, original);
  }

  /** The shape of a `cherry` that goes through: it creates the branch from an updated
      master, picks the commits in order, pushes that branch, opens the pull request and
      goes back to where it started, in that order. */
  lemma CherryPlanShape(title: string, name: string, merge: bool, prBody: string, original: string,
                        changes: bool, n: int, commits: seq<string>)
    ensures var plan := CherryPlan(title, name, merge, prBody, original, changes, n, commits);
      var p := if changes then 5 else 3;
      |plan| == p + 3 + |commits| + 3
      && plan[p..p + 3] == [CheckoutMaster, PullMaster, CheckoutNew(name)]
      && (forall i :: 0 <= i < |commits| ==> plan[p + 3 + i] == CherryPick(commits[i]))
      && plan[p + 3 + |commits|] == PushUpstream(name)
      && plan[p + 3 + |commits| + 1] == PrCreate(title, prBody, merge)
      && plan[p + 3 + |commits| + 2] == Checkout(original)
  {
    var plan := CherryPlan(title, name, merge, prBody, original, changes, n, commits);
    var pre := CollectSteps(title, changes, n) + FreshBranchSteps(name);
    var p := if changes then 5 else 3;
    assert |pre| == p + 3;
    assert forall i :: 0 <= i < |commits| ==> plan[p + 3 + i] == Picks(commits)[i];
    assert plan[p..p + 3] == pre[p..p + 3];
  }

  /** Uncommitted changes are committed under the title and picked as the only commit. */
  lemma ChangesArePickedAlone(o: Oracle, num: Option<int>)
    requires CherryHasChanges(o)
    ensures |CommitsToPick(o, num)| == 1
  {
  }

  // ---------------------------------------------------------------- merge

  /** The pull request number without one leading `#`. */
  function PrNumberArg(pr: string): (r: string)
    ensures StartsWith(pr, "#") ==> "#" + r == pr
    ensures !StartsWith(pr, "#") ==> r == pr
  {
    if StartsWith(pr, "#") then pr[1..] else pr
  }

  /** `merge`: one `gh pr edit` adding the `merge` label, whose exit status it returns. */
  method Merge(isRepo: bool, ghFound: bool, pr: string, o: Oracle) returns (exit: int, trace: seq<Command>)
    ensures !isRepo || !ghFound ==> exit == 1 && trace == []
    ensures isRepo && ghFound ==> trace == [PrAddMergeLabel(PrNumberArg(pr))] && exit == o(0, PrAddMergeLabel(PrNumberArg(pr))).code
  {
    trace := [];
    if !isRepo || !ghFound {
      return 1, trace;
    }
    var reply;
    reply, trace := Exec(o, trace, PrAddMergeLabel(PrNumberArg(pr)));
    if reply.code != 0 {
      return reply.code, trace;
    }
    return 0, trace;
  }

  /** `123` and `#123` label the same pull request; only one `#` is dropped. */
  lemma HashIsOptional(n: string)
    requires !StartsWith(n, "#")
    ensures PrNumberArg("#" + n) == n
    ensures PrNumberArg("##" + n) == "#" + n
  {
    assert ("#" + n)[1..] == n;
    assert ("##" + n)[1..] == "#" + n;
  }
}
