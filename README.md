# gpp — a verified model of the Git productivity CLI

`gpp` (installed as `ghg`) is a command-line tool that strings together `git` and `gh`
(GitHub CLI) commands:

- `move` carries uncommitted changes onto a new branch cut from an updated `master`.
- `cherry` turns local work into a pull request on a fresh branch named after its title.
- `merge` labels a pull request for merging.
- `list` summarises the checks of one's pull requests.
- `branch` lists recent branches.
- `wt create` / `wt list` manage worktrees kept as sibling directories `repo-branch`.

This project models the logic of `gpp/main.py` in Dafny and proves what that logic promises.

The modules follow the program:

| module | models |
|---|---|
| `Wrappers` | `Option` |
| `Text` | ASCII character classes and the Python `str` operations the program uses: `lower`/`upper`, `strip`/`lstrip`/`rstrip` with a character set, `split`/`join` on one separator, `split()[0]`, `startswith`, `removesuffix`, `split(sep)[-1]` |
| `Paths` | `pathlib.Path` as far as the worktree commands use it: parsing, `str`, `.parent`, `.name`, `/` |
| `Runner` | the commands issued; the oracle that answers them; traces and their success predicates |
| `BranchNamer` | `title_to_branch_name`, its regular-expression steps as functions (`ReplaceRuns` serves both run replacements, `[\s_]+` and `-+`) |
| `Checks` | the check tally and summary of `list`; the PR table rows; the `list` command itself |
| `GitParse` | parsers of `git` output: `for-each-ref` rows, the origin URL (`get_repo_name`), the porcelain worktree listing (`get_main_worktree`, `find_worktree_by_branch`) |
| `Worktrees` | `wt create` and the filter of `wt list` |
| `Workflows` | `move`, `cherry` and `merge` |

**How commands are modelled.** Every command the program runs is a `Runner.Command` value.
`Runner.ArgvOf` gives the exact argument list the program builds for it.

The outside world is an `Oracle`: a function from a step index and a command to a `Reply`.
A reply holds an exit code and stdout. The stdout is of type `Trimmed` (no whitespace at
either end), because `run_git_command` strips it before the program sees it. As
`Runner.StripTrimmed` proves, the program's later `.strip()` calls on such output change
nothing, and `bool(out.strip())` is `out != ""`.

A workflow is a method that returns its exit status and the trace of commands it issued.
Each workflow is specified against a *plan*, a function of its inputs and the oracle. The
`ensures` clauses state:

- the trace is a prefix of the plan;
- every command before the last succeeded;
- the exit status is 0 exactly when the whole plan ran and every command succeeded;
- otherwise the trace stops at the first command that failed, or at one of the
  program's own refusals.

The filesystem checks (`.git` exists, `gh` on `PATH`, a directory or `.envrc` exists) are
boolean inputs or a predicate over paths.

## Model

| member | source | states |
|---|---|---|
| `BranchNamer.TitleToBranchName` | gpp/main.py:32-42 | The result holds only `a-z`, `0-9` and `-`, has no hyphen at either end and no `--`. Its letters and digits are exactly the title's, lower-cased, in order. |
| `BranchNamer.BranchNameFixed` | gpp/main.py:32-42 | A string already in branch-name shape converts to itself. |
| `BranchNamer.BranchNameIdempotent` | gpp/main.py:32-42 | Converting a converted title again changes nothing. |
| `BranchNamer.EmptyExactlyWithoutAlnums` | gpp/main.py:32-42 | The branch name is empty exactly when the title has no ASCII letter or digit. |
| `BranchNamer.WordsToBranchName` | gpp/main.py:32-42 | Where the hyphens go. Take a title made of letter-and-digit words, with gaps of any other characters before, between and after them, where every gap between two words holds a whitespace, `_` or `-`. It becomes its lower-cased words joined by single hyphens. |
| `BranchNamer.FixLoginBugExample` | gpp/main.py:32-42 | `Fix Login Bug!!` becomes `fix-login-bug`. |
| `BranchNamer.SpacesAndUnderscoresExample` | gpp/main.py:32-42 | `"  multiple   spaces_and_underscores "` becomes `"multiple-spaces-and-underscores"`. |
| `Checks.CheckStatus` | gpp/main.py:408-446 | The loop of four counters and the summary after it equal `Summarize`. |
| `Checks.SummaryPriority` | gpp/main.py:408-446 | "No checks" exactly for an empty rollup. Then failed if any entry fails; else pending if any is pending; else passed if any succeeds; else skipped. The total is the number of entries and the count is that of the shown category. |
| `Checks.CountPositive` | gpp/main.py:412-435 | A counter is non-zero exactly when some entry falls under it. |
| `Checks.CountsPartition` | gpp/main.py:412-435 | Each entry bumps at most one counter: the four counts plus the uncounted entries add up to the total. |
| `Checks.UncountedEntries` | gpp/main.py:417-435 | The entries that bump no counter, listed in both directions: other typenames; check runs with another conclusion and a status other than `IN_PROGRESS`; status contexts with another state. |
| `Checks.UncountedEntryOnlyGrowsTotal` | gpp/main.py:417-446 | For a non-empty rollup, an entry that bumps no counter adds one to the total. It changes neither the shown category nor its count. |
| `Checks.CaseOfConclusionIgnored` | gpp/main.py:419-429 | Conclusions and states are compared after upper-casing, so their case never matters. |
| `Checks.CaseOfStatusMatters` | gpp/main.py:419-427 | `status` is compared as given. For a check run whose conclusion is none of `SUCCESS`, `FAILURE`, `SKIPPED` in any case, it is pending exactly when its status is the text `IN_PROGRESS`; every other casing of `IN_PROGRESS` counts nothing. |
| `Checks.ConclusionBeforeStatus` | gpp/main.py:419-427 | A conclusion of `SUCCESS`, `FAILURE` or `SKIPPED`, in any case, decides the outcome whatever the status. Such a run is never pending, and it is skipped exactly when the conclusion is `SKIPPED`. |
| `Checks.ExampleOneFailure` | gpp/main.py:439-440 | One success, one failure and one pending entry summarise as 1 of 3 failed. |
| `Checks.PrRows` | gpp/main.py:404-453 | One table row per PR, in order, with its number, title, head branch and summary. |
| `Checks.ListPrs` | gpp/main.py:361-455 | Refused without a repository or `gh`: exit 1 and no command. Otherwise one `gh pr list` for the author. A failing listing exits with its code; empty output is "No PRs found"; output that does not decode exits 1; decoded PRs give one row each, in order. |
| `GitParse.ParseBranchRow` | gpp/main.py:326-330 | A line yields a row exactly when it holds a pipe. The row splits at the first pipe and prints back as the line. |
| `GitParse.BranchRows` | gpp/main.py:325-330 | At most one row per line; no row name holds a pipe; output without a pipe gives no rows. |
| `GitParse.BranchRowsRoundTrip` | gpp/main.py:306-330 | Rows whose names hold no `|`, printed in the `for-each-ref` format name, pipe, date, read back as the same rows, in order. |
| `GitParse.BranchRowsSkipLine` | gpp/main.py:326 | A line without a pipe adds no row. |
| `GitParse.ParseRenderedRow` | gpp/main.py:327-329 | A printed row reads back as itself, even when its date holds a pipe. |
| `GitParse.ListBranches` | gpp/main.py:310-330 | A failing command gives its exit code. Empty output gives "no branches". Otherwise the output gives the rows of its lines. |
| `GitParse.RepoNameAsWritten` | gpp/main.py:541-547 | As written: without a URL it is the directory name. With one, it is a name holding no `/` and not ending in `.`, `g`, `i` or `t`. |
| `GitParse.RepoName` | gpp/main.py:541-547 | As intended: without a URL it is the directory name; with one, the last `/`-segment once a `.git` suffix is removed. |
| `GitParse.RepoNameOfUrl` | gpp/main.py:545 | The intended name of `…/name.git`, or of `…/name` without `.git`, is `name`. |
| `GitParse.RepoNameAsWrittenLosesLetters` | gpp/main.py:545 | For `…/ghg.git` the code as written gives `gh`; the intended name is `ghg`. |
| `GitParse.MainWorktree` | gpp/main.py:550-557 | The path of the first `worktree ` line. It falls back to the current directory when the command failed, printed nothing or listed no worktree. |
| `GitParse.CurrentWorktree` | gpp/main.py:621-625 | There is no current worktree exactly when no `worktree ` line came before. |
| `GitParse.FirstMatch` | gpp/main.py:622-628 | The first `branch ` line inside a record whose last `/`-segment is the branch. It is `None` exactly when there is no such line. |
| `GitParse.FindWorktreeByBranch` | gpp/main.py:615-629 | `None` when the listing failed. Otherwise the worktree whose record holds the first matching branch line, or `None` when no line matches. |
| `GitParse.NestedBranchNeverMatches` | gpp/main.py:626-627 | A branch name holding `/` is never found: only the last segment of a ref is compared. |
| `Paths.ParsePathString` | gpp/main.py:705 | Reading back the text of a normalised path gives the same path. |
| `Paths.AppendOnePart` | gpp/main.py:581 | `p / name` for a single part is a child with parent `p` and name `name`. |
| `Worktrees.WtCreate` | gpp/main.py:577-612 | Outside a repository, or when the directory exists, it exits 1 and issues no `git worktree add`. Otherwise it runs exactly one `git worktree add`, with `-b` exactly for a new branch. It exits 0 exactly when that succeeds and the link step does not fail: when the main worktree has `.envrc` but the new worktree already holds one after the add, `symlink_to` raises and the exit status is 1. `.envrc` is linked to `../repo/.envrc` exactly on exit 0 when the main worktree has one. |
| `Worktrees.WorktreeIsSibling` | gpp/main.py:581 | For plain names the worktree is a sibling of the main worktree, named `repo-branch`. |
| `Worktrees.KeepLine` | gpp/main.py:703-711 | Raises, modelled as `None`, exactly on a line of whitespace only. |
| `Worktrees.KeptByCrash` | gpp/main.py:701-712 | The filter crashes exactly when some non-empty line has no answer. |
| `Worktrees.KeptByMembers` | gpp/main.py:701-712 | When it does not crash, it keeps exactly the non-empty lines its rule accepts. |
| `Worktrees.KeptByOrder` | gpp/main.py:701-712 | The shown lines are the input at a strictly increasing sequence of positions, one per shown line, and those positions are exactly the ones of the non-empty lines the rule accepts. |
| `Worktrees.KeptLinesCrash` | gpp/main.py:702-705 | `wt list` crashes exactly when some non-empty line is whitespace only. |
| `Worktrees.KeptLinesMembers` | gpp/main.py:701-712 | It shows exactly the lines whose path is the main worktree, or a sibling of it whose name starts with `repo-`. |
| `Worktrees.FilterManaged` | gpp/main.py:701-712 | The loop computes the filter `KeptLines`. |
| `Worktrees.WtList` | gpp/main.py:682-717 | Refusal; failed listing; empty listing; `--all` echoes the output unchanged; otherwise the filtered lines, "none managed" when empty, or the crash. |
| `Worktrees.CreatedWorktreeIsListed` | gpp/main.py:705-711 | For a normal main worktree, a repository and a branch name without `/`, and a worktree path with no whitespace in it, the line of the worktree `wt create` made is kept by `wt list`, whatever follows its path on the line. |
| `Worktrees.NestedBranchIsHidden` | gpp/main.py:705-711 | For a branch `a/b` the worktree lands at `repo-a/b`, which `wt list` never shows. |
| `Worktrees.SpacedPathIsHidden` | gpp/main.py:705-711 | For an absolute normal main worktree, a repository and a branch name without `/`, and whitespace anywhere in the name of a directory above the main worktree (the one holding it or one further up), `line.split()[0]` cuts the path inside that directory. `wt list` then hides the main worktree's own line and the line of every worktree `wt create` made beside it, whatever follows the path on the line. |
| `Worktrees.SpacedNameIsListed` | gpp/main.py:705-711 | When the whitespace sits in the worktree's own name after `repo-` and nowhere before it (`/d/repo-x y`), with no `/` in the names, the cut path (`/d/repo-x`) is still a sibling named `repo-…`, and `wt list` shows the line. |
| `Runner.WorktreeAddArgv` | gpp/main.py:590-593 | `git worktree add` gets the worktree path, then the branch as its last argument, with `-b` among what follows the path exactly for a new branch. |
| `Runner.ArgvOf` | gpp/main.py:62-593 | The argument list each command is run with: `gh` for PR creation, labelling and listing, `git` for every other command. Each value the user or a reply supplies (branch, message, commit, title, body, PR number, author, worktree path) is one whole argument at its fixed place, and `--label merge` is added exactly when asked for. |
| `Runner.StripTrimmed` | gpp/main.py:19-22 | Stripping already-stripped output changes nothing, and it has content exactly when it is non-empty. |
| `Workflows.FreshBranch` | gpp/main.py:229-249 | Runs checkout `master`, pull, `checkout -b`, stopping at the first failure. |
| `Workflows.Move` | gpp/main.py:45-110 | Status; a stash push when there are changes; checkout `master`; pull; `checkout -b`; a stash pop when it stashed. It stops at the first failure with exit 1 and exits 0 exactly when the whole plan succeeded. |
| `Workflows.PopFollowsPush` | gpp/main.py:70-108 | A stash pop happens only after the stash push, as the sixth and last command. |
| `Workflows.MovePlanCreatesBranchFromMaster` | gpp/main.py:80-99 | The branch is always created right after checking out and pulling `master`. |
| `Workflows.CommitChanges` | gpp/main.py:190-210 | `add -A`, `commit -m title`, `rev-parse HEAD`, stopping at the first failure; on success it returns the printed hash. |
| `Workflows.CommitLinesJoin` | gpp/main.py:224 | No hashes for empty output; otherwise the lines rejoin to the output. |
| `Workflows.CommitLinesOfListing` | gpp/main.py:217-224 | Hashes printed one per line read back as the same hashes. |
| `Workflows.CherryCollect` | gpp/main.py:166-227 | Reads the branch and the status; refuses `-n` when there are changes; then commits the changes or lists the last `n` commits. It refuses when the count differs from `n`, and otherwise returns the original branch and the commits to pick. It stops short only when its last command failed, or right after the status on `-n` with changes, or right after `rev-list` on a wrong count. |
| `Workflows.ChangesArePickedAlone` | gpp/main.py:190-210 | With changes, exactly one commit is picked. |
| `Workflows.PickAll` | gpp/main.py:251-262 | One cherry-pick per commit, in order, stopping at the first failure. |
| `Workflows.Publish` | gpp/main.py:264-289 | Push, `gh pr create`, checkout of the original branch. When PR creation fails, the exit status is its own exit code; every other failure exits 1. |
| `Workflows.Deliver` | gpp/main.py:229-289 | Fresh branch, picks, publish, in order, each stopping the whole run at its first failure. When it stops at a failing PR creation, the exit status is that command's code. |
| `Workflows.Cherry` | gpp/main.py:139-293 | Exits 1 with no command when refused. Otherwise it follows its plan prefix by prefix and exits 0 exactly when the whole plan succeeded. `-n` with changes stops after two commands; a wrong commit count stops after three. A failure exit happens only when the last command failed or on one of these two refusals. When it stops at a failing PR creation, every command but the last switch-back ran and the exit status is that command's own code. |
| `Workflows.CherryPlanShape` | gpp/main.py:229-289 | A successful run checks out and pulls `master`, creates the branch, picks the commits in order, pushes that branch, opens the PR and switches back. |
| `Workflows.PrNumberArg` | gpp/main.py:348-349 | Drops one leading `#` and nothing else. |
| `Workflows.Merge` | gpp/main.py:335-358 | When refused, exits 1 with no command. Otherwise it runs one `gh pr edit N --add-label merge` and returns its exit code. |
| `Workflows.HashIsOptional` | gpp/main.py:348-349 | `123` and `#123` name the same PR; a second `#` is kept. |

`cherry` refuses `-n` together with uncommitted changes whenever `-n` is given, `-n 0`
included, because the code tests `num_commits is not None` (gpp/main.py:185).

## Left out

- Process execution: the oracle stands for `subprocess.run`. Only exit codes and stdout are modelled; stderr text is not.
- Console output: `typer.echo`, the `rich` tables and every message text. An exit status and, where the command shows data, a value (`Listing`, `BranchListing`, `PrRow`) stand for them.
- The filesystem: `.git` existence, `shutil.which("gh")`, directory and `.envrc` existence, `Path.cwd()`. They are inputs, and the `.envrc` symlink is returned as a value rather than created.
- JSON: `json.loads` is the `decode` parameter of `Checks.ListPrs`. It returns the decoded `PullRequest` values, or `None` for output on which the command ends in an uncaught error or exits 1: output that does not parse, a PR lacking `number`, `title` or `headRefName` (the `KeyError` of gpp/main.py:449-451), and a check whose `conclusion` or `state` is JSON `null` (`.upper()` on `None` at gpp/main.py:419 and 429). Only the `.get` lookups have defaults: a missing `statusCheckRollup` is the empty rollup, and a missing `conclusion` or `state` is the empty string.
- Text is ASCII only: `\w`, `\s`, `str.strip()`, `lower` and `upper` use their ASCII parts, and other characters are neither word characters nor whitespace.
- Worktrees.WtList: the filter reads a worktree's path as `line.split()[0]` (gpp/main.py:705), so a path holding whitespace is cut at its first whitespace and judged by that prefix. With the whitespace in a directory above the worktree the line is hidden, the main worktree's included (`Worktrees.SpacedPathIsHidden`); with it in the worktree's own name after `repo-` the line is still shown (`Worktrees.SpacedNameIsListed`). The model keeps that behaviour as written and has no variant that reads the whole path.
- Exit codes: where the program exits with a failing command's own return code (gpp/main.py:281, 313, 356, 384), the model passes on the raw integer. A child killed by a signal has a negative return code, which the real process exit reduces modulo 256; the model does not.
- Worktrees.WtCreate, Worktrees.WtList: take the repository name and the main worktree as values. Which `get_repo_name` variant produced them is left open: one is the code as written, the other the corrected version (see Findings). The two queries behind them, `git remote get-url origin` (gpp/main.py:543) and `git worktree list --porcelain` (gpp/main.py:552), are not in the trace; `GitParse.RepoName` and `GitParse.MainWorktree` model what these calls compute. Of the ways `symlink_to` can fail, only an `.envrc` already present in the new worktree is modelled; other operating-system errors (permissions, a dangling link in its place) are not.
- BranchNamer.WordsToBranchName: does not cover two words whose gap holds only characters the first step drops (`don't`); there the words run together, which only `TitleToBranchName`'s own contract (the letters and digits in order) describes.
- Paths.ParsePath: does not model POSIX's preserved leading `//` or symlink resolution.
- The commands `diff`, `pr` (`pr_default`) and `wt delete`, and the `git for-each-ref` call of `branch`, are not part of this model. `branch` is covered only by its parsing of the reply.

## Findings

| source | as written | input that shows it | evidently intended | confidence | as-written member | corrected member |
|---|---|---|---|---|---|---|
| gpp/main.py:545 | `rstrip(".git")` takes its argument as a set of characters. It strips every trailing `.`, `g`, `i` and `t`, so a repository name ending in those letters loses them. | An origin URL ending `/ghg.git` gives `gh`, not `ghg`. | Remove exactly one `.git` suffix, then take the last `/`-segment. | not executed | `GitParse.RepoNameAsWritten`, `GitParse.RepoNameAsWrittenLosesLetters` | `GitParse.RepoName`, `GitParse.RepoNameOfUrl` |
