/**
  The check-status column of `list`: each entry of a PR's `statusCheckRollup` is tallied
  into at most one of four counters, and the counters become a one-line summary.
 */
module Checks {
  import opened Wrappers
  import opened Text
  import opened Runner

  /** One rollup entry, told apart by its `__typename`; a missing field reads as "" (a
      `null` one makes the listing fail, see `ListPrs`). */
  datatype RollupEntry =
    | CheckRun(conclusion: string, status: string)
    | StatusContext(state: string)
    | Other

  /** The counter an entry adds to, if any. */
  datatype Outcome = CountsSuccess | CountsFailure | CountsPending | CountsSkipped | CountsNothing

  /** The summary shown for one PR: the winning category, its count and the number of entries. */
  datatype Summary =
    | NoChecks
    | Failed(n: nat, total: nat)
    | Pending(n: nat, total: nat)
    | Passed(n: nat, total: nat)
    | Skipped(n: nat, total: nat)

  /** The outcome of a check run whose conclusion, upper-cased, is `c`. */
  function ConclusionOutcome(c: string, status: string): Outcome
  {
    if c == "SUCCESS" then CountsSuccess
    else if c == "FAILURE" then CountsFailure
    else if c == "SKIPPED" then CountsSkipped
    else if status == "IN_PROGRESS" then CountsPending
    else CountsNothing
  }

  /** The outcome of a status context whose state, upper-cased, is `s`. */
  function StateOutcome(s: string): Outcome
  {
    if s == "SUCCESS" then CountsSuccess
    else if s == "FAILURE" then CountsFailure
    else if s == "PENDING" then CountsPending
    else CountsNothing
  }

  /** Which counter the loop body bumps for `e`: `conclusion` and `state` are compared
      upper-cased, `status` as it is; a status context is never skipped. */
  function Classify(e: RollupEntry): Outcome
  {
    match e
    case CheckRun(conclusion, status) => ConclusionOutcome(Upper(conclusion), status)
    case StatusContext(state) => StateOutcome(Upper(state))
    case Other => CountsNothing
  }

  /** How many entries of `rollup` fall under `o`. */
  function Count(rollup: seq<RollupEntry>, o: Outcome): (n: nat)
    ensures n <= |rollup|
  {
    if rollup == [] then 0
    else Count(rollup[..|rollup| - 1], o) + (if Classify(rollup[|rollup| - 1]) == o then 1 else 0)
  }

  /** Some entry of `rollup` falls under `o`. */
  predicate Has(rollup: seq<RollupEntry>, o: Outcome)
  {
    exists i :: 0 <= i < |rollup| && Classify(rollup[i]) == o
  }

  /** The summary the priority rule picks: failures, then pending, then passes, else skipped. */
  function Summarize(rollup: seq<RollupEntry>): Summary
  {
    if rollup == [] then NoChecks
    else
      var total := |rollup|;
      if Count(rollup, CountsFailure) > 0 then Failed(Count(rollup, CountsFailure), total)
      else if Count(rollup, CountsPending) > 0 then Pending(Count(rollup, CountsPending), total)
      else if Count(rollup, CountsSuccess) > 0 then Passed(Count(rollup, CountsSuccess), total)
      else Skipped(Count(rollup, CountsSkipped), total)
  }

  /** The loop of `list_prs` over one PR's rollup, with its four counters, then the summary. */
  method CheckStatus(rollup: seq<RollupEntry>) returns (summary: Summary)
    ensures summary == Summarize(rollup)
  {
    if rollup == [] {
      return NoChecks;
    }
    var success, failure, pending, skipped := 0, 0, 0, 0;
    for i := 0 to |rollup|
      invariant success == Count(rollup[..i], CountsSuccess)
      invariant failure == Count(rollup[..i], CountsFailure)
      invariant pending == Count(rollup[..i], CountsPending)
      invariant skipped == Count(rollup[..i], CountsSkipped)
    {
      assert rollup[..i + 1][..i] == rollup[..i];
      match rollup[i] {
        case CheckRun(conclusion, status) =>
          var c := Upper(conclusion);
          if c == "SUCCESS" {
            success := success + 1;
          } else if c == "FAILURE" {
            failure := failure + 1;
          } else if c == "SKIPPED" {
            skipped := skipped + 1;
          } else if status == "IN_PROGRESS" {
            pending := pending + 1;
          }
        case StatusContext(state) =>
          var s := Upper(state);
          if s == "SUCCESS" {
            success := success + 1;
          } else if s == "FAILURE" {
            failure := failure + 1;
          } else if s == "PENDING" {
            pending := pending + 1;
          }
        case Other =>
      }
    }
    assert rollup[..|rollup|] == rollup;
    var total := |rollup|;
    if failure > 0 {
      summary := Failed(failure, total);
    } else if pending > 0 {
      summary := Pending(pending, total);
    } else if success > 0 {
      summary := Passed(success, total);
    } else {
      summary := Skipped(skipped, total);
    }
  }

  /** Every entry falls under exactly one outcome, so the four counters sum to at most the total. */
  lemma {:induction false} CountsPartition(rollup: seq<RollupEntry>)
    ensures Count(rollup, CountsSuccess) + Count(rollup, CountsFailure) + Count(rollup, CountsPending)
          + Count(rollup, CountsSkipped) + Count(rollup, CountsNothing) == |rollup|
    ensures Count(rollup, CountsSuccess) + Count(rollup, CountsFailure) + Count(rollup, CountsPending)
          + Count(rollup, CountsSkipped) <= |rollup|
  {
    if rollup != [] {
      CountsPartition(rollup[..|rollup| - 1]);
    }
  }

  /** A counter is non-zero exactly when some entry falls under it. */
  lemma {:induction false} CountPositive(rollup: seq<RollupEntry>, o: Outcome)
    ensures Count(rollup, o) > 0 <==> Has(rollup, o)
  {
    if rollup != [] {
      var init := rollup[..|rollup| - 1];
      var last := rollup[|rollup| - 1];
      CountPositive(init, o);
      assert Has(rollup, o) <==> Has(init, o) || Classify(last) == o by {
        assert forall i :: 0 <= i < |init| ==> rollup[i] == init[i];
        assert rollup == init + [last];
      }
    }
  }

  /** The priority rule stated on the entries themselves; every summary but `NoChecks`
      carries the number of entries as its total and the count of its own category. */
  lemma SummaryPriority(rollup: seq<RollupEntry>)
    ensures Summarize(rollup) == NoChecks <==> rollup == []
    ensures Summarize(rollup).Failed? <==> Has(rollup, CountsFailure)
    ensures Summarize(rollup).Pending? <==>
              !Has(rollup, CountsFailure) && Has(rollup, CountsPending)
    ensures Summarize(rollup).Passed? <==>
              !Has(rollup, CountsFailure) && !Has(rollup, CountsPending) && Has(rollup, CountsSuccess)
    ensures Summarize(rollup).Skipped? <==>
              rollup != [] && !Has(rollup, CountsFailure) && !Has(rollup, CountsPending)
              && !Has(rollup, CountsSuccess)
    ensures Summarize(rollup) != NoChecks ==> Summarize(rollup).total == |rollup|
    ensures Summarize(rollup).Failed? ==> Summarize(rollup).n == Count(rollup, CountsFailure)
    ensures Summarize(rollup).Pending? ==> Summarize(rollup).n == Count(rollup, CountsPending)
    ensures Summarize(rollup).Passed? ==> Summarize(rollup).n == Count(rollup, CountsSuccess)
    ensures Summarize(rollup).Skipped? ==> Summarize(rollup).n == Count(rollup, CountsSkipped)
  {
    CountPositive(rollup, CountsFailure);
    CountPositive(rollup, CountsPending);
    CountPositive(rollup, CountsSuccess);
  }

  /** An entry that adds to no counter still adds to the total. */
  lemma UncountedEntryOnlyGrowsTotal(rollup: seq<RollupEntry>, e: RollupEntry)
    requires rollup != [] && Classify(e) == CountsNothing
    ensures Summarize(rollup + [e]).total == Summarize(rollup).total + 1
    ensures Summarize(rollup + [e]).n == Summarize(rollup).n
    ensures Summarize(rollup + [e]).Failed? == Summarize(rollup).Failed?
    ensures Summarize(rollup + [e]).Pending? == Summarize(rollup).Pending?
    ensures Summarize(rollup + [e]).Passed? == Summarize(rollup).Passed?
  {
    assert (rollup + [e])[..|rollup|] == rollup;
  }

  /** Which entries add to no counter: an unknown conclusion without `IN_PROGRESS`, an unlisted
      state, any other type. */
  lemma UncountedEntries(e: RollupEntry)
    ensures Classify(e) == CountsNothing <==>
      || e.Other?
      || (e.CheckRun? && Upper(e.conclusion) !in {"SUCCESS", "FAILURE", "SKIPPED"}
          && e.status != "IN_PROGRESS")
      || (e.StatusContext? && Upper(e.state) !in {"SUCCESS", "FAILURE", "PENDING"})
  {
  }

  lemma {:induction false} UpperIdempotent(s: string)
    ensures Upper(Upper(s)) == Upper(s)
  {
    assert forall i :: 0 <= i < |s| ==> Upper(Upper(s))[i] == Upper(s)[i];
  }

  /** The case of `conclusion` and `state` does not matter. */
  lemma CaseOfConclusionIgnored(conclusion: string, status: string, state: string)
    ensures Classify(CheckRun(Upper(conclusion), status)) == Classify(CheckRun(conclusion, status))
    ensures Classify(StatusContext(Upper(state))) == Classify(StatusContext(state))
  {
    UpperIdempotent(conclusion);
    UpperIdempotent(state);
  }

  /** The case of `status` does matter. For a check run whose conclusion is none of the
      three counted ones, the status alone decides: pending exactly for the text
      `IN_PROGRESS`, and nothing for every other casing of it. */
  lemma CaseOfStatusMatters(conclusion: string, status: string)
    requires Upper(conclusion) !in {"SUCCESS", "FAILURE", "SKIPPED"}
    ensures Classify(CheckRun(conclusion, status)) == CountsPending <==> status == "IN_PROGRESS"
    ensures Upper(status) == "IN_PROGRESS" && status != "IN_PROGRESS" ==>
      Classify(CheckRun(conclusion, status)) == CountsNothing
  {
  }

  /** A counted conclusion wins over the status of the same check run: the status then
      changes nothing, and the run is never pending. */
  lemma ConclusionBeforeStatus(conclusion: string, status: string, status': string)
    requires Upper(conclusion) in {"SUCCESS", "FAILURE", "SKIPPED"}
    ensures Classify(CheckRun(conclusion, status)) == Classify(CheckRun(conclusion, status'))
    ensures Classify(CheckRun(conclusion, status)) != CountsPending
    ensures Classify(CheckRun(conclusion, status)) == CountsSkipped <==> Upper(conclusion) == "SKIPPED"
  {
  }

  /** One success, one failure and one pending check, in any shapes: "1/3 failed". */
  lemma ExampleOneFailure(ok: RollupEntry, bad: RollupEntry, waiting: RollupEntry)
    requires Classify(ok) == CountsSuccess
    requires Classify(bad) == CountsFailure
    requires Classify(waiting) == CountsPending
    ensures Summarize([ok, bad, waiting]) == Failed(1, 3)
  {
    var r := [ok, bad, waiting];
    assert r[..|r| - 1] == [ok, bad];
    assert [ok, bad][..1] == [ok];
    assert [ok][..0] == [];
    assert Count([ok], CountsFailure) == 0;
    assert Count([ok, bad], CountsFailure) == 1;
    assert Count(r, CountsFailure) == 1;
  }

  /** A PR as `gh pr list --json number,title,headRefName,statusCheckRollup` gives it;
      a missing rollup is the empty one. */
  datatype PullRequest = PullRequest(number: int, title: string, headRefName: string,
                                     rollup: seq<RollupEntry>)

  /** One row of the PR table. */
  datatype PrRow = PrRow(number: int, title: string, branch: string, checks: Summary)

  /** The `for pr in prs` loop of `list_prs`: one row per PR, in order. */
  method PrRows(prs: seq<PullRequest>) returns (rows: seq<PrRow>)
    ensures |rows| == |prs|
    ensures forall i :: 0 <= i < |prs| ==>
      rows[i] == PrRow(prs[i].number, prs[i].title, prs[i].headRefName, Summarize(prs[i].rollup))
  {
    rows := [];
    for i := 0 to |prs|
      invariant |rows| == i
      invariant forall j :: 0 <= j < i ==>
        rows[j] == PrRow(prs[j].number, prs[j].title, prs[j].headRefName, Summarize(prs[j].rollup))
    {
      var checks := CheckStatus(prs[i].rollup);
      rows := rows + [PrRow(prs[i].number, prs[i].title, prs[i].headRefName, checks)];
    }
  }

  /** What `list` ends with: an exit status, the "No PRs found" notice, or the table. */
  datatype PrListing = PrListFailed(exit: int) | NoPrs | PrTable(rows: seq<PrRow>)

  /**
    `list`: refuses outside a repository or without `gh`, then runs one `gh pr list`. A
    failing listing passes its exit status on, empty output shows the notice, output
    that does not decode exits with 1, and otherwise the table has one row per PR.
    `decode` stands for `json.loads` followed by the field lookups of the loop: `None`
    where parsing raises, or where a record lacks `number`, `title` or `headRefName` or
    holds a `null` conclusion or state, on which the loop raises.
   */
  method ListPrs(isRepo: bool, ghFound: bool, author: string, o: Oracle,
                 decode: string -> Option<seq<PullRequest>>)
    returns (shown: PrListing, trace: seq<Command>)
    ensures !isRepo || !ghFound ==> shown == PrListFailed(1) && trace == []
    ensures isRepo && ghFound ==> trace == [PrList(author)]
    ensures isRepo && ghFound && o(0, PrList(author)).code != 0 ==>
      shown == PrListFailed(o(0, PrList(author)).code)
    ensures isRepo && ghFound && o(0, PrList(author)).code == 0 ==>
      shown == (var out := o(0, PrList(author)).stdout;
                if out == [] then NoPrs
                else match decode(out)
                  case None => PrListFailed(1)
                  case Some(prs) => PrTable(seq(|prs|, i requires 0 <= i < |prs| =>
                    PrRow(prs[i].number, prs[i].title, prs[i].headRefName, Summarize(prs[i].rollup)))))
    ensures shown.PrListFailed? ==> shown.exit != 0
  {
    trace := [];
    if !isRepo || !ghFound {
      return PrListFailed(1), trace;
    }
    var reply;
    reply, trace := Exec(o, trace, PrList(author));
    if reply.code != 0 {
      return PrListFailed(reply.code), trace;
    }
    if reply.stdout == [] {
      return NoPrs, trace;
    }
    var prs := decode(reply.stdout);
    if prs.None? {
      return PrListFailed(1), trace;
    }
    var rows := PrRows(prs.value);
    return PrTable(rows), trace;
  }
}
