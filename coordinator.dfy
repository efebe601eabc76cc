/**
 * The execution coordinator of `run_precommit_checks` (git/pre-commit.py):
 * the order in which the checks finish, the renders written in live and in
 * quiet mode, the dump of the output of every failed check, and the exit
 * code. The standard error stream is the sequence of strings written to it.
 */
module Coordinator {
  import opened Options
  import opened Text
  import opened Terminal
  import opened Status

  /** What one check's process returned: its exit code and its combined stdout and stderr. */
  datatype Outcome = Outcome(rc: int, output: string)

  /** The order in which futures finish: every one of the n tasks exactly once. */
  predicate IsCompletionOrder(order: seq<nat>, n: nat) {
    && |order| == n
    && (forall k :: 0 <= k < n ==> order[k] < n)
    && (forall j, k :: 0 <= j < k < n ==> order[j] != order[k])
    && (forall i :: 0 <= i < n ==> i in order)
  }

  /** No task has finished yet. */
  function Pending(n: nat): seq<TaskState> {
    seq(n, _ => None)
  }

  /** Every task has finished with its outcome's exit code. */
  function Completed(outcomes: seq<Outcome>): seq<TaskState> {
    seq(|outcomes|, i requires 0 <= i < |outcomes| => Some(outcomes[i].rc))
  }

  /**
   * The task states once the first k tasks of the completion order have
   * finished: each completion fills in the exit code of that one task.
   */
  function StateAfter(outcomes: seq<Outcome>, order: seq<nat>, k: nat): (r: seq<TaskState>)
    requires IsCompletionOrder(order, |outcomes|) && k <= |order|
    ensures |r| == |outcomes|
  {
    if k == 0 then Pending(|outcomes|)
    else
      var i := order[k - 1];
      StateAfter(outcomes, order, k - 1)[i := Some(outcomes[i].rc)]
  }

  /** One `print_status(clear)` call: the task states it reads and whether it clears first. */
  datatype StatusCall = StatusCall(rcs: seq<TaskState>, clear: bool)

  /** Every call reads one state per check. */
  predicate CallsFit(checks: seq<Check>, calls: seq<StatusCall>) {
    forall j :: 0 <= j < |calls| ==> |calls[j].rcs| == |checks|
  }

  /** What a sequence of `print_status` calls writes: one render per call. */
  function Progress(checks: seq<Check>, calls: seq<StatusCall>): (r: seq<string>)
    requires CallsFit(checks, calls)
    ensures |r| == |calls|
  {
    seq(|calls|, j requires 0 <= j < |calls| && CallsFit(checks, calls) => Render(checks, calls[j].rcs, calls[j].clear))
  }

  /**
   * The live calls up to the k-th completion: one call before anything
   * finishes, then one clearing call per completion.
   */
  function LiveCallsUpTo(outcomes: seq<Outcome>, order: seq<nat>, k: nat): (r: seq<StatusCall>)
    requires IsCompletionOrder(order, |outcomes|) && k <= |order|
    ensures |r| == 1 + k
    ensures forall j :: 0 <= j < |r| ==> |r[j].rcs| == |outcomes|
  {
    if k == 0 then [StatusCall(StateAfter(outcomes, order, 0), false)]
    else LiveCallsUpTo(outcomes, order, k - 1) + [StatusCall(StateAfter(outcomes, order, k), true)]
  }

  /** Live mode: the calls up to the last completion. */
  function LiveCalls(outcomes: seq<Outcome>, order: seq<nat>): (r: seq<StatusCall>)
    requires IsCompletionOrder(order, |outcomes|)
    ensures |r| == 1 + |outcomes|
    ensures forall j :: 0 <= j < |r| ==> |r[j].rcs| == |outcomes|
  {
    LiveCallsUpTo(outcomes, order, |order|)
  }

  /** Quiet mode: after all tasks finished, one call without clearing, only when one failed. */
  function QuietCalls(outcomes: seq<Outcome>): (r: seq<StatusCall>)
    ensures forall j :: 0 <= j < |r| ==> |r[j].rcs| == |outcomes|
  {
    if AnyFailed(Completed(outcomes)) then [StatusCall(Completed(outcomes), false)] else []
  }

  /** The renders written in live mode. */
  function LiveRenders(checks: seq<Check>, outcomes: seq<Outcome>, order: seq<nat>): seq<string>
    requires |outcomes| == |checks| && IsCompletionOrder(order, |checks|)
  {
    Progress(checks, LiveCalls(outcomes, order))
  }

  /** The renders written in quiet mode. */
  function QuietRenders(checks: seq<Check>, outcomes: seq<Outcome>): seq<string>
    requires |outcomes| == |checks|
  {
    Progress(checks, QuietCalls(outcomes))
  }

  /** `'-' * 80` */
  const Rule: string := "--------------------------------------------------------------------------------"

  /**
   * `eprint(x)`: `print` to standard error writes the text, then the line
   * end, as two writes. (`eprint()` with no argument writes the line end only.)
   */
  function Eprint(x: string): seq<string> {
    [x, "\n"]
  }

  /** The writes that show one failed check's captured output. */
  function DumpBlock(c: Check, output: string): seq<string> {
    ["\n"]
    + Eprint(Yellow + "stdout/stderr" + Reset + " of " + Blue + "[" + RepoName + "/" + c.cwd + "]"
             + Reset + " " + Faint + c.cmd + Reset + ":")
    + Eprint(Rule)
    + [output]
    + Eprint(Rule)
  }

  /** The dump blocks of the failed checks among the given ones, in declaration order. */
  function Dumps(checks: seq<Check>, outcomes: seq<Outcome>): seq<string>
    requires |outcomes| == |checks|
    decreases |checks|
  {
    if |checks| == 0 then []
    else
      var last := |checks| - 1;
      Dumps(checks[..last], outcomes[..last])
      + (if outcomes[last].rc != 0 then DumpBlock(checks[last], outcomes[last].output) else [])
  }

  const FailedBanner: seq<string> := Eprint(Red + "pre-commit checks failed" + Reset)

  /** Everything written after the renders: the dumps, then the banner when something failed. */
  function FailureReport(checks: seq<Check>, outcomes: seq<Outcome>): seq<string>
    requires |outcomes| == |checks|
  {
    Dumps(checks, outcomes) + (if AnyFailed(Completed(outcomes)) then FailedBanner else [])
  }

  /** `sys.exit(1)` when a check failed, a normal return (status 0) otherwise. */
  function ExitStatus(outcomes: seq<Outcome>): (code: int)
    ensures code == 0 || code == 1
    ensures code == 1 <==> exists i :: 0 <= i < |outcomes| && outcomes[i].rc != 0
  {
    CompletedFailed(outcomes);
    if AnyFailed(Completed(outcomes)) then 1 else 0
  }

  /** Once all tasks finished, `any(rcs)` holds exactly when some exit code is nonzero. */
  lemma CompletedFailed(outcomes: seq<Outcome>)
    ensures AnyFailed(Completed(outcomes)) <==> exists i :: 0 <= i < |outcomes| && outcomes[i].rc != 0
  {
    if exists i :: 0 <= i < |outcomes| && outcomes[i].rc != 0 {
      var i :| 0 <= i < |outcomes| && outcomes[i].rc != 0;
      assert Failed(Completed(outcomes)[i]);
    }
  }

  /** Everything one run writes to standard error. */
  function RunOutput(checks: seq<Check>, outcomes: seq<Outcome>, order: seq<nat>, quiet: bool): seq<string>
    requires |outcomes| == |checks| && IsCompletionOrder(order, |checks|)
  {
    (if quiet then QuietRenders(checks, outcomes) else LiveRenders(checks, outcomes, order))
    + FailureReport(checks, outcomes)
  }

  /**
   * `run_precommit_checks`: the process results are given as `outcomes`, the
   * order in which the futures finish as `order`; returns the writes to
   * standard error and the exit code.
   */
  method RunPrecommitChecks(checks: seq<Check>, outcomes: seq<Outcome>, order: seq<nat>, quiet: bool)
    returns (writes: seq<string>, exitCode: int)
    requires |outcomes| == |checks| && IsCompletionOrder(order, |checks|)
    ensures writes == RunOutput(checks, outcomes, order, quiet)
    ensures exitCode == ExitStatus(outcomes)
  {
    var calls;
    if quiet {
      calls := RunQuiet(outcomes);
    } else {
      calls := RunLive(outcomes, order);
    }
    writes := Progress(checks, calls);
    var dumps, failures := DumpFailures(checks, outcomes);
    writes := writes + dumps;
    CompletedFailed(outcomes);
    if failures {
      writes := writes + FailedBanner;
      exitCode := 1;
    } else {
      exitCode := 0;
    }
  }

  /** The quiet branch: wait for every task, then call `print_status` once if any failed. */
  method RunQuiet(outcomes: seq<Outcome>) returns (calls: seq<StatusCall>)
    ensures calls == QuietCalls(outcomes)
  {
    var rcs := Completed(outcomes);
    var anyFailed := false;
    var i := 0;
    while i < |outcomes| && !anyFailed
      invariant 0 <= i <= |outcomes|
      invariant anyFailed ==> AnyFailed(rcs)
      invariant !anyFailed ==> forall j :: 0 <= j < i ==> !Failed(rcs[j])
    {
      anyFailed := rcs[i].value != 0;
      i := i + 1;
    }
    calls := [];
    if anyFailed {
      calls := calls + [StatusCall(rcs, false)];
    }
  }

  /**
   * The live branch: call `print_status` on the all-pending states, then
   * again, clearing, after every completion.
   */
  method RunLive(outcomes: seq<Outcome>, order: seq<nat>) returns (calls: seq<StatusCall>)
    requires IsCompletionOrder(order, |outcomes|)
    ensures calls == LiveCalls(outcomes, order)
  {
    var rcs := Pending(|outcomes|);
    calls := [StatusCall(rcs, false)];
    var k := 0;
    while k < |order|
      invariant 0 <= k <= |order|
      invariant rcs == StateAfter(outcomes, order, k)
      invariant calls == LiveCallsUpTo(outcomes, order, k)
    {
      var i := order[k];
      rcs := rcs[i := Some(outcomes[i].rc)];
      calls := calls + [StatusCall(rcs, true)];
      k := k + 1;
    }
  }

  /** The failure loop: a dump block per failed check, in declaration order. */
  method DumpFailures(checks: seq<Check>, outcomes: seq<Outcome>) returns (writes: seq<string>, failures: bool)
    requires |outcomes| == |checks|
    ensures writes == Dumps(checks, outcomes)
    ensures failures <==> exists j :: 0 <= j < |outcomes| && outcomes[j].rc != 0
  {
    writes := [];
    failures := false;
    var i := 0;
    while i < |checks|
      invariant 0 <= i <= |checks|
      invariant writes == Dumps(checks[..i], outcomes[..i])
      invariant failures <==> exists j :: 0 <= j < i && outcomes[j].rc != 0
    {
      var rc := outcomes[i].rc;
      assert checks[..i + 1][..i] == checks[..i] && outcomes[..i + 1][..i] == outcomes[..i];
      if rc != 0 {
        failures := true;
        writes := writes + DumpBlock(checks[i], outcomes[i].output);
      }
      i := i + 1;
    }
    assert checks[..i] == checks && outcomes[..i] == outcomes;
  }

  // ---------------------------------------------------------------------------
  // Task states along a completion order

  /** Task i has finished after k completions exactly when it is among the first k of the order. */
  lemma {:induction false} StateAfterAt(outcomes: seq<Outcome>, order: seq<nat>, k: nat, i: nat)
    requires IsCompletionOrder(order, |outcomes|) && k <= |order| && i < |outcomes|
    ensures StateAfter(outcomes, order, k)[i] == if i in order[..k] then Some(outcomes[i].rc) else None
  {
    if k > 0 {
      StateAfterAt(outcomes, order, k - 1, i);
      assert order[..k] == order[..k - 1] + [order[k - 1]];
    }
  }

  /** Each completion turns one pending task into a finished one and changes nothing else. */
  lemma StateAfterStep(outcomes: seq<Outcome>, order: seq<nat>, k: nat)
    requires IsCompletionOrder(order, |outcomes|) && k < |order|
    ensures StateAfter(outcomes, order, k)[order[k]] == None
    ensures StateAfter(outcomes, order, k + 1)[order[k]] == Some(outcomes[order[k]].rc)
    ensures forall i :: 0 <= i < |outcomes| && i != order[k] ==>
              StateAfter(outcomes, order, k + 1)[i] == StateAfter(outcomes, order, k)[i]
  {
    StateAfterAt(outcomes, order, k, order[k]);
    assert forall j :: 0 <= j < k ==> order[..k][j] != order[k];
  }

  /** Whatever the completion order, after the last completion every task shows its outcome. */
  lemma StateAfterAll(outcomes: seq<Outcome>, order: seq<nat>)
    requires IsCompletionOrder(order, |outcomes|)
    ensures StateAfter(outcomes, order, |order|) == Completed(outcomes)
  {
    assert order[..|order|] == order;
    forall i | 0 <= i < |outcomes|
      ensures StateAfter(outcomes, order, |order|)[i] == Completed(outcomes)[i]
    {
      StateAfterAt(outcomes, order, |order|, i);
    }
  }

  /** The header's failure tag appears as soon as one task that finished so far failed. */
  lemma FailedAfter(outcomes: seq<Outcome>, order: seq<nat>, k: nat)
    requires IsCompletionOrder(order, |outcomes|) && k <= |order|
    ensures AnyFailed(StateAfter(outcomes, order, k))
            <==> exists j :: 0 <= j < k && outcomes[order[j]].rc != 0
  {
    var s := StateAfter(outcomes, order, k);
    if AnyFailed(s) {
      var i :| 0 <= i < |s| && Failed(s[i]);
      StateAfterAt(outcomes, order, k, i);
      var j :| 0 <= j < k && order[..k][j] == i;
      assert order[j] == i;
    }
    if exists j :: 0 <= j < k && outcomes[order[j]].rc != 0 {
      var j :| 0 <= j < k && outcomes[order[j]].rc != 0;
      assert order[..k][j] == order[j];
      StateAfterAt(outcomes, order, k, order[j]);
      assert Failed(s[order[j]]);
    }
  }

  /** Once shown, the failure tag stays in every later render. */
  lemma FailedTagStays(outcomes: seq<Outcome>, order: seq<nat>, j: nat, k: nat)
    requires IsCompletionOrder(order, |outcomes|) && j <= k <= |order|
    requires AnyFailed(StateAfter(outcomes, order, j))
    ensures AnyFailed(StateAfter(outcomes, order, k))
  {
    FailedAfter(outcomes, order, j);
    FailedAfter(outcomes, order, k);
  }

  // ---------------------------------------------------------------------------
  // Render cadence

  /** Live call k reads the states after the first k completions and clears unless it is the first. */
  lemma {:induction false} LiveCallsUpToAt(outcomes: seq<Outcome>, order: seq<nat>, m: nat, k: nat)
    requires IsCompletionOrder(order, |outcomes|) && k <= m <= |order|
    ensures LiveCallsUpTo(outcomes, order, m)[k] == StatusCall(StateAfter(outcomes, order, k), k > 0)
  {
    if m > 0 && k < m {
      LiveCallsUpToAt(outcomes, order, m - 1, k);
    }
  }

  /** Render k of live mode shows the states after the first k completions. */
  lemma LiveRenderAt(checks: seq<Check>, outcomes: seq<Outcome>, order: seq<nat>, k: nat)
    requires |outcomes| == |checks| && IsCompletionOrder(order, |checks|) && k <= |checks|
    ensures LiveRenders(checks, outcomes, order)[k] == Render(checks, StateAfter(outcomes, order, k), k > 0)
  {
    LiveCallsUpToAt(outcomes, order, |checks|, k);
  }

  /**
   * Live mode writes 1 + N renders: the first, of all-pending states, with no
   * clear prefix; each later one clears 1 + N lines and redraws.
   */
  lemma LiveCadence(checks: seq<Check>, outcomes: seq<Outcome>, order: seq<nat>)
    requires |outcomes| == |checks| && IsCompletionOrder(order, |checks|)
    ensures |LiveRenders(checks, outcomes, order)| == 1 + |checks|
    ensures LiveRenders(checks, outcomes, order)[0] == PrintLines(Snapshot(checks, Pending(|checks|)))
    ensures forall k :: 1 <= k <= |checks| ==>
              LiveRenders(checks, outcomes, order)[k]
              == ClearLines(1 + |checks|) + PrintLines(Snapshot(checks, StateAfter(outcomes, order, k)))
  {
    LiveRenderAt(checks, outcomes, order, 0);
    RenderShape(checks, Pending(|checks|), false);
    forall k | 1 <= k <= |checks|
      ensures LiveRenders(checks, outcomes, order)[k]
              == ClearLines(1 + |checks|) + PrintLines(Snapshot(checks, StateAfter(outcomes, order, k)))
    {
      LiveRenderAt(checks, outcomes, order, k);
      RenderShape(checks, StateAfter(outcomes, order, k), true);
    }
  }

  /**
   * With single-line labels, each live redraw erases exactly the lines the
   * previous write printed, so the display updates in place.
   */
  lemma LiveRedrawsInPlace(checks: seq<Check>, outcomes: seq<Outcome>, order: seq<nat>, k: nat)
    requires |outcomes| == |checks| && IsCompletionOrder(order, |checks|)
    requires AllSingleLine(checks)
    requires 1 <= k <= |checks|
    ensures LiveRenders(checks, outcomes, order)[k]
            == ClearLines(Count(LiveRenders(checks, outcomes, order)[k - 1], '\n'))
               + PrintLines(Snapshot(checks, StateAfter(outcomes, order, k)))
  {
    LiveRenderAt(checks, outcomes, order, k - 1);
    LiveRenderAt(checks, outcomes, order, k);
    RedrawErasesPrevious(checks, StateAfter(outcomes, order, k - 1), k - 1 > 0, StateAfter(outcomes, order, k));
  }

  /** Whatever the completion order, the last live render shows every outcome. */
  lemma LiveLastRender(checks: seq<Check>, outcomes: seq<Outcome>, order: seq<nat>)
    requires |outcomes| == |checks| && IsCompletionOrder(order, |checks|)
    ensures LiveRenders(checks, outcomes, order)[|checks|] == Render(checks, Completed(outcomes), |checks| > 0)
  {
    LiveRenderAt(checks, outcomes, order, |checks|);
    StateAfterAll(outcomes, order);
  }

  /**
   * Quiet mode writes one render, of the final states and without clearing,
   * when some check failed, and none otherwise.
   */
  lemma QuietCadence(checks: seq<Check>, outcomes: seq<Outcome>)
    requires |outcomes| == |checks|
    ensures |QuietRenders(checks, outcomes)| == if exists i :: 0 <= i < |outcomes| && outcomes[i].rc != 0 then 1 else 0
    ensures (exists i :: 0 <= i < |outcomes| && outcomes[i].rc != 0) ==> QuietRenders(checks, outcomes) == [Render(checks, Completed(outcomes), false)]
  {
    if exists i :: 0 <= i < |outcomes| && outcomes[i].rc != 0 {
      var i :| 0 <= i < |outcomes| && outcomes[i].rc != 0;
      assert Failed(Completed(outcomes)[i]);
    }
  }

  // ---------------------------------------------------------------------------
  // Final report

  /** Indices of the failed checks, in declaration order. */
  function FailingIndices(outcomes: seq<Outcome>): (r: seq<nat>)
    ensures forall j :: 0 <= j < |r| ==> r[j] < |outcomes|
    ensures forall a, b :: 0 <= a < b < |r| ==> r[a] < r[b]
    ensures forall i: nat :: i in r <==> i < |outcomes| && outcomes[i].rc != 0
    ensures r == [] <==> forall i :: 0 <= i < |outcomes| ==> outcomes[i].rc == 0
    decreases |outcomes|
  {
    if |outcomes| == 0 then []
    else
      var last := |outcomes| - 1;
      var front := FailingIndices(outcomes[..last]);
      assert forall i :: 0 <= i < last ==> outcomes[..last][i] == outcomes[i];
      assert forall j :: 0 <= j < |front| ==> front[j] in front;
      if outcomes[last].rc != 0 then front + [last] else front
  }

  /** The dump blocks of the listed checks, one after another. */
  function Blocks(checks: seq<Check>, outcomes: seq<Outcome>, indices: seq<nat>): seq<string>
    requires |outcomes| == |checks|
    requires forall j :: 0 <= j < |indices| ==> indices[j] < |checks|
    decreases |indices|
  {
    if |indices| == 0 then []
    else
      var last := |indices| - 1;
      Blocks(checks, outcomes, indices[..last])
      + DumpBlock(checks[indices[last]], outcomes[indices[last]].output)
  }

  lemma {:induction false} BlocksOfPrefix(checks: seq<Check>, outcomes: seq<Outcome>, indices: seq<nat>, m: nat)
    requires |outcomes| == |checks| && m <= |checks|
    requires forall j :: 0 <= j < |indices| ==> indices[j] < m
    ensures Blocks(checks[..m], outcomes[..m], indices) == Blocks(checks, outcomes, indices)
    decreases |indices|
  {
    if |indices| > 0 {
      BlocksOfPrefix(checks, outcomes, indices[..|indices| - 1], m);
    }
  }

  /**
   * The dump consists of one block per failed check, in declaration order,
   * and of nothing else.
   */
  lemma {:induction false} DumpsFollowDeclarationOrder(checks: seq<Check>, outcomes: seq<Outcome>)
    requires |outcomes| == |checks|
    ensures Dumps(checks, outcomes) == Blocks(checks, outcomes, FailingIndices(outcomes))
    decreases |checks|
  {
    if |checks| > 0 {
      var last := |checks| - 1;
      var front := FailingIndices(outcomes[..last]);
      DumpsFollowDeclarationOrder(checks[..last], outcomes[..last]);
      BlocksOfPrefix(checks, outcomes, front, last);
      assert Dumps(checks[..last], outcomes[..last]) == Blocks(checks, outcomes, front);
      if outcomes[last].rc != 0 {
        var idx := front + [last];
        assert FailingIndices(outcomes) == idx;
        assert idx[..|front|] == front;
        assert Blocks(checks, outcomes, idx)
               == Blocks(checks, outcomes, front) + DumpBlock(checks[last], outcomes[last].output);
      } else {
        assert FailingIndices(outcomes) == front;
      }
    }
  }

  /** Nothing at all is reported after the renders exactly when every check passed. */
  lemma ReportEmptyIffPassed(checks: seq<Check>, outcomes: seq<Outcome>)
    requires |outcomes| == |checks|
    ensures FailureReport(checks, outcomes) == [] <==> ExitStatus(outcomes) == 0
  {
    DumpsFollowDeclarationOrder(checks, outcomes);
    var idx := FailingIndices(outcomes);
    if ExitStatus(outcomes) == 0 {
      assert idx == [];
    } else {
      var i :| 0 <= i < |outcomes| && outcomes[i].rc != 0;
      assert Failed(Completed(outcomes)[i]);
    }
  }

  /** In quiet mode a run in which every check passes writes nothing at all. */
  lemma QuietPassIsSilent(checks: seq<Check>, outcomes: seq<Outcome>, order: seq<nat>)
    requires |outcomes| == |checks| && IsCompletionOrder(order, |checks|)
    requires forall i :: 0 <= i < |outcomes| ==> outcomes[i].rc == 0
    ensures RunOutput(checks, outcomes, order, true) == []
  {
    ReportEmptyIffPassed(checks, outcomes);
    QuietCadence(checks, outcomes);
  }

  // ---------------------------------------------------------------------------
  // Scenarios

  /**
   * Checks `true` in dirA and `false` in dirB: exit 1, and only dirB is
   * dumped. In live mode, whichever check finishes first, the run makes 13
   * writes: 3 renders, 8 for the dump block and 2 for the banner.
   */
  lemma ScenarioOneFails(outA: string, outB: string, order: seq<nat>)
    requires IsCompletionOrder(order, 2)
    ensures ExitStatus([Outcome(0, outA), Outcome(1, outB)]) == 1
    ensures |RunOutput([Check("dirA", "true"), Check("dirB", "false")], [Outcome(0, outA), Outcome(1, outB)], order, false)| == 13
    ensures FailureReport([Check("dirA", "true"), Check("dirB", "false")], [Outcome(0, outA), Outcome(1, outB)])
            == DumpBlock(Check("dirB", "false"), outB) + FailedBanner
  {
    var checks := [Check("dirA", "true"), Check("dirB", "false")];
    var outcomes := [Outcome(0, outA), Outcome(1, outB)];
    assert Failed(Completed(outcomes)[1]);
    assert checks[..1] == [checks[0]] && outcomes[..1] == [outcomes[0]];
    assert Dumps(checks[..1], outcomes[..1]) == [];
    var report := FailureReport(checks, outcomes);
    assert |report| == 10 by {
      assert report == DumpBlock(checks[1], outB) + FailedBanner;
    }
    LiveCadence(checks, outcomes, order);
    assert RunOutput(checks, outcomes, order, false) == LiveRenders(checks, outcomes, order) + report;
  }

  /** Checks `true` in dirA and dirB: exit 0, and no dump blocks. */
  lemma ScenarioAllPass(outA: string, outB: string)
    ensures ExitStatus([Outcome(0, outA), Outcome(0, outB)]) == 0
    ensures FailureReport([Check("dirA", "true"), Check("dirB", "true")], [Outcome(0, outA), Outcome(0, outB)]) == []
  {
    ReportEmptyIffPassed([Check("dirA", "true"), Check("dirB", "true")], [Outcome(0, outA), Outcome(0, outB)]);
  }
}
