# pre-commit status renderer and result aggregator

`git/pre-commit.py` runs a fixed list of checks, one process per check and
all at once. While they run it keeps a status display up to date on
standard error. When they are done it dumps the combined output of every
failed check and exits with status 1 if any check failed. This project
models the sequential core of `run_precommit_checks` in Dafny and proves
what the script promises about its output:

- `fmt_rc`, the glyph for one task's state;
- `print_status`, which builds the header and status lines and writes the
  snapshot, after clearing the previous one when asked to;
- the two terminal helpers `term_clear_lines` and `term_print_lines`;
- the render cadence: quiet mode and live mode;
- the failure dump loop and the exit code.

A task's state is `Option<int>`. `None` means pending and `Some(rc)` means
finished with exit code `rc`. A task *failed* when its state is Python-truthy,
that is `Some(rc)` with `rc != 0`, so a negative code (a signal) also fails.
A process result is given to the model as an `Outcome(rc, output)`. The
order in which the futures finish is given as a completion order: a
permutation of the task indices. Standard error is modelled as the sequence
of strings written to it, one element per write call. `sys.stderr.write(x)`
is the single write `x`. `eprint(x)` goes through `print`, which writes `x`
and then the line end, so it is the two writes `x` and `"\n"` (`Eprint`);
`eprint()` is the single write `"\n"`.

Modules, one file each:

- `Options`: the option datatype.
- `Text`: join, split, count, suffix tests and decimal rendering and
  parsing on `seq<char>`, with the lemmas the other modules rely on.
- `Terminal`: the ANSI styles, `term_clear_lines` (`ClearLines`) and
  `term_print_lines` (`PrintLines`).
- `Status`: `fmt_rc` (`FmtRc`), the header, the status lines, the snapshot
  (`Snapshot`, the `output_lines` list) and what one `print_status(clear)`
  call writes (`Render`).
- `Coordinator`:
  - the task states after k completions (`StateAfter`);
  - the sequences of `print_status` calls that live and quiet mode make
    (`LiveCalls`, `QuietCalls`) and the text they write (`Progress`);
  - the failure dump (`Dumps`), the exit code (`ExitStatus`) and the whole
    run (`RunOutput`);
  - the imperative methods `RunPrecommitChecks`, `RunLive`, `RunQuiet` and
    `DumpFailures`, proved against those functions.

The status line's exit note is checked by reading it back. `ReadExitNote`
parses the code back out of the tail of a rendered line, and
`StatusLineExitNote` proves that it returns the failed code, or nothing when
the task did not fail.

## Model

| member | source | states |
|---|---|---|
| Status.FmtRc | git/pre-commit.py:81-84 | the result holds `?` exactly for a pending task, `✓` exactly for exit code 0 and `✗` exactly for a nonzero code |
| Status.Failed | git/pre-commit.py:94 | definition: the truthiness test `if rc` on a state (finished with a nonzero code); properties in StatusLineExitNote and HeaderFailedTag |
| Status.AnyFailed | git/pre-commit.py:88 | definition: `any(rcs)`; properties in HeaderFailedTag, FailedAfter and CompletedFailed |
| Status.Header | git/pre-commit.py:87-92 | the header line always ends in the reset style |
| Status.HeaderFailedTag | git/pre-commit.py:87-92 | the header contains `[FAILED]` if and only if some finished task has a nonzero code |
| Status.HeaderPlainUnlessFailed | git/pre-commit.py:87-92 | when every task is pending or exited 0, the header is the plain title, whatever the mix |
| Status.HeaderSingle | git/pre-commit.py:88-91 | the header holds no line break |
| Status.StatusStem | git/pre-commit.py:94 | the part of the line's f-string before the exit note ends in the reset style |
| Status.ExitNote | git/pre-commit.py:94 | definition: `  (exit rc)` when `if rc` holds, nothing otherwise; properties in ExitNoteReadBack and StatusLineExitNote |
| Status.StatusLine | git/pre-commit.py:94 | a status line always ends in the reset style; its note, glyph and line breaks are proved in StatusLineExitNote, StatusLineGlyph and StatusLineSingle |
| Status.StatusLines | git/pre-commit.py:93-94 | `zip` makes as many status lines as the shorter of the checks and the states |
| Status.StatusLinesAt | git/pre-commit.py:93-94 | status line i is built from check i and the state of task i |
| Status.Snapshot | git/pre-commit.py:95-96 | the snapshot has 1 + N lines for N checks, header first (the `assert` of line 96) |
| Status.SnapshotLine | git/pre-commit.py:93-95 | line 1 + i of the snapshot is the status line of check i |
| Status.ExitNoteReadBack | git/pre-commit.py:94 | after any text ending in the reset style, the exit note reads back as the failed code, or as nothing when the task did not fail |
| Status.FailedNoteReadBack | git/pre-commit.py:94 | the note of a nonzero code reads back as that code, whatever text precedes it |
| Status.StatusLineExitNote | git/pre-commit.py:94 | a status line carries an `(exit rc)` note exactly when its task failed, and the note reads back as that rc |
| Status.StatusLineHas | git/pre-commit.py:94 | a character foreign to the fixed text and to numbers occurs in a status line iff it occurs in a label or in the glyph |
| Status.StatusLineGlyph | git/pre-commit.py:93-94 | with glyph-free labels, each glyph occurs in a status line exactly when the task is in the matching state |
| Status.StatusLineSingle | git/pre-commit.py:93-94 | a status line has no line break when its labels have none |
| Status.SnapshotBlock | git/pre-commit.py:93-97 | with single-line labels and for any mix of states, the written-out snapshot has 1 + N newlines and splits back into its lines |
| Status.Render | git/pre-commit.py:97 | the `progress` string of one call (clear prefix when asked, then the printed snapshot) always ends in a newline; its shape is proved in RenderShape and RenderClearsOwnBlock |
| Status.RenderShape | git/pre-commit.py:96-97 | a render is `PrintLines` of the snapshot, preceded when clearing by the clear sequence for exactly 1 + N lines |
| Status.RenderClearsOwnBlock | git/pre-commit.py:96-97 | a render moves up over as many lines as it prints, 1 + N, and its clear prefix holds no newline |
| Status.RedrawErasesPrevious | git/pre-commit.py:97 | a clearing render erases exactly the number of lines the previous render printed, whatever that render showed |
| Terminal.ClearLines | git/pre-commit.py:128-132 | `term_clear_lines(n)` has length 8·n, is empty for n = 0 and holds no newline |
| Terminal.ClearLinesPeriodic | git/pre-commit.py:128-132 | `term_clear_lines(n)` is cursor-up/erase-line repeated: character i is character i mod 8 of that sequence |
| Terminal.PrintLines | git/pre-commit.py:135-137 | `term_print_lines` always ends in a newline |
| Terminal.PrintLinesNewlines | git/pre-commit.py:135-137 | for a non-empty list of newline-free lines, the result holds exactly `len(lines)` newlines (an empty list prints one, PrintLinesEmpty) |
| Terminal.PrintLinesEmpty | git/pre-commit.py:135-137 | an empty list of lines still prints one newline |
| Terminal.PrintLinesSplit | git/pre-commit.py:135-137 | for a non-empty list of newline-free lines, splitting the result at newlines gives back the lines, then the empty tail |
| Text.Join | git/pre-commit.py:136-137 | definition: `lf.join(lines)`; properties in CountJoin and SplitJoinThen |
| Text.IntToDecimal | git/pre-commit.py:94 | the `{rc}` text of an exit code is nonempty and made of digits and `-`; it parses back to the code (ParseIntDecimal) |
| Text.SplitJoinThen | git/pre-commit.py:136 | for a non-empty list of separator-free lines, splitting them joined by the separator, followed by the separator and more text, gives back the lines, then the pieces of that text |
| Text.CountJoin | git/pre-commit.py:136 | joining k ≥ 1 separator-free lines puts exactly k − 1 separators in between |
| Text.ParseIntDecimal | git/pre-commit.py:94 | the decimal text of an exit code, negative ones included, parses back to that code |
| Coordinator.Pending | git/pre-commit.py:106 | definition: the states before any completion, every task pending (`f.done()` false); properties in LiveCadence |
| Coordinator.Completed | git/pre-commit.py:101-102 | definition: the states once every task has finished, each with its exit code; properties in StateAfterAll, CompletedFailed and QuietCadence |
| Coordinator.StateAfter | git/pre-commit.py:87 | the state list always has one entry per task |
| Coordinator.StateAfterAt | git/pre-commit.py:87 | after k completions task i shows its code iff it is among the first k of the order, and is pending otherwise |
| Coordinator.StateAfterStep | git/pre-commit.py:107 | each completion turns one pending task into a finished one and leaves every other entry unchanged |
| Coordinator.StateAfterAll | git/pre-commit.py:107-108 | whatever the order, after the last completion every task shows its exit code |
| Coordinator.FailedAfter | git/pre-commit.py:87-88 | after k completions `any(rcs)` holds iff one of those k tasks has a nonzero code, so a failure shows before all tasks are done |
| Coordinator.FailedTagStays | git/pre-commit.py:87-88 | once `any(rcs)` holds, it holds after every later completion |
| Coordinator.Progress | git/pre-commit.py:97-98 | each `print_status` call makes exactly one write |
| Coordinator.LiveCallsUpTo | git/pre-commit.py:105-108 | up to completion k the live branch has made 1 + k calls, each reading one state per task |
| Coordinator.LiveCalls | git/pre-commit.py:105-108 | live mode makes 1 + N `print_status` calls, each reading one state per task |
| Coordinator.QuietCalls | git/pre-commit.py:100-104 | every quiet-mode call reads one state per task |
| Coordinator.LiveRenders | git/pre-commit.py:105-108 | definition: the text of the live calls; properties in LiveRenderAt, LiveCadence, LiveRedrawsInPlace and LiveLastRender |
| Coordinator.QuietRenders | git/pre-commit.py:100-104 | definition: the text of the quiet calls; properties in QuietCadence |
| Coordinator.LiveCallsUpToAt | git/pre-commit.py:105-108 | live call k reads the states after the first k completions and clears unless it is the first |
| Coordinator.LiveRenderAt | git/pre-commit.py:105-108 | live write k is the render of the states after k completions, clearing unless k = 0 |
| Coordinator.LiveCadence | git/pre-commit.py:105-108 | live mode makes 1 + N writes: the first shows all-pending states with no clear prefix, every later one clears exactly 1 + N lines |
| Coordinator.LiveRedrawsInPlace | git/pre-commit.py:105-108 | with single-line labels each live redraw clears exactly the number of newlines the previous write printed |
| Coordinator.LiveLastRender | git/pre-commit.py:107-108 | whatever the completion order, the last live write shows every task's final state |
| Coordinator.QuietCadence | git/pre-commit.py:100-104 | quiet mode makes one write, of the final states and without clearing, if some code is nonzero, and no write otherwise |
| Coordinator.CompletedFailed | git/pre-commit.py:102 | once every task has finished, `any` over the codes holds iff some code is nonzero |
| Coordinator.ExitStatus | git/pre-commit.py:123-125 | the exit status is 0 or 1, and it is 1 iff some check's code is nonzero |
| Coordinator.Eprint | git/pre-commit.py:39-40 | definition: `print` to standard error writes the text, then the line end |
| Coordinator.DumpBlock | git/pre-commit.py:116-121 | definition: the 8 writes of one failure block (`eprint()`, the titled header, the rule, the captured output, the rule) |
| Coordinator.Dumps | git/pre-commit.py:111-121 | definition: the failure blocks, checks taken in declaration order; properties in DumpsFollowDeclarationOrder |
| Coordinator.FailureReport | git/pre-commit.py:111-124 | definition: the dumps, then the banner `FailedBanner` (the two writes of line 124) when a check failed; properties in ReportEmptyIffPassed |
| Coordinator.RunOutput | git/pre-commit.py:100-124 | definition: the renders of the chosen mode, then the failure report; properties in QuietPassIsSilent and the cadence lemmas |
| Coordinator.FailingIndices | git/pre-commit.py:111-114 | the failed checks' indices, strictly increasing (declaration order), holding exactly the checks with a nonzero code |
| Coordinator.DumpsFollowDeclarationOrder | git/pre-commit.py:111-121 | the dump is one block per failed check, in declaration order, and nothing else, whatever the completion order |
| Coordinator.ReportEmptyIffPassed | git/pre-commit.py:111-125 | nothing is written after the renders iff the exit status is 0 |
| Coordinator.QuietPassIsSilent | git/pre-commit.py:100-125 | a quiet run in which every check passes writes nothing at all |
| Coordinator.ScenarioOneFails | git/pre-commit.py:100-125 | with `true` in dirA and `false` in dirB, only dirB is dumped, the banner follows and the exit status is 1; in live mode the run makes 13 writes, whatever the completion order |
| Coordinator.ScenarioAllPass | git/pre-commit.py:111-125 | with two passing checks nothing is reported and the exit status is 0 |
| Coordinator.RunQuiet | git/pre-commit.py:100-104 | the quiet branch's short-circuiting `any` loop makes exactly the calls `QuietCalls` gives |
| Coordinator.RunLive | git/pre-commit.py:105-108 | the live loop makes exactly the calls `LiveCalls` gives for the completion order |
| Coordinator.DumpFailures | git/pre-commit.py:111-121 | the failure loop makes exactly the writes `Dumps` gives and sets its flag iff some code is nonzero |
| Coordinator.RunPrecommitChecks | git/pre-commit.py:100-125 | the whole run makes exactly the writes `RunOutput` gives (renders, dump blocks, banner) and returns `ExitStatus` |

## Left out

- The process wrappers `run_cmd_combined_stdout` and `run_cmd_inherit_stdx` (git/pre-commit.py:43-51) are replaced by given `(rc, output)` results, because they only call `subprocess.run`.
- A check whose executable cannot be started is not modelled. In the code, `f.result()` then re-raises the exception and nothing catches it, so the run stops with that exception; the failure does not become a nonzero exit code for that check. The model follows the code and takes only finished results.
- The process pool, `executor.submit`, `concurrent.futures.wait` and `as_completed` are concurrency. They are replaced by a given completion order, applied one completion at a time.
- In the code, each `print_status` reads `f.done()` at render time, so a render may see more finished tasks than `as_completed` has yielded so far. The model shows exactly one more completion per live render.
- LiveCadence, LiveRenderAt, LiveCallsUpToAt: the first live render shows every task pending only in the model. In the code the first `print_status` (line 106) polls `f.done()` after the tasks were submitted (line 74), so it may already show finished tasks, and render k may show more than k.
- `RunPrecommitChecks` collects the `print_status` calls first and then produces their text with `Progress`. Nothing else is written between them, so the sequence of writes is the same as writing each render when its call happens.
- `QUIET` is the constant `False` (git/pre-commit.py:19), and the commented-out `QUIET = FROM_GIT` would tie it to the command line. The model takes it as a parameter so that both branches are covered.
- The `assert` of line 96 can never fail in the model, because every call reads one state per check. `Render` therefore requires `|rcs| == |checks|`, and the `AssertionError` path is not modelled.
- `shlex.join` is a library call, so each command label is an opaque string. `CLEAR_LINE` is unused.
- `fulfill_prerequisities`, `os.chdir`, `REPO_ROOT` and the `--from-git` flag (git/pre-commit.py:10-13, 54-67) are environment set-up. `main` (git/pre-commit.py:140-147) runs `fulfill_prerequisities` and then starts the pool. The real `sys.stderr` writes and `sys.exit` (git/pre-commit.py:98, 116-125) are I/O: stderr becomes the returned sequence of writes and `sys.exit(1)` becomes the returned status.
- A run that returns normally is given exit status 0, since Python exits with 0 when `main` returns.
