/**
 * The status display of `run_precommit_checks` (git/pre-commit.py):
 * `fmt_rc`, the header line, one status line per check and the whole
 * snapshot that `print_status` writes.
 */
module Status {
  import opened Options
  import opened Text
  import opened Terminal

  /** A task is pending (`None`) or has finished with an exit code. */
  type TaskState = Option<int>

  /** One configured check: its working directory and its command label. */
  datatype Check = Check(cwd: string, cmd: string)

  const RepoName: string := "YOUR_REPO_NAME"

  const PendingGlyph: char := '?'
  const PassGlyph: char := '\U{2713}'
  const FailGlyph: char := '\U{2717}'

  /** Python truthiness of the state: a finished task with a nonzero code. */
  predicate Failed(s: TaskState) {
    s.Some? && s.value != 0
  }

  /** `any(rcs)` */
  predicate AnyFailed(rcs: seq<TaskState>) {
    exists i :: 0 <= i < |rcs| && Failed(rcs[i])
  }

  /** `fmt_rc`: the coloured glyph of one task's state. */
  function FmtRc(rc: TaskState): (r: string)
    ensures PendingGlyph in r <==> rc.None?
    ensures PassGlyph in r <==> rc == Some(0)
    ensures FailGlyph in r <==> Failed(rc)
  {
    if rc.None? then Faint + [PendingGlyph] + Reset
    else if rc.value == 0 then Green + [PassGlyph] + Reset
    else Red + [FailGlyph] + Reset
  }

  const HeaderTitle: string := Blue + "pre-commit checks:" + Reset
  const FailedTag: string := "[FAILED]"

  /** The first line of every snapshot. */
  function Header(rcs: seq<TaskState>): (r: string)
    ensures EndsWith(r, Reset)
  {
    if AnyFailed(rcs) then HeaderTitle + " " + Red + FailedTag + Reset
    else HeaderTitle
  }

  const ExitNoteOpen: string := "  (exit "

  /** The `  (exit rc)` note, present only for a failed task. */
  function ExitNote(rc: TaskState): string {
    if Failed(rc) then ExitNoteOpen + IntToDecimal(rc.value) + ")" else ""
  }

  /** The part of a status line before its exit note. */
  function StatusStem(c: Check, rc: TaskState): (r: string)
    ensures EndsWith(r, Reset)
  {
    Blue + "[" + RepoName + "/" + c.cwd + "]" + Reset + " " + FmtRc(rc)
    + Faint + ": " + c.cmd + Reset
  }

  /** One status line: repository and directory, glyph, command, exit note. */
  function StatusLine(c: Check, rc: TaskState): (r: string)
    ensures EndsWith(r, Reset)
  {
    StatusStem(c, rc) + ExitNote(rc) + Reset
  }

  /**
   * Reads the exit code back from the tail of a status line: the line must
   * end in `  (exit <decimal>)` followed by the reset style.
   */
  function ReadExitNote(line: string): Option<int> {
    if !EndsWith(line, Reset) || |line| == |Reset| then None
    else
      var body := line[..|line| - |Reset|];
      if body[|body| - 1] != ')' then None
      else
        var inner := body[..|body| - 1];
        match LastIndexOf(inner, ' ')
        case None => None
        case Some(p) =>
          if EndsWith(inner[..p + 1], ExitNoteOpen) then ParseInt(inner[p + 1..]) else None
  }

  /** The status lines of `zip(cwds, check_cmds, rcs)`: as many as the shorter list. */
  function StatusLines(checks: seq<Check>, rcs: seq<TaskState>): (r: seq<string>)
    ensures |r| == if |checks| < |rcs| then |checks| else |rcs|
  {
    if |checks| == 0 || |rcs| == 0 then []
    else [StatusLine(checks[0], rcs[0])] + StatusLines(checks[1..], rcs[1..])
  }

  /** `output_lines`: the header, then one status line per check. */
  function Snapshot(checks: seq<Check>, rcs: seq<TaskState>): (r: seq<string>)
    requires |rcs| == |checks|
    ensures |r| == 1 + |checks|
    ensures r[0] == Header(rcs)
  {
    [Header(rcs)] + StatusLines(checks, rcs)
  }

  /**
   * What one `print_status(clear)` call writes: when clearing, the cursor
   * first goes up over as many lines as the snapshot has.
   */
  function Render(checks: seq<Check>, rcs: seq<TaskState>, clear: bool): (r: string)
    requires |rcs| == |checks|
    ensures |r| > 0 && r[|r| - 1] == '\n'
  {
    var lines := Snapshot(checks, rcs);
    (if clear then ClearLines(|lines|) else "") + PrintLines(lines)
  }

  /** Neither label of the check holds a line break. */
  predicate SingleLine(c: Check) {
    '\n' !in c.cwd && '\n' !in c.cmd
  }

  predicate AllSingleLine(checks: seq<Check>) {
    forall i :: 0 <= i < |checks| ==> SingleLine(checks[i])
  }

  // ---------------------------------------------------------------------------
  // Properties

  /** Status line i is rendered from check i and the state of task i. */
  lemma {:induction false} StatusLinesAt(checks: seq<Check>, rcs: seq<TaskState>, i: nat)
    requires i < |checks| && i < |rcs|
    ensures StatusLines(checks, rcs)[i] == StatusLine(checks[i], rcs[i])
  {
    if i > 0 {
      StatusLinesAt(checks[1..], rcs[1..], i - 1);
    }
  }

  /** Below the header, line 1 + i of a snapshot is the status line of check i. */
  lemma SnapshotLine(checks: seq<Check>, rcs: seq<TaskState>, i: nat)
    requires |rcs| == |checks| && i < |checks|
    ensures Snapshot(checks, rcs)[1 + i] == StatusLine(checks[i], rcs[i])
  {
    StatusLinesAt(checks, rcs, i);
  }

  /** The header carries `[FAILED]` exactly when some finished task has a nonzero code. */
  lemma HeaderFailedTag(rcs: seq<TaskState>)
    ensures Contains(Header(rcs), FailedTag) <==> AnyFailed(rcs)
  {
    var h := Header(rcs);
    if AnyFailed(rcs) {
      var i := |HeaderTitle| + 1 + |Red|;
      assert h == (HeaderTitle + " " + Red) + FailedTag + Reset;
      assert h[i..i + |FailedTag|] == FailedTag;
      assert OccursAt(h, FailedTag, i);
    } else {
      assert 'F' in FailedTag by { assert FailedTag[1] == 'F'; }
      if Contains(h, FailedTag) {
        ContainsChar(h, FailedTag, 'F');
        assert false;
      }
    }
  }

  /** Pending tasks and zero codes never raise the tag, whatever else the states hold. */
  lemma HeaderPlainUnlessFailed(rcs: seq<TaskState>)
    requires forall i :: 0 <= i < |rcs| ==> rcs[i].None? || rcs[i] == Some(0)
    ensures Header(rcs) == HeaderTitle
  {
  }

  /**
   * The exit note is read back from behind any text: when there is no note,
   * the text before the final reset ends in the reset's `m`, not in `)`.
   */
  lemma ExitNoteReadBack(stem: string, rc: TaskState)
    requires Failed(rc) || EndsWith(stem, Reset)
    ensures ReadExitNote(stem + ExitNote(rc) + Reset) == if Failed(rc) then Some(rc.value) else None
  {
    if Failed(rc) {
      FailedNoteReadBack(stem, rc.value);
    } else {
      var line := stem + ExitNote(rc) + Reset;
      assert line == stem + Reset;
      assert line[|line| - |Reset|..] == Reset;
      assert line[..|line| - |Reset|] == stem;
      assert stem[|stem| - 1] == Reset[|Reset| - 1] == 'm';
    }
  }

  /** The note of a failed code, behind any text, reads back as that code. */
  lemma FailedNoteReadBack(stem: string, code: int)
    requires code != 0
    ensures ReadExitNote(stem + ExitNote(Some(code)) + Reset) == Some(code)
  {
    var d := IntToDecimal(code);
    var x := stem + ExitNoteOpen;
    var body := x + d + ")";
    var line := body + Reset;
    assert stem + ExitNote(Some(code)) + Reset == line;
    assert line[|line| - |Reset|..] == Reset;
    assert line[..|line| - |Reset|] == body;
    var inner := body[..|body| - 1];
    assert inner == x + d;
    assert ' ' !in d;
    assert x[|x| - 1] == ' ';
    LastIndexOfAppend(x, d, ' ');
    assert inner[..|x|] == x;
    assert inner[|x|..] == d;
    ParseIntDecimal(code);
  }


  /** A status line carries an exit note exactly when its task failed, and the note names the code. */
  lemma StatusLineExitNote(c: Check, rc: TaskState)
    ensures ReadExitNote(StatusLine(c, rc)) == if Failed(rc) then Some(rc.value) else None
  {
    var stem := StatusStem(c, rc);
    assert stem[|stem| - |Reset|..] == Reset;
    ExitNoteReadBack(stem, rc);
  }

  /** Neither label of the check holds one of the three status glyphs. */
  predicate GlyphFree(c: Check) {
    forall g :: g in [PendingGlyph, PassGlyph, FailGlyph] ==> g !in c.cwd && g !in c.cmd
  }

  /** All the fixed text a status line is built from, outside the glyph cell. */
  const LineText: string := Blue + "[" + RepoName + "/" + "]" + Reset + " " + Faint + ": " + ExitNoteOpen + ")"

  /** A character foreign to the fixed text and to numbers comes from a label or from the glyph cell. */
  lemma StatusLineHas(c: Check, rc: TaskState, x: char)
    requires x !in LineText && !IsDigit(x) && x != '-'
    ensures x in StatusLine(c, rc) <==> x in c.cwd || x in FmtRc(rc) || x in c.cmd
  {
    assert x !in ExitNote(rc) by {
      if Failed(rc) {
        assert x !in IntToDecimal(rc.value);
      }
    }
  }

  /** The fixed text of a status line holds no newline ... */
  lemma NewlineNotInLineText()
    ensures '\n' !in LineText
  {
  }

  /** ... and no status glyph. */
  lemma GlyphNotInLineText(g: char)
    requires g == PendingGlyph || g == PassGlyph || g == FailGlyph
    ensures g !in LineText
  {
  }

  /** With glyph-free labels, the glyph a status line shows identifies its task's state. */
  lemma StatusLineGlyph(c: Check, rc: TaskState)
    requires GlyphFree(c)
    ensures PendingGlyph in StatusLine(c, rc) <==> rc.None?
    ensures PassGlyph in StatusLine(c, rc) <==> rc == Some(0)
    ensures FailGlyph in StatusLine(c, rc) <==> Failed(rc)
  {
    GlyphNotInLineText(PendingGlyph);
    GlyphNotInLineText(PassGlyph);
    GlyphNotInLineText(FailGlyph);
    StatusLineHas(c, rc, PendingGlyph);
    StatusLineHas(c, rc, PassGlyph);
    StatusLineHas(c, rc, FailGlyph);
  }

  lemma HeaderSingle(rcs: seq<TaskState>)
    ensures '\n' !in Header(rcs)
  {
    assert '\n' !in HeaderTitle;
    assert '\n' !in " " + Red + FailedTag + Reset;
  }

  /** A status line has no line break when its labels have none. */
  lemma StatusLineSingle(c: Check, rc: TaskState)
    requires SingleLine(c)
    ensures '\n' !in StatusLine(c, rc)
  {
    NewlineNotInLineText();
    StatusLineHas(c, rc, '\n');
  }

  /**
   * With single-line labels, every snapshot, whatever mix of pending and
   * finished states it shows, written out holds one newline per line, 1 + N
   * in all, and splits back into its lines.
   */
  lemma SnapshotBlock(checks: seq<Check>, rcs: seq<TaskState>)
    requires |rcs| == |checks|
    requires AllSingleLine(checks)
    ensures Count(PrintLines(Snapshot(checks, rcs)), '\n') == 1 + |checks|
    ensures Split(PrintLines(Snapshot(checks, rcs)), '\n') == Snapshot(checks, rcs) + [""]
  {
    var lines := Snapshot(checks, rcs);
    forall i | 0 <= i < |lines|
      ensures '\n' !in lines[i]
    {
      if i > 0 {
        SnapshotLine(checks, rcs, i - 1);
        StatusLineSingle(checks[i - 1], rcs[i - 1]);
      } else {
        HeaderSingle(rcs);
      }
    }
    PrintLinesNewlines(lines);
    PrintLinesSplit(lines);
  }

  /** Thanks to the 1 + N line count, a clearing render moves up over 1 + N lines. */
  lemma RenderShape(checks: seq<Check>, rcs: seq<TaskState>, clear: bool)
    requires |rcs| == |checks|
    ensures Render(checks, rcs, clear)
            == (if clear then ClearLines(1 + |checks|) else "") + PrintLines(Snapshot(checks, rcs))
  {
    var lines := Snapshot(checks, rcs);
    assert "" + PrintLines(lines) == PrintLines(lines);
  }

  /**
   * A render erases exactly as many lines as it then prints: the clear prefix
   * holds no newline, and it moves up over 1 + N lines.
   */
  lemma RenderClearsOwnBlock(checks: seq<Check>, rcs: seq<TaskState>, clear: bool)
    requires |rcs| == |checks|
    requires AllSingleLine(checks)
    ensures Render(checks, rcs, clear)
            == (if clear then ClearLines(1 + |checks|) else "") + PrintLines(Snapshot(checks, rcs))
    ensures Count(Render(checks, rcs, clear), '\n') == 1 + |checks|
  {
    var lines := Snapshot(checks, rcs);
    var prefix := if clear then ClearLines(|lines|) else "";
    assert Render(checks, rcs, clear) == prefix + PrintLines(lines);
    assert '\n' !in prefix;
    SnapshotBlock(checks, rcs);
    CountAppend(prefix, PrintLines(lines), '\n');
  }

  /**
   * Whatever the earlier render showed, a clearing render erases exactly the
   * lines that render printed before it prints its own snapshot.
   */
  lemma RedrawErasesPrevious(checks: seq<Check>, earlier: seq<TaskState>, clearedBefore: bool, now: seq<TaskState>)
    requires |earlier| == |checks| && |now| == |checks|
    requires AllSingleLine(checks)
    ensures Render(checks, now, true)
            == ClearLines(Count(Render(checks, earlier, clearedBefore), '\n')) + PrintLines(Snapshot(checks, now))
  {
    RenderClearsOwnBlock(checks, earlier, clearedBefore);
    RenderShape(checks, now, true);
  }
}
