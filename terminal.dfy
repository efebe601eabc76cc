/**
 * ANSI styles and the two terminal helpers of git/pre-commit.py:
 * `term_clear_lines` (erase the last n lines) and `term_print_lines`
 * (write a block of lines, newline terminated).
 */
module Terminal {
  import opened Text

  const Esc: char := '\U{1B}'

  // SGR styles used by the status display.
  const Reset: string := [Esc] + "[0m"
  const Red: string := [Esc] + "[31;1m"
  const Green: string := [Esc] + "[32;1m"
  const Yellow: string := [Esc] + "[33;1m"
  const Blue: string := [Esc] + "[34;1m"
  const Faint: string := [Esc] + "[2m"

  /** Cursor up one line (`ESC [1A`), then erase that whole line (`ESC [2K`). */
  const ClearOneLine: string := [Esc] + "[1A" + [Esc] + "[2K"

  /** `term_clear_lines(n)`: the clear-one-line sequence repeated `n` times. */
  function ClearLines(n: nat): (r: string)
    ensures |r| == |ClearOneLine| * n
    ensures n == 0 ==> r == ""
    ensures '\n' !in r
  {
    if n == 0 then "" else ClearOneLine + ClearLines(n - 1)
  }

  /** `term_print_lines(lines)`: the lines joined by newlines, plus a final newline. */
  function PrintLines(lines: seq<string>): (r: string)
    ensures |r| > 0 && r[|r| - 1] == '\n'
  {
    Join(lines, '\n') + "\n"
  }

  /**
   * The clear sequence is 8 characters long, so clearing n lines writes 8 * n
   * characters, and character i is character i mod 8 of the sequence.
   */
  lemma {:induction false} ClearLinesPeriodic(n: nat)
    ensures |ClearLines(n)| == 8 * n
    ensures forall i :: 0 <= i < 8 * n ==> ClearLines(n)[i] == ClearOneLine[i % 8]
  {
    if n > 0 {
      ClearLinesPeriodic(n - 1);
      var r := ClearLines(n);
      forall i | 0 <= i < 8 * n
        ensures r[i] == ClearOneLine[i % 8]
      {
        if i >= 8 {
          assert r[i] == ClearLines(n - 1)[i - 8];
          assert (i - 8) % 8 == i % 8;
        }
      }
    }
  }

  /** With no newline inside any line, the block holds exactly one newline per line. */
  lemma PrintLinesNewlines(lines: seq<string>)
    requires |lines| > 0
    requires forall i :: 0 <= i < |lines| ==> '\n' !in lines[i]
    ensures Count(PrintLines(lines), '\n') == |lines|
  {
    CountJoin(lines, '\n');
    CountAppend(Join(lines, '\n'), "\n", '\n');
  }

  /** An empty block is a lone newline: one newline, not zero. */
  lemma PrintLinesEmpty()
    ensures PrintLines([]) == "\n"
    ensures Count(PrintLines([]), '\n') == 1
  {
  }

  /** Splitting a block at its newlines gives back its lines, then the empty rest. */
  lemma PrintLinesSplit(lines: seq<string>)
    requires |lines| > 0
    requires forall i :: 0 <= i < |lines| ==> '\n' !in lines[i]
    ensures Split(PrintLines(lines), '\n') == lines + [""]
  {
    SplitJoinThen(lines, "", '\n');
    assert Join(lines, '\n') + ['\n'] + "" == PrintLines(lines);
  }
}
