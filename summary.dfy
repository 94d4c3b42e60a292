/**
 * The output summarizer (agent.js `summarizeOutput`): renders one command's
 * execution result as a bounded observation for the planner.
 */
module Summary {
  import opened Wrappers
  import opened Text

  /** What the execution port reports for one command: `{code, stdout, stderr}`. */
  datatype ExecResult = ExecResult(code: int, stdout: string, stderr: string)

  /** The character budget of one observation. */
  const Limit := 6000

  /** Appended to an observation that was cut at `Limit`. */
  const Marker := "\n...(truncated)"

  const ExitPrefix := "exit_code: "

  function ExitLine(code: int): string {
    ExitPrefix + IntToString(code)
  }

  function StreamBlock(stream: string, output: string): string {
    if output != "" then stream + ":\n" + output else stream + ":\n(none)"
  }

  /** The three parts joined by newlines, before truncation. */
  function Combined(r: ExecResult): string {
    ExitLine(r.code) + "\n" + StreamBlock("stdout", r.stdout) + "\n" + StreamBlock("stderr", r.stderr)
  }

  /** `summarizeOutput`: never longer than the budget plus the marker; a result
      longer than the budget, and only such a result, comes back longer than
      the budget; whatever is kept is a prefix of the untruncated text. */
  function SummarizeOutput(r: ExecResult): (out: string)
    ensures |out| <= Limit + |Marker|
    ensures |out| > Limit <==> |Combined(r)| > Limit
    ensures |Combined(r)| <= Limit ==> out == Combined(r)
    ensures |Combined(r)| > Limit ==> out[..Limit] == Combined(r)[..Limit] && out[Limit..] == Marker
  {
    var combined := Combined(r);
    if |combined| <= Limit then combined else combined[..Limit] + Marker
  }

  /** Text up to (not including) the first newline. */
  function FirstLine(s: string): (line: string)
    ensures StartsWith(s, line) && '\n' !in line
    ensures |line| < |s| ==> s[|line|] == '\n'
  {
    if s == [] || s[0] == '\n' then [] else [s[0]] + FirstLine(s[1..])
  }

  /** What a reader of an observation can take its exit code to be. */
  function ReadExitCode(observation: string): Option<int> {
    var line := FirstLine(observation);
    if StartsWith(line, ExitPrefix) then ParseInt(line[|ExitPrefix|..]) else None
  }

  lemma {:induction false} FirstLineOf(line: string, rest: string)
    requires '\n' !in line
    ensures FirstLine(line + "\n" + rest) == line
  {
    if line != [] {
      assert (line + "\n" + rest)[1..] == line[1..] + "\n" + rest;
      FirstLineOf(line[1..], rest);
    }
  }

  /** The untruncated text opens with the exit line. */
  lemma CombinedFirstLine(r: ExecResult)
    ensures FirstLine(Combined(r)) == ExitLine(r.code)
  {
    var out := StreamBlock("stdout", r.stdout);
    var err := StreamBlock("stderr", r.stderr);
    IntToStringOneLine(r.code);
    assert '\n' !in ExitLine(r.code);
    assert Combined(r) == ExitLine(r.code) + "\n" + (out + "\n" + err);
    FirstLineOf(ExitLine(r.code), out + "\n" + err);
  }

  /** The layout of an exit line and two stream blocks, for any texts. */
  lemma BlocksLayout(line: string, shownOut: string, shownErr: string)
    ensures var c := line + "\n" + ("stdout:\n" + shownOut) + "\n" + ("stderr:\n" + shownErr);
            StartsWith(c[|line|..], "\nstdout:\n" + shownOut + "\n") &&
            EndsWith(c, "\nstderr:\n" + shownErr)
  {
    var head := "\nstdout:\n" + shownOut + "\n";
    var tail := "\nstderr:\n" + shownErr;
    var c := line + "\n" + ("stdout:\n" + shownOut) + "\n" + ("stderr:\n" + shownErr);
    assert c == line + head + ("stderr:\n" + shownErr);
    assert c[|line|..] == head + ("stderr:\n" + shownErr);
    assert c[|line|..][..|head|] == head;
    assert c == line + "\n" + ("stdout:\n" + shownOut) + tail;
    assert c[|c| - |tail|..] == tail;
  }

  /** The text shown for a stream: its output, or `(none)` when it printed nothing. */
  function Shown(output: string): string {
    if output == "" then "(none)" else output
  }

  /** Right after the exit line comes the stdout block: the stream's text, or
      the `(none)` placeholder when it printed nothing. */
  lemma StdoutLayout(r: ExecResult)
    ensures StartsWith(Combined(r)[|ExitLine(r.code)|..], "\nstdout:\n" + Shown(r.stdout) + "\n")
  {
    assert StreamBlock("stdout", r.stdout) == "stdout:\n" + Shown(r.stdout);
    assert StreamBlock("stderr", r.stderr) == "stderr:\n" + Shown(r.stderr);
    BlocksLayout(ExitLine(r.code), Shown(r.stdout), Shown(r.stderr));
  }

  /** The text ends with the stderr block: the stream's text, or the `(none)`
      placeholder when it printed nothing. */
  lemma StderrLayout(r: ExecResult)
    ensures EndsWith(Combined(r), "\nstderr:\n" + Shown(r.stderr))
  {
    assert StreamBlock("stdout", r.stdout) == "stdout:\n" + Shown(r.stdout);
    assert StreamBlock("stderr", r.stderr) == "stderr:\n" + Shown(r.stderr);
    BlocksLayout(ExitLine(r.code), Shown(r.stdout), Shown(r.stderr));
  }

  /** Whatever the command printed, the planner can read the exact exit code
      back from the first line of the observation, truncated or not, as long
      as the exit line itself fits in the budget. */
  lemma ExitCodeReadable(r: ExecResult)
    requires |ExitLine(r.code)| < Limit
    ensures ReadExitCode(SummarizeOutput(r)) == Some(r.code)
  {
    var line := ExitLine(r.code);
    var c := Combined(r);
    IntToStringOneLine(r.code);
    CombinedFirstLine(r);
    var out := SummarizeOutput(r);
    var tail := out[|line| + 1..];
    assert out[..|line| + 1] == line + "\n";
    assert out == line + "\n" + tail;
    FirstLineOf(line, tail);
    assert line[|ExitPrefix|..] == IntToString(r.code);
    IntToStringRoundTrip(r.code);
  }

  /** The placeholder is ambiguous: an empty stream and a stream that printed
      exactly `(none)` give the same observation. */
  lemma NonePlaceholderAmbiguous(code: int)
    ensures SummarizeOutput(ExecResult(code, "", "")) == SummarizeOutput(ExecResult(code, "(none)", "(none)"))
  {
    assert StreamBlock("stdout", "") == StreamBlock("stdout", "(none)");
    assert StreamBlock("stderr", "") == StreamBlock("stderr", "(none)");
    assert Combined(ExecResult(code, "", "")) == Combined(ExecResult(code, "(none)", "(none)"));
  }

  /** The marker is no proof of truncation: text within the budget that itself
      ends with the marker is passed through unchanged. */
  lemma MarkerWithoutTruncation()
    ensures var r := ExecResult(0, "", Marker);
            |Combined(r)| <= Limit && EndsWith(SummarizeOutput(r), Marker)
  {
    var r := ExecResult(0, "", Marker);
    assert |IntToString(0)| == 1;
    assert EndsWith(Combined(r), Marker) by {
      assert Combined(r) == (ExitLine(0) + "\n" + StreamBlock("stdout", "") + "\nstderr:\n") + Marker;
    }
  }
}
