/**
 * The build loop inside agent.js `main`: ask the planner for the next command,
 * stop on the completion token, otherwise run the command and feed its
 * observation back, for at most a fixed number of steps.
 *
 * The planner (`callOpenAI`) is a function from the conversation to its reply;
 * the shell (`execCommand`) is a function from the conversation so far and the
 * command to its result, since the commands already run are exactly what the
 * conversation records. The loop takes the sanitizer and the summarizer as
 * parameters too, so that what is proved about it does not depend on their
 * internals; `DeployerPorts` supplies the real ones, `sanitizeCommand` and
 * `summarizeOutput`, and `DeployerBuildLoop` runs the loop with them.
 */
module BuildLoop {
  import opened Text
  import opened Sanitizer
  import opened Summary

  datatype Role = System | User | Assistant

  datatype Message = Message(role: Role, content: string)

  /** The exact reply by which the planner declares the build finished. */
  const CompletionToken := "操作完成"

  const SystemPrompt := "You are a terminal build agent. Reply with a single bash command only, or the exact phrase 操作完成."

  type Oracle = seq<Message> -> string

  type Shell = (seq<Message>, string) -> ExecResult

  /** What the loop talks to: planner, shell, and the two text transformations. */
  datatype Ports = Ports(oracle: Oracle, shell: Shell, sanitize: string -> string, summarize: ExecResult -> string)

  /** The ports of agent.js: `sanitizeCommand` and `summarizeOutput`. */
  function DeployerPorts(oracle: Oracle, shell: Shell): Ports {
    Ports(oracle, shell, SanitizeCommand, SummarizeOutput)
  }

  /** The two messages the loop starts from: the fixed instructions and the
      prompt describing the project. */
  function InitialConversation(prompt: string): seq<Message> {
    [Message(System, SystemPrompt), Message(User, prompt)]
  }

  /** The sanitized reply of the planner to `conv`. */
  function NextCommand(p: Ports, conv: seq<Message>): string {
    p.sanitize(p.oracle(conv))
  }

  /** The conversation after `k` steps that each ran a command. */
  function ConversationAfter(init: seq<Message>, k: nat, p: Ports): seq<Message> {
    if k == 0 then init
    else
      var before := ConversationAfter(init, k - 1, p);
      var command := NextCommand(p, before);
      before + [Message(Assistant, command), Message(User, p.summarize(p.shell(before, command)))]
  }

  /** The sanitized reply at step `k + 1`, reached when the first `k` steps ran commands. */
  function CommandAt(init: seq<Message>, k: nat, p: Ports): string {
    NextCommand(p, ConversationAfter(init, k, p))
  }

  /** A reply the loop executes: neither empty nor the completion token. */
  predicate IsCommand(c: string) {
    c != "" && c != CompletionToken
  }

  /** How a run ends: the completion token (success), an empty reply (the
      "empty command" error) or the budget spent (the MAX_STEPS error). */
  datatype Outcome = Completed | EmptyCommand | Exhausted

  /** `calls` counts the planner calls; `messages` is the conversation at the end. */
  datatype LoopResult = LoopResult(outcome: Outcome, calls: nat, messages: seq<Message>)

  /** Number of iterations the counted loop `step = 1 .. maxSteps` can make. */
  function Bound(maxSteps: int): nat {
    if maxSteps < 0 then 0 else maxSteps
  }

  /** Number of commands a run executed: every call but a terminating one. */
  function Executed(r: LoopResult): nat {
    if r.outcome == Exhausted || r.calls == 0 then r.calls else r.calls - 1
  }

  /** The loop from step `k + 1` on, once the first `k` steps have run commands. */
  function RunFrom(init: seq<Message>, k: nat, maxSteps: int, p: Ports): LoopResult
    requires k <= Bound(maxSteps)
    decreases Bound(maxSteps) - k
  {
    if k == Bound(maxSteps) then LoopResult(Exhausted, k, ConversationAfter(init, k, p))
    else
      var c := CommandAt(init, k, p);
      if c == "" then LoopResult(EmptyCommand, k + 1, ConversationAfter(init, k, p))
      else if c == CompletionToken then LoopResult(Completed, k + 1, ConversationAfter(init, k, p))
      else RunFrom(init, k + 1, maxSteps, p)
  }

  /** The whole loop, from the initial conversation. */
  function Run(init: seq<Message>, maxSteps: int, p: Ports): LoopResult {
    RunFrom(init, 0, maxSteps, p)
  }

  /** What a run from step `k + 1` does: it calls the planner at most up to
      the budget, spends the whole budget exactly when it is exhausted, runs
      every reply but a terminating one, ends with the conversation of the
      commands it ran, and ends on the token or on an empty reply otherwise. */
  lemma {:induction false} RunFromFacts(init: seq<Message>, k: nat, maxSteps: int, p: Ports)
    requires k <= Bound(maxSteps)
    requires forall j :: 0 <= j < k ==> IsCommand(CommandAt(init, j, p))
    ensures var r := RunFrom(init, k, maxSteps, p);
            k <= r.calls <= Bound(maxSteps) &&
            (r.outcome == Exhausted <==> r.calls == Executed(r) == Bound(maxSteps)) &&
            (r.outcome != Exhausted ==> r.calls == Executed(r) + 1) &&
            r.messages == ConversationAfter(init, Executed(r), p) &&
            (forall j :: 0 <= j < Executed(r) ==> IsCommand(CommandAt(init, j, p))) &&
            (r.outcome == Completed ==> CommandAt(init, r.calls - 1, p) == CompletionToken) &&
            (r.outcome == EmptyCommand ==> CommandAt(init, r.calls - 1, p) == "")
    decreases Bound(maxSteps) - k
  {
    if k < Bound(maxSteps) && IsCommand(CommandAt(init, k, p)) {
      RunFromFacts(init, k + 1, maxSteps, p);
    }
  }

  /** The loop as agent.js runs it: a counted loop that pushes two messages per
      executed command onto `messages` and sets `completed` on the token. */
  method BuildLoopRun(init: seq<Message>, maxSteps: int, p: Ports) returns (r: LoopResult)
    ensures r == Run(init, maxSteps, p)
  {
    var messages := init;
    var completed := false;
    var step := 1;
    while step <= maxSteps
      invariant 1 <= step <= Bound(maxSteps) + 1
      invariant messages == ConversationAfter(init, step - 1, p)
      invariant RunFrom(init, step - 1, maxSteps, p) == Run(init, maxSteps, p)
    {
      var reply := p.oracle(messages);
      var command := p.sanitize(reply);
      if command == "" {
        return LoopResult(EmptyCommand, step, messages);
      }
      if command == CompletionToken {
        completed := true;
        break;
      }
      var result := p.shell(messages, command);
      var output := p.summarize(result);
      messages := messages + [Message(Assistant, command)];
      messages := messages + [Message(User, output)];
      step := step + 1;
    }
    if !completed {
      return LoopResult(Exhausted, step - 1, messages);
    }
    r := LoopResult(Completed, step, messages);
  }

  /** The loop of `main`, with `sanitizeCommand` and `summarizeOutput`. */
  method DeployerBuildLoop(init: seq<Message>, maxSteps: int, oracle: Oracle, shell: Shell) returns (r: LoopResult)
    ensures r == Run(init, maxSteps, DeployerPorts(oracle, shell))
  {
    r := BuildLoopRun(init, maxSteps, DeployerPorts(oracle, shell));
  }

  /** The run succeeds exactly when, within the budget, some step's sanitized
      reply is the completion token and no earlier reply sanitized to "". */
  lemma CompletedIff(init: seq<Message>, maxSteps: int, p: Ports)
    ensures Run(init, maxSteps, p).outcome == Completed <==>
            exists k :: 0 <= k < maxSteps && CommandAt(init, k, p) == CompletionToken &&
                        forall j :: 0 <= j < k ==> CommandAt(init, j, p) != ""
  {
    var r := Run(init, maxSteps, p);
    RunFromFacts(init, 0, maxSteps, p);
    if r.outcome == Completed {
      assert CommandAt(init, r.calls - 1, p) == CompletionToken;
    }
    if k :| 0 <= k < maxSteps && CommandAt(init, k, p) == CompletionToken &&
            forall j :: 0 <= j < k ==> CommandAt(init, j, p) != "" {
      assert !IsCommand(CommandAt(init, k, p));
    }
  }

  /** At most the step budget of planner calls; a run that is not stopped
      early spends the whole budget; the terminating call runs nothing, so the
      conversation holds two messages per executed command beyond the start. */
  lemma RunBound(init: seq<Message>, maxSteps: int, p: Ports)
    ensures var r := Run(init, maxSteps, p);
            r.calls <= Bound(maxSteps) &&
            (r.outcome == Exhausted ==> r.calls == Bound(maxSteps)) &&
            (r.outcome != Exhausted ==> r.calls >= 1) &&
            |r.messages| == |init| + 2 * Executed(r)
  {
    var r := Run(init, maxSteps, p);
    RunFromFacts(init, 0, maxSteps, p);
    ConversationShape(init, Executed(r), p);
  }

  /** How the conversation grows: the initial messages are kept, and step
      `j + 1` appended the assistant message holding its command followed by
      the user message holding the summary of that command's result. */
  lemma {:induction false} ConversationShape(init: seq<Message>, k: nat, p: Ports)
    ensures var conv := ConversationAfter(init, k, p);
            |conv| == |init| + 2 * k && conv[..|init|] == init &&
            forall j :: 0 <= j < k ==>
              var before := ConversationAfter(init, j, p);
              var command := CommandAt(init, j, p);
              conv[|init| + 2 * j] == Message(Assistant, command) &&
              conv[|init| + 2 * j + 1] == Message(User, p.summarize(p.shell(before, command)))
  {
    if k > 0 {
      ConversationShape(init, k - 1, p);
      var prev := ConversationAfter(init, k - 1, p);
      var conv := ConversationAfter(init, k, p);
      assert conv[..|prev|] == prev;
      assert conv[..|init|] == prev[..|init|];
    }
  }

  /** Every observation the loop feeds back stays within the summarizer's bound. */
  lemma ObservationsBounded(init: seq<Message>, k: nat, p: Ports, bound: nat)
    requires forall res :: |p.summarize(res)| <= bound
    ensures var conv := ConversationAfter(init, k, p);
            |conv| == |init| + 2 * k &&
            forall j :: 0 <= j < k ==> |conv[|init| + 2 * j + 1].content| <= bound
  {
    ConversationShape(init, k, p);
  }

  /** With agent.js's summarizer, no observation exceeds the budget plus the marker. */
  lemma DeployerObservationsBounded(init: seq<Message>, k: nat, oracle: Oracle, shell: Shell)
    ensures var conv := ConversationAfter(init, k, DeployerPorts(oracle, shell));
            |conv| == |init| + 2 * k &&
            forall j :: 0 <= j < k ==> |conv[|init| + 2 * j + 1].content| <= Limit + |Marker|
  {
    var p := DeployerPorts(oracle, shell);
    assert forall res :: |p.summarize(res)| <= Limit + |Marker| by {
      forall res ensures |p.summarize(res)| <= Limit + |Marker| {
        assert p.summarize(res) == SummarizeOutput(res);
      }
    }
    ObservationsBounded(init, k, p, Limit + |Marker|);
  }

  /** Starting from the system message and the prompt, the roles alternate
      user/assistant after the system message, whatever the planner says. */
  lemma RolesAlternate(prompt: string, k: nat, p: Ports)
    ensures var conv := ConversationAfter(InitialConversation(prompt), k, p);
            conv[0] == Message(System, SystemPrompt) &&
            forall i :: 1 <= i < |conv| ==> conv[i].role == (if i % 2 == 1 then User else Assistant)
  {
    var init := InitialConversation(prompt);
    var conv := ConversationAfter(init, k, p);
    ConversationShape(init, k, p);
    assert conv[0] == conv[..|init|][0];
    forall i | 1 <= i < |conv| ensures conv[i].role == (if i % 2 == 1 then User else Assistant) {
      if i < 2 {
        assert conv[i] == conv[..|init|][i];
      } else {
        var j := (i - 2) / 2;
        assert i == |init| + 2 * j || i == |init| + 2 * j + 1;
      }
    }
  }

  /** A planner that plays back a fixed list of replies, one per step. */
  function Scripted(replies: seq<string>, conv: seq<Message>): string {
    var turn := (|conv| - 2) / 2;
    if 0 <= turn < |replies| then replies[turn] else ""
  }

  /** With a scripted planner and a two-message start, step `k + 1` sees the
      `k`-th scripted reply, sanitized. */
  lemma ScriptedCommandAt(init: seq<Message>, replies: seq<string>, k: nat, p: Ports)
    requires |init| == 2 && k < |replies|
    requires forall conv :: p.oracle(conv) == Scripted(replies, conv)
    ensures CommandAt(init, k, p) == p.sanitize(replies[k])
  {
    ConversationShape(init, k, p);
    var conv := ConversationAfter(init, k, p);
    assert p.oracle(conv) == replies[k];
  }

  /** The replies of the completing scenario. */
  const CompletingScript: seq<string> := ["echo hi", "echo bye", CompletionToken]

  /** The replies of the exhausting scenario. */
  const LoopingScript: seq<string> := ["echo hi", "echo hi"]

  /** A planner replying `echo hi`, `echo bye`, then the token, with a budget
      of three and a sanitizer that keeps those replies: the run completes
      after exactly three calls and two executed commands. */
  lemma ScenarioCompletes(init: seq<Message>, p: Ports)
    requires |init| == 2
    requires forall conv :: p.oracle(conv) == Scripted(CompletingScript, conv)
    requires forall k :: 0 <= k < |CompletingScript| ==> p.sanitize(CompletingScript[k]) == CompletingScript[k]
    ensures var r := Run(init, 3, p);
            r.outcome == Completed && r.calls == 3 && Executed(r) == 2 && |r.messages| == 6
  {
    ScriptedCommandAt(init, CompletingScript, 0, p);
    ScriptedCommandAt(init, CompletingScript, 1, p);
    ScriptedCommandAt(init, CompletingScript, 2, p);
    assert CommandAt(init, 0, p) == "echo hi";
    assert CommandAt(init, 1, p) == "echo bye";
    assert CommandAt(init, 2, p) == CompletionToken;
    assert RunFrom(init, 1, 3, p) == RunFrom(init, 2, 3, p);
    RunBound(init, 3, p);
  }

  /** A planner that never sends the token, with a budget of two: the run
      fails after exactly two calls, both executed. */
  lemma ScenarioExhausted(init: seq<Message>, p: Ports)
    requires |init| == 2
    requires forall conv :: p.oracle(conv) == Scripted(LoopingScript, conv)
    requires p.sanitize("echo hi") == "echo hi"
    ensures var r := Run(init, 2, p);
            r.outcome == Exhausted && r.calls == 2 && |r.messages| == 6
  {
    ScriptedCommandAt(init, LoopingScript, 0, p);
    ScriptedCommandAt(init, LoopingScript, 1, p);
    assert CommandAt(init, 0, p) == "echo hi";
    assert CommandAt(init, 1, p) == "echo hi";
    assert RunFrom(init, 1, 2, p) == RunFrom(init, 2, 2, p);
    RunBound(init, 2, p);
  }

  /** `sanitizeCommand` keeps the scripted replies, so agent.js's ports
      meet the scenarios' conditions on the sanitizer. */
  lemma ScriptRepliesKept()
    ensures SanitizeCommand("echo hi") == "echo hi"
    ensures SanitizeCommand("echo bye") == "echo bye"
    ensures SanitizeCommand(CompletionToken) == CompletionToken
  {
    PlainKept("echo hi");
    PlainKept("echo bye");
    PlainKept(CompletionToken);
  }

  /** The completing scenario with agent.js's own sanitizer and summarizer. */
  lemma DeployerScenarioCompletes(init: seq<Message>, shell: Shell)
    requires |init| == 2
    ensures var p := DeployerPorts((conv: seq<Message>) => Scripted(CompletingScript, conv), shell);
            var r := Run(init, 3, p);
            r.outcome == Completed && r.calls == 3 && Executed(r) == 2 && |r.messages| == 6
  {
    var p := DeployerPorts((conv: seq<Message>) => Scripted(CompletingScript, conv), shell);
    ScriptRepliesKept();
    forall k | 0 <= k < |CompletingScript| ensures p.sanitize(CompletingScript[k]) == CompletingScript[k] {
      assert k == 0 || k == 1 || k == 2;
    }
    ScenarioCompletes(init, p);
  }

  /** The exhausting scenario with agent.js's own sanitizer and summarizer. */
  lemma DeployerScenarioExhausted(init: seq<Message>, shell: Shell)
    requires |init| == 2
    ensures var p := DeployerPorts((conv: seq<Message>) => Scripted(LoopingScript, conv), shell);
            var r := Run(init, 2, p);
            r.outcome == Exhausted && r.calls == 2 && |r.messages| == 6
  {
    var p := DeployerPorts((conv: seq<Message>) => Scripted(LoopingScript, conv), shell);
    ScriptRepliesKept();
    ScenarioExhausted(init, p);
  }

  /** The completion token is recognized with any white space around it. */
  lemma TokenRecognizedPadded(pre: string, post: string)
    requires AllSpace(pre) && AllSpace(post)
    ensures SanitizeCommand(pre + CompletionToken + post) == CompletionToken
  {
    var t := CompletionToken;
    assert !StartsWith(t, Fence) by { assert t[..|Fence|][0] != Fence[0]; }
    SanitizePadded(pre, t, post);
  }

  /** A token sent inside a code fence is recognized as well: the loop stops
      on a fenced reply, not only on the bare phrase. */
  lemma FencedTokenRecognized(tag: string)
    requires AllLetters(tag)
    ensures SanitizeCommand(Fence + tag + "\n" + CompletionToken + "\n" + Fence) == CompletionToken
  {
    var body := CompletionToken + "\n";
    assert Fence + tag + "\n" + CompletionToken + "\n" + Fence == "" + Fence + tag + "\n" + body + Fence + "";
    SanitizeFenced("", tag, body, "");
    assert AllSpace("\n");
    assert IsTrimmed(CompletionToken);
    assert [] + CompletionToken + "\n" == body;
    TrimOfPadded([], CompletionToken, "\n");
  }
}
