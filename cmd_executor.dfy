/** The command executor (src/agents/cmd_executor.py): runs commands one
    after the other, records one result per command that was run, keeps going
    past a non-zero exit code, stops at the first command whose run raises,
    and renders the results as a plain-text report. */
module CmdExecutor {
  import opened Text

  /** What `subprocess.run(command, shell=True, text=True,
      capture_output=True)` does for one command: the process finishes with
      a return code and its captured output, or the call raises. */
  datatype RunOutcome =
    | Exited(returnCode: int, stdout: string, stderr: string)
    | Raised(message: string)
  {
    predicate ExitedZero() {
      Exited? && returnCode == 0
    }
  }

  /** One entry of the `results` list. */
  datatype CommandResult = CommandResult(command: string, exitCode: int, stdout: string, stderr: string)

  /** The dictionary `execute_commands` returns. */
  datatype ExecutionResults = ExecutionResults(success: bool, results: seq<CommandResult>)

  /** The record made for a command: the process's return code and output,
      or, when the run raised, exit code -1, no output and the exception's
      text as the error output. */
  function Record(command: string, outcome: RunOutcome): (r: CommandResult)
    ensures r.command == command
    ensures outcome.Raised? ==> r.exitCode == -1 && r.stdout == [] && r.stderr == outcome.message
    ensures outcome.Exited? ==> r.exitCode == outcome.returnCode && r.stdout == outcome.stdout && r.stderr == outcome.stderr
  {
    match outcome
    case Exited(code, out, err) => CommandResult(command, code, out, err)
    case Raised(message) => CommandResult(command, -1, "", message)
  }

  /** The position of the first run that raises, or the number of runs when
      none does. */
  function FirstRaise(outcomes: seq<RunOutcome>): (n: nat)
    ensures n <= |outcomes|
    ensures forall k :: 0 <= k < n ==> outcomes[k].Exited?
    ensures n < |outcomes| ==> outcomes[n].Raised?
  {
    if outcomes == [] || outcomes[0].Raised? then 0 else 1 + FirstRaise(outcomes[1..])
  }

  /** The records the loop makes, run by run: after a raise nothing more is
      run. The `k`-th command's run is `outcomes[k]`. */
  function Run(commands: seq<string>, outcomes: seq<RunOutcome>): seq<CommandResult>
    requires |outcomes| == |commands|
  {
    if commands == [] then []
    else if outcomes[0].Raised? then [Record(commands[0], outcomes[0])]
    else [Record(commands[0], outcomes[0])] + Run(commands[1..], outcomes[1..])
  }

  /** Every run finished with exit code 0. */
  predicate AllExitedZero(outcomes: seq<RunOutcome>) {
    forall k :: 0 <= k < |outcomes| ==> outcomes[k].ExitedZero()
  }

  /** What `execute_commands` computes from the commands and the runs. */
  function Execute(commands: seq<string>, outcomes: seq<RunOutcome>): ExecutionResults
    requires |outcomes| == |commands|
  {
    ExecutionResults(AllExitedZero(outcomes), Run(commands, outcomes))
  }

  /** `execute_commands`: `outcomes[k]` is what running `commands[k]` does.
      The results list grows by one record per command, the success flag is
      cleared by a non-zero exit code, and a run that raises ends the loop
      with one last record. */
  method ExecuteCommands(commands: seq<string>, outcomes: seq<RunOutcome>) returns (er: ExecutionResults)
    requires |outcomes| == |commands|
    ensures er == Execute(commands, outcomes)
  {
    var results: seq<CommandResult> := [];
    var success := true;
    var i := 0;
    while i < |commands|
      invariant 0 <= i <= |commands|
      invariant Run(commands, outcomes) == results + Run(commands[i..], outcomes[i..])
      invariant success <==> AllExitedZero(outcomes[..i])
    {
      RunStep(commands, outcomes, i);
      ExitedZeroStep(outcomes, i);
      var record := Record(commands[i], outcomes[i]);
      if outcomes[i].Raised? {
        // the `except` branch: one last record, and the loop is over
        results := results + [record];
        success := false;
        break;
      }
      ghost var rest := Run(commands[i + 1..], outcomes[i + 1..]);
      assert results + ([record] + rest) == (results + [record]) + rest;
      results := results + [record];
      if outcomes[i].returnCode != 0 {
        success := false;
      }
      i := i + 1;
    }
    if i == |commands| {
      assert outcomes[..i] == outcomes;
    }
    return ExecutionResults(success, results);
  }

  /** One turn of the loop: the runs from `i` on are the record of run `i`
      followed, unless it raised, by the runs from `i + 1` on. */
  lemma RunStep(commands: seq<string>, outcomes: seq<RunOutcome>, i: nat)
    requires |outcomes| == |commands| && i < |commands|
    ensures Run(commands[i..], outcomes[i..]) ==
              if outcomes[i].Raised? then [Record(commands[i], outcomes[i])]
              else [Record(commands[i], outcomes[i])] + Run(commands[i + 1..], outcomes[i + 1..])
  {
    assert commands[i..][1..] == commands[i + 1..];
    assert outcomes[i..][1..] == outcomes[i + 1..];
  }

  /** The runs before `i + 1` all exited with 0 when those before `i` did and
      run `i` did too; a raise anywhere means not every run exited with 0. */
  lemma ExitedZeroStep(outcomes: seq<RunOutcome>, i: nat)
    requires i < |outcomes|
    ensures AllExitedZero(outcomes[..i + 1]) <==> AllExitedZero(outcomes[..i]) && outcomes[i].ExitedZero()
    ensures outcomes[i].Raised? ==> !AllExitedZero(outcomes)
  {
    assert outcomes[..i + 1] == outcomes[..i] + [outcomes[i]];
    assert outcomes[..i + 1][i] == outcomes[i];
  }

  /** The results are exactly the records of the runs, in order, up to and
      including the first run that raises; with no raise, one per command. */
  lemma {:induction false} RunShape(commands: seq<string>, outcomes: seq<RunOutcome>)
    requires |outcomes| == |commands|
    ensures var n := FirstRaise(outcomes);
            |Run(commands, outcomes)| == if n < |commands| then n + 1 else |commands|
    ensures forall k :: 0 <= k < |Run(commands, outcomes)| ==>
              Run(commands, outcomes)[k] == Record(commands[k], outcomes[k])
  {
    if commands != [] && outcomes[0].Exited? {
      RunShape(commands[1..], outcomes[1..]);
    }
  }

  /** At most one record per command; no commands give an empty, successful
      execution. */
  lemma {:induction false} ResultsAtMostCommands(commands: seq<string>, outcomes: seq<RunOutcome>)
    requires |outcomes| == |commands|
    ensures |Execute(commands, outcomes).results| <= |commands|
    ensures commands == [] ==> Execute(commands, outcomes) == ExecutionResults(true, [])
  {
    RunShape(commands, outcomes);
  }

  /** A non-zero exit code does not stop the loop: when no run raises, every
      command gets a record, whatever the exit codes. */
  lemma {:induction false} NoRaiseRunsEverything(commands: seq<string>, outcomes: seq<RunOutcome>)
    requires |outcomes| == |commands|
    requires forall k :: 0 <= k < |outcomes| ==> outcomes[k].Exited?
    ensures |Execute(commands, outcomes).results| == |commands|
  {
    RunShape(commands, outcomes);
  }

  /** A run that raises is the last one: its record, with exit code -1 and
      the exception's text as error output, closes the list, the commands
      after it are never run, and the execution has failed. */
  lemma {:induction false} RaiseStopsExecution(commands: seq<string>, outcomes: seq<RunOutcome>, i: nat)
    requires |outcomes| == |commands| && i < |commands|
    requires outcomes[i].Raised? && forall k :: 0 <= k < i ==> outcomes[k].Exited?
    ensures var er := Execute(commands, outcomes);
            && !er.success
            && |er.results| == i + 1
            && er.results[i] == CommandResult(commands[i], -1, "", outcomes[i].message)
  {
    RunShape(commands, outcomes);
    assert !outcomes[i].ExitedZero();
  }

  /** The execution succeeded exactly when every command has a record and
      every record shows exit code 0: a raise is recorded with -1, so it
      always shows. */
  lemma {:induction false} SuccessIffAllRecordsZero(commands: seq<string>, outcomes: seq<RunOutcome>)
    requires |outcomes| == |commands|
    ensures var er := Execute(commands, outcomes);
            er.success <==>
              |er.results| == |commands| && forall k :: 0 <= k < |er.results| ==> er.results[k].exitCode == 0
  {
    var er := Execute(commands, outcomes);
    RunShape(commands, outcomes);
    if er.success {
      forall k | 0 <= k < |er.results| ensures er.results[k].exitCode == 0 {
        assert outcomes[k].ExitedZero();
      }
    }
    if |er.results| == |commands| && forall k :: 0 <= k < |er.results| ==> er.results[k].exitCode == 0 {
      forall k | 0 <= k < |outcomes| ensures outcomes[k].ExitedZero() {
        assert er.results[k] == Record(commands[k], outcomes[k]);
      }
    }
  }

  // ---------------------------------------------------------------------
  // The report

  const SuccessHeader: string := "All commands executed successfully.\n\n"
  const FailureHeader: string := "Some commands failed during execution.\n\n"

  /** `"-" * 50`, written as five runs of ten dashes. */
  const TenDashes: string := "----------"
  const Rule: string := TenDashes + TenDashes + TenDashes + TenDashes + TenDashes
  const RuleLine: string := Rule + "\n"
  const OutputTitle: string := "Output:\n"
  const ErrorsTitle: string := "Errors:\n"

  function Header(success: bool): string {
    if success then SuccessHeader else FailureHeader
  }

  function CommandLine(number: int, command: string): string {
    "Command " + IntToString(number) + ": " + command + "\n"
  }

  function ExitCodeLine(code: int): string {
    "Exit code: " + IntToString(code) + "\n"
  }

  /** A titled section of captured text. */
  function Section(title: string, text: string): string {
    title + text + "\n"
  }

  /** The lines for one result, numbered `number`: the command, its exit
      code, its output and its errors when there are any, and a rule of
      fifty dashes. */
  function Block(number: int, r: CommandResult): string {
    CommandLine(number, r.command) + (ExitCodeLine(r.exitCode) + Sections(r))
  }

  /** What follows the exit-code line: the output and error sections, each
      present only when there is text for it, and the rule. */
  function Sections(r: CommandResult): string {
    (if r.stdout != [] then Section(OutputTitle, r.stdout) else [])
    + (if r.stderr != [] then Section(ErrorsTitle, r.stderr) else [])
    + RuleLine
  }

  /** The text `out` followed by the blocks of `rs`, numbered from 1. */
  function WithBlocks(out: string, rs: seq<CommandResult>): string {
    if rs == [] then out else WithBlocks(out, rs[..|rs| - 1]) + Block(|rs|, rs[|rs| - 1])
  }

  /** What `format_results` returns. */
  function Report(er: ExecutionResults): string {
    WithBlocks(Header(er.success), er.results)
  }

  /** The body of the `enumerate` loop of `format_results`: the block for
      one result, built line by line. */
  method FormatBlock(number: int, r: CommandResult) returns (text: string)
    ensures text == Block(number, r)
  {
    text := CommandLine(number, r.command);
    text := text + ExitCodeLine(r.exitCode);
    if r.stdout != [] {
      text := text + Section(OutputTitle, r.stdout);
    }
    if r.stderr != [] {
      text := text + Section(ErrorsTitle, r.stderr);
    }
    text := text + (Rule + "\n");
    AppendAssoc(CommandLine(number, r.command), ExitCodeLine(r.exitCode),
                if r.stdout != [] then Section(OutputTitle, r.stdout) else [],
                if r.stderr != [] then Section(ErrorsTitle, r.stderr) else [],
                RuleLine);
  }

  lemma AppendAssoc(a: string, b: string, c: string, d: string, e: string)
    ensures a + b + c + d + e == a + (b + (c + d + e))
  {
  }

  /** `format_results`: the header, then one block per result, appended in
      order. */
  method FormatResults(er: ExecutionResults) returns (output: string)
    ensures output == Report(er)
  {
    if er.success {
      output := SuccessHeader;
    } else {
      output := FailureHeader;
    }
    var rs := er.results;
    for i := 0 to |rs|
      invariant output == WithBlocks(Header(er.success), rs[..i])
    {
      var block := FormatBlock(i + 1, rs[i]);
      output := output + block;
      WithBlocksStep(Header(er.success), rs, i);
    }
    assert rs[..|rs|] == rs;
  }

  lemma WithBlocksStep(out: string, rs: seq<CommandResult>, i: nat)
    requires i < |rs|
    ensures WithBlocks(out, rs[..i + 1]) == WithBlocks(out, rs[..i]) + Block(i + 1, rs[i])
  {
    assert rs[..i + 1][..i] == rs[..i];
  }

  /** The text already built stays at the front as blocks are appended. */
  lemma {:induction false} WithBlocksExtends(out: string, rs: seq<CommandResult>)
    ensures out <= WithBlocks(out, rs)
  {
    if rs != [] {
      WithBlocksExtends(out, rs[..|rs| - 1]);
    }
  }

  /** The report opens with the success header exactly when the execution
      succeeded, and with the failure header otherwise. */
  lemma HeaderSaysSuccess(er: ExecutionResults)
    ensures SuccessHeader <= Report(er) <==> er.success
    ensures FailureHeader <= Report(er) <==> !er.success
  {
    WithBlocksExtends(Header(er.success), er.results);
    assert SuccessHeader[0] != FailureHeader[0];
  }

  /** The report of the first results is the start of the report of all of
      them: each result adds exactly its own block at the end. */
  lemma {:induction false} ReportGrowsByBlocks(success: bool, rs: seq<CommandResult>, k: nat)
    requires k <= |rs|
    ensures Report(ExecutionResults(success, rs[..k])) <= Report(ExecutionResults(success, rs))
  {
    if k < |rs| {
      var front := rs[..|rs| - 1];
      assert rs[..k] == front[..k];
      ReportGrowsByBlocks(success, front, k);
      assert Report(ExecutionResults(success, rs)) ==
             Report(ExecutionResults(success, front)) + Block(|rs|, rs[|rs| - 1]);
    } else {
      assert rs[..k] == rs;
    }
  }

  /** Result `k` is reported under the number `k + 1`, with its command on
      the same line. */
  lemma {:induction false} EveryResultIsNumbered(er: ExecutionResults, k: nat)
    requires k < |er.results|
    ensures Contains(Report(er), CommandLine(k + 1, er.results[k].command))
  {
    var rs := er.results;
    var line := CommandLine(k + 1, rs[k].command);
    var before := Report(ExecutionResults(er.success, rs[..k]));
    var block := Block(k + 1, rs[k]);
    ReportStep(er.success, rs, k);
    BlockStartsWithCommandLine(k + 1, rs[k]);
    OccursAfter(before, block, line);
    ReportGrowsByBlocks(er.success, rs, k + 1);
    OccursInPrefix(before + block, Report(er), line, |before|);
  }

  /** The report of the first `k + 1` results is that of the first `k`
      followed by the block of result `k`, numbered `k + 1`. */
  lemma ReportStep(success: bool, rs: seq<CommandResult>, k: nat)
    requires k < |rs|
    ensures Report(ExecutionResults(success, rs[..k + 1]))
            == Report(ExecutionResults(success, rs[..k])) + Block(k + 1, rs[k])
  {
    WithBlocksStep(Header(success), rs, k);
  }

  lemma BlockStartsWithCommandLine(number: int, r: CommandResult)
    ensures CommandLine(number, r.command) <= Block(number, r)
  {
  }

  /** A result's output and errors sections appear only when there is output
      or error text: a command that printed nothing gets just its command
      line, its exit code and the rule. */
  lemma SilentCommandBlock(number: int, r: CommandResult)
    requires r.stdout == [] && r.stderr == []
    ensures Block(number, r) == CommandLine(number, r.command) + (ExitCodeLine(r.exitCode) + RuleLine)
  {
    assert Sections(r) == [] + [] + RuleLine;
    assert [] + [] + RuleLine == RuleLine;
  }

  /** The exit code printed in a block reads back as the exit code. */
  lemma ExitCodeReadsBack(number: int, r: CommandResult)
    ensures var shown := IntToString(r.exitCode);
            && IsDecimal(shown) && ParseInt(shown) == r.exitCode
            && Contains(Block(number, r), "Exit code: " + shown + "\n")
  {
    IntToStringRoundTrip(r.exitCode);
    BlockShowsExitCode(number, r);
  }

  lemma BlockShowsExitCode(number: int, r: CommandResult)
    ensures OccursAt(Block(number, r), ExitCodeLine(r.exitCode), |CommandLine(number, r.command)|)
  {
    OccursAfter(CommandLine(number, r.command), ExitCodeLine(r.exitCode) + Sections(r), ExitCodeLine(r.exitCode));
  }

  predicate AllDashes(s: string) {
    forall k :: 0 <= k < |s| ==> s[k] == '-'
  }

  lemma TenDashesAreDashes()
    ensures |TenDashes| == 10 && AllDashes(TenDashes)
  {
    var t := TenDashes;
    assert t[0] == '-' && t[1] == '-' && t[2] == '-' && t[3] == '-' && t[4] == '-';
    assert t[5] == '-' && t[6] == '-' && t[7] == '-' && t[8] == '-' && t[9] == '-';
  }

  lemma DashesAppend(a: string, b: string)
    requires AllDashes(a) && AllDashes(b)
    ensures AllDashes(a + b)
  {
    forall k | 0 <= k < |a + b| ensures (a + b)[k] == '-' {
      if k < |a| { assert (a + b)[k] == a[k]; } else { assert (a + b)[k] == b[k - |a|]; }
    }
  }

  /** The rule is fifty dashes. */
  lemma {:induction false} RuleIsFiftyDashes()
    ensures |Rule| == 50 && AllDashes(Rule)
  {
    var t := TenDashes;
    TenDashesAreDashes();
    DashesAppend(t, t);
    DashesAppend(t + t, t);
    DashesAppend(t + t + t, t);
    DashesAppend(t + t + t + t, t);
  }

  /** Every block ends with the rule line: fifty dashes and a newline. */
  lemma {:induction false} BlockEndsWithRule(number: int, r: CommandResult)
    ensures var b := Block(number, r);
            |b| >= |RuleLine| && b[|b| - |RuleLine|..] == RuleLine
  {
    var sections := (if r.stdout != [] then Section(OutputTitle, r.stdout) else [])
      + (if r.stderr != [] then Section(ErrorsTitle, r.stderr) else []);
    assert Block(number, r) ==
           CommandLine(number, r.command) + (ExitCodeLine(r.exitCode) + (sections + RuleLine));
    EndsWith(CommandLine(number, r.command), ExitCodeLine(r.exitCode), sections, RuleLine);
  }

  lemma EndsWith(a: string, b: string, c: string, t: string)
    ensures var s := a + (b + (c + t));
            |s| >= |t| && s[|s| - |t|..] == t
  {
    var s := a + (b + (c + t));
    assert s == (a + b + c) + t;
    assert s[|a + b + c|..] == t;
  }

  /** The rule line is fifty dashes followed by a newline. */
  lemma {:induction false} RuleLineShape()
    ensures |RuleLine| == 51 && AllDashes(RuleLine[..50]) && RuleLine[50] == '\n'
  {
    RuleIsFiftyDashes();
    assert RuleLine[..50] == Rule;
  }

  /** A block ends with its sections, right after the command and exit-code
      lines. */
  lemma BlockEndsWithSections(number: int, r: CommandResult)
    ensures Contains(Block(number, r), Sections(r))
  {
    var lines := CommandLine(number, r.command) + ExitCodeLine(r.exitCode);
    assert Block(number, r) == lines + Sections(r);
    OccursAfter(lines, Sections(r), Sections(r));
  }

  /** A command that printed something has its output shown under
      "Output:". */
  lemma {:induction false} BlockShowsOutput(number: int, r: CommandResult)
    requires r.stdout != []
    ensures Contains(Block(number, r), OutputTitle + r.stdout + "\n")
  {
    var shown := Section(OutputTitle, r.stdout);
    var errors := if r.stderr != [] then Section(ErrorsTitle, r.stderr) else [];
    assert Sections(r) == [] + (shown + (errors + RuleLine));
    BlockEndsWithSections(number, r);
    OccursAfter([], shown + (errors + RuleLine), shown);
    ContainsTransitive(Block(number, r), Sections(r), shown);
  }

  /** A command that wrote error text has it shown under "Errors:". */
  lemma {:induction false} BlockShowsErrors(number: int, r: CommandResult)
    requires r.stderr != []
    ensures Contains(Block(number, r), ErrorsTitle + r.stderr + "\n")
  {
    var output := if r.stdout != [] then Section(OutputTitle, r.stdout) else [];
    var shown := Section(ErrorsTitle, r.stderr);
    assert Sections(r) == output + (shown + RuleLine);
    BlockEndsWithSections(number, r);
    OccursAfter(output, shown + RuleLine, shown);
    ContainsTransitive(Block(number, r), Sections(r), shown);
  }

  /** Executing and then formatting: the report says all commands succeeded
      exactly when every command ran and exited with code 0. */
  lemma {:induction false} ReportHeaderTellsTheTruth(commands: seq<string>, outcomes: seq<RunOutcome>)
    requires |outcomes| == |commands|
    ensures SuccessHeader <= Report(Execute(commands, outcomes)) <==>
              forall k :: 0 <= k < |outcomes| ==> outcomes[k].Exited? && outcomes[k].returnCode == 0
  {
    HeaderSaysSuccess(Execute(commands, outcomes));
  }
}
