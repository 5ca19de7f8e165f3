# shAI agents: a Dafny model

shAI turns a natural-language request into a shell command. It asks a
language model (through `ollama.chat`) to write the command, to judge whether
the command is safe, and to decide whether the request asks for a command at
all. It runs the commands with `subprocess.run` and renders a plain-text report.
This project models the decision logic of the four agents and proves what
that logic guarantees:

- **Reply clean-up** (`ReplyCleanup`, in `cleanup.dfy`). The safety agent and
  the generator agent share the same clean-up code:
  - strip whitespace;
  - in a reply that starts with a code fence and has three or more lines,
    keep only the lines between the first and the last;
  - strip backticks and quotes from both ends.
- **Command safety** (`CmdSafety`, `validate_command`). The cleaned reply,
  lowercased, must equal `"true"` exactly. A failed model call gives "unsafe"
  (fail closed).
- **Command generation** (`CmdGenerator`, `generate_command`). The cleaned
  reply is the command. A failed model call gives the fixed command
  `echo 'Command generation failed'`.
- **Query filter** (`CmdValidator`, `validate_query`):
  - a blank query is refused;
  - eight fixed conversational patterns are tested on the lowercased query,
    and a match refuses it;
  - otherwise the model is asked, and its stripped, uppercased reply must
    contain `"YES"`;
  - a failed model call lets the query through (fail open).
- **Execution bookkeeping** (`CmdExecutor`, `execute_commands` and
  `format_results`).
  - One record is kept per command that ran.
  - A non-zero exit code clears the success flag, but the loop goes on.
  - A run that raises ends the loop with one last record: exit code -1, no
    output, and the exception text as the error output.
  - The report has a header, then one numbered block per record.

`Text` (`text.dfy`) states the Python string operations the agents use:
- `strip()` and `strip(chars)`;
- `split("\n")` and `"\n".join`;
- `lower()` and `upper()`;
- the `in` substring test;
- `str(int)`.

The external calls are inputs to the model:
- each model call becomes a `ChatOutcome`: `Reply(content)`, or `Failed(message)`
  when the call, or the lookup of the reply's content, raises;
- `subprocess.run` becomes one `RunOutcome` per command: `Exited(code, stdout,
  stderr)`, or `Raised(message)`.

`execute_commands` and `format_results` change state step by step (a list
that grows, a flag that is cleared, a string built by `+=`). They are methods
with loops, proved equal to the functions `Execute` and `Report`, and the
properties are proved about those functions. The other three agents are
expressions over strings, so they are functions.

The safety decision is the exact comparison in
`src/agents/cmd_safety.py:45`.

## Model

| member | source | states |
|---|---|---|
| Text.StripChars | src/agents/cmd_safety.py:43 | `strip(chars)`: the result neither begins nor ends with a character of the set |
| Text.StripSlice | src/agents/cmd_safety.py:33 | what `strip` keeps is one infix of the text; everything cut off before and after it belongs to the stripped set |
| Text.StripPieces | src/agents/cmd_safety.py:33 | the text is the whitespace (or quote run) cut off in front, what `strip` keeps, and the run cut off behind |
| Text.StripIsInfix | src/agents/cmd_safety.py:33 | the stripped text occurs in the original |
| Text.StripUnchanged | src/agents/cmd_generator.py:42 | a text whose first and last characters are outside the set is left unchanged |
| Text.StripIdempotent | src/agents/cmd_generator.py:42 | stripping the same characters a second time changes nothing |
| Text.StripAbsorbs | src/agents/cmd_generator.py:35 | characters of the set added around a text do not change what the strip makes of it |
| Text.BlankMeansAllWhitespace | src/agents/cmd_validator.py:24 | `s.strip() == ""` exactly when every character of `s` is whitespace |
| Text.Split | src/agents/cmd_safety.py:40 | `split("\n")` gives one piece more than there are newlines, none containing a newline |
| Text.JoinSplit | src/agents/cmd_safety.py:40-41 | joining the pieces of a split with newlines gives the text back |
| Text.SplitJoin | src/agents/cmd_safety.py:40-41 | splitting a newline-join of newline-free lines gives the lines back |
| Text.SplitNoNewline | src/agents/cmd_safety.py:40 | a text without a newline splits into itself alone |
| Text.SplitAround | src/agents/cmd_safety.py:40 | splitting `a + "\n" + b` gives the pieces of `a` followed by those of `b` |
| Text.Lower | src/agents/cmd_safety.py:45 | `lower()` keeps the length and lowers each character |
| Text.Upper | src/agents/cmd_validator.py:67 | `upper()` keeps the length and uppercases each character |
| Text.LowerContains | src/agents/cmd_safety.py:45 | if `sub` occurs in `s`, then `sub.lower()` occurs in `s.lower()` |
| Text.UpperStrip | src/agents/cmd_validator.py:67 | uppercasing and `strip()` commute |
| Text.StripKeepsSolidInfix | src/agents/cmd_validator.py:67-72 | a non-empty infix without whitespace occurs in `s.strip()` exactly when it occurs in `s` |
| Text.IntToStringRoundTrip | src/agents/cmd_executor.py:87 | the decimal text of an integer is well formed and parses back to that integer |
| ReplyCleanup.FenceDetected | src/agents/cmd_safety.py:39 | the three `startswith` tests together are the single test for a leading "```" |
| ReplyCleanup.Unfence | src/agents/cmd_safety.py:39-41 | text that does not start with "```", and fenced text of at most two lines, passes the fence step unchanged |
| ReplyCleanup.UnfenceDropsFirstAndLastLine | src/agents/cmd_safety.py:39-41 | a fenced text of three or more lines is its first line (holding the fence), a newline, the result, a newline and its last line |
| ReplyCleanup.UnfenceShape | src/agents/cmd_safety.py:39-41 | the fence step either leaves the text unchanged or removes a first line holding "```" and a last line, with their newlines |
| ReplyCleanup.UnfenceOfFencedBody | src/agents/cmd_safety.py:39-41 | a body wrapped between a fence line and a closing line comes back out of the fence step unchanged |
| ReplyCleanup.UnfenceIsInfix | src/agents/cmd_safety.py:39-41 | the fence step only removes text: its result occurs in its input |
| ReplyCleanup.Clean | src/agents/cmd_safety.py:33-43 | the cleaned reply neither begins nor ends with a backtick or a quote |
| ReplyCleanup.CleanIsInfix | src/agents/cmd_safety.py:33-43 | the cleaned reply occurs in the raw reply |
| ReplyCleanup.CleanIgnoresSurroundingWhitespace | src/agents/cmd_generator.py:35-38 | whitespace around a reply does not change the clean-up, fence detection included, since `strip()` runs first |
| ReplyCleanup.FencedTextIsStripped | src/agents/cmd_safety.py:33 | a text starting with "```" and ending in a non-space character is unchanged by `strip()` |
| ReplyCleanup.CleanFencedReply | src/agents/cmd_safety.py:33-43 | a fenced reply of three or more lines, with any surrounding whitespace, cleans up to its interior lines with only backticks and quotes stripped from the ends |
| ReplyCleanup.QuotedTextIsOneLine | src/agents/cmd_safety.py:39-41 | a one-line text wrapped in backticks or quotes passes the fence step unchanged |
| ReplyCleanup.CleanQuotedOneLiner | src/agents/cmd_generator.py:35-42 | a one-line reply wrapped in whitespace and in backticks or quotes cleans up to the text inside |
| CmdSafety.ValidateCommand | src/agents/cmd_safety.py:25-48 | a failed call gives "unsafe"; "safe" needs a reply whose cleaned text is four characters long |
| CmdSafety.SafeOnlyIfReplySaysTrue | src/agents/cmd_safety.py:33-45 | a reply judged safe contains "true" once lowercased |
| CmdSafety.SafeReplyShape | src/agents/cmd_safety.py:33-45 | conversely, every reply judged safe is whitespace around either backticks or quotes around a word that lowercases to "true", or a fence of three or more lines whose interior is that quoted word |
| CmdSafety.TrueWordShape | src/agents/cmd_safety.py:45 | a word that lowercases to "true" has four characters, no newline, and no whitespace, backtick or quote at either end |
| CmdSafety.WrappedTrueIsSafe | src/agents/cmd_safety.py:33-45 | "true" in any mix of cases, wrapped in backticks or quotes and whitespace, is judged safe |
| CmdSafety.FencedTrueIsSafe | src/agents/cmd_safety.py:33-45 | a fenced reply whose interior line is "true" in any mix of cases is judged safe |
| CmdSafety.OneLineFenceIsSafe | src/agents/cmd_safety.py:39-45 | "```true```" is too short for the fence step, and the character strip reduces it to "true": safe |
| CmdSafety.OtherLengthIsUnsafe | src/agents/cmd_safety.py:45 | a one-line reply whose cleaned text is not four characters long is unsafe: the test is equality, not search |
| CmdSafety.TrailingTextIsUnsafe | src/agents/cmd_safety.py:45 | "true." and "True, it is safe" are judged unsafe |
| CmdSafety.EndsInSpaceIsNotTrue | src/agents/cmd_safety.py:45 | a text ending in whitespace never lowercases to "true" |
| CmdSafety.InteriorWhitespaceIsUnsafe | src/agents/cmd_safety.py:40-45 | a fenced reply whose interior ends in whitespace is unsafe: interior lines are not stripped again |
| CmdSafety.InteriorLineIsNotRestripped | src/agents/cmd_safety.py:40-45 | "```\ntrue \n```" is judged unsafe |
| CmdGenerator.GenerateCommand | src/agents/cmd_generator.py:25-47 | a failed call gives exactly the fallback command; a generated command neither begins nor ends with a backtick or a quote |
| CmdGenerator.CommandComesFromReply | src/agents/cmd_generator.py:35-44 | the generated command occurs in the reply: it is never invented |
| CmdGenerator.FallbackEndsWithQuote | src/agents/cmd_generator.py:45-47 | the fallback command ends with a quote, so the quote-free ends hold on the success path only |
| CmdGenerator.CommandIsQuoteStripped | src/agents/cmd_generator.py:42 | stripping backticks and quotes from the generated command again changes nothing |
| CmdGenerator.FencedReplyGivesInterior | src/agents/cmd_generator.py:35-44 | a fenced reply of three or more lines yields exactly its interior lines when they have no backtick or quote at either end |
| CmdGenerator.FencedBashReply | src/agents/cmd_generator.py:38-40 | "```bash\nls -la\n```" gives "ls -la" |
| CmdGenerator.BacktickedOneLiner | src/agents/cmd_generator.py:35-42 | "`ls -la`" gives "ls -la" |
| CmdValidator.FirstMatch | src/agents/cmd_validator.py:39-43 | the pattern loop stops at the first pattern that matches, none before it matches, and it finds none only when no pattern matches |
| CmdValidator.Matches | src/agents/cmd_validator.py:28-40 | one predicate per pattern, holding exactly when `re.search` finds that pattern in the lowercased query (`\w` taken as ASCII); no text shorter than the pattern's shortest match is matched |
| CmdValidator.MatchesInLongerText | src/agents/cmd_validator.py:28-40 | the search is unanchored: a match survives text added after the query, and text added before it for every pattern but the anchored greeting |
| CmdValidator.HelpQuestionInLongerText | src/agents/cmd_validator.py:34 | `can you help me with (.+\?)` still matches when text is added around the query |
| CmdValidator.ExplainInLongerText | src/agents/cmd_validator.py:36 | `explain \w+ to me` still matches when text is added around the query |
| CmdValidator.FirstMatchFindsAny | src/agents/cmd_validator.py:28-43 | the loop finds a match exactly when some pattern matches: the order and the pattern that matches do not matter |
| CmdValidator.ValidateQuery | src/agents/cmd_validator.py:12-81 | a query is valid exactly when the reason is the "valid" or the "inconclusive" message, and only if the call failed or the answer holds "YES" |
| CmdValidator.BlankQueryIsEmpty | src/agents/cmd_validator.py:24-25 | the reason is "Empty query" exactly for a blank query, which is refused whatever the model would say |
| CmdValidator.ConversationalIgnoresReply | src/agents/cmd_validator.py:39-43 | a non-blank query matching a pattern is refused as conversational whatever the model's reply |
| CmdValidator.YesAnywhereInReply | src/agents/cmd_validator.py:67-72 | the stripped, uppercased reply holds "YES" exactly when the uppercased reply does |
| CmdValidator.ModelDecides | src/agents/cmd_validator.py:67-75 | a non-blank, non-conversational query is valid exactly when the reply holds "yes" in any case, and is otherwise refused as "not a shell command" |
| CmdValidator.FailOpen | src/agents/cmd_validator.py:77-81 | a failed model call lets a non-blank, non-conversational query through as inconclusive |
| CmdValidator.ValidOnlyIfYesOrFailure | src/agents/cmd_validator.py:24-81 | a valid query is non-blank and matches no pattern, and the model said "yes" or could not be asked |
| CmdValidator.GreetingIsAnchored | src/agents/cmd_validator.py:29 | the greeting pattern never matches a query that starts with whitespace: the query is lowercased but not stripped |
| CmdValidator.NoGreetingAfterSpace | src/agents/cmd_validator.py:29 | a text starting with whitespace begins with none of the four greetings |
| CmdValidator.HiPrefixIsConversational | src/agents/cmd_validator.py:29-43 | every query whose lowercase form begins with "hi" is refused, with no word boundary |
| CmdValidator.HistoryQueryIsRefused | src/agents/cmd_validator.py:29-43 | "History of my shell" is refused as conversational |
| CmdValidator.SpacedGreetingGoesToModel | src/agents/cmd_validator.py:28-81 | " hi" matches no pattern, so the model decides, and a failed call lets it through |
| CmdValidator.HelpQuestionIsConversational | src/agents/cmd_validator.py:34 | "can you help me with X?" matches anywhere in the query when X is non-empty and has no newline |
| CmdValidator.HelpNeedsQuestionMark | src/agents/cmd_validator.py:34 | a query without "?" never matches the help pattern |
| CmdValidator.ExplainWordIsConversational | src/agents/cmd_validator.py:36 | "explain W to me" matches anywhere in the query when W is a non-empty run of word characters |
| CmdValidator.ExplainedWordHasNoSpace | src/agents/cmd_validator.py:36 | wherever the explain pattern matches, the explained word contains no space |
| CmdExecutor.Record | src/agents/cmd_executor.py:38-63 | a record holds the command and the process's code and output, or -1, no output and the exception text when the run raised |
| CmdExecutor.FirstRaise | src/agents/cmd_executor.py:27-63 | the position of the first run that raises: every earlier run exited |
| CmdExecutor.ExecuteCommands | src/agents/cmd_executor.py:9-68 | the loop computes `Execute`: one record per run up to and including the first raise, and the success flag |
| CmdExecutor.RunShape | src/agents/cmd_executor.py:27-63 | the results are the records of the runs in input order, one per command up to and including the first raise |
| CmdExecutor.ResultsAtMostCommands | src/agents/cmd_executor.py:23-68 | there are never more records than commands, and no commands give success with no records |
| CmdExecutor.NoRaiseRunsEverything | src/agents/cmd_executor.py:47-52 | when no run raises, every command gets a record, whatever the exit codes |
| CmdExecutor.RaiseStopsExecution | src/agents/cmd_executor.py:54-63 | when run `i` raises, its record (-1, no output, exception text) is the last, later commands never run, and the execution failed |
| CmdExecutor.SuccessIffAllRecordsZero | src/agents/cmd_executor.py:24-63 | success holds exactly when every command has a record and every record shows exit code 0 |
| CmdExecutor.FormatBlock | src/agents/cmd_executor.py:86-95 | the loop body builds the block of one result line by line |
| CmdExecutor.FormatResults | src/agents/cmd_executor.py:70-97 | the method builds `Report`: the header, then the blocks numbered from 1 in order |
| CmdExecutor.HeaderSaysSuccess | src/agents/cmd_executor.py:80-83 | the report starts with the success header exactly when the execution succeeded, and with the failure header otherwise |
| CmdExecutor.ReportGrowsByBlocks | src/agents/cmd_executor.py:85-95 | the report of the first `k` results is a prefix of the full report |
| CmdExecutor.EveryResultIsNumbered | src/agents/cmd_executor.py:85-86 | result `k` appears as "Command k+1: <command>" |
| CmdExecutor.SilentCommandBlock | src/agents/cmd_executor.py:89-95 | a result with no output and no error text gets only its command line, its exit-code line and the rule |
| CmdExecutor.BlockShowsOutput | src/agents/cmd_executor.py:89-90 | non-empty output appears under "Output:" |
| CmdExecutor.BlockShowsErrors | src/agents/cmd_executor.py:92-93 | non-empty error text appears under "Errors:" |
| CmdExecutor.BlockEndsWithRule | src/agents/cmd_executor.py:95 | every block ends with the rule line |
| CmdExecutor.RuleLineShape | src/agents/cmd_executor.py:95 | the rule line is fifty dashes and a newline |
| CmdExecutor.ExitCodeReadsBack | src/agents/cmd_executor.py:87 | the exit code shown in a block is well-formed decimal and parses back to the recorded code |
| CmdExecutor.ReportHeaderTellsTheTruth | src/agents/cmd_executor.py:47-83 | after executing and formatting, the report claims success exactly when every command ran and exited with code 0 |

## Left out

- `ollama.chat` is an input (`ChatOutcome`). The prompts, the model names and
  the reply's content are not modelled.
- `subprocess.run` is an input: one `RunOutcome` per command, given in advance.
  Outcomes after the first raise are never read. Process creation, the shell
  and the exit statuses themselves are not modelled.
- In all four agents, an exception raised by a verbose `print` or
  `console.print` inside the `try` is not modelled. Such an exception would
  take the same `except` branch as a failed call:
  - `validate_command` would give "unsafe" (src/agents/cmd_safety.py:26-27,35-36);
  - `generate_command` would give the fallback command (src/agents/cmd_generator.py:26-27,33-34);
  - `validate_query` would let the query through (src/agents/cmd_validator.py:47-48,69-70);
  - `execute_commands` would record a failure.
  In the model, only the external call fails: `ollama.chat` or the lookup of
  its content in the first three agents, and `subprocess.run` in
  `execute_commands`.
- The `"unknown"` command name in the `except` branch is not modelled. It is
  unreachable, because `command` is always bound when `subprocess.run` raises.
- Verbose `print`/`console.print` output, `rich` markup and the messages
  written to standard error are presentation only.
- `src/main.py` (the command-line interface), `setup.py` and the `__main__`
  demo blocks are not part of this model.
- Python's `re` engine is not modelled. Each of the eight patterns is a
  predicate that matches the same texts as `re.search` does for that pattern.
- Text.Lower: lowercases ASCII letters only. Python's `str.lower()` also maps
  other Unicode letters, and can change the length (`"İ".lower()`).
- Text.Upper: uppercases ASCII letters only. In Python, `"yeſ".upper()` is
  `"YES"`, so the filter would accept such a reply; the model does not.
- CmdValidator.IsWordChar: `\w` is ASCII letters, digits and `_`. Python's `\w`
  on `str` also matches other Unicode letters and digits.
