/** The command-generator agent (src/agents/cmd_generator.py): the model's
    reply, cleaned up, is the command; any failure gives a fixed command. */
module CmdGenerator {
  import opened Text
  import opened ReplyCleanup

  /** What `generate_command` returns when the model call raises. */
  const GenerationFailed: string := "echo 'Command generation failed'"

  /** `generate_command`, given the outcome of its one model call. On the
      success path the command neither begins nor ends with a backtick or a
      quote; the fallback is exactly `GenerationFailed`. */
  function GenerateCommand(reply: ChatOutcome): (command: string)
    ensures reply.Failed? ==> command == GenerationFailed
    ensures reply.Reply? ==> command == [] || (!IsQuote(command[0]) && !IsQuote(command[|command| - 1]))
  {
    match reply
    case Reply(content) => Clean(content)
    case Failed(_) => GenerationFailed
  }

  /** The generated command is text taken from the reply, never invented. */
  lemma {:induction false} CommandComesFromReply(content: string)
    ensures Contains(content, GenerateCommand(Reply(content)))
  {
    CleanIsInfix(content);
  }

  /** The fallback command ends with a quote, so the quote-free ends hold
      on the success path only. */
  lemma FallbackEndsWithQuote(message: string)
    ensures var command := GenerateCommand(Failed(message));
            |command| > 0 && IsQuote(command[|command| - 1])
  {
  }

  /** Stripping backticks and quotes a second time changes nothing. */
  lemma {:induction false} CommandIsQuoteStripped(content: string)
    ensures StripChars(GenerateCommand(Reply(content)), QuoteMarks) == GenerateCommand(Reply(content))
  {
    StripIdempotent(Unfence(Strip(content)), QuoteMarks);
  }

  /** A fenced reply of three or more lines, with any whitespace around
      it, yields exactly its interior lines when these neither begin nor end
      with a backtick or a quote. */
  lemma {:induction false} FencedReplyGivesInterior(w1: string, first: string, body: string, last: string, w2: string)
    requires AllIn(w1, Whitespace) && AllIn(w2, Whitespace)
    requires Fence <= first && '\n' !in first && '\n' !in last
    requires |last| > 0 && !IsSpace(last[|last| - 1])
    requires |body| > 0 && !IsQuote(body[0]) && !IsQuote(body[|body| - 1])
    ensures GenerateCommand(Reply(w1 + (first + "\n" + body + "\n" + last) + w2)) == body
  {
    CleanFencedReply(w1, first, body, last, w2);
    StripUnchanged(body, QuoteMarks);
  }

  /** For example, "```bash\nls -la\n```" gives "ls -la". */
  lemma {:induction false} FencedBashReply(reply: string)
    requires reply == "```bash\nls -la\n```"
    ensures GenerateCommand(Reply(reply)) == "ls -la"
  {
    var first, body, last := "```bash", "ls -la", "```";
    assert reply == [] + (first + "\n" + body + "\n" + last) + [];
    FencedReplyGivesInterior([], first, body, last, []);
  }

  /** An unfenced one-line reply loses its backticks: "`ls -la`" gives
      "ls -la". */
  lemma {:induction false} BacktickedOneLiner(reply: string)
    requires reply == "`ls -la`"
    ensures GenerateCommand(Reply(reply)) == "ls -la"
  {
    var tick, t := "`", "ls -la";
    assert reply == [] + (tick + t + tick) + [];
    assert AllIn(tick, QuoteMarks);
    CleanQuotedOneLiner([], tick, t, tick, []);
  }
}
