/** The command-safety agent (src/agents/cmd_safety.py): the model is asked
    whether a command is safe and the cleaned reply must read exactly
    "true", ignoring case. Every failure gives "unsafe". */
module CmdSafety {
  import opened Text
  import opened ReplyCleanup

  /** `validate_command`, given the outcome of its one model call. */
  function ValidateCommand(reply: ChatOutcome): (safe: bool)
    ensures reply.Failed? ==> !safe
    ensures safe ==> reply.Reply? && |Clean(reply.content)| == 4
  {
    match reply
    case Reply(content) => Lower(Clean(content)) == "true"
    case Failed(_) => false
  }

  /** A reply is judged safe only if it mentions "true" in some case. */
  lemma {:induction false} SafeOnlyIfReplySaysTrue(content: string)
    requires ValidateCommand(Reply(content))
    ensures Contains(Lower(content), "true")
  {
    CleanIsInfix(content);
    LowerContains(content, Clean(content));
  }

  /** Conversely, every reply judged safe has one of the two shapes above:
      whitespace around either a run of backticks and quotes, a word that
      lowercases to "true" and another such run, or a fence of three or more
      lines whose interior is that quoted word. */
  lemma {:induction false} SafeReplyShape(content: string)
      returns (w1: string, first: string, q1: string, t: string, q2: string, last: string, w2: string, fenced: bool)
    requires ValidateCommand(Reply(content))
    ensures AllIn(w1, Whitespace) && AllIn(w2, Whitespace)
    ensures AllIn(q1, QuoteMarks) && AllIn(q2, QuoteMarks) && Lower(t) == "true"
    ensures !fenced ==> content == w1 + (q1 + t + q2) + w2
    ensures fenced ==> content == w1 + (first + "\n" + (q1 + t + q2) + "\n" + last) + w2
    ensures fenced ==> Fence <= first && '\n' !in first && '\n' !in last
  {
    var s := Strip(content);
    w1, w2 := StripPieces(content, Whitespace);
    var u := Unfence(s);
    q1, q2 := StripPieces(u, QuoteMarks);
    t := StripChars(u, QuoteMarks);
    first, last, fenced := UnfenceShape(s);
  }

  /** A word that lowercases to "true" holds no newline and neither begins
      nor ends with whitespace, a backtick or a quote. */
  lemma {:induction false} TrueWordShape(t: string)
    requires Lower(t) == "true"
    ensures |t| == 4 && '\n' !in t
    ensures !IsSpace(t[0]) && !IsSpace(t[3]) && !IsQuote(t[0]) && !IsQuote(t[3])
  {
    var l := Lower(t);
    assert |t| == 4;
    assert l[0] == 't' && l[1] == 'r' && l[2] == 'u' && l[3] == 'e';
    LowersToLetter(t[0], l[0]);
    LowersToLetter(t[1], l[1]);
    LowersToLetter(t[2], l[2]);
    LowersToLetter(t[3], l[3]);
  }

  /** "true" in any mix of cases, wrapped in backticks or quotes (a one-line
      fence "```true```" included) and in whitespace, is judged safe. */
  lemma {:induction false} WrappedTrueIsSafe(w1: string, q1: string, t: string, q2: string, w2: string)
    requires AllIn(w1, Whitespace) && AllIn(w2, Whitespace)
    requires AllIn(q1, QuoteMarks) && AllIn(q2, QuoteMarks)
    requires Lower(t) == "true"
    ensures ValidateCommand(Reply(w1 + (q1 + t + q2) + w2))
  {
    TrueWordShape(t);
    CleanQuotedOneLiner(w1, q1, t, q2, w2);
  }

  /** A fenced reply whose interior is "true" in any mix of cases is judged
      safe, whatever whitespace surrounds it. */
  lemma {:induction false} FencedTrueIsSafe(w1: string, first: string, t: string, last: string, w2: string)
    requires AllIn(w1, Whitespace) && AllIn(w2, Whitespace)
    requires Fence <= first && '\n' !in first && '\n' !in last
    requires |last| > 0 && !IsSpace(last[|last| - 1])
    requires Lower(t) == "true"
    ensures ValidateCommand(Reply(w1 + (first + "\n" + t + "\n" + last) + w2))
  {
    TrueWordShape(t);
    CleanFencedReply(w1, first, t, last, w2);
    StripUnchanged(t, QuoteMarks);
  }

  /** The one-line reply "```true```" is not a fence of three lines, so
      the fence step leaves it and the character strip reduces it to "true". */
  lemma {:induction false} OneLineFenceIsSafe(reply: string)
    requires reply == "```true```"
    ensures ValidateCommand(Reply(reply))
  {
    var fence, t := "```", "true";
    assert reply == [] + (fence + t + fence) + [];
    assert Lower(t) == "true";
    assert AllIn(fence, QuoteMarks);
    WrappedTrueIsSafe([], fence, t, fence, []);
  }

  /** A one-line reply whose text, once stripped, is longer or shorter than
      "true" is unsafe: the comparison is exact, not a search. */
  lemma {:induction false} OtherLengthIsUnsafe(t: string)
    requires |t| > 0 && |t| != 4 && '\n' !in t
    requires !IsSpace(t[0]) && !IsSpace(t[|t| - 1]) && !IsQuote(t[0]) && !IsQuote(t[|t| - 1])
    ensures !ValidateCommand(Reply(t))
  {
    CleanQuotedOneLiner([], [], t, [], []);
    assert [] + ([] + t + []) + [] == t;
  }

  lemma {:induction false} TrailingTextIsUnsafe(reply: string)
    requires reply == "true." || reply == "True, it is safe"
    ensures !ValidateCommand(Reply(reply))
  {
    OtherLengthIsUnsafe(reply);
  }

  lemma EndsInSpaceIsNotTrue(c: string)
    requires |c| > 0 && IsSpace(c[|c| - 1])
    ensures Lower(c) != "true"
  {
    assert Lower(c)[|c| - 1] == c[|c| - 1];
  }

  /** The interior of a fenced reply is not whitespace-stripped again: an
      interior that ends in whitespace makes the reply unsafe, whatever the
      whitespace around the whole reply. */
  lemma {:induction false} InteriorWhitespaceIsUnsafe(w1: string, first: string, body: string, last: string, w2: string)
    requires AllIn(w1, Whitespace) && AllIn(w2, Whitespace)
    requires Fence <= first && '\n' !in first && '\n' !in last
    requires |last| > 0 && !IsSpace(last[|last| - 1])
    requires |body| > 0 && IsSpace(body[|body| - 1])
    ensures !ValidateCommand(Reply(w1 + (first + "\n" + body + "\n" + last) + w2))
  {
    CleanFencedReply(w1, first, body, last, w2);
    StripKeepsLast(body, QuoteMarks);
    EndsInSpaceIsNotTrue(StripChars(body, QuoteMarks));
  }

  lemma {:induction false} InteriorLineIsNotRestripped(reply: string)
    requires reply == "```\ntrue \n```"
    ensures !ValidateCommand(Reply(reply))
  {
    var fence, body := "```", "true ";
    assert reply == [] + (fence + "\n" + body + "\n" + fence) + [];
    InteriorWhitespaceIsUnsafe([], fence, body, fence, []);
  }
}
