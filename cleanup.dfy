/** The clean-up both the safety agent and the generator agent apply to a
    language-model reply (src/agents/cmd_safety.py:33-43 and
    src/agents/cmd_generator.py:35-42 are the same code): strip whitespace,
    drop the first and last line of a fenced reply of three or more lines,
    then strip backticks and quotes from both ends. */
module ReplyCleanup {
  import opened Text

  /** What one `ollama.chat` call gives the agent: the message content, or
      the exception the call (or the lookup of the content) raised. */
  datatype ChatOutcome = Reply(content: string) | Failed(message: string)

  const Fence: string := "```"

  /** The source tests `"```bash"`, `"```shell"` and `"```"` as prefixes; the
      last test subsumes the other two. */
  function FenceDetected(s: string): (b: bool)
    ensures b <==> Fence <= s
  {
    "```bash" <= s || "```shell" <= s || "```" <= s
  }

  /** The fence step on an already stripped reply. Text without a leading
      fence, and fenced text of at most two lines, is returned as it is. */
  function Unfence(s: string): (r: string)
    ensures !(Fence <= s) ==> r == s
    ensures NewlineCount(s) < 2 ==> r == s
  {
    if FenceDetected(s) then
      var lines := Split(s);
      JoinSplit(s);
      Join(if |lines| > 2 then lines[1..|lines| - 1] else lines)
    else s
  }

  /** The whole clean-up of a reply's content. What comes out never begins
      or ends with a backtick or a quote. */
  function Clean(content: string): (r: string)
    ensures r == [] || (!IsQuote(r[0]) && !IsQuote(r[|r| - 1]))
  {
    StripChars(Unfence(Strip(content)), QuoteMarks)
  }

  /** A fenced text of three or more lines loses exactly its first line (the
      one holding the fence) and its last line, with the newlines after the
      first and before the last. */
  lemma {:induction false} UnfenceDropsFirstAndLastLine(s: string)
    requires Fence <= s && NewlineCount(s) >= 2
    ensures var lines := Split(s);
            && Fence <= lines[0] && '\n' !in lines[0] && '\n' !in lines[|lines| - 1]
            && s == lines[0] + "\n" + Unfence(s) + "\n" + lines[|lines| - 1]
  {
    var lines := Split(s);
    var n := |lines|;
    var mid := lines[1..n - 1];
    JoinSplit(s);
    assert lines == [lines[0]] + (mid + [lines[n - 1]]);
    assert Unfence(s) == Join(mid);
    JoinAppend([lines[0]], mid + [lines[n - 1]]);
    JoinAppend(mid, [lines[n - 1]]);
    assert Join([lines[0]]) == lines[0] && Join([lines[n - 1]]) == lines[n - 1];
    assert s == lines[0] + ("\n" + Join(mid + [lines[n - 1]]));
  }

  /** The fence step either leaves the text alone or removes a first line
      holding the fence and a last line. */
  lemma {:induction false} UnfenceShape(s: string) returns (first: string, last: string, fenced: bool)
    ensures !fenced ==> Unfence(s) == s
    ensures fenced ==> s == first + "\n" + Unfence(s) + "\n" + last
    ensures fenced ==> Fence <= first && '\n' !in first && '\n' !in last
  {
    fenced := Fence <= s && NewlineCount(s) >= 2;
    if fenced {
      UnfenceDropsFirstAndLastLine(s);
      var lines := Split(s);
      first, last := lines[0], lines[|lines| - 1];
    } else {
      first, last := [], [];
    }
  }

  /** Conversely, wrapping any body between a fence line and a closing line
      gives a text the fence step turns back into that body. */
  lemma {:induction false} UnfenceOfFencedBody(first: string, body: string, last: string)
    requires Fence <= first && '\n' !in first && '\n' !in last
    ensures Unfence(first + "\n" + body + "\n" + last) == body
  {
    var s := first + "\n" + body + "\n" + last;
    assert s == first + "\n" + (body + "\n" + last);
    SplitAround(first, body + "\n" + last);
    SplitAround(body, last);
    SplitNoNewline(first);
    SplitNoNewline(last);
    var lines := Split(s);
    assert lines == [first] + Split(body) + [last];
    assert lines[1..|lines| - 1] == Split(body);
    assert Fence <= s;
    JoinSplit(body);
  }

  lemma {:induction false} UnfenceIsInfix(s: string)
    ensures Contains(s, Unfence(s))
  {
    if Fence <= s && NewlineCount(s) >= 2 {
      UnfenceDropsFirstAndLastLine(s);
      var lines := Split(s);
      var i := |lines[0]| + 1;
      assert s == (lines[0] + "\n") + Unfence(s) + ("\n" + lines[|lines| - 1]);
      assert OccursAt(s, Unfence(s), i);
    } else {
      assert OccursAt(s, s, 0);
    }
  }

  /** The clean-up only removes text: its result is an infix of the reply. */
  lemma {:induction false} CleanIsInfix(content: string)
    ensures Contains(content, Clean(content))
  {
    var stripped := Strip(content);
    StripIsInfix(content, Whitespace);
    UnfenceIsInfix(stripped);
    ContainsTransitive(content, stripped, Unfence(stripped));
    StripIsInfix(Unfence(stripped), QuoteMarks);
    ContainsTransitive(content, Unfence(stripped), Clean(content));
  }

  /** Whitespace around a reply, fenced or not, does not change the clean-up:
      the whitespace strip runs before the fence test. */
  lemma {:induction false} CleanIgnoresSurroundingWhitespace(w1: string, s: string, w2: string)
    requires AllIn(w1, Whitespace) && AllIn(w2, Whitespace)
    ensures Clean(w1 + s + w2) == Clean(s)
  {
    StripAbsorbs(w1, s, w2, Whitespace);
  }

  /** A text that starts with a fence and ends in a non-space character is
      unchanged by the whitespace strip. */
  lemma {:induction false} FencedTextIsStripped(s: string)
    requires Fence <= s && !IsSpace(s[|s| - 1])
    ensures Strip(s) == s
  {
    assert s[0] == Fence[0] == '`';
    StripUnchanged(s, Whitespace);
  }

  /** A fenced reply of three or more lines, with any whitespace around it,
      cleans up to its interior lines with backticks and quotes stripped from
      the ends; the interior lines are not whitespace-stripped again. */
  lemma {:induction false} CleanFencedReply(w1: string, first: string, body: string, last: string, w2: string)
    requires AllIn(w1, Whitespace) && AllIn(w2, Whitespace)
    requires Fence <= first && '\n' !in first && '\n' !in last
    requires |last| > 0 && !IsSpace(last[|last| - 1])
    ensures Clean(w1 + (first + "\n" + body + "\n" + last) + w2) == StripChars(body, QuoteMarks)
  {
    var s := first + "\n" + body + "\n" + last;
    assert Fence <= s && s[|s| - 1] == last[|last| - 1];
    FencedTextIsStripped(s);
    UnfenceOfFencedBody(first, body, last);
    CleanIgnoresSurroundingWhitespace(w1, s, w2);
  }

  lemma {:induction false} QuotedTextIsStripped(q1: string, t: string, q2: string)
    requires AllIn(q1, QuoteMarks) && AllIn(q2, QuoteMarks)
    requires |t| > 0 && !IsSpace(t[0]) && !IsSpace(t[|t| - 1])
    ensures Strip(q1 + t + q2) == q1 + t + q2
  {
    var s := q1 + t + q2;
    assert !IsSpace(s[0]) by {
      if |q1| > 0 { assert s[0] == q1[0] && IsQuote(q1[0]); } else { assert s[0] == t[0]; }
    }
    assert !IsSpace(s[|s| - 1]) by {
      if |q2| > 0 { assert s[|s| - 1] == q2[|q2| - 1] && IsQuote(q2[|q2| - 1]); }
      else { assert s[|s| - 1] == t[|t| - 1]; }
    }
    StripUnchanged(s, Whitespace);
  }

  lemma {:induction false} QuotedTextIsOneLine(q1: string, t: string, q2: string)
    requires AllIn(q1, QuoteMarks) && AllIn(q2, QuoteMarks) && '\n' !in t
    ensures Unfence(q1 + t + q2) == q1 + t + q2
  {
    var s := q1 + t + q2;
    forall k | 0 <= k < |s| ensures s[k] != '\n' {
      if k < |q1| { assert s[k] == q1[k] && IsQuote(q1[k]); }
      else if k < |q1| + |t| { assert s[k] == t[k - |q1|]; }
      else { assert s[k] == q2[k - |q1| - |t|] && IsQuote(q2[k - |q1| - |t|]); }
    }
    SplitNoNewline(s);
  }

  /** A one-line reply wrapped in whitespace and in backticks or quotes
      cleans up to the text inside, provided that text has no newline and
      neither begins nor ends with whitespace, a backtick or a quote. */
  lemma {:induction false} CleanQuotedOneLiner(w1: string, q1: string, t: string, q2: string, w2: string)
    requires AllIn(w1, Whitespace) && AllIn(w2, Whitespace)
    requires AllIn(q1, QuoteMarks) && AllIn(q2, QuoteMarks)
    requires |t| > 0 && '\n' !in t
    requires !IsSpace(t[0]) && !IsSpace(t[|t| - 1])
    requires !IsQuote(t[0]) && !IsQuote(t[|t| - 1])
    ensures Clean(w1 + (q1 + t + q2) + w2) == t
  {
    QuotedTextIsStripped(q1, t, q2);
    QuotedTextIsOneLine(q1, t, q2);
    StripAbsorbs(q1, t, q2, QuoteMarks);
    StripUnchanged(t, QuoteMarks);
    CleanIgnoresSurroundingWhitespace(w1, q1 + t + q2, w2);
  }
}
