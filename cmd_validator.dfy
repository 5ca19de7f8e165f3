/** The query filter (src/agents/cmd_validator.py): a blank query is
    refused, a query that looks like small talk is refused by eight fixed
    patterns tested on its lowercase form, and any other query is put to the
    model, whose answer is accepted when it holds "YES". When the model call
    fails the query is let through. */
module CmdValidator {
  import opened Text
  import opened ReplyCleanup

  datatype Option<T> = None | Some(value: T)

  /** The eight conversational patterns, one constructor per regular
      expression, in the order the source tries them. */
  datatype Pattern =
    | Greeting            // ^(hi|hello|hey|greetings)
    | HowAreYou           // how are you
    | WhatsYourName       // what's your name
    | WhoAreYou           // who (are|created) you
    | TellMeAJoke         // tell me (about|a) joke
    | CanYouHelpMeWith    // can you help me with (.+\?)
    | WhatDoYouThinkAbout // what do you think about
    | ExplainToMe         // explain \w+ to me

  const ConversationalPatterns: seq<Pattern> :=
    [Greeting, HowAreYou, WhatsYourName, WhoAreYou, TellMeAJoke,
     CanYouHelpMeWith, WhatDoYouThinkAbout, ExplainToMe]

  const HelpPrefix: string := "can you help me with "
  const ExplainPrefix: string := "explain "
  const ToMe: string := " to me"

  /** `\w` on ASCII text: letters, digits and the underscore. */
  predicate IsWordChar(c: char) {
    'a' <= c <= 'z' || 'A' <= c <= 'Z' || '0' <= c <= '9' || c == '_'
  }

  /** `can you help me with (.+\?)` matches at `i`, the group ending with the
      question mark at `j`: at least one character before it, and no
      newline, since `.` does not match one. */
  predicate HelpQuestionAt(q: string, i: int, j: int) {
    && OccursAt(q, HelpPrefix, i)
    && i + |HelpPrefix| < j < |q|
    && q[j] == '?'
    && forall k :: i + |HelpPrefix| <= k < j ==> q[k] != '\n'
  }

  /** `explain \w+ to me` matches at `i`, the word ending at `j`. */
  predicate ExplainAt(q: string, i: int, j: int) {
    && OccursAt(q, ExplainPrefix, i)
    && i + |ExplainPrefix| < j
    && OccursAt(q, ToMe, j)
    && forall k :: i + |ExplainPrefix| <= k < j ==> IsWordChar(q[k])
  }

  /** `^(hi|hello|hey|greetings)`: the text begins with one of the four
      greetings. */
  predicate StartsWithGreeting(q: string) {
    "hi" <= q || "hello" <= q || "hey" <= q || "greetings" <= q
  }

  /** The length of the shortest text each pattern matches. */
  function MinMatchLength(p: Pattern): nat {
    match p
    case Greeting => 2            // "hi"
    case HowAreYou => 11
    case WhatsYourName => 16
    case WhoAreYou => 11          // "who are you"
    case TellMeAJoke => 14        // "tell me a joke"
    case CanYouHelpMeWith => 23   // "can you help me with " + one character + "?"
    case WhatDoYouThinkAbout => 23
    case ExplainToMe => 15        // "explain " + one word character + " to me"
  }

  /** `re.search(pattern, q)` finds a match. Only the greeting is anchored
      at the start of the text. No text shorter than the pattern's shortest
      match is matched. */
  predicate Matches(p: Pattern, q: string): (found: bool)
    ensures found ==> |q| >= MinMatchLength(p)
  {
    match p
    case Greeting => StartsWithGreeting(q)
    case HowAreYou => Contains(q, "how are you")
    case WhatsYourName => Contains(q, "what's your name")
    case WhoAreYou => Contains(q, "who are you") || Contains(q, "who created you")
    case TellMeAJoke => Contains(q, "tell me about joke") || Contains(q, "tell me a joke")
    case CanYouHelpMeWith => exists i, j :: 0 <= i <= j < |q| && HelpQuestionAt(q, i, j)
    case WhatDoYouThinkAbout => Contains(q, "what do you think about")
    case ExplainToMe => exists i, j :: 0 <= i <= j <= |q| && ExplainAt(q, i, j)
  }

  /** `re.search` looks for a match anywhere: a pattern that matches a text
      also matches any longer text around it, except that text before the
      query defeats the greeting, which is anchored at the start. */
  lemma {:induction false} MatchesInLongerText(p: Pattern, pre: string, q: string, post: string)
    requires Matches(p, q) && (p == Greeting ==> pre == [])
    ensures Matches(p, pre + q + post)
  {
    var big := pre + q + post;
    match p
    case Greeting =>
      assert big == q + post;
    case CanYouHelpMeWith =>
      HelpQuestionInLongerText(pre, q, post);
    case ExplainToMe =>
      ExplainInLongerText(pre, q, post);
    case HowAreYou =>
      ContainsInLonger(pre, q, post, "how are you");
    case WhatsYourName =>
      ContainsInLonger(pre, q, post, "what's your name");
    case WhoAreYou =>
      if Contains(q, "who are you") {
        ContainsInLonger(pre, q, post, "who are you");
      } else {
        ContainsInLonger(pre, q, post, "who created you");
      }
    case TellMeAJoke =>
      if Contains(q, "tell me about joke") {
        ContainsInLonger(pre, q, post, "tell me about joke");
      } else {
        ContainsInLonger(pre, q, post, "tell me a joke");
      }
    case WhatDoYouThinkAbout =>
      ContainsInLonger(pre, q, post, "what do you think about");
  }

  lemma {:induction false} HelpQuestionInLongerText(pre: string, q: string, post: string)
    requires Matches(CanYouHelpMeWith, q)
    ensures Matches(CanYouHelpMeWith, pre + q + post)
  {
    var big := pre + q + post;
    var i, j :| 0 <= i <= j < |q| && HelpQuestionAt(q, i, j);
    OccursInLonger(pre, q, post, HelpPrefix, i);
    assert big[|pre| + j] == q[j];
    forall k | |pre| + i + |HelpPrefix| <= k < |pre| + j ensures big[k] != '\n' {
      assert big[k] == q[k - |pre|];
    }
    assert HelpQuestionAt(big, |pre| + i, |pre| + j);
  }

  lemma {:induction false} ExplainInLongerText(pre: string, q: string, post: string)
    requires Matches(ExplainToMe, q)
    ensures Matches(ExplainToMe, pre + q + post)
  {
    var big := pre + q + post;
    var i, j :| 0 <= i <= j <= |q| && ExplainAt(q, i, j);
    OccursInLonger(pre, q, post, ExplainPrefix, i);
    OccursInLonger(pre, q, post, ToMe, j);
    forall k | |pre| + i + |ExplainPrefix| <= k < |pre| + j ensures IsWordChar(big[k]) {
      assert big[k] == q[k - |pre|];
    }
    assert ExplainAt(big, |pre| + i, |pre| + j);
  }

  /** Some pattern matches the (lowercased) query. */
  predicate IsConversational(q: string) {
    exists p: Pattern :: Matches(p, q)
  }

  /** The `for pattern in conversational_patterns` loop: the position of the
      first pattern that matches, if any. */
  function FirstMatch(ps: seq<Pattern>, q: string): (r: Option<nat>)
    ensures r.Some? ==> r.value < |ps| && Matches(ps[r.value], q)
    ensures r.Some? ==> forall m :: 0 <= m < r.value ==> !Matches(ps[m], q)
    ensures r.None? ==> forall m :: 0 <= m < |ps| ==> !Matches(ps[m], q)
  {
    if ps == [] then None
    else if Matches(ps[0], q) then Some(0)
    else
      match FirstMatch(ps[1..], q)
      case None => None
      case Some(k) => Some(k + 1)
  }

  /** What `validate_query` returns: `(is_valid, reason)`. */
  datatype Verdict = Verdict(isValid: bool, reason: string)

  const EmptyQuery: string := "Empty query"
  const ConversationalQuery: string :=
    "This appears to be a conversational query rather than a shell command request"
  const ValidQuery: string := "Query is valid for shell command generation"
  const NotShellQuery: string := "Query does not appear to be asking for a shell command"
  const InconclusiveQuery: string := "Query validation was inconclusive, proceeding with caution"

  /** The model's reply as the filter reads it: stripped and uppercased. */
  function Answer(content: string): string {
    Upper(Strip(content))
  }

  /** `validate_query`, given the outcome of the model call it makes when the
      query is neither blank nor conversational. The query is refused unless
      the model answered "YES" or the call failed. */
  function ValidateQuery(query: string, reply: ChatOutcome): (v: Verdict)
    ensures v.isValid <==> v.reason == ValidQuery || v.reason == InconclusiveQuery
    ensures v.isValid ==> reply.Failed? || Contains(Answer(reply.content), "YES")
  {
    if Strip(query) == [] then Verdict(false, EmptyQuery)
    else if FirstMatch(ConversationalPatterns, Lower(query)).Some? then
      Verdict(false, ConversationalQuery)
    else
      match reply
      case Failed(_) => Verdict(true, InconclusiveQuery)
      case Reply(content) =>
        if Contains(Answer(content), "YES") then Verdict(true, ValidQuery)
        else Verdict(false, NotShellQuery)
  }

  /** The pattern list holds every pattern, so the loop finds a match exactly
      when some pattern matches, whatever the order. */
  lemma {:induction false} FirstMatchFindsAny(q: string)
    ensures FirstMatch(ConversationalPatterns, q).Some? <==> IsConversational(q)
  {
    var ps := ConversationalPatterns;
    if IsConversational(q) {
      var p :| Matches(p, q);
      var k := match p
        case Greeting => 0
        case HowAreYou => 1
        case WhatsYourName => 2
        case WhoAreYou => 3
        case TellMeAJoke => 4
        case CanYouHelpMeWith => 5
        case WhatDoYouThinkAbout => 6
        case ExplainToMe => 7;
      assert ps[k] == p;
    }
  }

  /** A query that is empty or only whitespace is refused as empty, and only
      such a query is, whatever the model would have said. */
  lemma {:induction false} BlankQueryIsEmpty(query: string, reply: ChatOutcome)
    ensures ValidateQuery(query, reply).reason == EmptyQuery <==> AllIn(query, Whitespace)
    ensures AllIn(query, Whitespace) ==> ValidateQuery(query, reply) == Verdict(false, EmptyQuery)
  {
    BlankMeansAllWhitespace(query);
  }

  /** A non-blank query that matches a pattern is refused as conversational
      before the model is asked: the reply plays no part. */
  lemma {:induction false} ConversationalIgnoresReply(query: string, reply: ChatOutcome)
    requires !AllIn(query, Whitespace) && IsConversational(Lower(query))
    ensures ValidateQuery(query, reply) == Verdict(false, ConversationalQuery)
  {
    BlankMeansAllWhitespace(query);
    FirstMatchFindsAny(Lower(query));
  }

  /** "YES" holds no whitespace, so the strip before the search changes
      nothing: the answer counts as "YES" when the uppercased reply holds it
      anywhere, inside a longer word included. */
  lemma {:induction false} YesAnywhereInReply(content: string)
    ensures Contains(Answer(content), "YES") <==> Contains(Upper(content), "YES")
  {
    UpperStrip(content);
    StripKeepsSolidInfix(Upper(content), "YES");
  }

  /** A non-blank, non-conversational query is valid exactly when the model's
      reply holds "yes" in any mix of cases. */
  lemma {:induction false} ModelDecides(query: string, content: string)
    requires !AllIn(query, Whitespace) && !IsConversational(Lower(query))
    ensures ValidateQuery(query, Reply(content)).isValid <==> Contains(Upper(content), "YES")
    ensures !ValidateQuery(query, Reply(content)).isValid ==>
              ValidateQuery(query, Reply(content)).reason == NotShellQuery
  {
    BlankMeansAllWhitespace(query);
    FirstMatchFindsAny(Lower(query));
    YesAnywhereInReply(content);
  }

  /** When the model call fails, a non-blank, non-conversational query is let
      through as inconclusive. */
  lemma {:induction false} FailOpen(query: string, message: string)
    requires !AllIn(query, Whitespace) && !IsConversational(Lower(query))
    ensures ValidateQuery(query, Failed(message)) == Verdict(true, InconclusiveQuery)
  {
    BlankMeansAllWhitespace(query);
    FirstMatchFindsAny(Lower(query));
  }

  /** A query is accepted only if it is not blank, matches no pattern, and the
      model either said "yes" or could not be asked. */
  lemma {:induction false} ValidOnlyIfYesOrFailure(query: string, reply: ChatOutcome)
    requires ValidateQuery(query, reply).isValid
    ensures !AllIn(query, Whitespace) && !IsConversational(Lower(query))
    ensures reply.Failed? || Contains(Upper(reply.content), "YES")
  {
    BlankMeansAllWhitespace(query);
    FirstMatchFindsAny(Lower(query));
    if reply.Reply? {
      YesAnywhereInReply(reply.content);
    }
  }

  /** The greeting pattern is anchored at the first character of the
      unstripped query, so leading whitespace defeats it. */
  lemma GreetingIsAnchored(query: string)
    requires |query| > 0 && IsSpace(query[0])
    ensures !Matches(Greeting, Lower(query))
  {
    var q := Lower(query);
    SpaceIsNotLetter(query[0]);
    assert q[0] == query[0];
    NoGreetingAfterSpace(q);
  }

  lemma SpaceIsNotLetter(c: char)
    requires IsSpace(c)
    ensures LowerChar(c) == c
  {
  }

  lemma NoGreetingAfterSpace(q: string)
    requires |q| > 0 && IsSpace(q[0])
    ensures !StartsWithGreeting(q)
  {
    NotPrefixByHead("hi", q);
    NotPrefixByHead("hello", q);
    NotPrefixByHead("hey", q);
    NotPrefixByHead("greetings", q);
  }

  lemma NotPrefixByHead(p: string, q: string)
    requires |p| > 0 && |q| > 0 && q[0] != p[0]
    ensures !(p <= q)
  {
  }

  /** The greeting pattern has no word boundary: every query whose lowercase
      form begins with "hi" is refused, "history" and "hide" included. */
  lemma {:induction false} HiPrefixIsConversational(query: string, reply: ChatOutcome)
    requires "hi" <= Lower(query)
    ensures ValidateQuery(query, reply) == Verdict(false, ConversationalQuery)
  {
    assert !IsSpace(query[0]) by {
      assert LowerChar(query[0]) == 'h';
    }
    assert !AllIn(query, Whitespace);
    assert Matches(Greeting, Lower(query));
    ConversationalIgnoresReply(query, reply);
  }

  lemma {:induction false} HistoryQueryIsRefused(query: string, reply: ChatOutcome)
    requires query == "History of my shell"
    ensures !ValidateQuery(query, reply).isValid
  {
    assert Lower(query)[0] == 'h' && Lower(query)[1] == 'i';
    HiPrefixIsConversational(query, reply);
  }

  /** " hi" escapes every pattern (the greeting by its leading space, the
      others by length) and goes to the model. */
  lemma {:induction false} SpacedGreetingGoesToModel(query: string, content: string, message: string)
    requires query == " hi"
    ensures ValidateQuery(query, Reply(content)).isValid <==> Contains(Upper(content), "YES")
    ensures ValidateQuery(query, Failed(message)).isValid
  {
    var q := Lower(query);
    assert |q| == 3;
    GreetingIsAnchored(query);
    assert !IsConversational(q) by {
      forall p: Pattern ensures !Matches(p, q) {
        if p == CanYouHelpMeWith {
          assert |HelpPrefix| == 21;
          assert forall i :: !OccursAt(q, HelpPrefix, i);
        } else if p == ExplainToMe {
          assert |ExplainPrefix| == 8;
          assert forall i :: !OccursAt(q, ExplainPrefix, i);
        }
      }
    }
    assert !AllIn(query, Whitespace) by {
      assert !Whitespace.Has(query[1]);
    }
    ModelDecides(query, content);
    FailOpen(query, message);
  }

  /** "can you help me with ...?" is refused whatever comes before and after,
      provided the question mark is on the same line. */
  lemma {:induction false} HelpQuestionIsConversational(pre: string, x: string, post: string)
    requires |x| > 0 && '\n' !in x
    ensures Matches(CanYouHelpMeWith, pre + HelpPrefix + x + "?" + post)
  {
    var q := pre + HelpPrefix + x + "?" + post;
    var i, j := |pre|, |pre| + |HelpPrefix| + |x|;
    assert q[i..i + |HelpPrefix|] == HelpPrefix;
    assert q[j] == '?';
    forall k | i + |HelpPrefix| <= k < j ensures q[k] != '\n' {
      assert q[k] == x[k - i - |HelpPrefix|];
    }
    assert HelpQuestionAt(q, i, j);
  }

  /** Without a question mark the help pattern cannot match. */
  lemma HelpNeedsQuestionMark(q: string)
    requires '?' !in q
    ensures !Matches(CanYouHelpMeWith, q)
  {
  }

  /** "explain <word> to me" is refused whatever comes before and after. */
  lemma {:induction false} ExplainWordIsConversational(pre: string, w: string, post: string)
    requires |w| > 0 && forall k :: 0 <= k < |w| ==> IsWordChar(w[k])
    ensures Matches(ExplainToMe, pre + ExplainPrefix + w + ToMe + post)
  {
    var q := pre + ExplainPrefix + w + ToMe + post;
    var i, j := |pre|, |pre| + |ExplainPrefix| + |w|;
    assert q[i..i + |ExplainPrefix|] == ExplainPrefix;
    assert q[j..j + |ToMe|] == ToMe;
    forall k | i + |ExplainPrefix| <= k < j ensures IsWordChar(q[k]) {
      assert q[k] == w[k - i - |ExplainPrefix|];
    }
    assert ExplainAt(q, i, j);
  }

  /** `\w` does not match a space, so the explained word is a single word:
      wherever the pattern matches, the text between "explain " and " to me"
      holds no space. */
  lemma ExplainedWordHasNoSpace(q: string, i: int, j: int)
    requires ExplainAt(q, i, j)
    ensures ' ' !in q[i + |ExplainPrefix|..j]
  {
    var word := q[i + |ExplainPrefix|..j];
    forall k | 0 <= k < |word| ensures word[k] != ' ' {
      assert IsWordChar(q[i + |ExplainPrefix| + k]);
    }
  }
}
