/** String operations the agents rely on, stated as Python defines them on
    `str`: `strip()` and `strip(chars)`, `split("\n")`, `"\n".join(...)`,
    `lower()` / `upper()` (ASCII letters only), the `in` substring test and
    the decimal rendering of integers used by f-strings. */
module Text {

  /** The characters for which Python's `str.isspace()` holds; `str.strip()`
      with no argument removes exactly these from both ends. */
  predicate IsSpace(c: char) {
    || c == ' '
    || '\t' <= c <= '\r'
    || '\U{001C}' <= c <= '\U{001F}'
    || c == '\U{0085}' || c == '\U{00A0}' || c == '\U{1680}'
    || '\U{2000}' <= c <= '\U{200A}'
    || c == '\U{2028}' || c == '\U{2029}' || c == '\U{202F}' || c == '\U{205F}' || c == '\U{3000}'
  }

  /** The quote characters the agents strip with `strip('`"\'')`: backtick,
      double quote and single quote. */
  predicate IsQuote(c: char) {
    c == '`' || c == '"' || c == '\''
  }

  /** The two character classes the agents strip from the ends of text. */
  datatype CharClass = Whitespace | QuoteMarks {
    predicate Has(c: char) {
      match this
      case Whitespace => IsSpace(c)
      case QuoteMarks => IsQuote(c)
    }
  }

  /** Every character of `s` is in the class `cs`. */
  predicate AllIn(s: string, cs: CharClass) {
    forall k :: 0 <= k < |s| ==> cs.Has(s[k])
  }

  // ---------------------------------------------------------------------
  // Substrings

  /** `sub` occurs in `s` starting at index `i`. */
  predicate OccursAt(s: string, sub: string, i: int) {
    0 <= i && i + |sub| <= |s| && s[i..i + |sub|] == sub
  }

  /** Python's `sub in s`. */
  predicate Contains(s: string, sub: string) {
    exists i :: 0 <= i <= |s| && OccursAt(s, sub, i)
  }

  /** A prefix of the text after `a` occurs right after `a`. */
  lemma OccursAfter(a: string, b: string, sub: string)
    requires sub <= b
    ensures OccursAt(a + b, sub, |a|)
  {
    assert (a + b)[|a|..|a| + |sub|] == b[..|sub|];
  }

  /** An occurrence in a prefix is an occurrence in the whole text. */
  lemma OccursInPrefix(p: string, s: string, sub: string, i: int)
    requires p <= s && OccursAt(p, sub, i)
    ensures OccursAt(s, sub, i)
  {
    assert s[i..i + |sub|] == p[i..i + |sub|];
  }

  /** An occurrence stays an occurrence, shifted, when text is added around. */
  lemma OccursInLonger(pre: string, s: string, post: string, sub: string, i: int)
    requires OccursAt(s, sub, i)
    ensures OccursAt(pre + s + post, sub, |pre| + i)
  {
    var t := pre + s + post;
    assert t[|pre| + i..|pre| + i + |sub|] == s[i..i + |sub|];
  }

  lemma ContainsInLonger(pre: string, s: string, post: string, sub: string)
    requires Contains(s, sub)
    ensures Contains(pre + s + post, sub)
  {
    var i :| 0 <= i <= |s| && OccursAt(s, sub, i);
    OccursInLonger(pre, s, post, sub, i);
  }

  lemma ContainsTransitive(s: string, mid: string, sub: string)
    requires Contains(s, mid) && Contains(mid, sub)
    ensures Contains(s, sub)
  {
    var i :| 0 <= i <= |s| && OccursAt(s, mid, i);
    var j :| 0 <= j <= |mid| && OccursAt(mid, sub, j);
    forall k | 0 <= k < |sub| ensures s[i + j + k] == sub[k] {
      assert sub[k] == mid[j + k] == s[i + j + k];
    }
    assert OccursAt(s, sub, i + j);
  }

  // ---------------------------------------------------------------------
  // strip

  /** Drops the leading characters that belong to `cs`. */
  function TrimLeft(s: string, cs: CharClass): string {
    if |s| > 0 && cs.Has(s[0]) then TrimLeft(s[1..], cs) else s
  }

  /** Drops the trailing characters that belong to `cs`. */
  function TrimRight(s: string, cs: CharClass): string {
    if |s| > 0 && cs.Has(s[|s| - 1]) then TrimRight(s[..|s| - 1], cs) else s
  }

  /** `TrimLeft` keeps a suffix, cuts off only characters of `cs`, and stops
      at the first character outside `cs`. */
  lemma {:induction false} TrimLeftSpec(s: string, cs: CharClass)
    ensures var r := TrimLeft(s, cs);
            && |r| <= |s| && r == s[|s| - |r|..]
            && AllIn(s[..|s| - |r|], cs)
            && (r == [] || !cs.Has(r[0]))
  {
    if |s| > 0 && cs.Has(s[0]) {
      TrimLeftSpec(s[1..], cs);
      var r := TrimLeft(s, cs);
      var cut := s[..|s| - |r|];
      var rest := s[1..][..|s| - 1 - |r|];
      forall k | 0 <= k < |cut| ensures cs.Has(cut[k]) {
        if k > 0 { assert cut[k] == rest[k - 1]; }
      }
    }
  }

  /** `TrimRight` keeps a prefix, cuts off only characters of `cs`, and stops
      at the last character outside `cs`. */
  lemma {:induction false} TrimRightSpec(s: string, cs: CharClass)
    ensures var r := TrimRight(s, cs);
            && |r| <= |s| && r == s[..|r|]
            && AllIn(s[|r|..], cs)
            && (r == [] || !cs.Has(r[|r| - 1]))
  {
    if |s| > 0 && cs.Has(s[|s| - 1]) {
      var front := s[..|s| - 1];
      TrimRightSpec(front, cs);
      var r := TrimRight(s, cs);
      forall k | 0 <= k < |s| - |r| ensures cs.Has(s[|r|..][k]) {
        if k < |s| - 1 - |r| { assert s[|r|..][k] == front[|r|..][k]; }
      }
    }
  }

  /** Python's `s.strip(chars)`: cuts the characters of `cs` off both ends, so
      what is left neither begins nor ends with one of them. */
  function StripChars(s: string, cs: CharClass): (r: string)
    ensures r == [] || (!cs.Has(r[0]) && !cs.Has(r[|r| - 1]))
  {
    var left := TrimLeft(s, cs);
    TrimLeftSpec(s, cs);
    TrimRightSpec(left, cs);
    TrimRight(left, cs)
  }

  /** Python's `s.strip()`. */
  function Strip(s: string): string {
    StripChars(s, Whitespace)
  }

  /** What `strip(chars)` keeps is one infix of the text; everything it cuts
      off, before and after, is made of characters of `cs`. */
  lemma {:induction false} StripSlice(s: string, cs: CharClass) returns (i: nat)
    ensures i + |StripChars(s, cs)| <= |s|
    ensures OccursAt(s, StripChars(s, cs), i)
    ensures AllIn(s[..i], cs) && AllIn(s[i + |StripChars(s, cs)|..], cs)
  {
    var left := TrimLeft(s, cs);
    TrimLeftSpec(s, cs);
    TrimRightSpec(left, cs);
    var r := TrimRight(left, cs);
    i := |s| - |left|;
    assert r == s[i..i + |r|];
    assert s[i + |r|..] == left[|r|..];
  }

  /** The same, as the pieces around what `strip(chars)` keeps. */
  lemma {:induction false} StripPieces(s: string, cs: CharClass) returns (pre: string, post: string)
    ensures AllIn(pre, cs) && AllIn(post, cs)
    ensures s == pre + StripChars(s, cs) + post
  {
    var r := StripChars(s, cs);
    var i := StripSlice(s, cs);
    pre, post := s[..i], s[i + |r|..];
    assert s == s[..i] + s[i..i + |r|] + s[i + |r|..];
  }

  /** A last character outside `cs` survives `strip(chars)`. */
  lemma {:induction false} StripKeepsLast(s: string, cs: CharClass)
    requires |s| > 0 && !cs.Has(s[|s| - 1])
    ensures var r := StripChars(s, cs); |r| > 0 && r[|r| - 1] == s[|s| - 1]
  {
    var r := StripChars(s, cs);
    var i := StripSlice(s, cs);
    assert r[|r| - 1] == s[i + |r| - 1];
  }

  lemma {:induction false} StripIsInfix(s: string, cs: CharClass)
    ensures Contains(s, StripChars(s, cs))
  {
    var i := StripSlice(s, cs);
  }

  /** A text that already neither begins nor ends with a character of `cs`
      is left alone. */
  lemma {:induction false} StripUnchanged(s: string, cs: CharClass)
    requires s == [] || (!cs.Has(s[0]) && !cs.Has(s[|s| - 1]))
    ensures StripChars(s, cs) == s
  {
    assert TrimLeft(s, cs) == s;
  }

  /** `strip(chars)` is idempotent. */
  lemma {:induction false} StripIdempotent(s: string, cs: CharClass)
    ensures StripChars(StripChars(s, cs), cs) == StripChars(s, cs)
  {
    StripUnchanged(StripChars(s, cs), cs);
  }

  lemma {:induction false} TrimLeftSkips(w: string, s: string, cs: CharClass)
    requires AllIn(w, cs)
    ensures TrimLeft(w + s, cs) == TrimLeft(s, cs)
  {
    if w != [] {
      assert (w + s)[0] == w[0] && cs.Has(w[0]);
      assert (w + s)[1..] == w[1..] + s;
      assert AllIn(w[1..], cs) by {
        forall k | 0 <= k < |w[1..]| ensures cs.Has(w[1..][k]) { assert w[1..][k] == w[k + 1]; }
      }
      TrimLeftSkips(w[1..], s, cs);
      assert TrimLeft(w + s, cs) == TrimLeft(w[1..] + s, cs);
    } else {
      assert w + s == s;
    }
  }

  lemma {:induction false} TrimRightSkips(s: string, w: string, cs: CharClass)
    requires AllIn(w, cs)
    ensures TrimRight(s + w, cs) == TrimRight(s, cs)
  {
    if w != [] {
      assert (s + w)[|s + w| - 1] == w[|w| - 1] && cs.Has(w[|w| - 1]);
      assert (s + w)[..|s + w| - 1] == s + w[..|w| - 1];
      var front := w[..|w| - 1];
      assert AllIn(front, cs) by {
        forall k | 0 <= k < |front| ensures cs.Has(front[k]) { assert front[k] == w[k]; }
      }
      TrimRightSkips(s, front, cs);
      assert TrimRight(s + w, cs) == TrimRight(s + front, cs);
    } else {
      assert s + w == s;
    }
  }

  lemma {:induction false} TrimLeftAppend(s: string, w: string, cs: CharClass)
    requires AllIn(w, cs)
    ensures TrimLeft(s + w, cs) == if TrimLeft(s, cs) == [] then [] else TrimLeft(s, cs) + w
  {
    if s == [] {
      assert s + w == w + [];
      TrimLeftSkips(w, [], cs);
    } else {
      assert (s + w)[0] == s[0];
      assert (s + w)[1..] == s[1..] + w;
      if cs.Has(s[0]) {
        TrimLeftAppend(s[1..], w, cs);
      }
    }
  }

  /** Characters of `cs` around a text do not change what `strip(chars)`
      makes of it. */
  lemma {:induction false} StripAbsorbs(w1: string, s: string, w2: string, cs: CharClass)
    requires AllIn(w1, cs) && AllIn(w2, cs)
    ensures StripChars(w1 + s + w2, cs) == StripChars(s, cs)
  {
    var left := TrimLeft(s, cs);
    assert TrimLeft(w1 + s + w2, cs) == TrimLeft(s + w2, cs) by {
      assert w1 + s + w2 == w1 + (s + w2);
      TrimLeftSkips(w1, s + w2, cs);
    }
    TrimLeftAppend(s, w2, cs);
    if left != [] {
      TrimRightSkips(left, w2, cs);
    }
  }

  /** Python's `s.strip() == ""`: the text is empty or all whitespace. */
  lemma {:induction false} BlankMeansAllWhitespace(s: string)
    ensures Strip(s) == [] <==> AllIn(s, Whitespace)
  {
    if AllIn(s, Whitespace) {
      StripAbsorbs(s, [], [], Whitespace);
      assert s + [] + [] == s;
    } else {
      var i := StripSlice(s, Whitespace);
    }
  }

  // ---------------------------------------------------------------------
  // lower / upper (ASCII)

  function LowerChar(c: char): char {
    if 'A' <= c <= 'Z' then (c as int + 32) as char else c
  }

  function UpperChar(c: char): char {
    if 'a' <= c <= 'z' then (c as int - 32) as char else c
  }

  /** `s.lower()` on the ASCII letters; every other character is kept. */
  function Lower(s: string): (r: string)
    ensures |r| == |s| && forall k :: 0 <= k < |s| ==> r[k] == LowerChar(s[k])
  {
    if s == [] then [] else [LowerChar(s[0])] + Lower(s[1..])
  }

  /** `s.upper()` on the ASCII letters; every other character is kept. */
  function Upper(s: string): (r: string)
    ensures |r| == |s| && forall k :: 0 <= k < |s| ==> r[k] == UpperChar(s[k])
  {
    if s == [] then [] else [UpperChar(s[0])] + Upper(s[1..])
  }

  /** Lowering commutes with taking an infix. */
  lemma {:induction false} LowerContains(s: string, sub: string)
    requires Contains(s, sub)
    ensures Contains(Lower(s), Lower(sub))
  {
    var i :| 0 <= i <= |s| && OccursAt(s, sub, i);
    LowerSlice(s, i, i + |sub|);
    assert OccursAt(Lower(s), Lower(sub), i);
  }

  lemma {:induction false} LowerSlice(s: string, i: nat, j: nat)
    requires i <= j <= |s|
    ensures Lower(s)[i..j] == Lower(s[i..j])
  {
    var whole, part := Lower(s), s[i..j];
    var l, m := whole[i..j], Lower(part);
    forall k | 0 <= k < j - i ensures l[k] == m[k] {
      assert l[k] == whole[i + k] == LowerChar(s[i + k]);
      assert m[k] == LowerChar(part[k]);
    }
  }

  /** A character that lowers to a lower-case letter is a letter, so it is
      neither whitespace, a newline nor a quote. */
  lemma LowersToLetter(c: char, d: char)
    requires LowerChar(c) == d && 'a' <= d <= 'z'
    ensures ('a' <= c <= 'z' || 'A' <= c <= 'Z') && !IsSpace(c) && !IsQuote(c)
  {
  }

  /** When the text before `i` and after `i + n` is all in `cs`, every
      character outside that infix is in `cs`. */
  lemma OnlyEndsAreCut(s: string, cs: CharClass, i: nat, n: nat)
    requires i + n <= |s| && AllIn(s[..i], cs) && AllIn(s[i + n..], cs)
    ensures forall k :: 0 <= k < |s| && !(i <= k < i + n) ==> cs.Has(s[k])
  {
    forall k | 0 <= k < |s| && !(i <= k < i + n) ensures cs.Has(s[k]) {
      if k < i {
        assert s[..i][k] == s[k];
      } else {
        assert s[i + n..][k - i - n] == s[k];
      }
    }
  }

  lemma SliceOfSlice(s: string, a: nat, b: nat, c: nat, d: nat)
    requires a <= c <= d <= b <= |s|
    ensures s[a..b][c - a..d - a] == s[c..d]
  {
    var x, y := s[a..b][c - a..d - a], s[c..d];
    forall k | 0 <= k < d - c ensures x[k] == y[k] {
      assert x[k] == s[a..b][c - a + k] == s[c + k];
    }
  }

  /** An infix with no whitespace in it occurs in `s.strip()` exactly when it
      occurs in `s`: the strip only cuts whitespace. */
  lemma {:induction false} StripKeepsSolidInfix(s: string, sub: string)
    requires |sub| > 0 && forall k :: 0 <= k < |sub| ==> !IsSpace(sub[k])
    ensures Contains(Strip(s), sub) <==> Contains(s, sub)
  {
    var r := Strip(s);
    var i := StripSlice(s, Whitespace);
    if Contains(s, sub) {
      var j :| 0 <= j <= |s| && OccursAt(s, sub, j);
      var last := j + |sub| - 1;
      assert s[j] == sub[0] && s[last] == sub[|sub| - 1];
      OnlyEndsAreCut(s, Whitespace, i, |r|);
      assert i <= j && last < i + |r|;
      SliceOfSlice(s, i, i + |r|, j, j + |sub|);
      assert OccursAt(r, sub, j - i);
    }
    if Contains(r, sub) {
      StripIsInfix(s, Whitespace);
      ContainsTransitive(s, r, sub);
    }
  }

  /** ASCII uppercasing turns whitespace into whitespace and nothing else
      into whitespace. */
  lemma UpperKeepsSpace(c: char)
    ensures IsSpace(UpperChar(c)) <==> IsSpace(c)
  {
  }

  lemma UpperAppend(a: string, b: string)
    ensures Upper(a + b) == Upper(a) + Upper(b)
  {
  }

  lemma UpperKeepsAllSpace(s: string)
    requires AllIn(s, Whitespace)
    ensures AllIn(Upper(s), Whitespace)
  {
    forall k | 0 <= k < |s| ensures Whitespace.Has(Upper(s)[k]) {
      UpperKeepsSpace(s[k]);
    }
  }

  /** Uppercasing commutes with `strip()`. */
  lemma {:induction false} UpperStrip(s: string)
    ensures Upper(Strip(s)) == Strip(Upper(s))
  {
    var r := Strip(s);
    var i := StripSlice(s, Whitespace);
    var w1, w2 := s[..i], s[i + |r|..];
    assert s == w1 + r + w2;
    UpperAppend(w1 + r, w2);
    UpperAppend(w1, r);
    UpperKeepsAllSpace(w1);
    UpperKeepsAllSpace(w2);
    StripAbsorbs(Upper(w1), Upper(r), Upper(w2), Whitespace);
    if r != [] {
      UpperKeepsSpace(r[0]);
      UpperKeepsSpace(r[|r| - 1]);
    }
    StripUnchanged(Upper(r), Whitespace);
  }

  // ---------------------------------------------------------------------
  // split("\n") and "\n".join(...)

  function NewlineCount(s: string): nat {
    if s == [] then 0 else (if s[0] == '\n' then 1 else 0) + NewlineCount(s[1..])
  }

  /** Python's `s.split("\n")`: the maximal newline-free pieces between the
      newlines, one more piece than there are newlines. */
  function Split(s: string): (lines: seq<string>)
    ensures |lines| == NewlineCount(s) + 1
    ensures forall k :: 0 <= k < |lines| ==> '\n' !in lines[k]
  {
    if s == [] then [[]]
    else if s[0] == '\n' then [[]] + Split(s[1..])
    else
      var rest := Split(s[1..]);
      [[s[0]] + rest[0]] + rest[1..]
  }

  /** Python's `"\n".join(lines)`. */
  function Join(lines: seq<string>): string {
    if lines == [] then []
    else if |lines| == 1 then lines[0]
    else lines[0] + "\n" + Join(lines[1..])
  }

  /** Joining the pieces of a split gives the text back. */
  lemma {:induction false} JoinSplit(s: string)
    ensures Join(Split(s)) == s
  {
    if s != [] {
      JoinSplit(s[1..]);
      var rest := Split(s[1..]);
      if s[0] != '\n' && |rest| > 1 {
        assert Split(s)[1..] == rest[1..];
        assert Join(Split(s)) == [s[0]] + (rest[0] + "\n" + Join(rest[1..]));
      }
    }
  }

  /** Splitting a join of newline-free lines gives the lines back. */
  lemma {:induction false} SplitJoin(lines: seq<string>)
    requires |lines| >= 1
    requires forall k :: 0 <= k < |lines| ==> '\n' !in lines[k]
    ensures Split(Join(lines)) == lines
  {
    if |lines| == 1 {
      SplitNoNewline(lines[0]);
    } else {
      SplitJoin(lines[1..]);
      SplitNoNewline(lines[0]);
      SplitAround(lines[0], Join(lines[1..]));
      assert lines == [lines[0]] + lines[1..];
    }
  }

  lemma {:induction false} SplitNoNewline(s: string)
    requires '\n' !in s
    ensures Split(s) == [s]
  {
    if s != [] {
      assert '\n' !in s[1..] by {
        forall k | 0 <= k < |s[1..]| ensures s[1..][k] != '\n' {
          assert s[1..][k] == s[k + 1];
        }
      }
      SplitNoNewline(s[1..]);
      assert [s[0]] + s[1..] == s;
    }
  }

  /** A newline splits the text into the lines before it and the lines after it. */
  lemma {:induction false} SplitAround(a: string, b: string)
    ensures Split(a + "\n" + b) == Split(a) + Split(b)
  {
    if a == [] {
      assert a + "\n" + b == "\n" + b;
      assert ("\n" + b)[1..] == b;
    } else {
      assert (a + "\n" + b)[0] == a[0];
      assert (a + "\n" + b)[1..] == a[1..] + "\n" + b;
      SplitAround(a[1..], b);
    }
  }

  lemma {:induction false} JoinAppend(a: seq<string>, b: seq<string>)
    requires |a| >= 1 && |b| >= 1
    ensures Join(a + b) == Join(a) + "\n" + Join(b)
  {
    if |a| == 1 {
      assert (a + b)[1..] == b;
    } else {
      assert (a + b)[1..] == a[1..] + b;
      JoinAppend(a[1..], b);
    }
  }

  // ---------------------------------------------------------------------
  // Decimal rendering of integers, as `f"{n}"` prints them

  function DigitChar(d: nat): char
    requires d < 10
  {
    ('0' as int + d) as char
  }

  predicate IsDigits(s: string) {
    |s| >= 1 && forall k :: 0 <= k < |s| ==> '0' <= s[k] <= '9'
  }

  /** The number a string of decimal digits denotes. */
  function DigitsValue(s: string): nat
    requires forall k :: 0 <= k < |s| ==> '0' <= s[k] <= '9'
  {
    if s == [] then 0
    else DigitsValue(s[..|s| - 1]) * 10 + (s[|s| - 1] as int - '0' as int)
  }

  function NatToString(n: nat): (r: string)
    ensures IsDigits(r)
  {
    if n < 10 then [DigitChar(n)] else NatToString(n / 10) + [DigitChar(n % 10)]
  }

  /** `str(i)` for a Python int: an optional minus sign, then the digits. */
  function IntToString(i: int): string {
    if i < 0 then "-" + NatToString(-i) else NatToString(i)
  }

  predicate IsDecimal(s: string) {
    IsDigits(s) || (|s| >= 2 && s[0] == '-' && IsDigits(s[1..]))
  }

  /** Reads back a rendered integer. */
  function ParseInt(s: string): int
    requires IsDecimal(s)
  {
    if s[0] == '-' then 0 - DigitsValue(s[1..]) as int else DigitsValue(s)
  }

  lemma {:induction false} NatToStringRoundTrip(n: nat)
    ensures DigitsValue(NatToString(n)) == n
  {
    if n >= 10 {
      NatToStringRoundTrip(n / 10);
      var s := NatToString(n);
      assert s[..|s| - 1] == NatToString(n / 10);
    }
  }

  /** The rendering is decimal and loses nothing: reading it back gives `i`. */
  lemma IntToStringRoundTrip(i: int)
    ensures IsDecimal(IntToString(i)) && ParseInt(IntToString(i)) == i
  {
    if i < 0 {
      NatToStringRoundTrip(-i);
      assert IntToString(i)[1..] == NatToString(-i);
    } else {
      NatToStringRoundTrip(i);
    }
  }
}
