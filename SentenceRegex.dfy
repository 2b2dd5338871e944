/** The sentence regular expression both surfaces apply with `String.prototype.match`
    and the global flag:

        [^.!?]+[.!?]+[\])'"`]*|.+

    written as an explicit scanner with the matching semantics of ECMA-262
    (section 22.2): at each position the first alternative is tried, then the
    second, and a position where neither matches is skipped. */
module SentenceRegex {
  import opened JsText

  /** `[.!?]`: the characters that end a sentence. */
  predicate IsTerminal(c: char) {
    c == '.' || c == '!' || c == '?'
  }

  predicate IsNonTerminal(c: char) {
    !IsTerminal(c)
  }

  /** The closing brackets and quotes that may follow a sentence's terminals. */
  predicate IsCloser(c: char) {
    c == ']' || c == ')' || c == '\'' || c == '"' || c == '`'
  }

  /** What `.` matches: anything but a line terminator. */
  predicate IsLineChar(c: char) {
    !IsLineTerminator(c)
  }

  /** The character classes the expression is made of. */
  datatype CharClass = NonTerminals | Terminals | Closers | LineChars

  predicate InClass(c: char, cls: CharClass) {
    match cls
    case NonTerminals => IsNonTerminal(c)
    case Terminals => IsTerminal(c)
    case Closers => IsCloser(c)
    case LineChars => IsLineChar(c)
  }

  /** The end of the longest run of characters of class `cls` that starts at `i`:
      what a greedy `[...]*` consumes from `i`. */
  function SpanEnd(s: string, i: nat, cls: CharClass): (j: nat)
    requires i <= |s|
    ensures i <= j <= |s|
    ensures forall k | i <= k < j :: InClass(s[k], cls)
    ensures j < |s| ==> !InClass(s[j], cls)
    decreases |s| - i
  {
    if i < |s| && InClass(s[i], cls) then SpanEnd(s, i + 1, cls) else i
  }

  /** How a match that starts at some position `i` is made up. */
  datatype Match =
    | NoMatch
      /** `[^.!?]+` over `[i, j)`, `[.!?]+` over `[j, k)`, closers over `[k, e)`. */
    | Sentence(j: nat, k: nat, e: nat)
      /** `.+` over `[i, e)`. */
    | Line(e: nat)

  /** The match that starts exactly at `i`. The first alternative is taken whenever it
      can match, and then each of its parts is as long as possible (greedy); otherwise
      `.+` takes the rest of the line; otherwise (`i` is the end, or a line terminator
      not followed by a sentence) there is no match. A line terminator is an ordinary
      character of `[^.!?]`, so it can begin a sentence match. */
  function MatchAt(s: string, i: nat): (r: Match)
    requires i <= |s|
    ensures r.Sentence? ==>
              && i < r.j < r.k <= r.e <= |s|
              && (forall m | i <= m < r.j :: IsNonTerminal(s[m]))
              && (forall m | r.j <= m < r.k :: IsTerminal(s[m]))
              && (forall m | r.k <= m < r.e :: IsCloser(s[m]))
              && (r.k == |s| || !IsTerminal(s[r.k]))
              && (r.e == |s| || !IsCloser(s[r.e]))
    ensures r.Line? ==>
              && i < r.e <= |s|
              && (forall m | i <= m < r.e :: IsLineChar(s[m]))
              && (r.e == |s| || IsLineTerminator(s[r.e]))
              && (IsTerminal(s[i]) || forall m | i <= m < |s| :: IsNonTerminal(s[m]))
    ensures r.NoMatch? ==>
              i == |s| || (IsLineTerminator(s[i]) && forall m | i <= m < |s| :: IsNonTerminal(s[m]))
    ensures (i == |s| || IsLineTerminator(s[i])) && !r.Sentence? ==> r.NoMatch?
  {
    var j := SpanEnd(s, i, NonTerminals);
    if i < j < |s| then
      var k := SpanEnd(s, j, Terminals);
      Sentence(j, k, SpanEnd(s, k, Closers))
    else
      var e := SpanEnd(s, i, LineChars);
      if i < e then Line(e) else NoMatch
  }

  /** The matches found from position `i` on, in order. */
  function MatchesFrom(s: string, i: nat): (ms: seq<string>)
    requires i <= |s|
    decreases |s| - i
  {
    if i == |s| then []
    else
      var r := MatchAt(s, i);
      if r.NoMatch? then MatchesFrom(s, i + 1)
      else [s[i..r.e]] + MatchesFrom(s, r.e)
  }

  /** Where a match starts at `i`, it is the first of the matches from `i`. */
  lemma MatchesFromStep(s: string, i: nat)
    requires i < |s| && IsLineChar(s[i])
    ensures i < MatchAt(s, i).e <= |s|
    ensures MatchesFrom(s, i) == [s[i..MatchAt(s, i).e]] + MatchesFrom(s, MatchAt(s, i).e)
  {
  }

  /** `s.match(regex)`: every match, in order (empty for JavaScript's `null`). */
  function Matches(s: string): seq<string>
  {
    MatchesFrom(s, 0)
  }

  /** `s.match(regex) || [s]`, as the popup's chunker uses it. */
  function Sentences(s: string): seq<string>
  {
    var ms := Matches(s);
    if ms == [] then [s] else ms
  }

  /** No match is empty. */
  lemma {:induction false} MatchesFromNonEmpty(s: string, i: nat)
    requires i <= |s|
    ensures forall m | m in MatchesFrom(s, i) :: m != []
    decreases |s| - i
  {
    if i < |s| {
      var r := MatchAt(s, i);
      if r.NoMatch? {
        MatchesFromNonEmpty(s, i + 1);
      } else {
        MatchesFromNonEmpty(s, r.e);
      }
    }
  }

  /** Where `.` matches everything from `i` on, the matches cover `s[i..]` exactly,
      in order. */
  lemma {:induction false} MatchesFromCover(s: string, i: nat)
    requires i <= |s|
    requires forall m | i <= m < |s| :: IsLineChar(s[m])
    ensures Concat(MatchesFrom(s, i)) == s[i..]
    decreases |s| - i
  {
    if i < |s| {
      var e := MatchAt(s, i).e;
      MatchesFromStep(s, i);
      ConcatCons(s[i..e], MatchesFrom(s, e));
      MatchesFromCover(s, e);
      SliceSplit(s, i, e);
    }
  }

  /** A match is found wherever a line begins with a character other than a line
      terminator; `match` gives `null` only for text made of line terminators. */
  lemma {:induction false} MatchesFromEmpty(s: string, i: nat)
    requires i <= |s|
    ensures MatchesFrom(s, i) == [] <==> forall m | i <= m < |s| :: IsLineTerminator(s[m])
    decreases |s| - i
  {
    if i < |s| {
      if MatchAt(s, i).NoMatch? {
        MatchesFromEmpty(s, i + 1);
      }
    }
  }

  /** The sentences of a text are never empty, except for the one sentence `""` of the
      empty text; and a text without line breaks is exactly its sentences joined. */
  lemma SentencesShape(s: string)
    ensures s == [] ==> Sentences(s) == [[]]
    ensures s != [] ==> forall m | m in Sentences(s) :: m != []
    ensures (forall m | 0 <= m < |s| :: IsLineChar(s[m])) ==> Concat(Sentences(s)) == s
  {
    MatchesFromNonEmpty(s, 0);
    if forall m | 0 <= m < |s| :: IsLineChar(s[m]) {
      MatchesFromCover(s, 0);
      if s == [] {
        assert Concat(Sentences(s)) == [] + Concat([]);
      }
    }
  }

  /** The period of an unprotected "Dr." ends the first sentence match. */
  lemma PeriodAfterDrEndsSentence()
    ensures MatchAt("Dr. Smith", 0) == Sentence(2, 3, 3)
  {
    assert SpanEnd("Dr. Smith", 0, NonTerminals) == 2;
    assert SpanEnd("Dr. Smith", 2, Terminals) == 3;
    assert SpanEnd("Dr. Smith", 3, Closers) == 3;
  }

  /** The first match of a run of non-terminals, a period and two spaces is the run
      and the period. */
  lemma FirstMatchOfSentenceThenBlank(body: string)
    requires body != [] && forall k | 0 <= k < |body| :: IsNonTerminal(body[k])
    ensures MatchAt(body + ".  ", 0) == Sentence(|body|, |body| + 1, |body| + 1)
  {
    var t := body + ".  ";
    var n := |body|;
    assert forall k | 0 <= k < n :: t[k] == body[k];
    assert t[n] == '.' && t[n + 1] == ' ';
    assert SpanEnd(t, 0, NonTerminals) == n;
    assert SpanEnd(t, n, Terminals) == n + 1;
    assert SpanEnd(t, n + 1, Closers) == n + 1;
  }

  /** After that sentence, the two spaces are matched by `.+`. */
  lemma SecondMatchOfSentenceThenBlank(body: string)
    ensures MatchAt(body + ".  ", |body| + 1) == Line(|body| + 3)
  {
    var t := body + ".  ";
    var n := |body|;
    assert t[n + 1] == ' ' && t[n + 2] == ' ';
    assert SpanEnd(t, n + 1, NonTerminals) == n + 3;
    assert SpanEnd(t, n + 1, LineChars) == n + 3;
  }

  /** A sentence followed by two spaces gives the sentence and the blank `.+` match. */
  lemma SentenceThenBlank(body: string)
    requires body != [] && forall k | 0 <= k < |body| :: IsNonTerminal(body[k])
    ensures Sentences(body + ".  ") == [body + ".", "  "]
  {
    var t := body + ".  ";
    var n := |body|;
    FirstMatchOfSentenceThenBlank(body);
    SecondMatchOfSentenceThenBlank(body);
    assert MatchesFrom(t, n + 3) == [];
    assert MatchesFrom(t, n + 1) == [t[n + 1..n + 3]];
    assert MatchesFrom(t, 0) == [t[0..n + 1]] + MatchesFrom(t, n + 1);
    assert t[0..n + 1] == body + "." && t[n + 1..n + 3] == "  ";
  }
}
