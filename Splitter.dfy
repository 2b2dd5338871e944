/** The coordinator's sentence splitter: it hides the period of a few abbreviations
    behind a placeholder, applies the sentence regular expression, puts the periods
    back, trims each sentence and drops the empty ones. */
module Splitter {
  import opened JsText
  import opened SentenceRegex

  /** What hides an abbreviation's period from the sentence regular expression. */
  const Placeholder: string := "{abbr-dot}"

  /** The abbreviations, in the order the pass applies them. */
  const Abbreviations: seq<string> := ["Mr.", "Mrs.", "Dr.", "Prof.", "etc.", "e.g.", "i.e."]

  /** `\b` at position `p`: a word character on exactly one side. */
  predicate IsBoundary(s: string, p: nat)
    requires p <= |s|
  {
    (p > 0 && IsWordChar(s[p - 1])) != (p < |s| && IsWordChar(s[p]))
  }

  /** The characters of `abbr`, read as a pattern, match `s` from `i` on. Each `.` of
      an abbreviation is not escaped, so it matches any character except a line
      terminator. */
  predicate PatternCharsAt(s: string, abbr: string, i: nat)
    decreases |abbr|
  {
    abbr == [] ||
      (i < |s| && (if abbr[0] == '.' then IsLineChar(s[i]) else s[i] == abbr[0])
       && PatternCharsAt(s, abbr[1..], i + 1))
  }

  /** `new RegExp("\\b" + abbr + "\\b")` matches at `i`. */
  predicate MatchesAbbreviationAt(s: string, abbr: string, i: nat) {
    && i + |abbr| <= |s|
    && IsBoundary(s, i)
    && IsBoundary(s, i + |abbr|)
    && PatternCharsAt(s, abbr, i)
  }

  /** `abbr.replace('.', '{abbr-dot}')`: a string pattern, so only the first period
      is replaced. */
  function HideFirstPeriod(abbr: string): string
  {
    if abbr == [] then []
    else if abbr[0] == '.' then Placeholder + abbr[1..]
    else [abbr[0]] + HideFirstPeriod(abbr[1..])
  }

  /** The global replace of the pattern for `abbr` by `replacement`, from position `i`
      on: each match, leftmost first, is replaced and the search goes on after it. */
  function ReplaceAbbreviationFrom(s: string, abbr: string, replacement: string, i: nat): string
    requires abbr != [] && i <= |s|
    decreases |s| - i
  {
    if i == |s| then []
    else if MatchesAbbreviationAt(s, abbr, i) then
      replacement + ReplaceAbbreviationFrom(s, abbr, replacement, i + |abbr|)
    else
      [s[i]] + ReplaceAbbreviationFrom(s, abbr, replacement, i + 1)
  }

  /** `text.replace(new RegExp("\\b" + abbr + "\\b", "g"), abbr.replace('.', '{abbr-dot}'))`. */
  function ProtectAbbreviation(text: string, abbr: string): string
    requires abbr != []
  {
    ReplaceAbbreviationFrom(text, abbr, HideFirstPeriod(abbr), 0)
  }

  /** `s.replace(/{abbr-dot}/g, '.')`: every placeholder, leftmost first, becomes a period. */
  function Restore(s: string): string
  {
    if |s| < |Placeholder| then s
    else if s[..|Placeholder|] == Placeholder then "." + Restore(s[|Placeholder|..])
    else [s[0]] + Restore(s[1..])
  }

  /** Restore and trim each sentence, and keep those that are not empty. */
  function Clean(sentences: seq<string>): seq<string>
  {
    if sentences == [] then []
    else
      var c := Trim(Restore(sentences[0]));
      (if c == [] then [] else [c]) + Clean(sentences[1..])
  }

  /** The rest of `splitText` once `protected` is what the passes made of `text` so
      far: the remaining abbreviation passes in order (the `reduce`), then the
      sentence split of the result, falling back to `text` itself, then `Clean`. */
  function SplitProtected(text: string, protected: string, abbrs: seq<string>): seq<string>
    requires forall k | 0 <= k < |abbrs| :: |abbrs[k]| > 0
    // `text` is in the measure so that the verifier does not unfold all the passes
    // over the literal list of abbreviations wherever a caller names this function.
    decreases |abbrs|, |text|
  {
    if abbrs == [] then
      var ms := Matches(protected);
      Clean(if ms == [] then [text] else ms)
    else
      SplitProtected(text, ProtectAbbreviation(protected, abbrs[0]), abbrs[1..])
  }

  /** `splitText` of the coordinator. Empty text gives no sentences; when the regular
      expression finds nothing, the original text stands as the one sentence. */
  function SplitSentences(text: string): seq<string>
  {
    if text == [] then [] else SplitProtected(text, text, Abbreviations)
  }

  /** A pass finds nothing to rewrite unless the abbreviation's pattern matches,
      boundaries included, somewhere: the text is then left as it is. */
  lemma {:induction false} ReplaceOnlyAtMatches(s: string, abbr: string, replacement: string, i: nat)
    requires abbr != [] && i <= |s|
    requires forall p | i <= p < |s| :: !MatchesAbbreviationAt(s, abbr, p)
    ensures ReplaceAbbreviationFrom(s, abbr, replacement, i) == s[i..]
    decreases |s| - i
  {
    if i < |s| {
      ReplaceOnlyAtMatches(s, abbr, replacement, i + 1);
      assert s[i..] == [s[i]] + s[i + 1..];
    }
  }

  /** Where the pattern does not match at `i`, the pass copies `s[i]` and goes on. */
  lemma ReplaceStepPlain(s: string, abbr: string, replacement: string, i: nat)
    requires abbr != [] && i < |s| && !MatchesAbbreviationAt(s, abbr, i)
    ensures ReplaceAbbreviationFrom(s, abbr, replacement, i) ==
              [s[i]] + ReplaceAbbreviationFrom(s, abbr, replacement, i + 1)
  {
  }

  /** `[c] + (x + y)` as the slice `s[i..q]` followed by `y`. */
  lemma ConsSlice(s: string, i: nat, q: nat, y: string)
    requires i < q <= |s|
    ensures [s[i]] + (s[i + 1..q] + y) == s[i..q] + y
  {
    assert s[i..q] == [s[i]] + s[i + 1..q];
  }

  /** Locally: where the pattern matches at no position of `[i, q)`, the pass copies
      `s[i..q]` as it is and goes on from `q`. */
  lemma {:induction false} ReplaceKeepsPlainPrefix(s: string, abbr: string, replacement: string, i: nat, q: nat)
    requires abbr != [] && i <= q <= |s|
    requires forall p | i <= p < q :: !MatchesAbbreviationAt(s, abbr, p)
    ensures ReplaceAbbreviationFrom(s, abbr, replacement, i) ==
              s[i..q] + ReplaceAbbreviationFrom(s, abbr, replacement, q)
    decreases q - i
  {
    if i < q {
      ReplaceStepPlain(s, abbr, replacement, i);
      ReplaceKeepsPlainPrefix(s, abbr, replacement, i + 1, q);
      ConsSlice(s, i, q, ReplaceAbbreviationFrom(s, abbr, replacement, q));
    } else {
      assert s[i..q] == [];
    }
  }

  /** What `Restore` makes of a string begins with `w` only if the string itself
      begins with `w`, when `w` has no period: a period is all `Restore` ever writes
      in place of something else. */
  lemma {:induction false} RestorePrefix(t: string, w: string)
    requires '.' !in w
    ensures |w| <= |Restore(t)| && Restore(t)[..|w|] == w ==> |w| <= |t| && t[..|w|] == w
  {
    if w != [] && |t| >= |Placeholder| {
      assert w[0] in w;
      if t[..|Placeholder|] != Placeholder {
        NotInTail(w, '.');
        RestorePrefix(t[1..], w[1..]);
        RestorePrefixStep(t, w);
      }
    }
  }

  /** The step of `RestorePrefix` past a first character that is kept. */
  lemma RestorePrefixStep(t: string, w: string)
    requires w != [] && |t| >= |Placeholder| && t[..|Placeholder|] != Placeholder
    requires |w| - 1 <= |Restore(t[1..])| && Restore(t[1..])[..|w| - 1] == w[1..] ==>
               |w| - 1 <= |t| - 1 && t[1..][..|w| - 1] == w[1..]
    ensures |w| <= |Restore(t)| && Restore(t)[..|w|] == w ==> |w| <= |t| && t[..|w|] == w
  {
    var r := Restore(t[1..]);
    assert Restore(t) == [t[0]] + r;
    if |w| <= |Restore(t)| && Restore(t)[..|w|] == w {
      assert r[..|w| - 1] == Restore(t)[1..|w|] == w[1..];
      assert t[..|w|] == [t[0]] + t[1..][..|w| - 1];
    }
  }

  /** An occurrence after the first character of `h + t` is an occurrence in `t`. */
  lemma OccursAfterHead(h: string, t: string, pat: string, k: nat)
    requires |h| == 1 && 1 <= k
    ensures OccursAt(h + t, pat, k) == OccursAt(t, pat, k - 1)
  {
    if k + |pat| <= |h + t| {
      assert (h + t)[k..k + |pat|] == t[k - 1..k - 1 + |pat|];
    }
  }

  /** What `Restore` makes of a string never begins with the placeholder. */
  lemma RestoreNotAtStart(s: string)
    ensures !OccursAt(Restore(s), Placeholder, 0)
  {
    var P := Placeholder;
    var r := Restore(s);
    assert '.' !in P;
    RestorePrefix(s, P);
    if |P| <= |r| {
      assert r[0..|P|] == r[..|P|];
    }
    if |s| >= |P| && s[..|P|] == P {
      assert s == P + s[|P|..];
      RestorePlaceholderHead(s[|P|..]);
      assert r[0] == '.';
    }
  }

  /** No placeholder survives `Restore`. */
  lemma {:induction false} RestoreRemovesPlaceholders(s: string)
    ensures !Occurs(Restore(s), Placeholder)
  {
    var P := Placeholder;
    var r := Restore(s);
    RestoreNotAtStart(s);
    if |s| >= |P| {
      var replaced := s[..|P|] == P;
      var head: string := if replaced then "." else [s[0]];
      var rest := if replaced then s[|P|..] else s[1..];
      RestoreRemovesPlaceholders(rest);
      assert r == head + Restore(rest);
      forall k: nat | 1 <= k <= |r|
        ensures !OccursAt(r, P, k)
      {
        OccursAfterHead(head, Restore(rest), P, k);
      }
    }
  }

  /** A sentence restored and trimmed is trimmed and free of the placeholder. */
  lemma CleanOne(sentence: string)
    ensures Trim(Trim(Restore(sentence))) == Trim(Restore(sentence))
    ensures !Occurs(Trim(Restore(sentence)), Placeholder)
  {
    TrimIdempotent(Restore(sentence));
    RestoreRemovesPlaceholders(sentence);
    OccursInTrim(Restore(sentence), Placeholder);
  }

  /** `Clean` handles the first sentence, then the rest. */
  lemma CleanStep(sentences: seq<string>)
    requires sentences != []
    ensures var c := Trim(Restore(sentences[0]));
            Clean(sentences) == (if c == [] then [] else [c]) + Clean(sentences[1..])
  {
  }

  /** Every sentence `Clean` keeps is non-empty, trimmed and free of the placeholder. */
  lemma {:induction false} CleanSentences(sentences: seq<string>)
    ensures forall c | c in Clean(sentences) :: c != [] && Trim(c) == c && !Occurs(c, Placeholder)
  {
    if sentences != [] {
      CleanSentences(sentences[1..]);
      CleanStep(sentences);
      CleanOne(sentences[0]);
    }
  }

  /** Whatever the passes made of the text, its sentences are clean. */
  lemma {:induction false} SplitProtectedClean(text: string, protected: string, abbrs: seq<string>)
    requires forall k | 0 <= k < |abbrs| :: |abbrs[k]| > 0
    ensures forall c | c in SplitProtected(text, protected, abbrs) ::
              c != [] && Trim(c) == c && !Occurs(c, Placeholder)
    decreases |abbrs|
  {
    if abbrs == [] {
      var ms := Matches(protected);
      CleanSentences(if ms == [] then [text] else ms);
    } else {
      SplitProtectedClean(text, ProtectAbbreviation(protected, abbrs[0]), abbrs[1..]);
    }
  }

  /** The sentences of any text are non-empty, trimmed and free of the placeholder;
      empty text has none. */
  lemma SplitSentencesClean(text: string)
    ensures text == [] ==> SplitSentences(text) == []
    ensures forall c | c in SplitSentences(text) ::
              c != [] && Trim(c) == c && !Occurs(c, Placeholder)
  {
    if text != [] {
      SplitProtectedClean(text, text, Abbreviations);
    }
  }

  /** Restoring passes over a first character that is not `{`. */
  lemma RestoreCons(c: char, b: string)
    requires c != '{'
    ensures Restore([c] + b) == [c] + Restore(b)
  {
    var t := [c] + b;
    assert t[1..] == b;
    if |t| >= |Placeholder| {
      assert t[..|Placeholder|][0] == c;
    }
  }

  /** Restoring turns a leading placeholder into a period. */
  lemma RestorePlaceholderHead(b: string)
    ensures Restore(Placeholder + b) == "." + Restore(b)
  {
    var t := Placeholder + b;
    assert t[..|Placeholder|] == Placeholder && t[|Placeholder|..] == b;
  }

  /** `RestoreCons` with the rest of the string in two parts. */
  lemma RestoreConsAppend(c: char, x: string, b: string)
    requires c != '{'
    ensures Restore([c] + x + b) == [c] + Restore(x + b)
  {
    assert [c] + x + b == [c] + (x + b);
    RestoreCons(c, x + b);
  }

  /** A character missing from a non-empty string is missing from its tail. */
  lemma NotInTail(s: string, c: char)
    requires s != [] && c !in s
    ensures c !in s[1..]
  {
  }

  /** Restoring leaves a prefix without `{` as it is. */
  lemma {:induction false} RestoreAfterPlain(a: string, b: string)
    requires '{' !in a
    ensures Restore(a + b) == a + Restore(b)
  {
    if a == [] {
      assert a + b == b;
    } else {
      var rest := a[1..];
      assert a == [a[0]] + rest;
      assert a + b == [a[0]] + rest + b;
      assert a[0] in a;
      NotInTail(a, '{');
      RestoreConsAppend(a[0], rest, b);
      RestoreAfterPlain(rest, b);
    }
  }

  /** A character in a string whose head is not it is in its tail. */
  lemma InTail(s: string, c: char)
    requires c in s && s[0] != c
    ensures c in s[1..]
  {
    var k :| 0 <= k < |s| && s[k] == c;
    assert s[1..][k - 1] == c;
  }

  /** Restoring an abbreviation whose period comes first, hidden. */
  lemma RestoreHiddenHead(rest: string, b: string)
    requires '{' !in rest
    ensures Restore(Placeholder + rest + b) == "." + rest + Restore(b)
  {
    assert Placeholder + rest + b == Placeholder + (rest + b);
    RestorePlaceholderHead(rest + b);
    RestoreAfterPlain(rest, b);
  }

  /** Restoring the hidden form of an abbreviation gives the abbreviation back. */
  lemma {:induction false} RestoreHidden(abbr: string, b: string)
    requires '.' in abbr && '{' !in abbr
    ensures Restore(HideFirstPeriod(abbr) + b) == abbr + Restore(b)
  {
    var rest := abbr[1..];
    assert '{' !in rest;
    if abbr[0] == '.' {
      RestoreHiddenHead(rest, b);
      assert abbr == "." + rest;
    } else {
      InTail(abbr, '.');
      RestoreHidden(rest, b);
      assert abbr[0] in abbr;
      RestoreConsAppend(abbr[0], HideFirstPeriod(rest), b);
      assert abbr == [abbr[0]] + rest;
    }
  }

  /** One step of `RestoreUndoesPassFrom` where the pattern matches at `i`. */
  lemma RestoreUndoesMatch(s: string, abbr: string, i: nat)
    requires '.' in abbr && '{' !in abbr && i < |s|
    requires MatchesAbbreviationAt(s, abbr, i) && s[i..i + |abbr|] == abbr
    requires Restore(ReplaceAbbreviationFrom(s, abbr, HideFirstPeriod(abbr), i + |abbr|)) == s[i + |abbr|..]
    ensures Restore(ReplaceAbbreviationFrom(s, abbr, HideFirstPeriod(abbr), i)) == s[i..]
  {
    var hidden := HideFirstPeriod(abbr);
    var rest := ReplaceAbbreviationFrom(s, abbr, hidden, i + |abbr|);
    RestoreHidden(abbr, rest);
    assert s[i..] == s[i..i + |abbr|] + s[i + |abbr|..];
  }

  /** One step of `RestoreUndoesPassFrom` where the pattern does not match at `i`. */
  lemma RestoreUndoesPlain(s: string, abbr: string, i: nat)
    requires abbr != [] && '{' !in s && i < |s| && !MatchesAbbreviationAt(s, abbr, i)
    requires Restore(ReplaceAbbreviationFrom(s, abbr, HideFirstPeriod(abbr), i + 1)) == s[i + 1..]
    ensures Restore(ReplaceAbbreviationFrom(s, abbr, HideFirstPeriod(abbr), i)) == s[i..]
  {
    assert s[i] in s;
    RestoreCons(s[i], ReplaceAbbreviationFrom(s, abbr, HideFirstPeriod(abbr), i + 1));
    assert s[i..] == [s[i]] + s[i + 1..];
  }

  /** Restoring undoes the pass from `i` on, for a text without `{` in which the
      pattern matches only where the abbreviation itself stands. */
  lemma {:induction false} RestoreUndoesPassFrom(s: string, abbr: string, i: nat)
    requires '.' in abbr && '{' !in abbr && '{' !in s && i <= |s|
    requires forall p | i <= p < |s| && MatchesAbbreviationAt(s, abbr, p) :: s[p..p + |abbr|] == abbr
    ensures Restore(ReplaceAbbreviationFrom(s, abbr, HideFirstPeriod(abbr), i)) == s[i..]
    decreases |s| - i
  {
    if i < |s| {
      if MatchesAbbreviationAt(s, abbr, i) {
        RestoreUndoesPassFrom(s, abbr, i + |abbr|);
        RestoreUndoesMatch(s, abbr, i);
      } else {
        RestoreUndoesPassFrom(s, abbr, i + 1);
        RestoreUndoesPlain(s, abbr, i);
      }
    }
  }

  /** Every abbreviation of the list hides a period and has no `{`. */
  lemma AbbreviationsHideAPeriod()
    ensures forall a | a in Abbreviations :: '.' in a && '{' !in a
  {
    assert "Mr."[2] == '.' && "Mrs."[3] == '.' && "Dr."[2] == '.' && "Prof."[4] == '.';
    assert "etc."[3] == '.' && "e.g."[1] == '.' && "i.e."[1] == '.';
  }

  /** Restoring undoes the pass of each listed abbreviation, for a text without `{`
      wherever that abbreviation's pattern matches only the abbreviation itself. */
  lemma ListedRoundTrip(text: string, n: nat)
    requires n < |Abbreviations| && '{' !in text
    requires forall p | 0 <= p < |text| && MatchesAbbreviationAt(text, Abbreviations[n], p) ::
               text[p..p + |Abbreviations[n]|] == Abbreviations[n]
    ensures Restore(ProtectAbbreviation(text, Abbreviations[n])) == text
  {
    AbbreviationsHideAPeriod();
    assert Abbreviations[n] in Abbreviations;
    ProtectAbbreviationRoundTrip(text, Abbreviations[n]);
  }

  /** Putting the periods back undoes one pass of an abbreviation with a period to
      hide (as each of `Abbreviations` is), for a text without `{`, wherever the
      pattern matches only the abbreviation itself. */
  lemma ProtectAbbreviationRoundTrip(text: string, abbr: string)
    requires '.' in abbr && '{' !in abbr && '{' !in text
    requires forall p | 0 <= p < |text| && MatchesAbbreviationAt(text, abbr, p) ::
               text[p..p + |abbr|] == abbr
    ensures Restore(ProtectAbbreviation(text, abbr)) == text
  {
    RestoreUndoesPassFrom(text, abbr, 0);
  }

  /** The `Mr.` pass rewrites "Mrs Smith": its unescaped period matches the `s`. */
  lemma MrPassRewritesMrs()
    ensures ProtectAbbreviation("Mrs Smith", "Mr.") == "Mr" + Placeholder + " Smith"
  {
    var t := "Mrs Smith";
    assert HideFirstPeriod("Mr.") == "Mr" + Placeholder;
    assert MatchesAbbreviationAt(t, "Mr.", 0);
    assert ReplaceAbbreviationFrom(t, "Mr.", "Mr" + Placeholder, 3) == " Smith";
  }

  lemma RestoreMrPlaceholder()
    ensures Restore("Mr" + Placeholder + " Smith") == "Mr. Smith"
  {
    assert "Mr." == "Mr" + "." && '.' in "Mr." && '{' !in "Mr.";
    RestoreHidden("Mr.", " Smith");
    assert HideFirstPeriod("Mr.") == "Mr" + Placeholder;
    assert Restore(" Smith") == " Smith";
  }

  /** Without that condition the round trip fails: the unescaped period of `Mr.`
      matches the `s` of `Mrs`, so "Mrs Smith" comes back as "Mr. Smith". */
  lemma WildcardPeriodRewritesText()
    ensures ProtectAbbreviation("Mrs Smith", "Mr.") == "Mr" + Placeholder + " Smith"
    ensures Restore(ProtectAbbreviation("Mrs Smith", "Mr.")) == "Mr. Smith"
  {
    MrPassRewritesMrs();
    RestoreMrPlaceholder();
  }

  /** `Mrs.` is never protected: the `Mr.` pass comes first, its period matches the `s`
      and `\b` holds between `s` and `.`, so the period of `Mrs.` stays visible. */
  lemma MrPassTakesMrsPeriod()
    ensures ProtectAbbreviation("Mrs. Smith", "Mr.") == "Mr" + Placeholder + ". Smith"
  {
    var t := "Mrs. Smith";
    assert HideFirstPeriod("Mr.") == "Mr" + Placeholder;
    assert MatchesAbbreviationAt(t, "Mr.", 0);
    assert ReplaceAbbreviationFrom(t, "Mr.", "Mr" + Placeholder, 3) == ". Smith";
  }

  /** A word character after the period meets the closing `\b`: "Dr.Smith" is
      protected. */
  lemma ProtectedBeforeWord()
    ensures ProtectAbbreviation("Dr.Smith", "Dr.") == "Dr" + Placeholder + "Smith"
  {
    var t := "Dr.Smith";
    assert HideFirstPeriod("Dr.") == "Dr" + Placeholder;
    assert MatchesAbbreviationAt(t, "Dr.", 0);
    assert ReplaceAbbreviationFrom(t, "Dr.", "Dr" + Placeholder, 3) == "Smith";
  }

  /** A space after the period fails the closing `\b`: "Dr. Smith" is left as it is,
      so its period still ends a sentence. */
  lemma UnprotectedBeforeSpace()
    ensures ProtectAbbreviation("Dr. Smith", "Dr.") == "Dr. Smith"
  {
  }
}
