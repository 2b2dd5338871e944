/** The few JavaScript values and string built-ins that both surfaces of the
    reader rely on: `undefined`, the line terminators that `.` in a regular
    expression refuses, `String.prototype.trim`, the `\w` word characters that
    `\b` looks at.
    Strings are `seq<char>`; lengths are counted in characters. */
module JsText {

  /** A value that may be `undefined` (or `null`, where the source treats both alike). */
  datatype Option<+T> = None | Some(value: T) {
    function GetOr(default: T): T {
      match this
      case Some(v) => v
      case None => default
    }
  }

  /** LineTerminator of ECMA-262 section 12.3: LF, CR, LINE SEPARATOR, PARAGRAPH SEPARATOR. */
  predicate IsLineTerminator(c: char) {
    c == '\n' || c == '\r' || c == '\U{2028}' || c == '\U{2029}'
  }

  /** What `String.prototype.trim` strips (ECMA-262 section 22.1.3.32): WhiteSpace
      (section 12.2, the Unicode "Zs" characters included) and LineTerminator. */
  predicate IsTrimmable(c: char) {
    || IsLineTerminator(c)
    || c == '\t' || c == '\U{000B}' || c == '\U{000C}' || c == ' '
    || c == '\U{00A0}' || c == '\U{FEFF}' || c == '\U{1680}'
    || ('\U{2000}' <= c <= '\U{200A}')
    || c == '\U{202F}' || c == '\U{205F}' || c == '\U{3000}'
  }

  /** The `\w` class that `\b` is defined by (ECMA-262 section 22.2.2.9.3, no `u`/`i` flags). */
  predicate IsWordChar(c: char) {
    ('A' <= c <= 'Z') || ('a' <= c <= 'z') || ('0' <= c <= '9') || c == '_'
  }

  /** The end of the run of white space that starts at `i`. */
  function SkipTrimmable(s: string, i: nat): (j: nat)
    requires i <= |s|
    ensures i <= j <= |s|
    ensures forall k | i <= k < j :: IsTrimmable(s[k])
    ensures j < |s| ==> !IsTrimmable(s[j])
    decreases |s| - i
  {
    if i < |s| && IsTrimmable(s[i]) then SkipTrimmable(s, i + 1) else i
  }

  /** The start of the run of white space that ends at `j`, not reaching below `lo`. */
  function SkipTrimmableBack(s: string, lo: nat, j: nat): (k: nat)
    requires lo <= j <= |s|
    ensures lo <= k <= j
    ensures forall m | k <= m < j :: IsTrimmable(s[m])
    ensures lo < k ==> !IsTrimmable(s[k - 1])
    decreases j - lo
  {
    if lo < j && IsTrimmable(s[j - 1]) then SkipTrimmableBack(s, lo, j - 1) else j
  }

  /** `s` has nothing left for `trim` to remove. */
  predicate IsTrimmed(s: string) {
    s == [] || (!IsTrimmable(s[0]) && !IsTrimmable(s[|s| - 1]))
  }

  /** Where `trim` cuts `s`: the first character it keeps. */
  function TrimStart(s: string): (a: nat)
    ensures a <= |s|
  {
    SkipTrimmable(s, 0)
  }

  /** `String.prototype.trim`: `s` without its leading and trailing white space.
      The result is the infix of `s` at `TrimStart(s)`, everything cut off is
      white space, and nothing more could be cut. */
  function Trim(s: string): (r: string)
    ensures |r| <= |s|
    ensures IsTrimmed(r)
    ensures TrimStart(s) + |r| <= |s| && s[TrimStart(s)..TrimStart(s) + |r|] == r
    ensures forall k | 0 <= k < TrimStart(s) :: IsTrimmable(s[k])
    ensures forall k | TrimStart(s) + |r| <= k < |s| :: IsTrimmable(s[k])
  {
    var a := TrimStart(s);
    s[a..SkipTrimmableBack(s, a, |s|)]
  }

  /** Trimming is idempotent, and a string is its own trim exactly when it is trimmed. */
  lemma TrimIdempotent(s: string)
    ensures Trim(Trim(s)) == Trim(s)
    ensures Trim(s) == s <==> IsTrimmed(s)
  {
    var r := Trim(s);
    if r != [] {
      assert TrimStart(r) == 0;
    }
    if IsTrimmed(s) && s != [] {
      assert TrimStart(s) == 0;
    }
  }

  /** The characters of the strings of `xs`, in order. */
  function Concat(xs: seq<string>): (r: string)
  {
    if xs == [] then [] else xs[0] + Concat(xs[1..])
  }

  /** A suffix is the slice up to any later point followed by the rest. */
  lemma SliceSplit(s: string, i: nat, e: nat)
    requires i <= e <= |s|
    ensures s[i..] == s[i..e] + s[e..]
  {
  }

  /** Concatenating a string in front of a list. */
  lemma ConcatCons(x: string, ys: seq<string>)
    ensures Concat([x] + ys) == x + Concat(ys)
  {
    assert ([x] + ys)[1..] == ys;
  }

  lemma {:induction false} ConcatAppend(xs: seq<string>, ys: seq<string>)
    ensures Concat(xs + ys) == Concat(xs) + Concat(ys)
  {
    if xs == [] {
      assert xs + ys == ys;
    } else {
      assert (xs + ys)[1..] == xs[1..] + ys;
      ConcatAppend(xs[1..], ys);
    }
  }

  /** `pat` occurs in `s` starting at `k`. */
  predicate OccursAt(s: string, pat: string, k: nat) {
    k + |pat| <= |s| && s[k..k + |pat|] == pat
  }

  /** `pat` occurs somewhere in `s`. */
  predicate Occurs(s: string, pat: string) {
    exists k: nat | k <= |s| :: OccursAt(s, pat, k)
  }

  /** An occurrence in an infix of `s` is an occurrence in `s`. */
  lemma OccursInInfix(s: string, a: nat, b: nat, pat: string)
    requires a <= b <= |s|
    ensures Occurs(s[a..b], pat) ==> Occurs(s, pat)
  {
    if Occurs(s[a..b], pat) {
      var k: nat :| k <= b - a && OccursAt(s[a..b], pat, k);
      assert a + k + |pat| <= b;
      forall m | 0 <= m < |pat|
        ensures s[a + k + m] == pat[m]
      {
        assert s[a..b][k..k + |pat|][m] == pat[m];
      }
      assert OccursAt(s, pat, a + k);
    }
  }

  /** An occurrence in the trimmed string is an occurrence in the string. */
  lemma OccursInTrim(s: string, pat: string)
    ensures Occurs(Trim(s), pat) ==> Occurs(s, pat)
  {
    OccursInInfix(s, TrimStart(s), TrimStart(s) + |Trim(s)|, pat);
  }
}
