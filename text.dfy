/**
 * Character classes and string operations shared by the terminal input
 * parser, the command dispatcher and the article loader.
 *
 * Strings are sequences of Unicode scalar values. The white-space class is
 * the one ECMAScript uses for both `String.prototype.trim` and the regular
 * expression class `\s`; lower-casing covers ASCII letters only.
 */
module Text {

  // ---------------------------------------------------------------------
  // Character classes
  // ---------------------------------------------------------------------

  /** The C0 control characters U+0000..U+001F and DEL (U+007F). */
  predicate IsControl(c: char) {
    c <= '\U{1F}' || c == '\U{7F}'
  }

  /** ECMAScript WhiteSpace and LineTerminator: TAB, LF, VT, FF, CR, SPACE,
      NBSP, the Zs separators, LINE and PARAGRAPH SEPARATOR, and the BOM. */
  predicate IsSpace(c: char) {
    var n := c as int;
    (0x09 <= n <= 0x0D) || n == 0x20 || n == 0xA0 || n == 0x1680
    || (0x2000 <= n <= 0x200A) || n == 0x2028 || n == 0x2029 || n == 0x202F
    || n == 0x205F || n == 0x3000 || n == 0xFEFF
  }

  predicate IsUpper(c: char) {
    'A' <= c <= 'Z'
  }

  /** The character class `[a-z0-9-]`. */
  predicate IsSafeNameChar(c: char) {
    ('a' <= c <= 'z') || ('0' <= c <= '9') || c == '-'
  }

  predicate IsDigit(c: char) {
    '0' <= c <= '9'
  }

  predicate NoControl(s: string) {
    forall i :: 0 <= i < |s| ==> !IsControl(s[i])
  }

  predicate AllSpace(s: string) {
    forall i :: 0 <= i < |s| ==> IsSpace(s[i])
  }

  predicate NoSpace(s: string) {
    forall i :: 0 <= i < |s| ==> !IsSpace(s[i])
  }

  predicate NoUpper(s: string) {
    forall i :: 0 <= i < |s| ==> !IsUpper(s[i])
  }

  predicate AllDigits(s: string) {
    forall i :: 0 <= i < |s| ==> IsDigit(s[i])
  }

  /** Neither the first nor the last character is white space. */
  predicate Trimmed(s: string) {
    s == [] || (!IsSpace(s[0]) && !IsSpace(s[|s| - 1]))
  }

  /** A concatenation is free of control characters exactly when both
      parts are. */
  lemma NoControlConcat(x: string, y: string)
    ensures NoControl(x + y) <==> NoControl(x) && NoControl(y)
  {
    assert forall j :: 0 <= j < |x| ==> (x + y)[j] == x[j];
    assert forall j :: 0 <= j < |y| ==> (x + y)[|x| + j] == y[j];
  }

  predicate StartsWith(s: string, prefix: string) {
    |prefix| <= |s| && s[..|prefix|] == prefix
  }

  predicate EndsWith(s: string, suffix: string) {
    |suffix| <= |s| && s[|s| - |suffix|..] == suffix
  }

  // ---------------------------------------------------------------------
  // Trimming
  // ---------------------------------------------------------------------

  /** Drops the leading white space: the result is the suffix of `s` that
      remains after a run of white space, and it does not start with any. */
  function TrimStart(s: string): (r: string)
    ensures |r| <= |s| && r == s[|s| - |r|..]
    ensures AllSpace(s[..|s| - |r|])
    ensures r == [] || !IsSpace(r[0])
  {
    if |s| > 0 && IsSpace(s[0]) then TrimStart(s[1..]) else s
  }

  /** Drops the trailing white space: the result is the prefix of `s` that
      precedes a run of white space, and it does not end with any. */
  function TrimEnd(s: string): (r: string)
    ensures |r| <= |s| && r == s[..|r|]
    ensures AllSpace(s[|r|..])
    ensures r == [] || !IsSpace(r[|r| - 1])
  {
    if |s| > 0 && IsSpace(s[|s| - 1]) then
      var r := TrimEnd(s[..|s| - 1]);
      assert s[|r|..] == s[..|s| - 1][|r|..] + [s[|s| - 1]];
      r
    else s
  }

  /** `String.prototype.trim`: the slice of `s` left between a leading and a
      trailing run of white space, beginning and ending with non-space. */
  function Trim(s: string): (r: string)
    ensures Trimmed(r) && |r| <= |s|
  {
    TrimEnd(TrimStart(s))
  }

  /** What `Trim` keeps is a slice of its input, and what it drops on either
      side is white space. */
  lemma TrimSlice(s: string)
    ensures var r := Trim(s);
            exists i :: 0 <= i <= |s| - |r| && s[i..i + |r|] == r
                        && AllSpace(s[..i]) && AllSpace(s[i + |r|..])
  {
    var t := TrimStart(s);
    var r := TrimEnd(t);
    var i := |s| - |t|;
    assert s[i..i + |r|] == r;
    assert s[i + |r|..] == t[|r|..];
  }

  /** Trimming changes nothing in a string that is already trimmed. */
  lemma TrimOfTrimmed(s: string)
    requires Trimmed(s)
    ensures Trim(s) == s
  {
  }

  /** Leading white space does not reach past `TrimStart`. */
  lemma {:induction false} TrimStartAfterSpace(w: string, s: string)
    requires AllSpace(w)
    ensures TrimStart(w + s) == TrimStart(s)
  {
    if w == [] {
      assert w + s == s;
    } else {
      assert (w + s)[1..] == w[1..] + s;
      TrimStartAfterSpace(w[1..], s);
    }
  }

  /** Trailing white space does not reach past `TrimEnd`. */
  lemma {:induction false} TrimEndBeforeSpace(s: string, w: string)
    requires AllSpace(w)
    ensures TrimEnd(s + w) == TrimEnd(s)
    decreases |w|
  {
    if w == [] {
      assert s + w == s;
    } else {
      assert (s + w)[..|s + w| - 1] == s + w[..|w| - 1];
      TrimEndBeforeSpace(s, w[..|w| - 1]);
    }
  }

  /** White space around a trimmed, non-empty string is exactly what `Trim`
      removes. */
  lemma TrimPadded(w1: string, s: string, w2: string)
    requires AllSpace(w1) && AllSpace(w2) && s != [] && Trimmed(s)
    ensures Trim(w1 + s + w2) == s
  {
    assert w1 + s + w2 == w1 + (s + w2);
    TrimStartAfterSpace(w1, s + w2);
    assert TrimStart(s + w2) == s + w2;
    TrimEndBeforeSpace(s, w2);
  }

  // ---------------------------------------------------------------------
  // ASCII lower-casing
  // ---------------------------------------------------------------------

  function LowerChar(c: char): (d: char)
    ensures IsUpper(c) ==> d as int == c as int + 32
    ensures !IsUpper(c) ==> d == c
  {
    if IsUpper(c) then (c as int + 32) as char else c
  }

  /** Lower-cases every ASCII capital letter and keeps all other characters. */
  function Lower(s: string): (r: string)
    ensures |r| == |s|
    ensures forall i :: 0 <= i < |s| ==> r[i] == LowerChar(s[i])
  {
    if s == [] then [] else [LowerChar(s[0])] + Lower(s[1..])
  }

  /** Lower-casing leaves no capital behind and keeps every other class. */
  lemma LowerClasses(s: string)
    ensures NoUpper(Lower(s))
    ensures NoSpace(s) ==> NoSpace(Lower(s))
    ensures NoControl(s) ==> NoControl(Lower(s))
  {
  }

  /** Lower-casing is idempotent; a string without capitals is unchanged. */
  lemma LowerOfNoUpper(s: string)
    requires NoUpper(s)
    ensures Lower(s) == s
  {
  }

  // ---------------------------------------------------------------------
  // The pattern /^[a-z0-9-]+$/
  // ---------------------------------------------------------------------

  /** A matcher for `^[a-z0-9-]+$`: one character of the class, followed
      either by the end of the input or by another match. */
  function MatchesSafeName(s: string): (b: bool)
    ensures b <==> |s| > 0 && forall i :: 0 <= i < |s| ==> IsSafeNameChar(s[i])
  {
    |s| > 0 && IsSafeNameChar(s[0]) && (|s| == 1 || MatchesSafeName(s[1..]))
  }

  /** A safe name holds no white space, no control character and no capital. */
  lemma SafeNameClasses(s: string)
    requires MatchesSafeName(s)
    ensures NoSpace(s) && NoControl(s) && NoUpper(s) && Trimmed(s)
  {
  }

  // ---------------------------------------------------------------------
  // Words: s.split(/\s+/).filter(Boolean)
  // ---------------------------------------------------------------------

  /** The length of the longest prefix of `s` free of white space. */
  function WordEnd(s: string): (k: nat)
    ensures k <= |s|
    ensures forall i :: 0 <= i < k ==> !IsSpace(s[i])
    ensures k < |s| ==> IsSpace(s[k])
  {
    if s == [] || IsSpace(s[0]) then 0 else 1 + WordEnd(s[1..])
  }

  /** A list of words: non-empty pieces free of white space. */
  predicate WellFormedWords(ws: seq<string>) {
    forall j :: 0 <= j < |ws| ==> ws[j] != [] && NoSpace(ws[j])
  }

  /** The words of `s`: the non-empty pieces between runs of white space, in
      their order in `s`. This is what splitting on `/\s+/` and then dropping
      the empty pieces yields. Every word is non-empty and free of white
      space. */
  function Words(s: string): (ws: seq<string>)
    ensures WellFormedWords(ws)
    decreases |s|
  {
    if s == [] then []
    else
      var k := if IsSpace(s[0]) then 1 else WordEnd(s);
      (if IsSpace(s[0]) then [] else [s[..k]]) + Words(s[k..])
  }

  /** A word carries no control character when the text carries none. */
  lemma {:induction false} WordsNoControl(s: string)
    requires NoControl(s)
    ensures forall j :: 0 <= j < |Words(s)| ==> NoControl(Words(s)[j])
    decreases |s|
  {
    if s != [] {
      if IsSpace(s[0]) {
        WordsNoControl(s[1..]);
      } else {
        var k := WordEnd(s);
        WordsNoControl(s[k..]);
      }
    }
  }

  /** Splitting at one white-space character splits the words: the words of
      `a + [c] + b` are those of `a` followed by those of `b`. */
  lemma {:induction false} WordsSeparated(a: string, c: char, b: string)
    requires IsSpace(c)
    ensures Words(a + [c] + b) == Words(a) + Words(b)
    decreases |a|
  {
    var s := a + [c] + b;
    if a == [] {
      assert s[1..] == b;
    } else if IsSpace(a[0]) {
      assert s[1..] == a[1..] + [c] + b;
      WordsSeparated(a[1..], c, b);
    } else {
      var k := WordEnd(a);
      WordEndSeparated(a, c, b);
      assert s[..k] == a[..k];
      assert s[k..] == a[k..] + [c] + b;
      WordsSeparated(a[k..], c, b);
    }
  }

  /** A white-space character after `a` ends the first word where `a`'s would end. */
  lemma WordEndSeparated(a: string, c: char, b: string)
    requires IsSpace(c)
    ensures WordEnd(a + [c] + b) == WordEnd(a)
  {
    var s := a + [c] + b;
    var k := WordEnd(a);
    assert k < |s| && IsSpace(s[k]);
    assert forall i :: 0 <= i < k ==> !IsSpace(s[i]);
    WordEndUnique(s, k);
  }

  /** `WordEnd` is the only index with its three properties. */
  lemma {:induction false} WordEndUnique(s: string, k: nat)
    requires k <= |s|
    requires forall i :: 0 <= i < k ==> !IsSpace(s[i])
    requires k < |s| ==> IsSpace(s[k])
    ensures WordEnd(s) == k
  {
    if s != [] && !IsSpace(s[0]) {
      assert k != 0;
      WordEndUnique(s[1..], k - 1);
    }
  }

  /** Leading white space contributes no word. */
  lemma {:induction false} WordsAfterSpace(w: string, b: string)
    requires AllSpace(w)
    ensures Words(w + b) == Words(b)
    decreases |w|
  {
    if w == [] {
      assert w + b == b;
    } else {
      assert (w + b)[1..] == w[1..] + b;
      WordsAfterSpace(w[1..], b);
    }
  }

  /** A run of white space, however long, separates words like a single one. */
  lemma WordsCollapse(a: string, w: string, b: string)
    requires |w| > 0 && AllSpace(w)
    ensures Words(a + w + b) == Words(a) + Words(b)
  {
    assert a + w + b == a + [w[0]] + (w[1..] + b);
    WordsSeparated(a, w[0], w[1..] + b);
    WordsAfterSpace(w[1..], b);
  }

  /** A single non-empty word without white space has itself as its only word. */
  lemma WordsOfWord(w: string)
    requires w != [] && NoSpace(w)
    ensures Words(w) == [w]
  {
    WordEndUnique(w, |w|);
    assert w[..|w|] == w;
    assert w[|w|..] == [];
  }

  /** A string of white space only has no words. */
  lemma {:induction false} WordsOfBlank(s: string)
    requires AllSpace(s)
    ensures Words(s) == []
    decreases |s|
  {
    if s != [] {
      WordsOfBlank(s[1..]);
    }
  }

  /** The words joined by single spaces. */
  function JoinWords(ws: seq<string>): string
  {
    if |ws| == 0 then ""
    else if |ws| == 1 then ws[0]
    else ws[0] + " " + JoinWords(ws[1..])
  }

  /** Well-formed words that also hold no control character. */
  predicate CleanWords(ws: seq<string>) {
    WellFormedWords(ws) && forall j :: 0 <= j < |ws| ==> NoControl(ws[j])
  }

  /** Round trip: the words of a space-joined list of words are that list. */
  lemma {:induction false} WordsOfJoin(ws: seq<string>)
    requires WellFormedWords(ws)
    ensures Words(JoinWords(ws)) == ws
  {
    if |ws| == 1 {
      WordsOfWord(ws[0]);
    } else if |ws| > 1 {
      assert WellFormedWords(ws[1..]);
      WordsOfJoin(ws[1..]);
      WordsOfWord(ws[0]);
      assert ws[0] + " " + JoinWords(ws[1..]) == ws[0] + [' '] + JoinWords(ws[1..]);
      WordsSeparated(ws[0], ' ', JoinWords(ws[1..]));
      assert ws == [ws[0]] + ws[1..];
    }
  }

  /** The joined string is trimmed, and it is free of control characters and
      white space other than its separators when the words are. */
  lemma {:induction false} JoinWordsShape(ws: seq<string>)
    requires WellFormedWords(ws)
    requires forall j :: 0 <= j < |ws| ==> NoControl(ws[j])
    ensures NoControl(JoinWords(ws))
    ensures Trimmed(JoinWords(ws))
    ensures |ws| > 0 ==> StartsWith(JoinWords(ws), ws[0])
  {
    if |ws| > 1 {
      assert WellFormedWords(ws[1..]);
      JoinWordsShape(ws[1..]);
    }
  }

  // ---------------------------------------------------------------------
  // Decimal numerals
  // ---------------------------------------------------------------------

  function DigitChar(d: nat): (c: char)
    requires d < 10
    ensures IsDigit(c) && c as int - '0' as int == d
  {
    ('0' as int + d) as char
  }

  /** The decimal numeral of `n`, as JavaScript's number-to-string writes a
      non-negative integer: digits only, and no leading zero except in "0". */
  function Decimal(n: nat): (s: string)
    ensures |s| > 0 && AllDigits(s)
    ensures |s| > 1 ==> s[0] != '0'
    ensures s[0] == '0' ==> n == 0
  {
    if n < 10 then [DigitChar(n)] else Decimal(n / 10) + [DigitChar(n % 10)]
  }

  /** The number a string of decimal digits denotes. */
  function DecimalValue(s: string): nat
    requires AllDigits(s)
  {
    if s == [] then 0 else DecimalValue(s[..|s| - 1]) * 10 + (s[|s| - 1] as int - '0' as int)
  }

  /** Round trip: reading back the numeral of `n` gives `n`. */
  lemma {:induction false} DecimalRoundTrip(n: nat)
    ensures DecimalValue(Decimal(n)) == n
  {
    if n >= 10 {
      DecimalRoundTrip(n / 10);
      var s := Decimal(n);
      assert s[..|s| - 1] == Decimal(n / 10);
    }
  }
}
