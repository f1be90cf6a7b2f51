/** The JavaScript string primitives the pipeline relies on: character
    classes of regular expressions, `trim`, `indexOf`, `includes`,
    `startsWith`, `split('\n')[0]`, lower-casing and number-to-string. */
module JsString {
  import opened Options

  /** `\w`: [A-Za-z0-9_] */
  predicate IsWordChar(c: char) {
    'A' <= c <= 'Z' || 'a' <= c <= 'z' || '0' <= c <= '9' || c == '_'
  }

  /** [A-Za-z0-9] */
  predicate IsAlnum(c: char) {
    'A' <= c <= 'Z' || 'a' <= c <= 'z' || '0' <= c <= '9'
  }

  /** [A-Z] */
  predicate IsUpper(c: char) {
    'A' <= c <= 'Z'
  }

  predicate IsDigit(c: char) {
    '0' <= c <= '9'
  }

  /** The LineTerminator code points: after one of these `^` matches in a
      multiline regular expression. */
  predicate IsLineTerminator(c: char) {
    c == '\n' || c == '\r' || c == '\U{2028}' || c == '\U{2029}'
  }

  /** `\s`, which is also the set `String.prototype.trim` removes: the
      WhiteSpace and LineTerminator code points of ECMAScript. */
  predicate IsSpace(c: char) {
    c == '\t' || c == '\U{B}' || c == '\U{C}' || c == ' ' || c == '\U{A0}'
    || c == '\U{1680}' || ('\U{2000}' <= c <= '\U{200A}') || c == '\U{202F}'
    || c == '\U{205F}' || c == '\U{3000}' || c == '\U{FEFF}' || IsLineTerminator(c)
  }

  /** End of the longest run of characters satisfying `p` that starts at `i`:
      what a greedy `[class]*` consumes from `i`. */
  function SpanEnd(s: string, i: nat, p: char -> bool): (e: nat)
    requires i <= |s|
    ensures i <= e <= |s|
    ensures forall k :: i <= k < e ==> p(s[k])
    ensures e == |s| || !p(s[e])
    decreases |s| - i
  {
    if i < |s| && p(s[i]) then SpanEnd(s, i + 1, p) else i
  }

  /** The run that starts at `i` ends at the first index where `p` fails. */
  lemma SpanEndAt(s: string, i: nat, p: char -> bool, e: nat)
    requires i <= e <= |s|
    requires forall k :: i <= k < e ==> p(s[k])
    requires e == |s| || !p(s[e])
    ensures SpanEnd(s, i, p) == e
  {
  }

  /** `p` occurs in `s` starting at index `i`. */
  predicate OccursAt(s: string, p: string, i: nat) {
    i + |p| <= |s| && s[i..i + |p|] == p
  }

  /** `s.indexOf(p, from)` for `from <= s.length`; `None` stands for -1. */
  function IndexOf(s: string, p: string, from: nat): (r: Option<nat>)
    ensures r.Some? ==> from <= r.value && OccursAt(s, p, r.value)
    ensures r.Some? ==> forall k :: from <= k < r.value ==> !OccursAt(s, p, k)
    ensures r.None? ==> forall k :: from <= k ==> !OccursAt(s, p, k)
    decreases |s| + 1 - from
  {
    if from + |p| > |s| then None
    else if OccursAt(s, p, from) then Some(from)
    else IndexOf(s, p, from + 1)
  }

  /** `s.includes(p)` */
  predicate Contains(s: string, p: string) {
    IndexOf(s, p, 0).Some?
  }

  lemma ContainsAt(s: string, p: string, k: nat)
    requires OccursAt(s, p, k)
    ensures Contains(s, p)
  {
  }

  /** The first occurrence at or after `from` is the one with none before it. */
  lemma IndexOfAt(s: string, p: string, from: nat, k: nat)
    requires from <= k && OccursAt(s, p, k)
    requires forall j :: from <= j < k ==> !OccursAt(s, p, j)
    ensures IndexOf(s, p, from) == Some(k)
  {
  }

  /** A slice is determined by its characters. */
  lemma SliceIs(s: string, i: nat, p: string)
    requires i + |p| <= |s|
    requires forall k :: 0 <= k < |p| ==> s[i + k] == p[k]
    ensures s[i..i + |p|] == p
  {
  }

  /** A slice of a slice is a slice. */
  lemma SliceSlice(s: string, a: nat, b: nat, c: nat, d: nat)
    requires a <= b <= |s| && c <= d <= b - a
    ensures s[a..b][c..d] == s[a + c..a + d]
  {
    assert forall k :: 0 <= k < d - c ==> s[a..b][c..d][k] == s[a + c + k];
  }

  /** Adjacent slices join. */
  lemma SliceJoin(s: string, a: nat, b: nat, c: nat)
    requires a <= b <= c <= |s|
    ensures s[a..b] + s[b..c] == s[a..c]
  {
  }

  /** A character of an occurring pattern is a character of the text. */
  lemma OccursHasChar(s: string, p: string, j: nat, c: char)
    requires OccursAt(s, p, j) && c in p
    ensures c in s
  {
    var k :| 0 <= k < |p| && p[k] == c;
    assert s[j + k] == s[j..j + |p|][k];
  }

  lemma ContainsHasChar(s: string, p: string, c: char)
    requires Contains(s, p) && c in p
    ensures c in s
  {
    OccursHasChar(s, p, IndexOf(s, p, 0).value, c);
  }

  /** `s.startsWith(p)` */
  predicate StartsWith(s: string, p: string) {
    OccursAt(s, p, 0)
  }

  /** `s.endsWith(p)` */
  predicate EndsWith(s: string, p: string) {
    |p| <= |s| && s[|s| - |p|..] == p
  }

  /** Index of the first non-whitespace character of `s` (or `|s|`). */
  function TrimStartIndex(s: string): (a: nat)
    ensures a <= |s|
  {
    SpanEnd(s, 0, IsSpace)
  }

  /** The largest `b` in `lo..e` such that everything from `b` to `e` is whitespace. */
  function TrimEndFrom(s: string, lo: nat, e: nat): (b: nat)
    requires lo <= e <= |s|
    ensures lo <= b <= e
    ensures forall k :: b <= k < e ==> IsSpace(s[k])
    ensures b == lo || !IsSpace(s[b - 1])
    decreases e
  {
    if e > lo && IsSpace(s[e - 1]) then TrimEndFrom(s, lo, e - 1) else e
  }

  /** `s.trim()` */
  function Trim(s: string): (r: string)
    ensures |r| <= |s|
  {
    var a := TrimStartIndex(s);
    s[a..TrimEndFrom(s, a, |s|)]
  }

  /** What `trim` removes is whitespace, and what it keeps is one piece of `s`. */
  lemma TrimShape(s: string)
    ensures var a, b := TrimStartIndex(s), TrimEndFrom(s, TrimStartIndex(s), |s|);
      a <= b <= |s| && Trim(s) == s[a..b]
      && (forall k :: 0 <= k < a ==> IsSpace(s[k]))
      && (forall k :: b <= k < |s| ==> IsSpace(s[k]))
  {
  }

  /** Trimmed text neither starts nor ends with whitespace. */
  lemma TrimEnds(s: string)
    ensures |Trim(s)| > 0 ==> !IsSpace(Trim(s)[0]) && !IsSpace(Trim(s)[|Trim(s)| - 1])
  {
  }

  /** Trimming text that neither starts nor ends with whitespace changes nothing. */
  lemma TrimTrimmed(s: string)
    requires |s| > 0 ==> !IsSpace(s[0]) && !IsSpace(s[|s| - 1])
    ensures Trim(s) == s
  {
    if |s| > 0 {
      assert TrimStartIndex(s) == 0;
    }
  }

  /** Trimming removes trailing whitespace after a trimmed text. */
  lemma TrimTrailing(t: string, w: string)
    requires |t| > 0 && !IsSpace(t[0]) && !IsSpace(t[|t| - 1])
    requires forall k :: 0 <= k < |w| ==> IsSpace(w[k])
    ensures Trim(t + w) == t
  {
    var s := t + w;
    assert TrimStartIndex(s) == 0;
    TrimEndFromAt(s, 0, |s|, |t|);
    assert s[..|t|] == t;
  }

  /** Where the trailing whitespace run before `e` starts. */
  lemma {:induction false} TrimEndFromAt(s: string, lo: nat, e: nat, b: nat)
    requires lo <= b <= e <= |s|
    requires forall k :: b <= k < e ==> IsSpace(s[k])
    requires b == lo || !IsSpace(s[b - 1])
    ensures TrimEndFrom(s, lo, e) == b
    decreases e
  {
    if e > b {
      TrimEndFromAt(s, lo, e - 1, b);
    }
  }

  /** Trimming keeps a first character that is not whitespace. */
  lemma TrimHead(s: string)
    requires |s| > 0 && !IsSpace(s[0])
    ensures |Trim(s)| > 0 && Trim(s)[0] == s[0]
  {
    assert TrimStartIndex(s) == 0;
  }

  /** `s.split('\n')[0]` */
  function FirstLine(s: string): (r: string)
    ensures '\n' !in r
    ensures r <= s
  {
    match IndexOf(s, "\n", 0)
    case None =>
      NoCharBefore(s, '\n', |s|);
      s
    case Some(k) =>
      NoCharBefore(s, '\n', k);
      s[..k]
  }

  /** The first line ends at the first newline. */
  lemma FirstLineAt(s: string, k: nat)
    requires k < |s| && s[k] == '\n' && '\n' !in s[..k]
    ensures FirstLine(s) == s[..k]
  {
    assert OccursAt(s, "\n", k) by { assert s[k..k + 1] == [s[k]]; }
    forall j: nat | j < k
      ensures !OccursAt(s, "\n", j)
    {
      assert s[j..j + 1] == [s[j]] && s[j] == s[..k][j];
    }
  }

  /** A text that does not start with a newline starts its first line. */
  lemma FirstLineHead(s: string)
    requires |s| > 0 && s[0] != '\n'
    ensures |FirstLine(s)| > 0 && FirstLine(s)[0] == s[0]
  {
    match IndexOf(s, "\n", 0)
    case None =>
    case Some(k) =>
      assert s[k..k + 1] == "\n";
  }

  /** A one-character pattern that occurs nowhere before `e` means the character is absent there. */
  lemma NoCharBefore(s: string, c: char, e: nat)
    requires e <= |s|
    requires forall k :: 0 <= k < e ==> !OccursAt(s, [c], k)
    ensures c !in s[..e]
  {
    forall k | 0 <= k < e
      ensures s[k] != c
    {
      assert !OccursAt(s, [c], k);
      assert s[k..k + 1] == [s[k]];
    }
  }

  /** ASCII lower-casing; `toLowerCase` agrees with it on [A-Za-z0-9-]. */
  function AsciiLower(c: char): (r: char)
    ensures IsUpper(c) ==> r as int == c as int + 32
    ensures !IsUpper(c) ==> r == c
  {
    if IsUpper(c) then (c as int + 32) as char else c
  }

  function DigitChar(d: nat): (c: char)
    requires d < 10
    ensures IsDigit(c)
  {
    ('0' as int + d) as char
  }

  /** Decimal rendering of a natural number, as a template literal `${n}`
      prints an integer-valued number below 10^21. */
  function NatToString(n: nat): (r: string)
    ensures |r| > 0
    ensures forall k :: 0 <= k < |r| ==> IsDigit(r[k])
    decreases n
  {
    if n < 10 then [DigitChar(n)] else NatToString(n / 10) + [DigitChar(n % 10)]
  }

  function DigitValue(c: char): (d: nat)
    requires IsDigit(c)
    ensures d < 10
  {
    c as int - '0' as int
  }

  /** Value of a string of decimal digits. */
  function ParseDigits(s: string): nat
    requires forall k :: 0 <= k < |s| ==> IsDigit(s[k])
    decreases |s|
  {
    if s == [] then 0
    else ParseDigits(s[..|s| - 1]) * 10 + DigitValue(s[|s| - 1])
  }

  lemma {:induction false} ParseNatToString(n: nat)
    ensures ParseDigits(NatToString(n)) == n
    decreases n
  {
    var r := NatToString(n);
    if n >= 10 {
      ParseNatToString(n / 10);
      assert r[..|r| - 1] == NatToString(n / 10);
    }
  }

  /** Different numbers print differently. */
  lemma NatToStringInjective(m: nat, n: nat)
    requires m != n
    ensures NatToString(m) != NatToString(n)
  {
    ParseNatToString(m);
    ParseNatToString(n);
  }
}
