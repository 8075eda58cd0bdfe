/** Character classes, searches and small string builders used by the
    regular expressions and string operations of the downloader. Strings are
    `seq<char>`. The pin-id, file-stem and `videos`/`originals` stem
    searches take a regular expression's `.` to match any character, which
    differs from JavaScript only on URLs carrying a line terminator; the
    host pattern of `normalizeUrl` models the exclusion. Case mapping covers
    ASCII letters only. */
module Strings {
  import opened Wrappers

  predicate IsDigit(c: char) {
    '0' <= c <= '9'
  }

  predicate IsUpper(c: char) {
    'A' <= c <= 'Z'
  }

  predicate IsLower(c: char) {
    'a' <= c <= 'z'
  }

  /** `\w` of a JavaScript regular expression: `[A-Za-z0-9_]`. */
  predicate IsWordChar(c: char) {
    IsDigit(c) || IsUpper(c) || IsLower(c) || c == '_'
  }

  /** `\s` of a JavaScript regular expression: the WhiteSpace and
      LineTerminator code points of ECMAScript. */
  predicate IsSpace(c: char) {
    || c == '\t' || c == '\n' || c == '\U{B}' || c == '\U{C}' || c == '\r' || c == ' '
    || c == '\U{A0}' || c == '\U{1680}' || ('\U{2000}' <= c <= '\U{200A}')
    || c == '\U{2028}' || c == '\U{2029}' || c == '\U{202F}' || c == '\U{205F}'
    || c == '\U{3000}' || c == '\U{FEFF}'
  }

  predicate AllWordChars(s: string) {
    forall i :: 0 <= i < |s| ==> IsWordChar(s[i])
  }

  /** `s` contains no occurrence of `c`. */
  predicate Free(s: string, c: char) {
    forall i :: 0 <= i < |s| ==> s[i] != c
  }

  /** `toLowerCase` on one ASCII character. */
  function LowerChar(c: char): char {
    if IsUpper(c) then (c as int + 32) as char else c
  }

  /** `toUpperCase` on one ASCII character. */
  function UpperChar(c: char): char {
    if IsLower(c) then (c as int - 32) as char else c
  }

  function Lower(s: string): (r: string)
    ensures |r| == |s|
    ensures forall i :: 0 <= i < |s| ==> r[i] == LowerChar(s[i])
  {
    if |s| == 0 then [] else [LowerChar(s[0])] + Lower(s[1..])
  }

  function Upper(s: string): (r: string)
    ensures |r| == |s|
    ensures forall i :: 0 <= i < |s| ==> r[i] == UpperChar(s[i])
  {
    if |s| == 0 then [] else [UpperChar(s[0])] + Upper(s[1..])
  }

  /** `pat` occurs in `s` starting at index `i`. */
  predicate OccursAt(s: string, i: int, pat: string) {
    0 <= i && i + |pat| <= |s| && s[i..i + |pat|] == pat
  }

  /** `s` ends with `x`. */
  predicate IsSuffix(x: string, s: string) {
    |x| <= |s| && s[|s| - |x|..] == x
  }

  /** `s.indexOf(pat, from)`: the first occurrence at or after `from`, or -1. */
  function IndexOf(s: string, pat: string, from: nat): (r: int)
    ensures r == -1 || (from <= r && OccursAt(s, r, pat))
    ensures forall j :: from <= j && (r == -1 || j < r) ==> !OccursAt(s, j, pat)
    decreases |s| - from
  {
    if from + |pat| > |s| then -1
    else if s[from..from + |pat|] == pat then from
    else IndexOf(s, pat, from + 1)
  }

  /** The characters an occurrence pins down. */
  lemma OccursAtChars(s: string, i: int, pat: string)
    ensures OccursAt(s, i, pat) ==> forall k :: 0 <= k < |pat| ==> s[i + k] == pat[k]
  {
    if OccursAt(s, i, pat) {
      forall k | 0 <= k < |pat| ensures s[i + k] == pat[k] {
        assert s[i + k] == s[i..i + |pat|][k];
      }
    }
  }

  /** `s.indexOf(pat) != -1`. */
  predicate Contains(s: string, pat: string) {
    IndexOf(s, pat, 0) != -1
  }

  lemma ContainsIff(s: string, pat: string)
    ensures Contains(s, pat) <==> exists i :: OccursAt(s, i, pat)
  {
    if !Contains(s, pat) {
      forall i ensures !OccursAt(s, i, pat) {
        if 0 <= i {
          assert !OccursAt(s, i, pat);
        }
      }
    }
  }

  /** The index of the last `c` in `s`, or -1. */
  function LastIndexOf(s: string, c: char): (r: int)
    ensures -1 <= r < |s|
    ensures r >= 0 ==> s[r] == c
    ensures forall j :: r < j < |s| ==> s[j] != c
  {
    if |s| == 0 then -1
    else if s[|s| - 1] == c then |s| - 1
    else LastIndexOf(s[..|s| - 1], c)
  }

  /** The largest `p` with `pat` occurring at `p` and ending by `bound`, or -1. */
  function LastOccurrence(s: string, pat: string, bound: nat): (r: int)
    requires bound <= |s|
    ensures r == -1 || (OccursAt(s, r, pat) && r + |pat| <= bound)
    ensures forall q :: r < q && q + |pat| <= bound ==> !OccursAt(s, q, pat)
    decreases bound
  {
    if bound < |pat| then -1
    else if s[bound - |pat|..bound] == pat then bound - |pat|
    else if bound == 0 then -1
    else LastOccurrence(s, pat, bound - 1)
  }

  /** The first capture `at` finds at a position from `from` to `|s|`: the
      leftmost match of a regular expression whose match at each position is
      given by `at`. */
  function FirstCapture(s: string, at: nat -> Option<string>, from: nat): (r: Option<string>)
    ensures r.Some? ==>
              exists j :: from <= j <= |s| && at(j) == r && forall j' :: from <= j' < j ==> at(j').None?
    ensures r.None? ==> forall j :: from <= j <= |s| ==> at(j).None?
    decreases |s| + 1 - from
  {
    if from > |s| then None
    else if at(from).Some? then at(from)
    else FirstCapture(s, at, from + 1)
  }

  /** A capture with none before it is the leftmost one. */
  lemma FirstCaptureIs(s: string, at: nat -> Option<string>, j: nat)
    requires j <= |s| && at(j).Some?
    requires forall j' :: 0 <= j' < j ==> at(j').None?
    ensures FirstCapture(s, at, 0) == at(j)
  {
  }

  /** `xs.join(sep)`. */
  function Join(xs: seq<string>, sep: string): string {
    if |xs| == 0 then ""
    else if |xs| == 1 then xs[0]
    else xs[0] + sep + Join(xs[1..], sep)
  }

  /** `s.replace(pat, rep)` with a string pattern: only the first occurrence
      is replaced. */
  function ReplaceFirst(s: string, pat: string, rep: string): (r: string)
    ensures IndexOf(s, pat, 0) == -1 ==> r == s
    ensures IndexOf(s, pat, 0) >= 0 ==>
              var i := IndexOf(s, pat, 0);
              r == s[..i] + rep + s[i + |pat|..]
  {
    var i := IndexOf(s, pat, 0);
    if i == -1 then s else s[..i] + rep + s[i + |pat|..]
  }

  function DigitChar(d: nat): char
    requires d < 10
  {
    ('0' as int + d) as char
  }

  /** The decimal rendering of a number in a template literal, `${n}`. */
  function NatToDecimal(n: nat): (r: string)
    ensures |r| > 0
    ensures forall i :: 0 <= i < |r| ==> IsDigit(r[i])
  {
    if n < 10 then [DigitChar(n)] else NatToDecimal(n / 10) + [DigitChar(n % 10)]
  }

  /** The number a string of decimal digits denotes. */
  function DecimalValue(s: string): nat
    requires forall i :: 0 <= i < |s| ==> IsDigit(s[i])
  {
    if |s| == 0 then 0
    else
      assert IsDigit(s[|s| - 1]);
      DecimalValue(s[..|s| - 1]) * 10 + (s[|s| - 1] as int - '0' as int)
  }

  /** Reading back a rendered number gives the number. */
  lemma {:induction false} DecimalRoundTrip(n: nat)
    ensures DecimalValue(NatToDecimal(n)) == n
  {
    var r := NatToDecimal(n);
    if n >= 10 {
      DecimalRoundTrip(n / 10);
      assert r[..|r| - 1] == NatToDecimal(n / 10);
    }
  }

  /** Distinct numbers render differently. */
  lemma DecimalInjective(n: nat, m: nat)
    requires NatToDecimal(n) == NatToDecimal(m)
    ensures n == m
  {
    DecimalRoundTrip(n);
    DecimalRoundTrip(m);
  }
}
