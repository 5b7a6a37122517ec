/**
 * The ECMAScript string operations the conversion tool relies on:
 * `trim`, `toLowerCase`, `indexOf`/`includes`, `replace` with a string
 * pattern, `split` on one character, `join`, and the decimal rendering of
 * an integer by a template literal.
 */
module JsString {

  /** The characters `String.prototype.trim` removes and the regular expression class `\s` matches. */
  predicate IsWhitespace(c: char) {
    c == ' ' || c == '\t' || c == '\n' || c == '\U{0B}' || c == '\U{0C}' || c == '\r'
    || c == '\U{A0}' || c == '\U{1680}' || ('\U{2000}' <= c <= '\U{200A}')
    || c == '\U{2028}' || c == '\U{2029}' || c == '\U{202F}' || c == '\U{205F}'
    || c == '\U{3000}' || c == '\U{FEFF}'
  }

  predicate NoWhitespace(s: string) {
    forall i :: 0 <= i < |s| ==> !IsWhitespace(s[i])
  }

  /** `s.trimStart()`: the leading whitespace removed. */
  function TrimStart(s: string): string {
    if |s| > 0 && IsWhitespace(s[0]) then TrimStart(s[1..]) else s
  }

  /** `trimStart` removes a prefix of white space, and only that. */
  lemma {:induction false} TrimStartRemovesOnlyWhitespace(s: string)
    ensures var r := TrimStart(s);
      && |r| <= |s| && r == s[|s| - |r|..]
      && (r == [] || !IsWhitespace(r[0]))
      && forall i :: 0 <= i < |s| - |r| ==> IsWhitespace(s[i])
  {
    if |s| > 0 && IsWhitespace(s[0]) {
      TrimStartRemovesOnlyWhitespace(s[1..]);
      var r := TrimStart(s);
      forall i | 0 <= i < |s| - |r| ensures IsWhitespace(s[i]) {
        if i > 0 {
          assert s[i] == s[1..][i - 1];
        }
      }
    }
  }

  /** `s.trimEnd()`: the trailing whitespace removed. */
  function TrimEnd(s: string): string {
    if |s| > 0 && IsWhitespace(s[|s| - 1]) then TrimEnd(s[..|s| - 1]) else s
  }

  /** `trimEnd` removes a suffix of white space, and only that. */
  lemma {:induction false} TrimEndRemovesOnlyWhitespace(s: string)
    ensures var r := TrimEnd(s);
      && |r| <= |s| && r == s[..|r|]
      && (r == [] || !IsWhitespace(r[|r| - 1]))
      && forall i :: |r| <= i < |s| ==> IsWhitespace(s[i])
  {
    if |s| > 0 && IsWhitespace(s[|s| - 1]) {
      TrimEndRemovesOnlyWhitespace(s[..|s| - 1]);
      var r := TrimEnd(s);
      forall i | |r| <= i < |s| ensures IsWhitespace(s[i]) {
        if i < |s| - 1 {
          assert s[i] == s[..|s| - 1][i];
        }
      }
    }
  }

  /** `s` is `r` with `k` whitespace characters before it and only whitespace after it. */
  predicate TrimmedAt(s: string, r: string, k: nat) {
    && k + |r| <= |s| && r == s[k..k + |r|]
    && (forall i :: 0 <= i < k ==> IsWhitespace(s[i]))
    && (forall i :: k + |r| <= i < |s| ==> IsWhitespace(s[i]))
  }

  /** `s.trim()`: leading and trailing whitespace removed. */
  function Trim(s: string): string {
    TrimEnd(TrimStart(s))
  }

  /** The trimmed string is no longer than the input and has no white space at either end. */
  lemma TrimEnds(s: string)
    ensures |Trim(s)| <= |s|
    ensures Trim(s) == [] || (!IsWhitespace(Trim(s)[0]) && !IsWhitespace(Trim(s)[|Trim(s)| - 1]))
  {
    var t := TrimStart(s);
    TrimStartRemovesOnlyWhitespace(s);
    TrimEndRemovesOnlyWhitespace(t);
    var r := TrimEnd(t);
    assert r == [] || r[0] == t[0];
  }

  /** What `trim` removes is white space, and only that: the result is a slice of the input with white space around it. */
  lemma TrimRemovesOnlyWhitespace(s: string)
    ensures exists k :: TrimmedAt(s, Trim(s), k)
  {
    var t := TrimStart(s);
    var r := TrimEnd(t);
    TrimStartRemovesOnlyWhitespace(s);
    TrimEndRemovesOnlyWhitespace(t);
    assert r == Trim(s);
    var k := |s| - |t|;
    assert TrimmedAt(s, r, k) by {
      assert t == s[k..];
      forall i | k + |r| <= i < |s| ensures IsWhitespace(s[i]) {
        assert s[i] == t[i - k];
      }
    }
  }

  /** Trimming leaves a string without whitespace at either end unchanged. */
  lemma TrimKeeps(s: string)
    requires s == [] || (!IsWhitespace(s[0]) && !IsWhitespace(s[|s| - 1]))
    ensures Trim(s) == s
  {
  }

  /** Lower-casing of one character; only the ASCII letters A-Z change. */
  function LowerChar(c: char): char {
    if 'A' <= c <= 'Z' then (c as int + 32) as char else c
  }

  /** `s.toLowerCase()`, restricted to ASCII letters. */
  function Lower(s: string): string {
    seq(|s|, i requires 0 <= i < |s| => LowerChar(s[i]))
  }

  /** Lower-casing keeps the length and maps every character on its own. */
  lemma LowerEach(s: string)
    ensures |Lower(s)| == |s|
    ensures forall i :: 0 <= i < |s| ==> Lower(s)[i] == LowerChar(s[i])
  {
  }

  predicate IsLower(s: string) {
    forall i :: 0 <= i < |s| ==> LowerChar(s[i]) == s[i]
  }

  lemma LowerCharIdempotent(c: char)
    ensures LowerChar(LowerChar(c)) == LowerChar(c)
  {
  }

  /** A lower-cased string has nothing left to lower-case. */
  lemma LowerIsLower(s: string)
    ensures IsLower(Lower(s))
  {
    var l := Lower(s);
    forall i | 0 <= i < |l| ensures LowerChar(l[i]) == l[i] {
      LowerCharIdempotent(s[i]);
    }
  }

  /** Trimming keeps a lower-case string lower-case. */
  lemma TrimKeepsLower(s: string)
    requires IsLower(s)
    ensures IsLower(Trim(s))
  {
    var t0 := TrimStart(s);
    TrimStartRemovesOnlyWhitespace(s);
    TrimEndRemovesOnlyWhitespace(t0);
    forall i | 0 <= i < |t0| ensures LowerChar(t0[i]) == t0[i] {
      assert t0[i] == s[|s| - |t0| + i];
    }
    var t := TrimEnd(t0);
    forall i | 0 <= i < |t| ensures LowerChar(t[i]) == t[i] {
      assert t[i] == t0[i];
    }
  }

  /** Lower-casing preserves whitespace and no whitespace character is an upper-case letter. */
  lemma LowerWhitespace(c: char)
    ensures IsWhitespace(LowerChar(c)) <==> IsWhitespace(c)
  {
  }

  /** `pat` occurs in `s` starting at index `i`. */
  predicate OccursAt(s: string, pat: string, i: nat) {
    i + |pat| <= |s| && s[i..i + |pat|] == pat
  }

  function IndexFrom(s: string, pat: string, i: nat): (r: int)
    requires i <= |s|
    ensures r == -1 || (i <= r && OccursAt(s, pat, r))
    ensures r == -1 ==> forall k :: i <= k <= |s| ==> !OccursAt(s, pat, k)
    ensures r >= 0 ==> forall k :: i <= k < r ==> !OccursAt(s, pat, k)
    decreases |s| - i
  {
    if OccursAt(s, pat, i) then i else if i == |s| then -1 else IndexFrom(s, pat, i + 1)
  }

  /** `s.indexOf(pat)`: the first index where `pat` occurs, or -1. */
  function IndexOf(s: string, pat: string): (r: int)
    ensures r == -1 || (r >= 0 && OccursAt(s, pat, r))
    ensures r == -1 <==> forall k :: 0 <= k <= |s| ==> !OccursAt(s, pat, k)
    ensures forall k :: 0 <= k < r ==> !OccursAt(s, pat, k)
  {
    IndexFrom(s, pat, 0)
  }

  /** `s.includes(pat)`. */
  predicate Includes(s: string, pat: string) {
    IndexOf(s, pat) >= 0
  }

  /** `s.replace(pat, rep)` with a string pattern: only the first occurrence is replaced. */
  function ReplaceFirst(s: string, pat: string, rep: string): string {
    var i := IndexOf(s, pat);
    if i < 0 then s else s[..i] + rep + s[i + |pat|..]
  }

  /** The index of the first `c` in `s`, or `|s|` when there is none. */
  function CharIndex(s: string, c: char): (r: nat)
    ensures r <= |s|
    ensures r < |s| ==> s[r] == c
    ensures forall k :: 0 <= k < r ==> s[k] != c
  {
    if |s| == 0 || s[0] == c then 0 else 1 + CharIndex(s[1..], c)
  }

  /** `s.split(c)` for a one-character separator; the result is never empty. */
  function Split(s: string, c: char): (r: seq<string>)
    ensures |r| >= 1
    decreases |s|
  {
    var i := CharIndex(s, c);
    if i == |s| then [s] else [s[..i]] + Split(s[i + 1..], c)
  }

  /** `parts.join(sep)`. */
  function Join(parts: seq<string>, sep: string): string {
    if |parts| == 0 then ""
    else if |parts| == 1 then parts[0]
    else parts[0] + sep + Join(parts[1..], sep)
  }

  /** Splitting a string with no separator in front of the first one yields the front as the first piece. */
  lemma SplitCons(a: string, c: char, b: string)
    requires c !in a
    ensures Split(a + [c] + b, c) == [a] + Split(b, c)
  {
    var s := a + [c] + b;
    var i := CharIndex(s, c);
    assert s[|a|] == c;
    assert forall k :: 0 <= k < |a| ==> s[k] == a[k];
    assert i == |a|;
    assert s[..|a|] == a;
    assert s[|a| + 1..] == b;
  }

  /** Splitting undoes joining when no part contains the separator. */
  lemma {:induction false} SplitJoin(parts: seq<string>, c: char)
    requires |parts| >= 1
    requires forall i :: 0 <= i < |parts| ==> c !in parts[i]
    ensures Split(Join(parts, [c]), c) == parts
  {
    if |parts| == 1 {
      assert CharIndex(parts[0], c) == |parts[0]|;
    } else {
      SplitJoin(parts[1..], c);
      assert Join(parts, [c]) == parts[0] + [c] + Join(parts[1..], [c]);
      SplitCons(parts[0], c, Join(parts[1..], [c]));
    }
  }

  function DigitChar(d: nat): char
    requires d < 10
  {
    "0123456789"[d]
  }

  /** The decimal digits of `n`, as a template literal renders it. */
  function NatToString(n: nat): (r: string)
    ensures |r| >= 1
    ensures forall i :: 0 <= i < |r| ==> '0' <= r[i] <= '9'
  {
    if n < 10 then [DigitChar(n)] else NatToString(n / 10) + [DigitChar(n % 10)]
  }

  /** An integer as a template literal renders it. */
  function IntToString(n: int): (r: string)
    ensures |r| >= 1
  {
    if n < 0 then "-" + NatToString(-n) else NatToString(n)
  }
}
