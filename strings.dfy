/** The few .NET string operations the combat text relies on, as functions on
    `seq<char>`: `char.IsWhiteSpace`, `string.IsNullOrWhiteSpace`,
    `string.StartsWith`, `string.Replace(pattern, "")` and `string.Trim()`. */
module Strings {

  /** `char.IsWhiteSpace`: U+0009..U+000D, U+0085 and the Unicode space,
      line and paragraph separators (categories Zs, Zl, Zp). */
  predicate IsWhiteSpace(c: char) {
    || ('\t' <= c <= '\r')
    || c == ' '
    || c == '\U{85}'
    || c == '\U{A0}'
    || c == '\U{1680}'
    || ('\U{2000}' <= c <= '\U{200A}')
    || c == '\U{2028}'
    || c == '\U{2029}'
    || c == '\U{202F}'
    || c == '\U{205F}'
    || c == '\U{3000}'
  }

  /** `string.IsNullOrWhiteSpace`; a C# null string is modelled as "". */
  predicate IsBlank(s: string) {
    s == [] || (IsWhiteSpace(s[|s| - 1]) && IsBlank(s[..|s| - 1]))
  }

  /** `s.StartsWith(prefix)`, compared character by character (ordinally);
      the culture-sensitive comparison .NET applies by default is not
      modelled. */
  predicate StartsWith(s: string, prefix: string) {
    |prefix| <= |s| && s[..|prefix|] == prefix
  }

  /** `pattern` occurs in `s` starting at index `i`. */
  predicate OccursAt(s: string, pattern: string, i: nat) {
    i + |pattern| <= |s| && s[i..i + |pattern|] == pattern
  }

  predicate Contains(s: string, pattern: string) {
    exists i: nat | i <= |s| :: OccursAt(s, pattern, i)
  }

  /** `s.Replace(pattern, string.Empty)`: every occurrence, scanning left to
      right without overlaps, is deleted. */
  function DeleteAll(s: string, pattern: string): string
    requires pattern != []
    decreases |s|
  {
    if |s| < |pattern| then s
    else if s[..|pattern|] == pattern then DeleteAll(s[|pattern|..], pattern)
    else [s[0]] + DeleteAll(s[1..], pattern)
  }

  function TrimStart(s: string): string {
    if s != [] && IsWhiteSpace(s[0]) then TrimStart(s[1..]) else s
  }

  function TrimEnd(s: string): string {
    if s != [] && IsWhiteSpace(s[|s| - 1]) then TrimEnd(s[..|s| - 1]) else s
  }

  /** `s.Trim()`: leading and trailing white space removed. */
  function Trim(s: string): string {
    TrimEnd(TrimStart(s))
  }

  /** Concatenation is associative and `""` is its unit. */
  lemma Concat3(a: string, b: string, c: string)
    ensures (a + b) + c == a + (b + c)
    ensures a + "" == a && "" + a == a
  {
  }

  /** Deleting occurrences leaves the first `k` characters alone when no
      occurrence starts among them. */
  lemma {:induction false} DeleteAllKeepsPrefix(s: string, k: nat, pattern: string)
    requires pattern != [] && k <= |s|
    requires forall i: nat | i < k :: !OccursAt(s, pattern, i)
    ensures DeleteAll(s, pattern) == s[..k] + DeleteAll(s[k..], pattern)
    decreases k
  {
    if k == 0 {
      assert s[..k] + s[k..] == s;
    } else if |s| < |pattern| {
      assert DeleteAll(s[k..], pattern) == s[k..];
      assert s[..k] + s[k..] == s;
    } else {
      assert !OccursAt(s, pattern, 0);
      var t := s[1..];
      forall i: nat | i < k - 1
        ensures !OccursAt(t, pattern, i)
      {
        assert !OccursAt(s, pattern, i + 1);
      }
      DeleteAllKeepsPrefix(t, k - 1, pattern);
      assert t[k - 1..] == s[k..];
      assert [s[0]] + t[..k - 1] == s[..k];
    }
  }

  /** Trailing white space never survives TrimEnd. */
  lemma {:induction false} TrimEndDropsBlankSuffix(a: string, w: string)
    requires IsBlank(w)
    ensures TrimEnd(a + w) == TrimEnd(a)
    decreases |w|
  {
    if w != [] {
      var s := a + w;
      assert IsWhiteSpace(s[|s| - 1]);
      assert s[..|s| - 1] == a + w[..|w| - 1];
      TrimEndDropsBlankSuffix(a, w[..|w| - 1]);
    } else {
      assert a + w == a;
    }
  }
}
