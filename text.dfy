/** JavaScript string operations used across Chatr, on strings as sequences of
    Unicode scalar values: `trim`, `split`, `startsWith`, `includes`, the default
    string order used by `Array.prototype.sort`, and ASCII upper-casing. */
module Text {

  /** The code points `String.prototype.trim` removes: ECMAScript WhiteSpace
      (tab, vertical tab, form feed, space, no-break space, BOM and the other
      Unicode space separators) and LineTerminator. */
  predicate IsWhitespace(c: char) {
    || c == '\t' || c == '\n' || c == '\U{000B}' || c == '\U{000C}' || c == '\r'
    || c == ' ' || c == '\U{00A0}' || c == '\U{1680}'
    || ('\U{2000}' <= c <= '\U{200A}')
    || c == '\U{2028}' || c == '\U{2029}' || c == '\U{202F}' || c == '\U{205F}'
    || c == '\U{3000}' || c == '\U{FEFF}'
  }

  predicate AllWhitespace(s: string) {
    forall i :: 0 <= i < |s| ==> IsWhitespace(s[i])
  }

  /** The number of whitespace code points `s` starts with. */
  function LeadingSpace(s: string): (n: nat)
    ensures n <= |s|
    ensures forall i :: 0 <= i < n ==> IsWhitespace(s[i])
    ensures n < |s| ==> !IsWhitespace(s[n])
  {
    if s == [] || !IsWhitespace(s[0]) then 0 else 1 + LeadingSpace(s[1..])
  }

  /** The length of `s` without the whitespace it ends with. */
  function TrailingStart(s: string): (n: nat)
    ensures n <= |s|
    ensures forall i :: n <= i < |s| ==> IsWhitespace(s[i])
    ensures n > 0 ==> !IsWhitespace(s[n - 1])
  {
    if s == [] || !IsWhitespace(s[|s| - 1]) then |s| else TrailingStart(s[..|s| - 1])
  }

  /** `s.trim()`: `s` without its leading and trailing whitespace. */
  function Trim(s: string): (r: string)
    ensures |r| <= |s|
    ensures r == [] || (!IsWhitespace(r[0]) && !IsWhitespace(r[|r| - 1]))
  {
    var a := LeadingSpace(s);
    var n := TrailingStart(s[a..]);
    assert n > 0 ==> s[a..][0] == s[a];
    s[a..a + n]
  }

  /** `s.trim()` is the piece of `s` starting at some offset `k`, and
      everything cut off around it is whitespace. */
  lemma TrimShape(s: string) returns (k: nat)
    ensures k + |Trim(s)| <= |s| && Trim(s) == s[k..k + |Trim(s)|]
    ensures forall i :: 0 <= i < k ==> IsWhitespace(s[i])
    ensures forall i :: k + |Trim(s)| <= i < |s| ==> IsWhitespace(s[i])
  {
    k := LeadingSpace(s);
    var u := s[k..];
    var n := TrailingStart(u);
    forall i | k + n <= i < |s| ensures IsWhitespace(s[i]) {
      assert u[i - k] == s[i];
    }
  }

  /** A string trims to the empty string exactly when it is all whitespace, so
      `!s.trim()` is JavaScript's "blank" test. */
  lemma TrimEmptyIffBlank(s: string)
    ensures Trim(s) == [] <==> AllWhitespace(s)
  {
    var k := TrimShape(s);
    if Trim(s) != [] {
      assert s[k] == Trim(s)[0];
    }
  }

  function ToUpper(c: char): (r: char)
    ensures 'a' <= c <= 'z' ==> r as int == c as int - 32
    ensures !('a' <= c <= 'z') ==> r == c
  {
    if 'a' <= c <= 'z' then (c as int - 32) as char else c
  }

  /** `s.toUpperCase()`, restricted to the ASCII letters. */
  function UpperCase(s: string): (r: string)
    ensures |r| == |s| && forall i :: 0 <= i < |s| ==> r[i] == ToUpper(s[i])
  {
    if s == [] then [] else [ToUpper(s[0])] + UpperCase(s[1..])
  }

  /** `s.startsWith(prefix)` */
  function StartsWith(s: string, prefix: string): (b: bool)
    ensures b <==> exists rest :: s == prefix + rest
  {
    if |prefix| <= |s| && s[..|prefix|] == prefix then
      assert s == prefix + s[|prefix|..];
      true
    else false
  }

  /** ASCII lower-casing, as a case-insensitive match compares letters. */
  function ToLower(c: char): (r: char)
    ensures 'A' <= c <= 'Z' ==> r as int == c as int + 32
    ensures !('A' <= c <= 'Z') ==> r == c
  {
    if 'A' <= c <= 'Z' then (c as int + 32) as char else c
  }

  predicate OccursAt(s: string, needle: string, i: int) {
    0 <= i <= |s| - |needle| && s[i..i + |needle|] == needle
  }

  /** The search `s.indexOf(needle, from)`: the first position at or after
      `from` where `needle` occurs, or -1. */
  function IndexFrom(s: string, needle: string, from: nat): (k: int)
    ensures k == -1 || (from <= k && OccursAt(s, needle, k))
    ensures k == -1 <==> forall i :: from <= i ==> !OccursAt(s, needle, i)
    ensures k != -1 ==> forall i :: from <= i < k ==> !OccursAt(s, needle, i)
    decreases |s| - from
  {
    if from + |needle| > |s| then -1
    else if s[from..from + |needle|] == needle then from
    else IndexFrom(s, needle, from + 1)
  }

  /** `s.includes(needle)` */
  function Includes(s: string, needle: string): (b: bool)
    ensures b <==> exists i :: OccursAt(s, needle, i)
  {
    var k := IndexFrom(s, needle, 0);
    assert forall i :: OccursAt(s, needle, i) ==> 0 <= i;
    k != -1
  }

  /** `s.split(sep)` for a one-character separator: the pieces between
      separators, including empty ones at either end. */
  function Split(s: string, sep: char): (parts: seq<string>)
    ensures |parts| >= 1
    ensures forall p :: p in parts ==> sep !in p
  {
    if s == [] then [[]]
    else
      var rest := Split(s[1..], sep);
      if s[0] == sep then [[]] + rest else [[s[0]] + rest[0]] + rest[1..]
  }

  /** `parts.join(sep)` */
  function Join(parts: seq<string>, sep: char): string
    requires |parts| >= 1
  {
    if |parts| == 1 then parts[0] else parts[0] + [sep] + Join(parts[1..], sep)
  }

  /** Splitting loses nothing: joining the pieces again gives back the string. */
  lemma {:induction false} SplitJoin(s: string, sep: char)
    ensures Join(Split(s, sep), sep) == s
  {
    if s != [] {
      SplitJoin(s[1..], sep);
      var rest := Split(s[1..], sep);
      if s[0] != sep && |rest| > 1 {
        assert Join(rest, sep) == rest[0] + [sep] + Join(rest[1..], sep);
      }
    }
  }

  /** Index just after the last `sep` in `s`, or 0 when there is none. */
  function AfterLast(s: string, sep: char): (k: nat)
    ensures k <= |s| && sep !in s[k..]
    ensures k > 0 ==> s[k - 1] == sep
    ensures sep in s <==> k > 0
  {
    if s == [] then 0
    else if sep in s[1..] then
      var k := 1 + AfterLast(s[1..], sep);
      assert s[k..] == s[1..][k - 1..];
      k
    else if s[0] == sep then 1
    else
      assert s == [s[0]] + s[1..];
      0
  }

  /** The last piece of a split is the text after the last separator; the
      first piece starts with the text's first character unless that is a
      separator; and there is a single piece exactly when there is no separator. */
  lemma {:induction false} SplitEnds(s: string, sep: char)
    ensures var parts := Split(s, sep);
      && parts[|parts| - 1] == s[AfterLast(s, sep)..]
      && (s != [] && s[0] != sep ==> parts[0] != [] && parts[0][0] == s[0])
      && (|parts| == 1 <==> sep !in s)
  {
    if s != [] {
      SplitEnds(s[1..], sep);
      var rest := Split(s[1..], sep);
      var k := AfterLast(s[1..], sep);
      if sep in s[1..] {
        assert s[1 + k..] == s[1..][k..];
      } else if s[0] != sep {
        assert s == [s[0]] + s[1..];
      }
    }
  }

  /** The default order of `Array.prototype.sort` on two strings: at the first
      position where they differ the smaller character comes first, and a
      proper prefix comes before the longer string. */
  function LexLessEq(a: string, b: string): (r: bool)
    ensures r <==> ((|a| <= |b| && a == b[..|a|])
      || exists k :: 0 <= k < |a| && k < |b| && a[..k] == b[..k] && a[k] < b[k])
  {
    if a == [] then true
    else if b == [] then false
    else if a[0] != b[0] then
      assert a[..0] == b[..0];
      a[0] < b[0]
    else
      var r := LexLessEq(a[1..], b[1..]);
      assert (|a| <= |b| && a == b[..|a|]) <==> (|a[1..]| <= |b[1..]| && a[1..] == b[1..][..|a[1..]|]) by {
        if |a| <= |b| && a[1..] == b[1..][..|a[1..]|] {
          assert a == [a[0]] + a[1..] && b[..|a|] == [b[0]] + b[1..][..|a[1..]|];
        }
      }
      assert (exists k :: 0 <= k < |a| && k < |b| && a[..k] == b[..k] && a[k] < b[k])
        <==> (exists k :: 0 <= k < |a[1..]| && k < |b[1..]| && a[1..][..k] == b[1..][..k] && a[1..][k] < b[1..][k]) by {
        forall k | 0 <= k < |a| && k < |b| && a[..k] == b[..k] && a[k] < b[k]
          ensures 0 <= k - 1 < |a[1..]| && k - 1 < |b[1..]| && a[1..][..k - 1] == b[1..][..k - 1] && a[1..][k - 1] < b[1..][k - 1]
        {
          assert k != 0;
          assert a[1..][..k - 1] == a[..k][1..] && b[1..][..k - 1] == b[..k][1..];
        }
        forall k | 0 <= k < |a[1..]| && k < |b[1..]| && a[1..][..k] == b[1..][..k] && a[1..][k] < b[1..][k]
          ensures 0 <= k + 1 < |a| && k + 1 < |b| && a[..k + 1] == b[..k + 1] && a[k + 1] < b[k + 1]
        {
          assert a[..k + 1] == [a[0]] + a[1..][..k] && b[..k + 1] == [b[0]] + b[1..][..k];
        }
      }
      r
  }

  lemma {:induction false} LexTotal(a: string, b: string)
    ensures LexLessEq(a, b) || LexLessEq(b, a)
  {
    if a != [] && b != [] && a[0] == b[0] {
      LexTotal(a[1..], b[1..]);
    }
  }

  lemma {:induction false} LexAntisymmetric(a: string, b: string)
    requires LexLessEq(a, b) && LexLessEq(b, a)
    ensures a == b
  {
    if a != [] && b != [] {
      LexAntisymmetric(a[1..], b[1..]);
      assert a == [a[0]] + a[1..] && b == [b[0]] + b[1..];
    }
  }
}
