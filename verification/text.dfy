/**
 * The string operations the backend and its diagnostic tool use: `lower()`,
 * `in` on strings, `endswith`, `replace(pattern, "")` and the ordering that
 * `sorted()` applies to strings.
 */
module Text {

  /** ASCII lower-casing of one character. */
  function LowerChar(c: char): (d: char)
    ensures 'A' <= c <= 'Z' ==> d as int == c as int + 32
    ensures !('A' <= c <= 'Z') ==> d == c
  {
    if 'A' <= c <= 'Z' then (c as int + 32) as char else c
  }

  /** `s.lower()`, restricted to ASCII letters. */
  function Lower(s: string): (r: string)
    ensures |r| == |s|
    ensures forall i :: 0 <= i < |s| ==> r[i] == LowerChar(s[i])
  {
    if s == [] then [] else [LowerChar(s[0])] + Lower(s[1..])
  }

  /** `n in s` for strings: `n` occurs in `s` as a contiguous substring. */
  predicate Contains(s: string, n: string) {
    exists i | 0 <= i <= |s| - |n| :: OccursAt(s, n, i)
  }

  /** `n` occurs in `s` starting at position `i`. */
  predicate OccursAt(s: string, n: string, i: int) {
    0 <= i && i + |n| <= |s| && s[i..i + |n|] == n
  }

  /** `s.startswith(p)` */
  predicate StartsWith(s: string, p: string) {
    |p| <= |s| && s[..|p|] == p
  }

  /** `s.endswith(suffix)` */
  predicate EndsWith(s: string, suffix: string) {
    |suffix| <= |s| && s[|s| - |suffix|..] == suffix
  }

  /**
   * `s.replace(pattern, "")`: scanning from the left, every occurrence of
   * `pattern` that does not overlap an earlier removed one is cut out.
   */
  function RemoveAll(s: string, pattern: string): (r: string)
    requires pattern != []
    ensures |r| <= |s|
    decreases |s|
  {
    if |s| < |pattern| then s
    else if StartsWith(s, pattern) then RemoveAll(s[|pattern|..], pattern)
    else [s[0]] + RemoveAll(s[1..], pattern)
  }

  /** A string without the pattern comes back unchanged. */
  lemma {:induction false} RemoveAllAbsent(s: string, pattern: string)
    requires pattern != [] && !Contains(s, pattern)
    ensures RemoveAll(s, pattern) == s
    decreases |s|
  {
    if |s| >= |pattern| {
      assert !StartsWith(s, pattern) by {
        if StartsWith(s, pattern) { assert OccursAt(s, pattern, 0); }
      }
      assert !Contains(s[1..], pattern) by {
        if Contains(s[1..], pattern) {
          var i :| 0 <= i <= |s[1..]| - |pattern| && OccursAt(s[1..], pattern, i);
          assert s[i + 1..i + 1 + |pattern|] == s[1..][i..i + |pattern|];
          assert OccursAt(s, pattern, i + 1);
        }
      }
      RemoveAllAbsent(s[1..], pattern);
      assert s == [s[0]] + s[1..];
    }
  }

  /** A leading occurrence of the pattern is cut off and the rest is scanned on. */
  lemma RemoveAllPrefix(pattern: string, rest: string)
    requires pattern != []
    ensures RemoveAll(pattern + rest, pattern) == RemoveAll(rest, pattern)
  {
    var s := pattern + rest;
    assert s[..|pattern|] == pattern;
    assert s[|pattern|..] == rest;
  }

  /** The ordering Python uses to compare and sort strings: code point by code point, a prefix first. */
  predicate LexLe(a: string, b: string) {
    a == [] || (b != [] && (a[0] < b[0] || (a[0] == b[0] && LexLe(a[1..], b[1..]))))
  }

  /** Any two strings are ordered one way or the other. */
  lemma {:induction false} LexLeTotal(a: string, b: string)
    ensures LexLe(a, b) || LexLe(b, a)
  {
    if a != [] && b != [] && a[0] == b[0] {
      LexLeTotal(a[1..], b[1..]);
    }
  }

  /** Each string is ordered no later than the next. */
  predicate Sorted(s: seq<string>) {
    forall i :: 0 < i < |s| ==> LexLe(s[i - 1], s[i])
  }

  /** Puts `x` into its place in a sorted list. */
  function Insert(x: string, s: seq<string>): (r: seq<string>)
    requires Sorted(s)
    ensures Sorted(r)
    ensures multiset(r) == multiset(s) + multiset{x}
    ensures r != [] && (r[0] == x || (s != [] && r[0] == s[0]))
  {
    if s == [] then [x]
    else if LexLe(x, s[0]) then [x] + s
    else
      LexLeTotal(x, s[0]);
      var t := Insert(x, s[1..]);
      assert s == [s[0]] + s[1..];
      [s[0]] + t
  }

  /** `sorted(keys)` for a list of strings: insertion sort. */
  function SortStrings(s: seq<string>): (r: seq<string>)
    ensures Sorted(r)
    ensures multiset(r) == multiset(s)
  {
    if s == [] then []
    else
      assert s == [s[0]] + s[1..];
      Insert(s[0], SortStrings(s[1..]))
  }
}
