/**
 The few JavaScript string operations the server relies on, over `string`
 (a sequence of `char`): `startsWith`, `endsWith`, `indexOf`, `replace`
 with a string pattern (first occurrence only), `split(sep)[0]`, and the
 ASCII part of the regular-expression class `\s`.
 */
module Strings {
  import opened Wrappers

  /** The ASCII characters matched by `\s`: space, tab, line feed,
      vertical tab, form feed and carriage return. */
  predicate IsWs(c: char) {
    c == ' ' || c == '\t' || c == '\n' || c == '\r' || c as int == 0x0B || c as int == 0x0C
  }

  predicate IsAsciiAlnum(c: char) {
    ('a' <= c <= 'z') || ('A' <= c <= 'Z') || ('0' <= c <= '9')
  }

  predicate StartsWith(s: string, prefix: string) {
    prefix <= s
  }

  predicate EndsWith(s: string, suffix: string) {
    |suffix| <= |s| && s[|s| - |suffix|..] == suffix
  }

  /** `s.indexOf(pat, i)`: the first position at or after `i` where `pat` occurs. */
  function IndexFrom(s: string, pat: string, i: nat): (r: Option<nat>)
    requires i <= |s|
    ensures r.Some? ==> i <= r.value && r.value + |pat| <= |s| && pat <= s[r.value..]
    ensures forall k :: i <= k <= |s| && (r.None? || k < r.value) ==> !(pat <= s[k..])
    decreases |s| - i
  {
    if pat <= s[i..] then Some(i)
    else if i == |s| then None
    else IndexFrom(s, pat, i + 1)
  }

  /** `s.indexOf(pat)`. */
  function IndexOf(s: string, pat: string): (r: Option<nat>)
    ensures r.Some? ==> r.value + |pat| <= |s| && pat <= s[r.value..]
    ensures forall k :: 0 <= k <= |s| && (r.None? || k < r.value) ==> !(pat <= s[k..])
  {
    IndexFrom(s, pat, 0)
  }

  /** `pat` occurs at `i` in `s` and at no earlier position. */
  predicate FirstAt(s: string, pat: string, i: nat) {
    i <= |s| && pat <= s[i..] && forall k :: 0 <= k < i ==> !(pat <= s[k..])
  }

  /** `s.replace(pat, rep)` with a string pattern: only the first occurrence is replaced. */
  function ReplaceFirst(s: string, pat: string, rep: string): (r: string)
    ensures (forall k :: 0 <= k <= |s| ==> !(pat <= s[k..])) ==> r == s
    ensures forall i: nat :: FirstAt(s, pat, i) ==> i + |pat| <= |s| && r == s[..i] + rep + s[i + |pat|..]
  {
    match IndexOf(s, pat)
    case None =>
      assert forall i: nat :: !FirstAt(s, pat, i);
      s
    case Some(j) =>
      assert FirstAt(s, pat, j);
      s[..j] + rep + s[j + |pat|..]
  }

  /** `s.split(sep)[0]`: the longest prefix of `s` free of `sep`. */
  function BeforeFirst(s: string, sep: char): (r: string)
    ensures r <= s && sep !in r
    ensures |r| < |s| ==> s[|r|] == sep
  {
    if s == [] || s[0] == sep then [] else [s[0]] + BeforeFirst(s[1..], sep)
  }

  /** `s.replace(/x/g, y)` for a single character `x`. */
  function ReplaceChar(s: string, x: char, y: char): (r: string)
    ensures |r| == |s|
    ensures forall i :: 0 <= i < |s| ==> r[i] == if s[i] == x then y else s[i]
  {
    if s == [] then [] else [if s[0] == x then y else s[0]] + ReplaceChar(s[1..], x, y)
  }

  /** BeforeFirst stops at the first separator: a separator-free head is its result. */
  lemma {:induction false} BeforeFirstOfJoin(a: string, sep: char, rest: string)
    requires sep !in a
    ensures BeforeFirst(a + [sep] + rest, sep) == a
  {
    if a != [] {
      assert (a + [sep] + rest)[1..] == a[1..] + [sep] + rest;
      BeforeFirstOfJoin(a[1..], sep, rest);
    }
  }

  /** A pattern that is a prefix is found at position 0. */
  lemma IndexOfPrefix(s: string, pat: string)
    requires pat <= s
    ensures IndexOf(s, pat) == Some(0)
  {
  }

  /** The first occurrence of a pattern whose first character does not occur in `a`
      is the one right after `a`. */
  lemma IndexOfAfter(a: string, pat: string)
    requires |pat| > 0 && pat[0] !in a
    ensures IndexOf(a + pat, pat) == Some(|a|)
  {
    var s := a + pat;
    assert s[|a|..] == pat;
    var r := IndexOf(s, pat);
    assert r.Some?;
  }

  /** Replacing a pattern that the string starts with removes that prefix. */
  lemma ReplaceFirstPrefix(pat: string, rest: string)
    ensures ReplaceFirst(pat + rest, pat, "") == rest
  {
    IndexOfPrefix(pat + rest, pat);
    assert (pat + rest)[|pat|..] == rest;
  }

  /** Replacing a pattern that first occurs right after `a` leaves `a`. */
  lemma ReplaceFirstAfter(a: string, pat: string)
    requires |pat| > 0 && pat[0] !in a
    ensures ReplaceFirst(a + pat, pat, "") == a
  {
    IndexOfAfter(a, pat);
    assert (a + pat)[..|a|] == a;
    assert (a + pat)[|a| + |pat|..] == [];
  }

  /** A non-empty sequence split into its head and the rest. */
  lemma HeadTail<T>(u: seq<T>, t: seq<T>)
    requires u != []
    ensures u + t == [u[0]] + (u[1..] + t) && [u[0]] + u[1..] == u
    ensures (u + t)[0] == u[0] && (u + t)[1..] == u[1..] + t
  {
  }

  /** Concatenation regrouped. */
  lemma Assoc<T>(a: seq<T>, b: seq<T>, c: seq<T>)
    ensures (a + b) + c == a + (b + c)
  {
  }
}
