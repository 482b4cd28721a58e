/**
 The safe file name built by `downloadClipLocally`: the clip title goes through
 a fixed chain of rewrites, `/[^a-zA-Z0-9\s\-_]/g -> ''`, `/\s+/g -> ' '`,
 `substring(0, 30)`, `trim()` and `/\s/g -> '_'`, and the base name of the
 downloaded file is `<id>-<safeTitle>`.
 */
module Filenames {
  import opened Strings

  /** Longest safe title, in characters. */
  const MaxTitle: nat := 30

  /** The characters the first rewrite keeps. */
  predicate Kept(c: char) {
    IsAsciiAlnum(c) || IsWs(c) || c == '-' || c == '_'
  }

  /** The characters a safe title is made of: `[A-Za-z0-9_-]`. */
  predicate SafeChar(c: char) {
    IsAsciiAlnum(c) || c == '-' || c == '_'
  }

  predicate AllKept(s: string) {
    forall i :: 0 <= i < |s| ==> Kept(s[i])
  }

  predicate AllSafe(s: string) {
    forall i :: 0 <= i < |s| ==> SafeChar(s[i])
  }

  predicate NoWs(s: string) {
    forall i :: 0 <= i < |s| ==> !IsWs(s[i])
  }

  /** `/[^a-zA-Z0-9\s\-_]/g -> ''`: drops every character outside the kept class. */
  function StripDisallowed(s: string): (r: string)
    ensures AllKept(r) && |r| <= |s|
    ensures AllKept(s) ==> r == s
    ensures NoWs(s) ==> NoWs(r)
    ensures |s| == 1 ==> r == if Kept(s[0]) then s else []
  {
    if s == [] then []
    else (if Kept(s[0]) then [s[0]] else []) + StripDisallowed(s[1..])
  }

  /** The rewrite works character by character: it distributes over concatenation. */
  lemma {:induction false} StripDisallowedConcat(a: string, b: string)
    ensures StripDisallowed(a + b) == StripDisallowed(a) + StripDisallowed(b)
  {
    if a != [] {
      assert a + b == [a[0]] + (a[1..] + b);
      StripCons(a[0], a[1..] + b);
      StripCons(a[0], a[1..]);
      assert a == [a[0]] + a[1..];
      StripDisallowedConcat(a[1..], b);
      Assoc(if Kept(a[0]) then [a[0]] else [], StripDisallowed(a[1..]), StripDisallowed(b));
    } else {
      assert a + b == b && StripDisallowed(a) + StripDisallowed(b) == StripDisallowed(b);
    }
  }

  lemma StripCons(c: char, t: string)
    ensures StripDisallowed([c] + t) == (if Kept(c) then [c] else []) + StripDisallowed(t)
  {
    assert ([c] + t)[1..] == t;
  }

  /** Drops leading whitespace. */
  function SkipWs(s: string): (r: string)
    ensures |r| <= |s| && r == s[|s| - |r|..]
    ensures forall i :: 0 <= i < |s| - |r| ==> IsWs(s[i])
    ensures r == [] || !IsWs(r[0])
  {
    if s != [] && IsWs(s[0]) then SkipWs(s[1..]) else s
  }

  /** Every whitespace is a single space and no two whitespace characters are adjacent. */
  predicate Collapsed(r: string) {
    (forall i :: 0 <= i < |r| && IsWs(r[i]) ==> r[i] == ' ')
    && (forall i :: 0 <= i && i + 1 < |r| ==> !(IsWs(r[i]) && IsWs(r[i + 1])))
  }

  /** `/\s+/g -> ' '`: every maximal run of whitespace becomes one space. */
  function CollapseWs(s: string): (r: string)
    ensures |r| <= |s|
    ensures r == [] <==> s == []
    ensures r != [] ==> (IsWs(r[0]) <==> IsWs(s[0]))
    ensures Collapsed(r)
    ensures AllKept(s) ==> AllKept(r)
    ensures NoWs(s) ==> r == s
    ensures DropWs(r) == DropWs(s)
    decreases |s|
  {
    if s == [] then []
    else if IsWs(s[0]) then
      var rest := SkipWs(s[1..]);
      var t := CollapseWs(rest);
      KeptTail(s, rest);
      ConsCollapsed(' ', t);
      ConsKept(' ', t);
      DropWsCons(' ', t);
      DropWsSkip(s[1..]);
      [' '] + t
    else
      var t := CollapseWs(s[1..]);
      KeptTail(s, s[1..]);
      ConsCollapsed(s[0], t);
      ConsKept(s[0], t);
      DropWsCons(s[0], t);
      [s[0]] + t
  }

  /** The characters of `s` other than whitespace, in order. */
  function DropWs(s: string): (r: string)
    ensures NoWs(r) && |r| <= |s|
  {
    if s == [] then []
    else (if IsWs(s[0]) then [] else [s[0]]) + DropWs(s[1..])
  }

  lemma DropWsCons(c: char, t: string)
    ensures DropWs([c] + t) == (if IsWs(c) then [] else [c]) + DropWs(t)
  {
    assert ([c] + t)[1..] == t;
  }

  /** Skipping leading whitespace loses no other character. */
  lemma {:induction false} DropWsSkip(s: string)
    ensures DropWs(SkipWs(s)) == DropWs(s)
  {
    if s != [] && IsWs(s[0]) {
      DropWsSkip(s[1..]);
    }
  }

  /** A word without whitespace is copied as it is. */
  lemma {:induction false} CollapseWsWord(u: string, t: string)
    requires NoWs(u)
    ensures CollapseWs(u + t) == u + CollapseWs(t)
  {
    if u != [] {
      HeadTail(u, t);
      assert !IsWs(u[0]);
      CollapseCons(u[0], u[1..] + t);
      assert CollapseWs(u + t) == [u[0]] + CollapseWs(u[1..] + t);
      CollapseWsWord(u[1..], t);
      assert CollapseWs(u[1..] + t) == u[1..] + CollapseWs(t);
      Assoc([u[0]], u[1..], CollapseWs(t));
    } else {
      assert u + t == t && u + CollapseWs(t) == CollapseWs(t);
    }
  }

  /** One step of the rewrite on a string that starts with `c`. */
  lemma CollapseCons(c: char, t: string)
    ensures CollapseWs([c] + t) == if IsWs(c) then [' '] + CollapseWs(SkipWs(t)) else [c] + CollapseWs(t)
  {
    assert ([c] + t)[0] == c && ([c] + t)[1..] == t;
  }

  /** A maximal run of whitespace becomes a single space. */
  lemma CollapseWsRun(w: string, t: string)
    requires w != [] && AllWs(w)
    requires t == [] || !IsWs(t[0])
    ensures CollapseWs(w + t) == [' '] + CollapseWs(t)
  {
    HeadTail(w, t);
    CollapseCons(w[0], w[1..] + t);
    SkipRun(w[1..], t);
  }

  /** Every character of `w` is whitespace. */
  predicate AllWs(w: string) {
    w == [] || (IsWs(w[0]) && AllWs(w[1..]))
  }

  lemma {:induction false} SkipRun(w: string, t: string)
    requires AllWs(w)
    requires t == [] || !IsWs(t[0])
    ensures SkipWs(w + t) == t
  {
    if w != [] {
      HeadTail(w, t);
      SkipRun(w[1..], t);
    } else {
      assert w + t == t;
    }
  }

  /** A suffix of a kept string is kept. */
  lemma KeptTail(s: string, t: string)
    requires |t| <= |s| && t == s[|s| - |t|..]
    ensures AllKept(s) ==> AllKept(t)
  {
    if AllKept(s) {
      forall i | 0 <= i < |t| ensures Kept(t[i]) {
        assert t[i] == s[|s| - |t| + i];
      }
    }
  }

  lemma ConsKept(c: char, t: string)
    ensures Kept(c) && AllKept(t) ==> AllKept([c] + t)
  {
    if Kept(c) && AllKept(t) {
      forall i | 0 <= i < |[c] + t| ensures Kept(([c] + t)[i]) {
        if i > 0 { assert ([c] + t)[i] == t[i - 1]; }
      }
    }
  }

  /** A character in front of a collapsed string keeps it collapsed, unless
      both are whitespace. */
  lemma ConsCollapsed(c: char, t: string)
    requires Collapsed(t)
    requires IsWs(c) ==> c == ' ' && (t == [] || !IsWs(t[0]))
    ensures Collapsed([c] + t)
  {
    var r := [c] + t;
    forall i | 0 <= i < |r| && IsWs(r[i]) ensures r[i] == ' ' {
      if i > 0 { assert r[i] == t[i - 1]; }
    }
    forall i | 0 <= i && i + 1 < |r| ensures !(IsWs(r[i]) && IsWs(r[i + 1])) {
      if i > 0 { assert r[i] == t[i - 1] && r[i + 1] == t[i]; }
    }
  }

  /** `substring(0, n)`. */
  function Truncate(s: string, n: nat): (r: string)
    ensures |r| <= n && r <= s
    ensures |s| <= n ==> r == s
    ensures |s| > n ==> |r| == n
  {
    if |s| <= n then s else s[..n]
  }

  /** Drops trailing whitespace. */
  function TrimEnd(s: string): (r: string)
    ensures r <= s
    ensures forall i :: |r| <= i < |s| ==> IsWs(s[i])
    ensures r == [] || !IsWs(r[|r| - 1])
  {
    if s != [] && IsWs(s[|s| - 1]) then TrimEnd(s[..|s| - 1]) else s
  }

  /** `r` is the slice of `s` starting at `k` and everything around it is whitespace. */
  predicate TrimmedAt(s: string, r: string, k: nat) {
    k + |r| <= |s| && r == s[k..k + |r|]
    && (forall i :: 0 <= i < k ==> IsWs(s[i]))
    && (forall i :: k + |r| <= i < |s| ==> IsWs(s[i]))
  }

  /** `trim()`: the result is `s` without its leading and trailing whitespace. */
  function TrimWs(s: string): (r: string)
    ensures exists k :: TrimmedAt(s, r, k)
    ensures r == [] || (!IsWs(r[0]) && !IsWs(r[|r| - 1]))
  {
    var t := SkipWs(s);
    var r := TrimEnd(t);
    TrimParts(s, t, r);
    r
  }

  /** Whitespace dropped from the front, then from the back, leaves a slice
      with only whitespace around it. */
  lemma TrimParts(s: string, t: string, r: string)
    requires |t| <= |s| && t == s[|s| - |t|..] && (forall i :: 0 <= i < |s| - |t| ==> IsWs(s[i]))
    requires r <= t && (forall i :: |r| <= i < |t| ==> IsWs(t[i]))
    ensures TrimmedAt(s, r, |s| - |t|)
  {
    var k := |s| - |t|;
    forall j | 0 <= j < |r| ensures r[j] == s[k + j] {
      assert r[j] == t[j];
    }
    assert r == s[k..k + |r|];
    forall i | k + |r| <= i < |s| ensures IsWs(s[i]) {
      assert s[i] == t[i - k];
    }
  }

  /** `/\s/g -> '_'`. */
  function WsToUnderscore(s: string): (r: string)
    ensures |r| == |s|
    ensures forall i :: 0 <= i < |s| ==> r[i] == if IsWs(s[i]) then '_' else s[i]
  {
    if s == [] then [] else [if IsWs(s[0]) then '_' else s[0]] + WsToUnderscore(s[1..])
  }

  /** The sanitised title: only `[A-Za-z0-9_-]`, at most 30 characters, hence
      no whitespace. */
  function SafeTitle(title: string): (r: string)
    ensures AllSafe(r) && NoWs(r)
    ensures |r| <= MaxTitle
  {
    var collapsed := CollapseWs(StripDisallowed(title));
    var cut := Truncate(collapsed, MaxTitle);
    KeptPrefix(collapsed, cut);
    var trimmed := TrimWs(cut);
    KeptSlice(cut, trimmed);
    var r := WsToUnderscore(trimmed);
    SafeFromKept(trimmed, r);
    r
  }

  lemma KeptPrefix(s: string, r: string)
    requires AllKept(s) && r <= s
    ensures AllKept(r)
  {
    forall i | 0 <= i < |r| ensures Kept(r[i]) {
      assert r[i] == s[i];
    }
  }

  lemma KeptSlice(s: string, r: string)
    requires AllKept(s) && exists k :: TrimmedAt(s, r, k)
    ensures AllKept(r) && |r| <= |s|
  {
    var k: nat :| TrimmedAt(s, r, k);
    forall i | 0 <= i < |r| ensures Kept(r[i]) {
      assert r[i] == s[k + i];
    }
  }

  /** Turning the whitespace of a kept string into `_` leaves only safe characters. */
  lemma SafeFromKept(t: string, r: string)
    requires AllKept(t) && |r| == |t|
    requires forall i :: 0 <= i < |t| ==> r[i] == if IsWs(t[i]) then '_' else t[i]
    ensures AllSafe(r) && NoWs(r)
  {
    forall i | 0 <= i < |r| ensures SafeChar(r[i]) && !IsWs(r[i]) {
      assert Kept(t[i]);
    }
  }

  /** `${clip.id}-${safeTitle}`: the base name the downloader is told to write. */
  function BaseFilename(id: string, title: string): (r: string)
    ensures (id + "-") <= r
    ensures |id| + 1 <= |r| <= |id| + 1 + MaxTitle
    ensures AllSafe(r[|id| + 1..]) && NoWs(r[|id| + 1..])
  {
    var r := id + "-" + SafeTitle(title);
    assert r[|id| + 1..] == SafeTitle(title);
    r
  }

  /** A name built on the base name starts with `<id>-`. */
  lemma BaseFilenameSplit(id: string, title: string, suffix: string)
    ensures BaseFilename(id, title) + suffix == (id + "-") + (SafeTitle(title) + suffix)
  {
    Assoc(id + "-", SafeTitle(title), suffix);
  }

  /** A safe title of at most 30 characters is left as it is by every rewrite. */
  lemma SafeTitleFixes(s: string)
    requires AllSafe(s) && |s| <= MaxTitle
    ensures SafeTitle(s) == s
  {
    SafeIsKept(s);
    assert StripDisallowed(s) == s;
    assert CollapseWs(s) == s;
    assert Truncate(s, MaxTitle) == s;
    TrimNoWs(s);
    assert WsToUnderscore(s) == s;
    SafeTitlePipeline(s);
  }

  lemma SafeIsKept(s: string)
    requires AllSafe(s)
    ensures AllKept(s) && NoWs(s)
  {
    forall i | 0 <= i < |s| ensures Kept(s[i]) && !IsWs(s[i]) {
      assert SafeChar(s[i]);
    }
  }

  /** A string without whitespace is its own trim. */
  lemma TrimNoWs(s: string)
    requires NoWs(s)
    ensures TrimWs(s) == s
  {
    assert s != [] ==> !IsWs(s[0]) && !IsWs(s[|s| - 1]);
    assert SkipWs(s) == s;
    assert TrimEnd(s) == s;
  }

  /** The sanitiser is the composition of the five rewrites, in source order. */
  lemma SafeTitlePipeline(title: string)
    ensures SafeTitle(title) == WsToUnderscore(TrimWs(Truncate(CollapseWs(StripDisallowed(title)), MaxTitle)))
  {
  }

  /** Two safe words around a space, followed by a disallowed character, as
      in `Some Clip!`: the character is dropped and the space becomes `_`. */
  lemma SafeTitleTwoWords(u: string, v: string, c: char)
    requires u != [] && v != [] && AllSafe(u) && AllSafe(v) && !Kept(c)
    requires |u| + 1 + |v| <= MaxTitle
    ensures SafeTitle(u + " " + v + [c]) == u + "_" + v
  {
    var joined := u + " " + v;
    TwoWordsStrip(u, v, c);
    TwoWordsCollapse(u, v);
    assert Truncate(joined, MaxTitle) == joined;
    TwoWordsTrim(u, v);
    TwoWordsUnderscore(u, v);
    SafeTitlePipeline(u + " " + v + [c]);
  }

  lemma TwoWordsStrip(u: string, v: string, c: char)
    requires AllSafe(u) && AllSafe(v) && !Kept(c)
    ensures StripDisallowed(u + " " + v + [c]) == u + " " + v
  {
    SafeIsKept(u);
    SafeIsKept(v);
    var w := " ";
    StripDisallowedConcat(u + w + v, [c]);
    StripDisallowedConcat(u + w, v);
    StripDisallowedConcat(u, w);
    assert StripDisallowed([c]) == [];
    assert StripDisallowed(w) == w;
    assert u + w + v + [] == u + w + v;
  }

  lemma TwoWordsCollapse(u: string, v: string)
    requires v != [] && AllSafe(u) && AllSafe(v)
    ensures CollapseWs(u + " " + v) == u + " " + v
  {
    SafeIsKept(u);
    SafeIsKept(v);
    var w := " ";
    Assoc(u, w, v);
    CollapseWsWord(u, w + v);
    CollapseWsRun(w, v);
    assert CollapseWs(v) == v;
  }

  lemma TwoWordsTrim(u: string, v: string)
    requires u != [] && v != [] && AllSafe(u) && AllSafe(v)
    ensures TrimWs(u + " " + v) == u + " " + v
  {
    SafeIsKept(u);
    SafeIsKept(v);
    var s := u + " " + v;
    assert s[0] == u[0] && s[|s| - 1] == v[|v| - 1];
    assert SkipWs(s) == s;
    assert TrimEnd(s) == s;
  }

  lemma TwoWordsUnderscore(u: string, v: string)
    requires AllSafe(u) && AllSafe(v)
    ensures WsToUnderscore(u + " " + v) == u + "_" + v
  {
    SafeIsKept(u);
    SafeIsKept(v);
    var s, r := u + " " + v, WsToUnderscore(u + " " + v);
    forall i | 0 <= i < |s| ensures r[i] == (u + "_" + v)[i] {
      if i < |u| {
        assert s[i] == u[i];
      } else if i > |u| {
        assert s[i] == v[i - |u| - 1];
      }
    }
  }

  /** Sanitising is idempotent. */
  lemma SafeTitleIdempotent(title: string)
    ensures SafeTitle(SafeTitle(title)) == SafeTitle(title)
  {
    SafeTitleFixes(SafeTitle(title));
  }
}
