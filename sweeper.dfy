/**
 The `/cleanup` sweep: every `.mp4` file whose last modification lies more
 than 48 hours before `now` is unlinked, and the number of unlinked files is
 reported. In the source the age is `(Date.now() - mtime) / (1000*60*60)`
 hours compared with `> 48`; on integer milliseconds this is
 `now - mtime > 48 * 3600 * 1000`.
 */
module Sweeper {
  import opened Clips
  import CacheIndex
  import Strings

  /** 48 hours, in milliseconds. */
  const RetentionMs: int := 48 * 60 * 60 * 1000

  /** The entries the sweep deletes: `.mp4` files whose age in hours,
      `(now - mtime) / (1000 * 60 * 60)` in exact arithmetic, exceeds 48. */
  predicate Expired(e: DirEntry, now: int): (r: bool)
    ensures r <==> CacheIndex.IsMp4(e.name) && (now - e.mtime) as real / (1000 * 60 * 60) as real > 48.0
  {
    CacheIndex.IsMp4(e.name) && now - e.mtime > RetentionMs
  }

  /** The entries among the first `n` of `es` that the sweep leaves in
      place, in listing order. */
  function Retained(es: seq<DirEntry>, n: nat, now: int): seq<DirEntry>
    requires n <= |es|
  {
    if n == 0 then []
    else Retained(es, n - 1, now) + (if Expired(es[n - 1], now) then [] else [es[n - 1]])
  }

  /** How many of the first `n` entries of `es` the sweep deletes. */
  function ExpiredCount(es: seq<DirEntry>, n: nat, now: int): nat
    requires n <= |es|
  {
    if n == 0 then 0
    else ExpiredCount(es, n - 1, now) + (if Expired(es[n - 1], now) then 1 else 0)
  }

  /** No entry of `es` is called `name`. */
  predicate NameFree(es: seq<DirEntry>, name: string) {
    es == [] || (es[0].name != name && NameFree(es[1..], name))
  }

  /** No two entries of a directory share a name. */
  predicate DistinctNames(es: seq<DirEntry>) {
    es == [] || (NameFree(es[1..], es[0].name) && DistinctNames(es[1..]))
  }

  lemma {:induction false} NameFreeAt(es: seq<DirEntry>, name: string, k: nat)
    requires NameFree(es, name) && k < |es|
    ensures es[k].name != name
  {
    if k > 0 {
      NameFreeAt(es[1..], name, k - 1);
    }
  }

  lemma {:induction false} NameFreeFromAll(es: seq<DirEntry>, name: string)
    requires forall k :: 0 <= k < |es| ==> es[k].name != name
    ensures NameFree(es, name)
  {
    if es != [] {
      NameFreeFromAll(es[1..], name);
    }
  }

  /** Distinct names, entry by entry: two different positions hold different names. */
  lemma {:induction false} DistinctAt(es: seq<DirEntry>, a: nat, b: nat)
    requires DistinctNames(es) && a < b < |es|
    ensures es[a].name != es[b].name
  {
    if a == 0 {
      NameFreeAt(es[1..], es[0].name, b - 1);
    } else {
      DistinctAt(es[1..], a - 1, b - 1);
    }
  }

  /** Pairwise-different names make a listing with distinct names. */
  lemma {:induction false} DistinctFromPairs(es: seq<DirEntry>)
    requires forall a, b :: 0 <= a < b < |es| ==> es[a].name != es[b].name
    ensures DistinctNames(es)
  {
    if es != [] {
      forall k | 0 <= k < |es[1..]| ensures es[1..][k].name != es[0].name {
        assert es[1..][k] == es[k + 1];
      }
      NameFreeFromAll(es[1..], es[0].name);
      forall a, b | 0 <= a < b < |es[1..]| ensures es[1..][a].name != es[1..][b].name {
        assert es[1..][a] == es[a + 1] && es[1..][b] == es[b + 1];
      }
      DistinctFromPairs(es[1..]);
    }
  }

  /** The listing once the file called `name` is gone. */
  function Without(es: seq<DirEntry>, name: string): seq<DirEntry> {
    if es == [] then []
    else (if es[0].name == name then [] else [es[0]]) + Without(es[1..], name)
  }

  lemma {:induction false} WithoutNameFree(es: seq<DirEntry>, name: string, m: string)
    requires NameFree(es, m)
    ensures NameFree(Without(es, name), m)
  {
    if es != [] {
      WithoutNameFree(es[1..], name, m);
      var w := Without(es[1..], name);
      if es[0].name == name {
        assert Without(es, name) == w;
      } else {
        Strings.HeadTail([es[0]], w);
      }
    }
  }

  /** Unlinking keeps the names of a directory distinct. */
  lemma {:induction false} WithoutDistinct(es: seq<DirEntry>, name: string)
    requires DistinctNames(es)
    ensures DistinctNames(Without(es, name))
  {
    if es != [] {
      WithoutDistinct(es[1..], name);
      var w := Without(es[1..], name);
      if es[0].name == name {
        assert Without(es, name) == w;
      } else {
        WithoutNameFree(es[1..], name, es[0].name);
        Strings.HeadTail([es[0]], w);
      }
    }
  }

  /** The sweep keeps exactly the entries that are not expired `.mp4` files. */
  lemma {:induction false} RetainedSpec(es: seq<DirEntry>, n: nat, now: int)
    requires n <= |es|
    ensures forall e :: e in Retained(es, n, now) <==> e in es[..n] && !Expired(e, now)
  {
    if n > 0 {
      RetainedSpec(es, n - 1, now);
      assert es[..n] == es[..n - 1] + [es[n - 1]];
    }
  }

  /** Every entry is either kept or counted as deleted. */
  lemma {:induction false} SweepCount(es: seq<DirEntry>, n: nat, now: int)
    requires n <= |es|
    ensures |Retained(es, n, now)| + ExpiredCount(es, n, now) == n
  {
    if n > 0 {
      SweepCount(es, n - 1, now);
    }
  }

  /** The retained entries of a listing with distinct names have distinct names. */
  lemma RetainedDistinct(es: seq<DirEntry>, n: nat, now: int)
    requires DistinctNames(es) && n <= |es|
    ensures DistinctNames(Retained(es, n, now))
  {
    RetainedPairs(es, n, now);
    DistinctFromPairs(Retained(es, n, now));
  }

  lemma {:induction false} RetainedPairs(es: seq<DirEntry>, n: nat, now: int)
    requires DistinctNames(es) && n <= |es|
    ensures forall a, b :: 0 <= a < b < |Retained(es, n, now)| ==>
      Retained(es, n, now)[a].name != Retained(es, n, now)[b].name
  {
    if n > 0 {
      RetainedPairs(es, n - 1, now);
      RetainedSpec(es, n - 1, now);
      var r := Retained(es, n - 1, now);
      forall k | 0 <= k < |r| ensures r[k].name != es[n - 1].name {
        assert r[k] in es[..n - 1];
        var j :| 0 <= j < n - 1 && es[j] == r[k];
        DistinctAt(es, j, n - 1);
      }
    }
  }

  lemma {:induction false} WithoutConcat(a: seq<DirEntry>, b: seq<DirEntry>, name: string)
    ensures Without(a + b, name) == Without(a, name) + Without(b, name)
  {
    if a == [] {
      assert a + b == b;
    } else {
      assert (a + b)[1..] == a[1..] + b;
      WithoutConcat(a[1..], b, name);
    }
  }

  lemma {:induction false} WithoutAbsent(a: seq<DirEntry>, name: string)
    requires forall k :: 0 <= k < |a| ==> a[k].name != name
    ensures Without(a, name) == a
  {
    if a != [] {
      WithoutAbsent(a[1..], name);
    }
  }

  lemma UnlinkMiddle(kept: seq<DirEntry>, f: DirEntry, rest: seq<DirEntry>)
    requires forall k :: 0 <= k < |kept| ==> kept[k].name != f.name
    requires forall k :: 0 <= k < |rest| ==> rest[k].name != f.name
    ensures Without(kept + ([f] + rest), f.name) == kept + rest
  {
    var name := f.name;
    assert Without(kept + ([f] + rest), name) == Without(kept, name) + (Without([f], name) + Without(rest, name)) by {
      WithoutConcat(kept, [f] + rest, name);
      WithoutConcat([f], rest, name);
    }
    assert Without([f], name) == [] by {
      assert [f][1..] == [];
    }
    assert Without(kept, name) == kept by {
      WithoutAbsent(kept, name);
    }
    assert Without(rest, name) == rest by {
      WithoutAbsent(rest, name);
    }
    assert [] + rest == rest;
  }

  /** Unlinking the next file of the snapshot removes just that file. */
  lemma UnlinkNext(files: seq<DirEntry>, i: nat, now: int)
    requires DistinctNames(files) && i < |files|
    ensures Without(Retained(files, i, now) + files[i..], files[i].name)
      == Retained(files, i, now) + files[i + 1..]
  {
    var f := files[i];
    var kept := Retained(files, i, now);
    var rest := files[i + 1..];
    RetainedSpec(files, i, now);
    forall k | 0 <= k < |kept| ensures kept[k].name != f.name {
      assert kept[k] in files[..i];
      var j :| 0 <= j < i && files[j] == kept[k];
      DistinctAt(files, j, i);
    }
    forall k | 0 <= k < |rest| ensures rest[k].name != f.name {
      assert rest[k] == files[i + 1 + k];
      DistinctAt(files, i, i + 1 + k);
    }
    assert files[i..] == [f] + rest;
    UnlinkMiddle(kept, f, rest);
  }

  /** The directory once the first `i` entries of the snapshot `files` have
      been examined. */
  function SweepState(files: seq<DirEntry>, i: nat, now: int): seq<DirEntry>
    requires i <= |files|
  {
    Retained(files, i, now) + files[i..]
  }

  /** Unlinking the next entry, when it is expired, examines it. */
  lemma DropNext(files: seq<DirEntry>, i: nat, now: int)
    requires DistinctNames(files) && i < |files| && Expired(files[i], now)
    ensures Without(SweepState(files, i, now), files[i].name) == SweepState(files, i + 1, now)
  {
    UnlinkNext(files, i, now);
  }

  /** Leaving the next entry in place, when it is not expired, examines it. */
  lemma KeepNext(files: seq<DirEntry>, i: nat, now: int)
    requires i < |files| && !Expired(files[i], now)
    ensures SweepState(files, i, now) == SweepState(files, i + 1, now)
  {
    assert files[i..] == [files[i]] + files[i + 1..];
    Strings.Assoc(Retained(files, i, now), [files[i]], files[i + 1..]);
  }

  /** After the last entry the directory holds just the retained entries. */
  lemma SweepDone(files: seq<DirEntry>, now: int)
    requires DistinctNames(files)
    ensures SweepState(files, |files|, now) == Retained(files, |files|, now)
    ensures DistinctNames(Retained(files, |files|, now))
  {
    assert files[|files|..] == [];
    RetainedDistinct(files, |files|, now);
  }

  /** A listing with nothing expired is left alone. */
  lemma {:induction false} NothingExpired(es: seq<DirEntry>, n: nat, now: int)
    requires n <= |es|
    requires forall k :: 0 <= k < n ==> !Expired(es[k], now)
    ensures Retained(es, n, now) == es[..n] && ExpiredCount(es, n, now) == 0
  {
    if n > 0 {
      NothingExpired(es, n - 1, now);
      assert es[..n] == es[..n - 1] + [es[n - 1]];
    }
  }

  /** A second sweep at the same instant deletes nothing. */
  lemma SweepAgain(es: seq<DirEntry>, now: int)
    ensures var r := Retained(es, |es|, now);
      Retained(r, |r|, now) == r && ExpiredCount(r, |r|, now) == 0
  {
    var r := Retained(es, |es|, now);
    RetainedSpec(es, |es|, now);
    forall k | 0 <= k < |r| ensures !Expired(r[k], now) {
      assert r[k] in r;
    }
    NothingExpired(r, |r|, now);
    assert r[..|r|] == r;
  }

  /** The clips directory: its entries are the only state the server keeps. */
  class Directory {
    var entries: seq<DirEntry>

    ghost predicate Valid()
      reads this
    {
      DistinctNames(entries)
    }

    constructor (es: seq<DirEntry>)
      requires DistinctNames(es)
      ensures Valid() && entries == es
    {
      entries := es;
    }

    /** `fs.unlinkSync`. */
    method Unlink(name: string)
      requires Valid()
      modifies this
      ensures Valid()
      ensures entries == Without(old(entries), name)
    {
      WithoutDistinct(entries, name);
      entries := Without(entries, name);
    }

    /** The body of the `/cleanup` loop for the entry at position `i` of the
        snapshot `files`: an `.mp4` file older than 48 hours is unlinked. */
    method Examine(file: DirEntry, now: int, ghost files: seq<DirEntry>, ghost i: nat) returns (gone: bool)
      requires DistinctNames(files) && i < |files| && file == files[i]
      requires Valid() && entries == SweepState(files, i, now)
      modifies this
      ensures Valid()
      ensures gone == Expired(file, now)
      ensures entries == SweepState(files, i + 1, now)
      ensures ExpiredCount(files, i + 1, now) == ExpiredCount(files, i, now) + if gone then 1 else 0
    {
      gone := false;
      if CacheIndex.IsMp4(file.name) {
        if now - file.mtime > RetentionMs {
          DropNext(files, i, now);
          Unlink(file.name);
          gone := true;
        } else {
          KeepNext(files, i, now);
        }
      } else {
        KeepNext(files, i, now);
      }
    }

    /** The `/cleanup` handler: the loop over the listing read at its start. */
    method Sweep(now: int) returns (deleted: nat)
      requires Valid()
      modifies this
      ensures Valid()
      ensures entries == Retained(old(entries), |old(entries)|, now)
      ensures deleted == ExpiredCount(old(entries), |old(entries)|, now)
    {
      var files := entries;
      assert files[0..] == files;
      deleted := SweepLoop(now, files);
      SweepDone(files, now);
    }

    /** The loop itself, over the snapshot `files`. */
    method SweepLoop(now: int, files: seq<DirEntry>) returns (deleted: nat)
      requires DistinctNames(files) && Valid() && entries == SweepState(files, 0, now)
      modifies this
      ensures Valid()
      ensures entries == SweepState(files, |files|, now)
      ensures deleted == ExpiredCount(files, |files|, now)
    {
      deleted := 0;
      var i := 0;
      while i < |files|
        invariant 0 <= i <= |files|
        invariant Valid() && entries == SweepState(files, i, now)
        invariant deleted == ExpiredCount(files, i, now)
      {
        var gone := Examine(files[i], now, files, i);
        if gone {
          deleted := deleted + 1;
        }
        i := i + 1;
      }
    }
  }

  /** The boundary of the age test: a file modified exactly 48 hours ago, or
      47, is kept; one modified 49 hours ago is deleted; a file that is not
      `.mp4` is kept however old it is. */
  lemma RetentionBoundary(name: string, other: string, now: int)
    requires CacheIndex.IsMp4(name) && !CacheIndex.IsMp4(other)
    ensures !Expired(DirEntry(name, 0, now - 48 * 3600000), now)
    ensures !Expired(DirEntry(name, 0, now - 47 * 3600000), now)
    ensures Expired(DirEntry(name, 0, now - 49 * 3600000), now)
    ensures Expired(DirEntry(name, 0, now - 48 * 3600000 - 1), now)
    ensures !Expired(DirEntry(other, 0, now - 1000 * 3600000), now)
  {
  }

  /** How many of the first `n` entries of `es` are expired when entry `i`
      is examined at time `clock[i]`, for a clock read once per entry. */
  function ExpiredCountAt(es: seq<DirEntry>, n: nat, clock: seq<int>): nat
    requires n <= |es| && |clock| == |es|
  {
    if n == 0 then 0
    else ExpiredCountAt(es, n - 1, clock) + (if Expired(es[n - 1], clock[n - 1]) then 1 else 0)
  }

  /** A later reading of the clock can only expire more files. */
  lemma ExpiredLater(e: DirEntry, now: int, later: int)
    requires now <= later && Expired(e, now)
    ensures Expired(e, later)
  {
  }

  /** Reading the clock once per entry, at instants between `now` and
      `later`, deletes at least as many files as a sweep at `now` and at most
      as many as a sweep at `later`. */
  lemma {:induction false} ExpiredCountBetween(es: seq<DirEntry>, n: nat, clock: seq<int>, now: int, later: int)
    requires n <= |es| && |clock| == |es|
    requires forall i :: 0 <= i < |clock| ==> now <= clock[i] <= later
    ensures ExpiredCount(es, n, now) <= ExpiredCountAt(es, n, clock) <= ExpiredCount(es, n, later)
  {
    if n > 0 {
      ExpiredCountBetween(es, n - 1, clock, now, later);
      if Expired(es[n - 1], now) {
        ExpiredLater(es[n - 1], now, clock[n - 1]);
      }
      if Expired(es[n - 1], clock[n - 1]) {
        ExpiredLater(es[n - 1], clock[n - 1], later);
      }
    }
  }
}
