/**
 `getExistingClips`: the catalogue of cached clips is recomputed from the
 directory listing on every request. Only `.mp4` names are kept, each name is
 parsed back into an id and a title, and the records are sorted newest first
 by creation time (a stable sort, as `Array.prototype.sort` is).
 */
module CacheIndex {
  import opened Wrappers
  import opened Strings
  import opened Clips
  import Filenames

  const Mp4: string := ".mp4"

  /** Placeholder duration, in seconds, for a clip known only from its file name. */
  const CachedDuration: int := 30

  /** `name.endsWith('.mp4')`, spelled out character by character. */
  predicate IsMp4(name: string) {
    var n := |name|;
    n >= 4 && name[n - 4] == '.' && name[n - 3] == 'm' && name[n - 2] == 'p' && name[n - 1] == '4'
  }

  /** The spelled-out test is `endsWith('.mp4')`. */
  lemma IsMp4EndsWith(name: string)
    ensures IsMp4(name) <==> EndsWith(name, Mp4)
  {
    if IsMp4(name) {
      assert name[|name| - 4..] == Mp4;
    }
  }

  datatype ParsedName = ParsedName(id: string, title: string)

  /** `file.split('-')[0]` is the id; the title is the name with the first
      `<id>-` and then the first `.mp4` removed, and `_` turned into spaces. */
  function ParseName(file: string): (p: ParsedName)
    ensures p.id <= file && '-' !in p.id
    ensures |p.id| < |file| ==> file[|p.id|] == '-'
  {
    var id := BeforeFirst(file, '-');
    var rest := ReplaceFirst(ReplaceFirst(file, id + "-", ""), Mp4, "");
    ParsedName(id, ReplaceChar(rest, '_', ' '))
  }

  /** The record a cached file stands for. */
  function ToRecord(e: DirEntry): (r: ClipRecord)
    ensures r.id <= e.name && '-' !in r.id
    ensures r.id == ParseName(e.name).id && r.title == ParseName(e.name).title
    ensures r.localFile == e.name && r.created == e.birthtime && r.cached && r.url.None?
    ensures r.creator == "Cached" && r.duration == CachedDuration && r.views == 0
  {
    var p := ParseName(e.name);
    ClipRecord(p.id, p.title, None, "Cached", CachedDuration, 0, e.birthtime, e.name, true)
  }

  /** The positions `files.filter(f => f.endsWith('.mp4'))` keeps among the
      first `n` entries: all and only the `.mp4` ones, in increasing order. */
  function Mp4Positions(es: seq<DirEntry>, n: nat): (idx: seq<nat>)
    requires n <= |es|
    ensures |idx| <= n
    ensures forall k :: 0 <= k < |idx| ==> idx[k] < n && IsMp4(es[idx[k]].name)
    ensures forall k, l :: 0 <= k < l < |idx| ==> idx[k] < idx[l]
    ensures forall i :: 0 <= i < n && IsMp4(es[i].name) ==> i in idx
  {
    if n == 0 then []
    else Mp4Positions(es, n - 1) + (if IsMp4(es[n - 1].name) then [n - 1] else [])
  }

  /** `rs` is the order-preserving selection of the `.mp4` entries of `es`
      at positions `idx`, each turned into its record. */
  predicate SelectsMp4(es: seq<DirEntry>, idx: seq<nat>, rs: seq<ClipRecord>) {
    |idx| == |rs|
    && (forall k :: 0 <= k < |idx| ==> idx[k] < |es| && IsMp4(es[idx[k]].name) && rs[k] == ToRecord(es[idx[k]]))
    && (forall k, l :: 0 <= k < l < |idx| ==> idx[k] < idx[l])
    && (forall i :: 0 <= i < |es| && IsMp4(es[i].name) ==> i in idx)
  }

  /** `files.filter(f => f.endsWith('.mp4')).map(...)`: one record per `.mp4`
      entry, in listing order, and none for the other entries. */
  function Mp4Records(es: seq<DirEntry>): (rs: seq<ClipRecord>)
    ensures |rs| <= |es|
    ensures SelectsMp4(es, Mp4Positions(es, |es|), rs)
    ensures forall r :: r in rs <==> exists e :: e in es && IsMp4(e.name) && r == ToRecord(e)
  {
    var idx := Mp4Positions(es, |es|);
    var rs := seq(|idx|, k requires 0 <= k < |idx| => ToRecord(es[idx[k]]));
    assert SelectsMp4(es, idx, rs);
    SelectedMembers(es, idx, rs);
    rs
  }

  /** A selection of all `.mp4` entries holds exactly their records. */
  lemma SelectedMembers(es: seq<DirEntry>, idx: seq<nat>, rs: seq<ClipRecord>)
    requires SelectsMp4(es, idx, rs)
    ensures forall r :: r in rs <==> exists e :: e in es && IsMp4(e.name) && r == ToRecord(e)
  {
    forall r | r in rs ensures exists e :: e in es && IsMp4(e.name) && r == ToRecord(e) {
      SelectedIsMp4(es, idx, rs, r);
    }
    forall e | e in es && IsMp4(e.name) ensures ToRecord(e) in rs {
      Mp4IsSelected(es, idx, rs, e);
    }
  }

  lemma SelectedIsMp4(es: seq<DirEntry>, idx: seq<nat>, rs: seq<ClipRecord>, r: ClipRecord)
    requires SelectsMp4(es, idx, rs) && r in rs
    ensures exists e :: e in es && IsMp4(e.name) && r == ToRecord(e)
  {
    var k :| 0 <= k < |rs| && rs[k] == r;
    var e := es[idx[k]];
    assert e in es && IsMp4(e.name) && r == ToRecord(e);
  }

  lemma Mp4IsSelected(es: seq<DirEntry>, idx: seq<nat>, rs: seq<ClipRecord>, e: DirEntry)
    requires SelectsMp4(es, idx, rs) && e in es && IsMp4(e.name)
    ensures ToRecord(e) in rs
  {
    var i :| 0 <= i < |es| && es[i] == e;
    assert i in idx;
    var k :| 0 <= k < |idx| && idx[k] == i;
    assert rs[k] == ToRecord(e);
  }

  /** Ordered by creation time, newest first. */
  predicate NewestFirst(rs: seq<ClipRecord>) {
    forall i, j :: 0 <= i < j < |rs| ==> rs[i].created >= rs[j].created
  }

  /** A record no older than the head of a sorted list can go in front of it. */
  lemma ConsNewestFirst(h: ClipRecord, rs: seq<ClipRecord>)
    requires NewestFirst(rs) && (rs == [] || h.created >= rs[0].created)
    ensures NewestFirst([h] + rs)
  {
    var r := [h] + rs;
    forall i, j | 0 <= i < j < |r| ensures r[i].created >= r[j].created {
      if i == 0 && j > 1 {
        assert r[j] == rs[j - 1];
      }
    }
  }

  lemma ConsMultiset(h: ClipRecord, rs: seq<ClipRecord>, tail: seq<ClipRecord>, x: ClipRecord)
    requires rs != [] && h == rs[0]
    requires multiset(tail) == multiset(rs[1..]) + multiset{x}
    ensures multiset([h] + tail) == multiset(rs) + multiset{x}
  {
    assert rs == [rs[0]] + rs[1..];
  }

  /** Inserts `x` ahead of the first record that is not newer than it. */
  function Insert(x: ClipRecord, rs: seq<ClipRecord>): (r: seq<ClipRecord>)
    requires NewestFirst(rs)
    ensures NewestFirst(r)
    ensures multiset(r) == multiset(rs) + multiset{x}
    ensures r[0] == x || (rs != [] && r[0] == rs[0])
  {
    if rs == [] || x.created >= rs[0].created then
      ConsNewestFirst(x, rs);
      [x] + rs
    else
      var tail := Insert(x, rs[1..]);
      ConsNewestFirst(rs[0], tail);
      ConsMultiset(rs[0], rs, tail, x);
      [rs[0]] + tail
  }

  /** `sort((a, b) => b.created - a.created)`: a stable sort, newest first. */
  function SortNewestFirst(rs: seq<ClipRecord>): (r: seq<ClipRecord>)
    ensures NewestFirst(r)
    ensures multiset(r) == multiset(rs)
  {
    if rs == [] then []
    else
      assert rs == [rs[0]] + rs[1..];
      Insert(rs[0], SortNewestFirst(rs[1..]))
  }

  /** The records created at time `t`, in order. */
  function CreatedAt(rs: seq<ClipRecord>, t: int): seq<ClipRecord> {
    if rs == [] then []
    else (if rs[0].created == t then [rs[0]] else []) + CreatedAt(rs[1..], t)
  }

  /** The catalogue; a listing that cannot be read gives no clips. */
  function ExistingClips(listing: Option<seq<DirEntry>>): (cs: seq<ClipRecord>)
    ensures listing.None? ==> cs == []
    ensures NewestFirst(cs)
    ensures listing.Some? ==> multiset(cs) == multiset(Mp4Records(listing.value))
    ensures listing.Some? ==> forall c :: c in cs <==>
      exists e :: e in listing.value && IsMp4(e.name) && c == ToRecord(e)
  {
    match listing
    case None => []
    case Some(es) =>
      var rs := Mp4Records(es);
      var sorted := SortNewestFirst(rs);
      assert forall c :: c in sorted <==> c in rs by {
        forall c ensures c in sorted <==> c in rs {
          assert c in sorted <==> c in multiset(sorted);
          assert c in rs <==> c in multiset(rs);
        }
      }
      sorted
  }

  /** Inserting keeps the relative order of records created at the same time:
      the inserted record goes ahead of its equals. */
  lemma {:induction false} InsertStable(x: ClipRecord, rs: seq<ClipRecord>, t: int)
    requires NewestFirst(rs)
    ensures CreatedAt(Insert(x, rs), t) == (if x.created == t then [x] else []) + CreatedAt(rs, t)
  {
    if rs == [] || x.created >= rs[0].created {
      CreatedAtCons(x, rs, t);
    } else {
      var tail := Insert(x, rs[1..]);
      assert Insert(x, rs) == [rs[0]] + tail;
      InsertStable(x, rs[1..], t);
      CreatedAtCons(rs[0], tail, t);
      assert rs == [rs[0]] + rs[1..];
      CreatedAtCons(rs[0], rs[1..], t);
      var head: seq<ClipRecord> := if rs[0].created == t then [rs[0]] else [];
      var mid: seq<ClipRecord> := if x.created == t then [x] else [];
      assert head == [] || mid == [];
      SwapEmpty(head, mid, CreatedAt(rs[1..], t));
    }
  }

  lemma SwapEmpty<T>(a: seq<T>, b: seq<T>, c: seq<T>)
    requires a == [] || b == []
    ensures a + (b + c) == b + (a + c)
  {
  }

  lemma CreatedAtCons(h: ClipRecord, rest: seq<ClipRecord>, t: int)
    ensures CreatedAt([h] + rest, t) == (if h.created == t then [h] else []) + CreatedAt(rest, t)
  {
    assert ([h] + rest)[1..] == rest;
  }

  /** The sort is stable: for each creation time, the records created then come
      out in the order in which they went in. */
  lemma {:induction false} SortStable(rs: seq<ClipRecord>, t: int)
    ensures CreatedAt(SortNewestFirst(rs), t) == CreatedAt(rs, t)
  {
    if rs != [] {
      SortStable(rs[1..], t);
      InsertStable(rs[0], SortNewestFirst(rs[1..]), t);
    }
  }

  /** The catalogue holds one record per `.mp4` entry. */
  lemma CatalogueSize(es: seq<DirEntry>)
    ensures |ExistingClips(Some(es))| == |Mp4Positions(es, |es|)|
  {
    assert |multiset(ExistingClips(Some(es)))| == |multiset(Mp4Records(es))|;
  }

  /** For every creation time, the catalogue lists the records created then
      in listing order: equal birthtimes keep the order of `readdirSync`. */
  lemma ExistingClipsStable(es: seq<DirEntry>, t: int)
    ensures CreatedAt(ExistingClips(Some(es)), t) == CreatedAt(Mp4Records(es), t)
  {
    SortStable(Mp4Records(es), t);
  }

  /** Every cached record carries the id and the title parsed from its own
      file name, and the fixed fields a record known only from its file has. */
  lemma ExistingClipsRecords(listing: seq<DirEntry>, k: nat)
    requires k < |ExistingClips(Some(listing))|
    ensures var c := ExistingClips(Some(listing))[k];
      IsMp4(c.localFile) && c.id == ParseName(c.localFile).id
      && c.title == ParseName(c.localFile).title && c.cached
      && c.creator == "Cached" && c.duration == CachedDuration && c.views == 0
  {
    var c := ExistingClips(Some(listing))[k];
    assert c in ExistingClips(Some(listing));
  }

  /** Parsing `<id>-<safe>.mp4` gives back the id and the safe part with `_`
      turned back into spaces, provided the id has no `-`. */
  lemma ParseFileName(id: string, safe: string)
    requires '-' !in id && Filenames.AllSafe(safe)
    ensures ParseName(id + "-" + safe + Mp4) == ParsedName(id, ReplaceChar(safe, '_', ' '))
  {
    var rest := safe + Mp4;
    var file := id + "-" + safe + Mp4;
    assert file == id + ['-'] + rest && file == (id + "-") + rest;
    BeforeFirstOfJoin(id, '-', rest);
    ReplaceFirstPrefix(id + "-", rest);
    assert '.' !in safe by {
      forall i | 0 <= i < |safe| ensures safe[i] != '.' {
        assert Filenames.SafeChar(safe[i]);
      }
    }
    ReplaceFirstAfter(safe, Mp4);
  }

  /** The round trip of the file-name encoding: parsing the name of a
      downloaded file gives back its id and its safe title with `_` turned
      back into spaces, provided the id has no `-`. */
  lemma ParseBaseFilename(id: string, title: string)
    requires '-' !in id
    ensures ParseName(Filenames.BaseFilename(id, title) + Mp4)
      == ParsedName(id, ReplaceChar(Filenames.SafeTitle(title), '_', ' '))
  {
    ParseFileName(id, Filenames.SafeTitle(title));
  }

  lemma Mp4Suffix(base: string)
    ensures IsMp4(base + Mp4)
  {
    var s := base + Mp4;
    assert s[|s| - 4..] == Mp4;
  }

  /** Every `.mp4` entry of a readable listing is in the catalogue. */
  lemma Mp4EntryIsCached(listing: seq<DirEntry>, e: DirEntry)
    requires e in listing && IsMp4(e.name)
    ensures ToRecord(e) in ExistingClips(Some(listing))
  {
  }

  /** A downloaded file named after its clip is recognised as that clip once
      the directory is listed again (when the id has no `-`). */
  lemma DownloadedFileIsCached(listing: seq<DirEntry>, e: DirEntry, id: string, title: string)
    requires '-' !in id
    requires e in listing && e.name == Filenames.BaseFilename(id, title) + Mp4
    ensures exists c :: c in ExistingClips(Some(listing)) && c.id == id && c.localFile == e.name
  {
    ParseBaseFilename(id, title);
    var base := Filenames.BaseFilename(id, title);
    Mp4Suffix(base);
    Mp4EntryIsCached(listing, e);
  }

  /** The edge case of this encoding: an id that itself contains `-` is cut at
      its first `-`, so the parsed id is only the part before it. */
  lemma DashedIdIsCut(head: string, tail: string, title: string)
    requires '-' !in head
    ensures ParseName(Filenames.BaseFilename(head + "-" + tail, title) + Mp4).id == head
  {
    var id := head + "-" + tail;
    var rest := Filenames.SafeTitle(title) + Mp4;
    Filenames.BaseFilenameSplit(id, title, Mp4);
    Regroup(head, tail, rest);
    ParsedIdIsHead(head, (tail + "-") + rest);
  }

  lemma Regroup(head: string, tail: string, rest: string)
    ensures ((head + "-" + tail) + "-") + rest == head + "-" + ((tail + "-") + rest)
  {
  }

  /** The parsed id of a name is its part before the first `-`. */
  lemma ParsedIdIsHead(head: string, rest: string)
    requires '-' !in head
    ensures ParseName(head + "-" + rest).id == head
  {
    assert head + "-" + rest == head + ['-'] + rest;
    BeforeFirstOfJoin(head, '-', rest);
  }
}
