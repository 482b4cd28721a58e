/**
 The `/popular-clips/:username` handler. The cache is consulted first; when
 it holds at least 10 clips and no refresh is forced, up to 20 cached clips
 are returned at once. Otherwise the upstream candidates are walked in order:
 a candidate whose id is already cached is skipped, the walk stops once the
 accumulator holds 20 clips, and every other candidate is downloaded and
 appended when the download succeeds.

 The upstream query and the downloads are inputs: `upstream` is what
 `getPopularClips` returns or throws, and `atts[i]` is what the download of
 candidate `i` would observe were it attempted.
 */
module Reconciler {
  import opened Wrappers
  import opened Clips
  import opened Downloader
  import CacheIndex
  import Strings

  /** At least this many cached clips make the cache sufficient. */
  const MinCached: nat := 10

  /** The accumulator is not grown beyond this many clips. */
  const Cap: nat := 20

  /** `existingClips.some(existing => existing.id === id)`. */
  predicate IsCachedId(existing: seq<ClipRecord>, id: string) {
    exists k :: 0 <= k < |existing| && existing[k].id == id
  }

  /** `{...clip, localFile: filename, localUrl: ..., duration: clip.duration}`. */
  function Materialize(c: Candidate, file: string): (r: ClipRecord)
    ensures r.id == c.id && r.title == c.title && r.url == Some(c.url) && r.creator == c.creator
    ensures r.duration == c.duration && r.views == c.views && r.created == c.created
    ensures r.localFile == file && !r.cached
  {
    ClipRecord(c.id, c.title, Some(c.url), c.creator, c.duration, c.views, c.created, file, false)
  }

  /** A candidate that is not cached and whose download succeeds. */
  predicate Eligible(existing: seq<ClipRecord>, c: Candidate, a: Attempt) {
    !IsCachedId(existing, c.id) && Resolve(c.id, a).Downloaded?
  }

  /** What one candidate adds when it is reached before the cap. */
  function Contribution(existing: seq<ClipRecord>, c: Candidate, a: Attempt): seq<ClipRecord> {
    if Eligible(existing, c, a) then [Materialize(c, Resolve(c.id, a).filename)] else []
  }

  /** The records the eligible candidates among the first `n` would add, in
      upstream order, were there no cap. */
  function Fresh(existing: seq<ClipRecord>, cands: seq<Candidate>, atts: seq<Attempt>, n: nat): seq<ClipRecord>
    requires |atts| == |cands| && n <= |cands|
  {
    if n == 0 then []
    else Fresh(existing, cands, atts, n - 1) + Contribution(existing, cands[n - 1], atts[n - 1])
  }

  /** The positions of the eligible candidates among the first `n`, in order. */
  function FreshIndices(existing: seq<ClipRecord>, cands: seq<Candidate>, atts: seq<Attempt>, n: nat): seq<nat>
    requires |atts| == |cands| && n <= |cands|
  {
    if n == 0 then []
    else FreshIndices(existing, cands, atts, n - 1) + (if Eligible(existing, cands[n - 1], atts[n - 1]) then [n - 1] else [])
  }

  /** How many clips may still be appended to the cache. */
  function Room(existing: seq<ClipRecord>): nat {
    if |existing| >= Cap then 0 else Cap - |existing|
  }

  function Take<T>(s: seq<T>, n: nat): (r: seq<T>)
    ensures |r| == if |s| <= n then |s| else n
    ensures r <= s
  {
    if |s| <= n then s else s[..n]
  }

  /** The clips of the refresh path: the cache unchanged, then the first
      eligible candidates' records, as many as there is room for. */
  function RefreshClips(existing: seq<ClipRecord>, cands: seq<Candidate>, atts: seq<Attempt>): (r: seq<ClipRecord>)
    requires |atts| == |cands|
    ensures |existing| <= |r| && r[..|existing|] == existing
    ensures |r| <= if |existing| >= Cap then |existing| else Cap
    ensures |existing| >= Cap ==> r == existing
  {
    existing + Take(Fresh(existing, cands, atts, |cands|), Room(existing))
  }

  /** Candidate `i` is downloaded: it is not cached, and the accumulator holds
      fewer than 20 clips when the walk reaches it. */
  predicate ShouldAttempt(existing: seq<ClipRecord>, cands: seq<Candidate>, atts: seq<Attempt>, i: nat)
    requires |atts| == |cands| && i < |cands|
  {
    !IsCachedId(existing, cands[i].id) && |existing| + |Fresh(existing, cands, atts, i)| < Cap
  }

  /** The fast path applies: enough cached clips and no forced refresh. */
  predicate UsesCache(existing: seq<ClipRecord>, forceRefresh: string) {
    |existing| >= MinCached && forceRefresh != "true"
  }

  /** Walking further only adds records at the end. */
  lemma {:induction false} FreshPrefix(existing: seq<ClipRecord>, cands: seq<Candidate>, atts: seq<Attempt>, i: nat, j: nat)
    requires |atts| == |cands| && i <= j <= |cands|
    ensures Fresh(existing, cands, atts, i) <= Fresh(existing, cands, atts, j)
    decreases j - i
  {
    if i < j {
      FreshPrefix(existing, cands, atts, i, j - 1);
    }
  }

  /** `attempted` lists, in increasing order, exactly the candidates before
      position `i` that the walk downloads. */
  predicate AttemptedBefore(existing: seq<ClipRecord>, cands: seq<Candidate>, atts: seq<Attempt>,
                            attempted: seq<nat>, i: nat)
    requires |atts| == |cands| && i <= |cands|
  {
    (forall k :: 0 <= k < |attempted| ==> attempted[k] < i)
    && (forall k, l :: 0 <= k < l < |attempted| ==> attempted[k] < attempted[l])
    && (forall j :: 0 <= j < i ==> (j in attempted <==> ShouldAttempt(existing, cands, atts, j)))
  }

  lemma AttemptedStep(existing: seq<ClipRecord>, cands: seq<Candidate>, atts: seq<Attempt>,
                      attempted: seq<nat>, i: nat)
    requires |atts| == |cands| && i < |cands|
    requires AttemptedBefore(existing, cands, atts, attempted, i)
    ensures ShouldAttempt(existing, cands, atts, i) ==>
      AttemptedBefore(existing, cands, atts, attempted + [i], i + 1)
    ensures !ShouldAttempt(existing, cands, atts, i) ==>
      AttemptedBefore(existing, cands, atts, attempted, i + 1)
  {
  }

  /** Once the accumulator is full no later candidate is downloaded. */
  lemma AttemptedStop(existing: seq<ClipRecord>, cands: seq<Candidate>, atts: seq<Attempt>,
                      attempted: seq<nat>, i: nat)
    requires |atts| == |cands| && i <= |cands|
    requires AttemptedBefore(existing, cands, atts, attempted, i)
    requires |existing| + |Fresh(existing, cands, atts, i)| >= Cap
    ensures AttemptedBefore(existing, cands, atts, attempted, |cands|)
  {
    forall j | i <= j < |cands|
      ensures !ShouldAttempt(existing, cands, atts, j)
    {
      FreshPrefix(existing, cands, atts, i, j);
    }
  }

  /** Once the accumulator is full the rest of the walk adds nothing. */
  lemma ClipsStop(existing: seq<ClipRecord>, cands: seq<Candidate>, atts: seq<Attempt>, i: nat)
    requires |atts| == |cands| && i <= |cands|
    requires |Fresh(existing, cands, atts, i)| <= Room(existing)
    requires |existing| + |Fresh(existing, cands, atts, i)| >= Cap
    ensures existing + Fresh(existing, cands, atts, i) == RefreshClips(existing, cands, atts)
  {
    FreshPrefix(existing, cands, atts, i, |cands|);
  }

  /** With the whole list walked within the cap, nothing is cut. */
  lemma ClipsEnd(existing: seq<ClipRecord>, cands: seq<Candidate>, atts: seq<Attempt>)
    requires |atts| == |cands|
    requires |Fresh(existing, cands, atts, |cands|)| <= Room(existing)
    ensures existing + Fresh(existing, cands, atts, |cands|) == RefreshClips(existing, cands, atts)
  {
  }

  /** A candidate that is cached or fails to download adds nothing. */
  lemma FreshSame(existing: seq<ClipRecord>, cands: seq<Candidate>, atts: seq<Attempt>, i: nat)
    requires |atts| == |cands| && i < |cands|
    requires !Eligible(existing, cands[i], atts[i])
    ensures Fresh(existing, cands, atts, i + 1) == Fresh(existing, cands, atts, i)
  {
    assert Fresh(existing, cands, atts, i) + [] == Fresh(existing, cands, atts, i);
  }

  /** A candidate that is not cached and downloads adds its record. */
  lemma FreshAppend(existing: seq<ClipRecord>, cands: seq<Candidate>, atts: seq<Attempt>, i: nat)
    requires |atts| == |cands| && i < |cands|
    requires Eligible(existing, cands[i], atts[i])
    ensures existing + Fresh(existing, cands, atts, i + 1)
         == (existing + Fresh(existing, cands, atts, i)) + [Materialize(cands[i], Resolve(cands[i].id, atts[i]).filename)]
    ensures |Fresh(existing, cands, atts, i + 1)| == |Fresh(existing, cands, atts, i)| + 1
  {
    Strings.Assoc(existing, Fresh(existing, cands, atts, i), [Materialize(cands[i], Resolve(cands[i].id, atts[i]).filename)]);
  }

  /** The records of the refresh walk, the accumulator being `existing` at the start. */
  method Refresh(existing: seq<ClipRecord>, cands: seq<Candidate>, atts: seq<Attempt>)
    returns (clips: seq<ClipRecord>, attempted: seq<nat>)
    requires |atts| == |cands|
    ensures clips == RefreshClips(existing, cands, atts)
    ensures AttemptedBefore(existing, cands, atts, attempted, |cands|)
  {
    clips := existing;
    attempted := [];
    var i := 0;
    while i < |cands|
      invariant 0 <= i <= |cands|
      invariant clips == existing + Fresh(existing, cands, atts, i)
      invariant |Fresh(existing, cands, atts, i)| <= Room(existing)
      invariant AttemptedBefore(existing, cands, atts, attempted, i)
    {
      var c := cands[i];
      AttemptedStep(existing, cands, atts, attempted, i);
      if IsCachedId(existing, c.id) {
        FreshSame(existing, cands, atts, i);
        i := i + 1;
        continue;
      }
      if |clips| >= Cap {
        AttemptedStop(existing, cands, atts, attempted, i);
        ClipsStop(existing, cands, atts, i);
        return;
      }
      attempted := attempted + [i];
      var result := Resolve(c.id, atts[i]);
      if result.Downloaded? {
        FreshAppend(existing, cands, atts, i);
        clips := clips + [Materialize(c, result.filename)];
      } else {
        FreshSame(existing, cands, atts, i);
      }
      i := i + 1;
    }
    ClipsEnd(existing, cands, atts);
  }

  /** What the handler answers. */
  datatype Response =
    | ClipsResponse(username: string, total: nat, downloaded: nat, clips: seq<ClipRecord>, cached: bool)
    | BadRequest(error: string)
    | ServerError(error: string)

  /** A query parameter that is present and not empty. */
  predicate Given(p: Option<string>) {
    p.Some? && p.value != ""
  }

  /** The handler. `queried` says whether the upstream was asked for clips and
      `attempted` lists the candidates whose download was started. */
  method PopularClips(
    username: string,
    clientId: Option<string>,
    clientSecret: Option<string>,
    forceRefresh: string,
    listing: Option<seq<DirEntry>>,
    upstream: Result<seq<Candidate>, string>,
    atts: seq<Attempt>)
    returns (resp: Response, queried: bool, attempted: seq<nat>)
    requires upstream.Ok? ==> |atts| == |upstream.value|
    ensures !(Given(clientId) && Given(clientSecret)) ==>
      resp == BadRequest("clientId and clientSecret required") && !queried && attempted == []
    ensures Given(clientId) && Given(clientSecret) ==>
      var existing := CacheIndex.ExistingClips(listing);
      if UsesCache(existing, forceRefresh) then
        resp == ClipsResponse(username, |existing|, |existing|, existing[..if |existing| <= Cap then |existing| else Cap], true)
        && !queried && attempted == []
      else
        queried &&
        match upstream
        case Err(e) => resp == ServerError(e) && attempted == []
        case Ok(cands) =>
          var r := RefreshClips(existing, cands, atts);
          resp == ClipsResponse(username, |r|, |r|, r, false)
          && AttemptedBefore(existing, cands, atts, attempted, |cands|)
  {
    queried, attempted := false, [];
    if !(Given(clientId) && Given(clientSecret)) {
      resp := BadRequest("clientId and clientSecret required");
      return;
    }
    var existing := CacheIndex.ExistingClips(listing);
    resp, queried, attempted := Serve(username, forceRefresh, existing, upstream, atts);
  }

  /** The handler once the credentials are checked and the cache is read. */
  method Serve(
    username: string,
    forceRefresh: string,
    existing: seq<ClipRecord>,
    upstream: Result<seq<Candidate>, string>,
    atts: seq<Attempt>)
    returns (resp: Response, queried: bool, attempted: seq<nat>)
    requires upstream.Ok? ==> |atts| == |upstream.value|
    ensures UsesCache(existing, forceRefresh) ==>
      resp == ClipsResponse(username, |existing|, |existing|, existing[..if |existing| <= Cap then |existing| else Cap], true)
      && !queried && attempted == []
    ensures !UsesCache(existing, forceRefresh) && upstream.Err? ==>
      queried && resp == ServerError(upstream.error) && attempted == []
    ensures !UsesCache(existing, forceRefresh) && upstream.Ok? ==>
      var r := RefreshClips(existing, upstream.value, atts);
      queried && resp == ClipsResponse(username, |r|, |r|, r, false)
      && AttemptedBefore(existing, upstream.value, atts, attempted, |upstream.value|)
  {
    queried, attempted := false, [];
    if |existing| >= MinCached && forceRefresh != "true" {
      var shown := if |existing| <= Cap then existing else existing[..Cap];
      resp := ClipsResponse(username, |existing|, |existing|, shown, true);
      return;
    }
    queried := true;
    match upstream
    case Err(e) =>
      resp := ServerError(e);
    case Ok(cands) =>
      var clips;
      clips, attempted := Refresh(existing, cands, atts);
      resp := ClipsResponse(username, |clips|, |clips|, clips, false);
  }

  /** `fr` is the selection `idx` makes among the first `n` candidates: the
      records of all and only the eligible ones, in increasing position, each
      carrying the file its download resolved. */
  predicate Selection(existing: seq<ClipRecord>, cands: seq<Candidate>, atts: seq<Attempt>, n: nat,
                      idx: seq<nat>, fr: seq<ClipRecord>)
    requires |atts| == |cands| && n <= |cands|
  {
    |idx| == |fr|
    && (forall k :: 0 <= k < |idx| ==>
          (idx[k] < n && Eligible(existing, cands[idx[k]], atts[idx[k]])
           && fr[k] == Materialize(cands[idx[k]], Resolve(cands[idx[k]].id, atts[idx[k]]).filename)))
    && (forall k, l :: 0 <= k < l < |idx| ==> idx[k] < idx[l])
    && (forall i :: 0 <= i < n && Eligible(existing, cands[i], atts[i]) ==> i in idx)
  }

  /** Fresh is exactly the records of the eligible candidates, in upstream
      order: an order-preserving selection of all and only the candidates
      that are not cached and whose download succeeds. */
  lemma {:induction false} FreshIndicesSpec(existing: seq<ClipRecord>, cands: seq<Candidate>, atts: seq<Attempt>, n: nat)
    requires |atts| == |cands| && n <= |cands|
    ensures Selection(existing, cands, atts, n, FreshIndices(existing, cands, atts, n), Fresh(existing, cands, atts, n))
  {
    if n > 0 {
      FreshIndicesSpec(existing, cands, atts, n - 1);
      SelectionStep(existing, cands, atts, n);
    }
  }

  lemma SelectionStep(existing: seq<ClipRecord>, cands: seq<Candidate>, atts: seq<Attempt>, n: nat)
    requires |atts| == |cands| && 0 < n <= |cands|
    requires Selection(existing, cands, atts, n - 1, FreshIndices(existing, cands, atts, n - 1), Fresh(existing, cands, atts, n - 1))
    ensures Selection(existing, cands, atts, n, FreshIndices(existing, cands, atts, n), Fresh(existing, cands, atts, n))
  {
    var idx, fr := FreshIndices(existing, cands, atts, n - 1), Fresh(existing, cands, atts, n - 1);
    var c, a := cands[n - 1], atts[n - 1];
    if Eligible(existing, c, a) {
      var m := Materialize(c, Resolve(c.id, a).filename);
      assert Contribution(existing, c, a) == [m];
      SelectionTake(existing, cands, atts, n, idx, fr);
    } else {
      assert Contribution(existing, c, a) == [];
      assert fr + [] == fr && idx + [] == idx;
      SelectionSkip(existing, cands, atts, n, idx, fr);
    }
  }

  lemma SelectionTake(existing: seq<ClipRecord>, cands: seq<Candidate>, atts: seq<Attempt>, n: nat,
                      idx: seq<nat>, fr: seq<ClipRecord>)
    requires |atts| == |cands| && 0 < n <= |cands|
    requires Selection(existing, cands, atts, n - 1, idx, fr)
    requires Eligible(existing, cands[n - 1], atts[n - 1])
    ensures Selection(existing, cands, atts, n, idx + [n - 1],
                      fr + [Materialize(cands[n - 1], Resolve(cands[n - 1].id, atts[n - 1]).filename)])
  {
  }

  lemma SelectionSkip(existing: seq<ClipRecord>, cands: seq<Candidate>, atts: seq<Attempt>, n: nat,
                      idx: seq<nat>, fr: seq<ClipRecord>)
    requires |atts| == |cands| && 0 < n <= |cands|
    requires Selection(existing, cands, atts, n - 1, idx, fr)
    requires !Eligible(existing, cands[n - 1], atts[n - 1])
    ensures Selection(existing, cands, atts, n, idx, fr)
  {
  }

  /** No record appended on the refresh path has the id of a cached clip, and
      each is the record of a candidate the walk downloaded successfully,
      carrying the file its download resolved, at the place the walk put it. */
  lemma AppendedAreNotCached(existing: seq<ClipRecord>, cands: seq<Candidate>, atts: seq<Attempt>, k: nat)
    requires |atts| == |cands|
    requires |existing| <= k < |RefreshClips(existing, cands, atts)|
    ensures var r := RefreshClips(existing, cands, atts)[k];
      !IsCachedId(existing, r.id) && !r.cached
      && exists i: nat :: i < |cands| && ShouldAttempt(existing, cands, atts, i)
           && Resolve(cands[i].id, atts[i]) == Downloaded(r.localFile)
           && r == Materialize(cands[i], r.localFile)
           && k == |existing| + |Fresh(existing, cands, atts, i)|
  {
    var n := |cands|;
    FreshIndicesSpec(existing, cands, atts, n);
    var fr := Fresh(existing, cands, atts, n);
    var idx := FreshIndices(existing, cands, atts, n);
    var m := k - |existing|;
    assert RefreshClips(existing, cands, atts)[k] == fr[m];
    var i := idx[m];
    assert i < n && Eligible(existing, cands[i], atts[i]);
    assert Resolve(cands[i].id, atts[i]) == Downloaded(fr[m].localFile);
    EligibleAt(existing, cands, atts, i);
    assert idx[|Fresh(existing, cands, atts, i)|] == i;
    assert m == |Fresh(existing, cands, atts, i)|;
    assert ShouldAttempt(existing, cands, atts, i);
  }

  /** An eligible candidate `i` sits in the final index list at the position
      given by the number of records the candidates before it add. */
  lemma EligibleAt(existing: seq<ClipRecord>, cands: seq<Candidate>, atts: seq<Attempt>, i: nat)
    requires |atts| == |cands| && i < |cands|
    requires Eligible(existing, cands[i], atts[i])
    ensures |Fresh(existing, cands, atts, i)| < |FreshIndices(existing, cands, atts, |cands|)|
    ensures FreshIndices(existing, cands, atts, |cands|)[|Fresh(existing, cands, atts, i)|] == i
  {
    FreshIndicesSpec(existing, cands, atts, i);
    FreshIndicesPrefix(existing, cands, atts, i + 1, |cands|);
    assert FreshIndices(existing, cands, atts, i + 1) == FreshIndices(existing, cands, atts, i) + [i];
  }

  /** Walking further only adds positions at the end. */
  lemma {:induction false} FreshIndicesPrefix(existing: seq<ClipRecord>, cands: seq<Candidate>, atts: seq<Attempt>, i: nat, j: nat)
    requires |atts| == |cands| && i <= j <= |cands|
    ensures FreshIndices(existing, cands, atts, i) <= FreshIndices(existing, cands, atts, j)
    decreases j - i
  {
    if i < j {
      FreshIndicesPrefix(existing, cands, atts, i, j - 1);
    }
  }

  /** Conversely, a candidate the walk downloads successfully is appended, at
      the place just after the records of the candidates before it. */
  lemma AttemptedSuccessIsAppended(existing: seq<ClipRecord>, cands: seq<Candidate>, atts: seq<Attempt>, i: nat)
    requires |atts| == |cands| && i < |cands|
    requires ShouldAttempt(existing, cands, atts, i) && Resolve(cands[i].id, atts[i]).Downloaded?
    ensures |existing| + |Fresh(existing, cands, atts, i)| < |RefreshClips(existing, cands, atts)|
    ensures RefreshClips(existing, cands, atts)[|existing| + |Fresh(existing, cands, atts, i)|]
         == Materialize(cands[i], Resolve(cands[i].id, atts[i]).filename)
  {
    var m := Materialize(cands[i], Resolve(cands[i].id, atts[i]).filename);
    var before := Fresh(existing, cands, atts, i);
    FreshAppend(existing, cands, atts, i);
    FreshPrefix(existing, cands, atts, i + 1, |cands|);
    assert Fresh(existing, cands, atts, i + 1) == before + [m];
    var all := Fresh(existing, cands, atts, |cands|);
    assert all[|before|] == m;
    assert |before| < Room(existing);
    assert Take(all, Room(existing))[|before|] == m;
  }

  /** Duplicates among the upstream candidates themselves are not suppressed:
      the same clip listed twice is downloaded and appended twice. */
  lemma UpstreamDuplicatesKept(c: Candidate, a: Attempt)
    requires Resolve(c.id, a).Downloaded?
    ensures var r := RefreshClips([], [c, c], [a, a]);
      |r| == 2 && r[0] == r[1] && r[0].id == c.id
  {
    var one := [Materialize(c, Resolve(c.id, a).filename)];
    assert !IsCachedId([], c.id);
    assert Contribution([], c, a) == one;
    assert Fresh([], [c, c], [a, a], 1) == one;
    assert Fresh([], [c, c], [a, a], 2) == one + one;
  }

  /** When everything fits, nothing is lost to the cap: the response is the
      cache followed by every eligible candidate. */
  lemma NoCapWhenRoom(existing: seq<ClipRecord>, cands: seq<Candidate>, atts: seq<Attempt>)
    requires |atts| == |cands|
    requires |existing| + |Fresh(existing, cands, atts, |cands|)| <= Cap
    ensures RefreshClips(existing, cands, atts) == existing + Fresh(existing, cands, atts, |cands|)
  {
  }

  /** Each candidate adds at most one record. */
  lemma {:induction false} FreshLength(existing: seq<ClipRecord>, cands: seq<Candidate>, atts: seq<Attempt>, n: nat)
    requires |atts| == |cands| && n <= |cands|
    ensures |Fresh(existing, cands, atts, n)| <= n
  {
    if n > 0 {
      FreshLength(existing, cands, atts, n - 1);
    }
  }

  /** When the cache and all the candidates together fit under the cap, every
      candidate that is not cached is downloaded, and only those. */
  lemma AllNewAttemptedWhenRoom(existing: seq<ClipRecord>, cands: seq<Candidate>, atts: seq<Attempt>, i: nat)
    requires |atts| == |cands| && i < |cands|
    requires |existing| + |cands| <= Cap
    ensures ShouldAttempt(existing, cands, atts, i) <==> !IsCachedId(existing, cands[i].id)
  {
    FreshLength(existing, cands, atts, i);
  }
}
