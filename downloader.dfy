/**
 The part of `downloadClipLocally` that decides the outcome of one download.
 The `yt-dlp` process itself is outside the model: what the model sees of it
 is how it ended and the directory listing read after it ended.
 */
module Downloader {
  import opened Wrappers
  import opened Strings
  import opened Clips
  import Filenames

  /** How the download process ended: a `close` event with an exit code, a
      `close` event without one (killed by a signal), or an `error` event
      (the process could not be spawned). */
  datatype ProcessOutcome = Exited(code: int) | Signalled | SpawnFailed

  /** One download attempt as the server observes it: the process outcome and
      the names `readdirSync` returns afterwards (`None` when it throws). */
  datatype Attempt = Attempt(process: ProcessOutcome, listingAfter: Option<seq<string>>)

  /** The value the promise resolves to; it never rejects. */
  datatype DownloadResult = Downloaded(filename: string) | NotDownloaded

  /** `names.findIndex(f => f.startsWith(prefix))`, searching from position `i`. */
  function FindPrefixFrom(names: seq<string>, prefix: string, i: nat): (r: Option<nat>)
    requires i <= |names|
    ensures r.Some? ==> i <= r.value < |names| && StartsWith(names[r.value], prefix)
    ensures forall k :: i <= k < |names| && (r.None? || k < r.value) ==> !StartsWith(names[k], prefix)
    decreases |names| - i
  {
    if i == |names| then None
    else if StartsWith(names[i], prefix) then Some(i)
    else FindPrefixFrom(names, prefix, i + 1)
  }

  /** `names[k]` is the first listed name starting with `prefix`. */
  predicate FirstWithPrefix(names: seq<string>, prefix: string, k: int) {
    0 <= k < |names| && StartsWith(names[k], prefix)
    && forall j :: 0 <= j < k ==> !StartsWith(names[j], prefix)
  }

  /** `names.find(f => f.startsWith(`${id}-`))`: the first listed name of the clip. */
  function FindClipFile(names: seq<string>, id: string): (r: Option<string>)
    ensures r.Some? <==> exists k :: 0 <= k < |names| && StartsWith(names[k], id + "-")
    ensures r.Some? ==> exists k :: FirstWithPrefix(names, id + "-", k) && names[k] == r.value
  {
    match FindPrefixFrom(names, id + "-", 0)
    case None => None
    case Some(k) =>
      assert FirstWithPrefix(names, id + "-", k);
      Some(names[k])
  }

  /** The `close` and `error` handlers: success only after a clean exit, and
      then only when the listing read afterwards holds a name starting with
      `<id>-`, the first such name being the one reported. */
  function Resolve(id: string, a: Attempt): (r: DownloadResult)
    ensures r.Downloaded? <==>
      a.process == Exited(0) && a.listingAfter.Some?
      && exists k :: 0 <= k < |a.listingAfter.value| && StartsWith(a.listingAfter.value[k], id + "-")
    ensures r.Downloaded? ==> exists k ::
      FirstWithPrefix(a.listingAfter.value, id + "-", k) && a.listingAfter.value[k] == r.filename
  {
    if a.process != Exited(0) then NotDownloaded
    else match a.listingAfter
      case None => NotDownloaded
      case Some(names) =>
        match FindClipFile(names, id)
        case None => NotDownloaded
        case Some(f) => Downloaded(f)
  }

  /** Every name the process can write from its output template
      `<id>-<safeTitle>.%(ext)s` starts with `<id>-`, so a clean exit that
      left such a file in the listing is a success. */
  lemma WrittenFileIsFound(c: Candidate, ext: string, names: seq<string>)
    requires Filenames.BaseFilename(c.id, c.title) + "." + ext in names
    ensures Resolve(c.id, Attempt(Exited(0), Some(names))).Downloaded?
  {
    Assoc(Filenames.BaseFilename(c.id, c.title), ".", ext);
    Filenames.BaseFilenameSplit(c.id, c.title, "." + ext);
    PrefixedNameIsFound(c.id, Filenames.SafeTitle(c.title) + ("." + ext), names);
  }

  /** A clean exit whose listing holds some `<id>-...` name is a success. */
  lemma PrefixedNameIsFound(id: string, rest: string, names: seq<string>)
    requires (id + "-") + rest in names
    ensures Resolve(id, Attempt(Exited(0), Some(names))).Downloaded?
  {
    var k :| 0 <= k < |names| && names[k] == (id + "-") + rest;
    assert StartsWith(names[k], id + "-");
  }

  /** The reported file need not be the one that was just written: the first
      listed name with the prefix wins, even a file of clip `ab-cd` when the
      clip being downloaded is `ab`. */
  lemma PrefixCollision()
    ensures Resolve("ab", Attempt(Exited(0), Some(["ab-cd-Old.mp4", "ab-New.mp4"])))
      == Downloaded("ab-cd-Old.mp4")
  {
    assert StartsWith("ab-cd-Old.mp4", "ab-");
  }
}
