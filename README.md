# Clip cache reconciliation, modelled in Dafny

The server keeps a flat directory of downloaded clip videos for a streamer
and serves them from there. The directory is the only state: the list of
cached clips is rebuilt from the file names on every request. This project
models the part of `server.js` that decides what is cached and what to fetch.

- **Safe file names** (`filenames.dfy`). A clip title goes through a fixed
  chain of rewrites. Characters outside `[A-Za-z0-9\s_-]` are dropped.
  Whitespace runs become one space. The result is cut to 30 characters and
  trimmed, and the remaining whitespace becomes `_`. The downloaded file is
  named `<id>-<safeTitle>.<ext>`.
- **Cache index** (`cache_index.dfy`). `getExistingClips` keeps the `.mp4`
  names of the listing. It parses each name back into an id (the text before
  the first `-`) and a title. It sorts the records newest first by creation
  time, with a stable sort. A listing that cannot be read gives no clips.
- **Download resolution** (`downloader.dfy`). A download counts as a success
  only after a clean exit (code 0). The directory read afterwards must then
  hold a name starting with `<id>-`. The first such name is reported.
- **Reconciler** (`reconciler.dfy`). The `/popular-clips/:username` handler
  first checks the credentials. With at least 10 cached clips and no forced
  refresh it answers from the cache. Otherwise it walks the upstream
  candidates in order. A candidate whose id is cached is skipped. The walk
  stops once the accumulator holds 20 clips. Every other candidate is
  downloaded, and appended when the download succeeds.
- **Sweep** (`sweeper.dfy`). `/cleanup` unlinks every `.mp4` file modified
  more than 48 hours ago and reports how many it unlinked. The directory is
  a class whose entry list the sweep updates in place.

`strings.dfy` holds the JavaScript string operations the code relies on,
`wrappers.dfy` the `Option` and `Result` types, and `clips.dfy` the shared
records. Timestamps are integer milliseconds.

Inputs the server gets from the outside world are parameters of the model:

- the directory listing (`Option<seq<DirEntry>>`, `None` when reading fails);
- the upstream candidate list (`Result<seq<Candidate>, string>`, `Err` when
  `getPopularClips` throws);
- for each candidate, how its download process would end and what listing
  would be read after it (`Attempt`);
- the current time `now` of the sweep, one instant for the whole listing.

The refresh loop and the sweep loop are methods with loops. Each is proved
against a specification function: `RefreshClips` and the `ShouldAttempt`
predicate for the loop, `Retained` and `ExpiredCount` for the sweep. The
properties of the source are proved as lemmas about those functions.

Three consequences of the code are worth stating plainly:

- Every candidate that is not cached is downloaded while the accumulator
  holds fewer than 20 clips. With 3 cached clips and 5 upstream candidates,
  2 of them cached, that is 3 download attempts
  (`Reconciler.AllNewAttemptedWhenRoom`).
- On the cached path, `total` is the full cache size; only the returned
  list is cut to 20. With `forceRefresh=true` and 20 or more cached clips,
  the whole cache is returned uncut (`Reconciler.RefreshClips`,
  `Reconciler.Serve`).
- In `/cleanup`, a failing `statSync` or `unlinkSync` aborts the whole sweep
  with status 500, after the files already unlinked. That error path is
  listed under "Left out".

The model also states two edge cases of the naming scheme as lemmas:

- An id that contains `-` is cut at its first `-` when the cache is
  indexed, so it never matches its own upstream id (`CacheIndex.DashedIdIsCut`).
- Resolution picks the first listed name with the `<id>-` prefix. That name
  can belong to another clip whose id extends this one
  (`Downloader.PrefixCollision`).

## Model

| member | source | states |
|---|---|---|
| Strings.BeforeFirst | server.js:130 | `split('-')[0]`: the result is a prefix of the name with no `-` in it, and when shorter than the name it stops right at a `-` |
| Strings.IndexOf | server.js:133 | the position `replace` with a string pattern acts on: an occurrence of the pattern, and no occurrence starts earlier |
| Strings.ReplaceFirst | server.js:133 | `replace` with a string pattern: a string without the pattern is unchanged; otherwise the first occurrence, and only it, is replaced |
| Strings.ReplaceChar | server.js:133 | `replace(/_/g, ' ')`: same length, and every position holds the replacement exactly where the input held `_` |
| CacheIndex.IsMp4EndsWith | server.js:123 | the character-wise `.mp4` test holds exactly when the name ends with `.mp4` |
| Filenames.StripDisallowed | server.js:195 | only characters of `[A-Za-z0-9\s_-]` remain, the length never grows, a title already made of them is unchanged, and a single character is kept iff it is in the class |
| Filenames.StripDisallowedConcat | server.js:195 | the rewrite works character by character: it distributes over concatenation, so together with the single-character case it keeps exactly the allowed characters, in order |
| Filenames.CollapseWs | server.js:196 | empty exactly when the input is; first character is whitespace iff the input's is; every remaining whitespace is a single space, no two are adjacent, and the characters other than whitespace are those of the input, in order |
| Filenames.CollapseWsWord | server.js:196 | a word without whitespace is copied unchanged in front of the rest |
| Filenames.CollapseWsRun | server.js:196 | a maximal run of whitespace becomes exactly one space |
| Filenames.Truncate | server.js:197 | `substring(0, n)`: a prefix of the input, the whole string when it is at most `n` long, and exactly `n` characters otherwise |
| Filenames.TrimWs | server.js:198 | `trim()`: the result is a slice of the input with only whitespace around it, and it neither starts nor ends with whitespace |
| Filenames.WsToUnderscore | server.js:199 | same length; each whitespace becomes `_` and every other character is kept |
| Filenames.SafeTitle | server.js:194-199 | the safe title uses only `[A-Za-z0-9_-]`, so it has no whitespace, and has at most 30 characters |
| Filenames.SafeTitleFixes | server.js:194-199 | a title already made of `[A-Za-z0-9_-]` and at most 30 long passes through every rewrite unchanged |
| Filenames.SafeTitleIdempotent | server.js:194-199 | sanitising a safe title again changes nothing |
| Filenames.SafeTitleTwoWords | server.js:194-199 | two safe words around a space followed by a disallowed character, such as `Some Clip!`, become the words joined by `_` |
| Filenames.BaseFilename | server.js:201 | the base name starts with `<id>-`, is at most 31 characters longer than the id, and after `<id>-` holds only `[A-Za-z0-9_-]` |
| CacheIndex.ParseName | server.js:129-133 | the parsed id is a `-`-free prefix of the file name, followed in the name by `-` when it is not the whole name |
| CacheIndex.ToRecord | server.js:135-145 | the record of a cached file carries the id and the title parsed from its name (the id a `-`-free prefix of it), the name itself, the birth time, no URL, creator `Cached`, duration 30, 0 views, and is marked cached |
| CacheIndex.Mp4Records | server.js:122-145 | the records are the order-preserving selection of the `.mp4` entries: one record per `.mp4` entry, at increasing listing positions, none for other entries |
| CacheIndex.Mp4Positions | server.js:123 | the positions the filter keeps are all and only those of `.mp4` entries, in increasing order |
| CacheIndex.SortNewestFirst | server.js:146 | the sorted records are ordered newest first and are a permutation of the input |
| CacheIndex.SortStable | server.js:146 | for every creation time, the records created then keep their input order (the sort is stable) |
| CacheIndex.ExistingClips | server.js:120-151 | an unreadable listing gives no clips; otherwise the catalogue is ordered newest first and is a permutation of the `.mp4` records |
| CacheIndex.CatalogueSize | server.js:122-146 | the catalogue has exactly as many clips as the listing has `.mp4` entries |
| CacheIndex.ExistingClipsStable | server.js:146 | clips with equal birth times keep the order of the directory listing |
| CacheIndex.ExistingClipsRecords | server.js:135-145 | every cached record names an `.mp4` file, carries the id and the title parsed from it, is marked cached, and has creator `Cached`, duration 30 and 0 views |
| CacheIndex.Mp4EntryIsCached | server.js:120-146 | every `.mp4` entry of a readable listing appears in the catalogue |
| CacheIndex.ParseFileName | server.js:129-133 | parsing `<id>-<safe>.mp4` gives back the id and the safe part with `_` turned into spaces, when the id has no `-` |
| CacheIndex.ParseBaseFilename | server.js:129-133 | the round trip of the naming scheme: the name a download is given parses back to its clip id and sanitised title |
| CacheIndex.DownloadedFileIsCached | server.js:120-146 | a downloaded `<id>-<safeTitle>.mp4` file shows up in the next catalogue under its own id, when the id has no `-` |
| CacheIndex.DashedIdIsCut | server.js:130 | an id containing `-` is indexed as only its part before the first `-` |
| Downloader.FindClipFile | server.js:233 | a name is found iff some listed name starts with `<id>-`, and the one found is the first such |
| Downloader.Resolve | server.js:229-253 | success iff a clean exit (code 0) is followed by a readable listing holding a `<id>-` name; the file reported is the first such name; a failed spawn, a signal, another exit code or an unreadable listing give no file |
| Downloader.WrittenFileIsFound | server.js:201-237 | a clean exit that left any `<id>-<safeTitle>.<ext>` file in the listing resolves to a success |
| Downloader.PrefixCollision | server.js:233 | the resolved file can be another clip's: with `ab-cd-Old.mp4` listed before `ab-New.mp4`, clip `ab` resolves to `ab-cd-Old.mp4` |
| Reconciler.RefreshClips | server.js:72-101 | the refresh result starts with the cache unchanged, holds at most 20 clips unless the cache alone has more, and with 20 or more cached clips is exactly the cache |
| Reconciler.Refresh | server.js:72-101 | the loop returns the clips of `RefreshClips`, and downloads, in increasing order, exactly the candidates that are not cached and are reached while the accumulator holds fewer than 20 clips |
| Reconciler.PopularClips | server.js:40-117 | missing or empty credentials give 400 with no upstream query; 10 or more cached clips without `forceRefresh=true` give the cache (total = cache size, at most 20 clips listed, `cached` true) with no query and no download; otherwise upstream is queried, an upstream error gives 500 with no download, and success gives the refresh result with total = downloaded = its length and `cached` false |
| Reconciler.Serve | server.js:49-108 | with the cache read: the cached answer with no query when the cache suffices, otherwise a query whose error gives 500 with no download and whose success gives the refresh result and exactly the downloads of `ShouldAttempt` |
| Reconciler.FreshIndicesSpec | server.js:74-97 | the records the walk can append are exactly those of the candidates that are not cached and whose download succeeds, in upstream order, each carrying its resolved file |
| Reconciler.FreshPrefix | server.js:74-101 | walking further only appends: the records from a shorter walk are a prefix of those from a longer one |
| Reconciler.AppendedAreNotCached | server.js:76-95 | no appended record has a cached id; each is the record of a candidate the walk downloaded (`ShouldAttempt`) and that succeeded, with the file its download resolved, not marked cached, placed right after the records of the candidates before it |
| Reconciler.AttemptedSuccessIsAppended | server.js:76-95 | conversely, every candidate the walk downloads whose download succeeds is appended, right after the records of the candidates before it |
| Reconciler.UpstreamDuplicatesKept | server.js:76 | duplicates are suppressed only against the cache: a candidate listed twice upstream is downloaded and appended twice |
| Reconciler.NoCapWhenRoom | server.js:82 | when the cache and all successful downloads fit in 20, none is dropped |
| Reconciler.FreshLength | server.js:74-96 | each candidate adds at most one record to the accumulator |
| Reconciler.AllNewAttemptedWhenRoom | server.js:74-88 | when the cache and all candidates fit in 20, a candidate is downloaded iff it is not cached |
| Reconciler.Materialize | server.js:90-95 | a downloaded record keeps every field of the candidate, including its duration, carries the resolved file, and is not marked cached |
| Sweeper.RetainedSpec | server.js:169-180 | the sweep keeps exactly the entries that are not `.mp4` files older than 48 hours |
| Sweeper.SweepCount | server.js:167-183 | every entry is either kept or counted as deleted |
| Sweeper.SweepAgain | server.js:164-188 | a second sweep at the same instant deletes nothing and leaves the directory as it is |
| Sweeper.RetentionBoundary | server.js:173-176 | a file exactly 48 hours old is kept, one a millisecond older is deleted, and a non-`.mp4` file is kept at any age |
| Sweeper.Expired | server.js:170-176 | a file is deleted iff it is an `.mp4` file whose age in hours, the millisecond difference divided by 3 600 000, exceeds 48 |
| Sweeper.Directory.Unlink | server.js:177 | the directory loses the entry of that name and nothing else, and its names stay distinct |
| Sweeper.Directory.Examine | server.js:169-180 | one file of the listing: it is unlinked iff it is an expired `.mp4` file, the directory moves to the next sweep state with its names still distinct, and the count grows by one exactly then |
| Sweeper.Directory.SweepLoop | server.js:167-182 | the loop over the listing read at the start ends with the retained entries at their places, distinct names, and the count of expired `.mp4` files |
| Sweeper.ExpiredCountBetween | server.js:169-176 | with the clock read once per file at instants between `now` and `later`, the sweep deletes at least as many files as a sweep at `now` and at most as many as one at `later` |
| Sweeper.Directory.Sweep | server.js:164-185 | the directory afterwards holds exactly the retained entries, in order, still with distinct names, and the reported count is the number of expired `.mp4` files |

## Left out

- HTTP routing, CORS, static file serving, `/health`, `/list-clips` and `listen`: plumbing around the core.
- `getPopularClips` and `fetchWithTimeout`: the token exchange, user lookup, period arithmetic and the 10-second timeout are outside the core; their outcome is the `upstream` input.
- The `limit` and `period` parameters: they only shape the upstream query.
- The `yt-dlp` process: its arguments, output and the files it writes are not modelled; only its outcome and the listing read after it are inputs.
- Console logging, `localUrl` and `encodeURIComponent`: presentation only.
- The `success: true` field of the JSON answers: it is a constant.
- Reconciler.PopularClips: a `statSync` failure inside `getExistingClips` discards the whole listing; the model stands for it with an unreadable listing (`None`).
- Sweeper.Directory.Sweep: a `statSync` or `unlinkSync` failure, and an unreadable directory, end the sweep with status 500 after the files already unlinked; this error path is not modelled.
- Sweeper.Directory.Sweep: the source reads the clock (`Date.now()`) once per `.mp4` file inside the loop; the model fixes one instant `now` for the whole sweep. `Sweeper.ExpiredCountBetween` bounds the difference: a clock read per file between `now` and `later` deletes between the counts of a sweep at `now` and one at `later`.
- Sweeper.Expired: the age in hours is a floating-point division compared with `> 48`; the model states it in exact arithmetic, which agrees with the floating-point test except for rounding at differences beyond double precision.
- `\s` is modelled on ASCII whitespace only; the Unicode spaces JavaScript also matches are not modelled, nor UTF-16 code units apart from `char`.
- Reconciler.Materialize: the `cached` field of a downloaded record is left unset by the source; the model sets it to false.
- Concurrent requests sharing the directory are not modelled; each request is a single sequential run over its inputs.
- ISO-8601 timestamp strings are modelled as integer milliseconds.
