/**
 The records the server passes around. Timestamps are integer milliseconds
 since the epoch; the server's ISO-8601 strings are projections of them.
 */
module Clips {
  import opened Wrappers

  /** One entry of the clips directory: its file name and the two file-system
      timestamps the server reads (`birthtime` for ordering, `mtime` for retention). */
  datatype DirEntry = DirEntry(name: string, birthtime: int, mtime: int)

  /** A clip as reported by the upstream clips listing. */
  datatype Candidate = Candidate(
    id: string,
    title: string,
    url: string,
    creator: string,
    duration: int,
    views: int,
    created: int)

  /** A clip in a response. Records derived from the directory have no `url` and
      `cached == true`; records of fresh downloads carry the candidate's metadata,
      its `url` and `cached == false` (the source leaves the flag undefined). */
  datatype ClipRecord = ClipRecord(
    id: string,
    title: string,
    url: Option<string>,
    creator: string,
    duration: int,
    views: int,
    created: int,
    localFile: string,
    cached: bool)
}
