/**
 * The media map both scripts read and write (`data/venues_media.json`):
 * venue slug to a record with a hero picture, a gallery and a timestamp.
 * Fields a script does not know are kept as `extra`.
 */
module MediaDb {
  import opened Optional
  import opened Text

  datatype MediaRecord = MediaRecord(
    hero: Option<string>,
    gallery: Option<seq<string>>,
    updated: Option<string>,
    extra: map<string, string>)

  const EmptyRecord := MediaRecord(None, None, None, map[])

  type Db = map<string, MediaRecord>

  /** Why a script stops with exit code 1 instead of writing the map. */
  datatype Failure = Usage | MissingVenue | MissingSource | NoImages

  datatype Outcome = Updated(db: Db) | Failed(failure: Failure)

  /** `/${path.posix.join('media', dir, file)}` for plain segments. */
  function MediaUrl(dir: string, file: string): (url: string)
    ensures |url| == |dir| + |file| + 8
  {
    "/media/" + dir + "/" + file
  }

  /** The picture's file name is what follows the last slash of its URL. */
  lemma MediaUrlFile(dir: string, file: string)
    requires '/' !in file
    ensures var url := MediaUrl(dir, file);
      LastIndexOf(url, '/') == Some(|url| - |file| - 1) &&
      url[|url| - |file|..] == file
  {
    var url := MediaUrl(dir, file);
    var k := |url| - |file| - 1;
    assert url[k] == '/';
    assert url[k + 1..] == file;
  }

  /** `after` differs from `before` at most in `key`, which it holds. */
  predicate ReplacesOnly(before: Db, after: Db, key: string) {
    after.Keys == before.Keys + {key} &&
    forall k :: k in before && k != key ==> after[k] == before[k]
  }
}
