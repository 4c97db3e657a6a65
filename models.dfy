/** The two MongoDB collections (models/Video.js, models/Folder.js) and the
    Wasabi bucket, as the state every route handler reads and updates. */
module Models {

  /** Both ids are the hex strings of MongoDB ObjectIds. */
  type VideoId = string
  type FolderId = string

  /** A Video document with its `_id`. `url` is the bucket key of the bytes. */
  datatype Video = Video(
    id: VideoId,
    name: string,
    url: string,
    size: nat,
    duration: nat,
    folder: FolderId,
    captionsReady: bool)

  /** A Folder document with its `_id`; `videos` is the ordered list of
      references to Video documents. */
  datatype Folder = Folder(id: FolderId, name: string, videos: seq<VideoId>)

  /** A snapshot of everything the server stores: both collections keyed by
      `_id`, and the set of keys present in the bucket. */
  datatype Db = Db(
    folders: map<FolderId, Folder>,
    videos: map<VideoId, Video>,
    objects: set<string>)

  /** Every document is stored under its own `_id`. This is the only invariant
      the server keeps: folder lists and video back-references are not kept
      consistent with each other. */
  ghost predicate Consistent(db: Db) {
    && (forall id :: id in db.folders ==> db.folders[id].id == id)
    && (forall id :: id in db.videos ==> db.videos[id].id == id)
  }

  /** No `captionsReady` flag went from true back to false. */
  ghost predicate CaptionsMonotone(before: map<VideoId, Video>, after: map<VideoId, Video>) {
    forall id :: id in before && id in after && before[id].captionsReady ==> after[id].captionsReady
  }

  /** The database and the bucket together, updated in place by the handlers. */
  class Store {
    var folders: map<FolderId, Folder>
    var videos: map<VideoId, Video>
    var objects: set<string>

    constructor ()
      ensures folders == map[] && videos == map[] && objects == {}
    {
      folders, videos, objects := map[], map[], {};
    }

    function Snapshot(): Db
      reads this
    {
      Db(folders, videos, objects)
    }

    ghost predicate Valid()
      reads this
    {
      Consistent(Snapshot())
    }
  }
}
