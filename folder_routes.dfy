/** routes/folderRoutes.js: creating a folder, finding one by name, and the
    cascading folder delete. The cascade visits the folder's populated
    videos in order; the local-file step and the record delete of each visit
    are outcome parameters, and so is the final folder delete. */
module FolderRoutes {
  import opened Common
  import opened Seqs
  import opened Models
  import VideoRoutes

  // ---------------------------------------------------------------------
  // POST /api/folders

  /** `new Folder({ name }).save()`: Mongoose rejects a missing or empty name
      (required String), and the save can fail on a taken `_id` or a store
      error; `newId` is the ObjectId it would assign. */
  method CreateFolder(st: Store, name: Option<string>, newId: FolderId, saved: bool) returns (r: Reply<Folder>)
    requires st.Valid()
    modifies st
    ensures st.Valid()
    ensures st.videos == old(st.videos) && st.objects == old(st.objects)
    ensures (name.None? || name.value == "" || newId in old(st.folders) || !saved) ==>
      r == ServerError && st.folders == old(st.folders)
    ensures !(name.None? || name.value == "" || newId in old(st.folders) || !saved) ==>
      && r == Created(Folder(newId, name.value, []))
      && st.folders == old(st.folders)[newId := Folder(newId, name.value, [])]
  {
    if name.None? || name.value == "" || newId in st.folders || !saved {
      return ServerError;
    }
    var folder := Folder(newId, name.value, []);
    st.folders := st.folders[newId := folder];
    return Created(folder);
  }

  // ---------------------------------------------------------------------
  // GET /api/folders/name/:name

  /** Some folder is named exactly `name`. */
  predicate NameTaken(folders: map<FolderId, Folder>, name: string) {
    exists id :: id in folders && folders[id].name == name
  }

  /** `Folder.findOne({ name })`. Names are not unique, and which of several
      equally named folders comes back is left open. */
  method FindFolderByName(db: Db, name: string) returns (r: Reply<Folder>)
    ensures r.Ok? || r.NotFound?
    ensures r.NotFound? <==> !NameTaken(db.folders, name)
    ensures r.Ok? ==> r.body.name == name && r.body in db.folders.Values
  {
    if NameTaken(db.folders, name) {
      var id :| id in db.folders && db.folders[id].name == name;
      return Ok(db.folders[id]);
    }
    return NotFound;
  }

  /** After a folder is created, its name can be found, though the folder
      found may be an older one with the same name. */
  lemma CreatedNameIsFound(folders: map<FolderId, Folder>, newId: FolderId, name: string)
    ensures NameTaken(folders[newId := Folder(newId, name, [])], name)
  {
    var after := folders[newId := Folder(newId, name, [])];
    assert newId in after && after[newId].name == name;
  }

  // ---------------------------------------------------------------------
  // DELETE /api/folders/:folderId

  /** The ids of a folder's list that still have a document: what
      `populate("videos")` keeps, in list order. */
  function Present(ids: seq<VideoId>, videos: map<VideoId, Video>): (ks: seq<VideoId>)
    ensures forall id :: id in ks <==> id in ids && id in videos
    ensures IsSubseq(ks, ids)
    ensures forall id :: multiset(ks)[id] == if id in videos then multiset(ids)[id] else 0
  {
    FilterIsSubseq(ids, id => id in videos);
    FilterMultiset(ids, id => id in videos);
    Filter(ids, id => id in videos)
  }

  /** `populate("videos")`: the documents of the present ids, in list order. */
  function Populate(ids: seq<VideoId>, videos: map<VideoId, Video>): (vs: seq<Video>)
    ensures |vs| == |Present(ids, videos)|
    ensures forall j :: 0 <= j < |vs| ==> vs[j] == videos[Present(ids, videos)[j]]
  {
    var ks := Present(ids, videos);
    seq(|ks|, j requires 0 <= j < |ks| => videos[ks[j]])
  }

  function IdsOf(vs: seq<Video>): set<VideoId> {
    set v | v in vs :: v.id
  }

  /** In a consistent store the populated documents carry exactly the listed
      ids that have a document. */
  lemma PopulatedIds(ids: seq<VideoId>, videos: map<VideoId, Video>)
    requires forall id :: id in videos ==> videos[id].id == id
    ensures forall id :: id in IdsOf(Populate(ids, videos)) <==> id in ids && id in videos
  {
    var ks := Present(ids, videos);
    var vs := Populate(ids, videos);
    forall id | id in ids && id in videos ensures id in IdsOf(vs) {
      var j :| 0 <= j < |ks| && ks[j] == id;
      assert vs[j] == videos[id];
    }
  }

  /** One visit of the loop: the local-file step on lines 54-55 and
      `Video.findByIdAndDelete`. */
  datatype VideoStep = VideoStep(localFileOk: bool, recordDeleted: bool)

  predicate StepOk(s: VideoStep) {
    s.localFileOk && s.recordDeleted
  }

  /** The index of the first failing visit among the first `n`, or `n`. */
  function FirstFailure(step: nat -> VideoStep, n: nat): (k: nat)
    ensures k <= n
    ensures forall j :: 0 <= j < k ==> StepOk(step(j))
    ensures k < n ==> !StepOk(step(k))
  {
    if n == 0 then 0
    else
      var k := FirstFailure(step, n - 1);
      if k < n - 1 then k else if StepOk(step(n - 1)) then n else n - 1
  }

  lemma FirstFailureIs(step: nat -> VideoStep, n: nat, i: nat)
    requires i < n && !StepOk(step(i))
    requires forall j :: 0 <= j < i ==> StepOk(step(j))
    ensures FirstFailure(step, n) == i
  {
  }

  datatype CascadeOutcome = CascadeOutcome(db: Db, reply: Reply<()>)

  /** The cascade: a missing folder answers 404; otherwise the visits before
      the first failing one have deleted their records; a failure anywhere
      answers 500 and keeps the folder. */
  function DeleteFolderSpec(db: Db, folderId: FolderId, step: nat -> VideoStep, folderDeleted: bool): (o: CascadeOutcome)
    ensures o.reply == NotFound || o.reply == ServerError || o.reply == Ok(())
    ensures o.reply.NotFound? <==> folderId !in db.folders
    ensures o.reply.Ok? ==> folderDeleted && o.db.folders == db.folders - {folderId}
    ensures !o.reply.Ok? ==> o.db.folders == db.folders
    ensures o.db.objects == db.objects
    ensures forall id :: id in o.db.videos ==> id in db.videos && o.db.videos[id] == db.videos[id]
  {
    if folderId !in db.folders then CascadeOutcome(db, NotFound)
    else
      var pop := Populate(db.folders[folderId].videos, db.videos);
      var k := FirstFailure(step, |pop|);
      var visited := db.(videos := db.videos - IdsOf(pop[..k]));
      if k < |pop| || !folderDeleted then CascadeOutcome(visited, ServerError)
      else CascadeOutcome(visited.(folders := db.folders - {folderId}), Ok(()))
  }

  method DeleteFolder(st: Store, folderId: FolderId, step: nat -> VideoStep, folderDeleted: bool) returns (r: Reply<()>)
    requires st.Valid()
    modifies st
    ensures st.Valid()
    ensures CascadeOutcome(st.Snapshot(), r) == DeleteFolderSpec(old(st.Snapshot()), folderId, step, folderDeleted)
  {
    if folderId !in st.folders {
      return NotFound;
    }
    var folder := st.folders[folderId];
    var pop := Populate(folder.videos, st.videos);
    var k := DeleteVisited(st, pop, step);
    if k < |pop| || !folderDeleted {
      return ServerError;
    }
    st.folders := st.folders - {folderId};
    return Ok(());
  }

  /** The `for ... of folder.videos` loop: each visit deletes its record,
      and the first failing visit ends the loop; `k` is where it ended. */
  method DeleteVisited(st: Store, pop: seq<Video>, step: nat -> VideoStep) returns (k: nat)
    requires st.Valid()
    modifies st
    ensures st.Valid()
    ensures k == FirstFailure(step, |pop|)
    ensures st.Snapshot() == old(st.Snapshot()).(videos := old(st.videos) - IdsOf(pop[..k]))
  {
    for i := 0 to |pop|
      invariant st.Valid()
      invariant st.folders == old(st.folders) && st.objects == old(st.objects)
      invariant st.videos == old(st.videos) - IdsOf(pop[..i])
      invariant forall j :: 0 <= j < i ==> StepOk(step(j))
    {
      var s := step(i);
      if !s.localFileOk || !s.recordDeleted {
        FirstFailureIs(step, |pop|, i);
        return i;
      }
      VisitRemoves(old(st.videos), pop, i);
      st.videos := st.videos - {pop[i].id};
    }
    return |pop|;
  }

  /** Visit `i` deletes one more record. */
  lemma VisitRemoves(m: map<VideoId, Video>, vs: seq<Video>, i: nat)
    requires i < |vs|
    ensures m - IdsOf(vs[..i + 1]) == (m - IdsOf(vs[..i])) - {vs[i].id}
  {
    assert vs[..i + 1] == vs[..i] + [vs[i]];
    assert IdsOf(vs[..i + 1]) == IdsOf(vs[..i]) + {vs[i].id};
  }

  /** When every visit and the folder delete succeed: 200, the folder is
      gone, every video the folder listed is gone, every other video and
      folder is unchanged, and no bucket object is deleted. */
  lemma CascadeSucceeds(db: Db, folderId: FolderId, step: nat -> VideoStep)
    requires Consistent(db)
    requires folderId in db.folders
    requires forall j: nat :: StepOk(step(j))
    ensures var o := DeleteFolderSpec(db, folderId, step, true);
      && o.reply == Ok(())
      && o.db.folders == db.folders - {folderId}
      && (forall id :: id in o.db.videos <==> id in db.videos && id !in db.folders[folderId].videos)
      && (forall id :: id in o.db.videos ==> o.db.videos[id] == db.videos[id])
      && o.db.objects == db.objects
  {
    var pop := Populate(db.folders[folderId].videos, db.videos);
    PopulatedIds(db.folders[folderId].videos, db.videos);
    assert pop[..|pop|] == pop;
  }

  /** When visit k is the first to fail: 500, exactly the documents of the
      first k visits are deleted, and the folder and the bucket stay. */
  lemma CascadeFailsAt(db: Db, folderId: FolderId, step: nat -> VideoStep, folderDeleted: bool, k: nat)
    requires folderId in db.folders
    requires k < |Populate(db.folders[folderId].videos, db.videos)|
    requires forall j :: 0 <= j < k ==> StepOk(step(j))
    requires !StepOk(step(k))
    ensures var o := DeleteFolderSpec(db, folderId, step, folderDeleted);
      var pop := Populate(db.folders[folderId].videos, db.videos);
      && o.reply == ServerError
      && o.db == db.(videos := db.videos - IdsOf(pop[..k]))
  {
    FirstFailureIs(step, |Populate(db.folders[folderId].videos, db.videos)|, k);
  }

  /** A missing folder answers 404 and changes nothing. */
  lemma CascadeMissingFolder(db: Db, folderId: FolderId, step: nat -> VideoStep, folderDeleted: bool)
    requires folderId !in db.folders
    ensures DeleteFolderSpec(db, folderId, step, folderDeleted) == CascadeOutcome(db, NotFound)
  {
  }

  /** The cascade keeps every document under its own id. */
  lemma CascadeKeepsConsistent(db: Db, folderId: FolderId, step: nat -> VideoStep, folderDeleted: bool)
    requires Consistent(db)
    ensures Consistent(DeleteFolderSpec(db, folderId, step, folderDeleted).db)
  {
  }

  /** The visits as the file is written: `path` is never imported, so
      `path.join` throws a ReferenceError on every visit. */
  function AsWrittenStep(recordDeleted: nat -> bool): nat -> VideoStep {
    (i: nat) => VideoStep(false, recordDeleted(i))
  }

  /** The visits with `path` and `fs` imported: the local file does not exist
      (videos live in the bucket), so the local-file step always passes. */
  function IntendedStep(recordDeleted: nat -> bool): nat -> VideoStep {
    (i: nat) => VideoStep(true, recordDeleted(i))
  }

  /** As written, a folder with any video still present cannot be deleted:
      500 and nothing changes. An empty folder is deleted. */
  lemma CascadeAsWritten(db: Db, folderId: FolderId, recordDeleted: nat -> bool, folderDeleted: bool)
    requires folderId in db.folders
    ensures var o := DeleteFolderSpec(db, folderId, AsWrittenStep(recordDeleted), folderDeleted);
      && (Present(db.folders[folderId].videos, db.videos) != [] ==> o == CascadeOutcome(db, ServerError))
      && (Present(db.folders[folderId].videos, db.videos) == [] && folderDeleted ==>
            o == CascadeOutcome(db.(folders := db.folders - {folderId}), Ok(())))
  {
    var pop := Populate(db.folders[folderId].videos, db.videos);
    assert IdsOf(pop[..0]) == {};
    assert db.videos - {} == db.videos;
    if pop != [] {
      FirstFailureIs(AsWrittenStep(recordDeleted), |pop|, 0);
    }
  }

  /** With the imports, when every record delete and the folder delete
      succeed, the folder is gone and, provided every video naming the folder
      is on its list, no video names it any more. */
  lemma CascadeWithImports(db: Db, folderId: FolderId, recordDeleted: nat -> bool)
    requires Consistent(db)
    requires folderId in db.folders
    requires forall j: nat :: recordDeleted(j)
    requires forall id :: id in db.videos && db.videos[id].folder == folderId ==> id in db.folders[folderId].videos
    ensures var o := DeleteFolderSpec(db, folderId, IntendedStep(recordDeleted), true);
      && o.reply == Ok(())
      && folderId !in o.db.folders
      && Consistent(o.db)
      && VideoRoutes.VideosInFolder(o.db, folderId) == {}
  {
    CascadeSucceeds(db, folderId, IntendedStep(recordDeleted));
    var o := DeleteFolderSpec(db, folderId, IntendedStep(recordDeleted), true);
    CascadeKeepsConsistent(db, folderId, IntendedStep(recordDeleted), true);
  }
}
