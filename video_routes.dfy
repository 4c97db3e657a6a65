/** routes/videoRoutes.js: file-name sanitising, the bucket key formats, and
    the upload, stream, folder listing, delete and caption handlers as
    operations on the Store. External steps that can fail (the bucket's put
    and delete, ffprobe, MongoDB writes, the whisper process, reading its
    output) are outcome parameters, so each contract can say exactly what
    state a failure leaves behind. */
module VideoRoutes {
  import opened Common
  import opened Seqs
  import opened Text
  import opened Models

  /** Expiry of a playback URL, in seconds. */
  const StreamExpiry: nat := 7200
  /** Expiry of a caption URL, in seconds. */
  const CaptionExpiry: nat := 3600
  /** `upload.array("videos", 50)`: multer rejects a request with more files,
      and Express's default error handler answers 500. */
  const MaxFiles: nat := 50

  // ---------------------------------------------------------------------
  // sanitizeFileName and the key formats

  /** The characters the second `replace` keeps: `[\w.-]`. */
  predicate IsKeptChar(c: char) {
    IsWordChar(c) || c == '.' || c == '-'
  }

  /** A kept character other than `_`: what the first `replace` never adds. */
  predicate IsKeptNonUnderscore(c: char) {
    IsKeptChar(c) && c != '_'
  }

  /** `name.replace(/\s+/g, "_")`: each maximal run of whitespace becomes `_`. */
  function CollapseSpaces(s: string): (r: string)
    ensures NoSpace(r)
    decreases |s|
  {
    if s == [] then []
    else if IsSpace(s[0]) then "_" + CollapseSpaces(TrimStart(s[1..]))
    else [s[0]] + CollapseSpaces(s[1..])
  }

  /** `sanitizeFileName`: collapse whitespace runs to `_`, then drop every
      character outside `[A-Za-z0-9_.-]`. */
  function SanitizeFileName(name: string): (r: string)
    ensures forall i :: 0 <= i < |r| ==> IsKeptChar(r[i])
  {
    Filter(CollapseSpaces(name), IsKeptChar)
  }

  lemma {:induction false} CollapseWithoutSpaces(s: string)
    requires NoSpace(s)
    ensures CollapseSpaces(s) == s
  {
    if s != [] {
      CollapseWithoutSpaces(s[1..]);
      assert [s[0]] + s[1..] == s;
    }
  }

  lemma TrimStartAppend(x: string, y: string)
    ensures AllSpace(x) ==> TrimStart(x + y) == TrimStart(y)
    ensures !AllSpace(x) ==> TrimStart(x + y) == TrimStart(x) + y
  {
    LeadingSpacesAppend(x, y);
    var n := LeadingSpaces(x + y);
    if AllSpace(x) {
      assert (x + y)[n..] == y[LeadingSpaces(y)..];
    } else {
      assert (x + y)[n..] == x[n..] + y;
    }
  }

  lemma TrimStartOfAllSpace(x: string)
    requires AllSpace(x)
    ensures TrimStart(x) == []
  {
  }

  /** Collapsing a string that starts with a whitespace run. */
  lemma CollapseFromSpace(a: string, b: string)
    requires a != [] && IsSpace(a[0])
    ensures CollapseSpaces(a + b) == "_" + CollapseSpaces(TrimStart(a[1..] + b))
  {
    assert (a + b)[0] == a[0];
    assert (a + b)[1..] == a[1..] + b;
  }

  /** Collapsing a string that starts with another character. */
  lemma CollapseFromOther(a: string, b: string)
    requires a != [] && !IsSpace(a[0])
    ensures CollapseSpaces(a + b) == [a[0]] + CollapseSpaces(a[1..] + b)
  {
    assert (a + b)[0] == a[0];
    assert (a + b)[1..] == a[1..] + b;
  }

  lemma LastOfSpaceRun(a: string)
    requires a != [] && IsSpace(a[0]) && AllSpace(a[1..])
    ensures IsSpace(a[|a| - 1])
  {
    if |a| > 1 { assert a[|a| - 1] == a[1..][|a| - 2]; }
  }

  /** A leading whitespace run that reaches the end of `a`. */
  lemma CollapseRunToEnd(a: string, b: string)
    requires a != [] && IsSpace(a[0]) && AllSpace(a[1..])
    requires b == [] || !IsSpace(b[0])
    ensures CollapseSpaces(a) == "_"
    ensures CollapseSpaces(a + b) == "_" + CollapseSpaces(b)
  {
    TrimStartOfAllSpace(a[1..]);
    CollapseFromSpace(a, b);
    TrimStartAppend(a[1..], b);
  }

  /** A leading whitespace run followed by more of `a`, given the claim for
      the rest of `a`. */
  lemma CollapseRunInside(a: string, b: string)
    requires a != [] && IsSpace(a[0]) && !AllSpace(a[1..])
    requires var t := TrimStart(a[1..]);
      CollapseSpaces(t + b) == CollapseSpaces(t) + CollapseSpaces(b)
    ensures CollapseSpaces(a + b) == CollapseSpaces(a) + CollapseSpaces(b)
  {
    CollapseFromSpace(a, b);
    TrimStartAppend(a[1..], b);
    var t := TrimStart(a[1..]);
    assert "_" + (CollapseSpaces(t) + CollapseSpaces(b)) == ("_" + CollapseSpaces(t)) + CollapseSpaces(b);
  }

  /** Where the recursive case of CollapseAppend goes next. */
  lemma RunInsideRest(a: string, b: string)
    requires a != [] && IsSpace(a[0]) && !AllSpace(a[1..])
    requires b == [] || !IsSpace(a[|a| - 1]) || !IsSpace(b[0])
    ensures var t := TrimStart(a[1..]);
      && t != [] && |t| < |a|
      && (b == [] || !IsSpace(t[|t| - 1]) || !IsSpace(b[0]))
  {
  }

  /** A first character other than whitespace, given the claim for the rest. */
  lemma CollapseOther(a: string, b: string)
    requires a != [] && !IsSpace(a[0])
    requires CollapseSpaces(a[1..] + b) == CollapseSpaces(a[1..]) + CollapseSpaces(b)
    ensures CollapseSpaces(a + b) == CollapseSpaces(a) + CollapseSpaces(b)
  {
    CollapseFromOther(a, b);
    assert [a[0]] + (CollapseSpaces(a[1..]) + CollapseSpaces(b)) == ([a[0]] + CollapseSpaces(a[1..])) + CollapseSpaces(b);
  }

  /** Collapsing distributes over a split that does not cut a whitespace run. */
  lemma {:induction false} CollapseAppend(a: string, b: string)
    requires a == [] || b == [] || !IsSpace(a[|a| - 1]) || !IsSpace(b[0])
    ensures CollapseSpaces(a + b) == CollapseSpaces(a) + CollapseSpaces(b)
    decreases |a|
  {
    if a == [] {
      assert a + b == b;
    } else if IsSpace(a[0]) && AllSpace(a[1..]) {
      LastOfSpaceRun(a);
      CollapseRunToEnd(a, b);
    } else if IsSpace(a[0]) {
      RunInsideRest(a, b);
      CollapseAppend(TrimStart(a[1..]), b);
      CollapseRunInside(a, b);
    } else {
      CollapseAppend(a[1..], b);
      CollapseOther(a, b);
    }
  }

  /** Every maximal whitespace run becomes exactly one `_`. */
  lemma RunBecomesOneUnderscore(before: string, run: string, after: string)
    requires before == [] || !IsSpace(before[|before| - 1])
    requires run != [] && AllSpace(run)
    requires after == [] || !IsSpace(after[0])
    ensures CollapseSpaces(before + run + after) == CollapseSpaces(before) + "_" + CollapseSpaces(after)
  {
    AllSpaceTail(run);
    CollapseRunToEnd(run, after);
    var ra := run + after;
    assert ra[0] == run[0];
    CollapseAppend(before, ra);
    AppendAssoc(before, run, after);
    AppendAssoc(CollapseSpaces(before), "_", CollapseSpaces(after));
  }

  lemma AppendAssoc(x: string, y: string, z: string)
    ensures x + (y + z) == (x + y) + z
  {
  }

  /** Applying the sanitiser to its own output changes nothing. */
  lemma SanitizeIdempotent(name: string)
    ensures SanitizeFileName(SanitizeFileName(name)) == SanitizeFileName(name)
  {
    var s := SanitizeFileName(name);
    CollapseWithoutSpaces(s);
    FilterKeepsAll(s, IsKeptChar);
  }

  /** Whitespace is never a kept character. */
  lemma SpacesNotKept(s: string)
    requires AllSpace(s)
    ensures Filter(s, IsKeptNonUnderscore) == []
  {
    FilterDropsAll(s, IsKeptNonUnderscore);
  }

  lemma FilterAfterSpaces(lead: string, t: string)
    requires AllSpace(lead)
    ensures Filter(lead + t, IsKeptNonUnderscore) == Filter(t, IsKeptNonUnderscore)
  {
    FilterAppend(lead, t, IsKeptNonUnderscore);
    SpacesNotKept(lead);
  }

  lemma FilterAfterUnderscore(t: string)
    ensures Filter("_" + t, IsKeptNonUnderscore) == Filter(t, IsKeptNonUnderscore)
  {
    FilterAppend("_", t, IsKeptNonUnderscore);
    assert Filter("_", IsKeptNonUnderscore) == [];
  }

  lemma KeepsFromSpace(s: string)
    requires s != [] && IsSpace(s[0])
    requires var t := TrimStart(s[1..]);
      Filter(CollapseSpaces(t), IsKeptNonUnderscore) == Filter(t, IsKeptNonUnderscore)
    ensures Filter(CollapseSpaces(s), IsKeptNonUnderscore) == Filter(s, IsKeptNonUnderscore)
  {
    var t := TrimStart(s[1..]);
    LeadingRun(s);
    FilterAfterSpaces(s[..|s| - |t|], t);
    FilterAfterUnderscore(CollapseSpaces(t));
  }

  lemma KeepsFromOther(s: string)
    requires s != [] && !IsSpace(s[0])
    requires Filter(CollapseSpaces(s[1..]), IsKeptNonUnderscore) == Filter(s[1..], IsKeptNonUnderscore)
    ensures Filter(CollapseSpaces(s), IsKeptNonUnderscore) == Filter(s, IsKeptNonUnderscore)
  {
    assert s == [s[0]] + s[1..];
    FilterAppend([s[0]], s[1..], IsKeptNonUnderscore);
    FilterAppend([s[0]], CollapseSpaces(s[1..]), IsKeptNonUnderscore);
  }

  lemma {:induction false} CollapseKeepsNonUnderscore(s: string)
    ensures Filter(CollapseSpaces(s), IsKeptNonUnderscore) == Filter(s, IsKeptNonUnderscore)
    decreases |s|
  {
    if s != [] {
      if IsSpace(s[0]) {
        CollapseKeepsNonUnderscore(TrimStart(s[1..]));
        KeepsFromSpace(s);
      } else {
        CollapseKeepsNonUnderscore(s[1..]);
        KeepsFromOther(s);
      }
    }
  }

  /** Apart from the `_` that stand for whitespace runs, the output is exactly
      the input's allowed characters, in their original order. */
  lemma SanitizeKeepsOrder(name: string)
    ensures Filter(SanitizeFileName(name), IsKeptNonUnderscore) == Filter(name, IsKeptNonUnderscore)
  {
    FilterFilter(CollapseSpaces(name), IsKeptChar, IsKeptNonUnderscore, IsKeptNonUnderscore);
    CollapseKeepsNonUnderscore(name);
  }

  /** The bucket key of an uploaded video: `videos/<uuid>-<cleanName>`. */
  function VideoKey(uuid: string, cleanName: string): (k: string)
    ensures |k| == 8 + |uuid| + |cleanName|
    ensures k[..7] == "videos/" && k[7..7 + |uuid|] == uuid && k[7 + |uuid|] == '-' && k[8 + |uuid|..] == cleanName
  {
    "videos/" + uuid + "-" + cleanName
  }

  /** The bucket key of a video's captions: `captions/<videoId>.vtt`. */
  function CaptionKey(id: VideoId): (k: string)
    ensures |k| == 13 + |id|
    ensures k[..9] == "captions/" && k[9..9 + |id|] == id && k[9 + |id|..] == ".vtt"
  {
    "captions/" + id + ".vtt"
  }

  /** Different videos have different caption keys. */
  lemma CaptionKeyInjective(a: VideoId, b: VideoId)
    requires CaptionKey(a) == CaptionKey(b)
    ensures a == b
  {
    assert a == CaptionKey(a)[9..9 + |a|];
    assert b == CaptionKey(b)[9..9 + |b|];
  }

  /** With uuids of one length (uuid v4 strings are 36 characters), the video
      key determines both the uuid and the sanitised name. */
  lemma VideoKeyInjective(u1: string, c1: string, u2: string, c2: string)
    requires |u1| == |u2|
    requires VideoKey(u1, c1) == VideoKey(u2, c2)
    ensures u1 == u2 && c1 == c2
  {
    var k1, k2 := VideoKey(u1, c1), VideoKey(u2, c2);
    assert u1 == k1[7..7 + |u1|] && u2 == k2[7..7 + |u2|];
    assert c1 == k1[8 + |u1|..] && c2 == k2[8 + |u2|..];
  }

  /** A video key and a caption key never coincide. */
  lemma VideoAndCaptionKeysDiffer(uuid: string, cleanName: string, id: VideoId)
    ensures VideoKey(uuid, cleanName) != CaptionKey(id)
  {
    assert VideoKey(uuid, cleanName)[0] == 'v';
    assert CaptionKey(id)[0] == 'c';
  }

  // ---------------------------------------------------------------------
  // POST /upload/:folderId

  /** One multipart file as multer hands it over. */
  datatype UploadFile = UploadFile(originalname: string, size: nat, mimetype: string)

  /** One file of the batch together with what the outside world does with it:
      the `_id` Mongoose assigns, the uuid for its key, whether the bucket put
      succeeds, the duration ffprobe reports (None: probing failed), whether
      `video.save()` and the folder update succeed. */
  datatype Attempt = Attempt(
    file: UploadFile,
    videoId: VideoId,
    keyUuid: string,
    putOk: bool,
    probed: Option<nat>,
    saveOk: bool,
    linkOk: bool)

  /** The bucket key the handler builds for one file. */
  function UploadKey(a: Attempt): string {
    VideoKey(a.keyUuid, SanitizeFileName(a.file.originalname))
  }

  /** The keys of a batch, file by file. The run below takes the keys as an
      argument of their own, so that reasoning about the loop does not look
      inside the sanitizer; the handler's run is the one over `KeysOf`. */
  function KeysOf(attempts: seq<Attempt>): (keys: seq<string>)
    ensures |keys| == |attempts|
    ensures forall i :: 0 <= i < |attempts| ==> keys[i] == UploadKey(attempts[i])
  {
    seq(|attempts|, i requires 0 <= i < |attempts| => UploadKey(attempts[i]))
  }

  /** The Video document built for a probed file stored under `key`. */
  function NewVideo(a: Attempt, folderId: FolderId, key: string): Video
    requires a.probed.Some?
  {
    Video(a.videoId, a.file.originalname, key, a.file.size, a.probed.value, folderId, false)
  }

  /** `video.save()` rejects: the store failed, the `_id` is taken, or the
      required `name` is empty. */
  predicate SaveFails(db: Db, a: Attempt) {
    !a.saveOk || a.videoId in db.videos || a.file.originalname == ""
  }

  /** `Folder.findByIdAndUpdate(folderId, { $push: { videos: ... } })`: a
      missing folder is silently left alone. */
  function Link(folders: map<FolderId, Folder>, folderId: FolderId, ids: seq<VideoId>): (r: map<FolderId, Folder>)
    ensures r.Keys == folders.Keys
    ensures forall f :: f in folders && f != folderId ==> r[f] == folders[f]
    ensures folderId in folders ==>
      r[folderId] == Folder(folders[folderId].id, folders[folderId].name, folders[folderId].videos + ids)
  {
    if folderId in folders
    then folders[folderId := folders[folderId].(videos := folders[folderId].videos + ids)]
    else folders
  }

  datatype StepResult = Done(db: Db, video: Video) | Failed(db: Db)

  /** One iteration of the upload loop: put the object under `key`, probe,
      save the Video, link it to the folder. */
  function UploadStep(db: Db, folderId: FolderId, a: Attempt, key: string): (r: StepResult)
    ensures r.Done? <==> a.putOk && a.probed.Some? && !SaveFails(db, a) && a.linkOk
    ensures r.db.objects == if a.putOk then db.objects + {key} else db.objects
    ensures forall id :: id in db.videos ==> id in r.db.videos && r.db.videos[id] == db.videos[id]
    ensures forall id :: id in r.db.videos ==> id in db.videos || id == a.videoId
  {
    if !a.putOk then Failed(db)
    else
      var stored := db.(objects := db.objects + {key});
      if a.probed.None? || SaveFails(stored, a) then Failed(stored)
      else
        var v := NewVideo(a, folderId, key);
        var saved := stored.(videos := stored.videos[a.videoId := v]);
        if !a.linkOk then Failed(saved)
        else Done(saved.(folders := Link(saved.folders, folderId, [a.videoId])), v)
  }

  /** The whole batch either commits every file (Created, with the documents
      in input order) or stops at the first failing file `at`. */
  datatype UploadOutcome = Committed(db: Db, videos: seq<Video>) | Aborted(db: Db, at: nat)

  /** The batch, file by file; `keys[i]` is the key built for file `i`. */
  function UploadRun(db: Db, folderId: FolderId, attempts: seq<Attempt>, keys: seq<string>): (o: UploadOutcome)
    requires |keys| == |attempts|
    ensures o.Committed? ==> |o.videos| == |attempts|
    ensures o.Aborted? ==> o.at < |attempts|
    decreases |attempts|
  {
    if attempts == [] then Committed(db, [])
    else
      var n := |attempts|;
      var prior := UploadRun(db, folderId, attempts[..n - 1], keys[..n - 1]);
      if prior.Aborted? then prior
      else match UploadStep(prior.db, folderId, attempts[n - 1], keys[n - 1])
        case Done(db', v) => Committed(db', prior.videos + [v])
        case Failed(db') => Aborted(db', n - 1)
  }

  function UploadReply(o: UploadOutcome): Reply<seq<Video>> {
    if o.Committed? then Created(o.videos) else ServerError
  }

  function AttemptIds(attempts: seq<Attempt>): (ids: seq<VideoId>)
    ensures |ids| == |attempts|
    ensures forall i :: 0 <= i < |attempts| ==> ids[i] == attempts[i].videoId
  {
    if attempts == [] then []
    else AttemptIds(attempts[..|attempts| - 1]) + [attempts[|attempts| - 1].videoId]
  }

  function KeySet(keys: seq<string>): set<string> {
    set k | k in keys
  }

  lemma KeySetSnoc(keys: seq<string>)
    requires keys != []
    ensures KeySet(keys) == KeySet(keys[..|keys| - 1]) + {keys[|keys| - 1]}
  {
    assert keys == keys[..|keys| - 1] + [keys[|keys| - 1]];
  }

  /** Once the loop has thrown, later files change nothing. */
  lemma {:induction false} UploadAbortStays(db: Db, folderId: FolderId, attempts: seq<Attempt>, keys: seq<string>, j: nat)
    requires |keys| == |attempts| && j <= |attempts|
    requires UploadRun(db, folderId, attempts[..j], keys[..j]).Aborted?
    ensures UploadRun(db, folderId, attempts, keys) == UploadRun(db, folderId, attempts[..j], keys[..j])
    decreases |attempts|
  {
    var n := |attempts|;
    if j < n {
      var p, q := attempts[..n - 1], keys[..n - 1];
      assert p[..j] == attempts[..j];
      assert q[..j] == keys[..j];
      UploadAbortStays(db, folderId, p, q, j);
    } else {
      assert attempts[..j] == attempts;
      assert keys[..j] == keys;
    }
  }

  /** What one committed step did. */
  lemma StepDone(db: Db, folderId: FolderId, a: Attempt, key: string)
    requires UploadStep(db, folderId, a, key).Done?
    ensures var r := UploadStep(db, folderId, a, key);
      && a.probed.Some? && a.videoId !in db.videos
      && r.video == NewVideo(a, folderId, key)
      && r.db == Db(Link(db.folders, folderId, [a.videoId]), db.videos[a.videoId := r.video], db.objects + {key})
  {
  }

  /** A committed batch is a committed batch of all but the last file plus one
      committed step. */
  lemma RunCommittedSnoc(db: Db, folderId: FolderId, attempts: seq<Attempt>, keys: seq<string>)
    requires |keys| == |attempts| && attempts != []
    requires UploadRun(db, folderId, attempts, keys).Committed?
    ensures var n := |attempts|;
      var prior := UploadRun(db, folderId, attempts[..n - 1], keys[..n - 1]);
      var o := UploadRun(db, folderId, attempts, keys);
      && prior.Committed?
      && UploadStep(prior.db, folderId, attempts[n - 1], keys[n - 1]) == Done(o.db, o.videos[|o.videos| - 1])
      && o.videos == prior.videos + [o.videos[|o.videos| - 1]]
  {
  }

  /** Everything one more committed file does, in one statement. */
  lemma CommittedSnoc(db: Db, folderId: FolderId, attempts: seq<Attempt>, keys: seq<string>)
    requires |keys| == |attempts| && attempts != []
    requires UploadRun(db, folderId, attempts, keys).Committed?
    ensures var n := |attempts|;
      var prior := UploadRun(db, folderId, attempts[..n - 1], keys[..n - 1]);
      var a, key := attempts[n - 1], keys[n - 1];
      var o := UploadRun(db, folderId, attempts, keys);
      && prior.Committed? && a.probed.Some? && a.videoId !in prior.db.videos
      && o.videos == prior.videos + [NewVideo(a, folderId, key)]
      && o.db == Db(Link(prior.db.folders, folderId, [a.videoId]), prior.db.videos[a.videoId := NewVideo(a, folderId, key)], prior.db.objects + {key})
  {
    var n := |attempts|;
    RunCommittedSnoc(db, folderId, attempts, keys);
    StepDone(UploadRun(db, folderId, attempts[..n - 1], keys[..n - 1]).db, folderId, attempts[n - 1], keys[n - 1]);
  }

  lemma VideosSnoc(attempts: seq<Attempt>, keys: seq<string>, folderId: FolderId, before: seq<Video>, after: seq<Video>)
    requires |keys| == |attempts| && attempts != []
    requires |before| == |attempts| - 1
    requires forall i :: 0 <= i < |attempts| - 1 ==> attempts[i].probed.Some? && before[i] == NewVideo(attempts[i], folderId, keys[i])
    requires attempts[|attempts| - 1].probed.Some?
    requires after == before + [NewVideo(attempts[|attempts| - 1], folderId, keys[|keys| - 1])]
    ensures |after| == |attempts|
    ensures forall i :: 0 <= i < |attempts| ==> attempts[i].probed.Some? && after[i] == NewVideo(attempts[i], folderId, keys[i])
  {
    forall i | 0 <= i < |attempts|
      ensures attempts[i].probed.Some? && after[i] == NewVideo(attempts[i], folderId, keys[i])
    {
      if i < |before| {
        assert after[i] == before[i];
      }
    }
  }

  /** A committed batch returns one document per file, in input order, each
      with the file's name and size, its bucket key, the probed duration, the
      requested folder and `captionsReady = false`. */
  lemma {:induction false} UploadCommittedVideos(db: Db, folderId: FolderId, attempts: seq<Attempt>, keys: seq<string>)
    requires |keys| == |attempts|
    requires UploadRun(db, folderId, attempts, keys).Committed?
    ensures var o := UploadRun(db, folderId, attempts, keys);
      && |o.videos| == |attempts|
      && forall i :: 0 <= i < |attempts| ==>
           attempts[i].probed.Some? && o.videos[i] == NewVideo(attempts[i], folderId, keys[i])
    decreases |attempts|
  {
    if attempts != [] {
      var n := |attempts|;
      var p, q := attempts[..n - 1], keys[..n - 1];
      var prior := UploadRun(db, folderId, p, q);
      CommittedSnoc(db, folderId, attempts, keys);
      UploadCommittedVideos(db, folderId, p, q);
      forall i | 0 <= i < n - 1 ensures attempts[i] == p[i] && keys[i] == q[i] { }
      VideosSnoc(attempts, keys, folderId, prior.videos, UploadRun(db, folderId, attempts, keys).videos);
    }
  }

  /** A committed batch adds exactly one bucket object per file, under that
      file's key. */
  lemma {:induction false} UploadCommittedObjects(db: Db, folderId: FolderId, attempts: seq<Attempt>, keys: seq<string>)
    requires |keys| == |attempts|
    requires UploadRun(db, folderId, attempts, keys).Committed?
    ensures UploadRun(db, folderId, attempts, keys).db.objects == db.objects + KeySet(keys)
    decreases |attempts|
  {
    if attempts != [] {
      var n := |attempts|;
      CommittedSnoc(db, folderId, attempts, keys);
      UploadCommittedObjects(db, folderId, attempts[..n - 1], keys[..n - 1]);
      KeySetSnoc(keys);
    }
  }

  /** Each attempt's document is in `after` under an id `before` lacks. */
  ghost predicate EntriesAdded(before: map<VideoId, Video>, after: map<VideoId, Video>, folderId: FolderId, attempts: seq<Attempt>, keys: seq<string>)
    requires |keys| == |attempts|
  {
    forall i :: 0 <= i < |attempts| ==>
      && attempts[i].videoId !in before && attempts[i].videoId in after
      && attempts[i].probed.Some?
      && after[attempts[i].videoId] == NewVideo(attempts[i], folderId, keys[i])
  }

  /** `after` is `before` with one fresh document per attempt, under
      pairwise different ids. */
  ghost predicate RecordsAdded(before: map<VideoId, Video>, after: map<VideoId, Video>, folderId: FolderId, attempts: seq<Attempt>, keys: seq<string>)
    requires |keys| == |attempts|
  {
    && Distinct(AttemptIds(attempts))
    && EntriesAdded(before, after, folderId, attempts, keys)
    && (forall id :: id in after <==> id in before || id in AttemptIds(attempts))
    && (forall id :: id in before ==> after[id] == before[id])
  }

  lemma DistinctSnoc(ids: seq<VideoId>, x: VideoId)
    requires Distinct(ids) && x !in ids
    ensures Distinct(ids + [x])
  {
    var r := ids + [x];
    forall i, j | 0 <= i < j < |r| ensures r[i] != r[j] {
      assert r[i] == ids[i];
      if j < |ids| { assert r[j] == ids[j]; }
    }
  }

  lemma EntriesAddedStep(before: map<VideoId, Video>, mid: map<VideoId, Video>, folderId: FolderId, attempts: seq<Attempt>, keys: seq<string>)
    requires |keys| == |attempts| && attempts != []
    requires EntriesAdded(before, mid, folderId, attempts[..|attempts| - 1], keys[..|keys| - 1])
    requires var a := attempts[|attempts| - 1]; a.videoId !in mid && a.videoId !in before && a.probed.Some?
    ensures var a := attempts[|attempts| - 1];
      EntriesAdded(before, mid[a.videoId := NewVideo(a, folderId, keys[|keys| - 1])], folderId, attempts, keys)
  {
    var n := |attempts|;
    var p, q, a := attempts[..n - 1], keys[..n - 1], attempts[n - 1];
    var after := mid[a.videoId := NewVideo(a, folderId, keys[n - 1])];
    forall i | 0 <= i < n
      ensures attempts[i].videoId !in before && attempts[i].videoId in after
      ensures attempts[i].probed.Some? && after[attempts[i].videoId] == NewVideo(attempts[i], folderId, keys[i])
    {
      if i < n - 1 {
        assert attempts[i] == p[i] && keys[i] == q[i];
        assert p[i].videoId in mid;
      }
    }
  }

  lemma DomainStep(before: map<VideoId, Video>, mid: map<VideoId, Video>, ids: seq<VideoId>, x: VideoId, v: Video)
    requires forall id :: id in mid <==> id in before || id in ids
    requires forall id :: id in before ==> mid[id] == before[id]
    requires x !in mid
    ensures forall id :: id in mid[x := v] <==> id in before || id in ids + [x]
    ensures forall id :: id in before ==> mid[x := v][id] == before[id]
  {
  }

  lemma RecordsAddedStep(before: map<VideoId, Video>, mid: map<VideoId, Video>, folderId: FolderId, attempts: seq<Attempt>, keys: seq<string>)
    requires |keys| == |attempts| && attempts != []
    requires RecordsAdded(before, mid, folderId, attempts[..|attempts| - 1], keys[..|keys| - 1])
    requires var a := attempts[|attempts| - 1]; a.videoId !in mid && a.probed.Some?
    ensures var a := attempts[|attempts| - 1];
      RecordsAdded(before, mid[a.videoId := NewVideo(a, folderId, keys[|keys| - 1])], folderId, attempts, keys)
  {
    var n := |attempts|;
    var p, a := attempts[..n - 1], attempts[n - 1];
    assert AttemptIds(attempts) == AttemptIds(p) + [a.videoId];
    DistinctSnoc(AttemptIds(p), a.videoId);
    EntriesAddedStep(before, mid, folderId, attempts, keys);
    DomainStep(before, mid, AttemptIds(p), a.videoId, NewVideo(a, folderId, keys[n - 1]));
  }

  /** A committed batch stores each file's document under a fresh id, the ids
      are pairwise different, no earlier document changes, and nothing else
      is stored. */
  lemma {:induction false} UploadCommittedRecords(db: Db, folderId: FolderId, attempts: seq<Attempt>, keys: seq<string>)
    requires |keys| == |attempts|
    requires UploadRun(db, folderId, attempts, keys).Committed?
    ensures RecordsAdded(db.videos, UploadRun(db, folderId, attempts, keys).db.videos, folderId, attempts, keys)
    decreases |attempts|
  {
    if attempts == [] {
      assert AttemptIds(attempts) == [];
    } else {
      var n := |attempts|;
      var p, q := attempts[..n - 1], keys[..n - 1];
      CommittedSnoc(db, folderId, attempts, keys);
      UploadCommittedRecords(db, folderId, p, q);
      RecordsAddedStep(db.videos, UploadRun(db, folderId, p, q).db.videos, folderId, attempts, keys);
    }
  }

  /** A committed batch appends the new ids, in input order, to the folder's
      list when that folder exists; when it does not, no folder changes (the
      folder id is never checked). */
  lemma {:induction false} UploadCommittedFolders(db: Db, folderId: FolderId, attempts: seq<Attempt>, keys: seq<string>)
    requires |keys| == |attempts|
    requires UploadRun(db, folderId, attempts, keys).Committed?
    ensures UploadRun(db, folderId, attempts, keys).db.folders == Link(db.folders, folderId, AttemptIds(attempts))
    ensures folderId !in db.folders ==> UploadRun(db, folderId, attempts, keys).db.folders == db.folders
    decreases |attempts|
  {
    if attempts == [] {
      if folderId in db.folders {
        assert db.folders[folderId].videos + [] == db.folders[folderId].videos;
      }
    } else {
      var n := |attempts|;
      var p := attempts[..n - 1];
      CommittedSnoc(db, folderId, attempts, keys);
      UploadCommittedFolders(db, folderId, p, keys[..n - 1]);
      LinkTwice(db.folders, folderId, AttemptIds(p), [attempts[n - 1].videoId]);
    }
  }

  lemma LinkTwice(folders: map<FolderId, Folder>, folderId: FolderId, xs: seq<VideoId>, ys: seq<VideoId>)
    ensures Link(Link(folders, folderId, xs), folderId, ys) == Link(folders, folderId, xs + ys)
  {
    if folderId in folders {
      assert folders[folderId].videos + xs + ys == folders[folderId].videos + (xs + ys);
    }
  }

  /** An aborted batch stopped at file `at`: every earlier file committed, and
      the state is what file `at`'s failing step left behind. */
  lemma {:induction false} UploadAbortedAt(db: Db, folderId: FolderId, attempts: seq<Attempt>, keys: seq<string>)
    requires |keys| == |attempts|
    requires UploadRun(db, folderId, attempts, keys).Aborted?
    ensures var o := UploadRun(db, folderId, attempts, keys);
      && o.at < |attempts|
      && UploadRun(db, folderId, attempts[..o.at], keys[..o.at]).Committed?
      && UploadStep(UploadRun(db, folderId, attempts[..o.at], keys[..o.at]).db, folderId, attempts[o.at], keys[o.at]) == Failed(o.db)
    decreases |attempts|
  {
    var n := |attempts|;
    var p, q := attempts[..n - 1], keys[..n - 1];
    var prior := UploadRun(db, folderId, p, q);
    if prior.Aborted? {
      UploadAbortedAt(db, folderId, p, q);
      assert p[..prior.at] == attempts[..prior.at];
      assert q[..prior.at] == keys[..prior.at];
    }
  }

  /** What a failure on file k leaves: nothing of file k when the put fails;
      an orphaned object without a document when probing or saving fails; an
      object and a document the folder does not list when linking fails. The
      first k files stay committed (UploadAbortedAt). */
  lemma UploadFailureLeaves(db: Db, folderId: FolderId, attempts: seq<Attempt>, keys: seq<string>)
    requires |keys| == |attempts|
    requires UploadRun(db, folderId, attempts, keys).Aborted?
    ensures var o := UploadRun(db, folderId, attempts, keys);
      o.at < |attempts| &&
      var prior := UploadRun(db, folderId, attempts[..o.at], keys[..o.at]).db;
      var a, key := attempts[o.at], keys[o.at];
      var stored := prior.(objects := prior.objects + {key});
      && (!a.putOk ==> o.db == prior)
      && (a.putOk && a.probed.None? ==> o.db == stored)
      && (a.putOk && a.probed.Some? && SaveFails(stored, a) ==> o.db == stored)
      && (a.putOk && a.probed.Some? && !SaveFails(stored, a) ==>
            !a.linkOk && o.db == stored.(videos := prior.videos[a.videoId := NewVideo(a, folderId, key)]))
  {
    UploadAbortedAt(db, folderId, attempts, keys);
  }

  /** Uploading never clears a `captionsReady` flag. */
  lemma {:induction false} UploadKeepsCaptionFlags(db: Db, folderId: FolderId, attempts: seq<Attempt>, keys: seq<string>)
    requires |keys| == |attempts|
    ensures CaptionsMonotone(db.videos, UploadRun(db, folderId, attempts, keys).db.videos)
    ensures forall id :: id in db.videos ==> id in UploadRun(db, folderId, attempts, keys).db.videos
    decreases |attempts|
  {
    if attempts != [] {
      UploadKeepsCaptionFlags(db, folderId, attempts[..|attempts| - 1], keys[..|keys| - 1]);
    }
  }

  /** Every uploaded document is stored, so uploading keeps the store's one
      invariant. */
  lemma {:induction false} UploadKeepsConsistent(db: Db, folderId: FolderId, attempts: seq<Attempt>, keys: seq<string>)
    requires |keys| == |attempts|
    requires Consistent(db)
    ensures Consistent(UploadRun(db, folderId, attempts, keys).db)
    decreases |attempts|
  {
    if attempts != [] {
      UploadKeepsConsistent(db, folderId, attempts[..|attempts| - 1], keys[..|keys| - 1]);
    }
  }

  /** The batch up to file `i` is the batch before it plus one step. */
  lemma RunStep(db0: Db, folderId: FolderId, attempts: seq<Attempt>, keys: seq<string>, i: nat, db: Db, videos: seq<Video>)
    requires |keys| == |attempts| && i < |attempts|
    requires UploadRun(db0, folderId, attempts[..i], keys[..i]) == Committed(db, videos)
    ensures var s := UploadStep(db, folderId, attempts[i], keys[i]);
      UploadRun(db0, folderId, attempts[..i + 1], keys[..i + 1]) ==
        if s.Done? then Committed(s.db, videos + [s.video]) else Aborted(s.db, i)
  {
    assert attempts[..i + 1][..i] == attempts[..i];
    assert keys[..i + 1][..i] == keys[..i];
    assert attempts[..i + 1][i] == attempts[i];
    assert keys[..i + 1][i] == keys[i];
  }

  method Upload(st: Store, folderId: FolderId, attempts: seq<Attempt>) returns (r: Reply<seq<Video>>)
    requires st.Valid()
    modifies st
    ensures st.Valid()
    ensures |attempts| > MaxFiles ==> r == ServerError && st.Snapshot() == old(st.Snapshot())
    ensures |attempts| <= MaxFiles ==>
      && st.Snapshot() == UploadRun(old(st.Snapshot()), folderId, attempts, KeysOf(attempts)).db
      && r == UploadReply(UploadRun(old(st.Snapshot()), folderId, attempts, KeysOf(attempts)))
  {
    if |attempts| > MaxFiles {
      return ServerError;
    }
    ghost var db0 := st.Snapshot();
    ghost var keys := KeysOf(attempts);
    var uploaded: seq<Video> := [];
    for i := 0 to |attempts|
      invariant st.Valid()
      invariant UploadRun(db0, folderId, attempts[..i], keys[..i]) == Committed(st.Snapshot(), uploaded)
    {
      var a := attempts[i];
      ghost var step := UploadStep(st.Snapshot(), folderId, a, keys[i]);
      RunStep(db0, folderId, attempts, keys, i, st.Snapshot(), uploaded);
      var cleanName := SanitizeFileName(a.file.originalname);
      var key := VideoKey(a.keyUuid, cleanName);
      assert key == keys[i];
      if !a.putOk {
        UploadAbortStays(db0, folderId, attempts, keys, i + 1);
        return ServerError;
      }
      st.objects := st.objects + {key};
      if a.probed.None? || !a.saveOk || a.videoId in st.videos || a.file.originalname == "" {
        assert st.Snapshot() == step.db;
        UploadAbortStays(db0, folderId, attempts, keys, i + 1);
        return ServerError;
      }
      var video := Video(a.videoId, a.file.originalname, key, a.file.size, a.probed.value, folderId, false);
      st.videos := st.videos[a.videoId := video];
      if !a.linkOk {
        assert st.Snapshot() == step.db;
        UploadAbortStays(db0, folderId, attempts, keys, i + 1);
        return ServerError;
      }
      if folderId in st.folders {
        var f := st.folders[folderId];
        st.folders := st.folders[folderId := f.(videos := f.videos + [a.videoId])];
      }
      uploaded := uploaded + [video];
      assert step == Done(st.Snapshot(), video);
    }
    assert attempts[..|attempts|] == attempts;
    assert keys[..|attempts|] == keys;
    return Created(uploaded);
  }

  // ---------------------------------------------------------------------
  // GET /stream/:videoId and GET /folder/:folderId

  /** A playback URL for the video's own key, valid for two hours. */
  function Stream(db: Db, id: VideoId): (r: Reply<SignedUrl>)
    ensures r.NotFound? <==> id !in db.videos
    ensures r.Ok? <==> id in db.videos
    ensures r.Ok? ==> r.body.key == db.videos[id].url && r.body.expires == 7200
  {
    if id !in db.videos then NotFound else Ok(SignedUrl(db.videos[id].url, StreamExpiry))
  }

  /** `Video.find({ folder })`: the stored documents whose back-reference is
      the folder, whether or not the folder lists them. */
  function VideosInFolder(db: Db, folderId: FolderId): (r: set<Video>)
    requires Consistent(db)
    ensures forall v :: v in r <==> v.id in db.videos && db.videos[v.id] == v && v.folder == folderId
  {
    set id | id in db.videos && db.videos[id].folder == folderId :: db.videos[id]
  }

  /** After a committed upload every new document is listed for its folder. */
  lemma UploadedVideosListed(db: Db, folderId: FolderId, attempts: seq<Attempt>, keys: seq<string>)
    requires |keys| == |attempts|
    requires Consistent(db)
    requires UploadRun(db, folderId, attempts, keys).Committed?
    ensures var o := UploadRun(db, folderId, attempts, keys);
      Consistent(o.db) && forall v :: v in o.videos ==> v in VideosInFolder(o.db, folderId)
  {
    var o := UploadRun(db, folderId, attempts, keys);
    UploadCommittedVideos(db, folderId, attempts, keys);
    UploadCommittedRecords(db, folderId, attempts, keys);
    UploadKeepsConsistent(db, folderId, attempts, keys);
    forall v | v in o.videos ensures v in VideosInFolder(o.db, folderId) {
      var i :| 0 <= i < |o.videos| && o.videos[i] == v;
      assert v == NewVideo(attempts[i], folderId, keys[i]);
    }
  }

  // ---------------------------------------------------------------------
  // DELETE /:videoId

  /** Outcomes of the three store calls: bucket delete, document delete, and
      the `$pull` from the folder. */
  datatype DeleteSteps = DeleteSteps(objectDeleted: bool, recordDeleted: bool, pulled: bool)

  /** `$pull`: every occurrence of the id leaves the list, the rest keep order. */
  function Pull(ids: seq<VideoId>, id: VideoId): (r: seq<VideoId>)
    ensures id !in r
    ensures forall x :: x != id ==> (x in r <==> x in ids)
    ensures IsSubseq(r, ids)
    ensures forall x :: multiset(r)[x] == if x == id then 0 else multiset(ids)[x]
  {
    FilterIsSubseq(ids, x => x != id);
    FilterMultiset(ids, x => x != id);
    Filter(ids, x => x != id)
  }

  /** `$pull` on a folder that may not exist. */
  function PullFrom(folders: map<FolderId, Folder>, folderId: FolderId, id: VideoId): map<FolderId, Folder> {
    if folderId in folders
    then folders[folderId := folders[folderId].(videos := Pull(folders[folderId].videos, id))]
    else folders
  }

  method DeleteVideo(st: Store, id: VideoId, steps: DeleteSteps) returns (r: Reply<()>)
    requires st.Valid()
    modifies st
    ensures st.Valid()
    ensures CaptionsMonotone(old(st.videos), st.videos)
    ensures id !in old(st.videos) ==> r == NotFound && st.Snapshot() == old(st.Snapshot())
    ensures id in old(st.videos) ==>
      var v := old(st.videos)[id];
      && (!steps.objectDeleted ==> r == ServerError && st.Snapshot() == old(st.Snapshot()))
      && (steps.objectDeleted ==> st.objects == old(st.objects) - {v.url})
      && (steps.objectDeleted && !steps.recordDeleted ==>
            r == ServerError && st.videos == old(st.videos) && st.folders == old(st.folders))
      && (steps.objectDeleted && steps.recordDeleted ==> st.videos == old(st.videos) - {id})
      && (steps.objectDeleted && steps.recordDeleted && !steps.pulled ==>
            r == ServerError && st.folders == old(st.folders))
      && (steps.objectDeleted && steps.recordDeleted && steps.pulled ==>
            r == Ok(()) && st.folders == PullFrom(old(st.folders), v.folder, id))
  {
    if id !in st.videos {
      return NotFound;
    }
    var video := st.videos[id];
    if !steps.objectDeleted {
      return ServerError;
    }
    st.objects := st.objects - {video.url};
    if !steps.recordDeleted {
      return ServerError;
    }
    st.videos := st.videos - {id};
    if !steps.pulled {
      return ServerError;
    }
    if video.folder in st.folders {
      var f := st.folders[video.folder];
      st.folders := st.folders[video.folder := f.(videos := Pull(f.videos, id))];
    }
    return Ok(());
  }

  // ---------------------------------------------------------------------
  // POST /generate-captions/:videoId, GET /captions/:videoId,
  // GET /captions/status/:videoId

  /** Outcomes of the caption pipeline. `readOk`: the bucket read stream
      delivers the object, when it exists. `written`: the temporary file is
      created and written. Then the whisper process, reading the .vtt it wrote,
      the bucket put of the captions, and the `captionsReady` update.

      Only the write stream's `error` is wired to the promise: a failing read
      stream (a missing object, say) emits an unhandled error, so the handler
      never answers. The last three steps run inside the `exec` callback,
      outside the handler's try: when one throws, no response is sent either. */
  datatype CaptionSteps = CaptionSteps(
    readOk: bool,
    written: bool,
    transcribed: bool,
    vttRead: bool,
    uploaded: bool,
    flagged: bool)

  datatype CaptionsGenerated = CaptionsGenerated(message: string, captionKey: string)

  method GenerateCaptions(st: Store, id: VideoId, steps: CaptionSteps) returns (r: Reply<CaptionsGenerated>)
    requires st.Valid()
    modifies st
    ensures st.Valid()
    ensures st.folders == old(st.folders)
    ensures CaptionsMonotone(old(st.videos), st.videos)
    ensures id !in old(st.videos) ==> r == NotFound && st.Snapshot() == old(st.Snapshot())
    ensures id in old(st.videos) ==>
      var fetched := old(st.videos)[id].url in old(st.objects) && steps.readOk;
      var downloaded := fetched && steps.written;
      && (!fetched ==> r == NoReply && st.Snapshot() == old(st.Snapshot()))
      && (fetched && (!steps.written || !steps.transcribed) ==>
            r == ServerError && st.Snapshot() == old(st.Snapshot()))
      && (downloaded && steps.transcribed && (!steps.vttRead || !steps.uploaded) ==>
            r == NoReply && st.Snapshot() == old(st.Snapshot()))
      && (downloaded && steps.transcribed && steps.vttRead && steps.uploaded ==>
            st.objects == old(st.objects) + {CaptionKey(id)})
      && (downloaded && steps.transcribed && steps.vttRead && steps.uploaded && !steps.flagged ==>
            r == NoReply && st.videos == old(st.videos))
      && (downloaded && steps.transcribed && steps.vttRead && steps.uploaded && steps.flagged ==>
            && r == Ok(CaptionsGenerated("Captions generated", CaptionKey(id)))
            && st.videos == old(st.videos)[id := old(st.videos)[id].(captionsReady := true)])
  {
    if id !in st.videos {
      return NotFound;
    }
    var video := st.videos[id];
    if video.url !in st.objects || !steps.readOk {
      return NoReply;
    }
    if !steps.written {
      return ServerError;
    }
    if !steps.transcribed {
      return ServerError;
    }
    if !steps.vttRead {
      return NoReply;
    }
    var captionKey := CaptionKey(id);
    if !steps.uploaded {
      return NoReply;
    }
    st.objects := st.objects + {captionKey};
    if !steps.flagged {
      return NoReply;
    }
    st.videos := st.videos[id := st.videos[id].(captionsReady := true)];
    return Ok(CaptionsGenerated("Captions generated", captionKey));
  }

  /** The caption URL: `{ captionUrl: null }` rather than an error while no
      caption object exists, otherwise a URL for `captions/<id>.vtt` valid for
      one hour. Every failure inside the try also answers null: `findOk` says
      whether `findById` succeeds, `headOk` whether `headObject` succeeds on a
      present object. */
  function CaptionUrl(db: Db, id: VideoId, findOk: bool, headOk: bool): (r: Reply<Option<SignedUrl>>)
    ensures r.Ok? || r.NotFound?
    ensures r.NotFound? <==> findOk && id !in db.videos
    ensures r.Ok? ==> (r.body.None? <==> !findOk || !headOk || CaptionKey(id) !in db.objects)
    ensures r.Ok? && r.body.Some? ==> r.body.value == SignedUrl(CaptionKey(id), 3600)
  {
    if !findOk then Ok(None)
    else if id !in db.videos then NotFound
    else if CaptionKey(id) in db.objects && headOk then Ok(Some(SignedUrl(CaptionKey(id), CaptionExpiry)))
    else Ok(None)
  }

  /** The stored flag, without looking at the bucket. The route has no try:
      a failing `findById` is an unhandled rejection and nothing is sent. */
  function CaptionStatus(db: Db, id: VideoId, findOk: bool): (r: Reply<bool>)
    ensures r.NoReply? <==> !findOk
    ensures r.NotFound? <==> findOk && id !in db.videos
    ensures r.Ok? <==> findOk && id in db.videos
    ensures r.Ok? ==> r.body == db.videos[id].captionsReady
  {
    if !findOk then NoReply
    else if id !in db.videos then NotFound else Ok(db.videos[id].captionsReady)
  }

  /** A freshly uploaded video has no captions yet: its status is false and
      its caption URL is null, unless a caption object for that id was
      already in the bucket. */
  lemma UploadedVideoHasNoCaptions(db: Db, folderId: FolderId, attempts: seq<Attempt>, i: nat, headOk: bool)
    requires UploadRun(db, folderId, attempts, KeysOf(attempts)).Committed?
    requires i < |attempts|
    requires CaptionKey(attempts[i].videoId) !in db.objects
    ensures var o := UploadRun(db, folderId, attempts, KeysOf(attempts));
      && CaptionStatus(o.db, attempts[i].videoId, true) == Ok(false)
      && CaptionUrl(o.db, attempts[i].videoId, true, headOk) == Ok(None)
  {
    var keys := KeysOf(attempts);
    UploadCommittedRecords(db, folderId, attempts, keys);
    UploadCommittedObjects(db, folderId, attempts, keys);
    var id := attempts[i].videoId;
    forall k | k in KeySet(keys) ensures k != CaptionKey(id) {
      var j :| 0 <= j < |keys| && keys[j] == k;
      VideoAndCaptionKeysDiffer(attempts[j].keyUuid, SanitizeFileName(attempts[j].file.originalname), id);
    }
  }
}
