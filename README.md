# solostream in Dafny

solostream is a small video library. An Express back end keeps **folders** and
**videos** in MongoDB and the video files in an S3-compatible bucket. A React
front end lets a user upload files into a folder, browse and delete folders
and videos, and watch a video through a presigned URL that it refreshes
before it expires. This project models the core of both halves and proves
properties of the model:

- `routes/videoRoutes.js` (module `VideoRoutes`, file `video_routes.dfy`):
  - file-name sanitising and the bucket key formats;
  - the upload loop, with its partial-failure states;
  - streaming URLs, the folder listing and video deletion;
  - caption generation, the caption URL and the caption status.
- `routes/folderRoutes.js` (module `FolderRoutes`, `folder_routes.dfy`):
  - folder creation and lookup by name;
  - the cascading folder delete.
- `src/pages/UploadPage.jsx` (module `UploadPage`, `upload_page.dfy`):
  - the selected-file list, de-duplicated by name;
  - removing a file and the folder-name guard;
  - the four upload runners drawing from one shared queue.
- `src/pages/HomePage.jsx` (module `HomePage`, `home_page.dfy`):
  - the duration label;
  - the name normalisation of the delete confirmation, and the confirmation itself;
  - the folder accordion.
- `src/pages/VideoPlayerPage.jsx` (module `VideoPlayerPage`,
  `video_player_page.dfy`):
  - the countdown label and the one-second countdown;
  - marking a video as completed, and moving on to the next one in the sidebar.

Shared modules:

- `Text` (`text.dfy`): JavaScript's `\s` class, `trim`, `toLowerCase` (for
  the ASCII letters A-Z only),
  `split`/`join`, decimal rendering and `padStart`.
- `Seqs` (`seqs.dfy`): `filter` and facts about it.
- `Common` (`common.dfy`): `Option`, the HTTP replies and the signed URL.
- `Models` (`models.dfy`): the Mongoose documents, and the `Store` class that
  holds the two collections and the bucket as fields.

The routes' handlers mutate the store, so they are methods on a `Store`. A
method either is proved against a specification function on the store's
snapshot (`Upload` against `UploadRun`, `DeleteFolder` against
`DeleteFolderSpec`) or states its whole new state branch by branch
(`DeleteVideo`, `GenerateCaptions`). The React handlers are functions from
the page state they read to the state they set. The exceptions are the
loops (`handleFileChange`, the runners, `handleVideoEnded`), which are
methods with loop invariants.

Everything outside the program stays outside the model:

- the database, the bucket, ffprobe, whisper and the HTTP client are
  represented only by the outcomes they report;
- generated ids (uuid, ObjectId) are parameters;
- every outcome is an input, so each lemma covers every combination of
  successes and failures.

Where the code and its intent disagree:

- The cascade in `routes/folderRoutes.js` deletes only records. It never
  deletes a bucket object, so the objects of a deleted folder's videos stay
  in the bucket (`FolderRoutes.CascadeSucceeds` states `objects` unchanged).
- Folder names are not unique. `findOne({ name })` returns some folder of
  that name (`FolderRoutes.FindFolderByName`).
- A failed probe or a failed save after a successful put leaves an orphaned
  bucket object (`VideoRoutes.UploadFailureLeaves`).
- As written, the cascade fails on every folder that still has a video. See
  Findings.
- `POST /:id/generate-captions` asks whisper for its VTT output in the
  temporary directory (routes/videoRoutes.js:147). whisper names that file
  after the input's base name, while the callback reads `captions.vtt`
  (routes/videoRoutes.js:157). The read then throws inside the `exec`
  callback, outside the `try`, and no reply is sent. The model covers it as
  the `vttRead` failure of `CaptionSteps`: no reply and no change
  (`VideoRoutes.GenerateCaptions`).

## Model

| member | source | states |
|---|---|---|
| VideoRoutes.CollapseSpaces | routes/videoRoutes.js:31 | `replace(/\s+/g, "_")` leaves no whitespace in the name |
| VideoRoutes.SanitizeFileName | routes/videoRoutes.js:30-31 | every character of a sanitised name is a word character, `.` or `-` |
| VideoRoutes.CollapseWithoutSpaces | routes/videoRoutes.js:31 | a name without whitespace is unchanged by the first replace |
| VideoRoutes.CollapseAppend | routes/videoRoutes.js:31 | collapsing distributes over concatenation when the cut does not split a whitespace run |
| VideoRoutes.RunBecomesOneUnderscore | routes/videoRoutes.js:31 | each maximal whitespace run becomes exactly one `_`, whatever surrounds it |
| VideoRoutes.SanitizeIdempotent | routes/videoRoutes.js:30-31 | sanitising a sanitised name changes nothing |
| VideoRoutes.CollapseKeepsNonUnderscore | routes/videoRoutes.js:31 | apart from `_`, collapsing keeps the kept characters in order and adds none |
| VideoRoutes.SanitizeKeepsOrder | routes/videoRoutes.js:30-31 | apart from `_`, the clean name is exactly the kept characters of the original, in order |
| VideoRoutes.CaptionKeyInjective | routes/videoRoutes.js:158 | distinct videos get distinct caption keys |
| VideoRoutes.VideoKeyInjective | routes/videoRoutes.js:41 | for uuids of one length, the video key determines the uuid and the clean name |
| VideoRoutes.VideoAndCaptionKeysDiffer | routes/videoRoutes.js:158 | no video key equals a caption key |
| VideoRoutes.VideoKey | routes/videoRoutes.js:41 | the key is `videos/`, the uuid, `-` and the clean name, and nothing else |
| VideoRoutes.CaptionKey | routes/videoRoutes.js:158 | the key is `captions/`, the video id and `.vtt`, and nothing else |
| VideoRoutes.KeysOf | routes/videoRoutes.js:40-41 | the handler's keys: one per file, built from its uuid and clean name |
| VideoRoutes.AttemptIds | routes/videoRoutes.js:53-63 | one id per file, in input order |
| VideoRoutes.KeySetSnoc | routes/videoRoutes.js:43-48 | the key set of a batch grows by each file's key |
| VideoRoutes.UploadStep | routes/videoRoutes.js:43-63 | one file commits exactly when its put, probe, save and `$push` all succeed; the bucket gains its key exactly when the put succeeded; no stored document changes, and the only new id is the file's |
| VideoRoutes.UploadRun | routes/videoRoutes.js:39-71 | a committed batch returns one document per file; an aborted batch stops at one of its files |
| VideoRoutes.Link | routes/videoRoutes.js:63 | `$push` appends the ids to the target folder's list, leaves every other folder as it was, and adds no folder |
| VideoRoutes.UploadAbortStays | routes/videoRoutes.js:39-71 | once a file throws, the later files change nothing |
| VideoRoutes.StepDone | routes/videoRoutes.js:43-63 | a committed file adds its object, a fresh document built from the file and probe, and its id at the end of the folder's list |
| VideoRoutes.RunCommittedSnoc | routes/videoRoutes.js:39-65 | a committed batch is the committed batch of all but the last file, plus one committed step |
| VideoRoutes.CommittedSnoc | routes/videoRoutes.js:39-65 | one more committed file adds exactly its object, its document and its folder entry |
| VideoRoutes.VideosSnoc | routes/videoRoutes.js:53-64 | the returned list grows by the new document |
| VideoRoutes.UploadCommittedVideos | routes/videoRoutes.js:53-67 | a 201 returns one document per file, in input order, with the file's name, size, key, probed duration and folder, and `captionsReady` false |
| VideoRoutes.UploadCommittedObjects | routes/videoRoutes.js:43-48 | a committed batch adds exactly the batch's keys to the bucket |
| VideoRoutes.EntriesAddedStep | routes/videoRoutes.js:62 | each saved document is stored under an id that was not taken before |
| VideoRoutes.RecordsAddedStep | routes/videoRoutes.js:62 | the store after one more save is the old store plus exactly the new documents |
| VideoRoutes.UploadCommittedRecords | routes/videoRoutes.js:53-62 | a committed batch stores exactly one new document per file under distinct fresh ids, and keeps every other document |
| VideoRoutes.UploadCommittedFolders | routes/videoRoutes.js:63 | the new ids are appended, in input order, to the folder's list, and a missing folder is left missing |
| VideoRoutes.LinkTwice | routes/videoRoutes.js:63 | two `$push`es equal one `$push` of both lists |
| VideoRoutes.UploadAbortedAt | routes/videoRoutes.js:39-71 | a 500 stops at file k: every earlier file committed, and the state is what file k's failing step left |
| VideoRoutes.UploadFailureLeaves | routes/videoRoutes.js:43-71 | a failure leaves nothing of the file if the put failed, an orphaned object if the probe or save failed, and an unlisted document if the `$push` failed |
| VideoRoutes.UploadKeepsCaptionFlags | routes/videoRoutes.js:34-72 | uploading removes no document and clears no `captionsReady` flag |
| VideoRoutes.UploadKeepsConsistent | routes/videoRoutes.js:53-62 | uploading keeps every document stored under its own id |
| VideoRoutes.RunStep | routes/videoRoutes.js:39-65 | the batch up to file i+1 is the batch up to file i followed by one step |
| VideoRoutes.Upload | routes/videoRoutes.js:34-72 | more than 50 files answers 500 and changes nothing; otherwise the handler's loop leaves the store as `UploadRun` with the handler's keys says, and replies with 201 and the documents or 500 |
| VideoRoutes.Stream | routes/videoRoutes.js:75-91 | 404 exactly for an unknown id; otherwise a URL for the video's own key that expires after 7200 s |
| VideoRoutes.VideosInFolder | routes/videoRoutes.js:94-101 | lists exactly the stored documents whose folder is the given one |
| VideoRoutes.UploadedVideosListed | routes/videoRoutes.js:34-101 | after a committed upload, every returned document is listed for its folder |
| VideoRoutes.Pull | routes/videoRoutes.js:118 | `$pull` removes every occurrence of the id, keeps every occurrence of every other id, and keeps their order |
| VideoRoutes.DeleteVideo | routes/videoRoutes.js:104-125 | 404 and no change for an unknown id; then the object, the document and the folder entry are removed in that order, and the first failure answers 500 and stops |
| VideoRoutes.GenerateCaptions | routes/videoRoutes.js:128-178 | 404 for an unknown id; a missing object or a failing read stream sends no reply and changes nothing; a failing write or transcription answers 500 and changes nothing; a failure reading the VTT file back or putting it sends no reply and changes nothing; after a put of `captions/<id>.vtt` the object is stored, the flag is set and the reply names the key, and a failing flag update sends no reply |
| VideoRoutes.CaptionUrl | routes/videoRoutes.js:181-203 | a failing lookup answers `null`; 404 exactly when the lookup succeeds and the id is unknown; `null` exactly when a lookup or head fails or no caption object exists, else a URL for the caption key expiring after 3600 s |
| VideoRoutes.CaptionStatus | routes/videoRoutes.js:206-211 | no reply exactly when the lookup fails; 404 exactly for an unknown id; otherwise the stored flag |
| VideoRoutes.UploadedVideoHasNoCaptions | routes/videoRoutes.js:181-211 | a freshly uploaded video has status false and caption URL null, unless its caption object already existed, whatever the head request does |
| FolderRoutes.CreateFolder | routes/folderRoutes.js:21-29 | a missing or empty name, a taken id or a failed save answers 500 and changes nothing; otherwise 201 with a new empty folder added and nothing else changed |
| FolderRoutes.FindFolderByName | routes/folderRoutes.js:31-39 | 404 exactly when no folder has that name; otherwise one stored folder of that name |
| FolderRoutes.CreatedNameIsFound | routes/folderRoutes.js:21-39 | a created folder's name is then taken |
| FolderRoutes.Present | routes/folderRoutes.js:48 | the listed ids that still have a document, in list order: every occurrence of such an id is kept and every occurrence of any other is dropped |
| FolderRoutes.Populate | routes/folderRoutes.js:48 | `populate` yields the documents of the present ids, in list order |
| FolderRoutes.PopulatedIds | routes/folderRoutes.js:48 | in a consistent store the populated documents carry exactly the listed ids that exist |
| FolderRoutes.FirstFailure | routes/folderRoutes.js:53-57 | the index of the first failing visit: every earlier visit succeeded |
| FolderRoutes.FirstFailureIs | routes/folderRoutes.js:53-65 | the first failing visit is the one at which the loop throws |
| FolderRoutes.DeleteFolder | routes/folderRoutes.js:43-66 | the handler ends in the state and reply that `DeleteFolderSpec` gives |
| FolderRoutes.DeleteFolderSpec | routes/folderRoutes.js:43-66 | the reply is 404, 500 or 200; 404 exactly for an unknown folder; 200 only when the folder is deleted, leaving the other folders; the folders are unchanged otherwise; the bucket is untouched, and every remaining document is unchanged |
| FolderRoutes.DeleteVisited | routes/folderRoutes.js:53-57 | the loop stops at the first failing visit, after deleting exactly the earlier visits' documents |
| FolderRoutes.CascadeSucceeds | routes/folderRoutes.js:43-66 | when everything succeeds: 200, the folder and exactly its listed documents are gone, and the bucket is untouched |
| FolderRoutes.CascadeFailsAt | routes/folderRoutes.js:53-65 | when visit k fails first: 500, and exactly the first k documents are gone |
| FolderRoutes.CascadeMissingFolder | routes/folderRoutes.js:50 | an unknown folder answers 404 and changes nothing |
| FolderRoutes.CascadeKeepsConsistent | routes/folderRoutes.js:43-66 | the cascade keeps every document stored under its own id |
| FolderRoutes.CascadeAsWritten | routes/folderRoutes.js:2-57 | as written, a folder with any video left answers 500 and nothing changes |
| FolderRoutes.CascadeWithImports | routes/folderRoutes.js:43-66 | with the imports, a successful cascade leaves no video in the deleted folder |
| UploadPage.NamesSnoc | src/pages/UploadPage.jsx:51-62 | the names of a list grow by the appended file's name |
| UploadPage.NamesAppend | src/pages/UploadPage.jsx:69 | the names of two lists joined are the union of their names |
| UploadPage.AcceptedNames | src/pages/UploadPage.jsx:51-62 | the kept files carry exactly the new names, each once |
| UploadPage.Accepted | src/pages/UploadPage.jsx:51-62 | the kept files are selected files whose names were not listed, and are at most the selection |
| UploadPage.Skipped | src/pages/UploadPage.jsx:51-67 | the skipped names are names of selected files, at most one per selected file |
| UploadPage.AcceptedPlusSkipped | src/pages/UploadPage.jsx:51-62 | every selected file is either kept or skipped |
| UploadPage.AcceptedInOrder | src/pages/UploadPage.jsx:51-62 | the kept files keep selection order |
| UploadPage.UniqueSnoc | src/pages/UploadPage.jsx:54-61 | appending keeps names unique exactly when the new name is new |
| UploadPage.NoneListedSnoc | src/pages/UploadPage.jsx:54-61 | appending keeps every name unlisted exactly when the new name is unlisted |
| UploadPage.NothingSkipped | src/pages/UploadPage.jsx:64-67 | no warning exactly when the selection has no repeated name and no name already listed |
| UploadPage.NoDuplicatesAfterChange | src/pages/UploadPage.jsx:49-70 | the file list never gains a repeated name |
| UploadPage.ChangeStep | src/pages/UploadPage.jsx:54-61 | one more selected file is kept or skipped according to the names seen so far |
| UploadPage.HandleFileChange | src/pages/UploadPage.jsx:49-70 | the new list is the old list plus the kept files; the warning appears exactly when something was skipped, and names the skipped files |
| UploadPage.RemoveFile | src/pages/UploadPage.jsx:72-74 | removes every file of that name, keeps every occurrence of every other file, and keeps their order |
| UploadPage.RemoveFileProperties | src/pages/UploadPage.jsx:72-74 | removing is idempotent, a missing name changes nothing, and unique names stay unique |
| UploadPage.UniqueNamesFilter | src/pages/UploadPage.jsx:72-74 | filtering keeps names unique |
| UploadPage.CreateFolderName | src/pages/UploadPage.jsx:40-47 | nothing is sent exactly for a blank name; otherwise the trimmed name, a slice of the input with no whitespace at either end |
| UploadPage.Failures | src/pages/UploadPage.jsx:89-119 | the failures counted are at most the files dequeued |
| UploadPage.DrainCount | src/pages/UploadPage.jsx:85-122 | the runners dequeue files while fewer than four have failed, and stop at the fourth failure or an empty queue |
| UploadPage.CompletedHas | src/pages/UploadPage.jsx:118 | a dequeued file whose upload completed is among the completed names |
| UploadPage.Completed | src/pages/UploadPage.jsx:118 | the completed names and the failures together are at most the files dequeued |
| UploadPage.ListAfter | src/pages/UploadPage.jsx:118 | the list after the uploads holds only files of the original list, and no more of them |
| UploadPage.ListAfterFilters | src/pages/UploadPage.jsx:118 | the list after n dequeued files is the original list without every completed name |
| UploadPage.CompletedStep | src/pages/UploadPage.jsx:118 | one more completed upload filters out one more name |
| UploadPage.HandleUpload | src/pages/UploadPage.jsx:76-124 | no folder shows the warning; no files does nothing; otherwise the files sent, the queue left over and the list are those of the drain |
| UploadPage.RunRunners | src/pages/UploadPage.jsx:85-122 | the runners' turns dequeue `DrainCount` files from the front and leave the list `ListAfter` says |
| UploadPage.DrainCountIs | src/pages/UploadPage.jsx:85-122 | a length with fewer than four failures before its last file and four at the next one is the drain's length |
| UploadPage.DrainsEverything | src/pages/UploadPage.jsx:85-122 | with fewer than four failures every file is dequeued |
| UploadPage.DrainStopsAtFourthFailure | src/pages/UploadPage.jsx:85-122 | a drain that stops early has seen exactly four failures, the last file dequeued being one |
| UploadPage.FailuresMonotone | src/pages/UploadPage.jsx:89-119 | failures only accumulate |
| UploadPage.CompletedFilesLeave | src/pages/UploadPage.jsx:118 | every dequeued file that completed is gone from the list |
| HomePage.PartsOf | src/pages/HomePage.jsx:12 | the hour, minute and second parts present contain no space, and there is a non-empty first one when any field is positive |
| HomePage.DurationParts | src/pages/HomePage.jsx:9-12 | the parts `filter(Boolean)` keeps contain no space, and a positive duration has a non-empty first part |
| HomePage.FilterThree | src/pages/HomePage.jsx:12 | `filter` over the three candidates keeps exactly those that pass, in order |
| HomePage.DigitsThenUnit | src/pages/HomePage.jsx:12 | a number followed by its unit letter contains no space |
| HomePage.PartSecondsOf | src/pages/HomePage.jsx:9-11 | a part reads back as its number of seconds |
| HomePage.SumPartsAppend | src/pages/HomePage.jsx:12 | the seconds of a list of parts add up over concatenation |
| HomePage.SumPartsOf | src/pages/HomePage.jsx:8-12 | the parts read back as the hours and minutes, plus the seconds when there are no hours |
| HomePage.OptionalPart | src/pages/HomePage.jsx:12 | an omitted part adds nothing, a present part adds its value in seconds |
| HomePage.ParseFormatDuration | src/pages/HomePage.jsx:7-13 | under one hour the label reads back as the duration; from one hour on, as the duration without its seconds |
| HomePage.FormatDurationDistinct | src/pages/HomePage.jsx:7-13 | distinct durations under one hour get distinct labels |
| HomePage.FormatDurationShape | src/pages/HomePage.jsx:7-13 | the label is "N/A" exactly for a zero duration, and is never empty |
| HomePage.FormatDuration | src/pages/HomePage.jsx:7-13 | the label is never empty |
| HomePage.JoinStartsWith | src/pages/HomePage.jsx:12 | the joined label starts with its first part |
| HomePage.Normalize | src/pages/HomePage.jsx:57 | the normalised name has no whitespace and no ASCII capital letter |
| HomePage.NormalizeIgnoresTrim | src/pages/HomePage.jsx:57 | the `trim` changes nothing: normalising is lower-casing and dropping all whitespace |
| HomePage.NormalizeIdempotent | src/pages/HomePage.jsx:57 | normalising twice is normalising once |
| HomePage.NormalizeIgnoresCaseAndSpace | src/pages/HomePage.jsx:57-61 | names that differ only in case and whitespace confirm each other |
| HomePage.DropVideo | src/pages/HomePage.jsx:76-79 | removes every entry with that id, keeps every occurrence of every other entry, and keeps their order |
| HomePage.ConfirmMismatch | src/pages/HomePage.jsx:58-61 | a mismatched name sets the error, sends nothing and changes nothing else |
| HomePage.ConfirmCallsIffMatch | src/pages/HomePage.jsx:54-86 | a delete request is sent exactly when there is a target and the names match, and it targets that folder or video |
| HomePage.ConfirmDelete | src/pages/HomePage.jsx:54-86 | the accordion is kept; without a request the lists and the target are kept; the lists change only when the popup closes |
| HomePage.VideoDeleteUpdatesOneList | src/pages/HomePage.jsx:72-82 | a deleted video leaves only its folder's list, which loses exactly that id; the popup closes |
| HomePage.MatchedVideoDelete | src/pages/HomePage.jsx:72-98 | the matched video branch updates one list, keeps the accordion and closes the popup |
| HomePage.FolderDeleteDropsOneKey | src/pages/HomePage.jsx:64-82 | a deleted folder drops exactly its loaded list and closes the popup |
| HomePage.FailedDeleteKeepsLists | src/pages/HomePage.jsx:83-85 | a failed request only sets the error line |
| HomePage.ToggleFlipsOne | src/pages/HomePage.jsx:38-52 | toggling flips only that folder, fetches exactly when opening, and stores the result or an empty list |
| HomePage.ToggleTwice | src/pages/HomePage.jsx:38-52 | toggling twice restores every folder's open state |
| HomePage.ToggleFolder | src/pages/HomePage.jsx:38-52 | the popup and the error are kept; only that folder's list may be added or replaced, and every other loaded list is kept |
| VideoPlayerPage.Padded | src/pages/VideoPlayerPage.jsx:142-145 | a padded field is at least two digits, exactly two below 100 |
| VideoPlayerPage.PaddedValue | src/pages/VideoPlayerPage.jsx:142-145 | a padded field reads back as its number |
| VideoPlayerPage.FormatTimeFields | src/pages/VideoPlayerPage.jsx:141-146 | the label splits on `:` into three fields of at least two digits; minutes and seconds read below 60, and the fields add up to the time |
| VideoPlayerPage.FormatTimeLength | src/pages/VideoPlayerPage.jsx:141-146 | below 100 hours the label has exactly 8 characters |
| VideoPlayerPage.FormatTime | src/pages/VideoPlayerPage.jsx:141-146 | the label has at least 8 characters |
| VideoPlayerPage.Tick | src/pages/VideoPlayerPage.jsx:84-91 | a tick at 1 or below asks for a refresh and resets to 7200; otherwise it counts down by one |
| VideoPlayerPage.CountdownFromFull | src/pages/VideoPlayerPage.jsx:84-91 | after n seconds from a fresh URL there were n / 7200 refreshes and the countdown shows 7200 - n % 7200 |
| VideoPlayerPage.TickKeepsRange | src/pages/VideoPlayerPage.jsx:84-91 | the countdown stays between 1 and 7200 |
| VideoPlayerPage.Ticks | src/pages/VideoPlayerPage.jsx:84-91 | n ticks ask for at most n refreshes |
| VideoPlayerPage.SidebarIds | src/pages/VideoPlayerPage.jsx:175 | the sidebar's ids, in order |
| VideoPlayerPage.MarkCompleted | src/pages/VideoPlayerPage.jsx:168-172 | the id is in the completed list, appended at the end unless already there |
| VideoPlayerPage.MarkCompletedProperties | src/pages/VideoPlayerPage.jsx:168-172 | marking is idempotent, never adds a duplicate, and changes nothing exactly when the id was there |
| VideoPlayerPage.NextVideo | src/pages/VideoPlayerPage.jsx:175-178 | the next video is the sidebar entry right after the first entry with that id |
| VideoPlayerPage.NextVideoIff | src/pages/VideoPlayerPage.jsx:175-178 | the player moves on exactly when the id occurs before the last entry |
| VideoPlayerPage.HandleVideoEnded | src/pages/VideoPlayerPage.jsx:167-179 | the saved list is the marked list, and the next video is the one `NextVideo` gives |
| Text.LowerChar | src/pages/HomePage.jsx:57 | a lower-cased character is not an ASCII capital, is whitespace exactly when the original was, and any other character stays as it is |
| Text.TrimStart | src/pages/UploadPage.jsx:41 | drops exactly the leading whitespace |
| Text.TrimEnd | src/pages/UploadPage.jsx:41 | drops exactly the trailing whitespace |
| Text.Trim | src/pages/UploadPage.jsx:41 | the trimmed string is no longer than the input, and is empty or has no whitespace at either end |
| Text.TrimIsSlice | src/pages/UploadPage.jsx:41 | the trimmed string is the input without a whitespace prefix and suffix |
| Text.TrimEmpty | src/pages/UploadPage.jsx:41 | trimming gives the empty string exactly for an all-whitespace input |
| Text.HoursMinutesSeconds | src/pages/VideoPlayerPage.jsx:142-145 | hours, minutes under 60 and seconds under 60 that add up to the time |
| Text.SplitNoSeparator | src/pages/HomePage.jsx:12 | a string without the separator splits into itself |
| Text.SplitAfterPiece | src/pages/HomePage.jsx:12 | a piece followed by the separator splits off as the first piece |
| Text.SplitJoin | src/pages/HomePage.jsx:12 | splitting a join of separator-free pieces gives the pieces back |
| Text.NatToString | src/pages/VideoPlayerPage.jsx:142-145 | `String(n)` is all digits: one below 10, at most two below 100 |
| Text.DigitsValueLeadingZero | src/pages/VideoPlayerPage.jsx:142-145 | a leading `0` does not change the value of a digit string |
| Text.DigitsValueOfNatToString | src/pages/VideoPlayerPage.jsx:142-145 | `String(n)` reads back as n |
| Text.PadStart2 | src/pages/VideoPlayerPage.jsx:142-145 | at least two characters; longer input unchanged; shorter input right-aligned behind `0` characters |

## Left out

- The bucket, the database, ffprobe, whisper, the temporary files and the
  HTTP client are not modelled. Their outcomes are parameters (`Attempt`,
  `DeleteSteps`, `CaptionSteps`, the outcome flags of `CreateFolder` and
  `DeleteFolder`, `uploadOk`, `deleted`, `response`).
- Presigned-URL signing is not modelled: a URL is its key and its expiry.
- uuid and ObjectId generation: ids are inputs.
- A failing database read is modelled only where its answer differs from
  500: `CaptionUrl`'s `findOk` (the catch answers `{ captionUrl: null }`) and
  `CaptionStatus`'s `findOk` (the handler has no `try`, so nothing is sent).
  Elsewhere reads succeed, so the 500 answers of the other catch blocks for a
  failing `findById`, `find` or `findOne` are not represented.
- `GET /api/folders` (routes/folderRoutes.js:11-18) is not modelled: it
  only returns the stored folders.
- `DELETE_PASSWORD` (routes/folderRoutes.js:8) is not modelled: it is
  declared and never used.
- VideoRoutes.NewVideo: the duration is a whole number of seconds. ffprobe
  reports a floating-point `format.duration`, which
  routes/videoRoutes.js:51-60 stores as it is.
- Text.LowerChar: lowers the ASCII capitals A-Z only. JavaScript's
  `toLowerCase` also lowers the other Unicode capitals (`É`, `Σ`, ...), and
  those stay as they are in the model.
- HomePage.Normalize: inherits this from `Text.LowerChar`. Two names that
  differ only in a non-ASCII capital confirm each other in the page, not in
  the model.
- VideoRoutes.UploadRun: takes the key list as an argument so that the
  lemmas hold for every key list. The handler's run is the one with
  `KeysOf(attempts)`, which is what `Upload`'s contract uses.
- VideoRoutes.GenerateCaptions: failures inside the `exec` callback are
  modelled as no reply at all. Timing and the process's own output are not
  modelled, and neither is the `unlink` of the temporary files.
- UploadPage.RunRunners: the four runners are modelled as one loop that
  takes turns. The interleaving of their awaits and the progress, speed and
  eta numbers (floating point) are not modelled, and neither is the
  3-second timer that hides the folder warning. A failed upload ends its
  runner, and the drain stops once four runners have ended.
- UploadPage.UploadRun: `Promise.all` rejecting is not modelled. The run
  ends with the state the runners leave.
- `formatSize` in both pages is not modelled: it is floating-point
  formatting.
- HomePage.ToggleFolder: the `localeCompare` sort of the fetched videos is
  not modelled. The response is taken as already sorted.
- HomePage.ConfirmDelete: only targets whose folder list is loaded are
  covered (`TargetLoaded`). The page can only open a video's popup from a
  loaded list.
- HomePage.FormatDuration: only whole seconds are modelled. `isNaN`, a
  missing duration and fractional seconds are not.
- VideoPlayerPage.FormatTime: only whole seconds are modelled, and
  fractions are not floored.
- VideoPlayerPage.HandleVideoEnded: `localStorage` is a parameter and its
  JSON encoding is not modelled. Navigation is the returned next id.
- `refreshPresignedURL`'s resume of the playback position and the player's
  keyboard, speed, volume and scroll handlers are not modelled: they are
  browser media state.
- React rendering, `fetchFolders` and the effects' timers are not modelled.
  The interval is modelled as a sequence of ticks (`Ticks`).

## Findings

| source | as written | input that shows it | evidently intended | confidence | as-written member | corrected member |
|---|---|---|---|---|---|---|
| routes/folderRoutes.js:2-5,54-55 | `path` and `fs` are never required, so `path.join` throws a ReferenceError on the first visit of the loop | any folder whose list names at least one stored video: the reply is 500 and nothing is deleted | each visit deletes the video's record, and the folder is then deleted | not executed | FolderRoutes.CascadeAsWritten | FolderRoutes.CascadeWithImports |
