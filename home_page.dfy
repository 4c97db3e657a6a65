/** src/pages/HomePage.jsx: the duration label, the delete-confirmation gate
    with its `normalize`, the local `videos` map updates after a delete, and
    the folder accordion's open flags. React state is a HomeView value and
    each handler returns the next one. */
module HomePage {
  import opened Common
  import opened Seqs
  import opened Text
  import opened Models

  // ---------------------------------------------------------------------
  // formatDuration

  function NonEmpty(p: string): bool {
    p != ""
  }

  /** The three candidate parts before `.filter(Boolean)`. */
  function DurationCandidates(s: nat): seq<string> {
    var hrs, mins, secs := s / 3600, (s % 3600) / 60, s % 60;
    [ if hrs > 0 then NatToString(hrs) + "h" else "",
      if mins > 0 then NatToString(mins) + "m" else "",
      if secs > 0 && hrs == 0 then NatToString(secs) + "s" else "" ]
  }

  /** `formatDuration` on a whole number of seconds: "N/A" for 0, otherwise
      the non-empty parts joined by single spaces. */
  function FormatDuration(s: nat): (r: string)
    ensures r != ""
  {
    if s == 0 then "N/A"
    else
      JoinStartsWith(DurationParts(s), " ");
      Join(Filter(DurationCandidates(s), NonEmpty), " ")
  }

  /** The parts present for `hrs` hours, `mins` minutes and `secs` seconds. */
  function PartsOf(hrs: nat, mins: nat, secs: nat): (ps: seq<string>)
    ensures forall i :: 0 <= i < |ps| ==> ' ' !in ps[i]
    ensures (hrs > 0 || mins > 0 || secs > 0) ==> |ps| >= 1 && ps[0] != ""
  {
    DigitsThenUnit(hrs, 'h');
    DigitsThenUnit(mins, 'm');
    DigitsThenUnit(secs, 's');
    (if hrs > 0 then [NatToString(hrs) + "h"] else [])
    + (if mins > 0 then [NatToString(mins) + "m"] else [])
    + (if secs > 0 && hrs == 0 then [NatToString(secs) + "s"] else [])
  }

  /** The parts a duration label is made of: the non-empty candidates. */
  function DurationParts(s: nat): (ps: seq<string>)
    ensures s > 0 ==> |ps| >= 1 && ps[0] != ""
    ensures forall i :: 0 <= i < |ps| ==> ' ' !in ps[i]
    ensures Filter(DurationCandidates(s), NonEmpty) == ps
  {
    var hrs, mins, secs := s / 3600, (s % 3600) / 60, s % 60;
    FilterThree(DurationCandidates(s), NonEmpty);
    HoursMinutesSeconds(s);
    PartsOf(hrs, mins, secs)
  }

  lemma FilterThree(c: seq<string>, p: string -> bool)
    requires |c| == 3
    ensures Filter(c, p) ==
      (if p(c[0]) then [c[0]] else []) + (if p(c[1]) then [c[1]] else []) + (if p(c[2]) then [c[2]] else [])
  {
    var c2, c1 := c[..2], c[..1];
    assert c2[..1] == c1 && c1[..0] == [];
    assert Filter(c1, p) == if p(c[0]) then [c[0]] else [];
    assert Filter(c2, p) == Filter(c1, p) + (if p(c[1]) then [c[1]] else []);
    assert Filter(c, p) == Filter(c2, p) + (if p(c[2]) then [c[2]] else []);
  }

  lemma DigitsThenUnit(n: nat, u: char)
    requires u != ' '
    ensures ' ' !in NatToString(n) + [u]
  {
    var p := NatToString(n) + [u];
    forall i | 0 <= i < |p| ensures p[i] != ' ' {
      if i < |p| - 1 { assert p[i] == NatToString(n)[i]; }
    }
  }

  /** The value a label part stands for: digits followed by a unit. */
  function PartSeconds(p: string): nat {
    if p == [] then 0
    else
      var n, u := DigitsValue(p[..|p| - 1]), p[|p| - 1];
      if u == 'h' then n * 3600 else if u == 'm' then n * 60 else if u == 's' then n else 0
  }

  function SumParts(ps: seq<string>): nat {
    if ps == [] then 0 else PartSeconds(ps[0]) + SumParts(ps[1..])
  }

  /** Reading a duration label back: split on spaces and add up the parts. */
  function ParseDuration(text: string): nat {
    SumParts(Split(text, ' '))
  }

  lemma PartSecondsOf(n: nat, u: char)
    ensures PartSeconds(NatToString(n) + [u]) ==
      if u == 'h' then n * 3600 else if u == 'm' then n * 60 else if u == 's' then n else 0
  {
    var p := NatToString(n) + [u];
    assert p[..|p| - 1] == NatToString(n);
    DigitsValueOfNatToString(n);
  }

  lemma {:induction false} SumPartsAppend(a: seq<string>, b: seq<string>)
    ensures SumParts(a + b) == SumParts(a) + SumParts(b)
  {
    if a == [] {
      assert a + b == b;
    } else {
      assert (a + b)[1..] == a[1..] + b;
      SumPartsAppend(a[1..], b);
    }
  }

  /** The present parts add up to the hours and minutes, and to the
      seconds only when there are no hours. */
  lemma SumPartsOf(hrs: nat, mins: nat, secs: nat)
    ensures SumParts(PartsOf(hrs, mins, secs)) == hrs * 3600 + mins * 60 + (if hrs == 0 then secs else 0)
  {
    var hp := if hrs > 0 then [NatToString(hrs) + "h"] else [];
    var mp := if mins > 0 then [NatToString(mins) + "m"] else [];
    var sp := if secs > 0 && hrs == 0 then [NatToString(secs) + "s"] else [];
    SumPartsAppend(hp + mp, sp);
    SumPartsAppend(hp, mp);
    OptionalPart(hrs, 'h', hrs > 0);
    OptionalPart(mins, 'm', mins > 0);
    OptionalPart(secs, 's', secs > 0 && hrs == 0);
  }

  lemma OptionalPart(n: nat, u: char, present: bool)
    ensures SumParts(if present then [NatToString(n) + [u]] else []) ==
      if !present then 0 else if u == 'h' then n * 3600 else if u == 'm' then n * 60 else if u == 's' then n else 0
  {
    if present {
      PartSecondsOf(n, u);
      var p := [NatToString(n) + [u]];
      assert p[1..] == [];
    }
  }

  /** The label of a positive duration reads back as that many seconds,
      except that the seconds are not shown once there are hours. */
  lemma ParseFormatDuration(s: nat)
    requires s > 0
    ensures ParseDuration(FormatDuration(s)) == if s >= 3600 then s - s % 60 else s
  {
    SplitJoin(DurationParts(s), ' ');
    SumPartsOf(s / 3600, (s % 3600) / 60, s % 60);
    HoursMinutesSeconds(s);
  }

  /** Below an hour, different durations get different labels, and no label
      of a positive duration is empty or "N/A". */
  lemma FormatDurationDistinct(s: nat, t: nat)
    requires 0 < s < 3600 && 0 < t < 3600 && s != t
    ensures FormatDuration(s) != FormatDuration(t)
  {
    ParseFormatDuration(s);
    ParseFormatDuration(t);
  }

  lemma FormatDurationShape(s: nat)
    ensures s == 0 <==> FormatDuration(s) == "N/A"
    ensures FormatDuration(s) != ""
  {
    if s > 0 {
      JoinStartsWith(DurationParts(s), " ");
      if s < 3600 {
        ParseFormatDuration(s);
        assert ParseDuration("N/A") == 0 by {
          SplitNoSeparator("N/A", ' ');
        }
      } else {
        HoursMinutesSeconds(s);
        var h := NatToString(s / 3600) + "h";
        assert FormatDuration(s)[..|h|] == h && h[|h| - 1] == 'h';
      }
    }
  }

  /** A join starts with its first piece. */
  lemma JoinStartsWith(ps: seq<string>, sep: string)
    requires |ps| >= 1
    ensures |Join(ps, sep)| >= |ps[0]| && Join(ps, sep)[..|ps[0]|] == ps[0]
  {
    if |ps| > 1 {
      assert (ps[0] + sep + Join(ps[1..], sep))[..|ps[0]|] == ps[0];
    }
  }

  // ---------------------------------------------------------------------
  // normalize

  function NotSpace(c: char): bool {
    !IsSpace(c)
  }

  /** `str.trim().toLowerCase().replace(/\s+/g, "")`. */
  function Normalize(str: string): (r: string)
    ensures NoSpace(r)
    ensures forall i :: 0 <= i < |r| ==> !IsUpper(r[i])
  {
    var t := ToLower(Trim(str));
    FilterNotSpace(t);
    Filter(t, NotSpace)
  }

  lemma FilterNotSpace(t: string)
    ensures NoSpace(Filter(t, NotSpace))
    ensures forall i :: 0 <= i < |Filter(t, NotSpace)| ==> Filter(t, NotSpace)[i] in t
  {
    var f := Filter(t, NotSpace);
    forall i | 0 <= i < |f| ensures f[i] in t && !IsSpace(f[i]) {
      assert f[i] in f;
    }
  }

  lemma ToLowerAppend(a: string, b: string)
    ensures ToLower(a + b) == ToLower(a) + ToLower(b)
  {
  }

  lemma LowerSpacesVanish(a: string)
    requires AllSpace(a)
    ensures Filter(ToLower(a), NotSpace) == []
  {
    FilterDropsAll(ToLower(a), NotSpace);
  }

  lemma FilterLowerAround(a: string, r: string, b: string)
    requires AllSpace(a) && AllSpace(b)
    ensures Filter(ToLower(a + r + b), NotSpace) == Filter(ToLower(r), NotSpace)
  {
    ToLowerAppend(a + r, b);
    ToLowerAppend(a, r);
    FilterAppend(ToLower(a) + ToLower(r), ToLower(b), NotSpace);
    FilterAppend(ToLower(a), ToLower(r), NotSpace);
    LowerSpacesVanish(a);
    LowerSpacesVanish(b);
  }

  lemma SliceAround(s: string, i: nat, j: nat)
    requires i <= j <= |s|
    ensures s == s[..i] + s[i..j] + s[j..]
  {
  }

  /** The `trim` in `normalize` changes nothing: removing all whitespace
      removes the ends too. */
  lemma NormalizeIgnoresTrim(str: string)
    ensures Normalize(str) == Filter(ToLower(str), NotSpace)
  {
    TrimIsSlice(str);
    var r, i := Trim(str), |str| - |TrimStart(str)|;
    SliceAround(str, i, i + |r|);
    FilterLowerAround(str[..i], r, str[i + |r|..]);
  }

  /** Normalising a normalised name changes nothing. */
  lemma NormalizeIdempotent(str: string)
    ensures Normalize(Normalize(str)) == Normalize(str)
  {
    var r := Normalize(str);
    NormalizeIgnoresTrim(r);
    assert ToLower(r) == r;
    FilterKeepsAll(r, NotSpace);
  }

  /** Names that differ only in letter case and whitespace confirm each other. */
  lemma NormalizeIgnoresCaseAndSpace(x: string, y: string)
    requires Filter(ToLower(x), NotSpace) == Filter(ToLower(y), NotSpace)
    ensures Normalize(x) == Normalize(y)
  {
    NormalizeIgnoresTrim(x);
    NormalizeIgnoresTrim(y);
  }

  // ---------------------------------------------------------------------
  // handleConfirmDelete

  datatype TargetKind = FolderTarget | VideoTarget

  /** `deleteTarget`: what the popup was opened for. `folderId` is set for
      videos only. */
  datatype DeleteTarget = DeleteTarget(kind: TargetKind, id: string, name: string, folderId: Option<FolderId>)

  /** The page state the handlers touch: the accordion's open flags, the
      loaded video lists per folder, the popup target, the typed name and the
      error line. */
  datatype HomeView = HomeView(
    openFolders: map<FolderId, bool>,
    videos: map<FolderId, seq<Video>>,
    deleteTarget: Option<DeleteTarget>,
    confirmName: string,
    error: string)

  /** The API call a confirmation makes, if any. */
  datatype DeleteCall = DeleteFolderCall(folderId: FolderId) | DeleteVideoCall(videoId: VideoId)

  datatype Confirmed = Confirmed(view: HomeView, call: Option<DeleteCall>)

  /** A video target's folder has a loaded list: its delete button is only
      rendered from `videos[folder._id]`. */
  predicate TargetLoaded(v: HomeView) {
    v.deleteTarget.Some? && v.deleteTarget.value.kind == VideoTarget ==>
      v.deleteTarget.value.folderId.Some? && v.deleteTarget.value.folderId.value in v.videos
  }

  function VideoIdIsNot(id: VideoId): Video -> bool {
    (x: Video) => x.id != id
  }

  /** `list.filter((v) => v._id !== id)`. */
  function DropVideo(list: seq<Video>, id: VideoId): (r: seq<Video>)
    ensures forall x :: x in r <==> x in list && x.id != id
    ensures IsSubseq(r, list)
    ensures forall x :: multiset(r)[x] == if x.id == id then 0 else multiset(list)[x]
  {
    FilterIsSubseq(list, VideoIdIsNot(id));
    FilterMultiset(list, VideoIdIsNot(id));
    Filter(list, VideoIdIsNot(id))
  }

  /** The popup closed: no target, an empty field, no error. */
  function ClosePopup(v: HomeView): HomeView {
    v.(deleteTarget := None, confirmName := "", error := "")
  }

  /** `handleConfirmDelete`, given whether the delete request succeeds. */
  function ConfirmDelete(v: HomeView, deleted: bool): (r: Confirmed)
    requires TargetLoaded(v)
    ensures r.view.openFolders == v.openFolders
    ensures r.call.None? ==> r.view.videos == v.videos && r.view.deleteTarget == v.deleteTarget
    ensures r.view.deleteTarget.Some? ==> r.view.videos == v.videos
  {
    if v.deleteTarget.None? then Confirmed(v, None)
    else if Normalize(v.confirmName) != Normalize(v.deleteTarget.value.name) then
      Confirmed(v.(error := "Name does not match."), None)
    else ConfirmMatched(v, deleted)
  }

  /** The rest of `handleConfirmDelete` once the names match: the request,
      then either the error line or the updated lists with the popup closed. */
  function ConfirmMatched(v: HomeView, deleted: bool): Confirmed
    requires TargetLoaded(v) && v.deleteTarget.Some?
  {
    var t := v.deleteTarget.value;
    var call := if t.kind == FolderTarget then DeleteFolderCall(t.id) else DeleteVideoCall(t.id);
    if !deleted then Confirmed(v.(error := "Deletion failed. Try again."), Some(call))
    else if t.kind == FolderTarget then Confirmed(ClosePopup(v.(videos := v.videos - {t.id})), Some(call))
    else
      var fid := t.folderId.value;
      Confirmed(ClosePopup(v.(videos := v.videos[fid := DropVideo(v.videos[fid], t.id)])), Some(call))
  }

  /** A name that does not match sets the error and sends nothing; nothing
      else changes. */
  lemma ConfirmMismatch(v: HomeView, deleted: bool)
    requires TargetLoaded(v) && v.deleteTarget.Some?
    requires Normalize(v.confirmName) != Normalize(v.deleteTarget.value.name)
    ensures ConfirmDelete(v, deleted) == Confirmed(v.(error := "Name does not match."), None)
  {
  }

  /** A request is sent exactly when there is a target and the names match. */
  lemma ConfirmCallsIffMatch(v: HomeView, deleted: bool)
    requires TargetLoaded(v)
    ensures ConfirmDelete(v, deleted).call.Some? <==>
      v.deleteTarget.Some? && Normalize(v.confirmName) == Normalize(v.deleteTarget.value.name)
    ensures ConfirmDelete(v, deleted).call.Some? ==>
      ConfirmDelete(v, deleted).call.value ==
        (if v.deleteTarget.value.kind == FolderTarget then DeleteFolderCall(v.deleteTarget.value.id)
         else DeleteVideoCall(v.deleteTarget.value.id))
  {
  }

  /** After a video is deleted, only its folder's list changes, and it loses
      exactly the entries with that id, the rest keeping their order. */
  lemma VideoDeleteUpdatesOneList(v: HomeView)
    requires TargetLoaded(v) && v.deleteTarget.Some? && v.deleteTarget.value.kind == VideoTarget
    requires Normalize(v.confirmName) == Normalize(v.deleteTarget.value.name)
    ensures var w := ConfirmDelete(v, true).view;
      var t := v.deleteTarget.value;
      var fid := t.folderId.value;
      && w.videos.Keys == v.videos.Keys
      && (forall k :: k in v.videos && k != fid ==> w.videos[k] == v.videos[k])
      && (forall x :: x in w.videos[fid] <==> x in v.videos[fid] && x.id != t.id)
      && IsSubseq(w.videos[fid], v.videos[fid])
      && w.openFolders == v.openFolders && w.deleteTarget.None? && w.error == ""
  {
    MatchedVideoDelete(v);
  }

  lemma MatchedVideoDelete(v: HomeView)
    requires TargetLoaded(v) && v.deleteTarget.Some? && v.deleteTarget.value.kind == VideoTarget
    ensures var w := ConfirmMatched(v, true).view;
      var t := v.deleteTarget.value;
      var fid := t.folderId.value;
      && w.videos.Keys == v.videos.Keys
      && (forall k :: k in v.videos && k != fid ==> w.videos[k] == v.videos[k])
      && (forall x :: x in w.videos[fid] <==> x in v.videos[fid] && x.id != t.id)
      && IsSubseq(w.videos[fid], v.videos[fid])
      && w.openFolders == v.openFolders && w.deleteTarget.None? && w.error == ""
  {
    var t := v.deleteTarget.value;
    var fid := t.folderId.value;
    var dropped := DropVideo(v.videos[fid], t.id);
    assert ConfirmMatched(v, true).view == ClosePopup(v.(videos := v.videos[fid := dropped]));
  }

  /** After a folder is deleted, exactly that folder's loaded list is dropped. */
  lemma FolderDeleteDropsOneKey(v: HomeView)
    requires TargetLoaded(v) && v.deleteTarget.Some? && v.deleteTarget.value.kind == FolderTarget
    requires Normalize(v.confirmName) == Normalize(v.deleteTarget.value.name)
    ensures var w := ConfirmDelete(v, true).view;
      var id := v.deleteTarget.value.id;
      && w.videos.Keys == v.videos.Keys - {id}
      && (forall k :: k in w.videos ==> w.videos[k] == v.videos[k])
      && w.deleteTarget.None?
  {
  }

  /** A failed request keeps the popup open with the error and keeps the lists. */
  lemma FailedDeleteKeepsLists(v: HomeView)
    requires TargetLoaded(v) && v.deleteTarget.Some?
    requires Normalize(v.confirmName) == Normalize(v.deleteTarget.value.name)
    ensures var w := ConfirmDelete(v, false).view;
      w == v.(error := "Deletion failed. Try again.")
  {
  }

  // ---------------------------------------------------------------------
  // toggleFolder

  /** `openFolders[folderId]`: an absent key reads as closed. */
  function IsOpen(v: HomeView, folderId: FolderId): bool {
    folderId in v.openFolders && v.openFolders[folderId]
  }

  datatype Toggled = Toggled(view: HomeView, fetched: bool)

  /** `toggleFolder`, given the sorted list the fetch returns (None: the
      request failed). The fetch happens only when opening. */
  function ToggleFolder(v: HomeView, folderId: FolderId, response: Option<seq<Video>>): (r: Toggled)
    ensures r.view.deleteTarget == v.deleteTarget && r.view.confirmName == v.confirmName && r.view.error == v.error
    ensures r.view.videos.Keys <= v.videos.Keys + {folderId}
    ensures forall k :: k in v.videos && k != folderId ==> k in r.view.videos && r.view.videos[k] == v.videos[k]
  {
    var isOpen := IsOpen(v, folderId);
    var w := v.(openFolders := v.openFolders[folderId := !isOpen]);
    if isOpen then Toggled(w, false)
    else Toggled(w.(videos := w.videos[folderId := if response.Some? then response.value else []]), true)
  }

  /** Toggling flips only that folder's flag, and fetches exactly when it
      opens the folder; closing keeps the loaded list. */
  lemma ToggleFlipsOne(v: HomeView, folderId: FolderId, response: Option<seq<Video>>)
    ensures var t := ToggleFolder(v, folderId, response);
      && IsOpen(t.view, folderId) == !IsOpen(v, folderId)
      && (forall k :: k != folderId ==> IsOpen(t.view, k) == IsOpen(v, k))
      && t.fetched == !IsOpen(v, folderId)
      && (t.fetched ==> t.view.videos == v.videos[folderId := if response.Some? then response.value else []])
      && (!t.fetched ==> t.view.videos == v.videos)
  {
  }

  /** Toggling twice leaves every folder open or closed as before. */
  lemma ToggleTwice(v: HomeView, folderId: FolderId, r1: Option<seq<Video>>, r2: Option<seq<Video>>)
    ensures forall k :: IsOpen(ToggleFolder(ToggleFolder(v, folderId, r1).view, folderId, r2).view, k) == IsOpen(v, k)
  {
    ToggleFlipsOne(v, folderId, r1);
    ToggleFlipsOne(ToggleFolder(v, folderId, r1).view, folderId, r2);
  }
}
