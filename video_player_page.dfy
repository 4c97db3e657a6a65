/** src/pages/VideoPlayerPage.jsx: the `hh:mm:ss` countdown label, the
    once-a-second countdown of the playback URL's lifetime, and what happens
    when a video ends (the completed list kept in `localStorage` and the move
    to the next video of the sidebar). */
module VideoPlayerPage {
  import opened Common
  import opened Seqs
  import opened Text
  import opened Models

  // ---------------------------------------------------------------------
  // formatTime

  /** `String(val).padStart(2, "0")`. */
  function Padded(n: nat): (r: string)
    ensures |r| >= 2
    ensures forall i :: 0 <= i < |r| ==> IsDigit(r[i])
    ensures n < 100 ==> |r| == 2
    ensures ':' !in r
  {
    PadStart2(NatToString(n))
  }

  /** The padded field still reads as the number. */
  lemma PaddedValue(n: nat)
    ensures DigitsValue(Padded(n)) == n
  {
    var d := NatToString(n);
    DigitsValueOfNatToString(n);
    DigitsValueLeadingZero(d);
  }

  /** `formatTime` on a whole number of seconds. */
  function FormatTime(t: nat): (r: string)
    ensures |r| >= 8
  {
    var h, m, s := t / 3600, (t % 3600) / 60, t % 60;
    var ps := [Padded(h), Padded(m), Padded(s)];
    assert ps[1..][1..] == [Padded(s)];
    assert Join(ps[1..], ":") == Padded(m) + ":" + Padded(s);
    Join(ps, ":")
  }

  /** Reading the label back: three fields of at least two digits; the
      minutes and seconds are below 60 and the fields add up to `t`. */
  lemma FormatTimeFields(t: nat)
    ensures var fs := Split(FormatTime(t), ':');
      && |fs| == 3
      && (forall i :: 0 <= i < 3 ==> |fs[i]| >= 2 && forall j :: 0 <= j < |fs[i]| ==> IsDigit(fs[i][j]))
      && DigitsValue(fs[1]) < 60 && DigitsValue(fs[2]) < 60
      && DigitsValue(fs[0]) * 3600 + DigitsValue(fs[1]) * 60 + DigitsValue(fs[2]) == t
  {
    var h, m, s := t / 3600, (t % 3600) / 60, t % 60;
    PaddedValue(h);
    PaddedValue(m);
    PaddedValue(s);
    var parts := [Padded(h), Padded(m), Padded(s)];
    SplitJoin(parts, ':');
    HoursMinutesSeconds(t);
  }

  /** Below 100 hours the label is exactly `hh:mm:ss`. */
  lemma FormatTimeLength(t: nat)
    requires t < 360000
    ensures |FormatTime(t)| == 8
  {
    var h, m, s := t / 3600, (t % 3600) / 60, t % 60;
    assert h < 100;
    var parts := [Padded(h), Padded(m), Padded(s)];
    assert parts[1..][1..] == [Padded(s)];
    assert Join(parts[1..], ":") == Padded(m) + ":" + Padded(s);
    assert FormatTime(t) == Join(parts, ":");
    assert Join(parts, ":") == Padded(h) + ":" + Join(parts[1..], ":");
  }

  // ---------------------------------------------------------------------
  // The countdown

  /** `EXPIRY_DURATION`: the lifetime of a playback URL, in seconds; also
      what the countdown is reset to whenever a new URL is loaded. */
  const ExpiryDuration: int := 7200

  datatype Ticked = Ticked(time: int, refresh: bool)

  /** The `setRemainingTime` updater run every second: at 1 or below it asks
      for a fresh URL and starts again from the full lifetime. */
  function Tick(time: int): (r: Ticked)
    ensures r.refresh <==> time <= 1
    ensures r.refresh ==> r.time == ExpiryDuration
    ensures !r.refresh ==> r.time == time - 1
  {
    if time <= 1 then Ticked(ExpiryDuration, true) else Ticked(time - 1, false)
  }

  /** `n` ticks from `time`: the remaining time and how many refreshes were
      asked for. */
  datatype Countdown = Countdown(refreshes: nat, time: int)

  function Ticks(time: int, n: nat): (c: Countdown)
    ensures c.refreshes <= n
  {
    if n == 0 then Countdown(0, time)
    else
      var before := Ticks(time, n - 1);
      var r := Tick(before.time);
      Countdown(before.refreshes + (if r.refresh then 1 else 0), r.time)
  }

  /** From a fresh URL, after `n` seconds the countdown shows
      7200 - n mod 7200, stays within [1, 7200], and a refresh has been asked
      for exactly once every 7200 seconds. */
  lemma {:induction false} CountdownFromFull(n: nat)
    ensures Ticks(ExpiryDuration, n) == Countdown(n / 7200, 7200 - n % 7200)
    ensures 1 <= Ticks(ExpiryDuration, n).time <= 7200
  {
    if n > 0 {
      CountdownFromFull(n - 1);
      if (n - 1) % 7200 == 7199 {
        assert n % 7200 == 0 && n / 7200 == (n - 1) / 7200 + 1;
      } else {
        assert n % 7200 == (n - 1) % 7200 + 1 && n / 7200 == (n - 1) / 7200;
      }
    }
  }

  /** The countdown keeps its range from any time within it. */
  lemma TickKeepsRange(time: int)
    requires 1 <= time <= ExpiryDuration
    ensures 1 <= Tick(time).time <= ExpiryDuration
  {
  }

  // ---------------------------------------------------------------------
  // handleVideoEnded

  function SidebarIds(videos: seq<Video>): (ids: seq<VideoId>)
    ensures |ids| == |videos|
    ensures forall i :: 0 <= i < |videos| ==> ids[i] == videos[i].id
  {
    seq(|videos|, i requires 0 <= i < |videos| => videos[i].id)
  }

  /** The completed list after the video ended: the id is appended unless it
      is already there. */
  function MarkCompleted(completed: seq<VideoId>, videoId: VideoId): (r: seq<VideoId>)
    ensures videoId in r
    ensures |completed| <= |r| <= |completed| + 1 && r[..|completed|] == completed
    ensures forall x :: x in r <==> x in completed || x == videoId
  {
    if videoId in completed then completed else completed + [videoId]
  }

  /** Marking twice is marking once, and the list never gains a duplicate. */
  lemma MarkCompletedProperties(completed: seq<VideoId>, videoId: VideoId)
    ensures MarkCompleted(MarkCompleted(completed, videoId), videoId) == MarkCompleted(completed, videoId)
    ensures Distinct(completed) ==> Distinct(MarkCompleted(completed, videoId))
    ensures videoId in completed <==> MarkCompleted(completed, videoId) == completed
  {
    if videoId !in completed {
      var r := completed + [videoId];
      assert r != completed;
      if Distinct(completed) {
        forall i, j | 0 <= i < j < |r| ensures r[i] != r[j] {
          if j == |completed| { assert r[i] in completed; }
        }
      }
    }
  }

  /** The video the sidebar moves on to: the one after the first entry with
      this id, unless that entry is missing or last. */
  function NextVideo(sidebar: seq<Video>, videoId: VideoId): (r: Option<VideoId>)
    ensures var k := FindIndex(SidebarIds(sidebar), videoId);
      r.Some? <==> 0 <= k < |sidebar| - 1
    ensures var k := FindIndex(SidebarIds(sidebar), videoId);
      r.Some? ==> r.value == sidebar[k + 1].id
    ensures r.Some? ==> exists k :: 0 <= k < |sidebar| - 1 && sidebar[k].id == videoId && sidebar[k + 1].id == r.value
  {
    var k := FindIndex(SidebarIds(sidebar), videoId);
    if 0 <= k < |sidebar| - 1 then Some(sidebar[k + 1].id) else None
  }

  /** The move happens exactly when the id occurs in the sidebar other than
      only as its last entry; it goes to the entry right after the first
      occurrence. */
  lemma NextVideoIff(sidebar: seq<Video>, videoId: VideoId)
    ensures NextVideo(sidebar, videoId).Some? <==>
      exists k :: 0 <= k < |sidebar| - 1 && sidebar[k].id == videoId
    ensures NextVideo(sidebar, videoId).Some? ==>
      exists k :: 0 <= k < |sidebar| - 1 && sidebar[k].id == videoId && sidebar[k + 1].id == NextVideo(sidebar, videoId).value
        && videoId !in SidebarIds(sidebar[..k])
  {
    var ids := SidebarIds(sidebar);
    var k := FindIndex(ids, videoId);
    if 0 <= k {
      assert SidebarIds(sidebar[..k]) == ids[..k];
    } else {
      forall i | 0 <= i < |sidebar| ensures sidebar[i].id != videoId {
        assert ids[i] in ids;
      }
    }
  }

  /** `handleVideoEnded`: the completed list written back, and the video to
      navigate to, if any. */
  method HandleVideoEnded(completed: seq<VideoId>, videoId: VideoId, sidebar: seq<Video>) returns (saved: seq<VideoId>, next: Option<VideoId>)
    ensures saved == MarkCompleted(completed, videoId)
    ensures next == NextVideo(sidebar, videoId)
  {
    saved := completed;
    if videoId !in saved {
      saved := saved + [videoId];
    }
    var ids := SidebarIds(sidebar);
    var currentIndex := FindIndex(ids, videoId);
    next := None;
    if currentIndex != -1 && currentIndex < |sidebar| - 1 {
      next := Some(sidebar[currentIndex + 1].id);
    }
  }
}
