/** Watch-state synchronisation between Jellyfin's per-user item data and
    Shoko's per-file user stats: the conversions both ways, the field-wise
    copy between two user data records, the skip counter of a playback
    session, and the decision which side to update. Times are ticks. */
module Sync {
  import opened Wrappers

  /** Jellyfin's user data for one item (the fields the plugin reads). */
  datatype UserData = UserData(rating: Option<int>, playbackPositionTicks: int, playCount: int,
                               isFavorite: bool, lastPlayedDate: Option<int>, played: bool,
                               audioStreamIndex: Option<int>, subtitleStreamIndex: Option<int>,
                               likes: Option<bool>)

  /** Shoko's user stats for one file. */
  datatype UserStats = UserStats(lastUpdatedAt: int, lastWatchedAt: Option<int>,
                                 resumePosition: Option<int>, watchedCount: int)

  /** Ticks per millisecond. */
  const TicksPerMillisecond: int := 10000

  /** A position whose whole milliseconds are 0 is no resume position. */
  predicate BelowOneMillisecond(ticks: int) {
    0 <= ticks < TicksPerMillisecond
  }

  /** Stats that record nothing: no resume position, never watched. */
  predicate IsEmpty(s: UserStats) {
    s.resumePosition.None? && s.lastWatchedAt.None? && s.watchedCount == 0
  }

  /** Stats in the shape `ToFileUserStats` produces: a watch time, when there
      is one, is the update time, and a resume position is at least a
      millisecond (or negative). */
  predicate Canonical(s: UserStats) {
    && (s.lastWatchedAt.Some? ==> s.lastWatchedAt.value == s.lastUpdatedAt)
    && (s.resumePosition.Some? ==> !BelowOneMillisecond(s.resumePosition.value))
  }

  // ----- Conversions -----

  /** `ToFileUserStats`; `now` stands for the clock, read when the item was
      never played. */
  function ToFileUserStats(d: UserData, now: int): (s: UserStats)
    ensures Canonical(s)
    ensures s.resumePosition.None? <==> BelowOneMillisecond(d.playbackPositionTicks)
    ensures s.resumePosition.Some? ==> s.resumePosition.value == d.playbackPositionTicks
    ensures s.lastWatchedAt.Some? <==> d.played
    ensures d.lastPlayedDate.Some? ==> s.lastUpdatedAt == d.lastPlayedDate.value
    ensures s.watchedCount == d.playCount
  {
    var lastUpdated := if d.lastPlayedDate.Some? then d.lastPlayedDate.value else now;
    UserStats(lastUpdated,
              if d.played then Some(lastUpdated) else None,
              if BelowOneMillisecond(d.playbackPositionTicks) then None else Some(d.playbackPositionTicks),
              d.playCount)
  }

  /** `MergeWithFileUserStats`: the watch state comes from the stats; rating,
      favourite, likes and stream choices stay. */
  function MergeWithFileUserStats(d: UserData, s: UserStats): (r: UserData)
    ensures r.played <==> s.lastWatchedAt.Some?
    ensures r.playCount == s.watchedCount
    ensures s.resumePosition.None? ==> r.playbackPositionTicks == 0
    ensures s.resumePosition.Some? ==> r.playbackPositionTicks == s.resumePosition.value
    ensures r.lastPlayedDate.Some?
    ensures s.resumePosition.Some? ==> r.lastPlayedDate.value == s.lastUpdatedAt
    ensures s.resumePosition.None? && s.lastWatchedAt.Some? ==> r.lastPlayedDate.value == s.lastWatchedAt.value
    ensures s.resumePosition.None? && s.lastWatchedAt.None? ==> r.lastPlayedDate.value == s.lastUpdatedAt
    ensures r.rating == d.rating && r.isFavorite == d.isFavorite && r.likes == d.likes
    ensures r.audioStreamIndex == d.audioStreamIndex && r.subtitleStreamIndex == d.subtitleStreamIndex
    ensures r.(played := d.played, playCount := d.playCount, playbackPositionTicks := d.playbackPositionTicks,
               lastPlayedDate := d.lastPlayedDate) == d
  {
    d.(played := s.lastWatchedAt.Some?,
       playCount := s.watchedCount,
       playbackPositionTicks := if s.resumePosition.Some? then s.resumePosition.value else 0,
       lastPlayedDate := Some(if s.resumePosition.Some? then s.lastUpdatedAt
                              else if s.lastWatchedAt.Some? then s.lastWatchedAt.value
                              else s.lastUpdatedAt))
  }

  /** Fresh user data with nothing set. */
  const NewUserData: UserData := UserData(None, 0, 0, false, None, false, None, None, None)

  /** `ToUserData`: the stats merged into fresh user data. */
  function ToUserData(s: UserStats): (r: UserData)
    ensures r == MergeWithFileUserStats(NewUserData, s)
    ensures !r.isFavorite && r.rating.None?
  {
    MergeWithFileUserStats(NewUserData, s)
  }

  /** The export of local data is empty exactly when the item was never
      played, never counted, and its position is under a millisecond. */
  lemma ExportIsEmpty(d: UserData, now: int)
    ensures IsEmpty(ToFileUserStats(d, now)) <==>
      !d.played && d.playCount == 0 && BelowOneMillisecond(d.playbackPositionTicks)
  {
  }

  /** Importing empty stats leaves the item unplayed, uncounted and at the
      start, last played at the stats' update time. */
  lemma MergeEmpty(d: UserData, s: UserStats)
    requires IsEmpty(s)
    ensures var r := MergeWithFileUserStats(d, s);
      !r.played && r.playCount == 0 && r.playbackPositionTicks == 0 && r.lastPlayedDate == Some(s.lastUpdatedAt)
  {
  }

  /** Merging canonical stats and converting back gives the same stats:
      nothing of Shoko's state is lost on import. */
  lemma MergeThenConvert(d: UserData, s: UserStats, now: int)
    requires Canonical(s)
    ensures ToFileUserStats(MergeWithFileUserStats(d, s), now) == s
  {
  }

  /** Converting and merging back keeps the watch state: played flag and
      count, and the position unless it was under a millisecond. */
  lemma ConvertThenMerge(d: UserData, e: UserData, now: int)
    ensures var r := MergeWithFileUserStats(e, ToFileUserStats(d, now));
      && r.played == d.played && r.playCount == d.playCount
      && r.playbackPositionTicks == (if BelowOneMillisecond(d.playbackPositionTicks) then 0 else d.playbackPositionTicks)
      && (d.lastPlayedDate.Some? ==> r.lastPlayedDate == d.lastPlayedDate)
  {
  }

  // ----- CopyFrom -----

  /** The test of an optional field in `CopyFrom`: the other side has a
      value and this side has none or a different one. */
  predicate Replaces<T(==)>(mine: Option<T>, theirs: Option<T>) {
    (mine.None? && theirs.Some?) || (mine.Some? && theirs.Some? && mine != theirs)
  }

  /** One optional field of `CopyFrom`: a value present on the other side
      replaces a missing or different one; a missing one changes nothing. */
  function CopyOptional<T(==)>(mine: Option<T>, theirs: Option<T>): (r: Option<T>)
    ensures theirs.Some? ==> r == theirs
    ensures theirs.None? ==> r == mine
  {
    if Replaces(mine, theirs) then theirs else mine
  }

  /** The test of the last-played date in `CopyFrom`: the other side has a
      date and this side has none or an earlier one. */
  predicate Later(mine: Option<int>, theirs: Option<int>) {
    (mine.None? && theirs.Some?) || (mine.Some? && theirs.Some? && mine.value < theirs.value)
  }

  /** The last-played date only moves forward. */
  function LaterDate(mine: Option<int>, theirs: Option<int>): (r: Option<int>)
    ensures r == mine || r == theirs
    ensures mine.Some? ==> r.Some? && r.value >= mine.value
    ensures theirs.Some? ==> r.Some? && r.value >= theirs.value
  {
    if Later(mine, theirs) then theirs else mine
  }

  /** Whether each of `CopyFrom`'s branches assigns, except the favourite one. */
  predicate OtherFieldsDiffer(a: UserData, b: UserData) {
    || Replaces(a.rating, b.rating)
    || a.playbackPositionTicks != b.playbackPositionTicks
    || a.playCount != b.playCount
    || Later(a.lastPlayedDate, b.lastPlayedDate)
    || a.played != b.played
    || Replaces(a.audioStreamIndex, b.audioStreamIndex)
    || Replaces(a.subtitleStreamIndex, b.subtitleStreamIndex)
    || Replaces(a.likes, b.likes)
  }

  /** All fields but the favourite flag, copied as `CopyFrom` does. */
  function CopyOtherFields(a: UserData, b: UserData): (r: UserData)
    ensures r.isFavorite == a.isFavorite
  {
    a.(rating := CopyOptional(a.rating, b.rating),
       playbackPositionTicks := b.playbackPositionTicks,
       playCount := b.playCount,
       lastPlayedDate := LaterDate(a.lastPlayedDate, b.lastPlayedDate),
       played := b.played,
       audioStreamIndex := CopyOptional(a.audioStreamIndex, b.audioStreamIndex),
       subtitleStreamIndex := CopyOptional(a.subtitleStreamIndex, b.subtitleStreamIndex),
       likes := CopyOptional(a.likes, b.likes))
  }

  /** The other fields change exactly when one of their branches fires. */
  lemma CopyOtherFieldsChanges(a: UserData, b: UserData)
    ensures CopyOtherFields(a, b) != a <==> OtherFieldsDiffer(a, b)
  {
  }

  /** `CopyFrom` as written: the favourite test reads `!userData.IsFavorite
      != otherUserData.IsFavorite`, so it fires when the flags are equal
      (assigning the same value) and never when they differ. */
  function CopyFromAsWritten(a: UserData, b: UserData): (r: (UserData, bool))
    ensures r.0.isFavorite == a.isFavorite
    ensures r.1 <==> OtherFieldsDiffer(a, b) || a.isFavorite == b.isFavorite
  {
    var r := CopyOtherFields(a, b);
    (r, OtherFieldsDiffer(a, b) || !a.isFavorite != b.isFavorite)
  }

  /** Two equal records: the as-written copy reports a change although
      nothing changed; with the favourite flag the only difference, it
      reports no change and keeps the old flag. */
  lemma CopyFromAsWrittenFavouriteInverted(a: UserData)
    ensures CopyFromAsWritten(a, a) == (a, true)
    ensures var b := a.(isFavorite := !a.isFavorite);
      CopyFromAsWritten(a, b) == (a, false) && CopyFromAsWritten(a, b).0.isFavorite != b.isFavorite
  {
    CopyOtherFieldsChanges(a, a);
    CopyOtherFieldsChanges(a, a.(isFavorite := !a.isFavorite));
  }

  /** `CopyFrom` with the favourite test comparing the two flags. It reports
      an update exactly when the record changed; afterwards the watch state
      and favourite flag are the other side's, optional fields the other
      side has are taken over, and the last-played date only moves forward. */
  function CopyFrom(a: UserData, b: UserData): (r: (UserData, bool))
    ensures r.1 <==> r.0 != a
    ensures r.0.isFavorite == b.isFavorite
    ensures r.0.playbackPositionTicks == b.playbackPositionTicks
    ensures r.0.playCount == b.playCount && r.0.played == b.played
    ensures b.rating.Some? ==> r.0.rating == b.rating
    ensures b.rating.None? ==> r.0.rating == a.rating
    ensures b.likes.Some? ==> r.0.likes == b.likes
    ensures b.likes.None? ==> r.0.likes == a.likes
    ensures a.lastPlayedDate.Some? ==> r.0.lastPlayedDate.Some? && r.0.lastPlayedDate.value >= a.lastPlayedDate.value
  {
    var r := CopyOtherFields(a, b);
    CopyOtherFieldsChanges(a, b);
    (r.(isFavorite := b.isFavorite), OtherFieldsDiffer(a, b) || a.isFavorite != b.isFavorite)
  }

  /** Copying twice from the same record changes nothing the second time. */
  lemma CopyFromIdempotent(a: UserData, b: UserData)
    ensures var once := CopyFrom(a, b).0; CopyFrom(once, b) == (once, false)
  {
  }

  // ----- Playback session skip counter -----

  /** `SessionMetadata.ShouldSendEvent`: with no events left to skip, send;
      otherwise a non-pause/resume event counts a positive counter down, and
      the event is sent once the counter is 0. A negative counter (playback
      finished) never reaches 0. Returns the verdict and the new counter. */
  function ShouldSendEvent(count: int, isPauseOrResume: bool): (r: (bool, int))
    ensures count == 0 ==> r == (true, 0)
    ensures isPauseOrResume ==> r.1 == count
    ensures !isPauseOrResume && count > 0 ==> r.1 == count - 1
    ensures count < 0 ==> r == (false, count)
    ensures r.0 <==> r.1 == 0
  {
    if count == 0 then (true, 0)
    else
      var next := if !isPauseOrResume && count > 0 then count - 1 else count;
      (next == 0, next)
  }

  /** The verdicts for a series of events (true for pause/resume events),
      and the final counter. */
  function RunEvents(count: int, events: seq<bool>): (r: (seq<bool>, int))
    ensures |r.0| == |events|
    decreases |events|
  {
    if |events| == 0 then ([], count)
    else
      var step := ShouldSendEvent(count, events[0]);
      var rest := RunEvents(step.1, events[1..]);
      ([step.0] + rest.0, rest.1)
  }

  /** After playback finished nothing is ever sent again. */
  lemma {:induction false} NothingAfterFinish(count: int, events: seq<bool>)
    requires count < 0
    ensures forall i :: 0 <= i < |events| ==> !RunEvents(count, events).0[i]
    ensures RunEvents(count, events).1 == count
    decreases |events|
  {
    if |events| > 0 {
      NothingAfterFinish(count, events[1..]);
    }
  }

  /** Starting with `n` events to skip, a run of ordinary events sends
      nothing for the first `n - 1` and everything from the `n`-th on. */
  lemma {:induction false} SkipsFirstEvents(n: int, events: seq<bool>)
    requires n >= 0
    requires forall i :: 0 <= i < |events| ==> !events[i]
    ensures forall i :: 0 <= i < |events| ==> (RunEvents(n, events).0[i] <==> i >= n - 1)
    decreases |events|
  {
    if |events| > 0 {
      var step := ShouldSendEvent(n, events[0]);
      var next := if n > 0 then n - 1 else 0;
      assert step.1 == next;
      SkipsFirstEvents(next, events[1..]);
      var r := RunEvents(n, events);
      forall i | 0 <= i < |events| ensures r.0[i] <==> i >= n - 1 {
        if i > 0 {
          assert r.0[i] == RunEvents(next, events[1..]).0[i - 1];
        }
      }
    }
  }

  /** Pause and resume events neither count down nor change the verdict. */
  lemma {:induction false} PausesKeepCounter(count: int, events: seq<bool>)
    requires count != 0
    requires forall i :: 0 <= i < |events| ==> events[i]
    ensures RunEvents(count, events).1 == count
    ensures forall i :: 0 <= i < |events| ==> !RunEvents(count, events).0[i]
    decreases |events|
  {
    if |events| > 0 {
      PausesKeepCounter(count, events[1..]);
    }
  }

  // ----- In sync -----

  /** `UserDataEqualsFileUserStats`: whether the local data and the remote
      stats agree, comparing resume position, watch count, played flag and
      update time. */
  function InSync(local: Option<UserData>, remote: Option<UserStats>, now: int): (r: bool)
    ensures local.None? ==> (r <==> remote.None?)
    ensures local.Some? && remote.None? ==> (r <==> IsEmpty(ToFileUserStats(local.value, now)))
    ensures local.Some? && remote.Some? && !(IsEmpty(ToFileUserStats(local.value, now)) && IsEmpty(remote.value)) ==>
      (r <==> var s := ToFileUserStats(local.value, now);
              && s.resumePosition == remote.value.resumePosition
              && s.watchedCount == remote.value.watchedCount
              && local.value.played == remote.value.lastWatchedAt.Some?
              && s.lastUpdatedAt == remote.value.lastUpdatedAt)
  {
    if remote.None? && local.None? then true
    else if local.None? then false
    else
      var s := ToFileUserStats(local.value, now);
      if remote.None? then IsEmpty(s)
      else if IsEmpty(s) && IsEmpty(remote.value) then true
      else if s.resumePosition != remote.value.resumePosition then false
      else if s.watchedCount != remote.value.watchedCount then false
      else if local.value.played != remote.value.lastWatchedAt.Some? then false
      else s.lastUpdatedAt == remote.value.lastUpdatedAt
  }

  /** Local data is in sync with its own export. */
  lemma InSyncWithExport(d: UserData, now: int)
    ensures InSync(Some(d), Some(ToFileUserStats(d, now)), now)
  {
  }

  /** Local data merged from canonical stats is in sync with them. */
  lemma InSyncAfterImport(d: UserData, s: UserStats, now: int)
    requires Canonical(s)
    ensures InSync(Some(MergeWithFileUserStats(d, s)), Some(s), now)
  {
    MergeThenConvert(d, s, now);
  }

  // ----- The sync decision -----

  /** Which way a sync goes. */
  datatype SyncDirection = Export | Import | TwoWay

  /** What a sync does: nothing, send these stats to Shoko, or save this
      user data locally. */
  datatype SyncAction = NoAction | SendStats(stats: UserStats) | SaveLocal(data: UserData)

  /** The export branch. */
  function ExportStep(local: Option<UserData>, remote: Option<UserStats>, now: int): (r: SyncAction)
    ensures r.SaveLocal? ==> false
    ensures r.SendStats? ==> local.Some? && r.stats == ToFileUserStats(local.value, now)
  {
    if local.None? then NoAction
    else if remote.None? then
      var s := ToFileUserStats(local.value, now);
      if IsEmpty(s) then NoAction else SendStats(s)
    else if local.value.lastPlayedDate.Some? && local.value.lastPlayedDate.value > remote.value.lastUpdatedAt then
      SendStats(ToFileUserStats(local.value, now))
    else NoAction
  }

  /** The import branch. */
  function ImportStep(local: Option<UserData>, remote: Option<UserStats>): (r: SyncAction)
    ensures r.SendStats? ==> false
    ensures r.SaveLocal? ==> remote.Some?
    ensures r.SaveLocal? && local.None? ==> r.data == ToUserData(remote.value)
    ensures r.SaveLocal? && local.Some? ==> r.data == MergeWithFileUserStats(local.value, remote.value)
  {
    if remote.None? then NoAction
    else if local.None? then SaveLocal(ToUserData(remote.value))
    else if local.value.lastPlayedDate.None? || remote.value.lastUpdatedAt > local.value.lastPlayedDate.value then
      SaveLocal(MergeWithFileUserStats(local.value, remote.value))
    else NoAction
  }

  /** The decision of one video's sync: restricted videos are skipped, data
      already in sync is left alone, and otherwise the direction (and for a
      two-way sync, which side is fresher) decides. */
  function SyncVideo(direction: SyncDirection, restricted: bool, local: Option<UserData>,
                     remote: Option<UserStats>, now: int): (r: SyncAction)
    ensures restricted || InSync(local, remote, now) ==> r == NoAction
    ensures r.SendStats? ==> direction != Import && local.Some? && r.stats == ToFileUserStats(local.value, now)
    ensures r.SaveLocal? ==> direction != Export && remote.Some?
    ensures r.SendStats? && remote.Some? ==>
      local.value.lastPlayedDate.Some? && local.value.lastPlayedDate.value > remote.value.lastUpdatedAt
    ensures r.SaveLocal? && local.Some? && local.value.lastPlayedDate.Some? ==>
      remote.value.lastUpdatedAt > local.value.lastPlayedDate.value
  {
    if restricted || InSync(local, remote, now) then NoAction
    else match direction
      case Export => ExportStep(local, remote, now)
      case Import => ImportStep(local, remote)
      case TwoWay =>
        if local.None? && remote.Some? then ImportStep(local, remote)
        else if remote.None? && local.Some? then ExportStep(local, remote, now)
        else if remote.None? && local.None? then NoAction
        else if local.value.lastPlayedDate.None? then ImportStep(local, remote)
        else if local.value.lastPlayedDate.value == remote.value.lastUpdatedAt then NoAction
        else if local.value.lastPlayedDate.value > remote.value.lastUpdatedAt then
          SendStats(ToFileUserStats(local.value, now))
        else SaveLocal(MergeWithFileUserStats(local.value, remote.value))
  }

  /** Whatever a sync does leaves the two sides in sync at the clock reading
      the sync used, when Shoko's stats are in canonical shape. A later
      comparison reads the clock again: saved local data, and sent stats of
      local data with a last-played date, stay in sync whatever it reads. */
  lemma SyncConverges(direction: SyncDirection, restricted: bool, local: Option<UserData>,
                      remote: Option<UserStats>, now: int, later: int)
    requires remote.Some? ==> Canonical(remote.value)
    ensures match SyncVideo(direction, restricted, local, remote, now)
      case NoAction => true
      case SendStats(s) => InSync(local, Some(s), now)
                           && (local.value.lastPlayedDate.Some? ==> InSync(local, Some(s), later))
      case SaveLocal(d) => InSync(Some(d), remote, now) && InSync(Some(d), remote, later)
  {
    match SyncVideo(direction, restricted, local, remote, now)
    case NoAction =>
    case SendStats(s) =>
      InSyncWithExport(local.value, now);
      if local.value.lastPlayedDate.Some? {
        ExportIgnoresClock(local.value, now, later);
        InSyncWithExport(local.value, later);
      }
    case SaveLocal(d) =>
      var base := if local.Some? then local.value else NewUserData;
      InSyncAfterImport(base, remote.value, now);
      InSyncAfterImport(base, remote.value, later);
  }

  /** Local data with a last-played date exports the same stats at any clock
      reading. */
  lemma ExportIgnoresClock(d: UserData, now: int, later: int)
    requires d.lastPlayedDate.Some?
    ensures ToFileUserStats(d, now) == ToFileUserStats(d, later)
  {
  }

  /** Stats sent for local data without a last-played date are stamped with
      the clock, so a comparison at any other clock reading finds the two
      sides out of sync; a two-way sync then imports the stats it sent. */
  lemma SentStatsDrift(direction: SyncDirection, restricted: bool, local: Option<UserData>,
                       remote: Option<UserStats>, now: int, later: int)
    requires SyncVideo(direction, restricted, local, remote, now).SendStats?
    requires local.Some? && local.value.lastPlayedDate.None? && later != now
    ensures !InSync(local, Some(SyncVideo(direction, restricted, local, remote, now).stats), later)
    ensures var s := SyncVideo(direction, restricted, local, remote, now).stats;
      direction == TwoWay ==> SyncVideo(TwoWay, restricted, local, Some(s), later) == SaveLocal(MergeWithFileUserStats(local.value, s))
  {
    var s := SyncVideo(direction, restricted, local, remote, now).stats;
    assert remote.None?;
    assert !IsEmpty(s);
    assert ToFileUserStats(local.value, later).lastUpdatedAt == later;
  }
}
