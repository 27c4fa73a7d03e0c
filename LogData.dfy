/**
  The event-log side of the pipeline: the song-play events of the log, their
  derived timestamp, and the users, time and songplays tables built from them.
*/
module LogData {
  import opened Frames
  import opened SongData
  import Calendar

  /** One record of the event log, with the columns the pipeline reads; `song` is null on events without a track. */
  datatype LogEvent = LogEvent(
    userId: string,
    firstName: string,
    lastName: string,
    gender: string,
    level: string,
    page: string,
    ts: nat,
    sessionId: int,
    location: string,
    userAgent: string,
    song: Option<string>)

  /** The `page` value of an event that played a song. */
  const NEXT_SONG := "NextSong"

  predicate IsSongPlay(e: LogEvent) {
    e.page == NEXT_SONG
  }

  /** The song-play events: exactly the events whose page is `NextSong`, each as often as it was logged, unchanged. */
  function SongPlays(log: seq<LogEvent>): (plays: seq<LogEvent>)
    ensures forall e :: multiset(plays)[e] == if e.page == NEXT_SONG then multiset(log)[e] else 0
    ensures forall i :: 0 <= i < |plays| ==> plays[i].page == NEXT_SONG
  {
    Where(IsSongPlay, log)
  }

  /** The `Timestamp` of an event: its millisecond count `ts` truncated to whole seconds since the epoch. */
  function EpochSeconds(ts: nat): (s: nat)
    ensures s * 1000 <= ts < s * 1000 + 1000
  {
    ts / 1000
  }

  /** A song-play event with its derived `Timestamp` column. */
  datatype Play = Play(event: LogEvent, timestamp: nat)

  /** The `withColumn` adding `Timestamp`: the event is kept unchanged, stamped with the second its `ts` falls in. */
  function WithTimestamp(e: LogEvent): (p: Play)
    ensures p.event == e
    ensures p.timestamp * 1000 <= e.ts < p.timestamp * 1000 + 1000
  {
    Play(e, EpochSeconds(e.ts))
  }

  /** The song-play events of the log, each with its `Timestamp`. */
  function Plays(log: seq<LogEvent>): (df: seq<Play>)
    ensures |df| == |SongPlays(log)|
    ensures forall i :: 0 <= i < |df| ==>
      df[i].event.page == NEXT_SONG && df[i].timestamp == EpochSeconds(df[i].event.ts)
  {
    Select(WithTimestamp, SongPlays(log))
  }

  /** Every song-play event gets exactly one timestamped row per copy, and no other event gets one. */
  lemma PlaysOfLog(log: seq<LogEvent>, e: LogEvent)
    ensures multiset(Plays(log))[WithTimestamp(e)] == if e.page == NEXT_SONG then multiset(log)[e] else 0
  {
    SelectCount(WithTimestamp, SongPlays(log), e);
  }

  /** The same events in another order give the same plays in another order. */
  lemma PlaysOrderFree(a: seq<LogEvent>, b: seq<LogEvent>)
    requires SameRows(a, b)
    ensures SameRows(Plays(a), Plays(b))
  {
    WhereSameRows(IsSongPlay, a, b);
    SelectSameRows(WithTimestamp, SongPlays(a), SongPlays(b));
  }

  // ---------------------------------------------------------------------------
  // Users: the row(s) of each user's latest play
  // ---------------------------------------------------------------------------

  /** Every user of `df` has an entry, bounding every play of that user. */
  ghost predicate BoundsAllPlays(df: seq<Play>, last: map<string, nat>) {
    forall i :: 0 <= i < |df| ==>
      df[i].event.userId in last && df[i].timestamp <= last[df[i].event.userId]
  }

  /** Every entry is the timestamp of some play of its user. */
  ghost predicate AttainedByAPlay(df: seq<Play>, last: map<string, nat>) {
    forall u :: u in last ==>
      exists i :: 0 <= i < |df| && df[i].event.userId == u && df[i].timestamp == last[u]
  }

  /**
    The latest timestamp per user, as a unique-keyed table: for every user with
    a play, the largest `Timestamp` among that user's plays.
  */
  function LastOrderTimes(df: seq<Play>): (last: map<string, nat>)
    ensures BoundsAllPlays(df, last)
    ensures AttainedByAPlay(df, last)
  {
    if df == [] then map[]
    else
      var rest := LastOrderTimes(df[1..]);
      var u := df[0].event.userId;
      var t := if u in rest && df[0].timestamp <= rest[u] then rest[u] else df[0].timestamp;
      LastOrderTimesStep(df, rest, t);
      rest[u := t]
  }

  /** Folding the first play into the table of the remaining plays keeps both properties. */
  lemma LastOrderTimesStep(df: seq<Play>, rest: map<string, nat>, t: nat)
    requires df != []
    requires BoundsAllPlays(df[1..], rest) && AttainedByAPlay(df[1..], rest)
    requires var u := df[0].event.userId;
      t == if u in rest && df[0].timestamp <= rest[u] then rest[u] else df[0].timestamp
    ensures BoundsAllPlays(df, rest[df[0].event.userId := t])
    ensures AttainedByAPlay(df, rest[df[0].event.userId := t])
  {
    var u := df[0].event.userId;
    var last := rest[u := t];
    forall i | 1 <= i < |df|
      ensures df[i].event.userId in last && df[i].timestamp <= last[df[i].event.userId]
    {
      assert df[i] == df[1..][i - 1];
    }
    forall v | v in last
      ensures exists i :: 0 <= i < |df| && df[i].event.userId == v && df[i].timestamp == last[v]
    {
      if v != u || t != df[0].timestamp {
        var j :| 0 <= j < |df[1..]| && df[1..][j].event.userId == v && df[1..][j].timestamp == rest[v];
        assert df[j + 1] == df[1..][j];
      }
    }
  }

  /** No play of the same user is later than `p`. */
  ghost predicate IsLatestOfUser(df: seq<Play>, p: Play) {
    forall q :: q in df && q.event.userId == p.event.userId ==> q.timestamp <= p.timestamp
  }

  /** A play is at its user's latest time exactly when no play of the same user is later. */
  lemma LatestTimeIff(df: seq<Play>, p: Play)
    requires p in df
    ensures p.event.userId in LastOrderTimes(df)
    ensures LastOrderTimes(df)[p.event.userId] == p.timestamp <==> IsLatestOfUser(df, p)
  {
    var last := LastOrderTimes(df);
    var u := p.event.userId;
    var i :| 0 <= i < |df| && df[i] == p;
    if last[u] == p.timestamp {
      forall q | q in df && q.event.userId == u
        ensures q.timestamp <= p.timestamp
      {
        var l :| 0 <= l < |df| && df[l] == q;
      }
    }
    if IsLatestOfUser(df, p) {
      var j :| 0 <= j < |df| && df[j].event.userId == u && df[j].timestamp == last[u];
      assert df[j] in df;
    }
  }

  /** A play joined with its user's `last_order_time` (null when the table has no entry for the user). */
  datatype RecentRow = RecentRow(play: Play, lastOrderTime: Option<nat>)

  function WithLastOrderTime(last: map<string, nat>, p: Play): RecentRow {
    RecentRow(p, Lookup(last, p.event.userId))
  }

  /**
    The left join of the plays with the per-user table on `userId`: the table
    has one entry per user, so every play keeps exactly one row, carrying its
    user's entry or null.
  */
  function JoinLastOrderTime(df: seq<Play>, last: map<string, nat>): (r: seq<RecentRow>)
    ensures |r| == |df|
    ensures forall i :: 0 <= i < |df| ==> r[i].play == df[i]
    ensures forall i :: 0 <= i < |df| ==>
      (r[i].lastOrderTime.Some? <==> df[i].event.userId in last) &&
      (r[i].lastOrderTime.Some? ==> r[i].lastOrderTime.value == last[df[i].event.userId])
  {
    Select((p: Play) => WithLastOrderTime(last, p), df)
  }

  predicate AtLastOrderTime(r: RecentRow) {
    r.lastOrderTime == Some(r.play.timestamp)
  }

  /**
    The joined rows whose `Timestamp` equals their `last_order_time`: exactly
    the plays no play of the same user follows, each as often as it occurs;
    ties are not broken, so several plays of one user at its latest time all
    stay.
  */
  function LatestPlays(df: seq<Play>): (rows: seq<RecentRow>)
    ensures forall r :: (multiset(rows)[r] ==
      if r.lastOrderTime == Some(r.play.timestamp) && IsLatestOfUser(df, r.play) then multiset(df)[r.play] else 0)
  {
    var rows := Where(AtLastOrderTime, JoinLastOrderTime(df, LastOrderTimes(df)));
    assert forall r :: (multiset(rows)[r] ==
      if r.lastOrderTime == Some(r.play.timestamp) && IsLatestOfUser(df, r.play) then multiset(df)[r.play] else 0)
    by {
      forall r: RecentRow {
        KeptAtLastOrderTime(df, r);
      }
    }
    rows
  }

  /** How often the filter at the user's latest time keeps a joined row. */
  lemma KeptAtLastOrderTime(df: seq<Play>, r: RecentRow)
    ensures multiset(Where(AtLastOrderTime, JoinLastOrderTime(df, LastOrderTimes(df))))[r] ==
      if r.lastOrderTime == Some(r.play.timestamp) && IsLatestOfUser(df, r.play) then multiset(df)[r.play] else 0
  {
    var last := LastOrderTimes(df);
    var f := (p: Play) => WithLastOrderTime(last, p);
    var joined := JoinLastOrderTime(df, last);
    assert joined == Select(f, df);
    var p := r.play;
    if !AtLastOrderTime(r) {
    } else if p in df && IsLatestOfUser(df, p) {
      LatestTimeIff(df, p);
      assert r == f(p);
      SelectCount(f, df, p);
    } else {
      forall x | x in df
        ensures f(x) != r
      {
        if x == p {
          LatestTimeIff(df, p);
        }
      }
      SelectCountOutside(f, df, r);
    }
  }

  /** A row of the users table: `userId, firstName, lastName, gender, level`. */
  datatype UserRow = UserRow(userId: string, firstName: string, lastName: string, gender: string, level: string)

  /** The profile columns of an event, as the users table selects them. */
  function UserOf(e: LogEvent): (u: UserRow)
    ensures u.userId == e.userId && u.firstName == e.firstName && u.lastName == e.lastName
    ensures u.gender == e.gender && u.level == e.level
  {
    UserRow(e.userId, e.firstName, e.lastName, e.gender, e.level)
  }

  /** The users-table projection of a joined row: the profile of its play; `last_order_time` is not kept. */
  function UserColumns(r: RecentRow): (u: UserRow)
    ensures u.userId == r.play.event.userId && u.firstName == r.play.event.firstName
    ensures u.lastName == r.play.event.lastName && u.gender == r.play.event.gender
    ensures u.level == r.play.event.level
  {
    UserOf(r.play.event)
  }

  /** The users table: the profile columns of every latest-play row. */
  function UsersTable(df: seq<Play>): (users: seq<UserRow>)
    ensures |users| <= |df|
  {
    Select(UserColumns, LatestPlays(df))
  }

  /** Every row of the users table is the profile carried by a latest play of its user. */
  lemma UsersFromLatestPlays(df: seq<Play>, k: nat)
    requires k < |UsersTable(df)|
    ensures exists i :: 0 <= i < |df| && IsLatestOfUser(df, df[i]) && UsersTable(df)[k] == UserOf(df[i].event)
  {
    var latest := LatestPlays(df);
    var r := latest[k];
    assert UsersTable(df)[k] == UserColumns(r);
    assert r in latest;
    var i :| 0 <= i < |df| && df[i] == r.play;
  }

  /** Every user with a play has a latest play. */
  lemma UserHasLatestPlay(df: seq<Play>, i: nat)
    requires i < |df|
    ensures exists p :: p in df && p.event.userId == df[i].event.userId && IsLatestOfUser(df, p)
  {
    var last := LastOrderTimes(df);
    var u := df[i].event.userId;
    var j :| 0 <= j < |df| && df[j].event.userId == u && df[j].timestamp == last[u];
    assert df[j] in df;
    LatestTimeIff(df, df[j]);
  }

  /** Every user with a play has a row in the users table. */
  lemma EveryUserListed(df: seq<Play>, i: nat)
    requires i < |df|
    ensures exists k :: 0 <= k < |UsersTable(df)| && UsersTable(df)[k].userId == df[i].event.userId
  {
    UserHasLatestPlay(df, i);
    var p :| p in df && p.event.userId == df[i].event.userId && IsLatestOfUser(df, p);
    UsersTableKeepsTies(df, p);
    var users := UsersTable(df);
    assert multiset(users)[UserOf(p.event)] > 0;
    var k :| 0 <= k < |users| && users[k] == UserOf(p.event);
  }

  /** Ties are kept: each play at its user's latest time puts its own copy of the profile in the users table. */
  lemma UsersTableKeepsTies(df: seq<Play>, p: Play)
    requires IsLatestOfUser(df, p)
    ensures multiset(UsersTable(df))[UserOf(p.event)] >= multiset(df)[p]
  {
    var r := RecentRow(p, Some(p.timestamp));
    SelectAtLeast(UserColumns, LatestPlays(df), r);
  }

  /** The plays at their user's latest time whose profile is `u`, each as often as it occurs. */
  ghost function LatestWithProfile(df: seq<Play>, u: UserRow): seq<Play> {
    Where((p: Play) => IsLatestOfUser(df, p) && UserOf(p.event) == u, df)
  }

  /**
    A users row occurs once for every play at its user's latest time carrying
    that profile: ties between plays with the same profile give that many
    identical rows.
  */
  lemma UsersTableCount(df: seq<Play>, u: UserRow)
    ensures multiset(UsersTable(df))[u] == |LatestWithProfile(df, u)|
  {
    var last := LastOrderTimes(df);
    var f := (p: Play) => WithLastOrderTime(last, p);
    assert UsersTable(df) == Select(UserColumns, Where(AtLastOrderTime, Select(f, df)));
    var latest := (p: Play) => IsLatestOfUser(df, p) && UserOf(p.event) == u;
    forall p | p in df
      ensures latest(p) == (AtLastOrderTime(f(p)) && UserColumns(f(p)) == u)
    {
      LatestTimeIff(df, p);
    }
    ProjectFilterProjectCount(f, AtLastOrderTime, UserColumns, latest, df, u);
  }

  /** Two distinct plays tied at their user's latest time with the same profile give at least two identical users rows. */
  lemma TiedPlaysDuplicateUser(df: seq<Play>, p: Play, q: Play)
    requires p in df && q in df && p != q
    requires IsLatestOfUser(df, p) && IsLatestOfUser(df, q) && UserOf(p.event) == UserOf(q.event)
    ensures multiset(UsersTable(df))[UserOf(p.event)] >= 2
  {
    var u := UserOf(p.event);
    UsersTableCount(df, u);
    var w := LatestWithProfile(df, u);
    AtLeastTwo(w, p, q);
  }

  /** A user's latest time over some plays is reached again, or passed, by the same plays in another order. */
  lemma LastOrderTimeReached(a: seq<Play>, b: seq<Play>, u: string)
    requires SameRows(a, b) && u in LastOrderTimes(a)
    ensures u in LastOrderTimes(b) && LastOrderTimes(a)[u] <= LastOrderTimes(b)[u]
  {
    var i :| 0 <= i < |a| && a[i].event.userId == u && a[i].timestamp == LastOrderTimes(a)[u];
    assert a[i] in multiset(b);
    var j :| 0 <= j < |b| && b[j] == a[i];
  }

  /** The per-user latest times depend only on which plays there are, not on their order. */
  lemma LastOrderTimesOrderFree(a: seq<Play>, b: seq<Play>)
    requires SameRows(a, b)
    ensures LastOrderTimes(a) == LastOrderTimes(b)
  {
    var la := LastOrderTimes(a);
    var lb := LastOrderTimes(b);
    forall u | u in la
      ensures u in lb && lb[u] == la[u]
    {
      LastOrderTimeReached(a, b, u);
      LastOrderTimeReached(b, a, u);
    }
    forall u | u in lb
      ensures u in la
    {
      LastOrderTimeReached(b, a, u);
    }
  }

  /** The same plays in another order give the same users rows in another order. */
  lemma UsersTableOrderFree(a: seq<Play>, b: seq<Play>)
    requires SameRows(a, b)
    ensures SameRows(UsersTable(a), UsersTable(b))
  {
    var last := LastOrderTimes(a);
    LastOrderTimesOrderFree(a, b);
    var f := (p: Play) => WithLastOrderTime(last, p);
    assert JoinLastOrderTime(a, last) == Select(f, a);
    assert JoinLastOrderTime(b, last) == Select(f, b);
    SelectSameRows(f, a, b);
    WhereSameRows(AtLastOrderTime, JoinLastOrderTime(a, last), JoinLastOrderTime(b, last));
    SelectSameRows(UserColumns, LatestPlays(a), LatestPlays(b));
  }

  // ---------------------------------------------------------------------------
  // Time: one row per play
  // ---------------------------------------------------------------------------

  /** A row of the time table: `start_time, hour, day, weekofyear, month, year, weekday`. */
  datatype TimeRow = TimeRow(
    startTime: nat,
    hour: int,
    day: int,
    weekOfYear: int,
    month: int,
    year: int,
    weekday: int)

  /** The calendar columns of one timestamp; every one of them depends on the timestamp alone. */
  function TimeRowOf(t: nat): (r: TimeRow)
    ensures r.startTime == t
    ensures 0 <= r.hour <= 23 && 1 <= r.day <= 31 && 1 <= r.weekOfYear <= 53
    ensures 1 <= r.month <= 12 && 1 <= r.weekday <= 7
    ensures var d := Calendar.DateOf(t); r.year == d.year && r.month == d.month && r.day == d.day
  {
    TimeRow(t, Calendar.Hour(t), Calendar.DayOfMonth(t), Calendar.WeekOfYear(t),
            Calendar.Month(t), Calendar.Year(t), Calendar.DayOfWeek(t))
  }

  function PlayTimestamp(p: Play): nat {
    p.timestamp
  }

  /** The `Timestamp` column of the plays, one entry per play. */
  function Timestamps(df: seq<Play>): (ts: seq<nat>)
    ensures |ts| == |df|
    ensures forall i :: 0 <= i < |df| ==> ts[i] == df[i].timestamp
  {
    Select(PlayTimestamp, df)
  }

  /** The time table: one row per play, in the same order, holding the calendar columns of its timestamp. */
  function TimeTable(df: seq<Play>): (rows: seq<TimeRow>)
    ensures |rows| == |df|
    ensures forall i :: 0 <= i < |df| ==> rows[i] == TimeRowOf(df[i].timestamp)
  {
    Select(TimeRowOf, Timestamps(df))
  }

  /**
    Repeated timestamps are not deduplicated: a timestamp shared by `k` plays
    has `k` rows in the time table, and every row is the calendar row of its
    own `start_time`.
  */
  lemma TimeTableCounts(df: seq<Play>, row: TimeRow)
    ensures multiset(TimeTable(df))[row] ==
      if row == TimeRowOf(row.startTime) then multiset(Timestamps(df))[row.startTime] else 0
  {
    if row == TimeRowOf(row.startTime) {
      SelectCount(TimeRowOf, Timestamps(df), row.startTime);
    } else {
      SelectCountOutside(TimeRowOf, Timestamps(df), row);
    }
  }

  /** The same plays in another order give the same time rows in another order. */
  lemma TimeTableOrderFree(a: seq<Play>, b: seq<Play>)
    requires SameRows(a, b)
    ensures SameRows(TimeTable(a), TimeTable(b))
  {
    SelectSameRows(PlayTimestamp, a, b);
    SelectSameRows(TimeRowOf, Timestamps(a), Timestamps(b));
  }

  // ---------------------------------------------------------------------------
  // Songplays: left outer join of the plays with the song records on the title
  // ---------------------------------------------------------------------------

  /**
    The join key: once the song records' `title` column is renamed `song`, a
    play matches a record whose title equals its `song`; a null `song` matches
    nothing.
  */
  predicate SongMatches(p: Play, s: SongRecord) {
    p.event.song == Some(s.title)
  }

  /** A play matches no song record. */
  ghost predicate Unmatched(p: Play, songs: seq<SongRecord>) {
    forall s :: s in songs ==> !SongMatches(p, s)
  }

  /** The song records a play matches on the join key, each as often as it occurs. */
  function MatchingSongs(p: Play, songs: seq<SongRecord>): (ms: seq<SongRecord>)
    ensures forall s :: multiset(ms)[s] == if SongMatches(p, s) then multiset(songs)[s] else 0
    ensures forall i :: 0 <= i < |ms| ==> SongMatches(p, ms[i])
  {
    Where((s: SongRecord) => SongMatches(p, s), songs)
  }

  /** A play has no matching record exactly when it is unmatched. */
  lemma MatchingSongsEmpty(p: Play, songs: seq<SongRecord>)
    ensures MatchingSongs(p, songs) == [] <==> Unmatched(p, songs)
  {
    var ms := MatchingSongs(p, songs);
    if ms != [] {
      assert multiset(ms)[ms[0]] > 0;
    }
    if s :| s in songs && SongMatches(p, s) {
      assert multiset(ms)[s] > 0;
    }
  }

  /** A row of the left outer join: a play with the song record it matched, or null. */
  datatype JoinedRow = JoinedRow(play: Play, song: Option<SongRecord>)

  function PairWith(p: Play, s: SongRecord): JoinedRow {
    JoinedRow(p, Some(s))
  }

  /** The rows one play contributes to the left outer join: one per matching song record, or one null row when none matches. */
  function JoinPlay(p: Play, songs: seq<SongRecord>): (rows: seq<JoinedRow>)
    ensures |rows| == if Unmatched(p, songs) then 1 else |MatchingSongs(p, songs)|
    ensures |rows| >= 1
    ensures forall i :: 0 <= i < |rows| ==> rows[i].play == p
  {
    MatchingSongsEmpty(p, songs);
    var ms := MatchingSongs(p, songs);
    if ms == [] then [JoinedRow(p, None)]
    else Select((s: SongRecord) => PairWith(p, s), ms)
  }

  /** The left outer join of the plays with the song records on the song title. */
  function LeftJoinOnSong(df: seq<Play>, songs: seq<SongRecord>): (rows: seq<JoinedRow>)
    ensures |rows| >= |df|
  {
    if df == [] then [] else JoinPlay(df[0], songs) + LeftJoinOnSong(df[1..], songs)
  }

  lemma JoinPlayMatchedCount(q: Play, songs: seq<SongRecord>, p: Play, s: SongRecord)
    ensures multiset(JoinPlay(q, songs))[JoinedRow(p, Some(s))] ==
      if q == p && SongMatches(p, s) then multiset(songs)[s] else 0
  {
    var ms := MatchingSongs(q, songs);
    if ms != [] {
      var f := (x: SongRecord) => PairWith(q, x);
      assert JoinPlay(q, songs) == Select(f, ms);
      if q == p {
        assert JoinedRow(p, Some(s)) == f(s);
        SelectCount(f, ms, s);
      } else {
        SelectCountOutside(f, ms, JoinedRow(p, Some(s)));
      }
    } else if q == p && SongMatches(p, s) {
      assert multiset(ms)[s] == 0;
    }
  }

  lemma JoinPlayUnmatchedCount(q: Play, songs: seq<SongRecord>, p: Play)
    ensures multiset(JoinPlay(q, songs))[JoinedRow(p, None)] ==
      if q == p && Unmatched(p, songs) then 1 else 0
  {
    MatchingSongsEmpty(q, songs);
    var ms := MatchingSongs(q, songs);
    if ms != [] {
      var f := (x: SongRecord) => PairWith(q, x);
      assert JoinPlay(q, songs) == Select(f, ms);
      SelectCountOutside(f, ms, JoinedRow(p, None));
    }
  }

  /** The join of a non-empty frame is the first play's rows followed by the join of the rest. */
  lemma LeftJoinStep(df: seq<Play>, songs: seq<SongRecord>, p: Play)
    requires df != []
    ensures multiset(LeftJoinOnSong(df, songs)) ==
      multiset(JoinPlay(df[0], songs)) + multiset(LeftJoinOnSong(df[1..], songs))
    ensures multiset(df)[p] == (if df[0] == p then 1 else 0) + multiset(df[1..])[p]
  {
    assert df == [df[0]] + df[1..];
  }

  /**
    A play and a song record it matches are paired once for every copy of
    each; a pair that does not match is never produced.
  */
  lemma {:induction false} LeftJoinMatchedCount(df: seq<Play>, songs: seq<SongRecord>, p: Play, s: SongRecord)
    ensures multiset(LeftJoinOnSong(df, songs))[JoinedRow(p, Some(s))] ==
      if SongMatches(p, s) then multiset(df)[p] * multiset(songs)[s] else 0
  {
    if df != [] {
      var rest := df[1..];
      LeftJoinStep(df, songs, p);
      LeftJoinMatchedCount(rest, songs, p, s);
      JoinPlayMatchedCount(df[0], songs, p, s);
      if df[0] == p {
        Distribute(1, multiset(rest)[p], multiset(songs)[s]);
      }
    }
  }

  /** A play that matches no song record keeps one row per copy, with a null song; a play that matches keeps none. */
  lemma {:induction false} LeftJoinUnmatchedCount(df: seq<Play>, songs: seq<SongRecord>, p: Play)
    ensures multiset(LeftJoinOnSong(df, songs))[JoinedRow(p, None)] ==
      if Unmatched(p, songs) then multiset(df)[p] else 0
  {
    if df != [] {
      var rest := df[1..];
      LeftJoinStep(df, songs, p);
      LeftJoinUnmatchedCount(rest, songs, p);
      JoinPlayUnmatchedCount(df[0], songs, p);
    }
  }

  /** Every joined row pairs a play of `df` with a song record it matches, or with null when it matches none. */
  lemma LeftJoinMembers(df: seq<Play>, songs: seq<SongRecord>, j: JoinedRow)
    requires j in LeftJoinOnSong(df, songs)
    ensures j.play in df
    ensures j.song.Some? ==> j.song.value in songs && SongMatches(j.play, j.song.value)
    ensures j.song.None? ==> Unmatched(j.play, songs)
  {
    assert multiset(LeftJoinOnSong(df, songs))[j] > 0;
    if j.song.Some? {
      LeftJoinMatchedCount(df, songs, j.play, j.song.value);
      PositiveProduct(multiset(df)[j.play], multiset(songs)[j.song.value]);
    } else {
      LeftJoinUnmatchedCount(df, songs, j.play);
    }
  }

  /** When no play's title matches more than one song record, the join has exactly one row per play. */
  lemma {:induction false} LeftJoinOnePerPlay(df: seq<Play>, songs: seq<SongRecord>)
    requires forall i :: 0 <= i < |df| ==> |MatchingSongs(df[i], songs)| <= 1
    ensures |LeftJoinOnSong(df, songs)| == |df|
  {
    if df != [] {
      assert forall i :: 1 <= i < |df| ==> df[1..][i - 1] == df[i];
      LeftJoinOnePerPlay(df[1..], songs);
    }
  }

  /** Whether a play is unmatched depends only on which song records there are. */
  lemma UnmatchedOrderFree(p: Play, songsA: seq<SongRecord>, songsB: seq<SongRecord>)
    requires SameRows(songsA, songsB)
    ensures Unmatched(p, songsA) <==> Unmatched(p, songsB)
  {
    forall s
      ensures s in songsA <==> s in songsB
    {
      assert s in songsA <==> s in multiset(songsA);
      assert s in songsB <==> s in multiset(songsB);
    }
  }

  /** Each joined row occurs as often whatever the order of the plays and the song records. */
  lemma LeftJoinCountOrderFree(a: seq<Play>, b: seq<Play>, songsA: seq<SongRecord>, songsB: seq<SongRecord>, j: JoinedRow)
    requires SameRows(a, b) && SameRows(songsA, songsB)
    ensures multiset(LeftJoinOnSong(a, songsA))[j] == multiset(LeftJoinOnSong(b, songsB))[j]
  {
    if j.song.Some? {
      LeftJoinMatchedCount(a, songsA, j.play, j.song.value);
      LeftJoinMatchedCount(b, songsB, j.play, j.song.value);
    } else {
      UnmatchedOrderFree(j.play, songsA, songsB);
      LeftJoinUnmatchedCount(a, songsA, j.play);
      LeftJoinUnmatchedCount(b, songsB, j.play);
    }
  }

  /** The join depends only on which plays and song records there are, not on their order. */
  lemma LeftJoinOrderFree(a: seq<Play>, b: seq<Play>, songsA: seq<SongRecord>, songsB: seq<SongRecord>)
    requires SameRows(a, b) && SameRows(songsA, songsB)
    ensures SameRows(LeftJoinOnSong(a, songsA), LeftJoinOnSong(b, songsB))
  {
    forall j: JoinedRow
      ensures multiset(LeftJoinOnSong(a, songsA))[j] == multiset(LeftJoinOnSong(b, songsB))[j]
    {
      LeftJoinCountOrderFree(a, b, songsA, songsB, j);
    }
  }

  /** A row of the songplays table: `start_time, userId, song_id, artist_id, sessionId, location, userAgent, year, month`. */
  datatype SongplayRow = SongplayRow(
    startTime: nat,
    userId: string,
    songId: Option<string>,
    artistId: Option<string>,
    sessionId: int,
    location: string,
    userAgent: string,
    year: int,
    month: int)

  /**
    The songplays projection of a joined row: the play's time, user, session,
    location and user agent, the matched record's ids (null without a match),
    and the year and month of `start_time`; `level` is not kept.
  */
  function SongplayColumns(j: JoinedRow): (r: SongplayRow)
    ensures r.startTime == j.play.timestamp && r.userId == j.play.event.userId
    ensures r.sessionId == j.play.event.sessionId && r.location == j.play.event.location
    ensures r.userAgent == j.play.event.userAgent
    ensures r.songId.Some? <==> j.song.Some?
    ensures r.artistId.Some? <==> j.song.Some?
    ensures j.song.Some? ==> r.songId == Some(j.song.value.songId) && r.artistId == Some(j.song.value.artistId)
    ensures r.year == Calendar.DateOf(r.startTime).year && r.month == Calendar.DateOf(r.startTime).month
  {
    var t := j.play.timestamp;
    var e := j.play.event;
    SongplayRow(
      t, e.userId,
      if j.song.Some? then Some(j.song.value.songId) else None,
      if j.song.Some? then Some(j.song.value.artistId) else None,
      e.sessionId, e.location, e.userAgent,
      Calendar.Year(t), Calendar.Month(t))
  }

  /** The songplays table: one row per joined row, so never fewer rows than plays. */
  function SongplaysTable(df: seq<Play>, songs: seq<SongRecord>): (rows: seq<SongplayRow>)
    ensures |rows| == |LeftJoinOnSong(df, songs)|
    ensures |rows| >= |df|
  {
    Select(SongplayColumns, LeftJoinOnSong(df, songs))
  }

  /**
    A songplay row is the row of play `p`: it carries the play's timestamp,
    user, session, location and user agent, and its song and artist ids are
    those of a song record whose title the play names, or both null exactly
    when no record has that title.
  */
  ghost predicate RowOfPlay(row: SongplayRow, p: Play, songs: seq<SongRecord>) {
    row.startTime == p.timestamp && row.userId == p.event.userId &&
    row.sessionId == p.event.sessionId && row.location == p.event.location &&
    row.userAgent == p.event.userAgent &&
    row.year == Calendar.DateOf(p.timestamp).year && row.month == Calendar.DateOf(p.timestamp).month &&
    (row.songId.None? <==> Unmatched(p, songs)) &&
    (row.songId.None? <==> row.artistId.None?) &&
    (row.songId.Some? ==>
      (exists s :: s in songs && SongMatches(p, s) &&
        row.songId == Some(s.songId) && row.artistId == Some(s.artistId)))
  }

  /** Every songplay row is the row of one of the plays. */
  lemma SongplayRowOrigin(df: seq<Play>, songs: seq<SongRecord>, k: nat)
    requires k < |SongplaysTable(df, songs)|
    ensures exists p :: p in df && RowOfPlay(SongplaysTable(df, songs)[k], p, songs)
  {
    var joined := LeftJoinOnSong(df, songs);
    var j := joined[k];
    assert j in joined;
    LeftJoinMembers(df, songs, j);
    var row := SongplaysTable(df, songs)[k];
    assert row == SongplayColumns(j);
    if j.song.Some? {
      var s := j.song.value;
      assert s in songs && SongMatches(j.play, s);
      assert !Unmatched(j.play, songs);
    }
    assert RowOfPlay(row, j.play, songs);
  }

  /**
    Every songplay row lands in the same partition as the time-table row of
    its play: the time table has a row with its `start_time`, and that row's
    year and month are the songplay row's.
  */
  lemma SongplayRowHasTimeRow(df: seq<Play>, songs: seq<SongRecord>, k: nat)
    requires k < |SongplaysTable(df, songs)|
    ensures var row := SongplaysTable(df, songs)[k];
      exists i :: 0 <= i < |TimeTable(df)| && TimeTable(df)[i].startTime == row.startTime &&
        TimeTable(df)[i].year == row.year && TimeTable(df)[i].month == row.month
  {
    var row := SongplaysTable(df, songs)[k];
    SongplayRowOrigin(df, songs, k);
    var p :| p in df && RowOfPlay(row, p, songs);
    var i :| 0 <= i < |df| && df[i] == p;
    var j := LeftJoinOnSong(df, songs)[k];
    assert row == SongplayColumns(j);
    assert TimeTable(df)[i] == TimeRowOf(p.timestamp);
  }

  /** The same plays and song records in another order give the same songplay rows in another order. */
  lemma SongplaysTableOrderFree(a: seq<Play>, b: seq<Play>, songsA: seq<SongRecord>, songsB: seq<SongRecord>)
    requires SameRows(a, b) && SameRows(songsA, songsB)
    ensures SameRows(SongplaysTable(a, songsA), SongplaysTable(b, songsB))
  {
    LeftJoinOrderFree(a, b, songsA, songsB);
    SelectSameRows(SongplayColumns, LeftJoinOnSong(a, songsA), LeftJoinOnSong(b, songsB));
  }

  // ---------------------------------------------------------------------------
  // The whole log side of one run
  // ---------------------------------------------------------------------------

  /** The tables written by one run over the event log and the song data set. */
  datatype LogTables = LogTables(users: seq<UserRow>, time: seq<TimeRow>, songplays: seq<SongplayRow>)

  /** One run: the time table has a row per song play, the songplays table at least one, the users table at most one. */
  function ProcessLogData(log: seq<LogEvent>, songs: seq<SongRecord>): (r: LogTables)
    ensures |r.time| == |SongPlays(log)|
    ensures |r.songplays| >= |SongPlays(log)|
    ensures |r.users| <= |SongPlays(log)|
  {
    var df := Plays(log);
    LogTables(UsersTable(df), TimeTable(df), SongplaysTable(df, songs))
  }

  /** The tables depend on which events and song records are read, not on the order they are read in. */
  lemma ProcessLogDataOrderFree(logA: seq<LogEvent>, logB: seq<LogEvent>, songsA: seq<SongRecord>, songsB: seq<SongRecord>)
    requires SameRows(logA, logB) && SameRows(songsA, songsB)
    ensures SameRows(ProcessLogData(logA, songsA).users, ProcessLogData(logB, songsB).users)
    ensures SameRows(ProcessLogData(logA, songsA).time, ProcessLogData(logB, songsB).time)
    ensures SameRows(ProcessLogData(logA, songsA).songplays, ProcessLogData(logB, songsB).songplays)
  {
    PlaysOrderFree(logA, logB);
    UsersTableOrderFree(Plays(logA), Plays(logB));
    TimeTableOrderFree(Plays(logA), Plays(logB));
    SongplaysTableOrderFree(Plays(logA), Plays(logB), songsA, songsB);
  }
}
