/**
  One run of the log side on a two-event log: a page view, which is dropped,
  and one play of a song that the song data set holds.
*/
module Examples {
  import opened Frames
  import opened SongData
  import opened LogData
  import Calendar

  /** A page view without a track. */
  function HomeEvent(): LogEvent {
    LogEvent("10", "Ada", "Lovelace", "F", "free", "Home", 1699999000000, 7, "London", "Mozilla/5.0", None)
  }

  /** A play of "Song A", logged at 2023-11-14T22:13:20Z. */
  function PlayEvent(): LogEvent {
    LogEvent("10", "Ada", "Lovelace", "F", "paid", NEXT_SONG, 1700000000000, 7, "London", "Mozilla/5.0", Some("Song A"))
  }

  function SongA(): SongRecord {
    SongRecord("SG1", "Song A", "AR1", 2020, 210.5, "Band", "Leeds", None, None)
  }

  /** The play, stamped with its second count. */
  lemma ExamplePlays()
    ensures Plays([HomeEvent(), PlayEvent()]) == [Play(PlayEvent(), 1700000000)]
  {
    var log := [HomeEvent(), PlayEvent()];
    assert log[1..] == [PlayEvent()];
    assert SongPlays(log) == [PlayEvent()];
  }

  /** The user's row is the profile of the play, with the level it was logged at. */
  lemma ExampleUsers()
    ensures UsersTable([Play(PlayEvent(), 1700000000)]) == [UserRow("10", "Ada", "Lovelace", "F", "paid")]
  {
    var p := Play(PlayEvent(), 1700000000);
    var df := [p];
    assert LastOrderTimes(df) == map["10" := 1700000000];
    assert JoinLastOrderTime(df, LastOrderTimes(df)) == [RecentRow(p, Some(1700000000))];
    assert LatestPlays(df) == [RecentRow(p, Some(1700000000))];
  }

  /** The play's time row: 22h on Tuesday 14 November 2023, ISO week 46. */
  lemma ExampleTime()
    ensures TimeTable([Play(PlayEvent(), 1700000000)]) == [TimeRow(1700000000, 22, 14, 46, 11, 2023, 3)]
  {
    Calendar.TuesdayNight();
    Calendar.TuesdayNightClock();
    Calendar.WeekOfTuesdayNight();
  }

  /** The play's songplay row carries the ids of the song record whose title it names. */
  lemma ExampleSongplays()
    ensures SongplaysTable([Play(PlayEvent(), 1700000000)], [SongA()]) ==
      [SongplayRow(1700000000, "10", Some("SG1"), Some("AR1"), 7, "London", "Mozilla/5.0", 2023, 11)]
  {
    var p := Play(PlayEvent(), 1700000000);
    Calendar.TuesdayNight();
    assert MatchingSongs(p, [SongA()]) == [SongA()];
    assert LeftJoinOnSong([p], [SongA()]) == [JoinedRow(p, Some(SongA()))];
  }

  /** The page view is dropped, and the play gives one row in each table. */
  lemma ExampleRun()
    ensures ProcessLogData([HomeEvent(), PlayEvent()], [SongA()]) == LogTables(
      [UserRow("10", "Ada", "Lovelace", "F", "paid")],
      [TimeRow(1700000000, 22, 14, 46, 11, 2023, 3)],
      [SongplayRow(1700000000, "10", Some("SG1"), Some("AR1"), 7, "London", "Mozilla/5.0", 2023, 11)])
  {
    ExamplePlays();
    ExampleUsers();
    ExampleTime();
    ExampleSongplays();
  }
}
