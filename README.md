# Song-play ETL: a verified model of the table transformations

The pipeline turns two raw data sets into a star schema:

- The **song data set** holds one record per track. It becomes the `songs` and `artists` dimension tables.
- The **event log** holds one record per user action. It becomes the `users` and `time` dimension tables and the `songplays` fact table.

This project restates those transformations as pure Dafny functions over sequences of rows. A data frame is a `seq` of rows. The engine promises no row order, so every table-level property is stated over multisets, through `Frames.SameRows`.

Files and modules:

- `Frames.dfy` (`Frames`): the nullable `Option`, the key lookup used by a left join on a unique key, and projection (`Select`) and filter (`Where`):
  - `Lookup` is specified by its own contract only;
  - `Select` has lemmas on partitioning (`SelectAppend`), multiplicity (`SelectCount`, `SelectCountOutside`, `SelectAtLeast`), membership (`SelectMembers`) and order independence (`SelectSameRows`);
  - a projection, filter and projection in a row counts the input rows that pass (`ProjectFilterProjectCount`);
  - `Where` states multiplicity in its own contract and has a lemma on order independence (`WhereSameRows`).
- `SongData.dfy` (`SongData`): the song records and the songs and artists projections.
- `LogData.dfy` (`LogData`): the log side, in four parts:
  - the `NextSong` filter and the `Timestamp` column;
  - the latest-play-per-user resolver and the users table;
  - the time table;
  - the left outer join on the song title and the songplays table.
- `Calendar.dfy` (`Calendar`): the calendar fields of an instant, in the proleptic Gregorian calendar and UTC:
  - hour, day of month, month and year;
  - day of week, where 1 is Sunday;
  - ISO 8601 week of year (section 4.1.4 of ISO 8601:2004, week dates).

  Dates and day numbers are converted by 400-year-era arithmetic. A day number from the epoch on maps to a valid date with that day number (`Calendar.CivilFromDays`). Conversely, every valid date on or after 1970-01-01 is recovered from its day number (`Calendar.CivilFromDaysOfDate`). Dates before the epoch are outside the model, since timestamps are never negative.
- `Examples.dfy` (`Examples`): one worked run on a two-event log. A page view is dropped, and a play of a known song yields one row in each log table. The calendar values are proved for 2023-11-14T22:13:20Z.

Several behaviours of the code differ from what one might expect of a star schema. The model states what the code does:

- **Users table.** One might expect one row per user. The code keeps every play tied at the user's latest time, so a user can have several identical rows. See `LogData.UsersTableCount` and `LogData.TiedPlaysDuplicateUser`.
- **Time table.** One might expect one row per distinct timestamp. The code makes one row per play, so repeated timestamps repeat. See `LogData.TimeTable` and `LogData.TimeTableCounts`.
- **Songplays row count.** One might expect one songplays row per play. The code's left outer join gives one row per matching song record, or one null row when nothing matches. So the table has at least as many rows as plays, and more when a title names several records. See `LogData.ProcessLogData` and `LogData.LeftJoinMatchedCount`.
- **Songplays columns.** The code selects `level` for the songplays table and then leaves it out of the final column list, so `LogData.SongplayRow` has no level.
- **Songs table row count.** The songs table is a projection without deduplication. Its row count is the number of records read, repeated records included. See `SongData.SongsTable`.

## Model

| member | source | states |
|---|---|---|
| Frames.Lookup | etl.py:71 | a left join against a table with one row per key yields the key's row when the key is present and null otherwise |
| Frames.Select | etl.py:36 | a projection keeps every row once, in order, each mapped on its own |
| Frames.Where | etl.py:64 | a filter keeps exactly the rows satisfying the predicate, each as often as it occurs, and nothing else |
| Frames.SelectAppend | etl.py:36 | a projection distributes over a union of partitions |
| Frames.SelectCount | etl.py:36 | an injective projection keeps every row's multiplicity |
| Frames.SelectSameRows | etl.py:36 | a projection of the same rows in another order gives the same rows in another order |
| Frames.WhereSameRows | etl.py:64 | a filter of the same rows in another order keeps the same rows in another order |
| Frames.ProjectFilterProjectCount | etl.py:71-75 | projecting, filtering and projecting again keeps a value once for every input row whose images pass the filter and end at that value |
| SongData.SongsTable | etl.py:36 | one songs row per song record, in order, carrying exactly that record's `song_id, title, artist_id, year, duration` |
| SongData.ArtistsTable | etl.py:42 | one artists row per song record, in order, carrying exactly that record's five artist columns |
| SongData.ProcessSongData | etl.py:36-42 | both song-side tables have exactly as many rows as song records read: no filter, no deduplication |
| SongData.ArtistRepeatsPerSong | etl.py:42 | an artist appears in the artists table once for every song record carrying it |
| SongData.ProcessSongDataOrderFree | etl.py:36-42 | the songs and artists tables depend on which song records are read, not on their order |
| SongData.SongsTableByPartition | etl.py:36 | the songs table of a union of inputs is the union of their songs tables |
| LogData.SongPlays | etl.py:64 | the filtered log is exactly the events whose `page` is `NextSong`, unchanged, each as often as logged |
| LogData.EpochSeconds | etl.py:67 | the `Timestamp` of an event is its millisecond count truncated to whole seconds |
| LogData.WithTimestamp | etl.py:67 | the `Timestamp` column keeps the event unchanged and stamps it with the whole second its `ts` milliseconds fall in |
| LogData.Plays | etl.py:64-67 | one timestamped row per song-play event, in order, whose timestamp is its `ts` in whole seconds |
| LogData.PlaysOfLog | etl.py:64-67 | an event gets one timestamped row per logged copy when it is a song play, and none otherwise |
| LogData.PlaysOrderFree | etl.py:64-67 | the timestamped plays depend only on which events are logged |
| LogData.LastOrderTimes | etl.py:70 | the grouped maximum has an entry for every user with a play, bounding all of that user's plays and attained by one of them |
| LogData.LatestTimeIff | etl.py:70-72 | a play's timestamp equals its user's `last_order_time` exactly when no play of that user is later |
| LogData.JoinLastOrderTime | etl.py:71 | the left join on `userId` keeps each play once, in order, carrying its user's maximum or null when the user has none |
| LogData.LatestPlays | etl.py:71-72 | after the `userId` join, the rows kept by the `Timestamp == last_order_time` filter are exactly the plays no play of their user follows. Each carries its own timestamp as `last_order_time` and occurs as often as the play does, so ties are kept |
| LogData.KeptAtLastOrderTime | etl.py:71-72 | the same count, for one joined row at a time |
| LogData.UserOf | etl.py:75 | a users row carries exactly the event's `userId, firstName, lastName, gender, level` |
| LogData.UserColumns | etl.py:75 | the users projection of a joined row is its play's profile; `last_order_time` and the other columns are dropped |
| LogData.UsersTable | etl.py:75 | the users table never has more rows than there are plays |
| LogData.UsersFromLatestPlays | etl.py:70-75 | every users row is `userId, firstName, lastName, gender, level` of a play at its user's latest time |
| LogData.UserHasLatestPlay | etl.py:70 | every user with a play has a play at its latest time |
| LogData.EveryUserListed | etl.py:70-75 | every user with a play has at least one users row |
| LogData.UsersTableKeepsTies | etl.py:72-75 | each play at its user's latest time puts at least as many copies of its profile in the users table as it has copies itself |
| LogData.UsersTableCount | etl.py:70-75 | a profile occurs in the users table exactly once for every play at its user's latest time carrying that profile |
| LogData.TiedPlaysDuplicateUser | etl.py:70-75 | two distinct plays of a user, tied at the latest time and carrying the same profile, give at least two identical users rows |
| LogData.LastOrderTimesOrderFree | etl.py:70 | the per-user maxima depend only on which plays there are |
| LogData.UsersTableOrderFree | etl.py:70-75 | the users table depends only on which plays there are, not on their order |
| LogData.TimeRowOf | etl.py:81-91 | every calendar column is a function of the timestamp alone, within range: hour 0..23, day 1..31, weekofyear 1..53, month 1..12, weekday 1..7; year, month and day are the timestamp's date |
| LogData.Timestamps | etl.py:81 | the selected `Timestamp` column has one entry per play, in order |
| LogData.TimeTable | etl.py:81-91 | one time row per play, in order, being the calendar row of that play's timestamp |
| LogData.TimeTableCounts | etl.py:81-91 | a timestamp shared by k plays has k time rows, and no row is anything but the calendar row of its own `start_time` |
| LogData.TimeTableOrderFree | etl.py:81-91 | the time table depends only on which plays there are |
| LogData.MatchingSongs | etl.py:98-101 | after `title` is renamed `song`, a play's join partners are exactly the song records whose title equals its `song`, each as often as it occurs; a null `song` matches nothing |
| LogData.MatchingSongsEmpty | etl.py:98-101 | a play has no join partner exactly when no song record has its title |
| LogData.JoinPlay | etl.py:101 | a play contributes max(1, k) joined rows, where k counts its matching song records, and all of them are its own |
| LogData.LeftJoinOnSong | etl.py:101 | the left outer join never has fewer rows than plays |
| LogData.JoinPlayMatchedCount | etl.py:101 | one play yields a pair with a song record once per copy of a matching record, and never with another play or a record it does not match |
| LogData.JoinPlayUnmatchedCount | etl.py:101 | one play yields a null-song row once when it matches nothing, and never otherwise |
| LogData.LeftJoinMatchedCount | etl.py:98-101 | a play and a matching song record are paired (copies of the play) × (copies of the record) times; non-matching pairs never occur |
| LogData.LeftJoinUnmatchedCount | etl.py:101 | a play matching no song record keeps one null-song row per copy; a play that matches gets none |
| LogData.LeftJoinMembers | etl.py:101 | every joined row pairs a logged play with a song record it matches, or with null when it matches none |
| LogData.LeftJoinOnePerPlay | etl.py:101 | when no play's title names more than one song record, the join has exactly one row per play |
| LogData.UnmatchedOrderFree | etl.py:101 | whether a play finds a partner depends only on which song records there are |
| LogData.LeftJoinOrderFree | etl.py:101 | the join depends only on which plays and song records there are, not on their order |
| LogData.SongplayColumns | etl.py:102-110 | a songplays row carries the play's `start_time`, `userId`, `sessionId`, `location` and `userAgent`. `song_id` and `artist_id` come from the matched record and are both null exactly when there is none. `year` and `month` are those of `start_time`, and `level` is dropped |
| LogData.SongplaysTable | etl.py:101-110 | one songplays row per joined row, so at least one per play |
| LogData.SongplayRowOrigin | etl.py:101-110 | every songplays row belongs to a logged play. It carries the play's time, user, session, location and user agent, and its year and month are those of its `start_time`. `song_id` and `artist_id` come from one song record the play names, and both are null exactly when no record matches |
| LogData.SongplayRowHasTimeRow | etl.py:104-105 | every songplays row has a time-table row with the same `start_time`, year and month, so both land in the same partition |
| LogData.SongplaysTableOrderFree | etl.py:101-110 | the songplays table depends only on which plays and song records there are |
| LogData.ProcessLogData | etl.py:64-110 | one run gives one time row per song play, at least one songplays row per song play and at most one users row per song play |
| LogData.ProcessLogDataOrderFree | etl.py:64-110 | all three log-side tables depend on which events and song records are read, not on their order |
| Calendar.CivilFromDays | etl.py:83-86 | the date of a day number is a valid Gregorian date whose day number is that day |
| Calendar.CivilFromDaysOfDate | etl.py:83-86 | every valid date from the epoch on is the date of its own day number, so dates and days correspond one to one |
| Calendar.MarchYearLength | etl.py:83-86 | a year from 1 March is 366 days long exactly when the following February has a leap day |
| Calendar.LeapYearPeriodic | etl.py:83-86 | the Gregorian leap-year rule repeats every 400 years |
| Calendar.DaysIntoYear | etl.py:84 | a date is 0 to 364 days (365 in a leap year) after 1 January of its year |
| Calendar.DayOfYear | etl.py:84 | the ordinal of a day in its year is between 1 and the length of that year |
| Calendar.DayOfYearOfDate | etl.py:84 | a date's ordinal is its distance from 1 January plus one |
| Calendar.WeekThursday | etl.py:84 | the Thursday of a day's Monday-to-Sunday week is a Thursday within three days of it |
| Calendar.IsoWeekOfYear | etl.py:84 | the ISO week number lies between 1 and 53; the rule that fixes its value is stated by `SameWeekSameNumber`, `NextWeekNumber` and `JanuaryFourthInWeekOne` |
| Calendar.Monday | etl.py:84 | the start of a day's ISO week is a Monday at most six days back, as many days back as the day's ISO weekday minus one |
| Calendar.SameWeekSameNumber | etl.py:84 | all seven days from a Monday to the following Sunday have the same ISO week number |
| Calendar.NextWeekNumber | etl.py:84 | the next week is numbered one more, or 1 when its Thursday falls in a new calendar year |
| Calendar.NextWeekSameYear | etl.py:84 | a week whose Thursday stays in the same year as the previous week's is numbered one more |
| Calendar.NextWeekNewYear | etl.py:84 | a week whose Thursday falls in a new year is week 1 |
| Calendar.ThursdayOfWeekDay | etl.py:84 | every day of a Monday-to-Sunday week has the same Thursday |
| Calendar.NextThursday | etl.py:84 | the Thursday of the week a week later is seven days on |
| Calendar.OrdinalWeekLater | etl.py:84 | a week later is seven ordinals on in the same year, or among the first seven days of the next |
| Calendar.WeekLaterSameYear | etl.py:84 | a week later, before the next 1 January, is the same year and seven ordinals on |
| Calendar.WeekLaterNextYear | etl.py:84 | a week later, from the next 1 January on, is the next year and among its first seven days |
| Calendar.YearOfWeekLaterDay | etl.py:86 | the year of a day a week on is the same year, or the next once its 1 January is reached |
| Calendar.DayInItsYear | etl.py:86 | a day lies between 1 January of its year and 1 January of the next |
| Calendar.DateInItsYear | etl.py:86 | a valid date lies between 1 January of its year and 1 January of the next |
| Calendar.YearOfDay | etl.py:86 | the year whose 1 January to 31 December holds a day is that day's year, and no other |
| Calendar.OneYearHolds | etl.py:86 | calendar years do not overlap |
| Calendar.NewYearMonotone | etl.py:86 | 1 January of a later year is no earlier |
| Calendar.YearAtLeast365 | etl.py:86 | no calendar year is shorter than 365 days |
| Calendar.OrdinalInItsYear | etl.py:84 | a day's ordinal counts from 1 January of its year |
| Calendar.Week53Of2020 | etl.py:84 | day 18628 (2021-01-01, a Friday) is in week 53, that of 2020 |
| Calendar.NewYearsDay2021 | etl.py:84 | 2021-01-01 is in ISO week 53 |
| Calendar.LastDayOf2020 | etl.py:84 | 2020-12-31 is the 366th day of 2020 |
| Calendar.EndOf2020 | etl.py:83-86 | day 18627 of the epoch is 2020-12-31 |
| Calendar.Week1Of2025 | etl.py:84 | day 20087 (2024-12-30, a Monday) is in week 1, that of 2025 |
| Calendar.LastMondayOf2024 | etl.py:84 | 2024-12-30 is in ISO week 1 |
| Calendar.SecondOfJanuary2025 | etl.py:84 | day 20090 is the second day of 2025 |
| Calendar.JanuaryFourthInWeekOne | etl.py:84 | the week holding 4 January is ISO week 1 |
| Calendar.DateOf | etl.py:83-86 | an instant's date is the valid date whose day contains that instant |
| Calendar.Hour | etl.py:82 | `hour` is the hour of the day, 0 to 23, whose hour-long slot holds the instant |
| Calendar.DayOfMonth | etl.py:83 | `dayofmonth` lies between 1 and 31 |
| Calendar.Year | etl.py:86 | `year` is the year whose 1 January to 31 December holds the instant |
| Calendar.YearFromJanuary | etl.py:86 | a calendar year runs 365 days, 366 in a leap year, from one 1 January to the next |
| Calendar.Month | etl.py:85 | `month` lies between 1 and 12 |
| Calendar.DayOfWeek | etl.py:87 | `dayofweek` lies between 1 and 7; with `SameDateSameWeekday`, `DayOfWeekNextDay` and `TuesdayNightClock` its value is fixed for every instant |
| Calendar.SameDateSameWeekday | etl.py:87 | `dayofweek` depends only on the instant's UTC date: two instants on the same date have the same day of the week |
| Calendar.WeekOfYear | etl.py:84 | `weekofyear` lies between 1 and 53; its value follows the ISO rule through `WeekOfYearNextWeek` and the boundary instants below |
| Calendar.WeekOfYearNextWeek | etl.py:84 | `weekofyear` a week later is one more, or 1 when that week's Thursday is in a new year |
| Calendar.WeekOfNewYear2021 | etl.py:84 | the instant 1609459200 (2021-01-01T00:00:00Z) is in week 53 |
| Calendar.WeekOfLastMonday2024 | etl.py:84 | the instant 1735516800 (2024-12-30T00:00:00Z) is in week 1 |
| Calendar.DayOfWeekNextDay | etl.py:87 | `dayofweek` advances by one per day, with Saturday (7) followed by Sunday (1) |
| Calendar.MidNovember2023 | etl.py:83-86 | day 19675 of the epoch is 2023-11-14 and day 19677 is 2023-11-16 |
| Calendar.SixteenthNovember2023 | etl.py:84 | 2023-11-16 is the 320th day of 2023 |
| Calendar.TuesdayNight | etl.py:83-86 | the instant 1700000000 falls on 2023-11-14 |
| Calendar.TuesdayNightClock | etl.py:82-87 | the instant 1700000000 is at hour 22 on a Tuesday (`dayofweek` 3) |
| Calendar.WeekOfTuesdayNight | etl.py:84 | the instant 1700000000 is in ISO week 46 |
| Examples.ExamplePlays | etl.py:64-67 | a page view is dropped and a play is stamped with its second count |
| Examples.ExampleUsers | etl.py:70-75 | a single play gives its user's row with the level it was logged at |
| Examples.ExampleTime | etl.py:81-91 | the play at 2023-11-14T22:13:20Z has time row (22, 14, week 46, 11, 2023, Tuesday) |
| Examples.ExampleSongplays | etl.py:98-110 | a play of a known title gets that song record's `song_id` and `artist_id` |
| Examples.ExampleRun | etl.py:64-110 | the whole log side on a two-event log yields one users row, one time row and one songplays row, with the values above |

## Left out

- Session creation, the input path patterns, the JSON reads and the parquet writes are I/O and are not modelled. The inputs are given as sequences of records and the outputs are returned as sequences of rows.
- The partitioning is not modelled: the songs table by `year, artist_id`, the time and songplays tables by `year, month`. `LogData.SongplayRowHasTimeRow` states only that a songplays row and its time row share those keys.
- Create_S3.py is not part of this model. It creates the storage bucket through a cloud client library and loads credentials, all of which is network and configuration plumbing.
- LogData.EpochSeconds: `from_unixtime(ts / 1000)` divides in floating point and formats the result as a `yyyy-MM-dd HH:mm:ss` string in the session time zone. The model keeps the whole seconds as a number and assumes UTC. Distinct seconds give distinct strings, and for four-digit years the strings order as the numbers do. So the maximum and the equality test in the users resolver behave the same, and no negative `ts` is modelled.
- A null `userId` is not modelled; every event has a user id. In the engine, a null key does not match in the `userId` join, so such plays would drop out of the users table.
- A null `title` in the song data is not modelled. Such a record matches no play, exactly as a title no play names.
- Event columns the pipeline never reads are not modelled, such as `artist`, `length`, `auth` and `itemInSession`.
- Song-record columns outside the two projections are not modelled, such as `num_songs`.
- Schema inference, malformed records and missing fields are not modelled. These are read-time failures of the engine.
- Distributed execution and row order are not modelled. Every table-level property is stated over multisets for this reason, and the `...OrderFree` lemmas show the tables depend on their inputs only up to order.
