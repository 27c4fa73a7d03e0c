/**
  The song-metadata side of the pipeline: the song records read from the song
  data set, and the songs and artists dimension tables projected from them.
*/
module SongData {
  import opened Frames

  /** One record of the song data set, with the columns the pipeline reads. */
  datatype SongRecord = SongRecord(
    songId: string,
    title: string,
    artistId: string,
    year: int,
    duration: real,
    artistName: string,
    artistLocation: string,
    artistLatitude: Option<real>,
    artistLongitude: Option<real>)

  /** A row of the songs table: `song_id, title, artist_id, year, duration`. */
  datatype SongRow = SongRow(songId: string, title: string, artistId: string, year: int, duration: real)

  /** A row of the artists table: `artist_id, artist_name, artist_location, artist_latitude, artist_longitude`. */
  datatype ArtistRow = ArtistRow(
    artistId: string,
    name: string,
    location: string,
    latitude: Option<real>,
    longitude: Option<real>)

  function SongColumns(s: SongRecord): SongRow {
    SongRow(s.songId, s.title, s.artistId, s.year, s.duration)
  }

  function ArtistColumns(s: SongRecord): ArtistRow {
    ArtistRow(s.artistId, s.artistName, s.artistLocation, s.artistLatitude, s.artistLongitude)
  }

  /** The songs table: one row per song record, in the same order, carrying its five song columns. */
  function SongsTable(songs: seq<SongRecord>): (rows: seq<SongRow>)
    ensures |rows| == |songs|
    ensures forall i :: 0 <= i < |songs| ==>
      rows[i].songId == songs[i].songId && rows[i].title == songs[i].title &&
      rows[i].artistId == songs[i].artistId && rows[i].year == songs[i].year &&
      rows[i].duration == songs[i].duration
  {
    Select(SongColumns, songs)
  }

  /** The artists table: one row per song record, in the same order, carrying its five artist columns; nothing is deduplicated. */
  function ArtistsTable(songs: seq<SongRecord>): (rows: seq<ArtistRow>)
    ensures |rows| == |songs|
    ensures forall i :: 0 <= i < |songs| ==>
      rows[i].artistId == songs[i].artistId && rows[i].name == songs[i].artistName &&
      rows[i].location == songs[i].artistLocation && rows[i].latitude == songs[i].artistLatitude &&
      rows[i].longitude == songs[i].artistLongitude
  {
    Select(ArtistColumns, songs)
  }

  /** The tables written by one run over the song data set. */
  datatype SongTables = SongTables(songs: seq<SongRow>, artists: seq<ArtistRow>)

  function ProcessSongData(songs: seq<SongRecord>): (r: SongTables)
    ensures |r.songs| == |songs| && |r.artists| == |songs|
  {
    SongTables(SongsTable(songs), ArtistsTable(songs))
  }

  /**
    An artist row is repeated once for every song record that carries it: the
    projection neither filters nor deduplicates, so an artist with `k` songs
    has `k` rows.
  */
  lemma {:induction false} ArtistRepeatsPerSong(songs: seq<SongRecord>, a: ArtistRow)
    ensures multiset(ArtistsTable(songs))[a] == |Where((s: SongRecord) => ArtistColumns(s) == a, songs)|
  {
    if songs != [] {
      var rest := songs[1..];
      ArtistRepeatsPerSong(rest, a);
      assert |Where((s: SongRecord) => ArtistColumns(s) == a, songs)| ==
        (if ArtistColumns(songs[0]) == a then 1 else 0) + |Where((s: SongRecord) => ArtistColumns(s) == a, rest)|;
      assert ArtistsTable(songs) == [ArtistColumns(songs[0])] + ArtistsTable(rest);
      assert multiset(ArtistsTable(songs)) == multiset{ArtistColumns(songs[0])} + multiset(ArtistsTable(rest));
    }
  }

  /**
    The tables depend on which song records are read, not on the order they
    are read in: the same records in another order give the same rows in
    another order.
  */
  lemma ProcessSongDataOrderFree(a: seq<SongRecord>, b: seq<SongRecord>)
    requires SameRows(a, b)
    ensures SameRows(ProcessSongData(a).songs, ProcessSongData(b).songs)
    ensures SameRows(ProcessSongData(a).artists, ProcessSongData(b).artists)
  {
    SelectSameRows(SongColumns, a, b);
    SelectSameRows(ArtistColumns, a, b);
  }

  /** The songs table can be computed partition by partition: the table of a union is the union of the tables. */
  lemma SongsTableByPartition(a: seq<SongRecord>, b: seq<SongRecord>)
    ensures SongsTable(a + b) == SongsTable(a) + SongsTable(b)
  {
    SelectAppend(SongColumns, a, b);
  }
}
