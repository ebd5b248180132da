/**
 * The catalog read models of `songs.ts` (the song/artist/album join, the full
 * listing, lookup by id, recently played) and the play-count mutation.
 */
module Songs {
  import opened Wrappers
  import opened Tables
  import opened Schema
  import opened StableSort
  import Users

  /** The tables a read joins against. */
  datatype Catalog = Catalog(songs: Table<Song>, artists: Table<Artist>, albums: Table<Album>)

  /** A song as every read returns it: all stored fields plus the resolved artist and album. */
  datatype SongView = SongView(id: nat, song: Song, artist: string, artistImage: Option<string>,
                               album: string, albumCover: Option<string>)

  /** An entry of the recently-played list: the joined song and when it was played. */
  datatype PlayedView = PlayedView(view: SongView, playedAt: int)

  /** JavaScript truthiness of an optional string: present and not empty. */
  predicate Truthy(o: Option<string>) {
    o.Some? && o.value != ""
  }

  /** The artist a song refers to, if it exists (`ctx.db.get(song.artistId)`). */
  function ArtistOf(s: Song, cat: Catalog): Option<Artist> {
    Get(cat.artists, s.artistId)
  }

  /** The album a song refers to, if it has one and it exists. */
  function AlbumOf(s: Song, cat: Catalog): Option<Album> {
    if s.albumId.Some? then Get(cat.albums, s.albumId.value) else None
  }

  /**
   * The join: artist name or "Unknown Artist" (also for an empty name), album
   * title or "Single", album cover or else the song's own cover.
   */
  function Join(d: Doc<Song>, cat: Catalog): (r: SongView)
    ensures r.id == d.id && r.song == d.val
    ensures r.artist != "" && r.album != ""
    ensures ArtistOf(d.val, cat).Some? && ArtistOf(d.val, cat).value.name != "" ==>
      r.artist == ArtistOf(d.val, cat).value.name
    ensures ArtistOf(d.val, cat).None? || ArtistOf(d.val, cat).value.name == "" ==> r.artist == "Unknown Artist"
    ensures ArtistOf(d.val, cat).Some? ==> r.artistImage == ArtistOf(d.val, cat).value.image
    ensures ArtistOf(d.val, cat).None? ==> r.artistImage.None?
    ensures AlbumOf(d.val, cat).Some? && AlbumOf(d.val, cat).value.title != "" ==>
      r.album == AlbumOf(d.val, cat).value.title
    ensures AlbumOf(d.val, cat).None? || AlbumOf(d.val, cat).value.title == "" ==> r.album == "Single"
    ensures AlbumOf(d.val, cat).Some? && Truthy(AlbumOf(d.val, cat).value.coverImage) ==>
      r.albumCover == AlbumOf(d.val, cat).value.coverImage
    ensures AlbumOf(d.val, cat).None? || !Truthy(AlbumOf(d.val, cat).value.coverImage) ==>
      r.albumCover == d.val.coverImage
  {
    var artist := ArtistOf(d.val, cat);
    var album := AlbumOf(d.val, cat);
    var artistName := if artist.Some? then Some(artist.value.name) else None;
    var albumTitle := if album.Some? then Some(album.value.title) else None;
    var albumCover := if album.Some? then album.value.coverImage else None;
    SongView(
      d.id, d.val,
      if Truthy(artistName) then artistName.value else "Unknown Artist",
      if artist.Some? then artist.value.image else None,
      if Truthy(albumTitle) then albumTitle.value else "Single",
      if Truthy(albumCover) then albumCover else d.val.coverImage)
  }

  /** The join applied to each document, keeping their order. */
  function Views(docs: seq<Doc<Song>>, cat: Catalog): (r: seq<SongView>)
    ensures |r| == |docs|
    ensures forall i :: 0 <= i < |docs| ==> r[i] == Join(docs[i], cat)
  {
    seq(|docs|, i requires 0 <= i < |docs| => Join(docs[i], cat))
  }

  /** `getAllSongs`: every song, in table order, with its stored fields and id kept. */
  function GetAllSongs(cat: Catalog): (r: seq<SongView>)
    ensures |r| == |cat.songs|
    ensures forall i :: 0 <= i < |r| ==> r[i].id == cat.songs[i].id && r[i].song == cat.songs[i].val
    ensures forall i :: 0 <= i < |r| ==> r[i] == Join(cat.songs[i], cat)
  {
    Views(cat.songs, cat)
  }

  /** `getSongById`: the joined song, or `None` for an unknown id. */
  function GetSongById(cat: Catalog, id: nat): (r: Option<SongView>)
    ensures r.None? <==> id !in Ids(cat.songs)
    ensures r.Some? ==> r.value.id == id && Doc(id, r.value.song) in cat.songs
    ensures r.Some? ==> Get(cat.songs, id) == Some(r.value.song) && r.value == Join(Doc(id, r.value.song), cat)
  {
    match Get(cat.songs, id)
    case None => None
    case Some(s) => Some(Join(Doc(id, s), cat))
  }

  /** The ids of `ids` that name an existing song, in order. */
  function Present(ids: seq<nat>, songs: Table<Song>): seq<nat> {
    Filter(ids, id => id in Ids(songs))
  }

  /**
   * Resolving a list of song ids to joined songs, dropping ids whose song is
   * gone (`map(get)` followed by `filter(Boolean)`): the result follows the
   * present ids one for one, in order.
   */
  function ResolveSongs(ids: seq<nat>, cat: Catalog): (r: seq<SongView>)
    ensures |r| == |Present(ids, cat.songs)|
    ensures forall i :: 0 <= i < |r| ==> r[i].id == Present(ids, cat.songs)[i]
    ensures forall i :: 0 <= i < |r| ==> Get(cat.songs, r[i].id) == Some(r[i].song)
    ensures forall i :: 0 <= i < |r| ==> r[i] == Join(Doc(r[i].id, r[i].song), cat)
  {
    if ids == [] then []
    else
      var id := ids[|ids| - 1];
      var rest := ResolveSongs(ids[..|ids| - 1], cat);
      match Get(cat.songs, id)
      case None => rest
      case Some(s) => rest + [Join(Doc(id, s), cat)]
  }

  /** When every id resolves, nothing is dropped. */
  lemma {:induction false} PresentAll(ids: seq<nat>, songs: Table<Song>)
    requires forall i :: 0 <= i < |ids| ==> ids[i] in Ids(songs)
    ensures Present(ids, songs) == ids
  {
    if ids != [] {
      PresentAll(ids[..|ids| - 1], songs);
      assert ids == ids[..|ids| - 1] + [ids[|ids| - 1]];
    }
  }

  // ---------------------------------------------------------------------------
  // incrementPlayCount

  /** The play count of a stored song, an absent count read as 0. */
  function PlayCount(s: Song): nat {
    s.playCount.GetOr(0)
  }

  /** The songs table after one play of `id`: its count becomes `(count || 0) + 1`. */
  function Bumped(songs: Table<Song>, id: nat): Table<Song> {
    var i := IndexOf(songs, id);
    if i < 0 then songs
    else Replace(songs, i, songs[i].val.(playCount := Some(PlayCount(songs[i].val) + 1)))
  }

  /**
   * One play raises that song's count by exactly one and touches nothing else:
   * every other song and every other field keep their values; an unknown id
   * leaves the table as it was.
   */
  lemma BumpedCounts(songs: Table<Song>, id: nat, x: nat)
    requires UniqueIds(songs)
    ensures UniqueIds(Bumped(songs, id))
    ensures id !in Ids(songs) ==> Bumped(songs, id) == songs
    ensures var before, after := Get(songs, x), Get(Bumped(songs, id), x);
      && (after.Some? <==> before.Some?)
      && (before.Some? && x == id ==>
            after.value == before.value.(playCount := Some(PlayCount(before.value) + 1)))
      && (x != id ==> after == before)
  {
    var i := IndexOf(songs, id);
    if i >= 0 {
      var v := songs[i].val.(playCount := Some(PlayCount(songs[i].val) + 1));
      assert Bumped(songs, id) == Replace(songs, i, v);
      IndexOfAt(songs, i);
      GetReplace(songs, i, v, x);
    }
  }

  /** The history after a play: one row (user, song, now) appended when someone is signed in. */
  function Recorded(history: Table<PlayEvent>, user: Option<nat>, id: nat, now: int, newId: nat): Table<PlayEvent> {
    if user.Some? then history + [Doc(newId, PlayEvent(user.value, id, now))] else history
  }

  /**
   * `incrementPlayCount`: an unknown song changes nothing; otherwise its count
   * goes up by one and, if the caller is signed in, one history row is appended.
   * Needs no authentication.
   */
  method IncrementPlayCount(db: Db, auth: Option<nat>, songId: nat, now: int)
    requires db.Valid()
    modifies db`songs, db`history, db`nextId
    ensures db.Valid()
    ensures songId !in Ids(old(db.songs)) ==>
      db.songs == old(db.songs) && db.history == old(db.history) && db.nextId == old(db.nextId)
    ensures songId in Ids(old(db.songs)) ==>
      var user := Users.CurrentUser(auth, old(db.users));
      var who := if user.Some? then Some(user.value.id) else None;
      && db.songs == Bumped(old(db.songs), songId)
      && db.history == Recorded(old(db.history), who, songId, now, old(db.nextId))
      && db.nextId == (if who.Some? then old(db.nextId) + 1 else old(db.nextId))
  {
    var i := IndexOf(db.songs, songId);
    if i < 0 {
      return;
    }
    var song := db.songs[i].val;
    ReplaceKeepsInvariant(db.songs, i, song.(playCount := Some(PlayCount(song) + 1)), db.nextId);
    db.songs := Replace(db.songs, i, song.(playCount := Some(PlayCount(song) + 1)));
    var user := Users.CurrentUser(auth, db.users);
    if user.Some? {
      InsertKeepsInvariant(db.history, PlayEvent(user.value.id, songId, now), db.nextId);
      db.history := db.history + [Doc(db.nextId, PlayEvent(user.value.id, songId, now))];
      db.nextId := db.nextId + 1;
      assert IdsBelow(db.songs, db.nextId) && IdsBelow(db.users, db.nextId) && IdsBelow(db.likes, db.nextId);
      assert IdsBelow(db.artists, db.nextId) && IdsBelow(db.albums, db.nextId) && IdsBelow(db.playlists, db.nextId);
    }
  }

  // ---------------------------------------------------------------------------
  // getRecentlyPlayed

  function Reverse<T>(s: seq<T>): (r: seq<T>)
    ensures |r| == |s| && forall i :: 0 <= i < |s| ==> r[i] == s[|s| - 1 - i]
    ensures multiset(r) == multiset(s)
  {
    if s == [] then []
    else
      assert s == [s[0]] + s[1..];
      Reverse(s[1..]) + [s[0]]
  }

  /** The history rows of one user, in the order they were written. */
  function OfUser(history: Table<PlayEvent>, user: nat): Table<PlayEvent> {
    Filter(history, (e: Doc<PlayEvent>) => e.val.userId == user)
  }

  function PlayedAt(e: Doc<PlayEvent>): int {
    e.val.playedAt
  }

  /**
   * The rows the index `(userId, playedAt)` yields in descending order: newest
   * first, rows with the same time newest-written first.
   */
  function NewestFirst(history: Table<PlayEvent>, user: nat): Table<PlayEvent> {
    SortDesc(Reverse(OfUser(history, user)), PlayedAt)
  }

  /** The newest twenty of the user's plays (`.take(20)` on the descending index). */
  function RecentWindow(history: Table<PlayEvent>, user: nat): Table<PlayEvent> {
    var newest := NewestFirst(history, user);
    newest[..if |newest| < 20 then |newest| else 20]
  }

  /** The plays whose song still exists, in order. */
  function Resolvable(plays: Table<PlayEvent>, songs: Table<Song>): Table<PlayEvent> {
    Filter(plays, (p: Doc<PlayEvent>) => p.val.songId in Ids(songs))
  }

  /** Each play joined with its song, dropping plays whose song is gone; `playedAt` is carried over. */
  function ResolvePlays(plays: Table<PlayEvent>, cat: Catalog): (r: seq<PlayedView>)
    ensures var keep := Resolvable(plays, cat.songs);
      && |r| == |keep|
      && forall i :: 0 <= i < |r| ==>
           && r[i].view.id == keep[i].val.songId && r[i].playedAt == keep[i].val.playedAt
           && Get(cat.songs, r[i].view.id) == Some(r[i].view.song)
           && r[i].view == Join(Doc(r[i].view.id, r[i].view.song), cat)
  {
    if plays == [] then []
    else
      var p := plays[|plays| - 1];
      var rest := ResolvePlays(plays[..|plays| - 1], cat);
      match Get(cat.songs, p.val.songId)
      case None => rest
      case Some(s) => rest + [PlayedView(Join(Doc(p.val.songId, s), cat), p.val.playedAt)]
  }

  /**
   * `getRecentlyPlayed`: nothing for a caller who is not signed in; otherwise
   * the caller's 20 newest plays, joined, with plays of deleted songs dropped.
   */
  function GetRecentlyPlayed(auth: Option<nat>, users: Table<User>, history: Table<PlayEvent>, cat: Catalog): (r: seq<PlayedView>)
    ensures Users.CurrentUser(auth, users).None? ==> r == []
    ensures |r| <= 20
    ensures forall i :: 0 <= i < |r| ==>
      Get(cat.songs, r[i].view.id) == Some(r[i].view.song) && r[i].view == Join(Doc(r[i].view.id, r[i].view.song), cat)
  {
    match Users.CurrentUser(auth, users)
    case None => []
    case Some(u) => ResolvePlays(RecentWindow(history, u.id), cat)
  }

  /** Dropping plays keeps a newest-first sequence newest-first. */
  lemma {:induction false} ResolvableSorted(plays: Table<PlayEvent>, songs: Table<Song>)
    requires SortedDesc(plays, PlayedAt)
    ensures SortedDesc(Resolvable(plays, songs), PlayedAt)
  {
    if plays != [] {
      var init := plays[..|plays| - 1];
      assert SortedDesc(init, PlayedAt) by {
        forall a, b | 0 <= a < b < |init| ensures PlayedAt(init[a]) >= PlayedAt(init[b]) {
          assert init[a] == plays[a] && init[b] == plays[b];
        }
      }
      ResolvableSorted(init, songs);
      var rest := Resolvable(init, songs);
      forall i | 0 <= i < |rest| ensures PlayedAt(rest[i]) >= PlayedAt(plays[|plays| - 1]) {
        assert rest[i] in init;
        var j :| 0 <= j < |init| && init[j] == rest[i];
        assert init[j] == plays[j];
      }
    }
  }

  /** The newest-first rows are exactly the user's own rows (as a multiset), newest first. */
  lemma NewestFirstShape(history: Table<PlayEvent>, user: nat)
    ensures var n := NewestFirst(history, user);
      && SortedDesc(n, PlayedAt)
      && multiset(n) == multiset(OfUser(history, user))
      && forall x :: x in n ==> x in history && x.val.userId == user
  {
    var mine := OfUser(history, user);
    var n := NewestFirst(history, user);
    SortDescSorted(Reverse(mine), PlayedAt);
    forall x | x in n ensures x in history && x.val.userId == user {
      assert x in multiset(n);
      assert x in multiset(Reverse(mine));
      var m :| 0 <= m < |mine| && Reverse(mine)[m] == x;
      assert mine[|mine| - 1 - m] == x;
    }
  }

  /** The first `k` of a newest-first sequence. */
  lemma TakeSorted(s: Table<PlayEvent>, k: nat)
    requires k <= |s| && SortedDesc(s, PlayedAt)
    ensures SortedDesc(s[..k], PlayedAt) && forall x :: x in s[..k] ==> x in s
  {
    assert forall a :: 0 <= a < k ==> s[..k][a] == s[a];
  }

  /**
   * The window holds `min(20, own plays)` of the user's own rows, and no row of
   * the user's left out of it is newer than a row in it.
   */
  lemma RecentWindowIsNewest(history: Table<PlayEvent>, user: nat)
    ensures var mine := OfUser(history, user);
      var w := RecentWindow(history, user);
      && |w| == (if |mine| < 20 then |mine| else 20)
      && multiset(w) <= multiset(mine)
      && forall e :: e in multiset(mine) - multiset(w) ==> forall j :: 0 <= j < |w| ==> PlayedAt(e) <= PlayedAt(w[j])
  {
    var n := NewestFirst(history, user);
    NewestFirstShape(history, user);
    assert |multiset(n)| == |n|;
    PrefixIsTop(n, |RecentWindow(history, user)|, PlayedAt);
  }

  /**
   * For a signed-in caller the list is the window minus the plays whose song is
   * gone, one for one and in order.
   */
  lemma RecentlyPlayedWindow(auth: Option<nat>, users: Table<User>, history: Table<PlayEvent>, cat: Catalog)
    requires Users.CurrentUser(auth, users).Some?
    ensures var keep := Resolvable(RecentWindow(history, auth.value), cat.songs);
      var r := GetRecentlyPlayed(auth, users, history, cat);
      && |r| == |keep|
      && forall i :: 0 <= i < |r| ==> r[i].view.id == keep[i].val.songId && r[i].playedAt == keep[i].val.playedAt
  {
  }

  /**
   * The recently-played list is empty without a signed-in user; otherwise it
   * has at most 20 entries, newest first, each one a play of the caller's
   * whose song still exists, with its own play time attached.
   */
  lemma RecentlyPlayedShape(auth: Option<nat>, users: Table<User>, history: Table<PlayEvent>, cat: Catalog)
    ensures var r := GetRecentlyPlayed(auth, users, history, cat);
      && (Users.CurrentUser(auth, users).None? ==> r == [])
      && |r| <= 20
      && (forall i, j :: 0 <= i < j < |r| ==> r[i].playedAt >= r[j].playedAt)
      && (forall i :: 0 <= i < |r| ==>
            Get(cat.songs, r[i].view.id) == Some(r[i].view.song)
            && exists e :: e in history && e.val == PlayEvent(auth.value, r[i].view.id, r[i].playedAt))
  {
    var r := GetRecentlyPlayed(auth, users, history, cat);
    match Users.CurrentUser(auth, users)
    case None =>
    case Some(u) =>
      var newest := NewestFirst(history, u.id);
      var top := RecentWindow(history, u.id);
      var keep := Resolvable(top, cat.songs);
      NewestFirstShape(history, u.id);
      TakeSorted(newest, |top|);
      ResolvableSorted(top, cat.songs);
      forall i | 0 <= i < |r|
        ensures exists e :: e in history && e.val == PlayEvent(auth.value, r[i].view.id, r[i].playedAt)
      {
        assert keep[i] in top;
      }
  }
}
