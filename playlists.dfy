/**
 * `playlists.ts`: listing a user's playlists, reading one playlist with its
 * songs, and the three mutations (create, add a song, remove a song), the last
 * two guarded by an ownership check.
 */
module Playlists {
  import opened Wrappers
  import opened Tables
  import opened Schema
  import opened Songs
  import Users

  /** `getUserPlaylists`: nothing when not signed in, else exactly the caller's playlists. */
  function GetUserPlaylists(auth: Option<nat>, users: Table<User>, playlists: Table<Playlist>): (r: Table<Playlist>)
    ensures Users.CurrentUser(auth, users).None? ==> r == []
    ensures Users.CurrentUser(auth, users).Some? ==>
      forall d :: d in r <==> d in playlists && d.val.userId == auth.value
  {
    match Users.CurrentUser(auth, users)
    case None => []
    case Some(u) => Filter(playlists, (d: Doc<Playlist>) => d.val.userId == u.id)
  }

  /** A playlist as `getPlaylistById` returns it: its stored fields and its resolved songs. */
  datatype PlaylistView = PlaylistView(id: nat, playlist: Playlist, songs: seq<SongView>)

  /**
   * `getPlaylistById`: `None` for an unknown id; otherwise the stored playlist
   * with its song ids resolved in order, dangling ids dropped. There is no
   * authentication or ownership check.
   */
  function GetPlaylistById(cat: Catalog, playlists: Table<Playlist>, id: nat): (r: Option<PlaylistView>)
    ensures r.None? <==> id !in Ids(playlists)
    ensures r.Some? ==>
      && r.value.id == id && Doc(id, r.value.playlist) in playlists
      && var present := Present(r.value.playlist.songIds, cat.songs);
         |r.value.songs| == |present| && forall i :: 0 <= i < |present| ==> r.value.songs[i].id == present[i]
    ensures r.Some? ==> forall i :: 0 <= i < |r.value.songs| ==>
      && Get(cat.songs, r.value.songs[i].id) == Some(r.value.songs[i].song)
      && r.value.songs[i] == Join(Doc(r.value.songs[i].id, r.value.songs[i].song), cat)
  {
    match Get(playlists, id)
    case None => None
    case Some(p) => Some(PlaylistView(id, p, ResolveSongs(p.songIds, cat)))
  }

  // ---------------------------------------------------------------------------
  // The song-list edits.

  /** The list after `addSongToPlaylist`: unchanged if the song is already there, else the song appended. */
  function WithSong(ids: seq<nat>, song: nat): seq<nat> {
    if song in ids then ids else ids + [song]
  }

  /** The list after `removeSongFromPlaylist`: every occurrence of the song filtered out. */
  function WithoutSong(ids: seq<nat>, song: nat): seq<nat> {
    Filter(ids, (x: nat) => x != song)
  }

  ghost predicate NoDuplicates(ids: seq<nat>) {
    forall i, j :: 0 <= i < j < |ids| ==> ids[i] != ids[j]
  }

  /**
   * Adding: the old list is a prefix of the new one, the song is present
   * afterwards, at most one entry is added, a second add changes nothing, and a
   * duplicate-free list stays duplicate-free.
   */
  lemma WithSongProperties(ids: seq<nat>, song: nat)
    ensures var r := WithSong(ids, song);
      && r[..|ids|] == ids && song in r
      && (forall x :: x in r <==> x in ids || x == song)
      && |r| == |ids| + (if song in ids then 0 else 1)
      && WithSong(r, song) == r
      && (NoDuplicates(ids) ==> NoDuplicates(r))
  {
  }

  /**
   * Removing: the song is absent afterwards, every other entry stays in its
   * relative order, removing an absent song changes nothing, and a second
   * remove changes nothing.
   */
  lemma {:induction false} WithoutSongProperties(ids: seq<nat>, song: nat)
    ensures var r := WithoutSong(ids, song);
      && song !in r
      && (forall x :: x in r <==> x in ids && x != song)
      && (song !in ids ==> r == ids)
      && WithoutSong(r, song) == r
  {
    var r := WithoutSong(ids, song);
    if song !in ids {
      FilterKeepsAll(ids, (x: nat) => x != song);
    }
    FilterKeepsAll(r, (x: nat) => x != song);
  }

  /** Removing a song just added to a list that lacked it restores the list. */
  lemma RemoveUndoesAdd(ids: seq<nat>, song: nat)
    requires song !in ids
    ensures WithoutSong(WithSong(ids, song), song) == ids
  {
    FilterAppend(ids, [song], (x: nat) => x != song);
    WithoutSongProperties(ids, song);
    assert [song][..0] == [];
  }

  // ---------------------------------------------------------------------------
  // The ownership check and the patched table.

  /**
   * Removal keeps the order of the other songs and every duplicate of them: it
   * distributes over concatenation, keeps or drops a single entry, and takes
   * exactly the occurrences of `song` out of the multiset.
   */
  lemma WithoutSongOrder(a: seq<nat>, b: seq<nat>, x: nat, song: nat)
    ensures WithoutSong(a + b, song) == WithoutSong(a, song) + WithoutSong(b, song)
    ensures WithoutSong([], song) == []
    ensures WithoutSong([x], song) == if x == song then [] else [x]
    ensures multiset(WithoutSong(a, song)) == multiset(a)[song := 0]
  {
    FilterAppend(a, b, (y: nat) => y != song);
    FilterSingleton(x, (y: nat) => y != song);
    WithoutSongCounts(a, song);
  }

  lemma {:induction false} WithoutSongCounts(ids: seq<nat>, song: nat)
    ensures multiset(WithoutSong(ids, song)) == multiset(ids)[song := 0]
  {
    if ids != [] {
      var u, x := ids[..|ids| - 1], ids[|ids| - 1];
      assert ids == u + [x];
      FilterSnoc(u, x, (y: nat) => y != song);
      WithoutSongCounts(u, song);
      assert multiset(ids) == multiset(u) + multiset{x};
    }
  }

  /**
   * The guard shared by add and remove: the caller must be signed in, and the
   * playlist must exist and belong to the caller; on success, its position.
   */
  function Access(auth: Option<nat>, users: Table<User>, playlists: Table<Playlist>, id: nat): (r: Result<nat>)
    ensures r == Err(NotAuthenticated) <==> Users.CurrentUser(auth, users).None?
    ensures r == Err(NotFoundOrDenied) <==>
      Users.CurrentUser(auth, users).Some? && (Get(playlists, id).None? || Get(playlists, id).value.userId != auth.value)
    ensures r.Ok? <==>
      Users.CurrentUser(auth, users).Some? && Get(playlists, id).Some? && Get(playlists, id).value.userId == auth.value
    ensures r.Ok? ==> r.value < |playlists| && playlists[r.value].id == id && playlists[r.value].val.userId == auth.value
  {
    match Users.CurrentUser(auth, users)
    case None => Err(NotAuthenticated)
    case Some(u) =>
      var i := IndexOf(playlists, id);
      if i < 0 || playlists[i].val.userId != u.id then Err(NotFoundOrDenied) else Ok(i)
  }

  /** The playlists table with playlist `id`'s song list set to `ids` (no change if `id` is unknown). */
  function SetSongs(playlists: Table<Playlist>, id: nat, ids: seq<nat>): Table<Playlist> {
    var i := IndexOf(playlists, id);
    if i < 0 then playlists else Replace(playlists, i, playlists[i].val.(songIds := ids))
  }

  /** Only the targeted playlist's song list changes: every other playlist and every other field is kept. */
  lemma SetSongsFrame(playlists: Table<Playlist>, id: nat, ids: seq<nat>, x: nat)
    requires UniqueIds(playlists)
    ensures UniqueIds(SetSongs(playlists, id, ids))
    ensures var before, after := Get(playlists, x), Get(SetSongs(playlists, id, ids), x);
      && (after.Some? <==> before.Some?)
      && (x == id && before.Some? ==> after.value == before.value.(songIds := ids))
      && (x != id ==> after == before)
  {
    var i := IndexOf(playlists, id);
    if i >= 0 {
      GetReplace(playlists, i, playlists[i].val.(songIds := ids), x);
      IndexOfAt(playlists, i);
    }
  }

  /** `createPlaylist`: throws when not signed in; else inserts an empty playlist owned by the caller and returns its id. */
  method CreatePlaylist(db: Db, auth: Option<nat>, name: string, description: Option<string>, isPublic: bool)
    returns (r: Result<nat>)
    requires db.Valid()
    modifies db`playlists, db`nextId
    ensures db.Valid()
    ensures Users.CurrentUser(auth, old(db.users)).None? ==>
      r == Err(NotAuthenticated) && db.playlists == old(db.playlists) && db.nextId == old(db.nextId)
    ensures Users.CurrentUser(auth, old(db.users)).Some? ==>
      && r == Ok(old(db.nextId))
      && db.playlists == old(db.playlists) + [Doc(old(db.nextId), Playlist(name, description, auth.value, None, isPublic, []))]
      && db.nextId == old(db.nextId) + 1
  {
    var user := Users.CurrentUser(auth, db.users);
    if user.None? {
      return Err(NotAuthenticated);
    }
    var p := Playlist(name, description, user.value.id, None, isPublic, []);
    InsertKeepsInvariant(db.playlists, p, db.nextId);
    db.playlists := db.playlists + [Doc(db.nextId, p)];
    r := Ok(db.nextId);
    db.nextId := db.nextId + 1;
  }

  /** A created playlist is listed for its owner and reads back with its fields and no songs. */
  lemma CreatedIsListed(cat: Catalog, playlists: Table<Playlist>, owner: nat, id: nat, p: Playlist)
    requires UniqueIds(playlists) && IdsBelow(playlists, id) && p.userId == owner && p.songIds == []
    ensures var t := playlists + [Doc(id, p)];
      && Doc(id, p) in Filter(t, (d: Doc<Playlist>) => d.val.userId == owner)
      && GetPlaylistById(cat, t, id) == Some(PlaylistView(id, p, []))
  {
    var t := playlists + [Doc(id, p)];
    InsertKeepsInvariant(playlists, p, id);
    IndexOfAt(t, |playlists|);
  }

  /**
   * `addSongToPlaylist`: throws when not signed in, or when the playlist is
   * missing or not the caller's, changing nothing; else the song is appended
   * unless already present.
   */
  method AddSongToPlaylist(db: Db, auth: Option<nat>, playlistId: nat, songId: nat) returns (r: Result<()>)
    requires db.Valid()
    modifies db`playlists
    ensures db.Valid()
    ensures var access := Access(auth, old(db.users), old(db.playlists), playlistId);
      && (access.Err? ==> r == Err(access.error) && db.playlists == old(db.playlists))
      && (access.Ok? ==>
            && r == Ok(())
            && db.playlists == SetSongs(old(db.playlists), playlistId,
                                        WithSong(old(db.playlists)[access.value].val.songIds, songId)))
  {
    var access := Access(auth, db.users, db.playlists, playlistId);
    if access.Err? {
      return Err(access.error);
    }
    var i := access.value;
    IndexOfAt(db.playlists, i);
    var p := db.playlists[i].val;
    if songId !in p.songIds {
      ReplaceKeepsInvariant(db.playlists, i, p.(songIds := p.songIds + [songId]), db.nextId);
      db.playlists := Replace(db.playlists, i, p.(songIds := p.songIds + [songId]));
    } else {
      assert db.playlists[i := Doc(playlistId, p)] == db.playlists;
    }
    return Ok(());
  }

  /**
   * `removeSongFromPlaylist`: the same guard; else every occurrence of the song
   * is filtered out (no error when it is absent).
   */
  method RemoveSongFromPlaylist(db: Db, auth: Option<nat>, playlistId: nat, songId: nat) returns (r: Result<()>)
    requires db.Valid()
    modifies db`playlists
    ensures db.Valid()
    ensures var access := Access(auth, old(db.users), old(db.playlists), playlistId);
      && (access.Err? ==> r == Err(access.error) && db.playlists == old(db.playlists))
      && (access.Ok? ==>
            && r == Ok(())
            && db.playlists == SetSongs(old(db.playlists), playlistId,
                                        WithoutSong(old(db.playlists)[access.value].val.songIds, songId)))
  {
    var access := Access(auth, db.users, db.playlists, playlistId);
    if access.Err? {
      return Err(access.error);
    }
    var i := access.value;
    IndexOfAt(db.playlists, i);
    var p := db.playlists[i].val;
    ReplaceKeepsInvariant(db.playlists, i, p.(songIds := WithoutSong(p.songIds, songId)), db.nextId);
    db.playlists := Replace(db.playlists, i, p.(songIds := WithoutSong(p.songIds, songId)));
    return Ok(());
  }
}
