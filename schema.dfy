/**
 * The stored records (one datatype per table) and the database that holds the
 * tables. Every table keeps unique ids below the id allocator's next value.
 */
module Schema {
  import opened Wrappers
  import opened Tables

  /** The three roles a user may carry ("admin", "user", "member"). */
  datatype Role = RoleAdmin | RoleUser | RoleMember

  datatype User = User(name: Option<string>, image: Option<string>, email: Option<string>, role: Option<Role>)

  datatype Artist = Artist(name: string, image: Option<string>, bio: Option<string>,
                           genres: seq<string>, verified: Option<bool>)

  datatype Album = Album(title: string, artistId: nat, coverImage: Option<string>,
                         releaseDate: string, genres: seq<string>, totalTracks: int)

  /** A stored song; `duration` is in whole seconds and an absent `playCount` reads as 0. */
  datatype Song = Song(title: string, artistId: nat, albumId: Option<nat>, duration: nat,
                       audioUrl: Option<string>, coverImage: Option<string>, genres: seq<string>,
                       trackNumber: Option<int>, playCount: Option<nat>)

  datatype Playlist = Playlist(name: string, description: Option<string>, userId: nat,
                               coverImage: Option<string>, isPublic: bool, songIds: seq<nat>)

  /** A row of `likedSongs`: its existence means the user likes the song. */
  datatype Like = Like(userId: nat, songId: nat)

  /** A row of `playHistory`. */
  datatype PlayEvent = PlayEvent(userId: nat, songId: nat, playedAt: int)

  /** The backing store: one table per record type and the id allocator. */
  class Db {
    var artists: Table<Artist>
    var albums: Table<Album>
    var songs: Table<Song>
    var playlists: Table<Playlist>
    var likes: Table<Like>
    var history: Table<PlayEvent>
    var users: Table<User>
    var nextId: nat

    /** A fresh deployment: every table empty. */
    constructor()
      ensures Valid()
      ensures artists == [] && albums == [] && songs == [] && playlists == []
      ensures likes == [] && history == [] && users == [] && nextId == 0
    {
      artists, albums, songs, playlists := [], [], [], [];
      likes, history, users, nextId := [], [], [], 0;
    }

    ghost predicate Valid()
      reads this
    {
      && UniqueIds(artists) && IdsBelow(artists, nextId)
      && UniqueIds(albums) && IdsBelow(albums, nextId)
      && UniqueIds(songs) && IdsBelow(songs, nextId)
      && UniqueIds(playlists) && IdsBelow(playlists, nextId)
      && UniqueIds(likes) && IdsBelow(likes, nextId)
      && UniqueIds(history) && IdsBelow(history, nextId)
      && UniqueIds(users) && IdsBelow(users, nextId)
    }
  }
}
