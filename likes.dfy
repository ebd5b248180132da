/**
 * `likes.ts`: a like is a `(user, song)` row of the liked-songs table. Reads list
 * the caller's liked songs and test one pair; `toggleLike` deletes the caller's
 * row for a song if there is one and inserts it otherwise.
 */
module Likes {
  import opened Wrappers
  import opened Tables
  import opened Schema
  import opened Songs
  import Users

  /** The rows saying `user` likes `song` (the `by_user_and_song` index, in table order). */
  function Rows(likes: Table<Like>, user: nat, song: nat): Table<Like> {
    Filter(likes, (d: Doc<Like>) => d.val == Like(user, song))
  }

  /** The pairs the table records as liked. */
  function Liked(likes: Table<Like>): set<Like> {
    set i | 0 <= i < |likes| :: likes[i].val
  }

  /** No pair is stored twice, so `.unique()` on a pair never throws. */
  ghost predicate OneRowPerPair(likes: Table<Like>) {
    forall i, j :: 0 <= i < j < |likes| ==> likes[i].val != likes[j].val
  }

  /** A pair has a row exactly when it is liked; with one row per pair, at most one. */
  lemma {:induction false} RowsOfPair(likes: Table<Like>, user: nat, song: nat)
    ensures |Rows(likes, user, song)| > 0 <==> Like(user, song) in Liked(likes)
    ensures OneRowPerPair(likes) ==> |Rows(likes, user, song)| <= 1
  {
    var r := Rows(likes, user, song);
    if Like(user, song) in Liked(likes) {
      var i :| 0 <= i < |likes| && likes[i].val == Like(user, song);
      assert likes[i] in r;
    }
    if |r| > 0 {
      assert r[0] in likes;
    }
    if likes != [] && OneRowPerPair(likes) {
      var init := likes[..|likes| - 1];
      assert forall i :: 0 <= i < |init| ==> init[i] == likes[i];
      RowsOfPair(init, user, song);
    }
  }

  /**
   * `isLiked`: false when not signed in; otherwise whether the caller's row for
   * the song exists (`.unique()` throws if there are several).
   */
  function IsLiked(auth: Option<nat>, users: Table<User>, likes: Table<Like>, songId: nat): (r: Result<bool>)
    ensures Users.CurrentUser(auth, users).None? ==> r == Ok(false)
    ensures OneRowPerPair(likes) ==> r.Ok?
    ensures OneRowPerPair(likes) && Users.CurrentUser(auth, users).Some? ==>
      (r == Ok(true) <==> Like(auth.value, songId) in Liked(likes))
  {
    RowsOfPair(likes, if auth.Some? then auth.value else 0, songId);
    match Users.CurrentUser(auth, users)
    case None => Ok(false)
    case Some(u) =>
      var rows := Rows(likes, u.id, songId);
      if |rows| > 1 then Err(NotUnique) else Ok(|rows| == 1)
  }

  /** The rows of `user`'s likes (the `by_user` index, in table order). */
  function MineOf(likes: Table<Like>, user: nat): (r: Table<Like>)
    ensures forall x :: x in r <==> x in likes && x.val.userId == user
  {
    Filter(likes, (d: Doc<Like>) => d.val.userId == user)
  }

  /** The song ids of a list of like rows, in order. */
  function SongIds(likes: Table<Like>): (r: seq<nat>)
    ensures |r| == |likes| && forall i :: 0 <= i < |likes| ==> r[i] == likes[i].val.songId
  {
    seq(|likes|, i requires 0 <= i < |likes| => likes[i].val.songId)
  }

  /**
   * `getLikedSongs`: nothing when not signed in; otherwise the songs of the
   * caller's likes, in like order, dropping likes whose song is gone.
   */
  function GetLikedSongs(auth: Option<nat>, users: Table<User>, likes: Table<Like>, cat: Catalog): (r: seq<SongView>)
    ensures Users.CurrentUser(auth, users).None? ==> r == []
    ensures forall i :: 0 <= i < |r| ==>
      Get(cat.songs, r[i].id) == Some(r[i].song) && r[i] == Join(Doc(r[i].id, r[i].song), cat)
  {
    match Users.CurrentUser(auth, users)
    case None => []
    case Some(u) => ResolveSongs(SongIds(MineOf(likes, u.id)), cat)
  }

  /**
   * The liked-songs list holds exactly the caller's liked songs that still
   * exist: each entry is a stored song the caller likes, and each such song
   * appears.
   */
  lemma LikedSongsExact(auth: Option<nat>, users: Table<User>, likes: Table<Like>, cat: Catalog)
    ensures var r := GetLikedSongs(auth, users, likes, cat);
      && (Users.CurrentUser(auth, users).None? ==> r == [])
      && (forall i :: 0 <= i < |r| ==>
            Like(auth.value, r[i].id) in Liked(likes) && Get(cat.songs, r[i].id) == Some(r[i].song))
      && (Users.CurrentUser(auth, users).Some? ==>
            forall s :: Like(auth.value, s) in Liked(likes) && s in Ids(cat.songs) ==>
              exists i :: 0 <= i < |r| && r[i].id == s)
  {
    match Users.CurrentUser(auth, users)
    case None =>
    case Some(u) =>
      assert GetLikedSongs(auth, users, likes, cat) == ResolveSongs(SongIds(MineOf(likes, auth.value)), cat);
      LikedSound(likes, auth.value, cat);
      var r := GetLikedSongs(auth, users, likes, cat);
      var present := Present(SongIds(MineOf(likes, auth.value)), cat.songs);
      LikedComplete(likes, auth.value, cat);
      forall s | Like(auth.value, s) in Liked(likes) && s in Ids(cat.songs) ensures exists i :: 0 <= i < |r| && r[i].id == s {
        var i :| 0 <= i < |present| && present[i] == s;
        assert r[i].id == s;
      }
  }

  lemma LikedSound(likes: Table<Like>, user: nat, cat: Catalog)
    ensures var r := ResolveSongs(SongIds(MineOf(likes, user)), cat);
      forall i :: 0 <= i < |r| ==> Like(user, r[i].id) in Liked(likes)
  {
    var ids := SongIds(MineOf(likes, user));
    var r := ResolveSongs(ids, cat);
    var present := Present(ids, cat.songs);
    forall i | 0 <= i < |r| ensures Like(user, r[i].id) in Liked(likes) {
      assert present[i] in ids;
      var k :| 0 <= k < |ids| && ids[k] == present[i];
      assert MineOf(likes, user)[k] in likes;
    }
  }

  lemma LikedComplete(likes: Table<Like>, user: nat, cat: Catalog)
    ensures forall s :: Like(user, s) in Liked(likes) && s in Ids(cat.songs) ==>
      s in Present(SongIds(MineOf(likes, user)), cat.songs)
  {
    var mine := MineOf(likes, user);
    var ids := SongIds(mine);
    forall s | Like(user, s) in Liked(likes) && s in Ids(cat.songs) ensures s in Present(ids, cat.songs) {
      var j :| 0 <= j < |likes| && likes[j].val == Like(user, s);
      assert likes[j] in mine;
      var k :| 0 <= k < |mine| && mine[k] == likes[j];
      assert ids[k] == s;
    }
  }



  // ---------------------------------------------------------------------------
  // toggleLike

  /**
   * The table after `toggleLike` by `user` on `song`: the pair's row deleted if
   * there is one, else a row with the fresh id `newId` appended. Several rows for
   * the pair make `.unique()` throw, and the table stays as it was.
   */
  function Toggled(likes: Table<Like>, user: nat, song: nat, newId: nat): Table<Like> {
    var rows := Rows(likes, user, song);
    if |rows| > 1 then likes
    else if |rows| == 1 then
      var i := IndexOf(likes, rows[0].id);
      if i < 0 then likes else Remove(likes, i)
    else likes + [Doc(newId, Like(user, song))]
  }

  /** Deleting the row of a pair stored once drops exactly that pair. */
  lemma RemoveDropsPair(likes: Table<Like>, i: nat)
    requires i < |likes| && OneRowPerPair(likes)
    ensures Liked(Remove(likes, i)) == Liked(likes) - {likes[i].val}
    ensures OneRowPerPair(Remove(likes, i))
  {
    var r := Remove(likes, i);
    forall x | x in Liked(likes) - {likes[i].val} ensures x in Liked(r) {
      var j :| 0 <= j < |likes| && likes[j].val == x;
      if j < i { assert r[j] == likes[j]; } else { assert r[j - 1] == likes[j]; }
    }
    forall a, b | 0 <= a < b < |r| ensures r[a].val != r[b].val {
      var a' := if a < i then a else a + 1;
      var b' := if b < i then b else b + 1;
      assert r[a] == likes[a'] && r[b] == likes[b'];
    }
  }

  /** In a valid table, the one row of a liked pair is found by its id. */
  lemma TheRow(likes: Table<Like>, user: nat, song: nat) returns (i: nat)
    requires UniqueIds(likes) && OneRowPerPair(likes) && Like(user, song) in Liked(likes)
    ensures |Rows(likes, user, song)| == 1
    ensures i < |likes| && IndexOf(likes, Rows(likes, user, song)[0].id) == i && likes[i].val == Like(user, song)
  {
    RowsOfPair(likes, user, song);
    var x := Rows(likes, user, song)[0];
    assert x in likes;
    i :| 0 <= i < |likes| && likes[i] == x;
    IndexOfAt(likes, i);
  }

  /**
   * Toggling flips exactly the one pair: it is liked afterwards precisely when
   * it was not before, all other pairs are as they were, and the table keeps
   * unique ids and one row per pair.
   */
  lemma ToggleFlipsPair(likes: Table<Like>, user: nat, song: nat, n: nat)
    requires UniqueIds(likes) && IdsBelow(likes, n) && OneRowPerPair(likes)
    ensures var t := Toggled(likes, user, song, n);
      && Liked(t) == (if Like(user, song) in Liked(likes) then Liked(likes) - {Like(user, song)}
                      else Liked(likes) + {Like(user, song)})
      && UniqueIds(t) && IdsBelow(t, n + 1) && OneRowPerPair(t)
  {
    RowsOfPair(likes, user, song);
    if Like(user, song) in Liked(likes) {
      var i := TheRow(likes, user, song);
      RemoveDropsPair(likes, i);
      RemoveKeepsInvariant(likes, i, n);
    } else {
      var t := likes + [Doc(n, Like(user, song))];
      InsertKeepsInvariant(likes, Like(user, song), n);
      assert Liked(t) == Liked(likes) + {Like(user, song)} by {
        assert t[|likes|].val == Like(user, song);
        forall x | x in Liked(likes) ensures x in Liked(t) {
          var j :| 0 <= j < |likes| && likes[j].val == x;
          assert t[j].val == x;
        }
      }
    }
  }

  /**
   * Toggling twice restores the set of liked pairs; when the pair was not liked
   * to begin with, it restores the table itself (the inserted row is deleted).
   */
  lemma ToggleTwice(likes: Table<Like>, user: nat, song: nat, n: nat)
    requires UniqueIds(likes) && IdsBelow(likes, n) && OneRowPerPair(likes)
    ensures var t := Toggled(Toggled(likes, user, song, n), user, song, n + 1);
      && Liked(t) == Liked(likes)
      && (Like(user, song) !in Liked(likes) ==> t == likes)
  {
    ToggleFlipsPair(likes, user, song, n);
    var once := Toggled(likes, user, song, n);
    ToggleFlipsPair(once, user, song, n + 1);
    if Like(user, song) !in Liked(likes) {
      RowsOfPair(likes, user, song);
      assert once == likes + [Doc(n, Like(user, song))];
      var i := TheRow(once, user, song);
      assert forall j :: 0 <= j < |likes| ==> once[j].val != Like(user, song);
      assert i == |likes|;
      assert Remove(once, i) == likes;
    }
  }

  /** Another user's or another song's rows are not touched by a toggle. */
  lemma ToggleFrame(likes: Table<Like>, user: nat, song: nat, n: nat, otherUser: nat, otherSong: nat)
    requires UniqueIds(likes) && OneRowPerPair(likes)
    requires Like(otherUser, otherSong) != Like(user, song)
    ensures Rows(Toggled(likes, user, song, n), otherUser, otherSong) == Rows(likes, otherUser, otherSong)
  {
    var p := (d: Doc<Like>) => d.val == Like(otherUser, otherSong);
    RowsOfPair(likes, user, song);
    if Like(user, song) in Liked(likes) {
      var i := TheRow(likes, user, song);
      FilterRemove(likes, i, p);
    } else {
      assert (likes + [Doc(n, Like(user, song))])[..|likes|] == likes;
    }
  }

  /** After a toggle, `isLiked` for the pair answers what the toggle returned: whether it was unliked before. */
  lemma IsLikedAfterToggle(auth: Option<nat>, users: Table<User>, likes: Table<Like>, song: nat, n: nat)
    requires UniqueIds(likes) && IdsBelow(likes, n) && OneRowPerPair(likes)
    requires Users.CurrentUser(auth, users).Some?
    ensures IsLiked(auth, users, Toggled(likes, auth.value, song, n), song) == Ok(Like(auth.value, song) !in Liked(likes))
  {
    ToggleFlipsPair(likes, auth.value, song, n);
  }

  /**
   * `toggleLike`: throws when not signed in, or when `.unique()` finds several
   * rows for the pair, changing nothing; otherwise deletes the caller's row for
   * the song and returns false, or inserts one and returns true. With one row
   * per pair the result is whether the song is liked afterwards.
   */
  method ToggleLike(db: Db, auth: Option<nat>, songId: nat) returns (r: Result<bool>)
    requires db.Valid()
    modifies db`likes, db`nextId
    ensures db.Valid()
    ensures old(OneRowPerPair(db.likes)) ==> OneRowPerPair(db.likes)
    ensures Users.CurrentUser(auth, old(db.users)).None? ==>
      r == Err(NotAuthenticated) && db.likes == old(db.likes) && db.nextId == old(db.nextId)
    ensures Users.CurrentUser(auth, old(db.users)).Some? ==>
      var rows := Rows(old(db.likes), auth.value, songId);
      && (|rows| > 1 ==> r == Err(NotUnique) && db.likes == old(db.likes) && db.nextId == old(db.nextId))
      && (|rows| <= 1 ==> r == Ok(|rows| == 0))
      && db.nextId == (if |rows| == 0 then old(db.nextId) + 1 else old(db.nextId))
      && db.likes == Toggled(old(db.likes), auth.value, songId, old(db.nextId))
    ensures Users.CurrentUser(auth, old(db.users)).Some? && old(OneRowPerPair(db.likes)) ==>
      r == Ok(Like(auth.value, songId) !in Liked(old(db.likes)))
  {
    var user := Users.CurrentUser(auth, db.users);
    if user.None? {
      return Err(NotAuthenticated);
    }
    var me := user.value.id;
    RowsOfPair(db.likes, me, songId);
    if OneRowPerPair(db.likes) {
      ToggleFlipsPair(db.likes, me, songId, db.nextId);
    }
    var rows := Rows(db.likes, me, songId);
    if |rows| > 1 {
      return Err(NotUnique);
    } else if |rows| == 1 {
      var i := IndexOf(db.likes, rows[0].id);
      assert rows[0] in db.likes;
      RemoveKeepsInvariant(db.likes, i, db.nextId);
      db.likes := Remove(db.likes, i);
      r := Ok(false);
    } else {
      InsertKeepsInvariant(db.likes, Like(me, songId), db.nextId);
      db.likes := db.likes + [Doc(db.nextId, Like(me, songId))];
      db.nextId := db.nextId + 1;
      r := Ok(true);
    }
  }
}
