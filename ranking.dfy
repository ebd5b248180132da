/**
 * The play-count ranking `songs.slice().sort((a, b) => (b.playCount || 0) -
 * (a.playCount || 0)).slice(0, n)` that the home page (n = 6) and the search
 * page (n = 10) both compute over the catalogue.
 */
module Ranking {
  import opened Wrappers
  import opened StableSort
  import opened Songs

  /** The sort key: the play count, an absent count read as 0. */
  function Plays(v: SongView): int {
    v.song.playCount.GetOr(0)
  }

  /** `slice(0, n)`. */
  function Take<T>(s: seq<T>, n: nat): (r: seq<T>)
    ensures |r| == if n < |s| then n else |s|
    ensures r == s[..|r|]
  {
    if n < |s| then s[..n] else s
  }

  /** The `n` most played songs, most played first, ties in catalogue order. */
  function TopByPlays(songs: seq<SongView>, n: nat): seq<SongView> {
    Take(SortDesc(songs, Plays), n)
  }

  /** The keys of a prefix split off a sequence. */
  lemma WithKeyPrefix(s: seq<SongView>, m: nat, k: int)
    requires m <= |s|
    ensures WithKey(s, Plays, k) == WithKey(s[..m], Plays, k) + WithKey(s[m..], Plays, k)
  {
    assert s == s[..m] + s[m..];
    WithKeyAppend(s[..m], s[m..], Plays, k);
  }

  /** The ranking has `min(n, |songs|)` entries, in non-increasing play count. */
  lemma TopByPlaysSorted(songs: seq<SongView>, n: nat)
    ensures var r := TopByPlays(songs, n);
      && |r| == (if n < |songs| then n else |songs|)
      && forall i, j :: 0 <= i < j < |r| ==> Plays(r[i]) >= Plays(r[j])
  {
    SortDescSorted(songs, Plays);
  }

  /**
   * The ranking is drawn from the catalogue (as a multiset), and no song left
   * out has more plays than any song shown.
   */
  lemma TopByPlaysAreTop(songs: seq<SongView>, n: nat)
    ensures var r := TopByPlays(songs, n);
      && multiset(r) <= multiset(songs)
      && forall x :: x in multiset(songs) - multiset(r) ==> forall i :: 0 <= i < |r| ==> Plays(x) <= Plays(r[i])
  {
    var sorted := SortDesc(songs, Plays);
    var r := TopByPlays(songs, n);
    var rest := sorted[|r|..];
    SortDescSorted(songs, Plays);
    assert sorted == r + rest;
    assert multiset(songs) == multiset(r) + multiset(rest);
    forall x | x in multiset(songs) - multiset(r) ensures forall i :: 0 <= i < |r| ==> Plays(x) <= Plays(r[i]) {
      assert x in multiset(rest);
      var j :| 0 <= j < |rest| && rest[j] == x;
      assert sorted[|r| + j] == x;
    }
  }

  /** Songs with equal counts appear in catalogue order: for each count, those shown are the catalogue's first ones. */
  lemma TopByPlaysStable(songs: seq<SongView>, n: nat, k: int)
    ensures WithKey(TopByPlays(songs, n), Plays, k) <= WithKey(songs, Plays, k)
  {
    var sorted := SortDesc(songs, Plays);
    var r := TopByPlays(songs, n);
    SortDescStable(songs, Plays, k);
    WithKeyPrefix(sorted, |r|, k);
    assert sorted[..|r|] == r;
  }

  /** A shorter ranking is a prefix of a longer one over the same catalogue. */
  lemma TopByPlaysPrefix(songs: seq<SongView>, m: nat, n: nat)
    requires m <= n
    ensures TopByPlays(songs, m) == TopByPlays(songs, n)[..|TopByPlays(songs, m)|]
  {
  }

  /**
   * Any stable sort by the same comparator gives the same ranking: a
   * sequence in non-increasing play count that keeps each count's songs in
   * catalogue order is `SortDesc`.
   */
  lemma RankingIsDetermined(songs: seq<SongView>, other: seq<SongView>)
    requires forall i, j :: 0 <= i < j < |other| ==> Plays(other[i]) >= Plays(other[j])
    requires forall k :: WithKey(other, Plays, k) == WithKey(songs, Plays, k)
    ensures other == SortDesc(songs, Plays)
  {
    SortDescSorted(songs, Plays);
    forall k ensures WithKey(other, Plays, k) == WithKey(SortDesc(songs, Plays), Plays, k) {
      SortDescStable(songs, Plays, k);
    }
    StableSortIsUnique(other, SortDesc(songs, Plays), Plays);
  }
}
