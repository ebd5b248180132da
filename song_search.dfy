/**
 * `searchSongs` from `songs.ts`: a song is found by its title, its artist's name
 * or its album's title (lower-cased `includes`), title hits first, then artist
 * hits, then album hits, each song once at its first occurrence.
 */
module SongSearch {
  import opened Wrappers
  import opened Tables
  import opened Schema
  import opened Text
  import opened Songs

  datatype Criterion = ByTitle | ByArtist | ByAlbum

  /** `d` matches `term` under `c`: its title, an artist with its id, or an album with its id contains the term. */
  predicate Hit(c: Criterion, d: Doc<Song>, term: string, cat: Catalog) {
    match c
    case ByTitle => Contains(Lower(d.val.title), term)
    case ByArtist =>
      exists i :: 0 <= i < |cat.artists| && cat.artists[i].id == d.val.artistId
        && Contains(Lower(cat.artists[i].val.name), term)
    case ByAlbum =>
      d.val.albumId.Some? &&
      exists i :: 0 <= i < |cat.albums| && cat.albums[i].id == d.val.albumId.value
        && Contains(Lower(cat.albums[i].val.title), term)
  }

  predicate Matches(d: Doc<Song>, term: string, cat: Catalog) {
    Hit(ByTitle, d, term, cat) || Hit(ByArtist, d, term, cat) || Hit(ByAlbum, d, term, cat)
  }

  /** `songs.filter(...)` for one criterion: the hits, in table order. */
  function Hits(s: Table<Song>, c: Criterion, term: string, cat: Catalog): Table<Song> {
    Filter(s, x => Hit(c, x, term, cat))
  }

  /** The literal deduplication: keep position `i` of the first `k` exactly when it is the first with its id. */
  function KeepFirsts(s: Table<Song>, k: nat): Table<Song>
    requires k <= |s|
  {
    if k == 0 then []
    else KeepFirsts(s, k - 1) + (if IndexOf(s, s[k - 1].id) == k - 1 then [s[k - 1]] else [])
  }

  /**
   * A reference deduplication: walk `s` in order and keep each document whose id
   * is neither in `seen` nor carried by an earlier document.
   */
  function DedupAfter(s: Table<Song>, seen: set<nat>): (r: Table<Song>)
    ensures Ids(r) == Ids(s) - seen
    ensures UniqueIds(r)
    ensures forall x :: x in r ==> x in s
  {
    if s == [] then []
    else
      var init, x := s[..|s| - 1], s[|s| - 1];
      var rest := DedupAfter(init, seen);
      assert s == init + [x];
      IdsAppend(init, [x]);
      assert Ids([x]) == {x.id};
      var r := rest + (if x.id in seen || x.id in Ids(init) then [] else [x]);
      IdsAppend(rest, if x.id in seen || x.id in Ids(init) then [] else [x]);
      assert forall i :: 0 <= i < |rest| ==> rest[i].id in Ids(rest);
      r
  }

  /** The criterion under which a song is first listed: title, else artist, else album. */
  function FirstCriterion(d: Doc<Song>, term: string, cat: Catalog): Option<Criterion> {
    if Hit(ByTitle, d, term, cat) then Some(ByTitle)
    else if Hit(ByArtist, d, term, cat) then Some(ByArtist)
    else if Hit(ByAlbum, d, term, cat) then Some(ByAlbum)
    else None
  }

  /** The songs whose first matching criterion is `c`, in table order. */
  function FirstHits(s: Table<Song>, c: Criterion, term: string, cat: Catalog): Table<Song> {
    Filter(s, x => FirstCriterion(x, term, cat) == Some(c))
  }

  /**
   * `searchSongs`: nothing for a blank query; otherwise the title, artist and
   * album hits of the lower-cased (untrimmed) query, concatenated, each song
   * kept at its first occurrence, joined.
   */
  function SearchSongs(query: string, cat: Catalog): (r: seq<SongView>)
    ensures IsBlank(query) ==> r == []
    ensures forall i :: 0 <= i < |r| ==> r[i] == Join(Doc(r[i].id, r[i].song), cat)
  {
    if IsBlank(query) then []
    else
      var term := Lower(query);
      var all := Hits(cat.songs, ByTitle, term, cat) + Hits(cat.songs, ByArtist, term, cat)
                 + Hits(cat.songs, ByAlbum, term, cat);
      Views(KeepFirsts(all, |all|), cat)
  }

  // ---------------------------------------------------------------------------
  // The literal filter is the reference deduplication.

  /** `index === self.findIndex(same id)` keeps exactly what `DedupAfter` keeps. */
  lemma {:induction false} KeepFirstsIsDedup(s: Table<Song>, k: nat)
    requires k <= |s|
    ensures KeepFirsts(s, k) == DedupAfter(s[..k], {})
  {
    if k > 0 {
      KeepFirstsIsDedup(s, k - 1);
      var x := s[k - 1];
      assert s[..k][..k - 1] == s[..k - 1];
      FirstWithId(s, k - 1);
    }
  }

  /** Deduplicating a concatenation: the second part is deduplicated after the first part's ids. */
  lemma {:induction false} DedupAppend(a: Table<Song>, b: Table<Song>, seen: set<nat>)
    ensures DedupAfter(a + b, seen) == DedupAfter(a, seen) + DedupAfter(b, seen + Ids(a))
  {
    if b == [] {
      assert a + b == a;
    } else {
      var b', y := b[..|b| - 1], b[|b| - 1];
      assert (a + b)[..|a + b| - 1] == a + b';
      assert (a + b)[|a + b| - 1] == y;
      DedupAppend(a, b', seen);
      IdsAppend(a, b');
      assert (y.id in seen || y.id in Ids(a + b')) <==> (y.id in seen + Ids(a) || y.id in Ids(b'));
    }
  }

  /** In a table with unique ids, a document's id is among the hits' ids exactly when it is a hit. */
  lemma IdsOfHits(s: Table<Song>, c: Criterion, term: string, cat: Catalog, x: Doc<Song>)
    requires UniqueIds(s) && x in s
    ensures x.id in Ids(Hits(s, c, term, cat)) <==> Hit(c, x, term, cat)
  {
    var h := Hits(s, c, term, cat);
    if x.id in Ids(h) {
      var i :| 0 <= i < |h| && h[i].id == x.id;
      assert h[i] in s;
      var a :| 0 <= a < |s| && s[a] == h[i];
      var b :| 0 <= b < |s| && s[b] == x;
      assert a == b;
    }
    if Hit(c, x, term, cat) {
      assert x in h;
      var i :| 0 <= i < |h| && h[i] == x;
    }
  }

  /** Every id among the kept documents is an id of the table. */
  lemma FilterIds<T(!new)>(s: Table<T>, p: Doc<T> -> bool)
    ensures Ids(Filter(s, p)) <= Ids(s)
  {
    var h := Filter(s, p);
    forall y | y in Ids(h) ensures y in Ids(s) {
      var i :| 0 <= i < |h| && h[i].id == y;
      assert h[i] in s;
    }
  }

  /** Splitting off the last document of a table with unique ids. */
  lemma SplitLast(s: Table<Song>)
    requires UniqueIds(s) && s != []
    ensures UniqueIds(s[..|s| - 1]) && s[|s| - 1].id !in Ids(s[..|s| - 1])
  {
  }

  /** Appending a document with a new id: it is kept unless its id was seen. */
  lemma DedupSnoc(h: Table<Song>, x: Doc<Song>, seen: set<nat>)
    requires x.id !in Ids(h)
    ensures DedupAfter(h + [x], seen) == DedupAfter(h, seen) + (if x.id in seen then [] else [x])
  {
    assert (h + [x])[..|h|] == h;
  }

  /**
   * Deduplicating the documents satisfying `p` after a set of ids `seen` leaves
   * exactly those satisfying `q`, when (among the documents satisfying `p`)
   * `seen` holds precisely the ids of those failing `q`.
   */
  lemma {:induction false} DedupFilter(s: Table<Song>, p: Doc<Song> -> bool, q: Doc<Song> -> bool, seen: set<nat>)
    requires UniqueIds(s)
    requires forall x :: x in s && q(x) ==> p(x)
    requires forall x :: x in s && p(x) ==> (x.id in seen <==> !q(x))
    ensures DedupAfter(Filter(s, p), seen) == Filter(s, q)
  {
    if s != [] {
      var init, x := s[..|s| - 1], s[|s| - 1];
      SplitLast(s);
      assert forall y :: y in init ==> y in s;
      DedupFilter(init, p, q, seen);
      var h := Filter(init, p);
      assert x in s;
      assert Filter(s, q) == Filter(init, q) + (if q(x) then [x] else []);
      if p(x) {
        assert Filter(s, p) == h + [x];
        FilterIds(init, p);
        DedupSnoc(h, x, seen);
      } else {
        assert Filter(s, p) == h;
      }
    }
  }

  // ---------------------------------------------------------------------------
  // What the search returns.

  /** A blank query (empty or only whitespace) finds nothing. */
  lemma SearchBlank(query: string, cat: Catalog)
    requires IsBlank(query)
    ensures SearchSongs(query, cat) == []
  {
  }

  /** Soundness: every result is a stored song that matches the lower-cased query, and the query is not blank. */
  lemma SearchSound(query: string, cat: Catalog)
    ensures var r := SearchSongs(query, cat);
      forall i :: 0 <= i < |r| ==>
        !IsBlank(query) && Doc(r[i].id, r[i].song) in cat.songs && Matches(Doc(r[i].id, r[i].song), Lower(query), cat)
  {
    if !IsBlank(query) {
      var term := Lower(query);
      var all := Hits(cat.songs, ByTitle, term, cat) + Hits(cat.songs, ByArtist, term, cat)
                 + Hits(cat.songs, ByAlbum, term, cat);
      KeepFirstsIsDedup(all, |all|);
      assert all[..|all|] == all;
      var kept := KeepFirsts(all, |all|);
      forall i | 0 <= i < |kept| ensures kept[i] in cat.songs && Matches(kept[i], term, cat) {
        assert kept[i] in all;
      }
    }
  }

  /** Completeness: for a non-blank query, every stored song that matches appears in the result. */
  lemma SearchComplete(query: string, cat: Catalog, x: Doc<Song>)
    requires !IsBlank(query) && x in cat.songs && Matches(x, Lower(query), cat)
    ensures exists i :: 0 <= i < |SearchSongs(query, cat)| && SearchSongs(query, cat)[i].id == x.id
  {
    var term := Lower(query);
    var all := Hits(cat.songs, ByTitle, term, cat) + Hits(cat.songs, ByArtist, term, cat)
               + Hits(cat.songs, ByAlbum, term, cat);
    KeepFirstsIsDedup(all, |all|);
    assert all[..|all|] == all;
    var kept := KeepFirsts(all, |all|);
    assert x in all;
    var j :| 0 <= j < |all| && all[j] == x;
    assert x.id in Ids(all);
    assert x.id in Ids(kept);
    var i :| 0 <= i < |kept| && kept[i].id == x.id;
    assert SearchSongs(query, cat)[i].id == x.id;
  }

  /** No song is listed twice, even when it matches under several criteria. */
  lemma SearchNoDuplicates(query: string, cat: Catalog)
    ensures var r := SearchSongs(query, cat);
      forall i, j :: 0 <= i < j < |r| ==> r[i].id != r[j].id
  {
    if !IsBlank(query) {
      var term := Lower(query);
      var all := Hits(cat.songs, ByTitle, term, cat) + Hits(cat.songs, ByArtist, term, cat)
                 + Hits(cat.songs, ByAlbum, term, cat);
      KeepFirstsIsDedup(all, |all|);
    }
  }

  /**
   * The order: with unique song ids, the result is the songs that match by
   * title, then those that match by artist but not title, then those that match
   * by album only, each group in table order.
   */
  lemma SearchOrder(query: string, cat: Catalog)
    requires UniqueIds(cat.songs) && !IsBlank(query)
    ensures var term := Lower(query);
      SearchSongs(query, cat) == Views(FirstHits(cat.songs, ByTitle, term, cat)
                                       + FirstHits(cat.songs, ByArtist, term, cat)
                                       + FirstHits(cat.songs, ByAlbum, term, cat), cat)
  {
    var s := cat.songs;
    var term := Lower(query);
    var t, a, b := Hits(s, ByTitle, term, cat), Hits(s, ByArtist, term, cat), Hits(s, ByAlbum, term, cat);
    var all := t + a + b;
    KeepFirstsIsDedup(all, |all|);
    assert all[..|all|] == all;
    DedupAppend(t + a, b, {});
    DedupAppend(t, a, {});
    IdsAppend(t, a);
    DedupFilter(s, x => Hit(ByTitle, x, term, cat), x => FirstCriterion(x, term, cat) == Some(ByTitle), {});
    forall x | x in s && Hit(ByArtist, x, term, cat)
      ensures x.id in {} + Ids(t) <==> FirstCriterion(x, term, cat) != Some(ByArtist)
    {
      IdsOfHits(s, ByTitle, term, cat, x);
    }
    DedupFilter(s, x => Hit(ByArtist, x, term, cat), x => FirstCriterion(x, term, cat) == Some(ByArtist), {} + Ids(t));
    forall x | x in s && Hit(ByAlbum, x, term, cat)
      ensures x.id in {} + Ids(t + a) <==> FirstCriterion(x, term, cat) != Some(ByAlbum)
    {
      IdsOfHits(s, ByTitle, term, cat, x);
      IdsOfHits(s, ByArtist, term, cat, x);
    }
    DedupFilter(s, x => Hit(ByAlbum, x, term, cat), x => FirstCriterion(x, term, cat) == Some(ByAlbum), {} + Ids(t + a));
  }
}
