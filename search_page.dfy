/** The search page: the ten most popular songs and what the results section shows for a query. */
module SearchPage {
  import opened Wrappers
  import opened Text
  import opened Songs
  import opened Ranking
  import opened SongSearch
  import Home

  /** `popularSongs`: the ten most played songs of the catalogue. */
  function PopularSongs(songs: seq<SongView>): (r: seq<SongView>)
    ensures |r| == if |songs| < 10 then |songs| else 10
    ensures forall i, j :: 0 <= i < j < |r| ==> Plays(r[i]) >= Plays(r[j])
  {
    TopByPlaysSorted(songs, 10);
    TopByPlays(songs, 10)
  }

  /** The home page's six top songs are the first six of the search page's ten. */
  lemma TopSixArePopularPrefix(songs: seq<SongView>)
    ensures Home.TopSongs(songs) == PopularSongs(songs)[..|Home.TopSongs(songs)|]
  {
    TopByPlaysPrefix(songs, 6, 10);
  }

  /** What the results section shows. */
  datatype ResultsPanel = Hidden | NoResults | Results(songs: seq<SongView>)

  /**
   * The results section appears when the query text is not empty and the
   * results have loaded; it lists them, or says there are none.
   */
  function Panel(query: string, results: Option<seq<SongView>>): (r: ResultsPanel)
    ensures r.Hidden? <==> query == "" || results.None?
    ensures r.Results? ==> results == Some(r.songs) && r.songs != []
    ensures query != "" && results.Some? && results.value != [] ==> r == Results(results.value)
    ensures r == NoResults <==> query != "" && results == Some([])
  {
    if query == "" || results.None? then Hidden
    else if |results.value| > 0 then Results(results.value)
    else NoResults
  }

  /**
   * A query of only whitespace shows the section with no results, because the
   * search returns nothing for it; the empty query hides it.
   */
  lemma BlankQueryShowsNoResults(query: string, cat: Catalog)
    requires query != "" && IsBlank(query)
    ensures Panel(query, Some(SearchSongs(query, cat))) == NoResults
    ensures Panel("", Some(SearchSongs("", cat))) == Hidden
  {
  }
}
