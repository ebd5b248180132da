/** The home page's derived lists: the six most played songs and the recently-played panel. */
module Home {
  import opened Wrappers
  import opened Songs
  import opened Ranking

  /** `topSongs`: the six most played songs of the catalogue. */
  function TopSongs(songs: seq<SongView>): (r: seq<SongView>)
    ensures |r| == if |songs| < 6 then |songs| else 6
    ensures forall i, j :: 0 <= i < j < |r| ==> Plays(r[i]) >= Plays(r[j])
  {
    TopByPlaysSorted(songs, 6);
    TopByPlays(songs, 6)
  }

  /** `filter(song => song !== null)`: the entries that are present, in order. */
  function NonNull<T(!new)>(s: seq<Option<T>>): (r: seq<T>)
    ensures |r| <= |s|
    ensures (forall i :: 0 <= i < |s| ==> s[i].Some?) ==> |r| == |s| && forall i :: 0 <= i < |s| ==> r[i] == s[i].value
    ensures forall x :: x in r <==> Some(x) in s
  {
    if s == [] then []
    else
      var rest := NonNull(s[..|s| - 1]);
      assert forall i :: 0 <= i < |s| - 1 ==> s[..|s| - 1][i] == s[i];
      match s[|s| - 1]
      case None => rest
      case Some(v) => rest + [v]
  }

  /**
   * Dropping the missing entries keeps the order of the rest: it distributes
   * over concatenation, keeps a present entry and drops a missing one.
   */
  lemma {:induction false} NonNullAppend<T(!new)>(a: seq<Option<T>>, b: seq<Option<T>>, x: T)
    ensures NonNull(a + b) == NonNull(a) + NonNull(b)
    ensures NonNull<T>([]) == [] && NonNull([Some(x)]) == [x] && NonNull<T>([None]) == []
  {
    if b == [] {
      assert a + b == a;
    } else {
      var c := b[..|b| - 1];
      NonNullAppend(a, c, x);
      assert (a + b)[..|a + b| - 1] == a + c;
      assert (a + b)[|a + b| - 1] == b[|b| - 1];
    }
    assert [Some(x)][..0] == [];
    var none: Option<T> := None;
    assert [none][..0] == [];
  }

  /**
   * The recently-played panel: hidden while the list is loading or has no
   * non-null entry; otherwise the first five non-null entries, in order.
   */
  function RecentPanel(recent: Option<seq<Option<PlayedView>>>): (r: Option<seq<PlayedView>>)
    ensures r.None? <==> recent.None? || forall i :: 0 <= i < |recent.value| ==> recent.value[i].None?
    ensures r.Some? ==> 1 <= |r.value| <= 5
  {
    if recent.None? || |recent.value| == 0 then None
    else
      var valid := NonNull(recent.value);
      assert forall i :: 0 <= i < |recent.value| && recent.value[i].Some? ==> recent.value[i].value in valid;
      if |valid| == 0 then None
      else
        assert valid[0] in valid && Some(valid[0]) in recent.value;
        Some(Take(valid, 5))
  }

  /**
   * Fed the loaded recently-played list, the panel shows its first five
   * entries (newest first) and is hidden exactly when the list is empty.
   */
  lemma RecentPanelShowsNewest(played: seq<PlayedView>)
    ensures var panel := RecentPanel(Some(seq(|played|, i requires 0 <= i < |played| => Some(played[i]))));
      && (panel.None? <==> played == [])
      && (panel.Some? ==> panel.value == played[..if |played| < 5 then |played| else 5])
  {
  }

  /** The panel never shows more than five entries. */
  lemma RecentPanelBound(recent: Option<seq<Option<PlayedView>>>)
    ensures RecentPanel(recent).Some? ==> 0 < |RecentPanel(recent).value| <= 5
  {
  }
}
