/**
 * The playback queue of `App.tsx`: the current song, the playing flag, the
 * queue and the index into it, changed by play, play/pause, next and previous,
 * and by the effect that loads the catalogue as the queue.
 */
module App {
  import opened Wrappers
  import opened Songs

  /** `findIndex` on `_id`: the first position holding the song, or -1. */
  function FindIndex(queue: seq<SongView>, id: nat): (r: int)
    ensures -1 <= r < |queue|
    ensures r >= 0 ==> queue[r].id == id && forall j :: 0 <= j < r ==> queue[j].id != id
    ensures r == -1 <==> forall j :: 0 <= j < |queue| ==> queue[j].id != id
  {
    if queue == [] then -1
    else if queue[0].id == id then 0
    else
      var k := FindIndex(queue[1..], id);
      assert forall j :: 1 <= j < |queue| ==> queue[j] == queue[1..][j - 1];
      if k == -1 then -1 else k + 1
  }

  /** JavaScript `a % n` for `n > 0`: the remainder takes the sign of `a`. */
  function JsRem(a: int, n: int): (r: int)
    requires n > 0
    ensures a >= 0 ==> r == a % n
    ensures a < 0 ==> r <= 0 && (a - r) % n == 0
    ensures -n < r < n && (r < 0 ==> a < 0)
  {
    if a >= 0 then a % n
    else
      var q := (-a) / n;
      assert a + (-a) % n == (-q) * n;
      MultipleRem(-q, n);
      -((-a) % n)
  }

  /** Euclidean remainder of a multiple of `n` is zero. */
  lemma MultipleRem(k: int, n: int)
    requires n > 0
    ensures (k * n) % n == 0
  {
    var q, m := (k * n) / n, (k * n) % n;
    assert (k - q) * n == k * n - q * n;
    if k - q >= 1 {
      MulAtLeast(k - q, n);
    } else if k - q <= -1 {
      MulAtLeast(q - k, n);
    }
  }

  lemma {:induction false} MulAtLeast(c: int, n: int)
    requires c >= 1 && n > 0
    ensures c * n >= n
  {
    if c > 1 {
      MulAtLeast(c - 1, n);
      assert c * n == (c - 1) * n + n;
    }
  }

  /** `(currentIndex + 1) % playlist.length`. */
  function NextIndex(i: int, len: nat): (r: int)
    requires len > 0
    ensures i >= -1 ==> 0 <= r < len
    ensures -1 <= i < len - 1 ==> r == i + 1
    ensures i == len - 1 ==> r == 0
  {
    JsRem(i + 1, len)
  }

  /** `currentIndex === 0 ? playlist.length - 1 : currentIndex - 1`. */
  function PrevIndex(i: int, len: nat): (r: int)
    requires len > 0
    ensures 0 <= i < len ==> 0 <= r < len && NextIndex(r, len) == i
  {
    if i == 0 then len - 1 else i - 1
  }

  /** `playlist[i]`: `None` (undefined) outside the queue. */
  function At(queue: seq<SongView>, i: int): (r: Option<SongView>)
    ensures r.Some? <==> 0 <= i < |queue|
    ensures r.Some? ==> r.value == queue[i]
  {
    if 0 <= i < |queue| then Some(queue[i]) else None
  }

  /** From an in-range index, next and previous stay in range and undo each other. */
  lemma NextPrevInverse(i: int, len: nat)
    requires 0 <= i < len
    ensures 0 <= NextIndex(i, len) < len && 0 <= PrevIndex(i, len) < len
    ensures PrevIndex(NextIndex(i, len), len) == i
    ensures NextIndex(PrevIndex(i, len), len) == i
  {
  }

  /** Within the queue, next is the following entry, or the first after the last. */
  lemma NextInRange(x: int, len: nat)
    requires 0 <= x < len
    ensures NextIndex(x, len) == if x + 1 == len then 0 else x + 1
  {
    if x + 1 == len {
      assert (x + 1) % len == 0;
    } else {
      assert (x + 1) % len == x + 1;
    }
  }

  /** `k` presses of next. */
  function Advance(i: int, len: nat, k: nat): int
    requires len > 0
  {
    if k == 0 then i else NextIndex(Advance(i, len, k - 1), len)
  }

  /** `x` taken round a queue of length `n`, by repeated subtraction. */
  function Wrap(x: nat, n: nat): (r: nat)
    requires n > 0
    ensures r < n
    decreases x
  {
    if x < n then x else Wrap(x - n, n)
  }

  /** From an in-range index, `k` presses of next move `k` places round the queue. */
  lemma {:induction false} AdvanceIsRotation(i: int, len: nat, k: nat)
    requires 0 <= i < len
    ensures Advance(i, len, k) == Wrap(i + k, len)
  {
    if k > 0 {
      AdvanceIsRotation(i, len, k - 1);
      WrapStep(i + k - 1, len);
      NextInRange(Wrap(i + k - 1, len), len);
    }
  }

  lemma {:induction false} WrapStep(x: nat, n: nat)
    requires n > 0
    ensures Wrap(x + 1, n) == if Wrap(x, n) + 1 == n then 0 else Wrap(x, n) + 1
    decreases x
  {
    if x >= n {
      WrapStep(x - n, n);
    }
  }

  /** Pressing next once per queue entry comes back to the starting entry. */
  lemma NextCycles(i: int, len: nat)
    requires 0 <= i < len
    ensures Advance(i, len, len) == i
  {
    AdvanceIsRotation(i, len, len);
  }

  /**
   * A song played that the queue lacks leaves the index at -1: next recovers to
   * the first entry, but previous goes to -2, where there is no current song.
   */
  lemma FromMissingSong(queue: seq<SongView>)
    requires |queue| > 0
    ensures NextIndex(-1, |queue|) == 0 && At(queue, NextIndex(-1, |queue|)) == Some(queue[0])
    ensures PrevIndex(-1, |queue|) == -2 && At(queue, PrevIndex(-1, |queue|)) == None
  {
  }

  class Playback {
    var currentSong: Option<SongView>
    var isPlaying: bool
    var playlist: seq<SongView>
    var currentIndex: int

    /** The index points into the queue. */
    predicate InRange()
      reads this
    {
      0 <= currentIndex < |playlist|
    }

    /** The initial state: nothing playing, an empty queue, index 0. */
    constructor()
      ensures currentSong.None? && !isPlaying && playlist == [] && currentIndex == 0
    {
      currentSong := None;
      isPlaying := false;
      playlist := [];
      currentIndex := 0;
    }

    /**
     * `handlePlaySong`: a given queue (even an empty one) replaces the queue;
     * the index is the song's first position in the queue, or -1; the song
     * becomes current and plays.
     */
    method PlaySong(song: SongView, newPlaylist: Option<seq<SongView>>)
      modifies this
      ensures playlist == (if newPlaylist.Some? then newPlaylist.value else old(playlist))
      ensures currentIndex == FindIndex(playlist, song.id)
      ensures InRange() <==> exists j :: 0 <= j < |playlist| && playlist[j].id == song.id
      ensures currentSong == Some(song) && isPlaying
    {
      if newPlaylist.Some? {
        playlist := newPlaylist.value;
      }
      currentIndex := FindIndex(playlist, song.id);
      currentSong := Some(song);
      isPlaying := true;
    }

    /** `handlePlayPause`: flips the playing flag and nothing else. */
    method PlayPause()
      modifies this`isPlaying
      ensures isPlaying == !old(isPlaying)
    {
      isPlaying := !isPlaying;
    }

    /**
     * `handleNext`: on an empty queue nothing changes; otherwise the index moves
     * one place round the queue and the song there becomes current. The queue
     * and the playing flag are never touched.
     */
    method Next()
      modifies this`currentIndex, this`currentSong
      ensures |playlist| == 0 ==> currentIndex == old(currentIndex) && currentSong == old(currentSong)
      ensures |playlist| > 0 ==>
        currentIndex == NextIndex(old(currentIndex), |playlist|) && currentSong == At(playlist, currentIndex)
      ensures old(InRange()) ==> InRange()
    {
      if |playlist| == 0 {
        return;
      }
      currentIndex := NextIndex(currentIndex, |playlist|);
      currentSong := At(playlist, currentIndex);
    }

    /** `handlePrevious`: like next, stepping back, from 0 to the last entry. */
    method Previous()
      modifies this`currentIndex, this`currentSong
      ensures |playlist| == 0 ==> currentIndex == old(currentIndex) && currentSong == old(currentSong)
      ensures |playlist| > 0 ==>
        currentIndex == PrevIndex(old(currentIndex), |playlist|) && currentSong == At(playlist, currentIndex)
      ensures old(InRange()) ==> InRange()
    {
      if |playlist| == 0 {
        return;
      }
      currentIndex := PrevIndex(currentIndex, |playlist|);
      currentSong := At(playlist, currentIndex);
    }

    /**
     * The queue-initialising effect: while no song is current, a loaded,
     * non-empty catalogue becomes the queue; the index is left as it is.
     */
    method SyncCatalog(songs: Option<seq<SongView>>)
      modifies this`playlist
      ensures playlist == (if songs.Some? && |songs.value| > 0 && currentSong.None? then songs.value else old(playlist))
    {
      if songs.Some? && |songs.value| > 0 && currentSong.None? {
        playlist := songs.value;
      }
    }
  }
}
