/**
 * The player of `MusicPlayer.tsx`: the elapsed-time counter advanced by a
 * one-second tick, seeking, the repeat-mode cycle, the shuffle flag, and the
 * effect that requests a play-count increment.
 */
module Player {
  import opened Wrappers
  import App

  datatype RepeatMode = Off | All | One

  /** `toggleRepeat`: the mode after `mode` in the list off, all, one, wrapping round. */
  function NextRepeat(mode: RepeatMode): (r: RepeatMode)
    ensures r != mode
  {
    match mode
    case Off => All
    case All => One
    case One => Off
  }

  /** Three presses of the repeat button come back to the starting mode, and no fewer do. */
  lemma RepeatCycle(mode: RepeatMode)
    ensures NextRepeat(NextRepeat(NextRepeat(mode))) == mode
    ensures NextRepeat(mode) != mode && NextRepeat(NextRepeat(mode)) != mode
  {
  }

  /** One tick of the elapsed-time counter: the new time and whether it moved to the next song. */
  function Step(time: int, duration: nat): (r: (int, bool))
    ensures r.1 <==> time >= duration
    ensures r.1 ==> r.0 == 0
    ensures time >= -1 ==> 0 <= r.0 <= duration
  {
    if time >= duration then (0, true) else (time + 1, false)
  }

  /** `k` ticks of one song of length `duration`: the time reached and how many times playback advanced. */
  function Ticks(time: int, duration: nat, k: nat): (int, nat) {
    if k == 0 then (time, 0)
    else
      var (t, n) := Ticks(time, duration, k - 1);
      var (t', advanced) := Step(t, duration);
      (t', if advanced then n + 1 else n)
  }

  /**
   * From 0 with no seek, the counter shows 1, 2, ..., `duration` over the first
   * `duration` ticks without advancing, and tick `duration + 1` advances and
   * resets to 0: a song lasts one tick longer than its duration.
   */
  lemma AdvanceOnTickAfterDuration(duration: nat, k: nat)
    requires k <= duration
    ensures Ticks(0, duration, k) == (k, 0)
    ensures Ticks(0, duration, duration + 1) == (0, 1)
  {
    CountUp(duration, k);
    CountUp(duration, duration);
  }

  lemma {:induction false} CountUp(duration: nat, k: nat)
    requires k <= duration
    ensures Ticks(0, duration, k) == (k, 0)
  {
    if k > 0 {
      CountUp(duration, k - 1);
    }
  }

  /** The ticks repeat with period `duration + 1`: after `m` periods the counter is back at 0, having advanced `m` times. */
  lemma {:induction false} TicksPeriodic(duration: nat, m: nat)
    ensures Ticks(0, duration, m * (duration + 1)) == (0, m)
  {
    if m > 0 {
      var p := duration + 1;
      var before := (m - 1) * p;
      assert m * p == before + p;
      TicksPeriodic(duration, m - 1);
      assert Ticks(0, duration, before) == (0, m - 1);
      TicksCompose(0, duration, before, p);
      AdvanceOnTickAfterDuration(duration, duration);
    }
  }

  /** Ticking `a` then `b` times is ticking `a + b` times. */
  lemma {:induction false} TicksCompose(time: int, duration: nat, a: nat, b: nat)
    ensures Ticks(time, duration, a + b).0 == Ticks(Ticks(time, duration, a).0, duration, b).0
    ensures Ticks(time, duration, a + b).1 == Ticks(time, duration, a).1 + Ticks(Ticks(time, duration, a).0, duration, b).1
  {
    if b > 0 {
      TicksCompose(time, duration, a, b - 1);
    }
  }

  /**
   * The play-count effect's dependencies are the current song's id and the
   * playing flag; it runs when they change (and on mount) and requests an
   * increment when a song is current and playing. `prev` is `None` before the
   * first run.
   */
  function PlayCountRequest(prev: Option<(Option<nat>, bool)>, songId: Option<nat>, playing: bool): (r: Option<nat>)
    ensures r.Some? <==> prev != Some((songId, playing)) && songId.Some? && playing
    ensures r.Some? ==> r == songId
  {
    if prev != Some((songId, playing)) && songId.Some? && playing then songId else None
  }

  /** Resuming a paused song requests another increment for it; pausing requests none. */
  lemma ResumeCountsAgain(id: nat)
    ensures PlayCountRequest(Some((Some(id), false)), Some(id), true) == Some(id)
    ensures PlayCountRequest(Some((Some(id), true)), Some(id), false) == None
    ensures PlayCountRequest(Some((Some(id), true)), Some(id), true) == None
  {
  }

  class MusicPlayer {
    var currentTime: int
    var isShuffled: bool
    var repeatMode: RepeatMode
    /** The dependencies the play-count effect last ran with. */
    var lastDeps: Option<(Option<nat>, bool)>

    constructor()
      ensures currentTime == 0 && !isShuffled && repeatMode == Off && lastDeps.None?
    {
      currentTime := 0;
      isShuffled := false;
      repeatMode := Off;
      lastDeps := None;
    }

    /**
     * One second of the interval: nothing when paused or with no song;
     * otherwise at or past the song's duration playback moves to the next song and
     * the counter restarts at 0, else the counter goes up by one.
     */
    method Tick(app: App.Playback)
      modifies this`currentTime, app`currentIndex, app`currentSong
      ensures !old(app.isPlaying) || old(app.currentSong).None? ==>
        currentTime == old(currentTime) && app.currentIndex == old(app.currentIndex) && app.currentSong == old(app.currentSong)
      ensures old(app.isPlaying) && old(app.currentSong).Some? ==>
        var (t, advanced) := Step(old(currentTime), old(app.currentSong).value.song.duration);
        && currentTime == t
        && (advanced && |app.playlist| > 0 ==>
              app.currentIndex == App.NextIndex(old(app.currentIndex), |app.playlist|)
              && app.currentSong == App.At(app.playlist, app.currentIndex))
        && (!advanced || |app.playlist| == 0 ==>
              app.currentIndex == old(app.currentIndex) && app.currentSong == old(app.currentSong))
    {
      if app.isPlaying && app.currentSong.Some? {
        if currentTime >= app.currentSong.value.song.duration {
          app.Next();
          currentTime := 0;
        } else {
          currentTime := currentTime + 1;
        }
      }
    }

    /** `handleSeek`: the counter takes the slider's value. */
    method Seek(value: int)
      modifies this`currentTime
      ensures currentTime == value
    {
      currentTime := value;
    }

    /** `toggleRepeat`: the next mode in the cycle. */
    method ToggleRepeat()
      modifies this`repeatMode
      ensures repeatMode == NextRepeat(old(repeatMode))
    {
      repeatMode := NextRepeat(repeatMode);
    }

    /** The shuffle button flips the flag; nothing reads it. */
    method ToggleShuffle()
      modifies this`isShuffled
      ensures isShuffled == !old(isShuffled)
    {
      isShuffled := !isShuffled;
    }

    /** A run of the play-count effect on the app's current state: the song whose count is to be incremented, if any. */
    method ObservePlayback(app: App.Playback) returns (request: Option<nat>)
      modifies this`lastDeps
      ensures var songId := if app.currentSong.Some? then Some(app.currentSong.value.id) else None;
        && request == PlayCountRequest(old(lastDeps), songId, app.isPlaying)
        && lastDeps == Some((songId, app.isPlaying))
    {
      var songId := if app.currentSong.Some? then Some(app.currentSong.value.id) else None;
      request := PlayCountRequest(lastDeps, songId, app.isPlaying);
      lastDeps := Some((songId, app.isPlaying));
    }
  }
}
