# sonic-stream, modelled in Dafny

sonic-stream is a small music-streaming web app. A reactive document database backs it, with tables for artists, albums, songs, playlists, liked songs, play history and users. A single-page front end plays songs from a queue.

This project models three parts of it and proves properties about each:

- **The library mutations**:
  - creating a playlist, and adding or removing a song under an ownership check;
  - toggling a like;
  - counting a play and appending it to the play history;
  - the single-admin promotion.

  These are methods on a `Db` object whose fields are the tables. Each method is proved against a pure function of the old tables, and the lemmas about those functions carry the properties: exclusive-or toggling, idempotence, one admin, and that nothing else changes.
- **The catalogue read models**:
  - the song, artist and album join with its fallback texts;
  - lookup by id, the liked-songs list and the user's playlists;
  - a playlist with its resolved songs;
  - the three-way search with first-occurrence de-duplication;
  - the recently-played list;
  - the top-N ranking by play count;
  - the `m:ss` and play-count formatting of the song card.

  These are functions over sequences, with soundness, completeness, ordering and bound lemmas.
- **The playback state**:
  - the app's queue (current song, playing flag, queue, index) with play, play/pause, next, previous and the queue-initialising effect;
  - the player's elapsed-time tick, seek, repeat cycle and shuffle flag;
  - the rule for when a play-count increment is requested.

  Both are classes whose methods update their fields.

Each table is modelled as a sequence of documents `Doc(id, val)` in creation order, the order a full-table read returns. Ids are unique and below the database's next id. A map would lose the order that the listing, the search and the admin loop depend on. The signed-in user is an explicit `Option<nat>` input, resolved against the users table as `getCurrentUser` does. The clock is a parameter `now`. A handler that throws returns `Err(...)` and leaves its tables unchanged, because a failing mutation commits nothing.

Modules: `Wrappers`, `Tables`, `Text`, `Schema`, `Users`, `StableSort`, `Songs`, `SongSearch`, `Playlists`, `Likes`, `Ranking`, `Home`, `SearchPage`, `SongCard`, `App`, `Player`.

## Model

| member | source | states |
|---|---|---|
| Users.CurrentUser | src/convex/users.ts:29-35 | no authenticated id, or an id with no user document, gives none; otherwise the user stored under that id |
| Users.TransferAdminLeavesOneAdmin | src/convex/users.ts:47-56 | after the promotion a user is admin exactly when it is the caller, and the caller is there as admin: exactly one admin |
| Users.TransferAdminFrame | src/convex/users.ts:49-53 | every other user keeps its id and position; former admins become "user" with their other fields intact; non-admins are untouched |
| Users.TransferAdminIdempotent | src/convex/users.ts:48-57 | a second promotion by the same caller changes nothing |
| Users.PromoteAfterDemotion | src/convex/users.ts:56 | the caller's final patch, applied to the table the demotion loop leaves behind, gives the single-admin table |
| Users.MakeMeAdmin | src/convex/users.ts:39-58 | not signed in: error and no change; otherwise returns true and the users table becomes the single-admin table, in a loop over all users; ids stay unique |
| Songs.Join | src/convex/songs.ts:13-22 | keeps the song's id and every stored field; when the artist exists with a non-empty name that name is shown, otherwise "Unknown Artist"; the artist image is the existing artist's image and absent without an artist; a non-empty album title is shown, otherwise "Single"; a non-empty album cover is used, otherwise the song's own cover |
| Songs.GetAllSongs | src/convex/songs.ts:5-28 | one entry per stored song, in table order, with its id and fields, each entry being that row's `Join` with its artist and album |
| Songs.GetSongById | src/convex/songs.ts:30-47 | none exactly for an unknown id; otherwise the song stored under that id, joined with its artist and album |
| Songs.ResolveSongs | src/convex/playlists.ts:27-47 | a list of song ids resolved one for one, in order, with ids of deleted songs dropped; each entry is the stored song joined with its artist and album |
| Songs.BumpedCounts | src/convex/songs.ts:110-115 | an unknown id changes nothing; otherwise that song's count becomes its old count (absent read as 0) plus one, and every other song and field is unchanged |
| Songs.IncrementPlayCount | src/convex/songs.ts:107-127 | an unknown song changes nothing; otherwise the count is bumped and one history row (caller, song, now) is appended exactly when someone is signed in, which alone uses up a fresh id |
| Songs.ResolvePlays | src/convex/songs.ts:141-160 | plays of deleted songs are dropped; the rest follow in order, each the stored song's `Join` carrying its own play time |
| Songs.GetRecentlyPlayed | src/convex/songs.ts:129-162 | empty without a signed-in user; at most 20 entries, each a stored song joined with its artist and album (window and order in `RecentWindowIsNewest`, `RecentlyPlayedWindow`, `RecentlyPlayedShape`) |
| Songs.ResolvableSorted | src/convex/songs.ts:160 | dropping plays keeps a newest-first list newest-first |
| Songs.NewestFirstShape | src/convex/songs.ts:135-139 | the index read in descending order yields exactly the caller's own history rows (the same multiset), newest first |
| Songs.RecentWindowIsNewest | src/convex/songs.ts:135-139 | `.take(20)` keeps min(20, own plays) of the caller's rows, and no caller row left out is newer than one kept |
| Songs.RecentlyPlayedWindow | src/convex/songs.ts:132-160 | for a signed-in caller the result matches, one for one and in order, the window rows whose song still exists (song id and play time) |
| Songs.RecentlyPlayedShape | src/convex/songs.ts:129-162 | empty without a signed-in user; otherwise at most 20 entries in non-increasing play time, each a stored song with a history row of the caller at that time |
| SongSearch.DedupAfter | src/convex/songs.ts:82-85 | reference de-duplication: the ids kept are the input's ids minus those already seen, each once, all from the input |
| SongSearch.KeepFirstsIsDedup | src/convex/songs.ts:83-85 | the filter that keeps position i when it is the first with its id equals the reference de-duplication |
| SongSearch.DedupAppend | src/convex/songs.ts:82-85 | de-duplicating a concatenation de-duplicates the second part after the first part's ids |
| SongSearch.SearchSongs | src/convex/songs.ts:49-105 | a blank query finds nothing; every result is a song's `Join` (soundness, completeness, uniqueness and order in `SearchSound`, `SearchComplete`, `SearchNoDuplicates`, `SearchOrder`) |
| SongSearch.SearchBlank | src/convex/songs.ts:52 | an empty or whitespace-only query finds nothing |
| SongSearch.SearchSound | src/convex/songs.ts:58-79 | every result is a stored song whose title, artist name or album title contains the lower-cased query |
| SongSearch.SearchComplete | src/convex/songs.ts:61-85 | for a non-blank query, every stored song matching any of the three criteria is in the result |
| SongSearch.SearchNoDuplicates | src/convex/songs.ts:82-85 | no song is listed twice |
| SongSearch.SearchOrder | src/convex/songs.ts:82-85 | the result is the title matches, then the artist-but-not-title matches, then the album-only matches, each group in table order |
| Playlists.GetUserPlaylists | src/convex/playlists.ts:5-18 | empty without a signed-in user; otherwise exactly the caller's playlists |
| Playlists.GetPlaylistById | src/convex/playlists.ts:20-50 | none exactly for an unknown id; otherwise the stored playlist, with its song ids resolved in order and dangling ids dropped, each resolved entry the stored song under that id joined with its artist and album |
| Playlists.WithSongProperties | src/convex/playlists.ts:88-91 | the old list is a prefix of the new one; the song is present; at most one entry is added; a second add changes nothing; a duplicate-free list stays duplicate-free |
| Playlists.WithoutSongProperties | src/convex/playlists.ts:110-112 | the song is absent afterwards and every other entry is kept; removing an absent song and removing twice change nothing |
| Playlists.WithoutSongOrder | src/convex/playlists.ts:110-112 | removal distributes over concatenation and keeps or drops each single entry, so the other songs keep their order and duplicates; the multiset loses exactly the song's occurrences |
| Playlists.RemoveUndoesAdd | src/convex/playlists.ts:88-112 | removing a song just added to a list that lacked it restores the list |
| Playlists.Access | src/convex/playlists.ts:80-86 | not signed in gives the authentication error; a missing or foreign playlist gives the single "not found or access denied" error; success exactly when signed in and the playlist exists and is the caller's, with the playlist's position |
| Playlists.SetSongsFrame | src/convex/playlists.ts:89-91 | only the targeted playlist's song list changes; every other playlist and field is unchanged |
| Playlists.CreatePlaylist | src/convex/playlists.ts:52-72 | not signed in: error and no change; otherwise a playlist with the given name, description and visibility, owned by the caller and with no songs, is appended, and its new id is returned; the id counter moves on by one |
| Playlists.CreatedIsListed | src/convex/playlists.ts:59-70 | a created playlist is among its owner's playlists and reads back with its fields and no songs |
| Playlists.AddSongToPlaylist | src/convex/playlists.ts:74-94 | on a failed guard, the error and no change; otherwise the playlist's list becomes the list with the song appended unless already present |
| Playlists.RemoveSongFromPlaylist | src/convex/playlists.ts:96-114 | on a failed guard, the error and no change; otherwise every occurrence of the song is filtered out of the playlist's list |
| Likes.RowsOfPair | src/convex/likes.ts:44-49 | a pair has a row exactly when it is liked; with one row per pair, at most one |
| Likes.IsLiked | src/convex/likes.ts:38-53 | false without a signed-in user; with one row per pair no error, and true exactly when the caller likes the song |
| Likes.GetLikedSongs | src/convex/likes.ts:5-36 | empty without a signed-in user; each entry is a stored song joined with its artist and album (exactly the liked ones, by `LikedSongsExact`) |
| Likes.LikedSongsExact | src/convex/likes.ts:5-36 | empty without a signed-in user; otherwise each entry is a stored song the caller likes, and every such song appears |
| Likes.RemoveDropsPair | src/convex/likes.ts:69 | deleting a pair's only row drops exactly that pair and keeps one row per pair |
| Likes.ToggleFlipsPair | src/convex/likes.ts:68-77 | the pair is liked afterwards exactly when it was not before, every other pair is as it was, and unique ids and one row per pair are kept |
| Likes.ToggleTwice | src/convex/likes.ts:68-77 | two toggles restore the set of liked pairs, and the table itself when the pair was not liked |
| Likes.ToggleFrame | src/convex/likes.ts:69-75 | the rows of every other (user, song) pair are untouched |
| Likes.IsLikedAfterToggle | src/convex/likes.ts:38-77 | after a toggle, the like test for the pair answers what the toggle returned |
| Likes.ToggleLike | src/convex/likes.ts:55-79 | not signed in: error and no change; several rows for the pair: the uniqueness error and no change; otherwise the row is deleted (false) or inserted (true), so the result is whether the song is liked afterwards; one row per pair is preserved; only an insert uses up a fresh id |
| StableSort.SortDescSorted | src/pages/Home.tsx:42 | the sort yields non-increasing keys |
| StableSort.SortDescStable | src/pages/Home.tsx:42 | elements with equal keys keep their input order |
| StableSort.StableSortIsUnique | src/pages/Home.tsx:42 | any key-sorted sequence with the same per-key order is the same sequence |
| Ranking.Take | src/pages/Home.tsx:42 | `slice(0, n)` is the prefix of length `min(n, length)` |
| Ranking.TopByPlaysSorted | src/pages/Home.tsx:42 | the ranking has `min(n, catalogue size)` entries in non-increasing play count, an absent count read as 0 |
| Ranking.TopByPlaysAreTop | src/pages/Home.tsx:42 | every ranked song comes from the catalogue (as a multiset), and no song left out has more plays than a song shown |
| Ranking.TopByPlaysStable | src/pages/Search.tsx:45 | ties keep catalogue order: for each count, the songs shown are the catalogue's first ones with it |
| Ranking.TopByPlaysPrefix | src/pages/Search.tsx:45 | a shorter ranking is a prefix of a longer one |
| Ranking.RankingIsDetermined | src/pages/Home.tsx:42 | any stable sort by the same comparator gives the same order |
| Home.NonNull | src/pages/Home.tsx:109 | a value is kept exactly when it is present in the input; with no null entry the output is the input's values one for one |
| Home.NonNullAppend | src/pages/Home.tsx:109 | the filter distributes over concatenation, keeps a present entry and drops a null one, so the kept values stay in order |
| Home.TopSongs | src/pages/Home.tsx:42 | six songs, or all when fewer, in non-increasing play count (which ones and tie order in `Ranking.TopByPlaysAreTop`, `Ranking.TopByPlaysStable`) |
| Home.RecentPanel | src/pages/Home.tsx:108-124 | hidden exactly when the list is not loaded or holds no present entry; otherwise one to five entries (which ones in `RecentPanelShowsNewest`) |
| Home.RecentPanelShowsNewest | src/pages/Home.tsx:108-124 | fed the loaded list, the panel shows its first five entries and is hidden exactly when the list is empty |
| Home.RecentPanelBound | src/pages/Home.tsx:124 | the panel never shows more than five entries, and never zero |
| SearchPage.PopularSongs | src/pages/Search.tsx:45 | ten songs, or all when fewer, in non-increasing play count |
| SearchPage.TopSixArePopularPrefix | src/pages/Search.tsx:45 | the home page's top six are the first six of the search page's top ten |
| SearchPage.Panel | src/pages/Search.tsx:80-103 | the results section is hidden exactly when the raw query is empty or results have not loaded; with a query and a non-empty loaded list it lists exactly that list; "No results" exactly when the loaded list is empty |
| SearchPage.BlankQueryShowsNoResults | src/pages/Search.tsx:80-103 | a whitespace-only query shows the section with no results; the empty query hides it |
| Text.MinSec | src/components/SongCard.tsx:33-37 | the rendering has a minutes field, a colon and a two-character seconds field (content in `MinSecRoundTrip`) |
| Text.MinSecRoundTrip | src/components/SongCard.tsx:33-37 | `formatDuration`, and the player's identical `formatTime` (src/components/MusicPlayer.tsx:65-69), render whole seconds as `m:ss`: decimal minutes without leading zeros (a lone "0" below a minute), a colon, exactly two digits below 60, and `60 * m + ss` equals the seconds |
| Text.SecondsField | src/components/SongCard.tsx:35-36 | the seconds field is exactly two digits, the first at most 5, and reads back as the remainder |
| SongCard.FormatPlayCount | src/components/SongCard.tsx:39-46 | plain digits exactly below 1000; a scaled label keeps the count and uses a unit of at least 1000 and at most the count (details in `FormatPlayCountProperties`) |
| SongCard.FormatPlayCountProperties | src/components/SongCard.tsx:39-46 | plain decimal exactly below 1000 and reading back as the count; "K" from 1000 below a million; "M" from a million; a larger count never gets a smaller unit |
| SongCard.ShowsPlayCount | src/components/SongCard.tsx:91 | the count line shows exactly when asked for and the count is present and truthy (non-zero), which is exactly when its label is not "0" |
| SongCard.ZeroLabel | src/components/SongCard.tsx:39-46 | the only count whose label reads "0" is zero |
| Text.Lower | src/convex/songs.ts:58 | lower-casing maps each letter A to Z to its lower-case form and leaves every other character |
| Text.NatToStringRoundTrip | src/components/SongCard.tsx:45 | the decimal rendering of a count reads back as the count |
| Text.PadStart2 | src/components/SongCard.tsx:36 | a one-digit field gets one leading zero; a two-digit field is kept |
| App.FindIndex | src/pages/App.tsx:53-56 | the first position holding the song, or -1 exactly when the queue lacks it |
| App.JsRem | src/pages/App.tsx:71 | JavaScript's remainder: the ordinary remainder for a non-negative operand; for a negative operand a non-positive value that differs from the operand by a multiple of the divisor; always strictly inside (-n, n) |
| App.At | src/pages/App.tsx:73 | indexing the queue gives a song exactly for an in-range index, and that song is the entry at the index |
| App.NextIndex | src/pages/App.tsx:71 | from an index at least -1 the result is in range; it is the following index, and 0 after the last (round trip in `NextPrevInverse`, rotation in `AdvanceIsRotation`) |
| App.PrevIndex | src/pages/App.tsx:79 | from an in-range index the result is in range, and `NextIndex` of it gives the index back |
| App.NextPrevInverse | src/pages/App.tsx:71-81 | from an in-range index, next and previous stay in range and undo each other |
| App.NextInRange | src/pages/App.tsx:71 | next moves to the following entry, or from the last to the first |
| App.AdvanceIsRotation | src/pages/App.tsx:71-73 | k presses of next move k places round the queue |
| App.NextCycles | src/pages/App.tsx:68-74 | pressing next once per queue entry returns to the starting index |
| App.FromMissingSong | src/pages/App.tsx:53-81 | when the played song is not in the queue (index -1), next recovers to the first entry but previous goes to -2, where there is no current song |
| App.Playback.constructor | src/pages/App.tsx:24-27 | nothing current, not playing, an empty queue, index 0 |
| App.Playback.PlaySong | src/pages/App.tsx:50-62 | a given queue (even an empty one) replaces the queue; the index is the song's first position, or -1; the song is current and playing; the index is in range exactly when the queue holds the song |
| App.Playback.PlayPause | src/pages/App.tsx:64-66 | only the playing flag changes, and it flips |
| App.Playback.Next | src/pages/App.tsx:68-74 | an empty queue changes nothing; otherwise the index moves one place round the queue and the song there is current; the queue and flag are untouched, and an in-range index stays in range |
| App.Playback.Previous | src/pages/App.tsx:76-82 | as next, stepping back, from 0 to the last entry |
| App.Playback.SyncCatalog | src/pages/App.tsx:29-33 | while nothing is current, a loaded non-empty catalogue becomes the queue; nothing else changes |
| Player.NextRepeat | src/components/MusicPlayer.tsx:75-81 | a press always changes the repeat mode (the three-step cycle in `RepeatCycle`) |
| Player.Step | src/components/MusicPlayer.tsx:46-52 | the song advances exactly when the elapsed time is at or past the duration, and then restarts at 0; otherwise a non-negative time stays within the duration (periodicity in `TicksPeriodic`) |
| Player.RepeatCycle | src/components/MusicPlayer.tsx:75-81 | the repeat button cycles off, all, one: three presses are the identity and one or two are not |
| Player.AdvanceOnTickAfterDuration | src/components/MusicPlayer.tsx:43-57 | from 0, the counter shows 1 to the duration over the first `duration` ticks without advancing; tick `duration + 1` advances and resets to 0 |
| Player.TicksPeriodic | src/components/MusicPlayer.tsx:45-52 | the counter repeats with period `duration + 1`, advancing once per period |
| Player.PlayCountRequest | src/components/MusicPlayer.tsx:59-63 | an increment is requested exactly when the (song id, playing) pair changed and a song is current and playing, and it is for that song |
| Player.ResumeCountsAgain | src/components/MusicPlayer.tsx:59-63 | resuming a paused song requests another increment; pausing, or a re-run with the same state, requests none |
| Player.MusicPlayer.constructor | src/components/MusicPlayer.tsx:36-39 | time 0, not shuffled, repeat off, the effect not run yet |
| Player.MusicPlayer.Tick | src/components/MusicPlayer.tsx:43-57 | nothing when paused or with no song; at or past the duration the app moves to the next song and the counter resets to 0; otherwise the counter goes up by one |
| Player.MusicPlayer.Seek | src/components/MusicPlayer.tsx:71-73 | the counter takes the slider's value and nothing else changes |
| Player.MusicPlayer.ToggleRepeat | src/components/MusicPlayer.tsx:75-81 | the mode becomes the next one in the cycle |
| Player.MusicPlayer.ToggleShuffle | src/components/MusicPlayer.tsx:137 | only the shuffle flag changes, and it flips |
| Player.MusicPlayer.ObservePlayback | src/components/MusicPlayer.tsx:59-63 | one run of the play-count effect: the request for the current state, with that state remembered |

## Left out

- The database runtime, `getAuthUserId`, `Promise.all` and `Date.now()` are not modelled. The user id and the time are inputs, and the per-song reads inside `Promise.all` are sequential functions.
- Text.MinSec: JavaScript `number` values are modelled as whole numbers: `Song.duration` and `playCount` (src/convex/schema.ts:58,63), the player's `currentTime` and the value the seek slider hands back are `nat`, and `playedAt` is `int`. Fractional seconds are out, so `formatDuration(200.5)`, which JavaScript renders as "3:20.5", has no counterpart, and `Math.floor` and `%` on fractions are not modelled.
- Each table is a sequence in creation order, not a map from id to record, because the read order matters. Ids come from one counter shared by all tables.
- `.unique()` throwing on several rows for a (user, song) pair is modelled as the `NotUnique` error. The properties of toggling and of the like test assume one row per pair, which `ToggleLike` preserves.
- Likes.ToggleTwice: when the pair was liked, two toggles restore the set of liked pairs but not the table. The re-inserted row gets a new id and goes to the end of the table.
- SongCard.FormatPlayCountProperties: the one-decimal digits that `toFixed(1)` prints for "K" and "M" counts are not modelled (floating point). Only the threshold, the unit and the suffix are.
- Text.Lower: only ASCII letters are lower-cased. Full-Unicode `toLowerCase` is not modelled.
- `setInterval` scheduling and cleanup, React effect scheduling and state batching, and stale closures are not modelled. One tick or one handler call is one step. The race between the read and the write in `toggleLike` is also out, since each mutation runs alone.
- Player.TicksPeriodic: the song and its duration are fixed across the ticks counted. The `Tick` method itself handles any song.
- Elapsed time is not reset when a new song is played. Only the end-of-song branch resets it. `Playback.PlaySong` has no access to the player's counter. A new song can therefore start with the previous song's elapsed time, and the model keeps that.
- The play-count effect also depends on the `incrementPlayCount` function's identity, which is stable. It is not a state in the model.
- `getPlaylistById` performs no authentication or ownership check, so any caller can read any playlist, private or not. The model keeps that behaviour as it is.
- `createPlaylist` does not reject a blank name; only the Library page does, and that page is not part of this model. The playlist's `coverImage` is left unset.
- The ranking's "input not reordered" holds by construction: sequences are values, and `TopByPlays` returns a new one.
- Presentation is not part of this model. That covers the Landing, Profile and Library pages, the sidebar and bottom navigation, JSX, animation, toasts and the volume slider. The queue each page passes to `handlePlaySong` is the caller's choice and is taken as an input.
- `main.tsx` routing and message passing, file storage (`files.ts`), seed data (`seedData.ts`) and the index declarations of `schema.ts` are not part of this model. The record shapes of `schema.ts` that the modelled handlers read are modelled.
- The `users` fields `emailVerificationTime` and `isAnonymous` (src/convex/schema.ts:29-30) and the `followedArtists` table (src/convex/schema.ts:92-97) are not part of this model: no modelled handler reads or writes them.
- `currentUser` (src/convex/users.ts:11-22) returns `getCurrentUser`'s result unchanged. It is covered by `Users.CurrentUser`.
