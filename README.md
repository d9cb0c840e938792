# Leaderboard cache of the ghost-tapping game

The game keeps its local leaderboard under one key-value store key,
`@horror_game_scores`, in `lib/storage.ts`. The key holds a JSON list of score records.
There are three operations on it:

- `getScores` reads the key and returns the list sorted by descending score. The sort is
  JavaScript's stable `Array.prototype.sort` with the comparator `b.score - a.score`. It
  returns `[]` in three cases: nothing is stored, the stored text is empty, or the read,
  parse or sort throws.
- `saveScore` reads the list through `getScores`, builds one record and writes back the
  sorted old list followed by that record. The record takes the player's name, or
  `'Anonymous'` when the name is empty. A failed write is logged and swallowed.
- `clearScores` removes the key. A failed removal is logged and swallowed.

The model has two modules:

- `Scores` (`scores.dfy`) holds the `Score` record and `NewScore`, which builds a new
  record. It also holds the sort as a stable insertion sort, `SortByScoreDesc`, with lemmas
  that its result is sorted, a permutation of its input and stable.
- `Storage` (`storage.dfy`) holds `Slot`, the contents of the key: `Absent`, `Blank`
  (the empty string), `Stored(records)` or `Unparseable`. It gives `getScores`,
  `saveScore` and `clearScores` as pure functions (`ReadScores`, `SavedSlot`,
  `ClearedSlot`). Class `ScoreStore` holds the slot in a field and implements the three
  operations as methods. Each method is proved against its function.

Two environment flags are fields of the class: `readFails` (the store's `getItem` throws)
and `writeFails` (`setItem` or `removeItem` throws). No operation changes them.

Because `saveScore` reads through `getScores`, a cache that cannot be read or parsed is
replaced by a list holding only the new record (`SaveAfterFailedRead`). The list that is
written need not be sorted as a whole: the new record is appended after the sorted old list, and
the next `getScores` sorts again (`SaveWritesSortedPrefix`, `LeaderboardAfterSave`).

`lib/storage.ts` is local-only.

## Model

| member | source | states |
|---|---|---|
| Scores.NewScore | lib/storage.ts:15-20 | the new record's name is never empty: it is the player's name when that is non-empty and 'Anonymous' otherwise; score, id and timestamp are the arguments |
| Scores.SortByScoreDesc | lib/storage.ts:32 | the sort returns a permutation of its input (same multiset of records) |
| Scores.SortIsSorted | lib/storage.ts:32 | the sorted list has every score at least every later score |
| Scores.SortIsStable | lib/storage.ts:32 | records with equal scores keep their stored relative order (the sort is stable) |
| Scores.SortOfSortedIsIdentity | lib/storage.ts:32 | a list already in descending order is returned unchanged |
| Storage.ReadScores | lib/storage.ts:28-37 | getScores' result is sorted descending; it is [] on a read failure, an absent key, an empty string or unparseable text; otherwise it is a permutation of the stored records |
| Storage.SavedSlot | lib/storage.ts:12-26 | after saveScore the key holds getScores' previous result followed by exactly one record, the new one; a failed write leaves the key unchanged |
| Storage.ClearedSlot | lib/storage.ts:39-45 | after clearScores a following read returns []; a failed removal leaves the key unchanged |
| Storage.ScoreStore.GetScores | lib/storage.ts:28-37 | the method returns exactly the getScores result for the current key contents and failure flag |
| Storage.ScoreStore.SaveScore | lib/storage.ts:12-26 | the key afterwards is the previous leaderboard followed by the record NewScore builds, or unchanged if the write fails; the failure flags are unchanged and no error is returned |
| Storage.ScoreStore.ClearScores | lib/storage.ts:39-45 | the key is removed, or unchanged if the removal fails; no error is returned |
| Storage.ReadEmptyIff | lib/storage.ts:30-36 | getScores returns [] if and only if the read fails, nothing usable is stored, or the stored list is empty |
| Storage.ReadIsPermutation | lib/storage.ts:32 | getScores on a stored list neither adds, drops nor alters a record, and keeps the length |
| Storage.SaveKeepsEveryRecord | lib/storage.ts:14-22 | a successful save over a readable list keeps every stored record and adds exactly the new one, so the length grows by one |
| Storage.SaveWritesSortedPrefix | lib/storage.ts:14-22 | all but the last written record are the previous getScores result, in descending order |
| Storage.SaveAfterFailedRead | lib/storage.ts:14-25 | when the read inside saveScore fails or finds nothing usable, the write replaces the key with the single new record |
| Storage.LeaderboardAfterSave | lib/storage.ts:12-37 | after a successful save, getScores returns the previous leaderboard plus the new record, sorted descending |
| Storage.ReadAfterClear | lib/storage.ts:39-45 | after a successful clearScores, getScores returns [] |
| Storage.ReadSortsExample | lib/storage.ts:32 | stored scores 30, 90, 60 are read back as 90, 60, 30 |
| Storage.AnonymousSaveExample | lib/storage.ts:17 | saving 50 with an empty name into an empty cache yields the leaderboard [Anonymous: 50] |

## Left out

- JSON encoding and decoding. The key's contents are modelled after parsing, as `Slot`.
  `Unparseable` stands for text that `JSON.parse` rejects and for parsed values that have
  no `sort` method, such as `null` or a number. `JSON.stringify` of score records is taken
  to round-trip.
- Asynchrony (`async`/`await`): each operation is a synchronous method.
- Races between overlapping `saveScore` calls, which can lose updates: that is concurrency
  and is not modelled.
- `console.error` logging on each failure path: it is output only.
- `Date.now()` and `new Date().toISOString()`: these are non-deterministic, so they are
  the `id` and `createdAt` parameters of `SaveScore` and `NewScore`.
- Non-integer, NaN and infinite scores, and records without a numeric `score`. These
  would make the comparator `b.score - a.score` inconsistent. Scores are `int`.
- The key string `@horror_game_scores`: only this one key is modelled, so the key itself
  does not appear.
- `lib/supabase.ts`: it only creates a remote client when two environment settings are
  present. It has no logic of its own, and the remote client library is not part of this
  model.
