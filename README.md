# Angel/devil daily lottery — a Dafny model of its bookkeeping

This project models the bookkeeping of a daily promotional lottery. Each
participant who plays gets the next position in the day's play order. Two
positions per day are winners: the "saint" (15% discount) and the "devil"
(10% discount). A (phone, IP) identity may play once per rolling 24 hours.
All state lives in the browser's key/value store under two key families:

- `lastPlayed_<phone>_<ip>` holds the time of that identity's last play;
- `dailyStats_<date>` holds that day's `DailyStats` record.

The model follows the source file by file:

- `wrappers.dfy`, module `Wrappers`: `Option` and `Result`.
- `game_types.dfy`, module `GameTypes` (src/types/game.ts): `Player`,
  `DailyStats`, `GameResult`, and `WinnerPositionsValid` (both positions ≥ 1
  and different).
- `local_storage.dfy`, module `BrowserStorage`: the key/value store as a class
  `LocalStorage`. Its one field `items: map<string, Entry>` is updated in
  place by `SetItem` and `RemoveItem`. An `Entry` is the decoded stored value:
  a play time, a stats record, or foreign text.
- `game_service.dfy`, module `GameService` (src/services/gameService.ts). It
  holds the key builders, the store invariant `Consistent`, the 24-hour gate
  `CanPlayerPlay`, the rejection-sampling draw `GenerateRandomWinnerPosition`
  (a `while` loop), the lazily created day record `GetTodayStats`, the
  winner rule `Evaluate`, the per-play update `PlayTurn`, and the play
  `PlayGame`. The service's static methods are methods over a `LocalStorage`
  passed in.
- `play_series.dfy`, module `PlaySeries`: a run of successive plays on one
  date is the iteration of `PlayTurn`. This module proves consecutive
  allocation and that each winner type is awarded at most once.
- `admin_screen.dfy`, module `AdminScreen` (src/components/AdminScreen.tsx):
  validated overwrite of today's positions, and the prefix-based wipe (a loop
  over a snapshot of the keys that removes entries in place).
- `player_data_screen.dfy`, module `PlayerDataScreen`
  (src/components/PlayerDataScreen.tsx): JavaScript `\s` white space,
  `replace(/\s/g, "")`, `trim()`, `validatePhone` and `handleSubmit` as pure
  functions.

Time is an integer number of milliseconds. The date key `today`, the client
IP address and the clock are parameters. Each `Math.random` draw is a
supplied integer: a `Draws` value holds the 1-in-7 "weekly special" coin and
the successive `Math.floor(Math.random() * width)` results.

Three behaviours of the code are easy to misread:

- the gate refuses a play made exactly 24 hours after the last one, because
  the comparison is strict;
- setting positions from the admin panel also resets the day's counter and
  both found flags, because the whole record is rewritten;
- the identity key is `lastPlayed_<phone>_<ip>`.

## Model

| member | source | states |
|---|---|---|
| `GameService.LastPlayedKey` | src/services/gameService.ts:20 | The key is `lastPlayed_`, then the phone, one `_`, then the IP address, each at a fixed place. |
| `GameService.StatsKey` | src/services/gameService.ts:47 | The key starts with `dailyStats_`, and the date is exactly what follows it. |
| `GameService.StartsWith` | src/components/AdminScreen.tsx:48 | True iff the string is the prefix followed by some rest. |
| `GameService.KeyFamilies` | src/services/gameService.ts:20 | A `dailyStats_` key is never a `lastPlayed_` key and vice versa. Each key starts with its own family's prefix. |
| `GameService.StatsKeyInjective` | src/services/gameService.ts:47 | Different dates have different stats keys. |
| `GameService.LastPlayedKeyInjective` | src/services/gameService.ts:20 | If neither phone contains `_`, different (phone, ip) identities get different play-record keys. |
| `GameService.StoredStats` | src/services/gameService.ts:49-51 | In a consistent store, a present `dailyStats_<d>` key holds a record for date d with valid winner positions. |
| `GameService.RecordKeepsConsistent` | src/services/gameService.ts:122-123 | Writing a play time keeps the store invariant. |
| `GameService.WriteStatsKeepsConsistent` | src/services/gameService.ts:127-136 | Writing a well-formed record under its own date's key keeps the store invariant. |
| `GameService.CanPlayerPlay` | src/services/gameService.ts:18-30 | True when no record exists for (phone, ip). Otherwise true iff the record is a time strictly more than 24 h before `now`, or is the empty string (falsy, like a missing record). Any other value that is not a time gives false. |
| `GameService.GateAfterPlay` | src/services/gameService.ts:121-123 | After a play recorded at t, the same identity is refused at every time up to and including t + 24 h. It is let in strictly after that. |
| `GameService.Candidate` | src/services/gameService.ts:78-86 | The position of one draw, `Math.floor(Math.random() * width) + lowest`. It lies in [lowest, 50] whenever the draw is one `Math.random` can give. |
| `GameService.DistinctDrawsAccepted` | src/services/gameService.ts:85-87 | If the random source yields two different values, the rejection loop accepts one of them, whatever position is excluded. |
| `GameService.GenerateRandomWinnerPosition` | src/services/gameService.ts:72-89 | The result is never the excluded position. It lies in [1, 50], and in [14, 50] off the weekly special. It is the first draw that differs from the excluded position. |
| `GameService.GetTodayStats` | src/services/gameService.ts:45-69 | An existing record for today is returned unchanged and nothing is written. Otherwise a record is stored and returned with 0 players, both flags false, positions in range, and saint ≠ devil. The saint position is the first draw. The devil position is the first devil draw that differs from the saint position. |
| `GameService.Evaluate` | src/services/gameService.ts:106-119 | Saint iff the saint slot is unfound and position = saint position. Devil iff it is not a saint win, the devil slot is unfound and position = devil position. Otherwise no winner. The winner flag, the discount (15/10/none) and the message follow the type. |
| `GameService.DevilWinIgnoresPriority` | src/services/gameService.ts:111-119 | When the positions differ, the devil wins exactly at an unfound devil position. The saint-first order never decides anything. |
| `GameService.RecordOutcome` | src/services/gameService.ts:129-134 | The counter becomes the position. Each flag becomes old ∨ (won by its type). Date and positions carry over, so a well-formed record stays well formed. |
| `GameService.PlayTurn` | src/services/gameService.ts:103-134 | Position = old counter + 1, and the new counter is that position. Each flag becomes old ∨ (won by its type). Date and positions carry over. Valid positions stay valid. |
| `GameService.PlayGame` | src/services/gameService.ts:92-156 | When the gate refuses: `AlreadyPlayedInLast24Hours` and no entry changes. Otherwise the result is the evaluation against the record read before the update. Exactly two entries change: the identity's time becomes `now`, and today's record becomes the updated one. On a fresh day the positions are fixed by the draws alone, as in `GetTodayStats`. `cardSelected` plays no part. |
| `PlaySeries.SeriesAllocatesConsecutively` | src/services/gameService.ts:101-103 | n plays receive positions total+1 … total+n with no gap or repeat. The counter ends at total+n. Date and winner positions never change. |
| `PlaySeries.SaintAwardedAtMostOnce` | src/services/gameService.ts:111-132 | Over any run of plays on one date, the saint discount is won at most once. It is won exactly once iff the slot was open and its position falls in the run. The flag ends raised iff it was raised or won. |
| `PlaySeries.DevilAwardedAtMostOnce` | src/services/gameService.ts:115-133 | The same for the devil discount, when the two positions differ. |
| `PlaySeries.SeriesTurnAgainst` | src/services/gameService.ts:129-136 | The i-th play of a run is judged against the record left by the i plays before it. |
| `PlaySeries.FreshDayOutcomes` | src/services/gameService.ts:54-68 | On a fresh day, play k gets position k. It wins saint iff k is the saint position, devil iff k is the devil position, and nothing otherwise. |
| `AdminScreen.ConfiguredStats` | src/components/AdminScreen.tsx:31-38 | The admin's record has today's date, the given positions, 0 players and no winner found. It is well formed iff both positions are at least 1 and different. |
| `AdminScreen.ValidatePositions` | src/components/AdminScreen.tsx:17-25 | Equal positions are rejected first. Then a position below 1 is rejected. Positions are accepted iff the record they configure is well formed. |
| `AdminScreen.HandleSetPositions` | src/components/AdminScreen.tsx:15-42 | Invalid positions: the matching error is returned and the store is unchanged. Valid positions: only today's entry changes, to a record with the given positions, 0 players and no winner found. |
| `AdminScreen.SetPositionsOnlyToday` | src/components/AdminScreen.tsx:28-40 | Overwriting today's record leaves every other date's record and every play record as it was. |
| `AdminScreen.SetPositionsThenPlay` | src/components/AdminScreen.tsx:31-40 | After valid positions (s, d) are set, play s wins the saint discount (15) and play d the devil discount (10). No other play wins. |
| `AdminScreen.IsGameKey` | src/components/AdminScreen.tsx:48 | True iff the key is `lastPlayed_` or `dailyStats_` followed by anything. Every play-record key and every stats key is a game key. |
| `AdminScreen.Wiped` | src/components/AdminScreen.tsx:46-51 | Keeps exactly the keys that start with neither `lastPlayed_` nor `dailyStats_`, each with its value. |
| `AdminScreen.HandleResetGame` | src/components/AdminScreen.tsx:44-54 | Removing game keys one by one over a snapshot of all keys leaves exactly the wiped store. |
| `AdminScreen.WipeIdempotent` | src/components/AdminScreen.tsx:48 | Resetting twice is the same as resetting once. |
| `AdminScreen.ResetReopensEverything` | src/components/AdminScreen.tsx:46-51 | After a reset, every identity passes the gate and no date has a record. The next `GetTodayStats` therefore creates a fresh one. The store is consistent. |
| `BrowserStorage.LocalStorage.GetItem` | src/services/gameService.ts:49 | A stored value exactly when the key is present. |
| `BrowserStorage.LocalStorage.Keys` | src/components/AdminScreen.tsx:46 | The set of present keys. |
| `BrowserStorage.LocalStorage.SetItem` | src/services/gameService.ts:67 | Overwrites one entry and nothing else. |
| `BrowserStorage.LocalStorage.RemoveItem` | src/components/AdminScreen.tsx:49 | Deletes one entry and nothing else. |
| `PlayerDataScreen.IsWhitespace` | src/components/PlayerDataScreen.tsx:21 | Exactly the characters JavaScript's `\s` matches and `trim()` removes (white space and line terminators). Within ASCII: tab, LF, VT, FF, CR and space. No digit is white space. |
| `PlayerDataScreen.StripWhitespace` | src/components/PlayerDataScreen.tsx:21 | The result is no longer than the input and contains no white space. A string with no white space is returned unchanged. With `StripAppend` and `StripEmptyIffBlank`, this fixes the result: exactly the non-white-space characters, in order. |
| `PlayerDataScreen.StripAppend` | src/components/PlayerDataScreen.tsx:21 | Stripping distributes over concatenation. |
| `PlayerDataScreen.StripEmptyIffBlank` | src/components/PlayerDataScreen.tsx:21 | Stripping leaves nothing iff the input is all white space. |
| `PlayerDataScreen.TrimStart` | src/components/PlayerDataScreen.tsx:29 | A suffix of the input that does not start with white space. Only white space was dropped. |
| `PlayerDataScreen.TrimEnd` | src/components/PlayerDataScreen.tsx:29 | A prefix of the input that does not end with white space. Only white space was dropped. |
| `PlayerDataScreen.TrimStartCutBlank` | src/components/PlayerDataScreen.tsx:29 | What is cut from the front is all white space. |
| `PlayerDataScreen.TrimEndCutBlank` | src/components/PlayerDataScreen.tsx:29 | What is cut from the back is all white space. |
| `PlayerDataScreen.TrimIsCore` | src/components/PlayerDataScreen.tsx:29 | `trim` returns a slice of the input. Only white space lies before and after that slice. |
| `PlayerDataScreen.Trim` | src/components/PlayerDataScreen.tsx:29 | The trimmed string is no longer than the input and neither starts nor ends with white space. |
| `PlayerDataScreen.TrimEmptyIffBlank` | src/components/PlayerDataScreen.tsx:33 | A string trims to nothing iff it is all white space, iff stripping leaves nothing. |
| `PlayerDataScreen.IsPhoneNumber` | src/components/PlayerDataScreen.tsx:20 | The regex `^[0-9]{10,15}$`. A phone number is its own stripped and trimmed form. |
| `PlayerDataScreen.ValidatePhone` | src/components/PlayerDataScreen.tsx:19-22 | A valid phone has at least 10 characters. A phone without white space is valid iff it is 10 to 15 ASCII digits. |
| `PlayerDataScreen.WhitespaceAnywhereIgnored` | src/components/PlayerDataScreen.tsx:19-22 | Inserting white space anywhere in a phone changes neither its validity nor its stripped form. |
| `PlayerDataScreen.HandleSubmit` | src/components/PlayerDataScreen.tsx:24-44 | Name error iff the name trims to nothing. "Required" iff the phone trims to nothing. "Invalid" iff it is non-blank and fails `validatePhone`. `onSubmit` is called iff there is no error, with (trimmed name, stripped phone). |
| `PlayerDataScreen.SubmitAcceptsExactly` | src/components/PlayerDataScreen.tsx:29-43 | The form submits iff the name holds a non-white-space character and the phone is valid. |
| `PlayerDataScreen.SubmittedValuesWellFormed` | src/components/PlayerDataScreen.tsx:41-43 | A submitted name is non-blank with no white space at either end. A submitted phone is 10 to 15 ASCII digits. |
| `PlayerDataScreen.NoUnderscoreInPhone` | src/components/PlayerDataScreen.tsx:20 | A string matching `^[0-9]{10,15}$` contains no `_`. |
| `PlayerDataScreen.SubmittedIdentitiesDistinct` | src/components/PlayerDataScreen.tsx:42 | Submitted phones have no `_`, so different (phone, ip) identities built from them get different `lastPlayed_` keys. |

## Left out

- `getClientIP` (src/services/gameService.ts:6-15) is a network call with an `'unknown'` fallback. The IP address is a parameter of `PlayGame`, and `player.ipAddress` is not used, as in the source.
- `createOrGetPlayer` (src/services/gameService.ts:33-42) is a mock that only builds an object. It is not modelled.
- JSON text in the store: each stored value is its decoded `Entry`. The model assumes `JSON.stringify`/`JSON.parse` round-trip. Under a `dailyStats_` key, corrupt values are excluded by the invariant `Consistent`, which every operation keeps. Under a `lastPlayed_` key any value may stand, and `CanPlayerPlay` says how each is read.
- Dates and clocks: time is an integer in milliseconds and the date key is a parameter. The model does not capture these details of the source:
  - the local-time, DST-sensitive `setHours(getHours() - 24)`;
  - `toISOString().split('T')[0]`;
  - the separate clock readings at :26, :46, :123 and :126, which can disagree around midnight.
- Randomness: the draws are supplied integers and the weekly-special coin is a supplied boolean. The 1/7 probability and the uniform distribution are not modelled.
- `GenerateRandomWinnerPosition`: its termination relies on the supplied draws holding an accepted value. The source loop stops only with probability 1.
- Concurrency: the model is sequential. Two plays racing between the read at :102 and the write at :136 cannot be expressed.
- Message texts: the Spanish strings are replaced by which of the three messages is chosen (`Message`).
- Admin position inputs are integers. The source's `Number(...)` of the input field could also give fractional or non-finite values.
- Toasts, React state setters, screen routing, the admin credential check, and the rendering-only screens are presentation, outside the game logic.
