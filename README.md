# Name-voting engine, modelled in Dafny

A model of the logic inside a small single-page voting app where people suggest names for an
AI assistant, vote by clicking a word cloud, and watch a top-ten leaderboard with trend labels
and a countdown to the end of voting. The app keeps everything in client-side component state.
The model lifts that logic out of the components, one Dafny module per source file:

- `Registry` (src/App.tsx). The `App` class owns the candidate list `names` and the `error`
  banner. `HandleNewName` runs the profanity filter, then the case-insensitive duplicate check,
  then appends `{id, text, votes: 1}`. `HandleVote` adds one vote to the record with the given
  id. The pure functions `AfterNewName` and `VoteFor` specify both handlers, and the lemmas
  about them state the invariants: names stay case-insensitively distinct, ids stay distinct,
  and no vote count ever goes down.
- `Trends` (src/components/RankingList.tsx). `Classify` is the trend priority chain.
  `Enhance` labels the whole list. `Snapshot` is the `previousVotes` fold. `SortByVotes` is a
  stable descending sort, `Leaderboard` keeps its first ten entries and `RankRows` numbers the
  export and share rows. The `RankingList` class holds `previousVotes` and replaces it on every
  evaluation.
- `Cloud` (src/components/NameCloud.tsx). Covers the tag data, the hue `(votes * 60) % 360`,
  and the click handler that votes for the first name whose text equals the tag exactly.
- `Input` (src/components/NameInput.tsx). Covers the 30-character field and the submit gate,
  which hands on the trimmed text only when it is non-empty.
- `Countdown` (src/components/CountdownTimer.tsx). Covers the split of the time left into
  days, hours, minutes and seconds, the expired flag that is never cleared, and `padNumber`.
- `BotNames` holds the shared `Name` record. `StringOps` holds `toLowerCase` and `trim`.

Parameters stand in for the things the model cannot see:

- The profanity filter is a `string -> bool` argument.
- The id that `Date.now().toString()` would produce is an argument, and it must not already be
  in use.
- The wall-clock time is an integer argument, in milliseconds since the epoch.
- The random "time since last vote" is one integer per name.

The code has none of the following behaviours, so the model has none either:

- There is no vote cooldown or rate limiter, so no rate limit is modelled.
- A vote for an unknown id leaves the list unchanged and raises no error (the error banner is
  still cleared). There is no `NotFound` error.
- Empty or whitespace-only input is stopped by the input form, not by the admission check.
  `handleNewName` itself neither trims nor rejects empty text.
- A previous vote count of 0 is classified `new`, the same as a missing entry.
- Tag sizes are computed inside the cloud library, not by the app.

## Model

| member | source | states |
|---|---|---|
| `Registry.InitialNamesDistinct` | src/App.tsx:11-19 | the seven starting names are case-insensitively distinct and carry distinct ids |
| `Registry.IsDuplicate` | src/App.tsx:29 | a suggestion equal to an existing text, case included, is always a duplicate, and nothing duplicates an empty list |
| `Registry.AfterNewName` | src/App.tsx:23-40 | a suggestion either leaves the list as it was or appends exactly the record with the fresh id, the text as typed and one vote; the error is empty exactly when the list grew |
| `Registry.ProfaneRejected` | src/App.tsx:24-27 | a profane suggestion leaves the list unchanged and sets the profanity message, whatever the duplicate check would say |
| `Registry.NewNameOutcome` | src/App.tsx:23-40 | a suggestion is admitted iff it is not profane and has no case-insensitive duplicate; an admitted name is appended as typed with one vote and the fresh id and clears the error; a rejection leaves the list and sets a non-empty error (the duplicate message when not profane) |
| `Registry.NewNamePreservesDistinct` | src/App.tsx:29-38 | admission keeps the names case-insensitively distinct and, with an unused id, the ids distinct |
| `Registry.NewNameDominates` | src/App.tsx:34-38 | admission moves no record and lowers no vote count |
| `Registry.VoteFor` | src/App.tsx:43-45 | the mapped list keeps length, ids and texts, and each count rises by 0 or 1 |
| `Registry.VoteForEffect` | src/App.tsx:43-45 | a vote keeps length, order, ids and texts, adds exactly one to the matching record and leaves the others unchanged |
| `Registry.VoteUnknownId` | src/App.tsx:43-45 | a vote for an id not in the list leaves the list unchanged |
| `Registry.VotePreserves` | src/App.tsx:43-45 | a vote keeps both distinctness invariants and lowers no vote count |
| `Registry.VoteAddsOne` | src/App.tsx:43-45 | with distinct ids, a vote raises the total of all votes by one if the id is in use and by zero otherwise |
| `Registry.App.constructor` | src/App.tsx:11-20 | the app starts with the seven initial names, an empty error and both invariants |
| `Registry.App.HandleNewName` | src/App.tsx:23-40 | the new list and error are those of `AfterNewName` with the filter's verdict; invariants kept; no record lowered or moved |
| `Registry.App.HandleVote` | src/App.tsx:42-47 | the new list is `VoteFor` of the old one and the error is cleared; invariants kept; no record lowered |
| `Trends.Classify` | src/components/RankingList.tsx:23-33 | `New` iff no prior entry or a prior 0; `Hot` or `Rising` only when the votes rose since the prior count, `Falling` only when they dropped, `Stale` only when unchanged |
| `Trends.TrendPriority` | src/components/RankingList.tsx:23-33 | exactly one label applies: `New` iff there is no prior entry or it is 0; otherwise `Hot` iff delta > 2, `Rising` iff 0 < delta <= 2, `Falling` iff delta < 0, `Stale` iff delta = 0 |
| `Trends.TrendIgnoresAge` | src/components/RankingList.tsx:26-33 | the time-since-last-vote test never changes the label |
| `Trends.Enhance` | src/components/RankingList.tsx:22-40 | the enhanced list has one entry per name, in order, each keeping its id, text and votes and labelled by the priority chain against the previous tallies |
| `Trends.EnhanceLabels` | src/components/RankingList.tsx:22-40 | on the evaluated list, each entry is `New` iff its name has no prior tally or a prior 0, and otherwise `Hot`, `Rising`, `Falling` or `Stale` exactly by its vote change; the ages drawn never change the list |
| `Trends.Snapshot` | src/components/RankingList.tsx:43-46 | the recorded map's keys are exactly the ids of the current list |
| `Trends.SnapshotLastWins` | src/components/RankingList.tsx:43-46 | each id maps to the votes of the last record carrying it |
| `Trends.SnapshotExact` | src/components/RankingList.tsx:43-46 | with distinct ids, the map sends every current id to its current votes and holds no other id |
| `Trends.SecondPassStale` | src/components/RankingList.tsx:23-33 | evaluating the same list twice labels every name `Stale` on the second pass, except names with 0 votes, which stay `New` |
| `Trends.SortByVotes` | src/components/RankingList.tsx:49-50 | the sorted list is a permutation of the input with non-increasing votes |
| `Trends.InsertPermutes` | src/components/RankingList.tsx:49-50 | one insertion step of the sort adds the inserted entry and loses none |
| `Trends.InsertDescending` | src/components/RankingList.tsx:49-50 | one insertion step of the sort keeps a descending list descending |
| `Trends.SortStable` | src/components/RankingList.tsx:49-50 | for every vote count, the entries with that count keep their input order |
| `Trends.Leaderboard` | src/components/RankingList.tsx:49-51 | the leaderboard holds at most ten entries, no more than the input, in non-increasing order of votes |
| `Trends.LeaderboardShape` | src/components/RankingList.tsx:49-51 | the leaderboard has min(10, n) entries with non-increasing votes, all drawn from the input |
| `Trends.LeaderboardCutoff` | src/components/RankingList.tsx:49-51 | every entry left off the leaderboard has no more votes than the last entry shown |
| `Trends.RankRows` | src/components/RankingList.tsx:84-90 | one row per leaderboard entry, carrying its text, with ranks between 1 and the number of entries, strictly increasing down the list |
| `Trends.RankRowsNumbered` | src/components/RankingList.tsx:84-90 | export and share rows are ranked 1, 2, ... in leaderboard order, at most ten of them, each with its entry's text, votes and trend, votes non-increasing |
| `Trends.RankingList.constructor` | src/components/RankingList.tsx:16-17 | the component starts with no enhanced names and an empty map of previous votes |
| `Trends.RankingList.Evaluate` | src/components/RankingList.tsx:20-47 | the new labels are computed against the old map, then the map is replaced by the current snapshot, which with distinct ids holds each current count |
| `Cloud.Tags` | src/components/NameCloud.tsx:11-15 | one tag per name, in order, with value = text, count = votes, key = id |
| `Cloud.Hue` | src/components/NameCloud.tsx:34 | the hue is below 360 and a multiple of 60 |
| `Cloud.HueRange` | src/components/NameCloud.tsx:34 | the hue is a multiple of 60 in [0, 360), namely 60 times the vote count modulo 6 |
| `Cloud.HuePeriodic` | src/components/NameCloud.tsx:34 | vote counts v and v + 6 get the same hue |
| `Cloud.FirstWithText` | src/components/NameCloud.tsx:24 | the lookup returns the first index whose text equals the value exactly, or none when no text does |
| `Cloud.ClickedId` | src/components/NameCloud.tsx:24-25 | an id is handed to the vote handler iff some name's text equals the tag value exactly, and it is the id of such a name |
| `Cloud.AtMostOneMatch` | src/components/NameCloud.tsx:24 | when names are case-insensitively distinct, at most one name has a given exact text |
| `Cloud.ClickFindsTaggedName` | src/components/NameCloud.tsx:11-25 | when names are case-insensitively distinct, clicking the tag drawn for name i selects name i and its id |
| `Cloud.ClickVotesTaggedName` | src/components/NameCloud.tsx:23-25 | under both invariants, clicking name i's tag adds one vote to name i and to no other name |
| `Cloud.OnTagClick` | src/components/NameCloud.tsx:23-26 | a click with a matching text votes that name's id and clears the error; without a match nothing changes, error included |
| `StringOps.Lower` | src/App.tsx:29 | lower-casing keeps the length, maps each character by itself, and leaves no ASCII upper-case letter |
| `StringOps.TrimStart` | src/components/NameInput.tsx:13-14 | the result is a suffix of the input, the cut prefix is all whitespace, and the result does not start with whitespace |
| `StringOps.TrimEnd` | src/components/NameInput.tsx:13-14 | the result is a prefix of the input, the cut suffix is all whitespace, and the result does not end with whitespace |
| `StringOps.Trim` | src/components/NameInput.tsx:13-14 | the trimmed text is what is left once a whitespace-only prefix and a whitespace-only suffix are cut off; it has no whitespace at either end and is empty iff the input is all whitespace |
| `StringOps.TrimIdempotent` | src/components/NameInput.tsx:13-14 | trimming twice is the same as trimming once |
| `Input.Submission` | src/components/NameInput.tsx:13-14 | something is submitted iff the field has a non-whitespace character, and it is non-empty and no longer than the field |
| `Input.SubmissionGate` | src/components/NameInput.tsx:13-14 | a submission happens iff the field has a non-whitespace character; the submitted text is non-empty, has no whitespace at either end, is what is left once a whitespace-only prefix and suffix are cut off the field, and fits the 30-character cap when the field does |
| `Input.NameField.constructor` | src/components/NameInput.tsx:9 | the field starts empty |
| `Input.NameField.Change` | src/components/NameInput.tsx:26-29 | the field keeps at most 30 characters of what was typed |
| `Input.NameField.HandleSubmit` | src/components/NameInput.tsx:11-17 | submits the trimmed field only when it is non-empty, then empties the field; whitespace-only input submits nothing and the field keeps its value; a submission is 1 to 30 characters |
| `Countdown.TimeLeftOf` | src/components/CountdownTimer.tsx:18-31 | no time left gives all zeros, and hours, minutes and seconds stay below 24, 60 and 60 |
| `Countdown.TimeLeftSplit` | src/components/CountdownTimer.tsx:18-31 | a difference <= 0 gives all zeros; otherwise days = diff div 86400000, hours < 24, minutes < 60, seconds < 60, and the parts add up to at most diff and to more than diff - 1000 |
| `Countdown.Decimal` | src/components/CountdownTimer.tsx:41 | `toString` of a count is at least one character, all decimal digits, with no leading zero |
| `Countdown.DecimalRoundTrip` | src/components/CountdownTimer.tsx:41 | reading back the decimal string gives the number |
| `Countdown.DecimalLength` | src/components/CountdownTimer.tsx:41 | the decimal string has one digit iff n < 10 and two iff 10 <= n < 100 |
| `Countdown.PadNumber` | src/components/CountdownTimer.tsx:41 | the padded string has at least two characters, all decimal digits |
| `Countdown.PadNumberShape` | src/components/CountdownTimer.tsx:41 | the padded string has length >= 2: one leading '0' before the digit when n < 10, the plain decimal from 10 on, exactly two characters below 100, and it reads back as n |
| `Countdown.CountdownTimer.constructor` | src/components/CountdownTimer.tsx:14-15 | the timer starts at all zeros and not expired |
| `Countdown.CountdownTimer.CalculateTimeLeft` | src/components/CountdownTimer.tsx:18-32 | returns the split of deadline - now and raises the expired flag when that is <= 0; the flag is never lowered |
| `Countdown.CountdownTimer.Tick` | src/components/CountdownTimer.tsx:34-36 | each tick overwrites the display with the time left at `now`; once expired, the flag stays set |

## Left out

- Rendering: all JSX, icons, animations, the mobile menu, `getRankIcon` and `getTrendIcon`.
  These are presentation only.
- The error banner's three-second auto-clear timer and the countdown's `setInterval`. A timer
  callback is modelled as an explicit method call (`Tick`); the auto-clear is not modelled.
- `containsProfanity`. Its source is not part of this model, so it is a predicate parameter.
- `Date.now()`, `new Date()` and `Math.random()`. These are integer parameters. The random
  last-vote time and its ISO formatting are not part of the enhanced entries, because they do
  not affect any label.
- The download (Blob, object URL, DOM anchor, dated file name) and the chat-webhook share.
  These are browser I/O and a network call. Only the rows they are given are modelled.
- The progress-bar width and `Math.max` over the votes. These use floating point.
- Tag font sizes. They are computed inside the tag-cloud library.
- `StringOps.Lower`: covers ASCII letters only, while JavaScript's `toLowerCase` is
  Unicode-aware. Two names that differ only in the case of a non-ASCII letter count as
  distinct here.
- `StringOps.Trim`: uses the ECMAScript whitespace set listed in `IsWhitespace`.
- `Input.NameField.Change`: counts the 30-character cap in characters, not UTF-16 code units.
  The browser enforces the cap by refusing or clipping an edit; the model abstracts that as
  keeping the first 30 characters of the would-be value, which differs for an insertion in the
  middle of a full field.
- `Countdown.TimeLeftSplit`: states the integer semantics. The source computes with
  floating-point quotients, which equal these integer results for whole-millisecond positive
  differences.
- `Registry.App.HandleNewName`: requires the fresh id to be unused. The source's
  `Date.now().toString()` does not guarantee this.
- React's `useEffect` scheduling. Each trend evaluation is an explicit `Evaluate` call.
