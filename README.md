# Druggle game engine in Dafny

Druggle is a daily guessing game: each day one drug of a fixed catalog is the
target, and the player has six attempts to name it. Every guess is resolved
against the catalog by its name, compared without regard to case or
surrounding white space. The board then shows, for each of six categories
(therapeutic class, molecule class, route, prescription status, mechanism,
target system), whether the guess has the target's value. Hints disclose the
target's value in a category not revealed yet (never the prescription status).
A win adds one to a stored streak. A results panel formats the puzzle number
and a text to share: a header, then one line of five squares per guess. The
game screen declares that panel but nothing in it opens the panel.

The project models the logic of the game screen (`App.jsx`) and of the results
panel (`ShareResults.jsx`):

- `Text.dfy` (module `Text`): the JavaScript string built-ins the game relies
  on. It covers `trim` (with the ECMAScript white-space set), `toLowerCase`,
  `startsWith`, joining lines and cutting them apart again, and writing an
  integer in decimal.
- `Drugs.dfy` (module `Drugs`): the catalog record, the six categories in table
  order and the five hint categories. It also holds two sample catalog entries.
- `Engine.dfy` (module `Engine`): the pure parts of the game screen. These are
  `normalize`, `computeMatch`, `getDailyDrug`, the catalog lookup, `hasWon` and
  `hasLost`, the rule that appends a guess, the hint candidates,
  `checkAchievements`' unlocking rule and the autocomplete filter.
- `Session.dfy` (module `Session`): the class `Game`, whose fields are the
  screen's state (guesses, typed text, error message, revealed hints, streak,
  stored achievements). Its methods are the handlers `handleSubmit`,
  `revealHint` and `resetGame`, the input's change handler, the effect that
  counts the streak, and `checkAchievements`. A ghost `Valid()` invariant is
  kept by every handler. It says that the target and every guess come from the
  catalog, no guess repeats the previous one, there are at most six guesses,
  and the hints are distinct hintable categories.
- `Share.dfy` (module `Share`): `getDailyNumber` and `generateShareString`,
  as standalone functions of the guesses, the target and the puzzle number.

The clock, the random hint pick and the stored counters enter as parameters:
the reference instant and the current instant in milliseconds, the index of
the chosen hint among those remaining, and the stored streak and achievement
list.

## Model

| member | source | states |
|---|---|---|
| Text.TrimSpec | vite-project/src/App.jsx:19 | `trim` keeps a contiguous part of the text with no white space at either end, removes only white space, and is idempotent |
| Text.TrimEmpty | vite-project/src/App.jsx:19 | trimming yields the empty text exactly when the text is all white space |
| Text.ToLowerSpec | vite-project/src/App.jsx:19 | lower-casing keeps the length and every character outside A-Z, maps each of A-Z to its lower-case letter, keeps the white-space positions, leaves no upper-case letter and is idempotent |
| Text.LowerCharEqual | vite-project/src/App.jsx:19 | two characters lower-case alike exactly when they are the same letter up to ASCII case |
| Text.TrimToLower | vite-project/src/App.jsx:19 | trimming and lower-casing commute |
| Text.SplitJoin | vite-project/src/ShareResults.jsx:16-22 | lines without a line break, joined with line breaks, are recovered exactly by splitting at line breaks |
| Text.IntToStringInjective | vite-project/src/ShareResults.jsx:24 | two different numbers never have the same decimal text |
| Text.ParseNatToString | vite-project/src/ShareResults.jsx:24 | reading the decimal text of a number gives the number back |
| Drugs.HintCategories | vite-project/src/App.jsx:16 | the hint categories are the five categories other than prescription, each once |
| Engine.NormalizeSpec | vite-project/src/App.jsx:19 | a missing value normalises to the empty text; a normalised value has no white space at either end and no upper-case letter |
| Engine.NormalizeIdempotent | vite-project/src/App.jsx:19 | normalising twice is normalising once |
| Engine.NormalizeToLower | vite-project/src/App.jsx:19 | normalisation does not depend on letter case |
| Engine.NormalizeUnpadded | vite-project/src/App.jsx:19 | text without white space at its ends normalises to its lower-case form |
| Engine.NormalizeEqual | vite-project/src/App.jsx:19 | two texts normalise alike exactly when, once trimmed, they have equal length and agree character by character up to ASCII case |
| Engine.NormalizeKeepsLetters | vite-project/src/App.jsx:19 | "Aspirin" and "Bspirin" normalise differently, while "ASPIRIN" and "aspirin" normalise alike |
| Engine.NormalizeEmpty | vite-project/src/App.jsx:19 | a present value normalises to the empty text exactly when it is all white space |
| Engine.ComputeMatchReflexive | vite-project/src/App.jsx:21-22 | every record matches its own value in every category |
| Engine.ComputeMatchSymmetric | vite-project/src/App.jsx:21-22 | matching is symmetric, and it is a match exactly when the normalised values are equal |
| Engine.ComputeMatchInsensitive | vite-project/src/App.jsx:21-22 | the status ignores the value's case and surrounding white space |
| Engine.ComputeMatchMissing | vite-project/src/App.jsx:21-22 | a missing value matches exactly the attributes that are all white space |
| Engine.DayCount | vite-project/src/App.jsx:28 | the day count is the `d` with `d` whole days elapsed and `now` inside day `d` (floor division) |
| Engine.DayCountUnique | vite-project/src/App.jsx:28 | any `d` whose day contains `now` is the day count |
| Engine.JsRemainder | vite-project/src/App.jsx:29 | JavaScript's `%` lies in `[0, n)` for a non-negative dividend, in `(-n, 0]` for a negative one, and is zero exactly when the Euclidean remainder is |
| Engine.GetDailyDrug | vite-project/src/App.jsx:25-30 | an entry is selected exactly when the catalog is non-empty and the index is not negative; it is the entry at the day count modulo the catalog length |
| Engine.DailySameDay | vite-project/src/App.jsx:25-30 | two instants of the same day select the same entry |
| Engine.DailyNextDay | vite-project/src/App.jsx:25-30 | from the reference day on, the index is in range and one day later it is one further, wrapping around |
| Engine.DailyScenario | vite-project/src/App.jsx:25-30 | three days after the reference day a two-entry catalog selects its second entry |
| Engine.DailyBeforeStart | vite-project/src/App.jsx:25-30 | the day before the reference day selects nothing when the catalog has two entries or more |
| Engine.FindIndex | vite-project/src/App.jsx:86 | the index found is the first from `from` whose name matches; none is found exactly when none matches |
| Engine.Resolve | vite-project/src/App.jsx:86 | a resolved drug is a catalog entry |
| Engine.ResolveSpec | vite-project/src/App.jsx:86 | a resolved drug carries the typed name after normalisation; resolution fails exactly when no entry carries it |
| Engine.ResolveUnique | vite-project/src/App.jsx:86 | with distinct names, a name resolves to the one entry that carries it |
| Engine.ResolvePadded | vite-project/src/App.jsx:86 | "aspirin " with a trailing space resolves to Aspirin |
| Engine.ResolveExact | vite-project/src/App.jsx:86 | "Ibuprofen" resolves to Ibuprofen even though Aspirin comes first, and the two names differ |
| Engine.ResolveUnknown | vite-project/src/App.jsx:86-90 | a name outside the catalog does not resolve |
| Engine.Names | vite-project/src/App.jsx:55 | the names list has one name per catalog entry, in catalog order |
| Engine.Suggestions | vite-project/src/App.jsx:59-61 | a name is suggested exactly when its normalised form extends the normalised input without being equal to it |
| Engine.SuggestionResolves | vite-project/src/App.jsx:55-61 | every suggested name resolves to a catalog entry when submitted |
| Engine.HasWonSpec | vite-project/src/App.jsx:56 | the game is won exactly when some guess has the target's name |
| Engine.OutcomeExclusive | vite-project/src/App.jsx:56-57 | winning and losing exclude each other, and losing needs all six attempts used |
| Engine.SixMissesLose | vite-project/src/App.jsx:52-57 | six guesses none of which names the target lose |
| Engine.HasWonAppend | vite-project/src/App.jsx:56 | appending a guess wins exactly when the list was won already or the new guess names the target |
| Engine.AppendGuessProperties | vite-project/src/App.jsx:91-94 | the guess list keeps its earlier guesses; a guess is dropped exactly when it repeats the last one, otherwise it is added at the end; no adjacent repeat is created |
| Engine.AppendGuessTwice | vite-project/src/App.jsx:91-94 | submitting the same name twice in a row records it once |
| Engine.AppendGuessAfterOther | vite-project/src/App.jsx:91-94 | a name guessed again after a different guess is recorded again |
| Engine.Unrevealed | vite-project/src/App.jsx:107 | the filter keeps exactly the categories not revealed, without repeats when the input has none |
| Engine.Remaining | vite-project/src/App.jsx:107 | the remaining hints are exactly the non-prescription categories not revealed, without repeats |
| Engine.RemainingCount | vite-project/src/App.jsx:107-108 | the remaining hints number five minus those revealed; none remain exactly when five are revealed |
| Engine.RevealKeepsHintsValid | vite-project/src/App.jsx:107-110 | revealing any remaining category keeps the hints distinct and free of prescription |
| Engine.Unlock | vite-project/src/App.jsx:32-37 | unlocking only appends the two achievement ids, keeps the list free of repeats, changes nothing without a win, and unlocks `win_without_hints` exactly on a hint-free win |
| Engine.UnlockIdempotent | vite-project/src/App.jsx:32-37 | unlocking twice with the same outcome is unlocking once |
| Session.Game.constructor | vite-project/src/App.jsx:44-49 | the session starts on today's target with no guesses, hints, input or error, and with the stored streak and achievements |
| Session.Game.SetCurrentGuess | vite-project/src/App.jsx:193 | the typed text becomes the input |
| Session.Game.StreakEffect | vite-project/src/App.jsx:75-81 | the streak grows by one exactly when the game has just become won |
| Session.Game.Submit | vite-project/src/App.jsx:83-97 | an unknown name sets the error and changes nothing else; a known one clears error and input, updates the guesses by the append rule, and adds one to the streak if it wins; the invariant is kept |
| Session.Game.RecordGuess | vite-project/src/App.jsx:91-94 | the guess list becomes the append rule's result and the invariant is kept |
| Session.Game.RevealHint | vite-project/src/App.jsx:106-111 | with no hint left nothing changes; otherwise the chosen remaining category is appended; the hints stay distinct |
| Session.Game.Reset | vite-project/src/App.jsx:99-104 | guesses, input, error and hints are cleared; streak and achievements are kept |
| Session.Game.CheckAchievements | vite-project/src/App.jsx:32-37 | the stored list becomes the unlocking rule's result, which is returned |
| Share.DailyNumber | vite-project/src/ShareResults.jsx:4-9 | puzzle `n` is the day holding `now`, counting the reference day as 1 |
| Share.DailyNumberSteps | vite-project/src/ShareResults.jsx:4-9 | the reference day is puzzle 1 and every following day is numbered one higher |
| Share.DailyNumberNamesTarget | vite-project/src/ShareResults.jsx:4-9 | from the reference day on, puzzle `n` is the catalog entry at index `n - 1` modulo the catalog length |
| Share.Line | vite-project/src/ShareResults.jsx:17-20 | a line has five squares, each filled or blank |
| Share.Lines | vite-project/src/ShareResults.jsx:16-21 | there is one line per guess, in guess order |
| Share.LineSquares | vite-project/src/ShareResults.jsx:19 | a square is filled exactly when the guess's value equals the target's raw value in that category |
| Share.LineSelf | vite-project/src/ShareResults.jsx:17-20 | the target's own line is five filled squares |
| Share.WinningLine | vite-project/src/ShareResults.jsx:17-20 | with distinct catalog names, the winning guess's line is five filled squares |
| Share.LineOnlyShareCategories | vite-project/src/ShareResults.jsx:18 | the line ignores the name, the prescription status and the summary |
| Share.FilledMeansMatch | vite-project/src/ShareResults.jsx:19 | a filled square implies the board's comparison also reports a match |
| Share.LineCaseSensitive | vite-project/src/ShareResults.jsx:19 | a value differing only in case matches on the board but gets a blank square |
| Share.Header | vite-project/src/ShareResults.jsx:24 | the header is a single line |
| Share.HeaderInjective | vite-project/src/ShareResults.jsx:24 | different puzzle numbers give different headers |
| Share.ShareStringLines | vite-project/src/ShareResults.jsx:15-25 | splitting the share text at line breaks gives the header and then one line per guess, in order |
| Share.ShareStringNoGuesses | vite-project/src/ShareResults.jsx:15-25 | with no guesses the share text is the header followed by an empty line |
| Share.ShareScenario | vite-project/src/ShareResults.jsx:15-25 | a one-guess win on puzzle 4 shares the header and five filled squares |

## Left out

- The rendering is not modelled: the board, animations, confetti, the suggestion drop-down's visibility, the click-outside listener, the share panel's visibility and the hint display text.
- Persistence is not modelled. The streak is read with `parseInt`, which gives `NaN` for malformed text; the model takes the stored streak as a natural number. Writing the streak and the achievement list back to storage is left out as well.
- The clock is a parameter. The reference date (1 January 2025, local time) and the current date enter as millisecond instants, so time zones and daylight saving are outside the model.
- `Math.random` in `pickRandom` is replaced by the parameter `choice`, the index of the picked category among those remaining.
- The clipboard, the two-second timer and the `copied` flag of the share panel are left out; they do not affect the share text.
- The catalog data (`drugs.js`) is not part of this model; two of its entries are included as sample values for the scenarios.
- Session.Game.Submit: a guess on a finished game is excluded by its precondition rather than modelled as a no-op. The handler itself has no guard; the screen disables the input and the Guess button once the game is won or lost.
- Session.Game.RevealHint: the same applies; the screen disables the Hint button on a finished game.
- Session.Game.constructor: it requires that the daily selection yields an entry. Before the reference day the index can be negative, and the screen would then fail at the first access to the target.
- Session.Game.StreakEffect: the effect fires on every change of `hasWon` from false to true. So a reset followed by a second win of the same puzzle adds one again (`Session.WinScenario` shows this). This differs from a streak counted once per puzzle.
- Session.Game.CheckAchievements: the screen never calls `checkAchievements`; it is modelled as a standalone handler over the stored list.
- Share.ShareString: the screen never opens the results panel. Its visibility flag starts false and is only ever set to false, so the share text is never produced. It is modelled as a standalone formatter, and the panel's rendering is left out.
- Text.ToLower: only the ASCII letters A-Z are mapped, which covers the catalog's names and values; full Unicode case mapping is not modelled.
- Share.Line: the squares are single Unicode code points. A JavaScript string stores the green square as two UTF-16 code units, so lengths are not UTF-16 lengths.
- Engine.Suggestions: the contract states which names are suggested, not that the filter keeps them in catalog order.
- The day count is the floor of the elapsed time divided by the length of a day, as the code computes it with `Math.floor`. This also holds before the reference instant, where truncating division would give a different day.
