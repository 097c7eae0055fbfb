# Super Code: the scorer and the game state machine

A Mastermind-style puzzle. A hidden secret of four colours is drawn from a
seven-colour palette. The player has seven attempts to find it. Each attempt
is scored as green (right colour, right place) and yellow (right colour,
wrong place).

This project models two pieces of the game:

- the scorer and the secret generator;
- the state machine behind the interface: the reducer over its ten actions,
  fresh states, the saved record and its validation on load, and the two
  values derived for the interface.

It also models the hook that owns the state and schedules each verification's
completion on a timer. It then proves what these promise.

Files:

- `Types.dfy` holds the palette, a guess with its feedback, the game state and
  the saved record.
- `GameLogic.dfy` holds the scorer. It is the method `CalculateFeedback`: two
  passes over two fresh boolean arrays, the second a nested scan with `break`.
  The method is proved equal to the specification function `Score`. The file
  also holds the secret generator `GenerateSecret`, a method with a loop.
- `ScoreTheory.dfy` proves what the score means:
  - every position is consumed at most once;
  - green counts positional agreement;
  - a secret scores 4/0 against itself;
  - four greens happen exactly when the guess is the secret;
  - the greedy colour pass is optimal per colour, so green + yellow is the
    multiset overlap;
  - the two worked examples.
- `GameEngine.dfy` holds the reducer `GameReducer`, the action-by-action
  lemmas, the invariant of play `Consistent` (well-shaped state, no colour
  in two slots, at most 7 rows, status agreeing with the rows) with its
  preservation over action traces, save/load, and `CanVerify` / `CurrentAttempt`. The row
  edits of SELECT_COLOR and CLEAR_SLOT write into a local array, as the code
  does, in the methods `PlaceColor` and `EmptySlot`.
- `GameHook.dfy` holds the class `GameSession`.
  - Its fields are the state and the queue of scheduled completions.
  - There is one method per action the interface calls.
  - `TimerFires` delivers the oldest completion. It computes the feedback
    with `CalculateFeedback` from the secret and row that the verify call
    captured.
- It also holds the class `CancellingSession`, the correction of the
  finding below. It wraps a `GameSession`, and its new-level, retry and
  reset actions also cancel the scheduled completion.

Randomness is a parameter. An `Oracle` holds the permutation of palette
positions that the shuffle produces, and the four palette indices that the
repeat branch draws. Storage is a parameter too: the record as read back is a
`StoredRecord` whose fields may be missing.

Where the code and its design description disagree, the model follows the
code:

- The secret `[red, red, blue, green]` against `[red, blue, red, yellow]`
  scores green 1, yellow 2 (`ScoreTheory.RepeatedColourExample`). It does not
  score 1/1. Only position 0 is consumed by the exact pass, so the second red
  of the guess matches the second red of the secret.
- A game is lost when the new history holds at least 7 rows
  (`newHistory.length >= MAX_ATTEMPTS`), not exactly 7. Under the
  verify/complete protocol the two agree (`GameEngine.CompletionStatus`).
- VERIFY_COMPLETE has no precondition, and NEXT_LEVEL has none either. The
  invariant of play therefore holds only for the protocol the hook is meant
  to follow (`GameEngine.Protocol`); a reset during a verification breaks it
  (see ## Findings). Without that protocol a completion can overflow a lost
  game (`GameEngine.UnguardedCompletionOverflows`).
- SET_SLOT and CLEAR_SLOT do not range-check their index. The reducer requires
  `0 <= index < 4`, which is what the interface passes. When the edit is
  accepted, SELECT_COLOR requires a four-slot row and a cursor in range, and
  CLEAR_SLOT requires a four-slot row (its index is already in 0..3).

Two rules of the code combine into a property that neither the code nor its
design description mentions. Both rules are deliberate:

- SELECT_COLOR empties any other slot that holds the colour, so a filled row
  never repeats a colour.
- From level 11 on each colour of the secret is drawn on its own, so it can
  repeat (`GameEngine.RepeatedSecretDrawn`).

A secret with a repeated colour therefore can never be entered, and a game
with one can never be won; it can only be lost, and RETRY_LEVEL replays the
same secret (`GameEngine.RepeatedSecretUnwinnable`). The model keeps both
rules as written. Either one could be the rule to change: keeping every
colour at most once in the row, or drawing repeats. So this is stated as a
proved property, not as a finding with a corrected definition.

## Model

| member | source | states |
|---|---|---|
| Types.PaletteIsComplete | super-code/src/types/index.ts:2-10 | the palette has seven pairwise different colours and contains every colour |
| GameLogic.Compact | super-code/src/utils/gameLogic.ts:15 | dropping empty slots never lengthens the row; a full row keeps every colour in place |
| GameLogic.ExactUpToMasks | super-code/src/utils/gameLogic.ts:24-31 | after the exact pass over the first n positions, a position is marked on either side exactly when it is below n and guess and secret agree there |
| GameLogic.ExactUpToGreen | super-code/src/utils/gameLogic.ts:24-31 | the green count after the exact pass is the number of agreeing positions |
| GameLogic.FirstUnmatched | super-code/src/utils/gameLogic.ts:37-46 | the scan returns the first unmatched secret position of the colour at or after j, or nothing when there is none |
| GameLogic.YellowFrom | super-code/src/utils/gameLogic.ts:34-47 | the colour pass keeps the mask lengths and the green count and never lowers the yellow count |
| GameLogic.ExactPass | super-code/src/utils/gameLogic.ts:24-31 | the first loop leaves the counter and both arrays as the exact-pass specification gives them |
| GameLogic.ColourPass | super-code/src/utils/gameLogic.ts:33-47 | the nested loop with continue and break leaves the counter and both arrays as the colour-pass specification gives them |
| GameLogic.CalculateFeedback | super-code/src/utils/gameLogic.ts:10-50 | the scorer returns exactly Score(secret, guess) |
| GameLogic.ShuffledIsDistinct | super-code/src/utils/gameLogic.ts:62 | the shuffled palette lists seven different colours |
| GameLogic.GenerateSecret | super-code/src/utils/gameLogic.ts:57-73 | four palette colours, pairwise different below level 11, the four drawn picks from level 11 on |
| GameLogic.SecretFor | super-code/src/utils/gameLogic.ts:57-73 | the secret has four palette colours, pairwise different below level 11, the four drawn picks from level 11 on |
| ScoreTheory.ScoreConsumesOnce | super-code/src/utils/gameLogic.ts:17-46 | green + yellow equals the number of matched positions on each side, and the exact matches stay matched |
| ScoreTheory.YellowFromKeepsMatches | super-code/src/utils/gameLogic.ts:35-43 | the colour pass never releases a matched position on either side |
| ScoreTheory.ScoreBound | super-code/src/utils/gameLogic.ts:17-49 | both counts are non-negative and green + yellow is at most the secret length and at most the number of colours guessed |
| ScoreTheory.ScoreGreen | super-code/src/utils/gameLogic.ts:24-31 | green is the number of positions where guess and secret agree |
| ScoreTheory.SelfScore | super-code/src/utils/gameLogic.ts:24-46 | a secret scored against itself gives all green and no yellow |
| ScoreTheory.ExactPositionsFull | super-code/src/utils/gameLogic.ts:24-31 | all of the first n positions agree exactly when n of them agree |
| ScoreTheory.AllGreenIffSecret | super-code/src/utils/gameLogic.ts:24-31 | a full row of the secret's length scores all green if and only if it is the secret |
| ScoreTheory.YellowFromPerColour | super-code/src/utils/gameLogic.ts:33-47 | per colour, the colour pass adds min(unmatched secret positions, unmatched guess positions) of that colour |
| ScoreTheory.YellowStepPerColour | super-code/src/utils/gameLogic.ts:37-46 | one guess position of the scan keeps "matched + still matchable" of every colour constant |
| ScoreTheory.ExactMatchedAgree | super-code/src/utils/gameLogic.ts:26-30 | after the exact pass, each colour has as many matched positions in the secret as in the guess |
| ScoreTheory.MatchedPerColour | super-code/src/utils/gameLogic.ts:24-47 | per colour, the matched secret positions number min(occurrences in secret, occurrences in guess) |
| ScoreTheory.MatchedOverPalette | super-code/src/types/index.ts:2-10 | summing matched positions colour by colour over the palette counts every matched position once |
| ScoreTheory.ScoreIsOverlap | super-code/src/utils/gameLogic.ts:17-49 | green + yellow is the multiset overlap of guess and secret |
| ScoreTheory.TotalIgnoresOrder | super-code/src/utils/gameLogic.ts:33-47 | reordering the colours of a guess does not change green + yellow |
| ScoreTheory.SameColoursTotal | super-code/src/utils/gameLogic.ts:33-47 | a guess with exactly the secret's colours scores green + yellow equal to the length |
| ScoreTheory.RotationExample | super-code/src/utils/gameLogic.ts:24-49 | [red,yellow,blue,green] against [green,blue,yellow,red] gives 0 green, 4 yellow |
| ScoreTheory.RepeatedColourExample | super-code/src/utils/gameLogic.ts:24-49 | [red,red,blue,green] against [red,blue,red,yellow] gives 1 green, 2 yellow |
| GameEngine.CreateInitialState | super-code/src/hooks/useGameState.ts:23-33 | a fresh game: given level, empty history, four empty slots, cursor 0, playing, not verifying; the given secret, or a freshly drawn one of four colours |
| GameEngine.FindOther | super-code/src/hooks/useGameState.ts:46 | the first slot other than the cursor that holds the colour, or -1 when there is none |
| GameEngine.FindIndex | super-code/src/hooks/useGameState.ts:46 | the search loop returns the first other slot holding the colour, or -1 |
| GameEngine.NextSlot | super-code/src/hooks/useGameState.ts:56 | from a slot in 0..3 the cursor moves to min(slot + 1, 3), so it stays in 0..3 |
| GameEngine.PlacedSpec | super-code/src/hooks/useGameState.ts:41-54 | the colour lands under the cursor; at most one other slot changes, the first one holding the colour, and it becomes empty; a row without repeats keeps none and holds the colour only under the cursor |
| GameEngine.PlaceColor | super-code/src/hooks/useGameState.ts:42-54 | the local-array update gives the placed row |
| GameEngine.EmptySlot | super-code/src/hooks/useGameState.ts:75-76 | the local-array update empties slot i and keeps every other slot |
| GameEngine.GameReducer | super-code/src/hooks/useGameState.ts:36-150 | input actions on a finished or verifying game change nothing; the level actions start a fresh playing game |
| GameEngine.SelectColorEffect | super-code/src/hooks/useGameState.ts:38-63 | SELECT_COLOR puts the colour under the cursor, advances the cursor to min(slot+1, 3), changes only the row and the cursor, only ever empties a slot that held the colour, and keeps the filled slots pairwise different |
| GameEngine.SetSlotEffect | super-code/src/hooks/useGameState.ts:65-71 | SET_SLOT moves only the cursor |
| GameEngine.ClearSlotEffect | super-code/src/hooks/useGameState.ts:73-82 | CLEAR_SLOT empties exactly slot i, puts the cursor on it and changes nothing else |
| GameEngine.ClearAllIdempotent | super-code/src/hooks/useGameState.ts:84-91 | CLEAR_ALL empties the row and resets the cursor; twice is the same as once |
| GameEngine.VerifyEffect | super-code/src/hooks/useGameState.ts:93-103 | VERIFY changes the state exactly when the game accepts input and all slots are filled, and then only sets the verifying flag |
| GameEngine.VerifyCompleteEffect | super-code/src/hooks/useGameState.ts:105-127 | VERIFY_COMPLETE appends one row with the feedback, clears the row and the flag, keeps level and secret, and is won iff four greens, lost iff no win and at least 7 rows, playing otherwise |
| GameEngine.LevelActionsEffect | super-code/src/hooks/useGameState.ts:129-141 | NEXT_LEVEL gives level+1 with a new secret; RETRY_LEVEL keeps level and secret; RESET_GAME gives level 1 with four different colours; all start empty and playing |
| GameEngine.FreshIsConsistent | super-code/src/hooks/useGameState.ts:23-33 | a fresh game satisfies the invariant of play |
| GameEngine.Completed | super-code/src/hooks/useGameState.ts:105-127 | the completed state extends the history by exactly one row and keeps the earlier rows; completing a started verification keeps the invariant of play |
| GameEngine.ReducerPreservesConsistent | super-code/src/hooks/useGameState.ts:36-150 | every action taken under the protocol the hook is meant to follow keeps the invariant of play (at most 7 rows, no colour in two slots, status agreeing with the rows); a reset during a verification breaks that protocol (see ## Findings) |
| GameEngine.CompletionStatus | super-code/src/hooks/useGameState.ts:116-124 | after a completion the history has at most 7 rows; the game is won iff four greens, lost iff no win on the 7th row, playing iff no win and fewer than 7 rows |
| GameEngine.WinScenario | super-code/src/hooks/useGameState.ts:38-127 | entering a secret without repeats colour by colour through SELECT_COLOR on a fresh game, verifying and delivering the scorer's feedback wins with one row scored 4/0 |
| GameEngine.RepeatedSecretDrawn | super-code/src/utils/gameLogic.ts:65-70 | from level 11 on, two equal picks give a secret with a repeated colour |
| GameEngine.RepeatedSecretUnwinnable | super-code/src/hooks/useGameState.ts:38-127 | in a game reached by playing, a row under verification scores fewer than four greens against a secret with a repeated colour, so its completion never wins |
| GameEngine.RunPreservesConsistent | super-code/src/hooks/useGameState.ts:36-150 | any protocol-following run of actions, each drawing from its own random source, keeps the invariant, so the history never exceeds 7 rows |
| GameEngine.RunCountsCompletions | super-code/src/hooks/useGameState.ts:105-127 | within one game each completion adds exactly one row, so at most 7 - rows more completions can happen, and level and secret stay the same |
| GameEngine.UnguardedCompletionOverflows | super-code/src/hooks/useGameState.ts:105-117 | a completion delivered to a lost game gives 8 rows and breaks the invariant |
| GameEngine.StaleCompletionAfterReset | super-code/src/hooks/useGameState.ts:224-238 | verify, then reset, then the timer firing gives a level-1 game with one empty row and the old feedback, won at once on four greens, and breaks the invariant |
| GameEngine.GuardedReducer | super-code/src/hooks/useGameState.ts:105-127 | with the guard, every action keeps the invariant of play in any order (a loaded record needs to be consistent), and a completion with no verification under way is ignored |
| GameEngine.GuardedStaleDuringNewVerification | super-code/src/hooks/useGameState.ts:105-141 | the guard alone still applies a stale completion that arrives while a newer verification runs: verify, reset, verify a new row, and the old feedback is recorded for the new row |
| GameEngine.GuardedResetDropsStaleCompletion | super-code/src/hooks/useGameState.ts:138-141 | with the guard, a completion arriving after a reset leaves the fresh game untouched |
| GameEngine.CanVerifyIffAccepted | super-code/src/hooks/useGameState.ts:253-255 | the verify button is enabled exactly when VERIFY would be accepted |
| GameEngine.CanVerify | super-code/src/hooks/useGameState.ts:253-255 | in a game reached by playing, the verify button is only enabled while an attempt remains (attempt number at most 7) |
| GameEngine.CurrentAttempt | super-code/src/hooks/useGameState.ts:258 | the attempt number is at least 1, and at most 7 while a game reached by playing is running |
| GameEngine.CurrentAttemptAdvances | super-code/src/hooks/useGameState.ts:258 | each completion advances the attempt number by one |
| GameEngine.LoadGame | super-code/src/hooks/useGameState.ts:171-193 | a record is restored iff it exists and has a secret of four colours; a restored game keeps the level and secret and is never verifying |
| GameEngine.LoadDefaults | super-code/src/hooks/useGameState.ts:181-189 | missing history, row, cursor and status become [], four empty slots, 0 and playing; present fields are kept |
| GameEngine.SaveGame | super-code/src/hooks/useGameState.ts:153-193 | reading back the saved record gives the state with the verifying flag cleared, or nothing if the secret does not have four colours |
| GameEngine.LoadedIsConsistent | super-code/src/hooks/useGameState.ts:171-193 | a consistent saved game is consistent after loading, and a running one accepts input |
| GameHook.Boot | super-code/src/hooks/useGameState.ts:197-200 | the start-up state is never verifying |
| GameHook.BootCases | super-code/src/hooks/useGameState.ts:197-200 | with nothing stored the start is a fresh level-1 game; with a record saved from a consistent game it is that game, not verifying |
| GameHook.GameSession.constructor | super-code/src/hooks/useGameState.ts:197-200 | the session starts with the start-up state and no pending completion |
| GameHook.GameSession.SelectColor | super-code/src/hooks/useGameState.ts:208-210 | the state becomes the reducer's SELECT_COLOR result, nothing is scheduled, and a valid session stays valid |
| GameHook.GameSession.SetSlot | super-code/src/hooks/useGameState.ts:212-214 | the state becomes the reducer's SET_SLOT result, nothing is scheduled, and a valid session stays valid |
| GameHook.GameSession.ClearSlot | super-code/src/hooks/useGameState.ts:216-218 | the state becomes the reducer's CLEAR_SLOT result, nothing is scheduled, and a valid session stays valid |
| GameHook.GameSession.ClearAll | super-code/src/hooks/useGameState.ts:220-222 | the state becomes the reducer's CLEAR_ALL result, nothing is scheduled, and a valid session stays valid |
| GameHook.GameSession.Verify | super-code/src/hooks/useGameState.ts:224-238 | nothing on an unfilled row; otherwise VERIFY is dispatched and a completion is scheduled with the current secret and row; a valid session whose button was enabled is valid again and verifying |
| GameHook.GameSession.TimerFires | super-code/src/hooks/useGameState.ts:231-237 | the oldest completion is delivered with the feedback computed from what it captured; in a valid session this appends the verified row with its score against the secret |
| GameHook.GameSession.NextLevel | super-code/src/hooks/useGameState.ts:240-242 | the state becomes the reducer's NEXT_LEVEL result; the session is valid exactly when no completion is pending |
| GameHook.GameSession.RetryLevel | super-code/src/hooks/useGameState.ts:244-246 | the state becomes the reducer's RETRY_LEVEL result; with a four-colour secret the session is valid exactly when no completion is pending |
| GameHook.CancellingSession.constructor | super-code/src/hooks/useGameState.ts:197-200 | the corrected session starts with the start-up state and no pending completion |
| GameHook.CancellingSession.NextLevel | super-code/src/hooks/useGameState.ts:240-242 | the state becomes the reducer's NEXT_LEVEL result, no completion is pending, and the session is valid |
| GameHook.CancellingSession.RetryLevel | super-code/src/hooks/useGameState.ts:244-246 | the state becomes the reducer's RETRY_LEVEL result, no completion is pending, and with a four-colour secret the session is valid |
| GameHook.CancellingSession.ResetGame | super-code/src/hooks/useGameState.ts:248-250 | the state becomes the reducer's RESET_GAME result, no completion is pending, and the session is valid, so a verification begun before the reset can never complete the fresh game |
| GameHook.GameSession.ResetGame | super-code/src/hooks/useGameState.ts:248-250 | the state becomes the reducer's RESET_GAME result; the session is valid exactly when no completion is pending, so a completion scheduled before the reset leaves it invalid |

## Left out

- Randomness: `Math.random` in the shuffle and in the index picks is replaced by an `Oracle` parameter. The model says nothing about uniformity, or about the bias of sorting with a random comparator.
- GameLogic.GenerateSecret: the shuffle is given as its resulting permutation. The comparator sort itself is not modelled.
- Persistence I/O: `localStorage`, `JSON.parse`/`JSON.stringify`, `Date.now()` and the swallowed exceptions are left out. The saved record is built by `SaveGame` and validated by `LoadGame`. A failing or corrupt read is the absent record `None`. The timestamp is a parameter.
- RESET_GAME's removal of the stored record is left out. It is storage I/O, and the save-on-change effect writes the fresh state back at once.
- The save-on-change effect (`useEffect`) is left out. It only calls `saveGame` with each new state.
- GameEngine.LoadGame: the record's field types are not checked when it is read back. `StoredRecord` holds well-typed fields, and `level` is always present. A record without a level restores an undefined level in the code, and that is not modelled.
- React plumbing (`useReducer`, `useCallback`) becomes the `GameSession` class. The 800 ms timer becomes the `pending` queue and the `TimerFires` method. Timing is not modelled, only the order of events.
- The GameSession methods take the random source `o` even when their action draws nothing, because they all go through the one reducer.
- GameEngine.GameReducer: it requires an index in 0..3 for SET_SLOT and CLEAR_SLOT. When the edit is accepted, SELECT_COLOR also requires a four-slot row and an in-range cursor, and CLEAR_SLOT a four-slot row. JavaScript would grow the array on an out-of-range write.
- GameLogic.CalculateFeedback is modelled for secrets and guesses of any length, as the code is written. Scores of length-4 rows are a special case.
- GameEngine.GuardedReducer: a stale completion that arrives while a newer verification runs is still applied. The guard only tests the verifying flag. The full correction is `GameHook.CancellingSession`.
- The interface (`App.tsx`, the components, colour lookup tables, audio and styling) is out of scope.

## Findings

| source | as written | input that shows it | evidently intended | confidence | as-written member | corrected member |
|---|---|---|---|---|---|---|
| super-code/src/hooks/useGameState.ts:105-127 | VERIFY_COMPLETE is applied whatever the state, and the timer scheduled by verify (lines 231-237) is never cancelled | a running game with a full row: press verify, then press reset (always enabled) within 800 ms; the timer then completes the fresh level-1 game with an empty row and the old row's feedback, and four greens mark it won at once | a reset, retry or new level cancels the scheduled completion, so a completion only ever reaches the game whose secret and row it captured | not executed | GameEngine.StaleCompletionAfterReset | GameHook.CancellingSession.ResetGame |

`GameSession` models the hook as it is written, so it dispatches through `GameEngine.GameReducer`. Its `ResetGame` contract states the effect of this finding: the completion stays pending and the session is no longer valid. The correction is `GameHook.CancellingSession`. Its level actions clear the queue, and they leave a valid session. A valid session holds a pending completion only while a verification runs, and that completion carries the current secret and row, so `TimerFires` records the row being verified, scored against the current secret. A guard in the reducer alone is not enough. `GameEngine.GuardedReducer` keeps the invariant of play whatever order completions arrive in, provided a loaded record is consistent, and it drops a completion that arrives straight after a reset (`GameEngine.GuardedResetDropsStaleCompletion`). But it still applies a stale completion that arrives during a newer verification (`GameEngine.GuardedStaleDuringNewVerification`).
