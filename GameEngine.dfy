/**
 * The game's state machine: the fresh-state factory, the reducer over the
 * ten actions, the record that is saved and its validation on load, and the
 * two values derived from the state for the interface.
 *
 * The reducer is a total, synchronous function of the state and the action.
 * A new secret needs randomness, which is passed in as an Oracle.
 */
module GameEngine {
  import opened Types
  import opened GameLogic
  import opened ScoreTheory

  /** Number of attempts a level allows. */
  const MAX_ATTEMPTS := 7

  /** The actions the reducer understands. */
  datatype Action =
    | SelectColor(color: Color)
    | SetSlot(index: int)
    | ClearSlot(index: int)
    | ClearAll
    | Verify
    | VerifyComplete(feedback: Feedback)
    | NextLevel
    | RetryLevel
    | ResetGame
    | LoadSave(payload: GameState)
  {
    /** The actions that edit or submit the input row; all of them are
        ignored once the game is over or while a verification runs. */
    predicate IsInputAction() {
      SelectColor? || SetSlot? || ClearSlot? || ClearAll? || Verify?
    }

    /** The actions that start a fresh game. */
    predicate IsLevelAction() {
      NextLevel? || RetryLevel? || ResetGame?
    }
  }

  // ---------------------------------------------------------------------
  // Shape of the state
  // ---------------------------------------------------------------------

  /** The input row has four slots and the cursor points at one of them. */
  predicate Shaped(s: GameState) {
    |s.currentInput| == 4 && 0 <= s.currentSlotIndex < 4
  }

  /** The game still takes input: it is running and no verification is
      under way. */
  predicate Accepting(s: GameState) {
    s.gameStatus == Playing && !s.isVerifying
  }

  /** No two filled slots hold the same colour. */
  predicate DistinctFilled(input: seq<Slot>) {
    forall i, j :: 0 <= i < j < |input| && input[i].Some? ==> input[i] != input[j]
  }

  /** No attempt of the history scored four greens. */
  predicate NoWin(history: seq<Guess>) {
    forall k :: 0 <= k < |history| ==> history[k].feedback.green != 4
  }

  /** Every recorded attempt is a complete row of four colours. */
  predicate CompleteRows(history: seq<Guess>) {
    forall k :: 0 <= k < |history| ==> |history[k].colors| == 4 && Filled(history[k].colors)
  }

  /** What the state looks like when it is reached under the protocol the
      hook is meant to follow: at most
      MAX_ATTEMPTS complete rows; "won" exactly when the last row had four
      greens; "lost" after MAX_ATTEMPTS rows without a win; "playing" with
      fewer rows and no win; a verification runs only on a full row of a
      running game; no colour fills two slots. */
  predicate Consistent(s: GameState) {
    && Shaped(s)
    && DistinctFilled(s.currentInput)
    && |s.secret| == 4
    && |s.history| <= MAX_ATTEMPTS
    && CompleteRows(s.history)
    && (s.gameStatus == Playing ==> |s.history| < MAX_ATTEMPTS && NoWin(s.history))
    && (s.gameStatus == Won ==>
          |s.history| >= 1 && NoWin(s.history[..|s.history| - 1]) && s.history[|s.history| - 1].feedback.green == 4)
    && (s.gameStatus == Lost ==> |s.history| == MAX_ATTEMPTS && NoWin(s.history))
    && (s.isVerifying ==> s.gameStatus == Playing && Filled(s.currentInput))
  }

  /** What the reducer demands of its caller: the input row and cursor have
      the form the interface keeps whenever an edit is accepted, and slot
      indices are 0..3. */
  predicate Admissible(s: GameState, a: Action) {
    match a
    case SelectColor(_) => Accepting(s) ==> Shaped(s)
    case SetSlot(i) => 0 <= i < 4
    case ClearSlot(i) => 0 <= i < 4 && (Accepting(s) ==> |s.currentInput| == 4)
    case _ => true
  }

  /** The protocol the hook is meant to follow: a completion only follows a
      started verification, and a loaded state is one reached by playing.  A
      reset during a verification breaks it (StaleCompletionAfterReset). */
  predicate Protocol(s: GameState, a: Action) {
    && (a.VerifyComplete? ==> s.isVerifying)
    && (a.LoadSave? ==> Consistent(a.payload))
  }

  // ---------------------------------------------------------------------
  // Fresh states
  // ---------------------------------------------------------------------

  /** A fresh game at the given level, with the given secret or a newly
      drawn one. */
  function CreateInitialState(level: int, existingSecret: Option<seq<Color>>, o: Oracle): (s: GameState)
    requires ValidOracle(o)
    ensures s.level == level && s.history == [] && s.currentInput == EMPTY_INPUT
    ensures s.currentSlotIndex == 0 && s.gameStatus == Playing && !s.isVerifying
    ensures existingSecret.Some? ==> s.secret == existingSecret.value
    ensures existingSecret.None? ==> s.secret == SecretFor(level, o) && |s.secret| == 4
  {
    GameState(level, existingSecret.GetOr(SecretFor(level, o)), [], EMPTY_INPUT, 0, Playing, false)
  }

  // ---------------------------------------------------------------------
  // Colour placement
  // ---------------------------------------------------------------------

  /** The first slot from k on, other than current, that holds c, or -1. */
  function FindOther(input: seq<Slot>, c: Color, current: int, k: nat): (r: int)
    ensures r == -1 || (k <= r < |input| && r != current && input[r] == Some(c))
    ensures r == -1 ==> forall j :: k <= j < |input| && j != current ==> input[j] != Some(c)
    ensures r != -1 ==> forall j :: k <= j < r && j != current ==> input[j] != Some(c)
    decreases |input| - k
  {
    if k >= |input| then -1
    else if input[k] == Some(c) && k != current then k
    else FindOther(input, c, current, k + 1)
  }

  /** The row after putting c under the cursor: the first other slot that
      held c is emptied, then c goes into the current slot. */
  function Placed(input: seq<Slot>, current: int, c: Color): seq<Slot>
    requires 0 <= current < |input|
  {
    var existing := FindOther(input, c, current, 0);
    (if existing == -1 then input else input[existing := None])[current := Some(c)]
  }

  /** The cursor moves one slot right, and stays on the last slot. */
  function NextSlot(current: int): (n: int)
    requires 0 <= current < 4
    ensures 0 <= n < 4 && n == Min(current + 1, 3)
  {
    if current < 3 then current + 1 else current
  }

  /** Placing c: c is under the cursor; every other slot is kept, except
      that at most one slot, the first other one holding c, is emptied; and
      a row without repeated colours keeps none, with c now only under the
      cursor. */
  lemma PlacedSpec(input: seq<Slot>, current: int, c: Color)
    requires 0 <= current < |input|
    ensures |Placed(input, current, c)| == |input|
    ensures Placed(input, current, c)[current] == Some(c)
    ensures forall k :: 0 <= k < |input| && k != current && Placed(input, current, c)[k] != input[k] ==>
              input[k] == Some(c) && Placed(input, current, c)[k] == None
    ensures forall k1, k2 :: 0 <= k1 < k2 < |input| && k1 != current && k2 != current ==>
              Placed(input, current, c)[k1] == input[k1] || Placed(input, current, c)[k2] == input[k2]
    ensures forall k :: (0 <= k < |input| && k != current && input[k] == Some(c) &&
              (forall j :: 0 <= j < k && j != current ==> input[j] != Some(c))) ==> Placed(input, current, c)[k] == None
    ensures DistinctFilled(input) ==> DistinctFilled(Placed(input, current, c))
    ensures DistinctFilled(input) ==> forall k :: 0 <= k < |input| && k != current ==> Placed(input, current, c)[k] != Some(c)
  {
    var existing := FindOther(input, c, current, 0);
    var r := Placed(input, current, c);
    if DistinctFilled(input) {
      assert forall k :: 0 <= k < |input| && k != current ==> r[k] != Some(c);
      forall i, j | 0 <= i < j < |r| && r[i].Some? ensures r[i] != r[j] {
        if i != current && j != current {
          assert r[i] == input[i] && (r[j] == input[j] || r[j] == None);
        }
      }
    }
  }

  /** The search of SELECT_COLOR: the first slot, other than the
      current one, that holds the colour, or -1. */
  method FindIndex(input: seq<Slot>, c: Color, current: int) returns (existing: int)
    ensures existing == FindOther(input, c, current, 0)
  {
    existing := -1;
    var k := 0;
    while k < |input|
      invariant 0 <= k <= |input|
      invariant FindOther(input, c, current, 0) == FindOther(input, c, current, k)
    {
      if input[k] == Some(c) && k != current {
        existing := k;
        return;
      }
      k := k + 1;
    }
  }

  /** SELECT_COLOR's row update done as the code does it: copy the row
      into a local array, empty the other slot that holds the colour, write
      the colour under the cursor. */
  method PlaceColor(input: seq<Slot>, current: int, c: Color) returns (newInput: seq<Slot>)
    requires 0 <= current < |input|
    ensures newInput == Placed(input, current, c)
  {
    var row := new Slot[|input|](k requires 0 <= k < |input| => input[k]);
    var existing := FindIndex(input, c, current);
    if existing != -1 {
      row[existing] := None;
    }
    row[current] := Some(c);
    newInput := row[..];
  }

  /** CLEAR_SLOT's row update: copy the row, empty one slot. */
  method EmptySlot(input: seq<Slot>, index: int) returns (newInput: seq<Slot>)
    requires 0 <= index < |input|
    ensures |newInput| == |input| && newInput[index] == None
    ensures forall k :: 0 <= k < |input| && k != index ==> newInput[k] == input[k]
  {
    var row := new Slot[|input|](k requires 0 <= k < |input| => input[k]);
    row[index] := None;
    newInput := row[..];
  }

  // ---------------------------------------------------------------------
  // The reducer
  // ---------------------------------------------------------------------

  /** The state after completing an attempt with the given feedback.  The
      history only grows, by one row; and completing a started verification
      keeps the state one that play reaches. */
  function Completed(s: GameState, fb: Feedback): (r: GameState)
    ensures |r.history| == |s.history| + 1 && r.history[..|s.history|] == s.history
    ensures Consistent(s) && s.isVerifying ==> Consistent(r)
  {
    var newHistory := s.history + [Guess(s.currentInput, fb)];
    var isWin := fb.green == 4;
    var isLoss := |newHistory| >= MAX_ATTEMPTS && !isWin;
    assert newHistory[..|s.history|] == s.history;
    assert newHistory[|s.history|] == Guess(s.currentInput, fb);
    s.(history := newHistory, currentInput := EMPTY_INPUT, currentSlotIndex := 0,
       gameStatus := if isWin then Won else if isLoss then Lost else Playing,
       isVerifying := false)
  }

  /** The state after one action. */
  function GameReducer(s: GameState, a: Action, o: Oracle): (r: GameState)
    requires ValidOracle(o) && Admissible(s, a)
    ensures a.IsInputAction() && !Accepting(s) ==> r == s
    ensures a.IsLevelAction() ==> r.history == [] && r.gameStatus == Playing && !r.isVerifying
  {
    match a
    case SelectColor(c) =>
      if !Accepting(s) then s
      else s.(currentInput := Placed(s.currentInput, s.currentSlotIndex, c),
              currentSlotIndex := NextSlot(s.currentSlotIndex))
    case SetSlot(i) =>
      if !Accepting(s) then s else s.(currentSlotIndex := i)
    case ClearSlot(i) =>
      if !Accepting(s) then s else s.(currentInput := s.currentInput[i := None], currentSlotIndex := i)
    case ClearAll =>
      if !Accepting(s) then s else s.(currentInput := EMPTY_INPUT, currentSlotIndex := 0)
    case Verify =>
      if !Accepting(s) || !Filled(s.currentInput) then s else s.(isVerifying := true)
    case VerifyComplete(fb) =>
      Completed(s, fb)
    case NextLevel =>
      CreateInitialState(s.level + 1, None, o)
    case RetryLevel =>
      CreateInitialState(s.level, Some(s.secret), o)
    case ResetGame =>
      CreateInitialState(1, None, o)
    case LoadSave(p) =>
      p
  }

  // ---------------------------------------------------------------------
  // What each action does
  // ---------------------------------------------------------------------

  /** SELECT_COLOR on a running game: the colour lands under the cursor,
      the cursor advances (and stays on the last slot), only the row and the
      cursor change, and a row without repeated colours keeps none. */
  lemma SelectColorEffect(s: GameState, c: Color, o: Oracle)
    requires ValidOracle(o) && Accepting(s) && Shaped(s)
    ensures var r := GameReducer(s, SelectColor(c), o);
      && Shaped(r)
      && r.currentInput[s.currentSlotIndex] == Some(c)
      && r.currentSlotIndex == (if s.currentSlotIndex < 3 then s.currentSlotIndex + 1 else 3)
      && r == s.(currentInput := r.currentInput, currentSlotIndex := r.currentSlotIndex)
      && (forall k :: 0 <= k < 4 && k != s.currentSlotIndex && r.currentInput[k] != s.currentInput[k] ==>
            s.currentInput[k] == Some(c) && r.currentInput[k] == None)
      && (DistinctFilled(s.currentInput) ==> DistinctFilled(r.currentInput))
  {
    PlacedSpec(s.currentInput, s.currentSlotIndex, c);
  }

  /** SET_SLOT on a running game moves only the cursor. */
  lemma SetSlotEffect(s: GameState, i: int, o: Oracle)
    requires ValidOracle(o) && Accepting(s) && 0 <= i < 4
    ensures var r := GameReducer(s, SetSlot(i), o);
      r.currentSlotIndex == i && r.currentInput == s.currentInput && r.(currentSlotIndex := s.currentSlotIndex) == s
  {
  }

  /** CLEAR_SLOT on a running game empties exactly slot i and puts the
      cursor there. */
  lemma ClearSlotEffect(s: GameState, i: int, o: Oracle)
    requires ValidOracle(o) && Accepting(s) && Shaped(s) && 0 <= i < 4
    ensures var r := GameReducer(s, ClearSlot(i), o);
      && Shaped(r) && r.currentSlotIndex == i && r.currentInput[i] == None
      && (forall k :: 0 <= k < 4 && k != i ==> r.currentInput[k] == s.currentInput[k])
      && r.(currentInput := s.currentInput, currentSlotIndex := s.currentSlotIndex) == s
  {
  }

  /** CLEAR_ALL empties the row and moves the cursor to the first slot, and
      doing it twice is doing it once. */
  lemma ClearAllIdempotent(s: GameState, o: Oracle)
    requires ValidOracle(o)
    ensures var r := GameReducer(s, ClearAll, o);
      && GameReducer(r, ClearAll, o) == r
      && (Accepting(s) ==> r.currentInput == EMPTY_INPUT && r.currentSlotIndex == 0
                           && r.(currentInput := s.currentInput, currentSlotIndex := s.currentSlotIndex) == s)
  {
  }

  /** VERIFY sets only the verifying flag, and only on a running game whose
      four slots are filled. */
  lemma VerifyEffect(s: GameState, o: Oracle)
    requires ValidOracle(o)
    ensures var r := GameReducer(s, Verify, o);
      && (r != s <==> Accepting(s) && Filled(s.currentInput))
      && (r != s ==> r == s.(isVerifying := true))
  {
  }

  /** VERIFY_COMPLETE appends one attempt with the row and the feedback,
      clears the row, ends the verification, keeps level and secret, and
      decides the status: won on four greens, else lost once the history
      holds MAX_ATTEMPTS or more rows, else playing. */
  lemma VerifyCompleteEffect(s: GameState, fb: Feedback, o: Oracle)
    requires ValidOracle(o)
    ensures var r := GameReducer(s, VerifyComplete(fb), o);
      && r.history == s.history + [Guess(s.currentInput, fb)]
      && r.currentInput == EMPTY_INPUT && r.currentSlotIndex == 0 && !r.isVerifying
      && r.level == s.level && r.secret == s.secret
      && (r.gameStatus == Won <==> fb.green == 4)
      && (r.gameStatus == Lost <==> fb.green != 4 && |s.history| + 1 >= MAX_ATTEMPTS)
      && (r.gameStatus == Playing <==> fb.green != 4 && |s.history| + 1 < MAX_ATTEMPTS)
  {
  }

  /** NEXT_LEVEL: a fresh game one level up with a newly drawn secret.
      RETRY_LEVEL: the same level and secret from the start.
      RESET_GAME: a fresh game at level 1. */
  lemma LevelActionsEffect(s: GameState, o: Oracle)
    requires ValidOracle(o)
    ensures var n := GameReducer(s, NextLevel, o);
      n.level == s.level + 1 && n.secret == SecretFor(s.level + 1, o) && n.history == []
      && n.currentInput == EMPTY_INPUT && n.currentSlotIndex == 0 && n.gameStatus == Playing && !n.isVerifying
    ensures var t := GameReducer(s, RetryLevel, o);
      t.level == s.level && t.secret == s.secret && t.history == [] && t.currentInput == EMPTY_INPUT
      && t.currentSlotIndex == 0 && t.gameStatus == Playing && !t.isVerifying
    ensures var z := GameReducer(s, ResetGame, o);
      z.level == 1 && z.secret == SecretFor(1, o) && |z.secret| == 4 && PairwiseDistinct(z.secret)
      && z.history == [] && z.currentInput == EMPTY_INPUT && z.currentSlotIndex == 0
      && z.gameStatus == Playing && !z.isVerifying
  {
  }

  // ---------------------------------------------------------------------
  // The invariant of play
  // ---------------------------------------------------------------------

  lemma FreshIsConsistent(level: int, existingSecret: Option<seq<Color>>, o: Oracle)
    requires ValidOracle(o)
    requires existingSecret.Some? ==> |existingSecret.value| == 4
    ensures Consistent(CreateInitialState(level, existingSecret, o))
  {
  }

  /** Every action taken under the protocol the hook is meant to follow
      keeps the invariant of play. */
  lemma ReducerPreservesConsistent(s: GameState, a: Action, o: Oracle)
    requires ValidOracle(o) && Consistent(s) && Admissible(s, a) && Protocol(s, a)
    ensures Consistent(GameReducer(s, a, o))
  {
    match a
    case SelectColor(c) =>
      if Accepting(s) { SelectColorEffect(s, c, o); }
    case NextLevel =>
      FreshIsConsistent(s.level + 1, None, o);
    case RetryLevel =>
      FreshIsConsistent(s.level, Some(s.secret), o);
    case ResetGame =>
      FreshIsConsistent(1, None, o);
    case _ =>
  }

  /** The status after completing a started verification: it leaves
      "playing" on four greens, or on the MAX_ATTEMPTS-th row, and not
      before. */
  lemma CompletionStatus(s: GameState, fb: Feedback, o: Oracle)
    requires ValidOracle(o) && Consistent(s) && s.isVerifying
    ensures var r := GameReducer(s, VerifyComplete(fb), o);
      && |r.history| == |s.history| + 1 <= MAX_ATTEMPTS
      && (r.gameStatus == Won <==> fb.green == 4)
      && (r.gameStatus == Lost <==> fb.green != 4 && |r.history| == MAX_ATTEMPTS)
      && (r.gameStatus == Playing <==> fb.green != 4 && |r.history| < MAX_ATTEMPTS)
  {
  }

  /** The row with the first k colours of a secret entered and the other
      slots empty. */
  function PartialRow(secret: seq<Color>, k: int): (row: seq<Slot>)
    requires |secret| == 4
    ensures |row| == 4
  {
    seq(4, j requires 0 <= j < 4 => if j < k then Some(secret[j]) else None)
  }

  /** Selecting the next colour of a secret without repeats puts it in the
      next slot and empties nothing. */
  lemma EnterStep(s: GameState, secret: seq<Color>, k: int, o: Oracle)
    requires ValidOracle(o) && Accepting(s) && |secret| == 4 && PairwiseDistinct(secret)
    requires 0 <= k < 4 && s.currentSlotIndex == k && s.currentInput == PartialRow(secret, k)
    ensures var r := GameReducer(s, SelectColor(secret[k]), o);
      && r == s.(currentInput := PartialRow(secret, k + 1), currentSlotIndex := NextSlot(k))
      && Accepting(r)
  {
    var input := s.currentInput;
    assert FindOther(input, secret[k], k, 0) == -1 by {
      forall j | 0 <= j < 4 && j != k ensures input[j] != Some(secret[k]) {
        if j < k { assert input[j] == Some(secret[j]); }
      }
    }
    assert Placed(input, k, secret[k]) == PartialRow(secret, k + 1);
  }

  /** Entering a secret without repeats colour by colour through SELECT_COLOR
      on a fresh game, verifying, and delivering the scorer's feedback wins
      it with a single row. */
  lemma WinScenario(level: int, secret: seq<Color>, o: Oracle)
    requires ValidOracle(o) && |secret| == 4 && PairwiseDistinct(secret)
    ensures var s0 := CreateInitialState(level, Some(secret), o);
      var e1 := GameReducer(s0, SelectColor(secret[0]), o);
      var e2 := GameReducer(e1, SelectColor(secret[1]), o);
      var e3 := GameReducer(e2, SelectColor(secret[2]), o);
      var e4 := GameReducer(e3, SelectColor(secret[3]), o);
      && e4.currentInput == Lift(secret)
      && var s2 := GameReducer(e4, Verify, o);
      && s2.isVerifying
      && var s3 := GameReducer(s2, VerifyComplete(Score(secret, Lift(secret))), o);
      && s3.gameStatus == Won && |s3.history| == 1
      && s3.history[0] == Guess(Lift(secret), Feedback(4, 0))
  {
    var s0 := CreateInitialState(level, Some(secret), o);
    assert s0.currentInput == PartialRow(secret, 0);
    EnterStep(s0, secret, 0, o);
    var e1 := GameReducer(s0, SelectColor(secret[0]), o);
    EnterStep(e1, secret, 1, o);
    var e2 := GameReducer(e1, SelectColor(secret[1]), o);
    EnterStep(e2, secret, 2, o);
    var e3 := GameReducer(e2, SelectColor(secret[2]), o);
    EnterStep(e3, secret, 3, o);
    var e4 := GameReducer(e3, SelectColor(secret[3]), o);
    assert e4.currentInput == Lift(secret);
    SelfScore(secret);
  }

  /** From level 11 on the generator can draw a secret with a repeated
      colour. */
  lemma RepeatedSecretDrawn(level: int, o: Oracle)
    requires ValidOracle(o) && level >= REPEAT_LEVEL && o.picks[0] == o.picks[1]
    ensures !PairwiseDistinct(SecretFor(level, o))
  {
    assert SecretFor(level, o)[0] == SecretFor(level, o)[1];
  }

  /** SELECT_COLOR keeps the filled slots pairwise different, so a row under
      verification never repeats a colour and never equals a secret that
      does: such a game can never be won. */
  lemma RepeatedSecretUnwinnable(s: GameState, o: Oracle)
    requires ValidOracle(o) && Consistent(s) && s.isVerifying && !PairwiseDistinct(s.secret)
    ensures Score(s.secret, s.currentInput).green != 4
    ensures GameReducer(s, VerifyComplete(Score(s.secret, s.currentInput)), o).gameStatus != Won
  {
    AllGreenIffSecret(s.secret, s.currentInput);
  }

  // ---------------------------------------------------------------------
  // Traces
  // ---------------------------------------------------------------------

  /** Every draw of the random source is one it can produce. */
  predicate ValidOracles(os: seq<Oracle>) {
    forall k :: 0 <= k < |os| ==> ValidOracle(os[k])
  }

  /** Whether a run of actions, the k-th drawing from os[k], stays within
      what the reducer and the hook expect, step by step. */
  predicate Follows(s: GameState, acts: seq<Action>, os: seq<Oracle>)
    requires |os| == |acts| && ValidOracles(os)
    decreases |acts|
  {
    acts == [] ||
    (Admissible(s, acts[0]) && Protocol(s, acts[0]) && Follows(GameReducer(s, acts[0], os[0]), acts[1..], os[1..]))
  }

  /** The state after a run of actions. */
  function Run(s: GameState, acts: seq<Action>, os: seq<Oracle>): GameState
    requires |os| == |acts| && ValidOracles(os) && Follows(s, acts, os)
    decreases |acts|
  {
    if acts == [] then s else Run(GameReducer(s, acts[0], os[0]), acts[1..], os[1..])
  }

  /** A run of actions taken the way the hook is meant to take them keeps
      the invariant of play; in particular the history never exceeds
      MAX_ATTEMPTS rows. */
  lemma {:induction false} RunPreservesConsistent(s: GameState, acts: seq<Action>, os: seq<Oracle>)
    requires |os| == |acts| && ValidOracles(os) && Consistent(s) && Follows(s, acts, os)
    ensures Consistent(Run(s, acts, os))
    ensures |Run(s, acts, os).history| <= MAX_ATTEMPTS
    decreases |acts|
  {
    if acts != [] {
      ReducerPreservesConsistent(s, acts[0], os[0]);
      RunPreservesConsistent(GameReducer(s, acts[0], os[0]), acts[1..], os[1..]);
    }
  }

  /** Number of completions in a run. */
  function Completions(acts: seq<Action>): nat {
    if acts == [] then 0 else (if acts[0].VerifyComplete? then 1 else 0) + Completions(acts[1..])
  }

  /** Actions that stay within one game (no new level, no load). */
  predicate WithinGame(acts: seq<Action>) {
    forall k :: 0 <= k < |acts| ==> !acts[k].IsLevelAction() && !acts[k].LoadSave?
  }

  /** Within one game every completion adds one row, so a game absorbs at
      most MAX_ATTEMPTS - |history| more completions. */
  lemma {:induction false} RunCountsCompletions(s: GameState, acts: seq<Action>, os: seq<Oracle>)
    requires |os| == |acts| && ValidOracles(os) && Consistent(s) && Follows(s, acts, os) && WithinGame(acts)
    ensures |Run(s, acts, os).history| == |s.history| + Completions(acts)
    ensures Completions(acts) <= MAX_ATTEMPTS - |s.history|
    ensures Run(s, acts, os).level == s.level && Run(s, acts, os).secret == s.secret
    decreases |acts|
  {
    if acts != [] {
      var s1 := GameReducer(s, acts[0], os[0]);
      ReducerPreservesConsistent(s, acts[0], os[0]);
      assert WithinGame(acts[1..]) by {
        forall k | 0 <= k < |acts[1..]| ensures !acts[1..][k].IsLevelAction() && !acts[1..][k].LoadSave? {
          assert acts[1..][k] == acts[k + 1];
        }
      }
      RunCountsCompletions(s1, acts[1..], os[1..]);
    }
    RunPreservesConsistent(s, acts, os);
  }

  /** Without the protocol, a completion can arrive for a game that is
      already lost, and the history then grows past MAX_ATTEMPTS. */
  lemma UnguardedCompletionOverflows(s: GameState, fb: Feedback, o: Oracle)
    requires ValidOracle(o) && Consistent(s) && s.gameStatus == Lost
    ensures |GameReducer(s, VerifyComplete(fb), o).history| == MAX_ATTEMPTS + 1
    ensures !Consistent(GameReducer(s, VerifyComplete(fb), o))
  {
  }

  // ---------------------------------------------------------------------
  // A completion that outlives its game
  // ---------------------------------------------------------------------

  /** As written: a verification is started, the game is reset before the
      completion arrives, and the completion is then applied to the fresh
      level-1 game, recording an empty row with feedback computed against
      the old secret; four greens from the old secret win the new game at
      once. */
  lemma StaleCompletionAfterReset(s: GameState, fb: Feedback, o: Oracle)
    requires ValidOracle(o) && Consistent(s) && Accepting(s) && Filled(s.currentInput)
    ensures var s1 := GameReducer(s, Verify, o);
      var s2 := GameReducer(s1, ResetGame, o);
      var s3 := GameReducer(s2, VerifyComplete(fb), o);
      && s1.isVerifying && !s2.isVerifying
      && s3.level == 1 && s3.history == [Guess(EMPTY_INPUT, fb)]
      && (fb.green == 4 ==> s3.gameStatus == Won)
      && !Consistent(s3)
  {
    var s3 := GameReducer(GameReducer(GameReducer(s, Verify, o), ResetGame, o), VerifyComplete(fb), o);
    assert !Filled(s3.history[0].colors) by { assert s3.history[0].colors[0] == None; }
  }

  /** A reducer with a guard: a completion is ignored unless a verification
      is under way.  With the guard every action keeps the invariant of play,
      in whatever order actions and completions arrive, as long as a loaded
      record is consistent.  The guard cannot tell a stale completion from
      the awaited one, so one arriving during a newer verification is still
      applied (GuardedStaleDuringNewVerification); the hook's own correction
      is GameHook.CancellingSession. */
  function GuardedReducer(s: GameState, a: Action, o: Oracle): (r: GameState)
    requires ValidOracle(o) && Admissible(s, a)
    ensures Consistent(s) && (a.LoadSave? ==> Consistent(a.payload)) ==> Consistent(r)
    ensures a.VerifyComplete? && !s.isVerifying ==> r == s
  {
    if a.VerifyComplete? && !s.isVerifying then s
    else if Consistent(s) && (a.LoadSave? ==> Consistent(a.payload)) then
      ReducerPreservesConsistent(s, a, o);
      GameReducer(s, a, o)
    else GameReducer(s, a, o)
  }

  /** With the guard, the reset-then-complete sequence leaves the fresh
      game untouched. */
  lemma GuardedResetDropsStaleCompletion(s: GameState, fb: Feedback, o: Oracle)
    requires ValidOracle(o) && Accepting(s) && Filled(s.currentInput)
    ensures var s2 := GuardedReducer(GuardedReducer(s, Verify, o), ResetGame, o);
      GuardedReducer(s2, VerifyComplete(fb), o) == s2 && s2 == CreateInitialState(1, None, o)
  {
  }

  /** The guard alone does not drop every stale completion: verify, reset,
      verify a new row, and the completion of the first verification is
      applied to the new game, scored against the old secret. */
  lemma GuardedStaleDuringNewVerification(s: GameState, row: seq<Slot>, o: Oracle)
    requires ValidOracle(o) && Accepting(s) && Filled(s.currentInput) && |row| == 4 && Filled(row)
    ensures var s2 := GuardedReducer(GuardedReducer(s, Verify, o), ResetGame, o);
      var s3 := GuardedReducer(s2.(currentInput := row), Verify, o);
      var s4 := GuardedReducer(s3, VerifyComplete(Score(s.secret, s.currentInput)), o);
      s3.isVerifying && s4.history == [Guess(row, Score(s.secret, s.currentInput))]
  {
  }

  // ---------------------------------------------------------------------
  // Values derived for the interface
  // ---------------------------------------------------------------------

  /** Whether the verify button is enabled.  In a game that play reached it
      is only enabled while an attempt remains. */
  function CanVerify(s: GameState): (r: bool)
    ensures r && Consistent(s) ==> CurrentAttempt(s) <= MAX_ATTEMPTS
  {
    Filled(s.currentInput) && s.gameStatus == Playing && !s.isVerifying
  }

  /** The number of the attempt being entered, counting from 1; while a
      game that play reached is running it is at most MAX_ATTEMPTS. */
  function CurrentAttempt(s: GameState): (n: int)
    ensures n >= 1
    ensures Consistent(s) && s.gameStatus == Playing ==> n <= MAX_ATTEMPTS
  {
    |s.history| + 1
  }

  /** The button is enabled exactly when VERIFY would be accepted. */
  lemma CanVerifyIffAccepted(s: GameState, o: Oracle)
    requires ValidOracle(o)
    ensures CanVerify(s) <==> GameReducer(s, Verify, o).isVerifying && !s.isVerifying
  {
  }

  /** Each completion advances the attempt number by one. */
  lemma CurrentAttemptAdvances(s: GameState, fb: Feedback, o: Oracle)
    requires ValidOracle(o)
    ensures CurrentAttempt(GameReducer(s, VerifyComplete(fb), o)) == CurrentAttempt(s) + 1
  {
  }

  // ---------------------------------------------------------------------
  // Saving and loading
  // ---------------------------------------------------------------------

  /** The record written to storage: the state without the verifying flag,
      stamped with the time of saving.  Loading it gives the state back with
      a verification in progress dropped; a state whose secret does not have
      four colours is not restored. */
  function SaveGame(s: GameState, timestamp: int): (d: SaveData)
    ensures |s.secret| == 4 ==> LoadGame(Some(Stored(d))) == Some(s.(isVerifying := false))
    ensures |s.secret| != 4 ==> LoadGame(Some(Stored(d))) == None
  {
    SaveData(s.level, s.secret, s.history, s.currentInput, s.currentSlotIndex, s.gameStatus, timestamp)
  }

  /** A record as it is read back: any field may be missing. */
  datatype StoredRecord = StoredRecord(
    level: int,
    secret: Option<seq<Color>>,
    history: Option<seq<Guess>>,
    currentInput: Option<seq<Slot>>,
    currentSlotIndex: Option<int>,
    gameStatus: Option<Status>,
    timestamp: Option<int>)

  /** A saved record read back with every field present. */
  function Stored(d: SaveData): StoredRecord {
    StoredRecord(d.level, Some(d.secret), Some(d.history), Some(d.currentInput), Some(d.currentSlotIndex),
                 Some(d.gameStatus), Some(d.timestamp))
  }

  /** Restore a game: nothing without a record, nothing unless the secret
      is present and has four colours; missing fields take the values of a
      fresh game; a restored game is never verifying. */
  function LoadGame(saved: Option<StoredRecord>): (r: Option<GameState>)
    ensures r.Some? <==> saved.Some? && saved.value.secret.Some? && |saved.value.secret.value| == 4
    ensures r.Some? ==> !r.value.isVerifying && r.value.secret == saved.value.secret.value
                        && r.value.level == saved.value.level
  {
    match saved
    case None => None
    case Some(d) =>
      if d.secret.None? || |d.secret.value| != 4 then None
      else Some(GameState(
        d.level,
        d.secret.value,
        d.history.GetOr([]),
        d.currentInput.GetOr(EMPTY_INPUT),
        d.currentSlotIndex.GetOr(0),
        d.gameStatus.GetOr(Playing),
        false))
  }

  /** Missing fields of a valid record take the fresh-game values. */
  lemma LoadDefaults(d: StoredRecord)
    requires d.secret.Some? && |d.secret.value| == 4
    ensures var g := LoadGame(Some(d)).value;
      && (d.history.None? ==> g.history == [])
      && (d.currentInput.None? ==> g.currentInput == EMPTY_INPUT)
      && (d.currentSlotIndex.None? ==> g.currentSlotIndex == 0)
      && (d.gameStatus.None? ==> g.gameStatus == Playing)
      && (d.history.Some? ==> g.history == d.history.value)
      && (d.currentInput.Some? ==> g.currentInput == d.currentInput.value)
      && (d.currentSlotIndex.Some? ==> g.currentSlotIndex == d.currentSlotIndex.value)
      && (d.gameStatus.Some? ==> g.gameStatus == d.gameStatus.value)
  {
  }

  /** A restored game that was consistent when saved is consistent again,
      and it accepts input whenever it was running. */
  lemma LoadedIsConsistent(s: GameState, timestamp: int)
    requires Consistent(s)
    ensures var g := LoadGame(Some(Stored(SaveGame(s, timestamp))));
      g.Some? && Consistent(g.value) && (s.gameStatus == Playing ==> Accepting(g.value))
  {
  }
}
