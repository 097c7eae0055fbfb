/**
 * The hook that holds the game: the state restored at start-up, one method
 * per action the interface calls, and the callbacks that the verify action
 * schedules and that later deliver the feedback.
 *
 * A scheduled callback captures the secret and the row at the time of the
 * verify call; the feedback is computed from those when it fires.  Timer
 * callbacks fire in the order they were scheduled, and TimerFires is the
 * oldest one firing.
 */
module GameHook {
  import opened Types
  import opened GameLogic
  import opened GameEngine

  /** A scheduled completion: what the verify call captured. */
  datatype Timer = Timer(secret: seq<Color>, input: seq<Slot>)

  /** The state at start-up: the restored game, or a fresh level-1 game. */
  function Boot(saved: Option<StoredRecord>, o: Oracle): (s: GameState)
    requires ValidOracle(o)
    ensures !s.isVerifying
  {
    match LoadGame(saved)
    case Some(g) => g
    case None => CreateInitialState(1, None, o)
  }

  /** Starting with nothing stored gives a fresh level-1 game; starting
      from a record saved from a game reached by playing gives that game
      back, not verifying, and consistent. */
  lemma BootCases(saved: Option<StoredRecord>, t: GameState, timestamp: int, o: Oracle)
    requires ValidOracle(o)
    ensures saved.None? ==> Boot(saved, o) == CreateInitialState(1, None, o) && Consistent(Boot(saved, o))
    ensures saved == Some(Stored(SaveGame(t, timestamp))) && Consistent(t) ==>
              Boot(saved, o) == t.(isVerifying := false) && Consistent(Boot(saved, o))
  {
    FreshIsConsistent(1, None, o);
    if saved == Some(Stored(SaveGame(t, timestamp))) && Consistent(t) {
      LoadedIsConsistent(t, timestamp);
    }
  }

  class GameSession {
    /** The reducer's state. */
    var state: GameState
    /** Completions scheduled and not yet delivered, oldest first. */
    var pending: seq<Timer>

    /** The session as the interface is meant to drive it: the state is
        consistent, exactly one completion is pending while a verification runs
        and none otherwise, and it carries the row being verified. */
    predicate Valid()
      reads this
    {
      && Consistent(state)
      && |pending| == (if state.isVerifying then 1 else 0)
      && (pending != [] ==> pending[0] == Timer(state.secret, state.currentInput))
    }

    constructor (saved: Option<StoredRecord>, o: Oracle)
      requires ValidOracle(o)
      ensures state == Boot(saved, o) && pending == []
      ensures Consistent(state) ==> Valid()
    {
      state := Boot(saved, o);
      pending := [];
    }

    /** SELECT_COLOR; the row is updated through a local copy. */
    method SelectColor(c: Color, o: Oracle)
      requires ValidOracle(o) && Admissible(state, Action.SelectColor(c))
      modifies this
      ensures state == GameReducer(old(state), Action.SelectColor(c), o) && pending == old(pending)
      ensures old(Valid()) ==> Valid()
    {
      if Accepting(state) {
        var newInput := PlaceColor(state.currentInput, state.currentSlotIndex, c);
        state := state.(currentInput := newInput, currentSlotIndex := NextSlot(state.currentSlotIndex));
      }
      if old(Valid()) {
        ReducerPreservesConsistent(old(state), Action.SelectColor(c), o);
      }
    }

    /** SET_SLOT. */
    method SetSlot(index: int, o: Oracle)
      requires ValidOracle(o) && 0 <= index < 4
      modifies this
      ensures state == GameReducer(old(state), Action.SetSlot(index), o) && pending == old(pending)
      ensures old(Valid()) ==> Valid()
    {
      if Accepting(state) {
        state := state.(currentSlotIndex := index);
      }
    }

    /** CLEAR_SLOT; the row is updated through a local copy. */
    method ClearSlot(index: int, o: Oracle)
      requires ValidOracle(o) && 0 <= index < 4 && Admissible(state, Action.ClearSlot(index))
      modifies this
      ensures state == GameReducer(old(state), Action.ClearSlot(index), o) && pending == old(pending)
      ensures old(Valid()) ==> Valid()
    {
      if Accepting(state) {
        var newInput := EmptySlot(state.currentInput, index);
        assert newInput == state.currentInput[index := None];
        state := state.(currentInput := newInput, currentSlotIndex := index);
      }
    }

    /** CLEAR_ALL. */
    method ClearAll(o: Oracle)
      requires ValidOracle(o)
      modifies this
      ensures state == GameReducer(old(state), Action.ClearAll, o) && pending == old(pending)
      ensures old(Valid()) ==> Valid()
    {
      state := GameReducer(state, Action.ClearAll, o);
    }

    /** The verify action: nothing unless all four slots are filled;
        otherwise VERIFY is dispatched and a completion is scheduled with the
        secret and row of this moment, whether or not VERIFY was accepted. */
    method Verify(o: Oracle)
      requires ValidOracle(o)
      modifies this
      ensures !Filled(old(state).currentInput) ==> state == old(state) && pending == old(pending)
      ensures Filled(old(state).currentInput) ==>
                state == GameReducer(old(state), Action.Verify, o)
                && pending == old(pending) + [Timer(old(state).secret, old(state).currentInput)]
      ensures old(Valid()) && CanVerify(old(state)) ==> Valid() && state.isVerifying
    {
      if !Filled(state.currentInput) {
        return;
      }
      var captured := Timer(state.secret, state.currentInput);
      state := GameReducer(state, Action.Verify, o);
      pending := pending + [captured];
    }

    /** The oldest scheduled completion fires: the feedback is computed from
        what it captured and VERIFY_COMPLETE is dispatched with it.  In a
        valid session that records the row being verified, scored against
        the current secret. */
    method TimerFires(o: Oracle)
      requires ValidOracle(o) && pending != []
      modifies this
      ensures state == GameReducer(old(state), VerifyComplete(Score(old(pending)[0].secret, old(pending)[0].input)), o)
      ensures pending == old(pending)[1..]
      ensures old(Valid()) ==>
                Valid()
                && state.history == old(state).history + [Guess(old(state).currentInput, Score(old(state).secret, old(state).currentInput))]
    {
      var captured := pending[0];
      pending := pending[1..];
      var feedback := CalculateFeedback(captured.secret, captured.input);
      state := GameReducer(state, VerifyComplete(feedback), o);
    }

    /** NEXT_LEVEL.  The new level's game is consistent, so the session is
        valid exactly when no completion is left pending. */
    method NextLevel(o: Oracle)
      requires ValidOracle(o)
      modifies this
      ensures state == GameReducer(old(state), Action.NextLevel, o) && pending == old(pending)
      ensures Valid() <==> pending == []
      ensures old(Valid()) && !old(state).isVerifying ==> Valid()
    {
      state := GameReducer(state, Action.NextLevel, o);
      FreshIsConsistent(old(state).level + 1, None, o);
    }

    /** RETRY_LEVEL.  When the secret kept has four colours the replayed
        game is consistent, so the session is valid exactly when no
        completion is left pending. */
    method RetryLevel(o: Oracle)
      requires ValidOracle(o)
      modifies this
      ensures state == GameReducer(old(state), Action.RetryLevel, o) && pending == old(pending)
      ensures |old(state).secret| == 4 ==> (Valid() <==> pending == [])
      ensures old(Valid()) && !old(state).isVerifying ==> Valid()
    {
      state := GameReducer(state, Action.RetryLevel, o);
      if |old(state).secret| == 4 {
        FreshIsConsistent(old(state).level, Some(old(state).secret), o);
      }
    }

    /** RESET_GAME.  A completion scheduled before the reset stays pending,
        and then the session is no longer valid. */
    method ResetGame(o: Oracle)
      requires ValidOracle(o)
      modifies this
      ensures state == GameReducer(old(state), Action.ResetGame, o) && pending == old(pending)
      ensures Valid() <==> pending == []
      ensures old(Valid()) && !old(state).isVerifying ==> Valid()
      ensures old(Valid()) && old(state).isVerifying ==> |pending| == 1 && !state.isVerifying && !Valid()
    {
      state := GameReducer(state, Action.ResetGame, o);
      FreshIsConsistent(1, None, o);
    }
  }

  /** The hook as evidently intended: the new-level, retry and reset actions
      also cancel the completion still scheduled (the clearTimeout the hook
      lacks), so a completion is only ever delivered to the game whose row it
      captured.  The other actions are the session's own. */
  class CancellingSession {
    const session: GameSession

    predicate Valid()
      reads this, session
    {
      session.Valid()
    }

    constructor (saved: Option<StoredRecord>, o: Oracle)
      requires ValidOracle(o)
      ensures session.state == Boot(saved, o) && session.pending == []
      ensures Consistent(session.state) ==> Valid()
    {
      session := new GameSession(saved, o);
    }

    /** NEXT_LEVEL, then the scheduled completion is cancelled. */
    method NextLevel(o: Oracle)
      requires ValidOracle(o)
      modifies session
      ensures session.state == GameReducer(old(session.state), Action.NextLevel, o)
      ensures session.pending == []
      ensures Valid()
    {
      session.NextLevel(o);
      session.pending := [];
    }

    /** RETRY_LEVEL, then the scheduled completion is cancelled. */
    method RetryLevel(o: Oracle)
      requires ValidOracle(o)
      modifies session
      ensures session.state == GameReducer(old(session.state), Action.RetryLevel, o)
      ensures session.pending == []
      ensures |old(session.state).secret| == 4 ==> Valid()
    {
      session.RetryLevel(o);
      session.pending := [];
      if |old(session.state).secret| == 4 {
        FreshIsConsistent(old(session.state).level, Some(old(session.state).secret), o);
      }
    }

    /** RESET_GAME, then the scheduled completion is cancelled, so a
        verification under way can no longer complete the fresh game. */
    method ResetGame(o: Oracle)
      requires ValidOracle(o)
      modifies session
      ensures session.state == GameReducer(old(session.state), Action.ResetGame, o)
      ensures session.pending == []
      ensures Valid()
    {
      session.ResetGame(o);
      session.pending := [];
    }
  }
}
