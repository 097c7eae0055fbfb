/**
 * The data model of the puzzle: the seven-colour palette, a guess with its
 * feedback, the game state and the record that is saved between sessions.
 */
module Types {

  datatype Option<T> = None | Some(value: T) {
    function GetOr(default: T): T {
      match this
      case Some(v) => v
      case None => default
    }
  }

  /** One of the seven symbolic colours of the palette. */
  datatype Color = Red | Yellow | Blue | Green | Purple | Orange | Cyan

  /** The palette, in the order the game lists it. */
  const COLORS: seq<Color> := [Red, Yellow, Blue, Green, Purple, Orange, Cyan]

  /** An input slot: empty, or holding one colour. */
  type Slot = Option<Color>

  /** The two feedback counts: right colour in the right place (green) and
      right colour in the wrong place (yellow). */
  datatype Feedback = Feedback(green: int, yellow: int)

  /** One submitted attempt, as it is kept in the history. */
  datatype Guess = Guess(colors: seq<Slot>, feedback: Feedback)

  datatype Status = Playing | Won | Lost

  datatype GameState = GameState(
    level: int,
    secret: seq<Color>,
    history: seq<Guess>,
    currentInput: seq<Slot>,
    currentSlotIndex: int,
    gameStatus: Status,
    isVerifying: bool)

  /** The record that is written to storage; it has no verifying flag and
      carries the time of saving instead. */
  datatype SaveData = SaveData(
    level: int,
    secret: seq<Color>,
    history: seq<Guess>,
    currentInput: seq<Slot>,
    currentSlotIndex: int,
    gameStatus: Status,
    timestamp: int)

  /** Every slot holds a colour. */
  predicate Filled(input: seq<Slot>) {
    forall k :: 0 <= k < |input| ==> input[k].Some?
  }

  /** The four empty slots of a fresh input row. */
  const EMPTY_INPUT: seq<Slot> := [None, None, None, None]

  predicate PairwiseDistinct<T(==)>(s: seq<T>) {
    forall i, j :: 0 <= i < j < |s| ==> s[i] != s[j]
  }

  /** The palette lists seven different colours, and every colour is in it. */
  lemma PaletteIsComplete()
    ensures |COLORS| == 7 && PairwiseDistinct(COLORS)
    ensures forall c: Color :: c in COLORS
  {
    forall c: Color ensures c in COLORS {
      match c
      case Red => assert COLORS[0] == c;
      case Yellow => assert COLORS[1] == c;
      case Blue => assert COLORS[2] == c;
      case Green => assert COLORS[3] == c;
      case Purple => assert COLORS[4] == c;
      case Orange => assert COLORS[5] == c;
      case Cyan => assert COLORS[6] == c;
    }
  }
}
