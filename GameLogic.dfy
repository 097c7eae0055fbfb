/**
 * The feedback scorer and the secret generator.
 *
 * The scorer runs two passes over boolean "matched" arrays, one per side.
 * The exact pass counts greens; the colour pass then lets every unmatched
 * guess position, in ascending order, claim the first unmatched secret
 * position of its colour.  The functions below state those two passes one
 * step at a time; CalculateFeedback is the loop version and is proved equal
 * to them.
 */
module GameLogic {
  import opened Types

  // ---------------------------------------------------------------------
  // Specification of the scorer
  // ---------------------------------------------------------------------

  /** The guess with its empty slots dropped, order kept. */
  function Compact(guess: seq<Slot>): (g: seq<Color>)
    ensures |g| <= |guess|
    ensures Filled(guess) ==> |g| == |guess| && forall k :: 0 <= k < |g| ==> guess[k] == Some(g[k])
  {
    if guess == [] then []
    else match guess[0]
      case None => Compact(guess[1..])
      case Some(c) => [c] + Compact(guess[1..])
  }

  /** Running counts and the two "matched" arrays of the scorer. */
  datatype Tally = Tally(green: nat, yellow: nat, secretMatched: seq<bool>, guessMatched: seq<bool>)

  /** The matched arrays have one entry per secret and per guess position. */
  predicate Fits(secret: seq<Color>, g: seq<Color>, t: Tally) {
    |t.secretMatched| == |secret| && |t.guessMatched| == |g|
  }

  function Falses(n: nat): (m: seq<bool>)
    ensures |m| == n && forall k :: 0 <= k < n ==> !m[k]
  {
    seq(n, _ => false)
  }

  /** Position k holds the same colour in the guess and in the secret. */
  predicate ExactAt(secret: seq<Color>, g: seq<Color>, k: int) {
    0 <= k < |secret| && k < |g| && g[k] == secret[k]
  }

  /** The positions below n where guess and secret agree. */
  function ExactPositions(secret: seq<Color>, g: seq<Color>, n: int): set<int> {
    set k | 0 <= k < n && ExactAt(secret, g, k)
  }

  /** One step of the exact pass, at secret position i. */
  function ExactStep(secret: seq<Color>, g: seq<Color>, t: Tally, i: nat): (r: Tally)
    requires Fits(secret, g, t) && i < |secret|
    ensures Fits(secret, g, r) && r.yellow == t.yellow
  {
    if i < |g| && g[i] == secret[i] then
      Tally(t.green + 1, t.yellow, t.secretMatched[i := true], t.guessMatched[i := true])
    else
      t
  }

  /** The exact pass after its first n steps. */
  function ExactUpTo(secret: seq<Color>, g: seq<Color>, n: nat): (t: Tally)
    requires n <= |secret|
    ensures Fits(secret, g, t) && t.yellow == 0
  {
    if n == 0 then Tally(0, 0, Falses(|secret|), Falses(|g|))
    else ExactStep(secret, g, ExactUpTo(secret, g, n - 1), n - 1)
  }

  /** After n steps of the exact pass a position is matched, on either side,
      exactly when it is below n and guess and secret agree there. */
  lemma {:induction false} ExactUpToMasks(secret: seq<Color>, g: seq<Color>, n: nat)
    requires n <= |secret|
    ensures forall k :: 0 <= k < |secret| ==> ExactUpTo(secret, g, n).secretMatched[k] == (k < n && ExactAt(secret, g, k))
    ensures forall k :: 0 <= k < |g| ==> ExactUpTo(secret, g, n).guessMatched[k] == (k < n && ExactAt(secret, g, k))
  {
    if n > 0 {
      ExactUpToMasks(secret, g, n - 1);
    }
  }

  /** Green counts the positions where guess and secret agree. */
  lemma {:induction false} ExactUpToGreen(secret: seq<Color>, g: seq<Color>, n: nat)
    requires n <= |secret|
    ensures ExactUpTo(secret, g, n).green == |ExactPositions(secret, g, n)|
  {
    if n > 0 {
      ExactUpToGreen(secret, g, n - 1);
      var below := ExactPositions(secret, g, n - 1);
      if ExactAt(secret, g, n - 1) {
        assert ExactPositions(secret, g, n) == below + {n - 1};
      } else {
        assert ExactPositions(secret, g, n) == below;
      }
    }
  }

  /** The first secret position at or after j that is unmatched and holds c. */
  function FirstUnmatched(secret: seq<Color>, matched: seq<bool>, c: Color, j: nat): (r: Option<nat>)
    requires |matched| == |secret| && j <= |secret|
    decreases |secret| - j
    ensures r.Some? ==> j <= r.value < |secret| && !matched[r.value] && secret[r.value] == c
    ensures r.Some? ==> forall k :: j <= k < r.value ==> matched[k] || secret[k] != c
    ensures r.None? ==> forall k :: j <= k < |secret| ==> matched[k] || secret[k] != c
  {
    if j == |secret| then None
    else if !matched[j] && secret[j] == c then Some(j)
    else FirstUnmatched(secret, matched, c, j + 1)
  }

  /** One step of the colour pass, at guess position i. */
  function YellowStep(secret: seq<Color>, g: seq<Color>, t: Tally, i: nat): (r: Tally)
    requires Fits(secret, g, t) && i < |g|
    ensures Fits(secret, g, r) && r.green == t.green
  {
    if t.guessMatched[i] then t
    else match FirstUnmatched(secret, t.secretMatched, g[i], 0)
      case None => t
      case Some(j) => Tally(t.green, t.yellow + 1, t.secretMatched[j := true], t.guessMatched[i := true])
  }

  /** The colour pass from guess position i to the end. */
  function YellowFrom(secret: seq<Color>, g: seq<Color>, t: Tally, i: nat): (r: Tally)
    requires Fits(secret, g, t) && i <= |g|
    decreases |g| - i
    ensures Fits(secret, g, r) && r.green == t.green && r.yellow >= t.yellow
  {
    if i == |g| then t
    else YellowFrom(secret, g, YellowStep(secret, g, t, i), i + 1)
  }

  /** Both passes over a guess whose empty slots have been dropped. */
  function Outcome(secret: seq<Color>, g: seq<Color>): (t: Tally)
    ensures Fits(secret, g, t)
  {
    YellowFrom(secret, g, ExactUpTo(secret, g, |secret|), 0)
  }

  /** The feedback the scorer gives for a guess. */
  function Score(secret: seq<Color>, guess: seq<Slot>): Feedback {
    var t := Outcome(secret, Compact(guess));
    Feedback(t.green, t.yellow)
  }

  // ---------------------------------------------------------------------
  // The scorer
  // ---------------------------------------------------------------------

  /** The scorer: two passes over a pair of fresh "matched" arrays. */
  method CalculateFeedback(secret: seq<Color>, guess: seq<Slot>) returns (feedback: Feedback)
    ensures feedback == Score(secret, guess)
  {
    var validGuess := Compact(guess);
    var secretMatched := new bool[|secret|](_ => false);
    var guessMatched := new bool[|validGuess|](_ => false);
    assert secretMatched[..] == Falses(|secret|) && guessMatched[..] == Falses(|validGuess|);
    var green := ExactPass(secret, validGuess, secretMatched, guessMatched);
    var yellow := ColourPass(secret, validGuess, secretMatched, guessMatched, green);
    feedback := Feedback(green, yellow);
  }

  /** The first pass: every position where guess and secret agree is
      counted green and marked matched on both sides. */
  method ExactPass(secret: seq<Color>, validGuess: seq<Color>, secretMatched: array<bool>, guessMatched: array<bool>)
    returns (green: nat)
    requires secretMatched != guessMatched
    requires secretMatched[..] == Falses(|secret|) && guessMatched[..] == Falses(|validGuess|)
    modifies secretMatched, guessMatched
    ensures Tally(green, 0, secretMatched[..], guessMatched[..]) == ExactUpTo(secret, validGuess, |secret|)
  {
    green := 0;
    ghost var t := Tally(0, 0, secretMatched[..], guessMatched[..]);
    for i := 0 to |secret|
      invariant t == Tally(green, 0, secretMatched[..], guessMatched[..])
      invariant t == ExactUpTo(secret, validGuess, i)
    {
      if i < |validGuess| && validGuess[i] == secret[i] {
        green := green + 1;
        secretMatched[i] := true;
        guessMatched[i] := true;
      }
      t := ExactStep(secret, validGuess, t, i);
      assert t.secretMatched == secretMatched[..];
      assert t.guessMatched == guessMatched[..];
    }
  }

  /** The second pass: each guess position not yet matched, in ascending
      order, scans the secret from the left, skips matched positions, and
      claims the first one of its colour, which ends the scan. */
  method ColourPass(secret: seq<Color>, validGuess: seq<Color>, secretMatched: array<bool>, guessMatched: array<bool>,
                    green: nat)
    returns (yellow: nat)
    requires secretMatched != guessMatched
    requires secretMatched.Length == |secret| && guessMatched.Length == |validGuess|
    modifies secretMatched, guessMatched
    ensures Tally(green, yellow, secretMatched[..], guessMatched[..])
         == YellowFrom(secret, validGuess, Tally(green, 0, old(secretMatched[..]), old(guessMatched[..])), 0)
  {
    yellow := 0;
    ghost var t := Tally(green, 0, secretMatched[..], guessMatched[..]);
    ghost var outcome := YellowFrom(secret, validGuess, t, 0);
    for i := 0 to |validGuess|
      invariant t == Tally(green, yellow, secretMatched[..], guessMatched[..])
      invariant Fits(secret, validGuess, t)
      invariant YellowFrom(secret, validGuess, t, i) == outcome
    {
      if guessMatched[i] {
        assert YellowStep(secret, validGuess, t, i) == t;
        continue;
      }
      var j := 0;
      while j < |secret|
        invariant 0 <= j <= |secret|
        invariant t == Tally(green, yellow, secretMatched[..], guessMatched[..])
        invariant FirstUnmatched(secret, t.secretMatched, validGuess[i], 0)
               == FirstUnmatched(secret, t.secretMatched, validGuess[i], j)
      {
        if secretMatched[j] {
          j := j + 1;
          continue;
        }
        if validGuess[i] == secret[j] {
          yellow := yellow + 1;
          secretMatched[j] := true;
          guessMatched[i] := true;
          break;
        }
        j := j + 1;
      }
      t := YellowStep(secret, validGuess, t, i);
      assert t.secretMatched == secretMatched[..];
      assert t.guessMatched == guessMatched[..];
    }
  }

  // ---------------------------------------------------------------------
  // The secret generator
  // ---------------------------------------------------------------------

  /** Number of the first level whose secret may repeat a colour. */
  const REPEAT_LEVEL := 11

  /** Stand-in for the random source: the permutation of palette positions
      that the random-comparator sort applies, and the four palette indices
      drawn one at a time. */
  datatype Oracle = Oracle(order: seq<int>, picks: seq<int>)

  /** What the random source can produce: a permutation of the seven palette
      positions, and four indices in [0, 7). */
  predicate ValidOracle(o: Oracle) {
    && |o.order| == |COLORS|
    && (forall k :: 0 <= k < |o.order| ==> 0 <= o.order[k] < |COLORS|)
    && PairwiseDistinct(o.order)
    && |o.picks| == 4
    && (forall k :: 0 <= k < 4 ==> 0 <= o.picks[k] < |COLORS|)
  }

  /** The palette as the sort leaves it. */
  function Shuffled(o: Oracle): (s: seq<Color>)
    requires ValidOracle(o)
    ensures |s| == |COLORS|
  {
    seq(|COLORS|, k requires 0 <= k < |COLORS| => COLORS[o.order[k]])
  }

  /** The shuffled palette lists seven different colours. */
  lemma ShuffledIsDistinct(o: Oracle)
    requires ValidOracle(o)
    ensures PairwiseDistinct(Shuffled(o))
  {
    var s := Shuffled(o);
    PaletteIsComplete();
    forall i, j | 0 <= i < j < |s| ensures s[i] != s[j] {
      assert o.order[i] != o.order[j];
    }
  }

  /** The secret the generator returns for a level and a random draw: four
      palette colours, pairwise different below REPEAT_LEVEL, the four picks
      from REPEAT_LEVEL on. */
  function SecretFor(level: int, o: Oracle): (secret: seq<Color>)
    requires ValidOracle(o)
    ensures |secret| == 4 && forall k :: 0 <= k < 4 ==> secret[k] in COLORS
    ensures level < REPEAT_LEVEL ==> PairwiseDistinct(secret)
    ensures level >= REPEAT_LEVEL ==> forall k :: 0 <= k < 4 ==> secret[k] == COLORS[o.picks[k]]
  {
    PaletteIsComplete();
    if level < REPEAT_LEVEL then
      ShuffledIsDistinct(o);
      Shuffled(o)[..4]
    else seq(4, k requires 0 <= k < 4 => COLORS[o.picks[k]])
  }

  /** For a low level, the first four colours of the shuffled palette; from
      REPEAT_LEVEL on, four independent picks. */
  method GenerateSecret(level: int, o: Oracle) returns (secret: seq<Color>)
    requires ValidOracle(o)
    ensures secret == SecretFor(level, o)
    ensures |secret| == 4 && forall k :: 0 <= k < 4 ==> secret[k] in COLORS
    ensures level < REPEAT_LEVEL ==> PairwiseDistinct(secret)
    ensures level >= REPEAT_LEVEL ==> forall k :: 0 <= k < 4 ==> secret[k] == COLORS[o.picks[k]]
  {
    secret := [];
    if level < REPEAT_LEVEL {
      var shuffled := Shuffled(o);
      secret := secret + shuffled[..4];
      ShuffledIsDistinct(o);
    } else {
      for i := 0 to 4
        invariant |secret| == i
        invariant forall k :: 0 <= k < i ==> secret[k] == COLORS[o.picks[k]]
      {
        var randomIndex := o.picks[i];
        secret := secret + [COLORS[randomIndex]];
      }
    }
    PaletteIsComplete();
  }
}
