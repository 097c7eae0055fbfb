/**
 * What the two-pass scorer computes.
 *
 * Every green or yellow consumes one unmatched position on each side
 * (ScoreConsumesOnce), so the counts never exceed either length
 * (ScoreBound).  Green is the number of positions where guess and secret
 * agree (ScoreGreen).  The greedy, index-ordered colour pass is optimal:
 * for every colour the number of secret positions of that colour that end up
 * matched is min(#colour in secret, #colour in guess) (MatchedPerColour),
 * so green + yellow is the multiset overlap of guess and secret
 * (ScoreIsOverlap).
 */
module ScoreTheory {
  import opened Types
  import opened GameLogic

  // ---------------------------------------------------------------------
  // Counting
  // ---------------------------------------------------------------------

  function Ind(b: bool): nat { if b then 1 else 0 }

  function Min(a: int, b: int): int { if a <= b then a else b }

  /** Number of true entries of m at positions lo and above. */
  function TrueFrom(m: seq<bool>, lo: nat): nat
    decreases |m| - lo
  {
    if lo >= |m| then 0 else Ind(m[lo]) + TrueFrom(m, lo + 1)
  }

  /** Number of positions k in [lo, |s|) with m[k] == b and s[k] == c. */
  function CountIn(s: seq<Color>, m: seq<bool>, c: Color, b: bool, lo: nat): nat
    requires |m| == |s|
    decreases |s| - lo
  {
    if lo >= |s| then 0 else Ind(m[lo] == b && s[lo] == c) + CountIn(s, m, c, b, lo + 1)
  }

  lemma {:induction false} TrueFromBound(m: seq<bool>, lo: nat)
    requires lo <= |m|
    ensures TrueFrom(m, lo) <= |m| - lo
    decreases |m| - lo
  {
    if lo < |m| { TrueFromBound(m, lo + 1); }
  }

  /** Marking one unmatched position adds one to the count. */
  lemma {:induction false} TrueFromMark(m: seq<bool>, lo: nat, j: nat)
    requires j < |m| && !m[j]
    ensures TrueFrom(m[j := true], lo) == TrueFrom(m, lo) + Ind(lo <= j)
    decreases |m| - lo
  {
    if lo < |m| { TrueFromMark(m, lo + 1, j); }
  }

  /** Marking position j matched moves it, for its colour, from the
      unmatched count to the matched count; positions below lo are not
      counted at all. */
  lemma {:induction false} CountInMark(s: seq<Color>, m: seq<bool>, c: Color, lo: nat, j: nat)
    requires |m| == |s| && j < |s| && !m[j]
    ensures CountIn(s, m[j := true], c, true, lo) == CountIn(s, m, c, true, lo) + Ind(lo <= j && s[j] == c)
    ensures CountIn(s, m[j := true], c, false, lo) + Ind(lo <= j && s[j] == c) == CountIn(s, m, c, false, lo)
    decreases |s| - lo
  {
    if lo < |s| { CountInMark(s, m, c, lo + 1, j); }
  }

  lemma {:induction false} CountInZero(s: seq<Color>, m: seq<bool>, c: Color, b: bool, lo: nat)
    requires |m| == |s|
    requires forall k :: lo <= k < |s| ==> m[k] != b || s[k] != c
    ensures CountIn(s, m, c, b, lo) == 0
    decreases |s| - lo
  {
    if lo < |s| { CountInZero(s, m, c, b, lo + 1); }
  }

  /** Matched and unmatched positions of colour c together are all its
      occurrences. */
  lemma {:induction false} CountInSplit(s: seq<Color>, m: seq<bool>, c: Color, lo: nat)
    requires |m| == |s| && lo <= |s|
    ensures CountIn(s, m, c, true, lo) + CountIn(s, m, c, false, lo) == multiset(s[lo..])[c]
    decreases |s| - lo
  {
    if lo < |s| {
      CountInSplit(s, m, c, lo + 1);
      assert s[lo..] == [s[lo]] + s[lo + 1..];
    }
  }

  // ---------------------------------------------------------------------
  // Each position is consumed at most once
  // ---------------------------------------------------------------------

  /** The counts equal the number of matched positions on each side. */
  predicate Balanced(t: Tally) {
    t.green + t.yellow == TrueFrom(t.secretMatched, 0) == TrueFrom(t.guessMatched, 0)
  }

  lemma {:induction false} ExactUpToBalanced(secret: seq<Color>, g: seq<Color>, n: nat)
    requires n <= |secret|
    ensures Balanced(ExactUpTo(secret, g, n))
  {
    if n == 0 {
      var t := ExactUpTo(secret, g, 0);
      TrueFromZero(t.secretMatched, 0);
      TrueFromZero(t.guessMatched, 0);
    } else {
      ExactUpToBalanced(secret, g, n - 1);
      ExactUpToMasks(secret, g, n - 1);
      var t := ExactUpTo(secret, g, n - 1);
      if n - 1 < |g| && g[n - 1] == secret[n - 1] {
        TrueFromMark(t.secretMatched, 0, n - 1);
        TrueFromMark(t.guessMatched, 0, n - 1);
      }
    }
  }

  lemma {:induction false} TrueFromZero(m: seq<bool>, lo: nat)
    requires forall k :: lo <= k < |m| ==> !m[k]
    ensures TrueFrom(m, lo) == 0
    decreases |m| - lo
  {
    if lo < |m| { TrueFromZero(m, lo + 1); }
  }

  lemma YellowStepBalanced(secret: seq<Color>, g: seq<Color>, t: Tally, i: nat)
    requires Fits(secret, g, t) && i < |g| && Balanced(t)
    ensures Balanced(YellowStep(secret, g, t, i))
  {
    if !t.guessMatched[i] {
      match FirstUnmatched(secret, t.secretMatched, g[i], 0)
      case None =>
      case Some(j) =>
        TrueFromMark(t.secretMatched, 0, j);
        TrueFromMark(t.guessMatched, 0, i);
    }
  }

  lemma {:induction false} YellowFromBalanced(secret: seq<Color>, g: seq<Color>, t: Tally, i: nat)
    requires Fits(secret, g, t) && i <= |g| && Balanced(t)
    ensures Balanced(YellowFrom(secret, g, t, i))
    decreases |g| - i
  {
    if i < |g| {
      YellowStepBalanced(secret, g, t, i);
      YellowFromBalanced(secret, g, YellowStep(secret, g, t, i), i + 1);
    }
  }

  /** The colour pass never releases a position it finds matched. */
  lemma {:induction false} YellowFromKeepsMatches(secret: seq<Color>, g: seq<Color>, t: Tally, i: nat)
    requires Fits(secret, g, t) && i <= |g|
    ensures forall k :: 0 <= k < |secret| && t.secretMatched[k] ==> YellowFrom(secret, g, t, i).secretMatched[k]
    ensures forall k :: 0 <= k < |g| && t.guessMatched[k] ==> YellowFrom(secret, g, t, i).guessMatched[k]
    decreases |g| - i
  {
    if i < |g| {
      YellowFromKeepsMatches(secret, g, YellowStep(secret, g, t, i), i + 1);
    }
  }

  /** Every green and every yellow consumes exactly one position on each
      side, and the positions the exact pass consumed stay consumed. */
  lemma ScoreConsumesOnce(secret: seq<Color>, g: seq<Color>)
    ensures Balanced(Outcome(secret, g))
    ensures forall k :: 0 <= k < |secret| && ExactAt(secret, g, k) ==> Outcome(secret, g).secretMatched[k]
    ensures forall k :: 0 <= k < |g| && ExactAt(secret, g, k) ==> Outcome(secret, g).guessMatched[k]
  {
    var e := ExactUpTo(secret, g, |secret|);
    ExactUpToBalanced(secret, g, |secret|);
    ExactUpToMasks(secret, g, |secret|);
    YellowFromBalanced(secret, g, e, 0);
    YellowFromKeepsMatches(secret, g, e, 0);
  }

  /** green + yellow is at most the length of the secret and at most the
      number of colours in the guess. */
  lemma ScoreBound(secret: seq<Color>, guess: seq<Slot>)
    ensures Score(secret, guess).green >= 0 && Score(secret, guess).yellow >= 0
    ensures Score(secret, guess).green + Score(secret, guess).yellow <= |secret|
    ensures Score(secret, guess).green + Score(secret, guess).yellow <= |Compact(guess)|
  {
    var g := Compact(guess);
    var t := Outcome(secret, g);
    ScoreConsumesOnce(secret, g);
    TrueFromBound(t.secretMatched, 0);
    TrueFromBound(t.guessMatched, 0);
  }

  /** Green is the number of positions where guess and secret agree. */
  lemma ScoreGreen(secret: seq<Color>, guess: seq<Slot>)
    ensures Score(secret, guess).green == |ExactPositions(secret, Compact(guess), |secret|)|
  {
    ExactUpToGreen(secret, Compact(guess), |secret|);
  }

  // ---------------------------------------------------------------------
  // The score against the secret itself
  // ---------------------------------------------------------------------

  /** A guess row holding exactly the given colours. */
  function Lift(s: seq<Color>): (row: seq<Slot>)
    ensures |row| == |s| && Filled(row)
    ensures forall k :: 0 <= k < |s| ==> row[k] == Some(s[k])
  {
    seq(|s|, k requires 0 <= k < |s| => Some(s[k]))
  }

  lemma CompactLift(s: seq<Color>)
    ensures Compact(Lift(s)) == s
  {
  }

  lemma {:induction false} YellowFromAllMatched(secret: seq<Color>, g: seq<Color>, t: Tally, i: nat)
    requires Fits(secret, g, t) && i <= |g|
    requires forall k :: i <= k < |g| ==> t.guessMatched[k]
    ensures YellowFrom(secret, g, t, i) == t
    decreases |g| - i
  {
    if i < |g| {
      YellowFromAllMatched(secret, g, t, i + 1);
    }
  }

  /** A secret scored against itself: all green, no yellow. */
  lemma SelfScore(secret: seq<Color>)
    ensures Score(secret, Lift(secret)) == Feedback(|secret|, 0)
  {
    CompactLift(secret);
    var e := ExactUpTo(secret, secret, |secret|);
    ExactUpToMasks(secret, secret, |secret|);
    YellowFromAllMatched(secret, secret, e, 0);
    ExactUpToGreen(secret, secret, |secret|);
    ExactPositionsFull(secret, secret, |secret|);
  }

  /** All of the first n positions agree exactly when n of them do. */
  lemma {:induction false} ExactPositionsFull(secret: seq<Color>, g: seq<Color>, n: nat)
    ensures |ExactPositions(secret, g, n)| <= n
    ensures |ExactPositions(secret, g, n)| == n <==> forall k :: 0 <= k < n ==> ExactAt(secret, g, k)
  {
    if n > 0 {
      ExactPositionsFull(secret, g, n - 1);
      var below := ExactPositions(secret, g, n - 1);
      if ExactAt(secret, g, n - 1) {
        assert ExactPositions(secret, g, n) == below + {n - 1};
      } else {
        assert ExactPositions(secret, g, n) == below;
      }
    } else {
      assert ExactPositions(secret, g, n) == {};
    }
  }

  /** Four greens happen exactly when the complete guess is the secret. */
  lemma AllGreenIffSecret(secret: seq<Color>, guess: seq<Slot>)
    requires |guess| == |secret| && Filled(guess)
    ensures Score(secret, guess).green == |secret| <==> Compact(guess) == secret
  {
    var g := Compact(guess);
    ScoreGreen(secret, guess);
    ExactPositionsFull(secret, g, |secret|);
    if forall k :: 0 <= k < |secret| ==> ExactAt(secret, g, k) {
      forall k | 0 <= k < |g| ensures g[k] == secret[k] {
        assert ExactAt(secret, g, k);
      }
    }
  }

  // ---------------------------------------------------------------------
  // The total is the multiset overlap
  // ---------------------------------------------------------------------

  /** Secret positions of colour c that are matched. */
  function MatchedOf(secret: seq<Color>, t: Tally, c: Color): nat
    requires |t.secretMatched| == |secret|
  {
    CountIn(secret, t.secretMatched, c, true, 0)
  }

  /** The colour pass from guess position i adds, for colour c, as many
      matches as the smaller of the unmatched secret positions of colour c
      and the unmatched guess positions of colour c from i on. */
  lemma {:induction false} YellowFromPerColour(secret: seq<Color>, g: seq<Color>, t: Tally, i: nat, c: Color)
    requires Fits(secret, g, t) && i <= |g|
    ensures MatchedOf(secret, YellowFrom(secret, g, t, i), c)
         == MatchedOf(secret, t, c)
          + Min(CountIn(secret, t.secretMatched, c, false, 0), CountIn(g, t.guessMatched, c, false, i))
    decreases |g| - i
  {
    if i < |g| {
      YellowFromPerColour(secret, g, YellowStep(secret, g, t, i), i + 1, c);
      YellowStepPerColour(secret, g, t, i, c);
    }
  }

  /** One step of the colour pass keeps "matched so far + what is still
      matchable" constant for every colour. */
  lemma YellowStepPerColour(secret: seq<Color>, g: seq<Color>, t: Tally, i: nat, c: Color)
    requires Fits(secret, g, t) && i < |g|
    ensures var t' := YellowStep(secret, g, t, i);
      MatchedOf(secret, t', c) + Min(CountIn(secret, t'.secretMatched, c, false, 0), CountIn(g, t'.guessMatched, c, false, i + 1))
      == MatchedOf(secret, t, c) + Min(CountIn(secret, t.secretMatched, c, false, 0), CountIn(g, t.guessMatched, c, false, i))
  {
    if !t.guessMatched[i] {
      match FirstUnmatched(secret, t.secretMatched, g[i], 0)
      case None =>
        if g[i] == c {
          CountInZero(secret, t.secretMatched, c, false, 0);
        }
      case Some(j) =>
        ClaimPerColour(secret, g, t, i, j, c);
    }
  }

  lemma ClaimPerColour(secret: seq<Color>, g: seq<Color>, t: Tally, i: nat, j: nat, c: Color)
    requires Fits(secret, g, t) && i < |g| && j < |secret|
    requires !t.guessMatched[i] && !t.secretMatched[j] && secret[j] == g[i]
    ensures var sm := t.secretMatched[j := true];
      CountIn(secret, sm, c, true, 0) + Min(CountIn(secret, sm, c, false, 0), CountIn(g, t.guessMatched[i := true], c, false, i + 1))
      == CountIn(secret, t.secretMatched, c, true, 0) + Min(CountIn(secret, t.secretMatched, c, false, 0), CountIn(g, t.guessMatched, c, false, i))
  {
    CountInMark(secret, t.secretMatched, c, 0, j);
    CountInMark(g, t.guessMatched, c, i + 1, i);
  }

  /** After the exact pass, both sides have the same number of matched
      positions of each colour. */
  lemma {:induction false} ExactMatchedAgree(secret: seq<Color>, g: seq<Color>, sm: seq<bool>, gm: seq<bool>,
                                             c: Color, lo: nat)
    requires |sm| == |secret| && |gm| == |g|
    requires forall k :: 0 <= k < |secret| ==> sm[k] == ExactAt(secret, g, k)
    requires forall k :: 0 <= k < |g| ==> gm[k] == ExactAt(secret, g, k)
    ensures CountIn(secret, sm, c, true, lo) == CountIn(g, gm, c, true, lo)
    decreases |secret| - lo
  {
    if lo >= |secret| || lo >= |g| {
      CountInZero(secret, sm, c, true, lo);
      CountInZero(g, gm, c, true, lo);
    } else {
      ExactMatchedAgree(secret, g, sm, gm, c, lo + 1);
    }
  }

  /** For every colour, the secret positions of that colour that end up
      matched are as many as the smaller of its two occurrence counts. */
  lemma MatchedPerColour(secret: seq<Color>, g: seq<Color>, c: Color)
    ensures MatchedOf(secret, Outcome(secret, g), c) == Min(multiset(secret)[c], multiset(g)[c])
  {
    var e := ExactUpTo(secret, g, |secret|);
    ExactUpToMasks(secret, g, |secret|);
    YellowFromPerColour(secret, g, e, 0, c);
    CountInSplit(secret, e.secretMatched, c, 0);
    CountInSplit(g, e.guessMatched, c, 0);
    ExactMatchedAgree(secret, g, e.secretMatched, e.guessMatched, c, 0);
    assert secret[0..] == secret && g[0..] == g;
  }

  /** Sum over a list of colours of the matched secret positions of each. */
  function MatchedOver(secret: seq<Color>, m: seq<bool>, cs: seq<Color>, lo: nat): nat
    requires |m| == |secret|
  {
    if cs == [] then 0 else CountIn(secret, m, cs[0], true, lo) + MatchedOver(secret, m, cs[1..], lo)
  }

  /** Sum over a list of colours of the smaller occurrence count. */
  function OverlapOver(secret: seq<Color>, g: seq<Color>, cs: seq<Color>): int {
    if cs == [] then 0 else Min(multiset(secret)[cs[0]], multiset(g)[cs[0]]) + OverlapOver(secret, g, cs[1..])
  }

  /** The multiset overlap of secret and guess, colour by colour over the
      palette. */
  function Overlap(secret: seq<Color>, g: seq<Color>): int {
    OverlapOver(secret, g, COLORS)
  }

  lemma {:induction false} MatchedOverStep(secret: seq<Color>, m: seq<bool>, cs: seq<Color>, lo: nat)
    requires |m| == |secret| && lo < |secret| && PairwiseDistinct(cs)
    ensures MatchedOver(secret, m, cs, lo) == Ind(m[lo] && secret[lo] in cs) + MatchedOver(secret, m, cs, lo + 1)
  {
    if cs != [] {
      MatchedOverStep(secret, m, cs[1..], lo);
      assert cs == [cs[0]] + cs[1..];
      assert secret[lo] in cs[1..] ==> secret[lo] != cs[0];
    }
  }

  /** Summing the matched positions colour by colour over the palette counts
      every matched position once. */
  lemma {:induction false} MatchedOverPalette(secret: seq<Color>, m: seq<bool>, lo: nat)
    requires |m| == |secret|
    ensures MatchedOver(secret, m, COLORS, lo) == TrueFrom(m, lo)
    decreases |secret| - lo
  {
    PaletteIsComplete();
    if lo < |secret| {
      MatchedOverStep(secret, m, COLORS, lo);
      MatchedOverPalette(secret, m, lo + 1);
    } else {
      MatchedOverEnd(secret, m, COLORS, lo);
    }
  }

  lemma {:induction false} MatchedOverEnd(secret: seq<Color>, m: seq<bool>, cs: seq<Color>, lo: nat)
    requires |m| == |secret| && lo >= |secret|
    ensures MatchedOver(secret, m, cs, lo) == 0
  {
    if cs != [] { MatchedOverEnd(secret, m, cs[1..], lo); }
  }

  lemma {:induction false} MatchedOverOutcome(secret: seq<Color>, g: seq<Color>, cs: seq<Color>)
    ensures MatchedOver(secret, Outcome(secret, g).secretMatched, cs, 0) == OverlapOver(secret, g, cs)
  {
    if cs != [] {
      MatchedPerColour(secret, g, cs[0]);
      MatchedOverOutcome(secret, g, cs[1..]);
    }
  }

  /** green + yellow depends only on which colours occur how often: it is
      the sum over the palette of min(#colour in secret, #colour in guess). */
  lemma ScoreIsOverlap(secret: seq<Color>, guess: seq<Slot>)
    ensures Score(secret, guess).green + Score(secret, guess).yellow == Overlap(secret, Compact(guess))
  {
    var g := Compact(guess);
    var t := Outcome(secret, g);
    ScoreConsumesOnce(secret, g);
    MatchedOverPalette(secret, t.secretMatched, 0);
    MatchedOverOutcome(secret, g, COLORS);
  }

  /** The overlap only depends on how often each colour occurs in the guess. */
  lemma {:induction false} OverlapOverPermutation(secret: seq<Color>, g: seq<Color>, h: seq<Color>, cs: seq<Color>)
    requires multiset(g) == multiset(h)
    ensures OverlapOver(secret, g, cs) == OverlapOver(secret, h, cs)
  {
    if cs != [] { OverlapOverPermutation(secret, g, h, cs[1..]); }
  }

  /** Reordering the colours of a guess does not change green + yellow. */
  lemma TotalIgnoresOrder(secret: seq<Color>, guess: seq<Slot>, other: seq<Slot>)
    requires multiset(Compact(guess)) == multiset(Compact(other))
    ensures Score(secret, guess).green + Score(secret, guess).yellow
         == Score(secret, other).green + Score(secret, other).yellow
  {
    ScoreIsOverlap(secret, guess);
    ScoreIsOverlap(secret, other);
    OverlapOverPermutation(secret, Compact(guess), Compact(other), COLORS);
  }

  /** A complete guess using exactly the secret's colours scores
      green + yellow == |secret|. */
  lemma SameColoursTotal(secret: seq<Color>, guess: seq<Slot>)
    requires multiset(Compact(guess)) == multiset(secret)
    ensures Score(secret, guess).green + Score(secret, guess).yellow == |secret|
  {
    CompactLift(secret);
    SelfScore(secret);
    TotalIgnoresOrder(secret, guess, Lift(secret));
  }

  // ---------------------------------------------------------------------
  // Worked examples
  // ---------------------------------------------------------------------

  /** A row whose every slot holds the matching colour compacts to those
      colours. */
  lemma CompactFull(guess: seq<Slot>, g: seq<Color>)
    requires |guess| == |g| && forall k :: 0 <= k < |g| ==> guess[k] == Some(g[k])
    ensures Compact(guess) == g
  {
    assert guess == Lift(g);
    CompactLift(g);
  }

  /** A rotation of four different colours: no green, four yellows. */
  lemma RotationExample(secret: seq<Color>, guess: seq<Slot>)
    requires secret == [Red, Yellow, Blue, Green]
    requires guess == [Some(Green), Some(Blue), Some(Yellow), Some(Red)]
    ensures Score(secret, guess) == Feedback(0, 4)
  {
    var g := RotationFacts(secret, guess);
    ScoreGreen(secret, guess);
    SameColoursTotal(secret, guess);
  }

  lemma RotationFacts(secret: seq<Color>, guess: seq<Slot>) returns (g: seq<Color>)
    requires secret == [Red, Yellow, Blue, Green]
    requires guess == [Some(Green), Some(Blue), Some(Yellow), Some(Red)]
    ensures g == Compact(guess) && ExactPositions(secret, g, 4) == {} && multiset(g) == multiset(secret)
  {
    g := [Green, Blue, Yellow, Red];
    CompactFull(guess, g);
    RotationNoExact(secret, g);
    MultisetOfFour(Green, Blue, Yellow, Red);
    MultisetOfFour(Red, Yellow, Blue, Green);
  }

  lemma RotationNoExact(secret: seq<Color>, g: seq<Color>)
    requires secret == [Red, Yellow, Blue, Green] && g == [Green, Blue, Yellow, Red]
    ensures ExactPositions(secret, g, 4) == {}
  {
    assert !ExactAt(secret, g, 0) && !ExactAt(secret, g, 1) && !ExactAt(secret, g, 2) && !ExactAt(secret, g, 3);
  }

  lemma MultisetOfFour<T>(a: T, b: T, c: T, d: T)
    ensures multiset([a, b, c, d]) == multiset{a} + multiset{b} + multiset{c} + multiset{d}
  {
    assert [a, b, c, d] == [a, b, c] + [d];
    assert [a, b, c] == [a, b] + [c];
    assert [a, b] == [a] + [b];
  }

  /** Repeated red in the secret: one green at position 0, and the second
      red of the guess still finds the second red of the secret. */
  lemma RepeatedColourExample(secret: seq<Color>, guess: seq<Slot>)
    requires secret == [Red, Red, Blue, Green]
    requires guess == [Some(Red), Some(Blue), Some(Red), Some(Yellow)]
    ensures Score(secret, guess) == Feedback(1, 2)
  {
    var g := RepeatedFacts(secret, guess);
    ScoreGreen(secret, guess);
    ScoreIsOverlap(secret, guess);
    RepeatedOverlap(secret, g);
  }

  lemma RepeatedFacts(secret: seq<Color>, guess: seq<Slot>) returns (g: seq<Color>)
    requires secret == [Red, Red, Blue, Green]
    requires guess == [Some(Red), Some(Blue), Some(Red), Some(Yellow)]
    ensures g == Compact(guess) && g == [Red, Blue, Red, Yellow] && ExactPositions(secret, g, 4) == {0}
  {
    g := [Red, Blue, Red, Yellow];
    CompactFull(guess, g);
    assert ExactAt(secret, g, 0) && !ExactAt(secret, g, 1) && !ExactAt(secret, g, 2) && !ExactAt(secret, g, 3);
  }

  lemma RepeatedOverlap(secret: seq<Color>, g: seq<Color>)
    requires secret == [Red, Red, Blue, Green] && g == [Red, Blue, Red, Yellow]
    ensures Overlap(secret, g) == 3
  {
    MultisetOfFour(Red, Red, Blue, Green);
    MultisetOfFour(Red, Blue, Red, Yellow);
    var ms, mg := multiset(secret), multiset(g);
    assert ms[Red] == 2 && ms[Yellow] == 0 && ms[Blue] == 1 && ms[Green] == 1;
    assert ms[Purple] == 0 && ms[Orange] == 0 && ms[Cyan] == 0;
    assert mg[Red] == 2 && mg[Yellow] == 1 && mg[Blue] == 1 && mg[Green] == 0;
    OverlapTail(secret, g);
  }

  lemma OverlapTail(secret: seq<Color>, g: seq<Color>)
    requires multiset(secret)[Red] == 2 && multiset(secret)[Yellow] == 0
    requires multiset(secret)[Blue] == 1 && multiset(secret)[Green] == 1
    requires multiset(secret)[Purple] == 0 && multiset(secret)[Orange] == 0 && multiset(secret)[Cyan] == 0
    requires multiset(g)[Red] == 2 && multiset(g)[Blue] == 1 && multiset(g)[Green] == 0
    ensures Overlap(secret, g) == 3
  {
    var cs := COLORS;
    assert OverlapOver(secret, g, cs[7..]) == 0;
    assert OverlapOver(secret, g, cs[6..]) == 0;
    assert OverlapOver(secret, g, cs[5..]) == 0;
    assert OverlapOver(secret, g, cs[4..]) == 0;
    assert OverlapOver(secret, g, cs[3..]) == 0;
    assert OverlapOver(secret, g, cs[2..]) == 1;
    assert OverlapOver(secret, g, cs[1..]) == 1;
    assert OverlapOver(secret, g, cs[0..]) == 3;
  }
}
