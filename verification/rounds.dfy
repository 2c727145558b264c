/**
  Runs of presses within one round: the order 1..9 wins, each star absorbs
  one wrong press, and a finished round takes no more presses.
 */
module Rounds {
  import opened Board
  import opened Game

  /** The round after pressing the given values in order. */
  function Play(g: Game, taps: seq<int>): (r: Game)
    decreases |taps|
  {
    if |taps| == 0 then g
    else Play(Step(g, taps[0]).0, taps[1..])
  }

  /** Any run of presses keeps the round invariant, the board layout and the sequence. */
  lemma {:induction false} PlayPreservesValid(g: Game, taps: seq<int>)
    requires Valid(g)
    ensures Valid(Play(g, taps))
    ensures SameLayout(Play(g, taps).buttons, g.buttons)
    ensures Play(g, taps).sequence == g.sequence
    decreases |taps|
  {
    if |taps| > 0 {
      var g' := Step(g, taps[0]).0;
      StepPreservesValid(g, taps[0]);
      PlayPreservesValid(g', taps[1..]);
    }
  }

  /** from, from + 1, ..., from + n - 1. */
  function Ascending(from: int, n: nat): (s: seq<int>)
    ensures |s| == n
    ensures forall t :: 0 <= t < n ==> s[t] == from + t
  {
    seq(n, t => from + t)
  }

  lemma {:induction false} PlayAppend(g: Game, a: seq<int>, b: seq<int>)
    ensures Play(g, a + b) == Play(Play(g, a), b)
    decreases |a|
  {
    if |a| == 0 {
      assert a + b == b;
    } else {
      assert (a + b)[0] == a[0];
      assert (a + b)[1..] == a[1..] + b;
      PlayAppend(Step(g, a[0]).0, a[1..], b);
    }
  }

  /** The values whose press was accepted during a run, in the order pressed. */
  function AcceptedValues(g: Game, taps: seq<int>): (s: seq<int>)
    decreases |taps|
  {
    if |taps| == 0 then []
    else
      var (g', o) := Step(g, taps[0]);
      (if IsCorrect(o) then [taps[0]] else []) + AcceptedValues(g', taps[1..])
  }

  /**
    Over any run of presses the accepted values are exactly the expected
    value and its successors, each once and in ascending order, up to where
    the run leaves the expected value; so no value is ever accepted twice.
   */
  lemma {:induction false} AcceptedAreConsecutive(g: Game, taps: seq<int>)
    ensures Play(g, taps).expected >= g.expected
    ensures AcceptedValues(g, taps) == Ascending(g.expected, Play(g, taps).expected - g.expected)
    decreases |taps|
  {
    if |taps| > 0 {
      var g' := Step(g, taps[0]).0;
      var o := Step(g, taps[0]).1;
      var rest := taps[1..];
      assert Play(g, taps) == Play(g', rest);
      assert AcceptedValues(g, taps) == (if IsCorrect(o) then [taps[0]] else []) + AcceptedValues(g', rest);
      StepExpected(g, taps[0]);
      AcceptedAreConsecutive(g', rest);
      if IsCorrect(o) {
        AscendingCons(g.expected, Play(g', rest).expected - g'.expected);
      }
    }
  }

  /** A finished round ignores every further press. */
  lemma {:induction false} FinishedIgnoresTaps(g: Game, taps: seq<int>)
    requires !g.phase.Playing?
    ensures Play(g, taps) == g
    decreases |taps|
  {
    if |taps| > 0 {
      FinishedIgnoresTaps(g, taps[1..]);
    }
  }

  /** A correct press before 9 opens or continues the round and keeps the record. */
  lemma {:induction false} PressShortOfNine(g: Game)
    requires Valid(g) && g.phase == Playing && g.expected < MaxValue
    ensures var g' := Step(g, g.expected).0;
      && Valid(g')
      && g'.expected == g.expected + 1
      && g'.phase == Playing
      && g'.started
      && g'.profile == g.profile
  {
    CorrectTap(g);
    StepPreservesValid(g, g.expected);
  }

  /**
    Pressing the next n expected values, short of the last, advances the
    expected value by n and touches neither the record nor the phase.
   */
  lemma {:induction false} PlayAscending(g: Game, n: nat)
    requires Valid(g) && g.phase == Playing
    requires g.expected + n <= MaxValue
    ensures var r := Play(g, Ascending(g.expected, n));
      && r.expected == g.expected + n
      && r.phase == Playing
      && r.profile == g.profile
      && r.started == (g.started || n > 0)
    decreases n
  {
    if n > 0 {
      var taps := Ascending(g.expected, n);
      var g' := Step(g, g.expected).0;
      PressShortOfNine(g);
      AscendingCons(g.expected, n - 1);
      assert taps[0] == g.expected && taps[1..] == Ascending(g'.expected, n - 1);
      PlayAscending(g', n - 1);
    }
  }

  /**
    From a fresh round, pressing 1..9 in order wins: the expected value
    reaches 10, the streak grows by one, and one game and one win are
    counted; the stars are untouched.
   */
  lemma {:induction false} InOrderWins(g: Game)
    requires Fresh(g)
    ensures var r := Play(g, Ascending(1, MaxValue));
      && r.phase == Finished(true)
      && r.expected == MaxValue + 1
      && r.profile == g.profile.(streak := g.profile.streak + 1,
                                 games := g.profile.games + 1,
                                 wins := g.profile.wins + 1)
  {
    var g8 := Play(g, Ascending(1, MaxValue - 1));
    InOrderSplit(g);
    ShortOfNineKeepsRecord(g);
    LastPressWins(g8);
    assert Play(g, Ascending(1, MaxValue)) == Play(g8, [MaxValue]);
  }

  /** Pressing 1..9 is pressing 1..8, then 9. */
  lemma {:induction false} InOrderSplit(g: Game)
    ensures Play(g, Ascending(1, MaxValue)) == Play(Play(g, Ascending(1, MaxValue - 1)), [MaxValue])
  {
    AscendingSnoc(1, MaxValue - 1);
    PlayAppend(g, Ascending(1, MaxValue - 1), [MaxValue]);
  }

  /** From a fresh round, pressing 1..8 leaves a valid round expecting 9, record untouched. */
  lemma {:induction false} ShortOfNineKeepsRecord(g: Game)
    requires Fresh(g)
    ensures var g8 := Play(g, Ascending(1, MaxValue - 1));
      && Valid(g8)
      && g8.phase == Playing
      && g8.expected == MaxValue
      && g8.profile == g.profile
  {
    PlayAscending(g, MaxValue - 1);
    PlayPreservesValid(g, Ascending(1, MaxValue - 1));
  }

  lemma AscendingCons(from: int, n: nat)
    ensures [from] + Ascending(from + 1, n) == Ascending(from, n + 1)
  {
  }

  lemma AscendingSnoc(from: int, n: nat)
    ensures Ascending(from, n + 1) == Ascending(from, n) + [from + n]
  {
  }

  /** With only 9 left, pressing it wins the round. */
  lemma {:induction false} LastPressWins(g: Game)
    requires Valid(g) && g.phase == Playing && g.expected == MaxValue
    ensures var r := Play(g, [MaxValue]);
      && r.phase == Finished(true)
      && r.expected == MaxValue + 1
      && r.profile == g.profile.(streak := g.profile.streak + 1,
                                 games := g.profile.games + 1,
                                 wins := g.profile.wins + 1)
  {
    CorrectTap(g);
    WinExactlyAtTen(g, MaxValue);
    assert Play(g, [MaxValue]) == Play(Step(g, MaxValue).0, []);
  }

  /** Every press is on a live button that is not the expected one. */
  predicate WrongLivePresses(g: Game, taps: seq<int>) {
    forall t :: 0 <= t < |taps| ==> g.expected < taps[t] <= MaxValue
  }

  /**
    After the start, a run of wrong presses on live buttons no longer than
    the stars left only spends one star per press.
   */
  lemma {:induction false} SurvivesStars(g: Game, taps: seq<int>)
    requires Valid(g) && g.phase == Playing && g.started
    requires WrongLivePresses(g, taps)
    requires |taps| <= g.profile.stars
    ensures Play(g, taps) == g.(profile := g.profile.(stars := g.profile.stars - |taps|))
    decreases |taps|
  {
    if |taps| > 0 {
      ForgivenMistake(g, taps[0]);
      var g' := Step(g, taps[0]).0;
      StepPreservesValid(g, taps[0]);
      SurvivesStars(g', taps[1..]);
    }
  }

  /**
    One wrong press more than the stars left loses the round: the streak is
    cleared, the stars are restored, one game and no win are counted.
   */
  lemma {:induction false} LosesOnOneMistakeTooMany(g: Game, taps: seq<int>)
    requires Valid(g) && g.phase == Playing && g.started
    requires WrongLivePresses(g, taps)
    requires |taps| == g.profile.stars + 1
    ensures var r := Play(g, taps);
      && r.phase == Finished(false)
      && r.profile == g.profile.(streak := 0, stars := g.profile.baseStars, games := g.profile.games + 1)
  {
    var s := g.profile.stars;
    assert taps == taps[..s] + [taps[s]];
    PlayAppend(g, taps[..s], [taps[s]]);
    SurvivesStars(g, taps[..s]);
    var g' := Play(g, taps[..s]);
    PlayPreservesValid(g, taps[..s]);
    FatalMistake(g', taps[s]);
  }

  /**
    From a fresh round, pressing 1, 2, 3, 4, then 2 again, then 5..9 wins
    without spending a star: the button for 2 no longer answers.
   */
  lemma {:induction false} RepeatedPressCostsNothing(g: Game)
    requires Fresh(g)
    ensures var r := Play(g, [1, 2, 3, 4, 2, 5, 6, 7, 8, 9]);
      && r.phase == Finished(true)
      && r.profile.stars == g.profile.stars
      && r.profile.streak == g.profile.streak + 1
  {
    var first := Ascending(1, 4);
    var second := Ascending(5, 4);
    assert [1, 2, 3, 4, 2, 5, 6, 7, 8, 9] == first + ([2] + (second + [9]));
    PlayAppend(g, first, [2] + (second + [9]));
    PlayAscending(g, 4);
    PlayPreservesValid(g, first);
    var g4 := Play(g, first);
    ValidValues(g4);
    FindValue(g4, 2);
    assert Step(g4, 2) == (g4, Ignored);
    PlayAppend(g4, [2], second + [9]);
    PlayAppend(g4, second, [9]);
    PlayAscending(g4, 4);
    PlayPreservesValid(g4, second);
    LastPressWins(Play(g4, second));
  }

  /** With no star, as in hard mode, pressing 1 then 3 loses at the second press. */
  lemma {:induction false} NoStarSecondMistakeLoses(g: Game)
    requires Fresh(g) && g.profile.stars == 0
    ensures Play(g, [1, 3]).phase == Finished(false)
    ensures Play(g, [1, 3]).profile.streak == 0
  {
    CorrectTap(g);
    var g1 := Step(g, 1).0;
    StepPreservesValid(g, 1);
    FatalMistake(g1, 3);
    assert [1, 3][1..] == [3];
  }
}
