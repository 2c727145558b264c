/**
  The round rules: the state of one round on top of the player's record,
  the effect of one tap, and the actions that start a new round or change
  the numeral language.
 */
module Game {
  import opened Wrappers
  import opened LangUtils
  import opened SavedData
  import opened Board

  /** The text every button shows once the round has started. */
  const HiddenLabel: string := "?"

  /**
    Playing, or Finished(won) while the end-of-round dialog is up. That
    dialog cannot be cancelled, and while it shows it is modal, so no touch
    reaches the buttons behind it until a new round is dealt.
   */
  datatype Phase = Playing | Finished(won: bool)

  /**
    sequence: the shuffled values; buttons: the board, the k-th button
    carrying sequence[k]; expected: the next value to tap; started: whether
    a correct tap happened this round; profile: the persisted record.
   */
  datatype Game = Game(
    sequence: seq<int>,
    buttons: seq<Button>,
    expected: int,
    started: bool,
    phase: Phase,
    profile: Profile
  )

  /**
    What one tap does. Ignored: it never reaches the game (no such button,
    its listener was removed, or the round is over). The other five are the
    four results of a delivered tap, Accepted and Completed being the two
    kinds of correct tap.
   */
  datatype Outcome = Ignored | RejectedBeforeStart | Accepted | Completed | Forgiven | Lost

  predicate IsCorrect(o: Outcome) {
    o == Accepted || o == Completed
  }

  predicate EndsRound(o: Outcome) {
    o == Completed || o == Lost
  }

  /** The first button carrying value v, if any. */
  function Find(bs: seq<Button>, v: int): (r: Option<nat>)
    ensures r.Some? ==> r.value < |bs| && bs[r.value].value == v
    ensures r.Some? ==> forall k :: 0 <= k < r.value ==> bs[k].value != v
    ensures r.None? ==> forall k :: 0 <= k < |bs| ==> bs[k].value != v
  {
    if |bs| == 0 then None
    else if bs[0].value == v then Some(0)
    else match Find(bs[1..], v)
      case None => None
      case Some(k) => Some(k + 1)
  }

  /**
    Puzzle mode, button by button: every button shows the hidden-value
    mark, and keeps its value, cell and listener.
   */
  function Hide(bs: seq<Button>): (r: seq<Button>)
    ensures |r| == |bs|
    ensures forall k :: 0 <= k < |bs| ==> r[k] == bs[k].(text := HiddenLabel)
    decreases |bs|
  {
    if |bs| == 0 then [] else [bs[0].(text := HiddenLabel)] + Hide(bs[1..])
  }

  /**
    The correct tap on button k: its listener is detached and every other
    listener kept, the first correct tap hides every label, the expected
    value advances by one, and the tap that makes it 10 wins the round,
    counting one more win in the streak and the statistics.
   */
  function Accept(g: Game, k: nat): (r: (Game, Outcome))
    requires k < |g.buttons|
    ensures IsCorrect(r.1)
    ensures r.0.sequence == g.sequence && r.0.expected == g.expected + 1 && r.0.started
    ensures SameLayout(r.0.buttons, g.buttons) && !r.0.buttons[k].active
    ensures forall j :: 0 <= j < |g.buttons| && j != k ==> r.0.buttons[j].active == g.buttons[j].active
    ensures forall j :: 0 <= j < |g.buttons| ==>
      r.0.buttons[j].text == (if g.started then g.buttons[j].text else HiddenLabel)
    ensures r.1 == Completed <==> g.expected == MaxValue
    ensures r.1 == Completed ==>
      && r.0.phase == Finished(true)
      && r.0.profile == g.profile.(streak := g.profile.streak + 1,
                                   games := g.profile.games + 1,
                                   wins := g.profile.wins + 1)
    ensures r.1 == Accepted ==> r.0.phase == g.phase && r.0.profile == g.profile
  {
    var detached := g.buttons[k := g.buttons[k].(active := false)];
    var bs := if g.started then detached else Hide(detached);
    var g' := g.(buttons := bs, started := true, expected := g.expected + 1);
    if g'.expected == MaxValue + 1 then
      var p := UpdateStats(IncrementStreak(g.profile), true);
      (g'.(profile := p, phase := Finished(true)), Completed)
    else
      (g', Accepted)
  }

  /**
    A wrong tap after the start: with a star left it spends exactly that
    star; without one it loses the round, clearing the streak, restoring
    the stars and counting one more game but no win. The board, the
    sequence and the expected value stay as they were.
   */
  function Mistake(g: Game): (r: (Game, Outcome))
    ensures r.1 == Forgiven || r.1 == Lost
    ensures r.1 == Forgiven <==> g.profile.stars > 0
    ensures r.0.buttons == g.buttons && r.0.sequence == g.sequence
    ensures r.0.expected == g.expected && r.0.started == g.started
    ensures r.1 == Forgiven ==> r.0 == g.(profile := g.profile.(stars := g.profile.stars - 1))
    ensures r.1 == Lost ==>
      && r.0.phase == Finished(false)
      && r.0.profile == g.profile.(streak := 0, stars := g.profile.baseStars, games := g.profile.games + 1)
  {
    if g.profile.stars > 0 then
      (g.(profile := DecrementStarsAvailable(g.profile)), Forgiven)
    else
      var p := UpdateStats(ResetStars(ResetStreak(g.profile)), false);
      (g.(profile := p, phase := Finished(false)), Lost)
  }

  /**
    A press (ACTION_DOWN) on the button carrying value v. A press that is
    ignored or turned away before the start changes nothing; only the
    expected value is accepted, advancing it by one; a mistake is counted
    only after the start; a round ends only from play, and a finished
    round takes no press.
   */
  function Step(g: Game, v: int): (r: (Game, Outcome))
    ensures r.0.sequence == g.sequence
    ensures !g.phase.Playing? ==> r == (g, Ignored)
    ensures r.1 == Ignored || r.1 == RejectedBeforeStart ==> r.0 == g
    ensures r.1 == RejectedBeforeStart ==> !g.started && v != g.expected
    ensures IsCorrect(r.1) ==> v == g.expected && r.0.expected == g.expected + 1 && r.0.started
    ensures !IsCorrect(r.1) ==> r.0.expected == g.expected
    ensures r.1 == Forgiven || r.1 == Lost ==> g.started && v != g.expected && r.0.buttons == g.buttons
    ensures EndsRound(r.1) <==> g.phase.Playing? && !r.0.phase.Playing?
  {
    if !g.phase.Playing? then (g, Ignored)
    else match Find(g.buttons, v)
      case None => (g, Ignored)
      case Some(k) =>
        if !g.buttons[k].active then (g, Ignored)
        else if !g.started && v != g.expected then (g, RejectedBeforeStart)
        else if v == g.expected then Accept(g, k)
        else Mistake(g)
  }

  // ---------------------------------------------------------------------
  // The round invariant
  // ---------------------------------------------------------------------

  /** Same values in the same cells, whatever the texts and listeners. */
  predicate SameLayout(a: seq<Button>, b: seq<Button>) {
    |a| == |b| && forall k :: 0 <= k < |a| ==> a[k].value == b[k].value && a[k].cell == b[k].cell
  }

  /** The board matches the sequence: nine buttons in distinct cells of the grid. */
  predicate BoardOk(sequence: seq<int>, bs: seq<Button>) {
    && IsPermutation(sequence)
    && |bs| == |sequence|
    && (forall k :: 0 <= k < |bs| ==> bs[k].value == sequence[k] && InGrid(bs[k].cell))
    && (forall a, b :: 0 <= a < b < |bs| ==> bs[a].cell != bs[b].cell)
  }

  /** The text of a button: its glyph before the start, the hidden mark after. */
  predicate ShowsLabel(b: Button, started: bool, language: int) {
    if started then b.text == HiddenLabel
    else 1 <= b.value <= MaxValue && b.text == GetTranslation(language, b.value)
  }

  predicate Valid(g: Game) {
    && BoardOk(g.sequence, g.buttons)
    && 1 <= g.expected <= MaxValue + 1
    && (!g.started ==> g.expected == 1 && g.phase == Playing)
    && (g.phase == Finished(true) <==> g.expected == MaxValue + 1)
    // exactly the values not yet accepted keep their listener
    && (forall k :: 0 <= k < |g.buttons| ==> (g.buttons[k].active <==> g.buttons[k].value >= g.expected))
    && (forall k :: 0 <= k < |g.buttons| ==> ShowsLabel(g.buttons[k], g.started, g.profile.language))
  }

  /** A round just dealt: nothing tapped yet. */
  predicate Fresh(g: Game) {
    Valid(g) && !g.started && g.expected == 1 && g.phase == Playing
  }

  lemma ValidValues(g: Game)
    requires Valid(g)
    ensures |g.buttons| == MaxValue
    ensures forall k :: 0 <= k < |g.buttons| ==> 1 <= g.buttons[k].value <= MaxValue
    ensures forall a, b :: 0 <= a < b < |g.buttons| ==> g.buttons[a].value != g.buttons[b].value
  {
  }

  /** In a valid round every value 1..9 has its button. */
  lemma FindValue(g: Game, v: int)
    requires Valid(g)
    ensures Find(g.buttons, v).Some? <==> 1 <= v <= MaxValue
  {
    if 1 <= v <= MaxValue {
      assert v in g.sequence;
      var k :| 0 <= k < |g.sequence| && g.sequence[k] == v;
      assert g.buttons[k].value == v;
    } else {
      ValidValues(g);
    }
  }

  // ---------------------------------------------------------------------
  // One tap
  // ---------------------------------------------------------------------

  lemma SameLayoutKeepsBoard(sequence: seq<int>, a: seq<Button>, b: seq<Button>)
    requires BoardOk(sequence, a)
    requires SameLayout(b, a)
    ensures BoardOk(sequence, b)
  {
    forall x, y | 0 <= x < y < |b|
      ensures b[x].cell != b[y].cell
    {
      assert a[x].cell != a[y].cell;
    }
  }

  /** The correct tap keeps the round invariant. */
  lemma AcceptKeepsValid(g: Game, k: nat)
    requires Valid(g) && g.phase == Playing
    requires k < |g.buttons| && g.buttons[k].value == g.expected
    ensures Valid(Accept(g, k).0)
    ensures SameLayout(Accept(g, k).0.buttons, g.buttons)
    ensures Accept(g, k).0.sequence == g.sequence
  {
    ValidValues(g);
    var g' := Accept(g, k).0;
    assert SameLayout(g'.buttons, g.buttons);
    SameLayoutKeepsBoard(g.sequence, g.buttons, g'.buttons);
    forall m | 0 <= m < |g'.buttons|
      ensures g'.buttons[m].active <==> g'.buttons[m].value >= g'.expected
    {
      if m != k {
        assert g.buttons[m].value != g.expected;
      }
    }
    forall m | 0 <= m < |g'.buttons|
      ensures ShowsLabel(g'.buttons[m], g'.started, g'.profile.language)
    {
    }
  }

  /** A spent star or a lost round keeps the round invariant. */
  lemma MistakeKeepsValid(g: Game)
    requires Valid(g) && g.phase == Playing && g.started
    ensures Valid(Mistake(g).0)
    ensures Mistake(g).0.buttons == g.buttons
    ensures Mistake(g).0.sequence == g.sequence
  {
  }

  /** Every tap keeps the round invariant. */
  lemma StepPreservesValid(g: Game, v: int)
    requires Valid(g)
    ensures Valid(Step(g, v).0)
    ensures SameLayout(Step(g, v).0.buttons, g.buttons)
    ensures Step(g, v).0.sequence == g.sequence
  {
    if g.phase.Playing? && Find(g.buttons, v).Some? {
      var k := Find(g.buttons, v).value;
      if g.buttons[k].active && v == g.expected {
        AcceptKeepsValid(g, k);
      } else if g.buttons[k].active && g.started {
        MistakeKeepsValid(g);
      }
    }
  }

  /**
    Before the start, a press on any value but the expected 1 is turned
    away: the round and the record are untouched, no star is spent.
   */
  lemma PreStartRejection(g: Game, v: int)
    requires Valid(g) && !g.started
    requires v != 1
    ensures Step(g, v).0 == g
    ensures Step(g, v).1 == (if 1 <= v <= MaxValue then RejectedBeforeStart else Ignored)
  {
    FindValue(g, v);
  }

  /**
    A correct tap advances the expected value by one, starts the round,
    detaches that button's listener and hides every label on the first
    tap; the record changes only when it completes the round.
   */
  lemma CorrectTap(g: Game)
    requires Valid(g) && g.phase == Playing
    ensures var (g', o) := Step(g, g.expected);
      && IsCorrect(o)
      && g'.expected == g.expected + 1
      && g'.started
      && g'.sequence == g.sequence
      && SameLayout(g'.buttons, g.buttons)
      && (forall k :: 0 <= k < |g.buttons| ==>
            g'.buttons[k].active == (g.buttons[k].active && g.buttons[k].value != g.expected))
      && (forall k :: 0 <= k < |g.buttons| ==> g'.buttons[k].text == HiddenLabel)
      && (o == Accepted ==> g'.profile == g.profile && g'.phase == Playing)
  {
    FindValue(g, g.expected);
    ValidValues(g);
    var k := Find(g.buttons, g.expected).value;
    forall m | 0 <= m < |g.buttons| && m != k
      ensures g.buttons[m].value != g.expected
    {
    }
  }

  /** Once a value is accepted its button no longer answers: it is never accepted twice. */
  lemma NeverAcceptedTwice(g: Game, v: int)
    requires Valid(g)
    requires IsCorrect(Step(g, v).1)
    ensures Step(Step(g, v).0, v) == (Step(g, v).0, Ignored)
  {
    ValidValues(g);
    StepPreservesValid(g, v);
  }

  /**
    The round is won exactly when the expected value reaches 10; the win
    adds one to the streak, one game and one win, and spends no star.
   */
  lemma WinExactlyAtTen(g: Game, v: int)
    requires Valid(g) && g.phase == Playing
    ensures var (g', o) := Step(g, v);
      (o == Completed <==> g'.expected == MaxValue + 1)
    ensures var (g', o) := Step(g, v);
      o == Completed ==>
        && g'.phase == Finished(true)
        && g'.profile == g.profile.(streak := g.profile.streak + 1,
                                   games := g.profile.games + 1,
                                   wins := g.profile.wins + 1)
  {
    StepPreservesValid(g, v);
  }

  /**
    A wrong press on a live button after the start, with a star left,
    spends exactly that star and changes nothing else.
   */
  lemma ForgivenMistake(g: Game, v: int)
    requires Valid(g) && g.phase == Playing && g.started
    requires g.expected < v <= MaxValue
    requires g.profile.stars > 0
    ensures Step(g, v) == (g.(profile := g.profile.(stars := g.profile.stars - 1)), Forgiven)
  {
    FindValue(g, v);
  }

  /**
    A wrong press on a live button with no star left loses the round: the
    streak drops to 0, the stars return to their allotment, one more game
    is counted and no win; the board stays as it was.
   */
  lemma FatalMistake(g: Game, v: int)
    requires Valid(g) && g.phase == Playing && g.started
    requires g.expected < v <= MaxValue
    requires g.profile.stars == 0
    ensures Step(g, v) ==
      (g.(phase := Finished(false),
          profile := g.profile.(streak := 0, stars := g.profile.baseStars, games := g.profile.games + 1)),
       Lost)
  {
    FindValue(g, v);
  }

  /**
    Only the expected value is ever accepted, and the expected value moves
    only by a correct press, by exactly one.
   */
  lemma StepExpected(g: Game, v: int)
    ensures IsCorrect(Step(g, v).1) ==> v == g.expected
    ensures Step(g, v).0.expected == g.expected + (if IsCorrect(Step(g, v).1) then 1 else 0)
  {
  }

  /**
    The streak moves only at the end of a round: up by one on a win, to 0
    on a loss, and never otherwise; the games count grows by one exactly
    when a round ends, the wins count exactly when it is won.
   */
  lemma RecordBookkeeping(g: Game, v: int)
    ensures var (g', o) := Step(g, v);
      && (o == Completed ==> g'.profile.streak == g.profile.streak + 1)
      && (o == Lost ==> g'.profile.streak == 0)
      && (!EndsRound(o) ==> g'.profile.streak == g.profile.streak)
      && g'.profile.games == g.profile.games + (if EndsRound(o) then 1 else 0)
      && g'.profile.wins == g.profile.wins + (if o == Completed then 1 else 0)
      && (o != Forgiven && o != Lost ==> g'.profile.stars == g.profile.stars)
  {
  }

  // ---------------------------------------------------------------------
  // Dealing a round, reloading, changing the language
  // ---------------------------------------------------------------------

  /** Every button still has its touch listener. */
  predicate AllListening(bs: seq<Button>) {
    forall k :: 0 <= k < |bs| ==> bs[k].active
  }

  /** A finished placement of a permutation makes a fresh round with every listener attached. */
  function Deal(sequence: seq<int>, bs: seq<Button>, p: Profile): (g: Game)
    requires IsPermutation(sequence)
    requires Placed(bs, sequence, p.language)
    ensures Fresh(g) && AllListening(g.buttons)
    ensures g.sequence == sequence && g.profile == p
  {
    DealtIsFresh(sequence, bs, p);
    Game(sequence, bs, 1, false, Playing, p)
  }

  lemma DealtIsFresh(sequence: seq<int>, bs: seq<Button>, p: Profile)
    requires IsPermutation(sequence)
    requires Placed(bs, sequence, p.language)
    ensures Fresh(Game(sequence, bs, 1, false, Playing, p))
    ensures AllListening(bs)
  {
    forall k | 0 <= k < |bs|
      ensures bs[k].value == sequence[k] && bs[k].active
      ensures bs[k].text == GetTranslation(p.language, sequence[k])
    {
      assert bs[k] == NewButton(sequence, k, p.language, bs[k].cell);
    }
  }

  /**
    Place the buttons for an already shuffled sequence and open a round
    expecting 1. None when the coins run out before nine buttons exist.
   */
  method DealRound(sequence: seq<int>, p: Profile, coins: seq<bool>) returns (r: Option<Game>)
    requires IsPermutation(sequence)
    ensures r.Some? ==> Fresh(r.value) && AllListening(r.value.buttons)
    ensures r.Some? ==> r.value.sequence == sequence && r.value.profile == p
    ensures AllAccept(coins) && |coins| >= MaxValue ==> r.Some?
  {
    var placed, _ := CreateButtons(sequence, p.language, coins);
    if placed.Some? {
      r := Some(Deal(sequence, placed.value, p));
    } else {
      r := None;
    }
  }

  /**
    resetGrid: shuffle the sequence, place the buttons, and expect 1 from a
    round not yet started. The shuffle's draws and the placement's coins are
    supplied; None stands for a placement whose coins ran out before nine
    buttons were placed. The record is left alone.
   */
  method ResetGrid(g: Game, picks: seq<int>, coins: seq<bool>) returns (r: Option<Game>)
    requires IsPermutation(g.sequence)
    requires ValidPicks(|g.sequence|, picks)
    ensures r.Some? ==> Fresh(r.value) && AllListening(r.value.buttons)
    ensures r.Some? ==> multiset(r.value.sequence) == multiset(g.sequence)
    ensures r.Some? ==> r.value.profile == g.profile
    ensures AllAccept(coins) && |coins| >= MaxValue ==> r.Some?
  {
    var sequence := Shuffle(g.sequence, picks);
    r := DealRound(sequence, g.profile, coins);
  }

  /**
    reloadGame: clear the streak, restore the star allotment, then deal a
    new round. The aggregate statistics are kept.
   */
  method ReloadGame(g: Game, picks: seq<int>, coins: seq<bool>) returns (r: Option<Game>)
    requires IsPermutation(g.sequence)
    requires ValidPicks(|g.sequence|, picks)
    ensures r.Some? ==> Fresh(r.value)
    ensures r.Some? ==> multiset(r.value.sequence) == multiset(g.sequence)
    ensures r.Some? ==> r.value.profile == g.profile.(streak := 0, stars := g.profile.baseStars)
    ensures AllAccept(coins) && |coins| >= MaxValue ==> r.Some?
  {
    var p := ResetStars(ResetStreak(g.profile));
    r := ResetGrid(g.(profile := p), picks, coins);
  }

  /**
    The activity's creation: the sequence starts as 1..9 and the first
    round is dealt on top of the stored record.
   */
  method StartActivity(p: Profile, picks: seq<int>, coins: seq<bool>) returns (r: Option<Game>)
    requires ValidPicks(MaxValue, picks)
    ensures r.Some? ==> Fresh(r.value) && r.value.profile == p
    ensures r.Some? ==> multiset(r.value.sequence) == multiset(InitialSequence)
    ensures AllAccept(coins) && |coins| >= MaxValue ==> r.Some?
  {
    InitialIsPermutation();
    r := ResetGrid(Game(InitialSequence, [], 1, false, Playing, p), picks, coins);
  }

  /**
    Relabel button by button: each shows the glyph of its own value in
    `language`, and keeps its value, cell and listener.
   */
  function Relabel(bs: seq<Button>, language: int): (r: seq<Button>)
    requires forall k :: 0 <= k < |bs| ==> 1 <= bs[k].value <= MaxValue
    ensures |r| == |bs|
    ensures forall k :: 0 <= k < |bs| ==> r[k] == bs[k].(text := GetTranslation(language, bs[k].value))
    decreases |bs|
  {
    if |bs| == 0 then []
    else [bs[0].(text := GetTranslation(language, bs[0].value))] + Relabel(bs[1..], language)
  }

  /**
    A language picked from the menu: it is stored, and the buttons show
    the new glyphs only while the round has not started; once started they
    keep the hidden mark. Nothing else changes, and the invariant holds.
   */
  function ChangeLanguage(g: Game, language: int): (r: Game)
    requires forall k :: 0 <= k < |g.buttons| ==> 1 <= g.buttons[k].value <= MaxValue
    ensures r.profile == g.profile.(language := language)
    ensures r.(profile := g.profile, buttons := g.buttons) == g
    ensures SameLayout(r.buttons, g.buttons)
    ensures g.started ==> r.buttons == g.buttons
    ensures Valid(g) ==> Valid(r)
  {
    var p := SetLanguage(g.profile, language);
    if g.started then g.(profile := p)
    else g.(profile := p, buttons := Relabel(g.buttons, language))
  }

  /**
    Before the start every button shows its glyph in the chosen language;
    after it, a language change leaves every button showing the hidden mark.
   */
  lemma RelabelOnlyBeforeStart(g: Game, language: int)
    requires Valid(g)
    ensures var r := ChangeLanguage(g, language);
      forall k :: 0 <= k < |r.buttons| ==>
        r.buttons[k].text == (if g.started then HiddenLabel else GetTranslation(language, r.buttons[k].value))
  {
  }
}
