# Eidetic memory trainer: round rules in Dafny

The game shows nine buttons labelled 1..9 on a 6 x 3 grid. The labels can be
drawn in one of several numeral systems. The player taps the buttons in
ascending order. After the first correct tap every label turns into "?".
A wrong tap costs a star while one is left; otherwise the round is lost.
Tapping 9 wins the round. The player's record (streak, stars, games, wins,
language) persists between rounds.

This project models the rules behind that game:

- `lang_utils.dfy` (module `LangUtils`): the numeral tables and `getTranslation`.
  Unknown language ids fall back to the decimal string of the digit,
  modelled for every integer together with its parser.
- `saved_data.dfy` (module `SavedData`): the persisted record and the five
  round-rule operations plus `setLanguage`. `SavedData.java` is not part of this
  model, so each operation means what its name says: `resetStars` restores a
  per-profile allotment `baseStars`, and `updateStats(won)` counts one game
  and, when won, one win.
- `board.dfy` (module `Board`): the sequence 1..9, the shuffle, and
  `createButtons`, the retrying row-major placement. It is a method with
  loop invariants and draws its coin flips from a supplied stream.
- `game.dfy` (module `Game`): the round state and `Step`, the effect of one
  press. Also the round invariant `Valid`, `resetGrid`, `reloadGame`, the
  activity's start, and the language change with its relabel guard.
- `rounds.dfy` (module `Rounds`): `Play` runs a sequence of presses, with
  lemmas about whole runs.

Modelling choices:

- A press names the value of the touched button. The invariant proves that
  button values are distinct, so this picks out exactly one button.
- `Step` is the `ACTION_DOWN` path of `onTouch`. Every other motion event
  returns before any state changes.
- A press gives `Ignored` in three cases:
  - no button carries the value;
  - the button's listener was removed (it was already accepted);
  - the end-of-round dialog is showing.
- That dialog cannot be cancelled, and while it shows it is modal, so no
  touch reaches the buttons behind it. The model
  represents it with the `phase` field, `Playing` or `Finished(won)`.
- A delivered press has one of four results: `RejectedBeforeStart`, a
  correct press (`Accepted`, or `Completed` when it wins), `Forgiven` or
  `Lost`.
- Randomness comes in as supplied data:
  - the shuffle takes the picks of the backward swap loop that
    `Collections.shuffle` documents;
  - placement takes a stream of coins, where `true` means
    `Math.random() > 0.5`, i.e. skip this cell;
  - when the coins run out before nine buttons exist, placement returns
    `None`, meaning the scan has not finished yet.
- `getTranslation` is a Dafny function, so equal arguments always give
  equal strings.
- Stars carry over from a won round to the next: only a loss
  (MainActivity.java:394-395) or a reload (MainActivity.java:266) restores
  them. So `ResetGrid`, which the replay button calls, leaves the record
  alone, while `ReloadGame` and the losing branch of `Mistake` restore it.

Behaviour of the code worth noting:

- A second press on an accepted button does nothing, because its listener
  was removed (MainActivity.java:371; `Rounds.RepeatedPressCostsNothing`).
  No star is spent.
- `getTranslation` throws for a known id with an index outside 0..9
  (LangUtils.java:37), hence the precondition of `LangUtils.GetTranslation`.
- The outer loop of `createButtons` (MainActivity.java:111) has no bound;
  the model stops when the coins run out.
- The language dialog offers ids 0..3 (English, Hindi, Japanese, Khmer).
  Tables 4..6 exist but cannot be reached from it. `ChangeLanguage` accepts
  any id.

## Model

| member | source | states |
|---|---|---|
| LangUtils.GetTranslation | app/src/main/java/io/github/hathibelagal/eidetic/LangUtils.java:35-41 | needs a digit index 0..9 only for a known id; for any id outside 1..6 the result reads back as the digit itself |
| LangUtils.DecimalRoundTrip | app/src/main/java/io/github/hathibelagal/eidetic/LangUtils.java:39 | the fallback rendering of any integer parses back to that integer |
| LangUtils.DecimalStringInjective | app/src/main/java/io/github/hathibelagal/eidetic/LangUtils.java:39 | distinct integers get distinct fallback strings |
| LangUtils.DecimalString | app/src/main/java/io/github/hathibelagal/eidetic/LangUtils.java:39 | the fallback rendering of an integer has a '-' exactly when it is negative, then a non-empty run of digits with no leading zero; a digit 0..9 renders as that one character |
| LangUtils.TablesHaveTenEntries | app/src/main/java/io/github/hathibelagal/eidetic/LangUtils.java:25-33 | the table map covers exactly ids 1..6 and every table has ten entries, so indices 0..9 are in bounds |
| LangUtils.KnownLanguageGlyphs | app/src/main/java/io/github/hathibelagal/eidetic/LangUtils.java:27-37 | known ids read their table: Khmer (3) nine is "៩", Devanagari nine, Hangul one, and Glagolitic entry 0 is the empty string |
| LangUtils.UnknownLanguageGlyphs | app/src/main/java/io/github/hathibelagal/eidetic/LangUtils.java:38-40 | for any id outside 1..6 (0 and 99 included) digit d renders as the single character d |
| LangUtils.TableGlyphsDistinct | app/src/main/java/io/github/hathibelagal/eidetic/LangUtils.java:27-32 | in every table the glyphs of 1..9 are single non-"?" symbols, pairwise different |
| LangUtils.LabelsDistinguishable | app/src/main/java/io/github/hathibelagal/eidetic/LangUtils.java:27-40 | in every language, known or not, the labels of 1..9 are non-empty, not "?", and pairwise different |
| Board.InitialIsPermutation | app/src/main/java/io/github/hathibelagal/eidetic/MainActivity.java:59 | the initial sequence holds each of 1..9 exactly once |
| Board.ShuffleDown | app/src/main/java/io/github/hathibelagal/eidetic/MainActivity.java:103-105 | the backward swap loop rearranges its input: same length, same multiset, distinct stays distinct |
| Board.Shuffle | app/src/main/java/io/github/hathibelagal/eidetic/MainActivity.java:103-105 | shuffling rearranges the sequence and a permutation of 1..9 stays one |
| Board.NewButton | app/src/main/java/io/github/hathibelagal/eidetic/MainActivity.java:126-141 | a new button carries the k-th sequence value, sits in the chosen cell, has its listener attached, and for a value 1..9 shows a non-empty glyph that is never the hidden mark "?" |
| Board.Visit | app/src/main/java/io/github/hathibelagal/eidetic/MainActivity.java:118-144 | one cell visit keeps the partial board well formed; a skip coin (lines 118-119) or an already taken cell (lines 121-125) leaves the board unchanged, otherwise the cell is taken and receives the next button; on an accepting coin in the first pass it fills the next row-major cell |
| Board.CreateButtons | app/src/main/java/io/github/hathibelagal/eidetic/MainActivity.java:108-148 | on termination exactly nine buttons, the k-th carrying sequence[k] and its glyph, in distinct in-grid cells; it stops early only when the coins run out; with all-accepting coins it fills the first nine cells in row-major order after nine draws |
| Game.Hide | app/src/main/java/io/github/hathibelagal/eidetic/MainActivity.java:242-246 | puzzle mode turns every button's text into "?" and keeps its value, cell and listener |
| Game.Step | app/src/main/java/io/github/hathibelagal/eidetic/MainActivity.java:358-400 | a press that is ignored or turned away before the start changes nothing; only the expected value is accepted and it then advances by one; a mistake is counted only after the start and leaves the board alone; a round ends only from play; a finished round takes no press |
| Game.Accept | app/src/main/java/io/github/hathibelagal/eidetic/MainActivity.java:370-387 | the correct press detaches that button's listener and keeps the others, hides every label on the first correct press, advances the expected value by one, and completes the round exactly when 9 was expected, adding one to the streak, games and wins (lines 176-183) and leaving the stars alone |
| Game.Mistake | app/src/main/java/io/github/hathibelagal/eidetic/MainActivity.java:388-397 | a wrong press after the start spends a star exactly when one is left and otherwise loses: streak 0, stars restored, one more game (line 183) and no win; board, sequence and expected value unchanged |
| Game.AcceptKeepsValid | app/src/main/java/io/github/hathibelagal/eidetic/MainActivity.java:370-387 | a correct press keeps the round invariant and the board layout |
| Game.MistakeKeepsValid | app/src/main/java/io/github/hathibelagal/eidetic/MainActivity.java:388-397 | a forgiven or fatal mistake keeps the invariant and leaves the board alone |
| Game.StepPreservesValid | app/src/main/java/io/github/hathibelagal/eidetic/MainActivity.java:358-400 | every press keeps the invariant (listeners exactly on values not yet accepted, labels glyphs before the start and "?" after), the layout and the sequence |
| Game.PreStartRejection | app/src/main/java/io/github/hathibelagal/eidetic/MainActivity.java:364-368 | before the start, any value but 1 leaves the round and record unchanged, including stars and streak |
| Game.CorrectTap | app/src/main/java/io/github/hathibelagal/eidetic/MainActivity.java:370-383 | the expected press advances the expected value by exactly one, starts the round, hides every label, detaches exactly that button's listener, and changes the record only on a win |
| Game.NeverAcceptedTwice | app/src/main/java/io/github/hathibelagal/eidetic/MainActivity.java:371 | once accepted, pressing the same value again is ignored |
| Game.StepExpected | app/src/main/java/io/github/hathibelagal/eidetic/MainActivity.java:370-376 | only the expected value is ever accepted, and the expected value moves only on a correct press, by exactly one |
| Game.WinExactlyAtTen | app/src/main/java/io/github/hathibelagal/eidetic/MainActivity.java:176-183 | a press completes the round exactly when the expected value becomes 10; the win adds one to the streak, games and wins |
| Game.ForgivenMistake | app/src/main/java/io/github/hathibelagal/eidetic/MainActivity.java:388-392 | a wrong press on a live button with a star left spends one star and changes nothing else |
| Game.FatalMistake | app/src/main/java/io/github/hathibelagal/eidetic/MainActivity.java:393-397 | a wrong press with no star left loses: streak 0, stars restored, one more game, no win, board unchanged |
| Game.RecordBookkeeping | app/src/main/java/io/github/hathibelagal/eidetic/MainActivity.java:176-183 | the streak rises only on a win and never on the losing path; games count exactly the finished rounds, wins exactly the won ones |
| Game.Deal | app/src/main/java/io/github/hathibelagal/eidetic/MainActivity.java:97-99 | a finished placement of a permutation opens a fresh valid round with every listener attached |
| Game.DealRound | app/src/main/java/io/github/hathibelagal/eidetic/MainActivity.java:97-99 | placing the buttons yields a fresh round on the given sequence and record, and always does so with all-accepting coins |
| Game.ResetGrid | app/src/main/java/io/github/hathibelagal/eidetic/MainActivity.java:90-101 | a new round expects 1, is not started, keeps the record, and its sequence is a rearrangement of the old one |
| Game.ReloadGame | app/src/main/java/io/github/hathibelagal/eidetic/MainActivity.java:264-268 | reload clears the streak and restores the stars, keeps the statistics, and deals a fresh round on a rearranged sequence; with all-accepting coins it always deals one |
| Game.StartActivity | app/src/main/java/io/github/hathibelagal/eidetic/MainActivity.java:75-88 | the activity deals a fresh round on the stored record, its sequence a rearrangement of 1..9; with all-accepting coins it always deals one |
| Game.Relabel | app/src/main/java/io/github/hathibelagal/eidetic/MainActivity.java:296-299 | every button shows the glyph of its own value in the new language and keeps its value, cell and listener |
| Game.ChangeLanguage | app/src/main/java/io/github/hathibelagal/eidetic/MainActivity.java:290-304 | stores the language and changes nothing but the labels; once started the buttons are untouched; the invariant is kept |
| Game.RelabelOnlyBeforeStart | app/src/main/java/io/github/hathibelagal/eidetic/MainActivity.java:294-300 | after a language change the labels are the new glyphs before the start and stay "?" after it |
| Rounds.PlayPreservesValid | app/src/main/java/io/github/hathibelagal/eidetic/MainActivity.java:358-400 | any run of presses keeps the invariant, the board layout and the sequence |
| Rounds.AcceptedAreConsecutive | app/src/main/java/io/github/hathibelagal/eidetic/MainActivity.java:370-376 | over any run of presses the accepted values are exactly the expected value and its successors, each once, in ascending order; no value is accepted twice |
| Rounds.FinishedIgnoresTaps | app/src/main/java/io/github/hathibelagal/eidetic/MainActivity.java:214 | once the end-of-round dialog is shown, no press changes anything; this rests on the model's reading of that dialog as modal, so no touch reaches the buttons until a new round is dealt (the `Finished` phase) |
| Rounds.PressShortOfNine | app/src/main/java/io/github/hathibelagal/eidetic/MainActivity.java:370-383 | a correct press before 9 keeps the invariant, advances by one, starts the round and leaves the record alone |
| Rounds.PlayAscending | app/src/main/java/io/github/hathibelagal/eidetic/MainActivity.java:370-383 | pressing the next n expected values, short of 9, advances by n and leaves the record alone |
| Rounds.LastPressWins | app/src/main/java/io/github/hathibelagal/eidetic/MainActivity.java:384-387 | with 9 expected, pressing it wins and records the win |
| Rounds.InOrderWins | app/src/main/java/io/github/hathibelagal/eidetic/MainActivity.java:176-183 | from a fresh round, 1..9 in order wins: expected 10, streak +1, one game and one win |
| Rounds.SurvivesStars | app/src/main/java/io/github/hathibelagal/eidetic/MainActivity.java:388-392 | after the start, up to s wrong presses with s stars only spend one star each |
| Rounds.LosesOnOneMistakeTooMany | app/src/main/java/io/github/hathibelagal/eidetic/MainActivity.java:388-397 | the (s+1)-th wrong press loses the round and resets streak and stars |
| Rounds.RepeatedPressCostsNothing | app/src/main/java/io/github/hathibelagal/eidetic/MainActivity.java:371 | 1, 2, 3, 4, 2, 5..9 from a fresh round wins and spends no star |
| Rounds.NoStarSecondMistakeLoses | app/src/main/java/io/github/hathibelagal/eidetic/MainActivity.java:364-397 | with no star, pressing 1 then 3 loses at the second press |

## Left out

- Speaker.java, tones and speech: side effects that no rule depends on.
- Dialogs, menus, animations, toasts, `attachBaseContext`: presentation
  only. The end-of-round dialog appears only as the `Finished` phase. Its
  replay button calls `resetGrid` and its quit button closes the activity.
- Elapsed time, `updateFastestTime` and `updateAdditionalSpeech`: they need
  the clock and code outside this model. The win path keeps only the
  streak and statistics bookkeeping.
- Sound toggle and difficulty toggle: both flip flags inside the record
  store, which is not part of this model. The difficulty toggle then calls
  `reloadGame`, which is modelled (`Game.ReloadGame`). The star allotment
  per difficulty stays abstract as `baseStars`.
- The statistics dialog and its win-rate division: floating point and
  display only.
- Board.CreateButtons: the outer scan is unbounded in the code. The model
  stops when the supplied coins run out, so it states nothing about
  termination beyond that.
