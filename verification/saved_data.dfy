/**
  The player's persisted record, as far as the round rules touch it. The
  store itself (keys, persistence, the per-difficulty star allotment and the
  fastest-time record) is not part of this model: each operation below is
  given the meaning its name states.
 */
module SavedData {

  /**
    stars: mistakes still forgiven in this round; baseStars: the allotment
    resetStars restores (it depends on the difficulty setting); streak:
    consecutive wins; games, wins: aggregate statistics; language: the
    numeral system id.
   */
  datatype Profile = Profile(
    stars: nat,
    baseStars: nat,
    streak: nat,
    games: nat,
    wins: nat,
    language: int
  )

  function ResetStreak(p: Profile): (r: Profile) {
    p.(streak := 0)
  }

  function IncrementStreak(p: Profile): (r: Profile) {
    p.(streak := p.streak + 1)
  }

  function ResetStars(p: Profile): (r: Profile) {
    p.(stars := p.baseStars)
  }

  /** Only called while a star is left. */
  function DecrementStarsAvailable(p: Profile): (r: Profile)
    requires p.stars > 0
  {
    p.(stars := p.stars - 1)
  }

  /** Counts one more finished round, and one more win when `won`. */
  function UpdateStats(p: Profile, won: bool): (r: Profile) {
    p.(games := p.games + 1, wins := if won then p.wins + 1 else p.wins)
  }

  function SetLanguage(p: Profile, language: int): (r: Profile) {
    p.(language := language)
  }
}
