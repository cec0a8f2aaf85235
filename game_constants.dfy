/** The per-difficulty settings table (`DIFFICULTY_SETTINGS`). */
module GameConstants {

  datatype Difficulty = Easy | Medium | Hard

  /** One row of the table: the attempt budget and the upper end of the number range. */
  datatype DifficultySetting = DifficultySetting(attempts: int, range: int)

  /** The table as a total function of the tier; every tier is usable. */
  function Settings(d: Difficulty): (s: DifficultySetting)
    ensures s.attempts >= 1 && s.range >= 1
  {
    match d
    case Easy => DifficultySetting(15, 50)
    case Medium => DifficultySetting(10, 100)
    case Hard => DifficultySetting(5, 200)
  }

  /** Position of a tier from easiest to hardest. */
  function Rank(d: Difficulty): (k: nat)
    ensures k <= 2
  {
    match d
    case Easy => 0
    case Medium => 1
    case Hard => 2
  }

  lemma SettingsValues()
    ensures Settings(Easy) == DifficultySetting(15, 50)
    ensures Settings(Medium) == DifficultySetting(10, 100)
    ensures Settings(Hard) == DifficultySetting(5, 200)
  {
  }

  /** A harder tier gives strictly fewer attempts over a strictly wider range. */
  lemma HarderTierIsStricter(easier: Difficulty, harder: Difficulty)
    requires Rank(easier) < Rank(harder)
    ensures Settings(harder).attempts < Settings(easier).attempts
    ensures Settings(easier).range < Settings(harder).range
  {
  }
}
