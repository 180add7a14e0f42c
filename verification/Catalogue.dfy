/** Question categories and difficulties, which every service spells as strings. */
module Catalogue {

  type Category = string
  type Difficulty = string

  const SPORT: Category := "SPORT"
  const MUSIC: Category := "MUSIC"
  const TECH: Category := "TECH"
  const UNKNOWN: Category := "UNKNOWN"

  const EASY: Difficulty := "EASY"
  const MEDIUM: Difficulty := "MEDIUM"
  const HARD: Difficulty := "HARD"

  /** The categories a player can wait in, in the order a tick reads them. */
  function GetCategories(): seq<Category> { [SPORT, MUSIC, TECH] }

  /** The match and game services send a name they do not know to UNKNOWN. */
  function MapToCategory(name: string): Category {
    if name == SPORT || name == MUSIC || name == TECH then name else UNKNOWN
  }

  /** The question service sends a name it does not know to MUSIC. */
  function MapToQuestionCategory(name: string): Category {
    if name == SPORT || name == MUSIC || name == TECH then name else MUSIC
  }

  function MapToDifficulty(name: string): Difficulty {
    if name == EASY || name == MEDIUM || name == HARD then name else UNKNOWN
  }

  /** Names the services do not know: the match and game services keep them apart, the question service does not. */
  lemma UnknownNames(name: string)
    ensures name in ["SPORT", "MUSIC", "TECH"] ==> MapToCategory(name) == name == MapToQuestionCategory(name)
    ensures name !in ["SPORT", "MUSIC", "TECH"] ==>
      MapToCategory(name) == "UNKNOWN" && MapToQuestionCategory(name) == "MUSIC"
    ensures MapToDifficulty(name) == if name in ["EASY", "MEDIUM", "HARD"] then name else "UNKNOWN"
  {}

  lemma CategoriesDiffer()
    ensures SPORT != MUSIC && MUSIC != TECH && SPORT != TECH
    ensures UNKNOWN !in GetCategories()
  {}
}
