/**
 * A worked example of the champion-line choice: a page whose only line
 * mentions no keyword.
 */
module SeasonExample {
  import opened Champion
  import opened Season

  /** A line of no keyword, written in pieces. */
  const TeamXLine: string := "Team X " + "finished " + "the season " + "strong."

  lemma TeamXLineNoC()
    ensures 'c' !in TeamXLine && 'C' !in TeamXLine
  {
  }

  lemma TeamXLineNoP()
    ensures 'p' !in TeamXLine && 'P' !in TeamXLine
  {
  }

  lemma TeamXNoKeyword()
    ensures !MentionsChampion(TeamXLine)
  {
    TeamXLineNoC();
    TeamXLineNoP();
    NoKeywordWithoutCOrP(TeamXLine);
  }

  /** "Team X finished the season strong." alone gives "Not found". */
  lemma TeamXNotFound()
    ensures ChampionFromLines([TeamXLine]) == NotFound
  {
    TeamXNoKeyword();
    NoKeywordLineNotFound(TeamXLine);
  }
}
