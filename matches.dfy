/** One row of the match table and the rule that derives its result. */
module Matches {

  datatype Outcome = Win | Loss | Draw

  /** A match record, in the column order of the backing file:
      date, opponent, goals_for, goals_against, result. */
  datatype Match = Match(date: string, opponent: string, goalsFor: int, goalsAgainst: int, result: Outcome)

  /** The result of a match from the goals scored and conceded: exactly one
      of the three outcomes, each for exactly its comparison. */
  function ResultOf(goalsFor: int, goalsAgainst: int): (r: Outcome)
    ensures r == Win <==> goalsFor > goalsAgainst
    ensures r == Loss <==> goalsFor < goalsAgainst
    ensures r == Draw <==> goalsFor == goalsAgainst
  {
    if goalsFor > goalsAgainst then Win
    else if goalsFor < goalsAgainst then Loss
    else Draw
  }

  /** A record as add_match builds it: the fields as given, and a result
      that agrees with the goals. */
  function NewMatch(date: string, opponent: string, goalsFor: int, goalsAgainst: int): (m: Match)
    ensures m.date == date && m.opponent == opponent
    ensures m.goalsFor == goalsFor && m.goalsAgainst == goalsAgainst
    ensures Consistent(m)
  {
    Match(date, opponent, goalsFor, goalsAgainst, ResultOf(goalsFor, goalsAgainst))
  }

  /** The stored result agrees with the stored goals. */
  predicate Consistent(m: Match)
  {
    m.result == ResultOf(m.goalsFor, m.goalsAgainst)
  }

  predicate AllConsistent(t: seq<Match>)
  {
    forall i :: 0 <= i < |t| ==> Consistent(t[i])
  }
}
