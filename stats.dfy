/** The season summary show_stats prints: row count, the count of each
    result, the goal sums and the win percentage. */
module Stats {
  import opened Matches

  /** The number of rows whose result column holds `o`. */
  function CountResult(t: seq<Match>, o: Outcome): (n: nat)
    ensures n <= |t|
    ensures n == 0 <==> forall i :: 0 <= i < |t| ==> t[i].result != o
    ensures n == |t| <==> forall i :: 0 <= i < |t| ==> t[i].result == o
  {
    if t == [] then 0
    else (if t[0].result == o then 1 else 0) + CountResult(t[1..], o)
  }

  /** The number of rows whose goals make them an `o`, whatever their result
      column says. */
  function CountDerived(t: seq<Match>, o: Outcome): (n: nat)
    ensures n <= |t|
  {
    if t == [] then 0
    else (if ResultOf(t[0].goalsFor, t[0].goalsAgainst) == o then 1 else 0) + CountDerived(t[1..], o)
  }

  /** The sum of the goals_for column: 0 for the empty table; never
      negative when no entry is, and then at least every single entry. */
  function GoalsFor(t: seq<Match>): (g: int)
    ensures t == [] ==> g == 0
    ensures (forall i :: 0 <= i < |t| ==> t[i].goalsFor >= 0) ==>
      0 <= g && forall i :: 0 <= i < |t| ==> t[i].goalsFor <= g
  {
    if t == [] then 0 else t[0].goalsFor + GoalsFor(t[1..])
  }

  /** The sum of the goals_against column: 0 for the empty table; never
      negative when no entry is, and then at least every single entry. */
  function GoalsAgainst(t: seq<Match>): (g: int)
    ensures t == [] ==> g == 0
    ensures (forall i :: 0 <= i < |t| ==> t[i].goalsAgainst >= 0) ==>
      0 <= g && forall i :: 0 <= i < |t| ==> t[i].goalsAgainst <= g
  {
    if t == [] then 0 else t[0].goalsAgainst + GoalsAgainst(t[1..])
  }

  datatype Summary = Summary(
    total: nat, wins: nat, draws: nat, losses: nat, goalsScored: int, goalsConceded: int)

  /** What show_stats reports: "no match data yet", or the season summary. */
  datatype StatsReport = NoData | Season(summary: Summary)

  /** show_stats over a loaded table: no summary for an empty table;
      otherwise the row count, split exactly into wins, draws and losses,
      and the two goal sums. */
  function Summarize(t: seq<Match>): (r: StatsReport)
    ensures r.NoData? <==> t == []
    ensures r.Season? ==> r.summary.total == |t| > 0
    ensures r.Season? ==> r.summary.wins + r.summary.draws + r.summary.losses == r.summary.total
    ensures r.Season? ==> r.summary == Summary(|t|, CountResult(t, Win), CountResult(t, Draw),
                                               CountResult(t, Loss), GoalsFor(t), GoalsAgainst(t))
  {
    if t == [] then NoData
    else
      CountsPartition(t);
      Season(Summary(|t|, CountResult(t, Win), CountResult(t, Draw), CountResult(t, Loss),
                     GoalsFor(t), GoalsAgainst(t)))
  }

  /** The win percentage, exactly: the share `r` of the total, in percent,
      that the wins make up; between 0 and 100 when the wins are part of the
      total. */
  function WinPercent(s: Summary): (r: real)
    requires s.total > 0
    ensures r * (s.total as real) == (s.wins as real) * 100.0
    ensures s.wins <= s.total ==> 0.0 <= r <= 100.0
  {
    if s.wins <= s.total then PercentBounds(s.wins, s.total); Percent(s.wins, s.total)
    else Percent(s.wins, s.total)
  }

  function Percent(part: nat, whole: nat): real
    requires whole > 0
  {
    (part as real) * 100.0 / (whole as real)
  }

  /** Every row has exactly one of the three results. */
  lemma {:induction false} CountsPartition(t: seq<Match>)
    ensures CountResult(t, Win) + CountResult(t, Draw) + CountResult(t, Loss) == |t|
  {
    if t != [] {
      CountsPartition(t[1..]);
    }
  }

  /** Appending a row adds one to the count of its result and nothing to
      the others. */
  lemma {:induction false} CountResultAppend(t: seq<Match>, m: Match, o: Outcome)
    ensures CountResult(t + [m], o) == CountResult(t, o) + (if m.result == o then 1 else 0)
  {
    if t != [] {
      assert (t + [m])[1..] == t[1..] + [m];
      CountResultAppend(t[1..], m, o);
    }
  }

  /** Appending a row raises the goal sums by exactly its goals. */
  lemma {:induction false} GoalsAppend(t: seq<Match>, m: Match)
    ensures GoalsFor(t + [m]) == GoalsFor(t) + m.goalsFor
    ensures GoalsAgainst(t + [m]) == GoalsAgainst(t) + m.goalsAgainst
  {
    if t != [] {
      assert (t + [m])[1..] == t[1..] + [m];
      GoalsAppend(t[1..], m);
    }
  }

  /** In a table whose results were derived from the goals, counting the
      result column is counting the goal comparisons: wins are the matches
      with more goals for than against, and so on. */
  lemma {:induction false} CountsFollowGoals(t: seq<Match>, o: Outcome)
    requires AllConsistent(t)
    ensures CountResult(t, o) == CountDerived(t, o)
  {
    if t != [] {
      assert Consistent(t[0]);
      CountsFollowGoals(t[1..], o);
    }
  }

  /** Recording a match moves the summary by exactly that match: one more
      row, one more of its result, its goals added to the sums. */
  lemma SummaryAfterAppend(t: seq<Match>, m: Match)
    ensures Summarize(t + [m]).Season?
    ensures var s := Summarize(t + [m]).summary;
      && s.total == |t| + 1
      && s.wins == CountResult(t, Win) + (if m.result == Win then 1 else 0)
      && s.draws == CountResult(t, Draw) + (if m.result == Draw then 1 else 0)
      && s.losses == CountResult(t, Loss) + (if m.result == Loss then 1 else 0)
      && s.goalsScored == GoalsFor(t) + m.goalsFor
      && s.goalsConceded == GoalsAgainst(t) + m.goalsAgainst
  {
    CountResultAppend(t, m, Win);
    CountResultAppend(t, m, Draw);
    CountResultAppend(t, m, Loss);
    GoalsAppend(t, m);
  }

  /** The win percentage of a non-empty table lies between 0 and 100. */
  lemma WinPercentInRange(t: seq<Match>)
    requires t != []
    ensures 0.0 <= WinPercent(Summarize(t).summary) <= 100.0
  {
    var s := Summarize(t).summary;
    PercentBounds(s.wins, s.total);
  }

  /** A share of `part` out of `whole`, in percent, is between 0 and 100. */
  lemma PercentBounds(part: nat, whole: nat)
    requires part <= whole && whole > 0
    ensures 0.0 <= Percent(part, whole) <= 100.0
  {
    var p, w := part as real, whole as real;
    var q := Percent(part, whole);
    assert q * w == p * 100.0;
    assert (100.0 - q) * w == (w - p) * 100.0;
  }

  /** A season of one win 2-1, one draw 0-0 and one loss 1-3. */
  lemma SeasonExample()
    ensures var t := [Match("d1", "A", 2, 1, Win), Match("d2", "B", 0, 0, Draw), Match("d3", "C", 1, 3, Loss)];
      && Summarize(t) == Season(Summary(3, 1, 1, 1, 3, 4))
      && WinPercent(Summarize(t).summary) == 100.0 / 3.0
  {
    var t := [Match("d1", "A", 2, 1, Win), Match("d2", "B", 0, 0, Draw), Match("d3", "C", 1, 3, Loss)];
    assert t[1..][1..][1..] == [];
  }
}
