/** What plot_graphs hands to the chart library: the result counts for the
    pie chart and the two goal series for the line chart. */
module Graphs {
  import opened Matches
  import opened Stats

  /** "No data to plot", or the data of the two charts: the pie's slices
      (one per result that occurs) and the line chart's points, one
      (goals_for, goals_against) pair per match in table order. */
  datatype GraphReport = NothingToPlot | Charts(slices: map<Outcome, nat>, series: seq<(int, int)>)

  function Plot(t: seq<Match>): (r: GraphReport)
    ensures r.NothingToPlot? <==> t == []
    ensures r.Charts? ==> forall o :: o in r.slices <==> CountResult(t, o) > 0
    ensures r.Charts? ==> forall o :: o in r.slices ==> r.slices[o] == CountResult(t, o)
    ensures r.Charts? ==> |r.series| == |t|
    ensures r.Charts? ==> forall i :: 0 <= i < |t| ==> r.series[i] == (t[i].goalsFor, t[i].goalsAgainst)
  {
    if t == [] then NothingToPlot
    else
      var slices := map o | o in {Win, Loss, Draw} && CountResult(t, o) > 0 :: CountResult(t, o);
      Charts(slices, seq(|t|, i requires 0 <= i < |t| => (t[i].goalsFor, t[i].goalsAgainst)))
  }

  /** The size of one slice; a result that never occurs has no slice. */
  function Slice(slices: map<Outcome, nat>, o: Outcome): nat
  {
    if o in slices then slices[o] else 0
  }

  /** The pie's slices together cover every match exactly once, so its
      percentages add up to 100. */
  lemma PieCoversEveryMatch(t: seq<Match>)
    requires t != []
    ensures var s := Plot(t).slices; Slice(s, Win) + Slice(s, Draw) + Slice(s, Loss) == |t|
  {
    CountsPartition(t);
  }
}
