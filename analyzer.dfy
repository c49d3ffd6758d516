/** The TeamMatchAnalyzer object: the backing file it reads and rewrites on
    every change, and the menu loop that drives it. */
module Analyzer {
  import opened Text
  import opened Matches
  import opened Stats
  import opened Graphs
  import opened Store
  import opened Recorder
  import opened Menu

  class TeamMatchAnalyzer {
    /** What the backing file holds. */
    var file: Stored
    /** Whether the environment lets the program write the backing file. */
    const writable: bool

    /** __init__ and _initialize_file: `existing` is what the file system
        holds at start; a missing file is created with the header only. */
    constructor (existing: Stored, writable: bool)
      requires InitializeFile(existing, writable).Some?
      ensures this.writable == writable
      ensures file == InitializeFile(existing, writable).value
    {
      this.writable := writable;
      file := existing;
      new;
      if file == Missing {
        file := Table([]);
      }
    }

    /** load_data: the rows of the file, or the empty table, with `ok` false
        for the reported load error, when the file cannot be read. */
    method LoadData() returns (rows: seq<Match>, ok: bool)
      ensures ok <==> file.Table?
      ensures ok ==> rows == file.rows
      ensures !ok ==> rows == []
    {
      match file
      case Table(t) =>
        rows, ok := t, true;
      case _ =>
        rows, ok := [], false;
    }

    /** save_data: overwrite the file with `rows`; a failed write is only
        reported (`ok` false) and leaves the file as it was. */
    method SaveData(rows: seq<Match>) returns (ok: bool)
      modifies this
      ensures ok == writable
      ensures file == Saved(old(file), writable, rows)
    {
      ok := writable;
      if writable {
        file := Table(rows);
      }
    }

    /** add_match, its three prompts answered by the first lines of `input`;
        `rest` is what the prompts did not consume. */
    method AddMatch(today: string, input: seq<string>) returns (report: AddReport, rest: seq<string>)
      modifies this
      ensures var a := AddSpec(old(file), writable, today, input);
        file == a.file && report == a.report && rest == input[a.consumed..]
    {
      if |input| < 1 {
        return AddError, input;
      }
      var opponent := Strip(StrSpace, input[0]);
      if |input| < 2 {
        return AddError, input[1..];
      }
      var gf := ParseInt(input[1]);
      if gf.None? {
        return InvalidNumber, input[2..];
      }
      if |input| < 3 {
        return AddError, input[2..];
      }
      var ga := ParseInt(input[2]);
      if ga.None? {
        return InvalidNumber, input[3..];
      }
      var record := NewMatch(today, opponent, gf.value, ga.value);
      var rows, loaded := LoadData();
      rows := rows + [record];
      var saved := SaveData(rows);
      report, rest := Added, input[3..];
    }

    /** show_stats: "no data" for an empty table, else the season summary. */
    method ShowStats() returns (report: StatsReport)
      ensures report == Summarize(Loaded(file))
    {
      var rows, loaded := LoadData();
      report := Summarize(rows);
    }

    /** plot_graphs: "nothing to plot" for an empty table, else the data of
        the two charts. */
    method PlotGraphs() returns (report: GraphReport)
      ensures report == Plot(Loaded(file))
    {
      var rows, loaded := LoadData();
      report := Plot(rows);
    }

    /** One branch of run's if/elif chain, for a choice other than "4". */
    method Respond(choice: Choice, today: string, rest: seq<string>) returns (event: Event, left: seq<string>)
      requires choice != ExitChoice
      modifies this
      ensures Turn(file, event, left) == Menu.Respond(old(file), writable, today, choice, rest)
    {
      match choice
      case AddChoice =>
        var report;
        report, left := AddMatch(today, rest);
        event := MatchEntered(report);
      case StatsChoice =>
        var stats := ShowStats();
        event, left := StatsShown(stats), rest;
      case GraphsChoice =>
        var graphs := PlotGraphs();
        event, left := GraphsShown(graphs), rest;
      case InvalidChoice =>
        event, left := InvalidChoiceReported, rest;
    }

    /** run: read a choice, dispatch, repeat until "4" or until the console
        has no more lines. */
    method Run(today: string, input: seq<string>) returns (events: seq<Event>, end: SessionEnd)
      modifies this
      ensures SessionResult(file, events, end) == Session(old(file), writable, today, input)
    {
      var rest := input;
      events := [];
      while rest != []
        invariant Session(old(file), writable, today, input) == After(events, Session(file, writable, today, rest))
        decreases |rest|
      {
        var choice := Dispatch(rest[0]);
        if choice == ExitChoice {
          assert events + [] == events;
          return events, Exited;
        }
        var event;
        event, rest := Respond(choice, today, rest[1..]);
        AfterAfter(events, [event], Session(file, writable, today, rest));
        events := events + [event];
      }
      assert events + [] == events;
      end := InputExhausted;
    }
  }
}
