/** The main menu of run(): how a console line selects an action, and the
    whole interactive session as a function of the lines typed. */
module Menu {
  import opened Text
  import opened Matches
  import opened Store
  import opened Stats
  import opened Graphs
  import opened Recorder

  datatype Choice = AddChoice | StatsChoice | GraphsChoice | ExitChoice | InvalidChoice

  /** The stripped line "1", "2", "3" or "4" selects add, stats, graphs or
      exit; every other line is an invalid choice. The comparison is on text,
      so "04" or "4.0" is invalid. */
  function Dispatch(line: string): (c: Choice)
    ensures c == AddChoice <==> Strip(StrSpace, line) == "1"
    ensures c == StatsChoice <==> Strip(StrSpace, line) == "2"
    ensures c == GraphsChoice <==> Strip(StrSpace, line) == "3"
    ensures c == ExitChoice <==> Strip(StrSpace, line) == "4"
  {
    var choice := Strip(StrSpace, line);
    if choice == "1" then AddChoice
    else if choice == "2" then StatsChoice
    else if choice == "3" then GraphsChoice
    else if choice == "4" then ExitChoice
    else InvalidChoice
  }

  /** Whitespace typed around a choice does not change what it selects. */
  lemma DispatchIgnoresPadding(before: string, line: string, after: string)
    requires AllPadding(StrSpace, before) && AllPadding(StrSpace, after)
    ensures Dispatch(before + line + after) == Dispatch(line)
  {
    StripIgnoresPadding(StrSpace, before, line, after);
  }

  /** What one pass through the menu shows the user. */
  datatype Event =
    | MatchEntered(add: AddReport)
    | StatsShown(stats: StatsReport)
    | GraphsShown(graphs: GraphReport)
    | InvalidChoiceReported

  /** The loop ends on "4", or by the EOFError of an input() at the menu
      prompt when the console has no more lines (it escapes run()). */
  datatype SessionEnd = Exited | InputExhausted

  datatype SessionResult = SessionResult(file: Stored, events: seq<Event>, end: SessionEnd)

  /** `r` preceded by the events already shown. */
  function After(shown: seq<Event>, r: SessionResult): SessionResult
  {
    SessionResult(r.file, shown + r.events, r.end)
  }

  lemma AfterAfter(first: seq<Event>, second: seq<Event>, r: SessionResult)
    ensures After(first, After(second, r)) == After(first + second, r)
  {
    assert first + (second + r.events) == (first + second) + r.events;
  }

  /** The file, the event shown, and the console lines left after one pass
      through the menu. */
  datatype Turn = Turn(file: Stored, event: Event, rest: seq<string>)

  /** The branch of run() a choice other than "4" takes, with `rest` the
      console lines after the choice. Only recording a match can change the
      file, and only the add prompts consume further lines. */
  function Respond(f: Stored, writable: bool, today: string, choice: Choice, rest: seq<string>): (t: Turn)
    requires choice != ExitChoice
    ensures |t.rest| <= |rest| && t.rest == rest[|rest| - |t.rest|..]
    ensures t.event != MatchEntered(Added) ==> t.file == f
    ensures choice != AddChoice ==> t.rest == rest
    ensures choice == AddChoice ==>
      var a := AddSpec(f, writable, today, rest);
      t.file == a.file && t.event == MatchEntered(a.report) && t.rest == rest[a.consumed..]
    ensures choice == StatsChoice ==> t.event == StatsShown(Summarize(Loaded(f)))
    ensures choice == GraphsChoice ==> t.event == GraphsShown(Plot(Loaded(f)))
    ensures choice == InvalidChoice ==> t.event == InvalidChoiceReported
  {
    match choice
    case AddChoice =>
      var a := AddSpec(f, writable, today, rest);
      Turn(a.file, MatchEntered(a.report), rest[a.consumed..])
    case StatsChoice => Turn(f, StatsShown(Summarize(Loaded(f))), rest)
    case GraphsChoice => Turn(f, GraphsShown(Plot(Loaded(f))), rest)
    case InvalidChoice => Turn(f, InvalidChoiceReported, rest)
  }

  /** run() on a console holding the lines of `input`, every new match
      stamped `today`. */
  function Session(f: Stored, writable: bool, today: string, input: seq<string>): (r: SessionResult)
    ensures |r.events| + (if r.end == Exited then 1 else 0) <= |input|
    ensures r.end == Exited ==> input != []
    decreases |input|
  {
    if input == [] then SessionResult(f, [], InputExhausted)
    else if Dispatch(input[0]) == ExitChoice then SessionResult(f, [], Exited)
    else
      var t := Respond(f, writable, today, Dispatch(input[0]), input[1..]);
      After([t.event], Session(t.file, writable, today, t.rest))
  }

  /** The number of matches the session recorded. */
  function AddedCount(events: seq<Event>): nat
  {
    if events == [] then 0
    else (if events[0] == MatchEntered(Added) then 1 else 0) + AddedCount(events[1..])
  }

  lemma {:induction false} AddedCountAfter(shown: seq<Event>, events: seq<Event>)
    ensures AddedCount(shown + events) == AddedCount(shown) + AddedCount(events)
  {
    if shown == [] {
      assert shown + events == events;
    } else {
      assert (shown + events)[1..] == shown[1..] + events;
      AddedCountAfter(shown[1..], events);
    }
  }

  /** One pass through the menu, then the loop goes on: after a line other
      than "4" the session shows that turn's event and continues with the
      lines left, from the file as the turn left it; the file, the end and
      the count of recorded matches are those of the rest of the session. */
  lemma SessionStep(f: Stored, writable: bool, today: string, input: seq<string>)
    requires input != [] && Dispatch(input[0]) != ExitChoice
    ensures var t := Respond(f, writable, today, Dispatch(input[0]), input[1..]);
      var r, tail := Session(f, writable, today, input), Session(t.file, writable, today, t.rest);
      && r.events == [t.event] + tail.events
      && r.end == tail.end
      && r.file == tail.file
      && AddedCount(r.events) == AddedCount(tail.events) + (if t.event == MatchEntered(Added) then 1 else 0)
  {
    var t := Respond(f, writable, today, Dispatch(input[0]), input[1..]);
    AddedCountAfter([t.event], Session(t.file, writable, today, t.rest).events);
  }

  /** No line of `input` strips to "4". */
  predicate NoExitLine(input: seq<string>)
  {
    forall i :: 0 <= i < |input| ==> Strip(StrSpace, input[i]) != "4"
  }

  lemma NoExitLineSuffix(input: seq<string>, k: nat)
    requires NoExitLine(input) && k <= |input|
    ensures NoExitLine(input[k..])
  {
    assert forall i :: 0 <= i < |input[k..]| ==> input[k..][i] == input[i + k];
  }

  /** Without a "4" the loop never stops early: a console on which no line
      at all strips to "4" (neither a menu choice nor an answer to an add
      prompt) runs until its input is exhausted. A "4" at any later menu
      prompt exits by SessionStep and FourExitsAtOnce. */
  lemma {:induction false} OnlyFourExits(f: Stored, writable: bool, today: string, input: seq<string>)
    requires NoExitLine(input)
    ensures Session(f, writable, today, input).end == InputExhausted
    decreases |input|
  {
    if input != [] {
      var t := Respond(f, writable, today, Dispatch(input[0]), input[1..]);
      SessionStep(f, writable, today, input);
      var k := |input| - |t.rest|;
      assert t.rest == input[k..];
      NoExitLineSuffix(input, k);
      OnlyFourExits(t.file, writable, today, t.rest);
    }
  }

  /** A first line that strips to "4" ends the session at once, with the
      file untouched and nothing shown. */
  lemma FourExitsAtOnce(f: Stored, writable: bool, today: string, input: seq<string>)
    requires input != [] && Strip(StrSpace, input[0]) == "4"
    ensures Session(f, writable, today, input) == SessionResult(f, [], Exited)
  {
  }

  /** "2" shows the season summary and the loop goes on to read the next
      menu line, where "4" exits. */
  lemma StatsThenExit(f: Stored, writable: bool, today: string)
    ensures Session(f, writable, today, ["2", "4"]) ==
      SessionResult(f, [StatsShown(Summarize(Loaded(f)))], Exited)
  {
    var input := ["2", "4"];
    StripKeeps(StrSpace, "2");
    StripKeeps(StrSpace, "4");
    assert input[0] == "2" && input[1..] == ["4"];
    var t := Respond(f, writable, today, StatsChoice, ["4"]);
    SessionStep(f, writable, today, input);
    FourExitsAtOnce(t.file, writable, today, t.rest);
  }

  /** Only recorded matches change the file: stats, graphs, invalid choices
      and rejected entries leave it as it was. */
  lemma {:induction false} FileChangesOnlyByAdding(f: Stored, writable: bool, today: string, input: seq<string>)
    requires AddedCount(Session(f, writable, today, input).events) == 0
    ensures Session(f, writable, today, input).file == f
    decreases |input|
  {
    if input != [] && Dispatch(input[0]) != ExitChoice {
      var t := Respond(f, writable, today, Dispatch(input[0]), input[1..]);
      SessionStep(f, writable, today, input);
      FileChangesOnlyByAdding(t.file, writable, today, t.rest);
    }
  }

  /** `after` is `before` with rows added at the end, each carrying the
      result its goals determine. */
  ghost predicate Extends(before: seq<Match>, after: seq<Match>)
  {
    && |before| <= |after|
    && after[..|before|] == before
    && forall i :: |before| <= i < |after| ==> Consistent(after[i])
  }

  lemma ExtendsTransitive(a: seq<Match>, b: seq<Match>, c: seq<Match>)
    requires Extends(a, b) && Extends(b, c)
    ensures Extends(a, c)
  {
    assert c[..|a|] == c[..|b|][..|a|];
  }

  /** One pass through the menu keeps a readable file readable and at most
      appends to it a row whose result follows from its goals. */
  lemma RespondExtends(f: Stored, writable: bool, today: string, choice: Choice, rest: seq<string>)
    requires f.Table? && choice != ExitChoice
    ensures var t := Respond(f, writable, today, choice, rest);
      t.file.Table? && Extends(f.rows, t.file.rows)
  {
    assert f.rows[..|f.rows|] == f.rows;
    var t := Respond(f, writable, today, choice, rest);
    if t.file != f {
      assert t.file.rows == f.rows + [t.file.rows[|f.rows|]];
    }
  }

  /** The table only grows: starting from a readable file, every earlier row
      survives in place and every added row carries the result its goals
      determine (no edit, no delete). */
  lemma {:induction false} SessionAppendOnly(f: Stored, writable: bool, today: string, input: seq<string>)
    requires f.Table?
    ensures var r := Session(f, writable, today, input); r.file.Table? && Extends(f.rows, r.file.rows)
    decreases |input|
  {
    assert f.rows[..|f.rows|] == f.rows;
    if input != [] && Dispatch(input[0]) != ExitChoice {
      var t := Respond(f, writable, today, Dispatch(input[0]), input[1..]);
      SessionStep(f, writable, today, input);
      RespondExtends(f, writable, today, Dispatch(input[0]), input[1..]);
      SessionAppendOnly(t.file, writable, today, t.rest);
      ExtendsTransitive(f.rows, t.file.rows, Session(t.file, writable, today, t.rest).file.rows);
    }
  }

  /** Each recorded match is exactly one more row, when the file starts
      readable and is writable; when it cannot be written, the session
      leaves it as it was. */
  lemma {:induction false} SessionCountsAdds(f: Stored, writable: bool, today: string, input: seq<string>)
    requires f.Table?
    ensures var r := Session(f, writable, today, input);
      && (writable ==> r.file.Table? && |r.file.rows| == |f.rows| + AddedCount(r.events))
      && (!writable ==> r.file == f)
    decreases |input|
  {
    if input != [] && Dispatch(input[0]) != ExitChoice {
      var t := Respond(f, writable, today, Dispatch(input[0]), input[1..]);
      SessionStep(f, writable, today, input);
      SessionCountsAdds(t.file, writable, today, t.rest);
    }
  }
}
