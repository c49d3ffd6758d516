/** add_match: read the opponent and the two goal values, derive the result,
    then load, append one record and save. */
module Recorder {
  import opened Options
  import opened Text
  import opened Matches
  import opened Store

  /** What add_match reports: success, the ValueError of a goal value that is
      not an integer, or any other exception (here: input ran out). */
  datatype AddReport = Added | InvalidNumber | AddError

  /** The file after the call, the report, and how many console lines the
      three prompts consumed. */
  datatype AddStep = AddStep(file: Stored, report: AddReport, consumed: nat)

  /** add_match with its prompts answered by the lines of `input` and the
      date stamp `today`. A goal value that does not parse aborts before the
      file is loaded; otherwise exactly one record, built from the stripped
      opponent, the two goal values and their result, is appended to what
      was loaded and saved. */
  function AddSpec(f: Stored, writable: bool, today: string, input: seq<string>): (r: AddStep)
    ensures r.consumed <= |input| && r.consumed <= 3
    ensures r.report == Added <==> |input| >= 3 && ParseInt(input[1]).Some? && ParseInt(input[2]).Some?
    ensures r.report == InvalidNumber <==>
      || (|input| >= 2 && ParseInt(input[1]).None?)
      || (|input| >= 3 && ParseInt(input[1]).Some? && ParseInt(input[2]).None?)
    ensures r.report != Added ==> r.file == f
    ensures r.report == AddError ==> r.consumed == |input|
    ensures r.report == InvalidNumber ==> r.consumed == if ParseInt(input[1]).None? then 2 else 3
    ensures r.report == Added ==>
      && r.consumed == 3
      && r.file == Saved(f, writable,
           Loaded(f) + [NewMatch(today, Strip(StrSpace, input[0]), ParseInt(input[1]).value, ParseInt(input[2]).value)])
  {
    if |input| < 1 then AddStep(f, AddError, 0)
    else
      var opponent := Strip(StrSpace, input[0]);
      if |input| < 2 then AddStep(f, AddError, 1)
      else
        match ParseInt(input[1])
        case None => AddStep(f, InvalidNumber, 2)
        case Some(gf) =>
          if |input| < 3 then AddStep(f, AddError, 2)
          else
            match ParseInt(input[2])
            case None => AddStep(f, InvalidNumber, 3)
            case Some(ga) =>
              var rows := Loaded(f) + [NewMatch(today, opponent, gf, ga)];
              AddStep(Saved(f, writable, rows), Added, 3)
  }

  /** A successful add on a readable, writable file leaves the table one row
      longer: every earlier row as it was, and last the new record with the
      stripped opponent, the parsed goals and the result they determine. */
  lemma AddAppendsOneRow(f: Stored, today: string, input: seq<string>)
    requires f.Table?
    requires AddSpec(f, true, today, input).report == Added
    ensures var r := AddSpec(f, true, today, input);
      && r.file.Table?
      && |r.file.rows| == |f.rows| + 1
      && r.file.rows[..|f.rows|] == f.rows
      && var m := r.file.rows[|f.rows|];
         && m.date == today && m.opponent == Strip(StrSpace, input[0])
         && Some(m.goalsFor) == ParseInt(input[1]) && Some(m.goalsAgainst) == ParseInt(input[2])
         && Consistent(m)
  {
    var r := AddSpec(f, true, today, input);
    assert r.file.rows[..|f.rows|] == f.rows;
  }

  /** When the file cannot be read, the add saves a table holding only the
      new row: what the file held before is lost. */
  lemma AddAfterFailedLoad(today: string, input: seq<string>)
    requires AddSpec(Unreadable, true, today, input).report == Added
    ensures AddSpec(Unreadable, true, today, input).file ==
      Table([NewMatch(today, Strip(StrSpace, input[0]), ParseInt(input[1]).value, ParseInt(input[2]).value)])
  {
  }

  /** A non-numeric goals_for value is rejected after its prompt, before the
      goals_against prompt, and the file stays as it was. */
  lemma AddRejectsWord(f: Stored, writable: bool, today: string)
    ensures AddSpec(f, writable, today, ["Rivals", "abc", "2"]) == AddStep(f, InvalidNumber, 2)
  {
    ParseIntRejectsWord();
  }
}
