# Team Match Analyzer, modelled in Dafny

The Team Match Analyzer is a console program. It records football match
results in a CSV file (`team_matches.csv`) and prints a season summary. It
also draws two charts: a pie chart of results and a line chart of goals. All of
it lives in one class, `TeamMatchAnalyzer` (`Sample.py`). This project models
that class and proves what it promises:

- the result rule: Win, Loss or Draw from goals for and against;
- recording a match: three prompts, a parse step that can abort, then load,
  append one record and save;
- the season summary: row count, the count of each result, goal sums and the
  win percentage;
- what the chart code is given;
- the menu loop that ties these together.

Modules, one per component:

| file | module | what it models |
|---|---|---|
| `options.dfy` | `Options` | the optional value a failed parse returns |
| `text.dfy` | `Text` | `str.strip()` and `int()` on a console line, each with the whitespace it skips, and `str()` of an integer as the partner of `int()` |
| `matches.dfy` | `Matches` | the match record and the result rule |
| `stats.dfy` | `Stats` | `show_stats`' counts, sums and win percentage |
| `graphs.dfy` | `Graphs` | the data `plot_graphs` hands to the charts |
| `store.dfy` | `Store` | the backing file as the table it holds; `_initialize_file`, `load_data`, `save_data` |
| `recorder.dfy` | `Recorder` | `add_match` as a function of the file and the console lines |
| `menu.dfy` | `Menu` | the menu choice, one turn of `run`, and a whole session as a function |
| `analyzer.dfy` | `Analyzer` | the class `TeamMatchAnalyzer` itself: a field for the file, methods that update it, and the `run` loop |

The pure parts (the result rule, `int()`, the counts and sums) are functions
with lemmas. The parts that change state are methods of the class
`Analyzer.TeamMatchAnalyzer`:

- `add_match` loads, appends and saves;
- `run` is a loop.

Each method is proved equal to the function that specifies it:
`AddMatch` to `Recorder.AddSpec`, `Respond` to `Menu.Respond`, `Run` to
`Menu.Session`. The lemmas about those functions carry the properties.

The console is a sequence of lines. Each `input()` takes the next line. When
no lines remain, `input()` raises `EOFError`:

- inside `add_match`, the generic `except Exception` handler catches it
  (report `AddError`);
- at the menu prompt nothing catches it, and it ends `run` (`InputExhausted`).

The backing file is one of three values:

- `Missing`;
- `Unreadable`: anything `read_csv` rejects (malformed content, no permission);
- `Table(rows)`.

A file deleted after start-up is `Missing` again. Like `Unreadable`, it loads as
the empty table.

Whether the file can be written is the constant `writable`. A failed
`save_data` is only reported, so `add_match` still reports success after it
(`Added`). The model states this.

Consequences of the code that are easy to miss:

- goal values may be negative, and whitespace around them is accepted, because
  `int()` accepts both;
- `int()` skips a smaller set of whitespace than `strip()`: the ASCII
  separators U+001C to U+001F are whitespace to `strip()` but make `int()`
  fail. `Text.Padding` names the two sets;
- the menu compares the stripped choice as text, so `"04"` is an invalid choice.

## Model

| member | source | states |
|---|---|---|
| `Matches.ResultOf` | Sample.py:40-45 | the result is Win exactly when goals for exceed goals against, Loss exactly when they fall short, Draw exactly when they are equal; so exactly one holds |
| `Text.LeadingPadding` | Sample.py:36 | the count is the length of the line's padding prefix: every character before it is padding, and the one at it, if any, is not |
| `Text.TrailingPadding` | Sample.py:36 | the count is the length of the line's padding suffix: every character after the cut is padding, and the one before it, if any, is not |
| `Text.Strip` | Sample.py:36 | stripping (`strip()` with the `isspace()` set, or the skip inside `int()` with its own set) leaves no padding at either end and never lengthens the line |
| `Text.StripSlices` | Sample.py:36 | what is kept is a slice of the line, and everything cut off on either side is padding |
| `Text.StripUnique` | Sample.py:108 | padding a line that has no outer padding on both sides, then stripping, gives that line back |
| `Text.StripKeeps` | Sample.py:108 | a line with no padding at either end is left as it is |
| `Text.StripIdempotent` | Sample.py:108 | stripping twice is stripping once |
| `Text.StripIgnoresPadding` | Sample.py:108 | padding typed around a line does not change what it strips to |
| `Text.ParseInt` | Sample.py:37-38 | `int()` succeeds exactly when, after skipping its whitespace and an optional sign, a numeral remains; the value is that numeral's digits in base 10, negated after a minus |
| `Text.ParseNumeralMeans` | Sample.py:37-38 | the unsigned part of `int()` accepts exactly the digit strings with single underscores between digits, and its value is those digits read in base 10 |
| `Text.ParseIntShowInt` | Sample.py:37-38 | `int()` reads back every integer written in decimal, with or without surrounding whitespace of the kind `int()` skips |
| `Text.ParseIntRejectsWord` | Sample.py:37 | `int("abc")` fails |
| `Text.ParseIntRejectsSpacedSign` | Sample.py:37 | a space between sign and digits makes `int()` fail |
| `Text.ParseIntRejectsDoubleUnderscore` | Sample.py:37 | two underscores in a row make `int()` fail |
| `Text.ParseIntAcceptsPadding` | Sample.py:37 | `int(" +3\n")` is 3 |
| `Text.ParseIntAcceptsUnderscore` | Sample.py:37 | `int("1_000")` is 1000 |
| `Text.ParseIntRejectsSeparator` | Sample.py:36-37 | U+001C before a 5 is stripped by `strip()` but makes `int()` fail |
| `Matches.NewMatch` | Sample.py:40-50 | the new record holds the date, opponent and goals as given, and a result consistent with the goals |
| `Stats.CountResult` | Sample.py:69-71 | at most the row count; zero exactly when no row has that result, the row count exactly when every row has it |
| `Stats.GoalsFor` | Sample.py:72 | the sum is 0 for the empty table; when no goals_for entry is negative, the sum is not negative and is at least every single entry |
| `Stats.GoalsAgainst` | Sample.py:73 | the sum is 0 for the empty table; when no goals_against entry is negative, the sum is not negative and is at least every single entry |
| `Stats.Summarize` | Sample.py:61-73 | no summary exactly when the table is empty; otherwise the total is the row count, wins, draws and losses add up to it, and every field is its count or goal sum over the table |
| `Stats.CountsPartition` | Sample.py:68-71 | every row is counted as exactly one of win, draw, loss |
| `Stats.CountResultAppend` | Sample.py:69-71 | appending a row adds one to the count of its result and nothing to the others |
| `Stats.GoalsAppend` | Sample.py:72-73 | appending a row raises goals scored and conceded by exactly its goals |
| `Stats.CountsFollowGoals` | Sample.py:69-71 | in a table whose results were derived from the goals, the number of wins (draws, losses) is the number of rows with more (equal, fewer) goals for than against |
| `Stats.SummaryAfterAppend` | Sample.py:49-52 | recording a match moves the summary by exactly that match: one more row, one more of its result, its goals added |
| `Stats.WinPercent` | Sample.py:74 | the percentage times the total is the wins times 100; it lies between 0 and 100 when the wins are part of the total |
| `Stats.WinPercentInRange` | Sample.py:74 | the win percentage of a non-empty table lies between 0 and 100 |
| `Stats.PercentBounds` | Sample.py:74 | a count out of a non-zero total, as a percentage, lies between 0 and 100 |
| `Stats.SeasonExample` | Sample.py:66-74 | a 2-1 win, a 0-0 draw and a 1-3 loss give 3 matches, 1 win, 1 draw, 1 loss, 3 scored, 4 conceded and a win percentage of exactly 100/3 |
| `Graphs.Plot` | Sample.py:80-92 | nothing to plot exactly for the empty table; otherwise one pie slice per result that occurs, sized by its count, and one (goals for, goals against) point per match in table order |
| `Graphs.PieCoversEveryMatch` | Sample.py:87 | the pie's slices add up to the number of matches |
| `Store.InitializeFile` | Sample.py:12-16 | a missing file becomes the header-only table; an existing file is left as it is; creating a file that cannot be written raises |
| `Store.InitializeIdempotent` | Sample.py:12-16 | initializing twice is initializing once |
| `Store.Loaded` | Sample.py:18-24 | a readable file loads as its rows; a missing or unreadable one as the empty table |
| `Store.Saved` | Sample.py:26-31 | after a successful save the file is readable and loads as the saved rows; a failed save leaves it as it was |
| `Store.SaveOfLoad` | Sample.py:18-31 | saving a table just loaded reproduces a readable file; an unreadable file is replaced by the header-only table |
| `Recorder.AddSpec` | Sample.py:33-57 | the prompts are read in order and the first failure stops them: a goals_for value that does not parse aborts after 2 lines, a goals_against value after 3, running out of input after every line that was left; a failed add leaves the file untouched; a successful one uses 3 lines and appends exactly one record to what was loaded and saves it, holding the date, the stripped opponent, both goals and their result |
| `Recorder.AddAppendsOneRow` | Sample.py:49-52 | on a readable, writable file a successful add makes the table one row longer, keeps every earlier row, and puts the new record last with its fields and a consistent result |
| `Recorder.AddAfterFailedLoad` | Sample.py:20-24 | after a failed load, a successful add saves a table holding only the new record: the date, the stripped opponent, both goals and their result |
| `Recorder.AddRejectsWord` | Sample.py:37-38 | entering "abc" as goals for is rejected after two prompts, and the file stays as it was |
| `Menu.Dispatch` | Sample.py:108-119 | the stripped lines "1" to "4" select add, stats, graphs and exit; every other line is invalid |
| `Menu.DispatchIgnoresPadding` | Sample.py:108 | whitespace around a choice does not change what it selects |
| `Menu.Respond` | Sample.py:109-119 | one menu turn: "1" runs `add_match` (its file, report and lines consumed are `Recorder.AddSpec`'s), "2" shows the summary of the loaded table, "3" its chart data, anything else is reported invalid; only recording a match changes the file, only the add prompts consume further lines, and the lines left are a suffix of the console |
| `Menu.RespondExtends` | Sample.py:49-52 | one pass through the menu keeps a readable file readable and at most appends rows whose results follow from their goals |
| `Menu.Session` | Sample.py:99-119 | each event shown uses up at least one console line, and exiting uses up one more |
| `Menu.SessionStep` | Sample.py:101-119 | after a line other than "4" the loop goes on: the session shows that turn's event, then continues with the lines left from the file as the turn left it, and ends as that rest ends |
| `Menu.StatsThenExit` | Sample.py:101-117 | the lines "2", "4" show the season summary once, then exit with the file unchanged |
| `Menu.OnlyFourExits` | Sample.py:101-119 | if no line strips to "4", the loop runs until the console has no more lines |
| `Menu.FourExitsAtOnce` | Sample.py:115-117 | a first line that strips to "4" ends the session with nothing shown and the file untouched |
| `Menu.FileChangesOnlyByAdding` | Sample.py:109-119 | a session that records no match leaves the file as it was |
| `Menu.SessionAppendOnly` | Sample.py:49-52 | over a whole session the table only grows: earlier rows stay in place and every added row has the result its goals determine |
| `Menu.SessionCountsAdds` | Sample.py:49-52 | on a writable file each recorded match adds exactly one row; on a file that cannot be written the session leaves it unchanged |
| `Analyzer.TeamMatchAnalyzer.constructor` | Sample.py:8-16 | the object starts with the file as `_initialize_file` leaves it |
| `Analyzer.TeamMatchAnalyzer.LoadData` | Sample.py:18-24 | the rows of a readable file; the empty table and a load error otherwise |
| `Analyzer.TeamMatchAnalyzer.SaveData` | Sample.py:26-31 | the file holds the rows afterwards; a failed write is reported and leaves it unchanged |
| `Analyzer.TeamMatchAnalyzer.AddMatch` | Sample.py:33-57 | the file, report and consumed lines are those `Recorder.AddSpec` gives |
| `Analyzer.TeamMatchAnalyzer.ShowStats` | Sample.py:59-76 | the report is the summary of the loaded table, "no data" when it is empty |
| `Analyzer.TeamMatchAnalyzer.PlotGraphs` | Sample.py:78-97 | the report is the chart data of the loaded table, "nothing to plot" when it is empty |
| `Analyzer.TeamMatchAnalyzer.Respond` | Sample.py:109-119 | one turn of the loop does what `Menu.Respond` says |
| `Analyzer.TeamMatchAnalyzer.Run` | Sample.py:99-119 | the final file, the events shown and how the loop ended are those of `Menu.Session` |

## Left out

- CSV reading and writing through pandas are not modelled. The file is a table
  of typed records, so the model does not capture:
  - how `read_csv` infers column types. When every opponent in the file is
    numeric, such as "123", the column loads as numbers. An empty opponent loads
    as NaN, and so does one in pandas' default missing-value list ("NA",
    "N/A", "NULL", "null", "nan", and "None" in pandas 2.x). `add_match` then
    writes it back empty, so an add does change an earlier row of the file's
    text. `Menu.SessionAppendOnly` and `Recorder.AddAppendsOneRow` hold for
    the records the model keeps, not for the file's text;
  - a file whose column count differs, where building the new row raises a
    `ValueError` that `add_match` reports as invalid input.
- Chart rendering through matplotlib is not modelled. This includes the order of
  the pie's slices, the one-decimal percentage labels, axis labels and whether
  showing a chart blocks. `Graphs.Plot` gives only the data the charts receive.
- `datetime.now()` is not modelled. Each call, or a whole session, takes a
  `today` string, so every match of one session gets the same date.
- Stats.WinPercent: the percentage is the exact rational wins / total × 100.
  The source's float `round(..., 2)` is not modelled.
- Printed messages are not modelled. Load and save errors are booleans; the
  other outcomes are the reports `AddReport`, `StatsReport`, `GraphReport` and
  the session `Event`s.
- Text.ParseInt: only ASCII digits are accepted. Python's `int()` also accepts
  other Unicode decimal digits. The limit of 4300 digits that recent Python
  versions put on `int()` of a string is not modelled either.
- Analyzer.TeamMatchAnalyzer.SaveData: a write that fails part-way can leave
  the real file in any state. The model keeps the previous content.
- Analyzer.TeamMatchAnalyzer.constructor: when the file is missing and cannot be
  created, the source's constructor raises and no object exists. The
  constructor requires that this does not happen. `Store.InitializeFile`
  states the failing case.
- Sums are unbounded integers. pandas' 64-bit overflow on huge goal values is
  not modelled.
- The only exception in the model is running out of input. A
  `KeyboardInterrupt` is not modelled, and neither is another process changing
  the file during a session.
