/** The backing CSV file, seen as the table it holds: what
    _initialize_file, load_data and save_data do to it. */
module Store {
  import opened Options
  import opened Matches

  /** The backing file as the program finds it: absent, present but not
      readable as a table (malformed, no permission), or a table. A file
      deleted while the program runs is `Missing` again. */
  datatype Stored = Missing | Unreadable | Table(rows: seq<Match>)

  /** _initialize_file: a missing file is created holding the header only;
      a file that exists is left alone, whatever it holds. `None` is the
      exception the constructor raises when the file cannot be created. */
  function InitializeFile(f: Stored, writable: bool): (r: Option<Stored>)
    ensures r.None? <==> f == Missing && !writable
    ensures r.Some? ==> r.value != Missing
    ensures f != Missing ==> r == Some(f)
    ensures f == Missing && writable ==> r == Some(Table([]))
  {
    if f == Missing then (if writable then Some(Table([])) else None)
    else Some(f)
  }

  /** load_data: the rows of the file, or the empty table when reading fails. */
  function Loaded(f: Stored): (rows: seq<Match>)
    ensures f.Table? ==> rows == f.rows
    ensures !f.Table? ==> rows == []
  {
    if f.Table? then f.rows else []
  }

  /** save_data: the file holds `rows` afterwards, so that loading it gives
      them back, or keeps what it held when the write fails (the failure is
      only reported). */
  function Saved(f: Stored, writable: bool, rows: seq<Match>): (g: Stored)
    ensures writable ==> g.Table? && Loaded(g) == rows
    ensures !writable ==> g == f
  {
    if writable then Table(rows) else f
  }

  /** Initializing an initialized file changes nothing. */
  lemma InitializeIdempotent(f: Stored, writable: bool)
    requires InitializeFile(f, writable).Some?
    ensures InitializeFile(InitializeFile(f, writable).value, writable) == InitializeFile(f, writable)
  {
  }

  /** Writing back a table just read reproduces the file, when it was
      readable; an unreadable file is replaced by the header-only table. */
  lemma SaveOfLoad(f: Stored, writable: bool)
    ensures f.Table? ==> Saved(f, writable, Loaded(f)) == f
    ensures !f.Table? && writable ==> Saved(f, writable, Loaded(f)) == Table([])
  {
  }
}
