/** Values as SQLite stores them, the `topics` rows that hold them, and how
    `sqlite3` hands a stored value back to Python. */
module Sql {
  import opened Values
  import opened Text

  /** A stored value: `NULL`, an `INTEGER` or `TEXT`. */
  datatype SqlValue = SNull | SInt(i: int) | SText(s: string)

  /** A row of the `topics` table: the five columns that `sync_yaml_to_db` writes
      and `sync_db_to_yaml` selects, in that order. */
  datatype TableRow = TableRow(name: SqlValue, subject: SqlValue, gradeLevel: SqlValue, active: SqlValue, lastSeen: SqlValue)

  /** The Python value a fetched column holds: `None`, an `int` or a `str`. */
  function PyOf(v: SqlValue): (r: Value)
    ensures r.VNull? <==> v.SNull?
    ensures r.VInt? <==> v.SInt?
    ensures r.VStr? <==> v.SText?
    ensures v.SInt? ==> r.i == v.i
    ensures v.SText? ==> r.s == v.s
  {
    match v
    case SNull => VNull
    case SInt(i) => VInt(i)
    case SText(s) => VStr(s)
  }

  /** `str(v)` of a fetched value, as an f-string renders it. */
  function PyStr(v: SqlValue): (r: string)
    ensures v.SNull? ==> r == "None"
    ensures v.SText? ==> r == v.s
    ensures v.SInt? ==> r == IntToString(v.i)
  {
    match v
    case SNull => "None"
    case SInt(i) => IntToString(i)
    case SText(s) => s
  }
}
