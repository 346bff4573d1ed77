/** `sync_yaml_to_db` in `utils/topic_manager.py`: every entry of the grammar
    hints file is upserted, by name, into the `topics` table, inside one
    transaction that is committed only when every entry went in. */
module TopicTable {
  import opened Values
  import opened Text
  import opened Sql
  import TopicManager

  // ---------------------------------------------------------------------------
  // Binding a parameter

  const MinInt64: int := -0x8000_0000_0000_0000
  const MaxInt64: int := 0x7FFF_FFFF_FFFF_FFFF

  /** How `sqlite3` binds a Python value: `None` is `NULL`, a `bool` is the integer
      0 or 1, an `int` must fit in 64 bits, a `str` is text, and a list or dict
      has no adapter. */
  function Bind(v: Value): (r: Result<SqlValue, PyError>)
    ensures r == Ok(SNull) <==> v == VNull
    ensures r.Err? <==> v.VList? || v.VMap? || (v.VInt? && !(MinInt64 <= v.i <= MaxInt64))
    ensures v.VStr? ==> r == Ok(SText(v.s))
  {
    match v
    case VNull => Ok(SNull)
    case VBool(b) => Ok(SInt(if b then 1 else 0))
    case VInt(i) => if MinInt64 <= i <= MaxInt64 then Ok(SInt(i)) else Err(OverflowError)
    case VStr(s) => Ok(SText(s))
    case VList(_) => Err(ProgrammingError)
    case VMap(_) => Err(ProgrammingError)
  }

  /** A value fetched from the table binds back to itself: storing what
      `sync_db_to_yaml` reads gives the same column. */
  lemma BindFetched(v: SqlValue)
    requires v.SInt? ==> MinInt64 <= v.i <= MaxInt64
    ensures Bind(PyOf(v)) == Ok(v)
  {
  }

  // ---------------------------------------------------------------------------
  // int()

  /** `int(s)` for a string: surrounding whitespace, an optional sign, then one or
      more decimal digits. `None` where Python raises `ValueError`. */
  function ParseInt(s: string): (r: Option<int>)
    ensures r.Some? ==> |Strip(s)| >= 1
  {
    var t := Strip(s);
    if |t| > 0 && (t[0] == '+' || t[0] == '-') then
      var digits := t[1..];
      if digits != [] && AllDigits(digits) then
        var v: int := DigitsValue(digits);
        Some(if t[0] == '-' then -v else v)
      else None
    else if t != [] && AllDigits(t) then Some(DigitsValue(t))
    else None
  }

  /** `int(v)` for a value read from YAML. */
  function PyInt(v: Value): (r: Result<int, PyError>)
    ensures v.VBool? ==> r == Ok(if v.b then 1 else 0)
    ensures v.VInt? ==> r == Ok(v.i)
    ensures r.Err? ==> r.error == (if v.VStr? then ValueError else TypeError)
    ensures v.VStr? ==> (r.Ok? <==> ParseInt(v.s).Some?)
  {
    match v
    case VBool(b) => Ok(if b then 1 else 0)
    case VInt(i) => Ok(i)
    case VStr(s) => (match ParseInt(s) case Some(i) => Ok(i) case None => Err(ValueError))
    case _ => Err(TypeError)
  }

  /** `str(n)` reads back as `n`. */
  lemma {:induction false} DigitsRoundTrip(n: nat)
    ensures DigitsValue(NatToString(n)) == n
  {
    if n >= 10 {
      var s := NatToString(n);
      assert s[..|s| - 1] == NatToString(n / 10);
      DigitsRoundTrip(n / 10);
    }
  }

  /** `int(str(i)) == i`. */
  lemma ParseIntRoundTrip(i: int)
    ensures ParseInt(IntToString(i)) == Some(i)
  {
    var n: nat := if i < 0 then -i else i;
    var digits := NatToString(n);
    DigitsRoundTrip(n);
    var s := IntToString(i);
    assert s == if i < 0 then "-" + digits else digits;
    IntStringStripped(s, digits);
    if i < 0 {
      assert s[1..] == digits;
    }
  }

  lemma IntStringStripped(s: string, digits: string)
    requires |digits| >= 1 && AllDigits(digits)
    requires s == digits || s == "-" + digits
    ensures Strip(s) == s
  {
    assert s[|s| - 1] == digits[|digits| - 1];
    assert Stripped(s);
  }

  // ---------------------------------------------------------------------------
  // One entry

  /** The five parameters bound in order; the first that cannot be bound raises. */
  function BindRow(name: Value, subject: Value, grade: Value, active: int, lastSeen: Value): (r: Result<TableRow, PyError>)
    ensures r.Ok? <==> Bind(name).Ok? && Bind(subject).Ok? && Bind(grade).Ok? && Bind(VInt(active)).Ok? && Bind(lastSeen).Ok?
    ensures r.Ok? ==> r.value == TableRow(Bind(name).value, Bind(subject).value, Bind(grade).value, SInt(active), Bind(lastSeen).value)
  {
    match Bind(name)
    case Err(e) => Err(e)
    case Ok(n) =>
      match Bind(subject)
      case Err(e) => Err(e)
      case Ok(s) =>
        match Bind(grade)
        case Err(e) => Err(e)
        case Ok(g) =>
          match Bind(VInt(active))
          case Err(e) => Err(e)
          case Ok(a) =>
            match Bind(lastSeen)
            case Err(e) => Err(e)
            case Ok(l) => Ok(TableRow(n, s, g, a, l))
  }

  /** The row one `(name, content)` item of the file gives: its `meta` dict with
      the defaults subject `grammar`, grade 5, inactive and no date. A content or
      a `meta` that is not a dict has no `get`. */
  function RowOf(name: Value, content: Value): Result<TableRow, PyError> {
    if !content.VMap? then Err(AttributeError)
    else
      var meta := GetDefault(content.entries, VStr("meta"), VMap([]));
      if !meta.VMap? then Err(AttributeError)
      else
        var subject := GetDefault(meta.entries, VStr("subject"), VStr("grammar"));
        var grade := GetDefault(meta.entries, VStr("grade_level"), VInt(5));
        match PyInt(GetDefault(meta.entries, VStr("active"), VBool(false)))
        case Err(e) => Err(e)
        case Ok(active) =>
          var lastSeen := GetDefault(meta.entries, VStr("last_seen_date"), VNull);
          BindRow(name, subject, grade, active, lastSeen)
  }

  /** The row an entry without a `meta` key gives. */
  function DefaultRow(name: string): TableRow {
    TableRow(SText(name), SText("grammar"), SInt(5), SInt(0), SNull)
  }

  /** An entry without a `meta` key is upserted with every default. */
  lemma RowOfDefaults(name: string, content: Value)
    requires content.VMap? && !HasKey(content.entries, VStr("meta"))
    ensures RowOf(VStr(name), content) == Ok(DefaultRow(name))
  {
  }

  /** An entry with a `meta` dict holding text, a small integer, a bool and text
      is upserted with exactly those values. */
  lemma RowOfMeta(name: string, content: Value, subject: string, grade: int, active: bool, date: string)
    requires content.VMap? && Get(content.entries, VStr("meta")).Some?
    requires var meta := Get(content.entries, VStr("meta")).value;
      meta.VMap? &&
      Get(meta.entries, VStr("subject")) == Some(VStr(subject)) &&
      Get(meta.entries, VStr("grade_level")) == Some(VInt(grade)) &&
      Get(meta.entries, VStr("active")) == Some(VBool(active)) &&
      Get(meta.entries, VStr("last_seen_date")) == Some(VStr(date))
    requires MinInt64 <= grade <= MaxInt64
    ensures RowOf(VStr(name), content)
         == Ok(TableRow(SText(name), SText(subject), SInt(grade), SInt(if active then 1 else 0), SText(date)))
  {
  }

  /** What `sync_yaml_to_db` reads of an entry does not depend on its `_meta`:
      replacing `_meta` leaves the row unchanged. */
  lemma RowOfIgnoresUnderscoreMeta(name: Value, entries: seq<(Value, Value)>, meta: Value)
    ensures RowOf(name, VMap(Set(entries, VStr("_meta"), meta))) == RowOf(name, VMap(entries))
  {
    assert Get(Set(entries, VStr("_meta"), meta), VStr("meta")) == Get(entries, VStr("meta"));
  }

  /** `setdefault("_meta", {})` does not change what `sync_yaml_to_db` reads. */
  lemma RowOfIgnoresSetDefault(name: Value, entries: seq<(Value, Value)>)
    ensures RowOf(name, VMap(SetDefault(entries, VStr("_meta"), VMap([])).0)) == RowOf(name, VMap(entries))
  {
    if !HasKey(entries, VStr("_meta")) {
      RowOfIgnoresUnderscoreMeta(name, entries, VMap([]));
    }
  }

  /** The metadata `update_topics` writes into an existing entry is invisible to
      `sync_yaml_to_db`, which reads `meta` and not `_meta`. */
  lemma TouchInvisible(name: Value, e: Value, subject: string, date: string)
    requires TopicManager.Touch(Some(e), subject, date).Ok?
    ensures RowOf(name, TopicManager.Touch(Some(e), subject, date).value) == RowOf(name, e)
  {
    var (e1, meta) := SetDefault(e.entries, VStr("_meta"), VMap([]));
    var grade := GetDefault(meta.entries, VStr("grade_level"), VInt(5));
    RowOfIgnoresUnderscoreMeta(name, e1, VMap(Update(meta.entries, TopicManager.TouchPairs(subject, date, grade))));
    RowOfIgnoresSetDefault(name, e.entries);
  }

  /** An entry `update_topics` creates is upserted with the defaults, whatever its
      record's subject and date. */
  lemma NewEntryDefaults(name: string, subject: string, date: string)
    ensures RowOf(VStr(name), TopicManager.NewEntry(subject, date)) == Ok(DefaultRow(name))
  {
    var entries := TopicManager.NewEntry(subject, date).entries;
    assert forall i :: 0 <= i < |entries| ==> entries[i].0 != VStr("meta");
    RowOfDefaults(name, TopicManager.NewEntry(subject, date));
  }

  /** The metadata `sync_db_to_yaml` writes into an existing entry is invisible to
      `sync_yaml_to_db`. */
  lemma SyncEntryInvisible(name: Value, e: Value, topic: TopicManager.GroupedTopic, subject: SqlValue)
    requires TopicManager.SyncEntry(Some(e), topic, subject).Ok?
    ensures RowOf(name, TopicManager.SyncEntry(Some(e), topic, subject).value) == RowOf(name, e)
  {
    var (e1, meta) := SetDefault(e.entries, VStr("_meta"), VMap([]));
    RowOfIgnoresUnderscoreMeta(name, e1, VMap(Update(meta.entries, TopicManager.SyncPairs(topic, subject))));
    RowOfIgnoresSetDefault(name, e.entries);
  }

  /** An entry `sync_db_to_yaml` creates for a row is upserted with the defaults,
      not with that row's values. */
  lemma SyncEntryNewDefaults(name: string, topic: TopicManager.GroupedTopic, subject: SqlValue)
    ensures RowOf(VStr(name), TopicManager.SyncEntry(None, topic, subject).value) == Ok(DefaultRow(name))
  {
    TopicManager.SyncEntryNew(topic, subject);
    var entries := TopicManager.SyncEntry(None, topic, subject).value.entries;
    assert forall i :: 0 <= i < |entries| ==> entries[i].0 != VStr("meta");
    RowOfDefaults(name, TopicManager.SyncEntry(None, topic, subject).value);
  }

  // ---------------------------------------------------------------------------
  // The table

  /** No two rows share a name; rows without a name (`NULL`) never conflict,
      as in a `UNIQUE` column. */
  predicate NamesUnique(rows: seq<TableRow>) {
    forall i, j :: 0 <= i < j < |rows| && rows[i].name != SNull ==> rows[i].name != rows[j].name
  }

  /** Where the row named `n` is, if there is one. */
  function IndexOfName(rows: seq<TableRow>, n: SqlValue): (r: Option<nat>)
    requires n != SNull
    ensures r.Some? ==> r.value < |rows| && rows[r.value].name == n
    ensures r.None? ==> forall i :: 0 <= i < |rows| ==> rows[i].name != n
    ensures r.Some? ==> forall i :: 0 <= i < r.value ==> rows[i].name != n
    decreases |rows|
  {
    if rows == [] then None
    else if rows[0].name == n then Some(0)
    else
      match IndexOfName(rows[1..], n)
      case None => None
      case Some(i) => Some(i + 1)
  }

  /** The row named `n`. */
  function Lookup(rows: seq<TableRow>, n: SqlValue): Option<TableRow>
    requires n != SNull
  {
    match IndexOfName(rows, n)
    case None => None
    case Some(i) => Some(rows[i])
  }

  /** `INSERT ... ON CONFLICT(name) DO UPDATE SET ...`: a row whose name is taken
      overwrites that row's other columns where it stands; any other row is
      inserted last. */
  function Upsert(rows: seq<TableRow>, r: TableRow): (u: seq<TableRow>)
    ensures r in u
    ensures |rows| <= |u| <= |rows| + 1
    ensures forall i :: 0 <= i < |rows| && rows[i].name != r.name ==> u[i] == rows[i]
    ensures forall i :: 0 <= i < |rows| ==> u[i].name == rows[i].name
  {
    var at := if r.name == SNull then None else IndexOfName(rows, r.name);
    match at
    case Some(i) => assert rows[i := r][i] == r; rows[i := r]
    case None => rows + [r]
  }

  /** After an upsert the row of its name is the new row, and every other name
      keeps its row. */
  lemma UpsertLookup(rows: seq<TableRow>, r: TableRow, n: SqlValue)
    requires NamesUnique(rows) && n != SNull
    ensures Lookup(Upsert(rows, r), n) == if r.name == n then Some(r) else Lookup(rows, n)
  {
    var u := Upsert(rows, r);
    if r.name != SNull && IndexOfName(rows, r.name).Some? {
      var k := IndexOfName(rows, r.name).value;
      assert u == rows[k := r];
      if r.name == n {
        assert IndexOfName(u, n) == Some(k);
      } else {
        LookupAgree(rows, u, n);
      }
    } else {
      assert u == rows + [r];
      if r.name == n {
        assert IndexOfName(u, n) == Some(|rows|);
      } else {
        LookupAgree(rows, u, n);
      }
    }
  }

  /** An upsert keeps the names unique. */
  lemma UpsertUnique(rows: seq<TableRow>, r: TableRow)
    requires NamesUnique(rows)
    ensures NamesUnique(Upsert(rows, r))
  {
  }

  /** Two tables that agree on every row named `n` among the first's rows, and
      have no other row named `n`, give the same `Lookup(n)`. */
  lemma LookupAgree(a: seq<TableRow>, b: seq<TableRow>, n: SqlValue)
    requires n != SNull && |a| <= |b|
    requires forall i :: 0 <= i < |a| ==> (a[i].name == n <==> b[i].name == n)
    requires forall i :: 0 <= i < |a| && a[i].name == n ==> a[i] == b[i]
    requires forall i :: |a| <= i < |b| ==> b[i].name != n
    ensures Lookup(a, n) == Lookup(b, n)
  {
    match IndexOfName(a, n)
    case None =>
      assert IndexOfName(b, n).None?;
    case Some(k) =>
      assert IndexOfName(b, n) == Some(k);
  }

  /** The entries' rows upserted one after the other. */
  function UpsertRows(rows: seq<TableRow>, rs: seq<TableRow>): seq<TableRow>
    decreases |rs|
  {
    if rs == [] then rows else UpsertRows(Upsert(rows, rs[0]), rs[1..])
  }

  /** The last of `rs` named `n`. */
  function LastFor(rs: seq<TableRow>, n: SqlValue): (r: Option<TableRow>)
    ensures r.Some? ==> r.value in rs && r.value.name == n
    decreases |rs|
  {
    if rs == [] then None
    else if LastFor(rs[1..], n).Some? then LastFor(rs[1..], n)
    else if rs[0].name == n then Some(rs[0])
    else None
  }

  /** Upserting many rows keeps names unique; afterwards each name holds the
      last row given for it, or its old row when none was given. */
  lemma {:induction false} UpsertRowsLookup(rows: seq<TableRow>, rs: seq<TableRow>, n: SqlValue)
    requires NamesUnique(rows) && n != SNull
    ensures Lookup(UpsertRows(rows, rs), n) == if LastFor(rs, n).Some? then LastFor(rs, n) else Lookup(rows, n)
    decreases |rs|
  {
    if rs != [] {
      UpsertLookup(rows, rs[0], n);
      UpsertUnique(rows, rs[0]);
      UpsertRowsLookup(Upsert(rows, rs[0]), rs[1..], n);
    }
  }

  lemma {:induction false} UpsertRowsUnique(rows: seq<TableRow>, rs: seq<TableRow>)
    requires NamesUnique(rows)
    ensures NamesUnique(UpsertRows(rows, rs))
    decreases |rs|
  {
    if rs != [] {
      UpsertUnique(rows, rs[0]);
      UpsertRowsUnique(Upsert(rows, rs[0]), rs[1..]);
    }
  }

  /** Upserting the same rows again changes nothing, when none is nameless. */
  lemma UpsertRowsIdempotent(rows: seq<TableRow>, rs: seq<TableRow>)
    requires NamesUnique(rows)
    requires forall j :: 0 <= j < |rs| ==> rs[j].name != SNull
    ensures UpsertRows(UpsertRows(rows, rs), rs) == UpsertRows(rows, rs)
  {
    var out := UpsertRows(rows, rs);
    UpsertRowsUnique(rows, rs);
    forall j | 0 <= j < |rs|
      ensures IndexOfName(out, rs[j].name).Some?
    {
      LastForNamed(rs, j);
      UpsertRowsLookup(rows, rs, rs[j].name);
    }
    UpsertRowsInPlace(out, rs);
    forall i | 0 <= i < |out|
      ensures Overwritten(out, rs)[i] == out[i]
    {
      if LastFor(rs, out[i].name).Some? {
        UpsertRowsLookup(rows, rs, out[i].name);
        LookupAt(out, i);
      }
    }
  }

  /** The last row given for a name that a later row does not repeat holds it. */
  lemma UpsertRowsLast(rows: seq<TableRow>, rs: seq<TableRow>, j: nat)
    requires NamesUnique(rows) && j < |rs| && rs[j].name != SNull
    requires forall i :: j < i < |rs| ==> rs[i].name != rs[j].name
    ensures Lookup(UpsertRows(rows, rs), rs[j].name) == Some(rs[j])
  {
    LastForAt(rs, j);
    UpsertRowsLookup(rows, rs, rs[j].name);
  }

  /** The last of `rs` with a given name is found. */
  lemma {:induction false} LastForAt(rs: seq<TableRow>, j: nat)
    requires j < |rs|
    requires forall i :: j < i < |rs| ==> rs[i].name != rs[j].name
    ensures LastFor(rs, rs[j].name) == Some(rs[j])
    decreases |rs|
  {
    if j > 0 {
      LastForAt(rs[1..], j - 1);
    } else if |rs| > 1 {
      LastForNone(rs[1..], rs[0].name);
    }
  }

  /** A name none of `rs` has is not found. */
  lemma {:induction false} LastForNone(rs: seq<TableRow>, n: SqlValue)
    requires forall i :: 0 <= i < |rs| ==> rs[i].name != n
    ensures LastFor(rs, n) == None
    decreases |rs|
  {
    if rs != [] {
      LastForNone(rs[1..], n);
    }
  }

  /** A name some of `rs` has is found. */
  lemma {:induction false} LastForNamed(rs: seq<TableRow>, j: nat)
    requires j < |rs|
    ensures LastFor(rs, rs[j].name).Some?
    decreases |rs|
  {
    if j > 0 {
      LastForNamed(rs[1..], j - 1);
    }
  }

  /** In a table of unique names, a named row is the row of its name. */
  lemma LookupAt(rows: seq<TableRow>, i: nat)
    requires NamesUnique(rows) && i < |rows| && rows[i].name != SNull
    ensures Lookup(rows, rows[i].name) == Some(rows[i])
  {
    var k := IndexOfName(rows, rows[i].name).value;
    assert k == i;
  }

  /** Each row of `rows`, overwritten by the last of `rs` with its name. */
  function Overwritten(rows: seq<TableRow>, rs: seq<TableRow>): (r: seq<TableRow>)
    ensures |r| == |rows|
  {
    seq(|rows|, i requires 0 <= i < |rows| => LastFor(rs, rows[i].name).GetOr(rows[i]))
  }

  /** When every name of `rs` already has a row, upserting `rs` overwrites rows
      where they stand, the last row given for a name winning. */
  lemma {:induction false} UpsertRowsInPlace(rows: seq<TableRow>, rs: seq<TableRow>)
    requires NamesUnique(rows)
    requires forall j :: 0 <= j < |rs| ==> rs[j].name != SNull && IndexOfName(rows, rs[j].name).Some?
    ensures UpsertRows(rows, rs) == Overwritten(rows, rs)
    decreases |rs|
  {
    if rs == [] {
      assert Overwritten(rows, rs) == rows;
    } else {
      var r, rest := rs[0], rs[1..];
      var k := IndexOfName(rows, r.name).value;
      var next := Upsert(rows, r);
      assert next == rows[k := r];
      forall j | 0 <= j < |rest|
        ensures IndexOfName(next, rest[j].name).Some?
      {
        var m := IndexOfName(rows, rs[j + 1].name).value;
        assert next[m].name == rest[j].name;
      }
      UpsertRowsInPlace(next, rest);
      forall i | 0 <= i < |rows|
        ensures Overwritten(next, rest)[i] == Overwritten(rows, rs)[i]
      {
        if i != k && rows[i].name != SNull {
          assert rows[i].name != rows[k].name;
        }
      }
    }
  }

  // ---------------------------------------------------------------------------
  // The whole file

  /** The rows of the file's items, in order; the first item that cannot become
      a row raises. */
  function YamlRows(items: seq<(Value, Value)>): (r: Result<seq<TableRow>, PyError>)
    ensures r.Ok? <==> forall i :: 0 <= i < |items| ==> RowOf(items[i].0, items[i].1).Ok?
    ensures r.Ok? ==> |r.value| == |items|
    ensures r.Ok? ==> forall i :: 0 <= i < |items| ==> r.value[i] == RowOf(items[i].0, items[i].1).value
    ensures r.Err? ==> exists i :: 0 <= i < |items| && RowOf(items[i].0, items[i].1) == Err(r.error)
    decreases |items|
  {
    if items == [] then Ok([])
    else
      match RowOf(items[0].0, items[0].1)
      case Err(e) => Err(e)
      case Ok(row) =>
        match YamlRows(items[1..])
        case Err(e) => Err(e)
        case Ok(rows) => Ok([row] + rows)
  }

  /** The table after items are upserted into `rows`, or the exception. */
  function UpsertItems(rows: seq<TableRow>, items: seq<(Value, Value)>): Result<seq<TableRow>, PyError> {
    match YamlRows(items)
    case Err(e) => Err(e)
    case Ok(rs) => Ok(UpsertRows(rows, rs))
  }

  /** `sync_yaml_to_db` on the parsed file: a file that is not a dict has no
      `items`. */
  function YamlToDb(rows: seq<TableRow>, yaml: Value): Result<seq<TableRow>, PyError> {
    if !yaml.VMap? then Err(AttributeError) else UpsertItems(rows, yaml.entries)
  }

  /** The `topics` table: the rows it holds, in insertion order. */
  class TopicsTable {
    var rows: seq<TableRow>

    constructor (rows: seq<TableRow>)
      ensures this.rows == rows
    {
      this.rows := rows;
    }
  }

  /** `sync_yaml_to_db()` on the parsed grammar hints file. The upserts go into an
      open transaction that is committed only after the last one; when an entry
      raises, nothing is committed and the table is as it was. */
  method SyncYamlToDb(table: TopicsTable, yaml: Value) returns (ok: bool)
    modifies table
    ensures ok == YamlToDb(old(table.rows), yaml).Ok?
    ensures table.rows == if ok then YamlToDb(old(table.rows), yaml).value else old(table.rows)
  {
    if !yaml.VMap? {
      return false;
    }
    var items := yaml.entries;
    var pending := table.rows;
    for k := 0 to |items|
      invariant UpsertItems(old(table.rows), items) == UpsertItems(pending, items[k..])
      invariant table.rows == old(table.rows)
    {
      var row := RowOf(items[k].0, items[k].1);
      assert items[k..][1..] == items[k + 1..];
      if row.Err? {
        return false;
      }
      pending := Upsert(pending, row.value);
    }
    assert items[|items|..] == [];
    table.rows := pending;
    return true;
  }

  /** Each name keeps one row; the row of an item's name is that of the last item
      with that name. */
  lemma LastEntryWins(rows: seq<TableRow>, yaml: Value, j: nat)
    requires NamesUnique(rows) && YamlToDb(rows, yaml).Ok?
    requires j < |yaml.entries| && yaml.entries[j].0 != VNull
    requires forall i :: j < i < |yaml.entries| ==> Bind(yaml.entries[i].0) != Bind(yaml.entries[j].0)
    ensures NamesUnique(YamlToDb(rows, yaml).value)
    ensures Bind(yaml.entries[j].0).Ok? && Bind(yaml.entries[j].0).value != SNull
    ensures Lookup(YamlToDb(rows, yaml).value, Bind(yaml.entries[j].0).value)
         == Some(RowOf(yaml.entries[j].0, yaml.entries[j].1).value)
  {
    var items := yaml.entries;
    var rs := YamlRows(items).value;
    forall i | j < i < |rs|
      ensures rs[i].name != rs[j].name
    {
      assert Bind(items[i].0) != Bind(items[j].0);
    }
    UpsertRowsUnique(rows, rs);
    UpsertRowsLast(rows, rs, j);
  }

  /** A name no item has keeps its row, or stays absent. */
  lemma OtherRowsKept(rows: seq<TableRow>, yaml: Value, n: SqlValue)
    requires NamesUnique(rows) && YamlToDb(rows, yaml).Ok? && n != SNull
    requires forall i :: 0 <= i < |yaml.entries| ==> Bind(yaml.entries[i].0) != Ok(n)
    ensures Lookup(YamlToDb(rows, yaml).value, n) == Lookup(rows, n)
  {
    var rs := YamlRows(yaml.entries).value;
    LastForNone(rs, n);
    UpsertRowsLookup(rows, rs, n);
  }

  /** Syncing the same file a second time changes nothing, provided no entry is
      keyed by `null` (a `NULL` name never conflicts, so such an entry would be
      inserted again). */
  lemma SyncYamlToDbIdempotent(rows: seq<TableRow>, yaml: Value)
    requires NamesUnique(rows) && YamlToDb(rows, yaml).Ok?
    requires forall i :: 0 <= i < |yaml.entries| ==> yaml.entries[i].0 != VNull
    ensures YamlToDb(YamlToDb(rows, yaml).value, yaml) == YamlToDb(rows, yaml)
  {
    var rs := YamlRows(yaml.entries).value;
    assert forall j :: 0 <= j < |rs| ==> rs[j].name != SNull;
    UpsertRowsIdempotent(rows, rs);
  }
}
