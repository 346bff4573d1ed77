/** `utils/topic_manager.py`: the `_meta` bookkeeping that keeps the
    `{subject}_hints.yaml` files and the `topics` table in step. `update_topics`
    files newsletter records into the hints files, `sync_db_to_yaml` copies the
    table's metadata into them. Files are read and written through a
    `HintsDirectory`. `sync_yaml_to_db`, which upserts a hints file into the
    table, is in module `TopicTable`. */
module TopicManager {
  import opened Values
  import opened Text
  import opened HintFiles
  import opened Sql
  import ParserNewsletter

  type Record = ParserNewsletter.Record
  type Files = map<string, Value>

  const PendingDefinition: string := "Pending definition."

  // ---------------------------------------------------------------------------
  // update_topics

  /** The `_meta` dict of an entry `update_topics` creates. */
  function NewMeta(subject: string, date: string): seq<(Value, Value)> {
    [(VStr("active"), VBool(true)), (VStr("grade_level"), VInt(5)),
     (VStr("last_seen_date"), VStr(date)), (VStr("subject"), VStr(subject))]
  }

  /** The entry `update_topics` creates for a name its file does not have yet. */
  function NewEntry(subject: string, date: string): Value {
    VMap([(VStr("definition"), VStr(PendingDefinition)), (VStr("examples"), VList([])),
          (VStr("link"), VStr("")), (VStr("_meta"), VMap(NewMeta(subject, date)))])
  }

  /** The pairs `meta.update` writes into the `_meta` of an existing entry, in the
      order written; `grade` is the `grade_level` read before the update. */
  function TouchPairs(subject: string, date: string, grade: Value): seq<(Value, Value)> {
    [(VStr("active"), VBool(true)), (VStr("last_seen_date"), VStr(date)),
     (VStr("subject"), VStr(subject)), (VStr("grade_level"), grade)]
  }

  /** The value of a name's entry after one record, given its value before
      (`None`: not in the file). An entry or a `_meta` that is not a dict has no
      `setdefault` or `get`. */
  function Touch(entry: Option<Value>, subject: string, date: string): Result<Value, PyError> {
    match entry
    case None => Ok(NewEntry(subject, date))
    case Some(e) =>
      if !e.VMap? then Err(AttributeError)
      else
        var (e1, meta) := SetDefault(e.entries, VStr("_meta"), VMap([]));
        if !meta.VMap? then Err(AttributeError)
        else
          var grade := GetDefault(meta.entries, VStr("grade_level"), VInt(5));
          Ok(VMap(Set(e1, VStr("_meta"), VMap(Update(meta.entries, TouchPairs(subject, date, grade))))))
  }

  /** One record applied to a loaded hints file. A file that is not a dict
      cannot be indexed by name. */
  function UpdateData(data: Value, name: string, subject: string, date: string): Result<Value, PyError> {
    if !data.VMap? then Err(TypeError)
    else
      match Touch(Get(data.entries, VStr(name)), subject, date)
      case Err(e) => Err(e)
      case Ok(v) => Ok(VMap(Set(data.entries, VStr(name), v)))
  }

  /** The file and the entry a record is filed under. */
  function Key(t: Record): (string, string) {
    (t.subject, TopicKey(t.topic))
  }

  /** One iteration of `update_topics`: load the subject's file, update it, write it
      back. `None` when the iteration raises. */
  function Step(files: Files, t: Record): Option<Files> {
    match UpdateData(Loaded(files, t.subject), TopicKey(t.topic), t.subject, t.date)
    case Err(_) => None
    case Ok(d) => Some(files[t.subject := d])
  }

  /** `update_topics` over records `ts`: the files afterwards, and whether it ran to
      the end. An exception stops it; the files written before it stay written. */
  function UpdateAll(files: Files, ts: seq<Record>): (Files, bool)
    decreases |ts|
  {
    if ts == [] then (files, true)
    else
      var prev := UpdateAll(files, ts[..|ts| - 1]);
      if !prev.1 then prev
      else
        match Step(prev.0, ts[|ts| - 1])
        case None => (prev.0, false)
        case Some(next) => (next, true)
  }

  /** Once a prefix of the records has raised, the rest are never applied. */
  lemma {:induction false} UpdateAllStopped(files: Files, ts: seq<Record>, n: nat)
    requires n <= |ts| && !UpdateAll(files, ts[..n]).1
    ensures UpdateAll(files, ts) == UpdateAll(files, ts[..n])
    decreases |ts|
  {
    if n < |ts| {
      assert ts[..|ts| - 1][..n] == ts[..n];
      UpdateAllStopped(files, ts[..|ts| - 1], n);
    } else {
      assert ts[..n] == ts;
    }
  }

  /** `update_topics(parsed_topics)` on the hints directory; `ok` is false when it
      raised part-way. */
  method UpdateTopics(dir: HintsDirectory, parsedTopics: seq<Record>) returns (ok: bool)
    modifies dir
    ensures (dir.files, ok) == UpdateAll(old(dir.files), parsedTopics)
  {
    var i := 0;
    while i < |parsedTopics|
      invariant 0 <= i <= |parsedTopics|
      invariant UpdateAll(old(dir.files), parsedTopics[..i]) == (dir.files, true)
    {
      var topic := parsedTopics[i];
      var subject := topic.subject;
      var name := TopicKey(topic.topic);
      var data := Loaded(dir.files, subject);
      var updated := UpdateData(data, name, subject, topic.date);
      assert parsedTopics[..i + 1][..i] == parsedTopics[..i];
      if updated.Err? {
        UpdateAllStopped(old(dir.files), parsedTopics, i + 1);
        return false;
      }
      dir.files := dir.files[subject := updated.value];
      i := i + 1;
    }
    assert parsedTopics[..i] == parsedTopics;
    return true;
  }

  // --- one record ------------------------------------------------------------

  /** A new name is appended with the default entry; nothing else in the file
      changes. */
  lemma UpdateDataNew(entries: seq<(Value, Value)>, name: string, subject: string, date: string)
    requires !HasKey(entries, VStr(name))
    ensures UpdateData(VMap(entries), name, subject, date)
         == Ok(VMap(entries + [(VStr(name), NewEntry(subject, date))]))
  {
  }

  /** An entry `update_topics` can update: a dict whose `_meta`, if any, is a
      dict. */
  predicate Updatable(e: Value) {
    e.VMap? && (HasKey(e.entries, VStr("_meta")) ==> Get(e.entries, VStr("_meta")).value.VMap?)
  }

  /** The `_meta` dict of an updatable entry; `{}` when it has none. */
  function MetaOf(e: Value): seq<(Value, Value)>
    requires Updatable(e)
  {
    match Get(e.entries, VStr("_meta"))
    case Some(m) => m.entries
    case None => []
  }

  /** A `_meta` dict that marks the topic active, seen on `date`, under
      `subject`, with a grade level. */
  ghost predicate Stamped(meta: seq<(Value, Value)>, subject: string, date: string) {
    Get(meta, VStr("active")) == Some(VBool(true)) &&
    Get(meta, VStr("last_seen_date")) == Some(VStr(date)) &&
    Get(meta, VStr("subject")) == Some(VStr(subject)) &&
    HasKey(meta, VStr("grade_level"))
  }

  /** `k` is one of the four keys `update_topics` writes into `_meta`. */
  predicate MetaKey(k: Value) {
    k == VStr("active") || k == VStr("last_seen_date") || k == VStr("subject") || k == VStr("grade_level")
  }

  /** `after` is the `_meta` dict `before` marked active, dated and filed under the
      subject, its grade level kept (5 if it had none), nothing else changed. */
  ghost predicate MetaTouched(before: seq<(Value, Value)>, after: seq<(Value, Value)>, subject: string, date: string) {
    Get(after, VStr("active")) == Some(VBool(true)) &&
    Get(after, VStr("last_seen_date")) == Some(VStr(date)) &&
    Get(after, VStr("subject")) == Some(VStr(subject)) &&
    Get(after, VStr("grade_level")) == Some(GetDefault(before, VStr("grade_level"), VInt(5))) &&
    forall k :: !MetaKey(k) ==> Get(after, k) == Get(before, k)
  }

  lemma TouchPairsDistinct(subject: string, date: string, grade: Value)
    ensures DistinctKeys(TouchPairs(subject, date, grade))
  {
  }

  /** What `meta.update` leaves in `_meta`. */
  lemma MetaAfterTouch(meta: seq<(Value, Value)>, subject: string, date: string)
    ensures MetaTouched(meta, Update(meta, TouchPairs(subject, date, GetDefault(meta, VStr("grade_level"), VInt(5)))), subject, date)
  {
    var grade := GetDefault(meta, VStr("grade_level"), VInt(5));
    var pairs := TouchPairs(subject, date, grade);
    MetaSet(meta, pairs, subject, date, grade);
    MetaKept(meta, pairs, subject, date, grade);
  }

  lemma MetaSet(meta: seq<(Value, Value)>, pairs: seq<(Value, Value)>, subject: string, date: string, grade: Value)
    requires pairs == TouchPairs(subject, date, grade)
    ensures Get(Update(meta, pairs), VStr("active")) == Some(VBool(true))
    ensures Get(Update(meta, pairs), VStr("last_seen_date")) == Some(VStr(date))
    ensures Get(Update(meta, pairs), VStr("subject")) == Some(VStr(subject))
    ensures Get(Update(meta, pairs), VStr("grade_level")) == Some(grade)
  {
    TouchPairsDistinct(subject, date, grade);
    UpdateGet(meta, pairs, 0);
    UpdateGet(meta, pairs, 1);
    UpdateGet(meta, pairs, 2);
    UpdateGet(meta, pairs, 3);
  }

  lemma MetaKept(meta: seq<(Value, Value)>, pairs: seq<(Value, Value)>, subject: string, date: string, grade: Value)
    requires pairs == TouchPairs(subject, date, grade)
    ensures forall k :: !MetaKey(k) ==> Get(Update(meta, pairs), k) == Get(meta, k)
  {
    forall k | !MetaKey(k) ensures Get(Update(meta, pairs), k) == Get(meta, k) {
      UpdateKeys(meta, pairs, k);
    }
  }

  /** An updatable entry after one record: `_meta` updated where it stands, or
      added at the end when the entry had none. */
  function Stamp(e: Value, subject: string, date: string): Value
    requires Updatable(e)
  {
    var meta := MetaOf(e);
    VMap(Set(e.entries, VStr("_meta"),
      VMap(Update(meta, TouchPairs(subject, date, GetDefault(meta, VStr("grade_level"), VInt(5)))))))
  }

  /** An existing entry raises exactly when it is not updatable; otherwise it is
      stamped. */
  lemma TouchExisting(e: Value, subject: string, date: string)
    ensures Touch(Some(e), subject, date) == if Updatable(e) then Ok(Stamp(e, subject, date)) else Err(AttributeError)
  {
    if Updatable(e) && !HasKey(e.entries, VStr("_meta")) {
      var meta := MetaOf(e);
      var m2 := VMap(Update(meta, TouchPairs(subject, date, GetDefault(meta, VStr("grade_level"), VInt(5)))));
      assert Set(e.entries, VStr("_meta"), VMap([])) == e.entries + [(VStr("_meta"), VMap([]))];
      SetSet(e.entries, VStr("_meta"), VMap([]), m2);
    }
  }

  /** A stamped entry: every key but `_meta` keeps its value, and `_meta` is
      touched as `MetaTouched` says. */
  lemma StampEffect(e: Value, subject: string, date: string)
    requires Updatable(e)
    ensures Updatable(Stamp(e, subject, date)) && HasKey(Stamp(e, subject, date).entries, VStr("_meta"))
    ensures forall k :: k != VStr("_meta") ==> Get(Stamp(e, subject, date).entries, k) == Get(e.entries, k)
    ensures MetaTouched(MetaOf(e), MetaOf(Stamp(e, subject, date)), subject, date)
    ensures Stamped(MetaOf(Stamp(e, subject, date)), subject, date)
  {
    var meta := MetaOf(e);
    var m2 := Update(meta, TouchPairs(subject, date, GetDefault(meta, VStr("grade_level"), VInt(5))));
    assert Get(Stamp(e, subject, date).entries, VStr("_meta")) == Some(VMap(m2));
    MetaAfterTouch(meta, subject, date);
  }

  /** Stamping an entry already stamped for the same record changes nothing. */
  lemma StampFixed(v: Value, subject: string, date: string)
    requires Updatable(v) && Stamped(MetaOf(v), subject, date)
    ensures Stamp(v, subject, date) == v
  {
    var meta := MetaOf(v);
    assert HasKey(v.entries, VStr("_meta"));
    var pairs := TouchPairs(subject, date, GetDefault(meta, VStr("grade_level"), VInt(5)));
    StampedPresent(meta, pairs, subject, date);
    UpdatePresent(meta, pairs);
    SetPresent(v.entries, VStr("_meta"), VMap(meta));
  }

  lemma StampedPresent(meta: seq<(Value, Value)>, pairs: seq<(Value, Value)>, subject: string, date: string)
    requires Stamped(meta, subject, date)
    requires pairs == TouchPairs(subject, date, GetDefault(meta, VStr("grade_level"), VInt(5)))
    ensures forall j :: 0 <= j < |pairs| ==> Get(meta, pairs[j].0) == Some(pairs[j].1)
  {
  }

  /** An existing entry already stamped for the record is written back as it
      is. */
  lemma TouchFixed(v: Value, subject: string, date: string)
    requires Updatable(v) && Stamped(MetaOf(v), subject, date)
    ensures Touch(Some(v), subject, date) == Ok(v)
  {
    TouchExisting(v, subject, date);
    StampFixed(v, subject, date);
  }

  /** A second stamp gives what that stamp alone gives. */
  lemma StampOverwrite(e: Value, subject: string, first: string, second: string)
    requires Updatable(e)
    ensures Updatable(Stamp(e, subject, first))
    ensures Stamp(Stamp(e, subject, first), subject, second) == Stamp(e, subject, second)
  {
    var meta := MetaOf(e);
    var grade := GetDefault(meta, VStr("grade_level"), VInt(5));
    var m1 := Update(meta, TouchPairs(subject, first, grade));
    var m2 := Update(meta, TouchPairs(subject, second, grade));
    StampEffect(e, subject, first);
    assert Get(Stamp(e, subject, first).entries, VStr("_meta")) == Some(VMap(m1));
    MetaOverwrite(meta, subject, first, second);
    SetSet(e.entries, VStr("_meta"), VMap(m1), VMap(m2));
  }

  /** Two `meta.update`s of one `_meta` dict: the second one wins. */
  lemma MetaOverwrite(meta: seq<(Value, Value)>, subject: string, first: string, second: string)
    ensures var grade := GetDefault(meta, VStr("grade_level"), VInt(5));
      var m1 := Update(meta, TouchPairs(subject, first, grade));
      Update(m1, TouchPairs(subject, second, GetDefault(m1, VStr("grade_level"), VInt(5))))
        == Update(meta, TouchPairs(subject, second, grade))
  {
    var grade := GetDefault(meta, VStr("grade_level"), VInt(5));
    var p1, p2 := TouchPairs(subject, first, grade), TouchPairs(subject, second, grade);
    MetaSet(meta, p1, subject, first, grade);
    TouchPairsDistinct(subject, first, grade);
    TouchPairsAligned(subject, first, second, grade);
    UpdateUpdate(meta, p1, p2);
  }

  /** Two touches write the same keys in the same order. */
  lemma TouchPairsAligned(subject: string, first: string, second: string, grade: Value)
    ensures |TouchPairs(subject, first, grade)| == |TouchPairs(subject, second, grade)|
    ensures forall j :: 0 <= j < |TouchPairs(subject, first, grade)| ==>
      TouchPairs(subject, first, grade)[j].0 == TouchPairs(subject, second, grade)[j].0
  {
  }

  /** A new entry is updatable and stamped for its record. */
  lemma NewEntryStamped(subject: string, date: string)
    ensures Updatable(NewEntry(subject, date)) && Stamped(MetaOf(NewEntry(subject, date)), subject, date)
  {
    var e := NewEntry(subject, date).entries;
    assert e[0].0 != VStr("_meta") && e[1].0 != VStr("_meta") && e[2].0 != VStr("_meta");
    IndexOfFirst(e, VStr("_meta"), 3);
    NewMetaStamped(subject, date);
  }

  lemma NewMetaStamped(subject: string, date: string)
    ensures Stamped(NewMeta(subject, date), subject, date)
  {
    var m := NewMeta(subject, date);
    IndexOfFirst(m, VStr("active"), 0);
    assert m[0].0 != VStr("last_seen_date") && m[1].0 != VStr("last_seen_date");
    IndexOfFirst(m, VStr("last_seen_date"), 2);
    assert m[0].0 != VStr("subject") && m[1].0 != VStr("subject") && m[2].0 != VStr("subject");
    IndexOfFirst(m, VStr("subject"), 3);
    assert m[1].0 == VStr("grade_level");
  }

  /** Every entry `update_topics` writes is updatable and stamped for its record. */
  lemma TouchDone(entry: Option<Value>, subject: string, date: string)
    requires Touch(entry, subject, date).Ok?
    ensures Updatable(Touch(entry, subject, date).value)
    ensures Stamped(MetaOf(Touch(entry, subject, date).value), subject, date)
  {
    match entry
    case None => NewEntryStamped(subject, date);
    case Some(e) =>
      TouchExisting(e, subject, date);
      StampEffect(e, subject, date);
  }

  /** A record changes no entry of the file but its own, and a name already in
      the file keeps its place. */
  lemma UpdateDataFrame(data: Value, name: string, subject: string, date: string)
    requires UpdateData(data, name, subject, date).Ok?
    ensures data.VMap?
    ensures var r := UpdateData(data, name, subject, date).value;
      r.VMap? &&
      Get(r.entries, VStr(name)) == Some(Touch(Get(data.entries, VStr(name)), subject, date).value) &&
      (forall k :: k != VStr(name) ==> Get(r.entries, k) == Get(data.entries, k)) &&
      (HasKey(data.entries, VStr(name)) ==> |r.entries| == |data.entries|)
  {
  }

  /** A file that is not a dict raises, and so does an existing entry that is not
      updatable. */
  lemma UpdateDataRaises(data: Value, name: string, subject: string, date: string)
    ensures UpdateData(data, name, subject, date).Err? <==>
      !data.VMap? || (HasKey(data.entries, VStr(name)) && !Updatable(Get(data.entries, VStr(name)).value))
  {
    if data.VMap? && HasKey(data.entries, VStr(name)) {
      TouchExisting(Get(data.entries, VStr(name)).value, subject, date);
    }
  }

  // --- the hints directory ----------------------------------------------------

  /** The entry a key names, if its file is a dict that has it. */
  function EntryOf(files: Files, key: (string, string)): Option<Value> {
    if key.0 in files && files[key.0].VMap? then Get(files[key.0].entries, VStr(key.1)) else None
  }

  /** The entry a key names exists and is updatable. */
  ghost predicate Settled(files: Files, key: (string, string)) {
    EntryOf(files, key).Some? && Updatable(EntryOf(files, key).value)
  }

  /** A file that holds an entry is loaded as it is. */
  lemma FileLoaded(files: Files, key: (string, string))
    requires EntryOf(files, key).Some?
    ensures Loaded(files, key.0) == files[key.0]
  {
    assert HasKey(files[key.0].entries, VStr(key.1));
  }

  /** The files after a step that writes `v` as the record's entry of `data`. */
  lemma StepAt(x: Files, t: Record, data: Value, v: Value)
    requires data == Loaded(x, t.subject) && data.VMap?
    requires Touch(Get(data.entries, VStr(TopicKey(t.topic))), t.subject, t.date) == Ok(v)
    ensures Step(x, t) == Some(x[t.subject := VMap(Set(data.entries, VStr(TopicKey(t.topic)), v))])
  {
  }

  /** A step does not raise on a settled entry, and leaves its own entry
      updatable and stamped for the record. */
  lemma StepSettled(x: Files, t: Record)
    ensures Settled(x, Key(t)) ==> Step(x, t).Some?
    ensures Step(x, t).Some? ==> Settled(Step(x, t).value, Key(t))
    ensures Step(x, t).Some? ==> Stamped(MetaOf(EntryOf(Step(x, t).value, Key(t)).value), t.subject, t.date)
  {
    var s, n := t.subject, TopicKey(t.topic);
    if Settled(x, Key(t)) {
      FileLoaded(x, Key(t));
      TouchExisting(EntryOf(x, Key(t)).value, s, t.date);
    }
    if Step(x, t).Some? {
      var data := Loaded(x, s);
      var v := Touch(Get(data.entries, VStr(n)), s, t.date).value;
      TouchDone(Get(data.entries, VStr(n)), s, t.date);
      StepAt(x, t, data, v);
      assert EntryOf(Step(x, t).value, Key(t)) == Some(v);
    }
  }

  /** A step changes no entry but its own. */
  lemma StepFrame(x: Files, t: Record, key: (string, string))
    requires Step(x, t).Some? && key != Key(t) && EntryOf(x, key).Some?
    ensures EntryOf(Step(x, t).value, key) == EntryOf(x, key)
  {
    if key.0 == t.subject {
      FileLoaded(x, key);
    }
  }

  /** A step keeps every settled entry settled. */
  lemma StepKeeps(x: Files, t: Record, k: (string, string))
    requires Step(x, t).Some? && Settled(x, k)
    ensures Settled(Step(x, t).value, k)
  {
    if k == Key(t) {
      StepSettled(x, t);
    } else {
      StepFrame(x, t, k);
    }
  }

  /** The files after a step on a record whose entry is `e`, written back as
      `v`. */
  lemma StepOnEntry(x: Files, t: Record, e: Value, v: Value)
    requires EntryOf(x, Key(t)) == Some(e) && Touch(Some(e), t.subject, t.date) == Ok(v)
    ensures Step(x, t) == Some(x[t.subject := VMap(Set(x[t.subject].entries, VStr(TopicKey(t.topic)), v))])
  {
    FileLoaded(x, Key(t));
    StepAt(x, t, x[t.subject], v);
  }

  /** A step on an entry already stamped for the record changes nothing. */
  lemma StepFixed(y: Files, t: Record, v: Value)
    requires EntryOf(y, Key(t)) == Some(v) && Updatable(v) && Stamped(MetaOf(v), t.subject, t.date)
    ensures Step(y, t) == Some(y)
  {
    var s, n := t.subject, TopicKey(t.topic);
    TouchFixed(v, s, t.date);
    StepOnEntry(y, t, v, v);
    SetPresent(y[s].entries, VStr(n), v);
    WriteSame(y, s);
  }

  /** Running a record again on its own result changes nothing. */
  lemma StepAbsorb(x: Files, t: Record)
    requires Step(x, t).Some?
    ensures Step(Step(x, t).value, t) == Step(x, t)
  {
    StepSettled(x, t);
    var y := Step(x, t).value;
    StepFixed(y, t, EntryOf(y, Key(t)).value);
  }

  /** Two records for the same settled entry: the second one wins. */
  lemma StepOverwrite(x: Files, u: Record, t: Record)
    requires Key(u) == Key(t) && Settled(x, Key(t))
    ensures Step(x, u).Some?
    ensures Step(Step(x, u).value, t) == Step(x, t)
  {
    var s := t.subject;
    var e := EntryOf(x, Key(t)).value;
    var v1 := Stamp(e, s, u.date);
    var v2 := Stamp(e, s, t.date);
    TouchExisting(e, s, u.date);
    TouchExisting(e, s, t.date);
    StampOverwrite(e, s, u.date, t.date);
    TouchExisting(v1, s, t.date);
    StepTwice(x, u, t, e, v1, v2);
    StepOnEntry(x, t, e, v2);
  }

  /** Two records for the same entry, one after the other. */
  lemma StepTwice(x: Files, u: Record, t: Record, e: Value, v1: Value, v2: Value)
    requires Key(u) == Key(t) && EntryOf(x, Key(t)) == Some(e)
    requires Touch(Some(e), t.subject, u.date) == Ok(v1) && Touch(Some(v1), t.subject, t.date) == Ok(v2)
    ensures Step(x, u).Some?
    ensures Step(Step(x, u).value, t) == Some(x[t.subject := VMap(Set(x[t.subject].entries, VStr(TopicKey(t.topic)), v2))])
  {
    var s, n := t.subject, VStr(TopicKey(t.topic));
    StepOnEntry(x, u, e, v1);
    StepAgain(x, x[s := VMap(Set(x[s].entries, n, v1))], t, v1, v2);
  }

  /** The second of two records for one entry, applied to the files the first
      one wrote. */
  lemma StepAgain(x: Files, y: Files, t: Record, v1: Value, v2: Value)
    requires EntryOf(x, Key(t)).Some?
    requires y == x[t.subject := VMap(Set(x[t.subject].entries, VStr(TopicKey(t.topic)), v1))]
    requires Touch(Some(v1), t.subject, t.date) == Ok(v2)
    ensures Step(y, t) == Some(x[t.subject := VMap(Set(x[t.subject].entries, VStr(TopicKey(t.topic)), v2))])
  {
    var s, n := t.subject, VStr(TopicKey(t.topic));
    var d := x[s].entries;
    var d1 := Set(d, n, v1);
    LoadedSet(x, s, d, n, v1);
    StepAt(y, t, VMap(d1), v2);
    SetSet(d, n, v1, v2);
    WriteTwice(x, s, VMap(d1), VMap(Set(d, n, v2)));
  }

  /** A file just written with an entry loads as written. */
  lemma LoadedSet(x: Files, s: string, d: seq<(Value, Value)>, n: Value, v: Value)
    ensures Loaded(x[s := VMap(Set(d, n, v))], s) == VMap(Set(d, n, v))
    ensures Get(Set(d, n, v), n) == Some(v)
  {
    assert HasKey(Set(d, n, v), n);
  }

  /** Writing a dict file back as it is changes nothing. */
  lemma WriteSame(x: Files, s: string)
    requires s in x && x[s].VMap?
    ensures x[s := VMap(x[s].entries)] == x
  {
  }

  /** Writing a file twice leaves the second content. */
  lemma WriteTwice(x: Files, s: string, a: Value, b: Value)
    ensures x[s := a][s := b] == x[s := b]
  {
  }

  /** Records for different entries commute, provided one of them is settled and
      the other does not raise. */
  lemma StepCommute(x: Files, u: Record, t: Record)
    requires Key(u) != Key(t) && Settled(x, Key(u)) && Step(x, t).Some?
    ensures Step(x, u).Some?
    ensures Step(Step(x, t).value, u).Some? && Step(Step(x, u).value, t).Some?
    ensures Step(Step(x, t).value, u) == Step(Step(x, u).value, t)
  {
    var su, nu := u.subject, TopicKey(u.topic);
    var st, nt := t.subject, TopicKey(t.topic);
    StepSettled(x, u);
    FileLoaded(x, Key(u));
    var vu := Touch(Get(x[su].entries, VStr(nu)), su, u.date).value;
    var vt := Touch(Get(Loaded(x, st).entries, VStr(nt)), st, t.date).value;
    if su != st {
      CommuteApart(x, u, t, x[su], Loaded(x, st), vu, vt);
    } else {
      var d := x[su].entries;
      assert HasKey(d, VStr(nu));
      StepThenStep(x, u, t, d, vu, vt);
      StepThenStep(x, t, u, d, vt, vu);
      SetCommute(d, VStr(nt), vt, VStr(nu), vu);
    }
  }

  lemma CommuteApart(x: Files, u: Record, t: Record, du: Value, dt: Value, vu: Value, vt: Value)
    requires u.subject != t.subject
    requires du == Loaded(x, u.subject) && du.VMap? && dt == Loaded(x, t.subject) && dt.VMap?
    requires Touch(Get(du.entries, VStr(TopicKey(u.topic))), u.subject, u.date) == Ok(vu)
    requires Touch(Get(dt.entries, VStr(TopicKey(t.topic))), t.subject, t.date) == Ok(vt)
    ensures Step(x, u).Some? && Step(x, t).Some?
    ensures Step(Step(x, t).value, u).Some? && Step(Step(x, u).value, t).Some?
    ensures Step(Step(x, t).value, u) == Step(Step(x, u).value, t)
  {
    var su, nu := u.subject, TopicKey(u.topic);
    var st, nt := t.subject, TopicKey(t.topic);
    var fu := VMap(Set(du.entries, VStr(nu), vu));
    var ft := VMap(Set(dt.entries, VStr(nt), vt));
    StepAt(x, u, du, vu);
    StepAt(x, t, dt, vt);
    var yu := x[su := fu];
    var yt := x[st := ft];
    LoadedOther(x, su, fu, st);
    LoadedOther(x, st, ft, su);
    StepAt(yt, u, du, vu);
    StepAt(yu, t, dt, vt);
    WriteApart(x, su, fu, st, ft);
  }

  /** Writing one file does not change how another loads. */
  lemma LoadedOther(x: Files, s: string, f: Value, other: string)
    requires s != other
    ensures Loaded(x[s := f], other) == Loaded(x, other)
  {
  }

  /** Writes to two different files commute. */
  lemma WriteApart(x: Files, s1: string, f1: Value, s2: string, f2: Value)
    requires s1 != s2
    ensures x[s1 := f1][s2 := f2] == x[s2 := f2][s1 := f1]
  {
  }

  /** Two records for different names of one file, one after the other. */
  lemma StepThenStep(x: Files, first: Record, second: Record, d: seq<(Value, Value)>, v1: Value, v2: Value)
    requires first.subject == second.subject && TopicKey(first.topic) != TopicKey(second.topic)
    requires Loaded(x, first.subject) == VMap(d)
    requires Touch(Get(d, VStr(TopicKey(first.topic))), first.subject, first.date) == Ok(v1)
    requires Touch(Get(d, VStr(TopicKey(second.topic))), second.subject, second.date) == Ok(v2)
    ensures Step(x, first).Some?
    ensures Step(Step(x, first).value, second)
         == Some(x[first.subject := VMap(Set(Set(d, VStr(TopicKey(first.topic)), v1), VStr(TopicKey(second.topic)), v2))])
  {
    var s, n1, n2 := first.subject, VStr(TopicKey(first.topic)), VStr(TopicKey(second.topic));
    StepAt(x, first, VMap(d), v1);
    var d1 := Set(d, n1, v1);
    var y := x[s := VMap(d1)];
    assert Get(d1, n2) == Get(d, n2);
    assert Loaded(y, s) == VMap(d1) by {
      assert HasKey(d1, n1);
    }
    StepAt(y, second, VMap(d1), v2);
    WriteTwice(x, s, VMap(d1), VMap(Set(d1, n2, v2)));
  }

  // --- many records -----------------------------------------------------------

  /** A run that reached the end: its prefix did, and its last step did not
      raise. */
  lemma UpdateAllLast(f: Files, ts: seq<Record>)
    requires UpdateAll(f, ts).1 && ts != []
    ensures UpdateAll(f, ts[..|ts| - 1]).1
    ensures Step(UpdateAll(f, ts[..|ts| - 1]).0, ts[|ts| - 1]) == Some(UpdateAll(f, ts).0)
  {
  }

  /** After a run that reached the end, every record's entry is settled. */
  lemma {:induction false} SettledAfter(f: Files, ts: seq<Record>, j: nat)
    requires UpdateAll(f, ts).1 && j < |ts|
    ensures Settled(UpdateAll(f, ts).0, Key(ts[j]))
    decreases |ts|
  {
    var prefix := ts[..|ts| - 1];
    var t := ts[|ts| - 1];
    UpdateAllLast(f, ts);
    if j < |prefix| {
      SettledAfter(f, prefix, j);
      SettledNext(UpdateAll(f, prefix).0, t, Key(prefix[j]), UpdateAll(f, ts).0);
    } else {
      SettledNext(UpdateAll(f, prefix).0, t, Key(t), UpdateAll(f, ts).0);
    }
  }

  /** The entry of a step's own record, or one settled before it, is settled
      after it. */
  lemma SettledNext(x: Files, t: Record, k: (string, string), y: Files)
    requires Step(x, t) == Some(y) && (k == Key(t) || Settled(x, k))
    ensures Settled(y, k)
  {
    if k == Key(t) {
      StepSettled(x, t);
    } else {
      StepKeeps(x, t, k);
    }
  }

  /** A run keeps every settled entry settled. */
  lemma {:induction false} RunKeeps(x: Files, ts: seq<Record>, k: (string, string))
    requires UpdateAll(x, ts).1 && Settled(x, k)
    ensures Settled(UpdateAll(x, ts).0, k)
    decreases |ts|
  {
    if ts != [] {
      var prefix := ts[..|ts| - 1];
      var y := UpdateAll(x, prefix).0;
      UpdateAllLast(x, ts);
      RunKeeps(x, prefix, k);
      StepKeeps(y, ts[|ts| - 1], k);
    }
  }

  /** Every record's entry is settled. */
  ghost predicate AllSettled(x: Files, ts: seq<Record>) {
    forall j :: 0 <= j < |ts| ==> Settled(x, Key(ts[j]))
  }

  lemma AllSettledPrefix(x: Files, ts: seq<Record>, n: nat)
    requires AllSettled(x, ts) && n <= |ts|
    ensures AllSettled(x, ts[..n])
  {
    assert forall j :: 0 <= j < n ==> ts[..n][j] == ts[j];
  }

  /** Records whose entries are all settled run to the end. */
  lemma {:induction false} SettledRun(x: Files, ts: seq<Record>)
    requires AllSettled(x, ts)
    ensures UpdateAll(x, ts).1
    decreases |ts|
  {
    if ts != [] {
      var prefix := ts[..|ts| - 1];
      var u := ts[|ts| - 1];
      AllSettledPrefix(x, ts, |ts| - 1);
      SettledRun(x, prefix);
      var y := UpdateAll(x, prefix).0;
      assert Settled(x, Key(u));
      RunKeeps(x, prefix, Key(u));
      StepSettled(y, u);
    }
  }

  /** A step keeps every record's entry settled. */
  lemma StepKeepsAll(x: Files, t: Record, ts: seq<Record>)
    requires Step(x, t).Some? && AllSettled(x, ts)
    ensures AllSettled(Step(x, t).value, ts)
  {
    forall j | 0 <= j < |ts| ensures Settled(Step(x, t).value, Key(ts[j])) {
      StepKeeps(x, t, Key(ts[j]));
    }
  }

  /** A record `t` on a settled entry, run before records `ts`, is absorbed by
      running `t` again after them. */
  lemma {:induction false} AbsorbAfter(x: Files, t: Record, ts: seq<Record>)
    requires Settled(x, Key(t)) && AllSettled(x, ts)
    ensures Step(x, t).Some?
    ensures UpdateAll(Step(x, t).value, ts).1 && UpdateAll(x, ts).1
    ensures Step(UpdateAll(Step(x, t).value, ts).0, t) == Step(UpdateAll(x, ts).0, t)
    ensures Step(UpdateAll(x, ts).0, t).Some?
    decreases |ts|
  {
    StepSettled(x, t);
    var xt := Step(x, t).value;
    StepKeepsAll(x, t, ts);
    SettledRun(xt, ts);
    SettledRun(x, ts);
    if ts == [] {
      StepAbsorb(x, t);
    } else {
      var prefix := ts[..|ts| - 1];
      var u := ts[|ts| - 1];
      AllSettledPrefix(x, ts, |ts| - 1);
      AbsorbAfter(x, t, prefix);
      assert Settled(x, Key(u)) && Settled(xt, Key(u));
      UpdateAllLast(xt, ts);
      UpdateAllLast(x, ts);
      RunKeeps(xt, prefix, Key(u));
      RunKeeps(x, prefix, Key(u));
      RunKeeps(x, prefix, Key(t));
      AbsorbLast(UpdateAll(xt, prefix).0, UpdateAll(x, prefix).0, t, u);
    }
  }

  /** The last step of `AbsorbAfter`: `t` absorbed before `u` on the left, after
      it on the right. */
  lemma AbsorbLast(a: Files, b: Files, t: Record, u: Record)
    requires Step(a, t) == Step(b, t) && Settled(a, Key(u)) && Settled(b, Key(u)) && Settled(b, Key(t))
    ensures Step(a, u).Some? && Step(b, u).Some?
    ensures Step(Step(a, u).value, t).Some?
    ensures Step(Step(a, u).value, t) == Step(Step(b, u).value, t)
  {
    StepSettled(b, t);
    if Key(u) == Key(t) {
      StepOverwrite(a, u, t);
      StepOverwrite(b, u, t);
    } else {
      StepCommute(a, u, t);
      StepCommute(b, u, t);
    }
  }

  /** Some record of `ts` is filed under `key`. */
  ghost predicate KeyIn(key: (string, string), ts: seq<Record>) {
    exists j :: 0 <= j < |ts| && Key(ts[j]) == key
  }

  lemma KeyInPrefix(key: (string, string), ts: seq<Record>, n: nat)
    requires n <= |ts|
    ensures KeyIn(key, ts[..n]) ==> KeyIn(key, ts)
  {
    if KeyIn(key, ts[..n]) {
      var j :| 0 <= j < n && Key(ts[..n][j]) == key;
      assert ts[..n][j] == ts[j];
    }
  }

  /** A record whose entry no later record touches can be moved after them. */
  lemma {:induction false} CommutePast(x: Files, t: Record, ts: seq<Record>)
    requires !KeyIn(Key(t), ts) && AllSettled(x, ts) && Step(x, t).Some?
    ensures UpdateAll(x, ts).1 && Step(UpdateAll(x, ts).0, t).Some?
    ensures UpdateAll(Step(x, t).value, ts) == (Step(UpdateAll(x, ts).0, t).value, true)
    decreases |ts|
  {
    SettledRun(x, ts);
    if ts != [] {
      var prefix := ts[..|ts| - 1];
      var u := ts[|ts| - 1];
      AllSettledPrefix(x, ts, |ts| - 1);
      KeyInPrefix(Key(t), ts, |ts| - 1);
      CommutePast(x, t, prefix);
      var b := UpdateAll(x, prefix).0;
      assert Settled(x, Key(u));
      RunKeeps(x, prefix, Key(u));
      StepCommute(b, u, t);
    }
  }

  /** Running `update_topics` again with the same records, after a run that
      reached the end, changes nothing. */
  lemma {:induction false} UpdateTopicsIdempotent(f: Files, ts: seq<Record>)
    requires UpdateAll(f, ts).1
    ensures UpdateAll(UpdateAll(f, ts).0, ts) == UpdateAll(f, ts)
    decreases |ts|
  {
    if ts != [] {
      var prefix := ts[..|ts| - 1];
      var t := ts[|ts| - 1];
      var g0 := UpdateAll(f, prefix).0;
      UpdateAllLast(f, ts);
      UpdateTopicsIdempotent(f, prefix);
      forall j | 0 <= j < |prefix| ensures Settled(g0, Key(prefix[j])) {
        SettledAfter(f, prefix, j);
      }
      if KeyIn(Key(t), prefix) {
        var j :| 0 <= j < |prefix| && Key(prefix[j]) == Key(t);
        AbsorbAfter(g0, t, prefix);
      } else {
        CommutePast(g0, t, prefix);
        StepAbsorb(g0, t);
      }
    }
  }

  /** Among records filed under the same entry, the last one's date is the one
      recorded, and the entry ends up active under that record's subject. */
  lemma {:induction false} LastRecordWins(f: Files, ts: seq<Record>, j: nat)
    requires UpdateAll(f, ts).1 && j < |ts|
    requires forall i :: j < i < |ts| ==> Key(ts[i]) != Key(ts[j])
    ensures Settled(UpdateAll(f, ts).0, Key(ts[j]))
    ensures Stamped(MetaOf(EntryOf(UpdateAll(f, ts).0, Key(ts[j])).value), ts[j].subject, ts[j].date)
    decreases |ts|
  {
    var prefix := ts[..|ts| - 1];
    var t := ts[|ts| - 1];
    var g0 := UpdateAll(f, prefix).0;
    UpdateAllLast(f, ts);
    if j == |ts| - 1 {
      StepSettled(g0, t);
    } else {
      assert prefix[j] == ts[j];
      LastRecordWins(f, prefix, j);
      StepFrame(g0, t, Key(ts[j]));
    }
  }

  // ---------------------------------------------------------------------------
  // sync_db_to_yaml: grouping the rows by subject

  /** A row of `SELECT name, subject, grade_level, active, last_seen_date FROM
      topics`: the table's row, column for column. Any column may be `NULL`, an
      integer or text. */
  type TopicRow = TableRow

  /** The dict a row becomes in its subject's group: the fetched Python values,
      with `active` as `bool(active)`. */
  datatype GroupedTopic = GroupedTopic(name: Value, gradeLevel: Value, active: bool, lastSeen: Value)

  function Grouped(row: TopicRow): GroupedTopic {
    GroupedTopic(PyOf(row.name), PyOf(row.gradeLevel), Truthy(PyOf(row.active)), PyOf(row.lastSeen))
  }

  /** The `subjects` dict: subject to its list of topics, in insertion order. A
      subject is the fetched value; two fetched values are the same dict key
      exactly when they are equal (`None`, `int` and `str` keys never collide). */
  type Groups = seq<(SqlValue, seq<GroupedTopic>)>

  /** `subjects.setdefault(subject, []).append(topic)`: a subject seen for the
      first time goes last. */
  function AddTo(groups: Groups, subject: SqlValue, topic: GroupedTopic): Groups
    decreases |groups|
  {
    if groups == [] then [(subject, [topic])]
    else if groups[0].0 == subject then [(subject, groups[0].1 + [topic])] + groups[1..]
    else [groups[0]] + AddTo(groups[1..], subject, topic)
  }

  /** The groups the loop over the fetched rows builds. */
  function GroupRows(rows: seq<TopicRow>): Groups
    decreases |rows|
  {
    if rows == [] then []
    else AddTo(GroupRows(rows[..|rows| - 1]), rows[|rows| - 1].subject, Grouped(rows[|rows| - 1]))
  }

  /** `subjects.get(subject, [])`. */
  function GroupOf(groups: Groups, subject: SqlValue): seq<GroupedTopic>
    decreases |groups|
  {
    if groups == [] then []
    else if groups[0].0 == subject then groups[0].1
    else GroupOf(groups[1..], subject)
  }

  /** The reference: the rows of one subject, in row order. */
  function RowsOf(rows: seq<TopicRow>, subject: SqlValue): seq<GroupedTopic>
    decreases |rows|
  {
    if rows == [] then []
    else
      var last := rows[|rows| - 1];
      RowsOf(rows[..|rows| - 1], subject) + if last.subject == subject then [Grouped(last)] else []
  }

  /** The subjects that have a group. */
  function SubjectsOf(groups: Groups): set<SqlValue>
    decreases |groups|
  {
    if groups == [] then {} else {groups[0].0} + SubjectsOf(groups[1..])
  }

  /** No subject has two groups, and no group is empty. */
  predicate WellGrouped(groups: Groups)
    decreases |groups|
  {
    groups == [] ||
    (groups[0].1 != [] && groups[0].0 !in SubjectsOf(groups[1..]) && WellGrouped(groups[1..]))
  }

  /** `subjects = {}` and the loop over the rows. */
  method GroupBySubject(rows: seq<TopicRow>) returns (subjects: Groups)
    ensures subjects == GroupRows(rows)
  {
    subjects := [];
    for i := 0 to |rows|
      invariant subjects == GroupRows(rows[..i])
    {
      assert rows[..i + 1][..i] == rows[..i];
      subjects := AddTo(subjects, rows[i].subject, Grouped(rows[i]));
    }
    assert rows[..|rows|] == rows;
  }

  /** Appending a topic extends its own subject's group and no other. */
  lemma {:induction false} AddToGroupOf(groups: Groups, subject: SqlValue, topic: GroupedTopic, s: SqlValue)
    ensures GroupOf(AddTo(groups, subject, topic), s) == GroupOf(groups, s) + if s == subject then [topic] else []
    decreases |groups|
  {
    if groups != [] && groups[0].0 != subject {
      AddToGroupOf(groups[1..], subject, topic, s);
    }
  }

  /** Appending a topic adds its subject to the subjects, and keeps the groups
      well formed. */
  lemma {:induction false} AddToWellGrouped(groups: Groups, subject: SqlValue, topic: GroupedTopic)
    requires WellGrouped(groups)
    ensures SubjectsOf(AddTo(groups, subject, topic)) == SubjectsOf(groups) + {subject}
    ensures WellGrouped(AddTo(groups, subject, topic))
    decreases |groups|
  {
    if groups != [] && groups[0].0 != subject {
      AddToWellGrouped(groups[1..], subject, topic);
      assert AddTo(groups, subject, topic)[1..] == AddTo(groups[1..], subject, topic);
    } else if groups != [] {
      assert AddTo(groups, subject, topic)[1..] == groups[1..];
    }
  }

  /** A subject has a group exactly when `GroupOf` finds topics for it. */
  lemma {:induction false} SubjectsGroupOf(groups: Groups, s: SqlValue)
    requires WellGrouped(groups)
    ensures s in SubjectsOf(groups) <==> GroupOf(groups, s) != []
    decreases |groups|
  {
    if groups != [] && groups[0].0 != s {
      SubjectsGroupOf(groups[1..], s);
    }
  }

  /** Grouping puts every row in its subject's group and nowhere else, keeps the
      rows' order within a group, and gives each subject of the rows exactly one
      non-empty group. */
  lemma {:induction false} GroupRowsSpec(rows: seq<TopicRow>, s: SqlValue)
    ensures GroupOf(GroupRows(rows), s) == RowsOf(rows, s)
    ensures WellGrouped(GroupRows(rows))
    ensures s in SubjectsOf(GroupRows(rows)) <==> RowsOf(rows, s) != []
    decreases |rows|
  {
    if rows != [] {
      var prefix, last := rows[..|rows| - 1], rows[|rows| - 1];
      GroupRowsSpec(prefix, s);
      AddToGroupOf(GroupRows(prefix), last.subject, Grouped(last), s);
      AddToWellGrouped(GroupRows(prefix), last.subject, Grouped(last));
      SubjectsGroupOf(GroupRows(rows), s);
    }
  }

  /** A group's topics are the ones `GroupOf` finds for its subject. */
  lemma {:induction false} GroupOfAt(groups: Groups, i: nat)
    requires WellGrouped(groups) && i < |groups|
    ensures GroupOf(groups, groups[i].0) == groups[i].1
    decreases |groups|
  {
    if i > 0 {
      SubjectAt(groups[1..], i - 1);
      GroupOfAt(groups[1..], i - 1);
    }
  }

  lemma {:induction false} SubjectAt(groups: Groups, i: nat)
    requires i < |groups|
    ensures groups[i].0 in SubjectsOf(groups)
    decreases |groups|
  {
    if i > 0 {
      SubjectAt(groups[1..], i - 1);
    }
  }

  // ---------------------------------------------------------------------------
  // sync_db_to_yaml: writing the groups into the hints files

  /** The entry created for a name its file does not have yet. */
  const Skeleton: Value := VMap([(VStr("definition"), VStr(PendingDefinition)), (VStr("examples"), VList([])),
                                 (VStr("link"), VStr("")), (VStr("_meta"), VMap([]))])

  /** The pairs `meta.update` writes for a topic of `subject`, in the order
      written. */
  function SyncPairs(topic: GroupedTopic, subject: SqlValue): seq<(Value, Value)> {
    [(VStr("grade_level"), topic.gradeLevel), (VStr("active"), VBool(topic.active)),
     (VStr("last_seen_date"), topic.lastSeen), (VStr("subject"), PyOf(subject))]
  }

  /** A topic's entry after the update, given the entry before (`None`: not in the
      file, so the skeleton is added first). */
  function SyncEntry(entry: Option<Value>, topic: GroupedTopic, subject: SqlValue): Result<Value, PyError> {
    var e := entry.GetOr(Skeleton);
    if !e.VMap? then Err(AttributeError)
    else
      var (e1, meta) := SetDefault(e.entries, VStr("_meta"), VMap([]));
      if !meta.VMap? then Err(AttributeError)
      else Ok(VMap(Set(e1, VStr("_meta"), VMap(Update(meta.entries, SyncPairs(topic, subject))))))
  }

  /** Python's `i == v` between an integer name and an element of a list file:
      an integer equals the same integer and the bool of that value. */
  predicate IntEquals(i: int, v: Value) {
    || (v.VInt? && v.i == i)
    || (v.VBool? && (if v.b then 1 else 0) == i)
  }

  /** `i in items` for an integer `i`. */
  predicate ListHas(items: seq<Value>, i: int) {
    exists k :: 0 <= k < |items| && IntEquals(i, items[k])
  }

  /** The position `items[i]` reads in a list of length `n`: a negative index
      counts from the end. */
  function ListIndex(n: nat, i: int): (at: nat)
    requires -(n as int) <= i < n
    ensures at < n && (at - i) % n == 0
  {
    if i < 0 then n + i else i
  }

  /** One topic applied to the loaded file of its subject. A dict is indexed by the
      name. A list is indexed by an integer name, Python's way: `name in data`
      compares the elements, `data[name]` counts a negative index from the end, and
      an index out of range raises `IndexError`. Any other file, or a list with a
      name that is not an integer, raises `TypeError` at `in` or at the index. */
  function SyncTopic(data: Value, topic: GroupedTopic, subject: SqlValue): Result<Value, PyError> {
    if data.VMap? then
      match SyncEntry(Get(data.entries, topic.name), topic, subject)
      case Err(e) => Err(e)
      case Ok(v) => Ok(VMap(Set(data.entries, topic.name, v)))
    else if data.VList? && topic.name.VInt? then
      var items, i := data.items, topic.name.i;
      if !(-|items| <= i < |items|) then Err(IndexError)
      else
        var at := ListIndex(|items|, i);
        match SyncEntry(if ListHas(items, i) then Some(items[at]) else None, topic, subject)
        case Err(e) => Err(e)
        case Ok(v) => Ok(VList(items[at := v]))
    else Err(TypeError)
  }

  /** The loop over a group's topics; an exception stops it. */
  function SyncData(data: Value, topics: seq<GroupedTopic>, subject: SqlValue): Result<Value, PyError>
    decreases |topics|
  {
    if topics == [] then Ok(data)
    else
      match SyncTopic(data, topics[0], subject)
      case Err(e) => Err(e)
      case Ok(d) => SyncData(d, topics[1..], subject)
  }

  /** One subject: load its file, update it, write it back. `None` when the
      update raises, and then the file is not written. */
  function SyncFile(files: Files, group: (SqlValue, seq<GroupedTopic>)): Option<Files> {
    var file := PyStr(group.0);
    match SyncData(Loaded(files, file), group.1, group.0)
    case Err(_) => None
    case Ok(d) => Some(files[file := d])
  }

  /** The loop over the groups: the files afterwards, and whether it ran to the
      end. The files written before an exception stay written. */
  function SyncAll(files: Files, groups: Groups): (Files, bool)
    decreases |groups|
  {
    if groups == [] then (files, true)
    else
      match SyncFile(files, groups[0])
      case None => (files, false)
      case Some(next) => SyncAll(next, groups[1..])
  }

  /** The loop over one subject's topics, on its loaded file. */
  method SyncSubject(loaded: Value, topics: seq<GroupedTopic>, subject: SqlValue) returns (r: Result<Value, PyError>)
    ensures r == SyncData(loaded, topics, subject)
  {
    var data := loaded;
    for j := 0 to |topics|
      invariant SyncData(loaded, topics, subject) == SyncData(data, topics[j..], subject)
    {
      var step := SyncTopic(data, topics[j], subject);
      assert topics[j..][1..] == topics[j + 1..];
      if step.Err? {
        return step;
      }
      data := step.value;
    }
    return Ok(data);
  }

  /** `sync_db_to_yaml()` with the rows its query fetches; `ok` is false when it
      raised part-way. */
  method SyncDbToYaml(dir: HintsDirectory, rows: seq<TopicRow>) returns (ok: bool)
    modifies dir
    ensures (dir.files, ok) == SyncAll(old(dir.files), GroupRows(rows))
  {
    var subjects := GroupBySubject(rows);
    for i := 0 to |subjects|
      invariant SyncAll(old(dir.files), subjects) == SyncAll(dir.files, subjects[i..])
    {
      var subject := subjects[i].0;
      var yamlPath := PyStr(subject);
      var r := SyncSubject(Loaded(dir.files, yamlPath), subjects[i].1, subject);
      assert subjects[i..][1..] == subjects[i + 1..];
      if r.Err? {
        return false;
      }
      dir.files := dir.files[yamlPath := r.value];
    }
    return true;
  }

  // --- one topic ---------------------------------------------------------------

  /** A `_meta` dict holding a topic's row values under its subject. */
  ghost predicate Synced(meta: seq<(Value, Value)>, topic: GroupedTopic, subject: SqlValue) {
    Get(meta, VStr("grade_level")) == Some(topic.gradeLevel) &&
    Get(meta, VStr("active")) == Some(VBool(topic.active)) &&
    Get(meta, VStr("last_seen_date")) == Some(topic.lastSeen) &&
    Get(meta, VStr("subject")) == Some(PyOf(subject))
  }

  lemma SyncPairsDistinct(topic: GroupedTopic, subject: SqlValue)
    ensures DistinctKeys(SyncPairs(topic, subject))
  {
  }

  /** What `meta.update` leaves in `_meta`: the row's values, and every other key
      as it was. */
  lemma SyncMetaEffect(meta: seq<(Value, Value)>, topic: GroupedTopic, subject: SqlValue)
    ensures Synced(Update(meta, SyncPairs(topic, subject)), topic, subject)
    ensures forall k :: !MetaKey(k) ==> Get(Update(meta, SyncPairs(topic, subject)), k) == Get(meta, k)
  {
    SyncMetaSet(meta, SyncPairs(topic, subject), topic, subject);
    SyncMetaKept(meta, SyncPairs(topic, subject), topic, subject);
  }

  lemma SyncMetaSet(meta: seq<(Value, Value)>, pairs: seq<(Value, Value)>, topic: GroupedTopic, subject: SqlValue)
    requires pairs == SyncPairs(topic, subject)
    ensures Synced(Update(meta, pairs), topic, subject)
  {
    SyncPairsDistinct(topic, subject);
    UpdateGet(meta, pairs, 0);
    UpdateGet(meta, pairs, 1);
    UpdateGet(meta, pairs, 2);
    UpdateGet(meta, pairs, 3);
  }

  lemma SyncMetaKept(meta: seq<(Value, Value)>, pairs: seq<(Value, Value)>, topic: GroupedTopic, subject: SqlValue)
    requires pairs == SyncPairs(topic, subject)
    ensures forall k :: !MetaKey(k) ==> Get(Update(meta, pairs), k) == Get(meta, k)
  {
    forall k | !MetaKey(k) ensures Get(Update(meta, pairs), k) == Get(meta, k) {
      UpdateKeys(meta, pairs, k);
    }
  }

  /** An updatable entry with a topic's values written into its `_meta`. */
  function SyncStamp(e: Value, topic: GroupedTopic, subject: SqlValue): Value
    requires Updatable(e)
  {
    VMap(Set(e.entries, VStr("_meta"), VMap(Update(MetaOf(e), SyncPairs(topic, subject)))))
  }

  /** An existing entry raises exactly when it is not updatable; otherwise its
      `_meta` is updated where it stands, or added last when it had none. */
  lemma SyncEntryExisting(e: Value, topic: GroupedTopic, subject: SqlValue)
    ensures SyncEntry(Some(e), topic, subject) == if Updatable(e) then Ok(SyncStamp(e, topic, subject)) else Err(AttributeError)
  {
    if Updatable(e) && !HasKey(e.entries, VStr("_meta")) {
      var m2 := VMap(Update(MetaOf(e), SyncPairs(topic, subject)));
      assert Set(e.entries, VStr("_meta"), VMap([])) == e.entries + [(VStr("_meta"), VMap([]))];
      SetSet(e.entries, VStr("_meta"), VMap([]), m2);
    }
  }

  /** A missing name gets the skeleton entry, with the row's values as its whole
      `_meta`. */
  lemma SyncEntryNew(topic: GroupedTopic, subject: SqlValue)
    ensures SyncEntry(None, topic, subject)
         == Ok(VMap([(VStr("definition"), VStr(PendingDefinition)), (VStr("examples"), VList([])),
                     (VStr("link"), VStr("")), (VStr("_meta"), VMap(SyncPairs(topic, subject)))]))
  {
    var pairs := SyncPairs(topic, subject);
    SyncPairsDistinct(topic, subject);
    UpdateAppend([], pairs);
    assert Update([], pairs) == pairs;
    SkeletonMeta(VMap(pairs));
    SyncEntrySkeleton(topic, subject);
  }

  /** Helper: a missing name is updated as the skeleton, whose `_meta` starts empty. */
  lemma SyncEntrySkeleton(topic: GroupedTopic, subject: SqlValue)
    ensures SyncEntry(None, topic, subject)
         == Ok(VMap(Set(Skeleton.entries, VStr("_meta"), VMap(Update([], SyncPairs(topic, subject))))))
  {
    SkeletonMeta(VMap([]));
  }

  /** Helper: the skeleton gets `_meta` set (and defaulted to an empty map) as its
      fourth key. */
  lemma SkeletonMeta(m: Value)
    ensures SetDefault(Skeleton.entries, VStr("_meta"), VMap([])) == (Skeleton.entries, VMap([]))
    ensures Set(Skeleton.entries, VStr("_meta"), m)
         == [(VStr("definition"), VStr(PendingDefinition)), (VStr("examples"), VList([])),
             (VStr("link"), VStr("")), (VStr("_meta"), m)]
  {
    var sk := Skeleton.entries;
    assert sk[0].0 != VStr("_meta") && sk[1].0 != VStr("_meta") && sk[2].0 != VStr("_meta");
    IndexOfFirst(sk, VStr("_meta"), 3);
    SetAt(sk, VStr("_meta"), m);
    assert Set(sk, VStr("_meta"), m) == sk[3 := (VStr("_meta"), m)];
  }

  /** A stamped entry: every key but `_meta` keeps its value, and `_meta` holds the
      row's values and keeps every other key. */
  lemma SyncStampEffect(e: Value, topic: GroupedTopic, subject: SqlValue)
    requires Updatable(e)
    ensures Updatable(SyncStamp(e, topic, subject)) && HasKey(SyncStamp(e, topic, subject).entries, VStr("_meta"))
    ensures forall k :: k != VStr("_meta") ==> Get(SyncStamp(e, topic, subject).entries, k) == Get(e.entries, k)
    ensures Synced(MetaOf(SyncStamp(e, topic, subject)), topic, subject)
    ensures forall k :: !MetaKey(k) ==> Get(MetaOf(SyncStamp(e, topic, subject)), k) == Get(MetaOf(e), k)
  {
    var m2 := Update(MetaOf(e), SyncPairs(topic, subject));
    assert Get(SyncStamp(e, topic, subject).entries, VStr("_meta")) == Some(VMap(m2));
    SyncMetaEffect(MetaOf(e), topic, subject);
  }

  /** Every entry the update writes is updatable and holds the row's values. */
  lemma SyncEntryDone(entry: Option<Value>, topic: GroupedTopic, subject: SqlValue)
    requires SyncEntry(entry, topic, subject).Ok?
    ensures Updatable(SyncEntry(entry, topic, subject).value)
    ensures Synced(MetaOf(SyncEntry(entry, topic, subject).value), topic, subject)
  {
    match entry
    case None =>
      SyncEntryNew(topic, subject);
      SyncStampEffect(Skeleton, topic, subject);
      SyncEntryExisting(Skeleton, topic, subject);
    case Some(e) =>
      SyncEntryExisting(e, topic, subject);
      SyncStampEffect(e, topic, subject);
  }

  /** A topic raises exactly when:
      - the file is a dict whose entry for the name exists and is not updatable;
      - the file is a list and the name is an integer out of range, or one equal to
        some element, whose indexed element is not updatable;
      - the file is a list and the name is not an integer;
      - the file is neither a dict nor a list. */
  lemma SyncTopicRaises(data: Value, topic: GroupedTopic, subject: SqlValue)
    ensures SyncTopic(data, topic, subject).Err? <==>
      if data.VMap? then HasKey(data.entries, topic.name) && !Updatable(Get(data.entries, topic.name).value)
      else if data.VList? && topic.name.VInt? then
        || !(-|data.items| <= topic.name.i < |data.items|)
        || (ListHas(data.items, topic.name.i) && !Updatable(data.items[ListIndex(|data.items|, topic.name.i)]))
      else true
    ensures data.VList? && topic.name.VInt? && !(-|data.items| <= topic.name.i < |data.items|) ==>
      SyncTopic(data, topic, subject) == Err(IndexError)
  {
    if data.VMap? {
      match Get(data.entries, topic.name)
      case None =>
        SyncEntryNew(topic, subject);
      case Some(e) =>
        SyncEntryExisting(e, topic, subject);
    } else if data.VList? && topic.name.VInt? && -|data.items| <= topic.name.i < |data.items| {
      var at := ListIndex(|data.items|, topic.name.i);
      if ListHas(data.items, topic.name.i) {
        SyncEntryExisting(data.items[at], topic, subject);
      } else {
        SyncEntryNew(topic, subject);
      }
    }
  }

  /** After a topic its entry is updatable and holds the row's values, and every
      other entry of the file is unchanged. */
  lemma SyncTopicEffect(data: Value, topic: GroupedTopic, subject: SqlValue)
    requires SyncTopic(data, topic, subject).Ok? && data.VMap?
    ensures SyncTopic(data, topic, subject).value.VMap?
    ensures var e := Get(SyncTopic(data, topic, subject).value.entries, topic.name);
      e.Some? && Updatable(e.value) && Synced(MetaOf(e.value), topic, subject)
    ensures forall k :: k != topic.name ==> Get(SyncTopic(data, topic, subject).value.entries, k) == Get(data.entries, k)
  {
    SyncEntryDone(Get(data.entries, topic.name), topic, subject);
  }

  /** On a file that is not a dict, a topic that does not raise had a list file and
      an integer name in range. The element that name indexes is then updatable and
      holds the row's values, and every other element is unchanged. */
  lemma SyncTopicListEffect(data: Value, topic: GroupedTopic, subject: SqlValue)
    requires SyncTopic(data, topic, subject).Ok? && !data.VMap?
    ensures data.VList? && topic.name.VInt? && -|data.items| <= topic.name.i < |data.items|
    ensures var r := SyncTopic(data, topic, subject).value; var at := ListIndex(|data.items|, topic.name.i);
      && r.VList? && |r.items| == |data.items|
      && Updatable(r.items[at]) && Synced(MetaOf(r.items[at]), topic, subject)
      && forall k :: 0 <= k < |data.items| && k != at ==> r.items[k] == data.items[k]
  {
    var at := ListIndex(|data.items|, topic.name.i);
    SyncEntryDone(if ListHas(data.items, topic.name.i) then Some(data.items[at]) else None, topic, subject);
  }

  /** A list file `["x", "y"]` and the integer name `0`: `0` is not an element, so
      the skeleton replaces `"x"` and gets the row's values, and `"y"` stays. */
  lemma ListFileIntName(topic: GroupedTopic, subject: SqlValue)
    requires topic.name == VInt(0)
    ensures SyncTopic(VList([VStr("x"), VStr("y")]), topic, subject)
         == Ok(VList([VMap([(VStr("definition"), VStr(PendingDefinition)), (VStr("examples"), VList([])),
                            (VStr("link"), VStr("")), (VStr("_meta"), VMap(SyncPairs(topic, subject)))]),
                      VStr("y")]))
  {
    var items := [VStr("x"), VStr("y")];
    assert !ListHas(items, 0) by {
      assert !IntEquals(0, items[0]) && !IntEquals(0, items[1]);
    }
    SyncEntryNew(topic, subject);
    var v := SyncEntry(None, topic, subject).value;
    assert ListIndex(|items|, 0) == 0;
    assert items[0 := v] == [v, VStr("y")];
  }

  // --- one subject's file ---------------------------------------------------------

  /** The keys the topics of a group are filed under. */
  function NameKeys(topics: seq<GroupedTopic>): set<Value>
    decreases |topics|
  {
    if topics == [] then {} else {topics[0].name} + NameKeys(topics[1..])
  }

  /** An entry whose name no topic of the group has is left as it was. */
  lemma {:induction false} SyncDataFrame(data: Value, topics: seq<GroupedTopic>, subject: SqlValue, k: Value)
    requires SyncData(data, topics, subject).Ok? && data.VMap? && topics != [] && k !in NameKeys(topics)
    ensures SyncData(data, topics, subject).value.VMap?
    ensures Get(SyncData(data, topics, subject).value.entries, k) == Get(data.entries, k)
    decreases |topics|
  {
    SyncTopicEffect(data, topics[0], subject);
    if |topics| > 1 {
      SyncDataFrame(SyncTopic(data, topics[0], subject).value, topics[1..], subject, k);
    }
  }

  /** The last topic of a name decides that entry: it is updatable and holds that
      topic's values. */
  lemma SyncDataLast(data: Value, topics: seq<GroupedTopic>, subject: SqlValue, j: nat)
    requires SyncData(data, topics, subject).Ok? && data.VMap? && j < |topics|
    requires topics[j].name !in NameKeys(topics[j + 1..])
    ensures SyncData(data, topics, subject).value.VMap?
    ensures var e := Get(SyncData(data, topics, subject).value.entries, topics[j].name);
      e.Some? && Updatable(e.value) && Synced(MetaOf(e.value), topics[j], subject)
  {
    SyncDataSplit(data, topics, subject, j + 1);
    SyncDataSnoc(data, topics, subject, j);
    var d0 := SyncData(data, topics[..j], subject).value;
    var d1 := SyncData(data, topics[..j + 1], subject).value;
    SyncDataKeys(data, topics[..j], subject);
    SyncTopicEffect(d0, topics[j], subject);
    if j + 1 < |topics| {
      SyncDataFrame(d1, topics[j + 1..], subject, topics[j].name);
    } else {
      assert topics[j + 1..] == [];
    }
  }

  /** Whether `name` is an integer that indexes position `k` of a list of length
      `n`. */
  predicate Aims(n: nat, name: Value, k: nat) {
    name.VInt? && -(n as int) <= name.i < n && ListIndex(n, name.i) == k
  }

  /** On a list file, a group that does not raise leaves a list of the same
      length. */
  lemma {:induction false} SyncDataListLength(data: Value, topics: seq<GroupedTopic>, subject: SqlValue)
    requires SyncData(data, topics, subject).Ok? && data.VList?
    ensures SyncData(data, topics, subject).value.VList?
    ensures |SyncData(data, topics, subject).value.items| == |data.items|
    decreases |topics|
  {
    if topics != [] {
      SyncTopicListEffect(data, topics[0], subject);
      SyncDataListLength(SyncTopic(data, topics[0], subject).value, topics[1..], subject);
    }
  }

  /** On a list file, an element that no topic's name indexes is left as it was. */
  lemma {:induction false} SyncDataListFrame(data: Value, topics: seq<GroupedTopic>, subject: SqlValue, k: nat)
    requires SyncData(data, topics, subject).Ok? && data.VList? && k < |data.items|
    requires forall j :: 0 <= j < |topics| ==> !Aims(|data.items|, topics[j].name, k)
    ensures SyncData(data, topics, subject).value.VList?
    ensures |SyncData(data, topics, subject).value.items| == |data.items|
    ensures SyncData(data, topics, subject).value.items[k] == data.items[k]
    decreases |topics|
  {
    if topics != [] {
      SyncTopicListEffect(data, topics[0], subject);
      assert !Aims(|data.items|, topics[0].name, k);
      var d := SyncTopic(data, topics[0], subject).value;
      forall j | 0 <= j < |topics[1..]| ensures !Aims(|d.items|, topics[1..][j].name, k) {
        assert topics[1..][j] == topics[j + 1];
      }
      SyncDataListFrame(d, topics[1..], subject, k);
    }
  }

  /** On a list file, the last topic whose name indexes an element decides it: the
      element is updatable and holds that topic's values. */
  lemma SyncDataListLast(data: Value, topics: seq<GroupedTopic>, subject: SqlValue, j: nat, k: nat)
    requires SyncData(data, topics, subject).Ok? && data.VList? && j < |topics|
    requires Aims(|data.items|, topics[j].name, k)
    requires forall q :: j < q < |topics| ==> !Aims(|data.items|, topics[q].name, k)
    ensures SyncData(data, topics, subject).value.VList?
    ensures var e := SyncData(data, topics, subject).value.items;
      k < |e| && Updatable(e[k]) && Synced(MetaOf(e[k]), topics[j], subject)
  {
    SyncDataSplit(data, topics, subject, j + 1);
    SyncDataSnoc(data, topics, subject, j);
    var d0 := SyncData(data, topics[..j], subject).value;
    var d1 := SyncData(data, topics[..j + 1], subject).value;
    SyncDataListLength(data, topics[..j], subject);
    SyncTopicListEffect(d0, topics[j], subject);
    var rest := topics[j + 1..];
    forall q | 0 <= q < |rest| ensures !Aims(|d1.items|, rest[q].name, k) {
      assert rest[q] == topics[j + 1 + q];
    }
    SyncDataListFrame(d1, rest, subject, k);
  }

  /** Running a group is running its first `n` topics, then the rest. */
  lemma {:induction false} SyncDataSplit(data: Value, topics: seq<GroupedTopic>, subject: SqlValue, n: nat)
    requires n <= |topics|
    ensures SyncData(data, topics, subject)
         == match SyncData(data, topics[..n], subject)
            case Err(e) => Err(e)
            case Ok(d) => SyncData(d, topics[n..], subject)
    decreases n
  {
    if n == 0 {
      assert topics[..0] == [] && topics[0..] == topics;
    } else {
      assert topics[..n][0] == topics[0] && topics[..n][1..] == topics[1..][..n - 1];
      assert topics[1..][n - 1..] == topics[n..];
      match SyncTopic(data, topics[0], subject)
      case Err(_) =>
      case Ok(d) =>
        SyncDataSplit(d, topics[1..], subject, n - 1);
    }
  }

  /** Running the first `n + 1` topics is running the first `n`, then topic `n`. */
  lemma SyncDataSnoc(data: Value, topics: seq<GroupedTopic>, subject: SqlValue, n: nat)
    requires n < |topics|
    ensures SyncData(data, topics[..n + 1], subject)
         == match SyncData(data, topics[..n], subject)
            case Err(e) => Err(e)
            case Ok(d) => SyncTopic(d, topics[n], subject)
  {
    SyncDataSplit(data, topics[..n + 1], subject, n);
    assert topics[..n + 1][..n] == topics[..n] && topics[..n + 1][n..] == [topics[n]];
    assert [topics[n]][1..] == [];
  }

  /** The file keeps every key it had and gains the group's names. */
  lemma {:induction false} SyncDataKeys(data: Value, topics: seq<GroupedTopic>, subject: SqlValue)
    requires SyncData(data, topics, subject).Ok? && data.VMap?
    ensures SyncData(data, topics, subject).value.VMap?
    ensures KeySet(SyncData(data, topics, subject).value.entries) == KeySet(data.entries) + NameKeys(topics)
    decreases |topics|
  {
    if topics != [] {
      var d := SyncTopic(data, topics[0], subject).value;
      SyncTopicEffect(data, topics[0], subject);
      SetKeys(data.entries, topics[0].name, Get(d.entries, topics[0].name).value);
      SyncDataKeys(d, topics[1..], subject);
    }
  }

  // --- the whole directory ---------------------------------------------------------

  /** A file no group is filed under is neither written nor created. */
  lemma {:induction false} SyncAllOther(files: Files, groups: Groups, file: string)
    requires forall i :: 0 <= i < |groups| ==> PyStr(groups[i].0) != file
    ensures file in SyncAll(files, groups).0 <==> file in files
    ensures file in files ==> SyncAll(files, groups).0[file] == files[file]
    decreases |groups|
  {
    if groups != [] {
      match SyncFile(files, groups[0])
      case None =>
      case Some(next) =>
        forall i | 0 <= i < |groups[1..]| ensures PyStr(groups[1..][i].0) != file {
          assert groups[1..][i] == groups[i + 1];
        }
        SyncAllOther(next, groups[1..], file);
    }
  }

  /** No group but group `i` is filed in group `i`'s file. */
  predicate OwnFile(groups: Groups, i: nat)
    requires i < |groups|
  {
    forall j :: 0 <= j < |groups| && PyStr(groups[j].0) == PyStr(groups[i].0) ==> j == i
  }

  /** When the loop runs to the end, a group that has its file to itself leaves
      there what updating the file as loaded before the loop gives. */
  lemma {:induction false} SyncAllFile(files: Files, groups: Groups, i: nat)
    requires SyncAll(files, groups).1 && i < |groups| && OwnFile(groups, i)
    ensures PyStr(groups[i].0) in SyncAll(files, groups).0
    ensures SyncData(Loaded(files, PyStr(groups[i].0)), groups[i].1, groups[i].0)
         == Ok(SyncAll(files, groups).0[PyStr(groups[i].0)])
    decreases |groups|, 1
  {
    var f := PyStr(groups[0].0);
    var d := SyncData(Loaded(files, f), groups[0].1, groups[0].0).value;
    var next := files[f := d];
    assert SyncAll(files, groups) == SyncAll(next, groups[1..]);
    if i == 0 {
      forall j | 0 <= j < |groups[1..]| ensures PyStr(groups[1..][j].0) != f {
        assert groups[1..][j] == groups[j + 1];
      }
      SyncAllOther(next, groups[1..], f);
    } else {
      SyncAllLater(files, groups, i, next);
    }
  }

  /** The step of `SyncAllFile` for a group after the first. */
  lemma {:induction false} SyncAllLater(files: Files, groups: Groups, i: nat, next: Files)
    requires 0 < i < |groups| && OwnFile(groups, i)
    requires SyncFile(files, groups[0]) == Some(next) && SyncAll(next, groups[1..]).1
    ensures PyStr(groups[i].0) in SyncAll(next, groups[1..]).0
    ensures SyncData(Loaded(files, PyStr(groups[i].0)), groups[i].1, groups[i].0)
         == Ok(SyncAll(next, groups[1..]).0[PyStr(groups[i].0)])
    decreases |groups|, 0
  {
    var f := PyStr(groups[0].0);
    assert groups[1..][i - 1] == groups[i];
    forall j | 0 <= j < |groups[1..]| && PyStr(groups[1..][j].0) == PyStr(groups[1..][i - 1].0)
      ensures j == i - 1
    {
      assert groups[1..][j] == groups[j + 1];
    }
    assert PyStr(groups[0].0) != PyStr(groups[i].0);
    SyncFileWrites(files, groups[0], next);
    LoadedOther(files, f, next[f], PyStr(groups[i].0));
    SyncAllFile(next, groups[1..], i - 1);
  }

  /** A subject that does not raise writes its own file and no other. */
  lemma SyncFileWrites(files: Files, group: (SqlValue, seq<GroupedTopic>), next: Files)
    requires SyncFile(files, group) == Some(next)
    ensures PyStr(group.0) in next && next == files[PyStr(group.0) := next[PyStr(group.0)]]
  {
  }

  /** When the loop raises, the groups before the one that raised were written, and
      the rest were not. */
  lemma {:induction false} SyncAllStopped(files: Files, groups: Groups) returns (n: nat)
    requires !SyncAll(files, groups).1
    ensures n < |groups| && SyncAll(files, groups[..n]).1
    ensures SyncFile(SyncAll(files, groups[..n]).0, groups[n]) == None
    ensures SyncAll(files, groups).0 == SyncAll(files, groups[..n]).0
    decreases |groups|
  {
    match SyncFile(files, groups[0])
    case None =>
      n := 0;
    case Some(next) =>
      var m := SyncAllStopped(next, groups[1..]);
      n := m + 1;
      TakeTail(groups, m);
  }

  lemma TakeTail<T>(s: seq<T>, m: nat)
    requires m < |s| - 1
    ensures s[..m + 1][1..] == s[1..][..m] && s[m + 1] == s[1..][m]
  {
  }

  // --- from the rows ---------------------------------------------------------------

  /** A subject's rows split at any row. */
  lemma {:induction false} RowsOfSplit(rows: seq<TopicRow>, s: SqlValue, n: nat)
    requires n <= |rows|
    ensures RowsOf(rows, s) == RowsOf(rows[..n], s) + RowsOf(rows[n..], s)
    decreases |rows|
  {
    if n == |rows| {
      assert rows[..n] == rows && rows[n..] == [];
    } else {
      var prefix := rows[..|rows| - 1];
      RowsOfSplit(prefix, s, n);
      assert prefix[..n] == rows[..n];
      assert rows[n..][..|rows[n..]| - 1] == prefix[n..];
      assert rows[n..][|rows[n..]| - 1] == rows[|rows| - 1];
    }
  }

  /** A subject with topics has a row. */
  lemma {:induction false} RowsOfWitness(rows: seq<TopicRow>, s: SqlValue) returns (r: nat)
    requires RowsOf(rows, s) != []
    ensures r < |rows| && rows[r].subject == s
    decreases |rows|
  {
    if rows[|rows| - 1].subject == s {
      r := |rows| - 1;
    } else {
      r := RowsOfWitness(rows[..|rows| - 1], s);
    }
  }

  lemma {:induction false} NameKeysAppend(a: seq<GroupedTopic>, b: seq<GroupedTopic>)
    ensures NameKeys(a + b) == NameKeys(a) + NameKeys(b)
    decreases |a|
  {
    if a != [] {
      assert (a + b)[1..] == a[1..] + b;
      NameKeysAppend(a[1..], b);
    } else {
      assert a + b == b;
    }
  }

  /** The names of a subject's rows are among the rows' names of that subject. */
  lemma {:induction false} RowsOfNames(rows: seq<TopicRow>, s: SqlValue, k: Value)
    requires forall r :: 0 <= r < |rows| && rows[r].subject == s ==> PyOf(rows[r].name) != k
    ensures k !in NameKeys(RowsOf(rows, s))
    decreases |rows|
  {
    if rows != [] {
      var last := rows[|rows| - 1];
      RowsOfNames(rows[..|rows| - 1], s, k);
      NameKeysAppend(RowsOf(rows[..|rows| - 1], s), if last.subject == s then [Grouped(last)] else []);
    }
  }

  /** Subject `s` has its file to itself: no row of another subject is filed
      there. A `NULL` subject shares `None_hints.yaml` with the text `None`, and
      an integer shares its file with its digits. */
  predicate FileOwned(rows: seq<TopicRow>, s: SqlValue) {
    forall r :: 0 <= r < |rows| && PyStr(rows[r].subject) == PyStr(s) ==> rows[r].subject == s
  }

  /** Two groups of well-formed groups are for different subjects. */
  lemma {:induction false} GroupsDistinct(groups: Groups, i: nat, j: nat)
    requires WellGrouped(groups) && i < j < |groups|
    ensures groups[i].0 != groups[j].0
    decreases |groups|
  {
    assert groups[1..][j - 1] == groups[j];
    if i == 0 {
      SubjectAt(groups[1..], j - 1);
    } else {
      GroupsDistinct(groups[1..], i - 1, j - 1);
    }
  }

  /** The group of a subject that has its file to itself is the only group filed
      there. */
  lemma OwnedGroup(rows: seq<TopicRow>, s: SqlValue, i: nat)
    requires FileOwned(rows, s) && i < |GroupRows(rows)| && GroupRows(rows)[i].0 == s
    ensures OwnFile(GroupRows(rows), i)
  {
    var groups := GroupRows(rows);
    GroupRowsSpec(rows, s);
    forall j | 0 <= j < |groups| && PyStr(groups[j].0) == PyStr(groups[i].0) ensures j == i {
      SubjectAt(groups, j);
      GroupRowsSpec(rows, groups[j].0);
      var r := RowsOfWitness(rows, groups[j].0);
      if j < i {
        GroupsDistinct(groups, j, i);
      } else if i < j {
        GroupsDistinct(groups, i, j);
      }
    }
  }

  /** A subject with rows, alone in its file, gets the file written with those
      rows applied, in row order, to the file as loaded before the loop. */
  lemma SyncSubjectFile(files: Files, rows: seq<TopicRow>, s: SqlValue)
    requires SyncAll(files, GroupRows(rows)).1 && RowsOf(rows, s) != [] && FileOwned(rows, s)
    ensures PyStr(s) in SyncAll(files, GroupRows(rows)).0
    ensures SyncData(Loaded(files, PyStr(s)), RowsOf(rows, s), s) == Ok(SyncAll(files, GroupRows(rows)).0[PyStr(s)])
  {
    var groups := GroupRows(rows);
    GroupRowsSpec(rows, s);
    var i := SubjectIndex(groups, s);
    GroupOfAt(groups, i);
    OwnedGroup(rows, s, i);
    SyncAllFile(files, groups, i);
  }

  lemma {:induction false} SubjectIndex(groups: Groups, s: SqlValue) returns (i: nat)
    requires s in SubjectsOf(groups)
    ensures i < |groups| && groups[i].0 == s
    decreases |groups|
  {
    if groups[0].0 == s {
      i := 0;
    } else {
      var j := SubjectIndex(groups[1..], s);
      i := j + 1;
    }
  }

  /** A file no row's subject is filed in is neither written nor created. */
  lemma SyncNoRows(files: Files, rows: seq<TopicRow>, file: string)
    requires forall r :: 0 <= r < |rows| ==> PyStr(rows[r].subject) != file
    ensures file in SyncAll(files, GroupRows(rows)).0 <==> file in files
    ensures file in files ==> SyncAll(files, GroupRows(rows)).0[file] == files[file]
  {
    var groups := GroupRows(rows);
    forall i | 0 <= i < |groups| ensures PyStr(groups[i].0) != file {
      SubjectAt(groups, i);
      GroupRowsSpec(rows, groups[i].0);
      var r := RowsOfWitness(rows, groups[i].0);
    }
    SyncAllOther(files, groups, file);
  }

  /** After a run to the end, the entry of every row that no later row of its
      subject renames, in a file its subject has to itself, is updatable and
      holds that row's values. */
  lemma SyncedRow(files: Files, rows: seq<TopicRow>, r: nat)
    requires SyncAll(files, GroupRows(rows)).1 && r < |rows| && FileOwned(rows, rows[r].subject)
    requires Loaded(files, PyStr(rows[r].subject)).VMap?
    requires forall q :: r < q < |rows| && rows[q].subject == rows[r].subject ==> rows[q].name != rows[r].name
    ensures var f := SyncAll(files, GroupRows(rows)).0; var file := PyStr(rows[r].subject);
      file in f && f[file].VMap? &&
      var e := Get(f[file].entries, PyOf(rows[r].name));
      e.Some? && Updatable(e.value) && Synced(MetaOf(e.value), Grouped(rows[r]), rows[r].subject)
  {
    var s := rows[r].subject;
    var before, after := RowsOf(rows[..r + 1], s), RowsOf(rows[r + 1..], s);
    RowsOfSplit(rows, s, r + 1);
    assert rows[..r + 1][..r] == rows[..r];
    var j := |RowsOf(rows[..r], s)|;
    assert before == RowsOf(rows[..r], s) + [Grouped(rows[r])];
    var topics := before + after;
    assert topics[j] == Grouped(rows[r]) && topics[j + 1..] == after;
    RowsOfNames(rows[r + 1..], s, PyOf(rows[r].name));
    SyncSubjectFile(files, rows, s);
    SyncDataLast(Loaded(files, PyStr(s)), topics, s, j);
  }

  /** A row with a `NULL` subject is filed in `None_hints.yaml`, with `None` as
      the subject in its `_meta`, when no row has the subject text `None` and no
      later row has its name. */
  lemma SyncedNullSubject(files: Files, rows: seq<TopicRow>, r: nat)
    requires SyncAll(files, GroupRows(rows)).1 && r < |rows| && rows[r].subject == SNull
    requires Loaded(files, "None").VMap?
    requires forall q :: 0 <= q < |rows| ==> rows[q].subject != SText("None")
    requires forall q :: r < q < |rows| && rows[q].subject == SNull ==> rows[q].name != rows[r].name
    ensures var f := SyncAll(files, GroupRows(rows)).0;
      "None" in f && f["None"].VMap? &&
      var e := Get(f["None"].entries, PyOf(rows[r].name));
      e.Some? && Updatable(e.value) && Get(MetaOf(e.value), VStr("subject")) == Some(VNull)
  {
    forall q | 0 <= q < |rows| && PyStr(rows[q].subject) == "None" ensures rows[q].subject == SNull {
      if rows[q].subject.SInt? {
        IntStringNotNone(rows[q].subject.i);
      }
    }
    assert FileOwned(rows, SNull);
    SyncedRow(files, rows, r);
  }

  /** No integer prints as `None`. */
  lemma IntStringNotNone(i: int)
    ensures IntToString(i) != "None"
  {
    var digits := NatToString(if i < 0 then -i else i);
    if i >= 0 {
      assert IsDigit(digits[0]) && !IsDigit('N');
    } else {
      assert IntToString(i)[1] == digits[0] && IsDigit(digits[0]) && !IsDigit('o');
    }
  }

  /** After a run to the end, the file of a subject that has it to itself keeps
      every entry it had and gains one per row name; an entry no row names is as
      it was loaded. */
  lemma SyncUntouched(files: Files, rows: seq<TopicRow>, s: SqlValue, k: Value)
    requires SyncAll(files, GroupRows(rows)).1 && RowsOf(rows, s) != [] && FileOwned(rows, s)
    requires Loaded(files, PyStr(s)).VMap?
    requires forall r :: 0 <= r < |rows| && rows[r].subject == s ==> PyOf(rows[r].name) != k
    ensures var f := SyncAll(files, GroupRows(rows)).0; var file := PyStr(s);
      file in f && f[file].VMap? &&
      KeySet(f[file].entries) == KeySet(Loaded(files, file).entries) + NameKeys(RowsOf(rows, s)) &&
      Get(f[file].entries, k) == Get(Loaded(files, file).entries, k)
  {
    SyncSubjectFile(files, rows, s);
    RowsOfNames(rows, s, k);
    SyncDataFrame(Loaded(files, PyStr(s)), RowsOf(rows, s), s, k);
    SyncDataKeys(Loaded(files, PyStr(s)), RowsOf(rows, s), s);
  }
}
