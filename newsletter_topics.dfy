/** The second `update_topics`, in `utils/parser_newsletter.py`: the flat variant
    that writes `active` and `last_seen_date` straight into a topic's entry of
    `{subject}_hints.yaml` rather than into its `_meta`. */
module NewsletterTopics {
  import opened Values
  import opened HintFiles
  import opened ParserNewsletter
  import TopicManager

  type Files = map<string, Value>

  /** The entry written for a name its file does not have yet. */
  function FlatEntry(subject: string, date: string): Value {
    VMap([(VStr("definition"), VStr(TopicManager.PendingDefinition)), (VStr("examples"), VList([])),
          (VStr("subject"), VStr(subject)), (VStr("active"), VBool(true)), (VStr("grade_level"), VInt(5)),
          (VStr("last_seen_date"), VStr(date)), (VStr("link"), VStr(""))])
  }

  /** A name's entry after one record, given its entry before (`None`: not in the
      file). Only a dict supports `entry["active"] = ...`. */
  function FlatTouch(entry: Option<Value>, subject: string, date: string): Result<Value, PyError> {
    match entry
    case None => Ok(FlatEntry(subject, date))
    case Some(e) =>
      if !e.VMap? then Err(TypeError)
      else Ok(VMap(Set(Set(e.entries, VStr("active"), VBool(true)), VStr("last_seen_date"), VStr(date))))
  }

  /** One record applied to a loaded file. A loaded file that is not a dict (a
      list, a string, a number) fails `in` or the item assignment. */
  function FlatUpdateData(data: Value, name: string, subject: string, date: string): Result<Value, PyError> {
    if !data.VMap? then Err(TypeError)
    else
      match FlatTouch(Get(data.entries, VStr(name)), subject, date)
      case Err(e) => Err(e)
      case Ok(v) => Ok(VMap(Set(data.entries, VStr(name), v)))
  }

  /** One iteration: load the record's file, update it, write it back. `None` when
      the iteration raises. */
  function FlatStep(files: Files, t: Record): Option<Files> {
    match FlatUpdateData(Loaded(files, t.subject), TopicKey(t.topic), t.subject, t.date)
    case Err(_) => None
    case Ok(d) => Some(files[t.subject := d])
  }

  /** The loop over the records: the files afterwards, and whether it ran to the
      end. The files written before an exception stay written. */
  function FlatAll(files: Files, ts: seq<Record>): (Files, bool)
    decreases |ts|
  {
    if ts == [] then (files, true)
    else
      match FlatStep(files, ts[0])
      case None => (files, false)
      case Some(next) => FlatAll(next, ts[1..])
  }

  /** `update_topics(parsed_topics)` on the hints directory; `ok` is false when it
      raised part-way. */
  method FlatUpdateTopics(dir: HintsDirectory, parsedTopics: seq<Record>) returns (ok: bool)
    modifies dir
    ensures (dir.files, ok) == FlatAll(old(dir.files), parsedTopics)
  {
    for i := 0 to |parsedTopics|
      invariant FlatAll(old(dir.files), parsedTopics) == FlatAll(dir.files, parsedTopics[i..])
    {
      var topic := parsedTopics[i];
      var data := Loaded(dir.files, topic.subject);
      var updated := FlatUpdateData(data, TopicKey(topic.topic), topic.subject, topic.date);
      assert parsedTopics[i..][1..] == parsedTopics[i + 1..];
      if updated.Err? {
        return false;
      }
      dir.files := dir.files[topic.subject := updated.value];
    }
    return true;
  }

  // --- one entry ---------------------------------------------------------------

  /** An entry holding the record's date, marked active. */
  predicate Seen(e: Value, date: string) {
    e.VMap? && Get(e.entries, VStr("active")) == Some(VBool(true)) &&
    Get(e.entries, VStr("last_seen_date")) == Some(VStr(date))
  }

  /** An existing entry raises exactly when it is not a dict. Otherwise it is
      marked active with the record's date, keeps every other key and value, and
      gains no key but those two. */
  lemma FlatTouchExisting(e: Value, subject: string, date: string)
    ensures FlatTouch(Some(e), subject, date).Ok? <==> e.VMap?
    ensures FlatTouch(Some(e), subject, date).Err? ==> FlatTouch(Some(e), subject, date).error == TypeError
    ensures e.VMap? ==> var v := FlatTouch(Some(e), subject, date).value;
      Seen(v, date) &&
      KeySet(v.entries) == KeySet(e.entries) + {VStr("active"), VStr("last_seen_date")} &&
      forall k :: k != VStr("active") && k != VStr("last_seen_date") ==> Get(v.entries, k) == Get(e.entries, k)
  {
    if e.VMap? {
      var e1 := Set(e.entries, VStr("active"), VBool(true));
      SetKeys(e.entries, VStr("active"), VBool(true));
      SetKeys(e1, VStr("last_seen_date"), VStr(date));
    }
  }

  /** A new name gets the default record, marked active with the record's date. */
  lemma FlatTouchNew(subject: string, date: string)
    ensures FlatTouch(None, subject, date) == Ok(FlatEntry(subject, date))
    ensures Seen(FlatEntry(subject, date), date)
  {
    var m := FlatEntry(subject, date).entries;
    FieldAt(m, 3);
    FieldAt(m, 5);
  }

  /** The default record's subject is the record's, at grade 5. */
  lemma FlatEntryGrade(subject: string, date: string)
    ensures var m := FlatEntry(subject, date).entries;
      Get(m, VStr("subject")) == Some(VStr(subject)) && Get(m, VStr("grade_level")) == Some(VInt(5))
  {
    var m := FlatEntry(subject, date).entries;
    FieldAt(m, 2);
    FieldAt(m, 4);
  }

  /** The default record has a pending definition and no examples or link. */
  lemma FlatEntryContent(subject: string, date: string)
    ensures var m := FlatEntry(subject, date).entries;
      Get(m, VStr("definition")) == Some(VStr(TopicManager.PendingDefinition)) &&
      Get(m, VStr("examples")) == Some(VList([])) && Get(m, VStr("link")) == Some(VStr(""))
  {
    var m := FlatEntry(subject, date).entries;
    FieldAt(m, 0);
    FieldAt(m, 1);
    FieldAt(m, 6);
  }

  /** Whatever the entry was, a step that does not raise leaves it seen. */
  lemma FlatTouchSeen(entry: Option<Value>, subject: string, date: string)
    requires FlatTouch(entry, subject, date).Ok?
    ensures Seen(FlatTouch(entry, subject, date).value, date)
  {
    match entry
    case None => FlatTouchNew(subject, date);
    case Some(e) => FlatTouchExisting(e, subject, date);
  }

  /** A later record for an entry only its own record created just moves the
      date: the subject stays the first record's. */
  lemma FlatTouchFresh(subject: string, first: string, later: string, date: string)
    ensures FlatTouch(Some(FlatEntry(subject, first)), later, date) == Ok(FlatEntry(subject, date))
  {
    var m := FlatEntry(subject, first).entries;
    IndexOfFirst(m, VStr("active"), 3);
    SetAt(m, VStr("active"), VBool(true));
    var m1 := Set(m, VStr("active"), VBool(true));
    assert m1 == m;
    IndexOfFirst(m, VStr("last_seen_date"), 5);
    SetAt(m, VStr("last_seen_date"), VStr(date));
    assert m[5 := (VStr("last_seen_date"), VStr(date))] == FlatEntry(subject, date).entries;
  }

  // --- one record --------------------------------------------------------------

  /** The entry a record's key names after a step holds that record's date. */
  lemma FlatStepSeen(x: Files, t: Record)
    requires FlatStep(x, t).Some?
    ensures var e := TopicManager.EntryOf(FlatStep(x, t).value, TopicManager.Key(t)); e.Some? && Seen(e.value, t.date)
  {
    var data := Loaded(x, t.subject);
    var entry := Get(data.entries, VStr(TopicKey(t.topic)));
    var v := FlatTouch(entry, t.subject, t.date).value;
    FlatTouchSeen(entry, t.subject, t.date);
    FlatStepAt(x, t, data, v);
  }

  /** The files after a step that writes `v` as the record's entry of `data`. */
  lemma FlatStepAt(x: Files, t: Record, data: Value, v: Value)
    requires data == Loaded(x, t.subject) && data.VMap?
    requires FlatTouch(Get(data.entries, VStr(TopicKey(t.topic))), t.subject, t.date) == Ok(v)
    ensures TopicManager.EntryOf(FlatStep(x, t).value, TopicManager.Key(t)) == Some(v)
  {
    assert FlatStep(x, t) == Some(x[t.subject := VMap(Set(data.entries, VStr(TopicKey(t.topic)), v))]);
  }

  /** A step changes no entry but its record's, whether or not the entry or its
      file existed. */
  lemma FlatStepFrame(x: Files, t: Record, key: (string, string))
    requires FlatStep(x, t).Some? && key != TopicManager.Key(t)
    ensures TopicManager.EntryOf(FlatStep(x, t).value, key) == TopicManager.EntryOf(x, key)
  {
    if key.0 == t.subject {
      var data := Loaded(x, t.subject);
      if !(t.subject in x && Truthy(x[t.subject])) {
        assert data == VMap([]);
        assert TopicManager.EntryOf(x, key).None? by {
          if t.subject in x && x[t.subject].VMap? {
            assert x[t.subject].entries == [];
          }
        }
      }
    }
  }

  /** A step raises exactly when the record's file loads as something other than
      a dict, or its entry is not a dict. */
  lemma FlatStepRaises(x: Files, t: Record)
    ensures FlatStep(x, t).None? <==>
      var data := Loaded(x, t.subject);
      !data.VMap? || (Get(data.entries, VStr(TopicKey(t.topic))).Some? && !Get(data.entries, VStr(TopicKey(t.topic))).value.VMap?)
  {
  }

  // --- the records ---------------------------------------------------------------

  /** Once the loop has raised on a prefix, the rest of the records are not
      applied; otherwise it goes on from where the prefix left the files. */
  lemma {:induction false} FlatAllSplit(files: Files, ts: seq<Record>, n: nat)
    requires n <= |ts|
    ensures FlatAll(files, ts)
         == if FlatAll(files, ts[..n]).1 then FlatAll(FlatAll(files, ts[..n]).0, ts[n..]) else FlatAll(files, ts[..n])
    decreases n
  {
    if n == 0 {
      assert ts[..0] == [] && ts[0..] == ts;
    } else {
      assert ts[..n][0] == ts[0] && ts[..n][1..] == ts[1..][..n - 1];
      assert ts[1..][n - 1..] == ts[n..];
      match FlatStep(files, ts[0])
      case None =>
      case Some(next) =>
        FlatAllSplit(next, ts[1..], n - 1);
    }
  }

  /** Running the first `n + 1` records is running the first `n`, then record
      `n`. */
  lemma FlatAllSnoc(files: Files, ts: seq<Record>, n: nat)
    requires n < |ts|
    ensures var prev := FlatAll(files, ts[..n]);
      FlatAll(files, ts[..n + 1])
      == if !prev.1 then prev
         else match FlatStep(prev.0, ts[n]) case None => (prev.0, false) case Some(next) => (next, true)
  {
    FlatAllSplit(files, ts[..n + 1], n);
    assert ts[..n + 1][..n] == ts[..n] && ts[..n + 1][n..] == [ts[n]];
    assert [ts[n]][1..] == [];
  }

  /** An entry no record names keeps its value, even when the loop raises. */
  lemma {:induction false} FlatAllFrame(files: Files, ts: seq<Record>, key: (string, string))
    requires forall i :: 0 <= i < |ts| ==> TopicManager.Key(ts[i]) != key
    ensures TopicManager.EntryOf(FlatAll(files, ts).0, key) == TopicManager.EntryOf(files, key)
    decreases |ts|
  {
    if ts != [] {
      match FlatStep(files, ts[0])
      case None =>
      case Some(next) =>
        FlatStepFrame(files, ts[0], key);
        FlatAllFrame(next, ts[1..], key);
    }
  }

  /** After a run to the end, the entry of every record that no later record
      names again is active and holds that record's date. */
  lemma FlatLastRecordWins(files: Files, ts: seq<Record>, j: nat)
    requires FlatAll(files, ts).1 && j < |ts|
    requires forall i :: j < i < |ts| ==> TopicManager.Key(ts[i]) != TopicManager.Key(ts[j])
    ensures var e := TopicManager.EntryOf(FlatAll(files, ts).0, TopicManager.Key(ts[j])); e.Some? && Seen(e.value, ts[j].date)
  {
    FlatAllSplit(files, ts, j + 1);
    FlatAllSnoc(files, ts, j);
    FlatAllSplit(files, ts, j);
    var before := FlatAll(files, ts[..j]).0;
    var after := FlatAll(files, ts[..j + 1]).0;
    FlatStepSeen(before, ts[j]);
    FlatAllFrame(after, ts[j + 1..], TopicManager.Key(ts[j]));
  }
}
