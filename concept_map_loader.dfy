/** Looking a topic up in a subject's concept map: `load_concept_map` picks the
    database or the `{subject}_concept_map.yaml` file, `get_question_focus` finds the
    question-focus prompt of a topic and `detect_category_for_topic` the category the
    topic is filed under. Both walk the loaded YAML tree in key order (a dict is a
    sequence of pairs); in database mode both ask `get_concept`, whose outcome is a
    parameter here. Every exception inside either function is caught, so each
    returns a plain value. */
module ConceptMapLoader {
  import opened Values
  import opened Text
  import ConceptMapDb

  /** `{"db_mode": True}`: what the loader returns when the database file exists. */
  const DbModeMarker: Value := VMap([(VStr("db_mode"), VBool(true))])

  /** What `load_concept_map(subject)` produces: the database marker when the
      database file exists, otherwise the parsed YAML file; `None` stands for the
      `FileNotFoundError` raised when that file is missing too. */
  function LoadConceptMap(dbExists: bool, yamlFile: Option<Value>): (r: Option<Value>)
    ensures r.None? <==> !dbExists && yamlFile.None?
    ensures dbExists ==> r == Some(DbModeMarker)
    ensures !dbExists && yamlFile.Some? ==> r == yamlFile
  {
    if dbExists then Some(DbModeMarker) else yamlFile
  }

  /** The number of entries of a dict node (the termination measure of the walks). */
  function Width(node: Value): nat {
    if node.VMap? then |node.entries| else 0
  }

  /** `isinstance(value, dict) and "question_focus" in value`. */
  predicate HasFocus(v: Value) {
    v.VMap? && HasKey(v.entries, VStr("question_focus"))
  }

  /** `value["question_focus"]`. */
  function Focus(v: Value): Value
    requires HasFocus(v)
  {
    Get(v.entries, VStr("question_focus")).value
  }

  /** The fuzzy test both walks share: either lower-cased string is a substring of
      the other. */
  predicate Fuzzy(key: string, topic: string) {
    Contains(Lower(key), Lower(topic)) || Contains(Lower(topic), Lower(key))
  }

  /** A key equal to the topic up to case also matches fuzzily. */
  lemma ExactIsFuzzy(key: string, topic: string)
    requires Lower(key) == Lower(topic)
    ensures Fuzzy(key, topic)
  {
    ContainsSelf(Lower(key));
  }

  // ---------------------------------------------------------------------------
  // _find_question_focus

  /** `_find_question_focus(node, topic)`: `VNull` is `None`; `Err` is the
      `AttributeError` of `.lower()` on a non-string key. */
  function FindFocus(node: Value, topic: string): Result<Value, PyError>
    decreases node, Width(node) + 1
  {
    if node.VMap? then ScanFocus(node, 0, topic) else Ok(VNull)
  }

  /** The loop of `_find_question_focus` from entry `i` on. */
  function ScanFocus(node: Value, i: nat, topic: string): Result<Value, PyError>
    requires node.VMap? && i <= |node.entries|
    decreases node, Width(node) - i
  {
    if i == |node.entries| then Ok(VNull)
    else
      var key := node.entries[i].0;
      var value := node.entries[i].1;
      if key == VStr(topic) && HasFocus(value) then Ok(Focus(value))
      else if !key.VStr? then Err(AttributeError)
      else if Fuzzy(key.s, topic) then
        if HasFocus(value) then Ok(Focus(value)) else ScanFocus(node, i + 1, topic)
      else
        match FindFocus(value, topic)
        case Err(e) => Err(e)
        case Ok(found) => if found != VNull then Ok(found) else ScanFocus(node, i + 1, topic)
  }

  /** The same walk without the exact-key branch: a reference definition. */
  function FindFocusFuzzy(node: Value, topic: string): Result<Value, PyError>
    decreases node, Width(node) + 1
  {
    if node.VMap? then ScanFocusFuzzy(node, 0, topic) else Ok(VNull)
  }

  function ScanFocusFuzzy(node: Value, i: nat, topic: string): Result<Value, PyError>
    requires node.VMap? && i <= |node.entries|
    decreases node, Width(node) - i
  {
    if i == |node.entries| then Ok(VNull)
    else
      var key := node.entries[i].0;
      var value := node.entries[i].1;
      if !key.VStr? then Err(AttributeError)
      else if Fuzzy(key.s, topic) then
        if HasFocus(value) then Ok(Focus(value)) else ScanFocusFuzzy(node, i + 1, topic)
      else
        match FindFocusFuzzy(value, topic)
        case Err(e) => Err(e)
        case Ok(found) => if found != VNull then Ok(found) else ScanFocusFuzzy(node, i + 1, topic)
  }

  /** The exact-key branch is redundant: dropping it changes no result. */
  lemma {:induction false} FindFocusFuzzyOnly(node: Value, topic: string)
    ensures FindFocus(node, topic) == FindFocusFuzzy(node, topic)
    decreases node, Width(node) + 1
  {
    if node.VMap? {
      ScanFocusFuzzyOnly(node, 0, topic);
    }
  }

  lemma {:induction false} ScanFocusFuzzyOnly(node: Value, i: nat, topic: string)
    requires node.VMap? && i <= |node.entries|
    ensures ScanFocus(node, i, topic) == ScanFocusFuzzy(node, i, topic)
    decreases node, Width(node) - i
  {
    if i < |node.entries| {
      var key := node.entries[i].0;
      var value := node.entries[i].1;
      if key == VStr(topic) {
        ExactIsFuzzy(topic, topic);
      }
      if key.VStr? && !Fuzzy(key.s, topic) {
        FindFocusFuzzyOnly(value, topic);
      }
      ScanFocusFuzzyOnly(node, i + 1, topic);
    }
  }

  /** Where a found question focus comes from: a string key of the tree that matches
      the topic fuzzily (an exact match included) and whose dict value holds
      `question_focus`, reached through keys that do not match. */
  ghost predicate FocusFrom(node: Value, topic: string, v: Value)
    decreases node
  {
    node.VMap? &&
    exists i :: 0 <= i < |node.entries| && node.entries[i].0.VStr? &&
      if Fuzzy(node.entries[i].0.s, topic) then
        HasFocus(node.entries[i].1) && Focus(node.entries[i].1) == v
      else
        FocusFrom(node.entries[i].1, topic, v)
  }

  /** Every question focus the walk returns comes from a matching key. */
  lemma {:induction false} FindFocusSource(node: Value, topic: string)
    requires FindFocus(node, topic).Ok? && FindFocus(node, topic).value != VNull
    ensures FocusFrom(node, topic, FindFocus(node, topic).value)
    decreases node, Width(node) + 1
  {
    ScanFocusSource(node, 0, topic);
  }

  lemma {:induction false} ScanFocusSource(node: Value, i: nat, topic: string)
    requires node.VMap? && i <= |node.entries|
    requires ScanFocus(node, i, topic).Ok? && ScanFocus(node, i, topic).value != VNull
    ensures FocusFrom(node, topic, ScanFocus(node, i, topic).value)
    decreases node, Width(node) - i
  {
    var v := ScanFocus(node, i, topic).value;
    var key := node.entries[i].0;
    var value := node.entries[i].1;
    if key == VStr(topic) && HasFocus(value) {
      ExactIsFuzzy(topic, topic);
      assert node.entries[i].0.VStr? && Fuzzy(key.s, topic);
    } else if Fuzzy(key.s, topic) {
      if !HasFocus(value) {
        ScanFocusSource(node, i + 1, topic);
      }
    } else {
      var found := FindFocus(value, topic).value;
      if found != VNull {
        FindFocusSource(value, topic);
      } else {
        ScanFocusSource(node, i + 1, topic);
      }
    }
  }

  /** A tree with only string keys, none of which both matches the topic and holds a
      question focus (keys that match are not descended into). */
  ghost predicate NoFocus(node: Value, topic: string)
    decreases node
  {
    node.VMap? ==>
      forall i :: 0 <= i < |node.entries| ==>
        node.entries[i].0.VStr? &&
        if Fuzzy(node.entries[i].0.s, topic) then !HasFocus(node.entries[i].1)
        else NoFocus(node.entries[i].1, topic)
  }

  /** Such a tree gives `None`; so does every non-dict node. */
  lemma {:induction false} FindFocusNone(node: Value, topic: string)
    requires NoFocus(node, topic)
    ensures FindFocus(node, topic) == Ok(VNull)
    decreases node, Width(node) + 1
  {
    if node.VMap? {
      ScanFocusNone(node, 0, topic);
    }
  }

  lemma {:induction false} ScanFocusNone(node: Value, i: nat, topic: string)
    requires node.VMap? && i <= |node.entries| && NoFocus(node, topic)
    ensures ScanFocus(node, i, topic) == Ok(VNull)
    decreases node, Width(node) - i
  {
    if i < |node.entries| {
      var key := node.entries[i].0;
      if key == VStr(topic) {
        ExactIsFuzzy(topic, topic);
      }
      if !Fuzzy(key.s, topic) {
        FindFocusNone(node.entries[i].1, topic);
      }
      ScanFocusNone(node, i + 1, topic);
    }
  }

  /** A key that matches fuzzily is never descended into: when its value holds no
      question focus, replacing that value by any other such value changes nothing. */
  lemma FuzzyNotDescended(node: Value, i: nat, w: Value, topic: string)
    requires node.VMap? && i < |node.entries|
    requires node.entries[i].0.VStr? && Fuzzy(node.entries[i].0.s, topic)
    requires !HasFocus(node.entries[i].1) && !HasFocus(w)
    ensures FindFocus(VMap(node.entries[i := (node.entries[i].0, w)]), topic) == FindFocus(node, topic)
  {
    var other := VMap(node.entries[i := (node.entries[i].0, w)]);
    ScanFocusReplaced(node, other, i, |node.entries|, topic);
    ScanFocusReplaced(node, other, i, 0, topic);
  }

  lemma {:induction false} ScanFocusReplaced(node: Value, other: Value, i: nat, j: nat, topic: string)
    requires node.VMap? && other.VMap? && |other.entries| == |node.entries|
    requires i < |node.entries| && j <= |node.entries|
    requires forall k :: 0 <= k < |node.entries| && k != i ==> other.entries[k] == node.entries[k]
    requires other.entries[i].0 == node.entries[i].0
    requires node.entries[i].0.VStr? && Fuzzy(node.entries[i].0.s, topic)
    requires !HasFocus(node.entries[i].1) && !HasFocus(other.entries[i].1)
    ensures ScanFocus(other, j, topic) == ScanFocus(node, j, topic)
    decreases |node.entries| - j
  {
    if j < |node.entries| {
      ScanFocusReplaced(node, other, i, j + 1, topic);
    }
  }

  /** Depth-first, first hit wins: once a dict yields a result, keys added after
      its entries are never consulted. */
  lemma FocusFirstHit(a: seq<(Value, Value)>, b: seq<(Value, Value)>, topic: string)
    requires FindFocus(VMap(a), topic) != Ok(VNull)
    ensures FindFocus(VMap(a + b), topic) == FindFocus(VMap(a), topic)
  {
    ScanFocusPrefix(a, b, 0, topic);
  }

  lemma {:induction false} ScanFocusPrefix(a: seq<(Value, Value)>, b: seq<(Value, Value)>, j: nat, topic: string)
    requires j <= |a|
    requires ScanFocus(VMap(a), j, topic) != Ok(VNull)
    ensures ScanFocus(VMap(a + b), j, topic) == ScanFocus(VMap(a), j, topic)
    decreases |a| - j
  {
    assert (a + b)[j] == a[j];
    var key := a[j].0;
    var value := a[j].1;
    if ScanFocus(VMap(a), j + 1, topic) != Ok(VNull) {
      ScanFocusPrefix(a, b, j + 1, topic);
    }
  }

  // ---------------------------------------------------------------------------
  // _find_category

  /** `f"{path}/{key}" if path else key`. */
  function PathOf(path: string, key: string): (r: string)
    ensures path == "" ==> r == key
    ensures path != "" ==> |r| == |path| + 1 + |key| && r[|path|] == '/'
  {
    if path == "" then key else path + "/" + key
  }

  /** `parts[-2] if len(parts) >= 2 else parts[0]` for `parts = path.split('/')`. */
  function CategoryOf(path: string): string {
    var parts := Split(path, "/");
    if |parts| >= 2 then parts[|parts| - 2] else parts[0]
  }

  /** Keys that spell a path faithfully: non-empty and free of `/`. */
  ghost predicate PlainKeys(keys: seq<string>) {
    forall k :: 0 <= k < |keys| ==> keys[k] != "" && '/' !in keys[k]
  }

  /** The path built while descending through `keys` is the keys joined by `/`. */
  lemma {:induction false} PathOfJoin(keys: seq<string>, key: string)
    requires |keys| >= 1 && PlainKeys(keys)
    ensures PathOf(Join("/", keys), key) == Join("/", keys + [key])
  {
    JoinSnoc("/", keys, key);
    JoinNonEmpty(keys);
  }

  lemma {:induction false} JoinNonEmpty(keys: seq<string>)
    requires |keys| >= 1 && keys[0] != ""
    ensures Join("/", keys) != ""
  {
    if |keys| > 1 {
      assert |Join("/", keys)| >= |keys[0]|;
    }
  }

  /** With plain keys, the category is the key above the match, or the matching key
      itself at the top level. */
  lemma CategoryOfPath(keys: seq<string>)
    requires |keys| >= 1 && PlainKeys(keys)
    ensures CategoryOf(Join("/", keys)) == if |keys| >= 2 then keys[|keys| - 2] else keys[0]
  {
    SplitJoin(keys, '/');
  }

  /** `any(t.lower() == topic.lower() for t in value)`: `Err` is the
      `AttributeError` of a non-string element reached before a match. */
  function ListHas(items: seq<Value>, topic: string): (r: Result<bool, PyError>)
    ensures r == Ok(true) <==>
      exists j :: 0 <= j < |items| && items[j].VStr? && Lower(items[j].s) == Lower(topic) &&
        forall k :: 0 <= k < j ==> items[k].VStr?
    ensures r == Ok(false) <==>
      forall j :: 0 <= j < |items| ==> items[j].VStr? && Lower(items[j].s) != Lower(topic)
    ensures r.Err? ==> r.error == AttributeError
  {
    if items == [] then Ok(false)
    else if !items[0].VStr? then Err(AttributeError)
    else if Lower(items[0].s) == Lower(topic) then Ok(true)
    else
      var rest := ListHas(items[1..], topic);
      assert forall j :: 1 <= j < |items| ==> items[j] == items[1..][j - 1];
      rest
  }

  /** The short-circuit of `_find_category`: a dict whose only key is `db_mode`,
      holding `True`. */
  predicate DbModeOnly(node: Value) {
    node.VMap? && KeySet(node.entries) == {VStr("db_mode")} &&
    Get(node.entries, VStr("db_mode")) == Some(VBool(true))
  }

  /** The entries `_find_category` skips: non-string keys, the `db_mode` key and
      boolean values. */
  predicate Skipped(e: (Value, Value)) {
    !e.0.VStr? || e.0 == VStr("db_mode") || e.1.VBool?
  }

  /** `_find_category(node, topic, path)`: `None` when nothing matches, `Err` for
      the `AttributeError` of a non-string list element. */
  function FindCategory(node: Value, topic: string, path: string): Result<Option<string>, PyError>
    decreases node, Width(node) + 1
  {
    if DbModeOnly(node) then Ok(None)
    else if node.VMap? then ScanCategory(node, 0, topic, path)
    else Ok(None)
  }

  /** The loop of `_find_category` from entry `i` on. */
  function ScanCategory(node: Value, i: nat, topic: string, path: string): Result<Option<string>, PyError>
    requires node.VMap? && i <= |node.entries|
    decreases node, Width(node) - i
  {
    if i == |node.entries| then Ok(None)
    else if Skipped(node.entries[i]) then ScanCategory(node, i + 1, topic, path)
    else
      var key := node.entries[i].0.s;
      var value := node.entries[i].1;
      var current := PathOf(path, key);
      if Lower(key) == Lower(topic) then Ok(Some(CategoryOf(current)))
      else if Fuzzy(key, topic) then Ok(Some(CategoryOf(current)))
      else if value.VMap? then
        match FindCategory(value, topic, current)
        case Err(e) => Err(e)
        case Ok(found) => if found.Some? then Ok(found) else ScanCategory(node, i + 1, topic, path)
      else if value.VList? then
        match ListHas(value.items, topic)
        case Err(e) => Err(e)
        case Ok(any) => if any then Ok(Some(key)) else ScanCategory(node, i + 1, topic, path)
      else ScanCategory(node, i + 1, topic, path)
  }

  /** The `db_mode` short-circuit never changes the answer: the loop would skip that
      lone key anyway. */
  lemma DbModeShortCircuit(node: Value, topic: string, path: string)
    requires DbModeOnly(node)
    ensures ScanCategory(node, 0, topic, path) == Ok(None) == FindCategory(node, topic, path)
  {
    forall k | 0 <= k < |node.entries| ensures Skipped(node.entries[k]) {
      assert node.entries[k].0 in KeySet(node.entries);
    }
    ScanCategorySkipped(node, 0, topic, path);
  }

  lemma {:induction false} ScanCategorySkipped(node: Value, i: nat, topic: string, path: string)
    requires node.VMap? && i <= |node.entries|
    requires forall k :: i <= k < |node.entries| ==> Skipped(node.entries[k])
    ensures ScanCategory(node, i, topic, path) == Ok(None)
    decreases |node.entries| - i
  {
    if i < |node.entries| {
      ScanCategorySkipped(node, i + 1, topic, path);
    }
  }

  /** Skipped entries are invisible: dropping one changes no result. */
  lemma SkippedIgnored(a: seq<(Value, Value)>, e: (Value, Value), b: seq<(Value, Value)>, topic: string, path: string)
    requires Skipped(e)
    ensures FindCategory(VMap(a + [e] + b), topic, path) == FindCategory(VMap(a + b), topic, path)
  {
    var long := VMap(a + [e] + b);
    var short := VMap(a + b);
    ScanSuffix(a, e, b, |b|, topic, path);
    ScanSuffix(a, e, b, 0, topic, path);
    ScanPrefix(a, e, b, |a|, topic, path);
    ScanPrefix(a, e, b, 0, topic, path);
    if DbModeOnly(long) {
      DbModeShortCircuit(long, topic, path);
    }
    if DbModeOnly(short) {
      DbModeShortCircuit(short, topic, path);
    }
  }

  lemma {:induction false} ScanSuffix(a: seq<(Value, Value)>, e: (Value, Value), b: seq<(Value, Value)>, m: nat, topic: string, path: string)
    requires Skipped(e) && m <= |b|
    ensures ScanCategory(VMap(a + [e] + b), |a| + 1 + m, topic, path) == ScanCategory(VMap(a + b), |a| + m, topic, path)
    decreases |b| - m
  {
    if m < |b| {
      assert (a + [e] + b)[|a| + 1 + m] == b[m] == (a + b)[|a| + m];
      ScanSuffix(a, e, b, m + 1, topic, path);
    }
  }

  lemma {:induction false} ScanPrefix(a: seq<(Value, Value)>, e: (Value, Value), b: seq<(Value, Value)>, j: nat, topic: string, path: string)
    requires Skipped(e) && j <= |a|
    requires ScanCategory(VMap(a + [e] + b), |a| + 1, topic, path) == ScanCategory(VMap(a + b), |a|, topic, path)
    ensures ScanCategory(VMap(a + [e] + b), j, topic, path) == ScanCategory(VMap(a + b), j, topic, path)
    decreases |a| - j
  {
    if j < |a| {
      assert (a + [e] + b)[j] == a[j] == (a + b)[j];
      ScanPrefix(a, e, b, j + 1, topic, path);
    } else {
      assert (a + [e] + b)[|a|] == e;
    }
  }

  /** Where a found category comes from: a key that is not skipped and matches the
      topic fuzzily (the category is then taken from the path to it), or a list of
      which one element equals the topic up to case (the category is the list's
      key), or a dict under a key that does not match, which yields it. */
  ghost predicate CategoryFrom(node: Value, topic: string, path: string, c: string)
    decreases node
  {
    node.VMap? &&
    exists i :: 0 <= i < |node.entries| && !Skipped(node.entries[i]) &&
      var key := node.entries[i].0.s;
      var value := node.entries[i].1;
      (if Fuzzy(key, topic) then c == CategoryOf(PathOf(path, key))
       else if value.VMap? then CategoryFrom(value, topic, PathOf(path, key), c)
       else
         value.VList? && c == key &&
         exists j :: 0 <= j < |value.items| && value.items[j].VStr? && Lower(value.items[j].s) == Lower(topic))
  }

  /** Every category the walk returns comes from a matching key or list. */
  lemma {:induction false} FindCategorySource(node: Value, topic: string, path: string)
    requires FindCategory(node, topic, path).Ok? && FindCategory(node, topic, path).value.Some?
    ensures CategoryFrom(node, topic, path, FindCategory(node, topic, path).value.value)
    decreases node, Width(node) + 1
  {
    ScanCategorySource(node, 0, topic, path);
  }

  lemma {:induction false} ScanCategorySource(node: Value, i: nat, topic: string, path: string)
    requires node.VMap? && i <= |node.entries|
    requires ScanCategory(node, i, topic, path).Ok? && ScanCategory(node, i, topic, path).value.Some?
    ensures CategoryFrom(node, topic, path, ScanCategory(node, i, topic, path).value.value)
    decreases node, Width(node) - i
  {
    var c := ScanCategory(node, i, topic, path).value.value;
    if Skipped(node.entries[i]) {
      ScanCategorySource(node, i + 1, topic, path);
    } else {
      var key := node.entries[i].0.s;
      var value := node.entries[i].1;
      var current := PathOf(path, key);
      if Lower(key) == Lower(topic) {
        ExactIsFuzzy(key, topic);
      } else if Fuzzy(key, topic) {
      } else if value.VMap? {
        if FindCategory(value, topic, current).value.Some? {
          FindCategorySource(value, topic, current);
        } else {
          ScanCategorySource(node, i + 1, topic, path);
        }
      } else if value.VList? {
        if !ListHas(value.items, topic).value {
          ScanCategorySource(node, i + 1, topic, path);
        }
      } else {
        ScanCategorySource(node, i + 1, topic, path);
      }
    }
  }

  // ---------------------------------------------------------------------------
  // get_question_focus and detect_category_for_topic

  /** `item in container` for a string `item`. */
  function PyIn(container: Value, item: string): (r: Result<bool, PyError>)
    ensures container.VMap? ==> r == Ok(HasKey(container.entries, VStr(item)))
    ensures container.VList? ==> r == Ok(VStr(item) in container.items)
    ensures container.VStr? ==> r == Ok(Contains(container.s, item))
    ensures !(container.VMap? || container.VList? || container.VStr?) ==> r == Err(TypeError)
  {
    match container
    case VMap(entries) => Ok(HasKey(entries, VStr(item)))
    case VList(items) => Ok(VStr(item) in items)
    case VStr(s) => Ok(Contains(s, item))
    case _ => Err(TypeError)
  }

  /** `container[key]` for a string `key`. */
  function PyIndex(container: Value, key: string): (r: Result<Value, PyError>)
    ensures r.Ok? <==> container.VMap? && HasKey(container.entries, VStr(key))
    ensures r.Ok? ==> Some(r.value) == Get(container.entries, VStr(key))
  {
    if !container.VMap? then Err(TypeError)
    else
      match Get(container.entries, VStr(key))
      case Some(v) => Ok(v)
      case None => Err(KeyError)
  }

  /** `"db_mode" in m and m["db_mode"] is True`. */
  function DbModeOn(m: Value): (r: Result<bool, PyError>)
    ensures m.VMap? ==> r == Ok(Get(m.entries, VStr("db_mode")) == Some(VBool(true)))
  {
    match PyIn(m, "db_mode")
    case Err(e) => Err(e)
    case Ok(present) =>
      if !present then Ok(false)
      else
        match PyIndex(m, "db_mode")
        case Err(e) => Err(e)
        case Ok(v) => Ok(v == VBool(true))
  }

  /** A question focus as `concept.get("question_focus")` gives it. */
  function FocusValue(qf: Option<string>): Value {
    match qf
    case Some(s) => VStr(s)
    case None => VNull
  }

  /** `get_question_focus(topic, subject)`. `loaded` is what `load_concept_map`
      produced (`None`: it raised); `lookup` is `None` when `get_concept` could not
      be imported and otherwise the outcome of `get_concept(topic, subject)`. */
  function GetQuestionFocus(loaded: Option<Value>, topic: string, subject: string,
                            lookup: Option<Result<Option<ConceptMapDb.Concept>, ConceptMapDb.DbError>>): Value
  {
    if loaded.None? || !Truthy(loaded.value) then VNull
    else
      var m := loaded.value;
      match PyIn(m, subject)
      case Err(_) => VNull
      case Ok(present) =>
        var data := if present then PyIndex(m, subject) else Ok(m);
        match data
        case Err(_) => VNull
        case Ok(d) =>
          match DbModeOn(d)
          case Err(_) => VNull
          case Ok(db) =>
            if db then
              match lookup
              case Some(Ok(Some(concept))) => FocusValue(concept.questionFocus)
              case _ => VNull
            else
              match FindFocus(d, topic)
              case Ok(v) => v
              case Err(_) => VNull
  }

  /** In database mode the question focus is the one `get_concept` returned, and
      `None` when it found nothing, failed or is unavailable. */
  lemma QuestionFocusDbMode(yamlFile: Option<Value>, topic: string, subject: string,
                            lookup: Option<Result<Option<ConceptMapDb.Concept>, ConceptMapDb.DbError>>)
    requires subject != "db_mode"
    ensures var r := GetQuestionFocus(LoadConceptMap(true, yamlFile), topic, subject, lookup);
      (lookup.Some? && lookup.value.Ok? && lookup.value.value.Some? ==>
        r == FocusValue(lookup.value.value.value.questionFocus)) &&
      (lookup.None? || lookup.value.Err? || lookup.value.value.None? ==> r == VNull)
  {
    assert !HasKey(DbModeMarker.entries, VStr(subject)) by {
      assert DbModeMarker.entries[0].0 != VStr(subject);
    }
    assert Get(DbModeMarker.entries, VStr("db_mode")) == Some(VBool(true)) by {
      assert DbModeMarker.entries[0] == (VStr("db_mode"), VBool(true));
    }
  }

  /** From a YAML dict without the subject key and not in database mode, the
      question focus is what the tree walk finds; a walk that fails gives `None`. */
  lemma QuestionFocusYaml(entries: seq<(Value, Value)>, topic: string, subject: string,
                          lookup: Option<Result<Option<ConceptMapDb.Concept>, ConceptMapDb.DbError>>)
    requires entries != [] && !HasKey(entries, VStr(subject))
    requires Get(entries, VStr("db_mode")) != Some(VBool(true))
    ensures GetQuestionFocus(Some(VMap(entries)), topic, subject, lookup) ==
      if FindFocus(VMap(entries), topic).Ok? then FindFocus(VMap(entries), topic).value else VNull
  {
  }

  /** A found question focus always comes from `get_concept` or from a key of the
      loaded tree matching the topic. */
  lemma QuestionFocusSource(loaded: Option<Value>, topic: string, subject: string,
                            lookup: Option<Result<Option<ConceptMapDb.Concept>, ConceptMapDb.DbError>>)
    requires GetQuestionFocus(loaded, topic, subject, lookup) != VNull
    ensures loaded.Some?
    ensures (lookup.Some? && lookup.value.Ok? && lookup.value.value.Some? &&
             GetQuestionFocus(loaded, topic, subject, lookup) == FocusValue(lookup.value.value.value.questionFocus)) ||
            FocusFrom(loaded.value, topic, GetQuestionFocus(loaded, topic, subject, lookup)) ||
            (HasKey(loaded.value.entries, VStr(subject)) &&
             FocusFrom(Get(loaded.value.entries, VStr(subject)).value, topic, GetQuestionFocus(loaded, topic, subject, lookup)))
  {
    var m := loaded.value;
    var present := PyIn(m, subject).value;
    var d := if present then PyIndex(m, subject).value else m;
    if !DbModeOn(d).value {
      FindFocusSource(d, topic);
    }
  }

  /** The fallback `detect_category_for_topic` returns when nothing is found or an
      exception was caught. */
  const Fallback: string := "haha"

  /** `detect_category_for_topic(topic, subject)`; `loaded` and `lookup` as for
      `GetQuestionFocus`. `None` is Python's `None`. */
  function DetectCategory(loaded: Option<Value>, topic: string, subject: string,
                          lookup: Option<Result<Option<ConceptMapDb.Concept>, ConceptMapDb.DbError>>): Option<string>
  {
    if loaded.None? then Some(Fallback)
    else
      var m := loaded.value;
      if m.VMap? && Get(m.entries, VStr("db_mode")) == Some(VBool(true)) then
        match lookup
        case None => None
        case Some(Err(_)) => Some(Fallback)
        case Some(Ok(None)) => None
        case Some(Ok(Some(concept))) => concept.category
      else if !m.VMap? then Some(Fallback)
      else
        var data := GetDefault(m.entries, VStr(subject), m);
        match FindCategory(data, topic, "")
        case Ok(Some(c)) => if c != "" then Some(c) else Some(Fallback)
        case _ => Some(Fallback)
  }

  /** Outside database mode the answer is never `None`: it is a non-empty category
      the walk found in the subject's part of the map, or the fallback. */
  lemma DetectCategoryYaml(loaded: Option<Value>, topic: string, subject: string,
                           lookup: Option<Result<Option<ConceptMapDb.Concept>, ConceptMapDb.DbError>>)
    requires !(loaded.Some? && loaded.value.VMap? && Get(loaded.value.entries, VStr("db_mode")) == Some(VBool(true)))
    ensures DetectCategory(loaded, topic, subject, lookup).Some?
    ensures var c := DetectCategory(loaded, topic, subject, lookup).value;
      c == Fallback ||
      (loaded.Some? && loaded.value.VMap? && c != "" &&
       CategoryFrom(GetDefault(loaded.value.entries, VStr(subject), loaded.value), topic, "", c))
  {
    if loaded.Some? && loaded.value.VMap? {
      var data := GetDefault(loaded.value.entries, VStr(subject), loaded.value);
      var f := FindCategory(data, topic, "");
      if f.Ok? && f.value.Some? {
        FindCategorySource(data, topic, "");
      }
    }
  }

  /** In database mode the answer is the category `get_concept` returned; `None`
      when it found nothing or is unavailable, the fallback when it raised (a
      missing database file). */
  lemma DetectCategoryDbMode(yamlFile: Option<Value>, topic: string, subject: string,
                             lookup: Option<Result<Option<ConceptMapDb.Concept>, ConceptMapDb.DbError>>)
    ensures var r := DetectCategory(LoadConceptMap(true, yamlFile), topic, subject, lookup);
      (lookup.None? ==> r.None?) &&
      (lookup.Some? && lookup.value.Err? ==> r == Some(Fallback)) &&
      (lookup.Some? && lookup.value.Ok? ==>
        r == if lookup.value.value.Some? then lookup.value.value.value.category else None)
  {
    assert Get(DbModeMarker.entries, VStr("db_mode")) == Some(VBool(true)) by {
      assert DbModeMarker.entries[0] == (VStr("db_mode"), VBool(true));
    }
  }

  /** A topic filed as a top-level key of the subject's map (plain, first entry) is
      reported as that key. */
  lemma DetectCategoryTopLevel(entries: seq<(Value, Value)>, key: string, value: Value, topic: string, subject: string,
                               lookup: Option<Result<Option<ConceptMapDb.Concept>, ConceptMapDb.DbError>>)
    requires |entries| >= 1 && entries[0] == (VStr(key), value)
    requires key != "" && key != "db_mode" && '/' !in key && !value.VBool?
    requires Lower(key) == Lower(topic)
    requires subject != "db_mode"
    ensures DetectCategory(Some(VMap([(VStr(subject), VMap(entries))])), topic, subject, lookup) == Some(key)
  {
    var m := VMap([(VStr(subject), VMap(entries))]);
    assert m.entries[0] == (VStr(subject), VMap(entries));
    assert Get(m.entries, VStr(subject)) == Some(VMap(entries));
    assert !DbModeOnly(VMap(entries)) by {
      assert VStr(key) in KeySet(entries);
    }
    assert Join("/", [key]) == key;
    CategoryOfPath([key]);
    assert ScanCategory(VMap(entries), 0, topic, "") == Ok(Some(key));
    assert GetDefault(m.entries, VStr(subject), m) == VMap(entries);
  }
}
