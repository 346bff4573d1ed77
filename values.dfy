/** Python values as they come out of `yaml.safe_load` and `json.loads`, and the
    handful of `dict` operations the core performs on them. A dict keeps its
    insertion order, so it is a sequence of key/value pairs; keys are values too
    (YAML allows non-string keys). */
module Values {

  datatype Option<+T> = None | Some(value: T) {
    function GetOr(default: T): T {
      match this
      case Some(v) => v
      case None => default
    }
  }

  datatype Result<+T, +E> = Ok(value: T) | Err(error: E)

  /** A loaded YAML/JSON value: `None`, `bool`, `int`, `str`, `list`, `dict`.
      Floats, timestamps and binary scalars are not among them. */
  datatype Value =
    | VNull
    | VBool(b: bool)
    | VInt(i: int)
    | VStr(s: string)
    | VList(items: seq<Value>)
    | VMap(entries: seq<(Value, Value)>)

  /** The exception a Python operation raises: a value of the wrong type, a missing
      attribute (`.lower()` on a non-string), a bad value, a missing dict key, a
      list index out of range, and the two `sqlite3` raises when it cannot bind a
      parameter (an integer too wide for SQLite, a value of a type it has no
      adapter for). */
  datatype PyError = TypeError | AttributeError | ValueError | KeyError | IndexError | OverflowError | ProgrammingError

  /** `bool(v)`: Python truthiness. */
  predicate Truthy(v: Value) {
    match v
    case VNull => false
    case VBool(b) => b
    case VInt(i) => i != 0
    case VStr(s) => s != ""
    case VList(items) => items != []
    case VMap(entries) => entries != []
  }

  /** `k in d` for a dict `d`. */
  predicate HasKey(entries: seq<(Value, Value)>, k: Value) {
    exists i :: 0 <= i < |entries| && entries[i].0 == k
  }

  /** Position of key `k` in the dict, if present. */
  function IndexOf(entries: seq<(Value, Value)>, k: Value): (r: Option<nat>)
    ensures r.None? <==> !HasKey(entries, k)
    ensures r.Some? ==> r.value < |entries| && entries[r.value].0 == k
    ensures r.Some? ==> forall j :: 0 <= j < r.value ==> entries[j].0 != k
  {
    if |entries| == 0 then None
    else if entries[0].0 == k then Some(0)
    else
      match IndexOf(entries[1..], k)
      case None => None
      case Some(j) => Some(j + 1)
  }

  /** `d.get(k)`: the value stored under `k`, if any. */
  function Get(entries: seq<(Value, Value)>, k: Value): (r: Option<Value>)
    ensures r.Some? <==> HasKey(entries, k)
    ensures r.Some? ==> exists i :: 0 <= i < |entries| && entries[i] == (k, r.value)
  {
    match IndexOf(entries, k)
    case None => None
    case Some(i) => Some(entries[i].1)
  }

  /** The first position holding key `k` is the one `IndexOf` finds. */
  lemma IndexOfFirst(entries: seq<(Value, Value)>, k: Value, i: nat)
    requires i < |entries| && entries[i].0 == k
    requires forall j :: 0 <= j < i ==> entries[j].0 != k
    ensures IndexOf(entries, k) == Some(i)
  {
    assert HasKey(entries, k);
  }

  /** A key no earlier pair has finds its own value. */
  lemma FieldAt(m: seq<(Value, Value)>, i: nat)
    requires i < |m| && forall j :: 0 <= j < i ==> m[j].0 != m[i].0
    ensures Get(m, m[i].0) == Some(m[i].1)
  {
    IndexOfFirst(m, m[i].0, i);
  }

  /** Two dicts that agree on the key at every position up to the first `k`, and on
      the value there, give the same `get(k)`. */
  lemma GetAgree(a: seq<(Value, Value)>, b: seq<(Value, Value)>, k: Value)
    requires forall j :: 0 <= j < |a| && j < |b| ==> (a[j].0 == k <==> b[j].0 == k)
    requires forall j :: 0 <= j < |a| && j < |b| && a[j].0 == k ==> a[j] == b[j]
    requires HasKey(a, k) ==> exists j :: 0 <= j < |a| && j < |b| && a[j].0 == k
    requires HasKey(b, k) ==> exists j :: 0 <= j < |a| && j < |b| && b[j].0 == k
    ensures Get(a, k) == Get(b, k)
  {
    if HasKey(a, k) {
      var i := IndexOf(a, k).value;
      var j :| 0 <= j < |a| && j < |b| && a[j].0 == k;
      assert i <= j;
      IndexOfFirst(b, k, i);
    }
  }

  /** `d[k] = v`: an existing key keeps its position, a new key goes last. */
  function Set(entries: seq<(Value, Value)>, k: Value, v: Value): (r: seq<(Value, Value)>)
    ensures Get(r, k) == Some(v)
    ensures forall k' {:trigger Get(r, k')} :: k' != k ==> Get(r, k') == Get(entries, k')
    ensures HasKey(entries, k) ==> |r| == |entries|
    ensures !HasKey(entries, k) ==> r == entries + [(k, v)]
  {
    match IndexOf(entries, k)
    case None =>
      var r := entries + [(k, v)];
      IndexOfFirst(r, k, |entries|);
      forall k' | k' != k ensures Get(r, k') == Get(entries, k') {
        GetAgree(r, entries, k');
      }
      r
    case Some(i) =>
      var r := entries[i := (k, v)];
      IndexOfFirst(r, k, i);
      forall k' | k' != k ensures Get(r, k') == Get(entries, k') {
        GetAgree(r, entries, k');
      }
      r
  }

  /** Setting a key adds it to the keys and keeps the others. */
  lemma SetKeys(entries: seq<(Value, Value)>, k: Value, v: Value)
    ensures KeySet(Set(entries, k, v)) == KeySet(entries) + {k}
  {
    var r := Set(entries, k, v);
    forall k' ensures k' in KeySet(r) <==> k' in KeySet(entries) + {k} {
      if k' != k {
        assert Get(r, k') == Get(entries, k');
      }
    }
  }

  /** Setting a key to the value it already holds changes nothing. */
  lemma SetPresent(entries: seq<(Value, Value)>, k: Value, v: Value)
    requires Get(entries, k) == Some(v)
    ensures Set(entries, k, v) == entries
  {
    var i := IndexOf(entries, k).value;
    assert entries[i] == (k, v);
  }

  /** Setting the same key twice keeps only the second value. */
  lemma SetSet(entries: seq<(Value, Value)>, k: Value, v: Value, w: Value)
    ensures Set(Set(entries, k, v), k, w) == Set(entries, k, w)
  {
    if !HasKey(entries, k) {
      var r := entries + [(k, v)];
      assert IndexOf(r, k) == Some(|entries|) by {
        assert r[|entries|].0 == k;
      }
    }
  }

  /** Setting a present key replaces the pair at its position. */
  lemma SetAt(entries: seq<(Value, Value)>, k: Value, v: Value)
    requires HasKey(entries, k)
    ensures IndexOf(entries, k).Some?
    ensures Set(entries, k, v) == entries[IndexOf(entries, k).value := (k, v)]
  {
  }

  /** Setting two different keys, one of them already present, in either order
      gives the same dict. */
  lemma SetCommute(entries: seq<(Value, Value)>, k1: Value, v1: Value, k2: Value, v2: Value)
    requires k1 != k2 && (HasKey(entries, k1) || HasKey(entries, k2))
    ensures Set(Set(entries, k1, v1), k2, v2) == Set(Set(entries, k2, v2), k1, v1)
  {
    if HasKey(entries, k1) && HasKey(entries, k2) {
      SetCommuteBoth(entries, k1, v1, k2, v2);
    } else if HasKey(entries, k1) {
      SetCommuteAppend(entries, k1, v1, k2, v2);
    } else {
      SetCommuteAppend(entries, k2, v2, k1, v1);
    }
  }

  lemma SetCommuteBoth(entries: seq<(Value, Value)>, k1: Value, v1: Value, k2: Value, v2: Value)
    requires k1 != k2 && HasKey(entries, k1) && HasKey(entries, k2)
    ensures Set(Set(entries, k1, v1), k2, v2) == Set(Set(entries, k2, v2), k1, v1)
  {
    var i1 := IndexOf(entries, k1).value;
    var i2 := IndexOf(entries, k2).value;
    SetAt(entries, k1, v1);
    SetAt(entries, k2, v2);
    var a := entries[i1 := (k1, v1)];
    var b := entries[i2 := (k2, v2)];
    IndexOfFirst(a, k2, i2);
    IndexOfFirst(b, k1, i1);
    SetAt(a, k2, v2);
    SetAt(b, k1, v1);
    UpdatesCommute(entries, i1, (k1, v1), i2, (k2, v2));
  }

  lemma UpdatesCommute<T>(s: seq<T>, i: nat, x: T, j: nat, y: T)
    requires i < |s| && j < |s| && i != j
    ensures s[i := x][j := y] == s[j := y][i := x]
  {
  }

  /** Setting a present key before or after appending a new one. */
  lemma SetCommuteAppend(entries: seq<(Value, Value)>, k1: Value, v1: Value, k2: Value, v2: Value)
    requires k1 != k2 && HasKey(entries, k1) && !HasKey(entries, k2)
    ensures Set(Set(entries, k1, v1), k2, v2) == Set(Set(entries, k2, v2), k1, v1)
  {
    var i1 := IndexOf(entries, k1).value;
    var set1 := Set(entries, k1, v1);
    var app := entries + [(k2, v2)];
    SetAt(entries, k1, v1);
    assert Set(entries, k2, v2) == app;
    IndexOfFirst(app, k1, i1);
    SetAt(app, k1, v1);
    assert Get(set1, k2) == Get(entries, k2);
    assert Set(set1, k2, v2) == set1 + [(k2, v2)];
    assert app[i1 := (k1, v1)] == entries[i1 := (k1, v1)] + [(k2, v2)];
  }

  /** No key occurs twice in an update list. */
  predicate DistinctKeys(pairs: seq<(Value, Value)>) {
    forall i, j :: 0 <= i < j < |pairs| ==> pairs[i].0 != pairs[j].0
  }

  /** Setting a present key that an update list does not touch commutes with the
      update. */
  lemma {:induction false} SetUpdateCommute(entries: seq<(Value, Value)>, k: Value, v: Value, pairs: seq<(Value, Value)>)
    requires HasKey(entries, k)
    requires forall j :: 0 <= j < |pairs| ==> pairs[j].0 != k
    ensures Set(Update(entries, pairs), k, v) == Update(Set(entries, k, v), pairs)
    decreases |pairs|
  {
    if pairs != [] {
      var first := Set(entries, pairs[0].0, pairs[0].1);
      assert HasKey(first, k) by {
        assert Get(first, k) == Get(entries, k);
      }
      SetUpdateCommute(first, k, v, pairs[1..]);
      SetCommute(entries, pairs[0].0, pairs[0].1, k, v);
    }
  }

  /** Two updates of the same keys in the same order: the second one wins. */
  lemma {:induction false} UpdateUpdate(entries: seq<(Value, Value)>, first: seq<(Value, Value)>, second: seq<(Value, Value)>)
    requires |first| == |second| && DistinctKeys(first)
    requires forall j :: 0 <= j < |first| ==> first[j].0 == second[j].0
    ensures Update(Update(entries, first), second) == Update(entries, second)
    decreases |first|
  {
    if first != [] {
      var k := first[0].0;
      var m1 := Set(entries, k, first[0].1);
      assert HasKey(m1, k) by {
        assert Get(m1, k).Some?;
      }
      SetUpdateCommute(m1, k, second[0].1, first[1..]);
      SetSet(entries, k, first[0].1, second[0].1);
      UpdateUpdate(Set(entries, k, second[0].1), first[1..], second[1..]);
    }
  }

  /** An update that writes the values already stored changes nothing. */
  lemma {:induction false} UpdatePresent(entries: seq<(Value, Value)>, pairs: seq<(Value, Value)>)
    requires forall j :: 0 <= j < |pairs| ==> Get(entries, pairs[j].0) == Some(pairs[j].1)
    ensures Update(entries, pairs) == entries
    decreases |pairs|
  {
    if pairs != [] {
      SetPresent(entries, pairs[0].0, pairs[0].1);
      UpdatePresent(entries, pairs[1..]);
    }
  }

  /** An update keeps every key present and adds the keys it sets. */
  lemma {:induction false} UpdateKeys(entries: seq<(Value, Value)>, pairs: seq<(Value, Value)>, k: Value)
    ensures HasKey(Update(entries, pairs), k) <==>
      HasKey(entries, k) || exists j :: 0 <= j < |pairs| && pairs[j].0 == k
    ensures (forall j :: 0 <= j < |pairs| ==> pairs[j].0 != k) ==> Get(Update(entries, pairs), k) == Get(entries, k)
    decreases |pairs|
  {
    if pairs != [] {
      UpdateKeys(Set(entries, pairs[0].0, pairs[0].1), pairs[1..], k);
      if exists j :: 0 <= j < |pairs| && pairs[j].0 == k {
        var j :| 0 <= j < |pairs| && pairs[j].0 == k;
        if j > 0 {
          assert pairs[1..][j - 1].0 == k;
        }
      }
    }
  }

  /** After an update with distinct keys, every key it sets holds its value. */
  lemma {:induction false} UpdateGet(entries: seq<(Value, Value)>, pairs: seq<(Value, Value)>, j: nat)
    requires DistinctKeys(pairs) && j < |pairs|
    ensures Get(Update(entries, pairs), pairs[j].0) == Some(pairs[j].1)
    decreases |pairs|
  {
    var first := Set(entries, pairs[0].0, pairs[0].1);
    if j == 0 {
      assert forall i :: 0 <= i < |pairs[1..]| ==> pairs[1..][i].0 != pairs[0].0 by {
        forall i | 0 <= i < |pairs[1..]| ensures pairs[1..][i].0 != pairs[0].0 {
          assert pairs[1..][i] == pairs[i + 1];
        }
      }
      UpdateKeys(first, pairs[1..], pairs[0].0);
    } else {
      assert pairs[1..][j - 1] == pairs[j];
      UpdateGet(first, pairs[1..], j - 1);
    }
  }

  /** An update with distinct keys none of which the dict has appends its pairs
      in order. */
  lemma {:induction false} UpdateAppend(entries: seq<(Value, Value)>, pairs: seq<(Value, Value)>)
    requires DistinctKeys(pairs)
    requires forall j :: 0 <= j < |pairs| ==> !HasKey(entries, pairs[j].0)
    ensures Update(entries, pairs) == entries + pairs
    decreases |pairs|
  {
    if pairs != [] {
      var first := Set(entries, pairs[0].0, pairs[0].1);
      assert first == entries + [pairs[0]];
      AppendRest(entries, pairs);
      UpdateAppend(first, pairs[1..]);
      AppendFirst(entries, pairs);
    }
  }

  lemma AppendFirst<T>(a: seq<T>, b: seq<T>)
    requires b != []
    ensures (a + [b[0]]) + b[1..] == a + b
  {
    assert b == [b[0]] + b[1..];
  }

  /** After the first pair of such an update is appended, the rest of it still
      has distinct keys none of which the dict has. */
  lemma AppendRest(entries: seq<(Value, Value)>, pairs: seq<(Value, Value)>)
    requires pairs != [] && DistinctKeys(pairs)
    requires forall j :: 0 <= j < |pairs| ==> !HasKey(entries, pairs[j].0)
    ensures DistinctKeys(pairs[1..])
    ensures forall j :: 0 <= j < |pairs| - 1 ==> !HasKey(entries + [pairs[0]], pairs[1..][j].0)
  {
    var rest := pairs[1..];
    forall j | 0 <= j < |rest| ensures !HasKey(entries + [pairs[0]], rest[j].0) {
      assert rest[j] == pairs[j + 1];
      assert forall i :: 0 <= i < |entries| ==> (entries + [pairs[0]])[i] == entries[i];
    }
    assert forall i :: 0 <= i < |rest| ==> rest[i] == pairs[i + 1];
  }

  /** `d.setdefault(k, default)`: the dict afterwards and the value returned. */
  function SetDefault(entries: seq<(Value, Value)>, k: Value, default: Value): (r: (seq<(Value, Value)>, Value))
    ensures Get(r.0, k) == Some(r.1)
    ensures HasKey(entries, k) ==> r == (entries, Get(entries, k).value)
    ensures !HasKey(entries, k) ==> r == (entries + [(k, default)], default)
  {
    match Get(entries, k)
    case Some(v) => (entries, v)
    case None =>
      IndexOfFirst(entries + [(k, default)], k, |entries|);
      (entries + [(k, default)], default)
  }

  /** Helper: `d.get(k, default)`. */
  function GetDefault(entries: seq<(Value, Value)>, k: Value, default: Value): Value {
    Get(entries, k).GetOr(default)
  }

  /** `d.update(...)` with the pairs in the order written. */
  function Update(entries: seq<(Value, Value)>, pairs: seq<(Value, Value)>): (r: seq<(Value, Value)>)
    decreases |pairs|
  {
    if pairs == [] then entries
    else Update(Set(entries, pairs[0].0, pairs[0].1), pairs[1..])
  }

  /** The keys a value mentions as a dict, as Python's `d.keys()` set. */
  function KeySet(entries: seq<(Value, Value)>): (r: set<Value>)
    ensures forall k :: k in r <==> HasKey(entries, k)
  {
    set i | 0 <= i < |entries| :: entries[i].0
  }
}
