/** The concept lookup of `utils/concept_map_db.py`: topic normalisation, the
    spelling variants tried against the `concept_map` table, and the three-stage
    query cascade of `get_concept`.

    The database is passed in as rows. The SQL the function builds is modelled as a
    small condition tree that renders to the same SQL up to whitespace; SQLite binds `?`
    placeholders left to right, which is how `Eval` consumes the parameter list.
    SQL `LIKE` is left abstract as the parameter `like(value, pattern)`. */
module ConceptMapDb {

  import opened Values
  import opened Text

  // ---------------------------------------------------------------------------
  // Normalisation and variants

  /** `_normalize`: `(s or "").strip().lower().replace("-", "_")`. */
  function Normalize(s: Option<string>): (r: string)
    ensures Stripped(r)
    ensures forall i :: 0 <= i < |r| ==> r[i] != '-'
    ensures Lower(r) == r
  {
    var t := Lower(Strip(s.GetOr("")));
    LowerIdempotent(Strip(s.GetOr("")));
    DashesReplaced(t);
    Replace(t, "-", "_")
  }

  /** Turning `-` into `_` in a stripped lower-case text leaves it stripped and
      lower-case, and without `-`. */
  lemma DashesReplaced(t: string)
    requires Stripped(t) && Lower(t) == t
    ensures var r := Replace(t, "-", "_");
      Stripped(r) && (forall i :: 0 <= i < |r| ==> r[i] != '-') && Lower(r) == r
  {
    ReplaceChar(t, '-', '_');
    var r := Replace(t, "-", "_");
    forall i | 0 <= i < |r|
      ensures LowerChar(r[i]) == r[i]
    {
      assert Lower(t)[i] == t[i];
    }
    assert Lower(r) == r;
  }

  lemma NormalizeNone()
    ensures Normalize(None) == "" && Normalize(Some("")) == ""
  {
  }

  lemma NormalizeIdempotent(s: Option<string>)
    ensures Normalize(Some(Normalize(s))) == Normalize(s)
  {
    var r := Normalize(s);
    ContainsChar(r, '-');
    ReplaceAbsent(r, "-", "_");
  }

  /** The alias table of `_variants`. */
  function Alias(s: string): Option<string> {
    if s == "adverb" || s == "adverbs" then Some("adjectives_and_adverbs")
    else if s == "run_on_sentence" then Some("run_on_sentences")
    else if s == "quotation_mark" then Some("quotation_marks")
    else if s == "semicolon" then Some("semicolons")
    else if s == "colon" then Some("colons")
    else None
  }

  /** Singular/plural toggle: drop a final `s`, or add one. */
  function PluralToggle(s: string): string {
    if |s| > 0 && s[|s| - 1] == 's' then s[..|s| - 1] else s + "s"
  }

  /** Everything `_variants` adds to its candidate set, in the order added. The
      alias target is normalised there too, which leaves it unchanged (see
      `AliasNormalized`). */
  function Candidates(s: string): seq<string> {
    [s, PluralToggle(s), Replace(s, "_sentence", "_sentences"), Replace(s, "_sentences", "_sentence")]
    + (match Alias(s) case Some(a) => [a] case None => [])
  }

  predicate StrictlyAscending(xs: seq<string>) {
    forall i, j :: 0 <= i < j < |xs| ==> LexLess(xs[i], xs[j])
  }

  /** Insert into a strictly ascending list unless already present. */
  function InsertSorted(x: string, xs: seq<string>): (r: seq<string>)
    requires StrictlyAscending(xs)
    ensures StrictlyAscending(r)
    ensures forall y :: y in r <==> y == x || y in xs
    ensures |r| <= |xs| + 1
  {
    if xs == [] then [x]
    else if x == xs[0] then xs
    else if LexLess(x, xs[0]) then
      forall j | 0 < j < |xs| ensures LexLess(x, xs[j]) {
        LexLessTransitive(x, xs[0], xs[j]);
      }
      [x] + xs
    else
      LexLessTotal(x, xs[0]);
      var rest := InsertSorted(x, xs[1..]);
      assert forall y :: y in rest ==> LexLess(xs[0], y);
      [xs[0]] + rest
  }

  /** `sorted(set(xs))`. */
  function SortedSet(xs: seq<string>): (r: seq<string>)
    ensures StrictlyAscending(r)
    ensures forall y :: y in r <==> y in xs
    ensures |r| <= |xs|
  {
    if xs == [] then [] else InsertSorted(xs[|xs| - 1], SortedSet(xs[..|xs| - 1]))
  }

  /** `[c for c in xs if c]`. */
  function DropEmpty(xs: seq<string>): (r: seq<string>)
    ensures forall y :: y in r <==> y in xs && y != ""
    ensures |r| <= |xs|
  {
    if xs == [] then [] else (if xs[0] == "" then [] else [xs[0]]) + DropEmpty(xs[1..])
  }

  /** On an ascending list only the first element can be empty. */
  lemma DropEmptyAscending(xs: seq<string>)
    requires StrictlyAscending(xs)
    ensures DropEmpty(xs) == if xs != [] && xs[0] == "" then xs[1..] else xs
  {
    var ys := if xs != [] && xs[0] == "" then xs[1..] else xs;
    assert forall j :: 0 <= j < |ys| ==> ys[j] != "" by {
      forall j | 0 <= j < |ys| ensures ys[j] != "" {
        if xs != [] && xs[0] == "" {
          assert LexLess(xs[0], xs[j + 1]);
        } else {
          assert !LexLess(xs[j], "");
        }
      }
    }
    NoEmptyDropEmpty(ys);
  }

  lemma NoEmptyDropEmpty(ys: seq<string>)
    requires forall j :: 0 <= j < |ys| ==> ys[j] != ""
    ensures DropEmpty(ys) == ys
  {
  }

  /** The sorted, non-empty, distinct candidates for a normalised topic `s`. */
  function Spellings(s: string): (r: seq<string>)
    ensures StrictlyAscending(r)
    ensures forall x :: x in r <==> x != "" && x in Candidates(s)
    ensures 1 <= |r| <= 5
  {
    var sorted := SortedSet(Candidates(s));
    DropEmptyAscending(sorted);
    var r := DropEmpty(sorted);
    assert if s != "" then s in r else PluralToggle(s) in r;
    r
  }

  /** `_variants`: the sorted, non-empty spellings tried against the table. */
  function Variants(topic: Option<string>): (r: seq<string>)
    ensures StrictlyAscending(r)
    ensures forall x :: x in r <==> x != "" && x in Candidates(Normalize(topic))
    ensures 1 <= |r| <= 5
  {
    Spellings(Normalize(topic))
  }

  /** Helper: a strictly ascending list has no duplicates. */
  lemma AscendingDistinct(xs: seq<string>)
    requires StrictlyAscending(xs)
    ensures forall i, j :: 0 <= i < j < |xs| ==> xs[i] != xs[j]
  {
    forall i, j | 0 <= i < j < |xs| ensures xs[i] != xs[j] {
      LexLessIrreflexive(xs[i]);
    }
  }

  /** `sorted(cand)` holds each spelling once. */
  lemma VariantsDistinct(topic: Option<string>)
    ensures forall i, j :: 0 <= i < j < |Variants(topic)| ==> Variants(topic)[i] != Variants(topic)[j]
  {
    AscendingDistinct(Variants(topic));
  }

  /** Dropping a final `s` and adding one undo each other. */
  lemma PluralToggleDiffers(s: string)
    ensures PluralToggle(s) != s
  {
    assert |PluralToggle(s)| != |s|;
  }

  /** Helper: two different members make a list at least two long. */
  lemma TwoMembers(r: seq<string>, x: string, y: string)
    requires x in r && y in r && x != y
    ensures |r| >= 2
  {
    var i :| 0 <= i < |r| && r[i] == x;
    var j :| 0 <= j < |r| && r[j] == y;
    assert i != j;
  }

  /** Unless the topic is blank or just `s`, at least two spellings are tried:
      the topic itself and its plural toggle. */
  lemma VariantsAtLeastTwo(topic: Option<string>)
    requires Normalize(topic) != "" && Normalize(topic) != "s"
    ensures |Variants(topic)| >= 2
  {
    VariantsToggle(topic);
    PluralToggleDiffers(Normalize(topic));
    assert PluralToggle(Normalize(topic)) != "";
    TwoMembers(Variants(topic), Normalize(topic), PluralToggle(Normalize(topic)));
  }

  /** The normalised topic and its plural toggle are both tried (the toggle of
      `"s"` is empty and is dropped). */
  lemma VariantsToggle(topic: Option<string>)
    ensures Normalize(topic) != "" ==> Normalize(topic) in Variants(topic)
    ensures PluralToggle(Normalize(topic)) != "" ==> PluralToggle(Normalize(topic)) in Variants(topic)
  {
    CandidatesShape(Normalize(topic));
  }

  /** Helper: the candidate list, position by position. */
  lemma CandidatesShape(s: string)
    ensures s in Candidates(s) && PluralToggle(s) in Candidates(s)
    ensures Replace(s, "_sentence", "_sentences") in Candidates(s)
    ensures Replace(s, "_sentences", "_sentence") in Candidates(s)
    ensures Alias(s).Some? ==> Alias(s).value in Candidates(s)
    ensures forall x :: x in Candidates(s) ==>
      x == s || x == PluralToggle(s) || x == Replace(s, "_sentence", "_sentences") || x == Replace(s, "_sentences", "_sentence")
      || (Alias(s).Some? && x == Alias(s).value)
  {
    var c := Candidates(s);
    assert c[0] == s && c[1] == PluralToggle(s);
    assert c[2] == Replace(s, "_sentence", "_sentences") && c[3] == Replace(s, "_sentences", "_sentence");
    assert Alias(s).Some? ==> c[4] == Alias(s).value;
  }

  /** Helper: a list whose every element is `c` and that is strictly ascending has at most one element. */
  lemma {:induction false} AscendingConstant(xs: seq<string>, c: string)
    requires StrictlyAscending(xs)
    requires forall x :: x in xs ==> x == c
    ensures |xs| <= 1
  {
    if |xs| >= 2 {
      LexLessIrreflexive(c);
      AscendingPair(xs);
      assert false;
    }
  }

  lemma AscendingPair(xs: seq<string>)
    ensures StrictlyAscending(xs) && |xs| >= 2 ==> LexLess(xs[0], xs[1]) && xs[0] in xs && xs[1] in xs
  {
  }

  lemma BlankCandidates()
    ensures forall x :: x in Candidates("") && x != "" <==> x == "s"
  {
    CandidatesShape("");
    assert PluralToggle("") == "s";
    assert Replace("", "_sentence", "_sentences") == "" && Replace("", "_sentences", "_sentence") == "";
  }

  lemma OnlyS(r: seq<string>)
    requires StrictlyAscending(r) && |r| >= 1
    requires forall x :: x in r ==> x == "s"
    ensures r == ["s"]
  {
    AscendingConstant(r, "s");
    assert r[0] in r;
  }

  /** A blank topic (`None`, empty or whitespace) yields exactly `["s"]`. */
  lemma VariantsBlank(topic: Option<string>)
    requires Normalize(topic) == ""
    ensures Variants(topic) == ["s"]
  {
    BlankCandidates();
    OnlyS(Variants(topic));
  }

  /** Spellings made of lower-case letters, digits and `_` only. */
  predicate Canonical(a: string) {
    forall i :: 0 <= i < |a| ==> 'a' <= a[i] <= 'z' || a[i] == '_' || '0' <= a[i] <= '9'
  }

  /** `_normalize` leaves a canonical spelling unchanged. */
  lemma NormalizeCanonical(a: string)
    requires Canonical(a)
    ensures Normalize(Some(a)) == a
  {
    assert Stripped(a);
    var l := Lower(a);
    assert forall i :: 0 <= i < |a| ==> l[i] == a[i];
    assert l == a;
    ContainsChar(a, '-');
    ReplaceAbsent(a, "-", "_");
  }

  /** Every alias target is a non-empty canonical spelling, so normalising it
      changes nothing. */
  lemma AliasNormalized(s: string)
    ensures Alias(s).Some? ==> Alias(s).value != "" && Normalize(Some(Alias(s).value)) == Alias(s).value
  {
    if Alias(s).Some? {
      AliasCanonical(s);
      NormalizeCanonical(Alias(s).value);
    }
  }

  lemma AliasCanonical(s: string)
    requires Alias(s).Some?
    ensures Alias(s).value != "" && Canonical(Alias(s).value)
  {
    TargetsCanonical();
  }

  lemma TargetsCanonical()
    ensures Canonical("adjectives_and_adverbs") && Canonical("run_on_sentences")
    ensures Canonical("quotation_marks") && Canonical("semicolons") && Canonical("colons")
  {
    assert Canonical("adjectives_and_adverbs");
    assert Canonical("run_on_sentences");
    assert Canonical("quotation_marks");
    assert Canonical("semicolons");
  }

  /** Alias keys add their mapped spelling. */
  lemma VariantsAlias(topic: Option<string>)
    requires Alias(Normalize(topic)).Some?
    ensures Alias(Normalize(topic)).value in Variants(topic)
  {
    AliasNormalized(Normalize(topic));
    CandidatesShape(Normalize(topic));
  }

  /** Helper: the spellings other than an alias. */
  predicate Toggled(x: string, s: string) {
    x == s || x == PluralToggle(s) || x == Replace(s, "_sentence", "_sentences") || x == Replace(s, "_sentences", "_sentence")
  }

  lemma CandidatesNoAlias(r: seq<string>, s: string)
    requires Alias(s).None?
    requires forall x :: x in r ==> x in Candidates(s)
    ensures forall x :: x in r ==> Toggled(x, s)
  {
    CandidatesShape(s);
  }

  /** Other topics try only the topic, its plural toggle and its
      sentence/sentences toggles. */
  lemma SpellingsNoAlias(s: string)
    requires Alias(s).None?
    ensures forall x :: x in Spellings(s) ==> Toggled(x, s)
  {
    CandidatesNoAlias(Spellings(s), s);
  }

  /** `adverb` and `adverbs` both bring in `adjectives_and_adverbs`. */
  lemma AdverbAlias(topic: Option<string>)
    requires Normalize(topic) == "adverb" || Normalize(topic) == "adverbs"
    ensures "adjectives_and_adverbs" in Variants(topic)
  {
    VariantsAlias(topic);
  }

  // ---------------------------------------------------------------------------
  // Tables

  /** A row of `concept_map`; `category` and `question_focus` may be NULL. */
  datatype ConceptMapRow = ConceptMapRow(subject: string, category: Option<string>, topic: string, questionFocus: Option<string>)
  /** The columns of `topics` that the join reads. */
  datatype TopicsRow = TopicsRow(name: string, subject: string, gradeLevel: Option<int>)
  /** The columns of `concepts` that the join reads. */
  datatype ConceptsRow = ConceptsRow(subject: string, topic: string, notes: Option<string>)

  /** The database file: whether it exists, and each table (`None` when the table is
      missing, so that querying it raises). */
  datatype Database = Database(
    fileExists: bool,
    conceptMap: Option<seq<ConceptMapRow>>,
    topics: Option<seq<TopicsRow>>,
    concepts: Option<seq<ConceptsRow>>)

  /** What `get_concept` returns: four keys from stages 1 and 2, two more from
      stage 3. */
  datatype JoinExtra = JoinExtra(gradeLevel: Option<int>, notes: Option<string>)
  datatype Concept = Concept(subject: string, category: Option<string>, topic: string, questionFocus: Option<string>, extra: Option<JoinExtra>)

  datatype DbError = DatabaseNotFound

  // ---------------------------------------------------------------------------
  // SQL

  datatype Column =
    | CmSubject | CmCategory | CmTopic | CmQuestionFocus
    | TSubject | TName | TGradeLevel
    | CSubject | CTopic | CNotes

  function ColumnName(c: Column): string {
    match c
    case CmSubject => "cm.subject"
    case CmCategory => "cm.category"
    case CmTopic => "cm.topic"
    case CmQuestionFocus => "cm.question_focus"
    case TSubject => "t.subject"
    case TName => "t.name"
    case TGradeLevel => "t.grade_level"
    case CSubject => "c.subject"
    case CTopic => "c.topic"
    case CNotes => "c.notes"
  }

  /** The conditions the queries are built from. */
  datatype Cond =
    | ParamEq(col: Column)                    // col = ?
    | LowerInParams(col: Column, n: nat)      // LOWER(col) IN (?,...,?)
    | LowerLikeParam(col: Column)             // LOWER(col) LIKE ?
    | ColumnEq(a: Column, b: Column)          // a = b
    | LowerColumnEq(a: Column, b: Column)     // LOWER(a) = LOWER(b)
    | Or(l: Cond, r: Cond)
    | And(l: Cond, r: Cond)
    | Paren(c: Cond)

  datatype JoinClause = JoinClause(table: string, alias: string, on: Cond)
  datatype Select = Select(cols: seq<Column>, joins: seq<JoinClause>, where: Cond)

  /** Number of `?` placeholders. */
  function Arity(c: Cond): nat {
    match c
    case ParamEq(_) => 1
    case LowerInParams(_, n) => n
    case LowerLikeParam(_) => 1
    case ColumnEq(_, _) => 0
    case LowerColumnEq(_, _) => 0
    case Or(l, r) => Arity(l) + Arity(r)
    case And(l, r) => Arity(l) + Arity(r)
    case Paren(c) => Arity(c)
  }

  function JoinsArity(js: seq<JoinClause>): nat {
    if js == [] then 0 else Arity(js[0].on) + JoinsArity(js[1..])
  }

  function SelectArity(q: Select): nat {
    JoinsArity(q.joins) + Arity(q.where)
  }

  function Repeat(s: string, n: nat): seq<string> {
    if n == 0 then [] else [s] + Repeat(s, n - 1)
  }

  function Render(c: Cond): string {
    match c
    case ParamEq(col) => ColumnName(col) + " = ?"
    case LowerInParams(col, n) => "LOWER(" + ColumnName(col) + ") IN (" + Join(",", Repeat("?", n)) + ")"
    case LowerLikeParam(col) => "LOWER(" + ColumnName(col) + ") LIKE ?"
    case ColumnEq(a, b) => ColumnName(a) + " = " + ColumnName(b)
    case LowerColumnEq(a, b) => "LOWER(" + ColumnName(a) + ") = LOWER(" + ColumnName(b) + ")"
    case Or(l, r) => Render(l) + " OR " + Render(r)
    case And(l, r) => Render(l) + " AND " + Render(r)
    case Paren(c) => "(" + Render(c) + ")"
  }

  function RenderJoins(js: seq<JoinClause>): string {
    if js == [] then ""
    else " LEFT JOIN " + js[0].table + " " + js[0].alias + " ON " + Render(js[0].on) + RenderJoins(js[1..])
  }

  function RenderColumns(cols: seq<Column>): string {
    if cols == [] then ""
    else if |cols| == 1 then ColumnName(cols[0])
    else ColumnName(cols[0]) + ", " + RenderColumns(cols[1..])
  }

  /** The SQL text handed to `cursor.execute`. */
  function RenderSelect(q: Select): string {
    "SELECT " + RenderColumns(q.cols) + " FROM concept_map cm" + RenderJoins(q.joins)
    + " WHERE " + Render(q.where) + " LIMIT 1"
  }

  /** A `concept_map` row joined with at most one `topics` and one `concepts` row. */
  datatype Joined = Joined(cm: ConceptMapRow, t: Option<TopicsRow>, c: Option<ConceptsRow>)

  function ColumnValue(j: Joined, col: Column): string {
    match col
    case CmSubject => j.cm.subject
    case CmTopic => j.cm.topic
    case TSubject => if j.t.Some? then j.t.value.subject else ""
    case TName => if j.t.Some? then j.t.value.name else ""
    case CSubject => if j.c.Some? then j.c.value.subject else ""
    case CTopic => if j.c.Some? then j.c.value.topic else ""
    case _ => ""
  }

  /** The truth of a condition with its placeholders bound, left to right, to `ps`. */
  function Eval(c: Cond, ps: seq<string>, j: Joined, like: (string, string) -> bool): bool
    requires |ps| == Arity(c)
  {
    match c
    case ParamEq(col) => ColumnValue(j, col) == ps[0]
    case LowerInParams(col, n) => Lower(ColumnValue(j, col)) in ps
    case LowerLikeParam(col) => like(Lower(ColumnValue(j, col)), ps[0])
    case ColumnEq(a, b) => ColumnValue(j, a) == ColumnValue(j, b)
    case LowerColumnEq(a, b) => Lower(ColumnValue(j, a)) == Lower(ColumnValue(j, b))
    case Or(l, r) => Eval(l, ps[..Arity(l)], j, like) || Eval(r, ps[Arity(l)..], j, like)
    case And(l, r) => Eval(l, ps[..Arity(l)], j, like) && Eval(r, ps[Arity(l)..], j, like)
    case Paren(c) => Eval(c, ps, j, like)
  }

  /** `f"%{v}%"`. */
  function LikePattern(v: string): string {
    "%" + v + "%"
  }

  function LikePatterns(vs: seq<string>): (r: seq<string>)
    ensures |r| == |vs| && forall i :: 0 <= i < |vs| ==> r[i] == LikePattern(vs[i])
  {
    if vs == [] then [] else [LikePattern(vs[0])] + LikePatterns(vs[1..])
  }

  /** `" OR ".join(["LOWER(col) LIKE ?"] * n)`. */
  function LikeAny(col: Column, n: nat): (c: Cond)
    requires n >= 1
    ensures Arity(c) == n
  {
    if n == 1 then LowerLikeParam(col) else Or(LowerLikeParam(col), LikeAny(col, n - 1))
  }

  const ConceptColumns := [CmSubject, CmCategory, CmTopic, CmQuestionFocus]

  /** Stage 1: exact match of the lower-cased topic against every variant. */
  function ExactQuery(n: nat): Select {
    Select(ConceptColumns, [], And(ParamEq(CmSubject), LowerInParams(CmTopic, n)))
  }

  function ExactParams(subject: string, vs: seq<string>): seq<string> {
    [subject] + vs
  }

  /** Stage 2: `LIKE '%variant%'` against `concept_map.topic`. */
  function LikeQuery(n: nat): Select
    requires n >= 1
  {
    Select(ConceptColumns, [], And(ParamEq(CmSubject), Paren(LikeAny(CmTopic, n))))
  }

  function LikeParams(subject: string, vs: seq<string>): seq<string> {
    [subject] + LikePatterns(vs)
  }

  /** Stage 3: stage 2's filter with `topics` and `concepts` left-joined. */
  function JoinQuery(n: nat): Select
    requires n >= 1
  {
    Select(ConceptColumns + [TGradeLevel, CNotes],
      [JoinClause("topics", "t", JoinOn(TSubject, TName, n)), JoinClause("concepts", "c", JoinOn(CSubject, CTopic, n))],
      And(ParamEq(CmSubject), Paren(LikeAny(CmTopic, n))))
  }

  /** `subj = cm.subject AND (LOWER(name) = LOWER(cm.topic) OR name LIKE ? ...)`. */
  function JoinOn(subj: Column, name: Column, n: nat): (c: Cond)
    requires n >= 1
    ensures Arity(c) == n
  {
    var inner := Or(LowerColumnEq(name, CmTopic), LikeAny(name, n));
    assert Arity(inner) == n;
    And(ColumnEq(subj, CmSubject), Paren(inner))
  }

  function JoinParams(subject: string, vs: seq<string>): seq<string> {
    LikePatterns(vs) + LikePatterns(vs) + [subject] + LikePatterns(vs)
  }

  /** The WHERE clause of `q` holds of the row, with the parameters after those of
      the joins. */
  predicate WhereHolds(q: Select, ps: seq<string>, j: Joined, like: (string, string) -> bool)
    requires |ps| == SelectArity(q)
  {
    Eval(q.where, ps[JoinsArity(q.joins)..], j, like)
  }

  /** The ON clause of the `k`-th join holds, with its share of the parameters. */
  predicate OnHolds(q: Select, k: nat, ps: seq<string>, j: Joined, like: (string, string) -> bool)
    requires k < |q.joins| && |ps| == SelectArity(q)
  {
    JoinsArityPrefix(q.joins, k);
    var lo := JoinsArity(q.joins[..k]);
    Eval(q.joins[k].on, ps[lo..lo + Arity(q.joins[k].on)], j, like)
  }

  lemma JoinsArityPrefix(js: seq<JoinClause>, k: nat)
    requires k < |js|
    ensures JoinsArity(js[..k]) + Arity(js[k].on) <= JoinsArity(js)
  {
    if k > 0 {
      assert js[..k][1..] == js[1..][..k - 1];
      JoinsArityPrefix(js[1..], k - 1);
    }
  }

  // ---------------------------------------------------------------------------
  // Placeholders agree with parameters

  /** Helper: placeholder count of a three-part concatenation. */
  lemma Count3(a: string, b: string, c: string)
    ensures CountChar(a + b + c, '?') == CountChar(a, '?') + CountChar(b, '?') + CountChar(c, '?')
  {
    CountCharAppend(a, b, '?');
    CountCharAppend(a + b, c, '?');
  }

  /** Helper: a text without `?` has no placeholder. */
  lemma {:induction false} NoPlaceholder(s: string)
    requires NoMark(s)
    ensures CountChar(s, '?') == 0
  {
    if s != [] {
      assert forall i :: 0 <= i < |s| - 1 ==> s[1..][i] == s[i + 1];
      NoPlaceholder(s[1..]);
    }
  }

  /** Text without a `?` in it. */
  predicate NoMark(s: string) {
    forall i :: 0 <= i < |s| ==> s[i] != '?'
  }

  lemma ColumnNameNoPlaceholder(col: Column)
    ensures CountChar(ColumnName(col), '?') == 0
  {
    NoPlaceholder(ColumnName(col));
  }

  lemma ParamEqPlaceholders(col: Column)
    ensures CountChar(Render(ParamEq(col)), '?') == 1
  {
    ColumnNameNoPlaceholder(col);
    assert CountChar(" = ?", '?') == 1;
    CountCharAppend(ColumnName(col), " = ?", '?');
  }

  lemma LowerInPlaceholders(col: Column, n: nat)
    ensures CountChar(Render(LowerInParams(col, n)), '?') == n
  {
    ColumnNameNoPlaceholder(col);
    RepeatJoinPlaceholders(n);
    LowerOpenNoPlaceholder();
    InOpenNoPlaceholder();
    CloseNoPlaceholder();
    Count3("LOWER(", ColumnName(col), ") IN (");
    Count3("LOWER(" + ColumnName(col) + ") IN (", Join(",", Repeat("?", n)), ")");
  }

  lemma LowerLikePlaceholders(col: Column)
    ensures CountChar(Render(LowerLikeParam(col)), '?') == 1
  {
    ColumnNameNoPlaceholder(col);
    LowerOpenNoPlaceholder();
    assert CountChar(") LIKE ?", '?') == 1;
    Count3("LOWER(", ColumnName(col), ") LIKE ?");
  }

  lemma ColumnEqPlaceholders(a: Column, b: Column)
    ensures CountChar(Render(ColumnEq(a, b)), '?') == 0
  {
    ColumnNameNoPlaceholder(a);
    ColumnNameNoPlaceholder(b);
    EqualsNoPlaceholder();
    Count3(ColumnName(a), " = ", ColumnName(b));
  }

  lemma LowerColumnEqPlaceholders(a: Column, b: Column)
    ensures CountChar(Render(LowerColumnEq(a, b)), '?') == 0
  {
    ColumnNameNoPlaceholder(a);
    ColumnNameNoPlaceholder(b);
    LowerOpenNoPlaceholder();
    LowerEqNoPlaceholder();
    CloseNoPlaceholder();
    Count3("LOWER(", ColumnName(a), ") = LOWER(");
    Count3("LOWER(" + ColumnName(a) + ") = LOWER(", ColumnName(b), ")");
  }

  /** The rendered condition has one `?` per parameter it binds. */
  lemma {:induction false} RenderPlaceholders(c: Cond)
    ensures CountChar(Render(c), '?') == Arity(c)
  {
    match c
    case ParamEq(col) => ParamEqPlaceholders(col);
    case LowerInParams(col, n) => LowerInPlaceholders(col, n);
    case LowerLikeParam(col) => LowerLikePlaceholders(col);
    case ColumnEq(a, b) => ColumnEqPlaceholders(a, b);
    case LowerColumnEq(a, b) => LowerColumnEqPlaceholders(a, b);
    case Or(l, r) =>
      RenderPlaceholders(l);
      RenderPlaceholders(r);
      OrWordNoPlaceholder();
      Count3(Render(l), " OR ", Render(r));
    case And(l, r) =>
      RenderPlaceholders(l);
      RenderPlaceholders(r);
      AndWordNoPlaceholder();
      Count3(Render(l), " AND ", Render(r));
    case Paren(c') =>
      RenderPlaceholders(c');
      OpenNoPlaceholder();
      CloseNoPlaceholder();
      Count3("(", Render(c'), ")");
  }

  lemma {:induction false} RepeatJoinPlaceholders(n: nat)
    ensures CountChar(Join(",", Repeat("?", n)), '?') == n
  {
    if n == 1 {
      assert Repeat("?", 1) == ["?"];
      assert CountChar("?", '?') == 1;
    } else if n > 1 {
      RepeatJoinPlaceholders(n - 1);
      assert Repeat("?", n)[1..] == Repeat("?", n - 1);
      assert CountChar("?", '?') == 1;
      CommaNoPlaceholder();
      Count3("?", ",", Join(",", Repeat("?", n - 1)));
    }
  }

  lemma {:induction false} RenderColumnsPlaceholders(cols: seq<Column>)
    ensures CountChar(RenderColumns(cols), '?') == 0
  {
    if |cols| > 1 {
      RenderColumnsPlaceholders(cols[1..]);
      ColumnNameNoPlaceholder(cols[0]);
      CountCharAppend(ColumnName(cols[0]), ", ", '?');
      CountCharAppend(ColumnName(cols[0]) + ", ", RenderColumns(cols[1..]), '?');
    } else if |cols| == 1 {
      ColumnNameNoPlaceholder(cols[0]);
    }
  }

  lemma JoinClausePlaceholders(j: JoinClause, rest: string)
    requires NoMark(j.table) && NoMark(j.alias)
    ensures CountChar(" LEFT JOIN " + j.table + " " + j.alias + " ON " + Render(j.on) + rest, '?') == Arity(j.on) + CountChar(rest, '?')
  {
    RenderPlaceholders(j.on);
    NoPlaceholder(j.table);
    NoPlaceholder(j.alias);
    LeftJoinNoPlaceholder();
    SpaceNoPlaceholder();
    OnWordNoPlaceholder();
    Count7(" LEFT JOIN ", j.table, " ", j.alias, " ON ", Render(j.on), rest);
  }

  lemma {:induction false} RenderJoinsPlaceholders(js: seq<JoinClause>)
    requires forall k :: 0 <= k < |js| ==> NoMark(js[k].table) && NoMark(js[k].alias)
    ensures CountChar(RenderJoins(js), '?') == JoinsArity(js)
  {
    if js != [] {
      assert forall k :: 0 <= k < |js| - 1 ==> js[1..][k] == js[k + 1];
      RenderJoinsPlaceholders(js[1..]);
      JoinClausePlaceholders(js[0], RenderJoins(js[1..]));
    }
  }

  /** The rendered SQL has one `?` per placeholder of the query. */
  lemma SelectPlaceholders(q: Select)
    requires forall k :: 0 <= k < |q.joins| ==> NoMark(q.joins[k].table) && NoMark(q.joins[k].alias)
    ensures CountChar(RenderSelect(q), '?') == SelectArity(q)
  {
    RenderColumnsPlaceholders(q.cols);
    RenderJoinsPlaceholders(q.joins);
    RenderPlaceholders(q.where);
    SelectFrame(RenderColumns(q.cols), RenderJoins(q.joins), Render(q.where));
  }

  lemma SelectFrame(b: string, d: string, f: string)
    ensures CountChar("SELECT " + b + " FROM concept_map cm" + d + " WHERE " + f + " LIMIT 1", '?')
      == CountChar(b, '?') + CountChar(d, '?') + CountChar(f, '?')
  {
    KeywordsNoPlaceholder();
    Count7("SELECT ", b, " FROM concept_map cm", d, " WHERE ", f, " LIMIT 1");
  }

  lemma KeywordsNoPlaceholder()
    ensures CountChar("SELECT ", '?') == 0 && CountChar(" FROM concept_map cm", '?') == 0
    ensures CountChar(" WHERE ", '?') == 0 && CountChar(" LIMIT 1", '?') == 0
  {
    SelectNoPlaceholder();
    FromNoPlaceholder();
    WhereNoPlaceholder();
    LimitNoPlaceholder();
  }

  // The fixed SQL fragments of the three queries hold no `?`: one lemma per
  // literal, so that each string is unfolded in a proof of its own.

  lemma LowerOpenNoPlaceholder() ensures CountChar("LOWER(", '?') == 0 { NoPlaceholder("LOWER("); }
  lemma InOpenNoPlaceholder() ensures CountChar(") IN (", '?') == 0 { NoPlaceholder(") IN ("); }
  lemma CloseNoPlaceholder() ensures CountChar(")", '?') == 0 { NoPlaceholder(")"); }
  lemma LowerEqNoPlaceholder() ensures CountChar(") = LOWER(", '?') == 0 { NoPlaceholder(") = LOWER("); }
  lemma EqualsNoPlaceholder() ensures CountChar(" = ", '?') == 0 { NoPlaceholder(" = "); }
  lemma OrWordNoPlaceholder() ensures CountChar(" OR ", '?') == 0 { NoPlaceholder(" OR "); }
  lemma AndWordNoPlaceholder() ensures CountChar(" AND ", '?') == 0 { NoPlaceholder(" AND "); }
  lemma OpenNoPlaceholder() ensures CountChar("(", '?') == 0 { NoPlaceholder("("); }
  lemma CommaNoPlaceholder() ensures CountChar(",", '?') == 0 { NoPlaceholder(","); }
  lemma LeftJoinNoPlaceholder() ensures CountChar(" LEFT JOIN ", '?') == 0 { NoPlaceholder(" LEFT JOIN "); }
  lemma SpaceNoPlaceholder() ensures CountChar(" ", '?') == 0 { NoPlaceholder(" "); }
  lemma OnWordNoPlaceholder() ensures CountChar(" ON ", '?') == 0 { NoPlaceholder(" ON "); }
  lemma SelectNoPlaceholder() ensures CountChar("SELECT ", '?') == 0 { NoPlaceholder("SELECT "); }
  lemma FromNoPlaceholder() ensures CountChar(" FROM concept_map cm", '?') == 0 { NoPlaceholder(" FROM concept_map cm"); }
  lemma WhereNoPlaceholder() ensures CountChar(" WHERE ", '?') == 0 { NoPlaceholder(" WHERE "); }
  lemma LimitNoPlaceholder() ensures CountChar(" LIMIT 1", '?') == 0 { NoPlaceholder(" LIMIT 1"); }

  /** Helper: placeholder count of a seven-part concatenation. */
  lemma Count7(a: string, b: string, c: string, d: string, e: string, f: string, g: string)
    ensures CountChar(a + b + c + d + e + f + g, '?') == CountChar(a, '?') + CountChar(b, '?') + CountChar(c, '?')
      + CountChar(d, '?') + CountChar(e, '?') + CountChar(f, '?') + CountChar(g, '?')
  {
    Count3(a, b, c);
    Count3(a + b + c, d, e);
    Count3(a + b + c + d + e, f, g);
  }

  /** Helper: placeholder count of a five-part concatenation. */
  lemma Count5(a: string, b: string, c: string, d: string, e: string)
    ensures CountChar(a + b + c + d + e, '?') == CountChar(a, '?') + CountChar(b, '?') + CountChar(c, '?')
      + CountChar(d, '?') + CountChar(e, '?')
  {
    Count3(a, b, c);
    Count3(a + b + c, d, e);
  }

  /** Helper: the shape of stage 3's joins. */
  lemma JoinQueryShape(n: nat)
    requires n >= 1
    ensures |JoinQuery(n).joins| == 2
    ensures JoinQuery(n).joins[0].on == JoinOn(TSubject, TName, n)
    ensures JoinQuery(n).joins[1].on == JoinOn(CSubject, CTopic, n)
    ensures JoinsArity(JoinQuery(n).joins) == 2 * n
    ensures forall k :: 0 <= k < 2 ==> NoMark(JoinQuery(n).joins[k].table) && NoMark(JoinQuery(n).joins[k].alias)
  {
    var js := JoinQuery(n).joins;
    assert js[1..][1..] == [];
    assert JoinsArity(js[1..]) == n;
    TablesNoMark();
  }

  lemma TablesNoMark()
    ensures NoMark("topics") && NoMark("t") && NoMark("concepts") && NoMark("c")
  {
  }

  /** Helper: the number of placeholders in each stage's query. */
  lemma QueryArities(n: nat)
    ensures SelectArity(ExactQuery(n)) == 1 + n
    ensures n >= 1 ==> SelectArity(LikeQuery(n)) == 1 + n
    ensures n >= 1 ==> SelectArity(JoinQuery(n)) == 3 * n + 1
  {
    assert JoinsArity([]) == 0;
    assert Arity(And(ParamEq(CmSubject), LowerInParams(CmTopic, n))) == 1 + n;
    if n >= 1 {
      assert Arity(Paren(LikeAny(CmTopic, n))) == n;
      assert Arity(And(ParamEq(CmSubject), Paren(LikeAny(CmTopic, n)))) == 1 + n;
      JoinQueryShape(n);
    }
  }

  /** Each stage passes exactly as many parameters as its SQL has placeholders:
      `1 + n` in stages 1 and 2 and `3n + 1` in stage 3. */
  lemma ParameterCounts(subject: string, vs: seq<string>)
    requires |vs| >= 1
    ensures CountChar(RenderSelect(ExactQuery(|vs|)), '?') == |ExactParams(subject, vs)| == 1 + |vs|
    ensures CountChar(RenderSelect(LikeQuery(|vs|)), '?') == |LikeParams(subject, vs)| == 1 + |vs|
    ensures CountChar(RenderSelect(JoinQuery(|vs|)), '?') == |JoinParams(subject, vs)| == 3 * |vs| + 1
  {
    QueryArities(|vs|);
    SelectPlaceholders(ExactQuery(|vs|));
    SelectPlaceholders(LikeQuery(|vs|));
    JoinQueryShape(|vs|);
    SelectPlaceholders(JoinQuery(|vs|));
  }

  // ---------------------------------------------------------------------------
  // Parameters are bound to the intended placeholders

  /** Stage 1 keeps a row exactly when its subject is the requested one and its
      lower-cased topic is a variant. */
  predicate ExactMatch(row: ConceptMapRow, subject: string, vs: seq<string>) {
    row.subject == subject && Lower(row.topic) in vs
  }

  /** Stages 2 and 3 keep a row exactly when its subject is the requested one and
      its lower-cased topic is LIKE some `%variant%`. */
  predicate LikeMatch(row: ConceptMapRow, subject: string, vs: seq<string>, like: (string, string) -> bool) {
    row.subject == subject && exists i :: 0 <= i < |vs| && like(Lower(row.topic), LikePattern(vs[i]))
  }

  lemma {:induction false} LikeAnyEval(col: Column, ps: seq<string>, j: Joined, like: (string, string) -> bool)
    requires |ps| >= 1
    ensures Eval(LikeAny(col, |ps|), ps, j, like) <==> exists i :: 0 <= i < |ps| && like(Lower(ColumnValue(j, col)), ps[i])
  {
    if |ps| > 1 {
      LikeAnyEval(col, ps[1..], j, like);
      assert ps[..1] == [ps[0]];
      assert forall i :: 1 <= i < |ps| ==> ps[i] == ps[1..][i - 1];
    }
  }

  lemma ExactBinding(subject: string, vs: seq<string>, j: Joined, like: (string, string) -> bool)
    ensures |ExactParams(subject, vs)| == SelectArity(ExactQuery(|vs|))
    ensures WhereHolds(ExactQuery(|vs|), ExactParams(subject, vs), j, like) <==> ExactMatch(j.cm, subject, vs)
  {
    QueryArities(|vs|);
    var ps := ExactParams(subject, vs);
    var w := ExactQuery(|vs|).where;
    assert ps[0..] == ps;
    assert ps[..1] == [subject] && ps[1..] == vs;
    assert WhereHolds(ExactQuery(|vs|), ps, j, like) == Eval(w, ps, j, like);
    assert Eval(w, ps, j, like) == (Eval(ParamEq(CmSubject), [subject], j, like) && Eval(LowerInParams(CmTopic, |vs|), vs, j, like));
  }

  lemma LikeBinding(subject: string, vs: seq<string>, j: Joined, like: (string, string) -> bool)
    requires |vs| >= 1
    ensures |LikeParams(subject, vs)| == SelectArity(LikeQuery(|vs|))
    ensures WhereHolds(LikeQuery(|vs|), LikeParams(subject, vs), j, like) <==> LikeMatch(j.cm, subject, vs, like)
  {
    QueryArities(|vs|);
    var ps := LikeParams(subject, vs);
    assert ps[0..] == ps;
    var w := LikeQuery(|vs|).where;
    assert ps[..1] == [subject] && ps[1..] == LikePatterns(vs);
    assert WhereHolds(LikeQuery(|vs|), ps, j, like) == Eval(w, ps, j, like);
    assert Eval(w, ps, j, like) == (Eval(ParamEq(CmSubject), [subject], j, like) && Eval(LikeAny(CmTopic, |vs|), LikePatterns(vs), j, like));
    LikeAnyEval(CmTopic, LikePatterns(vs), j, like);
  }

  /** A join's ON clause: the joined row has the same subject and its name
      matches the topic exactly (ignoring case) or LIKE some pattern. */
  lemma JoinOnEval(subj: Column, name: Column, ps: seq<string>, j: Joined, like: (string, string) -> bool)
    requires |ps| >= 1
    ensures Eval(JoinOn(subj, name, |ps|), ps, j, like) <==>
      ColumnValue(j, subj) == j.cm.subject
      && (Lower(ColumnValue(j, name)) == Lower(j.cm.topic) || exists i :: 0 <= i < |ps| && like(Lower(ColumnValue(j, name)), ps[i]))
  {
    var n := |ps|;
    var inner := Or(LowerColumnEq(name, CmTopic), LikeAny(name, n));
    assert Arity(inner) == n;
    assert Arity(Paren(inner)) == n;
    EvalLeftClosed(ColumnEq(subj, CmSubject), Paren(inner), ps, j, like);
    EvalLeftClosed(LowerColumnEq(name, CmTopic), LikeAny(name, n), ps, j, like);
    LikeAnyEval(name, ps, j, like);
  }

  /** An `AND` or `OR` whose left side takes no parameter passes them all to its
      right side. */
  lemma EvalLeftClosed(l: Cond, r: Cond, ps: seq<string>, j: Joined, like: (string, string) -> bool)
    requires Arity(l) == 0 && |ps| == Arity(r)
    ensures Eval(And(l, r), ps, j, like) == (Eval(l, [], j, like) && Eval(r, ps, j, like))
    ensures Eval(Or(l, r), ps, j, like) == (Eval(l, [], j, like) || Eval(r, ps, j, like))
  {
    assert ps[..0] == [] && ps[0..] == ps;
  }

  /** Helper: some pattern of `LikePatterns(vs)` matches iff some variant's
      `%variant%` does. */
  lemma LikePatternsAny(value: string, vs: seq<string>, like: (string, string) -> bool)
    ensures (exists i :: 0 <= i < |LikePatterns(vs)| && like(value, LikePatterns(vs)[i]))
      <==> (exists i :: 0 <= i < |vs| && like(value, LikePattern(vs[i])))
  {
    if exists i :: 0 <= i < |vs| && like(value, LikePattern(vs[i])) {
      var i :| 0 <= i < |vs| && like(value, LikePattern(vs[i]));
      assert LikePatterns(vs)[i] == LikePattern(vs[i]);
      assert 0 <= i < |LikePatterns(vs)| && like(value, LikePatterns(vs)[i]);
    }
  }

  /** Stage 3's WHERE clause receives the subject and the last `n` patterns, so it
      keeps exactly the rows stage 2 keeps. */
  lemma JoinWhereBinding(subject: string, vs: seq<string>, j: Joined, like: (string, string) -> bool)
    requires |vs| >= 1
    ensures |JoinParams(subject, vs)| == SelectArity(JoinQuery(|vs|))
    ensures WhereHolds(JoinQuery(|vs|), JoinParams(subject, vs), j, like) <==> LikeMatch(j.cm, subject, vs, like)
  {
    var n := |vs|;
    QueryArities(n);
    JoinQueryShape(n);
    JoinWhereIsLikeWhere(subject, vs, j, like);
    LikeBinding(subject, vs, j, like);
  }

  /** The join query's filter reads the same parameters as the LIKE query's. */
  lemma JoinWhereIsLikeWhere(subject: string, vs: seq<string>, j: Joined, like: (string, string) -> bool)
    requires |vs| >= 1
    requires |JoinParams(subject, vs)| == SelectArity(JoinQuery(|vs|))
    requires |LikeParams(subject, vs)| == SelectArity(LikeQuery(|vs|))
    ensures WhereHolds(JoinQuery(|vs|), JoinParams(subject, vs), j, like)
        == WhereHolds(LikeQuery(|vs|), LikeParams(subject, vs), j, like)
  {
    var n := |vs|;
    JoinQueryShape(n);
    var p := LikePatterns(vs);
    assert |p| == n;
    DropTwo(p, p, [subject], p);
    assert JoinParams(subject, vs)[2 * n..] == LikeParams(subject, vs);
    assert LikeParams(subject, vs)[0..] == LikeParams(subject, vs);
  }

  lemma DropTwo<T>(a: seq<T>, b: seq<T>, c: seq<T>, d: seq<T>)
    ensures (a + b + c + d)[|a| + |b|..] == c + d
  {
  }

  lemma SliceFirst<T>(a: seq<T>, b: seq<T>, c: seq<T>, d: seq<T>)
    ensures (a + b + c + d)[0..|a|] == a
  {
  }

  lemma SliceSecond<T>(a: seq<T>, b: seq<T>, c: seq<T>, d: seq<T>)
    ensures (a + b + c + d)[|a|..|a| + |b|] == b
  {
  }

  /** The `topics` join receives the first `n` patterns: it joins a topic with the
      same subject whose name equals the concept's topic ignoring case or is LIKE
      some `%variant%`. */
  lemma JoinTopicsBinding(subject: string, vs: seq<string>, j: Joined, like: (string, string) -> bool)
    requires |vs| >= 1
    ensures |JoinParams(subject, vs)| == SelectArity(JoinQuery(|vs|))
    ensures OnHolds(JoinQuery(|vs|), 0, JoinParams(subject, vs), j, like) <==>
      ColumnValue(j, TSubject) == j.cm.subject
      && (Lower(ColumnValue(j, TName)) == Lower(j.cm.topic)
          || exists i :: 0 <= i < |vs| && like(Lower(ColumnValue(j, TName)), LikePattern(vs[i])))
  {
    var n := |vs|;
    QueryArities(n);
    JoinQueryShape(n);
    var q := JoinQuery(n);
    var lp := LikePatterns(vs);
    var ps := JoinParams(subject, vs);
    assert q.joins[..0] == [];
    SliceFirst(lp, lp, [subject], lp);
    assert ps[0..0 + n] == lp;
    assert OnHolds(q, 0, ps, j, like) == Eval(JoinOn(TSubject, TName, n), lp, j, like);
    JoinOnEval(TSubject, TName, lp, j, like);
    LikePatternsAny(Lower(ColumnValue(j, TName)), vs, like);
  }

  /** The `concepts` join receives the second `n` patterns, with the same
      meaning for `concepts.topic`. */
  lemma JoinConceptsBinding(subject: string, vs: seq<string>, j: Joined, like: (string, string) -> bool)
    requires |vs| >= 1
    ensures |JoinParams(subject, vs)| == SelectArity(JoinQuery(|vs|))
    ensures OnHolds(JoinQuery(|vs|), 1, JoinParams(subject, vs), j, like) <==>
      ColumnValue(j, CSubject) == j.cm.subject
      && (Lower(ColumnValue(j, CTopic)) == Lower(j.cm.topic)
          || exists i :: 0 <= i < |vs| && like(Lower(ColumnValue(j, CTopic)), LikePattern(vs[i])))
  {
    var n := |vs|;
    QueryArities(n);
    JoinQueryShape(n);
    var q := JoinQuery(n);
    var lp := LikePatterns(vs);
    var ps := JoinParams(subject, vs);
    assert q.joins[..1] == [q.joins[0]];
    assert q.joins[..1][1..] == [];
    assert JoinsArity(q.joins[..1]) == n;
    SliceSecond(lp, lp, [subject], lp);
    assert ps[n..n + n] == lp;
    assert OnHolds(q, 1, ps, j, like) == Eval(JoinOn(CSubject, CTopic, n), lp, j, like);
    JoinOnEval(CSubject, CTopic, lp, j, like);
    LikePatternsAny(Lower(ColumnValue(j, CTopic)), vs, like);
  }

  /** Stage 3 filters `concept_map` exactly as stage 2 does (the LEFT JOINs keep
      every row), so unless stage 2 raised it cannot find a row stage 2 missed. */
  lemma JoinStageAddsNothing(subject: string, vs: seq<string>, rows: seq<ConceptMapRow>, like: (string, string) -> bool)
    requires |vs| >= 1
    ensures |JoinParams(subject, vs)| == SelectArity(JoinQuery(|vs|))
    ensures |LikeParams(subject, vs)| == SelectArity(LikeQuery(|vs|))
    ensures forall row, t, c ::
              row in rows && WhereHolds(JoinQuery(|vs|), JoinParams(subject, vs), Joined(row, t, c), like)
              ==> WhereHolds(LikeQuery(|vs|), LikeParams(subject, vs), Joined(row, None, None), like)
  {
    JoinWhereBinding(subject, vs, Joined(ConceptMapRow("", None, "", None), None, None), like);
    LikeBinding(subject, vs, Joined(ConceptMapRow("", None, "", None), None, None), like);
    forall row, t, c | row in rows && WhereHolds(JoinQuery(|vs|), JoinParams(subject, vs), Joined(row, t, c), like)
      ensures WhereHolds(LikeQuery(|vs|), LikeParams(subject, vs), Joined(row, None, None), like)
    {
      JoinWhereBinding(subject, vs, Joined(row, t, c), like);
      LikeBinding(subject, vs, Joined(row, None, None), like);
    }
  }

  // ---------------------------------------------------------------------------
  // The cascade

  /** The dict a stage returns for a `concept_map` row. */
  function ConceptOf(row: ConceptMapRow, extra: Option<JoinExtra>): Concept {
    Concept(row.subject, row.category, row.topic, row.questionFocus, extra)
  }

  /** `t.grade_level` and `c.notes`, NULL where the LEFT JOIN found nothing. */
  function ExtraOf(t: Option<TopicsRow>, c: Option<ConceptsRow>): JoinExtra {
    JoinExtra(if t.Some? then t.value.gradeLevel else None, if c.Some? then c.value.notes else None)
  }

  /** The WHERE clause of `q`, with parameters `ps`, keeps the joined row. */
  predicate Keeps(q: Select, ps: seq<string>, j: Joined, like: (string, string) -> bool) {
    |ps| == SelectArity(q) && WhereHolds(q, ps, j, like)
  }

  /** A row that a join-free query returns. */
  predicate PlainHit(q: Select, ps: seq<string>, rows: seq<ConceptMapRow>, row: ConceptMapRow, like: (string, string) -> bool) {
    row in rows && Keeps(q, ps, Joined(row, None, None), like)
  }

  /** `LEFT JOIN topics`: `t` is a topics row satisfying the first ON clause, or
      NULL when no row does. */
  predicate TopicsJoin(q: Select, ps: seq<string>, row: ConceptMapRow, ts: seq<TopicsRow>, t: Option<TopicsRow>, like: (string, string) -> bool)
    requires |q.joins| >= 1 && |ps| == SelectArity(q)
  {
    match t
    case Some(tr) => tr in ts && OnHolds(q, 0, ps, Joined(row, t, None), like)
    case None => forall tr :: tr in ts ==> !OnHolds(q, 0, ps, Joined(row, Some(tr), None), like)
  }

  /** `LEFT JOIN concepts`: `c` is a concepts row satisfying the second ON clause,
      or NULL when no row does. */
  predicate ConceptsJoin(q: Select, ps: seq<string>, row: ConceptMapRow, cs: seq<ConceptsRow>, c: Option<ConceptsRow>, like: (string, string) -> bool)
    requires |q.joins| >= 2 && |ps| == SelectArity(q)
  {
    match c
    case Some(cr) => cr in cs && OnHolds(q, 1, ps, Joined(row, None, c), like)
    case None => forall cr :: cr in cs ==> !OnHolds(q, 1, ps, Joined(row, None, Some(cr)), like)
  }

  /** NULL, or any row of a joined table. */
  function Choices<T(!new)>(xs: seq<T>): (r: seq<Option<T>>)
    ensures forall o :: o in r <==> o.None? || o.value in xs
  {
    if xs == [] then [None] else Choices(xs[..|xs| - 1]) + [Some(xs[|xs| - 1])]
  }

  /** A row of stage 3's result: all three tables exist, `row` is joined with `t`
      and `c`, and the WHERE clause keeps the combination. */
  predicate JoinHit(db: Database, q: Select, ps: seq<string>, row: ConceptMapRow, t: Option<TopicsRow>, c: Option<ConceptsRow>, like: (string, string) -> bool) {
    db.conceptMap.Some? && db.topics.Some? && db.concepts.Some?
    && |q.joins| >= 2 && |ps| == SelectArity(q)
    && row in db.conceptMap.value
    && TopicsJoin(q, ps, row, db.topics.value, t, like)
    && ConceptsJoin(q, ps, row, db.concepts.value, c, like)
    && Keeps(q, ps, Joined(row, t, c), like)
  }

  /** Stage 1 finds a row. */
  ghost predicate ExactFound(db: Database, subject: string, vs: seq<string>, like: (string, string) -> bool) {
    db.conceptMap.Some? && exists row :: PlainHit(ExactQuery(|vs|), ExactParams(subject, vs), db.conceptMap.value, row, like)
  }

  /** Stage 2 finds a row. */
  ghost predicate LikeFound(db: Database, subject: string, vs: seq<string>, like: (string, string) -> bool)
    requires |vs| >= 1
  {
    db.conceptMap.Some? && exists row :: PlainHit(LikeQuery(|vs|), LikeParams(subject, vs), db.conceptMap.value, row, like)
  }

  /** Stage 3 finds a row. */
  ghost predicate JoinFound(db: Database, subject: string, vs: seq<string>, like: (string, string) -> bool)
    requires |vs| >= 1
  {
    exists row, t, c :: JoinHit(db, JoinQuery(|vs|), JoinParams(subject, vs), row, t, c, like)
  }

  /** The outcomes `get_concept` can have for the variant list `vs`. A stage whose
      table is missing raises, which the function swallows before moving on;
      `LIMIT 1` without `ORDER BY` returns some matching row, so any matching
      row is a possible answer. */
  ghost predicate Outcome(db: Database, subject: string, vs: seq<string>, like: (string, string) -> bool, r: Result<Option<Concept>, DbError>)
    requires |vs| >= 1
  {
    if !db.fileExists then r == Err(DatabaseNotFound)
    else if ExactFound(db, subject, vs, like) then
      exists row :: PlainHit(ExactQuery(|vs|), ExactParams(subject, vs), db.conceptMap.value, row, like) && r == Ok(Some(ConceptOf(row, None)))
    else if LikeFound(db, subject, vs, like) then
      exists row :: PlainHit(LikeQuery(|vs|), LikeParams(subject, vs), db.conceptMap.value, row, like) && r == Ok(Some(ConceptOf(row, None)))
    else if JoinFound(db, subject, vs, like) then
      exists row, t, c :: JoinHit(db, JoinQuery(|vs|), JoinParams(subject, vs), row, t, c, like) && r == Ok(Some(ConceptOf(row, Some(ExtraOf(t, c)))))
    else r == Ok(None)
  }

  /** `get_concept(topic, subject)`: exact variants, then `LIKE '%variant%'`, then
      the same filter with `topics` and `concepts` joined; `None` when all three
      find nothing. */
  method GetConcept(db: Database, topic: Option<string>, subject: string, like: (string, string) -> bool)
    returns (r: Result<Option<Concept>, DbError>)
    ensures Outcome(db, subject, Variants(topic), like, r)
  {
    r := Lookup(db, subject, Variants(topic), like);
  }

  /** `get_concept` for the variant list `vs`: a missing database file raises,
      a missing `concept_map` table finds nothing. */
  method Lookup(db: Database, subject: string, vs: seq<string>, like: (string, string) -> bool)
    returns (r: Result<Option<Concept>, DbError>)
    requires |vs| >= 1
    ensures Outcome(db, subject, vs, like, r)
  {
    if !db.fileExists {
      return Err(DatabaseNotFound);
    }
    if db.conceptMap.None? {
      StageNone(db, subject, vs, like);
      return Ok(None);
    }
    r := ExactStage(db, subject, vs, like);
  }

  /** Stage 1 of `get_concept`: the topic column equals one of the variants. */
  method ExactStage(db: Database, subject: string, vs: seq<string>, like: (string, string) -> bool)
    returns (r: Result<Option<Concept>, DbError>)
    requires |vs| >= 1 && db.fileExists && db.conceptMap.Some?
    ensures Outcome(db, subject, vs, like, r)
  {
    var rows := db.conceptMap.value;
    var exact, exactParams := ExactQuery(|vs|), ExactParams(subject, vs);
    if exists row :: row in rows && PlainHit(exact, exactParams, rows, row, like) {
      var row :| row in rows && PlainHit(exact, exactParams, rows, row, like);
      StageExact(db, subject, vs, like, row);
      return Ok(Some(ConceptOf(row, None)));
    }
    r := FuzzyStage(db, subject, vs, like);
  }

  /** Stage 2 of `get_concept`: the topic column contains one of the variants. */
  method FuzzyStage(db: Database, subject: string, vs: seq<string>, like: (string, string) -> bool)
    returns (r: Result<Option<Concept>, DbError>)
    requires |vs| >= 1 && db.fileExists && db.conceptMap.Some?
    requires !exists row :: row in db.conceptMap.value && PlainHit(ExactQuery(|vs|), ExactParams(subject, vs), db.conceptMap.value, row, like)
    ensures Outcome(db, subject, vs, like, r)
  {
    var rows := db.conceptMap.value;
    QueryArities(|vs|);
    var fuzzy, fuzzyParams := LikeQuery(|vs|), LikeParams(subject, vs);
    if exists row :: row in rows && PlainHit(fuzzy, fuzzyParams, rows, row, like) {
      var row :| row in rows && PlainHit(fuzzy, fuzzyParams, rows, row, like);
      StageLike(db, subject, vs, like, row);
      return Ok(Some(ConceptOf(row, None)));
    }
    r := JoinStage(db, subject, vs, like);
  }

  /** Stage 3 of `get_concept`: stage 2's filter with `topics` and `concepts`
      left-joined. */
  method JoinStage(db: Database, subject: string, vs: seq<string>, like: (string, string) -> bool)
    returns (r: Result<Option<Concept>, DbError>)
    requires |vs| >= 1 && db.fileExists && db.conceptMap.Some?
    requires !exists row :: row in db.conceptMap.value && PlainHit(ExactQuery(|vs|), ExactParams(subject, vs), db.conceptMap.value, row, like)
    requires !exists row :: row in db.conceptMap.value && PlainHit(LikeQuery(|vs|), LikeParams(subject, vs), db.conceptMap.value, row, like)
    ensures Outcome(db, subject, vs, like, r)
  {
    if db.topics.Some? && db.concepts.Some? {
      QueryArities(|vs|);
      var rows, ts, cs := db.conceptMap.value, Choices(db.topics.value), Choices(db.concepts.value);
      var joined, joinedParams := JoinQuery(|vs|), JoinParams(subject, vs);
      if exists row, t, c :: row in rows && t in ts && c in cs && JoinHit(db, joined, joinedParams, row, t, c, like) {
        var row, t, c :| row in rows && t in ts && c in cs && JoinHit(db, joined, joinedParams, row, t, c, like);
        StageJoin(db, subject, vs, like, row, t, c);
        return Ok(Some(ConceptOf(row, Some(ExtraOf(t, c)))));
      }
      JoinHitsChosen(db, subject, vs, like);
    }
    StageNone(db, subject, vs, like);
    return Ok(None);
  }

  /** Helper: a stage-1 row is an outcome. */
  lemma StageExact(db: Database, subject: string, vs: seq<string>, like: (string, string) -> bool, row: ConceptMapRow)
    requires |vs| >= 1 && db.fileExists && db.conceptMap.Some?
    requires PlainHit(ExactQuery(|vs|), ExactParams(subject, vs), db.conceptMap.value, row, like)
    ensures Outcome(db, subject, vs, like, Ok(Some(ConceptOf(row, None))))
  {
    assert ExactFound(db, subject, vs, like);
  }

  /** Helper: when stage 1 finds nothing, a stage-2 row is an outcome. */
  lemma StageLike(db: Database, subject: string, vs: seq<string>, like: (string, string) -> bool, row: ConceptMapRow)
    requires |vs| >= 1 && db.fileExists && db.conceptMap.Some?
    requires !exists row :: row in db.conceptMap.value && PlainHit(ExactQuery(|vs|), ExactParams(subject, vs), db.conceptMap.value, row, like)
    requires PlainHit(LikeQuery(|vs|), LikeParams(subject, vs), db.conceptMap.value, row, like)
    ensures Outcome(db, subject, vs, like, Ok(Some(ConceptOf(row, None))))
  {
    assert !ExactFound(db, subject, vs, like);
    assert LikeFound(db, subject, vs, like);
  }

  /** Helper: when stages 1 and 2 find nothing, a stage-3 row is an outcome. */
  lemma StageJoin(db: Database, subject: string, vs: seq<string>, like: (string, string) -> bool, row: ConceptMapRow, t: Option<TopicsRow>, c: Option<ConceptsRow>)
    requires |vs| >= 1 && db.fileExists && db.conceptMap.Some?
    requires !exists row :: row in db.conceptMap.value && PlainHit(ExactQuery(|vs|), ExactParams(subject, vs), db.conceptMap.value, row, like)
    requires !exists row :: row in db.conceptMap.value && PlainHit(LikeQuery(|vs|), LikeParams(subject, vs), db.conceptMap.value, row, like)
    requires JoinHit(db, JoinQuery(|vs|), JoinParams(subject, vs), row, t, c, like)
    ensures Outcome(db, subject, vs, like, Ok(Some(ConceptOf(row, Some(ExtraOf(t, c))))))
  {
    assert !ExactFound(db, subject, vs, like);
    assert !LikeFound(db, subject, vs, like);
    assert JoinFound(db, subject, vs, like);
  }

  /** Helper: every stage-3 row draws its topic and concept from `Choices`. */
  lemma JoinHitsChosen(db: Database, subject: string, vs: seq<string>, like: (string, string) -> bool)
    requires |vs| >= 1 && db.conceptMap.Some? && db.topics.Some? && db.concepts.Some?
    requires !exists row, t, c :: (row in db.conceptMap.value && t in Choices(db.topics.value) && c in Choices(db.concepts.value)
      && JoinHit(db, JoinQuery(|vs|), JoinParams(subject, vs), row, t, c, like))
    ensures !JoinFound(db, subject, vs, like)
  {
    forall row, t, c | JoinHit(db, JoinQuery(|vs|), JoinParams(subject, vs), row, t, c, like)
      ensures row in db.conceptMap.value && t in Choices(db.topics.value) && c in Choices(db.concepts.value)
    {
    }
  }

  /** Helper: when no stage finds a row, the outcome is `None`. */
  lemma StageNone(db: Database, subject: string, vs: seq<string>, like: (string, string) -> bool)
    requires |vs| >= 1 && db.fileExists
    requires db.conceptMap.Some? ==> !exists row :: row in db.conceptMap.value && PlainHit(ExactQuery(|vs|), ExactParams(subject, vs), db.conceptMap.value, row, like)
    requires db.conceptMap.Some? ==> !exists row :: row in db.conceptMap.value && PlainHit(LikeQuery(|vs|), LikeParams(subject, vs), db.conceptMap.value, row, like)
    requires !(db.topics.Some? && db.concepts.Some?) || !JoinFound(db, subject, vs, like)
    ensures Outcome(db, subject, vs, like, Ok(None))
  {
    assert !ExactFound(db, subject, vs, like);
    assert !LikeFound(db, subject, vs, like);
  }

  /** A missing database file raises; otherwise `get_concept` returns a value. */
  lemma OutcomeFileMissing(db: Database, subject: string, vs: seq<string>, like: (string, string) -> bool, r: Result<Option<Concept>, DbError>)
    requires |vs| >= 1 && Outcome(db, subject, vs, like, r)
    ensures r.Err? <==> !db.fileExists
  {
  }

  /** Helper: a stage-3 row passes stage 2's filter. */
  lemma JoinHitIsLikeHit(db: Database, subject: string, vs: seq<string>, like: (string, string) -> bool)
    requires |vs| >= 1
    ensures forall row, t, c :: JoinHit(db, JoinQuery(|vs|), JoinParams(subject, vs), row, t, c, like) ==>
      db.conceptMap.Some? && PlainHit(LikeQuery(|vs|), LikeParams(subject, vs), db.conceptMap.value, row, like)
  {
    QueryArities(|vs|);
    forall row, t, c | JoinHit(db, JoinQuery(|vs|), JoinParams(subject, vs), row, t, c, like)
      ensures db.conceptMap.Some? && PlainHit(LikeQuery(|vs|), LikeParams(subject, vs), db.conceptMap.value, row, like)
    {
      JoinWhereBinding(subject, vs, Joined(row, t, c), like);
      LikeBinding(subject, vs, Joined(row, None, None), like);
    }
  }

  /** Stage 3 never contributes: a concept carrying `grade_level` and `notes` is
      never returned, because any row stage 3 could return stage 2 returns first. */
  lemma OutcomeNeverJoined(db: Database, subject: string, vs: seq<string>, like: (string, string) -> bool, r: Result<Option<Concept>, DbError>)
    requires |vs| >= 1 && Outcome(db, subject, vs, like, r)
    ensures r.Ok? && r.value.Some? ==> r.value.value.extra.None?
  {
    JoinHitIsLikeHit(db, subject, vs, like);
  }

  /** Any concept returned comes from a `concept_map` row of the requested
      subject whose lower-cased topic is a variant or LIKE some `%variant%`. */
  lemma OutcomeFound(db: Database, subject: string, vs: seq<string>, like: (string, string) -> bool, r: Result<Option<Concept>, DbError>)
    requires |vs| >= 1 && Outcome(db, subject, vs, like, r)
    requires r.Ok? && r.value.Some?
    ensures db.conceptMap.Some?
    ensures exists row :: row in db.conceptMap.value && r.value.value == ConceptOf(row, None) &&
              (ExactMatch(row, subject, vs) || LikeMatch(row, subject, vs, like))
    ensures r.value.value.subject == subject
  {
    JoinHitIsLikeHit(db, subject, vs, like);
    QueryArities(|vs|);
    var row :| row in db.conceptMap.value && r.value.value == ConceptOf(row, None)
      && (PlainHit(ExactQuery(|vs|), ExactParams(subject, vs), db.conceptMap.value, row, like)
          || PlainHit(LikeQuery(|vs|), LikeParams(subject, vs), db.conceptMap.value, row, like));
    ExactBinding(subject, vs, Joined(row, None, None), like);
    LikeBinding(subject, vs, Joined(row, None, None), like);
  }

  /** When some row matches a variant exactly, stage 1 answers with such a row. */
  lemma OutcomeExact(db: Database, subject: string, vs: seq<string>, like: (string, string) -> bool, r: Result<Option<Concept>, DbError>)
    requires |vs| >= 1 && Outcome(db, subject, vs, like, r)
    requires db.fileExists && db.conceptMap.Some?
    requires exists row :: row in db.conceptMap.value && ExactMatch(row, subject, vs)
    ensures exists row :: row in db.conceptMap.value && ExactMatch(row, subject, vs) && r == Ok(Some(ConceptOf(row, None)))
  {
    QueryArities(|vs|);
    forall row | row in db.conceptMap.value
      ensures PlainHit(ExactQuery(|vs|), ExactParams(subject, vs), db.conceptMap.value, row, like) <==> ExactMatch(row, subject, vs)
    {
      ExactBinding(subject, vs, Joined(row, None, None), like);
    }
  }

  /** With no exact match, any row matching some `%variant%` is found by stage 2. */
  lemma OutcomeFuzzy(db: Database, subject: string, vs: seq<string>, like: (string, string) -> bool, r: Result<Option<Concept>, DbError>)
    requires |vs| >= 1 && Outcome(db, subject, vs, like, r)
    requires db.fileExists && db.conceptMap.Some?
    requires forall row :: row in db.conceptMap.value ==> !ExactMatch(row, subject, vs)
    requires exists row :: row in db.conceptMap.value && LikeMatch(row, subject, vs, like)
    ensures exists row :: row in db.conceptMap.value && LikeMatch(row, subject, vs, like) && r == Ok(Some(ConceptOf(row, None)))
  {
    QueryArities(|vs|);
    forall row | row in db.conceptMap.value
      ensures PlainHit(ExactQuery(|vs|), ExactParams(subject, vs), db.conceptMap.value, row, like) <==> ExactMatch(row, subject, vs)
      ensures PlainHit(LikeQuery(|vs|), LikeParams(subject, vs), db.conceptMap.value, row, like) <==> LikeMatch(row, subject, vs, like)
    {
      ExactBinding(subject, vs, Joined(row, None, None), like);
      LikeBinding(subject, vs, Joined(row, None, None), like);
    }
  }

  /** Without a `concept_map` table, or with no row matching either way, the
      result is `None`. */
  lemma OutcomeNone(db: Database, subject: string, vs: seq<string>, like: (string, string) -> bool, r: Result<Option<Concept>, DbError>)
    requires |vs| >= 1 && Outcome(db, subject, vs, like, r)
    requires db.fileExists
    requires db.conceptMap.Some? ==> forall row :: row in db.conceptMap.value ==>
      !ExactMatch(row, subject, vs) && !LikeMatch(row, subject, vs, like)
    ensures r == Ok(None)
  {
    QueryArities(|vs|);
    JoinHitIsLikeHit(db, subject, vs, like);
    if db.conceptMap.Some? {
      forall row | row in db.conceptMap.value
        ensures !PlainHit(ExactQuery(|vs|), ExactParams(subject, vs), db.conceptMap.value, row, like)
        ensures !PlainHit(LikeQuery(|vs|), LikeParams(subject, vs), db.conceptMap.value, row, like)
      {
        ExactBinding(subject, vs, Joined(row, None, None), like);
        LikeBinding(subject, vs, Joined(row, None, None), like);
      }
    }
  }
}
