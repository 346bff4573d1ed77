/** `utils/llm_helpers.py`: what `generate_sentences` and
    `generate_grammar_question` make of the language model's reply. The request
    itself is not part of this model: the reply is an input, and `json.loads` is a
    parameter, a partial function from a text to a JSON value (`None` where it
    raises). */
module LlmHelpers {
  import opened Values
  import opened Text

  /** `json.loads`: the value a text parses to, `None` where it raises. */
  type Loads = string -> Option<Value>

  function Min(a: int, b: int): int {
    if a <= b then a else b
  }

  function Max(a: int, b: int): int {
    if a >= b then a else b
  }

  // ---------------------------------------------------------------------------
  // Extraction

  /** `re.search(r"\[.*\]", text, re.DOTALL)`, or the same with braces: the
      positions of the first opening character and of the last closing one, when
      the closing one comes after it. No match exactly when no opening character
      is followed by a closing one. */
  function Span(text: string, open: char, close: char): (r: Option<(nat, nat)>)
    ensures r.Some? ==> r.value.0 < r.value.1 < |text| && text[r.value.0] == open && text[r.value.1] == close
    ensures r.Some? ==> open !in text[..r.value.0] && close !in text[r.value.1 + 1..]
    ensures r.None? <==> forall i, j :: 0 <= i < j < |text| && text[i] == open ==> text[j] != close
  {
    match (FirstIndexOf(text, open), LastIndexOf(text, close))
    case (Some(s), Some(e)) =>
      if s < e then Some((s, e))
      else
        assert forall i, j :: 0 <= i < j < |text| && text[i] == open ==> text[j] != close;
        None
    case _ => None
  }

  /** `text = match.group(0)` when the search matches. */
  function Extract(text: string, open: char, close: char): (r: string)
    ensures |r| <= |text|
  {
    match Span(text, open, close)
    case Some((s, e)) => text[s..e + 1]
    case None => text
  }

  /** What extraction keeps: the whole text when no opening character is followed
      by a closing one; otherwise the text from its first opening character,
      which the result starts with, to its last closing character, which the
      result ends with. */
  lemma ExtractSpan(text: string, open: char, close: char)
    ensures var r := Extract(text, open, close);
      if exists i, j :: 0 <= i < j < |text| && text[i] == open && text[j] == close then
        && |r| >= 2 && r[0] == open && r[|r| - 1] == close
        && FirstIndexOf(text, open).Some?
        && r == text[FirstIndexOf(text, open).value..][..|r|]
        && close !in text[FirstIndexOf(text, open).value + |r|..]
      else r == text
  {
    SpanExists(text, open, close);
    if Span(text, open, close).Some? {
      ExtractSome(text, open, close);
    }
  }

  /** A span exists exactly when an opening character is followed by a closing one. */
  lemma SpanExists(text: string, open: char, close: char)
    ensures Span(text, open, close).Some? <==>
      exists i, j :: 0 <= i < j < |text| && text[i] == open && text[j] == close
  {
    if Span(text, open, close).Some? {
      var (s, e) := Span(text, open, close).value;
      assert 0 <= s < e < |text| && text[s] == open && text[e] == close;
    }
  }

  /** The extracted text of a span, from the first opening character on. */
  lemma ExtractSome(text: string, open: char, close: char)
    requires Span(text, open, close).Some?
    ensures var r := Extract(text, open, close);
      && |r| >= 2 && r[0] == open && r[|r| - 1] == close
      && FirstIndexOf(text, open).Some?
      && r == text[FirstIndexOf(text, open).value..][..|r|]
      && close !in text[FirstIndexOf(text, open).value + |r|..]
  {
    var r := Extract(text, open, close);
    var (s, e) := Span(text, open, close).value;
    assert r == text[s..e + 1];
    assert r[0] == text[s] && r[|r| - 1] == text[e];
    assert text[s..][..e + 1 - s] == text[s..e + 1];
    assert text[s + |r|..] == text[e + 1..];
    assert FirstIndexOf(text, open) == Some(s);
  }

  /** Extracting a second time changes nothing. */
  lemma ExtractIdempotent(text: string, open: char, close: char)
    ensures Extract(Extract(text, open, close), open, close) == Extract(text, open, close)
  {
    var r := Extract(text, open, close);
    match Span(text, open, close)
    case None =>
    case Some((s, e)) =>
      assert r[0] == open && r[|r| - 1] == close;
      var again := Span(r, open, close);
      assert again.Some?;
      assert again.value == (0, |r| - 1);
      assert r[0..|r|] == r;
  }

  // ---------------------------------------------------------------------------
  // generate_sentences: the candidates

  /** `str(v)` for a parsed JSON value; a nested list or dict prints as its
      `repr`, which is given. */
  function Str(v: Value, repr: Value -> string): string {
    match v
    case VNull => "None"
    case VBool(b) => if b then "True" else "False"
    case VInt(i) => IntToString(i)
    case VStr(s) => s
    case _ => repr(v)
  }

  /** `[str(s).strip() for s in items]`. */
  function ItemCandidates(items: seq<Value>, repr: Value -> string): seq<string> {
    seq(|items|, k requires 0 <= k < |items| => Strip(Str(items[k], repr)))
  }

  const Intros: seq<string> := ["sure", "here", "let's", "let us", "okay", "ok"]

  /** `re.match(r"^(sure|here|let\'s|let us|okay|ok)\b", ln.lower())`: the line,
      lower-cased, begins with one of the words, and no word character follows. */
  predicate IsIntro(ln: string) {
    BeginsWithOneOf(Lower(ln), Intros)
  }

  /** `low` begins with one of `words` as a whole word. */
  predicate BeginsWithOneOf(low: string, words: seq<string>)
    decreases |words|
  {
    && words != []
    && ((StartsWith(low, words[0]) && (|low| == |words[0]| || !IsWordChar(low[|words[0]|])))
        || BeginsWithOneOf(low, words[1..]))
  }

  /** A line that begins with a digit is never taken for an introduction. */
  lemma NumberedNotIntro(ln: string)
    requires ln != [] && IsDigit(ln[0])
    ensures !IsIntro(ln)
  {
    var low := Lower(ln);
    assert low[0] == ln[0];
    NotBeginsWithOneOf(low, Intros);
  }

  /** A text does not begin with any of words that all begin otherwise than
      it does. */
  lemma {:induction false} NotBeginsWithOneOf(low: string, words: seq<string>)
    requires low != []
    requires forall k :: 0 <= k < |words| ==> words[k] != [] && words[k][0] != low[0]
    ensures !BeginsWithOneOf(low, words)
    decreases |words|
  {
    if words != [] {
      if |words[0]| <= |low| {
        assert low[..|words[0]|][0] == low[0];
      }
      NotBeginsWithOneOf(low, words[1..]);
    }
  }

  /** The length of the run of digits `s` begins with. */
  function DigitRun(s: string): (d: nat)
    ensures d <= |s|
    ensures forall j :: 0 <= j < d ==> IsDigit(s[j])
    ensures d < |s| ==> !IsDigit(s[d])
  {
    if s != [] && IsDigit(s[0]) then 1 + DigitRun(s[1..]) else 0
  }

  /** `re.sub(r"^\s*\d+\s*[\).:-]?\s*", "", ln)`: a leading number, with the
      whitespace around it and one `)`, `.`, `:` or `-` after it. */
  function DropNumber(ln: string): (r: string)
    ensures |r| <= |ln| && r == ln[|ln| - |r|..]
  {
    var t := TrimLeft(ln);
    var d := DigitRun(t);
    if d == 0 then ln else AfterNumber(t, d)
  }

  /** What follows the `d` digits that begin `t`: the whitespace, one
      separator and the whitespace after it removed. */
  function AfterNumber(t: string, d: nat): (r: string)
    requires d <= |t|
    ensures |r| <= |t| - d && r == t[|t| - |r|..]
    ensures r == [] || !IsSpace(r[0])
  {
    var u := TrimLeft(t[d..]);
    var v := if u != [] && u[0] in ").:-" then u[1..] else u;
    SuffixOfSuffix(t, t[d..], u);
    SuffixOfSuffix(t, u, v);
    TrimLeft(v)
  }

  /** Removing the numbering keeps the line itself when it does not begin with
      a number, and otherwise a shorter suffix that does not begin with
      whitespace. A stripped line stays stripped. */
  lemma DropNumberSuffix(ln: string)
    ensures var r := DropNumber(ln);
      && (DigitRun(TrimLeft(ln)) == 0 <==> r == ln)
      && (DigitRun(TrimLeft(ln)) > 0 ==> r == [] || !IsSpace(r[0]))
      && (Stripped(ln) ==> Stripped(r))
  {
    var r := DropNumber(ln);
    if r != [] {
      assert r[|r| - 1] == ln[|ln| - 1];
    }
  }

  /** A suffix of a suffix is a suffix. */
  lemma SuffixOfSuffix<T>(a: seq<T>, b: seq<T>, c: seq<T>)
    requires |b| <= |a| && b == a[|a| - |b|..]
    requires |c| <= |b| && c == b[|b| - |c|..]
    ensures c == a[|a| - |c|..]
  {
  }

  /** The lines that `skip` does not reject, each mapped by `f`, in order. */
  function SkipMap(lines: seq<string>, skip: string -> bool, f: string -> string): (r: seq<string>)
    ensures |r| <= |lines|
    decreases |lines|
  {
    if lines == [] then []
    else
      var ln := lines[|lines| - 1];
      SkipMap(lines[..|lines| - 1], skip, f) + if skip(ln) then [] else [f(ln)]
  }

  /** An element of `SkipMap` is the image of a line not skipped, and every such
      image is an element. */
  lemma {:induction false} SkipMapExactly(lines: seq<string>, skip: string -> bool, f: string -> string, c: string)
    ensures c in SkipMap(lines, skip, f) <==> exists i :: 0 <= i < |lines| && !skip(lines[i]) && f(lines[i]) == c
    decreases |lines|
  {
    if lines != [] {
      var init, ln := lines[..|lines| - 1], lines[|lines| - 1];
      SkipMapExactly(init, skip, f, c);
      var last := if skip(ln) then [] else [f(ln)];
      assert SkipMap(lines, skip, f) == SkipMap(init, skip, f) + last;
      if c in SkipMap(init, skip, f) {
        var i :| 0 <= i < |init| && !skip(init[i]) && f(init[i]) == c;
        assert lines[i] == init[i];
      }
      if exists i :: 0 <= i < |lines| && !skip(lines[i]) && f(lines[i]) == c {
        var i :| 0 <= i < |lines| && !skip(lines[i]) && f(lines[i]) == c;
        if i < |init| {
          assert init[i] == lines[i];
        } else {
          assert c in last;
        }
      }
    }
  }

  /** The fallback's candidates from its stripped, non-blank lines: the lines that
      are not introductions, each without its numbering, in order. */
  function Cleaned(lines: seq<string>): seq<string> {
    SkipMap(lines, IsIntro, DropNumber)
  }

  /** A candidate is a line kept: not an introduction, its numbering removed. */
  lemma CleanedExactly(lines: seq<string>, c: string)
    ensures c in Cleaned(lines) <==> exists i :: 0 <= i < |lines| && !IsIntro(lines[i]) && DropNumber(lines[i]) == c
  {
    SkipMapExactly(lines, IsIntro, DropNumber, c);
  }

  /** From stripped lines, every candidate is stripped. */
  lemma CleanedStripped(lines: seq<string>)
    requires forall i :: 0 <= i < |lines| ==> Stripped(lines[i])
    ensures forall k :: 0 <= k < |Cleaned(lines)| ==> Stripped(Cleaned(lines)[k])
  {
    forall k | 0 <= k < |Cleaned(lines)|
      ensures Stripped(Cleaned(lines)[k])
    {
      var c := Cleaned(lines)[k];
      CleanedExactly(lines, c);
      var i :| 0 <= i < |lines| && !IsIntro(lines[i]) && DropNumber(lines[i]) == c;
      DropNumberSuffix(lines[i]);
    }
  }

  /** The fallback: `lines = [ln.strip() for ln in text.splitlines() if
      ln.strip()]`, then the loop that skips introductions and removes the
      numbering from the rest. */
  method FallbackCandidates(text: string) returns (candidates: seq<string>)
    ensures candidates == Cleaned(NonEmptyStripped(SplitLines(text)))
  {
    var lines := NonEmptyStripped(SplitLines(text));
    candidates := [];
    for i := 0 to |lines|
      invariant candidates == Cleaned(lines[..i])
    {
      var ln := lines[i];
      assert lines[..i + 1][..i] == lines[..i];
      if IsIntro(ln) {
        continue;
      }
      ln := DropNumber(ln);
      candidates := candidates + [ln];
    }
    assert lines[..|lines|] == lines;
  }

  /** The candidates: the items of the JSON list the extracted text parses to,
      or, when it does not parse to a list, the fallback's lines of that same
      extracted text. */
  function Candidates(reply: string, loads: Loads, repr: Value -> string): seq<string> {
    var text := Extract(reply, '[', ']');
    match loads(text)
    case Some(VList(items)) => ItemCandidates(items, repr)
    case _ => Cleaned(NonEmptyStripped(SplitLines(text)))
  }

  /** Every candidate is stripped. */
  lemma CandidatesStripped(reply: string, loads: Loads, repr: Value -> string)
    ensures forall k :: 0 <= k < |Candidates(reply, loads, repr)| ==> Stripped(Candidates(reply, loads, repr)[k])
  {
    var text := Extract(reply, '[', ']');
    match loads(text)
    case Some(VList(items)) =>
    case _ =>
      CleanedStripped(NonEmptyStripped(SplitLines(text)));
  }

  // ---------------------------------------------------------------------------
  // generate_sentences: the filter

  /** The words `good` refuses, lower-cased, as the regex alternation lists
      them. */
  const Banned: seq<string> := ["sentence", "example", "prompt", "simple sentence"]

  /** `good(s)`: at least four words, a final `.`, `!` or `?`, and none of the
      banned words in any case (a text without "sentence" is also without
      "simple sentence"). */
  predicate Good(s: string) {
    var t := Strip(s);
    && |Words(t)| >= 4
    && |t| > 0 && t[|t| - 1] in ".!?"
    && forall k :: 0 <= k < |Banned| ==> !Contains(Lower(t), Banned[k])
  }

  /** `[s for s in candidates if good(s)]`. */
  function GoodOnes(cs: seq<string>): (r: seq<string>)
    ensures |r| <= |cs|
    ensures forall k :: 0 <= k < |r| ==> Good(r[k])
    decreases |cs|
  {
    if cs == [] then []
    else (if Good(cs[0]) then [cs[0]] else []) + GoodOnes(cs[1..])
  }

  /** The filter keeps exactly the good candidates. */
  lemma {:induction false} GoodOnesExactly(cs: seq<string>, s: string)
    ensures s in GoodOnes(cs) <==> s in cs && Good(s)
    decreases |cs|
  {
    if cs != [] {
      GoodOnesExactly(cs[1..], s);
      var head := if Good(cs[0]) then [cs[0]] else [];
      assert GoodOnes(cs) == head + GoodOnes(cs[1..]);
      assert s in head <==> s == cs[0] && Good(s);
      assert s in cs <==> s == cs[0] || s in cs[1..];
    }
  }

  const Placeholders: seq<string> := [
    "The cat slept on the sunny porch.",
    "A blue bird landed on the fence.",
    "We packed snacks for the short hike."
  ]

  /** A stripped text that opens with four words split by single spaces at `a`,
      `b` and `c`, ends in `.`, `!` or `?`, and has no two neighbouring letters
      that begin a banned word, is good. */
  lemma GoodWhen(s: string, a: nat, b: nat, c: nat)
    requires Stripped(s) && |s| > 0 && s[|s| - 1] in ".!?"
    requires 0 < a && a + 1 < b && b + 1 < c && c + 1 < |s|
    requires IsSpace(s[a]) && IsSpace(s[b]) && IsSpace(s[c])
    requires forall j :: 0 <= j < c + 2 && j != a && j != b && j != c ==> !IsSpace(s[j])
    requires forall k, i :: 0 <= k < |Banned| && 0 <= i < |s| - 1 ==>
      !(LowerChar(s[i]) == Banned[k][0] && LowerChar(s[i + 1]) == Banned[k][1])
    ensures Good(s)
  {
    assert Strip(s) == s;
    WordsAtLeastFour(s, a, b, c);
    BannedAbsent(s);
  }

  lemma BannedAbsent(s: string)
    requires forall k, i :: 0 <= k < |Banned| && 0 <= i < |s| - 1 ==>
      !(LowerChar(s[i]) == Banned[k][0] && LowerChar(s[i + 1]) == Banned[k][1])
    ensures forall k :: 0 <= k < |Banned| ==> !Contains(Lower(s), Banned[k])
  {
    forall k | 0 <= k < |Banned| ensures !Contains(Lower(s), Banned[k]) {
      NotContainedLower(s, Banned[k], 0);
    }
  }

  /** Each of the three placeholder sentences is good. */
  lemma PlaceholdersGood(k: nat)
    requires k < |Placeholders|
    ensures Good(Placeholders[k])
  {
    if k == 0 {
      FirstPlaceholderGood(Placeholders[k]);
    } else if k == 1 {
      SecondPlaceholderGood(Placeholders[k]);
    } else {
      ThirdPlaceholderGood(Placeholders[k]);
    }
  }

  // One group of lemmas per placeholder keeps each literal in a context of its
  // own: its shape (stripped, final `.`, single spaces after its first three
  // words), then its neighbouring letters, one banned word at a time.

  /** No two neighbouring letters of `s` lower-case to the first two of `Banned[k]`. */
  predicate NoBannedPair(s: string, k: nat)
    requires k < |Banned|
  {
    forall i :: 0 <= i < |s| - 1 ==> !(LowerChar(s[i]) == Banned[k][0] && LowerChar(s[i + 1]) == Banned[k][1])
  }

  /** `GoodWhen` with the banned pairs one word at a time. */
  lemma GoodByPairs(s: string, a: nat, b: nat, c: nat)
    requires Stripped(s) && |s| > 0 && s[|s| - 1] in ".!?"
    requires 0 < a && a + 1 < b && b + 1 < c && c + 1 < |s|
    requires IsSpace(s[a]) && IsSpace(s[b]) && IsSpace(s[c])
    requires forall j :: 0 <= j < c + 2 && j != a && j != b && j != c ==> !IsSpace(s[j])
    requires forall k :: 0 <= k < |Banned| ==> NoBannedPair(s, k)
    ensures Good(s)
  {
    forall k, i | 0 <= k < |Banned| && 0 <= i < |s| - 1
      ensures !(LowerChar(s[i]) == Banned[k][0] && LowerChar(s[i + 1]) == Banned[k][1])
    {
      assert NoBannedPair(s, k);
    }
    GoodWhen(s, a, b, c);
  }

  lemma FirstPlaceholderShape(p: string)
    requires p == "The cat slept on the sunny porch."
    ensures Stripped(p) && |p| > 0 && p[|p| - 1] in ".!?" && 13 + 1 < |p|
    ensures IsSpace(p[3]) && IsSpace(p[7]) && IsSpace(p[13])
    ensures forall j :: 0 <= j < 15 && j != 3 && j != 7 && j != 13 ==> !IsSpace(p[j])
  {
  }

  lemma FirstPlaceholderPairs(p: string, k: nat)
    requires p == "The cat slept on the sunny porch." && k < |Banned|
    ensures NoBannedPair(p, k)
  {
    var first := Banned[k][0];
    var second := Banned[k][1];
    FirstPlaceholderPair(p, first, second);
  }

  lemma FirstPlaceholderPair(p: string, x: char, y: char)
    requires p == "The cat slept on the sunny porch."
    requires (x, y) in {('s', 'e'), ('e', 'x'), ('p', 'r'), ('s', 'i')}
    ensures forall i :: 0 <= i < |p| - 1 ==> !(LowerChar(p[i]) == x && LowerChar(p[i + 1]) == y)
  {
  }

  lemma FirstPlaceholderGood(p: string)
    requires p == "The cat slept on the sunny porch."
    ensures Good(p)
  {
    FirstPlaceholderShape(p);
    forall k | 0 <= k < |Banned|
      ensures NoBannedPair(p, k)
    {
      FirstPlaceholderPairs(p, k);
    }
    GoodByPairs(p, 3, 7, 13);
  }

  lemma SecondPlaceholderShape(p: string)
    requires p == "A blue bird landed on the fence."
    ensures Stripped(p) && |p| > 0 && p[|p| - 1] in ".!?" && 11 + 1 < |p|
    ensures IsSpace(p[1]) && IsSpace(p[6]) && IsSpace(p[11])
    ensures forall j :: 0 <= j < 13 && j != 1 && j != 6 && j != 11 ==> !IsSpace(p[j])
  {
  }

  lemma SecondPlaceholderPairs(p: string, k: nat)
    requires p == "A blue bird landed on the fence." && k < |Banned|
    ensures NoBannedPair(p, k)
  {
    var first := Banned[k][0];
    var second := Banned[k][1];
    SecondPlaceholderPair(p, first, second);
  }

  lemma SecondPlaceholderPair(p: string, x: char, y: char)
    requires p == "A blue bird landed on the fence."
    requires (x, y) in {('s', 'e'), ('e', 'x'), ('p', 'r'), ('s', 'i')}
    ensures forall i :: 0 <= i < |p| - 1 ==> !(LowerChar(p[i]) == x && LowerChar(p[i + 1]) == y)
  {
  }

  lemma SecondPlaceholderGood(p: string)
    requires p == "A blue bird landed on the fence."
    ensures Good(p)
  {
    SecondPlaceholderShape(p);
    forall k | 0 <= k < |Banned|
      ensures NoBannedPair(p, k)
    {
      SecondPlaceholderPairs(p, k);
    }
    GoodByPairs(p, 1, 6, 11);
  }

  lemma ThirdPlaceholderShape(p: string)
    requires p == "We packed snacks for the short hike."
    ensures Stripped(p) && |p| > 0 && p[|p| - 1] in ".!?" && 16 + 1 < |p|
    ensures IsSpace(p[2]) && IsSpace(p[9]) && IsSpace(p[16])
    ensures forall j :: 0 <= j < 18 && j != 2 && j != 9 && j != 16 ==> !IsSpace(p[j])
  {
  }

  lemma ThirdPlaceholderPairs(p: string, k: nat)
    requires p == "We packed snacks for the short hike." && k < |Banned|
    ensures NoBannedPair(p, k)
  {
    var first := Banned[k][0];
    var second := Banned[k][1];
    ThirdPlaceholderPair(p, first, second);
  }

  lemma ThirdPlaceholderPair(p: string, x: char, y: char)
    requires p == "We packed snacks for the short hike."
    requires (x, y) in {('s', 'e'), ('e', 'x'), ('p', 'r'), ('s', 'i')}
    ensures forall i :: 0 <= i < |p| - 1 ==> !(LowerChar(p[i]) == x && LowerChar(p[i + 1]) == y)
  {
  }

  lemma ThirdPlaceholderGood(p: string)
    requires p == "We packed snacks for the short hike."
    ensures Good(p)
  {
    ThirdPlaceholderShape(p);
    forall k | 0 <= k < |Banned|
      ensures NoBannedPair(p, k)
    {
      ThirdPlaceholderPairs(p, k);
    }
    GoodByPairs(p, 2, 9, 16);
  }

  // ---------------------------------------------------------------------------
  // generate_sentences

  /** `s[:n]`, with Python's meaning for a negative `n`. */
  function PyPrefix(s: seq<string>, n: int): (r: seq<string>)
    ensures |r| <= |s| && r == s[..|r|]
  {
    if n >= 0 then s[..Min(n, |s|)] else s[..Max(0, |s| + n)]
  }

  /** What the truncate-or-extend step makes of the good candidates `g`: for a
      negative `n`, the Python slice `g[:n]`; with no good candidate, the first
      `n` placeholders; otherwise exactly `n` sentences, the good candidates in
      order, cut to `n` or padded by repeating the last. */
  predicate Fitted(g: seq<string>, n: int, r: seq<string>) {
    if n < 0 then r == g[..Max(0, |g| + n)]
    else if g == [] then r == Placeholders[..Min(n, 3)]
    else
      && |r| == n
      && r[..Min(|g|, n)] == g[..Min(|g|, n)]
      && forall k :: |g| <= k < n ==> r[k] == g[|g| - 1]
  }

  /** With at least one good candidate, every sentence is one of them. */
  lemma FittedFrom(g: seq<string>, n: int, r: seq<string>)
    requires Fitted(g, n, r) && g != []
    ensures forall k :: 0 <= k < |r| ==> r[k] in g
  {
    forall k | 0 <= k < |r|
      ensures r[k] in g
    {
      if n < 0 {
        assert r[k] == g[k];
      } else if k < |g| {
        assert r[k] == r[..Min(|g|, n)][k] == g[..Min(|g|, n)][k];
      } else {
        assert r[k] == g[|g| - 1];
      }
    }
  }

  /** When every good candidate is good, so is every fitted sentence: the
      placeholders are good too. */
  lemma FittedGood(g: seq<string>, n: int, r: seq<string>)
    requires Fitted(g, n, r) && forall k :: 0 <= k < |g| ==> Good(g[k])
    ensures forall k :: 0 <= k < |r| ==> Good(r[k])
  {
    if g != [] {
      FittedFrom(g, n, r);
    } else if n >= 0 {
      forall k | 0 <= k < |r| ensures Good(r[k]) {
        PlaceholdersGood(k);
      }
    }
  }

  /** The truncate-or-extend step: `sentences[:n]` when there are more than
      `n`; when fewer, the last repeated until there are `n`, and the
      placeholders cut to `n` when there is none at all. */
  method FitCount(good: seq<string>, n: int) returns (sentences: seq<string>)
    ensures Fitted(good, n, sentences)
  {
    sentences := good;
    if |sentences| > n {
      sentences := PyPrefix(sentences, n);
    } else if |sentences| < n {
      while sentences != [] && |sentences| < n
        invariant good != [] ==> |good| <= |sentences| <= n && sentences[..|good|] == good
        invariant good != [] ==> forall k :: |good| <= k < |sentences| ==> sentences[k] == good[|good| - 1]
        invariant good == [] ==> sentences == []
        decreases n - |sentences|
      {
        sentences := sentences + [sentences[|sentences| - 1]];
      }
      if sentences == [] {
        sentences := Placeholders[..Min(n, 3)];
      }
    }
  }

  /** `generate_sentences(n)` on the model's reply: the good candidates, fitted
      to `n`; every sentence returned, placeholders included, is good. */
  method GenerateSentences(reply: string, n: int, loads: Loads, repr: Value -> string) returns (sentences: seq<string>)
    ensures Fitted(GoodOnes(Candidates(reply, loads, repr)), n, sentences)
    ensures forall k :: 0 <= k < |sentences| ==> Good(sentences[k])
  {
    var text := Extract(reply, '[', ']');
    var candidates: seq<string>;
    match loads(text) {
      case Some(VList(items)) =>
        candidates := ItemCandidates(items, repr);
      case _ =>
        candidates := FallbackCandidates(text);
    }
    var good := GoodOnes(candidates);
    sentences := FitCount(good, n);
    FittedGood(good, n, sentences);
  }

  // ---------------------------------------------------------------------------
  // generate_grammar_question

  /** `k in obj`: a key of a dict, an element of a list, a substring of a string;
      any other value raises. */
  function In(k: string, obj: Value): Result<bool, PyError> {
    match obj
    case VMap(entries) => Ok(HasKey(entries, VStr(k)))
    case VList(items) => Ok(VStr(k) in items)
    case VStr(s) => Ok(Contains(s, k))
    case _ => Err(TypeError)
  }

  /** `all(k in obj for k in ("prompt", "options", "answer"))`, stopping at the
      first key that is missing. */
  function AllIn(obj: Value): Result<bool, PyError> {
    match In("prompt", obj)
    case Err(e) => Err(e)
    case Ok(false) => Ok(false)
    case Ok(true) =>
      match In("options", obj)
      case Err(e) => Err(e)
      case Ok(false) => Ok(false)
      case Ok(true) => In("answer", obj)
  }

  /** The minimal validation: the three keys, then `obj.get("options")` a
      non-empty list; `obj` itself when it passes. */
  function Validate(obj: Value): Result<Value, PyError> {
    match AllIn(obj)
    case Err(e) => Err(e)
    case Ok(false) => Err(ValueError)
    case Ok(true) =>
      if !obj.VMap? then Err(AttributeError)
      else
        match Get(obj.entries, VStr("options"))
        case Some(VList(options)) => if options != [] then Ok(obj) else Err(ValueError)
        case _ => Err(ValueError)
  }

  /** Validation passes exactly for a dict with the three keys whose `options` is
      a non-empty list. */
  lemma ValidateExactly(obj: Value)
    ensures Validate(obj).Ok? <==>
      && obj.VMap?
      && HasKey(obj.entries, VStr("prompt")) && HasKey(obj.entries, VStr("options")) && HasKey(obj.entries, VStr("answer"))
      && Get(obj.entries, VStr("options")).Some? && Get(obj.entries, VStr("options")).value.VList?
      && Get(obj.entries, VStr("options")).value.items != []
    ensures Validate(obj).Ok? ==> Validate(obj).value == obj
  {
  }

  const FallbackOptions: seq<Value> := [VStr("noun"), VStr("verb"), VStr("adjective"), VStr("adverb")]

  /** The fallback question about `sentence`. */
  function Fallback(sentence: string): Value {
    VMap([
      (VStr("prompt"), VStr("Which word is a noun in the sentence: '" + sentence + "'?")),
      (VStr("options"), VList(FallbackOptions)),
      (VStr("answer"), VStr("noun"))
    ])
  }

  /** `generate_grammar_question(sentence)` on the model's reply (`None` when
      the request raised): the parsed object when it passes validation, the
      fallback otherwise. */
  function GenerateGrammarQuestion(sentence: string, reply: Option<string>, loads: Loads): (q: Value)
    ensures q.VMap?
    ensures HasKey(q.entries, VStr("prompt")) && HasKey(q.entries, VStr("options")) && HasKey(q.entries, VStr("answer"))
    ensures Get(q.entries, VStr("options")).Some? && Get(q.entries, VStr("options")).value.VList?
    ensures Get(q.entries, VStr("options")).value.items != []
  {
    FallbackShape(sentence);
    match reply
    case None => Fallback(sentence)
    case Some(content) =>
      var text := Extract(Strip(content), '{', '}');
      match loads(text)
      case None => Fallback(sentence)
      case Some(obj) =>
        ValidateExactly(obj);
        match Validate(obj)
        case Ok(q) => q
        case Err(_) => Fallback(sentence)
  }

  /** The fallback has the three keys, four options, and its answer, "noun", is
      one of them. */
  lemma FallbackShape(sentence: string)
    ensures var q := Fallback(sentence);
      && HasKey(q.entries, VStr("prompt")) && HasKey(q.entries, VStr("options")) && HasKey(q.entries, VStr("answer"))
      && Get(q.entries, VStr("options")) == Some(VList(FallbackOptions))
      && Get(q.entries, VStr("answer")) == Some(VStr("noun"))
      && VStr("noun") in FallbackOptions
  {
    var m := Fallback(sentence).entries;
    FieldAt(m, 0);
    FieldAt(m, 1);
    FieldAt(m, 2);
    assert FallbackOptions[0] == VStr("noun");
  }

  /** The question is the parsed reply exactly when that passes validation, and
      the fallback otherwise. */
  lemma GrammarQuestionSource(sentence: string, reply: Option<string>, loads: Loads)
    ensures var q := GenerateGrammarQuestion(sentence, reply, loads);
      if reply.Some? && loads(Extract(Strip(reply.value), '{', '}')).Some?
         && Validate(loads(Extract(Strip(reply.value), '{', '}')).value).Ok?
      then q == loads(Extract(Strip(reply.value), '{', '}')).value
      else q == Fallback(sentence)
  {
  }

  /** A reply that passes validation is returned even when its answer is not one
      of its options. */
  lemma AnswerNotChecked()
    ensures var obj := VMap([(VStr("prompt"), VStr("?")), (VStr("options"), VList([VStr("a")])), (VStr("answer"), VStr("b"))]);
      Validate(obj) == Ok(obj) && Get(obj.entries, VStr("answer")) == Some(VStr("b")) && VStr("b") !in obj.entries[1].1.items
  {
    var m := [(VStr("prompt"), VStr("?")), (VStr("options"), VList([VStr("a")])), (VStr("answer"), VStr("b"))];
    FieldAt(m, 0);
    FieldAt(m, 1);
    FieldAt(m, 2);
    ValidateExactly(VMap(m));
  }
}
