/** The parts of Python's `str` that the core relies on: `strip`, `lower`,
    `find`, `in`, `replace`, `split`, `splitlines`, `join`, comparison, and the
    character classes `\s`, `\d` and `\w` of the `re` module.

    Whitespace is Python's full set (what `str.isspace` and `\s` accept).
    Letters, digits and case are ASCII only: `lower()` maps `A`-`Z`, `\d` is
    `0`-`9` and `\w` is `[A-Za-z0-9_]`. */
module Text {

  import opened Values

  /** `c.isspace()`, also the regex class `\s`. */
  predicate IsSpace(c: char) {
    || c == ' ' || '\t' <= c <= '\r' || '\U{1C}' <= c <= '\U{1F}'
    || c == '\U{85}' || c == '\U{A0}' || c == '\U{1680}' || '\U{2000}' <= c <= '\U{200A}'
    || c == '\U{2028}' || c == '\U{2029}' || c == '\U{202F}' || c == '\U{205F}' || c == '\U{3000}'
  }

  /** The regex class `\d`. */
  predicate IsDigit(c: char) {
    '0' <= c <= '9'
  }

  /** The regex class `\w`. */
  predicate IsWordChar(c: char) {
    IsDigit(c) || 'a' <= c <= 'z' || 'A' <= c <= 'Z' || c == '_'
  }

  /** The characters at which `str.splitlines` breaks a line. */
  predicate IsLineBreak(c: char) {
    || c == '\n' || c == '\r' || c == '\U{B}' || c == '\U{C}' || '\U{1C}' <= c <= '\U{1E}'
    || c == '\U{85}' || c == '\U{2028}' || c == '\U{2029}'
  }

  function LowerChar(c: char): (d: char)
    ensures IsSpace(d) <==> IsSpace(c)
    ensures IsLineBreak(d) <==> IsLineBreak(c)
    ensures !('A' <= d <= 'Z')
    ensures c == d || 'A' <= c <= 'Z'
  {
    if 'A' <= c <= 'Z' then (c as int + 32) as char else c
  }

  /** `s.lower()`. */
  function Lower(s: string): (r: string)
    ensures |r| == |s|
    ensures forall i :: 0 <= i < |s| ==> r[i] == LowerChar(s[i])
  {
    if s == [] then [] else [LowerChar(s[0])] + Lower(s[1..])
  }

  lemma LowerIdempotent(s: string)
    ensures Lower(Lower(s)) == Lower(s)
  {
  }

  lemma LowerAppend(a: string, b: string)
    ensures Lower(a + b) == Lower(a) + Lower(b)
  {
  }

  /** No leading and no trailing whitespace. */
  predicate Stripped(s: string) {
    |s| == 0 || (!IsSpace(s[0]) && !IsSpace(s[|s| - 1]))
  }

  function TrimLeft(s: string): (r: string)
    ensures |r| <= |s| && r == s[|s| - |r|..]
    ensures |r| == 0 || !IsSpace(r[0])
    ensures forall i :: 0 <= i < |s| - |r| ==> IsSpace(s[i])
  {
    if |s| > 0 && IsSpace(s[0]) then TrimLeft(s[1..]) else s
  }

  function TrimRight(s: string): (r: string)
    ensures |r| <= |s| && r == s[..|r|]
    ensures |r| == 0 || !IsSpace(r[|r| - 1])
    ensures forall i :: |r| <= i < |s| ==> IsSpace(s[i])
  {
    if |s| > 0 && IsSpace(s[|s| - 1]) then TrimRight(s[..|s| - 1]) else s
  }

  /** `s.strip()`. */
  function Strip(s: string): (r: string)
    ensures Stripped(r)
    ensures Stripped(s) ==> r == s
    ensures |r| <= |s|
  {
    TrimRight(TrimLeft(s))
  }

  /** One leading space and nothing else to strip. */
  lemma StripLeading(w: string)
    requires w != [] && !IsSpace(w[0]) && !IsSpace(w[|w| - 1])
    ensures Strip(" " + w) == w
  {
    assert (" " + w)[1..] == w;
    assert TrimLeft(" " + w) == w;
  }

  /** Stripping only removes characters. */
  lemma StripSubset(s: string)
    ensures forall c :: c in Strip(s) ==> c in s
  {
    var t := TrimLeft(s);
    assert forall i :: 0 <= i < |Strip(s)| ==> Strip(s)[i] == t[i] == s[|s| - |t| + i];
  }

  lemma StripIdempotent(s: string)
    ensures Strip(Strip(s)) == Strip(s)
  {
  }

  lemma {:induction false} TrimLeftSpacePrefix(p: string, s: string)
    requires forall i :: 0 <= i < |p| ==> IsSpace(p[i])
    ensures TrimLeft(p + s) == TrimLeft(s)
  {
    if p != [] {
      assert (p + s)[0] == p[0] && IsSpace(p[0]);
      assert (p + s)[1..] == p[1..] + s;
      assert TrimLeft(p + s) == TrimLeft((p + s)[1..]);
      TrimLeftSpacePrefix(p[1..], s);
    } else {
      assert p + s == s;
    }
  }

  /** Stripping is blind to a whitespace-only prefix. */
  lemma StripSpacePrefix(p: string, s: string)
    requires forall i :: 0 <= i < |p| ==> IsSpace(p[i])
    ensures Strip(p + s) == Strip(s)
  {
    TrimLeftSpacePrefix(p, s);
  }

  /** `[p.strip() for p in pieces if p.strip()]`: the stripped pieces that are
      not empty, in order. */
  function NonEmptyStripped(pieces: seq<string>): (r: seq<string>)
    ensures forall i :: 0 <= i < |r| ==> r[i] != "" && Stripped(r[i])
    decreases |pieces|
  {
    if pieces == [] then []
    else
      var rest := NonEmptyStripped(pieces[1..]);
      var p := Strip(pieces[0]);
      if p != "" then [p] + rest else rest
  }

  /** The result holds exactly the stripped pieces that are not empty. */
  lemma {:induction false} NonEmptyStrippedExactly(pieces: seq<string>, p: string)
    ensures p in NonEmptyStripped(pieces) <==> p != "" && exists i :: 0 <= i < |pieces| && Strip(pieces[i]) == p
    decreases |pieces|
  {
    if pieces != [] {
      NonEmptyStrippedExactly(pieces[1..], p);
      if exists i :: 0 <= i < |pieces| && Strip(pieces[i]) == p {
        var i :| 0 <= i < |pieces| && Strip(pieces[i]) == p;
        if i > 0 {
          assert Strip(pieces[1..][i - 1]) == p;
        }
      }
      if exists i :: 0 <= i < |pieces[1..]| && Strip(pieces[1..][i]) == p {
        var i :| 0 <= i < |pieces[1..]| && Strip(pieces[1..][i]) == p;
        assert Strip(pieces[i + 1]) == p;
      }
    }
  }

  /** `s.startswith(p)`. */
  predicate StartsWith(s: string, p: string) {
    |p| <= |s| && s[..|p|] == p
  }

  /** `sub in s`. */
  predicate Contains(s: string, sub: string)
    decreases |s|
  {
    StartsWith(s, sub) || (|s| > 0 && Contains(s[1..], sub))
  }

  lemma ContainsAt(s: string, sub: string, i: nat)
    requires i <= |s| && StartsWith(s[i..], sub)
    ensures Contains(s, sub)
  {
    if i > 0 {
      assert s[1..][i - 1..] == s[i..];
      ContainsAt(s[1..], sub, i - 1);
    }
  }

  lemma ContainsSelf(s: string)
    ensures Contains(s, s)
  {
    assert StartsWith(s, s);
  }

  lemma ContainsWitness(s: string, sub: string) returns (i: nat)
    requires Contains(s, sub)
    ensures i <= |s| && StartsWith(s[i..], sub)
    decreases |s|
  {
    if StartsWith(s, sub) {
      i := 0;
      assert s[0..] == s;
    } else {
      var j := ContainsWitness(s[1..], sub);
      i := j + 1;
      assert s[i..] == s[1..][j..];
    }
  }

  lemma {:induction false} ContainsChar(s: string, c: char)
    ensures Contains(s, [c]) <==> c in s
  {
    if s != [] {
      ContainsChar(s[1..], c);
      assert s == [s[0]] + s[1..];
    }
  }

  /** `s.count(c)` for one character. */
  function CountChar(s: string, c: char): nat {
    if s == [] then 0 else (if s[0] == c then 1 else 0) + CountChar(s[1..], c)
  }

  lemma {:induction false} CountCharAppend(a: string, b: string, c: char)
    ensures CountChar(a + b, c) == CountChar(a, c) + CountChar(b, c)
  {
    if a != [] {
      assert (a + b)[1..] == a[1..] + b;
      CountCharAppend(a[1..], b, c);
    } else {
      assert a + b == b;
    }
  }

  /** `s.find(sub)`, with `-1` as `None`. */
  function Find(s: string, sub: string): (r: Option<nat>)
    ensures r.Some? ==> r.value <= |s| && StartsWith(s[r.value..], sub)
    ensures r.Some? ==> forall j :: 0 <= j < r.value ==> !StartsWith(s[j..], sub)
    ensures r.None? ==> forall j :: 0 <= j <= |s| ==> !StartsWith(s[j..], sub)
    decreases |s|
  {
    assert s[0..] == s;
    if StartsWith(s, sub) then Some(0)
    else if |s| == 0 then None
    else
      var r := Find(s[1..], sub);
      assert forall j :: 1 <= j <= |s| ==> s[j..] == s[1..][j - 1..];
      match r
      case None => None
      case Some(k) => Some(k + 1)
  }

  lemma FindContains(s: string, sub: string)
    ensures Find(s, sub).Some? <==> Contains(s, sub)
  {
    if Contains(s, sub) {
      var i := ContainsWitness(s, sub);
    }
    if Find(s, sub).Some? {
      ContainsAt(s, sub, Find(s, sub).value);
    }
  }

  /** `s.find(c)` for one character. */
  function FirstIndexOf(s: string, c: char): (r: Option<nat>)
    ensures r.Some? ==> r.value < |s| && s[r.value] == c
    ensures r.Some? ==> forall j :: 0 <= j < r.value ==> s[j] != c
    ensures r.None? ==> forall j :: 0 <= j < |s| ==> s[j] != c
  {
    if |s| == 0 then None
    else if s[0] == c then Some(0)
    else
      match FirstIndexOf(s[1..], c)
      case None => None
      case Some(k) => Some(k + 1)
  }

  /** `s.rfind(c)` for one character. */
  function LastIndexOf(s: string, c: char): (r: Option<nat>)
    ensures r.Some? ==> r.value < |s| && s[r.value] == c
    ensures r.Some? ==> forall j :: r.value < j < |s| ==> s[j] != c
    ensures r.None? ==> forall j :: 0 <= j < |s| ==> s[j] != c
  {
    if |s| == 0 then None
    else if s[|s| - 1] == c then Some(|s| - 1)
    else LastIndexOf(s[..|s| - 1], c)
  }

  /** `s.replace(pat, rep)`: leftmost, non-overlapping occurrences. */
  function Replace(s: string, pat: string, rep: string): string
    requires pat != []
    decreases |s|
  {
    if |s| < |pat| then s
    else if s[..|pat|] == pat then rep + Replace(s[|pat|..], pat, rep)
    else [s[0]] + Replace(s[1..], pat, rep)
  }

  /** Replacing one character by another maps the string character-wise. */
  lemma ReplaceChar(s: string, a: char, b: char)
    ensures |Replace(s, [a], [b])| == |s|
    ensures forall i :: 0 <= i < |s| ==> Replace(s, [a], [b])[i] == if s[i] == a then b else s[i]
  {
    if s != [] {
      ReplaceChar(s[1..], a, b);
    }
  }

  /** Removing a character leaves none of it and keeps every other character. */
  lemma ReplaceDrop(s: string, a: char)
    ensures forall i :: 0 <= i < |Replace(s, [a], [])| ==> Replace(s, [a], [])[i] != a
    ensures forall c :: c != a ==> (c in Replace(s, [a], []) <==> c in s)
  {
    if s != [] {
      ReplaceDrop(s[1..], a);
    }
  }

  /** A pattern that does not occur is not replaced. */
  lemma ReplaceAbsent(s: string, pat: string, rep: string)
    requires pat != []
    requires !Contains(s, pat)
    ensures Replace(s, pat, rep) == s
  {
    if |s| >= |pat| {
      assert !StartsWith(s, pat);
      ReplaceAbsent(s[1..], pat, rep);
    }
  }

  /** `s.split(sep)` for a non-empty separator. */
  function Split(s: string, sep: string): (r: seq<string>)
    requires sep != []
    ensures |r| >= 1
    decreases |s|
  {
    match Find(s, sep)
    case None => [s]
    case Some(i) => [s[..i]] + Split(s[i + |sep|..], sep)
  }

  /** `sep.join(parts)`. */
  function Join(sep: string, parts: seq<string>): string {
    if |parts| == 0 then ""
    else if |parts| == 1 then parts[0]
    else parts[0] + sep + Join(sep, parts[1..])
  }

  /** Joining one more part appends the separator and the part. */
  lemma {:induction false} JoinSnoc(sep: string, parts: seq<string>, p: string)
    requires |parts| >= 1
    ensures Join(sep, parts + [p]) == Join(sep, parts) + sep + p
    decreases |parts|
  {
    if |parts| > 1 {
      assert (parts + [p])[1..] == parts[1..] + [p];
      JoinSnoc(sep, parts[1..], p);
    }
  }

  /** `sep.join` of six parts, written out. */
  lemma JoinSix(sep: string, a: string, b: string, c: string, d: string, e: string, f: string)
    ensures Join(sep, [a, b, c, d, e, f]) == a + sep + b + sep + c + sep + d + sep + e + sep + f
  {
    assert Join(sep, [e, f]) == e + sep + f by { assert [e, f][1..] == [f]; }
    assert Join(sep, [d, e, f]) == d + sep + Join(sep, [e, f]) by { assert [d, e, f][1..] == [e, f]; }
    assert Join(sep, [c, d, e, f]) == c + sep + Join(sep, [d, e, f]) by { assert [c, d, e, f][1..] == [d, e, f]; }
    assert Join(sep, [b, c, d, e, f]) == b + sep + Join(sep, [c, d, e, f]) by { assert [b, c, d, e, f][1..] == [c, d, e, f]; }
    assert [a, b, c, d, e, f][1..] == [b, c, d, e, f];
  }

  /** A string without `c` is not split on `c`. */
  lemma SplitNone(s: string, c: char)
    requires c !in s
    ensures Split(s, [c]) == [s]
  {
    forall j | 0 <= j <= |s| ensures !StartsWith(s[j..], [c]) {
      if j < |s| {
        assert s[j..][0] == s[j];
      }
    }
  }

  /** Splitting on `c` undoes joining with `c` when no part holds `c`. */
  lemma {:induction false} SplitJoin(parts: seq<string>, c: char)
    requires |parts| >= 1
    requires forall k :: 0 <= k < |parts| ==> c !in parts[k]
    ensures Split(Join([c], parts), [c]) == parts
    decreases |parts|
  {
    if |parts| == 1 {
      SplitNone(parts[0], c);
    } else {
      var p := parts[0];
      var rest := Join([c], parts[1..]);
      var s := p + [c] + rest;
      assert Join([c], parts) == s;
      assert StartsWith(s[|p|..], [c]) by {
        assert s[|p|..][0] == c;
      }
      match Find(s, [c])
      case None =>
        assert false;
      case Some(i) =>
        assert s[..i] == p;
        assert s[i + 1..] == rest;
        SplitJoin(parts[1..], c);
    }
  }

  /** The longest prefix of `t` without whitespace. */
  function WordPrefix(t: string): (w: string)
    ensures |w| <= |t| && w == t[..|w|]
    ensures forall i :: 0 <= i < |w| ==> !IsSpace(w[i])
    ensures |w| < |t| ==> IsSpace(t[|w|])
  {
    if t == [] || IsSpace(t[0]) then [] else [t[0]] + WordPrefix(t[1..])
  }

  /** `s.split()`: the maximal runs of non-whitespace characters. */
  function Words(s: string): (r: seq<string>)
    ensures forall k :: 0 <= k < |r| ==> r[k] != []
    decreases |s|
  {
    var t := TrimLeft(s);
    if t == [] then []
    else
      var w := WordPrefix(t);
      [w] + Words(t[|w|..])
  }

  lemma {:induction false} WordPrefixAt(t: string, i: nat)
    requires i < |t| && IsSpace(t[i]) && forall j :: 0 <= j < i ==> !IsSpace(t[j])
    ensures WordPrefix(t) == t[..i]
    decreases i
  {
    if i > 0 {
      var u := t[1..];
      assert u[i - 1] == t[i];
      assert forall j :: 0 <= j < i - 1 ==> u[j] == t[j + 1];
      WordPrefixAt(u, i - 1);
      assert WordPrefix(t) == [t[0]] + WordPrefix(u);
      assert t[..i] == [t[0]] + u[..i - 1];
    }
  }

  /** A text that starts with a word followed by whitespace has one word more
      than the text after that whitespace. */
  lemma WordsFirst(s: string, i: nat, rest: string)
    requires 0 < i < |s| && IsSpace(s[i]) && forall j :: 0 <= j < i ==> !IsSpace(s[j])
    requires rest == s[i + 1..]
    ensures |Words(s)| == 1 + |Words(rest)|
  {
    assert TrimLeft(s) == s;
    WordPrefixAt(s, i);
    assert TrimLeft(s[i..]) == TrimLeft(s[i + 1..]);
  }

  /** A text that starts with a non-space has a word. */
  lemma WordsSome(s: string)
    requires |s| > 0 && !IsSpace(s[0])
    ensures |Words(s)| >= 1
  {
    assert TrimLeft(s) == s;
  }

  /** `WordsFirst` for the text after position `a`. */
  lemma WordsAfter(s: string, a: nat, b: nat)
    requires a + 1 < b < |s| && IsSpace(s[b]) && forall j :: a < j < b ==> !IsSpace(s[j])
    ensures |Words(s[a + 1..])| == 1 + |Words(s[b + 1..])|
  {
    var t := s[a + 1..];
    Shifted(s, t, a, b);
    WordsFirst(t, b - a - 1, s[b + 1..]);
  }

  /** The facts of `WordsAfter` about `s` restated for `s[a + 1..]`. */
  lemma Shifted(s: string, t: string, a: nat, b: nat)
    requires a + 1 < b < |s| && IsSpace(s[b]) && forall j :: a < j < b ==> !IsSpace(s[j])
    requires t == s[a + 1..]
    ensures 0 < b - a - 1 < |t| && IsSpace(t[b - a - 1])
    ensures forall j :: 0 <= j < b - a - 1 ==> !IsSpace(t[j])
    ensures t[b - a - 1 + 1..] == s[b + 1..]
  {
    assert t[b - a - 1] == s[b];
    assert forall j :: 0 <= j < b - a - 1 ==> t[j] == s[a + 1 + j];
  }

  lemma WordsTwo(s: string, b: nat, c: nat)
    requires b + 1 < c && c + 1 < |s| && IsSpace(s[c]) && !IsSpace(s[c + 1])
    requires forall j :: b < j < c ==> !IsSpace(s[j])
    ensures |Words(s[b + 1..])| >= 2
  {
    WordsAfter(s, b, c);
    WordsSome(s[c + 1..]);
  }

  lemma WordsThree(s: string, a: nat, b: nat, c: nat)
    requires a + 1 < b && b + 1 < c && c + 1 < |s| && IsSpace(s[b]) && IsSpace(s[c]) && !IsSpace(s[c + 1])
    requires forall j :: a < j < c && j != b ==> !IsSpace(s[j])
    ensures |Words(s[a + 1..])| >= 3
  {
    WordsAfter(s, a, b);
    WordsTwo(s, b, c);
  }

  /** A text that opens with four words, split by single whitespace characters
      at `a`, `b` and `c`, has at least four words. */
  lemma WordsAtLeastFour(s: string, a: nat, b: nat, c: nat)
    requires 0 < a && a + 1 < b && b + 1 < c && c + 1 < |s|
    requires IsSpace(s[a]) && IsSpace(s[b]) && IsSpace(s[c])
    requires forall j :: 0 <= j < c + 2 && j != a && j != b && j != c ==> !IsSpace(s[j])
    ensures |Words(s)| >= 4
  {
    WordsFirst(s, a, s[a + 1..]);
    WordsThree(s, a, b, c);
  }

  /** The lower-cased text does not contain `sub` when no two neighbouring
      characters lower-case to the characters of `sub` at `o` and `o + 1`. */
  lemma NotContainedLower(s: string, sub: string, o: nat)
    requires o + 1 < |sub|
    requires forall i :: 0 <= i < |s| - 1 ==> !(LowerChar(s[i]) == sub[o] && LowerChar(s[i + 1]) == sub[o + 1])
    ensures !Contains(Lower(s), sub)
  {
    ContainedLowerPair(s, sub, o);
  }

  /** Where the lower-cased text contains `sub`, two neighbouring characters
      lower-case to the characters of `sub` at `o` and `o + 1`. */
  lemma ContainedLowerPair(s: string, sub: string, o: nat)
    requires o + 1 < |sub|
    ensures Contains(Lower(s), sub) ==>
      exists i :: 0 <= i < |s| - 1 && LowerChar(s[i]) == sub[o] && LowerChar(s[i + 1]) == sub[o + 1]
  {
    if Contains(Lower(s), sub) {
      var i := ContainsWitness(Lower(s), sub);
      assert Lower(s)[i..][..|sub|] == sub;
      assert Lower(s)[i + o] == sub[o] && Lower(s)[i + o + 1] == sub[o + 1];
    }
  }

  /** Where the characters from `i` on lower-case to `sub`, the lower-cased text
      contains `sub`. */
  lemma LowerHas(s: string, i: nat, sub: string)
    requires i + |sub| <= |s|
    requires forall j :: 0 <= j < |sub| ==> LowerChar(s[i + j]) == sub[j]
    ensures Contains(Lower(s), sub)
  {
    assert Lower(s)[i..][..|sub|] == sub;
    ContainsAt(Lower(s), sub, i);
  }

  /** Where the lower-cased text contains `sub`, some character lower-cases to
      the character of `sub` at `o`. */
  lemma ContainedLowerChar(s: string, sub: string, o: nat)
    requires o < |sub|
    ensures Contains(Lower(s), sub) ==> exists i :: 0 <= i < |s| && LowerChar(s[i]) == sub[o]
  {
    if Contains(Lower(s), sub) {
      var i := ContainsWitness(Lower(s), sub);
      assert Lower(s)[i..][..|sub|] == sub;
      assert Lower(s)[i + o] == sub[o];
    }
  }

  /** The lower-cased text does not contain `sub` when no character lower-cases to
      the character of `sub` at `o`. */
  lemma NotContainedLetter(s: string, sub: string, o: nat)
    requires o < |sub|
    requires forall i :: 0 <= i < |s| ==> LowerChar(s[i]) != sub[o]
    ensures !Contains(Lower(s), sub)
  {
    ContainedLowerChar(s, sub, o);
  }

  /** Where the first line ends. */
  function LineEnd(s: string): (i: nat)
    ensures i <= |s|
    ensures forall j :: 0 <= j < i ==> !IsLineBreak(s[j])
    ensures i < |s| ==> IsLineBreak(s[i])
  {
    if s == [] || IsLineBreak(s[0]) then 0 else 1 + LineEnd(s[1..])
  }

  /** `s.splitlines()`: `\r\n` counts as one break, and a final break does not
      start an empty last line. */
  function SplitLines(s: string): (r: seq<string>)
    ensures forall k :: 0 <= k < |r| ==> forall j :: 0 <= j < |r[k]| ==> !IsLineBreak(r[k][j])
    decreases |s|
  {
    if s == [] then []
    else
      var i := LineEnd(s);
      if i == |s| then [s]
      else
        var skip := if s[i] == '\r' && i + 1 < |s| && s[i + 1] == '\n' then 2 else 1;
        [s[..i]] + SplitLines(s[i + skip..])
  }

  /** The first line ends at the first line break. */
  lemma {:induction false} LineEndAt(s: string, i: nat)
    requires i < |s| && IsLineBreak(s[i]) && forall j :: 0 <= j < i ==> !IsLineBreak(s[j])
    ensures LineEnd(s) == i
    decreases i
  {
    if i > 0 {
      LineEndAt(s[1..], i - 1);
    }
  }

  /** Splitting lines joined by `\n` gives the lines back, when none of them holds a
      line break and the last is not empty. */
  lemma {:induction false} SplitLinesJoin(parts: seq<string>)
    requires |parts| >= 1 && parts[|parts| - 1] != []
    requires forall k, j :: 0 <= k < |parts| && 0 <= j < |parts[k]| ==> !IsLineBreak(parts[k][j])
    ensures SplitLines(Join("\n", parts)) == parts
    decreases |parts|
  {
    var p := parts[0];
    if |parts| == 1 {
      assert LineEnd(p) == |p|;
    } else {
      var rest := Join("\n", parts[1..]);
      var s := p + "\n" + rest;
      assert Join("\n", parts) == s;
      LineEndAt(s, |p|);
      assert s[..|p|] == p && s[|p| + 1..] == rest;
      SplitLinesJoin(parts[1..]);
    }
  }

  /** Python's `a < b` on strings: code point by code point. */
  predicate LexLess(a: string, b: string) {
    if |a| == 0 then |b| > 0
    else if |b| == 0 then false
    else a[0] < b[0] || (a[0] == b[0] && LexLess(a[1..], b[1..]))
  }

  lemma {:induction false} LexLessIrreflexive(a: string)
    ensures !LexLess(a, a)
  {
    if |a| > 0 {
      LexLessIrreflexive(a[1..]);
    }
  }

  lemma {:induction false} LexLessTransitive(a: string, b: string, c: string)
    requires LexLess(a, b) && LexLess(b, c)
    ensures LexLess(a, c)
  {
    if |a| > 0 && a[0] == b[0] && b[0] == c[0] {
      LexLessTransitive(a[1..], b[1..], c[1..]);
    }
  }

  lemma {:induction false} LexLessTotal(a: string, b: string)
    requires a != b
    ensures LexLess(a, b) || LexLess(b, a)
  {
    if |a| > 0 && |b| > 0 && a[0] == b[0] {
      assert a == [a[0]] + a[1..] && b == [b[0]] + b[1..];
      LexLessTotal(a[1..], b[1..]);
    }
  }

  function DigitChar(d: nat): (c: char)
    requires d < 10
    ensures IsDigit(c)
  {
    ('0' as int + d) as char
  }

  /** `str(n)` for a natural number. */
  function NatToString(n: nat): (r: string)
    ensures |r| >= 1
    ensures forall i :: 0 <= i < |r| ==> IsDigit(r[i])
  {
    if n < 10 then [DigitChar(n)] else NatToString(n / 10) + [DigitChar(n % 10)]
  }

  /** `str(i)` for an integer. */
  function IntToString(i: int): string {
    if i < 0 then "-" + NatToString(-i) else NatToString(i)
  }

  /** Digits only. */
  predicate AllDigits(s: string) {
    forall k :: 0 <= k < |s| ==> IsDigit(s[k])
  }

  /** The value of a string of decimal digits. */
  function DigitsValue(s: string): nat
    requires AllDigits(s)
  {
    if s == [] then 0
    else
      assert IsDigit(s[|s| - 1]);
      DigitsValue(s[..|s| - 1]) * 10 + (s[|s| - 1] as int - '0' as int)
  }

  /** The value of two digits. */
  lemma DigitsTwo(s: string)
    requires |s| == 2 && AllDigits(s)
    ensures DigitsValue(s) == (s[0] as int - '0' as int) * 10 + (s[1] as int - '0' as int)
  {
    assert s[..|s| - 1] == [s[0]];
    assert [s[0]][..0] == [];
    assert DigitsValue([s[0]]) == s[0] as int - '0' as int;
  }

  /** The value of four digits. */
  lemma DigitsFour(s: string)
    requires |s| == 4 && AllDigits(s)
    ensures DigitsValue(s) == DigitsValue(s[..2]) * 100 + (s[2] as int - '0' as int) * 10 + (s[3] as int - '0' as int)
    ensures DigitsValue(s[..2]) == (s[0] as int - '0' as int) * 10 + (s[1] as int - '0' as int)
  {
    assert s[..3][..2] == s[..2];
    DigitsTwo(s[..2]);
  }
}
