/** `utils/passage_loader.py`: cleaning a Project Gutenberg text and cutting it
    into reading passages of paragraphs. Fetching, the local passage files and the
    database are not part of this model; the shuffle's random draws are a
    parameter. */
module PassageLoader {
  import opened Values
  import opened Text

  // ---------------------------------------------------------------------------
  // clean_text

  const StartMarker: string := "*** START"
  const EndMarker: string := "*** END"

  /** `text[start:end]` when both markers occur (empty when the end marker comes
      first), else the whole text. */
  function Cut(text: string): string {
    match (Find(text, StartMarker), Find(text, EndMarker))
    case (Some(s), Some(e)) => if s <= e then text[s..e] else ""
    case _ => text
  }

  /** `clean_text(text)`: the cut, without carriage returns, stripped. */
  function CleanText(text: string): (r: string)
    ensures Stripped(r)
    ensures '\r' !in r
  {
    var t := Replace(Cut(text), "\r", "");
    ReplaceDrop(Cut(text), '\r');
    StripSubset(t);
    Strip(t)
  }

  /** Without both markers, the whole text is cleaned; a text that is already
      stripped and has no carriage return comes back unchanged. */
  lemma CleanTextNoMarkers(text: string)
    requires Find(text, StartMarker).None? || Find(text, EndMarker).None?
    ensures CleanText(text) == Strip(Replace(text, "\r", ""))
    ensures Stripped(text) && '\r' !in text ==> CleanText(text) == text
  {
    if '\r' !in text {
      ContainsChar(text, '\r');
      ReplaceAbsent(text, "\r", "");
    }
  }

  /** With both markers, the text from the first start marker, inclusive, to the
      first end marker, exclusive, is cleaned; an end marker before the start
      marker leaves nothing. */
  lemma CleanTextMarkers(text: string)
    requires Find(text, StartMarker).Some? && Find(text, EndMarker).Some?
    ensures var s, e := Find(text, StartMarker).value, Find(text, EndMarker).value;
      if s <= e then
        s + |StartMarker| <= e && StartsWith(text[s..e], StartMarker) &&
        CleanText(text) == Strip(Replace(text[s..e], "\r", ""))
      else CleanText(text) == ""
  {
    var s, e := Find(text, StartMarker).value, Find(text, EndMarker).value;
    if s <= e {
      MarkersApart(text, s, e);
      assert text[s..e][..|StartMarker|] == text[s..][..|StartMarker|];
    } else {
      assert Replace("", "\r", "") == "";
    }
  }

  /** The end marker cannot begin inside the start marker, so the start marker is
      kept whole. */
  lemma MarkersApart(text: string, s: nat, e: nat)
    requires s <= e <= |text| && StartsWith(text[s..], StartMarker) && StartsWith(text[e..], EndMarker)
    ensures s + |StartMarker| <= e
  {
    if e < s + |StartMarker| {
      NoEndInside(text, s, e - s);
      assert false;
    }
  }

  /** No end marker begins inside a start marker. */
  lemma NoEndInside(text: string, s: nat, k: nat)
    requires s <= |text| && StartsWith(text[s..], StartMarker) && k < |StartMarker|
    ensures !StartsWith(text[s + k..], EndMarker)
  {
    var j := Mismatch(k);
    assert text[s..][k + j] == StartMarker[k + j];
    if s + k + j < |text| {
      assert text[s + k..][j] == text[s..][k + j];
    }
  }

  /** Where the end marker, laid over the start marker from position `k`, first
      disagrees with it. */
  function Mismatch(k: nat): (j: nat)
    requires k < |StartMarker|
    ensures j < |EndMarker| && k + j < |StartMarker| && StartMarker[k + j] != EndMarker[j]
  {
    if k == 0 then 4 else if k <= 2 then 3 - k else 0
  }

  // ---------------------------------------------------------------------------
  // split_into_passages: paragraphs

  /** Non-empty, stripped texts: what a paragraph is. */
  predicate Paras(ps: seq<string>) {
    forall j :: 0 <= j < |ps| ==> ps[j] != "" && Stripped(ps[j])
  }

  /** `[p.strip() for p in text.split("\n\n") if len(p.strip()) > 0]`. */
  function Paragraphs(text: string): seq<string> {
    NonEmptyStripped(Split(text, "\n\n"))
  }

  // ---------------------------------------------------------------------------
  // split_into_passages: packing

  /** The text a group of paragraphs accumulates in `current`. The first group
      starts from `""`, so each of its paragraphs is preceded by the separator; a
      later group starts from its first paragraph. */
  function Raw(g: seq<string>, first: bool): string {
    if first then (if g == [] then "" else "\n\n" + Join("\n\n", g)) else Join("\n\n", g)
  }

  /** The groups the loop forms: the last one is `current` when the loop ends. A
      paragraph joins the group when the group's text and the paragraph are
      together shorter than `maxLen`; otherwise it starts the next group. */
  function Pack(ps: seq<string>, maxLen: int): (gs: seq<seq<string>>)
    ensures |gs| >= 1
    ensures forall i :: 1 <= i < |gs| ==> gs[i] != []
    ensures forall i, j :: 0 <= i < |gs| && 0 <= j < |gs[i]| ==> gs[i][j] in ps
    decreases |ps|
  {
    if ps == [] then [[]]
    else
      var prev := Pack(ps[..|ps| - 1], maxLen);
      var p := ps[|ps| - 1];
      var cur := prev[|prev| - 1];
      if |Raw(cur, |prev| == 1)| + |p| < maxLen then prev[..|prev| - 1] + [cur + [p]]
      else prev + [[p]]
  }

  /** The groups whose text is longer than `minLen`, each stripped, in order. */
  function Emitted(gs: seq<seq<string>>, minLen: int): seq<string>
    decreases |gs|
  {
    if gs == [] then []
    else
      var g := gs[|gs| - 1];
      Emitted(gs[..|gs| - 1], minLen) + if |Raw(g, |gs| == 1)| > minLen then [Join("\n\n", g)] else []
  }

  /** The passages before the shuffle. */
  function Passages(text: string, minLen: int, maxLen: int): seq<string> {
    Emitted(Pack(Paragraphs(text), maxLen), minLen)
  }

  /** The groups, concatenated. */
  function Flatten<T>(gs: seq<seq<T>>): seq<T>
    decreases |gs|
  {
    if gs == [] then [] else Flatten(gs[..|gs| - 1]) + gs[|gs| - 1]
  }

  /** Packing keeps every paragraph, in order: the groups are consecutive runs. */
  lemma {:induction false} PackFlatten(ps: seq<string>, maxLen: int)
    ensures Flatten(Pack(ps, maxLen)) == ps
    decreases |ps|
  {
    if ps != [] {
      var init := ps[..|ps| - 1];
      var prev := Pack(init, maxLen);
      var p := ps[|ps| - 1];
      var cur := prev[|prev| - 1];
      PackFlatten(init, maxLen);
      var gs := Pack(ps, maxLen);
      if |Raw(cur, |prev| == 1)| + |p| < maxLen {
        assert gs == prev[..|prev| - 1] + [cur + [p]];
        FlattenJoin(prev, p);
      } else {
        assert gs == prev + [[p]];
        FlattenSnoc(prev, [p]);
      }
      InitLast(ps);
    }
  }

  lemma InitLast<T>(s: seq<T>)
    requires s != []
    ensures s[..|s| - 1] + [s[|s| - 1]] == s
  {
  }

  lemma FlattenJoin<T>(gs: seq<seq<T>>, p: T)
    requires gs != []
    ensures Flatten(gs[..|gs| - 1] + [gs[|gs| - 1] + [p]]) == Flatten(gs) + [p]
  {
    var init, cur := gs[..|gs| - 1], gs[|gs| - 1];
    FlattenSnoc(init, cur);
    InitLast(gs);
    FlattenSnoc(init, cur + [p]);
  }

  lemma FlattenSnoc<T>(gs: seq<seq<T>>, g: seq<T>)
    ensures Flatten(gs + [g]) == Flatten(gs) + g
  {
    assert (gs + [g])[..|gs|] == gs;
  }

  /** A group is empty (only the first can be), holds a single paragraph that
      did not fit after the group before it, or has a text (separators included)
      under `maxLen + 2`: a paragraph only joins when the group's text and the
      paragraph together, without the separator, are under `maxLen`. */
  predicate Fits(gs: seq<seq<string>>, maxLen: int) {
    forall i :: 0 <= i < |gs| ==> gs[i] == [] || (i > 0 && |gs[i]| == 1) || |Raw(gs[i], i == 0)| < maxLen + 2
  }

  /** Every group fits. */
  lemma {:induction false} PackFits(ps: seq<string>, maxLen: int)
    ensures Fits(Pack(ps, maxLen), maxLen)
    decreases |ps|
  {
    if ps != [] {
      var init := ps[..|ps| - 1];
      var prev := Pack(init, maxLen);
      var p := ps[|ps| - 1];
      var last := |prev| - 1;
      var cur := prev[last];
      PackFits(init, maxLen);
      if |Raw(cur, last == 0)| + |p| < maxLen {
        FitsJoin(prev, p, maxLen);
      } else {
        FitsBreak(prev, p, maxLen);
      }
    }
  }

  /** A paragraph starting a group keeps the groups fitting. */
  lemma FitsBreak(prev: seq<seq<string>>, p: string, maxLen: int)
    requires prev != [] && Fits(prev, maxLen)
    ensures Fits(prev + [[p]], maxLen)
  {
    PackBreakFrame(prev, [p]);
  }

  /** A paragraph joining the last group keeps the groups fitting. */
  lemma FitsJoin(prev: seq<seq<string>>, p: string, maxLen: int)
    requires prev != [] && Fits(prev, maxLen) && (|prev| > 1 ==> prev[|prev| - 1] != [])
    requires |Raw(prev[|prev| - 1], |prev| == 1)| + |p| < maxLen
    ensures Fits(prev[..|prev| - 1] + [prev[|prev| - 1] + [p]], maxLen)
  {
    var last := |prev| - 1;
    var cur := prev[last];
    RawSnoc(cur, last == 0, p);
    assert |Raw(cur + [p], last == 0)| < maxLen + 2;
    PackJoinFrame(prev, cur + [p]);
  }

  /** Replacing the last group keeps the others where they were. */
  lemma PackJoinFrame(prev: seq<seq<string>>, g: seq<string>)
    requires prev != []
    ensures var gs := prev[..|prev| - 1] + [g];
      |gs| == |prev| && gs[|gs| - 1] == g && forall i :: 0 <= i < |prev| - 1 ==> gs[i] == prev[i]
  {
  }

  /** Starting a group keeps the others where they were. */
  lemma PackBreakFrame(prev: seq<seq<string>>, g: seq<string>)
    ensures var gs := prev + [g];
      |gs| == |prev| + 1 && gs[|prev|] == g && forall i :: 0 <= i < |prev| ==> gs[i] == prev[i]
  {
  }

  /** A group is closed only by a paragraph that does not fit after it. */
  predicate Greedy(gs: seq<seq<string>>, maxLen: int)
    requires forall i :: 1 <= i < |gs| ==> gs[i] != []
  {
    forall i :: 0 <= i < |gs| - 1 ==> |Raw(gs[i], i == 0)| + |gs[i + 1][0]| >= maxLen
  }

  /** Every group but the last was closed by a paragraph that did not fit. */
  lemma {:induction false} PackGreedy(ps: seq<string>, maxLen: int)
    ensures Greedy(Pack(ps, maxLen), maxLen)
    decreases |ps|
  {
    if ps != [] {
      var init := ps[..|ps| - 1];
      var prev := Pack(init, maxLen);
      var p := ps[|ps| - 1];
      var last := |prev| - 1;
      var cur := prev[last];
      PackGreedy(init, maxLen);
      if |Raw(cur, last == 0)| + |p| < maxLen {
        GreedyJoin(prev, p, maxLen);
      } else {
        GreedyBreak(prev, p, maxLen);
      }
    }
  }

  /** A paragraph joining the last group keeps every earlier group closed by the
      same first paragraph. */
  lemma GreedyJoin(prev: seq<seq<string>>, p: string, maxLen: int)
    requires prev != [] && forall i :: 1 <= i < |prev| ==> prev[i] != []
    requires Greedy(prev, maxLen)
    ensures var gs := prev[..|prev| - 1] + [prev[|prev| - 1] + [p]];
      (forall i :: 1 <= i < |gs| ==> gs[i] != []) && Greedy(gs, maxLen)
  {
    var last := |prev| - 1;
    var cur := prev[last];
    PackJoinFrame(prev, cur + [p]);
    if last > 0 {
      assert (cur + [p])[0] == cur[0];
    }
  }

  /** A paragraph that does not fit closes the last group. */
  lemma GreedyBreak(prev: seq<seq<string>>, p: string, maxLen: int)
    requires prev != [] && forall i :: 1 <= i < |prev| ==> prev[i] != []
    requires Greedy(prev, maxLen)
    requires |Raw(prev[|prev| - 1], |prev| == 1)| + |p| >= maxLen
    ensures var gs := prev + [[p]];
      (forall i :: 1 <= i < |gs| ==> gs[i] != []) && Greedy(gs, maxLen)
  {
    var gs := prev + [[p]];
    PackBreakFrame(prev, [p]);
    assert forall i :: 1 <= i < |gs| ==> gs[i] != [];
    forall i | 0 <= i < |gs| - 1
      ensures |Raw(gs[i], i == 0)| + |gs[i + 1][0]| >= maxLen
    {
      if i + 1 == |prev| {
        assert gs[i + 1] == [p];
      } else {
        assert gs[i + 1] == prev[i + 1];
      }
    }
  }

  /** What a passage is: stripped; longer than `minLen`, less the two characters of
      the first group's leading separator; and under `maxLen + 2` characters unless
      it is a single paragraph, or empty (the first group emitted before any
      paragraph joined it, which takes a negative `minLen`). */
  predicate IsPassage(q: string, ps: seq<string>, minLen: int, maxLen: int) {
    Stripped(q) && |q| + 2 > minLen && (|q| < maxLen + 2 || q in ps || q == "")
  }

  /** The passage of a group, when it is emitted. */
  lemma GroupPassage(gs: seq<seq<string>>, i: nat, ps: seq<string>, minLen: int, maxLen: int)
    requires i < |gs| && Paras(gs[i]) && Fits(gs, maxLen) && (i > 0 ==> gs[i] != [])
    requires forall j :: 0 <= j < |gs[i]| ==> gs[i][j] in ps
    requires |Raw(gs[i], i == 0)| > minLen
    ensures IsPassage(Join("\n\n", gs[i]), ps, minLen, maxLen)
  {
    var g := gs[i];
    if g != [] {
      JoinStripped(g);
    }
    if |g| == 1 {
      assert Join("\n\n", g) == g[0];
    }
  }

  /** Every passage emitted for well-formed groups is a passage. */
  lemma {:induction false} EmittedPassages(gs: seq<seq<string>>, ps: seq<string>, minLen: int, maxLen: int)
    requires Fits(gs, maxLen)
    requires forall i :: 0 <= i < |gs| ==> Paras(gs[i]) && (i > 0 ==> gs[i] != [])
    requires forall i, j :: 0 <= i < |gs| && 0 <= j < |gs[i]| ==> gs[i][j] in ps
    ensures forall k :: 0 <= k < |Emitted(gs, minLen)| ==> IsPassage(Emitted(gs, minLen)[k], ps, minLen, maxLen)
    decreases |gs|
  {
    if gs != [] {
      var init := gs[..|gs| - 1];
      assert Fits(init, maxLen);
      EmittedPassages(init, ps, minLen, maxLen);
      if |Raw(gs[|gs| - 1], |gs| == 1)| > minLen {
        GroupPassage(gs, |gs| - 1, ps, minLen, maxLen);
      }
    }
  }

  /** Every passage `split_into_passages` returns is stripped, longer than
      `min_len - 2`, and shorter than `max_len + 2` unless it is a single
      paragraph of the text. */
  lemma PassagesShape(text: string, minLen: int, maxLen: int)
    ensures forall k :: 0 <= k < |Passages(text, minLen, maxLen)| ==>
      IsPassage(Passages(text, minLen, maxLen)[k], Paragraphs(text), minLen, maxLen)
  {
    var ps := Paragraphs(text);
    PackFits(ps, maxLen);
    PackParas(ps, maxLen);
    EmittedPassages(Pack(ps, maxLen), ps, minLen, maxLen);
  }

  // ---------------------------------------------------------------------------
  // The loop and the shuffle

  /** `random.shuffle` on a list: Fisher-Yates from the last position down, the
      `k`-th draw choosing the position swapped in (a missing draw chooses 0). */
  method Shuffle(a: array<string>, draws: seq<nat>)
    modifies a
    ensures multiset(a[..]) == multiset(old(a[..]))
  {
    var i := a.Length - 1;
    while i > 0
      invariant i < a.Length
      invariant multiset(a[..]) == multiset(old(a[..]))
    {
      var k := a.Length - 1 - i;
      var j := if k < |draws| then draws[k] % (i + 1) else 0;
      a[i], a[j] := a[j], a[i];
      i := i - 1;
    }
  }

  /** What the loop holds after the first `i` paragraphs: `current` is the text
      of the last group formed so far, and `chunks` the passages emitted for the
      groups before it. */
  ghost predicate Scanned(ps: seq<string>, i: nat, minLen: int, maxLen: int, current: string, chunks: seq<string>)
    requires i <= |ps|
  {
    var gs := Pack(ps[..i], maxLen);
    current == Raw(gs[|gs| - 1], |gs| == 1) && chunks == Emitted(gs[..|gs| - 1], minLen)
  }

  /** The text of a group, stripped, when it is long enough. */
  function Emit(current: string, minLen: int): (r: seq<string>)
    ensures |r| <= 1
    ensures r != [] <==> |current| > minLen
  {
    if |current| > minLen then [Strip(current)] else []
  }

  /** A new list holding `s`. */
  method ListOf(s: seq<string>) returns (a: array<string>)
    ensures fresh(a) && a[..] == s
  {
    a := new string[|s|](i requires 0 <= i < |s| => s[i]);
  }

  /** `split_into_passages(text, min_len, max_len)`: the passages, in the order the
      shuffle leaves them. */
  method SplitIntoPassages(text: string, minLen: int, maxLen: int, draws: seq<nat>) returns (passages: seq<string>)
    ensures multiset(passages) == multiset(Passages(text, minLen, maxLen))
  {
    var chunks := PackPassages(Paragraphs(text), minLen, maxLen);
    var a := ListOf(chunks);
    Shuffle(a, draws);
    passages := a[..];
  }

  /** The loop of `split_into_passages` over the paragraphs: the passages before
      the shuffle. */
  method PackPassages(paragraphs: seq<string>, minLen: int, maxLen: int) returns (chunks: seq<string>)
    requires Paras(paragraphs)
    ensures chunks == Emitted(Pack(paragraphs, maxLen), minLen)
  {
    chunks := [];
    var current := "";
    for i := 0 to |paragraphs|
      invariant Scanned(paragraphs, i, minLen, maxLen, current, chunks)
    {
      var p := paragraphs[i];
      if |current| + |p| < maxLen {
        ScanJoin(paragraphs, i, minLen, maxLen, current, chunks);
        current := current + "\n\n" + p;
      } else {
        ScanBreak(paragraphs, i, minLen, maxLen, current, chunks);
        if |current| > minLen {
          chunks := chunks + [Strip(current)];
        }
        current := p;
      }
    }
    ScanEnd(paragraphs, minLen, maxLen, current, chunks);
    if |current| > minLen {
      chunks := chunks + [Strip(current)];
    }
  }

  /** A paragraph that fits is appended to `current`. */
  lemma ScanJoin(ps: seq<string>, i: nat, minLen: int, maxLen: int, current: string, chunks: seq<string>)
    requires i < |ps| && Scanned(ps, i, minLen, maxLen, current, chunks)
    requires |current| + |ps[i]| < maxLen
    ensures Scanned(ps, i + 1, minLen, maxLen, current + "\n\n" + ps[i], chunks)
  {
    var gs := Pack(ps[..i], maxLen);
    var cur := gs[|gs| - 1];
    PackStep(ps, i, maxLen);
    RawSnoc(cur, |gs| == 1, ps[i]);
    var gs' := Pack(ps[..i + 1], maxLen);
    assert gs' == gs[..|gs| - 1] + [cur + [ps[i]]];
    assert gs'[..|gs'| - 1] == gs[..|gs| - 1];
  }

  /** A paragraph that does not fit closes the group, emitting it when it is long
      enough, and starts the next one. */
  lemma ScanBreak(ps: seq<string>, i: nat, minLen: int, maxLen: int, current: string, chunks: seq<string>)
    requires i < |ps| && Paras(ps) && Scanned(ps, i, minLen, maxLen, current, chunks)
    requires |current| + |ps[i]| >= maxLen
    ensures Scanned(ps, i + 1, minLen, maxLen, ps[i], chunks + Emit(current, minLen))
  {
    var gs := Pack(ps[..i], maxLen);
    PackStep(ps, i, maxLen);
    var gs' := Pack(ps[..i + 1], maxLen);
    assert gs' == gs + [[ps[i]]];
    PackParas(ps[..i], maxLen);
    EmittedLast(gs, minLen);
    EmittedNext(gs, [ps[i]], minLen);
  }

  /** After the last paragraph, emitting `current` completes the passages. */
  lemma ScanEnd(ps: seq<string>, minLen: int, maxLen: int, current: string, chunks: seq<string>)
    requires Paras(ps) && Scanned(ps, |ps|, minLen, maxLen, current, chunks)
    ensures chunks + Emit(current, minLen) == Emitted(Pack(ps, maxLen), minLen)
  {
    assert ps[..|ps|] == ps;
    PackParas(ps, maxLen);
    EmittedLast(Pack(ps, maxLen), minLen);
  }

  /** A group started after others is the only one after them. */
  lemma EmittedNext(gs: seq<seq<string>>, g: seq<string>, minLen: int)
    ensures var gs' := gs + [g]; gs'[..|gs'| - 1] == gs
  {
  }

  /** The groups hold paragraphs only. */
  lemma PackParas(ps: seq<string>, maxLen: int)
    requires Paras(ps)
    ensures forall i :: 0 <= i < |Pack(ps, maxLen)| ==> Paras(Pack(ps, maxLen)[i])
  {
  }

  /** The last group's passage, when it has one, follows the others'. */
  lemma EmittedLast(gs: seq<seq<string>>, minLen: int)
    requires gs != [] && Paras(gs[|gs| - 1])
    ensures Emitted(gs, minLen) == Emitted(gs[..|gs| - 1], minLen) + Emit(Raw(gs[|gs| - 1], |gs| == 1), minLen)
  {
    var g := gs[|gs| - 1];
    if |Raw(g, |gs| == 1)| > minLen {
      RawStrip(g, |gs| == 1);
    }
  }

  /** One more paragraph either joins the last group or starts a new one. */
  lemma PackStep(ps: seq<string>, i: nat, maxLen: int)
    requires i < |ps|
    ensures var gs := Pack(ps[..i], maxLen); var cur := gs[|gs| - 1];
      Pack(ps[..i + 1], maxLen)
      == if |Raw(cur, |gs| == 1)| + |ps[i]| < maxLen then gs[..|gs| - 1] + [cur + [ps[i]]] else gs + [[ps[i]]]
  {
    assert ps[..i + 1][..i] == ps[..i];
  }

  /** Joining a paragraph to a group's text appends the separator and the
      paragraph. */
  lemma RawSnoc(g: seq<string>, first: bool, p: string)
    requires !first ==> g != []
    ensures Raw(g + [p], first) == Raw(g, first) + "\n\n" + p
  {
    if g == [] {
      assert g + [p] == [p];
    } else {
      JoinSnoc("\n\n", g, p);
    }
  }

  /** The text of a group of stripped, non-empty paragraphs strips to the
      paragraphs joined by blank lines. */
  lemma RawStrip(g: seq<string>, first: bool)
    requires Paras(g)
    ensures Strip(Raw(g, first)) == Join("\n\n", g)
  {
    var joined := Join("\n\n", g);
    if g == [] {
      assert Raw(g, first) == "" == joined;
    } else {
      JoinStripped(g);
      if first {
        assert Raw(g, first) == "\n\n" + joined;
        StripAfterBlank(joined);
      } else {
        assert Raw(g, first) == joined;
      }
    }
  }

  /** A blank line before a stripped text strips away. */
  lemma StripAfterBlank(s: string)
    requires Stripped(s)
    ensures Strip("\n\n" + s) == s
  {
    var blank := "\n\n";
    assert IsSpace(blank[0]) && IsSpace(blank[1]);
    StripSpacePrefix(blank, s);
    assert Strip(s) == s;
  }

  /** A join of non-empty parts begins with the first part's first character and
      ends with the last part's last character. */
  lemma {:induction false} JoinEnds(sep: string, parts: seq<string>)
    requires parts != [] && forall j :: 0 <= j < |parts| ==> parts[j] != ""
    ensures |Join(sep, parts)| >= 1
    ensures Join(sep, parts)[0] == parts[0][0]
    ensures Join(sep, parts)[|Join(sep, parts)| - 1] == parts[|parts| - 1][|parts[|parts| - 1]| - 1]
    decreases |parts|
  {
    if |parts| > 1 {
      JoinEnds(sep, parts[1..]);
    }
  }

  /** Paragraphs joined by blank lines are still stripped. */
  lemma JoinStripped(g: seq<string>)
    requires g != [] && Paras(g)
    ensures Stripped(Join("\n\n", g))
  {
    var first, last := g[0], g[|g| - 1];
    StrippedEnd(first);
    StrippedEnd(last);
    JoinEnds("\n\n", g);
  }

  lemma StrippedEnd(s: string)
    requires s != "" && Stripped(s)
    ensures !IsSpace(s[0]) && !IsSpace(s[|s| - 1])
  {
  }
}
