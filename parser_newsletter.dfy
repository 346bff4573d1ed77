/** Turning a school newsletter into `(subject, topic, date)` records:
    `extract_topic` takes the topic from one line, `get_date` the date of the whole
    text (with today's date, already formatted, as a parameter) and
    `parse_newsletter` pairs every line with every subject it names. The flat
    `update_topics` of the same file is in module `NewsletterTopics`. */
module ParserNewsletter {
  import opened Values
  import opened Text

  // ---------------------------------------------------------------------------
  // extract_topic

  /** The separators of `re.split(r'[:\-]', line)`. */
  predicate IsSep(c: char) {
    c == ':' || c == '-'
  }

  /** Where the first separator is. */
  function FirstSep(s: string): (r: Option<nat>)
    ensures r.Some? ==> r.value < |s| && IsSep(s[r.value])
    ensures r.Some? ==> forall j :: 0 <= j < r.value ==> !IsSep(s[j])
    ensures r.None? ==> forall j :: 0 <= j < |s| ==> !IsSep(s[j])
  {
    if s == [] then None
    else if IsSep(s[0]) then Some(0)
    else
      match FirstSep(s[1..])
      case None => None
      case Some(i) => Some(i + 1)
  }

  /** `re.split(r'[:\-]', s)`: the pieces between separators, in order. */
  function SplitSeps(s: string): (parts: seq<string>)
    ensures |parts| >= 1
    ensures forall k :: 0 <= k < |parts| ==> forall j :: 0 <= j < |parts[k]| ==> !IsSep(parts[k][j])
    decreases |s|
  {
    match FirstSep(s)
    case None => [s]
    case Some(i) => [s[..i]] + SplitSeps(s[i + 1..])
  }

  /** `extract_topic(line)`. */
  function ExtractTopic(line: string): (r: string)
    ensures (exists k :: 0 <= k < |line| && IsSep(line[k])) ==>
      ' ' !in r && forall k :: 0 <= k < |r| ==> !IsSep(r[k]) && !('A' <= r[k] <= 'Z')
    ensures (forall k :: 0 <= k < |line| ==> !IsSep(line[k])) ==> r == Lower(Strip(line))
  {
    var parts := SplitSeps(line);
    if |parts| > 1 then
      TopicChars(parts[1]);
      Replace(Lower(Strip(parts[1])), " ", "_")
    else
      assert (exists k :: 0 <= k < |line| && IsSep(line[k])) ==> FirstSep(line).Some?;
      Lower(Strip(line))
  }

  /** A piece without separators gives a topic without spaces, separators or
      capitals. */
  lemma TopicChars(p: string)
    requires forall j :: 0 <= j < |p| ==> !IsSep(p[j])
    ensures var r := Replace(Lower(Strip(p)), " ", "_");
      ' ' !in r && forall k :: 0 <= k < |r| ==> !IsSep(r[k]) && !('A' <= r[k] <= 'Z')
  {
    var t := Lower(Strip(p));
    StripSubset(p);
    ReplaceChar(t, ' ', '_');
    var r := Replace(t, " ", "_");
    forall k | 0 <= k < |r|
      ensures r[k] != ' ' && !IsSep(r[k]) && !('A' <= r[k] <= 'Z')
    {
      assert Strip(p)[k] in Strip(p);
    }
  }

  /** With a separator in the line, the topic is the text between the first and the
      second separator (or the end of the line), stripped, lower-cased and with
      spaces turned into `_`. */
  lemma {:induction false} ExtractTopicBetween(pre: string, sep: char, mid: string, rest: string)
    requires forall j :: 0 <= j < |pre| ==> !IsSep(pre[j])
    requires IsSep(sep)
    requires forall j :: 0 <= j < |mid| ==> !IsSep(mid[j])
    requires rest == [] || IsSep(rest[0])
    ensures ExtractTopic(pre + [sep] + mid + rest) == Replace(Lower(Strip(mid)), " ", "_")
  {
    var line := pre + [sep] + mid + rest;
    assert line[|pre|] == sep;
    assert FirstSep(line) == Some(|pre|);
    var tail := line[|pre| + 1..];
    assert tail == mid + rest;
    if rest == [] {
      assert tail == mid;
      assert FirstSep(tail) == None;
    } else {
      assert tail[|mid|] == rest[0];
      assert FirstSep(tail) == Some(|mid|);
      assert tail[..|mid|] == mid;
    }
    assert SplitSeps(line)[1] == mid;
  }

  // ---------------------------------------------------------------------------
  // get_date

  /** The length of the run of digits starting at `i`. */
  function DigitRun(s: string, i: nat): (n: nat)
    requires i <= |s|
    ensures i + n <= |s|
    ensures forall k :: i <= k < i + n ==> IsDigit(s[k])
    ensures i + n < |s| ==> !IsDigit(s[i + n])
    decreases |s| - i
  {
    if i < |s| && IsDigit(s[i]) then 1 + DigitRun(s, i + 1) else 0
  }

  /** A match of `\b\d{1,2}/\d{1,2}/\d{2,4}\b`: where it starts and its three digit
      groups. */
  datatype DateMatch = DateMatch(start: nat, month: string, day: string, year: string)

  /** `\b` before a digit at `p`: nothing, or a non-word character, precedes it. */
  predicate BoundaryBefore(s: string, p: nat)
    requires p <= |s|
  {
    p == 0 || !IsWordChar(s[p - 1])
  }

  /** `\b` after a digit ending at `p`: nothing, or a non-word character, follows. */
  predicate BoundaryAfter(s: string, p: nat)
    requires p <= |s|
  {
    p == |s| || !IsWordChar(s[p])
  }

  /** The regex matched at position `p`, if it does. A digit group is always a whole
      run of digits: a shorter prefix of a run is followed by a digit, which is
      neither `/` nor a word boundary, so backtracking finds nothing more. */
  function MatchAt(s: string, p: nat): (r: Option<DateMatch>)
    requires p <= |s|
    ensures r.Some? ==> r.value.start == p && AllDigits(r.value.month) && AllDigits(r.value.day) && AllDigits(r.value.year)
    ensures r.Some? ==> 1 <= |r.value.month| <= 2 && 1 <= |r.value.day| <= 2 && 2 <= |r.value.year| <= 4
    ensures r.Some? ==> p + |r.value.month| + |r.value.day| + |r.value.year| + 2 <= |s|
  {
    var a := DigitRun(s, p);
    if !(BoundaryBefore(s, p) && 1 <= a <= 2 && p + a < |s| && s[p + a] == '/') then None
    else
      var q := p + a + 1;
      var b := DigitRun(s, q);
      if !(1 <= b <= 2 && q + b < |s| && s[q + b] == '/') then None
      else
        var y := q + b + 1;
        var c := DigitRun(s, y);
        if !(2 <= c <= 4 && BoundaryAfter(s, y + c)) then None
        else
          Some(DateMatch(p, s[p..p + a], s[q..q + b], s[y..y + c]))
  }

  /** A match is the text at `p`: the month digits, `/`, the day digits, `/`,
      the year digits, with a word boundary before and after. */
  lemma MatchAtLayout(s: string, p: nat)
    requires p <= |s| && MatchAt(s, p).Some?
    ensures var m := MatchAt(s, p).value;
      var i := p + |m.month|;
      var j := i + 1 + |m.day|;
      var e := j + 1 + |m.year|;
      && e <= |s|
      && s[p..i] == m.month && s[i] == '/'
      && s[i + 1..j] == m.day && s[j] == '/'
      && s[j + 1..e] == m.year
      && BoundaryBefore(s, p) && BoundaryAfter(s, e)
  {
  }

  /** `re.search`: the leftmost match at or after `from`. */
  function SearchDate(s: string, from: nat): (r: Option<DateMatch>)
    requires from <= |s|
    ensures r.Some? ==> from <= r.value.start <= |s| && MatchAt(s, r.value.start) == r
    ensures r.Some? ==> forall q :: from <= q < r.value.start ==> MatchAt(s, q).None?
    ensures r.None? ==> forall q :: from <= q <= |s| ==> MatchAt(s, q).None?
    decreases |s| - from
  {
    if MatchAt(s, from).Some? then MatchAt(s, from)
    else if from == |s| then None
    else SearchDate(s, from + 1)
  }

  /** A calendar date. */
  datatype Date = Date(year: nat, month: nat, day: nat)

  predicate IsLeap(y: nat) {
    y % 4 == 0 && (y % 100 != 0 || y % 400 == 0)
  }

  function DaysIn(month: nat, year: nat): nat
    requires 1 <= month <= 12
  {
    if month == 2 then (if IsLeap(year) then 29 else 28)
    else if month == 4 || month == 6 || month == 9 || month == 11 then 30
    else 31
  }

  predicate ValidDate(d: Date) {
    1 <= d.year <= 9999 && 1 <= d.month <= 12 && 1 <= d.day <= DaysIn(d.month, d.year)
  }

  /** `datetime.strptime(m, "%m/%d/%Y")`: `%Y` takes exactly four digits, `%m` and
      `%d` one or two; the date must exist (year 1 to 9999). `None` is the
      `ValueError`. */
  function ParseDate(m: DateMatch): (r: Option<Date>)
    requires AllDigits(m.month) && AllDigits(m.day) && AllDigits(m.year)
    ensures r.Some? ==> ValidDate(r.value) && |m.year| == 4
    ensures r.Some? ==> r.value == Date(DigitsValue(m.year), DigitsValue(m.month), DigitsValue(m.day))
  {
    var d := Date(DigitsValue(m.year), DigitsValue(m.month), DigitsValue(m.day));
    if |m.year| == 4 && ValidDate(d) then Some(d) else None
  }

  /** Two digits, zero-padded. */
  function Pad2(n: nat): (r: string)
    requires n < 100
    ensures |r| == 2 && AllDigits(r) && DigitsValue(r) == n
  {
    var r := [DigitChar(n / 10), DigitChar(n % 10)];
    assert r[..1] == [DigitChar(n / 10)] && r[..1][..0] == [];
    assert DigitsValue(r[..1]) == n / 10;
    assert DigitsValue(r) == DigitsValue(r[..1]) * 10 + n % 10;
    r
  }

  /** Four digits, zero-padded. */
  function Pad4(n: nat): (r: string)
    requires n < 10000
    ensures |r| == 4 && AllDigits(r) && DigitsValue(r) == n
  {
    var hi := Pad2(n / 100);
    var lo := Pad2(n % 100);
    var r := hi + lo;
    assert r[..3] == hi + [lo[0]] && r[..3][..2] == hi;
    assert lo[..1] == [lo[0]] && lo[..1][..0] == [];
    r
  }

  /** `date.strftime("%Y-%m-%d")`. */
  function FormatDate(d: Date): (r: string)
    requires ValidDate(d)
    ensures |r| == 10 && r[4] == '-' && r[7] == '-'
    ensures AllDigits(r[..4]) && AllDigits(r[5..7]) && AllDigits(r[8..])
    ensures DigitsValue(r[..4]) == d.year && DigitsValue(r[5..7]) == d.month && DigitsValue(r[8..]) == d.day
  {
    var r := Pad4(d.year) + "-" + Pad2(d.month) + "-" + Pad2(d.day);
    assert r[..4] == Pad4(d.year) && r[5..7] == Pad2(d.month) && r[8..] == Pad2(d.day);
    r
  }

  /** `get_date(text)` with `datetime.today().strftime("%Y-%m-%d")` as `today`. */
  function GetDate(text: string, today: string): string {
    match SearchDate(text, 0)
    case None => today
    case Some(m) =>
      match ParseDate(m)
      case None => today
      case Some(d) => FormatDate(d)
  }

  /** The date is the reformatted leftmost date-shaped match when that is a real
      `%m/%d/%Y` date; otherwise, also when no match exists or the first one is
      invalid or has a two-digit year, it is today, and later matches are never
      tried. */
  lemma GetDateMeaning(text: string, today: string)
    ensures GetDate(text, today) != today ==>
      exists p :: 0 <= p <= |text| && MatchAt(text, p).Some? &&
        (forall q :: 0 <= q < p ==> MatchAt(text, q).None?) &&
        ParseDate(MatchAt(text, p).value).Some? &&
        GetDate(text, today) == FormatDate(ParseDate(MatchAt(text, p).value).value)
    ensures forall p ::
        (0 <= p <= |text| && MatchAt(text, p).Some? && (forall q :: 0 <= q < p ==> MatchAt(text, q).None?)) ==>
        GetDate(text, today) ==
          if ParseDate(MatchAt(text, p).value).Some? then FormatDate(ParseDate(MatchAt(text, p).value).value)
          else today
    ensures (forall p :: 0 <= p <= |text| ==> MatchAt(text, p).None?) ==> GetDate(text, today) == today
  {
    var r := SearchDate(text, 0);
    if r.Some? {
      forall p | 0 <= p <= |text| && MatchAt(text, p).Some? && (forall q :: 0 <= q < p ==> MatchAt(text, q).None?)
        ensures p == r.value.start
      {
      }
    }
  }

  /** A formatted date reads back as the date it formats. */
  lemma FormatDateRoundTrip(d: Date)
    requires ValidDate(d)
    ensures var r := FormatDate(d);
      var m := DateMatch(0, r[5..7], r[8..], r[..4]);
      ParseDate(m) == Some(d)
  {
  }

  /** A run of digits followed by a non-digit has the run's length. */
  lemma {:induction false} DigitRunOf(s: string, i: nat, d: string)
    requires i + |d| <= |s| && s[i..i + |d|] == d && AllDigits(d)
    requires i + |d| == |s| || !IsDigit(s[i + |d|])
    ensures DigitRun(s, i) == |d|
    decreases |d|
  {
    if d != [] {
      assert s[i] == d[0];
      assert s[i + 1..i + 1 + |d[1..]|] == d[1..];
      DigitRunOf(s, i + 1, d[1..]);
    }
  }

  /** The regex matches at `p` when the three runs of digits there have the lengths
      it asks for and are separated by `/` and bounded by `\b`. */
  lemma MatchWhen(s: string, p: nat, mo: string, da: string, yr: string)
    requires p + |mo| + |da| + |yr| + 2 <= |s|
    requires DigitRun(s, p) == |mo| && DigitRun(s, p + |mo| + 1) == |da| && DigitRun(s, p + |mo| + |da| + 2) == |yr|
    requires 1 <= |mo| <= 2 && 1 <= |da| <= 2 && 2 <= |yr| <= 4
    requires s[p + |mo|] == '/' && s[p + |mo| + |da| + 1] == '/'
    requires s[p..p + |mo|] == mo && s[p + |mo| + 1..p + |mo| + 1 + |da|] == da
    requires s[p + |mo| + |da| + 2..p + |mo| + |da| + 2 + |yr|] == yr
    requires BoundaryBefore(s, p) && BoundaryAfter(s, p + |mo| + |da| + |yr| + 2)
    ensures MatchAt(s, p) == Some(DateMatch(p, mo, da, yr))
  {
  }

  /** The regex matches the text `mo/da/yr` at `p` when the groups are digits of
      the lengths it asks for and a word boundary is on either side. */
  lemma DateAt(s: string, p: nat, mo: string, da: string, yr: string)
    requires AllDigits(mo) && AllDigits(da) && AllDigits(yr)
    requires 1 <= |mo| <= 2 && 1 <= |da| <= 2 && 2 <= |yr| <= 4
    requires p + |mo| + |da| + |yr| + 2 <= |s|
    requires s[p..p + |mo|] == mo && s[p + |mo|] == '/'
    requires s[p + |mo| + 1..p + |mo| + 1 + |da|] == da && s[p + |mo| + 1 + |da|] == '/'
    requires s[p + |mo| + |da| + 2..p + |mo| + |da| + 2 + |yr|] == yr
    requires BoundaryBefore(s, p) && BoundaryAfter(s, p + |mo| + |da| + |yr| + 2)
    ensures MatchAt(s, p) == Some(DateMatch(p, mo, da, yr))
  {
    var q := p + |mo| + 1;
    var y := q + |da| + 1;
    DigitRunOf(s, p, mo);
    DigitRunOf(s, q, da);
    assert y + |yr| == |s| || !IsDigit(s[y + |yr|]);
    DigitRunOf(s, y, yr);
    MatchWhen(s, p, mo, da, yr);
  }

  /** Before the first digit nothing matches. */
  lemma NoDateBefore(s: string, p: nat)
    requires p <= |s|
    requires forall j :: 0 <= j < p ==> !IsDigit(s[j])
    ensures forall k :: 0 <= k < p ==> MatchAt(s, k).None?
  {
    forall k | 0 <= k < p
      ensures MatchAt(s, k).None?
    {
      assert DigitRun(s, k) == 0;
    }
  }

  /** The search from `from` finds the match at `p` when nothing matches between. */
  lemma SearchFrom(s: string, from: nat, p: nat)
    requires from <= p <= |s| && MatchAt(s, p).Some?
    requires forall k :: from <= k < p ==> MatchAt(s, k).None?
    ensures SearchDate(s, from) == MatchAt(s, p)
  {
    var r := SearchDate(s, from);
    assert r.Some?;
    assert r.value.start == p;
  }

  /** Where the parts of `pre + mo/da/yr + post` lie. */
  lemma DateLayout(s: string, pre: string, mo: string, da: string, yr: string, post: string)
    requires s == pre + mo + "/" + da + "/" + yr + post
    ensures var p := |pre|;
      && p + |mo| + |da| + |yr| + 2 <= |s|
      && s[..p] == pre
      && s[p..p + |mo|] == mo && s[p + |mo|] == '/'
      && s[p + |mo| + 1..p + |mo| + 1 + |da|] == da && s[p + |mo| + 1 + |da|] == '/'
      && s[p + |mo| + |da| + 2..p + |mo| + |da| + 2 + |yr|] == yr
      && s[p + |mo| + |da| + |yr| + 2..] == post
  {
  }

  /** In a text with no digit before `mo/da/yr`, that is the date `re.search` finds. */
  lemma DateFirst(s: string, pre: string, mo: string, da: string, yr: string, post: string)
    requires s == pre + mo + "/" + da + "/" + yr + post
    requires forall j :: 0 <= j < |pre| ==> !IsDigit(pre[j])
    requires pre == [] || !IsWordChar(pre[|pre| - 1])
    requires AllDigits(mo) && AllDigits(da) && AllDigits(yr)
    requires 1 <= |mo| <= 2 && 1 <= |da| <= 2 && 2 <= |yr| <= 4
    requires post == [] || !IsWordChar(post[0])
    ensures SearchDate(s, 0) == Some(DateMatch(|pre|, mo, da, yr))
  {
    var p := |pre|;
    var e := p + |mo| + |da| + |yr| + 2;
    DateLayout(s, pre, mo, da, yr, post);
    assert forall j :: 0 <= j < p ==> s[j] == s[..p][j];
    assert e < |s| ==> s[e] == post[0];
    DateAt(s, p, mo, da, yr);
    NoDateBefore(s, p);
    SearchFrom(s, 0, p);
  }

  // ---------------------------------------------------------------------------
  // parse_newsletter

  /** One parsed line: a subject it names, its topic and the newsletter's date. */
  datatype Record = Record(subject: string, topic: string, date: string)

  /** The subjects looked for, in the order tried. */
  const Subjects: seq<string> := ["grammar", "reading", "math", "writing", "science"]

  /** The records of one line, in the order of `Subjects`. */
  function LineRecords(line: string, subjects: seq<string>, date: string): (r: seq<Record>)
    ensures |r| <= |subjects|
    ensures forall k :: 0 <= k < |r| ==>
      r[k] == Record(r[k].subject, ExtractTopic(line), date) && r[k].subject in subjects
  {
    if subjects == [] then []
    else
      var rest := LineRecords(line, subjects[1..], date);
      if Contains(Lower(line), subjects[0]) then [Record(subjects[0], ExtractTopic(line), date)] + rest
      else rest
  }

  /** A line yields a record for a subject exactly when it names the subject. */
  lemma {:induction false} LineRecordsMembership(line: string, subjects: seq<string>, date: string, rec: Record)
    ensures rec in LineRecords(line, subjects, date) <==>
      rec.subject in subjects && Contains(Lower(line), rec.subject) && rec == Record(rec.subject, ExtractTopic(line), date)
  {
    if subjects != [] {
      LineRecordsMembership(line, subjects[1..], date, rec);
      assert rec.subject in subjects <==> rec.subject == subjects[0] || rec.subject in subjects[1..];
    }
  }

  /** The records of several lines, line by line. */
  function LinesRecords(lines: seq<string>, date: string): (r: seq<Record>)
    ensures forall k :: 0 <= k < |r| ==> r[k].subject in Subjects && r[k].date == date
  {
    if lines == [] then []
    else LinesRecords(lines[..|lines| - 1], date) + LineRecords(lines[|lines| - 1], Subjects, date)
  }

  /** `parse_newsletter(text)`. */
  method ParseNewsletter(text: string, today: string) returns (results: seq<Record>)
    ensures results == LinesRecords(SplitLines(text), GetDate(text, today))
  {
    results := [];
    var lines := SplitLines(text);
    var i := 0;
    while i < |lines|
      invariant 0 <= i <= |lines|
      invariant results == LinesRecords(lines[..i], GetDate(text, today))
    {
      var found := ScanLine(text, today, lines[i]);
      LinesRecordsStep(lines, i, GetDate(text, today));
      results := results + found;
      i := i + 1;
    }
    assert lines[..|lines|] == lines;
  }

  /** One line of `LinesRecords` at a time. */
  lemma LinesRecordsStep(lines: seq<string>, i: nat, date: string)
    requires i < |lines|
    ensures LinesRecords(lines[..i + 1], date) == LinesRecords(lines[..i], date) + LineRecords(lines[i], Subjects, date)
  {
    assert lines[..i + 1][..i] == lines[..i];
  }

  /** The inner loop of `parse_newsletter`: a record for every subject the line
      names, in the order of `Subjects`. */
  method ScanLine(text: string, today: string, line: string) returns (found: seq<Record>)
    ensures found == LineRecords(line, Subjects, GetDate(text, today))
  {
    var lowered := Lower(line);
    ghost var d := GetDate(text, today);
    var j := 0;
    found := [];
    while j < |Subjects|
      invariant 0 <= j <= |Subjects|
      invariant found + LineRecords(line, Subjects[j..], d) == LineRecords(line, Subjects, d)
    {
      var subject := Subjects[j];
      ghost var before := found;
      LineRecordsStep(line, Subjects[j..], d);
      assert Subjects[j..][1..] == Subjects[j + 1..];
      if Contains(lowered, subject) {
        var topic := ExtractTopic(line);
        var date := GetDate(text, today);
        found := found + [Record(subject, topic, date)];
        Regroup(before, [Record(subject, topic, date)], LineRecords(line, Subjects[j + 1..], d));
      }
      j := j + 1;
    }
  }

  /** One subject of `LineRecords` at a time. */
  lemma LineRecordsStep(line: string, subjects: seq<string>, date: string)
    requires subjects != []
    ensures LineRecords(line, subjects, date) ==
      (if Contains(Lower(line), subjects[0]) then [Record(subjects[0], ExtractTopic(line), date)] else [])
      + LineRecords(line, subjects[1..], date)
  {
  }

  lemma Regroup<T>(a: seq<T>, b: seq<T>, c: seq<T>)
    ensures (a + b) + c == a + (b + c)
  {
  }

  /** A line that names none of `subjects` yields no records. */
  lemma {:induction false} NoRecords(line: string, subjects: seq<string>, d: string)
    requires forall j :: 0 <= j < |subjects| ==> !Contains(Lower(line), subjects[j])
    ensures LineRecords(line, subjects, d) == []
  {
    if subjects != [] {
      NoRecords(line, subjects[1..], d);
    }
  }

  /** A line that names exactly the subject at `k` yields one record. */
  lemma {:induction false} OneRecord(line: string, subjects: seq<string>, k: nat, d: string)
    requires k < |subjects| && Contains(Lower(line), subjects[k])
    requires forall j :: 0 <= j < |subjects| && j != k ==> !Contains(Lower(line), subjects[j])
    ensures LineRecords(line, subjects, d) == [Record(subjects[k], ExtractTopic(line), d)]
  {
    if k == 0 {
      NoRecords(line, subjects[1..], d);
    } else {
      OneRecord(line, subjects[1..], k - 1, d);
    }
  }

  /** Lower-casing and turning spaces into `_`, character by character. */
  lemma TopicWords(w: string, t: string)
    requires |w| == |t|
    requires forall i :: 0 <= i < |w| ==> (if w[i] == ' ' then '_' else LowerChar(w[i])) == t[i]
    ensures Replace(Lower(w), " ", "_") == t
  {
    ReplaceChar(Lower(w), ' ', '_');
  }

  /** The topic of `pre: w`, for a phrase `w` with no separator and nothing to
      strip: `w` lower-cased with `_` for its spaces. */
  lemma TopicIs(pre: string, line: string, w: string, t: string)
    requires forall j :: 0 <= j < |pre| ==> !IsSep(pre[j])
    requires line == pre + ":" + " " + w
    requires w != [] && !IsSpace(w[0]) && !IsSpace(w[|w| - 1]) && |w| == |t|
    requires forall i :: 0 <= i < |w| ==> !IsSep(w[i]) && (if w[i] == ' ' then '_' else LowerChar(w[i])) == t[i]
    ensures ExtractTopic(line) == t
  {
    var mid := " " + w;
    assert line == pre + [':'] + mid + [];
    assert forall j :: 0 <= j < |mid| ==> !IsSep(mid[j]);
    ExtractTopicBetween(pre, ':', mid, []);
    StripLeading(w);
    TopicWords(w, t);
  }

  /** Some line of `lines` names the record's subject and has the record's topic. */
  ghost predicate NamedIn(lines: seq<string>, rec: Record) {
    exists k :: 0 <= k < |lines| && Contains(Lower(lines[k]), rec.subject) && rec.topic == ExtractTopic(lines[k])
  }

  /** A record is produced exactly when a line of the text names its subject; its
      topic is that line's topic and its date the newsletter's date. */
  lemma {:induction false} RecordsMembership(lines: seq<string>, date: string, rec: Record)
    ensures rec in LinesRecords(lines, date) <==>
      rec.subject in Subjects && rec.date == date && NamedIn(lines, rec)
  {
    if lines != [] {
      var init := lines[..|lines| - 1];
      var last := lines[|lines| - 1];
      assert LinesRecords(lines, date) == LinesRecords(init, date) + LineRecords(last, Subjects, date);
      RecordsMembership(init, date, rec);
      LineRecordsMembership(last, Subjects, date, rec);
      if NamedIn(lines, rec) {
        var k :| 0 <= k < |lines| && Contains(Lower(lines[k]), rec.subject) && rec.topic == ExtractTopic(lines[k]);
        if k < |lines| - 1 {
          assert init[k] == lines[k];
          assert NamedIn(init, rec);
        }
      }
      if NamedIn(init, rec) {
        var k :| 0 <= k < |init| && Contains(Lower(init[k]), rec.subject) && rec.topic == ExtractTopic(init[k]);
        assert lines[k] == init[k];
      }
    }
  }

  /** One more line adds its own records at the end. */
  lemma LinesRecordsSnoc(lines: seq<string>, l: string, d: string, before: seq<Record>, added: seq<Record>)
    requires LinesRecords(lines, d) == before && LineRecords(l, Subjects, d) == added
    ensures LinesRecords(lines + [l], d) == before + added
  {
    assert (lines + [l])[..|lines|] == lines;
  }

  /** Three lines of which only the last yields a record. */
  lemma RecordsOfThree(a: string, b: string, c: string, d: string, x: Record)
    requires LineRecords(a, Subjects, d) == [] && LineRecords(b, Subjects, d) == []
    requires LineRecords(c, Subjects, d) == [x]
    ensures LinesRecords([a, b, c], d) == [x]
  {
    assert LinesRecords([], d) == [];
    LinesRecordsSnoc([], a, d, [], []);
    LinesRecordsSnoc([] + [a], b, d, [] + [], []);
    LinesRecordsSnoc([] + [a] + [b], c, d, [] + [] + [], [x]);
    assert [] + [a] + [b] + [c] == [a, b, c];
  }

  /** Three more lines of which only the first two yield a record. */
  lemma RecordsOfThreeMore(lines: seq<string>, e: string, f: string, g: string, d: string,
                           before: seq<Record>, y: Record, z: Record)
    requires LinesRecords(lines, d) == before
    requires LineRecords(e, Subjects, d) == [y] && LineRecords(f, Subjects, d) == [z]
    requires LineRecords(g, Subjects, d) == []
    ensures LinesRecords(lines + [e, f, g], d) == before + [y, z]
  {
    LinesRecordsSnoc(lines, e, d, before, [y]);
    LinesRecordsSnoc(lines + [e], f, d, before + [y], [z]);
    LinesRecordsSnoc(lines + [e] + [f], g, d, before + [y] + [z], []);
    assert lines + [e] + [f] + [g] == lines + [e, f, g];
  }

  /** Six lines of which the third, fourth and fifth yield one record each. */
  lemma ThreeRecords(a: string, b: string, c: string, e: string, f: string, g: string, d: string,
                     x: Record, y: Record, z: Record)
    requires LineRecords(a, Subjects, d) == [] && LineRecords(b, Subjects, d) == []
    requires LineRecords(c, Subjects, d) == [x] && LineRecords(e, Subjects, d) == [y]
    requires LineRecords(f, Subjects, d) == [z] && LineRecords(g, Subjects, d) == []
    ensures LinesRecords([a, b, c, e, f, g], d) == [x, y, z]
  {
    RecordsOfThree(a, b, c, d, x);
    RecordsOfThreeMore([a, b, c], e, f, g, d, [x], y, z);
    assert [a, b, c] + [e, f, g] == [a, b, c, e, f, g];
  }

  // ---------------------------------------------------------------------------
  // The example newsletter of `__main__`
  //
  // Its text is a blank first line, four indented lines and an indented last line
  // without a final break; `text` is written below as those lines joined by `\n`.
  // Each literal is a parameter fixed by a `requires` and each line has lemmas of
  // its own, so that the solver meets one literal at a time.

  /** No line break among letters, digits, spaces, `/` and `:`. */
  lemma PlainLine(p: string)
    requires forall j :: 0 <= j < |p| ==> p[j] == ' ' || 'A' <= p[j] <= 'z' || '/' <= p[j] <= ':'
    ensures forall j :: 0 <= j < |p| ==> !IsLineBreak(p[j])
  {
  }

  predicate NoBreak(p: string) {
    forall j :: 0 <= j < |p| ==> !IsLineBreak(p[j])
  }

  /** Six lines joined by `\n`, the first of them empty, split back into themselves. */
  lemma SplitSix(text: string, w: string, g: string, r: string, m: string, t: string)
    requires NoBreak(w) && NoBreak(g) && NoBreak(r) && NoBreak(m) && NoBreak(t) && t != []
    requires text == "\n" + w + "\n" + g + "\n" + r + "\n" + m + "\n" + t
    ensures SplitLines(text) == ["", w, g, r, m, t]
  {
    var lines := ["", w, g, r, m, t];
    JoinSix("\n", "", w, g, r, m, t);
    assert text == Join("\n", lines);
    SplitLinesJoin(lines);
  }

  /** The example splits into its six lines. */
  lemma SampleLines(text: string, w: string, g: string, r: string, m: string)
    requires w == "    Week of 10/14/2025" && g == "    Grammar: Adverbs"
    requires r == "    Reading: Point of View" && m == "    Math: Fractions"
    requires text == "\n" + w + "\n" + g + "\n" + r + "\n" + m + "\n" + "    "
    ensures SplitLines(text) == ["", w, g, r, m, "    "]
  {
    PlainLine(w);
    PlainLine(g);
    PlainLine(r);
    PlainLine(m);
    PlainLine("    ");
    SplitSix(text, w, g, r, m, "    ");
  }

  /** The week line ends with its date. */
  lemma WeekDate(w: string)
    requires w == "    Week of 10/14/2025"
    ensures w == "    Week of " + "10" + "/" + "14" + "/" + "2025"
  {
  }

  /** `10/14/2025` is October 14, 2025. */
  lemma SampleParse(mo: string, da: string, yr: string)
    requires mo == "10" && da == "14" && yr == "2025"
    ensures ParseDate(DateMatch(0, mo, da, yr)) == Some(Date(2025, 10, 14))
  {
    DigitsTwo(mo);
    DigitsTwo(da);
    DigitsFour(yr);
  }

  /** October 14, 2025 is written `2025-10-14`. */
  lemma SampleFormat()
    ensures FormatDate(Date(2025, 10, 14)) == "2025-10-14"
  {
  }

  /** A text whose first date, after `\n    Week of `, is `10/14/2025` is dated
      `2025-10-14`. */
  lemma DatePlaced(text: string, pre: string, post: string, today: string)
    requires text == pre + "10" + "/" + "14" + "/" + "2025" + post
    requires pre == "\n" + "    Week of " && post != [] && post[0] == '\n'
    ensures GetDate(text, today) == "2025-10-14"
  {
    DateFirst(text, pre, "10", "14", "2025", post);
    SampleParse("10", "14", "2025");
    SampleFormat();
  }

  /** The example is dated `2025-10-14`, whatever the day it is read. */
  lemma SampleDate(text: string, w: string, g: string, r: string, m: string, today: string)
    requires w == "    Week of 10/14/2025" && g == "    Grammar: Adverbs"
    requires r == "    Reading: Point of View" && m == "    Math: Fractions"
    requires text == "\n" + w + "\n" + g + "\n" + r + "\n" + m + "\n" + "    "
    ensures GetDate(text, today) == "2025-10-14"
  {
    WeekDate(w);
    var post := "\n" + g + "\n" + r + "\n" + m + "\n" + "    ";
    DatePlaced(text, "\n" + "    Week of ", post, today);
  }

  /** A line whose lower-cased characters all lie in `letters` does not name a
      subject with a letter outside them. */
  lemma LacksSubject(l: string, letters: set<char>, k: nat, o: nat)
    requires forall i :: 0 <= i < |l| ==> LowerChar(l[i]) in letters
    requires k < |Subjects| && o < |Subjects[k]| && Subjects[k][o] !in letters
    ensures !Contains(Lower(l), Subjects[k])
  {
    NotContainedLetter(l, Subjects[k], o);
  }

  /** A line of spaces names no subject. */
  lemma SpacesLine(l: string, d: string)
    requires forall i :: 0 <= i < |l| ==> l[i] == ' '
    ensures LineRecords(l, Subjects, d) == []
  {
    forall k | 0 <= k < |Subjects|
      ensures !Contains(Lower(l), Subjects[k])
    {
      LacksSubject(l, {' '}, k, 0);
    }
    NoRecords(l, Subjects, d);
  }

  lemma WeekLetters(l: string)
    requires l == "    Week of 10/14/2025"
    ensures forall i :: 0 <= i < |l| ==> LowerChar(l[i]) in {' ', 'w', 'e', 'k', 'o', 'f', '1', '0', '/', '4', '2', '5'}
  {
  }

  /** The week line names no subject. */
  lemma WeekLine(l: string, d: string)
    requires l == "    Week of 10/14/2025"
    ensures LineRecords(l, Subjects, d) == []
  {
    WeekLetters(l);
    var letters := {' ', 'w', 'e', 'k', 'o', 'f', '1', '0', '/', '4', '2', '5'};
    forall k | 0 <= k < |Subjects|
      ensures !Contains(Lower(l), Subjects[k])
    {
      LacksSubject(l, letters, k, if k == 3 then 1 else 0);
    }
    NoRecords(l, Subjects, d);
  }

  lemma GrammarHas(l: string)
    requires l == "    Grammar: Adverbs"
    ensures Contains(Lower(l), Subjects[0])
  {
    LowerHas(l, 4, Subjects[0]);
  }

  lemma GrammarLetters(l: string)
    requires l == "    Grammar: Adverbs"
    ensures forall i :: 0 <= i < |l| ==> LowerChar(l[i]) in {' ', 'g', 'r', 'a', 'm', ':', 'd', 'v', 'e', 'b', 's'}
  {
  }

  lemma GrammarLacks(l: string, k: nat)
    requires forall i :: 0 <= i < |l| ==> LowerChar(l[i]) in {' ', 'g', 'r', 'a', 'm', ':', 'd', 'v', 'e', 'b', 's'}
    requires 1 <= k < |Subjects|
    ensures !Contains(Lower(l), Subjects[k])
  {
    var o := if k == 1 then 4 else if k == 2 then 2 else if k == 3 then 0 else 1;
    LacksSubject(l, {' ', 'g', 'r', 'a', 'm', ':', 'd', 'v', 'e', 'b', 's'}, k, o);
  }

  lemma GrammarTopic(l: string)
    requires l == "    Grammar: Adverbs"
    ensures ExtractTopic(l) == "adverbs"
  {
    TopicIs("    Grammar", l, "Adverbs", "adverbs");
  }

  /** The grammar line gives one record, topic `adverbs`. */
  lemma GrammarLine(l: string, d: string)
    requires l == "    Grammar: Adverbs"
    ensures LineRecords(l, Subjects, d) == [Record("grammar", "adverbs", d)]
  {
    GrammarHas(l);
    GrammarLetters(l);
    forall k | 1 <= k < |Subjects|
      ensures !Contains(Lower(l), Subjects[k])
    {
      GrammarLacks(l, k);
    }
    GrammarTopic(l);
    OneRecord(l, Subjects, 0, d);
  }

  lemma ReadingHas(l: string)
    requires l == "    Reading: Point of View"
    ensures Contains(Lower(l), Subjects[1])
  {
    LowerHas(l, 4, Subjects[1]);
  }

  lemma ReadingLetters(l: string)
    requires l == "    Reading: Point of View"
    ensures forall i :: 0 <= i < |l| ==> LowerChar(l[i]) in {' ', 'r', 'e', 'a', 'd', 'i', 'n', 'g', ':', 'p', 'o', 't', 'f', 'v', 'w'}
  {
  }

  /** Every letter of `writing` is in the reading line, but no `w` is followed by
      an `r`. */
  lemma ReadingNoWriting(l: string)
    requires l == "    Reading: Point of View"
    ensures !Contains(Lower(l), Subjects[3])
  {
    NotContainedLower(l, Subjects[3], 0);
  }

  lemma ReadingLacks(l: string, k: nat)
    requires forall i :: 0 <= i < |l| ==> LowerChar(l[i]) in {' ', 'r', 'e', 'a', 'd', 'i', 'n', 'g', ':', 'p', 'o', 't', 'f', 'v', 'w'}
    requires k == 0 || k == 2 || k == 4
    ensures !Contains(Lower(l), Subjects[k])
  {
    var letters := {' ', 'r', 'e', 'a', 'd', 'i', 'n', 'g', ':', 'p', 'o', 't', 'f', 'v', 'w'};
    if k == 0 {
      assert Subjects[0][3] == 'm';
      LacksSubject(l, letters, 0, 3);
    } else {
      assert Subjects[k][0] == 'm' || Subjects[k][0] == 's';
      LacksSubject(l, letters, k, 0);
    }
  }

  lemma ReadingTopic(l: string)
    requires l == "    Reading: Point of View"
    ensures ExtractTopic(l) == "point_of_view"
  {
    TopicIs("    Reading", l, "Point of View", "point_of_view");
  }

  /** The reading line gives one record, topic `point_of_view`. */
  lemma ReadingLine(l: string, d: string)
    requires l == "    Reading: Point of View"
    ensures LineRecords(l, Subjects, d) == [Record("reading", "point_of_view", d)]
  {
    ReadingHas(l);
    ReadingLetters(l);
    ReadingNoWriting(l);
    forall k | 0 <= k < |Subjects| && k != 1
      ensures !Contains(Lower(l), Subjects[k])
    {
      if k != 3 {
        ReadingLacks(l, k);
      }
    }
    ReadingTopic(l);
    OneRecord(l, Subjects, 1, d);
  }

  lemma MathHas(l: string)
    requires l == "    Math: Fractions"
    ensures Contains(Lower(l), Subjects[2])
  {
    LowerHas(l, 4, Subjects[2]);
  }

  lemma MathLetters(l: string)
    requires l == "    Math: Fractions"
    ensures forall i :: 0 <= i < |l| ==> LowerChar(l[i]) in {' ', 'm', 'a', 't', 'h', ':', 'f', 'r', 'c', 'i', 'o', 'n', 's'}
  {
  }

  lemma MathTopic(l: string)
    requires l == "    Math: Fractions"
    ensures ExtractTopic(l) == "fractions"
  {
    TopicIs("    Math", l, "Fractions", "fractions");
  }

  /** The math line gives one record, topic `fractions`. */
  lemma MathLine(l: string, d: string)
    requires l == "    Math: Fractions"
    ensures LineRecords(l, Subjects, d) == [Record("math", "fractions", d)]
  {
    MathHas(l);
    MathLetters(l);
    var letters := {' ', 'm', 'a', 't', 'h', ':', 'f', 'r', 'c', 'i', 'o', 'n', 's'};
    forall k | 0 <= k < |Subjects| && k != 2
      ensures !Contains(Lower(l), Subjects[k])
    {
      LacksSubject(l, letters, k, if k == 1 then 1 else if k == 4 then 3 else 0);
    }
    MathTopic(l);
    OneRecord(l, Subjects, 2, d);
  }

  /** `parse_newsletter` on the example of `__main__` gives grammar/adverbs,
      reading/point_of_view and math/fractions, each dated `2025-10-14`, whatever
      today's date. */
  lemma SampleNewsletter(text: string, w: string, g: string, r: string, m: string, today: string)
    requires w == "    Week of 10/14/2025" && g == "    Grammar: Adverbs"
    requires r == "    Reading: Point of View" && m == "    Math: Fractions"
    requires text == "\n" + w + "\n" + g + "\n" + r + "\n" + m + "\n" + "    "
    ensures LinesRecords(SplitLines(text), GetDate(text, today)) ==
      [Record("grammar", "adverbs", "2025-10-14"), Record("reading", "point_of_view", "2025-10-14"),
       Record("math", "fractions", "2025-10-14")]
  {
    var d := "2025-10-14";
    SampleLines(text, w, g, r, m);
    SampleDate(text, w, g, r, m, today);
    SpacesLine("", d);
    WeekLine(w, d);
    GrammarLine(g, d);
    ReadingLine(r, d);
    MathLine(m, d);
    SpacesLine("    ", d);
    ThreeRecords("", w, g, r, m, "    ", d, Record("grammar", "adverbs", d),
      Record("reading", "point_of_view", d), Record("math", "fractions", d));
  }
}
