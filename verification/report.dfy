/** The issue panel's reading of a consistency report: the summary kind, the
    issue count, and one record per `• **Source**:` block with its
    translations, recommendation and severity. */
module Report {
  import opened Wrappers
  import opened Text

  // ---------------------------------------------------------------------------
  // Severity

  datatype Severity = High | Medium | Low

  function SeverityRank(s: Severity): nat {
    match s
    case High => 2
    case Medium => 1
    case Low => 0
  }

  /** `determineSeverity`: keyword search in the lower-cased block. */
  function DetermineSeverity(segment: string): Severity {
    var text := Lower(segment);
    if Contains(text, "critical") || Contains(text, "error") || Contains(text, "incorrect") then High
    else if Contains(text, "recommend") || Contains(text, "should") then Medium
    else Low
  }

  /** If `s` contains `w`, then `Lower(s)` contains `Lower(w)`. */
  lemma LowerContains(s: string, w: string)
    requires Contains(s, w)
    ensures Contains(Lower(s), Lower(w))
  {
    var i := IndexFrom(s, w, 0).value;
    var l := Lower(s);
    forall k | 0 <= k < |w| ensures l[i..i + |w|][k] == Lower(w)[k] {
      assert l[i + k] == LowerChar(s[i + k]);
    }
    assert l[i..i + |w|] == Lower(w);
    assert OccursAt(l, Lower(w), i);
  }

  /** The classification ignores letter case: a keyword in any casing counts. */
  lemma SeverityIgnoresCase(segment: string)
    ensures DetermineSeverity(Lower(segment)) == DetermineSeverity(segment)
  {
    LowerIdempotent(segment);
  }

  /** "CRITICAL", "Critical" and so on all make a block high severity. */
  lemma KeywordAnyCase(segment: string, w: string)
    requires Contains(segment, w)
    requires Lower(w) == "critical" || Lower(w) == "error" || Lower(w) == "incorrect"
    ensures DetermineSeverity(segment) == High
  {
    LowerContains(segment, w);
  }

  /** A keyword found in the lower-cased block is still found once text is added on either side. */
  lemma KeywordKept(la: string, lb: string, w: string)
    ensures Contains(la, w) ==> Contains(la + lb, w) && Contains(lb + la, w)
  {
    if Contains(la, w) {
      ContainsExtend(la, w, lb);
    }
  }

  /** Adding text to a block never lowers its severity. */
  lemma SeverityMonotone(a: string, b: string)
    ensures SeverityRank(DetermineSeverity(a + b)) >= SeverityRank(DetermineSeverity(a))
    ensures SeverityRank(DetermineSeverity(b + a)) >= SeverityRank(DetermineSeverity(a))
  {
    LowerAppend(a, b);
    LowerAppend(b, a);
    var la := Lower(a);
    var lb := Lower(b);
    KeywordKept(la, lb, "critical");
    KeywordKept(la, lb, "error");
    KeywordKept(la, lb, "incorrect");
    KeywordKept(la, lb, "recommend");
    KeywordKept(la, lb, "should");
  }

  // ---------------------------------------------------------------------------
  // Regular-expression matches, read from the start of a suffix

  /** `s.match(re)` with the `g` flag: every match from `from` on, left to
      right and not overlapping, each given by its captured text and its
      length; an empty match moves on by one character. */
  function ScanFront(s: string, from: nat, front: string -> Option<(string, nat)>): seq<string>
    decreases |s| - from
  {
    if from >= |s| then []
    else match front(s[from..])
      case Some((c, n)) => [c] + ScanFront(s, from + Max(n, 1), front)
      case None => ScanFront(s, from + 1, front)
  }

  /** Every item of the scan is the capture of a match at some position. */
  lemma {:induction false} ScanFrontFrom(s: string, from: nat, front: string -> Option<(string, nat)>, k: nat)
    returns (j: nat)
    requires k < |ScanFront(s, from, front)|
    ensures from <= j < |s| && front(s[j..]).Some? && ScanFront(s, from, front)[k] == front(s[j..]).value.0
    decreases |s| - from
  {
    match front(s[from..])
    case Some((c, n)) =>
      if k == 0 {
        j := from;
      } else {
        j := ScanFrontFrom(s, from + Max(n, 1), front, k - 1);
      }
    case None =>
      j := ScanFrontFrom(s, from + 1, front, k);
  }

  /** Scanning is decided by the text from the starting position on. */
  lemma {:induction false} ScanFrontShift(a: string, b: string, i: nat, front: string -> Option<(string, nat)>)
    ensures ScanFront(a + b, |a| + i, front) == ScanFront(b, i, front)
    decreases |b| - i
  {
    if i < |b| {
      assert (a + b)[|a| + i..] == b[i..];
      match front(b[i..])
      case Some((c, n)) => ScanFrontShift(a, b, i + Max(n, 1), front);
      case None => ScanFrontShift(a, b, i + 1, front);
    }
  }

  /** A match at the start, of length `|line|`, followed by a character where
      nothing matches: the scan is its capture, then the scan of the rest. */
  lemma ScanFrontStep(line: string, c: string, rest: string, front: string -> Option<(string, nat)>)
    requires |line| > 0 && front(line + "\n" + rest) == Some((c, |line|))
    requires front((line + "\n" + rest)[|line|..]).None?
    ensures ScanFront(line + "\n" + rest, 0, front) == [c] + ScanFront(rest, 0, front)
  {
    var a := line + "\n";
    var s := a + rest;
    assert s[0..] == s;
    ScanFrontShift(a, rest, 0, front);
  }

  // ---------------------------------------------------------------------------
  // The issue count

  const FoundPrefix: string := "Found "
  const FoundSuffix: string := " repeated segment"

  /** The number matched by `/Found (\d+) repeated segment/` at the start of
      `t`: the digit run must be followed by the suffix (a shorter run would
      leave a digit where the suffix's blank must be, so the longest run is
      the only one). */
  function CountFront(t: string): Option<nat> {
    if !StartsWith(t, FoundPrefix) then None
    else
      var d := RunLength(t, |FoundPrefix|, IsDigit);
      if d == 0 || !OccursAt(t, FoundSuffix, |FoundPrefix| + d) then None
      else Some(DecimalValue(t[|FoundPrefix|..|FoundPrefix| + d]))
  }

  /** `countMatch ? parseInt(countMatch[1]) : 0`. */
  function ParseCount(report: string): nat {
    match FindFront(report, 0, CountFront)
    case Some(i) => CountFront(report[i..]).value
    case None => 0
  }

  /** The analyser's sentence matches at its start, with its own number. */
  lemma CountAtFront(n: nat, rest: string)
    ensures CountFront(FoundPrefix + Decimal(n) + FoundSuffix + rest) == Some(n)
  {
    var digits := Decimal(n);
    var s := FoundPrefix + digits + FoundSuffix + rest;
    var j := |FoundPrefix|;
    assert StartsWith(s, FoundPrefix) by {
      assert s[..j] == FoundPrefix;
    }
    assert s[j..j + |digits|] == digits;
    assert RunLength(s, j, IsDigit) == |digits| by {
      assert s[j + |digits|] == ' ';
      RunLengthExact(s, j, |digits|, IsDigit);
    }
    assert OccursAt(s, FoundSuffix, j + |digits|) by {
      assert s[j + |digits|..j + |digits| + |FoundSuffix|] == FoundSuffix;
    }
    DecimalRoundTrip(n);
  }

  /** The count the analyser writes is the count read back. */
  lemma CountRoundTrip(pre: string, n: nat, rest: string)
    requires 'F' !in pre
    ensures ParseCount(pre + FoundPrefix + Decimal(n) + FoundSuffix + rest) == n
  {
    var t := FoundPrefix + Decimal(n) + FoundSuffix + rest;
    assert pre + FoundPrefix + Decimal(n) + FoundSuffix + rest == pre + t;
    forall j | 0 <= j < |pre| ensures CountFront((pre + t)[j..]).None? {
      assert (pre + t)[j] == pre[j];
      MismatchFront(pre + t, FoundPrefix, j);
    }
    CountAtFront(n, rest);
    FindFrontAt(pre, t, CountFront);
    assert (pre + t)[|pre|..] == t;
  }

  // ---------------------------------------------------------------------------
  // Recommendation

  const RecommendationMarker: string := "**Recommendation**: "
  const DefaultRecommendation: string := "Review for consistency"

  function NotNewline(c: char): bool {
    c != '\n'
  }

  /** The text captured by `/\*\*Recommendation\*\*: ([^\n]+)/` at the start of `t`. */
  function RecommendationFront(t: string): (r: Option<string>)
    ensures r.Some? ==> |r.value| > 0 && '\n' !in r.value
  {
    if !StartsWith(t, RecommendationMarker) then None
    else
      var start := |RecommendationMarker|;
      var n := RunLength(t, start, NotNewline);
      if n == 0 then None
      else
        var r := t[start..start + n];
        assert forall k :: 0 <= k < n ==> r[k] == t[start + k];
        Some(r)
  }

  /** `extractRecommendation`: the rest of the first recommendation line, or the default. */
  function ExtractRecommendation(segment: string): (r: string)
    ensures |r| > 0 && '\n' !in r
  {
    match FindFront(segment, 0, RecommendationFront)
    case Some(i) => RecommendationFront(segment[i..]).value
    case None => DefaultRecommendation
  }

  lemma RecommendationAtFront(text: string, rest: string)
    requires |text| > 0 && '\n' !in text
    ensures RecommendationFront(RecommendationMarker + text + "\n" + rest) == Some(text)
  {
    var s := RecommendationMarker + text + "\n" + rest;
    var start := |RecommendationMarker|;
    assert s[..start] == RecommendationMarker;
    assert s[start..start + |text|] == text;
    assert s[start + |text|] == '\n';
    RunLengthExact(s, start, |text|, NotNewline);
  }

  /** A recommendation line is read back whole when no occurrence of the
      marker starts in the text before it. */
  lemma RecommendationRoundTrip(pre: string, text: string, rest: string)
    requires forall j :: 0 <= j < |pre| ==> !OccursAt(pre + RecommendationMarker, RecommendationMarker, j)
    requires |text| > 0 && '\n' !in text
    ensures ExtractRecommendation(pre + RecommendationMarker + text + "\n" + rest) == text
  {
    var m := RecommendationMarker;
    var t := m + text + "\n" + rest;
    var s := pre + t;
    assert s == pre + m + text + "\n" + rest;
    assert s == (pre + m) + (text + "\n" + rest);
    forall j | 0 <= j < |pre| ensures RecommendationFront(s[j..]).None? {
      assert !OccursAt(pre + m, m, j);
      assert s[j..j + |m|] == (pre + m)[j..j + |m|];
      OccursAtSuffix(s, m, j);
    }
    RecommendationAtFront(text, rest);
    FindFrontAt(pre, t, RecommendationFront);
    assert s[|pre|..] == t;
  }

  /** Without the marker the default recommendation is used. */
  lemma RecommendationDefault(segment: string)
    requires !Contains(segment, RecommendationMarker)
    ensures ExtractRecommendation(segment) == DefaultRecommendation
  {
    forall j | 0 <= j < |segment| ensures RecommendationFront(segment[j..]).None? {
      assert !OccursAt(segment, RecommendationMarker, j);
      OccursAtSuffix(segment, RecommendationMarker, j);
    }
  }

  // ---------------------------------------------------------------------------
  // Translations

  const TranslationLead: string := "- **Translation "
  const TranslationOpen: string := "**: \""

  function NotQuote(c: char): bool {
    c != '"'
  }

  /** A match found in a suffix, seen from further left. */
  function ShiftBy(r: Option<(string, nat)>, n: nat): (q: Option<(string, nat)>)
    ensures q.Some? <==> r.Some?
    ensures r.Some? ==> q.value == (r.value.0, n + r.value.1)
  {
    match r
    case None => None
    case Some((t, next)) => Some((t, n + next))
  }

  /** A match of `/- \*\*Translation \d+\*\*: "([^"]+)"/` at the start of
      `t`: the captured text and the length of the match. */
  function TranslationFront(t: string): (r: Option<(string, nat)>)
    ensures r.Some? ==> 0 < r.value.1 <= |t| && |r.value.0| > 0 && '"' !in r.value.0
  {
    if !StartsWith(t, TranslationLead) then None
    else ShiftBy(Numbered(t[|TranslationLead|..]), |TranslationLead|)
  }

  /** The rest of a match after the lead: the number and the opening quote. */
  function Numbered(t: string): (r: Option<(string, nat)>)
    ensures r.Some? ==> 0 < r.value.1 <= |t| && |r.value.0| > 0 && '"' !in r.value.0
  {
    var d := RunLength(t, 0, IsDigit);
    if d == 0 || !OccursAt(t, TranslationOpen, d) then None
    else ShiftBy(Quoted(t[d + |TranslationOpen|..]), d + |TranslationOpen|)
  }

  /** The quoted text up to a closing quote, which must exist. */
  function Quoted(t: string): (r: Option<(string, nat)>)
    ensures r.Some? ==> 0 < r.value.1 <= |t| && |r.value.0| > 0 && '"' !in r.value.0
  {
    var q := RunLength(t, 0, NotQuote);
    if q == 0 || q >= |t| then None
    else
      var c := t[..q];
      assert forall k :: 0 <= k < q ==> c[k] == t[k];
      Some((c, q + 1))
  }

  /** `extractTranslations`: the captured text of every match, in order. */
  function ExtractTranslations(segment: string): (r: seq<string>)
    ensures forall k :: 0 <= k < |r| ==> |r[k]| > 0 && '"' !in r[k]
  {
    var r := ScanFront(segment, 0, TranslationFront);
    forall k | 0 <= k < |r| ensures |r[k]| > 0 && '"' !in r[k] {
      var j := ScanFrontFrom(segment, 0, TranslationFront, k);
    }
    r
  }

  /** The line the report uses for one translation. */
  function TranslationLine(k: nat, t: string): string {
    TranslationLead + Decimal(k) + TranslationOpen + t + "\""
  }

  /** One translation line per entry, numbered from `k`, each ending in a newline. */
  function TranslationLines(ts: seq<string>, k: nat): string
    decreases |ts|
  {
    if |ts| == 0 then "" else TranslationLine(k, ts[0]) + "\n" + TranslationLines(ts[1..], k + 1)
  }

  lemma QuotedFront(t: string, rest: string)
    requires |t| > 0 && '"' !in t
    ensures Quoted(t + "\"" + rest) == Some((t, |t| + 1))
  {
    var s := t + "\"" + rest;
    assert s[..|t|] == t;
    assert s[|t|] == '"';
    RunLengthExact(s, 0, |t|, NotQuote);
  }

  lemma NumberedFront(digits: string, u: string)
    requires |digits| > 0 && AllDigits(digits)
    ensures Numbered(digits + TranslationOpen + u) == ShiftBy(Quoted(u), |digits| + |TranslationOpen|)
  {
    var s := digits + TranslationOpen + u;
    assert s[..|digits|] == digits;
    assert s[|digits|] == '*';
    RunLengthExact(s, 0, |digits|, IsDigit);
    assert s[|digits|..|digits| + |TranslationOpen|] == TranslationOpen;
    assert s[|digits| + |TranslationOpen|..] == u;
  }

  /** After the lead, a match is read by `Numbered`. */
  lemma TranslationAtLead(tail: string)
    ensures TranslationFront(TranslationLead + tail) == ShiftBy(Numbered(tail), |TranslationLead|)
  {
    var s := TranslationLead + tail;
    assert s[..|TranslationLead|] == TranslationLead;
    assert s[|TranslationLead|..] == tail;
  }

  /** The first match of a translation line is its own text. */
  lemma TranslationAtLine(k: nat, t: string, rest: string)
    requires |t| > 0 && '"' !in t
    ensures TranslationFront(TranslationLine(k, t) + rest) == Some((t, |TranslationLine(k, t)|))
  {
    var digits := Decimal(k);
    var tail := digits + TranslationOpen + (t + "\"" + rest);
    assert TranslationLead + digits + TranslationOpen + t + "\"" + rest
        == TranslationLead + (digits + TranslationOpen + (t + "\"" + rest));
    assert TranslationLine(k, t) + rest == TranslationLead + tail;
    NumberedLine(k, t, rest);
    TranslationAtLead(tail);
    assert |TranslationLine(k, t)| == |TranslationLead| + |digits| + |TranslationOpen| + |t| + 1;
  }

  /** After the lead, a line's number and quoted text are read as one match. */
  lemma NumberedLine(k: nat, t: string, rest: string)
    requires |t| > 0 && '"' !in t
    ensures Numbered(Decimal(k) + TranslationOpen + (t + "\"" + rest))
         == Some((t, |Decimal(k)| + |TranslationOpen| + |t| + 1))
  {
    var u := t + "\"" + rest;
    var n := |Decimal(k)| + |TranslationOpen|;
    NumberedFront(Decimal(k), u);
    QuotedFront(t, rest);
    assert ShiftBy(Quoted(u), n) == Some((t, n + |t| + 1));
  }

  /** Scanning past positions where nothing matches. */
  lemma {:induction false} ScanFrontSkips(s: string, from: nat, to: nat, front: string -> Option<(string, nat)>)
    requires from <= to <= |s|
    requires forall j :: from <= j < to ==> front(s[j..]).None?
    ensures ScanFront(s, from, front) == ScanFront(s, to, front)
    decreases |s| - from
  {
    if from < to {
      ScanFrontSkips(s, from + 1, to, front);
    }
  }

  /** Translation lines followed by other text: the lines' translations, in
      order, then whatever the other text gives. */
  lemma {:induction false} TranslationsThen(ts: seq<string>, k: nat, rest: string)
    requires forall i :: 0 <= i < |ts| ==> |ts[i]| > 0 && '"' !in ts[i]
    ensures ScanFront(TranslationLines(ts, k) + rest, 0, TranslationFront)
         == ts + ScanFront(rest, 0, TranslationFront)
    decreases |ts|
  {
    if |ts| > 0 {
      var tail := ts[1..];
      assert forall i :: 0 <= i < |tail| ==> |tail[i]| > 0 && '"' !in tail[i] by {
        forall i | 0 <= i < |tail| ensures |tail[i]| > 0 && '"' !in tail[i] {
          assert tail[i] == ts[i + 1];
        }
      }
      TranslationsThen(tail, k + 1, rest);
      FirstLine(ts, k, rest);
      var after := ScanFront(rest, 0, TranslationFront);
      ConsAppend(ts, after);
    } else {
      assert TranslationLines(ts, k) == "" && ts == [];
      assert TranslationLines(ts, k) + rest == rest;
    }
  }

  /** A non-empty sequence, then more: its first element, then the rest of it and the more. */
  lemma ConsAppend<T>(s: seq<T>, after: seq<T>)
    requires |s| > 0
    ensures s + after == [s[0]] + (s[1..] + after)
  {
    assert s == [s[0]] + s[1..];
  }

  /** The first of several translation lines is read, then the rest. */
  lemma FirstLine(ts: seq<string>, k: nat, rest: string)
    requires |ts| > 0 && |ts[0]| > 0 && '"' !in ts[0]
    ensures ScanFront(TranslationLines(ts, k) + rest, 0, TranslationFront)
         == [ts[0]] + ScanFront(TranslationLines(ts[1..], k + 1) + rest, 0, TranslationFront)
  {
    var line := TranslationLine(k, ts[0]);
    var more := TranslationLines(ts[1..], k + 1) + rest;
    var s := line + "\n" + more;
    assert TranslationLines(ts, k) + rest == s;
    assert s == line + ("\n" + more);
    TranslationAtLine(k, ts[0], "\n" + more);
    MismatchFront(s, TranslationLead, |line|);
    ScanFrontStep(line, ts[0], more, TranslationFront);
  }

  /** Translations written in the report's line format are all read back, in order. */
  lemma TranslationsRoundTrip(ts: seq<string>, k: nat)
    requires forall i :: 0 <= i < |ts| ==> |ts[i]| > 0 && '"' !in ts[i]
    ensures ExtractTranslations(TranslationLines(ts, k)) == ts
  {
    TranslationsThen(ts, k, "");
    assert TranslationLines(ts, k) + "" == TranslationLines(ts, k);
  }

  // ---------------------------------------------------------------------------
  // The whole report

  const NoRepeats: string := "No repeated segments found"
  const DisabledNotice: string := "Consistency Checking Disabled"
  const SourceBullet: string := "\U{2022} **Source**:"

  datatype Kind = NoIssues | Disabled | IssuesFound

  /** What the panel shows for one block. */
  datatype Issue = Issue(source: string, translations: seq<string>, recommendation: string, severity: Severity)

  /** A value together with the index of the block it was read from (the `id` field). */
  datatype Indexed<T> = Indexed(id: nat, item: T)

  datatype Parsed = Parsed(kind: Kind, count: nat, issues: seq<Indexed<Issue>>)

  predicate IsQuote(c: char) {
    c == '\'' || c == '"'
  }

  predicate NoQuotes(s: string) {
    forall k :: 0 <= k < |s| ==> !IsQuote(s[k])
  }

  /** `.replace(/['"]/g, '')`. */
  function StripQuotes(s: string): (r: string)
    ensures NoQuotes(r)
    ensures NoQuotes(s) ==> r == s
    ensures |r| <= |s|
    decreases |s|
  {
    if |s| == 0 then ""
    else (if IsQuote(s[0]) then "" else [s[0]]) + StripQuotes(s[1..])
  }

  /** Every quote goes, and every other character stays as often as it was there. */
  lemma {:induction false} StripQuotesCounts(s: string)
    ensures forall c :: multiset(StripQuotes(s))[c] == if IsQuote(c) then 0 else multiset(s)[c]
    decreases |s|
  {
    if |s| > 0 {
      StripQuotesCounts(s[1..]);
      assert s == [s[0]] + s[1..];
      assert StripQuotes(s) == (if IsQuote(s[0]) then "" else [s[0]]) + StripQuotes(s[1..]);
    }
  }

  /** On one character: a quote is removed, anything else is kept. With
      `StripQuotesAppend` this fixes the result on every string, in order. */
  lemma StripQuotesChar(c: char)
    ensures StripQuotes([c]) == if IsQuote(c) then "" else [c]
  {
  }

  /** Removing quotes piecewise is removing them from the whole. */
  lemma {:induction false} StripQuotesAppend(a: string, b: string)
    ensures StripQuotes(a + b) == StripQuotes(a) + StripQuotes(b)
    decreases |a|
  {
    if |a| > 0 {
      var head := if IsQuote(a[0]) then "" else [a[0]];
      assert (a + b)[0] == a[0] && (a + b)[1..] == a[1..] + b;
      assert StripQuotes(a + b) == head + StripQuotes(a[1..] + b);
      StripQuotesAppend(a[1..], b);
      assert head + (StripQuotes(a[1..]) + StripQuotes(b)) == (head + StripQuotes(a[1..])) + StripQuotes(b);
    } else {
      assert a + b == b;
    }
  }

  /** `segment.split('\n').map(l => l.trim()).filter(Boolean)`. */
  function Lines(segment: string): seq<string> {
    TrimNonEmpty(SplitWhere(segment, IsNewline))
  }

  /** The issue read from a block, if the block has at least three non-blank lines. */
  function IssueOf(segment: string): (r: Option<Issue>)
    ensures r.Some? <==> |Lines(segment)| >= 3
    ensures r.Some? ==> NoQuotes(r.value.source)
  {
    var lines := Lines(segment);
    if |lines| >= 3 then
      Some(Issue(StripQuotes(lines[0]), ExtractTranslations(segment),
                 ExtractRecommendation(segment), DetermineSeverity(segment)))
    else None
  }

  /** The `forEach` over the blocks: the values `read` finds, in block order,
      each with its block's index counted from `from`. */
  function Present<T>(blocks: seq<string>, from: nat, read: string -> Option<T>): (r: seq<Indexed<T>>)
    ensures |r| <= |blocks|
    ensures forall k :: 0 <= k < |r| ==> from <= r[k].id < from + |blocks|
    decreases |blocks|
  {
    if |blocks| == 0 then []
    else
      var rest := Present(blocks[1..], from + 1, read);
      match read(blocks[0])
      case Some(x) => [Indexed(from, x)] + rest
      case None => rest
  }

  /** One step of `Present`: the first block's value, if any, then the rest. */
  lemma PresentUnfold<T>(blocks: seq<string>, from: nat, read: string -> Option<T>)
    requires |blocks| > 0
    ensures Present(blocks, from, read)
         == (if read(blocks[0]).Some? then [Indexed(from, read(blocks[0]).value)] else [])
            + Present(blocks[1..], from + 1, read)
  {
  }

  /** Each value was read from the block its index names. */
  lemma {:induction false} PresentSound<T>(blocks: seq<string>, from: nat, read: string -> Option<T>, k: nat)
    returns (b: nat)
    requires k < |Present(blocks, from, read)|
    ensures b < |blocks| && read(blocks[b]).Some?
    ensures Present(blocks, from, read)[k] == Indexed(from + b, read(blocks[b]).value)
    decreases |blocks|
  {
    PresentUnfold(blocks, from, read);
    var rest := Present(blocks[1..], from + 1, read);
    if read(blocks[0]).Some? && k == 0 {
      b := 0;
    } else {
      var k' := if read(blocks[0]).Some? then k - 1 else k;
      assert Present(blocks, from, read)[k] == rest[k'];
      var b' := PresentSound(blocks[1..], from + 1, read, k');
      b := b' + 1;
      assert blocks[b] == blocks[1..][b'];
    }
  }

  /** The values come in block order, so no index is used twice. */
  lemma {:induction false} PresentIncreasing<T>(blocks: seq<string>, from: nat, read: string -> Option<T>, k: nat, l: nat)
    requires k < l < |Present(blocks, from, read)|
    ensures Present(blocks, from, read)[k].id < Present(blocks, from, read)[l].id
    decreases |blocks|
  {
    var present := Present(blocks, from, read);
    var rest := Present(blocks[1..], from + 1, read);
    if read(blocks[0]).Some? {
      assert present[l] == rest[l - 1];
      if k > 0 {
        PresentIncreasing(blocks[1..], from + 1, read, k - 1, l - 1);
        assert present[k] == rest[k - 1];
      }
    } else {
      PresentIncreasing(blocks[1..], from + 1, read, k, l);
    }
  }

  /** Every block in which `read` finds a value contributes it under its index. */
  lemma {:induction false} PresentComplete<T>(blocks: seq<string>, from: nat, read: string -> Option<T>, b: nat)
    requires b < |blocks| && read(blocks[b]).Some?
    ensures Indexed(from + b, read(blocks[b]).value) in Present(blocks, from, read)
    decreases |blocks|
  {
    if b > 0 {
      assert blocks[b] == blocks[1..][b - 1];
      PresentComplete(blocks[1..], from + 1, read, b - 1);
    }
  }

  /** The blocks of a report: the text after each source bullet. */
  function Blocks(report: string): seq<string> {
    SplitOn(report, SourceBullet)[1..]
  }

  /** The issues of a report: one per block with enough lines, numbered by block. */
  function Issues(report: string): seq<Indexed<Issue>> {
    Present(Blocks(report), 0, IssueOf)
  }

  /** `parseConsistencyResults`. */
  function ParseConsistencyResults(report: string): (r: Parsed)
    ensures r.kind == NoIssues <==> report == "" || Contains(report, NoRepeats)
    ensures r.kind == Disabled <==> report != "" && !Contains(report, NoRepeats) && Contains(report, DisabledNotice)
    ensures r.kind != IssuesFound ==> r.count == 0 && r.issues == []
    ensures r.kind == IssuesFound ==> r.count == ParseCount(report) && r.issues == Issues(report)
    ensures forall k :: 0 <= k < |r.issues| ==> r.issues[k].id < |Blocks(report)|
  {
    if report == "" || Contains(report, NoRepeats) then Parsed(NoIssues, 0, [])
    else if Contains(report, DisabledNotice) then Parsed(Disabled, 0, [])
    else Parsed(IssuesFound, ParseCount(report), Issues(report))
  }

  /** Each issue is the one read from the block its index names. */
  lemma IssueFromBlock(report: string, k: nat)
    requires k < |Issues(report)|
    ensures Issues(report)[k].id < |Blocks(report)|
    ensures IssueOf(Blocks(report)[Issues(report)[k].id]) == Some(Issues(report)[k].item)
  {
    var b := PresentSound(Blocks(report), 0, IssueOf, k);
  }

  /** Issues are listed in block order, so each block gives at most one. */
  lemma IssuesInOrder(report: string, k: nat, l: nat)
    requires k < l < |Issues(report)|
    ensures Issues(report)[k].id < Issues(report)[l].id
  {
    PresentIncreasing(Blocks(report), 0, IssueOf, k, l);
  }

  /** Every block with at least three non-blank lines is reported. */
  lemma BlocksGiveIssues(report: string, b: nat)
    requires b < |Blocks(report)| && |Lines(Blocks(report)[b])| >= 3
    ensures Indexed(b, IssueOf(Blocks(report)[b]).value) in Issues(report)
  {
    PresentComplete(Blocks(report), 0, IssueOf, b);
  }

  /** A report written by the analyser, after a header with no capital F,
      yields the number of segments it announces. */
  lemma ParsedCount(pre: string, n: nat, rest: string)
    requires 'F' !in pre
    requires var report := pre + FoundPrefix + Decimal(n) + FoundSuffix + rest;
             !Contains(report, NoRepeats) && !Contains(report, DisabledNotice)
    ensures var r := ParseConsistencyResults(pre + FoundPrefix + Decimal(n) + FoundSuffix + rest);
            r.kind == IssuesFound && r.count == n
  {
    CountRoundTrip(pre, n, rest);
  }
}
