/** The layout of one issue block of a consistency report, as the panel
    expects it after the source bullet, and the proof that such a block is
    read back into the issue it was written from. */
module IssueBlock {
  import opened Wrappers
  import opened Text
  import opened Report

  /** A block: the quoted source line, one numbered line per translation and
      the recommendation line. */
  function Block(source: string, ts: seq<string>, rec: string): string {
    SourceLine(source) + TranslationLines(ts, 1) + RecommendationLine(rec)
  }

  function SourceLine(source: string): string {
    " \"" + source + "\"\n"
  }

  function RecommendationLine(rec: string): string {
    RecommendationMarker + rec + "\n"
  }

  // ---------------------------------------------------------------------------
  // Lines

  /** Splitting a block at a line break splits its lines. */
  lemma LinesAppend(x: string, y: string)
    ensures Lines(x + "\n" + y) == Lines(x) + Lines(y)
  {
    assert x + "\n" + y == x + ['\n'] + y;
    SplitWhereAppend(x, '\n', y, IsNewline);
    MapNonEmptyAppend(SplitWhere(x, IsNewline), SplitWhere(y, IsNewline), Trim);
  }

  /** Text that starts with a visible character has a first line. */
  lemma LinesFront(x: string)
    requires |x| > 0 && !IsSpace(x[0]) && !IsNewline(x[0])
    ensures |Lines(x)| >= 1
  {
    var pieces := SplitWhere(x, IsNewline);
    var rest := SplitWhere(x[1..], IsNewline);
    assert pieces[0] == [x[0]] + rest[0];
    TrimKeepsFront(pieces[0]);
  }

  /** Non-blank text without a line break is one line. */
  lemma LinesOne(x: string)
    requires |Trim(x)| > 0
    requires forall k :: 0 <= k < |x| ==> !IsNewline(x[k])
    ensures Lines(x) == [Trim(x)]
  {
    SplitWhereWhole(x, IsNewline);
    assert [x][1..] == [];
  }

  /** The source line's text trimmed is the source in quotes. */
  lemma SourceTrimmed(source: string)
    ensures Trim(" \"" + source + "\"") == "\"" + source + "\""
  {
    var q := "\"" + source + "\"";
    var x := " " + q;
    assert x == " \"" + source + "\"";
    assert IsSpace(x[0]) && x[1..] == q;
    assert !IsSpace(q[0]) && !IsSpace(q[|q| - 1]);
    assert Trim(x) == Trim(q);
  }

  /** Removing the quotes around a source without quotes gives the source. */
  lemma SourceUnquoted(source: string)
    requires NoQuotes(source)
    ensures StripQuotes("\"" + source + "\"") == source
  {
    StripQuotesAppend("\"", source + "\"");
    StripQuotesAppend(source, "\"");
    StripQuotesChar('"');
    assert "\"" + source + "\"" == "\"" + (source + "\"");
  }

  /** The source line, without its line break, is one line: the source in quotes. */
  lemma SourceLineAlone(source: string)
    requires '\n' !in source
    ensures Lines(" \"" + source + "\"") == ["\"" + source + "\""]
  {
    var first := " \"" + source + "\"";
    forall k | 0 <= k < |first| ensures !IsNewline(first[k]) {
      if 2 <= k < |first| - 1 {
        assert first[k] == source[k - 2];
      }
    }
    SourceTrimmed(source);
    LinesOne(first);
  }

  /** A translation line has a line of its own. */
  lemma TranslationLineShown(k: nat, t: string)
    ensures |Lines(TranslationLine(k, t))| >= 1
  {
    assert TranslationLine(k, t)[0] == '-';
    LinesFront(TranslationLine(k, t));
  }

  /** Translation lines followed by the recommendation line show at least one line. */
  lemma TailShown(ts: seq<string>, k: nat, rec: string)
    ensures |Lines(TranslationLines(ts, k) + RecommendationLine(rec))| >= 1
  {
    var more := TranslationLines(ts, k) + RecommendationLine(rec);
    if |ts| > 0 {
      assert more[0] == TranslationLine(k, ts[0])[0] == '-';
    } else {
      assert more == RecommendationLine(rec);
      assert more[0] == '*';
    }
    LinesFront(more);
  }

  /** A block has at least three lines, the first being the quoted source. */
  lemma BlockLines(source: string, ts: seq<string>, rec: string)
    requires '\n' !in source && |ts| > 0
    ensures |Lines(Block(source, ts, rec))| >= 3
    ensures Lines(Block(source, ts, rec))[0] == "\"" + source + "\""
  {
    var first := " \"" + source + "\"";
    var line := TranslationLine(1, ts[0]);
    var more := TranslationLines(ts[1..], 2) + RecommendationLine(rec);
    assert Block(source, ts, rec) == first + "\n" + (line + "\n" + more);
    LinesAppend(first, line + "\n" + more);
    LinesAppend(line, more);
    SourceLineAlone(source);
    TranslationLineShown(1, ts[0]);
    TailShown(ts[1..], 2, rec);
  }

  // ---------------------------------------------------------------------------
  // Where the markers cannot start

  /** The characters of the two markers that the proofs below rely on. */
  lemma MarkerShapes()
    ensures |RecommendationMarker| == 20 && RecommendationMarker[0] == '*' && RecommendationMarker[2] == 'R'
    ensures '"' !in RecommendationMarker && '\n' !in RecommendationMarker && '-' !in RecommendationMarker
    ensures |TranslationLead| > 0 && TranslationLead[0] == '-'
    ensures '"' !in TranslationLead && '\n' !in TranslationLead
  {
  }

  /** A word that starts with neither a space nor a quote and contains no
      quote or line break starts nowhere on the source line unless the source
      contains it. */
  lemma SourceLineFree(source: string, rest: string, w: string)
    requires |w| > 0 && w[0] != ' ' && w[0] != '"' && '"' !in w && '\n' !in w
    requires !Contains(source, w)
    ensures forall j :: 0 <= j < |SourceLine(source)| ==> !OccursAt(SourceLine(source) + rest, w, j)
  {
    var x := " \"" + source;
    var s := SourceLine(source) + rest;
    ContainsAfter(" \"", source, w);
    assert s == x + ['"'] + ("\n" + rest);
    NoneBefore(x, '"', "\n" + rest, w);
    var j := |x| + 1;
    assert s[j] == '\n';
    Stop(s, w, j, j);
  }

  /** No translation starts on the source line. */
  lemma SourceLineNoTranslation(source: string, rest: string)
    requires !Contains(source, TranslationLead)
    ensures forall j :: 0 <= j < |SourceLine(source)| ==> TranslationFront((SourceLine(source) + rest)[j..]).None?
  {
    MarkerShapes();
    var s := SourceLine(source) + rest;
    SourceLineFree(source, rest, TranslationLead);
    forall j | 0 <= j < |SourceLine(source)| ensures TranslationFront(s[j..]).None? {
      OccursAtSuffix(s, TranslationLead, j);
    }
  }

  /** No translation is found on the recommendation line. */
  lemma RecommendationLineNoTranslation(rec: string)
    requires !Contains(rec, TranslationLead)
    ensures ScanFront(RecommendationLine(rec), 0, TranslationFront) == []
  {
    MarkerShapes();
    var x := RecommendationMarker + rec;
    var s := RecommendationLine(rec);
    ContainsAfter(RecommendationMarker, rec, TranslationLead);
    assert s == x + ['\n'] + "";
    NoneBefore(x, '\n', "", TranslationLead);
    forall j | 0 <= j < |s| ensures TranslationFront(s[j..]).None? {
      OccursAtSuffix(s, TranslationLead, j);
    }
    ScanFrontSkips(s, 0, |s|, TranslationFront);
  }

  /** The characters before the opening quote of a translation line hold no `R`. */
  lemma LineHeadNoR(k: nat)
    ensures 'R' !in TranslationLead + Decimal(k) + "**: "
  {
    var d := Decimal(k);
    var h := TranslationLead + d + "**: ";
    forall i | 0 <= i < |h| ensures h[i] != 'R' {
      if i < |TranslationLead| {
        assert h[i] == TranslationLead[i];
      } else if i < |TranslationLead| + |d| {
        assert h[i] == d[i - |TranslationLead|];
      } else {
        assert h[i] == "**: "[i - |TranslationLead| - |d|];
      }
    }
  }

  /** No occurrence of the recommendation marker starts before position `n`. */
  predicate MarkerFreeBefore(s: string, n: int) {
    forall j :: 0 <= j < n ==> !OccursAt(s, RecommendationMarker, j)
  }

  /** The recommendation marker starts nowhere before the opening quote of a
      translation line, nor at it. */
  lemma HeadNoMarker(k: nat, u: string)
    ensures MarkerFreeBefore(TranslationLead + Decimal(k) + "**: " + "\"" + u,
                             |TranslationLead + Decimal(k) + "**: "| + 1)
  {
    MarkerShapes();
    var m := RecommendationMarker;
    var h := TranslationLead + Decimal(k) + "**: ";
    var s := h + "\"" + u;
    assert s[|h|] == '"';
    LineHeadNoR(k);
    forall j | 0 <= j < |h| + 1 ensures !OccursAt(s, m, j) {
      if j + 2 < |h| {
        assert s[j + 2] == h[j + 2];
        Mismatch(s, m, j, 2);
      } else {
        Stop(s, m, j, |h|);
      }
    }
  }

  /** The recommendation marker starts nowhere on a translation line whose
      text does not contain it. */
  lemma LineNoMarker(k: nat, t: string, rest: string)
    requires !Contains(t, RecommendationMarker)
    ensures MarkerFreeBefore(TranslationLine(k, t) + "\n" + rest, |TranslationLine(k, t) + "\n"|)
  {
    MarkerShapes();
    var m := RecommendationMarker;
    var h := TranslationLead + Decimal(k) + "**: ";
    var after := t + ['"'] + ("\n" + rest);
    var s := TranslationLine(k, t) + "\n" + rest;
    var head := h + "\"" + after;
    var text := (h + "\"") + t + "\"" + ("\n" + rest);
    assert s == head && s == text;
    HeadNoMarker(k, after);
    TextNoMarker(h + "\"", t, rest);
    forall j | 0 <= j < |TranslationLine(k, t) + "\n"| ensures !OccursAt(s, m, j) {
      if j <= |h| {
        assert !OccursAt(head, m, j);
      } else if j <= |h| + 1 + |t| {
        assert !OccursAt(text, m, j);
      } else {
        assert s[j] == '\n';
        Stop(s, m, j, j);
      }
    }
  }

  /** Quoted text without the marker, after any prefix: the marker starts
      nowhere from the text to its closing quote. */
  lemma TextNoMarker(p: string, t: string, rest: string)
    requires !Contains(t, RecommendationMarker)
    ensures forall j :: |p| <= j <= |p| + |t| ==> !OccursAt(p + t + "\"" + ("\n" + rest), RecommendationMarker, j)
  {
    MarkerShapes();
    var after := t + ['"'] + ("\n" + rest);
    assert p + t + "\"" + ("\n" + rest) == p + after;
    NoneBefore(t, '"', "\n" + rest, RecommendationMarker);
    forall j | |p| <= j <= |p| + |t| ensures !OccursAt(p + after, RecommendationMarker, j) {
      OccursShift(p, after, RecommendationMarker, j - |p|);
    }
  }

  /** The recommendation marker starts nowhere in translation lines whose texts
      do not contain it. */
  lemma {:induction false} LinesNoMarker(ts: seq<string>, k: nat, rest: string)
    requires forall i :: 0 <= i < |ts| ==> !Contains(ts[i], RecommendationMarker)
    ensures MarkerFreeBefore(TranslationLines(ts, k) + rest, |TranslationLines(ts, k)|)
    decreases |ts|
  {
    if |ts| > 0 {
      var tail := ts[1..];
      assert forall i :: 0 <= i < |tail| ==> !Contains(tail[i], RecommendationMarker) by {
        forall i | 0 <= i < |tail| ensures !Contains(tail[i], RecommendationMarker) {
          assert tail[i] == ts[i + 1];
        }
      }
      LinesNoMarker(tail, k + 1, rest);
      LinesNoMarkerStep(ts, k, rest);
    }
  }

  /** The step of `LinesNoMarker`: the first line, then the others shifted. */
  lemma LinesNoMarkerStep(ts: seq<string>, k: nat, rest: string)
    requires |ts| > 0 && !Contains(ts[0], RecommendationMarker)
    requires MarkerFreeBefore(TranslationLines(ts[1..], k + 1) + rest, |TranslationLines(ts[1..], k + 1)|)
    ensures MarkerFreeBefore(TranslationLines(ts, k) + rest, |TranslationLines(ts, k)|)
  {
    var first := TranslationLine(k, ts[0]) + "\n";
    var more := TranslationLines(ts[1..], k + 1) + rest;
    assert TranslationLines(ts, k) + rest == first + more;
    LineNoMarker(k, ts[0], more);
    forall j | 0 <= j < |TranslationLines(ts, k)|
      ensures !OccursAt(first + more, RecommendationMarker, j)
    {
      if j >= |first| {
        OccursShift(first, more, RecommendationMarker, j - |first|);
      }
    }
  }

  // ---------------------------------------------------------------------------
  // The round trip

  /** Scanning a block for translations skips its source line. */
  lemma SkipSourceLine(source: string, rest: string)
    requires !Contains(source, TranslationLead)
    ensures ScanFront(SourceLine(source) + rest, 0, TranslationFront) == ScanFront(rest, 0, TranslationFront)
  {
    var a := SourceLine(source);
    SourceLineNoTranslation(source, rest);
    ScanFrontSkips(a + rest, 0, |a|, TranslationFront);
    ScanFrontShift(a, rest, 0, TranslationFront);
  }

  /** The translations read from a block are the ones written into it. */
  lemma BlockTranslations(source: string, ts: seq<string>, rec: string)
    requires !Contains(source, TranslationLead) && !Contains(rec, TranslationLead)
    requires forall i :: 0 <= i < |ts| ==> |ts[i]| > 0 && '"' !in ts[i]
    ensures ExtractTranslations(Block(source, ts, rec)) == ts
  {
    var c := RecommendationLine(rec);
    var bc := TranslationLines(ts, 1) + c;
    assert Block(source, ts, rec) == SourceLine(source) + bc;
    SkipSourceLine(source, bc);
    TranslationsThen(ts, 1, c);
    RecommendationLineNoTranslation(rec);
    assert ts + [] == ts;
  }

  /** Before the recommendation line the marker starts nowhere, even
      overlapping the marker itself. */
  lemma BeforeRecommendation(source: string, ts: seq<string>)
    requires !Contains(source, RecommendationMarker)
    requires forall i :: 0 <= i < |ts| ==> !Contains(ts[i], RecommendationMarker)
    ensures forall j :: 0 <= j < |SourceLine(source) + TranslationLines(ts, 1)| ==>
              !OccursAt(SourceLine(source) + TranslationLines(ts, 1) + RecommendationMarker, RecommendationMarker, j)
  {
    MarkerShapes();
    var m := RecommendationMarker;
    var a := SourceLine(source);
    var b := TranslationLines(ts, 1);
    assert a + b + m == a + (b + m);
    SourceLineFree(source, b + m, m);
    LinesNoMarker(ts, 1, m);
    forall j | 0 <= j < |a + b| ensures !OccursAt(a + (b + m), m, j) {
      if j >= |a| {
        assert !OccursAt(b + m, m, j - |a|);
        OccursShift(a, b + m, m, j - |a|);
      }
    }
  }

  /** The recommendation read from a block is the one written into it. */
  lemma BlockRecommendation(source: string, ts: seq<string>, rec: string)
    requires !Contains(source, RecommendationMarker)
    requires forall i :: 0 <= i < |ts| ==> !Contains(ts[i], RecommendationMarker)
    requires |rec| > 0 && '\n' !in rec
    ensures ExtractRecommendation(Block(source, ts, rec)) == rec
  {
    var pre := SourceLine(source) + TranslationLines(ts, 1);
    assert Block(source, ts, rec) == pre + RecommendationMarker + rec + "\n" + "";
    BeforeRecommendation(source, ts);
    RecommendationRoundTrip(pre, rec, "");
  }

  /** A block written in the report's layout is read back as the issue it was
      written from: the source without its quotes, every translation in order,
      the recommendation, and the severity of the whole block. */
  lemma IssueRoundTrip(source: string, ts: seq<string>, rec: string)
    requires NoQuotes(source) && '\n' !in source
    requires !Contains(source, TranslationLead) && !Contains(source, RecommendationMarker)
    requires |ts| > 0
    requires forall i :: 0 <= i < |ts| ==> |ts[i]| > 0 && '"' !in ts[i] && !Contains(ts[i], RecommendationMarker)
    requires |rec| > 0 && '\n' !in rec && !Contains(rec, TranslationLead)
    ensures IssueOf(Block(source, ts, rec))
         == Some(Issue(source, ts, rec, DetermineSeverity(Block(source, ts, rec))))
  {
    BlockLines(source, ts, rec);
    SourceUnquoted(source);
    BlockTranslations(source, ts, rec);
    BlockRecommendation(source, ts, rec);
  }
}
