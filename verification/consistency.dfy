/** `findRepeatedSegments`: pairs source and translated sentences by position
    and reports source sentences that were translated in more than one way. */
module Consistency {
  import opened Wrappers
  import opened Text
  import opened Sorting

  predicate IsTerminator(c: char) {
    c == '.' || c == '!' || c == '?'
  }

  /** No sentence terminator inside. */
  predicate Unbroken(s: string) {
    forall k :: 0 <= k < |s| ==> !IsTerminator(s[k])
  }

  /** `text.split(/[.!?]+/).map(s => s.trim()).filter(Boolean)`: the trimmed,
      non-empty sentences, none of which contains a terminator. */
  function Segments(text: string): (r: seq<string>)
    ensures forall i :: 0 <= i < |r| ==> |r[i]| > 0 && Trim(r[i]) == r[i] && Unbroken(r[i])
  {
    var pieces := SplitRuns(text, IsTerminator);
    var r := TrimNonEmpty(pieces);
    forall i | 0 <= i < |r| ensures Trim(r[i]) == r[i] && Unbroken(r[i]) {
      var j := TrimNonEmptyTrimmed(pieces, i);
      TrimUnbroken(pieces[j]);
    }
    r
  }

  lemma TrimUnbroken(s: string)
    requires Unbroken(s)
    ensures Unbroken(Trim(s))
  {
    var t := Trim(s);
    forall k | 0 <= k < |t| ensures !IsTerminator(t[k]) {
      TrimAt(s, k);
    }
  }

  /** The sentence a piece gives: the piece trimmed, or none when it is blank. */
  function Sentence(piece: string): seq<string> {
    if |Trim(piece)| > 0 then [Trim(piece)] else []
  }

  /** Text made of a piece, a run of terminators and the rest has the piece's
      sentence first, then the sentences of the rest. */
  lemma SegmentsStep(piece: string, run: string, rest: string)
    requires Unbroken(piece) && |run| > 0 && AllSep(run, IsTerminator)
    requires |rest| == 0 || !IsTerminator(rest[0])
    ensures Segments(piece + run + rest) == Sentence(piece) + Segments(rest)
  {
    var after := SplitRuns(rest, IsTerminator);
    SplitRunsStep(piece, run, rest, after, IsTerminator);
    MapNonEmptyAppend([piece], after, Trim);
  }

  /** Text with no terminator is one piece. */
  lemma SegmentsLast(piece: string)
    requires Unbroken(piece)
    ensures Segments(piece) == Sentence(piece)
  {
    SplitRunsPrefix(piece, "", IsTerminator);
    assert piece + "" == piece;
  }

  /** Pieces joined by runs of terminators, in the shape splitting produces,
      give back exactly the pieces' sentences, in order. */
  lemma SegmentsOfJoin(ps: seq<string>, runs: seq<string>)
    requires RunSplit(ps, runs, IsTerminator)
    ensures Segments(JoinRuns(ps, runs)) == TrimNonEmpty(ps)
  {
    SplitRunsOfJoin(ps, runs, IsTerminator);
  }

  /** Every text is such a join: its sentences are the trimmed non-blank
      pieces between its runs of terminators, in order. */
  lemma SegmentsPieces(text: string) returns (ps: seq<string>, runs: seq<string>)
    ensures RunSplit(ps, runs, IsTerminator) && JoinRuns(ps, runs) == text
    ensures Segments(text) == TrimNonEmpty(ps)
  {
    ps := SplitRuns(text, IsTerminator);
    runs := SplitRunsRebuild(text, IsTerminator);
  }

  /** Sentences shorter than this are not compared. */
  const MinSegmentLength: nat := 10

  datatype Pair = Pair(source: string, translation: string)

  /** Positional pairing up to the shorter list, skipping short source sentences. */
  function PairUp(sources: seq<string>, translations: seq<string>): (r: seq<Pair>)
    ensures forall p :: p in r ==> |p.source| >= MinSegmentLength
    ensures forall p :: p in r ==> exists i :: 0 <= i < Min(|sources|, |translations|)
                                          && p == Pair(sources[i], translations[i])
    ensures forall i :: 0 <= i < Min(|sources|, |translations|) && |sources[i]| >= MinSegmentLength ==>
      Pair(sources[i], translations[i]) in r
  {
    var r := PairsFrom(sources, translations, 0);
    forall p | p in r
      ensures exists i :: 0 <= i < Min(|sources|, |translations|) && p == Pair(sources[i], translations[i])
    {
      var i := PairsFromSound(sources, translations, 0, p);
    }
    forall i | 0 <= i < Min(|sources|, |translations|) && |sources[i]| >= MinSegmentLength
      ensures Pair(sources[i], translations[i]) in r
    {
      PairsFromComplete(sources, translations, 0, i);
    }
    r
  }

  /** The pairs from position `from` on. */
  function PairsFrom(sources: seq<string>, translations: seq<string>, from: nat): (r: seq<Pair>)
    requires from <= Min(|sources|, |translations|)
    ensures forall p :: p in r ==> |p.source| >= MinSegmentLength
    decreases Min(|sources|, |translations|) - from
  {
    if from == Min(|sources|, |translations|) then []
    else
      (if |sources[from]| >= MinSegmentLength then [Pair(sources[from], translations[from])] else [])
      + PairsFrom(sources, translations, from + 1)
  }

  /** Every pair sits at one position of both lists. */
  lemma {:induction false} PairsFromSound(sources: seq<string>, translations: seq<string>, from: nat, p: Pair)
    returns (i: nat)
    requires from <= Min(|sources|, |translations|)
    requires p in PairsFrom(sources, translations, from)
    ensures from <= i < Min(|sources|, |translations|) && p == Pair(sources[i], translations[i])
    decreases Min(|sources|, |translations|) - from
  {
    if p == Pair(sources[from], translations[from]) {
      i := from;
    } else {
      i := PairsFromSound(sources, translations, from + 1, p);
    }
  }

  /** Every position with a long enough source sentence gives a pair. */
  lemma {:induction false} PairsFromComplete(sources: seq<string>, translations: seq<string>, from: nat, i: nat)
    requires from <= i < Min(|sources|, |translations|) && |sources[i]| >= MinSegmentLength
    ensures Pair(sources[i], translations[i]) in PairsFrom(sources, translations, from)
    decreases i - from
  {
    if i > from {
      PairsFromComplete(sources, translations, from + 1, i);
    }
  }

  /** Every translation paired with `source`, in document order (duplicates kept). */
  function TranslationsOf(pairs: seq<Pair>, source: string): seq<string>
    decreases |pairs|
  {
    if |pairs| == 0 then []
    else
      var last := pairs[|pairs| - 1];
      TranslationsOf(pairs[..|pairs| - 1], source) + (if last.source == source then [last.translation] else [])
  }

  lemma {:induction false} TranslationsOfEmpty(pairs: seq<Pair>, source: string)
    requires forall p :: p in pairs ==> p.source != source
    ensures TranslationsOf(pairs, source) == []
    decreases |pairs|
  {
    if |pairs| > 0 {
      TranslationsOfEmpty(pairs[..|pairs| - 1], source);
    }
  }

  /** A source sentence with every translation it received. */
  datatype Group = Group(source: string, translations: seq<string>)

  /** Index of the group for `source`, if there is one. */
  function GroupIndex(groups: seq<Group>, source: string): (r: Option<nat>)
    ensures r.Some? ==> r.value < |groups| && groups[r.value].source == source
    ensures r.None? ==> forall g :: g in groups ==> g.source != source
    decreases |groups|
  {
    if |groups| == 0 then None
    else if groups[|groups| - 1].source == source then Some(|groups| - 1)
    else GroupIndex(groups[..|groups| - 1], source)
  }

  /** `sentenceMap.get(source).push(translation)`, creating the entry on first sight. */
  function AddPair(groups: seq<Group>, p: Pair): seq<Group> {
    match GroupIndex(groups, p.source)
    case Some(i) => groups[i := Group(p.source, groups[i].translations + [p.translation])]
    case None => groups + [Group(p.source, [p.translation])]
  }

  /** The `Map` the first loop builds, in insertion order. */
  function Collect(pairs: seq<Pair>): (r: seq<Group>)
    ensures GroupsOf(r, pairs)
    decreases |pairs|
  {
    if |pairs| == 0 then []
    else
      var groups := Collect(pairs[..|pairs| - 1]);
      AddPairLast(groups, pairs);
      AddPair(groups, pairs[|pairs| - 1])
  }

  /** Adding the last pair to the grouping of the others groups them all. */
  lemma AddPairLast(groups: seq<Group>, pairs: seq<Pair>)
    requires |pairs| > 0 && GroupsOf(groups, pairs[..|pairs| - 1])
    ensures GroupsOf(AddPair(groups, pairs[|pairs| - 1]), pairs)
  {
    AddPairKeeps(groups, pairs[..|pairs| - 1], pairs[|pairs| - 1]);
    assert pairs[..|pairs| - 1] + [pairs[|pairs| - 1]] == pairs;
  }

  function SourceOf(g: Group): string {
    g.source
  }

  /** No source sentence has two groups. */
  ghost predicate SourcesDistinct(groups: seq<Group>) {
    DistinctBy(groups, SourceOf)
  }

  ghost predicate Mentions(pairs: seq<Pair>, source: string) {
    exists p :: p in pairs && p.source == source
  }

  ghost predicate Listed(groups: seq<Group>, source: string) {
    exists g :: g in groups && g.source == source
  }

  /** `groups` is the grouping of `pairs` by source: one group per source
      sentence that occurs, holding every translation it was paired with. */
  ghost predicate GroupsOf(groups: seq<Group>, pairs: seq<Pair>) {
    && SourcesDistinct(groups)
    && (forall g :: g in groups ==> g.translations == TranslationsOf(pairs, g.source) && Mentions(pairs, g.source))
    && (forall p :: p in pairs ==> Listed(groups, p.source))
  }

  lemma TranslationsOfSnoc(pairs: seq<Pair>, p: Pair, source: string)
    ensures TranslationsOf(pairs + [p], source)
         == TranslationsOf(pairs, source) + (if p.source == source then [p.translation] else [])
  {
    assert (pairs + [p])[..|pairs|] == pairs;
  }

  lemma AddPairKeeps(groups: seq<Group>, pairs: seq<Pair>, p: Pair)
    requires GroupsOf(groups, pairs)
    ensures GroupsOf(AddPair(groups, p), pairs + [p])
  {
    var all := pairs + [p];
    forall g | g in groups && g.source != p.source
      ensures TranslationsOf(all, g.source) == g.translations
    {
      TranslationsOfSnoc(pairs, p, g.source);
    }
    TranslationsOfSnoc(pairs, p, p.source);
    match GroupIndex(groups, p.source)
    case Some(i) => AddPairExtends(groups, pairs, p, i);
    case None =>
      TranslationsOfEmpty(pairs, p.source);
      AddPairOpens(groups, pairs, p);
  }

  /** A source seen before: its group gains the translation. */
  lemma AddPairExtends(groups: seq<Group>, pairs: seq<Pair>, p: Pair, i: nat)
    requires GroupsOf(groups, pairs)
    requires i < |groups| && groups[i].source == p.source
    requires forall g :: g in groups && g.source != p.source ==> TranslationsOf(pairs + [p], g.source) == g.translations
    requires TranslationsOf(pairs + [p], p.source) == TranslationsOf(pairs, p.source) + [p.translation]
    ensures GroupsOf(groups[i := Group(p.source, groups[i].translations + [p.translation])], pairs + [p])
  {
    var after := groups[i := Group(p.source, groups[i].translations + [p.translation])];
    var all := pairs + [p];
    ReplaceKeepsDistinct(groups, i, after[i]);
    forall g | g in after
      ensures g.translations == TranslationsOf(all, g.source) && Mentions(all, g.source)
    {
      var k :| 0 <= k < |after| && after[k] == g;
      if k != i {
        assert groups[k] == g;
        var q :| q in pairs && q.source == g.source;
        assert q in all;
      } else {
        assert groups[i] in groups;
        assert p in all;
      }
    }
    forall q | q in all ensures Listed(after, q.source) {
      if q == p {
        assert after[i] in after;
      } else {
        assert q in pairs;
        var g :| g in groups && g.source == q.source;
        var k :| 0 <= k < |groups| && groups[k] == g;
        assert after[k] in after;
      }
    }
  }

  /** Replacing a group by one for the same source keeps sources distinct. */
  lemma ReplaceKeepsDistinct(groups: seq<Group>, i: nat, g: Group)
    requires SourcesDistinct(groups) && i < |groups| && g.source == groups[i].source
    ensures SourcesDistinct(groups[i := g])
  {
    var after := groups[i := g];
    forall k, l | 0 <= k < l < |after| ensures SourceOf(after[k]) != SourceOf(after[l]) {
      assert SourceOf(after[k]) == SourceOf(groups[k]) && SourceOf(after[l]) == SourceOf(groups[l]);
    }
  }

  /** A new source: a group of its own is appended. */
  lemma AddPairOpens(groups: seq<Group>, pairs: seq<Pair>, p: Pair)
    requires GroupsOf(groups, pairs)
    requires forall g :: g in groups ==> g.source != p.source
    requires forall g :: g in groups ==> TranslationsOf(pairs + [p], g.source) == g.translations
    requires TranslationsOf(pairs + [p], p.source) == [p.translation]
    ensures GroupsOf(groups + [Group(p.source, [p.translation])], pairs + [p])
  {
    var after := groups + [Group(p.source, [p.translation])];
    var all := pairs + [p];
    assert SourcesDistinct(after) by {
      forall k, l | 0 <= k < l < |after| ensures SourceOf(after[k]) != SourceOf(after[l]) {
        assert after[k] in groups;
        if l < |groups| {
          assert SourceOf(groups[k]) != SourceOf(groups[l]);
        }
      }
    }
    forall g | g in after
      ensures g.translations == TranslationsOf(all, g.source) && Mentions(all, g.source)
    {
      assert p in all;
      if g in groups {
        var q :| q in pairs && q.source == g.source;
        assert q in all;
      }
    }
    assert after[|groups|] in after;
    forall q | q in all ensures Listed(after, q.source) {
      if q != p {
        assert q in pairs;
        var g :| g in groups && g.source == q.source;
        assert g in after;
      }
    }
  }

  /** `t.trim().toLowerCase()`. */
  function Canonical(t: string): string {
    Lower(Trim(t))
  }

  function CanonicalAll(ts: seq<string>): (r: seq<string>)
    ensures |r| == |ts|
    ensures forall i :: 0 <= i < |ts| ==> r[i] == Canonical(ts[i])
  {
    if |ts| == 0 then [] else [Canonical(ts[0])] + CanonicalAll(ts[1..])
  }

  /** `[...new Set(xs)]`: the distinct values in order of first occurrence. */
  function Distinct(xs: seq<string>): (r: seq<string>)
    ensures forall i, j :: 0 <= i < j < |r| ==> r[i] != r[j]
    ensures forall x :: x in r <==> x in xs
    decreases |xs|
  {
    if |xs| == 0 then []
    else
      var d := Distinct(xs[..|xs| - 1]);
      assert forall x :: x in xs <==> x in xs[..|xs| - 1] || x == xs[|xs| - 1];
      if xs[|xs| - 1] in d then d else d + [xs[|xs| - 1]]
  }

  /** Two occurrences were translated differently, ignoring case and surrounding blanks. */
  ghost predicate Divergent(ts: seq<string>) {
    exists i, j :: 0 <= i < |ts| && 0 <= j < |ts| && Canonical(ts[i]) != Canonical(ts[j])
  }

  /** The source's test `uniqueTranslations.length > 1` is exactly divergence. */
  lemma DistinctCountDivergent(ts: seq<string>)
    ensures |Distinct(CanonicalAll(ts))| > 1 <==> Divergent(ts)
  {
    if |Distinct(CanonicalAll(ts))| > 1 {
      TwoDistinctDiverge(ts);
    }
    if Divergent(ts) {
      DivergenceGivesTwo(ts);
    }
  }

  /** Divergence needs at least two occurrences. */
  lemma DivergentIsRepeated(ts: seq<string>)
    requires Divergent(ts)
    ensures |ts| > 1
  {
    DivergenceGivesTwo(ts);
  }

  lemma TwoDistinctDiverge(ts: seq<string>)
    requires |Distinct(CanonicalAll(ts))| > 1
    ensures Divergent(ts)
  {
    var cs := CanonicalAll(ts);
    var d := Distinct(cs);
    assert d[0] in d && d[1] in d && d[0] != d[1];
    var i :| 0 <= i < |cs| && cs[i] == d[0];
    var j :| 0 <= j < |cs| && cs[j] == d[1];
    assert cs[i] == Canonical(ts[i]) && cs[j] == Canonical(ts[j]);
  }

  lemma DivergenceGivesTwo(ts: seq<string>)
    requires Divergent(ts)
    ensures |Distinct(CanonicalAll(ts))| > 1
    ensures |ts| > 1
  {
    var cs := CanonicalAll(ts);
    var d := Distinct(cs);
    var i, j :| 0 <= i < |ts| && 0 <= j < |ts| && Canonical(ts[i]) != Canonical(ts[j]);
    assert cs[i] in cs && cs[j] in cs;
    assert cs[i] in d && cs[j] in d;
    SingletonHasOne(d, cs[i], cs[j]);
  }

  lemma SingletonHasOne(d: seq<string>, x: string, y: string)
    requires x in d && y in d && x != y
    ensures |d| > 1
  {
  }

  /** The filter of the second loop. */
  predicate Reported(g: Group) {
    |g.translations| > 1 && |Distinct(CanonicalAll(g.translations))| > 1
  }

  /** `xs.filter(keep)`. */
  function Keep<T(!new)>(xs: seq<T>, keep: T -> bool): (r: seq<T>)
    ensures forall x :: x in r <==> x in xs && keep(x)
    decreases |xs|
  {
    if |xs| == 0 then []
    else
      assert forall x :: x in xs <==> x == xs[0] || x in xs[1..];
      (if keep(xs[0]) then [xs[0]] else []) + Keep(xs[1..], keep)
  }

  /** Filtering never brings two items with the same image together. */
  lemma {:induction false} KeepDistinct<T(!new), K>(xs: seq<T>, keep: T -> bool, f: T -> K)
    requires DistinctBy(xs, f)
    ensures DistinctBy(Keep(xs, keep), f)
    decreases |xs|
  {
    if |xs| > 0 {
      var rest := xs[1..];
      assert DistinctBy(rest, f) by {
        forall i, j | 0 <= i < j < |rest| ensures f(rest[i]) != f(rest[j]) {
          assert rest[i] == xs[i + 1] && rest[j] == xs[j + 1];
        }
      }
      KeepDistinct(rest, keep, f);
      var kr := Keep(rest, keep);
      forall y | y in kr ensures f(y) != f(xs[0]) {
        var k :| 0 <= k < |rest| && rest[k] == y;
        assert xs[k + 1] == y;
      }
      var r := Keep(xs, keep);
      if keep(xs[0]) {
        assert r == [xs[0]] + kr;
        forall i, j | 0 <= i < j < |r| ensures f(r[i]) != f(r[j]) {
          assert r[j] == kr[j - 1];
          if i == 0 {
            assert r[j] in kr;
          } else {
            assert r[i] == kr[i - 1];
          }
        }
      } else {
        assert r == kr;
      }
    }
  }

  /** The pairs the analysis works on. */
  function AnalysedPairs(sourceText: string, translatedText: string): seq<Pair> {
    PairUp(Segments(sourceText), Segments(translatedText))
  }

  /** `findRepeatedSegments(sourceText, translatedText)`, as the list of the
      result object's entries in insertion order. Soundness: every reported
      sentence is long enough, comes with all of its translations, and those
      translations diverge. */
  function FindRepeatedSegments(sourceText: string, translatedText: string): (r: seq<Group>)
    ensures forall g :: g in r ==> |g.source| >= MinSegmentLength
    ensures forall g :: g in r ==>
      g.translations == TranslationsOf(AnalysedPairs(sourceText, translatedText), g.source)
    ensures forall g :: g in r ==> |g.translations| >= 2 && Divergent(g.translations)
    ensures SourcesDistinct(r)
  {
    var pairs := AnalysedPairs(sourceText, translatedText);
    var groups := Collect(pairs);
    var r := Keep(groups, Reported);
    forall g | g in r ensures |g.source| >= MinSegmentLength && Divergent(g.translations) {
      assert g in groups && Reported(g);
      ReportedIsSound(groups, pairs, g);
    }
    KeepDistinct(groups, Reported, SourceOf);
    r
  }

  lemma ReportedIsSound(groups: seq<Group>, pairs: seq<Pair>, g: Group)
    requires GroupsOf(groups, pairs)
    requires forall p :: p in pairs ==> |p.source| >= MinSegmentLength
    requires g in groups && Reported(g)
    ensures |g.source| >= MinSegmentLength && Divergent(g.translations)
  {
    assert Mentions(pairs, g.source);
    DistinctCountDivergent(g.translations);
  }

  /** Completeness: every source sentence whose translations diverge is reported. */
  lemma DivergentIsReported(sourceText: string, translatedText: string, source: string)
    requires Divergent(TranslationsOf(AnalysedPairs(sourceText, translatedText), source))
    ensures exists g :: g in FindRepeatedSegments(sourceText, translatedText) && g.source == source
  {
    var pairs := AnalysedPairs(sourceText, translatedText);
    var groups := Collect(pairs);
    var ts := TranslationsOf(pairs, source);
    if forall p :: p in pairs ==> p.source != source {
      TranslationsOfEmpty(pairs, source);
      assert false;
    }
    var p :| p in pairs && p.source == source;
    assert Listed(groups, p.source);
    var g :| g in groups && g.source == source;
    DistinctCountDivergent(ts);
    DivergentIsRepeated(ts);
    assert Reported(g);
  }
}
