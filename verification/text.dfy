/** String primitives with the meaning the JavaScript built-ins have in the
    translation tools: `trim`, `toLowerCase`, `includes`, `indexOf` and `split`. */
module Text {
  import opened Wrappers

  /** The characters `String.prototype.trim` removes: ECMAScript WhiteSpace and
      LineTerminator code points. */
  predicate IsSpace(c: char) {
    || c == ' ' || '\t' <= c <= '\r' || c == '\U{A0}' || c == '\U{1680}'
    || '\U{2000}' <= c <= '\U{200A}' || c == '\U{2028}' || c == '\U{2029}'
    || c == '\U{202F}' || c == '\U{205F}' || c == '\U{3000}' || c == '\U{FEFF}'
  }

  predicate IsUpper(c: char) {
    'A' <= c <= 'Z'
  }

  predicate IsDigit(c: char) {
    '0' <= c <= '9'
  }

  predicate IsNewline(c: char) {
    c == '\n'
  }

  // ---------------------------------------------------------------------------
  // Trimming

  /** Drops trailing white space. */
  function TrimEnd(s: string): (r: string)
    ensures |r| <= |s| && r == s[..|r|]
    ensures |r| > 0 ==> !IsSpace(r[|r| - 1])
    decreases |s|
  {
    if |s| > 0 && IsSpace(s[|s| - 1]) then TrimEnd(s[..|s| - 1]) else s
  }

  /** What `TrimEnd` drops is white space. */
  lemma {:induction false} TrimEndDropsSpace(s: string, k: nat)
    requires |TrimEnd(s)| <= k < |s|
    ensures IsSpace(s[k])
    decreases |s|
  {
    if k < |s| - 1 {
      assert s[k] == s[..|s| - 1][k];
      TrimEndDropsSpace(s[..|s| - 1], k);
    }
  }

  /** `String.prototype.trim`: drops white space at both ends. */
  function Trim(s: string): (r: string)
    ensures |r| <= |s|
    ensures |r| > 0 ==> !IsSpace(r[0]) && !IsSpace(r[|r| - 1])
    decreases |s|
  {
    if |s| > 0 && IsSpace(s[0]) then Trim(s[1..]) else TrimEnd(s)
  }

  /** How many white-space characters `Trim` removes from the front. */
  function LeadingSpace(s: string): (n: nat)
    ensures n <= |s|
    decreases |s|
  {
    if |s| > 0 && IsSpace(s[0]) then 1 + LeadingSpace(s[1..]) else 0
  }

  /** Character `k` of the trimmed string is character `k` after the leading
      white space. */
  lemma {:induction false} TrimAt(s: string, k: nat)
    requires k < |Trim(s)|
    ensures LeadingSpace(s) + k < |s| && Trim(s)[k] == s[LeadingSpace(s) + k]
    decreases |s|
  {
    if |s| > 0 && IsSpace(s[0]) {
      TrimAt(s[1..], k);
      assert s[1..][LeadingSpace(s[1..]) + k] == s[LeadingSpace(s) + k];
    } else {
      assert Trim(s) == TrimEnd(s);
    }
  }

  /** The leading white space and what is left fit in the string. */
  lemma TrimFits(s: string)
    ensures LeadingSpace(s) + |Trim(s)| <= |s|
  {
    if |Trim(s)| > 0 {
      TrimAt(s, |Trim(s)| - 1);
    }
  }

  /** Every character outside the kept infix is white space. */
  lemma {:induction false} TrimDropsSpace(s: string, k: nat)
    requires k < |s|
    requires k < LeadingSpace(s) || LeadingSpace(s) + |Trim(s)| <= k
    ensures IsSpace(s[k])
    decreases |s|
  {
    if |s| > 0 && IsSpace(s[0]) {
      if k > 0 {
        assert s[k] == s[1..][k - 1];
        TrimDropsSpace(s[1..], k - 1);
      }
    } else {
      TrimEndDropsSpace(s, k);
    }
  }

  /** Text that starts with a non-space keeps something when trimmed. */
  lemma TrimKeepsFront(s: string)
    requires |s| > 0 && !IsSpace(s[0])
    ensures |Trim(s)| > 0
  {
    if |TrimEnd(s)| == 0 {
      TrimEndDropsSpace(s, 0);
      assert false;
    }
  }

  lemma TrimIdempotent(s: string)
    ensures Trim(Trim(s)) == Trim(s)
  {
    var r := Trim(s);
    if |r| > 0 {
      assert TrimEnd(r) == r;
    }
  }

  // ---------------------------------------------------------------------------
  // Case folding (ASCII letters only)

  function LowerChar(c: char): char {
    if IsUpper(c) then (c as int - 'A' as int + 'a' as int) as char else c
  }

  /** `String.prototype.toLowerCase` restricted to the ASCII letters. */
  function Lower(s: string): (r: string)
    ensures |r| == |s|
    ensures forall i :: 0 <= i < |s| ==> r[i] == LowerChar(s[i])
  {
    if |s| == 0 then "" else [LowerChar(s[0])] + Lower(s[1..])
  }

  lemma LowerIdempotent(s: string)
    ensures Lower(Lower(s)) == Lower(s)
  {
  }

  lemma LowerAppend(a: string, b: string)
    ensures Lower(a + b) == Lower(a) + Lower(b)
  {
  }

  /** Text without capitals is its own lower-case form. */
  lemma LowerNoUpper(s: string)
    requires forall i :: 0 <= i < |s| ==> !IsUpper(s[i])
    ensures Lower(s) == s
  {
  }

  /** A capitalised word lower-cases in its first letter only. */
  lemma LowerCapitalised(s: string)
    requires |s| > 0 && forall i :: 1 <= i < |s| ==> !IsUpper(s[i])
    ensures Lower(s) == [LowerChar(s[0])] + s[1..]
  {
    LowerNoUpper(s[1..]);
  }

  /** Lower-casing maps white space to itself and nothing else to white space. */
  lemma LowerCharSpace(c: char)
    ensures IsSpace(c) ==> LowerChar(c) == c
    ensures IsSpace(LowerChar(c)) == IsSpace(c)
  {
  }

  /** Lower-casing leaves white space alone, so it commutes with trimming. */
  lemma {:induction false} LowerTrimCommute(s: string)
    ensures Lower(Trim(s)) == Trim(Lower(s))
    decreases |s|
  {
    if |s| > 0 {
      var l := Lower(s);
      LowerCharSpace(s[0]);
      assert l[0] == LowerChar(s[0]);
      assert l[1..] == Lower(s[1..]);
      if IsSpace(s[0]) {
        assert Trim(l) == Trim(l[1..]);
        LowerTrimCommute(s[1..]);
      } else {
        assert Trim(l) == TrimEnd(l);
        LowerTrimEnd(s);
      }
    }
  }

  lemma {:induction false} LowerTrimEnd(s: string)
    ensures Lower(TrimEnd(s)) == TrimEnd(Lower(s))
    decreases |s|
  {
    if |s| > 0 && IsSpace(s[|s| - 1]) {
      assert LowerChar(s[|s| - 1]) == s[|s| - 1];
      assert Lower(s)[..|s| - 1] == Lower(s[..|s| - 1]);
      LowerTrimEnd(s[..|s| - 1]);
    }
  }

  // ---------------------------------------------------------------------------
  // Searching

  predicate OccursAt(s: string, w: string, i: int) {
    0 <= i && i + |w| <= |s| && s[i..i + |w|] == w
  }

  predicate StartsWith(s: string, prefix: string) {
    OccursAt(s, prefix, 0)
  }

  /** `s.indexOf(w, from)`: the leftmost occurrence of `w` at or after `from`. */
  function IndexFrom(s: string, w: string, from: nat): (r: Option<nat>)
    ensures r.Some? ==> from <= r.value && OccursAt(s, w, r.value)
    ensures r.Some? ==> forall j :: from <= j < r.value ==> !OccursAt(s, w, j)
    ensures r.None? ==> forall j :: from <= j ==> !OccursAt(s, w, j)
    decreases |s| - from
  {
    if from + |w| > |s| then None
    else if s[from..from + |w|] == w then Some(from)
    else IndexFrom(s, w, from + 1)
  }

  /** `s.includes(w)`. */
  predicate Contains(s: string, w: string) {
    IndexFrom(s, w, 0).Some?
  }

  lemma ContainsIff(s: string, w: string)
    ensures Contains(s, w) <==> exists i :: OccursAt(s, w, i)
  {
  }

  /** Text found in a string is still found once more text is added on either side. */
  lemma ContainsExtend(a: string, w: string, b: string)
    requires Contains(a, w)
    ensures Contains(a + b, w)
    ensures Contains(b + a, w)
  {
    var i := IndexFrom(a, w, 0).value;
    assert (a + b)[i..i + |w|] == a[i..i + |w|];
    assert OccursAt(a + b, w, i);
    assert (b + a)[|b| + i..|b| + i + |w|] == a[i..i + |w|];
    assert OccursAt(b + a, w, |b| + i);
  }

  // ---------------------------------------------------------------------------
  // Splitting

  /** `s.split(c)` for a single separator character chosen by `sep`. */
  function SplitWhere(s: string, sep: char -> bool): (r: seq<string>)
    ensures |r| >= 1
    ensures forall i, k :: 0 <= i < |r| && 0 <= k < |r[i]| ==> !sep(r[i][k])
    decreases |s|
  {
    if |s| == 0 then [""]
    else if sep(s[0]) then [""] + SplitWhere(s[1..], sep)
    else
      var rest := SplitWhere(s[1..], sep);
      [[s[0]] + rest[0]] + rest[1..]
  }

  /** `pieces.join(sep)`. */
  function JoinWith(pieces: seq<string>, sep: string): string
    decreases |pieces|
  {
    if |pieces| == 0 then ""
    else if |pieces| == 1 then pieces[0]
    else pieces[0] + sep + JoinWith(pieces[1..], sep)
  }

  /** Splitting on one character loses nothing: joining the pieces back gives the input. */
  lemma {:induction false} SplitJoin(s: string, c: char, sep: char -> bool)
    requires forall x :: sep(x) <==> x == c
    ensures JoinWith(SplitWhere(s, sep), [c]) == s
    decreases |s|
  {
    if |s| == 0 {
    } else if sep(s[0]) {
      SplitJoin(s[1..], c, sep);
      var rest := SplitWhere(s[1..], sep);
      assert SplitWhere(s, sep) == [""] + rest;
      assert ([""] + rest)[1..] == rest;
      assert s == [c] + s[1..];
    } else {
      SplitJoin(s[1..], c, sep);
      var rest := SplitWhere(s[1..], sep);
      var r := [[s[0]] + rest[0]] + rest[1..];
      assert r[1..] == rest[1..];
      if |rest| == 1 {
        assert JoinWith(r, [c]) == [s[0]] + rest[0];
      } else {
        assert JoinWith(r, [c]) == [s[0]] + rest[0] + [c] + JoinWith(rest[1..], [c]);
        assert JoinWith(rest, [c]) == rest[0] + [c] + JoinWith(rest[1..], [c]);
      }
    }
  }

  /** Text without the separator is one piece. */
  lemma {:induction false} SplitWhereWhole(s: string, sep: char -> bool)
    requires forall k :: 0 <= k < |s| ==> !sep(s[k])
    ensures SplitWhere(s, sep) == [s]
    decreases |s|
  {
    if |s| > 0 {
      SplitWhereWhole(s[1..], sep);
      assert s == [s[0]] + s[1..];
    }
  }

  /** Splitting at one separator character splits each side on its own. */
  lemma {:induction false} SplitWhereAppend(x: string, c: char, y: string, sep: char -> bool)
    requires sep(c)
    ensures SplitWhere(x + [c] + y, sep) == SplitWhere(x, sep) + SplitWhere(y, sep)
    decreases |x|
  {
    var s := x + [c] + y;
    if |x| == 0 {
      assert s == [c] + y && s[1..] == y;
    } else {
      assert s[0] == x[0] && s[1..] == x[1..] + [c] + y;
      SplitWhereAppend(x[1..], c, y, sep);
      var p := SplitWhere(x[1..], sep);
      var q := SplitWhere(y, sep);
      if sep(x[0]) {
        assert SplitWhere(s, sep) == [""] + (p + q);
      } else {
        assert SplitWhere(s, sep) == [[x[0]] + (p + q)[0]] + (p + q)[1..];
        assert (p + q)[0] == p[0] && (p + q)[1..] == p[1..] + q;
      }
    }
  }

  /** `s.split(sep)` for a non-empty separator string: cut at each leftmost,
      non-overlapping occurrence. */
  function SplitOn(s: string, sep: string): (r: seq<string>)
    requires |sep| > 0
    ensures |r| >= 1
    decreases |s|
  {
    match IndexFrom(s, sep, 0)
    case None => [s]
    case Some(i) => [s[..i]] + SplitOn(s[i + |sep|..], sep)
  }

  /** No piece contains the separator. */
  lemma {:induction false} SplitOnPieces(s: string, sep: string)
    requires |sep| > 0
    ensures forall k :: 0 <= k < |SplitOn(s, sep)| ==> !Contains(SplitOn(s, sep)[k], sep)
    decreases |s|
  {
    var found := IndexFrom(s, sep, 0);
    if found.Some? {
      var i := found.value;
      var rest := s[i + |sep|..];
      SplitOnPieces(rest, sep);
      assert !Contains(s[..i], sep) by {
        forall j | 0 <= j && j + |sep| <= i ensures !OccursAt(s[..i], sep, j) {
          assert !OccursAt(s, sep, j);
          assert s[..i][j..j + |sep|] == s[j..j + |sep|];
        }
        ContainsIff(s[..i], sep);
      }
      var r := SplitOn(s, sep);
      assert r == [s[..i]] + SplitOn(rest, sep);
      assert forall k :: 1 <= k < |r| ==> r[k] == SplitOn(rest, sep)[k - 1];
    }
  }

  /** Splitting on a separator string loses nothing: joining the pieces back gives the input. */
  lemma {:induction false} SplitOnJoin(s: string, sep: string)
    requires |sep| > 0
    ensures JoinWith(SplitOn(s, sep), sep) == s
    decreases |s|
  {
    var found := IndexFrom(s, sep, 0);
    if found.Some? {
      var i := found.value;
      var rest := s[i + |sep|..];
      SplitOnJoin(rest, sep);
      SplitOnStep(s, sep, i);
      JoinCons(s[..i], SplitOn(rest, sep), sep);
    }
  }

  lemma SplitOnStep(s: string, sep: string, i: nat)
    requires |sep| > 0 && IndexFrom(s, sep, 0) == Some(i)
    ensures i + |sep| <= |s|
    ensures SplitOn(s, sep) == [s[..i]] + SplitOn(s[i + |sep|..], sep)
    ensures s == s[..i] + sep + s[i + |sep|..]
  {
    SplitAround(s, sep, i);
  }

  /** Text around an occurrence: what precedes it, the word, what follows. */
  lemma SplitAround(s: string, w: string, i: nat)
    requires OccursAt(s, w, i)
    ensures s == s[..i] + w + s[i + |w|..]
  {
    assert s == s[..i] + s[i..i + |w|] + s[i + |w|..];
  }

  lemma JoinCons(x: string, rest: seq<string>, sep: string)
    requires |rest| >= 1
    ensures JoinWith([x] + rest, sep) == x + sep + JoinWith(rest, sep)
  {
    assert ([x] + rest)[1..] == rest;
  }

  /** `s.split(/[...]+/)`: split on maximal runs of separator characters. */
  function SplitRuns(s: string, sep: char -> bool): (r: seq<string>)
    ensures |r| >= 1
    ensures forall i, k :: 0 <= i < |r| && 0 <= k < |r[i]| ==> !sep(r[i][k])
    decreases |s|
  {
    if |s| == 0 then [""]
    else if sep(s[0]) then [""] + SplitRuns(s[RunLength(s, 0, sep)..], sep)
    else
      var rest := SplitRuns(s[1..], sep);
      [[s[0]] + rest[0]] + rest[1..]
  }

  predicate SepFree(p: string, sep: char -> bool) {
    forall k :: 0 <= k < |p| ==> !sep(p[k])
  }

  predicate AllSep(run: string, sep: char -> bool) {
    forall k :: 0 <= k < |run| ==> sep(run[k])
  }

  /** Pieces put back together with a run of separators between each two. */
  function JoinRuns(ps: seq<string>, runs: seq<string>): string
    requires |runs| + 1 == |ps|
    decreases |ps|
  {
    if |ps| == 1 then ps[0] else ps[0] + runs[0] + JoinRuns(ps[1..], runs[1..])
  }

  /** What splitting on maximal runs yields: separator-free pieces, non-empty
      separator runs between them, and no empty piece except at either end
      (two runs with nothing between would be one run). */
  predicate RunSplit(ps: seq<string>, runs: seq<string>, sep: char -> bool) {
    && |runs| + 1 == |ps|
    && (forall i :: 0 <= i < |ps| ==> SepFree(ps[i], sep))
    && (forall i :: 0 <= i < |runs| ==> |runs[i]| > 0 && AllSep(runs[i], sep))
    && (forall i :: 0 < i < |ps| - 1 ==> |ps[i]| > 0)
  }

  /** Joining a piece and a run in front of joined pieces. */
  lemma JoinRunsCons(p: string, ps: seq<string>, run: string, runs: seq<string>)
    requires |runs| + 1 == |ps|
    ensures JoinRuns([p] + ps, [run] + runs) == p + run + JoinRuns(ps, runs)
  {
    assert ([p] + ps)[1..] == ps && ([run] + runs)[1..] == runs;
  }

  /** Splitting on runs loses nothing but the runs: there are runs between the
      pieces that put the input back together. */
  lemma {:induction false} SplitRunsRebuild(s: string, sep: char -> bool) returns (runs: seq<string>)
    ensures RunSplit(SplitRuns(s, sep), runs, sep)
    ensures JoinRuns(SplitRuns(s, sep), runs) == s
    decreases |s|
  {
    if |s| == 0 {
      runs := [];
    } else if sep(s[0]) {
      var more := SplitRunsRebuild(s[RunLength(s, 0, sep)..], sep);
      runs := RebuildAfterRun(s, sep, more);
    } else {
      runs := SplitRunsRebuild(s[1..], sep);
      RebuildAfterChar(s, sep, runs);
    }
  }

  /** The rebuilding step for input that starts with a separator. */
  lemma RebuildAfterRun(s: string, sep: char -> bool, more: seq<string>) returns (runs: seq<string>)
    requires |s| > 0 && sep(s[0])
    requires RunSplit(SplitRuns(s[RunLength(s, 0, sep)..], sep), more, sep)
    requires JoinRuns(SplitRuns(s[RunLength(s, 0, sep)..], sep), more) == s[RunLength(s, 0, sep)..]
    ensures RunSplit(SplitRuns(s, sep), runs, sep)
    ensures JoinRuns(SplitRuns(s, sep), runs) == s
  {
    var n := RunLength(s, 0, sep);
    var t := s[n..];
    var rest := SplitRuns(t, sep);
    var run := s[..n];
    runs := [run] + more;
    assert SplitRuns(s, sep) == [""] + rest;
    assert |run| > 0 && AllSep(run, sep) by {
      forall k | 0 <= k < |run| ensures sep(run[k]) {
        assert run[k] == s[k];
      }
    }
    assert |rest| > 1 ==> |rest[0]| > 0 by {
      if |t| > 0 {
        assert t[0] == s[n] && !sep(t[0]);
        SplitRunsFirst(t, sep);
      }
    }
    RunSplitCons("", rest, run, more, sep);
    JoinRunsCons("", rest, run, more);
    assert "" + run + t == s;
  }

  /** A piece and a run put in front of a split: still a split exactly when
      the piece is separator-free, the run is a run, and the old first piece
      has become an inner one only if it is non-empty. */
  lemma RunSplitCons(p: string, ps: seq<string>, run: string, runs: seq<string>, sep: char -> bool)
    requires |runs| + 1 == |ps|
    ensures RunSplit([p] + ps, [run] + runs, sep)
        <==> SepFree(p, sep) && |run| > 0 && AllSep(run, sep) && RunSplit(ps, runs, sep)
             && (|ps| > 1 ==> |ps[0]| > 0)
  {
    var ps' := [p] + ps;
    var runs' := [run] + runs;
    assert ps'[0] == p && runs'[0] == run;
    assert forall i :: 0 <= i < |ps| ==> ps'[i + 1] == ps[i];
    assert forall i :: 0 <= i < |runs| ==> runs'[i + 1] == runs[i];
    if RunSplit(ps', runs', sep) {
      forall i | 0 < i < |ps| - 1 ensures |ps[i]| > 0 {
        assert ps[i] == ps'[i + 1];
      }
      if |ps| > 1 {
        assert ps[0] == ps'[1];
      }
    }
    if SepFree(p, sep) && |run| > 0 && AllSep(run, sep) && RunSplit(ps, runs, sep) && (|ps| > 1 ==> |ps[0]| > 0) {
      forall i | 0 < i < |ps'| - 1 ensures |ps'[i]| > 0 {
        assert ps'[i] == ps[i - 1];
      }
      forall i | 0 <= i < |ps'| ensures SepFree(ps'[i], sep) {
        if i > 0 {
          assert ps'[i] == ps[i - 1];
        }
      }
      forall i | 0 <= i < |runs'| ensures |runs'[i]| > 0 && AllSep(runs'[i], sep) {
        if i > 0 {
          assert runs'[i] == runs[i - 1];
        }
      }
    }
  }

  /** The rebuilding step for input that starts with another character. */
  lemma RebuildAfterChar(s: string, sep: char -> bool, runs: seq<string>)
    requires |s| > 0 && !sep(s[0])
    requires RunSplit(SplitRuns(s[1..], sep), runs, sep)
    requires JoinRuns(SplitRuns(s[1..], sep), runs) == s[1..]
    ensures RunSplit(SplitRuns(s, sep), runs, sep)
    ensures JoinRuns(SplitRuns(s, sep), runs) == s
  {
    SplitRunsFirst(s, sep);
    RunSplitGrow(s[0], SplitRuns(s[1..], sep), runs, sep);
    assert s == [s[0]] + s[1..];
  }

  /** A non-separator put in front of joined pieces joins the first piece. */
  lemma RunSplitGrow(c: char, ps: seq<string>, runs: seq<string>, sep: char -> bool)
    requires !sep(c) && RunSplit(ps, runs, sep)
    ensures RunSplit([[c] + ps[0]] + ps[1..], runs, sep)
    ensures JoinRuns([[c] + ps[0]] + ps[1..], runs) == [c] + JoinRuns(ps, runs)
  {
    var grown := [[c] + ps[0]] + ps[1..];
    assert forall i :: 0 < i < |ps| ==> grown[i] == ps[i];
    assert SepFree(grown[0], sep) by {
      forall k | 0 <= k < |grown[0]| ensures !sep(grown[0][k]) {
        if k > 0 {
          assert grown[0][k] == ps[0][k - 1];
        }
      }
    }
    if |ps| > 1 {
      var others := JoinRuns(ps[1..], runs[1..]);
      assert grown[1..] == ps[1..];
      assert JoinRuns(grown, runs) == ([c] + ps[0]) + runs[0] + others;
      assert JoinRuns(ps, runs) == ps[0] + runs[0] + others;
    }
  }

  /** A separator-free start stays glued to the first piece of what follows. */
  lemma {:induction false} SplitRunsPrefix(p: string, t: string, sep: char -> bool)
    requires SepFree(p, sep)
    ensures SplitRuns(p + t, sep) == [p + SplitRuns(t, sep)[0]] + SplitRuns(t, sep)[1..]
    decreases |p|
  {
    var after := SplitRuns(t, sep);
    if |p| == 0 {
      assert p + t == t;
      assert p + after[0] == after[0];
      assert after == [after[0]] + after[1..];
    } else {
      var s := p + t;
      assert s[0] == p[0] && !sep(s[0]) && s[1..] == p[1..] + t;
      SplitRunsPrefix(p[1..], t, sep);
      SplitRunsFirst(s, sep);
      assert SplitRuns(s, sep) == [[p[0]] + (p[1..] + after[0])] + after[1..];
      assert [p[0]] + (p[1..] + after[0]) == p + after[0] by {
        assert p == [p[0]] + p[1..];
      }
    }
  }

  /** A first character that is not a separator joins the first piece of the rest. */
  lemma SplitRunsFirst(s: string, sep: char -> bool)
    requires |s| > 0 && !sep(s[0])
    ensures SplitRuns(s, sep) == [[s[0]] + SplitRuns(s[1..], sep)[0]] + SplitRuns(s[1..], sep)[1..]
  {
  }

  /** A leading run of separators starts a new, empty piece. */
  lemma SplitRunsRun(run: string, t: string, sep: char -> bool)
    requires |run| > 0 && AllSep(run, sep)
    requires |t| == 0 || !sep(t[0])
    ensures SplitRuns(run + t, sep) == [""] + SplitRuns(t, sep)
  {
    var s := run + t;
    assert s[0] == run[0];
    assert forall k :: 0 <= k < |run| ==> s[k] == run[k];
    RunLengthExact(s, 0, |run|, sep);
    assert s[|run|..] == t;
  }

  /** Pieces joined by separator runs, in the shape splitting produces, are
      split back into exactly those pieces. */
  lemma {:induction false} SplitRunsOfJoin(ps: seq<string>, runs: seq<string>, sep: char -> bool)
    requires RunSplit(ps, runs, sep)
    ensures SplitRuns(JoinRuns(ps, runs), sep) == ps
    decreases |ps|
  {
    if |ps| == 1 {
      SplitRunsPrefix(ps[0], "", sep);
      assert ps[0] + "" == ps[0];
    } else {
      assert ps == [ps[0]] + ps[1..] && runs == [runs[0]] + runs[1..];
      RunSplitCons(ps[0], ps[1..], runs[0], runs[1..], sep);
      SplitRunsOfJoin(ps[1..], runs[1..], sep);
      JoinRunsStart(ps[1..], runs[1..], sep);
      JoinRunsCons(ps[0], ps[1..], runs[0], runs[1..]);
      SplitRunsStep(ps[0], runs[0], JoinRuns(ps[1..], runs[1..]), ps[1..], sep);
    }
  }

  /** Joined pieces start with a separator only when the first piece is empty. */
  lemma JoinRunsStart(ps: seq<string>, runs: seq<string>, sep: char -> bool)
    requires RunSplit(ps, runs, sep) && (|ps| > 1 ==> |ps[0]| > 0)
    ensures |JoinRuns(ps, runs)| == 0 || !sep(JoinRuns(ps, runs)[0])
  {
    if |ps| > 1 {
      assert JoinRuns(ps, runs) == ps[0] + (runs[0] + JoinRuns(ps[1..], runs[1..]));
      assert JoinRuns(ps, runs)[0] == ps[0][0];
    }
  }

  /** One piece and one run in front of text that splits into `pieces`. */
  lemma SplitRunsStep(p: string, run: string, rest: string, pieces: seq<string>, sep: char -> bool)
    requires SepFree(p, sep) && |run| > 0 && AllSep(run, sep)
    requires |rest| == 0 || !sep(rest[0])
    requires SplitRuns(rest, sep) == pieces
    ensures SplitRuns(p + run + rest, sep) == [p] + pieces
  {
    SplitRunsRun(run, rest, sep);
    SplitRunsPrefix(p, run + rest, sep);
    assert p + run + rest == p + (run + rest);
    assert p + "" == p;
  }

  /** `pieces.map(f).filter(Boolean)`: the non-empty images, in order. */
  function MapNonEmpty(pieces: seq<string>, f: string -> string): (r: seq<string>)
    ensures |r| <= |pieces|
    ensures forall i :: 0 <= i < |r| ==> |r[i]| > 0
    decreases |pieces|
  {
    if |pieces| == 0 then []
    else
      var t := f(pieces[0]);
      var rest := MapNonEmpty(pieces[1..], f);
      if |t| > 0 then [t] + rest else rest
  }

  /** Mapping and filtering works piece by piece: the result for a
      concatenation is the results for its parts, in order. */
  lemma {:induction false} MapNonEmptyAppend(a: seq<string>, b: seq<string>, f: string -> string)
    ensures MapNonEmpty(a + b, f) == MapNonEmpty(a, f) + MapNonEmpty(b, f)
    decreases |a|
  {
    if |a| == 0 {
      assert a + b == b;
    } else {
      assert (a + b)[0] == a[0] && (a + b)[1..] == a[1..] + b;
      MapNonEmptyAppend(a[1..], b, f);
    }
  }

  /** Each kept string is the image of some piece. */
  lemma {:induction false} MapNonEmptyFrom(pieces: seq<string>, f: string -> string, i: nat) returns (j: nat)
    requires i < |MapNonEmpty(pieces, f)|
    ensures j < |pieces| && MapNonEmpty(pieces, f)[i] == f(pieces[j])
    decreases |pieces|
  {
    var rest := MapNonEmpty(pieces[1..], f);
    if |f(pieces[0])| > 0 {
      if i == 0 {
        j := 0;
      } else {
        j := MapNonEmptyFrom(pieces[1..], f, i - 1);
        j := j + 1;
      }
    } else {
      j := MapNonEmptyFrom(pieces[1..], f, i);
      j := j + 1;
    }
  }

  /** No non-empty image is lost. */
  lemma {:induction false} MapNonEmptyKeeps(pieces: seq<string>, f: string -> string, j: nat)
    requires j < |pieces| && |f(pieces[j])| > 0
    ensures f(pieces[j]) in MapNonEmpty(pieces, f)
    decreases |pieces|
  {
    if j > 0 {
      assert pieces[j] == pieces[1..][j - 1];
      MapNonEmptyKeeps(pieces[1..], f, j - 1);
    }
  }

  /** `pieces.map(p => p.trim()).filter(Boolean)`. */
  function TrimNonEmpty(pieces: seq<string>): (r: seq<string>)
    ensures |r| <= |pieces|
    ensures forall i :: 0 <= i < |r| ==> |r[i]| > 0
  {
    MapNonEmpty(pieces, Trim)
  }

  /** Every kept piece is one of the pieces, trimmed, and so is already trimmed. */
  lemma TrimNonEmptyTrimmed(pieces: seq<string>, i: nat) returns (j: nat)
    requires i < |TrimNonEmpty(pieces)|
    ensures j < |pieces| && TrimNonEmpty(pieces)[i] == Trim(pieces[j])
    ensures Trim(TrimNonEmpty(pieces)[i]) == TrimNonEmpty(pieces)[i]
  {
    j := MapNonEmptyFrom(pieces, Trim, i);
    TrimIdempotent(pieces[j]);
  }

  /** No non-blank piece is lost: each one is kept, trimmed. */
  lemma TrimNonEmptyKeeps(pieces: seq<string>, j: nat)
    requires j < |pieces| && |Trim(pieces[j])| > 0
    ensures Trim(pieces[j]) in TrimNonEmpty(pieces)
  {
    MapNonEmptyKeeps(pieces, Trim, j);
  }

  // ---------------------------------------------------------------------------
  // Mismatches and runs

  /** A character that differs from the word's shows the word does not occur there. */
  lemma Mismatch(s: string, w: string, i: nat, k: nat)
    requires k < |w| && i + k < |s| && s[i + k] != w[k]
    ensures !OccursAt(s, w, i)
  {
  }

  /** An occurrence after a prefix is an occurrence in the rest, shifted. */
  lemma OccursShift(a: string, b: string, w: string, j: nat)
    ensures OccursAt(a + b, w, |a| + j) <==> OccursAt(b, w, j)
  {
    if j + |w| <= |b| {
      assert (a + b)[|a| + j..|a| + j + |w|] == b[j..j + |w|];
    }
  }

  /** A character the word lacks cannot lie inside an occurrence of it. */
  lemma Stop(s: string, w: string, j: nat, m: nat)
    requires j <= m < j + |w| && m < |s| && s[m] !in w
    ensures !OccursAt(s, w, j)
  {
    if j + |w| <= |s| {
      assert s[j..j + |w|][m - j] == s[m];
    }
  }

  /** A word whose first character is not in `a` occurs in `a + b` only within `b`. */
  lemma ContainsAfter(a: string, b: string, w: string)
    requires |w| > 0 && w[0] !in a && !Contains(b, w)
    ensures !Contains(a + b, w)
  {
    var s := a + b;
    ContainsIff(b, w);
    forall i | 0 <= i ensures !OccursAt(s, w, i) {
      if i < |a| {
        assert s[i] == a[i];
        Mismatch(s, w, i, 0);
      } else if OccursAt(s, w, i) {
        assert s[i..i + |w|] == b[i - |a|..i - |a| + |w|];
        assert OccursAt(b, w, i - |a|);
      }
    }
    ContainsIff(s, w);
  }

  /** When the word does not occur in `x` and lacks the character `c`, no
      occurrence starts in `x + [c]`, whatever follows. */
  lemma NoneBefore(x: string, c: char, rest: string, w: string)
    requires !Contains(x, w) && c !in w
    ensures forall j :: 0 <= j <= |x| ==> !OccursAt(x + [c] + rest, w, j)
  {
    var s := x + [c] + rest;
    ContainsIff(x, w);
    forall j | 0 <= j <= |x| ensures !OccursAt(s, w, j) {
      if j + |w| <= |x| {
        if OccursAt(s, w, j) {
          assert s[j..j + |w|] == x[j..j + |w|];
          assert OccursAt(x, w, j);
        }
      } else {
        assert s[|x|] == c;
        Stop(s, w, j, |x|);
      }
    }
  }

  /** A first character that differs shows the word does not start the suffix. */
  lemma MismatchFront(s: string, w: string, i: nat)
    requires i < |s| && |w| > 0 && s[i] != w[0]
    ensures !StartsWith(s[i..], w)
  {
    Mismatch(s[i..], w, 0, 0);
  }

  /** Occurring at `i` is starting the suffix from `i`. */
  lemma OccursAtSuffix(s: string, w: string, i: nat)
    requires i <= |s|
    ensures StartsWith(s[i..], w) <==> OccursAt(s, w, i)
  {
    if i + |w| <= |s| {
      assert s[i..][0..|w|] == s[i..i + |w|];
    }
  }

  /** A run whose extent is known. */
  lemma {:induction false} RunLengthExact(s: string, from: nat, n: nat, p: char -> bool)
    requires from + n <= |s|
    requires forall k :: from <= k < from + n ==> p(s[k])
    requires from + n == |s| || !p(s[from + n])
    ensures RunLength(s, from, p) == n
    decreases n
  {
    if n > 0 {
      RunLengthExact(s, from + 1, n - 1, p);
    }
  }

  // ---------------------------------------------------------------------------
  // Decimal numerals

  function DigitValue(c: char): nat
    requires IsDigit(c)
  {
    c as int - '0' as int
  }

  predicate AllDigits(s: string) {
    forall i :: 0 <= i < |s| ==> IsDigit(s[i])
  }

  /** `parseInt` of a string of decimal digits. */
  function DecimalValue(s: string): nat
    requires AllDigits(s)
    decreases |s|
  {
    if |s| == 0 then 0 else 10 * DecimalValue(s[..|s| - 1]) + DigitValue(s[|s| - 1])
  }

  /** The decimal numeral of `n`, as template literals print it. */
  function Decimal(n: nat): (r: string)
    ensures |r| > 0 && AllDigits(r)
    decreases n
  {
    var d := ['0' + (n % 10) as char];
    if n < 10 then d else Decimal(n / 10) + d
  }

  /** Printing a number and parsing it back gives the number. */
  lemma {:induction false} DecimalRoundTrip(n: nat)
    ensures DecimalValue(Decimal(n)) == n
    decreases n
  {
    var d := ['0' + (n % 10) as char];
    if n >= 10 {
      DecimalRoundTrip(n / 10);
      var s := Decimal(n / 10) + d;
      assert s[..|s| - 1] == Decimal(n / 10);
    }
  }

  /** Length of the run of characters satisfying `p` that starts at `from`. */
  function RunLength(s: string, from: nat, p: char -> bool): (n: nat)
    ensures from + n <= |s| || (from >= |s| && n == 0)
    ensures forall k :: from <= k < from + n ==> p(s[k])
    ensures from + n < |s| ==> !p(s[from + n])
    decreases |s| - from
  {
    if from < |s| && p(s[from]) then 1 + RunLength(s, from + 1, p) else 0
  }

  // ---------------------------------------------------------------------------
  // Regular-expression search, with the pattern read from the start of a suffix

  /** `s.match(re)` without the `g` flag: the leftmost position at or after
      `from` where `front` matches the text from there on. */
  function FindFront<T>(s: string, from: nat, front: string -> Option<T>): (r: Option<nat>)
    ensures r.Some? ==> from <= r.value < |s| && front(s[r.value..]).Some?
    ensures r.Some? ==> forall j :: from <= j < r.value ==> front(s[j..]).None?
    ensures r.None? ==> forall j :: from <= j < |s| ==> front(s[j..]).None?
    decreases |s| - from
  {
    if from >= |s| then None
    else if front(s[from..]).Some? then Some(from)
    else FindFront(s, from + 1, front)
  }

  /** A stretch where nothing matches can be skipped. */
  lemma {:induction false} FindFrontSkips<T>(s: string, from: nat, to: nat, front: string -> Option<T>)
    requires from <= to <= |s|
    requires forall j :: from <= j < to ==> front(s[j..]).None?
    ensures FindFront(s, from, front) == FindFront(s, to, front)
    decreases |s| - from
  {
    if from < to {
      FindFrontSkips(s, from + 1, to, front);
    }
  }

  /** A match at the end of a stretch where nothing matches is the first one. */
  lemma FindFrontAt<T>(pre: string, t: string, front: string -> Option<T>)
    requires forall j :: 0 <= j < |pre| ==> front((pre + t)[j..]).None?
    requires |t| > 0 && front(t).Some?
    ensures FindFront(pre + t, 0, front) == Some(|pre|)
  {
    FindFrontSkips(pre + t, 0, |pre|, front);
    assert (pre + t)[|pre|..] == t;
  }
}
