/** The export helpers `escapeXML`, `escapeHTML` and `escapeCSV`: chains of
    global single-character replacements, each compared with a per-character
    reference and inverted by a decoder. */
module Escaping {
  import opened Text

  /** `text.replace(/c/g, rep)` for a single character `c`. */
  function ReplaceAll(s: string, c: char, rep: string): (r: string)
    ensures |r| == |s| + Count(s, c) * (|rep| - 1)
    ensures forall x :: x !in s && x !in rep ==> x !in r
    ensures c !in rep ==> c !in r
    decreases |s|
  {
    if |s| == 0 then ""
    else
      var rest := ReplaceAll(s[1..], c, rep);
      assert forall x :: x in s ==> x == s[0] || x in s[1..];
      var n := Count(s[1..], c);
      assert (n + 1) * (|rep| - 1) == n * (|rep| - 1) + |rep| - 1;
      (if s[0] == c then rep else [s[0]]) + rest
  }

  /** Number of occurrences of `c` in `s`. */
  function Count(s: string, c: char): nat
    decreases |s|
  {
    if |s| == 0 then 0 else (if s[0] == c then 1 else 0) + Count(s[1..], c)
  }

  /** Replaces every character by its image under `f` and concatenates. */
  function MapChars(s: string, f: char -> string): string
    decreases |s|
  {
    if |s| == 0 then "" else f(s[0]) + MapChars(s[1..], f)
  }

  lemma {:induction false} MapCharsAppend(a: string, b: string, f: char -> string)
    ensures MapChars(a + b, f) == MapChars(a, f) + MapChars(b, f)
    decreases |a|
  {
    if |a| > 0 {
      assert (a + b)[0] == a[0];
      assert (a + b)[1..] == a[1..] + b;
      MapCharsAppend(a[1..], b, f);
      assert MapChars(a + b, f) == f(a[0]) + MapChars(a[1..] + b, f);
      assert f(a[0]) + (MapChars(a[1..], f) + MapChars(b, f)) == (f(a[0]) + MapChars(a[1..], f)) + MapChars(b, f);
    } else {
      assert a + b == b;
    }
  }

  lemma {:induction false} ReplaceAppend(a: string, b: string, c: char, rep: string)
    ensures ReplaceAll(a + b, c, rep) == ReplaceAll(a, c, rep) + ReplaceAll(b, c, rep)
    decreases |a|
  {
    if |a| > 0 {
      assert (a + b)[0] == a[0];
      assert (a + b)[1..] == a[1..] + b;
      ReplaceAppend(a[1..], b, c, rep);
      var piece := if a[0] == c then rep else [a[0]];
      assert ReplaceAll(a + b, c, rep) == piece + ReplaceAll(a[1..] + b, c, rep);
      assert piece + (ReplaceAll(a[1..], c, rep) + ReplaceAll(b, c, rep))
          == (piece + ReplaceAll(a[1..], c, rep)) + ReplaceAll(b, c, rep);
    } else {
      assert a + b == b;
    }
  }

  /** A string without `c` is left alone. */
  lemma {:induction false} ReplaceAbsent(s: string, c: char, rep: string)
    requires c !in s
    ensures ReplaceAll(s, c, rep) == s
    decreases |s|
  {
    if |s| > 0 {
      assert s[1..] == s[1..];
      assert c !in s[1..];
      ReplaceAbsent(s[1..], c, rep);
    }
  }

  lemma ReplaceOne(x: char, c: char, rep: string)
    ensures ReplaceAll([x], c, rep) == if x == c then rep else [x]
  {
    assert [x][1..] == "";
  }

  // ---------------------------------------------------------------------------
  // Replacement chains

  /** One `.replace(/c/g, rep)` step of a chain. */
  datatype Step = Step(c: char, rep: string)

  /** Applies the steps left to right, each to the whole output of the previous one. */
  function Chain(s: string, steps: seq<Step>): string
    decreases |steps|
  {
    if |steps| == 0 then s else Chain(ReplaceAll(s, steps[0].c, steps[0].rep), steps[1..])
  }

  /** No step inserts a character that a later step replaces. */
  predicate Layered(steps: seq<Step>) {
    forall i, j :: 0 <= i < j < |steps| ==> steps[j].c !in steps[i].rep
  }

  /** What a single character becomes: the replacement of the first step that matches it. */
  function FirstRep(x: char, steps: seq<Step>): string
    decreases |steps|
  {
    if |steps| == 0 then [x]
    else if steps[0].c == x then steps[0].rep
    else FirstRep(x, steps[1..])
  }

  lemma {:induction false} ChainAppend(a: string, b: string, steps: seq<Step>)
    ensures Chain(a + b, steps) == Chain(a, steps) + Chain(b, steps)
    decreases |steps|
  {
    if |steps| > 0 {
      ReplaceAppend(a, b, steps[0].c, steps[0].rep);
      ChainAppend(ReplaceAll(a, steps[0].c, steps[0].rep), ReplaceAll(b, steps[0].c, steps[0].rep), steps[1..]);
    }
  }

  /** A string containing no step's character passes through unchanged. */
  lemma {:induction false} ChainAbsent(s: string, steps: seq<Step>)
    requires forall i :: 0 <= i < |steps| ==> steps[i].c !in s
    ensures Chain(s, steps) == s
    decreases |steps|
  {
    if |steps| > 0 {
      ReplaceAbsent(s, steps[0].c, steps[0].rep);
      ChainAbsent(s, steps[1..]);
    }
  }

  lemma {:induction false} ChainOne(x: char, steps: seq<Step>)
    requires Layered(steps)
    ensures Chain([x], steps) == FirstRep(x, steps)
    decreases |steps|
  {
    if |steps| > 0 {
      ReplaceOne(x, steps[0].c, steps[0].rep);
      var rest := steps[1..];
      assert forall j :: 0 <= j < |rest| ==> rest[j] == steps[j + 1];
      if steps[0].c == x {
        ChainAbsent(steps[0].rep, rest);
      } else {
        ChainOne(x, rest);
      }
    }
  }

  /** A layered chain escapes each character on its own, as `f` describes. */
  lemma {:induction false} ChainPerChar(s: string, steps: seq<Step>, f: char -> string)
    requires Layered(steps)
    requires forall x :: FirstRep(x, steps) == f(x)
    ensures Chain(s, steps) == MapChars(s, f)
    decreases |s|
  {
    if |s| > 0 {
      ChainPerChar(s[1..], steps, f);
      ChainAppend([s[0]], s[1..], steps);
      assert [s[0]] + s[1..] == s;
      ChainOne(s[0], steps);
    } else {
      ChainAbsent(s, steps);
    }
  }

  /** No step's replacement contains `x`. */
  predicate NoneInserts(steps: seq<Step>, x: char) {
    forall i :: 0 <= i < |steps| ==> x !in steps[i].rep
  }

  /** A character some step replaces, and no step inserts, is gone from the output. */
  lemma {:induction false} ChainRemoves(s: string, steps: seq<Step>, x: char, k: nat)
    requires k < |steps| && steps[k].c == x
    requires NoneInserts(steps, x)
    ensures x !in Chain(s, steps)
    decreases |steps|
  {
    var t := ReplaceAll(s, steps[0].c, steps[0].rep);
    if k == 0 {
      ChainAbsentOne(t, steps[1..], x);
    } else {
      ChainRemoves(t, steps[1..], x, k - 1);
    }
  }

  lemma {:induction false} ChainAbsentOne(s: string, steps: seq<Step>, x: char)
    requires x !in s
    requires forall i :: 0 <= i < |steps| ==> x !in steps[i].rep
    ensures x !in Chain(s, steps)
    decreases |steps|
  {
    if |steps| > 0 {
      ChainAbsentOne(ReplaceAll(s, steps[0].c, steps[0].rep), steps[1..], x);
    }
  }

  // ---------------------------------------------------------------------------
  // XML

  /** The five replacements of `escapeXML`, ampersand first so that the
      ampersands the later steps insert are not escaped again. */
  const XmlSteps: seq<Step> := [Step('&', "&amp;"), Step('<', "&lt;"), Step('>', "&gt;"),
                                Step('"', "&quot;"), Step('\'', "&apos;")]

  /** `escapeXML`. */
  function EscapeXml(text: string): (r: string)
    ensures |r| >= |text|
  {
    ChainLonger(text, XmlSteps);
    Chain(text, XmlSteps)
  }

  /** No replacement shortens its input. */
  lemma {:induction false} ChainLonger(s: string, steps: seq<Step>)
    requires forall i :: 0 <= i < |steps| ==> |steps[i].rep| >= 1
    ensures |Chain(s, steps)| >= |s|
    decreases |steps|
  {
    if |steps| > 0 {
      var t := ReplaceAll(s, steps[0].c, steps[0].rep);
      assert Count(s, steps[0].c) * (|steps[0].rep| - 1) >= 0;
      ChainLonger(t, steps[1..]);
    }
  }

  /** The entity each character becomes in XML text. */
  function XmlEntity(c: char): string {
    match c
    case '&' => "&amp;"
    case '<' => "&lt;"
    case '>' => "&gt;"
    case '"' => "&quot;"
    case '\'' => "&apos;"
    case _ => [c]
  }

  /** The five passes together escape each character on its own. */
  lemma EscapeXmlPerChar(s: string)
    ensures EscapeXml(s) == MapChars(s, XmlEntity)
  {
    XmlStepsLayered();
    XmlStepsEntities();
    ChainPerChar(s, XmlSteps, XmlEntity);
  }

  /** Every replacement is an entity, which holds none of the characters
      the later steps replace. */
  lemma XmlStepsLayered()
    ensures Layered(XmlSteps) && Layered(HtmlSteps)
  {
    forall i | 0 <= i < |XmlSteps| ensures EntityText(XmlSteps[i].rep) {
    }
    assert HtmlSteps == XmlSteps[..4];
  }

  lemma XmlStepsEntities()
    ensures forall x :: FirstRep(x, XmlSteps) == XmlEntity(x)
    ensures forall x :: FirstRep(x, HtmlSteps) == HtmlEntity(x)
  {
    forall x ensures FirstRep(x, XmlSteps) == XmlEntity(x) && FirstRep(x, HtmlSteps) == HtmlEntity(x) {
      FirstRepUnfold(x);
    }
  }

  lemma FirstRepUnfold(x: char)
    ensures FirstRep(x, XmlSteps) == XmlEntity(x)
    ensures FirstRep(x, HtmlSteps) == HtmlEntity(x)
  {
    var s := XmlSteps;
    assert s[1..][1..][1..][1..][1..] == [];
    var h := HtmlSteps;
    assert h[1..][1..][1..][1..] == [];
  }

  lemma XmlStepsClean()
    ensures NoneInserts(XmlSteps, '<') && NoneInserts(XmlSteps, '>')
    ensures NoneInserts(XmlSteps, '"') && NoneInserts(XmlSteps, '\'')
  {
    forall i | 0 <= i < |XmlSteps| ensures EntityText(XmlSteps[i].rep) {
    }
  }

  /** An entity reference: an ampersand, lower-case letters and a semicolon. */
  predicate EntityText(e: string) {
    forall k :: 0 <= k < |e| ==> e[k] == '&' || e[k] == ';' || 'a' <= e[k] <= 'z'
  }

  lemma HtmlStepsClean()
    ensures NoneInserts(HtmlSteps, '<') && NoneInserts(HtmlSteps, '>') && NoneInserts(HtmlSteps, '"')
  {
    forall i | 0 <= i < |HtmlSteps| ensures EntityText(HtmlSteps[i].rep) {
    }
  }

  /** The output holds no markup character other than the ampersands of entities. */
  lemma EscapeXmlSafe(s: string)
    ensures '<' !in EscapeXml(s) && '>' !in EscapeXml(s)
    ensures '"' !in EscapeXml(s) && '\'' !in EscapeXml(s)
  {
    XmlStepsClean();
    ChainRemoves(s, XmlSteps, '<', 1);
    ChainRemoves(s, XmlSteps, '>', 2);
    ChainRemoves(s, XmlSteps, '"', 3);
    ChainRemoves(s, XmlSteps, '\'', 4);
  }

  // ---------------------------------------------------------------------------
  // HTML

  /** The four replacements of `escapeHTML`: those of `escapeXML` without the apostrophe. */
  const HtmlSteps: seq<Step> := [Step('&', "&amp;"), Step('<', "&lt;"), Step('>', "&gt;"),
                                 Step('"', "&quot;")]

  /** `escapeHTML`. */
  function EscapeHtml(text: string): (r: string)
    ensures |r| >= |text|
  {
    ChainLonger(text, HtmlSteps);
    Chain(text, HtmlSteps)
  }

  /** The entity each character becomes in HTML text; apostrophes stay. */
  function HtmlEntity(c: char): string {
    if c == '\'' then [c] else XmlEntity(c)
  }

  lemma EscapeHtmlPerChar(s: string)
    ensures EscapeHtml(s) == MapChars(s, HtmlEntity)
  {
    XmlStepsLayered();
    XmlStepsEntities();
    ChainPerChar(s, HtmlSteps, HtmlEntity);
  }

  lemma EscapeHtmlSafe(s: string)
    ensures '<' !in EscapeHtml(s) && '>' !in EscapeHtml(s) && '"' !in EscapeHtml(s)
  {
    HtmlStepsClean();
    ChainRemoves(s, HtmlSteps, '<', 1);
    ChainRemoves(s, HtmlSteps, '>', 2);
    ChainRemoves(s, HtmlSteps, '"', 3);
  }

  // ---------------------------------------------------------------------------
  // Decoding

  /** Reads the five predefined XML entities back; every other character is kept. */
  function Unescape(s: string): string
    decreases |s|
  {
    if |s| == 0 then ""
    else if StartsWith(s, "&amp;") then "&" + Unescape(s[5..])
    else if StartsWith(s, "&lt;") then "<" + Unescape(s[4..])
    else if StartsWith(s, "&gt;") then ">" + Unescape(s[4..])
    else if StartsWith(s, "&quot;") then "\"" + Unescape(s[6..])
    else if StartsWith(s, "&apos;") then "'" + Unescape(s[6..])
    else [s[0]] + Unescape(s[1..])
  }

  lemma NotStartsWith(t: string, w: string, k: nat)
    requires k < |w| && k < |t| && t[k] != w[k]
    ensures !StartsWith(t, w)
  {
    Mismatch(t, w, 0, k);
  }

  lemma PrefixParts(e: string, rest: string)
    ensures StartsWith(e + rest, e) && (e + rest)[|e|..] == rest
  {
    assert (e + rest)[0..|e|] == e;
  }

  /** Decoding an escaped character and then the rest gives the character back. */
  lemma UnescapeEntity(x: char, rest: string)
    ensures Unescape(XmlEntity(x) + rest) == [x] + Unescape(rest)
    ensures Unescape(HtmlEntity(x) + rest) == [x] + Unescape(rest)
  {
    PrefixParts(XmlEntity(x), rest);
    PrefixParts(HtmlEntity(x), rest);
    var t := XmlEntity(x) + rest;
    if x == '<' {
      assert t[1] == 'l';
      NotStartsWith(t, "&amp;", 1);
    } else if x == '>' {
      assert t[1] == 'g';
      NotStartsWith(t, "&amp;", 1);
      NotStartsWith(t, "&lt;", 1);
    } else if x == '"' {
      assert t[1] == 'q';
      NotStartsWith(t, "&amp;", 1);
      NotStartsWith(t, "&lt;", 1);
      NotStartsWith(t, "&gt;", 1);
    } else if x == '\'' {
      assert t[1] == 'a' && t[2] == 'p';
      NotStartsWith(t, "&amp;", 2);
      NotStartsWith(t, "&lt;", 1);
      NotStartsWith(t, "&gt;", 1);
      NotStartsWith(t, "&quot;", 1);
      PlainChar(x, rest);
    } else if x != '&' {
      PlainChar(x, rest);
    }
  }

  /** A character other than `&` decodes to itself. */
  lemma PlainChar(x: char, rest: string)
    requires x != '&'
    ensures Unescape([x] + rest) == [x] + Unescape(rest)
  {
    var t := [x] + rest;
    NotStartsWith(t, "&amp;", 0);
    NotStartsWith(t, "&lt;", 0);
    NotStartsWith(t, "&gt;", 0);
    NotStartsWith(t, "&quot;", 0);
    NotStartsWith(t, "&apos;", 0);
    assert t[1..] == rest;
  }

  lemma {:induction false} UnescapeMapChars(s: string, f: char -> string)
    requires forall c :: f(c) == XmlEntity(c) || f(c) == HtmlEntity(c)
    ensures Unescape(MapChars(s, f)) == s
    decreases |s|
  {
    if |s| > 0 {
      UnescapeMapChars(s[1..], f);
      UnescapeEntity(s[0], MapChars(s[1..], f));
      assert [s[0]] + s[1..] == s;
    }
  }

  /** XML escaping loses nothing. */
  lemma UnescapeXml(s: string)
    ensures Unescape(EscapeXml(s)) == s
  {
    EscapeXmlPerChar(s);
    UnescapeMapChars(s, XmlEntity);
  }

  /** HTML escaping loses nothing: the apostrophes it keeps decode to themselves. */
  lemma UnescapeHtml(s: string)
    ensures Unescape(EscapeHtml(s)) == s
  {
    EscapeHtmlPerChar(s);
    UnescapeMapChars(s, HtmlEntity);
  }

  // ---------------------------------------------------------------------------
  // CSV

  /** `escapeCSV`: doubles every double quote (the caller adds the enclosing quotes). */
  function EscapeCsv(text: string): (r: string)
    ensures |r| == |text| + Count(text, '"')
  {
    ReplaceAll(text, '"', "\"\"")
  }

  /** Reads doubled quotes back as single ones. */
  function Undouble(s: string): string
    decreases |s|
  {
    if |s| == 0 then ""
    else if StartsWith(s, "\"\"") then "\"" + Undouble(s[2..])
    else [s[0]] + Undouble(s[1..])
  }

  lemma {:induction false} UndoubleCsv(s: string)
    ensures Undouble(EscapeCsv(s)) == s
    decreases |s|
  {
    if |s| > 0 {
      UndoubleCsv(s[1..]);
      var rest := EscapeCsv(s[1..]);
      var r := EscapeCsv(s);
      assert r == (if s[0] == '"' then "\"\"" else [s[0]]) + rest;
      if s[0] == '"' {
        assert r[..2] == "\"\"" && r[2..] == rest;
      } else {
        assert r[1..] == rest;
      }
      assert [s[0]] + s[1..] == s;
    }
  }

  /** Every quote of the input becomes two quotes of the output. */
  lemma {:induction false} CsvQuotesPaired(s: string)
    ensures Count(EscapeCsv(s), '"') == 2 * Count(s, '"')
    decreases |s|
  {
    if |s| > 0 {
      CsvQuotesPaired(s[1..]);
      var piece := if s[0] == '"' then "\"\"" else [s[0]];
      ReplaceAppend([s[0]], s[1..], '"', "\"\"");
      ReplaceOne(s[0], '"', "\"\"");
      assert [s[0]] + s[1..] == s;
      CountAppend(piece, EscapeCsv(s[1..]), '"');
      assert "\"\""[1..] == "\"" && "\""[1..] == "";
    }
  }

  lemma {:induction false} CountAppend(a: string, b: string, c: char)
    ensures Count(a + b, c) == Count(a, c) + Count(b, c)
    decreases |a|
  {
    if |a| > 0 {
      assert (a + b)[0] == a[0];
      assert (a + b)[1..] == a[1..] + b;
      CountAppend(a[1..], b, c);
    } else {
      assert a + b == b;
    }
  }
}
