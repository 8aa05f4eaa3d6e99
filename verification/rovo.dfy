/** The chat agent's text handling: language names, export formats, issue
    keys, keyword routing and the shape of a translation request. */
module Rovo {
  import opened Wrappers
  import opened Text

  /** The position of the first element satisfying `p`. */
  function FirstWhere<T>(xs: seq<T>, p: T -> bool): (r: Option<nat>)
    ensures r.Some? ==> r.value < |xs| && p(xs[r.value])
    ensures r.Some? ==> forall j :: 0 <= j < r.value ==> !p(xs[j])
    ensures r.None? <==> forall j :: 0 <= j < |xs| ==> !p(xs[j])
    decreases |xs|
  {
    if |xs| == 0 then None
    else if p(xs[0]) then Some(0)
    else
      var r := FirstWhere(xs[1..], p);
      assert forall j :: 1 <= j < |xs| ==> xs[j] == xs[1..][j - 1];
      if r.Some? then Some(r.value + 1) else None
  }

  // ---------------------------------------------------------------------------
  // Language names

  /** The values of `languageMap`; each key is its value lower-cased. */
  const LanguageNames: seq<string> := [
    "Spanish", "French", "German", "Italian", "Portuguese", "English", "Japanese",
    "Chinese", "Korean", "Russian", "Arabic", "Hindi", "Dutch", "Swedish",
    "Norwegian", "Danish", "Finnish", "Polish", "Czech", "Hungarian", "Romanian",
    "Bulgarian", "Croatian", "Slovak", "Slovenian", "Estonian", "Latvian", "Lithuanian"]

  /** `languageMap[key]` for the map's own keys. */
  function LookupLanguage(names: seq<string>, key: string): (r: Option<string>)
    ensures r.Some? ==> r.value in names && Lower(r.value) == key
    ensures r.None? <==> forall j :: 0 <= j < |names| ==> Lower(names[j]) != key
  {
    match FirstWhere(names, n => Lower(n) == key)
    case Some(i) => Some(names[i])
    case None => None
  }

  /** `normalizeLanguage` reading only the map's own entries: a known name in
      any letter case becomes its capitalised form, anything else is kept. */
  function NormalizeLanguage(language: string): (r: string)
    ensures Lower(r) == Lower(language)
    ensures r in LanguageNames || r == language
  {
    match LookupLanguage(LanguageNames, Lower(language))
    case Some(name) => LowerIdempotent(language); name
    case None => language
  }

  /** Normalising twice is normalising once. */
  lemma NormalizeIdempotent(language: string)
    ensures NormalizeLanguage(NormalizeLanguage(language)) == NormalizeLanguage(language)
  {
  }

  /** A name whose lower-case form is one of the map's keys becomes a listed name. */
  lemma NormalizeKnown(language: string, k: nat)
    requires k < |LanguageNames| && Lower(language) == Lower(LanguageNames[k])
    ensures NormalizeLanguage(language) in LanguageNames
  {
  }

  /** A name that is no key, in any case, comes back unchanged. */
  lemma NormalizeUnknown(language: string)
    requires forall j :: 0 <= j < |LanguageNames| ==> Lower(LanguageNames[j]) != Lower(language)
    ensures NormalizeLanguage(language) == language
  {
  }

  /** "spanish" in any letter case becomes "Spanish". */
  lemma NormalizeSpanish(language: string)
    requires Lower(language) == "spanish"
    ensures NormalizeLanguage(language) == "Spanish"
  {
    LowerCapitalised(LanguageNames[0]);
    assert Lower(LanguageNames[0]) == "spanish";
    LookupFirst(LanguageNames, "spanish");
  }

  lemma LookupFirst(names: seq<string>, key: string)
    requires |names| > 0 && Lower(names[0]) == key
    ensures LookupLanguage(names, key) == Some(names[0])
  {
  }

  // The lookup as written reads `languageMap[key]` on a plain object, so a
  // key naming a member the object inherits is found as well.

  /** What the property read yields: a listed name, or a member inherited from
      `Object.prototype` (a function or the prototype object, both truthy). */
  datatype Lookup = Name(name: string) | Inherited(key: string)

  /** The inherited member names that a lower-cased key can spell. */
  const InheritedKeys: seq<string> := ["constructor", "__proto__"]

  function NormalizeLanguageAsWritten(language: string): (r: Lookup)
    ensures r.Inherited? <==> LookupLanguage(LanguageNames, Lower(language)).None? && Lower(language) in InheritedKeys
  {
    var key := Lower(language);
    match LookupLanguage(LanguageNames, key)
    case Some(name) => Name(name)
    case None => if key in InheritedKeys then Inherited(key) else Name(language)
  }

  /** No language name is longer than ten letters. */
  lemma NamesAreShort()
    ensures forall j :: 0 <= j < |LanguageNames| ==> |LanguageNames[j]| <= 10
  {
  }

  /** "constructor" in any letter case is no language, yet the lookup as
      written does not give it back. */
  lemma ConstructorIsNotKept(language: string)
    requires Lower(language) == "constructor"
    ensures NormalizeLanguageAsWritten(language) == Inherited("constructor")
    ensures NormalizeLanguage(language) == language
  {
    ConstructorUnlisted();
  }

  lemma ConstructorUnlisted()
    ensures LookupLanguage(LanguageNames, "constructor").None?
  {
    NamesAreShort();
    assert forall j :: 0 <= j < |LanguageNames| ==> |Lower(LanguageNames[j])| != |"constructor"|;
  }

  /** Everywhere else the two lookups agree. */
  lemma AsWrittenAgrees(language: string)
    requires Lower(language) !in InheritedKeys
    ensures NormalizeLanguageAsWritten(language) == Name(NormalizeLanguage(language))
  {
  }

  // ---------------------------------------------------------------------------
  // Export formats

  const Formats: seq<string> := ["xliff", "xlf", "tmx", "csv", "txt", "pdf"]

  /** `extractExportFormat`: the first listed format named anywhere in the message. */
  function ExtractExportFormat(message: string): (r: Option<string>)
    ensures r.Some? ==> r.value in Formats && Contains(Lower(message), r.value)
    ensures r.None? <==> forall j :: 0 <= j < |Formats| ==> !Contains(Lower(message), Formats[j])
  {
    match FirstWhere(Formats, f => Contains(Lower(message), f))
    case Some(i) => Some(Formats[i])
    case None => None
  }

  /** Earlier formats win: a format is reported only when no earlier one is named. */
  lemma ExportFormatOrder(message: string, k: nat)
    requires k < |Formats|
    ensures ExtractExportFormat(message) == Some(Formats[k]) <==>
      Contains(Lower(message), Formats[k]) && forall j :: 0 <= j < k ==> !Contains(Lower(message), Formats[j])
  {
    var i := FirstWhere(Formats, f => Contains(Lower(message), f));
    if i.Some? && i.value != k {
      FormatsDistinct(i.value, k);
    }
  }

  lemma FormatsDistinct(i: nat, k: nat)
    requires i < |Formats| && k < |Formats| && i != k
    ensures Formats[i] != Formats[k]
  {
  }

  /** A message naming XLIFF in any case asks for XLIFF. */
  lemma XliffFirst(message: string)
    requires Contains(Lower(message), "xliff")
    ensures ExtractExportFormat(message) == Some("xliff")
  {
    ExportFormatOrder(message, 0);
  }

  // ---------------------------------------------------------------------------
  // Issue keys

  /** An issue key: 2 to 10 capital letters, a hyphen, and at least one digit. */
  predicate IsIssueKey(k: string) {
    exists u :: 2 <= u <= 10 && u + 1 < |k| && KeyShape(k, u)
  }

  /** `k` is `u` capitals, a hyphen, then digits only. */
  predicate KeyShape(k: string, u: nat) {
    && u < |k| && k[u] == '-'
    && (forall i :: 0 <= i < u ==> IsUpper(k[i]))
    && (forall i :: u < i < |k| ==> IsDigit(k[i]))
  }

  /** The match of `/[A-Z]{2,10}-\d+/` at the start of `t`. The capital run
      must end in the hyphen, so more than ten capitals before it give no
      match here (the leftmost match then starts further on). The digits are
      taken greedily, and when there is no match no prefix of `t` is a key. */
  function KeyFront(t: string): (r: Option<string>)
    ensures r.Some? ==> IsIssueKey(r.value) && StartsWith(t, r.value)
    ensures r.Some? ==> |r.value| == |t| || !IsDigit(t[|r.value|])
    ensures r.None? ==> forall n :: 0 <= n <= |t| ==> !IsIssueKey(t[..n])
  {
    var u := RunLength(t, 0, IsUpper);
    if u < 2 || u > 10 || u >= |t| || t[u] != '-' then
      assert forall n :: 0 <= n <= |t| ==> !IsIssueKey(t[..n]) by {
        forall n | 0 <= n <= |t| ensures !IsIssueKey(t[..n]) {
          if IsIssueKey(t[..n]) {
            var v := KeyPrefixRuns(t, n);
            assert false;
          }
        }
      }
      None
    else
      var d := RunLength(t, u + 1, IsDigit);
      if d == 0 then
        assert forall n :: 0 <= n <= |t| ==> !IsIssueKey(t[..n]) by {
          forall n | 0 <= n <= |t| ensures !IsIssueKey(t[..n]) {
            if IsIssueKey(t[..n]) {
              var v := KeyPrefixRuns(t, n);
              assert false;
            }
          }
        }
        None
      else
        var k := t[..u + 1 + d];
        assert KeyShape(k, u);
        Some(k)
  }

  /** A key at the start of `t` is read off its runs: the capitals end at the
      hyphen, within ten characters, and a digit follows. */
  lemma KeyPrefixRuns(t: string, n: nat) returns (u: nat)
    requires n <= |t| && IsIssueKey(t[..n])
    ensures u == RunLength(t, 0, IsUpper) && 2 <= u <= 10 && u < |t| && t[u] == '-'
    ensures RunLength(t, u + 1, IsDigit) > 0
  {
    var k := t[..n];
    u :| 2 <= u <= 10 && u + 1 < |k| && KeyShape(k, u);
    assert forall i :: 0 <= i < n ==> k[i] == t[i];
    RunLengthExact(t, 0, u, IsUpper);
    assert IsDigit(t[u + 1]);
  }

  /** `key` is at position `i` of `message`, no key starts before it, and
      its digits run to the end or to a non-digit. */
  predicate LeftmostKey(message: string, key: string, i: nat) {
    && OccursAt(message, key, i)
    && (forall j, n :: 0 <= j < i && j <= n <= |message| ==> !IsIssueKey(message[j..n]))
    && (i + |key| == |message| || !IsDigit(message[i + |key|]))
  }

  /** `extractIssueKey`: the first match, or nothing exactly when no part of
      the message is a key. */
  function ExtractIssueKey(message: string): (r: Option<string>)
    ensures r.Some? ==> IsIssueKey(r.value) && Contains(message, r.value)
    ensures r.Some? ==> exists i :: LeftmostKey(message, r.value, i)
    ensures r.None? <==> forall i, n :: 0 <= i <= n <= |message| ==> !IsIssueKey(message[i..n])
  {
    match FindFront(message, 0, KeyFront)
    case Some(i) =>
      var k := KeyFront(message[i..]).value;
      FoundKey(message, i);
      Some(k)
    case None =>
      NoKeyFound(message);
      None
  }

  /** What the leftmost match position gives: a key there, and none earlier. */
  lemma FoundKey(message: string, i: nat)
    requires FindFront(message, 0, KeyFront) == Some(i)
    ensures LeftmostKey(message, KeyFront(message[i..]).value, i)
    ensures IsIssueKey(message[i..i + |KeyFront(message[i..]).value|])
  {
    var k := KeyFront(message[i..]).value;
    OccursAtSuffix(message, k, i);
    assert message[i..i + |k|] == k;
    forall j | 0 <= j < i ensures KeyFront(message[j..]).None? {
    }
    NoKeyBetween(message, 0, i);
    if i + |k| < |message| {
      assert message[i..][|k|] == message[i + |k|];
    }
  }

  /** Positions where nothing matches start no key. */
  lemma NoKeyBetween(message: string, from: nat, to: nat)
    requires from <= to <= |message|
    requires forall j :: from <= j < to ==> KeyFront(message[j..]).None?
    ensures forall j, n :: from <= j < to && j <= n <= |message| ==> !IsIssueKey(message[j..n])
  {
    forall j, n | from <= j < to && j <= n <= |message| ensures !IsIssueKey(message[j..n]) {
      var t := message[j..];
      assert KeyFront(t).None?;
      assert message[j..n] == t[..n - j];
    }
  }

  /** When no position matches, no part of the message is a key. */
  lemma NoKeyFound(message: string)
    requires FindFront(message, 0, KeyFront).None?
    ensures forall i, n :: 0 <= i <= n <= |message| ==> !IsIssueKey(message[i..n])
  {
    forall j | 0 <= j < |message| ensures KeyFront(message[j..]).None? {
    }
    NoKeyBetween(message, 0, |message|);
  }

  /** Keys are upper case only: a message without capitals has none. */
  lemma NoCapitalsNoKey(message: string)
    requires forall i :: 0 <= i < |message| ==> !IsUpper(message[i])
    ensures ExtractIssueKey(message) == None
  {
    forall j | 0 <= j < |message| ensures KeyFront(message[j..]).None? {
      assert message[j..][0] == message[j];
    }
  }

  /** A key followed by something other than a digit matches at its start. */
  lemma KeyAtFront(key: string, u: nat, post: string)
    requires 2 <= u <= 10 && u + 1 < |key| && KeyShape(key, u)
    requires |post| == 0 || !IsDigit(post[0])
    ensures KeyFront(key + post) == Some(key)
  {
    var s := key + post;
    assert forall j :: 0 <= j < |key| ==> s[j] == key[j];
    RunLengthExact(s, 0, u, IsUpper);
    RunLengthExact(s, u + 1, |key| - u - 1, IsDigit);
    assert s[..|key|] == key;
  }

  /** A key written after text without capitals, and not followed by a digit, is the key found. */
  lemma IssueKeyRoundTrip(pre: string, key: string, post: string)
    requires forall i :: 0 <= i < |pre| ==> !IsUpper(pre[i])
    requires IsIssueKey(key)
    requires |post| == 0 || !IsDigit(post[0])
    ensures ExtractIssueKey(pre + key + post) == Some(key)
  {
    var u :| 2 <= u <= 10 && u + 1 < |key| && KeyShape(key, u);
    var t := key + post;
    var s := pre + t;
    assert s == pre + key + post;
    forall j | 0 <= j < |pre| ensures KeyFront(s[j..]).None? {
      assert s[j..][0] == pre[j];
    }
    KeyAtFront(key, u, post);
    FindFrontAt(pre, t, KeyFront);
    assert s[|pre|..] == t;
  }

  // ---------------------------------------------------------------------------
  // Keyword routing

  datatype Handler =
    | ConsistencyAnalysis | StyleCompliance | ProjectStatus | TmSearch
    | FileExport | TeamCollaboration | QualityAnalysis

  /** `handleAdvancedConversations`' checks, in the order they are made. */
  const Routes: seq<(Handler, seq<string>)> := [
    (ConsistencyAnalysis, ["consistency", "check consistency"]),
    (StyleCompliance, ["style guide", "style compliance", "brand compliance"]),
    (ProjectStatus, ["project status", "translation status", "workflow status"]),
    (TmSearch, ["translation memory", "tm search", "search tm"]),
    (FileExport, ["export", "download", "xliff", "tmx"]),
    (TeamCollaboration, ["team", "assign", "who's working", "activity"]),
    (QualityAnalysis, ["quality", "spell check", "grammar", "check quality"])]

  /** Some keyword of the group occurs in the (already lower-cased) text. */
  predicate Mentions(lowerText: string, keywords: seq<string>) {
    FirstWhere(keywords, w => Contains(lowerText, w)).Some?
  }

  lemma MentionsIff(lowerText: string, keywords: seq<string>)
    ensures Mentions(lowerText, keywords) <==> exists j :: 0 <= j < |keywords| && Contains(lowerText, keywords[j])
  {
  }

  /** The handler chosen for a message, or `None` to fall through to plain translation. */
  function Route(lowerText: string): (r: Option<Handler>)
    ensures r.None? <==> forall k :: 0 <= k < |Routes| ==> !Mentions(lowerText, Routes[k].1)
  {
    match FirstWhere(Routes, (g: (Handler, seq<string>)) => Mentions(lowerText, g.1))
    case Some(k) => Some(Routes[k].0)
    case None => None
  }

  lemma RoutesDistinct(i: nat, k: nat)
    requires i < |Routes| && k < |Routes| && i != k
    ensures Routes[i].0 != Routes[k].0
  {
  }

  /** The first group with a keyword present wins. */
  lemma RouteOrder(lowerText: string, k: nat)
    requires k < |Routes|
    ensures Route(lowerText) == Some(Routes[k].0) <==>
      Mentions(lowerText, Routes[k].1) && forall j :: 0 <= j < k ==> !Mentions(lowerText, Routes[j].1)
  {
    var i := FirstWhere(Routes, (g: (Handler, seq<string>)) => Mentions(lowerText, g.1));
    if i.Some? && i.value != k {
      RoutesDistinct(i.value, k);
    }
  }

  /** A message about consistency goes to the consistency analysis, whatever else it mentions. */
  lemma ConsistencyFirst(lowerText: string)
    requires Contains(lowerText, "consistency")
    ensures Route(lowerText) == Some(ConsistencyAnalysis)
  {
    MentionsIff(lowerText, Routes[0].1);
    RouteOrder(lowerText, 0);
  }

  // ---------------------------------------------------------------------------
  // Translation requests

  /** The four request patterns of `parseTranslationRequest`, in order. */
  datatype Pattern = TranslateTo | ConvertFromTo | WhatIsIn | QuotedIn

  const Patterns: seq<Pattern> := [TranslateTo, ConvertFromTo, WhatIsIn, QuotedIn]

  /** Whether the pattern's source text mentions `from`; only the convert
      pattern does. */
  predicate UsesFrom(p: Pattern) {
    p == ConvertFromTo
  }

  /** The groups a pattern captures: the quoted text, then one or two
      language words (`second` is read only for the convert pattern). */
  datatype Captures = Captures(text: string, first: string, second: string)

  datatype TranslationRequest = TranslationRequest(text: string, sourceLanguage: Option<string>,
                                                   targetLanguage: string)

  /** `parseTranslationRequest`, with the regular-expression engine given as
      `matcher`: the first pattern that matches decides the request. */
  function ParseTranslationRequest(userText: string, matcher: (Pattern, string) -> Option<Captures>)
    : (r: Option<TranslationRequest>)
    ensures r.None? <==> forall k :: 0 <= k < |Patterns| ==> matcher(Patterns[k], userText).None?
  {
    match FirstPattern(userText, matcher)
    case None => None
    case Some(k) =>
      var p := Patterns[k];
      var c := matcher(p, userText).value;
      if UsesFrom(p) then
        Some(TranslationRequest(c.text, Some(NormalizeLanguage(c.first)), NormalizeLanguage(c.second)))
      else
        Some(TranslationRequest(c.text, None, NormalizeLanguage(c.first)))
  }

  /** The position of the first pattern that matches. */
  function FirstPattern(userText: string, matcher: (Pattern, string) -> Option<Captures>): (r: Option<nat>)
    ensures r.Some? ==> r.value < |Patterns| && matcher(Patterns[r.value], userText).Some?
    ensures r.Some? ==> forall j :: 0 <= j < r.value ==> matcher(Patterns[j], userText).None?
    ensures r.None? <==> forall k :: 0 <= k < |Patterns| ==> matcher(Patterns[k], userText).None?
  {
    FirstWhere(Patterns, p => matcher(p, userText).Some?)
  }

  /** The request built from the first matching pattern: a source language
      exactly when that pattern is the convert form. */
  lemma RequestFromFirstMatch(userText: string, matcher: (Pattern, string) -> Option<Captures>, k: nat)
    requires k < |Patterns| && matcher(Patterns[k], userText).Some?
    requires forall j :: 0 <= j < k ==> matcher(Patterns[j], userText).None?
    ensures var r := ParseTranslationRequest(userText, matcher);
            var c := matcher(Patterns[k], userText).value;
            && r.Some? && r.value.text == c.text
            && (r.value.sourceLanguage.Some? <==> Patterns[k] == ConvertFromTo)
            && (Patterns[k] == ConvertFromTo ==>
                  r.value.sourceLanguage == Some(NormalizeLanguage(c.first))
                  && r.value.targetLanguage == NormalizeLanguage(c.second))
            && (Patterns[k] != ConvertFromTo ==> r.value.targetLanguage == NormalizeLanguage(c.first))
  {
    assert FirstPattern(userText, matcher) == Some(k);
  }
}
