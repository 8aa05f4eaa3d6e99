/** Applying a spelling suggestion in the issue panel's text box, and the
    early return of the error highlighter. */
module Spelling {
  import opened Wrappers

  /** A flagged word and its character offsets in the checked text. */
  datatype SpellingError = SpellingError(word: string, start: int, end: int, suggestions: seq<string>)

  /** The argument clamping of `String.prototype.substring`. */
  function Clamp(n: int, len: nat): (r: nat)
    ensures r <= len
    ensures 0 <= n <= len ==> r == n
    ensures n < 0 ==> r == 0
    ensures n > len ==> r == len
  {
    if n < 0 then 0 else if n > len then len else n
  }

  /** `errors.filter((_, index) => index !== errorIndex)`, walking the list with its indices. */
  function DropIndex<T>(errors: seq<T>, errorIndex: int, from: nat): (r: seq<T>)
    decreases |errors|
  {
    if |errors| == 0 then []
    else (if from == errorIndex then [] else [errors[0]]) + DropIndex(errors[1..], errorIndex, from + 1)
  }

  /** The filter removes exactly the one element at `errorIndex` and keeps the rest in order. */
  lemma {:induction false} DropIndexSplice<T>(errors: seq<T>, errorIndex: int, from: nat)
    requires from <= errorIndex < from + |errors|
    ensures DropIndex(errors, errorIndex, from)
         == errors[..errorIndex - from] + errors[errorIndex - from + 1..]
    decreases |errors|
  {
    if from == errorIndex {
      DropIndexNone(errors[1..], errorIndex, from + 1);
    } else {
      DropIndexSplice(errors[1..], errorIndex, from + 1);
      assert errors[..errorIndex - from] == [errors[0]] + errors[1..][..errorIndex - from - 1];
      assert errors[errorIndex - from + 1..] == errors[1..][errorIndex - from..];
    }
  }

  /** An index outside the list removes nothing. */
  lemma {:induction false} DropIndexNone<T>(errors: seq<T>, errorIndex: int, from: nat)
    requires errorIndex < from || errorIndex >= from + |errors|
    ensures DropIndex(errors, errorIndex, from) == errors
    decreases |errors|
  {
    if |errors| > 0 {
      DropIndexNone(errors[1..], errorIndex, from + 1);
      assert [errors[0]] + errors[1..] == errors;
    }
  }

  /** `applySpellingSuggestion(errorIndex, suggestion)`: the new text and the
      remaining errors. An index with no error behind it changes nothing. The
      offsets of the remaining errors are kept as they were. */
  function ApplySpellingSuggestion(text: string, errors: seq<SpellingError>, errorIndex: int, suggestion: string)
    : (r: (string, seq<SpellingError>))
    ensures !(0 <= errorIndex < |errors|) ==> r == (text, errors)
    ensures 0 <= errorIndex < |errors| ==>
      var e := errors[errorIndex];
      && r.0 == text[..Clamp(e.start, |text|)] + suggestion + text[Clamp(e.end, |text|)..]
      && r.1 == errors[..errorIndex] + errors[errorIndex + 1..]
  {
    if !(0 <= errorIndex < |errors|) then (text, errors)
    else
      var e := errors[errorIndex];
      var newText := text[..Clamp(e.start, |text|)] + suggestion + text[Clamp(e.end, |text|)..];
      DropIndexSplice(errors, errorIndex, 0);
      (newText, DropIndex(errors, errorIndex, 0))
  }

  /** For an error whose offsets lie inside the text, the word at those offsets
      is replaced and nothing else: the text around it is kept, and the length
      changes by the difference of the two words. */
  lemma SuggestionReplacesWord(text: string, errors: seq<SpellingError>, errorIndex: int, suggestion: string)
    requires 0 <= errorIndex < |errors|
    requires 0 <= errors[errorIndex].start <= errors[errorIndex].end <= |text|
    ensures var e := errors[errorIndex];
            var r := ApplySpellingSuggestion(text, errors, errorIndex, suggestion).0;
            && |r| == |text| - (e.end - e.start) + |suggestion|
            && r[..e.start] == text[..e.start]
            && r[e.start..e.start + |suggestion|] == suggestion
            && r[e.start + |suggestion|..] == text[e.end..]
  {
  }

  /** Choosing the flagged word itself as the suggestion gives back the same text. */
  lemma SameWordIsIdentity(text: string, errors: seq<SpellingError>, errorIndex: int)
    requires 0 <= errorIndex < |errors|
    requires 0 <= errors[errorIndex].start <= errors[errorIndex].end <= |text|
    ensures var e := errors[errorIndex];
            ApplySpellingSuggestion(text, errors, errorIndex, text[e.start..e.end]).0 == text
  {
    var e := errors[errorIndex];
    assert text[..e.start] + text[e.start..e.end] + text[e.end..] == text;
  }

  /** `getHighlightedText`: with real-time checking off or no errors the text
      is returned as it is; otherwise the markup pass `markup` runs. */
  function HighlightedText(text: string, realTimeSpelling: bool, errors: seq<SpellingError>,
                           markup: (string, seq<SpellingError>) -> string): (r: string)
    ensures !realTimeSpelling || |errors| == 0 ==> r == text
    ensures realTimeSpelling && |errors| > 0 ==> r == markup(text, errors)
  {
    if !realTimeSpelling || |errors| == 0 then text else markup(text, errors)
  }
}
