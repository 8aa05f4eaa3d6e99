# Seamless LinguaFlow — a Dafny model of the translation core

Seamless LinguaFlow is a translation-management app for Jira. It has three parts:

- a set of back-end resolvers;
- an issue panel;
- a chat agent.

This project models the deterministic logic they share and proves properties about it:

- **Translation memory.** Search is ranked and supports exact and fuzzy matching, using a Levenshtein similarity score. Writes resolve conflicts and keep bounded history. Consistency decisions also write a user-approved entry. (`TranslationMemory`, `Similarity`, `Sorting`)
- **Consistency analysis** of a source text and its translation, which reports the sentences translated in more than one way. (`Consistency`)
- **Export escaping** for XML, HTML and CSV. (`Escaping`)
- **Per-issue collaboration logs**: comments, the activity feed and the change history. (`Collaboration`)
- **In the issue panel**:
  - the workflow stepper (`Workflow`);
  - the reading of a consistency report: summary kind, count, and per-issue source, translations, recommendation and severity (`Report`), and the layout of an issue block that reads back as the issue it was written from (`IssueBlock`);
  - applying a spelling suggestion (`Spelling`).
- **In the chat agent**:
  - language-name normalisation;
  - export-format and issue-key extraction;
  - keyword routing;
  - the from/no-from branch of translation-request parsing.

  (`Rovo`)

`Text` holds the string primitives the code relies on: JavaScript's `trim`, ASCII `toLowerCase`, `split`, `includes`, decimal numerals and leftmost regular-expression search. `Wrappers` holds `Option`, `Result`, `Min` and `Max`.

Persistent storage is modelled as an explicit value that each operation takes and returns:

- translation-memory collections are keyed by `tm-<source>-<target>`;
- decisions are keyed by `consistency-decisions-<source>-<target>`;
- the collaboration logs are keyed by issue.

Generated ids and clock readings are parameters.

## Model

| member | source | states |
|---|---|---|
| Similarity.LevenshteinDistance | Seamless-LinguaFlow/src/resolvers/index.js:1086-1112 | The row-by-row dynamic-programming table computes exactly the recursive edit distance `Distance` (unit insert, delete and substitute). |
| Similarity.NextRow | Seamless-LinguaFlow/src/resolvers/index.js:1097-1108 | Given row `i-1` of distances between prefixes, the inner loop produces row `i`. |
| Similarity.DistanceStep | Seamless-LinguaFlow/src/resolvers/index.js:1099-1106 | A table cell takes the diagonal when the characters agree, and otherwise one plus the least of its three neighbours. |
| Similarity.DistanceSymmetric | Seamless-LinguaFlow/src/resolvers/index.js:1086-1112 | Edit distance does not depend on argument order. |
| Similarity.DistanceToSelf | Seamless-LinguaFlow/src/resolvers/index.js:1086-1112 | A string is at distance 0 from itself. |
| Similarity.DistanceZero | Seamless-LinguaFlow/src/resolvers/index.js:1086-1112 | Distance 0 implies the strings are equal. |
| Similarity.DistanceBounds | Seamless-LinguaFlow/src/resolvers/index.js:1086-1112 | The distance is at least the length difference and at most the longer length. |
| Similarity.Score | Seamless-LinguaFlow/src/resolvers/index.js:1076-1084 | The similarity percentage always lies in 0..100. |
| Similarity.ScoreSymmetric | Seamless-LinguaFlow/src/resolvers/index.js:1077-1083 | The score does not depend on which string is passed first, even though the code picks a "longer" one. |
| Similarity.ScoreOfEqual | Seamless-LinguaFlow/src/resolvers/index.js:1080-1083 | Identical strings score 100, including two empty strings. |
| Similarity.ScoreHundred | Seamless-LinguaFlow/src/resolvers/index.js:1083 | A score of 100 holds exactly when 200·distance ≤ the longer length. Because of rounding, unequal long strings can score 100. |
| Similarity.ScoreAtLeastSeventy | Seamless-LinguaFlow/src/resolvers/index.js:1001 | The fuzzy threshold holds, score ≥ 70, exactly when 200·distance ≤ 61·longer length. |
| Similarity.PercentAtLeast | Seamless-LinguaFlow/src/resolvers/index.js:1083 | `Math.round(100·(L−d)/L) ≥ k` holds exactly when 200·d ≤ (201−2k)·L. |
| Similarity.ScoreLengthGap | Seamless-LinguaFlow/src/resolvers/index.js:1076-1084 | Strings whose lengths differ by more than the threshold allows can never match fuzzily. |
| TranslationMemory.ParseConfidence | Seamless-LinguaFlow/src/resolvers/index.js:1015-1016 | A stored label reads back to a confidence whose label is that text. |
| TranslationMemory.ConfidenceRoundTrip | Seamless-LinguaFlow/src/resolvers/index.js:1071-1074 | Confidence → label → confidence is the identity, except for an unrecognised value spelling a known label. The rank never drops. |
| TranslationMemory.TmKeyCollision | Seamless-LinguaFlow/src/resolvers/index.js:931 | The hyphen-joined storage key makes the language pairs ("en-US","fr") and ("en","US-fr") share one collection. |
| TranslationMemory.Classify | Seamless-LinguaFlow/src/resolvers/index.js:988-1008 | An entry is recorded exactly when its normalised source equals the query's, or fuzzy matching is on and the score reaches 70. The recorded hit is admissible. |
| TranslationMemory.Candidates | Seamless-LinguaFlow/src/resolvers/index.js:987-1009 | The hit list holds only admissible hits from the collection, and every entry that qualifies is on it. |
| TranslationMemory.CandidatesAppend | Seamless-LinguaFlow/src/resolvers/index.js:987-1009 | The hits for two collections, one after the other, are the first one's hits followed by the second one's. With CandidatesOne this gives at most one hit per entry, in storage order. |
| TranslationMemory.CandidatesOne | Seamless-LinguaFlow/src/resolvers/index.js:987-1009 | A single entry gives its own classified hit when it has one, and nothing otherwise. |
| TranslationMemory.Search | Seamless-LinguaFlow/src/resolvers/index.js:980-1020 | At most 10 hits, all admissible and from the pair's collection. They are drawn from the candidate list without repetition (a sub-multiset of it) and ordered by score, then confidence rank, then usage count, biggest first. The store is only read. |
| TranslationMemory.SearchKeepsBest | Seamless-LinguaFlow/src/resolvers/index.js:1012-1019 | A qualifying entry is missing from the result only if 10 hits ranked at least as high were kept. |
| TranslationMemory.SearchEmptyQuery | Seamless-LinguaFlow/src/resolvers/index.js:985-997 | With fuzzy matching off, a blank query finds only exact hits (score 100) on entries whose normalised source is empty. |
| TranslationMemory.FindDuplicate | Seamless-LinguaFlow/src/resolvers/index.js:950-954 | Returns the first entry with the same lower-cased source and the same languages, or reports that there is none. |
| TranslationMemory.Merge | Seamless-LinguaFlow/src/resolvers/index.js:956-968 | A write either keeps the collection length (duplicate) or appends exactly the new entry. |
| TranslationMemory.SaveToTranslationMemory | Seamless-LinguaFlow/src/resolvers/index.js:930-978 | After a write the pair's collection exists and holds at most 1000 entries. Decisions and every other collection are untouched. |
| TranslationMemory.SaveDuplicate | Seamless-LinguaFlow/src/resolvers/index.js:956-964 | A duplicate write keeps the length and adds exactly one use. It replaces the whole record only when the new confidence rank is strictly higher, so the rank becomes the maximum of the two. All other entries are unchanged. |
| TranslationMemory.SaveFresh | Seamless-LinguaFlow/src/resolvers/index.js:937-947 | A new source, written while there is room, appends one entry with trimmed source and target and usage count 0. |
| TranslationMemory.SaveEvictsOldest | Seamless-LinguaFlow/src/resolvers/index.js:970-975 | On overflow, no evicted entry is newer than any kept entry. |
| TranslationMemory.SavePreservesNoDuplicates | Seamless-LinguaFlow/src/resolvers/index.js:949-975 | If no two entries of a collection share a case-insensitive source, the same holds after a write, eviction included. |
| TranslationMemory.SaveLeavesEntry | Seamless-LinguaFlow/src/resolvers/index.js:949-968 | After a write with room, the written source has an entry whose confidence rank is at least the written one. |
| TranslationMemory.StoreDecision | Seamless-LinguaFlow/src/resolvers/index.js:1022-1047 | Storing the decision list leaves the translation memory untouched. |
| TranslationMemory.SaveConsistencyDecision | Seamless-LinguaFlow/src/resolvers/index.js:1022-1059 | The pair's decision list holds at most 500 decisions and the memory collection at most 1000. Every other decision list is unchanged. |
| TranslationMemory.DecisionAppended | Seamless-LinguaFlow/src/resolvers/index.js:1027-1038 | While there is room, the decision is appended with trimmed segment and chosen translation. |
| TranslationMemory.DecisionEvictsOldest | Seamless-LinguaFlow/src/resolvers/index.js:1040-1045 | On overflow, no evicted decision is newer than any kept decision. |
| TranslationMemory.DecisionRecordsApproval | Seamless-LinguaFlow/src/resolvers/index.js:1049-1058 | After a decision, with room in the memory, the memory holds a user-approved entry for the decided segment. |
| Sorting.Insert | Seamless-LinguaFlow/src/resolvers/index.js:1012-1019 | Inserting into a sorted list keeps it sorted and adds exactly the one element, as a multiset. |
| Sorting.SortDesc | Seamless-LinguaFlow/src/resolvers/index.js:973 | The sort yields a biggest-first ordering that is a permutation of its input. |
| Sorting.InsertWithKey | Seamless-LinguaFlow/src/resolvers/index.js:973 | Inserting an item into a sorted list puts it ahead of the items with an equal key and keeps their order. |
| Sorting.SortDescStable | Seamless-LinguaFlow/src/resolvers/index.js:973 | The sort is stable: for every key value, the items with that key come out in their input order. |
| Sorting.Retain | Seamless-LinguaFlow/src/resolvers/index.js:971-975 | Eviction leaves exactly `min(n, cap)` items, drawn from the input, and changes nothing when under the cap. |
| Sorting.RetainKeepsBiggest | Seamless-LinguaFlow/src/resolvers/index.js:971-975 | No evicted item sorts before a kept one. |
| Sorting.RetainKeepsDistinct | Seamless-LinguaFlow/src/resolvers/index.js:971-975 | Sorting and cutting never bring two items with the same key together. |
| Sorting.TakeSorted | Seamless-LinguaFlow/src/resolvers/index.js:1019 | The first 10 of a sorted list are sorted and come from it. |
| Consistency.Segments | Seamless-LinguaFlow/src/resolvers/index.js:314-315 | Every sentence is non-empty, already trimmed and free of `.`, `!` and `?`. |
| Consistency.SegmentsPieces | Seamless-LinguaFlow/src/resolvers/index.js:314-315 | The text is its terminator-free pieces joined by terminator runs, and the sentences are exactly the non-blank pieces, trimmed, in order. |
| Consistency.SegmentsOfJoin | Seamless-LinguaFlow/src/resolvers/index.js:314-315 | Terminator-free pieces joined by terminator runs give back the non-blank pieces, trimmed, in order. |
| Consistency.SegmentsStep | Seamless-LinguaFlow/src/resolvers/index.js:314-315 | A piece followed by a terminator run gives its trimmed text (if non-blank), then the sentences of what follows. |
| Text.SplitRuns | Seamless-LinguaFlow/src/resolvers/index.js:314 | Splitting on runs of terminators gives at least one piece, and no piece contains a terminator. |
| Text.SplitRunsRebuild | Seamless-LinguaFlow/src/resolvers/index.js:314 | Rejoining the pieces with the separator runs between them gives the input back. The runs are non-empty, and only the first and last piece can be empty. |
| Text.SplitRunsOfJoin | Seamless-LinguaFlow/src/resolvers/index.js:314 | Separator-free pieces joined by non-empty separator runs, with non-empty inner pieces, split back into exactly those pieces. |
| Text.SplitJoin | Seamless-LinguaFlow/src/frontend/index.jsx:663 | Splitting at single separator characters loses nothing: joining the pieces gives the text back. |
| Text.TrimNonEmptyKeeps | Seamless-LinguaFlow/src/resolvers/index.js:314 | Every piece that trims to something non-empty survives the filter. |
| Text.TrimIdempotent | Seamless-LinguaFlow/src/resolvers/index.js:314 | Trimming twice is trimming once. |
| Text.LowerTrimCommute | Seamless-LinguaFlow/src/resolvers/index.js:341 | Lower-casing and trimming commute. |
| Consistency.PairUp | Seamless-LinguaFlow/src/resolvers/index.js:321-328 | Each pair is the source and translation at one index below the shorter length, with a source of at least 10 characters. Every such index yields its pair. |
| Consistency.Collect | Seamless-LinguaFlow/src/resolvers/index.js:318-334 | The grouping has one group per distinct source, with all of its translations in order of occurrence. |
| Consistency.AddPairKeeps | Seamless-LinguaFlow/src/resolvers/index.js:330-333 | Adding one pair to a correct grouping keeps it correct. |
| Consistency.Distinct | Seamless-LinguaFlow/src/resolvers/index.js:341 | The de-duplicated list has no repeats and the same members as its input. |
| Consistency.DistinctCountDivergent | Seamless-LinguaFlow/src/resolvers/index.js:341-342 | More than one distinct canonical translation holds exactly when two translations differ after trim and lower-case. |
| Consistency.DivergentIsRepeated | Seamless-LinguaFlow/src/resolvers/index.js:339-342 | Divergent translations imply at least two occurrences, so the length test is subsumed. |
| Consistency.Keep | Seamless-LinguaFlow/src/resolvers/index.js:338-346 | The filter keeps exactly the members that pass. |
| Consistency.FindRepeatedSegments | Seamless-LinguaFlow/src/resolvers/index.js:312-349 | Every reported source has ≥ 10 characters, distinct sources and its full occurrence list of translations. That list has ≥ 2 entries that differ after trim and lower-case. |
| Consistency.DivergentIsReported | Seamless-LinguaFlow/src/resolvers/index.js:336-346 | Every source whose paired translations diverge is reported, so agreeing groups are exactly the ones dropped. |
| Escaping.ReplaceAll | Seamless-LinguaFlow/src/resolvers/index.js:1603 | Replacing a character changes the length by (replacement length − 1) per occurrence and introduces no character foreign to the input and replacement. |
| Escaping.EscapeXmlPerChar | Seamless-LinguaFlow/src/resolvers/index.js:1602-1608 | Because `&` is replaced first, the five passes equal escaping each character on its own. Nothing is escaped twice. |
| Escaping.EscapeXmlSafe | Seamless-LinguaFlow/src/resolvers/index.js:1602-1608 | The XML output contains no `<`, `>`, `"` or `'`. |
| Escaping.UnescapeXml | Seamless-LinguaFlow/src/resolvers/index.js:1602-1608 | Decoding the five XML entities gives back the original text, so the escaping loses nothing. |
| Escaping.EscapeHtmlPerChar | Seamless-LinguaFlow/src/resolvers/index.js:1610-1615 | The four HTML passes escape each character on its own and leave apostrophes alone. |
| Escaping.EscapeHtmlSafe | Seamless-LinguaFlow/src/resolvers/index.js:1610-1615 | The HTML output contains no `<`, `>` or `"`. |
| Escaping.UnescapeHtml | Seamless-LinguaFlow/src/resolvers/index.js:1610-1615 | Decoding gives back the original text. |
| Escaping.EscapeCsv | Seamless-LinguaFlow/src/resolvers/index.js:1617-1619 | The output is longer by exactly the number of double quotes. |
| Escaping.CsvQuotesPaired | Seamless-LinguaFlow/src/resolvers/index.js:1618 | Every double quote of the input becomes two. |
| Escaping.UndoubleCsv | Seamless-LinguaFlow/src/resolvers/index.js:1617-1619 | Reading doubled quotes back as single ones gives the original text. |
| Collaboration.PrependCapped | Seamless-LinguaFlow/src/resolvers/index.js:1640-1645 | The new item comes first, followed by the previous log cut to fit. The length is min(old length + 1, cap). |
| Collaboration.ReplayNewestFirst | Seamless-LinguaFlow/src/resolvers/index.js:1640-1645 | Any sequence of writes leaves the `cap` most recent items, newest first. |
| Collaboration.AddComment | Seamless-LinguaFlow/src/resolvers/index.js:1622-1654 | Fails with "Comment text and issue key are required" exactly when either is empty. Otherwise it stores a trimmed comment, with "Unknown User" as the default name, at the head of that issue's log (cap 100). Nothing else changes. |
| Collaboration.LogActivity | Seamless-LinguaFlow/src/resolvers/index.js:1669-1702 | Fails with "Issue key and action are required" exactly when either is empty. Otherwise the details default to the action and the activity goes first in the issue's feed (cap 50). Nothing else changes. |
| Collaboration.LogChange | Seamless-LinguaFlow/src/resolvers/index.js:1757-1792 | Fails with "Issue key and field are required" exactly when either is empty. Otherwise the values default to "", the reason to "User modification", and the change goes first in the issue's history (cap 200). Nothing else changes. |
| Collaboration.CommentsNewestFirst | Seamless-LinguaFlow/src/resolvers/index.js:1638-1645 | An issue's comment log never exceeds 100 and holds the newest comments, newest first. |
| Workflow.IndexOf | Seamless-LinguaFlow/src/frontend/index.jsx:101 | `indexOf` returns the first position of the status, or −1 exactly when it is absent. |
| Workflow.CanAdvanceIff | Seamless-LinguaFlow/src/frontend/index.jsx:127 | `canAdvance` is false exactly when the status is Completed. |
| Workflow.AdvanceMoves | Seamless-LinguaFlow/src/frontend/index.jsx:100-125 | The status changes exactly when it can advance and the saves succeed. A failed save leaves it unchanged. |
| Workflow.AdvanceStep | Seamless-LinguaFlow/src/frontend/index.jsx:100-104 | Each stage steps to the next one, and Completed stays put. |
| Workflow.UnknownStatusRestarts | Seamless-LinguaFlow/src/frontend/index.jsx:101-103 | A status outside the list advances to Pending. |
| Workflow.ReachesCompleted | Seamless-LinguaFlow/src/frontend/index.jsx:100-125 | From any status, five successful advances reach Completed and never move past it. |
| Workflow.StepsFromIn | Seamless-LinguaFlow/src/frontend/index.jsx:100-125 | From stage i, enough steps reach the last stage of any duplicate-free stage list. |
| Report.SeverityIgnoresCase | Seamless-LinguaFlow/src/frontend/index.jsx:692-700 | Severity does not depend on letter case. |
| Report.KeywordAnyCase | Seamless-LinguaFlow/src/frontend/index.jsx:694-695 | "critical", "error" or "incorrect", in any casing, make a block high severity. |
| Report.SeverityMonotone | Seamless-LinguaFlow/src/frontend/index.jsx:692-700 | Adding text on either side never lowers the severity: high > medium > low. |
| Report.CountRoundTrip | Seamless-LinguaFlow/src/frontend/index.jsx:655-656 | The number written as "Found N repeated segment", after a header with no capital F, is the count read back. |
| Report.ParsedCount | Seamless-LinguaFlow/src/frontend/index.jsx:645-679 | A report without the two notices, holding "Found N repeated segment", parses as issues found with count N. |
| Text.DecimalRoundTrip | Seamless-LinguaFlow/src/frontend/index.jsx:656 | `parseInt` of a decimal numeral gives back its number. |
| Report.ExtractRecommendation | Seamless-LinguaFlow/src/frontend/index.jsx:687-690 | The recommendation is non-empty and contains no line break. |
| Report.RecommendationRoundTrip | Seamless-LinguaFlow/src/frontend/index.jsx:687-690 | A recommendation line is read back whole when no occurrence of the marker starts before it. |
| Report.RecommendationDefault | Seamless-LinguaFlow/src/frontend/index.jsx:689 | Without the marker, the recommendation is "Review for consistency". |
| Report.ExtractTranslations | Seamless-LinguaFlow/src/frontend/index.jsx:682-685 | Every extracted translation is non-empty and contains no double quote. |
| Report.TranslationsRoundTrip | Seamless-LinguaFlow/src/frontend/index.jsx:682-685 | Translations written in the report's numbered line format are all read back, in order. |
| Report.TranslationsThen | Seamless-LinguaFlow/src/frontend/index.jsx:682-685 | Translation lines followed by other text give their translations, in order, then whatever the other text gives. |
| Report.ScanFrontFrom | Seamless-LinguaFlow/src/frontend/index.jsx:683 | Every item of a global match list is the capture of a match at some position of the text. |
| Report.StripQuotes | Seamless-LinguaFlow/src/frontend/index.jsx:667 | The result has no quote characters and equals the input when the input had none. |
| Report.StripQuotesAppend | Seamless-LinguaFlow/src/frontend/index.jsx:667 | Removing quotes piece by piece is removing them from the whole. |
| Report.StripQuotesChar | Seamless-LinguaFlow/src/frontend/index.jsx:667 | A quote character is deleted and any other character is kept. With StripQuotesAppend this fixes the result on every string. |
| Report.StripQuotesCounts | Seamless-LinguaFlow/src/frontend/index.jsx:667 | Every quote goes, and every other character stays as often as it occurred. |
| Report.IssueOf | Seamless-LinguaFlow/src/frontend/index.jsx:663-664 | A block yields an issue exactly when it has at least three non-blank lines, and the source has no quotes. |
| IssueBlock.BlockLines | Seamless-LinguaFlow/src/frontend/index.jsx:663-664 | A block in the report's layout has at least three non-blank lines, the first being the quoted source. |
| IssueBlock.BlockTranslations | Seamless-LinguaFlow/src/frontend/index.jsx:682-685 | The translations read from such a block are exactly the ones written into it, in order. |
| IssueBlock.BlockRecommendation | Seamless-LinguaFlow/src/frontend/index.jsx:687-690 | The recommendation read from such a block is the one written into it. |
| IssueBlock.IssueRoundTrip | Seamless-LinguaFlow/src/frontend/index.jsx:662-690 | A block made of a quoted source line, numbered translation lines and a recommendation line reads back as the issue it was written from. That issue has the source without its quotes, every translation in order, the recommendation and the block's severity. The source, translations and recommendation must not contain the markers that would be read in their place. |
| Report.PresentSound | Seamless-LinguaFlow/src/frontend/index.jsx:662-673 | Each collected value was read from the block whose index it carries. |
| Report.PresentComplete | Seamless-LinguaFlow/src/frontend/index.jsx:662-673 | Every block that yields a value contributes it under its own index. |
| Report.ParseConsistencyResults | Seamless-LinguaFlow/src/frontend/index.jsx:645-679 | The three outcomes are characterised both ways: no issues (empty or "No repeated segments found"), disabled, and issues found. Only the last carries a count and issues, and every issue id is a block index. |
| Report.IssueFromBlock | Seamless-LinguaFlow/src/frontend/index.jsx:660-673 | Each issue is the one read from the block its id names. |
| Report.IssuesInOrder | Seamless-LinguaFlow/src/frontend/index.jsx:662-673 | Issues come in block order, so ids strictly increase. |
| Report.BlocksGiveIssues | Seamless-LinguaFlow/src/frontend/index.jsx:662-673 | Every block with at least three non-blank lines is reported under its index. |
| Text.SplitOnJoin | Seamless-LinguaFlow/src/frontend/index.jsx:660 | Splitting on the source bullet loses nothing: joining the blocks gives the report back. |
| Spelling.ApplySpellingSuggestion | Seamless-LinguaFlow/src/frontend/index.jsx:217-234 | An index with no error changes nothing. Otherwise the text is the prefix before `start`, then the suggestion, then the rest from `end`, with `substring` clamping. Exactly that error is removed and the others keep their order. |
| Spelling.SuggestionReplacesWord | Seamless-LinguaFlow/src/frontend/index.jsx:221-223 | For in-range offsets, the text around the word is kept and the length changes by the difference of the two words. |
| Spelling.SameWordIsIdentity | Seamless-LinguaFlow/src/frontend/index.jsx:221-223 | Suggesting the flagged word itself gives back the same text. |
| Spelling.DropIndexSplice | Seamless-LinguaFlow/src/frontend/index.jsx:228 | The index filter removes exactly the element at that index. |
| Spelling.HighlightedText | Seamless-LinguaFlow/src/frontend/index.jsx:236-239 | With real-time checking off, or no errors, the text is returned unchanged. |
| Rovo.NormalizeLanguage | Seamless-LinguaFlow/src/rovo.js:131-164 | The result is a listed language name or the input itself, and it has the same lower-case form as the input. |
| Rovo.LookupLanguage | Seamless-LinguaFlow/src/rovo.js:132-163 | A lookup succeeds exactly when some listed name lower-cases to the key, and it returns such a name. |
| Rovo.NormalizeIdempotent | Seamless-LinguaFlow/src/rovo.js:131-164 | Normalising twice is normalising once. |
| Rovo.NormalizeKnown | Seamless-LinguaFlow/src/rovo.js:163 | A known name in any casing becomes a listed name. |
| Rovo.NormalizeUnknown | Seamless-LinguaFlow/src/rovo.js:163 | A name that matches no key in any casing comes back unchanged. |
| Rovo.NormalizeSpanish | Seamless-LinguaFlow/src/rovo.js:133-163 | "spanish" in any casing becomes "Spanish". |
| Rovo.NormalizeLanguageAsWritten | Seamless-LinguaFlow/src/rovo.js:163 | The plain-object lookup reads an inherited member exactly for "constructor" or "__proto__", in any casing. |
| Rovo.ConstructorIsNotKept | Seamless-LinguaFlow/src/rovo.js:163 | For "constructor", the lookup as written yields the inherited member, while the corrected lookup keeps the input. |
| Rovo.AsWrittenAgrees | Seamless-LinguaFlow/src/rovo.js:163 | Away from those two keys, the written and corrected lookups agree. |
| Rovo.ExtractExportFormat | Seamless-LinguaFlow/src/rovo.js:622-630 | Returns a listed format named in the lower-cased message, or nothing exactly when none is named. |
| Rovo.ExportFormatOrder | Seamless-LinguaFlow/src/rovo.js:623-628 | Format k is chosen exactly when it is named and no earlier format is. |
| Rovo.XliffFirst | Seamless-LinguaFlow/src/rovo.js:623-626 | A message naming "xliff" in any casing yields xliff. |
| Rovo.KeyFront | Seamless-LinguaFlow/src/rovo.js:599 | A match at the start of the text is an issue key (2–10 capitals, a hyphen, digits) that is a prefix of the text, and its digits are taken in full. No match means no prefix of the text is an issue key. |
| Rovo.ExtractIssueKey | Seamless-LinguaFlow/src/rovo.js:598-602 | The result is the leftmost issue key of the message, with its digits taken in full. There is no result exactly when no part of the message is an issue key. |
| Rovo.IssueKeyRoundTrip | Seamless-LinguaFlow/src/rovo.js:598-602 | A key written after capital-free text, and not followed by a digit, is the key found. |
| Rovo.NoCapitalsNoKey | Seamless-LinguaFlow/src/rovo.js:599 | A message without capitals has no key, so lower-case keys are not recognised. |
| Text.FindFront | Seamless-LinguaFlow/src/rovo.js:600-601 | The search returns the leftmost position where the pattern matches, or reports that there is none. |
| Rovo.Route | Seamless-LinguaFlow/src/rovo.js:240-277 | The router falls through (null) exactly when no group's keyword occurs. |
| Rovo.RouteOrder | Seamless-LinguaFlow/src/rovo.js:242-276 | Handler k is chosen exactly when one of its keywords occurs and none of an earlier group's does. |
| Rovo.ConsistencyFirst | Seamless-LinguaFlow/src/rovo.js:242 | A message mentioning consistency goes to the consistency analysis, whatever else it mentions. |
| Rovo.FirstPattern | Seamless-LinguaFlow/src/rovo.js:102-121 | The patterns are tried in order and the first that matches is used. |
| Rovo.ParseTranslationRequest | Seamless-LinguaFlow/src/rovo.js:87-124 | The result is null exactly when no pattern matches. |
| Rovo.RequestFromFirstMatch | Seamless-LinguaFlow/src/rovo.js:102-121 | The first matching pattern builds the request. It has a source language exactly when that pattern is the convert-from-to form, and both languages are normalised. |

## Left out

- Forge storage I/O, resolver registration and the read-modify-write race between concurrent saves. Storage is a value threaded through one sequential caller.
- Every call to the AI service is left out:
  - translation;
  - text checking;
  - AI spelling;
  - style compliance;
  - the narrative parts of the consistency analysis;
  - the agent's `translateText`.
- The file importers and exporters (XLIFF, TMX, PO, CSV templates and regex extraction, base64) are left out. They are template and I/O code that stamps the current date and calls the AI.
- `generateTMId`/`generateId` and `new Date()` are not modelled. Ids and timestamps are caller-supplied `nat`/`int` values.
- The eviction sort is not modelled on date strings. It compares integer timestamps, not parsed `new Date(...)` values.
- React rendering, hooks, timers (the delayed re-check after a suggestion), `FileReader` and DOM downloads are left out.
- The agent's canned responses and the other handlers that only format text are left out.
- `performBasicSpellCheck` (a fixed-dictionary lookup) is not part of this model.
- Rovo.ParseTranslationRequest: the regular-expression engine is a `matcher` parameter. Only the order in which the four patterns are tried and the from/no-from branch are modelled. `extractSearchTerm` is not part of this model.
- Spelling.HighlightedText: only the early return is modelled. The markup built for flagged words is a parameter.
- Spelling.ApplySpellingSuggestion: the remaining errors keep their old offsets, as in the code. Shifting them is not modelled because the code does not do it.
- Text.Lower: `toLowerCase` is modelled for ASCII letters only. Strings are sequences of characters, not UTF-16 code units, so lengths of text outside the Basic Multilingual Plane may differ from JavaScript's.
- Similarity.Score: `Math.round` of the floating-point quotient is modelled as the exact integer `(200(L−d)+L) div 2L`. Floating-point error at exact halves is not modelled.
- Sorting.SortDesc: the search comparator is modelled as a total order on (score, rank, usage count). Two different unrecognised confidence labels compare equal in the code without looking at the usage count. The model breaks such ties by usage count.
- TranslationMemory.Rank: a confidence label naming an inherited object member, such as "constructor", gives a function rather than a number in the code's rank lookup. The model ranks every unrecognised label 0.
- Consistency.FindRepeatedSegments: the result is modelled as a list of groups in first-occurrence order. The code builds an object, where sources that look like array indices would be enumerated first.
- Report.ScanFront: a pattern that could match the empty string at the very end of the text is not considered. None of the modelled patterns can match the empty string.
- Report.ParseCount: `parseInt` of a numeral too large for a double is not modelled. Numbers are unbounded.
- Workflow.Advance: the two saves are one boolean outcome. The preferences written alongside the status are not modelled.

## Findings

| source | as written | input that shows it | evidently intended | confidence | as-written member | corrected member |
|---|---|---|---|---|---|---|
| Seamless-LinguaFlow/src/rovo.js:163 | `languageMap[language.toLowerCase()] \|\| language` indexes a plain object literal, so keys inherited from the object prototype are found too | the language word "Constructor" (for example in "translate 'hi' to Constructor") yields the inherited `Object` constructor function instead of a language name | unknown names, including "constructor" and "__proto__", come back unchanged | not executed | Rovo.NormalizeLanguageAsWritten, Rovo.ConstructorIsNotKept | Rovo.NormalizeLanguage, Rovo.NormalizeIdempotent, Rovo.AsWrittenAgrees |

Behaviour of the code that the model keeps as written:

- A reported group carries the full occurrence list of translations, duplicates included.
- An upgrade on a duplicate write replaces the whole record, including a fresh id and the new source casing.
- Eviction re-sorts the whole collection newest first.
- A translation-memory write does no validation: an empty source or target is trimmed and stored like any other (`SaveFresh`, `SaveDuplicate`).
