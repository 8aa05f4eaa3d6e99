/** The translation-memory engine of the resolvers: ranked exact/fuzzy search,
    conflict-resolving writes with bounded retention, and consistency decisions
    that also write an approved memory entry. Storage is an explicit value
    passed in and returned; ids and timestamps are supplied by the caller. */
module TranslationMemory {
  import opened Wrappers
  import opened Text
  import opened Sorting
  import Similarity

  // ---------------------------------------------------------------------------
  // Records

  /** The confidence tier stored with an entry. Labels other than the three
      known ones are kept as they are and rank 0 (the `|| 0` fallback). */
  datatype Confidence = UserApproved | AiGenerated | Auto | Unrecognised(name: string)

  /** `confidenceOrder[confidence] || 0`. */
  function Rank(c: Confidence): nat {
    match c
    case UserApproved => 3
    case AiGenerated => 2
    case Auto => 1
    case Unrecognised(_) => 0
  }

  /** The label as stored. */
  function Label(c: Confidence): string {
    match c
    case UserApproved => "user-approved"
    case AiGenerated => "ai-generated"
    case Auto => "auto"
    case Unrecognised(n) => n
  }

  /** Reads a stored label back. */
  function ParseConfidence(text: string): (c: Confidence)
    ensures Label(c) == text
  {
    if text == "user-approved" then UserApproved
    else if text == "ai-generated" then AiGenerated
    else if text == "auto" then Auto
    else Unrecognised(text)
  }

  /** Labels and confidences convert back and forth, except that an
      unrecognised confidence carrying a known label reads back as that tier. */
  lemma ConfidenceRoundTrip(c: Confidence)
    ensures (c.Unrecognised? && c.name in {"user-approved", "ai-generated", "auto"})
            || ParseConfidence(Label(c)) == c
    ensures Rank(ParseConfidence(Label(c))) >= Rank(c)
  {
  }

  type Id = nat

  datatype Entry = Entry(
    id: Id,
    source: string,
    target: string,
    sourceLanguage: string,
    targetLanguage: string,
    confidence: Confidence,
    context: string,
    timestamp: int,
    usageCount: nat)

  datatype Decision = Decision(
    id: Id,
    sourceSegment: string,
    chosenTranslation: string,
    rejectedTranslations: seq<string>,
    sourceLanguage: string,
    targetLanguage: string,
    reasoning: string,
    timestamp: int)

  /** The two persisted namespaces, addressed by the source's string keys. */
  datatype Store = Store(tm: map<string, seq<Entry>>, decisions: map<string, seq<Decision>>)

  const TmCapacity: nat := 1000
  const DecisionCapacity: nat := 500
  const SearchLimit: nat := 10
  const FuzzyThreshold: int := 70

  function TmKey(sourceLanguage: string, targetLanguage: string): string {
    "tm-" + sourceLanguage + "-" + targetLanguage
  }

  function DecisionKey(sourceLanguage: string, targetLanguage: string): string {
    "consistency-decisions-" + sourceLanguage + "-" + targetLanguage
  }

  /** `storage.get(key) || []`. */
  function Entries(store: Store, sourceLanguage: string, targetLanguage: string): seq<Entry> {
    var key := TmKey(sourceLanguage, targetLanguage);
    if key in store.tm then store.tm[key] else []
  }

  function Decisions(store: Store, sourceLanguage: string, targetLanguage: string): seq<Decision> {
    var key := DecisionKey(sourceLanguage, targetLanguage);
    if key in store.decisions then store.decisions[key] else []
  }

  /** The storage key joins the two languages with a hyphen, so pairs whose
      names contain hyphens can share one collection. */
  lemma TmKeyCollision()
    ensures TmKey("en-US", "fr") == TmKey("en", "US-fr")
  {
  }

  // ---------------------------------------------------------------------------
  // Search

  datatype MatchType = Exact | Fuzzy

  /** A search hit: the entry with its match type and score. */
  datatype Match = Match(entry: Entry, matchType: MatchType, matchScore: int)

  /** `s.toLowerCase().trim()`. */
  function Normalize(s: string): string {
    Trim(Lower(s))
  }

  /** What the search loop records for one entry, if anything. */
  function Classify(query: string, e: Entry, fuzzy: bool): (r: Option<Match>)
    ensures r.Some? ==> r.value.entry == e && Admissible(query, fuzzy, r.value)
    ensures r.None? <==>
      Normalize(e.source) != Normalize(query) &&
      (!fuzzy || Similarity.Score(Normalize(query), Normalize(e.source)) < FuzzyThreshold)
  {
    var q := Normalize(query);
    var s := Normalize(e.source);
    if s == q then Some(Match(e, Exact, 100))
    else if fuzzy then
      var score := Similarity.Score(q, s);
      if score >= FuzzyThreshold then Some(Match(e, Fuzzy, score)) else None
    else None
  }

  /** A hit the search may report: an exact match scoring 100, or, only when
      fuzzy matching is on, a different source scoring at least 70. */
  ghost predicate Admissible(query: string, fuzzy: bool, m: Match) {
    var q := Normalize(query);
    var s := Normalize(m.entry.source);
    || (m.matchType == Exact && s == q && m.matchScore == 100)
    || (m.matchType == Fuzzy && fuzzy && s != q
        && m.matchScore == Similarity.Score(q, s) && m.matchScore >= FuzzyThreshold)
  }

  /** The unsorted hit list, in storage order. */
  function Candidates(query: string, entries: seq<Entry>, fuzzy: bool): (r: seq<Match>)
    ensures forall m :: m in r ==> Admissible(query, fuzzy, m) && m.entry in entries
    ensures forall e :: e in entries && Classify(query, e, fuzzy).Some? ==>
      Classify(query, e, fuzzy).value in r
    decreases |entries|
  {
    if |entries| == 0 then []
    else
      var rest := Candidates(query, entries[1..], fuzzy);
      assert forall e :: e in entries ==> e == entries[0] || e in entries[1..];
      match Classify(query, entries[0], fuzzy)
      case Some(m) => [m] + rest
      case None => rest
  }

  /** The hits for two collections one after the other are the first one's
      hits, then the second one's: with `CandidatesOne` this fixes the list as
      one hit at most per entry, in storage order. */
  lemma {:induction false} CandidatesAppend(query: string, a: seq<Entry>, b: seq<Entry>, fuzzy: bool)
    ensures Candidates(query, a + b, fuzzy) == Candidates(query, a, fuzzy) + Candidates(query, b, fuzzy)
    decreases |a|
  {
    if |a| == 0 {
      assert a + b == b;
    } else {
      assert (a + b)[0] == a[0] && (a + b)[1..] == a[1..] + b;
      CandidatesAppend(query, a[1..], b, fuzzy);
      CandidatesFirst(query, a, fuzzy);
      CandidatesFirst(query, a + b, fuzzy);
      AppendAssoc(Hit(query, a[0], fuzzy), Candidates(query, a[1..], fuzzy), Candidates(query, b, fuzzy));
    }
  }

  /** The hit an entry gives, as a list of zero or one. */
  function Hit(query: string, e: Entry, fuzzy: bool): seq<Match> {
    if Classify(query, e, fuzzy).Some? then [Classify(query, e, fuzzy).value] else []
  }

  /** The first entry's hit comes first. */
  lemma CandidatesFirst(query: string, entries: seq<Entry>, fuzzy: bool)
    requires |entries| > 0
    ensures Candidates(query, entries, fuzzy) == Hit(query, entries[0], fuzzy) + Candidates(query, entries[1..], fuzzy)
  {
  }

  lemma AppendAssoc<T>(x: seq<T>, y: seq<T>, z: seq<T>)
    ensures x + (y + z) == (x + y) + z
  {
  }

  /** A single entry gives its own hit when it has one, and nothing otherwise. */
  lemma CandidatesOne(query: string, e: Entry, fuzzy: bool)
    ensures Candidates(query, [e], fuzzy)
         == if Classify(query, e, fuzzy).Some? then [Classify(query, e, fuzzy).value] else []
  {
  }

  /** Score first, then confidence rank, then usage count, biggest first. */
  function MatchKey(m: Match): SortKey {
    SortKey(m.matchScore, Rank(m.entry.confidence), m.entry.usageCount)
  }

  /** `searchTranslationMemory`: the ten best hits for the query in the
      collection of the language pair. The store is only read. */
  function Search(store: Store, query: string, sourceLanguage: string, targetLanguage: string,
                  fuzzy: bool): (r: seq<Match>)
    ensures |r| <= SearchLimit
    ensures forall m :: m in r ==>
      Admissible(query, fuzzy, m) && m.entry in Entries(store, sourceLanguage, targetLanguage)
    ensures SortedDesc(r, MatchKey)
    ensures multiset(r) <= multiset(Candidates(query, Entries(store, sourceLanguage, targetLanguage), fuzzy))
  {
    var cands := Candidates(query, Entries(store, sourceLanguage, targetLanguage), fuzzy);
    var ranked := SortDesc(cands, MatchKey);
    assert forall m :: m in ranked ==> m in multiset(cands);
    TakeSorted(ranked, MatchKey, SearchLimit);
    var r := Take(ranked, SearchLimit);
    assert ranked == r + ranked[|r|..];
    r
  }

  /** Nothing that qualifies is lost unless ten hits ranked at least as high were kept. */
  lemma SearchKeepsBest(store: Store, query: string, sourceLanguage: string, targetLanguage: string,
                        fuzzy: bool, e: Entry)
    requires e in Entries(store, sourceLanguage, targetLanguage)
    requires Classify(query, e, fuzzy).Some?
    ensures var r := Search(store, query, sourceLanguage, targetLanguage, fuzzy);
            var m := Classify(query, e, fuzzy).value;
            m in r || (|r| == SearchLimit && forall i :: 0 <= i < |r| ==> !Above(MatchKey(m), MatchKey(r[i])))
  {
    var cands := Candidates(query, Entries(store, sourceLanguage, targetLanguage), fuzzy);
    var ranked := SortDesc(cands, MatchKey);
    var m := Classify(query, e, fuzzy).value;
    assert m in multiset(ranked);
    var r := Search(store, query, sourceLanguage, targetLanguage, fuzzy);
    if m !in r {
      assert |ranked| > SearchLimit;
      assert r == Take(ranked, SearchLimit) == ranked[..SearchLimit];
      var k :| 0 <= k < |ranked| && ranked[k] == m;
      assert k >= SearchLimit;
      forall i | 0 <= i < |r| ensures !Above(MatchKey(m), MatchKey(r[i])) {
        assert r[i] == ranked[i];
      }
    }
  }

  /** With fuzzy matching off, an empty (or all-blank) query finds only
      entries whose normalised source is empty. */
  lemma SearchEmptyQuery(store: Store, query: string, sourceLanguage: string, targetLanguage: string)
    requires Normalize(query) == ""
    ensures forall m :: m in Search(store, query, sourceLanguage, targetLanguage, false) ==>
      m.matchType == Exact && m.matchScore == 100 && Normalize(m.entry.source) == ""
  {
  }

  // ---------------------------------------------------------------------------
  // Writes

  /** The fields `saveToTranslationMemory` receives. */
  datatype EntryRequest = EntryRequest(
    source: string,
    target: string,
    sourceLanguage: string,
    targetLanguage: string,
    confidence: Confidence,
    context: string,
    timestamp: int)

  /** The record built for a write: trimmed text, usage count 0, new id. */
  function NewEntry(req: EntryRequest, id: Id): Entry {
    Entry(id, Trim(req.source), Trim(req.target), req.sourceLanguage, req.targetLanguage,
          req.confidence, req.context, req.timestamp, 0)
  }

  /** What makes two entries duplicates: the lower-cased source and both languages. */
  function SourceKey(e: Entry): (string, string, string) {
    (Lower(e.source), e.sourceLanguage, e.targetLanguage)
  }

  /** The first index at or after `from` holding a duplicate of `incoming`. */
  function FindDuplicate(entries: seq<Entry>, incoming: Entry, from: nat): (r: Option<nat>)
    ensures r.Some? ==> from <= r.value < |entries| && SourceKey(entries[r.value]) == SourceKey(incoming)
    ensures r.Some? ==> forall j :: from <= j < r.value ==> SourceKey(entries[j]) != SourceKey(incoming)
    ensures r.None? ==> forall j :: from <= j < |entries| ==> SourceKey(entries[j]) != SourceKey(incoming)
    decreases |entries| - from
  {
    if from >= |entries| then None
    else if SourceKey(entries[from]) == SourceKey(incoming) then Some(from)
    else FindDuplicate(entries, incoming, from + 1)
  }

  /** `shouldUpdateEntry`: only a strictly higher confidence rank replaces content. */
  predicate ShouldUpdateEntry(existing: Entry, incoming: Entry) {
    Rank(incoming.confidence) > Rank(existing.confidence)
  }

  /** The conflict resolver: a duplicate either takes over the existing slot
      (higher confidence) or only bumps its usage count; anything else is appended. */
  function Merge(entries: seq<Entry>, incoming: Entry): (r: seq<Entry>)
    ensures |r| == |entries| || r == entries + [incoming]
  {
    match FindDuplicate(entries, incoming, 0)
    case Some(i) =>
      var existing := entries[i];
      if ShouldUpdateEntry(existing, incoming) then entries[i := incoming.(usageCount := existing.usageCount + 1)]
      else entries[i := existing.(usageCount := existing.usageCount + 1)]
    case None => entries + [incoming]
  }

  function EntryAge(e: Entry): SortKey {
    SortKey(e.timestamp, 0, 0)
  }

  /** `saveToTranslationMemory`: merge the new entry into its language pair's
      collection, then keep the newest 1000. */
  function SaveToTranslationMemory(store: Store, req: EntryRequest, id: Id): (r: Store)
    ensures var key := TmKey(req.sourceLanguage, req.targetLanguage);
            key in r.tm && |r.tm[key]| <= TmCapacity
    ensures r.decisions == store.decisions
    ensures forall k :: k != TmKey(req.sourceLanguage, req.targetLanguage) ==>
      (k in r.tm <==> k in store.tm) && (k in r.tm ==> r.tm[k] == store.tm[k])
  {
    var key := TmKey(req.sourceLanguage, req.targetLanguage);
    var merged := Merge(Entries(store, req.sourceLanguage, req.targetLanguage), NewEntry(req, id));
    store.(tm := store.tm[key := Retain(merged, EntryAge, TmCapacity)])
  }

  /** A write to a source already present (case-insensitively, same languages)
      keeps the collection length, adds exactly one use to that entry, replaces
      its content only on strictly higher confidence, and leaves every other
      entry alone. */
  lemma SaveDuplicate(store: Store, req: EntryRequest, id: Id, i: nat)
    requires |Entries(store, req.sourceLanguage, req.targetLanguage)| <= TmCapacity
    requires FindDuplicate(Entries(store, req.sourceLanguage, req.targetLanguage), NewEntry(req, id), 0) == Some(i)
    ensures var before := Entries(store, req.sourceLanguage, req.targetLanguage);
            var after := Entries(SaveToTranslationMemory(store, req, id), req.sourceLanguage, req.targetLanguage);
            && |after| == |before|
            && after[i].usageCount == before[i].usageCount + 1
            && (Rank(req.confidence) > Rank(before[i].confidence) ==>
                  after[i] == NewEntry(req, id).(usageCount := before[i].usageCount + 1))
            && (Rank(req.confidence) <= Rank(before[i].confidence) ==>
                  after[i] == before[i].(usageCount := before[i].usageCount + 1))
            && Rank(after[i].confidence) == Max(Rank(before[i].confidence), Rank(req.confidence))
            && forall j :: 0 <= j < |before| && j != i ==> after[j] == before[j]
  {
  }

  /** A write of a source not yet present appends one entry with trimmed text
      and usage count 0 while there is room. */
  lemma SaveFresh(store: Store, req: EntryRequest, id: Id)
    requires |Entries(store, req.sourceLanguage, req.targetLanguage)| < TmCapacity
    requires FindDuplicate(Entries(store, req.sourceLanguage, req.targetLanguage), NewEntry(req, id), 0).None?
    ensures var before := Entries(store, req.sourceLanguage, req.targetLanguage);
            var after := Entries(SaveToTranslationMemory(store, req, id), req.sourceLanguage, req.targetLanguage);
            && after == before + [NewEntry(req, id)]
            && after[|before|].source == Trim(req.source)
            && after[|before|].target == Trim(req.target)
            && after[|before|].usageCount == 0
  {
  }

  /** When a write overflows the cap, every evicted entry is at most as new as every kept one. */
  lemma SaveEvictsOldest(store: Store, req: EntryRequest, id: Id, kept: Entry, evicted: Entry)
    requires kept in Entries(SaveToTranslationMemory(store, req, id), req.sourceLanguage, req.targetLanguage)
    requires evicted in multiset(Merge(Entries(store, req.sourceLanguage, req.targetLanguage), NewEntry(req, id)))
                        - multiset(Entries(SaveToTranslationMemory(store, req, id), req.sourceLanguage, req.targetLanguage))
    ensures evicted.timestamp <= kept.timestamp
  {
    var merged := Merge(Entries(store, req.sourceLanguage, req.targetLanguage), NewEntry(req, id));
    RetainKeepsBiggest(merged, EntryAge, TmCapacity, kept, evicted);
  }

  /** No two entries of a collection are duplicates of each other. */
  ghost predicate NoDuplicateSources(entries: seq<Entry>) {
    DistinctBy(entries, SourceKey)
  }

  /** Writes keep the no-duplicates invariant, and (without eviction) leave
      exactly one entry for the written source. */
  lemma SavePreservesNoDuplicates(store: Store, req: EntryRequest, id: Id)
    requires NoDuplicateSources(Entries(store, req.sourceLanguage, req.targetLanguage))
    ensures NoDuplicateSources(Entries(SaveToTranslationMemory(store, req, id), req.sourceLanguage, req.targetLanguage))
  {
    var before := Entries(store, req.sourceLanguage, req.targetLanguage);
    var incoming := NewEntry(req, id);
    var merged := Merge(before, incoming);
    match FindDuplicate(before, incoming, 0) {
      case Some(i) =>
        forall a, b | 0 <= a < b < |merged| ensures SourceKey(merged[a]) != SourceKey(merged[b]) {
          assert SourceKey(merged[a]) == SourceKey(before[a]);
          assert SourceKey(merged[b]) == SourceKey(before[b]);
        }
      case None =>
        forall a, b | 0 <= a < b < |merged| ensures SourceKey(merged[a]) != SourceKey(merged[b]) {
          if b == |before| {
            assert merged[b] == incoming;
          }
        }
    }
    RetainKeepsDistinct(merged, EntryAge, TmCapacity, SourceKey);
  }

  /** After a write that needs no eviction, the written source has an entry,
      and it has at least the written confidence. */
  lemma SaveLeavesEntry(store: Store, req: EntryRequest, id: Id) returns (k: nat)
    requires |Entries(store, req.sourceLanguage, req.targetLanguage)| < TmCapacity
    ensures var after := Entries(SaveToTranslationMemory(store, req, id), req.sourceLanguage, req.targetLanguage);
            && k < |after| && SourceKey(after[k]) == SourceKey(NewEntry(req, id))
            && Rank(after[k].confidence) >= Rank(req.confidence)
  {
    var before := Entries(store, req.sourceLanguage, req.targetLanguage);
    var after := Entries(SaveToTranslationMemory(store, req, id), req.sourceLanguage, req.targetLanguage);
    match FindDuplicate(before, NewEntry(req, id), 0) {
      case Some(i) =>
        SaveDuplicate(store, req, id, i);
        k := i;
      case None =>
        SaveFresh(store, req, id);
        k := |before|;
    }
  }

  // ---------------------------------------------------------------------------
  // Consistency decisions

  /** The fields `saveConsistencyDecision` receives; missing rejected
      translations default to the empty list. */
  datatype DecisionRequest = DecisionRequest(
    sourceSegment: string,
    chosenTranslation: string,
    rejectedTranslations: Option<seq<string>>,
    sourceLanguage: string,
    targetLanguage: string,
    reasoning: string,
    timestamp: int)

  function NewDecision(req: DecisionRequest, id: Id): Decision {
    Decision(id, Trim(req.sourceSegment), Trim(req.chosenTranslation),
             req.rejectedTranslations.GetOr([]), req.sourceLanguage, req.targetLanguage,
             req.reasoning, req.timestamp)
  }

  /** The memory write every decision also performs. */
  function ApprovalRequest(req: DecisionRequest): EntryRequest {
    EntryRequest(req.sourceSegment, req.chosenTranslation, req.sourceLanguage, req.targetLanguage,
                 UserApproved, "consistency-decision", req.timestamp)
  }

  function DecisionAge(d: Decision): SortKey {
    SortKey(d.timestamp, 0, 0)
  }

  /** `saveConsistencyDecision`: append the decision, keep the newest 500,
      then write the chosen translation to the memory as user-approved. */
  function SaveConsistencyDecision(store: Store, req: DecisionRequest, decisionId: Id, entryId: Id): (r: Store)
    ensures var key := DecisionKey(req.sourceLanguage, req.targetLanguage);
            key in r.decisions && |r.decisions[key]| <= DecisionCapacity
    ensures forall k :: k != DecisionKey(req.sourceLanguage, req.targetLanguage) ==>
      (k in r.decisions <==> k in store.decisions) && (k in r.decisions ==> r.decisions[k] == store.decisions[k])
    ensures |Entries(r, req.sourceLanguage, req.targetLanguage)| <= TmCapacity
  {
    SaveToTranslationMemory(StoreDecision(store, req, decisionId), ApprovalRequest(req), entryId)
  }

  /** The first half of a decision: the decision list grows, the memory is untouched. */
  function StoreDecision(store: Store, req: DecisionRequest, decisionId: Id): (r: Store)
    ensures r.tm == store.tm
  {
    var key := DecisionKey(req.sourceLanguage, req.targetLanguage);
    var decisions := Decisions(store, req.sourceLanguage, req.targetLanguage) + [NewDecision(req, decisionId)];
    store.(decisions := store.decisions[key := Retain(decisions, DecisionAge, DecisionCapacity)])
  }

  /** While there is room, the decision is appended with trimmed text. */
  lemma DecisionAppended(store: Store, req: DecisionRequest, decisionId: Id, entryId: Id)
    requires |Decisions(store, req.sourceLanguage, req.targetLanguage)| < DecisionCapacity
    ensures var after := Decisions(SaveConsistencyDecision(store, req, decisionId, entryId),
                                 req.sourceLanguage, req.targetLanguage);
            && after == Decisions(store, req.sourceLanguage, req.targetLanguage) + [NewDecision(req, decisionId)]
            && after[|after| - 1].sourceSegment == Trim(req.sourceSegment)
            && after[|after| - 1].chosenTranslation == Trim(req.chosenTranslation)
  {
  }

  /** When a decision overflows the cap, every evicted decision is at most as new as every kept one. */
  lemma DecisionEvictsOldest(store: Store, req: DecisionRequest, decisionId: Id, entryId: Id,
                             kept: Decision, evicted: Decision)
    requires kept in Decisions(SaveConsistencyDecision(store, req, decisionId, entryId),
                               req.sourceLanguage, req.targetLanguage)
    requires evicted in multiset(Decisions(store, req.sourceLanguage, req.targetLanguage) + [NewDecision(req, decisionId)])
                        - multiset(Decisions(SaveConsistencyDecision(store, req, decisionId, entryId),
                                             req.sourceLanguage, req.targetLanguage))
    ensures evicted.timestamp <= kept.timestamp
  {
    var grown := Decisions(store, req.sourceLanguage, req.targetLanguage) + [NewDecision(req, decisionId)];
    assert Decisions(SaveConsistencyDecision(store, req, decisionId, entryId), req.sourceLanguage, req.targetLanguage)
        == Retain(grown, DecisionAge, DecisionCapacity);
    RetainKeepsBiggest(grown, DecisionAge, DecisionCapacity, kept, evicted);
  }

  /** After a decision (with room in the memory), the memory holds a
      user-approved entry for the decided source segment. */
  lemma DecisionRecordsApproval(store: Store, req: DecisionRequest, decisionId: Id, entryId: Id)
    requires |Entries(store, req.sourceLanguage, req.targetLanguage)| < TmCapacity
    ensures var after := Entries(SaveConsistencyDecision(store, req, decisionId, entryId),
                               req.sourceLanguage, req.targetLanguage);
            exists k :: 0 <= k < |after| && Lower(after[k].source) == Lower(Trim(req.sourceSegment))
                        && after[k].confidence == UserApproved
  {
    var stored := StoreDecision(store, req, decisionId);
    assert Entries(stored, req.sourceLanguage, req.targetLanguage) == Entries(store, req.sourceLanguage, req.targetLanguage);
    var k := SaveLeavesEntry(stored, ApprovalRequest(req), entryId);
    var after := Entries(SaveToTranslationMemory(stored, ApprovalRequest(req), entryId), req.sourceLanguage, req.targetLanguage);
    assert Lower(after[k].source) == Lower(Trim(req.sourceSegment));
    assert after[k].confidence == UserApproved;
  }
}
