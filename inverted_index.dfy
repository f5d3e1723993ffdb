/** The InvertedIndex class of InvertedIndex.java: the positional index of a corpus, its
    stemmed variant, and the result computations of its searches. */
module InvertedIndexing {
  import opened Wrappers
  import opened Text
  import opened Postings
  import StopWords

  /** A NullPointerException, with the source line that dereferences null. */
  datatype Fault = NullPointer(line: nat)

  /** The outcome of the three passes of searchWordsStemmed: the conjunction of the query
      words, the result of the stemmed pass, and the files of the latter missing from the former. */
  datatype StemmedSearch = StemmedSearch(results: Option<seq<nat>>, stemResults: seq<nat>, otherResults: seq<nat>)

  /** File d is in the list of every query word that is not a stop word. */
  predicate InAll(index: Index, stopList: map<int, string>, words: seq<string>, d: nat) {
    forall t | t in words && Lower(t) !in stopList.Values :: Lower(t) in index && d in Docs(index[Lower(t)])
  }

  /** Membership in stemResults as written: every stem is a key, and the file is in the
      list of the LAST stem and, from two stems on, in the raw results. */
  predicate InStemResultsAsWritten(stems: seq<string>, sidx: Index, results: Option<seq<nat>>, d: nat) {
    && stems != []
    && (forall s | s in stems :: s in sidx)
    && d in Docs(sidx[stems[|stems| - 1]])
    && (|stems| >= 2 ==> results.Some? && d in results.value)
  }

  /** Membership in stemResults as intended: the file is in the list of every stem. */
  predicate InStemResultsIntended(stems: seq<string>, sidx: Index, d: nat) {
    stems != [] && forall s | s in stems :: s in sidx && d in Docs(sidx[s])
  }

  /** File d of the corpus holds the term t. */
  predicate Holds(corpus: seq<Document>, d: nat, t: string)
    requires d < |corpus|
  {
    exists j | 0 <= j < |corpus[d].tokens| :: Normalize(corpus[d].tokens[j]) == t
  }

  /** On the index of the corpus, a term that is in the index's list of t names file d
      exactly when one of the file's tokens normalises to t. */
  lemma InListIffHolds(index: Index, corpus: seq<Document>, stopList: map<int, string>, t: string, d: nat)
    requires IsIndexOf(index, corpus, stopList) && d < |corpus|
    requires IsTerm(t, stopList)
    ensures (t in index && d in Docs(index[t])) <==> Holds(corpus, d, t)
  {
    IndexMeaning(index, corpus, stopList, t);
    if t in index && d in Docs(index[t]) {
      var p :| p in index[t] && p.doc == d;
      assert Normalize(corpus[d].tokens[p.pos]) == t;
    }
    if Holds(corpus, d, t) {
      var j :| 0 <= j < |corpus[d].tokens| && Normalize(corpus[d].tokens[j]) == t;
      assert Posting(d, j) in index[t];
    }
  }

  /** On the index of the corpus, the conjunction of normalised query words keeps file d
      exactly when the file holds every one of them that is not a stop word. */
  lemma InAllMeaning(index: Index, corpus: seq<Document>, stopList: map<int, string>, words: seq<string>, d: nat)
    requires IsIndexOf(index, corpus, stopList) && d < |corpus|
    requires forall k | 0 <= k < |words| :: words[k] != "" && IsNormal(words[k])
    ensures InAll(index, stopList, words, d) <==>
      forall t | t in words && t !in stopList.Values :: Holds(corpus, d, t)
  {
    forall t | t in words
      ensures Lower(t) == t
      ensures t !in stopList.Values ==> ((t in index && d in Docs(index[t])) <==> Holds(corpus, d, t))
    {
      var k :| 0 <= k < |words| && words[k] == t;
      LowerOfNormal(t);
      if t !in stopList.Values {
        InListIffHolds(index, corpus, stopList, t, d);
      }
    }
  }

  lemma InAllSnoc(index: Index, stopList: map<int, string>, words: seq<string>, i: nat, d: nat)
    requires i < |words|
    ensures InAll(index, stopList, words[..i + 1], d) <==>
      InAll(index, stopList, words[..i], d)
      && (Lower(words[i]) !in stopList.Values ==> Lower(words[i]) in index && d in Docs(index[Lower(words[i])]))
  {
    assert words[..i + 1] == words[..i] + [words[i]];
  }

  /** Extending the stems by a stem that is a key: as written, the file must be in the
      list of the new stem and, from the second stem on, in the raw results. */
  lemma StemAsWrittenSnoc(seen: seq<string>, w: string, sidx: Index, results: Option<seq<nat>>)
    requires (forall s | s in seen :: s in sidx) && w in sidx
    ensures forall d :: InStemResultsAsWritten(seen + [w], sidx, results, d) <==>
      d in Docs(sidx[w]) && (seen != [] ==> results.Some? && d in results.value)
  {
  }

  /** Extending the stems by a stem that is a key: as intended, the file must be in the
      lists of all stems so far and in the list of the new stem. */
  lemma StemIntendedSnoc(seen: seq<string>, w: string, sidx: Index)
    requires (forall s | s in seen :: s in sidx) && w in sidx
    ensures forall d :: InStemResultsIntended(seen + [w], sidx, d) <==>
      (seen == [] || InStemResultsIntended(seen, sidx, d)) && d in Docs(sidx[w])
  {
  }

  /** One stem of the stemmed pass as written: the files of the new stem, kept, from the
      second stem on, when they are in the raw results. */
  lemma StemAsWrittenStep(seen: seq<string>, w: string, sidx: Index, results: Option<seq<nat>>,
                          prev: Option<seq<nat>>, docs: seq<nat>)
    requires (forall s | s in seen :: s in sidx) && w in sidx
    requires prev.None? <==> seen == []
    requires forall d :: d in docs <==> d in Tally(sidx[w]) && (prev.Some? ==> results.Some? && d in results.value)
    ensures forall d :: d in docs <==> InStemResultsAsWritten(seen + [w], sidx, results, d)
  {
    TallyCounts(sidx[w]);
    StemAsWrittenSnoc(seen, w, sidx, results);
  }

  /** One stem of the stemmed pass as intended: the files of the new stem, kept, from the
      second stem on, when they are in the stemmed result so far. */
  lemma StemIntendedStep(seen: seq<string>, w: string, sidx: Index, prev: Option<seq<nat>>, docs: seq<nat>)
    requires (forall s | s in seen :: s in sidx) && w in sidx
    requires prev.None? <==> seen == []
    requires prev.Some? ==> forall d :: d in prev.value <==> InStemResultsIntended(seen, sidx, d)
    requires forall d :: d in docs <==> d in Tally(sidx[w]) && (prev.Some? ==> d in prev.value)
    ensures forall d :: d in docs <==> InStemResultsIntended(seen + [w], sidx, d)
  {
    TallyCounts(sidx[w]);
    StemIntendedSnoc(seen, w, sidx);
  }

  /** A stem that is no key leaves no file in the stemmed result, as written or as intended. */
  lemma MissingStemMatchesNothing(stems: seq<string>, w: string, sidx: Index)
    requires w in stems && w !in sidx
    ensures forall d, results: Option<seq<nat>> ::
      !InStemResultsAsWritten(stems, sidx, results, d) && !InStemResultsIntended(stems, sidx, d)
  {
  }

  /** The stemmed pass stops at the i-th query word when its stem w is no key: no file has
      every stem, and the pass has not dereferenced null. */
  lemma StemPassBreak(words: seq<string>, i: nat, stem: string -> string, stopList: map<int, string>, sidx: Index)
    requires i < |words|
    requires var w := Lower(stem(words[i])); w !in stopList.Values && w !in sidx
    ensures var stems := NonStopStems(words, stem, stopList);
      && stems != []
      && (|NonStopStems(words[..i], stem, stopList)| <= 1 ==> !(|stems| >= 2 && stems[0] in sidx && stems[1] in sidx))
      && Lower(stem(words[i])) in stems
  {
    var seen := NonStopStems(words[..i], stem, stopList);
    var w := Lower(stem(words[i]));
    assert words[..i + 1][..i] == words[..i];
    assert NonStopStems(words[..i + 1], stem, stopList) == seen + [w];
    NonStopStemsPrefix(words, i + 1, stem, stopList);
    var stems := NonStopStems(words, stem, stopList);
    assert stems[|seen|] == w;
    assert w in stems;
  }

  /** The stemmed pass reaches a second stem that is a key while the raw results are null. */
  lemma StemPassFault(words: seq<string>, i: nat, stem: string -> string, stopList: map<int, string>, sidx: Index)
    requires i < |words|
    requires var w := Lower(stem(words[i])); w !in stopList.Values && w in sidx
    requires var seen := NonStopStems(words[..i], stem, stopList); |seen| == 1 && seen[0] in sidx
    ensures var stems := NonStopStems(words, stem, stopList);
      |stems| >= 2 && stems[0] in sidx && stems[1] in sidx
  {
    var seen := NonStopStems(words[..i], stem, stopList);
    assert words[..i + 1][..i] == words[..i];
    assert NonStopStems(words[..i + 1], stem, stopList) == seen + [Lower(stem(words[i]))];
    NonStopStemsPrefix(words, i + 1, stem, stopList);
  }

  /** The query words are normal forms, which lower-casing leaves as they are. */
  lemma QueryWordsAreNormal(words: seq<string>)
    requires forall k | 0 <= k < |words| :: IsNormal(words[k])
    ensures forall t | t in words :: Lower(t) == t
  {
    forall t | t in words ensures Lower(t) == t {
      var k :| 0 <= k < |words| && words[k] == t;
      LowerOfNormal(t);
    }
  }

  /** The keys of a count table, in the table's (unspecified) enumeration order
      (search.forEach((k, v) -> temp.add(k)), InvertedIndex.java:563-565). */
  method Enumerate(table: map<nat, nat>) returns (docs: seq<nat>)
    ensures Distinct(docs)
    ensures forall d :: d in docs <==> d in table
  {
    docs := [];
    var rest := table.Keys;
    while rest != {}
      invariant rest <= table.Keys
      invariant Distinct(docs)
      invariant forall d :: d in docs <==> d in table && d !in rest
      decreases |rest|
    {
      var d :| d in rest;
      docs := docs + [d];
      rest := rest - {d};
    }
  }

  /** The keys of a count table that are also in allowed, in the table's enumeration order
      (InvertedIndex.java:570-573). */
  method Retain(table: map<nat, nat>, allowed: seq<nat>) returns (docs: seq<nat>)
    ensures Distinct(docs)
    ensures forall d :: d in docs <==> d in table && d in allowed
  {
    docs := [];
    var rest := table.Keys;
    while rest != {}
      invariant rest <= table.Keys
      invariant Distinct(docs)
      invariant forall d :: d in docs <==> d in table && d in allowed && d !in rest
      decreases |rest|
    {
      var d :| d in rest;
      if d in allowed {
        docs := docs + [d];
      }
      rest := rest - {d};
    }
  }

  /** The query words of searchWords and searchWordsStemmed: split on " ", each piece
      normalised, the empty ones dropped (InvertedIndex.java:541-552, 613-625). */
  method QueryWords(query: string) returns (words: seq<string>)
    ensures words == QueryTerms(JavaSplit(query))
  {
    var w := JavaSplit(query);
    var tempList: seq<string> := [];
    for i := 0 to |w|
      invariant tempList == QueryTerms(w[..i])
    {
      var t := Lower(StripDigits(StripPunct(w[i])));
      if t != "" {
        tempList := tempList + [t];
      }
      assert w[..i + 1][..i] == w[..i];
    }
    assert w[..|w|] == w;
    words := tempList;
  }

  /** The reading loop of snippet(): the tokens whose 1-based count lies in [start, end],
      joined by single spaces; reading stops once the count passes end. */
  method ReadWindow(toks: seq<string>, start: int, end: int) returns (snippet: string)
    requires 1 <= start <= end && start <= |toks|
    ensures snippet == Join(toks[start - 1 .. if end < |toks| then end else |toks|])
  {
    snippet := "";
    var count := 0;
    while count < |toks| && count <= end
      invariant 0 <= count <= |toks| && count <= end + 1
      invariant snippet == if count < start then "" else Join(toks[start - 1 .. if count < end then count else end])
    {
      count := count + 1;
      var tok := toks[count - 1];
      if count == start {
        snippet := snippet + tok;
      }
      if count > start && count <= end {
        assert toks[start - 1 .. count][..count - start] == toks[start - 1 .. count - 1];
        snippet := snippet + " " + tok;
      }
    }
  }

  /** In a well-formed table, the postings of file d in the list of a key are positions
      of that file. */
  lemma PositionsInFile(table: Index, corpus: seq<Document>, key: string, d: nat)
    requires WellFormed(table, corpus) && key in table
    ensures forall p | p in table[key] && p.doc == d :: p.pos < |corpus[d].tokens|
  {
  }

  /** The first-match loop of snippet(): the offset of the first posting of file doc in
      locations; location stays 0 when there is none (InvertedIndex.java:495-502). */
  method FirstLocation(locations: seq<Posting>, doc: nat) returns (found: bool, location: nat)
    ensures found <==> FirstIn(locations, doc).Some?
    ensures found ==> location == FirstIn(locations, doc).value.pos
    ensures !found ==> location == 0
  {
    found := false;
    location := 0;
    var i := 0;
    while i < |locations|
      invariant i <= |locations|
      invariant forall k | 0 <= k < i :: locations[k].doc != doc
    {
      if locations[i].doc == doc {
        location := locations[i].pos;
        found := true;
        FirstInAt(locations, doc, i);
        break;
      }
      i := i + 1;
    }
  }

  /** With query words "running dogs", file 0 holding them and file 1 holding "runs dog",
      both stems are in both files, yet the as-written stemmed pass keeps only the files of
      the raw results: file 1 is dropped, which the intended intersection keeps. */
  lemma StemmedPassDropsVariantFile()
    ensures var stems := ["run", "dog"];
      var sidx := map["run" := [Posting(0, 0), Posting(1, 0)], "dog" := [Posting(0, 1), Posting(1, 1)]];
      && InStemResultsIntended(stems, sidx, 1)
      && !InStemResultsAsWritten(stems, sidx, Some([0]), 1)
  {
    var sidx := map["run" := [Posting(0, 0), Posting(1, 0)], "dog" := [Posting(0, 1), Posting(1, 1)]];
    assert Posting(1, 0) in sidx["run"] && Posting(1, 1) in sidx["dog"];
  }

  /** list2 after list2.add(list1.get(j)) for every j (InvertedIndex.java:111-112): the
      postings of list1 follow those of list2, in order. */
  method AddEach(list2: seq<Posting>, list1: seq<Posting>) returns (r: seq<Posting>)
    ensures r == list2 + list1
  {
    r := list2;
    for j := 0 to |list1|
      invariant r == list2 + list1[..j]
    {
      r := r + [list1[j]];
    }
    assert list1[..|list1|] == list1;
  }

  /** The body of search(word, useStemmed) on the table it reads: null when the
      lower-cased word is not a key, otherwise the number of postings of each file in its
      list (InvertedIndex.java:163-183). */
  method SearchTable(table: Index, word: string) returns (visited: Option<map<nat, nat>>)
    ensures visited == Lookup(table, word)
  {
    var key := Lower(word);
    if key !in table {
      return None;
    }
    var list := table[key];
    var counts: map<nat, nat> := map[];
    for k := 0 to |list|
      invariant counts == Tally(list[..k])
    {
      var doc := list[k].doc;
      assert list[..k + 1][..k] == list[..k];
      if doc in counts {
        var count := counts[doc];
        count := count + 1;
        counts := counts[doc := count];
      } else {
        counts := counts[doc := 1];
      }
    }
    assert list[..|list|] == list;
    visited := Some(counts);
  }

  /** One query word of the stemmed pass either lets the loop go on with a new stemResults
      or ends the method, normally or with an exception. */
  datatype Turn = Next(stemResults: Option<seq<nat>>) | Stop(outcome: Result<Option<seq<nat>>, Fault>)

  /** What the stemmed pass as written has established after the first i query words:
      every stem so far is a key, stemResults is still null exactly when there was none,
      there was at most one while the raw results are null, and stemResults holds, once
      each, the files of the as-written meaning. */
  ghost predicate AsWrittenSoFar(words: seq<string>, i: nat, stem: string -> string, stopList: map<int, string>,
                                 sidx: Index, results: Option<seq<nat>>, stemResults: Option<seq<nat>>) {
    && i <= |words|
    && var seen := NonStopStems(words[..i], stem, stopList);
    && (forall s | s in seen :: s in sidx)
    && (stemResults.None? <==> seen == [])
    && (results.None? ==> |seen| <= 1)
    && (stemResults.Some? ==> Distinct(stemResults.value))
    && (stemResults.Some? ==> forall d :: d in stemResults.value <==> InStemResultsAsWritten(seen, sidx, results, d))
  }

  /** The outcome the stemmed pass as written promises for the whole query. */
  ghost predicate AsWrittenOutcome(words: seq<string>, stem: string -> string, stopList: map<int, string>, sidx: Index,
                                   results: Option<seq<nat>>, r: Result<Option<seq<nat>>, Fault>) {
    var stems := NonStopStems(words, stem, stopList);
    && (r.Failure? <==> results.None? && |stems| >= 2 && stems[0] in sidx && stems[1] in sidx)
    && (r.Failure? ==> r.error == NullPointer(678))
    && (r.Success? ==> (r.value.None? <==> stems == []))
    && (r.Success? && r.value.Some? ==> Distinct(r.value.value))
    && (r.Success? && r.value.Some? ==> forall d :: d in r.value.value <==> InStemResultsAsWritten(stems, sidx, results, d))
  }

  /** The body of the stemmed pass as written for the i-th query word
      (InvertedIndex.java:655-682): its lower-cased stem, skipped when a stop word; a stem
      that is no key ends the pass with an empty result; otherwise the stem's files start
      the result, or, from the second stem on, those of them in the RAW results replace it,
      which dereferences null in the lambda when the raw results are null. */
  method StemTurn(words: seq<string>, i: nat, stem: string -> string, stopList: map<int, string>, sidx: Index,
                  results: Option<seq<nat>>, stemResults: Option<seq<nat>>) returns (t: Turn)
    requires i < |words| && AsWrittenSoFar(words, i, stem, stopList, sidx, results, stemResults)
    ensures t.Next? ==> AsWrittenSoFar(words, i + 1, stem, stopList, sidx, results, t.stemResults)
    ensures t.Stop? ==> AsWrittenOutcome(words, stem, stopList, sidx, results, t.outcome)
  {
    ghost var seen := NonStopStems(words[..i], stem, stopList);
    var stemWord := Lower(stem(words[i]));
    assert words[..i + 1][..i] == words[..i];
    if stemWord in stopList.Values {
      return Next(stemResults);
    }
    LowerIdempotent(stem(words[i]));
    var search := SearchTable(sidx, stemWord);
    if search.None? {
      StemPassBreak(words, i, stem, stopList, sidx);
      MissingStemMatchesNothing(NonStopStems(words, stem, stopList), stemWord, sidx);
      return Stop(Success(Some([])));
    }
    var docs;
    if stemResults.None? {
      docs := Enumerate(search.value);
    } else {
      // The list of a key is never empty, so the lambda runs and dereferences the
      // null results on the first entry.
      if results.None? {
        StemPassFault(words, i, stem, stopList, sidx);
        return Stop(Failure(NullPointer(678)));
      }
      docs := Retain(search.value, results.value);
    }
    StemAsWrittenStep(seen, stemWord, sidx, results, stemResults, docs);
    return Next(Some(docs));
  }

  /** The stemmed pass of searchWordsStemmed as written: each stem that is not a stop word
      is searched in the stemmed index; the first one's files start the result, and every
      later one keeps its files that are in the RAW results, which dereferences null when
      every raw word was a stop word (InvertedIndex.java:653-684). */
  method StemConjunction(words: seq<string>, stem: string -> string, stopList: map<int, string>, sidx: Index,
                         results: Option<seq<nat>>) returns (r: Result<Option<seq<nat>>, Fault>)
    ensures var stems := NonStopStems(words, stem, stopList);
      r.Failure? <==> results.None? && |stems| >= 2 && stems[0] in sidx && stems[1] in sidx
    ensures r.Failure? ==> r.error == NullPointer(678)
    ensures r.Success? ==> (r.value.None? <==> NonStopStems(words, stem, stopList) == [])
    ensures r.Success? && r.value.Some? ==> Distinct(r.value.value)
    ensures r.Success? && r.value.Some? ==> forall d :: d in r.value.value <==>
      InStemResultsAsWritten(NonStopStems(words, stem, stopList), sidx, results, d)
  {
    var stemResults: Option<seq<nat>> := None;
    var i := 0;
    while i < |words|
      invariant AsWrittenSoFar(words, i, stem, stopList, sidx, results, stemResults)
    {
      var t := StemTurn(words, i, stem, stopList, sidx, results, stemResults);
      if t.Stop? {
        return t.outcome;
      }
      stemResults := t.stemResults;
      i := i + 1;
    }
    assert words[..|words|] == words;
    return Success(stemResults);
  }

  /** What the stemmed pass as intended has established after the first i query words. */
  ghost predicate IntendedSoFar(words: seq<string>, i: nat, stem: string -> string, stopList: map<int, string>,
                                sidx: Index, stemResults: Option<seq<nat>>) {
    && i <= |words|
    && var seen := NonStopStems(words[..i], stem, stopList);
    && (forall s | s in seen :: s in sidx)
    && (stemResults.None? <==> seen == [])
    && (stemResults.Some? ==> Distinct(stemResults.value))
    && (stemResults.Some? ==> forall d :: d in stemResults.value <==> InStemResultsIntended(seen, sidx, d))
  }

  /** The body of the stemmed pass as intended for the i-th query word: as StemTurn, except
      that a later stem keeps its files that are in stemResults itself, so the pass never
      ends in an exception. */
  method StemTurnIntended(words: seq<string>, i: nat, stem: string -> string, stopList: map<int, string>,
                          sidx: Index, stemResults: Option<seq<nat>>) returns (t: Turn)
    requires i < |words| && IntendedSoFar(words, i, stem, stopList, sidx, stemResults)
    ensures t.Next? ==> IntendedSoFar(words, i + 1, stem, stopList, sidx, t.stemResults)
    ensures t.Stop? ==> t.outcome == Success(Some([]))
    ensures t.Stop? ==> forall d :: !InStemResultsIntended(NonStopStems(words, stem, stopList), sidx, d)
    ensures t.Stop? ==> NonStopStems(words, stem, stopList) != []
  {
    ghost var seen := NonStopStems(words[..i], stem, stopList);
    var stemWord := Lower(stem(words[i]));
    assert words[..i + 1][..i] == words[..i];
    if stemWord in stopList.Values {
      return Next(stemResults);
    }
    LowerIdempotent(stem(words[i]));
    var search := SearchTable(sidx, stemWord);
    if search.None? {
      StemPassBreak(words, i, stem, stopList, sidx);
      MissingStemMatchesNothing(NonStopStems(words, stem, stopList), stemWord, sidx);
      return Stop(Success(Some([])));
    }
    var docs;
    if stemResults.None? {
      docs := Enumerate(search.value);
    } else {
      docs := Retain(search.value, stemResults.value);
    }
    StemIntendedStep(seen, stemWord, sidx, stemResults, docs);
    return Next(Some(docs));
  }

  /** The stemmed pass as intended: every later stem keeps the files already in the
      stemmed result, so a file is kept exactly when it holds every stem. */
  method StemConjunctionIntended(words: seq<string>, stem: string -> string, stopList: map<int, string>, sidx: Index)
    returns (stemResults: Option<seq<nat>>)
    ensures stemResults.None? <==> NonStopStems(words, stem, stopList) == []
    ensures stemResults.Some? ==> Distinct(stemResults.value)
    ensures stemResults.Some? ==> forall d :: d in stemResults.value <==>
      InStemResultsIntended(NonStopStems(words, stem, stopList), sidx, d)
  {
    stemResults := None;
    var i := 0;
    while i < |words|
      invariant IntendedSoFar(words, i, stem, stopList, sidx, stemResults)
    {
      var t := StemTurnIntended(words, i, stem, stopList, sidx, stemResults);
      if t.Stop? {
        return Some([]);
      }
      stemResults := t.stemResults;
      i := i + 1;
    }
    assert words[..|words|] == words;
  }

  /** The stemmed pass of searchWordsStemmed and the pass that follows it, given the raw
      results: no stem left dereferences the null stemResults (line 712), and null raw
      results with a stemmed result that is not empty dereference null in the lambda of
      the stemmed pass (line 678) or in the loop of otherResults (line 713)
      (InvertedIndex.java:653-684, 710-715). */
  method StemmedPasses(words: seq<string>, stem: string -> string, stopList: map<int, string>, sidx: Index,
                       results: Option<seq<nat>>) returns (r: Result<StemmedSearch, Fault>)
    requires forall s | s in sidx :: sidx[s] != []
    ensures var stems := NonStopStems(words, stem, stopList);
      r.Failure? <==> stems == [] || (results.None? && stems[0] in sidx && (|stems| == 1 || stems[1] in sidx))
    ensures var stems := NonStopStems(words, stem, stopList);
      r.Failure? ==> r.error == NullPointer(if stems == [] then 712 else if |stems| == 1 then 713 else 678)
    ensures r.Success? ==> var out := r.value;
      && out.results == results
      && Distinct(out.stemResults)
      && (forall d :: d in out.stemResults <==> InStemResultsAsWritten(NonStopStems(words, stem, stopList), sidx, results, d))
      && out.otherResults == Select(out.stemResults, if results.Some? then results.value else [], false)
    ensures r.Success? && |NonStopStems(words, stem, stopList)| >= 2 ==> r.value.otherResults == []
  {
    var sr := StemConjunction(words, stem, stopList, sidx, results);
    ghost var stems := NonStopStems(words, stem, stopList);
    if sr.Failure? {
      return Failure(sr.error);
    }
    if sr.value.None? {
      return Failure(NullPointer(712));
    }
    var stemResults := sr.value.value;
    if results.None? {
      NullRawStemResults(stems, sidx, stemResults);
    }
    var other := OtherResults(results, stemResults);
    if other.Failure? {
      return Failure(other.error);
    }
    if |stems| >= 2 {
      SelectOutsideOfSubset(stemResults, if results.Some? then results.value else []);
    }
    return Success(StemmedSearch(results, stemResults, other.value));
  }

  /** The loop of makeIndex() over the files of the corpus (InvertedIndex.java:58-82). */
  method IndexCorpus(corpus: seq<Document>, stopList: map<int, string>) returns (idx: Index)
    ensures idx == BuildIndex(corpus, stopList, |corpus|)
  {
    idx := map[];
    var i := 0;
    while i < |corpus|
      invariant i <= |corpus|
      invariant idx == BuildIndex(corpus, stopList, i)
    {
      idx := IndexTokens(idx, stopList, i, corpus[i].tokens);
      i := i + 1;
    }
  }

  /** The loop of makeIndex() over the tokens of file d (InvertedIndex.java:65-80): each
      token normalised, and its posting appended to the list of its term, made when
      absent, unless the term is "" or a stop word. */
  method IndexTokens(idx0: Index, stopList: map<int, string>, d: nat, toks: seq<string>) returns (idx: Index)
    ensures idx == IndexFile(idx0, stopList, d, toks)
  {
    idx := idx0;
    var j := 0;
    while j < |toks|
      invariant j <= |toks|
      invariant idx == IndexFile(idx0, stopList, d, toks[..j])
    {
      var word := toks[j];
      word := StripPunct(word);
      word := StripDigits(word);
      word := Lower(word);
      assert word == Normalize(toks[j]);
      if word !in stopList.Values && word != "" {
        if word in idx {
          var list := idx[word];
          list := list + [Posting(d, j)];
          idx := idx[word := list];
        } else {
          var list := [Posting(d, j)];
          idx := idx[word := list];
        }
      }
      assert toks[..j + 1][..j] == toks[..j];
      j := j + 1;
    }
    assert toks[..j] == toks;
  }

  /** The loop of makeStemmedIndex() over the raw keys in the order order
      (InvertedIndex.java:100-122): the first key of a stem hands its list object to the
      stemmed table; each later key appends its postings to that list, which the raw entry
      of the first key shares. */
  method MergeLists(raw: Index, order: seq<string>, stem: string -> string) returns (idx: Index, sidx: Index)
    requires IsListing(order, raw.Keys)
    ensures sidx == Merge(order, raw, stem)
    ensures idx == Shared(raw, Owners(order, stem), sidx, stem)
  {
    idx := raw;
    sidx := map[];
    // owner[s] is the raw key whose list object sidx[s] is.
    var owner: map<string, string> := map[];
    StemmedStart(raw, stem);
    for i := 0 to |order|
      invariant forall x | x in order[..i] :: x in raw
      invariant StemmedUpTo(order[..i], raw, stem, sidx, owner, idx)
    {
      var k := order[i];
      var word := stem(k);
      assert order[..i + 1] == order[..i] + [k];
      assert k !in order[..i];
      StemmedKeyUnshared(order[..i], k, raw, stem, sidx, owner, idx);
      if word in sidx {
        StemmedSeen(order[..i], k, raw, stem, sidx, owner, idx);
        var list1 := idx[k];
        var list2 := AddEach(sidx[word], list1);
        // list2 is one object: the stemmed entry and the raw entry of its owner.
        sidx := sidx[word := list2];
        idx := idx[owner[word] := list2];
      } else {
        StemmedNew(order[..i], k, raw, stem, sidx, owner, idx);
        var list := idx[k];
        sidx := sidx[word := list];
        owner := owner[word := k];
      }
    }
    assert order[..|order|] == order;
  }

  /** With null raw results, the as-written stemmed result is non-empty exactly when there
      is one stem and it is a key (its list is never empty). */
  lemma NullRawStemResults(stems: seq<string>, sidx: Index, stemResults: seq<nat>)
    requires forall s | s in sidx :: sidx[s] != []
    requires forall d :: d in stemResults <==> InStemResultsAsWritten(stems, sidx, None, d)
    ensures stemResults != [] <==> |stems| == 1 && stems[0] in sidx
  {
    if |stems| == 1 && stems[0] in sidx {
      var p := sidx[stems[0]][0];
      assert p in sidx[stems[0]];
      assert p.doc in stemResults;
    }
    if stemResults != [] {
      assert InStemResultsAsWritten(stems, sidx, None, stemResults[0]);
    }
  }

  /** The files of the stemmed result missing from the raw results, in the order of the
      stemmed result; results.contains dereferences null when the raw results are null and
      the loop runs (InvertedIndex.java:710-715). */
  method OtherResults(results: Option<seq<nat>>, stemResults: seq<nat>) returns (r: Result<seq<nat>, Fault>)
    ensures r.Failure? <==> results.None? && stemResults != []
    ensures r.Failure? ==> r.error == NullPointer(713)
    ensures r.Success? ==> r.value == Select(stemResults, if results.Some? then results.value else [], false)
  {
    var otherResults: seq<nat> := [];
    for i := 0 to |stemResults|
      invariant results.None? ==> i == 0
      invariant otherResults == Select(stemResults[..i], if results.Some? then results.value else [], false)
    {
      if results.None? {
        return Failure(NullPointer(713));
      }
      if stemResults[i] !in results.value {
        otherResults := otherResults + [stemResults[i]];
      }
      assert stemResults[..i + 1][..i] == stemResults[..i];
    }
    assert stemResults[..|stemResults|] == stemResults;
    return Success(otherResults);
  }

  class InvertedIndex {
    /** The files of the corpus directory, in listing order, as token sequences. */
    const corpus: seq<Document>
    /** Porter's stemmer (Stemmer.java), as an opaque function. */
    const stem: string -> string
    var stopList: map<int, string>
    var index: Index
    /** null until makeStemmedIndex has run. */
    var stemmedIndex: Option<Index>

    /** Every list is non-empty and points at tokens of the corpus. */
    ghost predicate Valid()
      reads this
    {
      WellFormed(index, corpus) && (stemmedIndex.Some? ==> WellFormed(stemmedIndex.value, corpus))
    }

    /** The table search() and snippet() read. */
    function Table(useStemmed: bool): Index
      reads this
      requires useStemmed ==> stemmedIndex.Some?
    {
      if useStemmed then stemmedIndex.value else index
    }

    /** new InvertedIndex(dir): takes the stop list and builds the index
        (InvertedIndex.java:35-40). */
    constructor (corpus: seq<Document>, stem: string -> string)
      ensures this.corpus == corpus && this.stem == stem
      ensures stopList == StopWords.StopTable()
      ensures IsIndexOf(index, corpus, stopList)
      ensures stemmedIndex == None
      ensures Valid()
    {
      this.corpus := corpus;
      this.stem := stem;
      var list := new StopWords.StopList();
      stopList := list.GetStopList();
      index := map[];
      stemmedIndex := None;
      new;
      MakeIndex();
      IndexIsWellFormed(index, corpus, stopList);
    }

    /** makeIndex(): every token of every file is normalised and, unless it is "" or a stop
        word, its posting (file, raw token count) is appended to the list of its term
        (InvertedIndex.java:46-88). */
    method MakeIndex()
      modifies `index
      ensures index == BuildIndex(corpus, stopList, |corpus|)
      ensures IsIndexOf(index, corpus, stopList)
    {
      // The new Hashtable is built in a local and stored in the field once it is complete;
      // nothing reads the field in between.
      var idx := IndexCorpus(corpus, stopList);
      index := idx;
      BuildIndexIsIndexOf(corpus, stopList);
    }

    /** search(word, useStemmed): null when the lower-cased word is not a key, otherwise
        the number of postings of each file in its list (InvertedIndex.java:160-184). */
    method Search(word: string, useStemmed: bool) returns (visited: Option<map<nat, nat>>)
      requires useStemmed ==> stemmedIndex.Some?
      ensures visited == Lookup(Table(useStemmed), word)
    {
      visited := SearchTable(Table(useStemmed), word);
    }

    /** The lookup of searchWord(w): the word normalised as index terms are, then searched
        in the raw index; null exactly when the normalised word is not a term
        (InvertedIndex.java:196-202). */
    method SearchWord(w: string) returns (word: string, visited: Option<map<nat, nat>>)
      ensures word == Normalize(w)
      ensures visited == Lookup(index, word)
      ensures visited.None? <==> word !in index
    {
      var temp := StripPunct(w);
      temp := StripDigits(temp);
      temp := Lower(temp);
      word := temp;
      assert word == Normalize(w);
      visited := Search(word, false);
      LowerOfNormal(word);
    }

    /** The lookups of searchWordStemmed(w): the normalised word in the raw index, and its
        stem in the stemmed index only when the stem differs from the word
        (InvertedIndex.java:241-248, 271-278). */
    method SearchWordStemmed(w: string) returns (word: string, stemmedWord: string,
                                                 visited: Option<map<nat, nat>>,
                                                 visitedStemmed: Option<map<nat, nat>>)
      requires stem(Normalize(w)) != Normalize(w) ==> stemmedIndex.Some?
      ensures word == Normalize(w) && stemmedWord == stem(word)
      ensures visited == Lookup(index, word)
      ensures stemmedWord == word ==> visitedStemmed == None
      ensures stemmedWord != word ==> visitedStemmed == Lookup(stemmedIndex.value, stemmedWord)
    {
      var temp := StripPunct(w);
      temp := StripDigits(temp);
      temp := Lower(temp);
      word := temp;
      assert word == Normalize(w);
      visited := Search(word, false);
      visitedStemmed := None;
      stemmedWord := stem(word);
      if stemmedWord != word {
        visitedStemmed := Search(stemmedWord, true);
      }
    }

    /** makeStemmedIndex(), in the enumeration order order of the raw table: the first key
        of a stem hands its very list object to the stemmed table, later keys with that stem
        have their postings appended to it, so the raw entry of the first key grows with it
        (InvertedIndex.java:94-123). */
    method MakeStemmedIndex(order: seq<string>)
      requires IsListing(order, index.Keys)
      requires Valid()
      modifies `index, `stemmedIndex
      ensures stemmedIndex == Some(Merge(order, old(index), stem))
      ensures IsStemmedIndexOf(stemmedIndex.value, old(index), order, stem)
      ensures index == Shared(old(index), Owners(order, stem), stemmedIndex.value, stem)
      ensures Valid()
    {
      var raw := index;
      var idx, sidx := MergeLists(raw, order, stem);
      index := idx;
      stemmedIndex := Some(sidx);
      MergeIsStemmedIndex(order, raw, stem);
      StemmedIsWellFormed(sidx, raw, order, stem, corpus);
      SharedIsWellFormed(raw, Owners(order, stem), sidx, stem, corpus);
    }

    /** makeStemmedIndex() with each first list copied before it is stored
        (new LinkedList<>(index.get(k))), so the raw table is left as it is. */
    method MakeStemmedIndexCopying(order: seq<string>)
      requires IsListing(order, index.Keys)
      requires Valid()
      modifies `stemmedIndex
      ensures index == old(index)
      ensures stemmedIndex == Some(Merge(order, index, stem))
      ensures IsStemmedIndexOf(stemmedIndex.value, index, order, stem)
      ensures Valid()
    {
      var sidx: Index := map[];
      for i := 0 to |order|
        invariant sidx == Merge(order[..i], index, stem)
      {
        var k := order[i];
        var word := stem(k);
        assert order[..i + 1][..i] == order[..i];
        if word in sidx {
          var list := sidx[word] + index[k];
          sidx := sidx[word := list];
        } else {
          var list := index[k];
          sidx := sidx[word := list];
        }
      }
      assert order[..|order|] == order;
      stemmedIndex := Some(sidx);
      MergeIsStemmedIndex(order, index, stem);
      StemmedIsWellFormed(sidx, index, order, stem, corpus);
    }

    /** searchDoc(doc) up to its output: null when no corpus file has that name; otherwise,
        in the enumeration order order of the table, each key whose list holds postings of
        a file with that name, with their number (InvertedIndex.java:312-342). */
    method SearchDoc(doc: string, order: seq<string>) returns (found: Option<seq<(string, nat)>>)
      requires Valid()
      requires IsListing(order, index.Keys)
      ensures found.None? <==> forall f | 0 <= f < |corpus| :: corpus[f].name != doc
      ensures found.Some? ==> forall k, c :: (k, c) in found.value <==>
        k in index && c == NameCount(index[k], corpus, doc) && c > 0
      ensures found.Some? ==> forall a, b | 0 <= a < b < |found.value| :: found.value[a].0 != found.value[b].0
    {
      var i := 0;
      while i < |corpus|
        invariant i <= |corpus|
        invariant forall f | 0 <= f < i :: corpus[f].name != doc
      {
        if corpus[i].name == doc {
          break;
        }
        i := i + 1;
      }
      if i == |corpus| {
        return None;
      }
      var terms: seq<(string, nat)> := [];
      for n := 0 to |order|
        invariant forall k, c :: (k, c) in terms <==> k in order[..n] && c == NameCount(index[k], corpus, doc) && c > 0
        invariant forall a | 0 <= a < |terms| :: terms[a].0 in order[..n]
        invariant forall a, b | 0 <= a < b < |terms| :: terms[a].0 != terms[b].0
      {
        var k := order[n];
        var v := index[k];
        var count := 0;
        for j := 0 to |v|
          invariant count + NameCount(v[j..], corpus, doc) == NameCount(v, corpus, doc)
        {
          assert v[j] in index[k];
          if corpus[v[j].doc].name == doc {
            count := count + 1;
          }
        }
        assert k !in order[..n];
        if count > 0 {
          terms := terms + [(k, count)];
        }
        assert order[..n + 1] == order[..n] + [k];
      }
      assert order[..|order|] == order;
      found := Some(terms);
    }

    /** snippet(length, word, doc) as written: a missing key dereferences null; a file
        without a posting, OR whose first posting has offset 0, gets null; otherwise the
        tokens with 1-based counts max(1, loc - length) .. loc + length, joined by spaces
        (InvertedIndex.java:487-529). */
    method Snippet(length: nat, word: string, doc: nat, useStemmed: bool) returns (r: Result<Option<string>, Fault>)
      requires Valid() && doc < |corpus|
      requires useStemmed ==> stemmedIndex.Some?
      ensures r.Failure? <==> Lower(word) !in Table(useStemmed)
      ensures r.Failure? ==> r.error == NullPointer(497)
      ensures r.Success? ==> r.value == SnippetOf(Table(useStemmed)[Lower(word)], doc, corpus[doc].tokens, length)
    {
      var table := Table(useStemmed);
      var key := Lower(word);
      if key !in table {
        return Failure(NullPointer(497));
      }
      var locations := table[key];
      var toks := corpus[doc].tokens;
      assert WellFormed(table, corpus);
      PositionsInFile(table, corpus, key, doc);
      var found, location := FirstLocation(locations, doc);
      if location == 0 {
        return Success(None);
      }
      var start := location - length;
      var end := location + length;
      if start <= 0 {
        start := 1;
      }
      var snippet := ReadWindow(toks, start, end);
      assert SnippetWindow(toks, location, length) == toks[start - 1 .. if end < |toks| then end else |toks|];
      return Success(Some(snippet));
    }

    /** snippet() as its documentation describes it: whether the file has a posting decides
        the null result, and the window is centred on the occurrence itself, whose 1-based
        count is loc + 1. */
    method SnippetIntended(length: nat, word: string, doc: nat, useStemmed: bool) returns (r: Result<Option<string>, Fault>)
      requires Valid() && doc < |corpus|
      requires useStemmed ==> stemmedIndex.Some?
      ensures r.Failure? <==> Lower(word) !in Table(useStemmed)
      ensures r.Failure? ==> r.error == NullPointer(497)
      ensures r.Success? ==> r.value == CenteredSnippetOf(Table(useStemmed)[Lower(word)], doc, corpus[doc].tokens, length)
    {
      var table := Table(useStemmed);
      var key := Lower(word);
      if key !in table {
        return Failure(NullPointer(497));
      }
      var locations := table[key];
      var toks := corpus[doc].tokens;
      assert WellFormed(table, corpus);
      PositionsInFile(table, corpus, key, doc);
      var found, location := FirstLocation(locations, doc);
      if !found {
        return Success(None);
      }
      var start := location + 1 - length;
      var end := location + 1 + length;
      if start <= 0 {
        start := 1;
      }
      var snippet := ReadWindow(toks, start, end);
      assert CenteredWindow(toks, location, length) == toks[start - 1 .. if end < |toks| then end else |toks|];
      return Success(Some(snippet));
    }

    /** The first pass of searchWords and searchWordsStemmed: the files that hold every
        query word that is not a stop word. It stays null while no such word has been
        searched, and becomes empty as soon as one of them is not a key
        (InvertedIndex.java:554-577, 628-652). */
    method Conjunction(words: seq<string>) returns (results: Option<seq<nat>>)
      ensures results.None? <==> forall t | t in words :: Lower(t) in stopList.Values
      ensures results.Some? ==> Distinct(results.value)
      ensures results.Some? ==> forall d :: d in results.value <==> InAll(index, stopList, words, d)
    {
      results := None;
      var i := 0;
      while i < |words|
        invariant i <= |words|
        invariant results.None? <==> forall t | t in words[..i] :: Lower(t) in stopList.Values
        invariant results.Some? ==> Distinct(results.value)
        invariant results.Some? ==> forall d :: d in results.value <==> InAll(index, stopList, words[..i], d)
      {
        forall d ensures InAll(index, stopList, words[..i + 1], d) <==>
          InAll(index, stopList, words[..i], d)
          && (Lower(words[i]) !in stopList.Values ==> Lower(words[i]) in index && d in Docs(index[Lower(words[i])]))
        {
          InAllSnoc(index, stopList, words, i, d);
        }
        assert words[..i + 1] == words[..i] + [words[i]];
        assert words[i] in words[..i + 1];
        if Lower(words[i]) !in stopList.Values {
          var search := Search(words[i], false);
          if search.None? {
            assert words[i] in words;
            return Some([]);
          }
          TallyCounts(index[Lower(words[i])]);
          if results.None? {
            var docs := Enumerate(search.value);
            results := Some(docs);
          } else {
            var docs := Retain(search.value, results.value);
            results := Some(docs);
          }
        }
        i := i + 1;
      }
      assert words[..|words|] == words;
    }

    /** searchWords(query) up to its output: the normalised query words and the files that
        hold every one of them that is not a stop word (InvertedIndex.java:539-577). */
    method SearchWords(query: string) returns (words: seq<string>, results: Option<seq<nat>>)
      ensures words == QueryTerms(JavaSplit(query))
      ensures results.None? <==> forall t | t in words :: t in stopList.Values
      ensures results.Some? ==> Distinct(results.value)
      ensures results.Some? ==> forall d :: d in results.value <==>
        forall t | t in words && t !in stopList.Values :: t in index && d in Docs(index[t])
    {
      words := QueryWords(query);
      QueryWordsAreNormal(words);
      results := Conjunction(words);
    }

    /** searchWordsStemmed(query) up to its output (the GUI-only path, where no result is
        printed): the raw pass, the stemmed pass, and the files of the stemmed result
        missing from the raw one. It dereferences null when no stem is left (line 712),
        and when every raw word was a stop word but the stemmed result is not empty (lines
        678 and 713) (InvertedIndex.java:611-684, 710-715). */
    method SearchWordsStemmed(query: string) returns (words: seq<string>, r: Result<StemmedSearch, Fault>)
      requires Valid() && stemmedIndex.Some?
      ensures words == QueryTerms(JavaSplit(query))
      ensures var stems := NonStopStems(words, stem, stopList);
        var sidx := stemmedIndex.value;
        r.Failure? <==>
          || stems == []
          || ((forall t | t in words :: t in stopList.Values) && stems[0] in sidx && (|stems| == 1 || stems[1] in sidx))
      ensures var stems := NonStopStems(words, stem, stopList);
        r.Failure? ==> r.error == NullPointer(if stems == [] then 712 else if |stems| == 1 then 713 else 678)
      ensures r.Success? ==> var out := r.value;
        && (out.results.None? <==> forall t | t in words :: t in stopList.Values)
        && (out.results.Some? ==> Distinct(out.results.value))
        && (out.results.Some? ==> forall d :: d in out.results.value <==>
              forall t | t in words && t !in stopList.Values :: t in index && d in Docs(index[t]))
        && Distinct(out.stemResults)
        && (forall d :: d in out.stemResults <==>
              InStemResultsAsWritten(NonStopStems(words, stem, stopList), stemmedIndex.value, out.results, d))
        && out.otherResults == Select(out.stemResults, if out.results.Some? then out.results.value else [], false)
      ensures r.Success? && |NonStopStems(words, stem, stopList)| >= 2 ==> r.value.otherResults == []
    {
      words := QueryWords(query);
      QueryWordsAreNormal(words);
      var results := Conjunction(words);
      r := StemmedPasses(words, stem, stopList, stemmedIndex.value, results);
    }
  }
}
