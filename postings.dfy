/** The values the inverted index holds (documents, postings, posting lists) and the
    reference definitions that the operations of InvertedIndex.java are proved against. */
module Postings {
  import opened Text
  import opened Wrappers

  /** A corpus file: its name and the raw tokens a Scanner reads from it, in order. */
  datatype Document = Document(name: string, tokens: seq<string>)

  /** An occurrence of a term: the file (its position in the corpus listing) and the
      0-based count of raw tokens of that file read before it. */
  datatype Posting = Posting(doc: nat, pos: nat)

  /** Term -> posting list (the Hashtable of linked lists). */
  type Index = map<string, seq<Posting>>

  /** What makeIndex stores: a normalised token that is neither empty nor a stop word. */
  predicate IsTerm(w: string, stopList: map<int, string>) {
    w != "" && w !in stopList.Values
  }

  predicate ValidPosting(corpus: seq<Document>, p: Posting) {
    p.doc < |corpus| && p.pos < |corpus[p.doc].tokens|
  }

  /** Every list is non-empty and points at tokens that exist. */
  ghost predicate WellFormed(index: Index, corpus: seq<Document>) {
    forall w | w in index :: index[w] != [] && forall p | p in index[w] :: ValidPosting(corpus, p)
  }

  /** Corpus scan order: files ascending, then positions ascending. */
  predicate Before(p: Posting, q: Posting) {
    p.doc < q.doc || (p.doc == q.doc && p.pos < q.pos)
  }

  predicate InScanOrder(list: seq<Posting>) {
    forall i, j | 0 <= i < j < |list| :: Before(list[i], list[j])
  }

  predicate Distinct<T(==)>(s: seq<T>) {
    forall i, j | 0 <= i < j < |s| :: s[i] != s[j]
  }

  /** order lists every key of a table exactly once. */
  ghost predicate IsListing<K(!new)>(order: seq<K>, keys: set<K>) {
    Distinct(order) && forall k :: k in order <==> k in keys
  }

  // ---------------------------------------------------------------------------------
  // Occurrences: the reference definition of the raw index
  // ---------------------------------------------------------------------------------

  /** The postings (d, p) of the tokens of file d that normalise to w, in scan order. */
  function DocOcc(d: nat, toks: seq<string>, w: string): seq<Posting> {
    if toks == [] then []
    else
      DocOcc(d, toks[..|toks| - 1], w)
      + (if Normalize(toks[|toks| - 1]) == w then [Posting(d, |toks| - 1)] else [])
  }

  /** The postings for w in the first n files of the corpus, in scan order. */
  function CorpusOcc(corpus: seq<Document>, n: nat, w: string): seq<Posting>
    requires n <= |corpus|
  {
    if n == 0 then [] else CorpusOcc(corpus, n - 1, w) + DocOcc(n - 1, corpus[n - 1].tokens, w)
  }

  function Occurrences(corpus: seq<Document>, w: string): seq<Posting> {
    CorpusOcc(corpus, |corpus|, w)
  }

  /** index is the positional inverted index of corpus: its keys are the terms that occur,
      and each key maps to all its occurrences in scan order. */
  ghost predicate IsIndexOf(index: Index, corpus: seq<Document>, stopList: map<int, string>) {
    forall w ::
      && (w in index <==> IsTerm(w, stopList) && Occurrences(corpus, w) != [])
      && (w in index ==> index[w] == Occurrences(corpus, w))
  }

  lemma {:induction false} DocOccMembership(d: nat, toks: seq<string>, w: string)
    ensures forall p :: p in DocOcc(d, toks, w) <==>
      p.doc == d && p.pos < |toks| && Normalize(toks[p.pos]) == w
  {
    if toks != [] {
      var init := toks[..|toks| - 1];
      DocOccMembership(d, init, w);
      var a := DocOcc(d, init, w);
      var b := if Normalize(toks[|toks| - 1]) == w then [Posting(d, |toks| - 1)] else [];
      assert DocOcc(d, toks, w) == a + b;
      forall p: Posting ensures p in a + b <==> p.doc == d && p.pos < |toks| && Normalize(toks[p.pos]) == w {
        if p.pos < |init| {
          assert init[p.pos] == toks[p.pos];
        }
      }
    }
  }

  /** Every posting of a file is on that file, below the file's token count. */
  lemma DocOccBounds(d: nat, toks: seq<string>, w: string)
    ensures forall p | p in DocOcc(d, toks, w) :: p.doc == d && p.pos < |toks|
  {
    DocOccMembership(d, toks, w);
  }

  lemma {:induction false} DocOccOrder(d: nat, toks: seq<string>, w: string)
    ensures InScanOrder(DocOcc(d, toks, w))
  {
    if toks != [] {
      var init := toks[..|toks| - 1];
      DocOccOrder(d, init, w);
      DocOccBounds(d, init, w);
      var a := DocOcc(d, init, w);
      var b := if Normalize(toks[|toks| - 1]) == w then [Posting(d, |toks| - 1)] else [];
      assert DocOcc(d, toks, w) == a + b;
      forall i, j | 0 <= i < j < |a + b| ensures Before((a + b)[i], (a + b)[j]) {
        if j >= |a| {
          assert a[i] in a;
        }
      }
    }
  }

  lemma {:induction false} CorpusOccMembership(corpus: seq<Document>, n: nat, w: string)
    requires n <= |corpus|
    ensures forall p :: p in CorpusOcc(corpus, n, w) <==>
      p.doc < n && p.pos < |corpus[p.doc].tokens| && Normalize(corpus[p.doc].tokens[p.pos]) == w
  {
    if n > 0 {
      CorpusOccMembership(corpus, n - 1, w);
      DocOccMembership(n - 1, corpus[n - 1].tokens, w);
      var a := CorpusOcc(corpus, n - 1, w);
      var b := DocOcc(n - 1, corpus[n - 1].tokens, w);
      assert CorpusOcc(corpus, n, w) == a + b;
      forall p: Posting ensures p in a + b <==>
        p.doc < n && p.pos < |corpus[p.doc].tokens| && Normalize(corpus[p.doc].tokens[p.pos]) == w
      {
        assert p in a + b <==> p in a || p in b;
      }
    }
  }

  /** Two lists in scan order, the first wholly before the second, concatenate to one. */
  lemma ConcatInScanOrder(a: seq<Posting>, b: seq<Posting>)
    requires InScanOrder(a) && InScanOrder(b)
    requires forall p, q | p in a && q in b :: Before(p, q)
    ensures InScanOrder(a + b)
  {
    forall i, j | 0 <= i < j < |a + b| ensures Before((a + b)[i], (a + b)[j]) {
      if j >= |a| && i < |a| {
        assert a[i] in a && b[j - |a|] in b;
      } else if j >= |a| {
        assert (a + b)[i] == b[i - |a|] && (a + b)[j] == b[j - |a|];
      }
    }
  }

  /** The postings for w in the first n files are on those files. */
  lemma CorpusOccBounds(corpus: seq<Document>, n: nat, w: string)
    requires n <= |corpus|
    ensures forall p | p in CorpusOcc(corpus, n, w) :: p.doc < n
  {
    CorpusOccMembership(corpus, n, w);
  }

  lemma {:induction false} CorpusOccOrder(corpus: seq<Document>, n: nat, w: string)
    requires n <= |corpus|
    ensures InScanOrder(CorpusOcc(corpus, n, w))
  {
    if n > 0 {
      CorpusOccOrder(corpus, n - 1, w);
      CorpusOccBounds(corpus, n - 1, w);
      DocOccOrder(n - 1, corpus[n - 1].tokens, w);
      DocOccBounds(n - 1, corpus[n - 1].tokens, w);
      var a := CorpusOcc(corpus, n - 1, w);
      var b := DocOcc(n - 1, corpus[n - 1].tokens, w);
      assert forall p, q | p in a && q in b :: Before(p, q) by {
        forall p, q | p in a && q in b ensures Before(p, q) {
          assert p.doc < n - 1 && q.doc == n - 1;
        }
      }
      ConcatInScanOrder(a, b);
      assert CorpusOcc(corpus, n, w) == a + b;
    }
  }

  /** One token of makeIndex: its posting is appended to the list of its term, made
      when absent, unless the term is "" or a stop word. */
  function AddToken(index: Index, stopList: map<int, string>, word: string, p: Posting): Index {
    if word !in stopList.Values && word != "" then
      index[word := if word in index then index[word] + [p] else [p]]
    else index
  }

  /** The index after the tokens toks of file d. */
  function IndexFile(index: Index, stopList: map<int, string>, d: nat, toks: seq<string>): Index {
    if toks == [] then index
    else
      AddToken(IndexFile(index, stopList, d, toks[..|toks| - 1]), stopList,
               Normalize(toks[|toks| - 1]), Posting(d, |toks| - 1))
  }

  /** The index after the first n files of the corpus, starting from an empty table. */
  function BuildIndex(corpus: seq<Document>, stopList: map<int, string>, n: nat): Index
    requires n <= |corpus|
  {
    if n == 0 then map[] else IndexFile(BuildIndex(corpus, stopList, n - 1), stopList, n - 1, corpus[n - 1].tokens)
  }

  /** The index holds the occurrences of the first i files. */
  ghost predicate IndexedUpTo(index: Index, corpus: seq<Document>, stopList: map<int, string>, i: nat)
    requires i <= |corpus|
  {
    forall w ::
      && (w in index <==> IsTerm(w, stopList) && CorpusOcc(corpus, i, w) != [])
      && (w in index ==> index[w] == CorpusOcc(corpus, i, w))
  }

  /** The occurrences of the first i files and of the first j tokens of file i. */
  function Scanned(corpus: seq<Document>, i: nat, j: nat, w: string): seq<Posting>
    requires i < |corpus| && j <= |corpus[i].tokens|
  {
    CorpusOcc(corpus, i, w) + DocOcc(i, corpus[i].tokens[..j], w)
  }

  ghost predicate IndexedWithin(index: Index, corpus: seq<Document>, stopList: map<int, string>, i: nat, j: nat)
    requires i < |corpus| && j <= |corpus[i].tokens|
  {
    forall w ::
      && (w in index <==> IsTerm(w, stopList) && Scanned(corpus, i, j, w) != [])
      && (w in index ==> index[w] == Scanned(corpus, i, j, w))
  }

  lemma ScanStart(index: Index, corpus: seq<Document>, stopList: map<int, string>, i: nat)
    requires i < |corpus| && IndexedUpTo(index, corpus, stopList, i)
    ensures IndexedWithin(index, corpus, stopList, i, 0)
  {
    forall w ensures Scanned(corpus, i, 0, w) == CorpusOcc(corpus, i, w) {
      assert corpus[i].tokens[..0] == [];
    }
  }

  lemma ScanEnd(index: Index, corpus: seq<Document>, stopList: map<int, string>, i: nat)
    requires i < |corpus| && IndexedWithin(index, corpus, stopList, i, |corpus[i].tokens|)
    ensures IndexedUpTo(index, corpus, stopList, i + 1)
  {
    assert corpus[i].tokens[..|corpus[i].tokens|] == corpus[i].tokens;
  }

  /** One token of makeIndex: the posting is appended to the list of the token's term
      exactly when that term is neither "" nor a stop word. */
  lemma ScanStep(before: Index, after: Index, corpus: seq<Document>, stopList: map<int, string>, i: nat, j: nat)
    requires i < |corpus| && j < |corpus[i].tokens|
    requires IndexedWithin(before, corpus, stopList, i, j)
    requires var word := Normalize(corpus[i].tokens[j]);
      after == if IsTerm(word, stopList)
        then before[word := if word in before then before[word] + [Posting(i, j)] else [Posting(i, j)]]
        else before
    ensures IndexedWithin(after, corpus, stopList, i, j + 1)
  {
    var word := Normalize(corpus[i].tokens[j]);
    forall w ensures Scanned(corpus, i, j + 1, w) == Scanned(corpus, i, j, w) + (if word == w then [Posting(i, j)] else []) {
      ScannedStep(corpus, i, j, w);
    }
  }

  lemma ScannedStep(corpus: seq<Document>, i: nat, j: nat, w: string)
    requires i < |corpus| && j < |corpus[i].tokens|
    ensures Scanned(corpus, i, j + 1, w)
      == Scanned(corpus, i, j, w) + (if Normalize(corpus[i].tokens[j]) == w then [Posting(i, j)] else [])
  {
    var toks := corpus[i].tokens;
    assert toks[..j + 1][..j] == toks[..j];
    assert DocOcc(i, toks[..j + 1], w) == DocOcc(i, toks[..j], w) + (if Normalize(toks[j]) == w then [Posting(i, j)] else []);
  }

  lemma {:induction false} IndexFileScans(index: Index, corpus: seq<Document>, stopList: map<int, string>, i: nat, j: nat)
    requires i < |corpus| && j <= |corpus[i].tokens|
    requires IndexedUpTo(index, corpus, stopList, i)
    ensures IndexedWithin(IndexFile(index, stopList, i, corpus[i].tokens[..j]), corpus, stopList, i, j)
  {
    var toks := corpus[i].tokens;
    if j == 0 {
      ScanStart(index, corpus, stopList, i);
    } else {
      var before := IndexFile(index, stopList, i, toks[..j - 1]);
      var after := IndexFile(index, stopList, i, toks[..j]);
      assert after == AddToken(before, stopList, Normalize(toks[j - 1]), Posting(i, j - 1)) by {
        assert toks[..j][..j - 1] == toks[..j - 1];
      }
      IndexFileScans(index, corpus, stopList, i, j - 1);
      ScanStep(before, after, corpus, stopList, i, j - 1);
    }
  }

  /** Scanning all of file i extends an index of the first i files to the first i + 1. */
  lemma FileScans(index: Index, corpus: seq<Document>, stopList: map<int, string>, i: nat)
    requires i < |corpus| && IndexedUpTo(index, corpus, stopList, i)
    ensures IndexedUpTo(IndexFile(index, stopList, i, corpus[i].tokens), corpus, stopList, i + 1)
  {
    var toks := corpus[i].tokens;
    IndexFileScans(index, corpus, stopList, i, |toks|);
    assert toks[..|toks|] == toks;
    ScanEnd(IndexFile(index, stopList, i, toks), corpus, stopList, i);
  }

  lemma {:induction false} BuildIndexScans(corpus: seq<Document>, stopList: map<int, string>, n: nat)
    requires n <= |corpus|
    ensures IndexedUpTo(BuildIndex(corpus, stopList, n), corpus, stopList, n)
  {
    if n > 0 {
      var prev := BuildIndex(corpus, stopList, n - 1);
      BuildIndexScans(corpus, stopList, n - 1);
      FileScans(prev, corpus, stopList, n - 1);
      assert BuildIndex(corpus, stopList, n) == IndexFile(prev, stopList, n - 1, corpus[n - 1].tokens);
    }
  }

  /** Scanning the whole corpus yields its positional index. */
  lemma BuildIndexIsIndexOf(corpus: seq<Document>, stopList: map<int, string>)
    ensures IsIndexOf(BuildIndex(corpus, stopList, |corpus|), corpus, stopList)
  {
    BuildIndexScans(corpus, stopList, |corpus|);
  }

  /** The posting (f, j) is stored under w exactly when token j of file f normalises to
      w, and the list of w is in scan order: files ascending, positions strictly
      increasing within a file. Positions count every raw token, stop words and tokens
      that normalise to "" included. */
  lemma OccurrencesMeaning(corpus: seq<Document>, w: string)
    ensures forall p :: p in Occurrences(corpus, w) <==>
      ValidPosting(corpus, p) && Normalize(corpus[p.doc].tokens[p.pos]) == w
    ensures InScanOrder(Occurrences(corpus, w))
  {
    CorpusOccMembership(corpus, |corpus|, w);
    CorpusOccOrder(corpus, |corpus|, w);
  }

  /** The keys of the index are never "" and never stop words; every posting under w
      points at a token that normalises to exactly w; every occurrence of a term is
      recorded; and every list is non-empty, points at real tokens and is in scan order. */
  lemma IndexMeaning(index: Index, corpus: seq<Document>, stopList: map<int, string>, w: string)
    requires IsIndexOf(index, corpus, stopList)
    ensures w in index ==> w != "" && w !in stopList.Values
    ensures w in index ==> InScanOrder(index[w])
    ensures forall f: nat, j: nat | f < |corpus| && j < |corpus[f].tokens| ::
      Normalize(corpus[f].tokens[j]) == w && IsTerm(w, stopList) ==>
        w in index && Posting(f, j) in index[w]
    ensures w in index ==> forall p | p in index[w] ::
      ValidPosting(corpus, p) && Normalize(corpus[p.doc].tokens[p.pos]) == w
  {
    OccurrencesMeaning(corpus, w);
    forall f: nat, j: nat | f < |corpus| && j < |corpus[f].tokens| &&
      Normalize(corpus[f].tokens[j]) == w && IsTerm(w, stopList)
      ensures w in index && Posting(f, j) in index[w]
    {
      assert Posting(f, j) in Occurrences(corpus, w);
    }
  }

  lemma IndexIsWellFormed(index: Index, corpus: seq<Document>, stopList: map<int, string>)
    requires IsIndexOf(index, corpus, stopList)
    ensures WellFormed(index, corpus)
  {
    forall w | w in index ensures index[w] != [] && forall p | p in index[w] :: ValidPosting(corpus, p) {
      IndexMeaning(index, corpus, stopList, w);
    }
  }

  // ---------------------------------------------------------------------------------
  // search(): per-document counts of a posting list
  // ---------------------------------------------------------------------------------

  /** The number of postings of file d in list. */
  function Count(list: seq<Posting>, d: nat): nat {
    if list == [] then 0 else (if list[0].doc == d then 1 else 0) + Count(list[1..], d)
  }

  /** The files that have at least one posting in list. */
  function Docs(list: seq<Posting>): set<nat> {
    set p | p in list :: p.doc
  }

  /** The count table search() fills by walking the list: put 1 for a new file,
      replace by count + 1 for a file seen before. */
  function Tally(list: seq<Posting>): map<nat, nat> {
    if list == [] then map[]
    else
      var t := Tally(list[..|list| - 1]);
      var d := list[|list| - 1].doc;
      t[d := if d in t then t[d] + 1 else 1]
  }

  /** search(word): null when the lower-cased word is not a key, the count table otherwise. */
  function Lookup(index: Index, word: string): Option<map<nat, nat>> {
    var key := Lower(word);
    if key in index then Some(Tally(index[key])) else None
  }

  lemma {:induction false} CountSnoc(list: seq<Posting>, p: Posting, d: nat)
    ensures Count(list + [p], d) == Count(list, d) + (if p.doc == d then 1 else 0)
  {
    if list != [] {
      assert (list + [p])[1..] == list[1..] + [p];
      CountSnoc(list[1..], p, d);
    }
  }

  lemma {:induction false} CountPositive(list: seq<Posting>, d: nat)
    ensures Count(list, d) > 0 <==> d in Docs(list)
  {
    if list != [] {
      CountPositive(list[1..], d);
      assert list == [list[0]] + list[1..];
      assert Docs(list) == {list[0].doc} + Docs(list[1..]);
    }
  }

  /** The table has a key for exactly the files with a posting, and each count is that
      file's number of postings; so every count is at least 1. */
  lemma {:induction false} TallyCounts(list: seq<Posting>)
    ensures Tally(list).Keys == Docs(list)
    ensures forall d | d in Tally(list) :: Tally(list)[d] == Count(list, d) >= 1
  {
    if list != [] {
      var init := list[..|list| - 1];
      var p := list[|list| - 1];
      TallyCounts(init);
      assert list == init + [p];
      assert Docs(list) == Docs(init) + {p.doc};
      forall d | d in Tally(list) ensures Tally(list)[d] == Count(list, d) >= 1 {
        CountSnoc(init, p, d);
        CountPositive(init, d);
      }
    }
  }

  /** Sum of Count(list, d) over the files d < n. */
  function SumCounts(list: seq<Posting>, n: nat): nat {
    if n == 0 then 0 else SumCounts(list, n - 1) + Count(list, n - 1)
  }

  /** Sum of the counts of a table over the files d < n. */
  function TableTotal(t: map<nat, nat>, n: nat): nat {
    if n == 0 then 0 else TableTotal(t, n - 1) + (if n - 1 in t then t[n - 1] else 0)
  }

  lemma {:induction false} SumCountsCons(p: Posting, list: seq<Posting>, n: nat)
    ensures SumCounts([p] + list, n) == SumCounts(list, n) + (if p.doc < n then 1 else 0)
  {
    if n > 0 {
      SumCountsCons(p, list, n - 1);
      assert ([p] + list)[1..] == list;
    }
  }

  lemma {:induction false} SumCountsIsLength(list: seq<Posting>, n: nat)
    requires forall p | p in list :: p.doc < n
    ensures SumCounts(list, n) == |list|
  {
    if list == [] {
      SumCountsEmpty(n);
    } else {
      SumCountsIsLength(list[1..], n);
      SumCountsCons(list[0], list[1..], n);
      assert [list[0]] + list[1..] == list;
    }
  }

  lemma {:induction false} SumCountsEmpty(n: nat)
    ensures SumCounts([], n) == 0
  {
    if n > 0 {
      SumCountsEmpty(n - 1);
    }
  }

  lemma {:induction false} TableTotalOfTally(list: seq<Posting>, n: nat)
    ensures TableTotal(Tally(list), n) == SumCounts(list, n)
  {
    if n > 0 {
      TableTotalOfTally(list, n - 1);
      TallyCounts(list);
      CountPositive(list, n - 1);
    }
  }

  /** The counts of search() add up to the length of the posting list. */
  lemma TallyTotal(list: seq<Posting>, n: nat)
    requires forall p | p in list :: p.doc < n
    ensures TableTotal(Tally(list), n) == |list|
  {
    TableTotalOfTally(list, n);
    SumCountsIsLength(list, n);
  }

  /** The result of search(): null exactly for a word whose lower-case form is not a key;
      otherwise one entry per file with postings, holding its number of postings, and the
      counts sum to the length of the list. */
  lemma LookupMeaning(index: Index, corpus: seq<Document>, word: string)
    requires WellFormed(index, corpus)
    ensures Lookup(index, word).None? <==> Lower(word) !in index
    ensures Lookup(index, word).Some? ==>
      var list := index[Lower(word)];
      && Lookup(index, word).value.Keys == Docs(list)
      && (forall d | d in Docs(list) :: Lookup(index, word).value[d] == Count(list, d) >= 1)
      && TableTotal(Lookup(index, word).value, |corpus|) == |list|
  {
    if Lower(word) in index {
      var list := index[Lower(word)];
      TallyCounts(list);
      TallyTotal(list, |corpus|);
    }
  }

  /** If token j of file f normalises to the term t, a search for any word that normalises
      to t finds f with a count of at least 1. */
  lemma SearchFindsOccurrence(index: Index, corpus: seq<Document>, stopList: map<int, string>,
                              query: string, f: nat, j: nat)
    requires IsIndexOf(index, corpus, stopList)
    requires f < |corpus| && j < |corpus[f].tokens|
    requires Normalize(corpus[f].tokens[j]) == Normalize(query)
    requires IsTerm(Normalize(query), stopList)
    ensures Lookup(index, Normalize(query)).Some?
    ensures f in Lookup(index, Normalize(query)).value
    ensures Lookup(index, Normalize(query)).value[f] >= 1
  {
    var t := Normalize(query);
    IndexMeaning(index, corpus, stopList, t);
    LowerOfNormal(t);
    assert Posting(f, j) in index[t];
    TallyCounts(index[t]);
  }

  // ---------------------------------------------------------------------------------
  // searchDoc(): counts by file name
  // ---------------------------------------------------------------------------------

  /** The number of postings in list whose file has the given name. */
  function NameCount(list: seq<Posting>, corpus: seq<Document>, name: string): nat {
    if list == [] then 0
    else
      (if list[0].doc < |corpus| && corpus[list[0].doc].name == name then 1 else 0)
      + NameCount(list[1..], corpus, name)
  }

  predicate DistinctNames(corpus: seq<Document>) {
    forall i, j | 0 <= i < j < |corpus| :: corpus[i].name != corpus[j].name
  }

  /** When file names are distinct (files of one directory), counting by name is counting
      the postings of that one file. */
  lemma {:induction false} NameCountIsCount(list: seq<Posting>, corpus: seq<Document>, d: nat)
    requires DistinctNames(corpus) && d < |corpus|
    requires forall p | p in list :: p.doc < |corpus|
    ensures NameCount(list, corpus, corpus[d].name) == Count(list, d)
  {
    if list != [] {
      assert list[0] in list;
      NameCountIsCount(list[1..], corpus, d);
    }
  }

  // ---------------------------------------------------------------------------------
  // makeStemmedIndex(): merging the lists of keys with a common stem
  // ---------------------------------------------------------------------------------

  /** The concatenation, in the order of order, of the lists of the keys that stem to s. */
  function Group(order: seq<string>, raw: Index, stem: string -> string, s: string): seq<Posting>
    requires forall k | k in order :: k in raw
  {
    if order == [] then []
    else
      Group(order[..|order| - 1], raw, stem, s)
      + (if stem(order[|order| - 1]) == s then raw[order[|order| - 1]] else [])
  }

  function StemSet(order: seq<string>, stem: string -> string): set<string> {
    set k | k in order :: stem(k)
  }

  /** The stems in the order of their first appearance. */
  function Stems(order: seq<string>, stem: string -> string): seq<string> {
    if order == [] then []
    else
      var init := order[..|order| - 1];
      var s := stem(order[|order| - 1]);
      Stems(init, stem) + (if s in StemSet(init, stem) then [] else [s])
  }

  /** sidx is the stemmed index of raw when raw's keys are visited in the order order. */
  ghost predicate IsStemmedIndexOf(sidx: Index, raw: Index, order: seq<string>, stem: string -> string)
    requires forall k | k in order :: k in raw
  {
    && (forall s :: s in sidx <==> s in StemSet(order, stem))
    && (forall s | s in sidx :: sidx[s] == Group(order, raw, stem, s))
  }

  lemma StemSetOfListing(order: seq<string>, raw: Index, stem: string -> string)
    requires IsListing(order, raw.Keys)
    ensures StemSet(order, stem) == set k | k in raw :: stem(k)
  {
  }

  /** A posting is in the merged list of s exactly when it is in the list of a key that
      stems to s. */
  lemma {:induction false} GroupMembership(order: seq<string>, raw: Index, stem: string -> string, s: string)
    requires forall k | k in order :: k in raw
    ensures forall k, p | k in order && stem(k) == s && p in raw[k] :: p in Group(order, raw, stem, s)
    ensures forall p | p in Group(order, raw, stem, s) ::
      exists k | k in order :: stem(k) == s && p in raw[k]
  {
    if order != [] {
      var init := order[..|order| - 1];
      GroupMembership(init, raw, stem, s);
      assert order == init + [order[|order| - 1]];
    }
  }

  lemma {:induction false} GroupOfAbsentStem(order: seq<string>, raw: Index, stem: string -> string, s: string)
    requires forall k | k in order :: k in raw
    requires s !in StemSet(order, stem)
    ensures Group(order, raw, stem, s) == []
  {
    if order != [] {
      var init := order[..|order| - 1];
      assert StemSet(init, stem) <= StemSet(order, stem);
      GroupOfAbsentStem(init, raw, stem, s);
    }
  }

  lemma {:induction false} StemsListStemSet(order: seq<string>, stem: string -> string)
    ensures Distinct(Stems(order, stem))
    ensures forall s :: s in Stems(order, stem) <==> s in StemSet(order, stem)
  {
    if order != [] {
      var init := order[..|order| - 1];
      StemsListStemSet(init, stem);
      assert order == init + [order[|order| - 1]];
      assert StemSet(order, stem) == StemSet(init, stem) + {stem(order[|order| - 1])};
    }
  }

  /** The stemmed lists are non-empty and hold only valid postings when the raw ones do. */
  lemma StemmedIsWellFormed(sidx: Index, raw: Index, order: seq<string>, stem: string -> string, corpus: seq<Document>)
    requires forall k | k in order :: k in raw
    requires WellFormed(raw, corpus)
    requires IsStemmedIndexOf(sidx, raw, order, stem)
    ensures WellFormed(sidx, corpus)
  {
    forall s | s in sidx ensures sidx[s] != [] && forall p | p in sidx[s] :: ValidPosting(corpus, p) {
      GroupMembership(order, raw, stem, s);
      var k :| k in order && stem(k) == s;
      assert raw[k] != [] && raw[k][0] in raw[k];
      assert raw[k][0] in Group(order, raw, stem, s);
    }
  }

  /** Sum of the lengths of the lists of the keys. */
  function SumLengths(keys: seq<string>, idx: Index): nat
    requires forall k | k in keys :: k in idx
  {
    if keys == [] then 0 else SumLengths(keys[..|keys| - 1], idx) + |idx[keys[|keys| - 1]]|
  }

  /** Sum of the lengths of the merged lists of the stems. */
  function SumGroups(stems: seq<string>, order: seq<string>, raw: Index, stem: string -> string): nat
    requires forall k | k in order :: k in raw
  {
    if stems == [] then 0
    else SumGroups(stems[..|stems| - 1], order, raw, stem) + |Group(order, raw, stem, stems[|stems| - 1])|
  }

  lemma {:induction false} SumGroupsStep(stems: seq<string>, order: seq<string>, raw: Index, stem: string -> string)
    requires order != [] && forall k | k in order :: k in raw
    requires Distinct(stems)
    ensures
      var init := order[..|order| - 1];
      var k := order[|order| - 1];
      SumGroups(stems, order, raw, stem)
        == SumGroups(stems, init, raw, stem) + (if stem(k) in stems then |raw[k]| else 0)
  {
    if stems != [] {
      var ss := stems[..|stems| - 1];
      assert Distinct(ss);
      SumGroupsStep(ss, order, raw, stem);
      assert stems == ss + [stems[|stems| - 1]];
    }
  }

  /** Merging loses and duplicates no posting: the merged lists together hold as many
      postings as the raw lists. */
  lemma {:induction false} MergeKeepsPostingCount(order: seq<string>, raw: Index, stem: string -> string)
    requires forall k | k in order :: k in raw
    ensures SumGroups(Stems(order, stem), order, raw, stem) == SumLengths(order, raw)
  {
    if order != [] {
      var init := order[..|order| - 1];
      var k := order[|order| - 1];
      var s0 := Stems(init, stem);
      MergeKeepsPostingCount(init, raw, stem);
      StemsListStemSet(init, stem);
      SumGroupsStep(s0, order, raw, stem);
      assert SumLengths(order, raw) == SumGroups(s0, init, raw, stem) + |raw[k]|;
      if stem(k) !in StemSet(init, stem) {
        var x := stem(k);
        GroupOfAbsentStem(init, raw, stem, x);
        assert Stems(order, stem) == s0 + [x];
        assert (s0 + [x])[..|s0|] == s0;
        assert Group(order, raw, stem, x) == raw[k];
        assert SumGroups(s0 + [x], order, raw, stem)
          == SumGroups(s0, order, raw, stem) + |Group(order, raw, stem, x)|;
      } else {
        assert Stems(order, stem) == s0;
      }
    }
  }

  /** The stemmed table after the keys of order: a stem met for the first time gets the
      list of its key, a later key with the same stem appends its list to it. */
  function Merge(order: seq<string>, raw: Index, stem: string -> string): Index
    requires forall k | k in order :: k in raw
  {
    if order == [] then map[]
    else
      var m := Merge(order[..|order| - 1], raw, stem);
      var k := order[|order| - 1];
      m[stem(k) := if stem(k) in m then m[stem(k)] + raw[k] else raw[k]]
  }

  lemma {:induction false} MergeKeys(order: seq<string>, raw: Index, stem: string -> string)
    requires forall k | k in order :: k in raw
    ensures Merge(order, raw, stem).Keys == StemSet(order, stem)
  {
    if order != [] {
      var init := order[..|order| - 1];
      MergeKeys(init, raw, stem);
      assert order == init + [order[|order| - 1]];
      assert StemSet(order, stem) == StemSet(init, stem) + {stem(order[|order| - 1])};
    }
  }

  /** Merging in the order of order yields the stemmed index of raw. */
  lemma {:induction false} MergeIsStemmedIndex(order: seq<string>, raw: Index, stem: string -> string)
    requires forall k | k in order :: k in raw
    ensures IsStemmedIndexOf(Merge(order, raw, stem), raw, order, stem)
  {
    if order != [] {
      var init := order[..|order| - 1];
      var k := order[|order| - 1];
      var m, w := Merge(init, raw, stem), stem(k);
      MergeIsStemmedIndex(init, raw, stem);
      assert order == init + [k];
      assert StemSet(order, stem) == StemSet(init, stem) + {w};
      assert Merge(order, raw, stem) == m[w := if w in m then m[w] + raw[k] else raw[k]];
      forall s | s in Merge(order, raw, stem) ensures Merge(order, raw, stem)[s] == Group(order, raw, stem, s) {
        assert Group(order, raw, stem, s) == Group(init, raw, stem, s) + (if w == s then raw[k] else []);
        if s == w && w !in m {
          GroupOfAbsentStem(init, raw, stem, w);
        }
      }
    }
  }

  /** For each stem met in order, its first key: the key whose list object
      makeStemmedIndex stores for the stem. */
  function Owners(order: seq<string>, stem: string -> string): map<string, string> {
    if order == [] then map[]
    else
      var o := Owners(order[..|order| - 1], stem);
      var k := order[|order| - 1];
      if stem(k) in o then o else o[stem(k) := k]
  }

  /** Owners has an entry for every stem of order, and the entry of a stem s is a key of
      order that stems to s. */
  lemma {:induction false} OwnersValues(order: seq<string>, stem: string -> string)
    ensures forall s | s in Owners(order, stem) :: Owners(order, stem)[s] in order && stem(Owners(order, stem)[s]) == s
  {
    if order != [] {
      var init := order[..|order| - 1];
      OwnersValues(init, stem);
      assert order == init + [order[|order| - 1]];
    }
  }

  lemma {:induction false} OwnersKeySet(order: seq<string>, stem: string -> string)
    ensures forall s :: s in Owners(order, stem) <==> s in StemSet(order, stem)
  {
    if order != [] {
      var init := order[..|order| - 1];
      var k := order[|order| - 1];
      OwnersKeySet(init, stem);
      assert order == init + [k];
      assert StemSet(order, stem) == StemSet(init, stem) + {stem(k)};
    }
  }

  /** The entry of a stem is its FIRST key in order. */
  lemma {:induction false} OwnersFirst(order: seq<string>, stem: string -> string)
    ensures forall j | 0 <= j < |order| && (forall l | 0 <= l < j :: stem(order[l]) != stem(order[j])) ::
      stem(order[j]) in Owners(order, stem) && Owners(order, stem)[stem(order[j])] == order[j]
  {
    if order != [] {
      var init := order[..|order| - 1];
      var k := order[|order| - 1];
      OwnersFirst(init, stem);
      OwnersValues(init, stem);
      forall j | 0 <= j < |order| && (forall l | 0 <= l < j :: stem(order[l]) != stem(order[j]))
        ensures stem(order[j]) in Owners(order, stem) && Owners(order, stem)[stem(order[j])] == order[j]
      {
        if j < |init| {
          assert order[j] == init[j];
          assert forall l | 0 <= l < j :: init[l] == order[l];
        }
      }
    }
  }

  lemma {:induction false} OwnersKeys(order: seq<string>, raw: Index, stem: string -> string)
    requires forall k | k in order :: k in raw
    ensures Owners(order, stem).Keys == Merge(order, raw, stem).Keys
  {
    if order != [] {
      OwnersKeys(order[..|order| - 1], raw, stem);
    }
  }

  /** The raw table once the stemmed lists are built in place: the list object of the
      first key of a stem is the one the stemmed table holds for that stem, so the raw entry
      of that key shows the merged list; every other entry is unchanged. */
  function Shared(raw: Index, owners: map<string, string>, sidx: Index, stem: string -> string): (r: Index)
    ensures r.Keys == raw.Keys
  {
    map k | k in raw :: if stem(k) in owners && owners[stem(k)] == k && stem(k) in sidx then sidx[stem(k)] else raw[k]
  }

  /** The merge loop once the keys in done are visited: the stemmed table, the first key
      of each stem, and the raw table seen through the shared lists. */
  ghost predicate StemmedUpTo(done: seq<string>, raw: Index, stem: string -> string,
                              sidx: Index, owner: map<string, string>, idx: Index)
    requires forall k | k in done :: k in raw
  {
    && sidx == Merge(done, raw, stem)
    && owner == Owners(done, stem)
    && idx == Shared(raw, owner, sidx, stem)
  }

  lemma StemmedStart(raw: Index, stem: string -> string)
    ensures StemmedUpTo([], raw, stem, map[], map[], raw)
  {
  }

  /** Appending to the shared list of stem w changes the raw entry of its first key. */
  lemma SharedAppend(raw: Index, owners: map<string, string>, sidx: Index, stem: string -> string,
                     w: string, list: seq<Posting>)
    requires w in owners && w in sidx && owners[w] in raw && stem(owners[w]) == w
    ensures Shared(raw, owners, sidx, stem)[owners[w] := list] == Shared(raw, owners, sidx[w := list], stem)
  {
    var a := Shared(raw, owners, sidx, stem)[owners[w] := list];
    var b := Shared(raw, owners, sidx[w := list], stem);
    forall x | x in raw ensures a[x] == b[x] {
    }
  }

  /** Sharing the list of k under a new stem changes no raw entry. */
  lemma SharedAdd(raw: Index, owners: map<string, string>, sidx: Index, stem: string -> string, k: string)
    requires k in raw && stem(k) !in owners && stem(k) !in sidx
    ensures Shared(raw, owners, sidx, stem) == Shared(raw, owners[stem(k) := k], sidx[stem(k) := raw[k]], stem)
  {
    var a := Shared(raw, owners, sidx, stem);
    var b := Shared(raw, owners[stem(k) := k], sidx[stem(k) := raw[k]], stem);
    forall x | x in raw ensures a[x] == b[x] {
    }
  }

  /** A key not yet visited is nobody's first key, so its raw entry is still its own list. */
  lemma StemmedKeyUnshared(done: seq<string>, k: string, raw: Index, stem: string -> string,
                           sidx: Index, owner: map<string, string>, idx: Index)
    requires forall x | x in done :: x in raw
    requires k in raw && k !in done
    requires StemmedUpTo(done, raw, stem, sidx, owner, idx)
    ensures k in idx && idx[k] == raw[k]
  {
    OwnersValues(done, stem);
  }

  /** The next key k when its stem w was met before: its list is appended to the list of w,
      which is also the raw entry of the first key of w. */
  lemma {:induction false} StemmedSeen(done: seq<string>, k: string, raw: Index, stem: string -> string,
                                       sidx: Index, owner: map<string, string>, idx: Index)
    requires forall x | x in done :: x in raw
    requires k in raw && StemmedUpTo(done, raw, stem, sidx, owner, idx)
    requires stem(k) in sidx
    ensures var w := stem(k);
      && w in owner && owner[w] in raw
      && StemmedUpTo(done + [k], raw, stem, sidx[w := sidx[w] + raw[k]], owner, idx[owner[w] := sidx[w] + raw[k]])
  {
    var w := stem(k);
    var nxt := done + [k];
    assert nxt[..|nxt| - 1] == done && nxt[|nxt| - 1] == k;
    OwnersKeys(done, raw, stem);
    OwnersValues(done, stem);
    SharedAppend(raw, owner, sidx, stem, w, sidx[w] + raw[k]);
  }

  /** The next key k when its stem w is new: w gets the key's list, shared with the raw
      entry of k, which becomes the first key of w. */
  lemma {:induction false} StemmedNew(done: seq<string>, k: string, raw: Index, stem: string -> string,
                                      sidx: Index, owner: map<string, string>, idx: Index)
    requires forall x | x in done :: x in raw
    requires k in raw && StemmedUpTo(done, raw, stem, sidx, owner, idx)
    requires stem(k) !in sidx
    ensures StemmedUpTo(done + [k], raw, stem, sidx[stem(k) := raw[k]], owner[stem(k) := k], idx)
  {
    var nxt := done + [k];
    var w := stem(k);
    assert nxt[..|nxt| - 1] == done && nxt[|nxt| - 1] == k;
    assert Merge(nxt, raw, stem) == sidx[w := raw[k]];
    OwnersKeys(done, raw, stem);
    assert Owners(nxt, stem) == owner[w := k];
    assert idx == Shared(raw, owner[w := k], sidx[w := raw[k]], stem) by {
      SharedAdd(raw, owner, sidx, stem, k);
    }
  }

  /** Sharing the lists keeps a well-formed raw table well formed. */
  lemma SharedIsWellFormed(raw: Index, owners: map<string, string>, sidx: Index, stem: string -> string, corpus: seq<Document>)
    requires WellFormed(raw, corpus) && WellFormed(sidx, corpus)
    ensures WellFormed(Shared(raw, owners, sidx, stem), corpus)
  {
  }

  /** With "run" before "running" and both stemming to "run", building the stemmed index
      in place leaves the raw entry of "run" holding the postings of "running" too. */
  lemma SharedListGrowsRawEntry(stem: string -> string)
    requires stem("run") == "run" && stem("running") == "run"
    ensures var raw := map["run" := [Posting(0, 0)], "running" := [Posting(1, 0)]];
      var order := ["run", "running"];
      && Shared(raw, Owners(order, stem), Merge(order, raw, stem), stem)["run"] == [Posting(0, 0), Posting(1, 0)]
      && raw["run"] == [Posting(0, 0)]
  {
    var order := ["run", "running"];
    assert order[..1] == ["run"] && order[..1][..0] == [];
  }

  // ---------------------------------------------------------------------------------
  // searchWords(): query terms, intersections
  // ---------------------------------------------------------------------------------

  /** The words searchWords keeps from the pieces of the query: each piece normalised,
      the pieces that normalise to "" dropped. */
  function QueryTerms(pieces: seq<string>): (r: seq<string>)
    ensures forall k | 0 <= k < |r| :: r[k] != "" && IsNormal(r[k])
  {
    if pieces == [] then []
    else
      var t := Normalize(pieces[|pieces| - 1]);
      QueryTerms(pieces[..|pieces| - 1]) + (if t != "" then [t] else [])
  }

  lemma {:induction false} QueryTermsMembership(pieces: seq<string>, t: string)
    ensures t in QueryTerms(pieces) <==> t != "" && exists x | x in pieces :: Normalize(x) == t
  {
    if pieces != [] {
      var init := pieces[..|pieces| - 1];
      QueryTermsMembership(init, t);
      assert pieces == init + [pieces[|pieces| - 1]];
    }
  }

  /** The elements x of xs with (x in ys) == inside, in the order of xs. */
  function Select(xs: seq<nat>, ys: seq<nat>, inside: bool): seq<nat> {
    if xs == [] then []
    else
      Select(xs[..|xs| - 1], ys, inside)
      + (if (xs[|xs| - 1] in ys) == inside then [xs[|xs| - 1]] else [])
  }

  lemma {:induction false} SelectMeaning(xs: seq<nat>, ys: seq<nat>, inside: bool)
    ensures forall x :: x in Select(xs, ys, inside) <==> x in xs && (x in ys) == inside
    ensures Distinct(xs) ==> Distinct(Select(xs, ys, inside))
  {
    if xs != [] {
      var init := xs[..|xs| - 1];
      SelectMeaning(init, ys, inside);
      assert xs == init + [xs[|xs| - 1]];
    }
  }

  /** Nothing of xs is outside ys when every element of xs is in ys. */
  lemma SelectOutsideOfSubset(xs: seq<nat>, ys: seq<nat>)
    requires forall x | x in xs :: x in ys
    ensures Select(xs, ys, false) == []
  {
    SelectMeaning(xs, ys, false);
    if Select(xs, ys, false) != [] {
      assert Select(xs, ys, false)[0] in Select(xs, ys, false);
    }
  }

  /** The stems of the query words that are not stop words, in query order
      (the stemmed pass of searchWordsStemmed). */
  function NonStopStems(words: seq<string>, stem: string -> string, stopList: map<int, string>): seq<string> {
    if words == [] then []
    else
      var s := Lower(stem(words[|words| - 1]));
      NonStopStems(words[..|words| - 1], stem, stopList) + (if s !in stopList.Values then [s] else [])
  }

  lemma {:induction false} NonStopStemsPrefix(words: seq<string>, i: nat, stem: string -> string, stopList: map<int, string>)
    requires i <= |words|
    ensures NonStopStems(words[..i], stem, stopList) <= NonStopStems(words, stem, stopList)
    decreases |words| - i
  {
    if i < |words| {
      NonStopStemsPrefix(words, i + 1, stem, stopList);
      assert words[..i + 1][..i] == words[..i];
    } else {
      assert words[..i] == words;
    }
  }

  // ---------------------------------------------------------------------------------
  // snippet()
  // ---------------------------------------------------------------------------------

  /** The first posting of file d in list, if there is one. */
  function FirstIn(list: seq<Posting>, d: nat): (r: Option<Posting>)
    ensures r.Some? ==> r.value in list && r.value.doc == d
    ensures r.None? <==> forall p | p in list :: p.doc != d
  {
    if list == [] then None
    else if list[0].doc == d then Some(list[0])
    else FirstIn(list[1..], d)
  }

  lemma {:induction false} FirstInAt(list: seq<Posting>, d: nat, i: nat)
    requires i < |list| && list[i].doc == d
    requires forall k | 0 <= k < i :: list[k].doc != d
    ensures FirstIn(list, d) == Some(list[i])
  {
    if i > 0 {
      FirstInAt(list[1..], d, i - 1);
    }
  }

  /** In a list in scan order the first posting of a file is its earliest occurrence. */
  lemma {:induction false} FirstInIsEarliest(list: seq<Posting>, d: nat)
    requires InScanOrder(list) && FirstIn(list, d).Some?
    ensures forall q | q in list && q.doc == d :: FirstIn(list, d).value.pos <= q.pos
  {
    if list[0].doc != d {
      FirstInIsEarliest(list[1..], d);
    } else {
      forall q | q in list && q.doc == d ensures list[0].pos <= q.pos {
        var j :| 0 <= j < |list| && list[j] == q;
        if j > 0 {
          assert Before(list[0], list[j]);
        }
      }
    }
  }

  /** The 1-based token counts snippet() keeps for a stored offset loc and radius len:
      from max(1, loc - len) to loc + len, cut at the end of the file. */
  function SnippetWindow(toks: seq<string>, loc: nat, len: nat): seq<string>
    requires 1 <= loc < |toks|
  {
    var start := if loc - len <= 0 then 1 else loc - len;
    var end := loc + len;
    toks[start - 1 .. if end < |toks| then end else |toks|]
  }

  /** What snippet() returns for the posting list of the word, as written: nothing when
      file d has no posting or when its first posting has offset 0, the window around
      the offset otherwise. */
  function SnippetOf(list: seq<Posting>, d: nat, toks: seq<string>, len: nat): Option<string>
    requires forall p | p in list && p.doc == d :: p.pos < |toks|
  {
    match FirstIn(list, d)
    case None => None
    case Some(p) => if p.pos == 0 then None else Some(Join(SnippetWindow(toks, p.pos, len)))
  }

  /** The len tokens on each side of the 0-based position loc, and that token itself. */
  function CenteredWindow(toks: seq<string>, loc: nat, len: nat): seq<string>
    requires loc < |toks|
  {
    toks[if loc - len < 0 then 0 else loc - len .. if loc + len + 1 < |toks| then loc + len + 1 else |toks|]
  }

  /** The snippet as its documentation describes it: the first occurrence in file d at the
      centre, whatever its offset. */
  function CenteredSnippetOf(list: seq<Posting>, d: nat, toks: seq<string>, len: nat): Option<string>
    requires forall p | p in list && p.doc == d :: p.pos < |toks|
  {
    match FirstIn(list, d)
    case None => None
    case Some(p) => Some(Join(CenteredWindow(toks, p.pos, len)))
  }

  /** The centred window holds at most 2 * len + 1 tokens and has the occurrence itself
      at its centre, with len tokens on each side where the file allows. */
  lemma CenteredWindowMeaning(toks: seq<string>, loc: nat, len: nat)
    requires loc < |toks|
    ensures var w := CenteredWindow(toks, loc, len);
      var lo := if loc - len < 0 then 0 else loc - len;
      && |w| <= 2 * len + 1
      && lo <= loc && loc - lo < |w| && w[loc - lo] == toks[loc]
      && (loc >= len ==> loc - lo == len)
      && (loc + len < |toks| ==> |w| - 1 - (loc - lo) == len)
  {
  }

  /** The corrected snippet is missing exactly when the file has no posting in the list. */
  lemma CenteredSnippetFound(list: seq<Posting>, d: nat, toks: seq<string>, len: nat)
    requires forall p | p in list && p.doc == d :: p.pos < |toks|
    ensures CenteredSnippetOf(list, d, toks, len).Some? <==> exists p | p in list :: p.doc == d
  {
    if FirstIn(list, d).None? {
      assert forall p | p in list :: p.doc != d;
    }
  }

  /** The window holds at most 2 * len + 1 consecutive tokens centred on token loc - 1
      (0-based), the token BEFORE the stored offset: it reaches len tokens to each side of
      it where the file allows, and it contains the token at the offset itself exactly
      when len >= 1. */
  lemma SnippetWindowMeaning(toks: seq<string>, loc: nat, len: nat)
    requires 1 <= loc < |toks|
    ensures var w := SnippetWindow(toks, loc, len);
      var lo := if loc - 1 - len < 0 then 0 else loc - 1 - len;
      var hi := if loc + len < |toks| then loc + len else |toks|;
      && |w| <= 2 * len + 1
      && w == toks[lo..hi]
      && lo <= loc - 1 < hi
      && (loc < hi <==> len >= 1)
  {
  }

  /** A word that opens the file gets no snippet as written: its offset 0 is taken for
      "not found". The centred snippet has it. */
  lemma FirstTokenHasNoSnippet()
    ensures SnippetOf([Posting(0, 0)], 0, ["run", "fast"], 1) == None
    ensures CenteredSnippetOf([Posting(0, 0)], 0, ["run", "fast"], 1) == Some("run fast")
  {
    var toks := ["run", "fast"];
    assert FirstIn([Posting(0, 0)], 0) == Some(Posting(0, 0));
    assert CenteredWindow(toks, 0, 1) == toks;
    assert toks[..1] == ["run"];
    assert Join(toks) == "run" + " " + "fast";
    assert "run" + " " + "fast" == "run fast";
    assert CenteredSnippetOf([Posting(0, 0)], 0, toks, 1) == Some(Join(CenteredWindow(toks, 0, 1)));
  }

  /** With radius 0 the window as written is the token before the occurrence, not the
      occurrence itself. */
  lemma WindowCentredBeforeMatch()
    ensures SnippetWindow(["a", "b"], 1, 0) == ["a"]
    ensures CenteredWindow(["a", "b"], 1, 0) == ["b"]
  {
  }
}
