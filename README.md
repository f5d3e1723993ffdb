# Inverted index information retrieval, in Dafny

A model of the core of a small Java search engine. The engine builds a positional
inverted index over a directory of text files and searches it from the command line.
The model covers three things:

- **The index** (`InvertedIndex.java`):
  - building the raw index and the stemmed index;
  - one-word and many-word searches;
  - the per-document search;
  - snippets.
- **The stop list** (`StopList.java`): the table fill, the getter and the membership test.
- **The command line** (`SearchIndex.java`):
  - the flag-parsing loop of `main` and its validation;
  - the rule that sends each line of a query file to a search;
  - `extractFileName`.

Files:

- `wrappers.dfy`: `Option`, which stands for a Java reference that may be null, and
  `Result`, which stands for a computation that may throw.
- `text.dfy`: the string operations the core relies on, restricted to ASCII. These are
  the `\p{Punct}` and `\d` classes, `toLowerCase`, `split(" ")`, `indexOf`,
  `lastIndexOf`, and joining with spaces.
- `stop_list.dfy`: the 174 stop words and the `StopList` class.
- `postings.dfy`: documents, postings and posting lists, plus the reference definitions
  the operations are proved against.
  - `IsIndexOf`: the positional index of a corpus.
  - `Lookup` and `Tally`: what `search` returns.
  - `Merge`, `Group` and `IsStemmedIndexOf`: the stemmed index.
  - `Owners` and `Shared`: the list objects the two tables share.
  - `SnippetOf`: the snippet window.
  - The lemmas that give each of these its meaning.
- `inverted_index.dfy`: the `InvertedIndex` class, and the loops of its methods as
  module-level methods. Each loop is proved against a function of `postings.dfy`.
- `search_index.dfy`: the command line. The parsing loop is proved against the
  function `Parse`, and properties of `Parse`, `Validate`, `ExtractFileName` and
  `DispatchLine` are proved as lemmas.

How the model represents the Java program:

- **Files and postings.** A corpus file is a `Document`: its name and the tokens a
  `Scanner` reads from it. A `File` is its position in the corpus listing. A posting is
  `Posting(doc, pos)`, where `pos` counts every raw token read before it.
- **Hashtables.** Their iteration order is a parameter `order`, which lists every key
  once.
- **Count tables.** The order in which the keys of a count table are enumerated is
  left unspecified; it is a nondeterministic choice.
- **The stemmer.** It is the opaque function `stem`.
- **Nulls and exceptions.** A null reference is `None`. A `NullPointerException` the
  result computation can reach is a `Failure(NullPointer(line))`, where `line` is the
  line of `InvertedIndex.java` that dereferences null.

## Model

| member | source | states |
|---|---|---|
| Text.Normalize | InvertedIndex.java:68-70 | the normal form has no punctuation, no digit and no upper-case letter |
| Text.NormalizeFixesNormal | InvertedIndex.java:68-70 | a string is a normal form exactly when normalising leaves it unchanged |
| Text.NormalizeIdempotent | InvertedIndex.java:196-198 | normalising a query word twice is normalising it once |
| Text.StripPunctMeaning | InvertedIndex.java:68 | removing punctuation keeps only non-punctuation characters of the word, and leaves a word without punctuation as it is |
| Text.StripDigitsMeaning | InvertedIndex.java:69 | removing digits keeps only non-digit characters, and leaves a word without digits as it is |
| Text.Lower | InvertedIndex.java:70 | lower-casing keeps the length and lower-cases each ASCII letter in place |
| Text.LowerIdempotent | InvertedIndex.java:165 | the second lower-casing in search() changes nothing |
| Text.IndexOf | SearchIndex.java:51 | -1 exactly when there is no '='; otherwise the position of the first one |
| Text.LastIndexOf | SearchIndex.java:261 | -1 exactly when there is no '.'; otherwise the position of the last one |
| Text.JavaSplit | InvertedIndex.java:541 | no piece of split(" ") contains a space |
| Text.DropTrailingEmpty | InvertedIndex.java:541 | split(" ") keeps a prefix of the pieces, drops only empty ones, and ends with a non-empty one |
| Text.JoinSplit | InvertedIndex.java:541 | joining the pieces between spaces with single spaces gives back the string |
| Text.SplitJoin | InvertedIndex.java:516-524 | splitting space-free words joined by single spaces gives back the words |
| Text.PunctuatedIsNoNormalForm | InvertedIndex.java:68 | a string holding punctuation is never the normalisation of any token |
| StopWords.StopTable | StopList.java:19-196 | the keys are exactly 0 to 173, and key i holds the i-th word of the list |
| StopWords.StopList.constructor | StopList.java:17-197 | the put(i, words[i]) loop fills the table with exactly StopTable |
| StopWords.StopList.GetStopList | StopList.java:203-205 | the getter returns the table the constructor built, not a copy |
| StopWords.StopTableSize | StopList.java:19-192 | the list has 174 words, so the keys are 0 to 173 |
| StopWords.StopWordIffListed | StopList.java:194-196 | contains(w), which tests values, holds exactly when w is one of the listed words |
| StopWords.ApostropheEntriesNeverMatch | StopList.java:31 | an entry with an apostrophe, such as "aren't", equals no normalised token or query word |
| Postings.DocOccMembership | InvertedIndex.java:65-83 | a posting of file d for w is exactly a raw token position of d whose token normalises to w |
| Postings.DocOccOrder | InvertedIndex.java:65-83 | the postings of one file are in strictly increasing position order |
| Postings.CorpusOccMembership | InvertedIndex.java:54-84 | the postings for w in the first n files are exactly the occurrences of w in those files |
| Postings.CorpusOccOrder | InvertedIndex.java:54-84 | those postings are in scan order: files ascending, positions strictly increasing within a file |
| Postings.BuildIndexIsIndexOf | InvertedIndex.java:54-84 | scanning the whole corpus token by token yields its positional index |
| Postings.OccurrencesMeaning | InvertedIndex.java:65-82 | a posting is stored under w exactly when its token normalises to w, and positions count every raw token, stop words and emptied tokens included |
| Postings.IndexMeaning | InvertedIndex.java:66-81 | keys are never "" nor stop words; each key's list is in scan order and points only at tokens that normalise to the key; every occurrence of a term is recorded |
| Postings.IndexIsWellFormed | InvertedIndex.java:71-80 | every list of the index is non-empty and points at existing tokens |
| Postings.TallyCounts | InvertedIndex.java:173-182 | the count table has a key for exactly the files with a posting, and each count is that file's number of postings, at least 1 |
| Postings.TallyTotal | InvertedIndex.java:173-182 | the counts add up to the length of the list |
| Postings.LookupMeaning | InvertedIndex.java:160-184 | search() is null exactly when the lower-cased word is not a key; otherwise it gives one count of at least 1 per file in the list, and the counts sum to the list's length |
| Postings.SearchFindsOccurrence | InvertedIndex.java:196-202 | when a token of file f normalises to a non-stop query term, the search for that term finds f with a count of at least 1 |
| Postings.NameCountIsCount | InvertedIndex.java:330-336 | with distinct file names, counting postings by file name counts the postings of that one file |
| Postings.StemSetOfListing | InvertedIndex.java:100-106 | the stems reached through the iteration order are exactly the stems of the raw keys |
| Postings.GroupMembership | InvertedIndex.java:100-119 | a posting is in the merged list of s exactly when it is in the list of a raw key that stems to s |
| Postings.StemsListStemSet | InvertedIndex.java:100-119 | the stems in order of first appearance list each stem exactly once |
| Postings.MergeKeys | InvertedIndex.java:100-119 | the keys of the stemmed table are exactly the stems of the visited keys |
| Postings.MergeIsStemmedIndex | InvertedIndex.java:100-119 | the merge loop yields the stemmed index: each stem's list is the concatenation, in iteration order, of the lists of the keys with that stem |
| Postings.MergeKeepsPostingCount | InvertedIndex.java:107-118 | merging loses and duplicates no posting: the merged lists hold as many postings as the raw lists |
| Postings.StemmedIsWellFormed | InvertedIndex.java:100-119 | the stemmed lists are non-empty and point at existing tokens when the raw ones do |
| Postings.OwnersValues | InvertedIndex.java:114-118 | the list object stored for a stem belongs to a visited key with that stem |
| Postings.OwnersFirst | InvertedIndex.java:114-118 | that key is the first key, in iteration order, with that stem |
| Postings.StemmedSeen | InvertedIndex.java:107-113 | a key whose stem is already present appends its postings to the stemmed list, and so to the raw entry of the stem's first key |
| Postings.StemmedNew | InvertedIndex.java:114-118 | a key with a new stem hands its own list to the stemmed table and becomes the first key of that stem; no raw entry changes |
| Postings.SharedIsWellFormed | InvertedIndex.java:116-117 | sharing the lists keeps the raw table well formed |
| Postings.SharedListGrowsRawEntry | InvertedIndex.java:109-117 | with "run" before "running", both stemming to "run", building the stemmed index leaves the raw entry of "run" holding the posting of "running" too |
| Postings.QueryTerms | InvertedIndex.java:546-551 | every kept query word is non-empty and normal |
| Postings.QueryTermsMembership | InvertedIndex.java:546-551 | t is a query word exactly when t is non-empty and some piece of the query normalises to t |
| Postings.SelectMeaning | InvertedIndex.java:710-715 | the selected files are exactly those of the first list that are in (or not in) the second; a list without repeats stays without repeats |
| Postings.SelectOutsideOfSubset | InvertedIndex.java:710-715 | nothing is selected from outside the second list when the first is contained in it |
| Postings.NonStopStemsPrefix | InvertedIndex.java:653-662 | the stems of the first i query words are a prefix of the stems of all of them |
| Postings.FirstIn | InvertedIndex.java:497-502 | the first posting of a file is in the list and on that file; there is none exactly when no posting is on the file |
| Postings.FirstInIsEarliest | InvertedIndex.java:497-502 | in a list in scan order, the first posting of a file is its earliest occurrence |
| Postings.SnippetWindowMeaning | InvertedIndex.java:510-525 | the window as written holds at most 2 * len + 1 consecutive tokens centred on the token before the match, and holds the matched token exactly when len >= 1 |
| Postings.WindowCentredBeforeMatch | InvertedIndex.java:510-525 | with radius 0 the window as written is the token before the match, and the centred window is the match |
| Postings.FirstTokenHasNoSnippet | InvertedIndex.java:495-507 | a word that opens its file gets no snippet as written, and gets one when centred |
| Postings.CenteredWindowMeaning | InvertedIndex.java:510-525 | the centred window holds at most 2 * len + 1 tokens, with the match itself and len tokens on each side where the file allows |
| Postings.CenteredSnippetFound | InvertedIndex.java:495-507 | the centred snippet is missing exactly when the file has no posting in the list |
| InvertedIndexing.InListIffHolds | InvertedIndex.java:66-81 | on the index of the corpus, a term's list names file d exactly when a token of d normalises to the term |
| InvertedIndexing.InAllMeaning | InvertedIndex.java:554-577 | the conjunction keeps file d exactly when d holds every query word that is not a stop word |
| InvertedIndexing.InAllSnoc | InvertedIndex.java:555-575 | one more query word keeps the files that also hold it, unless it is a stop word |
| InvertedIndexing.StemAsWrittenSnoc | InvertedIndex.java:668-681 | one more stem, as written, keeps the files of the new stem that are, from the second stem on, in the raw results |
| InvertedIndexing.StemIntendedSnoc | InvertedIndex.java:668-681 | one more stem, as intended, keeps the files of the new stem that held every stem before |
| InvertedIndexing.StemAsWrittenStep | InvertedIndex.java:668-681 | the files collected for one stem, as written, are exactly the as-written result for the stems so far |
| InvertedIndexing.StemIntendedStep | InvertedIndex.java:668-681 | the files collected for one stem, as intended, are exactly the files that hold every stem so far |
| InvertedIndexing.MissingStemMatchesNothing | InvertedIndex.java:663-667 | a stem that is no key leaves no file in the stemmed result, as written or as intended |
| InvertedIndexing.StemPassBreak | InvertedIndex.java:663-667 | when the stemmed pass stops at a stem that is no key, the stems are not empty, that stem is among them, and no null was dereferenced |
| InvertedIndexing.StemPassFault | InvertedIndex.java:674-679 | a second stem that is a key, reached with null raw results, means the query has two leading stems that are keys |
| InvertedIndexing.QueryWordsAreNormal | InvertedIndex.java:555 | the lower-casing of a query word before the stop-list test changes nothing |
| InvertedIndexing.Enumerate | InvertedIndex.java:563-565 | the keys of a count table, once each, in some order |
| InvertedIndexing.Retain | InvertedIndex.java:570-573 | the keys of a count table that are in the allowed list, once each |
| InvertedIndexing.QueryWords | InvertedIndex.java:541-552 | the query words are the pieces of split(" "), normalised, with the empty ones dropped |
| InvertedIndexing.ReadWindow | InvertedIndex.java:516-525 | the reading loop joins, with single spaces, the tokens whose 1-based count lies in [start, end] |
| InvertedIndexing.PositionsInFile | InvertedIndex.java:497-499 | in a well-formed table, the stored offsets of a file are positions of that file |
| InvertedIndexing.FirstLocation | InvertedIndex.java:495-502 | the first-match loop finds the offset of the first posting of the file, and leaves location 0 when there is none |
| InvertedIndexing.StemmedPassDropsVariantFile | InvertedIndex.java:674-681 | a file that holds every stem of "running dogs" but not the raw words is dropped as written and kept as intended |
| InvertedIndexing.AddEach | InvertedIndex.java:111-112 | the postings of list1 follow those of list2, in order |
| InvertedIndexing.SearchTable | InvertedIndex.java:164-183 | the counting loop of search() computes Lookup: null for a missing key, otherwise the per-file posting counts |
| InvertedIndexing.StemTurn | InvertedIndex.java:655-682 | one query word of the stemmed pass as written keeps the loop invariant, or ends the pass with the promised outcome |
| InvertedIndexing.StemConjunction | InvertedIndex.java:653-684 | the stemmed pass as written throws at line 678 exactly when the raw results are null and the first two stems are keys; otherwise it is null exactly when no stem is left, and it holds, once each, the files of the last stem that are, from two stems on, also in the raw results |
| InvertedIndexing.StemTurnIntended | InvertedIndex.java:655-682 | one query word of the stemmed pass as intended keeps the loop invariant, or ends the pass with an empty result when no file holds every stem |
| InvertedIndexing.StemConjunctionIntended | InvertedIndex.java:653-684 | the stemmed pass as intended is null exactly when no stem is left, and otherwise holds, once each, exactly the files holding every stem |
| InvertedIndexing.StemmedPasses | InvertedIndex.java:653-715 | given the raw results, the stemmed passes throw exactly when no stem is left (line 712), or when the raw results are null and the stemmed result is not empty (lines 678 and 713); otherwise the other results are the stemmed files missing from the raw results, and there are none once there are two stems |
| InvertedIndexing.IndexCorpus | InvertedIndex.java:54-84 | the loop over the files computes BuildIndex of the whole corpus |
| InvertedIndexing.IndexTokens | InvertedIndex.java:65-83 | the loop over the tokens of one file computes IndexFile |
| InvertedIndexing.MergeLists | InvertedIndex.java:100-119 | the merge loop computes Merge as the stemmed table and, as the raw table, the raw lists seen through the shared list objects |
| InvertedIndexing.NullRawStemResults | InvertedIndex.java:675-713 | with null raw results, the stemmed result is non-empty exactly when there is one stem and it is a key |
| InvertedIndexing.OtherResults | InvertedIndex.java:710-715 | the loop throws at line 713 exactly when the raw results are null and the stemmed result is not empty; otherwise it yields the stemmed files missing from the raw results, in order |
| InvertedIndexing.InvertedIndex.constructor | InvertedIndex.java:35-40 | the stop table is StopList's, the index is the positional index of the corpus, and there is no stemmed index yet |
| InvertedIndexing.InvertedIndex.MakeIndex | InvertedIndex.java:46-88 | the index field becomes the positional index of the corpus |
| InvertedIndexing.InvertedIndex.Search | InvertedIndex.java:160-184 | search(word, useStemmed) is Lookup on the raw or the stemmed table |
| InvertedIndexing.InvertedIndex.SearchWord | InvertedIndex.java:194-202 | the word is normalised as index terms are, and the lookup is null exactly when the normalised word is not a key |
| InvertedIndexing.InvertedIndex.SearchWordStemmed | InvertedIndex.java:239-278 | the raw lookup of the normalised word, and a stemmed lookup only when the stem differs from it; otherwise visitedStemmed stays null |
| InvertedIndexing.InvertedIndex.MakeStemmedIndex | InvertedIndex.java:94-123 | the stemmed field becomes the stemmed index of the raw table in iteration order, and the raw table becomes the raw lists seen through the shared list objects |
| InvertedIndexing.InvertedIndex.MakeStemmedIndexCopying | InvertedIndex.java:114-118 | with the first list copied, the stemmed index is the same and the raw table is left unchanged |
| InvertedIndexing.InvertedIndex.SearchDoc | InvertedIndex.java:312-342 | null exactly when no file has the name; otherwise exactly the keys with postings for that name, each once, with their number |
| InvertedIndexing.InvertedIndex.Snippet | InvertedIndex.java:487-529 | a missing key throws at line 497; otherwise the snippet is SnippetOf the word's list |
| InvertedIndexing.InvertedIndex.SnippetIntended | InvertedIndex.java:487-529 | the same, with a null result exactly for a file without a posting and the window centred on the match |
| InvertedIndexing.InvertedIndex.Conjunction | InvertedIndex.java:554-577 | the raw pass stays null exactly when every query word is a stop word; otherwise it holds, once each, the files in the list of every non-stop query word |
| InvertedIndexing.InvertedIndex.SearchWords | InvertedIndex.java:539-577 | searchWords' query words and its conjunction of their lists |
| InvertedIndexing.InvertedIndex.SearchWordsStemmed | InvertedIndex.java:611-715 | the raw pass, the stemmed pass as written and the other results, with the null dereferences at lines 678, 712 and 713 exactly when they occur |
| CommandLine.ParseInt | SearchIndex.java:95 | a parsed value fits 32 bits and is negative only after a '-' |
| CommandLine.DigitsOfDecimal | SearchIndex.java:95 | reading the decimal digits of n gives back n |
| CommandLine.ParseIntOfDecimal | SearchIndex.java:95 | parseInt reads back every 32-bit value written in decimal |
| CommandLine.ParseIntOverflow | SearchIndex.java:95 | a number past the largest int is a NumberFormatException |
| CommandLine.ParseIntUnderflow | SearchIndex.java:107 | a number below the smallest int is a NumberFormatException |
| CommandLine.IndexOfSeparator | SearchIndex.java:51-58 | the flag key=value splits at its first '=' into key and value when key has no '=' |
| CommandLine.ApplyKeyed | SearchIndex.java:58-121 | a key=value flag that goes on uses one argument, or two with the target after it |
| CommandLine.ApplyKeyedOutcome | SearchIndex.java:58-121 | error is set exactly for an unknown key, an unknown -SEARCH or -PRINT_INDEX kind, or a radius or mode that is not a number in range; reading past the end happens exactly for a known kind without a next argument |
| CommandLine.ApplyFlag | SearchIndex.java:44-122 | a flag that goes on uses at least one and at most the remaining arguments |
| CommandLine.ApplyKeyedFlag | SearchIndex.java:58-121 | the branches of the loop body compute ApplyKeyed |
| CommandLine.ApplyFlagStep | SearchIndex.java:44-122 | the loop body computes ApplyFlag |
| CommandLine.ParseArgs | SearchIndex.java:43-123 | the while loop over args computes Parse |
| CommandLine.ParseArgsFrom | SearchIndex.java:43-123 | the loop entered at any argument with any settings computes ParseFrom |
| CommandLine.Validate | SearchIndex.java:126-135 | main stops with the exception exactly when a target was read past the end, and prints the usage text and returns exactly when error is set or a search or print target is "" or starts with "-" |
| CommandLine.ApplyKeyedKeepsSane | SearchIndex.java:92-115 | a flag that goes on keeps the radius >= 0 and the mode in 0..2 |
| CommandLine.ApplyFlagKeepsSane | SearchIndex.java:44-122 | the same for every flag |
| CommandLine.ParseFromKeepsSane | SearchIndex.java:43-123 | the same for the whole loop |
| CommandLine.ProceedIsSane | SearchIndex.java:92-135 | whatever the arguments, main builds the index only with a radius >= 0, a mode in 0..2, and targets that are non-empty and not flags |
| CommandLine.ApplyFlagExtended | SearchIndex.java:58-89 | appending arguments changes how a flag reads only for a flag that reads past the end |
| CommandLine.ParseStopsAtOperand | SearchIndex.java:43-44 | parsing stops at the first argument that does not start with "-": arguments after it have no effect |
| CommandLine.ParseEmpty | SearchIndex.java:23-40 | without arguments main goes on with the defaults, length 5, graphic 0, "./Corpus", "./output.txt", "./printOutput.txt" |
| CommandLine.HelpAloneProceeds | SearchIndex.java:126-135 | "-h" alone prints the usage text and does not stop main |
| CommandLine.SearchWithoutTarget | SearchIndex.java:74 | a -SEARCH flag as the last argument reads past the end of args |
| CommandLine.LengthOverflowRefused | SearchIndex.java:92-103 | a radius past the largest int is refused, not wrapped around |
| CommandLine.ExtractFileName | SearchIndex.java:260-263 | the name before its last '.', and an exception exactly when there is no '.' |
| CommandLine.ExtractFileNameOfExtension | SearchIndex.java:260-263 | stripping an extension gives back the base name |
| CommandLine.ExtractFileNameExamples | SearchIndex.java:260-263 | "./output.txt" gives "./output"; "./output" gives ""; "output" throws |
| CommandLine.SplitPiecesEmpty | SearchIndex.java:152 | every piece between spaces is empty exactly when the line is all spaces |
| CommandLine.SplitPiecesLater | SearchIndex.java:152 | a piece after the first is non-empty exactly when a space is followed by a word |
| CommandLine.DispatchLineMeaning | SearchIndex.java:152-158 | a line goes to the many-word search exactly when some space is followed by a word, and to none exactly when it is a non-empty run of spaces; every other line, the empty one included, goes to the one-word search |

## Left out

- The Porter stemmer: `Stemmer.java` is not part of this model. The stemmer is the
  opaque function `stem`, a field of the class.
- Persistence: `readIndexFromStorage` and `writeIndexForStorage` use Java
  serialisation and file I/O. The model always builds the tables from scratch; the
  early returns at `InvertedIndex.java:47-49` and `95-96` do not happen.
- Output and GUI are not modelled:
  - the `PrintWriter` text of every search;
  - `printWord`, `printDoc`, `outputIndex` and `StopList.outputList`;
  - the `display*` methods and `Displayer.java`.
  Each search method returns what its output is computed from.
- Reading files is not modelled:
  - `Scanner` tokenisation and `File.listFiles`: the corpus arrives as a sequence of
    `Document`s holding their tokens.
  - The `FileNotFoundException` at `InvertedIndex.java:57-61`, which leaves `sc` null.
- Text handling is ASCII only: `\p{Punct}` and `\d` in their default mode, and
  `toLowerCase`. `Integer.parseInt` reads ASCII digits only, where Java also accepts
  the other Unicode decimal digits.
- The dispatch of `main` is not modelled: lines 137-257 (building the index, choosing
  the search, `BufferedReader` reading of a query file, numbering the output files).
  Only the line rule 152-158 and `extractFileName` are modelled.
- The printing branches of `searchWords` and `searchWordsStemmed` (graphic 0 or 2) are
  not modelled.
  - They dereference null results at `InvertedIndex.java:580`, `688` and `703`.
  - `searchWordsStemmed` returns early at 703-707.
  - The loop at 724-727 tests `stemmedWords[i]` where `stemmedWords[j]` is meant.
  - `SearchWordsStemmed` follows the graphic-1 path, which computes `otherResults`
    and prints nothing. The `stemmedWords` array is filled only for that output and
    is not modelled.
- InvertedIndexing.InvertedIndex.Snippet: does not model the 32-bit overflow of
  `location + length` at line 511. The radius can be as large as the largest int, and
  the model's integers are unbounded.
- InvertedIndexing.StemTurn: the `NullPointerException` at line 678 is modelled as
  happening before any file is collected. The partial list `temp` is lost with the
  exception in Java, so the outcome is the same.
- InvertedIndexing.InvertedIndex.SearchDoc: does not state that the reported keys
  follow the iteration order `order`. It states their set and that each appears once.
- CommandLine.ParseArgsFrom: the two messages printed before a `break` at
  `SearchIndex.java:53` and `119`, and the usage text, are not modelled. A flag that
  sets `error` ends the loop with `Error`, which `Validate` maps to the usage exit.

## Findings

The class methods follow the code as written. Each corrected member sits beside the
method it corrects, with the intended property proved about it.

| source | as written | input that shows it | evidently intended | confidence | as-written member | corrected member |
|---|---|---|---|---|---|---|
| InvertedIndex.java:675 | from the second stem on, the stemmed pass keeps the stem's files that are in the raw `results`, not in `stemResults` | query "running dogs"; files 0 and 1 hold both stems "run" and "dog"; the raw results are [0] | every stem's files intersected with the stemmed result so far, so that file 1 is kept | not executed | InvertedIndexing.StemConjunction | InvertedIndexing.StemConjunctionIntended |
| InvertedIndex.java:495-507 | location 0 means "no posting", but 0 is the offset of a file's first token | the word "run" in the file "run fast", radius 1 | the snippet "run fast" | not executed | InvertedIndexing.InvertedIndex.Snippet | InvertedIndexing.InvertedIndex.SnippetIntended |
| InvertedIndex.java:510-525 | the stored 0-based offset is used as a 1-based count, so the window is centred on the token before the match | the tokens "a b", the match at offset 1, radius 0: the snippet is "a" | the snippet "b", centred on the match | not executed | Postings.WindowCentredBeforeMatch | Postings.CenteredWindowMeaning |
| InvertedIndex.java:116-117 | the stemmed table stores the raw list object itself, so the later appends at 111-112 also grow the raw entry of the first key | raw keys "run" then "running", both stemming to "run": the raw list of "run" gains the posting of "running" | a copy is stored, and the raw index is left unchanged | not executed | Postings.SharedListGrowsRawEntry | InvertedIndexing.InvertedIndex.MakeStemmedIndexCopying |
