/** The stop-word table of StopList.java: the 174 words that are never indexed and never
    searched for. */
module StopWords {
  import Text

  /** The stop words, in the order in which the table stores them (StopList.java:19-192). */
  const Words: seq<string> := [
    "a", "about", "above", "after", "again", "against", "all", "am", "an", "and", "any", "are",
    "aren\'t", "as", "at", "be", "because", "been", "before", "being", "below", "between",
    "both", "but", "by", "can\'t", "cannot", "could", "couldn\'t", "did", "didn\'t", "do",
    "does", "doesn\'t", "doing", "don\'t", "down", "during", "each", "few", "for", "from",
    "further", "had", "hadn\'t", "has", "hasn\'t", "have", "haven\'t", "having", "he", "he\'d",
    "he\'ll", "he\'s", "her", "here", "here\'s", "hers", "herself", "him", "himself", "his",
    "how", "how\'s", "i", "i\'d", "i\'ll", "i\'m", "i\'ve", "if", "in", "into", "is", "isn\'t",
    "it", "it\'s", "its", "itself", "let\'s", "me", "more", "most", "mustn\'t", "my", "myself",
    "no", "nor", "not", "of", "off", "on", "once", "only", "or", "other", "ought", "our",
    "ours", "ourselves", "out", "over", "own", "same", "shan\'t", "she", "she\'d", "she\'ll",
    "she\'s", "should", "shouldn\'t", "so", "some", "such", "than", "that", "that\'s", "the",
    "their", "theirs", "them", "themselves", "then", "there", "there\'s", "these", "they",
    "they\'d", "they\'ll", "they\'re", "they\'ve", "this", "those", "through", "to", "too",
    "under", "until", "up", "very", "was", "wasn\'t", "we", "we\'d", "we\'ll", "we\'re",
    "we\'ve", "were", "weren\'t", "what", "what\'s", "when", "when\'s", "where", "where\'s",
    "which", "while", "who", "who\'s", "whom", "why", "why\'s", "with", "won\'t", "would",
    "wouldn\'t", "you", "you\'d", "you\'ll", "you\'re", "you\'ve", "your", "yours", "yourself",
    "yourselves"
  ]

  /** The table the constructor builds: position i holds the i-th word. */
  function StopTable(): (t: map<int, string>)
    ensures forall i :: i in t <==> 0 <= i < |Words|
    ensures forall i | 0 <= i < |Words| :: t[i] == Words[i]
  {
    map i | 0 <= i < |Words| :: Words[i]
  }

  /** Hashtable.contains, which tests the VALUES of the table. */
  predicate IsStopWord(table: map<int, string>, w: string) {
    w in table.Values
  }

  /** The stop list of the index. */
  class StopList {
    var stopList: map<int, string>

    /** The constructor fills the table with put(i, words[i]) for every i. */
    constructor ()
      ensures stopList == StopTable()
    {
      var words := Words;
      stopList := map[];
      new;
      for i := 0 to |words|
        invariant stopList == map j | 0 <= j < i :: words[j]
      {
        stopList := stopList[i := words[i]];
      }
    }

    /** The table built by the constructor itself (not a copy). */
    function GetStopList(): (t: map<int, string>)
      reads this
      ensures t == stopList
    {
      stopList
    }
  }

  /** The table has exactly 174 entries, one for each position 0..173. */
  lemma StopTableSize()
    ensures |Words| == 174
    ensures forall i :: i in StopTable() <==> 0 <= i < 174
  {
  }

  /** Membership as the index tests it is membership in the word list. */
  lemma {:induction false} StopWordIffListed(w: string)
    ensures IsStopWord(StopTable(), w) <==> w in Words
  {
    var t := StopTable();
    if w in Words {
      var i :| 0 <= i < |Words| && Words[i] == w;
      assert t[i] == w;
    } else {
      forall v | v in t.Values ensures v != w {
        var i :| i in t && t[i] == v;
      }
    }
  }

  /** Entries with an apostrophe, such as "aren't", can never be matched: normalisation
      removes punctuation before the stop-list test, so no term or query word equals them. */
  lemma {:induction false} ApostropheEntriesNeverMatch(k: nat)
    requires k < |Words|
    ensures '\'' in Words[k] ==> forall s :: Text.Normalize(s) != Words[k]
  {
    var w := Words[k];
    if '\'' in w {
      var i :| 0 <= i < |w| && w[i] == '\'';
      Text.PunctuatedIsNoNormalForm(w, i);
    }
  }
}
