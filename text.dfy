/** The string operations of java.lang.String and java.util.regex that the index and the
    command line rely on, restricted to ASCII: the character classes \p{Punct} and \d,
    toLowerCase, split(" "), indexOf and lastIndexOf, and joining words with spaces. */
module Text {

  /** The class \p{Punct} of java.util.regex in its default (ASCII) mode:
      ! " # $ % & ' ( ) * + , - . / : ; < = > ? @ [ \ ] ^ _ ` { | } ~ */
  predicate IsPunct(c: char) {
    ('!' <= c <= '/') || (':' <= c <= '@') || ('[' <= c <= '`') || ('{' <= c <= '~')
  }

  /** The class \d: an ASCII decimal digit. */
  predicate IsDigit(c: char) {
    '0' <= c <= '9'
  }

  predicate IsUpper(c: char) {
    'A' <= c <= 'Z'
  }

  /** A character that normalisation leaves as it is. */
  predicate IsTermChar(c: char) {
    !IsPunct(c) && !IsDigit(c) && !IsUpper(c)
  }

  /** The strings that normalisation can produce. */
  predicate IsNormal(s: string) {
    forall i | 0 <= i < |s| :: IsTermChar(s[i])
  }

  /** Character.toLowerCase on the ASCII letters. */
  function LowerChar(c: char): (r: char)
    ensures !IsUpper(r)
    ensures IsPunct(r) <==> IsPunct(c)
    ensures IsDigit(r) <==> IsDigit(c)
    ensures !IsUpper(c) ==> r == c
  {
    if IsUpper(c) then (c as int + 32) as char else c
  }

  /** String.toLowerCase, character by character. */
  function Lower(s: string): (r: string)
    ensures |r| == |s|
    ensures forall i | 0 <= i < |s| :: r[i] == LowerChar(s[i])
  {
    if s == [] then [] else [LowerChar(s[0])] + Lower(s[1..])
  }

  /** s.replaceAll("\\p{Punct}", "") */
  function StripPunct(s: string): string {
    if s == [] then [] else (if IsPunct(s[0]) then [] else [s[0]]) + StripPunct(s[1..])
  }

  /** s.replaceAll("\\d", "") */
  function StripDigits(s: string): string {
    if s == [] then [] else (if IsDigit(s[0]) then [] else [s[0]]) + StripDigits(s[1..])
  }

  /** Stripping punctuation keeps only non-punctuation characters of s, and leaves a
      string without punctuation as it is. */
  lemma {:induction false} StripPunctMeaning(s: string)
    ensures forall c | c in StripPunct(s) :: c in s && !IsPunct(c)
    ensures (forall c | c in s :: !IsPunct(c)) ==> StripPunct(s) == s
  {
    if s != [] {
      StripPunctMeaning(s[1..]);
      assert s == [s[0]] + s[1..];
    }
  }

  /** Stripping digits keeps only non-digit characters of s, and leaves a string without
      digits as it is. */
  lemma {:induction false} StripDigitsMeaning(s: string)
    ensures forall c | c in StripDigits(s) :: c in s && !IsDigit(c)
    ensures (forall c | c in s :: !IsDigit(c)) ==> StripDigits(s) == s
  {
    if s != [] {
      StripDigitsMeaning(s[1..]);
      assert s == [s[0]] + s[1..];
    }
  }

  /** The normalisation applied to every corpus token and every query word
      (InvertedIndex.java:68-70, 196-198, 241-243, 547, 620): strip punctuation,
      then strip digits, then lower-case. */
  function Normalize(s: string): (r: string)
    ensures IsNormal(r)
  {
    StripPunctMeaning(s);
    StripDigitsMeaning(StripPunct(s));
    Lower(StripDigits(StripPunct(s)))
  }

  /** Lower-casing leaves a normal form as it is. */
  lemma LowerOfNormal(s: string)
    requires IsNormal(s)
    ensures Lower(s) == s
  {
  }

  /** Lower-casing twice is lower-casing once. */
  lemma LowerIdempotent(s: string)
    ensures Lower(Lower(s)) == Lower(s)
  {
  }

  /** Normal forms are exactly the fixed points of normalisation; so normalising twice
      is normalising once, and a query word that is already a term is looked up as it is. */
  lemma {:induction false} NormalizeFixesNormal(s: string)
    ensures IsNormal(s) <==> Normalize(s) == s
  {
    if IsNormal(s) {
      assert forall c | c in s :: !IsPunct(c) by {
        forall c | c in s ensures !IsPunct(c) {
          var i :| 0 <= i < |s| && s[i] == c;
          assert IsTermChar(s[i]);
        }
      }
      assert forall c | c in s :: !IsDigit(c) by {
        forall c | c in s ensures !IsDigit(c) {
          var i :| 0 <= i < |s| && s[i] == c;
          assert IsTermChar(s[i]);
        }
      }
      StripPunctMeaning(s);
      StripDigitsMeaning(s);
      assert StripDigits(StripPunct(s)) == s;
      LowerOfNormal(s);
    }
  }

  lemma NormalizeIdempotent(s: string)
    ensures Normalize(Normalize(s)) == Normalize(s)
  {
    NormalizeFixesNormal(Normalize(s));
  }

  /** A string holding a punctuation character is never the normalisation of anything. */
  lemma PunctuatedIsNoNormalForm(w: string, i: nat)
    requires i < |w| && IsPunct(w[i])
    ensures forall s :: Normalize(s) != w
  {
    forall s ensures Normalize(s) != w {
      assert IsNormal(Normalize(s));
    }
  }

  /** Does s start with prefix p (String.startsWith)? */
  predicate StartsWith(s: string, p: string) {
    p <= s
  }

  /** String.indexOf(c): the first position of c, or -1. */
  function IndexOf(s: string, c: char): (r: int)
    ensures -1 <= r < |s|
    ensures r < 0 <==> c !in s
    ensures r >= 0 ==> s[r] == c && c !in s[..r]
  {
    if s == [] then -1
    else if s[0] == c then 0
    else
      var k := IndexOf(s[1..], c);
      if k < 0 then -1 else assert s[..k + 1] == [s[0]] + s[1..][..k]; k + 1
  }

  /** String.lastIndexOf(c): the last position of c, or -1. */
  function LastIndexOf(s: string, c: char): (r: int)
    ensures -1 <= r < |s|
    ensures r < 0 <==> c !in s
    ensures r >= 0 ==> s[r] == c && c !in s[r + 1..]
  {
    if s == [] then -1
    else if s[|s| - 1] == c then |s| - 1
    else
      var k := LastIndexOf(s[..|s| - 1], c);
      assert k >= 0 ==> s[k + 1..] == s[..|s| - 1][k + 1..] + [s[|s| - 1]];
      assert s == s[..|s| - 1] + [s[|s| - 1]];
      k
  }

  /** The pieces of s between its spaces, empty ones included: one more piece than s
      has spaces. */
  function SplitOnSpace(s: string): (r: seq<string>)
    ensures |r| >= 1
    ensures forall k | 0 <= k < |r| :: ' ' !in r[k]
  {
    if s == [] then [[]]
    else
      var rest := SplitOnSpace(s[1..]);
      if s[0] == ' ' then [[]] + rest else [[s[0]] + rest[0]] + rest[1..]
  }

  /** The words joined by single spaces. */
  function Join(xs: seq<string>): string {
    if |xs| == 0 then []
    else if |xs| == 1 then xs[0]
    else Join(xs[..|xs| - 1]) + " " + xs[|xs| - 1]
  }

  lemma {:induction false} JoinCons(x: string, xs: seq<string>)
    requires xs != []
    ensures Join([x] + xs) == x + " " + Join(xs)
    decreases |xs|
  {
    if |xs| > 1 {
      var init := xs[..|xs| - 1];
      JoinCons(x, init);
      assert ([x] + xs)[..|xs|] == [x] + init;
    }
  }

  /** Putting a character in front of the first word puts it in front of the joined words. */
  lemma {:induction false} JoinPrepend(c: char, xs: seq<string>)
    requires xs != []
    ensures Join([[c] + xs[0]] + xs[1..]) == [c] + Join(xs)
  {
    var h, t := [c] + xs[0], xs[1..];
    if t == [] {
      assert [h] + t == [h];
    } else {
      JoinCons(h, t);
      assert xs == [xs[0]] + t;
      JoinCons(xs[0], t);
      assert [c] + Join(xs) == [c] + (xs[0] + " " + Join(t));
    }
  }

  /** Joining the pieces with spaces gives back the string. */
  lemma {:induction false} JoinSplit(s: string)
    ensures Join(SplitOnSpace(s)) == s
  {
    if s != [] {
      var rest := SplitOnSpace(s[1..]);
      JoinSplit(s[1..]);
      if s[0] == ' ' {
        JoinCons([], rest);
      } else {
        JoinPrepend(s[0], rest);
      }
      assert s == [s[0]] + s[1..];
    }
  }

  lemma {:induction false} SplitSpaceFree(s: string)
    requires ' ' !in s
    ensures SplitOnSpace(s) == [s]
  {
    if s != [] {
      assert ' ' !in s[1..];
      SplitSpaceFree(s[1..]);
      assert [s[0]] + s[1..] == s;
    }
  }

  lemma {:induction false} SplitAround(a: string, b: string)
    ensures SplitOnSpace(a + " " + b) == SplitOnSpace(a) + SplitOnSpace(b)
  {
    if a == [] {
      assert (a + " " + b)[1..] == b;
    } else {
      assert (a + " " + b)[1..] == a[1..] + " " + b;
      SplitAround(a[1..], b);
    }
  }

  /** Splitting space-free words joined by spaces gives back the words. */
  lemma {:induction false} SplitJoin(xs: seq<string>)
    requires xs != []
    requires forall k | 0 <= k < |xs| :: ' ' !in xs[k]
    ensures SplitOnSpace(Join(xs)) == xs
  {
    if |xs| == 1 {
      SplitSpaceFree(xs[0]);
    } else {
      var init := xs[..|xs| - 1];
      SplitJoin(init);
      SplitAround(Join(init), xs[|xs| - 1]);
      SplitSpaceFree(xs[|xs| - 1]);
    }
  }

  /** The pieces left after dropping the empty pieces at the end. */
  function DropTrailingEmpty(xs: seq<string>): (r: seq<string>)
    ensures r <= xs
    ensures r == [] || r[|r| - 1] != []
    ensures forall k | |r| <= k < |xs| :: xs[k] == []
  {
    if xs != [] && xs[|xs| - 1] == [] then DropTrailingEmpty(xs[..|xs| - 1]) else xs
  }

  /** String.split(" "): a string without a space is its own only piece (even the empty
      string); otherwise the pieces between spaces, less the empty pieces at the end. */
  function JavaSplit(s: string): (r: seq<string>)
    ensures forall k | 0 <= k < |r| :: ' ' !in r[k]
  {
    if ' ' !in s then [s] else DropTrailingEmpty(SplitOnSpace(s))
  }
}
