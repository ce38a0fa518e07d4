/**
 * Python's `str.split()` with no separator, which every word count of the service is built
 * on: runs of whitespace separate words, and leading or trailing whitespace yields no empty
 * word.
 */
module Words {

  /** The characters `str.split()` treats as whitespace (those for which `str.isspace()` holds). */
  predicate IsSpace(c: char) {
    || c == ' '
    || ('\t' <= c <= '\r')            // tab, line feed, vertical tab, form feed, carriage return
    || ('\U{1C}' <= c <= '\U{1F}')    // file, group, record and unit separators
    || c == '\U{85}' || c == '\U{A0}' || c == '\U{1680}'
    || ('\U{2000}' <= c <= '\U{200A}')
    || c == '\U{2028}' || c == '\U{2029}' || c == '\U{202F}' || c == '\U{205F}' || c == '\U{3000}'
  }

  /** A word as `str.split()` returns it: non-empty, with no whitespace in it. */
  predicate IsWord(w: string) {
    w != [] && forall k :: 0 <= k < |w| ==> !IsSpace(w[k])
  }

  /** The maximal run of non-whitespace characters at the start of `s`. */
  function LeadingWord(s: string): (w: string)
    requires s != [] && !IsSpace(s[0])
    ensures IsWord(w) && |w| <= |s| && w == s[..|w|]
    ensures |w| == |s| || IsSpace(s[|w|])
  {
    if |s| == 1 || IsSpace(s[1]) then s[..1] else [s[0]] + LeadingWord(s[1..])
  }

  /** `s.split()`. */
  function Split(s: string): (words: seq<string>)
    ensures forall k :: 0 <= k < |words| ==> IsWord(words[k])
    decreases |s|
  {
    if s == [] then []
    else if IsSpace(s[0]) then Split(s[1..])
    else
      var w := LeadingWord(s);
      [w] + Split(s[|w|..])
  }

  /** `len(s.split())`. */
  function WordCount(s: string): nat {
    |Split(s)|
  }

  /** `sep.join(parts)` for a one-character separator. */
  function Join(sep: char, parts: seq<string>): string {
    if parts == [] then ""
    else if |parts| == 1 then parts[0]
    else parts[0] + [sep] + Join(sep, parts[1..])
  }

  /** A whitespace character ends the leading word. */
  lemma {:induction false} LeadingWordBeforeSpace(a: string, c: char, b: string)
    requires a != [] && !IsSpace(a[0]) && IsSpace(c)
    ensures LeadingWord(a + [c] + b) == LeadingWord(a)
  {
    var s := a + [c] + b;
    if |a| == 1 {
      assert s[1] == c;
    } else if IsSpace(a[1]) {
      assert s[1] == a[1];
    } else {
      assert s[1] == a[1];
      assert s[1..] == a[1..] + [c] + b;
      LeadingWordBeforeSpace(a[1..], c, b);
    }
  }

  /** Leading whitespace contributes no word. */
  lemma SplitSkipsSpace(s: string)
    requires s != [] && IsSpace(s[0])
    ensures Split(s) == Split(s[1..])
  {
  }

  /** A string that starts with a word splits into that word and the split of what follows it. */
  lemma SplitTakesWord(s: string)
    requires s != [] && !IsSpace(s[0])
    ensures Split(s) == [LeadingWord(s)] + Split(s[|LeadingWord(s)|..])
  {
  }

  /** Splitting at a whitespace character splits the two sides independently. */
  lemma {:induction false} SplitAroundSpace(a: string, c: char, b: string)
    requires IsSpace(c)
    ensures Split(a + [c] + b) == Split(a) + Split(b)
    decreases |a|
  {
    var s := a + [c] + b;
    if a == [] {
      assert s[1..] == b;
      SplitSkipsSpace(s);
    } else if IsSpace(a[0]) {
      assert s[0] == a[0] && s[1..] == a[1..] + [c] + b;
      SplitAroundSpace(a[1..], c, b);
      SplitSkipsSpace(s);
      SplitSkipsSpace(a);
    } else {
      assert s[0] == a[0];
      LeadingWordBeforeSpace(a, c, b);
      var w := LeadingWord(a);
      assert s[|w|..] == a[|w|..] + [c] + b;
      SplitAroundSpace(a[|w|..], c, b);
      SplitTakesWord(s);
      SplitTakesWord(a);
    }
  }

  /** A single word splits into itself. */
  lemma {:induction false} SplitWord(w: string)
    requires IsWord(w)
    ensures Split(w) == [w]
  {
    assert LeadingWord(w) == w by { LeadingWordWhole(w); }
    assert w[|w|..] == [];
  }

  lemma {:induction false} LeadingWordWhole(w: string)
    requires IsWord(w)
    ensures LeadingWord(w) == w
  {
    if |w| > 1 {
      assert IsWord(w[1..]) by {
        forall k | 0 <= k < |w[1..]| ensures !IsSpace(w[1..][k]) { assert w[1..][k] == w[k + 1]; }
      }
      LeadingWordWhole(w[1..]);
      assert w == [w[0]] + w[1..];
    }
  }

  /** Joining words with a whitespace separator and splitting again gives the words back. */
  lemma {:induction false} SplitJoin(sep: char, words: seq<string>)
    requires IsSpace(sep)
    requires forall k :: 0 <= k < |words| ==> IsWord(words[k])
    ensures Split(Join(sep, words)) == words
  {
    if |words| == 1 {
      SplitWord(words[0]);
    } else if |words| > 1 {
      var rest := words[1..];
      assert Join(sep, words) == words[0] + [sep] + Join(sep, rest);
      SplitAroundSpace(words[0], sep, Join(sep, rest));
      SplitWord(words[0]);
      assert forall k :: 0 <= k < |rest| ==> IsWord(rest[k]) by {
        forall k | 0 <= k < |rest| ensures IsWord(rest[k]) { assert rest[k] == words[k + 1]; }
      }
      SplitJoin(sep, rest);
      assert words == [words[0]] + rest;
    }
  }

  /** Splitting is idempotent: re-joining the words of `s` with spaces and splitting again changes nothing. */
  lemma SplitNormalises(s: string)
    ensures Split(Join(' ', Split(s))) == Split(s)
  {
    SplitJoin(' ', Split(s));
  }

  /** The sum of the word counts of `parts`, taken part by part. */
  function SumOfCounts(parts: seq<string>): nat {
    if parts == [] then 0 else WordCount(parts[0]) + SumOfCounts(parts[1..])
  }

  /** Joining with a whitespace separator neither merges nor creates words. */
  lemma {:induction false} CountAcrossJoin(sep: char, parts: seq<string>)
    requires IsSpace(sep)
    ensures WordCount(Join(sep, parts)) == SumOfCounts(parts)
  {
    if |parts| == 1 {
      assert parts[1..] == [];
    } else if |parts| > 1 {
      SplitAroundSpace(parts[0], sep, Join(sep, parts[1..]));
      CountAcrossJoin(sep, parts[1..]);
    }
  }

  /** A non-empty string of printable ASCII characters other than the space is a single word. */
  lemma PrintableWord(w: string)
    requires w != [] && forall k :: 0 <= k < |w| ==> ' ' < w[k] < '\U{7F}'
    ensures Split(w) == [w]
  {
    SplitWord(w);
  }

  /** Two words separated by a whitespace character split into those two words. */
  lemma HelloWorld(sep: char)
    requires IsSpace(sep)
    ensures Split("Hello" + [sep] + "world") == ["Hello", "world"]
  {
    var a, b := "Hello", "world";
    PrintableWord(a);
    PrintableWord(b);
    SplitAroundSpace(a, sep, b);
    assert Split(a) + Split(b) == [a, b];
  }
}
