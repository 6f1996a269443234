/** `TextUtils`: word statistics, the palindrome check and anagram filtering. */
module TextTools {
  import opened Common
  import opened Ordering

  // ---- word_stats ----

  /** `len(text)`, the line count and the word counts that `word_stats` reports. */
  datatype WordStats = WordStats(chars: nat, lines: nat, words: nat, unique: nat)

  /** `text.count("\n")`, plus one for a last line that has no newline. */
  function LineCount(text: string): nat {
    Count(text, '\n') + (if text != [] && text[|text| - 1] != '\n' then 1 else 0)
  }

  /** The index of the first newline, or `|s|` when there is none. */
  function LineEnd(s: string): (k: nat)
    ensures k <= |s|
    ensures forall i :: 0 <= i < k ==> s[i] != '\n'
    ensures k < |s| ==> s[k] == '\n'
  {
    if s == [] || s[0] == '\n' then 0 else LineEnd(s[1..]) + 1
  }

  /** The lines of a text, each without its newline; a final newline does not open a new line. */
  function SplitLines(s: string): (lines: seq<string>)
    ensures forall i :: 0 <= i < |lines| ==> Count(lines[i], '\n') == 0
    decreases |s|
  {
    if s == [] then []
    else
      var k := LineEnd(s);
      NoNewline(s[..k]);
      [s[..k]] + SplitLines(if k < |s| then s[k + 1..] else [])
  }

  lemma {:induction false} NoNewline(s: string)
    requires forall i :: 0 <= i < |s| ==> s[i] != '\n'
    ensures Count(s, '\n') == 0
  {
    if s != [] {
      NoNewline(s[1..]);
    }
  }

  lemma {:induction false} CountAppend(a: string, b: string, c: char)
    ensures Count(a + b, c) == Count(a, c) + Count(b, c)
  {
    if a == [] {
      assert a + b == b;
    } else {
      assert (a + b)[1..] == a[1..] + b;
      CountAppend(a[1..], b, c);
    }
  }

  /** The line rule of `word_stats` counts exactly the lines the text splits into. */
  lemma {:induction false} LineCountIsLines(s: string)
    ensures LineCount(s) == |SplitLines(s)|
    decreases |s|
  {
    if s != [] {
      var k := LineEnd(s);
      NoNewline(s[..k]);
      if k < |s| {
        var rest := s[k + 1..];
        assert s == s[..k] + [s[k]] + rest;
        CountAppend(s[..k] + [s[k]], rest, '\n');
        CountAppend(s[..k], [s[k]], '\n');
        assert Count([s[k]], '\n') == 1;
        assert Count(s, '\n') == 1 + Count(rest, '\n');
        assert SplitLines(s) == [s[..k]] + SplitLines(rest);
        LineCountIsLines(rest);
        if rest != [] {
          assert s[|s| - 1] == rest[|rest| - 1];
        }
      } else {
        assert s[..k] == s;
        assert SplitLines(s) == [s];
        assert s[|s| - 1] != '\n';
      }
    }
  }

  /** The length of the run of word characters that `s` starts with. */
  function RunLength(s: string, isWord: char -> bool): (k: nat)
    ensures k <= |s|
    ensures forall i :: 0 <= i < k ==> isWord(s[i])
    ensures k < |s| ==> !isWord(s[k])
  {
    if s == [] || !isWord(s[0]) then 0 else RunLength(s[1..], isWord) + 1
  }

  /**
   * `re.findall(r"\w+", text)`: the maximal runs of word characters, left to right. Which characters
   * `\w` matches is the parameter `isWord`.
   */
  function Words(s: string, isWord: char -> bool): (ws: seq<string>)
    ensures forall i :: 0 <= i < |ws| ==> ws[i] != []
    decreases |s|
  {
    if s == [] then []
    else if !isWord(s[0]) then Words(s[1..], isWord)
    else
      var k := RunLength(s, isWord);
      [s[..k]] + Words(s[k..], isWord)
  }

  /** The words are built of word characters only, and together hold every word character of the text, in order. */
  lemma {:induction false} WordsCoverText(s: string, isWord: char -> bool)
    ensures Concat(Words(s, isWord)) == Filter(s, isWord)
    decreases |s|
  {
    if s != [] {
      if !isWord(s[0]) {
        WordsCoverText(s[1..], isWord);
      } else {
        var k := RunLength(s, isWord);
        WordsCoverText(s[k..], isWord);
        assert s == s[..k] + s[k..];
        FilterAppend(s[..k], s[k..], isWord);
        FilterAllTrue(s[..k], isWord);
        assert Words(s, isWord)[1..] == Words(s[k..], isWord);
      }
    }
  }

  /** `s[a..b]` is a maximal run of word characters of `s`: it cannot be extended on either side. */
  predicate IsRun(s: string, isWord: char -> bool, a: int, b: int) {
    0 <= a < b <= |s| && (forall k :: a <= k < b ==> isWord(s[k])) &&
    (a == 0 || !isWord(s[a - 1])) && (b == |s| || !isWord(s[b]))
  }

  /** A run of the suffix `s[d..]` is a run of `s`, unless it could be extended back into `s[..d]`. */
  lemma RunShift(s: string, isWord: char -> bool, d: nat, a: int, b: int)
    requires 0 < d <= |s| && IsRun(s[d..], isWord, a, b) && (a > 0 || !isWord(s[d - 1]))
    ensures IsRun(s, isWord, a + d, b + d) && s[d..][a..b] == s[a + d..b + d]
  {
  }

  /** `w` is the text of some maximal run of word characters of `s`. */
  ghost predicate IsRunOf(s: string, isWord: char -> bool, w: string) {
    exists a, b :: IsRun(s, isWord, a, b) && w == s[a..b]
  }

  /** Each word `findall` returns is a whole run of word characters, never a piece of one. */
  lemma {:induction false} WordsAreRuns(s: string, isWord: char -> bool)
    ensures forall i :: 0 <= i < |Words(s, isWord)| ==> IsRunOf(s, isWord, Words(s, isWord)[i])
    decreases |s|
  {
    var ws := Words(s, isWord);
    if s != [] {
      var d := if isWord(s[0]) then RunLength(s, isWord) else 1;
      var rest := Words(s[d..], isWord);
      WordsAreRuns(s[d..], isWord);
      assert ws == if isWord(s[0]) then [s[..d]] + rest else rest;
      forall i | 0 <= i < |ws|
        ensures IsRunOf(s, isWord, ws[i])
      {
        if isWord(s[0]) && i == 0 {
          assert IsRun(s, isWord, 0, d) && ws[0] == s[0..d];
        } else {
          var j := if isWord(s[0]) then i - 1 else i;
          assert ws[i] == rest[j];
          assert IsRunOf(s[d..], isWord, rest[j]);
          var a, b :| IsRun(s[d..], isWord, a, b) && rest[j] == s[d..][a..b];
          RunShift(s, isWord, d, a, b);
        }
      }
    }
  }

  /** The number of places where a run of word characters starts, `prev` telling whether the character before is one. */
  function RunStarts(s: string, isWord: char -> bool, prev: bool): nat {
    if s == [] then 0
    else (if isWord(s[0]) && !prev then 1 else 0) + RunStarts(s[1..], isWord, isWord(s[0]))
  }

  lemma {:induction false} RunStartsInsideRun(s: string, isWord: char -> bool, k: nat)
    requires k <= |s| && forall i :: 0 <= i < k ==> isWord(s[i])
    ensures RunStarts(s, isWord, true) == RunStarts(s[k..], isWord, true)
  {
    if k > 0 {
      assert s[1..][k - 1..] == s[k..];
      RunStartsInsideRun(s[1..], isWord, k - 1);
    }
  }

  /** `findall` gives one word per start of a run of word characters. */
  lemma {:induction false} WordsCountRuns(s: string, isWord: char -> bool)
    ensures |Words(s, isWord)| == RunStarts(s, isWord, false)
    decreases |s|
  {
    if s != [] {
      if !isWord(s[0]) {
        WordsCountRuns(s[1..], isWord);
      } else {
        var k := RunLength(s, isWord);
        WordsCountRuns(s[k..], isWord);
        RunStartsInsideRun(s[1..], isWord, k - 1);
        assert s[1..][k - 1..] == s[k..];
      }
    }
  }

  /** The distinct words, ignoring case (`{w.lower() for w in words}`, with ASCII case folding). */
  function UniqueWords(ws: seq<string>): (u: set<string>)
    ensures forall i :: 0 <= i < |ws| ==> Lower(ws[i]) in u
    ensures forall w :: w in u ==> exists i :: 0 <= i < |ws| && Lower(ws[i]) == w
  {
    set i | 0 <= i < |ws| :: Lower(ws[i])
  }

  lemma {:induction false} UniqueAtMostWords(ws: seq<string>)
    ensures |UniqueWords(ws)| <= |ws|
  {
    if ws != [] {
      UniqueAtMostWords(ws[1..]);
      assert UniqueWords(ws) == UniqueWords(ws[1..]) + {Lower(ws[0])} by {
        forall w | w in UniqueWords(ws) ensures w in UniqueWords(ws[1..]) + {Lower(ws[0])} {
          var i :| 0 <= i < |ws| && Lower(ws[i]) == w;
          if i > 0 {
            assert ws[1..][i - 1] == ws[i];
          }
        }
      }
    }
  }

  function WordStatsOf(text: string, isWord: char -> bool): (st: WordStats)
    ensures st.unique <= st.words
    ensures st.lines <= st.chars
  {
    var ws := Words(text, isWord);
    UniqueAtMostWords(ws);
    LinesAtMostChars(text);
    WordStats(|text|, LineCount(text), |ws|, |UniqueWords(ws)|)
  }

  lemma LinesAtMostChars(text: string)
    ensures LineCount(text) <= |text|
  {
    if text != [] && text[|text| - 1] != '\n' {
      var init := text[..|text| - 1];
      assert text == init + [text[|text| - 1]];
      CountAppend(init, [text[|text| - 1]], '\n');
    }
  }

  // ---- is_palindrome ----

  predicate IsAsciiAlnum(c: char) {
    'a' <= c <= 'z' || 'A' <= c <= 'Z' || '0' <= c <= '9'
  }

  function Reverse<T>(s: seq<T>): (r: seq<T>)
    ensures |r| == |s| && forall i :: 0 <= i < |s| ==> r[i] == s[|s| - 1 - i]
  {
    if s == [] then [] else Reverse(s[1..]) + [s[0]]
  }

  /** The ASCII letters and digits of `s`, lower-cased: `re.sub(r"[^a-zA-Z0-9]", "", s).lower()`. */
  function Cleaned(s: string): string {
    Lower(Filter(s, IsAsciiAlnum))
  }

  /** `is_palindrome`: the cleaned text reads the same from both ends. */
  function IsPalindrome(s: string): (b: bool)
    ensures b <==> forall i :: 0 <= i < |Cleaned(s)| ==> Cleaned(s)[i] == Cleaned(s)[|Cleaned(s)| - 1 - i]
  {
    var c := Cleaned(s);
    assert c == Reverse(c) <==> forall i :: 0 <= i < |c| ==> c[i] == Reverse(c)[i];
    c == Reverse(c)
  }

  lemma {:induction false} CleanedIgnoresCase(s: string)
    ensures Cleaned(Lower(s)) == Cleaned(s)
  {
    if s != [] {
      CleanedIgnoresCase(s[1..]);
      assert Lower(s)[1..] == Lower(s[1..]);
      assert IsAsciiAlnum(LowerChar(s[0])) == IsAsciiAlnum(s[0]);
      assert LowerChar(LowerChar(s[0])) == LowerChar(s[0]);
    }
  }

  /** Case does not matter to the palindrome check. */
  lemma PalindromeIgnoresCase(s: string)
    ensures IsPalindrome(Lower(s)) == IsPalindrome(s)
  {
    CleanedIgnoresCase(s);
  }

  // ---- anagrams ----

  function CharKey(c: char): Key {
    [I(c as int)]
  }

  predicate IsAsciiLower(c: char) {
    'a' <= c <= 'z'
  }

  /** The letters `a`-`z` of the lower-cased word. */
  function Letters(w: string): string {
    Filter(Lower(w), IsAsciiLower)
  }

  /** `sig`: the word's letters in ascending order. */
  function Sig(w: string): (r: string)
    ensures multiset(r) == multiset(Letters(w))
    ensures Sorted(r, ByKey(CharKey, false))
  {
    SortByKey(Letters(w), CharKey, false)
  }

  /** Two words have the same signature exactly when they have the same letters, counted with repetition. */
  lemma SigSameLetters(a: string, b: string)
    ensures Sig(a) == Sig(b) <==> multiset(Letters(a)) == multiset(Letters(b))
  {
    if multiset(Letters(a)) == multiset(Letters(b)) {
      var lt := ByKey(CharKey, false);
      ByKeyIsStrictWeakOrder(CharKey, false);
      forall x, y | Tie(lt, x, y) ensures x == y {
        ByKeyTie(CharKey, false, x, y);
        assert CharKey(x)[0] == CharKey(y)[0];
      }
      SortedUnique(Sig(a), Sig(b), lt);
    }
  }

  predicate IsAnagram(word: string, c: string) {
    Sig(c) == Sig(word) && Lower(c) != Lower(word)
  }

  /**
   * `anagrams`: the candidates, in order and with repeats kept, that have the word's letters counted with
   * repetition and are not the word itself up to case.
   */
  function Anagrams(word: string, candidates: seq<string>): (r: seq<string>)
    ensures r == Filter(candidates, (c: string) =>
      multiset(Letters(c)) == multiset(Letters(word)) && Lower(c) != Lower(word))
    ensures forall c :: c in r <==> c in candidates && multiset(Letters(c)) == multiset(Letters(word)) && Lower(c) != Lower(word)
  {
    forall c ensures IsAnagram(word, c) <==> multiset(Letters(c)) == multiset(Letters(word)) && Lower(c) != Lower(word) {
      SigSameLetters(c, word);
    }
    FilterEquivalent(candidates, (c: string) => IsAnagram(word, c), (c: string) =>
      multiset(Letters(c)) == multiset(Letters(word)) && Lower(c) != Lower(word));
    FilterMembers(candidates, (c: string) => IsAnagram(word, c));
    Filter(candidates, (c: string) => IsAnagram(word, c))
  }
}
