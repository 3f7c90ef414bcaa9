/** The text analytics of backend/ocr_utils.py: the vowel-group syllable
    counter, word/sentence/character statistics with a readability grade, and
    frequency-ranked keyword extraction over a stop-word filter. */
module TextAnalytics {
  import opened Strings
  import opened Tokens

  /** STOP_WORDS. */
  const StopWords: set<string> := {
    "the", "a", "an", "and", "or", "but", "if", "then", "else", "for", "to", "of",
    "in", "on", "at", "with", "as", "by", "from", "up", "down", "out", "over", "under",
    "is", "are", "was", "were", "be", "been", "being", "it", "this", "that", "these", "those",
    "we", "you", "he", "she", "they", "them", "his", "her", "their", "our", "your", "i",
    "me", "my", "mine", "ours", "yours", "so", "not", "no", "yes", "do", "does", "did",
    "can", "could", "would", "should", "will", "just", "than", "too", "very", "into", "about"
  }

  // ---------------------------------------------------------------------
  // Syllables

  predicate IsVowel(c: char) { c == 'a' || c == 'e' || c == 'i' || c == 'o' || c == 'u' || c == 'y' }

  function AsciiLetterCount(s: string): nat {
    if s == [] then 0
    else AsciiLetterCount(s[..|s| - 1]) + (if IsAsciiLetter(s[|s| - 1]) then 1 else 0)
  }

  /** re.sub(r"[^a-z]", "", word.lower()): the ASCII letters, lowercased. */
  function LowerLetters(word: string): (r: string)
    ensures |r| == AsciiLetterCount(word)
    ensures forall i :: 0 <= i < |r| ==> 'a' <= r[i] <= 'z'
  {
    if word == [] then []
    else
      var c := word[|word| - 1];
      LowerLetters(word[..|word| - 1]) + (if IsAsciiLetter(c) then [ToLower(c)] else [])
  }

  /** The letter filter works character by character. */
  lemma {:induction false} LowerLettersAppend(a: string, b: string)
    ensures LowerLetters(a + b) == LowerLetters(a) + LowerLetters(b)
    decreases |b|
  {
    if b == [] {
      assert a + b == a;
    } else {
      var init := b[..|b| - 1];
      assert (a + b)[..|a + b| - 1] == a + init;
      LowerLettersAppend(a, init);
    }
  }

  /** One character: an ASCII letter is kept lowercased, anything else is
      dropped. */
  lemma LowerLettersChar(c: char)
    ensures LowerLetters([c]) == if IsAsciiLetter(c) then [ToLower(c)] else []
  {
    assert [c][..0] == [];
  }

  /** Position i begins a run of vowels. */
  predicate StartsGroup(w: string, i: nat)
    requires i < |w|
  {
    IsVowel(w[i]) && (i == 0 || !IsVowel(w[i - 1]))
  }

  /** The number of maximal runs of vowels in w. */
  function VowelGroups(w: string): (n: nat)
    ensures n <= |w|
  {
    if w == [] then 0
    else VowelGroups(w[..|w| - 1]) + (if StartsGroup(w, |w| - 1) then 1 else 0)
  }

  /** What count_syllables returns for `word`. */
  function Syllables(word: string): nat {
    var w := LowerLetters(word);
    if w == [] then 0
    else
      var c := VowelGroups(w);
      Max(if w[|w| - 1] == 'e' && c > 1 then c - 1 else c, 1)
  }

  lemma {:induction false} NoLettersCounted(word: string)
    ensures AsciiLetterCount(word) == 0 <==> forall i :: 0 <= i < |word| ==> !IsAsciiLetter(word[i])
  {
    if word != [] {
      var init := word[..|word| - 1];
      NoLettersCounted(init);
      assert forall i :: 0 <= i < |init| ==> init[i] == word[i];
    }
  }

  /** count_syllables is 0 exactly for words without ASCII letters; otherwise
      it lies between 1 and the number of letters. */
  lemma SyllablesRange(word: string)
    ensures Syllables(word) == 0 <==> forall i :: 0 <= i < |word| ==> !IsAsciiLetter(word[i])
    ensures Syllables(word) <= AsciiLetterCount(word)
  {
    NoLettersCounted(word);
  }

  lemma {:induction false} VowelGroupsZero(w: string)
    ensures VowelGroups(w) == 0 <==> forall i :: 0 <= i < |w| ==> !IsVowel(w[i])
  {
    if w != [] {
      var init := w[..|w| - 1];
      VowelGroupsZero(init);
      assert forall i :: 0 <= i < |init| ==> init[i] == w[i];
      if !IsVowel(w[|w| - 1]) && exists i :: 0 <= i < |w| && IsVowel(w[i]) {
        var i :| 0 <= i < |w| && IsVowel(w[i]);
        assert IsVowel(init[i]);
      }
    }
  }

  /** The silent-e correction only ever removes a group when there are at
      least two, so a word with letters keeps at least one syllable; and a
      word whose letters hold no vowel counts as one syllable. */
  lemma SilentE(word: string)
    requires LowerLetters(word) != []
    ensures var w := LowerLetters(word);
      && (w[|w| - 1] == 'e' && VowelGroups(w) > 1 ==> Syllables(word) == VowelGroups(w) - 1)
      && ((forall i :: 0 <= i < |w| ==> !IsVowel(w[i])) ==> Syllables(word) == 1)
  {
    VowelGroupsZero(LowerLetters(word));
  }

  /** On a word made only of ASCII letters, the letter filter keeps
      everything and only lowercases. */
  lemma {:induction false} LettersOnlyLowered(word: string)
    requires forall i :: 0 <= i < |word| ==> IsAsciiLetter(word[i])
    ensures LowerLetters(word) == Lower(word)
  {
    if word != [] {
      var init := word[..|word| - 1];
      LettersOnlyLowered(init);
      assert Lower(word) == Lower(init) + [ToLower(word[|word| - 1])];
    }
  }

  /** The letter filter leaves a word of lowercase ASCII letters unchanged. */
  lemma LowercaseKept(w: string)
    requires forall i :: 0 <= i < |w| ==> 'a' <= w[i] <= 'z'
    ensures LowerLetters(w) == w
  {
    LettersOnlyLowered(w);
    forall i | 0 <= i < |w| ensures Lower(w)[i] == w[i] {
      assert !IsAsciiUpper(w[i]);
    }
  }

  lemma TableSyllables(word: string)
    requires word == "Table"
    ensures Syllables(word) == 1
  {
    var w := Lower(word);
    LettersOnlyLowered(word);
    assert w[0] == 't' && w[1] == 'a' && w[2] == 'b' && w[3] == 'l' && w[4] == 'e';
    assert w[..4][..3][..2][..1] == ['t'];
    assert VowelGroups(w[..4][..3][..2]) == 1;
    assert VowelGroups(w[..4]) == 1;
    assert VowelGroups(w) == 2;
  }

  lemma TheSyllables(word: string)
    requires word == "the"
    ensures Syllables(word) == 1
  {
    LowercaseKept(word);
    assert word[..2][..1] == ['t'];
    assert VowelGroups(word[..2]) == 0;
  }

  lemma DigitsSyllables()
    ensures Syllables("42") == 0
  {
    assert "42"[..1] == "4";
  }

  /** One character more: a vowel after a non-vowel opens a new group. */
  lemma VowelStep(w: string, i: nat)
    requires i < |w|
    ensures VowelGroups(w[..i + 1]) == VowelGroups(w[..i]) + (if IsVowel(w[i]) && !(i > 0 && IsVowel(w[i - 1])) then 1 else 0)
  {
    assert w[..i + 1][..i] == w[..i];
  }

  /** After the pass over all letters, the correction and the floor give
      count_syllables. */
  lemma SyllablesFromGroups(word: string, count: nat)
    requires LowerLetters(word) != []
    requires count == VowelGroups(LowerLetters(word))
    ensures var w := LowerLetters(word);
      Max(if w[|w| - 1] == 'e' && count > 1 then count - 1 else count, 1) == Syllables(word)
  {
  }

  /** count_syllables: one pass over the lowercased letters counting the
      starts of vowel runs, then the silent-e correction and the floor of 1. */
  method CountSyllables(word: string) returns (count: nat)
    ensures count == Syllables(word)
  {
    var w := LowerLetters(word);
    if w == [] {
      return 0;
    }
    count := 0;
    var prev := false;
    for i := 0 to |w|
      invariant count == VowelGroups(w[..i])
      invariant prev == (i > 0 && IsVowel(w[i - 1]))
    {
      VowelStep(w, i);
      var isVowel := IsVowel(w[i]);
      if isVowel && !prev {
        count := count + 1;
      }
      prev := isVowel;
    }
    assert w[..|w|] == w;
    SyllablesFromGroups(word, count);
    if w[|w| - 1] == 'e' && count > 1 {
      count := count - 1;
    }
    count := Max(count, 1);
  }

  // ---------------------------------------------------------------------
  // Statistics

  datatype TextStats = TextStats(wordCount: nat, characterCount: nat, sentenceCount: nat, readabilityGrade: int)

  /** The number of parts that are not blank. */
  function CountNonBlank(parts: seq<string>): (n: nat)
    ensures n <= |parts|
  {
    if parts == [] then 0
    else CountNonBlank(parts[..|parts| - 1]) + (if Strip(parts[|parts| - 1]) != [] then 1 else 0)
  }

  /** sentence_count: the non-blank sentence parts of the stripped text, at least one. */
  function SentenceCount(text: string): nat {
    Max(CountNonBlank(SentenceParts(Strip(text))), 1)
  }

  /** The syllables of all the words, in order. */
  function SumSyllables(words: seq<string>): nat {
    if words == [] then 0
    else SumSyllables(words[..|words| - 1]) + Syllables(words[|words| - 1])
  }

  lemma SumSyllablesStep(words: seq<string>, k: nat)
    requires k < |words|
    ensures SumSyllables(words[..k + 1]) == SumSyllables(words[..k]) + Syllables(words[k])
  {
    assert words[..k + 1][..k] == words[..k];
  }

  /** sum(...) or 1. */
  function SyllableTotal(words: seq<string>): (n: nat)
    ensures n >= 1
    ensures SumSyllables(words) > 0 ==> n == SumSyllables(words)
  {
    var s := SumSyllables(words);
    if s == 0 then 1 else s
  }

  /** A word without letters adds nothing to the total. */
  lemma NoLetterWordStep(words: seq<string>, k: nat)
    requires k < |words| && LowerLetters(words[k]) == []
    ensures SumSyllables(words[..k + 1]) == SumSyllables(words[..k])
  {
    SumSyllablesStep(words, k);
  }

  /** A word with letters adds its corrected, floored vowel-group count. */
  lemma WordStep(words: seq<string>, k: nat, count: int)
    requires k < |words|
    requires var w := LowerLetters(words[k]); var g := VowelGroups(w[..|w|]);
      w != [] && count == (if w[|w| - 1] == 'e' && g > 1 then g - 1 else g)
    ensures SumSyllables(words[..k + 1]) == SumSyllables(words[..k]) + Max(count, 1)
  {
    SumSyllablesStep(words, k);
    var w := LowerLetters(words[k]);
    assert w[..|w|] == w;
    SyllablesFromGroups(words[k], VowelGroups(w));
  }

  /** Python's round on a number: the nearest integer, ties to the even one. */
  function RoundHalfEven(x: real): (r: int)
    ensures x - 0.5 <= r as real <= x + 0.5
    ensures (r as real == x - 0.5 || r as real == x + 0.5) ==> r % 2 == 0
  {
    var f := x.Floor;
    var d := x - f as real;
    if d < 0.5 then f
    else if d > 0.5 then f + 1
    else if f % 2 == 0 then f
    else f + 1
  }

  /** No other integer is as close to x or breaks the tie the same way. */
  lemma RoundHalfEvenUnique(x: real, n: int)
    requires x - 0.5 <= n as real <= x + 0.5
    requires (n as real == x - 0.5 || n as real == x + 0.5) ==> n % 2 == 0
    ensures n == RoundHalfEven(x)
  {
  }

  /** The Flesch-Kincaid grade formula over exact decimals. */
  function Readability(wordCount: nat, sentenceCount: nat, syllables: nat): real
    requires sentenceCount >= 1
  {
    0.39 * (wordCount as real / sentenceCount as real)
    + 11.8 * (syllables as real / Max(wordCount, 1) as real)
    - 15.59
  }

  /** max(1, round(readability)). */
  function Grade(wordCount: nat, sentenceCount: nat, syllables: nat): int
    requires sentenceCount >= 1
  {
    Max(1, RoundHalfEven(Readability(wordCount, sentenceCount, syllables)))
  }

  /** analyze_text_stats. */
  function AnalyzeTextStats(text: string): (st: TextStats)
    ensures st.sentenceCount >= 1
    ensures st.readabilityGrade >= 1
    ensures st.characterCount == |text|
  {
    var words := WordTokens(text);
    TextStats(|words|, |text|, SentenceCount(text), Grade(|words|, SentenceCount(text), SyllableTotal(words)))
  }

  lemma {:induction false} CountNonBlankShaped(parts: seq<string>)
    requires forall k :: 0 <= k < |parts| ==> parts[k] != [] && IsStripped(parts[k])
    ensures CountNonBlank(parts) == |parts|
  {
    if parts != [] {
      var init := parts[..|parts| - 1];
      assert forall k :: 0 <= k < |init| ==> init[k] == parts[k];
      CountNonBlankShaped(init);
      StripSpec(parts[|parts| - 1]);
    }
  }

  /** A text with something in it has as many sentences as the splitter
      produces parts; a blank text still counts one. */
  lemma SentenceCountSpec(text: string)
    ensures Strip(text) != [] ==> SentenceCount(text) == |SentenceParts(Strip(text))|
    ensures Strip(text) == [] ==> SentenceCount(text) == 1
  {
    var s := Strip(text);
    StripSpec(text);
    if s != [] {
      SentencePartsShape(s);
      CountNonBlankShaped(SentenceParts(s));
    } else {
      assert SentenceParts(s) == [s];
      assert [s][..0] == [];
    }
  }

  lemma {:induction false} NoWordsInBlank(s: string)
    requires forall i :: 0 <= i < |s| ==> IsSpace(s[i])
    ensures WordTokens(s) == []
    decreases |s|
  {
    if s != [] {
      assert !IsWordChar(s[0]);
      NoWordsInBlank(s[1..]);
    }
  }

  lemma StripEmptyBlank(s: string)
    requires Strip(s) == []
    ensures forall i :: 0 <= i < |s| ==> IsSpace(s[i])
  {
    LStripSpec(s);
    RStripSpec(LStrip(s));
  }

  /** A blank text: no words, one sentence, one syllable by the floor, and
      the grade formula gives 0.39 * 0 + 11.8 * 1 - 15.59 = -3.79, so the
      grade is clamped to 1. */
  lemma BlankTextStats(text: string)
    requires Strip(text) == []
    ensures AnalyzeTextStats(text) == TextStats(0, |text|, 1, 1)
  {
    StripEmptyBlank(text);
    NoWordsInBlank(text);
    SentenceCountSpec(text);
    assert SyllableTotal([]) == 1;
    assert AnalyzeTextStats(text).readabilityGrade == Grade(0, 1, 1);
    assert Readability(0, 1, 1) == -3.79;
    assert RoundHalfEven(-3.79) == -4 by {
      RoundHalfEvenUnique(-3.79, -4);
    }
  }

  // ---------------------------------------------------------------------
  // Keywords

  /** Every token of the list, lowercased. */
  function LowerAll(ts: seq<string>): (r: seq<string>)
    ensures |r| == |ts|
    ensures forall k :: 0 <= k < |ts| ==> r[k] == Lower(ts[k])
  {
    seq(|ts|, k requires 0 <= k < |ts| => Lower(ts[k]))
  }

  /** The tokens not in `stop` and longer than two characters, in order. */
  function Filtered(ts: seq<string>, stop: set<string>): (r: seq<string>)
    ensures forall k :: 0 <= k < |r| ==> r[k] !in stop && |r[k]| > 2 && r[k] in ts
  {
    if ts == [] then []
    else
      var t := ts[|ts| - 1];
      Filtered(ts[..|ts| - 1], stop) + (if t !in stop && |t| > 2 then [t] else [])
  }

  /** The filter keeps order: filtering a concatenation filters each part. */
  lemma {:induction false} FilteredAppend(a: seq<string>, b: seq<string>, stop: set<string>)
    ensures Filtered(a + b, stop) == Filtered(a, stop) + Filtered(b, stop)
    decreases |b|
  {
    if b == [] {
      assert a + b == a;
    } else {
      var init := b[..|b| - 1];
      assert (a + b)[..|a + b| - 1] == a + init;
      FilteredAppend(a, init, stop);
    }
  }

  /** Every occurrence of a token that passes the filter is kept, and none
      of one that does not. */
  lemma MultisetLast<T>(s: seq<T>)
    requires s != []
    ensures multiset(s) == multiset(s[..|s| - 1]) + multiset{s[|s| - 1]}
  {
    assert s == s[..|s| - 1] + [s[|s| - 1]];
  }

  lemma {:induction false} FilteredCounts(ts: seq<string>, stop: set<string>, w: string)
    ensures multiset(Filtered(ts, stop))[w] == if w !in stop && |w| > 2 then multiset(ts)[w] else 0
  {
    if ts != [] {
      var init, t := ts[..|ts| - 1], ts[|ts| - 1];
      FilteredCounts(init, stop, w);
      MultisetLast(ts);
      var kept := if t !in stop && |t| > 2 then [t] else [];
      assert Filtered(ts, stop) == Filtered(init, stop) + kept;
      assert multiset(Filtered(ts, stop)) == multiset(Filtered(init, stop)) + multiset(kept);
    }
  }

  /** The keyword candidates of `text`: its regex matches, lowercased, with
      stop words and short tokens removed. */
  function Candidates(text: string, stop: set<string>): seq<string> {
    Filtered(LowerAll(KeywordTokens(text)), stop)
  }

  /** A lowercase token of the keyword form [a-z][a-z0-9'-]*. */
  predicate IsLowerKeyword(w: string) {
    IsKeywordShaped(w) && forall i :: 0 <= i < |w| ==> !IsAsciiUpper(w[i])
  }

  /** Lowercasing and filtering keyword-shaped tokens gives lowercase
      keyword-shaped tokens that pass the filter. */
  lemma LoweredShape(ts: seq<string>, stop: set<string>)
    requires forall k :: 0 <= k < |ts| ==> IsKeywordShaped(ts[k])
    ensures forall w :: w in Filtered(LowerAll(ts), stop) ==> IsLowerKeyword(w) && w !in stop && |w| > 2
  {
    var lowered := LowerAll(ts);
    forall w | w in Filtered(lowered, stop) ensures IsLowerKeyword(w) && w !in stop && |w| > 2 {
      var j :| 0 <= j < |lowered| && lowered[j] == w;
      assert w == Lower(ts[j]);
    }
  }

  lemma CandidatesShape(text: string, stop: set<string>)
    ensures forall w :: w in Candidates(text, stop) ==> IsLowerKeyword(w) && w !in stop && |w| > 2
  {
    LoweredShape(KeywordTokens(text), stop);
  }


  predicate NoDups(xs: seq<string>) {
    forall i, j :: 0 <= i < j < |xs| ==> xs[i] != xs[j]
  }

  /** The distinct elements of xs in order of first occurrence, the key order
      of a dict or Counter filled from xs. */
  function Distinct(xs: seq<string>): seq<string> {
    if xs == [] then []
    else
      var init := Distinct(xs[..|xs| - 1]);
      var x := xs[|xs| - 1];
      if x in init then init else init + [x]
  }

  /** counts.get(w, 0). */
  function Get(counts: map<string, nat>, w: string): nat {
    if w in counts then counts[w] else 0
  }

  /** Distinct keeps every element once and nothing else. */
  lemma {:induction false} DistinctSpec(xs: seq<string>)
    ensures forall w :: w in Distinct(xs) <==> w in xs
    ensures NoDups(Distinct(xs))
  {
    if xs != [] {
      var init, x := xs[..|xs| - 1], xs[|xs| - 1];
      DistinctSpec(init);
      assert xs == init + [x];
    }
  }

  /** One more element: it joins the key order only when it is new. */
  lemma DistinctSnoc(xs: seq<string>, t: string)
    ensures Distinct(xs + [t]) == if t in xs then Distinct(xs) else Distinct(xs) + [t]
  {
    assert (xs + [t])[..|xs|] == xs;
    DistinctSpec(xs);
  }

  /** Counter(xs): each distinct element with its number of occurrences. */
  function Counter(xs: seq<string>): map<string, nat> {
    map w | w in xs :: multiset(xs)[w]
  }

  /** One more element: its count goes up by one, or it enters at 1. */
  lemma CounterSnoc(xs: seq<string>, t: string)
    ensures Counter(xs + [t]) == Counter(xs)[t := Get(Counter(xs), t) + 1]
  {
    var a := Counter(xs + [t]);
    var b := Counter(xs)[t := Get(Counter(xs), t) + 1];
    assert multiset(xs + [t]) == multiset(xs) + multiset{t};
    forall w ensures w in a <==> w in b {
      assert w in xs + [t] <==> w in xs || w == t;
    }
    forall w | w in a ensures a[w] == b[w] {
      if w != t {
        assert w in xs;
      }
    }
  }

  /** The index of the first occurrence of w in xs, or |xs| when absent. */
  function IndexOf(xs: seq<string>, w: string): (i: nat)
    ensures i <= |xs|
    ensures i < |xs| <==> w in xs
    ensures i < |xs| ==> xs[i] == w
    ensures forall j :: 0 <= j < i ==> xs[j] != w
  {
    if xs == [] then 0
    else if xs[0] == w then 0
    else 1 + IndexOf(xs[1..], w)
  }

  /** Stable insertion: x goes after every element counted at least as often. */
  function Insert(r: seq<string>, x: string, counts: map<string, nat>): (out: seq<string>)
    ensures multiset(out) == multiset(r) + multiset{x}
  {
    if r == [] then [x]
    else if Get(counts, r[0]) < Get(counts, x) then [x] + r
    else
      assert r == [r[0]] + r[1..];
      [r[0]] + Insert(r[1..], x, counts)
  }

  /** sorted(keys, key=count, reverse=True), which Python guarantees stable. */
  function Rank(keys: seq<string>, counts: map<string, nat>): (r: seq<string>)
    ensures multiset(r) == multiset(keys)
  {
    if keys == [] then []
    else
      assert keys == keys[..|keys| - 1] + [keys[|keys| - 1]];
      Insert(Rank(keys[..|keys| - 1], counts), keys[|keys| - 1], counts)
  }

  /** a comes before b: counted more often, or as often and seen first. */
  predicate Precedes(keys: seq<string>, counts: map<string, nat>, a: string, b: string) {
    Get(counts, a) > Get(counts, b) || (Get(counts, a) == Get(counts, b) && IndexOf(keys, a) < IndexOf(keys, b))
  }

  predicate RankedBy(keys: seq<string>, counts: map<string, nat>, r: seq<string>) {
    forall i, j :: 0 <= i < j < |r| ==> Precedes(keys, counts, r[i], r[j])
  }

  lemma RankedTail(keys: seq<string>, counts: map<string, nat>, r: seq<string>)
    requires r != [] && RankedBy(keys, counts, r)
    ensures RankedBy(keys, counts, r[1..])
  {
    var tail := r[1..];
    forall i, j | 0 <= i < j < |tail| ensures Precedes(keys, counts, tail[i], tail[j]) {
      assert tail[i] == r[i + 1] && tail[j] == r[j + 1];
    }
  }

  /** x counted more often than the head of a ranked list goes first. */
  lemma InsertInFront(keys: seq<string>, counts: map<string, nat>, r: seq<string>, x: string)
    requires r != [] && RankedBy(keys, counts, r) && Get(counts, r[0]) < Get(counts, x)
    ensures RankedBy(keys, counts, [x] + r)
  {
    var out := [x] + r;
    forall i, j | 0 <= i < j < |out| ensures Precedes(keys, counts, out[i], out[j]) {
      if i == 0 {
        if j > 1 {
          assert Precedes(keys, counts, r[0], r[j - 1]);
        }
      } else {
        assert out[i] == r[i - 1] && out[j] == r[j - 1];
      }
    }
  }

  /** A head that precedes x stays ahead of the insertion into the tail. */
  lemma KeepHead(keys: seq<string>, counts: map<string, nat>, r: seq<string>, x: string, ins: seq<string>)
    requires r != [] && RankedBy(keys, counts, r) && Precedes(keys, counts, r[0], x)
    requires RankedBy(keys, counts, ins) && multiset(ins) == multiset(r[1..]) + multiset{x}
    ensures RankedBy(keys, counts, [r[0]] + ins)
  {
    var out := [r[0]] + ins;
    forall i, j | 0 <= i < j < |out| ensures Precedes(keys, counts, out[i], out[j]) {
      if i == 0 {
        var y := ins[j - 1];
        assert y in multiset(ins);
        if y != x {
          assert y in multiset(r[1..]);
          var m :| 0 <= m < |r[1..]| && r[1..][m] == y;
          assert y == r[m + 1];
        }
      } else {
        assert out[i] == ins[i - 1] && out[j] == ins[j - 1];
      }
    }
  }

  lemma {:induction false} InsertRanked(keys: seq<string>, counts: map<string, nat>, r: seq<string>, x: string)
    requires RankedBy(keys, counts, r)
    requires forall k :: 0 <= k < |r| ==> IndexOf(keys, r[k]) < IndexOf(keys, x)
    ensures RankedBy(keys, counts, Insert(r, x, counts))
    decreases |r|
  {
    if r == [] {
    } else if Get(counts, r[0]) < Get(counts, x) {
      InsertInFront(keys, counts, r, x);
    } else {
      var tail := r[1..];
      RankedTail(keys, counts, r);
      assert forall k :: 0 <= k < |tail| ==> IndexOf(keys, tail[k]) < IndexOf(keys, x) by {
        forall k | 0 <= k < |tail| ensures IndexOf(keys, tail[k]) < IndexOf(keys, x) {
          assert tail[k] == r[k + 1];
        }
      }
      InsertRanked(keys, counts, tail, x);
      assert IndexOf(keys, r[0]) < IndexOf(keys, x);
      KeepHead(keys, counts, r, x, Insert(tail, x, counts));
    }
  }

  lemma {:induction false} IndexOfPrefix(keys: seq<string>, w: string)
    requires keys != [] && w in keys[..|keys| - 1]
    ensures IndexOf(keys, w) == IndexOf(keys[..|keys| - 1], w)
  {
    var init := keys[..|keys| - 1];
    var a, b := IndexOf(keys, w), IndexOf(init, w);
    assert keys[b] == w;
    assert init[a] == w || a >= |init| by {
      if a < |init| { assert init[a] == keys[a]; }
    }
  }

  /** Rank orders the keys by descending count, ties in key order. */
  lemma {:induction false} RankOrdered(keys: seq<string>, counts: map<string, nat>)
    requires NoDups(keys)
    ensures RankedBy(keys, counts, Rank(keys, counts))
  {
    if keys != [] {
      var init, x := keys[..|keys| - 1], keys[|keys| - 1];
      assert NoDups(init);
      RankOrdered(init, counts);
      var r := Rank(init, counts);
      assert forall k :: 0 <= k < |r| ==> r[k] in init by {
        forall k | 0 <= k < |r| ensures r[k] in init {
          assert r[k] in multiset(r);
        }
      }
      forall k | 0 <= k < |r| ensures IndexOf(keys, r[k]) == IndexOf(init, r[k]) {
        IndexOfPrefix(keys, r[k]);
      }
      assert RankedBy(keys, counts, r);
      assert x !in init;
      assert IndexOf(keys, x) == |keys| - 1;
      InsertRanked(keys, counts, r, x);
    }
  }

  /** Keys in Distinct order appear in order of first occurrence in xs. */
  predicate InFirstOccurrenceOrder(xs: seq<string>, d: seq<string>) {
    forall i, j :: 0 <= i < j < |d| ==> IndexOf(xs, d[i]) < IndexOf(xs, d[j])
  }

  lemma {:induction false} DistinctFirstOccurrence(xs: seq<string>)
    ensures InFirstOccurrenceOrder(xs, Distinct(xs))
  {
    if xs != [] {
      var init, x := xs[..|xs| - 1], xs[|xs| - 1];
      DistinctFirstOccurrence(init);
      DistinctSpec(init);
      var d0 := Distinct(init);
      var d := Distinct(xs);
      forall k | 0 <= k < |d0| ensures IndexOf(xs, d0[k]) == IndexOf(init, d0[k]) < |init| {
        IndexOfPrefix(xs, d0[k]);
      }
      if x in d0 {
        assert d == d0;
      } else {
        assert d == d0 + [x];
        assert x !in init;
        assert IndexOf(xs, x) == |xs| - 1;
        forall i, j | 0 <= i < j < |d| ensures IndexOf(xs, d[i]) < IndexOf(xs, d[j]) {
          assert d[i] == d0[i];
          if j < |d0| {
            assert d[j] == d0[j];
            assert IndexOf(init, d0[i]) < IndexOf(init, d0[j]);
          } else {
            assert d[j] == x;
          }
        }
      }
    }
  }

  /** Every candidate ranked by its count, ties by first occurrence. */
  function RankedCandidates(cands: seq<string>): seq<string> {
    Rank(Distinct(cands), Counter(cands))
  }

  /** Counter(candidates).most_common(top_k) for the candidates left by the
      stop set `stop`: empty for top_k <= 0, otherwise the first top_k of the
      stable ranking. */
  function MostCommon(text: string, topK: int, stop: set<string>): seq<string> {
    if topK <= 0 then [] else TakePrefix(RankedCandidates(Candidates(text, stop)), topK)
  }

  /** extract_keywords, with STOP_WORDS. */
  function ExtractKeywords(text: string, topK: int := 10): seq<string> {
    MostCommon(text, topK, StopWords)
  }

  /** Descending count in `cands`, ties broken by first occurrence in `cands`. */
  predicate ByCountThenFirst(cands: seq<string>, r: seq<string>) {
    forall i, j :: 0 <= i < j < |r| ==>
      multiset(cands)[r[i]] > multiset(cands)[r[j]]
      || (multiset(cands)[r[i]] == multiset(cands)[r[j]] && IndexOf(cands, r[i]) < IndexOf(cands, r[j]))
  }

  /** The full ranking holds each candidate, and nothing else, exactly once. */
  lemma RankedMembers(cands: seq<string>)
    ensures forall w :: w in RankedCandidates(cands) <==> w in cands
    ensures |RankedCandidates(cands)| == |Distinct(cands)|
  {
    var d := Distinct(cands);
    var r := RankedCandidates(cands);
    DistinctSpec(cands);
    assert |r| == |multiset(r)| == |multiset(d)| == |d|;
    forall w ensures w in r <==> w in cands {
      assert w in r <==> w in multiset(r);
      assert w in d <==> w in multiset(d);
    }
  }

  /** The full ranking repeats no candidate. */
  lemma RankedNoDups(cands: seq<string>)
    ensures NoDups(RankedCandidates(cands))
  {
    var d := Distinct(cands);
    var counts := Counter(cands);
    var r := RankedCandidates(cands);
    DistinctSpec(cands);
    RankOrdered(d, counts);
    assert multiset(r) == multiset(d);
    forall i, j | 0 <= i < j < |r| ensures r[i] != r[j] {
      assert r[i] in multiset(d) && r[j] in multiset(d);
      assert Precedes(d, counts, r[i], r[j]);
      assert IndexOf(d, r[i]) < |d| && IndexOf(d, r[j]) < |d|;
    }
  }

  /** One pair of the ranking: Precedes over the key order of the counter is
      the order by count, then by first occurrence. */
  lemma PrecedesByCount(cands: seq<string>, x: string, y: string)
    requires x in cands && y in cands
    requires InFirstOccurrenceOrder(cands, Distinct(cands))
    requires Precedes(Distinct(cands), Counter(cands), x, y)
    ensures multiset(cands)[x] > multiset(cands)[y]
      || (multiset(cands)[x] == multiset(cands)[y] && IndexOf(cands, x) < IndexOf(cands, y))
  {
    var d := Distinct(cands);
    DistinctSpec(cands);
    var a, b := IndexOf(d, x), IndexOf(d, y);
    if multiset(cands)[x] == multiset(cands)[y] {
      assert a < b;
      assert d[a] == x && d[b] == y;
    }
  }

  /** The full ranking runs in descending count, ties broken by first
      occurrence in the text. */
  lemma RankedByCount(cands: seq<string>)
    ensures ByCountThenFirst(cands, RankedCandidates(cands))
  {
    var d := Distinct(cands);
    var counts := Counter(cands);
    var r := RankedCandidates(cands);
    RankedMembers(cands);
    DistinctSpec(cands);
    RankOrdered(d, counts);
    DistinctFirstOccurrence(cands);
    forall i, j | 0 <= i < j < |r|
      ensures multiset(cands)[r[i]] > multiset(cands)[r[j]]
        || (multiset(cands)[r[i]] == multiset(cands)[r[j]] && IndexOf(cands, r[i]) < IndexOf(cands, r[j]))
    {
      assert r[i] in r && r[j] in r;
      PrecedesByCount(cands, r[i], r[j]);
    }
  }

  /** A prefix of the full ranking keeps its order and repeats nothing. */
  lemma RankedPrefixOrder(cands: seq<string>, n: nat)
    requires n <= |RankedCandidates(cands)|
    ensures var r := RankedCandidates(cands)[..n];
      && NoDups(r)
      && ByCountThenFirst(cands, r)
      && (forall k :: 0 <= k < n ==> r[k] in cands)
  {
    var full := RankedCandidates(cands);
    var r := full[..n];
    RankedNoDups(cands);
    RankedByCount(cands);
    RankedMembers(cands);
    assert forall k :: 0 <= k < n ==> r[k] == full[k];
    forall k | 0 <= k < n ensures r[k] in cands {
      assert full[k] in full;
    }
  }

  /** Whatever a prefix of the full ranking leaves out is counted no more
      often than anything it keeps. */
  lemma RankedPrefixComplete(cands: seq<string>, n: nat)
    requires n <= |RankedCandidates(cands)|
    ensures var r := RankedCandidates(cands)[..n];
      forall w, k :: w in cands && w !in r && 0 <= k < n ==> multiset(cands)[r[k]] >= multiset(cands)[w]
  {
    var full := RankedCandidates(cands);
    var r := full[..n];
    RankedByCount(cands);
    RankedMembers(cands);
    forall w, k | w in cands && w !in r && 0 <= k < n ensures multiset(cands)[r[k]] >= multiset(cands)[w] {
      assert w in full;
      var m :| 0 <= m < |full| && full[m] == w;
      assert r[k] == full[k];
      assert k < m;
    }
  }

  /** The keywords are the leading top_k entries of the full ranking, or none
      when top_k is not positive. */
  lemma MostCommonPrefix(text: string, topK: int, stop: set<string>)
    ensures var r := MostCommon(text, topK, stop);
      var full := RankedCandidates(Candidates(text, stop));
      && |r| == (if topK <= 0 then 0 else Min(topK, |Distinct(Candidates(text, stop))|))
      && |r| <= |full| && r == full[..|r|]
  {
    RankedMembers(Candidates(text, stop));
  }

  /** The keywords repeat nothing and run in descending count, ties broken by
      first occurrence. */
  lemma MostCommonOrder(text: string, topK: int, stop: set<string>)
    ensures NoDups(MostCommon(text, topK, stop))
    ensures ByCountThenFirst(Candidates(text, stop), MostCommon(text, topK, stop))
  {
    MostCommonPrefix(text, topK, stop);
    RankedPrefixOrder(Candidates(text, stop), |MostCommon(text, topK, stop)|);
  }

  /** Every keyword is a lowercase candidate of the keyword form, not a stop
      word and longer than two characters. */
  lemma MostCommonShape(text: string, topK: int, stop: set<string>)
    ensures forall w :: w in MostCommon(text, topK, stop) ==>
      w in Candidates(text, stop) && IsLowerKeyword(w) && w !in stop && |w| > 2
  {
    var cands := Candidates(text, stop);
    var full := RankedCandidates(cands);
    var r := MostCommon(text, topK, stop);
    MostCommonPrefix(text, topK, stop);
    RankedMembers(cands);
    CandidatesShape(text, stop);
    forall w | w in r ensures w in cands {
      var k :| 0 <= k < |r| && r[k] == w;
      assert full[k] == w;
    }
  }

  /** No candidate left out of the keywords is counted more often than one
      kept. */
  lemma MostCommonComplete(text: string, topK: int, stop: set<string>)
    ensures var cands := Candidates(text, stop);
      var r := MostCommon(text, topK, stop);
      forall w, k :: w in cands && w !in r && 0 <= k < |r| ==> multiset(cands)[r[k]] >= multiset(cands)[w]
  {
    MostCommonPrefix(text, topK, stop);
    RankedPrefixComplete(Candidates(text, stop), |MostCommon(text, topK, stop)|);
  }
}
