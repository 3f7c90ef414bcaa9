/** The three regular expressions the analytics run over recognised text,
    read over ASCII: \b\w+\b for words, (?<=[.!?])\s+ as the sentence
    separator, and \b[a-zA-Z][a-zA-Z0-9'-]*\b for keyword candidates. */
module Tokens {
  import opened Strings

  /** The pieces in order, with nothing between them. */
  function Concat(parts: seq<string>): string {
    if parts == [] then [] else parts[0] + Concat(parts[1..])
  }

  /** The word characters of `s`, in order. */
  function WordChars(s: string): string {
    if s == [] then []
    else (if IsWordChar(s[0]) then [s[0]] else []) + WordChars(s[1..])
  }

  function WordRunLength(s: string): (n: nat)
    ensures n <= |s|
    ensures forall i :: 0 <= i < n ==> IsWordChar(s[i])
    ensures n < |s| ==> !IsWordChar(s[n])
  {
    if s != [] && IsWordChar(s[0]) then 1 + WordRunLength(s[1..]) else 0
  }

  predicate AllWordChars(t: string) {
    forall i :: 0 <= i < |t| ==> IsWordChar(t[i])
  }

  /** re.findall(r"\b\w+\b", s): the maximal runs of word characters. */
  function WordTokens(s: string): (ws: seq<string>)
    ensures forall k :: 0 <= k < |ws| ==> ws[k] != [] && AllWordChars(ws[k])
    decreases |s|
  {
    if s == [] then []
    else if !IsWordChar(s[0]) then WordTokens(s[1..])
    else
      var n := WordRunLength(s);
      [s[..n]] + WordTokens(s[n..])
  }

  lemma {:induction false} WordCharsAppend(a: string, b: string)
    ensures WordChars(a + b) == WordChars(a) + WordChars(b)
  {
    if a != [] {
      assert (a + b)[1..] == a[1..] + b;
      WordCharsAppend(a[1..], b);
    } else {
      assert a + b == b;
    }
  }

  lemma {:induction false} WordCharsOfWord(t: string)
    requires AllWordChars(t)
    ensures WordChars(t) == t
  {
    if t != [] {
      WordCharsOfWord(t[1..]);
    }
  }

  /** The words found are exactly the word characters of the text, in order:
      the tokenizer neither drops nor reorders nor invents any. */
  lemma {:induction false} WordTokensCover(s: string)
    ensures Concat(WordTokens(s)) == WordChars(s)
    decreases |s|
  {
    if s != [] {
      if !IsWordChar(s[0]) {
        WordTokensCover(s[1..]);
      } else {
        var n := WordRunLength(s);
        WordTokensCover(s[n..]);
        assert s == s[..n] + s[n..];
        WordCharsAppend(s[..n], s[n..]);
        WordCharsOfWord(s[..n]);
      }
    }
  }

  /** A word begins at j: a word character with none right before it. */
  predicate WordStart(s: string, j: nat)
    requires j < |s|
  {
    IsWordChar(s[j]) && (j == 0 || !IsWordChar(s[j - 1]))
  }

  /** The number of positions in [lo, hi) where a word begins. */
  function WordStartsIn(s: string, lo: nat, hi: nat): nat
    requires lo <= hi <= |s|
    decreases hi - lo
  {
    if hi == lo then 0
    else WordStartsIn(s, lo, hi - 1) + (if WordStart(s, hi - 1) then 1 else 0)
  }

  lemma {:induction false} WordStartsSplit(s: string, lo: nat, mid: nat, hi: nat)
    requires lo <= mid <= hi <= |s|
    ensures WordStartsIn(s, lo, hi) == WordStartsIn(s, lo, mid) + WordStartsIn(s, mid, hi)
    decreases hi - mid
  {
    if hi > mid {
      WordStartsSplit(s, lo, mid, hi - 1);
    }
  }

  /** Counting in a suffix: positions move by d, and position d begins a
      word in the suffix exactly when it does in s. */
  lemma {:induction false} WordStartsShift(s: string, d: nat, m: nat)
    requires d + m <= |s|
    requires 0 < d < |s| ==> !IsWordChar(s[d - 1]) || !IsWordChar(s[d])
    ensures WordStartsIn(s[d..], 0, m) == WordStartsIn(s, d, d + m)
    decreases m
  {
    if m > 0 {
      WordStartsShift(s, d, m - 1);
      assert WordStart(s[d..], m - 1) == WordStart(s, d + m - 1);
    }
  }

  lemma {:induction false} NoStartsInRun(s: string, hi: nat)
    requires 1 <= hi <= |s|
    requires forall i :: 0 <= i < hi ==> IsWordChar(s[i])
    ensures WordStartsIn(s, 1, hi) == 0
    decreases hi
  {
    if hi > 1 {
      NoStartsInRun(s, hi - 1);
    }
  }

  /** len(re.findall(r"\b\w+\b", s)) is the number of places where a run of
      word characters begins. */
  lemma {:induction false} WordTokensCount(s: string)
    ensures |WordTokens(s)| == WordStartsIn(s, 0, |s|)
    decreases |s|
  {
    if s != [] {
      if !IsWordChar(s[0]) {
        WordTokensCount(s[1..]);
        WordStartsShift(s, 1, |s| - 1);
        WordStartsSplit(s, 0, 1, |s|);
      } else {
        var n := WordRunLength(s);
        WordTokensCount(s[n..]);
        WordStartsShift(s, n, |s| - n);
        WordStartsSplit(s, 0, n, |s|);
        WordStartsSplit(s, 0, 1, n);
        NoStartsInRun(s, n);
      }
    }
  }

  /** Text with no word character: what lies between two words. */
  predicate NoWordChars(g: string) {
    forall i :: 0 <= i < |g| ==> !IsWordChar(g[i])
  }

  /** The words with the text around them put back:
      gaps[0] + words[0] + gaps[1] + ... + words[n - 1] + gaps[n]. */
  function WordWeave(gaps: seq<string>, words: seq<string>): string
    requires |gaps| == |words| + 1
    decreases |words|
  {
    if words == [] then gaps[0] else gaps[0] + words[0] + WordWeave(gaps[1..], words[1..])
  }

  /** A cut of a text into its words and what lies around them, as
      \b\w+\b finds them: each word a non-empty run of word characters, the
      text around them free of word characters, and non-empty between two
      words. */
  predicate WordCut(gaps: seq<string>, words: seq<string>) {
    && |gaps| == |words| + 1
    && (forall k :: 0 <= k < |words| ==> words[k] != [] && AllWordChars(words[k]))
    && (forall k :: 0 <= k < |gaps| ==> NoWordChars(gaps[k]))
    && (forall k :: 0 < k < |words| ==> gaps[k] != [])
  }

  /** What findall skips: the text before, between and after the words. */
  function WordGaps(s: string): (gaps: seq<string>)
    ensures |gaps| == |WordTokens(s)| + 1
    decreases |s|
  {
    if s == [] then [[]]
    else if !IsWordChar(s[0]) then
      var g := WordGaps(s[1..]);
      [[s[0]] + g[0]] + g[1..]
    else
      [[]] + WordGaps(s[WordRunLength(s)..])
  }

  lemma WordWeaveCons(g: string, w: string, gaps: seq<string>, words: seq<string>)
    requires |gaps| == |words| + 1
    ensures WordWeave([g] + gaps, [w] + words) == g + w + WordWeave(gaps, words)
  {
    assert ([g] + gaps)[1..] == gaps;
    assert ([w] + words)[1..] == words;
  }

  lemma WordWeavePrepend(c: char, gaps: seq<string>, words: seq<string>)
    requires |gaps| == |words| + 1
    ensures WordWeave([[c] + gaps[0]] + gaps[1..], words) == [c] + WordWeave(gaps, words)
  {
    var gs := [[c] + gaps[0]] + gaps[1..];
    assert gs[1..] == gaps[1..];
    if words != [] {
      assert [c] + gaps[0] + words[0] + WordWeave(gaps[1..], words[1..])
        == [c] + (gaps[0] + words[0] + WordWeave(gaps[1..], words[1..]));
    }
  }

  lemma WordCutPrepend(c: char, gaps: seq<string>, words: seq<string>)
    requires WordCut(gaps, words) && !IsWordChar(c)
    ensures WordCut([[c] + gaps[0]] + gaps[1..], words)
  {
    var gs := [[c] + gaps[0]] + gaps[1..];
    forall k | 0 < k < |gs| ensures gs[k] == gaps[k] { }
    assert NoWordChars(gs[0]) by {
      forall i | 0 < i < |gs[0]| ensures gs[0][i] == gaps[0][i - 1] { }
    }
  }

  /** The text before the first word is non-empty when the text does not
      begin with a word character. */
  lemma WordCutFirstGap(t: string, gaps: seq<string>, words: seq<string>)
    requires WordCut(gaps, words) && WordWeave(gaps, words) == t && words != []
    requires t == [] || !IsWordChar(t[0])
    ensures gaps[0] != []
  {
    assert t == gaps[0] + words[0] + WordWeave(gaps[1..], words[1..]);
    assert t[|gaps[0]|] == words[0][0];
  }

  lemma WordCutCons(w: string, gaps: seq<string>, words: seq<string>)
    requires WordCut(gaps, words)
    requires w != [] && AllWordChars(w)
    requires words != [] ==> gaps[0] != []
    ensures WordCut([[]] + gaps, [w] + words)
  {
    var gs, ws := [[]] + gaps, [w] + words;
    forall k | 0 < k < |gs| ensures gs[k] == gaps[k - 1] { }
    forall k | 0 < k < |ws| ensures ws[k] == words[k - 1] { }
  }

  /** Putting back the text around the words gives the text again, and the
      cut is one \b\w+\b makes. */
  lemma {:induction false} WordTokensWeave(s: string)
    ensures WordCut(WordGaps(s), WordTokens(s))
    ensures WordWeave(WordGaps(s), WordTokens(s)) == s
    decreases |s|
  {
    if s == [] {
    } else if !IsWordChar(s[0]) {
      var t := s[1..];
      WordTokensWeave(t);
      WordCutPrepend(s[0], WordGaps(t), WordTokens(t));
      WordWeavePrepend(s[0], WordGaps(t), WordTokens(t));
      assert s == [s[0]] + t;
    } else {
      var n := WordRunLength(s);
      var t := s[n..];
      WordTokensWeave(t);
      if WordTokens(t) != [] {
        WordCutFirstGap(t, WordGaps(t), WordTokens(t));
      }
      WordCutCons(s[..n], WordGaps(t), WordTokens(t));
      WordWeaveCons([], s[..n], WordGaps(t), WordTokens(t));
      assert s == [] + s[..n] + t;
    }
  }

  lemma {:induction false} SkipNonWords(g: string, t: string)
    requires NoWordChars(g)
    ensures WordTokens(g + t) == WordTokens(t)
    decreases |g|
  {
    if g != [] {
      assert (g + t)[1..] == g[1..] + t;
      SkipNonWords(g[1..], t);
    } else {
      assert g + t == t;
    }
  }

  lemma {:induction false} WordRunLengthOf(w: string, rest: string)
    requires AllWordChars(w)
    requires rest == [] || !IsWordChar(rest[0])
    ensures WordRunLength(w + rest) == |w|
    decreases |w|
  {
    if w != [] {
      assert (w + rest)[1..] == w[1..] + rest;
      WordRunLengthOf(w[1..], rest);
    } else {
      assert w + rest == rest;
    }
  }

  lemma TakeWord(w: string, rest: string)
    requires w != [] && AllWordChars(w)
    requires rest == [] || !IsWordChar(rest[0])
    ensures WordTokens(w + rest) == [w] + WordTokens(rest)
  {
    WordRunLengthOf(w, rest);
    var s := w + rest;
    assert s[..|w|] == w && s[|w|..] == rest;
  }

  /** A woven text after its first gap begins with that gap's first
      character, or the gap and everything after it are empty. */
  lemma WordWeaveStart(gaps: seq<string>, words: seq<string>)
    requires |gaps| == |words| + 1 && NoWordChars(gaps[0])
    requires words != [] ==> gaps[0] != []
    ensures WordWeave(gaps, words) == [] || !IsWordChar(WordWeave(gaps, words)[0])
  {
  }

  lemma WordCutHead(gaps: seq<string>, words: seq<string>)
    requires WordCut(gaps, words) && words != []
    ensures NoWordChars(gaps[0]) && words[0] != [] && AllWordChars(words[0])
    ensures NoWordChars(gaps[1]) && (|words| > 1 ==> gaps[1] != [])
    ensures WordCut(gaps[1..], words[1..])
  {
    forall k | 0 <= k < |gaps| - 1 ensures gaps[1..][k] == gaps[k + 1] { }
  }

  /** The cut \b\w+\b makes is the only one: any text cut into words and
      the text around them as WordCut says yields exactly those words. */
  lemma {:induction false} WordCutUnique(s: string, gaps: seq<string>, words: seq<string>)
    requires WordCut(gaps, words) && WordWeave(gaps, words) == s
    ensures WordTokens(s) == words
    decreases |words|
  {
    if words == [] {
      SkipNonWords(s, []);
      assert s + [] == s;
    } else {
      var g, w := gaps[0], words[0];
      var rest := WordWeave(gaps[1..], words[1..]);
      WordCutHead(gaps, words);
      WordWeaveStart(gaps[1..], words[1..]);
      assert s == g + (w + rest);
      SkipNonWords(g, w + rest);
      TakeWord(w, rest);
      WordCutUnique(rest, gaps[1..], words[1..]);
      assert words == [w] + words[1..];
    }
  }

  /** "ab cd" has the words "ab" and "cd". */
  lemma TwoWords(s: string)
    requires s == "ab cd"
    ensures WordTokens(s) == ["ab", "cd"]
  {
    var gaps, words := ["", " ", ""], ["ab", "cd"];
    assert WordWeave(gaps, words) == s;
    WordCutUnique(s, gaps, words);
  }

  predicate IsTerminal(c: char) { c == '.' || c == '!' || c == '?' }

  /** The separator (?<=[.!?])\s+ can begin at j. */
  predicate BreakAt(s: string, j: int) {
    0 < j < |s| && IsTerminal(s[j - 1]) && IsSpace(s[j])
  }

  function FirstBreak(s: string, j: nat): (k: nat)
    requires 1 <= j
    ensures k <= |s|
    ensures k < |s| ==> j <= k && BreakAt(s, k)
    ensures forall i :: j <= i < k ==> !BreakAt(s, i)
    decreases |s| - j
  {
    if j >= |s| then |s| else if BreakAt(s, j) then j else FirstBreak(s, j + 1)
  }

  /** The end of the run of whitespace that starts at j. */
  function SpaceRunEnd(s: string, j: nat): (e: nat)
    requires j <= |s|
    ensures j <= e <= |s|
    ensures forall i :: j <= i < e ==> IsSpace(s[i])
    ensures e < |s| ==> !IsSpace(s[e])
    decreases |s| - j
  {
    if j < |s| && IsSpace(s[j]) then SpaceRunEnd(s, j + 1) else j
  }

  /** re.split(r"(?<=[.!?])\s+", s): cut at every maximal whitespace run that
      follows '.', '!' or '?', dropping the run. */
  function SentenceParts(s: string): (parts: seq<string>)
    ensures |parts| >= 1
    decreases |s|
  {
    var k := FirstBreak(s, 1);
    if k >= |s| then [s]
    else [s[..k]] + SentenceParts(s[SpaceRunEnd(s, k)..])
  }

  predicate NoBreak(t: string) {
    forall i :: 0 < i < |t| ==> !BreakAt(t, i)
  }

  /** Each part is non-empty and stripped and holds no separator, and every
      part but the last ends with its terminal mark. */
  predicate PartsShaped(parts: seq<string>) {
    && (forall k :: 0 <= k < |parts| ==> parts[k] != [] && IsStripped(parts[k]) && NoBreak(parts[k]))
    && (forall k :: 0 <= k < |parts| - 1 ==> parts[k] != [] && IsTerminal(parts[k][|parts[k]| - 1]))
  }

  lemma PartsShapedCons(head: string, rest: seq<string>)
    requires head != [] && IsStripped(head) && NoBreak(head) && IsTerminal(head[|head| - 1])
    requires PartsShaped(rest)
    ensures PartsShaped([head] + rest)
  {
    var parts := [head] + rest;
    forall k | 0 < k < |parts| ensures parts[k] == rest[k - 1] { }
  }

  /** The separator cut by SentenceParts: the head before it and the rest
      after it, both in terms of the indices of `s`. */
  lemma FirstPartShape(s: string)
    requires IsStripped(s) && s != [] && FirstBreak(s, 1) < |s|
    ensures var k := FirstBreak(s, 1);
      var e := SpaceRunEnd(s, k);
      && 0 < k < e < |s|
      && s[..k] != [] && IsStripped(s[..k]) && NoBreak(s[..k]) && IsTerminal(s[k - 1])
      && IsStripped(s[e..]) && s[e..] != []
  {
    var k := FirstBreak(s, 1);
    var e := SpaceRunEnd(s, k);
    var head := s[..k];
    assert NoBreak(head) by {
      forall i | 0 < i < |head| ensures !BreakAt(head, i) {
        assert BreakAt(head, i) == BreakAt(s, i);
      }
    }
  }

  /** Shape of the sentence parts of a stripped, non-empty text. */
  lemma {:induction false} SentencePartsShape(s: string)
    requires IsStripped(s) && s != []
    ensures PartsShaped(SentenceParts(s))
    decreases |s|
  {
    var k := FirstBreak(s, 1);
    if k >= |s| {
      assert SentenceParts(s) == [s];
      assert NoBreak(s) by {
        forall i | 0 < i < |s| ensures !BreakAt(s, i) {
          assert 1 <= i < k;
        }
      }
    } else {
      FirstPartShape(s);
      var rest := s[SpaceRunEnd(s, k)..];
      SentencePartsShape(rest);
      PartsShapedCons(s[..k], SentenceParts(rest));
    }
  }

  lemma {:induction false} NonSpaceSkipsGap(s: string, k: nat, e: nat)
    requires k <= e <= |s|
    requires forall i :: k <= i < e ==> IsSpace(s[i])
    ensures NonSpace(s) == NonSpace(s[..k]) + NonSpace(s[e..])
  {
    var a, b, c := s[..k], s[k..e], s[e..];
    assert s == a + (b + c);
    NonSpaceAppend(a, b + c);
    NonSpaceAppend(b, c);
    NonSpaceOfSpaces(b);
  }

  /** Splitting into sentences loses nothing but whitespace. */
  lemma {:induction false} SentencePartsKeepText(s: string)
    ensures NonSpace(Concat(SentenceParts(s))) == NonSpace(s)
    decreases |s|
  {
    var k := FirstBreak(s, 1);
    if k >= |s| {
      var parts := SentenceParts(s);
      assert parts == [s];
      assert parts[1..] == [];
      assert Concat(parts) == s + [];
      assert s + [] == s;
    } else {
      var e := SpaceRunEnd(s, k);
      var restParts := SentenceParts(s[e..]);
      SentencePartsKeepText(s[e..]);
      assert SentenceParts(s) == [s[..k]] + restParts;
      assert Concat([s[..k]] + restParts) == s[..k] + Concat(restParts);
      NonSpaceAppend(s[..k], Concat(restParts));
      NonSpaceSkipsGap(s, k, e);
    }
  }

  /** A run of whitespace, as the separator consumes it. */
  predicate AllSpace(g: string) {
    forall i :: 0 <= i < |g| ==> IsSpace(g[i])
  }

  /** The parts with the separator runs put back between them. */
  function Weave(parts: seq<string>, gaps: seq<string>): string
    requires |parts| == |gaps| + 1
    decreases |gaps|
  {
    if gaps == [] then parts[0] else parts[0] + gaps[0] + Weave(parts[1..], gaps[1..])
  }

  /** A cut of a text that re.split would make: each separator is a
      non-empty whitespace run right after a terminal mark and before a
      character that is not whitespace (or the end), and no part holds a
      separator of its own. */
  predicate SentenceCut(parts: seq<string>, gaps: seq<string>) {
    && |parts| == |gaps| + 1
    && (forall k :: 0 <= k < |parts| ==> NoBreak(parts[k]))
    && (forall k :: 0 <= k < |gaps| ==> parts[k] != [] && IsTerminal(parts[k][|parts[k]| - 1]))
    && (forall k :: 0 <= k < |gaps| ==> gaps[k] != [] && AllSpace(gaps[k]))
    && (forall k :: 0 < k < |parts| ==> parts[k] == [] || !IsSpace(parts[k][0]))
  }

  /** The separator runs re.split drops, one between each two parts. */
  function SentenceGaps(s: string): (gaps: seq<string>)
    ensures |gaps| == |SentenceParts(s)| - 1
    decreases |s|
  {
    var k := FirstBreak(s, 1);
    if k >= |s| then []
    else [s[k..SpaceRunEnd(s, k)]] + SentenceGaps(s[SpaceRunEnd(s, k)..])
  }

  lemma SentenceCutCons(p: string, g: string, parts: seq<string>, gaps: seq<string>)
    requires SentenceCut(parts, gaps)
    requires NoBreak(p) && p != [] && IsTerminal(p[|p| - 1])
    requires g != [] && AllSpace(g)
    requires parts[0] == [] || !IsSpace(parts[0][0])
    ensures SentenceCut([p] + parts, [g] + gaps)
  {
    var ps, gs := [p] + parts, [g] + gaps;
    forall k | 0 < k < |ps| ensures ps[k] == parts[k - 1] { }
    forall k | 0 < k < |gs| ensures gs[k] == gaps[k - 1] { }
  }

  /** The first part and separator of a cut, and the cut that remains. */
  lemma SentenceCutHead(parts: seq<string>, gaps: seq<string>)
    requires SentenceCut(parts, gaps) && gaps != []
    ensures NoBreak(parts[0]) && parts[0] != [] && IsTerminal(parts[0][|parts[0]| - 1])
    ensures gaps[0] != [] && AllSpace(gaps[0])
    ensures parts[1] == [] || !IsSpace(parts[1][0])
    ensures parts[1] != [] || |gaps| == 1
    ensures SentenceCut(parts[1..], gaps[1..])
  {
    forall k | 0 <= k < |parts| - 1 ensures parts[1..][k] == parts[k + 1] { }
  }

  lemma WeaveCons(p: string, g: string, parts: seq<string>, gaps: seq<string>)
    requires |parts| == |gaps| + 1
    ensures Weave([p] + parts, [g] + gaps) == p + g + Weave(parts, gaps)
  {
    assert ([p] + parts)[1..] == parts;
    assert ([g] + gaps)[1..] == gaps;
  }

  /** A woven text begins with its first part, when that is not empty. */
  lemma WeaveStart(parts: seq<string>, gaps: seq<string>)
    requires |parts| == |gaps| + 1
    requires parts[0] != [] || gaps == []
    ensures Weave(parts, gaps) == [] || (parts[0] != [] && Weave(parts, gaps)[0] == parts[0][0])
  {
  }

  /** The first part is a prefix of the text. */
  lemma FirstPartPrefix(s: string)
    ensures var first := SentenceParts(s)[0];
      |first| <= |s| && first == s[..|first|]
  {
  }

  /** A text that does not begin with whitespace has a first part that does
      not either. */
  lemma FirstPartStart(s: string)
    requires s == [] || !IsSpace(s[0])
    ensures SentenceParts(s)[0] == [] || !IsSpace(SentenceParts(s)[0][0])
  {
    FirstPartPrefix(s);
  }

  /** One cut of the split: the head before the first separator, the
      separator run, and the rest after it. */
  lemma SentenceStep(s: string)
    requires FirstBreak(s, 1) < |s|
    ensures var k := FirstBreak(s, 1);
      var e := SpaceRunEnd(s, k);
      && 0 < k < e <= |s|
      && SentenceParts(s) == [s[..k]] + SentenceParts(s[e..])
      && SentenceGaps(s) == [s[k..e]] + SentenceGaps(s[e..])
      && s == s[..k] + s[k..e] + s[e..]
      && NoBreak(s[..k]) && IsTerminal(s[k - 1])
      && AllSpace(s[k..e])
      && (s[e..] == [] || !IsSpace(s[e..][0]))
  {
    var k := FirstBreak(s, 1);
    var e := SpaceRunEnd(s, k);
    var head := s[..k];
    assert NoBreak(head) by {
      forall i | 0 < i < |head| ensures !BreakAt(head, i) {
        assert BreakAt(head, i) == BreakAt(s, i);
      }
    }
    SliceThree(s, k, e);
  }

  lemma SliceThree<T>(s: seq<T>, k: nat, e: nat)
    requires k <= e <= |s|
    ensures s == s[..k] + s[k..e] + s[e..]
  {
  }

  /** Putting the separators back between the parts gives the text again,
      and the cut is one re.split would make. */
  lemma {:induction false} SentencePartsWeave(s: string)
    ensures SentenceCut(SentenceParts(s), SentenceGaps(s))
    ensures Weave(SentenceParts(s), SentenceGaps(s)) == s
    decreases |s|
  {
    var k := FirstBreak(s, 1);
    if k >= |s| {
      assert SentenceParts(s) == [s] && SentenceGaps(s) == [];
      assert NoBreak(s) by {
        forall i | 0 < i < |s| ensures !BreakAt(s, i) {
          assert 1 <= i < k;
        }
      }
    } else {
      var e := SpaceRunEnd(s, k);
      var head, gap, rest := s[..k], s[k..e], s[e..];
      SentenceStep(s);
      SentencePartsWeave(rest);
      FirstPartStart(rest);
      SentenceCutCons(head, gap, SentenceParts(rest), SentenceGaps(rest));
      WeaveCons(head, gap, SentenceParts(rest), SentenceGaps(rest));
    }
  }

  lemma NoBreakFirst(s: string)
    requires NoBreak(s)
    ensures FirstBreak(s, 1) == |s|
  {
  }

  lemma {:induction false} SpaceRunEndAt(s: string, j: nat, e: nat)
    requires j <= e <= |s|
    requires forall i :: j <= i < e ==> IsSpace(s[i])
    requires e < |s| ==> !IsSpace(s[e])
    ensures SpaceRunEnd(s, j) == e
    decreases e - j
  {
    if j < e {
      SpaceRunEndAt(s, j + 1, e);
    }
  }

  /** Where the split cuts `p + g + rest` when `p` holds no separator and
      ends with a terminal mark, `g` is whitespace and `rest` does not begin
      with whitespace: right after `p`, dropping exactly `g`. */
  lemma BreakLocate(p: string, g: string, rest: string)
    requires NoBreak(p) && p != [] && IsTerminal(p[|p| - 1])
    requires g != [] && AllSpace(g)
    requires rest == [] || !IsSpace(rest[0])
    ensures var s, k := p + g + rest, |p|;
      && k < |s| && FirstBreak(s, 1) == k && SpaceRunEnd(s, k) == k + |g|
      && s[..k] == p && s[k..k + |g|] == g && s[k + |g|..] == rest
  {
    var s, k := p + g + rest, |p|;
    assert BreakAt(s, k);
    forall i | 1 <= i < k ensures !BreakAt(s, i) {
      assert BreakAt(s, i) == BreakAt(p, i);
    }
    SpaceRunEndAt(s, k, k + |g|);
    assert s[..k] == p && s[k..k + |g|] == g && s[k + |g|..] == rest;
  }

  /** The cut re.split makes is the only one: any text cut into parts and
      separator runs as SentenceCut says is split into exactly those parts,
      dropping exactly those runs. */
  lemma {:induction false} SentenceCutUnique(s: string, parts: seq<string>, gaps: seq<string>)
    requires SentenceCut(parts, gaps) && Weave(parts, gaps) == s
    ensures SentenceParts(s) == parts && SentenceGaps(s) == gaps
    decreases |gaps|
  {
    if gaps == [] {
      NoBreakFirst(s);
    } else {
      var p, g := parts[0], gaps[0];
      var rest := Weave(parts[1..], gaps[1..]);
      SentenceCutHead(parts, gaps);
      WeaveStart(parts[1..], gaps[1..]);
      assert parts == [p] + parts[1..] && gaps == [g] + gaps[1..];
      WeaveCons(p, g, parts[1..], gaps[1..]);
      BreakLocate(p, g, rest);
      SentenceCutUnique(rest, parts[1..], gaps[1..]);
    }
  }

  /** Only a separator after a terminal mark cuts: the space inside "y z"
      stays. */
  lemma InnerSpaceKept(s: string)
    requires s == "x. y z"
    ensures SentenceParts(s) == ["x.", "y z"]
  {
    var parts, gaps := ["x.", "y z"], [" "];
    assert NoBreak(parts[0]) && NoBreak(parts[1]);
    assert Weave(parts, gaps) == s;
    SentenceCutUnique(s, parts, gaps);
  }

  /** The number of positions in [lo, hi) where the separator can begin. */
  function BreaksIn(s: string, lo: nat, hi: nat): nat
    requires lo <= hi <= |s|
    decreases hi - lo
  {
    if hi == lo then 0
    else BreaksIn(s, lo, hi - 1) + (if BreakAt(s, hi - 1) then 1 else 0)
  }

  lemma {:induction false} BreaksSplit(s: string, lo: nat, mid: nat, hi: nat)
    requires lo <= mid <= hi <= |s|
    ensures BreaksIn(s, lo, hi) == BreaksIn(s, lo, mid) + BreaksIn(s, mid, hi)
    decreases hi - mid
  {
    if hi > mid {
      BreaksSplit(s, lo, mid, hi - 1);
    }
  }

  lemma {:induction false} NoBreaksIn(s: string, lo: nat, hi: nat)
    requires lo <= hi <= |s|
    requires forall i :: lo <= i < hi ==> !BreakAt(s, i)
    ensures BreaksIn(s, lo, hi) == 0
    decreases hi - lo
  {
    if hi > lo {
      NoBreaksIn(s, lo, hi - 1);
    }
  }

  /** Counting in a suffix that does not begin with a separator. */
  lemma {:induction false} BreaksShift(s: string, d: nat, m: nat)
    requires d + m <= |s|
    requires !BreakAt(s, d)
    ensures BreaksIn(s[d..], 0, m) == BreaksIn(s, d, d + m)
    decreases m
  {
    if m > 0 {
      BreaksShift(s, d, m - 1);
      assert BreakAt(s[d..], m - 1) == BreakAt(s, d + m - 1);
    }
  }

  /** re.split cuts at every separator and nowhere else: one part more than
      there are positions where '.', '!' or '?' is followed by whitespace. */
  lemma {:induction false} SentencePartsCount(s: string)
    ensures |SentenceParts(s)| == 1 + BreaksIn(s, 0, |s|)
    decreases |s|
  {
    var k := FirstBreak(s, 1);
    if k >= |s| {
      NoBreaksIn(s, 0, |s|);
    } else {
      var e := SpaceRunEnd(s, k);
      SentencePartsCount(s[e..]);
      BreaksShift(s, e, |s| - e);
      BreaksSplit(s, 0, k, |s|);
      BreaksSplit(s, k, k + 1, |s|);
      BreaksSplit(s, k + 1, e, |s|);
      NoBreaksIn(s, 0, k);
      NoBreaksIn(s, k + 1, e);
    }
  }

  /** The class [a-zA-Z0-9'-]. */
  predicate IsKeywordChar(c: char) { IsAsciiAlnum(c) || c == '\'' || c == '-' }

  /** \b holds at position q. */
  predicate AtBoundary(s: string, q: int)
    requires 0 <= q <= |s|
  {
    (q > 0 && IsWordChar(s[q - 1])) != (q < |s| && IsWordChar(s[q]))
  }

  /** The end of the run of [a-zA-Z0-9'-] that starts at i. */
  function KeywordRunEnd(s: string, i: nat): (e: nat)
    requires i <= |s|
    ensures i <= e <= |s|
    ensures forall j :: i <= j < e ==> IsKeywordChar(s[j])
    ensures e < |s| ==> !IsKeywordChar(s[e])
    decreases |s| - i
  {
    if i < |s| && IsKeywordChar(s[i]) then KeywordRunEnd(s, i + 1) else i
  }

  /** The regex engine's backtracking: the largest end in (p, q] at which \b
      holds, or p when there is none. */
  function BacktrackEnd(s: string, p: nat, q: nat): (r: nat)
    requires p <= q <= |s|
    ensures p <= r <= q
    ensures r > p ==> AtBoundary(s, r)
    ensures forall j :: r < j <= q && j > p ==> !AtBoundary(s, j)
    decreases q
  {
    if q <= p then p else if AtBoundary(s, q) then q else BacktrackEnd(s, p, q - 1)
  }

  /** A match can begin at p: \b there, then [a-zA-Z]. */
  predicate CanStartAt(s: string, p: nat)
    requires p < |s|
  {
    IsAsciiLetter(s[p]) && (p == 0 || !IsWordChar(s[p - 1]))
  }

  /** Where the attempt at p ends: the greedy run of [a-zA-Z0-9'-] cut back
      to the last \b, or p itself when no match starts at p. */
  function MatchEnd(s: string, p: nat): (q: nat)
    requires p < |s|
    ensures p <= q <= |s|
    ensures q > p ==> CanStartAt(s, p) && AtBoundary(s, q)
    ensures q > p ==> forall j :: p <= j < q ==> IsKeywordChar(s[j])
  {
    if CanStartAt(s, p) then BacktrackEnd(s, p, KeywordRunEnd(s, p + 1)) else p
  }

  predicate IsKeywordShaped(t: string) {
    t != [] && IsAsciiLetter(t[0]) && forall i :: 0 <= i < |t| ==> IsKeywordChar(t[i])
  }

  /** A match s[lo..hi]. */
  datatype Span = Span(lo: nat, hi: nat)

  /** The matches of the scan that starts at p, in order: each is what the
      attempt at its start finds. */
  function KeywordSpansFrom(s: string, p: nat): (spans: seq<Span>)
    requires p <= |s|
    ensures forall k :: 0 <= k < |spans| ==> p <= spans[k].lo < spans[k].hi <= |s|
    ensures forall k :: 0 <= k < |spans| ==> spans[k].hi == MatchEnd(s, spans[k].lo)
    decreases |s| - p
  {
    if p == |s| then []
    else
      var q := MatchEnd(s, p);
      if q > p then [Span(p, q)] + KeywordSpansFrom(s, q) else KeywordSpansFrom(s, p + 1)
  }

  /** Position j lies in none of the spans. */
  predicate Uncovered(spans: seq<Span>, j: nat) {
    forall k :: 0 <= k < |spans| ==> j < spans[k].lo || spans[k].hi <= j
  }

  lemma UncoveredTail(spans: seq<Span>, j: nat)
    requires spans != [] && Uncovered(spans, j)
    ensures Uncovered(spans[1..], j)
  {
    forall k | 0 <= k < |spans| - 1 ensures j < spans[1..][k].lo || spans[1..][k].hi <= j {
      assert spans[1..][k] == spans[k + 1];
    }
  }

  /** Every match begins where CanStartAt holds and ends where \b holds,
      and holds only characters of [a-zA-Z0-9'-]. */
  lemma KeywordSpansBounded(s: string, p: nat)
    requires p <= |s|
    ensures var spans := KeywordSpansFrom(s, p);
      forall k :: 0 <= k < |spans| ==>
        CanStartAt(s, spans[k].lo) && AtBoundary(s, spans[k].hi) && IsKeywordShaped(s[spans[k].lo..spans[k].hi])
  {
    var spans := KeywordSpansFrom(s, p);
    forall k | 0 <= k < |spans|
      ensures CanStartAt(s, spans[k].lo) && AtBoundary(s, spans[k].hi) && IsKeywordShaped(s[spans[k].lo..spans[k].hi])
    {
      var sp := spans[k];
      assert MatchEnd(s, sp.lo) == sp.hi;
      var t := s[sp.lo..sp.hi];
      assert forall i :: 0 <= i < |t| ==> t[i] == s[sp.lo + i];
    }
  }

  /** Matches do not overlap and come in text order: a later match begins
      no earlier than an earlier one ends. */
  /** One step of the scan where a match starts at `p`. */
  lemma SpansTake(s: string, p: nat)
    requires p < |s| && MatchEnd(s, p) > p
    ensures KeywordSpansFrom(s, p) == [Span(p, MatchEnd(s, p))] + KeywordSpansFrom(s, MatchEnd(s, p))
  {
  }

  /** One step of the scan where no match starts at `p`. */
  lemma SpansSkip(s: string, p: nat)
    requires p < |s| && MatchEnd(s, p) == p
    ensures KeywordSpansFrom(s, p) == KeywordSpansFrom(s, p + 1)
  {
  }

  /** Spans that follow one another without overlapping. */
  predicate SpansOrdered(spans: seq<Span>)
  {
    forall k, l :: 0 <= k < l < |spans| ==> spans[k].hi <= spans[l].lo
  }

  lemma SpansOrderedCons(x: Span, rest: seq<Span>)
    requires SpansOrdered(rest)
    requires forall k :: 0 <= k < |rest| ==> x.hi <= rest[k].lo
    ensures SpansOrdered([x] + rest)
  {
    var spans := [x] + rest;
    forall k, l | 0 <= k < l < |spans|
      ensures spans[k].hi <= spans[l].lo
    {
      assert spans[l] == rest[l - 1];
      if k > 0 {
        assert spans[k] == rest[k - 1];
      }
    }
  }

  /** The matches are reported left to right and never overlap. */
  lemma {:induction false} KeywordSpansOrdered(s: string, p: nat)
    requires p <= |s|
    ensures SpansOrdered(KeywordSpansFrom(s, p))
    decreases |s| - p
  {
    if p < |s| {
      var q := MatchEnd(s, p);
      if q > p {
        SpansTake(s, p);
        KeywordSpansOrdered(s, q);
        SpansOrderedCons(Span(p, q), KeywordSpansFrom(s, q));
      } else {
        SpansSkip(s, p);
        KeywordSpansOrdered(s, p + 1);
      }
    }
  }

  /** The scan misses no match: a position outside every match it reports
      starts none. */
  lemma {:induction false} KeywordSpansComplete(s: string, p: nat, j: nat)
    requires p <= j < |s|
    requires Uncovered(KeywordSpansFrom(s, p), j)
    ensures MatchEnd(s, j) == j
    decreases |s| - p
  {
    var q := MatchEnd(s, p);
    var spans := KeywordSpansFrom(s, p);
    if q > p {
      assert spans[0] == Span(p, q);
      UncoveredTail(spans, j);
      assert spans[1..] == KeywordSpansFrom(s, q);
      KeywordSpansComplete(s, q, j);
    } else if j > p {
      KeywordSpansComplete(s, p + 1, j);
    }
  }

  /** The text of each span. */
  function SpanTexts(s: string, spans: seq<Span>): (ts: seq<string>)
    requires forall k :: 0 <= k < |spans| ==> spans[k].lo <= spans[k].hi <= |s|
    ensures |ts| == |spans|
    ensures forall k :: 0 <= k < |spans| ==> ts[k] == s[spans[k].lo..spans[k].hi]
  {
    seq(|spans|, k requires 0 <= k < |spans| => s[spans[k].lo..spans[k].hi])
  }

  function KeywordTokensFrom(s: string, p: nat): (ts: seq<string>)
    requires p <= |s|
    ensures forall k :: 0 <= k < |ts| ==> IsKeywordShaped(ts[k])
  {
    KeywordSpansBounded(s, p);
    SpanTexts(s, KeywordSpansFrom(s, p))
  }

  /** re.findall(r"\b[a-zA-Z][a-zA-Z0-9'-]*\b", s). */
  function KeywordTokens(s: string): (ts: seq<string>)
    ensures forall k :: 0 <= k < |ts| ==> IsKeywordShaped(ts[k])
  {
    KeywordTokensFrom(s, 0)
  }

  /** The keywords are the texts of the matches, left to right without
      overlap; each match starts at a letter not preceded by a word
      character and ends at a word boundary, and no match starts at a
      position the matches leave uncovered. */
  lemma KeywordTokensSpec(s: string)
    ensures var spans := KeywordSpansFrom(s, 0);
      && KeywordTokens(s) == SpanTexts(s, spans)
      && SpansOrdered(spans)
      && (forall k :: 0 <= k < |spans| ==> CanStartAt(s, spans[k].lo) && AtBoundary(s, spans[k].hi))
      && (forall j :: 0 <= j < |s| && Uncovered(spans, j) ==> MatchEnd(s, j) == j)
  {
    KeywordSpansBounded(s, 0);
    KeywordSpansOrdered(s, 0);
    forall j | 0 <= j < |s| && Uncovered(KeywordSpansFrom(s, 0), j)
      ensures MatchEnd(s, j) == j
    {
      KeywordSpansComplete(s, 0, j);
    }
  }

  /** The trailing dashes are keyword characters, but \b does not hold after
      them, so the match backtracks to "abc". */
  lemma DashesBacktrack(s: string)
    requires s == "abc--"
    ensures KeywordTokens(s) == ["abc"]
  {
    assert KeywordRunEnd(s, 5) == 5;
    assert KeywordRunEnd(s, 3) == 5;
    assert KeywordRunEnd(s, 1) == 5;
    assert !AtBoundary(s, 5) && !AtBoundary(s, 4) && AtBoundary(s, 3);
    assert MatchEnd(s, 0) == 3;
    assert KeywordSpansFrom(s, 5) == [];
    assert KeywordSpansFrom(s, 3) == [] by {
      assert !CanStartAt(s, 3) && !CanStartAt(s, 4);
    }
    assert KeywordSpansFrom(s, 0) == [Span(0, 3)];
    assert s[0..3] == "abc";
  }

  /** A letter right after a digit is inside a word, so \b fails before it. */
  lemma NoStartInsideWord(s: string)
    requires s == "1ab"
    ensures KeywordTokens(s) == []
  {
    assert !CanStartAt(s, 0) && !CanStartAt(s, 1) && !CanStartAt(s, 2);
    assert KeywordSpansFrom(s, 3) == [];
    assert KeywordSpansFrom(s, 2) == [];
    assert KeywordSpansFrom(s, 1) == [];
  }

  /** "_" is a word character outside the keyword class: the match backtracks
      to the boundary after "-", and the attempt at "c" finds no boundary. */
  lemma UnderscoreStops(s: string)
    requires s == "ab-c_"
    ensures KeywordTokens(s) == ["ab-"]
  {
    assert !IsKeywordChar(s[4]);
    assert KeywordRunEnd(s, 4) == 4;
    assert KeywordRunEnd(s, 2) == 4;
    assert KeywordRunEnd(s, 1) == 4;
    assert !AtBoundary(s, 4) && AtBoundary(s, 3);
    assert MatchEnd(s, 0) == 3;
    assert CanStartAt(s, 3) && KeywordRunEnd(s, 4) == 4;
    assert MatchEnd(s, 3) == 3;
    assert KeywordSpansFrom(s, 5) == [];
    assert KeywordSpansFrom(s, 4) == [];
    assert KeywordSpansFrom(s, 3) == [];
    assert KeywordSpansFrom(s, 0) == [Span(0, 3)];
    assert s[0..3] == "ab-";
  }
}
