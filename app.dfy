/** The text helpers of backend/app.py: the extractive summary, the inlined
    copies of the statistics and keyword extraction, and the capture-quality
    fallback used when backend/suggestion.py cannot be imported. */
module App {
  import opened Strings
  import opened Tokens
  import TextAnalytics
  import Suggestion

  // ---------------------------------------------------------------------
  // Summary

  /** The parts that are not empty, in order. */
  function NonEmpty(parts: seq<string>): (r: seq<string>)
    ensures forall k :: 0 <= k < |r| ==> r[k] != [] && r[k] in parts
  {
    if parts == [] then []
    else
      var p := parts[|parts| - 1];
      NonEmpty(parts[..|parts| - 1]) + (if p != [] then [p] else [])
  }

  /** summarize: the first max_sentences sentence parts of the stripped text,
      joined by single spaces; Python slicing, so a negative count drops that
      many parts from the end. */
  function Summarize(text: string, maxSentences: int := 3): string {
    var parts := NonEmpty(SentenceParts(Strip(text)));
    Strip(Join(TakePrefix(parts, maxSentences), " "))
  }

  lemma {:induction false} NonEmptyKeeps(parts: seq<string>)
    requires forall k :: 0 <= k < |parts| ==> parts[k] != []
    ensures NonEmpty(parts) == parts
  {
    if parts != [] {
      var init := parts[..|parts| - 1];
      assert forall k :: 0 <= k < |init| ==> init[k] == parts[k];
      NonEmptyKeeps(init);
      assert parts == init + [parts[|parts| - 1]];
    }
  }

  /** Blank text summarises to the empty string, whatever the count. */
  lemma SummarizeBlank(text: string, maxSentences: int)
    requires Strip(text) == []
    ensures Summarize(text, maxSentences) == []
  {
    var none: seq<string> := [[]];
    assert SentenceParts([]) == none;
    assert none[..0] == [];
    assert NonEmpty(none) == [];
  }

  /** The first part of the splitter's output is where the stripped text
      begins: a prefix of it. */
  lemma FirstPartIsPrefix(s: string)
    ensures var p := SentenceParts(s)[0]; |p| <= |s| && p == s[..|p|]
  {
  }

  /** A text with something in it: the summary is the first max_sentences
      sentence parts joined by one space (no stripping needed, as each part is
      already stripped): at most max_sentences of them, or for a negative
      count all but that many from the end. */
  lemma SummarizeSpec(text: string, maxSentences: int)
    requires Strip(text) != []
    ensures var parts := SentenceParts(Strip(text));
      var kept := TakePrefix(parts, maxSentences);
      && Summarize(text, maxSentences) == Join(kept, " ")
      && |kept| == (if maxSentences >= 0 then Min(maxSentences, |parts|) else Max(|parts| + maxSentences, 0))
      && kept == parts[..|kept|]
      && (kept != [] ==> Summarize(text, maxSentences) != [])
  {
    var kept := TakePrefix(SentenceParts(Strip(text)), maxSentences);
    KeptShaped(text, maxSentences);
    SummarizeIsJoin(text, maxSentences, kept);
    if kept != [] {
      JoinEnds(kept, " ");
    }
  }

  /** Leading sentence parts of a stripped text are non-empty and stripped. */
  lemma PrefixShaped(s: string, kept: seq<string>)
    requires IsStripped(s) && s != []
    requires |kept| <= |SentenceParts(s)| && kept == SentenceParts(s)[..|kept|]
    ensures forall k :: 0 <= k < |kept| ==> kept[k] != [] && IsStripped(kept[k])
  {
    var parts := SentenceParts(s);
    SentencePartsShape(s);
    forall k | 0 <= k < |kept| ensures kept[k] != [] && IsStripped(kept[k]) {
      assert kept[k] == parts[k];
    }
  }

  /** The parts a summary keeps are non-empty and stripped. */
  lemma KeptShaped(text: string, maxSentences: int)
    requires Strip(text) != []
    ensures var kept := TakePrefix(SentenceParts(Strip(text)), maxSentences);
      forall k :: 0 <= k < |kept| ==> kept[k] != [] && IsStripped(kept[k])
  {
    StripSpec(text);
    PrefixShaped(Strip(text), TakePrefix(SentenceParts(Strip(text)), maxSentences));
  }

  lemma SummarizeIsJoin(text: string, maxSentences: int, kept: seq<string>)
    requires Strip(text) != []
    requires kept == TakePrefix(SentenceParts(Strip(text)), maxSentences)
    requires forall k :: 0 <= k < |kept| ==> kept[k] != [] && IsStripped(kept[k])
    ensures Summarize(text, maxSentences) == Join(kept, " ")
  {
    var s := Strip(text);
    StripSpec(text);
    SentencePartsShape(s);
    NonEmptyKeeps(SentenceParts(s));
    JoinStripped(kept, " ");
    StripSpec(Join(kept, " "));
  }

  /** summarize(text, 1) is the first sentence part: a non-empty, stripped
      prefix of the stripped text that is either all of it or ends with '.',
      '!' or '?' right before the whitespace the split dropped. */
  lemma SummarizeFirst(text: string)
    requires Strip(text) != []
    ensures var s := Strip(text);
      var first := Summarize(text, 1);
      && first == SentenceParts(s)[0]
      && first != [] && IsStripped(first)
      && first == s[..|first|]
      && NoBreak(first)
      && (first == s || (IsTerminal(first[|first| - 1]) && IsSpace(s[|first|])))
  {
    var s := Strip(text);
    StripSpec(text);
    SummarizeSpec(text, 1);
    SentencePartsShape(s);
    FirstPartIsPrefix(s);
    var parts := SentenceParts(s);
    assert TakePrefix(parts, 1) == [parts[0]];
    var k := FirstBreak(s, 1);
    if k < |s| {
      assert parts[0] == s[..k];
    }
  }

  /** The only separator of "The cat sat. It ran fast." is the space after
      the first full stop. */
  lemma CatSatBreak(text: string)
    requires text == "The cat sat. It ran fast."
    ensures FirstBreak(text, 1) == 12 && SpaceRunEnd(text, 12) == 13
  {
    assert FirstBreak(text, 12) == 12;
    assert FirstBreak(text, 10) == 12;
    assert FirstBreak(text, 8) == 12;
    assert FirstBreak(text, 6) == 12;
    assert FirstBreak(text, 4) == 12;
    assert FirstBreak(text, 2) == 12;
    assert !IsSpace(text[13]);
  }

  /** A sentence with its full stop at the very end is not split. */
  lemma ItRanUnsplit(rest: string)
    requires rest == "It ran fast."
    ensures SentenceParts(rest) == [rest]
  {
    assert FirstBreak(rest, 11) == 12;
    assert FirstBreak(rest, 9) == 12;
    assert FirstBreak(rest, 7) == 12;
    assert FirstBreak(rest, 5) == 12;
    assert FirstBreak(rest, 3) == 12;
    assert FirstBreak(rest, 1) == 12;
  }

  /** The splitter finds both sentences of "The cat sat. It ran fast.". */
  lemma CatSatParts(text: string)
    requires text == "The cat sat. It ran fast."
    ensures SentenceParts(text) == [text[..12], text[13..]]
    ensures text[..12] == "The cat sat." && text[13..] == "It ran fast."
  {
    CatSatBreak(text);
    var rest := text[13..];
    assert rest == "It ran fast.";
    ItRanUnsplit(rest);
    assert SentenceParts(text) == [text[..12]] + SentenceParts(rest);
  }

  /** Two sentences separated by one space count as two. */
  lemma TwoSentencesCounted(text: string)
    requires text == "The cat sat. It ran fast."
    ensures TextAnalytics.SentenceCount(text) == 2
  {
    assert IsStripped(text);
    StripSpec(text);
    CatSatParts(text);
    TextAnalytics.SentenceCountSpec(text);
  }

  /** A text of two sentences summarised to two or more keeps both, joined
      by one space. */
  lemma SummarizeTwo(text: string, n: int)
    requires Strip(text) != [] && |SentenceParts(Strip(text))| == 2 && n >= 2
    ensures var parts := SentenceParts(Strip(text));
      Summarize(text, n) == parts[0] + " " + parts[1]
  {
    var parts := SentenceParts(Strip(text));
    assert TakePrefix(parts, n) == parts;
    KeptShaped(text, n);
    SummarizeIsJoin(text, n, parts);
    assert parts[..1] == [parts[0]];
  }

  /** Cutting a text around one space and joining the halves with a space
      gives it back. */
  lemma RejoinAtSpace(text: string, i: nat)
    requires i < |text| && text[i] == ' '
    ensures text[..i] + " " + text[i + 1..] == text
  {
    assert text == text[..i] + [text[i]] + text[i + 1..];
  }

  /** The default summary of three sentences gives a two-sentence text back. */
  lemma TwoSentencesSummary(text: string)
    requires text == "The cat sat. It ran fast."
    ensures Summarize(text) == text
  {
    assert IsStripped(text);
    StripSpec(text);
    CatSatParts(text);
    SummarizeTwo(text, 3);
    RejoinAtSpace(text, 12);
  }

  /** A one-sentence summary stops at the first full stop. */
  lemma FirstOfTwoSentences(text: string)
    requires text == "The cat sat. It ran fast."
    ensures Summarize(text, 1) == "The cat sat."
  {
    assert IsStripped(text);
    StripSpec(text);
    CatSatParts(text);
    SummarizeFirst(text);
  }

  // ---------------------------------------------------------------------
  // Statistics

  /** analyze_text_stats as app.py writes it: the syllable counter inlined
      into a loop over the words. */
  method AnalyzeTextStats(text: string) returns (stats: TextAnalytics.TextStats)
    ensures stats == TextAnalytics.AnalyzeTextStats(text)
  {
    var words := WordTokens(text);
    var wordCount := |words|;
    var characterCount := |text|;
    var syllables := 0;
    for k := 0 to |words|
      invariant syllables == TextAnalytics.SumSyllables(words[..k])
    {
      var w := TextAnalytics.LowerLetters(words[k]);
      if w == [] {
        TextAnalytics.NoLetterWordStep(words, k);
        continue;
      }
      var count := 0;
      var prev := false;
      for i := 0 to |w|
        invariant count == TextAnalytics.VowelGroups(w[..i])
        invariant prev == (i > 0 && TextAnalytics.IsVowel(w[i - 1]))
      {
        TextAnalytics.VowelStep(w, i);
        var isVowel := TextAnalytics.IsVowel(w[i]);
        if isVowel && !prev {
          count := count + 1;
        }
        prev := isVowel;
      }
      if w[|w| - 1] == 'e' && count > 1 {
        count := count - 1;
      }
      TextAnalytics.WordStep(words, k, count);
      syllables := syllables + Max(count, 1);
    }
    assert words[..|words|] == words;
    if syllables == 0 {
      syllables := 1;
    }
    // the sentence count does not depend on the loop; it is taken here
    var sentenceCount := Max(TextAnalytics.CountNonBlank(SentenceParts(Strip(text))), 1);
    stats := TextAnalytics.TextStats(wordCount, characterCount, sentenceCount, TextAnalytics.Grade(wordCount, sentenceCount, syllables));
  }

  // ---------------------------------------------------------------------
  // Keywords

  /** The stop set app.py spells out inline. */
  const Stop: set<string> := {
    "the", "a", "an", "and", "or", "but", "if", "then", "else", "for", "to", "of",
    "in", "on", "at", "with", "as", "by", "from", "up", "down", "out", "over", "under",
    "is", "are", "was", "were", "be", "been", "being", "it", "this", "that", "these", "those",
    "we", "you", "he", "she", "they", "them", "his", "her", "their", "our", "your", "i",
    "me", "my", "mine", "ours", "yours", "so", "not", "no", "yes", "do", "does", "did",
    "can", "could", "would", "should", "will", "just", "than", "too", "very", "into", "about"
  }

  /** The two stop sets are the same set. */
  lemma StopSetsAgree()
    ensures Stop == TextAnalytics.StopWords
  {
  }

  /** extract_keywords as app.py writes it: a dict filled in a loop (its key
      order is insertion order), then a stable sort by count, then [:top_k].
      For top_k >= 0 it agrees with the Counter version; a negative top_k
      drops that many keywords from the end. */
  method ExtractKeywords(text: string, topK: int := 10) returns (keywords: seq<string>)
    ensures keywords == TakePrefix(TextAnalytics.RankedCandidates(TextAnalytics.Candidates(text, Stop)), topK)
    ensures topK >= 0 ==> keywords == TextAnalytics.ExtractKeywords(text, topK)
  {
    var tokens := TextAnalytics.Candidates(text, Stop);
    var order, counts := CountTokens(tokens);
    keywords := TakePrefix(TextAnalytics.Rank(order, counts), topK);
    KeywordVersionsAgree(text, topK);
  }

  /** The counting loop of extract_keywords: counts[t] = counts.get(t, 0) + 1
      for each token, with the dict's keys kept in insertion order. */
  method CountTokens(tokens: seq<string>) returns (order: seq<string>, counts: map<string, nat>)
    ensures order == TextAnalytics.Distinct(tokens)
    ensures counts == TextAnalytics.Counter(tokens)
  {
    counts := map[];
    order := [];
    TallyStart(tokens);
    for i := 0 to |tokens|
      invariant Tallied(tokens, i, order, counts)
    {
      var t := tokens[i];
      CountStep(tokens, i, order, counts);
      // a new key joins the end of the dict's key order
      if t !in counts {
        order := order + [t];
      }
      counts := counts[t := TextAnalytics.Get(counts, t) + 1];
    }
    TallyDone(tokens, order, counts);
  }

  /** The counts dict after counting xs one token at a time. */
  function Tally(xs: seq<string>): map<string, nat> {
    if xs == [] then map[]
    else
      var counts := Tally(xs[..|xs| - 1]);
      var t := xs[|xs| - 1];
      counts[t := TextAnalytics.Get(counts, t) + 1]
  }

  /** Counting one token at a time gives each token's number of occurrences:
      the dict ends equal to Counter(xs). */
  lemma {:induction false} TallyIsCounter(xs: seq<string>)
    ensures Tally(xs) == TextAnalytics.Counter(xs)
  {
    if xs != [] {
      var init, t := xs[..|xs| - 1], xs[|xs| - 1];
      TallyIsCounter(init);
      assert xs == init + [t];
      TextAnalytics.CounterSnoc(init, t);
    }
  }

  /** The dict after the first i tokens: its key order and its counts. */
  predicate Tallied(tokens: seq<string>, i: nat, order: seq<string>, counts: map<string, nat>)
    requires i <= |tokens|
  {
    order == TextAnalytics.Distinct(tokens[..i]) && counts == Tally(tokens[..i])
  }

  /** One turn of the counting loop: the dict gains the token at the end of
      its key order when it is new, and its count goes up by one. */
  lemma CountStep(tokens: seq<string>, i: nat, order: seq<string>, counts: map<string, nat>)
    requires i < |tokens| && Tallied(tokens, i, order, counts)
    ensures var t := tokens[i];
      Tallied(tokens, i + 1, if t !in counts then order + [t] else order, counts[t := TextAnalytics.Get(counts, t) + 1])
  {
    var seen, t := tokens[..i], tokens[i];
    assert tokens[..i + 1][..i] == seen;
    TallyIsCounter(seen);
    assert t in counts <==> t in seen;
    assert tokens[..i + 1] == seen + [t];
    TextAnalytics.DistinctSnoc(seen, t);
  }

  lemma TallyStart(tokens: seq<string>)
    ensures Tallied(tokens, 0, [], map[])
  {
    assert tokens[..0] == [];
  }

  lemma TallyDone(tokens: seq<string>, order: seq<string>, counts: map<string, nat>)
    requires Tallied(tokens, |tokens|, order, counts)
    ensures order == TextAnalytics.Distinct(tokens) && counts == TextAnalytics.Counter(tokens)
  {
    assert tokens[..|tokens|] == tokens;
    TallyIsCounter(tokens);
  }

  /** For top_k >= 0 the dict-and-sorted copy and the Counter copy agree;
      they differ only for negative top_k, where most_common gives nothing. */
  lemma KeywordVersionsAgree(text: string, topK: int)
    ensures topK >= 0 ==>
      TakePrefix(TextAnalytics.RankedCandidates(TextAnalytics.Candidates(text, Stop)), topK)
      == TextAnalytics.ExtractKeywords(text, topK)
  {
    StopSetsAgree();
  }

  // ---------------------------------------------------------------------
  // Capture quality

  const BlurryTip: string := "Hold steady, image is blurry."
  const DarkTip: string := "Low light detected."
  const GlareTip: string := "Too bright, reduce glare."

  /** The fallback analyze_quality: sharp means a blur score above 120, well
      lit means brightness strictly between 60 and 220. */
  method AnalyzeQuality(blur: real, bright: real) returns (ok: bool, tips: seq<string>, score: real)
    ensures ok <==> blur > 120.0 && 60.0 < bright < 220.0
    ensures ok <==> tips == []
    ensures BlurryTip in tips <==> blur <= 120.0
    ensures DarkTip in tips <==> bright <= 60.0
    ensures GlareTip in tips <==> bright >= 220.0
    ensures Suggestion.InCanonicalOrder(tips, [BlurryTip, DarkTip, GlareTip])
    ensures |tips| <= 2
    ensures score == blur
  {
    ok := blur > 120.0 && 60.0 < bright < 220.0;
    tips := [];
    if blur <= 120.0 {
      tips := tips + [BlurryTip];
    }
    if bright <= 60.0 {
      tips := tips + [DarkTip];
    }
    if bright >= 220.0 {
      tips := tips + [GlareTip];
    }
    score := blur;
  }
}
