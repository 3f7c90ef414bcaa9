# OCR text reconstruction and analytics, modelled in Dafny

This project models the algorithmic core of a Flask back end that reads
documents through a camera (`backend/ocr_utils.py`, `backend/app.py`,
`backend/suggestion.py`) and proves properties of that model:

- **Capture-quality gate.** `analyze_quality` decides from a blur score and a
  mean brightness whether a frame is usable, and says why not. Both the
  `suggestion.py` version (thresholds 80 / 50 / 230) and the fallback that
  `app.py` defines when that import fails (120 / 60 / 220) are modelled. The
  blur score and the brightness come from OpenCV, so they are inputs here.
- **Line reconstruction.** The loop of `ocr_with_confidence` runs after the
  engine call. It drops blank and low-confidence words and groups the rest
  into lines by their line number. It then hands the lines to
  `clean_ocr_text`, which collapses whitespace, strips each line, drops lines
  with fewer than three ASCII alphanumerics and joins the rest with newlines.
  The engine's word table (texts, confidence entries, line numbers) is the
  input.
- **Text analytics.** This covers the vowel-group syllable counter
  `count_syllables`, `analyze_text_stats` (word, character and sentence
  counts plus a Flesch-Kincaid grade) and `extract_keywords`
  (`Counter.most_common` over the filtered tokens). Each exists twice: once
  in `ocr_utils.py`, and once copied inline into `app.py`, where the syllable
  counter becomes a nested loop and `Counter` becomes a dict filled in a loop
  and then stably sorted.
- **Extractive summary.** `summarize` takes the first `max_sentences`
  sentence parts and joins them.

## Files

| file | module | models |
|---|---|---|
| `strings.dfy` | `Strings` | `str.isspace`, `strip`/`lstrip`/`rstrip`, `re.sub(r"\s+", " ", …)`, `sep.join`, `xs[:n]`, and a splitter on one character that the source never calls: it exists to state that `"\n".join` loses nothing |
| `tokens.dfy` | `Tokens` | the three regular expressions: `\b\w+\b`, the sentence separator `(?<=[.!?])\s+`, and `\b[a-zA-Z][a-zA-Z0-9'-]*\b` with the regex engine's backtracking to a word boundary |
| `line_reconstruction.dfy` | `LineReconstruction` | `clean_ocr_text` and the loop of `ocr_with_confidence` |
| `text_analytics.dfy` | `TextAnalytics` | `STOP_WORDS`, `count_syllables`, `analyze_text_stats`, `extract_keywords` of `ocr_utils.py` |
| `suggestion.dfy` | `Suggestion` | `analyze_quality` of `suggestion.py` |
| `app.dfy` | `App` | `summarize`, the inlined `analyze_text_stats` and `extract_keywords`, and the fallback `analyze_quality` of `app.py` |

## How it is modelled

The loops in the source are Dafny methods with loop invariants:
`count_syllables`, `clean_ocr_text`, the word loop of `ocr_with_confidence`,
the nested loops of `app.py`'s `analyze_text_stats` and the dict-filling loop
of `app.py`'s `extract_keywords`. Each of these methods is proved equal to a
specification function. The properties the code promises are then proved
about those functions as lemmas.

Both `analyze_quality` versions have no loop. They build their list of
messages step by step, so they are methods too, and their `ensures` state
the verdict and the messages directly.

The defaults of the source are the defaults of the model: `min_conf=55`
(`backend/ocr_utils.py:28`), `top_k=10` (`backend/ocr_utils.py:93` and
`backend/app.py:94`) and `max_sentences=3` (`backend/app.py:57`).

The three regular expressions are modelled as scanners over the string:

- `\b\w+\b` finds the maximal runs of word characters, one match per run
  start (`Tokens.WordTokensCount`).
- The sentence separator cuts the text at each whitespace run that follows
  `.`, `!` or `?`, giving one more part than there are such runs
  (`Tokens.SentencePartsCount`).
- The keyword pattern is tried at each position from left to right. A match
  starts at a letter with no word character before it and takes the
  greedy run of `[a-zA-Z0-9'-]`, cut back to the last word boundary
  (`Tokens.KeywordTokensSpec`). So `abc--` gives `abc`, `1ab` gives nothing
  and `ab-c_` gives `ab-`.

- `ocr_utils.py` writes `analyze_text_stats` and `extract_keywords` as
  comprehensions and library calls, so they are functions here.
- `summarize` is a single expression, so it is a function too.
- The `app.py` copies are proved to compute exactly what the `ocr_utils.py`
  versions compute. The one exception is a negative `top_k`, where the two
  differ, as the source does.

Python's text semantics are modelled over characters:

- Whitespace is the set `str.isspace` accepts.
- `\w` and `[a-z]` are their ASCII classes.
- `str.lower()` is ASCII lowercasing.

The readability grade is computed over exact reals, with Python's
round-half-to-even written out.

## Model

| member | source | states |
|---|---|---|
| Strings.IsSpace | backend/ocr_utils.py:19 | the characters `str.isspace` and the regex class `\s` accept |
| Strings.IsWordChar | backend/ocr_utils.py:78 | the ASCII reading of the regex class `\w`: letters, digits and `_` |
| Strings.AlnumCount | backend/ocr_utils.py:22 | the number of matches of `[A-Za-z0-9]`, that is the ASCII letters and digits of the line |
| Strings.LStripSpec | backend/ocr_utils.py:19 | `lstrip` removes exactly a prefix of whitespace and stops at a non-whitespace character |
| Strings.RStripSpec | backend/ocr_utils.py:19 | `rstrip` removes exactly a suffix of whitespace and stops at a non-whitespace character |
| Strings.LStripNonSpace | backend/ocr_utils.py:19 | `lstrip` keeps every non-whitespace character, in order |
| Strings.RStripNonSpace | backend/ocr_utils.py:19 | `rstrip` keeps every non-whitespace character, in order |
| Strings.StripNonSpace | backend/ocr_utils.py:19 | `strip` keeps every non-whitespace character, in order |
| Strings.StripSpec | backend/ocr_utils.py:19 | `strip` leaves no whitespace at either end, removes only whitespace, and changes nothing in an already stripped string |
| Strings.NonSpaceAppend | backend/ocr_utils.py:19 | the non-whitespace characters of a concatenation are those of each part |
| Strings.NonSpaceOfSpaces | backend/ocr_utils.py:19 | a string made of whitespace has no non-whitespace characters |
| Strings.SingleSpacedInfix | backend/ocr_utils.py:19 | any slice of a string without two adjacent whitespace characters has none either |
| Strings.StripSingleSpaced | backend/ocr_utils.py:19 | stripping keeps a string free of adjacent whitespace |
| Strings.Strip | backend/ocr_utils.py:19 | `str.strip()`: `rstrip` after `lstrip`; its properties are stated by `StripSpec` and `StripNonSpace` |
| Strings.CollapseAppend | backend/ocr_utils.py:19 | the collapse works piece by piece across a cut made right after a non-whitespace character |
| Strings.CollapseHead | backend/ocr_utils.py:19 | the collapse emits for the first character a space if it ends a whitespace run, nothing if the run goes on, and the character itself otherwise |
| Strings.CollapseRun | backend/ocr_utils.py:19 | a whole whitespace run before a non-whitespace character becomes exactly one space |
| Strings.CollapseGap | backend/ocr_utils.py:19 | a whitespace run between two non-whitespace characters becomes exactly one space and the text on either side is collapsed on its own |
| Strings.CollapseSpaces | backend/ocr_utils.py:19 | `re.sub(r"\s+", " ", line)` leaves no two adjacent whitespace characters, keeps every other character in order, and begins with a space exactly when the line began with whitespace |
| Strings.CollapseWithoutSpaces | backend/ocr_utils.py:19 | a line without whitespace is unchanged by the collapse |
| Strings.Join | backend/ocr_utils.py:25 | `sep.join(parts)`: the parts with the separator between each two; its properties are stated by `JoinEnds`, `JoinStripped` and `SplitJoin` |
| Strings.JoinEnds | backend/ocr_utils.py:25 | joining non-empty parts gives a string that begins with the first part's first character and ends with the last part's last character |
| Strings.JoinStripped | backend/ocr_utils.py:25 | joining non-empty stripped parts gives a stripped string, so the final `.strip()` changes nothing |
| Strings.ExtendAppend | backend/ocr_utils.py:25 | for the splitter that states the round trip of `"\n".join`: one more character only affects the last piece |
| Strings.SplitOnNoSep | backend/ocr_utils.py:25 | for the same splitter: a string without the separator gives the string alone |
| Strings.SplitOnAppend | backend/ocr_utils.py:25 | for the same splitter: `a + sep + b` gives the pieces of `a` followed by those of `b` |
| Strings.SplitJoin | backend/ocr_utils.py:25 | `"\n".join` is undone by splitting on newlines when no part contains a newline |
| Strings.TakePrefix | backend/app.py:59 | Python's `xs[:n]` is a prefix of `xs`, of length `min(n, len)` for `n >= 0` and `max(len + n, 0)` for negative `n` |
| Strings.Lower | backend/ocr_utils.py:94 | `str.lower()` keeps the length and lowercases each character |
| Strings.ToLower | backend/ocr_utils.py:94 | a lowercased character is never an upper-case ASCII letter, is a letter exactly when the input is, and is unchanged unless the input was upper case |
| Tokens.WordRunLength | backend/ocr_utils.py:78 | the run of `\w` characters at the start of a string is maximal |
| Tokens.WordTokens | backend/ocr_utils.py:78 | every match of `\b\w+\b` is a non-empty run of word characters |
| Tokens.WordCharsAppend | backend/ocr_utils.py:78 | the word characters of a concatenation are those of each part |
| Tokens.WordCharsOfWord | backend/ocr_utils.py:78 | a run of word characters is its own word characters |
| Tokens.WordTokensCover | backend/ocr_utils.py:78 | the words found, concatenated, are exactly the text's word characters: nothing dropped, reordered or invented |
| Tokens.WordWeave | backend/ocr_utils.py:78 | the words with the text around them put back, in order |
| Tokens.WordCut | backend/ocr_utils.py:78 | a cut of a text into its words and what lies around them: each word a non-empty run of word characters, the text around them free of word characters, and non-empty between two words |
| Tokens.WordGaps | backend/ocr_utils.py:78 | the text `findall` skips before, between and after the words, one piece more than there are words |
| Tokens.WordWeaveCons | backend/ocr_utils.py:78 | weaving one more gap and word in front puts them in front of the text |
| Tokens.WordWeavePrepend | backend/ocr_utils.py:78 | one more character in the first gap puts it in front of the text |
| Tokens.WordCutPrepend | backend/ocr_utils.py:78 | a non-word character added to the first gap keeps the cut valid |
| Tokens.WordCutFirstGap | backend/ocr_utils.py:78 | a text that does not begin with a word character has a non-empty first gap before its first word |
| Tokens.WordCutCons | backend/ocr_utils.py:78 | a word put in front of a cut whose first gap is non-empty keeps the cut valid |
| Tokens.WordTokensWeave | backend/ocr_utils.py:78 | the words found and the text `findall` skips weave back into the text, and they form a valid cut |
| Tokens.SkipNonWords | backend/ocr_utils.py:78 | text without word characters in front adds no word |
| Tokens.WordRunLengthOf | backend/ocr_utils.py:78 | the run of word characters at the start of `w + rest` is `w` when `rest` does not go on with a word character |
| Tokens.TakeWord | backend/ocr_utils.py:78 | such a `w` is the first word, and the words of `rest` follow |
| Tokens.WordWeaveStart | backend/ocr_utils.py:78 | a woven text whose first gap is non-empty or alone does not begin with a word character |
| Tokens.WordCutHead | backend/ocr_utils.py:78 | the first gap and word of a cut, and the cut that remains |
| Tokens.WordCutUnique | backend/ocr_utils.py:78 | the cut is unique: any text cut into words and gaps as `WordCut` says yields exactly those words, so each word found is a whole maximal run at its place in the text |
| Tokens.TwoWords | backend/ocr_utils.py:78 | "ab cd" gives the words "ab" and "cd" |
| Tokens.WordStartsSplit | backend/ocr_utils.py:78 | the number of word starts in a range is the sum over its two halves |
| Tokens.WordStartsShift | backend/ocr_utils.py:78 | cutting the text at a position that is not inside a word keeps the word starts after the cut |
| Tokens.NoStartsInRun | backend/ocr_utils.py:78 | inside a run of word characters no word starts after its first character |
| Tokens.WordTokensCount | backend/ocr_utils.py:78 | `\b\w+\b` finds exactly one match per word start: a word character at the start of the text or after a non-word character |
| Tokens.BreakAt | backend/ocr_utils.py:79 | the separator `(?<=[.!?])\s+` can begin at a position: a whitespace character right after `.`, `!` or `?` |
| Tokens.FirstBreak | backend/ocr_utils.py:79 | the first position where the separator `(?<=[.!?])\s+` can begin, with none before it |
| Tokens.SpaceRunEnd | backend/ocr_utils.py:79 | the separator consumes the maximal whitespace run |
| Tokens.SentenceParts | backend/ocr_utils.py:79 | `re.split` always returns at least one part |
| Tokens.Weave | backend/ocr_utils.py:79 | the sentence parts with the separator runs put back between them |
| Tokens.SentenceCut | backend/ocr_utils.py:79 | a cut `re.split` would make: each separator a non-empty whitespace run right after a terminal mark and before a non-whitespace character or the end, and no separator inside a part |
| Tokens.SentenceGaps | backend/ocr_utils.py:79 | the separator runs `re.split` drops, one fewer than the parts |
| Tokens.SentenceCutCons | backend/ocr_utils.py:79 | a part ending with a terminal mark and a whitespace run, put in front of a valid cut, keep it valid |
| Tokens.SentenceCutHead | backend/ocr_utils.py:79 | the first part and separator of a cut, and the cut that remains |
| Tokens.WeaveCons | backend/ocr_utils.py:79 | weaving one more part and separator in front puts them in front of the text |
| Tokens.WeaveStart | backend/ocr_utils.py:79 | a woven text begins with its first part when that is not empty |
| Tokens.FirstPartPrefix | backend/ocr_utils.py:79 | the first part is a prefix of the text |
| Tokens.FirstPartStart | backend/ocr_utils.py:79 | a text that does not begin with whitespace has a first part that does not either |
| Tokens.SentenceStep | backend/ocr_utils.py:79 | one cut: the head before the first separator holds no separator and ends with a terminal mark, then the whole whitespace run is dropped and the rest is split again |
| Tokens.SliceThree | backend/ocr_utils.py:79 | a text is the concatenation of its three slices around two positions |
| Tokens.SentencePartsWeave | backend/ocr_utils.py:79 | the parts and the dropped separators weave back into the text, and they form a valid cut |
| Tokens.NoBreakFirst | backend/ocr_utils.py:79 | a text with no separator is not cut |
| Tokens.SpaceRunEndAt | backend/ocr_utils.py:79 | the separator ends exactly where the whitespace run ends |
| Tokens.BreakLocate | backend/ocr_utils.py:79 | `p + g + rest` with `p` free of separators and ending with a terminal mark, `g` whitespace and `rest` not beginning with whitespace is cut right after `p`, dropping exactly `g` |
| Tokens.SentenceCutUnique | backend/ocr_utils.py:79 | the cut is unique: any text cut into parts and separators as `SentenceCut` says is split into exactly those parts, dropping exactly those separators |
| Tokens.InnerSpaceKept | backend/ocr_utils.py:79 | "x. y z" gives "x." and "y z": only whitespace after a terminal mark cuts |
| Tokens.BreaksSplit | backend/ocr_utils.py:79 | the number of separator positions in a range is the sum over its two halves |
| Tokens.NoBreaksIn | backend/ocr_utils.py:79 | a range where no separator can begin holds none |
| Tokens.BreaksShift | backend/ocr_utils.py:79 | cutting the text where no separator begins keeps the separators after the cut |
| Tokens.SentencePartsCount | backend/ocr_utils.py:79 | `re.split` gives one part more than there are separators, a separator being a whitespace run right after `.`, `!` or `?` |
| Tokens.PartsShapedCons | backend/ocr_utils.py:79 | a first sentence part that is well shaped, followed by well-shaped parts, gives well-shaped parts |
| Tokens.FirstPartShape | backend/ocr_utils.py:79 | at the first separator of a stripped text, the head is non-empty, stripped, free of separators and ends with `.`, `!` or `?`, and the rest is non-empty and stripped |
| Tokens.SentencePartsShape | backend/ocr_utils.py:79 | the sentence parts of a non-empty stripped text are non-empty, stripped and free of separators, and all but the last end with a terminal mark |
| Tokens.NonSpaceSkipsGap | backend/ocr_utils.py:79 | cutting out a whitespace run loses no other character |
| Tokens.SentencePartsKeepText | backend/ocr_utils.py:79 | splitting into sentences loses nothing but whitespace |
| Tokens.CanStartAt | backend/ocr_utils.py:94 | a keyword match can begin at a position: an ASCII letter at the start of the text or after a non-word character, where `\b` holds |
| Tokens.AtBoundary | backend/ocr_utils.py:94 | `\b` holds at a position: exactly one of the characters on either side is a word character |
| Tokens.KeywordRunEnd | backend/ocr_utils.py:94 | `[a-zA-Z0-9'-]*` consumes a run of keyword characters and stops only at the end of the text or at a character outside the class |
| Tokens.BacktrackEnd | backend/ocr_utils.py:94 | the regex engine backtracks to the longest match ending at a word boundary, or finds none |
| Tokens.MatchEnd | backend/ocr_utils.py:94 | a match attempted at a position succeeds only where a letter follows a non-word character or the start, ends at a word boundary, and holds only `[a-zA-Z0-9'-]` |
| Tokens.KeywordSpansFrom | backend/ocr_utils.py:94 | `findall` resumes after each match and one position on after each failed attempt: every match lies at or after the scan's start and ends where the attempt at its start ends |
| Tokens.KeywordSpansBounded | backend/ocr_utils.py:94 | every match starts where a match can start, ends at a word boundary and is keyword-shaped |
| Tokens.SpansOrderedCons | backend/ocr_utils.py:94 | a match ending before all the later ones, followed by ordered matches, gives ordered matches |
| Tokens.KeywordSpansOrdered | backend/ocr_utils.py:94 | the matches are found left to right and do not overlap |
| Tokens.UncoveredTail | backend/ocr_utils.py:94 | a position outside all matches is outside all but the first too |
| Tokens.KeywordSpansComplete | backend/ocr_utils.py:94 | no match is missed: an attempt at any position outside the matches found fails |
| Tokens.SpanTexts | backend/ocr_utils.py:94 | one text per match, the slice of the input the match covers |
| Tokens.KeywordTokensFrom | backend/ocr_utils.py:94 | every keyword match starts with an ASCII letter and holds only `[a-zA-Z0-9'-]` |
| Tokens.KeywordTokens | backend/ocr_utils.py:94 | `re.findall` of the keyword pattern over the whole text gives keyword-shaped tokens |
| Tokens.KeywordTokensSpec | backend/ocr_utils.py:94 | the keywords are the texts of the matches, ordered and non-overlapping, each starting where a match can start and ending at a word boundary, with no match missed |
| Tokens.DashesBacktrack | backend/ocr_utils.py:94 | `abc--` gives `abc`: the greedy run takes the dashes, and the engine backtracks to the word boundary after `c` |
| Tokens.NoStartInsideWord | backend/ocr_utils.py:94 | `1ab` gives nothing: no word boundary lies before `a` |
| Tokens.UnderscoreStops | backend/ocr_utils.py:94 | `ab-c_` gives `ab-`: the run stops at `_`, no boundary lies before it, and the engine backtracks to the boundary after the dash |
| LineReconstruction.ConfidenceAt | backend/ocr_utils.py:42-45 | the parsed confidence of a word, or -1 when the entry is missing or does not parse; `UnknownConfidenceDropped` states its effect |
| LineReconstruction.LineAt | backend/ocr_utils.py:48 | the word's line number, or None past the end of the line-number list |
| LineReconstruction.Continues | backend/ocr_utils.py:49 | a word continues the current line when the last line number is None or equal to its own; `MissingLineNumberJoinsNext` states the None case |
| LineReconstruction.Retains | backend/ocr_utils.py:40-47 | the gate: a word passes when its stripped text is non-empty and its confidence is at least `min_conf`; `SkipStep` and `KeepStep` state its effect |
| LineReconstruction.Retained | backend/ocr_utils.py:39-50 | the words that pass the gate, stripped, with their line numbers, in emission order; `RetainedWordsClean` states their shape |
| LineReconstruction.Runs | backend/ocr_utils.py:48-54 | grouping by line number yields no empty line, no line for no words, and gives back the words in emission order when flattened |
| LineReconstruction.Texts | backend/ocr_utils.py:50-53 | a line's word texts, one per word, in order |
| LineReconstruction.LineText | backend/ocr_utils.py:52-56 | `" ".join(current_line)`: a line's word texts joined by single spaces |
| LineReconstruction.RunLines | backend/ocr_utils.py:52-56 | one output line per group |
| LineReconstruction.ReconstructLines | backend/ocr_utils.py:35-56 | the loop's lines are the groups of the retained words, each joined with single spaces |
| LineReconstruction.SkipStep | backend/ocr_utils.py:40-47 | a blank or low-confidence word changes nothing |
| LineReconstruction.KeepStep | backend/ocr_utils.py:40-50 | a word that passes the gate is retained stripped, with its line number or None |
| LineReconstruction.AcceptStep | backend/ocr_utils.py:49-54 | a retained word extends the current line when the last line number is None or equal to its own, and otherwise flushes the line and starts a new one |
| LineReconstruction.FinalFlush | backend/ocr_utils.py:55-56 | flushing a non-empty accumulator after the loop completes the lines |
| LineReconstruction.NormalizeLine | backend/ocr_utils.py:19 | `re.sub(r"\s+", " ", line).strip()`; `NormalizeLineSpec` states its properties |
| LineReconstruction.KeepsLine | backend/ocr_utils.py:20-23 | a line survives when its normal form is non-empty and holds at least three ASCII letters or digits |
| LineReconstruction.Survivor | backend/ocr_utils.py:20-24 | what one input line adds to `cleaned_lines`: its normal form if it survives, otherwise nothing |
| LineReconstruction.NormalizeLineSpec | backend/ocr_utils.py:19 | a normalised line is stripped, has no adjacent whitespace and no newline, and keeps every non-whitespace character |
| LineReconstruction.CleanedLines | backend/ocr_utils.py:16-24 | the lines `clean_ocr_text` keeps, normalised, in input order; `CleanedLinesAreClean` and `CleanedLinesAppend` state their properties |
| LineReconstruction.CleanedLinesAreClean | backend/ocr_utils.py:18-24 | every kept line is non-empty, stripped, single-spaced, newline-free and has at least three ASCII alphanumerics |
| LineReconstruction.CleanedLinesSnoc | backend/ocr_utils.py:18-24 | one more input line adds its survivor, if any, at the end |
| LineReconstruction.CleanedLinesAppend | backend/ocr_utils.py:18-24 | cleaning works line by line: cleaning a concatenation cleans each part |
| LineReconstruction.CleanOcrText | backend/ocr_utils.py:16-25 | `clean_ocr_text` returns the surviving lines joined by newlines; the final `.strip()` changes nothing |
| LineReconstruction.OcrText | backend/ocr_utils.py:28-57 | the text `ocr_with_confidence` returns: the cleaned, newline-joined lines of the grouped retained words; `OcrTextLines` and the `HelloBye` lemmas state its properties |
| LineReconstruction.OcrWithConfidence | backend/ocr_utils.py:28-57 | the result is the cleaned, newline-joined lines of the grouped retained words |
| LineReconstruction.MaximalExtend | backend/ocr_utils.py:49-50 | a word on the last group's line extends it and keeps the groups maximal |
| LineReconstruction.MaximalNewRun | backend/ocr_utils.py:51-53 | a word on another line starts a new group and keeps the groups maximal |
| LineReconstruction.RunsAreMaximal | backend/ocr_utils.py:48-54 | with every line number present, the groups are the maximal blocks of consecutive equal line numbers |
| LineReconstruction.RunsCount | backend/ocr_utils.py:49-56 | with every line number present, there is one line per change of line number, plus one |
| LineReconstruction.NoSorting | backend/ocr_utils.py:49-54 | line numbers 1, 2, 1 give three lines: lines are not sorted or merged by number |
| LineReconstruction.MissingLineNumberJoinsNext | backend/ocr_utils.py:48-54 | a word with no line number sets the last line number to None, so the next word joins its line whatever its own number |
| LineReconstruction.RetainedWordsClean | backend/ocr_utils.py:40-50 | every retained word is non-blank and stripped |
| LineReconstruction.UnknownConfidenceDropped | backend/ocr_utils.py:42-47 | a word whose confidence entry is missing or does not parse counts as -1, so with a threshold above -1 that word is dropped whatever its text and whatever the other entries |
| LineReconstruction.NothingRetainedGivesEmptyText | backend/ocr_utils.py:55-57 | when no word passes the gate the result is the empty string, not an error |
| LineReconstruction.OcrTextLines | backend/ocr_utils.py:25 | the result is empty exactly when no line survives, and otherwise splits on newlines back into the clean surviving lines |
| LineReconstruction.PlainWord | backend/ocr_utils.py:19-24 | a word without whitespace and with three ASCII alphanumerics passes cleaning unchanged |
| LineReconstruction.HelloByeExample | backend/ocr_utils.py:28-57 | "Hello" (confidence 90, line 0), "world" (10, line 0) and "Bye" (90, line 1) with threshold 55 give "Hello\nBye" |
| LineReconstruction.HelloByeRetained | backend/ocr_utils.py:40-50 | in that example the gate keeps "Hello" and "Bye" |
| LineReconstruction.HelloByeRuns | backend/ocr_utils.py:48-56 | in that example the two line numbers give two lines |
| LineReconstruction.HelloByeCleaned | backend/ocr_utils.py:18-24 | both lines of that example survive cleaning |
| LineReconstruction.HelloByeJoined | backend/ocr_utils.py:25 | the two lines are joined by one newline |
| LineReconstruction.SurvivorsKept | backend/ocr_utils.py:18-24 | two lines that each survive come out in input order |
| LineReconstruction.HelloByeSurvive | backend/ocr_utils.py:19-24 | "Hello" and "Bye" each survive cleaning unchanged |
| LineReconstruction.HelloSurvives | backend/ocr_utils.py:19-24 | "Hello" survives cleaning unchanged |
| LineReconstruction.ByeSurvives | backend/ocr_utils.py:19-24 | "Bye" has exactly three alphanumerics and survives |
| TextAnalytics.LowerLetters | backend/ocr_utils.py:61 | `re.sub(r"[^a-z]", "", word.lower())` keeps one lowercase letter per ASCII letter of the word |
| TextAnalytics.LowerLettersAppend | backend/ocr_utils.py:61 | the filter works character by character: filtering a concatenation filters each part |
| TextAnalytics.LowerLettersChar | backend/ocr_utils.py:61 | one character: an ASCII letter comes out lowercased, anything else is dropped |
| TextAnalytics.VowelGroups | backend/ocr_utils.py:64-71 | a word has no more vowel groups than characters |
| TextAnalytics.NoLettersCounted | backend/ocr_utils.py:61 | a word has no ASCII letters exactly when the letter count is zero |
| TextAnalytics.Syllables | backend/ocr_utils.py:60-74 | `count_syllables`: vowel groups of the lowercased letters, less a silent final `e`, at least 1 for a word with letters and 0 without; `SyllablesRange` and `SilentE` state its properties |
| TextAnalytics.SyllablesRange | backend/ocr_utils.py:60-74 | `count_syllables` is 0 exactly for words without ASCII letters, and never more than the number of letters |
| TextAnalytics.VowelGroupsZero | backend/ocr_utils.py:64-71 | there are no vowel groups exactly when there is no vowel |
| TextAnalytics.SilentE | backend/ocr_utils.py:72-74 | a final "e" with more than one group removes one group, and a word whose letters hold no vowel counts as one syllable |
| TextAnalytics.LettersOnlyLowered | backend/ocr_utils.py:61 | on a word of ASCII letters, the filter only lowercases |
| TextAnalytics.LowercaseKept | backend/ocr_utils.py:61 | a lowercase ASCII word passes the filter unchanged |
| TextAnalytics.TableSyllables | backend/ocr_utils.py:60-74 | "Table" has two vowel groups and a silent e, so it counts one syllable |
| TextAnalytics.TheSyllables | backend/ocr_utils.py:60-74 | "the" counts one syllable; the silent-e rule does not take it to zero |
| TextAnalytics.DigitsSyllables | backend/ocr_utils.py:61-63 | "42" counts zero syllables |
| TextAnalytics.VowelStep | backend/ocr_utils.py:67-71 | one more letter opens a group exactly when it is a vowel after a non-vowel |
| TextAnalytics.SyllablesFromGroups | backend/ocr_utils.py:72-74 | after the pass, the silent-e correction and the floor of 1 give the syllable count |
| TextAnalytics.CountSyllables | backend/ocr_utils.py:60-74 | the loop returns the specified syllable count |
| TextAnalytics.CountNonBlank | backend/ocr_utils.py:80 | at most as many non-blank parts as parts |
| TextAnalytics.SumSyllables | backend/ocr_utils.py:83 | `sum(count_syllables(w) for w in words)`; `SumSyllablesStep` states how it grows |
| TextAnalytics.SumSyllablesStep | backend/ocr_utils.py:83 | the syllable sum grows by each word's count |
| TextAnalytics.SyllableTotal | backend/ocr_utils.py:83 | `sum(...) or 1` is at least 1 and equals the sum when that is positive |
| TextAnalytics.NoLetterWordStep | backend/app.py:70-72 | a word without ASCII letters adds nothing to the total |
| TextAnalytics.WordStep | backend/app.py:69-83 | a word with letters adds its corrected vowel-group count, floored at 1 |
| TextAnalytics.RoundHalfEven | backend/ocr_utils.py:89 | `round` gives an integer within 0.5 of its argument, and the even one on a tie |
| TextAnalytics.RoundHalfEvenUnique | backend/ocr_utils.py:89 | only one integer meets those two conditions |
| TextAnalytics.SentenceCount | backend/ocr_utils.py:79-80 | the non-blank sentence parts of the stripped text, or 1 when there are none; `SentenceCountSpec` states it in terms of the parts |
| TextAnalytics.Readability | backend/ocr_utils.py:84 | the Flesch-Kincaid formula over exact reals |
| TextAnalytics.Grade | backend/ocr_utils.py:89 | `max(1, round(readability))` with round-half-to-even; `RoundHalfEven` states the rounding |
| TextAnalytics.AnalyzeTextStats | backend/ocr_utils.py:77-90 | the sentence count and the grade are at least 1, and the character count is the text length |
| TextAnalytics.CountNonBlankShaped | backend/ocr_utils.py:80 | when every part is non-empty and stripped, all of them count |
| TextAnalytics.SentenceCountSpec | backend/ocr_utils.py:79-80 | for non-blank text the sentence count is the number of sentence parts; for blank text it is 1 |
| TextAnalytics.NoWordsInBlank | backend/ocr_utils.py:78 | a blank text has no words |
| TextAnalytics.StripEmptyBlank | backend/ocr_utils.py:79 | a text that strips to nothing is all whitespace |
| TextAnalytics.BlankTextStats | backend/ocr_utils.py:77-90 | blank text gives 0 words, 1 sentence and grade 1 (the formula gives -3.79, clamped), with its own length as character count |
| TextAnalytics.StopWords | backend/ocr_utils.py:6-13 | `STOP_WORDS`, word for word |
| TextAnalytics.LowerAll | backend/ocr_utils.py:94 | each token is lowercased, one for one |
| TextAnalytics.Filtered | backend/ocr_utils.py:95 | every token kept is one of the input tokens, not a stop word and longer than two characters |
| TextAnalytics.FilteredAppend | backend/ocr_utils.py:95 | the filter keeps order: filtering a concatenation filters each part |
| TextAnalytics.MultisetLast | backend/ocr_utils.py:95 | the tokens of a list are those before its last one plus that one |
| TextAnalytics.FilteredCounts | backend/ocr_utils.py:95 | every token that passes the filter is kept as many times as it occurs, and every other token is dropped entirely |
| TextAnalytics.LoweredShape | backend/ocr_utils.py:94-95 | lowercasing and filtering keyword-shaped tokens gives lowercase keyword-shaped tokens that pass the filter |
| TextAnalytics.Candidates | backend/ocr_utils.py:94-95 | the keyword matches, lowercased, without stop words and tokens of two characters or fewer; `CandidatesShape` states their shape |
| TextAnalytics.CandidatesShape | backend/ocr_utils.py:94-95 | every candidate is a lowercase keyword-shaped token, not a stop word and longer than two characters |
| TextAnalytics.Distinct | backend/ocr_utils.py:96 | the Counter's keys in insertion order; `DistinctSpec` and `DistinctFirstOccurrence` state their properties |
| TextAnalytics.Counter | backend/ocr_utils.py:96 | `Counter(tokens)`: each token's number of occurrences; `CounterSnoc` states how it grows |
| TextAnalytics.Get | backend/app.py:107 | `counts.get(t, 0)` |
| TextAnalytics.DistinctSpec | backend/ocr_utils.py:96 | the Counter's keys hold each token once and nothing else |
| TextAnalytics.DistinctSnoc | backend/ocr_utils.py:96 | a new token joins the end of the key order, and a seen one changes nothing |
| TextAnalytics.CounterSnoc | backend/ocr_utils.py:96 | one more token raises its count by one, or enters it at 1 |
| TextAnalytics.IndexOf | backend/ocr_utils.py:96 | the index of a token's first occurrence, or the length when it is absent |
| TextAnalytics.Insert | backend/ocr_utils.py:97 | inserting into the ranking adds exactly that key |
| TextAnalytics.Rank | backend/ocr_utils.py:97 | the stable sort by count is a permutation of the keys |
| TextAnalytics.RankedTail | backend/ocr_utils.py:97 | the tail of a ranked list is ranked |
| TextAnalytics.InsertInFront | backend/ocr_utils.py:97 | a key that precedes the head goes first and keeps the list ranked |
| TextAnalytics.KeepHead | backend/ocr_utils.py:97 | a key that follows the head is inserted after it and keeps the list ranked |
| TextAnalytics.InsertRanked | backend/ocr_utils.py:97 | inserting a later key keeps the list ordered by descending count, ties in key order |
| TextAnalytics.IndexOfPrefix | backend/ocr_utils.py:97 | dropping the last key does not move the earlier keys |
| TextAnalytics.RankOrdered | backend/ocr_utils.py:97 | the stable sort orders the keys by descending count, ties in key order |
| TextAnalytics.DistinctFirstOccurrence | backend/ocr_utils.py:96 | the Counter's keys are in order of first occurrence |
| TextAnalytics.RankedMembers | backend/ocr_utils.py:96-97 | the full ranking holds each candidate, and nothing else, exactly once |
| TextAnalytics.RankedNoDups | backend/ocr_utils.py:96-97 | the full ranking repeats no candidate |
| TextAnalytics.PrecedesByCount | backend/ocr_utils.py:96-97 | ranking ahead means a higher count, or an equal count and an earlier first occurrence in the text |
| TextAnalytics.RankedByCount | backend/ocr_utils.py:96-97 | the full ranking runs in descending count, ties broken by first occurrence in the text |
| TextAnalytics.RankedPrefixOrder | backend/ocr_utils.py:97 | a prefix of the ranking keeps its order, repeats nothing and holds only candidates |
| TextAnalytics.RankedPrefixComplete | backend/ocr_utils.py:97 | no candidate a prefix leaves out is counted more often than any candidate it keeps |
| TextAnalytics.RankedCandidates | backend/ocr_utils.py:96-97 | the Counter's keys stably sorted by descending count; `RankedMembers` and `RankedByCount` state its properties |
| TextAnalytics.MostCommon | backend/ocr_utils.py:96-97 | `Counter(tokens).most_common(top_k)`: nothing for `top_k <= 0`, else the first `top_k` of the stable count ranking; the `MostCommon` lemmas below state its properties |
| TextAnalytics.ExtractKeywords | backend/ocr_utils.py:93-97 | `extract_keywords` with `STOP_WORDS` and `top_k=10` by default; `MostCommonOrder`, `MostCommonShape` and `MostCommonComplete` state its properties |
| TextAnalytics.MostCommonPrefix | backend/ocr_utils.py:93-97 | `most_common(top_k)` is empty for `top_k <= 0` and otherwise the first `min(top_k, distinct)` of the full ranking |
| TextAnalytics.MostCommonOrder | backend/ocr_utils.py:93-97 | the keywords are distinct, in descending count, ties broken by first occurrence |
| TextAnalytics.MostCommonShape | backend/ocr_utils.py:93-97 | every keyword is a lowercase keyword-shaped candidate, not a stop word and longer than two characters |
| TextAnalytics.MostCommonComplete | backend/ocr_utils.py:93-97 | no candidate left out is counted more often than a keyword kept |
| Suggestion.Position | backend/suggestion.py:15-21 | the place of a message in the fixed order of the three checks |
| Suggestion.AnalyzeQuality | backend/suggestion.py:4-23 | the frame is accepted iff the blur score exceeds 80 and the brightness lies strictly between 50 and 230, iff there are no suggestions; each message appears iff its condition holds (blur at most 80, brightness at most 50, at least 230), in check order, at most two; the blur score is returned |
| App.Summarize | backend/app.py:57-59 | `summarize`, `max_sentences=3` by default: strip, split into sentences, drop empty parts, keep the first `max_sentences`, join with spaces, strip; `SummarizeSpec`, `SummarizeFirst` and `SummarizeBlank` state its properties |
| App.NonEmpty | backend/app.py:59 | the parts kept are non-empty parts of the input |
| App.NonEmptyKeeps | backend/app.py:59 | when no part is empty the filter keeps them all |
| App.SummarizeBlank | backend/app.py:57-59 | blank text summarises to the empty string, whatever the count |
| App.FirstPartIsPrefix | backend/app.py:58 | the first sentence part is a prefix of the stripped text |
| App.PrefixShaped | backend/app.py:58-59 | leading sentence parts of a stripped text are non-empty and stripped |
| App.KeptShaped | backend/app.py:58-59 | the parts a summary keeps are non-empty and stripped |
| App.SummarizeIsJoin | backend/app.py:59 | the summary is the kept parts joined by single spaces; the final `.strip()` changes nothing |
| App.SummarizeSpec | backend/app.py:57-59 | for non-blank text the summary joins the first `max_sentences` parts, or all but `-max_sentences` of them for a negative count, and is non-empty when any part is kept |
| App.SummarizeFirst | backend/app.py:57-59 | `summarize(text, 1)` is the first sentence part: a non-empty stripped prefix of the stripped text, free of separators, that is either all of it or ends with `.`, `!` or `?` right before whitespace |
| App.CatSatBreak | backend/app.py:58 | in "The cat sat. It ran fast." the only separator is the space after the first full stop |
| App.ItRanUnsplit | backend/app.py:58 | "It ran fast." is not split: its full stop ends the text |
| App.CatSatParts | backend/app.py:58 | "The cat sat. It ran fast." splits into "The cat sat." and "It ran fast." |
| App.TwoSentencesCounted | backend/ocr_utils.py:79-80 | that text counts two sentences |
| App.SummarizeTwo | backend/app.py:57-59 | a text of two sentence parts summarised to two or more keeps both, joined by one space |
| App.RejoinAtSpace | backend/app.py:59 | cutting a text around one space and joining the halves with a space gives it back |
| App.TwoSentencesSummary | backend/app.py:57-59 | the default summary of that two-sentence text is the text itself |
| App.FirstOfTwoSentences | backend/app.py:57-59 | its one-sentence summary is "The cat sat." |
| App.AnalyzeTextStats | backend/app.py:62-91 | the inlined nested loops give exactly `ocr_utils.analyze_text_stats` |
| App.Stop | backend/app.py:95-102 | the stop set written inline in `extract_keywords`, word for word; `StopSetsAgree` states that it equals `STOP_WORDS` |
| App.StopSetsAgree | backend/app.py:95-102 | the inline stop set equals `STOP_WORDS` |
| App.ExtractKeywords | backend/app.py:94-108 | the result is `[:top_k]` of the stable count ranking of the candidates; for `top_k >= 0` it equals `ocr_utils.extract_keywords` |
| App.Tally | backend/app.py:105-107 | the dict after counting the tokens one at a time; `TallyIsCounter` states that it is the Counter |
| App.CountTokens | backend/app.py:105-107 | the dict's key order is first-occurrence order and its values are the token counts |
| App.TallyIsCounter | backend/app.py:105-107 | filling the dict one token at a time gives each token's number of occurrences |
| App.CountStep | backend/app.py:106-107 | one turn adds a new token at the end of the key order and raises its count by one |
| App.TallyStart | backend/app.py:105 | the empty dict is the state before any token |
| App.TallyDone | backend/app.py:105-108 | after the last token the dict is the Counter of all tokens |
| App.KeywordVersionsAgree | backend/app.py:108 | for `top_k >= 0` the dict-and-sort copy equals `most_common(top_k)` |
| App.AnalyzeQuality | backend/app.py:15-27 | the fallback accepts iff blur > 120 and 60 < brightness < 220, iff there are no tips; each tip appears iff its condition holds, in check order, at most two; the blur score is returned |

## Left out

- The OCR engine call (`pytesseract.image_to_data`) is not modelled. Its output table, meaning the word texts, the confidence entries and the line numbers, is the input of `OcrWithConfidence`. The `lang` and engine configuration arguments therefore do not appear.
- Confidence entries are `Option<real>`. `None` stands for an entry that `float()` cannot parse. An index past the end of the list gives -1, as the source's `try`/`except` does.
- A confidence of NaN is not modelled. `float("nan")` parses, and `nan < min_conf` is false, so Python keeps such a word; a real number cannot express NaN, so the model has no such entry.
- OpenCV is not modelled: the grey conversion, the Laplacian variance and the mean brightness in `analyze_quality`. Blur score and brightness are inputs. NaN inputs are not modelled.
- `get_image`, `enhance_image` and the other image preprocessing are not modelled. Neither are the Flask routes, the session store, `decode_image`, `generate_frames`, PDF export, translation and the hosted-model summariser (`ai.py`). None of them is part of the analytics core.
- Unicode character classes are not modelled. Python's `\w`, `\b` and `str.lower()` are Unicode-aware. The model uses their ASCII restrictions, so a non-ASCII letter counts as a non-word character. Lowercasing that changes a string's length (for example U+0130) is also not modelled.
- Floating-point rounding in the readability grade is not modelled. The formula is evaluated over exact reals. A grade whose exact value falls within one rounding error of a half-integer may therefore differ from the float computation.
- A reader may expect `summarize(text, 1)` to return the text up to its first `.`, `!` or `?`. The code cuts only where whitespace follows that mark, so a text like `a.b c` is a single part. `App.SummarizeFirst` states what the code does.
- `App.ExtractKeywords` differs from the `ocr_utils.py` version for a negative `top_k`. `Counter.most_common(n)` gives an empty list for `n <= 0`, while `sorted(...)[:n]` drops `-n` keys from the end. Both behaviours are modelled, and `App.KeywordVersionsAgree` covers only `top_k >= 0`.
- `LineReconstruction.RunsAreMaximal` is stated only when every retained word has a line number. The source treats a missing line number (`None`) as "no previous line". That behaviour is modelled, and `LineReconstruction.MissingLineNumberJoinsNext` states it.
