/** Line reconstruction from the OCR engine's word table (the loop of
    ocr_with_confidence) and the cleaning pass clean_ocr_text. The engine
    itself is not modelled: its output arrives as the three parallel
    sequences `texts`, `confs` and `lineNums`. */
module LineReconstruction {
  import opened Strings

  datatype Option<T> = None | Some(value: T)

  /** A retained word: its stripped text and its line number, which is None
      when the line-number array is shorter than the text array. */
  datatype Token = Token(text: string, line: Option<int>)

  /** float(conf[i]); -1 when the index is past the end or the entry does not
      parse as a number (the source catches the exception). */
  function ConfidenceAt(confs: seq<Option<real>>, i: nat): real {
    if i < |confs| && confs[i].Some? then confs[i].value else -1.0
  }

  function LineAt(lineNums: seq<int>, i: nat): Option<int> {
    if i < |lineNums| then Some(lineNums[i]) else None
  }

  /** The gate: non-blank text and a confidence of at least minConf. */
  predicate Retains(texts: seq<string>, confs: seq<Option<real>>, minConf: real, i: nat)
    requires i < |texts|
  {
    Strip(texts[i]) != [] && ConfidenceAt(confs, i) >= minConf
  }

  /** The words among the first n that pass the gate, in emission order. */
  function RetainedUpTo(texts: seq<string>, confs: seq<Option<real>>, lineNums: seq<int>, minConf: real, n: nat): seq<Token>
    requires n <= |texts|
  {
    if n == 0 then []
    else
      RetainedUpTo(texts, confs, lineNums, minConf, n - 1)
      + (if Retains(texts, confs, minConf, n - 1) then [Token(Strip(texts[n - 1]), LineAt(lineNums, n - 1))] else [])
  }

  function Retained(texts: seq<string>, confs: seq<Option<real>>, lineNums: seq<int>, minConf: real): seq<Token> {
    RetainedUpTo(texts, confs, lineNums, minConf, |texts|)
  }

  /** A word continues the current line when the previous line number is
      None or equal to its own. None stands both for "no word yet" and for a
      previous word whose line number was missing. */
  predicate Continues(last: Option<int>, line: Option<int>) {
    last.None? || line == last
  }

  function Flatten<T>(runs: seq<seq<T>>): seq<T> {
    if runs == [] then [] else Flatten(runs[..|runs| - 1]) + runs[|runs| - 1]
  }

  /** The grouping of retained words into lines, one word at a time in
      emission order: a word either extends the last line or starts a new
      one. Nothing is dropped or reordered, and no line is empty. */
  function Runs(toks: seq<Token>): (runs: seq<seq<Token>>)
    ensures |runs| == 0 <==> |toks| == 0
    ensures forall k :: 0 <= k < |runs| ==> runs[k] != []
    ensures Flatten(runs) == toks
  {
    if toks == [] then []
    else if |toks| == 1 then
      assert Flatten([toks]) == Flatten([]) + toks;
      [toks]
    else
      var prev := Runs(toks[..|toks| - 1]);
      var t := toks[|toks| - 1];
      var n := |prev|;
      assert Flatten(prev) == Flatten(prev[..n - 1]) + prev[n - 1];
      assert toks == toks[..|toks| - 1] + [t];
      if Continues(toks[|toks| - 2].line, t.line) then
        var runs := prev[..n - 1] + [prev[n - 1] + [t]];
        assert runs[..n - 1] == prev[..n - 1];
        runs
      else
        var runs: seq<seq<Token>> := prev + [[t]];
        assert runs[..n] == prev;
        runs
  }

  function Texts(run: seq<Token>): (ws: seq<string>)
    ensures |ws| == |run|
  {
    seq(|run|, i requires 0 <= i < |run| => run[i].text)
  }

  /** " ".join(current_line). */
  function LineText(run: seq<Token>): string {
    Join(Texts(run), " ")
  }

  function RunLines(runs: seq<seq<Token>>): (lines: seq<string>)
    ensures |lines| == |runs|
  {
    seq(|runs|, k requires 0 <= k < |runs| => LineText(runs[k]))
  }

  /** The loop state after the retained words `r`: the completed lines,
      the words of the line being built, and the last line number seen. */
  predicate Reconstructed(r: seq<Token>, lines: seq<string>, current: seq<string>, lastLine: Option<int>) {
    && (r == [] ==> lines == [] && current == [] && lastLine == None)
    && (r != [] ==>
          && lines == RunLines(Runs(r)[..|Runs(r)| - 1])
          && current == Texts(Runs(r)[|Runs(r)| - 1])
          && lastLine == r[|r| - 1].line)
  }

  /** The loop of ocr_with_confidence after the engine call: it gates each
      word, accumulates words of one line, flushes the accumulator whenever
      the line number changes, and flushes it once more at the end. */
  method ReconstructLines(texts: seq<string>, confs: seq<Option<real>>, lineNums: seq<int>, minConf: real)
    returns (lines: seq<string>)
    ensures lines == RunLines(Runs(Retained(texts, confs, lineNums, minConf)))
  {
    lines := [];
    var current: seq<string> := [];
    var lastLine: Option<int> := None;
    for i := 0 to |texts|
      invariant Reconstructed(RetainedUpTo(texts, confs, lineNums, minConf, i), lines, current, lastLine)
    {
      var text := Strip(texts[i]);
      if text == [] {
        SkipStep(texts, confs, lineNums, minConf, i);
        continue;
      }
      var conf := ConfidenceAt(confs, i);
      if conf < minConf {
        SkipStep(texts, confs, lineNums, minConf, i);
        continue;
      }
      var line := LineAt(lineNums, i);
      KeepStep(texts, confs, lineNums, minConf, i);
      AcceptStep(RetainedUpTo(texts, confs, lineNums, minConf, i), Token(text, line), lines, current, lastLine);
      if lastLine.None? || line == lastLine {
        current := current + [text];
      } else {
        lines := lines + [Join(current, " ")];
        current := [text];
      }
      lastLine := line;
    }
    FinalFlush(Retained(texts, confs, lineNums, minConf), lines, current, lastLine);
    if current != [] {
      lines := lines + [Join(current, " ")];
    }
  }

  lemma SkipStep(texts: seq<string>, confs: seq<Option<real>>, lineNums: seq<int>, minConf: real, i: nat)
    requires i < |texts| && !Retains(texts, confs, minConf, i)
    ensures RetainedUpTo(texts, confs, lineNums, minConf, i + 1) == RetainedUpTo(texts, confs, lineNums, minConf, i)
  {
  }

  lemma KeepStep(texts: seq<string>, confs: seq<Option<real>>, lineNums: seq<int>, minConf: real, i: nat)
    requires i < |texts| && Retains(texts, confs, minConf, i)
    ensures RetainedUpTo(texts, confs, lineNums, minConf, i + 1)
      == RetainedUpTo(texts, confs, lineNums, minConf, i) + [Token(Strip(texts[i]), LineAt(lineNums, i))]
  {
  }

  /** One retained word either extends the line being built or flushes it
      and starts the next one. */
  lemma AcceptStep(r: seq<Token>, t: Token, lines: seq<string>, current: seq<string>, lastLine: Option<int>)
    requires Reconstructed(r, lines, current, lastLine)
    ensures Continues(lastLine, t.line) ==> Reconstructed(r + [t], lines, current + [t.text], t.line)
    ensures !Continues(lastLine, t.line) ==> Reconstructed(r + [t], lines + [Join(current, " ")], [t.text], t.line)
  {
    var r' := r + [t];
    assert r'[..|r'| - 1] == r;
    if r != [] {
      assert r'[|r'| - 2] == r[|r| - 1];
      var runs := Runs(r);
      var last := runs[|runs| - 1];
      assert Texts(last + [t]) == Texts(last) + [t.text];
      if !Continues(lastLine, t.line) {
        assert runs == runs[..|runs| - 1] + [last];
        assert RunLines(runs) == lines + [Join(current, " ")];
      }
    }
  }

  /** After the loop, flushing the non-empty accumulator completes the lines. */
  lemma FinalFlush(r: seq<Token>, lines: seq<string>, current: seq<string>, lastLine: Option<int>)
    requires Reconstructed(r, lines, current, lastLine)
    ensures current == [] ==> lines == RunLines(Runs(r))
    ensures current != [] ==> lines + [Join(current, " ")] == RunLines(Runs(r))
  {
    if r != [] {
      var runs := Runs(r);
      assert runs == runs[..|runs| - 1] + [runs[|runs| - 1]];
    }
  }

  /** One line as clean_ocr_text rewrites it: whitespace runs collapsed to a
      single space, then stripped. */
  function NormalizeLine(line: string): string {
    Strip(CollapseSpaces(line))
  }

  /** A line survives cleaning when it is non-blank and holds at least three
      characters of [A-Za-z0-9]. */
  predicate KeepsLine(line: string) {
    NormalizeLine(line) != [] && AlnumCount(NormalizeLine(line)) >= 3
  }

  /** What one input line contributes to the output: its normal form, or nothing. */
  function Survivor(line: string): seq<string> {
    if KeepsLine(line) then [NormalizeLine(line)] else []
  }

  function CleanedLines(lines: seq<string>): seq<string> {
    if lines == [] then []
    else
      CleanedLines(lines[..|lines| - 1]) + Survivor(lines[|lines| - 1])
  }

  /** A cleaned line: non-empty, at least three ASCII alphanumerics, no
      whitespace at either end, every whitespace character a single plain
      space, hence no newline inside. */
  predicate IsCleanLine(l: string) {
    l != [] && AlnumCount(l) >= 3 && IsStripped(l) && SingleSpaced(l) && '\n' !in l
  }

  /** Normalising a line only touches whitespace and leaves a clean shape. */
  lemma NormalizeLineSpec(line: string)
    ensures IsStripped(NormalizeLine(line)) && SingleSpaced(NormalizeLine(line))
    ensures '\n' !in NormalizeLine(line)
    ensures NonSpace(NormalizeLine(line)) == NonSpace(line)
  {
    var c := CollapseSpaces(line);
    StripSpec(c);
    StripSingleSpaced(c);
  }

  /** Every line clean_ocr_text keeps is clean. */
  lemma {:induction false} CleanedLinesAreClean(lines: seq<string>)
    ensures forall k :: 0 <= k < |CleanedLines(lines)| ==> IsCleanLine(CleanedLines(lines)[k])
  {
    if lines != [] {
      CleanedLinesAreClean(lines[..|lines| - 1]);
      NormalizeLineSpec(lines[|lines| - 1]);
    }
  }

  lemma CleanedLinesSnoc(xs: seq<string>, x: string)
    ensures CleanedLines(xs + [x]) == CleanedLines(xs) + Survivor(x)
  {
    assert (xs + [x])[..|xs|] == xs;
  }

  /** Cleaning works line by line: the survivors of a concatenation are the
      survivors of each part, in order. */
  lemma {:induction false} CleanedLinesAppend(a: seq<string>, b: seq<string>)
    ensures CleanedLines(a + b) == CleanedLines(a) + CleanedLines(b)
  {
    if b == [] {
      assert a + b == a;
    } else {
      var init, x := b[..|b| - 1], b[|b| - 1];
      assert b == init + [x];
      assert a + b == (a + init) + [x];
      CleanedLinesAppend(a, init);
      CleanedLinesSnoc(a + init, x);
      CleanedLinesSnoc(init, x);
    }
  }

  /** clean_ocr_text: rewrite each line, skip blank ones and those with fewer
      than three ASCII alphanumerics, join the rest with newlines and strip. */
  method CleanOcrText(lines: seq<string>) returns (text: string)
    ensures text == Join(CleanedLines(lines), "\n")
  {
    var cleaned: seq<string> := [];
    for i := 0 to |lines|
      invariant cleaned == CleanedLines(lines[..i])
    {
      assert lines[..i + 1][..i] == lines[..i];
      var line := Strip(CollapseSpaces(lines[i]));
      if line == [] {
        continue;
      }
      if AlnumCount(line) < 3 {
        continue;
      }
      cleaned := cleaned + [line];
    }
    assert lines[..|lines|] == lines;
    CleanedLinesAreClean(lines);
    JoinStripped(cleaned, "\n");
    StripSpec(Join(cleaned, "\n"));
    text := Strip(Join(cleaned, "\n"));
  }

  /** What ocr_with_confidence returns for the engine's word table. */
  function OcrText(texts: seq<string>, confs: seq<Option<real>>, lineNums: seq<int>, minConf: real): string {
    Join(CleanedLines(RunLines(Runs(Retained(texts, confs, lineNums, minConf)))), "\n")
  }

  /** ocr_with_confidence with the engine call replaced by its output. */
  method OcrWithConfidence(texts: seq<string>, confs: seq<Option<real>>, lineNums: seq<int>, minConf: real := 55.0)
    returns (text: string)
    ensures text == OcrText(texts, confs, lineNums, minConf)
  {
    var lines := ReconstructLines(texts, confs, lineNums, minConf);
    text := CleanOcrText(lines);
  }

  /** Every word carries a line number: the engine's arrays have equal length. */
  predicate AllNumbered(toks: seq<Token>) {
    forall i :: 0 <= i < |toks| ==> toks[i].line.Some?
  }

  /** Each run holds words of one line, and neighbouring runs differ in line
      number where they meet: the runs are the maximal blocks of consecutive
      equal line numbers. */
  predicate MaximalRuns(runs: seq<seq<Token>>) {
    && (forall k, i :: 0 <= k < |runs| && 0 <= i < |runs[k]| ==> runs[k][i].line == runs[k][0].line)
    && (forall k :: 0 <= k < |runs| - 1 && runs[k] != [] && runs[k + 1] != [] ==>
          runs[k][|runs[k]| - 1].line != runs[k + 1][0].line)
  }

  lemma {:induction false} FlattenLast<T>(runs: seq<seq<T>>)
    requires runs != [] && runs[|runs| - 1] != []
    ensures Flatten(runs) != []
    ensures Flatten(runs)[|Flatten(runs)| - 1] == runs[|runs| - 1][|runs[|runs| - 1]| - 1]
  {
  }

  /** A word on the same line as the last run extends it. */
  lemma MaximalExtend(prev: seq<seq<Token>>, t: Token)
    requires MaximalRuns(prev) && prev != [] && prev[|prev| - 1] != []
    requires t.line == prev[|prev| - 1][0].line
    ensures MaximalRuns(prev[..|prev| - 1] + [prev[|prev| - 1] + [t]])
  {
    var last: seq<Token> := prev[|prev| - 1];
    var runs: seq<seq<Token>> := prev[..|prev| - 1] + [last + [t]];
    forall k, i | 0 <= k < |runs| && 0 <= i < |runs[k]|
      ensures runs[k][i].line == runs[k][0].line
    {
      if k < |prev| - 1 { assert runs[k] == prev[k]; }
    }
    forall k | 0 <= k < |runs| - 1 && runs[k] != [] && runs[k + 1] != []
      ensures runs[k][|runs[k]| - 1].line != runs[k + 1][0].line
    {
      assert runs[k] == prev[k];
      if k + 1 < |prev| - 1 { assert runs[k + 1] == prev[k + 1]; }
      else { assert runs[k + 1][0] == prev[k + 1][0]; }
    }
  }

  /** A word on another line than the end of the last run starts a new one. */
  lemma MaximalNewRun(prev: seq<seq<Token>>, t: Token)
    requires MaximalRuns(prev) && prev != [] && prev[|prev| - 1] != []
    requires t.line != prev[|prev| - 1][|prev[|prev| - 1]| - 1].line
    ensures MaximalRuns(prev + [[t]])
  {
    var runs: seq<seq<Token>> := prev + [[t]];
    forall k, i | 0 <= k < |runs| && 0 <= i < |runs[k]|
      ensures runs[k][i].line == runs[k][0].line
    {
      if k < |prev| { assert runs[k] == prev[k]; }
    }
    forall k | 0 <= k < |runs| - 1 && runs[k] != [] && runs[k + 1] != []
      ensures runs[k][|runs[k]| - 1].line != runs[k + 1][0].line
    {
      assert runs[k] == prev[k];
      if k + 1 < |prev| { assert runs[k + 1] == prev[k + 1]; }
    }
  }

  /** With every line number present, grouping yields the maximal runs of
      equal line numbers in emission order; nothing is sorted. */
  lemma {:induction false} RunsAreMaximal(toks: seq<Token>)
    requires AllNumbered(toks)
    ensures MaximalRuns(Runs(toks))
  {
    if |toks| == 1 {
      assert Runs(toks) == [toks];
    } else if |toks| > 1 {
      var init := toks[..|toks| - 1];
      var t := toks[|toks| - 1];
      RunsAreMaximal(init);
      var prev: seq<seq<Token>> := Runs(init);
      var last: seq<Token> := prev[|prev| - 1];
      FlattenLast(prev);
      assert last[|last| - 1] == toks[|toks| - 2];
      if Continues(toks[|toks| - 2].line, t.line) {
        assert t.line == last[0].line;
        MaximalExtend(prev, t);
      } else {
        MaximalNewRun(prev, t);
      }
    }
  }

  /** The number of places where the line number changes between
      consecutive words. */
  function LineChanges(toks: seq<Token>): nat {
    if |toks| < 2 then 0
    else LineChanges(toks[..|toks| - 1]) + (if toks[|toks| - 1].line != toks[|toks| - 2].line then 1 else 0)
  }

  /** Every change of line number flushes exactly one line, and the final
      accumulator is flushed once more. */
  lemma {:induction false} RunsCount(toks: seq<Token>)
    requires AllNumbered(toks) && toks != []
    ensures |Runs(toks)| == LineChanges(toks) + 1
  {
    if |toks| > 1 {
      var init := toks[..|toks| - 1];
      RunsCount(init);
      assert init[|init| - 1] == toks[|toks| - 2];
    }
  }

  /** A line number that comes back after another one starts a new line. */
  lemma NoSorting()
    ensures |Runs([Token("a", Some(1)), Token("b", Some(2)), Token("c", Some(1))])| == 3
  {
    var toks := [Token("a", Some(1)), Token("b", Some(2)), Token("c", Some(1))];
    RunsCount(toks);
    assert toks[..2][..1] == [toks[0]];
    assert LineChanges(toks[..2]) == 1;
  }

  /** A word whose line number is missing leaves None as the last line
      number, so the next word joins its line whatever its own number. */
  lemma MissingLineNumberJoinsNext()
    ensures Runs([Token("a", Some(1)), Token("b", None), Token("c", Some(2))])
      == [[Token("a", Some(1))], [Token("b", None), Token("c", Some(2))]]
  {
    var toks := [Token("a", Some(1)), Token("b", None), Token("c", Some(2))];
    var ab := toks[..2];
    assert ab == [Token("a", Some(1)), Token("b", None)];
    assert ab[..1] == [Token("a", Some(1))];
    assert Runs(ab[..1]) == [[Token("a", Some(1))]];
    assert !Continues(ab[0].line, ab[1].line);
    assert Runs(ab) == [[Token("a", Some(1))], [Token("b", None)]];
    assert Continues(toks[1].line, toks[2].line);
    assert toks[..|toks| - 1] == ab;
    var prev := Runs(ab);
    assert prev[..1] == [[Token("a", Some(1))]];
    assert prev[1] + [toks[2]] == [Token("b", None), Token("c", Some(2))];
  }

  /** Every retained word is non-blank and already stripped. */
  lemma {:induction false} RetainedWordsClean(texts: seq<string>, confs: seq<Option<real>>, lineNums: seq<int>, minConf: real, n: nat)
    requires n <= |texts|
    ensures forall k :: 0 <= k < |RetainedUpTo(texts, confs, lineNums, minConf, n)| ==>
      RetainedUpTo(texts, confs, lineNums, minConf, n)[k].text != []
      && IsStripped(RetainedUpTo(texts, confs, lineNums, minConf, n)[k].text)
  {
    if n > 0 {
      RetainedWordsClean(texts, confs, lineNums, minConf, n - 1);
      StripSpec(texts[n - 1]);
    }
  }

  /** A word whose confidence entry is missing or does not parse counts as
      -1, so with a threshold above -1 it is dropped, whatever the entries of
      the other words. */
  lemma UnknownConfidenceDropped(texts: seq<string>, confs: seq<Option<real>>, lineNums: seq<int>, minConf: real, i: nat)
    requires i < |texts|
    requires i >= |confs| || confs[i].None?
    requires minConf > -1.0
    ensures RetainedUpTo(texts, confs, lineNums, minConf, i + 1) == RetainedUpTo(texts, confs, lineNums, minConf, i)
  {
    assert ConfidenceAt(confs, i) == -1.0;
  }

  /** With every engine word rejected the result is the empty string, not an
      error. */
  lemma NothingRetainedGivesEmptyText(texts: seq<string>, confs: seq<Option<real>>, lineNums: seq<int>, minConf: real)
    requires Retained(texts, confs, lineNums, minConf) == []
    ensures OcrText(texts, confs, lineNums, minConf) == []
  {
  }

  /** The returned text splits on newlines into the cleaned lines, each of
      which is clean; an empty text means no line survived. */
  lemma OcrTextLines(texts: seq<string>, confs: seq<Option<real>>, lineNums: seq<int>, minConf: real)
    ensures var lines := CleanedLines(RunLines(Runs(Retained(texts, confs, lineNums, minConf))));
      var out := OcrText(texts, confs, lineNums, minConf);
      && (out == [] <==> lines == [])
      && (out != [] ==> SplitOn(out, '\n') == lines)
      && (forall k :: 0 <= k < |lines| ==> IsCleanLine(lines[k]))
  {
    var lines := CleanedLines(RunLines(Runs(Retained(texts, confs, lineNums, minConf))));
    CleanedLinesAreClean(RunLines(Runs(Retained(texts, confs, lineNums, minConf))));
    if lines != [] {
      JoinEnds(lines, "\n");
      SplitJoin(lines, '\n');
    }
  }

  /** A word without whitespace that has three ASCII alphanumerics goes
      through reconstruction and cleaning unchanged. */
  lemma PlainWord(w: string)
    requires w != [] && (forall i :: 0 <= i < |w| ==> !IsSpace(w[i])) && AlnumCount(w) >= 3
    ensures Strip(w) == w && NormalizeLine(w) == w && KeepsLine(w) && Survivor(w) == [w]
  {
    StripSpec(w);
    CollapseWithoutSpaces(w);
  }

  /** The worked example: a low-confidence word is dropped and the two line
      numbers give two lines. */
  lemma HelloByeExample()
    ensures OcrText(["Hello", "world", "Bye"], [Some(90.0), Some(10.0), Some(90.0)], [0, 0, 1], 55.0) == "Hello\nBye"
  {
    var hello, bye := Token("Hello", Some(0)), Token("Bye", Some(1));
    var texts, confs, nums := ["Hello", "world", "Bye"], [Some(90.0), Some(10.0), Some(90.0)], [0, 0, 1];
    HelloByeRetained(texts, confs, nums);
    HelloByeRuns(hello, bye);
    HelloByeCleaned();
    HelloByeJoined();
    calc {
      OcrText(texts, confs, nums, 55.0);
      Join(CleanedLines(RunLines(Runs([hello, bye]))), "\n");
      Join(CleanedLines(["Hello", "Bye"]), "\n");
      Join(["Hello", "Bye"], "\n");
    }
  }

  lemma HelloByeJoined()
    ensures Join(["Hello", "Bye"], "\n") == "Hello\nBye"
  {
    assert ["Hello", "Bye"][..1] == ["Hello"];
  }

  lemma HelloByeRetained(texts: seq<string>, confs: seq<Option<real>>, nums: seq<int>)
    requires texts == ["Hello", "world", "Bye"] && confs == [Some(90.0), Some(10.0), Some(90.0)] && nums == [0, 0, 1]
    ensures Retained(texts, confs, nums, 55.0) == [Token("Hello", Some(0)), Token("Bye", Some(1))]
  {
    assert Strip(texts[0]) == "Hello" by {
      assert !IsSpace(texts[0][0]) && !IsSpace(texts[0][4]);
    }
    assert Strip(texts[2]) == "Bye" by {
      assert !IsSpace(texts[2][0]) && !IsSpace(texts[2][2]);
    }
    assert RetainedUpTo(texts, confs, nums, 55.0, 1) == [Token("Hello", Some(0))];
    assert RetainedUpTo(texts, confs, nums, 55.0, 2) == [Token("Hello", Some(0))];
  }

  lemma HelloByeRuns(hello: Token, bye: Token)
    requires hello == Token("Hello", Some(0)) && bye == Token("Bye", Some(1))
    ensures RunLines(Runs([hello, bye])) == ["Hello", "Bye"]
  {
    var r := [hello, bye];
    assert r[..1] == [hello];
    assert Runs(r) == [[hello], [bye]];
    assert LineText([hello]) == "Hello";
    assert LineText([bye]) == "Bye";
  }

  lemma HelloByeCleaned()
    ensures CleanedLines(["Hello", "Bye"]) == ["Hello", "Bye"]
  {
    HelloByeSurvive();
    SurvivorsKept("Hello", "Bye");
  }

  /** Two lines that each survive cleaning come out in input order. */
  lemma SurvivorsKept(a: string, b: string)
    requires Survivor(a) == [a] && Survivor(b) == [b]
    ensures CleanedLines([a, b]) == [a, b]
  {
    var none: seq<string> := [];
    CleanedLinesSnoc(none, a);
    assert none + [a] == [a];
    CleanedLinesSnoc([a], b);
    assert [a] + [b] == [a, b];
  }

  lemma HelloByeSurvive()
    ensures Survivor("Hello") == ["Hello"] && Survivor("Bye") == ["Bye"]
  {
    HelloSurvives();
    ByeSurvives();
  }

  lemma HelloSurvives()
    ensures Survivor("Hello") == ["Hello"]
  {
    var w := "Hello";
    assert forall i :: 0 <= i < |w| ==> !IsSpace(w[i]);
    assert AlnumCount(w) == 5;
    PlainWord(w);
  }

  lemma ByeSurvives()
    ensures Survivor("Bye") == ["Bye"]
  {
    var w := "Bye";
    assert forall i :: 0 <= i < |w| ==> !IsSpace(w[i]);
    assert AlnumCount(w) == 3;
    PlainWord(w);
  }
}
