/** Character classes and the handful of Python string operations the core
    relies on: str.isspace, str.strip, re.sub(r"\s+", " ", s), str.join and
    list slicing; and a splitter on one character, which the core never
    calls, to state that "\n".join loses nothing. */
module Strings {

  /** Python's str.isspace(); both str.strip() and the regex class \s use it. */
  predicate IsSpace(c: char) {
    c == ' ' || '\t' <= c <= '\r' || '\U{1c}' <= c <= '\U{1f}'
    || c == '\U{85}' || c == '\U{a0}' || c == '\U{1680}'
    || '\U{2000}' <= c <= '\U{200a}' || c == '\U{2028}' || c == '\U{2029}'
    || c == '\U{202f}' || c == '\U{205f}' || c == '\U{3000}'
  }

  predicate IsAsciiLetter(c: char) { 'a' <= c <= 'z' || 'A' <= c <= 'Z' }

  predicate IsAsciiDigit(c: char) { '0' <= c <= '9' }

  /** The class [A-Za-z0-9]. */
  predicate IsAsciiAlnum(c: char) { IsAsciiLetter(c) || IsAsciiDigit(c) }

  /** The regex class \w, restricted to ASCII. */
  predicate IsWordChar(c: char) { IsAsciiAlnum(c) || c == '_' }

  predicate IsAsciiUpper(c: char) { 'A' <= c <= 'Z' }

  /** str.lower() on an ASCII character. */
  function ToLower(c: char): (r: char)
    ensures !IsAsciiUpper(r)
    ensures IsAsciiLetter(c) <==> IsAsciiLetter(r)
    ensures !IsAsciiUpper(c) ==> r == c
  {
    if IsAsciiUpper(c) then (c as int + 32) as char else c
  }

  function Lower(s: string): (r: string)
    ensures |r| == |s|
    ensures forall i :: 0 <= i < |s| ==> r[i] == ToLower(s[i])
  {
    seq(|s|, i requires 0 <= i < |s| => ToLower(s[i]))
  }

  /** The characters of `s` that are not whitespace, in order. */
  function NonSpace(s: string): string {
    if s == [] then []
    else (if IsSpace(s[0]) then [] else [s[0]]) + NonSpace(s[1..])
  }

  /** Count of characters matching [A-Za-z0-9]. */
  function AlnumCount(s: string): nat {
    if s == [] then 0
    else (if IsAsciiAlnum(s[0]) then 1 else 0) + AlnumCount(s[1..])
  }

  /** No leading and no trailing whitespace, as str.strip() leaves it. */
  predicate IsStripped(s: string) {
    s == [] || (!IsSpace(s[0]) && !IsSpace(s[|s| - 1]))
  }

  /** Every whitespace character is a plain space and no two are adjacent. */
  predicate SingleSpaced(s: string) {
    && (forall i :: 0 <= i < |s| && IsSpace(s[i]) ==> s[i] == ' ')
    && (forall i :: 0 <= i < |s| - 1 ==> !(IsSpace(s[i]) && IsSpace(s[i + 1])))
  }

  function LStrip(s: string): string {
    if s != [] && IsSpace(s[0]) then LStrip(s[1..]) else s
  }

  function RStrip(s: string): string {
    if s != [] && IsSpace(s[|s| - 1]) then RStrip(s[..|s| - 1]) else s
  }

  /** str.strip() with no argument. */
  function Strip(s: string): string {
    RStrip(LStrip(s))
  }

  /** lstrip() removes a prefix made of whitespace and stops at the first
      other character. */
  lemma {:induction false} LStripSpec(s: string)
    ensures LStrip(s) == [] || !IsSpace(LStrip(s)[0])
    ensures |LStrip(s)| <= |s| && LStrip(s) == s[|s| - |LStrip(s)|..]
    ensures forall i :: 0 <= i < |s| - |LStrip(s)| ==> IsSpace(s[i])
  {
    if s != [] && IsSpace(s[0]) {
      LStripSpec(s[1..]);
    }
  }

  /** rstrip() removes a suffix made of whitespace and stops at the last
      other character. */
  lemma {:induction false} RStripSpec(s: string)
    ensures RStrip(s) == [] || !IsSpace(RStrip(s)[|RStrip(s)| - 1])
    ensures |RStrip(s)| <= |s| && RStrip(s) == s[..|RStrip(s)|]
    ensures forall i :: |RStrip(s)| <= i < |s| ==> IsSpace(s[i])
  {
    if s != [] && IsSpace(s[|s| - 1]) {
      RStripSpec(s[..|s| - 1]);
    }
  }

  lemma {:induction false} NonSpaceAppend(a: string, b: string)
    ensures NonSpace(a + b) == NonSpace(a) + NonSpace(b)
  {
    if a != [] {
      assert (a + b)[1..] == a[1..] + b;
      NonSpaceAppend(a[1..], b);
    } else {
      assert a + b == b;
    }
  }

  lemma {:induction false} NonSpaceOfSpaces(s: string)
    requires forall i :: 0 <= i < |s| ==> IsSpace(s[i])
    ensures NonSpace(s) == []
  {
    if s != [] {
      NonSpaceOfSpaces(s[1..]);
    }
  }

  lemma LStripNonSpace(s: string)
    ensures NonSpace(LStrip(s)) == NonSpace(s)
  {
    var l := LStrip(s);
    LStripSpec(s);
    var gap := s[..|s| - |l|];
    assert s == gap + l;
    NonSpaceAppend(gap, l);
    NonSpaceOfSpaces(gap);
  }

  lemma RStripNonSpace(s: string)
    ensures NonSpace(RStrip(s)) == NonSpace(s)
  {
    var r := RStrip(s);
    RStripSpec(s);
    var gap := s[|r|..];
    assert s == r + gap;
    NonSpaceAppend(r, gap);
    NonSpaceOfSpaces(gap);
  }

  /** Removing whitespace at both ends keeps every other character. */
  lemma StripNonSpace(s: string)
    ensures NonSpace(Strip(s)) == NonSpace(s)
  {
    LStripNonSpace(s);
    RStripNonSpace(LStrip(s));
  }

  /** strip() leaves a string with no whitespace at either end, removes only
      whitespace, and does nothing to a string that is already stripped. */
  lemma StripSpec(s: string)
    ensures IsStripped(Strip(s))
    ensures NonSpace(Strip(s)) == NonSpace(s)
    ensures IsStripped(s) ==> Strip(s) == s
  {
    StripNonSpace(s);
    var l := LStrip(s);
    LStripSpec(s);
    RStripSpec(l);
    var r := RStrip(l);
    if r != [] {
      assert r[0] == l[0];
    }
  }

  /** Infixes of a single-spaced string are single-spaced. */
  lemma SingleSpacedInfix(s: string, i: nat, j: nat)
    requires SingleSpaced(s) && i <= j <= |s|
    ensures SingleSpaced(s[i..j])
  {
    var t := s[i..j];
    forall k | 0 <= k < |t| - 1
      ensures !(IsSpace(t[k]) && IsSpace(t[k + 1]))
    {
      assert t[k] == s[i + k] && t[k + 1] == s[i + k + 1];
    }
  }

  lemma StripSingleSpaced(s: string)
    requires SingleSpaced(s)
    ensures SingleSpaced(Strip(s))
  {
    var l := LStrip(s);
    LStripSpec(s);
    RStripSpec(l);
    SingleSpacedInfix(s, |s| - |l|, |s|);
    SingleSpacedInfix(l, 0, |RStrip(l)|);
  }

  /** re.sub(r"\s+", " ", s): every maximal run of whitespace becomes one space. */
  function CollapseSpaces(s: string): (r: string)
    ensures SingleSpaced(r)
    ensures NonSpace(r) == NonSpace(s)
    ensures s != [] ==> r != [] && r[0] == (if IsSpace(s[0]) then ' ' else s[0])
  {
    if s == [] then []
    else if IsSpace(s[0]) then
      (if |s| > 1 && IsSpace(s[1]) then CollapseSpaces(s[1..]) else " " + CollapseSpaces(s[1..]))
    else [s[0]] + CollapseSpaces(s[1..])
  }

  lemma {:induction false} CollapseWithoutSpaces(s: string)
    requires forall i :: 0 <= i < |s| ==> !IsSpace(s[i])
    ensures CollapseSpaces(s) == s
  {
    if s != [] {
      CollapseWithoutSpaces(s[1..]);
    }
  }

  /** Collapsing works piece by piece across a cut made right after a
      character that is not whitespace. */
  lemma {:induction false} CollapseAppend(a: string, b: string)
    requires a == [] || !IsSpace(a[|a| - 1])
    ensures CollapseSpaces(a + b) == CollapseSpaces(a) + CollapseSpaces(b)
  {
    if a == [] {
      assert a + b == b;
    } else {
      var lead := CollapseLead(a);
      calc {
        CollapseSpaces(a + b);
        { CollapseHead(a, b); }
        lead + CollapseSpaces(a[1..] + b);
        { CollapseAppend(a[1..], b); }
        lead + (CollapseSpaces(a[1..]) + CollapseSpaces(b));
        (lead + CollapseSpaces(a[1..])) + CollapseSpaces(b);
        { CollapseHead(a, b); }
        CollapseSpaces(a) + CollapseSpaces(b);
      }
    }
  }

  /** What the collapse emits for the first character of s: a space for
      the last whitespace character of a run, nothing for the others, and
      any other character itself. */
  function CollapseLead(s: string): string
    requires s != []
  {
    if IsSpace(s[0]) then (if |s| > 1 && IsSpace(s[1]) then [] else " ") else [s[0]]
  }

  /** The first step of the collapse looks at two characters only, which a
      and a + b share when a ends in a non-space. */
  lemma CollapseHead(a: string, b: string)
    requires a != [] && !IsSpace(a[|a| - 1])
    ensures CollapseSpaces(a) == CollapseLead(a) + CollapseSpaces(a[1..])
    ensures CollapseSpaces(a + b) == CollapseLead(a) + CollapseSpaces(a[1..] + b)
  {
    assert (a + b)[1..] == a[1..] + b;
    if IsSpace(a[0]) {
      assert |a| > 1 && (a + b)[1] == a[1];
    }
  }

  /** A whole run of whitespace, however long, becomes exactly one space. */
  lemma {:induction false} CollapseRun(w: string, b: string)
    requires w != [] && forall i :: 0 <= i < |w| ==> IsSpace(w[i])
    requires b == [] || !IsSpace(b[0])
    ensures CollapseSpaces(w + b) == " " + CollapseSpaces(b)
  {
    assert (w + b)[1..] == w[1..] + b;
    if |w| > 1 {
      CollapseRun(w[1..], b);
    } else {
      assert w[1..] + b == b;
    }
  }

  /** Words separated by a whitespace run stay separated, by one space. */
  lemma CollapseGap(a: string, w: string, b: string)
    requires a == [] || !IsSpace(a[|a| - 1])
    requires w != [] && forall i :: 0 <= i < |w| ==> IsSpace(w[i])
    requires b == [] || !IsSpace(b[0])
    ensures CollapseSpaces(a + w + b) == CollapseSpaces(a) + " " + CollapseSpaces(b)
  {
    var ca, cb := CollapseSpaces(a), CollapseSpaces(b);
    calc {
      CollapseSpaces(a + w + b);
      { assert a + w + b == a + (w + b); }
      CollapseSpaces(a + (w + b));
      { CollapseAppend(a, w + b); }
      ca + CollapseSpaces(w + b);
      { CollapseRun(w, b); }
      ca + (" " + cb);
      ca + " " + cb;
    }
  }

  /** sep.join(parts). */
  function Join(parts: seq<string>, sep: string): string {
    if |parts| == 0 then []
    else if |parts| == 1 then parts[0]
    else Join(parts[..|parts| - 1], sep) + sep + parts[|parts| - 1]
  }

  /** Joining strings that are non-empty and stripped, with a separator,
      yields a string that starts with the first part and ends with the last. */
  lemma {:induction false} JoinEnds(parts: seq<string>, sep: string)
    requires |parts| > 0
    requires forall k :: 0 <= k < |parts| ==> parts[k] != []
    ensures Join(parts, sep) != []
    ensures Join(parts, sep)[0] == parts[0][0]
    ensures Join(parts, sep)[|Join(parts, sep)| - 1] == parts[|parts| - 1][|parts[|parts| - 1]| - 1]
  {
    if |parts| > 1 {
      JoinEnds(parts[..|parts| - 1], sep);
    }
  }

  lemma JoinStripped(parts: seq<string>, sep: string)
    requires forall k :: 0 <= k < |parts| ==> parts[k] != [] && IsStripped(parts[k])
    ensures IsStripped(Join(parts, sep))
  {
    if |parts| > 0 {
      JoinEnds(parts, sep);
    }
  }

  /** One more character for str.split: a separator opens a new piece,
      anything else extends the last one. */
  function Extend(pieces: seq<string>, c: char, sep: char): (r: seq<string>)
    requires |pieces| >= 1
    ensures |r| >= 1
  {
    if c == sep then pieces + [[]]
    else pieces[..|pieces| - 1] + [pieces[|pieces| - 1] + [c]]
  }

  /** str.split(sep) with a one-character separator: always at least one piece. */
  function SplitOn(s: string, sep: char): (pieces: seq<string>)
    ensures |pieces| >= 1
  {
    if s == [] then [[]]
    else Extend(SplitOn(s[..|s| - 1], sep), s[|s| - 1], sep)
  }

  lemma ExtendAppend(left: seq<string>, right: seq<string>, c: char, sep: char)
    requires |right| >= 1
    ensures Extend(left + right, c, sep) == left + Extend(right, c, sep)
  {
    var prev := left + right;
    if c != sep {
      assert prev[..|prev| - 1] == left + right[..|right| - 1];
      assert prev[|prev| - 1] == right[|right| - 1];
    }
  }

  lemma {:induction false} SplitOnNoSep(s: string, sep: char)
    requires sep !in s
    ensures SplitOn(s, sep) == [s]
  {
    if s != [] {
      var init := s[..|s| - 1];
      assert sep !in init by {
        forall k | 0 <= k < |init| ensures init[k] != sep { assert init[k] == s[k]; }
      }
      SplitOnNoSep(init, sep);
      assert s == init + [s[|s| - 1]];
    }
  }

  /** Splitting at an occurrence of the separator splits the pieces there. */
  lemma {:induction false} SplitOnAppend(a: string, sep: char, b: string)
    ensures SplitOn(a + [sep] + b, sep) == SplitOn(a, sep) + SplitOn(b, sep)
  {
    var x := a + [sep] + b;
    if b == [] {
      assert x[..|x| - 1] == a;
    } else {
      var init := b[..|b| - 1];
      var c := b[|b| - 1];
      var y := a + [sep] + init;
      assert x == y + [c];
      assert x[..|x| - 1] == y && x[|x| - 1] == c;
      SplitOnAppend(a, sep, init);
      calc {
        SplitOn(x, sep);
        Extend(SplitOn(y, sep), c, sep);
        Extend(SplitOn(a, sep) + SplitOn(init, sep), c, sep);
        { ExtendAppend(SplitOn(a, sep), SplitOn(init, sep), c, sep); }
        SplitOn(a, sep) + Extend(SplitOn(init, sep), c, sep);
        SplitOn(a, sep) + SplitOn(b, sep);
      }
    }
  }

  /** str.split undoes str.join when no part contains the separator. */
  lemma {:induction false} SplitJoin(parts: seq<string>, sep: char)
    requires |parts| > 0
    requires forall k :: 0 <= k < |parts| ==> sep !in parts[k]
    ensures SplitOn(Join(parts, [sep]), sep) == parts
  {
    if |parts| == 1 {
      SplitOnNoSep(parts[0], sep);
    } else {
      var init, last := parts[..|parts| - 1], parts[|parts| - 1];
      assert forall k :: 0 <= k < |init| ==> sep !in init[k] by {
        forall k | 0 <= k < |init| ensures sep !in init[k] { assert init[k] == parts[k]; }
      }
      SplitJoin(init, sep);
      assert Join(parts, [sep]) == Join(init, [sep]) + [sep] + last;
      SplitOnAppend(Join(init, [sep]), sep, last);
      SplitOnNoSep(last, sep);
      assert parts == init + [last];
    }
  }

  function Min(a: int, b: int): int { if a <= b then a else b }

  function Max(a: int, b: int): int { if a >= b then a else b }

  /** Python's xs[:n], where a negative n counts from the end. */
  function TakePrefix<T>(xs: seq<T>, n: int): (r: seq<T>)
    ensures n >= 0 ==> |r| == Min(n, |xs|)
    ensures n < 0 ==> |r| == Max(|xs| + n, 0)
    ensures r == xs[..|r|]
  {
    if n >= 0 then xs[..Min(n, |xs|)] else xs[..Max(|xs| + n, 0)]
  }
}
