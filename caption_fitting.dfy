/** Typesetting a node's caption inside its circle (`fitCaptionIntoCircle`):
    the caption is cut to what the circle can hold, split at spaces, and
    packed greedily into 1, 2, ... lines, each as wide as the circle's chord
    at that height; the first packing without an empty line that uses every
    word wins, and a word that does not fit is shortened with an ellipsis.
    The node radius is the constant 25 the code uses. */
module CaptionFitting {
  import opened JsNumbers

  const Radius: real := 25.0
  const Ellipsis: char := '\U{2026}'

  // ---------------------------------------------------------------------
  // Numbers that may be NaN

  /** A line width: `Math.sqrt` of a negative number is NaN, and every
      comparison with NaN is false. */
  datatype Num = Finite(v: real) | NaN

  function Sub(a: Num, b: real): Num
  {
    if a.Finite? then Finite(a.v - b) else NaN
  }

  /** JavaScript's `a < b` when b may be NaN. */
  predicate LessThan(a: real, b: Num)
  {
    b.Finite? && a < b.v
  }

  // ---------------------------------------------------------------------
  // Splitting at spaces

  /** `s.split(' ')`. */
  function Split(s: string): (words: seq<string>)
    ensures |words| >= 1
  {
    if s == [] then [""]
    else
      var rest := Split(s[1..]);
      if s[0] == ' ' then [""] + rest
      else [[s[0]] + rest[0]] + rest[1..]
  }

  /** `words.join(' ')`. */
  function Join(words: seq<string>): string
  {
    if words == [] then ""
    else if |words| == 1 then words[0]
    else words[0] + " " + Join(words[1..])
  }

  /** Splitting at spaces loses nothing: joining the words with spaces gives
      back the text. */
  lemma {:induction false} JoinSplit(s: string)
    ensures Join(Split(s)) == s
  {
    if s != [] {
      var rest := Split(s[1..]);
      JoinSplit(s[1..]);
      if s[0] == ' ' {
        assert ([""] + rest)[1..] == rest;
      } else {
        var words := [[s[0]] + rest[0]] + rest[1..];
        if |rest| > 1 {
          assert words[1..] == rest[1..];
          assert Join(rest) == rest[0] + " " + Join(rest[1..]);
        }
      }
    }
  }

  /** No word contains a space. */
  lemma {:induction false} SplitWordsHaveNoSpaces(s: string)
    ensures forall w <- Split(s), i | 0 <= i < |w| :: w[i] != ' '
  {
    if s != [] {
      SplitWordsHaveNoSpaces(s[1..]);
    }
  }



  /** `text.split(' ').slice(0, -1).join(' ')`: the text before its last
      space, or nothing when it has none. */
  function DropLastWord(text: string): (r: string)
    ensures |r| <= |text|
  {
    if text == [] then ""
    else if text[|text| - 1] == ' ' then text[..|text| - 1]
    else DropLastWord(text[..|text| - 1])
  }

  /** On a line built by appending " word" to it, dropping the last word
      gives back the line as it was before that word. */
  lemma {:induction false} DropLastWordOfAppended(text: string, word: string)
    requires forall i | 0 <= i < |word| :: word[i] != ' '
    ensures DropLastWord(text + " " + word) == text
    decreases |word|
  {
    var t := text + " " + word;
    if word == [] {
      assert t[..|t| - 1] == text;
    } else {
      var shorter := word[..|word| - 1];
      assert t[..|t| - 1] == text + " " + shorter;
      DropLastWordOfAppended(text, shorter);
    }
  }

  // ---------------------------------------------------------------------
  // Lines

  /** One line of the caption: its text, its baseline relative to the
      centre, and the width still free on it. */
  datatype CaptionLine = CaptionLine(text: string, baseline: real, remainingWidth: Num)

  /** The fixed inputs of one typesetting run. */
  datatype Layout = Layout(words: seq<string>, measure: string -> real, space: real, fontSize: real, math: MathPrimitives)
  {
    ghost predicate Valid()
    {
      fontSize > 0.0
    }
  }

  function Baseline(lineCount: nat, lineIndex: nat, fontSize: real): real
  {
    (1.0 + lineIndex as real - lineCount as real / 2.0) * fontSize
  }

  /** `emptyLine`: no text, and the chord width of the circle at the line's
      edge farthest from the centre (NaN when that edge is outside the
      circle). */
  function EmptyLine(lineCount: nat, lineIndex: nat, fontSize: real, math: MathPrimitives): CaptionLine
  {
    var baseline := Baseline(lineCount, lineIndex, fontSize);
    var chordCentreDistance :=
      if (lineIndex as real) < lineCount as real / 2.0 then baseline - fontSize / 2.0 else baseline + fontSize / 2.0;
    var square := Radius * Radius - chordCentreDistance * chordCentreDistance;
    var width := if square >= 0.0 then Finite(math.sqrt(square) * 2.0) else NaN;
    CaptionLine("", baseline, width)
  }

  /** A fresh line is empty and no wider than the circle: its free width is
      NaN or lies between 0 and the diameter. */
  lemma EmptyLineWithinDiameter(lineCount: nat, lineIndex: nat, fontSize: real, math: MathPrimitives)
    requires math.Valid()
    ensures var line := EmptyLine(lineCount, lineIndex, fontSize, math);
      line.text == "" && (line.remainingWidth.Finite? ==> 0.0 <= line.remainingWidth.v <= 2.0 * Radius)
  {
    var line := EmptyLine(lineCount, lineIndex, fontSize, math);
    var baseline := Baseline(lineCount, lineIndex, fontSize);
    var d :=
      if (lineIndex as real) < lineCount as real / 2.0 then baseline - fontSize / 2.0 else baseline + fontSize / 2.0;
    var square := Radius * Radius - d * d;
    if square >= 0.0 {
      var r := math.sqrt(square);
      SquareNonNegative(d);
      assert square <= Radius * Radius;
      if r > Radius {
        MulStrictMonotonic(Radius, r, Radius);
        MulStrictMonotonic(Radius, r, r);
      }
    }
  }

  /** Lines of one packing are one font size apart and centred: the top of
      the first line and the baseline of the last are symmetric about the
      circle's centre. */
  lemma BaselinesCentred(lineCount: nat, fontSize: real)
    requires lineCount >= 1
    ensures forall i | 0 <= i < lineCount - 1 ::
      Baseline(lineCount, i + 1, fontSize) - Baseline(lineCount, i, fontSize) == fontSize
    ensures Baseline(lineCount, 0, fontSize) - fontSize == -Baseline(lineCount, lineCount - 1, fontSize)
  {
  }

  // ---------------------------------------------------------------------
  // Filling one line

  /** " w1 w2 ... wn": how the code appends words to a line's text. */
  function Spaced(words: seq<string>): string
  {
    if words == [] then "" else " " + words[0] + Spaced(words[1..])
  }

  /** Width used by a run of words, each followed by one space. */
  function Cost(widths: seq<real>, space: real): real
  {
    if widths == [] then 0.0 else widths[0] + space + Cost(widths[1..], space)
  }

  function Widths(layout: Layout): seq<real>
  {
    seq(|layout.words|, k requires 0 <= k < |layout.words| => layout.measure(layout.words[k]))
  }

  datatype Filled = Filled(line: CaptionLine, next: nat)

  /** The inner loop of `fitOnFixedNumberOfLines`: append words while the
      next one is narrower than the free width minus a space. */
  function FillLine(layout: Layout, line: CaptionLine, from: nat): Filled
    requires from <= |layout.words|
    decreases |layout.words| - from
  {
    var words := layout.words;
    if from < |words| && LessThan(layout.measure(words[from]), Sub(line.remainingWidth, layout.space)) then
      FillLine(layout,
        line.(text := line.text + " " + words[from],
              remainingWidth := Sub(line.remainingWidth, layout.measure(words[from]) + layout.space)),
        from + 1)
    else Filled(line, from)
  }

  /** The packing rule, part one: words are taken in order and none is
      skipped, and the free width drops by exactly each taken word plus a
      space. */
  lemma {:induction false} FillLineConsumes(layout: Layout, line: CaptionLine, from: nat)
    requires from <= |layout.words|
    ensures var f := FillLine(layout, line, from);
      && from <= f.next <= |layout.words|
      && f.line.baseline == line.baseline
      && f.line.text == line.text + Spaced(layout.words[from..f.next])
      && f.line.remainingWidth == Sub(line.remainingWidth, Cost(Widths(layout)[from..f.next], layout.space))
    decreases |layout.words| - from
  {
    var words := layout.words;
    var widths := Widths(layout);
    var f := FillLine(layout, line, from);
    if from < |words| && LessThan(widths[from], Sub(line.remainingWidth, layout.space)) {
      var line' := line.(text := line.text + " " + words[from],
                         remainingWidth := Sub(line.remainingWidth, widths[from] + layout.space));
      FillLineConsumes(layout, line', from + 1);
      assert f == FillLine(layout, line', from + 1);
      assert words[from..f.next][1..] == words[from + 1..f.next];
      assert widths[from..f.next][1..] == widths[from + 1..f.next];
    } else {
      assert Cost(widths[from..from], layout.space) == 0.0;
      assert Spaced(words[from..from]) == "";
    }
  }

  /** The packing rule, part two: each taken word was narrower than the
      width left at its turn minus a space, and the word that stopped the
      line (if any) was not. */
  lemma {:induction false} FillLineFits(layout: Layout, line: CaptionLine, from: nat)
    requires from <= |layout.words|
    ensures var f := FillLine(layout, line, from);
      var widths := Widths(layout);
      && from <= f.next <= |layout.words|
      && (forall k | from <= k < f.next ::
            LessThan(widths[k], Sub(Sub(line.remainingWidth, Cost(widths[from..k], layout.space)), layout.space)))
      && (f.next < |layout.words| ==>
            !LessThan(widths[f.next], Sub(Sub(line.remainingWidth, Cost(widths[from..f.next], layout.space)), layout.space)))
    decreases |layout.words| - from
  {
    var words := layout.words;
    var widths := Widths(layout);
    var f := FillLine(layout, line, from);
    FillLineConsumes(layout, line, from);
    if from < |words| && LessThan(widths[from], Sub(line.remainingWidth, layout.space)) {
      var line' := line.(text := line.text + " " + words[from],
                         remainingWidth := Sub(line.remainingWidth, widths[from] + layout.space));
      FillLineFits(layout, line', from + 1);
      assert f == FillLine(layout, line', from + 1);
      forall k | from <= k <= f.next
        ensures Sub(Sub(line.remainingWidth, Cost(widths[from..k], layout.space)), layout.space)
             == (if k == from then Sub(line.remainingWidth, layout.space)
                 else Sub(Sub(line'.remainingWidth, Cost(widths[from + 1..k], layout.space)), layout.space))
      {
        if k > from {
          assert widths[from..k][1..] == widths[from + 1..k];
        } else {
          assert Cost(widths[from..from], layout.space) == 0.0;
        }
      }
    } else {
      assert Cost(widths[from..from], layout.space) == 0.0;
    }
  }

  // ---------------------------------------------------------------------
  // Packing a fixed number of lines

  datatype Typeset = Typeset(lines: seq<CaptionLine>, wordIndex: nat)

  /** Lines `lineIndex` .. `lineCount - 1`, filled from word `from` on. */
  function PackLines(layout: Layout, lineCount: nat, lineIndex: nat, from: nat): Typeset
    requires layout.Valid() && from <= |layout.words|
    decreases lineCount - lineIndex
  {
    if lineIndex >= lineCount then Typeset([], from)
    else
      var f := FillLine(layout, EmptyLine(lineCount, lineIndex, layout.fontSize, layout.math), from);
      FillLineConsumes(layout, EmptyLine(lineCount, lineIndex, layout.fontSize, layout.math), from);
      var rest := PackLines(layout, lineCount, lineIndex + 1, f.next);
      Typeset([f.line] + rest.lines, rest.wordIndex)
  }

  function Texts(lines: seq<CaptionLine>): string
  {
    if lines == [] then "" else lines[0].text + Texts(lines[1..])
  }

  lemma TextsCons(line: CaptionLine, rest: seq<CaptionLine>)
    ensures Texts([line] + rest) == line.text + Texts(rest)
  {
    assert ([line] + rest)[1..] == rest;
  }

  lemma SliceSplit<T>(s: seq<T>, a: nat, b: nat, c: nat)
    requires a <= b <= c <= |s|
    ensures s[a..c] == s[a..b] + s[b..c]
  {
  }

  lemma {:induction false} SpacedAppend(a: seq<string>, b: seq<string>)
    ensures Spaced(a + b) == Spaced(a) + Spaced(b)
  {
    if a != [] {
      assert (a + b)[1..] == a[1..] + b;
      SpacedAppend(a[1..], b);
    } else {
      assert a + b == b;
    }
  }

  /** Packing `lineCount` lines: one line per index with the baseline of its
      index, and the word index never moves backwards and stays within the
      words. */
  lemma {:induction false} PackLinesShape(layout: Layout, lineCount: nat, lineIndex: nat, from: nat)
    requires layout.Valid() && from <= |layout.words| && lineIndex <= lineCount
    ensures var t := PackLines(layout, lineCount, lineIndex, from);
      && |t.lines| == lineCount - lineIndex
      && from <= t.wordIndex <= |layout.words|
      && forall i | 0 <= i < |t.lines| :: t.lines[i].baseline == Baseline(lineCount, lineIndex + i, layout.fontSize)
    decreases lineCount - lineIndex
  {
    var t := PackLines(layout, lineCount, lineIndex, from);
    if lineIndex < lineCount {
      var first := EmptyLine(lineCount, lineIndex, layout.fontSize, layout.math);
      var f := FillLine(layout, first, from);
      FillLineConsumes(layout, first, from);
      PackLinesShape(layout, lineCount, lineIndex + 1, f.next);
      assert t.lines[1..] == PackLines(layout, lineCount, lineIndex + 1, f.next).lines;
    }
  }

  /** Read one after the other, the packed lines hold exactly the words
      consumed, in order. */
  lemma {:induction false} PackLinesTexts(layout: Layout, lineCount: nat, lineIndex: nat, from: nat)
    requires layout.Valid() && from <= |layout.words| && lineIndex <= lineCount
    ensures var t := PackLines(layout, lineCount, lineIndex, from);
      from <= t.wordIndex <= |layout.words| && Texts(t.lines) == Spaced(layout.words[from..t.wordIndex])
    decreases lineCount - lineIndex
  {
    if lineIndex < lineCount {
      var first := EmptyLine(lineCount, lineIndex, layout.fontSize, layout.math);
      var f := FillLine(layout, first, from);
      FillLineConsumes(layout, first, from);
      PackLinesStep(layout, lineCount, lineIndex, from, f.line, f.next);
      var rest := PackLines(layout, lineCount, lineIndex + 1, f.next);
      PackLinesTexts(layout, lineCount, lineIndex + 1, f.next);
      TextsCons(f.line, rest.lines);
      SliceSplit(layout.words, from, f.next, rest.wordIndex);
      SpacedAppend(layout.words[from..f.next], layout.words[f.next..rest.wordIndex]);
    } else {
      assert layout.words[from..from] == [];
    }
  }

  /** `addShortenedNextWord`: drop characters from the end of the word until
      its first length - 2 characters plus an ellipsis fit the line; then it
      replaces the line's last word. A word of two characters or fewer is
      given the ellipsis as it is. */
  function ShortenedNextWord(line: CaptionLine, word: string, measure: string -> real): (r: string)
    ensures |r| > 0 && r[|r| - 1] == Ellipsis
    decreases |word|
  {
    if |word| > 2 then
      var newWord := word[..|word| - 2] + [Ellipsis];
      if LessThan(measure(newWord), line.remainingWidth) then DropLastWord(line.text) + " " + newWord
      else ShortenedNextWord(line, word[..|word| - 1], measure)
    else word + [Ellipsis]
  }

  method AddShortenedNextWord(line: CaptionLine, word: string, measure: string -> real) returns (r: string)
    ensures r == ShortenedNextWord(line, word, measure)
  {
    var w := word;
    while |w| > 2
      invariant ShortenedNextWord(line, w, measure) == ShortenedNextWord(line, word, measure)
    {
      var newWord := w[..|w| - 2] + [Ellipsis];
      if LessThan(measure(newWord), line.remainingWidth) {
        return DropLastWord(line.text) + " " + newWord;
      }
      w := w[..|w| - 1];
    }
    return w + [Ellipsis];
  }

  /** `fitOnFixedNumberOfLines`: the packing, with the word that did not fit
      squeezed onto the last line. */
  function FixedLines(layout: Layout, lineCount: nat): Typeset
    requires layout.Valid() && lineCount >= 1
  {
    var t := PackLines(layout, lineCount, 0, 0);
    PackLinesShape(layout, lineCount, 0, 0);
    if t.wordIndex < |layout.words| then
      var last := t.lines[lineCount - 1];
      Typeset(t.lines[lineCount - 1 := last.(text := ShortenedNextWord(last, layout.words[t.wordIndex], layout.measure))],
              t.wordIndex)
    else t
  }

  /** Line `lineIndex` is the filled empty line, the rest follow it. */
  lemma PackLinesStep(layout: Layout, lineCount: nat, lineIndex: nat, from: nat, line: CaptionLine, next: nat)
    requires layout.Valid() && from <= |layout.words| && lineIndex < lineCount
    requires Filled(line, next) == FillLine(layout, EmptyLine(lineCount, lineIndex, layout.fontSize, layout.math), from)
    ensures from <= next <= |layout.words|
    ensures PackLines(layout, lineCount, lineIndex, from)
         == Typeset([line] + PackLines(layout, lineCount, lineIndex + 1, next).lines,
                    PackLines(layout, lineCount, lineIndex + 1, next).wordIndex)
  {
    FillLineConsumes(layout, EmptyLine(lineCount, lineIndex, layout.fontSize, layout.math), from);
  }

  /** The inner loop of `fitOnFixedNumberOfLines`, over the measured
      widths of the words. */
  method FillOneLine(layout: Layout, widths: seq<real>, first: CaptionLine, from: nat)
    returns (line: CaptionLine, wordIndex: nat)
    requires from <= |layout.words| && |widths| == |layout.words|
    requires forall k | 0 <= k < |widths| :: widths[k] == layout.measure(layout.words[k])
    ensures Filled(line, wordIndex) == FillLine(layout, first, from)
  {
    var words := layout.words;
    line := first;
    wordIndex := from;
    while wordIndex < |words| && LessThan(widths[wordIndex], Sub(line.remainingWidth, layout.space))
      invariant from <= wordIndex <= |words|
      invariant FillLine(layout, first, from) == FillLine(layout, line, wordIndex)
      decreases |words| - wordIndex
    {
      line := line.(text := line.text + " " + words[wordIndex],
                    remainingWidth := Sub(line.remainingWidth, widths[wordIndex] + layout.space));
      wordIndex := wordIndex + 1;
    }
  }

  /** The outcome of one fixed packing: exactly `lineCount` lines, centred
      and one font size apart, a word index within the words, the words
      before it on the lines in order when all of them fit, and otherwise a
      last line that ends with an ellipsis. */
  lemma FixedLinesSpec(layout: Layout, lineCount: nat)
    requires layout.Valid() && lineCount >= 1
    ensures var t := FixedLines(layout, lineCount);
      && |t.lines| == lineCount
      && t.wordIndex <= |layout.words|
      && (forall i | 0 <= i < lineCount :: t.lines[i].baseline == Baseline(lineCount, i, layout.fontSize))
      && (t.wordIndex == |layout.words| ==> Texts(t.lines) == Spaced(layout.words))
      && (t.wordIndex < |layout.words| ==>
            var last := t.lines[lineCount - 1].text; |last| > 0 && last[|last| - 1] == Ellipsis)
  {
    PackLinesShape(layout, lineCount, 0, 0);
    PackLinesTexts(layout, lineCount, 0, 0);
    assert layout.words[0..|layout.words|] == layout.words;
  }

  method FitOnFixedNumberOfLines(layout: Layout, lineCount: nat) returns (t: Typeset)
    requires layout.Valid() && lineCount >= 1
    ensures t == FixedLines(layout, lineCount)
  {
    var words := layout.words;
    var widths := seq(|words|, k requires 0 <= k < |words| => layout.measure(words[k]));
    var lines: seq<CaptionLine> := [];
    var wordIndex: nat := 0;
    ghost var packed := PackLines(layout, lineCount, 0, 0);
    for lineIndex := 0 to lineCount
      invariant wordIndex <= |words| && |lines| == lineIndex
      invariant packed == Typeset(lines + PackLines(layout, lineCount, lineIndex, wordIndex).lines,
                                  PackLines(layout, lineCount, lineIndex, wordIndex).wordIndex)
    {
      ghost var from := wordIndex;
      var line;
      line, wordIndex := FillOneLine(layout, widths, EmptyLine(lineCount, lineIndex, layout.fontSize, layout.math), wordIndex);
      PackLinesStep(layout, lineCount, lineIndex, from, line, wordIndex);
      ghost var rest := PackLines(layout, lineCount, lineIndex + 1, wordIndex);
      assert lines + ([line] + rest.lines) == (lines + [line]) + rest.lines;
      lines := lines + [line];
    }
    assert lines + [] == lines;
    assert packed == Typeset(lines, wordIndex);
    if wordIndex < |words| {
      var shortened := AddShortenedNextWord(lines[lineCount - 1], words[wordIndex], layout.measure);
      lines := lines[lineCount - 1 := lines[lineCount - 1].(text := shortened)];
    }
    return Typeset(lines, wordIndex);
  }

  // ---------------------------------------------------------------------
  // The whole caption

  /** `maxCaptionTextLength`: the area of the circle over the square of the
      font size, rounded down. */
  function MaxCaptionTextLength(fontSize: real, math: MathPrimitives): (n: nat)
    requires fontSize > 0.0 && math.Valid()
    ensures n as real <= Radius * Radius * math.pi / (fontSize * fontSize)
  {
    MulStrictMonotonic(0.0, fontSize, fontSize);
    (Radius * Radius * math.pi / (fontSize * fontSize)).Floor
  }

  /** The caption cut to at most `maxLength` characters. */
  function CaptionText(nodeText: string, maxLength: nat): (r: string)
    ensures |r| <= maxLength && r <= nodeText
    ensures |nodeText| <= maxLength ==> r == nodeText
  {
    if |nodeText| > maxLength then nodeText[..maxLength] else nodeText
  }

  predicate NoEmptyLine(lines: seq<CaptionLine>)
  {
    forall line <- lines :: line.text != ""
  }

  /** The largest line count the loop tries: `lineCount <= 2 * radius / fontSize`. */
  function MaxLines(fontSize: real): real
    requires fontSize > 0.0
  {
    2.0 * Radius / fontSize
  }

  /** The typesetting loop from `lineCount` on, with the lines and word
      count of the best packing so far. */
  function TypesetFrom(layout: Layout, lineCount: nat, lines: seq<CaptionLine>, consumed: nat): seq<CaptionLine>
    requires layout.Valid() && lineCount >= 1
    decreases MaxLines(layout.fontSize).Floor + 1 - lineCount
  {
    if lineCount as real > MaxLines(layout.fontSize) then lines
    else
      var candidate := FixedLines(layout, lineCount);
      var lines' := if NoEmptyLine(candidate.lines) then candidate.lines else lines;
      var consumed' := if NoEmptyLine(candidate.lines) then candidate.wordIndex else consumed;
      if consumed' >= |layout.words| then lines'
      else TypesetFrom(layout, lineCount + 1, lines', consumed')
  }

  /** The caption the code draws for `nodeText`. */
  function FitCaption(nodeText: string, fontSize: real, measure: string -> real, math: MathPrimitives): seq<CaptionLine>
    requires fontSize > 0.0 && math.Valid()
  {
    TypesetFrom(CaptionLayout(nodeText, fontSize, measure, math), 1, [EmptyLine(1, 0, fontSize, math)], 0)
  }

  /** The words of the cut caption, with the measures the packing uses. */
  function CaptionLayout(nodeText: string, fontSize: real, measure: string -> real, math: MathPrimitives): Layout
    requires fontSize > 0.0 && math.Valid()
  {
    Layout(Split(CaptionText(nodeText, MaxCaptionTextLength(fontSize, math))), measure, measure(" "), fontSize, math)
  }

  /** What the loop keeps: the initial single empty line, or a candidate
      packing of some line count that has no empty line. */
  ghost predicate Acceptable(layout: Layout, lines: seq<CaptionLine>)
    requires layout.Valid()
  {
    || lines == [EmptyLine(1, 0, layout.fontSize, layout.math)]
    || exists k: nat | 1 <= k && k as real <= MaxLines(layout.fontSize) ::
         lines == FixedLines(layout, k).lines && NoEmptyLine(lines)
  }

  /** A packing the loop stops at: no empty line, and every word placed. */
  predicate Complete(layout: Layout, k: nat)
    requires layout.Valid() && k >= 1
  {
    NoEmptyLine(FixedLines(layout, k).lines) && FixedLines(layout, k).wordIndex >= |layout.words|
  }

  lemma {:induction false} TypesetFromSpec(layout: Layout, lineCount: nat, lines: seq<CaptionLine>, consumed: nat)
    requires layout.Valid() && lineCount >= 1 && Acceptable(layout, lines)
    ensures Acceptable(layout, TypesetFrom(layout, lineCount, lines, consumed))
    decreases MaxLines(layout.fontSize).Floor + 1 - lineCount
  {
    if lineCount as real <= MaxLines(layout.fontSize) {
      var candidate := FixedLines(layout, lineCount);
      var lines' := if NoEmptyLine(candidate.lines) then candidate.lines else lines;
      assert Acceptable(layout, lines');
      var consumed' := if NoEmptyLine(candidate.lines) then candidate.wordIndex else consumed;
      if consumed' < |layout.words| {
        TypesetFromSpec(layout, lineCount + 1, lines', consumed');
      }
    }
  }

  /** The stop rule: when the loop reaches a line count with words still
      to place, the caption is the packing of the first line count from
      there on that is complete. */
  lemma {:induction false} FirstCompleteWins(layout: Layout, lineCount: nat, lines: seq<CaptionLine>, consumed: nat, k: nat)
    requires layout.Valid() && 1 <= lineCount <= k && k as real <= MaxLines(layout.fontSize)
    requires consumed < |layout.words|
    requires Complete(layout, k)
    requires forall j | lineCount <= j < k :: !Complete(layout, j)
    ensures TypesetFrom(layout, lineCount, lines, consumed) == FixedLines(layout, k).lines
    decreases k - lineCount
  {
    if lineCount < k {
      assert !Complete(layout, lineCount);
      var candidate := FixedLines(layout, lineCount);
      var lines' := if NoEmptyLine(candidate.lines) then candidate.lines else lines;
      var consumed' := if NoEmptyLine(candidate.lines) then candidate.wordIndex else consumed;
      FirstCompleteWins(layout, lineCount + 1, lines', consumed', k);
    }
  }

  /** The caption is the first complete packing, when there is one within
      the line counts the loop tries. */
  lemma FitCaptionFirstComplete(nodeText: string, fontSize: real, measure: string -> real, math: MathPrimitives, k: nat)
    requires fontSize > 0.0 && math.Valid()
    requires 1 <= k && k as real <= MaxLines(fontSize)
    requires Complete(CaptionLayout(nodeText, fontSize, measure, math), k)
    requires forall j | 1 <= j < k :: !Complete(CaptionLayout(nodeText, fontSize, measure, math), j)
    ensures FitCaption(nodeText, fontSize, measure, math) == FixedLines(CaptionLayout(nodeText, fontSize, measure, math), k).lines
  {
    var layout := CaptionLayout(nodeText, fontSize, measure, math);
    FirstCompleteWins(layout, 1, [EmptyLine(1, 0, fontSize, math)], 0, k);
  }

  /** The caption always has at least one line, and it is either the
      single empty line the loop starts from or the packing into some line
      count the loop tries, none of whose lines is empty. */
  lemma FitCaptionSpec(nodeText: string, fontSize: real, measure: string -> real, math: MathPrimitives)
    requires fontSize > 0.0 && math.Valid()
    ensures |FitCaption(nodeText, fontSize, measure, math)| >= 1
    ensures var lines := FitCaption(nodeText, fontSize, measure, math);
      var layout := CaptionLayout(nodeText, fontSize, measure, math);
      || lines == [EmptyLine(1, 0, fontSize, math)]
      || exists k: nat | 1 <= k && k as real <= MaxLines(fontSize) ::
           lines == FixedLines(layout, k).lines && NoEmptyLine(lines)
  {
    var layout := CaptionLayout(nodeText, fontSize, measure, math);
    TypesetFromSpec(layout, 1, [EmptyLine(1, 0, fontSize, math)], 0);
    var lines := FitCaption(nodeText, fontSize, measure, math);
    if lines != [EmptyLine(1, 0, fontSize, math)] {
      var k: nat :| 1 <= k && k as real <= MaxLines(fontSize) && lines == FixedLines(layout, k).lines && NoEmptyLine(lines);
      FixedLinesSpec(layout, k);
    }
  }

  /** Past the largest line count, the lines found so far are the caption. */
  lemma TypesetFromEnd(layout: Layout, lineCount: nat, lines: seq<CaptionLine>, consumed: nat)
    requires layout.Valid() && lineCount >= 1 && lineCount as real > MaxLines(layout.fontSize)
    ensures TypesetFrom(layout, lineCount, lines, consumed) == lines
  {
  }

  /** One turn of the line-count loop: keep the candidate when it has no
      empty line, stop once every word is placed, else try one line more. */
  lemma TypesetFromStep(layout: Layout, lineCount: nat, lines: seq<CaptionLine>, consumed: nat,
                        candidate: Typeset, lines': seq<CaptionLine>, consumed': nat)
    requires layout.Valid() && lineCount >= 1 && lineCount as real <= MaxLines(layout.fontSize)
    requires candidate == FixedLines(layout, lineCount)
    requires lines' == if NoEmptyLine(candidate.lines) then candidate.lines else lines
    requires consumed' == if NoEmptyLine(candidate.lines) then candidate.wordIndex else consumed
    ensures consumed' >= |layout.words| ==> TypesetFrom(layout, lineCount, lines, consumed) == lines'
    ensures consumed' < |layout.words| ==>
      TypesetFrom(layout, lineCount, lines, consumed) == TypesetFrom(layout, lineCount + 1, lines', consumed')
  {
  }

  /** `fitCaptionIntoCircle`, with the style lookups (font size, caption
      text) and the canvas text measure passed in. */
  method FitCaptionIntoCircle(nodeText: string, fontSize: real, measure: string -> real, math: MathPrimitives)
    returns (lines: seq<CaptionLine>)
    requires fontSize > 0.0 && math.Valid()
    ensures lines == FitCaption(nodeText, fontSize, measure, math)
  {
    var maxCaptionTextLength := MaxCaptionTextLength(fontSize, math);
    var captionText := CaptionText(nodeText, maxCaptionTextLength);
    var words := Split(captionText);
    var layout := Layout(words, measure, measure(" "), fontSize, math);
    var consumedWords: nat := 0;
    var maxLines := MaxLines(fontSize);
    lines := [EmptyLine(1, 0, fontSize, math)];
    var lineCount := 1;
    ghost var caption := TypesetFrom(layout, lineCount, lines, consumedWords);
    assert caption == FitCaption(nodeText, fontSize, measure, math);
    while lineCount as real <= maxLines
      invariant lineCount >= 1
      invariant TypesetFrom(layout, lineCount, lines, consumedWords) == caption
      decreases maxLines.Floor + 1 - lineCount
    {
      var candidate := FitOnFixedNumberOfLines(layout, lineCount);
      ghost var lines0 := lines;
      ghost var consumed0 := consumedWords;
      if NoEmptyLine(candidate.lines) {
        lines := candidate.lines;
        consumedWords := candidate.wordIndex;
      }
      TypesetFromStep(layout, lineCount, lines0, consumed0, candidate, lines, consumedWords);
      if consumedWords >= |words| {
        return;
      }
      assert TypesetFrom(layout, lineCount + 1, lines, consumedWords) == caption;
      lineCount := lineCount + 1;
    }
    TypesetFromEnd(layout, lineCount, lines, consumedWords);
  }
}
