/** The SVG path-data tokeniser of the geometry helpers (`svgPathParser`):
    path data is cut into commands (a command letter and the text up to the
    next command letter), the numbers of each command are read with a
    number pattern, and each command yields one segment record per group of
    numbers its schema asks for. The path grammar is the one of SVG 1.1,
    section 8.3, as far as the code follows it: `1.e5` reads as the two
    numbers 1 and 5, arc flags written together read as one number, and
    text before the first command letter is skipped. */
module SvgPath {
  import opened Wrappers

  // ---------------------------------------------------------------------
  // Characters

  /** One of the ten path commands, in lower case. */
  predicate IsKind(k: char)
  {
    || k == 'm' || k == 'z' || k == 'l' || k == 'h' || k == 'v'
    || k == 'c' || k == 's' || k == 'q' || k == 't' || k == 'a'
  }

  /** A path command letter in either case. */
  predicate IsCommandLetter(c: char)
  {
    || IsKind(c)
    || c == 'M' || c == 'Z' || c == 'L' || c == 'H' || c == 'V'
    || c == 'C' || c == 'S' || c == 'Q' || c == 'T' || c == 'A'
  }

  predicate IsDigit(c: char)
  {
    '0' <= c <= '9'
  }

  predicate AllDigits(t: string)
  {
    forall i | 0 <= i < |t| :: IsDigit(t[i])
  }

  /** `toLowerCase` on the letters that can reach it. */
  function Lower(c: char): (l: char)
    ensures IsCommandLetter(c) ==> IsKind(l)
    ensures IsKind(c) ==> l == c
  {
    if 'A' <= c <= 'Z' then (c as int - 'A' as int + 'a' as int) as char else c
  }

  /** The field names a segment of each (lower-case) command carries. */
  function Schema(kind: char): (names: seq<string>)
    requires IsKind(kind)
    ensures names == [] <==> kind == 'z'
    ensures forall i, j | 0 <= i < j < |names| :: names[i] != names[j]
    ensures |names| <= 7 && (kind != 'z' ==> names[|names| - 1] in {"x", "y"})
  {
    match kind
    case 'm' => ["x", "y"]
    case 'l' => ["x", "y"]
    case 'h' => ["x"]
    case 'v' => ["y"]
    case 'c' => ["x1", "y1", "x2", "y2", "x", "y"]
    case 's' => ["x2", "y2", "x", "y"]
    case 'q' => ["x1", "y1", "x", "y"]
    case 't' => ["x", "y"]
    case 'a' => ["rx", "ry", "xRotation", "largeArc", "sweep", "x", "y"]
    case _ => []
  }

  // ---------------------------------------------------------------------
  // The segment pattern: a command letter, then every following character
  // up to the next command letter (either case).

  /** Position of the first command letter at or after `from`, or |s|. */
  function NextCommand(s: string, from: nat): (k: nat)
    requires from <= |s|
    ensures from <= k <= |s|
    ensures k < |s| ==> IsCommandLetter(s[k])
    decreases |s| - from
  {
    if from == |s| || IsCommandLetter(s[from]) then from else NextCommand(s, from + 1)
  }

  /** No command letter is skipped: the match starts at the first one. */
  lemma {:induction false} NextCommandIsFirst(s: string, from: nat)
    requires from <= |s|
    ensures forall i | from <= i < NextCommand(s, from) :: !IsCommandLetter(s[i])
    decreases |s| - from
  {
    if from < |s| && !IsCommandLetter(s[from]) {
      NextCommandIsFirst(s, from + 1);
    }
  }

  datatype Command = Command(letter: char, args: string)

  /** The successive matches of the segment pattern from `from` on, as the
      loop over `exec` finds them. */
  function Commands(s: string, from: nat): (cmds: seq<Command>)
    requires from <= |s|
    ensures forall c <- cmds :: IsCommandLetter(c.letter)
    decreases |s| - from
  {
    var k := NextCommand(s, from);
    if k == |s| then []
    else
      var e := NextCommand(s, k + 1);
      [Command(s[k], s[k + 1..e])] + Commands(s, e)
  }

  function Spelled(cmds: seq<Command>): string
  {
    if cmds == [] then [] else [cmds[0].letter] + cmds[0].args + Spelled(cmds[1..])
  }

  lemma SpelledCons(head: Command, rest: seq<Command>)
    ensures Spelled([head] + rest) == [head.letter] + head.args + Spelled(rest)
  {
    assert ([head] + rest)[1..] == rest;
  }

  lemma CutAt(s: string, k: nat, e: nat)
    requires k < e <= |s|
    ensures [s[k]] + s[k + 1..e] + s[e..] == s[k..]
  {
  }

  /** One match of the segment pattern: the command at the first letter,
      then the matches from the next letter on. */
  lemma CommandsStep(s: string, from: nat)
    requires from <= |s| && NextCommand(s, from) < |s|
    ensures var k := NextCommand(s, from); var e := NextCommand(s, k + 1);
      && k < e && NextCommand(s, e) == e
      && Commands(s, from) == [Command(s[k], s[k + 1..e])] + Commands(s, e)
  {
  }

  /** The commands spell out the input from its first command letter on:
      nothing after the first letter is dropped or read twice. */
  lemma CommandsCoverInput(s: string, from: nat)
    requires from <= |s|
    ensures Spelled(Commands(s, from)) == s[NextCommand(s, from)..]
  {
    var k := NextCommand(s, from);
    SkipToCommand(s, from);
    CoverFrom(s, k);
  }

  /** The matches from `from` are those from the first command letter. */
  lemma SkipToCommand(s: string, from: nat)
    requires from <= |s|
    ensures NextCommand(s, NextCommand(s, from)) == NextCommand(s, from)
    ensures Commands(s, from) == Commands(s, NextCommand(s, from))
  {
  }

  lemma {:induction false} CoverFrom(s: string, k: nat)
    requires k <= |s| && NextCommand(s, k) == k
    ensures Spelled(Commands(s, k)) == s[k..]
    decreases |s| - k
  {
    if k < |s| {
      var e := NextCommand(s, k + 1);
      CommandsStep(s, k);
      CoverFrom(s, e);
      SpelledStep(s, k, e, Commands(s, e), Commands(s, k));
    } else {
      NoMoreCommands(s, k);
    }
  }

  lemma NoMoreCommands(s: string, from: nat)
    requires from <= |s| && NextCommand(s, from) == |s|
    ensures Commands(s, from) == [] && Spelled(Commands(s, from)) == s[NextCommand(s, from)..]
  {
  }

  /** One command in front of commands that spell the rest of the input. */
  lemma SpelledStep(s: string, k: nat, e: nat, rest: seq<Command>, whole: seq<Command>)
    requires k < e <= |s| && whole == [Command(s[k], s[k + 1..e])] + rest && Spelled(rest) == s[e..]
    ensures Spelled(whole) == s[k..]
  {
    SpelledCons(Command(s[k], s[k + 1..e]), rest);
    CutAt(s, k, e);
  }

  predicate FreeOfCommandLetters(t: string)
  {
    forall i | 0 <= i < |t| :: !IsCommandLetter(t[i])
  }

  /** No command's arguments contain a command letter. */
  lemma CommandArgumentsHaveNoLetters(s: string, from: nat)
    requires from <= |s|
    ensures forall c <- Commands(s, from) :: FreeOfCommandLetters(c.args)
  {
    SkipToCommand(s, from);
    ArgumentsFreeFrom(s, NextCommand(s, from));
  }

  lemma {:induction false} ArgumentsFreeFrom(s: string, k: nat)
    requires k <= |s| && NextCommand(s, k) == k
    ensures forall c <- Commands(s, k) :: FreeOfCommandLetters(c.args)
    decreases |s| - k
  {
    if k < |s| {
      var e := NextCommand(s, k + 1);
      CommandsStep(s, k);
      TextBeforeNextCommand(s, k + 1);
      ArgumentsFreeFrom(s, e);
      FreeCons(Command(s[k], s[k + 1..e]), Commands(s, e), Commands(s, k));
    } else {
      NoMoreCommands(s, k);
    }
  }

  lemma FreeCons(head: Command, rest: seq<Command>, whole: seq<Command>)
    requires whole == [head] + rest && FreeOfCommandLetters(head.args)
    requires forall c <- rest :: FreeOfCommandLetters(c.args)
    ensures forall c <- whole :: FreeOfCommandLetters(c.args)
  {
    assert forall c <- whole :: c == head || c in rest;
  }

  /** The text up to the next command letter holds no command letter. */
  lemma TextBeforeNextCommand(s: string, p: nat)
    requires p <= |s|
    ensures FreeOfCommandLetters(s[p..NextCommand(s, p)])
  {
    var u := s[p..NextCommand(s, p)];
    NextCommandIsFirst(s, p);
    forall i | 0 <= i < |u| ensures !IsCommandLetter(u[i]) {
      assert u[i] == s[p + i];
    }
  }

  // ---------------------------------------------------------------------
  // The number pattern `-?[0-9]*\.?[0-9]+(?:e[-+]?\d+)?` (case-insensitive),
  // written out as the backtracking matcher resolves it.

  /** End of the run of digits starting at `p`. */
  function DigitRunEnd(s: string, p: nat): (e: nat)
    requires p <= |s|
    ensures p <= e <= |s|
    ensures AllDigits(s[p..e])
    ensures e < |s| ==> !IsDigit(s[e])
    decreases |s| - p
  {
    if p < |s| && IsDigit(s[p]) then
      var e := DigitRunEnd(s, p + 1);
      assert s[p..e] == [s[p]] + s[p + 1..e];
      e
    else p
  }

  /** End of the `[0-9]*\.?[0-9]+` part matched at `p`: digits, a point and
      digits when a digit follows the point, otherwise the digits alone. */
  function MantissaEnd(s: string, p: nat): Option<nat>
    requires p <= |s|
  {
    var e1 := DigitRunEnd(s, p);
    if e1 + 1 < |s| && s[e1] == '.' && IsDigit(s[e1 + 1]) then Some(DigitRunEnd(s, e1 + 1))
    else if e1 > p then Some(e1)
    else None
  }

  /** End of the optional exponent `e[-+]?\d+` starting at `m`. */
  function ExponentEnd(s: string, m: nat): (e: nat)
    requires m <= |s|
    ensures m <= e <= |s|
  {
    if m + 1 < |s| && (s[m] == 'e' || s[m] == 'E') then
      if IsDigit(s[m + 1]) then DigitRunEnd(s, m + 1)
      else if m + 2 < |s| && (s[m + 1] == '+' || s[m + 1] == '-') && IsDigit(s[m + 2]) then DigitRunEnd(s, m + 2)
      else m
    else m
  }

  /** End of the match of the number pattern that starts exactly at `p`. */
  function NumberEndAt(s: string, p: nat): (e: Option<nat>)
    requires p < |s|
    ensures e.Some? ==> p < e.value <= |s|
  {
    var q := if s[p] == '-' then p + 1 else p;
    match MantissaEnd(s, q)
    case None => None
    case Some(m) => Some(ExponentEnd(s, m))
  }

  /** `text.match(numberExpr) || []`: the successive leftmost matches. */
  function NumberTokens(s: string, from: nat): seq<string>
    requires from <= |s|
    decreases |s| - from
  {
    if from == |s| then []
    else match NumberEndAt(s, from)
      case Some(e) => [s[from..e]] + NumberTokens(s, e)
      case None => NumberTokens(s, from + 1)
  }

  /** The number grammar, stated independently of the matcher: an optional
      minus, a mantissa (digits, or digits, a point and at least one digit),
      then an optional exponent. */
  predicate IsMantissa(u: string)
  {
    || (|u| > 0 && AllDigits(u))
    || (exists k | 0 <= k < |u| - 1 :: u[k] == '.' && AllDigits(u[..k]) && AllDigits(u[k + 1..]))
  }

  predicate IsExponent(x: string)
  {
    && |x| >= 2
    && (x[0] == 'e' || x[0] == 'E')
    && (|| AllDigits(x[1..])
        || (|x| >= 3 && (x[1] == '+' || x[1] == '-') && AllDigits(x[2..])))
  }

  predicate IsNumberLiteral(t: string)
  {
    var u := if |t| > 0 && t[0] == '-' then t[1..] else t;
    exists m | 0 < m <= |u| :: IsMantissa(u[..m]) && (m == |u| || IsExponent(u[m..]))
  }

  lemma MantissaMatchIsMantissa(s: string, q: nat)
    requires q <= |s| && MantissaEnd(s, q).Some?
    ensures q < MantissaEnd(s, q).value
    ensures IsMantissa(s[q..MantissaEnd(s, q).value])
  {
    var e1 := DigitRunEnd(s, q);
    if e1 + 1 < |s| && s[e1] == '.' && IsDigit(s[e1 + 1]) {
      MantissaWithPoint(s, q, e1, DigitRunEnd(s, e1 + 1));
    } else {
      assert MantissaEnd(s, q).value == e1;
    }
  }

  /** Digits, a point and at least one digit form a mantissa. */
  lemma MantissaWithPoint(s: string, q: nat, e1: nat, m: nat)
    requires q <= e1 && e1 + 1 < |s| && s[e1] == '.' && IsDigit(s[e1 + 1])
    requires AllDigits(s[q..e1]) && m == DigitRunEnd(s, e1 + 1)
    ensures q < m && IsMantissa(s[q..m])
  {
    assert m > e1 + 1 by {
      assert s[e1 + 1..m] == [] || s[e1 + 1..m][0] == s[e1 + 1];
    }
    var u := s[q..m];
    var k := e1 - q;
    assert u[..k] == s[q..e1];
    assert u[k + 1..] == s[e1 + 1..m];
    assert u[k] == '.' && k < |u| - 1;
  }

  lemma ExponentMatchIsExponent(s: string, m: nat)
    requires m <= |s|
    ensures m <= ExponentEnd(s, m) <= |s|
    ensures ExponentEnd(s, m) > m ==> IsExponent(s[m..ExponentEnd(s, m)])
  {
    var x := s[m..ExponentEnd(s, m)];
    if ExponentEnd(s, m) > m {
      if IsDigit(s[m + 1]) {
        assert x[1..] == s[m + 1..ExponentEnd(s, m)];
      } else {
        assert x[2..] == s[m + 2..ExponentEnd(s, m)];
      }
    }
  }

  lemma NumberMatchIsLiteral(s: string, p: nat)
    requires p < |s| && NumberEndAt(s, p).Some?
    ensures IsNumberLiteral(s[p..NumberEndAt(s, p).value])
  {
    var q := if s[p] == '-' then p + 1 else p;
    var m := MantissaEnd(s, q).value;
    MantissaMatchIsMantissa(s, q);
    ExponentMatchIsExponent(s, m);
    LiteralFromParts(s, p, q, m, NumberEndAt(s, p).value);
  }

  /** An optional sign, a mantissa and an optional exponent, side by side,
      make a literal. */
  lemma LiteralFromParts(s: string, p: nat, q: nat, m: nat, e: nat)
    requires p < |s| && q == (if s[p] == '-' then p + 1 else p) && q < m <= e <= |s|
    requires IsMantissa(s[q..m]) && (m == e || IsExponent(s[m..e]))
    ensures IsNumberLiteral(s[p..e])
  {
    var t := s[p..e];
    var u := s[q..e];
    assert u == (if |t| > 0 && t[0] == '-' then t[1..] else t) by {
      assert t[0] == s[p];
      if s[p] == '-' {
        assert t[1..] == u;
      }
    }
    SliceAround(s, q, m, e);
    LiteralWitness(t, u, m - q);
  }

  /** Cutting `s[a..c]` at `b` gives `s[a..b]` and `s[b..c]`. */
  lemma SliceAround(s: string, a: nat, b: nat, c: nat)
    requires a <= b <= c <= |s|
    ensures s[a..c][..b - a] == s[a..b] && s[a..c][b - a..] == s[b..c]
  {
  }

  /** A mantissa of k characters, then nothing or an exponent, after the
      optional sign makes a literal. */
  lemma LiteralWitness(t: string, u: string, k: nat)
    requires u == (if |t| > 0 && t[0] == '-' then t[1..] else t)
    requires 0 < k <= |u| && IsMantissa(u[..k]) && (k == |u| || IsExponent(u[k..]))
    ensures IsNumberLiteral(t)
  {
  }

  /** Every number read from the arguments of a command is a literal of the
      number grammar. */
  lemma {:induction false} NumberTokensAreLiterals(s: string, from: nat)
    requires from <= |s|
    ensures forall t <- NumberTokens(s, from) :: IsNumberLiteral(t)
    decreases |s| - from
  {
    if from < |s| {
      match NumberEndAt(s, from)
      case Some(e) =>
        NumberMatchIsLiteral(s, from);
        NumberTokensAreLiterals(s, e);
      case None =>
        NumberTokensAreLiterals(s, from + 1);
    }
  }

  // ---------------------------------------------------------------------
  // parseFloat on a matched literal (exact decimal value, no rounding)

  function DigitsValue(d: string): nat
    requires AllDigits(d)
  {
    if d == [] then 0 else 10 * DigitsValue(d[..|d| - 1]) + (d[|d| - 1] as int - '0' as int)
  }

  function Pow10(n: int): (r: real)
    ensures r > 0.0
    decreases if n >= 0 then n else -n
  {
    if n == 0 then 1.0 else if n > 0 then 10.0 * Pow10(n - 1) else Pow10(n + 1) / 10.0
  }

  function ExponentValue(x: string): int
  {
    if |x| >= 2 && (x[0] == 'e' || x[0] == 'E') then
      var p := if x[1] == '+' || x[1] == '-' then 2 else 1;
      var d := x[p..DigitRunEnd(x, p)];
      var v: int := DigitsValue(d);
      if x[1] == '-' then -v else v
    else 0
  }

  /** A literal cut into its whole digits, its fraction digits (empty
      without a point) and its exponent part, reading from `q` on. */
  datatype NumberParts = NumberParts(whole: string, fraction: string, exponent: string)

  function PartsAt(t: string, q: nat): (parts: NumberParts)
    requires q <= |t|
    ensures AllDigits(parts.whole) && AllDigits(parts.fraction)
  {
    var e1 := DigitRunEnd(t, q);
    var hasFraction := e1 < |t| && t[e1] == '.';
    var f := if hasFraction then DigitRunEnd(t, e1 + 1) else e1;
    NumberParts(t[q..e1], if hasFraction then t[e1 + 1..f] else [], t[f..])
  }

  function Magnitude(parts: NumberParts): real
    requires AllDigits(parts.whole) && AllDigits(parts.fraction)
  {
    var fraction := DigitsValue(parts.fraction) as real / Pow10(|parts.fraction|);
    (DigitsValue(parts.whole) as real + fraction) * Pow10(ExponentValue(parts.exponent))
  }

  /** `parseFloat` on a literal of the number grammar. */
  function ParseFloat(t: string): real
  {
    if |t| > 0 && t[0] == '-' then -Magnitude(PartsAt(t, 1)) else Magnitude(PartsAt(t, 0))
  }

  /** The run of digits ends where the digits do. */
  lemma {:induction false} DigitRunEndAt(s: string, p: nat, q: nat)
    requires p <= q <= |s| && AllDigits(s[p..q]) && (q == |s| || !IsDigit(s[q]))
    ensures DigitRunEnd(s, p) == q
    decreases q - p
  {
    if p < q {
      assert IsDigit(s[p..q][0]);
      assert s[p + 1..q] == s[p..q][1..];
      DigitRunEndAt(s, p + 1, q);
    }
  }

  /** Without an exponent part the scale is one. */
  lemma MagnitudeWithoutExponent(parts: NumberParts)
    requires AllDigits(parts.whole) && AllDigits(parts.fraction) && parts.exponent == []
    ensures Magnitude(parts) == DigitsValue(parts.whole) as real + DigitsValue(parts.fraction) as real / Pow10(|parts.fraction|)
    ensures parts.fraction == [] ==> Magnitude(parts) == DigitsValue(parts.whole) as real
  {
    assert ExponentValue(parts.exponent) == 0;
    assert Pow10(0) == 1.0;
    if parts.fraction == [] {
      assert DigitsValue(parts.fraction) == 0;
    }
  }

  /** Without a leading sign the literal is read from its first character. */
  lemma ParseFloatUnsigned(t: string)
    requires t == [] || t[0] != '-'
    ensures ParseFloat(t) == Magnitude(PartsAt(t, 0))
  {
  }

  lemma PartsOfInteger(d: string)
    requires AllDigits(d)
    ensures PartsAt(d, 0) == NumberParts(d, [], [])
  {
    assert d[0..|d|] == d && d[|d|..] == [];
    DigitRunEndAt(d, 0, |d|);
  }

  /** A run of digits reads as its decimal value. */
  lemma ParseFloatOfInteger(d: string)
    requires AllDigits(d)
    ensures ParseFloat(d) == DigitsValue(d) as real
  {
    PartsOfInteger(d);
    assert d == [] || d[0] != '-' by { if d != [] { assert IsDigit(d[0]); } }
    ParseFloatUnsigned(d);
    MagnitudeWithoutExponent(NumberParts(d, [], []));
  }

  lemma PartsOfDecimal(i: string, f: string)
    requires AllDigits(i) && AllDigits(f)
    ensures PartsAt(i + "." + f, 0) == NumberParts(i, f, [])
  {
    var t := i + "." + f;
    assert t[0..|i|] == i && t[|i| + 1..|t|] == f && t[|i|] == '.' && t[|t|..] == [];
    DigitRunEndAt(t, 0, |i|);
    DigitRunEndAt(t, |i| + 1, |t|);
  }

  /** Digits, a point and digits read as the whole part plus the fraction
      over the matching power of ten. */
  lemma ParseFloatOfDecimal(i: string, f: string)
    requires AllDigits(i) && AllDigits(f)
    ensures ParseFloat(i + "." + f) == DigitsValue(i) as real + DigitsValue(f) as real / Pow10(|f|)
  {
    var t := i + "." + f;
    PartsOfDecimal(i, f);
    assert t[0] != '-' by { if i != [] { assert t[0] == i[0] && IsDigit(i[0]); } }
    ParseFloatUnsigned(t);
    MagnitudeWithoutExponent(NumberParts(i, f, []));
  }

  lemma PartsOfNegativeInteger(d: string)
    requires AllDigits(d)
    ensures PartsAt("-" + d, 1) == NumberParts(d, [], [])
  {
    var t := "-" + d;
    assert t[1..|t|] == d && t[|t|..] == [];
    DigitRunEndAt(t, 1, |t|);
  }

  /** A minus sign before a run of digits negates its decimal value. */
  lemma ParseFloatOfNegativeInteger(d: string)
    requires AllDigits(d)
    ensures ParseFloat("-" + d) == -(DigitsValue(d) as real)
  {
    PartsOfNegativeInteger(d);
    assert ("-" + d)[0] == '-';
    MagnitudeWithoutExponent(NumberParts(d, [], []));
  }

  lemma PartsOfNegativeDecimal(i: string, f: string)
    requires AllDigits(i) && AllDigits(f)
    ensures PartsAt("-" + i + "." + f, 1) == NumberParts(i, f, [])
  {
    var t := "-" + i + "." + f;
    assert t[1..|i| + 1] == i && t[|i| + 2..|t|] == f && t[|i| + 1] == '.' && t[|t|..] == [];
    DigitRunEndAt(t, 1, |i| + 1);
    DigitRunEndAt(t, |i| + 2, |t|);
  }

  /** A minus sign before digits, a point and digits negates the value the
      unsigned literal reads as. */
  lemma ParseFloatOfNegativeDecimal(i: string, f: string)
    requires AllDigits(i) && AllDigits(f)
    ensures ParseFloat("-" + i + "." + f) == -(DigitsValue(i) as real + DigitsValue(f) as real / Pow10(|f|))
  {
    PartsOfNegativeDecimal(i, f);
    assert ("-" + i + "." + f)[0] == '-';
    MagnitudeWithoutExponent(NumberParts(i, f, []));
  }

  function Numbers(args: string): seq<real>
  {
    var tokens := NumberTokens(args, 0);
    seq(|tokens|, i requires 0 <= i < |tokens| => ParseFloat(tokens[i]))
  }

  // ---------------------------------------------------------------------
  // Segments

  datatype Field = Field(name: string, value: real)

  /** One record of the parser's output: the lower-case command letter,
      whether the letter was lower case, and the named numbers in schema order. */
  datatype Segment = Segment(kind: char, relative: bool, fields: seq<Field>)

  datatype PathError =
    | TooFewArguments(kind: char, given: nat, expected: nat)
    | TooManyArguments(kind: char, given: nat, extra: nat)

  function Fields(schema: seq<string>, values: seq<real>): seq<Field>
    requires |values| == |schema|
  {
    seq(|schema|, j requires 0 <= j < |schema| => Field(schema[j], values[j]))
  }

  /** The numbers cut into `count` consecutive groups of |schema|, one
      segment each. */
  function Chunks(kind: char, relative: bool, schema: seq<string>, numbers: seq<real>, count: nat): seq<Segment>
    requires |schema| > 0 && |numbers| == count * |schema|
    decreases count
  {
    if count == 0 then []
    else
      ProductStep(count, |schema|);
      [Segment(kind, relative, Fields(schema, numbers[..|schema|]))]
        + Chunks(kind, relative, schema, numbers[|schema|..], count - 1)
  }

  lemma ProductStep(count: nat, n: nat)
    requires count > 0
    ensures count * n == (count - 1) * n + n
    ensures (count - 1) * n >= 0
  {
  }

  /** Group i ends inside the numbers. */
  lemma GroupInside(i: nat, j: nat, count: nat, n: nat)
    requires i < count && j < n
    ensures i * n + j < count * n
  {
    var d := count - 1 - i;
    assert count * n == i * n + n + d * n;
    assert d * n >= 0;
  }

  /** A count of numbers divisible by the schema size is count groups. */
  lemma DivisibleCount(k: nat, n: nat)
    requires n > 0 && k % n == 0
    ensures k == (k / n) * n
  {
  }

  lemma {:induction false} ChunksLength(kind: char, relative: bool, schema: seq<string>, numbers: seq<real>, count: nat)
    requires |schema| > 0 && |numbers| == count * |schema|
    ensures |Chunks(kind, relative, schema, numbers, count)| == count
    decreases count
  {
    if count > 0 {
      ProductStep(count, |schema|);
      ChunksLength(kind, relative, schema, numbers[|schema|..], count - 1);
    }
  }

  /** Segment i is built from numbers i * n up to (i + 1) * n. */
  lemma {:induction false} ChunkAt(kind: char, relative: bool, schema: seq<string>, numbers: seq<real>, count: nat, i: nat)
    requires |schema| > 0 && |numbers| == count * |schema| && i < count
    ensures |Chunks(kind, relative, schema, numbers, count)| == count
    ensures i * |schema| + |schema| <= |numbers|
    ensures Chunks(kind, relative, schema, numbers, count)[i]
         == Segment(kind, relative, Fields(schema, numbers[i * |schema|..i * |schema| + |schema|]))
    decreases i
  {
    var n := |schema|;
    ChunksLength(kind, relative, schema, numbers, count);
    ProductStep(count, n);
    GroupInside(i, 0, count, n);
    if i > 0 {
      var rest := numbers[n..];
      ChunkAt(kind, relative, schema, rest, count - 1, i - 1);
      var k := (i - 1) * n;
      ProductStep(i, n);
      assert rest[k..k + n] == numbers[n + k..n + k + n];
    } else {
      assert i * n == 0;
    }
  }

  /** `count` groups of a schema of n > 0 fields give `count` segments in
      input order, and field j of segment i holds number i * n + j. */
  lemma ChunksLayout(kind: char, relative: bool, schema: seq<string>, numbers: seq<real>, count: nat)
    requires |schema| > 0 && |numbers| == count * |schema|
    ensures |Chunks(kind, relative, schema, numbers, count)| == count
    ensures forall i | 0 <= i < count ::
      var c := Chunks(kind, relative, schema, numbers, count)[i];
      c.kind == kind && c.relative == relative && |c.fields| == |schema|
    ensures forall i, j | 0 <= i < count && 0 <= j < |schema| ::
      i * |schema| + j < |numbers| &&
      Chunks(kind, relative, schema, numbers, count)[i].fields[j] == Field(schema[j], numbers[i * |schema| + j])
  {
    ChunksLength(kind, relative, schema, numbers, count);
    forall i | 0 <= i < count
      ensures var c := Chunks(kind, relative, schema, numbers, count)[i];
        c.kind == kind && c.relative == relative && |c.fields| == |schema|
    {
      ChunkAt(kind, relative, schema, numbers, count, i);
    }
    forall i, j | 0 <= i < count && 0 <= j < |schema|
      ensures i * |schema| + j < |numbers|
      ensures Chunks(kind, relative, schema, numbers, count)[i].fields[j] == Field(schema[j], numbers[i * |schema| + j])
    {
      ChunkFieldAt(kind, relative, schema, numbers, count, i, j);
    }
  }

  /** Field j of segment i holds number i * n + j. */
  lemma ChunkFieldAt(kind: char, relative: bool, schema: seq<string>, numbers: seq<real>, count: nat, i: nat, j: nat)
    requires |schema| > 0 && |numbers| == count * |schema| && i < count && j < |schema|
    ensures |Chunks(kind, relative, schema, numbers, count)| == count
    ensures i * |schema| + j < |numbers|
    ensures |Chunks(kind, relative, schema, numbers, count)[i].fields| == |schema|
    ensures Chunks(kind, relative, schema, numbers, count)[i].fields[j] == Field(schema[j], numbers[i * |schema| + j])
  {
    ChunkAt(kind, relative, schema, numbers, count, i);
    var lo := i * |schema|;
    var group := numbers[lo..lo + |schema|];
    assert group[j] == numbers[lo + j];
  }


  /** The segments a command letter with these numbers yields, or the
      error it raises. */
  function SegmentsFor(letter: char, numbers: seq<real>): Result<seq<Segment>, PathError>
    requires IsCommandLetter(letter)
  {
    var kind := Lower(letter);
    var relative := kind == letter;
    var schema := Schema(kind);
    if |numbers| < |schema| then Failure(TooFewArguments(kind, |numbers|, |schema|))
    else if |schema| > 0 then
      if |numbers| % |schema| != 0 then Failure(TooManyArguments(kind, |numbers|, |numbers| % |schema|))
      else
        DivisibleCount(|numbers|, |schema|);
        Success(Chunks(kind, relative, schema, numbers, |numbers| / |schema|))
    else Success([Segment(kind, relative, [])])
  }

  function CommandSegments(c: Command): Result<seq<Segment>, PathError>
    requires IsCommandLetter(c.letter)
  {
    SegmentsFor(c.letter, Numbers(c.args))
  }

  /** The first error among the commands, or all their segments in order. */
  function SegmentsOf(cmds: seq<Command>): Result<seq<Segment>, PathError>
    requires forall c <- cmds :: IsCommandLetter(c.letter)
  {
    if cmds == [] then Success([])
    else match CommandSegments(cmds[0])
      case Failure(err) => Failure(err)
      case Success(first) =>
        match SegmentsOf(cmds[1..])
        case Failure(err) => Failure(err)
        case Success(rest) => Success(first + rest)
  }

  /** What `svgPathParser` returns for a path, or the error it throws. */
  function ParsePath(s: string): Result<seq<Segment>, PathError>
  {
    SegmentsOf(Commands(s, 0))
  }

  /** A segment as a schema describes it. */
  predicate WellFormed(seg: Segment)
  {
    && IsKind(seg.kind)
    && |seg.fields| == |Schema(seg.kind)|
    && forall j | 0 <= j < |seg.fields| :: seg.fields[j].name == Schema(seg.kind)[j]
  }

  /** Fewer numbers than the schema has fields, or a count that is not a
      multiple of a non-empty schema. */
  predicate Malformed(letter: char, numbers: seq<real>)
    requires IsCommandLetter(letter)
  {
    var n := |Schema(Lower(letter))|;
    |numbers| < n || (n > 0 && |numbers| % n != 0)
  }

  predicate CommandFails(c: Command)
    requires IsCommandLetter(c.letter)
  {
    Malformed(c.letter, Numbers(c.args))
  }

  /** A command fails exactly when it is malformed, with the error naming
      the shortfall or the surplus. */
  lemma SegmentsForFailure(letter: char, numbers: seq<real>)
    requires IsCommandLetter(letter)
    ensures SegmentsFor(letter, numbers).Failure? <==> Malformed(letter, numbers)
    ensures var n := |Schema(Lower(letter))|;
      && (|numbers| < n ==> SegmentsFor(letter, numbers) == Failure(TooFewArguments(Lower(letter), |numbers|, n)))
      && (|numbers| >= n && Malformed(letter, numbers) ==>
            SegmentsFor(letter, numbers) == Failure(TooManyArguments(Lower(letter), |numbers|, |numbers| % n)))
  {
  }

  /** A well-formed command: every segment carries the lower-case letter,
      `relative` says whether the letter was lower case, a schema of n > 0
      fields gives k / n segments whose field j of segment i is number
      i * n + j, and a schema without fields (close path) gives exactly one
      segment, whatever numbers follow it. */
  lemma SegmentsForShape(letter: char, numbers: seq<real>)
    requires IsCommandLetter(letter) && !Malformed(letter, numbers)
    ensures SegmentsFor(letter, numbers).Success?
    ensures var segs := SegmentsFor(letter, numbers).value;
      var schema := Schema(Lower(letter));
      && (|schema| > 0 ==> |segs| == |numbers| / |schema|)
      && (|schema| == 0 ==> |segs| == 1 && segs[0].fields == [])
      && (forall i, j | 0 <= i < |segs| && 0 <= j < |schema| ::
            i * |schema| + j < |numbers| && |segs[i].fields| == |schema| && segs[i].fields[j] == Field(schema[j], numbers[i * |schema| + j]))
      && (forall seg <- segs :: seg.kind == Lower(letter) && seg.relative == IsKind(letter) && WellFormed(seg))
  {
    var kind := Lower(letter);
    var schema := Schema(kind);
    if |schema| > 0 {
      DivisibleCount(|numbers|, |schema|);
      var count := |numbers| / |schema|;
      assert SegmentsFor(letter, numbers) == Success(Chunks(kind, kind == letter, schema, numbers, count));
      ChunksLayout(kind, kind == letter, schema, numbers, count);
      ChunksWellFormed(kind, kind == letter, numbers, count);
    } else {
      assert SegmentsFor(letter, numbers) == Success([Segment(kind, kind == letter, [])]);
    }
  }

  /** Chunks cut by a kind's own schema are well-formed segments of that kind. */
  lemma ChunksWellFormed(kind: char, relative: bool, numbers: seq<real>, count: nat)
    requires IsKind(kind) && |Schema(kind)| > 0 && |numbers| == count * |Schema(kind)|
    ensures forall seg <- Chunks(kind, relative, Schema(kind), numbers, count) ::
      seg.kind == kind && seg.relative == relative && WellFormed(seg)
  {
    var schema := Schema(kind);
    var cs := Chunks(kind, relative, schema, numbers, count);
    ChunksLayout(kind, relative, schema, numbers, count);
    forall seg <- cs ensures seg.kind == kind && seg.relative == relative && WellFormed(seg) {
      var i :| 0 <= i < |cs| && cs[i] == seg;
      assert forall j | 0 <= j < |schema| :: seg.fields[j].name == schema[j];
    }
  }

  /** The whole path fails exactly when one of its commands fails, and on
      success every segment is well formed and the segments are those of the
      commands, in order. */
  lemma {:induction false} SegmentsOfSpec(cmds: seq<Command>)
    requires forall c <- cmds :: IsCommandLetter(c.letter)
    ensures SegmentsOf(cmds).Failure? <==> exists c <- cmds :: CommandFails(c)
    ensures SegmentsOf(cmds).Success? ==> forall seg <- SegmentsOf(cmds).value :: WellFormed(seg)
    ensures SegmentsOf(cmds).Success? && cmds != [] ==>
      SegmentsOf(cmds).value == CommandSegments(cmds[0]).value + SegmentsOf(cmds[1..]).value
  {
    if cmds != [] {
      SegmentsForFailure(cmds[0].letter, Numbers(cmds[0].args));
      if !CommandFails(cmds[0]) {
        SegmentsForShape(cmds[0].letter, Numbers(cmds[0].args));
      }
      SegmentsOfSpec(cmds[1..]);
      assert forall c <- cmds :: c == cmds[0] || c in cmds[1..];
    }
  }

  /** A path fails exactly when one of its commands is malformed; on
      success every segment is well formed. */
  lemma ParsePathSpec(s: string)
    ensures ParsePath(s).Failure? <==> exists c <- Commands(s, 0) :: CommandFails(c)
    ensures ParsePath(s).Success? ==> forall seg <- ParsePath(s).value :: WellFormed(seg)
  {
    SegmentsOfSpec(Commands(s, 0));
  }

  // ---------------------------------------------------------------------
  // The parser loop

  /** Prefixes the segments already emitted to the outcome of the rest. */
  function After(emitted: seq<Segment>, rest: Result<seq<Segment>, PathError>): Result<seq<Segment>, PathError>
  {
    match rest
    case Failure(err) => Failure(err)
    case Success(segs) => Success(emitted + segs)
  }

  /** Emitting one command's segments moves it from the pending commands
      to the emitted prefix. */
  lemma AfterStep(emitted: seq<Segment>, cmd: Command, rest: seq<Command>)
    requires IsCommandLetter(cmd.letter) && forall c <- rest :: IsCommandLetter(c.letter)
    ensures CommandSegments(cmd).Failure? ==>
      After(emitted, SegmentsOf([cmd] + rest)) == Failure(CommandSegments(cmd).error)
    ensures CommandSegments(cmd).Success? ==>
      After(emitted, SegmentsOf([cmd] + rest)) == After(emitted + CommandSegments(cmd).value, SegmentsOf(rest))
  {
    assert ([cmd] + rest)[1..] == rest;
    if CommandSegments(cmd).Success? && SegmentsOf(rest).Success? {
      var first := CommandSegments(cmd).value;
      var tail := SegmentsOf(rest).value;
      assert emitted + (first + tail) == (emitted + first) + tail;
    }
  }

  /** One turn of the parser loop: the command found from `from` on is
      either the first error of the rest of the path or moves its segments
      to the emitted prefix. */
  lemma ParseStep(s: string, from: nat, emitted: seq<Segment>, k: nat, e: nat, cmd: Command)
    requires from <= |s| && k == NextCommand(s, from) && k < |s|
    requires e == NextCommand(s, k + 1)
    requires cmd == Command(s[k], s[k + 1..e])
    ensures IsCommandLetter(cmd.letter) && from < e <= |s|
    ensures CommandSegments(cmd).Failure? ==>
      After(emitted, SegmentsOf(Commands(s, from))) == Failure(CommandSegments(cmd).error)
    ensures CommandSegments(cmd).Success? ==>
      After(emitted, SegmentsOf(Commands(s, from))) ==
      After(emitted + CommandSegments(cmd).value, SegmentsOf(Commands(s, e)))
  {
    CommandsStep(s, from);
    var rest := Commands(s, e);
    assert Commands(s, from) == [cmd] + rest;
    AfterStep(emitted, cmd, rest);
  }

  /** When no command letter is left, nothing more is emitted. */
  lemma ParseEnd(s: string, from: nat, emitted: seq<Segment>)
    requires from <= |s| && NextCommand(s, from) == |s|
    ensures After(emitted, SegmentsOf(Commands(s, from))) == Success(emitted)
  {
    assert emitted + [] == emitted;
  }

  /** `svgPathParser`: runs the segment pattern over the path, reads each
      command's numbers and emits its segments, throwing (here: returning a
      failure) on the first malformed command. */
  method SvgPathParser(pathString: string) returns (r: Result<seq<Segment>, PathError>)
    ensures r == ParsePath(pathString)
  {
    var pathData: seq<Segment> := [];
    var lastIndex := 0;
    assert After(pathData, ParsePath(pathString)) == ParsePath(pathString) by {
      if ParsePath(pathString).Success? {
        assert pathData + ParsePath(pathString).value == ParsePath(pathString).value;
      }
    }
    while true
      invariant lastIndex <= |pathString|
      invariant ParsePath(pathString) == After(pathData, SegmentsOf(Commands(pathString, lastIndex)))
      decreases |pathString| - lastIndex
    {
      var start := NextCommand(pathString, lastIndex);
      if start == |pathString| {
        ParseEnd(pathString, lastIndex, pathData);
        break;
      }
      var end := NextCommand(pathString, start + 1);
      var cmd := Command(pathString[start], pathString[start + 1..end]);
      ParseStep(pathString, lastIndex, pathData, start, end, cmd);
      var segs;
      segs := EmitCommand(cmd);
      if segs.Failure? {
        return Failure(segs.error);
      }
      pathData := pathData + segs.value;
      lastIndex := end;
    }
    return Success(pathData);
  }

  /** The body of the parser loop for one command. */
  method EmitCommand(cmd: Command) returns (r: Result<seq<Segment>, PathError>)
    requires IsCommandLetter(cmd.letter)
    ensures r == CommandSegments(cmd)
  {
    var kind := Lower(cmd.letter);
    var numbers := Numbers(cmd.args);
    var relative := kind == cmd.letter;
    var schema := Schema(kind);
    if |numbers| < |schema| {
      return Failure(TooFewArguments(kind, |numbers|, |schema|));
    }
    if |schema| > 0 {
      if |numbers| % |schema| != 0 {
        return Failure(TooManyArguments(kind, |numbers|, |numbers| % |schema|));
      }
      DivisibleCount(|numbers|, |schema|);
      var pathData := EmitChunks(kind, relative, schema, numbers, |numbers| / |schema|);
      return Success(pathData);
    } else {
      return Success([Segment(kind, relative, [])]);
    }
  }

  /** The loop that cuts a well-formed command's numbers into segments of
      `|schema|` fields each. */
  method EmitChunks(kind: char, relative: bool, schema: seq<string>, numbers: seq<real>, count: nat)
    returns (pathData: seq<Segment>)
    requires |schema| > 0 && |numbers| == count * |schema|
    ensures pathData == Chunks(kind, relative, schema, numbers, count)
  {
    var n := |schema|;
    ChunksLength(kind, relative, schema, numbers, count);
    ghost var chunks := Chunks(kind, relative, schema, numbers, count);
    pathData := [];
    var offset := 0;
    for i := 0 to count
      invariant |pathData| == i && offset == i * n
      invariant forall ii | 0 <= ii < i :: pathData[ii] == chunks[ii]
    {
      ChunkAt(kind, relative, schema, numbers, count, i);
      var fields: seq<Field> := [];
      for j := 0 to n
        invariant |fields| == j
        invariant forall jj | 0 <= jj < j :: fields[jj] == Field(schema[jj], numbers[offset + jj])
      {
        fields := fields + [Field(schema[j], numbers[offset + j])];
      }
      assert fields == Fields(schema, numbers[offset..offset + n]);
      pathData := pathData + [Segment(kind, relative, fields)];
      offset := offset + n;
    }
  }
}
