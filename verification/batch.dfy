/**
 * The conversion logic of popup.js's click handler, lifted out of the page:
 * base validation and the multiples test, per-line parsing, left zero-padding
 * to one width, the two transform drivers, and the per-number normalisation
 * of the product rows. The central theorem: every converted number's output
 * string, read in the target base, has the value of its input line read in
 * the source base, and is the unique canonical numeral for it.
 */
module Batch {
  import opened Wrappers
  import opened BigIntOps
  import opened Digits
  import opened Positional
  import opened Binomial
  import opened Matrices
  import opened Normalization

  // ---------------------------------------------------------------------------
  // Base validation (popup.js:99-139)
  // ---------------------------------------------------------------------------

  /** Both bases have magnitude between 2 and 62: the state in which conversion is enabled. */
  predicate BasesInBounds(s: int, t: int)
  {
    2 <= Abs(s) <= Radix && 2 <= Abs(t) <= Radix
  }

  /** The outcome of `validateAndToggle`: which message it shows, and whether multiples is offered. */
  datatype Validation = OutOfBounds | TooSmall | Valid(multiplesAvailable: bool)

  /**
   * The multiples test of popup.js:123, with JavaScript's truncating `%`: it
   * holds exactly when `t` divides `s`, and then the BigInt quotient `s / t`
   * is an exact factor.
   */
  predicate IsMultiple(s: int, t: int)
    ensures IsMultiple(s, t) <==> t != 0 && s % t == 0
    ensures IsMultiple(s, t) ==> TruncDiv(s, t) * t == s
  {
    t != 0 && (TruncRemZeroIsDivisibility(s, t); TruncRem(s, t) == 0)
  }

  /** popup.js `validateAndToggle` on integer bases (popup.js:99-140). */
  function Validate(s: int, t: int): (v: Validation)
    ensures v == OutOfBounds <==> Abs(s) > Radix || Abs(t) > Radix
    ensures v.Valid? <==> BasesInBounds(s, t)
    ensures v.Valid? ==> (v.multiplesAvailable <==> s % t == 0)
  {
    if Abs(s) > Radix || Abs(t) > Radix then OutOfBounds
    else if Abs(s) < 2 || Abs(t) < 2 then TooSmall
    else Valid(IsMultiple(s, t))
  }

  /** The two methods of the method selector. */
  datatype Method = Offset | Multiples

  /** The selector after `validateAndToggle`: multiples falls back to offset when not offered (popup.js:127-139). */
  function EffectiveMethod(choice: Method, s: int, t: int): (m: Method)
    ensures m == Multiples ==> IsMultiple(s, t)
    ensures IsMultiple(s, t) ==> m == choice
    ensures choice == Offset ==> m == Offset
  {
    if choice == Multiples && !IsMultiple(s, t) then Offset else choice
  }

  // ---------------------------------------------------------------------------
  // Parsing the input lines (popup.js:174-192)
  // ---------------------------------------------------------------------------

  /** The two errors a line can raise. */
  datatype ParseError = NotInMap(c: char) | TooLarge(c: char, absSource: int)

  /** Character `c` is a digit of a base of magnitude `absSource`. */
  predicate DigitOk(c: char, absSource: int)
  {
    0 <= GetVal(c) < absSource
  }

  /** The error the checks at popup.js:182-183 raise for a character that is not a digit. */
  function CharError(c: char, absSource: int): ParseError
  {
    if GetVal(c) == -1 then NotInMap(c) else TooLarge(c, absSource)
  }

  /**
   * The inner loop of popup.js:180-186: the digit values of the line, or the
   * error for its first character that is not a digit of the source base.
   */
  function ParseLine(line: string, absSource: int): (r: Result<seq<int>, ParseError>)
    ensures r.Success? <==> forall k :: 0 <= k < |line| ==> DigitOk(line[k], absSource)
    ensures r.Success? ==> r.value == Decode(line) && InRange(r.value, absSource)
    ensures r.Failure? ==> FirstError(line, absSource, r.error)
    decreases |line|
  {
    if |line| == 0 then Success([])
    else if !DigitOk(line[0], absSource) then Failure(CharError(line[0], absSource))
    else
      var tail := line[1..];
      match ParseLine(tail, absSource)
      case Failure(e) =>
        FirstBadShifts(line, absSource, e);
        Failure(e)
      case Success(ds) =>
        DecodeCons(line);
        Success([GetVal(line[0])] + ds)
  }

  /** `e` is the error for the first character of `line` that is not a digit. */
  predicate FirstError(line: string, absSource: int, e: ParseError)
  {
    exists k :: 0 <= k < |line| && !DigitOk(line[k], absSource) &&
      (forall j :: 0 <= j < k ==> DigitOk(line[j], absSource)) &&
      e == CharError(line[k], absSource)
  }

  /** A digit in front does not change which character is the first bad one. */
  lemma FirstBadShifts(line: string, absSource: int, e: ParseError)
    requires |line| > 0 && DigitOk(line[0], absSource)
    requires FirstError(line[1..], absSource, e)
    ensures FirstError(line, absSource, e)
  {
    var tail := line[1..];
    var k :| 0 <= k < |tail| && !DigitOk(tail[k], absSource) &&
      (forall j :: 0 <= j < k ==> DigitOk(tail[j], absSource)) && e == CharError(tail[k], absSource);
    assert line[k + 1] == tail[k];
    assert forall j :: 0 < j <= k ==> line[j] == tail[j - 1];
  }

  /** Decoding splits at the first character. */
  lemma DecodeCons(line: string)
    requires |line| > 0
    ensures Decode(line) == [GetVal(line[0])] + Decode(line[1..])
  {
    assert Decode(line)[1..] == Decode(line[1..]);
  }

  /** An error names the character the source message names, and says which check failed. */
  lemma CharErrorKinds(c: char, absSource: int)
    requires !DigitOk(c, absSource)
    ensures CharError(c, absSource).NotInMap? <==> c !in Alphabet
    ensures CharError(c, absSource).TooLarge? ==> GetVal(c) >= absSource
    ensures CharError(c, absSource).c == c
  {
  }

  /** An accepted line: its text and its digits, most significant first (popup.js:187). */
  datatype NumberEntry = NumberEntry(original: string, digits: seq<int>)

  /** A rejected line and its error (the error card of popup.js:189). */
  datatype LineError = LineError(line: string, error: ParseError)

  /** The accepted lines and the rejected lines, each in input order. */
  datatype Parsed = Parsed(numbers: seq<NumberEntry>, errors: seq<LineError>)

  /**
   * One pass of the outer loop (popup.js:175-190): a blank line is skipped; a
   * line of digits of the source base is appended to the numbers with its
   * digit values; any other line is appended to the errors with the error of
   * its first bad character.
   */
  function ParseStep(p: Parsed, line: string, absSource: int): (q: Parsed)
    ensures line == "" ==> q == p
    ensures line != "" && (forall k :: 0 <= k < |line| ==> DigitOk(line[k], absSource)) ==>
      q == Parsed(p.numbers + [NumberEntry(line, Decode(line))], p.errors)
    ensures line != "" && !(forall k :: 0 <= k < |line| ==> DigitOk(line[k], absSource)) ==>
      q.numbers == p.numbers && |q.errors| == |p.errors| + 1 && q.errors[..|p.errors|] == p.errors &&
      q.errors[|p.errors|].line == line && FirstError(line, absSource, q.errors[|p.errors|].error)
  {
    if line == "" then p
    else match ParseLine(line, absSource)
      case Success(ds) => p.(numbers := p.numbers + [NumberEntry(line, ds)])
      case Failure(e) => p.(errors := p.errors + [LineError(line, e)])
  }

  /**
   * Every accepted entry and every error of `p` comes from a non-blank line of
   * `lines` and is what parsing that line gives.
   */
  predicate FromLines(p: Parsed, lines: seq<string>, absSource: int)
  {
    (forall i :: 0 <= i < |p.numbers| ==>
      p.numbers[i].original in lines && p.numbers[i].original != "" &&
      ParseLine(p.numbers[i].original, absSource) == Success(p.numbers[i].digits)) &&
    (forall i :: 0 <= i < |p.errors| ==>
      p.errors[i].line in lines && p.errors[i].line != "" &&
      ParseLine(p.errors[i].line, absSource) == Failure(p.errors[i].error))
  }

  /** One more line keeps every entry traceable to its line. */
  lemma ParseStepFromLines(p: Parsed, lines: seq<string>, absSource: int)
    requires |lines| > 0
    requires FromLines(p, lines[..|lines| - 1], absSource)
    ensures FromLines(ParseStep(p, lines[|lines| - 1], absSource), lines, absSource)
    ensures |ParseStep(p, lines[|lines| - 1], absSource).numbers| +
      |ParseStep(p, lines[|lines| - 1], absSource).errors| <= |p.numbers| + |p.errors| + 1
  {
    assert forall l :: l in lines[..|lines| - 1] ==> l in lines;
  }

  /** The outer loop of popup.js:174-191 over lines already trimmed. */
  function ParseLines(lines: seq<string>, absSource: int): (p: Parsed)
    ensures |p.numbers| + |p.errors| <= |lines|
    ensures FromLines(p, lines, absSource)
    decreases |lines|
  {
    if |lines| == 0 then Parsed([], [])
    else
      var p := ParseLines(lines[..|lines| - 1], absSource);
      ParseStepFromLines(p, lines, absSource);
      ParseStep(p, lines[|lines| - 1], absSource)
  }

  /** One pass of the outer loop touches only the ends of the two lists. */
  lemma ParseStepAppend(p: Parsed, q: Parsed, line: string, absSource: int)
    ensures ParseStep(Parsed(p.numbers + q.numbers, p.errors + q.errors), line, absSource) ==
      Parsed(p.numbers + ParseStep(q, line, absSource).numbers, p.errors + ParseStep(q, line, absSource).errors)
  {
    if line != "" {
      match ParseLine(line, absSource)
      case Success(ds) =>
        assert (p.numbers + q.numbers) + [NumberEntry(line, ds)] == p.numbers + (q.numbers + [NumberEntry(line, ds)]);
      case Failure(e) =>
        assert (p.errors + q.errors) + [LineError(line, e)] == p.errors + (q.errors + [LineError(line, e)]);
    }
  }

  /** Parsing is line by line: the result for `a + b` is the results for `a` and `b`, concatenated. */
  lemma {:induction false} ParseLinesAppend(a: seq<string>, b: seq<string>, absSource: int)
    ensures ParseLines(a + b, absSource) ==
      Parsed(ParseLines(a, absSource).numbers + ParseLines(b, absSource).numbers,
             ParseLines(a, absSource).errors + ParseLines(b, absSource).errors)
    decreases |b|
  {
    if |b| == 0 {
      assert a + b == a;
    } else {
      var b', last := b[..|b| - 1], b[|b| - 1];
      assert (a + b)[..|a + b| - 1] == a + b';
      assert (a + b)[|a + b| - 1] == last;
      ParseLinesAppend(a, b', absSource);
      ParseStepAppend(ParseLines(a, absSource), ParseLines(b', absSource), last, absSource);
    }
  }

  /** A blank line contributes nothing (popup.js:176). */
  lemma BlankLineSkipped(a: seq<string>, b: seq<string>, absSource: int)
    ensures ParseLines(a + [""] + b, absSource) == ParseLines(a + b, absSource)
  {
    ParseLinesAppend(a + [""], b, absSource);
    ParseLinesAppend(a, [""], absSource);
    ParseLinesAppend(a, b, absSource);
    assert [""][..0] == [];
  }

  /**
   * A rejected line yields its own error and stops nothing: the lines around
   * it are parsed as if it were absent (the try/catch of popup.js:177-190).
   */
  lemma RejectedLineIsolated(a: seq<string>, line: string, b: seq<string>, absSource: int)
    requires line != "" && ParseLine(line, absSource).Failure?
    ensures ParseLines(a + [line] + b, absSource).numbers == ParseLines(a + b, absSource).numbers
    ensures ParseLines(a + [line] + b, absSource).errors ==
      ParseLines(a, absSource).errors + [LineError(line, ParseLine(line, absSource).error)] +
      ParseLines(b, absSource).errors
  {
    ParseLinesAppend(a + [line], b, absSource);
    ParseLinesAppend(a, [line], absSource);
    ParseLinesAppend(a, b, absSource);
    assert [line][..0] == [];
  }

  /** An accepted line becomes exactly one number, between those of the lines around it. */
  lemma AcceptedLineKept(a: seq<string>, line: string, b: seq<string>, absSource: int)
    requires line != "" && ParseLine(line, absSource).Success?
    ensures ParseLines(a + [line] + b, absSource).numbers ==
      ParseLines(a, absSource).numbers + [NumberEntry(line, Decode(line))] +
      ParseLines(b, absSource).numbers
    ensures ParseLines(a + [line] + b, absSource).errors == ParseLines(a + b, absSource).errors
  {
    ParseLinesAppend(a + [line], b, absSource);
    ParseLinesAppend(a, [line], absSource);
    ParseLinesAppend(a, b, absSource);
    assert [line][..0] == [];
  }

  // ---------------------------------------------------------------------------
  // The input matrix (popup.js:193-202)
  // ---------------------------------------------------------------------------

  /** The longest digit vector of the batch, 0 for none (popup.js:195-196). */
  function MaxLength(numbers: seq<NumberEntry>): (m: nat)
    ensures forall i :: 0 <= i < |numbers| ==> |numbers[i].digits| <= m
    ensures |numbers| > 0 ==> exists i :: 0 <= i < |numbers| && |numbers[i].digits| == m
    ensures |numbers| == 0 ==> m == 0
    decreases |numbers|
  {
    if |numbers| == 0 then 0
    else
      var rest := MaxLength(numbers[1..]);
      var m := if |numbers[0].digits| > rest then |numbers[0].digits| else rest;
      assert forall i :: 1 <= i < |numbers| ==> numbers[i] == numbers[1..][i - 1];
      m
  }

  /** Zeros in front up to `width` (popup.js:200-201). */
  function Pad(d: seq<int>, width: nat): (p: seq<int>)
    requires |d| <= width
    ensures |p| == width
    ensures p[width - |d|..] == d
    ensures forall k :: 0 <= k < width - |d| ==> p[k] == 0
  {
    Zeros(width - |d|) + d
  }

  /** Padding does not change the value read in any base. */
  lemma PadPreservesValue(d: seq<int>, width: nat, b: int)
    requires |d| <= width
    ensures Value(Pad(d, width), b) == Value(d, b)
  {
    ValueZerosPrefix(width - |d|, d, b);
  }

  /** Padding keeps digits in range. */
  lemma PadInRange(d: seq<int>, width: nat, m: int)
    requires |d| <= width && m > 0
    ensures InRange(Pad(d, width), m) <==> InRange(d, m)
  {
    var p := Pad(d, width);
    assert forall k :: 0 <= k < |d| ==> p[width - |d| + k] == d[k];
  }

  /** Matrix N of popup.js:199-202: one padded row per accepted number. */
  function InputMatrix(numbers: seq<NumberEntry>, width: nat): (n: Matrix)
    requires forall i :: 0 <= i < |numbers| ==> |numbers[i].digits| <= width
    ensures Shape(n, |numbers|, width)
  {
    seq(|numbers|, i requires 0 <= i < |numbers| => Pad(numbers[i].digits, width))
  }

  /** Row `i` of matrix N has the value of number `i`, in every base. */
  lemma InputRowValue(numbers: seq<NumberEntry>, width: nat, i: int, b: int)
    requires forall i :: 0 <= i < |numbers| ==> |numbers[i].digits| <= width
    requires 0 <= i < |numbers|
    ensures Value(InputMatrix(numbers, width)[i], b) == Value(numbers[i].digits, b)
  {
    PadPreservesValue(numbers[i].digits, width, b);
  }

  // ---------------------------------------------------------------------------
  // The transform and its correctness (popup.js:212-227)
  // ---------------------------------------------------------------------------

  /**
   * The transform matrix of the chosen driver: the Pascal matrix for the
   * offset `s - t` (popup.js:213-214), or the diagonal matrix of the BigInt
   * quotient `s / t` (popup.js:225-226).
   */
  function Transform(m: Method, size: nat, s: int, t: int): (x: Matrix)
    requires t != 0
    ensures Shape(x, size, size)
    ensures m == Offset ==> forall r :: 0 <= r < size ==> x[r][r] == 1
    ensures m == Offset ==> forall r, c :: 0 <= c < r < size ==> x[r][c] == 0
    ensures m == Multiples ==> forall r, c :: 0 <= r < size && 0 <= c < size && r != c ==> x[r][c] == 0
    ensures m == Multiples ==> forall i :: 0 <= i < size ==> x[i][i] == Pow(TruncDiv(s, t), size - 1 - i)
  {
    match m
    case Offset => PascalPower(size, s - t)
    case Multiples => DiagonalMatrix(size, TruncDiv(s, t))
  }

  /**
   * Row `k` of either transform, read in the target base, is the weight of
   * position `k` in the source base: `s^(size - 1 - k)`. For the multiples
   * driver this needs `t` to divide `s`, which the selector guarantees.
   */
  lemma TransformRowWeights(m: Method, size: nat, s: int, t: int)
    requires t != 0
    requires m == Offset || IsMultiple(s, t)
    ensures forall k :: 0 <= k < size ==> Value(Transform(m, size, s, t)[k], t) == Pow(s, size - 1 - k)
  {
    forall k | 0 <= k < size
      ensures Value(Transform(m, size, s, t)[k], t) == Pow(s, size - 1 - k)
    {
      match m
      case Offset =>
        PascalRowValue(size, s - t, k, t);
      case Multiples =>
        DiagonalRowValue(size, TruncDiv(s, t), k, t);
    }
  }

  /** A row of coefficients times the transform, read in base `t`, is the row read in base `s`. */
  lemma TransformConverts(d: seq<int>, m: Method, s: int, t: int)
    requires t != 0
    requires m == Offset || IsMultiple(s, t)
    ensures Value(RowTimes(d, Transform(m, |d|, s, t), |d|), t) == Value(d, s)
  {
    TransformRowWeights(m, |d|, s, t);
    TransformPreservesValue(d, Transform(m, |d|, s, t), |d|, t, s);
  }

  /**
   * Without the multiples test the diagonal driver is wrong: converting "1"
   * followed by "0" from base 3 to base 2 with the factor `3 / 2 == 1` reads
   * 2 instead of 3. This is why the selector falls back to offset.
   */
  lemma MultiplesNeedsDivisibility()
    ensures !IsMultiple(3, 2)
    ensures Value(RowTimes([1, 0], Transform(Multiples, 2, 3, 2), 2), 2) != Value([1, 0], 3)
  {
    assert TruncDiv(3, 2) == 1;
    DiagonalConverts([1, 0], 1, 2);
  }

  // ---------------------------------------------------------------------------
  // The batch (popup.js:154-234 and the per-number part of 256-269)
  // ---------------------------------------------------------------------------

  /** The card for one accepted number. */
  datatype Card =
    | Converted(original: string, row: seq<int>, text: string)
    | Unrepresentable(original: string)

  /** The error cards and the per-number cards of one conversion. */
  datatype BatchOutput = BatchOutput(errors: seq<LineError>, cards: seq<Card>)

  /**
   * A number has digits in target base `t` when `t` is negative or the number
   * is not negative; otherwise `normalize` would never return.
   */
  predicate Representable(d: seq<int>, s: int, t: int)
  {
    t < 0 || Value(d, s) >= 0
  }

  /** `card` is a correct answer for `n`: same line, and digits of the same value when representable. */
  predicate Answers(card: Card, n: NumberEntry, s: int, t: int)
  {
    card.original == n.original &&
    (card.Converted? <==> Representable(n.digits, s, t)) &&
    (card.Converted? ==>
      Value(card.row, t) == Value(n.digits, s) &&
      Canonical(Decode(card.text), Abs(t)) &&
      Value(Decode(card.text), t) == Value(n.digits, s))
  }

  /**
   * The card for one number whose product row `row` already has the number's
   * value in base `t` (popup.js:260-265): the row normalised and rendered,
   * unless the number is negative and the target base positive.
   */
  method ConvertNumber(n: NumberEntry, row: seq<int>, s: int, t: int) returns (card: Card)
    requires 2 <= Abs(t) <= Radix
    requires |row| > 0
    requires Value(row, t) == Value(n.digits, s)
    ensures Answers(card, n, s, t)
    ensures card.Converted? ==> card.row == row
  {
    if Representable(n.digits, s, t) {
      var result, text := Normalize(row, t);
      card := Converted(n.original, row, text);
    } else {
      card := Unrepresentable(n.original);
    }
  }

  /** Row `i` of the product N * M, read in base `t`, is number `i` read in base `s`. */
  lemma ProductRowValue(numbers: seq<NumberEntry>, size: nat, m: Method, s: int, t: int, i: int)
    requires t != 0
    requires m == Offset || IsMultiple(s, t)
    requires size > 0 && |numbers| > 0
    requires forall j :: 0 <= j < |numbers| ==> |numbers[j].digits| <= size
    requires 0 <= i < |numbers|
    ensures Value(Product(InputMatrix(numbers, size), Transform(m, size, s, t))[i], t) ==
      Value(numbers[i].digits, s)
  {
    var matN := InputMatrix(numbers, size);
    assert Product(matN, Transform(m, size, s, t))[i] == RowTimes(matN[i], Transform(m, size, s, t), size);
    TransformConverts(matN[i], m, s, t);
    InputRowValue(numbers, size, i, s);
  }

  /**
   * The result matrix `R = N * M` of the chosen driver (popup.js:215 and 227):
   * one row per accepted number, of the common width.
   */
  function ResultMatrix(numbers: seq<NumberEntry>, m: Method, s: int, t: int): (r: Matrix)
    requires t != 0
    ensures Shape(r, |numbers|, MaxLength(numbers))
  {
    var size := MaxLength(numbers);
    if |numbers| == 0 || size == 0 then seq(|numbers|, _ => [])
    else Product(InputMatrix(numbers, size), Transform(m, size, s, t))
  }

  /** Every row of the result matrix, read in base `t`, is its number read in base `s`. */
  lemma ProductRowValues(numbers: seq<NumberEntry>, m: Method, s: int, t: int)
    requires t != 0
    requires m == Offset || IsMultiple(s, t)
    ensures forall i :: 0 <= i < |numbers| ==>
      Value(ResultMatrix(numbers, m, s, t)[i], t) == Value(numbers[i].digits, s)
  {
    var size := MaxLength(numbers);
    forall i | 0 <= i < |numbers|
      ensures Value(ResultMatrix(numbers, m, s, t)[i], t) == Value(numbers[i].digits, s)
    {
      if size == 0 {
        assert numbers[i].digits == [];
      } else {
        ProductRowValue(numbers, size, m, s, t, i);
      }
    }
  }

  /**
   * The click handler of popup.js:154-209 with the driver it calls
   * (popup.js:212-234) and the per-number normalisation of popup.js:256-269.
   * A number that is negative while the target base is positive is reported
   * as unrepresentable instead of being handed to `normalize`.
   */
  method ConvertBatch(choice: Method, s: int, t: int, lines: seq<string>) returns (out: BatchOutput)
    requires BasesInBounds(s, t)
    ensures out.errors == ParseLines(lines, Abs(s)).errors
    ensures |out.cards| == |ParseLines(lines, Abs(s)).numbers|
    ensures forall i :: 0 <= i < |out.cards| ==>
      Answers(out.cards[i], ParseLines(lines, Abs(s)).numbers[i], s, t)
    ensures forall i :: 0 <= i < |out.cards| ==> out.cards[i].Converted? ==>
      out.cards[i].row == ResultMatrix(ParseLines(lines, Abs(s)).numbers, EffectiveMethod(choice, s, t), s, t)[i]
  {
    var parsed := ParseLines(lines, Abs(s));
    var numbers := parsed.numbers;
    out := BatchOutput(parsed.errors, []);
    if |numbers| == 0 {
      return;
    }
    var size := MaxLength(numbers);
    assert |numbers[0].digits| == |numbers[0].original| > 0;
    var matN := InputMatrix(numbers, size);
    var m := EffectiveMethod(choice, s, t);
    var transform := Transform(m, size, s, t);
    var product := MatrixMultiply(matN, transform);
    var rows := product.value;
    MatrixMultiplyIsProduct(matN, transform, rows);
    assert rows == ResultMatrix(numbers, m, s, t);
    ProductRowValues(numbers, m, s, t);
    var cards := ConvertAll(numbers, rows, s, t);
    out := out.(cards := cards);
  }

  /** Appending the card for the next number keeps every card answering its number. */
  lemma CardsExtend(cards: seq<Card>, card: Card, numbers: seq<NumberEntry>, rows: seq<seq<int>>, s: int, t: int)
    requires |cards| < |numbers| <= |rows|
    requires forall j :: 0 <= j < |cards| ==>
      Answers(cards[j], numbers[j], s, t) && (cards[j].Converted? ==> cards[j].row == rows[j])
    requires Answers(card, numbers[|cards|], s, t) && (card.Converted? ==> card.row == rows[|cards|])
    ensures forall j :: 0 <= j < |cards| + 1 ==>
      Answers((cards + [card])[j], numbers[j], s, t) && ((cards + [card])[j].Converted? ==> (cards + [card])[j].row == rows[j])
  {
    forall j | 0 <= j < |cards| + 1
      ensures Answers((cards + [card])[j], numbers[j], s, t)
      ensures (cards + [card])[j].Converted? ==> (cards + [card])[j].row == rows[j]
    {
      if j < |cards| {
        assert (cards + [card])[j] == cards[j];
      } else {
        assert (cards + [card])[j] == card;
      }
    }
  }

  /** The per-number loop of popup.js:256-269, over rows that already carry each number's value. */
  method ConvertAll(numbers: seq<NumberEntry>, rows: seq<seq<int>>, s: int, t: int) returns (cards: seq<Card>)
    requires 2 <= Abs(t) <= Radix
    requires |rows| == |numbers|
    requires forall i :: 0 <= i < |numbers| ==>
      |rows[i]| > 0 && Value(rows[i], t) == Value(numbers[i].digits, s)
    ensures |cards| == |numbers|
    ensures forall i :: 0 <= i < |numbers| ==> Answers(cards[i], numbers[i], s, t) && (cards[i].Converted? ==> cards[i].row == rows[i])
  {
    cards := [];
    var i := 0;
    while i < |numbers|
      invariant 0 <= i <= |numbers|
      invariant |cards| == i
      invariant forall j :: 0 <= j < i ==> Answers(cards[j], numbers[j], s, t) && (cards[j].Converted? ==> cards[j].row == rows[j])
    {
      var card := ConvertNumber(numbers[i], rows[i], s, t);
      CardsExtend(cards, card, numbers, rows, s, t);
      cards := cards + [card];
      i := i + 1;
    }
  }

  /** The output string of a converted number is the only canonical numeral of its value. */
  lemma ConvertedTextUnique(card: Card, n: NumberEntry, s: int, t: int, e: seq<int>)
    requires Abs(t) >= 2
    requires Answers(card, n, s, t) && card.Converted?
    requires Canonical(e, Abs(t)) && Value(e, t) == Value(n.digits, s)
    ensures e == Decode(card.text)
  {
    CanonicalUnique(e, Decode(card.text), t);
  }

  /** A positive source base never produces a negative number, so every number converts. */
  lemma PositiveSourceRepresentable(n: NumberEntry, s: int, t: int)
    requires s >= 2
    requires InRange(n.digits, s)
    ensures Representable(n.digits, s, t)
  {
    ValueBounds(n.digits, s);
  }

  /** The line "10" in base -10 is accepted and reads -10. */
  lemma NegativeTenParses()
    ensures ParseLine("10", 10) == Success([1, 0])
    ensures Value([1, 0], -10) == -10
  {
    AlphabetShape();
    ValueRoundTrip(0);
    ValueRoundTrip(1);
    assert GetVal('1') == 1 && GetVal('0') == 0;
    var line := "10";
    assert DigitOk(line[0], 10) && DigitOk(line[1], 10);
    assert Decode(line) == [1, 0];
  }

  /** The offset driver from base -10 to base 10 turns the digits [1, 0] into the row [1, -20]. */
  lemma NegativeTenRow()
    ensures RowTimes([1, 0], Transform(Offset, 2, -10, 10), 2) == [1, -20]
  {
    var x := Transform(Offset, 2, -10, 10);
    PascalRowShape(2, -20, 0);
    PascalRowShape(2, -20, 1);
    assert BinomialRow(1, -20) == [1, -20] by {
      assert Choose(1, 1) == 1;
    }
    assert BinomialRow(0, -20) == [1];
    assert x[0] == [1, -20];
    assert x[1] == [0, 1];
    var c0, c1 := Column(x, 0), Column(x, 1);
    assert c0 == [1, 0] && c1 == [-20, 1];
    assert Dot([1, 0], c0) == 1 * 1 + Dot([0], [0]);
    assert Dot([1, 0], c1) == 1 * -20 + Dot([0], [1]);
  }

  /**
   * The row [1, -20] in base 10, as written: the loop of `normalize` turns it
   * into [-1, 0] and then never leaves position 0, however many passes run.
   */
  lemma NegativeTenNeverFinishes(fuel: nat)
    ensures Run([1, -20], 1, 10, fuel + 1) == ([-1] + Repeat(9, fuel) + [0], 0)
  {
    var arr := [1, -20];
    var (r, q) := Carry(arr[1], 10);
    DivModUnique(10, q, r, -2, 0);
    assert arr[1 := 0][0 := arr[0] + -2] == [-1] + [0];
    assert SweepStep(arr, 1, 10) == ([-1] + [0], 0);
    NegativeLeadNeverFinishes([0], 10, fuel);
  }
}
