/** `getResult` and the second half of `evaluateExpression`: the numbers are
    folded with the operators strictly left to right, with no precedence. */
module Evaluator {
  import opened Wrappers
  import opened Numerals
  import opened Tokenizer

  /** A `double` the calculator can produce with exact arithmetic: a real
      number, or the NaN that Java's `%` yields for a zero divisor. */
  datatype Value = Num(x: real) | NaN

  /** The ways `handleEquals` can catch an exception. */
  datatype Failure =
    | Unparsable(token: string)  // NumberFormatException from parseDouble
    | DivisionByZero             // the explicit ArithmeticException for `/`
    | MissingOperand             // IndexOutOfBoundsException from numbers.get(i + 1)

  /** Truncation toward zero, as Java's floating remainder uses it. */
  function Truncate(x: real): (n: int)
    ensures x >= 0.0 ==> n >= 0 && (n as real) <= x < (n as real) + 1.0
    ensures x <= 0.0 ==> n <= 0 && (n as real) - 1.0 < x <= (n as real)
  {
    if x >= 0.0 then x.Floor else -((-x).Floor)
  }

  function Abs(x: real): real {
    if x < 0.0 then -x else x
  }

  /** Java's `%` on doubles: the fractional part of the quotient a / b,
      truncated toward zero, scaled back by b. */
  function Remainder(a: real, b: real): real
    requires b != 0.0
  {
    Fraction(a / b) * b
  }

  /** The part of `f` that truncation toward zero drops. */
  function Fraction(f: real): (d: real)
    ensures -1.0 < d < 1.0
    ensures f >= 0.0 ==> d >= 0.0
    ensures f <= 0.0 ==> d <= 0.0
  {
    f - Truncate(f) as real
  }

  /** The product of two non-negative numbers is non-negative, and positive
      when both are. */
  lemma ProductSign(x: real, y: real)
    ensures x >= 0.0 && y >= 0.0 ==> x * y >= 0.0
    ensures x > 0.0 && y > 0.0 ==> x * y > 0.0
  {
  }

  /** The quotient has the sign of the product of the signs. */
  lemma QuotientSign(a: real, b: real)
    requires b != 0.0
    ensures a >= 0.0 && b > 0.0 ==> a / b >= 0.0
    ensures a <= 0.0 && b > 0.0 ==> a / b <= 0.0
    ensures a >= 0.0 && b < 0.0 ==> a / b <= 0.0
    ensures a <= 0.0 && b < 0.0 ==> a / b >= 0.0
  {
  }

  // Each bound gets its own lemma: with truncation and real products in
  // one proof obligation the solver needs the goals one at a time.

  lemma PositiveDivisorUpper(a: real, b: real)
    requires b > 0.0
    ensures Remainder(a, b) < b
  {
    var d := Fraction(a / b);
    ProductSign(1.0 - d, b);
    assert (1.0 - d) * b == b - d * b;
  }

  lemma PositiveDivisorLower(a: real, b: real)
    requires b > 0.0
    ensures -b < Remainder(a, b)
  {
    var d := Fraction(a / b);
    ProductSign(1.0 + d, b);
    assert (1.0 + d) * b == b + d * b;
  }

  lemma NegativeDivisorLower(a: real, b: real)
    requires b < 0.0
    ensures b < Remainder(a, b)
  {
    var d := Fraction(a / b);
    ProductSign(1.0 - d, -b);
    assert (1.0 - d) * -b == d * b - b;
  }

  lemma NegativeDivisorUpper(a: real, b: real)
    requires b < 0.0
    ensures Remainder(a, b) < -b
  {
    var d := Fraction(a / b);
    ProductSign(1.0 + d, -b);
    assert (1.0 + d) * -b == -b - d * b;
  }

  lemma NonNegativeDividend(a: real, b: real)
    requires b != 0.0 && a >= 0.0
    ensures Remainder(a, b) >= 0.0
  {
    var d := Fraction(a / b);
    QuotientSign(a, b);
    if b > 0.0 {
      ProductSign(d, b);
    } else {
      ProductSign(-d, -b);
      assert (-d) * -b == d * b;
    }
  }

  lemma NonPositiveDividend(a: real, b: real)
    requires b != 0.0 && a <= 0.0
    ensures Remainder(a, b) <= 0.0
  {
    var d := Fraction(a / b);
    QuotientSign(a, b);
    if b > 0.0 {
      ProductSign(-d, b);
      assert (-d) * b == -(d * b);
    } else {
      ProductSign(d, -b);
      assert d * -b == -(d * b);
    }
  }

  /** Java's floating `%` is smaller in magnitude than the divisor and takes
      the sign of the dividend. */
  lemma RemainderBounds(a: real, b: real)
    requires b != 0.0
    ensures b > 0.0 ==> -b < Remainder(a, b) < b
    ensures b < 0.0 ==> b < Remainder(a, b) < -b
    ensures a >= 0.0 ==> Remainder(a, b) >= 0.0
    ensures a <= 0.0 ==> Remainder(a, b) <= 0.0
  {
    if b > 0.0 {
      PositiveDivisorUpper(a, b);
      PositiveDivisorLower(a, b);
    } else {
      NegativeDivisorUpper(a, b);
      NegativeDivisorLower(a, b);
    }
    if a >= 0.0 {
      NonNegativeDividend(a, b);
    }
    if a <= 0.0 {
      NonPositiveDividend(a, b);
    }
  }

  /** The fractional-part form agrees with the formula the Java Language
      Specification gives for floating `%`: a - b * trunc(a / b). */
  lemma RemainderIsDividendMinusMultiple(a: real, b: real)
    requires b != 0.0
    ensures Remainder(a, b) == a - (Truncate(a / b) as real) * b
  {
    var f, q := a / b, Truncate(a / b) as real;
    assert f * b == a;
    assert Fraction(f) == f - q;
    assert (f - q) * b == f * b - q * b;
  }

  /** One turn of the `switch` in `getResult`. The division check looks only
      at the divisor, so it fires even when the running value is NaN; an
      operator outside the five cases leaves the running value as it is. */
  function Apply(acc: Value, op: char, next: real): (r: Result<Value, Failure>)
    ensures r.Err? <==> op == '/' && next == 0.0
    ensures r.Err? ==> r.error == DivisionByZero
    ensures r.Ok? && acc.NaN? ==> r.value.NaN?
    ensures r.Ok? && r.value.NaN? ==> acc.NaN? || (op == '%' && next == 0.0)
  {
    if op == '/' && next == 0.0 then Err(DivisionByZero)
    else match acc
      case NaN => Ok(NaN)
      case Num(a) =>
        if op == '+' then Ok(Num(a + next))
        else if op == '-' then Ok(Num(a - next))
        else if op == '*' then Ok(Num(a * next))
        else if op == '/' then Ok(Num(a / next))
        else if op == '%' then (if next == 0.0 then Ok(NaN) else Ok(Num(Remainder(a, next))))
        else Ok(acc)
  }

  /** `getResult` after the first |ops| turns of its loop: the running value,
      or the exception of the first turn that threw. Turn i reads
      `numbers.get(i + 1)`, which throws when there are too few numbers. */
  function GetResult(numbers: seq<real>, ops: seq<char>): (r: Result<Value, Failure>)
    requires |numbers| > 0
    ensures r.Err? ==> r.error == DivisionByZero || r.error == MissingOperand
  {
    if ops == [] then Ok(Num(numbers[0]))
    else
      var i := |ops| - 1;
      match GetResult(numbers, ops[..i])
      case Err(e) => Err(e)
      case Ok(acc) =>
        if i + 1 >= |numbers| then Err(MissingOperand)
        else Apply(acc, ops[i], numbers[i + 1])
  }

  /** No operator at a position below `k` is a `/` whose right operand is zero. */
  ghost predicate NoZeroDivisor(numbers: seq<real>, ops: seq<char>, k: int) {
    forall i :: 0 <= i < k && i < |ops| && i + 1 < |numbers| ==> !(ops[i] == '/' && numbers[i + 1] == 0.0)
  }

  /** `getResult` succeeds exactly when there is a number for every operator
      and no `/` has a zero right operand. It fails with DivisionByZero
      exactly when such a `/` comes before the first missing number, and with
      MissingOperand otherwise. */
  lemma {:induction false} GetResultOutcome(numbers: seq<real>, ops: seq<char>)
    requires |numbers| > 0
    ensures GetResult(numbers, ops).Ok? <==> |ops| < |numbers| && NoZeroDivisor(numbers, ops, |ops|)
    ensures GetResult(numbers, ops) == Err(MissingOperand)
        <==> |ops| >= |numbers| && NoZeroDivisor(numbers, ops, |numbers| - 1)
    decreases |ops|
  {
    if ops != [] {
      var i := |ops| - 1;
      var prefix := ops[..i];
      GetResultOutcome(numbers, prefix);
      assert forall j :: 0 <= j < i ==> prefix[j] == ops[j];
    }
  }

  /** Reference: the textbook left fold ((acc op1 x1) op2 x2) …, stopping at
      the first failing step. */
  function LeftFold(acc: Value, rest: seq<real>, ops: seq<char>): Result<Value, Failure>
    requires |rest| == |ops|
    decreases |ops|
  {
    if ops == [] then Ok(acc)
    else match Apply(acc, ops[0], rest[0])
      case Err(e) => Err(e)
      case Ok(v) => LeftFold(v, rest[1..], ops[1..])
  }

  /** Folding one more pair onto the end applies it to the fold of the rest. */
  lemma {:induction false} LeftFoldSnoc(acc: Value, rest: seq<real>, ops: seq<char>, x: real, op: char)
    requires |rest| == |ops|
    ensures LeftFold(acc, rest + [x], ops + [op])
         == match LeftFold(acc, rest, ops)
            case Err(e) => Err(e)
            case Ok(v) => Apply(v, op, x)
    decreases |ops|
  {
    if ops != [] {
      match Apply(acc, ops[0], rest[0])
      case Err(e) =>
      case Ok(v) =>
        assert (rest + [x])[1..] == rest[1..] + [x];
        assert (ops + [op])[1..] == ops[1..] + [op];
        LeftFoldSnoc(v, rest[1..], ops[1..], x, op);
    } else {
      assert (rest + [x])[1..] == [];
      assert (ops + [op])[1..] == [];
    }
  }

  /** With exactly one more number than operators, `getResult` is the left
      fold: `2+3*5` is (2 + 3) * 5 = 25, not 17. */
  lemma {:induction false} GetResultIsLeftFold(numbers: seq<real>, ops: seq<char>)
    requires |numbers| == |ops| + 1
    ensures GetResult(numbers, ops) == LeftFold(Num(numbers[0]), numbers[1..], ops)
    decreases |ops|
  {
    if ops != [] {
      var i := |ops| - 1;
      var ns := numbers[..i + 1];
      GetResultIsLeftFold(ns, ops[..i]);
      GetResultPrefix(numbers, ops[..i]);
      assert numbers[1..] == ns[1..] + [numbers[i + 1]];
      assert ops == ops[..i] + [ops[i]];
      LeftFoldSnoc(Num(numbers[0]), ns[1..], ops[..i], numbers[i + 1], ops[i]);
    }
  }

  /** Numbers after position |ops| are never read. */
  lemma {:induction false} GetResultPrefix(numbers: seq<real>, ops: seq<char>)
    requires |numbers| > |ops|
    ensures GetResult(numbers, ops) == GetResult(numbers[..|ops| + 1], ops)
    decreases |ops|
  {
    if ops != [] {
      var i := |ops| - 1;
      GetResultPrefix(numbers, ops[..i]);
      GetResultPrefix(numbers[..|ops| + 1], ops[..i]);
      assert numbers[..|ops| + 1][..i + 1] == numbers[..i + 1];
    }
  }

  /** `2+3*5` is (2 + 3) * 5 = 25, not 17: x + y * z folds to (x + y) * z. */
  lemma SumThenProduct(x: real, y: real, z: real)
    ensures GetResult([x, y, z], ['+', '*']) == Ok(Num((x + y) * z))
  {
    assert GetResult([x, y, z], ['+']) == Ok(Num(x + y)) by {
      assert ['+'][..0] == [];
    }
    assert ['+', '*'][..1] == ['+'];
    assert GetResult([x, y, z], ['+', '*']).value == Num((x + y) * z);
  }

  /** `evaluateExpression`: sanitise, split, parse every number token, then
      fold. An expression with no number at all evaluates to 0. */
  function Evaluate(expression: string): Result<Value, Failure> {
    var p := Split(Sanitise(expression));
    match ParseAll(p.numbers)
    case Err(bad) => Err(Unparsable(bad))
    case Ok(xs) => if xs == [] then Ok(Num(0.0)) else GetResult(xs, p.operators)
  }

  /** A parse failure names a number token of the sanitised expression that
      `parseDouble` rejects. */
  lemma EvaluateUnparsable(expression: string)
    ensures var p := Split(Sanitise(expression));
      var r := Evaluate(expression);
      r.Err? && r.error.Unparsable? ==> r.error.token in p.numbers && ParseNumeral(r.error.token).None?
  {
  }

  /** Evaluation reads the tokens of the sanitised expression and nothing else. */
  lemma EvaluatePieces(expression: string, numbers: seq<string>, operators: seq<char>, xs: seq<real>)
    requires Split(Sanitise(expression)) == Pieces(numbers, operators)
    requires ParseAll(numbers) == Ok(xs) && xs != []
    ensures Evaluate(expression) == GetResult(xs, operators)
  {
  }

  /** An expression that sanitises to well-formed tokens written out
      evaluates to the left-to-right fold of their parsed values. */
  lemma EvaluateTokens(expression: string, numbers: seq<string>, operators: seq<char>, xs: seq<real>)
    requires WellFormed(numbers, operators) && ParseAll(numbers) == Ok(xs)
    requires Sanitise(expression) == Join(numbers, operators)
    ensures Evaluate(expression) == GetResult(xs, operators)
  {
    SplitJoin(numbers, operators);
    EvaluatePieces(expression, numbers, operators, xs);
  }

  /** In particular, well-formed tokens written out evaluate that way. */
  lemma EvaluateJoin(numbers: seq<string>, operators: seq<char>, xs: seq<real>)
    requires WellFormed(numbers, operators) && ParseAll(numbers) == Ok(xs)
    ensures Evaluate(Join(numbers, operators)) == GetResult(xs, operators)
  {
    JoinIsRelevant(numbers, operators);
    SanitiseRelevant(Join(numbers, operators));
    EvaluateTokens(Join(numbers, operators), numbers, operators, xs);
  }

  /** `evaluateExpression` fails exactly when a number token does not parse,
      or there are numbers but fewer than one per operator plus one, or some
      `/` has a zero right operand. An expression without a number token is
      0, whatever operators it holds. */
  lemma EvaluateFailsIff(expression: string)
    ensures Split(Sanitise(expression)).numbers == [] ==> Evaluate(expression) == Ok(Num(0.0))
    ensures var p := Split(Sanitise(expression));
      Evaluate(expression).Err?
      <==> || (exists t :: t in p.numbers && ParseNumeral(t).None?)
           || (var xs := ParseAll(p.numbers).value;
               ParseAll(p.numbers).Ok? && xs != []
               && (|p.operators| >= |xs| || !NoZeroDivisor(xs, p.operators, |p.operators|)))
  {
    var p := Split(Sanitise(expression));
    match ParseAll(p.numbers)
    case Err(bad) =>
    case Ok(xs) =>
      if xs != [] {
        GetResultOutcome(xs, p.operators);
      }
      assert forall t :: t in p.numbers ==> ParseNumeral(t).Some?;
  }
}
