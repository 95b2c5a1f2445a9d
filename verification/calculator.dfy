/** The calculator's state machine: the expression being typed, the
    "last operation was equals" flag and the history list, with one pure
    transition per button handler of `MainActivity`. */
module Calculator {
  import opened Wrappers
  import opened Numerals
  import opened Tokenizer
  import opened Evaluator

  /** `currentExpression`, `lastOperationWasEquals` and `historyList`
      (newest entry first). */
  datatype State = State(expression: string, justEvaluated: bool, history: seq<string>)

  const Initial := State("", false, [])

  /** `isNumberOrDecimal`: the text is exactly one of `0`–`9` or `.`. */
  predicate IsNumberOrDecimal(text: string) {
    |text| == 1 && IsNumeral(text[0])
  }

  /** `isOperator`: the text is exactly one of `+ - × ÷ % −`. ASCII `*` and
      `/` are not operators here, although the evaluator accepts them. */
  predicate IsOperator(text: string) {
    |text| == 1
    && (text[0] == '+' || text[0] == '-' || text[0] == Times
        || text[0] == Divide || text[0] == '%' || text[0] == Minus)
  }

  /** The operator keys are exactly the one-character texts the evaluator
      reads as an operator, less ASCII `*` and `/`; the number keys are
      exactly the digits and the point; no key is both. */
  lemma KeyClasses(c: char)
    ensures IsOperator([c]) <==> IsOperatorChar(SanitiseChar(c)) && c != '*' && c != '/'
    ensures IsNumberOrDecimal([c]) <==> IsRelevant(c) && !IsOperatorChar(c)
    ensures !(IsOperator([c]) && IsNumberOrDecimal([c]))
  {
  }

  // ---------------------------------------------------------------- input

  /** The input branch of `onClick` for a button whose text is `text`. Right
      after equals, an operator continues from the result and a digit or
      point starts a new expression; any other text leaves the expression
      alone. Either way the flag is cleared. Otherwise the text is appended. */
  function Press(st: State, text: string): (r: State)
    ensures !r.justEvaluated
    ensures r.history == st.history
    ensures !st.justEvaluated ==> r.expression == st.expression + text
    ensures st.justEvaluated && IsOperator(text) ==> r.expression == st.expression + text
    ensures st.justEvaluated && IsNumberOrDecimal(text) ==> r.expression == text
    ensures st.justEvaluated && !IsOperator(text) && !IsNumberOrDecimal(text) ==> r.expression == st.expression
  {
    if st.justEvaluated then
      var expression :=
        if IsNumberOrDecimal(text) || IsOperator(text) then
          (if IsOperator(text) then st.expression else "") + text
        else st.expression;
      State(expression, false, st.history)
    else
      st.(expression := st.expression + text)
  }

  /** `updateDisplay`: the text shown for a state. */
  function Display(st: State): (r: string)
    ensures |r| > 0
    ensures r == "0" <==> st.expression == "" || st.expression == "0"
    ensures st.expression != "" ==> r == st.expression
  {
    if st.expression == "" then "0" else st.expression
  }

  /** `handleClear`. */
  function Clear(st: State): (r: State)
    ensures r.expression == "" && !r.justEvaluated
    ensures r.history == st.history
    ensures Display(r) == "0"
  {
    State("", false, st.history)
  }

  /** `handleBackspace`: drops the last character of a non-empty expression
      and clears the flag; an empty expression is left exactly as it is. */
  function Backspace(st: State): (r: State)
    ensures st.expression == "" ==> r == st
    ensures st.expression != "" ==>
      !r.justEvaluated && r.expression + [st.expression[|st.expression| - 1]] == st.expression
    ensures r.history == st.history
  {
    if st.expression == "" then st
    else State(st.expression[..|st.expression| - 1], false, st.history)
  }

  // ---------------------------------------------------------------- results

  predicate IsIntegral(x: real) {
    x == x.Floor as real
  }

  /** `formatResult`: an integral value is printed by `String.format("%d")`
      with no point; NaN prints as "NaN"; every other value is printed by
      `String.valueOf(double)`, which is the parameter `render`. */
  function FormatResult(v: Value, render: real -> string): (r: string)
    ensures v.NaN? ==> r == "NaN"
    ensures v.Num? && IsIntegral(v.x) ==>
      && |r| > 0
      && (r[0] == '-' <==> v.x < 0.0)
      && AllDigits(Magnitude(r)) && |Magnitude(r)| > 0
      && DigitsValue(Magnitude(r)) as real == Abs(v.x)
      && (Magnitude(r)[0] == '0' ==> Magnitude(r) == "0")
    ensures v.Num? && !IsIntegral(v.x) ==> r == render(v.x)
  {
    match v
    case NaN => "NaN"
    case Num(x) => if IsIntegral(x) then IntToString(x.Floor) else render(x)
  }

  /** An integer result is printed exactly as `%d` prints that integer. */
  lemma FormatInteger(n: int, render: real -> string)
    ensures FormatResult(Num(n as real), render) == IntToString(n)
  {
    assert (n as real).Floor == n;
  }

  /** Round trip: the digits of a printed integral result parse back to its
      magnitude, and the sign is carried by the leading minus alone. */
  lemma FormatResultParses(x: real, render: real -> string)
    requires IsIntegral(x)
    ensures var r := FormatResult(Num(x), render);
      && (r[0] == '-' <==> x < 0.0)
      && ParseNumeral(Magnitude(r)) == Some(Abs(x))
  {
    DigitsParse(Magnitude(FormatResult(Num(x), render)));
  }

  /** `handleEquals`. Nothing happens on an empty expression or right after
      equals. On success the entry `expression = result` goes to the front
      of the history and the result becomes the expression; any exception
      turns the expression into "Error" and records nothing. The flag is set
      in both cases. */
  function Equals(st: State, render: real -> string): (r: State)
    ensures st.expression == "" || st.justEvaluated ==> r == st
    ensures st.expression != "" && !st.justEvaluated ==> r.justEvaluated
    ensures st.expression != "" && !st.justEvaluated && Evaluate(st.expression).Ok? ==>
      && r.expression == FormatResult(Evaluate(st.expression).value, render)
      && r.history == [st.expression + " = " + r.expression] + st.history
    ensures st.expression != "" && !st.justEvaluated && Evaluate(st.expression).Err? ==>
      r.expression == "Error" && r.history == st.history
  {
    if st.expression == "" || st.justEvaluated then st
    else match Evaluate(st.expression)
      case Ok(v) =>
        var result := FormatResult(v, render);
        State(result, true, [st.expression + " = " + result] + st.history)
      case Err(_) => State("Error", true, st.history)
  }

  // ---------------------------------------------------------------- sign toggle

  /** The characters Java's `$` may stand before at the end of the input. */
  predicate IsLineTerminator(c: char) {
    c == '\n' || c == '\r' || c == '\U{0085}' || c == '\U{2028}' || c == '\U{2029}'
  }

  /** Without the MULTILINE flag, `$` matches at the end of the input and
      also just before a final line terminator (`\r\n` counting as one). */
  function TerminatorLength(s: string): (n: nat)
    ensures n <= |s|
  {
    if |s| >= 2 && s[|s| - 2] == '\r' && s[|s| - 1] == '\n' then 2
    else if |s| >= 1 && IsLineTerminator(s[|s| - 1]) then 1
    else 0
  }

  /** The part of `s` before the position where `$` matches. */
  function Body(s: string): string {
    s[..|s| - TerminatorLength(s)]
  }

  /** `Body` is a prefix that differs from the text exactly when the text
      ends in a line terminator, and then drops only that terminator, or a
      final `\r\n`. */
  lemma BodyDropsTerminator(s: string)
    ensures |Body(s)| <= |s| <= |Body(s)| + 2 && s[..|Body(s)|] == Body(s)
    ensures Body(s) == s <==> s == [] || !IsLineTerminator(s[|s| - 1])
    ensures |s| == |Body(s)| + 1 ==> IsLineTerminator(s[|s| - 1])
    ensures |s| == |Body(s)| + 2 ==> s[|Body(s)|..] == "\r\n"
    ensures |s| >= 2 && s[|s| - 2..] == "\r\n" ==> |Body(s)| == |s| - 2
  {
  }

  /** Every character of `s` in [lo, hi) is a digit. */
  ghost predicate DigitsBetween(s: string, lo: int, hi: int)
    requires 0 <= lo <= hi <= |s|
  {
    forall i :: lo <= i < hi ==> IsDigit(s[i])
  }

  /** `s[q..]` is matched by `[0-9]+(\.[0-9]+)?`: one run of digits, or two
      runs joined by a point. */
  ghost predicate IsNumberSuffix(s: string, q: int) {
    && 0 <= q < |s|
    && (|| DigitsBetween(s, q, |s|)
        || exists dot :: q < dot < |s| - 1 && s[dot] == '.' && DigitsBetween(s, q, dot) && DigitsBetween(s, dot + 1, |s|))
  }

  /** Backward scan: the start of the longest run of digits ending at `end`. */
  function DigitRunStart(s: string, end: nat): (p: nat)
    requires end <= |s|
    ensures p <= end
    ensures DigitsBetween(s, p, end)
    ensures p == 0 || !IsDigit(s[p - 1])
    decreases end
  {
    if end > 0 && IsDigit(s[end - 1]) then DigitRunStart(s, end - 1) else end
  }

  /** Every run of digits ending at `end` starts at or after the position the
      backward scan stops at. */
  lemma DigitRunIsLongest(s: string, end: nat, q: nat)
    requires q <= end <= |s| && DigitsBetween(s, q, end)
    ensures DigitRunStart(s, end) <= q
  {
  }

  /** `Matcher.find()` on `([0-9]+(\.[0-9]+)?)$` over the text before the
      end anchor, as a backward scan: the start of the matched number, whose
      characters are all digits and points. */
  function TrailingNumberStart(s: string): (r: Option<nat>)
    ensures r.Some? ==> r.value < |s| && AllNumerals(s[r.value..])
  {
    var p := DigitRunStart(s, |s|);
    if p == |s| then None
    else if p >= 2 && s[p - 1] == '.' && DigitRunStart(s, p - 1) < p - 1 then
      var q := DigitRunStart(s, p - 1);
      assert AllNumerals(s[q..]) by {
        forall i | 0 <= i < |s[q..]| ensures IsNumeral(s[q..][i]) {
          assert s[q..][i] == s[q + i];
          if q + i < p - 1 { assert DigitsBetween(s, q, p - 1); }
          else if q + i >= p { assert DigitsBetween(s, p, |s|); }
        }
      }
      Some(q)
    else
      assert AllNumerals(s[p..]) by {
        forall i | 0 <= i < |s[p..]| ensures IsNumeral(s[p..][i]) {
          assert s[p..][i] == s[p + i];
          assert DigitsBetween(s, p, |s|);
        }
      }
      Some(p)
  }

  /** The scan agrees with the regex: it finds a number suffix exactly when
      there is one, and then the leftmost, hence longest, one. */
  lemma TrailingNumberIsLongestSuffix(s: string)
    ensures TrailingNumberStart(s).Some? ==> IsNumberSuffix(s, TrailingNumberStart(s).value)
    ensures TrailingNumberStart(s).Some? ==>
      forall q :: 0 <= q < TrailingNumberStart(s).value ==> !IsNumberSuffix(s, q)
    ensures TrailingNumberStart(s).None? ==> forall q :: 0 <= q <= |s| ==> !IsNumberSuffix(s, q)
  {
    var r := TrailingNumberStart(s);
    forall q | IsNumberSuffix(s, q)
      ensures r.Some? && r.value <= q
    {
      NumberSuffixFound(s, q);
    }
    var p := DigitRunStart(s, |s|);
    if p < |s| {
      if p >= 2 && s[p - 1] == '.' && DigitRunStart(s, p - 1) < p - 1 {
        var dot := p - 1;
        assert DigitsBetween(s, r.value, dot) && DigitsBetween(s, dot + 1, |s|);
      } else {
        assert DigitsBetween(s, p, |s|);
      }
    }
  }

  /** Where a number suffix starts, relative to the two backward scans. */
  lemma NumberSuffixFound(s: string, q: nat)
    requires IsNumberSuffix(s, q)
    ensures var p := DigitRunStart(s, |s|);
      && p < |s|
      && (|| p <= q
          || (p >= 2 && s[p - 1] == '.' && DigitRunStart(s, p - 1) <= q && q < p - 1))
  {
    if !DigitsBetween(s, q, |s|) {
      var dot :| q < dot < |s| - 1 && s[dot] == '.' && DigitsBetween(s, q, dot) && DigitsBetween(s, dot + 1, |s|);
      PointedSuffixFound(s, q, dot);
    }
  }

  /** A suffix `I.F` of `s` with the point at `dot`: the backward scan stops
      right after the point, and the run before the point reaches back to `q`
      or further. */
  lemma PointedSuffixFound(s: string, q: nat, dot: nat)
    requires q < dot < |s| - 1 && s[dot] == '.'
    requires DigitsBetween(s, q, dot) && DigitsBetween(s, dot + 1, |s|)
    ensures DigitRunStart(s, |s|) == dot + 1
    ensures DigitRunStart(s, dot) <= q
  {
    DigitRunIsLongest(s, |s|, dot + 1);
    DigitRunIsLongest(s, dot, q);
  }

  /** `handlePlusMinus`. Nothing happens on an empty expression, right after
      equals, or when no number ends the expression. Otherwise the trailing
      number is toggled. */
  function PlusMinus(st: State, render: real -> string): (r: State)
    ensures r.history == st.history && r.justEvaluated == st.justEvaluated
    ensures st.expression == "" || st.justEvaluated ==> r == st
  {
    if st.expression == "" || st.justEvaluated then st
    else match TrailingNumberStart(Body(st.expression))
      case None => st
      case Some(p) => st.(expression := Toggle(st.expression, p, render))
  }

  /** The number that starts at `p` and runs to the end anchor is parsed,
      negated and formatted, and replaces the matched text (and whatever the
      anchor skipped); the part before it is kept. */
  function Toggle(s: string, p: nat, render: real -> string): string
    requires p <= |Body(s)| && AllNumerals(Body(s)[p..])
  {
    match ParseNumeral(Body(s)[p..])
    case None => s  // NumberFormatException is caught and ignored
    case Some(x) => s[..p] + FormatResult(Num(-x), render)
  }

  /** Toggling keeps the text before the number. */
  lemma ToggleKeepsPrefix(s: string, p: nat, render: real -> string)
    requires p <= |Body(s)| && AllNumerals(Body(s)[p..])
    ensures p <= |Toggle(s, p, render)|
    ensures Toggle(s, p, render)[..p] == s[..p]
  {
    match ParseNumeral(Body(s)[p..])
    case None =>
    case Some(x) =>
      Splice(s, p, FormatResult(Num(-x), render));
  }

  /** A number of digits only is replaced by the `%d` form of its negation. */
  lemma ToggleInteger(s: string, p: nat, render: real -> string)
    requires p <= |Body(s)| && AllNumerals(Body(s)[p..])
    requires |Body(s)[p..]| > 0 && AllDigits(Body(s)[p..])
    ensures Toggle(s, p, render) == s[..p] + IntToString(-(DigitsValue(Body(s)[p..]) as int))
  {
    var t := Body(s)[p..];
    DigitsParse(t);
    var n := DigitsValue(t) as int;
    assert -(n as real) == (-n) as real;
    FormatInteger(-n, render);
  }

  /** A number `I.F` is replaced by the formatted negation of its value. */
  lemma TogglePointed(s: string, p: nat, whole: string, fraction: string, render: real -> string)
    requires p <= |Body(s)| && AllNumerals(Body(s)[p..])
    requires Body(s)[p..] == whole + "." + fraction
    requires AllDigits(whole) && AllDigits(fraction) && |whole| + |fraction| > 0
    ensures Toggle(s, p, render) == s[..p] + FormatResult(Num(-PointedValue(whole, fraction)), render)
  {
    PointedParse(whole, fraction);
    assert ParseNumeral(Body(s)[p..]) == Some(PointedValue(whole, fraction));
  }

  /** Appending to a prefix keeps the prefix and puts the new text after it. */
  lemma Splice(s: string, p: nat, tail: string)
    requires p <= |s|
    ensures |s[..p] + tail| >= p
    ensures (s[..p] + tail)[..p] == s[..p]
    ensures (s[..p] + tail)[p..] == tail
  {
  }

  /** With no number at the end, the sign toggle changes nothing. */
  lemma PlusMinusWithoutNumber(st: State, render: real -> string)
    requires TrailingNumberStart(Body(st.expression)).None?
    ensures PlusMinus(st, render) == st
  {
  }

  /** When a number ends the expression, the sign toggle is `Toggle` at the
      start of that number. */
  lemma PlusMinusToggles(st: State, p: nat, render: real -> string)
    requires st.expression != "" && !st.justEvaluated
    requires TrailingNumberStart(Body(st.expression)) == Some(p)
    ensures p <= |Body(st.expression)| && AllNumerals(Body(st.expression)[p..])
    ensures PlusMinus(st, render).expression == Toggle(st.expression, p, render)
  {
  }

  /** The sign toggle keeps the text before the trailing number. */
  lemma PlusMinusKeepsPrefix(st: State, p: nat, render: real -> string)
    requires st.expression != "" && !st.justEvaluated
    requires TrailingNumberStart(Body(st.expression)) == Some(p)
    ensures p <= |PlusMinus(st, render).expression|
    ensures PlusMinus(st, render).expression[..p] == st.expression[..p]
  {
    PlusMinusToggles(st, p, render);
    ToggleKeepsPrefix(st.expression, p, render);
  }

  /** An integer at the end is replaced by the `%d` form of its negation, and
      the text before it is kept. */
  lemma PlusMinusInteger(st: State, p: nat, render: real -> string)
    requires st.expression != "" && !st.justEvaluated
    requires TrailingNumberStart(Body(st.expression)) == Some(p)
    requires AllDigits(Body(st.expression)[p..])
    ensures PlusMinus(st, render).expression
         == st.expression[..p] + IntToString(-(DigitsValue(Body(st.expression)[p..]) as int))
  {
    PlusMinusToggles(st, p, render);
    ToggleInteger(st.expression, p, render);
  }

  /** A trailing `I.F` is replaced by the formatted negation of its value
      I + F / 10^|F|, and the text before it is kept. */
  lemma PlusMinusPointed(st: State, p: nat, whole: string, fraction: string, render: real -> string)
    requires st.expression != "" && !st.justEvaluated
    requires TrailingNumberStart(Body(st.expression)) == Some(p)
    requires Body(st.expression)[p..] == whole + "." + fraction
    requires AllDigits(whole) && AllDigits(fraction) && |whole| + |fraction| > 0
    ensures PlusMinus(st, render).expression
         == st.expression[..p] + FormatResult(Num(-PointedValue(whole, fraction)), render)
  {
    PlusMinusToggles(st, p, render);
    TogglePointed(st.expression, p, whole, fraction, render);
  }

  // ---------------------------------------------------------------- sessions

  /** The buttons `onClick` tells apart: the four control buttons, and every
      other button by its text. */
  datatype Key = Text(text: string) | EqualsKey | ClearKey | BackspaceKey | PlusMinusKey

  /** `onClick`: dispatch one button press. */
  function Handle(st: State, key: Key, render: real -> string): State {
    match key
    case EqualsKey => Equals(st, render)
    case ClearKey => Clear(st)
    case BackspaceKey => Backspace(st)
    case PlusMinusKey => PlusMinus(st, render)
    case Text(text) => Press(st, text)
  }

  /** A session: the keys pressed in order. */
  function Run(st: State, keys: seq<Key>, render: real -> string): State
    decreases |keys|
  {
    if keys == [] then st else Run(Handle(st, keys[0], render), keys[1..], render)
  }

  /** No handler edits the history except by putting one entry in front. */
  lemma HandleKeepsHistory(st: State, key: Key, render: real -> string)
    ensures var r := Handle(st, key, render);
      r.history == st.history || (|r.history| == |st.history| + 1 && r.history[1..] == st.history)
  {
  }

  /** Over any session the history only grows at the front: the entries there
      at the start are still there at the end, in the same order, and there
      is at most one new entry per key. */
  lemma {:induction false} HistoryOnlyGrows(st: State, keys: seq<Key>, render: real -> string)
    ensures var r := Run(st, keys, render);
      && |st.history| <= |r.history| <= |st.history| + |keys|
      && r.history[|r.history| - |st.history|..] == st.history
    decreases |keys|
  {
    if keys != [] {
      var next := Handle(st, keys[0], render);
      HandleKeepsHistory(st, keys[0], render);
      HistoryOnlyGrows(next, keys[1..], render);
      SuffixGrows(st.history, next.history, Run(next, keys[1..], render).history, |keys| - 1);
    }
  }

  /** One step that keeps a history or adds one entry in front, followed by
      steps that keep `mid` as a suffix with at most `n` new entries, keeps
      the first history as a suffix with at most n + 1 new entries. */
  lemma SuffixGrows(first: seq<string>, mid: seq<string>, last: seq<string>, n: nat)
    requires mid == first || (|mid| == |first| + 1 && mid[1..] == first)
    requires |mid| <= |last| <= |mid| + n && last[|last| - |mid|..] == mid
    ensures |first| <= |last| <= |first| + n + 1
    ensures last[|last| - |first|..] == first
  {
    if mid != first {
      assert last[|last| - |first|..] == mid[1..];
    }
  }

  /** Clearing twice is clearing once. */
  lemma ClearIdempotent(st: State)
    ensures Clear(Clear(st)) == Clear(st)
    ensures Display(Clear(st)) == "0"
  {
  }

  /** While typing, backspace undoes the last one-character key. */
  lemma BackspaceUndoesPress(st: State, c: char)
    requires !st.justEvaluated
    ensures Backspace(Press(st, [c])) == st
  {
    assert (st.expression + [c])[..|st.expression|] == st.expression;
  }

  /** Equals acts once: pressing it again changes nothing. */
  lemma EqualsIdempotent(st: State, render: real -> string)
    ensures Equals(Equals(st, render), render) == Equals(st, render)
  {
  }

  /** Equals records an entry exactly when evaluation succeeds; it shows
      "Error" without recording when a number token does not parse, when
      there are numbers but not one more than there are operators, or when a
      `/` has a zero right operand. */
  lemma EqualsOutcome(st: State, render: real -> string)
    requires st.expression != "" && !st.justEvaluated
    ensures var r := Equals(st, render);
      var p := Split(Sanitise(st.expression));
      var failed :=
        || (exists t :: t in p.numbers && ParseNumeral(t).None?)
        || (var xs := ParseAll(p.numbers).value;
            ParseAll(p.numbers).Ok? && xs != []
            && (|p.operators| >= |xs| || !NoZeroDivisor(xs, p.operators, |p.operators|)));
      && r.justEvaluated
      && (failed ==> r.expression == "Error" && r.history == st.history)
      && (!failed ==> |r.history| == |st.history| + 1 && r.history[0] == st.expression + " = " + r.expression)
  {
    EvaluateFailsIff(st.expression);
  }

  /** After a successful equals, an operator continues from the result and a
      digit starts over. */
  lemma ChainAfterEquals(st: State, render: real -> string, op: string, digit: string)
    requires st.expression != "" && !st.justEvaluated && Evaluate(st.expression).Ok?
    requires IsOperator(op) && IsNumberOrDecimal(digit)
    ensures var r := Equals(st, render);
      && Press(r, op) == State(r.expression + op, false, r.history)
      && Press(r, digit) == State(digit, false, r.history)
  {
  }

  // ---------------------------------------------------------------- examples

  /** No precedence: `a+b×5` for digits a and b evaluates to (a + b) · 5,
      as `2+3×5` evaluates to 25. */
  lemma NoPrecedence(a: char, b: char)
    requires IsDigit(a) && IsDigit(b)
    ensures Evaluate([a, '+', b, Times, '5'])
         == Ok(Num((DigitValue(a) as real + DigitValue(b) as real) * 5.0))
  {
    SumThenProductFolds(a, b, '5');
    assert DigitValue('5') as real == 5.0;
    FoldsToProduct([a, '+', b, Times, '5'], DigitValue(a) as real, DigitValue(b) as real, 5.0);
  }

  /** Equals on `a+b×5` shows the `%d` form of (a + b) · 5 and records it,
      as `2+3×5` shows 25, not the 17 of operator precedence. */
  lemma EqualsNoPrecedence(a: char, b: char, history: seq<string>, render: real -> string)
    requires IsDigit(a) && IsDigit(b)
    ensures var e := [a, '+', b, Times, '5'];
      var shown := IntToString((DigitValue(a) + DigitValue(b)) * 5);
      Equals(State(e, false, history), render) == State(shown, true, [e + " = " + shown] + history)
  {
    NoPrecedence(a, b);
    var n := (DigitValue(a) + DigitValue(b)) * 5;
    assert n as real == (DigitValue(a) as real + DigitValue(b) as real) * 5.0;
    FormatInteger(n, render);
  }

  /** The instance a = 2, b = 3: equals on `2+3×5` shows "25" and records
      `2+3×5 = 25`. */
  lemma EqualsTwentyFive(history: seq<string>, render: real -> string)
    ensures var e := ['2', '+', '3', Times, '5'];
      Equals(State(e, false, history), render) == State("25", true, [e + " = 25"] + history)
  {
    var e := ['2', '+', '3', Times, '5'];
    EqualsNoPrecedence('2', '3', history, render);
    TwentyFivePrints();
    assert e + " = " + "25" == e + " = 25";
  }

  /** `a÷0` fails for every digit a: the divisor of the `/` is zero. */
  lemma DivideByZeroDigit(a: char)
    requires IsDigit(a)
    ensures Evaluate([a, Divide, '0']) == Err(DivisionByZero)
  {
    var numbers, operators := [[a], "0"], ['/'];
    var xs := [DigitValue(a) as real, 0.0];
    SingleDigitValue(a);
    SingleDigitValue('0');
    assert WellFormed(numbers, operators);
    ParseAllDigits(numbers);
    var parsed := ParseAll(numbers).value;
    assert parsed[0] == xs[0] && parsed[1] == xs[1];
    assert parsed == xs;
    assert Join(numbers, operators) == [a, '/', '0'] by {
      assert numbers[..1] == [[a]] && operators[..0] == [];
    }
    assert Sanitise([a, Divide, '0']) == [a, '/', '0'];
    EvaluateTokens([a, Divide, '0'], numbers, operators, xs);
    assert operators[..0] == [];
  }

  /** Equals on `a÷0` shows "Error", sets the flag and records nothing. */
  lemma EqualsDivideByZero(a: char, history: seq<string>, render: real -> string)
    requires IsDigit(a)
    ensures Equals(State([a, Divide, '0'], false, history), render) == State("Error", true, history)
  {
    DivideByZeroDigit(a);
  }

  /** An expression ending in an operator has an operator without a right
      operand. */
  lemma TrailingOperatorFails(a: char)
    requires IsDigit(a)
    ensures Evaluate([a, '+']) == Err(MissingOperand)
  {
    var s := [a, '+'];
    assert Sanitise(s) == s;
    assert ScanFrom(Start, [a]) == Scan([], [], [a]) by {
      assert [a][..0] == [] && "" + [a] == [a];
    }
    assert s[..1] == [a];
    assert ScanFrom(Start, s) == Scan([[a]], ['+'], "");
    assert Split(s) == Pieces([[a]], ['+']);
    SingleDigitParses(a);
    EvaluatePieces(s, [[a]], ['+'], [DigitValue(a) as real]);
    assert ['+'][..0] == [];
  }

  /** A leading minus is an operator with no left operand: `−a` folds `-`
      onto a and then finds no number for it. */
  lemma LeadingMinusFails(a: char)
    requires IsDigit(a)
    ensures Evaluate([Minus, a]) == Err(MissingOperand)
  {
    LeadingMinusSanitises(a);
    LeadingMinusSplits(a);
    SingleDigitParses(a);
    EvaluatePieces([Minus, a], [[a]], ['-'], [DigitValue(a) as real]);
    assert ['-'][..0] == [];
  }

  /** The sign toggle rewrites only the trailing number: after any text that
      does not end in a digit or a point, a non-zero digit d becomes `-d`, as
      `12+7` becomes `12+-7`. */
  lemma PlusMinusLastDigit(s: string, d: char, history: seq<string>, render: real -> string)
    requires '1' <= d <= '9'
    requires s == [] || (!IsDigit(s[|s| - 1]) && s[|s| - 1] != '.')
    ensures PlusMinus(State(s + [d], false, history), render).expression == s + ['-', d]
  {
    LastDigitNegated(s, d, history, render);
    NegatedDigit(d);
  }

  /** The sign toggle does not undo itself: the pattern has no sign, so a
      second toggle of `d` gives `--d`, not `d`. */
  lemma PlusMinusTwice(d: char, history: seq<string>, render: real -> string)
    requires '1' <= d <= '9'
    ensures var once := PlusMinus(State([d], false, history), render);
      once.expression == ['-', d] && PlusMinus(once, render).expression == ['-', '-', d]
  {
    var none: string := [];
    PlusMinusLastDigit(none, d, history, render);
    assert none + [d] == [d] && none + ['-', d] == ['-', d];
    var once := PlusMinus(State([d], false, history), render);
    assert once.history == history && !once.justEvaluated;
    assert once == State(['-'] + [d], false, history);
    PlusMinusLastDigit(['-'], d, history, render);
    assert ['-'] + [d] == ['-', d] && ['-'] + ['-', d] == ['-', '-', d];
  }

  // ---------------------------------------------------------------- example scaffolding
  // Small steps the examples above are built from: each keeps one proof
  // obligation small enough for the solver.

  /** An expression that folds as x + y * z evaluates to (x + y) · z. */
  lemma FoldsToProduct(e: string, x: real, y: real, z: real)
    requires Evaluate(e) == GetResult([x, y, z], ['+', '*'])
    ensures Evaluate(e) == Ok(Num((x + y) * z))
  {
    SumThenProduct(x, y, z);
  }

  /** `a+b×c` evaluates to the fold of its three digits' values. */
  lemma SumThenProductFolds(a: char, b: char, c: char)
    requires IsDigit(a) && IsDigit(b) && IsDigit(c)
    ensures Evaluate([a, '+', b, Times, c])
         == GetResult([DigitValue(a) as real, DigitValue(b) as real, DigitValue(c) as real], ['+', '*'])
  {
    var xs := SingleDigitsParse(a, b, c);
    SumThenProductTokens(a, b, c);
    EvaluateTokens([a, '+', b, Times, c], [[a], [b], [c]], ['+', '*'], xs);
  }

  /** `a+b×c` sanitises to its three digits joined by `+` and `*`. */
  lemma SumThenProductTokens(a: char, b: char, c: char)
    requires IsDigit(a) && IsDigit(b) && IsDigit(c)
    ensures Sanitise([a, '+', b, Times, c]) == Join([[a], [b], [c]], ['+', '*'])
  {
    assert Join([[a], [b]], ['+']) == [a, '+', b] by {
      assert [[a], [b]][..1] == [[a]] && ['+'][..0] == [];
    }
    assert Join([[a], [b], [c]], ['+', '*']) == [a, '+', b, '*', c] by {
      assert [[a], [b], [c]][..2] == [[a], [b]] && ['+', '*'][..1] == ['+'];
    }
  }

  /** A one-digit string has that digit's value. */
  lemma SingleDigitValue(d: char)
    requires IsDigit(d)
    ensures AllDigits([d]) && AllNumerals([d]) && DigitsValue([d]) == DigitValue(d)
  {
    assert [d][..0] == [];
  }

  /** Three one-digit tokens separated by operators are well formed and parse
      to the digits' values. */
  lemma SingleDigitsParse(a: char, b: char, c: char) returns (xs: seq<real>)
    requires IsDigit(a) && IsDigit(b) && IsDigit(c)
    ensures WellFormed([[a], [b], [c]], ['+', '*'])
    ensures xs == [DigitValue(a) as real, DigitValue(b) as real, DigitValue(c) as real]
    ensures ParseAll([[a], [b], [c]]) == Ok(xs)
  {
    var numbers := [[a], [b], [c]];
    xs := [DigitValue(a) as real, DigitValue(b) as real, DigitValue(c) as real];
    SingleDigitValue(a);
    SingleDigitValue(b);
    SingleDigitValue(c);
    ParseAllDigits(numbers);
    var parsed := ParseAll(numbers).value;
    assert parsed[0] == xs[0] && parsed[1] == xs[1] && parsed[2] == xs[2];
    assert parsed == xs;
  }

  /** A single one-digit token parses to the digit's value. */
  lemma SingleDigitParses(a: char)
    requires IsDigit(a)
    ensures ParseAll([[a]]) == Ok([DigitValue(a) as real])
  {
    SingleDigitValue(a);
    ParseAllDigits([[a]]);
    assert ParseAll([[a]]).value == [DigitValue(a) as real];
  }

  /** The negation of a non-zero digit prints as a minus and that digit. */
  lemma NegatedDigit(d: char)
    requires '1' <= d <= '9'
    ensures IntToString(-(DigitValue(d) as int)) == ['-', d]
  {
    assert DigitChar(DigitValue(d)) == d;
  }

  /** A digit typed after anything but a digit or a point is the whole
      trailing number, and no line terminator ends the text. */
  lemma TrailingDigit(s: string, d: char)
    requires IsDigit(d)
    requires s == [] || (!IsDigit(s[|s| - 1]) && s[|s| - 1] != '.')
    ensures Body(s + [d]) == s + [d]
    ensures TrailingNumberStart(s + [d]) == Some(|s|)
    ensures (s + [d])[|s|..] == [d]
  {
    var t := s + [d];
    assert t[|t| - 1] == d;
    assert TerminatorLength(t) == 0;
    assert t[..|t|] == t;
    assert DigitRunStart(t, |s|) == |s|;
    assert DigitRunStart(t, |t|) == |s|;
  }

  /** A digit after a non-number is replaced by the `%d` form of its negation. */
  lemma LastDigitNegated(s: string, d: char, history: seq<string>, render: real -> string)
    requires IsDigit(d)
    requires s == [] || (!IsDigit(s[|s| - 1]) && s[|s| - 1] != '.')
    ensures PlusMinus(State(s + [d], false, history), render).expression
         == s + IntToString(-(DigitValue(d) as int))
  {
    TrailingDigit(s, d);
    LoneDigitToggled(s + [d], |s|, d, history, render);
    assert (s + [d])[..|s|] == s;
  }

  /** A trailing number that is the single digit d is replaced by the `%d`
      form of -d. */
  lemma LoneDigitToggled(t: string, p: nat, d: char, history: seq<string>, render: real -> string)
    requires IsDigit(d) && t != []
    requires TrailingNumberStart(Body(t)) == Some(p) && Body(t)[p..] == [d]
    ensures PlusMinus(State(t, false, history), render).expression
         == t[..p] + IntToString(-(DigitValue(d) as int))
  {
    SingleDigitValue(d);
    assert AllDigits(Body(t)[p..]) && DigitsValue(Body(t)[p..]) == DigitValue(d);
    PlusMinusInteger(State(t, false, history), p, render);
  }

  /** (2 + 3) · 5 prints as "25". */
  lemma TwentyFivePrints()
    ensures IntToString((DigitValue('2') + DigitValue('3')) * 5) == "25"
  {
    assert (DigitValue('2') + DigitValue('3')) * 5 == 25;
    assert NatToString(25) == NatToString(2) + "5";
  }

  /** `−a` sanitises to `-a`. */
  lemma LeadingMinusSanitises(a: char)
    requires IsDigit(a)
    ensures Sanitise([Minus, a]) == ['-', a]
  {
  }

  /** `-a` splits into the one number `a` and the one operator `-`. */
  lemma LeadingMinusSplits(a: char)
    requires IsDigit(a)
    ensures Split(['-', a]) == Pieces([[a]], ['-'])
  {
    var s := ['-', a];
    assert ScanFrom(Start, ['-']) == Scan([], ['-'], "") by {
      assert ['-'][..0] == [];
    }
    assert s[..1] == ['-'];
    assert ScanFrom(Start, s) == Scan([], ['-'], [a]);
  }
}
