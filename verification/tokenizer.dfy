/** The first half of `evaluateExpression`: the display glyphs are mapped to
    ASCII operators, then one left-to-right scan splits the string into number
    tokens and operator characters. */
module Tokenizer {
  import opened Wrappers
  import opened Numerals

  /** The display glyphs for multiply, divide and minus. */
  const Times: char := '\U{00D7}'
  const Divide: char := '\U{00F7}'
  const Minus: char := '\U{2212}'

  /** The characters that end a number token and are kept as operators. */
  predicate IsOperatorChar(c: char) {
    c == '+' || c == '-' || c == '*' || c == '/' || c == '%'
  }

  /** Characters the scan does anything with; every other character is skipped. */
  predicate IsRelevant(c: char) {
    IsNumeral(c) || IsOperatorChar(c)
  }

  /** The three chained `String.replace` calls, one character at a time. */
  function SanitiseChar(c: char): char {
    if c == Times then '*'
    else if c == Divide then '/'
    else if c == Minus then '-'
    else c
  }

  function Sanitise(s: string): (r: string)
    ensures |r| == |s|
    ensures forall i :: 0 <= i < |s| ==> r[i] == SanitiseChar(s[i])
    ensures forall i :: 0 <= i < |r| ==> r[i] != Times && r[i] != Divide && r[i] != Minus
  {
    seq(|s|, i requires 0 <= i < |s| => SanitiseChar(s[i]))
  }

  /** The scan's variables between two characters: the numbers flushed so far
      (kept as text; they are parsed afterwards, in the same order), the
      operators seen so far, and the pending number buffer. */
  datatype Scan = Scan(numbers: seq<string>, operators: seq<char>, pending: string)

  const Start := Scan([], [], "")

  /** One iteration of the scanning loop. */
  function Step(st: Scan, c: char): Scan {
    if IsNumeral(c) then st.(pending := st.pending + [c])
    else if IsOperatorChar(c) then
      if |st.pending| > 0 then Scan(st.numbers + [st.pending], st.operators + [c], "")
      else st.(operators := st.operators + [c])
    else st
  }

  /** The loop run over all of `s`, starting in state `st`. */
  function ScanFrom(st: Scan, s: string): Scan
    decreases |s|
  {
    if s == [] then st else Step(ScanFrom(st, s[..|s| - 1]), s[|s| - 1])
  }

  /** The number tokens and operators of an expression. */
  datatype Pieces = Pieces(numbers: seq<string>, operators: seq<char>)

  /** The loop followed by the final flush of a non-empty buffer. */
  function Split(s: string): (r: Pieces)
    ensures forall i :: 0 <= i < |r.numbers| ==> |r.numbers[i]| > 0 && AllNumerals(r.numbers[i])
    ensures |r.numbers| <= |r.operators| + 1
    ensures r.operators == Operators(s)
  {
    ScanInvariant(s);
    var st := ScanFrom(Start, s);
    if |st.pending| > 0 then Pieces(st.numbers + [st.pending], st.operators)
    else Pieces(st.numbers, st.operators)
  }

  /** Reference: the operator characters of `s`, in order. */
  function Operators(s: string): seq<char> {
    if s == [] then []
    else Operators(s[..|s| - 1]) + (if IsOperatorChar(s[|s| - 1]) then [s[|s| - 1]] else [])
  }

  /** Reference: `s` with every character the scan skips removed. */
  function Relevant(s: string): (r: string)
    ensures forall i :: 0 <= i < |r| ==> IsRelevant(r[i])
  {
    if s == [] then []
    else Relevant(s[..|s| - 1]) + (if IsRelevant(s[|s| - 1]) then [s[|s| - 1]] else [])
  }

  /** Reference: the pieces the operator characters cut `s` into, left to
      right, with every skipped character dropped. Two adjacent operators,
      or one at either end, leave an empty piece. */
  function Cuts(s: string): (g: seq<string>)
    ensures |g| > 0
    decreases |s|
  {
    if s == [] then [""]
    else
      var g := Cuts(s[..|s| - 1]);
      var c := s[|s| - 1];
      if IsOperatorChar(c) then g + [""]
      else if IsNumeral(c) then g[..|g| - 1] + [g[|g| - 1] + [c]]
      else g
  }

  /** The non-empty pieces of `g`, in order. */
  function NonEmpty(g: seq<string>): seq<string> {
    if g == [] then []
    else NonEmpty(g[..|g| - 1]) + (if g[|g| - 1] == "" then [] else [g[|g| - 1]])
  }

  /** After any prefix, the buffer is the last piece and the flushed numbers
      are the non-empty earlier pieces. */
  lemma {:induction false} ScanIsCuts(s: string)
    ensures ScanFrom(Start, s).pending == Cuts(s)[|Cuts(s)| - 1]
    ensures ScanFrom(Start, s).numbers == NonEmpty(Cuts(s)[..|Cuts(s)| - 1])
    decreases |s|
  {
    if s != [] {
      var init := s[..|s| - 1];
      ScanIsCuts(init);
      var g := Cuts(init);
      var c := s[|s| - 1];
      if IsOperatorChar(c) {
        assert (g + [""])[..|g|] == g;
        assert g == g[..|g| - 1] + [g[|g| - 1]];
      } else if IsNumeral(c) {
        var h := g[..|g| - 1] + [g[|g| - 1] + [c]];
        assert h[..|h| - 1] == g[..|g| - 1];
      }
    }
  }

  /** The number tokens of every input are exactly its non-empty pieces:
      `5+` gives `5`, `−5` gives `5`, `5++3` gives `5` and `3`. */
  lemma SplitIsCuts(s: string)
    ensures Split(s).numbers == NonEmpty(Cuts(s))
  {
    ScanIsCuts(s);
    var g := Cuts(s);
    assert g == g[..|g| - 1] + [g[|g| - 1]];
  }

  /** What the scan keeps true: flushed tokens are non-empty runs of digits
      and points, the buffer holds digits and points, every flushed number
      was followed by an operator, and the operators are those of the input. */
  ghost predicate Invariant(st: Scan, s: string) {
    && (forall i :: 0 <= i < |st.numbers| ==> |st.numbers[i]| > 0 && AllNumerals(st.numbers[i]))
    && AllNumerals(st.pending)
    && |st.numbers| <= |st.operators|
    && st.operators == Operators(s)
  }

  lemma {:induction false} ScanInvariant(s: string)
    ensures Invariant(ScanFrom(Start, s), s)
    decreases |s|
  {
    if s != [] {
      var init, c := s[..|s| - 1], s[|s| - 1];
      ScanInvariant(init);
      var st := ScanFrom(Start, init);
      assert s[..|s| - 1] == init;
      if IsNumeral(c) {
        assert AllNumerals(st.pending + [c]);
      }
    }
  }

  /** Skipped characters make no difference: the tokens of `s` are those of
      its digits, points and operators alone. */
  lemma {:induction false} SkippedCharactersIgnored(st: Scan, s: string)
    ensures ScanFrom(st, s) == ScanFrom(st, Relevant(s))
    decreases |s|
  {
    if s != [] {
      var init, c := s[..|s| - 1], s[|s| - 1];
      SkippedCharactersIgnored(st, init);
      if IsRelevant(c) {
        var r := Relevant(init) + [c];
        assert Relevant(s) == r;
        assert r[..|r| - 1] == Relevant(init);
      } else {
        assert Relevant(s) == Relevant(init) + [];
        assert Relevant(init) + [] == Relevant(init);
      }
    }
  }

  lemma SplitIgnoresSkippedCharacters(s: string)
    ensures Split(s) == Split(Relevant(s))
  {
    SkippedCharactersIgnored(Start, s);
  }

  /** Scanning a concatenation scans the second part from where the first left off. */
  lemma {:induction false} ScanAppend(st: Scan, a: string, b: string)
    ensures ScanFrom(st, a + b) == ScanFrom(ScanFrom(st, a), b)
    decreases |b|
  {
    if b == [] {
      assert a + b == a;
    } else {
      var init := b[..|b| - 1];
      ScanAppend(st, a, init);
      assert (a + b)[..|a + b| - 1] == a + init;
    }
  }

  /** A run of digits and points only extends the buffer. */
  lemma {:induction false} ScanNumerals(st: Scan, t: string)
    requires AllNumerals(t)
    ensures ScanFrom(st, t) == st.(pending := st.pending + t)
    decreases |t|
  {
    if t == [] {
      assert st.pending + t == st.pending;
    } else {
      var init := t[..|t| - 1];
      ScanNumerals(st, init);
      assert st.pending + init + [t[|t| - 1]] == st.pending + t;
    }
  }

  /** The expression `n0 o1 n1 … ok nk` written out from its tokens. */
  function Join(numbers: seq<string>, operators: seq<char>): string
    requires |numbers| == |operators| + 1
  {
    if operators == [] then numbers[0]
    else
      Join(numbers[..|numbers| - 1], operators[..|operators| - 1])
        + [operators[|operators| - 1]] + numbers[|numbers| - 1]
  }

  /** Tokens that are non-empty runs of digits and points, separated by
      operator characters. */
  ghost predicate WellFormed(numbers: seq<string>, operators: seq<char>) {
    && |numbers| == |operators| + 1
    && (forall i :: 0 <= i < |numbers| ==> |numbers[i]| > 0 && AllNumerals(numbers[i]))
    && (forall i :: 0 <= i < |operators| ==> IsOperatorChar(operators[i]))
  }

  lemma {:induction false} ScanJoin(numbers: seq<string>, operators: seq<char>)
    requires WellFormed(numbers, operators)
    ensures ScanFrom(Start, Join(numbers, operators))
         == Scan(numbers[..|numbers| - 1], operators, numbers[|numbers| - 1])
    decreases |operators|
  {
    var last := numbers[|numbers| - 1];
    if operators == [] {
      ScanNumerals(Start, last);
    } else {
      var ns, os := numbers[..|numbers| - 1], operators[..|operators| - 1];
      var o := operators[|operators| - 1];
      ScanJoin(ns, os);
      var front := Join(ns, os);
      var mid := ScanFrom(Start, front);
      assert mid == Scan(ns[..|ns| - 1], os, ns[|ns| - 1]);
      ScanAppend(Start, front + [o], last);
      ScanAppend(Start, front, [o]);
      assert [o][..0] == [];
      assert ScanFrom(mid, [o]) == Step(mid, o);
      assert ns[..|ns| - 1] + [ns[|ns| - 1]] == ns;
      assert os + [o] == operators;
      ScanNumerals(Step(mid, o), last);
    }
  }

  /** Round trip: splitting an expression written out from well-formed tokens
      gives back exactly those tokens, numbers and operators in order. */
  lemma SplitJoin(numbers: seq<string>, operators: seq<char>)
    requires WellFormed(numbers, operators)
    ensures Split(Join(numbers, operators)) == Pieces(numbers, operators)
  {
    ScanJoin(numbers, operators);
    assert numbers[..|numbers| - 1] + [numbers[|numbers| - 1]] == numbers;
  }

  /** Digits, points and ASCII operators are left alone by the sanitiser. */
  lemma SanitiseRelevant(s: string)
    requires forall i :: 0 <= i < |s| ==> IsRelevant(s[i])
    ensures Sanitise(s) == s
  {
  }

  /** An expression written out from well-formed tokens has only digits,
      points and operator characters. */
  lemma {:induction false} JoinIsRelevant(numbers: seq<string>, operators: seq<char>)
    requires WellFormed(numbers, operators)
    ensures forall i :: 0 <= i < |Join(numbers, operators)| ==> IsRelevant(Join(numbers, operators)[i])
    decreases |operators|
  {
    if operators == [] {
      assert AllNumerals(numbers[0]);
    } else {
      var ns, os := numbers[..|numbers| - 1], operators[..|operators| - 1];
      JoinIsRelevant(ns, os);
      var front, last := Join(ns, os), numbers[|numbers| - 1];
      var s := front + [operators[|operators| - 1]] + last;
      assert Join(numbers, operators) == s;
      assert AllNumerals(last) && IsOperatorChar(operators[|operators| - 1]);
      forall i | 0 <= i < |s| ensures IsRelevant(s[i]) {
        if i < |front| {
          assert s[i] == front[i];
        } else if i == |front| {
          assert s[i] == operators[|operators| - 1];
          assert IsRelevant(s[i]);
        } else {
          assert s[i] == last[i - |front| - 1];
          assert IsNumeral(last[i - |front| - 1]);
          assert IsRelevant(s[i]);
        }
      }
    }
  }

  /** Every number token parsed with `Double.parseDouble`, in order; the first
      token that does not parse is reported. */
  function ParseAll(tokens: seq<string>): (r: Result<seq<real>, string>)
    requires forall i :: 0 <= i < |tokens| ==> AllNumerals(tokens[i])
    ensures r.Ok? <==> forall i :: 0 <= i < |tokens| ==> ParseNumeral(tokens[i]).Some?
    ensures r.Ok? ==> |r.value| == |tokens|
    ensures r.Ok? ==> forall i :: 0 <= i < |tokens| ==> ParseNumeral(tokens[i]) == Some(r.value[i])
    ensures r.Err? ==> r.error in tokens && ParseNumeral(r.error).None?
  {
    if tokens == [] then Ok([])
    else match ParseNumeral(tokens[0])
      case None => Err(tokens[0])
      case Some(x) =>
        match ParseAll(tokens[1..])
        case Err(bad) =>
          assert bad in tokens[1..];
          Err(bad)
        case Ok(xs) =>
          assert forall i :: 1 <= i < |tokens| ==> tokens[i] == tokens[1..][i - 1];
          var r := [x] + xs;
          assert forall i :: 1 <= i < |tokens| ==> r[i] == xs[i - 1];
          Ok(r)
  }

  /** Tokens of digits only all parse, each to its base-ten value. */
  lemma ParseAllDigits(tokens: seq<string>)
    requires forall i :: 0 <= i < |tokens| ==> |tokens[i]| > 0 && AllDigits(tokens[i]) && AllNumerals(tokens[i])
    ensures ParseAll(tokens).Ok? && |ParseAll(tokens).value| == |tokens|
    ensures forall i :: 0 <= i < |tokens| ==> ParseAll(tokens).value[i] == DigitsValue(tokens[i]) as real
  {
    forall i | 0 <= i < |tokens|
      ensures ParseNumeral(tokens[i]) == Some(DigitsValue(tokens[i]) as real)
    {
      DigitsParse(tokens[i]);
    }
  }
}
