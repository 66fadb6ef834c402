/** Character-level vocabulary shared by the model: C-string conventions, counting a
    character, decimal digits, decimal numbers and mkversion.c's first-line scan. */
module CText {

  /** An ASCII decimal digit, the test mkversion.c applies with `isdigit` and with a range check. */
  predicate IsDigit(c: char) { '0' <= c <= '9' }

  predicate AllDigits(s: string) { forall i :: 0 <= i < |s| ==> IsDigit(s[i]) }

  /** Text that can live in a C string: no NUL byte inside it. */
  predicate NoNul(s: string) { forall i :: 0 <= i < |s| ==> s[i] != '\0' }

  /** The characters that end the first-line scan: the string's NUL, CR or LF. */
  predicate IsLineEnd(c: char) { c == '\0' || c == '\r' || c == '\n' }

  /** The number of occurrences of `ch` in `s`. */
  function Count(s: string, ch: char): nat
  {
    if s == [] then 0 else Count(s[..|s| - 1], ch) + (if s[|s| - 1] == ch then 1 else 0)
  }

  function DigitValue(c: char): (v: nat)
    requires IsDigit(c)
    ensures v < 10
  {
    c as int - '0' as int
  }

  function DigitChar(d: nat): (c: char)
    requires d < 10
    ensures IsDigit(c) && DigitValue(c) == d
  {
    ('0' as int + d) as char
  }

  /** The decimal digits of `s`, in order, every other character dropped. */
  function Digits(s: string): (r: string)
    ensures AllDigits(r) && |r| <= |s|
  {
    if s == [] then []
    else if IsDigit(s[|s| - 1]) then Digits(s[..|s| - 1]) + [s[|s| - 1]]
    else Digits(s[..|s| - 1])
  }

  /** Taking the digits commutes with concatenation. */
  lemma {:induction false} DigitsAppend(a: string, b: string)
    ensures Digits(a + b) == Digits(a) + Digits(b)
  {
    if b == [] {
      assert a + b == a;
    } else {
      var b' := b[..|b| - 1];
      assert (a + b)[..|a + b| - 1] == a + b';
      DigitsAppend(a, b');
    }
  }

  /** A digit string is its own digit content. */
  lemma {:induction false} DigitsOfDigitString(s: string)
    requires AllDigits(s)
    ensures Digits(s) == s
  {
    if s != [] {
      DigitsOfDigitString(s[..|s| - 1]);
    }
  }

  /** The value of a digit string read left to right, each digit shifting the total by ten (no width limit). */
  function Value(s: string): nat
    requires AllDigits(s)
  {
    if s == [] then 0 else Value(s[..|s| - 1]) * 10 + DigitValue(s[|s| - 1])
  }

  /** The one-digit string "0" denotes 0. */
  lemma ValueZero()
    ensures AllDigits("0") && Value("0") == 0
  {
    assert "0"[..0] == [];
  }

  function Pow10(k: nat): (p: nat)
    ensures p >= 1
  {
    if k == 0 then 1 else 10 * Pow10(k - 1)
  }

  lemma AllDigitsAppend(a: string, b: string)
    requires AllDigits(a) && AllDigits(b)
    ensures AllDigits(a + b)
  {
  }

  lemma ShiftStep(va: nat, p: nat, vb: nat, d: nat)
    ensures (va * p + vb) * 10 + d == va * (10 * p) + (vb * 10 + d)
  {
  }

  /** Reading a concatenation: the left part is shifted by the right part's width. */
  lemma {:induction false} ValueAppend(a: string, b: string)
    requires AllDigits(a) && AllDigits(b)
    ensures AllDigits(a + b)
    ensures Value(a + b) == Value(a) * Pow10(|b|) + Value(b)
  {
    AllDigitsAppend(a, b);
    if b == [] {
      assert a + b == a;
    } else {
      var b', e := b[..|b| - 1], b[|b| - 1];
      assert (a + b)[..|a + b| - 1] == a + b' && (a + b)[|a + b| - 1] == e;
      ValueAppend(a, b');
      ShiftStep(Value(a), Pow10(|b'|), Value(b'), DigitValue(e));
    }
  }

  /** `%d` of a non-negative int: shortest decimal text, no sign. */
  function Decimal(n: nat): (r: string)
    ensures |r| >= 1 && AllDigits(r)
    ensures r[0] != '0' || n == 0
  {
    if n < 10 then [DigitChar(n)] else Decimal(n / 10) + [DigitChar(n % 10)]
  }

  /** Reading back the decimal text of `n` gives `n`. */
  lemma {:induction false} ValueOfDecimal(n: nat)
    ensures Value(Decimal(n)) == n
  {
    if n >= 10 {
      var s := Decimal(n);
      assert s[..|s| - 1] == Decimal(n / 10);
      ValueOfDecimal(n / 10);
    }
  }

  /** `line` is `b` cut at its first NUL, CR or LF. */
  ghost predicate IsFirstLine(b: string, line: string)
  {
    && line <= b
    && (forall i :: 0 <= i < |line| ==> !IsLineEnd(line[i]))
    && (|line| == |b| || IsLineEnd(b[|line|]))
  }

  /** What is left of a buffer once it is terminated at its first NUL, CR or LF. */
  function FirstLine(b: string): (line: string)
    ensures IsFirstLine(b, line)
    ensures NoNul(line)
  {
    if b == [] || IsLineEnd(b[0]) then [] else [b[0]] + FirstLine(b[1..])
  }

  /** The cut described by IsFirstLine leaves no choice. */
  lemma FirstLineUnique(b: string, line: string)
    requires IsFirstLine(b, line)
    ensures line == FirstLine(b)
  {
    var f := FirstLine(b);
    if |line| < |f| {
      assert false;
    } else if |f| < |line| {
      assert false;
    }
  }

  /** The first-line scan of mkversion.c:107-108 and :146-147, walking a cursor over the buffer. */
  method TrimLine(b: string) returns (line: string)
    ensures line == FirstLine(b)
  {
    var z := 0;
    while z < |b| && !IsLineEnd(b[z])
      invariant 0 <= z <= |b|
      invariant forall i :: 0 <= i < z ==> !IsLineEnd(b[i])
    {
      z := z + 1;
    }
    line := b[..z];
    FirstLineUnique(b, line);
  }
}
