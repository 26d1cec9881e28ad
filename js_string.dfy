/** The JavaScript string operations the employee table relies on:
    `toLowerCase`, number-to-text conversion, unary `+` on text,
    `indexOf` and the relational `<` on strings. */
module JsString {

  datatype Option<T> = None | Some(value: T)

  // ---------------------------------------------------------------------
  // toLowerCase (ASCII letters only)
  // ---------------------------------------------------------------------

  predicate IsUpper(c: char) { 'A' <= c <= 'Z' }

  function LowerChar(c: char): char {
    if IsUpper(c) then (c as int + 32) as char else c
  }

  /** `s.toLowerCase()`, folding the ASCII letters A-Z. */
  function ToLower(s: string): (r: string)
    ensures |r| == |s|
  {
    if s == [] then [] else [LowerChar(s[0])] + ToLower(s[1..])
  }

  /** Each character is folded on its own. */
  lemma {:induction false} ToLowerChars(s: string)
    ensures forall i :: 0 <= i < |s| ==> ToLower(s)[i] == LowerChar(s[i])
  {
    if s != [] {
      ToLowerChars(s[1..]);
    }
  }

  /** Lower-casing twice is lower-casing once. */
  lemma ToLowerIdempotent(s: string)
    ensures ToLower(ToLower(s)) == ToLower(s)
  {
    ToLowerChars(s);
    ToLowerChars(ToLower(s));
  }

  /** Lower-casing works character by character, so it distributes over concatenation. */
  lemma ToLowerConcat(a: string, b: string)
    ensures ToLower(a + b) == ToLower(a) + ToLower(b)
  {
    ToLowerChars(a);
    ToLowerChars(b);
    ToLowerChars(a + b);
  }

  // ---------------------------------------------------------------------
  // Number to text: what `'' + n` produces for an integer n
  // ---------------------------------------------------------------------

  predicate IsDigit(c: char) { '0' <= c <= '9' }

  function DigitChar(d: nat): (c: char)
    requires d < 10
    ensures IsDigit(c)
  {
    ('0' as int + d) as char
  }

  function DigitValue(c: char): (d: nat)
    requires IsDigit(c)
    ensures d < 10
  {
    c as int - '0' as int
  }

  /** Decimal digits of n, most significant first, without leading zeros. */
  function NatToDecimal(n: nat): (r: string)
    ensures |r| >= 1
    decreases n
  {
    if n < 10 then [DigitChar(n)] else NatToDecimal(n / 10) + [DigitChar(n % 10)]
  }

  /** The text is all digits, and only 0 is written with a leading zero. */
  lemma {:induction false} NatToDecimalDigits(n: nat)
    ensures var r := NatToDecimal(n);
            (forall i :: 0 <= i < |r| ==> IsDigit(r[i])) && (r[0] == '0' ==> n == 0)
    decreases n
  {
    if n >= 10 {
      NatToDecimalDigits(n / 10);
    }
  }

  /** The text JavaScript gives an integer when it is concatenated with a string. */
  function NumberToString(n: int): (r: string)
    ensures |r| >= 1
  {
    if n < 0 then "-" + NatToDecimal(-n) else NatToDecimal(n)
  }

  /** A minus sign exactly for negative numbers, digits after the first character. */
  lemma NumberToStringShape(n: int)
    ensures var r := NumberToString(n);
            (r[0] == '-' <==> n < 0) && (forall i :: 0 < i < |r| ==> IsDigit(r[i]))
  {
    NatToDecimalDigits(if n < 0 then -n else n);
  }

  // ---------------------------------------------------------------------
  // Unary plus on text, restricted to integer decimal literals
  // ---------------------------------------------------------------------

  /** The white space `+s` strips here: tab, line feed, vertical tab,
      form feed, carriage return and space. */
  predicate IsWhiteSpace(c: char) { c == ' ' || '\t' <= c <= '\r' }

  function TrimStart(s: string): (r: string)
    ensures |r| <= |s|
    ensures r != [] ==> !IsWhiteSpace(r[0])
  {
    if s != [] && IsWhiteSpace(s[0]) then TrimStart(s[1..]) else s
  }

  /** What is left is a suffix, and only white space is dropped from the front. */
  lemma {:induction false} TrimStartDropsBlanks(s: string)
    ensures TrimStart(s) == s[|s| - |TrimStart(s)|..]
    ensures forall i :: 0 <= i < |s| - |TrimStart(s)| ==> IsWhiteSpace(s[i])
  {
    if s != [] && IsWhiteSpace(s[0]) {
      TrimStartDropsBlanks(s[1..]);
    }
  }

  function TrimEnd(s: string): (r: string)
    ensures |r| <= |s|
    ensures r != [] ==> !IsWhiteSpace(r[|r| - 1])
  {
    if s != [] && IsWhiteSpace(s[|s| - 1]) then TrimEnd(s[..|s| - 1]) else s
  }

  /** What is left is a prefix, and only white space is dropped from the back. */
  lemma {:induction false} TrimEndDropsBlanks(s: string)
    ensures TrimEnd(s) == s[..|TrimEnd(s)|]
    ensures forall i :: |TrimEnd(s)| <= i < |s| ==> IsWhiteSpace(s[i])
  {
    if s != [] && IsWhiteSpace(s[|s| - 1]) {
      TrimEndDropsBlanks(s[..|s| - 1]);
    }
  }

  function Trim(s: string): string { TrimEnd(TrimStart(s)) }

  /** Every character is a decimal digit (read from the back, as DigitsValue reads). */
  predicate AllDigits(s: string) {
    s == [] || (AllDigits(s[..|s| - 1]) && IsDigit(s[|s| - 1]))
  }

  lemma {:induction false} AllDigitsAt(s: string, i: int)
    requires AllDigits(s) && 0 <= i < |s|
    ensures IsDigit(s[i])
  {
    if i < |s| - 1 {
      AllDigitsAt(s[..|s| - 1], i);
    }
  }

  /** The value of a run of decimal digits (0 for none). */
  function DigitsValue(s: string): nat
    requires AllDigits(s)
  {
    if s == [] then 0 else 10 * DigitsValue(s[..|s| - 1]) + DigitValue(s[|s| - 1])
  }

  /** Unsigned or signed integer literal, after trimming. */
  function SignedValue(t: string): Option<int> {
    if t != [] && (t[0] == '-' || t[0] == '+') then
      if |t| > 1 && AllDigits(t[1..]) then
        var v: int := DigitsValue(t[1..]);
        Some(if t[0] == '-' then -v else v)
      else None
    else if AllDigits(t) then Some(DigitsValue(t))
    else None
  }

  /** `+s` on integer literals: `Some(v)` when the text denotes the integer v
      (blank text is 0), `None` otherwise. `None` covers every text JavaScript
      turns into `NaN`, and also the fraction, exponent, hexadecimal and
      `Infinity` forms, which this model does not read. */
  function ToNumber(s: string): (r: Option<int>)
    ensures Trim(s) == [] ==> r == Some(0)
  {
    var t := Trim(s);
    if t == [] then Some(0) else SignedValue(t)
  }

  lemma {:induction false} DigitsValueOfDecimal(n: nat)
    ensures AllDigits(NatToDecimal(n)) && DigitsValue(NatToDecimal(n)) == n
    decreases n
  {
    if n >= 10 {
      var p := NatToDecimal(n / 10);
      var r := NatToDecimal(n);
      assert r == p + [DigitChar(n % 10)];
      assert r[..|r| - 1] == p;
      DigitsValueOfDecimal(n / 10);
    }
  }

  predicate IsAsciiLetter(c: char) { 'A' <= c <= 'Z' || 'a' <= c <= 'z' }

  /** In this model, text holding an ASCII letter is not an integer literal,
      so `+s` gives no number. (JavaScript itself reads a few such texts, like
      `"1e3"` or `"Infinity"`, as numbers.) */
  lemma ToNumberOfLetters(s: string, i: int)
    requires 0 <= i < |s| && IsAsciiLetter(s[i])
    ensures ToNumber(s) == None
  {
    var t1 := TrimStart(s);
    TrimStartDropsBlanks(s);
    var j := i - (|s| - |t1|);
    assert t1[j] == s[i];
    var t := TrimEnd(t1);
    TrimEndDropsBlanks(t1);
    assert t[j] == s[i];
    if AllDigits(t) {
      AllDigitsAt(t, j);
    }
    if t[0] == '-' || t[0] == '+' {
      assert j > 0 && t[1..][j - 1] == s[i];
      if AllDigits(t[1..]) {
        AllDigitsAt(t[1..], j - 1);
      }
    }
  }

  lemma TrimNoOp(s: string)
    requires s != [] && !IsWhiteSpace(s[0]) && !IsWhiteSpace(s[|s| - 1])
    ensures Trim(s) == s
  {
  }

  lemma ToNumberOfNonNegativeText(n: int)
    requires n >= 0
    ensures ToNumber(NumberToString(n)) == Some(n)
  {
    var m: nat := n;
    var p := NatToDecimal(m);
    var r := NumberToString(n);
    DigitsValueOfDecimal(m);
    assert r == p;
    AllDigitsAt(p, 0);
    AllDigitsAt(p, |p| - 1);
    TrimNoOp(r);
    assert ToNumber(r) == SignedValue(r);
    assert r[0] != '-' && r[0] != '+';
    assert SignedValue(r) == Some(m as int);
  }

  lemma ToNumberOfNegativeText(n: int)
    requires n < 0
    ensures ToNumber(NumberToString(n)) == Some(n)
  {
    var m: nat := -n;
    var p := NatToDecimal(m);
    var r := NumberToString(n);
    DigitsValueOfDecimal(m);
    assert r == "-" + p;
    AllDigitsAt(p, |p| - 1);
    assert r[|r| - 1] == p[|p| - 1];
    TrimNoOp(r);
    assert ToNumber(r) == SignedValue(r);
    assert r[1..] == p;
    assert SignedValue(r) == Some(-(m as int));
  }

  /** Reading back the text of an integer gives the integer: `+('' + n) == n`. */
  lemma ToNumberOfNumberToString(n: int)
    ensures ToNumber(NumberToString(n)) == Some(n)
  {
    if n < 0 {
      ToNumberOfNegativeText(n);
    } else {
      ToNumberOfNonNegativeText(n);
    }
  }

  // ---------------------------------------------------------------------
  // indexOf
  // ---------------------------------------------------------------------

  /** The needle occurs in the haystack starting at position k. */
  predicate OccursAt(hay: string, needle: string, k: int) {
    0 <= k && k + |needle| <= |hay| && hay[k..k + |needle|] == needle
  }

  /** `hay.indexOf(needle, from)`: the first position at or after `from`
      where the needle occurs, or -1. */
  function IndexOfFrom(hay: string, needle: string, from: nat): (r: int)
    requires from <= |hay|
    ensures r == -1 || (from <= r && OccursAt(hay, needle, r))
    ensures r == -1 ==> forall k :: from <= k ==> !OccursAt(hay, needle, k)
    ensures r != -1 ==> forall k :: from <= k < r ==> !OccursAt(hay, needle, k)
    decreases |hay| - from
  {
    if from + |needle| > |hay| then -1
    else if hay[from..from + |needle|] == needle then from
    else IndexOfFrom(hay, needle, from + 1)
  }

  function IndexOf(hay: string, needle: string): (r: int)
    ensures r == -1 <==> forall k :: !OccursAt(hay, needle, k)
    ensures r != -1 ==> OccursAt(hay, needle, r) && forall k :: 0 <= k < r ==> !OccursAt(hay, needle, k)
  {
    IndexOfFrom(hay, needle, 0)
  }

  /** The empty string occurs at position 0 of every string. */
  lemma IndexOfEmpty(hay: string)
    ensures IndexOf(hay, "") == 0
  {
    assert OccursAt(hay, "", 0);
  }

  /** A needle occurring inside a part of a concatenation occurs in the whole. */
  lemma {:induction false} OccursInConcat(a: string, b: string, c: string, needle: string, k: int)
    requires OccursAt(b, needle, k)
    ensures OccursAt(a + b + c, needle, |a| + k)
  {
    var w := a + b + c;
    assert w[|a| + k..|a| + k + |needle|] == b[k..k + |needle|];
  }

  // ---------------------------------------------------------------------
  // The relational `<` on two strings
  // ---------------------------------------------------------------------

  /** `a < b` for strings: lexicographic by character code, a proper prefix first. */
  function TextLess(a: string, b: string): bool {
    if a == [] then b != []
    else if b == [] then false
    else if a[0] != b[0] then a[0] < b[0]
    else TextLess(a[1..], b[1..])
  }

  lemma {:induction false} TextLessIrreflexive(a: string)
    ensures !TextLess(a, a)
  {
    if a != [] { TextLessIrreflexive(a[1..]); }
  }

  lemma {:induction false} TextLessTransitive(a: string, b: string, c: string)
    requires TextLess(a, b) && TextLess(b, c)
    ensures TextLess(a, c)
  {
    if a != [] && b != [] && c != [] && a[0] == b[0] && b[0] == c[0] {
      TextLessTransitive(a[1..], b[1..], c[1..]);
    }
  }

  /** Two different strings are ordered one way or the other. */
  lemma {:induction false} TextLessTotal(a: string, b: string)
    requires a != b
    ensures TextLess(a, b) || TextLess(b, a)
  {
    if a != [] && b != [] && a[0] == b[0] {
      assert a == [a[0]] + a[1..] && b == [b[0]] + b[1..];
      TextLessTotal(a[1..], b[1..]);
    }
  }
}
