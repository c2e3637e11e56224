/**
 This module models JavaScript's `Number(string)` conversion on the strings
 that can appear as one dot-free piece of a version string. The result is
 `Some(n)` for a string denoting the integer `n` and `None` where JavaScript
 yields `NaN`. The accepted forms are: surrounding white space, which is
 trimmed; the empty or all-blank string, which is 0; an optionally signed run
 of decimal digits; and an unsigned `0x`, `0o` or `0b` literal.
 */
module JsNumber {
  import opened Wrappers

  /** The characters JavaScript trims before converting a string to a number (white space and line terminators). */
  predicate IsWhiteSpace(c: char) {
    var n := c as int;
    || n == 0x09 || n == 0x0A || n == 0x0B || n == 0x0C || n == 0x0D
    || n == 0x20 || n == 0xA0 || n == 0x1680
    || (0x2000 <= n <= 0x200A)
    || n == 0x2028 || n == 0x2029 || n == 0x202F || n == 0x205F
    || n == 0x3000 || n == 0xFEFF
  }

  predicate AllWhiteSpace(s: string) {
    forall i :: 0 <= i < |s| ==> IsWhiteSpace(s[i])
  }

  /** Number of white-space characters at the start of `s`. */
  function LeadingBlanks(s: string): (n: nat)
    ensures n <= |s|
    ensures forall i :: 0 <= i < n ==> IsWhiteSpace(s[i])
    ensures n < |s| ==> !IsWhiteSpace(s[n])
  {
    if |s| > 0 && IsWhiteSpace(s[0]) then 1 + LeadingBlanks(s[1..]) else 0
  }

  /** Number of white-space characters at the end of `s`. */
  function TrailingBlanks(s: string): (n: nat)
    ensures n <= |s|
    ensures forall i :: |s| - n <= i < |s| ==> IsWhiteSpace(s[i])
    ensures n < |s| ==> !IsWhiteSpace(s[|s| - n - 1])
  {
    if |s| > 0 && IsWhiteSpace(s[|s| - 1]) then 1 + TrailingBlanks(s[..|s| - 1]) else 0
  }

  /** `s` without its leading white space. */
  function TrimStart(s: string): (r: string)
    ensures |r| <= |s| && r == s[|s| - |r|..]
    ensures AllWhiteSpace(s[..|s| - |r|])
    ensures r == [] || !IsWhiteSpace(r[0])
  {
    s[LeadingBlanks(s)..]
  }

  /** `s` without its trailing white space. */
  function TrimEnd(s: string): (r: string)
    ensures |r| <= |s| && r == s[..|r|]
    ensures AllWhiteSpace(s[|r|..])
    ensures r == [] || !IsWhiteSpace(r[|r| - 1])
  {
    s[..|s| - TrailingBlanks(s)]
  }

  /**
   `s` without white space at either end: the block of `s` that follows its
   leading white space, followed in turn only by white space.
   */
  function Trim(s: string): (r: string)
    ensures LeadingBlanks(s) + |r| <= |s|
    ensures r == s[LeadingBlanks(s)..LeadingBlanks(s) + |r|]
    ensures AllWhiteSpace(s[LeadingBlanks(s) + |r|..])
    ensures r == [] || (!IsWhiteSpace(r[0]) && !IsWhiteSpace(r[|r| - 1]))
  {
    var n := LeadingBlanks(s);
    var t := s[n..];
    assert t == TrimStart(s);
    var r := TrimEnd(t);
    assert r == s[n..n + |r|] by {
      assert r == t[..|r|];
    }
    assert s[n + |r|..] == t[|r|..];
    assert r != [] ==> r[0] == t[0];
    r
  }

  /** Value of `c` as a digit: 0-9 for decimal digits, 10-35 for ASCII letters in either case, 36 otherwise. */
  function DigitValue(c: char): (d: nat)
    ensures d <= 36
    ensures d < 10 <==> '0' <= c <= '9'
  {
    if '0' <= c <= '9' then c as int - '0' as int
    else if 'a' <= c <= 'z' then c as int - 'a' as int + 10
    else if 'A' <= c <= 'Z' then c as int - 'A' as int + 10
    else 36
  }

  predicate AllDigits(ds: string, radix: nat) {
    forall i :: 0 <= i < |ds| ==> DigitValue(ds[i]) < radix
  }

  /** The number a run of digits denotes in base `radix`, most significant digit first. */
  function DigitsValue(ds: string, radix: nat): nat
    requires 2 <= radix <= 36 && AllDigits(ds, radix)
  {
    if |ds| == 0 then 0
    else
      var init := ds[..|ds| - 1];
      assert AllDigits(init, radix) by {
        assert forall i :: 0 <= i < |init| ==> init[i] == ds[i];
      }
      var high := DigitsValue(init, radix);
      assert high * radix >= 0;
      high * radix + DigitValue(ds[|ds| - 1])
  }

  /** Base selected by the letter after a leading `0` (`x`, `o`, `b`, either case), or 0 for any other letter. */
  function RadixLetter(c: char): nat {
    if c == 'x' || c == 'X' then 16
    else if c == 'o' || c == 'O' then 8
    else if c == 'b' || c == 'B' then 2
    else 0
  }

  predicate IsDecimal(t: string) {
    |t| > 0 && AllDigits(t, 10)
  }

  predicate IsRadixLiteral(t: string) {
    |t| >= 3 && t[0] == '0' && RadixLetter(t[1]) != 0 && AllDigits(t[2..], RadixLetter(t[1]))
  }

  /** Conversion of an already trimmed, non-empty string. */
  function ParseTrimmed(t: string): (r: Option<int>)
    requires |t| > 0
    ensures r.Some? && r.value < 0 ==> t[0] == '-'
    ensures t[0] != '-' && t[0] != '+' && DigitValue(t[0]) >= 10 ==> r == None
    ensures r.Some? ==> IsRadixLiteral(t) || IsDecimal(t) || ((t[0] == '-' || t[0] == '+') && IsDecimal(t[1..]))
  {
    if IsRadixLiteral(t) then Some(DigitsValue(t[2..], RadixLetter(t[1])))
    else if t[0] == '-' && IsDecimal(t[1..]) then Some(-(DigitsValue(t[1..], 10) as int))
    else if t[0] == '+' && IsDecimal(t[1..]) then Some(DigitsValue(t[1..], 10))
    else if IsDecimal(t) then Some(DigitsValue(t, 10))
    else None
  }

  /** `Number(s)`, with `None` standing for `NaN`. */
  function ToNumber(s: string): (r: Option<int>)
    ensures AllWhiteSpace(s) ==> r == Some(0)
    ensures r.Some? && r.value < 0 ==> '-' in s
  {
    var t := Trim(s);
    if |t| == 0 then Some(0) else ParseTrimmed(t)
  }

  /** Decimal rendering of a natural number, the way JavaScript prints it (no leading zeros). */
  function RenderNat(n: nat): (ds: string)
    ensures IsDecimal(ds)
    ensures DigitsValue(ds, 10) == n
    ensures |ds| > 1 ==> ds[0] != '0'
  {
    var low := ['0' + (n % 10) as char];
    if n < 10 then low
    else
      var high := RenderNat(n / 10);
      var ds := high + low;
      assert ds[..|ds| - 1] == high;
      ds
  }

  /** Decimal rendering of an integer, with a leading `-` when negative. */
  function RenderInt(i: int): (s: string)
    ensures i >= 0 ==> IsDecimal(s)
    ensures i < 0 ==> |s| > 1 && s[0] == '-' && IsDecimal(s[1..])
    ensures '.' !in s
  {
    if i < 0 then
      var ds := RenderNat(-i);
      assert (['-'] + ds)[1..] == ds;
      ['-'] + ds
    else RenderNat(i)
  }

  /** Trimming leaves a string that starts and ends with something other than white space unchanged. */
  lemma TrimUnpadded(t: string)
    requires |t| > 0 && !IsWhiteSpace(t[0]) && !IsWhiteSpace(t[|t| - 1])
    ensures Trim(t) == t
  {
  }

  /** Leading white space is dropped by `TrimStart`. */
  lemma {:induction false} TrimStartPadded(pad: string, t: string)
    requires AllWhiteSpace(pad)
    requires |t| > 0 && !IsWhiteSpace(t[0])
    ensures TrimStart(pad + t) == t
    decreases |pad|
  {
    if |pad| > 0 {
      assert (pad + t)[1..] == pad[1..] + t;
      TrimStartPadded(pad[1..], t);
    } else {
      assert pad + t == t;
    }
  }

  /** Trailing white space is dropped by `TrimEnd`. */
  lemma {:induction false} TrimEndPadded(t: string, pad: string)
    requires AllWhiteSpace(pad)
    requires |t| > 0 && !IsWhiteSpace(t[|t| - 1])
    ensures TrimEnd(t + pad) == t
    decreases |pad|
  {
    if |pad| > 0 {
      var s := t + pad;
      assert s[..|s| - 1] == t + pad[..|pad| - 1];
      TrimEndPadded(t, pad[..|pad| - 1]);
    } else {
      assert t + pad == t;
    }
  }

  /** White space around a number does not change its value. */
  lemma ToNumberIgnoresPadding(before: string, t: string, after: string)
    requires AllWhiteSpace(before) && AllWhiteSpace(after)
    requires |t| > 0 && !IsWhiteSpace(t[0]) && !IsWhiteSpace(t[|t| - 1])
    ensures ToNumber(before + t + after) == ToNumber(t)
  {
    assert before + t + after == before + (t + after);
    TrimStartPadded(before, t + after);
    TrimEndPadded(t, after);
    TrimUnpadded(t);
  }

  /** Leading zeros contribute nothing to a run of digits. */
  lemma {:induction false} LeadingZerosValue(zeros: string, ds: string, radix: nat)
    requires 2 <= radix <= 36
    requires forall i :: 0 <= i < |zeros| ==> zeros[i] == '0'
    requires AllDigits(ds, radix)
    ensures AllDigits(zeros + ds, radix)
    ensures DigitsValue(zeros + ds, radix) == DigitsValue(ds, radix)
    decreases |ds|
  {
    var s := zeros + ds;
    if |ds| == 0 {
      assert s == zeros;
      AllZerosValue(zeros, radix);
    } else {
      assert s[..|s| - 1] == zeros + ds[..|ds| - 1];
      LeadingZerosValue(zeros, ds[..|ds| - 1], radix);
    }
  }

  lemma {:induction false} AllZerosValue(zeros: string, radix: nat)
    requires 2 <= radix <= 36
    requires forall i :: 0 <= i < |zeros| ==> zeros[i] == '0'
    ensures AllDigits(zeros, radix)
    ensures DigitsValue(zeros, radix) == 0
    decreases |zeros|
  {
    if |zeros| > 0 {
      AllZerosValue(zeros[..|zeros| - 1], radix);
    }
  }

  /** A decimal version piece with leading zeros means the same number without them, so "02" is 2. */
  lemma ToNumberLeadingZeros(zeros: string, ds: string)
    requires forall i :: 0 <= i < |zeros| ==> zeros[i] == '0'
    requires IsDecimal(ds)
    ensures ToNumber(zeros + ds) == ToNumber(ds)
  {
    LeadingZerosValue(zeros, ds, 10);
    DecimalToNumber(zeros + ds);
    DecimalToNumber(ds);
  }

  /** A non-empty run of decimal digits converts to the number it denotes. */
  lemma DecimalToNumber(t: string)
    requires IsDecimal(t)
    ensures ToNumber(t) == Some(DigitsValue(t, 10))
  {
    TrimUnpadded(t);
    assert !IsRadixLiteral(t) by {
      if |t| >= 3 {
        assert DigitValue(t[1]) < 10;
      }
    }
  }

  /** Converting the decimal rendering of any integer gives that integer back. */
  lemma ToNumberRenderInt(i: int)
    ensures ToNumber(RenderInt(i)) == Some(i)
  {
    if i < 0 {
      var ds := RenderNat(-i);
      var s := ['-'] + ds;
      assert s[1..] == ds;
      assert !IsWhiteSpace(s[|s| - 1]) by {
        assert s[|s| - 1] == ds[|ds| - 1];
        assert DigitValue(ds[|ds| - 1]) < 10;
      }
      TrimUnpadded(s);
      assert ParseTrimmed(s) == Some(i);
    } else {
      DecimalToNumber(RenderNat(i));
    }
  }

  /** A piece whose first non-blank character is neither a sign nor a digit converts to `NaN`. */
  lemma ToNumberNotNumeric(before: string, t: string)
    requires AllWhiteSpace(before)
    requires |t| > 0 && t[0] != '-' && t[0] != '+' && DigitValue(t[0]) >= 10 && !IsWhiteSpace(t[0])
    ensures ToNumber(before + t) == None
  {
    TrimStartPadded(before, t);
    var t' := Trim(before + t);
    assert t' == TrimEnd(t);
    assert |t'| > 0 && t'[0] == t[0] by {
      assert !IsWhiteSpace(t[0]);
    }
  }

  /**
   A trimmed piece that is not a radix literal and has a character other
   than a decimal digit after its first one converts to `NaN`, as "2a",
   "2-beta" and "-x" do.
   */
  lemma ToNumberNaNInside(t: string, i: nat)
    requires |t| > 0 && !IsWhiteSpace(t[0]) && !IsWhiteSpace(t[|t| - 1])
    requires 1 <= i < |t| && DigitValue(t[i]) >= 10
    requires !IsRadixLiteral(t)
    ensures ToNumber(t) == None
  {
    TrimUnpadded(t);
    assert t[1..][i - 1] == t[i];
  }

  /** A leading `+` does not change the value of a run of decimal digits. */
  lemma PlusSign(ds: string)
    requires IsDecimal(ds)
    ensures ToNumber(['+'] + ds) == ToNumber(ds)
  {
    var t := ['+'] + ds;
    assert t[1..] == ds;
    assert !IsWhiteSpace(t[|t| - 1]) by {
      assert t[|t| - 1] == ds[|ds| - 1];
      assert DigitValue(ds[|ds| - 1]) < 10;
    }
    TrimUnpadded(t);
    assert !IsRadixLiteral(t);
    assert ParseTrimmed(t) == Some(DigitsValue(ds, 10));
    DecimalToNumber(ds);
  }

  /** A trimmed `0x`, `0o` or `0b` literal converts to the number its digits denote in that base. */
  lemma RadixLiteralValue(t: string)
    requires IsRadixLiteral(t)
    ensures ToNumber(t) == Some(DigitsValue(t[2..], RadixLetter(t[1])))
  {
    var last := t[|t| - 1];
    assert last == t[2..][|t| - 3];
    assert DigitValue(last) < 36;
    TrimUnpadded(t);
  }

  /** `0x`, `0o` and `0b` followed by digits of that base convert to the number the digits denote in that base. */
  lemma RadixValue(c: char, ds: string)
    requires RadixLetter(c) != 0
    requires |ds| > 0 && AllDigits(ds, RadixLetter(c))
    ensures ToNumber(['0', c] + ds) == Some(DigitsValue(ds, RadixLetter(c)))
  {
    var t := ['0', c] + ds;
    assert t[0] == '0';
    assert t[1] == c;
    assert t[2..] == ds;
    RadixLiteralValue(t);
  }
}
