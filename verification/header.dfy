/** The header line of the altitude file: two whitespace-separated tokens, each
    converted with Python's int(), bound as (height, width) by tuple unpacking. */
module Header {
  import opened Failures

  predicate IsDigit(c: char) {
    '0' <= c <= '9'
  }

  function DigitValue(c: char): (d: nat)
    requires IsDigit(c)
    ensures d < 10
  {
    c as int - '0' as int
  }

  function DigitChar(d: nat): (c: char)
    requires d < 10
    ensures IsDigit(c) && DigitValue(c) == d
  {
    ('0' as int + d) as char
  }

  /** The digit part int() accepts in base 10: one or more ASCII digits, where
      a single underscore may separate two digits ("1_000"). */
  predicate IsDigitString(s: string) {
    |s| > 0 && forall i :: 0 <= i < |s| ==> DigitOrSeparator(s, i)
  }

  predicate DigitOrSeparator(s: string, i: int)
    requires 0 <= i < |s|
  {
    || IsDigit(s[i])
    || (s[i] == '_' && 0 < i < |s| - 1 && IsDigit(s[i - 1]) && IsDigit(s[i + 1]))
  }

  lemma DigitStringShape(s: string)
    requires IsDigitString(s)
    ensures IsDigit(s[|s| - 1])
    ensures forall i :: 0 <= i < |s| ==> IsDigit(s[i]) || s[i] == '_'
  {
    assert DigitOrSeparator(s, |s| - 1);
    forall i | 0 <= i < |s|
      ensures IsDigit(s[i]) || s[i] == '_'
    {
      assert DigitOrSeparator(s, i);
    }
  }

  /** The number a digit string denotes; underscores carry no value. */
  function DigitsValue(s: string): nat
  {
    if |s| == 0 then 0
    else if IsDigit(s[|s| - 1]) then 10 * DigitsValue(s[..|s| - 1]) + DigitValue(s[|s| - 1])
    else DigitsValue(s[..|s| - 1])
  }

  predicate IsSign(c: char) {
    c == '+' || c == '-'
  }

  /** The token without its leading sign, if it has one. */
  function Unsigned(t: string): string
    requires |t| > 0
  {
    if IsSign(t[0]) then t[1..] else t
  }

  /** The integer literals int() accepts in base 10 (after str.split(), so
      without surrounding whitespace): an optional sign, then a digit string. */
  predicate IntLiteral(t: string) {
    |t| > 0 && IsDigitString(Unsigned(t))
  }

  /** Python's int(token) on a token produced by str.split(): an optional sign
      followed by a digit string; anything else raises ValueError. */
  function ParseInt(t: string): (r: Result<int>)
    ensures r.Success? <==> IntLiteral(t)
    ensures r.Failure? ==> r.error == InvalidLiteral
    ensures r.Success? ==> r.value == (if t[0] == '-' then -1 else 1) * DigitsValue(Unsigned(t))
  {
    if |t| > 0 && (t[0] == '+' || t[0] == '-') then
      if IsDigitString(t[1..]) then
        var n: int := DigitsValue(t[1..]);
        Success(if t[0] == '-' then -n else n)
      else Failure(InvalidLiteral)
    else if IsDigitString(t) then
      Success(DigitsValue(t))
    else Failure(InvalidLiteral)
  }

  /** An accepted token ends in a digit, has only digits and underscores
      after its first character, and is negative only with a leading `-`. */
  lemma ParseIntShape(t: string)
    requires ParseInt(t).Success?
    ensures |t| > 0 && IsDigit(t[|t| - 1])
    ensures ParseInt(t).value < 0 ==> t[0] == '-'
    ensures forall i :: 0 < i < |t| ==> IsDigit(t[i]) || t[i] == '_'
  {
    var u := Unsigned(t);
    DigitStringShape(u);
    if IsSign(t[0]) {
      assert u[|u| - 1] == t[|t| - 1];
      assert forall i :: 1 <= i < |t| ==> u[i - 1] == t[i];
    }
  }

  /** Canonical decimal rendering of a natural number (no sign, no underscores). */
  function NatToString(n: nat): (s: string)
    ensures |s| > 0
    decreases n
  {
    if n < 10 then [DigitChar(n)] else NatToString(n / 10) + [DigitChar(n % 10)]
  }

  /** Canonical decimal rendering of an integer, as str(n) writes it. */
  function IntToString(n: int): string
  {
    if n < 0 then "-" + NatToString(-n) else NatToString(n)
  }

  lemma {:induction false} NatToStringDigits(n: nat)
    ensures forall i :: 0 <= i < |NatToString(n)| ==> IsDigit(NatToString(n)[i])
    ensures DigitsValue(NatToString(n)) == n
    decreases n
  {
    if n >= 10 {
      NatToStringDigits(n / 10);
      var s := NatToString(n / 10);
      assert NatToString(n) == s + [DigitChar(n % 10)];
      assert NatToString(n)[..|NatToString(n)| - 1] == s;
    }
  }

  /** int() reads back every integer that str() writes. */
  lemma ParseIntRoundTrip(n: int)
    ensures ParseInt(IntToString(n)) == Success(n)
  {
    if n < 0 {
      NatToStringDigits(-n);
      var s := IntToString(n);
      assert s[1..] == NatToString(-n);
    } else {
      NatToStringDigits(n);
    }
  }

  /** The list comprehension [int(x) for x in tokens]: every token converted in
      order, the first invalid one raising. */
  function ParseAll(tokens: seq<string>): (r: Result<seq<int>>)
    ensures r.Success? <==> forall i :: 0 <= i < |tokens| ==> ParseInt(tokens[i]).Success?
    ensures r.Success? ==> |r.value| == |tokens|
    ensures r.Success? ==> forall i :: 0 <= i < |tokens| ==> ParseInt(tokens[i]) == Success(r.value[i])
    ensures r.Failure? ==> r.error == InvalidLiteral
  {
    if |tokens| == 0 then Success([])
    else
      var init :- ParseAll(tokens[..|tokens| - 1]);
      var last :- ParseInt(tokens[|tokens| - 1]);
      Success(init + [last])
  }

  /** `height, width = [int(x) for x in line.split()]`: every token must be an
      integer (checked first, as the comprehension runs before the unpacking),
      and there must be exactly two of them. */
  function ParseHeader(tokens: seq<string>): (r: Result<(int, int)>)
    ensures r.Success? <==>
              |tokens| == 2 && ParseInt(tokens[0]).Success? && ParseInt(tokens[1]).Success?
    ensures r.Success? ==> r.value == (ParseInt(tokens[0]).value, ParseInt(tokens[1]).value)
    ensures r == Failure(InvalidLiteral) <==>
              exists i :: 0 <= i < |tokens| && ParseInt(tokens[i]).Failure?
    ensures r == Failure(UnpackMismatch) <==>
              |tokens| != 2 && forall i :: 0 <= i < |tokens| ==> ParseInt(tokens[i]).Success?
  {
    var values :- ParseAll(tokens);
    if |values| != 2 then Failure(UnpackMismatch) else Success((values[0], values[1]))
  }

  /** A header written as `str(height) + " " + str(width)` reads back as
      (height, width), in that order. */
  lemma HeaderRoundTrip(height: int, width: int)
    ensures ParseHeader([IntToString(height), IntToString(width)]) == Success((height, width))
  {
    ParseIntRoundTrip(height);
    ParseIntRoundTrip(width);
  }

  /** Tokens int() refuses: a stray letter, a doubled underscore, an
      underscore right after the sign, a bare sign. */
  lemma MalformedTokensRaise()
    ensures ParseInt("x5") == Failure(InvalidLiteral)
    ensures ParseInt("1__2") == Failure(InvalidLiteral)
    ensures ParseInt("+_5") == Failure(InvalidLiteral)
    ensures ParseInt("-") == Failure(InvalidLiteral)
    ensures ParseHeader(["x5", "3"]) == Failure(InvalidLiteral)
  {
    assert !IsDigitString("x5") by { assert !DigitOrSeparator("x5", 0); }
    assert !IsDigitString("1__2") by { assert !DigitOrSeparator("1__2", 1); }
    assert !IsDigitString("_5") by { assert !DigitOrSeparator("_5", 0); }
    assert "+_5"[1..] == "_5";
  }

  /** Tokens int() accepts, with their values: leading zeros, a sign, and an
      underscore between digits. */
  lemma WellFormedTokensParse()
    ensures ParseInt("007") == Success(7)
    ensures ParseInt("-12") == Success(-12)
    ensures ParseInt("1_000") == Success(1000)
  {
    assert DigitsValue("0") == 0;
    assert DigitsValue("00") == 0;
    assert "007"[..2] == "00" && "00"[..1] == "0" && "0"[..0] == "";
    assert "-12"[1..] == "12";
    assert "12"[..1] == "1" && "1"[..0] == "";
    assert IsDigitString("12") by {
      assert DigitOrSeparator("12", 0) && DigitOrSeparator("12", 1);
    }
    assert IsDigitString("007") by {
      assert DigitOrSeparator("007", 0) && DigitOrSeparator("007", 1) && DigitOrSeparator("007", 2);
    }
    assert IsDigitString("1_000") by {
      forall i | 0 <= i < 5 ensures DigitOrSeparator("1_000", i) {}
    }
    assert "1_000"[..4] == "1_00" && "1_00"[..3] == "1_0" && "1_0"[..2] == "1_" && "1_"[..1] == "1";
  }

  /** A non-numeric header raises instead of defaulting to a 0 x 0 grid. */
  lemma NonNumericHeaderRaises()
    ensures ParseHeader(["abc", "def"]) == Failure(InvalidLiteral)
  {
    assert !IsDigitString("abc") by { assert !DigitOrSeparator("abc", 0); }
  }
}
