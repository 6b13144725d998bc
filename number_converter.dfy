/**
 * The Number Converter (`convertToNum`): maps one raw token to a number.
 * An all-digit token whose value is at most the ceiling gives that value;
 * any other token gives 0, except a negative literal (a minus sign followed
 * by digits), which is an error.
 */
module NumberConverter {
  import opened Wrappers

  /** The one error the converter raises. */
  datatype Error = InvalidArgument

  /** The largest value a token may convert to; larger values convert to 0. */
  const Ceiling: nat := 1000

  predicate IsDigit(c: char)
  {
    '0' <= c <= '9'
  }

  /** `t` is a non-empty string of decimal digits: no sign, point, exponent or letter. */
  predicate IsDigits(t: string)
  {
    |t| > 0 && forall i :: 0 <= i < |t| ==> IsDigit(t[i])
  }

  /** `t` is a minus sign followed by one or more decimal digits. */
  predicate IsNegativeLiteral(t: string)
  {
    |t| >= 2 && t[0] == '-' && IsDigits(t[1..])
  }

  function DigitValue(c: char): (v: nat)
    requires IsDigit(c)
    ensures v < 10
  {
    c as int - '0' as int
  }

  /** The value of a decimal digit string, most significant digit first. */
  function Value(t: string): nat
    requires forall i :: 0 <= i < |t| ==> IsDigit(t[i])
    decreases |t|
  {
    if t == [] then 0 else 10 * Value(t[..|t| - 1]) + DigitValue(t[|t| - 1])
  }

  /** The decimal digits of `n`, without leading zeros. */
  function Decimal(n: nat): (r: string)
    ensures IsDigits(r)
    decreases n
  {
    var last := ['0' + (n % 10) as char];
    if n < 10 then last else Decimal(n / 10) + last
  }

  /** The converter: a number, or `InvalidArgument` for a negative literal. */
  function ConvertToNum(t: string): (r: Result<nat, Error>)
    ensures r.Failure? <==> IsNegativeLiteral(t)
    ensures r.Success? ==> r.value <= Ceiling
    ensures IsDigits(t) ==> r == Success(if Value(t) <= Ceiling then Value(t) else 0)
    ensures !IsDigits(t) && !IsNegativeLiteral(t) ==> r == Success(0)
  {
    if IsNegativeLiteral(t) then Failure(InvalidArgument)
    else if IsDigits(t) && Value(t) <= Ceiling then Success(Value(t))
    else Success(0)
  }

  /** Reading back the decimal digits of `n` gives `n`. */
  lemma {:induction false} ValueOfDecimal(n: nat)
    ensures Value(Decimal(n)) == n
    decreases n
  {
    var last := ['0' + (n % 10) as char];
    if n >= 10 {
      var front := Decimal(n / 10);
      ValueOfDecimal(n / 10);
      assert (front + last)[..|front + last| - 1] == front;
    }
  }

  /**
   * Converting the decimal form of `n` gives `n` up to and including the
   * ceiling, and 0 above it.
   */
  lemma ConvertDecimal(n: nat)
    ensures ConvertToNum(Decimal(n)) == Success(if n <= Ceiling then n else 0)
  {
    ValueOfDecimal(n);
  }

  /** A token holding a non-digit character, other than a negative literal, converts to 0. */
  lemma ConvertNonNumeric(t: string, i: nat)
    requires i < |t| && !IsDigit(t[i]) && !IsNegativeLiteral(t)
    ensures ConvertToNum(t) == Success(0)
  {
  }

  /** The conversions pinned down for single tokens. */
  lemma ConvertExamples()
    ensures ConvertToNum("20") == Success(20)
    ensures ConvertToNum("1000") == Success(1000)
    ensures ConvertToNum("1001") == Success(0)
    ensures ConvertToNum("tytyt") == Success(0)
    ensures ConvertToNum("1e5") == Success(0)
    ensures ConvertToNum("3.14") == Success(0)
    ensures ConvertToNum("0xFF") == Success(0)
    ensures ConvertToNum("123abc") == Success(0)
    ensures ConvertToNum("abc123") == Success(0)
    ensures ConvertToNum("-1").Failure?
  {
    assert "20"[..1] == "2" && "2"[..0] == "";
    assert Value("20") == 20;
    assert "1000"[..3] == "100" && "100"[..2] == "10" && "10"[..1] == "1";
    assert "1001"[..3] == "100";
    assert !IsDigit("3.14"[1]);
  }
}
