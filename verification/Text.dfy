// Numbers in text: decimal digits, written and read back.
module Text {
  import opened Wrappers
  import opened Numbers

  predicate IsDigit(c: char) {
    '0' <= c <= '9'
  }

  predicate AllDigits(s: string) {
    forall i | 0 <= i < |s| :: IsDigit(s[i])
  }

  function DigitChar(d: nat): char
    requires d < 10
  {
    ('0' as int + d) as char
  }

  function DigitValue(c: char): nat
    requires IsDigit(c)
  {
    c as int - '0' as int
  }

  function Decimal(n: nat): string {
    if n < 10 then [DigitChar(n)] else Decimal(n / 10) + [DigitChar(n % 10)]
  }

  /** The number a run of digits denotes; leading zeros are allowed. */
  function DecimalValue(s: string): nat
    requires AllDigits(s)
  {
    if s == "" then 0 else 10 * DecimalValue(s[..|s| - 1]) + DigitValue(s[|s| - 1])
  }

  lemma {:induction false} DecimalReads(n: nat)
    ensures AllDigits(Decimal(n)) && DecimalValue(Decimal(n)) == n
    ensures Decimal(n) != "" && (Decimal(n)[0] == '0' ==> n == 0)
  {
    if n < 10 {
      assert Decimal(n)[..0] == "";
    } else {
      DecimalReads(n / 10);
      assert Decimal(n)[..|Decimal(n)| - 1] == Decimal(n / 10);
    }
  }

  /** Digits without a superfluous leading zero are the decimal form of their value. */
  lemma {:induction false} DecimalWrites(s: string)
    requires AllDigits(s) && s != "" && (s[0] == '0' ==> |s| == 1)
    ensures Decimal(DecimalValue(s)) == s
  {
    hide Decimal;
    var front, last := s[..|s| - 1], s[|s| - 1];
    assert s == front + [last] && DigitChar(DigitValue(last)) == last;
    if |s| == 1 {
      assert front == "" && DecimalValue(front) == 0;
      DecimalStep(0, DigitValue(last));
    } else {
      DecimalWrites(front);
      DecimalPositive(front);
      DecimalStep(DecimalValue(front), DigitValue(last));
    }
  }

  lemma DecimalStep(high: nat, low: nat)
    requires low < 10
    ensures Decimal(10 * high + low) == (if high == 0 then "" else Decimal(high)) + [DigitChar(low)]
  {
    assert (10 * high + low) / 10 == high && (10 * high + low) % 10 == low;
  }

  lemma {:induction false} DecimalPositive(s: string)
    requires AllDigits(s) && s != "" && s[0] != '0'
    ensures DecimalValue(s) > 0
  {
    if |s| > 1 {
      DecimalPositive(s[..|s| - 1]);
    }
  }

  lemma DecimalInjective(a: nat, b: nat)
    requires Decimal(a) == Decimal(b)
    ensures a == b
  {
    DecimalReads(a);
    DecimalReads(b);
  }

  /** Digits between a space and a closing parenthesis are the same when the whole texts are. */
  lemma TrailingDigits(u: string, d: string, v: string, e: string)
    requires AllDigits(d) && AllDigits(e)
    ensures u + " " + d + ")" == v + " " + e + ")" ==> d == e
  {
    var s := u + " " + d + ")";
    var t := v + " " + e + ")";
    assert s[|u|] == ' ' && t[|v|] == ' ';
    if |s| == |t| {
      if |u| < |v| {
        assert s[|v|] == d[|v| - |u| - 1];
      } else if |v| < |u| {
        assert t[|u|] == e[|u| - |v| - 1];
      } else {
        assert d == s[|u| + 1..|s| - 1] && e == t[|v| + 1..|t| - 1];
      }
    }
  }

  // ---------------------------------------------------------------- digits, place by place

  const DIGITS: string := "0123456789"

  /** The digit `k` places from the right counts how often ten to the power of `k` goes into the number. */
  lemma {:induction false} DecimalAt(n: nat, k: nat)
    requires k < |Decimal(n)|
    ensures Power(10, k) > 0 && Decimal(n)[|Decimal(n)| - 1 - k] == DIGITS[n / Power(10, k) % 10]
  {
    if k == 0 {
      DigitSpelling(n % 10);
    } else {
      DecimalAt(n / 10, k - 1);
      PlaceValue(n, 10, k);
    }
  }

  lemma DigitSpelling(d: nat)
    requires d < 10
    ensures DigitChar(d) == DIGITS[d]
  {
  }

  function Zeros(count: int): string {
    if count <= 0 then "" else "0" + Zeros(count - 1)
  }

  lemma {:induction false} ZerosRead(count: int, digits: string)
    requires AllDigits(digits)
    ensures |Zeros(count)| == (if count <= 0 then 0 else count)
    ensures AllDigits(Zeros(count) + digits) && DecimalValue(Zeros(count) + digits) == DecimalValue(digits)
    decreases count, |digits|
  {
    if count > 0 {
      ZerosRead(count - 1, digits);
      LeadingZero(Zeros(count - 1) + digits);
      assert Zeros(count) + digits == "0" + (Zeros(count - 1) + digits);
    } else {
      assert Zeros(count) + digits == digits;
    }
  }

  lemma {:induction false} LeadingZero(digits: string)
    requires AllDigits(digits)
    ensures AllDigits("0" + digits) && DecimalValue("0" + digits) == DecimalValue(digits)
  {
    if digits == "" {
      assert ("0" + digits)[..0] == "";
    } else {
      LeadingZero(digits[..|digits| - 1]);
      assert ("0" + digits)[..|digits|] == "0" + digits[..|digits| - 1];
    }
  }

  // ---------------------------------------------------------------- the parsers of the standard library

  const U32: nat := 0x1_0000_0000
  const U64: nat := 0x1_0000_0000_0000_0000

  /** An unsigned parse ignores one leading plus sign. */
  function Unsigned(s: string): string {
    if s != "" && s[0] == '+' then s[1..] else s
  }

  function ParseDecimal(s: string, limit: nat): Option<nat> {
    var digits := Unsigned(s);
    if digits == "" || !AllDigits(digits) || DecimalValue(digits) >= limit then None
    else Some(DecimalValue(digits))
  }

  /** Position of the first colon, or the length. */
  function Colon(s: string): (at: nat)
    ensures at <= |s|
    ensures at < |s| ==> s[at] == ':'
    ensures forall i | 0 <= i < at :: s[i] != ':'
  {
    if s == "" || s[0] == ':' then 0 else 1 + Colon(s[1..])
  }

  /** Digits are superfluous zeros and the decimal form of their value. */
  lemma {:induction false} DigitsSplit(s: string) returns (zeros: nat)
    requires AllDigits(s) && s != ""
    ensures s == Zeros(zeros) + Decimal(DecimalValue(s))
  {
    hide Decimal;
    if s[0] != '0' || |s| == 1 {
      DecimalWrites(s);
      zeros := 0;
      assert Zeros(0) + s == s;
    } else {
      var more := DigitsSplit(s[1..]);
      LeadingZero(s[1..]);
      assert s == "0" + s[1..];
      zeros := more + 1;
      Regroup("0", Zeros(more), Decimal(DecimalValue(s)));
    }
  }

  /** How a number may be spelt: a plus sign, superfluous zeros, and its decimal form. */
  ghost predicate Spells(s: string, n: nat) {
    exists plus: bool, zeros: nat :: s == SpeltOut(plus, zeros, n)
  }

  function SpeltOut(plus: bool, zeros: nat, n: nat): string {
    (if plus then "+" else "") + (Zeros(zeros) + Decimal(n))
  }

  /** An unsigned number is read from its spellings, and from nothing else. */
  lemma ParseDecimalExact(s: string, limit: nat, n: nat)
    ensures ParseDecimal(s, limit) == Some(n) <==> n < limit && Spells(s, n)
  {
    hide Decimal, DecimalValue, Zeros;
    if ParseDecimal(s, limit) == Some(n) {
      var digits := Unsigned(s);
      var zeros := DigitsSplit(digits);
      assert s == SpeltOut(s != digits, zeros, n);
    }
    if plus: bool, zeros: nat :| s == SpeltOut(plus, zeros, n) {
      DecimalReads(n);
      ZerosRead(zeros, Decimal(n));
      var digits := Zeros(zeros) + Decimal(n);
      assert IsDigit(digits[0]);
      assert Unsigned(s) == digits;
    }
  }
}
