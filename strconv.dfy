/** Decimal integers as the command handlers read and print note ids:
    strconv.Atoi on the text after '#', and the decimal form in which
    ids are printed. Go's int is 64 bits wide here. */
module Strconv {
  import opened Wrappers

  const MinInt: int := -0x8000_0000_0000_0000
  const MaxInt: int := 0x7FFF_FFFF_FFFF_FFFF

  predicate IsDigit(c: char) {
    '0' <= c <= '9'
  }

  predicate AllDigits(s: string) {
    forall i | 0 <= i < |s| :: IsDigit(s[i])
  }

  function DigitValue(c: char): nat
    requires IsDigit(c)
  {
    c as int - '0' as int
  }

  /** The value of a run of decimal digits, most significant first. */
  function DigitsValue(s: string): nat
    requires AllDigits(s)
  {
    if s == [] then 0 else DigitsValue(s[..|s| - 1]) * 10 + DigitValue(s[|s| - 1])
  }

  /** strconv.Atoi: an optional '+' or '-', then at least one ASCII digit,
      with a value that fits the 64-bit int; anything else is an error
      ("invalid syntax" or "value out of range"). */
  function Atoi(s: string): (r: Result<int>)
    ensures r.Success? ==> MinInt <= r.value <= MaxInt
    ensures r.Success? ==> s != [] && IsDigit(s[|s| - 1])
    ensures r.Success? ==> forall i | 0 < i < |s| :: IsDigit(s[i])
    ensures r.Success? && !IsDigit(s[0]) ==> s[0] == '+' || s[0] == '-'
  {
    var signed := s != [] && (s[0] == '+' || s[0] == '-');
    var digits := if signed then s[1..] else s;
    if digits == [] || !AllDigits(digits) then
      Failure("invalid syntax")
    else
      var magnitude: int := DigitsValue(digits);
      var value: int := if signed && s[0] == '-' then -magnitude else magnitude;
      if MinInt <= value <= MaxInt then Success(value) else Failure("value out of range")
  }

  function DigitChar(d: nat): (c: char)
    requires d < 10
    ensures IsDigit(c) && DigitValue(c) == d
  {
    ('0' as int + d) as char
  }

  /** The decimal digits of a natural number, without leading zeros. */
  function NatToDecimal(n: nat): (s: string)
    ensures s != [] && AllDigits(s)
    ensures DigitsValue(s) == n
    ensures s[0] == '0' ==> n == 0
  {
    if n < 10 then [DigitChar(n)]
    else
      var s := NatToDecimal(n / 10) + [DigitChar(n % 10)];
      assert s[..|s| - 1] == NatToDecimal(n / 10);
      s
  }

  /** An int printed the way fmt's %v prints it: '-' for negatives, then
      its decimal digits. */
  function Itoa(n: int): (s: string)
    ensures s != [] && (s[0] == '-' <==> n < 0)
    ensures n >= 0 ==> AllDigits(s) && DigitsValue(s) == n
    ensures n < 0 ==> AllDigits(s[1..]) && DigitsValue(s[1..]) == -n
  {
    if n < 0 then "-" + NatToDecimal(-n) else NatToDecimal(n)
  }

  /** Every id the program prints parses back to the same id. */
  lemma AtoiItoa(n: int)
    requires MinInt <= n <= MaxInt
    ensures Atoi(Itoa(n)) == Success(n)
  {
    var s := Itoa(n);
    if n < 0 {
      assert s[1..] == NatToDecimal(-n);
    }
  }

  /** A value that does not fit the 64-bit int is refused even though its
      text is well formed. */
  lemma AtoiRejectsOverflow(n: int)
    requires n > MaxInt
    ensures Atoi(Itoa(n)).Failure?
    ensures Atoi(Itoa(-n - 1)).Failure?
  {
    var s := Itoa(-n - 1);
    assert s[1..] == NatToDecimal(n + 1);
  }

  /** The converse of Atoi's contract: an optional sign followed by at
      least one digit is accepted exactly when its value fits the 64-bit
      int, and then it denotes that value. */
  lemma AtoiAcceptsWellFormed(sign: string, digits: string)
    requires sign == "" || sign == "+" || sign == "-"
    requires digits != [] && AllDigits(digits)
    ensures var v := if sign == "-" then -(DigitsValue(digits) as int) else DigitsValue(digits) as int;
      Atoi(sign + digits) == if MinInt <= v <= MaxInt then Success(v) else Failure("value out of range")
  {
    var s := sign + digits;
    if sign == "" {
      assert s == digits;
      assert IsDigit(digits[0]);
    } else {
      assert s[0] == sign[0] && s[1..] == digits;
    }
  }

  /** Leading zeros are accepted and change nothing ("#007" is id 7). */
  lemma LeadingZeros(zeros: nat, s: string)
    requires AllDigits(s)
    ensures AllDigits(Zeros(zeros) + s)
    ensures DigitsValue(Zeros(zeros) + s) == DigitsValue(s)
    ensures s != [] ==> Atoi(Zeros(zeros) + s) == Atoi(s)
  {
    ZerosPrefixValue(zeros, s);
    if s != [] {
      AtoiAcceptsWellFormed("", Zeros(zeros) + s);
      AtoiAcceptsWellFormed("", s);
      assert "" + (Zeros(zeros) + s) == Zeros(zeros) + s;
      assert "" + s == s;
    }
  }

  lemma {:induction false} ZerosPrefixValue(zeros: nat, s: string)
    requires AllDigits(s)
    ensures AllDigits(Zeros(zeros) + s)
    ensures DigitsValue(Zeros(zeros) + s) == DigitsValue(s)
    decreases |s|
  {
    if s != [] {
      var t := Zeros(zeros) + s;
      assert t[..|t| - 1] == Zeros(zeros) + s[..|s| - 1];
      ZerosPrefixValue(zeros, s[..|s| - 1]);
    } else {
      ZerosValue(zeros);
      assert Zeros(zeros) + s == Zeros(zeros);
    }
  }

  function Zeros(k: nat): (z: string)
    ensures |z| == k && AllDigits(z)
  {
    if k == 0 then [] else Zeros(k - 1) + ['0']
  }

  lemma {:induction false} ZerosValue(k: nat)
    ensures DigitsValue(Zeros(k)) == 0
  {
    if k > 0 {
      assert Zeros(k)[..k - 1] == Zeros(k - 1);
      ZerosValue(k - 1);
    }
  }
}
