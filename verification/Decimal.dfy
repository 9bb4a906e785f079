/** Decimal numbers as Go's `strconv` reads and writes them, on 64-bit integers. */
module Decimal {
  import opened Outcomes

  const MIN_INT := -0x8000_0000_0000_0000
  const MAX_INT := 0x7FFF_FFFF_FFFF_FFFF
  const WORD := 0x1_0000_0000_0000_0000

  predicate IsInt(n: int) {
    MIN_INT <= n <= MAX_INT
  }

  type Int = n: int | MIN_INT <= n <= MAX_INT

  /** 64-bit addition, which wraps around. */
  function Plus(a: Int, b: Int): Int {
    var sum: int := a + b;
    if sum > MAX_INT then sum - WORD else if sum < MIN_INT then sum + WORD else sum
  }

  lemma PlusAssociates(a: Int, b: Int, c: Int)
    ensures Plus(Plus(a, b), c) == Plus(a, Plus(b, c))
  {
  }

  predicate IsDigit(c: char) {
    '0' <= c <= '9'
  }

  predicate AllDigits(s: string) {
    forall i :: 0 <= i < |s| ==> IsDigit(s[i])
  }

  function DigitsValue(s: string): nat
    requires AllDigits(s)
  {
    if s == "" then 0 else 10 * DigitsValue(s[..|s| - 1]) + (s[|s| - 1] as int - '0' as int)
  }

  /** strconv.Atoi: an optional sign, then at least one digit, within 64 bits. */
  function Atoi(s: string): Option<Int> {
    var negative := s != "" && s[0] == '-';
    var digits := if s != "" && (s[0] == '-' || s[0] == '+') then s[1..] else s;
    if digits == "" || !AllDigits(digits) then
      None
    else
      var magnitude: int := DigitsValue(digits);
      var n := if negative then -magnitude else magnitude;
      if IsInt(n) then Some(n) else None
  }

  function Digits(n: nat): (s: string)
    ensures s != "" && AllDigits(s)
  {
    var last := [('0' as int + n % 10) as char];
    if n < 10 then last else Digits(n / 10) + last
  }

  /** strconv.Itoa. */
  function Itoa(n: int): string {
    if n < 0 then "-" + Digits(-n) else Digits(n)
  }

  lemma {:induction false} ValueOfDigits(n: nat)
    ensures DigitsValue(Digits(n)) == n
  {
    var s := Digits(n);
    if n >= 10 {
      ValueOfDigits(n / 10);
      assert s[..|s| - 1] == Digits(n / 10);
    }
  }

  /** Every 64-bit integer survives being written and read. */
  lemma AtoiItoa(n: int)
    requires IsInt(n)
    ensures Atoi(Itoa(n)) == Some(n)
  {
    ValueOfDigits(if n < 0 then -n else n);
    assert n < 0 ==> Itoa(n)[1..] == Digits(-n);
    assert n >= 0 ==> IsDigit(Itoa(n)[0]);
  }

  const NUMERALS := "0123456789"

  lemma NumeralExactly(c: char)
    ensures c in NUMERALS <==> '0' <= c <= '9'
  {
    assert forall i :: 0 <= i < 10 ==> NUMERALS[i] as int == '0' as int + i;
    assert '0' <= c <= '9' ==> NUMERALS[c as int - '0' as int] == c;
  }

  /** The ten numerals, and the last of several digits. */
  lemma DigitsSpelled(n: nat, d: nat)
    requires d < 10
    ensures |NUMERALS| == 10 && Digits(d) == [NUMERALS[d]]
    ensures n > 0 ==> Digits(10 * n + d) == Digits(n) + [NUMERALS[d]]
  {
    assert forall i :: 0 <= i < 10 ==> NUMERALS[i] as int == '0' as int + i;
  }

  function Zeros(n: nat): (s: string)
    ensures |s| == n && forall i :: 0 <= i < n ==> s[i] == '0'
  {
    seq(n, _ => '0')
  }

  /** The digits of `n` after leading zeros. */
  function Padded(zeros: nat, n: nat): (s: string)
    ensures s != "" && AllDigits(s)
  {
    Zeros(zeros) + Digits(n)
  }

  predicate SignFits(sign: string, n: int) {
    ((sign == "" || sign == "+") && n >= 0) || (sign == "-" && n <= 0)
  }

  function Magnitude(n: int): nat {
    if n < 0 then -n else n
  }

  /** A text that denotes `n`: an optional sign, leading zeros and the digits of `n`. */
  ghost predicate Numeral(s: string, n: int) {
    exists sign, zeros: nat :: SignFits(sign, n) && s == sign + Padded(zeros, Magnitude(n))
  }

  lemma DigitsSnoc(n: nat, d: nat)
    requires d < 10
    ensures |Digits(d)| == 1
    ensures n > 0 ==> Digits(10 * n + d) == Digits(n) + Digits(d)
  {
  }

  lemma PaddedSnoc(zeros: nat, n: nat, d: nat)
    requires d < 10
    ensures |Digits(d)| == 1
    ensures n > 0 ==> Padded(zeros, 10 * n + d) == Padded(zeros, n) + Digits(d)
    ensures Padded(zeros + 1, d) == Padded(zeros, 0) + Digits(d)
  {
    DigitsSnoc(n, d);
    assert Zeros(zeros + 1) == Zeros(zeros) + Digits(0);
  }

  lemma {:induction false} ZerosThenDigits(s: string) returns (zeros: nat)
    requires s != "" && AllDigits(s)
    ensures s == Padded(zeros, DigitsValue(s))
  {
    var front, d := s[..|s| - 1], s[|s| - 1] as int - '0' as int;
    assert s == front + Digits(d);
    if front == "" {
      zeros := 0;
    } else {
      zeros := ZerosThenDigits(front);
      PaddedSnoc(zeros, DigitsValue(front), d);
      if DigitsValue(front) == 0 {
        zeros := zeros + 1;
      }
    }
  }

  lemma {:induction false} ValueOfPadded(zeros: nat, n: nat)
    ensures DigitsValue(Padded(zeros, n)) == n
    decreases n, zeros
  {
    var s, d := Padded(zeros, n), n % 10;
    PaddedSnoc(zeros, n / 10, d);
    if n >= 10 {
      assert s[..|s| - 1] == Padded(zeros, n / 10);
      ValueOfPadded(zeros, n / 10);
    } else if zeros > 0 {
      PaddedSnoc(zeros - 1, 0, d);
      assert s[..|s| - 1] == Padded(zeros - 1, 0);
      ValueOfPadded(zeros - 1, 0);
    }
    assert s[|s| - 1] == Digits(d)[0];
  }

  lemma AtoiSigned(sign: string, digits: string)
    requires sign == "" || sign == "+" || sign == "-"
    requires digits != "" && AllDigits(digits)
    ensures var value: int := DigitsValue(digits);
            var n := if sign == "-" then -value else value;
            Atoi(sign + digits) == if IsInt(n) then Some(n) else None
  {
    assert IsDigit(digits[0]);
    assert sign != "" ==> (sign + digits)[1..] == digits;
    assert sign == "" ==> sign + digits == digits;
  }

  lemma ReadIsNumeral(s: string, n: Int)
    requires Atoi(s) == Some(n)
    ensures Numeral(s, n)
  {
    var sign := if s[0] == '-' || s[0] == '+' then s[..1] else "";
    var digits := s[|sign|..];
    assert s == sign + digits;
    AtoiSigned(sign, digits);
    var zeros := ZerosThenDigits(digits);
    assert SignFits(sign, n) && s == sign + Padded(zeros, Magnitude(n));
  }

  lemma AtoiFits(sign: string, digits: string, n: Int)
    requires SignFits(sign, n) && digits != "" && AllDigits(digits) && DigitsValue(digits) == Magnitude(n)
    ensures Atoi(sign + digits) == Some(n)
  {
    AtoiSigned(sign, digits);
  }

  lemma NumeralIsRead(s: string, n: Int)
    requires Numeral(s, n)
    ensures Atoi(s) == Some(n)
  {
    var sign, zeros: nat :| SignFits(sign, n) && s == sign + Padded(zeros, Magnitude(n));
    ValueOfPadded(zeros, Magnitude(n));
    AtoiFits(sign, Padded(zeros, Magnitude(n)), n);
  }

  /** Reading accepts exactly the texts that denote a 64-bit integer, as that integer. */
  lemma AtoiExactly(s: string, n: Int)
    ensures Atoi(s) == Some(n) <==> Numeral(s, n)
  {
    if Atoi(s) == Some(n) {
      ReadIsNumeral(s, n);
    }
    if Numeral(s, n) {
      NumeralIsRead(s, n);
    }
  }

  /** No text denotes two integers. */
  lemma NumeralUnique(s: string, m: int, n: int)
    requires Numeral(s, m) && Numeral(s, n)
    ensures m == n
  {
    NumeralValue(s, m);
    NumeralValue(s, n);
  }

  lemma NumeralValue(s: string, n: int)
    requires Numeral(s, n)
    ensures s != ""
    ensures s[0] == '-' ==> AllDigits(s[1..]) && n == -(DigitsValue(s[1..]) as int)
    ensures s[0] == '+' ==> AllDigits(s[1..]) && n == DigitsValue(s[1..])
    ensures s[0] != '-' && s[0] != '+' ==> AllDigits(s) && n == DigitsValue(s)
  {
    var sign, zeros: nat :| SignFits(sign, n) && s == sign + Padded(zeros, Magnitude(n));
    var digits := Padded(zeros, Magnitude(n));
    ValueOfPadded(zeros, Magnitude(n));
    assert IsDigit(digits[0]);
    assert sign == "" ==> s == digits;
    assert sign != "" ==> s[1..] == digits;
  }

  /** A character that no numeral has in this place: neither a digit nor a leading sign. */
  predicate Stray(s: string, i: nat)
    requires i < |s|
  {
    !IsDigit(s[i]) && (i > 0 || (s[i] != '+' && s[i] != '-'))
  }

  /** No text of a 64-bit integer: empty, a sign alone, a stray character, or a numeral out of range. */
  ghost predicate NoNumber(s: string) {
    || s == "" || s == "+" || s == "-"
    || (exists i :: 0 <= i < |s| && Stray(s, i))
    || (exists n :: Numeral(s, n) && !IsInt(n))
  }

  /** Reading refuses exactly these texts. */
  lemma NoNumberExactly(s: string)
    ensures Atoi(s).None? <==> NoNumber(s)
  {
    if Atoi(s).None? {
      RefusedIsNoNumber(s);
    } else {
      NothingStray(s);
      ReadIsInRange(s);
    }
  }

  lemma NothingStray(s: string)
    requires Atoi(s).Some?
    ensures forall i :: 0 <= i < |s| ==> !Stray(s, i)
  {
    forall i | 0 < i < |s|
      ensures IsDigit(s[i])
    {
      assert s[1..][i - 1] == s[i];
    }
  }

  lemma ReadIsInRange(s: string)
    requires Atoi(s).Some?
    ensures forall n :: Numeral(s, n) ==> IsInt(n)
  {
    var m := Atoi(s).value;
    ReadIsNumeral(s, m);
    forall n | Numeral(s, n)
      ensures IsInt(n)
    {
      NumeralUnique(s, n, m);
    }
  }

  lemma RefusedIsNoNumber(s: string)
    requires Atoi(s).None?
    ensures NoNumber(s)
  {
    var sign := if s != "" && (s[0] == '+' || s[0] == '-') then s[..1] else "";
    var digits := s[|sign|..];
    assert s == sign + digits;
    if digits != "" && AllDigits(digits) {
      AtoiSigned(sign, digits);
      var value: int := DigitsValue(digits);
      var n := if sign == "-" then -value else value;
      var zeros := ZerosThenDigits(digits);
      assert SignFits(sign, n) && s == sign + Padded(zeros, Magnitude(n));
      assert Numeral(s, n);
    } else if digits != "" {
      var i :| 0 <= i < |digits| && !IsDigit(digits[i]);
      assert Stray(s, |sign| + i);
    }
  }

  lemma {:induction false} NoLeadingZero(n: nat)
    ensures n > 0 ==> Digits(n)[0] != '0'
  {
    if n >= 10 {
      NoLeadingZero(n / 10);
    }
  }

  /** Written numbers consist of digits and a sign. */
  lemma ItoaAlphabet(n: int)
    ensures Itoa(n) != ""
    ensures forall c :: c in Itoa(n) ==> c == '-' || IsDigit(c)
  {
  }

  /** Two integers written alike are equal. */
  lemma ItoaInjective(m: int, n: int)
    requires Itoa(m) == Itoa(n)
    ensures m == n
  {
    var s := Itoa(m);
    ValueOfDigits(if m < 0 then -m else m);
    ValueOfDigits(if n < 0 then -n else n);
    assert m < 0 ==> s[1..] == Digits(-m) && s[0] == '-';
    assert n < 0 ==> s[1..] == Digits(-n) && s[0] == '-';
    assert m >= 0 || n >= 0 ==> IsDigit(s[0]);
  }
}
