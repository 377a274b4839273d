/** Numbers as text: what `from_str`, `from_str_radix` and `to_string` do. */
module Numerals {
  import opened Rust
  import opened Arithmetic
  import opened Utf8

  predicate IsDigit(c: char, radix: nat) {
    '0' <= c <= '9' && c as int - '0' as int < radix
  }

  predicate AllDigits(s: string, radix: nat) {
    forall i :: 0 <= i < |s| ==> IsDigit(s[i], radix)
  }

  /** The number that a string of digits denotes. */
  function Value(s: string, radix: nat): nat
    requires AllDigits(s, radix)
  {
    if s == "" then 0
    else Value(s[..|s| - 1], radix) * radix + (s[|s| - 1] as int - '0' as int)
  }

  /** Rust's unsigned parsers for radixes up to 10: an optional `+`, then at least one digit,
      then nothing; an overflow of the target type is an error like any other. */
  function FromStrRadix(s: string, radix: nat, limit: nat): (r: Option<nat>)
    ensures r.Some? ==> r.value < limit
  {
    var digits := if s != "" && s[0] == '+' then s[1..] else s;
    if digits != "" && AllDigits(digits, radix) && Value(digits, radix) < limit then
      Some(Value(digits, radix))
    else
      None
  }

  function DigitChar(d: nat): (c: char)
    requires d < 10
    ensures c as int == '0' as int + d && '0' <= c <= '9'
  {
    ('0' as int + d) as char
  }

  function Pow(radix: nat, width: nat): nat {
    if width == 0 then 1 else radix * Pow(radix, width - 1)
  }

  /** A numeral of fixed width, with leading zeros. */
  function Numeral(n: nat, radix: nat, width: nat): (s: string)
    requires 2 <= radix <= 10
    ensures |s| == width && AllDigits(s, radix) && Ascii(s)
  {
    if width == 0 then "" else Numeral(n / radix, radix, width - 1) + [DigitChar(n % radix)]
  }

  function Octal(n: nat, width: nat): (s: string)
    ensures |s| == width && AllDigits(s, 8) && Ascii(s)
  {
    Numeral(n, 8, width)
  }

  /** The shortest decimal numeral: `to_string`. */
  function Decimal(n: nat): (s: string)
    ensures |s| >= 1 && AllDigits(s, 10) && Ascii(s)
    ensures n > 0 ==> s[0] != '0'
  {
    if n < 10 then [DigitChar(n)] else Decimal(n / 10) + [DigitChar(n % 10)]
  }

  lemma ValueSnoc(s: string, c: char, radix: nat)
    requires AllDigits(s, radix) && IsDigit(c, radix)
    ensures AllDigits(s + [c], radix)
    ensures Value(s + [c], radix) == Value(s, radix) * radix + (c as int - '0' as int)
  {
    assert (s + [c])[..|s|] == s;
  }

  lemma AllDigitsWider(s: string, radix: nat)
    requires AllDigits(s, radix) && radix <= 10
    ensures AllDigits(s, 10)
  {
  }

  lemma PowSucc(radix: nat, width: nat)
    ensures Pow(radix, width + 1) == radix * Pow(radix, width)
  {
  }

  lemma LastDigit(n: nat, m: nat, p: nat) returns (q: nat, d: nat)
    requires 0 < m && n < m * p
    ensures n == q * m + d && q < p && d < m
  {
    q, d := n / m, n % m;
    if q >= p {
      MulMonotonic(m, p, q);
    }
  }

  lemma DigitBelow(q: nat, m: nat, d: nat, p: nat)
    requires d < m && q < p
    ensures q * m + d < m * p && (q * m + d) / m == q && (q * m + d) % m == d
  {
    MulMonotonic(m, q + 1, p);
    DivModUnique(q * m + d, q, d, m);
  }

  lemma NumeralSnoc(q: nat, radix: nat, width: nat, d: nat)
    requires d < radix && 2 <= radix <= 10 && q < Pow(radix, width)
    ensures q * radix + d < Pow(radix, width + 1)
    ensures Numeral(q * radix + d, radix, width + 1) == Numeral(q, radix, width) + [DigitChar(d)]
  {
    PowSucc(radix, width);
    hide Pow;
    DigitBelow(q, radix, d, Pow(radix, width));
  }

  lemma ValueOfMore(n: nat, q: nat, radix: nat, width: nat, d: nat)
    requires d < radix && 2 <= radix <= 10 && q < Pow(radix, width) && n == q * radix + d
    requires Value(Numeral(q, radix, width), radix) == q
    ensures Value(Numeral(n, radix, width + 1), radix) == n
  {
    hide Numeral, Pow, Value;
    NumeralSnoc(q, radix, width, d);
    ValueSnoc(Numeral(q, radix, width), DigitChar(d), radix);
  }

  lemma {:induction false} ValueOfNumeral(n: nat, radix: nat, width: nat)
    requires 2 <= radix <= 10 && n < Pow(radix, width)
    ensures Value(Numeral(n, radix, width), radix) == n
    decreases width
  {
    if width == 0 {
    } else {
      PowSucc(radix, width - 1);
      hide Pow, Value, Numeral;
      var q, d := LastDigit(n, radix, Pow(radix, width - 1));
      ValueOfNumeral(q, radix, width - 1);
      ValueOfMore(n, q, radix, width - 1, d);
    }
  }

  lemma {:induction false} NumeralOfValue(s: string, radix: nat)
    requires 2 <= radix <= 10 && AllDigits(s, radix)
    ensures Value(s, radix) < Pow(radix, |s|)
    ensures Numeral(Value(s, radix), radix, |s|) == s
  {
    if s == "" {
    } else {
      hide Numeral, Pow;
      var before, digit := s[..|s| - 1], s[|s| - 1] as int - '0' as int;
      NumeralOfValue(before, radix);
      NumeralSnoc(Value(before, radix), radix, |s| - 1, digit);
      assert s == before + [DigitChar(digit)];
    }
  }

  /** An optional plus sign, then a numeral of at least one digit. */
  ghost predicate Spells(s: string, radix: nat, n: nat)
    requires 2 <= radix <= 10
  {
    exists width: nat ::
      && 1 <= width && n < Pow(radix, width)
      && (s == Numeral(n, radix, width) || s == "+" + Numeral(n, radix, width))
  }

  /** A text is read as a number exactly if it spells it and the type can hold it; all other
      texts are errors. */
  lemma ReadIff(s: string, radix: nat, limit: nat, n: nat)
    requires 2 <= radix <= 10
    ensures FromStrRadix(s, radix, limit) == Some(n) <==> n < limit && Spells(s, radix, n)
  {
    hide Value, Pow, Numeral;
    if FromStrRadix(s, radix, limit) == Some(n) {
      var digits := if s[0] == '+' then s[1..] else s;
      NumeralOfValue(digits, radix);
      assert s[0] == '+' ==> s == "+" + digits;
    }
    if width: nat :| && 1 <= width && n < Pow(radix, width)
                     && (s == Numeral(n, radix, width) || s == "+" + Numeral(n, radix, width)) {
      var digits := Numeral(n, radix, width);
      ValueOfNumeral(n, radix, width);
      assert IsDigit(digits[0], radix);
      assert ("+" + digits)[1..] == digits;
    }
  }

  lemma NotADigit(s: string, c: char)
    requires AllDigits(s, 10) && !IsDigit(c, 10)
    ensures c !in s
  {
  }

  lemma {:induction false} ValueOfDecimal(n: nat)
    ensures Value(Decimal(n), 10) == n
  {
    if n >= 10 {
      ValueOfDecimal(n / 10);
      ValueSnoc(Decimal(n / 10), DigitChar(n % 10), 10);
    } else {
      ValueSnoc("", DigitChar(n), 10);
      assert "" + [DigitChar(n)] == Decimal(n);
    }
  }

  /** A number below the limit survives being written in octal and read back. */
  lemma OctalRoundTrip(n: nat, width: nat, limit: nat)
    requires 1 <= width && n < Pow(8, width) && n < limit
    ensures FromStrRadix(Octal(n, width), 8, limit) == Some(n)
  {
    ReadIff(Octal(n, width), 8, limit, n);
  }

  /** A number below the limit survives `to_string` and `parse`. */
  lemma DecimalRoundTrip(n: nat, limit: nat)
    requires n < limit
    ensures FromStrRadix(Decimal(n), 10, limit) == Some(n)
  {
    ValueOfDecimal(n);
    assert IsDigit(Decimal(n)[0], 10);
  }

  lemma DecimalSnoc(n: nat, d: nat)
    requires 0 < n && d < 10
    ensures Decimal(10 * n + d) == Decimal(n) + [DigitChar(d)]
  {
    DivModUnique(10 * n + d, n, d, 10);
  }

  // ------------------------------------------- octal text read as a decimal number

  /** What becomes of a number written in octal and read in decimal. */
  function Misread(n: nat): nat {
    if n < 8 then n else 10 * Misread(n / 8) + n % 8
  }

  lemma {:induction false} MisreadOctal(n: nat, width: nat)
    requires n < Pow(8, width)
    ensures AllDigits(Octal(n, width), 10)
    ensures Value(Octal(n, width), 10) == Misread(n)
  {
    AllDigitsWider(Octal(n, width), 8);
    if width == 0 {
    } else {
      MisreadOctal(n / 8, width - 1);
      ValueSnoc(Octal(n / 8, width - 1), DigitChar(n % 8), 10);
    }
  }

  lemma {:induction false} MisreadBound(n: nat, width: nat)
    requires n < Pow(8, width)
    ensures Misread(n) < Pow(10, width)
  {
    if n >= 8 {
      MisreadBound(n / 8, width - 1);
    } else if width > 0 {
      PowPositive(10, width - 1);
    }
  }

  lemma {:induction false} PowPositive(radix: nat, width: nat)
    requires radix > 0
    ensures Pow(radix, width) > 0
  {
    if width == 0 {
    } else {
      PowPositive(radix, width - 1);
    }
  }

  lemma {:induction false} MisreadPositive(n: nat)
    requires n > 0
    ensures Misread(n) > 0
  {
    if n < 8 {
    } else {
      MisreadPositive(n / 8);
    }
  }

  lemma MisreadHundred(n: nat)
    ensures Misread(n) >= 100 <==> n >= 64
  {
    assert Misread(n) >= 10 <==> n >= 8;
    if n >= 8 {
      assert Misread(n / 8) >= 10 <==> n / 8 >= 8;
    }
  }
}
