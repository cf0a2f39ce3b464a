/** The number conversions of the C library that the program uses on decimal text. */
module CText {
  predicate IsSpace(c: char) {
    c == ' ' || '\t' as int <= c as int <= '\r' as int
  }

  predicate IsDigit(c: char) {
    '0' <= c <= '9'
  }

  /** `acc` followed by the leading digits of `s`, read in base ten. */
  function Digits(s: string, acc: nat): nat {
    if s == [] || !IsDigit(s[0]) then acc else Digits(s[1..], acc * 10 + (s[0] as int - '0' as int))
  }

  function Clamp(v: int): int {
    if v > 0x7fff_ffff_ffff_ffff then 0x7fff_ffff_ffff_ffff
    else if v < -0x8000_0000_0000_0000 then -0x8000_0000_0000_0000
    else v
  }

  /** `strtol(s, NULL, 10)` with a 64-bit result. */
  function Strtol(s: string): int {
    if s != [] && IsSpace(s[0]) then Strtol(s[1..])
    else if s != [] && s[0] == '-' then Clamp(0 - Digits(s[1..], 0))
    else if s != [] && s[0] == '+' then Clamp(Digits(s[1..], 0))
    else Clamp(Digits(s, 0))
  }

  /** `atoi(s)`: the low 32 bits of `strtol`, read as a signed number. */
  function Atoi(s: string): int {
    var low := Strtol(s) % 0x1_0000_0000;
    if low < 0x8000_0000 then low else low - 0x1_0000_0000
  }

  /** The two conversions agree exactly on values that fit in 32 bits, and modulo 2^32 on all. */
  lemma AtoiIsStrtol(s: string)
    ensures Atoi(s) == Strtol(s) <==> -0x8000_0000 <= Strtol(s) < 0x8000_0000
    ensures -0x8000_0000 <= Atoi(s) < 0x8000_0000 && (Atoi(s) - Strtol(s)) % 0x1_0000_0000 == 0
  {
  }

  // ---- What the conversions mean

  function LastDigit(n: nat): (d: string)
    ensures |d| == 1
  {
    ["0123456789"[n % 10]]
  }

  /** The decimal text of a number, as "%d" prints it. */
  function Decimal(n: nat): (t: string)
    ensures t != ""
  {
    (if n < 10 then "" else Decimal(n / 10)) + LastDigit(n)
  }

  lemma LastDigitRead(n: nat, acc: nat, rest: string)
    ensures Digits(LastDigit(n) + rest, acc) == Digits(rest, 10 * acc + n % 10)
    ensures '0' <= LastDigit(n)[0] <= '9' && (n % 10 > 0 ==> LastDigit(n)[0] != '0')
  {
    var d := LastDigit(n);
    assert (d + rest)[1..] == rest;
    assert d[0] as int == '0' as int + n % 10;
  }

  lemma DecimalSplits(n: nat, rest: string)
    ensures Decimal(n) + rest == if n < 10 then LastDigit(n) + rest else Decimal(n / 10) + (LastDigit(n) + rest)
  {
    hide LastDigit;
    if n < 10 {
      assert Decimal(n) == "" + LastDigit(n);
    }
  }

  lemma TenTimes(n: nat)
    ensures 10 * (n / 10) + n % 10 == n && (n >= 10 ==> n / 10 < n)
  {
  }

  lemma {:induction false} DigitsOfDecimal(n: nat, rest: string)
    ensures Digits(Decimal(n) + rest, 0) == Digits(rest, n)
    decreases n
  {
    hide LastDigit, Decimal, Digits;
    DecimalSplits(n, rest);
    LastDigitRead(n, 0, rest);
    TenTimes(n);
    if n >= 10 {
      DigitsOfDecimal(n / 10, LastDigit(n) + rest);
      LastDigitRead(n, n / 10, rest);
    }
  }

  lemma DigitsOfShort(n: nat, acc: nat, rest: string)
    requires n < 100
    ensures Digits(Decimal(n) + rest, acc) == Digits(rest, if n < 10 then 10 * acc + n else 100 * acc + n)
  {
    hide LastDigit, Decimal, Digits;
    DecimalSplits(n, rest);
    LastDigitRead(n, acc, rest);
    TenTimes(n);
    if n >= 10 {
      DecimalSplits(n / 10, LastDigit(n) + rest);
      LastDigitRead(n / 10, acc, LastDigit(n) + rest);
      LastDigitRead(n, 10 * acc + n / 10, rest);
    }
  }

  /** White space: blank, tab, line feed, vertical tab, form feed, carriage return. */
  predicate Blank(s: string) {
    forall i :: 0 <= i < |s| ==> s[i] == ' ' || 9 <= s[i] as int <= 13
  }

  predicate NoDigitFirst(s: string) {
    s == "" || s[0] < '0' || s[0] > '9'
  }

  lemma {:induction false} SkipsBlanks(blanks: string, s: string)
    requires Blank(blanks)
    ensures Strtol(blanks + s) == Strtol(s)
  {
    if blanks == "" {
      assert blanks + s == s;
    } else {
      SkipsBlanks(blanks[1..], s);
      assert (blanks + s)[1..] == blanks[1..] + s;
    }
  }

  lemma {:induction false} DecimalStart(n: nat)
    ensures '0' <= Decimal(n)[0] <= '9' && (n > 0 ==> Decimal(n)[0] != '0')
    decreases n
  {
    hide LastDigit;
    LastDigitRead(n, 0, "");
    if n >= 10 {
      DecimalStart(n / 10);
    }
  }

  /** `strtol` skips white space, takes a sign, reads the decimal digits up to the first other character,
      and stays within 64 bits. */
  lemma StrtolReads(blanks: string, sign: string, n: nat, rest: string)
    requires Blank(blanks) && (sign == "" || sign == "+" || sign == "-") && NoDigitFirst(rest)
    ensures var r := Strtol(blanks + (sign + (Decimal(n) + rest)));
            && (sign == "-" ==> r + n == if n > 0x8000_0000_0000_0000 then n - 0x8000_0000_0000_0000 else 0)
            && (sign != "-" ==> r == if n > 0x7fff_ffff_ffff_ffff then 0x7fff_ffff_ffff_ffff else n)
  {
    var s := Decimal(n) + rest;
    SkipsBlanks(blanks, sign + s);
    DecimalStart(n);
    DigitsOfDecimal(n, rest);
    hide Decimal;
    assert s[0] == Decimal(n)[0];
    if sign == "" {
      assert sign + s == s;
    } else {
      assert (sign + s)[1..] == s;
    }
  }

  lemma StrtolOfDecimal(n: nat)
    ensures n < 0x8000_0000_0000_0000 ==> Strtol(Decimal(n)) == n && Strtol("-" + Decimal(n)) + n == 0
    ensures n < 0x8000_0000 ==> Atoi(Decimal(n)) == n
  {
    hide Decimal, Strtol;
    StrtolReads("", "", n, "");
    StrtolReads("", "-", n, "");
    assert "" + ("" + (Decimal(n) + "")) == Decimal(n);
    assert "" + ("-" + (Decimal(n) + "")) == "-" + Decimal(n);
  }

  predicate AllDigits(t: string) {
    forall i :: 0 <= i < |t| ==> '0' <= t[i] <= '9'
  }

  lemma LastDigitIs(v: nat, c: char)
    requires '0' <= c <= '9'
    ensures LastDigit(10 * v + (c as int - '0' as int)) == [c]
    ensures (10 * v + (c as int - '0' as int)) / 10 == v
  {
    assert (10 * v + (c as int - '0' as int)) % 10 == c as int - '0' as int;
  }

  /** A text of digits without a leading zero is the decimal text of the number that it is read as. */
  lemma {:induction false} DecimalOfDigits(t: string)
    requires t != "" && AllDigits(t) && t[0] != '0'
    ensures Decimal(Digits(t, 0)) == t && Digits(t, 0) > 0
  {
    hide LastDigit;
    var n := |t| - 1;
    assert t == t[..n] + [t[n]];
    DigitsSnoc(t[..n], t[n], 0);
    hide Digits;
    NoDigits();
    LastDigitIs(Digits(t[..n], 0), t[n]);
    if n > 0 {
      DecimalOfDigits(t[..n]);
    }
  }

  lemma NoDigits()
    ensures Digits("", 0) == 0
  {
  }

  lemma {:induction false} DigitsSnoc(s: string, c: char, acc: nat)
    requires AllDigits(s) && '0' <= c <= '9'
    ensures Digits(s + [c], acc) == 10 * Digits(s, acc) + (c as int - '0' as int)
  {
    if s != "" {
      DigitsSnoc(s[1..], c, acc * 10 + (s[0] as int - '0' as int));
      assert (s + [c])[1..] == s[1..] + [c];
    }
  }

  lemma {:induction false} DecimalIsDigits(n: nat)
    ensures AllDigits(Decimal(n))
    decreases n
  {
    hide LastDigit;
    LastDigitRead(n, 0, "");
    if n >= 10 {
      DecimalIsDigits(n / 10);
    }
  }

  /** The day as the program prints it: year, month and day, without padding. */
  function Day(year: nat, month: nat, day: nat): string {
    Decimal(year) + (Decimal(month) + Decimal(day))
  }

  /** The number read from a day is the number whose decimal text is the day. */
  lemma DayIsRead(year: nat, month: nat, day: nat)
    requires 1 <= year <= 9999 && 1 <= month <= 12 && 1 <= day <= 31
    ensures Atoi(Day(year, month, day)) == Strtol(Day(year, month, day)) > 0
    ensures Decimal(Atoi(Day(year, month, day))) == Day(year, month, day)
  {
    hide Decimal, Strtol, Atoi;
    var t := Day(year, month, day);
    DecimalStart(year);
    DecimalIsDigits(year);
    DecimalIsDigits(month);
    DecimalIsDigits(day);
    DecimalOfDigits(t);
    DigitsOfDecimal(year, Decimal(month) + Decimal(day));
    DigitsOfShort(month, year, Decimal(day));
    DigitsOfShort(day, if month < 10 then 10 * year + month else 100 * year + month, "");
    assert Decimal(day) + "" == Decimal(day);
    StrtolOfDecimal(Digits(t, 0));
  }
}
