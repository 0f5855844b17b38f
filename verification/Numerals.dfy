/** Positional numerals in bases 2 to 36: what a printed integer means, independently of any printer.

    `Parse` reads a numeral back, `Canonical` says which numerals are in normal form, and `Text` is the
    numeral of a value. `TextIsTheCanonicalNumeral` ties the three together. */
module Numerals {
  datatype Option<+T> = None | Some(value: T)

  const TWO_TO_64: nat := 0x1_0000_0000_0000_0000

  /** C's `uint64_t`, and addresses held in one. */
  type uint64 = n: int | 0 <= n < TWO_TO_64

  type Base = b: int | 2 <= b <= 36 witness 10

  // ----- Reading a numeral -----

  function DigitValue(c: char): Option<nat> {
    if '0' <= c <= '9' then Some(c as int - '0' as int)
    else if 'a' <= c <= 'z' then Some(c as int - 'a' as int + 10)
    else None
  }

  predicate IsDigit(c: char, base: Base) {
    DigitValue(c).Some? && DigitValue(c).value < base
  }

  function ParseNat(s: string, base: Base): Option<nat> {
    if s == [] then Some(0)
    else if !IsDigit(s[|s| - 1], base) then None
    else match ParseNat(s[..|s| - 1], base)
      case None => None
      case Some(n) => Some(n * base + DigitValue(s[|s| - 1]).value)
  }

  /** The value of a numeral: digits, most significant first, after an optional '-'. */
  function Parse(s: string, base: Base): Option<int> {
    if s == [] || s == "-" then None
    else if s[0] == '-' then
      match ParseNat(s[1..], base)
      case None => None
      case Some(n) => Some(0 - n as int)
    else ParseNat(s, base)
  }

  /** Normal form: "0", or an optional '-' and digits that do not start with '0'. */
  predicate Canonical(s: string, base: Base) {
    s == "0"
    || (s != [] && s[0] != '-' && s[0] != '0' && AllDigits(s, base))
    || (|s| > 1 && s[0] == '-' && s[1] != '0' && AllDigits(s[1..], base))
  }

  predicate AllDigits(s: string, base: Base) {
    forall i :: 0 <= i < |s| ==> IsDigit(s[i], base)
  }

  // ----- Writing a numeral -----

  function DigitChar(d: nat): (c: char)
    requires d < 36
    ensures DigitValue(c) == Some(d)
  {
    if d < 10 then ('0' as int + d) as char else ('a' as int + (d - 10)) as char
  }

  /** The digits of n, most significant first; none for zero. */
  function Digits(n: nat, base: Base): string {
    if n == 0 then [] else Shrinks(n, base); Digits(n / base, base) + [DigitChar(n % base)]
  }

  lemma Shrinks(n: nat, base: Base)
    requires n > 0
    ensures 0 <= n / base < n
  {
    assert n / base * base <= n;
    assert n / base * 2 <= n / base * base;
  }

  lemma FewDigits(base: Base)
    ensures Digits(0, base) == []
    ensures forall d: nat :: 0 < d < base ==> Digits(d, base) == [DigitChar(d)]
  {
    forall d: nat | 0 < d < base
      ensures Digits(d, base) == [DigitChar(d)]
    {
      DivModSmall(d, base);
    }
  }

  lemma DivModSmall(d: nat, base: Base)
    requires d < base
    ensures d / base == 0 && d % base == d
  {
  }

  /** The numeral of a value. */
  function Text(value: int, base: Base): string {
    if value == 0 then "0"
    else if value < 0 then ['-'] + Digits(-value, base)
    else Digits(value, base)
  }

  // ----- Reading back what was written -----

  lemma {:induction false} DigitsParse(n: nat, base: Base)
    ensures ParseNat(Digits(n, base), base) == Some(n)
  {
    if n == 0 {
    } else {
      Shrinks(n, base);
      var m, d := n / base, n % base;
      DigitsParse(m, base);
      ParseSnoc(Digits(m, base), m, d, base);
      DivModSum(n, base);
    }
  }

  lemma DivModSum(n: nat, base: Base)
    ensures n / base * base + n % base == n
  {
  }

  lemma {:induction false} DigitsLead(n: nat, base: Base)
    requires n > 0
    ensures Digits(n, base) != [] && Digits(n, base)[0] != '0' && Digits(n, base)[0] != '-'
  {
    if n < base {
      FewDigits(base);
      assert DigitValue(DigitChar(n)) == Some(n);
    } else {
      Shrinks(n, base);
      DivBelow(n, base, 1);
      DigitsLead(n / base, base);
    }
  }

  lemma ParseSnoc(front: string, m: nat, d: nat, base: Base)
    requires d < base && ParseNat(front, base) == Some(m)
    ensures ParseNat(front + [DigitChar(d)], base) == Some(m * base + d)
  {
    var s := front + [DigitChar(d)];
    assert s[..|s| - 1] == front;
  }

  lemma DigitsSnoc(m: nat, d: nat, base: Base)
    requires d < base && m + d > 0
    ensures m * base + d > 0
    ensures Digits(m * base + d, base) == Digits(m, base) + [DigitChar(d)]
  {
    hide Digits, DigitChar;
    MulMonotone(1, base, m, m);
    DivModUnique(m, d, base);
    DigitsUnfold(m * base + d, base);
  }

  lemma DigitsUnfold(n: nat, base: Base)
    requires n > 0
    ensures 0 <= n / base && Digits(n, base) == Digits(n / base, base) + [DigitChar(n % base)]
  {
    Shrinks(n, base);
  }

  lemma {:induction false} ParseDigits(s: string, n: nat, base: Base)
    requires s != [] && s[0] != '0'
    requires ParseNat(s, base) == Some(n)
    ensures n > 0 && s == Digits(n, base)
  {
    var front, d := s[..|s| - 1], DigitValue(s[|s| - 1]).value;
    var m := ParseNat(front, base).value;
    assert DigitChar(d) == s[|s| - 1];
    assert s == front + [DigitChar(d)];
    if front == [] {
    } else {
      ParseDigits(front, m, base);
    }
    DigitsSnoc(m, d, base);
  }

  lemma DivModUnique(m: nat, d: nat, base: Base)
    requires d < base
    ensures (m * base + d) / base == m && (m * base + d) % base == d
  {
    ModUnique(m * base + d, base, m, d);
  }

  lemma ModUnique(n: nat, m: nat, q: nat, r: nat)
    requires m > 0 && n == q * m + r && r < m
    ensures n / m == q && n % m == r
  {
    if n / m < q {
      MulGap(n / m, q, m);
    } else if n / m > q {
      MulGap(q, n / m, m);
    }
  }

  lemma MulGap(a: nat, b: nat, m: nat)
    requires a < b
    ensures a * m + m <= b * m
  {
    assert (a + 1) * m <= b * m;
  }

  lemma ParseOfDigitsOnly(s: string, base: Base)
    ensures ParseNat(s, base).Some? <==> AllDigits(s, base)
  {
    if s == [] {
    } else {
      ParseOfDigitsOnly(s[..|s| - 1], base);
      assert s == s[..|s| - 1] + [s[|s| - 1]];
    }
  }

  lemma TextReadsBack(value: int, base: Base)
    ensures Canonical(Text(value, base), base)
    ensures Parse(Text(value, base), base) == Some(value)
  {
    var s := Text(value, base);
    if value == 0 {
      assert ParseNat(s[..0], base) == Some(0);
    } else {
      var n := if value < 0 then -value else value;
      DigitsParse(n, base);
      DigitsLead(n, base);
      ParseOfDigitsOnly(Digits(n, base), base);
      if value < 0 {
        assert s[1..] == Digits(n, base);
      }
    }
  }

  lemma CanonicalIsText(value: int, base: Base, s: string)
    requires Canonical(s, base) && Parse(s, base) == Some(value)
    ensures s == Text(value, base)
  {
    hide ParseNat, Digits, AllDigits;
    if s == "0" {
      TextReadsBack(0, base);
    } else if s[0] == '-' {
      ParseDigits(s[1..], -value, base);
      assert s == ['-'] + s[1..];
    } else {
      ParseDigits(s, value, base);
    }
  }

  /** `Text` is the one canonical numeral of a value: it is canonical, it reads back as the value, and
      nothing else does both. */
  lemma TextIsTheCanonicalNumeral(value: int, base: Base, s: string)
    ensures s == Text(value, base) <==> Canonical(s, base) && Parse(s, base) == Some(value)
  {
    TextReadsBack(value, base);
    if Canonical(s, base) && Parse(s, base) == Some(value) {
      CanonicalIsText(value, base, s);
    }
  }

  /** Printing is injective in every base. */
  lemma TextInjective(v: int, w: int, base: Base)
    requires Text(v, base) == Text(w, base)
    ensures v == w
  {
    TextIsTheCanonicalNumeral(v, base, Text(v, base));
    TextIsTheCanonicalNumeral(w, base, Text(w, base));
  }

  // ----- How long a numeral is -----

  function Pow(base: nat, k: nat): nat {
    if k == 0 then 1 else base * Pow(base, k - 1)
  }

  lemma {:induction false} DigitsLength(n: nat, base: Base, k: nat)
    ensures |Digits(n, base)| <= k <==> n < Pow(base, k)
    decreases k
  {
    if n > 0 && k > 0 {
      Shrinks(n, base);
      DigitsLength(n / base, base, k - 1);
      DivBelow(n, base, Pow(base, k - 1));
    } else if n == 0 {
      PowPositive(base, k);
    }
  }

  lemma DivBelow(n: nat, base: Base, p: nat)
    ensures n / base < p <==> n < base * p
  {
    var q, r := n / base, n % base;
    assert n == q * base + r;
    if q < p { assert q * base <= (p - 1) * base; }
    else { assert q * base >= p * base; }
  }

  lemma PowPositive(base: Base, k: nat)
    ensures Pow(base, k) > 0
  {
    if k == 0 {
    } else {
      PowPositive(base, k - 1);
    }
  }

  lemma {:induction false} PowSum(base: nat, a: nat, b: nat)
    ensures Pow(base, a + b) == Pow(base, a) * Pow(base, b)
  {
    if a == 0 {
    } else {
      PowSum(base, a - 1, b);
      MulAssociates(base, Pow(base, a - 1), Pow(base, b));
    }
  }

  lemma MulAssociates(a: nat, b: nat, c: nat)
    ensures a * (b * c) == a * b * c
  {
  }

  lemma {:induction false} PowMonotone(a: nat, b: nat, k: nat)
    requires a <= b
    ensures Pow(a, k) <= Pow(b, k)
  {
    if k == 0 {
    } else {
      PowMonotone(a, b, k - 1);
      MulMonotone(a, b, Pow(a, k - 1), Pow(b, k - 1));
    }
  }

  lemma MulMonotone(a: nat, b: nat, p: nat, q: nat)
    requires a <= b && p <= q
    ensures a * p <= b * q
  {
    assert a * p <= b * p;
    assert b * p <= b * q;
  }
}
