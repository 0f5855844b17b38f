/** lib/itoa.c: an integer printed into a caller's buffer, digits inserted at the front one by one. */
module IntPrinter {
  import opened Numerals
  import opened Sequences

  /** C's `int` on this target: 32 bits. */
  type int32 = v: int | -0x8000_0000 <= v < 0x8000_0000

  /** The largest number of characters `Itoa` can produce for an `int`, without the terminator: a sign and
      32 digits in base 2, a sign and 10 digits in base 10. */
  lemma TextFits(value: int32, base: Base)
    ensures |Text(value, base)| <= 33
    ensures base == 10 ==> |Text(value, base)| <= 11
  {
    var n := if value < 0 then 0 - value as int else value;
    PowSum(2, 16, 16);
    PowSum(2, 8, 8);
    assert Pow(2, 32) == 0x1_0000_0000;
    PowMonotone(2, base, 32);
    DigitsLength(n, base, 32);
    if base == 10 {
      PowSum(10, 5, 5);
      assert Pow(10, 10) == 10_000_000_000;
      DigitsLength(n, base, 10);
    }
  }

  /** The bounds of `TextFits` are reached, so no shorter buffer would do: 34 bytes in base 2, 12 in base 10. */
  lemma LongestText()
    ensures |Text(-0x8000_0000, 2)| == 33
    ensures |Text(-0x8000_0000, 10)| == 11
  {
    PowSum(2, 16, 15);
    PowSum(2, 8, 8);
    PowSum(2, 8, 7);
    assert Pow(2, 31) == 0x8000_0000;
    DigitsLength(0x8000_0000, 2, 31);
    TextFits(-0x8000_0000, 2);
    assert Pow(10, 9) == 1_000_000_000;
    DigitsLength(0x8000_0000, 10, 9);
    TextFits(-0x8000_0000, 10);
  }

  /** Of the 32-bit pattern of value, the magnitude: negation wraps, so INT_MIN gives 2^31. */
  function Magnitude(value: int32): (u: nat)
    ensures u == if value < 0 then 0 - value as int else value
  {
    var bits := if value < 0 then value + 0x1_0000_0000 else value;
    if value < 0 then (0x1_0000_0000 - bits) % 0x1_0000_0000 else bits
  }

  /** Prints value into str. The buffer must hold the text and its terminator, and nothing beyond them
      is written. What the buffer held before does not matter. */
  method Itoa(value: int32, str: array<char>, base: Base) returns (r: array<char>)
    requires str.Length > |Text(value, base)|
    modifies str
    ensures r == str
    ensures str[..|Text(value, base)|] == Text(value, base)
    ensures str[|Text(value, base)|] == '\0'
    ensures forall i :: |Text(value, base)| < i < str.Length ==> str[i] == old(str[i])
  {
    hide Digits, DigitChar;
    ghost var n := |Text(value, base)|;
    FewDigits(base);
    TextNotEmpty(value, base);
    str[0] := '\0';
    str[1] := '\0';
    var negative := value < 0;
    var start := if negative then 1 else 0;
    var unsignedValue: nat := Magnitude(value);
    ghost var all := Digits(unsignedValue, base);
    ghost var done: string := [];
    while unsignedValue != 0
      invariant all == Digits(unsignedValue, base) + done
      invariant '\0' !in done
      invariant Holds(str, start, done)
      invariant negative ==> str[0] == '\0'
      invariant done == [] ==> str[1] == '\0'
      invariant forall i :: n < i < str.Length ==> str[i] == old(str[i])
      decreases unsignedValue
    {
      var singleDigit := DigitByte(unsignedValue % base);
      DigitsStep(unsignedValue, base, done);
      InsertFront(str, start, singleDigit, done);
      unsignedValue := unsignedValue / base;
      done := [singleDigit] + done;
    }
    Finish(str, negative, value, base);
    r := str;
  }

  /** The last step of `Itoa`: the zero that has no digits yet, and the sign. */
  method Finish(str: array<char>, negative: bool, ghost value: int32, ghost base: Base)
    requires negative == (value < 0)
    requires Holds(str, if negative then 1 else 0, Digits(Magnitude(value), base))
    requires negative || value == 0 ==> str[0] == '\0'
    requires value == 0 ==> str.Length > 1 && str[1] == '\0'
    modifies str
    ensures str[..|Text(value, base)|] == Text(value, base)
    ensures str[|Text(value, base)|] == '\0'
    ensures forall i :: |Text(value, base)| < i < str.Length ==> str[i] == old(str[i])
  {
    hide Digits, DigitChar, DigitValue, Magnitude;
    if value == 0 {
      FewDigits(base);
    } else {
      LeadIsNotNul(Magnitude(value), base);
      assert str[0] == '\0' <==> negative;
    }
    if str[0] == '\0' {
      str[0] := '0';
    }
    if negative {
      str[0] := '-';
    }
    ghost var n, start := |Text(value, base)|, if negative then 1 else 0;
    assert str[..n] == str[..start] + str[start..n];
  }

  lemma LeadIsNotNul(n: nat, base: Base)
    requires n > 0
    ensures Digits(n, base) != [] && Digits(n, base)[0] != '\0'
  {
    DigitsLead(n, base);
    DigitsParse(n, base);
    ParseOfDigitsOnly(Digits(n, base), base);
  }

  lemma TextNotEmpty(value: int, base: Base)
    ensures |Text(value, base)| > 0
  {
    if value != 0 {
      DigitsLead(if value < 0 then -value else value, base);
    }
  }

  /** One more digit moves from the number still to print to the front of the text. */
  lemma DigitsStep(u: nat, base: Base, done: string)
    requires u != 0
    ensures 0 <= u / base < u && 0 <= u % base < base
    ensures Digits(u, base) + done == Digits(u / base, base) + ([DigitChar(u % base)] + done)
    ensures |Digits(u, base)| > 0
  {
    hide Digits, DigitChar;
    Shrinks(u, base);
    DigitsUnfold(u, base);
    ConcatThree(Digits(u / base, base), [DigitChar(u % base)], done);
  }

  /** str holds s and its terminator from index start on. */
  ghost predicate Holds(str: array<char>, start: nat, s: string)
    reads str
  {
    start + |s| < str.Length && str[start..start + |s|] == s && str[start + |s|] == '\0'
  }

  /** The digit's byte: '0' plus the digit, lifted past '9' into the lower-case letters. No sum here
      exceeds 'z', so the 8-bit arithmetic does not wrap. */
  function DigitByte(d: nat): (c: char)
    requires d < 36
    ensures c == DigitChar(d) && c != '\0'
  {
    var c := '0' as int + d;
    if c > '9' as int then (c + ('a' as int - '9' as int - 1)) as char else c as char
  }

  /** Puts c in front of the string at str[start..], moving every character one place on. */
  method InsertFront(str: array<char>, start: nat, c: char, ghost s: string)
    requires Holds(str, start, s) && '\0' !in s && start + |s| + 1 < str.Length
    modifies str
    ensures Holds(str, start, [c] + s)
    ensures forall k :: 0 <= k < str.Length && !(start <= k <= start + |s| + 1) ==> str[k] == old(str[k])
  {
    var carried := c;
    ghost var shifted := [c] + s;
    var i := start;
    while str[i] != '\0'
      invariant start <= i <= start + |s|
      invariant carried == shifted[i - start]
      invariant str[start..i] == shifted[..i - start]
      invariant forall k :: i <= k < start + |s| ==> str[k] == s[k - start]
      invariant str[start + |s|] == '\0'
      invariant forall k :: 0 <= k < str.Length && !(start <= k < i) ==> str[k] == old(str[k])
      decreases start + |s| - i
    {
      assert str[i] == s[i - start];
      var temp := str[i];
      str[i] := carried;
      carried := temp;
      i := i + 1;
    }
    assert i == start + |s| by {
      assert forall k :: 0 <= k < |s| ==> s[k] in s;
    }
    str[i] := carried;
    str[i + 1] := '\0';
  }
}
