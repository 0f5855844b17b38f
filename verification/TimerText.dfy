/** The two `timer_to_string_imp`: the kernel's (arch/arm64/lib/timer_imp.c), which hands the seconds to
    `itoa`, and the test mock's (test/mocks/mock_timer_imp.c), which fills a buffer from its tail and then
    moves the digits forward over themselves. */
module TimerText {
  import opened Numerals
  import opened IntPrinter

  const TEN_TO_19: nat := 10_000_000_000_000_000_000

  // ----- Fixed-width decimals -----

  /** The last k decimal digits of n, with leading zeros. */
  function FixedDigits(n: nat, k: nat): (s: string)
    ensures |s| == k
  {
    if k == 0 then [] else FixedDigits(n / 10, k - 1) + [DigitChar(n % 10)]
  }

  lemma {:induction false} FixedDigitsParse(n: nat, k: nat)
    ensures Pow(10, k) > 0
    ensures ParseNat(FixedDigits(n, k), 10) == Some(n % Pow(10, k))
    ensures AllDigits(FixedDigits(n, k), 10)
  {
    PowPositive(10, k);
    if k == 0 {
    } else {
      var p := Pow(10, k - 1);
      PowPositive(10, k - 1);
      FixedDigitsParse(n / 10, k - 1);
      ParseSnoc(FixedDigits(n / 10, k - 1), n / 10 % p, n % 10, 10);
      SplitMod(n, p);
      ParseOfDigitsOnly(FixedDigits(n, k), 10);
    }
  }

  lemma SplitMod(n: nat, p: nat)
    requires p > 0
    ensures n / 10 % p * 10 + n % 10 == n % (10 * p)
  {
    var q, r := n / 10 / p, n / 10 % p;
    assert n / 10 == q * p + r;
    var low := r * 10 + n % 10;
    assert n == q * (10 * p) + low;
    assert 0 <= low < 10 * p;
    ModUnique(n, 10 * p, q, low);
  }

  // ----- What each printer shows -----

  /** The mock's text: right below 10^19, and only the last nineteen digits from there on. */
  function MockText(sec: nat): string {
    if sec < TEN_TO_19 then Text(sec, 10) else FixedDigits(sec, 19)
  }

  /** The C conversion of an unsigned 64-bit value to `int` on this target: the low 32 bits, signed. */
  function ToInt32(n: nat): int32 {
    var low := n % 0x1_0000_0000;
    if low < 0x8000_0000 then low else low - 0x1_0000_0000
  }

  /** The kernel's text: the seconds are narrowed to `int` before they are printed. */
  function KernelText(sec: nat): string {
    Text(ToInt32(sec), 10)
  }

  lemma PowTen19()
    ensures Pow(10, 19) == TEN_TO_19
  {
    PowSum(10, 9, 10);
    PowSum(10, 5, 5);
    PowSum(10, 5, 4);
  }

  /** The mock's text is the canonical numeral of the seconds exactly below 10^19. */
  lemma MockTextCorrectIff(sec: nat)
    ensures MockText(sec) == Text(sec, 10) <==> sec < TEN_TO_19
    ensures Parse(MockText(sec), 10) == Some(sec % TEN_TO_19)
  {
    TextReadsBack(sec, 10);
    if sec >= TEN_TO_19 {
      var s := FixedDigits(sec, 19);
      PowTen19();
      FixedDigitsParse(sec, 19);
      assert IsDigit(s[0], 10);
    }
  }

  /** The kernel's text is the canonical numeral of the seconds exactly below 2^31. */
  lemma KernelTextCorrectIff(sec: nat)
    ensures KernelText(sec) == Text(sec, 10) <==> sec < 0x8000_0000
  {
    if KernelText(sec) == Text(sec, 10) {
      TextInjective(ToInt32(sec), sec, 10);
    }
  }

  /** What the kernel shows otherwise: the seconds less the multiple of 2^32 that brings them into the range of an
      `int`. */
  lemma KernelTextWraps(sec: nat) returns (v: int, k: nat)
    ensures -0x8000_0000 <= v < 0x8000_0000 && v + k * 0x1_0000_0000 == sec
    ensures KernelText(sec) == Text(v, 10) && Parse(KernelText(sec), 10) == Some(v)
  {
    v := ToInt32(sec);
    k := sec / 0x1_0000_0000 + if v < 0 then 1 else 0;
    TextReadsBack(v, 10);
  }

  /** The mock stands in for the kernel's printer exactly below 2^31 seconds. */
  lemma PrintersAgreeIff(sec: nat)
    ensures MockText(sec) == KernelText(sec) <==> sec < 0x8000_0000
  {
    KernelTextCorrectIff(sec);
    if sec >= TEN_TO_19 {
      TextFits(ToInt32(sec), 10);
    }
  }

  // ----- The mock -----

  /** The mock's registers and its static buffer. */
  class MockTimer {
    var freq: uint64
    var time: uint64
    var interrupt: uint64
    var sec: uint64
    var ctl: uint64
    const strSec: array<char>

    constructor ()
      ensures fresh(strSec) && strSec.Length == 20
      ensures freq == 0 && time == 0 && interrupt == 0 && sec == 0 && ctl == 0
    {
      freq, time, interrupt, sec, ctl := 0, 0, 0, 0, 0;
      strSec := new char[20](_ => '\0');
    }

    method InitTimer()
      modifies this
      ensures freq == 1_000_000 && time == freq && sec == 1 && interrupt == 2 * freq && ctl == 8
    {
      freq := 1_000_000;
      time := freq;
      sec := 1;
      interrupt := time + freq;
      ctl := 8;
    }

    /** Prints the seconds into the static buffer. A frequency of zero divides by zero. */
    method TimerToString() returns (r: array<char>)
      requires freq != 0 && strSec.Length == 20
      modifies this`sec, strSec
      ensures r == strSec && sec == time / freq
      ensures |MockText(sec)| < 20 && strSec[..|MockText(sec)|] == MockText(sec)
      ensures strSec[|MockText(sec)|] == '\0'
    {
      sec := time / freq;
      var i := FillFromTail(sec);
      ghost var text := MockText(sec);
      MockTextShape(sec);
      MoveForward(i, text);
      r := strSec;
    }

    /** The first loop: digits from the tail down, at most nineteen, at least one. */
    method FillFromTail(seconds: uint64) returns (i: nat)
      requires strSec.Length == 20
      modifies strSec
      ensures i < 19 && strSec[19] == '\0' && strSec[i..19] == MockText(seconds)
    {
      hide Rest, FixedDigits, MockText, DigitChar;
      FirstFixed(seconds);
      var rest: nat := seconds;
      i := 19;
      strSec[i] := '\0';
      while true
        invariant 0 < i <= 19 && strSec[19] == '\0'
        invariant strSec[i..19] == FixedDigits(seconds, 19 - i)
        invariant rest == Rest(seconds, 19 - i) && (i == 19 || rest > 0)
        decreases i
      {
        ghost var k := 19 - i;
        FixedDigitsFront(seconds, k);
        RestStep(seconds, k);
        i := i - 1;
        strSec[i] := DigitChar(rest % 10);
        rest := rest / 10;
        if !(rest > 0 && i > 0) {
          FilledText(seconds, k + 1);
          break;
        }
      }
    }

    /** The second loop: moves the string at i to the front of the buffer, over itself. */
    method MoveForward(start: nat, ghost text: string)
      requires start < 19 && strSec.Length == 20 && strSec[19] == '\0' && strSec[start..19] == text
      requires '\0' !in text
      modifies strSec
      ensures strSec[..|text|] == text && strSec[|text|] == '\0'
    {
      var i, j := start, 0;
      assert forall k :: 0 <= k < |text| ==> text[k] in text;
      while strSec[i] != '\0'
        invariant start <= i <= 19 && j == i - start
        invariant strSec[..j] == text[..j]
        invariant strSec[i..19] == text[j..]
        invariant i < 19 ==> strSec[i] == text[j]
        invariant strSec[19] == '\0'
        decreases 19 - i
      {
        strSec[j] := strSec[i];
        i, j := i + 1, j + 1;
      }
      strSec[j] := '\0';
    }
  }

  // ----- The kernel -----

  /** The kernel's printer; the hardware counter and its frequency are inputs. */
  class KernelTimer {
    var freq: uint64
    var time: uint64
    const strSec: array<char>

    constructor (frequency: uint64)
      ensures fresh(strSec) && strSec.Length == 20 && freq == frequency
    {
      freq, time := frequency, 0;
      strSec := new char[20](_ => '\0');
    }

    method TimerToString(counter: uint64) returns (r: array<char>)
      requires freq != 0 && strSec.Length == 20
      modifies this`time, strSec
      ensures r == strSec && time == counter
      ensures |KernelText(counter / freq)| < 20
      ensures strSec[..|KernelText(counter / freq)|] == KernelText(counter / freq)
      ensures strSec[|KernelText(counter / freq)|] == '\0'
    {
      time := counter;
      var sec := time / freq;
      TextFits(ToInt32(sec), 10);
      r := Itoa(ToInt32(sec), strSec, 10);
    }
  }

  // ----- The fill loop -----

  /** What is left of n after k digits. */
  function Rest(n: nat, k: nat): nat {
    if k == 0 then n else Rest(n / 10, k - 1)
  }

  lemma {:induction false} RestStep(n: nat, k: nat)
    ensures Rest(n, k + 1) == Rest(n, k) / 10
  {
    if k == 0 {
    } else {
      RestStep(n / 10, k - 1);
    }
  }

  lemma {:induction false} FixedDigitsFront(n: nat, k: nat)
    ensures FixedDigits(n, k + 1) == [DigitChar(Rest(n, k) % 10)] + FixedDigits(n, k)
  {
    if k == 0 {
    } else {
      FixedDigitsFront(n / 10, k - 1);
    }
  }

  lemma {:induction false} RestIsZeroIff(n: nat, k: nat)
    ensures Rest(n, k) == 0 <==> n < Pow(10, k)
  {
    if k == 0 {
    } else {
      RestIsZeroIff(n / 10, k - 1);
      DivBelow(n, 10, Pow(10, k - 1));
    }
  }

  lemma {:induction false} RestStaysZero(n: nat, k: nat, l: nat)
    requires k <= l && Rest(n, k) == 0
    ensures Rest(n, l) == 0
    decreases l - k
  {
    if k == l {
    } else {
      RestStep(n, k);
      RestStaysZero(n, k + 1, l);
    }
  }

  lemma {:induction false} DigitsAreFixed(n: nat, k: nat)
    requires Rest(n, k) > 0
    ensures Digits(n, 10) == Digits(Rest(n, k), 10) + FixedDigits(n, k)
  {
    if k == 0 {
    } else {
      RestIsZeroIff(n, k);
      PowPositive(10, k);
      DigitsAreFixed(n / 10, k - 1);
    }
  }

  lemma FirstFixed(n: nat)
    ensures Rest(n, 0) == n && FixedDigits(n, 0) == [] && FixedDigits(n, 1) == [DigitChar(n % 10)]
  {
  }

  /** When the fill loop stops, the digits are the mock's text. */
  lemma FilledText(n: nat, k: nat)
    requires 0 < k <= 19 && (k == 1 || Rest(n, k - 1) > 0)
    requires Rest(n, k) == 0 || k == 19
    ensures FixedDigits(n, k) == MockText(n)
  {
    hide Pow, Digits, Rest, FixedDigits;
    PowTen19();
    RestIsZeroIff(n, 19);
    RestStep(n, k - 1);
    FirstFixed(n);
    if Rest(n, k) == 0 {
      RestStaysZero(n, k, 19);
      if n > 0 {
        DigitsAreFixed(n, k - 1);
        FixedDigitsFront(n, k - 1);
        FewDigits(10);
        var r := Rest(n, k - 1);
        assert 0 < r < 10 && r % 10 == r;
        assert Digits(r, 10) == [DigitChar(r)];
      } else {
        RestStaysZero(0, 0, k - 1);
      }
    }
  }

  lemma MockTextShape(n: nat)
    ensures |MockText(n)| <= 19 && '\0' !in MockText(n)
  {
    PowTen19();
    DigitsLength(n, 10, 19);
    if n < TEN_TO_19 {
      TextReadsBack(n, 10);
    } else {
      FixedDigitsParse(n, 19);
    }
  }
}
