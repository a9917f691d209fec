/**
  The printers whose output the digit parsers read back: the interval printer of
  cpp/remove_non_digit_chars/Timer.cpp and the port writer of
  cpp/sockets/server/src/ServerSocket.cpp.
*/
module Printers {
  import opened Digits
  import opened MachineInt

  // --------------------------------------------------------------- decimals

  const DIGIT_CHARS: string := "0123456789abcdef"

  function DigitChar(d: int): (c: char)
    requires 0 <= d < 10
    ensures IsDigit(c) && CharToDigit(c) == d
    ensures d > 0 ==> c != '0'
  {
    (d + 48) as char
  }

  // The decimal numeral of n, without leading zeros.
  function Decimal(n: nat): (s: string)
    ensures s != []
  {
    if n < 10 then [DigitChar(n)] else Decimal(n / 10) + [DigitChar(n % 10)]
  }

  ghost predicate AllDigits(s: string) {
    forall i :: 0 <= i < |s| ==> IsDigit(s[i])
  }

  lemma {:induction false} DecimalMeans(n: nat)
    ensures AllDigits(Decimal(n)) && DigitValue(Decimal(n)) == n
    ensures forall i :: 0 <= i < |Decimal(n)| ==> '0' <= Decimal(n)[i] <= '9'
    ensures n > 0 ==> Decimal(n)[0] != '0'
    ensures DigitCount(Decimal(n)) == |Decimal(n)|
  {
    if n < 10 {
      SingleDigit(DigitChar(n));
    } else {
      DecimalMeans(n / 10);
      var s := Decimal(n);
      assert s[..|s| - 1] == Decimal(n / 10);
    }
  }

  lemma {:induction false} DecimalLength(n: nat, k: nat)
    requires k > 0 && n < Pow10(k)
    ensures |Decimal(n)| <= k
  {
    if n < 10 {
    } else {
      assert k > 1;
      DecimalLength(n / 10, k - 1);
    }
  }

  // A numeral starts with a digit, so no sign is read.
  lemma NumeralIsUnsigned(s: string)
    requires s != [] && IsDigit(s[0])
    ensures SignedValue(s) == DigitValue(s)
  {
  }

  // ------------------------------------------------------------------ Timer

  const NANO: int := 1000000000

  class Timer {
    var startSec: int
    var startNsec: int
    var stopSec: int
    var stopNsec: int
    var seconds: nat     // interval.seconds, unsigned long long
    var nanoSeconds: nat // interval.nano_seconds, unsigned long long

    // The arguments are what clock_gettime stores.
    method Start(sec: int, nsec: int)
      modifies this`startSec, this`startNsec
      ensures startSec == sec && startNsec == nsec
    {
      startSec, startNsec := sec, nsec;
    }

    // The clock's nanosecond fields are normalized, and the difference of the
    // second fields fits a long.
    method Stop(sec: int, nsec: int)
      requires 0 <= startNsec < NANO && 0 <= nsec < NANO
      requires -HALF_WORD <= sec - startSec < HALF_WORD
      modifies this`stopSec, this`stopNsec, this`seconds, this`nanoSeconds
      ensures stopSec == sec && stopNsec == nsec
      ensures var elapsed := (sec * NANO + nsec) - (startSec * NANO + startNsec);
              && seconds == elapsed / NANO % WORD && nanoSeconds == elapsed % NANO
              && (elapsed >= 0 ==> seconds * NANO + nanoSeconds == elapsed)
    {
      stopSec, stopNsec := sec, nsec;
      ghost var elapsed := (sec * NANO + nsec) - (startSec * NANO + startNsec);
      seconds := (stopSec - startSec) % WORD;
      var tmp := stopNsec - startNsec;
      if tmp < 0 {
        tmp := tmp + NANO;
        seconds := (seconds - 1) % WORD;
      }
      nanoSeconds := tmp % WORD;
      BorrowSplits(sec - startSec, nsec - startNsec);
      assert elapsed == (sec - startSec) * NANO + (nsec - startNsec);
    }

    // After Stop both fields are in range; then the text spells the interval.
    method GetInterval() returns (text: string)
      ensures text == IntervalText(seconds, nanoSeconds)
      ensures seconds < WORD && nanoSeconds < NANO ==>
                SpellsInterval(text, seconds, nanoSeconds) && SignedValue(text) == seconds * NANO + nanoSeconds
    {
      text := Decimal(seconds) + ".";
      text := text + ZeroFill(Decimal(nanoSeconds), 9);
      if seconds < WORD && nanoSeconds < NANO {
        IntervalReadsBack(seconds, nanoSeconds);
      }
    }
  }

  // What that means, character by character.
  lemma SpellsLaw(text: string, seconds: nat, nanos: nat)
    requires SpellsInterval(text, seconds, nanos)
    ensures |text| >= 11 && text[|text| - 10] == '.'
    ensures forall i :: 0 <= i < |text| && i != |text| - 10 ==> '0' <= text[i] <= '9'
    ensures DigitValue(text[..|text| - 10]) == seconds && DigitValue(text[|text| - 9..]) == nanos
    ensures |text| > 11 ==> text[0] != '0'
  {
    var point := |text| - 10;
    forall i | 0 <= i < |text| && i != point
      ensures IsDigit(text[i])
    {
      if i < point {
        assert text[..point][i] == text[i];
      } else {
        assert text[point + 1..][i - point - 1] == text[i];
      }
    }
  }

  // Borrowing a second gives the floor quotient and remainder.
  lemma BorrowSplits(ds: int, dn: int)
    requires -NANO < dn < NANO
    ensures var borrow, x := if dn < 0 then 1 else 0, ds * NANO + dn;
            x / NANO == ds - borrow && x % NANO == dn + borrow * NANO
    ensures (ds % WORD - 1) % WORD == (ds - 1) % WORD
  {
    var borrow := if dn < 0 then 1 else 0;
    QuotientUnique(ds * NANO + dn, NANO, ds - borrow, dn + borrow * NANO);
    var y := ds % WORD - 1;
    QuotientUnique(ds - 1, WORD, ds / WORD + y / WORD, y % WORD);
  }

  // A numeral without leading zeros, a point, and nine digits.
  ghost predicate SpellsInterval(text: string, seconds: nat, nanos: nat) {
    var point := |text| - 10;
    && 1 <= point <= 20 && text[point] == '.'
    && AllDigits(text[..point]) && DigitValue(text[..point]) == seconds
    && AllDigits(text[point + 1..]) && DigitValue(text[point + 1..]) == nanos
    && (text[0] == '0' ==> point == 1)
  }

  // setfill('0') and setw(width)
  function ZeroFill(s: string, width: nat): (r: string)
    ensures |r| == if |s| < width then width else |s|
  {
    seq(if |s| < width then width - |s| else 0, i => '0') + s
  }

  function IntervalText(seconds: nat, nanos: nat): string {
    Decimal(seconds) + "." + ZeroFill(Decimal(nanos), 9)
  }

  lemma {:induction false} ZerosMean(zeros: string)
    requires forall i :: 0 <= i < |zeros| ==> zeros[i] == '0'
    ensures DigitValue(zeros) == 0 && DigitCount(zeros) == |zeros|
  {
    if zeros == [] {
    } else {
      ZerosMean(zeros[..|zeros| - 1]);
    }
  }

  lemma PowersOfTen()
    ensures Pow10(9) == NANO && Pow10(10) == 10 * NANO && Pow10(20) >= WORD
  {
    assert Pow10(3) == 1000;
    assert Pow10(6) == 1000000;
    assert Pow10(12) == 1000 * Pow10(9);
    assert Pow10(15) == 1000 * Pow10(12);
    assert Pow10(18) == 1000 * Pow10(15);
  }

  lemma FractionMeans(nanos: nat)
    requires nanos < NANO
    ensures var f := ZeroFill(Decimal(nanos), 9);
            |f| == 9 && AllDigits(f) && DigitValue(f) == nanos && DigitCount(f) == 9
  {
    var digits := Decimal(nanos);
    PowersOfTen();
    DecimalLength(nanos, 9);
    DecimalMeans(nanos);
    var zeros := ZeroFill(digits, 9)[..9 - |digits|];
    assert ZeroFill(digits, 9) == zeros + digits;
    ZerosMean(zeros);
    DigitValueConcat(zeros, digits);
  }

  // The printed interval spells its fields, and all its digits the total number of
  // nanoseconds; ReadInterval has the parsers read it.
  lemma IntervalReadsBack(seconds: nat, nanos: nat)
    requires seconds < WORD && nanos < NANO
    ensures SpellsInterval(IntervalText(seconds, nanos), seconds, nanos)
    ensures SignedValue(IntervalText(seconds, nanos)) == seconds * NANO + nanos
  {
    var whole, fraction := Decimal(seconds), ZeroFill(Decimal(nanos), 9);
    PowersOfTen();
    DecimalLength(seconds, 20);
    DecimalMeans(seconds);
    FractionMeans(nanos);
    SingleDigit('.');
    DigitValueConcat(whole, ".");
    DigitValueConcat(whole + ".", fraction);
    var text := IntervalText(seconds, nanos);
    assert text[..|whole|] == whole && text[|whole| + 1..] == fraction;
    assert text[0] == whole[0];
    NumeralIsUnsigned(text);
  }

  // start, stop, get_interval, and the text read by the three parsers: the elapsed
  // nanoseconds, as long as a long holds them.
  method ReadInterval(startSec: int, startNsec: int, stopSec: int, stopNsec: int) returns (v1: int, v2: int, v3: int)
    requires 0 <= startNsec < NANO && 0 <= stopNsec < NANO
    requires 0 <= (stopSec * NANO + stopNsec) - (startSec * NANO + startNsec) < HALF_WORD
    ensures v1 == v2 == v3 == (stopSec * NANO + stopNsec) - (startSec * NANO + startNsec)
  {
    var t := new Timer;
    t.Start(startSec, startNsec);
    t.Stop(stopSec, stopNsec);
    var text := t.GetInterval();
    IntervalIsReadable(text, t.seconds, t.nanoSeconds);
    v1 := RemoveNonDigitCharsV1(text);
    v2 := RemoveNonDigitCharsV2(text);
    v3 := RemoveNonDigitCharsV3(text);
  }

  // A printed interval meets the preconditions of the parsers.
  lemma IntervalIsReadable(text: string, seconds: nat, nanos: nat)
    requires SpellsInterval(text, seconds, nanos) && SignedValue(text) == seconds * NANO + nanos < HALF_WORD
    ensures |text| <= 30 && text[0] != '-' && DigitValue(text) == SignedValue(text)
    ensures text[..ReadV1(|text|)] == text == text[..ReadV2(|text|)] && ToLong(SignedValue(text)) == SignedValue(text)
  {
    assert IsDigit(text[..|text| - 10][0]);
    ThreeParsersAgree(text);
  }

  // ------------------------------------------------------------- port writer

  // A C string: the characters up to the first NUL.
  function CString(s: string): string {
    if s == [] || s[0] == '\0' then [] else [s[0]] + CString(s[1..])
  }

  lemma {:induction false} CStringOf(s: string, digits: string)
    requires AllDigits(digits) && |s| > |digits| && s[|digits|] == '\0' && s[..|digits|] == digits
    ensures CString(s) == digits
  {
    if digits == [] {
    } else {
      assert s[1..][..|digits| - 1] == digits[1..] && s[0] == digits[0];
      CStringOf(s[1..], digits[1..]);
    }
  }

  // What the program prints for a port: nothing at all for zero.
  function PortText(port: nat): string {
    if port == 0 then "" else Decimal(port)
  }

  class PortWriter {
    const buf: array<char> // the static buffer, shared by all calls

    ghost predicate Valid()
      reads this, buf
    {
      buf.Length == 32 && buf[31] == '\0'
    }

    constructor ()
      ensures Valid() && fresh(buf)
    {
      buf := new char[32](i => '\0');
    }

    // Returns the index of the first character; a negative port would index the
    // digit table with a negative remainder.
    method PortToCharArray(port0: int) returns (at: nat)
      requires Valid() && 0 <= port0 < HALF_UINT
      modifies buf
      ensures Valid() && 21 <= at <= 31
      ensures CString(buf[at..]) == PortText(port0)
      ensures CString(buf[at..]) == Decimal(port0) <==> port0 != 0
      ensures var text := CString(buf[at..]);
              (forall i :: 0 <= i < |text| ==> '0' <= text[i] <= '9')
              && DigitValue(text) == port0 && (text != "" ==> text[0] != '0')
      ensures forall k :: 0 <= k < 32 && (k < at || k > 30) ==> buf[k] == old(buf[k])
    {
      var port := port0;
      var i := 30;
      ghost var tail := "";
      PortBound(port0);
      while port != 0 && i != 0
        invariant 20 <= i <= 30 && 0 <= port < Pow10(i - 20)
        invariant Spells(port0, port, tail) && buf[31] == '\0'
        invariant buf[i + 1..31] == tail
        invariant forall k :: 0 <= k <= i ==> buf[k] == old(buf[k])
        decreases port
      {
        SpellsStep(port0, port, i - 20, tail);
        buf[i] := DIGIT_CHARS[port % 10];
        tail := [DIGIT_CHARS[port % 10]] + tail;
        i := i - 1;
        port := port / 10;
      }
      assert port == 0;
      at := i + 1;
      CStringOf(buf[at..], tail);
      PortTextMeans(port0);
    }
  }

  lemma PortTextMeans(port: nat)
    ensures PortText(port) == Decimal(port) <==> port != 0
    ensures var text := PortText(port);
            AllDigits(text) && DigitValue(text) == port && (text != "" ==> text[0] != '0')
  {
    DecimalMeans(port);
  }

  lemma PortBound(port: nat)
    requires port < HALF_UINT
    ensures port < Pow10(10)
  {
    PowersOfTen();
  }

  // The digits in tail complete the ones still to be written.
  ghost predicate Spells(total: nat, left: nat, tail: string) {
    PortText(total) == PortText(left) + tail && AllDigits(tail)
  }

  // One digit moves from the number to the buffer.
  lemma SpellsStep(total: nat, left: nat, k: nat, tail: string)
    requires Spells(total, left, tail) && 0 < left < Pow10(k)
    ensures k > 0 && left / 10 < Pow10(k - 1)
    ensures Spells(total, left / 10, [DIGIT_CHARS[left % 10]] + tail)
  {
    assert DIGIT_CHARS[left % 10] == DigitChar(left % 10);
    assert PortText(left) + tail == PortText(left / 10) + ([DigitChar(left % 10)] + tail);
  }

  // What is printed for a port reads back as the port, zero included.
  lemma PortReadsBack(port: nat)
    requires port < HALF_UINT
    ensures SignedValue(PortText(port)) == port && |PortText(port)| <= 10
  {
    PortBound(port);
    DecimalMeans(port);
    DecimalLength(port, 10);
  }
}
