/**
  The three digit parsers of cpp/remove_non_digit_chars/main.cpp.

  A long int has 64 bits and a short int 16; conversions to them wrap.  v1 goes
  right to left with powers of ten, v2 and v3 go left to right.
*/
module Digits {
  import opened MachineInt

  predicate IsDigit(c: char) {
    '0' <= c <= '9'
  }

  function CharToDigit(c: char): int {
    c as int - 48
  }

  // ----------------------------------------------- the value of a string

  // The number that the digits of s spell; other characters do not count.
  function DigitValue(s: string): nat {
    if s == [] then 0
    else
      var c, init := s[|s| - 1], s[..|s| - 1];
      if IsDigit(c) then DigitValue(init) * 10 + CharToDigit(c) else DigitValue(init)
  }

  function DigitCount(s: string): nat {
    if s == [] then 0 else DigitCount(s[..|s| - 1]) + (if IsDigit(s[|s| - 1]) then 1 else 0)
  }

  function Pow10(n: nat): (p: nat)
    ensures p >= 1
  {
    if n == 0 then 1 else 10 * Pow10(n - 1)
  }

  // A leading minus sign negates.
  function SignedValue(s: string): int {
    if s != [] && s[0] == '-' then -(DigitValue(s) as int) else DigitValue(s)
  }

  // The value of a string, one character after the other: a digit makes it ten times
  // as large and adds its own value, any other character leaves it alone.
  lemma DigitLaws(s: string, c: char)
    ensures DigitValue("") == 0 && (IsDigit(c) <==> '0' <= c <= '9')
    ensures c < '0' || c > '9' ==> DigitValue(s + [c]) == DigitValue(s)
    ensures c == '0' ==> DigitValue(s + [c]) == 10 * DigitValue(s)
    ensures c == '1' ==> DigitValue(s + [c]) == 10 * DigitValue(s) + 1
    ensures c == '2' ==> DigitValue(s + [c]) == 10 * DigitValue(s) + 2
    ensures c == '3' ==> DigitValue(s + [c]) == 10 * DigitValue(s) + 3
    ensures c == '4' ==> DigitValue(s + [c]) == 10 * DigitValue(s) + 4
    ensures c == '5' ==> DigitValue(s + [c]) == 10 * DigitValue(s) + 5
    ensures c == '6' ==> DigitValue(s + [c]) == 10 * DigitValue(s) + 6
    ensures c == '7' ==> DigitValue(s + [c]) == 10 * DigitValue(s) + 7
    ensures c == '8' ==> DigitValue(s + [c]) == 10 * DigitValue(s) + 8
    ensures c == '9' ==> DigitValue(s + [c]) == 10 * DigitValue(s) + 9
  {
    assert (s + [c])[..|s|] == s;
  }

  // A minus sign in front negates; any other first character, or none, does not.
  lemma SignLaws(s: string)
    ensures SignedValue("-" + s) == 0 - DigitValue(s)
    ensures s == "" || s[0] != '-' ==> SignedValue(s) == DigitValue(s)
  {
    DigitValueCons('-', s);
  }

  // What two parts of a string contribute.
  lemma {:induction false} DigitValueConcat(a: string, b: string)
    ensures DigitValue(a + b) == DigitValue(a) * Pow10(DigitCount(b)) + DigitValue(b)
    ensures DigitCount(a + b) == DigitCount(a) + DigitCount(b)
    decreases |b|
  {
    if b == [] {
      assert a + b == a;
    } else {
      var c, init := b[|b| - 1], b[..|b| - 1];
      assert (a + b)[..|a + b| - 1] == a + init;
      DigitValueConcat(a, init);
      if IsDigit(c) {
        HornerStep(DigitValue(a), Pow10(DigitCount(init)), DigitValue(init), CharToDigit(c));
      }
    }
  }

  lemma HornerStep(x: nat, p: nat, y: nat, d: int)
    ensures (x * p + y) * 10 + d == x * (10 * p) + (y * 10 + d)
  {
  }

  lemma SingleDigit(c: char)
    ensures DigitValue([c]) == if IsDigit(c) then CharToDigit(c) else 0
    ensures DigitCount([c]) == if IsDigit(c) then 1 else 0
  {
    assert [c][..0] == [];
  }

  // One more character in front.
  lemma DigitValueCons(c: char, s: string)
    ensures DigitValue([c] + s) ==
            if IsDigit(c) then CharToDigit(c) * Pow10(DigitCount(s)) + DigitValue(s) else DigitValue(s)
    ensures DigitCount([c] + s) == DigitCount(s) + if IsDigit(c) then 1 else 0
  {
    SingleDigit(c);
    DigitValueConcat([c], s);
  }

  lemma {:induction false} DigitValueMonotone(s: string, k: nat)
    requires k <= |s|
    ensures DigitValue(s[..k]) <= DigitValue(s)
    decreases |s| - k
  {
    assert s[..|s|] == s;
    if k == |s| {
    } else {
      DigitValueMonotone(s, k + 1);
      assert s[..k + 1][..k] == s[..k];
    }
  }

  // ------------------------------------------------------- wrapping arithmetic

  lemma ToLongShift(x: int, k: int)
    ensures ToLong(x + k * WORD) == ToLong(x)
  {
    var q := (x + HALF_WORD) / WORD;
    var y := x + k * WORD + HALF_WORD;
    assert y == (q + k) * WORD + (x + HALF_WORD) % WORD;
    QuotientUnique(y, WORD, q + k, (x + HALF_WORD) % WORD);
  }

  // number += digit * pow_of_ten, with the product and the sum in unsigned long.
  lemma AddWraps(v: int, d: int, p: int)
    ensures ToLong((ToLong(v) % WORD + d * (p % WORD) % WORD) % WORD) == ToLong(v + d * p)
  {
    var x := d * (p % WORD);
    var y := ToLong(v) % WORD + x % WORD;
    var k := -((v + HALF_WORD) / WORD) - ToLong(v) / WORD - d * (p / WORD) - x / WORD - y / WORD;
    assert x == d * p - d * (p / WORD) * WORD by {
      assert p % WORD == p - p / WORD * WORD;
      assert d * (p - p / WORD * WORD) == d * p - d * (p / WORD) * WORD;
    }
    assert y % WORD == v + d * p + k * WORD;
    ToLongShift(v + d * p, k);
  }

  lemma PowWraps(p: nat)
    ensures (p % WORD) * 10 % WORD == 10 * p % WORD
  {
    var x, y := (p % WORD) * 10, 10 * p;
    assert y == x + 10 * (p / WORD) * WORD;
    QuotientUnique(y, WORD, x / WORD + 10 * (p / WORD), x % WORD);
  }

  lemma NegationWraps(v: int)
    requires ToLong(v) != -HALF_WORD
    ensures -ToLong(v) == ToLong(-v)
  {
    var q := (v + HALF_WORD) / WORD;
    assert -v == -ToLong(v) + (-q) * WORD;
    ToLongShift(-ToLong(v), -q);
  }

  // ------------------------------------------------------------ the parsers

  // How many characters v1 and v2 read of a string of n: their index is a short int.
  function ReadV1(n: nat): nat {
    if n == 0 then 0 else var last := ToShort(n - 1); if last < 0 then 0 else last + 1
  }

  function ReadV2(n: nat): nat {
    if n <= 0x8000 then n else 0x8000
  }

  // Of n characters v1 reads as many as the last index tells, reduced to a short int, and
  // none when that is negative; v2 stops when its index turns negative.
  lemma ReadLaws(n: nat)
    ensures n > 0 && (n - 1) % 0x1_0000 < 0x8000 ==> ReadV1(n) == (n - 1) % 0x1_0000 + 1
    ensures n == 0 || (n - 1) % 0x1_0000 >= 0x8000 ==> ReadV1(n) == 0
    ensures n <= 32768 ==> ReadV2(n) == n
    ensures n > 32768 ==> ReadV2(n) == 32768
  {
  }

  lemma ShortStep(pos: int)
    requires 0 <= pos < 0x8000
    ensures ToShort(pos - 1) == pos - 1
  {
  }

  // Signed overflow is undefined, so the negation must be representable.
  method RemoveNonDigitCharsV1(input: string) returns (number: int)
    requires input != [] && input[0] == '-' ==> ToLong(DigitValue(input[..ReadV1(|input|)])) != -HALF_WORD
    ensures number == ToLong(SignedValue(input[..ReadV1(|input|)]))
  {
    if |input| == 0 {
      return 0;
    }
    number := 0;
    var powOfTen := 1;
    var pos := ToShort(|input| - 1);
    ghost var s := input[..ReadV1(|input|)];
    assert pos < 0x8000 && |s| == if pos < 0 then 0 else pos + 1;
    while pos >= 0
      invariant if s == [] then pos < 0 && number == 0 else -1 <= pos < |s| <= 0x8000
      invariant s != [] ==> ReadFrom(s, pos + 1, number, powOfTen)
      decreases pos
    {
      var ch := input[pos];
      if IsDigit(ch) {
        ReadDigit(s, pos, number, powOfTen);
        number := ToLong((number % WORD + CharToDigit(ch) * powOfTen % WORD) % WORD);
        powOfTen := powOfTen * 10 % WORD;
      } else {
        ReadOther(s, pos, number, powOfTen);
        if pos == 0 && ch == '-' {
          number := -number;
        }
      }
      ShortStep(pos);
      pos := ToShort(pos - 1);
    }
    assert s != [] ==> s[0..] == s;
  }

  // The state of v1 when it has read s from position k to the end.
  ghost predicate ReadFrom(s: string, k: nat, number: int, powOfTen: int)
    requires k <= |s|
  {
    if k == 0 then number == ToLong(SignedValue(s))
    else number == ToLong(DigitValue(s[k..])) && powOfTen == Pow10(DigitCount(s[k..])) % WORD
  }

  // One position further down, on a digit and on another character.
  lemma ReadDigit(s: string, k: nat, number: int, powOfTen: int)
    requires k < |s| && IsDigit(s[k]) && ReadFrom(s, k + 1, number, powOfTen)
    ensures ReadFrom(s, k, ToLong((number % WORD + CharToDigit(s[k]) * powOfTen % WORD) % WORD), powOfTen * 10 % WORD)
  {
    var rest := s[k + 1..];
    var v, d, p := DigitValue(rest), CharToDigit(s[k]), Pow10(DigitCount(rest));
    assert s[k..] == [s[k]] + rest;
    DigitValueCons(s[k], rest);
    AddWraps(v, d, p);
    PowWraps(p);
    assert DigitValue(s[k..]) == v + d * p;
    assert k == 0 ==> s[k..] == s && SignedValue(s) == DigitValue(s);
  }

  lemma ReadOther(s: string, k: nat, number: int, powOfTen: int)
    requires k < |s| && !IsDigit(s[k]) && ReadFrom(s, k + 1, number, powOfTen)
    requires s[0] == '-' ==> ToLong(DigitValue(s)) != -HALF_WORD
    ensures ReadFrom(s, k, if k == 0 && s[k] == '-' then -number else number, powOfTen)
  {
    assert s[k..] == [s[k]] + s[k + 1..];
    DigitValueCons(s[k], s[k + 1..]);
    if k == 0 {
      assert s[k..] == s;
      if s[0] == '-' {
        NegationWraps(DigitValue(s));
      }
    }
  }

  method RemoveNonDigitCharsV2(input: string) returns (number: int)
    requires |input| < HALF_WORD && DigitValue(input[..ReadV2(|input|)]) < HALF_WORD
    ensures number == SignedValue(input[..ReadV2(|input|)])
  {
    if |input| == 0 {
      return 0;
    }
    number := 0;
    var pos := 0;
    var numberSign := 1;
    ghost var s, next := input[..ReadV2(|input|)], 0;
    if input[pos] == '-' {
      numberSign := -1;
      pos := ToShort(pos + 1);
      next := 1;
      SingleDigit('-');
      assert s[..1] == ['-'];
    }
    while pos % WORD < |input|
      invariant 0 <= next <= |s| && pos == ToShort(next)
      invariant number == DigitValue(s[..next])
      decreases |s| - next
    {
      assert next < |s|;
      var ch := input[pos];
      assert s[..next + 1][..next] == s[..next];
      DigitValueMonotone(s, next + 1);
      if IsDigit(ch) {
        number := number * 10 + CharToDigit(ch);
        assert number < HALF_WORD;
      }
      pos := ToShort(pos + 1);
      next := next + 1;
    }
    assert s[..next] == s;
    number := numberSign * number;
  }

  method RemoveNonDigitCharsV3(input: string) returns (number: int)
    requires DigitValue(input) < HALF_WORD
    ensures number == SignedValue(input)
  {
    var size := |input|;
    if size == 0 {
      return 0;
    }
    number := 0;
    var pos := 0;
    var numberSign := 1;
    if input[pos] == '-' {
      numberSign := -1;
      pos := pos + 1;
      SingleDigit('-');
      assert input[..1] == ['-'];
    }
    while pos < size
      invariant 0 <= pos <= size
      invariant number == DigitValue(input[..pos])
    {
      assert input[..pos + 1][..pos] == input[..pos];
      DigitValueMonotone(input, pos + 1);
      if IsDigit(input[pos]) {
        number := number * 10 + CharToDigit(input[pos]);
        assert number < HALF_WORD;
      }
      pos := pos + 1;
    }
    assert input[..size] == input;
    number := numberSign * number;
  }

  // -------------------------------------------------------- three, one value

  // Up to 32768 characters, a value below 2^63 makes all three specifications
  // the signed value of the whole string, however often pow_of_ten has wrapped.
  lemma ThreeParsersAgree(s: string)
    requires |s| <= 0x8000 && DigitValue(s) < HALF_WORD
    ensures s[..ReadV1(|s|)] == s == s[..ReadV2(|s|)]
    ensures ToLong(SignedValue(s)) == SignedValue(s) && ToLong(DigitValue(s)) != -HALF_WORD
  {
    assert s[..|s|] == s;
    assert ReadV1(|s|) == |s|;
    ToLongIdentity(DigitValue(s));
    ToLongIdentity(0 - DigitValue(s));
  }

  lemma ToLongIdentity(x: int)
    requires -HALF_WORD <= x < HALF_WORD
    ensures ToLong(x) == x
  {
  }

  // A string of n characters whose only digit is the last one.
  function LastDigitOnly(n: nat): (s: string)
    requires n > 0
    ensures |s| == n && s[n - 1] == '7' && forall i :: 0 <= i < n - 1 ==> s[i] == ' '
  {
    seq(n, i => if i == n - 1 then '7' else ' ')
  }

  lemma {:induction false} NoDigits(s: string)
    requires forall i :: 0 <= i < |s| ==> s[i] == ' '
    ensures DigitValue(s) == 0 && SignedValue(s) == 0
  {
    if s == [] {
    } else {
      NoDigits(s[..|s| - 1]);
    }
  }

  // v1 and v2 read the value of every string of n characters exactly when n fits
  // their index: with one character more there is a string they get wrong.
  lemma ShortIndexSuffices(n: nat)
    ensures (forall s :: |s| == n && DigitValue(s) < HALF_WORD ==> SignedValue(s[..ReadV1(n)]) == SignedValue(s))
       <==> n <= 0x8000
    ensures (forall s :: |s| == n && DigitValue(s) < HALF_WORD ==> SignedValue(s[..ReadV2(n)]) == SignedValue(s))
       <==> n <= 0x8000
  {
    if n <= 0x8000 {
      forall s | |s| == n && DigitValue(s) < HALF_WORD
        ensures SignedValue(s[..ReadV1(n)]) == SignedValue(s[..ReadV2(n)]) == SignedValue(s)
      {
        ThreeParsersAgree(s);
      }
    } else {
      var s := LastDigitOnly(n);
      NoDigits(s[..n - 1]);
      NoDigits(s[..ReadV1(n)]);
      NoDigits(s[..ReadV2(n)]);
      assert DigitValue(s) == 7;
      assert SignedValue(s) == 7;
    }
  }
}
