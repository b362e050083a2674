// Reading back what printf prints: words of the stack, digits and signs are
// written down here without the code that takes them apart.
module NumberReading {
  import opened Words
  import opened PrintNumber
  import Arithmetic

  // ---- Text ------------------------------------------------------------------------

  // What a character stands for, as in strtol; 16 for what is no digit.
  function DigitOf(c: byte): nat {
    if 0x30 <= c <= 0x39 then c - 0x30 else if 0x61 <= c <= 0x66 then c - 0x61 + 10 else 16
  }

  function ReadDigits(text: seq<byte>, radix: nat): int {
    if text == [] then 0 else ReadDigits(text[..|text| - 1], radix) * radix + DigitOf(text[|text| - 1])
  }

  // A minus sign, or none, and digits of the radix, without a zero in front of
  // others.
  predicate IsNumber(text: seq<byte>, radix: nat) {
    var digits := if |text| > 0 && text[0] == 0x2D then text[1..] else text;
    && |digits| >= 1 && (|digits| > 1 ==> DigitOf(digits[0]) != 0)
    && forall i :: 0 <= i < |digits| ==> DigitOf(digits[i]) < radix
  }

  function ReadNumber(text: seq<byte>, radix: nat): int {
    if |text| > 0 && text[0] == 0x2D then -ReadDigits(text[1..], radix) else ReadDigits(text, radix)
  }

  function WithSign(negative: bool, m: int): int {
    if negative then -m else m
  }

  lemma DigitReadsBack(d: nat)
    requires d < 16
    ensures DigitOf(DigitChar(d)) == d && DigitChar(d) != 0x2D
  {
  }

  lemma {:induction false} DigitsReadBack(digits: seq<nat>, radix: nat)
    requires forall j :: 0 <= j < |digits| ==> digits[j] < 16
    ensures ReadDigits(DigitsText(digits), radix) == Value(digits, radix)
    ensures forall j :: 0 <= j < |digits| ==>
              DigitOf(DigitsText(digits)[j]) == digits[j] && DigitsText(digits)[j] != 0x2D
  {
    hide DigitOf, DigitChar;
    if digits != [] {
      var front, last := digits[..|digits| - 1], digits[|digits| - 1];
      DigitsReadBack(front, radix);
      DigitReadsBack(last);
      assert DigitsText(digits) == DigitsText(front) + [DigitChar(last)];
    }
  }

  // A sign, if negative, and the digits of a number.
  lemma SignedReadsBack(negative: bool, m: nat, radix: nat)
    requires IsRadix(radix)
    ensures forall j :: 0 <= j < |Numeral(m, radix)| ==> Numeral(m, radix)[j] < 16
    ensures var text := (if negative then [MINUS] else []) + DigitsText(Numeral(m, radix));
      IsNumber(text, radix) && ReadNumber(text, radix) == WithSign(negative, m)
  {
    var digits := Numeral(m, radix);
    NumeralIsNumeral(m, radix);
    DigitsReadBack(digits, radix);
    hide Numeral, Value, ReadDigits, DigitOf, DigitsText;
    SignInFront(negative, DigitsText(digits), radix);
  }

  lemma SignInFront(negative: bool, digits: seq<byte>, radix: nat)
    requires digits != [] && digits[0] != 0x2D && (|digits| > 1 ==> DigitOf(digits[0]) != 0)
    requires forall j :: 0 <= j < |digits| ==> DigitOf(digits[j]) < radix
    ensures var text := (if negative then [MINUS] else []) + digits;
      IsNumber(text, radix) && ReadNumber(text, radix) == WithSign(negative, ReadDigits(digits, radix))
  {
    hide ReadDigits, DigitOf;
    if negative {
      assert ([MINUS] + digits)[1..] == digits;
    } else {
      assert [] + digits == digits;
    }
  }

  lemma TextReadsBack(n: int, radix: nat)
    requires IsRadix(radix)
    ensures IsNumber(Text(n, radix), radix) && ReadNumber(Text(n, radix), radix) == n
  {
    var m: int := if n < 0 then -n else n;
    SignedReadsBack(n < 0, m, radix);
    hide Numeral, DigitsText, IsNumber, ReadNumber;
  }

  // ---- Arguments -----------------------------------------------------------------------

  // The words of a number in two's complement, lowest first.
  function Pushed(n: int, words: nat): (w: seq<u16>)
    ensures |w| == words
    decreases words
  {
    if words == 0 then [] else [n % 0x1_0000] + Pushed(n / 0x1_0000, words - 1)
  }

  function WordCount(length: Length): nat {
    match length
    case Long => 2
    case LongLong => 4
    case _ => 1
  }

  // Half of the numbers of a type are negative.
  function Bound(length: Length): int {
    match length
    case Long => 0x8000_0000
    case LongLong => 0x8000_0000_0000_0000
    case _ => 0x8000
  }

  // An argument is found where it was pushed, in as many words.
  lemma ArgumentReadsBack(before: seq<u16>, n: int, length: Length, after: seq<u16>)
    ensures length.Words() == WordCount(length) && length.Size() == 2 * Bound(length)
    ensures var stack := before + Pushed(n, WordCount(length)) + after;
      Argument(stack, |before|, length) == n % (2 * Bound(length))
  {
    var at, words := |before|, Pushed(n, WordCount(length));
    var stack := before + words + after;
    assert forall k :: 0 <= k < |words| ==> stack[at + k] == words[k];
    PushedWords(n);
    TwoWordsOf(n);
    TwoWordsOf(n / 0x1_0000_0000);
    FourWordsOf(n);
    hide Pushed;
    match length
    case Long =>
    case LongLong =>
    case _ =>
  }

  lemma PushedWords(n: int)
    ensures Pushed(n, 1) == [n % 0x1_0000]
    ensures Pushed(n, 2) == [n % 0x1_0000, n / 0x1_0000 % 0x1_0000]
    ensures Pushed(n, 4) == Pushed(n, 2) + Pushed(n / 0x1_0000_0000, 2)
  {
    var second, upper := n / 0x1_0000, n / 0x1_0000_0000;
    TwoWordsOf(n);
    PushedOne(n, 0);
    PushedOne(n, 1);
    PushedOne(n, 3);
    PushedOne(second, 0);
    PushedOne(second, 2);
    PushedOne(upper, 1);
    assert second / 0x1_0000 == upper;
    PushedNone(second);
    PushedNone(second / 0x1_0000);
    hide Pushed;
  }

  lemma PushedOne(n: int, words: nat)
    ensures Pushed(n, words + 1) == [n % 0x1_0000] + Pushed(n / 0x1_0000, words)
  {
  }

  lemma PushedNone(n: int)
    ensures Pushed(n, 0) == []
  {
  }

  lemma TwoWordsOf(n: int)
    ensures n % 0x1_0000 + n / 0x1_0000 % 0x1_0000 * 0x1_0000 == n % 0x1_0000_0000
    ensures n / 0x1_0000 / 0x1_0000 == n / 0x1_0000_0000
  {
  }

  lemma FourWordsOf(n: int)
    ensures n % 0x1_0000_0000 + n / 0x1_0000_0000 % 0x1_0000_0000 * 0x1_0000_0000 == n % 0x1_0000_0000_0000_0000
  {
  }

  // Pushed and printed, a number is read back, but for the smallest of a 16-bit
  // or 32-bit type.
  lemma PrintedReadsBack(before: seq<u16>, n: int, length: Length, sign: bool, after: seq<u16>, radix: nat)
    requires IsRadix(radix)
    requires if sign then -Bound(length) <= n < Bound(length) else 0 <= n < 2 * Bound(length)
    ensures |before| + length.Words() <= |before + Pushed(n, WordCount(length)) + after|
    ensures var stack := before + Pushed(n, WordCount(length)) + after;
      var text := Printed(length, sign, Argument(stack, |before|, length), radix);
      && IsNumber(text, radix)
      && (ReadNumber(text, radix) == n <==> !(sign && n == -Bound(length) && length != LongLong))
  {
    ArgumentReadsBack(before, n, length, after);
    MeantBack(length, sign, n);
    var v: nat := n % (2 * Bound(length));
    MagnitudeExact(length, sign, v);
    SignedReadsBack(n < 0, Magnitude(length, sign, v), radix);
    hide Argument, Pushed, Meant, Magnitude, Numeral, DigitsText, IsNumber, ReadNumber, Length.Size, Bound;
  }

  lemma MeantBack(length: Length, sign: bool, n: int)
    requires if sign then -Bound(length) <= n < Bound(length) else 0 <= n < 2 * Bound(length)
    ensures 0 <= n % (2 * Bound(length)) < length.Size() == 2 * Bound(length)
    ensures Meant(length, sign, n % (2 * Bound(length))) == n
    ensures n % (2 * Bound(length)) == length.Size() / 2 && sign <==> n == -Bound(length) && sign
  {
    var size: int := 2 * Bound(length);
    if n < 0 {
      Wraps(n, size);
      SignedSmall(n + size, size);
    } else {
      Arithmetic.DivModUnique(n, size, 0, n);
      SignedSmall(n, size);
    }
    hide Signed;
  }

  lemma Wraps(n: int, size: nat)
    requires 0 <= n + size < size
    ensures n % size == n + size
  {
    var q, r := n / size, n % size;
    Arithmetic.MulLe(q + 1, -1, size);
    Arithmetic.MulLe(0, q, size);
  }
}
