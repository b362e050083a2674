// Numbers printed by the second stage's printf: the division of 64 bits by 32
// in two steps, and the digits it yields.
module PrintNumber {
  import opened Words
  import Arithmetic

  const WORD32 := 0x1_0000_0000
  const WORD64 := 0x1_0000_0000_0000_0000

  // ---- Division --------------------------------------------------------------

  // The processor's division of edx:eax faults on a quotient over 32 bits.
  predicate Divides(edx: u32, eax: u32, divisor: u32) {
    divisor != 0 && edx < divisor
  }

  lemma QuotientFits(edx: u32, eax: u32, divisor: u32)
    requires divisor != 0
    ensures (edx * WORD32 + eax) / divisor < WORD32 <==> Divides(edx, eax, divisor)
  {
    var q := (edx * WORD32 + eax) / divisor;
    Arithmetic.MulLe(WORD32, q, divisor);
    Arithmetic.MulLe(q + 1, WORD32, divisor);
    Arithmetic.MulLe(divisor, edx, WORD32);
    Arithmetic.MulLe(edx + 1, divisor, WORD32);
  }

  method Div(edx: u32, eax: u32, divisor: u32) returns (quotient: u32, remainder: u32)
    requires Divides(edx, eax, divisor)
    ensures remainder < divisor && edx * WORD32 + eax == quotient * divisor + remainder
  {
    QuotientFits(edx, eax, divisor);
    var n: int := edx * WORD32 + eax;
    quotient, remainder := n / divisor, n % divisor;
  }

  // The high half first; its remainder goes in front of the low half, where
  // it is below the divisor, so that neither step faults.
  method Div64By32(number: u64, divisor: u32) returns (quotient: u64, remainder: u32)
    requires divisor != 0
    ensures quotient == number / divisor && remainder == number % divisor
  {
    var high, rest := Div(0, number / WORD32, divisor);
    var low, last := Div(rest, number % WORD32, divisor);
    remainder := last;
    Arithmetic.DivModUnique(number, divisor, high * WORD32 + low, remainder);
    quotient := high * WORD32 + low;
  }

  // ---- Numerals ----------------------------------------------------------------

  function Value(digits: seq<nat>, radix: nat): nat {
    if digits == [] then 0 else Value(digits[..|digits| - 1], radix) * radix + digits[|digits| - 1]
  }

  // Digits below the radix, and no zero in front of others.
  predicate IsNumeral(digits: seq<nat>, radix: nat) {
    && |digits| >= 1 && (|digits| > 1 ==> digits[0] != 0)
    && forall j :: 0 <= j < |digits| ==> digits[j] < radix
  }

  function Numeral(n: nat, radix: nat): (digits: seq<nat>)
    requires radix >= 2
    ensures |digits| >= 1
    decreases n
  {
    QuotientShrinks(n, radix);
    if n < radix then [n] else Numeral(n / radix, radix) + [n % radix]
  }

  lemma QuotientShrinks(n: nat, radix: nat)
    requires radix >= 2
    ensures n >= radix ==> 1 <= n / radix < n
    ensures n == n / radix * radix + n % radix && n % radix < radix
  {
    var q := n / radix;
    Arithmetic.MulLe(2, radix, q);
    Arithmetic.MulLe(q + 1, 1, radix);
  }

  lemma NumeralAppend(front: seq<nat>, last: nat, radix: nat)
    ensures Value(front + [last], radix) == Value(front, radix) * radix + last
    ensures IsNumeral(front, radix) && front[0] > 0 && last < radix ==> IsNumeral(front + [last], radix)
  {
    assert (front + [last])[..|front|] == front;
  }

  lemma {:induction false} NumeralIsNumeral(n: nat, radix: nat)
    requires radix >= 2
    ensures IsNumeral(Numeral(n, radix), radix) && Value(Numeral(n, radix), radix) == n
    ensures n > 0 ==> Numeral(n, radix)[0] > 0
    decreases n
  {
    hide Value;
    QuotientShrinks(n, radix);
    if n < radix {
      NumeralAppend([], n, radix);
      NoDigits(radix);
      assert [] + [n] == [n];
    } else {
      NumeralIsNumeral(n / radix, radix);
      hide IsNumeral;
      NumeralAppend(Numeral(n / radix, radix), n % radix, radix);
    }
  }

  lemma NoDigits(radix: nat)
    ensures Value([], radix) == 0
  {
  }

  lemma NumeralSplit(q: nat, r: nat, radix: nat)
    requires radix >= 2 && r < radix
    ensures Numeral(q * radix + r, radix) == if q == 0 then [r] else Numeral(q, radix) + [r]
  {
    Arithmetic.DivModUnique(q * radix + r, radix, q, r);
    Arithmetic.MulLe(1, q, radix);
  }

  // There is no other numeral of the same value.
  lemma {:induction false} NumeralUnique(digits: seq<nat>, radix: nat)
    requires radix >= 2 && IsNumeral(digits, radix)
    ensures digits == Numeral(Value(digits, radix), radix)
    decreases |digits|
  {
    hide Value, Numeral;
    var front, last := digits[..|digits| - 1], digits[|digits| - 1];
    assert digits == front + [last];
    NumeralAppend(front, last, radix);
    if |digits| == 1 {
      NoDigits(radix);
      NumeralSplit(0, last, radix);
    } else {
      assert front[0] == digits[0];
      ValuePositive(front, radix);
      NumeralUnique(front, radix);
      NumeralSplit(Value(front, radix), last, radix);
    }
  }

  lemma {:induction false} ValuePositive(digits: seq<nat>, radix: nat)
    requires radix >= 2 && |digits| >= 1 && digits[0] > 0
    ensures Value(digits, radix) > 0
  {
    if |digits| > 1 {
      var front := digits[..|digits| - 1];
      assert front[0] == digits[0];
      ValuePositive(front, radix);
      Arithmetic.MulLe(1, Value(front, radix), radix);
    } else {
      assert digits[..0] == [];
    }
  }

  function Power8(k: nat): nat {
    if k == 0 then 1 else 8 * Power8(k - 1)
  }

  lemma {:induction false} NumeralLength(n: nat, radix: nat, k: nat)
    requires radix >= 8 && k >= 1 && n < Power8(k)
    ensures |Numeral(n, radix)| <= k
    decreases k
  {
    if n >= radix {
      EighthBelow(n, radix, Power8(k - 1));
      NumeralLength(n / radix, radix, k - 1);
    }
  }

  lemma EighthBelow(n: nat, radix: nat, power: nat)
    requires radix >= 8 && n < 8 * power
    ensures n / radix < power
  {
    QuotientShrinks(n, radix);
    Arithmetic.MulLe(8, radix, n / radix);
  }

  // Sixty-four bits take at most 22 octal digits.
  lemma AtMost22(n: u64, radix: nat)
    requires radix >= 8
    ensures |Numeral(n, radix)| <= 22
  {
    assert Power8(7) == 0x20_0000;
    assert Power8(14) == 0x400_0000_0000;
    assert Power8(22) == 4 * WORD64;
    NumeralLength(n, radix, 22);
  }

  // ---- printf_number -----------------------------------------------------------

  datatype Length = ShortShort | Short | Default | Long | LongLong
  {
    // An int has 16 bits in this build, a long 32, a long long 64.
    function Words(): (n: nat)
      ensures n == 1 || n == 2 || n == 4
    {
      match this
      case Long => 2
      case LongLong => 4
      case _ => 1
    }

    function Size(): nat {
      match this
      case Long => WORD32
      case LongLong => WORD64
      case _ => 0x1_0000
    }
  }

  function TwoWords(low: int, high: int): int {
    high * 0x1_0000 + low
  }

  // An argument, from the words of the stack.
  function Argument(stack: seq<u16>, at: nat, length: Length): (v: nat)
    requires at + length.Words() <= |stack|
    ensures v < length.Size()
  {
    match length
    case Long => TwoWords(stack[at], stack[at + 1])
    case LongLong => TwoWords(stack[at], stack[at + 1]) + TwoWords(stack[at + 2], stack[at + 3]) * WORD32
    case _ => stack[at]
  }

  // What the argument means to the caller.
  function Meant(length: Length, sign: bool, v: nat): int
    requires v < length.Size()
  {
    if sign then Signed(v, length.Size()) else v
  }

  // A two's complement integer of that many values, from any integer.
  function Signed(v: int, size: nat): int
    requires size > 0
  {
    var low := v % size;
    if low < size / 2 then low else low - size
  }

  // The absolute value is taken in the type of the argument, where the
  // smallest value has none, and converted to 64 bits afterwards.
  function Magnitude(length: Length, sign: bool, v: nat): (n: u64)
    requires v < length.Size()
  {
    var n := Meant(length, sign, v);
    (if n < 0 then Signed(-n, length.Size()) else n) % WORD64
  }

  function DigitChar(d: nat): (c: byte)
    requires d < 16
    ensures c < 0x80 && c != MINUS
  {
    if d < 10 then 0x30 + d else 0x61 + d - 10
  }

  const MINUS: byte := 0x2D

  predicate IsRadix(radix: nat) {
    radix == 8 || radix == 10 || radix == 16
  }

  function DigitsText(digits: seq<nat>): (text: seq<byte>)
    requires forall j :: 0 <= j < |digits| ==> digits[j] < 16
    ensures |text| == |digits|
  {
    seq(|digits|, j requires 0 <= j < |digits| => DigitChar(digits[j]))
  }

  // A number written out: its sign if negative, and its numeral.
  function Text(n: int, radix: nat): seq<byte>
    requires IsRadix(radix)
  {
    var magnitude := if n < 0 then -n else n;
    NumeralIsNumeral(magnitude, radix);
    (if n < 0 then [MINUS] else []) + DigitsText(Numeral(magnitude, radix))
  }

  function Printed(length: Length, sign: bool, v: nat, radix: nat): seq<byte>
    requires v < length.Size() && IsRadix(radix)
  {
    NumeralIsNumeral(Magnitude(length, sign, v), radix);
    (if Meant(length, sign, v) < 0 then [MINUS] else []) + DigitsText(Numeral(Magnitude(length, sign, v), radix))
  }

  // The smallest signed value of a type narrower than the digits' 64 bits.
  predicate NarrowMinimum(length: Length, sign: bool, v: nat) {
    sign && length != LongLong && v == length.Size() / 2
  }

  lemma MagnitudeExact(length: Length, sign: bool, v: nat)
    requires v < length.Size()
    ensures var n := Meant(length, sign, v);
      Magnitude(length, sign, v) == (if n < 0 then -n else n) <==> !NarrowMinimum(length, sign, v)
  {
    var size, n := length.Size(), Meant(length, sign, v);
    SignedSmall(v, size);
    SignedSmall(-n, size);
    Sizes(length);
    hide Signed, Length.Size;
    Below64(n);
    Below64(-n);
  }

  lemma Sizes(length: Length)
    ensures 2 <= length.Size() <= WORD64 && length.Size() % 2 == 0
    ensures length == LongLong <==> length.Size() == WORD64
  {
  }

  lemma Below64(n: int)
    ensures 0 <= n < WORD64 ==> n % WORD64 == n
  {
  }

  lemma SignedSmall(v: int, size: nat)
    requires size > 0
    ensures 0 <= v < size ==> Signed(v, size) == if v < size / 2 then v else v - size
  {
    hide Signed;
    if 0 <= v < size {
      Arithmetic.DivModUnique(v, size, 0, v);
      SignedIs(v, size);
    }
  }

  lemma SignedIs(v: int, size: nat)
    requires size > 0
    ensures v % size == v ==> Signed(v, size) == if v < size / 2 then v else v - size
  {
  }

  lemma DigitCharInjective(c: nat, d: nat)
    requires c < 16 && d < 16 && DigitChar(c) == DigitChar(d)
    ensures c == d
  {
  }

  lemma DigitsTextInjective(a: seq<nat>, b: seq<nat>)
    requires forall j :: 0 <= j < |a| ==> a[j] < 16
    requires forall j :: 0 <= j < |b| ==> b[j] < 16
    requires DigitsText(a) == DigitsText(b)
    ensures a == b
  {
    forall j | 0 <= j < |a| ensures a[j] == b[j] {
      assert DigitsText(a)[j] == DigitsText(b)[j];
      DigitCharInjective(a[j], b[j]);
    }
  }

  // The text printed is the number meant, except for the smallest value of a
  // 16-bit or 32-bit type.
  lemma PrintsWhatIsMeant(length: Length, sign: bool, v: nat, radix: nat)
    requires v < length.Size() && IsRadix(radix)
    ensures Printed(length, sign, v, radix) == Text(Meant(length, sign, v), radix) <==> !NarrowMinimum(length, sign, v)
  {
    MagnitudeExact(length, sign, v);
    hide Meant, Magnitude, NarrowMinimum, DigitsText, Numeral;
    var n := Meant(length, sign, v);
    var m, m' := Magnitude(length, sign, v), if n < 0 then -n else n;
    NumeralIsNumeral(m, radix);
    NumeralIsNumeral(m', radix);
    if Printed(length, sign, v, radix) == Text(n, radix) {
      var front := if n < 0 then [MINUS] else [];
      assert DigitsText(Numeral(m, radix)) == Printed(length, sign, v, radix)[|front|..];
      assert DigitsText(Numeral(m', radix)) == Text(n, radix)[|front|..];
      DigitsTextInjective(Numeral(m, radix), Numeral(m', radix));
    }
  }

  // Different numbers have different texts.
  lemma TextInjective(m: int, n: int, radix: nat)
    requires IsRadix(radix) && Text(m, radix) == Text(n, radix)
    ensures m == n
  {
    hide DigitsText, Numeral;
    var a, b := if m < 0 then -m else m, if n < 0 then -n else n;
    NumeralIsNumeral(a, radix);
    NumeralIsNumeral(b, radix);
    FirstIsDigit(Numeral(a, radix));
    FirstIsDigit(Numeral(b, radix));
    assert Text(m, radix)[0] == MINUS <==> m < 0;
    assert Text(n, radix)[0] == MINUS <==> n < 0;
    var front := if n < 0 then [MINUS] else [];
    assert DigitsText(Numeral(a, radix)) == Text(m, radix)[|front|..];
    assert DigitsText(Numeral(b, radix)) == Text(n, radix)[|front|..];
    DigitsTextInjective(Numeral(a, radix), Numeral(b, radix));
  }

  lemma FirstIsDigit(digits: seq<nat>)
    requires |digits| >= 1 && forall j :: 0 <= j < |digits| ==> digits[j] < 16
    ensures DigitsText(digits)[0] != MINUS
  {
  }

  // The buffer holds the text backwards.
  ghost predicate Backwards(buffer: seq<byte>, text: seq<byte>) {
    |buffer| == |text| && forall j :: 0 <= j < |text| ==> buffer[j] == text[|text| - 1 - j]
  }

  // Prints the argument and moves past it. The buffer of 32 is large enough.
  method PrintArgument(stack: seq<u16>, at: nat, length: Length, sign: bool, radix: nat)
    returns (printed: seq<byte>, next: nat)
    requires IsRadix(radix) && at + length.Words() <= |stack|
    ensures next == at + length.Words()
    ensures printed == Printed(length, sign, Argument(stack, at, length), radix)
  {
    hide Meant, Signed, Numeral, DigitsText, Argument;
    var buffer := new byte[32];
    var v := Argument(stack, at, length);
    var n := Meant(length, sign, v);
    var negative := n < 0;
    if negative {
      n := Signed(-n, length.Size());
    }
    var number: u64 := n % WORD64;
    next := at + length.Words();
    NumeralIsNumeral(number, radix);
    var pos := WriteDigits(buffer, number, radix);
    ghost var text := DigitsText(Numeral(number, radix));
    if negative {
      buffer[pos] := MINUS;
      pos := pos + 1;
      text := [MINUS] + text;
    }
    printed := PrintBackwards(buffer, pos, text);
  }

  method PrintBackwards(buffer: array<byte>, count: nat, ghost text: seq<byte>) returns (printed: seq<byte>)
    requires count <= buffer.Length && Backwards(buffer[..count], text)
    ensures printed == text
  {
    assert |text| == count;
    printed := [];
    var pos: nat := count;
    while pos > 0
      invariant pos <= count && printed == text[..count - pos]
    {
      pos := pos - 1;
      printed := printed + [buffer[pos]];
    }
  }

  method WriteDigits(buffer: array<byte>, number: u64, radix: nat) returns (pos: nat)
    requires IsRadix(radix) && buffer.Length == 32
    modifies buffer
    ensures IsNumeral(Numeral(number, radix), radix) && 1 <= pos <= 22
        && Backwards(buffer[..pos], DigitsText(Numeral(number, radix)))
  {
    hide Numeral, DigitsText, DigitChar, Backwards;
    AtMost22(number, radix);
    NumeralIsNumeral(number, radix);
    NoText();
    var left: u64 := number;
    ghost var tail: seq<nat> := [];
    pos := 0;
    while true
      invariant pos == |tail| && Numeral(number, radix) == Numeral(left, radix) + tail
      invariant forall j :: 0 <= j < pos ==> tail[j] < 16
      invariant Backwards(buffer[..pos], DigitsText(tail))
      decreases left
    {
      var remainder: u32;
      var quotient: u64;
      quotient, remainder := LastDigit(left, radix);
      NextDigit(number, left, radix, tail, quotient, remainder);
      OneMoreDigit(buffer[..pos], tail, remainder);
      buffer[pos] := DigitChar(remainder);
      assert buffer[..pos + 1] == buffer[..pos] + [DigitChar(remainder)];
      pos := pos + 1;
      tail := [remainder] + tail;
      left := quotient;
      if left == 0 {
        break;
      }
    }
  }

  lemma NoText()
    ensures Backwards([], DigitsText([]))
  {
  }

  lemma OneMoreDigit(buffer: seq<byte>, digits: seq<nat>, d: nat)
    requires d < 16 && (forall j :: 0 <= j < |digits| ==> digits[j] < 16) && Backwards(buffer, DigitsText(digits))
    ensures forall j :: 0 <= j < |[d] + digits| ==> ([d] + digits)[j] < 16
    ensures Backwards(buffer + [DigitChar(d)], DigitsText([d] + digits))
  {
    hide DigitChar;
    var text := DigitsText([d] + digits);
    assert text == [DigitChar(d)] + DigitsText(digits);
  }

  // The last digit of a number, and the number without it.
  method LastDigit(n: u64, radix: nat) returns (quotient: u64, digit: u32)
    requires IsRadix(radix)
    ensures digit < radix && (quotient < n || quotient == 0)
    ensures Numeral(n, radix) == (if quotient == 0 then [] else Numeral(quotient, radix)) + [digit]
  {
    hide Numeral;
    quotient, digit := Div64By32(n, radix);
    NumeralStep(n, radix, quotient, digit);
  }

  // The digits in front of a tail that has been written, and one digit more.
  lemma NextDigit(number: nat, left: nat, radix: nat, tail: seq<nat>, quotient: nat, digit: nat)
    requires IsRadix(radix) && Numeral(number, radix) == Numeral(left, radix) + tail
    requires Numeral(left, radix) == (if quotient == 0 then [] else Numeral(quotient, radix)) + [digit]
    ensures |tail| < |Numeral(number, radix)|
    ensures quotient == 0 ==> Numeral(number, radix) == [digit] + tail
    ensures quotient != 0 ==> Numeral(number, radix) == Numeral(quotient, radix) + ([digit] + tail)
  {
    hide Numeral;
  }

  lemma NumeralStep(n: nat, radix: nat, quotient: nat, digit: nat)
    requires radix >= 2 && quotient == n / radix && digit == n % radix
    ensures digit < radix && (quotient < n || quotient == 0)
    ensures Numeral(n, radix) == (if quotient == 0 then [] else Numeral(quotient, radix)) + [digit]
  {
    hide Numeral;
    QuotientShrinks(n, radix);
    NumeralSplit(quotient, digit, radix);
  }
}
