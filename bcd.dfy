/** Packed binary-coded-decimal (BCD) decoding of one sensor byte, as done by
    `conv_value` in o2.py: the high nibble is the tens digit, the low nibble
    the ones digit. Nibbles 10..15 are not rejected. */
module Bcd {

  /** The high nibble of a byte, as a number 0..15. */
  function HighNibble(n: bv8): (h: nat)
    ensures h < 16
    ensures h == n as int / 16
  {
    ((n & 0xF0) >> 4) as int
  }

  /** The low nibble of a byte, as a number 0..15. */
  function LowNibble(n: bv8): (l: nat)
    ensures l < 16
    ensures l == n as int % 16
  {
    (n & 0x0F) as int
  }

  /** `conv_value`: mask out the high nibble, shift it down, scale it by ten
      and add the low nibble. */
  function ConvValue(n: bv8): (v: nat)
    ensures v <= 165
    ensures IsBcd(n) ==> v <= 99
  {
    var high := (n & 0xF0) >> 4;
    high as int * 10 + (n & 0x0F) as int
  }

  /** A byte is valid packed BCD when both of its nibbles are decimal digits. */
  predicate IsBcd(n: bv8)
  {
    HighNibble(n) <= 9 && LowNibble(n) <= 9
  }

  /** The packed-BCD encoding of a two-digit decimal number: the inverse of
      ConvValue on valid BCD bytes. */
  function ToBcd(d: nat): (n: bv8)
    requires d < 100
    ensures IsBcd(n)
    ensures HighNibble(n) == d / 10 && LowNibble(n) == d % 10
  {
    var tens := (d / 10) as bv8;
    var ones := (d % 10) as bv8;
    (tens << 4) | ones
  }

  /** ConvValue is the tens-and-ones reading of the two nibbles, for every byte. */
  lemma ConvValueIsNibbleDigits(n: bv8)
    ensures ConvValue(n) == HighNibble(n) * 10 + LowNibble(n)
    ensures ConvValue(n) == (n as int / 16) * 10 + n as int % 16
  {
  }

  /** The bound 165 is reached by exactly one byte, 0xFF. */
  lemma ConvValueMaximum(n: bv8)
    ensures ConvValue(n) == 165 <==> n == 0xFF
  {
    ConvValueIsNibbleDigits(n);
  }

  /** Decoding undoes encoding on every two-digit number. */
  lemma {:induction false} ConvValueToBcd(d: nat)
    requires d < 100
    ensures ConvValue(ToBcd(d)) == d
  {
    ConvValueIsNibbleDigits(ToBcd(d));
  }

  /** Encoding undoes decoding on every valid BCD byte. */
  lemma {:induction false} ToBcdConvValue(n: bv8)
    requires IsBcd(n)
    ensures ConvValue(n) < 100 && ToBcd(ConvValue(n)) == n
  {
    ConvValueIsNibbleDigits(n);
    var d := ConvValue(n);
    assert d / 10 == HighNibble(n) && d % 10 == LowNibble(n);
    var m := ToBcd(d);
    assert m as int == n as int;
  }

  /** Non-decimal nibbles are decoded as out-of-range digits and are not
      reported: 0xFF decodes to 165, and 0x0A decodes to 10, the same value
      as the valid BCD byte 0x10. */
  lemma NonDecimalNibblesAccepted()
    ensures !IsBcd(0xFF) && ConvValue(0xFF) == 165
    ensures !IsBcd(0x0A) && IsBcd(0x10) && ConvValue(0x0A) == ConvValue(0x10) == 10
  {
  }

  /** On non-BCD bytes decoding is not injective, so the raw byte cannot be
      recovered from the decoded value. */
  lemma ConvValueNotInjective()
    ensures exists a: bv8, b: bv8 :: a != b && ConvValue(a) == ConvValue(b)
  {
    NonDecimalNibblesAccepted();
  }
}
