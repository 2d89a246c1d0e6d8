/** Bytes, the ASCII bytes the wire format is built from, and the decimal
    digit strings that spell its integers and lengths. */
module Ascii {

  /** One octet of the wire format. */
  type Byte = b: int | 0 <= b < 256

  const INT_TAG: Byte := 'i' as int
  const LIST_TAG: Byte := 'l' as int
  const END_TAG: Byte := 'e' as int
  const COLON: Byte := ':' as int
  const MINUS: Byte := '-' as int
  const ZERO: Byte := '0' as int

  predicate IsDigit(b: Byte) {
    ZERO <= b <= ZERO + 9
  }

  /** The value of an ASCII digit: `to_digit(10)` on the byte read as a char. */
  function DigitValue(b: Byte): (d: nat)
    requires IsDigit(b)
    ensures d < 10 && b == ZERO + d
  {
    b - ZERO
  }

  /** The ASCII byte of a single decimal digit. */
  function DigitByte(d: nat): (b: Byte)
    requires d < 10
    ensures IsDigit(b) && DigitValue(b) == d
  {
    ZERO + d
  }

  predicate AllDigits(s: seq<Byte>) {
    forall i :: 0 <= i < |s| ==> IsDigit(s[i])
  }

  /** `a` moved `n` decimal places up, that is `a * 10^n`, written with
      multiplications by ten only. */
  function Shift(a: int, n: nat): (r: int)
    ensures a == 0 ==> r == 0
  {
    if n == 0 then a else Shift(a, n - 1) * 10
  }

  /** Moving a sum up is moving its parts up. */
  lemma {:induction false} ShiftAdd(a: int, b: int, n: nat)
    ensures Shift(a + b, n) == Shift(a, n) + Shift(b, n)
  {
    if n > 0 {
      ShiftAdd(a, b, n - 1);
    }
  }

  /** Ten times `a`, moved up `n` places, is `a` moved up `n + 1` places. */
  lemma {:induction false} ShiftTen(a: int, n: nat)
    ensures Shift(a * 10, n) == Shift(a, n + 1)
  {
    if n > 0 {
      ShiftTen(a, n - 1);
    }
  }

  /** The number a run of decimal digits denotes, read most significant digit
      first. */
  function Val(s: seq<Byte>): nat
    requires AllDigits(s)
  {
    if |s| == 0 then 0 else Val(s[..|s| - 1]) * 10 + DigitValue(s[|s| - 1])
  }

  /** The shortest decimal spelling of `m`: no leading zero, `0` for zero. */
  function Digits(m: nat): (s: seq<Byte>)
    ensures |s| >= 1 && AllDigits(s)
    ensures |s| > 1 ==> s[0] != ZERO
    ensures m > 0 <==> s[0] != ZERO
  {
    if m < 10 then [DigitByte(m)] else Digits(m / 10) + [DigitByte(m % 10)]
  }

  /** The decimal text of a signed integer, as Rust's `to_string` writes it:
      a `-` for negative values, then the digits of the magnitude. */
  function Decimal(n: int): (s: seq<Byte>)
    ensures |s| >= 1
    ensures n < 0 <==> s[0] == MINUS
    ensures n >= 0 ==> s == Digits(n)
    ensures n < 0 ==> s[1..] == Digits(-n)
  {
    if n < 0 then [MINUS] + Digits(-n) else Digits(n)
  }

  /** Prepending a digit adds its weight in front of the rest. */
  lemma {:induction false} ValCons(d: Byte, s: seq<Byte>)
    requires IsDigit(d) && AllDigits(s)
    ensures AllDigits([d] + s)
    ensures Val([d] + s) == Shift(DigitValue(d), |s|) + Val(s)
    decreases |s|
  {
    var t := [d] + s;
    if |s| > 0 {
      var init := s[..|s| - 1];
      assert t[..|t| - 1] == [d] + init;
      ValCons(d, init);
    } else {
      assert t[..|t| - 1] == [];
    }
  }

  /** Reading back the digits of `m` gives `m`. */
  lemma {:induction false} ValDigits(m: nat)
    ensures Val(Digits(m)) == m
  {
    if m >= 10 {
      var s := Digits(m);
      assert s[..|s| - 1] == Digits(m / 10);
      ValDigits(m / 10);
    }
  }

  /** `ds` spells `m` in decimal as `Digits` would: at least one digit,
      and a leading zero only for zero itself. */
  predicate Spells(ds: seq<Byte>, m: nat) {
    |ds| >= 1 && AllDigits(ds) && Val(ds) == m && (ds[0] == ZERO ==> m == 0)
  }

  lemma DigitsSpell(m: nat)
    ensures Spells(Digits(m), m)
  {
    ValDigits(m);
  }


  /** The byte `b` read as the char with the same code (`b as char`). */
  function ByteChar(b: Byte): (c: char)
    ensures c as int == b
  {
    b as char
  }

  /** Bytes read one char per byte, as the decoder builds its strings. */
  function Latin1(bytes: seq<Byte>): (s: string)
    ensures |s| == |bytes|
    ensures forall i :: 0 <= i < |s| ==> s[i] as int == bytes[i]
  {
    seq(|bytes|, i requires 0 <= i < |bytes| => ByteChar(bytes[i]))
  }

  predicate IsAscii(s: string) {
    forall i :: 0 <= i < |s| ==> s[i] as int < 128
  }

  /** The UTF-8 encoding of one Unicode scalar value. */
  function Utf8Char(c: char): (bs: seq<Byte>)
    ensures 1 <= |bs| <= 4
    ensures |bs| == 1 <==> c as int < 128
    ensures c as int < 128 ==> bs == [c as int]
  {
    var x := c as int;
    if x < 0x80 then [x]
    else if x < 0x800 then [0xC0 + x / 0x40, 0x80 + x % 0x40]
    else if x < 0x1_0000 then [0xE0 + x / 0x1000, 0x80 + (x / 0x40) % 0x40, 0x80 + x % 0x40]
    else [0xF0 + x / 0x4_0000, 0x80 + (x / 0x1000) % 0x40, 0x80 + (x / 0x40) % 0x40, 0x80 + x % 0x40]
  }

  /** `str::as_bytes`: the UTF-8 encoding of a string. */
  function Utf8(s: string): (bs: seq<Byte>)
    ensures |bs| >= |s|
    ensures IsAscii(s) ==> |bs| == |s| && forall i :: 0 <= i < |s| ==> bs[i] == s[i] as int
  {
    if |s| == 0 then [] else Utf8Char(s[0]) + Utf8(s[1..])
  }

  /** For ASCII text, encoding to UTF-8 and reading back one char per byte is
      the identity. */
  lemma AsciiLatin1Utf8(s: string)
    requires IsAscii(s)
    ensures Latin1(Utf8(s)) == s
  {
  }
}
