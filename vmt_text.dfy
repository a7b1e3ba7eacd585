/**
 * The number formatting the vtable dump uses: printf's `%lX` (upper-case
 * hexadecimal), `%lu` (decimal) and `%04lX` (hexadecimal zero-padded to at
 * least four digits), each with a reader that recovers the number.
 */
module VmtText {

  /** The digit for value d, upper case for 10 .. 15. */
  function Digit(d: nat): (c: char)
    requires d < 16
  {
    if d < 10 then ('0' as int + d) as char else ('A' as int + d - 10) as char
  }

  /** The value of a digit character; 16 for any other character. */
  function DigitValue(c: char): (v: nat)
    ensures v <= 16
  {
    if '0' <= c <= '9' then c as int - '0' as int
    else if 'A' <= c <= 'F' then c as int - 'A' as int + 10
    else 16
  }

  lemma DigitValueOfDigit(d: nat)
    requires d < 16
    ensures DigitValue(Digit(d)) == d
  {
  }

  predicate AllDigits(s: string, base: nat)
  {
    forall k :: 0 <= k < |s| ==> DigitValue(s[k]) < base
  }

  /** The number a digit string denotes, most significant digit first. */
  function FromBase(s: string, base: nat): nat
  {
    if s == [] then 0 else FromBase(s[..|s| - 1], base) * base + DigitValue(s[|s| - 1])
  }

  /** The digits of n in `base`, without leading zeros ("0" for zero). */
  function ToBase(n: nat, base: nat): (s: string)
    requires 2 <= base <= 16
    decreases n
    ensures |s| >= 1 && AllDigits(s, base)
    ensures |s| > 1 ==> s[0] != '0'
    ensures FromBase(s, base) == n
  {
    if n < base then
      DigitValueOfDigit(n);
      [Digit(n)]
    else
      DivMod(n, base);
      var prefix := ToBase(n / base, base);
      var s := prefix + [Digit(n % base)];
      DigitValueOfDigit(n % base);
      assert s[..|s| - 1] == prefix;
      assert s[0] == prefix[0];
      s
  }

  /** Reading back is the only inverse: a digit string without leading zeros
      is the rendering of the number it denotes. */
  lemma {:induction false} ToBaseOfFromBase(s: string, base: nat)
    requires 2 <= base <= 16 && |s| >= 1 && AllDigits(s, base) && (|s| > 1 ==> s[0] != '0')
    ensures ToBase(FromBase(s, base), base) == s
    decreases |s|
  {
    var p := s[..|s| - 1];
    var last := DigitValue(s[|s| - 1]);
    DigitLeft(s[|s| - 1]);
    if |s| == 1 {
      assert p == [];
      assert FromBase(s, base) == last;
      assert ToBase(last, base) == [Digit(last)];
      assert s == [s[0]];
    } else {
      assert p[0] == s[0];
      assert AllDigits(p, base);
      FromBasePositive(p, base);
      ToBaseOfFromBase(p, base);
      var q := FromBase(p, base);
      assert FromBase(s, base) == q * base + last;
      ToBaseSnoc(q, last, base);
      assert ToBase(q * base + last, base) == p + [s[|s| - 1]];
      assert s == p + [s[|s| - 1]];
    }
  }

  /** Appending a digit to a rendering renders q * base + d. */
  lemma ToBaseSnoc(q: nat, d: nat, base: nat)
    requires 2 <= base <= 16 && q >= 1 && d < base
    ensures ToBase(q * base + d, base) == ToBase(q, base) + [Digit(d)]
  {
    DivModOf(q, d, base);
  }

  /** Quotient and remainder of n by b. */
  lemma DivMod(n: nat, b: nat)
    requires 2 <= b
    ensures n == (n / b) * b + n % b && n % b < b
    ensures n >= b ==> 1 <= n / b < n
  {
  }

  /** The quotient and remainder of q * b + r, for a remainder r below b. */
  lemma DivModOf(q: nat, r: nat, b: nat)
    requires 2 <= b && r < b
    ensures (q * b + r) / b == q && (q * b + r) % b == r
    ensures q >= 1 ==> q * b + r >= b
  {
    var n := q * b + r;
    DivMod(n, b);
    var d: int := n / b - q;
    assert d * b == r - n % b;
  }

  /** A digit character is the rendering of its own value. */
  lemma DigitLeft(c: char)
    requires DigitValue(c) < 16
    ensures Digit(DigitValue(c)) == c
  {
  }

  /** A digit string that does not start with 0 denotes a positive number. */
  lemma {:induction false} FromBasePositive(s: string, base: nat)
    requires 2 <= base <= 16 && |s| >= 1 && AllDigits(s, base) && s[0] != '0'
    ensures FromBase(s, base) >= 1
  {
    var p := s[..|s| - 1];
    if |s| > 1 {
      assert p[0] == s[0];
      assert AllDigits(p, base);
      FromBasePositive(p, base);
      var q := FromBase(p, base);
      assert FromBase(s, base) == q * base + DigitValue(s[|s| - 1]);
      MulPositive(q, base);
    } else {
      assert p == [];
      assert DigitValue(s[0]) != 0;
    }
  }

  lemma MulPositive(a: nat, b: nat)
    requires a >= 1 && b >= 1
    ensures a * b >= 1
  {
  }

  /** printf's %lX. */
  function Hex(n: nat): (s: string)
    ensures AllDigits(s, 16) && FromBase(s, 16) == n
  {
    ToBase(n, 16)
  }

  /** printf's %lu. */
  function Decimal(n: nat): (s: string)
    ensures AllDigits(s, 10) && FromBase(s, 10) == n
  {
    ToBase(n, 10)
  }

  /** Leading zeros do not change the number a digit string denotes. */
  lemma {:induction false} FromBaseLeadingZeros(z: nat, s: string, base: nat)
    ensures FromBase(seq(z, _ => '0') + s, base) == FromBase(s, base)
    decreases |s|
  {
    var zs := seq(z, _ => '0');
    if s == [] {
      assert zs + s == zs;
      ZerosDenoteZero(z, base);
    } else {
      var p := s[..|s| - 1];
      assert (zs + s)[..|zs + s| - 1] == zs + p;
      FromBaseLeadingZeros(z, p, base);
    }
  }

  lemma {:induction false} ZerosDenoteZero(z: nat, base: nat)
    ensures FromBase(seq(z, _ => '0'), base) == 0
  {
    if z > 0 {
      assert seq(z, _ => '0')[..z - 1] == seq(z - 1, _ => '0');
      ZerosDenoteZero(z - 1, base);
    }
  }

  /** printf's %04lX: the hexadecimal digits, zero-padded on the left to at
      least four characters. */
  function Pad4Hex(n: nat): (s: string)
    ensures |s| == if |Hex(n)| >= 4 then |Hex(n)| else 4
    ensures AllDigits(s, 16) && FromBase(s, 16) == n
    ensures s[|s| - |Hex(n)|..] == Hex(n)
  {
    var h := Hex(n);
    if |h| >= 4 then h
    else
      FromBaseLeadingZeros(4 - |h|, h, 16);
      seq(4 - |h|, _ => '0') + h
  }

  /** The length of the run of hexadecimal digits at the start of s. */
  function HexRun(s: string): (k: nat)
    ensures k <= |s| && AllDigits(s[..k], 16)
    ensures k < |s| ==> DigitValue(s[k]) == 16
  {
    if s == [] || DigitValue(s[0]) == 16 then 0
    else
      var k := HexRun(s[1..]);
      assert s[..k + 1] == [s[0]] + s[1..][..k];
      k + 1
  }

  /** The digit run of a digit string followed by a non-digit is that string. */
  lemma {:induction false} HexRunOf(digits: string, rest: string)
    requires AllDigits(digits, 16) && rest != [] && DigitValue(rest[0]) == 16
    ensures HexRun(digits + rest) == |digits|
    decreases |digits|
  {
    if digits == [] {
      assert digits + rest == rest;
    } else {
      assert (digits + rest)[1..] == digits[1..] + rest;
      HexRunOf(digits[1..], rest);
    }
  }
}
