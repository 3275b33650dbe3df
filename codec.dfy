/**
 * The numeric codec of the console (module3/Monitor.cpp): digitLookup,
 * multipleLookup, is_hex, toPower, my_itoa and my_atoi.
 *
 * Text is a sequence of bytes.  The digit string that my_itoa builds is
 * specified by Format; the value that my_atoi computes by Atoi.  The two are
 * tied together by RoundTrip.
 */
module Codec {
  import opened Bytes

  // ---------------------------------------------------------------------
  // Digit tables
  // ---------------------------------------------------------------------

  /** digitLookup: the upper-case ASCII digit of a value 0..15, NUL otherwise. */
  function DigitLookup(val: int): (c: byte)
    ensures 0 <= val <= 9 ==> c == '0' as int + val
    ensures 10 <= val <= 15 ==> c == 'A' as int + (val - 10)
    ensures (val < 0 || 15 < val) ==> c == 0
  {
    match val
    case 0 => '0' as int
    case 1 => '1' as int
    case 2 => '2' as int
    case 3 => '3' as int
    case 4 => '4' as int
    case 5 => '5' as int
    case 6 => '6' as int
    case 7 => '7' as int
    case 8 => '8' as int
    case 9 => '9' as int
    case 10 => 'A' as int
    case 11 => 'B' as int
    case 12 => 'C' as int
    case 13 => 'D' as int
    case 14 => 'E' as int
    case 15 => 'F' as int
    case _ => 0
  }

  /** multipleLookup: the value of a digit '0'..'9', 'A'..'F' or 'a'..'f', -1 otherwise. */
  function MultipleLookup(digit: byte): (v: int)
    ensures '0' as int <= digit <= '9' as int ==> v == digit - '0' as int
    ensures 'A' as int <= digit <= 'F' as int ==> v == digit - 'A' as int + 10
    ensures 'a' as int <= digit <= 'f' as int ==> v == digit - 'a' as int + 10
    ensures (!('0' as int <= digit <= '9' as int) && !('A' as int <= digit <= 'F' as int)
             && !('a' as int <= digit <= 'f' as int)) ==> v == -1
  {
    if digit == '0' as int then 0
    else if digit == '1' as int then 1
    else if digit == '2' as int then 2
    else if digit == '3' as int then 3
    else if digit == '4' as int then 4
    else if digit == '5' as int then 5
    else if digit == '6' as int then 6
    else if digit == '7' as int then 7
    else if digit == '8' as int then 8
    else if digit == '9' as int then 9
    else if digit == 'A' as int || digit == 'a' as int then 10
    else if digit == 'B' as int || digit == 'b' as int then 11
    else if digit == 'C' as int || digit == 'c' as int then 12
    else if digit == 'D' as int || digit == 'd' as int then 13
    else if digit == 'E' as int || digit == 'e' as int then 14
    else if digit == 'F' as int || digit == 'f' as int then 15
    else -1
  }

  /** The two tables are inverse on 0..15, and multipleLookup also reads the lower-case letters. */
  lemma LookupRoundTrip(d: int)
    requires 0 <= d <= 15
    ensures MultipleLookup(DigitLookup(d)) == d
    ensures 10 <= d ==> MultipleLookup(DigitLookup(d) + 0x20) == d
  {
  }

  /** Every digit multipleLookup accepts is digitLookup's, or digitLookup's in lower case. */
  lemma LookupInverse(c: byte)
    requires MultipleLookup(c) >= 0
    ensures DigitLookup(MultipleLookup(c)) == c
            || ('a' as int <= c <= 'f' as int && DigitLookup(MultipleLookup(c)) + 0x20 == c)
  {
  }

  /** c | 0x20 on a byte. */
  function SetBit5(c: byte): (r: byte)
  {
    if (c / 0x20) % 2 == 1 then c else c + 0x20
  }

  /**
   * is_hex as written: it ORs 0x20 into the byte before BOTH range tests, so
   * the control bytes 0x10..0x19 fold onto '0'..'9' and are accepted too.
   */
  function IsHex(c: byte): (r: bool)
    ensures r <==> MultipleLookup(c) >= 0 || 0x10 <= c <= 0x19
  {
    var l := SetBit5(c);
    ('0' as int <= l <= '9' as int) || ('a' as int <= l <= 'f' as int)
  }

  /** A byte is_hex accepts that is no hex digit. */
  lemma IsHexAcceptsControlByte()
    ensures IsHex(0x10) && MultipleLookup(0x10) < 0
  {
  }

  /** is_hex as evidently intended: the case fold is applied to the letter test only. */
  function IsHexDigit(c: byte): (r: bool)
    ensures r <==> MultipleLookup(c) >= 0
  {
    ('0' as int <= c <= '9' as int) || ('a' as int <= SetBit5(c) <= 'f' as int)
  }

  // ---------------------------------------------------------------------
  // Powers
  // ---------------------------------------------------------------------

  function Pow(b: int, e: nat): int
  {
    if e == 0 then 1 else b * Pow(b, e - 1)
  }

  lemma {:induction false} PowPositive(b: int, e: nat)
    requires b >= 1
    ensures Pow(b, e) >= 1
  {
    if e > 0 {
      PowPositive(b, e - 1);
    }
  }

  lemma {:induction false} PowMonotone(b: int, i: nat, j: nat)
    requires b >= 1 && i <= j
    ensures Pow(b, i) <= Pow(b, j)
  {
    if i < j {
      PowMonotone(b, i, j - 1);
      PowPositive(b, j - 1);
    }
  }

  lemma {:induction false} PowAdd(b: int, i: nat, j: nat)
    ensures Pow(b, i + j) == Pow(b, i) * Pow(b, j)
  {
    if i > 0 {
      PowAdd(b, i - 1, j);
    }
  }

  lemma {:induction false} PowBase(b: int, c: int, e: nat)
    requires 1 <= b <= c
    ensures Pow(b, e) <= Pow(c, e)
  {
    if e > 0 {
      PowBase(b, c, e - 1);
      PowPositive(b, e - 1);
      MulMono(b, c, Pow(b, e - 1), Pow(c, e - 1));
    }
  }

  lemma MulMono(x: int, y: int, a: int, c: int)
    requires 0 <= x <= y && 0 <= a <= c
    ensures x * a <= y * c
  {
    assert x * a <= y * a;
    assert y * a <= y * c;
  }

  lemma DivBounds(n: int, b: int)
    requires n >= 0 && b >= 1
    ensures b * (n / b) <= n < b * (n / b + 1)
  {
    assert n == b * (n / b) + n % b;
  }

  lemma DivPositive(d: int, p: int)
    requires d >= 0 && p >= 1
    ensures d / p > 0 <==> p <= d
  {
    DivBounds(d, p);
    if d / p > 0 {
      MulMono(p, p, 1, d / p);
    }
  }

  lemma ModRemainder(d: int, p: int)
    requires d >= 0 && p >= 1
    ensures d - (d / p) * p == d % p
    ensures 0 <= d % p < p && d % p <= d
  {
    var q, r := d / p, d % p;
    assert d == p * q + r;
    assert q * p == p * q;
    if q < 0 {
      MulAtLeast(p, -q);
    } else {
      MulMono(0, p, 0, q);
    }
  }

  lemma Pow2To31()
    ensures Pow(2, 31) == 0x8000_0000
  {
    assert Pow(2, 8) == 256;
    assert Pow(2, 7) == 128;
    PowAdd(2, 8, 8);
    PowAdd(2, 16, 8);
    PowAdd(2, 24, 7);
  }

  /** toPower: base raised to exponent by repeated multiplication. */
  method ToPower(base: uint32, exponent: byte) returns (accum: int)
    ensures accum == Pow(base, exponent)
  {
    accum := 1;
    var i := 0;
    while i < exponent
      invariant 0 <= i <= exponent
      invariant accum == Pow(base, i)
    {
      accum := accum * base;
      i := i + 1;
    }
  }

  // ---------------------------------------------------------------------
  // The text my_itoa produces
  // ---------------------------------------------------------------------

  /** The number of base-b digits of n (0 for n = 0). */
  function NumDigits(n: nat, b: int): nat
    requires b >= 2
    decreases n
  {
    if n == 0 then 0 else 1 + NumDigits(n / b, b)
  }

  /** NumDigits(n, b) is the least M with n < b^M. */
  lemma NumDigitsBounds(n: nat, b: int)
    requires b >= 2
    ensures n < Pow(b, NumDigits(n, b))
    ensures n > 0 ==> Pow(b, NumDigits(n, b) - 1) <= n
  {
    NumDigitsAbove(n, b);
    NumDigitsBelow(n, b);
  }

  lemma {:induction false} NumDigitsAbove(n: nat, b: int)
    requires b >= 2
    ensures n < Pow(b, NumDigits(n, b))
  {
    if n > 0 {
      var q := n / b;
      NumDigitsAbove(q, b);
      AboveStep(n, b, Pow(b, NumDigits(q, b)));
    }
  }

  /** If n / b < P then n < b * P. */
  lemma AboveStep(n: nat, b: int, P: int)
    requires b >= 2 && n / b < P
    ensures n < b * P
  {
    DivBounds(n, b);
    MulMono(b, b, n / b + 1, P);
  }

  lemma {:induction false} NumDigitsBelow(n: nat, b: int)
    requires b >= 2
    ensures n > 0 ==> Pow(b, NumDigits(n, b) - 1) <= n
  {
    var q := n / b;
    if q > 0 {
      NumDigitsBelow(q, b);
      BelowInduct(n, b, q, NumDigits(q, b));
    }
  }

  /** The inductive step: b^(k-1) <= n / b gives b^k <= n, and n has one digit more than n / b. */
  lemma BelowInduct(n: nat, b: int, q: nat, k: nat)
    requires b >= 2 && q == n / b && q > 0 && k == NumDigits(q, b) && Pow(b, k - 1) <= q
    ensures NumDigits(n, b) == k + 1 && Pow(b, NumDigits(n, b) - 1) <= n
  {
    var P := Pow(b, k - 1);
    assert 0 <= P by { PowPositive(b, k - 1); }
    BelowStep(n, b, P);
  }

  /** If P <= n / b then b * P <= n. */
  lemma BelowStep(n: nat, b: int, P: int)
    requires b >= 2 && 0 <= P <= n / b
    ensures b * P <= n
  {
    DivBounds(n, b);
    MulMono(b, b, P, n / b);
  }

  /** Numbers below 2^k have at most k digits in any base >= 2. */
  lemma {:induction false} NumDigitsAtMost(n: nat, b: int, k: nat)
    requires b >= 2 && n < Pow(2, k)
    ensures NumDigits(n, b) <= k
  {
    if n > 0 {
      NumDigitsBounds(n, b);
      var m := NumDigits(n, b);
      PowBase(2, b, m - 1);
      if m > k {
        PowMonotone(2, k, m - 1);
        assert false;
      }
    }
  }

  /** The k-digit base-b text of n, most significant digit first. */
  function Padded(n: nat, b: int, k: nat): (s: seq<byte>)
    requires b >= 2
    ensures |s| == k
    decreases k
  {
    if k == 0 then []
    else
      var p := Pow(b, k - 1);
      PowPositive(b, k - 1);
      [DigitLookup(n / p)] + Padded(n % p, b, k - 1)
  }

  /** The minimal digit string of a magnitude: exactly "0" for zero. */
  function Magnitude(n: nat, b: int): seq<byte>
    requires b >= 2
  {
    if n == 0 then ['0' as int] else Padded(n, b, NumDigits(n, b))
  }

  function Abs(v: int): nat { if v < 0 then -v else v }

  /** The text my_itoa writes before its terminating NUL: an optional '-', then the digits. */
  function Format(v: int, b: int): seq<byte>
    requires 2 <= b <= 16
  {
    (if v < 0 then ['-' as int] else []) + Magnitude(Abs(v), b)
  }

  predicate ValidDigit(c: byte, b: int)
  {
    0 <= MultipleLookup(c) < b
  }

  predicate AllValid(ds: seq<byte>, b: int)
  {
    forall i :: 0 <= i < |ds| ==> ValidDigit(ds[i], b)
  }

  /** The value of a digit string: sum of digit * b^(position from the right). */
  function Weighted(ds: seq<byte>, b: int): int
  {
    if ds == [] then 0 else MultipleLookup(ds[0]) * Pow(b, |ds| - 1) + Weighted(ds[1..], b)
  }

  lemma DivBelow(n: nat, p: int, b: int)
    requires p >= 1 && n < b * p
    ensures n / p < b
  {
    DivBounds(n, p);
    if n / p >= b {
      MulMono(b, n / p, p, p);
    }
  }

  /** Padded digits are valid, upper-case, and their value is n. */
  lemma PaddedValue(n: nat, b: int, k: nat)
    requires 2 <= b <= 16 && n < Pow(b, k)
    ensures AllValid(Padded(n, b, k), b)
    ensures Weighted(Padded(n, b, k), b) == n
    ensures forall i :: 0 <= i < k ==> Padded(n, b, k)[i] == DigitLookup(MultipleLookup(Padded(n, b, k)[i]))
  {
    PaddedDigits(n, b, k);
    PaddedWeight(n, b, k);
  }

  /** n's leading digit and the remainder below it. */
  lemma PaddedStep(n: nat, b: int, k: nat)
    requires 2 <= b <= 16 && n < Pow(b, k) && k > 0
    ensures Pow(b, k - 1) >= 1
    ensures 0 <= n / Pow(b, k - 1) < b && 0 <= n % Pow(b, k - 1) < Pow(b, k - 1)
    ensures n == n / Pow(b, k - 1) * Pow(b, k - 1) + n % Pow(b, k - 1)
    ensures Padded(n, b, k) == [DigitLookup(n / Pow(b, k - 1))] + Padded(n % Pow(b, k - 1), b, k - 1)
  {
    PowPositive(b, k - 1);
    DivStep(n, Pow(b, k - 1), b);
  }

  /** Dividing n < b * p by p leaves a quotient below b and a remainder below p. */
  lemma DivStep(n: nat, p: int, b: int)
    requires p >= 1 && n < b * p
    ensures 0 <= n / p < b && 0 <= n % p < p
    ensures n == n / p * p + n % p
  {
    DivBelow(n, p, b);
    ModRemainder(n, p);
  }

  lemma {:induction false} PaddedDigits(n: nat, b: int, k: nat)
    requires 2 <= b <= 16 && n < Pow(b, k)
    ensures AllValid(Padded(n, b, k), b)
    ensures forall i :: 0 <= i < k ==> Padded(n, b, k)[i] == DigitLookup(MultipleLookup(Padded(n, b, k)[i]))
    decreases k
  {
    if k > 0 {
      PaddedStep(n, b, k);
      var p := Pow(b, k - 1);
      var q, r := n / p, n % p;
      var s := Padded(n, b, k);
      var t := Padded(r, b, k - 1);
      PaddedDigits(r, b, k - 1);
      LookupRoundTrip(q);
      assert s == [DigitLookup(q)] + t;
      forall i | 0 <= i < k
        ensures ValidDigit(s[i], b) && s[i] == DigitLookup(MultipleLookup(s[i]))
      {
        if i > 0 {
          assert s[i] == t[i - 1];
        }
      }
    }
  }

  lemma {:induction false} PaddedWeight(n: nat, b: int, k: nat)
    requires 2 <= b <= 16 && n < Pow(b, k)
    ensures Weighted(Padded(n, b, k), b) == n
    decreases k
  {
    if k > 0 {
      PaddedStep(n, b, k);
      var p := Pow(b, k - 1);
      var q, r := n / p, n % p;
      var s := Padded(n, b, k);
      var t := Padded(r, b, k - 1);
      PaddedWeight(r, b, k - 1);
      LookupRoundTrip(q);
      assert s == [DigitLookup(q)] + t;
      assert s[1..] == t;
      WeightedCons(s, b, q, p, r);
    }
  }

  /** The value of a digit string whose first digit is q, followed by digits worth r, at place value p. */
  lemma WeightedCons(s: seq<byte>, b: int, q: int, p: int, r: int)
    requires |s| > 0 && MultipleLookup(s[0]) == q && Pow(b, |s| - 1) == p && Weighted(s[1..], b) == r
    ensures Weighted(s, b) == q * p + r
  {
  }

  /** The first of n's minimal digits is not '0'. */
  lemma LeadingDigit(n: nat, b: int)
    requires 2 <= b <= 16 && n > 0
    ensures Magnitude(n, b)[0] != '0' as int
  {
    NumDigitsBounds(n, b);
    var k := NumDigits(n, b);
    var p := Pow(b, k - 1);
    PowPositive(b, k - 1);
    assert Pow(b, k) == b * p;
    DivBelow(n, p, b);
    assert 1 <= n / p < b;
  }

  /**
   * What my_itoa writes for a valid base: an optional '-', then a non-empty
   * run of upper-case digits of the base with no leading zero (exactly "0"
   * for zero), 32 bytes at most.
   */
  lemma FormatShape(v: int32, b: int)
    requires 2 <= b <= 16 && v != INT32_MIN
    ensures Format(v, b) == (if v < 0 then ['-' as int] else []) + Magnitude(Abs(v), b)
    ensures var m := Magnitude(Abs(v), b);
      && 1 <= |m| <= 31
      && AllValid(m, b)
      && (forall i :: 0 <= i < |m| ==> m[i] == DigitLookup(MultipleLookup(m[i])))
      && (m[0] == '0' as int <==> v == 0)
      && (v == 0 ==> m == ['0' as int])
    ensures |Format(v, b)| <= 32
  {
    var n := Abs(v);
    if n > 0 {
      NumDigitsBounds(n, b);
      PaddedValue(n, b, NumDigits(n, b));
      LeadingDigit(n, b);
      Pow2To31();
      NumDigitsAtMost(n, b, 31);
    }
  }

  /** my_itoa's text fits in 32 bytes. */
  lemma FormatFits(v: int32, b: int)
    requires 2 <= b <= 16 && v != INT32_MIN
    ensures |Format(v, b)| <= 32
  {
    FormatShape(v, b);
  }

  /** The first byte of the digits is a digit, never a minus sign. */
  lemma FormatNoDash(v: int, b: int)
    requires 2 <= b <= 16
    ensures Magnitude(Abs(v), b)[0] != '-' as int
  {
    var n := Abs(v);
    if n > 0 {
      NumDigitsBounds(n, b);
      PaddedValue(n, b, NumDigits(n, b));
    }
  }

  /**
   * my_itoa's conversion into its intermediate buffer (the part before the
   * copy to the caller's buffer).  The caller must not pass INT32_MIN, whose
   * negation overflows.
   */
  method Convert(data: int32, base: uint32) returns (str: seq<byte>)
    requires data != INT32_MIN
    ensures 2 <= base <= 16 ==> str == Format(data, base)
    ensures !(2 <= base <= 16) ==> str == []
  {
    str := [];
    if 2 <= base <= 16 {
      var d: int := data;
      var sign: seq<byte> := [];
      if d < 0 {
        sign := ['-' as int];
        d := -d;
      }
      var digits: seq<byte>;
      if d == 0 {
        digits := ['0' as int];
      } else {
        var valMagnitude := Magnitude32(d, base);
        NumDigitsBounds(d, base);
        digits := PeelDigits(d, base, valMagnitude);
      }
      str := sign + digits;
    }
  }

  /**
   * my_itoa's first loop: the least M with data < base^M, found by probing
   * data / toPower(base, M) > 0.
   */
  method Magnitude32(d: int, base: uint32) returns (m: byte)
    requires 1 <= d <= INT32_MAX && 2 <= base <= 16
    ensures m as int == NumDigits(d, base)
  {
    ghost var k := NumDigits(d, base);
    NumDigitsBounds(d, base);
    Pow2To31();
    NumDigitsAtMost(d, base, 31);
    m := 0;
    var p := ToPower(base, m);
    DivPositive(d, p);
    while d / p > 0
      invariant 0 <= m <= k
      invariant p == Pow(base, m) && p >= 1
      invariant d / p > 0 <==> p <= d
      decreases k - m
    {
      if m == k {
        assert false;
      }
      m := m + 1;
      PowPositive(base, m);
      p := ToPower(base, m);
      DivPositive(d, p);
    }
    if m < k {
      PowMonotone(base, m, k - 1);
      assert false;
    }
  }

  /**
   * my_itoa's second loop: the m digits of d, each the quotient by the next
   * lower power of the base, most significant first.
   */
  method PeelDigits(d0: int, base: uint32, m0: byte) returns (str: seq<byte>)
    requires 2 <= base <= 16 && 0 <= d0 <= INT32_MAX && d0 < Pow(base, m0)
    ensures str == Padded(d0, base, m0)
  {
    var d, m := d0, m0;
    str := [];
    while m > 0
      invariant 0 <= m <= m0
      invariant 0 <= d <= d0 && d < Pow(base, m)
      invariant str + Padded(d, base, m) == Padded(d0, base, m0)
    {
      m := m - 1;
      var currPower := ToPower(base, m);
      PowPositive(base, m);
      ghost var rest := Padded(d % currPower, base, m);
      assert Padded(d, base, m + 1) == [DigitLookup(d / currPower)] + rest;
      var currMultiple := d / currPower;
      ghost var dBefore := d;
      ModRemainder(d, currPower);
      d := d - currMultiple * currPower;
      assert d == dBefore % currPower;
      assert (str + [DigitLookup(currMultiple)]) + rest == str + ([DigitLookup(currMultiple)] + rest);
      str := str + [DigitLookup(currMultiple)];
    }
  }

  /**
   * my_itoa: writes Format(data, base) and a NUL through ptr and returns the
   * number of bytes written including the NUL; writes nothing and returns 0
   * for a NULL ptr or a base outside 2..16.
   */
  method MyItoa(data: int32, ptr: array?<byte>, base: uint32) returns (len: byte)
    requires data != INT32_MIN
    requires ptr != null && 2 <= base <= 16 ==> |Format(data, base)| < ptr.Length
    modifies ptr
    ensures ptr == null || !(2 <= base <= 16) ==> len == 0
    ensures ptr != null && !(2 <= base <= 16) ==> ptr[..] == old(ptr[..])
    ensures ptr != null && 2 <= base <= 16 ==>
      && len as int == |Format(data, base)| + 1
      && ptr[..len] == Format(data, base) + [0]
      && ptr[len..] == old(ptr[len..])
  {
    var str := Convert(data, base);
    if 2 <= base <= 16 {
      FormatShape(data, base);
    }
    var strLen := |str|;
    if ptr != null && strLen > 0 {
      var ndx := 0;
      while ndx < strLen
        invariant 0 <= ndx <= strLen
        invariant ptr[..ndx] == str[..ndx]
        invariant ptr[strLen..] == old(ptr[strLen..])
      {
        ptr[ndx] := str[ndx];
        ndx := ndx + 1;
      }
      ptr[strLen] := 0;
      len := strLen + 1;
      assert ptr[..len] == ptr[..strLen] + [0];
    } else {
      len := 0;
    }
  }

  // ---------------------------------------------------------------------
  // The value my_atoi computes
  // ---------------------------------------------------------------------

  /** Length of the NUL-terminated string at the start of a. */
  function CLen(a: seq<byte>): (n: nat)
    requires 0 in a
    ensures n < |a| && a[n] == 0
    ensures forall i :: 0 <= i < n ==> a[i] != 0
  {
    if a[0] == 0 then 0 else assert 0 in a[1..]; 1 + CLen(a[1..])
  }

  /** The C string held at the start of a, without its NUL. */
  function CStr(a: seq<byte>): seq<byte>
    requires 0 in a
  {
    a[..CLen(a)]
  }

  /** A NUL at index k ends the C string there or earlier: what follows it is never read. */
  lemma {:induction false} CStrPrefix(a: seq<byte>, k: nat)
    requires k < |a| && a[k] == 0
    ensures 0 in a[..k + 1] && CStr(a) == CStr(a[..k + 1]) && |CStr(a)| <= k
    decreases k
  {
    assert a[..k + 1][k] == 0;
    if a[0] != 0 {
      assert a[1..][..k] == a[..k + 1][1..];
      CStrPrefix(a[1..], k - 1);
    }
  }

  predicate Negative(s: seq<byte>)
  {
    |s| > 0 && s[0] == '-' as int
  }

  /** The digits my_atoi reads: the string after an optional leading '-'. */
  function Digits(s: seq<byte>): seq<byte>
  {
    if Negative(s) then s[1..] else s
  }

  /**
   * my_atoi's result on the string s: 0 when any digit is invalid for
   * the base, otherwise the signed value, reduced to 32 bits as the
   * int32_t accumulator does.
   */
  function Atoi(s: seq<byte>, b: int): int32
  {
    if !AllValid(Digits(s), b) then 0
    else if Negative(s) then Wrap32(-Weighted(Digits(s), b))
    else Wrap32(Weighted(Digits(s), b))
  }

  /** my_atoi rejects a string with an invalid digit, even after a '-', and reads "" and "-" as 0. */
  lemma AtoiRejects(s: seq<byte>, b: int)
    ensures (exists i :: 0 <= i < |Digits(s)| && !ValidDigit(Digits(s)[i], b)) ==> Atoi(s, b) == 0
    ensures s == [] || s == ['-' as int] ==> Atoi(s, b) == 0
  {
  }

  /** Without overflow, my_atoi's result is exactly the signed value of the digits. */
  lemma AtoiExact(s: seq<byte>, b: int)
    requires AllValid(Digits(s), b) && 0 <= Weighted(Digits(s), b) <= INT32_MAX
    ensures Atoi(s, b) == if Negative(s) then -Weighted(Digits(s), b) else Weighted(Digits(s), b)
  {
  }

  /** One step of my_atoi's accumulation, in int32_t arithmetic. */
  lemma AccumStep(acc: int, m: int, p: int, rest: int, total: int)
    requires Cong32(acc + (m * p + rest), total)
    ensures Cong32(Wrap32(acc + Wrap32(m * Wrap32(p))) + rest, total)
  {
    var w1 := Wrap32(p);
    CongMul(m, w1, p);
    var w2 := Wrap32(m * w1);
    CongTrans(w2, m * w1, m * p);
    CongAdd(w2, m * p, acc);
    var w3 := Wrap32(acc + w2);
    CongTrans(w3, acc + w2, acc + m * p);
    CongAdd(w3, acc + m * p, rest);
    CongTrans(w3 + rest, acc + m * p + rest, total);
  }

  /**
   * my_atoi: reads a NUL-terminated string (NULL gives 0).  The digit
   * count is a uint8_t, so the string holds fewer than 256 digits.
   */
  method MyAtoi(ptr: array?<byte>, base: uint32) returns (r: int32)
    requires ptr != null ==> 0 in ptr[..]
    requires ptr != null ==> |Digits(CStr(ptr[..]))| < 256
    ensures r == if ptr == null then 0 else Atoi(CStr(ptr[..]), base)
  {
    var iAccum: int32 := 0;
    var negFlag := false;
    if ptr != null {
      ghost var s := CStr(ptr[..]);
      var start := 0;
      if ptr[0] == '-' as int {
        negFlag := true;
        start := 1;
      }
      var numDigits := CountDigits(ptr, start);
      ghost var ds := ptr[start..start + numDigits];
      assert ds == Digits(s);
      assert negFlag == Negative(s);
      iAccum := Accumulate(ptr, start, numDigits, base);
      if negFlag {
        if AllValid(ds, base) {
          CongMul(-1, iAccum, Weighted(ds, base));
          CongWrap(iAccum * -1, -Weighted(ds, base));
        }
        iAccum := Wrap32(iAccum * -1);
      }
    }
    r := iAccum;
  }

  /** my_atoi's first loop: the number of bytes from index start up to the NUL. */
  method CountDigits(ptr: array<byte>, start: nat) returns (numDigits: nat)
    requires 0 in ptr[..] && start <= CLen(ptr[..])
    ensures numDigits == CLen(ptr[..]) - start
  {
    var t := start;
    numDigits := 0;
    while ptr[t] != 0
      invariant start <= t <= CLen(ptr[..])
      invariant numDigits == t - start
      decreases CLen(ptr[..]) - t
    {
      numDigits := numDigits + 1;
      t := t + 1;
    }
  }

  /**
   * my_atoi's second loop: adds digit * base^(digits left) for each digit,
   * in int32_t arithmetic, and gives 0 at the first digit invalid for the base.
   */
  method Accumulate(ptr: array<byte>, start: nat, numDigits0: nat, base: uint32) returns (iAccum: int32)
    requires start + numDigits0 <= ptr.Length && numDigits0 < 256
    ensures var ds := ptr[start..start + numDigits0];
      iAccum == if AllValid(ds, base) then Wrap32(Weighted(ds, base)) else 0
  {
    ghost var ds := ptr[start..start + numDigits0];
    iAccum := 0;
    var numDigits := numDigits0;
    var j := 0;
    ghost var broke := false;
    while numDigits > 0
      invariant 0 <= j <= |ds| && numDigits == |ds| - j
      invariant AllValid(ds[..j], base)
      invariant Cong32(iAccum + Weighted(ds[j..], base), Weighted(ds, base))
    {
      numDigits := numDigits - 1;
      var currMultiple := MultipleLookup(ptr[start + j]);
      assert ds[j..][1..] == ds[j + 1..];
      assert ds[..j + 1] == ds[..j] + [ds[j]];
      j := j + 1;
      if currMultiple >= base as int || currMultiple < 0 {
        assert !ValidDigit(ds[j - 1], base);
        iAccum := 0;
        broke := true;
        break;
      }
      var p := ToPower(base, numDigits);
      var currPower := Wrap32(p);
      AccumStep(iAccum, currMultiple, p, Weighted(ds[j..], base), Weighted(ds, base));
      iAccum := Wrap32(iAccum + Wrap32(currMultiple * currPower));
    }
    if !broke {
      assert ds[..j] == ds && ds[j..] == [];
      CongWrap(iAccum, Weighted(ds, base));
    }
  }

  /** Round trip: my_atoi reads back what my_itoa wrote. */
  lemma RoundTrip(v: int32, b: int)
    requires 2 <= b <= 16 && v != INT32_MIN
    ensures Atoi(Format(v, b), b) == v
  {
    var n := Abs(v);
    var m := Magnitude(n, b);
    FormatShape(v, b);
    FormatNoDash(v, b);
    if n > 0 {
      NumDigitsBounds(n, b);
      PaddedValue(n, b, NumDigits(n, b));
    }
    assert Digits(Format(v, b)) == m;
    AtoiExact(Format(v, b), b);
  }
}
