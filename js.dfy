/**
 The slice of JavaScript number and string semantics that the weekday-flags
 visual relies on: integer-valued numbers with NaN, the 32-bit bitwise
 operators, logical `&&`, strict equality `===`, `Number.prototype.toString`
 with a radix, and `String.prototype.padStart` with a one-character filler.
 */
module Js {

  /** A JavaScript number, restricted to the integer values and NaN. */
  datatype Number = NaN | Int(value: int)

  // ---------------------------------------------------------------------------
  // 32-bit bitwise operators: ECMAScript ToUint32 on the operands, the
  // operation on 32 bits, and the result read back as a signed 32-bit integer
  // ---------------------------------------------------------------------------

  const TwoTo32: nat := 0x1_0000_0000
  const TwoTo31: nat := 0x8000_0000

  /** ToUint32 on an integer: wrap modulo 2^32. */
  function ToUint32(x: int): (u: nat)
    ensures u < TwoTo32
    ensures 0 <= x < TwoTo32 ==> u == x
  {
    x % TwoTo32
  }

  /** The signed value of a 32-bit pattern (ToInt32 is `ToSigned32(ToUint32(x))`). */
  function ToSigned32(u: nat): (r: int)
    ensures u < TwoTo31 ==> r == u
    ensures u < TwoTo32 ==> -(TwoTo31 as int) <= r < TwoTo31
  {
    if u < TwoTo31 then u else u - TwoTo32
  }

  /** The low `k` bits of the bitwise AND of `a` and `b`. */
  function AndBits(a: nat, b: nat, k: nat): (r: nat) {
    if k == 0 || a == 0 || b == 0 then 0
    else 2 * AndBits(a / 2, b / 2, k - 1) + (if a % 2 == 1 && b % 2 == 1 then 1 else 0)
  }

  /** The low `k` bits of the bitwise OR of `a` and `b`. */
  function OrBits(a: nat, b: nat, k: nat): (r: nat) {
    if k == 0 || (a == 0 && b == 0) then 0
    else 2 * OrBits(a / 2, b / 2, k - 1) + (if a % 2 == 1 || b % 2 == 1 then 1 else 0)
  }

  /** `a | b`, a signed 32-bit integer. */
  function BitOr(a: int, b: int): (r: int)
    ensures -(TwoTo31 as int) <= r < TwoTo31
  {
    BitsResultFitsWidth(ToUint32(a), ToUint32(b), 32);
    Power2OfWordWidth();
    ToSigned32(OrBits(ToUint32(a), ToUint32(b), 32))
  }

  /** `a & b`, a signed 32-bit integer. */
  function BitAnd(a: int, b: int): (r: int)
    ensures -(TwoTo31 as int) <= r < TwoTo31
  {
    BitsResultFitsWidth(ToUint32(a), ToUint32(b), 32);
    Power2OfWordWidth();
    ToSigned32(AndBits(ToUint32(a), ToUint32(b), 32))
  }

  /** `a << n`, a signed 32-bit integer: the shift count is taken modulo 32 and the product wraps to 32 bits. */
  function ShiftLeft(a: int, n: int): (r: int)
    ensures -(TwoTo31 as int) <= r < TwoTo31
  {
    ToSigned32((ToUint32(a) * Power2(n % 32)) % TwoTo32)
  }

  // ---------------------------------------------------------------------------
  // Logical `&&` and strict equality
  // ---------------------------------------------------------------------------

  /** ToBoolean on a number: NaN and zero are falsy. */
  predicate Truthy(n: Number) {
    n.Int? && n.value != 0
  }

  /** `a && b` yields `a` itself when `a` is falsy, otherwise `b`. */
  function LogicalAnd(a: Number, b: Number): (r: Number) {
    if Truthy(a) then b else a
  }

  /** `a === b` on numbers: NaN equals nothing, not even itself. */
  predicate StrictEquals(a: Number, b: Number) {
    a.Int? && b.Int? && a.value == b.value
  }

  lemma {:induction false} StrictEqualsIsReflexiveExceptNaN(n: Number)
    ensures StrictEquals(n, n) <==> n.Int?
  {
  }

  // ---------------------------------------------------------------------------
  // Digits in a radix (the characters `toString(radix)` produces)
  // ---------------------------------------------------------------------------

  function Power2(k: nat): (r: nat)
    ensures r >= 1
  {
    if k == 0 then 1 else 2 * Power2(k - 1)
  }

  /** Powers of two grow with the exponent. */
  lemma {:induction false} Power2Monotonic(i: nat, j: nat)
    requires i <= j
    ensures Power2(i) <= Power2(j)
    decreases j
  {
    if i < j {
      Power2Monotonic(i, j - 1);
    }
  }

  /** A 32-bit word holds the values below 2^32. */
  lemma {:induction false} Power2OfWordWidth()
    ensures Power2(32) == TwoTo32
  {
    assert Power2(2) == 4;
    Power2Sum(2, 2);
    Power2Sum(4, 4);
    Power2Sum(8, 8);
    Power2Sum(16, 16);
  }

  lemma {:induction false} Power2Sum(i: nat, j: nat)
    ensures Power2(i + j) == Power2(i) * Power2(j)
    decreases j
  {
    if j > 0 {
      Power2Sum(i, j - 1);
    }
  }

  /** The numeric value of a lower-case digit character, or -1 for any other character. */
  function DigitValue(c: char): (d: int) {
    if '0' <= c <= '9' then c as int - '0' as int
    else if 'a' <= c <= 'z' then c as int - 'a' as int + 10
    else -1
  }

  /** The character for digit `d`: `0`..`9`, then `a`..`z`. */
  function DigitChar(d: nat): (c: char)
    requires d < 36
    ensures DigitValue(c) == d
  {
    if d < 10 then ('0' as int + d) as char else ('a' as int + d - 10) as char
  }

  /** Two digit characters with the same value are the same character. */
  lemma DigitValueInjective(c: char, c': char)
    requires 0 <= DigitValue(c) && DigitValue(c) == DigitValue(c')
    ensures c == c'
  {
  }

  predicate IsDigitString(s: string, radix: nat) {
    forall i :: 0 <= i < |s| ==> 0 <= DigitValue(s[i]) < radix
  }

  /** The digits of `n` in `radix`, most significant first. */
  function Digits(n: nat, radix: nat): (s: string)
    requires 2 <= radix <= 36
    ensures |s| >= 1 && IsDigitString(s, radix)
    decreases n
  {
    if n < radix then [DigitChar(n)]
    else
      QuotientDecreases(n, radix);
      Digits(n / radix, radix) + [DigitChar(n % radix)]
  }

  lemma QuotientDecreases(n: nat, radix: nat)
    requires 2 <= radix <= n
    ensures n / radix < n
  {
    var q, r := n / radix, n % radix;
    assert n == q * radix + r;
    assert q * radix >= q * 2 by {
      MultiplyMonotonic(q, radix);
    }
  }

  lemma MultiplyMonotonic(q: nat, radix: nat)
    requires radix >= 2
    ensures q * radix >= q * 2
  {
  }

  /** `Number.prototype.toString(radix)` on an integer: a `-` sign, then the digits of the magnitude. */
  function ToString(v: int, radix: nat): (s: string)
    requires 2 <= radix <= 36
    ensures |s| >= 1
    ensures s[0] == '-' <==> v < 0
    ensures v < 0 ==> IsDigitString(s[1..], radix)
    ensures v >= 0 ==> IsDigitString(s, radix)
  {
    if v < 0 then "-" + Digits(-v, radix) else Digits(v, radix)
  }

  // ---------------------------------------------------------------------------
  // padStart
  // ---------------------------------------------------------------------------

  function Repeat(c: char, k: nat): (r: string)
    ensures |r| == k
    ensures forall i :: 0 <= i < k ==> r[i] == c
  {
    if k == 0 then [] else [c] + Repeat(c, k - 1)
  }

  /**
   `s.padStart(targetLength, fill)` with a one-character filler: fillers are
   added on the left up to `targetLength`; a longer string is left as it is.
   */
  function PadStart(s: string, targetLength: int, fill: char): (r: string)
    ensures |r| == if |s| < targetLength then targetLength else |s|
    ensures r[|r| - |s|..] == s
    ensures forall i :: 0 <= i < |r| - |s| ==> r[i] == fill
  {
    if targetLength <= |s| then s else Repeat(fill, targetLength - |s|) + s
  }

  // ---------------------------------------------------------------------------
  // Binary numerals: the reading they denote and their bit positions
  // ---------------------------------------------------------------------------

  /** Bit `i` (weight 2^i) of `n`. */
  function Bit(n: nat, i: nat): (b: nat) {
    if i == 0 then n % 2 else Bit(n / 2, i - 1)
  }

  /** Reads a binary numeral, most significant bit first. */
  function ParseBinary(s: string): (n: nat)
    requires IsDigitString(s, 2)
    ensures n < Power2(|s|)
    decreases |s|
  {
    if s == [] then 0 else 2 * ParseBinary(s[..|s| - 1]) + DigitValue(s[|s| - 1])
  }

  /** Reading back the binary digits of `n` gives `n`. */
  lemma {:induction false} ParseBinaryOfDigits(n: nat)
    ensures ParseBinary(Digits(n, 2)) == n
    decreases n
  {
    var s := Digits(n, 2);
    if n < 2 {
      assert s[..|s| - 1] == [];
    } else {
      ParseBinaryOfDigits(n / 2);
      assert s[..|s| - 1] == Digits(n / 2, 2);
    }
  }

  /** Leading zeros do not change the value read. */
  lemma {:induction false} ParseBinaryLeadingZeros(z: string, s: string)
    requires forall i :: 0 <= i < |z| ==> z[i] == '0'
    requires IsDigitString(s, 2)
    ensures IsDigitString(z + s, 2)
    ensures ParseBinary(z + s) == ParseBinary(s)
    decreases |z| + |s|
  {
    DigitStringsConcat(z, s, 2);
    if s == [] {
      assert z + s == z;
      ParseBinaryOfZeros(z);
    } else {
      var s', t := s[..|s| - 1], z + s;
      ParseBinaryLeadingZeros(z, s');
      assert t[..|t| - 1] == z + s';
      assert t[|t| - 1] == s[|s| - 1];
      assert ParseBinary(t) == 2 * ParseBinary(z + s') + DigitValue(s[|s| - 1]);
    }
  }

  /** A text of zeros reads as 0. */
  lemma {:induction false} ParseBinaryOfZeros(z: string)
    requires forall i :: 0 <= i < |z| ==> z[i] == '0'
    ensures IsDigitString(z, 2) && ParseBinary(z) == 0
    decreases |z|
  {
    if z != [] {
      ParseBinaryOfZeros(z[..|z| - 1]);
    }
  }

  lemma DigitStringsConcat(a: string, b: string, radix: nat)
    requires forall i :: 0 <= i < |a| ==> a[i] == '0'
    requires IsDigitString(b, radix) && radix >= 1
    ensures IsDigitString(a + b, radix)
  {
    forall i | 0 <= i < |a + b| ensures 0 <= DigitValue((a + b)[i]) < radix {
      if i < |a| { assert (a + b)[i] == a[i]; } else { assert (a + b)[i] == b[i - |a|]; }
    }
  }

  /** A binary numeral padded on the left with zeros reads as the numeral itself. */
  lemma {:induction false} ParseBinaryPadded(r: string, s: string)
    requires |s| <= |r| && r[|r| - |s|..] == s
    requires forall i :: 0 <= i < |r| - |s| ==> r[i] == '0'
    requires IsDigitString(s, 2)
    ensures IsDigitString(r, 2)
    ensures ParseBinary(r) == ParseBinary(s)
  {
    var z := r[..|r| - |s|];
    assert r == z + s;
    ParseBinaryLeadingZeros(z, s);
  }

  /** Two digit strings of the same length with the same digit values are the same string. */
  lemma {:induction false} SameDigitsSameString(a: string, b: string)
    requires |a| == |b|
    requires forall k :: 0 <= k < |a| ==> 0 <= DigitValue(a[k]) && DigitValue(a[k]) == DigitValue(b[k])
    ensures a == b
  {
    forall k | 0 <= k < |a| ensures a[k] == b[k] {
      DigitValueInjective(a[k], b[k]);
    }
  }

  /** Once 2^k exceeds `n`, every bit from k upwards is zero. */
  lemma {:induction false} BitAboveIsZero(n: nat, k: nat, i: nat)
    requires n < Power2(k) && k <= i
    ensures Bit(n, i) == 0
    decreases i
  {
    if i == 0 {
    } else if k == 0 {
      BitAboveIsZero(0, 0, i - 1);
    } else {
      BitAboveIsZero(n / 2, k - 1, i - 1);
    }
  }

  /** The binary digits of `n` are as many as needed: 2^(|s|-1) <= n < 2^|s|, or n == 0 and s == "0". */
  lemma {:induction false} DigitsLength(n: nat)
    ensures n < Power2(|Digits(n, 2)|)
    ensures n == 0 <==> Digits(n, 2) == "0"
    ensures n > 0 ==> Power2(|Digits(n, 2)| - 1) <= n
    decreases n
  {
    if n >= 2 {
      DigitsLength(n / 2);
      assert Digits(n, 2)[0] == Digits(n / 2, 2)[0];
    }
  }

  /** The character at position |s|-1-i of the binary digits of `n` is bit i of `n`. */
  lemma {:induction false} DigitsPositional(n: nat, i: nat)
    ensures i < |Digits(n, 2)| ==> DigitValue(Digits(n, 2)[|Digits(n, 2)| - 1 - i]) == Bit(n, i)
    ensures i >= |Digits(n, 2)| ==> Bit(n, i) == 0
    decreases n
  {
    var s := Digits(n, 2);
    if i >= |s| {
      DigitsLength(n);
      BitAboveIsZero(n, |s|, i);
    } else if n >= 2 && i > 0 {
      DigitsPositional(n / 2, i - 1);
      assert s[|s| - 1 - i] == Digits(n / 2, 2)[|Digits(n / 2, 2)| - 1 - (i - 1)];
    }
  }

  /** The value read from a binary numeral has, as bit i, the digit at position |s|-1-i. */
  lemma {:induction false} ParseBinaryPositional(s: string, i: nat)
    requires IsDigitString(s, 2)
    ensures i < |s| ==> Bit(ParseBinary(s), i) == DigitValue(s[|s| - 1 - i])
    ensures i >= |s| ==> Bit(ParseBinary(s), i) == 0
    decreases |s|
  {
    if i >= |s| {
      BitAboveIsZero(ParseBinary(s), |s|, i);
    } else if i > 0 {
      var p := s[..|s| - 1];
      ParseBinaryPositional(p, i - 1);
      assert p[|p| - 1 - (i - 1)] == s[|s| - 1 - i];
    }
  }

  /** `toString(2)` is undone by reading the digits back and applying the sign. */
  lemma {:induction false} ToBinaryRoundTrip(v: int)
    ensures v >= 0 ==> ParseBinary(ToString(v, 2)) == v
    ensures v < 0 ==> ParseBinary(ToString(v, 2)[1..]) == -v
  {
    if v < 0 {
      ParseBinaryOfDigits(-v);
      assert ToString(v, 2)[1..] == Digits(-v, 2);
    } else {
      ParseBinaryOfDigits(v);
    }
  }

  // ---------------------------------------------------------------------------
  // Properties of the bitwise operators
  // ---------------------------------------------------------------------------

  lemma {:induction false} BitOfZero(i: nat)
    ensures Bit(0, i) == 0
    decreases i
  {
    if i > 0 {
      BitOfZero(i - 1);
    }
  }

  /** Below bit k, `AndBits` is the AND of the operands bit by bit. */
  lemma {:induction false} AndBitsIsBitwise(a: nat, b: nat, k: nat, i: nat)
    requires i < k
    ensures Bit(AndBits(a, b, k), i) == if Bit(a, i) == 1 && Bit(b, i) == 1 then 1 else 0
    decreases k
  {
    if a == 0 || b == 0 {
      BitOfZero(i);
    } else if i > 0 {
      var r := AndBits(a / 2, b / 2, k - 1);
      var x := if a % 2 == 1 && b % 2 == 1 then 1 else 0;
      assert (2 * r + x) / 2 == r;
      AndBitsIsBitwise(a / 2, b / 2, k - 1, i - 1);
    }
  }

  /** Below bit k, `OrBits` is the OR of the operands bit by bit. */
  lemma {:induction false} OrBitsIsBitwise(a: nat, b: nat, k: nat, i: nat)
    requires i < k
    ensures Bit(OrBits(a, b, k), i) == if Bit(a, i) == 1 || Bit(b, i) == 1 then 1 else 0
    decreases k
  {
    if a == 0 && b == 0 {
      BitOfZero(i);
    } else if i > 0 {
      var r := OrBits(a / 2, b / 2, k - 1);
      var x := if a % 2 == 1 || b % 2 == 1 then 1 else 0;
      assert (2 * r + x) / 2 == r;
      OrBitsIsBitwise(a / 2, b / 2, k - 1, i - 1);
    }
  }

  /** The bitwise operators on k bits produce at most k bits. */
  lemma {:induction false} BitsResultFitsWidth(a: nat, b: nat, k: nat)
    ensures AndBits(a, b, k) < Power2(k)
    ensures OrBits(a, b, k) < Power2(k)
    decreases k
  {
    if k > 0 {
      BitsResultFitsWidth(a / 2, b / 2, k - 1);
    }
  }

  /** A bitwise AND keeps no more than either operand. */
  lemma {:induction false} AndBitsBound(a: nat, b: nat, k: nat)
    ensures AndBits(a, b, k) <= a && AndBits(a, b, k) <= b
    decreases k
  {
    if k > 0 {
      AndBitsBound(a / 2, b / 2, k - 1);
    }
  }

  /** Masking with the low `m` bits leaves a number below 2^m as it is. */
  lemma {:induction false} AndBitsLowMask(m: nat, b: nat, k: nat)
    requires m <= k && b < Power2(m)
    ensures AndBits(Power2(m) - 1, b, k) == b
    decreases k
  {
    if m > 0 {
      AndBitsLowMask(m - 1, b / 2, k - 1);
    }
  }

  /** Two distinct powers of two have no bit in common. */
  lemma {:induction false} AndBitsDistinctPowers(i: nat, j: nat, k: nat)
    requires i != j
    ensures AndBits(Power2(i), Power2(j), k) == 0
    decreases k
  {
    if k > 0 {
      if i == 0 {
        assert Power2(j) % 2 == 0;
      } else if j == 0 {
        assert Power2(i) % 2 == 0;
      } else {
        assert Power2(i) / 2 == Power2(i - 1) && Power2(i) % 2 == 0;
        assert Power2(j) / 2 == Power2(j - 1) && Power2(j) % 2 == 0;
        AndBitsDistinctPowers(i - 1, j - 1, k - 1);
      }
    }
  }

  /** Testing a number against the single bit 2^i gives 2^i when bit i is set and 0 otherwise. */
  lemma {:induction false} AndBitsSingleBit(b: nat, i: nat, k: nat)
    requires i < k
    ensures AndBits(b, Power2(i), k) == if Bit(b, i) == 1 then Power2(i) else 0
    decreases k
  {
    if i > 0 {
      AndBitsSingleBit(b / 2, i - 1, k - 1);
    }
  }

  /** Adding bit j to the j low bits gives the j + 1 low bits. */
  lemma {:induction false} OrBitsNextBit(j: nat, k: nat)
    requires j < k
    ensures OrBits(Power2(j) - 1, Power2(j), k) == Power2(j + 1) - 1
    decreases k
  {
    if j > 0 {
      var p := Power2(j - 1);
      assert Power2(j) == 2 * p && Power2(j + 1) == 4 * p;
      assert (2 * p - 1) / 2 == p - 1 && (2 * p - 1) % 2 == 1;
      assert (2 * p) / 2 == p && (2 * p) % 2 == 0;
      OrBitsNextBit(j - 1, k - 1);
    }
  }

  /** `(2^j - 1) | 2^j` is 2^(j+1) - 1 for the exponents of the weekday bits. */
  lemma {:induction false} BitOrNextBit(j: nat)
    requires j < 7
    ensures BitOr(Power2(j) - 1, Power2(j)) == Power2(j + 1) - 1
  {
    Power2Monotonic(j + 1, 7);
    assert Power2(7) == 128;
    OrBitsNextBit(j, 32);
  }

  /** `1 << i` is 2^i for a shift that stays clear of the sign bit. */
  lemma {:induction false} ShiftLeftOfOne(i: nat)
    requires i < 8
    ensures ShiftLeft(1, i) == Power2(i)
  {
    Power2Monotonic(i, 7);
    assert Power2(7) == 128;
    var p := Power2(i);
    assert ToUint32(1) * Power2(i % 32) == p;
    assert p % TwoTo32 == p;
  }
}
