/** PHP 8's `(int)` cast of a string.

    `is_numeric_string` skips leading whitespace and reads the longest
    numeric prefix: an optional sign, digits, optionally a point and more
    digits, and optionally an exponent. A prefix in integer form whose value
    fits in 64 bits is that integer. Every other prefix (one with a point or
    an exponent, or an integer beyond the 64-bit range) is read by
    `zend_strtod`, which rounds it to the nearest IEEE 754 double, ties to
    even. `zend_dval_to_lval_cap` then cuts that double toward zero,
    saturates it at the 64-bit bounds, and turns an infinite double into 0.
    A string without a numeric prefix is 0. */
module NumericString {
  import opened Options
  import opened Str

  // ---- powers ----

  function Pow2(n: nat): (r: nat)
    ensures r >= 1
  {
    if n == 0 then 1 else 2 * Pow2(n - 1)
  }

  function Pow10(n: nat): (r: nat)
    ensures r >= 1
  {
    if n == 0 then 1 else 10 * Pow10(n - 1)
  }

  lemma {:induction false} Pow2Add(a: nat, b: nat)
    ensures Pow2(a + b) == Pow2(a) * Pow2(b)
  {
    if b > 0 {
      Pow2Add(a, b - 1);
    }
  }

  lemma Pow2Le(a: nat, b: nat)
    requires a <= b
    ensures Pow2(a) <= Pow2(b)
  {
    Pow2Add(a, b - a);
    MulLe(1, Pow2(b - a), Pow2(a));
  }

  lemma {:induction false} Pow10Le(a: nat, b: nat)
    requires a <= b
    ensures Pow10(a) <= Pow10(b)
  {
    if a < b {
      Pow10Le(a, b - 1);
    }
  }

  lemma MulLe(a: nat, b: nat, c: nat)
    requires a <= b
    ensures a * c <= b * c
  {
  }

  lemma MulLt(a: nat, b: nat, c: nat)
    requires a < b && c >= 1
    ensures a * c < b * c
  {
  }

  /** The square of a power of two, for evaluating powers step by step. */
  lemma Pow2Square(a: nat, p: nat)
    requires Pow2(a) == p
    ensures Pow2(a + a) == p * p
  {
    Pow2Add(a, a);
  }

  // ---- the limits of doubles and of PHP integers ----

  /** The largest and smallest 64-bit PHP integers. */
  const IntMax: int := 0x7fff_ffff_ffff_ffff
  const IntMin: int := -0x8000_0000_0000_0000

  /** A finite positive double is `q * 2^k` with a significand `q` of at
      most `Precision` bits and `k >= MinExponent`; every finite double is
      below `2^OverflowExponent`. */
  const Precision: nat := 53
  const MinExponent: int := -1074
  const OverflowExponent: nat := 1024
  const LongBits: nat := 63

  /** The smallest value that rounds to infinity, `2^1024 - 2^970`: the
      midpoint between the largest double and `2^1024`. */
  const DoubleLimit: nat := Pow2(OverflowExponent - Precision - 1) * (Pow2(Precision + 1) - 1)

  /** 2^53 and 2^63 as numbers. */
  lemma Pow2Values()
    ensures Pow2(Precision) == 0x20_0000_0000_0000
    ensures Pow2(LongBits) == IntMax + 1
  {
    var one: nat := 1;
    assert Pow2(one) == 2;
    Pow2Square(one, 2);
    Pow2Square(2, 4);
    Pow2Square(4, 16);
    Pow2Square(8, 256);
    Pow2Square(16, 65536);
    var a: nat := 32;
    Pow2Add(a, 16);
    Pow2Add(a + 16, 4);
    Pow2Add(a + 20, 1);
    Pow2Add(a + 16, 8);
    Pow2Add(a + 24, 4);
    Pow2Add(a + 28, 2);
    Pow2Add(a + 30, 1);
  }

  lemma {:induction false} Pow10Add(a: nat, b: nat)
    ensures Pow10(a + b) == Pow10(a) * Pow10(b)
  {
    if b > 0 {
      Pow10Add(a, b - 1);
    }
  }

  /** 10^15 and 10^16 as numbers. */
  lemma Pow10Values()
    ensures Pow10(15) == 1_000_000_000_000_000
    ensures Pow10(16) == 10_000_000_000_000_000
  {
    assert Pow10(5) == 100000;
    var a: nat := 5;
    Pow10Add(a, 5);
    Pow10Add(a + 5, 5);
    Pow10Add(a + 10, 1);
  }

  // ---- reading the numeric prefix ----

  predicate IsDigit(c: char) { '0' <= c <= '9' }

  predicate AllDigits(d: string)
  {
    forall i :: 0 <= i < |d| ==> IsDigit(d[i])
  }

  /** The value of a decimal digit. */
  function DigitValue(c: char): (d: nat)
    requires IsDigit(c)
    ensures d < 10
  {
    (c as int) - ('0' as int)
  }

  /** The longest prefix of `s` made of digits. */
  function DigitPrefix(s: string): (r: string)
    ensures r <= s && AllDigits(r)
    ensures |r| < |s| ==> !IsDigit(s[|r|])
  {
    if s == [] || !IsDigit(s[0]) then [] else [s[0]] + DigitPrefix(s[1..])
  }

  /** The number a string of digits writes in decimal. */
  function DecimalValue(d: string): nat
    requires AllDigits(d)
  {
    if d == [] then 0 else 10 * DecimalValue(d[..|d| - 1]) + DigitValue(d[|d| - 1])
  }

  /** Whitespace before a number. */
  function SkipSpace(s: string): (r: string)
    ensures |r| <= |s| && r == s[|s| - |r|..]
    ensures r != [] ==> !IsSpace(r[0])
  {
    if s != [] && IsSpace(s[0]) then SkipSpace(s[1..]) else s
  }

  /** A numeric prefix: its sign, the digits before the point, whether a
      point follows them, the digits after the point, and the exponent. */
  datatype Numeric = Numeric(negative: bool, whole: string, point: bool, fraction: string, exponent: Option<int>)

  /** The exponent `zend_strtod` reads after the digits: `e` or `E`, an
      optional sign and at least one digit. A magnitude above 19999 is read
      as 19999. */
  function ReadExponent(w: string): (r: Option<int>)
    ensures r.Some? ==> -ExponentCap <= r.value <= ExponentCap
  {
    if w == [] || (w[0] != 'e' && w[0] != 'E') then None
    else
      var x := w[1..];
      var signed := x != [] && (x[0] == '-' || x[0] == '+');
      var d := DigitPrefix(if signed then x[1..] else x);
      if d == [] then None
      else
        var m := if DecimalValue(d) > ExponentCap then ExponentCap else DecimalValue(d);
        Some(if signed && x[0] == '-' then -m else m)
  }

  const ExponentCap: int := 19999

  /** The numeric prefix of a string, after leading whitespace: there is
      one when digits follow the optional sign, or a point and a digit do. */
  function ReadNumeric(s: string): (r: Option<Numeric>)
    ensures r.Some? ==> AllDigits(r.value.whole) && AllDigits(r.value.fraction)
    ensures r.Some? ==> r.value.whole != [] || r.value.fraction != []
    ensures r.Some? && !r.value.point ==> r.value.fraction == []
  {
    var t := SkipSpace(s);
    if t != [] && (t[0] == '-' || t[0] == '+') then ReadUnsigned(t[0] == '-', t[1..])
    else ReadUnsigned(false, t)
  }

  /** The prefix after the sign: the digits, then what follows them. */
  function ReadUnsigned(negative: bool, u: string): (r: Option<Numeric>)
    ensures r.Some? ==> AllDigits(r.value.whole) && AllDigits(r.value.fraction)
    ensures r.Some? ==> r.value.whole != [] || r.value.fraction != []
    ensures r.Some? && !r.value.point ==> r.value.fraction == []
  {
    var whole := DigitPrefix(u);
    ReadFraction(negative, whole, u[|whole|..])
  }

  /** What follows the digits `whole`: a point and more digits, then an
      exponent. */
  function ReadFraction(negative: bool, whole: string, v: string): (r: Option<Numeric>)
    requires AllDigits(whole)
    ensures r.Some? ==> r.value.whole == whole && AllDigits(r.value.fraction)
    ensures r.Some? ==> r.value.whole != [] || r.value.fraction != []
    ensures r.Some? && !r.value.point ==> r.value.fraction == []
  {
    var point := v != [] && v[0] == '.';
    var fraction := if point then DigitPrefix(v[1..]) else [];
    if whole == [] && fraction == [] then None
    else
      var w := if point then v[1 + |fraction|..] else v;
      Some(Numeric(negative, whole, point, fraction, ReadExponent(w)))
  }

  /** After the sign there is a numeric prefix exactly when the text starts
      with a digit, or with a point and a digit. */
  lemma ReadUnsignedPresence(negative: bool, u: string)
    ensures ReadUnsigned(negative, u).Some? <==> (u != [] && IsDigit(u[0])) || (|u| >= 2 && u[0] == '.' && IsDigit(u[1]))
  {
    if u != [] && !IsDigit(u[0]) {
      assert DigitPrefix(u) == [];
      assert u[0..] == u;
      if u[0] == '.' && |u| >= 2 && IsDigit(u[1]) {
        assert DigitPrefix(u[1..]) != [];
      }
    }
  }

  /** The magnitude of a numeric prefix as a fraction `num / den`. */
  function Magnitude(n: Numeric): (r: (nat, nat))
    requires AllDigits(n.whole) && AllDigits(n.fraction)
    ensures r.1 >= 1
  {
    var digits := n.whole + n.fraction;
    assert AllDigits(digits) by {
      forall i | 0 <= i < |digits| ensures IsDigit(digits[i]) {
        if i >= |n.whole| { assert digits[i] == n.fraction[i - |n.whole|]; }
      }
    }
    var m := DecimalValue(digits);
    var e := (if n.exponent.Some? then n.exponent.value else 0) - |n.fraction|;
    if e >= 0 then (m * Pow10(e), 1) else (m, Pow10(-e))
  }

  // ---- rounding to a double ----

  /** `num / den >= 2^e`, in integers. */
  predicate AtLeastPow2(num: nat, den: nat, e: int)
  {
    if e >= 0 then num >= den * Pow2(e) else num * Pow2(-e) >= den
  }

  /** Below a power of two that `num / den` reaches, every power is reached. */
  lemma AtLeastPow2Down(num: nat, den: nat, e: int, f: int)
    requires f <= e && AtLeastPow2(num, den, e)
    ensures AtLeastPow2(num, den, f)
  {
    if f >= 0 {
      Pow2Le(f, e);
      MulLe(Pow2(f), Pow2(e), den);
    } else if e >= 0 {
      MulLe(1, Pow2(-f), num);
      MulLe(1, Pow2(e), den);
    } else {
      Pow2Le(-e, -f);
      MulLe(Pow2(-e), Pow2(-f), num);
    }
  }

  /** The number of binary digits of `n`. */
  function Bits(n: nat): (b: nat)
    ensures n == 0 ==> b == 0
    ensures n >= 1 ==> b >= 1 && Pow2(b - 1) <= n < Pow2(b)
  {
    if n == 0 then 0 else 1 + Bits(n / 2)
  }

  /** With `e0` the difference of the binary lengths, `num / den` lies
      between `2^(e0 - 1)` and `2^(e0 + 1)`. */
  lemma Log2Bounds(num: nat, den: nat, e0: int)
    requires num >= 1 && den >= 1 && e0 == Bits(num) - Bits(den)
    ensures AtLeastPow2(num, den, e0 - 1) && !AtLeastPow2(num, den, e0 + 1)
  {
    var a, b := Bits(num) - 1, Bits(den) - 1;
    assert Pow2(a) <= num < Pow2(a + 1) && Pow2(b) <= den < Pow2(b + 1);
    Log2Upper(num, den, a, b);
    Log2Lower(num, den, a, b);
  }

  lemma Log2Upper(num: nat, den: nat, a: nat, b: nat)
    requires num < Pow2(a + 1) && Pow2(b) <= den
    ensures !AtLeastPow2(num, den, a - b + 1)
  {
    var e := a - b + 1;
    if e >= 0 {
      Pow2Add(b, e);
      MulLe(Pow2(b), den, Pow2(e));
    } else {
      Pow2Add(a + 1, -e);
      MulLt(num, Pow2(a + 1), Pow2(-e));
    }
  }

  lemma Log2Lower(num: nat, den: nat, a: nat, b: nat)
    requires Pow2(a) <= num && den < Pow2(b + 1)
    ensures AtLeastPow2(num, den, a - b - 1)
  {
    var e := a - b - 1;
    if e >= 0 {
      Pow2Add(b + 1, e);
      MulLt(den, Pow2(b + 1), Pow2(e));
    } else {
      Pow2Add(a, -e);
      MulLe(Pow2(a), num, Pow2(-e));
    }
  }

  /** The binary exponent of `num / den`: `2^e <= num / den < 2^(e + 1)`. */
  function Log2(num: nat, den: nat): (e: int)
    requires num >= 1 && den >= 1
    ensures AtLeastPow2(num, den, e) && !AtLeastPow2(num, den, e + 1)
  {
    var e0 := Bits(num) - Bits(den);
    Log2Bounds(num, den, e0);
    if AtLeastPow2(num, den, e0) then e0 else e0 - 1
  }

  /** The binary exponent is the only one with that property. */
  lemma Log2Unique(num: nat, den: nat, e: int)
    requires num >= 1 && den >= 1
    requires AtLeastPow2(num, den, e) && !AtLeastPow2(num, den, e + 1)
    ensures Log2(num, den) == e
  {
    var l := Log2(num, den);
    if l < e {
      AtLeastPow2Down(num, den, e, l + 1);
    } else if l > e {
      AtLeastPow2Down(num, den, l, e + 1);
    }
  }

  /** `num / den / 2^k` as a fraction `sn / sd`. */
  function Scaled(num: nat, den: nat, k: int): (r: (nat, nat))
    requires den >= 1
    ensures r.1 >= 1
  {
    if k >= 0 then (MulLe(1, den, Pow2(k)); (num, den * Pow2(k))) else (num * Pow2(-k), den)
  }

  /** `q` is a nearest integer to `sn / sd`, and an even one on a tie. */
  predicate RoundsTo(sn: int, sd: int, q: int)
  {
    && 2 * q * sd <= 2 * sn + sd
    && 2 * sn <= 2 * q * sd + sd
    && (2 * q * sd == 2 * sn + sd || 2 * sn == 2 * q * sd + sd ==> q % 2 == 0)
  }

  /** The integer nearest to `sn / sd`, ties to even. */
  function RoundHalfEven(sn: nat, sd: nat): (q: nat)
    requires sd >= 1
    ensures RoundsTo(sn, sd, q)
    ensures sn / sd <= q <= sn / sd + 1
  {
    var q0 := sn / sd;
    var rem := sn % sd;
    RoundedNearest(sn, sd, q0, rem);
    if 2 * rem > sd || (2 * rem == sd && q0 % 2 == 1) then q0 + 1 else q0
  }

  /** Rounding the quotient up exactly when the remainder is past half, or
      half with an odd quotient, gives a nearest, even-on-ties integer. */
  lemma RoundedNearest(sn: nat, sd: nat, q0: nat, rem: nat)
    requires sd >= 1 && sn == q0 * sd + rem && rem < sd
    ensures 2 * rem > sd || (2 * rem == sd && q0 % 2 == 1) ==> RoundsTo(sn, sd, q0 + 1)
    ensures !(2 * rem > sd || (2 * rem == sd && q0 % 2 == 1)) ==> RoundsTo(sn, sd, q0)
  {
    var x := q0 * sd;
    assert (q0 + 1) * sd == x + sd;
    assert 2 * (q0 + 1) * sd == 2 * x + 2 * sd;
    assert 2 * q0 * sd == 2 * x;
  }

  /** The exponent of the last significand bit of the double nearest to
      `num / den`: `Precision - 1` below the binary exponent, but never
      below `MinExponent`. */
  function LastBit(num: nat, den: nat): int
    requires num >= 1 && den >= 1
  {
    var e := Log2(num, den);
    if e - (Precision - 1) < MinExponent then MinExponent else e - (Precision - 1)
  }

  /** The double nearest to `num / den`, ties to even, as `q * 2^k`: the
      scaled value `num / den / 2^k` rounds to `q`, `k` is at least
      `MinExponent`, and above it the significand has exactly `Precision`
      bits (or is `2^Precision` after rounding up). */
  function NearestDouble(num: nat, den: nat): (r: (nat, int))
    requires num >= 1 && den >= 1
    ensures r.1 >= MinExponent
    ensures RoundsTo(Scaled(num, den, r.1).0, Scaled(num, den, r.1).1, r.0)
    ensures r.1 > MinExponent ==> Pow2(Precision - 1) <= r.0 <= Pow2(Precision)
  {
    var k := LastBit(num, den);
    var q := RoundHalfEven(Scaled(num, den, k).0, Scaled(num, den, k).1);
    if k > MinExponent then NormalSignificand(num, den, Log2(num, den), k, q); (q, k) else (q, k)
  }

  /** Above the subnormal range the scaled value lies in
      `[2^(Precision - 1), 2^Precision)`, so its rounding lies in the closed
      range. */
  lemma NormalSignificand(num: nat, den: nat, e: int, k: int, q: nat)
    requires num >= 1 && den >= 1
    requires AtLeastPow2(num, den, e) && !AtLeastPow2(num, den, e + 1)
    requires k == e - (Precision - 1)
    requires Scaled(num, den, k).0 / Scaled(num, den, k).1 <= q <= Scaled(num, den, k).0 / Scaled(num, den, k).1 + 1
    ensures Pow2(Precision - 1) <= q <= Pow2(Precision)
  {
    var sn, sd := Scaled(num, den, k).0, Scaled(num, den, k).1;
    AtLeastScaled(num, den, k, Precision - 1, e);
    AtLeastScaled(num, den, k, Precision, e + 1);
    QuotientRange(sn, sd, Pow2(Precision - 1), Pow2(Precision), q);
  }

  /** A number within one of `a / c` lies in `[lo, hi]` when `a / c` lies in
      `[lo, hi)`. */
  lemma QuotientRange(a: nat, c: nat, lo: nat, hi: nat, q: nat)
    requires c >= 1 && a >= c * lo && a < c * hi
    requires a / c <= q <= a / c + 1
    ensures lo <= q <= hi
  {
    DivLower(a, lo, c);
    DivUpper(a, hi, c);
  }

  /** Comparing `num / den` with `2^(k + p)` is comparing the scaled value
      with `2^p`. */
  lemma AtLeastScaled(num: nat, den: nat, k: int, p: nat, f: int)
    requires den >= 1 && f == k + p
    ensures AtLeastPow2(num, den, f) <==> Scaled(num, den, k).0 >= Scaled(num, den, k).1 * Pow2(p)
  {
    if k >= 0 {
      assert Scaled(num, den, k) == (num, den * Pow2(k));
      AtLeastScaledUp(num, den, k, p);
    } else if k + p >= 0 {
      assert Scaled(num, den, k) == (num * Pow2(-k), den);
      AtLeastScaledMid(num, den, -k, k + p);
    } else {
      assert Scaled(num, den, k) == (num * Pow2(-k), den);
      AtLeastScaledDown(num, den, -(k + p), p);
    }
  }

  lemma AtLeastScaledUp(num: nat, den: nat, k: nat, p: nat)
    ensures num >= den * Pow2(k + p) <==> num >= den * Pow2(k) * Pow2(p)
  {
    Pow2Add(k, p);
    var a, b := Pow2(k), Pow2(p);
    assert den * (a * b) == den * a * b;
  }

  lemma AtLeastScaledMid(num: nat, den: nat, j: nat, f: nat)
    ensures num >= den * Pow2(f) <==> num * Pow2(j) >= den * Pow2(f + j)
  {
    Pow2Add(f, j);
    var a, b := Pow2(f), Pow2(j);
    assert den * (a * b) == den * a * b;
    MulCancel(num, den * a, b);
  }

  lemma AtLeastScaledDown(num: nat, den: nat, j: nat, p: nat)
    ensures num * Pow2(j) >= den <==> num * Pow2(j + p) >= den * Pow2(p)
  {
    Pow2Add(j, p);
    var a, b := Pow2(j), Pow2(p);
    assert num * (a * b) == num * a * b;
    MulCancel(num * a, den, b);
  }

  lemma MulCancel(a: nat, b: nat, c: nat)
    requires c >= 1
    ensures a * c >= b * c <==> a >= b
  {
    if a >= b {
      MulLe(b, a, c);
    } else {
      MulLt(a, b, c);
    }
  }

  lemma DivLower(a: nat, b: nat, c: nat)
    requires c >= 1 && a >= c * b
    ensures a / c >= b
  {
    if a / c < b {
      MulLe(a / c + 1, b, c);
    }
  }

  lemma DivUpper(a: nat, b: nat, c: nat)
    requires c >= 1 && a < c * b
    ensures a / c < b
  {
    if a / c >= b {
      MulLe(b, a / c, c);
    }
  }

  /** Out-of-range results stick at the 64-bit bounds. */
  function Saturate(n: int): (r: int)
    ensures IntMin <= r <= IntMax
    ensures IntMin <= n <= IntMax ==> r == n
  {
    if n > IntMax then IntMax else if n < IntMin then IntMin else n
  }

  /** `m` with its sign. */
  function Signed(negative: bool, m: nat): int
  {
    if negative then -(m as int) else m
  }

  /** `zend_dval_to_lval_cap` of the double `q * 2^k`, negated when
      `negative`: 0 when the double is infinite (its binary length reaches
      past `OverflowExponent`, see `InfiniteDouble`), otherwise its integer
      part toward zero, saturated at the 64-bit bounds. */
  function DoubleToInt(negative: bool, q: nat, k: int): (r: int)
    ensures IntMin <= r <= IntMax
  {
    if k >= 0 && Bits(q) + k > OverflowExponent then 0
    else Saturate(Signed(negative, IntegerPart(q, k)))
  }

  /** The integer part of `q * 2^k`. */
  function IntegerPart(q: nat, k: int): nat
  {
    if k >= 0 then q * Pow2(k) else Quotient(q, Pow2(-k))
  }

  function Quotient(a: nat, b: nat): nat
    requires b >= 1
  {
    a / b
  }

  /** `q * 2^k` with `q >= 1` reaches `2^top` exactly when its binary
      length `Bits(q) + k` exceeds `top`. */
  lemma InfiniteDouble(q: nat, k: nat, top: nat)
    requires q >= 1
    ensures q * Pow2(k) >= Pow2(top) <==> Bits(q) + k > top
  {
    if k <= top {
      ScaledReach(q, k, top);
      BitsReach(q, k, top);
    } else {
      Pow2Le(top, k);
      MulLe(1, q, Pow2(k));
    }
  }

  lemma ScaledReach(q: nat, k: nat, top: nat)
    requires k <= top
    ensures q * Pow2(k) >= Pow2(top) <==> q >= Pow2(top - k)
  {
    var j := top - k;
    Pow2Add(j, k);
    assert j + k == top;
    MulCancel(q, Pow2(j), Pow2(k));
  }

  /** `q` reaches `2^(top - k)` exactly when it has more than `top - k`
      binary digits. */
  lemma BitsReach(q: nat, k: nat, top: nat)
    requires q >= 1 && k <= top
    ensures q >= Pow2(top - k) <==> Bits(q) + k > top
  {
    var b, j := Bits(q), top - k;
    if b > j {
      Pow2Le(j, b - 1);
    } else {
      Pow2Le(b, j);
    }
  }

  /** An integer-form prefix whose value fits: digits only, at most
      `IntMax`, or `IntMax + 1` behind a minus sign. */
  predicate FitsLong(n: Numeric)
    requires AllDigits(n.whole)
  {
    var m := DecimalValue(n.whole);
    !n.point && n.exponent.None? && (m <= IntMax || (n.negative && m == IntMax + 1))
  }

  /** `(int)` of a string. */
  function StringToInt(s: string): (r: int)
    ensures IntMin <= r <= IntMax
    ensures ReadNumeric(s).None? ==> r == 0
  {
    match ReadNumeric(s)
    case None => 0
    case Some(n) => NumericToInt(n)
  }

  /** `(int)` of a numeric prefix: an integer-form prefix that fits is
      exact, every other one goes through the nearest double. */
  function NumericToInt(n: Numeric): (r: int)
    requires AllDigits(n.whole) && AllDigits(n.fraction)
    ensures IntMin <= r <= IntMax
  {
    if FitsLong(n) then Signed(n.negative, DecimalValue(n.whole))
    else
      var (num, den) := Magnitude(n);
      if num == 0 then 0
      else
        var (q, k) := NearestDouble(num, den);
        DoubleToInt(n.negative, q, k)
  }

  // ---- numerals ----

  /** The decimal numeral of a natural number. */
  function Numeral(n: nat): (r: string)
    ensures r != [] && AllDigits(r)
  {
    if n < 10 then [DigitChar(n)] else Numeral(n / 10) + [DigitChar(n % 10)]
  }

  function DigitChar(d: nat): (c: char)
    requires d < 10
    ensures IsDigit(c) && DigitValue(c) == d
  {
    ('0' as int + d) as char
  }

  /** `j` nines. */
  function Nines(j: nat): (r: string)
    ensures |r| == j && AllDigits(r)
  {
    if j == 0 then [] else Nines(j - 1) + ['9']
  }

  /** Reading a numeral back gives the number. */
  lemma {:induction false} DecimalValueOfNumeral(n: nat)
    ensures DecimalValue(Numeral(n)) == n
  {
    if n >= 10 {
      DecimalValueOfNumeral(n / 10);
      var r := Numeral(n);
      assert r[..|r| - 1] == Numeral(n / 10);
    }
  }

  lemma {:induction false} DecimalValueOfNines(j: nat)
    ensures DecimalValue(Nines(j)) == Pow10(j) - 1
  {
    if j > 0 {
      DecimalValueOfNines(j - 1);
      assert Nines(j)[..j - 1] == Nines(j - 1);
    }
  }

  lemma AllDigitsAppend(a: string, b: string)
    requires AllDigits(a) && AllDigits(b)
    ensures AllDigits(a + b)
  {
    forall i | 0 <= i < |a + b| ensures IsDigit((a + b)[i]) {
      if i >= |a| { assert (a + b)[i] == b[i - |a|]; }
    }
  }

  /** The digits of `a` then `b` write `a`'s number shifted by `|b|` places
      plus `b`'s number. */
  lemma {:induction false} DecimalValueAppend(a: string, b: string)
    requires AllDigits(a) && AllDigits(b)
    ensures AllDigits(a + b)
    ensures DecimalValue(a + b) == DecimalValue(a) * Pow10(|b|) + DecimalValue(b)
  {
    AllDigitsAppend(a, b);
    if b == [] {
      assert a + b == a;
    } else {
      var b' := b[..|b| - 1];
      var c := b[|b| - 1];
      assert (a + b)[..|a + b| - 1] == a + b';
      assert (a + b)[|a + b| - 1] == c;
      DecimalValueAppend(a, b');
      var x, p := DecimalValue(a), Pow10(|b'|);
      assert DecimalValue(a + b) == 10 * DecimalValue(a + b') + DigitValue(c);
      assert DecimalValue(b) == 10 * DecimalValue(b') + DigitValue(c);
      assert Pow10(|b|) == 10 * p;
      ShiftDigit(x, p, DecimalValue(b'), DigitValue(c));
    }
  }

  lemma ShiftDigit(x: nat, p: nat, y: nat, c: nat)
    ensures 10 * (x * p + y) + c == x * (10 * p) + (10 * y + c)
  {
  }

  /** Digits followed by a non-digit: the digit prefix stops there. */
  lemma {:induction false} DigitPrefixStop(d: string, rest: string)
    requires AllDigits(d)
    requires rest == [] || !IsDigit(rest[0])
    ensures DigitPrefix(d + rest) == d
  {
    if d != [] {
      assert (d + rest)[1..] == d[1..] + rest;
      DigitPrefixStop(d[1..], rest);
    } else {
      assert d + rest == rest;
    }
  }

  /** A string that starts with a digit or a sign has no leading
      whitespace. */
  lemma NoLeadingSpace(t: string)
    requires t != [] && (IsDigit(t[0]) || t[0] == '-' || t[0] == '+')
    ensures SkipSpace(t) == t
  {
  }

  /** Digits, then what follows them. */
  lemma ReadDigitsThen(negative: bool, d: string, rest: string)
    requires AllDigits(d)
    requires rest == [] || !IsDigit(rest[0])
    ensures ReadUnsigned(negative, d + rest) == ReadFraction(negative, d, rest)
  {
    DigitPrefixStop(d, rest);
    assert (d + rest)[|d|..] == rest;
  }

  /** Digits with nothing after them are an integer-form prefix. */
  lemma ReadFractionEnd(negative: bool, d: string)
    requires AllDigits(d) && d != []
    ensures ReadFraction(negative, d, []) == Some(Numeric(negative, d, false, [], None))
  {
    assert ReadExponent([]) == None;
  }

  /** A point and digits after the digits `d` give a fraction and no
      exponent. */
  lemma ReadFractionPoint(negative: bool, d: string, f: string)
    requires AllDigits(d) && AllDigits(f) && d != []
    ensures ReadFraction(negative, d, ['.'] + f) == Some(Numeric(negative, d, true, f, None))
  {
    var v := ['.'] + f;
    assert v[1..] == f;
    DigitPrefixStop(f, []);
    assert f + [] == f;
    assert v[1 + |f|..] == [];
    assert ReadExponent([]) == None;
  }

  /** A numeral is read as an integer-form prefix. */
  lemma ReadNumeral(n: nat)
    ensures ReadNumeric(Numeral(n)) == Some(Numeric(false, Numeral(n), false, [], None))
  {
    var d := Numeral(n);
    NoLeadingSpace(d);
    ReadDigitsThen(false, d, []);
    assert d + [] == d;
    ReadFractionEnd(false, d);
  }

  /** A numeral behind a sign is read with that sign. */
  lemma ReadSignedNumeral(sign: char, n: nat)
    requires sign == '+' || sign == '-'
    ensures ReadNumeric([sign] + Numeral(n)) == Some(Numeric(sign == '-', Numeral(n), false, [], None))
  {
    var d := Numeral(n);
    var t := [sign] + d;
    NoLeadingSpace(t);
    assert t[1..] == d + [];
    ReadDigitsThen(sign == '-', d, []);
    ReadFractionEnd(sign == '-', d);
  }

  /** A numeral, a point and digits are read as a prefix with a fraction
      and no exponent. */
  lemma ReadDecimal(n: nat, f: string)
    requires AllDigits(f)
    ensures ReadNumeric(Numeral(n) + ['.'] + f) == Some(Numeric(false, Numeral(n), true, f, None))
  {
    var d := Numeral(n);
    var s := d + (['.'] + f);
    assert d + ['.'] + f == s;
    NoLeadingSpace(s);
    ReadDigitsThen(false, d, ['.'] + f);
    ReadFractionPoint(false, d, f);
  }

  // ---- integers beyond 64 bits ----

  /** An integer above `IntMax` has a double of at least `2^63`, and that
      double is infinite exactly from `DoubleLimit` on. */
  lemma IntegerDouble(negative: bool, n: nat)
    requires n > IntMax
    ensures DoubleToInt(negative, NearestDouble(n, 1).0, NearestDouble(n, 1).1)
         == if n < DoubleLimit then (if negative then IntMin else IntMax) else 0
  {
    var e := Log2(n, 1);
    var q, k := NearestDouble(n, 1).0, NearestDouble(n, 1).1;
    IntegerRounding(n, e, q, k);
    DoubleLimitShape();
    BinadeOverflow(n, e, k, q, Precision, OverflowExponent, DoubleLimit);
    LargeDouble(q, e, k);
    LargeDoubleToInt(negative, q, k, n >= DoubleLimit);
  }

  /** Every 64-bit integer, and `2^63`, is below `DoubleLimit`. */
  lemma DoubleLimitAboveLong()
    ensures DoubleLimit > IntMax + 1
  {
    var p, w := Pow2(OverflowExponent - Precision - 1), Pow2(Precision + 1);
    DoubleLimitShape();
    assert DoubleLimit == p * (w - 1);
    Pow2Le(LongBits, OverflowExponent - Precision - 1);
    Pow2Values();
    MulLe(2, w - 1, p);
  }

  /** `DoubleLimit` in the terms of `BinadeOverflow`. */
  lemma DoubleLimitShape()
    ensures DoubleLimit == Pow2(OverflowExponent - Precision - 1) * (Pow2(Precision + 1) - 1)
  {
  }

  /** A finite double above `IntMax` saturates; an infinite one gives 0. */
  lemma LargeDoubleToInt(negative: bool, q: nat, k: nat, infinite: bool)
    requires q * Pow2(k) > IntMax
    requires Bits(q) + k > OverflowExponent <==> infinite
    ensures DoubleToInt(negative, q, k) == if infinite then 0 else if negative then IntMin else IntMax
  {
  }

  /** The double nearest to an integer above `IntMax` is `q * 2^k` with
      `k = e - 52` for its binary exponent `e`, and a normal significand. */
  lemma IntegerRounding(n: nat, e: int, q: nat, k: int)
    requires n > IntMax
    requires e == Log2(n, 1) && (q, k) == NearestDouble(n, 1)
    ensures e >= LongBits && Pow2(e) <= n < Pow2(e + 1)
    ensures k == e - Precision + 1 && RoundsTo(n, Pow2(k), q)
    ensures Pow2(Precision - 1) <= q <= Pow2(Precision)
  {
    IntegerExponent(n, e);
    assert k == e - Precision + 1;
    assert Scaled(n, 1, k) == (n, Pow2(k));
  }

  /** The binary exponent of an integer above `IntMax` is at least 63. */
  lemma IntegerExponent(n: nat, e: int)
    requires n > IntMax
    requires AtLeastPow2(n, 1, e) && !AtLeastPow2(n, 1, e + 1)
    ensures e >= LongBits && Pow2(e) <= n < Pow2(e + 1)
  {
    Pow2Values();
    if e < LongBits {
      AtLeastPow2Down(n, 1, LongBits, e + 1);
    }
  }

  /** A double with binary exponent `e >= 63` is at least `2^63`. */
  lemma LargeDouble(q: nat, e: nat, k: nat)
    requires e >= LongBits && k == e - Precision + 1
    requires Pow2(Precision - 1) <= q
    ensures q * Pow2(k) > IntMax
  {
    Pow2Add(Precision - 1, k);
    assert Precision - 1 + k == e;
    MulLe(Pow2(Precision - 1), q, Pow2(k));
    Pow2Le(LongBits, e);
    Pow2Values();
  }

  /** For an integer `n` with binary exponent `e` rounded to `q * 2^k`, with
      `k = e - prec + 1`, the double reaches `2^top` exactly when `n` reaches
      `2^(top - prec - 1) * (2^(prec + 1) - 1)`, the midpoint between the
      largest finite double and `2^top`. */
  lemma BinadeOverflow(n: nat, e: nat, k: nat, q: nat, prec: nat, top: nat, limit: nat)
    requires prec >= 1 && top >= prec + 2 && k == e - prec + 1
    requires limit == Pow2(top - prec - 1) * (Pow2(prec + 1) - 1)
    requires Pow2(e) <= n < Pow2(e + 1)
    requires RoundsTo(n, Pow2(k), q)
    requires Pow2(prec - 1) <= q <= Pow2(prec)
    ensures Bits(q) + k > top <==> n >= limit
  {
    BinadeReach(n, e, k, q, prec, top);
    InfiniteDouble(q, k, top);
  }

  lemma BinadeReach(n: nat, e: nat, k: nat, q: nat, prec: nat, top: nat)
    requires prec >= 1 && top >= prec + 2 && k == e - prec + 1
    requires Pow2(e) <= n < Pow2(e + 1)
    requires RoundsTo(n, Pow2(k), q)
    requires Pow2(prec - 1) <= q <= Pow2(prec)
    ensures q * Pow2(k) >= Pow2(top) <==> n >= Pow2(top - prec - 1) * (Pow2(prec + 1) - 1)
  {
    if e >= top {
      AboveTop(n, e, k, q, prec, top);
    } else if e <= top - 2 {
      BelowTop(n, e, k, q, prec, top);
    } else {
      AtTop(n, e, k, q, prec, top);
    }
  }

  /** The powers around the overflow threshold, with `w = 2^prec` and
      `p = 2^(top - prec - 1)`. */
  lemma LimitShape(prec: nat, top: nat)
    requires prec >= 1 && top >= prec + 2
    ensures Pow2(prec) == 2 * Pow2(prec - 1)
    ensures Pow2(prec + 1) == 2 * Pow2(prec)
    ensures Pow2(top - prec) == 2 * Pow2(top - prec - 1)
    ensures Pow2(top - 1) == Pow2(prec) * Pow2(top - prec - 1)
    ensures Pow2(top) == 2 * Pow2(prec) * Pow2(top - prec - 1)
  {
    Pow2Add(top - prec - 1, prec);
    assert top - prec - 1 + prec == top - 1;
  }

  /** The midpoint below `2^top` in terms of `w = 2^prec` and
      `p = 2^(top - prec - 1)`. */
  lemma LimitTerms(prec: nat, top: nat, w: nat, p: nat)
    requires prec >= 1 && top >= prec + 2
    requires w == Pow2(prec) && p == Pow2(top - prec - 1)
    ensures Pow2(top - prec - 1) * (Pow2(prec + 1) - 1) == p * (2 * w - 1)
  {
    LimitShape(prec, top);
  }

  /** At or above the binade of `2^top` both sides hold. */
  lemma AboveTop(n: nat, e: nat, k: nat, q: nat, prec: nat, top: nat)
    requires prec >= 1 && e >= top && top >= prec + 2 && k == e - prec + 1
    requires Pow2(e) <= n && Pow2(prec - 1) <= q
    ensures q * Pow2(k) >= Pow2(top) && n >= Pow2(top - prec - 1) * (Pow2(prec + 1) - 1)
  {
    LimitShape(prec, top);
    var w, p := Pow2(prec), Pow2(top - prec - 1);
    LimitTerms(prec, top, w, p);
    Pow2Add(prec - 1, k);
    assert prec - 1 + k == e;
    MulLe(Pow2(prec - 1), q, Pow2(k));
    Pow2Le(top, e);
    TopProducts(w, p);
  }

  /** Two binades or more below `2^top` neither side holds. */
  lemma BelowTop(n: nat, e: nat, k: nat, q: nat, prec: nat, top: nat)
    requires prec >= 1 && e >= prec - 1 && e + 2 <= top && top >= prec + 2 && k == e - prec + 1
    requires n < Pow2(e + 1) && q <= Pow2(prec)
    ensures q * Pow2(k) < Pow2(top) && n < Pow2(top - prec - 1) * (Pow2(prec + 1) - 1)
  {
    LimitShape(prec, top);
    var w, p := Pow2(prec), Pow2(top - prec - 1);
    LimitTerms(prec, top, w, p);
    Pow2Add(prec, k);
    assert prec + k == e + 1;
    MulLe(q, w, Pow2(k));
    Pow2Le(e + 1, top - 1);
    TopProducts(w, p);
    MulLe(2, w, p);
  }

  /** In the binade just below `2^top` the rounding decides. */
  lemma AtTop(n: nat, e: nat, k: nat, q: nat, prec: nat, top: nat)
    requires prec >= 1 && top >= prec + 2 && e == top - 1 && k == e - prec + 1
    requires RoundsTo(n, Pow2(k), q)
    requires Pow2(prec - 1) <= q <= Pow2(prec)
    ensures q * Pow2(k) >= Pow2(top) <==> n >= Pow2(top - prec - 1) * (Pow2(prec + 1) - 1)
  {
    LimitShape(prec, top);
    var w, p := Pow2(prec), Pow2(top - prec - 1);
    LimitTerms(prec, top, w, p);
    assert k == top - prec;
    assert RoundsTo(n, 2 * p, q);
    OverflowAtTop(n, q, w, p);
  }

  lemma TopProducts(w: nat, p: nat)
    requires w >= 1
    ensures (w - 1) * (2 * p) == 2 * (w * p) - 2 * p
    ensures w * (2 * p) == 2 * (w * p)
    ensures p * (2 * w - 1) == 2 * (w * p) - p
    ensures 2 * w * p == 2 * (w * p)
  {
  }

  /** The binade just below `2^top`, where the unit in the last place is
      `2p`: the significand rounds up to `w`, and the double to `2^top`,
      exactly from the midpoint `p * (2w - 1)` on. Ties go to the even
      significand `w`. */
  lemma OverflowAtTop(n: nat, q: nat, w: nat, p: nat)
    requires w >= 2 && w % 2 == 0 && p >= 1 && q <= w
    requires RoundsTo(n, 2 * p, q)
    ensures q * (2 * p) >= 2 * w * p <==> n >= p * (2 * w - 1)
  {
    TopProducts(w, p);
    if q < w {
      MulLe(q, w - 1, 2 * p);
    }
    MulCancel(q, w - 1, 2 * p);
    MulCancel(w - 1, q, 2 * p);
  }

  /** An integer-form prefix beyond the 64-bit range is cast through its
      double: saturated while that is finite, 0 once it is infinite. */
  lemma IntegerToInt(negative: bool, d: string)
    requires AllDigits(d)
    requires !FitsLong(Numeric(negative, d, false, [], None))
    ensures NumericToInt(Numeric(negative, d, false, [], None))
         == if DecimalValue(d) < DoubleLimit then (if negative then IntMin else IntMax) else 0
  {
    var x := Numeric(negative, d, false, [], None);
    assert d + [] == d;
    assert Magnitude(x) == (DecimalValue(d), 1);
    IntegerDouble(negative, DecimalValue(d));
  }

  /** Every integer-form prefix is cast to its signed value, saturated at
      the 64-bit bounds, and to 0 from `DoubleLimit` on. */
  lemma IntegerFormToInt(negative: bool, d: string)
    requires AllDigits(d)
    ensures NumericToInt(Numeric(negative, d, false, [], None))
         == if DecimalValue(d) < DoubleLimit then Saturate(Signed(negative, DecimalValue(d))) else 0
  {
    var x, m := Numeric(negative, d, false, [], None), DecimalValue(d);
    DoubleLimitAboveLong();
    if FitsLong(x) {
      assert m <= IntMax || (negative && m == IntMax + 1);
      assert NumericToInt(x) == Signed(negative, m);
    } else {
      IntegerToInt(negative, d);
    }
  }

  /** A typed numeral is cast to its number, saturated at `IntMax`, and to 0
      from `DoubleLimit` on, where its double is infinite. */
  lemma NumeralRoundTrip(n: nat)
    ensures n < DoubleLimit ==> StringToInt(Numeral(n)) == Saturate(n)
    ensures n >= DoubleLimit ==> StringToInt(Numeral(n)) == 0
  {
    ReadNumeral(n);
    DecimalValueOfNumeral(n);
    IntegerFormToInt(false, Numeral(n));
  }

  /** The same behind a sign: `+` keeps the number and `-` negates it, with
      `-2^63` still an integer. */
  lemma SignedNumeralRoundTrip(sign: char, n: nat)
    requires sign == '+' || sign == '-'
    ensures n < DoubleLimit ==> StringToInt([sign] + Numeral(n)) == Saturate(Signed(sign == '-', n))
    ensures n >= DoubleLimit ==> StringToInt([sign] + Numeral(n)) == 0
  {
    ReadSignedNumeral(sign, n);
    DecimalValueOfNumeral(n);
    IntegerFormToInt(sign == '-', Numeral(n));
  }

  // ---- decimals ----

  /** A prefix with a point is always cast through its double. */
  lemma PointFormToInt(x: Numeric)
    requires AllDigits(x.whole) && AllDigits(x.fraction) && x.point
    ensures NumericToInt(x) == if Magnitude(x).0 == 0 then 0
      else DoubleToInt(x.negative, NearestDouble(Magnitude(x).0, Magnitude(x).1).0, NearestDouble(Magnitude(x).0, Magnitude(x).1).1)
  {
  }

  /** The magnitude of `n.f` is `(n * 10^|f| + f) / 10^|f|`. */
  lemma DecimalMagnitude(n: nat, f: string)
    requires AllDigits(f)
    ensures Magnitude(Numeric(false, Numeral(n), true, f, None)) == (n * Pow10(|f|) + DecimalValue(f), Pow10(|f|))
  {
    DecimalValueOfNumeral(n);
    DecimalValueAppend(Numeral(n), f);
  }

  /** A decimal `n.f` short enough that `(n + 1) * 10^|f| <= 2^53` is cast
      to `n`: its double stays below `n + 1`. */
  lemma DecimalTruncates(n: nat, f: string)
    requires AllDigits(f)
    requires (n + 1) * Pow10(|f|) <= Pow2(Precision)
    ensures StringToInt(Numeral(n) + ['.'] + f) == n
  {
    var x := Numeric(false, Numeral(n), true, f, None);
    ReadDecimal(n, f);
    CastOfPrefix(Numeral(n) + ['.'] + f, x);
    PointFormToInt(x);
    DecimalMagnitude(n, f);
    var num, d := Magnitude(x).0, Magnitude(x).1;
    DigitsBelow(f);
    if num > 0 {
      ShortDecimalDouble(num, n, DecimalValue(f), d);
    } else {
      ZeroNumerator(num, n, DecimalValue(f), d);
    }
  }

  lemma ZeroNumerator(num: nat, n: nat, frac: nat, d: nat)
    requires num == n * d + frac && d >= 1 && num == 0
    ensures n == 0
  {
    MulLe(1, d, n);
  }

  /** The cast of a string is the cast of its numeric prefix. */
  lemma CastOfPrefix(s: string, x: Numeric)
    requires ReadNumeric(s) == Some(x)
    ensures AllDigits(x.whole) && AllDigits(x.fraction)
    ensures StringToInt(s) == NumericToInt(x)
  {
  }

  /** A string of `j` digits writes a number below `10^j`. */
  lemma {:induction false} DigitsBelow(f: string)
    requires AllDigits(f)
    ensures DecimalValue(f) < Pow10(|f|)
  {
    if f != [] {
      DigitsBelow(f[..|f| - 1]);
    }
  }

  /** The double nearest to `n + frac / d`, with `frac < d` and
      `(n + 1) * d <= 2^53`, has integer part `n`. */
  lemma ShortDecimalDouble(num: nat, n: nat, frac: nat, d: nat)
    requires num == n * d + frac && num >= 1
    requires frac < d && (n + 1) * d <= Pow2(Precision)
    ensures DoubleToInt(false, NearestDouble(num, d).0, NearestDouble(num, d).1) == n
  {
    var q, k := NearestDouble(num, d).0, NearestDouble(num, d).1;
    var e := Log2(num, d);
    ShortBounds(n, frac, d, Pow2(Precision));
    ShortExponent(num, d, e, Precision);
    var kk: nat := Precision - 1 - e;
    ShortScaled(num, d, e, k, kk);
    HalfStepAboveDen(num, d, e, kk, Precision);
    ShortRounded(num, n, frac, d, q, k, kk);
  }

  /** The rounding `q * 2^k` of `num / d`, with half a step `2^-(kk + 1)`
      below `1 / d`, has integer part `n`. */
  lemma ShortRounded(num: nat, n: nat, frac: nat, d: nat, q: nat, k: int, kk: nat)
    requires num == n * d + frac && frac < d && n + 1 <= Pow2(Precision)
    requires k == -(kk as int) && d < 2 * Pow2(kk)
    requires RoundsTo(num * Pow2(kk), d, q)
    ensures DoubleToInt(false, q, k) == n
  {
    DecimalBracket(num, n, d, frac, q, Pow2(kk), num * Pow2(kk));
    TruncatesTo(q, n, kk, Pow2(kk), k);
  }

  /** `n + frac / d` with `(n + 1) * d <= w` is below `w`, and so are its
      numerator and denominator. */
  lemma ShortBounds(n: nat, frac: nat, d: nat, w: nat)
    requires frac < d && (n + 1) * d <= w
    ensures n * d + frac < w && d <= w && n + 1 <= w
    ensures n * d + frac < d * w
  {
    AddOneMul(n, d);
    MulLe(1, n + 1, d);
    MulLe(1, d, n + 1);
    MulLe(1, d, w);
  }

  /** A value below `2^prec` and at least `1 / 2^prec` has a binary exponent
      between `-prec` and `prec - 1`. */
  lemma ShortExponent(num: nat, d: nat, e: int, prec: nat)
    requires d >= 1 && num >= 1 && num < d * Pow2(prec) && d <= Pow2(prec)
    requires AtLeastPow2(num, d, e) && !AtLeastPow2(num, d, e + 1)
    ensures -(prec as int) <= e < prec
  {
    ExponentBelow(num, d, e, prec);
    ExponentAbove(num, d, e, prec);
  }

  lemma ExponentBelow(num: nat, d: nat, e: int, prec: nat)
    requires num < d * Pow2(prec) && AtLeastPow2(num, d, e)
    ensures e < prec
  {
    if e >= prec {
      AtLeastPow2Down(num, d, e, prec);
    }
  }

  lemma ExponentAbove(num: nat, d: nat, e: int, prec: nat)
    requires num >= 1 && d <= Pow2(prec) && !AtLeastPow2(num, d, e + 1)
    ensures -(prec as int) <= e
  {
    if e < -(prec as int) {
      MulLe(1, num, Pow2(prec));
      assert AtLeastPow2(num, d, -(prec as int));
      AtLeastPow2Down(num, d, -(prec as int), e + 1);
    }
  }

  /** Such a value is a normal double: its last bit has exponent
      `e - 52`, and scaling multiplies the numerator by `2^(52 - e)`. */
  lemma ShortScaled(num: nat, d: nat, e: int, k: int, kk: nat)
    requires num >= 1 && d >= 1 && e == Log2(num, d) && k == NearestDouble(num, d).1
    requires -(Precision as int) <= e < Precision && kk == Precision - 1 - e
    ensures k == -(kk as int)
    ensures RoundsTo(num * Pow2(kk), d, NearestDouble(num, d).0)
  {
    assert LastBit(num, d) == e - (Precision - 1);
    if kk == 0 {
      assert Scaled(num, d, k) == (num, d * 1);
    } else {
      assert Scaled(num, d, k) == (num * Pow2(kk), d);
    }
  }

  /** `d < 2^(K + 1)` for `K = prec - 1 - e`, when `num / d` has binary
      exponent `e` and stays below `2^prec`. */
  lemma HalfStepAboveDen(num: nat, d: nat, e: int, kk: nat, prec: nat)
    requires d >= 1 && num < Pow2(prec) && d <= Pow2(prec)
    requires AtLeastPow2(num, d, e) && kk == prec - 1 - e
    ensures d < 2 * Pow2(kk)
  {
    if e >= 0 {
      assert kk + 1 + e == prec;
      StepAbove(num, d, kk + 1, e);
    } else {
      Pow2Le(prec, kk);
    }
  }

  /** `d * 2^b <= num < 2^(a + b)` puts `d` below `2^a`. */
  lemma StepAbove(num: nat, d: nat, a: nat, b: nat)
    requires num < Pow2(a + b) && num >= d * Pow2(b)
    ensures d < Pow2(a)
  {
    Pow2Add(a, b);
    MulCancel(d, Pow2(a), Pow2(b));
  }

  /** The linear shape of the products in `DecimalBracket`. */
  lemma BracketTerms(n: nat, d: nat, frac: nat, g: nat)
    requires frac <= d
    ensures (n * d + frac) * g == (n * g) * d + frac * g
    ensures ((n + 1) * g) * d == (n * d + frac) * g + (d - frac) * g
    ensures (n + 1) * g == n * g + g
  {
  }

  /** The scaled value `num * g / d`, for `num = n * d + frac`, lies
      between `n * g` and `(n + 1) * g` less half a step, so its rounding
      `q` does too. */
  lemma DecimalBracket(num: nat, n: nat, d: nat, frac: nat, q: nat, g: nat, sn: int)
    requires num == n * d + frac && frac < d && d < 2 * g
    requires sn == num * g && RoundsTo(sn, d, q)
    ensures n * g <= q < n * g + g
  {
    BracketTerms(n, d, frac, g);
    RoundedAbove(n * g, q, d, sn);
    MulLe(1, d - frac, g);
    RoundedBelow((n + 1) * g, q, d, sn, g);
  }

  /** A nearest integer `q` to `s / d` with `s >= a * d` is at least `a`. */
  lemma RoundedAbove(a: nat, q: nat, d: nat, s: int)
    requires d >= 1 && RoundsTo(s, d, q) && s >= a * d
    ensures a <= q
  {
    if q < a {
      AddOneMul(q, d);
      MulLe(q + 1, a, d);
    }
  }

  lemma AddOneMul(q: nat, d: nat)
    ensures (q + 1) * d == q * d + d
  {
  }

  /** A nearest integer `q` to `s / d` with `s + g <= b * d` and `2g > d` is
      below `b`. */
  lemma RoundedBelow(b: nat, q: nat, d: nat, s: int, g: nat)
    requires d >= 1 && RoundsTo(s, d, q) && s + g <= b * d && d < 2 * g
    ensures q < b
  {
    if q >= b {
      MulLe(b, q, d);
    }
  }

  /** A double `q * 2^-K` with `n * 2^K <= q < (n + 1) * 2^K` and
      `n < 2^53` has integer part `n`. */
  lemma TruncatesTo(q: nat, n: nat, kk: nat, g: nat, k: int)
    requires g == Pow2(kk) && n * g <= q < n * g + g && k == -(kk as int)
    requires n + 1 <= Pow2(Precision)
    ensures DoubleToInt(false, q, k) == n
  {
    Pow2Values();
    if kk == 0 {
      assert q == n;
      BitsBelow(q, Precision);
    } else {
      DivLower(q, n, g);
      DivUpper(q, n + 1, g);
    }
  }

  /** A number below `2^j` has at most `j` binary digits. */
  lemma BitsBelow(q: nat, j: nat)
    requires q < Pow2(j)
    ensures Bits(q) <= j
  {
    if q >= 1 {
      BitsReach(q, 0, j);
    }
  }

  /** One point and nines: with at most 15 nines the cast gives 1, and with
      16 or more the double rounds up to 2. */
  lemma OnePointNines(j: nat)
    ensures StringToInt(['1', '.'] + Nines(j)) == if j < 16 then 1 else 2
  {
    var s := Numeral(1) + ['.'] + Nines(j);
    assert Numeral(1) == ['1'];
    assert ['1', '.'] + Nines(j) == s;
    if j < 16 {
      FewNines(j);
      DecimalTruncates(1, Nines(j));
    } else {
      var x := Numeric(false, Numeral(1), true, Nines(j), None);
      ReadDecimal(1, Nines(j));
      CastOfPrefix(s, x);
      PointFormToInt(x);
      DecimalMagnitude(1, Nines(j));
      DecimalValueOfNines(j);
      var num, d := Magnitude(x).0, Magnitude(x).1;
      ManyNines(j);
      RoundsUpToTwo(num, d);
    }
  }

  /** Up to 15 nines, `2 * 10^j` stays within 53 bits. */
  lemma FewNines(j: nat)
    requires j < 16
    ensures (1 + 1) * Pow10(|Nines(j)|) <= Pow2(Precision)
  {
    Pow2Values();
    Pow10Values();
    Pow10Le(j, 15);
  }

  /** From 16 nines on, `10^j` exceeds `2^53`. */
  lemma ManyNines(j: nat)
    requires j >= 16
    ensures Pow10(j) > Pow2(Precision)
  {
    Pow2Values();
    Pow10Values();
    Pow10Le(16, j);
  }

  /** `(2d - 1) / d` for `d > 2^53` rounds to the double 2. */
  lemma RoundsUpToTwo(num: nat, d: nat)
    requires num == 2 * d - 1 && d > Pow2(Precision)
    ensures DoubleToInt(false, NearestDouble(num, d).0, NearestDouble(num, d).1) == 2
  {
    Log2Unique(num, d, 0);
    var q, k := NearestDouble(num, d).0, NearestDouble(num, d).1;
    var g := Pow2(Precision - 1);
    ShortScaled(num, d, 0, k, Precision - 1);
    RoundsToTop(num, d, g, q);
    TwoAsDouble(g);
  }

  /** `(2d - 1) * g / d` with `d > 2g` rounds to `2g`. */
  lemma RoundsToTop(num: nat, d: nat, g: nat, q: nat)
    requires num == 2 * d - 1 && d > 2 * g && g >= 1
    requires RoundsTo(num * g, d, q)
    ensures q == 2 * g
  {
    RoundsToLinear(num * g, d, q);
    TopNumerator(num, d, g);
    ProductBelowTwice(q, g, d);
    ProductAboveTwice(q, g, d);
    TopLinear(num * g, d, g, q, q * d, g * d);
  }

  /** The bounds of `RoundsTo` with the product `q * sd` as one term. */
  lemma RoundsToLinear(sn: nat, sd: nat, q: nat)
    requires RoundsTo(sn, sd, q)
    ensures 2 * (q * sd) <= 2 * sn + sd && 2 * sn <= 2 * (q * sd) + sd
  {
  }

  lemma TopNumerator(num: nat, d: nat, g: nat)
    requires num == 2 * d - 1 && d >= 1
    ensures num * g == 2 * (g * d) - g
  {
  }

  lemma ProductBelowTwice(q: nat, g: nat, d: nat)
    ensures q < 2 * g ==> q * d <= 2 * (g * d) - d
  {
    if q < 2 * g {
      MulLe(q, 2 * g - 1, d);
      assert (2 * g - 1) * d == 2 * (g * d) - d;
    }
  }

  lemma ProductAboveTwice(q: nat, g: nat, d: nat)
    ensures q > 2 * g ==> q * d >= 2 * (g * d) + d
  {
    if q > 2 * g {
      MulLe(2 * g + 1, q, d);
      assert (2 * g + 1) * d == 2 * (g * d) + d;
    }
  }

  /** The rounding argument of `RoundsToTop` once the products are terms:
      `sn = 2 * gd - g` lies within half of `d` of `2g * d` only. */
  lemma TopLinear(sn: int, d: int, g: int, q: int, qd: int, gd: int)
    requires sn == 2 * gd - g && d > 2 * g && g >= 1
    requires 2 * qd <= 2 * sn + d && 2 * sn <= 2 * qd + d
    requires q < 2 * g ==> qd <= 2 * gd - d
    requires q > 2 * g ==> qd >= 2 * gd + d
    ensures q == 2 * g
  {
  }

  /** The double `2^53 * 2^-52` is 2. */
  lemma TwoAsDouble(g: nat)
    requires g == Pow2(Precision - 1)
    ensures DoubleToInt(false, 2 * g, -(Precision as int - 1)) == 2
  {
    assert (2 * g) / g == 2;
  }
}
