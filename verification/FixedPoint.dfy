/**
 Q64.64 fixed-point arithmetic on a native 128-bit integer (int64x64-128.cc and its header).
 A value v stands for the number v / 2^64.
 */
module FixedPoint {
  import opened Words

  // ---------- unsigned multiplication ----------

  /** The middle 128 bits of the 256-bit product, put together from four partial products. */
  function Umul(a: u128, b: u128): (r: u128)
    requires a <= B127 && b <= B127
    ensures r == a * b / B64 % B128
  {
    var (aL, bL, aH, bH) := (a % B64, b % B64, a / B64, b / B64);
    PartialProducts(a, b);
    AssembleProduct(a * b, aL * bL, aL * bH + aH * bL, aH * bH);
    Assemble(aL * bL, aL * bH + aH * bL, aH * bH)
  }

  /** Adds the partial products with their carries, each term kept to 128 bits. */
  function Assemble(loPart: u128, midPart: u128, hiPart: u128): (r: u128)
  {
    var low := (loPart / B64 + midPart % B64) % B128;
    var high := (midPart / B64 + hiPart % B64) * B64 % B128;
    DivMod(low + high, B128);
    (low + high) % B128
  }

  lemma PartialProducts(a: u128, b: u128)
    requires a <= B127
    ensures var aL, bL, aH, bH := a % B64, b % B64, a / B64, b / B64;
      && a * b == aH * bH * B128 + (aL * bH + aH * bL) * B64 + aL * bL
      && 0 <= aL < B64 && 0 <= bL < B64 && 0 <= aH <= B63 && 0 <= bH < B64
      && 0 <= aL * bL < B128 && 0 <= aL * bH + aH * bL < B128 + B127 && 0 <= aH * bH < B127
      && (b <= B127 ==> bH <= B63 && aL * bH + aH * bL < B128)
  {
    var (aL, bL, aH, bH) := (a % B64, b % B64, a / B64, b / B64);
    DivMod(a, B64);
    DivMod(b, B64);
    WordProduct(aL, bL, B64 - 1, B64 - 1);
    WordProduct(aH, bL, B63, B64 - 1);
    WordProduct(aH, bH, B63, B64 - 1);
    WordProduct(aL, bH, B64 - 1, if b <= B127 then B63 else B64 - 1);
    Foil(aH, aL, bH, bL, B64);
  }

  lemma WordProduct(x: int, y: int, xMax: int, yMax: int)
    requires 0 <= x <= xMax && 0 <= y <= yMax
    ensures 0 <= x * y <= xMax * yMax
  {
    MulMono(0, x, y);
    MulMono(x, xMax, y);
    MulMono(y, yMax, xMax);
  }

  lemma AssembleProduct(n: int, lo: u128, mid: u128, hi: u128)
    requires n == hi * B128 + mid * B64 + lo
    ensures Assemble(lo, mid, hi) == n / B64 % B128
  {
    DivMod(lo, B64);
    DivMod(mid, B64);
    DivMod(hi, B64);
    var low, top := lo / B64 + mid % B64, mid / B64 + hi % B64;
    ModIs(n, B64, hi * B64 + mid + lo / B64, lo % B64);
    ModIs(low, B128, 0, low);
    DivMod(top * B64, B128);
    ModEq(hi * B64 + mid + lo / B64, low + top * B64 % B128, B128, hi / B64 + top * B64 / B128);
  }

  /**
   The overflow check of the native form masks the high product with a constant that is zero in 64 bits
   and so never fires; the product is right exactly when it fits in 128 bits.
   */
  lemma UmulExactIff(a: u128, b: u128)
    requires a <= B127 && b <= B127
    ensures Umul(a, b) == a * b / B64 <==> a * b < B128 * B64
  {
    var n := a * b;
    MulMono(0, a, b);
    DivMod(n, B64);
    DivMod(n / B64, B128);
    if n < B128 * B64 { ModIs(n / B64, B128, 0, n / B64); }
  }

  // ---------- unsigned division ----------

  /** Takes zero bits off the bottom of the divisor, counting them. */
  method SkipTrailingZeros(den0: u128) returns (den: u128, shift: nat)
    requires den0 > 0
    ensures den > 0 && shift <= 64 && den0 == den * Pow2(shift)
  {
    den, shift := den0, 0;
    while shift < 64 && den % 2 == 0
      invariant den > 0 && shift <= 64 && den0 == den * Pow2(shift)
    {
      Assoc(den / 2, 2, Pow2(shift));
      shift := shift + 1;
      den := den / 2;
    }
  }

  /** Moves the remainder up until its top bit is set or enough digits are asked for: no bit is shifted out. */
  method SkipLeadingZeros(rem0: u128, shift0: nat, digis: nat) returns (rem: u128, shift: nat)
    requires digis + shift0 <= 64
    ensures shift0 <= shift && digis + shift <= 64 && rem == rem0 * Pow2(shift - shift0)
    ensures digis + shift == 64 || rem >= B127
  {
    rem, shift := rem0, shift0;
    while digis + shift < 64 && rem < B127
      invariant shift0 <= shift && digis + shift <= 64 && rem == rem0 * Pow2(shift - shift0)
    {
      Assoc(rem0, Pow2(shift - shift0), 2);
      shift := shift + 1;
      rem := rem * 2;
    }
  }

  /**
   Halves the divisor while more digits are needed and it is even or above the remainder.
   The remainder's top bit is set whenever this runs, so only zero bits are ever cast off.
   */
  method CastOffDenominator(rem: u128, den0: u128, shift0: nat, digis: nat) returns (den: u128, shift: nat)
    requires digis + shift0 <= 64 && 0 < den0 <= B127
    requires digis + shift0 == 64 || rem >= B127
    ensures shift0 <= shift && digis + shift <= 64 && den > 0 && den0 == den * Pow2(shift - shift0)
  {
    den, shift := den0, shift0;
    while digis + shift < 64 && (den % 2 == 0 || rem < den)
      invariant shift0 <= shift && digis + shift <= 64 && 0 < den <= B127 && den0 == den * Pow2(shift - shift0)
    {
      Assoc(den / 2, 2, Pow2(shift - shift0));
      shift := shift + 1;
      den := den / 2;
    }
  }

  /** Where a division stands: the divisor has lost cast zero bits, shift of them not yet repaid in digits. */
  ghost predicate Underway(a: nat, b: nat, exact: nat, digis: nat, cast: nat, shift: nat, rem: nat, den: nat)
  {
    && shift <= cast && 0 < den && den * Pow2(cast) == b
    && a * Pow2(digis) == exact * b + rem * Pow2(cast - shift)
    && rem * Pow2(cast - shift) < b
  }

  lemma {:induction false} Start(a: nat, b: nat, quo: nat, rem: nat, den: nat, shift: nat)
    requires b > 0 && quo == a / b && rem == a % b && den > 0 && den * Pow2(shift) == b
    ensures Underway(a, b, quo, 0, shift, shift, rem, den)
  {
    DivMod(a, b);
    assert Pow2(0) == 1;
  }

  lemma UnderwayBounds(a: nat, b: nat, exact: nat, digis: nat, cast: nat, shift: nat, rem: nat, den: nat)
    requires Underway(a, b, exact, digis, cast, shift, rem, den)
    ensures den <= b && rem < b && rem * Pow2(0) == rem
  {
    MulMono(1, Pow2(cast), den);
    MulMono(1, Pow2(cast - shift), rem);
  }

  /**
   One batch of quotient bits: moving the remainder up by r and the divisor down by d and dividing
   extends the exact quotient by s = shift + r + d bits.
   */
  lemma {:induction false} BatchStep(a: nat, b: nat, exact: nat, digis: nat, cast: nat, shift: nat, rem: nat, den: nat,
                  r: nat, d: nat, s: nat, rem': nat, den': nat)
    requires Underway(a, b, exact, digis, cast, shift, rem, den)
    requires s == shift + r + d && rem' == rem * Pow2(r) && den' > 0 && den == den' * Pow2(d)
    ensures Underway(a, b, exact * Pow2(s) + rem' / den', digis + s, cast + d, 0, rem' % den', den')
  {
    Pow2Add(digis, s);
    Pow2Add(shift + r, d);
    Pow2Add(shift, r);
    Pow2Add(cast - shift, shift);
    Pow2Add(cast, d);
    BatchProducts(a, Pow2(digis), exact, b, rem, den, Pow2(cast - shift), Pow2(shift), Pow2(r), Pow2(d), rem', den');
  }

  /** The products behind a batch, with every power of two a plain number. */
  lemma {:induction false} BatchProducts(a: nat, x: nat, exact: nat, b: nat, rem: nat, den: nat,
                      t: nat, u: nat, r: nat, d: nat, rem': nat, den': nat)
    requires den' > 0 && t * u * d > 0 && den * (t * u) == b && a * x == exact * b + rem * t
    requires rem' == rem * r && den == den' * d
    ensures den' * (t * u * d) == b
    ensures a * (x * (u * r * d)) == (exact * (u * r * d) + rem' / den') * b + rem' % den' * (t * u * d)
    ensures rem' % den' * (t * u * d) < b
  {
    Assoc(den', d, t * u);
    Rearrange(rem, t, u, r, d);
    ScaleUp(a, x, u * r * d, exact, b, rem * t, rem' * (t * u * d));
    Divide(a * (x * (u * r * d)), exact * (u * r * d), rem', den', t * u * d, b);
  }

  lemma Rearrange(rem: int, t: int, x: int, r: int, d: int)
    ensures rem * t * (x * r * d) == rem * r * (t * x * d)
  {
    assert rem * t * (x * r * d) == rem * (t * (x * r * d));
    assert t * (x * r * d) == r * (t * x * d);
    assert rem * r * (t * x * d) == rem * (r * (t * x * d));
  }

  lemma ScaleUp(a: int, x: int, y: int, exact: int, b: int, rest: int, rest': int)
    requires a * x == exact * b + rest && rest * y == rest'
    ensures a * (x * y) == exact * y * b + rest'
  {
    Assoc(a, x, y);
    Distrib(exact * b, rest, y);
    Assoc(exact, b, y);
  }

  /** Dividing the scaled remainder splits it into new quotient bits and a smaller remainder. */
  lemma Divide(n: nat, high: nat, rem: nat, den: nat, p: nat, b: nat)
    requires den > 0 && p > 0 && den * p == b && n == high * b + rem * p
    ensures n == (high + rem / den) * b + rem % den * p
    ensures rem % den * p < b
  {
    var q, m := rem / den, rem % den;
    DivMod(rem, den);
    Distrib(q * den, m, p);
    Assoc(q, den, p);
    Distrib(high, q, b);
    MulStep(m, den, p);
  }

  /** Computes the next batch of quotient bits; every batch has at least one. */
  method NextBatch(rem0: u128, den0: u128, shift0: nat, digis: nat, ghost a: nat, ghost b: nat, ghost exact: nat, ghost cast0: nat)
    returns (quo: u128, rem: u128, den: u128, shift: nat, ghost cast: nat)
    requires Underway(a, b, exact, digis, cast0, shift0, rem0, den0) && b <= B127
    requires digis < 64 && digis + shift0 <= 64
    ensures 0 < shift && digis + shift <= 64
    ensures Underway(a, b, exact * Pow2(shift) + quo, digis + shift, cast, 0, rem, den)
  {
    UnderwayBounds(a, b, exact, digis, cast0, shift0, rem0, den0);
    var scaled, shift1 := SkipLeadingZeros(rem0, shift0, digis);
    den, shift := CastOffDenominator(scaled, den0, shift1, digis);
    cast := cast0 + (shift - shift1);
    BatchStep(a, b, exact, digis, cast0, shift0, rem0, den0, shift1 - shift0, shift - shift1, shift, scaled, den);
    QuotientBound(scaled, den);
    DivMod(scaled, den);
    quo, rem := scaled / den, scaled % den;
  }

  /** Q64.64 division: the quotient of a and b with 64 fraction bits, rounded down. */
  method Udiv(a: u128, b: u128) returns (result: u128)
    requires 0 < b <= B127
    ensures result == a * B64 / b % B128
  {
    DivMod(a, b);
    QuotientBound(a, b);
    result := a / b;
    var rem: u128 := a % b;
    var digis := 0;
    var den, shift := SkipTrailingZeros(b);
    ghost var exact: nat := result;  // the quotient before it is cut to 128 bits
    ghost var cast := shift;
    ModIs(result, B128, 0, result);
    Start(a, b, result, rem, den, shift);
    while digis < 64 && rem != 0
      invariant digis + shift <= 64 && (digis > 0 ==> shift == 0)
      invariant Underway(a, b, exact, digis, cast, shift, rem, den)
      invariant result == exact % B128
      decreases 64 - digis
    {
      var quo;
      quo, rem, den, shift, cast := NextBatch(rem, den, shift, digis, a, b, exact, cast);
      ShiftIn(exact, shift, quo);
      result := Append(result, shift, quo);
      exact := exact * Pow2(shift) + quo;
      digis := digis + shift;
      shift := 0;
    }
    Finish(a, b, exact, digis, cast, shift, rem, den);
    ShiftIn(exact, 64 - digis, 0);
    if digis < 64 {
      shift := 64 - digis;
      result := Append(result, shift, 0);
    }
  }

  /** At the end the digits still owed are zeros, and what is left of the remainder is below one unit. */
  lemma {:induction false} Finish(a: nat, b: nat, exact: nat, digis: nat, cast: nat, shift: nat, rem: nat, den: nat)
    requires Underway(a, b, exact, digis, cast, shift, rem, den) && digis <= 64
    requires rem == 0 || (digis == 64 && shift == 0)
    ensures b > 0 && exact * Pow2(64 - digis) == a * B64 / b
  {
    UnderwayBounds(a, b, exact, digis, cast, shift, rem, den);
    var p, rest := Pow2(64 - digis), rem * Pow2(cast - shift);
    Pow2Add(digis, 64 - digis);
    Pow2Is64(digis + (64 - digis));
    ScaleUp(a, Pow2(digis), p, exact, b, rest, rest * p);
    ModIs(a * B64, b, exact * p, rest * p);
  }

  /** Moves the 128-bit result up by shift bits and adds the new quotient bits in. */
  function Append(result: u128, shift: nat, quo: u128): (r: u128)
  {
    (result * Pow2(shift) % B128 + quo) % B128
  }

  /** The register stays equal to the exact quotient modulo 2^128. */
  lemma {:induction false} ShiftIn(exact: nat, shift: nat, quo: u128)
    ensures Append(exact % B128, shift, quo) == (exact * Pow2(shift) + quo) % B128
  {
    var p, e := Pow2(shift), exact % B128;
    DivMod(exact, B128);
    Distrib(exact / B128 * B128, e, p);
    Assoc(exact / B128, B128, p);
    DivMod(e * p, B128);
    ModEq(exact * p + quo, e * p % B128 + quo, B128, exact / B128 * p + e * p / B128);
  }

  // ---------- inverses ----------

  /** The two middle products of a multiplication by an inverse, and whether they fit in 128 bits. */
  function MiddleOf(a: nat, b: nat): (m: int)
  {
    a % B64 * (b / B64) + a / B64 * (b % B64)
  }

  predicate MiddleFits(a: nat, b: nat)
  {
    MiddleOf(a, b) < B128
  }

  /**
   The Q64.64 times Q0.128 product, leaving out the product of the two low words.  It is at most one unit
   short exactly when the middle products fit in 128 bits; when they do not, it is 2^64 units shorter.
   */
  function UmulByInvert(a: u128, b: u128): (r: u128)
    requires a <= B127
    ensures a * b / B128 - 1 <= r <= a * b / B128 <==> MiddleFits(a, b)
    ensures !MiddleFits(a, b) ==> a * b / B128 - 1 - B64 <= r <= a * b / B128 - B64
    ensures r <= a * b / B128
    ensures b <= B127 ==> MiddleFits(a, b)
  {
    PartialProducts(a, b);
    var (al, bl, ah, bh) := (a % B64, b % B64, a / B64, b / B64);
    DropLowProduct(a * b, ah * bh, al * bh + ah * bl, al * bl);
    AddMiddle(ah * bh, (al * bh + ah * bl) % B128)
  }

  function AddMiddle(hi: u128, mid: u128): (r: u128)
  {
    (hi + mid / B64) % B128
  }

  lemma DropLowProduct(n: int, hi: u128, mid: nat, lo: u128)
    requires n == hi * B128 + mid * B64 + lo && hi < B127 && mid < 2 * B128
    ensures AddMiddle(hi, mid % B128) == hi + mid / B64 - (if mid < B128 then 0 else B64)
    ensures n / B128 - 1 <= hi + mid / B64 <= n / B128
  {
    DivMod(mid, B64);
    DivMod(n, B128);
    var k := if mid < B128 then 0 else 1;
    ModIs(mid, B128, k, mid - k * B128);
    ModIs(mid - k * B128, B64, mid / B64 - k * B64, mid % B64);
    var r := hi + mid / B64 - k * B64;
    ModIs(r, B128, 0, r);
  }

  /** With an integer as first factor nothing is left out, and the product is exact to the last bit. */
  lemma UmulByInvertInteger(n: nat, b: u128)
    requires n <= B63
    ensures UmulByInvert(n * B64, b) == n * b / B64
  {
    PartialProducts(n * B64, b);
    ModIs(n * B64, B64, n, 0);
    var bl, bh := b % B64, b / B64;
    WordProduct(n, bl, B63, B64 - 1);
    DropLowProduct(n * B64 * b, n * bh, 0 * bh + n * bl, 0 * bl);
    IntegerTimesWords(n, b);
  }

  lemma IntegerTimesWords(n: nat, b: nat)
    ensures n * b / B64 == n * (b / B64) + n * (b % B64) / B64
  {
    var bl, bh := b % B64, b / B64;
    DivMod(b, B64);
    DivMod(n * bl, B64);
    Distrib(bh * B64, bl, n);
    Assoc(bh, B64, n);
    ModIs(n * b, B64, n * bh + n * bl / B64, n * bl % B64);
  }

  /** The smallest integer q with q * v >= 2^128. */
  function CeilInverse(v: nat): (q: nat)
    requires v > 1
    ensures B128 <= q * v < B128 + v
  {
    DivMod(B128, v);
    Distrib(B128 / v, 1, v);
    QuotientBound(B128, v);
    if B128 % v == 0 then B128 / v else B128 / v + 1
  }

  /** Multiplying by the rounded-up inverse divides: the excess never reaches the next integer. */
  lemma InverseDivides(n: nat, v: nat, q: nat)
    requires n <= B63 && 1 < v < B64 && B128 <= q * v <= B128 + v
    ensures n * q / B128 == n / v
  {
    Assoc(n, q, v);
    MulMono(B128, q * v, n);
    MulMono(q * v, B128 + v, n);
    MulMono(n, B63, v);
    ModIs(n * q * v, B128, n, n * q * v - n * B128);
    DivCancel(n * q, B128, v);
    DivDiv(n * q * v, B128, v);
  }

  // ---------- the value type ----------

  /** Signs and magnitudes of two operands; true when the result is to be negated. */
  function OutputSign(sa: i128, sb: i128): (r: (bool, u128, u128))
    ensures r.1 == Abs(sa) && r.2 == Abs(sb) && r.0 == ((sa < 0) != (sb < 0))
  {
    var negA := sa < 0;
    var negB := sb < 0;
    ((negA && !negB) || (!negA && negB), if negA then 0 - sa else sa, if negB then 0 - sb else sb)
  }

  function WithSign(negative: bool, mag: int): (r: int)
  {
    if negative then -mag else mag
  }

  /** Giving a magnitude its sign back yields the truncated quotient, cut to 128 bits. */
  lemma Resign(x: int, y: int, d: int, q: int, mag: u128)
    requires d != 0
    requires mag == Abs(x) * Abs(y) / Abs(d) % B128
    requires q == TruncDiv(x * y, d)
    ensures ToSigned(WithSign((x * y < 0) != (d < 0), mag)) == ToSigned(q)
  {
    AbsProduct(x, y);
    ToSignedMod(Abs(x) * Abs(y) / Abs(d));
  }

  lemma AbsProduct(x: int, y: int)
    ensures Abs(x * y) == Abs(x) * Abs(y)
    ensures x != 0 && y != 0 ==> ((x * y < 0) <==> ((x < 0) != (y < 0)))
    ensures x == 0 || y == 0 ==> x * y == 0
  {
    if x > 0 && y > 0 { MulMono(1, x, y); }
    if x < 0 && y > 0 { MulMono(1, -x, y); assert -x * y == -(x * y); }
    if x > 0 && y < 0 { MulMono(1, x, -y); assert x * -y == -(x * y); }
    if x < 0 && y < 0 { MulMono(1, -x, -y); assert -x * -y == x * y; }
  }

  class Int64x64 {
    var v: i128

    constructor (hi: i64, lo: u64)
      ensures v == hi * B64 + lo
    {
      v := hi * B64 + lo;
    }

    function GetHigh(): (r: i64)
      reads this
      ensures r * B64 <= v < (r + 1) * B64
    {
      DivMod(v, B64);
      v / B64
    }

    function GetLow(): (r: u64)
      reads this
      ensures v == GetHigh() * B64 + r
    {
      v % B64
    }

    /** The product, cut toward zero at the last fraction bit and kept to 128 bits: exact just when it fits there. */
    method Mul(o: Int64x64)
      modifies this
      ensures v == ToSigned(TruncDiv(old(v) * old(o.v), B64))
      ensures var product := TruncDiv(old(v) * old(o.v), B64);
        v == product <==> -B127 <= product < B127
    {
      ghost var x: int, y: int := v, o.v;
      var (negative, a, b) := OutputSign(v, o.v);
      var result := Umul(a, b);
      Resign(x, y, B64, TruncDiv(x * y, B64), result);
      AbsProduct(x, y);
      ModIs(0, B128, 0, 0);
      ToSignedExact(TruncDiv(x * y, B64));
      v := ToSigned(WithSign(negative, result));
    }

    /** The quotient, cut toward zero at the last fraction bit and kept to 128 bits: exact just when it fits there. */
    method Div(o: Int64x64)
      requires o.v != 0
      modifies this
      ensures v == ToSigned(TruncDiv(old(v) * B64, old(o.v)))
      ensures var quotient := TruncDiv(old(v) * B64, old(o.v));
        v == quotient <==> -B127 <= quotient < B127
    {
      ghost var x: int, y: int := v, o.v;
      var (negative, a, b) := OutputSign(v, o.v);
      var result := Udiv(a, b);
      Resign(x, B64, y, TruncDiv(x * B64, y), result);
      ModIs(0, B128, 0, 0);
      ToSignedExact(TruncDiv(x * B64, y));
      v := ToSigned(WithSign(negative, result));
    }

    /**
     The product with a Q0.128 number, cut toward zero, is at most one unit in the last place short exactly when
     the middle products fit in 128 bits, as they do for every number up to one half.  An integer times the inverse that Invert returns for d has the floor of its quotient by d as integer part.
     */
    method MulByInvert(o: Int64x64)
      modifies this
      ensures var b := old(o.v) % B128;
        ShortByOne(old(v), b, v) <==> MiddleFits(Abs(old(v)), b)
      ensures old(o.v) % B128 <= B127 ==> ShortByOne(old(v), old(o.v) % B128, v)
      ensures old(GetLow()) == 0 ==> v == IntegerByInvert(old(GetHigh()), old(o.v) % B128)
      ensures forall d: u64 :: d > 1 && old(GetLow()) == 0 && old(o.v) % B128 == InverseOf(d) ==> GetHigh() == old(GetHigh()) / d
    {
      ghost var x: int, n: int, b := v, GetHigh(), o.v % B128;
      ghost var whole := GetLow() == 0;
      var negative := v < 0;
      var a: u128 := if negative then 0 - v else v;
      var result := UmulByInvert(a, o.v % B128);
      v := ToSigned(WithSign(negative, result));
      InverseProduct(x, b, result);
      if whole {
        IntegerByInvertIs(n, b);
        forall d: u64 | d > 1 && b == InverseOf(d) ensures IntegerByInvert(n, b) / B64 == n / d {
          InverseLaw(n, d);
        }
        ModIs(v, B64, GetHigh(), GetLow());
      }
    }

    /**
     The inverse of an integer to 128 bits.  It is 2^128 / v rounded up for every v but 2^63, whose
     int64 form is negative, so that the check for an exact inverse fails and one is added too many.
     */
    static method Invert(v: u64) returns (result: Int64x64)
      requires v > 1
      ensures fresh(result)
      ensures result.v % B128 == CeilInverse(v) <==> v != B63
      ensures result.v % B128 == InverseOf(v) <= B127
    {
      hide InverseOf, CeilInverse, TruncDiv, IntegerByInvert, ToSigned;
      result := new Int64x64(0, 0);
      var quo := Udiv(B64, v);
      InverseFits(v);
      ToUnsigned(quo);
      result.v := ToSigned(quo);
      var tmp := new Int64x64(if v >= B63 then v - B64 else v, 0);
      ModIs(tmp.v, B64, if v >= B63 then v - B64 else v, 0);
      tmp.MulByInvert(result);
      assert tmp.v == ProbeValue(v, quo);
      InverseOfFits(v);
      var high := tmp.GetHigh();
      InverseStep(v, quo, high);
      if high != 1 {
        result.v := result.v + 1;
      }
    }
  }

  /** The rounding step: one is added exactly when the check does not read one. */
  lemma InverseStep(v: u64, quo: u128, high: i64)
    requires v > 1 && quo == B128 / v <= B127
    requires high * B64 <= ProbeValue(v, quo) < (high + 1) * B64
    ensures high == 1 ==> quo == InverseOf(v)
    ensures high != 1 ==> (quo + 1) % B128 == quo + 1
    ensures high != 1 ==> ToSigned(quo) + 1 < B127 && (ToSigned(quo) + 1) % B128 == quo + 1
    ensures high != 1 ==> quo + 1 == InverseOf(v)
  {
    ProbeInverse(v, quo);
    if high != 1 {
      ToSignedId(quo);
      ModIs(quo + 1, B128, 0, quo + 1);
    }
  }

  /** What Invert returns: rounded up, and for 2^63 one unit more. */
  function InverseOf(v: u64): (q: nat)
    requires v > 1
  {
    if v == B63 then CeilInverse(v) + 1 else CeilInverse(v)
  }

  lemma InverseOfFits(v: u64)
    requires v > 1
    ensures InverseOf(v) <= B127 && B128 <= InverseOf(v) * v <= B128 + v
    ensures InverseOf(v) == CeilInverse(v) <==> v != B63
  {
    InverseFits(v);
    if v == B63 {
      ModIs(B128, v, 2 * B64, 0);
    } else if v > 2 {
      if B128 / v == B127 { DivMod(B128, v); MulMono(3, v, B127); }
    }
    Distrib(CeilInverse(v), 1, v);
  }

  /** At most one unit in the last place short of the product of x and the Q0.128 number b. */
  predicate ShortByOne(x: int, b: nat, v: int)
  {
    var product := TruncDiv(x * b, B128);
    if x < 0 then product <= v <= product + 1 else product - 1 <= v <= product
  }

  /** A product with an inverse lies within the word. */
  lemma {:induction false} InverseProduct(x: i128, b: u128, r: u128)
    requires r == UmulByInvert(Abs(x), b)
    ensures ToSigned(WithSign(x < 0, r)) == WithSign(x < 0, r)
    ensures ShortByOne(x, b, WithSign(x < 0, r)) <==> MiddleFits(Abs(x), b)
    ensures b <= B127 ==> MiddleFits(Abs(x), b)
  {
    AbsProduct(x, b);
    if x < 0 && b > 0 { MulMono(x, -1, b); }
    if x >= 0 { MulMono(0, x, b); }
    MulMono(Abs(x), B127, b);
    MulMono(b, B128 - 1, B127);
    DivMono(Abs(x) * b, B127 * (B128 - 1), B128);
    ModIs(B127 * (B128 - 1), B128, B127 - 1, B127);
    ToSignedId(WithSign(x < 0, r));
  }

  /** An integer times an inverse, cut toward zero at the last fraction bit. */
  function IntegerByInvert(n: int, b: nat): (r: int)
  {
    if n < 0 then 0 - (0 - n) * b / B64 else n * b / B64
  }

  lemma {:induction false} IntegerByInvertIs(n: i64, b: u128)
    ensures Abs(n * B64) == Abs(n) * B64 && (n * B64 < 0) == (n < 0)
    ensures IntegerByInvert(n, b) == WithSign(n < 0, UmulByInvert(Abs(n) * B64, b))
  {
    UmulByInvertInteger(Abs(n), b);
  }

  /**
   The law the inverse exists for: an integer times the inverse of a divisor has the floor of the quotient
   as its integer part, for every divisor, also the one whose inverse is a unit too large.  An exact quotient
   leaves no fraction and any other one does, so that the floor is right below zero too.
   */
  lemma {:induction false} InverseLaw(n: i64, v: u64)
    requires v > 1
    ensures InverseOf(v) <= B127 && IntegerByInvert(n, InverseOf(v)) / B64 == n / v
  {
    var q, m := InverseOf(v), Abs(n);
    InverseOfFits(v);
    MulMono(0, m, q);
    DivDiv(m * q, B64, B64);
    InverseDivides(m, v, q);
    DivMod(m * q / B64, B64);
    DivMod(m, v);
    if n < 0 {
      var k, rest := m / v, m % v;
      InverseFraction(m, v, q, k, rest);
      if rest == 0 {
        ModIs(0 - m * q / B64, B64, 0 - k, 0);
        ModIs(n, v, 0 - k, 0);
      } else {
        ModIs(0 - m * q / B64, B64, 0 - k - 1, B64 - m * q / B64 % B64);
        Distrib(0 - k, -1, v);
        ModIs(n, v, 0 - k - 1, v - rest);
      }
    }
  }

  /** The fraction that is left of m times the inverse of v is zero just when v divides m. */
  lemma {:induction false} InverseFraction(m: nat, v: nat, q: nat, k: nat, rest: nat)
    requires m <= B63 && 1 < v < B64 && B128 <= q * v <= B128 + v && m == k * v + rest && rest < v
    requires m * q / B64 / B64 == k
    ensures m * q / B64 % B64 == 0 <==> rest == 0
  {
    var t := m * q / B64;
    DivMod(t, B64);
    DivMod(m * q, B64);
    if rest == 0 {
      // m q = k (q v) lies between k 2^128 and k 2^128 + m
      Assoc(k, v, q);
      MulMono(q * v, B128 + v, k);
      if t >= k * B64 + 1 { MulMono(k * B64 + 1, t, B64); }
    } else if t == k * B64 {
      // m q v >= m 2^128 >= k v 2^128 + 2^128, but m q < k 2^128 + 2^64
      Assoc(m, q, v);
      MulMono(B128, q * v, m);
      MulMono(m * q, k * B128 + B64, v);
      Distrib(k * B128, B64, v);
      Assoc(k, B128, v);
      Distrib(k * v, rest, B128);
      MulMono(v, B64 - 1, B64);
    }
  }

  /** The value tmp holds after it has been multiplied by the inverse quo of v, which it reads as an int64. */
  function ProbeValue(v: u64, quo: nat): (r: int)
  {
    IntegerByInvert(if v >= B63 then v - B64 else v, quo)
  }

  /** What the check computes: v times its inverse is one exactly when nothing was rounded off. */
  lemma ProbeInverse(v: u64, quo: u128)
    requires v > 1 && quo == B128 / v <= B127
    ensures v < B63 ==> ProbeValue(v, quo) == if B128 % v == 0 then B64 else B64 - 1
    ensures v >= B63 ==> -B127 <= ProbeValue(v, quo) <= 0 && quo < B127
    ensures B128 % v != 0 ==> quo < B127
    ensures v > B63 ==> B128 % v != 0
    ensures v == B63 ==> B128 % v == 0
  {
    DivMod(B128, v);
    var m := B128 % v;
    if v < B63 {
      if m == 0 { ModIs(v * quo, B64, B64, 0); } else { ModIs(v * quo, B64, B64 - 1, B64 - m); }
      if quo == B127 && v > 2 { MulMono(3, v, B127); }
    } else {
      if quo > 2 * B64 { MulStep(2 * B64, quo, v); MulMono(B63, v, 2 * B64); }
      var w := B64 - v;
      MulMono(w, B63, quo);
      MulMono(0, w, quo);
      DivMod(w * quo, B64);
      assert 0 <= w * quo / B64 <= B64;
      if v == B63 {
        ModIs(B128, v, 2 * B64, 0);
      } else if m == 0 {
        NoDivisorBetween(quo, v);
      }
    }
  }

  /** Every divisor of a power of two is one. */
  lemma {:induction false} PowerDivisor(q: nat, v: nat, k: nat) returns (j: nat)
    requires q * v == Pow2(k)
    ensures v == Pow2(j)
    decreases k
  {
    if k == 0 {
      if v > 1 && q > 0 { MulMono(1, q, v); }
      j := 0;
    } else if v % 2 == 0 {
      Assoc(q, v / 2, 2);
      var i := PowerDivisor(q, v / 2, k - 1);
      j := i + 1;
    } else {
      if q % 2 == 1 { OddProduct(q / 2, v / 2); }
      Assoc(q / 2, 2, v);
      j := PowerDivisor(q / 2, v, k - 1);
    }
  }

  lemma OddProduct(x: int, y: int)
    ensures (2 * x + 1) * (2 * y + 1) == 2 * (2 * x * y + x + y) + 1
  {
  }

  lemma {:induction false} Pow2Mono(i: nat, j: nat)
    requires i <= j
    ensures Pow2(i) <= Pow2(j)
  {
    Pow2Add(i, j - i);
    MulMono(1, Pow2(j - i), Pow2(i));
  }

  /** No number strictly between 2^63 and 2^64 divides 2^128. */
  lemma NoDivisorBetween(q: nat, v: u64)
    requires v > B63
    ensures q * v != B128
  {
    if q * v == B128 {
      Pow2Word(64, 64);
      Pow2Is64(64);
      var j := PowerDivisor(q, v, 64 + 64);
      var n := 64;
      Pow2Is64(n);
      assert Pow2(n) == 2 * Pow2(n - 1);
      if j < n { Pow2Mono(j, n - 1); } else { Pow2Mono(n, j); }
    }
  }

  lemma InverseFits(v: u64)
    requires v > 1
    ensures B64 * B64 / v % B128 == B128 / v
    ensures B128 / v <= B127
  {
    DivMod(B128, v);
    if B128 / v > B127 { MulMono(B127 + 1, B128 / v, v); MulMono(2, v, B127 + 1); }
    QuotientBound(B128, v);
    ModIs(B128 / v, B128, 0, B128 / v);
  }

  lemma ToUnsigned(x: u128)
    ensures ToSigned(x) % B128 == x
  {
    ModIs(x, B128, 0, x);
    ModEq(ToSigned(x), x, B128, (ToSigned(x) - x) / B128);
    DivMod(ToSigned(x) - x, B128);
  }
}
