/**
 Q64.64 arithmetic on pairs of 64-bit words (int64x64-cairo.cc).  Every routine is shown to
 compute what the native form computes, on the same numbers.
 */
module CairoFixedPoint {
  import opened Words
  import opened CairoWideInt
  import FixedPoint

  datatype Product = Aborted | Product(value: U128)

  /** The middle 128 bits of the product; the run is aborted when the product of the high words needs a second word. */
  function Umul(a: U128, b: U128): (r: Product)
    requires Val(a) <= B127 && Val(b) <= B127
    ensures r.Aborted? <==> a.hi * b.hi >= B64
    ensures r.Product? ==> Val(r.value) == FixedPoint.Umul(Val(a), Val(b))
  {
    UmulAgrees(a, b);
    var hi := Mul64(a.hi, b.hi);
    if hi.hi != 0 then Aborted
    else Product(Assemble(Mul64(a.lo, b.lo), Add(Mul64(a.lo, b.hi), Mul64(a.hi, b.lo)), hi))
  }

  lemma Halves(a: U128)
    ensures Val(a) / B64 == a.hi && Val(a) % B64 == a.lo
  {
    ModIs(Val(a), B64, a.hi, a.lo);
  }

  lemma UmulAgrees(a: U128, b: U128)
    requires Val(a) <= B127 && Val(b) <= B127
    ensures Val(Assemble(Mul64(a.lo, b.lo), Add(Mul64(a.lo, b.hi), Mul64(a.hi, b.lo)), Mul64(a.hi, b.hi)))
         == FixedPoint.Umul(Val(a), Val(b))
  {
    hide Mul64, Add, Assemble, FixedPoint.Assemble;
    Halves(a);
    Halves(b);
    FixedPoint.PartialProducts(Val(a), Val(b));
    var mid := a.lo * b.hi + a.hi * b.lo;
    ModIs(mid, B128, 0, mid);
    AssemblePairs(Mul64(a.lo, b.lo), Add(Mul64(a.lo, b.hi), Mul64(a.hi, b.lo)), Mul64(a.hi, b.hi));
  }

  function Assemble(lo: U128, mid: U128, hi: U128): (r: U128)
  {
    var low := Add(U128(0, lo.hi), U128(0, mid.lo));
    var high := Lsl(Add(U128(0, mid.hi), U128(0, hi.lo)), 64);
    Add(low, high)
  }

  lemma AssemblePairs(lo: U128, mid: U128, hi: U128)
    ensures Val(Assemble(lo, mid, hi)) == FixedPoint.Assemble(Val(lo), Val(mid), Val(hi))
  {
    hide Add, Lsl;
    ModIs(Val(lo), B64, lo.hi, lo.lo);
    ModIs(Val(mid), B64, mid.hi, mid.lo);
    ModIs(Val(hi), B64, hi.hi, hi.lo);
    Pow2Is64(64);
    var top := mid.hi + hi.lo;
    ModIs(top, B128, 0, top);
  }

  /** The abort fires only on products that do not fit in 128 bits. */
  lemma AbortMeansOverflow(a: U128, b: U128)
    requires Val(a) <= B127 && Val(b) <= B127 && Umul(a, b).Aborted?
    ensures Val(a) * Val(b) >= B128 * B64
  {
    Halves(a);
    Halves(b);
    FixedPoint.PartialProducts(Val(a), Val(b));
    assert a.hi * b.hi * B128 >= B64 * B128;
  }

  /**
   But not on all of them: a product is wrong without an abort exactly when it needs more than 128 bits and
   the product of the high words does not show it, as when the carry comes out of the middle words.
   */
  lemma SilentOverflowIff(a: U128, b: U128)
    requires Val(a) <= B127 && Val(b) <= B127
    ensures Umul(a, b).Product? && Val(Umul(a, b).value) != Val(a) * Val(b) / B64
       <==> a.hi * b.hi < B64 && Val(a) * Val(b) >= B128 * B64
  {
    FixedPoint.UmulExactIff(Val(a), Val(b));
  }

  /** There are such products. */
  lemma AbortMissesOverflow(a: U128, b: U128)
    requires a == U128(B63 - 1, B64 - 1) && b == U128(2, B64 - 1)
    ensures Umul(a, b).Product? && Val(Umul(a, b).value) != Val(a) * Val(b) / B64
  {
    assert a.hi * b.hi == 2 * (B63 - 1);
    LargeProduct(Val(a), Val(b));
    SilentOverflowIff(a, b);
  }

  lemma LargeProduct(x: int, y: int)
    requires x == B127 - 1 && y == 3 * B64 - 1
    ensures x * y >= B128 * B64
  {
    MulMono(B127 - 1, x, y);
    assert (B127 - 1) * (3 * B64 - 1) >= B128 * B64;
  }

  // ---------- division ----------

  method SkipTrailingZeros(den0: U128) returns (den: U128, shift: nat)
    requires Val(den0) > 0
    ensures Val(den) > 0 && shift <= 64 && Val(den0) == Val(den) * Pow2(shift)
  {
    den, shift := den0, 0;
    while shift < 64 && den.lo % 2 == 0
      invariant Val(den) > 0 && shift <= 64 && Val(den0) == Val(den) * Pow2(shift)
    {
      HalveEven(den, Pow2(shift));
      shift := shift + 1;
      den := Rsl(den, 1);
    }
  }

  /** Shifting an even number right drops nothing. */
  lemma HalveEven(den: U128, p: int)
    requires den.lo % 2 == 0
    ensures Val(den) == 2 * Val(Rsl(den, 1)) && Val(den) * p == Val(Rsl(den, 1)) * (2 * p)
  {
    HalveIs(den);
    DivMod(den.lo, 2);
    ModIs(Val(den), 2, den.hi * B63 + den.lo / 2, 0);
    Assoc(Val(den) / 2, 2, p);
  }

  lemma LowBit(den: U128)
    ensures Val(den) % 2 == den.lo % 2
  {
    ModEq(Val(den), den.lo, 2, den.hi * B63);
  }

  method SkipLeadingZeros(rem0: U128, shift0: nat, digis: nat) returns (rem: U128, shift: nat)
    requires digis + shift0 <= 64
    ensures shift0 <= shift && digis + shift <= 64 && Val(rem) == Val(rem0) * Pow2(shift - shift0)
    ensures digis + shift == 64 || Val(rem) >= B127
  {
    rem, shift := rem0, shift0;
    while digis + shift < 64 && rem.hi < B63
      invariant shift0 <= shift && digis + shift <= 64 && Val(rem) == Val(rem0) * Pow2(shift - shift0)
    {
      DoubleIs(rem);
      Assoc(Val(rem0), Pow2(shift - shift0), 2);
      shift := shift + 1;
      rem := Lsl(rem, 1);
    }
  }

  method CastOffDenominator(rem: U128, den0: U128, shift0: nat, digis: nat) returns (den: U128, shift: nat)
    requires digis + shift0 <= 64 && 0 < Val(den0) <= B127
    requires digis + shift0 == 64 || Val(rem) >= B127
    ensures shift0 <= shift && digis + shift <= 64 && Val(den) > 0 && Val(den0) == Val(den) * Pow2(shift - shift0)
  {
    den, shift := den0, shift0;
    while digis + shift < 64 && (den.lo % 2 == 0 || Lt(rem, den))
      invariant shift0 <= shift && digis + shift <= 64 && 0 < Val(den) <= B127
      invariant Val(den0) == Val(den) * Pow2(shift - shift0)
    {
      LowBit(den);
      HalveEven(den, Pow2(shift - shift0));
      shift := shift + 1;
      den := Rsl(den, 1);
    }
  }

  method NextBatch(rem0: U128, den0: U128, shift0: nat, digis: nat, ghost a: nat, ghost b: nat, ghost exact: nat, ghost cast0: nat)
    returns (quo: U128, rem: U128, den: U128, shift: nat, ghost cast: nat)
    requires FixedPoint.Underway(a, b, exact, digis, cast0, shift0, Val(rem0), Val(den0)) && b <= B127
    requires digis < 64 && digis + shift0 <= 64
    ensures 0 < shift && digis + shift <= 64
    ensures FixedPoint.Underway(a, b, exact * Pow2(shift) + Val(quo), digis + shift, cast, 0, Val(rem), Val(den))
  {
    FixedPoint.UnderwayBounds(a, b, exact, digis, cast0, shift0, Val(rem0), Val(den0));
    var scaled, shift1 := SkipLeadingZeros(rem0, shift0, digis);
    den, shift := CastOffDenominator(scaled, den0, shift1, digis);
    cast := cast0 + (shift - shift1);
    FixedPoint.BatchStep(a, b, exact, digis, cast0, shift0, Val(rem0), Val(den0),
                         shift1 - shift0, shift - shift1, shift, Val(scaled), Val(den));
    quo, rem := DivRem(scaled, den);
  }

  method Append(result: U128, shift: nat, quo: U128) returns (r: U128)
    requires shift < 128
    ensures Val(r) == FixedPoint.Append(Val(result), shift, Val(quo))
  {
    r := Add(Lsl(result, shift), quo);
  }

  /** The same quotient as the native form, computed with the bit-at-a-time divider. */
  method Udiv(a: U128, b: U128) returns (result: U128)
    requires 0 < Val(b) <= B127
    ensures Val(result) == Val(a) * B64 / Val(b) % B128
  {
    ghost var n, d := Val(a), Val(b);
    var rem;
    result, rem := DivRem(a, b);
    var digis := 0;
    var den, shift := SkipTrailingZeros(b);
    ghost var exact: nat := Val(result);
    ghost var cast := shift;
    ModIs(Val(result), B128, 0, Val(result));
    FixedPoint.Start(n, d, Val(result), Val(rem), Val(den), shift);
    while digis < 64 && rem != U128(0, 0)
      invariant digis + shift <= 64 && (digis > 0 ==> shift == 0)
      invariant FixedPoint.Underway(n, d, exact, digis, cast, shift, Val(rem), Val(den))
      invariant Val(result) == exact % B128
      decreases 64 - digis
    {
      var quo;
      quo, rem, den, shift, cast := NextBatch(rem, den, shift, digis, n, d, exact, cast);
      FixedPoint.ShiftIn(exact, shift, Val(quo));
      result := Append(result, shift, quo);
      exact := exact * Pow2(shift) + Val(quo);
      digis := digis + shift;
      shift := 0;
    }
    ZeroIs(rem);
    FixedPoint.Finish(n, d, exact, digis, cast, shift, Val(rem), Val(den));
    FixedPoint.ShiftIn(exact, 64 - digis, 0);
    if digis < 64 {
      shift := 64 - digis;
      result := Append(result, shift, U128(0, 0));
    }
  }

  function UmulByInvert(a: U128, b: U128): (r: U128)
    requires Val(a) <= B127
    ensures Val(r) == FixedPoint.UmulByInvert(Val(a), Val(b))
  {
    InvertAgrees(a, b);
    AddMiddle(Mul64(a.hi, b.hi), Add(Mul64(a.hi, b.lo), Mul64(a.lo, b.hi)))
  }

  function AddMiddle(hi: U128, mid: U128): (r: U128)
    ensures Val(r) == FixedPoint.AddMiddle(Val(hi), Val(mid))
  {
    Halves(mid);
    Add(hi, U128(0, mid.hi))
  }

  lemma InvertAgrees(a: U128, b: U128)
    requires Val(a) <= B127
    ensures FixedPoint.UmulByInvert(Val(a), Val(b))
         == FixedPoint.AddMiddle(Val(Mul64(a.hi, b.hi)), Val(Add(Mul64(a.hi, b.lo), Mul64(a.lo, b.hi))))
  {
    Halves(a);
    Halves(b);
    FixedPoint.PartialProducts(Val(a), Val(b));
    hide Mul64, Add, FixedPoint.AddMiddle;
  }

  // ---------- the value type ----------

  function Magnitude(a: U128): (r: U128)
    ensures Val(r) == Abs(Signed(a))
  {
    MagnitudeIs(a);
    if Negative(a) then Negate(a) else a
  }

  /** Giving the magnitude its sign back is the native form's step, done on pairs. */
  lemma ResignPair(negative: bool, result: U128)
    ensures Signed(if negative then Negate(result) else result) == ToSigned(FixedPoint.WithSign(negative, Val(result)))
  {
    SignedIs(if negative then Negate(result) else result);
    ToSignedMod(0 - Val(result));
  }

  lemma SignIs(a: U128)
    ensures Negative(a) <==> Signed(a) < 0
  {
  }

  lemma UmulIs(a: u128, b: u128)
    requires a <= B127 && b <= B127
    ensures FixedPoint.Umul(a, b) == a * b / B64 % B128
  {
  }

  class Int64x64 {
    var v: U128

    constructor (hi: i64, lo: u64)
      ensures Signed(v) == hi * B64 + lo && v.lo == lo
    {
      v := U128(if hi < 0 then hi + B64 else hi, lo);
    }

    function GetHigh(): (r: i64)
      reads this
      ensures r * B64 <= Signed(v) < (r + 1) * B64
    {
      Signed64(v.hi)
    }

    /**
     The native form's product, or an abort just when the product of the integer parts of the magnitudes
     needs a second word.  Without an abort it is exact just when it fits in 128 bits.
     */
    method Mul(o: Int64x64) returns (aborted: bool)
      modifies this
      ensures aborted <==> Abs(old(Signed(v))) / B64 * (Abs(old(Signed(o.v))) / B64) >= B64
      ensures aborted ==> Abs(old(Signed(v))) * Abs(old(Signed(o.v))) >= B128 * B64
      ensures !aborted ==> Signed(v) == ToSigned(TruncDiv(old(Signed(v)) * old(Signed(o.v)), B64))
      ensures var product := TruncDiv(old(Signed(v)) * old(Signed(o.v)), B64);
        !aborted ==> (Signed(v) == product <==> -B127 <= product < B127)
    {
      hide Val, Signed, Negate, Negative, Magnitude, Umul, FixedPoint.Umul;
      ghost var x: int, y: int := Signed(v), Signed(o.v);
      SignIs(v);
      SignIs(o.v);
      var sign := (Negative(v) && !Negative(o.v)) || (!Negative(v) && Negative(o.v));
      var a, b := Magnitude(v), Magnitude(o.v);
      Halves(a);
      Halves(b);
      var product := Umul(a, b);
      if product.Aborted? {
        AbortMeansOverflow(a, b);
        return true;
      }
      var result := product.value;
      UmulIs(Val(a), Val(b));
      FixedPoint.Resign(x, y, B64, TruncDiv(x * y, B64), Val(result));
      FixedPoint.AbsProduct(x, y);
      ModIs(0, B128, 0, 0);
      ToSignedExact(TruncDiv(x * y, B64));
      ResignPair(sign, result);
      v := if sign then Negate(result) else result;
      aborted := false;
    }

    method Div(o: Int64x64)
      requires Signed(o.v) != 0
      modifies this
      ensures Signed(v) == ToSigned(TruncDiv(old(Signed(v)) * B64, old(Signed(o.v))))
      ensures var quotient := TruncDiv(old(Signed(v)) * B64, old(Signed(o.v)));
        Signed(v) == quotient <==> -B127 <= quotient < B127
    {
      ghost var x: int, y: int := Signed(v), Signed(o.v);
      var sign := (Negative(v) && !Negative(o.v)) || (!Negative(v) && Negative(o.v));
      var a, b := Magnitude(v), Magnitude(o.v);
      var result := Udiv(a, b);
      FixedPoint.Resign(x, B64, y, TruncDiv(x * B64, y), Val(result));
      ModIs(0, B128, 0, 0);
      ToSignedExact(TruncDiv(x * B64, y));
      ResignPair(sign, result);
      v := if sign then Negate(result) else result;
    }

    /**
     As in the native form: at most one unit short exactly when the middle products fit, and the floor of the
     quotient for an integer and an inverse.
     */
    method MulByInvert(o: Int64x64)
      modifies this
      ensures FixedPoint.ShortByOne(old(Signed(v)), old(Val(o.v)), Signed(v))
         <==> FixedPoint.MiddleFits(Abs(old(Signed(v))), old(Val(o.v)))
      ensures old(Val(o.v)) <= B127 ==> FixedPoint.ShortByOne(old(Signed(v)), old(Val(o.v)), Signed(v))
      ensures old(v.lo) == 0 ==> Signed(v) == FixedPoint.IntegerByInvert(old(GetHigh()), old(Val(o.v)))
      ensures forall d: u64 :: d > 1 && old(v.lo) == 0 && old(Val(o.v)) == FixedPoint.InverseOf(d) ==> GetHigh() == old(GetHigh()) / d
    {
      hide UmulByInvert, FixedPoint.UmulByInvert, FixedPoint.IntegerByInvert, FixedPoint.InverseOf, FixedPoint.ShortByOne,
        FixedPoint.MiddleFits, TruncDiv, Negate, Magnitude;
      ghost var x: int, n: int, b, whole := Signed(v), GetHigh(), Val(o.v), v.lo == 0;
      var sign := Negative(v);
      var result := UmulByInvert(Magnitude(v), o.v);
      ResignPair(sign, result);
      v := if sign then Negate(result) else result;
      FixedPoint.InverseProduct(x, b, Val(result));
      if whole {
        FixedPoint.IntegerByInvertIs(n, b);
        forall d: u64 | d > 1 && b == FixedPoint.InverseOf(d) ensures FixedPoint.IntegerByInvert(n, b) / B64 == n / d {
          FixedPoint.InverseLaw(n, d);
        }
        ModIs(Signed(v), B64, GetHigh(), v.lo);
      }
    }

    /** The same 128-bit inverse as the native form, with the same one exception. */
    static method Invert(v: u64) returns (result: Int64x64)
      requires v > 1
      ensures fresh(result)
      ensures Val(result.v) == FixedPoint.InverseOf(v) <= B127
    {
      hide FixedPoint.InverseOf, FixedPoint.CeilInverse, FixedPoint.IntegerByInvert, TruncDiv, ToSigned;
      result := new Int64x64(0, 0);
      var quo := Udiv(U128(1, 0), U128(0, v));
      FixedPoint.InverseFits(v);
      result.v := quo;
      var tmp := new Int64x64(if v >= B63 then v - B64 else v, 0);
      assert tmp.v.lo == 0 && tmp.GetHigh() == if v >= B63 then v - B64 else v;
      FixedPoint.InverseOfFits(v);
      tmp.MulByInvert(result);
      assert Signed(tmp.v) == FixedPoint.ProbeValue(v, Val(quo));
      var high := tmp.GetHigh();
      FixedPoint.InverseStep(v, Val(quo), high);
      if high != 1 {
        result.v := Add(result.v, U128(0, 1));
      }
    }
  }
}
