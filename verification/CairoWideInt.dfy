/**
 128-bit integers as pairs of 64-bit words (cairo-wideint.c, the form built without a
 native 128-bit type).  Each operation keeps the source's carries, masks and casts;
 its contract says which number the resulting pair denotes.
 */
module CairoWideInt {
  import opened Words

  datatype U128 = U128(hi: u64, lo: u64)

  function Val(a: U128): (v: u128)
  {
    a.hi * B64 + a.lo
  }

  /** The number a pair stands for when it is used as a cairo_int128_t. */
  function Signed(a: U128): (v: i128)
  {
    if a.hi >= B63 then Val(a) - B128 else Val(a)
  }

  lemma SignedIs(a: U128)
    ensures Signed(a) == ToSigned(Val(a))
  {
    ModIs(Val(a), B128, 0, Val(a));
  }

  lemma ZeroIs(a: U128)
    ensures a == U128(0, 0) <==> Val(a) == 0
  {
  }

  // ---------- 64-bit words ----------

  function Add64(a: u64, b: u64): (s: u64)
    ensures s == if a + b < B64 then a + b else a + b - B64
  {
    ModIs(a + b, B64, if a + b < B64 then 0 else 1, if a + b < B64 then a + b else a + b - B64);
    (a + b) % B64
  }

  function Sub64(a: u64, b: u64): (s: u64)
    ensures s == if a >= b then a - b else a - b + B64
  {
    ModIs(a - b, B64, if a >= b then 0 else -1, if a >= b then a - b else a - b + B64);
    (a - b) % B64
  }

  function Lsl64(a: u64, shift: nat): (s: u64)
    requires shift < 64
  {
    a * Pow2(shift) % B64
  }

  function Rsl64(a: u64, shift: nat): (s: u64)
    requires shift < 64
  {
    QuotientBound(a, Pow2(shift));
    a / Pow2(shift)
  }

  // ---------- 128-bit addition, subtraction, comparison ----------

  function Add(a: U128, b: U128): (s: U128)
    ensures Val(s) == (Val(a) + Val(b)) % B128
  {
    var hi := Add64(a.hi, b.hi);
    var lo := Add64(a.lo, b.lo);
    var s := U128(if lo < a.lo then Add64(hi, 1) else hi, lo);
    ModIs(Val(a) + Val(b), B128, if Val(a) + Val(b) < B128 then 0 else 1, Val(s));
    s
  }

  function Sub(a: U128, b: U128): (s: U128)
    ensures Val(s) == (Val(a) - Val(b)) % B128
  {
    var hi := Sub64(a.hi, b.hi);
    var lo := Sub64(a.lo, b.lo);
    var s := U128(if lo > a.lo then Sub64(hi, 1) else hi, lo);
    ModIs(Val(a) - Val(b), B128, if Val(a) >= Val(b) then 0 else -1, Val(s));
    s
  }

  function Not(a: U128): (s: U128)
    ensures Val(s) == B128 - 1 - Val(a)
  {
    U128(B64 - 1 - a.hi, B64 - 1 - a.lo)
  }

  function Negate(a: U128): (s: U128)
    ensures Val(s) == (0 - Val(a)) % B128
    ensures Val(s) == if Val(a) == 0 then 0 else B128 - Val(a)
  {
    var s := Add(Not(a), U128(0, 1));
    ModIs(B128 - Val(a), B128, if Val(a) == 0 then 1 else 0, if Val(a) == 0 then 0 else B128 - Val(a));
    ModIs(0 - Val(a), B128, if Val(a) == 0 then 0 else -1, if Val(a) == 0 then 0 else B128 - Val(a));
    s
  }

  predicate Lt(a: U128, b: U128)
    ensures Lt(a, b) <==> Val(a) < Val(b)
  {
    a.hi < b.hi || (a.hi == b.hi && a.lo < b.lo)
  }

  predicate Negative(a: U128)
    ensures Negative(a) <==> Signed(a) < 0
  {
    a.hi >= B63
  }

  predicate SignedLt(a: U128, b: U128)
    ensures SignedLt(a, b) <==> Signed(a) < Signed(b)
  {
    if Negative(a) && !Negative(b) then true
    else if !Negative(a) && Negative(b) then false
    else Lt(a, b)
  }

  /** The magnitude of a signed pair, as the callers of the unsigned routines take it. */
  lemma MagnitudeIs(a: U128)
    ensures Val(if Negative(a) then Negate(a) else a) == Abs(Signed(a))
  {
  }

  // ---------- shifts ----------

  /** Cutting a word at bit 64 - s: what a left shift by s keeps and what it carries out. */
  lemma SplitWord(x: u64, s: nat)
    requires 0 < s < 64
    ensures var p, q := Pow2(s), Pow2(64 - s);
      && p * q == B64
      && x == x / q * q + x % q && 0 <= x / q < p && 0 <= x % q < q
      && 0 <= x % q * p <= B64 - p
      && x * p == x / q * B64 + x % q * p
      && x * p % B64 == x % q * p
  {
    Pow2Add(s, 64 - s);
    Pow2Is64(s + (64 - s));
    Cut(x, Pow2(s), Pow2(64 - s));
  }

  function Lsl(a: U128, shift: nat): (r: U128)
    requires shift < 128
    ensures Val(r) == Val(a) * Pow2(shift) % B128
  {
    LslValue(a, shift);
    LslPair(a, shift)
  }

  function LslPair(a: U128, shift: nat): (r: U128)
    requires shift < 128
  {
    var (b, s) := if shift >= 64 then (U128(a.lo, 0), shift - 64) else (a, shift);
    if s != 0 then U128(Add64(Lsl64(b.hi, s), Rsl64(b.lo, 64 - s)), Lsl64(b.lo, s)) else b
  }

  lemma LslWithin(a: U128, s: nat)
    requires 0 < s < 64
    ensures Val(U128(Add64(Lsl64(a.hi, s), Rsl64(a.lo, 64 - s)), Lsl64(a.lo, s))) == Val(a) * Pow2(s) % B128
  {
    var p, q := Pow2(s), Pow2(64 - s);
    SplitWord(a.hi, s);
    SplitWord(a.lo, s);
    var r := U128(Add64(Lsl64(a.hi, s), Rsl64(a.lo, 64 - s)), Lsl64(a.lo, s));
    var h1, h0, l1, l0 := a.hi / q, a.hi % q * p, a.lo / q, a.lo % q * p;
    assert r == U128(h0 + l1, l0);
    Distrib(a.hi * B64, a.lo, p);
    Assoc(a.hi, B64, p);
    ModIs(Val(a) * p, B128, h1, Val(r));
  }

  lemma LslBelow64(a: U128, s: nat)
    requires s < 64
    ensures Val(LslPair(a, s)) == Val(a) * Pow2(s) % B128
  {
    if s == 0 { ModIs(Val(a), B128, 0, Val(a)); } else { LslWithin(a, s); }
  }

  lemma LslFrom64(a: U128, s: nat)
    requires s < 64
    ensures Val(LslPair(a, 64 + s)) == Val(a) * Pow2(64 + s) % B128
  {
    Pow2Word(64, s);
    MoveHigh(a.hi, a.lo, Pow2(s));
    LslBelow64(U128(a.lo, 0), s);
  }

  lemma LslValue(a: U128, shift: nat)
    requires shift < 128
    ensures Val(LslPair(a, shift)) == Val(a) * Pow2(shift) % B128
  {
    if shift < 64 { LslBelow64(a, shift); } else { LslFrom64(a, shift - 64); }
  }

  /** Shifting by a whole word pushes the high word out. */
  lemma MoveHigh(hi: int, lo: int, p: int)
    ensures (hi * B64 + lo) * (B64 * p) % B128 == lo * B64 * p % B128
  {
    Distrib(hi * B64, lo, B64 * p);
    Assoc(lo, B64, p);
    Assoc(hi * B64, B64, p);
    Assoc(hi, B128, p);
    ModEq((hi * B64 + lo) * (B64 * p), lo * B64 * p, B128, hi * p);
  }

  function Rsl(a: U128, shift: nat): (r: U128)
    requires shift < 128
    ensures Val(r) == Val(a) / Pow2(shift)
  {
    RslValue(a, shift);
    RslPair(a, shift)
  }

  function RslPair(a: U128, shift: nat): (r: U128)
    requires shift < 128
  {
    var (b, s) := if shift >= 64 then (U128(0, a.hi), shift - 64) else (a, shift);
    if s != 0 then U128(Rsl64(b.hi, s), Add64(Rsl64(b.lo, s), Lsl64(b.hi, 64 - s))) else b
  }

  lemma RslWithin(a: U128, s: nat)
    requires 0 < s < 64
    ensures Val(U128(Rsl64(a.hi, s), Add64(Rsl64(a.lo, s), Lsl64(a.hi, 64 - s)))) == Val(a) / Pow2(s)
  {
    var p, q := Pow2(s), Pow2(64 - s);
    SplitWord(a.hi, 64 - s);
    SplitWord(a.lo, 64 - s);
    var r := U128(Rsl64(a.hi, s), Add64(Rsl64(a.lo, s), Lsl64(a.hi, 64 - s)));
    var h1, h0, l1, l0 := a.hi / p, a.hi % p, a.lo / p, a.lo % p;
    assert r == U128(h1, l1 + h0 * q);
    Distrib(h1 * B64, l1 + h0 * q, p);
    Distrib(l1, h0 * q, p);
    Assoc(h1, B64, p);
    Assoc(h0, q, p);
    ModIs(Val(a), p, Val(r), l0);
  }

  lemma RslFrom64(a: U128, s: nat)
    requires s < 64
    ensures Val(RslPair(a, 64 + s)) == Val(a) / Pow2(64 + s)
  {
    Pow2Word(64, s);
    ModIs(Val(a), B64, a.hi, a.lo);
    DivDiv(Val(a), B64, Pow2(s));
    if s != 0 { RslWithin(U128(0, a.hi), s); }
  }

  lemma RslValue(a: U128, shift: nat)
    requires shift < 128
    ensures Val(RslPair(a, shift)) == Val(a) / Pow2(shift)
  {
    if shift >= 64 { RslFrom64(a, shift - 64); } else if shift != 0 { RslWithin(a, shift); }
  }

  // ---------- multiplication ----------

  /** Products of 32-bit halves never leave 64 bits, with room for one more carry. */
  lemma HalfProduct(a: u32, b: u32)
    ensures 0 <= a * b <= (B32 - 1) * (B32 - 1)
  {
    MulMono(0, a, b);
    MulMono(a, B32 - 1, b);
    MulMono(b, B32 - 1, B32 - 1);
  }

  function Mul64(a: u64, b: u64): (s: U128)
    ensures Val(s) == a * b
  {
    DivMod(a, B32);
    DivMod(b, B32);
    var (al, ah, bl, bh) := (a % B32, a / B32, b % B32, b / B32);
    HalfProduct(al, bl);
    HalfProduct(al, bh);
    HalfProduct(ah, bl);
    HalfProduct(ah, bh);
    var r0: u64 := al * bl;
    var r1: u64 := al * bh;
    var r2: u64 := ah * bl;
    var r3: u64 := ah * bh;
    var r1' := Add64(r1, r0 / B32);
    var r1'' := Add64(r1', r2);
    var r3' := if r1'' < r2 then Add64(r3, B32) else r3;
    DivMod(r0, B32);
    DivMod(r1'', B32);
    ModIs(r1'' * B32, B64, r1'' / B32, r1'' % B32 * B32);
    Foil(ah, al, bh, bl, B32);
    ProductFits(a, b);
    U128(Add64(r3', r1'' / B32), Add64(r1'' * B32 % B64, r0 % B32))
  }

  lemma ProductFits(a: u64, b: u64)
    ensures 0 <= a * b <= (B64 - 1) * (B64 - 1)
  {
    MulMono(0, a, b);
    MulMono(a, B64 - 1, b);
    MulMono(b, B64 - 1, B64 - 1);
  }

  /** Reads a 64-bit pattern as a cairo_int64_t. */
  function Signed64(a: u64): (v: i64)
  {
    if a >= B63 then a - B64 else a
  }

  /** The exact signed product, from the unsigned one by taking the sign words off the high half. */
  function SignedMul64(a: u64, b: u64): (s: U128)
    ensures Signed(s) == Signed64(a) * Signed64(b)
  {
    var s0 := Mul64(a, b);
    var h1 := if Signed64(a) < 0 then Sub64(s0.hi, b) else s0.hi;
    var h2 := if Signed64(b) < 0 then Sub64(h1, a) else h1;
    var s := U128(h2, s0.lo);
    SignedProductFits(Signed64(a), Signed64(b));
    SignedCorrection(a, b, Val(s0), if Signed64(a) < 0 then 1 else 0, if Signed64(b) < 0 then 1 else 0);
    s
  }

  lemma SignedProductFits(x: i64, y: i64)
    ensures -B127 < x * y < B127
  {
    MulMono(0, Abs(x), Abs(y));
    MulMono(Abs(x), B63, Abs(y));
    MulMono(Abs(y), B63, B63);
    assert x * y == Abs(x) * Abs(y) || x * y == -(Abs(x) * Abs(y));
  }

  lemma SignedCorrection(a: int, b: int, ab: int, na: int, nb: int)
    requires ab == a * b && 0 <= na <= 1 && 0 <= nb <= 1
    ensures (a - na * B64) * (b - nb * B64) == ab - B64 * (na * b) - B64 * (nb * a) + na * nb * B128
  {
  }

  /** The low 128 bits of a 128-bit product. */
  function Mul(a: U128, b: U128): (s: U128)
    ensures Val(s) == Val(a) * Val(b) % B128
  {
    var s0 := Mul64(a.lo, b.lo);
    var h1 := Add64(s0.hi, a.lo * b.hi % B64);
    var h2 := Add64(h1, a.hi * b.lo % B64);
    var s := U128(h2, s0.lo);
    MulLowHalf(a, b, Val(s), s0, h1);
    s
  }

  lemma MulLowHalf(a: U128, b: U128, v: u128, s0: U128, h1: u64)
    requires s0 == Mul64(a.lo, b.lo) && h1 == Add64(s0.hi, a.lo * b.hi % B64)
    requires v == Val(U128(Add64(h1, a.hi * b.lo % B64), s0.lo))
    ensures v == Val(a) * Val(b) % B128
  {
    var x, y, z := a.lo * b.hi, a.hi * b.lo, a.hi * b.hi;
    DivMod(x, B64);
    DivMod(y, B64);
    var c1 := if s0.hi + x % B64 < B64 then 0 else 1;
    var c2 := if h1 + y % B64 < B64 then 0 else 1;
    var k := z + x / B64 + y / B64 + c1 + c2;
    Foil(a.hi, a.lo, b.hi, b.lo, B64);
    ModIs(Val(a) * Val(b), B128, k, v);
  }

  // ---------- bit-at-a-time division ----------

  /** One left shift of a value below 2^127 loses nothing. */
  lemma DoubleIs(a: U128)
    requires Val(a) < B127
    ensures Val(Lsl(a, 1)) == 2 * Val(a)
  {
    assert Pow2(1) == 2;
    ModIs(2 * Val(a), B128, 0, 2 * Val(a));
  }

  lemma HalveIs(a: U128)
    ensures Val(Rsl(a, 1)) == Val(a) / 2
  {
    assert Pow2(1) == 2;
  }

  /** Scales the denominator up to the numerator, or until its top bit is set. */
  method Normalize(num: U128, den0: U128) returns (bit: U128, den: U128, ghost k: nat)
    requires Val(den0) > 0
    ensures Val(bit) == Pow2(k) && Val(den) == Val(den0) * Pow2(k)
    ensures Val(num) <= Val(den) || Val(den) >= B127
  {
    bit, den, k := U128(0, 1), den0, 0;
    while Lt(den, num) && den.hi < B63
      invariant Val(bit) == Pow2(k) && Val(den) == Val(den0) * Pow2(k)
      decreases B128 - Val(den)
    {
      MulMono(1, Val(den0), Pow2(k));
      DoubleIs(bit);
      DoubleIs(den);
      Assoc(Val(den0), Pow2(k), 2);
      bit := Lsl(bit, 1);
      den := Lsl(den, 1);
      k := k + 1;
    }
  }

  /** Shift-and-subtract division: quotient and remainder of any 128-bit numerator by any positive denominator. */
  method DivRem(num0: U128, den0: U128) returns (quo: U128, rem: U128)
    requires Val(den0) > 0
    ensures Val(quo) == Val(num0) / Val(den0)
    ensures Val(rem) == Val(num0) % Val(den0)
  {
    hide Val, Add, Sub, Lsl, Rsl, Lt, Pow2;
    ghost var n, d := Val(num0), Val(den0);
    var num := num0;
    var bit, den, k := Normalize(num0, den0);
    quo := U128(0, 0);
    ZeroIs(quo);
    ZeroIs(bit);
    QuotientStarts(d, k, Val(num), Val(den));
    while bit != U128(0, 0)
      invariant n == Val(quo) * d + Val(num)
      invariant bit != U128(0, 0) ==> Val(bit) == Pow2(k) && Val(den) == d * Pow2(k) && Val(num) < 2 * Val(den)
      invariant bit == U128(0, 0) ==> Val(num) < d
      decreases Val(bit)
    {
      if !Lt(num, den) {
        QuotientGrows(n, d, Val(quo), Val(num), Pow2(k));
        num := Sub(num, den);
        quo := Add(quo, bit);
      }
      HalvePower(d, k, bit, den);
      bit := Rsl(bit, 1);
      den := Rsl(den, 1);
      k := if k > 0 then k - 1 else 0;
    }
    rem := num;
    ModIs(n, d, Val(quo), Val(rem));
  }

  /** Where the normalisation stopped, one more doubling would pass the numerator. */
  lemma QuotientStarts(d: int, k: nat, num: u128, den: int)
    requires d > 0 && den == d * Pow2(k) && (num <= den || den >= B127)
    ensures num < 2 * den
  {
    MulMono(1, d, Pow2(k));
  }

  lemma HalvePower(d: int, k: nat, bit: U128, den: U128)
    requires Val(bit) == Pow2(k) && Val(den) == d * Pow2(k)
    ensures k == 0 ==> Rsl(bit, 1) == U128(0, 0) && Val(den) == d
    ensures k > 0 ==> Rsl(bit, 1) != U128(0, 0)
    ensures k > 0 ==> Val(Rsl(bit, 1)) == Pow2(k - 1) && Val(Rsl(den, 1)) == d * Pow2(k - 1) && 2 * Val(Rsl(den, 1)) == Val(den)
    ensures Val(Rsl(bit, 1)) < Val(bit)
  {
    HalveIs(bit);
    HalveIs(den);
    ZeroIs(Rsl(bit, 1));
    if k > 0 { Assoc(d, Pow2(k - 1), 2); }
  }

  lemma QuotientGrows(n: u128, d: u128, quo: u128, num: u128, bit: int)
    requires d > 0 && bit > 0 && n == quo * d + num && d * bit <= num
    ensures (quo + bit) % B128 == quo + bit
    ensures (num - d * bit) % B128 == num - d * bit
    ensures n == (quo + bit) * d + (num - d * bit)
  {
    MulMono(0, d, bit);
    ModIs(num - d * bit, B128, 0, num - d * bit);
    Distrib(quo, bit, d);
    MulMono(1, d, quo + bit);
    ModIs(quo + bit, B128, 0, quo + bit);
  }

  /** Negating an unsigned magnitude up to 2^127 gives the negative number. */
  lemma NegateMagnitude(a: U128)
    requires Val(a) <= B127
    ensures Signed(Negate(a)) == 0 - Val(a)
  {
  }

  /**
   Signed division truncates toward zero, for every numerator and every non-zero denominator;
   the one quotient that has no 128-bit form, -2^127 / -1, wraps to -2^127.
   */
  method IntDivRem(num0: U128, den0: U128) returns (quo: U128, rem: U128)
    requires Signed(den0) != 0
    ensures Signed(rem) == TruncRem(Signed(num0), Signed(den0))
    ensures Signed(quo) == TruncDiv(Signed(num0), Signed(den0))
       <==> !(Signed(num0) == -B127 && Signed(den0) == -1)
    ensures Signed(num0) == -B127 && Signed(den0) == -1 ==> Signed(quo) == -B127
    ensures Signed(num0) == TruncDiv(Signed(num0), Signed(den0)) * Signed(den0) + Signed(rem)
    ensures Abs(Signed(rem)) < Abs(Signed(den0)) && (Signed(rem) == 0 || (Signed(rem) < 0) == (Signed(num0) < 0))
  {
    TruncLaw(Signed(num0), Signed(den0));
    var numNeg, denNeg := Negative(num0), Negative(den0);
    var num := if numNeg then Negate(num0) else num0;
    var den := if denNeg then Negate(den0) else den0;
    MagnitudeIs(num0);
    MagnitudeIs(den0);
    var uquo, urem := DivRem(num, den);
    QuotientBound(Val(num), Val(den));
    DivMod(Val(num), Val(den));
    NegateMagnitude(urem);
    NegateMagnitude(uquo);
    rem := if numNeg then Negate(urem) else urem;
    quo := if numNeg != denNeg then Negate(uquo) else uquo;
  }

  // ---------- 96-by-64 division by estimation ----------

  function Sub32(x: u32, y: u32): (s: u32)
    ensures (s + y) % B32 == x
  {
    if x >= y then x - y else x - y + B32
  }

  /** num = x 2^32 + y, so the quotient needs 32 bits exactly when x is below the denominator. */
  lemma FitsIffHighBelow(num: nat, den: nat)
    requires den > 0
    ensures num / B32 >= den <==> num >= den * B32
    ensures num < den * B32 <==> num / den < B32
  {
    DivMod(num, B32);
    DivMod(num, den);
    if num / den < B32 { MulStep(num / den, B32, den); } else { MulMono(B32, num / den, den); }
  }

  /** The two partial divisions account for the whole numerator. */
  lemma Estimate(x: int, y: int, u: int, v: int, q: int, r: int, q1: int, r1: int)
    requires x == q * (u + 1) + r
    requires q * (B32 - v) == q1 * (u * B32 + v) + r1
    ensures x * B32 + y == (q + q1) * (u * B32 + v) + r1 + (r * B32 + y)
  {
    Assoc(q, u, B32);
    Distrib(q, q1, u * B32 + v);
    assert q * (u * B32 + v) == q * (u * B32) + q * v;
    assert q * (B32 - v) == q * B32 - q * v;
    assert q * (u + 1) == q * u + q;
  }

  /** A partial quotient whose multiple still fits under the numerator fits in 32 bits. */
  lemma PartialFits(n: int, den: int, q: int, rest: int)
    requires den > 0 && rest >= 0 && q >= 0 && n == q * den + rest && n < den * B32
    ensures 0 <= q < B32 && q % B32 == q
  {
    if q >= B32 { MulMono(B32, q, den); }
    ModIs(q, B32, 0, q);
  }

  /** A rest that still holds the denominator moves one unit into the quotient, which stays within 32 bits. */
  lemma OneMore(n: int, den: int, q: int, rest: int)
    requires 0 < den <= rest && q >= 0 && n == q * den + rest && n < den * B32
    ensures n == (q + 1) * den + (rest - den) && q + 1 < B32 && (q + 1) % B32 == q + 1
  {
    Distrib(q, 1, den);
    PartialFits(n, den, q + 1, rest - den);
  }

  /** The first estimate: x over u + 1, where u + 1 is taken in 32 bits and wraps to zero for the largest u. */
  method FirstEstimate(x: u64, u: u32) returns (q: u32, r: u32)
    requires x < (u + 1) * B32
    ensures x == q * (u + 1) + r && r <= u
  {
    if (u + 1) % B32 != 0 {
      assert u != B32 - 1;
      DivMod(x, u + 1);
      QuotientBound(x, u + 1);
      if x / (u + 1) >= B32 { MulMono(B32, x / (u + 1), u + 1); }
      ModIs(x / (u + 1), B32, 0, x / (u + 1));
      ModIs(x % (u + 1), B32, 0, x % (u + 1));
      q, r := x / (u + 1) % B32, x % (u + 1) % B32;
    } else {
      if u != B32 - 1 { ModIs(u + 1, B32, 0, u + 1); }
      DivMod(x, B32);
      q, r := x / B32, x % B32;
    }
  }

  /** What the estimate left out: q (2^32 - v) over the denominator, where 2^32 - v is the 32-bit negation of v. */
  method MainTerm(q: u32, v: u32, den: u64) returns (q1: u64, r1: u64)
    requires den > 0
    ensures q * (B32 - v) == q1 * den + r1 && r1 < den
  {
    MulMono(B32 - v, B32, q);
    MulMono(0, B32 - v, q);
    var main: u64 := if v != 0 then q * Sub32(0, v) else q * B32;
    DivMod(main, den);
    QuotientBound(main, den);
    q1, r1 := main / den, main % den;
  }

  /** Adds the two rests, each of which is worth at most one more unit of the quotient. */
  method AddRests(quotient0: u32, remainder0: u64, r1: u64, den: u64, ghost n: nat) returns (quo: u64, rem: u64)
    requires r1 < den && remainder0 < 2 * den && n == quotient0 * den + (r1 + remainder0) && n < den * B32
    ensures quo == n / den && rem == n % den
  {
    var quotient, remainder := quotient0, remainder0;
    if remainder >= den {
      OneMore(n, den, quotient, r1 + remainder);
      remainder := Sub64(remainder, den);
      quotient := (quotient + 1) % B32;
    }
    assert n == quotient * den + (r1 + remainder) && remainder < den;
    var total := Add64(remainder, r1);
    if total >= den || total < r1 {
      OneMore(n, den, quotient, r1 + remainder);
      total := Sub64(total, den);
      quotient := (quotient + 1) % B32;
    }
    ModIs(n, den, quotient, total);
    quo, rem := quotient, total;
  }

  /** The case of a wide numerator: two 64-by-64 divisions instead of one 96-by-64. */
  method DivideWide(x: u64, y: u32, den: u64) returns (quo: u64, rem: u64)
    requires B32 <= x < den
    ensures quo == (x * B32 + y) / den && rem == (x * B32 + y) % den
  {
    var u: u32 := den / B32;
    var v: u32 := den % B32;
    ghost var n := x * B32 + y;
    DivMod(den, B32);
    var q, r := FirstEstimate(x, u);
    var q1, r1 := MainTerm(q, v, den);
    Estimate(x, y, u, v, q, r, q1, r1);
    PartialFits(n, den, q + q1, r1 + (r * B32 + y));
    ModIs(q1, B32, 0, q1);
    var quotient: u32 := (q + q1 % B32) % B32;
    quo, rem := AddRests(quotient, r * B32 + y, r1, den, n);
  }

  /**
   Division of a 96-bit numerator by a 64-bit denominator with a 32-bit quotient; a quotient
   that does not fit, also for the denominator zero, is announced by a remainder equal to the denominator.
   */
  method Divide96by64(num: U128, den: u64) returns (quo: u64, rem: u64)
    requires Val(num) < B32 * B64
    ensures if den == 0 || Val(num) / den >= B32 then quo == B64 - 1 && rem == den
            else quo == Val(num) / den && rem == Val(num) % den
  {
    Pow2Is32(32);
    var x := Rsl(num, 32).lo;
    ghost var n := Val(num);
    if den > 0 { FitsIffHighBelow(n, den); }
    DivMod(n, B32);
    ModIs(n / B32, B64, Rsl(num, 32).hi, x);
    ModIs(n / B32, B64, 0, n / B32);
    if x >= den {
      quo, rem := B64 - 1, den;
    } else if x < B32 {
      ModIs(n, B64, num.hi, num.lo);
      ModIs(n, B64, 0, n);
      QuotientBound(num.lo, den);
      quo, rem := num.lo / den, num.lo % den;
    } else {
      ModLow(num);
      quo, rem := DivideWide(x, num.lo % B32, den);
    }
  }

  lemma ModLow(num: U128)
    ensures Val(num) % B32 == num.lo % B32
  {
    ModEq(Val(num), num.lo, B32, num.hi * B32);
  }

  /**
   The signed form: truncating division, or for a quotient beyond 32 bits and for the denominator zero
   the largest int64 with the denominator itself as remainder.
   */
  method SignedDivide96by64(num0: U128, den: i64) returns (quo: i64, rem: i64)
    requires Abs(Signed(num0)) < B32 * B64
    ensures if den == 0 || Abs(Signed(num0)) / Abs(den) >= B32 then quo == B63 - 1 && rem == den
            else quo == TruncDiv(Signed(num0), den) && rem == TruncRem(Signed(num0), den)
  {
    var numNeg := Negative(num0);
    var num := if numNeg then Negate(num0) else num0;
    var nonnegDen: u64 := if den < 0 then 0 - den else den;
    MagnitudeIs(num0);
    var uquo, urem := Divide96by64(num, nonnegDen);
    if urem == nonnegDen {
      if nonnegDen > 0 { DivMod(Val(num), nonnegDen); }
      quo, rem := B63 - 1, den;
      return;
    }
    DivMod(Val(num), nonnegDen);
    QuotientBound(Val(num), nonnegDen);
    var q: int, r: int := uquo, urem;
    rem := if numNeg then -r else r;
    quo := if numNeg != (den < 0) then -q else q;
  }
}
