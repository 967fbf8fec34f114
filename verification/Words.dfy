/**
 Machine words as bounded integers, and the few facts about products, quotients and
 powers of two that the wide-integer and fixed-point proofs share.
 */
module Words {
  const B32: int := 0x1_0000_0000
  const B63: int := 0x8000_0000_0000_0000
  const B64: int := 0x1_0000_0000_0000_0000
  const B127: int := 0x8000_0000_0000_0000_0000_0000_0000_0000
  const B128: int := 0x1_0000_0000_0000_0000_0000_0000_0000_0000

  type u32 = x: int | 0 <= x < B32
  type u64 = x: int | 0 <= x < B64
  type u128 = x: int | 0 <= x < B128
  type i64 = x: int | -B63 <= x < B63
  type i128 = x: int | -B127 <= x < B127

  function Abs(x: int): (r: nat)
  {
    if x < 0 then -x else x
  }

  /** The two's complement reading of a 128-bit pattern. */
  function ToSigned(x: int): (r: i128)
    ensures (r - x) % B128 == 0
  {
    var y := x % B128;
    var r := if y < B127 then y else y - B128;
    DivMod(x, B128);
    ModIs(r - x, B128, if y < B127 then -(x / B128) else -(x / B128) - 1, 0);
    r
  }

  lemma ToSignedId(x: i128)
    ensures ToSigned(x) == x
  {
    ModIs(x, B128, if x >= 0 then 0 else -1, if x >= 0 then x else x + B128);
  }

  /** A number is its own signed word exactly when it fits. */
  lemma ToSignedExact(x: int)
    ensures ToSigned(x) == x <==> -B127 <= x < B127
  {
    if -B127 <= x < B127 { ToSignedId(x); }
  }

  lemma ToSignedMod(x: int)
    ensures ToSigned(x % B128) == ToSigned(x)
    ensures ToSigned(0 - x % B128) == ToSigned(-x)
  {
    DivMod(x, B128);
    ModEq(x % B128, x, B128, -(x / B128));
    ModEq(0 - x % B128, -x, B128, x / B128);
  }

  // ---------- products and quotients ----------

  lemma MulMono(a: int, b: int, m: int)
    requires a <= b && m >= 0
    ensures a * m <= b * m
  {
    assert (b - a) * m >= 0;
  }

  /** One more factor is worth at least one more multiple. */
  lemma MulStep(a: int, b: int, m: int)
    requires a < b && m >= 0
    ensures a * m + m <= b * m
  {
    MulMono(a + 1, b, m);
    assert (a + 1) * m == a * m + m;
  }

  lemma DivMod(x: int, m: int)
    requires m > 0
    ensures x == x / m * m + x % m && 0 <= x % m < m
  {
  }

  /** Quotient and remainder are the only pair with these properties. */
  lemma ModIs(x: int, m: int, q: int, r: int)
    requires m > 0 && 0 <= r < m && x == q * m + r
    ensures x % m == r && x / m == q
  {
    DivMod(x, m);
    if x / m < q { MulStep(x / m, q, m); }
    if x / m > q { MulStep(q, x / m, m); }
  }

  lemma QuotientBound(n: nat, d: nat)
    requires d > 0
    ensures 0 <= n / d <= n && (d >= 2 && n > 0 ==> n / d < n)
  {
    DivMod(n, d);
    if n / d < 0 { MulMono(n / d, -1, d); }
    MulMono(1, d, n / d);
    if d >= 2 { MulMono(2, d, n / d); }
  }

  /** Adding a multiple of the modulus changes nothing. */
  lemma ModShift(x: int, m: int, k: int)
    requires m > 0
    ensures (x + k * m) % m == x % m
  {
    DivMod(x, m);
    assert x + k * m == (x / m + k) * m + x % m;
    ModIs(x + k * m, m, x / m + k, x % m);
  }

  /** Equal remainders are equal up to a multiple. */
  lemma ModEq(x: int, y: int, m: int, k: int)
    requires m > 0 && x == y + k * m
    ensures x % m == y % m
  {
    ModShift(y, m, k);
  }

  /** Cancelling a common positive factor of a quotient. */
  lemma DivCancel(x: int, m: int, c: int)
    requires m > 0 && c > 0
    ensures m * c > 0 && (x * c) / (m * c) == x / m
  {
    DivMod(x, m);
    var q, r := x / m, x % m;
    MulMono(0, r, c);
    MulStep(r, m, c);
    MulMono(1, c, m);
    assert x * c == (q * m + r) * c == q * (m * c) + r * c;
    ModIs(x * c, m * c, q, r * c);
  }

  /** Floors nest. */
  lemma DivDiv(x: int, m: int, n: int)
    requires m > 0 && n > 0
    ensures m * n > 0 && x / m / n == x / (m * n)
  {
    DivMod(x, m);
    DivMod(x / m, n);
    var q, r, q', r' := x / m, x % m, x / m / n, x / m % n;
    MulStep(r', n, m);
    MulMono(0, r', m);
    MulMono(1, n, m);
    assert q * m == (q' * n + r') * m == q' * (m * n) + r' * m;
    ModIs(x, m * n, q', r' * m + r);
  }

  lemma DivMono(x: int, y: int, m: int)
    requires x <= y && m > 0
    ensures x / m <= y / m
  {
    DivMod(x, m);
    DivMod(y, m);
    if x / m > y / m { MulStep(y / m, x / m, m); }
  }

  lemma Distrib(a: int, b: int, c: int)
    ensures (a + b) * c == a * c + b * c
  {
  }

  lemma Assoc(a: int, b: int, c: int)
    ensures a * b * c == a * (b * c) == a * c * b
  {
  }

  /** A product of two-word numbers is the sum of its four partial products. */
  lemma Foil(ah: int, al: int, bh: int, bl: int, w: int)
    ensures (ah * w + al) * (bh * w + bl) == ah * bh * (w * w) + (al * bh + ah * bl) * w + al * bl
  {
    Distrib(ah * w, al, bh * w + bl);
    Distrib(bh * w, bl, ah * w);
    Distrib(bh * w, bl, al);
    Assoc(ah, w, bh * w);
    Assoc(bh, w, w);
    Assoc(ah, bh, w * w);
    Assoc(bl, ah, w);
    Assoc(bh, al, w);
    Distrib(al * bh, ah * bl, w);
  }

  /** Cutting x < p * q at q: the high part is below p, and scaling by p moves the cut to p * q. */
  lemma Cut(x: int, p: int, q: int)
    requires p > 0 && q > 0 && 0 <= x < p * q
    ensures x == x / q * q + x % q
    ensures 0 <= x / q < p && 0 <= x % q < q
    ensures 0 <= x % q * p <= p * q - p
    ensures x * p == x / q * (p * q) + x % q * p
    ensures x * p % (p * q) == x % q * p
  {
    var d, r := x / q, x % q;
    DivMod(x, q);
    if d >= p { MulMono(p, d, q); }
    if d < 0 { MulMono(d, -1, q); }
    MulStep(r, q, p);
    MulMono(0, r, p);
    Distrib(d * q, r, p);
    Assoc(d, q, p);
    ModIs(x * p, p * q, d, r * p);
  }

  // ---------- powers of two ----------

  function Pow2(n: nat): (p: nat)
    ensures p > 0
  {
    if n == 0 then 1 else 2 * Pow2(n - 1)
  }

  lemma {:induction false} Pow2Add(m: nat, n: nat)
    ensures Pow2(m + n) == Pow2(m) * Pow2(n)
  {
    if n == 0 {
    } else {
      Pow2Add(m, n - 1);
      assert Pow2(m + n) == 2 * Pow2(m + (n - 1)) == 2 * (Pow2(m) * Pow2(n - 1)) == Pow2(m) * (2 * Pow2(n - 1));
    }
  }

  lemma Pow2Four(n: nat)
    requires n == 4
    ensures Pow2(n) == 16
  {
    assert Pow2(n) == 2 * Pow2(n - 1) && Pow2(n - 1) == 2 * Pow2(n - 2);
  }

  // The exponent is a parameter so that no caller unfolds Pow2 on a literal.
  lemma Pow2Is32(n: nat)
    requires n == 32
    ensures Pow2(n) == B32
  {
    assert Pow2(n - 24) == 256 by {
      Pow2Four(n - 28);
      Pow2Add(n - 28, n - 28);
    }
    assert Pow2(n - 16) == 0x1_0000 by { Pow2Add(n - 24, n - 24); }
    Pow2Add(n - 16, n - 16);
  }

  lemma Pow2Is64(n: nat)
    requires n == 64
    ensures Pow2(n) == B64
  {
    Pow2Is32(n - 32);
    Pow2Add(n - 32, n - 32);
  }

  lemma Pow2Word(w: nat, s: nat)
    requires w == 64
    ensures Pow2(w + s) == B64 * Pow2(s)
  {
    Pow2Add(w, s);
    Pow2Is64(w);
  }

  // ---------- truncating division ----------

  /** Division as C defines it: the quotient is cut off toward zero. */
  function TruncDiv(a: int, b: int): (q: int)
    requires b != 0
  {
    if (a < 0) == (b < 0) then Abs(a) / Abs(b) else -(Abs(a) / Abs(b))
  }

  function TruncRem(a: int, b: int): (r: int)
    requires b != 0
  {
    if a < 0 then -(Abs(a) % Abs(b)) else Abs(a) % Abs(b)
  }

  /** What makes it truncating: the remainder is short and has the numerator's sign. */
  lemma TruncLaw(a: int, b: int)
    requires b != 0
    ensures a == TruncDiv(a, b) * b + TruncRem(a, b)
    ensures Abs(TruncRem(a, b)) < Abs(b)
    ensures TruncRem(a, b) == 0 || (TruncRem(a, b) < 0) == (a < 0)
  {
    var q, m := Abs(a) / Abs(b), Abs(b);
    DivMod(Abs(a), m);
    assert q * m == -q * -m;
    assert -(q * m) == q * -m == -q * m;
  }
}
