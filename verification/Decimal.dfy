/**
 Printing and reading Q64.64 numbers in decimal (int64x64.cc), in the default stream format.  The printer
 is proved against the decimal number it stands for, the reader against its two digit folds, and reading
 back what was printed gives the same 128 bits for every value but the most negative one.
 */
module Decimal {
  import opened Words
  import opened FixedPoint

  const FULL_PLACES := 20

  function Pow10(n: nat): (p: nat)
    ensures p > 0
  {
    if n == 0 then 1 else 10 * Pow10(n - 1)
  }

  // ---------- digits ----------

  predicate IsDigit(c: char)
  {
    '0' <= c <= '9'
  }

  predicate AllDigits(s: string)
  {
    forall i :: 0 <= i < |s| ==> IsDigit(s[i])
  }

  /** Digits and points. */
  predicate Numeral(s: string)
  {
    forall i :: 0 <= i < |s| ==> IsDigit(s[i]) || s[i] == '.'
  }

  function DigitChar(d: nat): (c: char)
    requires d < 10
    ensures IsDigit(c) && DigitOf(c) == d
  {
    ('0' as int + d) as char
  }

  function DigitOf(c: char): (d: int)
  {
    c as int - '0' as int
  }

  /** A natural number as the standard library prints it. */
  function DecimalOf(n: nat): (s: string)
    ensures s != [] && AllDigits(s)
  {
    if n < 10 then [DigitChar(n)] else DecimalOf(n / 10) + [DigitChar(n % 10)]
  }

  /** n / 10^k with its k decimal places. */
  function Render(n: nat, k: nat): (s: string)
    ensures Numeral(s)
  {
    if k == 0 then DecimalOf(n) + "." else Render(n / 10, k - 1) + [DigitChar(n % 10)]
  }

  // ---------- the carry ----------

  /** A decimal number, its point skipped, plus one in the last place. */
  function Increment(s: string): (r: string)
    requires Numeral(s)
  {
    if s == [] then "1"
    else
      var rest, last := s[..|s| - 1], s[|s| - 1];
      assert IsDigit(s[|s| - 1]) || last == '.';
      if last == '.' then Increment(rest) + [last]
      else if last < '9' then rest + [DigitChar(DigitOf(last) + 1)]
      else Increment(rest) + "0"
  }

  lemma IncrementLast(rest: string, d: nat)
    requires Numeral(rest) && d < 10
    ensures Increment(rest + [DigitChar(d)]) == if d < 9 then rest + [DigitChar(d + 1)] else Increment(rest) + [DigitChar(0)]
  {
    var s := rest + [DigitChar(d)];
    assert s[..|s| - 1] == rest && s[|s| - 1] == DigitChar(d);
  }

  lemma NextDigit(n: nat)
    ensures n % 10 < 9 ==> (n + 1) / 10 == n / 10 && (n + 1) % 10 == n % 10 + 1
    ensures n % 10 == 9 ==> (n + 1) / 10 == n / 10 + 1 && (n + 1) % 10 == 0
  {
  }

  lemma {:induction false} IncrementDecimal(n: nat)
    ensures Increment(DecimalOf(n)) == DecimalOf(n + 1)
  {
    NextDigit(n);
    if n < 10 {
      assert [] + [DigitChar(n)] == [DigitChar(n)];
      IncrementLast([], n);
    } else {
      IncrementLast(DecimalOf(n / 10), n % 10);
      if n % 10 == 9 { IncrementDecimal(n / 10); }
    }
  }

  lemma IncrementPoint(n: nat)
    ensures Increment(DecimalOf(n) + ".") == DecimalOf(n + 1) + "."
  {
    var s := DecimalOf(n) + ".";
    assert s[..|s| - 1] == DecimalOf(n) && s[|s| - 1] == '.';
    IncrementDecimal(n);
  }

  /** The carry in the string is the addition of one to the number. */
  lemma {:induction false} IncrementRender(n: nat, k: nat)
    ensures Increment(Render(n, k)) == Render(n + 1, k)
  {
    hide DecimalOf, Increment, DigitChar;
    if k == 0 {
      IncrementPoint(n);
    } else {
      NextDigit(n);
      IncrementLast(Render(n / 10, k - 1), n % 10);
      if n % 10 == 9 { IncrementRender(n / 10, k - 1); }
    }
  }

  /** Walks backwards over the digits with the carry. */
  method Carry(s: string) returns (digits: string)
    requires Numeral(s)
    ensures digits == Increment(s)
  {
    digits := s;
    var carry, i := true, |s|;
    assert s[..i] == s && digits[i..] == [];
    while i > 0
      invariant 0 <= i <= |s| == |digits| && carry && digits[..i] == s[..i]
      invariant Increment(s) == Increment(s[..i]) + digits[i..]
    {
      i := i - 1;
      assert s[..i + 1][..i] == s[..i] && digits[i] == s[..i + 1][i];
      if digits[i] != '.' {
        digits := digits[i := (digits[i] as int + 1) as char];
        if digits[i] <= '9' {
          carry := false;
          break;
        }
        digits := digits[i := '0'];
      }
    }
    if carry {
      assert s[..0] == [] && digits[0..] == digits;
      digits := "1" + digits;
    }
  }

  // ---------- the printer ----------

  function Scaled(x: nat, k: nat): (r: nat)
  {
    x * Pow10(k)
  }

  /** k decimal places show the number x / 2^64 exactly. */
  predicate Exact(x: nat, k: nat)
  {
    Scaled(x, k) % B64 == 0
  }

  /** The fewest places, from k on, that are exact; at most twenty. */
  function Places(x: nat, k: nat): (r: nat)
    requires 1 <= k <= FULL_PLACES
    ensures k <= r <= FULL_PLACES
    decreases FULL_PLACES - k
  {
    if k == FULL_PLACES || Exact(x, k) then k else Places(x, k + 1)
  }

  lemma {:induction false} PlacesIs(x: nat, k: nat, r: nat)
    requires 1 <= k <= r <= FULL_PLACES && (r == FULL_PLACES || Exact(x, r))
    requires forall j :: k <= j < r ==> !Exact(x, j)
    ensures Places(x, k) == r
    decreases r - k
  {
    if k < r { PlacesIs(x, k + 1, r); }
  }

  /** Rounds on the first digit left out: up from six on, and from a five after an odd digit. */
  predicate RoundsUp(n: nat, rest: nat)
  {
    var next := rest * 10 / B64;
    next > 5 || (next == 5 && n % 2 == 1)
  }

  /** The number x / 2^64 in units of the k-th decimal place, rounded. */
  function Rounded(x: nat, k: nat): (n: nat)
  {
    var scaled := Scaled(x, k);
    scaled / B64 + if RoundsUp(scaled / B64, scaled % B64) then 1 else 0
  }

  /** What the stream gets; the magnitude of the most negative value overflows and prints a sign of its own. */
  function Printed(v: i128): (s: string)
  {
    var k := Places(Abs(v), 1);
    (if v < 0 then "-" else "+") + (if v == -B127 then "-" else "") + Render(Rounded(Abs(v), k), k)
  }

  lemma {:induction false} TimesTen(l: u64)
    ensures ToSigned(TruncDiv(l * (10 * B64), B64)) == l * 10
    ensures l * 10 / B64 < 10
  {
    ModIs(l * 10 * B64, B64, l * 10, 0);
    ToSignedId(l * 10);
    DivMod(l * 10, B64);
  }

  /** The integer part as the standard library prints it. */
  function IntText(hi: i64): (s: string)
  {
    if hi < 0 then "-" + DecimalOf(0 - hi) else DecimalOf(hi)
  }

  lemma NoPlaces(x: nat, whole: nat, low: u64)
    requires x == whole * B64 + low
    ensures Scaled(x, 0) == whole * B64 + low && Render(whole, 0) == DecimalOf(whole) + "." + ""
  {
  }

  lemma ExactIs(x: nat, k: nat, n: nat, low: u64)
    requires Scaled(x, k) == n * B64 + low
    ensures Exact(x, k) <==> low == 0
  {
    ModIs(Scaled(x, k), B64, n, low);
  }

  /** The magnitude splits into its words, also where negation overflows. */
  lemma {:induction false} NegatedMagnitude(value: i128, a: i128, hi: i64, low: u64)
    requires a == if value < 0 then ToSigned(0 - value) else value
    requires a == hi * B64 + low
    ensures Abs(value) == Abs(hi) * B64 + low
    ensures hi < 0 <==> value == -B127
    ensures hi < 0 ==> low == 0
  {
    if value == -B127 {
      ModIs(B127, B128, 0, B127);
      ModIs(-B127, B64, -B63, 0);
      ModIs(hi * B64 + low, B64, hi, low);
    } else {
      ToSignedId(Abs(value));
      if hi < 0 { MulMono(hi, -1, B64); }
    }
  }

  /** One more digit: n and low are the digits so far and the rest of x * 10^k. */
  lemma {:induction false} OneMoreDigit(x: nat, k: nat, n: nat, low: u64)
    requires Scaled(x, k) == n * B64 + low
    ensures var d := low * 10 / B64;
      && d < 10 && Scaled(x, k + 1) == (n * 10 + d) * B64 + low * 10 % B64
      && Render(n * 10 + d, k + 1) == Render(n, k) + [DigitChar(d)]
  {
    var d := low * 10 / B64;
    DivMod(low * 10, B64);
    assert Scaled(x, k + 1) == Scaled(x, k) * 10;
    assert (n * 10 + d) / 10 == n && (n * 10 + d) % 10 == d;
  }

  /** Takes the next decimal digit off a fraction. */
  method NextFractionDigit(low: Int64x64, ten: Int64x64) returns (digit: int)
    requires 0 <= low.v < B64 && ten.v == 10 * B64 && low != ten
    modifies low
    ensures digit == old(low.v) * 10 / B64 && 0 <= digit < 10 && low.v == old(low.v) * 10 % B64
  {
    ghost var l := low.v;
    TimesTen(l);
    DivMod(l * 10, B64);
    low.Mul(ten);
    digit := low.GetHigh();
    low.v := low.v - digit * B64;
  }

  /** How far the digits of x have got: k places that show n, with low still to come. */
  predicate Shown(x: nat, whole: nat, k: nat, n: nat, low: int, fraction: string)
  {
    0 <= low < B64 && Scaled(x, k) == n * B64 + low && Render(n, k) == DecimalOf(whole) + "." + fraction
  }

  lemma ShownMore(x: nat, whole: nat, k: nat, n: nat, low: int, fraction: string)
    requires Shown(x, whole, k, n, low, fraction)
    ensures var d := low * 10 / B64;
      && d < 10 && Shown(x, whole, k + 1, n * 10 + d, low * 10 % B64, fraction + [DigitChar(d)])
      && (Exact(x, k + 1) <==> low * 10 % B64 == 0)
  {
    hide Render, DecimalOf, DigitChar, Exact, Scaled;
    var d := low * 10 / B64;
    OneMoreDigit(x, k, n, low);
    DivMod(low * 10, B64);
    ExactIs(x, k + 1, n * 10 + d, low * 10 % B64);
  }

  /** The digits of the fraction, until nothing is left of it or there are twenty. */
  method FractionDigits(low: Int64x64, ghost x: nat, ghost whole: nat)
    returns (fraction: string, digit: int, ghost k: nat, ghost n: nat)
    requires 0 <= low.v < B64 && x == whole * B64 + low.v
    modifies low
    ensures k == Places(x, 1) && Scaled(x, k) == n * B64 + low.v && 0 <= low.v < B64 && digit == n % 10
    ensures old(low.v) == 0 ==> low.v == 0
    ensures Render(n, k) == DecimalOf(whole) + "." + fraction
  {
    hide Places, Exact, Render, DecimalOf, Scaled, DigitChar, DigitOf;
    var ten := new Int64x64(10, 0);
    var places, more := 0, true;
    fraction, digit, k, n := "", 0, 0, whole;
    NoPlaces(x, whole, low.v);
    assert Shown(x, whole, 0, n, low.v, fraction);
    hide Shown;
    while more
      invariant 0 <= low.v < B64 && Shown(x, whole, k, n, low.v, fraction) && ten.v == 10 * B64
      invariant 0 <= k == places <= FULL_PLACES && (more ==> places < FULL_PLACES) && (!more ==> 1 <= places)
      invariant old(low.v) == 0 ==> low.v == 0
      invariant forall j :: 1 <= j < places || (more && j == places > 0) ==> !Exact(x, j)
      invariant !more ==> (places == FULL_PLACES || Exact(x, places)) && digit == n % 10
      decreases FULL_PLACES - places, more
    {
      ShownMore(x, whole, k, n, low.v, fraction);
      digit := NextFractionDigit(low, ten);
      fraction := fraction + [DigitChar(digit)];
      places := places + 1;
      more := low.GetLow() != 0 && places < FULL_PLACES;
      k, n := places, n * 10 + digit;
    }
    ShownIs(x, whole, k, n, low.v, fraction);
    PlacesIs(x, 1, k);
  }

  lemma ShownIs(x: nat, whole: nat, k: nat, n: nat, low: int, fraction: string)
    requires Shown(x, whole, k, n, low, fraction)
    ensures Scaled(x, k) == n * B64 + low && Render(n, k) == DecimalOf(whole) + "." + fraction
  {
  }

  lemma RoundedIs(x: nat, k: nat, n: nat, low: u64)
    requires Scaled(x, k) == n * B64 + low
    ensures Rounded(x, k) == if RoundsUp(n, low) then n + 1 else n
    ensures low == 0 ==> !RoundsUp(n, low)
  {
    ModIs(Scaled(x, k), B64, n, low);
  }

  /** The number before rounding, as text. */
  lemma Unrounded(hi: i64, k: nat, n: nat, fraction: string)
    requires Render(n, k) == DecimalOf(Abs(hi)) + "." + fraction
    ensures IntText(hi) + "." + fraction == (if hi < 0 then "-" else "") + Render(n, k)
  {
  }

  /** Rounds the digits on the first one left out. */
  method RoundDigits(s: string, digit: int, low: Int64x64, ghost prefix: string, ghost n: nat, ghost k: nat) returns (digits: string)
    requires s == prefix + Render(n, k) && digit == n % 10
    requires 0 <= low.v < B64 && (prefix != "" ==> low.v == 0)
    modifies low
    ensures digits == prefix + Render(if RoundsUp(n, old(low.v)) then n + 1 else n, k)
  {
    hide Render, Increment;
    digits := s;
    var ten := new Int64x64(10, 0);
    var nextDigit := NextFractionDigit(low, ten);
    if nextDigit > 5 || (nextDigit == 5 && digit % 2 == 1) {
      IncrementRender(n, k);
      assert prefix == "" && digits == Render(n, k);
      digits := Carry(digits);
    }
  }

  /** The stream output of a value. */
  method Print(value: i128) returns (s: string)
    ensures s == Printed(value)
  {
    hide Places, Render, DecimalOf, Scaled, Rounded, RoundsUp, IntText, ToSigned;
    var negative := value < 0;
    var absVal := new Int64x64(0, 0);
    absVal.v := if negative then ToSigned(0 - value) else value;
    var hi := absVal.GetHigh();
    var low := new Int64x64(0, absVal.GetLow());
    NegatedMagnitude(value, absVal.v, hi, low.v);
    ghost var x := Abs(value);
    ghost var k, n;
    var fraction, digit;
    fraction, digit, k, n := FractionDigits(low, x, Abs(hi));
    Unrounded(hi, k, n, fraction);
    RoundedIs(x, k, n, low.v);
    var digits := RoundDigits(IntText(hi) + "." + fraction, digit, low, if hi < 0 then "-" else "", n, k);
    s := (if negative then "-" else "+") + digits;
    assert s == (if negative then "-" else "+") + (if hi < 0 then "-" else "") + Render(Rounded(x, k), k);
  }

  // ---------- the reader ----------

  /** The reader's assertion aborts on a fraction digit out of range. */
  datatype Reading = Number(v: i128) | Aborted

  /** The first place of a character from a place on; the length when there is none. */
  function Find(s: string, c: char, from: nat): (r: nat)
    requires from <= |s|
    ensures from <= r <= |s|
    ensures r < |s| ==> s[r] == c
    ensures forall i :: from <= i < r ==> s[i] != c
    decreases |s| - from
  {
    if from == |s| || s[from] == c then from else Find(s, c, from + 1)
  }

  function SkipSpaces(s: string, from: nat): (r: nat)
    requires from <= |s|
    ensures from <= r <= |s|
    ensures r < |s| ==> s[r] != ' '
    ensures forall i :: from <= i < r ==> s[i] == ' '
    decreases |s| - from
  {
    if from == |s| || s[from] != ' ' then from else SkipSpaces(s, from + 1)
  }

  /** The integer digits, kept to 64 bits. */
  function HiValue(s: string): (r: u64)
  {
    if s == [] then 0 else (HiValue(s[..|s| - 1]) * 10 + DigitOf(s[|s| - 1])) % B64
  }

  /** The fraction digits, from the last to the first divided by ten and rounded. */
  function LoValue(s: string): (r: nat)
    requires AllDigits(s)
    ensures r <= B64
  {
    if s == [] then 0 else (LoValue(s[1..]) + DigitOf(s[0]) * B64 + 5) / 10
  }

  function WithWords(negative: bool, hi: u64, lo: u64): (v: i128)
  {
    var value := (if hi < B63 then hi else hi - B64) * B64 + lo;
    if negative then ToSigned(0 - value) else value
  }

  /** Where the digits start: after the first minus sign, else after the first plus sign, else after leading spaces. */
  function DigitsAt(s: string): (start: nat)
    ensures start <= |s|
  {
    var cur := SkipSpaces(s, 0);
    var minus, plus := Find(s, '-', cur), Find(s, '+', cur);
    if minus < |s| then minus + 1 else if plus < |s| then plus + 1 else cur
  }

  predicate HasMinus(s: string)
  {
    Find(s, '-', SkipSpaces(s, 0)) < |s|
  }

  function Parsed(s: string): (r: Reading)
  {
    var start := DigitsAt(s);
    var point := Find(s, '.', start);
    if point == |s| then Number(WithWords(HasMinus(s), HiValue(s[start..]), 0))
    else if AllDigits(s[point + 1..]) then
      Number(WithWords(HasMinus(s), HiValue(s[start..point]), LoValue(s[point + 1..]) % B64))
    else Aborted
  }

  method ReadHiDigits(str: string) returns (retval: u64)
    ensures retval == HiValue(str)
  {
    retval := 0;
    for i := 0 to |str|
      invariant retval == HiValue(str[..i])
    {
      assert str[..i + 1][..i] == str[..i];
      retval := (retval * 10 + DigitOf(str[i])) % B64;
    }
    assert str[..|str|] == str;
  }

  method ReadLoDigits(str: string) returns (ok: bool, lo: u64)
    ensures ok <==> AllDigits(str)
    ensures ok ==> lo == LoValue(str) % B64
  {
    var low := new Int64x64(0, 0);
    var ten := new Int64x64(10, 0);
    var i := |str|;
    assert str[i..] == [];
    while i > 0
      invariant 0 <= i <= |str| && ten.v == 10 * B64
      invariant AllDigits(str[i..]) && low.v == LoValue(str[i..])
    {
      i := i - 1;
      assert str[i..][1..] == str[i + 1..];
      assert str[i..] == [str[i]] + str[i + 1..];
      if !IsDigit(str[i]) { return false, 0; }
      low.v := low.v + DigitOf(str[i]) * B64 + 5;
      DividedByTen(low.v);
      low.Div(ten);
    }
    assert str[0..] == str;
    lo := low.GetLow();
    ModIs(low.v, B64, low.GetHigh(), lo);
    ok := true;
  }

  lemma {:induction false} DividedByTen(x: nat)
    requires x < B127
    ensures ToSigned(TruncDiv(x * B64, 10 * B64)) == x / 10
  {
    DivCancel(x, 10, B64);
    QuotientBound(x, 10);
    ToSignedId(x / 10);
  }

  /** The stream input of a value. */
  method Read(str: string) returns (r: Reading)
    ensures r == Parsed(str)
  {
    hide HiValue, LoValue, ToSigned, SkipSpaces, Find, AllDigits;
    var cur := SkipSpaces(str, 0);
    var next := Find(str, '-', cur);
    var negative := next < |str|;
    if negative {
      next := next + 1;
    } else {
      next := Find(str, '+', cur);
      next := if next < |str| then next + 1 else cur;
    }
    cur := next;
    var hi: u64, lo: u64 := 0, 0;
    next := Find(str, '.', cur);
    if next < |str| {
      hi := ReadHiDigits(str[cur..next]);
      var ok;
      ok, lo := ReadLoDigits(str[next + 1..]);
      if !ok { return Aborted; }
    } else {
      hi := ReadHiDigits(str[cur..]);
    }
    var value := new Int64x64(if hi < B63 then hi else hi - B64, lo);
    if negative { value.v := ToSigned(0 - value.v); }
    r := Number(value.v);
  }

  // ---------- how close the reader comes ----------

  /** The number that decimal digits stand for. */
  function FracValue(s: string): (n: nat)
    requires AllDigits(s)
  {
    if s == [] then 0 else DigitOf(s[0]) * Pow10(|s| - 1) + FracValue(s[1..])
  }

  lemma {:induction false} OneMoreReadError(p: int, n: int, low: int, d: int, next: int)
    requires p > 0 && next == (low + d * B64 + 5) / 10
    requires -4 * (p - 1) <= 9 * (p * low - n * B64) <= 5 * (p - 1)
    ensures -4 * (10 * p - 1) <= 9 * (10 * p * next - (d * p + n) * B64) <= 5 * (10 * p - 1)
  {
    var delta := 10 * next - d * B64 - low;
    MulMono(-4, delta, p);
    MulMono(delta, 5, p);
    assert 10 * p * next - (d * p + n) * B64 == delta * p + (p * low - n * B64) by {
      Distrib(d * p, n, B64);
      Assoc(d, p, B64);
      assert delta * p == 10 * next * p - d * B64 * p - low * p;
      Assoc(10, p, next);
      Assoc(10, next, p);
    }
  }

  /** Reading k digits rounds k times; all the rounding together stays below 5/9 of the last bit. */
  lemma {:induction false} ReadError(s: string)
    requires AllDigits(s)
    ensures var p := Pow10(|s|);
      -4 * (p - 1) <= 9 * (p * LoValue(s) - FracValue(s) * B64) <= 5 * (p - 1)
    ensures FracValue(s) < Pow10(|s|)
  {
    if s != [] {
      var t, d, p := s[1..], DigitOf(s[0]), Pow10(|s| - 1);
      ReadError(t);
      OneMoreReadError(p, FracValue(t), LoValue(t), d, LoValue(s));
      MulMono(d, 9, p);
    }
  }

  lemma Pow10Six(n: nat)
    ensures Pow10(n + 6) == 1000000 * Pow10(n)
  {
    assert Pow10(n + 2) == 100 * Pow10(n);
    assert Pow10(n + 4) == 100 * Pow10(n + 2);
    assert Pow10(n + 6) == 100 * Pow10(n + 4);
  }

  lemma Pow10Is19(n: nat)
    requires n == 19
    ensures Pow10(n) == 10000000000000000000 && Pow10(n + 1) == 100000000000000000000
  {
    Pow10Six(n - 18);
    Pow10Six(n - 12);
    Pow10Six(n - 6);
  }

  lemma {:induction false} Pow10Mono(m: nat, n: nat)
    requires m <= n
    ensures Pow10(m) <= Pow10(n)
    decreases n - m
  {
    if m < n { Pow10Mono(m + 1, n); }
  }

  /** A number of k fives. */
  function Fives(k: nat): (c: nat)
  {
    if k == 0 then 0 else 10 * Fives(k - 1) + 5
  }

  lemma {:induction false} FivesBound(k: nat)
    ensures 9 * Fives(k) == 5 * (Pow10(k) - 1)
    ensures k <= 19 ==> Fives(k) < B64
  {
    if k > 0 { FivesBound(k - 1); }
    if k <= 19 {
      Pow10Mono(k, 19);
      Pow10Is19(19);
    }
  }

  predicate StartsWithNines(s: string, k: nat)
  {
    k <= |s| && forall i :: 0 <= i < k ==> s[i] == '9'
  }

  /** Within c of one is only what starts with a nine and is within 10 c + 5 of one after it. */
  lemma {:induction false} NearOneStep(s: string, c: nat)
    requires AllDigits(s) && 10 * c + 5 < B64
    ensures LoValue(s) >= B64 - c <==> s != [] && s[0] == '9' && LoValue(s[1..]) >= B64 - (10 * c + 5)
  {
    if s != [] {
      var d, low := DigitOf(s[0]), LoValue(s[1..]);
      DivMod(low + d * B64 + 5, 10);
    }
  }

  lemma {:induction false} NearOne(s: string, j: nat, k: nat)
    requires AllDigits(s) && j + k <= 19
    ensures LoValue(s) >= B64 - Fives(j) <==> StartsWithNines(s, k) && LoValue(s[k..]) >= B64 - Fives(j + k)
    decreases k
  {
    if k == 0 {
      assert s[0..] == s;
    } else {
      FivesBound(j + 1);
      assert Fives(j + 1) == 10 * Fives(j) + 5;
      hide LoValue, Fives, StartsWithNines;
      NearOneStep(s, Fives(j));
      NoNines(s, k);
      if s != [] {
        StartsWithNinesStep(s, k);
        NearOne(s[1..], j + 1, k - 1);
        if k <= |s| { assert s[1..][k - 1..] == s[k..]; }
      }
    }
  }

  lemma NoNines(s: string, k: nat)
    ensures StartsWithNines(s, k) ==> k <= |s|
  {
  }

  lemma StartsWithNinesStep(s: string, k: nat)
    requires s != [] && k > 0
    ensures StartsWithNines(s, k) <==> s[0] == '9' && StartsWithNines(s[1..], k - 1)
  {
    if s[0] == '9' && StartsWithNines(s[1..], k - 1) {
      forall i | 0 <= i < k ensures s[i] == '9' {
        if i > 0 { assert s[1..][i - 1] == '9'; }
      }
    }
  }

  /**
   The fraction read reaches one, whose carry is then dropped so that it reads as zero, exactly when it starts
   with nineteen nines and what follows them reads as at least 12891188518153996061 units, about 0.6988.
   */
  lemma ReachesOneIff(s: string)
    requires AllDigits(s)
    ensures LoValue(s) == B64 <==> StartsWithNines(s, 19) && LoValue(s[19..]) >= 12891188518153996061
  {
    hide LoValue;
    NearOne(s, 0, 19);
    FivesBound(19);
    Pow10Is19(19);
  }

  /**
   So with at most nineteen digits the fraction read stays below one; with twenty it reaches one exactly for
   nineteen nines and a last digit of at least seven; and twenty or more nines always reach it.
   */
  lemma FractionBelowOne(s: string)
    requires AllDigits(s)
    ensures |s| <= 19 ==> LoValue(s) < B64
    ensures |s| == 20 ==> (LoValue(s) == B64 <==> StartsWithNines(s, 19) && s[19] >= '7')
    ensures |s| >= 20 && StartsWithNines(s, |s|) ==> LoValue(s) == B64
  {
    ReachesOneIff(s);
    if |s| >= 19 {
      var t := s[19..];
      if |s| > 19 {
        assert t[0] == s[19];
        if |s| == 20 { assert t[1..] == []; }
      }
    }
  }

  // ---------- how close the printer comes ----------

  /** The number printed is within 0.6 of its last place, and exact when there are fewer than twenty places. */
  lemma PrintError(x: nat)
    ensures var k := Places(x, 1);
      var e := Scaled(x, k) - Rounded(x, k) * B64;
      -5 * B64 <= 10 * e < 6 * B64 && (k < FULL_PLACES ==> e == 0)
  {
    var k := Places(x, 1);
    var n, rest := Scaled(x, k) / B64, Scaled(x, k) % B64;
    DivMod(Scaled(x, k), B64);
    DivMod(rest * 10, B64);
    PlacesExact(x, 1);
    Distrib(n, 1, B64);
  }

  lemma {:induction false} PlacesExact(x: nat, k: nat)
    requires 1 <= k <= FULL_PLACES
    ensures Places(x, k) < FULL_PLACES ==> Exact(x, Places(x, k))
    decreases FULL_PLACES - k
  {
    if !(k == FULL_PLACES || Exact(x, k)) { PlacesExact(x, k + 1); }
  }

  /** No fewer places show the number exactly. */
  lemma {:induction false} PlacesFewest(x: nat, k: nat, j: nat)
    requires 1 <= k <= FULL_PLACES && k <= j < Places(x, k)
    ensures x * Pow10(j) % B64 != 0
    decreases j - k
  {
    if k < j { PlacesFewest(x, k + 1, j); }
  }

  /**
   The digits printed are those of the number cut after one more place, rounded to the nearest, and to the even one
   of two that are as near.
   */
  lemma RoundsHalfEven(x: nat, k: nat)
    ensures var cut, n := x * Pow10(k + 1) / B64, Rounded(x, k);
      -5 <= 10 * n - cut <= 5 && (10 * n - cut == 5 || 10 * n - cut == -5 ==> n % 2 == 0)
  {
    hide Pow10, Rounded, Render;
    var n, rest := Scaled(x, k) / B64, Scaled(x, k) % B64;
    DivMod(Scaled(x, k), B64);
    RoundedIs(x, k, n, rest);
    OneMoreDigit(x, k, n, rest);
    DivMod(rest * 10, B64);
    ModIs(Scaled(x, k + 1), B64, n * 10 + rest * 10 / B64, rest * 10 % B64);
  }

  // ---------- the round trip ----------

  /** The printer's error and the reader's together are below one, so there is none. */
  lemma {:induction false} ErrorsCancel(x: int, p: int, n: int, e: int, h: int, f: int, low: int)
    requires p > 0 && x * p == n * B64 + e && n == h * p + f && 0 <= f < p
    requires -5 * B64 <= 10 * e < 6 * B64 && (e == 0 || p >= 100000000000000000000)
    requires -4 * (p - 1) <= 9 * (p * low - f * B64) <= 5 * (p - 1)
    ensures x == h * B64 + low && low < B64
  {
    var gap := low - (x - h * B64);
    assert gap * p == p * low - f * B64 - e by {
      Distrib(h * p, f, B64);
      Assoc(h, p, B64);
      assert gap * p == low * p - x * p + h * B64 * p;
    }
    if gap >= 1 { MulMono(1, gap, p); }
    if gap <= -1 { MulMono(gap, -1, p); }
    MulMono(f, p - 1, B64);
    if low >= B64 { MulMono(B64, low, p); }
  }

  function IntegerPart(n: nat, k: nat): (h: nat)
    ensures 0 <= n - h * Pow10(k) < Pow10(k)
  {
    DivMod(n, Pow10(k));
    QuotientBound(n, Pow10(k));
    n / Pow10(k)
  }

  function FractionPart(n: nat, k: nat): (f: nat)
    ensures f == n - IntegerPart(n, k) * Pow10(k)
  {
    DivMod(n, Pow10(k));
    n % Pow10(k)
  }

  /** A fraction with its leading zeros. */
  function Padded(f: nat, k: nat): (s: string)
    ensures |s| == k && AllDigits(s)
  {
    if k == 0 then "" else Padded(f / 10, k - 1) + [DigitChar(f % 10)]
  }

  lemma {:induction false} SplitPlace(n: nat, p: nat)
    requires p > 0
    ensures n / 10 / p == n / (10 * p) && n % (10 * p) / 10 == n / 10 % p && n % (10 * p) % 10 == n % 10
  {
    DivDiv(n, 10, p);
    DivMod(n, 10 * p);
    DivMod(n, 10);
    DivMod(n / 10, p);
    var q := n / (10 * p);
    Assoc(10, p, q);
    ModIs(n % (10 * p), 10, n / 10 % p, n % 10);
  }

  lemma UnfoldPlace(n: nat, f: nat, k: nat)
    requires k > 0 && f % 10 == n % 10
    ensures Render(n, k) == Render(n / 10, k - 1) + [DigitChar(n % 10)]
    ensures Padded(f, k) == Padded(f / 10, k - 1) + [DigitChar(n % 10)]
  {
  }

  lemma {:induction false} RenderSplit(n: nat, k: nat)
    ensures Render(n, k) == DecimalOf(IntegerPart(n, k)) + "." + Padded(FractionPart(n, k), k)
  {
    if k == 0 {
      ModIs(n, Pow10(k), n, 0);
      hide DecimalOf, Pow10, IntegerPart;
      assert Render(n, k) + "" == Render(n, k);
    } else {
      SplitParts(n, k);
      UnfoldPlace(n, FractionPart(n, k), k);
      hide DecimalOf, Render, Padded, Pow10, IntegerPart, FractionPart;
      RenderSplit(n / 10, k - 1);
    }
  }

  lemma SplitParts(n: nat, k: nat)
    requires k > 0
    ensures IntegerPart(n, k) == IntegerPart(n / 10, k - 1)
    ensures FractionPart(n, k) / 10 == FractionPart(n / 10, k - 1) && FractionPart(n, k) % 10 == n % 10
  {
    SplitPlace(n, Pow10(k - 1));
  }

  lemma FracCons(s: string, p: int)
    requires s != [] && AllDigits(s) && p == Pow10(|s| - 1)
    ensures FracValue(s) == DigitOf(s[0]) * p + FracValue(s[1..])
    ensures Pow10(|s|) == 10 * p
  {
  }

  lemma {:induction false} FracSnoc(s: string, c: char)
    requires AllDigits(s) && IsDigit(c)
    ensures FracValue(s + [c]) == 10 * FracValue(s) + DigitOf(c)
  {
    var t := s + [c];
    if s == [] {
      assert t[1..] == [];
    } else {
      assert t[1..] == s[1..] + [c];
      var p := Pow10(|s| - 1);
      FracCons(s, p);
      FracCons(t, 10 * p);
      hide FracValue, Pow10, DigitOf;
      FracSnoc(s[1..], c);
      Assoc(10, DigitOf(s[0]), p);
    }
  }

  lemma {:induction false} PaddedValue(f: nat, k: nat)
    requires f < Pow10(k)
    ensures FracValue(Padded(f, k)) == f
  {
    if k > 0 {
      PaddedValue(f / 10, k - 1);
      FracSnoc(Padded(f / 10, k - 1), DigitChar(f % 10));
    }
  }

  lemma {:induction false} HiDecimal(n: nat)
    ensures HiValue(DecimalOf(n)) == n % B64
  {
    var s := DecimalOf(n);
    if n < 10 {
      assert s[..0] == [];
    } else {
      assert s[..|s| - 1] == DecimalOf(n / 10);
      HiDecimal(n / 10);
      DivMod(n / 10, B64);
      ModEq((n / 10 % B64) * 10 + n % 10, n, B64, 0 - 10 * (n / 10 / B64));
    }
  }

  /** Printing and reading are inverse on magnitudes; the rounding carry never gets past the point. */
  lemma MagnitudeRoundTrip(x: nat)
    requires x < B127
    ensures var k := Places(x, 1);
      var n := Rounded(x, k);
      var h, low := IntegerPart(n, k), LoValue(Padded(FractionPart(n, k), k));
      h < B63 && low < B64 && x == h * B64 + low && h == x / B64
  {
    var k := Places(x, 1);
    var n, p := Rounded(x, k), Pow10(k);
    var h, f := IntegerPart(n, k), FractionPart(n, k);
    var low := LoValue(Padded(f, k));
    PrintError(x);
    PaddedValue(f, k);
    ReadError(Padded(f, k));
    Pow10Is19(19);
    ErrorsCancel(x, p, n, x * p - n * B64, h, f, low);
    if h >= B63 { MulMono(B63, h, B64); }
    ModIs(x, B64, h, low);
  }

  lemma FindIs(s: string, c: char, from: nat, r: nat)
    requires from <= r <= |s| && (r < |s| ==> s[r] == c)
    requires forall i :: from <= i < r ==> s[i] != c
    ensures Find(s, c, from) == r
  {
  }

  predicate Blank(s: string)
  {
    forall i :: 0 <= i < |s| ==> s[i] == ' '
  }

  /**
   Where a token has its sign: the first minus sign wherever it stands, else the first plus sign, else none after
   leading spaces.
   */
  predicate Signed(pad: string, sign: string, rest: string)
  {
    match sign
    case "-" => '-' !in pad
    case "+" => '-' !in pad && '+' !in pad && '-' !in rest
    case _ => sign == "" && Blank(pad) && '-' !in rest && '+' !in rest && (rest != "" ==> rest[0] != ' ')
  }

  lemma SkipIs(s: string, r: nat)
    requires r <= |s| && (r < |s| ==> s[r] != ' ')
    requires forall i :: 0 <= i < r ==> s[i] == ' '
    ensures SkipSpaces(s, 0) == r
  {
  }

  lemma SkipsAtMost(s: string, r: nat)
    requires r < |s| && s[r] != ' '
    ensures SkipSpaces(s, 0) <= r
  {
  }

  lemma StartIs(pad: string, sign: string, rest: string)
    requires Signed(pad, sign, rest)
    ensures DigitsAt(pad + sign + rest) == |pad| + |sign| && (HasMinus(pad + sign + rest) <==> sign == "-")
  {
    hide SkipSpaces, Find;
    var s, n := pad + sign + rest, |pad|;
    assert forall i :: n + |sign| <= i < |s| ==> s[i] == rest[i - n - |sign|];
    assert forall i :: 0 <= i < n ==> s[i] == pad[i];
    if sign == "" {
      SkipIs(s, n);
      FindIs(s, '-', n, |s|);
      FindIs(s, '+', n, |s|);
    } else {
      assert s[n] == sign[0];
      SkipsAtMost(s, n);
      FindIs(s, '-', SkipSpaces(s, 0), if sign == "-" then n else |s|);
      if sign == "+" { FindIs(s, '+', SkipSpaces(s, 0), n); }
    }
  }

  /**
   Every token with a point is read like this: the digits between sign and first point are the integer part, those
   after it the fraction, and any other character in the fraction aborts.
   */
  lemma ReadsPoint(pad: string, sign: string, h: string, f: string)
    requires Signed(pad, sign, h + "." + f) && '.' !in h
    ensures Parsed(pad + sign + (h + "." + f))
      == if AllDigits(f) then Number(WithWords(sign == "-", HiValue(h), LoValue(f) % B64)) else Aborted
  {
    hide HiValue, LoValue, WithWords, SkipSpaces, Find, DigitsAt, HasMinus, Signed, AllDigits;
    var s, start := pad + sign + (h + "." + f), |pad| + |sign|;
    var point := start + |h|;
    StartIs(pad, sign, h + "." + f);
    assert s[start..] == h + "." + f;
    assert forall i :: start <= i < point ==> s[i] == s[start..][i - start];
    FindIs(s, '.', start, point);
    assert s[start..point] == h && s[point + 1..] == f;
  }

  /** And every token without a point like this. */
  lemma ReadsWhole(pad: string, sign: string, h: string)
    requires Signed(pad, sign, h) && '.' !in h
    ensures Parsed(pad + sign + h) == Number(WithWords(sign == "-", HiValue(h), 0))
  {
    hide HiValue, LoValue, WithWords, SkipSpaces, Find, DigitsAt, HasMinus;
    var s, start := pad + sign + h, |pad| + |sign|;
    StartIs(pad, sign, h);
    assert s[start..] == h;
    assert forall i :: start <= i < |s| ==> s[i] == s[start..][i - start];
    FindIs(s, '.', start, |s|);
  }

  lemma DigitsOnly(s: string)
    requires AllDigits(s)
    ensures '.' !in s && '-' !in s && '+' !in s && ' ' !in s
  {
  }

  /** In particular decimal numbers, whatever spaces and sign stand before them. */
  lemma ReadsNumber(pad: string, sign: string, h: string, f: string)
    requires Blank(pad) && sign in ["", "+", "-"] && AllDigits(h) && AllDigits(f)
    ensures Parsed(pad + sign + (h + "." + f)) == Number(WithWords(sign == "-", HiValue(h), LoValue(f) % B64))
    ensures Parsed(pad + sign + h) == Number(WithWords(sign == "-", HiValue(h), 0))
  {
    hide Parsed, HiValue, LoValue, WithWords;
    DigitsOnly(h);
    DigitsOnly(f);
    ReadsPoint(pad, sign, h, f);
    ReadsWhole(pad, sign, h);
  }

  /** A fraction that is rounded up to one is lost. */
  lemma FractionLost(pad: string, sign: string, h: string, f: string)
    requires Blank(pad) && sign in ["", "+", "-"] && AllDigits(f) && AllDigits(h) && LoValue(f) == B64
    ensures Parsed(pad + sign + (h + "." + f)) == Number(WithWords(sign == "-", HiValue(h), 0))
  {
    hide Parsed, WithWords, HiValue, LoValue;
    ReadsNumber(pad, sign, h, f);
    ModIs(B64, B64, 1, 0);
  }

  lemma WithWordsIs(v: i128, h: nat, low: nat)
    requires v != -B127 && h < B63 && low < B64 && Abs(v) == h * B64 + low
    ensures WithWords(v < 0, h, low) == v
  {
    if v < 0 { ToSignedId(v); }
  }

  /** The most negative value prints with two signs, the second of which is read as a digit. */
  lemma {:induction false} HiAfterMinus(s: string) returns (q: int)
    requires AllDigits(s)
    ensures HiValue("-" + s) == HiValue(s) - 3 * Pow10(|s|) + q * B64
  {
    if s == [] {
      assert ("-" + s)[..0] == [];
      q := 1;
    } else {
      var t, d, p := s[..|s| - 1], DigitOf(s[|s| - 1]), Pow10(|s| - 1);
      assert Pow10(|s|) == 10 * p;
      HiSnoc(s, t);
      HiSnoc("-" + s, "-" + t);
      hide HiValue, Pow10, DigitOf;
      var r := HiAfterMinus(t);
      q := HiAfterMinusStep(HiValue("-" + t), HiValue(t), p, r, d);
    }
  }

  lemma HiSnoc(s: string, t: string)
    requires s != [] && t == s[..|s| - 1]
    ensures HiValue(s) == (HiValue(t) * 10 + DigitOf(s[|s| - 1])) % B64
  {
  }

  lemma {:induction false} HiAfterMinusStep(x: int, y: int, p: int, r: int, d: int) returns (q: int)
    requires x == y - 3 * p + r * B64
    ensures (x * 10 + d) % B64 == (y * 10 + d) % B64 - 3 * (10 * p) + q * B64
  {
    var a, b := x * 10 + d, y * 10 + d;
    DivMod(a, B64);
    DivMod(b, B64);
    q := 10 * r + b / B64 - a / B64;
  }

  lemma {:induction false} DecimalLength(n: nat, k: nat)
    requires k > 0 && n < Pow10(k)
    ensures |DecimalOf(n)| <= k
  {
    if n >= 10 { DecimalLength(n / 10, k - 1); }
  }

  /** Three times a power of ten of at most nineteen digits is no multiple of 2^64. */
  lemma HiLost(d: string, hi: u64)
    requires AllDigits(d) && |d| <= 19 && HiValue(d) == B63 && hi == HiValue("-" + d)
    ensures hi != B63
  {
    hide HiValue, Pow10;
    var q := HiAfterMinus(d);
    Pow10Is19(19);
    Pow10Mono(|d|, 19);
  }

  /** So the most negative value is not read back. */
  lemma MostNegativeLost()
    ensures Parsed(Printed(-B127)) != Number(-B127)
  {
    hide Places, Rounded, DecimalOf, Render, Padded, Parsed, HiValue, LoValue, WithWords;
    var n := B63 * Pow10(1);
    WholeIsExact(B63);
    ModIs(n, Pow10(1), B63, 0);
    assert IntegerPart(n, 1) == B63 && FractionPart(n, 1) == 0;
    RenderSplit(n, 1);
    var d, f := DecimalOf(B63), Padded(0, 1);
    assert "" + "-" + (("-" + d) + "." + f) == "-" + "-" + (d + "." + f);
    DigitsOnly(d);
    ReadsPoint("", "-", "-" + d, f);
    HiDecimal(B63);
    ModIs(B63, B64, 0, B63);
    Pow10Is19(19);
    DecimalLength(B63, 19);
    var hi, lo := HiValue("-" + d), LoValue(f) % B64;
    HiLost(d, hi);
    if WithWords(true, hi, lo) == -B127 { OnlyFromItself(hi, lo); }
  }

  /** A whole number needs one place and prints as it is. */
  lemma WholeIsExact(h: nat)
    ensures Places(h * B64, 1) == 1 && Rounded(h * B64, 1) == h * Pow10(1)
  {
    var x := h * B64;
    assert Scaled(x, 1) == h * Pow10(1) * B64;
    ModIs(Scaled(x, 1), B64, h * Pow10(1), 0);
    RoundedIs(x, 1, h * Pow10(1), 0);
  }

  lemma {:induction false} OnlyFromItself(hi: u64, lo: u64)
    requires WithWords(true, hi, lo) == -B127
    ensures hi == B63
  {
    var value := (if hi < B63 then hi else hi - B64) * B64 + lo;
    if value > -B127 { ToSignedId(0 - value); }
  }

  /** What is printed is read back, bit for bit, exactly when the magnitude is below 2^127. */
  lemma RoundTrip(v: i128)
    ensures Parsed(Printed(v)) == Number(v) <==> v != -B127
  {
    hide Places, Rounded, DecimalOf, Render, Padded, Parsed, HiValue, LoValue, WithWords, Pow10, IntegerPart, FractionPart;
    if v == -B127 {
      MostNegativeLost();
    } else {
      var x := Abs(v);
      var k := Places(x, 1);
      var n := Rounded(x, k);
      var h, f := IntegerPart(n, k), Padded(FractionPart(n, k), k);
      MagnitudeRoundTrip(x);
      RenderSplit(n, k);
      var sign := if v < 0 then "-" else "+";
      assert Printed(v) == "" + sign + (DecimalOf(h) + "." + f);
      ReadsNumber("", sign, DecimalOf(h), f);
      HiDecimal(h);
      ModIs(h, B64, 0, h);
      ModIs(LoValue(f), B64, 0, LoValue(f));
      WithWordsIs(v, h, LoValue(f));
    }
  }

  /**
   The text printed is a sign, an integer part, a point and one to twenty digits that stand for the number: exactly,
   with no fewer digits doing so, or else twenty digits within 0.6 of the last place.
   */
  lemma PrintedText(v: i128) returns (h: nat, f: string)
    requires v != -B127
    ensures Printed(v) == (if v < 0 then "-" else "+") + DecimalOf(h) + "." + f
    ensures h == Abs(v) / B64 && 1 <= |f| <= 20 && AllDigits(f)
    ensures var p := Pow10(|f|);
      var e := Abs(v) * p - (h * p + FracValue(f)) * B64;
      -5 * B64 <= 10 * e < 6 * B64 && (|f| < 20 ==> e == 0)
    ensures forall j :: 1 <= j < |f| ==> Abs(v) * Pow10(j) % B64 != 0
  {
    hide DecimalOf, Render, Padded, Rounded, LoValue, Pow10, FracValue, Places;
    var x := Abs(v);
    var k := Places(x, 1);
    var n := Rounded(x, k);
    h, f := IntegerPart(n, k), Padded(FractionPart(n, k), k);
    MagnitudeRoundTrip(x);
    RenderSplit(n, k);
    PrintError(x);
    PaddedValue(FractionPart(n, k), k);
    forall j | 1 <= j < k ensures x * Pow10(j) % B64 != 0 {
      PlacesFewest(x, 1, j);
    }
    var sign := if v < 0 then "-" else "+";
    assert sign + "" + (DecimalOf(h) + "." + f) == sign + DecimalOf(h) + "." + f;
  }

  // ---------- how close the whole reading comes ----------

  /** The integer digits stand for their number, leading zeros and all, modulo 2^64. */
  lemma {:induction false} HiIsNumber(h: string)
    requires AllDigits(h)
    ensures HiValue(h) == FracValue(h) % B64
  {
    if h != "" {
      var t, c := h[..|h| - 1], h[|h| - 1];
      assert h == t + [c];
      HiIsNumber(t);
      FracSnoc(t, c);
      HiSnoc(h, t);
      hide HiValue, FracValue;
      DivMod(FracValue(t), B64);
      ModEq(FracValue(t) % B64 * 10 + DigitOf(c), FracValue(h), B64, 0 - 10 * (FracValue(t) / B64));
    }
  }

  /**
   What is read is the number the digits stand for, within -4/9 and 5/9 of the last bit, unless the fraction is
   rounded up to one.
   */
  lemma ReadAccuracy(pad: string, sign: string, h: string, f: string) returns (m: nat)
    requires Blank(pad) && sign in ["", "+", "-"] && AllDigits(h) && AllDigits(f)
    requires FracValue(h) < B63 && LoValue(f) != B64
    ensures m < B127 && Parsed(pad + sign + (h + "." + f)) == Number(if sign == "-" then 0 - m else m)
    ensures var p := Pow10(|f|);
      -4 * (p - 1) <= 9 * (p * m - (FracValue(h) * p + FracValue(f)) * B64) <= 5 * (p - 1)
  {
    hide HiValue, LoValue, FracValue, Pow10, Parsed, WithWords;
    var n, low, p := FracValue(h), LoValue(f), Pow10(|f|);
    ReadsNumber(pad, sign, h, f);
    HiIsNumber(h);
    ModIs(n, B64, 0, n);
    ModIs(low, B64, 0, low);
    ReadError(f);
    m := n * B64 + low;
    MulMono(n, B63 - 1, B64);
    SignedWords(sign == "-", n, low);
    assert p * m - (n * p + FracValue(f)) * B64 == p * low - FracValue(f) * B64 by {
      Distrib(n * p, FracValue(f), B64);
      Assoc(n, p, B64);
      assert p * m == p * (n * B64) + p * low;
    }
  }

  lemma SignedWords(negative: bool, n: nat, low: u64)
    requires n < B63
    ensures 0 <= n * B64 + low < B127
    ensures WithWords(negative, n, low) == if negative then 0 - (n * B64 + low) else n * B64 + low
  {
    MulMono(n, B63 - 1, B64);
    if negative { ToSignedId(0 - (n * B64 + low)); }
  }

  /** A whole number as the standard library prints it, without a sign and without a point, is read as it is. */
  lemma ReadsNatural(pad: string, n: nat)
    requires Blank(pad) && n < B63
    ensures n * B64 < B127 && Parsed(pad + DecimalOf(n)) == Number(n * B64)
  {
    hide Parsed, HiValue, DecimalOf, WithWords;
    ReadsNumber(pad, "", DecimalOf(n), "");
    assert pad + "" == pad;
    HiDecimal(n);
    ModIs(n, B64, 0, n);
    SignedWords(false, n, 0);
  }
}
