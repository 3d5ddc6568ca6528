/** Exact arithmetic on machine words: products from partial products, and the remainder by a
    multiply and a shift.
 */
module WordArithmetic {
  import opened Basics
  import opened Words

  // ---------- products ----------

  lemma ProductBelow(x: nat, y: nat, m: nat)
    requires x < m && y < m
    ensures 0 <= x * y <= (m - 1) * (m - 1)
  {
    NonNegative(x, y);
    MulOrder(x, y, m - 1);
    MulOrder(m - 1, x, m - 1);
  }

  lemma Expand(x0: nat, x1: nat, y0: nat, y1: nat, k: nat)
    ensures (x0 + k * x1) * (y0 + k * y1) == x0 * y0 + k * (x0 * y1 + x1 * y0) + k * k * (x1 * y1)
  {
  }

  /** The exact product of two words, from four products of their 16-bit halves in 32 bits. */
  function MulWide(a: U32, b: U32): (r: U64)
    ensures r == a * b
  {
    var a0, a1, b0, b1 := a % 0x1_0000, a / 0x1_0000, b % 0x1_0000, b / 0x1_0000;
    var p0, p1, p2, p3 := a0 * b0 % TWO32, a0 * b1 % TWO32, a1 * b0 % TWO32, a1 * b1 % TWO32;
    WideIsExact(a, b);
    (p0 + (p1 + p2) % TWO64 * 0x1_0000 % TWO64 + p3 * TWO32 % TWO64) % TWO64
  }

  lemma WideIsExact(a: U32, b: U32)
    ensures var a0, a1, b0, b1 := a % 0x1_0000, a / 0x1_0000, b % 0x1_0000, b / 0x1_0000;
      var p0, p1, p2, p3 := a0 * b0 % TWO32, a0 * b1 % TWO32, a1 * b0 % TWO32, a1 * b1 % TWO32;
      (p0 + (p1 + p2) % TWO64 * 0x1_0000 % TWO64 + p3 * TWO32 % TWO64) % TWO64 == a * b
  {
    var a0, a1, b0, b1 := a % 0x1_0000, a / 0x1_0000, b % 0x1_0000, b / 0x1_0000;
    ProductBelow(a0, b0, 0x1_0000);
    ProductBelow(a0, b1, 0x1_0000);
    ProductBelow(a1, b0, 0x1_0000);
    ProductBelow(a1, b1, 0x1_0000);
    Expand(a0, a1, b0, b1, 0x1_0000);
    ProductBelow(a, b, TWO32);
    SumOfParts(a0 * b0, a0 * b1, a1 * b0, a1 * b1);
  }

  /** Nothing wraps: each product fits 32 bits, and the shifted sums stay below 2^64. */
  lemma SumOfParts(p0: U32, p1: U32, p2: U32, p3: U32)
    requires p0 + (p1 + p2) * 0x1_0000 + p3 * TWO32 < TWO64
    ensures (p0 % TWO32 + (p1 % TWO32 + p2 % TWO32) % TWO64 * 0x1_0000 % TWO64 + p3 % TWO32 * TWO32 % TWO64) % TWO64
      == p0 + (p1 + p2) * 0x1_0000 + p3 * TWO32
  {
    SmallMod(p0, TWO32);
    SmallMod(p1, TWO32);
    SmallMod(p2, TWO32);
    SmallMod(p3, TWO32);
    SmallMod(p1 + p2, TWO64);
    SmallMod((p1 + p2) * 0x1_0000, TWO64);
    SmallMod(p3 * TWO32, TWO64);
    SmallMod(p0 + (p1 + p2) * 0x1_0000 + p3 * TWO32, TWO64);
  }

  /** The upper half of the product of two 64-bit words. */
  function MulHigh(a: U64, b: U64): (r: U64)
    ensures r == a * b / TWO64
  {
    var a0, a1, b0, b1 := a % TWO32, a / TWO32, b % TWO32, b / TWO32;
    var p0, p1, p2, p3 := MulWide(a0, b0), MulWide(a0, b1), MulWide(a1, b0), MulWide(a1, b1);
    var carry := (p0 / TWO32 + p1 % TWO32 + p2 % TWO32) % TWO64;
    Expand(a0, a1, b0, b1, TWO32);
    ProductBelow(a, b, TWO64);
    HighIsExact(p0, p1, p2, p3, a * b);
    (p3 + p1 / TWO32 + p2 / TWO32 + carry / TWO32) % TWO64
  }

  /** The carries of the middle column reach the upper half. */
  lemma HighIsExact(p0: U64, p1: U64, p2: U64, p3: U64, product: nat)
    requires product == p0 + TWO32 * (p1 + p2) + TWO32 * TWO32 * p3 && product < TWO64 * TWO64
    ensures (p3 + p1 / TWO32 + p2 / TWO32 + (p0 / TWO32 + p1 % TWO32 + p2 % TWO32) % TWO64 / TWO32) % TWO64
      == product / TWO64
  {
    var middle := p0 / TWO32 + p1 % TWO32 + p2 % TWO32;
    var high := p3 + p1 / TWO32 + p2 / TWO32 + middle / TWO32;
    DivMod(product, TWO64, high, p0 % TWO32 + TWO32 * (middle % TWO32));
  }

  // ---------- powers of two ----------

  function Log2(v: nat): (l: nat)
    requires v > 0
    ensures Pow2(l) <= v < Pow2(l + 1)
  {
    if v == 1 then 0 else 1 + Log2(v / 2)
  }

  ghost predicate IsPower(d: nat)
    requires d > 0
  {
    d == Pow2(Log2(d))
  }

  lemma PowerHalf(d: nat)
    requires d > 1
    ensures IsPower(d) <==> d % 2 == 0 && IsPower(d / 2)
  {
  }

  /** The bit trick finds exactly the powers of two. */
  lemma {:induction false} AndFindsPowers(d: nat)
    requires d > 0
    ensures And(d, d - 1) == 0 <==> IsPower(d)
  {
    if d > 1 {
      AndFindsPowers(d / 2);
      PowerHalf(d);
      if d % 2 == 1 {
        AndSelf(d / 2);
        assert (d - 1) / 2 == d / 2;
      } else {
        assert (d - 1) / 2 == d / 2 - 1;
      }
    }
  }

  /** Only powers of two divide a power of two. */
  lemma {:induction false} DividesPower(d: nat, c: nat, k: nat)
    requires d > 0 && d * c == Pow2(k)
    ensures IsPower(d)
  {
    if k == 0 {
      assert d == 1;
    } else if d % 2 == 0 {
      assert d / 2 * c == Pow2(k - 1) by { assert d == 2 * (d / 2); }
      DividesPower(d / 2, c, k - 1);
      PowerHalf(d);
    } else {
      OddTimesOdd(d, c);
      assert d * (c / 2) == Pow2(k - 1) by { assert c == 2 * (c / 2); }
      DividesPower(d, c / 2, k - 1);
    }
  }

  lemma OddTimesOdd(x: nat, y: nat)
    requires x % 2 == 1 && x * y % 2 == 0
    ensures y % 2 == 0
  {
    assert x * y == 2 * (x * (y / 2)) + x * (y % 2);
  }

  // ---------- the remainder by multiply and shift ----------

  lemma LogBelow32(v: U32)
    requires v > 0
    ensures Log2(v) <= 31
  {
    Pow32();
    if Log2(v) > 31 {
      Pow2Order(32, Log2(v));
    }
  }

  /** Leading zeroes of a nonzero 32-bit word. */
  function LeadingZeroes(v: U32): (z: nat)
    requires v > 0
    ensures z <= 31 && Pow2(31 - z) <= v < Pow2(32 - z)
  {
    LogBelow32(v);
    31 - Log2(v)
  }

  datatype FastModData = FastModData(reciprocal: U32, increment: U32, shift: U32, divisor: U32)

  /** Remainder with a prepared descriptor, in 64-bit and 32-bit arithmetic that may wrap. */
  function FastMod(a: U32, d: FastModData): U32 {
    var t := (a + d.increment) % TWO64 * d.reciprocal % TWO64;
    QuotientIsNat(t, Pow2(d.shift));
    var q := t / Pow2(d.shift) % TWO32;
    (a - q * d.divisor % TWO32) % TWO32
  }

  lemma OrderByFactor(x: int, y: int, d: int)
    requires d > 0
    ensures x * d < y * d ==> x < y
    ensures x * d <= y * d ==> x <= y
  {
    if x >= y {
      MulOrder(d, y, x);
    }
    if x > y {
      MulOrder(d, y + 1, x);
    }
  }

  /** Rounded up, the reciprocal's error e cannot reach the next quotient. */
  lemma RoundUpIsExact(a: nat, d: nat, m: nat, n: nat, e: nat)
    requires d > 0 && m * d == n + e && a * e < n
    ensures a * m / n == a / d
  {
    var k, j := a / d, a % d;
    assert a == k * d + j;
    assert a * m * d == a * n + a * e by { assert a * m * d == a * (m * d); }
    assert k * n * d == (k * d) * n;
    assert (k + 1) * n * d == (k * d + d) * n;
    MulOrder(n, k * d, a);
    MulOrder(n, a + 1, k * d + d);
    OrderByFactor(k * n, a * m, d);
    OrderByFactor(a * m, (k + 1) * n, d);
    DivMod(a * m, n, k, a * m - k * n);
  }

  /** Rounded down, one more on the dividend makes up for the error r, which is not zero. */
  lemma RoundDownIsExact(a: nat, d: nat, m: nat, n: nat, r: nat)
    requires d > 0 && m * d + r == n && 0 < r && (a + 1) * r <= n
    ensures (a + 1) * m / n == a / d
  {
    var k, j := a / d, a % d;
    assert a == k * d + j;
    assert (a + 1) * m * d == (a + 1) * n - (a + 1) * r by {
      assert (a + 1) * m * d == (a + 1) * (m * d);
      assert (a + 1) * (m * d) == (a + 1) * (n - r);
    }
    assert k * n * d == (k * d) * n;
    assert (k + 1) * n * d == (k * d + d) * n;
    assert (a + 1) * n == a * n + n;
    MulOrder(n, k * d, a);
    MulOrder(n, a + 1, k * d + d);
    MulOrder(r, 1, a + 1);
    OrderByFactor(k * n, (a + 1) * m, d);
    OrderByFactor((a + 1) * m, (k + 1) * n, d);
    DivMod((a + 1) * m, n, k, (a + 1) * m - k * n);
  }

  /** The descriptor computes the remainder of a, and the 64-bit product does not wrap. */
  predicate ExactAt(data: FastModData, a: U32)
  {
    data.divisor > 0 && (a + data.increment) * data.reciprocal < TWO64 && FastMod(a, data) == a % data.divisor
  }

  ghost predicate Exact(data: FastModData) {
    forall a: U32 :: ExactAt(data, a)
  }

  lemma ProductFits(x: nat, m: U32)
    requires x <= TWO32
    ensures 0 <= x * m < TWO64
  {
    NonNegative(x, m);
    MulOrder(m, x, TWO32);
  }

  lemma RemainderSurvives(a: U32, d: U32, q: int)
    requires d > 0 && q == a / d
    ensures 0 <= q < TWO32 && (a - q * d % TWO32) % TWO32 == a % d
  {
    QuotientIsNat(a, d);
    assert q * d + a % d == a;
    NonNegative(q, d);
    MulOrder(q, 1, d);
    SmallMod(q * d, TWO32);
    SmallMod(a - q * d, TWO32);
  }

  lemma QuotientSurvives(a: U32, data: FastModData)
    requires data.divisor > 0 && data.increment <= 1
    requires (a + data.increment) * data.reciprocal / Pow2(data.shift) == a / data.divisor
    ensures ExactAt(data, a)
  {
    var t, q := (a + data.increment) * data.reciprocal, a / data.divisor;
    ProductFits(a + data.increment, data.reciprocal);
    SmallMod(a + data.increment, TWO64);
    SmallMod(t, TWO64);
    RemainderSurvives(a, data.divisor, q);
    SmallMod(q, TWO32);
  }

  /** The two powers of two around a divisor. */
  lemma ShiftFits(d: U32, shift: U32)
    requires d > 0 && !IsPower(d) && shift == 63 - LeadingZeroes(d)
    ensures Pow2(shift) == TWO32 * Pow2(shift - 32) && Pow2(shift - 32) < d < 2 * Pow2(shift - 32)
    ensures Pow2(shift - 32) <= TWO32 / 2
  {
    Pow32();
    Pow2Add(32, shift - 32);
    Pow2Order(shift - 32, 31);
    assert Log2(d) == shift - 32;
  }

  /** The quotient of 2^shift and one more fit 32 bits, and the remainder is not zero. */
  lemma ReciprocalFits(d: U32, shift: U32, q: nat, r: nat)
    requires d > 0 && !IsPower(d) && shift == 63 - LeadingZeroes(d) && Pow2(shift) == q * d + r && r < d
    ensures 0 < r && q + 1 < TWO32
  {
    ShiftFits(d, shift);
    if r == 0 {
      DividesPower(d, q, shift);
    }
    if q >= TWO32 - 1 {
      MulOrder(d, TWO32 - 1, q);
    }
  }

  lemma ShiftBelow64(shift: nat)
    requires shift <= 63
    ensures Pow2(shift) % TWO64 == Pow2(shift)
  {
    Pow32();
    Pow2Add(32, 31);
    Pow2Order(shift, 63);
  }

  lemma ErrorBelow(x: nat, e: nat, p: nat)
    requires x <= TWO32 && e <= p
    ensures x * e <= TWO32 * p
  {
    MulOrder(x, e, p);
    MulOrder(p, x, TWO32);
  }

  /** A power of two: a shift alone. */
  lemma PowerIsExact(d: U32)
    requires d > 0 && IsPower(d)
    ensures Exact(FastModData(1, 0, 31 - LeadingZeroes(d), d))
  {
    var data := FastModData(1, 0, 31 - LeadingZeroes(d), d);
    forall a: U32 ensures ExactAt(data, a) {
      QuotientSurvives(a, data);
    }
  }

  lemma DownIsExact(d: U32, shift: U32, q: U32, r: nat)
    requires d > 0 && !IsPower(d) && shift == 63 - LeadingZeroes(d)
    requires Pow2(shift) == q * d + r && r < d && 2 * r < d
    ensures Exact(FastModData(q, 1, shift, d))
  {
    var data := FastModData(q, 1, shift, d);
    ShiftFits(d, shift);
    ReciprocalFits(d, shift, q, r);
    forall a: U32 ensures ExactAt(data, a) {
      ErrorBelow(a + 1, r, Pow2(shift - 32));
      RoundDownIsExact(a, d, q, Pow2(shift), r);
      QuotientSurvives(a, data);
    }
  }

  lemma UpIsExact(d: U32, shift: U32, q: nat, r: nat)
    requires d > 0 && !IsPower(d) && shift == 63 - LeadingZeroes(d)
    requires Pow2(shift) == q * d + r && r < d <= 2 * r
    ensures q + 1 < TWO32 && Exact(FastModData(q + 1, 0, shift, d))
  {
    ShiftFits(d, shift);
    ReciprocalFits(d, shift, q, r);
    var data := FastModData(q + 1, 0, shift, d);
    forall a: U32 ensures ExactAt(data, a) {
      ErrorBelow(a + 1, d - r, Pow2(shift - 32));
      assert (a + 1) * (d - r) == a * (d - r) + (d - r);
      RoundUpIsExact(a, d, q + 1, Pow2(shift), d - r);
      QuotientSurvives(a, data);
    }
  }

  /** Whichever way the reciprocal is rounded, nothing is truncated and the descriptor is exact. */
  lemma ReciprocalIsExact(d: U32, shift: U32, n: int, q: int, rest: int)
    requires d > 0 && !IsPower(d) && shift == 63 - LeadingZeroes(d)
    requires n == Pow2(shift) % TWO64 && q == n / d && rest == n - q * d
    ensures rest * 2 < d ==> Exact(FastModData(q % TWO32, 1, shift, d))
    ensures rest * 2 >= d ==> Exact(FastModData((q + 1) % TWO32, 0, shift, d))
  {
    ShiftBelow64(shift);
    QuotientIsNat(n, d);
    assert rest == n % d;
    ReciprocalFits(d, shift, q, rest);
    SmallMod(q, TWO32);
    SmallMod(q + 1, TWO32);
    if rest * 2 < d {
      DownIsExact(d, shift, q, rest);
    } else {
      UpIsExact(d, shift, q, rest);
    }
  }

  /** Prepare the descriptor of a divisor; zero is refused. */
  method MakeFastModData(divisor: U32) returns (r: Result<FastModData>)
    ensures r.Ok? <==> divisor != 0
    ensures r.Ok? ==> r.value.divisor == divisor && Exact(r.value)
  {
    if divisor == 0 {
      return Refused("Fast modulus divisor must be positive");
    }
    var reciprocal: U32, increment: U32, shift: U32 := 0, 0, 0;
    AndFindsPowers(divisor);
    if And(divisor, divisor - 1) == 0 {
      reciprocal := 1;
      shift := 31 - LeadingZeroes(divisor);
      PowerIsExact(divisor);
    } else {
      shift := 63 - LeadingZeroes(divisor);
      var n := Pow2(shift) % TWO64;
      var q := n / divisor;
      var rest := n - q * divisor;
      ReciprocalIsExact(divisor, shift, n, q, rest);
      if rest * 2 < divisor {
        reciprocal := q % TWO32;
        increment := 1;
      } else {
        reciprocal := (q + 1) % TWO32;
      }
    }
    r := Ok(FastModData(reciprocal, increment, shift, divisor));
  }

  // ---------- rounding a range up ----------

  /** The least multiple of step that is no less than value, in 64 bits; refused when the sum with
      step - 1 would pass the platform's largest size. */
  function RoundUpSize(value: U64, step: U64, maximum: U64): (r: Result<U64>)
    ensures r.Refused? <==> step == 0 || value + step - 1 > maximum || step > maximum
    ensures r.Ok? ==> value <= r.value <= maximum && r.value % step == 0
    ensures r.Ok? ==> forall m: int :: m % step == 0 && m >= value ==> m >= r.value
  {
    if step == 0 || step > maximum || value > maximum - (step - 1) then Refused("SYCL range is too large")
    else
      RoundedIsLeast(value, step);
      SmallMod(value + step - 1, TWO64);
      SmallMod((value + step - 1) / step * step, TWO64);
      Ok((value + step - 1) % TWO64 / step * step % TWO64)
  }

  lemma RoundedIsLeast(value: nat, step: nat)
    requires step > 0
    ensures var r := (value + step - 1) / step * step;
      value <= r <= value + step - 1 && r % step == 0 && forall m: int :: m % step == 0 && m >= value ==> m >= r
  {
    var q := (value + step - 1) / step;
    assert value + step - 1 == q * step + (value + step - 1) % step;
    DivMod(q * step, step, q, 0);
    forall m: int | m % step == 0 && m >= value
      ensures m >= q * step
    {
      var k := m / step;
      assert m == k * step && (q - 1) * step == q * step - step;
      OrderByFactor(q - 1, k, step);
      MulOrder(step, q, k);
    }
  }
}
