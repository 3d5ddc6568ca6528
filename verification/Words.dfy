/** Machine words as natural numbers: bitwise operations, powers of two and shifts. */
module Words {

  const TWO32: nat := 0x1_0000_0000
  const TWO64: nat := 0x1_0000_0000_0000_0000

  type U32 = x: int | 0 <= x < TWO32
  type U64 = x: int | 0 <= x < TWO64

  function Pow2(n: nat): (p: nat)
    ensures p > 0
  {
    if n == 0 then 1 else 2 * Pow2(n - 1)
  }

  lemma {:induction false} Pow2Add(m: nat, n: nat)
    ensures Pow2(m + n) == Pow2(m) * Pow2(n)
  {
    if m > 0 {
      Pow2Add(m - 1, n);
      Double(Pow2(m - 1), Pow2(n));
    }
  }

  lemma {:induction false} Pow2Order(m: nat, n: nat)
    requires m <= n
    ensures Pow2(m) <= Pow2(n)
  {
    if m < n {
      Pow2Order(m, n - 1);
    }
  }

  lemma Double(p: nat, x: nat)
    ensures 2 * p * x == 2 * (p * x)
  {
  }

  lemma Pow16()
    ensures Pow2(8) == 0x100 && Pow2(16) == 0x1_0000
  {
    Pow2Add(8, 8);
  }

  lemma Pow32()
    ensures Pow2(32) == TWO32 && Pow2(31) == TWO32 / 2
  {
    Pow16();
    Pow2Add(16, 16);
  }

  lemma Pow64()
    ensures Pow2(64) == TWO64
  {
    Pow32();
    Pow2Add(32, 32);
  }

  lemma NonNegative(x: int, y: int)
    requires x >= 0 && y >= 0
    ensures x * y >= 0
  {
  }

  lemma MulOrder(x: int, y: int, y': int)
    requires 0 <= x && y <= y'
    ensures x * y <= x * y'
  {
    NonNegative(x, y' - y);
    assert x * (y' - y) == x * y' - x * y;
  }

  lemma SmallMod(x: int, m: int)
    requires 0 <= x < m
    ensures x % m == x
  {
  }

  lemma NotAbove(q: int, r: int, q': int, r': int, m: int)
    requires q * m + r == q' * m + r' && 0 <= r && r' < m && 0 < m
    ensures q <= q'
  {
    Positive(q - q' - 1, m);
    assert q * m == q' * m + m + (q - q' - 1) * m;
  }

  lemma Positive(k: int, m: int)
    requires 0 < m
    ensures k >= 0 ==> k * m >= 0
  {
  }

  lemma DivMod(n: int, m: int, q: int, r: int)
    requires 0 <= r < m && n == q * m + r
    ensures n / m == q && n % m == r
  {
    var q', r' := n / m, n % m;
    assert n == q' * m + r';
    NotAbove(q, r, q', r', m);
    NotAbove(q', r', q, r, m);
  }

  lemma HalfAdd(a: nat, x: nat)
    ensures (a + 2 * x) / 2 == a / 2 + x && (a + 2 * x) % 2 == a % 2
  {
  }

  // ---------- exclusive or ----------

  /** Bitwise exclusive or, lowest bit first. */
  function Xor(a: nat, b: nat): nat {
    if a == 0 then b
    else if b == 0 then a
    else 2 * Xor(a / 2, b / 2) + (a + b) % 2
  }

  lemma {:induction false} XorHalves(a: nat, b: nat)
    ensures Xor(a, b) / 2 == Xor(a / 2, b / 2) && Xor(a, b) % 2 == (a + b) % 2
  {
  }

  lemma {:induction false} XorComm(a: nat, b: nat)
    ensures Xor(a, b) == Xor(b, a)
  {
    if a != 0 && b != 0 {
      XorComm(a / 2, b / 2);
    }
  }

  lemma ParityAdd(x: nat, y: nat, z: nat)
    requires x % 2 == y % 2
    ensures (x + z) % 2 == (y + z) % 2
  {
  }

  lemma XorLow(a: nat, b: nat, c: nat)
    ensures Xor(Xor(a, b), c) % 2 == (a + b + c) % 2
  {
    var x := Xor(a, b);
    XorHalves(x, c);
    assert x % 2 == (a + b) % 2 by { XorHalves(a, b); }
    ParityAdd(x, a + b, c);
  }

  lemma {:induction false} XorAssoc(a: nat, b: nat, c: nat)
    ensures Xor(Xor(a, b), c) == Xor(a, Xor(b, c))
    decreases a + b + c
  {
    if a != 0 && b != 0 && c != 0 {
      var l, r := Xor(Xor(a, b), c), Xor(a, Xor(b, c));
      XorAssoc(a / 2, b / 2, c / 2);
      assert l / 2 == r / 2 by {
        XorHalves(a, b);
        XorHalves(b, c);
        XorHalves(Xor(a, b), c);
        XorHalves(a, Xor(b, c));
      }
      assert l % 2 == r % 2 by {
        XorLow(a, b, c);
        XorLow(b, c, a);
        XorComm(a, Xor(b, c));
      }
    }
  }

  lemma {:induction false} XorSelf(a: nat)
    ensures Xor(a, a) == 0 && Xor(a, 0) == a
  {
    if a != 0 {
      XorSelf(a / 2);
    }
  }

  lemma XorSplit(a: nat, b: nat)
    ensures Xor(a, b) == 2 * Xor(a / 2, b / 2) + (a + b) % 2
  {
    XorHalves(a, b);
  }

  lemma DropBit(h: nat, s: nat)
    requires s < 2
    ensures (2 * h + s) / 2 == h && (2 * h + s) % 2 == s
  {
  }

  /** The lowest bits side by side. */
  lemma XorBits(h: nat, s: nat, g: nat, t: nat)
    requires s < 2 && t < 2
    ensures Xor(2 * h + s, 2 * g + t) == 2 * Xor(h, g) + (s + t) % 2
  {
    var a, b := 2 * h + s, 2 * g + t;
    XorSplit(a, b);
    DropBit(h, s);
    DropBit(g, t);
    HalfAdd(s + t, h + g);
    assert a + b == s + t + 2 * (h + g);
  }

  lemma HalfPower(n: nat, x: nat)
    requires n > 0
    ensures Pow2(n) * x == 2 * (Pow2(n - 1) * x)
  {
    Double(Pow2(n - 1), x);
  }

  lemma XorStep(h: nat, s: nat, g: nat, t: nat, x: nat, y: nat, z: nat)
    requires s < 2 && t < 2 && Xor(h + x, g + y) == Xor(h, g) + z
    ensures Xor(2 * h + s + 2 * x, 2 * g + t + 2 * y) == Xor(2 * h + s, 2 * g + t) + 2 * z
  {
    XorBits(h, s, g, t);
    XorBits(h + x, s, g + y, t);
    assert 2 * h + s + 2 * x == 2 * (h + x) + s && 2 * g + t + 2 * y == 2 * (g + y) + t;
  }

  lemma XorDouble(a: nat, b: nat, x: nat, y: nat, z: nat)
    requires Xor(a / 2 + x, b / 2 + y) == Xor(a / 2, b / 2) + z
    ensures Xor(a + 2 * x, b + 2 * y) == Xor(a, b) + 2 * z
  {
    XorStep(a / 2, a % 2, b / 2, b % 2, x, y, z);
    assert a == 2 * (a / 2) + a % 2 && b == 2 * (b / 2) + b % 2;
  }

  lemma {:induction false} XorBound(a: nat, b: nat, n: nat)
    requires a < Pow2(n) && b < Pow2(n)
    ensures Xor(a, b) < Pow2(n)
  {
    if n > 0 {
      XorBound(a / 2, b / 2, n - 1);
      XorSplit(a, b);
    }
  }

  /** v moved up by n bits. */
  function Shifted(v: nat, n: nat): nat {
    if n == 0 then v else 2 * Shifted(v, n - 1)
  }

  lemma {:induction false} ShiftedIsProduct(v: nat, n: nat)
    ensures Shifted(v, n) == Pow2(n) * v
  {
    if n > 0 {
      ShiftedIsProduct(v, n - 1);
      HalfPower(n, v);
    }
  }

  /** Exclusive or of two words works on their low and high parts separately. */
  lemma {:induction false} XorParts(a: nat, a': nat, b: nat, b': nat, n: nat)
    requires a < Pow2(n) && b < Pow2(n)
    ensures Xor(a + Shifted(a', n), b + Shifted(b', n)) == Xor(a, b) + Shifted(Xor(a', b'), n)
    decreases n
  {
    if n > 0 {
      XorParts(a / 2, a', b / 2, b', n - 1);
      XorDouble(a, b, Shifted(a', n - 1), Shifted(b', n - 1), Shifted(Xor(a', b'), n - 1));
    }
  }

  // ---------- inclusive or ----------

  /** Bitwise or, lowest bit first. */
  function Or(a: nat, b: nat): nat {
    if a == 0 then b
    else if b == 0 then a
    else 2 * Or(a / 2, b / 2) + (if a % 2 == 1 || b % 2 == 1 then 1 else 0)
  }

  lemma {:induction false} OrComm(a: nat, b: nat)
    ensures Or(a, b) == Or(b, a)
  {
    if a != 0 && b != 0 {
      OrComm(a / 2, b / 2);
    }
  }

  /** Parts that share no bit add up. */
  lemma {:induction false} OrDisjoint(a: nat, b: nat, n: nat)
    requires a < Pow2(n)
    ensures Or(a, Pow2(n) * b) == a + Pow2(n) * b
    ensures Or(Pow2(n) * b, a) == a + Pow2(n) * b
  {
    if n > 0 && a > 0 && b > 0 {
      OrDisjoint(a / 2, b, n - 1);
      Double(Pow2(n - 1), b);
    }
    OrComm(a, Pow2(n) * b);
  }

  lemma OrBits(h: nat, s: nat, g: nat, t: nat)
    requires s < 2 && t < 2
    ensures Or(2 * h + s, 2 * g + t) == 2 * Or(h, g) + (if s == 1 || t == 1 then 1 else 0)
  {
    DropBit(h, s);
    DropBit(g, t);
  }

  lemma OrDouble(a: nat, b: nat, x: nat, y: nat, z: nat)
    requires Or(a / 2 + x, b / 2 + y) == Or(a / 2, b / 2) + z
    ensures Or(a + 2 * x, b + 2 * y) == Or(a, b) + 2 * z
  {
    OrBits(a / 2, a % 2, b / 2, b % 2);
    OrBits(a / 2 + x, a % 2, b / 2 + y, b % 2);
    assert a + 2 * x == 2 * (a / 2 + x) + a % 2 && b + 2 * y == 2 * (b / 2 + y) + b % 2;
    assert a == 2 * (a / 2) + a % 2 && b == 2 * (b / 2) + b % 2;
  }

  /** Inclusive or of two words works on their low and high parts separately. */
  lemma {:induction false} OrParts(a: nat, a': nat, b: nat, b': nat, n: nat)
    requires a < Pow2(n) && b < Pow2(n)
    ensures Or(a + Shifted(a', n), b + Shifted(b', n)) == Or(a, b) + Shifted(Or(a', b'), n)
    decreases n
  {
    if n > 0 {
      OrParts(a / 2, a', b / 2, b', n - 1);
      OrDouble(a, b, Shifted(a', n - 1), Shifted(b', n - 1), Shifted(Or(a', b'), n - 1));
    }
  }

  lemma {:induction false} OrGrows(a: nat, b: nat)
    ensures Or(a, b) >= a && Or(a, a) == a
  {
    if a != 0 {
      OrGrows(a / 2, b / 2);
    }
  }

  // ---------- and ----------

  /** Bitwise and, lowest bit first. */
  function And(a: nat, b: nat): nat {
    if a == 0 || b == 0 then 0
    else 2 * And(a / 2, b / 2) + (if a % 2 == 1 && b % 2 == 1 then 1 else 0)
  }

  lemma {:induction false} AndSelf(a: nat)
    ensures And(a, a) == a
  {
    if a > 0 {
      AndSelf(a / 2);
    }
  }

  lemma {:induction false} AndOnes(x: nat, n: nat)
    requires x < Pow2(n)
    ensures And(x, Pow2(n) - 1) == x
  {
    if n > 0 && x > 0 {
      AndOnes(x / 2, n - 1);
      DropBit(Pow2(n - 1) - 1, 1);
    }
  }

  lemma AndEven(h: nat, s: nat, m: nat)
    requires s < 2
    ensures And(2 * h + s, 2 * m) == 2 * And(h, m)
  {
    DropBit(h, s);
    DropBit(m, 0);
  }

  /** x with its k low bits cleared. */
  function ClearLow(x: nat, k: nat): nat {
    if k == 0 then x else 2 * ClearLow(x / 2, k - 1)
  }

  lemma {:induction false} ClearLowIsQuotient(x: nat, k: nat)
    ensures ClearLow(x, k) == x / Pow2(k) * Pow2(k)
  {
    if k > 0 {
      ClearLowIsQuotient(x / 2, k - 1);
      HalveQuotient(x, Pow2(k - 1));
    }
  }

  lemma {:induction false} ClearLowSmall(x: nat, k: nat)
    requires x < Pow2(k)
    ensures ClearLow(x, k) == 0
  {
    if k > 0 {
      ClearLowSmall(x / 2, k - 1);
    }
  }

  /** A mask of high bits clears the low ones. */
  lemma {:induction false} AndHighMask(x: nat, n: nat, k: nat)
    requires x < Pow2(n) && k <= n
    ensures Pow2(k) <= Pow2(n) && And(x, Pow2(n) - Pow2(k)) == ClearLow(x, k)
  {
    Pow2Order(k, n);
    if k == 0 {
      AndOnes(x, n);
    } else if k == n {
      ClearLowSmall(x, n);
    } else {
      AndHighMask(x / 2, n - 1, k - 1);
      AndEven(x / 2, x % 2, Pow2(n - 1) - Pow2(k - 1));
      assert x == 2 * (x / 2) + x % 2;
    }
  }

  lemma HalveQuotient(x: nat, p: nat)
    requires p > 0
    ensures x / (2 * p) * (2 * p) == 2 * (x / 2 / p * p)
  {
    var q, r := x / 2 / p, x / 2 % p;
    assert x / 2 == q * p + r && q * (2 * p) == 2 * (q * p);
    DivMod(x, 2 * p, q, 2 * r + x % 2);
  }

  lemma QuotientIsNat(w: nat, p: nat)
    requires p > 0
    ensures w / p >= 0
  {
  }

  lemma QuotientOrder(x: nat, y: nat, p: nat)
    requires x <= y && p > 0
    ensures x / p <= y / p
  {
    assert x == x / p * p + x % p && y == y / p * p + y % p;
    Positive(x / p - y / p - 1, p);
    assert (x / p - y / p - 1) * p == x / p * p - y / p * p - p;
  }

  lemma SameQuotient(q: int, r: int, p: int)
    requires q * p == r * p && p > 0
    ensures q == r
  {
    NotAbove(q, 0, r, 0, p);
    NotAbove(r, 0, q, 0, p);
  }

  /** What lies between two words with equal high bits has those high bits too. */
  lemma BetweenKeepsHighBits(first: nat, x: nat, last: nat, n: nat, k: nat)
    requires first <= x <= last < Pow2(n) && k <= n && Pow2(k) <= Pow2(n)
    requires And(first, Pow2(n) - Pow2(k)) == And(last, Pow2(n) - Pow2(k))
    ensures And(x, Pow2(n) - Pow2(k)) == And(first, Pow2(n) - Pow2(k))
  {
    AndHighMask(first, n, k);
    AndHighMask(x, n, k);
    AndHighMask(last, n, k);
    ClearLowIsQuotient(first, k);
    ClearLowIsQuotient(x, k);
    ClearLowIsQuotient(last, k);
    SameQuotient(first / Pow2(k), last / Pow2(k), Pow2(k));
    QuotientOrder(first, x, Pow2(k));
    QuotientOrder(x, last, Pow2(k));
  }

  lemma SplitWord(x: nat, k: nat)
    ensures x / Pow2(k) >= 0
    ensures x == x % Pow2(k) + Shifted(x / Pow2(k), k) && ClearLow(x, k) == Shifted(x / Pow2(k), k)
  {
    QuotientIsNat(x, Pow2(k));
    var q: nat, p: nat := x / Pow2(k), Pow2(k);
    ShiftedIsProduct(q, k);
    ClearLowIsQuotient(x, k);
    assert x == q * p + x % p;
  }

  lemma JoinedQuotient(low: nat, high: nat, k: nat)
    requires low < Pow2(k)
    ensures (low + Shifted(high, k)) / Pow2(k) == high
  {
    ShiftedIsProduct(high, k);
    DivMod(low + Shifted(high, k), Pow2(k), high, low);
  }

  /** Under a mask of high bits, equal means equal high parts. */
  lemma HighMaskComparesQuotients(x: nat, y: nat, n: nat, k: nat)
    requires x < Pow2(n) && y < Pow2(n) && k <= n && Pow2(k) <= Pow2(n)
    ensures And(x, Pow2(n) - Pow2(k)) == And(y, Pow2(n) - Pow2(k)) <==> x / Pow2(k) == y / Pow2(k)
  {
    AndHighMask(x, n, k);
    AndHighMask(y, n, k);
    ClearLowIsQuotient(x, k);
    ClearLowIsQuotient(y, k);
    if x / Pow2(k) * Pow2(k) == y / Pow2(k) * Pow2(k) {
      SameQuotient(x / Pow2(k), y / Pow2(k), Pow2(k));
    }
  }

  /** Digits are unique. */
  lemma UniqueDigits(a: nat, x: nat, b: nat, y: nat, m: nat)
    requires a < m && b < m && a + m * x == b + m * y
    ensures a == b && x == y
  {
    DivMod(a + m * x, m, x, a);
    DivMod(a + m * x, m, y, b);
  }
}
