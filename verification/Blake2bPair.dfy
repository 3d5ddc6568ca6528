/** BLAKE2b's mixing primitive G (section 3.1 of RFC 7693) on 64-bit words that are kept as two
    32-bit halves and updated in place.
 */
module Blake2bPair {
  import opened Words

  // ---------- the standard's G on 64-bit words ----------

  datatype Quad = Quad(a: U64, b: U64, c: U64, d: U64)

  function Add(x: int, y: int): U64 {
    (x + y) % TWO64
  }

  function Sub(x: int, y: int): U64 {
    (x - y) % TWO64
  }

  /** Rotation to the right by 32, 24, 16 and 63 bits: low bits move to the top. */
  function Ror32(w: U64): U64 { w / TWO32 + w % TWO32 * TWO32 }

  function Ror24(w: U64): U64 { w / 0x100_0000 + w % 0x100_0000 * 0x100_0000_0000 }

  function Ror16(w: U64): U64 { w / 0x1_0000 + w % 0x1_0000 * 0x1_0000_0000_0000 }

  function Ror63(w: U64): U64 { w / 0x8000_0000_0000_0000 + w % 0x8000_0000_0000_0000 * 2 }

  function Xor64(x: U64, y: U64): (r: U64)
  {
    XorBelow(x, y);
    Xor(x, y)
  }

  lemma XorBelow(x: U64, y: U64)
    ensures Xor(x, y) < TWO64
  {
    Pow64();
    XorBound(x, y, 64);
  }

  /** G with the rotation constants of BLAKE2b. */
  function G(v: Quad, x: U64, y: U64): Quad {
    var a := Add(Add(v.a, v.b), x);
    var d := Ror32(Xor64(v.d, a));
    var c := Add(v.c, d);
    var b := Ror24(Xor64(v.b, c));
    var a' := Add(Add(a, b), y);
    var d' := Ror16(Xor64(d, a'));
    var c' := Add(c, d');
    Quad(a', Ror63(Xor64(b, c')), c', d')
  }

  // ---------- G can be undone ----------

  function Rol32(w: U64): U64 { Ror32(w) }

  function Rol24(w: U64): U64 { w / 0x100_0000_0000 + w % 0x100_0000_0000 * 0x100_0000 }

  function Rol16(w: U64): U64 { w / 0x1_0000_0000_0000 + w % 0x1_0000_0000_0000 * 0x1_0000 }

  function Rol63(w: U64): U64 { w / 2 + w % 2 * 0x8000_0000_0000_0000 }

  function UndoG(v: Quad, x: U64, y: U64): Quad {
    var b' := Xor64(Rol63(v.b), v.c);
    var c' := Sub(v.c, v.d);
    var d' := Xor64(Rol16(v.d), v.a);
    var a' := Sub(Sub(v.a, y), b');
    var b := Xor64(Rol24(b'), c');
    var c := Sub(c', d');
    var d := Xor64(Rol32(d'), a');
    Quad(Sub(Sub(a', x), b), b, c, d)
  }

  lemma RotateBack(w: U64)
    ensures Rol32(Ror32(w)) == w && Rol24(Ror24(w)) == w && Rol16(Ror16(w)) == w && Rol63(Ror63(w)) == w
  {
    DivMod(Ror32(w), TWO32, w % TWO32, w / TWO32);
    DivMod(Ror24(w), 0x100_0000_0000, w % 0x100_0000, w / 0x100_0000);
    DivMod(Ror16(w), 0x1_0000_0000_0000, w % 0x1_0000, w / 0x1_0000);
    DivMod(Ror63(w), 2, w % 0x8000_0000_0000_0000, w / 0x8000_0000_0000_0000);
  }

  lemma XorBack(v: U64, w: U64)
    ensures Xor64(Xor64(v, w), w) == v
  {
    XorAssoc(v, w, w);
    XorSelf(w);
    XorSelf(v);
  }

  lemma SubBack(v: U64, w: U64, x: U64)
    ensures Sub(Add(v, w), w) == v
    ensures Sub(Sub(Add(Add(v, w), x), x), w) == v
  {
    SubUndoesAdd(v, w);
    SubUndoesAdd(Add(v, w), x);
  }

  lemma SubUndoesAdd(v: U64, w: U64)
    ensures Sub(Add(v, w), w) == v
  {
    DivMod(Add(v, w) - w, TWO64, -((v + w) / TWO64), v);
  }

  /** G loses nothing: whatever the message words, it can be undone. */
  lemma GIsInvertible(v: Quad, x: U64, y: U64)
    ensures UndoG(G(v, x, y), x, y) == v
  {
    var a := Add(Add(v.a, v.b), x);
    var d := Ror32(Xor64(v.d, a));
    var c := Add(v.c, d);
    var b := Ror24(Xor64(v.b, c));
    var a' := Add(Add(a, b), y);
    var d' := Ror16(Xor64(d, a'));
    var c' := Add(c, d');
    RotateBack(Xor64(b, c'));
    XorBack(b, c');
    SubBack(c, d', 0);
    RotateBack(Xor64(d, a'));
    XorBack(d, a');
    SubBack(a, b, y);
    RotateBack(Xor64(v.b, c));
    XorBack(v.b, c);
    SubBack(v.c, d, 0);
    RotateBack(Xor64(v.d, a));
    XorBack(v.d, a);
    SubBack(v.a, v.b, x);
  }

  // ---------- words in halves ----------

  datatype Halves = Halves(lo: U32, hi: U32)

  function Join(lo: U32, hi: U32): (w: U64)
    ensures w == lo + TWO32 * hi
  {
    lo + TWO32 * hi
  }

  function Add32(x: int, y: int): U32 {
    (x + y) % TWO32
  }

  /** The carry out of an addition, seen from the wrapped sum and one addend. */
  function Carry(sum: U32, addend: U32): U32 {
    if sum < addend then 1 else 0
  }

  function Xor32(x: U32, y: U32): U32
  {
    XorJoins(x, 0, y, 0);
    Xor(x, y)
  }

  lemma XorJoins(al: U32, ah: U32, bl: U32, bh: U32)
    ensures Xor(al, bl) < TWO32 && Xor(ah, bh) < TWO32
    ensures Xor(Join(al, ah), Join(bl, bh)) == Xor(al, bl) + TWO32 * Xor(ah, bh)
  {
    Pow32();
    XorPartsAt(al, ah, bl, bh, 32, TWO32);
    XorPartsAt(ah, 0, bh, 0, 32, TWO32);
  }

  lemma XorPartsAt(a: nat, a': nat, b: nat, b': nat, n: nat, p: nat)
    requires p == Pow2(n) && a < p && b < p
    ensures Xor(a, b) < p && Xor(a + p * a', b + p * b') == Xor(a, b) + p * Xor(a', b')
  {
    XorParts(a, a', b, b', n);
    ShiftedIsProduct(a', n);
    ShiftedIsProduct(b', n);
    ShiftedIsProduct(Xor(a', b'), n);
    XorBound(a, b, n);
  }

  function ShiftLeft(w: U32, n: nat): U32 {
    w * Pow2(n) % TWO32
  }

  function ShiftRight(w: U32, n: nat): (r: int)
    ensures r >= 0
  {
    QuotientIsNat(w, Pow2(n));
    w / Pow2(n)
  }

  /** The bits that a shift pushes out of one half come in at the end of the other. */
  lemma ShiftsMeet(right: U32, r: nat, left: U32, l: nat)
    requires Pow2(r) * Pow2(l) == TWO32
    ensures Or(ShiftRight(right, r), ShiftLeft(left, l)) == right / Pow2(r) + Pow2(l) * (left % Pow2(r))
    ensures Or(ShiftLeft(left, l), ShiftRight(right, r)) == right / Pow2(r) + Pow2(l) * (left % Pow2(r))
    ensures right / Pow2(r) < Pow2(l)
  {
    var k, m := right / Pow2(r), left % Pow2(r);
    LeftDropsHigh(left, Pow2(r), Pow2(l));
    QuotientBelow(right, Pow2(r), Pow2(l));
    QuotientIsNat(right, Pow2(r));
    OrDisjoint(k, m, l);
  }

  lemma LeftDropsHigh(w: U32, p: nat, q: nat)
    requires p * q == TWO32 && p > 0
    ensures w * q % TWO32 == q * (w % p)
  {
    var h, m := w / p, w % p;
    assert w * q == h * (p * q) + q * m by {
      assert w == h * p + m;
    }
    assert q * m < q * p by {
      Positive(p - 1 - m, q);
    }
    DivMod(w * q, TWO32, h, q * m);
  }

  lemma QuotientBelow(w: U32, p: nat, q: nat)
    requires p * q == TWO32 && p > 0
    ensures w / p < q
  {
    Positive(w / p - q, p);
    assert w / p * p == q * p + (w / p - q) * p;
  }

  lemma Pow24()
    ensures Pow2(24) == 0x100_0000 && Pow2(31) == 0x8000_0000 && Pow2(1) == 2
  {
    Pow16();
    Pow2Add(8, 16);
    Pow32();
    assert Pow2(32) == 2 * Pow2(31);
  }

  lemma Rotate24(lo: U32, hi: U32)
    ensures var lo', hi' := Or(ShiftRight(lo, 24), ShiftLeft(hi, 8)), Or(ShiftRight(hi, 24), ShiftLeft(lo, 8));
      lo' < TWO32 && hi' < TWO32 && Join(lo', hi') == Ror24(Join(lo, hi))
  {
    Pow16();
    Pow24();
    ShiftsMeet(lo, 24, hi, 8);
    ShiftsMeet(hi, 24, lo, 8);
    DivMod(Join(lo, hi), 0x100_0000, lo / 0x100_0000 + 0x100 * hi, lo % 0x100_0000);
  }

  lemma Rotate16(lo: U32, hi: U32)
    ensures var lo', hi' := Or(ShiftRight(lo, 16), ShiftLeft(hi, 16)), Or(ShiftRight(hi, 16), ShiftLeft(lo, 16));
      lo' < TWO32 && hi' < TWO32 && Join(lo', hi') == Ror16(Join(lo, hi))
  {
    Pow16();
    ShiftsMeet(lo, 16, hi, 16);
    ShiftsMeet(hi, 16, lo, 16);
    DivMod(Join(lo, hi), 0x1_0000, lo / 0x1_0000 + 0x1_0000 * hi, lo % 0x1_0000);
  }

  lemma Rotate63(lo: U32, hi: U32)
    ensures var lo', hi' := Or(ShiftLeft(lo, 1), ShiftRight(hi, 31)), Or(ShiftLeft(hi, 1), ShiftRight(lo, 31));
      lo' < TWO32 && hi' < TWO32 && Join(lo', hi') == Ror63(Join(lo, hi))
  {
    Pow24();
    ShiftsMeet(hi, 31, lo, 1);
    ShiftsMeet(lo, 31, hi, 1);
    DivMod(Join(lo, hi), 0x8000_0000_0000_0000, hi / 0x8000_0000, lo + TWO32 * (hi % 0x8000_0000));
  }

  lemma Swap(lo: U32, hi: U32)
    ensures Join(hi, lo) == Ror32(Join(lo, hi))
  {
    DivMod(Join(lo, hi), TWO32, hi, lo);
  }

  /** The comparison finds the carry. */
  lemma CarryIsQuotient(x: U32, y: U32)
    ensures x + y == Add32(x, y) + TWO32 * Carry(Add32(x, y), y)
  {
  }

  lemma Add32Twice(x: int, y: int, z: int)
    ensures Add32(Add32(x, y), z) == (x + y + z) % TWO32
  {
  }

  /** A low half and a wrapped high sum are the wrapped 64-bit sum. */
  lemma JoinWraps(lo: U32, high: nat, total: int)
    requires total == lo + TWO32 * high
    ensures Join(lo, high % TWO32) == total % TWO64
  {
    DivMod(total, TWO64, high / TWO32, Join(lo, high % TWO32));
  }

  lemma AddTwo(a: Halves, b: Halves)
    ensures var lo := Add32(a.lo, b.lo);
      Join(lo, Add32(Add32(a.hi, b.hi), Carry(lo, b.lo))) == Add(Join(a.lo, a.hi), Join(b.lo, b.hi))
  {
    var lo := Add32(a.lo, b.lo);
    var c := Carry(lo, b.lo);
    CarryIsQuotient(a.lo, b.lo);
    Add32Twice(a.hi, b.hi, c);
    JoinWraps(lo, a.hi + b.hi + c, Join(a.lo, a.hi) + Join(b.lo, b.hi));
  }

  lemma Add32Thrice(x: int, y: int, z: int, c: int)
    ensures Add32(Add32(Add32(x, y), z), c) == (x + y + z + c) % TWO32
  {
    Add32Twice(x, y, z);
    Add32Twice(x + y, z, c);
  }

  lemma AddTwice(x: U64, y: U64, z: U64)
    ensures Add(Add(x, y), z) == (x + y + z) % TWO64
  {
  }

  /** Three addends: the two carries add up to the carry 0, 1 or 2 of the exact low sum. */
  lemma AddThree(a: Halves, b: Halves, x: Halves, lo: U32, sum: U32, carry: int)
    requires lo == Add32(a.lo, b.lo) && sum == Add32(lo, x.lo) && carry == Carry(lo, b.lo) + Carry(sum, x.lo)
    ensures carry == (a.lo + b.lo + x.lo) / TWO32
    ensures Join(sum, Add32(Add32(Add32(a.hi, b.hi), x.hi), carry))
      == Add(Add(Join(a.lo, a.hi), Join(b.lo, b.hi)), Join(x.lo, x.hi))
  {
    CarryIsQuotient(a.lo, b.lo);
    CarryIsQuotient(lo, x.lo);
    DivMod(a.lo + b.lo + x.lo, TWO32, carry, sum);
    Add32Thrice(a.hi, b.hi, x.hi, carry);
    AddTwice(Join(a.lo, a.hi), Join(b.lo, b.hi), Join(x.lo, x.hi));
    JoinWraps(sum, a.hi + b.hi + x.hi + carry, Join(a.lo, a.hi) + Join(b.lo, b.hi) + Join(x.lo, x.hi));
  }

  lemma XorSwap(a: Halves, b: Halves)
    ensures Join(Xor32(a.hi, b.hi), Xor32(a.lo, b.lo)) == Ror32(Xor64(Join(a.lo, a.hi), Join(b.lo, b.hi)))
  {
    XorJoins(a.lo, a.hi, b.lo, b.hi);
    Swap(Xor32(a.lo, b.lo), Xor32(a.hi, b.hi));
  }

  lemma XorRotate24(a: Halves, b: Halves, lo: U32, hi: U32)
    requires lo == Xor32(a.lo, b.lo) && hi == Xor32(a.hi, b.hi)
    ensures var lo', hi' := Or(ShiftRight(lo, 24), ShiftLeft(hi, 8)), Or(ShiftRight(hi, 24), ShiftLeft(lo, 8));
      lo' < TWO32 && hi' < TWO32 && Join(lo', hi') == Ror24(Xor64(Join(a.lo, a.hi), Join(b.lo, b.hi)))
  {
    XorJoins(a.lo, a.hi, b.lo, b.hi);
    Rotate24(lo, hi);
  }

  lemma XorRotate16(a: Halves, b: Halves, lo: U32, hi: U32)
    requires lo == Xor32(a.lo, b.lo) && hi == Xor32(a.hi, b.hi)
    ensures var lo', hi' := Or(ShiftRight(lo, 16), ShiftLeft(hi, 16)), Or(ShiftRight(hi, 16), ShiftLeft(lo, 16));
      lo' < TWO32 && hi' < TWO32 && Join(lo', hi') == Ror16(Xor64(Join(a.lo, a.hi), Join(b.lo, b.hi)))
  {
    XorJoins(a.lo, a.hi, b.lo, b.hi);
    Rotate16(lo, hi);
  }

  lemma XorRotate63(a: Halves, b: Halves, lo: U32, hi: U32)
    requires lo == Xor32(a.lo, b.lo) && hi == Xor32(a.hi, b.hi)
    ensures var lo', hi' := Or(ShiftLeft(lo, 1), ShiftRight(hi, 31)), Or(ShiftLeft(hi, 1), ShiftRight(lo, 31));
      lo' < TWO32 && hi' < TWO32 && Join(lo', hi') == Ror63(Xor64(Join(a.lo, a.hi), Join(b.lo, b.hi)))
  {
    XorJoins(a.lo, a.hi, b.lo, b.hi);
    Rotate63(lo, hi);
  }

  // ---------- the update in place ----------

  class Word {
    var lo: U32
    var hi: U32

    function Value(): U64
      reads this
    {
      Join(lo, hi)
    }
  }

  /** The first half of G on four words that are kept in halves. */
  method MixFirst(a: Word, b: Word, c: Word, d: Word, x: Halves)
    requires a != b && a != c && a != d && b != c && b != d && c != d
    modifies a, b, c, d
    ensures a.Value() == Add(Add(old(a.Value()), old(b.Value())), Join(x.lo, x.hi))
    ensures d.Value() == Ror32(Xor64(old(d.Value()), a.Value()))
    ensures c.Value() == Add(old(c.Value()), d.Value())
    ensures b.Value() == Ror24(Xor64(old(b.Value()), c.Value()))
  {
    var lo := Add32(a.lo, b.lo);
    var carry := Carry(lo, b.lo);
    AddThree(Halves(a.lo, a.hi), Halves(b.lo, b.hi), x, lo, Add32(lo, x.lo), carry + Carry(Add32(lo, x.lo), x.lo));
    a.lo := Add32(lo, x.lo);
    carry := carry + Carry(a.lo, x.lo);
    a.hi := Add32(Add32(Add32(a.hi, b.hi), x.hi), carry);
    XorSwap(Halves(d.lo, d.hi), Halves(a.lo, a.hi));
    var oldLo := Xor32(d.lo, a.lo);
    d.lo := Xor32(d.hi, a.hi);
    d.hi := oldLo;
    ghost var d1 := d.Value();

    AddTwo(Halves(c.lo, c.hi), Halves(d.lo, d.hi));
    lo := Add32(c.lo, d.lo);
    c.hi := Add32(Add32(c.hi, d.hi), Carry(lo, d.lo));
    c.lo := lo;
    assert c.Value() == Add(old(c.Value()), d1);
    oldLo := Xor32(b.lo, c.lo);
    var oldHi := Xor32(b.hi, c.hi);
    XorRotate24(Halves(b.lo, b.hi), Halves(c.lo, c.hi), oldLo, oldHi);
    b.lo := Or(ShiftRight(oldLo, 24), ShiftLeft(oldHi, 8));
    b.hi := Or(ShiftRight(oldHi, 24), ShiftLeft(oldLo, 8));
  }

  /** The second half. */
  method MixSecond(a: Word, b: Word, c: Word, d: Word, y: Halves)
    requires a != b && a != c && a != d && b != c && b != d && c != d
    modifies a, b, c, d
    ensures a.Value() == Add(Add(old(a.Value()), old(b.Value())), Join(y.lo, y.hi))
    ensures d.Value() == Ror16(Xor64(old(d.Value()), a.Value()))
    ensures c.Value() == Add(old(c.Value()), d.Value())
    ensures b.Value() == Ror63(Xor64(old(b.Value()), c.Value()))
  {
    var lo := Add32(a.lo, b.lo);
    var carry := Carry(lo, b.lo);
    AddThree(Halves(a.lo, a.hi), Halves(b.lo, b.hi), y, lo, Add32(lo, y.lo), carry + Carry(Add32(lo, y.lo), y.lo));
    a.lo := Add32(lo, y.lo);
    carry := carry + Carry(a.lo, y.lo);
    a.hi := Add32(Add32(Add32(a.hi, b.hi), y.hi), carry);
    var oldLo := Xor32(d.lo, a.lo);
    var oldHi := Xor32(d.hi, a.hi);
    XorRotate16(Halves(d.lo, d.hi), Halves(a.lo, a.hi), oldLo, oldHi);
    d.lo := Or(ShiftRight(oldLo, 16), ShiftLeft(oldHi, 16));
    d.hi := Or(ShiftRight(oldHi, 16), ShiftLeft(oldLo, 16));
    ghost var d2 := d.Value();

    AddTwo(Halves(c.lo, c.hi), Halves(d.lo, d.hi));
    lo := Add32(c.lo, d.lo);
    c.hi := Add32(Add32(c.hi, d.hi), Carry(lo, d.lo));
    c.lo := lo;
    assert c.Value() == Add(old(c.Value()), d2);
    oldLo := Xor32(b.lo, c.lo);
    oldHi := Xor32(b.hi, c.hi);
    XorRotate63(Halves(b.lo, b.hi), Halves(c.lo, c.hi), oldLo, oldHi);
    b.lo := Or(ShiftLeft(oldLo, 1), ShiftRight(oldHi, 31));
    b.hi := Or(ShiftLeft(oldHi, 1), ShiftRight(oldLo, 31));
  }

  /** G on four words that are kept in halves. */
  method Mix(a: Word, b: Word, c: Word, d: Word, x: Halves, y: Halves)
    requires a != b && a != c && a != d && b != c && b != d && c != d
    modifies a, b, c, d
    ensures Quad(a.Value(), b.Value(), c.Value(), d.Value())
      == G(old(Quad(a.Value(), b.Value(), c.Value(), d.Value())), Join(x.lo, x.hi), Join(y.lo, y.hi))
  {
    MixFirst(a, b, c, d, x);
    MixSecond(a, b, c, d, y);
  }
}
