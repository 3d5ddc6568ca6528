/** How the threads of one worker share the nonce space of a job: batches of evenly spaced nonces
    that advance until the space or the pool's prefix is used up.
 */
module NonceSpace {
  import opened Basics
  import opened Words

  /** Nonces are 32-bit or 64-bit words; `maximum` is the largest of the type. */
  predicate WordMaximum(maximum: nat) { maximum == TWO32 - 1 || maximum == TWO64 - 1 }

  predicate SamePrefix(x: nat, y: nat, mask: nat) {
    And(x, mask) == And(y, mask)
  }

  /** base + offset, unless it leaves the type or changes a protected bit. */
  function NonceAt(maximum: nat, base: nat, offset: U64, mask: nat): (r: Option<nat>)
    requires WordMaximum(maximum) && base <= maximum
    ensures r.Some? <==> base + offset <= maximum && SamePrefix(base, base + offset, mask)
    ensures r.Some? ==> r.value == base + offset
  {
    if offset > maximum - base then None
    else
      var candidate := (base + offset % (maximum + 1)) % (maximum + 1);
      SmallMod(offset, maximum + 1);
      SmallMod(base + offset, maximum + 1);
      if mask != 0 && And(base, mask) != And(candidate, mask) then None else Some(candidate)
  }

  /** base + index * stride, with a division that finds exactly the products beyond 64 bits. */
  function NonceWithOffset(maximum: nat, base: nat, index: U64, stride: U64, mask: nat): (r: Option<nat>)
    requires WordMaximum(maximum) && base <= maximum
    ensures 0 <= index * stride
    ensures r.Some? <==> base + index * stride <= maximum && SamePrefix(base, base + index * stride, mask)
    ensures r.Some? ==> r.value == base + index * stride
  {
    ProductFits(index, stride);
    if index != 0 && stride > (TWO64 - 1) / index then None
    else NonceAt(maximum, base, index * stride % TWO64, mask)
  }

  lemma ProductFits(index: U64, stride: U64)
    ensures 0 <= index * stride
    ensures index != 0 && stride > (TWO64 - 1) / index <==> index * stride >= TWO64
    ensures index * stride < TWO64 ==> index * stride % TWO64 == index * stride
  {
    NonNegative(index, stride);
    if index != 0 {
      FitsIffBelowQuotient(index, stride, TWO64 - 1);
    }
    if index * stride < TWO64 {
      SmallMod(index * stride, TWO64);
    }
  }

  lemma FitsIffBelowQuotient(x: nat, y: nat, m: nat)
    requires x > 0
    ensures y > m / x <==> x * y > m
  {
    var q := m / x;
    assert m == q * x + m % x;
    if y > q {
      MulOrder(x, q + 1, y);
    } else {
      MulOrder(x, y, q);
    }
  }

  // ---------- one batch ----------

  /** A batch of count nonces, lane apart. */
  datatype Shape = Shape(count: U64, lane: U64, batch: U64, mask: nat)

  function Lane(first: nat, shape: Shape, i: nat): (l: int)
    ensures l >= first
  {
    NonNegative(i, shape.lane);
    first + i * shape.lane
  }

  /** The last lane is still in the type and has the first lane's protected bits. */
  predicate BatchFits(maximum: nat, first: nat, shape: Shape) {
    && shape.count > 0
    && Lane(first, shape, shape.count - 1) <= maximum
    && SamePrefix(first, Lane(first, shape, shape.count - 1), shape.mask)
  }

  /** There is another batch after the one at first. */
  predicate Advances(maximum: nat, first: nat, shape: Shape) {
    && BatchFits(maximum, first, shape)
    && first + shape.batch <= maximum && SamePrefix(first, first + shape.batch, shape.mask)
    && BatchFits(maximum, first + shape.batch, shape)
  }

  method NextNonceBatch(maximum: nat, first: nat, shape: Shape, last0: nat, next0: nat)
    returns (ok: bool, last: nat, next: nat)
    requires WordMaximum(maximum) && first <= maximum
    ensures ok <==> Advances(maximum, first, shape)
    ensures ok ==> next == first + shape.batch
    ensures last == if BatchFits(maximum, first, shape) then Lane(first, shape, shape.count - 1) else last0
  {
    last, next := last0, next0;
    if shape.count == 0 {
      return false, last, next;
    }
    var l := NonceWithOffset(maximum, first, shape.count - 1, shape.lane, shape.mask);
    if l.None? {
      return false, last, next;
    }
    last := l.value;
    var n := NonceWithOffset(maximum, first, 1, shape.batch, shape.mask);
    if n.None? {
      return false, last, next;
    }
    next := n.value;
    var nextLast := NonceWithOffset(maximum, next, shape.count - 1, shape.lane, shape.mask);
    ok := nextLast.Some?;
  }

  // ---------- a whole run ----------

  class Core {
    var target: U64
    var exhausted: bool

    /** The first nonce after a batch; without a target (a benchmark) it just wraps. */
    method NextNonceAfterBatch(maximum: nat, first: nat, shape: Shape) returns (r: int)
      requires WordMaximum(maximum) && first <= maximum
      modifies this`exhausted
      ensures target == 0 ==> r == (first + shape.batch) % (maximum + 1) && exhausted == old(exhausted)
      ensures target != 0 && Advances(maximum, first, shape) ==>
        r == first + shape.batch && exhausted == old(exhausted)
      ensures target != 0 && !Advances(maximum, first, shape) ==> exhausted
      ensures target != 0 && !Advances(maximum, first, shape) ==>
        r == if BatchFits(maximum, first, shape) then Lane(first, shape, shape.count - 1) else first
    {
      if target == 0 {
        WrapOnce(first, shape.batch, maximum + 1);
        return (first + shape.batch % (maximum + 1)) % (maximum + 1);
      }
      var ok, last, next := NextNonceBatch(maximum, first, shape, first, first);
      if !ok {
        exhausted := true;
        return last;
      }
      return next;
    }

    /** Mine from a job's first batch until the nonces are exhausted.  The batches that were hashed
        advance evenly, each fits the type and the prefix, and the run stops only where the next
        batch would not. */
    method Mine(maximum: nat, start: nat, shape: Shape) returns (batches: seq<nat>)
      requires WordMaximum(maximum) && BatchFits(maximum, start, shape) && shape.batch > 0 && target != 0
      modifies this`exhausted
      ensures exhausted && RunSoFar(maximum, start, shape, batches)
      ensures !Advances(maximum, batches[|batches| - 1], shape)
    {
      exhausted := false;
      batches := [start];
      var nonce := NextNonceAfterBatch(maximum, start, shape);
      while !exhausted
        invariant RunSoFar(maximum, start, shape, batches)
        invariant exhausted <==> !Advances(maximum, batches[|batches| - 1], shape)
        invariant !exhausted ==> nonce == batches[|batches| - 1] + shape.batch
        decreases maximum - batches[|batches| - 1], !exhausted
      {
        OneMoreBatch(maximum, start, shape, batches);
        batches := batches + [nonce];
        nonce := NextNonceAfterBatch(maximum, nonce, shape);
      }
    }
  }

  /** Batches that advance evenly from the start and all fit the type and the prefix. */
  ghost predicate RunSoFar(maximum: nat, start: nat, shape: Shape, batches: seq<nat>) {
    && |batches| > 0 && batches == Batches(start, shape.batch, |batches|)
    && forall k :: 0 <= k < |batches| ==>
      BatchFits(maximum, batches[k], shape) && SamePrefix(start, batches[k], shape.mask)
  }

  lemma OneMoreBatch(maximum: nat, start: nat, shape: Shape, batches: seq<nat>)
    requires RunSoFar(maximum, start, shape, batches) && Advances(maximum, batches[|batches| - 1], shape)
    ensures RunSoFar(maximum, start, shape, batches + [batches[|batches| - 1] + shape.batch])
  {
    var last := batches[|batches| - 1];
    assert last == start + (|batches| - 1) * shape.batch;
    NextMultiple(start, |batches|, shape.batch);
    assert SamePrefix(start, last + shape.batch, shape.mask);
  }

  lemma NextMultiple(start: nat, n: nat, step: nat)
    requires n > 0
    ensures start + (n - 1) * step + step == start + n * step
  {
  }

  lemma WrapOnce(x: int, y: int, m: int)
    requires m > 0
    ensures (x + y % m) % m == (x + y) % m
  {
    var q, r := (x + y % m) / m, (x + y % m) % m;
    assert x + y == (q + y / m) * m + r by {
      assert x + y % m == q * m + r && y == y / m * m + y % m;
    }
    DivMod(x + y, m, q + y / m, r);
  }

  function Batches(start: nat, step: nat, n: nat): (r: seq<nat>)
    ensures |r| == n && forall k :: 0 <= k < n ==> r[k] == start + k * step
  {
    if n == 0 then [] else
      NonNegative(n - 1, step);
      Batches(start, step, n - 1) + [start + (n - 1) * step]
  }

  // ---------- what the first and the last lane say about the others ----------

  /** The mask of a pool prefix that leaves the k low bits to the miner. */
  function PrefixMask(n: nat, k: nat): nat
    requires k <= n
  {
    Pow2Order(k, n);
    Pow2(n) - Pow2(k)
  }

  predicate Bits(n: nat, maximum: nat) {
    WordMaximum(maximum) && Pow2(n) == maximum + 1
  }

  /** Testing the first and the last lane is enough when the mask covers high bits. */
  lemma EveryLaneKeepsPrefix(n: nat, k: nat, maximum: nat, first: nat, shape: Shape, i: nat)
    requires Bits(n, maximum) && k <= n && shape.mask == PrefixMask(n, k)
    requires BatchFits(maximum, first, shape) && i < shape.count
    ensures Lane(first, shape, i) <= maximum && SamePrefix(first, Lane(first, shape, i), shape.mask)
  {
    MulOrder(shape.lane, i, shape.count - 1);
    Pow2Order(k, n);
    BetweenKeepsHighBits(first, Lane(first, shape, i), Lane(first, shape, shape.count - 1), n, k);
  }

  /** Bit i of x. */
  predicate Bit(x: nat, i: nat) {
    if i == 0 then x % 2 == 1 else Bit(x / 2, i - 1)
  }

  /** The mask has a clear bit above a set one. */
  ghost predicate Gap(mask: nat, n: nat) {
    exists i: nat, j: nat :: i < j < n && Bit(mask, i) && !Bit(mask, j)
  }

  /** Whenever the first and the last lane of a batch agree under the mask, all lanes do. */
  ghost predicate EndsAreEnough(maximum: nat, mask: nat) {
    forall first: nat, shape: Shape, i: nat ::
      shape.mask == mask && BatchFits(maximum, first, shape) && i < shape.count ==>
        SamePrefix(first, Lane(first, shape, i), mask)
  }

  /** Testing the first and the last lane is enough exactly for the masks without a gap. */
  lemma EndsAreEnoughIff(n: nat, maximum: nat, mask: nat)
    requires Bits(n, maximum) && mask < Pow2(n)
    ensures EndsAreEnough(maximum, mask) <==> !Gap(mask, n)
  {
    if Gap(mask, n) {
      var i: nat, j: nat :| i < j < n && Bit(mask, i) && !Bit(mask, j);
      GapMissesLane(n, maximum, mask, i, j);
    } else {
      var k := NoGapIsPrefix(mask, n);
      forall first: nat, shape: Shape, i: nat | shape.mask == mask && BatchFits(maximum, first, shape) && i < shape.count
        ensures SamePrefix(first, Lane(first, shape, i), mask)
      {
        EveryLaneKeepsPrefix(n, k, maximum, first, shape, i);
      }
    }
  }

  lemma {:induction false} NoGapIsPrefix(mask: nat, n: nat) returns (k: nat)
    requires mask < Pow2(n) && !Gap(mask, n)
    ensures k <= n && mask == PrefixMask(n, k)
  {
    if n == 0 {
      k := 0;
    } else if mask % 2 == 1 {
      k := 0;
      assert Bit(mask, 0);
      forall j: nat | j < n ensures Bit(mask, j) {
      }
      AllBits(mask, n);
    } else {
      forall i: nat, j: nat | i < j < n - 1 && Bit(mask / 2, i) ensures Bit(mask / 2, j) {
        assert Bit(mask, i + 1) && Bit(mask, j + 1);
      }
      k := NoGapIsPrefix(mask / 2, n - 1);
      k := k + 1;
    }
  }

  lemma {:induction false} AllBits(mask: nat, n: nat)
    requires mask < Pow2(n) && forall j: nat :: j < n ==> Bit(mask, j)
    ensures mask == Pow2(n) - 1
  {
    if n > 0 {
      assert Bit(mask, 0);
      forall j: nat | j < n - 1 ensures Bit(mask / 2, j) {
        assert Bit(mask, j + 1);
      }
      AllBits(mask / 2, n - 1);
    }
  }

  lemma {:induction false} AndOneBit(mask: nat, i: nat)
    ensures And(Pow2(i), mask) == if Bit(mask, i) then Pow2(i) else 0
  {
    if i > 0 {
      AndOneBit(mask / 2, i - 1);
      AndBits(Pow2(i - 1), 0, mask / 2, mask % 2);
      assert mask == 2 * (mask / 2) + mask % 2;
    } else {
      AndBits(0, 1, mask / 2, mask % 2);
      assert mask == 2 * (mask / 2) + mask % 2;
    }
  }

  /** With bit i set and bit j clear above it, lanes 2^i apart from zero to 2^j: the last lane looks
      like the first, the second does not. */
  lemma GapMissesLane(n: nat, maximum: nat, mask: nat, i: nat, j: nat)
    requires Bits(n, maximum) && i < j < n && Bit(mask, i) && !Bit(mask, j)
    ensures !EndsAreEnough(maximum, mask)
  {
    Pow2Order(j + 1, n);
    Pow2Order(i, j);
    Pow2Order(j - i, j);
    Pow2Add(j - i, i);
    var shape := Shape(Pow2(j - i) + 1, Pow2(i), 0, mask);
    assert Lane(0, shape, shape.count - 1) == Pow2(j);
    assert Lane(0, shape, 1) == Pow2(i);
    AndOneBit(mask, i);
    AndOneBit(mask, j);
    assert BatchFits(maximum, 0, shape);
    assert !SamePrefix(0, Lane(0, shape, 1), mask);
  }

  /** So it is not enough for the default mask of four-byte nonces, which protects the low byte. */
  lemma LowMaskMissesLanes()
    ensures Gap(0xFF, 32) && !EndsAreEnough(TWO32 - 1, 0xFF)
    ensures BatchFits(TWO32 - 1, 0, Shape(257, 1, 257, 0xFF)) && !SamePrefix(0, Lane(0, Shape(257, 1, 257, 0xFF), 1), 0xFF)
  {
    assert Bit(0xFF, 0) && !Bit(0xFF, 8);
    Pow32();
    GapMissesLane(32, TWO32 - 1, 0xFF, 0, 8);
    assert And(1, 0xFF) == 1;
    Pow16();
    AndLowMask(256, 8);
  }

  lemma {:induction false} AndLowMask(x: nat, k: nat)
    ensures And(x, Pow2(k) - 1) == x % Pow2(k)
  {
    if k > 0 {
      AndLowMask(x / 2, k - 1);
      AndBits(x / 2, x % 2, Pow2(k - 1) - 1, 1);
      HalveRemainder(x, Pow2(k - 1));
      assert x == 2 * (x / 2) + x % 2;
    }
  }

  lemma AndBits(h: nat, s: nat, g: nat, t: nat)
    requires s < 2 && t < 2
    ensures And(2 * h + s, 2 * g + t) == 2 * And(h, g) + (if s == 1 && t == 1 then 1 else 0)
  {
    DropBit(h, s);
    DropBit(g, t);
  }

  lemma HalveRemainder(x: nat, p: nat)
    requires p > 0
    ensures x % (2 * p) == 2 * (x / 2 % p) + x % 2
  {
    var q, r := x / 2 / p, x / 2 % p;
    assert x / 2 == q * p + r && q * (2 * p) == 2 * (q * p);
    DivMod(x, 2 * p, q, 2 * r + x % 2);
  }

  /** The protected low byte survives when lanes are a multiple of 256 apart. */
  lemma LowByteSurvives(first: nat, unit: nat, i: nat)
    ensures 0 <= i * (256 * unit) && SamePrefix(first, first + i * (256 * unit), 0xFF)
  {
    NonNegative(i, unit);
    var m: nat := i * unit;
    assert i * (256 * unit) == 256 * m;
    DivMod(first + 256 * m, 256, first / 256 + m, first % 256);
    LowByte(first);
    LowByte(first + 256 * m);
  }

  lemma LowByte(x: nat)
    ensures And(x, 0xFF) == x % 256
  {
    Pow16();
    AndLowMask(x, 8);
  }

  // ---------- the threads of a worker ----------

  /** Contiguous: each thread has a run of nonces, and batches of all threads take turns.  Scattered:
      the threads' nonces interleave in steps of a unit. */
  datatype Layout = Contiguous | Scattered(unit: nat)

  function ThreadOffset(layout: Layout, count: nat, t: nat): int {
    if layout.Contiguous? then t * count else t * layout.unit
  }

  function LaneStride(layout: Layout, threads: nat): int {
    if layout.Contiguous? then 1 else threads * layout.unit
  }

  function BatchStride(layout: Layout, threads: nat, count: nat): int {
    if layout.Contiguous? then threads * count else count * (threads * layout.unit)
  }

  /** Lane i of batch k of thread t, for a job that starts at nonce s. */
  function Hashed(layout: Layout, threads: nat, count: nat, s: int, t: nat, k: nat, i: nat): int {
    s + ThreadOffset(layout, count, t) + k * BatchStride(layout, threads, count) + i * LaneStride(layout, threads)
  }

  /** Over the whole run, no two lanes of any batches of any threads are the same nonce. */
  lemma NoNonceTwice(layout: Layout, threads: nat, count: nat, s: int,
                     t: nat, k: nat, i: nat, t': nat, k': nat, i': nat)
    requires t < threads && t' < threads && i < count && i' < count
    requires layout.Scattered? ==> layout.unit > 0
    requires Hashed(layout, threads, count, s, t, k, i) == Hashed(layout, threads, count, s, t', k', i')
    ensures t == t' && k == k' && i == i'
  {
    if layout.Contiguous? {
      ContiguousDigits(threads, count, t, k, i);
      ContiguousDigits(threads, count, t', k', i');
      UniqueDigits(i, t + threads * k, i', t' + threads * k', count);
      UniqueDigits(t, k, t', k', threads);
    } else {
      ScatteredDigits(layout.unit, threads, count, t, k, i);
      ScatteredDigits(layout.unit, threads, count, t', k', i');
      UniqueDigits(0, t + threads * (i + count * k), 0, t' + threads * (i' + count * k'), layout.unit);
      UniqueDigits(t, i + count * k, t', i' + count * k', threads);
      UniqueDigits(i, k, i', k', count);
    }
  }

  lemma Digits(y: nat, m: nat) returns (low: nat, high: nat)
    requires m > 0
    ensures low < m && y == low + m * high
  {
    QuotientIsNat(y, m);
    low, high := y % m, y / m;
    assert y == high * m + low;
  }

  /** And none is left out: every nonce from the job's start on, in steps of the unit if the threads
      interleave, is some lane of some batch of some thread. */
  lemma EveryNonceIsHashed(layout: Layout, threads: nat, count: nat, s: int, x: int)
    returns (t: nat, k: nat, i: nat)
    requires threads > 0 && count > 0 && x >= s
    requires layout.Scattered? ==> layout.unit > 0 && (x - s) % layout.unit == 0
    ensures t < threads && i < count && Hashed(layout, threads, count, s, t, k, i) == x
  {
    var m: nat;
    if layout.Contiguous? {
      i, m := Digits(x - s, count);
      t, k := Digits(m, threads);
      ContiguousDigits(threads, count, t, k, i);
    } else {
      QuotientIsNat(x - s, layout.unit);
      var steps: nat := (x - s) / layout.unit;
      assert x - s == steps * layout.unit;
      t, m := Digits(steps, threads);
      i, k := Digits(m, count);
      ScatteredDigits(layout.unit, threads, count, t, k, i);
    }
  }

  lemma ContiguousDigits(threads: nat, count: nat, t: nat, k: nat, i: nat)
    ensures 0 <= threads * k && 0 <= count * (t + threads * k)
    ensures t * count + k * (threads * count) + i * 1 == i + count * (t + threads * k)
  {
    NonNegative(threads, k);
    NonNegative(count, t + threads * k);
  }

  lemma ScatteredDigits(unit: nat, threads: nat, count: nat, t: nat, k: nat, i: nat)
    ensures 0 <= count * k && 0 <= threads * (i + count * k) && 0 <= unit * (t + threads * (i + count * k))
    ensures t * unit + k * (count * (threads * unit)) + i * (threads * unit) == unit * (t + threads * (i + count * k))
  {
    NonNegative(count, k);
    NonNegative(threads, i + count * k);
    NonNegative(unit, t + threads * (i + count * k));
  }

  /** The scattered layout puts the job's protected bits back into a thread's start by a bitwise or.
      For a pool prefix this keeps the prefix exactly when the thread's offset did not carry into
      it, and then it changes nothing. */
  lemma ScatteredStartKeepsPrefix(n: nat, k: nat, nonce: nat, x: nat, input: nat)
    requires k <= n && nonce <= x < Pow2(n) && input < Pow2(n) && SamePrefix(nonce, input, PrefixMask(n, k))
    ensures var start := Or(x, And(input, PrefixMask(n, k)));
      && (SamePrefix(x, input, PrefixMask(n, k)) ==> start == x)
      && (start < Pow2(n) ==> (SamePrefix(start, input, PrefixMask(n, k)) <==> SamePrefix(x, input, PrefixMask(n, k))))
  {
    var p := Pow2(k);
    var xh, ih := x / p, input / p;
    Pow2Order(k, n);
    AndHighMask(input, n, k);
    SplitWord(input, k);
    SplitWord(x, k);
    OrParts(x % p, xh, 0, ih, k);
    var start := Or(x, And(input, PrefixMask(n, k)));
    assert start == x % p + Shifted(Or(xh, ih), k);
    JoinedQuotient(x % p, Or(xh, ih), k);
    HighMaskComparesQuotients(nonce, input, n, k);
    HighMaskComparesQuotients(x, input, n, k);
    QuotientOrder(nonce, x, p);
    OrGrows(xh, ih);
    if start < Pow2(n) {
      HighMaskComparesQuotients(start, input, n, k);
    }
  }

  /** Every nonce that the thread hashes, in all lanes of all batches of its run as `Mine` returns it,
      keeps the pool's prefix exactly when its offset did not carry. */
  lemma WholeRunKeepsPrefix(n: nat, k: nat, maximum: nat, nonce: nat, x: nat, input: nat,
                            shape: Shape, batches: seq<nat>, j: nat, i: nat)
    requires Bits(n, maximum) && k <= n && shape.mask == PrefixMask(n, k)
    requires nonce <= x < Pow2(n) && input < Pow2(n) && SamePrefix(nonce, input, shape.mask)
    requires j < |batches| && i < shape.count
    requires var start := Or(x, And(input, shape.mask));
      start <= maximum && RunSoFar(maximum, start, shape, batches)
    ensures SamePrefix(Lane(batches[j], shape, i), input, shape.mask) <==> SamePrefix(x, input, shape.mask)
  {
    ScatteredStartKeepsPrefix(n, k, nonce, x, input);
    EveryLaneKeepsPrefix(n, k, maximum, batches[j], shape, i);
  }

  /** The offset can carry: it is tested without a mask, and later tests compare with this start
      only.  The second thread of a job with prefix 0x000001 starts under the prefix 0x000003. */
  lemma ScatteredStartLosesPrefix()
    ensures NonceWithOffset(TWO32 - 1, 0x1FF, 1, 1, 0) == Some(0x200)
    ensures And(0x1FF, PrefixMask(32, 8)) == 0x100 && Or(0x200, 0x100) == 0x300
    ensures !SamePrefix(0x300, 0x1FF, PrefixMask(32, 8))
  {
    Pow32();
    Pow16();
    AndHighMask(0x1FF, 32, 8);
    AndHighMask(0x300, 32, 8);
    ClearLowIsQuotient(0x1FF, 8);
    ClearLowIsQuotient(0x300, 8);
    AndNothing(0x1FF);
    AndNothing(0x200);
  }

  lemma AndNothing(x: nat)
    ensures And(x, 0) == 0
  {
  }

  /** The batches of two threads of a job, as `Mine` returns them, have no nonce in common; nor has
      one thread any nonce twice. */
  lemma RunsNeverMeet(layout: Layout, threads: nat, shape: Shape, s: nat, t: nat, bs: seq<nat>, k: nat, i: nat,
                      t': nat, bs': seq<nat>, k': nat, i': nat)
    requires t < threads && t' < threads && i < shape.count && i' < shape.count && k < |bs| && k' < |bs'|
    requires layout.Scattered? ==> layout.unit > 0
    requires shape.lane == LaneStride(layout, threads) && shape.batch == BatchStride(layout, threads, shape.count)
    requires bs[0] == s + ThreadOffset(layout, shape.count, t) && bs == Batches(bs[0], shape.batch, |bs|)
    requires bs'[0] == s + ThreadOffset(layout, shape.count, t') && bs' == Batches(bs'[0], shape.batch, |bs'|)
    requires Lane(bs[k], shape, i) == Lane(bs'[k'], shape, i')
    ensures t == t' && k == k' && i == i'
  {
    NoNonceTwice(layout, threads, shape.count, s, t, k, i, t', k', i');
  }
}
