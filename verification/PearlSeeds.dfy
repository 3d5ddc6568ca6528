/** PearlHash search seeds: 32-bit seeds that a proxy partitions by slot and stride, a worker
    partitions by thread, and each thread walks to the end of the range.
 */
module PearlSeeds {
  import opened Basics
  import opened NonceSpace
  import opened Words
  import WordArithmetic

  const MAXIMUM: U32 := TWO32 - 1

  // ---------- the native side ----------

  function SeedStart(base: U32, t: U32, threads: U32, stride: U32): (r: Option<nat>)
    ensures t * stride >= 0
    ensures r.Some? <==> t < threads && stride > 0 && base + t * stride <= MAXIMUM
    ensures r.Some? ==> r.value == base + t * stride
  {
    NonNegative(t, stride);
    if threads == 0 || t >= threads || stride == 0 then None
    else NonceWithOffset(MAXIMUM, base, t, stride, 0)
  }

  function SeedNext(current: U32, step: U64): (r: Option<U32>)
    ensures r.Some? <==> step > 0 && current + step <= MAXIMUM
    ensures r.Some? ==> r.value == current + step
  {
    if step == 0 || step > MAXIMUM || current > MAXIMUM - step then None
    else
      SmallMod(current + step, TWO32);
      Some((current + step) % TWO32)
  }

  /** A thread's whole run: from its start in equal steps, until the next seed would wrap. */
  method WalkSeeds(start: U32, step: U64) returns (seeds: seq<nat>)
    ensures |seeds| > 0 && seeds == Batches(start, step, |seeds|)
    ensures seeds[|seeds| - 1] <= MAXIMUM && (step > 0 ==> seeds[|seeds| - 1] + step > MAXIMUM)
    ensures step == 0 ==> |seeds| == 1
  {
    var current := start;
    seeds := [current];
    var next := SeedNext(current, step);
    while next.Some?
      invariant |seeds| > 0 && seeds == Batches(start, step, |seeds|) && seeds[|seeds| - 1] == current
      invariant next == SeedNext(current, step)
      invariant step == 0 ==> |seeds| == 1
      decreases MAXIMUM - current, next.Some?
    {
      NextIsNext(start, step, |seeds|, current);
      current := next.value;
      seeds := seeds + [current];
      next := SeedNext(current, step);
    }
  }

  lemma NextIsNext(start: nat, step: nat, n: nat, current: nat)
    requires n > 0 && current == start + (n - 1) * step
    ensures current + step == start + n * step
  {
  }

  // ---------- the JavaScript side ----------

  /** A seed of the slot that leaves room for every thread's start. */
  function RandomSeed(slot: U32, stride: U32, threads: U32, random: U32): (r: Result<U32>)
    requires stride > 0
    ensures r.Refused? <==> threads == 0 || slot + (threads - 1) * stride > MAXIMUM
    ensures r.Ok? ==> slot <= r.value && r.value + (threads - 1) * stride <= MAXIMUM
    ensures r.Ok? ==> (r.value - slot) % stride == 0
  {
    var maximum := MAXIMUM - (threads - 1) * stride;
    if threads < 1 || maximum < slot then Refused("PearlHash seed range is exhausted")
    else
      var choices := (maximum - slot) / stride + 1;
      NonNegative(threads - 1, stride);
      DrawFits(maximum - slot, stride, random);
      Ok(random % choices * stride + slot)
  }

  lemma DrawFits(room: nat, stride: nat, random: nat)
    requires stride > 0
    ensures room / stride + 1 > 0
    ensures var d := random % (room / stride + 1) * stride; 0 <= d <= room && d % stride == 0
  {
    QuotientIsNat(room, stride);
    var c := room / stride;
    var q := random % (c + 1);
    NonNegative(q, stride);
    MulOrder(stride, q, c);
    DivMod(q * stride, stride, q, 0);
    assert room == c * stride + room % stride;
  }

  /** Every seed of the slot that leaves room for the threads can be drawn. */
  lemma EverySeedCanBeDrawn(slot: U32, stride: U32, threads: U32, seed: U32)
    requires 0 < stride && slot <= seed && (seed - slot) % stride == 0
    requires threads > 0 && seed + (threads - 1) * stride <= MAXIMUM
    ensures exists random: U32 :: RandomSeed(slot, stride, threads, random) == Ok(seed)
  {
    var room: nat, random := MAXIMUM - (threads - 1) * stride - slot, (seed - slot) / stride;
    QuotientIsNat(seed - slot, stride);
    QuotientOrder(seed - slot, room, stride);
    assert seed - slot == random * stride;
    MulOrder(random, 1, stride);
    DrawTakes(slot, stride, threads, random);
  }

  lemma DrawTakes(slot: U32, stride: U32, threads: U32, random: U32)
    requires stride > 0 && threads > 0 && slot + (threads - 1) * stride <= MAXIMUM
    requires random <= (MAXIMUM - (threads - 1) * stride - slot) / stride
    ensures var r := RandomSeed(slot, stride, threads, random); r.Ok? && r.value == random * stride + slot
  {
    SmallMod(random, (MAXIMUM - (threads - 1) * stride - slot) / stride + 1);
  }

  /** What the last dispatched job says: whether it was for this pool's current PearlHash input. */
  datatype LastJob = LastJob(sameInput: bool, stride: Option<U32>, seed: Option<U32>)

  predicate InSlot(seed: Option<U32>, slot: U32, stride: U32)
    requires stride > 0
  {
    seed.Some? && seed.value % stride == slot
  }

  /** A seed to go on from: the pool job's own, or that of the last dispatched job. */
  function ReusableSeed(accepted: bool, carried: Option<U32>, last: LastJob, slot: U32, stride: U32): (r: Option<U32>)
    requires stride > 0
    ensures r.Some? ==> r.value % stride == slot
    ensures accepted && InSlot(carried, slot, stride) ==> r == carried
    ensures !(accepted && InSlot(carried, slot, stride)) ==>
      r == if last.sameInput && last.stride.Some? == accepted && (last.stride.Some? ==> last.stride.value == stride)
              && (last.stride.None? ==> stride == 1) && InSlot(last.seed, slot, stride)
           then last.seed else None
  {
    if accepted && carried.Some? && carried.value % stride == slot then carried
    else if !last.sameInput || last.stride.Some? != accepted then None
    else if (if last.stride.Some? then last.stride.value else 1) != stride then None
    else if last.seed.Some? && last.seed.value % stride == slot then last.seed
    else None
  }

  function IsStride(stride: U32): bool {
    stride != 0 && And(stride, stride - 1) == 0
  }

  /** The strides that are accepted are exactly the powers of two. */
  lemma StridesArePowers(stride: U32)
    ensures IsStride(stride) <==> stride > 0 && WordArithmetic.IsPower(stride)
  {
    if stride > 0 {
      WordArithmetic.AndFindsPowers(stride);
    }
  }

  /** The seed that a PearlHash job is dispatched with.  Without the acknowledged extension the
      stride is one and the slot zero. */
  function FinalSeed(accepted: bool, rawStride: Option<U32>, rawSlot: Option<U32>, carried: Option<U32>,
                     last: LastJob, threads: U32, random: U32): (r: Result<(U32, U32)>)
    ensures r.Ok? ==> IsStride(r.value.1) && 0 <= r.value.0 <= MAXIMUM
    ensures r.Ok? ==> r.value.0 % r.value.1 == (if accepted && rawSlot.Some? then rawSlot.value else 0)
    ensures r.Ok? ==> r.value.1 == if accepted && rawStride.Some? then rawStride.value else 1
    ensures var stride := if accepted && rawStride.Some? then rawStride.value else 1;
      var slot := if accepted && rawSlot.Some? then rawSlot.value else 0;
      r.Refused? <==>
        || !IsStride(stride) || slot >= stride
        || (ReusableSeed(accepted, carried, last, slot, stride).None?
            && (threads == 0 || slot + (threads - 1) * stride > MAXIMUM))
  {
    var stride := if accepted && rawStride.Some? then rawStride.value else 1;
    if !IsStride(stride) then Refused("Invalid PearlHash seed stride")
    else
      var slot := if accepted && rawSlot.Some? then rawSlot.value else 0;
      if slot >= stride then Refused("Invalid PearlHash seed slot")
      else
        var resumed := ReusableSeed(accepted, carried, last, slot, stride);
        if resumed.Some? then Ok((resumed.value, stride))
        else
          var drawn := RandomSeed(slot, stride, threads, random);
          if drawn.Refused? then Refused(drawn.reason)
          else
            SlotOfDrawn(drawn.value, slot, stride, threads);
            Ok((drawn.value, stride))
  }

  lemma SlotOfDrawn(seed: int, slot: U32, stride: U32, threads: U32)
    requires slot < stride && (seed - slot) % stride == 0 && slot <= seed && threads > 0
    requires seed + (threads - 1) * stride <= MAXIMUM
    ensures seed % stride == slot && seed <= MAXIMUM
  {
    NonNegative(threads - 1, stride);
    DivMod(seed, stride, (seed - slot) / stride, slot);
  }

  // ---------- both sides together ----------

  ghost predicate EveryThreadStarts(seed: U32, threads: U32, stride: U32) {
    forall t: U32 :: t < threads ==> SeedStart(seed, t, threads, stride).Some?
  }

  /** All threads accept a seed exactly when there is room for the last thread's start. */
  lemma AllStartIffLastFits(seed: U32, threads: U32, stride: U32)
    requires threads > 0 && stride > 0
    ensures EveryThreadStarts(seed, threads, stride) <==> seed + (threads - 1) * stride <= MAXIMUM
  {
    assert SeedStart(seed, threads - 1, threads, stride).Some? <==> seed + (threads - 1) * stride <= MAXIMUM;
    forall t: U32 | t < threads && seed + (threads - 1) * stride <= MAXIMUM
      ensures SeedStart(seed, t, threads, stride).Some?
    {
      MulOrder(stride, t, threads - 1);
    }
  }

  /** A freshly drawn seed is accepted by every thread. */
  lemma DrawnSeedStartsEveryThread(slot: U32, stride: U32, threads: U32, random: U32)
    requires stride > 0 && RandomSeed(slot, stride, threads, random).Ok?
    ensures RandomSeed(slot, stride, threads, random).value <= MAXIMUM
    ensures EveryThreadStarts(RandomSeed(slot, stride, threads, random).value, threads, stride)
  {
    var seed := RandomSeed(slot, stride, threads, random).value;
    NonNegative(threads - 1, stride);
    AllStartIffLastFits(seed, threads, stride);
  }

  /** A resumed seed is not checked again: one near the end of the range is dispatched, and the
      second of two threads refuses it. */
  lemma ResumedSeedMayNotFit(last: LastJob, random: U32)
    ensures FinalSeed(true, None, None, Some(MAXIMUM), last, 2, random) == Ok((MAXIMUM, 1))
    ensures !EveryThreadStarts(MAXIMUM, 2, 1)
  {
    AllStartIffLastFits(MAXIMUM, 2, 1);
  }

  /** Seed k of a thread's run. */
  function SeedAt(base: U32, t: U32, threads: U32, stride: U32, k: nat): int {
    base + t * stride + k * (threads * stride)
  }

  lemma SeedKeepsSlot(base: U32, t: U32, threads: U32, stride: U32, k: nat)
    requires stride > 0
    ensures SeedAt(base, t, threads, stride, k) % stride == base % stride
  {
    var q, m := base / stride, t + k * threads;
    assert base == q * stride + base % stride;
    assert k * (threads * stride) == k * threads * stride && t * stride + k * threads * stride == m * stride;
    assert (q + m) * stride == q * stride + m * stride;
    DivMod(SeedAt(base, t, threads, stride, k), stride, q + m, base % stride);
  }

  /** Miners in different slots never search the same seed, however many threads they have and
      wherever they start. */
  lemma SlotsNeverMeet(stride: U32, base: U32, t: U32, threads: U32, k: nat,
                       base': U32, t': U32, threads': U32, k': nat)
    requires stride > 0 && base % stride != base' % stride
    ensures SeedAt(base, t, threads, stride, k) != SeedAt(base', t', threads', stride, k')
  {
    SeedKeepsSlot(base, t, threads, stride, k);
    SeedKeepsSlot(base', t', threads', stride, k');
  }

  /** Threads of one miner never search the same seed, and no thread searches one twice. */
  lemma ThreadsNeverMeet(base: U32, threads: U32, stride: U32, t: U32, k: nat, t': U32, k': nat)
    requires stride > 0 && t < threads && t' < threads
    requires SeedAt(base, t, threads, stride, k) == SeedAt(base, t', threads, stride, k')
    ensures t == t' && k == k'
  {
    NonNegative(threads, k);
    NonNegative(threads, k');
    assert k * (threads * stride) == stride * (threads * k) && k' * (threads * stride) == stride * (threads * k');
    assert stride * (t + threads * k) == stride * t + stride * (threads * k);
    assert stride * (t' + threads * k') == stride * t' + stride * (threads * k');
    UniqueDigits(0, t + threads * k, 0, t' + threads * k', stride);
    UniqueDigits(t, k, t', k', threads);
  }

  /** And together they leave none out: every seed of the slot from the base on is some thread's. */
  lemma EverySeedIsSearched(base: U32, threads: U32, stride: U32, x: nat) returns (t: nat, k: nat)
    requires threads > 0 && stride > 0 && x >= base && (x - base) % stride == 0
    ensures t < threads && SeedAt(base, t, threads, stride, k) == x
  {
    QuotientIsNat(x - base, stride);
    var steps: nat := (x - base) / stride;
    t, k := Digits(steps, threads);
    assert x - base == steps * stride;
    NonNegative(threads, k);
    assert (t + threads * k) * stride == t * stride + threads * k * stride;
    assert threads * k * stride == k * (threads * stride);
  }
}
