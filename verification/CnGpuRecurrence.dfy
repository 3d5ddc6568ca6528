/** The cn/gpu recurrence of one hash: sixteen lanes, three local buffers and a scratchpad, with
    four barriers a round.  Memory cells are 32-bit words; a float is its bit pattern, so float
    addition is just another word operation about which nothing is assumed.
 */
module CnGpuRecurrence {
  import opened LaneSchedule

  const LANES: nat := 16

  /** The word operations of the kernel; `first` is where a state word points in the scratchpad. */
  datatype Ops<!V> = Ops(
    zero: V,
    xor: (V, V) -> V,
    fadd: (V, V) -> V,
    fabs: V -> V,
    toInt: V -> V,                           // times 2^24, truncated
    scale: V -> V,                           // times 2^-6
    outInt: (nat, nat, seq<V>, seq<V>) -> V,   // lane, component, sixteen inputs, carried floats
    outFloat: (nat, nat, seq<V>, seq<V>) -> V,
    first: V -> nat)

  /** The buffers: vi and vo hold integers, vf floats, pad is the scratchpad. */
  datatype Buffers<V> = Buffers(vi: seq<V>, vo: seq<V>, vf: seq<V>, pad: seq<V>)

  ghost predicate Fits<V(!new)>(ops: Ops<V>, b: Buffers<V>) {
    && |b.vi| == |b.vo| == |b.vf| == 64
    && forall s :: ops.first(s) + LANES <= |b.pad|
  }

  /** All buffers in one memory. */
  function Flat<V>(b: Buffers<V>): (m: seq<V>)
    requires |b.vi| == |b.vo| == |b.vf| == 64
    ensures |m| == 192 + |b.pad|
    ensures forall k :: 0 <= k < 64 ==> m[k] == b.vi[k]
    ensures forall k :: 64 <= k < 128 ==> m[k] == b.vo[k - 64]
    ensures forall k :: 128 <= k < 192 ==> m[k] == b.vf[k - 128]
    ensures forall k :: 192 <= k < |m| ==> m[k] == b.pad[k - 192]
  {
    b.vi + b.vo + b.vf + b.pad
  }

  function Vo(k: nat): nat { 64 + k }

  function Vf(k: nat): nat { 128 + k }

  function Pad(k: nat): nat { 192 + k }

  function At<V>(ops: Ops<V>, h: seq<V>, i: nat): V {
    if i < |h| then h[i] else ops.zero
  }

  /** Exclusive or of four words, left to right. */
  function Xor4<V>(ops: Ops<V>, a: V, b: V, c: V, d: V): V {
    ops.xor(ops.xor(ops.xor(a, b), c), d)
  }

  /** Pairwise float sum; the order matters. */
  function Sum4<V>(ops: Ops<V>, a: V, b: V, c: V, d: V): V {
    ops.fadd(ops.fadd(a, b), ops.fadd(c, d))
  }

  /** First of the four interleaved columns of a lane. */
  function Column(l: nat): (b: nat)
    ensures l < LANES ==> b + 12 < 64
  {
    (l / 4) * 16 + l % 4
  }

  // ---------- the reference round, buffer by buffer ----------

  function ReduceInt<V>(ops: Ops<V>, raw: seq<V>, l: nat): V
    requires |raw| == 64 && l < LANES
  {
    var b := Column(l);
    Xor4(ops, raw[b], raw[b + 4], raw[b + 8], raw[b + 12])
  }

  function ReduceFloat<V>(ops: Ops<V>, raw: seq<V>, l: nat): V
    requires |raw| == 64 && l < LANES
  {
    var b := Column(l);
    Sum4(ops, raw[b], raw[b + 4], raw[b + 8], raw[b + 12])
  }

  /** The buffer with its first sixteen cells replaced. */
  function Replaced<V>(raw: seq<V>, partials: seq<V>): (r: seq<V>)
    requires |raw| == 64 && |partials| == LANES
    ensures |r| == 64
    ensures forall k :: 0 <= k < 64 ==> r[k] == if k < LANES then partials[k] else raw[k]
  {
    partials + raw[LANES..]
  }

  function Int1<V>(ops: Ops<V>, vo: seq<V>): (r: seq<V>)
    requires |vo| == 64
    ensures |r| == LANES && forall l :: 0 <= l < LANES ==> r[l] == ReduceInt(ops, vo, l)
  {
    seq(LANES, l requires 0 <= l < LANES => ReduceInt(ops, vo, l))
  }

  function Float1<V>(ops: Ops<V>, vf: seq<V>): (r: seq<V>)
    requires |vf| == 64
    ensures |r| == LANES && forall l :: 0 <= l < LANES ==> r[l] == ReduceFloat(ops, vf, l)
  {
    seq(LANES, l requires 0 <= l < LANES => ReduceFloat(ops, vf, l))
  }

  /** Second stage: reduce again, in the buffer whose first sixteen cells hold the first stage. */
  function Float2<V>(ops: Ops<V>, vf: seq<V>): (r: seq<V>)
    requires |vf| == 64
    ensures |r| == LANES
    ensures forall l :: 0 <= l < LANES ==> r[l] == ops.fabs(ReduceFloat(ops, Replaced(vf, Float1(ops, vf)), l))
  {
    seq(LANES, l requires 0 <= l < LANES => ops.fabs(ReduceFloat(ops, Replaced(vf, Float1(ops, vf)), l)))
  }

  function ReduceRow<V>(ops: Ops<V>, raw: seq<V>, l: nat): V
    requires |raw| == 64 && l < LANES
  {
    Xor4(ops, raw[l], raw[l + 4], raw[l + 8], raw[l + 12])
  }

  function Int2<V>(ops: Ops<V>, vo: seq<V>): (r: seq<V>)
    requires |vo| == 64
    ensures |r| == LANES
    ensures forall l :: 0 <= l < LANES ==> r[l] == ReduceRow(ops, Replaced(vo, Int1(ops, vo)), l)
  {
    seq(LANES, l requires 0 <= l < LANES => ReduceRow(ops, Replaced(vo, Int1(ops, vo)), l))
  }

  /** The lane permutation: which group of four words is the j-th input of lane l. */
  function Select(l: nat, j: nat): (g: nat)
    requires l < LANES && j < 4
    ensures g < 4
  {
    [[0, 1, 2, 3], [0, 2, 3, 1], [0, 3, 1, 2], [0, 3, 2, 1],
     [1, 0, 2, 3], [1, 2, 3, 0], [1, 3, 0, 2], [1, 3, 2, 0],
     [2, 1, 0, 3], [2, 0, 3, 1], [2, 3, 1, 0], [2, 3, 0, 1],
     [3, 1, 2, 0], [3, 2, 0, 1], [3, 0, 1, 2], [3, 0, 2, 1]][l][j]
  }

  function InputCell(l: nat, k: nat): (c: nat)
    requires l < LANES && k < 16
    ensures c < 16
  {
    4 * Select(l, k / 4) + k % 4
  }

  function Inputs<V>(vi: seq<V>, l: nat): (w: seq<V>)
    requires |vi| == 64 && l < LANES
    ensures |w| == 16
  {
    seq(16, k requires 0 <= k < 16 => vi[InputCell(l, k)])
  }

  // ---------- the four intervals between barriers ----------

  /** Interval 1: read four groups of vi, write the lane's group of vo and vf. */
  ghost function ComputeProgram<V(!new)>(ops: Ops<V>, sf: seq<V>, l: nat): (p: Program<V>)
    requires l < LANES
    ensures |p| == 24
    ensures forall k: nat :: k < 16 ==> p[k].Load? && forall h :: p[k].at(h) == InputCell(l, k)
    ensures forall k: nat :: 16 <= k < 24 ==> p[k].Store? && p[k].cell == ComputeCell(l, k)
    ensures forall k: nat :: 16 <= k < 24 ==> forall h :: p[k].value(h) == ComputeValue(ops, sf, l, k, h)
  {
    seq(24, k requires 0 <= k < 24 => ComputeInstr(ops, sf, l, k))
  }

  function ComputeCell(l: nat, k: nat): nat
    requires 16 <= k < 24
  {
    if k < 20 then Vo(4 * l + k - 16) else Vf(4 * l + k - 20)
  }

  function ComputeValue<V>(ops: Ops<V>, sf: seq<V>, l: nat, k: nat, h: seq<V>): V
    requires 16 <= k < 24
  {
    if k < 20 then ops.outInt(l, k - 16, h, sf) else ops.outFloat(l, k - 20, h, sf)
  }

  ghost function ComputeInstr<V(!new)>(ops: Ops<V>, sf: seq<V>, l: nat, k: nat): (i: Instr<V>)
    requires l < LANES && k < 24
    ensures k < 16 ==> i.Load? && forall h :: i.at(h) == InputCell(l, k)
    ensures 16 <= k ==> i.Store? && i.cell == ComputeCell(l, k)
    ensures 16 <= k ==> forall h :: i.value(h) == ComputeValue(ops, sf, l, k, h)
  {
    if k < 16 then var c := InputCell(l, k); Load(_ => c)
    else Store(ComputeCell(l, k), h => ComputeValue(ops, sf, l, k, h))
  }

  /** Interval 2: first-stage reductions into vi, and the scratchpad write-back. */
  ghost function Stage1Program<V(!new)>(ops: Ops<V>, s: V, xi: V, l: nat): (p: Program<V>)
    requires l < LANES
    ensures |p| == 11
    ensures forall k: nat :: k < 11 ==> p[k] == Stage1Instr(ops, s, xi, l, k)
  {
    seq(11, k requires 0 <= k < 11 => Stage1Instr(ops, s, xi, l, k))
  }

  predicate Stage1Loads(k: nat) { k < 4 || 6 <= k < 10 }

  function Stage1Cell<V>(ops: Ops<V>, s: V, l: nat, k: nat): nat
    requires k < 11
  {
    if k < 4 then Vo(Column(l) + 4 * k)
    else if k == 4 then Pad(ops.first(s) + l)
    else if k == 5 then l
    else if k < 10 then Vf(Column(l) + 4 * (k - 6))
    else 16 + l
  }

  function Stage1Value<V>(ops: Ops<V>, xi: V, k: nat, h: seq<V>): V {
    var x := Xor4(ops, At(ops, h, 0), At(ops, h, 1), At(ops, h, 2), At(ops, h, 3));
    if k == 4 then ops.xor(x, xi)
    else if k == 5 then x
    else Sum4(ops, At(ops, h, 4), At(ops, h, 5), At(ops, h, 6), At(ops, h, 7))
  }

  ghost function Stage1Instr<V(!new)>(ops: Ops<V>, s: V, xi: V, l: nat, k: nat): (i: Instr<V>)
    requires l < LANES && k < 11
    ensures Stage1Loads(k) ==> i.Load? && forall h :: i.at(h) == Stage1Cell(ops, s, l, k)
    ensures !Stage1Loads(k) ==> i.Store? && i.cell == Stage1Cell(ops, s, l, k)
    ensures !Stage1Loads(k) ==> forall h :: i.value(h) == Stage1Value(ops, xi, k, h)
  {
    var c := Stage1Cell(ops, s, l, k);
    if Stage1Loads(k) then Load(_ => c) else Store(c, h => Stage1Value(ops, xi, k, h))
  }

  /** Where the second stage finds cell k of the replaced buffers. */
  function StagedInt(k: nat): nat { if k < 16 then k else Vo(k) }

  function StagedFloat(k: nat): nat { if k < 16 then 16 + k else Vf(k) }

  /** Interval 3: second-stage reductions over the staged cells. */
  ghost function Stage2Program<V(!new)>(ops: Ops<V>, l: nat): (p: Program<V>)
    requires l < LANES
    ensures |p| == 10
    ensures forall k: nat :: k < 10 ==> p[k] == Stage2Instr(ops, l, k)
  {
    seq(10, k requires 0 <= k < 10 => Stage2Instr(ops, l, k))
  }

  function Stage2Cell(l: nat, k: nat): nat
    requires k < 10
  {
    if k < 4 then StagedFloat(Column(l) + 4 * k)
    else if k < 8 then StagedInt(l + 4 * (k - 4))
    else if k == 8 then Vo(l)
    else Vf(l)
  }

  function Stage2Value<V>(ops: Ops<V>, k: nat, h: seq<V>): V {
    var xf := ops.fabs(Sum4(ops, At(ops, h, 0), At(ops, h, 1), At(ops, h, 2), At(ops, h, 3)));
    if k == 8 then
      ops.xor(Xor4(ops, At(ops, h, 4), At(ops, h, 5), At(ops, h, 6), At(ops, h, 7)), ops.toInt(xf))
    else ops.scale(xf)
  }

  ghost function Stage2Instr<V(!new)>(ops: Ops<V>, l: nat, k: nat): (i: Instr<V>)
    requires l < LANES && k < 10
    ensures k < 8 ==> i.Load? && forall h :: i.at(h) == Stage2Cell(l, k)
    ensures k >= 8 ==> i.Store? && i.cell == Stage2Cell(l, k) && forall h :: i.value(h) == Stage2Value(ops, k, h)
  {
    var c := Stage2Cell(l, k);
    if k < 8 then Load(_ => c) else Store(c, h => Stage2Value(ops, k, h))
  }

  /** The state word that the next round continues with. */
  function StateOf<V>(ops: Ops<V>, h: seq<V>): V {
    Xor4(ops, At(ops, h, 4), At(ops, h, 5), At(ops, h, 6), At(ops, h, 7))
  }

  /** Interval 4: carry the first group of vf and vo over to the next round, read the next
      scratchpad word, and put it into vi. */
  ghost function SeedProgram<V(!new)>(ops: Ops<V>, l: nat): (p: Program<V>)
    requires l < LANES
    ensures |p| == 10
    ensures forall k: nat :: k < 10 ==> p[k] == SeedInstr(ops, l, k)
  {
    seq(10, k requires 0 <= k < 10 => SeedInstr(ops, l, k))
  }

  function SeedAddress<V>(ops: Ops<V>, l: nat, k: nat, h: seq<V>): nat {
    if k < 4 then Vf(k) else if k < 8 then Vo(k - 4) else Pad(ops.first(StateOf(ops, h)) + l)
  }

  ghost function SeedInstr<V(!new)>(ops: Ops<V>, l: nat, k: nat): (i: Instr<V>)
    requires l < LANES && k < 10
    ensures k < 9 ==> i.Load? && forall h :: i.at(h) == SeedAddress(ops, l, k, h)
    ensures k == 9 ==> i.Store? && i.cell == l && forall h :: i.value(h) == At(ops, h, 8)
  {
    if k < 9 then Load(h => SeedAddress(ops, l, k, h)) else Store(l, h => At(ops, h, 8))
  }

  // ---------- interval 1 ----------

  ghost function ComputePrograms<V(!new)>(ops: Ops<V>, sf: seq<V>): (ps: seq<Program<V>>)
    ensures |ps| == LANES && forall l :: 0 <= l < LANES ==> ps[l] == ComputeProgram(ops, sf, l)
  {
    seq(LANES, l requires 0 <= l < LANES => ComputeProgram(ops, sf, l))
  }

  function Computed<V>(ops: Ops<V>, b: Buffers<V>, sf: seq<V>): (r: Buffers<V>)
    requires |b.vi| == |b.vo| == |b.vf| == 64
    ensures |r.vi| == |r.vo| == |r.vf| == 64 && |r.pad| == |b.pad|
  {
    b.(vo := seq(64, k requires 0 <= k < 64 => ops.outInt(k / 4, k % 4, Inputs(b.vi, k / 4), sf)),
       vf := seq(64, k requires 0 <= k < 64 => ops.outFloat(k / 4, k % 4, Inputs(b.vi, k / 4), sf)))
  }

  lemma ComputeRaceFree<V(!new)>(ops: Ops<V>, sf: seq<V>, size: nat)
    requires size >= 192
    ensures AllInBounds(ComputePrograms(ops, sf), size) && RaceFree(ComputePrograms(ops, sf))
  {
    var ps: seq<Program<V>> := ComputePrograms(ops, sf);
    forall l, k | StoreAt(ps, l, k)
      ensures k >= 16 && ps[l][k].cell == ComputeCell(l, k)
    {
    }
    forall l, k, l', k' | SameCell(ps, l, k, l', k')
      ensures l == l' && k == k'
    {
    }
    forall l, k, h | 0 <= l < |ps| && 0 <= k < |ps[l]| && ps[l][k].Load?
      ensures !Written(ps, ps[l][k].at(h))
    {
      assert k < 16 && ps[l][k].at(h) == InputCell(l, k);
    }
  }

  lemma Snoc<V>(w: seq<V>, k: nat)
    requires k < |w|
    ensures w[..k] + [w[k]] == w[..k + 1]
  {
  }

  lemma InputWord<V>(b: Buffers<V>, l: nat, k: nat)
    requires |b.vi| == |b.vo| == |b.vf| == 64 && l < LANES && k < 16
    ensures Flat(b)[InputCell(l, k)] == Inputs(b.vi, l)[k]
  {
  }

  lemma {:induction false} ComputeGot<V(!new)>(ops: Ops<V>, sf: seq<V>, b: Buffers<V>, l: nat, k: nat)
    requires Fits(ops, b) && l < LANES && k <= 24
    requires InBounds(ComputeProgram(ops, sf, l), |Flat(b)|)
    ensures Got(ComputeProgram(ops, sf, l), k, Flat(b)) == Inputs(b.vi, l)[..if k < 16 then k else 16]
  {
    if k > 0 {
      ComputeGot(ops, sf, b, l, k - 1);
      var p := ComputeProgram(ops, sf, l);
      if k <= 16 {
        InputWord(b, l, k - 1);
        Snoc(Inputs(b.vi, l), k - 1);
        GotLoad(p, k - 1, Flat(b), InputCell(l, k - 1));
      } else {
        GotStore(p, k - 1, Flat(b));
      }
    }
  }

  /** What lane l leaves in one of its eight cells. */
  lemma ComputeStored<V(!new)>(ops: Ops<V>, sf: seq<V>, b: Buffers<V>, after: seq<V>, l: nat, k: nat)
    requires Fits(ops, b) && AllInBounds(ComputePrograms(ops, sf), |Flat(b)|)
    requires Lockstep(ComputePrograms(ops, sf), Flat(b), after)
    requires l < LANES && 16 <= k < 24
    ensures after[ComputeCell(l, k)] == ComputeValue(ops, sf, l, k, Inputs(b.vi, l))
  {
    var ps: seq<Program<V>> := ComputePrograms(ops, sf);
    ComputeGot(ops, sf, b, l, k);
    assert Inputs(b.vi, l)[..16] == Inputs(b.vi, l);
    assert StoreAt(ps, l, k);
    assert ps[l][k].cell == ComputeCell(l, k);
  }

  lemma ComputeInterval<V(!new)>(ops: Ops<V>, sf: seq<V>, b: Buffers<V>, after: seq<V>)
    requires Fits(ops, b) && AllInBounds(ComputePrograms(ops, sf), |Flat(b)|)
    requires Lockstep(ComputePrograms(ops, sf), Flat(b), after)
    ensures after == Flat(Computed(ops, b, sf))
  {
    var ps: seq<Program<V>> := ComputePrograms(ops, sf);
    var r := Computed(ops, b, sf);
    forall k | 0 <= k < |after|
      ensures after[k] == Flat(r)[k]
    {
      if 64 <= k < 128 {
        ComputeStored(ops, sf, b, after, (k - 64) / 4, 16 + (k - 64) % 4);
      } else if 128 <= k < 192 {
        ComputeStored(ops, sf, b, after, (k - 128) / 4, 20 + (k - 128) % 4);
      } else {
        assert !Written(ps, k);
      }
    }
  }

  // ---------- interval 2 ----------

  ghost function Stage1Programs<V(!new)>(ops: Ops<V>, s: V, xi: seq<V>): (ps: seq<Program<V>>)
    requires |xi| == LANES
    ensures |ps| == LANES && forall l :: 0 <= l < LANES ==> ps[l] == Stage1Program(ops, s, xi[l], l)
  {
    seq(LANES, l requires 0 <= l < LANES => Stage1Program(ops, s, xi[l], l))
  }

  /** The scratchpad with sixteen words replaced. */
  function Patched<V>(pad: seq<V>, first: nat, words: seq<V>): (r: seq<V>)
    requires first + |words| <= |pad|
    ensures |r| == |pad|
    ensures forall k :: 0 <= k < |pad| ==>
      r[k] == if first <= k < first + |words| then words[k - first] else pad[k]
  {
    pad[..first] + words + pad[first + |words|..]
  }

  function WriteBack<V>(ops: Ops<V>, vo: seq<V>, xi: seq<V>): (r: seq<V>)
    requires |vo| == 64 && |xi| == LANES
    ensures |r| == LANES && forall l :: 0 <= l < LANES ==> r[l] == ops.xor(Int1(ops, vo)[l], xi[l])
  {
    seq(LANES, l requires 0 <= l < LANES => ops.xor(Int1(ops, vo)[l], xi[l]))
  }

  ghost function Staged<V(!new)>(ops: Ops<V>, b: Buffers<V>, s: V, xi: seq<V>): (r: Buffers<V>)
    requires Fits(ops, b) && |xi| == LANES
    ensures Fits(ops, r) && |r.pad| == |b.pad|
  {
    b.(vi := Int1(ops, b.vo) + Float1(ops, b.vf) + b.vi[32..],
       pad := Patched(b.pad, ops.first(s), WriteBack(ops, b.vo, xi)))
  }

  lemma Stage1RaceFree<V(!new)>(ops: Ops<V>, s: V, xi: seq<V>, size: nat)
    requires |xi| == LANES && size >= 192 && forall s :: ops.first(s) + LANES <= size - 192
    ensures AllInBounds(Stage1Programs(ops, s, xi), size) && RaceFree(Stage1Programs(ops, s, xi))
  {
    var ps: seq<Program<V>> := Stage1Programs(ops, s, xi);
    forall l, k | StoreAt(ps, l, k)
      ensures !Stage1Loads(k) && ps[l][k].cell == Stage1Cell(ops, s, l, k)
    {
    }
    forall l, k, h | 0 <= l < |ps| && 0 <= k < |ps[l]| && ps[l][k].Load?
      ensures !Written(ps, ps[l][k].at(h))
    {
      assert Stage1Loads(k) && ps[l][k].at(h) == Stage1Cell(ops, s, l, k);
    }
  }

  /** What lane l loads in interval 2. */
  function Stage1Words<V>(b: Buffers<V>, l: nat): (w: seq<V>)
    requires |b.vo| == |b.vf| == 64 && l < LANES
    ensures |w| == 8
  {
    var c := Column(l);
    [b.vo[c], b.vo[c + 4], b.vo[c + 8], b.vo[c + 12], b.vf[c], b.vf[c + 4], b.vf[c + 8], b.vf[c + 12]]
  }

  function Stage1Count(k: nat): nat {
    if k < 4 then k else if k < 6 then 4 else if k < 10 then k - 2 else 8
  }

  lemma Stage1Word<V>(ops: Ops<V>, s: V, b: Buffers<V>, l: nat, k: nat)
    requires |b.vi| == |b.vo| == |b.vf| == 64 && l < LANES && k < 11 && Stage1Loads(k)
    ensures Stage1Cell(ops, s, l, k) < |Flat(b)| && Stage1Count(k) < 8
    ensures Flat(b)[Stage1Cell(ops, s, l, k)] == Stage1Words(b, l)[Stage1Count(k)]
  {
    var c := Column(l);
    if k < 4 {
      assert Flat(b)[Vo(c + 4 * k)] == b.vo[c + 4 * k];
    } else {
      assert Flat(b)[Vf(c + 4 * (k - 6))] == b.vf[c + 4 * (k - 6)];
    }
  }

  lemma {:induction false} Stage1Got<V(!new)>(ops: Ops<V>, s: V, xi: V, b: Buffers<V>, l: nat, k: nat)
    requires Fits(ops, b) && l < LANES && k <= 11
    requires InBounds(Stage1Program(ops, s, xi, l), |Flat(b)|)
    ensures Got(Stage1Program(ops, s, xi, l), k, Flat(b)) == Stage1Words(b, l)[..Stage1Count(k)]
  {
    if k > 0 {
      Stage1Got(ops, s, xi, b, l, k - 1);
      var p := Stage1Program(ops, s, xi, l);
      if Stage1Loads(k - 1) {
        Stage1Word(ops, s, b, l, k - 1);
        Snoc(Stage1Words(b, l), Stage1Count(k - 1));
        GotLoad(p, k - 1, Flat(b), Stage1Cell(ops, s, l, k - 1));
      } else {
        GotStore(p, k - 1, Flat(b));
      }
    }
  }

  lemma Stage1Stored<V(!new)>(ops: Ops<V>, s: V, xi: seq<V>, b: Buffers<V>, after: seq<V>, l: nat, k: nat)
    requires Fits(ops, b) && |xi| == LANES && AllInBounds(Stage1Programs(ops, s, xi), |Flat(b)|)
    requires Lockstep(Stage1Programs(ops, s, xi), Flat(b), after)
    requires l < LANES && k < 11 && !Stage1Loads(k)
    ensures after[Stage1Cell(ops, s, l, k)] ==
      if k == 4 then ops.xor(ReduceInt(ops, b.vo, l), xi[l])
      else if k == 5 then ReduceInt(ops, b.vo, l)
      else ReduceFloat(ops, b.vf, l)
  {
    var ps: seq<Program<V>> := Stage1Programs(ops, s, xi);
    Stage1Got(ops, s, xi[l], b, l, k);
    assert Stage1Words(b, l)[..8] == Stage1Words(b, l);
    assert StoreAt(ps, l, k);
    assert ps[l][k].cell == Stage1Cell(ops, s, l, k);
  }

  lemma Stage1At<V(!new)>(ops: Ops<V>, s: V, xi: seq<V>, b: Buffers<V>, after: seq<V>, k: nat)
    requires Fits(ops, b) && |xi| == LANES && AllInBounds(Stage1Programs(ops, s, xi), |Flat(b)|)
    requires Lockstep(Stage1Programs(ops, s, xi), Flat(b), after) && k < 192 + |b.pad|
    ensures after[k] == Flat(Staged(ops, b, s, xi))[k]
  {
    var f := ops.first(s);
    if k < 16 {
      Stage1Stored(ops, s, xi, b, after, k, 5);
    } else if k < 32 {
      Stage1Stored(ops, s, xi, b, after, k - 16, 10);
    } else if 192 + f <= k < 192 + f + 16 {
      Stage1Stored(ops, s, xi, b, after, k - 192 - f, 4);
    } else {
      Stage1Untouched(ops, s, xi, k);
      StagedKeeps(ops, b, s, xi, k);
    }
  }

  lemma Stage1Untouched<V(!new)>(ops: Ops<V>, s: V, xi: seq<V>, k: nat)
    requires |xi| == LANES && k >= 32 && !(192 + ops.first(s) <= k < 192 + ops.first(s) + 16)
    ensures !Written(Stage1Programs(ops, s, xi), k)
  {
  }

  lemma StagedKeeps<V(!new)>(ops: Ops<V>, b: Buffers<V>, s: V, xi: seq<V>, k: nat)
    requires Fits(ops, b) && |xi| == LANES && 32 <= k < 192 + |b.pad|
    requires !(192 + ops.first(s) <= k < 192 + ops.first(s) + 16)
    ensures Flat(Staged(ops, b, s, xi))[k] == Flat(b)[k]
  {
  }

  lemma Stage1Interval<V(!new)>(ops: Ops<V>, s: V, xi: seq<V>, b: Buffers<V>, after: seq<V>)
    requires Fits(ops, b) && |xi| == LANES && AllInBounds(Stage1Programs(ops, s, xi), |Flat(b)|)
    requires Lockstep(Stage1Programs(ops, s, xi), Flat(b), after)
    ensures after == Flat(Staged(ops, b, s, xi))
  {
    forall k | 0 <= k < |after|
      ensures after[k] == Flat(Staged(ops, b, s, xi))[k]
    {
      Stage1At(ops, s, xi, b, after, k);
    }
  }

  // ---------- interval 3 ----------

  ghost function Stage2Programs<V(!new)>(ops: Ops<V>): (ps: seq<Program<V>>)
    ensures |ps| == LANES && forall l :: 0 <= l < LANES ==> ps[l] == Stage2Program(ops, l)
  {
    seq(LANES, l requires 0 <= l < LANES => Stage2Program(ops, l))
  }

  function FinalInts<V>(ops: Ops<V>, vo: seq<V>, vf: seq<V>): (r: seq<V>)
    requires |vo| == |vf| == 64
    ensures |r| == LANES
    ensures forall l :: 0 <= l < LANES ==> r[l] == ops.xor(Int2(ops, vo)[l], ops.toInt(Float2(ops, vf)[l]))
  {
    seq(LANES, l requires 0 <= l < LANES => ops.xor(Int2(ops, vo)[l], ops.toInt(Float2(ops, vf)[l])))
  }

  function FinalFloats<V>(ops: Ops<V>, vf: seq<V>): (r: seq<V>)
    requires |vf| == 64
    ensures |r| == LANES && forall l :: 0 <= l < LANES ==> r[l] == ops.scale(Float2(ops, vf)[l])
  {
    seq(LANES, l requires 0 <= l < LANES => ops.scale(Float2(ops, vf)[l]))
  }

  function Reduced<V>(ops: Ops<V>, b: Buffers<V>): Buffers<V>
    requires |b.vi| == |b.vo| == |b.vf| == 64
  {
    b.(vo := Replaced(b.vo, FinalInts(ops, b.vo, b.vf)), vf := Replaced(b.vf, FinalFloats(ops, b.vf)))
  }

  /** The first stage is complete: its results sit in the reused seed buffer. */
  ghost predicate HoldsPartials<V>(ops: Ops<V>, b: Buffers<V>)
    requires |b.vi| == |b.vo| == |b.vf| == 64
  {
    b.vi[..16] == Int1(ops, b.vo) && b.vi[16..32] == Float1(ops, b.vf)
  }

  lemma Stage2RaceFree<V(!new)>(ops: Ops<V>, size: nat)
    requires size >= 192
    ensures AllInBounds(Stage2Programs(ops), size) && RaceFree(Stage2Programs(ops))
  {
    var ps: seq<Program<V>> := Stage2Programs(ops);
    forall l, k | StoreAt(ps, l, k)
      ensures k >= 8 && ps[l][k].cell == Stage2Cell(l, k)
    {
    }
    forall l, k, h | 0 <= l < |ps| && 0 <= k < |ps[l]| && ps[l][k].Load?
      ensures !Written(ps, ps[l][k].at(h))
    {
      assert k < 8 && ps[l][k].at(h) == Stage2Cell(l, k);
    }
  }

  /** Where word k of the staged reads lies in its replaced buffer. */
  function StagedIndex(l: nat, k: nat): (i: nat)
    requires l < LANES && k < 8
    ensures i < 64
  {
    if k < 4 then Column(l) + 4 * k else l + 4 * (k - 4)
  }

  /** The eight words of one lane: four from the float buffer, four from the integer buffer. */
  function WordsOf<V>(f: seq<V>, i: seq<V>, l: nat): (w: seq<V>)
    requires |f| == |i| == 64 && l < LANES
    ensures |w| == 8
    ensures forall k :: 0 <= k < 8 ==> w[k] == if k < 4 then f[StagedIndex(l, k)] else i[StagedIndex(l, k)]
  {
    seq(8, k requires 0 <= k < 8 => if k < 4 then f[StagedIndex(l, k)] else i[StagedIndex(l, k)])
  }

  /** Staged reads equal reads of the buffers with their first sixteen cells replaced. */
  function Stage2Words<V>(ops: Ops<V>, b: Buffers<V>, l: nat): (w: seq<V>)
    requires |b.vi| == |b.vo| == |b.vf| == 64 && l < LANES
    ensures |w| == 8
  {
    WordsOf(Replaced(b.vf, Float1(ops, b.vf)), Replaced(b.vo, Int1(ops, b.vo)), l)
  }

  lemma StagedReads<V(!new)>(ops: Ops<V>, b: Buffers<V>, k: nat)
    requires Fits(ops, b) && HoldsPartials(ops, b) && k < 64
    ensures Flat(b)[StagedInt(k)] == Replaced(b.vo, Int1(ops, b.vo))[k]
    ensures Flat(b)[StagedFloat(k)] == Replaced(b.vf, Float1(ops, b.vf))[k]
  {
    if k < 16 {
      assert b.vi[k] == b.vi[..16][k] && b.vi[16 + k] == b.vi[16..32][k];
    }
  }

  lemma StagedWord<V(!new)>(ops: Ops<V>, b: Buffers<V>, l: nat, k: nat)
    requires Fits(ops, b) && HoldsPartials(ops, b) && l < LANES && k < 8
    ensures Stage2Cell(l, k) < |Flat(b)| && Flat(b)[Stage2Cell(l, k)] == Stage2Words(ops, b, l)[k]
  {
    StagedReads(ops, b, StagedIndex(l, k));
  }

  lemma {:induction false} Stage2Got<V(!new)>(ops: Ops<V>, b: Buffers<V>, l: nat, k: nat)
    requires Fits(ops, b) && HoldsPartials(ops, b) && l < LANES && k <= 10
    requires InBounds(Stage2Program(ops, l), |Flat(b)|)
    ensures Got(Stage2Program(ops, l), k, Flat(b)) == Stage2Words(ops, b, l)[..if k < 8 then k else 8]
  {
    if k > 0 {
      Stage2Got(ops, b, l, k - 1);
      var p := Stage2Program(ops, l);
      if k <= 8 {
        StagedWord(ops, b, l, k - 1);
        Snoc(Stage2Words(ops, b, l), k - 1);
        GotLoad(p, k - 1, Flat(b), Stage2Cell(l, k - 1));
      } else {
        GotStore(p, k - 1, Flat(b));
      }
    }
  }

  lemma WordsReduce<V(!new)>(ops: Ops<V>, f: seq<V>, i: seq<V>, l: nat)
    requires |f| == |i| == 64 && l < LANES
    ensures Stage2Value(ops, 8, WordsOf(f, i, l)) ==
      ops.xor(ReduceRow(ops, i, l), ops.toInt(ops.fabs(ReduceFloat(ops, f, l))))
    ensures Stage2Value(ops, 9, WordsOf(f, i, l)) == ops.scale(ops.fabs(ReduceFloat(ops, f, l)))
  {
    var w := WordsOf(f, i, l);
    assert Sum4(ops, w[0], w[1], w[2], w[3]) == ReduceFloat(ops, f, l);
    assert Xor4(ops, w[4], w[5], w[6], w[7]) == ReduceRow(ops, i, l);
  }

  lemma Stage2Final<V(!new)>(ops: Ops<V>, b: Buffers<V>, l: nat, k: nat)
    requires |b.vi| == |b.vo| == |b.vf| == 64 && l < LANES && 8 <= k < 10
    ensures Stage2Value(ops, k, Stage2Words(ops, b, l)) ==
      if k == 8 then FinalInts(ops, b.vo, b.vf)[l] else FinalFloats(ops, b.vf)[l]
  {
    WordsReduce(ops, Replaced(b.vf, Float1(ops, b.vf)), Replaced(b.vo, Int1(ops, b.vo)), l);
  }

  lemma Stage2Stored<V(!new)>(ops: Ops<V>, b: Buffers<V>, after: seq<V>, l: nat, k: nat)
    requires Fits(ops, b) && HoldsPartials(ops, b) && AllInBounds(Stage2Programs(ops), |Flat(b)|)
    requires Lockstep(Stage2Programs(ops), Flat(b), after)
    requires l < LANES && 8 <= k < 10
    ensures after[Stage2Cell(l, k)] == Stage2Value(ops, k, Stage2Words(ops, b, l))
  {
    var ps: seq<Program<V>> := Stage2Programs(ops);
    var w := Stage2Words(ops, b, l);
    Stage2Got(ops, b, l, k);
    assert w[..8] == w;
    assert StoreAt(ps, l, k);
    assert ps[l][k].cell == Stage2Cell(l, k);
  }

  lemma Stage2Interval<V(!new)>(ops: Ops<V>, b: Buffers<V>, after: seq<V>)
    requires Fits(ops, b) && HoldsPartials(ops, b) && AllInBounds(Stage2Programs(ops), |Flat(b)|)
    requires Lockstep(Stage2Programs(ops), Flat(b), after)
    ensures after == Flat(Reduced(ops, b))
  {
    var ps: seq<Program<V>> := Stage2Programs(ops);
    var r := Reduced(ops, b);
    forall k | 0 <= k < |after|
      ensures after[k] == Flat(r)[k]
    {
      if 64 <= k < 80 {
        Stage2Stored(ops, b, after, k - 64, 8);
        Stage2Final(ops, b, k - 64, 8);
      } else if 128 <= k < 144 {
        Stage2Stored(ops, b, after, k - 128, 9);
        Stage2Final(ops, b, k - 128, 9);
      } else {
        assert !Written(ps, k);
      }
    }
  }

  // ---------- interval 4 ----------

  ghost function SeedPrograms<V(!new)>(ops: Ops<V>): (ps: seq<Program<V>>)
    ensures |ps| == LANES && forall l :: 0 <= l < LANES ==> ps[l] == SeedProgram(ops, l)
  {
    seq(LANES, l requires 0 <= l < LANES => SeedProgram(ops, l))
  }

  lemma SeedRaceFree<V(!new)>(ops: Ops<V>, size: nat)
    requires size >= 192 && forall s :: ops.first(s) + LANES <= size - 192
    ensures AllInBounds(SeedPrograms(ops), size) && RaceFree(SeedPrograms(ops))
  {
    var ps: seq<Program<V>> := SeedPrograms(ops);
    forall l, k | StoreAt(ps, l, k)
      ensures k == 9 && ps[l][k].cell == l
    {
    }
    forall l, k, h | 0 <= l < |ps| && 0 <= k < |ps[l]| && ps[l][k].Load?
      ensures !Written(ps, ps[l][k].at(h))
    {
      assert k < 9 && ps[l][k].at(h) == SeedAddress(ops, l, k, h);
    }
  }

  function NextState<V>(ops: Ops<V>, b: Buffers<V>): V
    requires |b.vo| == 64
  {
    Xor4(ops, b.vo[0], b.vo[1], b.vo[2], b.vo[3])
  }

  /** The scratchpad words of the sixteen lanes. */
  ghost function Fetch<V(!new)>(ops: Ops<V>, b: Buffers<V>, s: V): (xi: seq<V>)
    requires Fits(ops, b)
    ensures |xi| == LANES && forall l :: 0 <= l < LANES ==> xi[l] == b.pad[ops.first(s) + l]
  {
    b.pad[ops.first(s)..ops.first(s) + LANES]
  }

  ghost function Seeded<V(!new)>(ops: Ops<V>, b: Buffers<V>, s: V): (r: Buffers<V>)
    requires Fits(ops, b)
    ensures Fits(ops, r)
  {
    b.(vi := Replaced(b.vi, Fetch(ops, b, s)))
  }

  /** What lane l has in its registers at the end of interval 4. */
  ghost function Carried<V(!new)>(ops: Ops<V>, b: Buffers<V>, l: nat): (w: seq<V>)
    requires Fits(ops, b) && l < LANES
    ensures |w| == 9
  {
    b.vf[..4] + b.vo[..4] + [Fetch(ops, b, NextState(ops, b))[l]]
  }

  lemma {:induction false} SeedGot<V(!new)>(ops: Ops<V>, b: Buffers<V>, l: nat, k: nat)
    requires Fits(ops, b) && l < LANES && k <= 10
    requires InBounds(SeedProgram(ops, l), |Flat(b)|)
    ensures Got(SeedProgram(ops, l), k, Flat(b)) == Carried(ops, b, l)[..if k < 9 then k else 9]
  {
    if k > 0 {
      SeedGot(ops, b, l, k - 1);
      var p, w := SeedProgram(ops, l), Carried(ops, b, l);
      if k <= 9 {
        var a := SeedAddress(ops, l, k - 1, w[..k - 1]);
        GotLoad(p, k - 1, Flat(b), a);
        assert Flat(b)[a] == w[k - 1];
      } else {
        GotStore(p, k - 1, Flat(b));
      }
    }
  }

  lemma SeedInterval<V(!new)>(ops: Ops<V>, b: Buffers<V>, after: seq<V>)
    requires Fits(ops, b) && AllInBounds(SeedPrograms(ops), |Flat(b)|)
    requires Lockstep(SeedPrograms(ops), Flat(b), after)
    ensures after == Flat(Seeded(ops, b, NextState(ops, b)))
  {
    var ps: seq<Program<V>> := SeedPrograms(ops);
    var r := Seeded(ops, b, NextState(ops, b));
    forall k | 0 <= k < |after|
      ensures after[k] == Flat(r)[k]
    {
      if k < 16 {
        SeedGot(ops, b, k, 9);
        assert Carried(ops, b, k)[..9] == Carried(ops, b, k);
        assert StoreAt(ps, k, 9);
        assert ps[k][9].cell == k;
      } else {
        assert !Written(ps, k);
      }
    }
  }

  // ---------- whole rounds ----------

  /** What a lane keeps in registers from one round to the next. */
  datatype Registers<V> = Registers(s: V, sf: seq<V>, xi: V)

  /** The recurrence at the first barrier of a round: memory and the registers of every lane. */
  datatype Running<V> = Running(mem: seq<V>, lanes: seq<Registers<V>>)

  /** The same moment in the reference: one state word, one carried float group. */
  datatype Reference<V> = Reference(b: Buffers<V>, s: V, sf: seq<V>, xi: seq<V>)

  /** The order in which lanes move in each of the four intervals of a round. */
  datatype RoundSchedule = RoundSchedule(compute: seq<nat>, stage1: seq<nat>, stage2: seq<nat>, seed: seq<nat>)

  ghost predicate Sound<V(!new)>(ops: Ops<V>, c: Reference<V>) {
    Fits(ops, c.b) && |c.xi| == LANES
  }

  /** The recurrence in the reference's state: every lane keeps the same state word and floats. */
  ghost function RunningOf<V(!new)>(c: Reference<V>): (st: Running<V>)
    requires |c.b.vi| == |c.b.vo| == |c.b.vf| == 64 && |c.xi| == LANES
    ensures |st.lanes| == LANES && forall l :: 0 <= l < LANES ==> st.lanes[l] == Registers(c.s, c.sf, c.xi[l])
  {
    Running(Flat(c.b), seq(LANES, l requires 0 <= l < LANES => Registers(c.s, c.sf, c.xi[l])))
  }

  /** The buffers after the reductions give the next state word, floats and scratchpad words. */
  ghost function Next<V(!new)>(ops: Ops<V>, b: Buffers<V>): (r: Reference<V>)
    requires Fits(ops, b)
    ensures Sound(ops, r)
  {
    var s := NextState(ops, b);
    Reference(Seeded(ops, b, s), s, b.vf[..4], Fetch(ops, b, s))
  }

  /** One round in which all lanes work on snapshots and both reductions run over the outputs
      themselves. */
  ghost function ReferenceRound<V(!new)>(ops: Ops<V>, c: Reference<V>): (r: Reference<V>)
    requires Sound(ops, c)
    ensures Sound(ops, r)
  {
    Next(ops, Reduced(ops, Staged(ops, Computed(ops, c.b, c.sf), c.s, c.xi)))
  }

  ghost function LaneComputes<V(!new)>(ops: Ops<V>, lanes: seq<Registers<V>>): (ps: seq<Program<V>>)
    requires |lanes| == LANES
    ensures |ps| == LANES && forall l :: 0 <= l < LANES ==> ps[l] == ComputeProgram(ops, lanes[l].sf, l)
  {
    seq(LANES, l requires 0 <= l < LANES => ComputeProgram(ops, lanes[l].sf, l))
  }

  ghost function LaneStages<V(!new)>(ops: Ops<V>, lanes: seq<Registers<V>>): (ps: seq<Program<V>>)
    requires |lanes| == LANES
    ensures |ps| == LANES && forall l :: 0 <= l < LANES ==> ps[l] == Stage1Program(ops, lanes[l].s, lanes[l].xi, l)
  {
    seq(LANES, l requires 0 <= l < LANES => Stage1Program(ops, lanes[l].s, lanes[l].xi, l))
  }

  ghost predicate Runs<V(!new)>(progs: seq<Program<V>>, mem: seq<V>, sched: seq<nat>) {
    AllInBounds(progs, |mem|) && Lanes(sched, |progs|) && AtBarrier(progs, Exec(progs, Start(mem, |progs|), sched))
  }

  ghost function AtEnd<V(!new)>(progs: seq<Program<V>>, mem: seq<V>, sched: seq<nat>): Machine<V>
    requires Runs(progs, mem, sched)
  {
    Exec(progs, Start(mem, |progs|), sched)
  }

  /** What a lane's registers hold after the loads of interval 4. */
  function Kept<V>(ops: Ops<V>, got: seq<V>): Registers<V> {
    Registers(StateOf(ops, got), [At(ops, got, 0), At(ops, got, 1), At(ops, got, 2), At(ops, got, 3)], At(ops, got, 8))
  }

  /** Intervals 1 and 2 reach their barriers. */
  ghost predicate FirstHalfRuns<V(!new)>(ops: Ops<V>, st: Running<V>, t: RoundSchedule) {
    && |st.lanes| == LANES
    && Runs(LaneComputes(ops, st.lanes), st.mem, t.compute)
    && Runs(LaneStages(ops, st.lanes), AtEnd(LaneComputes(ops, st.lanes), st.mem, t.compute).mem, t.stage1)
  }

  ghost function FirstHalf<V(!new)>(ops: Ops<V>, st: Running<V>, t: RoundSchedule): seq<V>
    requires FirstHalfRuns(ops, st, t)
  {
    AtEnd(LaneStages(ops, st.lanes), AtEnd(LaneComputes(ops, st.lanes), st.mem, t.compute).mem, t.stage1).mem
  }

  /** The lanes' registers and the memory at the end of interval 4. */
  ghost function Seeding<V(!new)>(ops: Ops<V>, mem: seq<V>, sched: seq<nat>): (r: Running<V>)
    requires Runs(SeedPrograms(ops), mem, sched)
    ensures |r.lanes| == LANES
  {
    var m := AtEnd(SeedPrograms(ops), mem, sched);
    Running(m.mem, seq(LANES, l requires 0 <= l < LANES => Kept(ops, m.lanes[l].got)))
  }

  /** Intervals 3 and 4 reach their barriers. */
  ghost predicate SecondHalfRuns<V(!new)>(ops: Ops<V>, mem: seq<V>, t: RoundSchedule) {
    && Runs(Stage2Programs(ops), mem, t.stage2)
    && Runs(SeedPrograms(ops), AtEnd(Stage2Programs(ops), mem, t.stage2).mem, t.seed)
  }

  ghost function SecondHalf<V(!new)>(ops: Ops<V>, mem: seq<V>, t: RoundSchedule): (r: Running<V>)
    requires SecondHalfRuns(ops, mem, t)
    ensures |r.lanes| == LANES
  {
    Seeding(ops, AtEnd(Stage2Programs(ops), mem, t.stage2).mem, t.seed)
  }

  ghost predicate RoundRuns<V(!new)>(ops: Ops<V>, st: Running<V>, t: RoundSchedule) {
    FirstHalfRuns(ops, st, t) && SecondHalfRuns(ops, FirstHalf(ops, st, t), t)
  }

  ghost function RoundResult<V(!new)>(ops: Ops<V>, st: Running<V>, t: RoundSchedule): (r: Running<V>)
    requires RoundRuns(ops, st, t)
    ensures |r.lanes| == LANES
  {
    SecondHalf(ops, FirstHalf(ops, st, t), t)
  }

  ghost predicate EnoughTurns(sched: seq<nat>, n: nat) {
    Lanes(sched, LANES) && forall l: nat :: l < LANES ==> Turns(sched, l) >= n
  }

  /** Every lane is picked as often as it has instructions, in each interval. */
  ghost predicate CompleteRound(t: RoundSchedule) {
    EnoughTurns(t.compute, 24) && EnoughTurns(t.stage1, 11) && EnoughTurns(t.stage2, 10) && EnoughTurns(t.seed, 10)
  }

  lemma AnySchedule<V(!new)>(progs: seq<Program<V>>, mem: seq<V>, sched: seq<nat>, n: nat)
    requires AllInBounds(progs, |mem|) && RaceFree(progs) && |progs| == LANES && EnoughTurns(sched, n)
    requires forall l :: 0 <= l < LANES ==> |progs[l]| <= n
    ensures Runs(progs, mem, sched) && Lockstep(progs, mem, AtEnd(progs, mem, sched).mem)
    ensures forall l :: 0 <= l < LANES ==>
      AtEnd(progs, mem, sched).lanes[l].got == Got(progs[l], |progs[l]|, mem)
  {
    BarrierIffComplete(progs, mem, sched);
    AnyScheduleIsLockstep(progs, mem, sched);
  }

  lemma AnyCompute<V(!new)>(ops: Ops<V>, lanes: seq<Registers<V>>, sf: seq<V>, b: Buffers<V>, sched: seq<nat>)
    requires Fits(ops, b) && EnoughTurns(sched, 24) && |lanes| == LANES
    requires forall l :: 0 <= l < LANES ==> lanes[l].sf == sf
    ensures Runs(LaneComputes(ops, lanes), Flat(b), sched)
    ensures AtEnd(LaneComputes(ops, lanes), Flat(b), sched).mem == Flat(Computed(ops, b, sf))
  {
    assert LaneComputes(ops, lanes) == ComputePrograms(ops, sf);
    ComputeRaceFree(ops, sf, |Flat(b)|);
    AnySchedule(ComputePrograms(ops, sf), Flat(b), sched, 24);
    ComputeInterval(ops, sf, b, AtEnd(ComputePrograms(ops, sf), Flat(b), sched).mem);
  }

  lemma AnyStage1<V(!new)>(ops: Ops<V>, lanes: seq<Registers<V>>, s: V, xi: seq<V>, b: Buffers<V>, sched: seq<nat>)
    requires Fits(ops, b) && EnoughTurns(sched, 11) && |lanes| == |xi| == LANES
    requires forall l :: 0 <= l < LANES ==> lanes[l].s == s && lanes[l].xi == xi[l]
    ensures Runs(LaneStages(ops, lanes), Flat(b), sched)
    ensures AtEnd(LaneStages(ops, lanes), Flat(b), sched).mem == Flat(Staged(ops, b, s, xi))
  {
    assert LaneStages(ops, lanes) == Stage1Programs(ops, s, xi);
    Stage1RaceFree(ops, s, xi, |Flat(b)|);
    AnySchedule(Stage1Programs(ops, s, xi), Flat(b), sched, 11);
    Stage1Interval(ops, s, xi, b, AtEnd(Stage1Programs(ops, s, xi), Flat(b), sched).mem);
  }

  lemma AnyStage2<V(!new)>(ops: Ops<V>, b: Buffers<V>, sched: seq<nat>)
    requires Fits(ops, b) && HoldsPartials(ops, b) && EnoughTurns(sched, 10)
    ensures Runs(Stage2Programs(ops), Flat(b), sched)
    ensures AtEnd(Stage2Programs(ops), Flat(b), sched).mem == Flat(Reduced(ops, b))
  {
    Stage2RaceFree(ops, |Flat(b)|);
    AnySchedule(Stage2Programs(ops), Flat(b), sched, 10);
    Stage2Interval(ops, b, AtEnd(Stage2Programs(ops), Flat(b), sched).mem);
  }

  lemma KeptIsCarried<V(!new)>(ops: Ops<V>, b: Buffers<V>, l: nat)
    requires Fits(ops, b) && l < LANES
    ensures Kept(ops, Carried(ops, b, l)) == RunningOf(Next(ops, b)).lanes[l]
  {
    var w := Carried(ops, b, l);
    assert [w[0], w[1], w[2], w[3]] == b.vf[..4];
  }

  lemma AnySeed<V(!new)>(ops: Ops<V>, b: Buffers<V>, sched: seq<nat>)
    requires Fits(ops, b) && EnoughTurns(sched, 10)
    ensures Runs(SeedPrograms(ops), Flat(b), sched)
    ensures AtEnd(SeedPrograms(ops), Flat(b), sched).mem == RunningOf(Next(ops, b)).mem
    ensures forall l :: 0 <= l < LANES ==>
      Kept(ops, AtEnd(SeedPrograms(ops), Flat(b), sched).lanes[l].got) == RunningOf(Next(ops, b)).lanes[l]
  {
    SeedRaceFree(ops, |Flat(b)|);
    AnySchedule(SeedPrograms(ops), Flat(b), sched, 10);
    var m := AtEnd(SeedPrograms(ops), Flat(b), sched);
    SeedInterval(ops, b, m.mem);
    forall l | 0 <= l < LANES
      ensures Kept(ops, m.lanes[l].got) == RunningOf(Next(ops, b)).lanes[l]
    {
      SeedGot(ops, b, l, 10);
      KeptIsCarried(ops, b, l);
      assert Carried(ops, b, l)[..9] == Carried(ops, b, l);
    }
  }

  lemma StagedHoldsPartials<V(!new)>(ops: Ops<V>, b: Buffers<V>, s: V, xi: seq<V>)
    requires Fits(ops, b) && |xi| == LANES
    ensures HoldsPartials(ops, Staged(ops, b, s, xi))
  {
    var v := Staged(ops, b, s, xi).vi;
    assert v[..16] == Int1(ops, b.vo);
    assert v[16..32] == Float1(ops, b.vf);
  }

  lemma AnyFirstHalf<V(!new)>(ops: Ops<V>, c: Reference<V>, t: RoundSchedule)
    requires Sound(ops, c) && CompleteRound(t)
    ensures FirstHalfRuns(ops, RunningOf(c), t)
    ensures FirstHalf(ops, RunningOf(c), t) == Flat(Staged(ops, Computed(ops, c.b, c.sf), c.s, c.xi))
  {
    AnyCompute(ops, RunningOf(c).lanes, c.sf, c.b, t.compute);
    AnyStage1(ops, RunningOf(c).lanes, c.s, c.xi, Computed(ops, c.b, c.sf), t.stage1);
  }

  lemma SameRunning<V>(a: Running<V>, b: Running<V>)
    requires a.mem == b.mem && |a.lanes| == |b.lanes|
    requires forall l :: 0 <= l < |a.lanes| ==> a.lanes[l] == b.lanes[l]
    ensures a == b
  {
    assert a.lanes == b.lanes;
  }

  lemma SeedContinues<V(!new)>(ops: Ops<V>, b: Buffers<V>, sched: seq<nat>)
    requires Fits(ops, b) && EnoughTurns(sched, 10)
    ensures Runs(SeedPrograms(ops), Flat(b), sched)
    ensures Seeding(ops, Flat(b), sched) == RunningOf(Next(ops, b))
  {
    AnySeed(ops, b, sched);
    SameRunning(Seeding(ops, Flat(b), sched), RunningOf(Next(ops, b)));
  }

  lemma AnySecondHalf<V(!new)>(ops: Ops<V>, b: Buffers<V>, t: RoundSchedule)
    requires Fits(ops, b) && HoldsPartials(ops, b) && CompleteRound(t)
    ensures SecondHalfRuns(ops, Flat(b), t)
    ensures SecondHalf(ops, Flat(b), t) == RunningOf(Next(ops, Reduced(ops, b)))
  {
    AnyStage2(ops, b, t.stage2);
    SeedContinues(ops, Reduced(ops, b), t.seed);
  }

  /** Whatever the schedules, a round runs to its end and leaves memory and registers as the
      reference round. */
  lemma AnyRound<V(!new)>(ops: Ops<V>, c: Reference<V>, t: RoundSchedule)
    requires Sound(ops, c) && CompleteRound(t)
    ensures RoundRuns(ops, RunningOf(c), t)
    ensures RoundResult(ops, RunningOf(c), t) == RunningOf(ReferenceRound(ops, c))
  {
    AnyFirstHalf(ops, c, t);
    StagedHoldsPartials(ops, Computed(ops, c.b, c.sf), c.s, c.xi);
    AnySecondHalf(ops, Staged(ops, Computed(ops, c.b, c.sf), c.s, c.xi), t);
  }

  // ---------- whole runs ----------

  ghost predicate AllRun<V(!new)>(ops: Ops<V>, st: Running<V>, ts: seq<RoundSchedule>)
    decreases |ts|
  {
    |ts| == 0 || (RoundRuns(ops, st, ts[0]) && AllRun(ops, RoundResult(ops, st, ts[0]), ts[1..]))
  }

  ghost function RunResult<V(!new)>(ops: Ops<V>, st: Running<V>, ts: seq<RoundSchedule>): Running<V>
    requires AllRun(ops, st, ts)
    decreases |ts|
  {
    if |ts| == 0 then st else RunResult(ops, RoundResult(ops, st, ts[0]), ts[1..])
  }

  ghost function ReferenceRun<V(!new)>(ops: Ops<V>, c: Reference<V>, n: nat): (r: Reference<V>)
    requires Sound(ops, c)
    ensures Sound(ops, r)
    decreases n
  {
    if n == 0 then c else ReferenceRun(ops, ReferenceRound(ops, c), n - 1)
  }

  lemma RunStep<V(!new)>(ops: Ops<V>, st: Running<V>, ts: seq<RoundSchedule>, next: Running<V>)
    requires |ts| > 0 && RoundRuns(ops, st, ts[0]) && next == RoundResult(ops, st, ts[0]) && AllRun(ops, next, ts[1..])
    ensures AllRun(ops, st, ts) && RunResult(ops, st, ts) == RunResult(ops, next, ts[1..])
  {
  }

  lemma ReferenceStep<V(!new)>(ops: Ops<V>, c: Reference<V>, n: nat)
    requires Sound(ops, c) && n > 0
    ensures ReferenceRun(ops, c, n) == ReferenceRun(ops, ReferenceRound(ops, c), n - 1)
  {
  }

  /** The run does not get stuck and ends as the reference does. */
  ghost predicate Agrees<V(!new)>(ops: Ops<V>, st: Running<V>, ts: seq<RoundSchedule>, c: Reference<V>) {
    Sound(ops, c) && AllRun(ops, st, ts) && RunResult(ops, st, ts) == RunningOf(ReferenceRun(ops, c, |ts|))
  }

  lemma AgreeStop<V(!new)>(ops: Ops<V>, c: Reference<V>, ts: seq<RoundSchedule>)
    requires |ts| == 0 && Sound(ops, c)
    ensures Agrees(ops, RunningOf(c), ts, c)
  {
    assert ReferenceRun(ops, c, 0) == c;
  }

  lemma AgreeStep<V(!new)>(ops: Ops<V>, st: Running<V>, ts: seq<RoundSchedule>, c: Reference<V>,
                           st': Running<V>, c': Reference<V>)
    requires |ts| > 0 && Sound(ops, c) && RoundRuns(ops, st, ts[0])
    requires st' == RoundResult(ops, st, ts[0]) && c' == ReferenceRound(ops, c) && Agrees(ops, st', ts[1..], c')
    ensures Agrees(ops, st, ts, c)
  {
    RunStep(ops, st, ts, st');
    ReferenceStep(ops, c, |ts|);
  }

  lemma AgreeFirst<V(!new)>(ops: Ops<V>, c: Reference<V>, ts: seq<RoundSchedule>, c': Reference<V>)
    requires |ts| > 0 && Sound(ops, c) && CompleteRound(ts[0]) && c' == ReferenceRound(ops, c)
    ensures Agrees(ops, RunningOf(c'), ts[1..], c') ==> Agrees(ops, RunningOf(c), ts, c)
  {
    if Agrees(ops, RunningOf(c'), ts[1..], c') {
      AnyRound(ops, c, ts[0]);
      AgreeStep(ops, RunningOf(c), ts, c, RunningOf(c'), c');
    }
  }

  ghost predicate AllComplete(ts: seq<RoundSchedule>) {
    forall i :: 0 <= i < |ts| ==> CompleteRound(ts[i])
  }

  lemma AllCompleteFirst(ts: seq<RoundSchedule>)
    requires AllComplete(ts) && |ts| > 0
    ensures CompleteRound(ts[0]) && AllComplete(ts[1..])
  {
  }

  /** Any number of rounds, each interval under any complete schedule, equals the reference; so
      timing never shows. */
  lemma {:induction false} AnyRun<V(!new)>(ops: Ops<V>, c: Reference<V>, ts: seq<RoundSchedule>)
    requires Sound(ops, c) && AllComplete(ts)
    ensures Agrees(ops, RunningOf(c), ts, c)
    decreases |ts|
  {
    if |ts| == 0 {
      AgreeStop(ops, c, ts);
    } else {
      var c', rest := ReferenceRound(ops, c), ts[1..];
      AllCompleteFirst(ts);
      AgreeFirst(ops, c, ts, c');
      AnyRun(ops, c', rest);
    }
  }
}
