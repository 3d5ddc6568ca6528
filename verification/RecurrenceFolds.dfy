/** What a round of the cn/gpu recurrence computes, cell by cell, without the tables and the stages that
    the kernel and its reference share.
 */
module RecurrenceFolds {
  import opened CnGpuRecurrence
  import opened LaneSchedule

  /** The columns of the lanes share out all cells of a buffer: cell c belongs to the lane at its
      place in its own block of sixteen, and to no other. */
  lemma ColumnsShareOut(c: nat, l: nat, j: nat)
    requires c < 64 && l < LANES && j < 4
    ensures 4 * (c / 16) + c % 4 < LANES && c / 4 % 4 < 4
    ensures Column(l) + 4 * j == c <==> l == 4 * (c / 16) + c % 4 && j == c / 4 % 4
  {
  }

  /** The lane permutations, packed two bits to a column. */
  const PACKED: seq<nat> := [
    0xe4, 0x78, 0x9c, 0x6c, 0xe1, 0x39, 0x8d, 0x2d, 0xc6, 0x72, 0x1e, 0x4e, 0x27, 0x4b, 0x93, 0x63]

  /** The packed constants and the table select the same groups. */
  lemma PackedSelectsAlike(l: nat)
    requires l < LANES
    ensures Select(l, 0) == PACKED[l] % 4 && Select(l, 1) == PACKED[l] / 4 % 4
    ensures Select(l, 2) == PACKED[l] / 16 % 4 && Select(l, 3) == PACKED[l] / 64 % 4
  {
  }

  /** Each lane reads all four groups, its own first. */
  lemma SelectsAllGroups(l: nat, g: nat)
    requires l < LANES && g < 4
    ensures Select(l, 0) == l / 4 && exists j: nat :: j < 4 && Select(l, j) == g
  {
    assert Select(l, 0) == g || Select(l, 1) == g || Select(l, 2) == g || Select(l, 3) == g;
  }

  /** The inputs of a lane are its four groups of four words, in its order. */
  lemma InputsAreGroups<V>(vi: seq<V>, l: nat, j: nat)
    requires |vi| == 64 && l < LANES && j < 4
    ensures var g := Select(l, j); Inputs(vi, l)[4 * j..4 * j + 4] == vi[4 * g..4 * g + 4]
  {
  }

  /** Four words four cells apart, joined from left to right. */
  function FourInts<V>(ops: Ops<V>, raw: seq<V>, c: nat): V
    requires c + 12 < |raw|
  {
    ops.xor(ops.xor(ops.xor(raw[c], raw[c + 4]), raw[c + 8]), raw[c + 12])
  }

  /** Four floats four cells apart, added in pairs. */
  function FourFloats<V>(ops: Ops<V>, raw: seq<V>, c: nat): V
    requires c + 12 < |raw|
  {
    ops.fadd(ops.fadd(raw[c], raw[c + 4]), ops.fadd(raw[c + 8], raw[c + 12]))
  }

  lemma FirstStageFolds<V>(ops: Ops<V>, vo: seq<V>, vf: seq<V>, l: nat, j: nat)
    requires |vo| == |vf| == 64 && l < 4 && j < 4
    ensures Int1(ops, vo)[l + 4 * j] == FourInts(ops, vo, 16 * j + l)
    ensures Float1(ops, vf)[l + 4 * j] == FourFloats(ops, vf, 16 * j + l)
  {
    assert Column(l + 4 * j) == 16 * j + l;
  }

  /** The float of column l over all cells of the four blocks of sixteen, each once: first in the
      blocks, then over the blocks. */
  function FoldedFloat<V>(ops: Ops<V>, vf: seq<V>, l: nat): V
    requires |vf| == 64 && l < 4
  {
    ops.fabs(ops.fadd(ops.fadd(FourFloats(ops, vf, l), FourFloats(ops, vf, 16 + l)),
                      ops.fadd(FourFloats(ops, vf, 32 + l), FourFloats(ops, vf, 48 + l))))
  }

  /** The integer of column l over all cells, and the float's. */
  function FoldedInt<V>(ops: Ops<V>, vo: seq<V>, vf: seq<V>, l: nat): V
    requires |vo| == |vf| == 64 && l < 4
  {
    ops.xor(ops.xor(ops.xor(ops.xor(FourInts(ops, vo, l), FourInts(ops, vo, 16 + l)), FourInts(ops, vo, 32 + l)),
                    FourInts(ops, vo, 48 + l)),
            ops.toInt(FoldedFloat(ops, vf, l)))
  }

  lemma OverPartials<V>(ops: Ops<V>, raw: seq<V>, p: seq<V>, l: nat)
    requires |raw| == 64 && |p| == LANES && l < 4
    ensures FourFloats(ops, Replaced(raw, p), l) == ops.fadd(ops.fadd(p[l], p[l + 4]), ops.fadd(p[l + 8], p[l + 12]))
    ensures FourInts(ops, Replaced(raw, p), l) == ops.xor(ops.xor(ops.xor(p[l], p[l + 4]), p[l + 8]), p[l + 12])
  {
    var r := Replaced(raw, p);
    assert r[l] == p[l] && r[l + 4] == p[l + 4] && r[l + 8] == p[l + 8] && r[l + 12] == p[l + 12];
  }

  lemma SecondStageIsFour<V>(ops: Ops<V>, raw: seq<V>, l: nat)
    requires |raw| == 64 && l < 4
    ensures ReduceFloat(ops, raw, l) == FourFloats(ops, raw, l) && ReduceRow(ops, raw, l) == FourInts(ops, raw, l)
  {
    assert Column(l) == l;
  }

  lemma SecondFloatFolds<V>(ops: Ops<V>, vf: seq<V>, l: nat)
    requires |vf| == 64 && l < 4
    ensures Float2(ops, vf)[l] == FoldedFloat(ops, vf, l)
  {
    FirstStageFolds(ops, vf, vf, l, 0);
    FirstStageFolds(ops, vf, vf, l, 1);
    FirstStageFolds(ops, vf, vf, l, 2);
    FirstStageFolds(ops, vf, vf, l, 3);
    OverPartials(ops, vf, Float1(ops, vf), l);
    SecondStageIsFour(ops, Replaced(vf, Float1(ops, vf)), l);
  }

  lemma SecondIntFolds<V>(ops: Ops<V>, vo: seq<V>, vf: seq<V>, l: nat)
    requires |vo| == |vf| == 64 && l < 4
    ensures FinalInts(ops, vo, vf)[l] == FoldedInt(ops, vo, vf, l)
  {
    FirstStageFolds(ops, vo, vo, l, 0);
    FirstStageFolds(ops, vo, vo, l, 1);
    FirstStageFolds(ops, vo, vo, l, 2);
    FirstStageFolds(ops, vo, vo, l, 3);
    SecondFloatFolds(ops, vf, l);
    OverPartials(ops, vo, Int1(ops, vo), l);
    SecondStageIsFour(ops, Replaced(vo, Int1(ops, vo)), l);
  }

  /** The integer and the float outputs of a round, before they are reduced. */
  ghost function Outputs<V(!new)>(ops: Ops<V>, c: Reference<V>): (b: Buffers<V>)
    requires Sound(ops, c)
    ensures |b.vo| == |b.vf| == 64
  {
    Computed(ops, c.b, c.sf)
  }

  /** The buffers at the end of a round's reductions. */
  ghost function Finals<V(!new)>(ops: Ops<V>, c: Reference<V>): (b: Buffers<V>)
    requires Sound(ops, c)
    ensures Fits(ops, b)
  {
    Reduced(ops, Staged(ops, Computed(ops, c.b, c.sf), c.s, c.xi))
  }

  lemma FinalsFold<V(!new)>(ops: Ops<V>, c: Reference<V>, l: nat)
    requires Sound(ops, c) && l < 4
    ensures Finals(ops, c).vo[l] == FoldedInt(ops, Outputs(ops, c).vo, Outputs(ops, c).vf, l)
    ensures Finals(ops, c).vf[l] == ops.scale(FoldedFloat(ops, Outputs(ops, c).vf, l))
  {
    var b := Outputs(ops, c);
    SecondIntFolds(ops, b.vo, b.vf, l);
    SecondFloatFolds(ops, b.vf, l);
    assert Finals(ops, c).vo == Replaced(b.vo, FinalInts(ops, b.vo, b.vf));
    assert Finals(ops, c).vf == Replaced(b.vf, FinalFloats(ops, b.vf));
  }

  /** After the reductions the state and the floats are taken from the first group, and the next
      scratchpad words from where that state points. */
  lemma NextHandsOn<V(!new)>(ops: Ops<V>, b: Buffers<V>)
    requires Fits(ops, b)
    ensures var r := Next(ops, b);
      && r.s == ops.xor(ops.xor(ops.xor(b.vo[0], b.vo[1]), b.vo[2]), b.vo[3])
      && r.sf == [b.vf[0], b.vf[1], b.vf[2], b.vf[3]] && r.b.pad == b.pad
      && forall l :: 0 <= l < 16 ==> r.xi[l] == b.pad[ops.first(r.s) + l] && r.b.vi[l] == r.xi[l]
  {
    assert b.vf[..4] == [b.vf[0], b.vf[1], b.vf[2], b.vf[3]];
  }

  /** The next state word folds all sixty-four outputs of a round, every one once. */
  lemma StateFolds<V(!new)>(ops: Ops<V>, c: Reference<V>)
    requires Sound(ops, c)
    ensures var b := Outputs(ops, c);
      ReferenceRound(ops, c).s ==
        ops.xor(ops.xor(ops.xor(FoldedInt(ops, b.vo, b.vf, 0), FoldedInt(ops, b.vo, b.vf, 1)),
                        FoldedInt(ops, b.vo, b.vf, 2)), FoldedInt(ops, b.vo, b.vf, 3))
  {
    NextHandsOn(ops, Finals(ops, c));
    FinalsFold(ops, c, 0);
    FinalsFold(ops, c, 1);
    FinalsFold(ops, c, 2);
    FinalsFold(ops, c, 3);
  }

  /** So does each of the four floats that a round hands on with its quarter of the float outputs. */
  lemma FloatsFold<V(!new)>(ops: Ops<V>, c: Reference<V>, l: nat)
    requires Sound(ops, c) && l < 4
    ensures |ReferenceRound(ops, c).sf| == 4
    ensures ReferenceRound(ops, c).sf[l] == ops.scale(FoldedFloat(ops, Outputs(ops, c).vf, l))
  {
    NextHandsOn(ops, Finals(ops, c));
    FinalsFold(ops, c, l);
  }

  /** A scratchpad word is joined with the outputs of its block. */
  lemma JoinedWord<V>(ops: Ops<V>, vo: seq<V>, xi: seq<V>, l: nat)
    requires |vo| == 64 && |xi| == LANES && l < LANES
    ensures WriteBack(ops, vo, xi)[l] == ops.xor(FourInts(ops, vo, 16 * (l / 4) + l % 4), xi[l])
  {
    assert Column(l) == 16 * (l / 4) + l % 4;
  }

  /** A round writes its sixteen joined words back where the state pointed, and nothing else. */
  lemma RoundPad<V(!new)>(ops: Ops<V>, c: Reference<V>)
    requires Sound(ops, c)
    ensures ReferenceRound(ops, c).b.pad == Patched(c.b.pad, ops.first(c.s), WriteBack(ops, Outputs(ops, c).vo, c.xi))
  {
    NextHandsOn(ops, Finals(ops, c));
  }

  /** Output k of a round is computed by the lane whose group it is in, from the seed words. */
  lemma OutputsAreComputed<V(!new)>(ops: Ops<V>, c: Reference<V>, l: nat, j: nat)
    requires Sound(ops, c) && l < LANES && j < 4
    ensures Outputs(ops, c).vo[4 * l + j] == ops.outInt(l, j, Inputs(c.b.vi, l), c.sf)
    ensures Outputs(ops, c).vf[4 * l + j] == ops.outFloat(l, j, Inputs(c.b.vi, l), c.sf)
  {
  }
}
