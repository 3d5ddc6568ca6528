/** Lanes that share memory between two barriers.  Each lane runs its own straight program; a
    schedule picks which lane moves next.  If the programs are free of races, every schedule
    leaves the memory that all lanes would leave working on a snapshot.
 */
module LaneSchedule {

  /** Addresses of loads and stored values may depend on what the lane has loaded so far. */
  datatype Instr<!V> = Load(at: seq<V> -> nat) | Store(cell: nat, value: seq<V> -> V)

  type Program<!V> = seq<Instr<V>>

  datatype Lane<V> = Lane(pc: nat, got: seq<V>)

  datatype Machine<V> = Machine(mem: seq<V>, lanes: seq<Lane<V>>)

  function Start<V>(mem: seq<V>, n: nat): Machine<V> {
    Machine(mem, seq(n, _ => Lane(0, [])))
  }

  ghost predicate InBounds<V(!new)>(prog: Program<V>, size: nat) {
    forall k :: 0 <= k < |prog| ==>
      (prog[k].Load? ==> forall h :: prog[k].at(h) < size) && (prog[k].Store? ==> prog[k].cell < size)
  }

  /** The lane after one more instruction, in the given memory. */
  ghost function Advance<V(!new)>(prog: Program<V>, lane: Lane<V>, mem: seq<V>): Lane<V>
    requires lane.pc < |prog| && InBounds(prog, |mem|)
  {
    var i := prog[lane.pc];
    Lane(lane.pc + 1, if i.Load? then lane.got + [mem[i.at(lane.got)]] else lane.got)
  }

  /** One instruction of lane l; a lane that is through does nothing. */
  ghost function Move<V(!new)>(progs: seq<Program<V>>, m: Machine<V>, l: nat): (r: Machine<V>)
    requires l < |m.lanes| == |progs| && InBounds(progs[l], |m.mem|)
    ensures |r.lanes| == |m.lanes| && |r.mem| == |m.mem|
  {
    var lane := m.lanes[l];
    if lane.pc >= |progs[l]| then m
    else
      var i := progs[l][lane.pc];
      Machine(if i.Store? then m.mem[i.cell := i.value(lane.got)] else m.mem,
              m.lanes[l := Advance(progs[l], lane, m.mem)])
  }

  ghost predicate AllInBounds<V(!new)>(progs: seq<Program<V>>, size: nat) {
    forall l :: 0 <= l < |progs| ==> InBounds(progs[l], size)
  }

  ghost predicate Lanes(sched: seq<nat>, n: nat) {
    forall i :: 0 <= i < |sched| ==> sched[i] < n
  }

  /** Run the lanes in the order of the schedule. */
  ghost function Exec<V(!new)>(progs: seq<Program<V>>, m: Machine<V>, sched: seq<nat>): (r: Machine<V>)
    requires |m.lanes| == |progs| && AllInBounds(progs, |m.mem|) && Lanes(sched, |progs|)
    ensures |r.lanes| == |progs| && |r.mem| == |m.mem|
    decreases |sched|
  {
    if |sched| == 0 then m
    else
      var n := |sched| - 1;
      Move(progs, Exec(progs, m, sched[..n]), sched[n])
  }

  /** All lanes have reached the barrier. */
  ghost predicate AtBarrier<V>(progs: seq<Program<V>>, m: Machine<V>)
    requires |m.lanes| == |progs|
  {
    forall l :: 0 <= l < |progs| ==> m.lanes[l].pc >= |progs[l]|
  }

  // ---------- the snapshot semantics ----------

  /** What the first k instructions load when nobody writes. */
  ghost function Got<V(!new)>(prog: Program<V>, k: nat, mem: seq<V>): seq<V>
    requires k <= |prog| && InBounds(prog, |mem|)
  {
    if k == 0 then [] else Advance(prog, Lane(k - 1, Got(prog, k - 1, mem)), mem).got
  }

  lemma GotLoad<V(!new)>(prog: Program<V>, k: nat, mem: seq<V>, a: nat)
    requires k < |prog| && InBounds(prog, |mem|) && prog[k].Load? && prog[k].at(Got(prog, k, mem)) == a
    ensures a < |mem| && Got(prog, k + 1, mem) == Got(prog, k, mem) + [mem[a]]
  {
  }

  lemma GotStore<V(!new)>(prog: Program<V>, k: nat, mem: seq<V>)
    requires k < |prog| && InBounds(prog, |mem|) && prog[k].Store?
    ensures Got(prog, k + 1, mem) == Got(prog, k, mem)
  {
  }

  /** `after` is `before` with every stored cell holding what its lane computes from a snapshot. */
  ghost predicate Lockstep<V(!new)>(progs: seq<Program<V>>, before: seq<V>, after: seq<V>)
    requires AllInBounds(progs, |before|)
  {
    && |after| == |before|
    && (forall l, k :: StoreAt(progs, l, k) ==>
          after[progs[l][k].cell] == progs[l][k].value(Got(progs[l], k, before)))
    && (forall c :: 0 <= c < |before| && !Written(progs, c) ==> after[c] == before[c])
  }

  predicate StoreAt<V>(progs: seq<Program<V>>, l: int, k: int) {
    0 <= l < |progs| && 0 <= k < |progs[l]| && progs[l][k].Store?
  }

  ghost predicate Written<V>(progs: seq<Program<V>>, c: int) {
    exists l, k :: StoreAt(progs, l, k) && progs[l][k].cell == c
  }

  predicate SameCell<V>(progs: seq<Program<V>>, l: int, k: int, l': int, k': int) {
    StoreAt(progs, l, k) && StoreAt(progs, l', k') && progs[l][k].cell == progs[l'][k'].cell
  }

  /** No cell is stored twice, and no lane loads a cell that some lane stores. */
  ghost predicate RaceFree<V(!new)>(progs: seq<Program<V>>) {
    && (forall l, k, l', k' :: SameCell(progs, l, k, l', k') ==> l == l' && k == k')
    && (forall l, k, h :: 0 <= l < |progs| && 0 <= k < |progs[l]| && progs[l][k].Load?
          ==> !Written(progs, progs[l][k].at(h)))
  }

  // ---------- every schedule agrees with the snapshot ----------

  ghost predicate LoadedSnapshot<V(!new)>(progs: seq<Program<V>>, before: seq<V>, lanes: seq<Lane<V>>)
    requires AllInBounds(progs, |before|) && |lanes| == |progs|
  {
    forall l :: 0 <= l < |progs| ==> lanes[l].pc <= |progs[l]| && lanes[l].got == Got(progs[l], lanes[l].pc, before)
  }

  ghost predicate StoredSoFar<V(!new)>(progs: seq<Program<V>>, before: seq<V>, m: Machine<V>)
    requires AllInBounds(progs, |before|) && |m.lanes| == |progs| && |m.mem| == |before|
  {
    forall l, k :: StoreAt(progs, l, k) && k < m.lanes[l].pc ==>
      m.mem[progs[l][k].cell] == progs[l][k].value(Got(progs[l], k, before))
  }

  ghost predicate RestUntouched<V(!new)>(progs: seq<Program<V>>, before: seq<V>, mem: seq<V>)
    requires |mem| == |before|
  {
    forall c :: 0 <= c < |before| && !Written(progs, c) ==> mem[c] == before[c]
  }

  /** In the middle of a schedule: lanes have loaded snapshot values, executed stores hold their
      final values, and what nobody stores is as before. */
  ghost predicate Midway<V(!new)>(progs: seq<Program<V>>, before: seq<V>, m: Machine<V>)
    requires AllInBounds(progs, |before|)
  {
    && |m.lanes| == |progs| && |m.mem| == |before|
    && LoadedSnapshot(progs, before, m.lanes) && StoredSoFar(progs, before, m)
    && RestUntouched(progs, before, m.mem)
  }

  /** One lane moves on and has loaded what the snapshot holds; the others stay. */
  lemma OneLaneMoves<V(!new)>(progs: seq<Program<V>>, before: seq<V>, lanes: seq<Lane<V>>, l: nat, next: Lane<V>)
    requires AllInBounds(progs, |before|) && |lanes| == |progs| && LoadedSnapshot(progs, before, lanes) && l < |progs|
    requires next.pc <= |progs[l]| && next.got == Got(progs[l], next.pc, before)
    ensures LoadedSnapshot(progs, before, lanes[l := next])
  {
    forall i | 0 <= i < |progs|
      ensures lanes[l := next][i].pc <= |progs[i]|
      ensures lanes[l := next][i].got == Got(progs[i], lanes[l := next][i].pc, before)
    {
      assert i != l ==> lanes[l := next][i] == lanes[i];
    }
  }

  /** A load sees the snapshot, because nobody stores there. */
  lemma LoadSeesSnapshot<V(!new)>(progs: seq<Program<V>>, before: seq<V>, mem: seq<V>, l: nat, lane: Lane<V>)
    requires AllInBounds(progs, |before|) && RaceFree(progs) && |mem| == |before| && RestUntouched(progs, before, mem)
    requires l < |progs| && lane.pc < |progs[l]|
    ensures Advance(progs[l], lane, mem) == Advance(progs[l], lane, before)
  {
    var i := progs[l][lane.pc];
    if i.Load? {
      assert !Written(progs, i.at(lane.got));
    }
  }

  lemma StoreKeepsRest<V(!new)>(progs: seq<Program<V>>, before: seq<V>, mem: seq<V>, l: nat, pc: nat, v: V)
    requires |mem| == |before| && RestUntouched(progs, before, mem) && StoreAt(progs, l, pc)
    requires progs[l][pc].cell < |mem|
    ensures RestUntouched(progs, before, mem[progs[l][pc].cell := v])
  {
    assert Written(progs, progs[l][pc].cell);
  }

  lemma StoreKeepsStored<V(!new)>(progs: seq<Program<V>>, before: seq<V>, m: Machine<V>, l: nat, r: Machine<V>)
    requires AllInBounds(progs, |before|) && RaceFree(progs) && Midway(progs, before, m) && l < |progs|
    requires m.lanes[l].pc < |progs[l]| && progs[l][m.lanes[l].pc].Store?
    requires |r.lanes| == |m.lanes| && r.lanes[l].pc == m.lanes[l].pc + 1
    requires forall k :: 0 <= k < |progs| && k != l ==> r.lanes[k] == m.lanes[k]
    requires var i := progs[l][m.lanes[l].pc]; r.mem == m.mem[i.cell := i.value(m.lanes[l].got)]
    ensures StoredSoFar(progs, before, r)
  {
    var pc := m.lanes[l].pc;
    var cell := progs[l][pc].cell;
    assert StoreAt(progs, l, pc);
    forall l', k | StoreAt(progs, l', k) && k < r.lanes[l'].pc
      ensures r.mem[progs[l'][k].cell] == progs[l'][k].value(Got(progs[l'], k, before))
    {
      if progs[l'][k].cell == cell {
        assert SameCell(progs, l', k, l, pc);
      } else {
        assert k < m.lanes[l'].pc;
      }
    }
  }

  lemma LoadKeepsStored<V(!new)>(progs: seq<Program<V>>, before: seq<V>, m: Machine<V>, l: nat, r: Machine<V>)
    requires AllInBounds(progs, |before|) && Midway(progs, before, m) && l < |progs|
    requires m.lanes[l].pc < |progs[l]| && !progs[l][m.lanes[l].pc].Store?
    requires |r.lanes| == |m.lanes| && r.lanes[l].pc == m.lanes[l].pc + 1 && r.mem == m.mem
    requires forall k :: 0 <= k < |progs| && k != l ==> r.lanes[k] == m.lanes[k]
    ensures StoredSoFar(progs, before, r)
  {
    forall l', k | StoreAt(progs, l', k) && k < r.lanes[l'].pc
      ensures r.mem[progs[l'][k].cell] == progs[l'][k].value(Got(progs[l'], k, before))
    {
      assert k < m.lanes[l'].pc;
    }
  }

  /** What a move does, in terms of the snapshot. */
  lemma MoveOnSnapshot<V(!new)>(progs: seq<Program<V>>, before: seq<V>, m: Machine<V>, l: nat)
    requires AllInBounds(progs, |before|) && RaceFree(progs) && Midway(progs, before, m) && l < |progs|
    requires m.lanes[l].pc < |progs[l]|
    ensures var lane, r, i := m.lanes[l], Move(progs, m, l), progs[l][m.lanes[l].pc];
      && r.lanes == m.lanes[l := Advance(progs[l], lane, before)]
      && r.mem == (if i.Store? then m.mem[i.cell := i.value(lane.got)] else m.mem)
  {
    LoadSeesSnapshot(progs, before, m.mem, l, m.lanes[l]);
  }

  lemma MoveKeepsMidway<V(!new)>(progs: seq<Program<V>>, before: seq<V>, m: Machine<V>, l: nat)
    requires AllInBounds(progs, |before|) && RaceFree(progs) && Midway(progs, before, m) && l < |progs|
    ensures Midway(progs, before, Move(progs, m, l))
  {
    var lane := m.lanes[l];
    if lane.pc < |progs[l]| {
      MoveOnSnapshot(progs, before, m, l);
      OneLaneMoves(progs, before, m.lanes, l, Advance(progs[l], lane, before));
      if progs[l][lane.pc].Store? {
        StoreKeepsStored(progs, before, m, l, Move(progs, m, l));
        StoreKeepsRest(progs, before, m.mem, l, lane.pc, progs[l][lane.pc].value(lane.got));
      } else {
        LoadKeepsStored(progs, before, m, l, Move(progs, m, l));
      }
    }
  }

  lemma {:induction false} ExecMidway<V(!new)>(progs: seq<Program<V>>, before: seq<V>, sched: seq<nat>)
    requires AllInBounds(progs, |before|) && RaceFree(progs) && Lanes(sched, |progs|)
    ensures Midway(progs, before, Exec(progs, Start(before, |progs|), sched))
    decreases |sched|
  {
    if |sched| > 0 {
      var n := |sched| - 1;
      ExecMidway(progs, before, sched[..n]);
      MoveKeepsMidway(progs, before, Exec(progs, Start(before, |progs|), sched[..n]), sched[n]);
    }
  }

  /** Whatever the schedule, the memory at the barrier is the snapshot result, and every lane has
      loaded what it would have loaded from the snapshot. */
  lemma AnyScheduleIsLockstep<V(!new)>(progs: seq<Program<V>>, before: seq<V>, sched: seq<nat>)
    requires AllInBounds(progs, |before|) && RaceFree(progs) && Lanes(sched, |progs|)
    requires AtBarrier(progs, Exec(progs, Start(before, |progs|), sched))
    ensures var m := Exec(progs, Start(before, |progs|), sched);
      && Lockstep(progs, before, m.mem)
      && forall l :: 0 <= l < |progs| ==> m.lanes[l].got == Got(progs[l], |progs[l]|, before)
  {
    ExecMidway(progs, before, sched);
  }

  // ---------- when a schedule reaches the barrier ----------

  /** How often the schedule picks lane l. */
  function Turns(sched: seq<nat>, l: nat): nat {
    if |sched| == 0 then 0
    else Turns(sched[..|sched| - 1], l) + if sched[|sched| - 1] == l then 1 else 0
  }

  lemma {:induction false} PcCountsTurns<V(!new)>(progs: seq<Program<V>>, mem: seq<V>, sched: seq<nat>, l: nat)
    requires AllInBounds(progs, |mem|) && Lanes(sched, |progs|) && l < |progs|
    ensures Exec(progs, Start(mem, |progs|), sched).lanes[l].pc ==
      if Turns(sched, l) <= |progs[l]| then Turns(sched, l) else |progs[l]|
    decreases |sched|
  {
    if |sched| > 0 {
      PcCountsTurns(progs, mem, sched[..|sched| - 1], l);
    }
  }

  ghost predicate Complete<V(!new)>(progs: seq<Program<V>>, sched: seq<nat>) {
    Lanes(sched, |progs|) && forall l :: 0 <= l < |progs| ==> Turns(sched, l) >= |progs[l]|
  }

  /** All lanes are through exactly when each was picked as often as it has instructions. */
  lemma BarrierIffComplete<V(!new)>(progs: seq<Program<V>>, mem: seq<V>, sched: seq<nat>)
    requires AllInBounds(progs, |mem|) && Lanes(sched, |progs|)
    ensures AtBarrier(progs, Exec(progs, Start(mem, |progs|), sched)) <==> Complete(progs, sched)
  {
    forall l | 0 <= l < |progs|
      ensures Exec(progs, Start(mem, |progs|), sched).lanes[l].pc >= |progs[l]| <==> Turns(sched, l) >= |progs[l]|
    {
      PcCountsTurns(progs, mem, sched, l);
    }
  }
}
