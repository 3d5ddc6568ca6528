/** Which pool the miner works for: pool jobs, lost connections, donation windows and timers, the
    tokens that tie a result to the dispatch it answers, and background nonces.
 */
module PoolSelection {
  import opened Basics
  import opened NonceText
  import NonceBytes
  import NonceSpace

  /** A job's nonce: a safe non-negative number, or text; anything else is text that is not
      hexadecimal. */
  datatype Nonce = Unset | Number(value: nat) | Text(digits: string)

  /** A job as a pool's record keeps it.  The token is set when the job is dispatched to the workers,
      and so is the nonce size `bytes`, to the `width` that decoding finds.  Three fields are for
      bookkeeping and steer nothing: `serial` tells job objects apart even when a pool reuses an id,
      `supplied` says that the token came with the job, `reached` that a worker reported the nonce. */
  datatype Job = Job(id: string, algo: string, token: Option<nat>, nonce: Nonce, xn: string,
                     bytes: Option<nat>, width: nat, serial: nat, supplied: bool, reached: bool)

  datatype Pool = Pool(socket: Option<nat>, last: Option<Job>, until: nat, params: set<string>)

  /** One job handed to the workers: the pool it is labelled with, the pool whose record it came
      from, and whether donation allowed it. */
  datatype Dispatch = Dispatch(token: nat, id: string, pool: nat, from: nat, serial: nat, allowed: bool)

  /** What is asked of timers and workers besides dispatches. */
  datatype Request = CloseSoon(pool: nat, socket: nat) | ConnectSoon(pool: nat) | Pause

  datatype State = State(pools: seq<Pool>, active: nat, primary: nat, donate: Option<nat>,
                         live: nat, sockets: nat, serials: nat, sent: seq<Dispatch>, asked: seq<Request>)

  /** The configuration that option checking lets through. */
  predicate Configured(s: State) {
    && s.active < |s.pools| && s.primary < |s.pools|
    && (s.donate.Some? ==> s.donate.value < |s.pools| && s.donate.value != s.primary)
  }

  predicate Donates(s: State, p: nat) { s.donate == Some(p) }

  function Alive(s: State, p: nat): bool
    requires p < |s.pools|
  {
    s.pools[p].last.Some?
  }

  function WithPool(s: State, p: nat, pool: Pool): State
    requires p < |s.pools|
  {
    s.(pools := s.pools[p := pool])
  }

  // ---------- dispatch ----------

  predicate Allowed(s: State, p: nat, now: nat)
    requires p < |s.pools| && Alive(s, p)
  {
    Donates(s, p) ==> now < s.pools[p].until && s.pools[p].last.value.algo in s.pools[p].params
  }

  function NumberText(n: nat): (s: string)
    ensures HexText(s)
  {
    (if n < 16 then "" else NumberText(n / 16)) + [NonceBytes.Digit(n % 16)]
  }

  /** isValidNonce on a nonce of either form. */
  predicate Fits(nonce: Nonce, bytes: nat, prefix: string, nonzero: bool) {
    match nonce
    case Unset => false
    case Number(n) => ValidNonce(NumberText(n), bytes, prefix, nonzero)
    case Text(digits) => ValidNonce(digits, bytes, prefix, nonzero)
  }

  predicate Beam(job: Job) { job.algo == "beamhash3" }

  /** The nonce prefix that decoding leaves in the record; Beam drops a leading 0x. */
  function Prefix(job: Job): string {
    if Beam(job) then WithoutPrefix(job.xn) else job.xn
  }

  /** Whether set_job accepts the job: a nonce it would resume must keep the prefix.  `valid` stands
      for the rest of decoding. */
  predicate Accepts(job: Job, valid: bool) {
    && valid && (job.width == 4 || job.width == 8)
    && (Prefix(job) != "" ==>
      && HexText(Prefix(job)) && |Prefix(job)| % 2 == 0
      && (job.nonce != Unset ==> Fits(job.nonce, job.width, Prefix(job), Beam(job))))
  }

  /** Give the job of pool p a fresh token and send it to the workers, labelled with the active
      pool; a job that is not accepted keeps the token but is not sent. */
  function SetJob(s: State, p: nat, now: nat, valid: bool): (r: State)
    requires Configured(s) && p < |s.pools| && Alive(s, p)
    ensures Configured(r)
  {
    var token, job := s.live + 1, s.pools[p].last.value;
    var named := job.(token := Some(token), supplied := false);
    if Accepts(job, valid) then
      WithPool(s, p, s.pools[p].(last := Some(named.(bytes := Some(job.width), xn := Prefix(job)))))
        .(live := token, sent := s.sent + [Dispatch(token, job.id, s.active, p, job.serial, Allowed(s, p, now))])
    else WithPool(s, p, s.pools[p].(last := Some(named))).(live := token)
  }

  // ---------- losing and choosing pools ----------

  function Clear(s: State, p: nat): (r: State)
    requires Configured(s) && p < |s.pools|
    ensures Configured(r)
  {
    WithPool(s, p, s.pools[p].(socket := None, last := None))
  }

  /** The first pool from i on that is alive, not active and not for donation. */
  function FirstBackup(s: State, i: nat): (b: Option<nat>)
    requires i <= |s.pools|
    ensures b.Some? ==> i <= b.value < |s.pools| && Alive(s, b.value) && b.value != s.active && !Donates(s, b.value)
    ensures forall j :: i <= j < (if b.Some? then b.value else |s.pools|) && Alive(s, j) ==> j == s.active || Donates(s, j)
    decreases |s.pools| - i
  {
    if i == |s.pools| then None
    else if !Donates(s, i) && i != s.active && Alive(s, i) then Some(i)
    else FirstBackup(s, i + 1)
  }

  /** The next pool after p, in a circle, that is not for donation. */
  function NextNonDonate(count: nat, donate: Option<nat>, p: nat, offset: nat): (n: Option<nat>)
    requires p < count && 1 <= offset <= count + 1
    ensures n.Some? ==> n.value < count && donate != n
    decreases count + 1 - offset
  {
    if offset > count then None
    else
      var candidate := (p + offset) % count;
      if donate != Some(candidate) then Some(candidate) else NextNonDonate(count, donate, p, offset + 1)
  }

  function Activate(s: State, p: nat): (r: State)
    requires Configured(s) && p < |s.pools|
    ensures Configured(r)
  {
    s.(active := p)
  }

  function Ask(s: State, request: Request): (r: State)
    requires Configured(s)
    ensures Configured(r)
  {
    s.(asked := s.asked + [request])
  }

  /** Close the pool's present connection in a while, unless the pool becomes active again. */
  function CloseLater(s: State, p: nat): (r: State)
    requires Configured(s) && p < |s.pools|
    ensures Configured(r)
  {
    if s.pools[p].socket.Some? then Ask(s, CloseSoon(p, s.pools[p].socket.value)) else s
  }

  /** No pool has a job: go on to the next one in turn, and pause what is mined for donation. */
  function TurnTo(s: State, n: Option<nat>): (r: State)
    requires Configured(s) && (n.Some? ==> n.value < |s.pools|)
    ensures Configured(r)
  {
    var t := if Donates(s, s.active) then Ask(s, Pause) else s;
    if n.Some? then Ask(Activate(t, n.value), ConnectSoon(n.value)) else Ask(t, Pause)
  }

  /** Leave a pool that is active: for the primary if it has a job, else for a backup that has one,
      else for the next pool in turn. */
  function SwitchPool(s: State, p: nat, now: nat, valid: bool): (r: State)
    requires Configured(s) && p < |s.pools|
    ensures Configured(r)
  {
    var t := CloseLater(s, p);
    if p != t.active then t
    else if Alive(t, t.primary) then SetJob(Activate(t, t.primary), t.primary, now, valid)
    else
      var b := FirstBackup(t, 0);
      if b.Some? then SetJob(Activate(t, b.value), b.value, now, valid)
      else TurnTo(t, NextNonDonate(|t.pools|, t.donate, p, 1))
  }

  /** A socket failed, or a message from it could not be used. */
  function PoolError(s: State, p: nat, socket: nat, now: nat, valid: bool): (r: State)
    requires Configured(s) && p < |s.pools|
    ensures Configured(r)
  {
    if s.pools[p].socket != Some(socket) then s else SwitchPool(Clear(s, p), p, now, valid)
  }

  /** Connect, unless the pool is connected or is the donation pool outside its window. */
  function Connect(s: State, p: nat, now: nat): (r: State)
    requires Configured(s) && p < |s.pools|
    ensures Configured(r)
  {
    if Donates(s, p) && s.pools[p].until <= now then s
    else if s.pools[p].socket.Some? then s
    else WithPool(s, p, s.pools[p].(socket := Some(s.sockets), last := None)).(sockets := s.sockets + 1)
  }

  // ---------- jobs ----------

  function ActivateForJob(s: State, p: nat): (r: State)
    requires Configured(s) && p < |s.pools|
    ensures Configured(r)
  {
    if p == s.active || Alive(s, p) then s
    else if p == s.primary then Activate(CloseLater(s, s.active), p)
    else if Donates(s, p) then Activate(s, p)
    else s
  }

  predicate DonationSupports(s: State, p: nat, algo: string, now: nat)
    requires p < |s.pools|
  {
    Donates(s, p) ==> now < s.pools[p].until && algo in s.pools[p].params
  }

  /** A job arrives over the pool's current socket.  `usable` says whether its target can be read,
      `valid` whether the workers accept it; the error path of either is the socket's. */
  function PoolJob(s: State, p: nat, job: Job, now: nat, usable: bool, valid: bool, valid': bool): (r: State)
    requires Configured(s) && p < |s.pools| && s.pools[p].socket.Some?
    ensures Configured(r)
  {
    var socket := s.pools[p].socket.value;
    if !DonationSupports(s, p, job.algo, now) then
      if p == s.active then SwitchPool(s, p, now, valid') else Clear(s, p)
    else if !usable then PoolError(s, p, socket, now, valid')
    else
      var stored := Stored(s, p, job);
      if p != stored.active then stored
      else
        var sent := SetJob(stored, p, now, valid);
        if Accepts(job, valid) then sent else PoolError(sent, p, socket, now, valid')
  }

  // ---------- timers ----------

  function SoftClose(s: State, p: nat, socket: nat): (r: State)
    requires Configured(s) && p < |s.pools|
    ensures Configured(r)
  {
    if p == s.active || s.pools[p].socket != Some(socket) then s else Clear(s, p)
  }

  function DonationStarts(s: State, until: nat): (r: State)
    requires Configured(s)
    ensures Configured(r)
  {
    if s.donate.None? then s
    else WithPool(s, s.donate.value, s.pools[s.donate.value].(until := until))
  }

  function DonationEnds(s: State, until: nat, now: nat, valid: bool): (r: State)
    requires Configured(s)
    ensures Configured(r)
  {
    if s.donate.None? || s.pools[s.donate.value].until != until then s
    else SwitchPool(WithPool(s, s.donate.value, s.pools[s.donate.value].(until := 0)), s.donate.value, now, valid)
  }

  // ---------- worker messages ----------

  /** A result goes to the pool only when the pool's job has its token and its id. */
  predicate Forwards(s: State, p: nat, token: nat, id: string) {
    p < |s.pools| && Alive(s, p) && s.pools[p].last.value.token == Some(token) && s.pools[p].last.value.id == id
  }

  predicate IsNonce(text: string) { 1 <= |text| <= 16 && HexText(text) }

  /** The number a job's nonce stands for, or -1 if there is none. */
  function NonceValue(nonce: Nonce): int {
    match nonce
    case Unset => -1
    case Number(n) => n
    case Text(digits) => if IsNonce(digits) then Value(digits) else -1
  }

  /** A worker's nonce has the size and the prefix of the job. */
  predicate NonceAllowed(job: Job, nonce: string) {
    job.bytes.Some? ==> ValidNonce(nonce, job.bytes.value, job.xn, Beam(job))
  }

  /** Keep the highest nonce that a worker reached for a job of a pool in the background. */
  function LastNonce(s: State, p: nat, token: nat, id: string, nonce: string): (r: State)
    requires Configured(s) && p < |s.pools|
    ensures Configured(r)
  {
    if p == s.active || !IsNonce(nonce) || !Forwards(s, p, token, id) then s
    else
      var job := s.pools[p].last.value;
      if !NonceAllowed(job, nonce) || Value(nonce) <= NonceValue(job.nonce) then s
      else WithPool(s, p, s.pools[p].(last := Some(job.(nonce := Text(nonce), reached := true))))
  }

  // ---------- runs ----------

  datatype Event =
    | Connecting(p: nat, now: nat)
    | Arrives(p: nat, job: Job, now: nat, usable: bool, valid: bool, valid': bool)
    | Error(p: nat, socket: nat, now: nat, valid: bool)
    | CloseTimer(p: nat, socket: nat)
    | DonationOn(until: nat)
    | DonationOff(until: nat, now: nat, valid: bool)
    | Reports(p: nat, token: nat, id: string, nonce: string)

  /** Events that cannot happen in a state leave it alone. */
  function Step(s: State, e: Event): (r: State)
    requires Configured(s)
    ensures Configured(r)
  {
    match e
    case Connecting(p, now) => if p < |s.pools| then Connect(s, p, now) else s
    case Arrives(p, job, now, usable, valid, valid') =>
      if p < |s.pools| && s.pools[p].socket.Some? then PoolJob(s, p, job, now, usable, valid, valid') else s
    case Error(p, socket, now, valid) => if p < |s.pools| then PoolError(s, p, socket, now, valid) else s
    case CloseTimer(p, socket) => if p < |s.pools| then SoftClose(s, p, socket) else s
    case DonationOn(until) => DonationStarts(s, until)
    case DonationOff(until, now, valid) => DonationEnds(s, until, now, valid)
    case Reports(p, token, id, nonce) => if p < |s.pools| then LastNonce(s, p, token, id, nonce) else s
  }

  function Run(s: State, es: seq<Event>): (r: State)
    requires Configured(s)
    ensures Configured(r)
  {
    if |es| == 0 then s else Step(Run(s, es[..|es| - 1]), es[|es| - 1])
  }

  ghost predicate Initial(s: State) {
    && Configured(s) && s.active == s.primary && s.live == 0 && s.sent == []
    && forall p :: 0 <= p < |s.pools| ==> s.pools[p].socket.None? && s.pools[p].last.None?
  }

  // ---------- what every run keeps ----------

  ghost predicate JobsHaveSockets(s: State) {
    forall p :: 0 <= p < |s.pools| && s.pools[p].last.Some? ==> s.pools[p].socket.Some?
  }

  ghost predicate SentFromActive(s: State) {
    forall i :: 0 <= i < |s.sent| ==>
      s.sent[i].pool == s.sent[i].from && s.sent[i].allowed && s.sent[i].token <= s.live && s.sent[i].serial < s.serials
  }

  ghost predicate TokensAscend(s: State) {
    forall i, j :: 0 <= i < j < |s.sent| ==> s.sent[i].token < s.sent[j].token
  }

  predicate Held(s: State, p: int, job: Job) {
    0 <= p < |s.pools| && s.pools[p].last == Some(job)
  }

  /** What pool p's job, with a token that set_job gave it, says about a dispatch. */
  predicate TokenFits(p: int, job: Job, d: Dispatch) {
    job.token.Some? && !job.supplied ==>
      && (d.pool == p ==> d.token <= job.token.value)
      && (d.token == job.token.value ==> d.pool == p && d.serial == job.serial && job.bytes.Some?)
  }

  /** A job whose token came with it has not been dispatched. */
  predicate Undispatched(p: int, job: Job, d: Dispatch) {
    job.supplied ==> d.pool != p || d.serial != job.serial
  }

  /** A nonce that a worker reported keeps the prefix, once the size is known. */
  predicate NonceKept(job: Job) {
    job.reached ==>
      && job.nonce.Text? && IsNonce(job.nonce.digits)
      && (job.bytes.Some? && job.xn != "" ==> ValidNonce(job.nonce.digits, job.bytes.value, job.xn, false))
  }

  predicate JobOk(s: State, job: Job) {
    && (job.supplied ==> job.token.Some?)
    && (job.token.Some? && !job.supplied ==> job.token.value <= s.live)
    && job.serial < s.serials && NonceKept(job)
  }

  ghost predicate JobsOk(s: State) {
    && (forall p, job :: Held(s, p, job) ==> JobOk(s, job))
    && (forall p, job, i :: Held(s, p, job) && 0 <= i < |s.sent| ==>
          TokenFits(p, job, s.sent[i]) && Undispatched(p, job, s.sent[i]))
  }

  ghost predicate Inv(s: State) {
    Configured(s) && JobsHaveSockets(s) && SentFromActive(s) && TokensAscend(s) && JobsOk(s)
  }

  /** Changing a pool's record, but not giving its job another token, keeps everything. */
  lemma RecordKeepsInv(s: State, p: nat, pool: Pool)
    requires Inv(s) && p < |s.pools|
    requires pool.last.Some? ==> pool.socket.Some? && s.pools[p].last.Some?
    requires pool.last.Some? ==>
      var job, former := pool.last.value, s.pools[p].last.value;
      && job.token == former.token && job.serial == former.serial && job.supplied == former.supplied
      && job.bytes == former.bytes && NonceKept(job)
    ensures Inv(WithPool(s, p, pool))
  {
    var r := WithPool(s, p, pool);
    forall q, job | Held(r, q, job)
      ensures JobOk(r, job)
      ensures forall i :: 0 <= i < |r.sent| ==> TokenFits(q, job, r.sent[i]) && Undispatched(q, job, r.sent[i])
    {
      assert Held(s, q, s.pools[q].last.value);
    }
  }

  lemma AcceptedKeepsNonce(job: Job, valid: bool)
    requires NonceKept(job) && Accepts(job, valid)
    ensures NonceKept(job.(bytes := Some(job.width), xn := Prefix(job)))
  {
  }

  lemma SetJobKeepsInv(s: State, p: nat, now: nat, valid: bool)
    requires Inv(s) && p < |s.pools| && Alive(s, p) && p == s.active
    requires Accepts(s.pools[p].last.value, valid) ==> Allowed(s, p, now)
    ensures Inv(SetJob(s, p, now, valid))
  {
    var r, was := SetJob(s, p, now, valid), s.pools[p].last.value;
    assert Held(s, p, was);
    if Accepts(was, valid) {
      AcceptedKeepsNonce(was, valid);
    }
    forall q, job | Held(r, q, job)
      ensures JobOk(r, job)
      ensures forall i :: 0 <= i < |r.sent| ==> TokenFits(q, job, r.sent[i]) && Undispatched(q, job, r.sent[i])
    {
      assert q != p ==> Held(s, q, job);
      assert q == p ==> job.token == Some(r.live) && !job.supplied && job.serial == was.serial && NonceKept(job);
    }
  }

  lemma ClearKeepsInv(s: State, p: nat)
    requires Inv(s) && p < |s.pools|
    ensures Inv(Clear(s, p))
  {
    RecordKeepsInv(s, p, s.pools[p].(socket := None, last := None));
  }

  /** Nor does anything depend on which pool is active or on what was asked. */
  lemma SameRecordsKeepInv(s: State, r: State)
    requires Inv(s) && r == s.(active := r.active, asked := r.asked) && r.active < |r.pools|
    ensures Inv(r)
  {
    forall q, job | Held(r, q, job) ensures Held(s, q, job) {
    }
  }

  lemma SwitchKeepsInv(s: State, p: nat, now: nat, valid: bool)
    requires Inv(s) && p < |s.pools|
    ensures Inv(SwitchPool(s, p, now, valid))
  {
    var t := CloseLater(s, p);
    SameRecordsKeepInv(s, t);
    if p == t.active {
      if Alive(t, t.primary) {
        SameRecordsKeepInv(t, Activate(t, t.primary));
        SetJobKeepsInv(Activate(t, t.primary), t.primary, now, valid);
      } else if FirstBackup(t, 0).Some? {
        var b := FirstBackup(t, 0).value;
        SameRecordsKeepInv(t, Activate(t, b));
        SetJobKeepsInv(Activate(t, b), b, now, valid);
      } else {
        SameRecordsKeepInv(t, TurnTo(t, NextNonDonate(|t.pools|, t.donate, p, 1)));
      }
    }
  }

  lemma PoolErrorKeepsInv(s: State, p: nat, socket: nat, now: nat, valid: bool)
    requires Inv(s) && p < |s.pools|
    ensures Inv(PoolError(s, p, socket, now, valid))
  {
    if s.pools[p].socket == Some(socket) {
      ClearKeepsInv(s, p);
      SwitchKeepsInv(Clear(s, p), p, now, valid);
    }
  }

  /** A job object as it arrives. */
  function Arrived(s: State, job: Job): Job {
    job.(serial := s.serials, supplied := job.token.Some?, reached := false)
  }

  /** The stored job: pool p's record after a usable job, before any dispatch. */
  function Stored(s: State, p: nat, job: Job): (r: State)
    requires Configured(s) && p < |s.pools|
    ensures Configured(r)
  {
    var t := ActivateForJob(s, p);
    WithPool(t, p, t.pools[p].(last := Some(Arrived(s, job)))).(serials := s.serials + 1)
  }

  lemma StoredKeepsInv(s: State, p: nat, job: Job)
    requires Inv(s) && p < |s.pools| && s.pools[p].socket.Some?
    ensures Inv(Stored(s, p, job))
  {
    var r := Stored(s, p, job);
    forall q, held | Held(r, q, held)
      ensures JobOk(r, held)
      ensures forall i :: 0 <= i < |r.sent| ==> TokenFits(q, held, r.sent[i]) && Undispatched(q, held, r.sent[i])
    {
      assert q != p ==> Held(s, q, held);
    }
  }

  lemma PoolJobKeepsInv(s: State, p: nat, job: Job, now: nat, usable: bool, valid: bool, valid': bool)
    requires Inv(s) && p < |s.pools| && s.pools[p].socket.Some?
    ensures Inv(PoolJob(s, p, job, now, usable, valid, valid'))
  {
    var socket := s.pools[p].socket.value;
    if !DonationSupports(s, p, job.algo, now) {
      SwitchKeepsInv(s, p, now, valid');
      ClearKeepsInv(s, p);
    } else if !usable {
      PoolErrorKeepsInv(s, p, socket, now, valid');
    } else {
      StoredKeepsInv(s, p, job);
      if p == Stored(s, p, job).active {
        SetJobKeepsInv(Stored(s, p, job), p, now, valid);
        PoolErrorKeepsInv(SetJob(Stored(s, p, job), p, now, valid), p, socket, now, valid');
      }
    }
  }

  lemma ConnectKeepsInv(s: State, p: nat, now: nat)
    requires Inv(s) && p < |s.pools|
    ensures Inv(Connect(s, p, now))
  {
    var pool := s.pools[p].(socket := Some(s.sockets), last := None);
    RecordKeepsInv(s, p, pool);
    forall q, job | Held(Connect(s, p, now), q, job)
      ensures Held(WithPool(s, p, pool), q, job) || Connect(s, p, now) == s
    {
    }
  }

  lemma DonationKeepsInv(s: State, until: nat, now: nat, valid: bool)
    requires Inv(s)
    ensures Inv(DonationStarts(s, until)) && Inv(DonationEnds(s, until, now, valid))
  {
    if s.donate.Some? {
      var d := s.donate.value;
      if s.pools[d].last.Some? {
        assert Held(s, d, s.pools[d].last.value);
      }
      RecordKeepsInv(s, d, s.pools[d].(until := until));
      RecordKeepsInv(s, d, s.pools[d].(until := 0));
      SwitchKeepsInv(WithPool(s, d, s.pools[d].(until := 0)), d, now, valid);
    }
  }

  lemma LastNonceKeepsInv(s: State, p: nat, token: nat, id: string, nonce: string)
    requires Inv(s) && p < |s.pools|
    ensures Inv(LastNonce(s, p, token, id, nonce))
  {
    if Alive(s, p) && IsNonce(nonce) && NonceAllowed(s.pools[p].last.value, nonce) {
      var job := s.pools[p].last.value;
      assert Held(s, p, job);
      RecordKeepsInv(s, p, s.pools[p].(last := Some(job.(nonce := Text(nonce), reached := true))));
    }
  }

  /** Whatever pools and workers send, tokens of their own included. */
  lemma StepKeepsInv(s: State, e: Event)
    requires Inv(s)
    ensures Inv(Step(s, e))
  {
    match e
    case Connecting(p, now) => if p < |s.pools| { ConnectKeepsInv(s, p, now); }
    case Arrives(p, job, now, usable, valid, valid') =>
      if p < |s.pools| && s.pools[p].socket.Some? { PoolJobKeepsInv(s, p, job, now, usable, valid, valid'); }
    case Error(p, socket, now, valid) => if p < |s.pools| { PoolErrorKeepsInv(s, p, socket, now, valid); }
    case CloseTimer(p, socket) => if p < |s.pools| { ClearKeepsInv(s, p); }
    case DonationOn(until) => DonationKeepsInv(s, until, 0, true);
    case DonationOff(until, now, valid) => DonationKeepsInv(s, until, now, valid);
    case Reports(p, token, id, nonce) => if p < |s.pools| { LastNonceKeepsInv(s, p, token, id, nonce); }
  }

  lemma {:induction false} RunKeepsInv(s: State, es: seq<Event>)
    requires Initial(s)
    ensures Inv(Run(s, es))
  {
    if |es| > 0 {
      RunKeepsInv(s, es[..|es| - 1]);
      StepKeepsInv(Run(s, es[..|es| - 1]), es[|es| - 1]);
    }
  }

  // ---------- theorems about every run ----------

  /** The active pool exists, and a pool with a job is connected. */
  lemma ActiveIsValid(s: State, es: seq<Event>, p: nat)
    requires Initial(s)
    ensures Run(s, es).active < |Run(s, es).pools|
    ensures p < |Run(s, es).pools| && Alive(Run(s, es), p) ==> Run(s, es).pools[p].socket.Some?
  {
    RunKeepsInv(s, es);
  }

  /** Whatever reached the workers came from the record of the pool it is labelled with, and
      donation work only inside the window and for an algorithm on the list. */
  lemma DispatchesAreAllowed(s: State, es: seq<Event>, i: nat)
    requires Initial(s) && i < |Run(s, es).sent|
    ensures var d := Run(s, es).sent[i]; d.pool == d.from && d.allowed
  {
    RunKeepsInv(s, es);
  }

  /** Dispatch i is the latest one to pool p, of the very job object that p's record still holds. */
  ghost predicate Current(s: State, p: nat, i: nat)
    requires p < |s.pools| && Alive(s, p) && i < |s.sent|
  {
    && s.sent[i].pool == p && s.sent[i].serial == s.pools[p].last.value.serial
    && forall j :: 0 <= j < |s.sent| && s.sent[j].pool == p ==> j <= i
  }

  /** A result with the token of dispatch i would be forwarded to pool p, which has moved on. */
  ghost predicate Stale(s: State, p: nat, i: nat, id: string) {
    i < |s.sent| && Forwards(s, p, s.sent[i].token, id) && !Current(s, p, i)
  }

  /** The token of pool p's job came with it and is that of dispatch i. */
  predicate Impersonates(s: State, p: nat, i: nat) {
    && p < |s.pools| && Alive(s, p) && i < |s.sent|
    && s.pools[p].last.value.supplied && s.pools[p].last.value.token == Some(s.sent[i].token)
  }

  /** In every run, whatever pools and workers send: a result for an earlier dispatch can be
      forwarded to a pool exactly when the pool supplied its job's token itself and that token has
      been given to a dispatch, before the job came or after. */
  lemma StaleIffImpersonated(s: State, es: seq<Event>, p: nat, i: nat)
    requires Initial(s)
    ensures (exists id :: Stale(Run(s, es), p, i, id)) <==> Impersonates(Run(s, es), p, i)
  {
    RunKeepsInv(s, es);
    var r := Run(s, es);
    if p < |r.pools| && Alive(r, p) {
      assert Held(r, p, r.pools[p].last.value);
    }
    if Impersonates(r, p, i) {
      assert Stale(r, p, i, r.pools[p].last.value.id);
    }
  }

  /** So a forwarded result answers the latest dispatch to its pool if the pool sends no tokens, even
      when it uses a job id again. */
  lemma NoStaleSubmission(s: State, es: seq<Event>, p: nat, id: string, i: nat)
    requires Initial(s) && i < |Run(s, es).sent|
    requires Forwards(Run(s, es), p, Run(s, es).sent[i].token, id) && !Run(s, es).pools[p].last.value.supplied
    ensures Current(Run(s, es), p, i)
  {
    StaleIffImpersonated(s, es, p, i);
    assert !Stale(Run(s, es), p, i, id);
  }

  // ---------- results that workers send ----------

  lemma StaleInState(s: State, p: nat, i: nat, id: string)
    requires Inv(s)
    ensures Stale(s, p, i, id) <==> Impersonates(s, p, i) && s.pools[p].last.value.id == id
  {
    if p < |s.pools| && Alive(s, p) {
      assert Held(s, p, s.pools[p].last.value);
    }
  }

  /** Workers send a result with the pool and the id of its dispatch: no such result is stale. */
  ghost predicate Clean(s: State) {
    forall i: nat :: i < |s.sent| ==> !Stale(s, s.sent[i].pool, i, s.sent[i].id)
  }

  predicate Dispatched(s: State, p: nat, token: Option<nat>, id: string) {
    exists i :: 0 <= i < |s.sent| && s.sent[i].pool == p && token == Some(s.sent[i].token) && s.sent[i].id == id
  }

  /** A usable job for a pool that does not become active with it. */
  predicate StoresInBackground(s: State, e: Event)
    requires Configured(s)
  {
    && e.Arrives? && e.p < |s.pools| && s.pools[e.p].socket.Some?
    && DonationSupports(s, e.p, e.job.algo, e.now) && e.usable && e.p != ActivateForJob(s, e.p).active
  }

  /** A job is stored in the background that carries the token and the id of a dispatch to its pool. */
  predicate Repeats(s: State, e: Event)
    requires Configured(s)
  {
    StoresInBackground(s, e) && Dispatched(s, e.p, e.job.token, e.job.id)
  }

  predicate Supplies(s: State, p: int, token: Option<nat>, id: string) {
    0 <= p < |s.pools| && s.pools[p].last.Some? && s.pools[p].last.value.supplied
    && s.pools[p].last.value.token == token && s.pools[p].last.value.id == id
  }

  lemma CleanInState(s: State)
    requires Inv(s)
    ensures Clean(s) <==> forall p: nat, token, id :: Supplies(s, p, token, id) ==> !Dispatched(s, p, token, id)
  {
    if Clean(s) {
      forall p: nat, token, id | Supplies(s, p, token, id)
        ensures !Dispatched(s, p, token, id)
      {
        if i: nat :| i < |s.sent| && s.sent[i].pool == p && token == Some(s.sent[i].token) && s.sent[i].id == id {
          StaleInState(s, p, i, id);
        }
      }
    }
    if forall p: nat, token, id :: Supplies(s, p, token, id) ==> !Dispatched(s, p, token, id) {
      forall i: nat | i < |s.sent|
        ensures !Stale(s, s.sent[i].pool, i, s.sent[i].id)
      {
        var d := s.sent[i];
        StaleInState(s, d.pool, i, d.id);
        if Impersonates(s, d.pool, i) && s.pools[d.pool].last.value.id == d.id {
          assert Supplies(s, d.pool, Some(d.token), d.id);
        }
      }
    }
  }

  /** Jobs with tokens of their own were there before, and have not been dispatched since. */
  ghost predicate Tidy(s: State, r: State) {
    && |r.pools| == |s.pools| && |s.sent| <= |r.sent|
    && (forall i :: 0 <= i < |s.sent| ==> r.sent[i] == s.sent[i])
    && (forall p, token, id :: Supplies(r, p, token, id) ==> Supplies(s, p, token, id))
    && (forall p, token, id, i :: Supplies(r, p, token, id) && |s.sent| <= i < |r.sent| ==> r.sent[i].pool != p)
  }

  lemma TidyIsTransitive(s: State, r: State, t: State)
    requires Tidy(s, r) && Tidy(r, t)
    ensures Tidy(s, t)
  {
    forall p, token, id, i | Supplies(t, p, token, id) && |s.sent| <= i < |t.sent|
      ensures t.sent[i].pool != p
    {
      assert Supplies(r, p, token, id);
    }
  }

  lemma TidyKeepsClean(s: State, r: State)
    requires Inv(s) && Inv(r) && Tidy(s, r) && Clean(s)
    ensures Clean(r)
  {
    CleanInState(s);
    CleanInState(r);
    forall p: nat, token, id | Supplies(r, p, token, id)
      ensures !Dispatched(r, p, token, id)
    {
      assert Supplies(s, p, token, id);
      assert !Dispatched(s, p, token, id);
    }
  }

  lemma RecordIsTidy(s: State, p: nat, pool: Pool, r: State)
    requires p < |s.pools| && r.pools == s.pools[p := pool] && r.sent == s.sent
    requires pool.last.Some? && pool.last.value.supplied ==>
      && s.pools[p].last.Some? && s.pools[p].last.value.supplied
      && pool.last.value.token == s.pools[p].last.value.token && pool.last.value.id == s.pools[p].last.value.id
    ensures Tidy(s, r)
  {
    forall q, token, id | Supplies(r, q, token, id) ensures Supplies(s, q, token, id) {
    }
  }

  lemma SetJobIsTidy(s: State, p: nat, now: nat, valid: bool)
    requires Configured(s) && p < |s.pools| && Alive(s, p) && p == s.active
    ensures Tidy(s, SetJob(s, p, now, valid))
  {
    var r := SetJob(s, p, now, valid);
    forall q, token, id | Supplies(r, q, token, id)
      ensures q != p && Supplies(s, q, token, id)
    {
    }
  }

  lemma SameRecordsTidy(s: State, r: State)
    requires r.pools == s.pools && r.sent == s.sent
    ensures Tidy(s, r)
  {
    forall q, token, id | Supplies(r, q, token, id) ensures Supplies(s, q, token, id) {
    }
  }

  lemma SwitchIsTidy(s: State, p: nat, now: nat, valid: bool)
    requires Configured(s) && p < |s.pools|
    ensures Tidy(s, SwitchPool(s, p, now, valid))
  {
    var t, r := CloseLater(s, p), SwitchPool(s, p, now, valid);
    if p == t.active && (Alive(t, t.primary) || FirstBackup(t, 0).Some?) {
      var b := if Alive(t, t.primary) then t.primary else FirstBackup(t, 0).value;
      SameRecordsTidy(s, Activate(t, b));
      SetJobIsTidy(Activate(t, b), b, now, valid);
      TidyIsTransitive(s, Activate(t, b), r);
    } else {
      SameRecordsTidy(s, r);
    }
  }

  lemma PoolErrorIsTidy(s: State, p: nat, socket: nat, now: nat, valid: bool)
    requires Configured(s) && p < |s.pools|
    ensures Tidy(s, PoolError(s, p, socket, now, valid))
  {
    if s.pools[p].socket == Some(socket) {
      RecordIsTidy(s, p, Clear(s, p).pools[p], Clear(s, p));
      SwitchIsTidy(Clear(s, p), p, now, valid);
      TidyIsTransitive(s, Clear(s, p), PoolError(s, p, socket, now, valid));
    } else {
      SameRecordsTidy(s, s);
    }
  }

  /** A job of the active pool loses a token of its own at once. */
  lemma ActiveJobIsTidy(s: State, p: nat, job: Job, now: nat, valid: bool)
    requires Configured(s) && p < |s.pools| && p == Stored(s, p, job).active
    ensures Tidy(s, SetJob(Stored(s, p, job), p, now, valid))
  {
    var t := Stored(s, p, job);
    var r := SetJob(t, p, now, valid);
    forall q, token, id | Supplies(r, q, token, id)
      ensures q != p && Supplies(s, q, token, id)
    {
    }
  }

  lemma PoolJobIsTidy(s: State, p: nat, job: Job, now: nat, usable: bool, valid: bool, valid': bool)
    requires Configured(s) && p < |s.pools| && s.pools[p].socket.Some?
    requires DonationSupports(s, p, job.algo, now) && usable ==> p == Stored(s, p, job).active
    ensures Tidy(s, PoolJob(s, p, job, now, usable, valid, valid'))
  {
    var socket := s.pools[p].socket.value;
    if !DonationSupports(s, p, job.algo, now) {
      SwitchIsTidy(s, p, now, valid');
      RecordIsTidy(s, p, Clear(s, p).pools[p], Clear(s, p));
    } else if !usable {
      PoolErrorIsTidy(s, p, socket, now, valid');
    } else {
      var u := SetJob(Stored(s, p, job), p, now, valid);
      ActiveJobIsTidy(s, p, job, now, valid);
      PoolErrorIsTidy(u, p, socket, now, valid');
      TidyIsTransitive(s, u, PoolError(u, p, socket, now, valid'));
    }
  }

  lemma DonationIsTidy(s: State, until: nat, now: nat, valid: bool)
    requires Configured(s)
    ensures Tidy(s, DonationStarts(s, until)) && Tidy(s, DonationEnds(s, until, now, valid))
  {
    SameRecordsTidy(s, s);
    if s.donate.Some? {
      var d := s.donate.value;
      var t := WithPool(s, d, s.pools[d].(until := 0));
      RecordIsTidy(s, d, s.pools[d].(until := until), DonationStarts(s, until));
      RecordIsTidy(s, d, s.pools[d].(until := 0), t);
      SwitchIsTidy(t, d, now, valid);
      TidyIsTransitive(s, t, SwitchPool(t, d, now, valid));
    }
  }

  lemma StepIsTidy(s: State, e: Event)
    requires Configured(s) && !StoresInBackground(s, e)
    ensures Tidy(s, Step(s, e))
  {
    SameRecordsTidy(s, s);
    match e
    case Connecting(p, now) => if p < |s.pools| { RecordIsTidy(s, p, Connect(s, p, now).pools[p], Connect(s, p, now)); }
    case Arrives(p, job, now, usable, valid, valid') =>
      if p < |s.pools| && s.pools[p].socket.Some? { PoolJobIsTidy(s, p, job, now, usable, valid, valid'); }
    case Error(p, socket, now, valid) => if p < |s.pools| { PoolErrorIsTidy(s, p, socket, now, valid); }
    case CloseTimer(p, socket) => if p < |s.pools| { RecordIsTidy(s, p, Clear(s, p).pools[p], Clear(s, p)); }
    case DonationOn(until) => DonationIsTidy(s, until, 0, true);
    case DonationOff(until, now, valid) => DonationIsTidy(s, until, now, valid);
    case Reports(p, token, id, nonce) =>
      if p < |s.pools| {
        var r := LastNonce(s, p, token, id, nonce);
        RecordIsTidy(s, p, r.pools[p], r);
      }
  }

  lemma BackgroundJobClean(s: State, e: Event)
    requires Inv(s) && Clean(s) && StoresInBackground(s, e)
    ensures Clean(Step(s, e)) <==> !Dispatched(s, e.p, e.job.token, e.job.id)
  {
    var r := Step(s, e);
    assert r == Stored(s, e.p, e.job) && r.sent == s.sent;
    StepKeepsInv(s, e);
    CleanInState(s);
    CleanInState(r);
    forall p: nat, token, id | p != e.p ensures Supplies(r, p, token, id) <==> Supplies(s, p, token, id) {
    }
    forall p: nat, token, id ensures Dispatched(r, p, token, id) <==> Dispatched(s, p, token, id) {
    }
    if Dispatched(s, e.p, e.job.token, e.job.id) {
      assert Supplies(r, e.p, e.job.token, e.job.id);
    }
  }

  lemma StepClean(s: State, e: Event)
    requires Inv(s) && Clean(s)
    ensures Clean(Step(s, e)) <==> !Repeats(s, e)
  {
    if StoresInBackground(s, e) {
      BackgroundJobClean(s, e);
    } else {
      StepKeepsInv(s, e);
      StepIsTidy(s, e);
      TidyKeepsClean(s, Step(s, e));
    }
  }

  ghost predicate CleanAt(s: State, es: seq<Event>, k: nat)
    requires Configured(s) && k <= |es|
  {
    Clean(Run(s, es[..k]))
  }

  predicate RepeatsAt(s: State, es: seq<Event>, k: nat)
    requires Configured(s) && k < |es|
  {
    Repeats(Run(s, es[..k]), es[k])
  }

  ghost predicate AlwaysClean(s: State, es: seq<Event>)
    requires Configured(s)
  {
    forall k: nat :: k <= |es| ==> CleanAt(s, es, k)
  }

  ghost predicate NoneRepeats(s: State, es: seq<Event>)
    requires Configured(s)
  {
    forall k: nat :: k < |es| ==> !RepeatsAt(s, es, k)
  }

  lemma AtPrefix(s: State, fs: seq<Event>, e: Event, k: nat)
    requires Configured(s) && k <= |fs|
    ensures CleanAt(s, fs + [e], k) <==> CleanAt(s, fs, k)
    ensures RepeatsAt(s, fs + [e], k) <==> if k < |fs| then RepeatsAt(s, fs, k) else Repeats(Run(s, fs), e)
    ensures k == |fs| ==> CleanAt(s, fs, k) == Clean(Run(s, fs))
  {
    assert (fs + [e])[..k] == fs[..k];
    if k == |fs| {
      assert fs[..k] == fs;
    }
  }

  lemma AtEnd(s: State, es: seq<Event>)
    requires Configured(s)
    ensures CleanAt(s, es, |es|) == Clean(Run(s, es))
  {
    assert es[..|es|] == es;
  }

  lemma OneMoreClean(s: State, fs: seq<Event>, e: Event)
    requires Configured(s)
    ensures AlwaysClean(s, fs + [e]) <==> AlwaysClean(s, fs) && CleanAt(s, fs + [e], |fs| + 1)
  {
    forall k: nat | k <= |fs| ensures CleanAt(s, fs + [e], k) <==> CleanAt(s, fs, k) {
      AtPrefix(s, fs, e, k);
    }
  }

  lemma OneMoreRepeats(s: State, fs: seq<Event>, e: Event)
    requires Configured(s)
    ensures NoneRepeats(s, fs + [e]) <==> NoneRepeats(s, fs) && !Repeats(Run(s, fs), e)
  {
    var es := fs + [e];
    AtPrefix(s, fs, e, |fs|);
    forall k: nat | k < |fs| ensures RepeatsAt(s, es, k) <==> RepeatsAt(s, fs, k) {
      AtPrefix(s, fs, e, k);
    }
  }

  /** No result that a worker sends is ever stale, at any point of a run, exactly when no job is
      stored in the background with the token and id of an earlier dispatch to its pool: a check on
      each job as it comes.  A token that is given out later does no harm here, for a dispatch to the
      same pool replaces the job's token. */
  lemma {:induction false} RunCleanIff(s: State, es: seq<Event>)
    requires Initial(s)
    ensures AlwaysClean(s, es) <==> NoneRepeats(s, es)
  {
    if |es| > 0 {
      var fs, e := es[..|es| - 1], es[|es| - 1];
      assert fs + [e] == es;
      RunCleanIff(s, fs);
      OneMoreClean(s, fs, e);
      AtEnd(s, fs);
      AtEnd(s, es);
      OneMoreRepeats(s, fs, e);
      RunKeepsInv(s, fs);
      if Clean(Run(s, fs)) {
        StepClean(Run(s, fs), e);
      }
    }
  }

  /** In such a run the size of a nonce that a worker reports is always known, so that the nonce is
      checked before it is stored. */
  lemma ReportsAreChecked(s: State, es: seq<Event>, p: nat, token: nat, id: string)
    requires Initial(s) && NoneRepeats(s, es)
    requires Dispatched(Run(s, es), p, Some(token), id) && Forwards(Run(s, es), p, token, id)
    ensures Run(s, es).pools[p].last.value.bytes.Some?
  {
    var r := Run(s, es);
    RunKeepsInv(s, es);
    RunCleanIff(s, es);
    AtEnd(s, es);
    assert CleanAt(s, es, |es|);
    CleanInState(r);
    var i :| 0 <= i < |r.sent| && r.sent[i].pool == p && r.sent[i].token == token && r.sent[i].id == id;
    assert Held(r, p, r.pools[p].last.value) && TokenFits(p, r.pools[p].last.value, r.sent[i]);
    assert Supplies(r, p, Some(token), id) ==> !Dispatched(r, p, Some(token), id);
  }

  // ---------- a run with a stale result ----------

  const IDLE := Pool(None, None, 0, {})
  const EARLIER := Job("a", "rx/0", None, Unset, "", None, 4, 0, false, false)

  /** Pool 1 serves the workers while the primary is away; then it sends, in the background, a job
      with its old id and the token it knows from the results. */
  const TAKEOVER: seq<Event> := [
    Connecting(0, 0), Connecting(1, 0), Arrives(1, EARLIER, 0, true, true, true), Error(0, 0, 0, true),
    Connecting(0, 0), Arrives(0, EARLIER, 0, true, true, true)]
  const IMPOSTOR := Arrives(1, EARLIER.(token := Some(1)), 0, true, true, true)
  const TWO_POOLS := State([IDLE, IDLE], 0, 0, None, 0, 0, 0, [], [])

  lemma RunMore(s: State, es: seq<Event>, e: Event)
    requires Configured(s)
    ensures Run(s, es + [e]) == Step(Run(s, es), e)
  {
    assert (es + [e])[..|es|] == es;
  }

  // the run, step by step
  const CONNECTED := TWO_POOLS.(pools := [IDLE.(socket := Some(0)), IDLE.(socket := Some(1))], sockets := 2)
  const WAITING := CONNECTED.(
    pools := [IDLE.(socket := Some(0)), Pool(Some(1), Some(EARLIER), 0, {})], serials := 1)
  const SERVING := WAITING.(
    pools := [IDLE, Pool(Some(1), Some(EARLIER.(token := Some(1), bytes := Some(4))), 0, {})],
    active := 1, live := 1, sent := [Dispatch(1, "a", 1, 1, 0, true)])

  lemma Connects()
    ensures Step(Step(TWO_POOLS, TAKEOVER[0]), TAKEOVER[1]) == CONNECTED
    ensures Step(CONNECTED, TAKEOVER[2]) == WAITING
  {
  }

  lemma PrimaryLost()
    ensures Step(WAITING, TAKEOVER[3]) == SERVING
  {
    var s := Clear(WAITING, 0);
    assert FirstBackup(s, 1) == Some(1) && FirstBackup(s, 0) == Some(1);
    assert Accepts(EARLIER, true) && Prefix(EARLIER) == "";
  }

  lemma PrimaryBack() returns (r: State)
    ensures r == Step(Step(SERVING, TAKEOVER[4]), TAKEOVER[5])
    ensures r.active == 0 && r.donate.None? && |r.pools| == 2 && r.pools[1].socket == Some(1) && r.pools[1].last.Some?
    ensures |r.sent| == 2 && r.sent[0] == Dispatch(1, "a", 1, 1, 0, true) && r.serials == 2
  {
    r := Step(Step(SERVING, TAKEOVER[4]), TAKEOVER[5]);
    assert Accepts(EARLIER, true);
  }

  lemma AfterTakeover() returns (r: State)
    ensures r == Run(TWO_POOLS, TAKEOVER)
    ensures r.active == 0 && r.donate.None? && |r.pools| == 2 && r.pools[1].socket == Some(1) && r.pools[1].last.Some?
    ensures |r.sent| == 2 && r.sent[0] == Dispatch(1, "a", 1, 1, 0, true) && r.serials == 2
  {
    Connects();
    PrimaryLost();
    r := PrimaryBack();
    SixSteps(TWO_POOLS, TAKEOVER);
  }

  lemma SixSteps(s: State, es: seq<Event>)
    requires Configured(s) && |es| == 6
    ensures Run(s, es) == Step(Step(Step(Step(Step(Step(s, es[0]), es[1]), es[2]), es[3]), es[4]), es[5])
  {
    assert es[..5][..4] == es[..4] && es[..4][..3] == es[..3] && es[..3][..2] == es[..2] && es[..2][..1] == es[..1];
    assert Run(s, es[..1]) == Step(s, es[0]);
    assert Run(s, es[..3]) == Step(Run(s, es[..2]), es[2]);
    assert Run(s, es[..5]) == Step(Run(s, es[..4]), es[4]);
  }

  /** A run from the start at whose end a late result of a worker is stale and would be forwarded. */
  lemma SuppliedTokenIsStale()
    ensures Initial(TWO_POOLS) && !Clean(Run(TWO_POOLS, TAKEOVER + [IMPOSTOR]))
    ensures Repeats(Run(TWO_POOLS, TAKEOVER), IMPOSTOR)
  {
    var s := AfterTakeover();
    var r := Step(s, IMPOSTOR);
    RunMore(TWO_POOLS, TAKEOVER, IMPOSTOR);
    assert Stale(r, 1, 0, "a");
  }

  // ---------- background nonces ----------

  ghost predicate SerialsOld(s: State) {
    forall p :: 0 <= p < |s.pools| && s.pools[p].last.Some? ==> s.pools[p].last.value.serial < s.serials
  }

  /** The job object with the given serial, as pool p's record holds it. */
  predicate Holds(s: State, p: int, serial: int) {
    0 <= p < |s.pools| && s.pools[p].last.Some? && s.pools[p].last.value.serial == serial
  }

  function NonceOf(s: State, p: int): int
    requires 0 <= p < |s.pools| && s.pools[p].last.Some?
  {
    NonceValue(s.pools[p].last.value.nonce)
  }

  /** Jobs in r are jobs of s with no lower nonce, or have arrived since. */
  ghost predicate Later(s: State, r: State) {
    && |r.pools| == |s.pools| && r.serials >= s.serials
    && (forall p, x :: Holds(r, p, x) ==> Holds(s, p, x) || s.serials <= x < r.serials)
    && (forall p, x :: Holds(r, p, x) && Holds(s, p, x) ==> NonceOf(s, p) <= NonceOf(r, p))
  }

  lemma LaterIsTransitive(s: State, r: State, t: State)
    requires Later(s, r) && Later(r, t) && SerialsOld(s)
    ensures Later(s, t)
  {
    forall p, x | Holds(t, p, x)
      ensures Holds(s, p, x) || s.serials <= x < t.serials
      ensures Holds(s, p, x) ==> NonceOf(s, p) <= NonceOf(t, p)
    {
      assert Holds(s, p, x) ==> x < s.serials;
    }
  }

  lemma LaterKeepsSerials(s: State, r: State)
    requires Later(s, r) && SerialsOld(s)
    ensures SerialsOld(r)
  {
    forall p | 0 <= p < |r.pools| && r.pools[p].last.Some?
      ensures r.pools[p].last.value.serial < r.serials
    {
      assert Holds(r, p, r.pools[p].last.value.serial);
    }
  }

  /** A record that loses its job, or keeps it with no lower nonce. */
  lemma RecordIsLater(s: State, p: nat, pool: Pool, r: State)
    requires p < |s.pools| && r.pools == s.pools[p := pool] && r.serials == s.serials
    requires pool.last.Some? ==> s.pools[p].last.Some? && pool.last.value.serial == s.pools[p].last.value.serial
    requires pool.last.Some? ==> NonceValue(pool.last.value.nonce) >= NonceValue(s.pools[p].last.value.nonce)
    ensures Later(s, r)
  {
  }

  lemma SetJobIsLater(s: State, p: nat, now: nat, valid: bool)
    requires Configured(s) && p < |s.pools| && Alive(s, p)
    ensures Later(s, SetJob(s, p, now, valid))
  {
    var r := SetJob(s, p, now, valid);
    RecordIsLater(s, p, r.pools[p], r);
  }

  lemma SwitchIsLater(s: State, p: nat, now: nat, valid: bool)
    requires Configured(s) && p < |s.pools|
    ensures Later(s, SwitchPool(s, p, now, valid))
  {
    var t := CloseLater(s, p);
    if p == t.active {
      if Alive(t, t.primary) {
        SetJobIsLater(Activate(t, t.primary), t.primary, now, valid);
      } else if FirstBackup(t, 0).Some? {
        SetJobIsLater(Activate(t, FirstBackup(t, 0).value), FirstBackup(t, 0).value, now, valid);
      }
    }
  }

  lemma PoolErrorIsLater(s: State, p: nat, socket: nat, now: nat, valid: bool)
    requires Configured(s) && p < |s.pools| && SerialsOld(s)
    ensures Later(s, PoolError(s, p, socket, now, valid))
  {
    if s.pools[p].socket == Some(socket) {
      RecordIsLater(s, p, Clear(s, p).pools[p], Clear(s, p));
      SwitchIsLater(Clear(s, p), p, now, valid);
      LaterIsTransitive(s, Clear(s, p), PoolError(s, p, socket, now, valid));
    }
  }

  lemma StoredIsLater(s: State, p: nat, job: Job)
    requires Configured(s) && p < |s.pools| && SerialsOld(s)
    ensures Later(s, Stored(s, p, job))
  {
    var r := Stored(s, p, job);
    forall q, x | Holds(r, q, x)
      ensures Holds(s, q, x) || s.serials <= x < r.serials
      ensures Holds(s, q, x) ==> NonceOf(s, q) <= NonceOf(r, q)
    {
      if q == p {
        assert x == s.serials;
      }
    }
  }

  lemma PoolJobIsLater(s: State, p: nat, job: Job, now: nat, usable: bool, valid: bool, valid': bool)
    requires Configured(s) && p < |s.pools| && s.pools[p].socket.Some? && SerialsOld(s)
    ensures Later(s, PoolJob(s, p, job, now, usable, valid, valid'))
  {
    var socket := s.pools[p].socket.value;
    if !DonationSupports(s, p, job.algo, now) {
      SwitchIsLater(s, p, now, valid');
      RecordIsLater(s, p, Clear(s, p).pools[p], Clear(s, p));
    } else if !usable {
      PoolErrorIsLater(s, p, socket, now, valid');
    } else {
      var t := Stored(s, p, job);
      StoredIsLater(s, p, job);
      LaterKeepsSerials(s, t);
      if p == t.active {
        var u := SetJob(t, p, now, valid);
        SetJobIsLater(t, p, now, valid);
        LaterKeepsSerials(t, u);
        LaterIsTransitive(s, t, u);
        PoolErrorIsLater(u, p, socket, now, valid');
        LaterIsTransitive(s, u, PoolError(u, p, socket, now, valid'));
      }
    }
  }

  lemma DonationIsLater(s: State, until: nat, now: nat, valid: bool)
    requires Configured(s) && SerialsOld(s)
    ensures Later(s, DonationStarts(s, until)) && Later(s, DonationEnds(s, until, now, valid))
  {
    if s.donate.Some? {
      var d := s.donate.value;
      var t := WithPool(s, d, s.pools[d].(until := 0));
      RecordIsLater(s, d, s.pools[d].(until := until), DonationStarts(s, until));
      RecordIsLater(s, d, s.pools[d].(until := 0), t);
      SwitchIsLater(t, d, now, valid);
      LaterIsTransitive(s, t, SwitchPool(t, d, now, valid));
    }
  }

  lemma StepIsLater(s: State, e: Event)
    requires Configured(s) && SerialsOld(s)
    ensures Later(s, Step(s, e))
  {
    match e
    case Connecting(p, now) => if p < |s.pools| { RecordIsLater(s, p, Connect(s, p, now).pools[p], Connect(s, p, now)); }
    case Arrives(p, job, now, usable, valid, valid') =>
      if p < |s.pools| && s.pools[p].socket.Some? { PoolJobIsLater(s, p, job, now, usable, valid, valid'); }
    case Error(p, socket, now, valid) => if p < |s.pools| { PoolErrorIsLater(s, p, socket, now, valid); }
    case CloseTimer(p, socket) => if p < |s.pools| { RecordIsLater(s, p, Clear(s, p).pools[p], Clear(s, p)); }
    case DonationOn(until) => DonationIsLater(s, until, 0, true);
    case DonationOff(until, now, valid) => DonationIsLater(s, until, now, valid);
    case Reports(p, token, id, nonce) =>
      if p < |s.pools| {
        var r := LastNonce(s, p, token, id, nonce);
        RecordIsLater(s, p, r.pools[p], r);
      }
  }

  lemma {:induction false} RunIsLater(s: State, es: seq<Event>, i: nat)
    requires Initial(s) && i <= |es|
    ensures SerialsOld(Run(s, es)) && Later(Run(s, es[..i]), Run(s, es))
    decreases |es|
  {
    var n := |es| - 1;
    if |es| > 0 {
      RunIsLater(s, es[..n], if i < |es| then i else n);
      StepIsLater(Run(s, es[..n]), es[n]);
      LaterKeepsSerials(Run(s, es[..n]), Run(s, es));
    }
    if i == |es| {
      assert es[..i] == es;
    } else {
      assert es[..n][..i] == es[..i];
      RunIsLater(s, es[..i], i);
      LaterIsTransitive(Run(s, es[..i]), Run(s, es[..n]), Run(s, es));
    }
  }

  /** While a pool keeps a job, the nonce stored for it never goes down. */
  lemma StoredNonceOnlyIncreases(s: State, es: seq<Event>, p: nat, serial: nat, i: nat)
    requires Initial(s) && i <= |es| && Holds(Run(s, es[..i]), p, serial) && Holds(Run(s, es), p, serial)
    ensures NonceOf(Run(s, es[..i]), p) <= NonceOf(Run(s, es), p)
  {
    RunIsLater(s, es, i);
  }

  /** In every run the nonce that a worker reported for a job of known size begins with the job's
      prefix, and so has the bits that the job's mask protects in common with the nonce the job
      starts from. */
  lemma StoredNonceKeepsPrefix(s: State, es: seq<Event>, p: nat, suffix: string)
    requires Initial(s) && p < |Run(s, es).pools| && Alive(Run(s, es), p)
    ensures var job := Run(s, es).pools[p].last.value;
      job.reached && job.bytes.Some? ==>
        job.nonce.Text? && IsNonce(job.nonce.digits) && HasPrefix(job.nonce.digits, job.bytes.value, job.xn)
    ensures var job := Run(s, es).pools[p].last.value;
      job.reached && job.bytes.Some? && Completes(job, suffix) ==>
        KeepsProtectedBits(job.nonce.digits, job.bytes.value, job.xn, suffix)
  {
    RunKeepsInv(s, es);
    var job := Run(s, es).pools[p].last.value;
    assert Held(Run(s, es), p, job);
    if job.reached && job.bytes.Some? && Completes(job, suffix) {
      PrefixIffProtectedBits(job.nonce.digits, job.bytes.value, job.xn, suffix);
    }
  }

  /** The prefix and the suffix make a nonce of the job's size. */
  predicate Completes(job: Job, suffix: string)
    requires job.bytes.Some?
  {
    && job.xn != "" && HexText(job.xn) && HexText(suffix)
    && |Cut(job.xn, 2 * job.bytes.value)| + |suffix| == 2 * job.bytes.value
  }

  // ---------- choosing pools ----------

  lemma NextSkipsOnlyDonation(count: nat, donate: Option<nat>, p: nat)
    requires p < count
    ensures donate != Some((p + 1) % count) ==> NextNonDonate(count, donate, p, 1) == Some((p + 1) % count)
    ensures donate == Some((p + 1) % count) && count > 1 ==> NextNonDonate(count, donate, p, 1) == Some((p + 2) % count)
  {
    Circle(p, count);
  }

  lemma Circle(p: nat, count: nat)
    requires p < count
    ensures (p + 1) % count == if p + 1 == count then 0 else p + 1
    ensures count > 1 ==> (p + 2) % count == (if p + 2 < count then p + 2 else p + 2 - count)
  {
  }

  /** Leaving the active pool never makes the donation pool active. */
  lemma SwitchNeverActivatesDonation(s: State, p: nat, now: nat, valid: bool)
    requires Configured(s) && p < |s.pools|
    ensures var r := SwitchPool(s, p, now, valid);
      Donates(r, r.active) ==> p != s.active && r.active == s.active
  {
    var t := CloseLater(s, p);
    if !Alive(t, t.primary) && FirstBackup(t, 0).None? {
      NextSkipsOnlyDonation(|t.pools|, t.donate, t.active);
    }
  }

  function After(count: nat, donate: Option<nat>, p: nat, k: nat): Option<nat>
    requires p < count
    decreases k
  {
    if k == 0 then Some(p)
    else
      var n := NextNonDonate(count, donate, p, 1);
      if n.Some? then After(count, donate, n.value, k - 1) else None
  }

  /** Turning from pool to pool reaches every pool that is not for donation, within one round. */
  lemma {:induction false} TurnsReachEveryPool(count: nat, donate: Option<nat>, p: nat, q: nat, d: nat) returns (k: nat)
    requires p < count && q < count && donate != Some(q)
    requires 1 <= d <= count && q == (if p + d < count then p + d else p + d - count)
    ensures 1 <= k <= d && After(count, donate, p, k) == Some(q)
    decreases d
  {
    NextSkipsOnlyDonation(count, donate, p);
    Circle(p, count);
    var n := NextNonDonate(count, donate, p, 1).value;
    if n == q {
      assert After(count, donate, n, 0) == Some(q);
      k := 1;
    } else {
      k := TurnsReachEveryPool(count, donate, n, q, if donate == Some((p + 1) % count) then d - 2 else d - 1);
      k := k + 1;
    }
  }

  // ---------- the miner's own code ----------

  /** The global pool list and ids, updated in place by the handlers. */
  class Miner {
    var pools: seq<Pool>
    var active: nat
    var primary: nat
    var donate: Option<nat>
    var live: nat
    var sockets: nat
    var serials: nat
    var sent: seq<Dispatch>
    var asked: seq<Request>

    ghost function Now(): State
      reads this
    {
      State(pools, active, primary, donate, live, sockets, serials, sent, asked)
    }

    method DispatchJob(p: nat, now: nat, valid: bool)
      requires Configured(Now()) && p < |pools| && Alive(Now(), p)
      modifies this
      ensures Now() == SetJob(old(Now()), p, now, valid)
    {
      var job := pools[p].last.value;
      var allowed := donate != Some(p) || (now < pools[p].until && job.algo in pools[p].params);
      live := live + 1;
      var named := job.(token := Some(live), supplied := false);
      if Accepts(job, valid) {
        named := named.(bytes := Some(job.width), xn := Prefix(job));
        sent := sent + [Dispatch(live, job.id, active, p, job.serial, allowed)];
      }
      pools := pools[p := pools[p].(last := Some(named))];
    }

    method ClearConnection(p: nat)
      requires Configured(Now()) && p < |pools|
      modifies this`pools
      ensures Now() == Clear(old(Now()), p)
    {
      pools := pools[p := pools[p].(socket := None, last := None)];
    }

    method CloseWait(p: nat)
      requires Configured(Now()) && p < |pools|
      modifies this`asked
      ensures Now() == CloseLater(old(Now()), p)
    {
      if pools[p].socket.Some? {
        asked := asked + [CloseSoon(p, pools[p].socket.value)];
      }
    }

    /** Try the primary, then the others in order. */
    method ReactivateAlivePool(now: nat, valid: bool) returns (ok: bool)
      requires Configured(Now())
      modifies this
      ensures ok <==> Alive(old(Now()), old(primary)) || FirstBackup(old(Now()), 0).Some?
      ensures ok ==> var b := if Alive(old(Now()), old(primary)) then old(primary) else FirstBackup(old(Now()), 0).value;
        Now() == SetJob(Activate(old(Now()), b), b, now, valid)
      ensures !ok ==> Now() == old(Now())
    {
      if pools[primary].last.Some? {
        active := primary;
        DispatchJob(primary, now, valid);
        return true;
      }
      var i := 0;
      while i < |pools|
        invariant i <= |pools| && Now() == old(Now())
        invariant FirstBackup(Now(), 0) == FirstBackup(Now(), i)
      {
        if donate != Some(i) && i != active && pools[i].last.Some? {
          active := i;
          DispatchJob(i, now, valid);
          return true;
        }
        i := i + 1;
      }
      ok := false;
    }

    method NextNonDonatePool(p: nat) returns (n: Option<nat>)
      requires p < |pools|
      ensures n == NextNonDonate(|pools|, donate, p, 1)
    {
      var count := |pools|;
      var offset := 1;
      while offset <= count
        invariant 1 <= offset <= count + 1
        invariant NextNonDonate(count, donate, p, 1) == NextNonDonate(count, donate, p, offset)
      {
        var candidate := (p + offset) % count;
        if donate != Some(candidate) {
          return Some(candidate);
        }
        offset := offset + 1;
      }
      n := None;
    }

    method Switch(p: nat, now: nat, valid: bool)
      requires Configured(Now()) && p < |pools|
      modifies this
      ensures Now() == SwitchPool(old(Now()), p, now, valid)
    {
      CloseWait(p);
      if p != active {
        return;
      }
      var ok := ReactivateAlivePool(now, valid);
      if ok {
        return;
      }
      var next := NextNonDonatePool(p);
      TurnToPool(next);
    }

    method TurnToPool(next: Option<nat>)
      requires Configured(Now()) && (next.Some? ==> next.value < |pools|)
      modifies this`active, this`asked
      ensures Now() == TurnTo(old(Now()), next)
    {
      if donate == Some(active) {
        asked := asked + [Pause];
      }
      if next.None? {
        asked := asked + [Pause];
        return;
      }
      active := next.value;
      asked := asked + [ConnectSoon(next.value)];
    }

    method Fail(p: nat, socket: nat, now: nat, valid: bool)
      requires Configured(Now()) && p < |pools|
      modifies this
      ensures Now() == PoolError(old(Now()), p, socket, now, valid)
    {
      if pools[p].socket != Some(socket) {
        return;
      }
      ClearConnection(p);
      Switch(p, now, valid);
    }

    /** Outside the window, or for an algorithm off the list, the pool is left or disconnected. */
    method DonationJobSupported(p: nat, algo: string, now: nat, valid: bool) returns (ok: bool)
      requires Configured(Now()) && p < |pools|
      modifies this
      ensures ok == DonationSupports(old(Now()), p, algo, now)
      ensures Now() == if ok then old(Now())
        else if p == old(active) then SwitchPool(old(Now()), p, now, valid) else Clear(old(Now()), p)
    {
      if donate != Some(p) || (now < pools[p].until && algo in pools[p].params) {
        return true;
      }
      if p == active {
        Switch(p, now, valid);
      } else {
        ClearConnection(p);
      }
      ok := false;
    }

    method ActivatePoolForJob(p: nat)
      requires Configured(Now()) && p < |pools|
      modifies this`active, this`asked
      ensures Now() == ActivateForJob(old(Now()), p)
    {
      if p == active || pools[p].last.Some? {
        return;
      }
      if p == primary {
        CloseWait(active);
        active := p;
      } else if donate == Some(p) {
        active := p;
      }
    }

    method HandlePoolJob(p: nat, job: Job, now: nat, usable: bool, valid: bool, valid': bool)
      requires Configured(Now()) && p < |pools| && pools[p].socket.Some?
      modifies this
      ensures Now() == PoolJob(old(Now()), p, job, now, usable, valid, valid')
    {
      var socket := pools[p].socket.value;
      var ok := DonationJobSupported(p, job.algo, now, valid');
      if !ok {
        return;
      }
      if !usable {
        Fail(p, socket, now, valid');
        return;
      }
      ActivatePoolForJob(p);
      pools := pools[p := pools[p].(last := Some(job.(serial := serials, supplied := job.token.Some?, reached := false)))];
      serials := serials + 1;
      assert Now() == Stored(old(Now()), p, job);
      if p == active {
        DispatchJob(p, now, valid);
        if !Accepts(job, valid) {
          Fail(p, socket, now, valid');
        }
      }
    }

    method ConnectPool(p: nat, now: nat)
      requires Configured(Now()) && p < |pools|
      modifies this
      ensures Now() == Connect(old(Now()), p, now)
    {
      if (donate == Some(p) && pools[p].until <= now) || pools[p].socket.Some? {
        return;
      }
      pools := pools[p := pools[p].(socket := Some(sockets), last := None)];
      sockets := sockets + 1;
    }

    /** The token and the id must both match before a worker's result or nonce is looked at. */
    method MatchingPoolJob(p: nat, token: nat, id: string) returns (job: Option<Job>)
      requires p < |pools|
      ensures job.Some? <==> Forwards(Now(), p, token, id)
      ensures job.Some? ==> job == pools[p].last
    {
      job := pools[p].last;
      if job.Some? && !(job.value.token == Some(token) && job.value.id == id) {
        job := None;
      }
    }

    method HandleLastNonce(p: nat, token: nat, id: string, nonce: string)
      requires Configured(Now()) && p < |pools|
      modifies this`pools
      ensures Now() == LastNonce(old(Now()), p, token, id, nonce)
    {
      if !IsNonce(nonce) || p == active {
        return;
      }
      var job := MatchingPoolJob(p, token, id);
      if job.None? || !NonceAllowed(job.value, nonce) {
        return;
      }
      if NonceValue(job.value.nonce) < Value(nonce) {
        pools := pools[p := pools[p].(last := Some(job.value.(nonce := Text(nonce), reached := true)))];
      }
    }
  }
}
