/** That the miner keeps working: which pool a switch goes to, that lost pools are tried one after the
    other, and that jobs, results and nonces of workers get where they belong.
 */
module PoolService {
  import opened Basics
  import opened NonceBytes
  import opened NonceText
  import opened PoolSelection
  import opened Sequences
  import opened Words

  // ---------- leaving a pool that has no successor with a job ----------

  /** No pool that a switch could go to has a job. */
  ghost predicate NowhereToGo(s: State)
    requires Configured(s)
  {
    forall q :: 0 <= q < |s.pools| && Alive(s, q) ==> q != s.primary && (q == s.active || Donates(s, q))
  }

  /** The pool d steps after p in the circle. */
  function Ahead(count: nat, p: nat, d: nat): (n: nat)
    requires count > 0
    ensures n < count
  {
    (p + d) % count
  }

  /** n is the first pool after p, d steps on, that is not for donation. */
  ghost predicate FirstAfter(s: State, p: nat, d: nat, n: nat)
    requires |s.pools| > 0
  {
    && 1 <= d <= |s.pools| && n == Ahead(|s.pools|, p, d) && !Donates(s, n)
    && forall e: nat :: 1 <= e < d ==> Donates(s, Ahead(|s.pools|, p, e))
  }

  /** The primary is somewhere on the round. */
  lemma PrimaryAhead(s: State, p: nat) returns (d: nat)
    requires Configured(s) && p < |s.pools|
    ensures 1 <= d <= |s.pools| && Ahead(|s.pools|, p, d) == s.primary
  {
    d := if s.primary > p then s.primary - p else s.primary + |s.pools| - p;
    if s.primary <= p {
      DivMod(p + d, |s.pools|, 1, s.primary);
    } else {
      SmallMod(p + d, |s.pools|);
    }
  }

  lemma {:induction false} NextFrom(s: State, p: nat, offset: nat, e: nat) returns (d: nat)
    requires Configured(s) && p < |s.pools| && 1 <= offset <= e <= |s.pools| && Ahead(|s.pools|, p, e) == s.primary
    requires forall e: nat :: 1 <= e < offset ==> Donates(s, Ahead(|s.pools|, p, e))
    ensures var n := NextNonDonate(|s.pools|, s.donate, p, offset); n.Some? && FirstAfter(s, p, d, n.value)
    decreases e - offset
  {
    if Donates(s, Ahead(|s.pools|, p, offset)) {
      d := NextFrom(s, p, offset + 1, e);
    } else {
      d := offset;
    }
  }

  lemma NextIsFirst(s: State, p: nat) returns (d: nat)
    requires Configured(s) && p < |s.pools|
    ensures var n := NextNonDonate(|s.pools|, s.donate, p, 1); n.Some? && FirstAfter(s, p, d, n.value)
  {
    var e := PrimaryAhead(s, p);
    d := NextFrom(s, p, 1, e);
  }

  lemma NoBackup(s: State, i: nat)
    requires Configured(s) && i <= |s.pools| && NowhereToGo(s)
    ensures FirstBackup(s, i).None?
  {
    forall q: nat | q < |s.pools| && Alive(s, q) ensures q == s.active || Donates(s, q) {
    }
  }

  lemma ClosingKeepsJobs(s: State, p: nat)
    requires Configured(s) && p < |s.pools|
    ensures var t := CloseLater(s, p); t == s.(asked := t.asked) && |s.asked| <= |t.asked|
    ensures NowhereToGo(s) ==> NowhereToGo(CloseLater(s, p))
  {
    var t := CloseLater(s, p);
    assert forall q: nat :: q < |s.pools| ==> Alive(t, q) == Alive(s, q);
  }

  /** Then the miner goes on to the next pool in the circle after the one it leaves, and asks for its
      connection; what was mined for donation is paused. */
  lemma SwitchTurnsOn(s: State, now: nat, valid: bool) returns (d: nat)
    requires Configured(s) && NowhereToGo(s)
    ensures var r := SwitchPool(s, s.active, now, valid);
      && FirstAfter(s, s.active, d, r.active)
      && r == s.(active := r.active, asked := r.asked)
      && |r.asked| > |s.asked| && r.asked[|r.asked| - 1] == ConnectSoon(r.active)
      && (Donates(s, s.active) ==> Pause in r.asked)
  {
    var t := CloseLater(s, s.active);
    ClosingKeepsJobs(s, s.active);
    NoBackup(t, 0);
    d := NextIsFirst(s, s.active);
    assert !Alive(t, t.primary);
    var r := TurnTo(t, NextNonDonate(|t.pools|, t.donate, s.active, 1));
    if Donates(s, s.active) {
      assert r.asked[|r.asked| - 2] == Pause;
    }
  }

  // ---------- a successor with a job ----------

  /** The pool a switch goes to: the primary if it has a job, else the first that has one, is not left
      and is not for donation. */
  ghost predicate Successor(s: State, q: nat) {
    && q < |s.pools| && Alive(s, q)
    && (q == s.primary || (s.primary < |s.pools| && !Alive(s, s.primary) && q != s.active && !Donates(s, q)
                           && forall j: nat :: j < q ==> !Alive(s, j) || j == s.active || Donates(s, j)))
  }

  lemma {:induction false} BackupIsFirst(s: State, q: nat, i: nat)
    requires Configured(s) && Successor(s, q) && q != s.primary && i <= q
    ensures FirstBackup(s, i) == Some(q)
    decreases q - i
  {
    if i < q {
      BackupIsFirst(s, q, i + 1);
    }
  }

  lemma ClosingKeepsSuccessor(s: State, q: nat)
    requires Configured(s) && Successor(s, q)
    ensures Successor(CloseLater(s, s.active), q)
  {
    var t := CloseLater(s, s.active);
    assert forall j: nat :: j < |s.pools| ==> Alive(t, j) == Alive(s, j);
  }

  /** The successor becomes active, its job has a fresh token, and is dispatched if it is accepted. */
  lemma SwitchServes(s: State, q: nat, now: nat, valid: bool)
    requires Configured(s) && Successor(s, q)
    ensures var r, job := SwitchPool(s, s.active, now, valid), s.pools[q].last.value;
      && r.active == q && r.live == s.live + 1
      && Forwards(r, q, r.live, job.id) && r.pools[q].last.value.serial == job.serial
      && (Accepts(job, valid) ==>
            r.sent == s.sent + [Dispatch(r.live, job.id, q, q, job.serial, Allowed(s, q, now))])
  {
    if q != s.primary {
      ClosingKeepsSuccessor(s, q);
      BackupIsFirst(CloseLater(s, s.active), q, 0);
    }
  }

  /** The pool that is left is closed in a while. */
  lemma SwitchAsksToClose(s: State, p: nat, now: nat, valid: bool)
    requires Configured(s) && p < |s.pools| && s.pools[p].socket.Some?
    ensures CloseSoon(p, s.pools[p].socket.value) in SwitchPool(s, p, now, valid).asked
  {
    var t := CloseLater(s, p);
    assert t.asked[|t.asked| - 1] == CloseSoon(p, s.pools[p].socket.value);
    var r := SwitchPool(s, p, now, valid);
    assert |t.asked| <= |r.asked| && r.asked[|t.asked| - 1] == t.asked[|t.asked| - 1];
  }

  // ---------- lost pools are tried in turn ----------

  /** The active pool is connected, if it is not, and its connection fails. */
  function Turn(s: State, now: nat, valid: bool): (r: State)
    requires Configured(s)
    ensures Configured(r)
  {
    var c := Step(s, Connecting(s.active, now));
    var socket := c.pools[s.active].socket;
    if socket.Some? then Step(c, Error(s.active, socket.value, now, valid)) else c
  }

  /** At some time the active pool of s fails, which leads to r. */
  ghost predicate Fails(s: State, r: State)
    requires Configured(s)
  {
    exists now, valid :: r == Turn(s, now, valid)
  }

  /** The active pool fails again and again. */
  ghost predicate KeepsFailing(states: seq<State>) {
    && (forall i :: 0 <= i < |states| ==> Configured(states[i]))
    && forall i, j :: 0 <= i < j < |states| && j == i + 1 ==> Fails(states[i], states[j])
  }

  ghost predicate NoJobs(s: State) {
    forall q :: 0 <= q < |s.pools| ==> s.pools[q].last.None?
  }

  lemma TurnGoesOn(s: State, now: nat, valid: bool)
    requires Configured(s) && NoJobs(s) && !Donates(s, s.active)
    ensures var r := Turn(s, now, valid);
      && NoJobs(r) && |r.pools| == |s.pools| && r.donate == s.donate && !Donates(r, r.active)
      && NextNonDonate(|s.pools|, s.donate, s.active, 1) == Some(r.active)
  {
    var c := Connect(s, s.active, now);
    assert c.pools[s.active].socket.Some?;
    var t := Clear(c, s.active);
    assert NoJobs(c) && NoJobs(t);
    var d := SwitchTurnsOn(t, now, valid);
    d := NextIsFirst(t, t.active);
    NoBackup(CloseLater(t, t.active), 0);
  }

  lemma FailureGoesOn(s: State, r: State)
    requires Configured(s) && NoJobs(s) && !Donates(s, s.active) && Fails(s, r)
    ensures NoJobs(r) && |r.pools| == |s.pools| && r.donate == s.donate && !Donates(r, r.active)
    ensures r.active < |s.pools| && NextNonDonate(|s.pools|, s.donate, s.active, 1) == Some(r.active)
  {
    var now, valid :| r == Turn(s, now, valid);
    TurnGoesOn(s, now, valid);
  }

  lemma {:induction false} FailuresFollow(states: seq<State>, k: nat)
    requires KeepsFailing(states) && k < |states| && NoJobs(states[0]) && !Donates(states[0], states[0].active)
    ensures After(|states[0].pools|, states[0].donate, states[0].active, k) == Some(states[k].active)
    decreases k
  {
    if k > 0 {
      assert Fails(states[0], states[1]);
      FailureGoesOn(states[0], states[1]);
      var rest := states[1..];
      assert forall i :: 0 <= i < |rest| ==> rest[i] == states[i + 1];
      FailuresFollow(rest, k - 1);
    }
  }

  /** While no pool has a job and each connection fails, every pool that is not for donation becomes
      active within one round. */
  lemma FailuresReachEveryPool(states: seq<State>, q: nat, d: nat) returns (k: nat)
    requires KeepsFailing(states) && |states| > d && NoJobs(states[0])
    requires var s := states[0];
      && !Donates(s, s.active) && q < |s.pools| && !Donates(s, q) && 1 <= d <= |s.pools|
      && q == if s.active + d < |s.pools| then s.active + d else s.active + d - |s.pools|
    ensures 1 <= k <= d && states[k].active == q
  {
    var s := states[0];
    k := TurnsReachEveryPool(|s.pools|, s.donate, s.active, q, d);
    FailuresFollow(states, k);
  }

  // ---------- jobs, results and nonces ----------

  /** The pool is active, or becomes active with its first job. */
  predicate Takes(s: State, p: nat)
    requires p < |s.pools|
  {
    p == s.active || (!Alive(s, p) && (p == s.primary || Donates(s, p)))
  }

  /** A usable job of such a pool is dispatched, and the workers' results for it are forwarded. */
  lemma JobIsServed(s: State, p: nat, job: Job, now: nat, valid': bool)
    requires Configured(s) && p < |s.pools| && s.pools[p].socket.Some?
    requires DonationSupports(s, p, job.algo, now) && Accepts(job, true) && Takes(s, p)
    ensures var r := PoolJob(s, p, job, now, true, true, valid');
      && r.active == p && r.serials == s.serials + 1 && r.live == s.live + 1
      && r.sent == s.sent + [Dispatch(r.live, job.id, p, p, s.serials, true)]
      && Forwards(r, p, r.live, job.id) && r.pools[p].last.value.serial == s.serials
      && r.pools[p].last.value.bytes == Some(job.width)
      && r.pools[p].last.value.xn == (if job.algo == "beamhash3" then WithoutPrefix(job.xn) else job.xn)
      && forall q :: 0 <= q < |s.pools| && q != p ==> r.pools[q] == s.pools[q]
  {
  }

  /** A job with an even hexadecimal prefix and no nonce of its own is accepted if the rest of it is; in
      a Beam job the prefix may be written with 0x. */
  lemma PrefixIsAccepted(job: Job, prefix: string)
    requires HexText(prefix) && |prefix| % 2 == 0 && (job.width == 4 || job.width == 8) && job.nonce == Unset
    requires job.xn == prefix || (job.algo == "beamhash3" && job.xn == "0x" + prefix)
    ensures Accepts(job, true) && Prefix(job) == prefix
  {
    HexHasNo0x(prefix);
    assert ("0x" + prefix)[2..] == prefix;
  }

  lemma HexHasNo0x(s: string)
    requires HexText(s)
    ensures WithoutPrefix(s) == s
  {
  }

  /** A text nonce that comes with such a job must keep the prefix, and in a Beam job not be zero. */
  lemma ResumedNonceIsChecked(job: Job, digits: string)
    requires HexText(job.xn) && job.xn != "" && |job.xn| % 2 == 0 && job.nonce == Text(digits)
    ensures Accepts(job, true) <==>
      ValidNonce(digits, job.width, job.xn, false) && (job.algo == "beamhash3" ==> Value(digits) != 0)
  {
    HexHasNo0x(job.xn);
    NonzeroNonce(digits, job.width, job.xn);
  }

  /** Any other usable job is kept for later, and nothing else changes. */
  lemma JobIsKept(s: State, p: nat, job: Job, now: nat, valid: bool, valid': bool)
    requires Configured(s) && p < |s.pools| && s.pools[p].socket.Some?
    requires DonationSupports(s, p, job.algo, now) && !Takes(s, p)
    ensures var r := PoolJob(s, p, job, now, true, valid, valid');
      && r.active == s.active && r.sent == s.sent && r.live == s.live
      && Alive(r, p) && r.pools[p].last.value == job.(serial := s.serials, supplied := job.token.Some?, reached := false)
      && forall q :: 0 <= q < |s.pools| && q != p ==> r.pools[q] == s.pools[q]
  {
  }

  /** A text nonce is newer than a stored one if that is not readable or is a lower number. */
  predicate Newer(stored: Nonce, text: string)
    requires IsNonce(text)
  {
    match stored
    case Unset => true
    case Number(n) => n < Value(text)
    case Text(digits) => !IsNonce(digits) || Value(digits) < Value(text)
  }

  /** A worker's nonce is stored for a background pool's job exactly if it is newer; once the job's size
      is known it must have that size and the job's prefix. */
  lemma ReportIsStored(s: State, p: nat, token: nat, id: string, nonce: string)
    requires Configured(s) && p != s.active && IsNonce(nonce) && Forwards(s, p, token, id)
    requires var job := s.pools[p].last.value;
      job.bytes.Some? ==> ValidNonce(nonce, job.bytes.value, job.xn, job.algo == "beamhash3")
    ensures var r, job := LastNonce(s, p, token, id, nonce), s.pools[p].last.value;
      if Newer(job.nonce, nonce) then r.pools[p].last == Some(job.(nonce := Text(nonce), reached := true)) else r == s
  {
  }

  lemma SnocValue(s: string, c: char)
    requires HexText(s) && HexDigit(c)
    ensures HexText(s + [c]) && Value(s + [c]) == 16 * Value(s) + DigitOf(c)
  {
    assert (s + [c])[..|s|] == s;
  }

  /** The text of a number stands for it. */
  lemma {:induction false} NumberTextValue(n: nat)
    ensures Value(NumberText(n)) == n
  {
    DigitWorth(n % 16);
    if n >= 16 {
      NumberTextValue(n / 16);
    }
    SnocValue(if n < 16 then "" else NumberText(n / 16), Digit(n % 16));
  }

  /** What a worker prints of its counter is a nonce, and stands for the counter. */
  lemma PrintedNonceIsNonce(counter: U64)
    ensures IsNonce(NonceToHex(counter)) && Value(NonceToHex(counter)) == counter
  {
    var bytes := LittleEndian(counter, 8);
    Pow64();
    BytesRoundTrip(counter, 8);
    TextOfBytes(Reverse(bytes));
    assert Reverse(Reverse(bytes)) == bytes;
  }

  /** A pool is connected afresh, unless it is connected or is the donation pool outside its window. */
  lemma ConnectOpens(s: State, p: nat, now: nat)
    requires Configured(s) && p < |s.pools| && s.pools[p].socket.None?
    ensures Connect(s, p, now).pools[p].socket.Some? <==> (Donates(s, p) ==> now < s.pools[p].until)
  {
  }

  /** A donation window lets listed work in, as long as it lasts. */
  lemma DonationWindowOpens(s: State, until: nat, algo: string, now: nat)
    requires Configured(s) && s.donate.Some?
    ensures DonationSupports(DonationStarts(s, until), s.donate.value, algo, now) <==>
      now < until && algo in s.pools[s.donate.value].params
  {
  }

  /** At its end the miner does not stay on the donation pool. */
  lemma DonationWindowCloses(s: State, now: nat, valid: bool)
    requires Configured(s) && s.donate.Some?
    ensures var r := DonationEnds(s, s.pools[s.donate.value].until, now, valid); !Donates(r, r.active)
  {
    var d := s.donate.value;
    SwitchNeverActivatesDonation(WithPool(s, d, s.pools[d].(until := 0)), d, now, valid);
  }

  /** A soft close happens exactly if the pool has not become active again and has the same connection. */
  lemma SoftCloseIff(s: State, p: nat, socket: nat)
    requires Configured(s) && p < |s.pools| && s.pools[p].socket == Some(socket)
    ensures SoftClose(s, p, socket).pools[p].socket.None? <==> p != s.active
  {
  }

  // ---------- what ends a connection ----------

  /** An error on a pool's current connection ends it, with its job; one on an earlier connection does
      nothing. */
  lemma ErrorDropsPool(s: State, p: nat, socket: nat, now: nat, valid: bool)
    requires Configured(s) && p < |s.pools|
    ensures var r := PoolError(s, p, socket, now, valid);
      if s.pools[p].socket == Some(socket) then r.pools[p].socket.None? && r.pools[p].last.None? else r == s
  {
    if s.pools[p].socket == Some(socket) {
      SwitchLeavesRecord(Clear(s, p), p, now, valid);
    }
  }

  /** Switching gives no job to a pool that has none. */
  lemma SwitchLeavesRecord(s: State, p: nat, now: nat, valid: bool)
    requires Configured(s) && p < |s.pools| && s.pools[p].last.None?
    ensures SwitchPool(s, p, now, valid).pools[p] == s.pools[p]
  {
    ClosingKeepsJobs(s, p);
  }

  /** A job that cannot be used ends the connection it came over. */
  lemma UnusableJobDropsPool(s: State, p: nat, job: Job, now: nat, valid: bool, valid': bool)
    requires Configured(s) && p < |s.pools| && s.pools[p].socket.Some? && DonationSupports(s, p, job.algo, now)
    ensures PoolJob(s, p, job, now, false, valid, valid').pools[p].socket.None?
  {
    ErrorDropsPool(s, p, s.pools[p].socket.value, now, valid');
  }

  /** A job of the active pool that the workers cannot take is an error on that connection. */
  lemma RejectedJobIsError(s: State, p: nat, job: Job, now: nat, valid: bool, valid': bool) returns (u: State)
    requires Configured(s) && p < |s.pools| && s.pools[p].socket.Some? && DonationSupports(s, p, job.algo, now)
    requires Takes(s, p) && !Accepts(job, valid)
    ensures Configured(u) && |u.pools| == |s.pools| && u.pools[p].socket == s.pools[p].socket
    ensures PoolJob(s, p, job, now, true, valid, valid') == PoolError(u, p, s.pools[p].socket.value, now, valid')
  {
    u := SetJob(Stored(s, p, job), p, now, valid);
  }

  /** Donation work outside its window or off its list is not taken: the miner leaves the donation pool,
      or ends its connection if it is not active. */
  lemma UnwantedDonationIsRefused(s: State, p: nat, job: Job, now: nat, usable: bool, valid: bool, valid': bool)
    requires Configured(s) && p < |s.pools| && s.pools[p].socket.Some? && !DonationSupports(s, p, job.algo, now)
    ensures var r := PoolJob(s, p, job, now, usable, valid, valid');
      && !Donates(r, r.active) && (p != s.active ==> r.pools[p].socket.None? && r.active == s.active)
      && r.serials == s.serials
  {
    SwitchNeverActivatesDonation(s, p, now, valid');
  }
}
