/** The JavaScript thread and the compute thread of one worker object, as interleaved steps.
    Each step is one access to something the two threads share: a flag, the message queue, the
    thread-safe function, the thread handle or the callback state.
 */
module AsyncWorker {
  import opened Basics

  /** The messages of the workers' owner; jobs are told apart by a number. */
  datatype Message = Close | Job(id: nat)

  datatype Event = Progress | Complete | Error

  /** Where the JavaScript thread is: between calls, in post, in the destructor, or done. */
  datatype JsPc =
    | Idle
    | PostCheck(m: Message)      // first look at m_accepting
    | PostStart(m: Message)      // compare-exchange on m_started
    | PostCreate(m: Message)     // create the thread-safe function
    | PostSpawn(m: Message)      // create the thread
    | SpawnFailed0 | SpawnFailed1 | SpawnFailed2
    | PostRecheck(m: Message)    // second look at m_accepting
    | PostWrite(m: Message)
    | PostClosed                 // a close was written, m_accepting is cleared next
    | StopStarted | StopStopped | StopExchange | StopWrite | StopJoin
    | StopDone
    | DropFunction | DropCallbacks
    | Destroyed

  /** Where the compute thread is. */
  datatype WorkerPc =
    | NotSpawned
    | Executing(sawClose: bool)
    | Left(terminal: Event)      // Execute returned or threw
    | Queued | Refusing | Stopped | Releasing
    | Finished

  /** The native thread-safe function. */
  datatype Function = Absent | Live | Released

  datatype State = State(
    js: JsPc,
    worker: WorkerPc,
    started: bool,
    stopped: bool,
    accepting: bool,
    queue: seq<Message>,       // fromNode
    sent: seq<Message>,        // everything ever written to fromNode
    taken: seq<Message>,       // everything Execute has drained
    pointer: bool,             // m_tsfn is not null
    function_: Function,
    calls: seq<Event>,         // events the compute thread tried to queue
    misused: bool,             // the function was called or released when not live
    releases: nat,             // how often it was released
    holdsCallbacks: bool,      // m_callbacks owns the callback state
    lentCallbacks: bool,       // the thread-safe function owns it
    freed: nat,                // how often it was freed
    joinable: bool)

  datatype Step =
    | Post(m: Message)
    | Destroy
    | Js(ok: bool)             // the next step of the JavaScript thread; ok is the outcome of a native call
    | StopAgain                // a derived destructor has called stop before
    | Drain | Report | Leave(terminal: Event)
    | Compute                  // the next step of the compute thread after Execute
    | Finalize                 // the runtime frees what a released function owned

  const INITIAL := State(Idle, NotSpawned, false, false, true, [], [], [], false, Absent, [], false, 0,
                         true, false, 0, false)

  /** Queue an event through the thread-safe function. */
  function Call(s: State, e: Event): State {
    s.(calls := s.calls + [e], misused := s.misused || !s.pointer || s.function_ != Live)
  }

  function Release(s: State): State {
    if s.pointer then
      s.(pointer := false, function_ := Released, releases := s.releases + 1,
         misused := s.misused || s.function_ != Live)
    else s
  }

  function Write(s: State, m: Message): State {
    s.(queue := s.queue + [m], sent := s.sent + [m])
  }

  /** The steps of post and start. */
  function PostStep(s: State, ok: bool): Option<State> {
    match s.js
    case PostCheck(m) => Some(s.(js := if s.accepting then PostStart(m) else Idle))
    case PostStart(m) =>
      if s.started then Some(s.(js := PostRecheck(m))) else Some(s.(started := true, js := PostCreate(m)))
    case PostCreate(m) =>
      if ok then
        Some(s.(pointer := true, function_ := Live, holdsCallbacks := false, lentCallbacks := true,
                misused := s.misused || s.function_ != Absent, js := PostSpawn(m)))
      else Some(s.(started := false, js := Idle))
    case PostSpawn(m) =>
      if ok then Some(s.(worker := Executing(false), joinable := true, js := PostRecheck(m)))
      else Some(s.(js := SpawnFailed0))
    case PostRecheck(m) => Some(s.(js := if s.accepting then PostWrite(m) else Idle))
    case PostWrite(m) => Some(Write(s, m).(js := if m == Close then PostClosed else Idle))
    case PostClosed => Some(s.(accepting := false, js := Idle))
    case _ => None
  }

  /** The handler of a failed thread creation. */
  function FailStep(s: State): Option<State> {
    match s.js
    case SpawnFailed0 => Some(s.(accepting := false, js := SpawnFailed1))
    case SpawnFailed1 => Some(s.(stopped := true, js := SpawnFailed2))
    case SpawnFailed2 => Some(Release(s).(js := Idle))
    case _ => None
  }

  /** The steps of stop and of the destructor. */
  function StopStep(s: State): Option<State> {
    match s.js
    case StopStarted => Some(s.(js := if s.started then StopStopped else StopJoin))
    case StopStopped => Some(s.(js := if s.stopped then StopJoin else StopExchange))
    case StopExchange => Some(s.(accepting := false, js := if s.accepting then StopWrite else StopJoin))
    case StopWrite => Some(Write(s, Close).(js := StopJoin))
    case StopJoin =>
      if !s.joinable then Some(s.(js := StopDone))
      else if s.worker == Finished then Some(s.(joinable := false, js := StopDone))
      else None
    case StopDone => Some(s.(js := DropFunction))
    case DropFunction => Some(Release(s).(js := DropCallbacks))
    case DropCallbacks =>
      Some(s.(holdsCallbacks := false, freed := s.freed + (if s.holdsCallbacks then 1 else 0), js := Destroyed))
    case _ => None
  }

  predicate SpawnFailing(js: JsPc) {
    js == SpawnFailed0 || js == SpawnFailed1 || js == SpawnFailed2
  }

  predicate Destroying(js: JsPc) {
    js == StopStarted || js == StopStopped || js == StopExchange || js == StopWrite || js == StopJoin
    || js == StopDone || js == DropFunction || js == DropCallbacks || js == Destroyed
  }

  function JsStep(s: State, ok: bool): Option<State> {
    if Destroying(s.js) then StopStep(s)
    else if SpawnFailing(s.js) then FailStep(s)
    else PostStep(s, ok)
  }

  function WorkerStep(s: State): Option<State> {
    match s.worker
    case Left(e) => Some(Call(s, e).(worker := Queued))
    case Queued => Some(s.(accepting := false, worker := Refusing))
    case Refusing => Some(s.(stopped := true, worker := Stopped))
    case Stopped => Some(Release(s).(worker := Releasing))
    case Releasing => Some(s.(worker := Finished))
    case _ => None
  }

  /** One step; None when it cannot happen now. */
  function Do(s: State, e: Step): Option<State> {
    match e
    case Post(m) => if s.js == Idle then Some(s.(js := PostCheck(m))) else None
    case Destroy => if s.js == Idle then Some(s.(js := StopStarted)) else None
    case Js(ok) => JsStep(s, ok)
    case StopAgain => if s.js == StopDone then Some(s.(js := StopStarted)) else None
    case Drain =>
      if s.worker.Executing? then
        Some(s.(queue := [], taken := s.taken + s.queue, worker := Executing(s.worker.sawClose || Close in s.queue)))
      else None
    case Report => if s.worker.Executing? then Some(Call(s, Progress)) else None
    case Leave(terminal) =>
      if s.worker.Executing? && terminal != Progress then Some(s.(worker := Left(terminal))) else None
    case Compute => WorkerStep(s)
    case Finalize =>
      if s.function_ == Released && s.lentCallbacks then Some(s.(lentCallbacks := false, freed := s.freed + 1))
      else None
  }

  /** The states of one run. */
  ghost predicate Run(states: seq<State>, steps: seq<Step>) {
    && |states| == |steps| + 1 && states[0] == INITIAL
    && forall i :: 0 <= i < |steps| ==> Do(states[i], steps[i]) == Some(states[i + 1])
  }

  // ---------- what always holds ----------

  /** No close but possibly as the last message. */
  ghost predicate CloseOnlyLast(sent: seq<Message>) {
    forall i :: 0 <= i < |sent| - 1 ==> sent[i] != Close
  }

  /** Only progress events, then at the end one terminal event if `ended`. */
  ghost predicate EndsOnce(calls: seq<Event>, ended: bool) {
    && (ended ==> |calls| > 0 && calls[|calls| - 1] != Progress)
    && forall i :: 0 <= i < |calls| - (if ended then 1 else 0) ==> calls[i] == Progress
  }

  predicate Spawned(w: WorkerPc) { w != NotSpawned }

  /** Execute was left and the terminal event was queued. */
  predicate Told(w: WorkerPc) { Spawned(w) && !w.Executing? && !w.Left? }

  predicate PastExecute(w: WorkerPc) { Spawned(w) && !w.Executing? }

  /** Inside post, after the first look at m_accepting and before the message is written. */
  predicate Posting(js: JsPc) {
    js.PostStart? || js.PostCreate? || js.PostSpawn? || js.PostRecheck? || js.PostWrite?
  }

  ghost predicate FunctionInv(s: State) {
    match s.function_
    case Absent =>
      && !s.pointer && !Spawned(s.worker) && !s.js.PostSpawn? && !SpawnFailing(s.js)
      && (s.started ==> s.js.PostCreate?) && (s.js != Destroyed ==> s.holdsCallbacks)
      && !s.stopped
    case Live =>
      && s.pointer && s.started && s.lentCallbacks
      && (if Spawned(s.worker) then s.worker != Releasing && s.worker != Finished
          else s.js.PostSpawn? || SpawnFailing(s.js))
    case Released =>
      && !s.pointer && s.started && s.stopped && !s.accepting
      && (if Spawned(s.worker) then s.worker == Releasing || s.worker == Finished
          else !Posting(s.js))
  }

  ghost predicate FlagsInv(s: State) {
    && (Spawned(s.worker) ==> !s.js.PostCreate? && !s.js.PostSpawn? && !SpawnFailing(s.js))
    && (s.js.PostCreate? ==> s.started && s.function_ == Absent)
    && (Posting(s.js) && !Spawned(s.worker) ==> s.accepting && !s.stopped)
    && (s.js == SpawnFailed1 || s.js == SpawnFailed2 ==> !s.accepting)
    && (s.js == SpawnFailed2 ==> s.stopped)
    && (Spawned(s.worker) && s.stopped ==> s.worker == Stopped || s.worker == Releasing || s.worker == Finished)
    && (!Spawned(s.worker) && s.stopped ==> s.function_ == Released || s.js == SpawnFailed2)
    && (s.worker == Refusing || s.worker == Stopped || s.worker == Releasing || s.worker == Finished ==> !s.accepting)
    && (s.worker == Stopped || s.worker == Releasing || s.worker == Finished ==> s.stopped)
    && (s.joinable ==> Spawned(s.worker))
    && (Spawned(s.worker) && !s.joinable ==> s.worker == Finished)
    && (s.js == StopDone || s.js == DropFunction || s.js == DropCallbacks || s.js == Destroyed ==> !s.joinable)
  }

  ghost predicate CloseInv(s: State) {
    && CloseOnlyLast(s.sent)
    && (Close in s.sent ==> !s.accepting || s.js == PostClosed)
    && (Close in s.sent ==> !Posting(s.js) && s.js != StopWrite)
    && (s.js == PostClosed ==> Close in s.sent)
    && (s.js == StopWrite ==> !s.accepting)
    && (!s.accepting && Spawned(s.worker) && s.js != StopWrite ==> Close in s.sent || PastExecute(s.worker))
    && (s.worker.Executing? && Close in s.sent ==> s.worker.sawClose || Close in s.queue)
    && (s.js == StopJoin && s.joinable ==> Close in s.sent || PastExecute(s.worker))
  }

  ghost predicate OwnerInv(s: State) {
    && (if s.holdsCallbacks then 1 else 0) + (if s.lentCallbacks then 1 else 0) + s.freed == 1
    && (s.js == Destroyed ==> !s.holdsCallbacks)
  }

  ghost predicate Inv(s: State) {
    && FunctionInv(s) && FlagsInv(s) && CloseInv(s) && OwnerInv(s)
    && !s.misused && s.releases == (if s.function_ == Released then 1 else 0)
    && (s.worker.Left? ==> s.worker.terminal != Progress)
    && EndsOnce(s.calls, Told(s.worker)) && (!Spawned(s.worker) ==> s.calls == [])
  }

  /** Creating the thread-safe function and the thread. */
  lemma CreateKeepsInv(s: State, ok: bool, s': State)
    requires Inv(s) && (s.js.PostCreate? || s.js.PostSpawn?) && PostStep(s, ok) == Some(s')
    ensures Inv(s')
  {
    assert FunctionInv(s') && FlagsInv(s');
    assert CloseInv(s');
  }

  lemma WriteKeepsInv(s: State, ok: bool, s': State)
    requires Inv(s) && (s.js.PostWrite? || s.js.PostClosed?) && PostStep(s, ok) == Some(s')
    ensures Inv(s')
  {
    assert FunctionInv(s') && FlagsInv(s');
    assert CloseOnlyLast(s'.sent);
  }

  lemma PostKeepsInv(s: State, ok: bool, s': State)
    requires Inv(s) && PostStep(s, ok) == Some(s')
    requires s.js.PostCheck? || s.js.PostStart? || s.js.PostRecheck?
    ensures Inv(s')
  {
    assert FunctionInv(s') && FlagsInv(s');
    assert CloseInv(s');
  }

  lemma FailKeepsInv(s: State, s': State)
    requires Inv(s) && FailStep(s) == Some(s')
    ensures Inv(s')
  {
  }

  /** Clearing m_accepting and writing the close. */
  lemma CloseKeepsInv(s: State, s': State)
    requires Inv(s) && (s.js == StopExchange || s.js == StopWrite) && StopStep(s) == Some(s')
    ensures Inv(s')
  {
    assert FunctionInv(s') && FlagsInv(s');
    assert CloseOnlyLast(s'.sent);
  }

  lemma StopKeepsInv(s: State, s': State)
    requires Inv(s) && s.js != StopExchange && s.js != StopWrite && StopStep(s) == Some(s')
    ensures Inv(s')
  {
    assert FunctionInv(s') && FlagsInv(s');
    assert CloseInv(s');
  }

  /** Queueing the terminal event. */
  lemma TerminalKeepsInv(s: State, s': State)
    requires Inv(s) && s.worker.Left? && WorkerStep(s) == Some(s')
    ensures Inv(s')
  {
    assert FunctionInv(s') && FlagsInv(s') && CloseInv(s');
  }

  lemma WorkerKeepsInv(s: State, s': State)
    requires Inv(s) && !s.worker.Left? && WorkerStep(s) == Some(s')
    ensures Inv(s')
  {
    assert FunctionInv(s') && FlagsInv(s');
    assert CloseInv(s');
  }

  lemma OtherKeepsInv(s: State, e: Step, s': State)
    requires Inv(s) && Do(s, e) == Some(s') && !e.Js? && !e.Compute?
    ensures Inv(s')
  {
    match e
    case Post(m) =>
    case Destroy =>
    case StopAgain =>
    case Drain =>
    case Report =>
    case Leave(t) =>
    case Finalize =>
    case _ =>
  }

  lemma DoKeepsInv(s: State, e: Step, s': State)
    requires Inv(s) && Do(s, e) == Some(s')
    ensures Inv(s')
  {
    match e
    case Js(ok) =>
      if Destroying(s.js) {
        if s.js == StopExchange || s.js == StopWrite {
          CloseKeepsInv(s, s');
        } else {
          StopKeepsInv(s, s');
        }
      } else if SpawnFailing(s.js) {
        FailKeepsInv(s, s');
      } else {
        if s.js.PostCreate? || s.js.PostSpawn? {
          CreateKeepsInv(s, ok, s');
        } else if s.js.PostWrite? || s.js.PostClosed? {
          WriteKeepsInv(s, ok, s');
        } else {
          PostKeepsInv(s, ok, s');
        }
      }
    case Compute =>
      if s.worker.Left? {
        TerminalKeepsInv(s, s');
      } else {
        WorkerKeepsInv(s, s');
      }
    case _ => OtherKeepsInv(s, e, s');
  }

  lemma {:induction false} RunInv(states: seq<State>, steps: seq<Step>, i: nat)
    requires Run(states, steps) && i < |states|
    ensures Inv(states[i])
  {
    if i > 0 {
      RunInv(states, steps, i - 1);
      DoKeepsInv(states[i - 1], steps[i - 1], states[i]);
    }
  }

  // ---------- what the protocol promises, for every interleaving ----------

  /** At most one close is written, and nothing after it. */
  lemma CloseIsLast(states: seq<State>, steps: seq<Step>, i: nat, k: nat)
    requires Run(states, steps) && i < |states|
    requires k < |states[i].sent| && states[i].sent[k] == Close
    ensures k == |states[i].sent| - 1
  {
    RunInv(states, steps, i);
  }

  /** A compute thread that has finished queued exactly one terminal event, as its last event. */
  lemma OneTerminalEventLast(states: seq<State>, steps: seq<Step>, i: nat, k: nat)
    requires Run(states, steps) && i < |states| && k < |states[i].calls|
    ensures states[i].calls[k] != Progress ==> k == |states[i].calls| - 1
    ensures states[i].worker == Finished && k == |states[i].calls| - 1 ==> states[i].calls[k] != Progress
  {
    RunInv(states, steps, i);
  }

  lemma FinishedHasTold(states: seq<State>, steps: seq<Step>, i: nat)
    requires Run(states, steps) && i < |states| && states[i].worker == Finished
    ensures states[i].calls != []
  {
    RunInv(states, steps, i);
  }

  /** The thread-safe function is only called, and only released, while it is live: it is
      released at most once and never used afterwards. */
  lemma FunctionUsedWhileLive(states: seq<State>, steps: seq<Step>, i: nat)
    requires Run(states, steps) && i < |states|
    ensures !states[i].misused && states[i].releases <= 1
    ensures states[i].worker == Finished ==> states[i].releases == 1
  {
    RunInv(states, steps, i);
  }

  /** The callback state has one owner until it is freed, and it is freed once; after the
      destructor and the runtime's finalizer it has been. */
  lemma CallbacksOwnedOnce(states: seq<State>, steps: seq<Step>, i: nat)
    requires Run(states, steps) && i < |states|
    ensures var s := states[i];
      && !(s.holdsCallbacks && s.lentCallbacks)
      && (s.freed == 0 <==> s.holdsCallbacks || s.lentCallbacks)
      && s.freed <= 1
      && (s.js == Destroyed && !s.lentCallbacks ==> s.freed == 1)
  {
    RunInv(states, steps, i);
  }

  /** Whenever the destructor waits for the thread, a close is on its way or Execute was left. */
  lemma JoinHasReason(states: seq<State>, steps: seq<Step>, i: nat)
    requires Run(states, steps) && i < |states|
    requires states[i].js == StopJoin && states[i].joinable
    ensures Close in states[i].sent || PastExecute(states[i].worker)
  {
    RunInv(states, steps, i);
  }

  /** After the join the compute thread never runs again. */
  lemma NoThreadAfterJoin(states: seq<State>, steps: seq<Step>, i: nat)
    requires Run(states, steps) && i < |states|
    requires states[i].js == DropFunction || states[i].js == DropCallbacks || states[i].js == Destroyed
    ensures states[i].worker == NotSpawned || states[i].worker == Finished
  {
    RunInv(states, steps, i);
  }

  // ---------- what is posted is sent, and what is sent is received ----------

  predicate SameMessages(s: State, s': State) {
    s'.sent == s.sent && s'.queue == s.queue && s'.taken == s.taken
  }

  predicate Quiet(s: State, s': State) {
    SameMessages(s, s') && s'.calls == s.calls
  }

  predicate Wrote(s: State, s': State, m: Message) {
    s'.sent == s.sent + [m] && s'.queue == s.queue + [m] && s'.taken == s.taken && s'.calls == s.calls
  }

  lemma FailBegins(s: State, s': State)
    requires FailStep(s) == Some(s') && s.js != SpawnFailed2
    ensures Quiet(s, s') && SpawnFailing(s'.js)
  {
  }

  lemma FailEnds(s: State, s': State)
    requires FailStep(s) == Some(s') && s.js == SpawnFailed2
    ensures Quiet(s, s') && s'.js == Idle
  {
  }

  /** The looks of a post: m_accepting decides twice, and m_started whether a thread is created. */
  lemma PostLooks(s: State, ok: bool, s': State)
    requires PostStep(s, ok) == Some(s') && (s.js.PostCheck? || s.js.PostStart? || s.js.PostRecheck?)
    ensures Quiet(s, s')
    ensures s'.accepting == s.accepting
    ensures s.js.PostCheck? ==> s'.js == if s.accepting then PostStart(s.js.m) else Idle
    ensures s.js.PostStart? ==> s'.js == if s.started then PostRecheck(s.js.m) else PostCreate(s.js.m)
    ensures s.js.PostRecheck? ==> s'.js == if s.accepting then PostWrite(s.js.m) else Idle
  {
    var m := s.js.m;
    if s.js.PostCheck? {
      assert s' == s.(js := if s.accepting then PostStart(m) else Idle);
    } else if s.js.PostStart? {
      assert s' == if s.started then s.(js := PostRecheck(m)) else s.(started := true, js := PostCreate(m));
    } else {
      assert s' == s.(js := if s.accepting then PostWrite(m) else Idle);
    }
  }

  lemma PostCreates(s: State, ok: bool, s': State)
    requires PostStep(s, ok) == Some(s') && (s.js.PostCreate? || s.js.PostSpawn?)
    ensures Quiet(s, s')
    ensures s'.accepting == s.accepting
    ensures s.js.PostCreate? ==> s'.js == if ok then PostSpawn(s.js.m) else Idle
    ensures s.js.PostSpawn? ==> s'.js == if ok then PostRecheck(s.js.m) else SpawnFailed0
  {
  }

  lemma PostWrites(s: State, ok: bool, s': State)
    requires PostStep(s, ok) == Some(s') && (s.js.PostWrite? || s.js.PostClosed?)
    ensures if s.js.PostWrite? then Wrote(s, s', s.js.m) else Quiet(s, s')
    ensures s'.js == if s.js == PostWrite(Close) then PostClosed else Idle
  {
  }

  lemma StopLooks(s: State, s': State)
    requires StopStep(s) == Some(s') && (s.js == StopStarted || s.js == StopStopped || s.js == StopExchange)
    ensures Quiet(s, s')
  {
  }

  lemma StopWrites(s: State, s': State)
    requires StopStep(s) == Some(s') && s.js == StopWrite
    ensures Wrote(s, s', Close)
  {
  }

  lemma StopJoins(s: State, s': State)
    requires StopStep(s) == Some(s') && (s.js == StopJoin || s.js == StopDone)
    ensures Quiet(s, s')
  {
  }

  lemma StopDrops(s: State, s': State)
    requires StopStep(s) == Some(s') && (s.js == DropFunction || s.js == DropCallbacks)
    ensures Quiet(s, s')
  {
  }

  predicate JsSent(s: State, s': State) {
    if s.js.PostWrite? then Wrote(s, s', s.js.m)
    else if s.js == StopWrite then Wrote(s, s', Close) else Quiet(s, s')
  }

  /** The end of a post sends its message, stop its close, and no other step anything. */
  lemma JsSends(s: State, ok: bool, s': State)
    requires JsStep(s, ok) == Some(s')
    ensures JsSent(s, s')
  {
    if s.js == StopStarted || s.js == StopStopped || s.js == StopExchange {
      StopLooks(s, s');
    } else if s.js == StopWrite {
      StopWrites(s, s');
    } else if s.js == StopJoin || s.js == StopDone {
      StopJoins(s, s');
    } else if s.js == DropFunction || s.js == DropCallbacks {
      StopDrops(s, s');
    } else if s.js == SpawnFailed2 {
      FailEnds(s, s');
    } else if SpawnFailing(s.js) {
      FailBegins(s, s');
    } else if s.js.PostCreate? || s.js.PostSpawn? {
      PostCreates(s, ok, s');
    } else if s.js.PostWrite? || s.js.PostClosed? {
      PostWrites(s, ok, s');
    } else {
      PostLooks(s, ok, s');
    }
  }

  lemma TerminalTells(s: State, s': State)
    requires WorkerStep(s) == Some(s') && s.worker.Left?
    ensures s' == Call(s, s.worker.terminal).(worker := Queued)
  {
  }

  lemma UnwindingIsQuiet(s: State, s': State)
    requires WorkerStep(s) == Some(s') && !s.worker.Left?
    ensures Quiet(s, s') && s'.js == s.js
  {
    if s.worker == Stopped {
      assert s' == Release(s).(worker := Releasing);
    }
  }

  lemma OthersAreQuiet(s: State, e: Step, s': State)
    requires Do(s, e) == Some(s') && !e.Js? && !e.Compute? && !e.Drain?
    ensures SameMessages(s, s') && s'.calls == if e == Report then s.calls + [Progress] else s.calls
    ensures s.js != Idle && s.js != StopDone ==> s'.js == s.js
  {
    match e
    case Post(m) =>
    case Destroy =>
    case StopAgain =>
    case Report =>
    case Leave(t) =>
    case Finalize =>
    case _ =>
  }

  /** The compute thread tells of progress when Execute reports, and of the end when it was left; no
      step but those of the JavaScript thread sends, and only draining takes anything. */
  lemma OtherShows(s: State, e: Step, s': State)
    requires Do(s, e) == Some(s') && !e.Js? && e != Drain
    ensures SameMessages(s, s')
    ensures e == Report ==> s'.calls == s.calls + [Progress]
    ensures e == Compute && s.worker.Left? ==> s'.calls == s.calls + [s.worker.terminal]
    ensures e != Report && !(e == Compute && s.worker.Left?) ==> s'.calls == s.calls
  {
    if e == Compute && s.worker.Left? {
      TerminalTells(s, s');
    } else if e == Compute {
      UnwindingIsQuiet(s, s');
    } else {
      OthersAreQuiet(s, e, s');
    }
  }

  lemma DrainTakes(s: State, s': State)
    requires Do(s, Drain) == Some(s')
    ensures s'.sent == s.sent && s'.calls == s.calls && s'.js == s.js
    ensures s'.taken == s.taken + s.queue && s'.queue == []
  {
  }

  predicate Conserved(s: State) { s.taken + s.queue == s.sent }

  lemma WriteConserves(s: State, s': State, m: Message)
    requires Conserved(s) && s'.taken == s.taken && s'.queue == s.queue + [m] && s'.sent == s.sent + [m]
    ensures Conserved(s')
  {
    assert s.taken + (s.queue + [m]) == (s.taken + s.queue) + [m];
  }

  lemma JsConserves(s: State, s': State)
    requires Conserved(s) && JsSent(s, s')
    ensures Conserved(s')
  {
    if s.js.PostWrite? {
      WriteConserves(s, s', s.js.m);
    } else if s.js == StopWrite {
      WriteConserves(s, s', Close);
    }
  }

  lemma StepConserves(s: State, e: Step, s': State)
    requires Conserved(s) && Do(s, e) == Some(s')
    ensures Conserved(s')
  {
    if e.Js? {
      JsSends(s, e.ok, s');
      JsConserves(s, s');
    } else if e == Drain {
      DrainTakes(s, s');
    } else {
      OtherShows(s, e, s');
    }
  }

  /** Over every run: what Execute has taken, and then what is queued, is what was sent, in order. */
  lemma {:induction false} NothingLost(states: seq<State>, steps: seq<Step>, i: nat)
    requires Run(states, steps) && i < |states|
    ensures Conserved(states[i])
  {
    if i > 0 {
      NothingLost(states, steps, i - 1);
      StepConserves(states[i - 1], steps[i - 1], states[i]);
    }
  }

  /** The second look of a post at m_accepting finds it set. */
  predicate Passes(s: State, e: Step, m: Message) {
    e.Js? && s.js == PostRecheck(m) && s.accepting
  }

  /** Where a post of m can be before its second look, or before it writes. */
  predicate Underway(js: JsPc, m: Message, passed: bool) {
    if passed then js == PostWrite(m)
    else SpawnFailing(js) || (Posting(js) && js.m == m && !js.PostWrite?) || js == PostCheck(m)
  }

  /** A post of m is underway, or is over or about to clear m_accepting. */
  predicate PostOf(js: JsPc, m: Message, passed: bool) {
    Underway(js, m, passed) || js == Idle || (js == PostClosed && m == Close && passed)
  }

  /** The post of m that was begun when `sent` had been sent: its message is sent once it is over,
      exactly if it passed. */
  predicate Posted(s: State, m: Message, sent: seq<Message>, passed: bool) {
    PostOf(s.js, m, passed) && s.sent == sent + if passed && !Underway(s.js, m, passed) then [m] else []
  }

  lemma StaysPut(s: State, e: Step, s': State)
    requires Do(s, e) == Some(s') && !e.Js? && s.js != Idle && s.js != StopDone
    ensures s'.js == s.js && s'.sent == s.sent
  {
    if e == Compute && s.worker.Left? {
      TerminalTells(s, s');
    } else if e == Compute {
      UnwindingIsQuiet(s, s');
    } else if e == Drain {
      DrainTakes(s, s');
    } else {
      OthersAreQuiet(s, e, s');
    }
  }

  lemma PostLooksOn(s: State, e: Step, s': State, m: Message, sent: seq<Message>, passed: bool)
    requires Do(s, e) == Some(s') && Posted(s, m, sent, passed) && e.Js?
    requires s.js.PostCheck? || s.js.PostStart? || s.js.PostRecheck?
    ensures Posted(s', m, sent, passed || Passes(s, e, m))
  {
    PostLooks(s, e.ok, s');
  }

  lemma PostCreatesOn(s: State, e: Step, s': State, m: Message, sent: seq<Message>, passed: bool)
    requires Do(s, e) == Some(s') && Posted(s, m, sent, passed) && e.Js?
    requires s.js.PostCreate? || s.js.PostSpawn?
    ensures Posted(s', m, sent, passed || Passes(s, e, m))
  {
    PostCreates(s, e.ok, s');
  }

  lemma PostWritesOn(s: State, e: Step, s': State, m: Message, sent: seq<Message>, passed: bool)
    requires Do(s, e) == Some(s') && Posted(s, m, sent, passed) && e.Js?
    requires s.js.PostWrite? || s.js.PostClosed?
    ensures Posted(s', m, sent, passed || Passes(s, e, m))
  {
    PostWrites(s, e.ok, s');
  }

  lemma PostFailsOn(s: State, e: Step, s': State, m: Message, sent: seq<Message>, passed: bool)
    requires Do(s, e) == Some(s') && Posted(s, m, sent, passed) && e.Js? && SpawnFailing(s.js)
    requires s.js != SpawnFailed2
    ensures Posted(s', m, sent, passed || Passes(s, e, m))
  {
    FailBegins(s, s');
  }

  lemma PostFailed(s: State, e: Step, s': State, m: Message, sent: seq<Message>, passed: bool)
    requires Do(s, e) == Some(s') && Posted(s, m, sent, passed) && e.Js? && s.js == SpawnFailed2
    ensures Posted(s', m, sent, passed || Passes(s, e, m))
  {
    FailEnds(s, s');
  }

  lemma PostWaits(s: State, e: Step, s': State, m: Message, sent: seq<Message>, passed: bool)
    requires Do(s, e) == Some(s') && Posted(s, m, sent, passed) && !e.Js? && s.js != Idle
    ensures Posted(s', m, sent, passed || Passes(s, e, m))
  {
    StaysPut(s, e, s');
  }

  lemma PostGoesOn(s: State, e: Step, s': State, m: Message, sent: seq<Message>, passed: bool)
    requires Do(s, e) == Some(s') && Posted(s, m, sent, passed) && s.js != Idle
    ensures Posted(s', m, sent, passed || Passes(s, e, m))
  {
    if !e.Js? {
      PostWaits(s, e, s', m, sent, passed);
    } else if s.js == SpawnFailed2 {
      PostFailed(s, e, s', m, sent, passed);
    } else if SpawnFailing(s.js) {
      PostFailsOn(s, e, s', m, sent, passed);
    } else if s.js.PostCreate? || s.js.PostSpawn? {
      PostCreatesOn(s, e, s', m, sent, passed);
    } else if s.js.PostWrite? || s.js.PostClosed? {
      PostWritesOn(s, e, s', m, sent, passed);
    } else {
      PostLooksOn(s, e, s', m, sent, passed);
    }
  }

  /** One of the looks from i on, before j, passes. */
  predicate PassedBetween(states: seq<State>, steps: seq<Step>, m: Message, i: nat, j: nat)
    requires |states| == |steps| + 1 && i <= j <= |steps|
    decreases j
  {
    i < j && (Passes(states[j - 1], steps[j - 1], m) || PassedBetween(states, steps, m, i, j - 1))
  }

  predicate Follows(states: seq<State>, steps: seq<Step>, i: nat)
    requires |states| == |steps| + 1 && i < |steps|
  {
    Do(states[i], steps[i]) == Some(states[i + 1])
  }

  ghost predicate Moving(states: seq<State>, steps: seq<Step>) {
    |states| == |steps| + 1 && forall i: nat :: i < |steps| ==> Follows(states, steps, i)
  }

  lemma PostedNext(states: seq<State>, steps: seq<Step>, m: Message, i: nat, j: nat)
    requires Moving(states, steps) && i < j <= |steps| && states[j - 1].js != Idle
    requires Posted(states[j - 1], m, states[i].sent, PassedBetween(states, steps, m, i, j - 1))
    ensures Posted(states[j], m, states[i].sent, PassedBetween(states, steps, m, i, j))
  {
    var before := PassedBetween(states, steps, m, i, j - 1);
    assert Follows(states, steps, j - 1);
    PostGoesOn(states[j - 1], steps[j - 1], states[j], m, states[i].sent, before);
  }

  lemma PostedFirst(states: seq<State>, steps: seq<Step>, m: Message, i: nat)
    requires Moving(states, steps) && i < |steps| && steps[i] == Post(m)
    ensures Posted(states[i + 1], m, states[i].sent, PassedBetween(states, steps, m, i, i + 1))
  {
    assert Follows(states, steps, i);
    PostStarts(states[i], m, states[i + 1]);
    assert !Passes(states[i], steps[i], m);
  }

  lemma {:induction false} PostedSoFar(states: seq<State>, steps: seq<Step>, m: Message, i: nat, j: nat)
    requires Moving(states, steps) && i < j <= |steps| && steps[i] == Post(m)
    requires forall k :: i < k < j ==> states[k].js != Idle
    ensures Posted(states[j], m, states[i].sent, PassedBetween(states, steps, m, i, j))
  {
    if j == i + 1 {
      PostedFirst(states, steps, m, i);
    } else {
      PostedSoFar(states, steps, m, i, j - 1);
      PostedNext(states, steps, m, i, j);
    }
  }

  lemma PostStarts(s: State, m: Message, s': State)
    requires Do(s, Post(m)) == Some(s')
    ensures Posted(s', m, s.sent, false)
  {
  }

  /** Whatever the compute thread does meanwhile: when a post is over, its message has been sent, once
      and alone, exactly if it found m_accepting set at its second look. */
  lemma PostSendsIff(states: seq<State>, steps: seq<Step>, m: Message, i: nat, j: nat)
    requires Run(states, steps) && i < j <= |steps| && steps[i] == Post(m)
    requires states[j].js == Idle && forall k :: i < k < j ==> states[k].js != Idle
    ensures states[j].sent == states[i].sent + if PassedBetween(states, steps, m, i, j) then [m] else []
  {
    assert Moving(states, steps);
    PostedSoFar(states, steps, m, i, j);
  }

  /** The JavaScript thread can go on by itself from s to t, n steps on, if native calls succeed. */
  predicate GoesTo(s: State, n: nat, t: State)
    decreases n
  {
    if n == 0 then t == s else var r := JsStep(s, true); r.Some? && GoesTo(r.value, n - 1, t)
  }

  lemma Onward(s: State, r: State, n: nat, t: State)
    requires JsStep(s, true) == Some(r) && GoesTo(r, n, t)
    ensures GoesTo(s, n + 1, t)
  {
  }

  lemma SecondLookSends(s: State) returns (t: State)
    requires s.js.PostRecheck? && s.accepting
    ensures GoesTo(s, 2, t) && t.sent == s.sent + [s.js.m]
  {
    var r := PostStep(s, true).value;
    PostLooks(s, true, r);
    t := PostStep(r, true).value;
    PostWrites(r, true, t);
    Onward(r, t, 0, t);
    Onward(s, r, 1, t);
  }

  lemma StartSends(s: State) returns (t: State, n: nat)
    requires s.js.PostStart? && s.accepting
    ensures n <= 5 && GoesTo(s, n, t) && t.sent == s.sent + [s.js.m]
  {
    var r := PostStep(s, true).value;
    PostLooks(s, true, r);
    if s.started {
      t := SecondLookSends(r);
      Onward(s, r, 2, t);
      n := 3;
    } else {
      var u := PostStep(r, true).value;
      PostCreates(r, true, u);
      var v := PostStep(u, true).value;
      PostCreates(u, true, v);
      t := SecondLookSends(v);
      Onward(u, v, 2, t);
      Onward(r, u, 3, t);
      Onward(s, r, 4, t);
      n := 5;
    }
  }

  /** A post on a worker that accepts, and goes on doing so, is sent within seven steps of its own, the
      creation of the thread included. */
  lemma AcceptedPostIsSent(s: State, m: Message) returns (r: State, t: State, n: nat)
    requires s.js == Idle && s.accepting
    ensures Do(s, Post(m)) == Some(r) && n <= 6 && GoesTo(r, n, t) && t.sent == s.sent + [m]
  {
    r := s.(js := PostCheck(m));
    var u := PostStep(r, true).value;
    PostLooks(r, true, u);
    t, n := StartSends(u);
    Onward(r, u, n, t);
    n := n + 1;
  }

  /** While Execute runs and no close was sent, m_accepting is set. */
  lemma AcceptsUntilClosed(states: seq<State>, steps: seq<Step>, i: nat)
    requires Run(states, steps) && i < |states|
    requires Close !in states[i].sent && states[i].worker.Executing? && states[i].js != StopWrite
    ensures states[i].accepting
  {
    RunInv(states, steps, i);
  }

  // ---------- the join never deadlocks ----------

  /** Steps left for the compute thread once it does nothing but react to the close. */
  function StepsLeft(s: State): nat {
    match s.worker
    case Executing(saw) => if saw then 6 else 7
    case Left(_) => 5
    case Queued => 4
    case Refusing => 3
    case Stopped => 2
    case Releasing => 1
    case _ => 0
  }

  /** What a compute thread does that leaves Execute once it has drained a close. */
  function Obedient(s: State): Step {
    match s.worker
    case Executing(saw) => if saw then Leave(Complete) else Drain
    case _ => Compute
  }

  /** While the join waits, the compute thread can take its next step, and gets closer. */
  lemma ObedientStep(s: State) returns (t: State)
    requires Inv(s) && s.js == StopJoin && s.joinable && s.worker != Finished
    ensures Do(s, Obedient(s)) == Some(t)
    ensures Inv(t) && t.js == StopJoin && StepsLeft(t) < StepsLeft(s)
  {
    t := Do(s, Obedient(s)).value;
    DoKeepsInv(s, Obedient(s), t);
  }

  lemma JoinNow(s: State) returns (t: State)
    requires s.js == StopJoin && (!s.joinable || s.worker == Finished)
    ensures Do(s, Js(true)) == Some(t) && t.js == StopDone
  {
    t := StopStep(s).value;
  }

  /** Each state goes to the next one by the step between them. */
  ghost predicate Linked(states: seq<State>, steps: seq<Step>) {
    |states| == |steps| + 1 && forall i :: 0 <= i < |steps| ==> Do(states[i], steps[i]) == Some(states[i + 1])
  }

  lemma LinkFirst(s: State, e: Step, states: seq<State>, steps: seq<Step>)
    requires Linked(states, steps) && Do(s, e) == Some(states[0])
    ensures Linked([s] + states, [e] + steps)
  {
    var r, f := [s] + states, [e] + steps;
    forall i | 0 <= i < |f|
      ensures Do(r[i], f[i]) == Some(r[i + 1])
    {
      if i > 0 {
        assert Do(states[i - 1], steps[i - 1]) == Some(states[i]);
      }
    }
  }

  /** In every reachable waiting state the compute thread can go on, by draining the close,
      leaving Execute and unwinding, until the join returns. */
  lemma {:induction false} JoinReturns(s: State) returns (states: seq<State>, steps: seq<Step>)
    requires Inv(s) && s.js == StopJoin
    ensures Linked(states, steps) && states[0] == s && states[|states| - 1].js == StopDone
    ensures |steps| <= StepsLeft(s) + 1
    decreases StepsLeft(s)
  {
    if !s.joinable || s.worker == Finished {
      var t := JoinNow(s);
      states, steps := [s, t], [Js(true)];
    } else {
      var t := ObedientStep(s);
      var states', steps' := JoinReturns(t);
      LinkFirst(s, Obedient(s), states', steps');
      states, steps := [s] + states', [Obedient(s)] + steps';
    }
  }

  /** So no run that has reached the join is stuck there. */
  lemma WaitingRunGoesOn(states: seq<State>, steps: seq<Step>) returns (onward: seq<State>, moves: seq<Step>)
    requires Run(states, steps) && states[|states| - 1].js == StopJoin
    ensures Linked(onward, moves) && onward[0] == states[|states| - 1] && |moves| <= 8
    ensures onward[|onward| - 1].js == StopDone
  {
    RunInv(states, steps, |states| - 1);
    onward, moves := JoinReturns(states[|states| - 1]);
  }
}
