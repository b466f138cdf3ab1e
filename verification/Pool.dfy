/** The worker pool of mnet_run as a transition system: one accept thread, a fixed set of workers,
    a mutex, two condition variables and an asynchronous stop request.

    Every critical section of the C code is one atomic event.  A thread that calls cond_wait
    falls asleep; a signal, a broadcast or a spurious wakeup makes it recheck its loop condition
    in a later critical section. */
module Pool {
  import opened Bytes

  /** A connection is named by its position in accept order. */
  type Conn = nat

  const DEFAULT_CAPACITY := 128

  datatype Config = Config(workers: nat, maxConnections: int) {
    predicate Valid() { workers >= 1 }

    function Capacity(): nat {
      if maxConnections > 0 then maxConnections else DEFAULT_CAPACITY
    }
  }

  datatype Worker =
    | Ready                 // about to enter the critical section of mnet_pool_pop
    | Asleep                // in cond_wait(not_empty), not signalled
    | Woken                 // signalled or spuriously woken, about to recheck
    | Serving(conn: Conn)   // in mnet_handle_client / mnet_close
    | Leaving               // closed its connection, about to decrement active_connections
    | Exited

  datatype Acceptor =
    | Looping                           // about to test app->running
    | Accepting                         // blocked in accept()
    | Accepted(conn: Conn)              // about to read active_connections
    | Comparing(conn: Conn, seen: int)  // compares the value it read with the limit
    | Admitted(conn: Conn)              // about to increment active_connections
    | Pushing(conn: Conn)               // about to (re)enter the critical section of mnet_pool_push
    | PushAsleep(conn: Conn)            // in cond_wait(not_full), not signalled
    | PushFailed(conn: Conn)            // mnet_pool_push returned -1, about to decrement
    | Discarding(conn: Conn)            // about to close the refused connection
    | Stopping                          // about to enter mnet_pool_shutdown
    | Joining(next: nat)                // after the broadcast, joining worker `next`
    | Draining
    | Returned

  /** A connection closed at the limit, and the value of active_connections it was compared with. */
  datatype Refusal = Refusal(conn: Conn, seen: int)

  datatype State = State(
    workers: seq<Worker>,
    acceptor: Acceptor,
    queue: seq<Conn>,
    shuttingDown: bool,
    running: bool,
    active: int,
    // history
    accepted: nat,
    pushed: seq<Conn>,
    popped: seq<Conn>,
    closed: seq<Conn>,
    refused: seq<Refusal>)

  function Init(cfg: Config): State {
    State(seq(cfg.workers, i => Ready), Looping, [], false, true, 0, 0, [], [], [], [])
  }

  // ---------------------------------------------------------------- critical sections

  datatype PushOutcome = PushWaits | PushRefused | PushQueued
  datatype PopOutcome = PopWaits | PopFinished | PopTook(conn: Conn)

  /** What the ring holds and the shutdown flag: the part of mnet_pool_t that push and pop touch. */
  datatype Shared = Shared(queue: seq<Conn>, shuttingDown: bool)

  /** One pass through mnet_pool_push, from holding the mutex to waiting or unlocking. */
  function PushSection(sh: Shared, capacity: nat, conn: Conn, running: bool): (Shared, PushOutcome) {
    if |sh.queue| == capacity && !sh.shuttingDown then
      if running then (sh, PushWaits) else (sh.(shuttingDown := true), PushRefused)
    else if sh.shuttingDown then (sh, PushRefused)
    else (sh.(queue := sh.queue + [conn]), PushQueued)
  }

  /** One pass through mnet_pool_pop. */
  function PopSection(sh: Shared): (Shared, PopOutcome) {
    if sh.queue != [] then (sh.(queue := sh.queue[1..]), PopTook(sh.queue[0]))
    else if sh.shuttingDown then (sh, PopFinished)
    else (sh, PopWaits)
  }

  // ---------------------------------------------------------------- events

  datatype Event =
    | TestRunning
    | AcceptReturns
    | AcceptInterrupted
    | AcceptFails
    | ReadActive
    | Compare
    | CountIn
    | Push(wake: Option<nat>)   // the sleeping worker that cond_signal(not_empty) picks, if any
    | CountOut
    | Discard
    | Broadcast
    | Join
    | Drain
    | Pop(worker: nat)
    | Serve(worker: nat)
    | Leave(worker: nat)
    | SpuriousWakeup(worker: nat)
    | SpuriousPushWakeup
    | StopRequest               // sig_handler or mnet_stop clears app->running

  /** The steps the threads take by themselves: no outside stop request, no spurious wakeup. */
  predicate ThreadStep(e: Event) {
    !e.StopRequest? && !e.SpuriousWakeup? && !e.SpuriousPushWakeup?
  }

  predicate SomeAsleep(ws: seq<Worker>) {
    exists i :: 0 <= i < |ws| && ws[i].Asleep?
  }

  predicate Enabled(cfg: Config, s: State, e: Event) {
    match e
    case TestRunning => s.acceptor.Looping?
    case AcceptReturns => s.acceptor.Accepting?
    case AcceptInterrupted => s.acceptor.Accepting?
    case AcceptFails => s.acceptor.Accepting?
    case ReadActive => s.acceptor.Accepted?
    case Compare => s.acceptor.Comparing?
    case CountIn => s.acceptor.Admitted?
    case Push(wake) =>
      && s.acceptor.Pushing?
      && var queued := PushSection(Shared(s.queue, s.shuttingDown), cfg.Capacity(), s.acceptor.conn, s.running).1.PushQueued?;
      && (wake.Some? <==> queued && SomeAsleep(s.workers))
      && (wake.Some? ==> wake.value < |s.workers| && s.workers[wake.value].Asleep?)
    case CountOut => s.acceptor.PushFailed?
    case Discard => s.acceptor.Discarding?
    case Broadcast => s.acceptor.Stopping?
    case Join =>
      s.acceptor.Joining? &&
      (s.acceptor.next < |s.workers| ==> s.workers[s.acceptor.next].Exited?)
    case Drain => s.acceptor.Draining?
    case Pop(i) => i < |s.workers| && (s.workers[i].Ready? || s.workers[i].Woken?)
    case Serve(i) => i < |s.workers| && s.workers[i].Serving?
    case Leave(i) => i < |s.workers| && s.workers[i].Leaving?
    case SpuriousWakeup(i) => i < |s.workers| && s.workers[i].Asleep?
    case SpuriousPushWakeup => s.acceptor.PushAsleep?
    case StopRequest => true
  }

  function WakeAll(ws: seq<Worker>): seq<Worker> {
    seq(|ws|, i requires 0 <= i < |ws| => if ws[i].Asleep? then Woken else ws[i])
  }

  /** cond_signal(not_full): only the accept thread ever waits on it. */
  function SignalNotFull(a: Acceptor): Acceptor {
    if a.PushAsleep? then Pushing(a.conn) else a
  }

  function Apply(cfg: Config, s: State, e: Event): State
    requires Enabled(cfg, s, e)
  {
    match e
    case TestRunning => s.(acceptor := if s.running then Accepting else Stopping)
    case AcceptReturns => s.(acceptor := Accepted(s.accepted), accepted := s.accepted + 1)
    case AcceptInterrupted => s.(acceptor := Looping)
    case AcceptFails => s.(acceptor := Stopping)
    case ReadActive => s.(acceptor := Comparing(s.acceptor.conn, s.active))
    case Compare =>
      if cfg.maxConnections > 0 && s.acceptor.seen >= cfg.maxConnections then
        s.(acceptor := Looping,
           closed := s.closed + [s.acceptor.conn],
           refused := s.refused + [Refusal(s.acceptor.conn, s.acceptor.seen)])
      else
        s.(acceptor := Admitted(s.acceptor.conn))
    case CountIn => s.(acceptor := Pushing(s.acceptor.conn), active := s.active + 1)
    case Push(wake) =>
      var c := s.acceptor.conn;
      var (sh, outcome) := PushSection(Shared(s.queue, s.shuttingDown), cfg.Capacity(), c, s.running);
      var s1 := s.(queue := sh.queue, shuttingDown := sh.shuttingDown);
      (match outcome
       case PushWaits => s1.(acceptor := PushAsleep(c))
       case PushRefused => s1.(acceptor := PushFailed(c))
       case PushQueued =>
         s1.(acceptor := Looping,
             pushed := s.pushed + [c],
             workers := if wake.Some? then s.workers[wake.value := Woken] else s.workers))
    case CountOut => s.(acceptor := Discarding(s.acceptor.conn), active := s.active - 1)
    case Discard => s.(acceptor := Stopping, closed := s.closed + [s.acceptor.conn])
    case Broadcast => s.(acceptor := Joining(0), shuttingDown := true, workers := WakeAll(s.workers))
    case Join =>
      s.(acceptor := if s.acceptor.next < |s.workers| then Joining(s.acceptor.next + 1) else Draining)
    case Drain =>
      if s.queue != [] then s.(queue := s.queue[1..], closed := s.closed + [s.queue[0]])
      else s.(acceptor := Returned)
    case Pop(i) =>
      var (sh, outcome) := PopSection(Shared(s.queue, s.shuttingDown));
      (match outcome
       case PopWaits => s.(workers := s.workers[i := Asleep])
       case PopFinished => s.(workers := s.workers[i := Exited])
       case PopTook(c) =>
         s.(workers := s.workers[i := Serving(c)],
            queue := sh.queue,
            popped := s.popped + [c],
            acceptor := SignalNotFull(s.acceptor)))
    case Serve(i) => s.(workers := s.workers[i := Leaving], closed := s.closed + [s.workers[i].conn])
    case Leave(i) => s.(workers := s.workers[i := Ready], active := s.active - 1)
    case SpuriousWakeup(i) => s.(workers := s.workers[i := Woken])
    case SpuriousPushWakeup => s.(acceptor := Pushing(s.acceptor.conn))
    case StopRequest => s.(running := false)
  }

  predicate IsRun(cfg: Config, s: State, es: seq<Event>)
    decreases |es|
  {
    es == [] || (Enabled(cfg, s, es[0]) && IsRun(cfg, Apply(cfg, s, es[0]), es[1..]))
  }

  function Final(cfg: Config, s: State, es: seq<Event>): State
    requires IsRun(cfg, s, es)
    decreases |es|
  {
    if es == [] then s else Final(cfg, Apply(cfg, s, es[0]), es[1..])
  }

  ghost predicate Reachable(cfg: Config, s: State) {
    exists es :: IsRun(cfg, Init(cfg), es) && Final(cfg, Init(cfg), es) == s
  }

  // ---------------------------------------------------------------- tallies over the workers

  function WokenOne(w: Worker): nat { if w.Woken? then 1 else 0 }

  /** A worker that has taken a connection and not yet given its place back. */
  function CountedOne(w: Worker): nat { if w.Serving? || w.Leaving? then 1 else 0 }

  function StepsLeft(w: Worker): nat {
    match w
    case Serving(_) => 3
    case Leaving => 2
    case Exited => 0
    case _ => 1
  }

  function Tally(ws: seq<Worker>, f: Worker -> nat): nat {
    if ws == [] then 0 else f(ws[0]) + Tally(ws[1..], f)
  }

  function HoldsOne(c: Conn): Worker -> nat {
    (w: Worker) => if w == Serving(c) then 1 else 0
  }

  /** How often c occurs in q. */
  function Times(q: seq<Conn>, c: Conn): nat {
    if q == [] then 0 else (if q[0] == c then 1 else 0) + Times(q[1..], c)
  }

  lemma {:induction false} TimesAppend(q: seq<Conn>, x: Conn, c: Conn)
    ensures Times(q + [x], c) == Times(q, c) + if x == c then 1 else 0
  {
    if q != [] {
      assert (q + [x])[1..] == q[1..] + [x];
      TimesAppend(q[1..], x, c);
    }
  }

  lemma {:induction false} TallyUpdate(ws: seq<Worker>, i: nat, w: Worker, f: Worker -> nat)
    requires i < |ws|
    ensures Tally(ws[i := w], f) + f(ws[i]) == Tally(ws, f) + f(w)
  {
    if i == 0 {
      assert ws[0 := w][1..] == ws[1..];
    } else {
      assert ws[i := w][1..] == ws[1..][i - 1 := w];
      TallyUpdate(ws[1..], i - 1, w, f);
    }
  }

  lemma {:induction false} TallyZero(ws: seq<Worker>, f: Worker -> nat)
    requires forall i :: 0 <= i < |ws| ==> f(ws[i]) == 0
    ensures Tally(ws, f) == 0
  {
    if ws != [] { TallyZero(ws[1..], f); }
  }

  lemma {:induction false} WakeAllKeeps(ws: seq<Worker>, f: Worker -> nat)
    requires f(Asleep) == f(Woken)
    ensures Tally(WakeAll(ws), f) == Tally(ws, f)
  {
    if ws != [] {
      assert WakeAll(ws)[1..] == WakeAll(ws[1..]);
      WakeAllKeeps(ws[1..], f);
    }
  }

  // ---------------------------------------------------------------- the invariant

  predicate HoldsConn(a: Acceptor) {
    a.Accepted? || a.Comparing? || a.Admitted? || a.Pushing? || a.PushAsleep? || a.PushFailed? || a.Discarding?
  }

  /** 1 while the accept thread has counted its connection in and neither queued it nor counted it out. */
  function AcceptorCounted(a: Acceptor): nat {
    if a.Pushing? || a.PushAsleep? || a.PushFailed? then 1 else 0
  }

  predicate AfterBroadcast(a: Acceptor) { a.Joining? || a.Draining? || a.Returned? }

  predicate QueueInv(cfg: Config, s: State) {
    && |s.workers| == cfg.workers
    && |s.queue| <= cfg.Capacity()
    && s.pushed == s.popped + s.queue
    && (s.acceptor.PushAsleep? ==> |s.queue| == cfg.Capacity())
  }

  /** No wakeup is lost: if anybody still sleeps, the woken workers suffice for the whole queue. */
  predicate WakeupInv(s: State) {
    SomeAsleep(s.workers) ==> |s.queue| <= Tally(s.workers, WokenOne)
  }

  predicate ShutdownInv(s: State) {
    && (s.shuttingDown ==> s.acceptor.PushFailed? || s.acceptor.Discarding? || s.acceptor.Stopping? || AfterBroadcast(s.acceptor))
    && (AfterBroadcast(s.acceptor) ==> s.shuttingDown && !SomeAsleep(s.workers))
    && (forall i :: 0 <= i < |s.workers| && s.workers[i].Exited? ==> s.shuttingDown && s.queue == [])
    && (s.acceptor.Joining? ==>
          s.acceptor.next <= |s.workers| && forall i :: 0 <= i < s.acceptor.next ==> s.workers[i].Exited?)
    && (s.acceptor.Draining? || s.acceptor.Returned? ==>
          forall i :: 0 <= i < |s.workers| ==> s.workers[i].Exited?)
  }

  predicate CountInv(s: State) {
    s.active == Tally(s.workers, CountedOne) + |s.queue| + AcceptorCounted(s.acceptor)
  }

  /** In how many places connection c is: closed, held by a worker, queued, held by the accept thread. */
  function Places(s: State, c: Conn): nat {
    Times(s.closed, c) + Tally(s.workers, HoldsOne(c)) + Times(s.queue, c)
    + (if HoldsConn(s.acceptor) && s.acceptor.conn == c then 1 else 0)
  }

  /** Every accepted connection is in exactly one place, and nothing else is anywhere. */
  ghost predicate PlaceInv(s: State) {
    forall c: Conn :: Places(s, c) == if c < s.accepted then 1 else 0
  }

  predicate OrderInv(s: State) {
    && (forall i, j :: 0 <= i < j < |s.pushed| ==> s.pushed[i] < s.pushed[j])
    && (forall i :: 0 <= i < |s.pushed| ==> s.pushed[i] < s.accepted)
    && (HoldsConn(s.acceptor) ==>
          s.acceptor.conn + 1 == s.accepted && forall i :: 0 <= i < |s.pushed| ==> s.pushed[i] < s.acceptor.conn)
  }

  predicate LimitInv(cfg: Config, s: State) {
    cfg.maxConnections > 0 ==>
      && s.active <= cfg.maxConnections
      && (s.acceptor.Comparing? ==> s.active <= s.acceptor.seen)
      && (s.acceptor.Admitted? ==> s.active < cfg.maxConnections)
  }

  ghost predicate Inv(cfg: Config, s: State) {
    && cfg.Valid()
    && QueueInv(cfg, s)
    && WakeupInv(s)
    && ShutdownInv(s)
    && CountInv(s)
    && PlaceInv(s)
    && OrderInv(s)
    && LimitInv(cfg, s)
  }

  lemma InitInv(cfg: Config)
    requires cfg.Valid()
    ensures Inv(cfg, Init(cfg))
  {
    var s := Init(cfg);
    TallyZero(s.workers, CountedOne);
    forall c: Conn ensures Places(s, c) == 0 {
      TallyZero(s.workers, HoldsOne(c));
    }
  }

  predicate WorkerEvent(e: Event) {
    e.Pop? || e.Serve? || e.Leave? || e.SpuriousWakeup?
  }

  lemma KeepsQueue(cfg: Config, s: State, e: Event)
    requires Enabled(cfg, s, e) && QueueInv(cfg, s) && ShutdownInv(s) && cfg.Valid()
    ensures QueueInv(cfg, Apply(cfg, s, e))
  {
    hide ShutdownInv;
    if e.Drain? { NothingToDrain(cfg, s); }
  }

  lemma NothingToDrain(cfg: Config, s: State)
    requires cfg.Valid() && QueueInv(cfg, s) && ShutdownInv(s) && s.acceptor.Draining?
    ensures s.queue == []
  {
    assert s.workers[0].Exited?;
  }

  lemma KeepsWakeupPool(cfg: Config, s: State, e: Event)
    requires Enabled(cfg, s, e) && WakeupInv(s) && WorkerEvent(e)
    ensures WakeupInv(Apply(cfg, s, e))
  {
    var s' := Apply(cfg, s, e);
    var i := e.worker;
    TallyUpdate(s.workers, i, s'.workers[i], WokenOne);
    if SomeAsleep(s'.workers) && s.queue != [] {
      var j :| 0 <= j < |s'.workers| && s'.workers[j].Asleep?;
      assert s.workers[j].Asleep?;
    }
  }

  lemma KeepsWakeupAcceptor(cfg: Config, s: State, e: Event)
    requires Enabled(cfg, s, e) && WakeupInv(s) && !WorkerEvent(e)
    requires AfterBroadcast(s.acceptor) ==> !SomeAsleep(s.workers)
    ensures WakeupInv(Apply(cfg, s, e))
  {
    match e
    case Push(wake) =>
      if wake.Some? { TallyUpdate(s.workers, wake.value, Woken, WokenOne); }
    case Broadcast =>
      assert forall j :: 0 <= j < |s.workers| ==> !WakeAll(s.workers)[j].Asleep?;
    case _ =>
  }

  lemma KeepsShutdownPool(cfg: Config, s: State, e: Event)
    requires Enabled(cfg, s, e) && ShutdownInv(s) && WorkerEvent(e)
    ensures ShutdownInv(Apply(cfg, s, e))
  {
    var s' := Apply(cfg, s, e);
    assert forall j :: 0 <= j < |s.workers| && j != e.worker ==> s'.workers[j] == s.workers[j];
    assert !s.workers[e.worker].Exited?;
    assert AfterBroadcast(s.acceptor) ==> !s'.workers[e.worker].Asleep?;
  }

  lemma KeepsShutdownAcceptor(cfg: Config, s: State, e: Event)
    requires Enabled(cfg, s, e) && ShutdownInv(s) && !WorkerEvent(e)
    ensures ShutdownInv(Apply(cfg, s, e))
  {
    hide Enabled, Apply;
    if e.Push? {
      KeepsShutdownPush(cfg, s, e);
    } else if e.Broadcast? {
      KeepsShutdownBroadcast(cfg, s, e);
    } else {
      KeepsShutdownOther(cfg, s, e);
    }
  }

  lemma KeepsShutdownPush(cfg: Config, s: State, e: Event)
    requires Enabled(cfg, s, e) && ShutdownInv(s) && e.Push?
    ensures ShutdownInv(Apply(cfg, s, e))
  {
    var s' := Apply(cfg, s, e);
    assert forall j :: 0 <= j < |s.workers| && s'.workers[j].Exited? ==> s.workers[j].Exited?;
  }

  lemma KeepsShutdownBroadcast(cfg: Config, s: State, e: Event)
    requires Enabled(cfg, s, e) && ShutdownInv(s) && e.Broadcast?
    ensures ShutdownInv(Apply(cfg, s, e))
  {
    assert forall j :: 0 <= j < |s.workers| ==> !WakeAll(s.workers)[j].Asleep?;
  }

  lemma KeepsShutdownOther(cfg: Config, s: State, e: Event)
    requires Enabled(cfg, s, e) && ShutdownInv(s) && !WorkerEvent(e) && !e.Push? && !e.Broadcast?
    ensures ShutdownInv(Apply(cfg, s, e))
  {
  }

  lemma KeepsCountPool(cfg: Config, s: State, e: Event)
    requires Enabled(cfg, s, e) && CountInv(s) && WorkerEvent(e)
    ensures CountInv(Apply(cfg, s, e))
  {
    TallyUpdate(s.workers, e.worker, Apply(cfg, s, e).workers[e.worker], CountedOne);
  }

  lemma KeepsCountAcceptor(cfg: Config, s: State, e: Event)
    requires Enabled(cfg, s, e) && CountInv(s) && !WorkerEvent(e)
    requires e.Drain? ==> s.queue == []
    ensures CountInv(Apply(cfg, s, e))
  {
    hide Enabled, Apply;
    if e.Push? {
      KeepsCountPush(cfg, s, e);
    } else if e.Broadcast? {
      KeepsCountBroadcast(cfg, s, e);
    } else {
      KeepsCountOther(cfg, s, e);
    }
  }

  lemma KeepsCountPush(cfg: Config, s: State, e: Event)
    requires Enabled(cfg, s, e) && CountInv(s) && e.Push?
    ensures CountInv(Apply(cfg, s, e))
  {
    if e.wake.Some? { TallyUpdate(s.workers, e.wake.value, Woken, CountedOne); }
  }

  lemma KeepsCountBroadcast(cfg: Config, s: State, e: Event)
    requires Enabled(cfg, s, e) && CountInv(s) && e.Broadcast?
    ensures CountInv(Apply(cfg, s, e))
  {
    WakeAllKeeps(s.workers, CountedOne);
  }

  lemma KeepsCountOther(cfg: Config, s: State, e: Event)
    requires Enabled(cfg, s, e) && CountInv(s) && !WorkerEvent(e) && !e.Push? && !e.Broadcast?
    requires e.Drain? ==> s.queue == []
    ensures CountInv(Apply(cfg, s, e))
  {
    hide Tally;
  }

  lemma PlacesAfterPool(cfg: Config, s: State, e: Event, c: Conn)
    requires Enabled(cfg, s, e) && WorkerEvent(e)
    ensures Places(Apply(cfg, s, e), c) == Places(s, c)
  {
    hide Tally;
    var s' := Apply(cfg, s, e);
    TallyUpdate(s.workers, e.worker, s'.workers[e.worker], HoldsOne(c));
    if e.Serve? { TimesAppend(s.closed, s.workers[e.worker].conn, c); }
  }

  lemma PlacesAfterPush(cfg: Config, s: State, e: Event, c: Conn)
    requires Enabled(cfg, s, e) && e.Push?
    ensures Places(Apply(cfg, s, e), c) == Places(s, c)
  {
    hide Tally, Times;
    if e.wake.Some? { TallyUpdate(s.workers, e.wake.value, Woken, HoldsOne(c)); }
    TimesAppend(s.queue, s.acceptor.conn, c);
  }

  lemma PlacesAfterAcceptor(cfg: Config, s: State, e: Event, c: Conn)
    requires Enabled(cfg, s, e) && !WorkerEvent(e) && !e.Push?
    ensures Places(Apply(cfg, s, e), c) == Places(s, c) + if e.AcceptReturns? && c == s.accepted then 1 else 0
  {
    hide Tally, Times, Enabled, Apply;
    if e.Drain? {
      PlacesAfterDrain(cfg, s, e, c);
    } else if e.Broadcast? {
      PlacesAfterBroadcast(cfg, s, e, c);
    } else if e.Compare? || e.Discard? {
      PlacesAfterClose(cfg, s, e, c);
    } else {
      PlacesAfterOther(cfg, s, e, c);
    }
  }

  lemma PlacesAfterDrain(cfg: Config, s: State, e: Event, c: Conn)
    requires Enabled(cfg, s, e) && e.Drain?
    ensures Places(Apply(cfg, s, e), c) == Places(s, c)
  {
    if s.queue != [] { TimesAppend(s.closed, s.queue[0], c); }
  }

  lemma PlacesAfterBroadcast(cfg: Config, s: State, e: Event, c: Conn)
    requires Enabled(cfg, s, e) && e.Broadcast?
    ensures Places(Apply(cfg, s, e), c) == Places(s, c)
  {
    WakeAllKeeps(s.workers, HoldsOne(c));
  }

  lemma PlacesAfterClose(cfg: Config, s: State, e: Event, c: Conn)
    requires Enabled(cfg, s, e) && (e.Compare? || e.Discard?)
    ensures Places(Apply(cfg, s, e), c) == Places(s, c)
  {
    hide Tally, Times;
    TimesAppend(s.closed, s.acceptor.conn, c);
  }

  lemma PlacesAfterOther(cfg: Config, s: State, e: Event, c: Conn)
    requires Enabled(cfg, s, e) && !WorkerEvent(e) && !e.Push? && !e.Broadcast? && !e.Compare? && !e.Discard? && !e.Drain?
    ensures Places(Apply(cfg, s, e), c) == Places(s, c) + if e.AcceptReturns? && c == s.accepted then 1 else 0
  {
    hide Tally, Times;
  }

  lemma KeepsPlaces(cfg: Config, s: State, e: Event)
    requires Enabled(cfg, s, e) && PlaceInv(s)
    ensures PlaceInv(Apply(cfg, s, e))
  {
    forall c: Conn
      ensures Places(Apply(cfg, s, e), c) == if c < Apply(cfg, s, e).accepted then 1 else 0
    {
      assert Places(s, c) == if c < s.accepted then 1 else 0;
      if WorkerEvent(e) {
        PlacesAfterPool(cfg, s, e, c);
      } else if e.Push? {
        PlacesAfterPush(cfg, s, e, c);
      } else {
        PlacesAfterAcceptor(cfg, s, e, c);
      }
    }
  }

  lemma KeepsOrder(cfg: Config, s: State, e: Event)
    requires Enabled(cfg, s, e) && OrderInv(s)
    ensures OrderInv(Apply(cfg, s, e))
  {
    hide Enabled, Apply, OrderInv;
    if e.Push? {
      KeepsOrderPush(cfg, s, e);
    } else {
      KeepsOrderOther(cfg, s, e);
    }
  }

  lemma KeepsOrderPush(cfg: Config, s: State, e: Event)
    requires Enabled(cfg, s, e) && OrderInv(s) && e.Push?
    ensures OrderInv(Apply(cfg, s, e))
  {
  }

  lemma KeepsOrderOther(cfg: Config, s: State, e: Event)
    requires Enabled(cfg, s, e) && OrderInv(s) && !e.Push?
    ensures OrderInv(Apply(cfg, s, e))
  {
    hide Enabled, Apply;
    ConnectionHeld(cfg, s, e);
  }

  /** Besides mnet_pool_push only accept changes which connection the accept thread holds. */
  lemma ConnectionHeld(cfg: Config, s: State, e: Event)
    requires Enabled(cfg, s, e) && !e.Push?
    ensures var s' := Apply(cfg, s, e);
            && s'.pushed == s.pushed
            && s'.accepted == s.accepted + (if e.AcceptReturns? then 1 else 0)
            && (HoldsConn(s'.acceptor) ==>
                  s'.acceptor.conn == if e.AcceptReturns? then s.accepted else s.acceptor.conn)
            && (HoldsConn(s'.acceptor) && !e.AcceptReturns? ==> HoldsConn(s.acceptor))
  {
  }

  lemma KeepsLimit(cfg: Config, s: State, e: Event)
    requires Enabled(cfg, s, e) && LimitInv(cfg, s)
    ensures LimitInv(cfg, Apply(cfg, s, e))
  {
  }

  lemma InvStep(cfg: Config, s: State, e: Event)
    requires Enabled(cfg, s, e) && Inv(cfg, s)
    ensures Inv(cfg, Apply(cfg, s, e))
  {
    if e.Drain? { assert s.workers[0].Exited?; }
    KeepsQueue(cfg, s, e);
    if WorkerEvent(e) {
      KeepsWakeupPool(cfg, s, e);
      KeepsShutdownPool(cfg, s, e);
      KeepsCountPool(cfg, s, e);
    } else {
      KeepsWakeupAcceptor(cfg, s, e);
      KeepsShutdownAcceptor(cfg, s, e);
      KeepsCountAcceptor(cfg, s, e);
    }
    KeepsPlaces(cfg, s, e);
    KeepsOrder(cfg, s, e);
    KeepsLimit(cfg, s, e);
  }

  lemma {:induction false} InvRun(cfg: Config, s: State, es: seq<Event>)
    requires IsRun(cfg, s, es) && Inv(cfg, s)
    ensures Inv(cfg, Final(cfg, s, es))
    decreases |es|
  {
    if es != [] {
      InvStep(cfg, s, es[0]);
      InvRun(cfg, Apply(cfg, s, es[0]), es[1..]);
    }
  }

  lemma ReachableInv(cfg: Config, s: State)
    requires cfg.Valid() && Reachable(cfg, s)
    ensures Inv(cfg, s)
  {
    var es :| IsRun(cfg, Init(cfg), es) && Final(cfg, Init(cfg), es) == s;
    InitInv(cfg);
    InvRun(cfg, Init(cfg), es);
  }

  // ---------------------------------------------------------------- theorems over every run

  predicate CanAct(w: Worker) { !w.Asleep? && !w.Exited? }

  lemma {:induction false} TallyBelow(ws: seq<Worker>, f: Worker -> nat, g: Worker -> nat)
    requires forall i :: 0 <= i < |ws| ==> f(ws[i]) <= g(ws[i])
    ensures Tally(ws, f) <= Tally(ws, g)
  {
    if ws != [] { TallyBelow(ws[1..], f, g); }
  }

  /** No wakeup is lost: while any worker sleeps, there is a woken worker for every queued connection. */
  lemma NoLostWakeup(cfg: Config, s: State)
    requires cfg.Valid() && Reachable(cfg, s)
    ensures SomeAsleep(s.workers) ==> |s.queue| <= Tally(s.workers, WokenOne)
    ensures s.queue != [] ==> exists i :: 0 <= i < |s.workers| && CanAct(s.workers[i])
    ensures s.acceptor.PushAsleep? ==> |s.queue| == cfg.Capacity()
  {
    ReachableInv(cfg, s);
    if s.queue != [] && forall i :: 0 <= i < |s.workers| ==> !CanAct(s.workers[i]) {
      assert s.workers[0].Asleep?;
      TallyZero(s.workers, WokenOne);
      assert false;
    }
  }

  function EventOf(w: Worker, i: nat): Event {
    match w
    case Serving(_) => Serve(i)
    case Leaving => Leave(i)
    case _ => Pop(i)
  }

  /** No deadlock: unless mnet_run has returned, some thread can take a step by itself, and when
      the only such step is the arrival of a client, nothing is queued and the accept thread is
      in accept(). */
  lemma NoDeadlock(cfg: Config, s: State)
    requires cfg.Valid() && Reachable(cfg, s) && !s.acceptor.Returned?
    ensures exists e :: Enabled(cfg, s, e) && ThreadStep(e)
    ensures (forall e :: Enabled(cfg, s, e) && ThreadStep(e) ==> e.AcceptReturns? || e.AcceptInterrupted? || e.AcceptFails?)
            ==> s.acceptor.Accepting? && s.queue == []
  {
    ReachableInv(cfg, s);
    NoLostWakeup(cfg, s);
    var e := AnEnabledStep(cfg, s);
    assert Enabled(cfg, s, e) && ThreadStep(e);
  }

  /** A step some thread can take; it is an accept() only if nothing is queued. */
  ghost function AnEnabledStep(cfg: Config, s: State): (e: Event)
    requires Inv(cfg, s) && !s.acceptor.Returned?
    ensures Enabled(cfg, s, e) && ThreadStep(e)
    ensures e.AcceptReturns? ==> s.queue == []
    ensures !e.AcceptInterrupted? && !e.AcceptFails?
  {
    if exists i :: 0 <= i < |s.workers| && CanAct(s.workers[i]) then
      var i :| 0 <= i < |s.workers| && CanAct(s.workers[i]);
      EventOf(s.workers[i], i)
    else
      assert s.queue == [] by {
        if s.queue != [] {
          assert s.workers[0].Asleep?;
          TallyZero(s.workers, WokenOne);
        }
      }
      assert !s.acceptor.PushAsleep?;
      match s.acceptor
      case Looping => TestRunning
      case Accepting => AcceptReturns
      case Accepted(_) => ReadActive
      case Comparing(_, _) => Compare
      case Admitted(_) => CountIn
      case Pushing(_) =>
        if PushSection(Shared(s.queue, s.shuttingDown), cfg.Capacity(), s.acceptor.conn, s.running).1.PushQueued? && SomeAsleep(s.workers) then
          var i :| 0 <= i < |s.workers| && s.workers[i].Asleep?;
          Push(Some(i))
        else Push(None)
      case PushFailed(_) => CountOut
      case Discarding(_) => Discard
      case Stopping => Broadcast
      case Joining(k) => assert k < |s.workers| ==> !s.workers[k].Asleep?; Join
      case _ => Drain
  }

  /** With a connection limit the number of active connections never exceeds it, although the
      check and the increment are separate critical sections, and push never finds the queue full. */
  lemma LimitIsKept(cfg: Config, s: State)
    requires cfg.Valid() && Reachable(cfg, s) && cfg.maxConnections > 0
    ensures 0 <= s.active <= cfg.maxConnections
    ensures s.acceptor.Pushing? ==> |s.queue| < cfg.Capacity() && !s.shuttingDown
    ensures !s.acceptor.PushAsleep? && !s.acceptor.PushFailed?
  {
    var es :| IsRun(cfg, Init(cfg), es) && Final(cfg, Init(cfg), es) == s;
    InitInv(cfg);
    LimitRun(cfg, Init(cfg), es);
  }

  lemma {:induction false} LimitRun(cfg: Config, s: State, es: seq<Event>)
    requires IsRun(cfg, s, es) && Inv(cfg, s) && cfg.maxConnections > 0
    requires !s.acceptor.PushAsleep? && !s.acceptor.PushFailed?
    ensures Inv(cfg, Final(cfg, s, es))
    ensures !Final(cfg, s, es).acceptor.PushAsleep? && !Final(cfg, s, es).acceptor.PushFailed?
    decreases |es|
  {
    if es != [] {
      InvStep(cfg, s, es[0]);
      LimitRun(cfg, Apply(cfg, s, es[0]), es[1..]);
    }
  }

  /** The counter is exactly the connections counted in and not yet counted out. */
  lemma ActiveIsExact(cfg: Config, s: State)
    requires cfg.Valid() && Reachable(cfg, s)
    ensures s.active == Tally(s.workers, CountedOne) + |s.queue| + AcceptorCounted(s.acceptor)
  {
    ReachableInv(cfg, s);
  }

  /** Conservation: every accepted connection is in exactly one place, and no other is anywhere. */
  lemma ConnectionsConserved(cfg: Config, s: State, c: Conn)
    requires cfg.Valid() && Reachable(cfg, s)
    ensures Places(s, c) == if c < s.accepted then 1 else 0
    ensures Times(s.closed, c) <= 1
  {
    ReachableInv(cfg, s);
  }

  /** Connections leave the pool in accept order, each at most once, and none is lost in between. */
  lemma ServedInOrder(cfg: Config, s: State)
    requires cfg.Valid() && Reachable(cfg, s)
    ensures s.pushed == s.popped + s.queue
    ensures forall i, j :: 0 <= i < j < |s.popped| ==> s.popped[i] < s.popped[j]
  {
    ReachableInv(cfg, s);
    assert forall i :: 0 <= i < |s.popped| ==> s.popped[i] == s.pushed[i];
  }

  // ---------------------------------------------------------------- shutdown

  /** How many steps remain at most once the broadcast of mnet_pool_shutdown has happened. */
  function Remaining(s: State): nat {
    4 * |s.queue| + Tally(s.workers, StepsLeft)
    + match s.acceptor
      case Joining(k) => (if k <= |s.workers| then |s.workers| - k else 0) + 2
      case Draining => 1
      case _ => 0
  }

  /** After the broadcast every step but a repeated stop request brings the end closer. */
  lemma ShutdownDecreases(cfg: Config, s: State, e: Event)
    requires Inv(cfg, s) && AfterBroadcast(s.acceptor) && Enabled(cfg, s, e) && !e.StopRequest?
    ensures AfterBroadcast(Apply(cfg, s, e).acceptor)
    ensures Remaining(Apply(cfg, s, e)) < Remaining(s)
  {
    if WorkerEvent(e) {
      TallyUpdate(s.workers, e.worker, Apply(cfg, s, e).workers[e.worker], StepsLeft);
    }
  }

  function Steps(es: seq<Event>): nat {
    if es == [] then 0 else (if es[0].StopRequest? then 0 else 1) + Steps(es[1..])
  }

  /** So every run from there on is bounded by what was queued and being served. */
  lemma {:induction false} ShutdownBounded(cfg: Config, s: State, es: seq<Event>)
    requires Inv(cfg, s) && AfterBroadcast(s.acceptor) && IsRun(cfg, s, es)
    ensures AfterBroadcast(Final(cfg, s, es).acceptor)
    ensures Steps(es) + Remaining(Final(cfg, s, es)) <= Remaining(s)
    decreases |es|
  {
    if es != [] {
      InvStep(cfg, s, es[0]);
      if !es[0].StopRequest? { ShutdownDecreases(cfg, s, es[0]); }
      ShutdownBounded(cfg, Apply(cfg, s, es[0]), es[1..]);
    }
  }

  /** From every state after the broadcast the threads can finish by themselves. */
  lemma {:induction false} ShutdownReturns(cfg: Config, s: State)
    requires Inv(cfg, s) && AfterBroadcast(s.acceptor)
    ensures exists es :: IsRun(cfg, s, es) && Final(cfg, s, es).acceptor.Returned?
    decreases Remaining(s)
  {
    if s.acceptor.Returned? {
      assert IsRun(cfg, s, []) && Final(cfg, s, []).acceptor.Returned?;
    } else {
      var e := AnEnabledStep(cfg, s);
      InvStep(cfg, s, e);
      ShutdownDecreases(cfg, s, e);
      ShutdownReturns(cfg, Apply(cfg, s, e));
      var es :| IsRun(cfg, Apply(cfg, s, e), es) && Final(cfg, Apply(cfg, s, e), es).acceptor.Returned?;
      var es' := [e] + es;
      assert es'[0] == e && es'[1..] == es;
      assert IsRun(cfg, s, es') && Final(cfg, s, es').acceptor.Returned?;
    }
  }

  /** The drain loop of mnet_pool_shutdown never finds a connection to close. */
  lemma DrainFindsNothing(cfg: Config, s: State)
    requires cfg.Valid() && Reachable(cfg, s) && s.acceptor.Draining?
    ensures s.queue == [] && Enabled(cfg, s, Drain) && Apply(cfg, s, Drain).closed == s.closed
  {
    ReachableInv(cfg, s);
    assert s.workers[0].Exited?;
  }

  /** When mnet_run returns, every pushed connection was popped, in push order, every accepted one
      was closed exactly once, and active_connections is back to 0. */
  lemma CleanReturn(cfg: Config, s: State)
    requires cfg.Valid() && Reachable(cfg, s) && s.acceptor.Returned?
    ensures s.queue == [] && s.popped == s.pushed && s.active == 0
    ensures forall c: Conn :: Times(s.closed, c) == if c < s.accepted then 1 else 0
  {
    ReachableInv(cfg, s);
    assert s.workers[0].Exited?;
    TallyZero(s.workers, CountedOne);
    forall c: Conn
      ensures Times(s.closed, c) == if c < s.accepted then 1 else 0
    {
      assert Places(s, c) == if c < s.accepted then 1 else 0;
      TallyZero(s.workers, HoldsOne(c));
    }
  }
}
