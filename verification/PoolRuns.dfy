/** What the worker pool does for its clients, over whole runs: who is served, who is refused, and that
    the server goes on accepting until it is told to stop. */
module PoolRuns {
  import opened Bytes
  import opened Pool

  // ---------------------------------------------------------------- runs

  /** A step the server takes by itself: nobody asks it to stop, no client arrives, no spurious wakeup. */
  predicate Own(e: Event) {
    ThreadStep(e) && !e.AcceptReturns? && !e.AcceptInterrupted? && !e.AcceptFails?
  }

  predicate AllOwn(es: seq<Event>) { forall i :: 0 <= i < |es| ==> Own(es[i]) }

  lemma {:induction false} RunAppend(cfg: Config, s: State, es: seq<Event>, fs: seq<Event>)
    requires IsRun(cfg, s, es) && IsRun(cfg, Final(cfg, s, es), fs)
    ensures IsRun(cfg, s, es + fs) && Final(cfg, s, es + fs) == Final(cfg, Final(cfg, s, es), fs)
    decreases |es|
  {
    hide Enabled, Apply;
    if es == [] {
      assert [] + fs == fs;
    } else {
      RunAppend(cfg, Apply(cfg, s, es[0]), es[1..], fs);
      assert (es + fs)[0] == es[0] && (es + fs)[1..] == es[1..] + fs;
    }
  }

  lemma RunOne(cfg: Config, s: State, e: Event)
    requires Enabled(cfg, s, e)
    ensures IsRun(cfg, s, [e]) && Final(cfg, s, [e]) == Apply(cfg, s, e)
  {
    hide Enabled, Apply;
    assert [e][0] == e && [e][1..] == [];
  }

  /** One step, and then a run. */
  lemma RunThen(cfg: Config, s: State, e: Event, es: seq<Event>)
    requires Enabled(cfg, s, e) && IsRun(cfg, Apply(cfg, s, e), es)
    ensures IsRun(cfg, s, [e] + es) && Final(cfg, s, [e] + es) == Final(cfg, Apply(cfg, s, e), es)
  {
    hide Enabled, Apply;
    RunOne(cfg, s, e);
    RunAppend(cfg, s, [e], es);
  }

  // ---------------------------------------------------------------- the workers empty the queue

  function Load(w: Worker): nat {
    match w
    case Serving(_) => 2
    case Leaving => 1
    case _ => 0
  }

  function Work(s: State): nat { 3 * |s.queue| + Tally(s.workers, Load) }

  lemma SomeoneCanAct(cfg: Config, s: State) returns (i: nat)
    requires Inv(cfg, s) && s.queue != []
    ensures i < |s.workers| && CanAct(s.workers[i])
  {
    if forall j :: 0 <= j < |s.workers| ==> !CanAct(s.workers[j]) {
      assert s.workers[0].Asleep?;
      TallyZero(s.workers, WokenOne);
      assert false;
    }
    i :| 0 <= i < |s.workers| && CanAct(s.workers[i]);
  }

  /** One step of a worker on a queue that is not empty. */
  lemma WorkerStep(cfg: Config, s: State, i: nat) returns (e: Event)
    requires Inv(cfg, s) && s.queue != [] && i < |s.workers| && CanAct(s.workers[i])
    ensures Enabled(cfg, s, e) && Own(e)
    ensures var t := Apply(cfg, s, e);
            && Work(t) < Work(s) && t.active <= s.active && s.popped <= t.popped
            && t.running == s.running && t.pushed == s.pushed && t.accepted == s.accepted
            && ((t.queue == s.queue && t.acceptor == s.acceptor)
                || (t.queue == s.queue[1..] && t.acceptor == SignalNotFull(s.acceptor)))
  {
    hide Inv, Tally;
    e := EventOf(s.workers[i], i);
    TallyUpdate(s.workers, i, Apply(cfg, s, e).workers[i], Load);
  }

  /** What the workers leave behind when they have emptied the queue. */
  predicate EmptiedFrom(s: State, t: State) {
    && t.queue == [] && t.active <= s.active && s.popped <= t.popped
    && t.running == s.running && t.pushed == s.pushed && t.accepted == s.accepted
    && t.acceptor == if s.queue == [] then s.acceptor else SignalNotFull(s.acceptor)
  }

  lemma {:induction false} Emptied(cfg: Config, s: State) returns (es: seq<Event>)
    requires Inv(cfg, s)
    ensures IsRun(cfg, s, es) && AllOwn(es)
    ensures Inv(cfg, Final(cfg, s, es)) && EmptiedFrom(s, Final(cfg, s, es))
    decreases Work(s)
  {
    hide Inv, Enabled, Apply, Own, Work;
    es := [];
    if s.queue != [] {
      var i := SomeoneCanAct(cfg, s);
      var e := WorkerStep(cfg, s, i);
      InvStep(cfg, s, e);
      var fs := Emptied(cfg, Apply(cfg, s, e));
      RunThen(cfg, s, e, fs);
      es := [e] + fs;
    }
  }

  // ---------------------------------------------------------------- the accept thread

  /** Behind an empty queue the accept thread never sleeps. */
  lemma AwakeWhenEmpty(cfg: Config, s: State)
    requires Inv(cfg, s) && s.queue == []
    ensures !s.acceptor.PushAsleep?
  {
  }

  /** The step of the accept thread between accept and the broadcast. */
  lemma AcceptorStep(cfg: Config, s: State) returns (e: Event)
    requires Inv(cfg, s) && s.queue == [] && !s.acceptor.Accepting? && !AfterBroadcast(s.acceptor)
    ensures Enabled(cfg, s, e) && Own(e) && !WorkerEvent(e) && !e.Join? && !e.Drain?
  {
    AwakeWhenEmpty(cfg, s);
    match s.acceptor
    case Looping => e := TestRunning;
    case Accepted(_) => e := ReadActive;
    case Comparing(_, _) => e := Compare;
    case Admitted(_) => e := CountIn;
    case Pushing(_) => e := PushEvent(cfg, s);
    case PushFailed(_) => e := CountOut;
    case Discarding(_) => e := Discard;
    case Stopping => e := Broadcast;
  }

  lemma PushEvent(cfg: Config, s: State) returns (e: Event)
    requires s.acceptor.Pushing?
    ensures Enabled(cfg, s, e) && e.Push?
  {
    var queued := PushSection(Shared(s.queue, s.shuttingDown), cfg.Capacity(), s.acceptor.conn, s.running).1.PushQueued?;
    if queued && SomeAsleep(s.workers) {
      var i :| 0 <= i < |s.workers| && s.workers[i].Asleep?;
      e := Push(Some(i));
    } else {
      e := Push(None);
    }
  }

  /** The accept thread is on its way from one accept to the next. */
  predicate Open(a: Acceptor) {
    a.Looping? || a.Accepting? || a.Accepted? || a.Comparing? || a.Admitted? || a.Pushing? || a.PushAsleep?
  }

  /** A push fails exactly if the queue is full and the server has been told to stop; it waits exactly if
      the queue is full and it has not; in every other case the connection is queued. */
  lemma PushOutcomes(cfg: Config, s: State, e: Event)
    requires Inv(cfg, s) && Enabled(cfg, s, e) && e.Push?
    ensures var t := Apply(cfg, s, e); var full := |s.queue| == cfg.Capacity();
            && (t.acceptor.PushFailed? <==> full && !s.running)
            && (t.acceptor.PushAsleep? <==> full && s.running)
            && (t.acceptor.Looping? <==> !full)
            && t.pushed == s.pushed + (if full then [] else [s.acceptor.conn])
  {
  }

  /** How far the accept thread is from accept, or from the broadcast once it has been told to stop. */
  function Distance(a: Acceptor): nat {
    match a
    case Stopping => 1
    case Looping => 2
    case Discarding(_) => 2
    case PushFailed(_) => 3
    case Pushing(_) => 4
    case PushAsleep(_) => 4
    case Admitted(_) => 5
    case Comparing(_, _) => 6
    case Accepted(_) => 7
    case _ => 0
  }

  lemma StepTowardsAccept(cfg: Config, s: State, e: Event)
    requires Inv(cfg, s) && s.queue == [] && s.running && Open(s.acceptor) && !s.acceptor.Accepting?
    requires Enabled(cfg, s, e) && Own(e) && !WorkerEvent(e) && !e.Join? && !e.Drain?
    ensures var t := Apply(cfg, s, e);
            Open(t.acceptor) && t.running && Distance(t.acceptor) < Distance(s.acceptor)
  {
  }

  /** While nobody stops it the server comes back to accept by itself, with nothing left in the queue. */
  lemma {:induction false} ComesBack(cfg: Config, s: State) returns (es: seq<Event>)
    requires Inv(cfg, s) && s.running && Open(s.acceptor)
    ensures IsRun(cfg, s, es) && AllOwn(es)
    ensures var t := Final(cfg, s, es); t.acceptor.Accepting? && t.running && t.queue == []
    decreases Distance(s.acceptor)
  {
    hide Inv, Enabled, Apply, Own;
    es := Emptied(cfg, s);
    var t := Final(cfg, s, es);
    assert Distance(t.acceptor) <= Distance(s.acceptor) && Open(t.acceptor);
    if !t.acceptor.Accepting? {
      var e := AcceptorStep(cfg, t);
      InvStep(cfg, t, e);
      StepTowardsAccept(cfg, t, e);
      var fs := ComesBack(cfg, Apply(cfg, t, e));
      RunThen(cfg, t, e, fs);
      RunAppend(cfg, s, es, [e] + fs);
      es := es + ([e] + fs);
    }
  }

  lemma ComesBackToAccept(cfg: Config, s: State)
    requires cfg.Valid() && Reachable(cfg, s) && s.running && Open(s.acceptor)
    ensures exists es :: IsRun(cfg, s, es) && AllOwn(es)
                         && Final(cfg, s, es).acceptor.Accepting? && Final(cfg, s, es).queue == []
  {
    ReachableInv(cfg, s);
    var es := ComesBack(cfg, s);
  }

  /** Nothing but a stop request or a failing accept ever closes the server. */
  lemma StaysOpen(cfg: Config, es: seq<Event>)
    requires cfg.Valid() && IsRun(cfg, Init(cfg), es)
    requires forall i :: 0 <= i < |es| ==> !es[i].StopRequest? && !es[i].AcceptFails?
    ensures Open(Final(cfg, Init(cfg), es).acceptor) && Final(cfg, Init(cfg), es).running
  {
    InitInv(cfg);
    StaysOpenFrom(cfg, Init(cfg), es);
  }

  lemma {:induction false} StaysOpenFrom(cfg: Config, s: State, es: seq<Event>)
    requires Inv(cfg, s) && IsRun(cfg, s, es) && Open(s.acceptor) && s.running
    requires forall i :: 0 <= i < |es| ==> !es[i].StopRequest? && !es[i].AcceptFails?
    ensures Open(Final(cfg, s, es).acceptor) && Final(cfg, s, es).running
    decreases |es|
  {
    hide Inv, Enabled, Apply;
    if es != [] {
      InvStep(cfg, s, es[0]);
      OpenStep(cfg, s, es[0]);
      StaysOpenFrom(cfg, Apply(cfg, s, es[0]), es[1..]);
    }
  }

  lemma OpenStep(cfg: Config, s: State, e: Event)
    requires Inv(cfg, s) && Enabled(cfg, s, e) && Open(s.acceptor) && s.running && !e.StopRequest? && !e.AcceptFails?
    ensures Open(Apply(cfg, s, e).acceptor) && Apply(cfg, s, e).running
  {
  }

  // ---------------------------------------------------------------- being served

  /** The steps from a fresh connection to the queue, when the queue is empty and the limit not reached. */
  lemma Queued(cfg: Config, s: State) returns (es: seq<Event>)
    requires Inv(cfg, s) && s.queue == [] && s.running && s.acceptor.Accepted?
    requires cfg.maxConnections <= 0 || s.active < cfg.maxConnections
    ensures IsRun(cfg, s, es) && AllOwn(es)
    ensures Inv(cfg, Final(cfg, s, es)) && s.acceptor.conn in Final(cfg, s, es).pushed
  {
    hide Enabled, Apply, Inv, Own;
    Admission(cfg, s);
    var s1 := Apply(cfg, s, ReadActive);
    var s2 := Apply(cfg, s1, Compare);
    var s3 := Apply(cfg, s2, CountIn);
    InvStep(cfg, s, ReadActive);
    InvStep(cfg, s1, Compare);
    InvStep(cfg, s2, CountIn);
    var e := PushEvent(cfg, s3);
    InvStep(cfg, s3, e);
    PushOutcomes(cfg, s3, e);
    RunOne(cfg, s3, e);
    RunThen(cfg, s2, CountIn, [e]);
    RunThen(cfg, s1, Compare, [CountIn] + [e]);
    RunThen(cfg, s, ReadActive, [Compare] + ([CountIn] + [e]));
    es := [ReadActive] + ([Compare] + ([CountIn] + [e]));
    AdmissionOwn(e);
  }

  lemma Admission(cfg: Config, s: State)
    requires s.acceptor.Accepted? && (cfg.maxConnections <= 0 || s.active < cfg.maxConnections)
    ensures Enabled(cfg, s, ReadActive) && Enabled(cfg, Apply(cfg, s, ReadActive), Compare)
    ensures var s2 := Apply(cfg, Apply(cfg, s, ReadActive), Compare);
            && Enabled(cfg, s2, CountIn)
            && var s3 := Apply(cfg, s2, CountIn);
               s3.acceptor == Pushing(s.acceptor.conn) && s3.queue == s.queue && s3.running == s.running
  {
  }

  lemma AdmissionOwn(e: Event)
    requires e.Push?
    ensures Own(ReadActive) && Own(Compare) && Own(CountIn) && Own(e)
  {
  }

  /** A fresh connection that finds room below the limit, or no limit, can always be served without any
      outside help. */
  lemma AdmittedIsServed(cfg: Config, s: State)
    requires cfg.Valid() && Reachable(cfg, s) && s.running && s.acceptor.Accepted?
    requires cfg.maxConnections <= 0 || s.active < cfg.maxConnections
    ensures exists es :: IsRun(cfg, s, es) && AllOwn(es) && s.acceptor.conn in Final(cfg, s, es).popped
  {
    hide Inv, Enabled, Apply, Own, Tally;
    ReachableInv(cfg, s);
    var es := Emptied(cfg, s);
    var t := Final(cfg, s, es);
    assert t.acceptor == s.acceptor;
    var fs := Queued(cfg, t);
    RunAppend(cfg, s, es, fs);
    var u := Final(cfg, t, fs);
    var gs := Emptied(cfg, u);
    RunAppend(cfg, s, es + fs, gs);
    AllPopped(cfg, Final(cfg, u, gs));
    var all := es + fs + gs;
    assert IsRun(cfg, s, all) && AllOwn(all) && s.acceptor.conn in Final(cfg, s, all).popped;
  }

  lemma AllPopped(cfg: Config, s: State)
    requires Inv(cfg, s) && s.queue == []
    ensures s.popped == s.pushed
  {
  }

  // ---------------------------------------------------------------- being refused

  /** Why connection c may have been closed: a worker has served it, it met a reached limit, or the server
      has been told to stop. */
  predicate Explained(cfg: Config, s: State, c: Conn) {
    || c in s.popped
    || (cfg.maxConnections > 0 && exists i :: 0 <= i < |s.refused| && s.refused[i].conn == c && s.refused[i].seen >= cfg.maxConnections)
    || !s.running
  }

  predicate ClosedInv(cfg: Config, s: State) {
    && (forall c: Conn :: c in s.closed ==> Explained(cfg, s, c))
    && (forall i :: 0 <= i < |s.workers| && s.workers[i].Serving? ==> s.workers[i].conn in s.popped)
    && (s.acceptor.PushFailed? || s.acceptor.Discarding? ==> !s.running)
  }

  /** What a step adds to the closed connections, and what it leaves of the reasons. */
  lemma ReasonsStay(cfg: Config, s: State, e: Event)
    requires Inv(cfg, s) && ClosedInv(cfg, s) && Enabled(cfg, s, e)
    ensures var t := Apply(cfg, s, e);
            && s.popped <= t.popped && s.refused <= t.refused && (t.running ==> s.running)
            && (t.closed == s.closed || exists c: Conn :: t.closed == s.closed + [c] && Explained(cfg, t, c))
  {
    var t := Apply(cfg, s, e);
    if e.Serve? { assert t.closed == s.closed + [s.workers[e.worker].conn]; }
    if e.Compare? && t.closed != s.closed { RefusedAtLimit(cfg, s); }
    if e.Discard? { assert t.closed == s.closed + [s.acceptor.conn]; }
    if e.Drain? { NothingToDrain(cfg, s); }
  }

  lemma RefusedAtLimit(cfg: Config, s: State)
    requires s.acceptor.Comparing? && Apply(cfg, s, Compare).closed != s.closed
    ensures var t := Apply(cfg, s, Compare);
            t.closed == s.closed + [s.acceptor.conn] && Explained(cfg, t, s.acceptor.conn)
  {
    var t := Apply(cfg, s, Compare);
    assert t.refused[|s.refused|] == Refusal(s.acceptor.conn, s.acceptor.seen);
  }

  lemma StaysExplained(cfg: Config, s: State, t: State, c: Conn)
    requires Explained(cfg, s, c) && s.popped <= t.popped && s.refused <= t.refused && (t.running ==> s.running)
    ensures Explained(cfg, t, c)
  {
    if cfg.maxConnections > 0 && exists i :: 0 <= i < |s.refused| && s.refused[i].conn == c && s.refused[i].seen >= cfg.maxConnections {
      var i :| 0 <= i < |s.refused| && s.refused[i].conn == c && s.refused[i].seen >= cfg.maxConnections;
      assert t.refused[i] == s.refused[i];
    }
  }

  lemma KeepsHolders(cfg: Config, s: State, e: Event)
    requires Inv(cfg, s) && ClosedInv(cfg, s) && Enabled(cfg, s, e)
    ensures var t := Apply(cfg, s, e);
            && (forall i :: 0 <= i < |t.workers| && t.workers[i].Serving? ==> t.workers[i].conn in t.popped)
            && (t.acceptor.PushFailed? || t.acceptor.Discarding? ==> !t.running)
  {
    var t := Apply(cfg, s, e);
    if e.Push? { PushOutcomes(cfg, s, e); }
    forall i | 0 <= i < |t.workers| && t.workers[i].Serving?
      ensures t.workers[i].conn in t.popped
    {
      if i < |s.workers| && s.workers[i].Serving? { assert s.workers[i].conn in s.popped; }
    }
  }

  lemma KeepsClosed(cfg: Config, s: State, e: Event)
    requires Inv(cfg, s) && ClosedInv(cfg, s) && Enabled(cfg, s, e)
    ensures ClosedInv(cfg, Apply(cfg, s, e))
  {
    hide Enabled, Apply, Inv, Explained;
    var t := Apply(cfg, s, e);
    ReasonsStay(cfg, s, e);
    KeepsHolders(cfg, s, e);
    forall c: Conn | c in t.closed
      ensures Explained(cfg, t, c)
    {
      if c in s.closed { StaysExplained(cfg, s, t, c); }
    }
  }

  lemma {:induction false} ClosedRun(cfg: Config, s: State, es: seq<Event>)
    requires IsRun(cfg, s, es) && Inv(cfg, s) && ClosedInv(cfg, s)
    ensures ClosedInv(cfg, Final(cfg, s, es))
    decreases |es|
  {
    hide Enabled, Apply, Inv, ClosedInv;
    if es != [] {
      InvStep(cfg, s, es[0]);
      KeepsClosed(cfg, s, es[0]);
      ClosedRun(cfg, Apply(cfg, s, es[0]), es[1..]);
    }
  }

  /** Nobody is turned away without a reason: while the server runs, every closed connection was handed to a
      worker, or it was compared with a value at or above a limit that is set. */
  lemma ClosedForAReason(cfg: Config, s: State, c: Conn)
    requires cfg.Valid() && Reachable(cfg, s) && s.running && c in s.closed
    ensures c in s.popped || (cfg.maxConnections > 0 && exists i :: 0 <= i < |s.refused| && s.refused[i].conn == c && s.refused[i].seen >= cfg.maxConnections)
    ensures cfg.maxConnections <= 0 ==> c in s.popped
  {
    var es :| IsRun(cfg, Init(cfg), es) && Final(cfg, Init(cfg), es) == s;
    InitInv(cfg);
    ClosedRun(cfg, Init(cfg), es);
  }

  // ---------------------------------------------------------------- stopping

  lemma StepTowardsStop(cfg: Config, s: State, e: Event)
    requires Inv(cfg, s) && s.queue == [] && !s.running && !s.acceptor.Accepting? && !AfterBroadcast(s.acceptor)
    requires Enabled(cfg, s, e) && Own(e) && !WorkerEvent(e) && !e.Join? && !e.Drain?
    ensures var t := Apply(cfg, s, e);
            !t.running && !t.acceptor.Accepting? && Distance(t.acceptor) < Distance(s.acceptor)
  {
  }

  /** After the broadcast the threads finish by themselves. */
  lemma {:induction false} Finishes(cfg: Config, s: State) returns (es: seq<Event>)
    requires Inv(cfg, s) && AfterBroadcast(s.acceptor)
    ensures IsRun(cfg, s, es) && AllOwn(es) && Final(cfg, s, es).acceptor.Returned?
    decreases Remaining(s)
  {
    hide Inv, Enabled, Apply, Own, Remaining;
    es := [];
    if !s.acceptor.Returned? {
      var e := AnEnabledStep(cfg, s);
      NoAcceptBehindBroadcast(cfg, s, e);
      InvStep(cfg, s, e);
      ShutdownDecreases(cfg, s, e);
      var fs := Finishes(cfg, Apply(cfg, s, e));
      RunThen(cfg, s, e, fs);
      es := [e] + fs;
    }
  }

  lemma NoAcceptBehindBroadcast(cfg: Config, s: State, e: Event)
    requires AfterBroadcast(s.acceptor) && Enabled(cfg, s, e) && ThreadStep(e)
    ensures Own(e) && !e.StopRequest?
  {
  }

  lemma {:induction false} Stops(cfg: Config, s: State) returns (es: seq<Event>)
    requires Inv(cfg, s) && !s.running && !s.acceptor.Accepting?
    ensures IsRun(cfg, s, es) && AllOwn(es) && Final(cfg, s, es).acceptor.Returned?
    decreases Distance(s.acceptor)
  {
    hide Inv, Enabled, Apply, Own;
    if AfterBroadcast(s.acceptor) {
      es := Finishes(cfg, s);
    } else {
      es := Emptied(cfg, s);
      var t := Final(cfg, s, es);
      assert Distance(t.acceptor) <= Distance(s.acceptor) && !AfterBroadcast(t.acceptor);
      var e := AcceptorStep(cfg, t);
      InvStep(cfg, t, e);
      StepTowardsStop(cfg, t, e);
      var fs := Stops(cfg, Apply(cfg, t, e));
      RunThen(cfg, t, e, fs);
      RunAppend(cfg, s, es, [e] + fs);
      es := es + ([e] + fs);
    }
  }

  /** After a stop request mnet_run can return by itself, unless it is still in accept. */
  lemma StopReturns(cfg: Config, s: State)
    requires cfg.Valid() && Reachable(cfg, s) && !s.running && !s.acceptor.Accepting?
    ensures exists es :: IsRun(cfg, s, es) && AllOwn(es) && Final(cfg, s, es).acceptor.Returned?
  {
    ReachableInv(cfg, s);
    var es := Stops(cfg, s);
  }

  /** And from there too, once accept has returned, been interrupted or failed. */
  lemma StopReturnsBehindAccept(cfg: Config, s: State, e: Event)
    requires cfg.Valid() && Reachable(cfg, s) && !s.running && s.acceptor.Accepting?
    requires e.AcceptReturns? || e.AcceptInterrupted? || e.AcceptFails?
    ensures Enabled(cfg, s, e)
    ensures exists es :: IsRun(cfg, Apply(cfg, s, e), es) && AllOwn(es) && Final(cfg, Apply(cfg, s, e), es).acceptor.Returned?
  {
    ReachableInv(cfg, s);
    InvStep(cfg, s, e);
    var es := Stops(cfg, Apply(cfg, s, e));
  }

  /** How many connections can still be accepted. */
  function StillAccepts(s: State): nat
  {
    if s.acceptor.Accepting? then 1 else 0
  }

  predicate Closing(s: State) { !s.running || s.acceptor.Stopping? || AfterBroadcast(s.acceptor) }

  lemma ClosingStep(cfg: Config, s: State, e: Event)
    requires Inv(cfg, s) && Closing(s) && Enabled(cfg, s, e)
    ensures var t := Apply(cfg, s, e);
            Closing(t) && t.accepted + StillAccepts(t) <= s.accepted + StillAccepts(s)
  {
  }

  /** Behind a stop request at most the accept that is under way accepts anything; behind a failed accept
      nothing is accepted any more. */
  lemma {:induction false} AcceptsNoMore(cfg: Config, s: State, es: seq<Event>)
    requires Inv(cfg, s) && Closing(s) && IsRun(cfg, s, es)
    ensures Final(cfg, s, es).accepted <= s.accepted + StillAccepts(s)
    ensures Closing(Final(cfg, s, es))
    decreases |es|
  {
    hide Inv, Enabled, Apply, Closing;
    if es != [] {
      InvStep(cfg, s, es[0]);
      ClosingStep(cfg, s, es[0]);
      AcceptsNoMore(cfg, Apply(cfg, s, es[0]), es[1..]);
    }
  }

  lemma FailedAcceptCloses(cfg: Config, s: State)
    requires Inv(cfg, s) && s.acceptor.Accepting?
    ensures var t := Apply(cfg, s, AcceptFails);
            Enabled(cfg, s, AcceptFails) && Closing(t) && StillAccepts(t) == 0 && t.accepted == s.accepted
  {
  }
}
