/** What happens to a connection on its worker: when it is handled, when it is answered 503, that it can
    go on, and what becomes of the records its handler emits. */
module Serving {
  import opened Bytes
  import opened MetricsAggregation
  import opened Pool
  import opened Shutdown

  // ---------- The flag decides ----------

  /** Once up, the flag stays up. */
  lemma {:induction false} FlagStaysUp(run: seq<State>, k: nat, l: nat)
    requires IsRun(run) && k <= l < |run| && run[k].stop
    ensures run[l].stop
    decreases l
  {
    hide Init, Enabled, Apply;
    if k < l {
      FlagStaysUp(run, k, l - 1);
      assert Next(run[l - 1], run[l - 1 + 1]);
      var step :| Enabled(run[l - 1], step) && run[l] == Apply(run[l - 1], step);
      FlagStays(run[l - 1], step);
    }
  }

  predicate AllHandled(served: seq<Served>) { forall x | x in served :: x.fate == Handled }

  /** What one step of any thread can make of a worker's task and of its finished connections. The flag
      alone decides whether a connection taken from the queue is handled, with the next request id, or
      answered 503. */
  ghost predicate WorkerGoesOn(s: State, a: Worker, b: Worker, w: nat) {
    match a.doing
    case Waiting =>
      && b.served == a.served
      && (b.doing == Waiting || (a.queue != [] && b.doing == Got(a.queue[0])) || (a.queue == [] && b.doing == Exited))
    case Got(c) =>
      || (b.doing == a.doing && b.served == a.served)
      || (!s.stop && b.doing.Handling? && b.doing.conn == c && b.doing.req == RequestContext(s.nextReqId, w)
          && b.served == a.served)
      || (s.stop && b.doing == Waiting && b.served == a.served + [Served(c, Answered503)])
    case Handling(c, req, _, _) =>
      || (b.doing.Handling? && b.doing.conn == c && b.doing.req == req && b.served == a.served)
      || (b.doing == Waiting && b.served == a.served + [Served(c, Handled)])
    case Exited => b.doing == Exited && b.served == a.served
  }

  lemma WorkerTurn(s: State, t: State, w: nat)
    requires Next(s, t) && w < |s.workers|
    ensures |t.workers| == |s.workers| && WorkerGoesOn(s, s.workers[w], t.workers[w], w)
  {
    hide ApplyMain, ApplyWork, ApplyService, SubmitTo;
    var step :| Enabled(s, step) && t == Apply(s, step);
    match step
    case Main(m) =>
      if m.Submit? {
        MainIsSubmit(s, m.conn);
        SubmitFrame(s, m.conn);
      } else {
        MainFrame(s, m);
      }
    case Work(v, a) => WorkFrame(s, v, a);
    case Service(b) => ServiceFrame(s, b);
  }

  /** Handlers begin only while the flag is down. */
  lemma BegunWhileDown(s: State, t: State)
    requires Next(s, t) && s.stop
    ensures t.begun == s.begun
  {
    hide ApplyMain, ApplyWork, ApplyService, SubmitTo;
    var step :| Enabled(s, step) && t == Apply(s, step);
    match step
    case Main(m) =>
      if m.Submit? {
        MainIsSubmit(s, m.conn);
        SubmitFrame(s, m.conn);
      } else {
        MainKeepsConns(s, m);
      }
    case Work(v, a) => WorkRecords(s, v, a);
    case Service(b) => ServiceFrame(s, b);
  }

  /** No connection is answered 503 by a worker while the flag is down. */
  lemma {:induction false} NoRefusalBeforeFlag(run: seq<State>, k: nat, w: nat)
    requires IsRun(run) && k < |run| && !run[k].stop && w < |run[k].workers|
    ensures AllHandled(run[k].workers[w].served)
  {
    if k == 0 {
      assert run[0].workers[w] in run[0].workers;
    } else {
      hide Init, Next;
      assert Next(run[k - 1], run[k - 1 + 1]);
      if run[k - 1].stop {
        FlagStaysUp(run, k - 1, k);
      }
      StepKeepsSize(run[k - 1], run[k]);
      WorkerTurn(run[k - 1], run[k], w);
      NoRefusalBeforeFlag(run, k - 1, w);
    }
  }

  lemma StepKeepsSize(s: State, t: State)
    requires Next(s, t)
    ensures |t.workers| == |s.workers|
  {
    if s.workers != [] {
      WorkerTurn(s, t, 0);
    } else {
      hide ApplyMain, ApplyService, SubmitTo;
      var step :| Enabled(s, step) && t == Apply(s, step);
      match step
      case Main(m) => MainFrame(s, m);
      case Work(_, _) =>
      case Service(b) => ServiceFrame(s, b);
    }
  }

  /** From a moment at which the flag is up no handler begins. */
  lemma {:induction false} NoHandlerAfterFlag(run: seq<State>, k: nat, l: nat)
    requires IsRun(run) && k <= l < |run| && run[k].stop
    ensures run[l].begun == run[k].begun
    decreases l
  {
    hide Init, Next;
    if k < l {
      NoHandlerAfterFlag(run, k, l - 1);
      FlagStaysUp(run, k, l - 1);
      assert Next(run[l - 1], run[l - 1 + 1]);
      BegunWhileDown(run[l - 1], run[l]);
    }
  }

  // ---------- A worker can go on ----------

  /** A worker with nothing in hand can take the front of its queue. */
  lemma CanReceive(s: State, w: nat) returns (t: State)
    requires w < |s.workers| && s.workers[w].doing == Waiting && s.workers[w].queue != []
    ensures Next(s, t) && SameFlagAndIds(s, t)
    ensures var a := s.workers[w];
            t.workers == s.workers[w := a.(queue := a.queue[1..], doing := Got(a.queue[0]))]
  {
    t := Apply(s, Work(w, Receive));
    assert Enabled(s, Work(w, Receive));
  }

  predicate SameFlagAndIds(s: State, t: State) {
    t.stop == s.stop && t.begun == s.begun && t.nextReqId == s.nextReqId
  }

  /** With the flag down it can begin to handle it, with the next id, whatever the handler will emit. */
  lemma CanHandle(s: State, w: nat, logs: nat, stats: Option<Report>) returns (t: State)
    requires w < |s.workers| && s.workers[w].doing.Got? && !s.stop
    ensures Next(s, t) && t.stop == s.stop && t.begun == s.begun + [RequestContext(s.nextReqId, w)]
    ensures var a := s.workers[w];
            var req := RequestContext(s.nextReqId, w);
            t.workers == s.workers[w := a.(doing := Handling(a.doing.conn, req, logs, stats))]
  {
    hide Bump;
    t := Apply(s, Work(w, Begin(logs, stats)));
    assert Enabled(s, Work(w, Begin(logs, stats)));
  }

  /** With the flag up it can answer 503. */
  lemma CanRefuse(s: State, w: nat) returns (t: State)
    requires w < |s.workers| && s.workers[w].doing.Got? && s.stop
    ensures Next(s, t) && SameFlagAndIds(s, t)
    ensures var a := s.workers[w];
            t.workers == s.workers[w := a.(doing := Waiting, served := a.served + [Served(a.doing.conn, Answered503)])]
  {
    t := Apply(s, Work(w, Refuse));
    assert Enabled(s, Work(w, Refuse));
  }

  /** The task of a handler after its next record. */
  function LessToEmit(d: Doing): Doing
    requires d.Handling? && (d.logsLeft > 0 || d.statsLeft.Some?)
  {
    if d.logsLeft > 0 then d.(logsLeft := d.logsLeft - 1) else d.(statsLeft := None)
  }

  /** A handler can emit what it has left, full channels or not. */
  lemma CanEmit(s: State, w: nat) returns (t: State)
    requires w < |s.workers| && s.workers[w].doing.Handling?
    requires s.workers[w].doing.logsLeft > 0 || s.workers[w].doing.statsLeft.Some?
    ensures Next(s, t) && SameFlagAndIds(s, t)
    ensures var a := s.workers[w]; t.workers == s.workers[w := a.(doing := LessToEmit(a.doing))]
  {
    hide TrySendLog;
    var step := Work(w, if s.workers[w].doing.logsLeft > 0 then EmitLog else RecordStats);
    t := Apply(s, step);
    assert Enabled(s, step);
  }

  /** And finish when nothing is left. */
  lemma CanFinish(s: State, w: nat) returns (t: State)
    requires w < |s.workers| && s.workers[w].doing.Handling?
    requires s.workers[w].doing.logsLeft == 0 && s.workers[w].doing.statsLeft.None?
    ensures Next(s, t) && SameFlagAndIds(s, t)
    ensures var a := s.workers[w];
            t.workers == s.workers[w := a.(doing := Waiting, served := a.served + [Served(a.doing.conn, Handled)])]
  {
    t := Apply(s, Work(w, Finish));
    assert Enabled(s, Work(w, Finish));
  }

  /** A handler can always run to its end, whatever the other threads have left behind. */
  lemma {:induction false} HandlerCanEnd(s: State, w: nat) returns (run: seq<State>)
    requires w < |s.workers| && s.workers[w].doing.Handling?
    ensures run != [] && run[0] == s && IsChain(run)
    ensures var a, t := s.workers[w], run[|run| - 1];
            && SameFlagAndIds(s, t)
            && t.workers == s.workers[w := a.(doing := Waiting, served := a.served + [Served(a.doing.conn, Handled)])]
    decreases Unfinished(s.workers[w])
  {
    hide Next;
    var d := s.workers[w].doing;
    if d.logsLeft == 0 && d.statsLeft.None? {
      var t := CanFinish(s, w);
      run := [s, t];
    } else {
      var t := CanEmit(s, w);
      var rest := HandlerCanEnd(t, w);
      ChainGrows(s, rest);
      run := [s] + rest;
    }
  }

  /** With the flag down, the connection in front of a waiting worker's queue can be handled to its end,
      under the next request id, whatever its handler emits. */
  lemma FrontCanBeHandled(s: State, w: nat, logs: nat, stats: Option<Report>) returns (run: seq<State>)
    requires w < |s.workers| && s.workers[w].doing == Waiting && s.workers[w].queue != [] && !s.stop
    ensures run != [] && run[0] == s && IsChain(run)
    ensures var a, t := s.workers[w], run[|run| - 1];
            && t.begun == s.begun + [RequestContext(s.nextReqId, w)] && !t.stop
            && t.workers == s.workers[w :=
                 a.(queue := a.queue[1..], served := a.served + [Served(a.queue[0], Handled)])]
  {
    hide Next;
    var t := CanReceive(s, w);
    var u := CanHandle(t, w, logs, stats);
    var rest := HandlerCanEnd(u, w);
    ChainGrows(t, rest);
    ChainGrows(s, [t] + rest);
    run := [s] + ([t] + rest);
  }

  // ---------- The health monitor ----------

  /** A probe that has begun ends, the monitor leaves only between probes and when told to, and it begins
      no probe after that. */
  lemma HealthTurn(s: State, t: State)
    requires Next(s, t)
    ensures match s.health
            case Idle => t.health == Idle || t.health == (if s.healthStop then Gone else Probing)
            case Probing => t.health == Probing || t.health == Idle
            case Gone => t.health == Gone
  {
    hide ApplyMain, ApplyWork, ApplyService, SubmitTo;
    var step :| Enabled(s, step) && t == Apply(s, step);
    match step
    case Main(m) =>
      if m.Submit? {
        MainIsSubmit(s, m.conn);
        SubmitFrame(s, m.conn);
      } else {
        MainKeepsServices(s, m);
      }
    case Work(v, a) => WorkKeepsPhase(s, v, a);
    case Service(b) => ServiceHealth(s, b);
  }

  lemma ServiceHealth(s: State, step: ServiceStep)
    requires ServiceEnabled(s, step)
    ensures ApplyService(s, step).health
         == match step
            case Probe => Probing
            case ProbeDone(_) => Idle
            case HealthExit => Gone
            case _ => s.health
  {
    hide TrySendLog;
  }

  /** Until it is told to stop the monitor can always probe, and a probe can always end, with or without
      a change of health to log. */
  lemma CanProbe(s: State, event: bool) returns (t: State)
    requires (s.health == Idle && !s.healthStop) || s.health == Probing
    ensures Next(s, t) && t.health == if s.health == Idle then Probing else Idle
  {
    hide TrySendLog;
    var step := Service(if s.health == Idle then Probe else ProbeDone(event));
    t := Apply(s, step);
    assert Enabled(s, step);
  }

  // ---------- Records ----------

  /** The statistics a handler reports are enqueued unless the channel is full: while a handler runs,
      the channel is never closed. */
  lemma ReportIsRecordedUnlessFull(s: State, w: nat)
    requires Inv(s) && Enabled(s, Work(w, RecordStats))
    ensures var t, d := Apply(s, Work(w, RecordStats)), s.workers[w].doing;
            var full, r := |s.metricsQueue| == s.cfg.metricsCapacity, d.statsLeft.value;
            var stats := RequestStats(d.req.reqId, d.req.workerId, r.backend, r.requestLen, r.responseLen, r.duration,
                                      r.outcome);
            && t.recorded == (if full then s.recorded else s.recorded + [stats])
            && t.metricsQueue == if full then s.metricsQueue else s.metricsQueue + [stats]
  {
    hide WorkersInOrder, SubmissionOrder, Conserved, Routed, Attributed, TrySendLog, Numbered;
    assert PhaseNumber(s.phase) < 5;
  }

  /** The metrics and the log thread can take the front of their channels as long as there is one. */
  lemma CanDrain(s: State) returns (t: State, u: State)
    requires Inv(s)
    ensures s.metricsQueue != [] ==>
              Next(s, t) && t.aggregated == s.aggregated + [s.metricsQueue[0]] && t.metricsQueue == s.metricsQueue[1..]
    ensures s.logQueue > 0 ==> Next(s, u) && u.logQueue == s.logQueue - 1
  {
    hide WorkersInOrder, SubmissionOrder, Conserved, Routed, Counted, Attributed, Owned, TrySendLog;
    t, u := s, s;
    if s.metricsQueue != [] {
      t := Apply(s, Service(Aggregate(true)));
      assert Enabled(s, Service(Aggregate(true)));
    }
    if s.logQueue > 0 {
      u := Apply(s, Service(WriteLog));
      assert Enabled(s, Service(WriteLog));
    }
  }

  /** The owner can submit at any time, and raise the flag while serving. */
  lemma OwnerCanGoOn(s: State, conn: Conn)
    requires s.workers != []
    ensures Next(s, SubmitTo(s, conn))
    ensures s.phase == Serving ==> Next(s, s.(stop := true))
  {
    hide SubmitTo;
    assert Enabled(s, Main(Submit(conn)));
    assert s.phase == Serving ==> Enabled(s, Main(RaiseFlag)) && Apply(s, Main(RaiseFlag)) == s.(stop := true);
  }

  /** How many log records a step emits. */
  function Emits(step: Step): nat {
    match step
    case Main(m) => if m == JoinMetricsThread then 1 else 0
    case Work(_, a) => if a == EmitLog then 1 else 0
    case Service(b) =>
      match b
      case Aggregate(snapshot) => if snapshot then 2 else 1
      case ProbeDone(event) => if event then 1 else 0
      case _ => 0
  }

  /** Log records are enqueued as long as there is room, and taken out only by the log thread, which
      runs as long as there may be records. */
  lemma LogIsQueuedUnlessFull(s: State, step: Step)
    requires Inv(s) && Enabled(s, step)
    ensures var t := Apply(s, step);
            if step == Service(WriteLog) then t.logQueue == s.logQueue - 1
            else if s.logQueue + Emits(step) <= s.cfg.logCapacity then t.logQueue == s.logQueue + Emits(step)
            else t.logQueue == s.cfg.logCapacity
    ensures Emits(step) > 0 ==> s.logRunning
    ensures var t := Apply(s, step);
            t.aggregated != s.aggregated && |t.aggregated| % 100 == 0 ==> Emits(step) == 2
  {
    hide WorkersInOrder, SubmissionOrder, Conserved, Routed, Attributed, Numbered, ApplyMain, ApplyWork, ApplyService;
    match step
    case Main(m) => MainLogs(s, m);
    case Work(w, a) => WorkLogs(s, w, a);
    case Service(b) =>
      hide Owned;
      ServiceLogs(s, b);
  }

  lemma MainLogs(s: State, step: OwnerStep)
    requires MainEnabled(s, step)
    ensures var t := ApplyMain(s, step);
            t.aggregated == s.aggregated
            && t.logQueue == if step == JoinMetricsThread then TrySendLog(s, 1) else s.logQueue
  {
    hide TrySendLog, SubmitTo;
    match step
    case Submit(conn) => SubmitLeavesLog(s, conn);
    case JoinMetricsThread =>
    case Detach =>
    case _ =>
  }

  lemma WorkLogs(s: State, w: nat, step: WorkerStep)
    requires WorkEnabled(s, w, step)
    ensures var t := ApplyWork(s, w, step);
            t.aggregated == s.aggregated && t.logQueue == if step == EmitLog then TrySendLog(s, 1) else s.logQueue
  {
    hide TrySendLog, WorkerAfter, Bump, StatsOf;
    match step
    case EmitLog =>
    case RecordStats =>
    case _ =>
  }

  lemma ServiceLogs(s: State, step: ServiceStep)
    requires ServiceEnabled(s, step)
    ensures var t := ApplyService(s, step);
            && (if step == WriteLog then s.logQueue > 0 && t.logQueue == s.logQueue - 1
                else if Emits(Service(step)) == 0 then t.logQueue == s.logQueue
                else t.logQueue == TrySendLog(s, Emits(Service(step))))
            && (t.aggregated != s.aggregated && |t.aggregated| % 100 == 0 ==> Emits(Service(step)) == 2)
            && (Emits(Service(step)) > 0 ==> step.Aggregate? || s.health == Probing)
  {
    hide TrySendLog;
    match step
    case Aggregate(_) =>
    case ProbeDone(_) =>
    case _ =>
  }

  lemma SubmitLeavesLog(s: State, conn: Conn)
    requires s.workers != []
    ensures SubmitTo(s, conn).logQueue == s.logQueue && SubmitTo(s, conn).aggregated == s.aggregated
  {
    hide Bump;
  }
}
