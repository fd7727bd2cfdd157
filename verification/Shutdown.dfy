/** What holds in every run of the pool, and the shutdown: when it deadlocks, that it terminates in
    every interleaving, and what is true when it returns. */
module Shutdown {
  import opened Bytes
  import opened Streams
  import opened Selection
  import opened Backends
  import opened MetricsAggregation
  import opened Pool

  // ---------- The invariant of every run ----------

  ghost predicate Inv(s: State) {
    WorkersInOrder(s) && SubmissionOrder(s) && Conserved(s) && Routed(s) && Counted(s) && Attributed(s)
    && Joined(s) && Owned(s)
  }

  lemma {:induction false} NothingAccepted(workers: seq<Worker>, c: Conn)
    requires forall w | w in workers :: w.accepted == []
    ensures TimesAccepted(workers, c) == 0
  {
    if workers != [] {
      assert workers[|workers| - 1] in workers;
      NothingAccepted(workers[..|workers| - 1], c);
    }
  }

  lemma InitIsInv(s: State)
    requires Init(s)
    ensures Inv(s)
  {
    forall w | 0 <= w < |s.workers|
      ensures s.workers[w] == Worker([], Waiting, [], [])
    {
      assert s.workers[w] in s.workers;
    }
    forall c
      ensures TimesAccepted(s.workers, c) == 0
    {
      NothingAccepted(s.workers, c);
    }
    InitIsOwned(s);
    InitIsAttributed(s);
  }

  lemma InitIsAttributed(s: State)
    requires Init(s) && forall w | 0 <= w < |s.workers| :: s.workers[w] == Worker([], Waiting, [], [])
    ensures Attributed(s)
  {
    NothingWeighs(s.workers, Handlers);
    forall p: RequestContext -> bool
      ensures AttributedTo(s, p)
    {
      NothingWeighs(s.workers, Owes(p));
    }
  }

  lemma {:induction false} NothingWeighs(workers: seq<Worker>, weigh: Worker -> nat)
    requires forall w | 0 <= w < |workers| :: weigh(workers[w]) == 0
    ensures Sum(workers, weigh) == 0
  {
    if workers != [] {
      var k := |workers| - 1;
      assert forall w | 0 <= w < k :: workers[..k][w] == workers[w];
      NothingWeighs(workers[..k], weigh);
    }
  }

  lemma InitIsOwned(s: State)
    requires Init(s) && forall w | 0 <= w < |s.workers| :: s.workers[w] == Worker([], Waiting, [], [])
    ensures Owned(s)
  {
    assert forall o :: o in s.logSenders && o != Outside ==> o in s.logSenders - {Outside};
    assert forall o :: o in s.contextHolders && o != Outside ==> o in s.contextHolders - {Outside};
    assert {ThePool, TheContext, MetricsThread, HealthThread} <= s.logSenders;
    assert {ThePool} + Owners(s.cfg.workers) <= s.contextHolders;
    forall w: nat
      ensures WorkerThread(w) in s.contextHolders <==> w < |s.workers|
    {
      assert WorkerThread(w) in Owners(s.cfg.workers) <==> w < s.cfg.workers;
    }
  }

  lemma StepKeepsInv(s: State, step: Step)
    requires Inv(s) && Enabled(s, step)
    ensures Inv(Apply(s, step))
  {
    hide Apply, Enabled, WorkersInOrder, SubmissionOrder, Conserved, Routed, Counted, Attributed, Joined, Owned;
    OrderIsKept(s, step);
    SubmissionOrderIsKept(s, step);
    ConservationIsKept(s, step);
    RoutingIsKept(s, step);
    CountsAreKept(s, step);
    AttributionIsKept(s, step);
    JoinedIsKept(s, step);
    OwnedIsKept(s, step);
  }

  lemma {:induction false} RunKeepsInv(run: seq<State>, k: nat)
    requires IsRun(run) && k < |run|
    ensures Inv(run[k])
  {
    hide Inv, Init, Apply, Enabled;
    if k == 0 {
      InitIsInv(run[0]);
    } else {
      RunKeepsInv(run, k - 1);
      assert Next(run[k - 1], run[k - 1 + 1]);
      var step :| Enabled(run[k - 1], step) && run[k] == Apply(run[k - 1], step);
      StepKeepsInv(run[k - 1], step);
    }
  }

  // ---------- Where a connection can be ----------

  /** How often a connection was finished with a fate. */
  function Finished(served: seq<Served>, c: Conn, fate: Fate): nat {
    if served == [] then 0
    else Finished(served[..|served| - 1], c, fate) + if served[|served| - 1] == Served(c, fate) then 1 else 0
  }

  function HeldBy(w: Worker, c: Conn): nat { if InHand(w.doing) == [c] then 1 else 0 }

  /** Places of a connection at one worker: queued, in hand, handled, answered 503 while draining. */
  function PlacesAt(w: Worker, c: Conn): nat {
    multiset(w.queue)[c] + HeldBy(w, c) + Finished(w.served, c, Handled) + Finished(w.served, c, Answered503)
  }

  function Places(workers: seq<Worker>, c: Conn): nat {
    if workers == [] then 0 else Places(workers[..|workers| - 1], c) + PlacesAt(workers[|workers| - 1], c)
  }

  lemma {:induction false} FinishedAreServed(served: seq<Served>, c: Conn)
    ensures multiset(ConnsOf(served))[c] == Finished(served, c, Handled) + Finished(served, c, Answered503)
  {
    if served != [] {
      var x := served[|served| - 1];
      assert x.fate == Handled || x.fate == Answered503;
      FinishedAreServed(served[..|served| - 1], c);
    }
  }

  lemma AcceptedHasPlace(w: Worker, capacity: nat, c: Conn)
    requires InOrder(w, capacity)
    ensures multiset(w.accepted)[c] == PlacesAt(w, c)
  {
    hide ConnsOf, Finished;
    FinishedAreServed(w.served, c);
    var served, hand, queue := ConnsOf(w.served), InHand(w.doing), w.queue;
    assert multiset(served + hand + queue) == multiset(served) + multiset(hand) + multiset(queue);
  }

  lemma {:induction false} AcceptedHavePlaces(workers: seq<Worker>, capacity: nat, c: Conn)
    requires forall w | 0 <= w < |workers| :: InOrder(workers[w], capacity)
    ensures TimesAccepted(workers, c) == Places(workers, c)
  {
    hide InOrder, PlacesAt;
    if workers != [] {
      var k := |workers| - 1;
      assert forall w | 0 <= w < k :: workers[..k][w] == workers[w];
      AcceptedHavePlaces(workers[..k], capacity, c);
      AcceptedHasPlace(workers[k], capacity, c);
    }
  }

  /** Conservation, at every moment of every run: a connection is as often returned to the caller,
      queued, in a worker's hands, handled or answered 503, all together, as it was submitted. */
  lemma ConnectionsAreConserved(run: seq<State>, k: nat, c: Conn)
    requires IsRun(run) && k < |run|
    ensures multiset(run[k].submitted)[c] == multiset(run[k].returned)[c] + Places(run[k].workers, c)
  {
    hide IsRun, InOrder, Places, TimesAccepted;
    RunKeepsInv(run, k);
    AcceptedHavePlaces(run[k].workers, run[k].cfg.perWorkerQueue, c);
  }

  /** Each worker accepts and finishes its connections in the order of their submission. */
  lemma ServedInSubmissionOrder(run: seq<State>, k: nat, w: nat)
    requires IsRun(run) && k < |run| && w < |run[k].workers|
    ensures IsSubsequence(run[k].workers[w].accepted, run[k].submitted)
    ensures ConnsOf(run[k].workers[w].served) <= run[k].workers[w].accepted
    ensures IsSubsequence(ConnsOf(run[k].workers[w].served), run[k].submitted)
    ensures run[k].workers[w].doing == Exited ==> ConnsOf(run[k].workers[w].served) == run[k].workers[w].accepted
  {
    hide IsRun, IsSubsequence;
    RunKeepsInv(run, k);
    var s, worker := run[k], run[k].workers[w];
    hide Conserved, Routed, Counted, Attributed, Joined, Owned;
    OrderMeaning(worker, s.cfg.perWorkerQueue);
    assert worker.accepted[..|ConnsOf(worker.served)|] == ConnsOf(worker.served);
    PrefixOfSubsequence(worker.accepted, s.submitted, |ConnsOf(worker.served)|);
  }

  lemma OrderMeaning(w: Worker, capacity: nat)
    requires InOrder(w, capacity)
    ensures ConnsOf(w.served) <= w.accepted
    ensures w.doing == Exited ==> ConnsOf(w.served) == w.accepted
    ensures |w.accepted| - |ConnsOf(w.served)| <= capacity + 1
  {
    assert ConnsOf(w.served) + InHand(w.doing) + w.queue == ConnsOf(w.served) + (InHand(w.doing) + w.queue);
  }

  /** Accepted and unfinished connections of the first `n` workers. */
  function Load(workers: seq<Worker>): int {
    if workers == [] then 0
    else Load(workers[..|workers| - 1]) + |workers[|workers| - 1].accepted| - |ConnsOf(workers[|workers| - 1].served)|
  }

  lemma {:induction false} LoadOfOrdered(workers: seq<Worker>, capacity: nat)
    requires forall w | 0 <= w < |workers| :: InOrder(workers[w], capacity)
    ensures 0 <= Load(workers) <= |workers| * (capacity + 1)
  {
    hide InOrder, ConnsOf;
    if workers != [] {
      var k := |workers| - 1;
      assert forall w | 0 <= w < k :: workers[..k][w] == workers[w];
      LoadOfOrdered(workers[..k], capacity);
      OrderMeaning(workers[k], capacity);
      assert (k + 1) * (capacity + 1) == k * (capacity + 1) + (capacity + 1);
    }
  }

  lemma {:induction false} ConfigIsFixed(run: seq<State>, k: nat)
    requires IsRun(run) && k < |run|
    ensures run[k].cfg == run[0].cfg
  {
    hide Init, Enabled, Apply;
    if k > 0 {
      ConfigIsFixed(run, k - 1);
      assert Next(run[k - 1], run[k - 1 + 1]);
      var step :| Enabled(run[k - 1], step) && run[k] == Apply(run[k - 1], step);
      StepKeepsConfig(run[k - 1], step);
    }
  }

  lemma StepKeepsConfig(s: State, step: Step)
    requires Enabled(s, step)
    ensures Apply(s, step).cfg == s.cfg
  {
    hide MainEnabled, WorkEnabled, ServiceEnabled, ApplyMain, ApplyWork, ApplyService, WorkerAfter;
    match step
    case Main(m) =>
      if m.Submit? {
        SubmitKeepsConfig(s, m);
      } else {
        MainFrame(s, m);
      }
    case Work(w, a) => WorkFrame(s, w, a);
    case Service(b) => ServiceFrame(s, b);
  }

  lemma SubmitKeepsConfig(s: State, step: OwnerStep)
    requires MainEnabled(s, step) && step.Submit?
    ensures ApplyMain(s, step).cfg == s.cfg
  {
  }

  /** At most workers * (per_worker_queue + 1) connections are accepted and unfinished. Submissions go
      round the workers: each accepted exactly those of its turns that found room, in order. Request ids
      are 1, 2, 3, ... */
  lemma LoadAndNumbers(run: seq<State>, k: nat)
    requires IsRun(run) && k < |run|
    ensures var s, cfg := run[k], run[0].cfg;
            && Load(s.workers) <= cfg.workers * (cfg.perWorkerQueue + 1)
            && |s.workers| == cfg.workers > 0
            && (forall w | 0 <= w < |s.workers| :: s.workers[w].accepted == QueuedOn(s.dispatched, w, cfg.workers))
            && (forall j | 0 <= j < |s.dispatched| :: j < |s.submitted| && s.dispatched[j].conn == s.submitted[j])
            && (!s.stop ==> |s.dispatched| == |s.submitted|)
            && (forall j | 0 <= j < |s.begun| && j + 1 < TWO_64 :: s.begun[j].reqId == j + 1)
  {
    hide IsRun, InOrder, Load, QueuedOn, Conserved, Attributed, Joined, Owned;
    RunKeepsInv(run, k);
    ConfigIsFixed(run, k);
    LoadOfOrdered(run[k].workers, run[k].cfg.perWorkerQueue);
  }

  // ---------- Statistics and their handlers ----------

  lemma RecordHasHandler(s: State, i: nat)
    requires Attributed(s) && i < |s.recorded|
    ensures HandlerOf(s.recorded[i]) in s.begun
  {
    var p := (x: RequestContext) => x == HandlerOf(s.recorded[i]);
    assert AttributedTo(s, p) && FromHandler(p)(s.recorded[i]);
    CountAtLeastOne(s.recorded, FromHandler(p), i);
    CountFinds(s.begun, p);
  }

  lemma RecordsWithinHandlers(s: State)
    requires Attributed(s)
    ensures |s.recorded| <= |s.begun|
  {
    var p := (x: RequestContext) => true;
    assert AttributedTo(s, p);
    CountAll(s.recorded, FromHandler(p));
    CountFinds(s.begun, p);
  }

  lemma RecordIdsDiffer(s: State, i: nat, j: nat)
    requires Attributed(s) && Numbered(s.begun, s.nextReqId) && |s.begun| <= TWO_64
    requires i < j < |s.recorded|
    ensures s.recorded[i].reqId != s.recorded[j].reqId
  {
    var id := s.recorded[i].reqId;
    var p := (x: RequestContext) => x.reqId == id;
    hide Numbered, Count, Sum, Owes, Handlers;
    if s.recorded[j].reqId == id {
      assert AttributedTo(s, p);
      assert p(HandlerOf(s.recorded[i])) && p(HandlerOf(s.recorded[j]));
      CountAtLeastTwo(s.recorded, FromHandler(p), i, j);
      CountFinds(s.begun, p);
      var a, b :| 0 <= a < b < |s.begun| && p(s.begun[a]) && p(s.begun[b]);
      IdsDiffer(s.begun, s.nextReqId, a, b);
    }
  }

  /** No id is given twice before the counter has gone all the way round. */
  lemma IdsDiffer(begun: seq<RequestContext>, next: nat, a: nat, b: nat)
    requires Numbered(begun, next) && a < b < |begun| <= TWO_64
    ensures begun[a].reqId != begun[b].reqId
  {
  }

  /** At every moment of every run each record of statistics is that of a handler begun, with its id and
      worker; no two records share an id while ids do not wrap; and there are at most as many records
      as handlers, each of which has handled its connection or is at it. */
  lemma RecordsHaveHandlers(run: seq<State>, k: nat)
    requires IsRun(run) && k < |run|
    ensures var s := run[k];
            && (forall r | r in s.recorded :: HandlerOf(r) in s.begun)
            && (|s.begun| <= TWO_64 ==>
                  forall i, j | 0 <= i < j < |s.recorded| :: s.recorded[i].reqId != s.recorded[j].reqId)
            && |s.recorded| <= |s.begun| == Sum(s.workers, Handlers)
            && (s.phase == Done ==> RecordAll(s.aggregated).requests == |s.recorded|)
  {
    hide IsRun, WorkersInOrder, SubmissionOrder, Conserved, Joined, Owned, AttributedTo, Routed, Numbered;
    var s := run[k];
    RunKeepsInv(run, k);
    forall r | r in s.recorded
      ensures HandlerOf(r) in s.begun
    {
      var i :| 0 <= i < |s.recorded| && s.recorded[i] == r;
      RecordHasHandler(s, i);
    }
    if |s.begun| <= TWO_64 {
      forall i, j | 0 <= i < j < |s.recorded|
        ensures s.recorded[i].reqId != s.recorded[j].reqId
      {
        RecordIdsDiffer(s, i, j);
      }
    }
    RecordsWithinHandlers(s);
    if s.phase == Done {
      DoneIsDrained(s);
      DrainedTotals(s, SocketAddr(0, 0));
    }
  }

  // ---------- No deadlock ----------

  ghost predicate NoOutsiders(s: State) { Outside !in s.logSenders && Outside !in s.contextHolders }

  /** The next step of the thread that shuts down. */
  function NextMain(s: State): OwnerStep {
    match s.phase
    case Serving => BeginShutdown
    case FlagSet => StopHealth
    case AwaitHealth => JoinHealth
    case HealthJoined => StopAccepting
    case JoinWorkers(k) => if k < |s.workers| then JoinWorker else Detach
    case JoinMetrics => JoinMetricsThread
    case JoinLog => JoinLogThread
    case Done => JoinLogThread
  }

  /** Submissions come from the caller, not from a thread of the pool. */
  predicate IsSubmission(step: Step) { step.Main? && step.main.Submit? }

  /** Some thread can take a step. */
  ghost predicate CanStep(s: State) { exists step :: !IsSubmission(step) && Enabled(s, step) }

  /** Some other thread can take a step. */
  ghost predicate OthersCanRun(s: State) { exists step: Step :: !step.Main? && Enabled(s, step) }

  /** A step a worker can take, unless it has exited. */
  function WorkerMove(worker: Worker): WorkerStep {
    match worker.doing
    case Waiting => if worker.queue != [] then Receive else Exit
    case Got(_) => Refuse
    case Handling(_, _, logs, stats) => if logs > 0 then EmitLog else if stats.Some? then RecordStats else Finish
    case Exited => Exit
  }

  lemma SendersGone(s: State)
    requires Inv(s)
    ensures PhaseNumber(s.phase) >= 5 && Outside !in s.contextHolders ==> s.metricsSenders == {}
    ensures PhaseNumber(s.phase) >= 6 && NoOutsiders(s) ==> s.logSenders == {}
  {
    hide WorkersInOrder, SubmissionOrder, Conserved, Routed, Counted, Attributed;
    if PhaseNumber(s.phase) >= 6 && NoOutsiders(s) {
      forall o
        ensures o !in s.logSenders
      {
        match o
        case WorkerThread(w) =>
        case _ =>
      }
    }
  }

  /** The phase in which a shutdown has to end: any reference to the context held outside, strong or weak,
      keeps the metrics thread alive, a clone of the log sender the log thread. */
  ghost function EndPhase(s: State): Phase {
    if Outside in s.contextHolders then JoinMetrics else if Outside in s.logSenders then JoinLog else Done
  }

  /** Before its end phase a shutdown can go on: while the owner waits for a join, some other thread can
      take a step. */
  lemma WaitingIsNotDeadlock(s: State)
    requires Inv(s) && PhaseNumber(s.phase) >= 2 && s.phase != EndPhase(s) && s.phase != Done
    ensures MainEnabled(s, NextMain(s)) || OthersCanRun(s)
    ensures CanStep(s)
  {
    SendersGone(s);
    if Outside in s.contextHolders {
      MetricsThreadWaits(s);
    }
    hide WorkersInOrder, SubmissionOrder, Conserved, Routed, Counted, Attributed, Owned;
    if MainEnabled(s, NextMain(s)) {
      assert !IsSubmission(Main(NextMain(s))) && Enabled(s, Main(NextMain(s)));
    } else {
      var step: Step := match s.phase
        case JoinWorkers(k) => if k < |s.workers| then Work(k, WorkerMove(s.workers[k])) else Service(LogExit)
        case JoinMetrics => Service(if s.metricsQueue != [] then Aggregate(true) else MetricsExit)
        case JoinLog => Service(if s.logQueue > 0 then WriteLog else LogExit)
        case _ => Service(if s.health == Probing then ProbeDone(false) else HealthExit);
      assert !IsSubmission(step) && !step.Main? && Enabled(s, step);
    }
  }

  /** With the context referenced outside the metrics thread is never joined. */
  lemma MetricsThreadWaits(s: State)
    requires Inv(s) && Outside in s.contextHolders
    ensures PhaseNumber(s.phase) <= 5
  {
    hide WorkersInOrder, SubmissionOrder, Conserved, Routed, Counted, Attributed;
  }

  lemma DoneHasNoOutsiders(s: State)
    requires Inv(s) && s.phase == Done
    ensures NoOutsiders(s)
  {
    hide WorkersInOrder, SubmissionOrder, Conserved, Routed, Counted, Attributed;
  }

  /** A state of the shutdown in which nothing can happen is in the end phase: it is the finished
      shutdown exactly when no outsider holds a log sender or a reference to the context, and a deadlock
      otherwise. */
  lemma StuckIsDoneIff(s: State)
    requires Inv(s) && PhaseNumber(s.phase) >= 2
    requires !CanStep(s)
    ensures s.phase == EndPhase(s)
    ensures s.phase == Done <==> NoOutsiders(s)
  {
    hide Inv, CanStep;
    if s.phase == Done {
      DoneHasNoOutsiders(s);
    } else if s.phase != EndPhase(s) {
      WaitingIsNotDeadlock(s);
    }
  }

  /** The outsiders are the same. */
  ghost predicate SameOutsiders(s: State, t: State) {
    && (Outside in t.logSenders <==> Outside in s.logSenders)
    && (Outside in t.contextHolders <==> Outside in s.contextHolders)
  }

  lemma WorkKeepsOutsiders(s: State, w: nat, step: WorkerStep)
    requires WorkEnabled(s, w, step)
    ensures SameOutsiders(s, ApplyWork(s, w, step))
  {
    hide TrySendLog, WorkerAfter, Bump;
  }

  lemma ServiceKeepsOutsiders(s: State, step: ServiceStep)
    requires ServiceEnabled(s, step)
    ensures SameOutsiders(s, ApplyService(s, step))
  {
    hide TrySendLog;
  }

  lemma MainKeepsOutsiders(s: State, step: OwnerStep)
    requires MainEnabled(s, step)
    ensures SameOutsiders(s, ApplyMain(s, step))
  {
    hide TrySendLog, SubmitTo;
    match step
    case Submit(conn) => SubmitFrame(s, conn);
    case StopAccepting =>
    case Detach =>
    case JoinMetricsThread =>
    case _ =>
  }

  /** No step of the pool takes anything away from an outsider. */
  lemma OutsidersStay(s: State, step: Step)
    requires Enabled(s, step)
    ensures SameOutsiders(s, Apply(s, step))
  {
    hide ApplyMain, ApplyWork, ApplyService, SameOutsiders;
    match step
    case Main(m) => MainKeepsOutsiders(s, m);
    case Work(w, a) => WorkKeepsOutsiders(s, w, a);
    case Service(b) => ServiceKeepsOutsiders(s, b);
  }

  /** Along a run the outsiders stay the same. */
  lemma {:induction false} OutsidersStayInRun(run: seq<State>, k: nat)
    requires IsRun(run) && k < |run|
    ensures SameOutsiders(run[0], run[k])
  {
    hide Init, Enabled, Apply;
    if k > 0 {
      OutsidersStayInRun(run, k - 1);
      assert Next(run[k - 1], run[k - 1 + 1]);
      var step :| Enabled(run[k - 1], step) && run[k] == Apply(run[k - 1], step);
      OutsidersStay(run[k - 1], step);
    }
  }

  /** While an outsider holds a log sender or a reference to the context, no run ever finishes the
      shutdown. */
  lemma OutsidersBlockShutdown(run: seq<State>, k: nat)
    requires IsRun(run) && k < |run| && !NoOutsiders(run[0])
    ensures run[k].phase != Done
  {
    hide IsRun, Inv;
    RunKeepsInv(run, k);
    OutsidersStayInRun(run, k);
    if run[k].phase == Done {
      DoneHasNoOutsiders(run[k]);
    }
  }

  // ---------- Termination ----------

  /** Connections not yet given to a handler or refused. */
  function Unbegun(w: Worker): nat { 2 * |w.queue| + if w.doing.Got? then 1 else 0 }

  /** Steps of the current handler, and the exit. */
  function Unfinished(w: Worker): nat {
    match w.doing
    case Exited => 0
    case Waiting => 1
    case Got(_) => 1
    case Handling(_, _, logs, stats) => 2 + logs + if stats.Some? then 1 else 0
  }

  function HealthLeft(h: Health): nat { match h case Gone => 0 case Idle => 1 case Probing => 2 }

  function PhaseLeft(p: Phase, workers: nat): int {
    match p
    case Serving => workers + 8
    case FlagSet => workers + 7
    case AwaitHealth => workers + 6
    case HealthJoined => workers + 5
    case JoinWorkers(k) => workers - k + 4
    case JoinMetrics => 3
    case JoinLog => 2
    case Done => 1
  }

  /** What is left to do, most significant first. Handlers may fill the metrics and log channels, the
      metrics thread the log channel, so workers come first and the log last. */
  datatype Rank = Rank(unbegun: nat, unfinished: nat, health: nat, metrics: nat, phase: int, log: nat)

  function RankOf(s: State): Rank {
    Rank(Sum(s.workers, Unbegun), Sum(s.workers, Unfinished), HealthLeft(s.health),
         |s.metricsQueue| + (if s.metricsRunning then 1 else 0), PhaseLeft(s.phase, |s.workers|),
         s.logQueue + (if s.logRunning then 1 else 0))
  }

  predicate Below(a: Rank, b: Rank) {
    if a.unbegun != b.unbegun then a.unbegun < b.unbegun
    else if a.unfinished != b.unfinished then a.unfinished < b.unfinished
    else if a.health != b.health then a.health < b.health
    else if a.metrics != b.metrics then a.metrics < b.metrics
    else if a.phase != b.phase then a.phase < b.phase
    else a.log < b.log
  }

  lemma WorkerAfterIsBelow(worker: Worker, step: WorkerStep, req: RequestContext)
    requires step.Receive? ==> worker.doing == Waiting && worker.queue != []
    requires step.Refuse? || step.Begin? ==> worker.doing.Got?
    requires step.EmitLog? || step.RecordStats? || step.Finish? ==> worker.doing.Handling?
    requires step.EmitLog? ==> worker.doing.logsLeft > 0
    requires step.RecordStats? ==> worker.doing.statsLeft.Some?
    requires step.Exit? ==> worker.doing == Waiting
    ensures var after := WorkerAfter(worker, step, req);
            || Unbegun(after) < Unbegun(worker)
            || (Unbegun(after) == Unbegun(worker) && Unfinished(after) < Unfinished(worker))
  {
  }

  lemma WorkGoesDown(s: State, w: nat, step: WorkerStep)
    requires WorkEnabled(s, w, step)
    ensures Below(RankOf(ApplyWork(s, w, step)), RankOf(s))
  {
    hide Sum, ApplyWork, Unbegun, Unfinished, WorkerAfter;
    var after := WorkerAfter(s.workers[w], step, RequestFor(s, w));
    WorkFrame(s, w, step);
    WorkerAfterIsBelow(s.workers[w], step, RequestFor(s, w));
    SumUpdate(s.workers, Unbegun, w, after);
    SumUpdate(s.workers, Unfinished, w, after);
  }

  lemma ServiceGoesDown(s: State, step: ServiceStep)
    requires ServiceEnabled(s, step) && s.healthStop
    ensures Below(RankOf(ApplyService(s, step)), RankOf(s))
  {
    hide Sum, TrySendLog;
  }

  lemma MainKeepsServices(s: State, step: OwnerStep)
    requires MainEnabled(s, step) && !step.Submit?
    ensures var t := ApplyMain(s, step);
            t.health == s.health && t.metricsQueue == s.metricsQueue && t.metricsRunning == s.metricsRunning
  {
    hide TrySendLog, SubmitTo;
    match step
    case StopAccepting =>
    case Detach =>
    case JoinMetricsThread =>
    case _ =>
  }

  lemma MainGoesDown(s: State, step: OwnerStep)
    requires MainEnabled(s, step) && !step.Submit? && PhaseNumber(s.phase) >= 2
    ensures Below(RankOf(ApplyMain(s, step)), RankOf(s))
    ensures PhaseNumber(ApplyMain(s, step).phase) >= 2
  {
    hide ApplyMain, NextMain, Sum;
    MainFrame(s, step);
    MainKeepsServices(s, step);
    MainIsNext(s, step);
    MainMovesOn(s);
  }

  /** From the moment the health monitor is told to stop, every step of every thread brings the
      shutdown closer to its end. */
  lemma EveryStepGoesDown(s: State, step: Step)
    requires Inv(s) && Enabled(s, step) && !IsSubmission(step) && PhaseNumber(s.phase) >= 2
    ensures Below(RankOf(Apply(s, step)), RankOf(s))
    ensures PhaseNumber(Apply(s, step).phase) >= 2
  {
    hide ApplyMain, ApplyWork, ApplyService, RankOf, Below;
    hide WorkersInOrder, SubmissionOrder, Conserved, Routed, Counted, Attributed, Owned;
    match step
    case Main(m) => MainGoesDown(s, m);
    case Work(w, a) =>
      WorkGoesDown(s, w, a);
      WorkKeepsPhase(s, w, a);
    case Service(b) =>
      ServiceGoesDown(s, b);
      ServiceKeepsPhase(s, b);
  }

  /** One step of some thread. */
  ghost predicate StepsTo(s: State, t: State) {
    exists step :: !IsSubmission(step) && Enabled(s, step) && t == Apply(s, step)
  }

  /** What a step of a shutdown keeps, and that it goes down. */
  lemma ShutdownStep(s: State, t: State)
    requires Inv(s) && PhaseNumber(s.phase) >= 2 && StepsTo(s, t)
    ensures Inv(t) && PhaseNumber(t.phase) >= 2 && SameOutsiders(s, t)
    ensures Below(RankOf(t), RankOf(s)) && RankOf(s).phase > 0
    ensures Next(s, t)
  {
    hide Inv, Enabled, Apply, RankOf, Below, SameOutsiders;
    var step :| !IsSubmission(step) && Enabled(s, step) && t == Apply(s, step);
    StepKeepsInv(s, step);
    EveryStepGoesDown(s, step);
    OutsidersStay(s, step);
    PhaseLeftBounded(s);
  }

  /** Termination over every interleaving: no infinite sequence of states is a shutdown in which threads
      keep taking steps, in whatever order. */
  lemma {:induction false} ShutdownIsFinite(run: nat -> State, k: nat) returns (j: nat)
    requires Inv(run(k)) && PhaseNumber(run(k).phase) >= 2
    ensures k <= j && !StepsTo(run(j), run(j + 1))
    decreases RankOf(run(k)).unbegun, RankOf(run(k)).unfinished, RankOf(run(k)).health, RankOf(run(k)).metrics,
              RankOf(run(k)).phase, RankOf(run(k)).log
  {
    hide Inv, StepsTo, RankOf;
    j := k;
    if StepsTo(run(k), run(k + 1)) {
      ShutdownStep(run(k), run(k + 1));
      j := ShutdownIsFinite(run, k + 1);
    }
  }

  /** A shutdown that goes on as long as any thread can take a step. */
  ghost predicate IsMaximal(run: seq<State>) {
    && run != [] && (forall k | 0 <= k < |run| - 1 :: StepsTo(run[k], run[k + 1]))
    && !CanStep(run[|run| - 1])
  }

  /** From every state of a shutdown there is a maximal run. */
  lemma {:induction false} RunOn(s: State) returns (run: seq<State>)
    requires Inv(s) && PhaseNumber(s.phase) >= 2
    ensures IsMaximal(run) && run[0] == s
    decreases RankOf(s).unbegun, RankOf(s).unfinished, RankOf(s).health, RankOf(s).metrics,
              RankOf(s).phase, RankOf(s).log
  {
    hide Inv, Enabled, Apply, RankOf, IsSubmission;
    run := [s];
    if CanStep(s) {
      var step :| !IsSubmission(step) && Enabled(s, step);
      var t := Apply(s, step);
      assert StepsTo(s, t);
      ShutdownStep(s, t);
      hide StepsTo, CanStep;
      var rest := RunOn(t);
      run := [s] + rest;
      assert forall k | 0 < k < |run| - 1 :: run[k] == rest[k - 1] && run[k + 1] == rest[k];
      assert forall k | 0 <= k < |rest| - 1 :: StepsTo(rest[k], rest[k + 1]);
    }
  }

  lemma {:induction false} MaximalKeepsInv(run: seq<State>, k: nat)
    requires IsMaximal(run) && Inv(run[0]) && PhaseNumber(run[0].phase) >= 2 && k < |run|
    ensures Inv(run[k]) && PhaseNumber(run[k].phase) >= 2 && SameOutsiders(run[0], run[k])
  {
    hide Inv, StepsTo, CanStep;
    if k > 0 {
      MaximalKeepsInv(run, k - 1);
      assert StepsTo(run[k - 1], run[k - 1 + 1]);
      ShutdownStep(run[k - 1], run[k]);
    }
  }

  /** Every maximal run of a shutdown, in whatever order the threads take their steps, ends in the end
      phase; without outsiders that is the finished shutdown, with everything drained. */
  lemma MaximalRunEnds(run: seq<State>)
    requires IsMaximal(run) && Inv(run[0]) && PhaseNumber(run[0].phase) >= 2
    ensures var last := run[|run| - 1];
            && last.phase == EndPhase(run[0])
            && (NoOutsiders(run[0]) ==> Drained(last))
  {
    hide Inv, Drained;
    var last := run[|run| - 1];
    MaximalKeepsInv(run, |run| - 1);
    StuckIsDoneIff(last);
    if NoOutsiders(run[0]) {
      DoneIsDrained(last);
    }
  }

  /** A pool after start-up, with or without a clone of the log sender and a reference to the context
      outside. */
  function StartState(cfg: Config, logClone: bool, contextRef: bool): State {
    State(cfg, Serving, false, false, Idle, Started(cfg.workers), true, 0, 1, [], [], [], [], [], [], [], true, 0, true,
          {ThePool, TheContext, MetricsThread, HealthThread} + (if logClone then {Outside} else {}),
          {ThePool, TheContext},
          {ThePool} + Owners(cfg.workers) + (if contextRef then {Outside} else {}))
  }

  function Started(n: nat): (workers: seq<Worker>)
    ensures |workers| == n && forall w | w in workers :: w == Worker([], Waiting, [], [])
  {
    if n == 0 then [] else Started(n - 1) + [Worker([], Waiting, [], [])]
  }

  lemma StartIsInit(cfg: Config, logClone: bool, contextRef: bool)
    requires ValidConfig(cfg)
    ensures var s := StartState(cfg, logClone, contextRef);
            && Init(s) && (Outside in s.logSenders <==> logClone) && (Outside in s.contextHolders <==> contextRef)
  {
    var s := StartState(cfg, logClone, contextRef);
    assert s.logSenders - {Outside} == {ThePool, TheContext, MetricsThread, HealthThread};
    assert s.contextHolders - {Outside} == {ThePool} + Owners(cfg.workers);
  }

  /** The deadlock is reached: from the start-up of any pool whose log sender was cloned or whose context
      is referenced outside, a run leads to a shutdown that waits forever, for the metrics thread if the
      context is referenced, else for the log thread. */
  lemma OutsidersDeadlock(cfg: Config, logClone: bool, contextRef: bool) returns (run: seq<State>)
    requires ValidConfig(cfg) && (logClone || contextRef)
    ensures IsRun(run) && run[0] == StartState(cfg, logClone, contextRef)
    ensures var last := run[|run| - 1];
            && !CanStep(last) && !NoOutsiders(last)
            && last.phase == if contextRef then JoinMetrics else JoinLog
  {
    hide Inv, Init, StartState, Started, CanStep, Next;
    var s := StartState(cfg, logClone, contextRef);
    StartIsInit(cfg, logClone, contextRef);
    InitIsInv(s);
    var t, u := BeginsShutdown(s);
    var rest := RunOn(u);
    MaximalRunEnds(rest);
    MaximalKeepsInv(rest, |rest| - 1);
    MaximalIsChain(rest);
    ChainGrows(t, rest);
    ChainGrows(s, [t] + rest);
    run := [s] + ([t] + rest);
  }

  lemma ChainGrows(s: State, run: seq<State>)
    requires run != [] && Next(s, run[0]) && IsChain(run)
    ensures IsChain([s] + run)
  {
    hide Next;
    forall k | 0 <= k < |run|
      ensures Next(([s] + run)[k], ([s] + run)[k + 1])
    {
      if k > 0 {
        assert Next(run[k - 1], run[k - 1 + 1]);
      }
    }
  }

  lemma MaximalIsChain(run: seq<State>)
    requires IsMaximal(run)
    ensures IsChain(run)
  {
    hide Enabled, Apply, CanStep, IsSubmission;
    forall k | 0 <= k < |run| - 1
      ensures Next(run[k], run[k + 1])
    {
      assert StepsTo(run[k], run[k + 1]);
    }
  }

  /** Raising the flag and stopping the health monitor, from a serving pool. */
  lemma BeginsShutdown(s: State) returns (t: State, u: State)
    requires Inv(s) && (Init(s) || s.phase == Serving)
    ensures Next(s, t) && Next(t, u) && Inv(u) && u.phase == AwaitHealth && SameOutsiders(s, u)
  {
    hide Inv, SubmitTo, TrySendLog;
    t := Apply(s, Main(BeginShutdown));
    u := Apply(t, Main(StopHealth));
    assert Enabled(s, Main(BeginShutdown)) && Enabled(t, Main(StopHealth));
    StepKeepsInv(s, Main(BeginShutdown));
    StepKeepsInv(t, Main(StopHealth));
  }

  // ---------- The pool's owner ----------

  /** The finished shutdown: every accepted connection was handled or answered 503, none is queued or
      in a worker, and all statistics enqueued have been aggregated. */
  ghost predicate Drained(s: State) {
    && s.phase == Done && !s.metricsRunning && !s.logRunning && s.health == Gone && s.logQueue == 0
    && s.metricsQueue == [] && s.aggregated == s.recorded
    && forall w | 0 <= w < |s.workers| ::
         && s.workers[w].doing == Exited && s.workers[w].queue == []
         && ConnsOf(s.workers[w].served) == s.workers[w].accepted
  }

  lemma DoneIsDrained(s: State)
    requires Inv(s) && s.phase == Done
    ensures Drained(s)
  {
    hide Conserved, Attributed, Owned, InOrder, ConnsOf, Routed, Numbered;
    assert s.recorded == s.aggregated + [];
    forall w | 0 <= w < |s.workers|
      ensures s.workers[w].queue == [] && ConnsOf(s.workers[w].served) == s.workers[w].accepted
    {
      OrderMeaning(s.workers[w], s.cfg.perWorkerQueue);
      ExitedIsEmpty(s.workers[w], s.cfg.perWorkerQueue);
    }
  }

  lemma ExitedIsEmpty(w: Worker, capacity: nat)
    requires InOrder(w, capacity) && w.doing == Exited
    ensures w.queue == []
  {
  }

  /** The aggregate of a finished shutdown counts exactly the statistics that were enqueued. */
  lemma DrainedTotals(s: State, b: SocketAddr)
    requires Drained(s)
    ensures var m := RecordAll(s.aggregated);
            && m.requests == |s.recorded| && m.bytes == BytesOf(s.recorded)
            && RequestsOver(m.perBackend, m.perBackend.Keys) == |s.recorded|
            && EntryOf(m.perBackend, b) == BackendMetrics(RequestsTo(s.recorded, b), ErrorsAt(s.recorded, b))
            && EntryOf(m.perBackend, b).errors <= EntryOf(m.perBackend, b).requests
            && (forall r | r in s.recorded :: r.requestLen <= m.largest)
            && (s.recorded != [] ==> exists r :: r in s.recorded && r.requestLen == m.largest)
  {
    hide RecordAll, RequestsOver, BytesOf, RequestsTo, ErrorsAt, EntryOf, ConnsOf;
    TotalsAreCounts(s.recorded, b);
    BackendsSumToTotal(s.recorded);
    LargestIsMaximum(s.recorded);
  }

  /** Chooses the thread that takes the next step, at the n-th choice in a state. The owner is one of
      the threads: it may be delayed while others go on. */
  type Scheduler = (nat, State) -> Step

  /** The scheduler always lets some thread run, if one can. */
  ghost predicate NeverIdles(pick: Scheduler) {
    forall n, s :: CanStep(s) ==> !IsSubmission(pick(n, s)) && Enabled(s, pick(n, s))
  }

  /** The phase that follows in a shutdown. */
  function NextPhase(p: Phase, workers: nat): Phase {
    match p
    case AwaitHealth => HealthJoined
    case HealthJoined => JoinWorkers(0)
    case JoinWorkers(k) => if k < workers then JoinWorkers(k + 1) else JoinMetrics
    case JoinMetrics => JoinLog
    case _ => Done
  }

  /** Counts the choices so far; the state is what all threads share. */
  class ThreadPool {
    var state: State
    var choices: nat

    constructor (state: State)
      requires Init(state)
      ensures this.state == state && Inv(state)
    {
      InitIsInv(state);
      this.state, this.choices := state, 0;
    }

    /** A connection is queued on the next worker in turn, or handed back: with `ShutdownInProgress`
        once the flag is up, with `PoolFull` when that worker's queue is full. An empty list of queues
        and a worker that is gone are never met: both come only after the flag. */
    method Submit(conn: Conn) returns (r: Result<()>)
      requires Inv(state)
      modifies this`state
      ensures Inv(state) && state == SubmitTo(old(state), conn)
      ensures r == Err(ShutdownInProgress) <==> old(state.stop)
      ensures old(state).workers != []
      ensures var w := old(state.dispatchIndex) % |old(state).workers|;
              var worker := old(state).workers[w];
              && (r == Err(PoolFull) <==> !old(state.stop) && |worker.queue| == old(state).cfg.perWorkerQueue)
              && state.workers == if r.Err? then old(state).workers else old(state).workers[w :=
                   Worker(worker.queue + [conn], worker.doing, worker.accepted + [conn], worker.served)]
      ensures r.Err? ==> r.error == ShutdownInProgress || r.error == PoolFull
      ensures r.Ok? ==> state.returned == old(state.returned)
      ensures r.Err? ==> state.returned == old(state.returned) + [conn]
    {
      StepKeepsInv(state, Main(OwnerStep.Submit(conn)));
      MainIsSubmit(state, conn);
      var s := state;
      if !s.stop {
        TargetIsOrdered(s);
      }
      hide Inv, InOrder, Bump, TargetOf, NoOutsiders;
      state := s.(submitted := s.submitted + [conn]);
      if s.stop {
        state := state.(returned := s.returned + [conn]);
        return Err(ShutdownInProgress);
      }
      var w := TargetOf(s);
      var room := |s.workers[w].queue| < s.cfg.perWorkerQueue;
      state := state.(dispatched := s.dispatched + [Dispatch(conn, room)], dispatchIndex := Bump(s.dispatchIndex));
      if !room {
        state := state.(returned := s.returned + [conn]);
        return Err(PoolFull);
      }
      var worker := s.workers[w];
      worker := worker.(queue := worker.queue + [conn], accepted := worker.accepted + [conn]);
      state := state.(workers := s.workers[w := worker]);
      r := Ok(());
    }

    /** The other threads run for a while, as far as the scheduler lets them. */
    method RunOthers(pick: Scheduler, steps: nat)
      requires Inv(state) && NoOutsiders(state)
      modifies this
      ensures Inv(state) && NoOutsiders(state) && state.phase == old(state).phase
    {
      hide Inv, NoOutsiders, Apply, Enabled, SameOutsiders;
      for k := 0 to steps
        invariant Inv(state) && NoOutsiders(state) && state.phase == old(state).phase
      {
        var step := pick(choices, state);
        choices := choices + 1;
        if !step.Main? && Enabled(state, step) {
          StepKeepsInv(state, step);
          NoOutsidersStay(state, step);
          OthersKeepPhase(state, step);
          state := Apply(state, step);
        }
      }
    }

    /** A join: threads take steps, in any order, until the owner has taken its next one. The owner may
        have to wait for a thread to exit, and may be delayed although it could go on. */
    method Advance(pick: Scheduler)
      requires Inv(state) && NoOutsiders(state) && NeverIdles(pick)
      requires PhaseNumber(state.phase) >= 2 && state.phase != Done
      modifies this
      ensures Inv(state) && NoOutsiders(state)
      ensures |state.workers| == |old(state).workers| && state.cfg == old(state).cfg
      ensures state.phase == NextPhase(old(state).phase, |state.workers|)
    {
      hide Inv, RankOf, Apply, CanStep, Enabled, NextPhase, SameOutsiders;
      var waiting := true;
      while waiting
        invariant Inv(state) && NoOutsiders(state)
        invariant |state.workers| == |old(state).workers| && state.cfg == old(state).cfg
        invariant state.phase == if waiting then old(state).phase else NextPhase(old(state).phase, |state.workers|)
        decreases waiting, RankOf(state).unbegun, RankOf(state).unfinished, RankOf(state).health, RankOf(state).metrics,
                  RankOf(state).phase, RankOf(state).log
      {
        WaitingIsNotDeadlock(state);
        var step := pick(choices, state);
        StepKeepsInv(state, step);
        EveryStepGoesDown(state, step);
        NoOutsidersStay(state, step);
        StepMovesPhase(state, step);
        PhaseLeftBounded(state);
        waiting := !step.Main?;
        state, choices := Apply(state, step), choices + 1;
      }
    }

    /** Joins the workers in order, lets go of the senders, and joins the metrics and the log thread:
        it returns under every scheduler that does not idle, with everything drained. */
    method ShutdownThreads(pick: Scheduler)
      requires Inv(state) && NoOutsiders(state) && NeverIdles(pick) && state.phase == HealthJoined
      modifies this
      ensures Inv(state) && Drained(state) && |state.workers| == |old(state).workers|
    {
      hide Inv, NoOutsiders, NeverIdles, Drained;
      Advance(pick);
      var k := 0;
      while k < |state.workers|
        invariant k <= |state.workers| == |old(state).workers|
        invariant Inv(state) && NoOutsiders(state) && state.phase == JoinWorkers(k)
      {
        Advance(pick);
        k := k + 1;
      }
      Advance(pick);
      Advance(pick);
      Advance(pick);
      DoneIsDrained(state);
    }

    /** `Balancer::shutdown`: raise the flag, stop and join the health monitor, then shut the pool
        down. Any number of steps of other threads may come between the first two. */
    method Shutdown(pick: Scheduler, between: nat)
      requires Inv(state) && NoOutsiders(state) && NeverIdles(pick) && state.phase == Serving
      modifies this
      ensures Inv(state) && Drained(state)
    {
      hide Inv, NoOutsiders, NeverIdles, Drained;
      StepKeepsInv(state, Main(BeginShutdown));
      NoOutsidersStay(state, Main(BeginShutdown));
      state := Apply(state, Main(BeginShutdown));
      RunOthers(pick, between);
      StepKeepsInv(state, Main(StopHealth));
      NoOutsidersStay(state, Main(StopHealth));
      state := Apply(state, Main(StopHealth));
      Advance(pick);
      ShutdownThreads(pick);
    }
  }

  lemma TargetIsOrdered(s: State)
    requires Inv(s) && !s.stop
    ensures s.connectionTxs && s.workers != []
    ensures s.workers[TargetOf(s)].doing != Exited && |s.workers[TargetOf(s)].queue| <= s.cfg.perWorkerQueue
  {
    hide SubmissionOrder, Conserved, Routed, Counted, Attributed, Owned, ConnsOf;
  }

  lemma OthersKeepPhase(s: State, step: Step)
    requires Enabled(s, step) && !step.Main?
    ensures var t := Apply(s, step); t.phase == s.phase && |t.workers| == |s.workers| && t.cfg == s.cfg
  {
    hide MainEnabled, ServiceEnabled, ApplyMain, ApplyWork, ApplyService, WorkerAfter;
    if step.Work? {
      WorkFrame(s, step.w, step.work);
      WorkKeepsPhase(s, step.w, step.work);
    } else {
      ServiceFrame(s, step.service);
      ServiceKeepsPhase(s, step.service);
    }
  }

  lemma PhaseLeftBounded(s: State)
    requires Inv(s)
    ensures RankOf(s).phase > 0
  {
    hide WorkersInOrder, SubmissionOrder, Conserved, Routed, Counted, Attributed, Owned, Sum;
  }

  lemma NoOutsidersStay(s: State, step: Step)
    requires Enabled(s, step) && NoOutsiders(s)
    ensures NoOutsiders(Apply(s, step))
  {
    hide Enabled, Apply;
    OutsidersStay(s, step);
  }

  /** Among the owner's steps only the next one of the shutdown is possible. */
  lemma MainIsNext(s: State, step: OwnerStep)
    requires MainEnabled(s, step) && !step.Submit? && PhaseNumber(s.phase) >= 2
    ensures step == NextMain(s) && s.phase != Done
  {
  }

  /** A step of another thread keeps the phase, the owner's moves it on. */
  lemma StepMovesPhase(s: State, step: Step)
    requires Enabled(s, step) && !IsSubmission(step) && PhaseNumber(s.phase) >= 2
    ensures var t := Apply(s, step);
            && |t.workers| == |s.workers| && t.cfg == s.cfg
            && t.phase == if step.Main? then NextPhase(s.phase, |s.workers|) else s.phase
  {
    hide Enabled, Apply, NextPhase, NextMain, WorkEnabled, ServiceEnabled;
    if step.Main? {
      EnablesMain(s, step.main);
      MainIsNext(s, step.main);
      AppliesMain(s, step.main);
      MainFrame(s, step.main);
      MainMovesOn(s);
    } else {
      OthersKeepPhase(s, step);
    }
  }

  lemma EnablesMain(s: State, step: OwnerStep)
    ensures Enabled(s, Main(step)) <==> MainEnabled(s, step)
  {
  }

  lemma AppliesMain(s: State, step: OwnerStep)
    requires MainEnabled(s, step)
    ensures Apply(s, Main(step)) == ApplyMain(s, step)
  {
  }

  lemma MainMovesOn(s: State)
    requires MainEnabled(s, NextMain(s)) && PhaseNumber(s.phase) >= 2 && s.phase != Done
    ensures ApplyMain(s, NextMain(s)).phase == NextPhase(s.phase, |s.workers|)
  {
    hide TrySendLog, SubmitTo;
  }
}
