/** The worker pool as a transition system: bounded queues, workers, the metrics and log threads, the
    health thread, and the thread that shuts everything down. Every step is one atomic action of one
    thread; a run is any interleaving. */
module Pool {
  import opened Bytes
  import opened Selection
  import opened Backends
  import opened Proxying
  import opened MetricsAggregation

  type Conn = nat

  datatype Config = Config(workers: nat, perWorkerQueue: nat, logCapacity: nat, metricsCapacity: nat)

  predicate ValidConfig(c: Config) {
    c.workers > 0 && c.perWorkerQueue > 0 && c.logCapacity > 0 && c.metricsCapacity > 0
  }

  /** The identity of a handler: its request id and the worker it runs on. */
  datatype RequestContext = RequestContext(reqId: nat, workerId: nat)

  /** One dispatch: the connection, and whether the worker in turn had room for it. */
  datatype Dispatch = Dispatch(conn: Conn, queued: bool)

  /** What a handler reports about its request. */
  datatype Report = Report(backend: SocketAddr, requestLen: nat, responseLen: nat, duration: nat, outcome: Outcome)

  /** The record of statistics carries the handler's identity. */
  function StatsOf(req: RequestContext, r: Report): RequestStats {
    RequestStats(req.reqId, req.workerId, r.backend, r.requestLen, r.responseLen, r.duration, r.outcome)
  }

  /** Where a worker is. A handler emits some finite number of log records and at most one record of
      statistics, then returns. */
  datatype Doing =
    | Waiting
    | Got(conn: Conn)
    | Handling(conn: Conn, req: RequestContext, logsLeft: nat, statsLeft: Option<Report>)
    | Exited

  datatype Fate = Handled | Answered503

  datatype Served = Served(conn: Conn, fate: Fate)

  /** One worker: its queue, what it does, and the connections ever queued and finished. */
  datatype Worker = Worker(queue: seq<Conn>, doing: Doing, accepted: seq<Conn>, served: seq<Served>)

  /** Who may hold a channel sender or a reference to the context. `Outside` stands for users of the
      library: for a clone of the log sender that one took through `log_sender()`, and for any reference
      to the context, strong or weak, made from `context()`. A weak one counts because the context is
      taken apart through `Arc::get_mut`, which fails while any exists. */
  datatype Owner = ThePool | TheContext | MetricsThread | HealthThread | WorkerThread(w: nat) | Outside

  datatype Health = Idle | Probing | Gone

  /** Where the owner of the pool is: serving, or how far in the shutdown. */
  datatype Phase =
    | Serving
    | FlagSet
    | AwaitHealth
    | HealthJoined
    | JoinWorkers(k: nat)
    | JoinMetrics
    | JoinLog
    | Done

  datatype State = State(
    cfg: Config,
    phase: Phase,
    stop: bool,
    healthStop: bool,
    health: Health,
    workers: seq<Worker>,
    connectionTxs: bool,
    dispatchIndex: nat,
    nextReqId: nat,
    dispatched: seq<Dispatch>,
    submitted: seq<Conn>,
    returned: seq<Conn>,
    begun: seq<RequestContext>,
    metricsQueue: seq<RequestStats>,
    recorded: seq<RequestStats>,
    aggregated: seq<RequestStats>,
    metricsRunning: bool,
    logQueue: nat,
    logRunning: bool,
    logSenders: set<Owner>,
    metricsSenders: set<Owner>,
    contextHolders: set<Owner>)

  function Owners(n: nat): set<Owner> {
    set w | 0 <= w < n :: WorkerThread(w)
  }

  /** After start-up: everyone holds what the constructors handed out; outsiders what they took. */
  ghost predicate Init(s: State) {
    && ValidConfig(s.cfg) && s.phase == Serving && !s.stop && !s.healthStop && s.health == Idle
    && |s.workers| == s.cfg.workers && (forall w | w in s.workers :: w == Worker([], Waiting, [], []))
    && s.dispatchIndex == 0 && s.nextReqId == 1
    && s.connectionTxs && s.dispatched == [] && s.submitted == [] && s.returned == [] && s.begun == []
    && s.metricsQueue == [] && s.recorded == [] && s.aggregated == [] && s.metricsRunning
    && s.logQueue <= 1 && s.logRunning
    && s.logSenders - {Outside} == {ThePool, TheContext, MetricsThread, HealthThread}
    && s.metricsSenders == {ThePool, TheContext}
    && s.contextHolders - {Outside} == {ThePool} + Owners(s.cfg.workers)
  }

  /** Steps of the thread that owns the pool. */
  datatype OwnerStep =
    | Submit(conn: Conn)
    | RaiseFlag
    | BeginShutdown
    | StopHealth
    | JoinHealth
    | StopAccepting
    | JoinWorker
    | Detach
    | JoinMetricsThread
    | JoinLogThread

  datatype WorkerStep =
    | Receive
    | Refuse
    | Begin(logs: nat, stats: Option<Report>)
    | EmitLog
    | RecordStats
    | Finish
    | Exit

  /** Steps of the metrics, log and health threads. */
  datatype ServiceStep =
    | Aggregate(snapshot: bool)
    | MetricsExit
    | WriteLog
    | LogExit
    | Probe
    | ProbeDone(event: bool)
    | HealthExit

  datatype Step = Main(main: OwnerStep) | Work(w: nat, work: WorkerStep) | Service(service: ServiceStep)

  /** `try_send` on the log channel: dropped when full. */
  function TrySendLog(s: State, records: nat): nat {
    if s.logQueue + records <= s.cfg.logCapacity then s.logQueue + records
    else if s.logQueue <= s.cfg.logCapacity then s.cfg.logCapacity
    else s.logQueue
  }

  /** The worker that the dispatch index selects. */
  function TargetOf(s: State): nat
    requires |s.workers| > 0
  {
    s.dispatchIndex % |s.workers|
  }

  predicate MainEnabled(s: State, step: OwnerStep) {
    match step
    case Submit(_) => s.workers != []
    case RaiseFlag => s.phase == Serving
    case BeginShutdown => s.phase == Serving
    case StopHealth => s.phase == FlagSet
    case JoinHealth => s.phase == AwaitHealth && s.health == Gone
    case StopAccepting => s.phase == HealthJoined
    case JoinWorker => s.phase.JoinWorkers? && s.phase.k < |s.workers| && s.workers[s.phase.k].doing == Exited
    case Detach => s.phase == JoinWorkers(|s.workers|)
    case JoinMetricsThread => s.phase == JoinMetrics && !s.metricsRunning
    case JoinLogThread => s.phase == JoinLog && !s.logRunning
  }

  predicate WorkEnabled(s: State, w: nat, step: WorkerStep) {
    w < |s.workers| &&
    var doing, queue := s.workers[w].doing, s.workers[w].queue;
    match step
    case Receive => doing == Waiting && queue != []
    case Refuse => doing.Got? && s.stop
    case Begin(_, _) => doing.Got? && !s.stop
    case EmitLog => doing.Handling? && doing.logsLeft > 0
    case RecordStats => doing.Handling? && doing.statsLeft.Some?
    case Finish => doing.Handling? && doing.logsLeft == 0 && doing.statsLeft.None?
    case Exit => doing == Waiting && queue == [] && !s.connectionTxs
  }

  predicate ServiceEnabled(s: State, step: ServiceStep) {
    match step
    case Aggregate(snapshot) =>
      s.metricsRunning && s.metricsQueue != [] && ((|s.aggregated| + 1) % 100 == 0 ==> snapshot)
    case MetricsExit => s.metricsRunning && s.metricsQueue == [] && s.metricsSenders == {}
    case WriteLog => s.logRunning && s.logQueue > 0
    case LogExit => s.logRunning && s.logQueue == 0 && s.logSenders == {}
    case Probe => s.health == Idle && !s.healthStop
    case ProbeDone(_) => s.health == Probing
    case HealthExit => s.health == Idle && s.healthStop
  }

  predicate Enabled(s: State, step: Step) {
    match step
    case Main(m) => MainEnabled(s, m)
    case Work(w, a) => WorkEnabled(s, w, a)
    case Service(b) => ServiceEnabled(s, b)
  }

  /** `fetch_add(1)` on a 64-bit counter. */
  function Bump(counter: nat): nat { (counter + 1) % TWO_64 }

  function SubmitTo(s: State, conn: Conn): State
    requires s.workers != []
  {
    var t := s.(submitted := s.submitted + [conn]);
    if s.stop || !s.connectionTxs then t.(returned := s.returned + [conn])
    else
      var w := TargetOf(s);
      var worker := s.workers[w];
      var room := worker.doing != Exited && |worker.queue| < s.cfg.perWorkerQueue;
      var u := t.(dispatched := s.dispatched + [Dispatch(conn, room)], dispatchIndex := Bump(s.dispatchIndex));
      if !room then u.(returned := s.returned + [conn])
      else u.(workers := s.workers[w := worker.(queue := worker.queue + [conn], accepted := worker.accepted + [conn])])
  }

  /** The shutdown sequence. The context gives up its senders only if no one else holds it. */
  function ApplyMain(s: State, step: OwnerStep): State
    requires MainEnabled(s, step)
  {
    match step
    case Submit(conn) => SubmitTo(s, conn)
    case RaiseFlag => s.(stop := true)
    case BeginShutdown => s.(stop := true, phase := FlagSet)
    case StopHealth => s.(healthStop := true, phase := AwaitHealth)
    case JoinHealth => s.(phase := HealthJoined)
    case StopAccepting => s.(stop := true, connectionTxs := false, phase := JoinWorkers(0))
    case JoinWorker => s.(phase := JoinWorkers(s.phase.k + 1))
    case Detach =>
      if s.contextHolders == {ThePool} then
        s.(phase := JoinMetrics, metricsSenders := s.metricsSenders - {ThePool, TheContext},
           logSenders := s.logSenders - {TheContext})
      else s.(phase := JoinMetrics, metricsSenders := s.metricsSenders - {ThePool})
    case JoinMetricsThread => s.(phase := JoinLog, logQueue := TrySendLog(s, 1), logSenders := s.logSenders - {ThePool})
    case JoinLogThread => s.(phase := Done)
  }

  /** What a step makes of the worker itself. */
  function WorkerAfter(worker: Worker, step: WorkerStep, req: RequestContext): Worker
    requires step.Receive? ==> worker.queue != []
    requires step.Refuse? || step.Begin? ==> worker.doing.Got?
    requires step.EmitLog? || step.RecordStats? || step.Finish? ==> worker.doing.Handling?
    requires step.EmitLog? ==> worker.doing.logsLeft > 0
  {
    match step
    case Receive => worker.(queue := worker.queue[1..], doing := Got(worker.queue[0]))
    case Refuse => worker.(doing := Waiting, served := worker.served + [Served(worker.doing.conn, Answered503)])
    case Begin(logs, stats) => worker.(doing := Handling(worker.doing.conn, req, logs, stats))
    case EmitLog => worker.(doing := worker.doing.(logsLeft := worker.doing.logsLeft - 1))
    case RecordStats => worker.(doing := worker.doing.(statsLeft := None))
    case Finish => worker.(doing := Waiting, served := worker.served + [Served(worker.doing.conn, Handled)])
    case Exit => worker.(doing := Exited)
  }

  /** `try_send` on the metrics channel: dropped when full or closed. */
  predicate MetricsTakes(s: State) {
    |s.metricsQueue| < s.cfg.metricsCapacity && TheContext in s.metricsSenders && s.metricsRunning
  }

  /** A handler draws its request id from a counter that wraps at 2^64. */
  function RequestFor(s: State, w: nat): RequestContext { RequestContext(s.nextReqId, w) }

  function ApplyWork(s: State, w: nat, step: WorkerStep): State
    requires WorkEnabled(s, w, step)
  {
    var t := s.(workers := s.workers[w := WorkerAfter(s.workers[w], step, RequestFor(s, w))]);
    match step
    case Begin(_, _) => t.(begun := s.begun + [RequestFor(s, w)], nextReqId := Bump(s.nextReqId))
    case EmitLog => t.(logQueue := TrySendLog(s, 1))
    case RecordStats =>
      var stats := StatsOf(s.workers[w].doing.req, s.workers[w].doing.statsLeft.value);
      if MetricsTakes(s) then t.(metricsQueue := s.metricsQueue + [stats], recorded := s.recorded + [stats]) else t
    case Exit => t.(contextHolders := s.contextHolders - {WorkerThread(w)})
    case _ => t
  }

  function ApplyService(s: State, step: ServiceStep): State
    requires ServiceEnabled(s, step)
  {
    match step
    case Aggregate(snapshot) =>
      s.(metricsQueue := s.metricsQueue[1..], aggregated := s.aggregated + [s.metricsQueue[0]],
         logQueue := TrySendLog(s, if snapshot then 2 else 1))
    case MetricsExit => s.(metricsRunning := false, logSenders := s.logSenders - {MetricsThread})
    case WriteLog => s.(logQueue := s.logQueue - 1)
    case LogExit => s.(logRunning := false)
    case Probe => s.(health := Probing)
    case ProbeDone(event) => s.(health := Idle, logQueue := if event then TrySendLog(s, 1) else s.logQueue)
    case HealthExit => s.(health := Gone, logSenders := s.logSenders - {HealthThread})
  }

  function Apply(s: State, step: Step): State
    requires Enabled(s, step)
  {
    match step
    case Main(m) => ApplyMain(s, m)
    case Work(w, a) => ApplyWork(s, w, a)
    case Service(b) => ApplyService(s, b)
  }

  ghost predicate Next(s: State, t: State) {
    exists step :: Enabled(s, step) && t == Apply(s, step)
  }

  ghost predicate IsChain(run: seq<State>) {
    forall k | 0 <= k < |run| - 1 :: Next(run[k], run[k + 1])
  }

  ghost predicate IsRun(run: seq<State>) { run != [] && Init(run[0]) && IsChain(run) }

  // ---------- Connections ----------

  function ConnsOf(served: seq<Served>): seq<Conn> {
    if served == [] then [] else ConnsOf(served[..|served| - 1]) + [served[|served| - 1].conn]
  }

  function InHand(d: Doing): seq<Conn> {
    if d.Got? || d.Handling? then [d.conn] else []
  }

  /** A worker serves its queue in submission order: finished, in hand and queued connections, in this
      order, are the accepted ones. */
  predicate InOrder(w: Worker, capacity: nat) {
    && w.accepted == ConnsOf(w.served) + InHand(w.doing) + w.queue
    && |w.queue| <= capacity
    && (w.doing == Exited ==> w.queue == [])
  }

  predicate WorkersInOrder(s: State) {
    && |s.workers| == s.cfg.workers && ValidConfig(s.cfg)
    && (s.connectionTxs ==> forall w | 0 <= w < |s.workers| :: s.workers[w].doing != Exited)
    && forall w | 0 <= w < |s.workers| :: InOrder(s.workers[w], s.cfg.perWorkerQueue)
  }

  lemma ServedSnoc(served: seq<Served>, x: Served)
    ensures ConnsOf(served + [x]) == ConnsOf(served) + [x.conn]
  {
    assert (served + [x])[..|served|] == served;
  }

  /** A finishing worker keeps its order. */
  lemma FinishInOrder(w: Worker, fate: Fate, capacity: nat)
    requires InOrder(w, capacity) && (w.doing.Got? || w.doing.Handling?)
    ensures InOrder(w.(doing := Waiting, served := w.served + [Served(w.doing.conn, fate)]), capacity)
  {
    ServedSnoc(w.served, Served(w.doing.conn, fate));
    assert ConnsOf(w.served) + [w.doing.conn] + w.queue == ConnsOf(w.served) + [w.doing.conn] + [] + w.queue;
  }

  lemma ReceiveInOrder(w: Worker, capacity: nat)
    requires InOrder(w, capacity) && w.doing == Waiting && w.queue != []
    ensures InOrder(w.(queue := w.queue[1..], doing := Got(w.queue[0])), capacity)
  {
    assert ConnsOf(w.served) + [] + w.queue == ConnsOf(w.served) + [w.queue[0]] + w.queue[1..];
  }

  lemma SubmitInOrder(w: Worker, conn: Conn, capacity: nat)
    requires InOrder(w, capacity) && |w.queue| < capacity && w.doing != Exited
    ensures InOrder(w.(queue := w.queue + [conn], accepted := w.accepted + [conn]), capacity)
  {
    var before := ConnsOf(w.served) + InHand(w.doing);
    assert before + w.queue + [conn] == before + (w.queue + [conn]);
  }

  lemma HandInOrder(w: Worker, doing: Doing, capacity: nat)
    requires InOrder(w, capacity) && InHand(doing) == InHand(w.doing) && (doing == Exited ==> w.queue == [])
    ensures InOrder(w.(doing := doing), capacity)
  {
  }

  /** The connection records that only a submission changes. */
  predicate SameConns(s: State, t: State) {
    && t.submitted == s.submitted && t.returned == s.returned
    && t.dispatched == s.dispatched && t.dispatchIndex == s.dispatchIndex
  }

  /** The handlers begun and their statistics, which only workers change. */
  predicate SameRequests(s: State, t: State) {
    t.begun == s.begun && t.nextReqId == s.nextReqId && t.recorded == s.recorded
  }

  /** What a worker's step leaves alone. */
  lemma WorkFrame(s: State, w: nat, step: WorkerStep)
    requires WorkEnabled(s, w, step)
    ensures var t := ApplyWork(s, w, step);
            && t.cfg == s.cfg && t.connectionTxs == s.connectionTxs && SameConns(s, t)
            && t.workers == s.workers[w := WorkerAfter(s.workers[w], step, RequestFor(s, w))]
  {
    hide TrySendLog, WorkerAfter, Bump;
    match step
    case Begin(_, _) =>
    case RecordStats =>
    case Exit =>
    case _ =>
  }

  lemma WorkKeepsPhase(s: State, w: nat, step: WorkerStep)
    requires WorkEnabled(s, w, step)
    ensures var t := ApplyWork(s, w, step);
            t.phase == s.phase && t.stop == s.stop && t.healthStop == s.healthStop && t.health == s.health
  {
    hide TrySendLog, WorkerAfter, Bump;
  }

  /** What the services' steps leave alone. */
  lemma ServiceFrame(s: State, step: ServiceStep)
    requires ServiceEnabled(s, step)
    ensures var t := ApplyService(s, step);
            && t.cfg == s.cfg && t.connectionTxs == s.connectionTxs && SameConns(s, t)
            && t.workers == s.workers && SameRequests(s, t)
  {
    hide TrySendLog;
    match step
    case Aggregate(_) =>
    case MetricsExit =>
    case HealthExit =>
    case _ =>
  }

  lemma ServiceKeepsPhase(s: State, step: ServiceStep)
    requires ServiceEnabled(s, step)
    ensures var t := ApplyService(s, step);
            && t.phase == s.phase && t.stop == s.stop && t.healthStop == s.healthStop
            && t.contextHolders == s.contextHolders
  {
    hide TrySendLog;
    match step
    case Aggregate(_) =>
    case MetricsExit =>
    case HealthExit =>
    case _ =>
  }

  /** What the owner's steps but a submission leave alone. */
  lemma MainFrame(s: State, step: OwnerStep)
    requires MainEnabled(s, step) && !step.Submit?
    ensures var t := ApplyMain(s, step);
            t.cfg == s.cfg && (t.connectionTxs ==> s.connectionTxs) && t.workers == s.workers
  {
    hide TrySendLog, SubmitTo;
    match step
    case StopAccepting =>
    case Detach =>
    case JoinMetricsThread =>
    case _ =>
  }

  lemma MainKeepsConns(s: State, step: OwnerStep)
    requires MainEnabled(s, step) && !step.Submit?
    ensures SameConns(s, ApplyMain(s, step)) && SameRequests(s, ApplyMain(s, step))
  {
    hide TrySendLog, SubmitTo;
    match step
    case StopAccepting =>
    case Detach =>
    case JoinMetricsThread =>
    case _ =>
  }

  lemma WorkerAfterInOrder(worker: Worker, step: WorkerStep, req: RequestContext, capacity: nat)
    requires InOrder(worker, capacity)
    requires step.Receive? ==> worker.doing == Waiting && worker.queue != []
    requires step.Refuse? || step.Begin? ==> worker.doing.Got?
    requires step.EmitLog? || step.RecordStats? || step.Finish? ==> worker.doing.Handling?
    requires step.EmitLog? ==> worker.doing.logsLeft > 0
    requires step.Exit? ==> worker.doing == Waiting && worker.queue == []
    ensures InOrder(WorkerAfter(worker, step, req), capacity)
    ensures WorkerAfter(worker, step, req).accepted == worker.accepted
    ensures WorkerAfter(worker, step, req).doing == Exited <==> step.Exit?
  {
    hide InOrder, ConnsOf;
    match step
    case Receive => ReceiveInOrder(worker, capacity);
    case Refuse => FinishInOrder(worker, Answered503, capacity);
    case Begin(logs, stats) => HandInOrder(worker, Handling(worker.doing.conn, req, logs, stats), capacity);
    case EmitLog => HandInOrder(worker, worker.doing.(logsLeft := worker.doing.logsLeft - 1), capacity);
    case RecordStats => HandInOrder(worker, worker.doing.(statsLeft := None), capacity);
    case Finish => FinishInOrder(worker, Handled, capacity);
    case Exit => HandInOrder(worker, Exited, capacity);
  }

  lemma SubmitKeepsOrder(s: State, conn: Conn)
    requires WorkersInOrder(s)
    ensures WorkersInOrder(SubmitTo(s, conn))
  {
    hide InOrder, ConnsOf;
    var w := TargetOf(s);
    if s.workers[w].doing != Exited && |s.workers[w].queue| < s.cfg.perWorkerQueue {
      SubmitInOrder(s.workers[w], conn, s.cfg.perWorkerQueue);
    }
  }

  lemma OrderIsKept(s: State, step: Step)
    requires WorkersInOrder(s) && Enabled(s, step)
    ensures WorkersInOrder(Apply(s, step))
  {
    hide InOrder, ApplyMain, ApplyWork, ApplyService, SubmitTo, WorkerAfter;
    match step
    case Main(m) =>
      if m.Submit? {
        SubmitKeepsOrder(s, m.conn);
        MainIsSubmit(s, m.conn);
      } else {
        MainFrame(s, m);
        MainKeepsConns(s, m);
      }
    case Work(w, a) =>
      WorkFrame(s, w, a);
      WorkerAfterInOrder(s.workers[w], a, RequestFor(s, w), s.cfg.perWorkerQueue);
    case Service(b) => ServiceFrame(s, b);
  }

  lemma MainIsSubmit(s: State, conn: Conn)
    requires MainEnabled(s, Submit(conn))
    ensures ApplyMain(s, Submit(conn)) == SubmitTo(s, conn)
  {
  }

  // ---------- Conservation ----------

  /** How often a connection was accepted, over all workers. */
  function TimesAccepted(workers: seq<Worker>, c: Conn): nat {
    if workers == [] then 0
    else TimesAccepted(workers[..|workers| - 1], c) + multiset(workers[|workers| - 1].accepted)[c]
  }

  lemma {:induction false} TimesAcceptedUpdate(workers: seq<Worker>, w: nat, worker: Worker, c: Conn)
    requires w < |workers|
    ensures TimesAccepted(workers[w := worker], c) + multiset(workers[w].accepted)[c]
         == TimesAccepted(workers, c) + multiset(worker.accepted)[c]
  {
    var k := |workers| - 1;
    if w == k {
      assert workers[w := worker][..k] == workers[..k];
    } else {
      TimesAcceptedUpdate(workers[..k], w, worker, c);
      assert workers[w := worker][..k] == workers[..k][w := worker];
    }
  }

  /** Every submission of a connection is returned to the caller or accepted by one worker. */
  ghost predicate Conserved(s: State) {
    forall c :: multiset(s.submitted)[c] == multiset(s.returned)[c] + TimesAccepted(s.workers, c)
  }

  lemma SubmitConserves(s: State, conn: Conn, c: Conn)
    requires s.workers != []
    requires multiset(s.submitted)[c] == multiset(s.returned)[c] + TimesAccepted(s.workers, c)
    ensures var t := SubmitTo(s, conn);
            multiset(t.submitted)[c] == multiset(t.returned)[c] + TimesAccepted(t.workers, c)
  {
    hide TimesAccepted;
    var t := SubmitTo(s, conn);
    var w := TargetOf(s);
    TimesAcceptedUpdate(s.workers, w, t.workers[w], c);
  }

  lemma ConservationIsKept(s: State, step: Step)
    requires Enabled(s, step) && Conserved(s) && WorkersInOrder(s)
    ensures Conserved(Apply(s, step))
  {
    hide TimesAccepted, ApplyMain, ApplyWork, ApplyService, SubmitTo, WorkerAfter, InOrder;
    match step
    case Main(m) =>
      if m.Submit? {
        MainIsSubmit(s, m.conn);
        forall c
          ensures var t := SubmitTo(s, m.conn);
                  multiset(t.submitted)[c] == multiset(t.returned)[c] + TimesAccepted(t.workers, c)
        {
          SubmitConserves(s, m.conn, c);
        }
      } else {
        MainFrame(s, m);
        MainKeepsConns(s, m);
      }
    case Work(w, a) =>
      var req := RequestFor(s, w);
      WorkFrame(s, w, a);
      WorkerAfterInOrder(s.workers[w], a, req, s.cfg.perWorkerQueue);
      forall c
        ensures TimesAccepted(s.workers[w := WorkerAfter(s.workers[w], a, req)], c) == TimesAccepted(s.workers, c)
      {
        TimesAcceptedUpdate(s.workers, w, WorkerAfter(s.workers[w], a, req), c);
      }
    case Service(b) => ServiceFrame(s, b);
  }

  // ---------- Submission order ----------

  /** `a` is `b` with some elements left out. */
  predicate IsSubsequence(a: seq<Conn>, b: seq<Conn>)
    decreases |b|
  {
    || a == []
    || (b != [] && IsSubsequence(a, b[..|b| - 1]))
    || (b != [] && a[|a| - 1] == b[|b| - 1] && IsSubsequence(a[..|a| - 1], b[..|b| - 1]))
  }

  lemma SubsequenceGrows(a: seq<Conn>, b: seq<Conn>, x: Conn)
    requires IsSubsequence(a, b)
    ensures IsSubsequence(a, b + [x]) && IsSubsequence(a + [x], b + [x])
  {
    assert (b + [x])[..|b|] == b && (a + [x])[..|a|] == a;
  }

  lemma {:induction false} PrefixOfSubsequence(a: seq<Conn>, b: seq<Conn>, n: nat)
    requires IsSubsequence(a, b) && n <= |a|
    ensures IsSubsequence(a[..n], b)
    decreases |b|
  {
    if a != [] && n < |a| {
      var k := |b| - 1;
      if IsSubsequence(a, b[..k]) {
        PrefixOfSubsequence(a, b[..k], n);
      } else {
        PrefixOfSubsequence(a[..|a| - 1], b[..k], n);
        assert a[..|a| - 1][..n] == a[..n];
      }
    } else {
      assert n == |a| ==> a[..n] == a;
    }
  }

  /** What a worker accepted stands in the order of the submissions. */
  predicate SubmissionOrder(s: State) {
    forall w | 0 <= w < |s.workers| :: IsSubsequence(s.workers[w].accepted, s.submitted)
  }

  lemma SubmitKeepsSubmissionOrder(s: State, conn: Conn)
    requires s.workers != [] && SubmissionOrder(s)
    ensures SubmissionOrder(SubmitTo(s, conn))
  {
    hide IsSubsequence;
    var t := SubmitTo(s, conn);
    forall w | 0 <= w < |t.workers|
      ensures IsSubsequence(t.workers[w].accepted, t.submitted)
    {
      SubsequenceGrows(s.workers[w].accepted, s.submitted, conn);
    }
  }

  lemma SubmissionOrderIsKept(s: State, step: Step)
    requires Enabled(s, step) && SubmissionOrder(s) && WorkersInOrder(s)
    ensures SubmissionOrder(Apply(s, step))
  {
    hide ApplyMain, ApplyWork, ApplyService, SubmitTo, WorkerAfter, InOrder, IsSubsequence;
    match step
    case Main(m) =>
      if m.Submit? {
        MainIsSubmit(s, m.conn);
        SubmitKeepsSubmissionOrder(s, m.conn);
      } else {
        MainFrame(s, m);
        MainKeepsConns(s, m);
      }
    case Work(w, a) =>
      WorkFrame(s, w, a);
      WorkerAfterInOrder(s.workers[w], a, RequestFor(s, w), s.cfg.perWorkerQueue);
    case Service(b) => ServiceFrame(s, b);
  }

  // ---------- Dispatch ----------

  /** The connections of the dispatches in the turn of worker `w` of `n` that found room: dispatch `j` is
      in the turn of worker `j` mod `n`, with `j` wrapped at 2^64. */
  function QueuedOn(dispatched: seq<Dispatch>, w: nat, n: nat): seq<Conn>
    requires n > 0
  {
    if dispatched == [] then []
    else
      var j := |dispatched| - 1;
      QueuedOn(dispatched[..j], w, n)
      + if j % TWO_64 % n == w && dispatched[j].queued then [dispatched[j].conn] else []
  }

  /** Every worker accepted exactly the connections of its turns that found room; up to the flag the
      dispatches are the submissions, afterwards there are none; the index has counted them. */
  predicate Routed(s: State) {
    && s.workers != [] && s.dispatchIndex == |s.dispatched| % TWO_64
    && (forall w | 0 <= w < |s.workers| :: s.workers[w].accepted == QueuedOn(s.dispatched, w, |s.workers|))
    && |s.dispatched| <= |s.submitted| && (!s.stop ==> |s.dispatched| == |s.submitted| && s.connectionTxs)
    && (forall j | 0 <= j < |s.dispatched| :: s.dispatched[j].conn == s.submitted[j])
  }

  /** Advancing a wrapped counter is counting one more and wrapping. */
  lemma CounterStep(k: nat)
    ensures Bump(k % TWO_64) == (k + 1) % TWO_64
  {
  }

  lemma QueuedSnoc(dispatched: seq<Dispatch>, d: Dispatch, w: nat, n: nat)
    requires n > 0
    ensures QueuedOn(dispatched + [d], w, n)
         == QueuedOn(dispatched, w, n) + if |dispatched| % TWO_64 % n == w && d.queued then [d.conn] else []
  {
    assert (dispatched + [d])[..|dispatched|] == dispatched;
  }

  lemma SubmitRoutes(s: State, conn: Conn)
    requires Routed(s)
    ensures Routed(SubmitTo(s, conn))
  {
    hide QueuedOn, Bump;
    CounterStep(|s.dispatched|);
    if !s.stop {
      var t, n := SubmitTo(s, conn), |s.workers|;
      forall w | 0 <= w < n
        ensures t.workers[w].accepted == QueuedOn(t.dispatched, w, n)
      {
        QueuedSnoc(s.dispatched, t.dispatched[|s.dispatched|], w, n);
      }
    }
  }

  lemma FlagStays(s: State, step: Step)
    requires Enabled(s, step)
    ensures s.stop ==> Apply(s, step).stop
    ensures !Apply(s, step).stop ==> Apply(s, step).connectionTxs == s.connectionTxs
  {
    hide TrySendLog, WorkerAfter, Bump, ApplyWork, ApplyService;
    match step
    case Main(m) =>
    case Work(w, a) =>
      WorkKeepsPhase(s, w, a);
      WorkFrame(s, w, a);
    case Service(b) =>
      ServiceKeepsPhase(s, b);
      ServiceFrame(s, b);
  }

  lemma RoutingIsKept(s: State, step: Step)
    requires Enabled(s, step) && Routed(s) && WorkersInOrder(s)
    ensures Routed(Apply(s, step))
  {
    hide ApplyMain, ApplyWork, ApplyService, SubmitTo, WorkerAfter, InOrder, QueuedOn;
    FlagStays(s, step);
    match step
    case Main(m) =>
      if m.Submit? {
        MainIsSubmit(s, m.conn);
        SubmitRoutes(s, m.conn);
      } else {
        MainFrame(s, m);
        MainKeepsConns(s, m);
      }
    case Work(w, a) =>
      WorkFrame(s, w, a);
      WorkerAfterInOrder(s.workers[w], a, RequestFor(s, w), s.cfg.perWorkerQueue);
    case Service(b) => ServiceFrame(s, b);
  }

  // ---------- Counters and records ----------

  /** The id counter is one ahead of the connections given to a handler, wrapping at 2^64, and the
      j-th of them got id j + 1. */
  predicate Numbered(begun: seq<RequestContext>, next: nat) {
    && next == (|begun| + 1) % TWO_64
    && forall j | 0 <= j < |begun| :: begun[j].reqId == (j + 1) % TWO_64
  }

  lemma NumberOne(begun: seq<RequestContext>, req: RequestContext)
    requires Numbered(begun, req.reqId)
    ensures Numbered(begun + [req], Bump(req.reqId))
  {
    CounterStep(|begun| + 1);
  }

  /** Statistics reach the aggregate in the order they were enqueued; the channels are bounded. */
  predicate Channelled(s: State) {
    && s.recorded == s.aggregated + s.metricsQueue
    && |s.metricsQueue| <= s.cfg.metricsCapacity && s.logQueue <= s.cfg.logCapacity
  }

  predicate Counted(s: State) {
    Numbered(s.begun, s.nextReqId) && Channelled(s)
  }

  lemma MainChannels(s: State, step: OwnerStep)
    requires MainEnabled(s, step) && Channelled(s)
    ensures Channelled(ApplyMain(s, step))
  {
    match step
    case StopAccepting =>
    case Detach =>
    case JoinMetricsThread =>
    case _ =>
  }

  lemma WorkChannels(s: State, w: nat, step: WorkerStep)
    requires WorkEnabled(s, w, step) && Channelled(s)
    ensures Channelled(ApplyWork(s, w, step))
  {
    hide WorkerAfter, StatsOf;
  }

  /** What a worker's step adds to the handlers begun and to the statistics. */
  lemma WorkRecords(s: State, w: nat, step: WorkerStep)
    requires WorkEnabled(s, w, step)
    ensures var t, doing := ApplyWork(s, w, step), s.workers[w].doing;
            && t.begun == (if step.Begin? then s.begun + [RequestFor(s, w)] else s.begun)
            && t.nextReqId == (if step.Begin? then Bump(s.nextReqId) else s.nextReqId)
            && t.recorded == if step.RecordStats? && MetricsTakes(s)
                             then s.recorded + [StatsOf(doing.req, doing.statsLeft.value)] else s.recorded
  {
    hide WorkerAfter, StatsOf, Bump, TrySendLog;
    match step
    case Begin(_, _) =>
    case RecordStats =>
    case Exit =>
    case _ =>
  }

  lemma ServiceChannels(s: State, step: ServiceStep)
    requires ServiceEnabled(s, step) && Channelled(s)
    ensures Channelled(ApplyService(s, step))
  {
    if step.Aggregate? {
      assert s.aggregated + s.metricsQueue == s.aggregated + [s.metricsQueue[0]] + s.metricsQueue[1..];
    }
  }

  lemma CountsAreKept(s: State, step: Step)
    requires Enabled(s, step) && Counted(s)
    ensures Counted(Apply(s, step))
  {
    hide ApplyMain, ApplyWork, ApplyService, SubmitTo, WorkerAfter, Numbered, Channelled;
    match step
    case Main(m) =>
      MainChannels(s, m);
      if m.Submit? {
        MainIsSubmit(s, m.conn);
        SubmitFrame(s, m.conn);
      } else {
        MainFrame(s, m);
        MainKeepsConns(s, m);
      }
    case Work(w, a) =>
      WorkFrame(s, w, a);
      WorkChannels(s, w, a);
      WorkRecords(s, w, a);
      NumberOne(s.begun, RequestFor(s, w));
    case Service(b) =>
      ServiceFrame(s, b);
      ServiceChannels(s, b);
  }

  // ---------- Statistics and their handlers ----------

  function Sum(workers: seq<Worker>, weigh: Worker -> nat): nat {
    if workers == [] then 0 else Sum(workers[..|workers| - 1], weigh) + weigh(workers[|workers| - 1])
  }

  lemma {:induction false} SumUpdate(workers: seq<Worker>, weigh: Worker -> nat, w: nat, worker: Worker)
    requires w < |workers|
    ensures Sum(workers[w := worker], weigh) + weigh(workers[w]) == Sum(workers, weigh) + weigh(worker)
  {
    var k := |workers| - 1;
    if w == k {
      assert workers[w := worker][..k] == workers[..k];
    } else {
      SumUpdate(workers[..k], weigh, w, worker);
      assert workers[w := worker][..k] == workers[..k][w := worker];
    }
  }

  lemma {:induction false} SumSame(a: seq<Worker>, b: seq<Worker>, weigh: Worker -> nat)
    requires |a| == |b| && forall w | 0 <= w < |a| :: weigh(a[w]) == weigh(b[w])
    ensures Sum(a, weigh) == Sum(b, weigh)
  {
    if a != [] {
      var k := |a| - 1;
      assert forall w | 0 <= w < k :: a[..k][w] == a[w] && b[..k][w] == b[w];
      SumSame(a[..k], b[..k], weigh);
    }
  }

  /** How many elements have a property. */
  function Count<T>(s: seq<T>, p: T -> bool): nat {
    if s == [] then 0 else Count(s[..|s| - 1], p) + if p(s[|s| - 1]) then 1 else 0
  }

  lemma CountSnoc<T>(s: seq<T>, x: T, p: T -> bool)
    ensures Count(s + [x], p) == Count(s, p) + if p(x) then 1 else 0
  {
    assert (s + [x])[..|s|] == s;
  }

  lemma {:induction false} CountAtLeastOne<T>(s: seq<T>, p: T -> bool, i: nat)
    requires i < |s| && p(s[i])
    ensures Count(s, p) >= 1
  {
    if i < |s| - 1 {
      CountAtLeastOne(s[..|s| - 1], p, i);
    }
  }

  lemma {:induction false} CountAtLeastTwo<T>(s: seq<T>, p: T -> bool, i: nat, j: nat)
    requires i < j < |s| && p(s[i]) && p(s[j])
    ensures Count(s, p) >= 2
  {
    if j < |s| - 1 {
      CountAtLeastTwo(s[..|s| - 1], p, i, j);
    } else {
      CountAtLeastOne(s[..|s| - 1], p, i);
    }
  }

  /** What is counted is found, more than once if it counts more than once. */
  lemma {:induction false} CountFinds<T>(s: seq<T>, p: T -> bool)
    ensures Count(s, p) <= |s|
    ensures Count(s, p) >= 1 ==> exists i :: 0 <= i < |s| && p(s[i])
    ensures Count(s, p) >= 2 ==> exists i, j :: 0 <= i < j < |s| && p(s[i]) && p(s[j])
  {
    if s != [] {
      var k := |s| - 1;
      CountFinds(s[..k], p);
      assert forall i | 0 <= i < k :: s[..k][i] == s[i];
    }
  }

  lemma {:induction false} CountAll<T>(s: seq<T>, p: T -> bool)
    requires forall x | x in s :: p(x)
    ensures Count(s, p) == |s|
  {
    if s != [] {
      assert s[|s| - 1] in s && forall x | x in s[..|s| - 1] :: x in s;
      CountAll(s[..|s| - 1], p);
    }
  }

  /** The handler of a record. */
  function HandlerOf(r: RequestStats): RequestContext { RequestContext(r.reqId, r.workerId) }

  /** A record comes from a handler with the property. */
  function FromHandler(p: RequestContext -> bool): RequestStats -> bool {
    (r: RequestStats) => p(HandlerOf(r))
  }

  /** A worker runs such a handler, which has yet to record its statistics. */
  function Owes(p: RequestContext -> bool): Worker -> nat {
    (w: Worker) => if w.doing.Handling? && w.doing.statsLeft.Some? && p(w.doing.req) then 1 else 0
  }

  /** Handlers begun on a worker. */
  function Handlers(w: Worker): nat {
    Count(w.served, (x: Served) => x.fate == Handled) + if w.doing.Handling? then 1 else 0
  }

  predicate AttributedTo(s: State, p: RequestContext -> bool) {
    Count(s.recorded, FromHandler(p)) + Sum(s.workers, Owes(p)) <= Count(s.begun, p)
  }

  /** Whatever is asked of a handler, there are at most as many records of such handlers, together with
      those still owed, as such handlers begun; every handler begun runs or has handled its connection. */
  ghost predicate Attributed(s: State) {
    && (forall p: RequestContext -> bool :: AttributedTo(s, p))
    && |s.begun| == Sum(s.workers, Handlers)
  }

  lemma WorkerOwes(worker: Worker, step: WorkerStep, req: RequestContext, p: RequestContext -> bool)
    requires step.Receive? ==> worker.doing == Waiting && worker.queue != []
    requires step.Refuse? || step.Begin? ==> worker.doing.Got?
    requires step.EmitLog? || step.RecordStats? || step.Finish? ==> worker.doing.Handling?
    requires step.EmitLog? ==> worker.doing.logsLeft > 0
    requires step.RecordStats? ==> worker.doing.statsLeft.Some?
    requires step.Exit? ==> worker.doing == Waiting
    ensures var owes, after := Owes(p), WorkerAfter(worker, step, req);
            && (step.Begin? ==> owes(after) <= owes(worker) + if p(req) then 1 else 0)
            && (step.RecordStats? ==> owes(after) + (if p(worker.doing.req) then 1 else 0) == owes(worker))
            && (!step.Begin? && !step.RecordStats? ==> owes(after) <= owes(worker))
  {
  }

  lemma WorkerHandlers(worker: Worker, step: WorkerStep, req: RequestContext)
    requires step.Receive? ==> worker.doing == Waiting && worker.queue != []
    requires step.Refuse? || step.Begin? ==> worker.doing.Got?
    requires step.EmitLog? || step.RecordStats? || step.Finish? ==> worker.doing.Handling?
    requires step.EmitLog? ==> worker.doing.logsLeft > 0
    requires step.Exit? ==> worker.doing == Waiting
    ensures Handlers(WorkerAfter(worker, step, req)) == Handlers(worker) + if step.Begin? then 1 else 0
  {
    var handled := (x: Served) => x.fate == Handled;
    if step.Refuse? || step.Finish? {
      var x := Served(worker.doing.conn, if step.Finish? then Handled else Answered503);
      CountSnoc(worker.served, x, handled);
      assert (worker.served + [x])[..|worker.served|] == worker.served;
    }
  }

  lemma WorkAttributes(s: State, w: nat, step: WorkerStep, p: RequestContext -> bool)
    requires WorkEnabled(s, w, step) && AttributedTo(s, p)
    ensures AttributedTo(ApplyWork(s, w, step), p)
  {
    hide ApplyWork, WorkerAfter, Owes, Count, Sum, MetricsTakes, Bump;
    var worker, req := s.workers[w], RequestFor(s, w);
    WorkFrame(s, w, step);
    WorkRecords(s, w, step);
    WorkerOwes(worker, step, req, p);
    SumUpdate(s.workers, Owes(p), w, WorkerAfter(worker, step, req));
    CountSnoc(s.begun, req, p);
    if step.RecordStats? {
      var stats := StatsOf(worker.doing.req, worker.doing.statsLeft.value);
      assert HandlerOf(stats) == worker.doing.req;
      CountSnoc(s.recorded, stats, FromHandler(p));
    }
  }

  lemma WorkKeepsHandlers(s: State, w: nat, step: WorkerStep)
    requires WorkEnabled(s, w, step) && |s.begun| == Sum(s.workers, Handlers)
    ensures |ApplyWork(s, w, step).begun| == Sum(ApplyWork(s, w, step).workers, Handlers)
  {
    hide ApplyWork, WorkerAfter, Handlers, Sum, MetricsTakes, Bump;
    var worker, req := s.workers[w], RequestFor(s, w);
    WorkFrame(s, w, step);
    WorkRecords(s, w, step);
    WorkerHandlers(worker, step, req);
    SumUpdate(s.workers, Handlers, w, WorkerAfter(worker, step, req));
  }

  lemma SubmitAttributes(s: State, conn: Conn)
    requires s.workers != [] && Attributed(s)
    ensures Attributed(SubmitTo(s, conn))
  {
    hide SubmitTo, Count, Sum;
    var t := SubmitTo(s, conn);
    SubmitFrame(s, conn);
    SumSame(s.workers, t.workers, Handlers);
    forall p: RequestContext -> bool
      ensures AttributedTo(t, p)
    {
      assert AttributedTo(s, p);
      SumSame(s.workers, t.workers, Owes(p));
    }
  }

  lemma AttributionIsKept(s: State, step: Step)
    requires Enabled(s, step) && Attributed(s)
    ensures Attributed(Apply(s, step))
  {
    hide ApplyMain, ApplyWork, ApplyService, SubmitTo, AttributedTo, Count, Sum, Handlers;
    var t := Apply(s, step);
    match step
    case Main(m) =>
      if m.Submit? {
        MainIsSubmit(s, m.conn);
        SubmitAttributes(s, m.conn);
      } else {
        MainFrame(s, m);
        MainKeepsConns(s, m);
        SameAttributed(s, t);
      }
    case Work(w, a) =>
      WorkKeepsHandlers(s, w, a);
      forall p: RequestContext -> bool
        ensures AttributedTo(t, p)
      {
        WorkAttributes(s, w, a, p);
      }
    case Service(b) =>
      ServiceFrame(s, b);
      SameAttributed(s, t);
  }

  lemma SameAttributed(s: State, t: State)
    requires Attributed(s) && t.workers == s.workers && SameRequests(s, t)
    ensures Attributed(t)
  {
    forall p: RequestContext -> bool
      ensures AttributedTo(t, p)
    {
      assert AttributedTo(s, p);
    }
  }

  // ---------- Who holds what ----------

  function PhaseNumber(p: Phase): nat {
    match p
    case Serving => 0
    case FlagSet => 1
    case AwaitHealth => 2
    case HealthJoined => 3
    case JoinWorkers(_) => 4
    case JoinMetrics => 5
    case JoinLog => 6
    case Done => 7
  }

  /** The context can be taken apart only when no one else holds it. */
  predicate Detached(s: State) { PhaseNumber(s.phase) >= 5 && Outside !in s.contextHolders }

  /** The ownership invariant: who holds each sender follows from who still runs and from the phase. */
  ghost predicate Owned(s: State) {
    && s.workers != []
    && (ThePool in s.logSenders <==> PhaseNumber(s.phase) < 6)
    && (TheContext in s.logSenders <==> !Detached(s))
    && (MetricsThread in s.logSenders <==> s.metricsRunning)
    && (HealthThread in s.logSenders <==> s.health != Gone)
    && (forall w: nat :: WorkerThread(w) !in s.logSenders)
    && (ThePool in s.metricsSenders <==> PhaseNumber(s.phase) < 5)
    && (TheContext in s.metricsSenders <==> !Detached(s))
    && s.metricsSenders <= {ThePool, TheContext}
    && ThePool in s.contextHolders
    && (forall w: nat :: WorkerThread(w) in s.contextHolders <==> w < |s.workers| && s.workers[w].doing != Exited)
    && s.contextHolders - {Outside} <= {ThePool} + Owners(|s.workers|)
  }

  /** What has been joined has exited. */
  predicate Joined(s: State) {
    && s.workers != []
    && (s.connectionTxs <==> PhaseNumber(s.phase) < 4)
    && (s.healthStop <==> PhaseNumber(s.phase) >= 2)
    && (PhaseNumber(s.phase) >= 1 ==> s.stop)
    && (PhaseNumber(s.phase) >= 3 ==> s.health == Gone)
    && (s.phase.JoinWorkers? ==>
          s.phase.k <= |s.workers| && forall w | 0 <= w < s.phase.k :: s.workers[w].doing == Exited)
    && (PhaseNumber(s.phase) >= 5 ==> forall w | 0 <= w < |s.workers| :: s.workers[w].doing == Exited)
    && (PhaseNumber(s.phase) >= 6 ==> !s.metricsRunning)
    && (PhaseNumber(s.phase) >= 7 ==> !s.logRunning)
    && (!s.metricsRunning ==> s.metricsQueue == [] && s.metricsSenders == {})
    && (!s.logRunning ==> s.logQueue == 0 && s.logSenders == {})
    && (s.health == Gone ==> s.healthStop)
  }

  lemma SubmitFrame(s: State, conn: Conn)
    requires s.workers != []
    ensures var t := SubmitTo(s, conn);
            && t.phase == s.phase && t.metricsRunning == s.metricsRunning && t.health == s.health
            && t.logSenders == s.logSenders && t.metricsSenders == s.metricsSenders
            && t.contextHolders == s.contextHolders && |t.workers| == |s.workers|
            && SameRequests(s, t)
            && forall w | 0 <= w < |s.workers| ::
                 t.workers[w].doing == s.workers[w].doing && t.workers[w].served == s.workers[w].served
  {
    hide Bump;
  }

  lemma SubmitKeepsJoined(s: State, conn: Conn)
    requires s.workers != [] && Joined(s)
    ensures Joined(SubmitTo(s, conn))
  {
    hide Bump;
  }

  lemma MainKeepsJoined(s: State, step: OwnerStep)
    requires MainEnabled(s, step) && !step.Submit? && Joined(s) && Owned(s)
    ensures Joined(ApplyMain(s, step))
  {
    hide TrySendLog;
  }

  lemma WorkKeepsJoined(s: State, w: nat, step: WorkerStep)
    requires WorkEnabled(s, w, step) && Joined(s) && Owned(s)
    ensures Joined(ApplyWork(s, w, step))
  {
    hide TrySendLog;
  }

  lemma ServiceKeepsJoined(s: State, step: ServiceStep)
    requires ServiceEnabled(s, step) && Joined(s) && Owned(s)
    ensures Joined(ApplyService(s, step))
  {
    hide TrySendLog;
  }

  lemma JoinedIsKept(s: State, step: Step)
    requires Enabled(s, step) && Joined(s) && Owned(s)
    ensures Joined(Apply(s, step))
  {
    hide ApplyMain, ApplyWork, ApplyService, SubmitTo, Joined, Owned, WorkEnabled, ServiceEnabled;
    match step
    case Main(m) =>
      if m.Submit? {
        MainIsSubmit(s, m.conn);
        SubmitKeepsJoined(s, m.conn);
      } else {
        MainKeepsJoined(s, m);
      }
    case Work(w, a) => WorkKeepsJoined(s, w, a);
    case Service(b) => ServiceKeepsJoined(s, b);
  }

  lemma SubmitKeepsOwned(s: State, conn: Conn)
    requires s.workers != [] && Joined(s) && Owned(s)
    ensures Owned(SubmitTo(s, conn))
  {
    hide SubmitTo, Joined;
    SubmitFrame(s, conn);
  }

  lemma MainKeepsOwned(s: State, step: OwnerStep)
    requires MainEnabled(s, step) && !step.Submit? && Joined(s) && Owned(s)
    ensures Owned(ApplyMain(s, step))
  {
    hide TrySendLog;
    if step.Detach? {
      LastHolder(s);
    }
  }

  /** With all workers gone, the pool is the only holder of the context unless an outsider is. */
  lemma LastHolder(s: State)
    requires Owned(s) && forall w | 0 <= w < |s.workers| :: s.workers[w].doing == Exited
    ensures s.contextHolders == {ThePool} <==> Outside !in s.contextHolders
  {
    if Outside !in s.contextHolders {
      forall o | o in s.contextHolders
        ensures o == ThePool
      {
        assert o in s.contextHolders - {Outside};
      }
    }
  }

  lemma WorkKeepsOwned(s: State, w: nat, step: WorkerStep)
    requires WorkEnabled(s, w, step) && Joined(s) && Owned(s)
    ensures Owned(ApplyWork(s, w, step))
  {
    hide TrySendLog;
  }

  lemma ServiceKeepsOwned(s: State, step: ServiceStep)
    requires ServiceEnabled(s, step) && Joined(s) && Owned(s)
    ensures Owned(ApplyService(s, step))
  {
    hide TrySendLog;
  }

  lemma OwnedIsKept(s: State, step: Step)
    requires Enabled(s, step) && Joined(s) && Owned(s)
    ensures Owned(Apply(s, step))
  {
    hide ApplyMain, ApplyWork, ApplyService, SubmitTo, Joined, Owned, WorkEnabled, ServiceEnabled;
    match step
    case Main(m) =>
      if m.Submit? {
        MainIsSubmit(s, m.conn);
        SubmitKeepsOwned(s, m.conn);
      } else {
        MainKeepsOwned(s, m);
      }
    case Work(w, a) => WorkKeepsOwned(s, w, a);
    case Service(b) => ServiceKeepsOwned(s, b);
  }
}
