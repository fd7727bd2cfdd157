/** Aggregated request metrics. Counters are unbounded here; the original wraps at 2^64. */
module MetricsAggregation {
  import opened Numbers
  import opened Backends
  import opened Proxying

  /** Durations are whole nanoseconds. */
  datatype RequestStats = RequestStats(reqId: nat, workerId: nat, backend: SocketAddr, requestLen: nat,
                                       responseLen: nat, duration: nat, outcome: Outcome)

  datatype BackendMetrics = BackendMetrics(requests: nat, errors: nat)

  /** The aggregated cells, as a value. */
  datatype Totals = Totals(requests: nat, bytes: nat, largest: nat, lastDuration: nat, duration: nat,
                           perBackend: map<SocketAddr, BackendMetrics>)

  const NOTHING: Totals := Totals(0, 0, 0, 0, 0, map[])

  function EntryOf(m: map<SocketAddr, BackendMetrics>, b: SocketAddr): BackendMetrics {
    if b in m then m[b] else BackendMetrics(0, 0)
  }

  function Record(m: Totals, s: RequestStats): Totals {
    var e := EntryOf(m.perBackend, s.backend);
    Totals(m.requests + 1, m.bytes + s.requestLen + s.responseLen,
           if s.requestLen > m.largest then s.requestLen else m.largest,
           s.duration, m.duration + s.duration,
           m.perBackend[s.backend := BackendMetrics(e.requests + 1, e.errors + if s.outcome == Errored then 1 else 0)])
  }

  function RecordAll(stats: seq<RequestStats>): Totals {
    if stats == [] then NOTHING else Record(RecordAll(stats[..|stats| - 1]), stats[|stats| - 1])
  }

  datatype Snapshot = Snapshot(totalRequests: nat, totalBytes: nat, poolRejected: nat, droppedLogs: nat,
                               avgLatency: nat, lastDuration: nat, perBackend: map<SocketAddr, BackendMetrics>)

  class Metrics {
    var totalRequests: nat
    var totalBytesProxied: nat
    var largestRequestBytes: nat
    var lastRequestDuration: nat
    var totalDuration: nat
    var perBackend: map<SocketAddr, BackendMetrics>
    var poolRejected: nat

    constructor ()
      ensures View() == NOTHING && poolRejected == 0
    {
      totalRequests, totalBytesProxied, largestRequestBytes, lastRequestDuration, totalDuration := 0, 0, 0, 0, 0;
      perBackend, poolRejected := map[], 0;
    }

    function View(): Totals
      reads this
    {
      Totals(totalRequests, totalBytesProxied, largestRequestBytes, lastRequestDuration, totalDuration, perBackend)
    }

    method RecordRequest(stats: RequestStats)
      modifies this
      ensures View() == Record(old(View()), stats) && poolRejected == old(poolRejected)
    {
      totalRequests := totalRequests + 1;
      totalBytesProxied := totalBytesProxied + (stats.requestLen + stats.responseLen);
      totalDuration := totalDuration + stats.duration;
      lastRequestDuration := stats.duration;
      if stats.requestLen > largestRequestBytes {
        largestRequestBytes := stats.requestLen;
      }
      var entry := EntryOf(perBackend, stats.backend);
      entry := entry.(requests := entry.requests + 1);
      if stats.outcome == Errored {
        entry := entry.(errors := entry.errors + 1);
      }
      perBackend := perBackend[stats.backend := entry];
    }

    /** A rejected connection is counted and touches nothing else. */
    method RecordPoolRejected()
      modifies this`poolRejected
      ensures View() == old(View()) && poolRejected == old(poolRejected) + 1
    {
      poolRejected := poolRejected + 1;
    }

    /** The divisor is a u32: with more requests than that, the "average" is the whole duration. */
    method TakeSnapshot(droppedLogs: nat) returns (s: Snapshot)
      ensures s.totalRequests == totalRequests && s.totalBytes == totalBytesProxied && s.perBackend == perBackend
      ensures s.poolRejected == poolRejected && s.droppedLogs == droppedLogs && s.lastDuration == lastRequestDuration
      ensures totalRequests == 0 ==> s.avgLatency == 0
      ensures 0 < totalRequests <= U32_MAX ==>
                s.avgLatency * totalRequests <= totalDuration < (s.avgLatency + 1) * totalRequests
      ensures totalRequests > U32_MAX ==> s.avgLatency == totalDuration
    {
      var avg := 0;
      if totalRequests > 0 {
        var divisor := if totalRequests <= U32_MAX then totalRequests else 1;
        avg := totalDuration / divisor;
      }
      s := Snapshot(totalRequests, totalBytesProxied, poolRejected, droppedLogs, avg, lastRequestDuration, perBackend);
    }
  }

  // ---------- What the totals mean ----------

  function BytesOf(stats: seq<RequestStats>): nat {
    if stats == [] then 0 else stats[0].requestLen + stats[0].responseLen + BytesOf(stats[1..])
  }

  function RequestsTo(stats: seq<RequestStats>, b: SocketAddr): nat {
    if stats == [] then 0 else (if stats[0].backend == b then 1 else 0) + RequestsTo(stats[1..], b)
  }

  function ErrorsAt(stats: seq<RequestStats>, b: SocketAddr): nat {
    if stats == [] then 0
    else (if stats[0].backend == b && stats[0].outcome == Errored then 1 else 0) + ErrorsAt(stats[1..], b)
  }

  function DurationOf(stats: seq<RequestStats>): nat {
    if stats == [] then 0 else stats[0].duration + DurationOf(stats[1..])
  }

  lemma {:induction false} CountsSnoc(stats: seq<RequestStats>, s: RequestStats, b: SocketAddr)
    ensures BytesOf(stats + [s]) == BytesOf(stats) + s.requestLen + s.responseLen
    ensures DurationOf(stats + [s]) == DurationOf(stats) + s.duration
    ensures RequestsTo(stats + [s], b) == RequestsTo(stats, b) + if s.backend == b then 1 else 0
    ensures ErrorsAt(stats + [s], b) == ErrorsAt(stats, b) + if s.backend == b && s.outcome == Errored then 1 else 0
  {
    if stats == [] {
      assert [s][1..] == [];
    } else {
      CountsSnoc(stats[1..], s, b);
      assert (stats + [s])[1..] == stats[1..] + [s];
    }
  }

  /** Total is the number of records, bytes and duration their sums, and each backend has its own records. */
  lemma {:induction false} TotalsAreCounts(stats: seq<RequestStats>, b: SocketAddr)
    ensures var m := RecordAll(stats);
            && m.requests == |stats| && m.bytes == BytesOf(stats) && m.duration == DurationOf(stats)
            && (stats != [] ==> m.lastDuration == stats[|stats| - 1].duration)
            && EntryOf(m.perBackend, b) == BackendMetrics(RequestsTo(stats, b), ErrorsAt(stats, b))
            && EntryOf(m.perBackend, b).errors <= EntryOf(m.perBackend, b).requests
  {
    if stats != [] {
      var k := |stats| - 1;
      TotalsAreCounts(stats[..k], b);
      CountsSnoc(stats[..k], stats[k], b);
      assert stats[..k] + [stats[k]] == stats;
    }
  }

  /** Largest is an upper bound of the request lengths that is reached. */
  lemma {:induction false} LargestIsMaximum(stats: seq<RequestStats>)
    ensures forall s | s in stats :: s.requestLen <= RecordAll(stats).largest
    ensures stats != [] ==> exists s :: s in stats && s.requestLen == RecordAll(stats).largest
  {
    if stats != [] {
      var k := |stats| - 1;
      LargestIsMaximum(stats[..k]);
      assert stats[..k] + [stats[k]] == stats;
      assert stats[k] in stats;
    }
  }

  /** Sum of the requests over a set of backends. */
  ghost function RequestsOver(m: map<SocketAddr, BackendMetrics>, keys: set<SocketAddr>): nat
    requires keys <= m.Keys
    decreases |keys|
  {
    if keys == {} then 0
    else
      var b :| b in keys;
      m[b].requests + RequestsOver(m, keys - {b})
  }

  lemma {:induction false} RequestsOverPick(m: map<SocketAddr, BackendMetrics>, keys: set<SocketAddr>, b: SocketAddr)
    requires keys <= m.Keys && b in keys
    ensures RequestsOver(m, keys) == m[b].requests + RequestsOver(m, keys - {b})
    decreases |keys|
  {
    var c :| c in keys && RequestsOver(m, keys) == m[c].requests + RequestsOver(m, keys - {c});
    if c != b {
      RequestsOverPick(m, keys - {c}, b);
      RequestsOverPick(m, keys - {b}, c);
      assert keys - {c} - {b} == keys - {b} - {c};
    }
  }

  lemma {:induction false} RequestsOverSame(m: map<SocketAddr, BackendMetrics>, n: map<SocketAddr, BackendMetrics>,
                                           keys: set<SocketAddr>)
    requires keys <= m.Keys && keys <= n.Keys && forall b | b in keys :: m[b] == n[b]
    ensures RequestsOver(m, keys) == RequestsOver(n, keys)
    decreases |keys|
  {
    if keys != {} {
      var b :| b in keys;
      RequestsOverPick(m, keys, b);
      RequestsOverPick(n, keys, b);
      RequestsOverSame(m, n, keys - {b});
    }
  }

  /** The per-backend requests sum to the total. */
  lemma {:induction false} BackendsSumToTotal(stats: seq<RequestStats>)
    ensures RequestsOver(RecordAll(stats).perBackend, RecordAll(stats).perBackend.Keys) == RecordAll(stats).requests
  {
    if stats != [] {
      var k := |stats| - 1;
      var before, s := RecordAll(stats[..k]), stats[k];
      BackendsSumToTotal(stats[..k]);
      SumStep(before, s);
    }
  }

  lemma SumStep(m: Totals, s: RequestStats)
    requires RequestsOver(m.perBackend, m.perBackend.Keys) == m.requests
    ensures var n := Record(m, s); RequestsOver(n.perBackend, n.perBackend.Keys) == n.requests
  {
    var n := Record(m, s);
    var rest := n.perBackend.Keys - {s.backend};
    RequestsOverPick(n.perBackend, n.perBackend.Keys, s.backend);
    RequestsOverSame(m.perBackend, n.perBackend, rest);
    if s.backend in m.perBackend {
      RequestsOverPick(m.perBackend, m.perBackend.Keys, s.backend);
      assert m.perBackend.Keys - {s.backend} == rest;
    } else {
      assert m.perBackend.Keys == rest;
    }
  }
}
