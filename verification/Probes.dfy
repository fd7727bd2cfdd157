/** Health of one backend under probes: consecutive counters with two thresholds. */
module Probes {
  import opened Numbers

  /** The three cells of a backend entry that probes change. */
  datatype Probed = Probed(healthy: bool, failures: nat, successes: nat)

  const FRESH: Probed := Probed(true, 0, 0)

  function Saturated(n: nat): nat { if n < U32_MAX then n else U32_MAX }

  function AfterSuccess(p: Probed, recovery: nat): Probed {
    var successes := Saturated(p.successes + 1);
    Probed(successes >= recovery || p.healthy, 0, successes)
  }

  function AfterFailure(p: Probed, failure: nat): Probed {
    var failures := Saturated(p.failures + 1);
    Probed(failures < failure && p.healthy, failures, 0)
  }

  /** Thresholds are u32 values. */
  datatype Thresholds = Thresholds(failure: nat, recovery: nat)

  predicate Valid(t: Thresholds) { t.failure <= U32_MAX && t.recovery <= U32_MAX }

  function AfterProbe(p: Probed, ok: bool, t: Thresholds): Probed {
    if ok then AfterSuccess(p, t.recovery) else AfterFailure(p, t.failure)
  }

  function AfterProbes(p: Probed, history: seq<bool>, t: Thresholds): Probed {
    if history == [] then p
    else AfterProbe(AfterProbes(p, history[..|history| - 1], t), history[|history| - 1], t)
  }

  // ---------- Health as a property of the probe history ----------

  /** The `len` results in front of position `p` are all `ok`. */
  predicate EndsRun(history: seq<bool>, p: nat, len: nat, ok: bool) {
    len <= p <= |history| && forall j | p - len <= j < p :: history[j] == ok
  }

  /** Position `p` ends a run long enough to decide the health. */
  predicate Decisive(history: seq<bool>, p: nat, t: Thresholds) {
    0 < p <= |history| &&
    var ok := history[p - 1];
    EndsRun(history, p, if ok then t.recovery else t.failure, ok)
  }

  /** Healthy by history: the latest decisive position is a success, or there is none. */
  ghost predicate HealthyByHistory(history: seq<bool>, t: Thresholds) {
    || (forall p: nat :: !Decisive(history, p, t))
    || exists p: nat :: Decisive(history, p, t) && history[p - 1] && forall q: nat | p < q :: !Decisive(history, q, t)
  }

  /** Length of the run of `ok` at the end. */
  function Trailing(history: seq<bool>, ok: bool): (n: nat)
    ensures n <= |history|
  {
    if history == [] || history[|history| - 1] != ok then 0
    else 1 + Trailing(history[..|history| - 1], ok)
  }

  lemma {:induction false} TrailingIsRun(history: seq<bool>, ok: bool, len: nat)
    ensures EndsRun(history, |history|, len, ok) <==> len <= Trailing(history, ok)
  {
    if history != [] && len > 0 {
      var before := history[..|history| - 1];
      TrailingIsRun(before, ok, len - 1);
      if EndsRun(history, |history|, len, ok) {
        assert EndsRun(before, |before|, len - 1, ok);
        assert history[|history| - 1] == ok;
      }
      if len <= Trailing(history, ok) {
        assert forall j | |history| - len <= j < |before| :: history[j] == before[j];
      }
    }
  }

  /** The counters are the lengths of the runs at the end of the history, cut off at 2^32 - 1. */
  lemma {:induction false} CountersAreRuns(history: seq<bool>, t: Thresholds)
    ensures var p := AfterProbes(FRESH, history, t);
            p.failures == Saturated(Trailing(history, false)) && p.successes == Saturated(Trailing(history, true))
  {
    if history != [] {
      CountersAreRuns(history[..|history| - 1], t);
    }
  }

  lemma DecisiveBefore(history: seq<bool>, ok: bool, t: Thresholds, p: nat)
    ensures Decisive(history + [ok], p, t)
       <==> if p == |history| + 1 then EndsRun(history + [ok], p, if ok then t.recovery else t.failure, ok)
            else Decisive(history, p, t)
  {
    var longer := history + [ok];
    if 0 < p <= |history| {
      assert forall j | 0 <= j < p :: longer[j] == history[j];
    }
  }

  lemma HealthyAfter(history: seq<bool>, ok: bool, t: Thresholds)
    ensures HealthyByHistory(history + [ok], t)
       <==> if Decisive(history + [ok], |history| + 1, t) then ok else HealthyByHistory(history, t)
  {
    var longer, last := history + [ok], |history| + 1;
    forall p: nat
      ensures p != last ==> (Decisive(longer, p, t) <==> Decisive(history, p, t))
      ensures p != last && Decisive(history, p, t) ==> longer[p - 1] == history[p - 1]
    {
      DecisiveBefore(history, ok, t, p);
    }
    hide EndsRun;
    if Decisive(longer, last, t) {
      assert forall q: nat | last < q :: !Decisive(longer, q, t);
    } else if HealthyByHistory(history, t) {
      if p: nat :| Decisive(history, p, t) && history[p - 1] && forall q: nat | p < q :: !Decisive(history, q, t) {
        assert Decisive(longer, p, t);
      }
    }
  }

  /** Health equals the history specification, for every history of any length and all thresholds:
      the saturating counters never change the answer. */
  lemma {:induction false} HealthIsHistory(history: seq<bool>, t: Thresholds)
    requires Valid(t)
    ensures AfterProbes(FRESH, history, t).healthy <==> HealthyByHistory(history, t)
  {
    hide EndsRun, HealthyByHistory, AfterProbes;
    if history == [] {
      NoHistory(t);
    } else {
      var before, ok := history[..|history| - 1], history[|history| - 1];
      HealthIsHistory(before, t);
      CountersAreRuns(before, t);
      HealthyAfter(before, ok, t);
      assert before + [ok] == history;
      TrailingIsRun(history, ok, if ok then t.recovery else t.failure);
      LastProbe(history, t);
    }
  }

  lemma LastProbe(history: seq<bool>, t: Thresholds)
    requires history != []
    ensures AfterProbes(FRESH, history, t)
         == AfterProbe(AfterProbes(FRESH, history[..|history| - 1], t), history[|history| - 1], t)
  {
  }

  lemma NoHistory(t: Thresholds)
    ensures AfterProbes(FRESH, [], t).healthy && HealthyByHistory([], t)
  {
  }

  // ---------- Transition events ----------

  datatype Event = BackendUnhealthy | BackendRecovered

  /** The event logged for one probe: only a change of health is reported. */
  function EventOf(before: Probed, after: Probed, ok: bool): seq<Event> {
    if ok then (if !before.healthy && after.healthy then [BackendRecovered] else [])
    else (if before.healthy && !after.healthy then [BackendUnhealthy] else [])
  }

  function EventsOf(p: Probed, history: seq<bool>, t: Thresholds): seq<Event> {
    if history == [] then []
    else
      var before := AfterProbes(p, history[..|history| - 1], t);
      EventsOf(p, history[..|history| - 1], t)
      + EventOf(before, AfterProbe(before, history[|history| - 1], t), history[|history| - 1])
  }

  function Count(events: seq<Event>, e: Event): nat {
    if events == [] then 0
    else Count(events[..|events| - 1], e) + if events[|events| - 1] == e then 1 else 0
  }

  lemma CountSnoc(events: seq<Event>, e: Event, f: Event)
    ensures Count(events + [f], e) == Count(events, e) + if f == e then 1 else 0
  {
    assert (events + [f])[..|events|] == events;
  }

  /** Health flips with every event, so the number of events tells the health. */
  lemma {:induction false} EventsAlternate(history: seq<bool>, t: Thresholds)
    ensures var events := EventsOf(FRESH, history, t);
            && (forall k | 0 <= k < |events| :: events[k] == if k % 2 == 0 then BackendUnhealthy else BackendRecovered)
            && (AfterProbes(FRESH, history, t).healthy <==> |events| % 2 == 0)
  {
    if history != [] {
      EventsAlternate(history[..|history| - 1], t);
    }
  }

  /** The cost of a state: failures counted while healthy, successes while unhealthy. */
  function Pending(p: Probed): nat { if p.healthy then p.failures else p.successes }

  /** Every unhealthy event has used up `failure` probes and every recovery `recovery` probes, all
      different. */
  lemma {:induction false} FlappingIsBounded(history: seq<bool>, t: Thresholds)
    ensures var events := EventsOf(FRESH, history, t);
            var u, v := Count(events, BackendUnhealthy), Count(events, BackendRecovered);
            && u - v == (if AfterProbes(FRESH, history, t).healthy then 0 else 1)
            && t.failure * u + t.recovery * v + Pending(AfterProbes(FRESH, history, t)) <= |history|
  {
    if history == [] {
      assert t.failure * 0 + t.recovery * 0 == 0;
    } else {
      var before := history[..|history| - 1];
      FlappingIsBounded(before, t);
      FlapStep(AfterProbes(FRESH, before, t), history[|history| - 1], t, EventsOf(FRESH, before, t), |before|);
    }
  }

  lemma FlapStep(p: Probed, ok: bool, t: Thresholds, events: seq<Event>, n: nat)
    requires t.failure * Count(events, BackendUnhealthy) + t.recovery * Count(events, BackendRecovered) + Pending(p)
          <= n
    requires Count(events, BackendUnhealthy) - Count(events, BackendRecovered) == if p.healthy then 0 else 1
    ensures var q := AfterProbe(p, ok, t);
            var more := events + EventOf(p, q, ok);
            var u, v := Count(more, BackendUnhealthy), Count(more, BackendRecovered);
            && u - v == (if q.healthy then 0 else 1)
            && t.failure * u + t.recovery * v + Pending(q) <= n + 1
  {
    hide Count;
    var q := AfterProbe(p, ok, t);
    var event := EventOf(p, q, ok);
    var u, v := Count(events, BackendUnhealthy), Count(events, BackendRecovered);
    if event == [] {
      assert events + event == events;
    } else {
      CountSnoc(events, BackendUnhealthy, event[0]);
      CountSnoc(events, BackendRecovered, event[0]);
      assert t.failure * (u + 1) == t.failure * u + t.failure;
      assert t.recovery * (v + 1) == t.recovery * v + t.recovery;
    }
  }
}
