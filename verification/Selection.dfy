/** Round-robin selection over health flags: where a scan looks, and what share each backend gets. */
module Selection {
  import opened Bytes
  import opened Modular

  const TWO_64: nat := 0x1_0000_0000_0000_0000

  // ---------- Selection on values ----------

  /** Index looked at `offset` steps into a scan; the addition wraps at 2^64 as in release builds. */
  function Slot(start: nat, offset: nat, n: nat): (i: nat)
    requires n > 0
    ensures i < n
  {
    (start + offset) % TWO_64 % n
  }

  /** The first healthy index of the scan that starts at a ticket, from `offset` on. */
  function Scan(h: seq<bool>, start: nat, offset: nat): (r: Option<nat>)
    requires offset <= |h|
    ensures r.Some? ==> r.value < |h| && h[r.value]
    decreases |h| - offset
  {
    if offset == |h| then None
    else if h[Slot(start, offset, |h|)] then Some(Slot(start, offset, |h|))
    else Scan(h, start, offset + 1)
  }

  /** Index selected with a ticket. */
  function Pick(h: seq<bool>, ticket: nat): (r: Option<nat>)
    ensures r.Some? ==> r.value < |h| && h[r.value]
  {
    Scan(h, ticket, 0)
  }

  lemma {:induction false} ScanFinds(h: seq<bool>, start: nat, from: nat, at: nat)
    requires from <= at < |h| && h[Slot(start, at, |h|)]
    requires forall o: nat | from <= o < at :: !h[Slot(start, o, |h|)]
    ensures Scan(h, start, from) == Some(Slot(start, at, |h|))
    decreases at - from
  {
    if from < at {
      ScanFinds(h, start, from + 1, at);
    }
  }

  lemma {:induction false} ScanHits(h: seq<bool>, start: nat, from: nat) returns (at: nat)
    requires from <= |h| && Scan(h, start, from).Some?
    ensures from <= at < |h| && Scan(h, start, from) == Some(Slot(start, at, |h|)) && h[Slot(start, at, |h|)]
    ensures forall o: nat | from <= o < at :: !h[Slot(start, o, |h|)]
    decreases |h| - from
  {
    if h[Slot(start, from, |h|)] {
      at := from;
    } else {
      at := ScanHits(h, start, from + 1);
    }
  }

  lemma {:induction false} ScanMisses(h: seq<bool>, start: nat, from: nat)
    requires from <= |h|
    ensures Scan(h, start, from).None? <==> forall o: nat | from <= o < |h| :: !h[Slot(start, o, |h|)]
    decreases |h| - from
  {
    if from < |h| {
      ScanMisses(h, start, from + 1);
    }
  }

  // ---------- Where a scan looks ----------

  ghost predicate LooksAt(start: nat, n: nat, i: nat)
    requires n > 0
  {
    exists o: nat :: o < n && Slot(start, o, n) == i
  }

  /** The scan that starts at this ticket looks at every index. */
  ghost predicate LooksEverywhere(start: nat, n: nat)
    requires n > 0
  {
    forall i: nat | i < n :: LooksAt(start, n, i)
  }

  /** The addition stays below 2^64, or its wrap-around goes unnoticed. */
  predicate ScanIsCyclic(start: nat, n: nat)
    requires n > 0
  {
    start + n - 1 < TWO_64 || TWO_64 % n == 0
  }

  lemma SlotAfterWrap(start: nat, offset: nat, n: nat)
    requires n > 0 && start < TWO_64 <= start + offset && offset < TWO_64
    ensures Slot(start, offset, n) == (start + offset - TWO_64) % n
  {
    DivModUnique(start + offset, TWO_64, 1, start + offset - TWO_64);
  }

  lemma SlotIsCyclic(start: nat, offset: nat, n: nat)
    requires 0 < n <= TWO_64 && start < TWO_64 && offset < n && ScanIsCyclic(start, n)
    ensures Slot(start, offset, n) == (start + offset) % n
  {
    if start + offset >= TWO_64 {
      SlotAfterWrap(start, offset, n);
      assert TWO_64 == TWO_64 / n * n;
      ModPlus(start + offset - TWO_64, n, TWO_64 / n);
    }
  }

  /** Before the wrap: `2^64 - e` and the number that is `n - j` above a multiple of `n`. */
  lemma BeforeWrap(n: nat, q: nat, r: nat, e: nat, j: nat)
    requires n > 0 && TWO_64 == q * n + r && e <= TWO_64 && 1 <= j <= n
    requires e < r + j <= n && 1 <= e
    ensures (TWO_64 - e) % n != n - j
  {
    var b := q * n + (n - j);
    DivModUnique(b, n, q, n - j);
    ModApart(TWO_64 - e, b, n);
  }

  /** When the scan wraps at 2^64 and the number of backends does not divide it, one index is
      skipped: the scan reports that no backend is healthy although that one may be. */
  lemma WrapSkipsIndex(start: nat, n: nat) returns (i: nat)
    requires 0 < n <= TWO_64 && start < TWO_64 && !ScanIsCyclic(start, n)
    ensures i < n && !LooksAt(start, n, i)
  {
    var q, r, k := TWO_64 / n, TWO_64 % n, TWO_64 - start;
    var j := if r < k then k - r + 1 else 1;
    i := n - j;
    forall o: nat | o < n
      ensures Slot(start, o, n) != i
    {
      if o < k {
        assert start + o == TWO_64 - (k - o);
        BeforeWrap(n, q, r, k - o, j);
      } else {
        SlotAfterWrap(start, o, n);
        DivModUnique(o - k, n, 0, o - k);
      }
    }
  }

  /** The exact range in which a failing selection means that every backend is unhealthy. */
  lemma LooksEverywhereIff(start: nat, n: nat)
    requires 0 < n <= TWO_64 && start < TWO_64
    ensures LooksEverywhere(start, n) <==> ScanIsCyclic(start, n)
  {
    if ScanIsCyclic(start, n) {
      forall i: nat | i < n
        ensures LooksAt(start, n, i)
      {
        var off := ModHit(start, n, i);
        SlotIsCyclic(start, off, n);
      }
    } else {
      var i := WrapSkipsIndex(start, n);
    }
  }

  /** Skipping happens: three backends, only the last healthy, the last ticket before the wrap. */
  lemma LastTicketMissesBackend()
    ensures Pick([false, false, true], TWO_64 - 1) == None
  {
    ScanMisses([false, false, true], TWO_64 - 1, 0);
    assert Slot(TWO_64 - 1, 0, 3) == 0 && Slot(TWO_64 - 1, 1, 3) == 0 && Slot(TWO_64 - 1, 2, 3) == 1;
  }

  /** With a cyclic scan, selection fails exactly when no backend is healthy. */
  lemma PickFailsIff(h: seq<bool>, ticket: nat)
    requires 0 < |h| <= TWO_64 && ticket < TWO_64 && ScanIsCyclic(ticket, |h|)
    ensures Pick(h, ticket).None? <==> forall i | 0 <= i < |h| :: !h[i]
  {
    ScanMisses(h, ticket, 0);
    LooksEverywhereIff(ticket, |h|);
    if Pick(h, ticket).None? {
      forall i: nat | i < |h|
        ensures !h[i]
      {
        assert LooksAt(ticket, |h|, i);
      }
    }
  }

  /** `i` is the first healthy index of the cycle, `d` steps behind the ticket. */
  predicate FirstFrom(h: seq<bool>, ticket: nat, d: nat, i: nat) {
    d < |h| && i == (ticket + d) % |h| && h[i] && forall p: nat | ticket <= p < ticket + d :: !At(h, p)
  }

  /** With a cyclic scan, selection returns the first healthy backend at or behind the ticket's place. */
  lemma PickIff(h: seq<bool>, ticket: nat, i: nat)
    requires 0 < |h| <= TWO_64 && ticket < TWO_64 && ScanIsCyclic(ticket, |h|)
    ensures Pick(h, ticket) == Some(i) <==> exists d :: FirstFrom(h, ticket, d, i)
  {
    hide Scan, Slot, ScanIsCyclic, At;
    forall o: nat | o < |h|
      ensures Slot(ticket, o, |h|) == (ticket + o) % |h| && h[Slot(ticket, o, |h|)] == At(h, ticket + o)
    {
      SlotAt(h, ticket, o);
    }
    if Pick(h, ticket) == Some(i) {
      var d := ScanHits(h, ticket, 0);
      forall p: nat | ticket <= p < ticket + d
        ensures !At(h, p)
      {
        assert !h[Slot(ticket, p - ticket, |h|)];
      }
      assert FirstFrom(h, ticket, d, i);
    }
    forall d | FirstFrom(h, ticket, d, i)
      ensures Pick(h, ticket) == Some(i)
    {
      forall o: nat | o < d
        ensures !h[Slot(ticket, o, |h|)]
      {
        assert !At(h, ticket + o);
      }
      ScanFinds(h, ticket, 0, d);
    }
  }

  lemma SlotAt(h: seq<bool>, ticket: nat, o: nat)
    requires o < |h| <= TWO_64 && ticket < TWO_64 && ScanIsCyclic(ticket, |h|)
    ensures Slot(ticket, o, |h|) == (ticket + o) % |h| && h[Slot(ticket, o, |h|)] == At(h, ticket + o)
  {
    SlotIsCyclic(ticket, o, |h|);
  }

  ghost predicate SomeHealthy(h: seq<bool>) { exists i :: 0 <= i < |h| && h[i] }

  /** Failure means what its documentation says, with this ticket and for all healths of n backends. */
  ghost predicate FailureMeansAllDown(ticket: nat, n: nat) {
    forall h: seq<bool> | |h| == n :: Pick(h, ticket).None? <==> !SomeHealthy(h)
  }

  /** That holds exactly for cyclic scans: otherwise one backend can be up and go unseen. */
  lemma FailureMeansAllDownIff(ticket: nat, n: nat)
    requires 0 < n <= TWO_64 && ticket < TWO_64
    ensures FailureMeansAllDown(ticket, n) <==> ScanIsCyclic(ticket, n)
  {
    hide Pick, Slot;
    if ScanIsCyclic(ticket, n) {
      forall h: seq<bool> | |h| == n
        ensures Pick(h, ticket).None? <==> !SomeHealthy(h)
      {
        PickFailsIff(h, ticket);
      }
    } else {
      var i := WrapSkipsIndex(ticket, n);
      var h := UnseenUp(ticket, n, i);
      assert Pick(h, ticket).None? && SomeHealthy(h);
    }
  }

  /** Only the skipped backend is up: the selection fails. */
  lemma UnseenUp(ticket: nat, n: nat, i: nat) returns (h: seq<bool>)
    requires i < n && !LooksAt(ticket, n, i)
    ensures |h| == n && h[i] && Pick(h, ticket).None?
  {
    h := seq(n, k => k == i);
    forall o: nat | o < n
      ensures !h[Slot(ticket, o, n)]
    {
    }
    ScanMisses(h, ticket, 0);
  }

  // ---------- Shares ----------

  /** Health at a position of the endless cycle of backends. */
  predicate At(h: seq<bool>, k: nat)
    requires h != []
  {
    h[k % |h|]
  }

  lemma AtNextLap(h: seq<bool>, k: nat)
    requires h != []
    ensures At(h, k + |h|) == At(h, k)
  {
    ModPlus(k, |h|, 0);
  }

  /** Index chosen for a position of the cycle, without any wrap-around. */
  function Choice(h: seq<bool>, k: nat, offset: nat := 0): (r: Option<nat>)
    requires offset <= |h|
    decreases |h| - offset
  {
    if offset == |h| then None
    else if At(h, k + offset) then Some((k + offset) % |h|)
    else Choice(h, k, offset + 1)
  }

  lemma {:induction false} PickIsChoice(h: seq<bool>, ticket: nat, from: nat)
    requires 0 < |h| <= TWO_64 && ticket < TWO_64 && ScanIsCyclic(ticket, |h|) && from <= |h|
    ensures Scan(h, ticket, from) == Choice(h, ticket, from)
    decreases |h| - from
  {
    if from < |h| {
      SlotIsCyclic(ticket, from, |h|);
      PickIsChoice(h, ticket, from + 1);
    }
  }

  lemma {:induction false} ChoiceIs(h: seq<bool>, k: nat, from: nat, at: nat)
    requires from <= at < |h| && At(h, k + at)
    requires forall p: nat | k + from <= p < k + at :: !At(h, p)
    ensures Choice(h, k, from) == Some((k + at) % |h|)
    decreases at - from
  {
    hide At;
    if from < at {
      ChoiceIs(h, k, from + 1, at);
    }
  }

  /** The choice is made no later than at the first healthy place known. */
  lemma {:induction false} ChoiceBy(h: seq<bool>, k: nat, from: nat, at: nat) returns (o: nat)
    requires from <= at < |h| && At(h, k + at)
    ensures from <= o <= at && Choice(h, k, from) == Some((k + o) % |h|)
    decreases at - from
  {
    hide At;
    if At(h, k + from) {
      o := from;
    } else {
      o := ChoiceBy(h, k, from + 1, at);
    }
  }

  lemma {:induction false} ChoicePeriodic(h: seq<bool>, k: nat, from: nat)
    requires 0 < |h| && from <= |h|
    ensures Choice(h, k + |h|, from) == Choice(h, k, from)
    decreases |h| - from
  {
    if from < |h| {
      AtNextLap(h, k + from);
      ModPlus(k + from, |h|, 0);
      ChoicePeriodic(h, k, from + 1);
    }
  }

  /** How many of the `m` positions from `t` on choose backend `i`. */
  function Times(h: seq<bool>, t: nat, m: nat, i: nat): nat
    decreases m
  {
    if m == 0 then 0
    else Times(h, t, m - 1, i) + if Choice(h, t + m - 1) == Some(i) then 1 else 0
  }

  lemma {:induction false} TimesFront(h: seq<bool>, t: nat, m: nat, i: nat)
    requires m > 0
    ensures Times(h, t, m, i) == (if Choice(h, t) == Some(i) then 1 else 0) + Times(h, t + 1, m - 1, i)
    decreases m
  {
    hide Choice;
    if m > 1 {
      TimesFront(h, t, m - 1, i);
    }
  }

  /** Any window of `n` consecutive positions counts the same. */
  lemma {:induction false} TimesSlide(h: seq<bool>, s: nat, t: nat, i: nat)
    requires 0 < |h| && s <= t
    ensures Times(h, s, |h|, i) == Times(h, t, |h|, i)
    decreases t - s
  {
    hide Choice;
    if s < t {
      TimesFront(h, s, |h|, i);
      ChoicePeriodic(h, s, 0);
      TimesSlide(h, s + 1, t, i);
    }
  }

  /** Steps back from `i` to the healthy backend in front of it on the cycle. */
  function BackDistance(h: seq<bool>, i: nat, d: nat := 1): nat
    requires i < |h| && h[i] && 1 <= d <= |h|
    decreases |h| - d
  {
    if d == |h| || At(h, i + |h| - d) then d else BackDistance(h, i, d + 1)
  }

  lemma {:induction false} BackDistanceMeaning(h: seq<bool>, i: nat, d: nat)
    requires i < |h| && h[i] && 1 <= d <= |h|
    ensures d <= BackDistance(h, i, d) <= |h|
    ensures At(h, i + |h| - BackDistance(h, i, d))
    ensures forall p: nat | i + |h| - BackDistance(h, i, d) < p <= i + |h| - d :: !At(h, p)
    decreases |h| - d
  {
    if d == |h| || At(h, i + |h| - d) {
      DivModUnique(i, |h|, 0, i);
    } else {
      hide At;
      BackDistanceMeaning(h, i, d + 1);
    }
  }

  /** The `d` positions that lead up to `i` from its predecessor choose `i`. */
  lemma ApproachChooses(h: seq<bool>, i: nat, j: nat)
    requires i < |h| && h[i] && j < BackDistance(h, i)
    ensures BackDistance(h, i) <= |h|
    ensures Choice(h, i + 1 + |h| - BackDistance(h, i) + j) == Some(i)
  {
    hide Choice;
    BackDistanceMeaning(h, i, 1);
    var n, d := |h|, BackDistance(h, i);
    ModPlus(i, n, 1);
    DivModUnique(i, n, 0, i);
    assert At(h, i + n);
    hide At;
    ChoiceIs(h, i + 1 + n - d + j, 0, d - 1 - j);
  }

  /** The positions from behind `i` up to the next lap's predecessor choose another backend. */
  lemma BeyondChoosesOther(h: seq<bool>, i: nat, j: nat)
    requires i < |h| && h[i] && BackDistance(h, i) <= j < |h|
    ensures Choice(h, i + 1 + |h| - BackDistance(h, i) + j) != Some(i)
  {
    hide Choice, At;
    BackDistanceMeaning(h, i, 1);
    var n, d := |h|, BackDistance(h, i);
    var k, at := i + 1 + n - d + j, n - 1 - j;
    AtNextLap(h, i + n - d);
    var o := ChoiceBy(h, k, 0, at);
    ModPlus(i, n, 1);
    DivModUnique(i, n, 0, i);
    ModApart(i + n, k + o, n);
  }

  lemma {:induction false} ApproachCount(h: seq<bool>, i: nat, m: nat)
    requires i < |h| && h[i] && m <= |h|
    ensures 1 <= BackDistance(h, i) <= |h|
    ensures Times(h, i + 1 + |h| - BackDistance(h, i), m, i)
         == if m <= BackDistance(h, i) then m else BackDistance(h, i)
    decreases m
  {
    hide Choice, BackDistance;
    BackDistanceMeaning(h, i, 1);
    if m > 0 {
      ApproachCount(h, i, m - 1);
      if m - 1 < BackDistance(h, i) {
        ApproachChooses(h, i, m - 1);
      } else {
        BeyondChoosesOther(h, i, m - 1);
      }
    }
  }

  /** The share of a backend: its distance from the healthy backend in front of it. */
  function Share(h: seq<bool>, i: nat): nat
    requires i < |h|
  {
    if h[i] then BackDistance(h, i) else 0
  }

  lemma {:induction false} ChoiceIsHealthy(h: seq<bool>, k: nat, from: nat)
    requires from <= |h|
    ensures Choice(h, k, from).Some? ==> Choice(h, k, from).value < |h| && h[Choice(h, k, from).value]
    decreases |h| - from
  {
    if from < |h| {
      ChoiceIsHealthy(h, k, from + 1);
    }
  }

  lemma {:induction false} UnhealthyNeverChosen(h: seq<bool>, t: nat, m: nat, i: nat)
    requires i < |h| && !h[i]
    ensures Times(h, t, m, i) == 0
    decreases m
  {
    hide Choice;
    if m > 0 {
      ChoiceIsHealthy(h, t + m - 1, 0);
      UnhealthyNeverChosen(h, t, m - 1, i);
    }
  }

  /** Exact shares: any `n` consecutive positions choose each backend as often as its share. */
  lemma TimesIsShare(h: seq<bool>, t: nat, i: nat)
    requires i < |h|
    ensures Times(h, t, |h|, i) == Share(h, i)
  {
    hide Choice, BackDistance, Times;
    if h[i] {
      ApproachCount(h, i, |h|);
      var s := i + 1 + |h| - BackDistance(h, i);
      if s <= t {
        TimesSlide(h, s, t, i);
      } else {
        TimesSlide(h, t, s, i);
      }
    } else {
      UnhealthyNeverChosen(h, t, |h|, i);
    }
  }

  /** How many of the selections with tickets `t .. t + m - 1` return backend `i`. */
  function Selections(h: seq<bool>, t: nat, m: nat, i: nat): nat
    decreases m
  {
    if m == 0 then 0
    else Selections(h, t, m - 1, i) + if Pick(h, t + m - 1) == Some(i) then 1 else 0
  }

  lemma {:induction false} SelectionsAreTimes(h: seq<bool>, t: nat, m: nat, i: nat)
    requires 0 < |h| <= TWO_64 && t + m + |h| <= TWO_64 + 1
    ensures Selections(h, t, m, i) == Times(h, t, m, i)
    decreases m
  {
    hide Pick, Choice;
    if m > 0 {
      PickMeetsChoice(h, t + m - 1);
      SelectionsAreTimes(h, t, m - 1, i);
    }
  }

  lemma PickMeetsChoice(h: seq<bool>, ticket: nat)
    requires 0 < |h| <= TWO_64 && ticket < TWO_64 && ScanIsCyclic(ticket, |h|)
    ensures Pick(h, ticket) == Choice(h, ticket)
  {
    PickIsChoice(h, ticket, 0);
  }

  /** With health fixed, any `n` consecutive selections return each backend exactly as often as its
      share, as long as the tickets stay clear of the wrap-around. */
  lemma ExactShares(h: seq<bool>, t: nat, i: nat)
    requires i < |h| && t + 2 * |h| <= TWO_64 + 1
    ensures Selections(h, t, |h|, i) == Share(h, i)
  {
    hide Selections, Times, Share;
    SelectionsAreTimes(h, t, |h|, i);
    TimesIsShare(h, t, i);
  }

  function SumOfShares(h: seq<bool>, k: nat): nat
    requires k <= |h|
  {
    if k == 0 then 0 else SumOfShares(h, k - 1) + Share(h, k - 1)
  }

  function SumOfTimes(h: seq<bool>, t: nat, m: nat, k: nat): nat {
    if k == 0 then 0 else SumOfTimes(h, t, m, k - 1) + Times(h, t, m, k - 1)
  }

  lemma {:induction false} SumOfTimesStep(h: seq<bool>, t: nat, m: nat, k: nat)
    requires m > 0
    ensures SumOfTimes(h, t, m, k)
         == SumOfTimes(h, t, m - 1, k) + if Choice(h, t + m - 1).Some? && Choice(h, t + m - 1).value < k then 1 else 0
    decreases k
  {
    hide Choice;
    if k > 0 {
      SumOfTimesStep(h, t, m, k - 1);
    }
  }

  lemma {:induction false} SumOfTimesIsLength(h: seq<bool>, t: nat, m: nat)
    requires SomeHealthy(h)
    ensures SumOfTimes(h, t, m, |h|) == m
    decreases m
  {
    hide Choice;
    if m == 0 {
      SumOfNoTimes(h, t, |h|);
    } else {
      SumOfTimesIsLength(h, t, m - 1);
      SumOfTimesStep(h, t, m, |h|);
      ChoiceExists(h, t + m - 1);
      ChoiceIsHealthy(h, t + m - 1, 0);
    }
  }

  lemma {:induction false} SumOfNoTimes(h: seq<bool>, t: nat, k: nat)
    ensures SumOfTimes(h, t, 0, k) == 0
  {
    if k > 0 {
      SumOfNoTimes(h, t, k - 1);
    }
  }

  lemma ChoiceExists(h: seq<bool>, k: nat)
    requires SomeHealthy(h)
    ensures Choice(h, k).Some?
  {
    var i :| 0 <= i < |h| && h[i];
    var off := ModHit(k, |h|, i);
    var _ := ChoiceBy(h, k, 0, off);
  }

  lemma {:induction false} SumsAgree(h: seq<bool>, k: nat)
    requires k <= |h|
    ensures SumOfTimes(h, 0, |h|, k) == SumOfShares(h, k)
  {
    hide Share, Times;
    if k > 0 {
      SumsAgree(h, k - 1);
      TimesIsShare(h, 0, k - 1);
    }
  }

  /** The shares of all backends sum to the number of backends; with all healthy each is 1. */
  lemma SharesSumUp(h: seq<bool>)
    requires SomeHealthy(h)
    ensures SumOfShares(h, |h|) == |h|
    ensures (forall i | 0 <= i < |h| :: h[i]) ==> forall i: nat | i < |h| :: Share(h, i) == 1
  {
    SumsAgree(h, |h|);
    SumOfTimesIsLength(h, 0, |h|);
  }
}
