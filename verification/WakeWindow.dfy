/** The wake decision of `wake_word.cc`: a plain detector over the list of the last five
    probabilities since the previous fire, its theorems over whole runs, and the ring buffer of the
    firmware as a refinement of it. Probabilities are reals; rounding is not modelled. */
module WakeWindow {
  const WINDOW_LEN: nat := 5
  const MIN_HITS: nat := 2
  const THRESHOLD: real := 0.60
  const PEAK_MIN: real := 0.80
  const AVG_MIN: real := 0.50
  const COOLDOWN_US: int := 2_000_000

  // ---- Window statistics ----

  function Hits(w: seq<real>): nat {
    if w == [] then 0 else Hits(w[..|w| - 1]) + if w[|w| - 1] >= THRESHOLD then 1 else 0
  }

  function Max(x: real, y: real): real {
    if x < y then y else x
  }

  function Peak(w: seq<real>): real {
    if w == [] then 0.0 else Max(Peak(w[..|w| - 1]), w[|w| - 1])
  }

  function Sum(w: seq<real>): real {
    if w == [] then 0.0 else Sum(w[..|w| - 1]) + w[|w| - 1]
  }

  lemma {:induction false} StatisticsSplit(a: seq<real>, b: seq<real>)
    ensures Hits(a + b) == Hits(a) + Hits(b)
    ensures Peak(a + b) == Max(Peak(a), Peak(b))
    ensures Sum(a + b) == Sum(a) + Sum(b)
  {
    if b == [] {
      assert a + b == a;
      PeakNonNegative(a);
    } else {
      assert (a + b)[..|a + b| - 1] == a + b[..|b| - 1];
      StatisticsSplit(a, b[..|b| - 1]);
    }
  }

  lemma PeakNonNegative(w: seq<real>)
    ensures Peak(w) >= 0.0
  {
  }

  predicate IsRotation(x: seq<real>, y: seq<real>) {
    exists k :: 0 <= k <= |y| && x == y[k..] + y[..k]
  }

  /** The decision does not depend on where a ring buffer starts. */
  lemma RotationKeepsStatistics(x: seq<real>, y: seq<real>)
    requires IsRotation(x, y)
    ensures Hits(x) == Hits(y) && Peak(x) == Peak(y) && Sum(x) == Sum(y)
  {
    var k :| 0 <= k <= |y| && x == y[k..] + y[..k];
    assert y == y[..k] + y[k..];
    StatisticsSplit(y[k..], y[..k]);
    StatisticsSplit(y[..k], y[k..]);
  }

  predicate Dominates(y: seq<real>, x: seq<real>) {
    |x| == |y| && forall i :: 0 <= i < |x| ==> x[i] <= y[i]
  }

  lemma {:induction false} StatisticsMonotone(x: seq<real>, y: seq<real>)
    requires Dominates(y, x)
    ensures Hits(x) <= Hits(y) && Peak(x) <= Peak(y) && Sum(x) <= Sum(y)
  {
    if x != [] {
      StatisticsMonotone(x[..|x| - 1], y[..|y| - 1]);
    }
  }

  /** The three gates. */
  predicate Hot(w: seq<real>) {
    Hits(w) >= MIN_HITS && Peak(w) >= PEAK_MIN && Sum(w) / WINDOW_LEN as real >= AVG_MIN
  }

  lemma NextEntry(w: seq<real>, k: nat)
    requires k < |w|
    ensures Hits(w[..k + 1]) == Hits(w[..k]) + if w[k] >= THRESHOLD then 1 else 0
    ensures Peak(w[..k + 1]) == Max(Peak(w[..k]), w[k]) && Sum(w[..k + 1]) == Sum(w[..k]) + w[k]
  {
    assert w[..k + 1][..k] == w[..k];
  }

  lemma FiveEntries(w: seq<real>)
    requires |w| == 5
    ensures Sum(w) == w[0] + w[1] + w[2] + w[3] + w[4]
    ensures Peak(w) == Max(Max(Max(Max(Max(0.0, w[0]), w[1]), w[2]), w[3]), w[4])
  {
    NextEntry(w, 0);
    NextEntry(w, 1);
    NextEntry(w, 2);
    NextEntry(w, 3);
    NextEntry(w, 4);
    assert w[..0] == [] && Sum([]) == 0.0 && Peak([]) == 0.0;
    hide Hits, Peak, Sum, Max;
    assert w[..5] == w;
  }

  /** What the three gates ask of five probabilities: two different places at 0.60 or above, some place
      at 0.80 or above, and a sum of at least 2.5. */
  lemma GatesOfFive(w: seq<real>)
    requires |w| == 5
    ensures Hot(w) <==>
      && (exists i, j :: 0 <= i < j < 5 && w[i] >= 0.60 && w[j] >= 0.60)
      && (exists i :: 0 <= i < 5 && w[i] >= 0.80)
      && w[0] + w[1] + w[2] + w[3] + w[4] >= 2.5
  {
    FiveEntries(w);
    TwoHits(w);
    PeakOfFive(w);
    hide Hits, Peak, Sum;
  }

  /** The hits are the places at 0.60 or above. */
  lemma {:induction false} HitsArePlaces(w: seq<real>)
    ensures Hits(w) == |set i | 0 <= i < |w| && w[i] >= 0.60|
  {
    if w != [] {
      var n := |w| - 1;
      HitsArePlaces(w[..n]);
      assert (set i | 0 <= i < |w| && w[i] >= 0.60)
          == (set i | 0 <= i < n && w[..n][i] >= 0.60) + if w[n] >= 0.60 then {n} else {};
    }
  }

  lemma TwoHits(w: seq<real>)
    ensures Hits(w) >= 2 <==> exists i, j :: 0 <= i < j < |w| && w[i] >= 0.60 && w[j] >= 0.60
  {
    HitsArePlaces(w);
    hide Hits;
    var places := set i | 0 <= i < |w| && w[i] >= 0.60;
    if i, j :| 0 <= i < j < |w| && w[i] >= 0.60 && w[j] >= 0.60 {
      assert {i, j} <= places;
      assert |places| == |places - {i, j}| + |{i, j}|;
    }
    if |places| >= 2 {
      var i :| i in places;
      assert |places - {i}| == |places| - 1;
      var j :| j in places - {i};
      assert i < j || j < i;
    }
  }

  lemma PeakOfFive(w: seq<real>)
    requires |w| == 5
    ensures Peak(w) >= 0.80 <==> exists i :: 0 <= i < 5 && w[i] >= 0.80
    ensures Peak(w) > 0.0 ==> Peak(w) in w && forall i :: 0 <= i < 5 ==> w[i] <= Peak(w)
  {
    FiveEntries(w);
    hide Peak;
    assert Peak(w) in [0.0, w[0], w[1], w[2], w[3], w[4]];
    assert w == [w[0], w[1], w[2], w[3], w[4]];
  }

  // ---- The plain detector ----

  datatype Metrics = Metrics(fireSeq: nat, peak: real, avg: real, hits: nat)

  datatype Detector = Detector(recent: seq<real>, lastFire: int, latch: bool, metrics: Metrics)

  function Push(recent: seq<real>, p: real): (r: seq<real>)
    ensures |r| <= WINDOW_LEN || |r| <= |recent|
  {
    (if |recent| < WINDOW_LEN then recent else recent[1..]) + [p]
  }

  predicate Fires(d: Detector, p: real, now: int) {
    var r := Push(d.recent, p);
    |r| == WINDOW_LEN && Hot(r) && now - d.lastFire > COOLDOWN_US
  }

  function Update(d: Detector, p: real, now: int): Detector {
    var r := Push(d.recent, p);
    if Fires(d, p, now) then
      Detector([], now, true,
               Metrics((d.metrics.fireSeq + 1) % 0x1_0000_0000, Peak(r), Sum(r) / WINDOW_LEN as real, Hits(r)))
    else d.(recent := r)
  }

  lemma HotIs(w: seq<real>)
    ensures Hot(w) == (Hits(w) >= MIN_HITS && Peak(w) >= PEAK_MIN && Sum(w) / WINDOW_LEN as real >= AVG_MIN)
  {
  }

  /** The decision and the metrics in terms of the probabilities alone. */
  lemma DecisionSpelledOut(d: Detector, p: real, now: int)
    requires |d.recent| <= 5
    ensures var held := (if |d.recent| < 5 then d.recent else d.recent[1..]) + [p];
            var after := Update(d, p, now);
            && held == Push(d.recent, p)
            && (Fires(d, p, now) <==>
                  && |held| == 5
                  && (exists i, j :: 0 <= i < j < 5 && held[i] >= 0.60 && held[j] >= 0.60)
                  && (exists i :: 0 <= i < 5 && held[i] >= 0.80)
                  && held[0] + held[1] + held[2] + held[3] + held[4] >= 2.5
                  && now - d.lastFire > 2_000_000)
            && (Fires(d, p, now) ==>
                  && 5.0 * after.metrics.avg == held[0] + held[1] + held[2] + held[3] + held[4]
                  && after.metrics.hits == |set i | 0 <= i < 5 && held[i] >= 0.60|
                  && after.metrics.peak in held && (forall i :: 0 <= i < 5 ==> held[i] <= after.metrics.peak)
                  && after.metrics.fireSeq == (d.metrics.fireSeq + 1) % 0x1_0000_0000
                  && after.lastFire == now && after.latch && after.recent == [])
            && (!Fires(d, p, now) ==> after == d.(recent := held))
  {
    var held := (if |d.recent| < 5 then d.recent else d.recent[1..]) + [p];
    assert held == Push(d.recent, p);
    if |held| == 5 {
      FiveEntries(held);
      GatesOfFive(held);
      HitsArePlaces(held);
      PeakOfFive(held);
      HotIs(held);
    }
    hide Hits, Peak, Sum, Hot, Max;
  }

  datatype Event = NewProbability(prob: real, now: int) | Poll

  function Next(d: Detector, e: Event): Detector {
    match e
    case NewProbability(p, now) => Update(d, p, now)
    case Poll => d.(latch := false)
  }

  function Run(d: Detector, es: seq<Event>): Detector {
    if es == [] then d else Next(Run(d, es[..|es| - 1]), es[|es| - 1])
  }

  predicate FiresAt(d: Detector, es: seq<Event>, i: nat)
    requires i < |es|
  {
    es[i].NewProbability? && Fires(Run(d, es[..i]), es[i].prob, es[i].now)
  }

  /** The times of the fires of a run. */
  function FireTimes(d: Detector, es: seq<Event>): seq<int> {
    if es == [] then []
    else
      var n := |es| - 1;
      FireTimes(d, es[..n]) + if FiresAt(d, es, n) then [es[n].now] else []
  }

  function Probabilities(es: seq<Event>): nat {
    if es == [] then 0 else Probabilities(es[..|es| - 1]) + if es[|es| - 1].NewProbability? then 1 else 0
  }

  function Received(es: seq<Event>): seq<real> {
    if es == [] then []
    else
      var n := |es| - 1;
      Received(es[..n]) + match es[n] case Poll => [] case NewProbability(p, _) => [p]
  }

  /** The last five of a list, or all of it. */
  function LastFive(ps: seq<real>): seq<real> {
    if |ps| <= 5 then ps else ps[|ps| - 5..]
  }

  /** Until the first fire the detector holds the last five probabilities, or all so far. */
  lemma {:induction false} HoldsLastFive(d: Detector, es: seq<Event>)
    requires d.recent == [] && FireTimes(d, es) == []
    ensures Run(d, es).recent == LastFive(Received(es))
  {
    if es != [] {
      hide Fires, Hot;
      var n := |es| - 1;
      HoldsLastFive(d, es[..n]);
    }
  }

  // ---- Rate ----

  lemma {:induction false} RunCounts(d: Detector, es: seq<Event>)
    requires |d.recent| <= WINDOW_LEN && d.metrics.fireSeq < 0x1_0000_0000
    ensures var f := FireTimes(d, es);
            var r := Run(d, es);
            && r.lastFire == (if f == [] then d.lastFire else f[|f| - 1])
            && r.metrics.fireSeq == (d.metrics.fireSeq + |f|) % 0x1_0000_0000
            && |r.recent| <= WINDOW_LEN
            && WINDOW_LEN * |f| + |r.recent| <= Probabilities(es) + |d.recent|
            && forall k :: 0 <= k < |f| ==> f[k] > d.lastFire + (k + 1) * COOLDOWN_US
  {
    hide Hits, Peak, Sum, Hot;
    if es != [] {
      RunCounts(d, es[..|es| - 1]);
    }
  }

  /** Rate, from boot: the k-th fire comes later than k times two seconds on the device clock, k
      fires take at least 5k probabilities, and the published counter is the number of fires,
      modulo its 32 bits. */
  lemma RateLimit(d: Detector, es: seq<Event>)
    requires d.recent == [] && d.lastFire == 0 && d.metrics.fireSeq == 0
    ensures var f := FireTimes(d, es);
            && (forall k :: 0 <= k < |f| ==> f[k] > (k + 1) * COOLDOWN_US)
            && WINDOW_LEN * |f| <= Probabilities(es)
            && Run(d, es).metrics.fireSeq == |f| % 0x1_0000_0000
  {
    RunCounts(d, es);
  }

  // ---- Latch ----

  /** Some fire has happened behind the last poll. */
  predicate FiredSincePoll(d: Detector, es: seq<Event>) {
    exists j :: 0 <= j < |es| && FiresAt(d, es, j) && forall k :: j < k < |es| ==> es[k] != Poll
  }

  lemma FiresAtPrefix(d: Detector, es: seq<Event>, i: nat)
    requires i < |es| - 1
    ensures FiresAt(d, es[..|es| - 1], i) == FiresAt(d, es, i)
  {
    assert es[..|es| - 1][..i] == es[..i];
  }

  lemma FiredStays(d: Detector, es: seq<Event>, init: seq<Event>, j: nat)
    requires es != [] && init == es[..|es| - 1] && es[|es| - 1] != Poll
    requires j < |init| && FiresAt(d, init, j) && forall k :: j < k < |init| ==> init[k] != Poll
    ensures FiredSincePoll(d, es)
  {
    FiresAtPrefix(d, es, j);
    assert forall k :: j < k < |init| ==> init[k] == es[k];
  }

  lemma FiredBefore(d: Detector, es: seq<Event>, j: nat)
    requires j < |es| - 1 && FiresAt(d, es, j) && forall k :: j < k < |es| ==> es[k] != Poll
    ensures FiredSincePoll(d, es[..|es| - 1])
  {
    FiresAtPrefix(d, es, j);
  }

  lemma FiredSincePollStep(d: Detector, es: seq<Event>)
    requires es != []
    ensures var n := |es| - 1;
            FiredSincePoll(d, es) <==> FiresAt(d, es, n) || (es[n] != Poll && FiredSincePoll(d, es[..n]))
  {
    hide Run, Fires;
    var n := |es| - 1;
    if FiredSincePoll(d, es) {
      var j :| 0 <= j < |es| && FiresAt(d, es, j) && forall k :: j < k < |es| ==> es[k] != Poll;
      if j < n {
        FiredBefore(d, es, j);
      }
    }
    if es[n] != Poll && FiredSincePoll(d, es[..n]) {
      var init := es[..n];
      var j :| 0 <= j < n && FiresAt(d, init, j) && forall k :: j < k < n ==> init[k] != Poll;
      FiredStays(d, es, init, j);
    }
  }

  /** The latch, read by a poll, is set exactly when a fire has happened since the previous poll,
      for every interleaving of probabilities and polls. */
  lemma {:induction false} LatchMeansFired(d: Detector, es: seq<Event>)
    requires !d.latch
    ensures Run(d, es).latch <==> FiredSincePoll(d, es)
  {
    if es != [] {
      LatchMeansFired(d, es[..|es| - 1]);
      FiredSincePollStep(d, es);
    }
  }

  // ---- Monotonicity ----

  /** The same times, with probabilities at least as high. */
  predicate Raised(qs: seq<Event>, ps: seq<Event>) {
    |ps| == |qs| && forall i :: 0 <= i < |ps| ==>
      ps[i].NewProbability? && qs[i].NewProbability? && ps[i].now == qs[i].now && ps[i].prob <= qs[i].prob
  }

  /** Raising probabilities never delays the first fire: as long as the raised run has not fired,
      neither has the original one. */
  lemma {:induction false} RaisingNeverDelays(d: Detector, ps: seq<Event>, qs: seq<Event>)
    requires Raised(qs, ps)
    ensures FireTimes(d, qs) == [] ==>
      && FireTimes(d, ps) == []
      && Dominates(Run(d, qs).recent, Run(d, ps).recent) && Run(d, qs).lastFire == Run(d, ps).lastFire
  {
    hide Fires, Update;
    if ps != [] {
      var n := |ps| - 1;
      RaisingNeverDelays(d, ps[..n], qs[..n]);
      if FireTimes(d, qs) == [] {
        RaisedStep(Run(d, ps[..n]), Run(d, qs[..n]), ps[n].prob, qs[n].prob, ps[n].now);
      }
    }
  }

  lemma RaisedStep(p: Detector, q: Detector, low: real, high: real, now: int)
    requires Dominates(q.recent, p.recent) && p.lastFire == q.lastFire && low <= high
    requires !Fires(q, high, now)
    ensures !Fires(p, low, now)
    ensures Dominates(Update(q, high, now).recent, Update(p, low, now).recent)
    ensures Update(q, high, now).lastFire == Update(p, low, now).lastFire
  {
    hide Hits, Peak, Sum;
    StatisticsMonotone(Push(p.recent, low), Push(q.recent, high));
  }

  // ---- The firmware's ring buffer ----

  /** Where the ring keeps entry `j` of `count`, given its write index. */
  function RingPlace(idx: nat, count: nat, j: nat): (place: nat)
    requires idx < WINDOW_LEN && j < count <= WINDOW_LEN
    ensures place < WINDOW_LEN
  {
    var place := idx + WINDOW_LEN - count + j;
    if place < WINDOW_LEN then place else place - WINDOW_LEN
  }

  class WakeDetector {
    const probWindow: array<real>
    var probWindowIdx: nat
    var probWindowCount: nat
    var detectedLatch: bool
    var lastProbX1000: int
    var lastFireUs: int
    var fireSeq: nat
    var peakOfFire: real
    var avgOfFire: real
    var hitsOfFire: nat
    const windowOfFire: array<real>

    /** The probabilities since the last fire, at most five. */
    ghost var recent: seq<real>

    /** The ring holds them so that the newest is just behind the write index. The index is never
        reset: after a fire it points anywhere. */
    ghost predicate Valid()
      reads this, probWindow
    {
      && probWindow.Length == WINDOW_LEN && windowOfFire.Length == WINDOW_LEN && probWindow != windowOfFire
      && probWindowIdx < WINDOW_LEN
      && probWindowCount == |recent| <= WINDOW_LEN
      && (forall j :: 0 <= j < |recent| ==> recent[j] == probWindow[RingPlace(probWindowIdx, |recent|, j)])
    }

    ghost function Plain(): Detector
      reads this
    {
      Detector(recent, lastFireUs, detectedLatch, Metrics(fireSeq, peakOfFire, avgOfFire, hitsOfFire))
    }

    constructor ()
      ensures Valid() && fresh(probWindow) && fresh(windowOfFire)
      ensures Plain() == Detector([], 0, false, Metrics(0, 0.0, 0.0, 0))
    {
      probWindow := new real[WINDOW_LEN](_ => 0.0);
      windowOfFire := new real[WINDOW_LEN](_ => 0.0);
      probWindowIdx, probWindowCount, detectedLatch, lastProbX1000, lastFireUs := 0, 0, false, 0, 0;
      fireSeq, peakOfFire, avgOfFire, hitsOfFire := 0, 0.0, 0.0, 0;
      recent := [];
    }

    /** The first lines of `update_window`: the write into the ring. */
    method Record(p: real)
      requires Valid()
      modifies probWindow, this`probWindowIdx, this`probWindowCount, this`recent
      ensures Valid() && recent == Push(old(recent), p)
    {
      ghost var was := recent;
      probWindow[probWindowIdx] := p;
      probWindowIdx := (probWindowIdx + 1) % WINDOW_LEN;
      if probWindowCount < WINDOW_LEN {
        probWindowCount := probWindowCount + 1;
      }
      recent := Push(recent, p);
      assert probWindowIdx == if old(probWindowIdx) == 4 then 0 else old(probWindowIdx) + 1;
      forall j | 0 <= j < |recent| ensures recent[j] == probWindow[RingPlace(probWindowIdx, |recent|, j)] {
        if j < |recent| - 1 {
          var k := if |was| < WINDOW_LEN then j else j + 1;
          assert recent[j] == was[k];
          assert RingPlace(probWindowIdx, |recent|, j) == RingPlace(old(probWindowIdx), |was|, k) != old(probWindowIdx);
        }
      }
    }

    /** The loop over the window. */
    method Measure() returns (hits: nat, peak: real, sum: real)
      requires Valid() && probWindowCount == WINDOW_LEN
      ensures hits == Hits(recent) && peak == Peak(recent) && sum == Sum(recent)
    {
      hits, peak, sum := 0, 0.0, 0.0;
      for i := 0 to WINDOW_LEN
        invariant hits == Hits(probWindow[..i]) && peak == Peak(probWindow[..i]) && sum == Sum(probWindow[..i])
      {
        var p := probWindow[i];
        assert probWindow[..i + 1][..i] == probWindow[..i];
        if p >= THRESHOLD {
          hits := hits + 1;
        }
        if p > peak {
          peak := p;
        }
        sum := sum + p;
      }
      assert probWindow[..WINDOW_LEN] == probWindow[..];
      FullRingIsRotation();
      RotationKeepsStatistics(probWindow[..], recent);
    }

    lemma FullRingIsRotation()
      requires Valid() && |recent| == WINDOW_LEN
      ensures IsRotation(probWindow[..], recent)
    {
      var k := WINDOW_LEN - probWindowIdx;
      forall i | 0 <= i < WINDOW_LEN ensures probWindow[i] == (recent[k..] + recent[..k])[i] {
        assert i == RingPlace(probWindowIdx, WINDOW_LEN, if i < probWindowIdx then k + i else i - probWindowIdx);
      }
      assert probWindow[..] == recent[k..] + recent[..k];
    }

    /** `update_window` at clock time `nowUs`. It decides as the plain detector does and publishes
        that detector's metrics, with the window in the order the ring holds it. */
    method UpdateWindow(p: real, nowUs: int) returns (fired: bool)
      requires Valid()
      modifies this, probWindow, windowOfFire
      ensures Valid()
      ensures Plain() == Update(old(Plain()), p, nowUs)
      ensures fired == Fires(old(Plain()), p, nowUs)
      ensures fired ==> IsRotation(windowOfFire[..], Push(old(recent), p))
      ensures !fired ==> windowOfFire[..] == old(windowOfFire[..])
      ensures lastProbX1000 == (p * 1000.0).Floor
      ensures var held := (if |old(recent)| < 5 then old(recent) else old(recent)[1..]) + [p];
              && (fired <==>
                    && |held| == 5
                    && (exists i, j :: 0 <= i < j < 5 && held[i] >= 0.60 && held[j] >= 0.60)
                    && (exists i :: 0 <= i < 5 && held[i] >= 0.80)
                    && held[0] + held[1] + held[2] + held[3] + held[4] >= 2.5
                    && nowUs - old(lastFireUs) > 2_000_000)
              && (fired ==>
                    && 5.0 * avgOfFire == held[0] + held[1] + held[2] + held[3] + held[4]
                    && hitsOfFire == |set i | 0 <= i < 5 && held[i] >= 0.60|
                    && peakOfFire in held && (forall i :: 0 <= i < 5 ==> held[i] <= peakOfFire)
                    && fireSeq == (old(fireSeq) + 1) % 0x1_0000_0000 && lastFireUs == nowUs && detectedLatch && recent == [])
              && (!fired ==>
                    && recent == held && lastFireUs == old(lastFireUs) && detectedLatch == old(detectedLatch)
                    && fireSeq == old(fireSeq) && avgOfFire == old(avgOfFire) && hitsOfFire == old(hitsOfFire) && peakOfFire == old(peakOfFire))
    {
      hide Hits, Peak, Sum, Hot, IsRotation, Push, RingPlace;
      DecisionSpelledOut(Plain(), p, nowUs);
      Record(p);
      lastProbX1000 := (p * 1000.0).Floor;
      fired := Decide(nowUs);
    }

    /** The rest of that function: the decision on a full window, and the fire block. */
    method Decide(nowUs: int) returns (fired: bool)
      requires Valid()
      modifies this, probWindow, windowOfFire
      ensures Valid() && lastProbX1000 == old(lastProbX1000)
      ensures fired == (|old(recent)| == WINDOW_LEN && Hot(old(recent)) && nowUs - old(lastFireUs) > COOLDOWN_US)
      ensures if fired then
                var w := old(recent);
                && Plain() == Detector([], nowUs, true, Metrics((old(fireSeq) + 1) % 0x1_0000_0000, Peak(w), Sum(w) / WINDOW_LEN as real, Hits(w)))
                && IsRotation(windowOfFire[..], w)
              else Plain() == old(Plain()) && windowOfFire[..] == old(windowOfFire[..])
    {
      hide Hits, Peak, Sum, Hot, IsRotation, RingPlace;
      if probWindowCount < WINDOW_LEN {
        return false;
      }
      var hits, peak, sum := Measure();
      var avg := sum / WINDOW_LEN as real;
      HotIs(recent);
      fired := hits >= MIN_HITS && peak >= PEAK_MIN && avg >= AVG_MIN && nowUs - lastFireUs > COOLDOWN_US;
      if fired {
        Publish(hits, peak, avg);
        Damp(nowUs);
      }
    }

    /** The first half of the fire block: the decision metrics. */
    method Publish(hits: nat, peak: real, avg: real)
      requires Valid() && |recent| == WINDOW_LEN
      modifies windowOfFire, this`peakOfFire, this`avgOfFire, this`hitsOfFire, this`fireSeq
      ensures Valid() && IsRotation(windowOfFire[..], recent)
      ensures Plain().metrics == Metrics((old(fireSeq) + 1) % 0x1_0000_0000, peak, avg, hits)
    {
      FullRingIsRotation();
      peakOfFire, avgOfFire, hitsOfFire := peak, avg, hits;
      for i := 0 to WINDOW_LEN
        modifies windowOfFire
        invariant windowOfFire[..i] == probWindow[..i]
      {
        windowOfFire[i] := probWindow[i];
      }
      assert windowOfFire[..] == windowOfFire[..WINDOW_LEN] == probWindow[..WINDOW_LEN] == probWindow[..];
      fireSeq := (fireSeq + 1) % 0x1_0000_0000;
    }

    /** The second half: the latch, the cooldown clock, and an emptied window. */
    method Damp(nowUs: int)
      requires Valid()
      modifies probWindow, this`lastFireUs, this`detectedLatch, this`probWindowCount, this`recent
      ensures Valid() && recent == [] && lastFireUs == nowUs && detectedLatch
    {
      lastFireUs := nowUs;
      detectedLatch := true;
      for i := 0 to WINDOW_LEN
        modifies probWindow
      {
        probWindow[i] := 0.0;
      }
      probWindowCount := 0;
      recent := [];
    }

    /** `wake_word_detected`: one atomic exchange. */
    method Detected() returns (was: bool)
      requires Valid()
      modifies this`detectedLatch
      ensures Valid() && was == old(detectedLatch) && Plain() == Next(old(Plain()), Poll)
    {
      was := detectedLatch;
      detectedLatch := false;
    }
  }
}
