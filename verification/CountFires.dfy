/** The offline fire counter of `verify_model.py`: a greedy scan, shown to find the largest possible
    number of fires, and what follows for the columns of its operating-point table. */
module CountFires {
  import opened Options

  const WINDOW_LEN: nat := 5
  const COOLDOWN_MS: nat := 2000
  const LONG_AGO: int := -1_000_000_000

  // ---- Eligible invokes ----

  function HitsIn(window: seq<real>, threshold: real): nat {
    if window == [] then 0
    else HitsIn(window[..|window| - 1], threshold) + if window[|window| - 1] >= threshold then 1 else 0
  }

  /** The window ending at invoke `i` is full and has enough hits. */
  predicate Eligible(probs: seq<real>, threshold: real, minHits: int, i: int) {
    WINDOW_LEN - 1 <= i < |probs| && HitsIn(probs[i + 1 - WINDOW_LEN..i + 1], threshold) >= minHits
  }

  /** Python's `round(2000 / invoke_ms)`: to the nearest, ties to even. */
  function CooldownInvokes(invokeMs: nat): (c: nat)
    ensures c <= COOLDOWN_MS
  {
    if invokeMs == 0 then 0
    else
      var q, r := COOLDOWN_MS / invokeMs, COOLDOWN_MS % invokeMs;
      if 2 * r < invokeMs || (2 * r == invokeMs && q % 2 == 0) then q
      else
        assert q < COOLDOWN_MS by { QuotientIsSmall(invokeMs); }
        q + 1
  }

  lemma QuotientIsSmall(d: nat)
    requires d > 0 && COOLDOWN_MS % d != 0
    ensures COOLDOWN_MS / d < COOLDOWN_MS
  {
    var q := COOLDOWN_MS / d;
    if d != 1 {
      assert 2 * q <= d * q <= COOLDOWN_MS;
    }
  }

  /** The places of the window ending at invoke `i` that are over the threshold. */
  lemma EligibleSpelledOut(probs: seq<real>, threshold: real, minHits: int, i: int)
    ensures Eligible(probs, threshold, minHits, i) <==>
            4 <= i < |probs| && |set j | i - 4 <= j <= i && probs[j] >= threshold| >= minHits
  {
    if 4 <= i < |probs| {
      HitsArePlaces(probs, i - 4, i + 1, threshold);
      assert (set j | i - 4 <= j < i + 1 && probs[j] >= threshold) == (set j | i - 4 <= j <= i && probs[j] >= threshold);
    }
  }

  lemma {:induction false} HitsArePlaces(probs: seq<real>, from: nat, upto: nat, threshold: real)
    requires from <= upto <= |probs|
    ensures HitsIn(probs[from..upto], threshold) == |set j | from <= j < upto && probs[j] >= threshold|
  {
    if from < upto {
      var n := upto - 1;
      HitsArePlaces(probs, from, n, threshold);
      assert probs[from..upto][..n - from] == probs[from..n];
      assert (set j | from <= j < upto && probs[j] >= threshold)
          == (set j | from <= j < n && probs[j] >= threshold) + if probs[n] >= threshold then {n} else {};
    }
  }

  /** The cooldown is the whole number of invokes nearest to two seconds; of two equally near ones it
      is the even one. */
  lemma CooldownIsNearest(invokeMs: nat, c: int)
    ensures CooldownInvokes(0) == 0
    ensures invokeMs > 0 ==>
            var k := CooldownInvokes(invokeMs);
            && Distance(k, invokeMs) <= Distance(c, invokeMs)
            && (c != k && Distance(k, invokeMs) == Distance(c, invokeMs) ==> k % 2 == 0)
  {
    if invokeMs > 0 {
      var q, r := 2000 / invokeMs, 2000 % invokeMs;
      assert 2000 == q * invokeMs + r;
      Multiples(invokeMs, c, q, r);
      assert (q + 1) * invokeMs == q * invokeMs + invokeMs;
    }
  }

  /** How far `c` invokes are from two seconds. */
  function Distance(c: int, invokeMs: nat): int {
    if c * invokeMs < 2000 then 2000 - c * invokeMs else c * invokeMs - 2000
  }

  lemma Multiples(d: nat, c: int, q: nat, r: nat)
    requires d > 0 && r < d && 2000 == q * d + r
    ensures c <= q - 1 ==> c * d <= q * d - d
    ensures c >= q + 2 ==> c * d >= q * d + 2 * d
    ensures c == q + 1 ==> c * d == q * d + d
  {
    if c <= q - 1 {
      Times(d, q - 1 - c);
      assert (q - 1 - c) * d == q * d - d - c * d;
    }
    if c >= q + 2 {
      Times(d, c - q - 2);
      assert (c - q - 2) * d == c * d - q * d - 2 * d;
    }
  }

  lemma Times(d: nat, n: nat)
    ensures n * d >= 0
  {
  }

  // ---- The greedy scan ----

  datatype Count = Count(fires: nat, last: int)

  /** The scan's counters after the first `n` invokes. */
  function Greedy(probs: seq<real>, threshold: real, minHits: int, cooldown: nat, n: nat): Count
    requires n <= |probs|
  {
    if n == 0 then Count(0, LONG_AGO)
    else
      var c := Greedy(probs, threshold, minHits, cooldown, n - 1);
      if Eligible(probs, threshold, minHits, n - 1) && n - 1 - c.last > cooldown then Count(c.fires + 1, n - 1) else c
  }

  function Fires(probs: seq<real>, threshold: real, minHits: int, invokeMs: nat): nat {
    Greedy(probs, threshold, minHits, CooldownInvokes(invokeMs), |probs|).fires
  }

  // ---- Optimality ----

  /** Eligible invokes, each more than the cooldown behind the one before. */
  predicate Schedule(picks: seq<int>, probs: seq<real>, threshold: real, minHits: int, cooldown: nat) {
    && (forall j :: 0 <= j < |picks| ==> Eligible(probs, threshold, minHits, picks[j]))
    && (forall j :: 0 < j < |picks| ==> picks[j] - picks[j - 1] > cooldown)
  }

  /** The greedy picks themselves. */
  function Picks(probs: seq<real>, threshold: real, minHits: int, cooldown: nat, n: nat): seq<int>
    requires n <= |probs|
  {
    if n == 0 then []
    else
      Picks(probs, threshold, minHits, cooldown, n - 1)
      + if Greedy(probs, threshold, minHits, cooldown, n).last == n - 1 then [n - 1] else []
  }

  lemma {:induction false} PicksAreSchedule(probs: seq<real>, threshold: real, minHits: int, cooldown: nat, n: nat)
    requires n <= |probs| && cooldown <= COOLDOWN_MS
    ensures var c := Greedy(probs, threshold, minHits, cooldown, n);
            var picks := Picks(probs, threshold, minHits, cooldown, n);
            && c.last < n && |picks| == c.fires
            && c.last == (if picks == [] then LONG_AGO else picks[|picks| - 1])
            && Schedule(picks, probs, threshold, minHits, cooldown)
  {
    hide Eligible;
    if n > 0 {
      PicksAreSchedule(probs, threshold, minHits, cooldown, n - 1);
    }
  }

  /** No schedule within the first `n` invokes has more picks than the greedy scan, and one with as
      many ends no earlier. */
  lemma {:induction false} GreedyStaysAhead(picks: seq<int>, probs: seq<real>, threshold: real, minHits: int, cooldown: nat, n: nat)
    requires n <= |probs| && cooldown <= COOLDOWN_MS
    requires Schedule(picks, probs, threshold, minHits, cooldown)
    requires picks != [] ==> picks[|picks| - 1] < n
    ensures var c := Greedy(probs, threshold, minHits, cooldown, n);
            && |picks| <= c.fires
            && (picks != [] && |picks| == c.fires ==> c.last <= picks[|picks| - 1])
  {
    hide HitsIn;
    if n > 0 {
      var c := Greedy(probs, threshold, minHits, cooldown, n - 1);
      PicksAreSchedule(probs, threshold, minHits, cooldown, n - 1);
      if picks != [] && picks[|picks| - 1] == n - 1 {
        var init := picks[..|picks| - 1];
        assert Schedule(init, probs, threshold, minHits, cooldown);
        assert init != [] ==> init[|init| - 1] == picks[|picks| - 2];
        GreedyStaysAhead(init, probs, threshold, minHits, cooldown, n - 1);
      } else {
        GreedyStaysAhead(picks, probs, threshold, minHits, cooldown, n - 1);
      }
    }
  }

  ghost predicate IsLargest(fires: nat, probs: seq<real>, threshold: real, minHits: int, cooldown: nat) {
    && (exists picks :: Schedule(picks, probs, threshold, minHits, cooldown) && |picks| == fires)
    && (forall picks :: Schedule(picks, probs, threshold, minHits, cooldown) ==> |picks| <= fires)
  }

  /** The count is the largest number of eligible invokes that are pairwise more than the cooldown
      apart. */
  lemma FiresIsLargest(probs: seq<real>, threshold: real, minHits: int, invokeMs: nat)
    ensures IsLargest(Fires(probs, threshold, minHits, invokeMs), probs, threshold, minHits, CooldownInvokes(invokeMs))
  {
    var cooldown := CooldownInvokes(invokeMs);
    PicksAreSchedule(probs, threshold, minHits, cooldown, |probs|);
    forall picks | Schedule(picks, probs, threshold, minHits, cooldown)
      ensures |picks| <= Fires(probs, threshold, minHits, invokeMs)
    {
      GreedyStaysAhead(picks, probs, threshold, minHits, cooldown, |probs|);
    }
  }

  /** `count_fires` */
  method CountFiresIn(probs: seq<real>, threshold: real, minHits: int, invokeMs: nat) returns (fires: nat)
    ensures fires == Fires(probs, threshold, minHits, invokeMs)
    ensures IsLargest(fires, probs, threshold, minHits, CooldownInvokes(invokeMs))
  {
    fires := 0;
    var cooldown := CooldownInvokes(invokeMs);
    var lastFire := LONG_AGO;
    for i := 0 to |probs|
      invariant Count(fires, lastFire) == Greedy(probs, threshold, minHits, cooldown, i)
    {
      if i + 1 < WINDOW_LEN {
        continue;
      }
      var window := probs[i + 1 - WINDOW_LEN..i + 1];
      var hits := 0;
      for j := 0 to |window|
        invariant hits == HitsIn(window[..j], threshold)
      {
        assert window[..j + 1][..j] == window[..j];
        if window[j] >= threshold {
          hits := hits + 1;
        }
      }
      assert window[..|window|] == window;
      if hits >= minHits && i - lastFire > cooldown {
        fires := fires + 1;
        lastFire := i;
      }
    }
    FiresIsLargest(probs, threshold, minHits, invokeMs);
  }

  // ---- Stricter settings never fire more ----

  lemma {:induction false} HitsAntitone(window: seq<real>, low: real, high: real)
    requires low <= high
    ensures HitsIn(window, high) <= HitsIn(window, low)
  {
    if window != [] {
      HitsAntitone(window[..|window| - 1], low, high);
    }
  }

  lemma FiresAntitone(probs: seq<real>, low: real, high: real, fewHits: int, manyHits: int, invokeMs: nat)
    requires low <= high && fewHits <= manyHits
    ensures Fires(probs, high, manyHits, invokeMs) <= Fires(probs, low, fewHits, invokeMs)
  {
    var cooldown := CooldownInvokes(invokeMs);
    FiresIsLargest(probs, high, manyHits, invokeMs);
    FiresIsLargest(probs, low, fewHits, invokeMs);
    var picks :| Schedule(picks, probs, high, manyHits, cooldown) && |picks| == Fires(probs, high, manyHits, invokeMs);
    forall j | 0 <= j < |picks| ensures Eligible(probs, low, fewHits, picks[j]) {
      HitsAntitone(probs[picks[j] + 1 - WINDOW_LEN..picks[j] + 1], low, high);
    }
    assert Schedule(picks, probs, low, fewHits, cooldown);
  }

  // ---- The operating-point table ----

  datatype Clip = Clip(probs: seq<real>, duration: real)

  function Detected(clips: seq<Clip>, threshold: real, minHits: int, invokeMs: nat): (n: nat)
    ensures n <= |clips|
  {
    if clips == [] then 0
    else
      var n := |clips| - 1;
      Detected(clips[..n], threshold, minHits, invokeMs) + if Fires(clips[n].probs, threshold, minHits, invokeMs) > 0 then 1 else 0
  }

  function AllFires(clips: seq<Clip>, threshold: real, minHits: int, invokeMs: nat): nat {
    if clips == [] then 0
    else
      var n := |clips| - 1;
      AllFires(clips[..n], threshold, minHits, invokeMs) + Fires(clips[n].probs, threshold, minHits, invokeMs)
  }

  function TotalDuration(clips: seq<Clip>): real {
    if clips == [] then 0.0 else TotalDuration(clips[..|clips| - 1]) + clips[|clips| - 1].duration
  }

  /** One row of the table; `None` stands for the source's NaN. */
  datatype Row = Row(frr: Option<real>, faph: Option<real>, detected: nat, falseFires: nat)

  /** `evaluate` */
  function Evaluate(pos: seq<Clip>, neg: seq<Clip>, threshold: real, minHits: int, invokeMs: nat): Row {
    var detected := Detected(pos, threshold, minHits, invokeMs);
    var falseFires := AllFires(neg, threshold, minHits, invokeMs);
    var hours := TotalDuration(neg) / 3600.0;
    Row(if pos == [] then None else Some(1.0 - detected as real / |pos| as real),
        if hours > 0.0 then Some(falseFires as real / hours) else None,
        detected, falseFires)
  }

  /** Detections are the clips in which something fires. */
  lemma {:induction false} DetectedAreClips(clips: seq<Clip>, threshold: real, minHits: int, invokeMs: nat)
    ensures Detected(clips, threshold, minHits, invokeMs)
         == |set k | 0 <= k < |clips| && Fires(clips[k].probs, threshold, minHits, invokeMs) > 0|
  {
    hide Fires;
    if clips != [] {
      var n := |clips| - 1;
      DetectedAreClips(clips[..n], threshold, minHits, invokeMs);
      assert (set k | 0 <= k < |clips| && Fires(clips[k].probs, threshold, minHits, invokeMs) > 0)
          == (set k | 0 <= k < n && Fires(clips[..n][k].probs, threshold, minHits, invokeMs) > 0)
             + if Fires(clips[n].probs, threshold, minHits, invokeMs) > 0 then {n} else {};
    }
  }

  /** The rates of a row, multiplied out. */
  lemma RatesSpelledOut(pos: seq<Clip>, neg: seq<Clip>, threshold: real, minHits: int, invokeMs: nat)
    ensures var row := Evaluate(pos, neg, threshold, minHits, invokeMs);
            && (row.frr.None? <==> pos == []) && (row.faph.None? <==> TotalDuration(neg) <= 0.0)
            && (row.frr.Some? ==> row.frr.value * |pos| as real == |pos| as real - row.detected as real)
            && (row.faph.Some? ==> row.faph.value * TotalDuration(neg) == 3600.0 * row.falseFires as real)
  {
    hide Detected, AllFires, TotalDuration;
    var row := Evaluate(pos, neg, threshold, minHits, invokeMs);
    if pos != [] {
      MissRate(row.detected as real, |pos| as real);
    }
    if TotalDuration(neg) > 0.0 {
      AlarmRate(row.falseFires as real, TotalDuration(neg));
    }
  }

  lemma MissRate(detected: real, all: real)
    requires all > 0.0
    ensures (1.0 - detected / all) * all == all - detected
  {
    var share := detected / all;
    assert share * all == detected;
    assert (1.0 - share) * all == all - share * all;
  }

  lemma AlarmRate(fires: real, seconds: real)
    requires seconds > 0.0
    ensures seconds / 3600.0 > 0.0 && fires / (seconds / 3600.0) * seconds == 3600.0 * fires
  {
    var hours := seconds / 3600.0;
    var rate := fires / hours;
    assert rate * hours == fires && seconds == 3600.0 * hours;
    assert rate * (3600.0 * hours) == 3600.0 * (rate * hours);
  }

  lemma {:induction false} ClipsAntitone(clips: seq<Clip>, low: real, high: real, fewHits: int, manyHits: int, invokeMs: nat)
    requires low <= high && fewHits <= manyHits
    ensures Detected(clips, high, manyHits, invokeMs) <= Detected(clips, low, fewHits, invokeMs)
    ensures AllFires(clips, high, manyHits, invokeMs) <= AllFires(clips, low, fewHits, invokeMs)
  {
    if clips != [] {
      var n := |clips| - 1;
      ClipsAntitone(clips[..n], low, high, fewHits, manyHits, invokeMs);
      FiresAntitone(clips[n].probs, low, high, fewHits, manyHits, invokeMs);
    }
  }

  lemma DivideMonotone(x: real, y: real, d: real)
    requires x <= y && d > 0.0
    ensures x / d <= y / d
  {
  }

  /** Every column of the table is monotone: with a higher threshold or more required hits there
      are no more detections and no more false fires, a miss rate no lower, and a false-alarm rate
      no higher; which cells are NaN does not change. */
  lemma TableIsMonotone(pos: seq<Clip>, neg: seq<Clip>, low: real, high: real, fewHits: int, manyHits: int, invokeMs: nat)
    requires low <= high && fewHits <= manyHits
    ensures var loose := Evaluate(pos, neg, low, fewHits, invokeMs);
            var strict := Evaluate(pos, neg, high, manyHits, invokeMs);
            && strict.detected <= loose.detected && strict.falseFires <= loose.falseFires
            && strict.frr.Some? == loose.frr.Some? && (strict.frr.Some? ==> strict.frr.value >= loose.frr.value)
            && strict.faph.Some? == loose.faph.Some? && (strict.faph.Some? ==> strict.faph.value <= loose.faph.value)
  {
    ClipsAntitone(pos, low, high, fewHits, manyHits, invokeMs);
    ClipsAntitone(neg, low, high, fewHits, manyHits, invokeMs);
    var loose := Evaluate(pos, neg, low, fewHits, invokeMs);
    var strict := Evaluate(pos, neg, high, manyHits, invokeMs);
    if pos != [] {
      DivideMonotone(strict.detected as real, loose.detected as real, |pos| as real);
    }
    if TotalDuration(neg) / 3600.0 > 0.0 {
      DivideMonotone(strict.falseFires as real, loose.falseFires as real, TotalDuration(neg) / 3600.0);
    }
  }
}
