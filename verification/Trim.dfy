/** `auto_trim_clip` of the wake-word tester: a recording is cut or padded to 1.5 s around its
    loudest 100 ms. */
module Trim {
  const CLIP_SAMPLES: nat := 24_000
  const WIN: nat := 1_600

  function Abs(x: int): (y: int)
    ensures y >= 0 && (y == x || y == -x)
  {
    if x < 0 then -x else x
  }

  /** The sum of the magnitudes of `n` samples from `from` on. */
  function Loudness(samples: seq<int>, from: nat, n: nat): int
    requires from + n <= |samples|
  {
    if n == 0 then 0 else Loudness(samples, from, n - 1) + Abs(samples[from + n - 1])
  }

  /** `np.cumsum` of the magnitudes. */
  function CumSum(samples: seq<int>): (c: seq<int>)
    ensures |c| == |samples|
  {
    if samples == [] then []
    else
      var n := |samples| - 1;
      var c := CumSum(samples[..n]);
      c + [(if n == 0 then 0 else c[n - 1]) + Abs(samples[n])]
  }

  lemma {:induction false} LoudnessPrefix(samples: seq<int>, m: nat, from: nat, n: nat)
    requires from + n <= m <= |samples|
    ensures Loudness(samples[..m], from, n) == Loudness(samples, from, n)
  {
    if n > 0 {
      LoudnessPrefix(samples, m, from, n - 1);
    }
  }

  lemma {:induction false} CumSumIs(samples: seq<int>, k: nat)
    requires k < |samples|
    ensures CumSum(samples)[k] == Loudness(samples, 0, k + 1)
    decreases |samples|
  {
    var n := |samples| - 1;
    if k < n {
      CumSumIs(samples[..n], k);
      LoudnessPrefix(samples, n, 0, k + 1);
    } else if n > 0 {
      CumSumIs(samples[..n], n - 1);
      LoudnessPrefix(samples, n, 0, n);
    }
  }

  lemma {:induction false} LoudnessSplits(samples: seq<int>, from: nat, a: nat, b: nat)
    requires from + a + b <= |samples|
    ensures Loudness(samples, from, a + b) == Loudness(samples, from, a) + Loudness(samples, from + a, b)
  {
    if b > 0 {
      LoudnessSplits(samples, from, a, b - 1);
    }
  }

  /** The difference of two arrays of prefix sums, `WIN` places apart. */
  function Energy(samples: seq<int>): (e: seq<int>)
    requires WIN <= |samples|
    ensures |e| == |samples| - WIN
  {
    var c := CumSum(samples);
    seq(|samples| - WIN, i requires 0 <= i < |samples| - WIN => c[i + WIN] - c[i])
  }

  /** Entry `i` is the loudness of the window that starts at `i + 1`: the window at 0 has none. */
  lemma EnergyIsLoudness(samples: seq<int>, i: nat)
    requires WIN <= |samples| && i < |samples| - WIN
    ensures Energy(samples)[i] == Loudness(samples, i + 1, WIN)
  {
    CumSumIs(samples, i);
    CumSumIs(samples, i + WIN);
    LoudnessSplits(samples, 0, i + 1, WIN);
  }

  /** `np.argmax`: the first place of the maximum. */
  function ArgMax(e: seq<int>): (k: nat)
    requires e != []
    ensures k < |e|
    ensures forall i :: 0 <= i < |e| ==> e[i] <= e[k]
    ensures forall i :: 0 <= i < k ==> e[i] < e[k]
  {
    if |e| == 1 then 0
    else
      var n := |e| - 1;
      var k := ArgMax(e[..n]);
      if e[n] > e[k] then n else k
  }

  function Start(samples: seq<int>): (start: nat)
    requires CLIP_SAMPLES < |samples|
    ensures start + CLIP_SAMPLES <= |samples|
  {
    var peak := ArgMax(Energy(samples)) + WIN / 2;
    var start := if peak < CLIP_SAMPLES / 2 then 0 else peak - CLIP_SAMPLES / 2;
    if start > |samples| - CLIP_SAMPLES then |samples| - CLIP_SAMPLES else start
  }

  /** `auto_trim_clip` */
  function AutoTrim(samples: seq<int>): (clip: seq<int>)
    ensures |clip| == 24_000
    ensures |samples| <= CLIP_SAMPLES ==> samples <= clip && forall k :: |samples| <= k < CLIP_SAMPLES ==> clip[k] == 0
  {
    if |samples| <= CLIP_SAMPLES then samples + seq(CLIP_SAMPLES - |samples|, _ => 0)
    else samples[Start(samples)..Start(samples) + CLIP_SAMPLES]
  }

  /** The window at `w` lies inside the returned clip. */
  predicate Inside(samples: seq<int>, w: nat)
    requires CLIP_SAMPLES < |samples|
  {
    Start(samples) <= w && w + WIN <= Start(samples) + CLIP_SAMPLES
  }

  /** `w` is the first of the loudest windows among those that start behind the first sample. */
  predicate FirstLoudestLater(samples: seq<int>, w: nat) {
    && 1 <= w <= |samples| - WIN
    && (forall v :: 1 <= v <= |samples| - WIN ==> Loudness(samples, v, WIN) <= Loudness(samples, w, WIN))
    && (forall v :: 1 <= v < w ==> Loudness(samples, v, WIN) < Loudness(samples, w, WIN))
  }

  /** The clip of a longer recording wholly contains the first loudest window among those that start
      behind the first sample, and is centred on it unless the recording's ends are too near. */
  lemma ContainsLoudest(samples: seq<int>) returns (w: nat)
    requires CLIP_SAMPLES < |samples|
    ensures AutoTrim(samples) == samples[Start(samples)..Start(samples) + CLIP_SAMPLES]
    ensures FirstLoudestLater(samples, w) && Inside(samples, w)
    ensures WIN == 1_600 && Start(samples) == Clamp(w - 1 + 800 - 12_000, |samples| - 24_000)
  {
    var e := Energy(samples);
    var k := ArgMax(e);
    w := k + 1;
    EnergyIsLoudness(samples, k);
    forall v | 1 <= v <= |samples| - WIN
      ensures Loudness(samples, v, WIN) <= Loudness(samples, w, WIN)
      ensures v < w ==> Loudness(samples, v, WIN) < Loudness(samples, w, WIN)
    {
      EnergyIsLoudness(samples, v - 1);
      assert e[v - 1] <= e[k];
    }
  }

  function Clamp(x: int, most: nat): (y: nat)
    ensures y <= most
  {
    if x < 0 then 0 else if x > most then most else x
  }

  lemma FirstLoudestIsUnique(samples: seq<int>, v: nat, w: nat)
    requires FirstLoudestLater(samples, v) && FirstLoudestLater(samples, w)
    ensures v == w
  {
    hide Loudness;
    assert Loudness(samples, v, WIN) <= Loudness(samples, w, WIN) <= Loudness(samples, v, WIN);
    NotBeforeFirst(samples, v, w);
    NotBeforeFirst(samples, w, v);
  }

  lemma NotBeforeFirst(samples: seq<int>, v: nat, w: nat)
    requires FirstLoudestLater(samples, w) && 1 <= v <= |samples| - WIN
    requires Loudness(samples, v, WIN) >= Loudness(samples, w, WIN)
    ensures w <= v
  {
    hide Loudness;
  }

  /** `w` is a loudest window of all, the one at the first sample included. */
  ghost predicate Loudest(samples: seq<int>, w: nat)
    requires w + WIN <= |samples|
  {
    forall v :: 0 <= v <= |samples| - WIN ==> Loudness(samples, v, WIN) <= Loudness(samples, w, WIN)
  }

  /** The clip contains a loudest window of the whole recording exactly when the window at the first
      sample is no louder than the first loudest later one, or that one starts early enough for the
      clip to begin at the first sample. */
  lemma ContainsLoudestOfAll(samples: seq<int>, later: nat)
    requires CLIP_SAMPLES < |samples| && FirstLoudestLater(samples, later)
    ensures (exists w :: 0 <= w <= |samples| - WIN && Loudest(samples, w) && Inside(samples, w))
            <==> Loudness(samples, 0, WIN) <= Loudness(samples, later, WIN) || later + WIN / 2 <= CLIP_SAMPLES / 2 + 1
  {
    hide Loudness, Loudest, FirstLoudestLater, Energy, ArgMax, AutoTrim, Start;
    var found := ContainsLoudest(samples);
    FirstLoudestIsUnique(samples, found, later);
    if Loudness(samples, 0, WIN) <= Loudness(samples, later, WIN) {
      LaterIsLoudest(samples, later);
    } else {
      OnlyFirstIsLoudest(samples, later);
      assert Inside(samples, 0) <==> later + WIN / 2 <= CLIP_SAMPLES / 2 + 1;
    }
  }

  lemma LaterIsLoudest(samples: seq<int>, later: nat)
    requires FirstLoudestLater(samples, later) && Loudness(samples, 0, WIN) <= Loudness(samples, later, WIN)
    ensures later + WIN <= |samples| && Loudest(samples, later)
  {
    hide Loudness;
  }

  lemma OnlyFirstIsLoudest(samples: seq<int>, later: nat)
    requires FirstLoudestLater(samples, later) && Loudness(samples, 0, WIN) > Loudness(samples, later, WIN)
    ensures forall w :: 0 <= w <= |samples| - WIN ==> (Loudest(samples, w) <==> w == 0)
  {
    hide Loudness;
    forall w | 0 < w <= |samples| - WIN ensures !Loudest(samples, w) {
      assert Loudness(samples, w, WIN) < Loudness(samples, 0, WIN);
    }
  }

  // ---- A recording whose loudest window is lost ----

  /** A loud first sample, a softer one at 30000, silence otherwise. */
  function Spiked(): (s: seq<int>)
    ensures |s| == 40_000
    ensures forall i :: 0 <= i < |s| ==> s[i] == if i == 0 then 5 else if i == 30_000 then 3 else 0
  {
    seq(40_000, i => if i == 0 then 5 else if i == 30_000 then 3 else 0)
  }

  lemma {:induction false} SpikedLoudness(from: nat, n: nat)
    requires from + n <= 40_000
    ensures Loudness(Spiked(), from, n) == (if from == 0 < n then 5 else 0) + if from <= 30_000 < from + n then 3 else 0
  {
    if n > 0 {
      SpikedLoudness(from, n - 1);
    }
  }

  lemma LoudestCanBeLost()
    ensures Loudest(Spiked(), 0) && forall w :: 0 <= w <= 40_000 - WIN && Inside(Spiked(), w) ==> !Loudest(Spiked(), w)
  {
    var s := Spiked();
    forall w | 0 <= w <= 40_000 - WIN ensures Loudness(s, w, WIN) == (if w == 0 then 5 else if w <= 30_000 < w + WIN then 3 else 0) {
      SpikedLoudness(w, WIN);
    }
    hide Loudness, Spiked, Energy, ArgMax;
    var later := ContainsLoudest(s);
    assert Loudness(s, 29_000, WIN) == 3;
    assert later > 28_000;
  }
}
