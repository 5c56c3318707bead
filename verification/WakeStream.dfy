/** From PCM to model invocations: the sample window of the microfrontend, the slice accumulator
    of `wake_word_process`, and the offline grouping of `verify_model.py`. A feature slice is
    represented by the 480 samples it is computed from. */
module WakeStream {
  import opened Options
  import opened Grouping

  const WINDOW_SAMPLES: nat := 480
  const STRIDE_SAMPLES: nat := 160
  const MAX_INPUT_SLICES: nat := 8

  type Slice = seq<int>

  // ---- What the whole stream means ----

  /** The slices that `n` samples yield. */
  function SliceCount(n: nat): nat {
    if n < WINDOW_SAMPLES then 0 else 1 + (n - WINDOW_SAMPLES) / STRIDE_SAMPLES
  }

  function SliceAt(fed: seq<int>, i: nat): Slice
    requires i < SliceCount(|fed|)
  {
    fed[STRIDE_SAMPLES * i..STRIDE_SAMPLES * i + WINDOW_SAMPLES]
  }

  function Slices(fed: seq<int>): seq<Slice> {
    seq(SliceCount(|fed|), i requires 0 <= i < SliceCount(|fed|) => SliceAt(fed, i))
  }

  lemma DivisionIs(n: nat, k: nat, q: nat, r: nat)
    requires 0 < k <= MAX_INPUT_SLICES && k * q + r == n && r < k
    ensures n / k == q && n % k == r
  {
    if k == 1 {} else if k == 2 {} else if k == 3 {} else if k == 4 {} else if k == 5 {} else if k == 6 {} else if k == 7 {} else {}
  }

  /** After N samples there have been S slices, S / k invocations, and S % k slices wait, so the
      place the next slice is written to is always inside the pending buffer. */
  lemma StreamCounts(fed: seq<int>, k: nat)
    requires 0 < k <= MAX_INPUT_SLICES
    ensures var s := SliceCount(|fed|);
            && s == (if |fed| < 480 then 0 else 1 + (|fed| - 480) / 160) && |Slices(fed)| == s
            && |Groups(Slices(fed), k)| == s / k
            && |Leftover(Slices(fed), k)| == s % k < MAX_INPUT_SLICES
  {
    GroupsCover(Slices(fed), k);
    DivisionIs(SliceCount(|fed|), k, |Groups(Slices(fed), k)|, |Leftover(Slices(fed), k)|);
  }

  // ---- One more piece of the stream ----

  lemma MoreSamples(fed: seq<int>, more: seq<int>)
    requires |fed| - STRIDE_SAMPLES * SliceCount(|fed|) + |more| <= WINDOW_SAMPLES
    ensures var used := |fed| - STRIDE_SAMPLES * SliceCount(|fed|);
            && 0 <= used < WINDOW_SAMPLES
            && if used + |more| < WINDOW_SAMPLES then Slices(fed + more) == Slices(fed)
               else Slices(fed + more) == Slices(fed) + [fed[STRIDE_SAMPLES * SliceCount(|fed|)..] + more]
  {
    var s := SliceCount(|fed|);
    var all := fed + more;
    if |fed| - STRIDE_SAMPLES * s + |more| < WINDOW_SAMPLES {
      assert SliceCount(|all|) == s;
    } else {
      assert SliceCount(|all|) == s + 1;
      assert SliceAt(all, s) == fed[STRIDE_SAMPLES * s..] + more;
    }
    assert forall i :: 0 <= i < s ==> SliceAt(all, i) == SliceAt(fed, i);
  }

  // ---- The firmware ----

  class WakeInput {
    const slicesPerInvoke: nat
    const input: array<int>
    var inputUsed: nat
    const pendingFeatures: array<Slice>
    var pendingCount: nat
    var invokes: seq<seq<Slice>>

    /** Every sample handed in since boot. */
    ghost var fed: seq<int>

    ghost predicate Valid()
      reads this, input, pendingFeatures
    {
      var s := SliceCount(|fed|);
      && 0 < slicesPerInvoke <= MAX_INPUT_SLICES
      && input.Length == WINDOW_SAMPLES && pendingFeatures.Length == MAX_INPUT_SLICES
      && inputUsed < WINDOW_SAMPLES && |fed| == STRIDE_SAMPLES * s + inputUsed
      && input[..inputUsed] == fed[STRIDE_SAMPLES * s..]
      && pendingCount < slicesPerInvoke
      && pendingFeatures[..pendingCount] == Leftover(Slices(fed), slicesPerInvoke)
      && invokes == Groups(Slices(fed), slicesPerInvoke)
    }

    constructor (slices: nat)
      requires 0 < slices <= MAX_INPUT_SLICES
      ensures Valid() && fresh(input) && fresh(pendingFeatures)
      ensures fed == [] && slicesPerInvoke == slices
    {
      slicesPerInvoke := slices;
      input := new int[WINDOW_SAMPLES](_ => 0);
      inputUsed := 0;
      pendingFeatures := new Slice[MAX_INPUT_SLICES](_ => []);
      pendingCount := 0;
      invokes := [];
      fed := [];
    }

    /** `WindowProcessSamples`: takes in what fits; when the window is full it is emitted and
        moved on by one stride. */
    method WindowProcess(samples: seq<int>) returns (read: nat, window: Option<Slice>)
      requires input.Length == WINDOW_SAMPLES && inputUsed < WINDOW_SAMPLES
      modifies input, this`inputUsed
      ensures read == if |samples| < WINDOW_SAMPLES - old(inputUsed) then |samples| else WINDOW_SAMPLES - old(inputUsed)
      ensures var held := old(input[..inputUsed]) + samples[..read];
              if |held| < WINDOW_SAMPLES then window == None && inputUsed == |held| && input[..inputUsed] == held
              else window == Some(held) && inputUsed == WINDOW_SAMPLES - STRIDE_SAMPLES && input[..inputUsed] == held[STRIDE_SAMPLES..]
    {
      ghost var was := input[..inputUsed];
      read := WINDOW_SAMPLES - inputUsed;
      if read > |samples| {
        read := |samples|;
      }
      var used := inputUsed;
      forall i | 0 <= i < read {
        input[used + i] := samples[i];
      }
      inputUsed := used + read;
      ghost var held := was + samples[..read];
      assert input[..inputUsed] == held;
      if inputUsed < WINDOW_SAMPLES {
        return read, None;
      }
      assert input[..] == held;
      window := Some(input[..]);
      forall i | 0 <= i < WINDOW_SAMPLES - STRIDE_SAMPLES {
        input[i] := input[STRIDE_SAMPLES + i];
      }
      inputUsed := inputUsed - STRIDE_SAMPLES;
      assert forall i :: 0 <= i < inputUsed ==> input[i] == held[STRIDE_SAMPLES + i];
      assert input[..inputUsed] == held[STRIDE_SAMPLES..];
    }

    /** The accumulator behind the frontend: a slice joins the pending ones, and a full block goes
        to the model. */
    method Accumulate(slice: Slice)
      requires 0 < slicesPerInvoke <= MAX_INPUT_SLICES == pendingFeatures.Length && pendingCount < slicesPerInvoke
      modifies pendingFeatures, this`pendingCount, this`invokes
      ensures pendingCount < slicesPerInvoke
      ensures var pending := old(pendingFeatures[..pendingCount]) + [slice];
              if |pending| < slicesPerInvoke then pendingFeatures[..pendingCount] == pending && invokes == old(invokes)
              else pendingCount == 0 && invokes == old(invokes) + [pending]
    {
      ghost var was := pendingFeatures[..pendingCount];
      pendingFeatures[pendingCount] := slice;
      pendingCount := pendingCount + 1;
      assert pendingFeatures[..pendingCount] == was + [slice];
      if pendingCount >= slicesPerInvoke {
        invokes := invokes + [pendingFeatures[..slicesPerInvoke]];
        pendingCount := 0;
      }
    }

    /** `wake_word_process`: whatever the call's size, the blocks handed to the model so far are
        the groups of the slices of everything fed so far. The frontend always takes in at least
        one sample, so the source's exit for a call that takes none is never used. */
    method Process(pcm: seq<int>)
      requires Valid()
      modifies this`inputUsed, this`pendingCount, this`invokes, this`fed, input, pendingFeatures
      ensures Valid() && fed == old(fed) + pcm
    {
      hide Slices, SliceAt, SliceCount, Groups, Leftover;
      var start := 0;
      assert fed == fed + pcm[..0];
      while |pcm| - start > 0
        invariant start <= |pcm| && Valid() && fed == old(fed) + pcm[..start]
        decreases |pcm| - start
      {
        var consumed := Take(pcm[start..]);
        PieceNext(old(fed), pcm, start, consumed);
        start := start + consumed;
      }
      assert pcm[..start] == pcm;
    }

    /** The loop body: one call of the frontend, and the slice it may emit. */
    method Take(remaining: seq<int>) returns (consumed: nat)
      requires Valid() && remaining != []
      modifies this`inputUsed, this`pendingCount, this`invokes, this`fed, input, pendingFeatures
      ensures Valid() && 0 < consumed <= |remaining| && fed == old(fed) + remaining[..consumed]
    {
      hide SliceAt, Groups, Leftover;
      ghost var was := fed;
      var slice;
      consumed, slice := WindowProcess(remaining);
      MoreSamples(was, remaining[..consumed]);
      fed := was + remaining[..consumed];
      if slice.Some? {
        GroupsStep(Slices(was), slice.value, slicesPerInvoke);
        Accumulate(slice.value);
      }
    }

    /** Chunk invariance: the model sees the same blocks however the stream is cut into calls. */
    method ProcessAll(chunks: seq<seq<int>>)
      requires Valid()
      modifies this`inputUsed, this`pendingCount, this`invokes, this`fed, input, pendingFeatures
      ensures Valid() && fed == old(fed) + Concat(chunks)
      ensures invokes == Groups(Slices(old(fed) + Concat(chunks)), slicesPerInvoke)
    {
      hide Slices, SliceAt, SliceCount, Groups, Leftover, Concat;
      ConcatNone(fed, chunks);
      for i := 0 to |chunks|
        invariant Valid() && fed == old(fed) + Concat(chunks[..i])
      {
        ConcatNext(old(fed), chunks, i);
        Process(chunks[i]);
      }
      assert chunks[..|chunks|] == chunks;
    }
  }

  lemma PieceNext(fed: seq<int>, pcm: seq<int>, start: nat, n: nat)
    requires start + n <= |pcm|
    ensures fed + pcm[..start] + pcm[start..][..n] == fed + pcm[..start + n]
  {
  }

  lemma ConcatNone(fed: seq<int>, chunks: seq<seq<int>>)
    ensures fed + Concat(chunks[..0]) == fed
  {
  }

  lemma ConcatNext(fed: seq<int>, chunks: seq<seq<int>>, i: nat)
    requires i < |chunks|
    ensures fed + Concat(chunks[..i + 1]) == fed + Concat(chunks[..i]) + chunks[i]
  {
    assert chunks[..i + 1] == chunks[..i] + [chunks[i]];
    ConcatAppend(chunks[..i], chunks[i]);
  }

  /** Feeding more never changes the blocks already handed over. */
  lemma {:induction false} InvokesAreFinal(fed: seq<int>, more: seq<int>, k: nat)
    requires 0 < k
    ensures Groups(Slices(fed), k) <= Groups(Slices(fed + more), k)
    decreases |more|
  {
    if more != [] {
      assert fed + more == (fed + more[..1]) + more[1..];
      MoreSamples(fed, more[..1]);
      if Slices(fed + more[..1]) != Slices(fed) {
        GroupsStep(Slices(fed), fed[STRIDE_SAMPLES * SliceCount(|fed|)..] + more[..1], k);
      }
      InvokesAreFinal(fed + more[..1], more[1..], k);
    } else {
      assert fed + more == fed;
    }
  }

  // ---- The offline verifier ----

  /** The grouping loop of `StreamingModel.probs_for_clip`: the model is invoked on the same groups
      of slices as on the device. */
  method GroupsForClip<T>(feats: seq<T>, slices: nat) returns (blocks: seq<seq<T>>)
    requires 0 < slices
    ensures blocks == Groups(feats, slices)
  {
    blocks := [];
    var pending: seq<T> := [];
    for i := 0 to |feats|
      invariant blocks == Groups(feats[..i], slices) && pending == Leftover(feats[..i], slices)
    {
      assert feats[..i + 1] == feats[..i] + [feats[i]];
      GroupsStep(feats[..i], feats[i], slices);
      pending := pending + [feats[i]];
      if |pending| < slices {
        continue;
      }
      blocks := blocks + [pending];
      pending := [];
    }
    assert feats[..|feats|] == feats;
  }
}
