/** The event observer of `app/bot.py`: which frames it turns into messages, and the bounded memory
    of frame ids that keeps a frame seen at several hops from being sent twice. */
module FrameDedup {
  import opened Options

  const MAX_SEEN: nat := 256

  // ---- Frames and messages ----

  datatype FrameKind =
    | UserStarted | UserStopped | Interim(text: string) | Transcription(text: string)
    | BotStarted | BotStopped | SpokenText(text: string) | OtherKind

  datatype Frame = Frame(id: int, kind: FrameKind)

  datatype Message =
    | UserStartedMessage | UserStoppedMessage | UserText(text: string, final: bool)
    | BotStartedMessage | BotStoppedMessage | BotText(text: string)

  function MessageOf(kind: FrameKind): Option<Message> {
    match kind
    case UserStarted => Some(UserStartedMessage)
    case UserStopped => Some(UserStoppedMessage)
    case Interim(text) => Some(UserText(text, false))
    case Transcription(text) => Some(UserText(text, true))
    case BotStarted => Some(BotStartedMessage)
    case BotStopped => Some(BotStoppedMessage)
    case SpokenText(text) => Some(BotText(text))
    case OtherKind => None
  }

  predicate Relevant(f: Frame) {
    MessageOf(f.kind).Some?
  }

  // ---- The bounded memory, as a function of the frames pushed so far ----

  /** `deque(maxlen=256)`: the newest ids. */
  function Newest(ids: seq<int>): (r: seq<int>)
    ensures |r| <= MAX_SEEN
  {
    if |ids| <= MAX_SEEN then ids else ids[|ids| - MAX_SEEN..]
  }

  function Ids(fs: seq<Frame>): (ids: seq<int>)
    ensures |ids| == |fs| && forall k :: 0 <= k < |fs| ==> ids[k] == fs[k].id
  {
    seq(|fs|, k requires 0 <= k < |fs| => fs[k].id)
  }

  /** The frames a message is sent for. */
  function Sent(fs: seq<Frame>): seq<Frame> {
    if fs == [] then []
    else
      var n := |fs| - 1;
      var sent := Sent(fs[..n]);
      if !Relevant(fs[n]) || fs[n].id in Newest(Ids(sent)) then sent else sent + [fs[n]]
  }

  // ---- The unbounded reference ----

  /** The relevant frames whose id no earlier relevant frame has. */
  function FirstOccurrences(fs: seq<Frame>): seq<Frame> {
    if fs == [] then []
    else
      var n := |fs| - 1;
      var first := FirstOccurrences(fs[..n]);
      if !Relevant(fs[n]) || Repeats(fs, n) then first else first + [fs[n]]
  }

  predicate Repeats(fs: seq<Frame>, n: nat)
    requires n < |fs|
  {
    exists k :: 0 <= k < n && Relevant(fs[k]) && fs[k].id == fs[n].id
  }

  lemma {:induction false} FirstHasAllIds(fs: seq<Frame>, id: int)
    ensures id in Ids(FirstOccurrences(fs)) <==> exists k :: 0 <= k < |fs| && Relevant(fs[k]) && fs[k].id == id
  {
    if fs != [] {
      var n := |fs| - 1;
      var init := fs[..n];
      FirstHasAllIds(init, id);
      assert forall k :: 0 <= k < n ==> init[k] == fs[k];
      var first := FirstOccurrences(init);
      assert Ids(first + [fs[n]]) == Ids(first) + [fs[n].id];
    }
  }

  // ---- Bounded distinctness ----

  /** Any 257 consecutive sends are of distinct frames. */
  lemma {:induction false} WindowDistinct(fs: seq<Frame>, i: nat, j: nat)
    requires i < j < |Sent(fs)| && j - i <= MAX_SEEN
    ensures Sent(fs)[i].id != Sent(fs)[j].id
    decreases |fs|
  {
    var n := |fs| - 1;
    var sent := Sent(fs[..n]);
    if j < |sent| {
      WindowDistinct(fs[..n], i, j);
    } else {
      var ids := Ids(sent);
      assert ids[i] == Newest(ids)[if |ids| <= MAX_SEEN then i else i - (|ids| - MAX_SEEN)];
    }
  }

  // ---- Agreement with the unbounded memory ----

  /** Every repeat comes while its id is still among the newest 256. */
  predicate RepeatsInTime(fs: seq<Frame>) {
    forall n :: 0 <= n < |fs| && Relevant(fs[n]) && Repeats(fs, n) ==> fs[n].id in Newest(Ids(FirstOccurrences(fs[..n])))
  }

  lemma RepeatsPrefix(fs: seq<Frame>, m: nat, n: nat)
    requires n < m <= |fs|
    ensures Repeats(fs[..m], n) == Repeats(fs, n) && fs[..m][n] == fs[n] && fs[..m][..n] == fs[..n]
  {
    if Repeats(fs, n) {
      var k :| 0 <= k < n && Relevant(fs[k]) && fs[k].id == fs[n].id;
      assert fs[..m][k] == fs[k];
    }
  }

  lemma InTimeStep(fs: seq<Frame>)
    requires fs != []
    ensures var n := |fs| - 1;
            RepeatsInTime(fs) <==>
            RepeatsInTime(fs[..n])
            && (Relevant(fs[n]) && Repeats(fs, n) ==> fs[n].id in Newest(Ids(FirstOccurrences(fs[..n]))))
  {
    var m := |fs| - 1;
    forall n | 0 <= n < m
      ensures Repeats(fs[..m], n) == Repeats(fs, n) && fs[..m][n] == fs[n] && fs[..m][..n] == fs[..n]
    {
      RepeatsPrefix(fs, m, n);
    }
  }

  /** Some id is sent twice as soon as one repeat comes too late. */
  predicate HasRepeat(fs: seq<Frame>) {
    exists i, j :: 0 <= i < j < |fs| && fs[i].id == fs[j].id
  }

  lemma {:induction false} FirstHasNoRepeat(fs: seq<Frame>)
    ensures !HasRepeat(FirstOccurrences(fs))
  {
    if fs != [] {
      var n := |fs| - 1;
      FirstHasNoRepeat(fs[..n]);
      FirstHasAllIds(fs[..n], fs[n].id);
      var first := FirstOccurrences(fs[..n]);
      assert forall k :: 0 <= k < |first| ==> Ids(first)[k] == first[k].id;
    }
  }

  lemma RepeatStays(fs: seq<Frame>, f: Frame)
    requires HasRepeat(fs)
    ensures HasRepeat(fs + [f])
  {
    var i, j :| 0 <= i < j < |fs| && fs[i].id == fs[j].id;
    assert (fs + [f])[i] == fs[i] && (fs + [f])[j] == fs[j];
  }

  lemma {:induction false} LateMeansRepeat(fs: seq<Frame>)
    ensures RepeatsInTime(fs) ==> Sent(fs) == FirstOccurrences(fs)
    ensures !RepeatsInTime(fs) ==> HasRepeat(Sent(fs))
  {
    if fs != [] {
      var n := |fs| - 1;
      var init, f := fs[..n], fs[n];
      LateMeansRepeat(init);
      InTimeStep(fs);
      if !RepeatsInTime(init) {
        RepeatStays(Sent(init), f);
      } else {
        SameSoFar(fs);
      }
    }
  }

  lemma SameSoFar(fs: seq<Frame>)
    requires fs != [] && Sent(fs[..|fs| - 1]) == FirstOccurrences(fs[..|fs| - 1])
    ensures var n := |fs| - 1;
            var late := Relevant(fs[n]) && Repeats(fs, n) && fs[n].id !in Newest(Ids(FirstOccurrences(fs[..n])));
            if late then HasRepeat(Sent(fs)) else Sent(fs) == FirstOccurrences(fs)
  {
    var n := |fs| - 1;
    var first := FirstOccurrences(fs[..n]);
    RepeatsMeansKnown(fs);
    NewestAmong(Ids(first), fs[n].id);
    hide Repeats, Newest, HasRepeat;
    if fs[n].id in Ids(first) {
      hide Ids;
      KnownRepeats(first, fs[n]);
    }
  }

  lemma RepeatsMeansKnown(fs: seq<Frame>)
    requires fs != []
    ensures var n := |fs| - 1; Repeats(fs, n) <==> fs[n].id in Ids(FirstOccurrences(fs[..n]))
  {
    var n := |fs| - 1;
    FirstHasAllIds(fs[..n], fs[n].id);
    hide FirstOccurrences;
    assert forall k :: 0 <= k < n ==> fs[..n][k] == fs[k];
  }

  lemma NewestAmong(ids: seq<int>, id: int)
    ensures id in Newest(ids) ==> id in ids
  {
  }

  lemma KnownRepeats(fs: seq<Frame>, f: Frame)
    requires f.id in Ids(fs)
    ensures HasRepeat(fs + [f])
  {
    var k :| 0 <= k < |fs| && Ids(fs)[k] == f.id;
    assert (fs + [f])[k].id == (fs + [f])[|fs|].id;
  }

  /** The bounded memory sends exactly the first occurrences, in order, if and only if every repeat
      of an id comes before 256 newer ids have been recorded. */
  lemma AgreesExactlyInTime(fs: seq<Frame>)
    ensures Sent(fs) == FirstOccurrences(fs) <==> RepeatsInTime(fs)
  {
    LateMeansRepeat(fs);
    FirstHasNoRepeat(fs);
  }

  // ---- The observer ----

  function Messages(fs: seq<Frame>): seq<Message> {
    if fs == [] then []
    else
      var n := |fs| - 1;
      Messages(fs[..n]) + match MessageOf(fs[n].kind) case None => [] case Some(m) => [m]
  }

  /** One more frame, in terms of the memory: what is sent, and what is then remembered. */
  lemma SentStep(fs: seq<Frame>, f: Frame)
    ensures var was := Sent(fs);
            var seen := Newest(Ids(was));
            var now := Sent(fs + [f]);
            if MessageOf(f.kind).None? || f.id in seen then now == was
            else Messages(now) == Messages(was) + [MessageOf(f.kind).value] && Newest(Ids(now)) == Newest(seen + [f.id])
  {
    assert (fs + [f])[..|fs|] == fs;
    var was := Sent(fs);
    assert (was + [f])[..|was|] == was;
    assert Ids(was + [f]) == Ids(was) + [f.id];
    NewestStep(Ids(was), f.id);
  }

  lemma NewestStep(ids: seq<int>, id: int)
    ensures Newest(Newest(ids) + [id]) == Newest(ids + [id])
  {
  }

  class EventObserver {
    var seen: seq<int>
    var sent: seq<Message>

    /** The frames pushed so far. */
    ghost var pushed: seq<Frame>

    ghost predicate Valid()
      reads this
    {
      seen == Newest(Ids(Sent(pushed))) && sent == Messages(Sent(pushed))
    }

    constructor ()
      ensures Valid() && pushed == []
    {
      seen, sent, pushed := [], [], [];
    }

    /** `_once` */
    method Once(frame: Frame) returns (isNew: bool)
      requires |seen| <= MAX_SEEN
      modifies this`seen
      ensures isNew == (frame.id !in old(seen))
      ensures seen == if isNew then Newest(old(seen) + [frame.id]) else old(seen)
      ensures isNew ==> seen == (if |old(seen)| < 256 then old(seen) else old(seen)[1..]) + [frame.id]
    {
      if frame.id in seen {
        return false;
      }
      seen := seen + [frame.id];
      if |seen| > MAX_SEEN {
        seen := seen[1..];
      }
      assert seen == Newest(old(seen) + [frame.id]);
      return true;
    }

    /** `on_push_frame`; a send that fails has been recorded all the same. */
    method OnPushFrame(frame: Frame)
      requires Valid()
      modifies this
      ensures Valid() && pushed == old(pushed) + [frame]
      ensures frame.kind == OtherKind || frame.id in old(seen) ==> sent == old(sent) && seen == old(seen)
      ensures frame.kind != OtherKind && frame.id !in old(seen) ==> |sent| == |old(sent)| + 1 && old(sent) <= sent
      ensures frame.kind != OtherKind && frame.id !in old(seen) ==>
        match frame.kind
        case UserStarted => sent[|sent| - 1] == UserStartedMessage
        case UserStopped => sent[|sent| - 1] == UserStoppedMessage
        case Interim(text) => sent[|sent| - 1] == UserText(text, false)
        case Transcription(text) => sent[|sent| - 1] == UserText(text, true)
        case BotStarted => sent[|sent| - 1] == BotStartedMessage
        case BotStopped => sent[|sent| - 1] == BotStoppedMessage
        case SpokenText(text) => sent[|sent| - 1] == BotText(text)
        case OtherKind => false
      ensures frame.kind != OtherKind && frame.id !in old(seen) ==>
        seen == (if |old(seen)| < 256 then old(seen) else old(seen)[1..]) + [frame.id]
    {
      hide Sent, Messages, Newest, Ids;
      SentStep(pushed, frame);
      pushed := pushed + [frame];
      var msg := MessageOf(frame.kind);
      if msg.None? {
        return;
      }
      var first := Once(frame);
      if !first {
        return;
      }
      sent := sent + [msg.value];
    }
  }
}
