/** The rewritten answer as the device reads it: `esp32_munge` composed with
    `agent_set_remote_description`. */
module MungeOnDevice {
  import opened Options
  import opened Text
  import opened Address
  import opened Candidates
  import opened Description
  import opened Lines
  import opened Munge

  // ---- The rewritten text is a sequence of complete lines ----

  lemma ReadsEmptyLine(env: Platform, r: Remote)
    ensures ReadRemote(env, CRLF, r) == Some(r)
  {
    assert "" + CRLF + "" == CRLF;
    ReadsLine(env, "", "", r);
  }

  /** Joining an empty list still writes one line end, which changes nothing for the device. */
  lemma ReadsMunged(env: Platform, sdp: string, r: Remote)
    ensures ReadRemote(env, Munged(sdp), r) == ReadRemote(env, Terminated(MungeLines(SplitLines(sdp))), r)
  {
    var lines := MungeLines(SplitLines(sdp));
    if lines == [] {
      assert Munged(sdp) == CRLF;
      ReadsEmptyLine(env, r);
    } else {
      JoinTerminates(lines);
    }
  }

  // ---- One line ----

  lemma {:induction false} SubstituteWithout(ch: char, p: Pattern, s: string, put: string)
    requires ch !in s && ch !in put
    ensures ch !in Substitute(p, s, put)
    decreases |s|
  {
    if s != "" {
      if HitLength(p, s) != 0 {
        SubstituteWithout(ch, p, s[HitLength(p, s)..], put);
      } else {
        assert s[0] in s;
        SubstituteWithout(ch, p, s[1..], put);
      }
    }
  }

  lemma MungedWithout(line: string)
    requires '\r' !in line
    ensures forall l :: l in MungeLine(line) ==> '\r' !in l
  {
    SubstituteWithout('\r', TYP_HOST, line, TYP_RELAY.text);
    SubstituteWithout('\r', RelatedAddress, line, "");
  }

  /** The credentials after one line of the answer. */
  function Credentials(line: string, r: Remote): Option<Remote> {
    if !CredentialFits(line) then None
    else if UFRAG_START <= line then Some(r.(ufrag := Overwrite(r.ufrag, line[|UFRAG_START|..])))
    else if PWD_START <= line then Some(r.(pwd := Overwrite(r.pwd, line[|PWD_START|..])))
    else Some(r)
  }

  lemma CandidateStart(line: string)
    ensures LINE_START <= line ==> CANDIDATE_LINE <= line
  {
    assert LINE_START[..11] == CANDIDATE_LINE;
  }

  lemma ReadsOther(env: Platform, line: string, rest: string, r: Remote)
    requires '\r' !in line && !(CANDIDATE_LINE <= line)
    ensures ReadRemote(env, line + CRLF + rest, r) == ReadOn(env, rest, Credentials(line, r))
  {
    hide ReadRemote, ReadLine, Credentials;
    ReadsLine(env, line, rest, r);
    CredentialLine(env, line, rest, r);
  }

  lemma CredentialLine(env: Platform, line: string, rest: string, r: Remote)
    requires '\r' !in line && !(CANDIDATE_LINE <= line) && (line + CRLF + rest)[|line|] == '\r'
    ensures ReadLine(env, line + CRLF + rest, |line|, r) == Credentials(line, r)
  {
    hide ReadCandidateLine, Overwrite;
    var text := line + CRLF + rest;
    PrefixOfLine(UFRAG_START, line, rest);
    PrefixOfLine(PWD_START, line, rest);
    PrefixOfLine(LINE_START, line, rest);
    CandidateStart(line);
    assert UFRAG_START[6] != PWD_START[6];
    if UFRAG_START <= line {
      assert text[|UFRAG_START|..|line|] == line[|UFRAG_START|..];
    }
    if PWD_START <= line {
      assert text[|PWD_START|..|line|] == line[|PWD_START|..];
    }
  }

  function Relabelled(line: AnswerLine): string
    requires line.CandidateLine?
  {
    LineWith(line, Spaced("typ", Spaced("relay", MungedTail(line))))
  }

  lemma AcceptsKept(env: Platform, line: AnswerLine)
    requires line.CandidateLine? && line.WellFormed(env) && FieldsFit(KeptFields(line))
    ensures Accept(env, KeptFields(line)) ==
            if !IsUdp(line.transport) then Refused
            else Taken(Candidate(line.foundation, line.component, line.priority, line.transport, RelayType,
                                 Address(FromText(env, line.address).value, line.port), ZERO))
  {
    LiteralIsNotLocal(line.address);
    assert KeptFields(line).kind[0] == 'r';
  }

  lemma KeptWord(line: AnswerLine, rest: string)
    requires line.CandidateLine?
    ensures var after := "relay" + (MungedTail(line) + CRLF + rest);
            after[..WordLength(after)] == KeptFields(line).kind
  {
    var tail := MungedTail(line);
    WordLengthOf("relay", tail + CRLF + rest);
    WordEnds(tail, CRLF + rest);
    assert tail + CRLF + rest == tail + (CRLF + rest);
  }

  lemma {:induction false} WordEnds(tail: string, rest: string)
    requires rest != "" && IsSpace(rest[0])
    ensures WordLength(tail + rest) == WordLength(tail)
  {
    if tail == "" {
      assert tail + rest == rest;
    } else {
      assert (tail + rest)[0] == tail[0] && (tail + rest)[1..] == tail[1..] + rest;
      WordEnds(tail[1..], rest);
    }
  }

  /** What a kept candidate line gives the device, whatever follows it. */
  lemma ParsesKept(env: Platform, line: AnswerLine, rest: string)
    requires line.CandidateLine? && line.WellFormed(env)
    ensures LINE_START <= Relabelled(line) + CRLF + rest
    ensures ScanWord(BodyOf(Relabelled(line) + CRLF + rest)).Read?
    ensures FromDescription(env, Relabelled(line) + CRLF + rest) ==
            if FieldsFit(KeptFields(line)) then Accept(env, KeptFields(line)) else Undefined
  {
    var after := "relay" + (MungedTail(line) + CRLF + rest);
    KeptWord(line, rest);
    LiteralIsWord(line.address);
    RelabelledText(line, rest);
    BodyStartsWithWord(env, line.foundation, line.component, line.transport, line.priority, line.address, line.port,
                       Spaced("typ", Spaced("", after)));
    FromDescriptionReads(env, line.foundation, line.component, line.transport, line.priority, line.address, line.port, after);
  }

  lemma RelabelledText(line: AnswerLine, rest: string)
    requires line.CandidateLine?
    ensures Relabelled(line) + CRLF + rest
         == LineWith(line, Spaced("typ", Spaced("", "relay" + (MungedTail(line) + CRLF + rest))))
  {
    var end := Spaced("typ", Spaced("relay", MungedTail(line)));
    EndAppend(MungedTail(line), rest);
    LineAppend(line, end, CRLF + rest);
    Associative(LineWith(line, end), CRLF, rest);
  }

  lemma EndAppend(tail: string, rest: string)
    ensures Spaced("typ", Spaced("relay", tail)) + (CRLF + rest)
         == Spaced("typ", Spaced("", "relay" + (tail + CRLF + rest)))
  {
  }

  lemma LineAppend(line: AnswerLine, end: string, rest: string)
    requires line.CandidateLine?
    ensures LineWith(line, end) + rest == LineWith(line, end + rest)
  {
    var body := Body(line.foundation, line.component, line.transport, line.priority, line.address, line.port, end);
    BodyAppend(line.foundation, line.component, line.transport, line.priority, line.address, line.port, end, rest);
    Associative(LINE_START, body, rest);
  }

  /** The list after a kept candidate line. */
  function AfterKept(env: Platform, line: AnswerLine, cs: seq<Candidate>): Option<seq<Candidate>>
    requires line.CandidateLine? && line.WellFormed(env)
  {
    if |cs| >= MAX_CANDIDATES || !FieldsFit(KeptFields(line)) then None else Some(AddAll(cs, Offer(env, line)))
  }

  lemma OfferAdds(env: Platform, line: AnswerLine, cs: seq<Candidate>)
    requires line.WellFormed(env)
    ensures AddAll(cs, Offer(env, line)) == if Offer(env, line) == [] then cs else AddCandidate(cs, Offer(env, line)[0])
  {
    hide IsForeignHash, IsUdp, AddCandidate;
    if Offer(env, line) != [] {
      assert Offer(env, line)[1..] == [];
    }
  }

  lemma ReadsKept(env: Platform, line: AnswerLine, rest: string, r: Remote)
    requires line.CandidateLine? && line.WellFormed(env) && line.kind in {"host", "relay"}
    requires '\r' !in Relabelled(line)
    requires !IsForeignHash(line.Text())
    ensures ReadRemote(env, Relabelled(line) + CRLF + rest, r)
         == ReadOn(env, rest, WithCandidates(r, AfterKept(env, line, r.candidates)))
  {
    hide KeptFields, FieldsFit, FromDescription, ScanWord, Relabelled, ReadRemote, Accept;
    ParsesKept(env, line, rest);
    ReadsCandidateLine(env, Relabelled(line), rest, r);
    if FieldsFit(KeptFields(line)) {
      AcceptsKept(env, line);
      OfferAdds(env, line, r.candidates);
    }
  }

  /** The device's state after one line of the original answer. */
  function After(env: Platform, line: AnswerLine, r: Remote): Option<Remote>
    requires line.WellFormed(env)
  {
    if IsForeignHash(line.Text()) then Some(r)
    else if line.OtherLine? then Credentials(line.text, r)
    else if line.kind !in {"host", "relay"} then Some(r)
    else WithCandidates(r, AfterKept(env, line, r.candidates))
  }

  lemma ReadsMungedLine(env: Platform, line: AnswerLine, rest: string, r: Remote)
    requires line.WellFormed(env) && '\r' !in line.Text()
    ensures ReadRemote(env, Terminated(MungeLine(line.Text())) + rest, r) == ReadOn(env, rest, After(env, line, r))
  {
    hide ReadRemote, Credentials, AfterKept;
    MungedWithout(line.Text());
    if IsForeignHash(line.Text()) {
      assert "" + rest == rest;
    } else if line.OtherLine? {
      TerminatedOne(line.text);
      ReadsOther(env, line.text, rest, r);
    } else {
      MungesCandidate(env, line);
      if line.kind in {"host", "relay"} {
        assert Relabelled(line) in MungeLine(line.Text());
        TerminatedOne(Relabelled(line));
        ReadsKept(env, line, rest, r);
      } else {
        assert "" + rest == rest;
      }
    }
  }

  lemma TerminatedOne(line: string)
    ensures Terminated([line]) == line + CRLF
  {
    assert Terminated([line][1..]) == "";
  }

  // ---- The whole answer ----

  function AfterAll(env: Platform, lines: seq<AnswerLine>, r: Remote): Option<Remote>
    requires AllWellFormed(env, lines)
    decreases |lines|
  {
    if lines == [] then Some(r)
    else
      match After(env, lines[0], r)
      case None => None
      case Some(next) => AfterAll(env, lines[1..], next)
  }

  /** The device's state after the rewrite is the effect of the original lines, one by one. */
  lemma {:induction false} ReadsMungedLines(env: Platform, lines: seq<AnswerLine>, r: Remote)
    requires AllWellFormed(env, lines)
    requires forall k :: 0 <= k < |lines| ==> '\r' !in lines[k].Text()
    ensures ReadRemote(env, Terminated(MungeLines(Texts(lines))), r) == AfterAll(env, lines, r)
    decreases |lines|
  {
    if lines != [] {
      hide After, ReadRemote, MungeLine, Terminated;
      var rest := Terminated(MungeLines(Texts(lines[1..])));
      assert Texts(lines)[1..] == Texts(lines[1..]);
      assert Texts(lines)[0] == lines[0].Text();
      TerminatedAppend(MungeLine(lines[0].Text()), MungeLines(Texts(lines[1..])));
      ReadsMungedLine(env, lines[0], rest, r);
      match After(env, lines[0], r)
      case None =>
      case Some(next) => ReadsMungedLines(env, lines[1..], next);
    } else {
      assert Terminated(MungeLines(Texts(lines))) == "";
    }
  }

  lemma {:induction false} AddAllSplits(cs: seq<Candidate>, xs: seq<Candidate>, ys: seq<Candidate>)
    ensures AddAll(cs, xs + ys) == AddAll(AddAll(cs, xs), ys)
    decreases |xs|
  {
    if xs == [] {
      assert xs + ys == ys;
    } else {
      assert (xs + ys)[1..] == xs[1..] + ys;
      AddAllSplits(AddCandidate(cs, xs[0]), xs[1..], ys);
    }
  }

  lemma {:induction false} AddAllIsFirstPerFoundation(cs: seq<Candidate>)
    ensures AddAll([], cs) == FirstPerFoundation(cs)
    ensures forall f :: KnownFoundation(AddAll([], cs), f) <==> KnownFoundation(cs, f)
  {
    if cs != [] {
      var init, last := cs[..|cs| - 1], cs[|cs| - 1];
      AddAllIsFirstPerFoundation(init);
      assert cs == init + [last];
      AddAllSplits([], init, [last]);
      var kept := AddAll([], init);
      assert AddAll([], cs) == AddCandidate(kept, last);
      forall f ensures KnownFoundation(AddCandidate(kept, last), f) <==> KnownFoundation(cs, f) {
        KnownAppend(kept, last, f);
        KnownAppend(init, last, f);
        KnownFoundationExtends(kept, last, f);
      }
    }
  }

  lemma KnownAppend(cs: seq<Candidate>, c: Candidate, f: string)
    ensures KnownFoundation(cs + [c], f) <==> KnownFoundation(cs, f) || c.foundation == f
  {
    if KnownFoundation(cs, f) {
      var k :| 0 <= k < |cs| && cs[k].foundation == f;
      assert (cs + [c])[k].foundation == f;
    }
    assert (cs + [c])[|cs|] == c;
  }

  lemma KnownFoundationExtends(cs: seq<Candidate>, c: Candidate, f: string)
    ensures KnownFoundation(AddCandidate(cs, c), f) <==> KnownFoundation(cs, f) || c.foundation == f
  {
    KnownAppend(cs, c, f);
  }

  lemma {:induction false} AfterAllLast(env: Platform, lines: seq<AnswerLine>, r: Remote)
    requires AllWellFormed(env, lines) && lines != []
    ensures var n := |lines| - 1;
            AfterAll(env, lines, r) == match AfterAll(env, lines[..n], r)
                                       case None => None
                                       case Some(q) => After(env, lines[n], q)
    decreases |lines|
  {
    hide After;
    var n := |lines| - 1;
    if n > 0 {
      assert lines[..n][1..] == lines[1..][..n - 1] && lines[..n][0] == lines[0];
      match After(env, lines[0], r)
      case None =>
      case Some(next) => AfterAllLast(env, lines[1..], next);
    }
  }

  predicate AllHaveRoom(env: Platform, lines: seq<AnswerLine>)
    requires AllWellFormed(env, lines)
  {
    forall k :: 0 <= k < |lines| ==> HasRoom(env, lines, k)
  }

  lemma RoomOfPrefix(env: Platform, lines: seq<AnswerLine>, n: nat, k: nat)
    requires AllWellFormed(env, lines) && k < n <= |lines|
    ensures HasRoom(env, lines[..n], k) == HasRoom(env, lines, k)
  {
    hide FieldsFit, IsForeignHash, CredentialFits;
    assert lines[..n][..k] == lines[..k];
  }

  lemma AllHaveRoomStep(env: Platform, lines: seq<AnswerLine>)
    requires AllWellFormed(env, lines) && lines != []
    ensures var n := |lines| - 1;
            AllHaveRoom(env, lines) <==> AllHaveRoom(env, lines[..n]) && HasRoom(env, lines, n)
  {
    hide HasRoom;
    var n := |lines| - 1;
    forall k | 0 <= k < n ensures HasRoom(env, lines[..n], k) == HasRoom(env, lines, k) {
      RoomOfPrefix(env, lines, n, k);
    }
  }

  lemma OfferIsAdded(env: Platform, lines: seq<AnswerLine>)
    requires AllWellFormed(env, lines) && lines != []
    ensures var n := |lines| - 1;
            FirstPerFoundation(Offers(env, lines)) == AddAll(FirstPerFoundation(Offers(env, lines[..n])), Offer(env, lines[n]))
  {
    hide Offer;
    var n := |lines| - 1;
    var before := Offers(env, lines[..n]);
    AddAllIsFirstPerFoundation(before);
    AddAllIsFirstPerFoundation(before + Offer(env, lines[n]));
    AddAllSplits([], before, Offer(env, lines[n]));
  }

  lemma OneAfter(env: Platform, lines: seq<AnswerLine>, r: Remote)
    requires AllWellFormed(env, lines) && lines != []
    requires r.candidates == FirstPerFoundation(Offers(env, lines[..|lines| - 1]))
    ensures var n := |lines| - 1;
            match After(env, lines[n], r)
            case None => !HasRoom(env, lines, n)
            case Some(q) => HasRoom(env, lines, n) && q.candidates == AddAll(r.candidates, Offer(env, lines[n]))
  {
    hide IsForeignHash, FieldsFit, KeptFields, FirstPerFoundation, Offers, CredentialFits, Overwrite, IsUdp, AddCandidate;
    var line := lines[|lines| - 1];
    if IsForeignHash(line.Text()) || line.OtherLine? || line.kind !in {"host", "relay"} {
      assert Offer(env, line) == [];
    }
  }

  lemma {:induction false} AfterAllIs(env: Platform, lines: seq<AnswerLine>, r: Remote)
    requires AllWellFormed(env, lines) && r.candidates == []
    ensures match AfterAll(env, lines, r)
            case None => !AllHaveRoom(env, lines)
            case Some(q) => AllHaveRoom(env, lines) && q.candidates == FirstPerFoundation(Offers(env, lines))
    decreases |lines|
  {
    if lines != [] {
      hide After, AfterAll, HasRoom, AllHaveRoom, Offers, FirstPerFoundation;
      var n := |lines| - 1;
      AfterAllIs(env, lines[..n], r);
      AfterAllLast(env, lines, r);
      AllHaveRoomStep(env, lines);
      match AfterAll(env, lines[..n], r)
      case None =>
      case Some(q) =>
        OfferIsAdded(env, lines);
        OneAfter(env, lines, q);
    }
  }

  lemma LinesWithoutBreaks(sdp: string, lines: seq<AnswerLine>)
    requires SplitLines(sdp) == Texts(lines)
    ensures forall k :: 0 <= k < |lines| ==> '\r' !in lines[k].Text()
  {
    forall k | 0 <= k < |lines| ensures '\r' !in lines[k].Text() {
      NoReturnInLine(sdp, k);
      assert Texts(lines)[k] == SplitLines(sdp)[k];
    }
  }

  // ---- The credentials ----

  /** What stands behind a prefix in each line that has it and names no foreign hash. */
  function KeptBehind(texts: seq<string>, prefix: string): (kept: seq<Option<string>>)
    ensures |kept| == |texts|
  {
    seq(|texts|, k requires 0 <= k < |texts| =>
      if prefix <= texts[k] && !IsForeignHash(texts[k]) then Some(texts[k][|prefix|..]) else None)
  }

  lemma AfterStores(env: Platform, line: AnswerLine, r: Remote)
    requires line.WellFormed(env)
    ensures var q, text := After(env, line, r), line.Text();
            q.Some? ==>
              && q.value.ufrag == (if UFRAG_START <= text && !IsForeignHash(text) then Overwrite(r.ufrag, text[|UFRAG_START|..]) else r.ufrag)
              && q.value.pwd == (if PWD_START <= text && !IsForeignHash(text) then Overwrite(r.pwd, text[|PWD_START|..]) else r.pwd)
  {
    hide Overwrite, IsForeignHash, AfterKept, CredentialFits;
    var text := line.Text();
    assert UFRAG_START[6] != PWD_START[6] && UFRAG_START[2] != LINE_START[2] && PWD_START[2] != LINE_START[2];
    if line.CandidateLine? {
      assert text[2] == LINE_START[2];
    }
  }

  lemma {:induction false} AfterAllStores(env: Platform, lines: seq<AnswerLine>, r: Remote)
    requires AllWellFormed(env, lines)
    ensures var q, texts := AfterAll(env, lines, r), Texts(lines);
            q.Some? ==> && q.value.ufrag == Stored(KeptBehind(texts, UFRAG_START), r.ufrag)
                        && q.value.pwd == Stored(KeptBehind(texts, PWD_START), r.pwd)
    decreases |lines|
  {
    if lines != [] {
      hide After, Overwrite, IsForeignHash;
      var n := |lines| - 1;
      AfterAllStores(env, lines[..n], r);
      AfterAllLast(env, lines, r);
      assert KeptBehind(Texts(lines), UFRAG_START)[..n] == KeptBehind(Texts(lines[..n]), UFRAG_START);
      assert KeptBehind(Texts(lines), PWD_START)[..n] == KeptBehind(Texts(lines[..n]), PWD_START);
      match AfterAll(env, lines[..n], r)
      case None =>
      case Some(q) => AfterStores(env, lines[n], q);
    }
  }

  /** `u` is the one line that starts with `prefix` and in which no foreign hash stands. */
  predicate OnlyKeptLine(texts: seq<string>, prefix: string, u: int): (r: bool)
    ensures r ==> 0 <= u < |texts| && |prefix| <= |texts[u]|
  {
    && 0 <= u < |texts|
    && forall k :: 0 <= k < |texts| ==>
         (prefix <= texts[k] && !Stands("sha-384", texts[k]) && !Stands("sha-512", texts[k]) <==> k == u)
  }

  predicate NoKeptLine(texts: seq<string>, prefix: string) {
    forall k :: 0 <= k < |texts| && prefix <= texts[k] ==> Stands("sha-384", texts[k]) || Stands("sha-512", texts[k])
  }

  lemma ForeignHashStands(text: string)
    ensures IsForeignHash(text) <==> Stands("sha-384", text) || Stands("sha-512", text)
  {
    OccursStands("sha-384", text);
    OccursStands("sha-512", text);
  }

  lemma KeptOnce(texts: seq<string>, prefix: string)
    ensures forall u :: OnlyKeptLine(texts, prefix, u) ==> Stored(KeptBehind(texts, prefix), "") == texts[u][|prefix|..]
    ensures NoKeptLine(texts, prefix) ==> Stored(KeptBehind(texts, prefix), "") == ""
  {
    hide IsForeignHash, Stands, Stored;
    forall k | 0 <= k < |texts|
      ensures IsForeignHash(texts[k]) <==> Stands("sha-384", texts[k]) || Stands("sha-512", texts[k])
    {
      ForeignHashStands(texts[k]);
    }
    forall u | OnlyKeptLine(texts, prefix, u) ensures Stored(KeptBehind(texts, prefix), "") == texts[u][|prefix|..] {
      StoredOnce(KeptBehind(texts, prefix), u);
    }
    if NoKeptLine(texts, prefix) {
      StoredNone(KeptBehind(texts, prefix), "");
    }
  }

  lemma CredentialsArrive(env: Platform, lines: seq<AnswerLine>)
    requires AllWellFormed(env, lines)
    ensures var q, texts := AfterAll(env, lines, FRESH), Texts(lines);
            q.Some? ==>
              && (forall u :: OnlyKeptLine(texts, "a=ice-ufrag:", u) ==> q.value.ufrag == texts[u][12..])
              && (forall p :: OnlyKeptLine(texts, "a=ice-pwd:", p) ==> q.value.pwd == texts[p][10..])
              && (NoKeptLine(texts, "a=ice-ufrag:") ==> q.value.ufrag == "")
              && (NoKeptLine(texts, "a=ice-pwd:") ==> q.value.pwd == "")
  {
    hide AfterAll, Stored, KeptBehind, OnlyKeptLine, NoKeptLine;
    AfterAllStores(env, lines, FRESH);
    KeptOnce(Texts(lines), UFRAG_START);
    KeptOnce(Texts(lines), PWD_START);
  }

  // ---- The candidates, in terms of the answer's lines ----

  /** A UDP host or relay candidate line in which no foreign hash stands. */
  predicate Qualifies(line: AnswerLine): (r: bool)
    ensures r ==> line.CandidateLine?
  {
    && line.CandidateLine?
    && !Stands("sha-384", line.Text()) && !Stands("sha-512", line.Text())
    && ("UDP" <= line.transport || "udp" <= line.transport)
    && (line.kind == "host" || line.kind == "relay")
  }

  /** What such a line gives the device: type relay, and every other field as in the line. */
  function Relayed(env: Platform, line: AnswerLine): Candidate
    requires line.CandidateLine? && line.WellFormed(env)
  {
    Candidate(line.foundation, line.component, line.priority, line.transport, RelayType,
              Address(FromText(env, line.address).value, line.port), Address(V4(0, 0, 0, 0), 0))
  }

  lemma OfferSpelledOut(env: Platform, line: AnswerLine)
    requires line.WellFormed(env)
    ensures Qualifies(line) ==> line.CandidateLine? && Relayed(env, line).foundation == line.foundation
    ensures Offer(env, line) == if Qualifies(line) then [Relayed(env, line)] else []
  {
    ForeignHashStands(line.Text());
    hide IsForeignHash, Stands;
  }

  /** The first qualifying line of each foundation. */
  function FirstLines(lines: seq<AnswerLine>): (from: seq<nat>)
    ensures forall j :: 0 <= j < |from| ==> from[j] < |lines|
  {
    if lines == [] then []
    else
      var n := |lines| - 1;
      FirstLines(lines[..n]) + if IsFirst(lines, n) then [n] else []
  }

  predicate IsFirst(lines: seq<AnswerLine>, k: nat)
    requires k < |lines|
  {
    && Qualifies(lines[k])
    && forall j :: 0 <= j < k && Qualifies(lines[j]) ==> lines[j].foundation != lines[k].foundation
  }

  lemma {:induction false} FirstLinesAre(lines: seq<AnswerLine>)
    ensures var from := FirstLines(lines);
            && (forall i, j :: 0 <= i < j < |from| ==> from[i] < from[j])
            && (forall k :: 0 <= k < |lines| ==> (k in from <==> IsFirst(lines, k)))
  {
    hide *;
    FirstLinesUnfold(lines);
    if lines != [] {
      var n := |lines| - 1;
      var from := FirstLines(lines[..n]);
      FirstLinesAre(lines[..n]);
      forall k | 0 <= k < n ensures k in FirstLines(lines) <==> IsFirst(lines, k) {
        FirstInPrefix(lines, n, k);
        assert k in from + [n] <==> k in from;
      }
    }
  }

  lemma FirstLinesUnfold(lines: seq<AnswerLine>)
    ensures lines == [] ==> FirstLines(lines) == []
    ensures lines != [] ==>
      var n := |lines| - 1;
      FirstLines(lines) == FirstLines(lines[..n]) + if IsFirst(lines, n) then [n] else []
  {
    hide IsFirst;
  }

  lemma FirstInPrefix(lines: seq<AnswerLine>, n: nat, k: nat)
    requires k < n <= |lines|
    ensures IsFirst(lines[..n], k) == IsFirst(lines, k)
  {
    hide Qualifies;
    assert forall j :: 0 <= j <= k ==> lines[..n][j] == lines[j];
  }

  predicate HasQualified(lines: seq<AnswerLine>, f: string) {
    exists j :: 0 <= j < |lines| && Qualifies(lines[j]) && lines[j].foundation == f
  }

  lemma HasQualifiedStep(lines: seq<AnswerLine>, f: string)
    requires lines != []
    ensures var n := |lines| - 1;
            HasQualified(lines, f) <==> HasQualified(lines[..n], f) || (Qualifies(lines[n]) && lines[n].foundation == f)
  {
    hide Qualifies;
    var n := |lines| - 1;
    if HasQualified(lines[..n], f) {
      var j :| 0 <= j < n && Qualifies(lines[..n][j]) && lines[..n][j].foundation == f;
      assert lines[j] == lines[..n][j];
    }
    if HasQualified(lines, f) {
      var j :| 0 <= j < |lines| && Qualifies(lines[j]) && lines[j].foundation == f;
      assert j < n ==> lines[..n][j] == lines[j];
    }
  }

  lemma OffersUnfold(env: Platform, lines: seq<AnswerLine>)
    requires AllWellFormed(env, lines) && lines != []
    ensures var n := |lines| - 1;
            Offers(env, lines) == Offers(env, lines[..n]) + Offer(env, lines[n])
  {
    hide Offer;
  }

  lemma {:induction false} OffersKnow(env: Platform, lines: seq<AnswerLine>, f: string)
    requires AllWellFormed(env, lines)
    ensures KnownFoundation(Offers(env, lines), f) <==> HasQualified(lines, f)
  {
    if lines != [] {
      var n := |lines| - 1;
      var init, last := lines[..n], lines[n];
      OffersKnow(env, init, f);
      OffersUnfold(env, lines);
      OfferSpelledOut(env, last);
      HasQualifiedStep(lines, f);
      hide Qualifies, Offer, Offers, KnownFoundation, HasQualified, Relayed;
      if Qualifies(last) {
        KnownAppend(Offers(env, init), Relayed(env, last), f);
      } else {
        assert Offers(env, init) + [] == Offers(env, init);
      }
    }
  }

  lemma LastIsFirst(env: Platform, lines: seq<AnswerLine>)
    requires AllWellFormed(env, lines) && lines != []
    ensures var n := |lines| - 1;
            IsFirst(lines, n) <==>
              Qualifies(lines[n]) && !KnownFoundation(FirstPerFoundation(Offers(env, lines[..n])), lines[n].foundation)
  {
    var n := |lines| - 1;
    if Qualifies(lines[n]) {
      var f := lines[n].foundation;
      OffersKnow(env, lines[..n], f);
      AddAllIsFirstPerFoundation(Offers(env, lines[..n]));
      hide Stands, FirstPerFoundation, Offers, KnownFoundation;
      assert forall j :: 0 <= j < n ==> lines[..n][j] == lines[j];
    }
  }

  /** Candidate by candidate, what the numbered lines give the device. */
  predicate ComeFrom(env: Platform, lines: seq<AnswerLine>, cs: seq<Candidate>, from: seq<nat>) {
    && |cs| == |from|
    && forall j :: 0 <= j < |from| ==>
         && from[j] < |lines| && lines[from[j]].CandidateLine? && lines[from[j]].WellFormed(env)
         && cs[j] == Relayed(env, lines[from[j]])
  }

  lemma ComeFromLonger(env: Platform, lines: seq<AnswerLine>, n: nat, cs: seq<Candidate>, from: seq<nat>)
    requires n <= |lines| && ComeFrom(env, lines[..n], cs, from)
    ensures ComeFrom(env, lines, cs, from)
  {
    hide Relayed, AnswerLine.WellFormed;
    assert forall j :: 0 <= j < n ==> lines[..n][j] == lines[j];
  }

  lemma ComeFromOneMore(env: Platform, lines: seq<AnswerLine>, cs: seq<Candidate>, from: seq<nat>, k: nat)
    requires ComeFrom(env, lines, cs, from) && k < |lines| && lines[k].CandidateLine? && lines[k].WellFormed(env)
    ensures ComeFrom(env, lines, cs + [Relayed(env, lines[k])], from + [k])
  {
    hide Relayed, AnswerLine.WellFormed;
  }

  /** The offered candidates are those of the first qualifying lines, in order. */
  lemma {:induction false} OffersAreFirstLines(env: Platform, lines: seq<AnswerLine>)
    requires AllWellFormed(env, lines)
    ensures ComeFrom(env, lines, FirstPerFoundation(Offers(env, lines)), FirstLines(lines))
  {
    if lines != [] {
      var n := |lines| - 1;
      OneMoreLine(env, lines);
      hide *;
      OffersAreFirstLines(env, lines[..n]);
      var cs, from := FirstPerFoundation(Offers(env, lines[..n])), FirstLines(lines[..n]);
      ComeFromLonger(env, lines, n, cs, from);
      if IsFirst(lines, n) {
        ComeFromOneMore(env, lines, cs, from, n);
      } else {
        assert cs + [] == cs && from + [] == from;
      }
    }
  }

  lemma OneMoreLine(env: Platform, lines: seq<AnswerLine>)
    requires AllWellFormed(env, lines) && lines != []
    ensures var n := |lines| - 1;
            var cs := FirstPerFoundation(Offers(env, lines[..n]));
            && AllWellFormed(env, lines[..n])
            && (IsFirst(lines, n) ==> lines[n].CandidateLine? && lines[n].WellFormed(env))
            && FirstLines(lines) == FirstLines(lines[..n]) + (if IsFirst(lines, n) then [n] else [])
            && FirstPerFoundation(Offers(env, lines)) == cs + if IsFirst(lines, n) then [Relayed(env, lines[n])] else []
  {
    var n := |lines| - 1;
    var cs := FirstPerFoundation(Offers(env, lines[..n]));
    OfferIsAdded(env, lines);
    OfferSpelledOut(env, lines[n]);
    LastIsFirst(env, lines);
    OfferAdds(env, lines[n], cs);
    assert IsFirst(lines, n) ==> Qualifies(lines[n]);
    hide Qualifies, IsFirst, Offer, FirstPerFoundation, Offers, AddAll, KnownFoundation, Relayed;
    assert cs + [] == cs;
  }

  /** What room a line needs, in numbers: 256 characters a credential, 32 characters foundation and
      transport, 45 the address, 15 the type word, 31 and 32 bits for the numbers, ten foundations. */
  lemma RoomSpelledOut(env: Platform, lines: seq<AnswerLine>, k: nat)
    requires AllWellFormed(env, lines) && k < |lines|
    ensures var line := lines[k];
            HasRoom(env, lines, k) <==>
              || Stands("sha-384", line.Text()) || Stands("sha-512", line.Text())
              || (&& line.OtherLine?
                  && ("a=ice-ufrag:" <= line.text ==> |line.text| <= 12 + 256)
                  && ("a=ice-pwd:" <= line.text ==> |line.text| <= 10 + 256))
              || (line.CandidateLine? && line.kind != "host" && line.kind != "relay")
              || (&& line.CandidateLine?
                  && |line.foundation| <= 32 && line.component < 0x8000_0000 && |line.transport| <= 32
                  && line.priority < 0x1_0000_0000 && |line.address| <= 45
                  && 5 + WordLength(MungedTail(line)) <= 15
                  && |FirstLines(lines[..k])| < 10)
  {
    ForeignHashStands(lines[k].Text());
    OffersAreFirstLines(env, lines[..k]);
    hide IsForeignHash, Stands, FirstPerFoundation, Offers, FirstLines, MungedTail, WordLength, Relayed;
  }

  // ---- End to end ----

  /** End to end: the device takes the rewritten form of an answer with well-formed candidate lines
      exactly when everything it stores has room. Then a fresh device has the answer's credentials,
      and exactly the candidates of its lines `from`: the UDP host and relay candidates, the first of
      each foundation, in order, with component, priority, address and port unchanged and every type
      relay. */
  lemma MungeEndToEnd(env: Platform, sdp: string, lines: seq<AnswerLine>) returns (from: seq<nat>)
    requires SplitLines(sdp) == Texts(lines) && AllWellFormed(env, lines)
    ensures forall i, j :: 0 <= i < j < |from| ==> from[i] < from[j]
    ensures forall j :: 0 <= j < |from| ==> from[j] < |lines|
    ensures forall k :: 0 <= k < |lines| ==> (k in from <==> IsFirst(lines, k))
    ensures var texts := Texts(lines);
            match ReadRemote(env, Munged(sdp), FRESH)
            case None => !AllHaveRoom(env, lines)
            case Some(r) =>
              && AllHaveRoom(env, lines)
              && |r.candidates| == |from|
              && (forall j :: 0 <= j < |from| ==>
                    && lines[from[j]].CandidateLine?
                    && var line := lines[from[j]];
                       r.candidates[j] == Candidate(line.foundation, line.component, line.priority, line.transport, RelayType,
                                                    Address(FromText(env, line.address).value, line.port), Address(V4(0, 0, 0, 0), 0)))
              && (forall u :: OnlyKeptLine(texts, "a=ice-ufrag:", u) ==> r.ufrag == texts[u][12..])
              && (forall p :: OnlyKeptLine(texts, "a=ice-pwd:", p) ==> r.pwd == texts[p][10..])
              && (NoKeptLine(texts, "a=ice-ufrag:") ==> r.ufrag == "")
              && (NoKeptLine(texts, "a=ice-pwd:") ==> r.pwd == "")
  {
    hide ReadRemote, Munged, MungeLines, Terminated, AllHaveRoom, AfterAll, SplitLines, FirstPerFoundation, Offers,
      OnlyKeptLine, NoKeptLine, IsFirst, FirstLines, FromText;
    from := FirstLines(lines);
    FirstLinesAre(lines);
    OffersAreFirstLines(env, lines);
    ReadsMunged(env, sdp, FRESH);
    LinesWithoutBreaks(sdp, lines);
    ReadsMungedLines(env, lines, FRESH);
    AfterAllIs(env, lines, FRESH);
    CredentialsArrive(env, lines);
  }

  // ---- An answer the device cannot take ----

  /** Text that neither ends a line nor names a hash. */
  predicate Plain(s: string) {
    forall c :: c in s ==> !IsLineBreak(c) && c != '-'
  }

  lemma SplitsLine(line: string, rest: string)
    requires Plain(line)
    ensures SplitLines(line + CRLF + rest) == [line] + SplitLines(rest)
  {
    var s := line + CRLF + rest;
    assert forall k :: 0 <= k < |line| ==> s[k] == line[k] && line[k] in line;
    assert s[|line|] == '\r' && IsLineBreak('\r');
    LineLengthIs(s, |line|);
    assert s[|line|..][..2] == CRLF && s[|line|..][2..] == rest;
    assert FirstLine(s) == line && RestAfter(s) == rest;
    SplitUnfolds(s);
  }

  lemma {:induction false} SplitsTerminated(lines: seq<string>)
    requires forall k :: 0 <= k < |lines| ==> Plain(lines[k])
    ensures SplitLines(Terminated(lines)) == lines
  {
    if lines != [] {
      hide Plain, SplitLines;
      SplitsLine(lines[0], Terminated(lines[1..]));
      SplitsTerminated(lines[1..]);
    }
  }

  lemma PrefixHas(text: string, ch: char, s: string)
    requires ch in text && text <= s
    ensures ch in s
  {
    var k :| 0 <= k < |text| && text[k] == ch;
    assert s[k] == ch;
  }

  lemma {:induction false} AbsentIn(text: string, ch: char, s: string)
    requires ch in text && ch !in s
    ensures !Occurs(Literal(text), s)
  {
    if s != "" {
      if text <= s {
        PrefixHas(text, ch, s);
      }
      AbsentIn(text, ch, s[1..]);
    }
  }

  lemma PlainSpaced(w: string, rest: string)
    requires Plain(w) && Plain(rest)
    ensures Plain(Spaced(w, rest))
  {
  }

  lemma PlainAppend(a: string, b: string)
    requires Plain(a) && Plain(b)
    ensures Plain(a + b)
  {
  }

  lemma PlainDecimal(n: nat)
    ensures Plain(Decimal(n))
  {
  }

  lemma PlainLiteral(address: string)
    requires IsLiteralText(address)
    ensures Plain(address)
  {
    forall c | c in address ensures !IsLineBreak(c) && c != '-' {
      assert IsHexDigit(c) || c == '.' || c == ':';
    }
  }

  /** A host candidate numbered `n`. */
  function HostLine(n: nat, address: string): AnswerLine {
    CandidateLine(Decimal(n), 1, "udp", 1, address, 9, "host", "")
  }

  /** Ten candidates of different foundations, and one that repeats the first. */
  function TenAndARepeat(address: string): (lines: seq<AnswerLine>)
    ensures |lines| == 11 && forall k :: 0 <= k < 11 ==> lines[k] == HostLine(k % 10, address)
  {
    seq(11, k requires 0 <= k < 11 => HostLine(k % 10, address))
  }

  lemma HostLineIsPlain(n: nat, address: string)
    requires IsLiteralText(address)
    ensures Plain(HostLine(n, address).Text())
  {
    hide Plain, Decimal;
    PlainWords();
    PlainDecimal(n);
    PlainDecimal(1);
    PlainDecimal(9);
    PlainLiteral(address);
    var s7 := Spaced("host", "");
    var s6 := Spaced("typ", s7);
    var s5 := Spaced(Decimal(9), s6);
    var s4 := Spaced(address, s5);
    var s3 := Spaced(Decimal(1), s4);
    var s2 := Spaced("udp", s3);
    var s1 := Spaced(Decimal(1), s2);
    PlainSpaced("host", "");
    PlainSpaced("typ", s7);
    PlainSpaced(Decimal(9), s6);
    PlainSpaced(address, s5);
    PlainSpaced(Decimal(1), s4);
    PlainSpaced("udp", s3);
    PlainSpaced(Decimal(1), s2);
    PlainAppend(Decimal(n), s1);
    PlainAppend(LINE_START, Decimal(n) + s1);
  }

  lemma PlainWords()
    ensures Plain("") && Plain("host") && Plain("typ") && Plain("udp") && Plain(LINE_START)
  {
  }

  lemma HostLineOffers(env: Platform, n: nat, ip: Ip)
    requires ip.V4?
    ensures var line := HostLine(n, Ip4Text(ip));
            && line.WellFormed(env) && !IsForeignHash(line.Text())
            && |Offer(env, line)| == 1 && Offer(env, line)[0].foundation == Decimal(n)
  {
    var address := Ip4Text(ip);
    var text := HostLine(n, address).Text();
    Ip4TextIsLiteral(ip);
    Ip4RoundTrip(ip);
    HostLineIsPlain(n, address);
    AbsentIn("sha-384", '-', text);
    AbsentIn("sha-512", '-', text);
  }

  lemma {:induction false} OffersInOrder(env: Platform, lines: seq<AnswerLine>)
    requires AllWellFormed(env, lines)
    requires forall k :: 0 <= k < |lines| ==> |Offer(env, lines[k])| == 1 && Offer(env, lines[k])[0].foundation == Decimal(k)
    ensures |Offers(env, lines)| == |lines|
    ensures forall k :: 0 <= k < |lines| ==> Offers(env, lines)[k].foundation == Decimal(k)
  {
    hide Offer;
    if lines != [] {
      OffersInOrder(env, lines[..|lines| - 1]);
    }
  }

  lemma NumberedAreKept(cs: seq<Candidate>)
    requires forall k :: 0 <= k < |cs| ==> cs[k].foundation == Decimal(k)
    ensures FirstPerFoundation(cs) == cs
  {
    forall i, j | 0 <= i < j < |cs| ensures cs[i].foundation != cs[j].foundation {
      DecimalInjective(i, j);
    }
    AddAllKeeps([], cs);
    AddAllIsFirstPerFoundation(cs);
    assert [] + cs == cs;
  }

  lemma HostTextsSplit(lines: seq<AnswerLine>, address: string)
    requires IsLiteralText(address) && lines == TenAndARepeat(address)
    ensures SplitLines(Terminated(Texts(lines))) == Texts(lines)
  {
    hide Plain, SplitLines, Terminated, HostLine;
    forall k | 0 <= k < 11 ensures Plain(Texts(lines)[k]) {
      HostLineIsPlain(k % 10, address);
    }
    SplitsTerminated(Texts(lines));
  }

  lemma NoSlotLeft(env: Platform, lines: seq<AnswerLine>, k: nat)
    requires AllWellFormed(env, lines) && k < |lines|
    requires |FirstPerFoundation(Offers(env, lines[..k]))| >= MAX_CANDIDATES
    requires lines[k].CandidateLine? && lines[k].kind == "host" && !IsForeignHash(lines[k].Text())
    ensures !AllHaveRoom(env, lines)
  {
    hide FirstPerFoundation, Offers, FieldsFit, IsForeignHash;
    assert !HasRoom(env, lines, k);
  }

  lemma TenOffers(env: Platform, lines: seq<AnswerLine>)
    requires |lines| == 10 && AllWellFormed(env, lines)
    requires forall k :: 0 <= k < |lines| ==> |Offer(env, lines[k])| == 1 && Offer(env, lines[k])[0].foundation == Decimal(k)
    ensures |FirstPerFoundation(Offers(env, lines))| == MAX_CANDIDATES
  {
    hide Offer, Decimal;
    OffersInOrder(env, lines);
    NumberedAreKept(Offers(env, lines));
  }

  lemma HostLinesOffer(env: Platform, ip: Ip)
    requires ip.V4?
    ensures var lines := TenAndARepeat(Ip4Text(ip));
            forall k :: 0 <= k < 11 ==>
              && lines[k].WellFormed(env) && !IsForeignHash(lines[k].Text())
              && |Offer(env, lines[k])| == 1 && Offer(env, lines[k])[0].foundation == Decimal(k % 10)
  {
    hide Offer, IsForeignHash, Decimal, Ip4Text, HostLine;
    var lines := TenAndARepeat(Ip4Text(ip));
    forall k | 0 <= k < 11
      ensures lines[k].WellFormed(env) && !IsForeignHash(lines[k].Text())
      ensures |Offer(env, lines[k])| == 1 && Offer(env, lines[k])[0].foundation == Decimal(k % 10)
    {
      HostLineOffers(env, k % 10, ip);
    }
  }

  /** For example, an eleventh candidate line that only repeats a foundation: it would not be counted,
      but there is no slot left to parse it into. */
  lemma RepeatBehindTen(env: Platform, ip: Ip)
    requires ip.V4?
    ensures var lines := TenAndARepeat(Ip4Text(ip));
            var sdp := Terminated(Texts(lines));
            && SplitLines(sdp) == Texts(lines) && AllWellFormed(env, lines)
            && ReadRemote(env, Munged(sdp), FRESH) == None
  {
    hide *;
    var lines := TenAndARepeat(Ip4Text(ip));
    HostLinesOffer(env, ip);
    Ip4TextIsLiteral(ip);
    HostTextsSplit(lines, Ip4Text(ip));
    AllWellFormedIs(env, lines);
    AllWellFormedIs(env, lines[..10]);
    TenOffers(env, lines[..10]);
    LastIsHost(Ip4Text(ip));
    NoSlotLeft(env, lines, 10);
    var from := MungeEndToEnd(env, Terminated(Texts(lines)), lines);
  }

  lemma AllWellFormedIs(env: Platform, lines: seq<AnswerLine>)
    ensures AllWellFormed(env, lines) <==> forall k :: 0 <= k < |lines| ==> lines[k].WellFormed(env)
  {
  }

  lemma LastIsHost(address: string)
    ensures TenAndARepeat(address)[10].CandidateLine? && TenAndARepeat(address)[10].kind == "host"
  {
  }
}
