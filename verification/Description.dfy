/** The session description as `agent.c` writes and reads it: the local candidate list is printed
    line by line, a received text is taken apart line by line into credentials and a candidate
    list without repeated foundations. */
module Description {
  import opened Options
  import opened Text
  import opened Address
  import opened Candidates

  const CRLF := "\r\n"

  // ---- Gathering ----

  /** One attempt to gather: a candidate is found, or a network interface has no address. */
  datatype Source = Found(kind: CandidateType, addr: Address) | NoAddress

  /** IPv4 sources of the three kinds that are gathered. */
  predicate Gatherable(sources: seq<Source>) {
    forall k :: 0 <= k < |sources| && sources[k].Found? ==>
      sources[k].kind != PrflxType && sources[k].addr.ip.V4? && sources[k].addr.port < 0x1_0000
  }

  /** A host candidate is numbered by the list length before it is added, the others by the
      length after it. */
  function FoundationNumber(kind: CandidateType, index: nat): nat {
    if kind == HostType then index else index + 1
  }

  /** The list after one attempt, `None` when its slot would lie behind the last: the slot is
      written before an interface without an address is given up. */
  function GatherNext(cs: seq<Candidate>, source: Source): Option<seq<Candidate>>
    requires source.Found? ==> source.addr.port < 0x1_0000
  {
    if |cs| >= MAX_CANDIDATES then None
    else if source.NoAddress? then Some(cs)
    else Some(cs + [Create(FoundationNumber(source.kind, |cs|), source.kind, source.addr)])
  }

  function Gather(sources: seq<Source>): (r: Option<seq<Candidate>>)
    requires Gatherable(sources)
  {
    if sources == [] then Some([])
    else
      match Gather(sources[..|sources| - 1])
      case None => None
      case Some(cs) => GatherNext(cs, sources[|sources| - 1])
  }

  /** The sources that give a candidate. */
  function FoundIn(sources: seq<Source>): (found: seq<Source>)
    ensures |found| <= |sources|
    ensures forall k :: 0 <= k < |found| ==> found[k].Found?
    ensures (forall k :: 0 <= k < |sources| ==> sources[k].Found?) ==> found == sources
    ensures Gatherable(sources) ==> Gatherable(found)
  {
    if sources == [] then []
    else
      var n := |sources| - 1;
      assert sources == sources[..n] + [sources[n]];
      FoundIn(sources[..n]) + if sources[n].Found? then [sources[n]] else []
  }

  /** Some attempt stands behind ten candidates. */
  predicate Overfull(sources: seq<Source>) {
    exists k :: 0 <= k < |sources| && |FoundIn(sources[..k])| >= MAX_CANDIDATES
  }

  lemma OverfullStep(sources: seq<Source>)
    requires sources != []
    ensures var n := |sources| - 1;
            Overfull(sources) <==> Overfull(sources[..n]) || |FoundIn(sources[..n])| >= MAX_CANDIDATES
  {
    hide FoundIn;
    var n := |sources| - 1;
    assert forall k :: 0 <= k < n ==> sources[..n][..k] == sources[..k];
  }

  /** Gathering stays within the ten slots exactly when no attempt stands behind ten candidates, and
      then numbers what is found. */
  lemma {:induction false} GatherFits(sources: seq<Source>)
    requires Gatherable(sources)
    ensures Gather(sources).Some? <==> !Overfull(sources)
    ensures Gather(sources).Some? ==>
      var cs := Gather(sources).value;
      var found := FoundIn(sources);
      && |cs| == |found| <= MAX_CANDIDATES
      && forall k :: 0 <= k < |cs| ==>
           && cs[k].foundation == Decimal(if found[k].kind == HostType then k else k + 1)
           && cs[k].kind == found[k].kind && cs[k].addr == found[k].addr
           && cs[k].component == 1 && cs[k].transport == "UDP" && cs[k].raddr == ZERO
           && cs[k].priority == Priority(found[k].kind, found[k].addr.port, 1)
  {
    if sources != [] {
      OverfullStep(sources);
      GatherFits(sources[..|sources| - 1]);
    }
  }

  lemma {:induction false} OverfullWhenAllFound(sources: seq<Source>)
    requires forall k :: 0 <= k < |sources| ==> sources[k].Found?
    ensures Overfull(sources) <==> |sources| > MAX_CANDIDATES
  {
    hide FoundIn;
    assert forall k :: 0 <= k < |sources| ==> FoundIn(sources[..k]) == sources[..k];
    if |sources| > MAX_CANDIDATES {
      assert |FoundIn(sources[..MAX_CANDIDATES])| == MAX_CANDIDATES;
    }
  }

  // ---- Printing the local list ----

  function Render(env: Platform, cs: seq<Candidate>): string {
    if cs == [] then "" else ToDescription(env, cs[0]) + Render(env, cs[1..])
  }

  lemma {:induction false} RenderAppend(env: Platform, cs: seq<Candidate>, c: Candidate)
    ensures Render(env, cs + [c]) == Render(env, cs) + ToDescription(env, c)
  {
    if cs == [] {
      assert cs + [c] == [c];
      assert Render(env, [c][1..]) == "";
    } else {
      assert (cs + [c])[1..] == cs[1..] + [c];
      RenderAppend(env, cs[1..], c);
      Associative(ToDescription(env, cs[0]), Render(env, cs[1..]), ToDescription(env, c));
    }
  }

  // ---- Reading a description ----

  datatype Remote = Remote(ufrag: string, pwd: string, candidates: seq<Candidate>)

  /** A freshly created agent. */
  const FRESH := Remote("", "", [])

  /** `strncpy` of `|s|` characters into a zero-filled buffer that held `was`: no terminator is
      written, so a longer old text keeps its tail. */
  function Overwrite(was: string, s: string): string {
    if |s| < |was| then s + was[|s|..] else s
  }

  predicate KnownFoundation(cs: seq<Candidate>, foundation: string) {
    exists k :: 0 <= k < |cs| && cs[k].foundation == foundation
  }

  function AddCandidate(cs: seq<Candidate>, c: Candidate): seq<Candidate> {
    if KnownFoundation(cs, c.foundation) then cs else cs + [c]
  }

  const UFRAG_START := "a=ice-ufrag:"
  const PWD_START := "a=ice-pwd:"

  lemma PrefixInLine(prefix: string, text: string, end: nat)
    requires end < |text| && text[end] == '\r' && prefix <= text && '\r' !in prefix
    ensures |prefix| <= end
  {
    assert forall k :: 0 <= k < |prefix| ==> prefix[k] in prefix && prefix[k] == text[k];
  }

  /** What a credential field holds beside its terminator. */
  const CREDENTIAL_MAX: nat := 256

  function WithCandidates(r: Remote, cs: Option<seq<Candidate>>): Option<Remote> {
    match cs
    case None => None
    case Some(cs) => Some(r.(candidates := cs))
  }

  /** A candidate line is parsed into the slot behind the counted ones, before it is decided
      whether it counts. Behind the last slot there is none, so as soon as the scan finds a first
      word to store, the outcome is `None`. */
  function ReadCandidateLine(env: Platform, text: string, cs: seq<Candidate>): Option<seq<Candidate>>
    requires LINE_START <= text
  {
    if |cs| >= MAX_CANDIDATES && ScanWord(BodyOf(text)).Read? then None
    else
      match FromDescription(env, text)
      case Undefined => None
      case Refused => Some(cs)
      case Taken(c) => Some(AddCandidate(cs, c))
  }

  /** One line of the loop; the line runs from the start of `text` to the line end at `end`. `None`
      when something is stored that its field or its array cannot hold. */
  function ReadLine(env: Platform, text: string, end: nat, r: Remote): Option<Remote>
    requires end < |text| && text[end] == '\r'
  {
    if UFRAG_START <= text then
      PrefixInLine(UFRAG_START, text, end);
      var ufrag := text[|UFRAG_START|..end];
      if |ufrag| > CREDENTIAL_MAX then None else Some(r.(ufrag := Overwrite(r.ufrag, ufrag)))
    else if PWD_START <= text then
      PrefixInLine(PWD_START, text, end);
      var pwd := text[|PWD_START|..end];
      if |pwd| > CREDENTIAL_MAX then None else Some(r.(pwd := Overwrite(r.pwd, pwd)))
    else if LINE_START <= text then WithCandidates(r, ReadCandidateLine(env, text, r.candidates))
    else Some(r)
  }

  /** `agent_set_remote_description`: text behind the last line end is not looked at. */
  function ReadRemote(env: Platform, text: string, r: Remote): Option<Remote>
    decreases |text|
  {
    match Find(text, CRLF)
    case None => Some(r)
    case Some(end) =>
      assert text[end..][0] == '\r';
      match ReadLine(env, text, end, r)
      case None => None
      case Some(next) => ReadRemote(env, text[end + 2..], next)
  }

  /** Reading on from an outcome so far. */
  function ReadOn(env: Platform, text: string, r: Option<Remote>): Option<Remote> {
    match r
    case None => None
    case Some(r) => ReadRemote(env, text, r)
  }

  /** A whole line is handled by itself, and reading goes on behind its end. */
  lemma ReadsLine(env: Platform, line: string, rest: string, r: Remote)
    requires '\r' !in line
    ensures var text := line + CRLF + rest;
            && text[|line|] == '\r'
            && ReadRemote(env, text, r) == ReadOn(env, rest, ReadLine(env, text, |line|, r))
  {
    var text := line + CRLF + rest;
    FindAfter(line, CRLF, rest);
    assert text[|line| + 2..] == rest;
  }

  // ---- Credentials ----

  /** Lines, each with its line end. */
  function Terminated(lines: seq<string>): string {
    if lines == [] then "" else lines[0] + CRLF + Terminated(lines[1..])
  }

  lemma {:induction false} JoinTerminates(lines: seq<string>)
    requires lines != []
    ensures Join(CRLF, lines) + CRLF == Terminated(lines)
  {
    if |lines| == 1 {
      assert Terminated(lines[1..]) == "";
    } else {
      JoinTerminates(lines[1..]);
      Associative(lines[0] + CRLF, Join(CRLF, lines[1..]), CRLF);
    }
  }

  lemma {:induction false} TerminatedAppend(xs: seq<string>, ys: seq<string>)
    ensures Terminated(xs + ys) == Terminated(xs) + Terminated(ys)
  {
    if xs == [] {
      assert xs + ys == ys;
    } else {
      assert (xs + ys)[1..] == xs[1..] + ys;
      TerminatedAppend(xs[1..], ys);
      Associative(xs[0] + CRLF, Terminated(xs[1..]), Terminated(ys));
    }
  }

  lemma PrefixOfLine(prefix: string, line: string, rest: string)
    requires '\r' !in line && '\r' !in prefix
    ensures prefix <= line + CRLF + rest <==> prefix <= line
  {
    var text := line + CRLF + rest;
    if prefix <= text {
      assert text[|line|] == '\r';
      PrefixInLine(prefix, text, |line|);
      assert text[..|prefix|] == line[..|prefix|];
    }
    if prefix <= line {
      assert text[..|prefix|] == line[..|prefix|];
    }
  }

  /** What a field holds after some of the texts in a list have been stored in it, in order. */
  function Stored(texts: seq<Option<string>>, was: string): string {
    if texts == [] then was
    else
      var n := |texts| - 1;
      match texts[n]
      case None => Stored(texts[..n], was)
      case Some(t) => Overwrite(Stored(texts[..n], was), t)
  }

  lemma {:induction false} StoredNone(texts: seq<Option<string>>, was: string)
    requires forall k :: 0 <= k < |texts| ==> texts[k].None?
    ensures Stored(texts, was) == was
  {
    if texts != [] {
      StoredNone(texts[..|texts| - 1], was);
    }
  }

  /** One text stored in an empty field is what the field then holds. */
  lemma {:induction false} StoredOnce(texts: seq<Option<string>>, u: nat)
    requires u < |texts| && forall k :: 0 <= k < |texts| ==> (texts[k].Some? <==> k == u)
    ensures Stored(texts, "") == texts[u].value
  {
    var n := |texts| - 1;
    if u == n {
      StoredNone(texts[..n], "");
    } else {
      StoredOnce(texts[..n], u);
    }
  }

  /** What stands behind a prefix in each line that has it. */
  function Behind(lines: seq<string>, prefix: string): (texts: seq<Option<string>>)
    ensures |texts| == |lines|
  {
    seq(|lines|, k requires 0 <= k < |lines| => if prefix <= lines[k] then Some(lines[k][|prefix|..]) else None)
  }

  lemma LineStores(env: Platform, line: string, rest: string, r: Remote)
    requires '\r' !in line && (line + CRLF + rest)[|line|] == '\r'
    ensures var next := ReadLine(env, line + CRLF + rest, |line|, r);
            next.Some? ==>
              && next.value.ufrag == (if UFRAG_START <= line then Overwrite(r.ufrag, line[|UFRAG_START|..]) else r.ufrag)
              && next.value.pwd == (if PWD_START <= line then Overwrite(r.pwd, line[|PWD_START|..]) else r.pwd)
  {
    hide ReadCandidateLine, Overwrite;
    var text := line + CRLF + rest;
    PrefixOfLine(UFRAG_START, line, rest);
    PrefixOfLine(PWD_START, line, rest);
    PrefixOfLine(LINE_START, line, rest);
    assert UFRAG_START[6] != PWD_START[6];
    if UFRAG_START <= line {
      assert text[|UFRAG_START|..|line|] == line[|UFRAG_START|..];
    }
    if PWD_START <= line {
      assert text[|PWD_START|..|line|] == line[|PWD_START|..];
    }
  }

  lemma {:induction false} StoredFromFront(t: Option<string>, texts: seq<Option<string>>, was: string)
    ensures Stored([t] + texts, was) == Stored(texts, match t case None => was case Some(x) => Overwrite(was, x))
  {
    hide Overwrite;
    if texts == [] {
      assert [t] + texts == [t] && [t][..0] == [];
      assert Stored([], was) == was;
    } else {
      var n := |texts| - 1;
      assert ([t] + texts)[..n + 1] == [t] + texts[..n];
      StoredFromFront(t, texts[..n], was);
    }
  }

  lemma {:induction false} ReadingStores(env: Platform, lines: seq<string>, tail: string, r: Remote)
    requires forall k :: 0 <= k < |lines| ==> '\r' !in lines[k]
    requires Find(tail, CRLF).None?
    ensures var q := ReadRemote(env, Terminated(lines) + tail, r);
            q.Some? ==> && q.value.ufrag == Stored(Behind(lines, UFRAG_START), r.ufrag)
                        && q.value.pwd == Stored(Behind(lines, PWD_START), r.pwd)
    decreases |lines|
  {
    if lines == [] {
      assert Terminated(lines) + tail == tail;
    } else {
      hide ReadLine, ReadRemote, Overwrite, Stored;
      var rest := Terminated(lines[1..]) + tail;
      assert Terminated(lines) + tail == lines[0] + CRLF + rest;
      ReadsLine(env, lines[0], rest, r);
      LineStores(env, lines[0], rest, r);
      BehindFront(lines, UFRAG_START);
      BehindFront(lines, PWD_START);
      StoredFromFront(Behind(lines, UFRAG_START)[0], Behind(lines[1..], UFRAG_START), r.ufrag);
      StoredFromFront(Behind(lines, PWD_START)[0], Behind(lines[1..], PWD_START), r.pwd);
      match ReadLine(env, lines[0] + CRLF + rest, |lines[0]|, r)
      case None =>
      case Some(next) => ReadingStores(env, lines[1..], tail, next);
    }
  }

  lemma BehindFront(lines: seq<string>, prefix: string)
    requires lines != []
    ensures Behind(lines, prefix) == [if prefix <= lines[0] then Some(lines[0][|prefix|..]) else None] + Behind(lines[1..], prefix)
  {
  }

  /** `u` is the one line that starts with `prefix`. */
  predicate OnlyLine(lines: seq<string>, prefix: string, u: int): (r: bool)
    ensures r ==> 0 <= u < |lines| && |prefix| <= |lines[u]|
  {
    0 <= u < |lines| && forall k :: 0 <= k < |lines| ==> (prefix <= lines[k] <==> k == u)
  }

  predicate NoLine(lines: seq<string>, prefix: string) {
    forall k :: 0 <= k < |lines| ==> !(prefix <= lines[k])
  }

  /** Whenever a fresh agent can take a description, whatever stands behind its last line end, each
      credential is the text behind its prefix in the one line that has it, and empty if there is no
      such line. */
  lemma CredentialsAreRead(env: Platform, lines: seq<string>, tail: string)
    requires forall k :: 0 <= k < |lines| ==> '\r' !in lines[k]
    requires Find(tail, CRLF).None?
    ensures var q := ReadRemote(env, Terminated(lines) + tail, FRESH);
            q.Some? ==>
              && (forall u :: OnlyLine(lines, "a=ice-ufrag:", u) ==> q.value.ufrag == lines[u][12..])
              && (forall p :: OnlyLine(lines, "a=ice-pwd:", p) ==> q.value.pwd == lines[p][10..])
              && (NoLine(lines, "a=ice-ufrag:") ==> q.value.ufrag == "")
              && (NoLine(lines, "a=ice-pwd:") ==> q.value.pwd == "")
  {
    hide Stored, ReadRemote, Overwrite;
    ReadingStores(env, lines, tail, FRESH);
    forall u | OnlyLine(lines, UFRAG_START, u) ensures Stored(Behind(lines, UFRAG_START), "") == lines[u][12..] {
      StoredOnce(Behind(lines, UFRAG_START), u);
    }
    forall p | OnlyLine(lines, PWD_START, p) ensures Stored(Behind(lines, PWD_START), "") == lines[p][10..] {
      StoredOnce(Behind(lines, PWD_START), p);
    }
    if NoLine(lines, UFRAG_START) {
      StoredNone(Behind(lines, UFRAG_START), "");
    }
    if NoLine(lines, PWD_START) {
      StoredNone(Behind(lines, PWD_START), "");
    }
  }

  /** The credentials are those that the description names, however it falls into lines and a rest
      without a line end. */
  ghost predicate CredentialsOf(text: string, ufrag: string, pwd: string) {
    forall lines: seq<string>, tail: string ::
      text == Terminated(lines) + tail && Find(tail, CRLF).None? && (forall k :: 0 <= k < |lines| ==> '\r' !in lines[k]) ==>
        && (forall u :: OnlyLine(lines, "a=ice-ufrag:", u) ==> ufrag == lines[u][12..])
        && (forall p :: OnlyLine(lines, "a=ice-pwd:", p) ==> pwd == lines[p][10..])
        && (NoLine(lines, "a=ice-ufrag:") ==> ufrag == "")
        && (NoLine(lines, "a=ice-pwd:") ==> pwd == "")
  }

  lemma ReadsCredentials(env: Platform, text: string)
    ensures var q := ReadRemote(env, text, FRESH); q.Some? ==> CredentialsOf(text, q.value.ufrag, q.value.pwd)
  {
    hide ReadRemote, OnlyLine, NoLine, Terminated, Find;
    var q := ReadRemote(env, text, FRESH);
    if q.Some? {
      forall lines: seq<string>, tail: string
        | text == Terminated(lines) + tail && Find(tail, CRLF).None? && forall k :: 0 <= k < |lines| ==> '\r' !in lines[k]
        ensures forall u :: OnlyLine(lines, "a=ice-ufrag:", u) ==> 0 <= u < |lines| && 12 <= |lines[u]| && q.value.ufrag == lines[u][12..]
        ensures forall p :: OnlyLine(lines, "a=ice-pwd:", p) ==> 0 <= p < |lines| && 10 <= |lines[p]| && q.value.pwd == lines[p][10..]
        ensures NoLine(lines, "a=ice-ufrag:") ==> q.value.ufrag == ""
        ensures NoLine(lines, "a=ice-pwd:") ==> q.value.pwd == ""
      {
        CredentialsAreRead(env, lines, tail);
      }
    }
  }

  // ---- A printed list read by a fresh agent ----

  function AddAll(cs: seq<Candidate>, more: seq<Candidate>): seq<Candidate>
    decreases |more|
  {
    if more == [] then cs else AddAll(AddCandidate(cs, more[0]), more[1..])
  }

  /** Storing candidates one by one in the slots; `None` when one comes behind ten stored ones. */
  function Store(cs: seq<Candidate>, more: seq<Candidate>): Option<seq<Candidate>>
    decreases |more|
  {
    if more == [] then Some(cs)
    else if |cs| >= MAX_CANDIDATES then None
    else Store(AddCandidate(cs, more[0]), more[1..])
  }

  lemma {:induction false} StoreFits(cs: seq<Candidate>, more: seq<Candidate>)
    requires |cs| + |more| <= MAX_CANDIDATES
    ensures Store(cs, more) == Some(AddAll(cs, more))
    decreases |more|
  {
    if more != [] {
      StoreFits(AddCandidate(cs, more[0]), more[1..]);
    }
  }

  predicate DistinctFoundations(cs: seq<Candidate>) {
    forall i, j :: 0 <= i < j < |cs| ==> cs[i].foundation != cs[j].foundation
  }

  lemma RepeatIsNotDistinct(cs: seq<Candidate>, more: seq<Candidate>)
    requires more != [] && KnownFoundation(cs, more[0].foundation)
    ensures !DistinctFoundations(cs + more)
  {
    var k :| 0 <= k < |cs| && cs[k].foundation == more[0].foundation;
    assert (cs + more)[k] == cs[k] && (cs + more)[|cs|] == more[0];
  }

  /** De-duplication keeps a list exactly when its foundations are distinct, and is strictly
      shorter otherwise. */
  lemma {:induction false} AddAllKeeps(cs: seq<Candidate>, more: seq<Candidate>)
    requires DistinctFoundations(cs)
    ensures DistinctFoundations(cs + more) ==> AddAll(cs, more) == cs + more
    ensures !DistinctFoundations(cs + more) ==> |AddAll(cs, more)| < |cs + more|
    decreases |more|
  {
    if more == [] {
      assert cs + more == cs;
    } else {
      AddAllStep(cs, more);
      hide DistinctFoundations, KnownFoundation, AddAll;
      AddAllKeeps(AddCandidate(cs, more[0]), more[1..]);
    }
  }

  lemma AddAllStep(cs: seq<Candidate>, more: seq<Candidate>)
    requires more != [] && DistinctFoundations(cs)
    ensures var next := AddCandidate(cs, more[0]);
            && AddAll(cs, more) == AddAll(next, more[1..]) && DistinctFoundations(next)
            && if KnownFoundation(cs, more[0].foundation) then !DistinctFoundations(cs + more) && |next + more[1..]| < |cs + more|
               else next + more[1..] == cs + more
  {
    if KnownFoundation(cs, more[0].foundation) {
      RepeatIsNotDistinct(cs, more);
    }
  }

  lemma SpacedWithout(ch: char, w: string, rest: string)
    requires ch != ' ' && ch !in w && ch !in rest
    ensures ch !in Spaced(w, rest)
  {
  }

  lemma BodyWithout(ch: char, foundation: string, component: nat, transport: string, priority: nat, address: string, port: nat, rest: string)
    requires IsSpace(ch) && ch != ' '
    requires ch !in foundation && ch !in transport && ch !in address && ch !in rest
    ensures ch !in Body(foundation, component, transport, priority, address, port, rest)
  {
    var s5 := Spaced(Decimal(port), rest);
    var s4 := Spaced(address, s5);
    var s3 := Spaced(Decimal(priority), s4);
    var s2 := Spaced(transport, s3);
    SpacedWithout(ch, Decimal(port), rest);
    SpacedWithout(ch, address, s5);
    SpacedWithout(ch, Decimal(priority), s4);
    SpacedWithout(ch, transport, s3);
    SpacedWithout(ch, Decimal(component), s2);
  }

  lemma TypeTextIsLine(env: Platform, c: Candidate)
    requires c.raddr.ip.V4?
    ensures '\r' !in TypeText(env, c)
  {
    Ip4TextIsLiteral(c.raddr.ip);
    LiteralIsWord(ToText(env, c.raddr.ip));
  }

  /** A printed candidate is one line. */
  lemma DescriptionIsLine(env: Platform, c: Candidate) returns (line: string)
    requires Printable(c)
    ensures '\r' !in line && ToDescription(env, c) == line + CRLF
  {
    hide Body, TypeText, ToText;
    var kind := TypeText(env, c);
    var address := ToText(env, c.addr.ip);
    var end := Spaced("typ", Spaced(kind, ""));
    TypeTextIsLine(env, c);
    AddressIsWord(env, c.addr.ip);
    BodyWithout('\r', c.foundation, c.component, c.transport, c.priority, address, c.addr.port, end);
    BodyAppend(c.foundation, c.component, c.transport, c.priority, address, c.addr.port, end, CRLF);
    assert "" + CRLF == "\r\n";
    SpacedAppend(kind, "", CRLF);
    SpacedAppend("typ", Spaced(kind, ""), CRLF);
    line := StartLine(Body(c.foundation, c.component, c.transport, c.priority, address, c.addr.port, end));
  }

  lemma StartLine(body: string) returns (line: string)
    requires '\r' !in body
    ensures line == LINE_START + body && '\r' !in line
    ensures line + CRLF == LINE_START + (body + CRLF)
  {
    line := LINE_START + body;
  }

  lemma ReadsCandidateLine(env: Platform, line: string, rest: string, r: Remote)
    requires '\r' !in line && LINE_START <= line + CRLF + rest
    ensures ReadRemote(env, line + CRLF + rest, r)
         == ReadOn(env, rest, WithCandidates(r, ReadCandidateLine(env, line + CRLF + rest, r.candidates)))
  {
    hide ReadCandidateLine, ReadRemote;
    var text := line + CRLF + rest;
    assert text[2] == LINE_START[2];
    ReadsLine(env, line, rest, r);
  }

  lemma ReadsDescription(env: Platform, c: Candidate, rest: string, r: Remote)
    requires Printable(c) && c.raddr == ZERO
    ensures ReadRemote(env, ToDescription(env, c) + rest, r)
         == if |r.candidates| >= MAX_CANDIDATES then None
            else ReadRemote(env, rest, r.(candidates := AddCandidate(r.candidates, c)))
  {
    hide ScanWord, ReadRemote, ToDescription, FromDescription, Body;
    DescriptionRoundTrip(env, c, rest);
    PrintedStartsWithWord(env, c, rest);
    var line := DescriptionIsLine(env, c);
    ReadsCandidateLine(env, line, rest, r);
  }

  lemma PrintedStartsWithWord(env: Platform, c: Candidate, rest: string)
    requires Printable(c) && LINE_START <= ToDescription(env, c) + rest
    ensures ScanWord(BodyOf(ToDescription(env, c) + rest)).Read?
  {
    var tail := Spaced("typ", Spaced("", TypeText(env, c) + "\r\n" + rest));
    DescriptionAppend(env, c, rest);
    BodyStartsWithWord(env, c.foundation, c.component, c.transport, c.priority, ToText(env, c.addr.ip), c.addr.port, tail);
  }

  lemma BodyStartsWithWord(env: Platform, foundation: string, component: int, transport: string, priority: nat,
                           address: string, port: nat, rest: string)
    requires IsWord(foundation)
    ensures var text := LINE_START + Body(foundation, component, transport, priority, address, port, rest);
            LINE_START <= text && ScanWord(BodyOf(text)).Read?
  {
    var s := Spaced(IntText(component), Spaced(transport, Spaced(Decimal(priority), Spaced(address, Spaced(Decimal(port), rest)))));
    ScanWordReads(foundation, s);
    FromLine(env, foundation + s);
  }

  /** Reading a printed list stores its candidates one by one. */
  lemma {:induction false} ReadsRendered(env: Platform, cs: seq<Candidate>, r: Remote)
    requires forall c :: c in cs ==> Printable(c) && c.raddr == ZERO
    ensures ReadRemote(env, Render(env, cs), r) == WithCandidates(r, Store(r.candidates, cs))
    decreases |cs|
  {
    if cs != [] {
      var rest := Render(env, cs[1..]);
      ReadsDescription(env, cs[0], rest, r);
      ReadsRendered(env, cs[1..], r.(candidates := AddCandidate(r.candidates, cs[0])));
    }
  }

  predicate HostAfterOther(found: seq<Source>)
    requires forall k :: 0 <= k < |found| ==> found[k].Found?
  {
    exists k :: 0 < k < |found| && found[k].kind == HostType && found[k - 1].kind != HostType
  }

  /** The numbering gives two candidates one foundation exactly when a host candidate is found
      right behind a reflexive or relayed one. */
  lemma GatherDistinct(sources: seq<Source>)
    requires Gatherable(sources) && Gather(sources).Some?
    ensures DistinctFoundations(Gather(sources).value) <==> !HostAfterOther(FoundIn(sources))
  {
    GatherFits(sources);
    NumbersDistinct(FoundIn(sources), Gather(sources).value);
  }

  lemma NumbersDistinct(found: seq<Source>, cs: seq<Candidate>)
    requires |cs| == |found| && forall k :: 0 <= k < |found| ==> found[k].Found?
    requires forall k :: 0 <= k < |cs| ==> cs[k].foundation == Decimal(FoundationNumber(found[k].kind, k))
    ensures DistinctFoundations(cs) <==> !HostAfterOther(found)
  {
    if HostAfterOther(found) {
      var k :| 0 < k < |found| && found[k].kind == HostType && found[k - 1].kind != HostType;
      assert cs[k - 1].foundation == cs[k].foundation;
    } else {
      forall i, j | 0 <= i < j < |cs| ensures cs[i].foundation != cs[j].foundation {
        DecimalInjective(FoundationNumber(found[i].kind, i), FoundationNumber(found[j].kind, j));
      }
    }
  }

  /** The gathered list exists and arrives: in order, field by field, and with nothing else. */
  predicate Exchanged(env: Platform, sources: seq<Source>)
    requires Gatherable(sources)
  {
    match Gather(sources)
    case None => false
    case Some(cs) => ReadRemote(env, Render(env, cs), FRESH) == Some(FRESH.(candidates := cs))
  }

  /** Candidate exchange: printing a gathered list and reading it on a fresh agent gives the same
      list exactly when no gathering attempt stands behind ten candidates and no host candidate is
      found right behind a reflexive or relayed one. If every attempt finds a candidate, the first
      part says that there are at most ten. The related address is not carried; a gathered one is
      zero. */
  lemma ExchangeRoundTrip(env: Platform, sources: seq<Source>)
    requires Gatherable(sources)
    ensures Exchanged(env, sources) <==> !Overfull(sources) && !HostAfterOther(FoundIn(sources))
    ensures (forall k :: 0 <= k < |sources| ==> sources[k].Found?) ==>
      (Exchanged(env, sources) <==> |sources| <= 10 && !HostAfterOther(sources))
  {
    GatherFits(sources);
    if Gather(sources).Some? {
      GatherDistinct(sources);
      GatheredArrives(env, sources);
    }
    if forall k :: 0 <= k < |sources| ==> sources[k].Found? {
      OverfullWhenAllFound(sources);
    }
  }

  lemma GatheredArrives(env: Platform, sources: seq<Source>)
    requires Gatherable(sources) && Gather(sources).Some?
    ensures Exchanged(env, sources) <==> DistinctFoundations(Gather(sources).value)
  {
    var cs := Gather(sources).value;
    GatherFits(sources);
    GatheredIsPrintable(sources);
    hide Gather, Render, ReadRemote, AddAll, Store, Printable, DistinctFoundations;
    ReadsRendered(env, cs, FRESH);
    StoreFits([], cs);
    AddAllKeeps([], cs) by {
      NoneDistinct();
    }
    assert [] + cs == cs;
  }

  lemma NoneDistinct()
    ensures DistinctFoundations([])
  {
  }

  /** For example, a relay gathered before a host candidate: the host never reaches the other side. */
  lemma HostBehindRelayIsLost(env: Platform, relay: Address, host: Address)
    requires relay.ip.V4? && host.ip.V4? && relay.port < 0x1_0000 && host.port < 0x1_0000
    ensures var gathered := Gather([Found(RelayType, relay), Found(HostType, host)]);
            && gathered.Some? && |gathered.value| == 2
            && gathered.value[0].foundation == gathered.value[1].foundation == "1"
            && ReadRemote(env, Render(env, gathered.value), FRESH) == Some(FRESH.(candidates := [gathered.value[0]]))
  {
    hide Gather, Render, ReadRemote, AddAll, Store, Printable;
    var sources := [Found(RelayType, relay), Found(HostType, host)];
    TwoGathered(relay, host);
    OneDigit();
    var cs := Gather(sources).value;
    GatheredIsPrintable(sources);
    ReadsRendered(env, cs, FRESH);
    StoreFits([], cs);
    SecondIsDropped(cs[0], cs[1]);
  }

  lemma TwoGathered(relay: Address, host: Address)
    requires relay.ip.V4? && host.ip.V4? && relay.port < 0x1_0000 && host.port < 0x1_0000
    ensures Gather([Found(RelayType, relay), Found(HostType, host)]) == Some([Create(1, RelayType, relay), Create(1, HostType, host)])
  {
    var a, b := Found(RelayType, relay), Found(HostType, host);
    var first := Create(1, RelayType, relay);
    assert [a, b][..1] == [a] && [a][..0] == [];
    assert Gather([]) == Some([]) && [] + [first] == [first];
    assert Gather([a]) == GatherNext([], a) == Some([first]);
    assert Gather([a, b]) == GatherNext([first], b);
    assert [first] + [Create(1, HostType, host)] == [first, Create(1, HostType, host)];
  }

  lemma OneDigit()
    ensures Decimal(1) == "1"
  {
  }

  lemma SecondIsDropped(a: Candidate, b: Candidate)
    requires a.foundation == b.foundation
    ensures AddAll([], [a, b]) == [a]
  {
    assert [a][0].foundation == b.foundation;
    assert [a, b][1..] == [b] && [] + [a] == [a];
    assert AddAll([], [a, b]) == AddAll([a], [b]);
    assert [b][1..] == [] && AddCandidate([a], b) == [a];
    assert AddAll([a], [b]) == AddAll([a], []);
  }

  lemma GatheredIsPrintable(sources: seq<Source>)
    requires Gatherable(sources) && Gather(sources).Some?
    ensures forall c :: c in Gather(sources).value ==> Printable(c) && c.raddr == ZERO
  {
    GatherFits(sources);
    var found, cs := FoundIn(sources), Gather(sources).value;
    forall c | c in cs ensures Printable(c) && c.raddr == ZERO {
      var k :| 0 <= k < |cs| && cs[k] == c;
      DecimalIsShort(FoundationNumber(found[k].kind, k));
    }
  }

  lemma DecimalIsShort(n: nat)
    requires n < 100
    ensures IsWord(Decimal(n)) && |Decimal(n)| <= 2
  {
  }
}
