/** `agent.c`: the agent as an object whose methods update its fields, each tied to the functions
    of the modules it imports. What the network does is a parameter of the methods that use it. */
module AgentState {
  import opened Options
  import opened Text
  import opened Address
  import opened Candidates
  import opened Description
  import opened Selection
  import opened PairTable
  import Turn

  /** What one read of the socket yields: nothing, media, a STUN message, or a TURN Data
      indication around a STUN message or around media. */
  datatype Packet = Quiet | Media | Stun(msg: Turn.Message) | Wrapped(inner: Option<Turn.Message>)

  function MessageOf(p: Packet): Option<Turn.Message> {
    match p
    case Quiet => None
    case Media => None
    case Stun(msg) => Some(msg)
    case Wrapped(inner) => inner
  }

  /** A binding response whose integrity check succeeds. */
  predicate IsAnswer(p: Packet) {
    match MessageOf(p)
    case None => false
    case Some(m) => m.cls == Turn.ResponseClass && m.mthd == Turn.Binding && m.authentic
  }

  /** The session after a packet: challenges are folded in. `was` is what the nonce and realm fields
      hold when the message is parsed into them. */
  function FoldPacket(s: Turn.Session, p: Packet, was: Turn.Leftover): Turn.Session {
    match MessageOf(p)
    case None => s
    case Some(m) => Turn.Fold(s, m, was)
  }

  function Truncate(s: string, n: nat): string {
    if |s| <= n then s else s[..n]
  }

  lemma TruncateAppends(x: string, y: string, n: nat)
    ensures Truncate(Truncate(x, n) + y, n) == Truncate(x + y, n)
  {
  }

  /** `snprintf` behind the text so far, in the room that is left. */
  lemma PrintedBehind(x: string, y: string, n: nat)
    requires |x| <= n
    ensures x + Truncate(y, n - |x|) == Truncate(x + y, n)
  {
  }

  lemma NothingRendered(env: Platform, cs: seq<Candidate>)
    requires cs == []
    ensures Render(env, cs) == ""
  {
  }

  lemma PrintsNext(env: Platform, start: string, cs: seq<Candidate>, i: nat, n: nat)
    requires i < |cs|
    ensures Truncate(Truncate(start + Render(env, cs[..i]), n) + ToDescription(env, cs[i]), n)
         == Truncate(start + Render(env, cs[..i + 1]), n)
  {
    assert cs[..i + 1] == cs[..i] + [cs[i]];
    RenderAppend(env, cs[..i], cs[i]);
    Associative(start, Render(env, cs[..i]), ToDescription(env, cs[i]));
    TruncateAppends(start + Render(env, cs[..i]), ToDescription(env, cs[i]), n);
  }

  /** The peer a selection call asks a TURN permission for: that of a relay pair it nominates. */
  function PermissionPeer(m: Selection.Machine, local: seq<Candidate>, remote: seq<Candidate>): Option<Address>
    requires forall i :: 0 <= i < |m.pairs| ==> m.pairs[i].local < |local| && m.pairs[i].remote < |remote|
  {
    match NewNominee(m, 0)
    case None => None
    case Some(k) =>
      if local[m.pairs[k].local].kind == RelayType then Some(remote[m.pairs[k].remote].addr) else None
  }

  function AfterAsking(s: Turn.Session, peer: Option<Address>, now: nat, script: seq<Turn.Exchange>): Turn.Session
    requires Turn.MAX_ATTEMPTS <= |script|
  {
    if peer.None? || !s.hasRelay then s else Turn.SetPermission(s, peer.value, now, script).session
  }

  function AskedFor(s: Turn.Session, peer: Option<Address>, now: nat, script: seq<Turn.Exchange>): seq<Turn.Request>
    requires Turn.MAX_ATTEMPTS <= |script|
  {
    if peer.None? || !s.hasRelay then [] else Turn.SetPermission(s, peer.value, now, script).sent
  }

  lemma NothingAsked(s: Turn.Session, now: nat, script: seq<Turn.Exchange>)
    requires Turn.MAX_ATTEMPTS <= |script|
    ensures AfterAsking(s, None, now, script) == s && AskedFor(s, None, now, script) == []
  {
  }

  predicate IsAck(e: Turn.Exchange) {
    e.Reply? && e.msg.cls == Turn.ResponseClass && e.msg.mthd == Turn.CreatePermission
  }

  /** Whom a selection call asks a permission for, in terms of the pair that leaves FROZEN. */
  lemma AskingSpelledOut(m: Selection.Machine, local: seq<Candidate>, remote: seq<Candidate>, s: Turn.Session,
                         now: nat, script: seq<Turn.Exchange>)
    requires forall i :: 0 <= i < |m.pairs| ==> m.pairs[i].local < |local| && m.pairs[i].remote < |remote|
    requires Turn.MAX_ATTEMPTS <= |script|
    ensures var r := Select(m).0;
            var t := AfterAsking(s, PermissionPeer(m, local, remote), now, script);
            var asked := AskedFor(s, PermissionPeer(m, local, remote), now, script);
            && |r.pairs| == |m.pairs|
            && (forall k :: 0 <= k < |m.pairs| ==> r.pairs[k].local == m.pairs[k].local && r.pairs[k].remote == m.pairs[k].remote)
            && (forall k :: 0 <= k < |m.pairs| && m.pairs[k].state == Frozen && r.pairs[k].state == InProgress ==>
                  if local[m.pairs[k].local].kind == RelayType && s.hasRelay then
                    var peer := remote[m.pairs[k].remote].addr;
                    && (forall q :: q in asked ==> q.PermissionRequest? && q.peer == peer)
                    && (asked == [] <==> script[0].SendFails?)
                    && (IsAck(script[0]) ==> t.permissionSet && t.permissionAddr == peer && t.refreshTime == now)
                  else t == s && asked == [])
            && ((forall k :: 0 <= k < |m.pairs| && m.pairs[k].state == Frozen ==> r.pairs[k].state == Frozen) ==> t == s && asked == [])
  {
    hide Select, Turn.SetPermission, NewNominee;
    SelectLeaves(m);
    var peer := PermissionPeer(m, local, remote);
    if peer.Some? {
      Turn.CallSpelledOut(s, peer.value, now, script);
    }
  }

  const EMPTY_SLOT := Candidate("", 0, 0, "", HostType, ZERO, ZERO)

  class Agent {
    const env: Platform
    const hostPort: nat

    const localCandidates: array<Candidate>
    var localCandidatesCount: nat

    var remoteUfrag: string
    var remoteUpwd: string
    const remoteCandidates: array<Candidate>
    var remoteCandidatesCount: nat

    const candidatePairs: array<Pair>
    var candidatePairsNum: nat
    var nominatedPair: Option<nat>
    var selectedPair: Option<nat>

    var turnAllocated: bool
    var turnNonce: string
    var turnRealm: string
    var turnPermissionSet: bool
    var turnPermissionAddr: Address
    var turnRefreshTime: nat

    // ---- Abstract values ----

    /** The slots: ten a side. Nothing ever writes a related address. */
    ghost predicate Slots()
      reads this, localCandidates, remoteCandidates
    {
      && hostPort < 0x1_0000
      && localCandidates.Length == MAX_CANDIDATES == remoteCandidates.Length && localCandidates != remoteCandidates
      && localCandidatesCount <= MAX_CANDIDATES && remoteCandidatesCount <= MAX_CANDIDATES
      && (forall k :: 0 <= k < MAX_CANDIDATES ==> localCandidates[k].raddr == ZERO && remoteCandidates[k].raddr == ZERO)
    }

    ghost predicate Valid()
      reads this, candidatePairs, localCandidates, remoteCandidates
    {
      && Slots()
      && candidatePairs.Length == MAX_PAIRS
      && candidatePairsNum <= MAX_PAIRS
      && (nominatedPair.Some? ==> nominatedPair.value < candidatePairsNum)
      && (forall i :: 0 <= i < candidatePairsNum ==>
            candidatePairs[i].local < localCandidatesCount && candidatePairs[i].remote < remoteCandidatesCount)
    }

    ghost function Local(): (cs: seq<Candidate>)
      requires Slots()
      reads this, localCandidates, remoteCandidates
      ensures |cs| == localCandidatesCount && forall k :: 0 <= k < |cs| ==> cs[k] == localCandidates[k]
    {
      localCandidates[..localCandidatesCount]
    }

    ghost function RemoteList(): (cs: seq<Candidate>)
      requires Slots()
      reads this, localCandidates, remoteCandidates
      ensures |cs| == remoteCandidatesCount && forall k :: 0 <= k < |cs| ==> cs[k] == remoteCandidates[k]
    {
      remoteCandidates[..remoteCandidatesCount]
    }

    ghost function Remote(): Description.Remote
      requires Slots()
      reads this, localCandidates, remoteCandidates
    {
      Description.Remote(remoteUfrag, remoteUpwd, RemoteList())
    }

    ghost function Session(): Turn.Session
      reads this
    {
      Turn.Session(turnAllocated, turnNonce, turnRealm, turnPermissionSet, turnPermissionAddr, turnRefreshTime)
    }

    ghost function Machine(): Selection.Machine
      requires Valid()
      reads this, candidatePairs, localCandidates, remoteCandidates
    {
      Selection.Machine(candidatePairs[..candidatePairsNum], nominatedPair, selectedPair)
    }

    /** `agent_create` on zeroed memory. */
    constructor (env: Platform, hostPort: nat)
      requires hostPort < 0x1_0000
      ensures Valid() && fresh(candidatePairs) && fresh(localCandidates) && fresh(remoteCandidates)
      ensures this.env == env && this.hostPort == hostPort
      ensures Local() == [] && Remote() == FRESH
      ensures Fresh(Machine()) && Machine().pairs == []
      ensures Session() == Turn.Session(false, "", "", false, ZERO, 0)
    {
      this.env, this.hostPort := env, hostPort;
      localCandidates := new Candidate[MAX_CANDIDATES](_ => EMPTY_SLOT);
      localCandidatesCount := 0;
      remoteUfrag, remoteUpwd := "", "";
      remoteCandidates := new Candidate[MAX_CANDIDATES](_ => EMPTY_SLOT);
      remoteCandidatesCount := 0;
      candidatePairs := new Pair[MAX_PAIRS](_ => Pair(0, 0, 0, Frozen, 0));
      candidatePairsNum, nominatedPair, selectedPair := 0, None, None;
      turnAllocated, turnNonce, turnRealm := false, "", "";
      turnPermissionSet, turnPermissionAddr, turnRefreshTime := false, ZERO, 0;
    }

    // ---- Gathering ----

    /** `agent_create_host_addr` for one interface: the slot is filled first and counted only if
        the interface has an address. `ok` is false when there is no slot. */
    method CreateHostAddr(resolved: Option<Ip>) returns (ok: bool)
      requires Valid()
      modifies this`localCandidatesCount, localCandidates
      ensures Valid()
      ensures var source := if resolved.Some? then Found(HostType, Address(resolved.value, hostPort)) else NoAddress;
              match GatherNext(old(Local()), source)
              case None => !ok && Local() == old(Local())
              case Some(cs) => ok && Local() == cs
    {
      if localCandidatesCount == MAX_CANDIDATES {
        return false;
      }
      var k := localCandidatesCount;
      localCandidates[k] := Create(k, HostType, Address(V4(0, 0, 0, 0), hostPort));
      if resolved.Some? {
        localCandidates[k] := localCandidates[k].(addr := Address(resolved.value, hostPort));
        localCandidatesCount := k + 1;
      }
      return true;
    }

    /** The end of `agent_create_stun_addr` and `agent_create_turn_addr`: the list is counted up
        before its length is used as the foundation. `ok` is false when there is no slot. */
    method AddMappedAddr(kind: CandidateType, addr: Address) returns (ok: bool)
      requires Valid()
      requires kind == SrflxType || kind == RelayType
      requires addr.port < 0x1_0000
      modifies this`localCandidatesCount, localCandidates
      ensures Valid()
      ensures match GatherNext(old(Local()), Found(kind, addr))
              case None => !ok && Local() == old(Local())
              case Some(cs) => ok && Local() == cs
    {
      if localCandidatesCount == MAX_CANDIDATES {
        return false;
      }
      var k := localCandidatesCount;
      localCandidatesCount := k + 1;
      localCandidates[k] := Create(localCandidatesCount, kind, addr);
      return true;
    }

    // ---- Descriptions ----

    /** `agent_get_local_description`: each line is printed behind the text so far, in what room
        is left. */
    method GetLocalDescription(start: string, length: nat) returns (description: string)
      requires Valid() && |start| < length
      ensures description == Truncate(start + Render(env, Local()), length - 1)
      ensures var whole := start + Render(env, Local());
              description <= whole && |description| == if |whole| < length then |whole| else length - 1
    {
      hide Render;
      description := start;
      NothingRendered(env, Local()[..0]);
      assert start + Render(env, Local()[..0]) == start;
      for i := 0 to localCandidatesCount
        invariant description == Truncate(start + Render(env, Local()[..i]), length - 1)
      {
        description := PrintNext(start, description, i, length);
      }
      assert Local()[..localCandidatesCount] == Local();
    }

    /** The body of that loop. */
    method PrintNext(ghost start: string, description: string, i: nat, length: nat) returns (r: string)
      requires Valid() && i < localCandidatesCount && 0 < length
      requires description == Truncate(start + Render(env, Local()[..i]), length - 1)
      ensures r == Truncate(start + Render(env, Local()[..i + 1]), length - 1)
    {
      hide ToDescription, Render;
      var line := ToDescription(env, localCandidates[i]);
      PrintsNext(env, start, Local(), i, length - 1);
      PrintedBehind(description, line, length - 1);
      r := description + Truncate(line, length - |description| - 1);
    }

    /** `ice_candidate_from_description` into slot `k`: the scan stores each field as it reaches it,
        and a candidate that is refused leaves what has been stored. */
    method ParseInto(k: nat, description: string) returns (ret: int)
      requires Slots() && k < MAX_CANDIDATES && LINE_START <= description && ScanFits(BodyOf(description))
      modifies remoteCandidates
      ensures Slots() && forall i :: 0 <= i < MAX_CANDIDATES && i != k ==> remoteCandidates[i] == old(remoteCandidates[i])
      ensures match FromDescription(env, description)
              case Taken(candidate) => ret == 0 && remoteCandidates[k] == candidate
              case Refused => ret == -1
              case Undefined => false
    {
      var fields := ScanInto(k, BodyOf(description));
      if fields.None? {
        return -1;
      }
      var kind, address := fields.value.kind, fields.value.address;
      if !IsUdp(remoteCandidates[k].transport) {
        return -1;
      }
      if KindOf(kind).None? {
        return -1;
      }
      remoteCandidates[k] := remoteCandidates[k].(kind := KindOf(kind).value);
      remoteCandidates[k] := remoteCandidates[k].(addr := remoteCandidates[k].addr.(port := fields.value.port % 0x1_0000));
      var ip := Resolve(env, address);
      if ip.None? {
        return -1;
      }
      remoteCandidates[k] := remoteCandidates[k].(addr := remoteCandidates[k].addr.(ip := ip.value));
      return 0;
    }

    /** Its `sscanf` call: four of the seven conversions go to the slot. */
    method ScanInto(k: nat, s: string) returns (fields: Option<Fields>)
      requires Slots() && k < MAX_CANDIDATES && ScanFits(s)
      modifies remoteCandidates
      ensures Slots() && forall i :: 0 <= i < MAX_CANDIDATES && i != k ==> remoteCandidates[i] == old(remoteCandidates[i])
      ensures match ScanFields(s)
              case Stuck => fields == None
              case Read(f, _) =>
                && fields == Some(f)
                && remoteCandidates[k] == old(remoteCandidates[k]).(
                     foundation := f.foundation, component := f.component, transport := f.transport, priority := f.priority % 0x1_0000_0000)
    {
      hide ScanWord, ScanInt, ScanLiteral;
      var foundation := ScanWord(s);
      if foundation.Stuck? {
        return None;
      }
      remoteCandidates[k] := remoteCandidates[k].(foundation := foundation.value);
      var component := ScanInt(foundation.rest);
      if component.Stuck? {
        return None;
      }
      remoteCandidates[k] := remoteCandidates[k].(component := component.value);
      var transport := ScanWord(component.rest);
      if transport.Stuck? {
        return None;
      }
      remoteCandidates[k] := remoteCandidates[k].(transport := transport.value);
      var priority := ScanInt(transport.rest);
      if priority.Stuck? {
        return None;
      }
      remoteCandidates[k] := remoteCandidates[k].(priority := priority.value % 0x1_0000_0000);
      var rest := ScanAddressAndType(priority.rest, foundation.value, component.value, transport.value, priority.value);
      fields := if rest.Stuck? then None else Some(rest.value);
    }

    /** The candidate branch of the loop: the line is parsed into the slot behind the counted ones,
        which counts if no earlier one has its foundation. `ok` is false when there is no slot or
        something does not fit its field. */
    method AddRemoteCandidate(lineStart: string) returns (ok: bool)
      requires Valid() && LINE_START <= lineStart
      modifies this`remoteCandidatesCount, remoteCandidates
      ensures Valid()
      ensures match ReadCandidateLine(env, lineStart, old(RemoteList()))
              case None => !ok && RemoteList() == old(RemoteList())
              case Some(cs) => ok && RemoteList() == cs
    {
      hide ScanFields, ScanWord, ScanFits;
      var k := remoteCandidatesCount;
      if !ScanFits(BodyOf(lineStart)) {
        return false;
      }
      if k == MAX_CANDIDATES {
        var stored := ScanWord(BodyOf(lineStart));
        if stored.Stuck? {
          StuckIsRefused(env, lineStart);
        }
        return stored.Stuck?;
      }
      var ret := ParseInto(k, lineStart);
      assert RemoteList() == old(RemoteList());
      if ret == 0 {
        CountIfNew(remoteCandidates[k]);
      }
      return true;
    }

    /** The comparison of the slot behind the counted ones with those. */
    method CountIfNew(ghost candidate: Candidate)
      requires Valid() && remoteCandidatesCount < MAX_CANDIDATES && remoteCandidates[remoteCandidatesCount] == candidate
      modifies this`remoteCandidatesCount
      ensures Valid() && RemoteList() == AddCandidate(old(RemoteList()), candidate)
    {
      var i := 0;
      while i < remoteCandidatesCount && remoteCandidates[i].foundation != remoteCandidates[remoteCandidatesCount].foundation
        invariant i <= remoteCandidatesCount
        invariant forall k :: 0 <= k < i ==> RemoteList()[k].foundation != candidate.foundation
      {
        i := i + 1;
      }
      if i == remoteCandidatesCount {
        assert !KnownFoundation(RemoteList(), candidate.foundation);
        remoteCandidatesCount := remoteCandidatesCount + 1;
      } else {
        assert RemoteList()[i].foundation == candidate.foundation;
      }
    }

    /** One line of the loop in `agent_set_remote_description`. */
    method ReadOneLine(lineStart: string, lineEnd: nat) returns (ok: bool)
      requires Valid() && lineEnd < |lineStart| && lineStart[lineEnd] == '\r'
      modifies this`remoteUfrag, this`remoteUpwd, this`remoteCandidatesCount, remoteCandidates
      ensures Valid()
      ensures match ReadLine(env, lineStart, lineEnd, old(Remote()))
              case None => !ok
              case Some(r) => ok && Remote() == r
    {
      hide ReadCandidateLine, Overwrite;
      if UFRAG_START <= lineStart {
        PrefixInLine(UFRAG_START, lineStart, lineEnd);
        var ufrag := lineStart[|UFRAG_START|..lineEnd];
        if |ufrag| > CREDENTIAL_MAX {
          return false;
        }
        remoteUfrag := Overwrite(remoteUfrag, ufrag);
      } else if PWD_START <= lineStart {
        PrefixInLine(PWD_START, lineStart, lineEnd);
        var upwd := lineStart[|PWD_START|..lineEnd];
        if |upwd| > CREDENTIAL_MAX {
          return false;
        }
        remoteUpwd := Overwrite(remoteUpwd, upwd);
      } else if LINE_START <= lineStart {
        ok := AddRemoteCandidate(lineStart);
        return ok;
      }
      return true;
    }

    /** `agent_set_remote_description`. When `ok` is false, something had no room: from there on the
        source's behaviour is not defined. */
    method SetRemoteDescription(description: string) returns (ok: bool)
      requires Valid()
      modifies this`remoteUfrag, this`remoteUpwd, this`remoteCandidatesCount, remoteCandidates
      ensures Valid()
      ensures match ReadRemote(env, description, old(Remote()))
              case None => !ok
              case Some(r) => ok && Remote() == r
      ensures ok && old(Remote()) == FRESH ==> CredentialsOf(description, remoteUfrag, remoteUpwd)
    {
      hide ReadLine, CredentialsOf;
      ReadsCredentials(env, description);
      var lineStart := description;
      var lineEnd := Find(lineStart, CRLF);
      while lineEnd.Some?
        invariant Valid()
        invariant lineEnd == Find(lineStart, CRLF)
        invariant ReadRemote(env, lineStart, Remote()) == ReadRemote(env, description, old(Remote()))
        decreases |lineStart|
      {
        assert lineStart[lineEnd.value..][0] == '\r';
        ok := ReadOneLine(lineStart, lineEnd.value);
        if !ok {
          return;
        }
        lineStart := lineStart[lineEnd.value + 2..];
        lineEnd := Find(lineStart, CRLF);
      }
      return true;
    }

    // ---- TURN ----

    /** `agent_turn_set_permission` */
    method TurnSetPermission(peer: Address, now: nat, script: seq<Turn.Exchange>)
      returns (ret: int, sent: seq<Turn.Request>)
      requires Turn.MAX_ATTEMPTS <= |script|
      modifies this`turnNonce, this`turnRealm, this`turnPermissionAddr, this`turnPermissionSet, this`turnRefreshTime
      ensures var o := Turn.SetPermission(old(Session()), peer, now, script);
              Session() == o.session && ret == o.ret && sent == o.sent
      ensures forall k :: 0 <= k < |sent| ==> sent[k].PermissionRequest? && sent[k].peer == peer
      ensures sent != [] ==> sent[0] == Turn.PermissionRequest(peer, old(turnNonce), old(turnRealm))
      ensures sent == [] <==> !turnAllocated || script[0].SendFails?
      ensures turnAllocated && IsAck(script[0]) ==> ret == 0
      ensures ret == 0 ==> turnPermissionSet && turnPermissionAddr == peer && turnRefreshTime == now
      ensures ret != 0 ==> ret == -1 && turnPermissionSet == old(turnPermissionSet) && turnPermissionAddr == old(turnPermissionAddr)
                           && turnRefreshTime == old(turnRefreshTime)
    {
      hide Turn.SetPermission;
      Turn.CallSpelledOut(Session(), peer, now, script);
      ret, sent := TryPermission(peer, now, script);
    }

    /** The attempts. */
    method TryPermission(peer: Address, now: nat, script: seq<Turn.Exchange>)
      returns (ret: int, sent: seq<Turn.Request>)
      requires Turn.MAX_ATTEMPTS <= |script|
      modifies this`turnNonce, this`turnRealm, this`turnPermissionAddr, this`turnPermissionSet, this`turnRefreshTime
      ensures var o := Turn.SetPermission(old(Session()), peer, now, script);
              Session() == o.session && ret == o.ret && sent == o.sent
    {
      hide Turn.Fold, Turn.IsChallenge, Turn.Attempts;
      sent := [];
      if !turnAllocated {
        return -1, [];
      }
      ghost var o := Turn.SetPermission(Session(), peer, now, script);
      for attempt := 0 to Turn.MAX_ATTEMPTS
        invariant var rest := Turn.Attempts(Session(), peer, now, script[attempt..], Turn.MAX_ATTEMPTS - attempt);
                  o.session == rest.session && o.ret == rest.ret && o.sent == sent + rest.sent
      {
        ghost var s := Session();
        ghost var left := Turn.MAX_ATTEMPTS - attempt;
        Turn.AttemptUnfolds(s, peer, now, script[attempt..], left);
        assert script[attempt..][0] == script[attempt];
        assert script[attempt..][1..] == script[attempt + 1..];
        if script[attempt].SendFails? {
          return -1, sent;
        }
        var request := Turn.PermissionRequest(peer, turnNonce, turnRealm);
        sent := sent + [request];
        if script[attempt].NoReply? {
          return -1, sent;
        }
        var reply := script[attempt].msg;
        if reply.cls == Turn.ResponseClass && reply.mthd == Turn.CreatePermission {
          turnPermissionAddr, turnPermissionSet, turnRefreshTime := peer, true, now;
          return 0, sent;
        }
        var folded := FoldChallenge(reply, Turn.CLEARED);
        if folded {
          continue;
        }
        return -1, sent;
      }
      Turn.AttemptUnfolds(Session(), peer, now, script[Turn.MAX_ATTEMPTS..], 0);
      return -1, sent;
    }

    /** The block that both `agent_turn_set_permission` and `agent_recv` use to take over a fresh
        nonce and realm from a message structure that held `was` before the message was parsed. */
    method FoldChallenge(m: Turn.Message, was: Turn.Leftover) returns (folded: bool)
      modifies this`turnNonce, this`turnRealm
      ensures folded == Turn.IsChallenge(m, was) && Session() == Turn.Fold(old(Session()), m, was)
      ensures !folded ==> Session() == old(Session())
      ensures var nonce := if m.nonce.Some? then m.nonce.value else was.nonce;
              var realm := if m.realm.Some? then m.realm.value else was.realm;
              && (folded <==> m.cls == Turn.ErrorClass && (m.errorCode == 438 || m.errorCode == 401) && nonce != "")
              && (folded ==> turnNonce == if |nonce| <= 63 then nonce else nonce[..63])
              && (folded ==> turnRealm == if realm == "" then old(turnRealm) else if |realm| <= 63 then realm else realm[..63])
    {
      var nonce := Turn.FieldAfter(m.nonce, was.nonce);
      var realm := Turn.FieldAfter(m.realm, was.realm);
      if m.cls == Turn.ErrorClass && (m.errorCode == 438 || m.errorCode == 401) && nonce != "" {
        turnNonce := Turn.Cut(nonce);
        if realm != "" {
          turnRealm := Turn.Cut(realm);
        }
        return true;
      }
      return false;
    }

    /** `agent_turn_refresh` */
    method TurnRefresh() returns (sent: seq<Turn.Request>)
      ensures sent == Turn.Keepalive(Session())
      ensures !turnAllocated ==> sent == []
      ensures turnAllocated ==> |sent| == (if turnPermissionSet then 2 else 1)
      ensures turnAllocated ==> sent[|sent| - 1] == Turn.RefreshRequest(turnNonce, turnRealm)
      ensures turnAllocated && turnPermissionSet ==> sent[0] == Turn.PermissionRequest(turnPermissionAddr, turnNonce, turnRealm)
    {
      sent := [];
      if !turnAllocated {
        return;
      }
      if turnPermissionSet {
        sent := sent + [Turn.PermissionRequest(turnPermissionAddr, turnNonce, turnRealm)];
      }
      sent := sent + [Turn.RefreshRequest(turnNonce, turnRealm)];
    }

    // ---- Receiving ----

    /** What `agent_recv` changes in the agent. A binding response is credited to the nominated
        pair, so there has to be one. The message structure is not cleared: `was` is what its nonce
        and realm fields hold. */
    method Recv(p: Packet, was: Turn.Leftover)
      requires Valid() && (IsAnswer(p) ==> nominatedPair.Some?)
      modifies candidatePairs, this`turnNonce, this`turnRealm
      ensures Valid()
      ensures Machine() == if IsAnswer(p) then Credit(old(Machine())) else old(Machine())
      ensures Session() == FoldPacket(old(Session()), p, was)
      ensures var m := match p case Stun(msg) => Some(msg) case Wrapped(inner) => inner case Quiet => None case Media => None;
              var answered := m.Some? && m.value.cls == Turn.ResponseClass && m.value.mthd == Turn.Binding && m.value.authentic;
              && (answered <==> IsAnswer(p))
              && forall k :: 0 <= k < candidatePairsNum ==>
                   candidatePairs[k] == if answered && nominatedPair == Some(k) then old(candidatePairs[k]).(state := Succeeded) else old(candidatePairs[k])
    {
      var m := MessageOf(p);
      if m.None? {
        return;
      }
      if m.value.cls == Turn.ResponseClass {
        if m.value.mthd == Turn.Binding && m.value.authentic {
          var k := nominatedPair.value;
          candidatePairs[k] := candidatePairs[k].(state := Succeeded);
        }
      } else {
        var folded := FoldChallenge(m.value, was);
      }
    }

    // ---- Pairs ----

    /** The slots after `start` have been filled with the entries for `cells`. */
    ghost predicate Filled(local: seq<Candidate>, remote: seq<Candidate>, start: nat, slots: seq<Pair>, cells: seq<Cell>)
      reads this, candidatePairs
    {
      && candidatePairsNum == start + |cells| <= |slots|
      && (forall k :: 0 <= k < |cells| ==> cells[k].local < |local| && cells[k].remote < |remote|)
      && candidatePairs[..] == Fill(local, remote, slots, start, cells)
    }

    lemma StartFilled()
      requires Valid()
      ensures Filled(Local(), RemoteList(), candidatePairsNum, candidatePairs[..], Rows(Local(), RemoteList(), 0))
    {
    }

    /** The pair-forming loops of `agent_update_candidate_pairs`. `ok` is false when a pair has no
        slot. */
    method FormPairs() returns (ok: bool)
      requires Valid()
      modifies candidatePairs, this`candidatePairsNum
      ensures Valid()
      ensures ok == (old(candidatePairsNum) + |Table(Local(), RemoteList())| <= MAX_PAIRS)
      ensures ok ==> Filled(Local(), RemoteList(), old(candidatePairsNum), old(candidatePairs[..]), Table(Local(), RemoteList()))
    {
      ghost var start, slots := candidatePairsNum, candidatePairs[..];
      ghost var local, remote := Local(), RemoteList();
      StartFilled();
      hide Filled, Fill, Row, Rows, SameFamily;
      for i := 0 to localCandidatesCount
        invariant Valid() && Local() == local && RemoteList() == remote
        invariant Filled(local, remote, start, slots, Rows(local, remote, i))
      {
        ok := FormRow(i, local, remote, start, slots, Rows(local, remote, i));
        if !ok {
          return;
        }
      }
      FilledCount(local, remote, start, slots, Table(local, remote));
      return true;
    }

    lemma FilledCount(local: seq<Candidate>, remote: seq<Candidate>, start: nat, slots: seq<Pair>, cells: seq<Cell>)
      requires Valid() && Filled(local, remote, start, slots, cells)
      ensures start + |cells| == candidatePairsNum <= MAX_PAIRS
    {
    }

    /** The inner loop. */
    method FormRow(i: nat, ghost local: seq<Candidate>, ghost remote: seq<Candidate>, ghost start: nat, ghost slots: seq<Pair>,
                   ghost above: seq<Cell>) returns (ok: bool)
      requires Valid() && Local() == local && RemoteList() == remote && |slots| == MAX_PAIRS
      requires i < |local| && above == Rows(local, remote, i)
      requires Filled(local, remote, start, slots, above)
      modifies candidatePairs, this`candidatePairsNum
      ensures Valid() && Local() == local && RemoteList() == remote
      ensures if ok then Filled(local, remote, start, slots, Rows(local, remote, i + 1))
              else start + |Table(local, remote)| > MAX_PAIRS
    {
      hide Filled, Fill, Row, Rows, Table, Local, RemoteList;
      NoRowYet(local, remote, i, above);
      for j := 0 to remoteCandidatesCount
        invariant Valid() && Local() == local && RemoteList() == remote
        invariant Filled(local, remote, start, slots, above + Row(local, remote, i, j))
      {
        ghost var done := above + Row(local, remote, i, j);
        RowNext(local, remote, i, j, above);
        if SameFamily(localCandidates[i].addr, remoteCandidates[j].addr) {
          if candidatePairsNum == MAX_PAIRS {
            FilledCount(local, remote, start, slots, done);
            RowsGrow(local, remote, i, j + 1);
            return false;
          }
          AddPair(i, j, local, remote, start, slots, done);
        } else {
          assert done + [] == done;
        }
      }
      RowsNext(local, remote, i);
      return true;
    }

    /** The body of the innermost loop: the next slot's fields are written one by one. */
    method AddPair(i: nat, j: nat, ghost local: seq<Candidate>, ghost remote: seq<Candidate>, ghost start: nat, ghost slots: seq<Pair>,
                   ghost cells: seq<Cell>)
      requires Valid() && Local() == local && RemoteList() == remote && |slots| == MAX_PAIRS
      requires Filled(local, remote, start, slots, cells) && candidatePairsNum < MAX_PAIRS
      requires i < |local| && j < |remote|
      modifies candidatePairs, this`candidatePairsNum
      ensures Valid() && Local() == local && RemoteList() == remote
      ensures Filled(local, remote, start, slots, cells + [Cell(i, j)])
    {
      var n := candidatePairsNum;
      FillAt(local, remote, slots, start, cells, n);
      assert candidatePairs[..][n] == slots[n];
      assert (cells + [Cell(i, j)])[..|cells|] == cells;
      candidatePairs[n] := candidatePairs[n].(local := i, remote := j);
      candidatePairs[n] := candidatePairs[n].(priority := PairPriority(localCandidates[i], remoteCandidates[j]));
      candidatePairs[n] := candidatePairs[n].(state := Frozen);
      candidatePairsNum := n + 1;
    }

    /** `agent_update_candidate_pairs`: the pairs, then a permission request for every remote
        candidate; `scripts` says how the network treats each of them, `asked` what goes out. `ok` is false when a pair has no
        slot, which cannot happen from an empty table. */
    method UpdateCandidatePairs(now: nat, scripts: seq<seq<Turn.Exchange>>) returns (ok: bool, asked: seq<seq<Turn.Request>>)
      requires Valid()
      requires |scripts| == remoteCandidatesCount
      requires forall j :: 0 <= j < |scripts| ==> Turn.MAX_ATTEMPTS <= |scripts[j]|
      modifies candidatePairs, this`candidatePairsNum
      modifies this`turnNonce, this`turnRealm, this`turnPermissionAddr, this`turnPermissionSet, this`turnRefreshTime
      ensures Valid()
      ensures ok == (old(candidatePairsNum) + |Table(Local(), RemoteList())| <= MAX_PAIRS)
      ensures old(candidatePairsNum) == 0 ==> ok
      ensures ok ==>
        && Filled(Local(), RemoteList(), old(candidatePairsNum), old(candidatePairs[..]), Table(Local(), RemoteList()))
        && Session() == Turn.Run(old(Session()), PermissionCalls(now, RemoteList(), scripts, remoteCandidatesCount))
      ensures old(candidatePairsNum == 0 && nominatedPair == None && selectedPair == None) ==>
        Fresh(Machine()) && candidatePairsNum == |Table(Local(), RemoteList())|
      ensures ok ==> |asked| == remoteCandidatesCount
      ensures ok ==> forall j, q :: 0 <= j < |asked| && q in asked[j] ==> q.PermissionRequest? && q.peer == remoteCandidates[j].addr
      ensures ok ==> forall j :: 0 <= j < |asked| ==> (asked[j] == [] <==> !turnAllocated || scripts[j][0].SendFails?)
      ensures ok && turnAllocated && remoteCandidatesCount > 0 && IsAck(scripts[remoteCandidatesCount - 1][0]) ==>
        turnPermissionSet && turnPermissionAddr == remoteCandidates[remoteCandidatesCount - 1].addr && turnRefreshTime == now
    {
      hide Table, Rows, Row, Fill, Turn.Run, PermissionCalls;
      TableIsExact(Local(), RemoteList());
      asked := [];
      ok := FormPairs();
      if !ok {
        return;
      }
      StartsFresh(old(candidatePairsNum), old(candidatePairs[..]));
      asked := AskPermissions(now, scripts);
    }

    lemma StartsFresh(start: nat, slots: seq<Pair>)
      requires Valid() && Filled(Local(), RemoteList(), start, slots, Table(Local(), RemoteList()))
      ensures start == 0 ==>
        && (forall i :: 0 <= i < candidatePairsNum ==> candidatePairs[i].state == Frozen)
        && candidatePairsNum == |Table(Local(), RemoteList())|
    {
      if start == 0 {
        FormedIsFresh(Local(), RemoteList(), slots);
        forall i | 0 <= i < candidatePairsNum ensures candidatePairs[i].state == Frozen {
          assert candidatePairs[i] == candidatePairs[..][..candidatePairsNum][i];
        }
      }
    }

    /** The loop at its end. */
    method AskPermissions(now: nat, scripts: seq<seq<Turn.Exchange>>) returns (asked: seq<seq<Turn.Request>>)
      requires Valid() && |scripts| == remoteCandidatesCount
      requires forall j :: 0 <= j < |scripts| ==> Turn.MAX_ATTEMPTS <= |scripts[j]|
      modifies this`turnNonce, this`turnRealm, this`turnPermissionAddr, this`turnPermissionSet, this`turnRefreshTime
      ensures Valid() && RemoteList() == old(RemoteList())
      ensures Session() == Turn.Run(old(Session()), PermissionCalls(now, RemoteList(), scripts, remoteCandidatesCount))
      ensures |asked| == remoteCandidatesCount
      ensures forall j, q :: 0 <= j < |asked| && q in asked[j] ==> q.PermissionRequest? && q.peer == remoteCandidates[j].addr
      ensures forall j :: 0 <= j < |asked| ==> (asked[j] == [] <==> !turnAllocated || scripts[j][0].SendFails?)
      ensures turnAllocated && remoteCandidatesCount > 0 && IsAck(scripts[remoteCandidatesCount - 1][0]) ==>
        turnPermissionSet && turnPermissionAddr == remoteCandidates[remoteCandidatesCount - 1].addr && turnRefreshTime == now
    {
      hide Turn.SetPermission, Turn.Run, PermissionCalls, Local, RemoteList, IsAck;
      ghost var s := Session();
      ghost var remote := RemoteList();
      NoCalls(s, now, remote, scripts);
      if turnAllocated {
        asked := [];
        for j := 0 to remoteCandidatesCount
          invariant Valid() && RemoteList() == remote && |asked| == j
          invariant Session() == Turn.Run(s, PermissionCalls(now, remote, scripts, j))
          invariant forall k, q :: 0 <= k < j && q in asked[k] ==> q.PermissionRequest? && q.peer == remoteCandidates[k].addr
          invariant forall k :: 0 <= k < j ==> (asked[k] == [] <==> scripts[k][0].SendFails?)
          invariant 0 < j && IsAck(scripts[j - 1][0]) ==>
            turnPermissionSet && turnPermissionAddr == remoteCandidates[j - 1].addr && turnRefreshTime == now
        {
          PermissionCallsGrow(s, now, remote, scripts, j);
          var ret, sent := TurnSetPermission(remoteCandidates[j].addr, now, scripts[j]);
          asked := asked + [sent];
        }
      } else {
        asked := seq(remoteCandidatesCount, _ => []);
        NoPermissionWithoutRelay(s, PermissionCalls(now, remote, scripts, |remote|));
      }
    }

    /** `agent_select_candidate_pair`; `asked` are the permission requests that go out. When a pair
        leaves FROZEN whose local candidate is a relay, the TURN server is asked for a permission for
        the remote candidate of that very pair, and otherwise nothing is asked. */
    method SelectCandidatePair(now: nat, script: seq<Turn.Exchange>) returns (ret: int, asked: seq<Turn.Request>)
      requires Valid() && Turn.MAX_ATTEMPTS <= |script|
      modifies candidatePairs, this`nominatedPair, this`selectedPair
      modifies this`turnNonce, this`turnRealm, this`turnPermissionAddr, this`turnPermissionSet, this`turnRefreshTime
      ensures Valid() && (Machine(), ret) == Select(old(Machine()))
      ensures forall k :: 0 <= k < candidatePairsNum && old(candidatePairs[k].state) == Frozen && candidatePairs[k].state == InProgress ==>
        if localCandidates[candidatePairs[k].local].kind == RelayType && turnAllocated then
          var peer := remoteCandidates[candidatePairs[k].remote].addr;
          && (forall q :: q in asked ==> q.PermissionRequest? && q.peer == peer)
          && (asked == [] <==> script[0].SendFails?)
          && (IsAck(script[0]) ==> turnPermissionSet && turnPermissionAddr == peer && turnRefreshTime == now)
        else Session() == old(Session()) && asked == []
      ensures (forall k :: 0 <= k < candidatePairsNum && old(candidatePairs[k].state) == Frozen ==> candidatePairs[k].state == Frozen) ==>
        Session() == old(Session()) && asked == []
    {
      hide Select, PermissionPeer, AfterAsking, AskedFor, Local, RemoteList;
      ghost var m, s := Machine(), Session();
      ghost var local, remote := Local(), RemoteList();
      ret, asked := SelectLoop(now, script);
      AskingSpelledOut(m, local, remote, s, now, script);
      PairsOf(m, Machine());
    }

    lemma PairsOf(m: Selection.Machine, r: Selection.Machine)
      requires Valid() && r == Machine() && |m.pairs| == candidatePairsNum
      ensures forall k :: 0 <= k < candidatePairsNum ==> candidatePairs[k] == r.pairs[k]
    {
    }

    /** Its loop. */
    method SelectLoop(now: nat, script: seq<Turn.Exchange>) returns (ret: int, asked: seq<Turn.Request>)
      requires Valid() && Turn.MAX_ATTEMPTS <= |script|
      modifies candidatePairs, this`nominatedPair, this`selectedPair
      modifies this`turnNonce, this`turnRealm, this`turnPermissionAddr, this`turnPermissionSet, this`turnRefreshTime
      ensures Valid() && Local() == old(Local()) && RemoteList() == old(RemoteList())
      ensures (Machine(), ret) == Select(old(Machine()))
      ensures var peer := PermissionPeer(old(Machine()), Local(), RemoteList());
              && Session() == AfterAsking(old(Session()), peer, now, script)
              && asked == AskedFor(old(Session()), peer, now, script)
    {
      hide Local, RemoteList, Nominate, Tick, GiveUp, AfterAsking, AskedFor;
      NothingAsked(Session(), now, script);
      asked := [];
      ghost var m := Machine();
      for i := 0 to candidatePairsNum
        invariant Valid() && Session() == old(Session())
        invariant SelectFrom(Machine(), i) == Select(m)
        invariant forall k :: i <= k < candidatePairsNum ==> candidatePairs[k] == m.pairs[k]
        invariant NewNominee(m, i) == NewNominee(m, 0)
      {
        if candidatePairs[i].state == Frozen {
          asked := NominateAndAsk(i, now, script);
          return 0, asked;
        } else if candidatePairs[i].state == InProgress {
          var again := CountCheck(i);
          if again {
            return 0, [];
          }
        } else if candidatePairs[i].state == Succeeded {
          selectedPair := Some(i);
          return 0, [];
        }
      }
      return -1, [];
    }

    /** The branch for a frozen pair. */
    method NominateAndAsk(i: nat, now: nat, script: seq<Turn.Exchange>) returns (asked: seq<Turn.Request>)
      requires Valid() && i < candidatePairsNum && Turn.MAX_ATTEMPTS <= |script|
      modifies candidatePairs, this`nominatedPair
      modifies this`turnNonce, this`turnRealm, this`turnPermissionAddr, this`turnPermissionSet, this`turnRefreshTime
      ensures Valid() && Local() == old(Local()) && RemoteList() == old(RemoteList())
      ensures (Machine(), 0) == Nominate(old(Machine()), i)
      ensures var pair := old(candidatePairs[i]);
              var peer := if Local()[pair.local].kind == RelayType then Some(RemoteList()[pair.remote].addr) else None;
              && Session() == AfterAsking(old(Session()), peer, now, script)
              && asked == AskedFor(old(Session()), peer, now, script)
    {
      hide Local, RemoteList, Nominate, Turn.SetPermission;
      asked := [];
      NominatePair(i);
      if localCandidates[candidatePairs[i].local].kind == RelayType && turnAllocated {
        var failed;
        failed, asked := TurnSetPermission(remoteCandidates[candidatePairs[i].remote].addr, now, script);
      }
    }

    method NominatePair(i: nat)
      requires Valid() && i < candidatePairsNum
      modifies candidatePairs, this`nominatedPair
      ensures Valid() && (Machine(), 0) == Nominate(old(Machine()), i)
      ensures candidatePairs[i].local == old(candidatePairs[i].local) && candidatePairs[i].remote == old(candidatePairs[i].remote)
    {
      nominatedPair := Some(i);
      ghost var was := Machine().pairs;
      candidatePairs[i] := candidatePairs[i].(conncheck := 0);
      candidatePairs[i] := candidatePairs[i].(state := InProgress);
      assert Machine().pairs == was[i := was[i].(state := InProgress, conncheck := 0)];
    }

    /** Counts one more check of a pair in progress and fails the pair when that was the last. */
    method CountCheck(i: nat) returns (again: bool)
      requires Valid() && i < candidatePairsNum
      modifies candidatePairs
      ensures Valid() && again == (old(candidatePairs[i].conncheck) + 1 < CONNCHECK_MAX)
      ensures if again then (Machine(), 0) == Tick(old(Machine()), i) else Machine() == GiveUp(old(Machine()), i)
      ensures forall k :: i < k < candidatePairsNum ==> candidatePairs[k] == old(candidatePairs[k])
    {
      candidatePairs[i] := candidatePairs[i].(conncheck := candidatePairs[i].conncheck + 1);
      if candidatePairs[i].conncheck < CONNCHECK_MAX {
        return true;
      }
      candidatePairs[i] := candidatePairs[i].(state := Failed);
      return false;
    }

    /** `agent_connectivity_check`; `sent` says whether a binding request went out before the read. */
    method ConnectivityCheck(p: Packet, was: Turn.Leftover) returns (ret: int, sent: bool)
      requires Valid() && nominatedPair.Some?
      modifies candidatePairs, this`selectedPair, this`turnNonce, this`turnRealm
      ensures Valid()
      ensures (Machine(), ret, sent) == Check(old(Machine()), IsAnswer(p))
      ensures Session() == if old(Machine().pairs[nominatedPair.value].state) == InProgress then FoldPacket(old(Session()), p, was)
                           else old(Session())
    {
      var k := nominatedPair.value;
      if candidatePairs[k].state != InProgress {
        return -1, false;
      }
      sent := candidatePairs[k].conncheck % CONNCHECK_PERIOD == 0;
      Recv(p, was);
      if candidatePairs[k].state == Succeeded {
        selectedPair := nominatedPair;
        return 0, sent;
      }
      return -1, sent;
    }
  }

  lemma StuckIsRefused(env: Platform, text: string)
    requires LINE_START <= text && ScanWord(BodyOf(text)).Stuck?
    ensures FromDescription(env, text) == Refused
  {
  }

  lemma NoRowYet(local: seq<Candidate>, remote: seq<Candidate>, i: nat, above: seq<Cell>)
    requires i < |local|
    ensures above + Row(local, remote, i, 0) == above
  {
  }

  lemma RowNext(local: seq<Candidate>, remote: seq<Candidate>, i: nat, j: nat, above: seq<Cell>)
    requires i < |local| && j < |remote|
    ensures above + Row(local, remote, i, j + 1)
         == above + Row(local, remote, i, j) + if SameFamily(local[i].addr, remote[j].addr) then [Cell(i, j)] else []
  {
  }

  lemma RowsNext(local: seq<Candidate>, remote: seq<Candidate>, i: nat)
    requires i < |local|
    ensures Rows(local, remote, i + 1) == Rows(local, remote, i) + Row(local, remote, i, |remote|)
  {
  }

  lemma RowsGrow(local: seq<Candidate>, remote: seq<Candidate>, i: nat, j: nat)
    requires i < |local| && j <= |remote|
    ensures |Rows(local, remote, i)| + |Row(local, remote, i, j)| <= |Table(local, remote)|
  {
    RowGrows(local, remote, i, j, |remote|);
    RowsMonotone(local, remote, i + 1, |local|);
  }

  lemma {:induction false} RowGrows(local: seq<Candidate>, remote: seq<Candidate>, i: nat, j: nat, upto: nat)
    requires i < |local| && j <= upto <= |remote|
    ensures |Row(local, remote, i, j)| <= |Row(local, remote, i, upto)|
  {
    if j < upto {
      RowGrows(local, remote, i, j, upto - 1);
    }
  }

  lemma {:induction false} RowsMonotone(local: seq<Candidate>, remote: seq<Candidate>, i: nat, upto: nat)
    requires i <= upto <= |local|
    ensures |Rows(local, remote, i)| <= |Rows(local, remote, upto)|
  {
    hide Row, SameFamily;
    if i < upto {
      RowsMonotone(local, remote, i, upto - 1);
    }
  }

  /** The permission calls for the first `n` remote candidates. */
  function PermissionCalls(now: nat, remote: seq<Candidate>, scripts: seq<seq<Turn.Exchange>>, n: nat): (es: seq<Turn.Event>)
    requires n <= |remote| == |scripts| && forall j :: 0 <= j < |scripts| ==> Turn.MAX_ATTEMPTS <= |scripts[j]|
    ensures |es| == n && forall k :: 0 <= k < n ==> es[k].PermissionCall? && Turn.Possible(es[k])
  {
    seq(n, j requires 0 <= j < n => Turn.PermissionCall(remote[j].addr, now, scripts[j]))
  }

  lemma PermissionCallsGrow(s: Turn.Session, now: nat, remote: seq<Candidate>, scripts: seq<seq<Turn.Exchange>>, n: nat)
    requires n < |remote| == |scripts| && forall j :: 0 <= j < |scripts| ==> Turn.MAX_ATTEMPTS <= |scripts[j]|
    ensures Turn.Run(s, PermissionCalls(now, remote, scripts, n + 1))
         == Turn.SetPermission(Turn.Run(s, PermissionCalls(now, remote, scripts, n)), remote[n].addr, now, scripts[n]).session
  {
    hide Turn.SetPermission;
    var es := PermissionCalls(now, remote, scripts, n + 1);
    assert es[..n] == PermissionCalls(now, remote, scripts, n);
    assert es[n] == Turn.PermissionCall(remote[n].addr, now, scripts[n]);
  }

  lemma NoCalls(s: Turn.Session, now: nat, remote: seq<Candidate>, scripts: seq<seq<Turn.Exchange>>)
    requires |remote| == |scripts| && forall j :: 0 <= j < |scripts| ==> Turn.MAX_ATTEMPTS <= |scripts[j]|
    ensures Turn.Run(s, PermissionCalls(now, remote, scripts, 0)) == s
  {
  }

  lemma {:induction false} NoPermissionWithoutRelay(s: Turn.Session, es: seq<Turn.Event>)
    requires !s.hasRelay && forall k :: 0 <= k < |es| ==> es[k].PermissionCall? && Turn.Possible(es[k])
    ensures Turn.Run(s, es) == s
  {
    if es != [] {
      NoPermissionWithoutRelay(s, es[..|es| - 1]);
    }
  }
}
