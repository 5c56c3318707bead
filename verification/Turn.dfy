/** The TURN client of `agent.c` after a successful Allocate: CreatePermission with its one retry,
    the fire-and-forget keepalive, and the folding of nonce challenges, as functions of the
    session and of what the network does. User name and credential never change and are left out
    of the requests. */
module Turn {
  import opened Options
  import opened Address

  /** The longest text that fits a `char[64]` field with its terminator. */
  const FIELD_MAX: nat := 63

  datatype StunClass = RequestClass | IndicationClass | ResponseClass | ErrorClass

  datatype StunMethod = Binding | Allocate | Refresh | Send | Data | CreatePermission | ChannelBind | UnknownMethod

  /** A parsed STUN message; its nonce and realm are there if it has those attributes. `authentic`
      says whether its integrity check against the remote password succeeds. */
  datatype Message = Message(
    cls: StunClass, mthd: StunMethod, errorCode: nat, nonce: Option<string>, realm: Option<string>, authentic: bool)

  /** What the nonce and realm fields of the message structure held before a message was parsed into
      it: parsing leaves a field alone when the message lacks the attribute. */
  datatype Leftover = Leftover(nonce: string, realm: string)

  /** `agent_turn_set_permission` clears the structure first; `agent_recv` does not. */
  const CLEARED := Leftover("", "")

  datatype Received = Received(msg: Message, was: Leftover)

  datatype Session = Session(
    hasRelay: bool, nonce: string, realm: string,
    permissionSet: bool, permissionAddr: Address, refreshTime: nat)

  datatype Request =
    | PermissionRequest(peer: Address, nonce: string, realm: string)
    | RefreshRequest(nonce: string, realm: string)

  /** What one send and the blocking read after it come to. */
  datatype Exchange = SendFails | NoReply | Reply(msg: Message)

  // ---- Challenges ----

  /** `strncpy` into a field of 64 characters, the last of them the terminator. */
  function Cut(s: string): (r: string)
    ensures |r| <= FIELD_MAX && (|s| <= FIELD_MAX <==> r == s)
    ensures r <= s && (|s| > FIELD_MAX ==> |r| == FIELD_MAX)
  {
    if |s| <= FIELD_MAX then s else s[..FIELD_MAX]
  }

  predicate IsErrorReply(m: Message) {
    m.cls == ErrorClass && (m.errorCode == 438 || m.errorCode == 401)
  }

  function FieldAfter(attribute: Option<string>, was: string): string {
    match attribute
    case None => was
    case Some(text) => text
  }

  predicate IsChallenge(m: Message, was: Leftover) {
    IsErrorReply(m) && FieldAfter(m.nonce, was.nonce) != ""
  }

  function Fold(s: Session, m: Message, was: Leftover): Session {
    if !IsChallenge(m, was) then s
    else
      var realm := FieldAfter(m.realm, was.realm);
      s.(nonce := Cut(FieldAfter(m.nonce, was.nonce)), realm := if realm != "" then Cut(realm) else s.realm)
  }

  // ---- CreatePermission ----

  datatype Outcome = Outcome(session: Session, ret: int, sent: seq<Request>, read: seq<Received>)

  predicate IsPermissionAck(m: Message) {
    m.cls == ResponseClass && m.mthd == CreatePermission
  }

  /** The attempts that are left of the loop in `agent_turn_set_permission`. */
  function Attempts(s: Session, peer: Address, now: nat, script: seq<Exchange>, left: nat): Outcome
    requires left <= |script|
    decreases left
  {
    if left == 0 then Outcome(s, -1, [], [])
    else
      var request := PermissionRequest(peer, s.nonce, s.realm);
      match script[0]
      case SendFails => Outcome(s, -1, [], [])
      case NoReply => Outcome(s, -1, [request], [])
      case Reply(m) =>
        var received := Received(m, CLEARED);
        if IsPermissionAck(m) then
          Outcome(s.(permissionAddr := peer, permissionSet := true, refreshTime := now), 0, [request], [received])
        else if IsChallenge(m, CLEARED) then
          var o := Attempts(Fold(s, m, CLEARED), peer, now, script[1..], left - 1);
          o.(sent := [request] + o.sent, read := [received] + o.read)
        else Outcome(s, -1, [request], [received])
  }

  lemma AttemptUnfolds(s: Session, peer: Address, now: nat, script: seq<Exchange>, left: nat)
    requires left <= |script|
    ensures var o := Attempts(s, peer, now, script, left);
            var request := PermissionRequest(peer, s.nonce, s.realm);
            if left == 0 || script[0].SendFails? then o.session == s && o.ret == -1 && o.sent == []
            else if script[0].Reply? && IsPermissionAck(script[0].msg) then
              o.session == s.(permissionAddr := peer, permissionSet := true, refreshTime := now) && o.ret == 0 && o.sent == [request]
            else if script[0].Reply? && IsChallenge(script[0].msg, CLEARED) then
              var next := Attempts(Fold(s, script[0].msg, CLEARED), peer, now, script[1..], left - 1);
              o.session == next.session && o.ret == next.ret && o.sent == [request] + next.sent
            else o.session == s && o.ret == -1 && o.sent == [request]
  {
    hide Fold, IsChallenge;
  }

  const MAX_ATTEMPTS: nat := 2

  /** `agent_turn_set_permission` */
  function SetPermission(s: Session, peer: Address, now: nat, script: seq<Exchange>): Outcome
    requires MAX_ATTEMPTS <= |script|
  {
    if !s.hasRelay then Outcome(s, -1, [], []) else Attempts(s, peer, now, script, MAX_ATTEMPTS)
  }

  /** A call succeeds exactly when it reads an acknowledgement, which is then the last thing it
      reads; the permission fields change then and only then. */
  lemma {:induction false} AttemptsOutcome(s: Session, peer: Address, now: nat, script: seq<Exchange>, left: nat)
    requires left <= |script|
    ensures var o := Attempts(s, peer, now, script, left);
            && o.ret in {0, -1} && |o.read| <= |o.sent| <= left
            && (o.ret == 0 <==> exists r :: r in o.read && r.msg.cls == ResponseClass && r.msg.mthd == CreatePermission)
            && (o.ret == 0 ==> o.session.permissionSet && o.session.permissionAddr == peer && o.session.refreshTime == now)
            && (o.ret != 0 ==> && o.session.permissionSet == s.permissionSet
                               && o.session.permissionAddr == s.permissionAddr
                               && o.session.refreshTime == s.refreshTime)
            && o.session.hasRelay == s.hasRelay
    decreases left
  {
    var o := Attempts(s, peer, now, script, left);
    if left > 0 && script[0].Reply? {
      var m := script[0].msg;
      var received := Received(m, CLEARED);
      if !IsPermissionAck(m) && IsChallenge(m, CLEARED) {
        var next := Attempts(Fold(s, m, CLEARED), peer, now, script[1..], left - 1);
        AttemptsOutcome(Fold(s, m, CLEARED), peer, now, script[1..], left - 1);
        assert o.read == [received] + next.read;
        if r :| r in next.read && IsPermissionAck(r.msg) {
          assert r in o.read;
        }
      } else {
        assert o.read == [received] && received in o.read;
      }
    }
  }

  /** A second request goes out exactly when the first is answered by a 401 or 438 with a nonce, and
      none at all without an allocation or when sending fails. */
  lemma RequestsOf(s: Session, peer: Address, now: nat, script: seq<Exchange>)
    requires MAX_ATTEMPTS <= |script|
    ensures var n := |SetPermission(s, peer, now, script).sent|;
            && n <= 2
            && (n == 0 <==> !s.hasRelay || script[0].SendFails?)
            && (n == 2 <==> && s.hasRelay && script[0].Reply? && !script[1].SendFails?
                            && script[0].msg.cls == ErrorClass && script[0].msg.errorCode in {401, 438}
                            && script[0].msg.nonce.Some? && script[0].msg.nonce.value != "")
  {
    assert script[1..][0] == script[1];
    if script[0].Reply? && script[1].Reply? {
      var t := Fold(s, script[0].msg, CLEARED);
      assert Attempts(Fold(t, script[1].msg, CLEARED), peer, now, script[1..][1..], 0).sent == [];
    }
  }

  // ---- The keepalive ----

  /** `agent_turn_refresh`: the requests it sends; it reads nothing. */
  function Keepalive(s: Session): seq<Request> {
    if !s.hasRelay then []
    else
      (if s.permissionSet then [PermissionRequest(s.permissionAddr, s.nonce, s.realm)] else [])
      + [RefreshRequest(s.nonce, s.realm)]
  }

  // ---- Whole runs ----

  /** A message that `agent_recv` parses comes with what the structure held before. */
  datatype Event =
    | PermissionCall(peer: Address, now: nat, script: seq<Exchange>)
    | KeepaliveCall
    | Arrival(msg: Message, was: Leftover)

  predicate Possible(e: Event) {
    e.PermissionCall? ==> MAX_ATTEMPTS <= |e.script|
  }

  function Step(s: Session, e: Event): Session
    requires Possible(e)
  {
    match e
    case PermissionCall(peer, now, script) => SetPermission(s, peer, now, script).session
    case KeepaliveCall => s
    case Arrival(m, was) => Fold(s, m, was)
  }

  /** The messages a step reads from the network. */
  function Reads(s: Session, e: Event): seq<Received>
    requires Possible(e)
  {
    match e
    case PermissionCall(peer, now, script) => SetPermission(s, peer, now, script).read
    case KeepaliveCall => []
    case Arrival(m, was) => [Received(m, was)]
  }

  function Run(s: Session, es: seq<Event>): Session
    requires forall k :: 0 <= k < |es| ==> Possible(es[k])
  {
    if es == [] then s else Step(Run(s, es[..|es| - 1]), es[|es| - 1])
  }

  function RunReads(s: Session, es: seq<Event>): seq<Received>
    requires forall k :: 0 <= k < |es| ==> Possible(es[k])
  {
    if es == [] then []
    else RunReads(s, es[..|es| - 1]) + Reads(Run(s, es[..|es| - 1]), es[|es| - 1])
  }

  function FoldAll(s: Session, rs: seq<Received>): Session {
    if rs == [] then s
    else
      var n := |rs| - 1;
      Fold(FoldAll(s, rs[..n]), rs[n].msg, rs[n].was)
  }

  lemma {:induction false} FoldAllFromFront(s: Session, r: Received, rs: seq<Received>)
    ensures FoldAll(s, [r] + rs) == FoldAll(Fold(s, r.msg, r.was), rs)
  {
    hide Fold;
    if rs == [] {
      assert [r] + rs == [r] && [r][..0] == [];
    } else {
      var init, last := rs[..|rs| - 1], rs[|rs| - 1];
      assert ([r] + rs)[..|rs|] == [r] + init;
      FoldAllFromFront(s, r, init);
    }
  }

  lemma {:induction false} FoldAllSplits(s: Session, xs: seq<Received>, ys: seq<Received>)
    ensures FoldAll(s, xs + ys) == FoldAll(FoldAll(s, xs), ys)
  {
    hide Fold;
    if ys == [] {
      assert xs + ys == xs;
    } else {
      var init, last := ys[..|ys| - 1], ys[|ys| - 1];
      assert (xs + ys)[..|xs + ys| - 1] == xs + init;
      FoldAllSplits(s, xs, init);
    }
  }

  /** The credentials a call leaves behind are those of folding what it read. */
  lemma {:induction false} AttemptsFold(s: Session, peer: Address, now: nat, script: seq<Exchange>, left: nat)
    requires left <= |script|
    ensures var o := Attempts(s, peer, now, script, left);
            o.session.nonce == FoldAll(s, o.read).nonce && o.session.realm == FoldAll(s, o.read).realm
    decreases left
  {
    if left > 0 && script[0].Reply? {
      var m := script[0].msg;
      var received := Received(m, CLEARED);
      assert [received] + [] == [received];
      FoldAllFromFront(s, received, []);
      if !IsPermissionAck(m) && IsChallenge(m, CLEARED) {
        AttemptsFold(Fold(s, m, CLEARED), peer, now, script[1..], left - 1);
        FoldAllFromFront(s, received, Attempts(Fold(s, m, CLEARED), peer, now, script[1..], left - 1).read);
      }
    }
  }

  lemma {:induction false} AttemptsSend(s: Session, peer: Address, now: nat, script: seq<Exchange>, left: nat)
    requires left <= |script|
    ensures var o := Attempts(s, peer, now, script, left);
            && |o.sent| <= |o.read| + 1
            && forall k :: 0 <= k < |o.sent| ==>
                 o.sent[k] == PermissionRequest(peer, FoldAll(s, o.read[..k]).nonce, FoldAll(s, o.read[..k]).realm)
    decreases left
  {
    var o := Attempts(s, peer, now, script, left);
    if left > 0 && script[0].Reply? {
      var m := script[0].msg;
      var received := Received(m, CLEARED);
      if !IsPermissionAck(m) && IsChallenge(m, CLEARED) {
        var t := Fold(s, m, CLEARED);
        var next := Attempts(t, peer, now, script[1..], left - 1);
        AttemptsSend(t, peer, now, script[1..], left - 1);
        hide Fold, IsChallenge;
        forall k | 0 <= k < |o.sent|
          ensures o.sent[k] == PermissionRequest(peer, FoldAll(s, o.read[..k]).nonce, FoldAll(s, o.read[..k]).realm)
        {
          if k > 0 {
            FoldAllFromFront(s, received, next.read[..k - 1]);
            assert o.read[..k] == [received] + next.read[..k - 1];
          }
        }
      }
    }
  }

  /** Every request of a permission call names the peer it was called for, and is signed with the
      nonce and realm that folding the messages read before it leaves. */
  lemma EveryRequestNamesPeer(s: Session, peer: Address, now: nat, script: seq<Exchange>)
    requires MAX_ATTEMPTS <= |script|
    ensures var o := SetPermission(s, peer, now, script);
            && |o.sent| <= |o.read| + 1
            && forall k :: 0 <= k < |o.sent| ==>
                 o.sent[k] == PermissionRequest(peer, FoldAll(s, o.read[..k]).nonce, FoldAll(s, o.read[..k]).realm)
  {
    AttemptsSend(s, peer, now, script, MAX_ATTEMPTS);
  }

  /** What a permission call comes to for its caller. */
  lemma CallSpelledOut(s: Session, peer: Address, now: nat, script: seq<Exchange>)
    requires MAX_ATTEMPTS <= |script|
    ensures var o := SetPermission(s, peer, now, script);
            && (forall k :: 0 <= k < |o.sent| ==> o.sent[k].PermissionRequest? && o.sent[k].peer == peer)
            && (o.sent == [] <==> !s.hasRelay || script[0].SendFails?)
            && (o.sent != [] ==> o.sent[0] == PermissionRequest(peer, s.nonce, s.realm))
            && (s.hasRelay && script[0].Reply? && script[0].msg.cls == ResponseClass && script[0].msg.mthd == CreatePermission ==> o.ret == 0)
            && (o.ret == 0 ==> o.session.permissionSet && o.session.permissionAddr == peer && o.session.refreshTime == now)
            && (o.ret == 0 || o.ret == -1)
            && (o.ret != 0 ==> && o.session.permissionSet == s.permissionSet
                               && o.session.permissionAddr == s.permissionAddr
                               && o.session.refreshTime == s.refreshTime)
            && o.session.hasRelay == s.hasRelay && (!s.hasRelay ==> o.session == s)
  {
    var o := SetPermission(s, peer, now, script);
    EveryRequestNamesPeer(s, peer, now, script);
    RequestsOf(s, peer, now, script);
    AttemptsOutcome(s, peer, now, script, MAX_ATTEMPTS);
    assert o.sent != [] ==> o.read[..0] == [] && FoldAll(s, []) == s;
  }

  lemma {:induction false} AttemptsReadCleared(s: Session, peer: Address, now: nat, script: seq<Exchange>, left: nat)
    requires left <= |script|
    ensures forall r :: r in Attempts(s, peer, now, script, left).read ==> r.was == CLEARED
    decreases left
  {
    if left > 0 && script[0].Reply? {
      AttemptsReadCleared(Fold(s, script[0].msg, CLEARED), peer, now, script[1..], left - 1);
    }
  }

  lemma {:induction false} FoldCredentials(s: Session, t: Session, rs: seq<Received>)
    requires s.nonce == t.nonce && s.realm == t.realm
    ensures FoldAll(s, rs).nonce == FoldAll(t, rs).nonce && FoldAll(s, rs).realm == FoldAll(t, rs).realm
  {
    if rs != [] {
      FoldCredentials(s, t, rs[..|rs| - 1]);
    }
  }

  lemma {:induction false} RunFolds(s: Session, es: seq<Event>)
    requires forall k :: 0 <= k < |es| ==> Possible(es[k])
    ensures Run(s, es).nonce == FoldAll(s, RunReads(s, es)).nonce
    ensures Run(s, es).realm == FoldAll(s, RunReads(s, es)).realm
  {
    if es != [] {
      var init, last := es[..|es| - 1], es[|es| - 1];
      var was := Run(s, init);
      RunFolds(s, init);
      FoldAllSplits(s, RunReads(s, init), Reads(was, last));
      FoldCredentials(was, FoldAll(s, RunReads(s, init)), Reads(was, last));
      match last
      case PermissionCall(peer, now, script) => AttemptsFold(was, peer, now, script, MAX_ATTEMPTS);
      case KeepaliveCall =>
      case Arrival(m, left) => assert [Received(m, left)][..0] == [];
    }
  }

  // ---- What a keepalive renews ----

  /** Event `k` of a run is a permission call that succeeds. */
  predicate Granted(s: Session, es: seq<Event>, k: nat)
    requires AllPossible(es) && k < |es|
  {
    && es[k].PermissionCall?
    && SetPermission(Run(s, es[..k]), es[k].peer, es[k].now, es[k].script).ret == 0
  }

  lemma {:induction false} KeepsRelay(s: Session, es: seq<Event>)
    requires AllPossible(es)
    ensures Run(s, es).hasRelay == s.hasRelay
  {
    if es != [] {
      var n := |es| - 1;
      KeepsRelay(s, es[..n]);
      if es[n].PermissionCall? {
        AttemptsOutcome(Run(s, es[..n]), es[n].peer, es[n].now, es[n].script, MAX_ATTEMPTS);
      }
    }
  }

  lemma LastStep(s: Session, es: seq<Event>)
    requires AllPossible(es) && es != []
    ensures var n := |es| - 1;
            var was, t := Run(s, es[..n]), Run(s, es);
            if Granted(s, es, n) then
              es[n].PermissionCall? && t.permissionSet && t.permissionAddr == es[n].peer && t.refreshTime == es[n].now
            else
              t.permissionSet == was.permissionSet && t.permissionAddr == was.permissionAddr && t.refreshTime == was.refreshTime
  {
    var e := es[|es| - 1];
    if e.PermissionCall? {
      AttemptsOutcome(Run(s, es[..|es| - 1]), e.peer, e.now, e.script, MAX_ATTEMPTS);
    }
  }

  lemma {:induction false} PermissionIsLastGranted(s: Session, es: seq<Event>, k: nat)
    requires AllPossible(es) && k < |es| && Granted(s, es, k)
    requires forall j :: k < j < |es| ==> !Granted(s, es, j)
    ensures es[k].PermissionCall?
    ensures Run(s, es).permissionSet && Run(s, es).permissionAddr == es[k].peer && Run(s, es).refreshTime == es[k].now
  {
    hide Run, Granted;
    var n := |es| - 1;
    LastStep(s, es);
    if k < n {
      forall j | 0 <= j < n ensures Granted(s, es[..n], j) == Granted(s, es, j) {
        GrantedPrefix(s, es, n, j);
      }
      PermissionIsLastGranted(s, es[..n], k);
    }
  }

  lemma {:induction false} NothingGranted(s: Session, es: seq<Event>)
    requires AllPossible(es) && forall j :: 0 <= j < |es| ==> !Granted(s, es, j)
    ensures Run(s, es).permissionSet == s.permissionSet && Run(s, es).permissionAddr == s.permissionAddr
  {
    if es != [] {
      hide Run, Granted;
      var n := |es| - 1;
      LastStep(s, es);
      forall j | 0 <= j < n ensures Granted(s, es[..n], j) == Granted(s, es, j) {
        GrantedPrefix(s, es, n, j);
      }
      NothingGranted(s, es[..n]);
    }
  }

  lemma GrantedPrefix(s: Session, es: seq<Event>, n: nat, j: nat)
    requires AllPossible(es) && j < n <= |es|
    ensures AllPossible(es[..n]) && Granted(s, es[..n], j) == Granted(s, es, j)
  {
    hide Run, SetPermission;
    assert es[..n][..j] == es[..j];
  }

  /** After any run from a session with an allocation, a keepalive renews the permission of the last
      permission call that succeeded, for the peer of that call, and then the allocation, both signed
      with the cached nonce and realm. */
  lemma KeepaliveRenewsLast(s: Session, es: seq<Event>, k: nat)
    requires s.hasRelay && AllPossible(es) && k < |es| && Granted(s, es, k)
    requires forall j :: k < j < |es| ==> !Granted(s, es, j)
    ensures var t := Run(s, es);
            Keepalive(t) == [PermissionRequest(es[k].peer, t.nonce, t.realm), RefreshRequest(t.nonce, t.realm)]
  {
    hide Run, Granted;
    PermissionIsLastGranted(s, es, k);
    KeepsRelay(s, es);
  }

  /** Without a success since the allocation only the allocation is renewed. */
  lemma KeepaliveWithoutPermission(s: Session, es: seq<Event>)
    requires s.hasRelay && !s.permissionSet && AllPossible(es) && forall j :: 0 <= j < |es| ==> !Granted(s, es, j)
    ensures var t := Run(s, es); Keepalive(t) == [RefreshRequest(t.nonce, t.realm)]
  {
    hide Run, Granted;
    NothingGranted(s, es);
    KeepsRelay(s, es);
  }

  // ---- The latest credentials received ----

  /** The message itself brings a nonce that is to be taken over. */
  predicate Carries(m: Message) {
    IsErrorReply(m) && m.nonce.Some? && m.nonce.value != ""
  }

  predicate CarriesRealm(m: Message) {
    Carries(m) && m.realm.Some? && m.realm.value != ""
  }

  /** The place of the last message that brings a nonce, or -1. */
  function LastNonce(rs: seq<Received>): (k: int)
    ensures -1 <= k < |rs|
    ensures k >= 0 ==> Carries(rs[k].msg)
    ensures forall i :: k < i < |rs| ==> !Carries(rs[i].msg)
  {
    if rs == [] then -1
    else if Carries(rs[|rs| - 1].msg) then |rs| - 1
    else LastNonce(rs[..|rs| - 1])
  }

  /** The place of the last message that brings a realm with its nonce, or -1. */
  function LastRealm(rs: seq<Received>): (k: int)
    ensures -1 <= k < |rs|
    ensures k >= 0 ==> CarriesRealm(rs[k].msg)
    ensures forall i :: k < i < |rs| ==> !CarriesRealm(rs[i].msg)
  {
    if rs == [] then -1
    else if CarriesRealm(rs[|rs| - 1].msg) then |rs| - 1
    else LastRealm(rs[..|rs| - 1])
  }

  /** The latest nonce received in a 401 or 438 reply, cut to its field; the first one if none. */
  function LatestNonce(s: Session, rs: seq<Received>): string {
    var k := LastNonce(rs);
    if k < 0 then s.nonce else Cut(rs[k].msg.nonce.value)
  }

  function LatestRealm(s: Session, rs: seq<Received>): string {
    var k := LastRealm(rs);
    if k < 0 then s.realm else Cut(rs[k].msg.realm.value)
  }

  lemma LatestStep(s: Session, rs: seq<Received>, r: Received)
    ensures LatestNonce(s, rs + [r]) == if Carries(r.msg) then Cut(r.msg.nonce.value) else LatestNonce(s, rs)
    ensures LatestRealm(s, rs + [r]) == if CarriesRealm(r.msg) then Cut(r.msg.realm.value) else LatestRealm(s, rs)
  {
    hide Carries, CarriesRealm;
    assert (rs + [r])[..|rs|] == rs;
  }

  /** Folding cannot bring in a leftover nonce. */
  predicate NonceIsOwn(r: Received) {
    r.was == CLEARED || (IsErrorReply(r.msg) ==> r.msg.nonce.Some?)
  }

  /** Nor a leftover realm. */
  predicate CredentialsAreOwn(r: Received) {
    r.was == CLEARED || (IsErrorReply(r.msg) ==> r.msg.nonce.Some? && (r.msg.nonce.value != "" ==> r.msg.realm.Some?))
  }

  lemma {:induction false} FoldAllIsLatest(s: Session, rs: seq<Received>)
    requires forall r :: r in rs ==> NonceIsOwn(r)
    ensures FoldAll(s, rs).nonce == LatestNonce(s, rs)
    ensures (forall r :: r in rs ==> CredentialsAreOwn(r)) ==> FoldAll(s, rs).realm == LatestRealm(s, rs)
  {
    if rs != [] {
      var init, last := rs[..|rs| - 1], rs[|rs| - 1];
      assert rs == init + [last] && last in rs;
      assert forall r :: r in init ==> r in rs;
      FoldAllIsLatest(s, init);
      LatestStep(s, init, last);
    }
  }

  /** The same run, whatever the message structure held when messages arrived. */
  predicate SameButLeftovers(fs: seq<Event>, es: seq<Event>) {
    && |fs| == |es|
    && forall k :: 0 <= k < |es| ==>
         if es[k].Arrival? then fs[k].Arrival? && fs[k].msg == es[k].msg else fs[k] == es[k]
  }

  predicate AllPossible(es: seq<Event>) {
    forall k :: 0 <= k < |es| ==> Possible(es[k])
  }

  predicate HasLatestNonce(s: Session, es: seq<Event>, n: nat)
    requires n <= |es| && AllPossible(es)
  {
    Run(s, es[..n]).nonce == LatestNonce(s, RunReads(s, es[..n]))
  }

  predicate HasLatestRealm(s: Session, es: seq<Event>, n: nat)
    requires n <= |es| && AllPossible(es)
  {
    Run(s, es[..n]).realm == LatestRealm(s, RunReads(s, es[..n]))
  }

  /** At every moment of the run, and whatever was left in the structure, the nonce is the latest. */
  ghost predicate AlwaysLatestNonce(s: Session, es: seq<Event>)
    requires AllPossible(es)
  {
    forall fs, n :: SameButLeftovers(fs, es) && AllPossible(fs) && 0 <= n <= |fs| ==> HasLatestNonce(s, fs, n)
  }

  ghost predicate AlwaysLatest(s: Session, es: seq<Event>)
    requires AllPossible(es)
  {
    forall fs, n :: SameButLeftovers(fs, es) && AllPossible(fs) && 0 <= n <= |fs| ==>
      HasLatestNonce(s, fs, n) && HasLatestRealm(s, fs, n)
  }

  /** Every 401 or 438 that `agent_recv` reads brings its own nonce. */
  predicate ArrivalsNameNonce(es: seq<Event>) {
    forall k :: 0 <= k < |es| && es[k].Arrival? && IsErrorReply(es[k].msg) ==> es[k].msg.nonce.Some?
  }

  /** And its own realm, unless its nonce is empty and nothing is taken over. */
  predicate ArrivalsNameBoth(es: seq<Event>) {
    forall k :: 0 <= k < |es| && es[k].Arrival? && IsErrorReply(es[k].msg) ==>
      es[k].msg.nonce.Some? && (es[k].msg.nonce.value != "" ==> es[k].msg.realm.Some?)
  }

  lemma ReadsAreOwn(s: Session, e: Event)
    requires Possible(e)
    ensures ArrivalsNameNonce([e]) ==> forall r :: r in Reads(s, e) ==> NonceIsOwn(r)
    ensures ArrivalsNameBoth([e]) ==> forall r :: r in Reads(s, e) ==> CredentialsAreOwn(r)
  {
    match e
    case PermissionCall(peer, now, script) =>
      AttemptsReadCleared(s, peer, now, script, MAX_ATTEMPTS);
    case KeepaliveCall =>
    case Arrival(m, was) =>
      assert [e][0] == e;
  }

  lemma {:induction false} RunReadsAreOwn(s: Session, es: seq<Event>)
    requires AllPossible(es) && ArrivalsNameNonce(es)
    ensures forall r :: r in RunReads(s, es) ==> NonceIsOwn(r)
    ensures ArrivalsNameBoth(es) ==> forall r :: r in RunReads(s, es) ==> CredentialsAreOwn(r)
  {
    if es != [] {
      hide Reads, NonceIsOwn, CredentialsAreOwn;
      var init, last := es[..|es| - 1], es[|es| - 1];
      RunReadsAreOwn(s, init);
      assert [last][0] == last;
      ReadsAreOwn(Run(s, init), last);
    }
  }

  lemma NamesPrefix(fs: seq<Event>, es: seq<Event>, n: nat)
    requires SameButLeftovers(fs, es) && n <= |fs|
    ensures ArrivalsNameNonce(es) ==> ArrivalsNameNonce(fs[..n])
    ensures ArrivalsNameBoth(es) ==> ArrivalsNameBoth(fs[..n])
  {
  }

  /** One more arrival: the session and the reads of the longer run. */
  lemma RunArrival(s: Session, es: seq<Event>, k: nat, was: Leftover)
    requires AllPossible(es) && k < |es| && es[k].Arrival?
    ensures var fs := es[k := es[k].(was := was)];
            && SameButLeftovers(fs, es) && AllPossible(fs)
            && Run(s, fs[..k + 1]) == Fold(Run(s, es[..k]), es[k].msg, was)
            && RunReads(s, fs[..k + 1]) == RunReads(s, es[..k]) + [Received(es[k].msg, was)]
  {
    var fs := es[k := es[k].(was := was)];
    assert fs[..k + 1][..k] == es[..k] && fs[..k + 1][k] == fs[k];
  }

  function OtherThan(text: string): (t: string)
    ensures t != text && t != "" && Cut(t) == t
  {
    if text == "a" then "b" else "a"
  }

  /** A reply without a nonce can bring in an old one. */
  lemma NamelessIsNotLatest(s: Session, es: seq<Event>, k: nat)
    requires AllPossible(es) && k < |es| && es[k].Arrival? && IsErrorReply(es[k].msg) && es[k].msg.nonce.None?
    ensures !AlwaysLatestNonce(s, es) && !AlwaysLatest(s, es)
  {
    hide Run, RunReads, LatestNonce;
    var was := Leftover(OtherThan(LatestNonce(s, RunReads(s, es[..k]))), "");
    var fs := es[k := es[k].(was := was)];
    RunArrival(s, es, k, was);
    LatestStep(s, RunReads(s, es[..k]), Received(es[k].msg, was));
    assert !HasLatestNonce(s, fs, k + 1);
  }

  /** A reply with a nonce but no realm can bring in an old realm. */
  lemma RealmlessIsNotLatest(s: Session, es: seq<Event>, k: nat)
    requires AllPossible(es) && k < |es| && es[k].Arrival? && Carries(es[k].msg) && es[k].msg.realm.None?
    ensures !AlwaysLatest(s, es)
  {
    hide Run, RunReads, LatestRealm;
    var was := Leftover("", OtherThan(LatestRealm(s, RunReads(s, es[..k]))));
    var fs := es[k := es[k].(was := was)];
    RunArrival(s, es, k, was);
    LatestStep(s, RunReads(s, es[..k]), Received(es[k].msg, was));
    assert !HasLatestRealm(s, fs, k + 1);
  }

  /** In a run of permission calls, keepalives and arriving messages, the cached nonce is at every
      moment the one of the last 401 or 438 reply that carried one, cut to its field, if and only if
      every such reply that arrives outside a permission call has a nonce attribute: `agent_recv`
      parses into a structure it has not cleared. */
  lemma NonceIsLatest(s: Session, es: seq<Event>)
    requires AllPossible(es)
    ensures AlwaysLatestNonce(s, es) <==> ArrivalsNameNonce(es)
  {
    hide Run, RunReads, LatestNonce;
    if ArrivalsNameNonce(es) {
      forall fs, n | SameButLeftovers(fs, es) && AllPossible(fs) && 0 <= n <= |fs| ensures HasLatestNonce(s, fs, n) {
        NamesPrefix(fs, es, n);
        PrefixIsLatest(s, fs[..n]);
      }
    } else {
      var k :| 0 <= k < |es| && es[k].Arrival? && IsErrorReply(es[k].msg) && es[k].msg.nonce.None?;
      NamelessIsNotLatest(s, es, k);
    }
  }

  lemma PrefixIsLatest(s: Session, es: seq<Event>)
    requires AllPossible(es) && ArrivalsNameNonce(es)
    ensures Run(s, es).nonce == LatestNonce(s, RunReads(s, es))
    ensures ArrivalsNameBoth(es) ==> Run(s, es).realm == LatestRealm(s, RunReads(s, es))
  {
    hide Run, RunReads, LatestNonce, LatestRealm, FoldAll, NonceIsOwn, CredentialsAreOwn;
    RunReadsAreOwn(s, es);
    RunFolds(s, es);
    FoldAllIsLatest(s, RunReads(s, es));
  }

  /** Nonce and realm are both the latest received if and only if every such reply has both
      attributes, or an empty nonce. */
  lemma CredentialsAreLatest(s: Session, es: seq<Event>)
    requires AllPossible(es)
    ensures AlwaysLatest(s, es) <==> ArrivalsNameBoth(es)
  {
    hide Run, RunReads, LatestNonce, LatestRealm;
    if ArrivalsNameBoth(es) {
      forall fs, n | SameButLeftovers(fs, es) && AllPossible(fs) && 0 <= n <= |fs|
        ensures HasLatestNonce(s, fs, n) && HasLatestRealm(s, fs, n)
      {
        NamesPrefix(fs, es, n);
        PrefixIsLatest(s, fs[..n]);
      }
    } else {
      var k :| 0 <= k < |es| && es[k].Arrival? && IsErrorReply(es[k].msg)
               && !(es[k].msg.nonce.Some? && (es[k].msg.nonce.value != "" ==> es[k].msg.realm.Some?));
      if es[k].msg.nonce.None? {
        NamelessIsNotLatest(s, es, k);
      } else {
        RealmlessIsNotLatest(s, es, k);
      }
    }
  }

  /** For example, a 438 reply without a nonce attribute: the text that an earlier message left in the
      structure becomes the nonce, though none has been received since. */
  lemma StaleNonceIsTaken(s: Session, was: Leftover)
    requires was.nonce != "" && Cut(was.nonce) != s.nonce
    ensures var es := [Arrival(Message(ErrorClass, Refresh, 438, None, None, false), was)];
            Run(s, es).nonce == Cut(was.nonce) != LatestNonce(s, RunReads(s, es))
  {
    var m := Message(ErrorClass, Refresh, 438, None, None, false);
    hide *;
    OneArrival(s, m, was);
    NamelessFold(s, m, was);
    LatestStep(s, [], Received(m, was));
    assert [] + [Received(m, was)] == [Received(m, was)];
  }

  lemma NamelessFold(s: Session, m: Message, was: Leftover)
    requires m.cls == ErrorClass && m.errorCode == 438 && m.nonce == None && was.nonce != ""
    ensures Fold(s, m, was).nonce == Cut(was.nonce) && !Carries(m)
  {
  }

  lemma OneArrival(s: Session, m: Message, was: Leftover)
    ensures Run(s, [Arrival(m, was)]) == Fold(s, m, was) && RunReads(s, [Arrival(m, was)]) == [Received(m, was)]
    ensures LatestNonce(s, []) == s.nonce
  {
    hide Fold;
    assert [Arrival(m, was)][..0] == [] && [] + [Received(m, was)] == [Received(m, was)];
  }

  // ---- Against a server ----

  datatype Server = Server(nonce: string, realm: string)

  predicate Accepts(server: Server, r: Request) {
    r.nonce == server.nonce && r.realm == server.realm
  }

  function MethodOf(r: Request): StunMethod {
    if r.PermissionRequest? then CreatePermission else Refresh
  }

  /** A message the server may answer a request with: success, or a challenge that names its nonce
      and perhaps its realm. */
  predicate Answers(server: Server, r: Request, m: Message) {
    if Accepts(server, r) then m.cls == ResponseClass && m.mthd == MethodOf(r)
    else && m.cls == ErrorClass && (m.errorCode == 401 || m.errorCode == 438)
         && m.nonce == Some(server.nonce) && (m.realm == Some(server.realm) || m.realm == None)
  }

  /** Every read returns the answer to the request just sent. */
  predicate HonestScript(server: Server, s: Session, peer: Address, script: seq<Exchange>)
    requires MAX_ATTEMPTS <= |script|
  {
    && script[0].Reply? && Answers(server, PermissionRequest(peer, s.nonce, s.realm), script[0].msg)
    && var t := Fold(s, script[0].msg, CLEARED);
       script[1].Reply? && Answers(server, PermissionRequest(peer, t.nonce, t.realm), script[1].msg)
  }

  /** A server whose nonce and realm fit the client's fields. */
  predicate Fits(server: Server) {
    |server.nonce| <= FIELD_MAX && |server.realm| <= FIELD_MAX
  }

  /** The client can come to sign with the server's nonce and realm: it has both already, or it can
      take over the nonce of a challenge, and has the realm or can take that over too. An empty text
      cannot be taken over, nor one that is longer than its field; `named` says whether the challenge
      names the realm. */
  predicate CanSign(server: Server, s: Session, named: bool) {
    || (s.nonce == server.nonce && s.realm == server.realm)
    || (&& server.nonce != "" && |server.nonce| <= FIELD_MAX
        && (s.realm == server.realm || (named && server.realm != "" && |server.realm| <= FIELD_MAX)))
  }

  /** The fields of a session hold no more than they can. */
  predicate Bounded(s: Session) {
    |s.nonce| <= FIELD_MAX && |s.realm| <= FIELD_MAX
  }

  lemma {:induction false} FoldAllBounded(s: Session, rs: seq<Received>)
    requires Bounded(s)
    ensures Bounded(FoldAll(s, rs)) && FoldAll(s, rs).hasRelay == s.hasRelay
  {
    if rs != [] {
      FoldAllBounded(s, rs[..|rs| - 1]);
    }
  }

  lemma RunBounded(s: Session, es: seq<Event>)
    requires Bounded(s) && AllPossible(es)
    ensures Bounded(Run(s, es))
  {
    RunFolds(s, es);
    FoldAllBounded(s, RunReads(s, es));
  }

  /** Against a server that keeps its nonce during the call, permission succeeds, within two requests,
      exactly when the client can come to sign with the server's nonce and realm. For a server with
      nonempty ones whose challenge names both, that means that they fit the client's fields, whatever
      was cached: a longer one is cut, so no request ever carries it. */
  lemma PermissionWithinTwo(server: Server, s: Session, peer: Address, now: nat, script: seq<Exchange>)
    requires MAX_ATTEMPTS <= |script| && HonestScript(server, s, peer, script)
    requires s.hasRelay && Bounded(s)
    ensures var o := SetPermission(s, peer, now, script);
            var named := script[0].msg.realm.Some?;
            && (o.ret == 0 <==> CanSign(server, s, named))
            && (server.nonce != "" && server.realm != "" && named ==> (o.ret == 0 <==> Fits(server)))
            && |o.sent| <= 2
            && (o.ret == 0 ==> o.sent != [] && Accepts(server, o.sent[|o.sent| - 1]) && Accepts(server, PermissionRequest(peer, o.session.nonce, o.session.realm)))
  {
    var t := Fold(s, script[0].msg, CLEARED);
    var o := Attempts(t, peer, now, script[1..], 1);
    assert script[1..][0] == script[1];
    assert script[1].msg.cls == ErrorClass ==> o.ret == -1 by {
      assert Attempts(Fold(t, script[1].msg, CLEARED), peer, now, script[1..][1..], 0).ret == -1;
    }
  }

  /** For example, a nonce of 64 characters: the server answers every request honestly, and the
      call gives up all the same. */
  lemma LongNonceFails(s: Session, peer: Address, now: nat)
    requires s.hasRelay && Bounded(s)
    ensures var server := Server(seq(64, _ => 'a'), "r");
            var m := Message(ErrorClass, CreatePermission, 438, Some(server.nonce), Some(server.realm), false);
            && HonestScript(server, s, peer, [Reply(m), Reply(m)])
            && SetPermission(s, peer, now, [Reply(m), Reply(m)]).ret == -1
  {
    var server := Server(seq(64, _ => 'a'), "r");
    var m := Message(ErrorClass, CreatePermission, 438, Some(server.nonce), Some(server.realm), false);
    var script := [Reply(m), Reply(m)];
    assert !Accepts(server, PermissionRequest(peer, s.nonce, s.realm));
    PermissionWithinTwo(server, s, peer, now, script);
    AttemptsOutcome(s, peer, now, script, MAX_ATTEMPTS);
  }

  predicate AllAccepted(server: Server, rs: seq<Request>) {
    forall k :: 0 <= k < |rs| ==> Accepts(server, rs[k])
  }

  predicate NamesBoth(server: Server, m: Message) {
    m.nonce == Some(server.nonce) && m.realm == Some(server.realm)
  }

  /** A keepalive cycle repairs the credentials: fold in any messages whose 401 and 438 replies all
      name the server's nonce and realm, with at least one among them if the cycle was refused. Then
      the next cycle is accepted exactly when the client can come to sign with them, which for nonempty
      ones means that they fit its fields. */
  lemma KeepaliveRecovers(server: Server, s: Session, arrived: seq<Received>)
    requires s.hasRelay && Bounded(s)
    requires forall r :: r in arrived && IsErrorReply(r.msg) ==> NamesBoth(server, r.msg)
    requires !AllAccepted(server, Keepalive(s)) ==> exists r :: r in arrived && IsErrorReply(r.msg)
    ensures AllAccepted(server, Keepalive(FoldAll(s, arrived))) <==> CanSign(server, s, true)
    ensures server.nonce != "" && server.realm != "" ==> (CanSign(server, s, true) <==> Fits(server))
  {
    var t := FoldAll(s, arrived);
    FoldAllBounded(s, arrived);
    FoldAllTakes(server, s, arrived);
    AcceptedMeansCached(server, s);
    AcceptedMeansCached(server, t);
  }

  lemma AcceptedMeansCached(server: Server, s: Session)
    requires s.hasRelay
    ensures AllAccepted(server, Keepalive(s)) <==> s.nonce == server.nonce && s.realm == server.realm
  {
    var rs := Keepalive(s);
    assert rs[|rs| - 1] == RefreshRequest(s.nonce, s.realm);
  }

  lemma {:induction false} FoldAllTakes(server: Server, s: Session, rs: seq<Received>)
    requires forall r :: r in rs && IsErrorReply(r.msg) ==> NamesBoth(server, r.msg)
    ensures var t := FoldAll(s, rs);
            if server.nonce != "" && exists r :: r in rs && IsErrorReply(r.msg) then
              t.nonce == Cut(server.nonce) && t.realm == (if server.realm != "" then Cut(server.realm) else s.realm)
            else t == s
  {
    if rs != [] {
      var init, last := rs[..|rs| - 1], rs[|rs| - 1];
      assert forall r :: r in init ==> r in rs;
      assert last in rs;
      FoldAllTakes(server, s, init);
      forall r | r in rs ensures r in init || r == last {
        var k :| 0 <= k < |rs| && rs[k] == r;
        assert k < |init| ==> init[k] == r;
      }
    }
  }
}
