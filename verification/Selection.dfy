/** The candidate-pair selection machine of `agent.c` as a transition system over values: one call
    of `agent_select_candidate_pair`, one connectivity check, one binding response read elsewhere.
    The theorems are about every run of these steps. */
module Selection {
  import opened Options

  const CONNCHECK_MAX: nat := 1000
  const CONNCHECK_PERIOD: nat := 100

  datatype PairState = Frozen | InProgress | Succeeded | Failed

  /** A pair names its candidates by their places in the two lists. */
  datatype Pair = Pair(local: nat, remote: nat, priority: nat, state: PairState, conncheck: nat)

  datatype Machine = Machine(pairs: seq<Pair>, nominated: Option<nat>, selected: Option<nat>)

  // ---- The steps ----

  function Nominate(m: Machine, k: nat): (Machine, int)
    requires k < |m.pairs|
  {
    (m.(pairs := m.pairs[k := m.pairs[k].(state := InProgress, conncheck := 0)], nominated := Some(k)), 0)
  }

  function Tick(m: Machine, k: nat): (Machine, int)
    requires k < |m.pairs|
  {
    (m.(pairs := m.pairs[k := m.pairs[k].(conncheck := m.pairs[k].conncheck + 1)]), 0)
  }

  function GiveUp(m: Machine, k: nat): Machine
    requires k < |m.pairs|
  {
    m.(pairs := m.pairs[k := m.pairs[k].(state := Failed, conncheck := m.pairs[k].conncheck + 1)])
  }

  /** `agent_select_candidate_pair` from pair `i` on: the new state and the returned value. */
  function SelectFrom(m: Machine, i: nat): (Machine, int)
    requires i <= |m.pairs|
    decreases |m.pairs| - i
  {
    if i == |m.pairs| then (m, -1)
    else
      var p := m.pairs[i];
      match p.state
      case Frozen => Nominate(m, i)
      case InProgress => if p.conncheck + 1 < CONNCHECK_MAX then Tick(m, i) else SelectFrom(GiveUp(m, i), i + 1)
      case Failed => SelectFrom(m, i + 1)
      case Succeeded => (m.(selected := Some(i)), 0)
  }

  function Select(m: Machine): (Machine, int) {
    SelectFrom(m, 0)
  }

  /** The pair that a selection call from pair `i` on newly nominates: a relay pair asks the TURN
      server for a permission at that moment. */
  function NewNominee(m: Machine, i: nat): (k: Option<nat>)
    requires i <= |m.pairs|
    ensures k.Some? ==> i <= k.value < |m.pairs| && m.pairs[k.value].state == Frozen
    decreases |m.pairs| - i
  {
    if i == |m.pairs| then None
    else
      match m.pairs[i].state
      case Frozen => Some(i)
      case InProgress => if m.pairs[i].conncheck + 1 < CONNCHECK_MAX then None else NewNominee(m, i + 1)
      case Failed => NewNominee(m, i + 1)
      case Succeeded => None
  }

  lemma {:induction false} NomineeIsAhead(m: Machine, q: Machine, i: nat)
    requires i <= |m.pairs| == |q.pairs| && forall k :: i <= k < |m.pairs| ==> m.pairs[k] == q.pairs[k]
    ensures NewNominee(m, i) == NewNominee(q, i)
    decreases |m.pairs| - i
  {
    if i < |m.pairs| {
      NomineeIsAhead(m, q, i + 1);
    }
  }

  lemma {:induction false} SelectFromLeaves(m: Machine, i: nat)
    requires i <= |m.pairs|
    ensures var r := SelectFrom(m, i).0;
            && |r.pairs| == |m.pairs|
            && (forall k :: 0 <= k < |m.pairs| ==> r.pairs[k].local == m.pairs[k].local && r.pairs[k].remote == m.pairs[k].remote)
            && (forall k :: 0 <= k < |m.pairs| && m.pairs[k].state == Frozen ==>
                  r.pairs[k].state == if NewNominee(m, i) == Some(k) then InProgress else Frozen)
    decreases |m.pairs| - i
  {
    if i < |m.pairs| {
      var p := m.pairs[i];
      if p.state == InProgress && p.conncheck + 1 >= CONNCHECK_MAX {
        SelectFromLeaves(GiveUp(m, i), i + 1);
        NomineeIsAhead(GiveUp(m, i), m, i + 1);
      } else if p.state == Failed {
        SelectFromLeaves(m, i + 1);
      }
    }
  }

  /** A selection call unfreezes the new nominee and no other pair, and never changes which
      candidates a pair names. */
  lemma SelectLeaves(m: Machine)
    ensures var r := Select(m).0;
            && |r.pairs| == |m.pairs|
            && (forall k :: 0 <= k < |m.pairs| ==> r.pairs[k].local == m.pairs[k].local && r.pairs[k].remote == m.pairs[k].remote)
            && (forall k :: 0 <= k < |m.pairs| && m.pairs[k].state == Frozen ==>
                  r.pairs[k].state == if NewNominee(m, 0) == Some(k) then InProgress else Frozen)
  {
    SelectFromLeaves(m, 0);
  }

  predicate HasNominee(m: Machine) {
    m.nominated.Some? && m.nominated.value < |m.pairs|
  }

  /** An authentic binding response is credited to the nominated pair, whatever its state. */
  function Credit(m: Machine): Machine
    requires HasNominee(m)
  {
    var k := m.nominated.value;
    m.(pairs := m.pairs[k := m.pairs[k].(state := Succeeded)])
  }

  /** `agent_connectivity_check` when one authentic binding response is read (`answered`) or
      none: the new state, the returned value, and whether a binding request goes out. */
  function Check(m: Machine, answered: bool): (Machine, int, bool)
    requires HasNominee(m)
  {
    var p := m.pairs[m.nominated.value];
    if p.state != InProgress then (m, -1, false)
    else
      var sent := p.conncheck % CONNCHECK_PERIOD == 0;
      if answered then (Credit(m).(selected := m.nominated), 0, sent) else (m, -1, sent)
  }

  datatype Event = SelectCall | CheckCall(answered: bool) | LateResponse

  predicate Enabled(m: Machine, e: Event) {
    e.SelectCall? || HasNominee(m)
  }

  function Step(m: Machine, e: Event): Machine
    requires Enabled(m, e)
  {
    match e
    case SelectCall => Select(m).0
    case CheckCall(answered) => Check(m, answered).0
    case LateResponse => Credit(m)
  }

  predicate Possible(m: Machine, es: seq<Event>)
    decreases |es|
  {
    es != [] ==> Enabled(m, es[0]) && Possible(Step(m, es[0]), es[1..])
  }

  function Run(m: Machine, es: seq<Event>): Machine
    requires Possible(m, es)
    decreases |es|
  {
    if es == [] then m else Run(Step(m, es[0]), es[1..])
  }

  // ---- The invariant ----

  /** The length of the leading block of failed pairs. */
  function Front(pairs: seq<Pair>): (k: nat)
    ensures k <= |pairs|
    ensures forall i :: 0 <= i < k ==> pairs[i].state == Failed
    ensures k < |pairs| ==> pairs[k].state != Failed
  {
    if pairs == [] || pairs[0].state != Failed then 0 else 1 + Front(pairs[1..])
  }

  lemma {:induction false} FrontIs(pairs: seq<Pair>, k: nat)
    requires k <= |pairs| && forall i :: 0 <= i < k ==> pairs[i].state == Failed
    requires k < |pairs| ==> pairs[k].state != Failed
    ensures Front(pairs) == k
  {
    if k > 0 {
      FrontIs(pairs[1..], k - 1);
    }
  }

  /** A table as `agent_update_candidate_pairs` leaves it. */
  predicate Fresh(m: Machine) {
    && (forall i :: 0 <= i < |m.pairs| ==> m.pairs[i].state == Frozen)
    && m.nominated == None && m.selected == None
  }

  /** Failed pairs, then at most one pair in progress or succeeded, which is the nominated one,
      then frozen pairs; only the succeeded pair is ever selected. */
  predicate Inv(m: Machine) {
    var k := Front(m.pairs);
    && (forall i :: k < i < |m.pairs| ==> m.pairs[i].state == Frozen)
    && if k == |m.pairs| then m.selected == None && m.nominated == (if k == 0 then None else Some(k - 1))
       else
         match m.pairs[k].state
         case Frozen => k == 0 && m.nominated == None && m.selected == None
         case InProgress => m.nominated == Some(k) && m.selected == None && m.pairs[k].conncheck < CONNCHECK_MAX
         case Succeeded => m.nominated == Some(k) && (m.selected == None || m.selected == Some(k))
         case Failed => false
  }

  lemma FreshInv(m: Machine)
    requires Fresh(m)
    ensures Inv(m)
  {
    FrontIs(m.pairs, 0);
  }

  lemma {:induction false} SelectSkipsFailed(m: Machine, i: nat)
    requires i <= Front(m.pairs)
    ensures SelectFrom(m, i) == SelectFrom(m, Front(m.pairs))
    decreases Front(m.pairs) - i
  {
    if i < Front(m.pairs) {
      SelectSkipsFailed(m, i + 1);
    }
  }

  /** One selection call under the invariant, case by case. */
  lemma SelectUnderInv(m: Machine)
    requires Inv(m)
    ensures var k := Front(m.pairs);
            var n := |m.pairs|;
            if k == n then Select(m) == (m, -1)
            else
              match m.pairs[k].state
              case Frozen => Select(m) == Nominate(m, k)
              case InProgress =>
                if m.pairs[k].conncheck + 1 < CONNCHECK_MAX then Select(m) == Tick(m, k)
                else if k + 1 == n then Select(m) == (GiveUp(m, k), -1)
                else Select(m) == Nominate(GiveUp(m, k), k + 1)
              case Succeeded => Select(m) == (m.(selected := Some(k)), 0)
              case Failed => false
  {
    SelectSkipsFailed(m, 0);
  }

  /** Where the front is after a selection call. */
  lemma FrontAfterSelect(m: Machine)
    requires Inv(m)
    ensures var k := Front(m.pairs);
            Front(Select(m).0.pairs) ==
            if k < |m.pairs| && m.pairs[k].state == InProgress && m.pairs[k].conncheck + 1 == CONNCHECK_MAX then k + 1 else k
  {
    var k := Front(m.pairs);
    SelectUnderInv(m);
    var pairs := Select(m).0.pairs;
    if k < |m.pairs| && m.pairs[k].state == InProgress && m.pairs[k].conncheck + 1 == CONNCHECK_MAX {
      FrontIs(pairs, k + 1);
    } else {
      FrontIs(pairs, k);
    }
  }

  lemma FrontAfterCredit(m: Machine)
    requires Inv(m) && HasNominee(m)
    ensures Front(Credit(m).pairs) == m.nominated.value
  {
    FrontIs(Credit(m).pairs, m.nominated.value);
  }

  /** Every step keeps the invariant, a response that arrives after the last pair has failed
      included. */
  lemma StepKeepsInv(m: Machine, e: Event)
    requires Inv(m) && Enabled(m, e)
    ensures Inv(Step(m, e)) && |Step(m, e).pairs| == |m.pairs|
  {
    match e
    case SelectCall =>
      SelectUnderInv(m);
      FrontAfterSelect(m);
    case CheckCall(answered) =>
      FrontAfterCredit(m);
    case LateResponse =>
      FrontAfterCredit(m);
  }

  /** The invariant holds in every reachable state. */
  lemma {:induction false} RunKeepsInv(m: Machine, es: seq<Event>)
    requires Inv(m) && Possible(m, es)
    ensures Inv(Run(m, es)) && |Run(m, es).pairs| == |m.pairs|
    decreases |es|
  {
    if es != [] {
      StepKeepsInv(m, es[0]);
      RunKeepsInv(Step(m, es[0]), es[1..]);
    }
  }

  /** Shape: in every state a fresh table can reach, the pairs read FAILED*, at most one
      INPROGRESS or SUCCEEDED pair, FROZEN*, and that one pair is the nominated one. */
  lemma ReachableShape(m: Machine, es: seq<Event>) returns (k: nat)
    requires Fresh(m) && Possible(m, es)
    ensures var r := Run(m, es);
            && k <= |r.pairs| == |m.pairs|
            && (forall i :: 0 <= i < k ==> r.pairs[i].state == Failed)
            && (forall i :: k < i < |r.pairs| ==> r.pairs[i].state == Frozen)
            && (k < |r.pairs| && r.pairs[k].state != Frozen ==> r.nominated == Some(k) && r.pairs[k].state in {InProgress, Succeeded})
            && (r.selected.Some? ==> k < |r.pairs| && r.selected == Some(k) && r.pairs[k].state == Succeeded)
  {
    FreshInv(m);
    RunKeepsInv(m, es);
    k := Front(Run(m, es).pairs);
  }

  // ---- Success is final ----

  lemma SucceededIsFront(m: Machine, i: nat)
    requires Inv(m) && i < |m.pairs| && m.pairs[i].state == Succeeded
    ensures Front(m.pairs) == i && m.nominated == Some(i)
  {
    assert m.pairs[i].state != Frozen && m.pairs[i].state != Failed;
  }

  /** Once a pair has succeeded, no run changes its state or the nomination, and a selection once
      made stays. */
  lemma {:induction false} SuccessIsFinal(m: Machine, i: nat, es: seq<Event>)
    requires Inv(m) && Possible(m, es)
    requires i < |m.pairs| && m.pairs[i].state == Succeeded
    ensures var r := Run(m, es);
            && |r.pairs| == |m.pairs| && r.pairs[i].state == Succeeded && r.nominated == Some(i)
            && (m.selected.Some? ==> r.selected == Some(i) == m.selected)
            && (m.selected.None? ==> r.selected == None || r.selected == Some(i))
    decreases |es|
  {
    SucceededIsFront(m, i);
    if es != [] {
      SelectUnderInv(m);
      StepKeepsInv(m, es[0]);
      SuccessIsFinal(Step(m, es[0]), i, es[1..]);
    }
  }

  /** A credited response leads to selection: after it every selection call returns 0 and selects
      the pair that was nominated when it arrived. */
  lemma CreditedIsSelected(m: Machine, es: seq<Event>)
    requires Inv(m) && HasNominee(m) && Possible(Credit(m), es)
    ensures var r := Run(Credit(m), es);
            Select(r).1 == 0 && Select(r).0.selected == m.nominated
  {
    var k := m.nominated.value;
    StepKeepsInv(m, LateResponse);
    SuccessIsFinal(Credit(m), k, es);
    RunKeepsInv(Credit(m), es);
    SucceededIsFront(Run(Credit(m), es), k);
    SelectUnderInv(Run(Credit(m), es));
  }

  // ---- The budget ----

  /** Ranking function: how many more selection calls return 0 while no response arrives. */
  function Rank(m: Machine): nat
    requires Inv(m)
  {
    var k := Front(m.pairs);
    var left := |m.pairs| - k;
    if left == 0 then 0
    else if m.pairs[k].state == InProgress then CONNCHECK_MAX - 1 - m.pairs[k].conncheck + CONNCHECK_MAX * (left - 1)
    else CONNCHECK_MAX * left
  }

  predicate Unanswered(e: Event) {
    e == SelectCall || e == CheckCall(false)
  }

  predicate NoSuccess(m: Machine) {
    forall i :: 0 <= i < |m.pairs| ==> m.pairs[i].state != Succeeded
  }

  /** A selection call returns 0 exactly while the rank is positive, and then lowers it by one. */
  lemma SelectLowersRank(m: Machine)
    requires Inv(m) && NoSuccess(m)
    ensures var (r, ret) := Select(m);
            && Inv(r) && NoSuccess(r) && |r.pairs| == |m.pairs|
            && ret == (if Rank(m) > 0 then 0 else -1)
            && Rank(r) == (if Rank(m) > 0 then Rank(m) - 1 else 0)
  {
    StepKeepsInv(m, SelectCall);
    SelectUnderInv(m);
    FrontAfterSelect(m);
  }

  /** The values returned by the selection calls of a run. */
  function Returns(m: Machine, es: seq<Event>): seq<int>
    requires Possible(m, es)
    decreases |es|
  {
    if es == [] then []
    else
      (if es[0] == SelectCall then [Select(m).1] else []) + Returns(Step(m, es[0]), es[1..])
  }

  lemma {:induction false} RankIsBudget(m: Machine, es: seq<Event>)
    requires Inv(m) && NoSuccess(m) && Possible(m, es)
    requires forall e :: e in es ==> Unanswered(e)
    ensures forall t :: 0 <= t < |Returns(m, es)| ==> Returns(m, es)[t] == if t < Rank(m) then 0 else -1
    decreases |es|
  {
    if es != [] {
      var next := Step(m, es[0]);
      assert es[0] in es;
      if es[0] == SelectCall {
        SelectLowersRank(m);
        RankIsBudget(next, es[1..]);
        assert Returns(m, es) == [Select(m).1] + Returns(next, es[1..]);
      } else {
        assert next == m;
        RankIsBudget(m, es[1..]);
        assert Returns(m, es) == Returns(m, es[1..]);
      }
    }
  }

  /** Budget: from a fresh table of n pairs, in any run without a valid response, exactly the
      first 1000*n selection calls return 0 and every later one returns -1. */
  lemma SelectionBudget(m: Machine, es: seq<Event>)
    requires Fresh(m) && Possible(m, es)
    requires forall e :: e in es ==> Unanswered(e)
    ensures forall t :: 0 <= t < |Returns(m, es)| ==>
      Returns(m, es)[t] == if t < CONNCHECK_MAX * |m.pairs| then 0 else -1
  {
    FreshInv(m);
    RankIsBudget(m, es);
  }

  // ---- The requests ----

  /** One round of the CHECKING loop of `peer_connection.c` without a response: a selection call
      and, when it returns 0, a check. Its second part names the pairs a request is sent for. */
  function Round(m: Machine): (Machine, seq<nat>) {
    var (r, ret) := Select(m);
    if ret == 0 && HasNominee(r) && Check(r, false).2 then (r, [r.nominated.value]) else (r, [])
  }

  function Rounds(m: Machine, t: nat): (Machine, seq<nat>) {
    if t == 0 then (m, [])
    else
      var (r, sent) := Rounds(m, t - 1);
      (Round(r).0, sent + Round(r).1)
  }

  function Count(sent: seq<nat>, k: nat): nat {
    if sent == [] then 0 else Count(sent[..|sent| - 1], k) + if sent[|sent| - 1] == k then 1 else 0
  }

  /** The requests a pair has had, read off its state. */
  function Due(p: Pair): nat {
    match p.state
    case Frozen => 0
    case InProgress => p.conncheck / CONNCHECK_PERIOD + 1
    case Failed => CONNCHECK_MAX / CONNCHECK_PERIOD
    case Succeeded => 0
  }

  lemma CountAppend(sent: seq<nat>, more: seq<nat>, k: nat)
    requires |more| <= 1
    ensures Count(sent + more, k) == Count(sent, k) + if more == [k] then 1 else 0
  {
    if more == [] {
      assert sent + more == sent;
    } else {
      assert (sent + more)[..|sent|] == sent;
    }
  }

  /** A round sends what keeps `Due` exact. */
  lemma RoundSendsDue(m: Machine, k: nat)
    requires Inv(m) && NoSuccess(m) && k < |m.pairs|
    ensures var (r, sent) := Round(m);
            && |r.pairs| == |m.pairs| && |sent| <= 1
            && Due(r.pairs[k]) == Due(m.pairs[k]) + if sent == [k] then 1 else 0
  {
    SelectUnderInv(m);
  }

  lemma {:induction false} RoundsInv(m: Machine, t: nat)
    requires Fresh(m)
    ensures var r := Rounds(m, t).0;
            && Inv(r) && NoSuccess(r) && |r.pairs| == |m.pairs|
            && Rank(r) == (if t < CONNCHECK_MAX * |m.pairs| then CONNCHECK_MAX * |m.pairs| - t else 0)
  {
    if t == 0 {
      FreshInv(m);
    } else {
      RoundsInv(m, t - 1);
      SelectLowersRank(Rounds(m, t - 1).0);
    }
  }

  lemma {:induction false} RoundsSendDue(m: Machine, t: nat, k: nat)
    requires Fresh(m) && k < |m.pairs|
    ensures |Rounds(m, t).0.pairs| == |m.pairs| && Count(Rounds(m, t).1, k) == Due(Rounds(m, t).0.pairs[k])
  {
    RoundsInv(m, t);
    if t > 0 {
      var (r, sent) := Rounds(m, t - 1);
      RoundsInv(m, t - 1);
      RoundsSendDue(m, t - 1, k);
      RoundSendsDue(r, k);
      CountAppend(sent, Round(r).1, k);
    }
  }

  /** Requests: with one check after each successful selection call and no valid response, exactly
      ten binding requests have gone out for every pair when the budget is used up, and none follow. */
  lemma TenRequestsPerPair(m: Machine, t: nat, k: nat)
    requires Fresh(m) && k < |m.pairs| && CONNCHECK_MAX * |m.pairs| <= t
    ensures Count(Rounds(m, t).1, k) == 10
  {
    RoundsInv(m, t);
    RoundsSendDue(m, t, k);
    var r := Rounds(m, t).0;
    assert Front(r.pairs) >= |r.pairs| - 1;
    assert k != Front(r.pairs) ==> r.pairs[k].state == Failed;
  }
}
