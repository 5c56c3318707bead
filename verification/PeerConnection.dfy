/** The CHECKING case of `peer_connection_loop` in `peer_connection.c`, which drives the agent: when
    it connects, over which pair, and when it gives up. */
module PeerConnection {
  import opened Options
  import opened Selection
  import opened AgentState
  import Turn

  datatype State = Checking | Connected | GaveUp

  lemma SelectNominates(m: Machine)
    requires Inv(m)
    ensures Inv(Select(m).0) && |Select(m).0.pairs| == |m.pairs|
    ensures Select(m).1 == 0 || Select(m).1 == -1
    ensures Select(m).1 == 0 ==> HasNominee(Select(m).0)
  {
    StepKeepsInv(m, SelectCall);
    SelectUnderInv(m);
  }

  /** One pass: select a pair, check it, and connect when the check succeeds. */
  function CheckingCase(m: Machine, answered: bool): (r: (Machine, State))
    requires Inv(m)
    ensures Inv(r.0) && |r.0.pairs| == |m.pairs|
  {
    SelectNominates(m);
    var (s, selected) := Select(m);
    if selected < 0 then (s, GaveUp)
    else
      StepKeepsInv(s, CheckCall(answered));
      var (r, checked, _) := Check(s, answered);
      (r, if checked == 0 then Connected else Checking)
  }

  /** The loop runs until it leaves the CHECKING state; `answers` says for each pass whether its
      check would read a valid response. */
  function Loop(m: Machine, answers: seq<bool>): (r: (Machine, State))
    requires Inv(m)
    ensures Inv(r.0) && |r.0.pairs| == |m.pairs|
  {
    if answers == [] then (m, Checking)
    else
      var n := |answers| - 1;
      var (r, state) := Loop(m, answers[..n]);
      if state == Checking then CheckingCase(r, answers[n]) else (r, state)
  }

  function FirstAnswer(answers: seq<bool>): (f: nat)
    ensures f <= |answers| && (f < |answers| ==> answers[f])
    ensures forall i :: 0 <= i < f ==> !answers[i]
  {
    if answers == [] || answers[0] then 0 else 1 + FirstAnswer(answers[1..])
  }

  /** One pass on a table without a success: the rank says whether it gives up, and which pair an
      answer connects over. */
  lemma CheckingStep(m: Machine, answered: bool)
    requires Inv(m) && NoSuccess(m)
    ensures var (r, state) := CheckingCase(m, answered);
            if Rank(m) == 0 then state == GaveUp && r.selected == None
            else if !answered then state == Checking && NoSuccess(r) && Rank(r) == Rank(m) - 1 && r.selected == None
            else
              var k := |m.pairs| - 1 - (Rank(m) - 1) / CONNCHECK_MAX;
              && state == Connected && 0 <= k < |m.pairs|
              && r.selected == r.nominated == Some(k) && r.pairs[k].state == Succeeded
  {
    SelectLowersRank(m);
    SelectNominates(m);
    SelectUnderInv(m);
    FrontAfterSelect(m);
    var s := Select(m).0;
    if Rank(m) > 0 {
      NomineeOfRank(s, Rank(s));
    }
  }

  /** The rank of a table with a pair in progress tells which pair that is. */
  lemma NomineeOfRank(m: Machine, rank: nat)
    requires Inv(m) && rank == Rank(m)
    requires Front(m.pairs) < |m.pairs| && m.pairs[Front(m.pairs)].state == InProgress
    ensures Front(m.pairs) == |m.pairs| - 1 - rank / CONNCHECK_MAX
  {
    var k := Front(m.pairs);
    var left := |m.pairs| - k;
    var c := m.pairs[k].conncheck;
    assert rank == CONNCHECK_MAX * (left - 1) + (CONNCHECK_MAX - 1 - c);
    assert rank / CONNCHECK_MAX == left - 1;
  }

  lemma RankOfFresh(m: Machine)
    requires Fresh(m) && Inv(m)
    ensures Rank(m) == CONNCHECK_MAX * |m.pairs| && NoSuccess(m)
  {
    FrontIs(m.pairs, 0);
  }

  lemma {:induction false} LoopUnanswered(m: Machine, answers: seq<bool>)
    requires Fresh(m) && Inv(m) && forall i :: 0 <= i < |answers| ==> !answers[i]
    ensures var budget := CONNCHECK_MAX * |m.pairs|;
            var (r, state) := Loop(m, answers);
            && r.selected == None
            && if |answers| <= budget then state == Checking && NoSuccess(r) && Rank(r) == budget - |answers| else state == GaveUp
  {
    hide Select, Check, CheckingCase, Inv, Rank;
    if answers == [] {
      RankOfFresh(m);
    } else {
      var n := |answers| - 1;
      LoopUnanswered(m, answers[..n]);
      var (r, state) := Loop(m, answers[..n]);
      if state == Checking {
        CheckingStep(r, answers[n]);
      }
    }
  }

  /** Having left the CHECKING state the loop is over. */
  lemma {:induction false} LoopEnds(m: Machine, answers: seq<bool>, n: nat)
    requires Inv(m) && n <= |answers| && Loop(m, answers[..n]).1 != Checking
    ensures Loop(m, answers) == Loop(m, answers[..n])
  {
    if n == |answers| {
      assert answers[..n] == answers;
    } else {
      var init := answers[..|answers| - 1];
      assert init[..n] == answers[..n];
      LoopEnds(m, init, n);
    }
  }

  /** Outcome of the loop from a fresh table of n pairs. It connects exactly when the first answer
      comes within the first 1000*n passes, over the pair whose thousand passes that one belongs
      to; without one it gives up in pass 1000*n + 1, not before. */
  lemma LoopOutcome(m: Machine, answers: seq<bool>)
    requires Fresh(m)
    ensures Inv(m)
    ensures var f := FirstAnswer(answers);
            var budget := CONNCHECK_MAX * |m.pairs|;
            var (r, state) := Loop(m, answers);
            if f < |answers| && f < budget then
              var k := f / CONNCHECK_MAX;
              && state == Connected && k < |r.pairs|
              && r.selected == r.nominated == Some(k) && r.pairs[k].state == Succeeded
            else
              r.selected == None && state == if |answers| <= budget then Checking else GaveUp
  {
    FreshInv(m);
    hide Loop, Select, Check, CheckingCase, Inv, Rank, NoSuccess, Front, FirstAnswer;
    var f := FirstAnswer(answers);
    var budget := CONNCHECK_MAX * |m.pairs|;
    LoopUnanswered(m, answers[..f]);
    if f == |answers| {
      assert answers[..f] == answers;
    } else if f < budget {
      AnswerConnects(m, answers, f);
      LoopEnds(m, answers, f + 1);
    } else {
      LastPassGivesUp(m, answers, budget);
      LoopEnds(m, answers, budget + 1);
    }
  }

  lemma PairOfPass(pairs: nat, pass: nat)
    ensures pass < CONNCHECK_MAX * pairs ==> pairs - 1 - (CONNCHECK_MAX * pairs - pass - 1) / CONNCHECK_MAX == pass / CONNCHECK_MAX
  {
  }

  lemma AnswerConnects(m: Machine, answers: seq<bool>, f: nat)
    requires Fresh(m) && Inv(m) && f < |answers| && f < CONNCHECK_MAX * |m.pairs| && answers[f]
    requires forall i :: 0 <= i < f ==> !answers[i]
    ensures var (r, state) := Loop(m, answers[..f + 1]);
            var k := f / CONNCHECK_MAX;
            && state == Connected && k < |r.pairs|
            && r.selected == r.nominated == Some(k) && r.pairs[k].state == Succeeded
  {
    hide Select, Check, CheckingCase, Inv, Rank, Fresh;
    assert answers[..f + 1][..f] == answers[..f];
    LoopUnanswered(m, answers[..f]);
    CheckingStep(Loop(m, answers[..f]).0, true);
    PairOfPass(|m.pairs|, f);
  }

  lemma LastPassGivesUp(m: Machine, answers: seq<bool>, budget: nat)
    requires Fresh(m) && Inv(m) && budget == CONNCHECK_MAX * |m.pairs| < |answers|
    requires forall i :: 0 <= i < budget ==> !answers[i]
    ensures Loop(m, answers[..budget + 1]).1 == GaveUp && Loop(m, answers[..budget + 1]).0.selected == None
  {
    hide Select, Check, CheckingCase, Inv, Rank, Fresh;
    assert answers[..budget + 1][..budget] == answers[..budget];
    LoopUnanswered(m, answers[..budget]);
    CheckingStep(Loop(m, answers[..budget]).0, answers[budget]);
  }

  /** The CHECKING case on the agent. A check never runs without a nominated pair. */
  method Pass(agent: Agent, now: nat, script: seq<Turn.Exchange>, p: Packet, was: Turn.Leftover) returns (state: State)
    requires agent.Valid() && Inv(agent.Machine()) && Turn.MAX_ATTEMPTS <= |script|
    modifies agent, agent.candidatePairs
    ensures agent.Valid() && Inv(agent.Machine())
    ensures (agent.Machine(), state) == CheckingCase(old(agent.Machine()), IsAnswer(p))
  {
    hide Select, Check, Inv;
    ghost var m := agent.Machine();
    SelectNominates(m);
    var selected, asked := agent.SelectCandidatePair(now, script);
    if selected < 0 {
      return GaveUp;
    }
    ghost var s := agent.Machine();
    assert (s, selected) == Select(m);
    var checked, sent := agent.ConnectivityCheck(p, was);
    assert (agent.Machine(), checked, sent) == Check(s, IsAnswer(p));
    StepKeepsInv(s, CheckCall(IsAnswer(p)));
    if checked == 0 {
      return Connected;
    }
    return Checking;
  }
}
