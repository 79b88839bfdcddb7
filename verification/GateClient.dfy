/** The gate and the client of its message protocol (auth.go, testclient/main.go) joined by two
    queues, without input or output errors: every run ends, and both sides agree how. */
module GateClient {
  import opened Prelude
  import opened LockoutState
  import opened Gate

  /** The client answers every prompt with one reply and stops at the verdict. */
  datatype Client = Listening | Stopped(verdict: Verdict)

  /** `turns` bounds the messages the account check may still exchange in the current attempt; it is
      chosen anew for each attempt. */
  datatype System = System(gate: Stage, turns: nat, client: Client, toClient: seq<Msg>, toGate: seq<string>)

  datatype Move =
    | GateMoves(action: Action, turns: nat)
    | ClientMoves

  function Init(): System {
    System(Start, 0, Listening, [], [])
  }

  predicate CanMove(s: System, m: Move, banner: string) {
    match m
    case ClientMoves => s.client.Listening? && s.toClient != []
    case GateMoves(a, _) =>
      && After(s.gate, a, banner).Some?
      && !a.SendFailed? && !a.ReceiveFailed?
      && (a.Sent? && s.gate.Verifying? ==> s.turns > 0)
      && (a.Received? ==> s.toGate != [] && s.toGate[0] == a.reply)
  }

  function HearMessage(s: System, reply: string): System
    requires s.client.Listening? && s.toClient != []
  {
    var m := s.toClient[0];
    var rest := s.(toClient := s.toClient[1..]);
    match m
    case Info(_) => rest
    case Prompt(_, _) => rest.(toGate := s.toGate + [reply])
    case Locked(_) => rest.(client := Stopped(WasLocked))
    case Denied(_) => rest.(client := Stopped(WasDenied))
    case Granted => rest.(client := Stopped(WasGranted))
  }

  function DoMove(s: System, m: Move, banner: string, reply: string): System
    requires CanMove(s, m, banner)
  {
    match m
    case ClientMoves => HearMessage(s, reply)
    case GateMoves(a, turns) =>
      System(After(s.gate, a, banner).value,
             if a.Checked? then turns else if a.Sent? && s.gate.Verifying? then s.turns - 1 else s.turns,
             s.client,
             s.toClient + (if a.Sent? then [a.m] else []),
             if a.Received? then s.toGate[1..] else s.toGate)
  }

  // ----- Invariant -----

  function Prompts(ms: seq<Msg>): nat {
    if ms == [] then 0 else (if ms[0].Prompt? then 1 else 0) + Prompts(ms[1..])
  }

  predicate IsLastWord(m: Msg) {
    m.Locked? || m.Denied? || m.Granted?
  }

  predicate NoLastWord(ms: seq<Msg>) {
    forall i :: 0 <= i < |ms| ==> !IsLastWord(ms[i])
  }

  /** One reply is outstanding exactly while the gate waits for one; a verdict is under way exactly
      after the gate is done, and then it is the last message and the gate's own verdict. */
  predicate Inv(s: System) {
    && InAttempts(s.gate)
    && Prompts(s.toClient) + |s.toGate| == (if s.gate.Awaiting? then 1 else 0)
    && (!s.gate.Done? ==> s.client.Listening? && NoLastWord(s.toClient))
    && (s.gate.Done? ==>
          && (s.gate.failed <==> s.gate.verdict != WasGranted)
          && (s.client.Stopped? ==> s.client.verdict == s.gate.verdict && s.toClient == [])
          && (s.client.Listening? ==>
                && s.toClient != [] && NoLastWord(s.toClient[..|s.toClient| - 1])
                && IsLastWord(s.toClient[|s.toClient| - 1])
                && VerdictOf(s.toClient[|s.toClient| - 1]) == s.gate.verdict))
  }

  lemma {:induction false} PromptsAppend(ms: seq<Msg>, m: Msg)
    ensures Prompts(ms + [m]) == Prompts(ms) + (if m.Prompt? then 1 else 0)
  {
    if ms == [] {
      assert ([] + [m])[1..] == [];
    } else {
      assert (ms + [m])[1..] == ms[1..] + [m];
      PromptsAppend(ms[1..], m);
    }
  }

  /** All replies on the way to the gate are the client's reply. */
  predicate RepliesAre(s: System, reply: string) {
    forall i :: 0 <= i < |s.toGate| ==> s.toGate[i] == reply
  }

  /** The gate never receives anything but the client's reply. */
  lemma OnlyTheReplyIsReceived(s: System, m: Move, banner: string, reply: string)
    requires RepliesAre(s, reply) && CanMove(s, m, banner)
    ensures RepliesAre(DoMove(s, m, banner, reply), reply)
    ensures m.GateMoves? && m.action.Received? ==> m.action.reply == reply
  {
  }

  // ----- Every log of the gate can happen -----

  predicate CanRun(s: System, ms: seq<Move>, banner: string, reply: string)
    decreases |ms|
  {
    ms == [] || (CanMove(s, ms[0], banner) && CanRun(DoMove(s, ms[0], banner, reply), ms[1..], banner, reply))
  }

  function RunMoves(s: System, ms: seq<Move>, banner: string, reply: string): System
    requires CanRun(s, ms, banner, reply)
    decreases |ms|
  {
    if ms == [] then s else RunMoves(DoMove(s, ms[0], banner, reply), ms[1..], banner, reply)
  }

  function Actions(ms: seq<Move>): seq<Action> {
    if ms == [] then []
    else (if ms[0].GateMoves? then [ms[0].action] else []) + Actions(ms[1..])
  }

  /** No input or output error, and no reply but the client's. */
  predicate IsUntroubled(log: seq<Action>, reply: string) {
    forall i :: 0 <= i < |log| ==>
      !log[i].SendFailed? && !log[i].ReceiveFailed? && (log[i].Received? ==> log[i].reply == reply)
  }

  /** The client has heard everything and answered. */
  predicate IsSettled(s: System, reply: string) {
    && s.toClient == [] && s.toGate == (if s.gate.Awaiting? then [reply] else [])
    && (s.client.Listening? <==> !s.gate.Done?) && InAttempts(s.gate)
  }

  lemma MoveCons(s: System, m: Move, ms: seq<Move>, banner: string, reply: string)
    requires CanMove(s, m, banner) && CanRun(DoMove(s, m, banner, reply), ms, banner, reply)
    ensures CanRun(s, [m] + ms, banner, reply)
    ensures RunMoves(s, [m] + ms, banner, reply) == RunMoves(DoMove(s, m, banner, reply), ms, banner, reply)
    ensures Actions([m] + ms) == (if m.GateMoves? then [m.action] else []) + Actions(ms)
  {
    assert ([m] + ms)[1..] == ms;
  }

  /** One action of the gate, and the client's move if it was a message. */
  lemma GateStep(s: System, a: Action, budget: nat, banner: string, reply: string)
    requires IsSettled(s, reply) && After(s.gate, a, banner).Some? && IsUntroubled([a], reply)
    requires s.gate.Verifying? || s.gate.Awaiting? ==> s.turns > budget
    ensures CanMove(s, GateMoves(a, budget), banner)
    ensures var t := DoMove(s, GateMoves(a, budget), banner, reply);
            var u := if a.Sent? then DoMove(t, ClientMoves, banner, reply) else t;
            && (a.Sent? ==> CanMove(t, ClientMoves, banner))
            && IsSettled(u, reply) && u.gate == After(s.gate, a, banner).value
            && (u.gate.Verifying? || u.gate.Awaiting? ==> u.turns >= budget)
  {
    assert [a][0] == a;
    AfterFacts(s.gate, a, banner);
  }

  /** For every log the gate can produce without errors some run of gate and client has exactly these
      actions of the gate: joining the two excludes nothing. */
  lemma {:induction false} EveryLogIsARun(s: System, log: seq<Action>, banner: string, reply: string)
    returns (ms: seq<Move>)
    requires IsSettled(s, reply) && Follow(s.gate, log, banner).Some? && IsUntroubled(log, reply)
    requires s.gate.Verifying? || s.gate.Awaiting? ==> s.turns >= |log|
    ensures CanRun(s, ms, banner, reply) && Actions(ms) == log
    ensures IsSettled(RunMoves(s, ms, banner, reply), reply)
    ensures RunMoves(s, ms, banner, reply).gate == Follow(s.gate, log, banner).value
    decreases |log|
  {
    if log == [] {
      ms := [];
    } else {
      var a, m := log[0], GateMoves(log[0], |log| - 1);
      GateStep(s, a, |log| - 1, banner, reply);
      var t := DoMove(s, m, banner, reply);
      assert [a] + log[1..] == log;
      if a.Sent? {
        var rest := EveryLogIsARun(DoMove(t, ClientMoves, banner, reply), log[1..], banner, reply);
        MoveCons(t, ClientMoves, rest, banner, reply);
        MoveCons(s, m, [ClientMoves] + rest, banner, reply);
        ms := [m] + ([ClientMoves] + rest);
      } else {
        var rest := EveryLogIsARun(t, log[1..], banner, reply);
        MoveCons(s, m, rest, banner, reply);
        ms := [m] + rest;
      }
    }
  }

  // ----- The client as a program -----

  /** Up to `count` moves of the client. */
  function Hear(s: System, count: nat, reply: string): System
    decreases count
  {
    if count == 0 || !s.client.Listening? || s.toClient == [] then s
    else Hear(HearMessage(s, reply), count - 1, reply)
  }

  lemma {:induction false} HearOneMore(s: System, count: nat, reply: string)
    ensures Hear(s, count + 1, reply) == Hear(Hear(s, count, reply), 1, reply)
    decreases count
  {
    if count > 0 && s.client.Listening? && s.toClient != [] {
      HearOneMore(HearMessage(s, reply), count - 1, reply);
    }
  }

  /** A client with these messages still to come, these replies given, and this outcome. */
  function ClientWith(ms: seq<Msg>, replies: seq<string>, verdict: Option<Verdict>): System {
    System(Start, 0, if verdict == None then Listening else Stopped(verdict.value), ms, replies)
  }

  /** The client's loop over the messages that arrive until the connection ends: it stops at the
      first verdict, or at the end without one, and every step is the client's move. */
  method RunClient(ms: seq<Msg>, reply: string) returns (verdict: Option<Verdict>, heard: nat, replies: seq<string>)
    ensures heard <= |ms|
    ensures Hear(ClientWith(ms, [], None), heard, reply) == ClientWith(ms[heard..], replies, verdict)
    ensures |replies| == Prompts(ms[..heard]) && forall i :: 0 <= i < |replies| ==> replies[i] == reply
    ensures verdict == None ==> heard == |ms| && NoLastWord(ms)
    ensures verdict != None ==> heard > 0 && NoLastWord(ms[..heard - 1]) && IsLastWord(ms[heard - 1])
    ensures verdict != None ==> verdict.value == VerdictOf(ms[heard - 1])
  {
    verdict, heard, replies := None, 0, [];
    while heard < |ms| && verdict == None
      invariant heard <= |ms| && |replies| == Prompts(ms[..heard])
      invariant forall i :: 0 <= i < |replies| ==> replies[i] == reply
      invariant Hear(ClientWith(ms, [], None), heard, reply) == ClientWith(ms[heard..], replies, verdict)
      invariant verdict == None ==> NoLastWord(ms[..heard])
      invariant verdict != None ==> heard > 0 && NoLastWord(ms[..heard - 1]) && IsLastWord(ms[heard - 1])
      invariant verdict != None ==> verdict.value == VerdictOf(ms[heard - 1])
      decreases |ms| - heard
    {
      var m := ms[heard];
      PromptsAppend(ms[..heard], m);
      assert ms[..heard + 1] == ms[..heard] + [m];
      HearOneMore(ClientWith(ms, [], None), heard, reply);
      heard := heard + 1;
      match m {
        case Info(_) =>
        case Prompt(_, _) => replies := replies + [reply];
        case Locked(_) => verdict := Some(WasLocked);
        case Denied(_) => verdict := Some(WasDenied);
        case Granted => verdict := Some(WasGranted);
      }
    }
    assert verdict == None ==> ms[..heard] == ms;
  }

  /** What the gate's stages say about messages. */
  lemma AfterFacts(g: Stage, a: Action, banner: string)
    requires InAttempts(g) && After(g, a, banner).Some? && !a.SendFailed? && !a.ReceiveFailed?
    ensures var next := After(g, a, banner).value;
            && InAttempts(next) && !g.Done?
            && (next.Awaiting? <==> a.Sent? && a.m.Prompt?)
            && (g.Awaiting? <==> a.Received?)
            && (next.Done? <==> a.Sent? && IsLastWord(a.m))
            && (next.Done? ==> next.verdict == VerdictOf(a.m) && (next.failed <==> next.verdict != WasGranted))
  {
  }

  lemma GateMoveKeepsInv(s: System, m: Move, banner: string, reply: string)
    requires Inv(s) && m.GateMoves? && CanMove(s, m, banner)
    ensures Inv(DoMove(s, m, banner, reply))
  {
    var a := m.action;
    AfterFacts(s.gate, a, banner);
    if a.Sent? {
      PromptsAppend(s.toClient, a.m);
      var more := s.toClient + [a.m];
      assert more[..|more| - 1] == s.toClient;
    } else {
      assert s.toClient + [] == s.toClient;
    }
  }

  lemma ClientMoveKeepsInv(s: System, banner: string, reply: string)
    requires Inv(s) && CanMove(s, ClientMoves, banner)
    ensures Inv(DoMove(s, ClientMoves, banner, reply))
  {
    var rest := s.toClient[1..];
    if |rest| > 0 && s.gate.Done? {
      assert rest[|rest| - 1] == s.toClient[|s.toClient| - 1];
      assert forall i :: 0 <= i < |rest| - 1 ==> rest[i] == s.toClient[..|s.toClient| - 1][i + 1];
      assert s.toClient[..|s.toClient| - 1][0] == s.toClient[0];
    }
  }

  lemma KeepsInv(s: System, m: Move, banner: string, reply: string)
    requires Inv(s) && CanMove(s, m, banner)
    ensures Inv(DoMove(s, m, banner, reply))
  {
    if m.GateMoves? {
      GateMoveKeepsInv(s, m, banner, reply);
    } else {
      ClientMoveKeepsInv(s, banner, reply);
    }
  }

  // ----- Nobody waits forever -----

  /** A move that is possible whenever the run is not over. */
  function SomeMove(s: System, banner: string): Move {
    match s.gate
    case Start => GateMoves(Sent(Info(banner)), 0)
    case AtCheck(k) => GateMoves(Checked(FRESH, 0), 0)
    case SayLocked(wait) => GateMoves(Sent(Locked(LockedText(wait))), 0)
    case Verifying(_) => GateMoves(Verified, 0)
    case Awaiting(_) => if s.toGate == [] then ClientMoves else GateMoves(Received(s.toGate[0]), 0)
    case MustClear(_) => GateMoves(Reset, 0)
    case SayGranted => GateMoves(Sent(Granted), 0)
    case MustRecord(_, _) => GateMoves(Recorded(FRESH, 0), 0)
    case SayRemaining(k, detail) => GateMoves(Sent(Info(RemainingText(k, detail))), 0)
    case SayDenied(detail) => GateMoves(Sent(Denied(DeniedText(detail))), 0)
    case Done(_, _) => ClientMoves
  }

  predicate IsOver(s: System) {
    s.gate.Done? && s.client.Stopped?
  }

  lemma NeverStuck(s: System, banner: string)
    requires Inv(s) && !IsOver(s)
    ensures CanMove(s, SomeMove(s, banner), banner)
  {
  }

  /** How far the gate is from its end, not counting conversations. */
  function Distance(g: Stage): nat {
    match g
    case Start => 50
    case AtCheck(k) => if k > MAX_ATTEMPTS then 9 else 10 * (MAX_ATTEMPTS + 1 - k) + 9
    case Verifying(k) => if k > MAX_ATTEMPTS then 8 else 10 * (MAX_ATTEMPTS + 1 - k) + 8
    case Awaiting(k) => if k > MAX_ATTEMPTS then 8 else 10 * (MAX_ATTEMPTS + 1 - k) + 8
    case MustRecord(k, _) => if k > MAX_ATTEMPTS then 7 else 10 * (MAX_ATTEMPTS + 1 - k) + 7
    case SayRemaining(k, _) => if k > MAX_ATTEMPTS then 6 else 10 * (MAX_ATTEMPTS + 1 - k) + 6
    case MustClear(_) => 2
    case SayGranted => 1
    case SayLocked(_) => 1
    case SayDenied(_) => 1
    case Done(_, _) => 0
  }

  /** Lexicographic descent: the gate's stage, the turns left in its conversation, whether it waits
      for a reply, and the messages the client has not heard yet. */
  predicate IsBelow(t: System, s: System) {
    || Distance(t.gate) < Distance(s.gate)
    || (Distance(t.gate) == Distance(s.gate)
        && (|| t.turns < s.turns
            || (t.turns == s.turns
                && (|| (!t.gate.Awaiting? && s.gate.Awaiting?)
                    || (t.gate.Awaiting? == s.gate.Awaiting? && |t.toClient| < |s.toClient|)))))
  }

  lemma GateGoesOn(g: Stage, a: Action, banner: string)
    requires InAttempts(g) && After(g, a, banner).Some? && !a.SendFailed? && !a.ReceiveFailed?
    ensures var next := After(g, a, banner).value;
            if g.Verifying? && a.Sent? then Distance(next) == Distance(g)
            else if g.Awaiting? then Distance(next) == Distance(g) && !next.Awaiting?
            else Distance(next) < Distance(g)
  {
  }

  lemma MovesGoDown(s: System, m: Move, banner: string, reply: string)
    requires Inv(s) && CanMove(s, m, banner)
    ensures IsBelow(DoMove(s, m, banner, reply), s)
  {
    if m.GateMoves? {
      GateGoesOn(s.gate, m.action, banner);
    }
  }

  /** t can come right after s. */
  ghost predicate Leads(s: System, t: System, banner: string, reply: string) {
    exists m :: CanMove(s, m, banner) && t == DoMove(s, m, banner, reply)
  }

  lemma LeadsOn(s: System, t: System, banner: string, reply: string)
    requires Inv(s) && Leads(s, t, banner, reply)
    ensures Inv(t) && IsBelow(t, s)
  {
    var m :| CanMove(s, m, banner) && t == DoMove(s, m, banner, reply);
    KeepsInv(s, m, banner, reply);
    MovesGoDown(s, m, banner, reply);
  }

  /** Both sides agree, and the gate returns no error exactly if the client was let in. */
  predicate EndsWell(s: System) {
    && IsOver(s)
    && s.toClient == [] && s.toGate == []
    && s.client.verdict == s.gate.verdict
    && (!s.gate.failed <==> s.client == Stopped(WasGranted))
  }

  /** Whatever the moves are, the run comes to an end, and ends well. */
  ghost predicate AllRunsEndWell(s: System, banner: string, reply: string)
    requires Inv(s)
    decreases Distance(s.gate), s.turns, if s.gate.Awaiting? then 1 else 0, |s.toClient|
  {
    if IsOver(s) then EndsWell(s)
    else
      && (exists t :: Leads(s, t, banner, reply))
      && forall t :: Leads(s, t, banner, reply) ==>
           (LeadsOn(s, t, banner, reply); AllRunsEndWell(t, banner, reply))
  }

  lemma {:induction false} RunsEndWell(s: System, banner: string, reply: string)
    requires Inv(s)
    ensures AllRunsEndWell(s, banner, reply)
    decreases Distance(s.gate), s.turns, if s.gate.Awaiting? then 1 else 0, |s.toClient|
  {
    if !IsOver(s) {
      NeverStuck(s, banner);
      assert Leads(s, DoMove(s, SomeMove(s, banner), banner, reply), banner, reply);
      forall t | Leads(s, t, banner, reply) ensures Inv(t) && AllRunsEndWell(t, banner, reply) {
        LeadsOn(s, t, banner, reply);
        RunsEndWell(t, banner, reply);
      }
    }
  }

  /** The gate and its client never block each other and always agree on the outcome, for every
      conversation, lock state, verdict and scheduling, and every reply the client gives. */
  lemma GateAndClientAgree(banner: string, reply: string)
    ensures Inv(Init()) && AllRunsEndWell(Init(), banner, reply)
  {
    RunsEndWell(Init(), banner, reply);
  }
}
