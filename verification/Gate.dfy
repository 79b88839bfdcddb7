/** The password gate (auth.go, runPasswordGate) as the set of its possible logs. The operating
    system's account check (PAM, LogonUser) may hold any conversation and give any verdict. */
module Gate {
  import opened Prelude
  import opened Text
  import opened LockoutState
  import opened StateFile
  import P = LockoutProtocol

  /** The messages of the gate; `Granted` is the one of type "ok". */
  datatype Msg =
    | Info(text: string)
    | Prompt(text: string, echo: bool)
    | Locked(text: string)
    | Denied(text: string)
    | Granted

  datatype Verdict = NoBanner | WasLocked | WasDenied | WasGranted

  datatype Action =
    | Sent(m: Msg)
    | SendFailed(m: Msg)
    | Received(reply: string)
    | ReceiveFailed
    | Checked(seen: State, now: nat)
    | Verified
    | Rejected(detail: string)
    | Recorded(seen: State, now: nat)
    | Reset

  /** Between two actions. Attempts are numbered from 1. */
  datatype Stage =
    | Start
    | AtCheck(attempt: nat)
    | SayLocked(wait: int)
    | Verifying(attempt: nat)
    | Awaiting(attempt: nat)
    | MustClear(attempt: nat)
    | SayGranted
    | MustRecord(attempt: nat, detail: string)
    | SayRemaining(attempt: nat, detail: string)
    | SayDenied(detail: string)
    | Done(verdict: Verdict, failed: bool)

  /** Whole seconds of a duration, rounded toward zero. */
  function WholeSeconds(nanoseconds: int): int {
    if nanoseconds >= 0 then nanoseconds / NANOSECONDS else -(-nanoseconds / NANOSECONDS)
  }

  function RetryAfter(seen: State, now: nat): int {
    WrapInt64((seen.lockedUntil - now) * NANOSECONDS)
  }

  /** Nothing but a part of one second is cut off, toward zero. */
  lemma WholeSecondsCutsOff(n: int)
    ensures var r := WholeSeconds(n);
            if n >= 0 then 0 <= n - r * 1_000_000_000 < 1_000_000_000 else 0 <= r * 1_000_000_000 - n < 1_000_000_000
  {
  }

  function LockedText(wait: int): string {
    "too many attempts, try again in " + PrintInt(wait) + "s"
  }

  function RemainingText(attempt: nat, detail: string): string {
    "authentication failed (" + PrintInt(MAX_ATTEMPTS - attempt) + " attempt(s) left) -- " + detail
  }

  function DeniedText(detail: string): string {
    "authentication failed, disconnecting (" + detail + ")"
  }

  /** The one message that is due at a stage, if there is one. */
  function Due(g: Stage, banner: string): Option<Msg> {
    match g
    case Start => Some(Info(banner))
    case SayLocked(wait) => Some(Locked(LockedText(wait)))
    case SayGranted => Some(Granted)
    case SayRemaining(k, detail) => Some(Info(RemainingText(k, detail)))
    case SayDenied(detail) => Some(Denied(DeniedText(detail)))
    case _ => None
  }

  /** The stage after the due message; only the banner and "granted" must arrive. */
  function AfterDue(g: Stage, arrived: bool): Stage {
    match g
    case Start => if arrived then AtCheck(1) else Done(NoBanner, true)
    case SayLocked(_) => Done(WasLocked, true)
    case SayGranted => Done(WasGranted, !arrived)
    case SayRemaining(k, _) => AtCheck(k + 1)
    case SayDenied(_) => Done(WasDenied, true)
    case _ => g
  }

  /** The stage after an action, if the gate can take it here. */
  function After(g: Stage, a: Action, banner: string): Option<Stage> {
    match g
    case AtCheck(k) =>
      if !a.Checked? then None
      else if IsLocked(a.seen, a.now) then Some(SayLocked(WholeSeconds(RetryAfter(a.seen, a.now))))
      else Some(Verifying(k))
    case Verifying(k) =>
      (match a
       case Sent(m) => if m.Prompt? then Some(Awaiting(k)) else if m.Info? then Some(g) else None
       case SendFailed(m) => if m.Prompt? || m.Info? then Some(g) else None
       case Verified => Some(MustClear(k))
       case Rejected(detail) => Some(MustRecord(k, detail))
       case _ => None)
    case Awaiting(k) => if a.Received? || a.ReceiveFailed? then Some(Verifying(k)) else None
    case MustClear(_) => if a.Reset? then Some(SayGranted) else None
    case MustRecord(k, detail) =>
      if !a.Recorded? then None
      else if MAX_ATTEMPTS - k <= 0 then Some(SayDenied(detail))
      else Some(SayRemaining(k, detail))
    case Done(_, _) => None
    case _ =>
      if a == Sent(Due(g, banner).value) then Some(AfterDue(g, true))
      else if a == SendFailed(Due(g, banner).value) then Some(AfterDue(g, false))
      else None
  }

  /** The stage at the end of a log, if the gate can produce it. */
  function Follow(g: Stage, log: seq<Action>, banner: string): Option<Stage>
    decreases |log|
  {
    if log == [] then Some(g)
    else
      match After(g, log[0], banner)
      case None => None
      case Some(next) => Follow(next, log[1..], banner)
  }

  lemma {:induction false} FollowSnoc(g: Stage, log: seq<Action>, a: Action, banner: string)
    requires Follow(g, log, banner).Some?
    ensures Follow(g, log + [a], banner) == After(Follow(g, log, banner).value, a, banner)
    decreases |log|
  {
    if log == [] {
      assert ([] + [a])[1..] == [];
    } else {
      assert (log + [a])[1..] == log[1..] + [a];
      FollowSnoc(After(g, log[0], banner).value, log[1..], a, banner);
    }
  }

  /** The messages that reached the frontend. */
  function Messages(log: seq<Action>): seq<Msg> {
    if log == [] then []
    else Messages(log[..|log| - 1]) + (if log[|log| - 1].Sent? then [log[|log| - 1].m] else [])
  }

  /** What the log says was done to the lockout file. */
  function FileOperation(a: Action): seq<Operation> {
    match a
    case Checked(seen, now) => [Looked(seen, now)]
    case Recorded(seen, now) => [Counted(seen, now)]
    case Reset => [Operation.Cleared]
    case _ => []
  }

  function Operations(log: seq<Action>): seq<Operation> {
    if log == [] then [] else Operations(log[..|log| - 1]) + FileOperation(log[|log| - 1])
  }

  lemma LogSnoc(log: seq<Action>, a: Action)
    ensures Messages(log + [a]) == Messages(log) + (if a.Sent? then [a.m] else [])
    ensures Operations(log + [a]) == Operations(log) + FileOperation(a)
  {
    assert (log + [a])[..|log|] == log;
  }

  // ----- The gate itself -----

  /** A connection to the frontend. Any send or receive may fail. */
  class Wire {
    var sent: seq<Msg>

    constructor ()
      ensures sent == []
    {
      sent := [];
    }

    method Send(m: Msg) returns (ok: bool)
      modifies this
      ensures sent == old(sent) + (if ok then [m] else [])
    {
      ok := *;
      if ok {
        sent := sent + [m];
      }
    }

    method Receive() returns (reply: Option<string>)
    {
      reply := *;
    }
  }

  /** One connected session. Its log always is one the gate can produce, and says truly what was
      sent and what was done to the lockout file. */
  class Session {
    const wire: Wire
    const file: LockoutFile
    const banner: string
    ghost var log: seq<Action>
    ghost var stage: Stage

    ghost predicate Valid()
      reads this, wire, file
    {
      && Follow(Start, log, banner) == Some(stage)
      && wire.sent == Messages(log)
      && file.operations == Operations(log)
    }

    constructor (wire: Wire, file: LockoutFile, banner: string)
      requires wire.sent == [] && file.operations == []
      ensures this.wire == wire && this.file == file && this.banner == banner
      ensures Valid() && log == [] && stage == Start
    {
      this.wire, this.file, this.banner := wire, file, banner;
      log, stage := [], Start;
    }

    /** Sends one message that is due here, whether or not it arrives. */
    method Say(m: Msg) returns (ok: bool)
      requires Valid() && After(stage, Sent(m), banner).Some? && After(stage, SendFailed(m), banner).Some?
      modifies this`log, this`stage, wire
      ensures Valid()
      ensures stage == After(old(stage), if ok then Sent(m) else SendFailed(m), banner).value
    {
      ok := wire.Send(m);
      Note(if ok then Sent(m) else SendFailed(m));
    }

    /** Enters an action in the log. */
    ghost method Note(a: Action)
      requires Follow(Start, log, banner) == Some(stage) && After(stage, a, banner).Some?
      requires wire.sent == Messages(log) + (if a.Sent? then [a.m] else [])
      requires file.operations == Operations(log) + FileOperation(a)
      modifies this`log, this`stage
      ensures Valid() && stage == After(old(stage), a, banner).value
    {
      FollowSnoc(Start, log, a, banner);
      LogSnoc(log, a);
      log := log + [a];
      stage := After(stage, a, banner).value;
    }

    /** The account check: a finite conversation with the frontend, then a verdict. A prompt that
        cannot be sent has no answer. */
    method VerifyAccount() returns (error: Option<string>)
      requires Valid() && stage.Verifying?
      modifies this`log, this`stage, wire
      ensures Valid()
      ensures stage == if error == None then MustClear(old(stage.attempt)) else MustRecord(old(stage.attempt), error.value)
    {
      var turns: int := *;
      while turns > 0
        invariant Valid() && stage == old(stage)
      {
        var text: string := *;
        var asks: bool := *;
        var echo: bool := *;
        if asks {
          var ok := Say(Prompt(text, echo));
          if ok {
            var reply := wire.Receive();
            Note(if reply.Some? then Received(reply.value) else ReceiveFailed);
          }
        } else {
          var _ := Say(Info(text));
        }
        turns := turns - 1;
      }
      var accepted: bool := *;
      if accepted {
        Note(Verified);
        return None;
      }
      var detail: string := *;
      Note(Rejected(detail));
      return Some(detail);
    }

    /** A fresh look at the shared lockout file. */
    method PassCheck(ghost attempt: nat) returns (locked: bool, wait: int)
      requires Valid() && stage == AtCheck(attempt)
      modifies this`log, this`stage, file
      ensures Valid() && stage == if locked then SayLocked(wait) else Verifying(attempt)
    {
      file.Interfere();
      var now := Clock();
      ghost var seen := file.Contents();
      var retryAfter;
      locked, retryAfter := file.Check(now);
      wait := WholeSeconds(retryAfter);
      Note(Checked(seen, now));
    }

    method CountFailure(attempt: nat, ghost detail: string) returns (remaining: int)
      requires Valid() && stage == MustRecord(attempt, detail)
      modifies this`log, this`stage, file
      ensures remaining == MAX_ATTEMPTS - attempt
      ensures Valid() && stage == if remaining <= 0 then SayDenied(detail) else SayRemaining(attempt, detail)
    {
      file.Interfere();
      var now := Clock();
      ghost var seen := file.Contents();
      file.RecordFailure(now);
      Note(Recorded(seen, now));
      remaining := MAX_ATTEMPTS - attempt;
    }

    method ClearFailures()
      requires Valid() && stage.MustClear?
      modifies this`log, this`stage, file
      ensures Valid() && stage == SayGranted
    {
      file.Interfere();
      file.Reset();
      Note(Reset);
    }

    /** One attempt. Returns whether the gate is over, and then whether it failed. */
    method Attempt(attempt: nat) returns (over: bool, failed: bool)
      requires Valid() && stage == AtCheck(attempt)
      modifies this`log, this`stage, wire, file
      ensures Valid()
      ensures over <==> stage.Done?
      ensures over ==> stage.failed == failed
      ensures !over ==> attempt < MAX_ATTEMPTS && stage == AtCheck(attempt + 1)
    {
      var locked, wait := PassCheck(attempt);
      if locked {
        var _ := Say(Locked(LockedText(wait)));
        return true, true;
      }
      var error := VerifyAccount();
      if error.None? {
        ClearFailures();
        var ok := Say(Granted);
        return true, !ok;
      }
      over := Reject(attempt, error.value);
      return over, true;
    }

    /** After a failed account check: another attempt, or the end. */
    method Reject(attempt: nat, detail: string) returns (over: bool)
      requires Valid() && stage == MustRecord(attempt, detail)
      modifies this`log, this`stage, wire, file
      ensures Valid()
      ensures stage == if over then Done(WasDenied, true) else AtCheck(attempt + 1)
      ensures !over ==> attempt < MAX_ATTEMPTS
    {
      var remaining := CountFailure(attempt, detail);
      over := remaining <= 0;
      if over {
        var _ := Say(Denied(DeniedText(detail)));
      } else {
        var _ := Say(Info(RemainingText(attempt, detail)));
      }
    }

    /** The gate: a banner, then up to three attempts, each after a fresh look at the shared lockout
        file. Returns whether it failed. */
    method RunPasswordGate() returns (failed: bool)
      requires Valid() && stage == Start
      modifies this`log, this`stage, wire, file
      ensures Valid()
      ensures stage.Done? && stage.failed == failed
    {
      var greeted := Say(Info(banner));
      if !greeted {
        return true;
      }
      var attempt := 1;
      while attempt <= MAX_ATTEMPTS
        invariant 1 <= attempt <= MAX_ATTEMPTS
        invariant Valid() && stage == AtCheck(attempt)
        decreases MAX_ATTEMPTS - attempt
      {
        var over;
        over, failed := Attempt(attempt);
        if over {
          return;
        }
        attempt := attempt + 1;
      }
    }
  }

  /** The system clock in whole seconds. */
  method Clock() returns (now: nat)
    ensures now + LOCK_SECONDS <= MAX_INT64
  {
    var t: int := *;
    now := if 0 <= t <= MAX_INT64 - LOCK_SECONDS then t else 0;
  }

  // ----- What holds of every log -----

  /** The last word of the gate, sent or not. */
  predicate IsVerdict(a: Action) {
    (a.Sent? || a.SendFailed?) && (a.m.Locked? || a.m.Denied? || a.m.Granted?)
  }

  function VerdictOf(m: Msg): Verdict {
    if m.Locked? then WasLocked else if m.Denied? then WasDenied else WasGranted
  }

  predicate IsWaiting(g: Stage) {
    !g.Done? && !g.Start?
  }

  /** The last action says the verdict that its stage stands for. */
  lemma EndingAction(g: Stage, a: Action, banner: string)
    requires !g.Start? && After(g, a, banner).Some? && After(g, a, banner).value.Done?
    ensures IsVerdict(a)
    ensures var end := After(g, a, banner).value;
            && end.verdict == VerdictOf(a.m)
            && (!end.failed <==> a == Sent(Granted))
            && match g
               case SayGranted => a.m == Granted
               case SayLocked(wait) => a.m == Locked(LockedText(wait))
               case SayDenied(detail) => a.m == Denied(DeniedText(detail))
               case _ => false
  {
  }

  lemma OtherAction(g: Stage, a: Action, banner: string)
    requires IsWaiting(g) && After(g, a, banner).Some? && !After(g, a, banner).value.Done?
    ensures !IsVerdict(a) && IsWaiting(After(g, a, banner).value)
  {
  }

  /** From any stage after the banner, the rest of a finished log has one verdict, its last entry,
      and the gate reports success exactly if that entry is a "granted" that was sent. */
  lemma {:induction false} OneVerdict(g: Stage, log: seq<Action>, banner: string)
    requires IsWaiting(g) && Follow(g, log, banner).Some? && Follow(g, log, banner).value.Done?
    ensures log != [] && IsVerdict(log[|log| - 1])
    ensures forall i :: 0 <= i < |log| - 1 ==> !IsVerdict(log[i])
    ensures Follow(g, log, banner).value.verdict == VerdictOf(log[|log| - 1].m)
    ensures !Follow(g, log, banner).value.failed <==> log[|log| - 1] == Sent(Granted)
    decreases |log|
  {
    var next := After(g, log[0], banner).value;
    if next.Done? {
      EndingAction(g, log[0], banner);
      assert log[1..] == [];
    } else {
      OtherAction(g, log[0], banner);
      OneVerdict(next, log[1..], banner);
    }
  }

  /** Every finished run of the gate: the banner comes first; if it could not be sent that is all;
      otherwise exactly one of locked, denied and granted comes last, and the gate returns no error
      exactly if "granted" was sent. */
  lemma GateLog(log: seq<Action>, banner: string)
    requires Follow(Start, log, banner).Some? && Follow(Start, log, banner).value.Done?
    ensures log != []
    ensures log[0] == Sent(Info(banner)) || log == [SendFailed(Info(banner))]
    ensures log[0] == Sent(Info(banner)) ==>
              && IsVerdict(log[|log| - 1])
              && (forall i :: 0 <= i < |log| - 1 ==> !IsVerdict(log[i]))
              && Follow(Start, log, banner).value.verdict == VerdictOf(log[|log| - 1].m)
    ensures !Follow(Start, log, banner).value.failed <==> log[|log| - 1] == Sent(Granted)
  {
    if log[0] == Sent(Info(banner)) {
      OneVerdict(AtCheck(1), log[1..], banner);
    }
  }

  function Verifications(log: seq<Action>): nat {
    if log == [] then 0
    else (if log[0].Verified? || log[0].Rejected? then 1 else 0) + Verifications(log[1..])
  }

  /** Account checks still possible. */
  function ChecksLeft(g: Stage): int {
    match g
    case Start => MAX_ATTEMPTS
    case AtCheck(k) => MAX_ATTEMPTS - k + 1
    case Verifying(k) => MAX_ATTEMPTS - k + 1
    case Awaiting(k) => MAX_ATTEMPTS - k + 1
    case MustRecord(k, _) => MAX_ATTEMPTS - k
    case SayRemaining(k, _) => MAX_ATTEMPTS - k
    case _ => 0
  }

  predicate InAttempts(g: Stage) {
    match g
    case AtCheck(k) => 1 <= k <= MAX_ATTEMPTS
    case Verifying(k) => 1 <= k <= MAX_ATTEMPTS
    case Awaiting(k) => 1 <= k <= MAX_ATTEMPTS
    case MustClear(k) => 1 <= k <= MAX_ATTEMPTS
    case MustRecord(k, _) => 1 <= k <= MAX_ATTEMPTS
    case SayRemaining(k, _) => 1 <= k < MAX_ATTEMPTS
    case _ => true
  }

  lemma {:induction false} ChecksAreBounded(g: Stage, log: seq<Action>, banner: string)
    requires InAttempts(g) && Follow(g, log, banner).Some?
    ensures Verifications(log) <= ChecksLeft(g)
    decreases |log|
  {
    if log == [] {
    } else {
      ChecksAreBounded(After(g, log[0], banner).value, log[1..], banner);
    }
  }

  lemma AtMostThreeChecks(log: seq<Action>, banner: string)
    requires Follow(Start, log, banner).Some?
    ensures Verifications(log) <= MAX_ATTEMPTS
  {
    ChecksAreBounded(Start, log, banner);
  }

  // ----- Every verdict has its cause -----

  lemma {:induction false} FollowFront(g: Stage, log: seq<Action>, banner: string)
    requires log != [] && Follow(g, log, banner).Some?
    ensures var front := log[..|log| - 1];
            && Follow(g, front, banner).Some?
            && After(Follow(g, front, banner).value, log[|log| - 1], banner) == Follow(g, log, banner)
    decreases |log|
  {
    if |log| == 1 {
      assert log[..0] == [] && log[1..] == [];
    } else {
      FollowFront(After(g, log[0], banner).value, log[1..], banner);
      assert log[1..][..|log| - 2] == log[..|log| - 1][1..];
    }
  }

  function Rejections(log: seq<Action>): nat {
    if log == [] then 0
    else Rejections(log[..|log| - 1]) + (if log[|log| - 1].Rejected? then 1 else 0)
  }

  /** Attempts that have failed when the gate is at this stage, where the stage says so. */
  predicate HasRejected(g: Stage, count: nat) {
    match g
    case AtCheck(k) => count == k - 1
    case Verifying(k) => count == k - 1
    case Awaiting(k) => count == k - 1
    case MustRecord(k, _) => count == k
    case SayRemaining(k, _) => count == k
    case SayDenied(_) => count == 3
    case Start => count == 0
    case Done(v, _) => v == WasDenied ==> count == 3
    case _ => true
  }

  lemma {:induction false} RejectionsAreCounted(log: seq<Action>, banner: string)
    requires Follow(Start, log, banner).Some?
    ensures InAttempts(Follow(Start, log, banner).value)
    ensures HasRejected(Follow(Start, log, banner).value, Rejections(log))
    decreases |log|
  {
    if log == [] {
    } else {
      FollowFront(Start, log, banner);
      RejectionsAreCounted(log[..|log| - 1], banner);
    }
  }

  /** The stages before the last three actions. */
  lemma LastThree(log: seq<Action>, banner: string)
    requires |log| >= 2 && Follow(Start, log, banner).Some? && Follow(Start, log, banner).value.Done?
    requires log[0] == Sent(Info(banner))
    ensures var n := |log|;
            && n >= 3
            && Follow(Start, log[..n - 3], banner).Some?
            && After(Follow(Start, log[..n - 3], banner).value, log[n - 3], banner).Some?
            && var g := After(Follow(Start, log[..n - 3], banner).value, log[n - 3], banner).value;
            && After(g, log[n - 2], banner).Some?
            && After(After(g, log[n - 2], banner).value, log[n - 1], banner) == Follow(Start, log, banner)
  {
    var n := |log|;
    FollowFront(Start, log, banner);
    var one := log[..n - 1];
    FollowFront(Start, one, banner);
    assert one[..n - 2] == log[..n - 2];
    if n > 2 {
      FollowFront(Start, log[..n - 2], banner);
      assert log[..n - 2][..n - 3] == log[..n - 3];
    }
  }

  /** Where the stages before a verdict come from. */
  lemma StageHasCause(g: Stage, a: Action, banner: string)
    requires After(g, a, banner).Some?
    ensures match After(g, a, banner).value
            case Start => false
            case SayGranted => g.MustClear? && a == Reset
            case SayLocked(wait) =>
              g.AtCheck? && a.Checked? && a.seen.lockedUntil > a.now && wait == WholeSeconds(RetryAfter(a.seen, a.now))
            case SayDenied(detail) => g.MustRecord? && a.Recorded? && g.detail == detail
            case MustClear(_) => a == Verified
            case MustRecord(_, detail) => a == Rejected(detail)
            case _ => true
  {
  }

  lemma CauseOfEnd(g: Stage, a: Action, b: Action, c: Action, banner: string)
    requires After(g, a, banner).Some?
    requires var g1 := After(g, a, banner).value;
             After(g1, b, banner).Some? &&
             var g2 := After(g1, b, banner).value;
             After(g2, c, banner).Some? && After(g2, c, banner).value.Done?
    ensures IsVerdict(c)
    ensures match After(After(After(g, a, banner).value, b, banner).value, c, banner).value.verdict
            case WasGranted => c.m == Granted && b == Reset && a == Verified
            case WasLocked =>
              && b.Checked? && b.seen.lockedUntil > b.now
              && c.m == Locked(LockedText(WholeSeconds(RetryAfter(b.seen, b.now))))
            case WasDenied => b.Recorded? && a.Rejected? && c.m == Denied(DeniedText(a.detail))
            case NoBanner => false
  {
    var g1 := After(g, a, banner).value;
    var g2 := After(g1, b, banner).value;
    StageHasCause(g, a, banner);
    StageHasCause(g1, b, banner);
    EndingAction(g2, c, banner);
  }

  /** "ok" is said only after the account check succeeded and the failures were cleared; "locked" only
      after a check that found a lock, with its seconds; "denied" only after three failed checks, each
      recorded, with the last one's reason. */
  lemma VerdictHasCause(log: seq<Action>, banner: string)
    requires Follow(Start, log, banner).Some? && Follow(Start, log, banner).value.Done?
    requires log[0] == Sent(Info(banner))
    ensures |log| >= 3 && IsVerdict(log[|log| - 1])
    ensures var n, m := |log|, log[|log| - 1].m;
            match Follow(Start, log, banner).value.verdict
            case WasGranted => m == Granted && log[n - 2] == Reset && log[n - 3] == Verified
            case WasLocked =>
              && log[n - 2].Checked? && log[n - 2].seen.lockedUntil > log[n - 2].now
              && m == Locked(LockedText(WholeSeconds(RetryAfter(log[n - 2].seen, log[n - 2].now))))
            case WasDenied =>
              && Rejections(log) == 3 && log[n - 2].Recorded? && log[n - 3].Rejected?
              && m == Denied(DeniedText(log[n - 3].detail))
            case NoBanner => false
  {
    var n := |log|;
    RejectionsAreCounted(log, banner);
    LastThree(log, banner);
    CauseOfEnd(Follow(Start, log[..n - 3], banner).value, log[n - 3], log[n - 2], log[n - 1], banner);
  }

  /** What the frontend is told, in figures. */
  lemma TextsInFigures(attempt: nat, wait: nat, detail: string)
    requires 1 <= attempt <= 3 && 1 <= wait <= 15
    ensures attempt < 3 ==>
              && ChecksLeft(AtCheck(attempt + 1)) == 3 - attempt
              && RemainingText(attempt, detail) ==
                 "authentication failed (" + ['0' + (3 - attempt) as char] + " attempt(s) left) -- " + detail
    ensures LockedText(wait) == "too many attempts, try again in "
                                + (if wait < 10 then ['0' + wait as char] else ['1', '0' + (wait - 10) as char]) + "s"
    ensures DeniedText(detail) == "authentication failed, disconnecting (" + detail + ")"
  {
    assert wait >= 10 ==> Digits(wait) == Digits(1) + ['0' + (wait % 10) as char];
  }

  // ----- The gate is a session of the lockout protocol -----

  /** Where the session of LockoutProtocol stands, until the gate's last word. */
  function AbsStage(g: Stage): P.Phase
    requires !g.Done?
  {
    match g
    case Start => P.Checking(1)
    case AtCheck(k) => P.Checking(k)
    case SayLocked(wait) => P.LockedOut(wait)
    case Verifying(k) => P.Verifying(k)
    case Awaiting(k) => P.Verifying(k)
    case MustClear(k) => P.Verifying(k)
    case SayGranted => P.Accepted
    case MustRecord(k, _) => P.Verifying(k)
    case SayRemaining(k, _) => P.Checking(k + 1)
    case SayDenied(_) => P.Denied
  }

  /** The step of the protocol that an action on the file is. */
  function ProtocolEvent(a: Action, id: nat): Option<P.Event> {
    match a
    case Checked(_, _) => Some(P.Check(id))
    case Recorded(_, _) => Some(P.Fail(id))
    case Reset => Some(P.Succeed(id))
    case _ => None
  }

  /** In a world where the gate is session `id` and sees the file and clock as they are, each action
      on the file is the protocol's step, possible there, and takes the session where the gate goes;
      no other action moves it before the last word. */
  lemma GateIsSession(w: P.World, id: nat, g: Stage, a: Action, banner: string)
    requires P.Inv(w) && id in w.sessions && !g.Done? && AbsStage(g) == w.sessions[id]
    requires After(g, a, banner).Some? && !After(g, a, banner).value.Done?
    requires a.Checked? ==> a.seen == Read(w.file) && a.now == w.now
    ensures var next := After(g, a, banner).value;
            match ProtocolEvent(a, id)
            case Some(e) => P.Enabled(w, e) && P.Next(w, e).sessions[id] == AbsStage(next)
            case None => AbsStage(next) == AbsStage(g)
  {
    if a.Checked? && IsLocked(a.seen, a.now) {
      WaitIsExact(a.seen, a.now);
    }
  }
}
