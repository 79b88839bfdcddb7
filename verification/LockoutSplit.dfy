/** The lockout protocol at the grain of the code: a check reads the file, decides later, and later
    still removes a stale file; recording a failure reads the file and writes it later (lockout.go).
    No lock is held in between, so other sessions can act in the gaps. The clock is read when
    deciding and when writing. */
module LockoutSplit {
  import opened Prelude
  import opened LockoutState
  import A = LockoutProtocol

  datatype Phase =
    | Checking(attempt: nat)
    | CheckHas(attempt: nat, seen: State)
    | Removing(attempt: nat, seen: State)
    | Verifying(attempt: nat)
    | RecordHas(attempt: nat, seen: State)
    | Accepted
    | Denied
    | LockedOut(wait: int)

  datatype World = World(file: Option<State>, now: nat, sessions: map<nat, Phase>)

  datatype Event =
    | Tick(seconds: nat)
    | Spawn(id: nat)
    | ReadForCheck(id: nat)
    | Decide(id: nat)
    | Remove(id: nat)
    | Succeed(id: nat)
    | ReadForRecord(id: nat)
    | Write(id: nat)

  function Init(start: nat): World {
    World(None, start, map[])
  }

  predicate Enabled(w: World, e: Event) {
    match e
    case Tick(_) => true
    case Spawn(id) => id !in w.sessions
    case ReadForCheck(id) => id in w.sessions && w.sessions[id].Checking?
    case Decide(id) => id in w.sessions && w.sessions[id].CheckHas?
    case Remove(id) => id in w.sessions && w.sessions[id].Removing?
    case Succeed(id) => id in w.sessions && w.sessions[id].Verifying?
    case ReadForRecord(id) => id in w.sessions && w.sessions[id].Verifying?
    case Write(id) => id in w.sessions && w.sessions[id].RecordHas?
  }

  function Next(w: World, e: Event): World
    requires Enabled(w, e)
  {
    match e
    case Tick(n) => w.(now := w.now + n)
    case Spawn(id) => w.(sessions := w.sessions[id := Checking(1)])
    case ReadForCheck(id) =>
      w.(sessions := w.sessions[id := CheckHas(w.sessions[id].attempt, Read(w.file))])
    case Decide(id) =>
      var p := w.sessions[id];
      w.(sessions := w.sessions[id :=
        if IsLocked(p.seen, w.now) then LockedOut(p.seen.lockedUntil - w.now)
        else if IsStale(p.seen, w.now) then Removing(p.attempt, p.seen)
        else Verifying(p.attempt)])
    case Remove(id) => World(None, w.now, w.sessions[id := Verifying(w.sessions[id].attempt)])
    case Succeed(id) => World(None, w.now, w.sessions[id := Accepted])
    case ReadForRecord(id) =>
      w.(sessions := w.sessions[id := RecordHas(w.sessions[id].attempt, Read(w.file))])
    case Write(id) =>
      var p := w.sessions[id];
      World(Some(AfterFailure(p.seen, w.now)), w.now,
            w.sessions[id := if p.attempt >= MAX_ATTEMPTS then Denied else Checking(p.attempt + 1)])
  }

  predicate Possible(w: World, es: seq<Event>)
    decreases es
  {
    es == [] || (Enabled(w, es[0]) && Possible(Next(w, es[0]), es[1..]))
  }

  function Run(w: World, es: seq<Event>): World
    requires Possible(w, es)
    decreases es
  {
    if es == [] then w else Run(Next(w, es[0]), es[1..])
  }

  /** The event ends a check that lets an attempt through. */
  predicate Admits(w: World, e: Event)
    requires Enabled(w, e)
  {
    e.Remove? || (e.Decide? && !IsLocked(w.sessions[e.id].seen, w.now) && !IsStale(w.sessions[e.id].seen, w.now))
  }

  function Admissions(w: World, es: seq<Event>): nat
    requires Possible(w, es)
    decreases es
  {
    if es == [] then 0
    else (if Admits(w, es[0]) then 1 else 0) + Admissions(Next(w, es[0]), es[1..])
  }

  /** Checks that remove a stale file. */
  function StaleClears(w: World, es: seq<Event>): nat
    requires Possible(w, es)
    decreases es
  {
    if es == [] then 0
    else (if es[0].Remove? then 1 else 0) + StaleClears(Next(w, es[0]), es[1..])
  }

  /** Between a passed check and the written outcome. */
  function InFlight(w: World): set<nat> {
    set id | id in w.sessions && (w.sessions[id].Verifying? || w.sessions[id].RecordHas?)
  }

  predicate InFlightAtMost(w: World, es: seq<Event>, n: nat)
    requires Possible(w, es)
    decreases es
  {
    |InFlight(w)| <= n && (es == [] || InFlightAtMost(Next(w, es[0]), es[1..], n))
  }

  predicate NoSuccess(es: seq<Event>) {
    forall i :: 0 <= i < |es| ==> !es[i].Succeed?
  }

  // ----- Interference -----

  /** The event writes or removes the file. */
  predicate Touches(w: World, e: Event)
    requires Enabled(w, e)
  {
    e.Succeed? || e.Write? || e.Remove?
  }

  predicate HoldsCopy(p: Phase) {
    p.CheckHas? || p.Removing? || p.RecordHas?
  }

  /** The event does not touch the file while another session stands between its own read and
      what follows from it. */
  predicate Undisturbing(w: World, e: Event)
    requires Enabled(w, e)
  {
    Touches(w, e) ==> forall id :: id in w.sessions && id != e.id ==> !HoldsCopy(w.sessions[id])
  }

  predicate Undisturbed(w: World, es: seq<Event>)
    requires Possible(w, es)
    decreases es
  {
    es == [] || (Undisturbing(w, es[0]) && Undisturbed(Next(w, es[0]), es[1..]))
  }

  // ----- Simulation by the atomic protocol -----

  function AbsPhase(p: Phase): A.Phase {
    match p
    case Checking(k) => A.Checking(k)
    case CheckHas(k, _) => A.Checking(k)
    case Removing(k, _) => A.Checking(k)
    case Verifying(k) => A.Verifying(k)
    case RecordHas(k, _) => A.Verifying(k)
    case Accepted => A.Accepted
    case Denied => A.Denied
    case LockedOut(wait) => A.LockedOut(wait)
  }

  function Abs(w: World): A.World {
    A.World(w.file, w.now, map id | id in w.sessions :: AbsPhase(w.sessions[id]))
  }

  /** Reads are silent, and so is the decision to remove; the end of a check and writing are the
      atomic check and record. */
  function AbsEvent(w: World, e: Event): seq<A.Event>
    requires Enabled(w, e)
  {
    match e
    case Tick(n) => [A.Tick(n)]
    case Spawn(id) => [A.Spawn(id)]
    case ReadForCheck(_) => []
    case Decide(id) => if Next(w, e).sessions[id].Removing? then [] else [A.Check(id)]
    case Remove(id) => [A.Check(id)]
    case Succeed(id) => [A.Succeed(id)]
    case ReadForRecord(_) => []
    case Write(id) => [A.Fail(id)]
  }

  function AbsRun(w: World, es: seq<Event>): seq<A.Event>
    requires Possible(w, es)
    decreases es
  {
    if es == [] then [] else AbsEvent(w, es[0]) + AbsRun(Next(w, es[0]), es[1..])
  }

  /** Every copy of the file a session still holds is what the file says now, and what is to be
      removed is stale. */
  predicate CopiesAreCurrent(w: World) {
    && (forall id :: id in w.sessions && HoldsCopy(w.sessions[id]) ==> w.sessions[id].seen == Read(w.file))
    && (forall id :: id in w.sessions && w.sessions[id].Removing? ==> IsStale(w.sessions[id].seen, w.now))
  }

  lemma StepSimulates(w: World, e: Event)
    requires Enabled(w, e) && CopiesAreCurrent(w) && Undisturbing(w, e)
    ensures CopiesAreCurrent(Next(w, e))
    ensures AbsEvent(w, e) == [] ==> Abs(Next(w, e)) == Abs(w) && !Admits(w, e)
    ensures AbsEvent(w, e) != [] ==>
              && A.Enabled(Abs(w), AbsEvent(w, e)[0])
              && A.Next(Abs(w), AbsEvent(w, e)[0]) == Abs(Next(w, e))
              && (A.Admits(Abs(w), AbsEvent(w, e)[0]) <==> Admits(w, e))
              && (A.ClearsStale(Abs(w), AbsEvent(w, e)[0]) <==> e.Remove?)
  {
    var w' := Next(w, e);
    if AbsEvent(w, e) == [] {
      assert Abs(w').sessions == Abs(w).sessions;
    } else {
      assert A.Next(Abs(w), AbsEvent(w, e)[0]).sessions == Abs(w').sessions;
    }
  }

  lemma InFlightIsAbstract(w: World)
    ensures InFlight(w) == A.InFlight(Abs(w))
  {
  }

  /** Every undisturbed run of reads and writes is a run of the atomic protocol: same file and
      clock, same outcome of every session, same number of admissions. */
  lemma {:induction false} Simulation(w: World, es: seq<Event>, n: nat)
    requires Possible(w, es) && CopiesAreCurrent(w) && Undisturbed(w, es)
    ensures A.Possible(Abs(w), AbsRun(w, es))
    ensures A.Run(Abs(w), AbsRun(w, es)) == Abs(Run(w, es))
    ensures A.Admissions(Abs(w), AbsRun(w, es)) == Admissions(w, es)
    ensures A.StaleClears(Abs(w), AbsRun(w, es)) == StaleClears(w, es)
    ensures CopiesAreCurrent(Run(w, es))
    ensures InFlightAtMost(w, es, n) ==> A.InFlightAtMost(Abs(w), AbsRun(w, es), n)
    decreases es
  {
    InFlightIsAbstract(w);
    if es == [] {
    } else {
      var w' := Next(w, es[0]);
      StepSimulates(w, es[0]);
      Simulation(w', es[1..], n);
      if AbsEvent(w, es[0]) != [] {
        assert AbsRun(w, es)[0] == AbsEvent(w, es[0])[0] && AbsRun(w, es)[1..] == AbsRun(w', es[1..]);
      } else {
        assert AbsRun(w, es) == AbsRun(w', es[1..]);
      }
    }
  }

  lemma {:induction false} NoSuccessIsAbstract(w: World, es: seq<Event>)
    requires Possible(w, es) && NoSuccess(es)
    ensures A.NoSuccess(AbsRun(w, es))
    decreases es
  {
    if es == [] {
    } else {
      NoSuccessIsAbstract(Next(w, es[0]), es[1..]);
    }
  }

  /** The window bound carries over to reads and writes, as long as nobody disturbs. */
  lemma SplitSlidingWindow(start: nat, before: seq<Event>, window: seq<Event>, n: nat)
    requires Possible(Init(start), before) && Undisturbed(Init(start), before)
    requires Possible(Run(Init(start), before), window) && Undisturbed(Run(Init(start), before), window)
    requires NoSuccess(window)
    requires InFlightAtMost(Run(Init(start), before), window, n)
    requires Run(Run(Init(start), before), window).now < Run(Init(start), before).now + 15
    ensures StaleClears(Run(Init(start), before), window) <= 1
    ensures Admissions(Run(Init(start), before), window)
         <= n + 2 + 2 * StaleClears(Run(Init(start), before), window)
  {
    var w := Run(Init(start), before);
    assert Abs(Init(start)) == A.Init(start);
    Simulation(Init(start), before, n);
    Simulation(w, window, n);
    NoSuccessIsAbstract(w, window);
    A.SlidingWindow(start, AbsRun(Init(start), before), AbsRun(w, window), n);
  }

  // ----- And the other way round -----

  /** Nothing holds a session up: in every phase that is not an end its next step is possible. */
  lemma StepsArePossible(w: World, id: nat, seconds: nat)
    ensures Enabled(w, Tick(seconds))
    ensures id !in w.sessions ==> Enabled(w, Spawn(id))
    ensures id in w.sessions ==>
              match w.sessions[id]
              case Checking(_) => Enabled(w, ReadForCheck(id))
              case CheckHas(_, _) => Enabled(w, Decide(id))
              case Removing(_, _) => Enabled(w, Remove(id))
              case Verifying(_) => Enabled(w, Succeed(id)) && Enabled(w, ReadForRecord(id))
              case RecordHas(_, _) => Enabled(w, Write(id))
              case _ => true
  {
  }

  /** On a locked file a check is refused at once, with the seconds that are left. */
  lemma LockedIsRefused(w: World, id: nat)
    requires id in w.sessions && w.sessions[id].Checking? && w.file.Some? && w.file.value.lockedUntil > w.now
    ensures Possible(w, [ReadForCheck(id), Decide(id)])
    ensures var t := Run(w, [ReadForCheck(id), Decide(id)]);
            && t.file == w.file && t.now == w.now
            && t.sessions == w.sessions[id := LockedOut(w.file.value.lockedUntil - w.now)]
  {
    var w1 := Next(w, ReadForCheck(id));
    var w2 := Next(w1, Decide(id));
    assert [Decide(id)][1..] == [] && [ReadForCheck(id), Decide(id)][1..] == [Decide(id)];
    assert Possible(w1, [Decide(id)]) && Run(w1, [Decide(id)]) == w2;
    assert w2.sessions == w.sessions[id := LockedOut(w.file.value.lockedUntil - w.now)];
  }

  /** Nobody stands between a read and what follows from it. */
  predicate NoCopies(w: World) {
    forall id :: id in w.sessions ==> !HoldsCopy(w.sessions[id])
  }

  /** The reads and writes of one atomic step, one directly after the other. */
  function Steps(w: World, e: A.Event): seq<Event> {
    match e
    case Tick(n) => [Tick(n)]
    case Spawn(id) => [Spawn(id)]
    case Check(id) =>
      if A.ClearsStale(Abs(w), e) then [ReadForCheck(id)] + ([Decide(id)] + ([Remove(id)] + []))
      else [ReadForCheck(id)] + ([Decide(id)] + [])
    case Succeed(id) => [Succeed(id)]
    case Fail(id) => [ReadForRecord(id)] + ([Write(id)] + [])
  }

  /** A run that is possible and undisturbed, with what it comes to. */
  predicate Realizes(w: World, fine: seq<Event>, es: seq<A.Event>) {
    && Possible(w, fine) && Undisturbed(w, fine)
    && AbsRun(w, fine) == es && NoCopies(Run(w, fine))
  }

  lemma RealizesCons(w: World, e: Event, fine: seq<Event>, es: seq<A.Event>)
    requires Enabled(w, e) && Undisturbing(w, e) && Realizes(Next(w, e), fine, es)
    ensures Realizes(w, [e] + fine, AbsEvent(w, e) + es)
  {
    assert ([e] + fine)[1..] == fine;
  }

  lemma {:induction false} RealizesAppend(w: World, a: seq<Event>, b: seq<Event>, ea: seq<A.Event>, eb: seq<A.Event>)
    requires Realizes(w, a, ea) && Realizes(Run(w, a), b, eb)
    ensures Realizes(w, a + b, ea + eb)
    decreases a
  {
    if a == [] {
      assert a + b == b && ea + eb == eb;
    } else {
      var w', later := Next(w, a[0]), AbsRun(Next(w, a[0]), a[1..]);
      RealizesAppend(w', a[1..], b, later, eb);
      RealizesCons(w, a[0], a[1..] + b, later + eb);
      assert [a[0]] + (a[1..] + b) == a + b;
      Associate(AbsEvent(w, a[0]), later, eb);
    }
  }

  lemma CheckIsRealized(w: World, id: nat)
    requires NoCopies(w) && A.Enabled(Abs(w), A.Check(id))
    ensures Realizes(w, Steps(w, A.Check(id)), [A.Check(id)])
  {
    var w1 := Next(w, ReadForCheck(id));
    var w2 := Next(w1, Decide(id));
    if A.ClearsStale(Abs(w), A.Check(id)) {
      var w3 := Next(w2, Remove(id));
      assert Realizes(w3, [], []);
      RealizesCons(w2, Remove(id), [], []);
      assert [A.Check(id)] + [] == [A.Check(id)];
      RealizesCons(w1, Decide(id), [Remove(id)] + [], [A.Check(id)]);
      RealizesCons(w, ReadForCheck(id), [Decide(id)] + ([Remove(id)] + []), [A.Check(id)]);
    } else {
      assert Realizes(w2, [], []);
      RealizesCons(w1, Decide(id), [], []);
      assert [A.Check(id)] + [] == [A.Check(id)];
      RealizesCons(w, ReadForCheck(id), [Decide(id)] + [], [A.Check(id)]);
    }
  }

  lemma StepIsRealized(w: World, e: A.Event)
    requires NoCopies(w) && A.Enabled(Abs(w), e)
    ensures Realizes(w, Steps(w, e), [e])
  {
    match e {
      case Tick(n) => RealizesOne(w, Tick(n));
      case Spawn(id) => RealizesOne(w, Spawn(id));
      case Check(id) => CheckIsRealized(w, id);
      case Succeed(id) => RealizesOne(w, Succeed(id));
      case Fail(id) =>
        var w1 := Next(w, ReadForRecord(id));
        var w2 := Next(w1, Write(id));
        assert Realizes(w2, [], []);
        RealizesCons(w1, Write(id), [], []);
        assert [A.Fail(id)] + [] == [A.Fail(id)];
        RealizesCons(w, ReadForRecord(id), [Write(id)] + [], [A.Fail(id)]);
    }
  }

  lemma RealizesOne(w: World, e: Event)
    requires Enabled(w, e) && NoCopies(w) && (e.Tick? || e.Spawn? || e.Succeed?)
    ensures Realizes(w, [e], AbsEvent(w, e))
  {
    assert Realizes(Next(w, e), [], []);
    RealizesCons(w, e, [], []);
    assert [e] + [] == [e] && AbsEvent(w, e) + [] == AbsEvent(w, e);
  }

  /** From a world where nobody holds a copy every run of the atomic protocol is the image of some
      possible, undisturbed run of reads and writes, which ends in the same file, clock and phases. */
  lemma {:induction false} EveryRunIsRealized(w: World, es: seq<A.Event>) returns (fine: seq<Event>)
    requires NoCopies(w) && A.Possible(Abs(w), es)
    ensures Possible(w, fine) && Undisturbed(w, fine) && AbsRun(w, fine) == es
    ensures Abs(Run(w, fine)) == A.Run(Abs(w), es) && NoCopies(Run(w, fine))
    decreases es
  {
    if es == [] {
      fine := [];
    } else {
      var first := Steps(w, es[0]);
      StepIsRealized(w, es[0]);
      Simulation(w, first, 0);
      assert [es[0]][1..] == [] && A.Run(Abs(w), [es[0]]) == A.Next(Abs(w), es[0]);
      var rest := EveryRunIsRealized(Run(w, first), es[1..]);
      RealizesAppend(w, first, rest, [es[0]], es[1..]);
      fine := first + rest;
      assert [es[0]] + es[1..] == es;
      Simulation(w, fine, 0);
    }
  }

  // ----- Without that condition the bound fails -----

  lemma RunCons(w: World, e: Event, es: seq<Event>)
    requires Enabled(w, e) && Possible(Next(w, e), es)
    ensures Possible(w, [e] + es) && Run(w, [e] + es) == Run(Next(w, e), es)
  {
    assert ([e] + es)[1..] == es;
  }

  /** One whole attempt of session id, recorded without a pause. */
  function Attempt(id: nat, rest: seq<Event>): seq<Event> {
    [ReadForCheck(id)] + ([Decide(id)] + ([ReadForRecord(id)] + ([Write(id)] + rest)))
  }

  predicate CanTry(w: World, id: nat) {
    id in w.sessions && w.sessions[id].Checking?
    && !IsLocked(Read(w.file), w.now) && !IsStale(Read(w.file), w.now)
  }

  function AfterAttempt(w: World, id: nat): World
    requires CanTry(w, id)
  {
    var k := w.sessions[id].attempt;
    World(Some(AfterFailure(Read(w.file), w.now)), w.now,
          w.sessions[id := if k >= MAX_ATTEMPTS then Denied else Checking(k + 1)])
  }

  /** A run as in SplitSlidingWindow, within one second, with the number it admits. */
  predicate Instant(w: World, es: seq<Event>, n: nat, admitted: nat) {
    && Possible(w, es) && NoSuccess(es) && InFlightAtMost(w, es, n)
    && Admissions(w, es) == admitted && Run(w, es).now == w.now
  }

  lemma InstantCons(w: World, e: Event, es: seq<Event>, n: nat, admitted: nat)
    requires Enabled(w, e) && !e.Succeed? && !e.Tick? && |InFlight(w)| <= n
    requires Instant(Next(w, e), es, n, admitted)
    ensures Instant(w, [e] + es, n, admitted + (if Admits(w, e) then 1 else 0))
  {
    assert ([e] + es)[1..] == es;
  }

  lemma UndisturbedCons(w: World, e: Event, es: seq<Event>)
    requires Enabled(w, e) && Possible(Next(w, e), es)
    ensures Possible(w, [e] + es)
    ensures Undisturbed(w, [e] + es) <==> Undisturbing(w, e) && Undisturbed(Next(w, e), es)
  {
    assert ([e] + es)[1..] == es;
  }

  lemma AttemptIsAdmitted(w: World, id: nat, es: seq<Event>, n: nat, admitted: nat)
    requires CanTry(w, id) && |InFlight(w)| < n
    requires Instant(AfterAttempt(w, id), es, n, admitted)
    ensures Instant(w, Attempt(id, es), n, admitted + 1)
    ensures InFlight(AfterAttempt(w, id)) == InFlight(w)
  {
    var w1 := Next(w, ReadForCheck(id));
    var w2 := Next(w1, Decide(id));
    var w3 := Next(w2, ReadForRecord(id));
    assert Next(w3, Write(id)).sessions == AfterAttempt(w, id).sessions;
    assert InFlight(w1) == InFlight(w) && InFlight(w2) == InFlight(w3) == InFlight(w) + {id};
    InstantCons(w3, Write(id), es, n, admitted);
    InstantCons(w2, ReadForRecord(id), [Write(id)] + es, n, admitted);
    InstantCons(w1, Decide(id), [ReadForRecord(id)] + ([Write(id)] + es), n, admitted);
    InstantCons(w, ReadForCheck(id), [Decide(id)] + ([ReadForRecord(id)] + ([Write(id)] + es)), n, admitted + 1);
  }

  lemma AttemptDisturbs(w: World, id: nat, es: seq<Event>, other: nat)
    requires CanTry(w, id) && Possible(AfterAttempt(w, id), es) && Possible(w, Attempt(id, es))
    requires other in w.sessions && other != id && HoldsCopy(w.sessions[other])
    ensures !Undisturbed(w, Attempt(id, es))
  {
    var w1 := Next(w, ReadForCheck(id));
    var w2 := Next(w1, Decide(id));
    var w3 := Next(w2, ReadForRecord(id));
    var e3 := [Write(id)] + es;
    var e2 := [ReadForRecord(id)] + e3;
    var e1 := [Decide(id)] + e2;
    assert Next(w3, Write(id)).sessions == AfterAttempt(w, id).sessions;
    assert HoldsCopy(w3.sessions[other]);
    UndisturbedCons(w3, Write(id), es);
    UndisturbedCons(w2, ReadForRecord(id), e3);
    UndisturbedCons(w1, Decide(id), e2);
    UndisturbedCons(w, ReadForCheck(id), e1);
  }

  lemma DisturbedCons(w: World, e: Event, es: seq<Event>, n: nat, admitted: nat)
    requires Enabled(w, e) && !e.Succeed? && !e.Tick? && |InFlight(w)| <= n
    requires Instant(Next(w, e), es, n, admitted) && !Undisturbed(Next(w, e), es)
    ensures Instant(w, [e] + es, n, admitted + (if Admits(w, e) then 1 else 0))
    ensures !Undisturbed(w, [e] + es)
  {
    InstantCons(w, e, es, n, admitted);
    UndisturbedCons(w, e, es);
  }

  /** Session id has read the file to record its failure and not written yet. */
  function Stalled(w: World, id: nat): World
    requires CanTry(w, id)
  {
    w.(sessions := w.sessions[id := RecordHas(w.sessions[id].attempt, Read(w.file))])
  }

  function Stall(id: nat, rest: seq<Event>): seq<Event> {
    [ReadForCheck(id)] + ([Decide(id)] + ([ReadForRecord(id)] + rest))
  }

  lemma StallIsAdmitted(w: World, id: nat, es: seq<Event>, n: nat, admitted: nat)
    requires CanTry(w, id) && InFlight(w) == {} && n >= 1
    requires Instant(Stalled(w, id), es, n, admitted) && !Undisturbed(Stalled(w, id), es)
    ensures Instant(w, Stall(id, es), n, admitted + 1) && !Undisturbed(w, Stall(id, es))
  {
    var w1 := Next(w, ReadForCheck(id));
    var w2 := Next(w1, Decide(id));
    assert Next(w2, ReadForRecord(id)).sessions == Stalled(w, id).sessions;
    assert InFlight(w1) == {} && InFlight(w2) == {id};
    DisturbedCons(w2, ReadForRecord(id), es, n, admitted);
    DisturbedCons(w1, Decide(id), [ReadForRecord(id)] + es, n, admitted);
    DisturbedCons(w, ReadForCheck(id), [Decide(id)] + ([ReadForRecord(id)] + es), n, admitted + 1);
  }

  /** Session a writes its old copy back; session c connects and passes its check. */
  function WriteBack(a: nat, c: nat): seq<Event> {
    [Write(a)] + ([Spawn(c)] + ([ReadForCheck(c)] + ([Decide(c)] + [])))
  }

  /** Session b fails three times, which sets the lock, while a is stalled. */
  function TripThenWriteBack(a: nat, b: nat, c: nat): seq<Event> {
    Attempt(b, Attempt(b, Attempt(b, WriteBack(a, c))))
  }

  function LostLock(a: nat, b: nat, c: nat): seq<Event> {
    [Spawn(b)] + ([Spawn(a)] + Stall(a, TripThenWriteBack(a, b, c)))
  }

  lemma WriteBackAdmits(w: World, a: nat, b: nat, c: nat)
    requires a != b && b != c && a != c && w.sessions.Keys == {a, b} && w.sessions[b].Denied?
    requires w.sessions[a] == RecordHas(1, FRESH)
    ensures Instant(w, WriteBack(a, c), 2, 1)
  {
    var w1 := Next(w, Write(a));
    var w2 := Next(w1, Spawn(c));
    var w3 := Next(w2, ReadForCheck(c));
    assert InFlight(w) == {a} && InFlight(w1) == InFlight(w2) == InFlight(w3) == {};
    assert InFlight(Next(w3, Decide(c))) == {c};
    InstantCons(w3, Decide(c), [], 2, 0);
    InstantCons(w2, ReadForCheck(c), [Decide(c)] + [], 2, 1);
    InstantCons(w1, Spawn(c), [ReadForCheck(c)] + ([Decide(c)] + []), 2, 1);
    InstantCons(w, Write(a), [Spawn(c)] + ([ReadForCheck(c)] + ([Decide(c)] + [])), 2, 1);
  }

  lemma TripIsUndone(w: World, a: nat, b: nat, c: nat)
    requires a != b && b != c && a != c && w.file == None && w.sessions.Keys == {a, b}
    requires w.sessions[a] == RecordHas(1, FRESH) && w.sessions[b] == Checking(1)
    ensures Instant(w, TripThenWriteBack(a, b, c), 2, 4) && !Undisturbed(w, TripThenWriteBack(a, b, c))
  {
    var w1 := AfterAttempt(w, b);
    var w2 := AfterAttempt(w1, b);
    var w3 := AfterAttempt(w2, b);
    assert InFlight(w) == InFlight(w1) == InFlight(w2) == {a};
    var es := WriteBack(a, c);
    WriteBackAdmits(w3, a, b, c);
    AttemptIsAdmitted(w2, b, es, 2, 1);
    AttemptIsAdmitted(w1, b, Attempt(b, es), 2, 2);
    AttemptIsAdmitted(w, b, Attempt(b, Attempt(b, es)), 2, 3);
    AttemptDisturbs(w, b, Attempt(b, Attempt(b, es)), a);
  }

  /** Writing back an old copy can undo a lock: five attempts in one second with at most two in
      flight, where undisturbed runs admit at most four. So the condition is needed, and a missed
      increment is not the worst that the accepted race can cost. */
  lemma DisturbedRunBreaksBound(start: nat, a: nat, b: nat, c: nat)
    requires a != b && b != c && a != c
    ensures Instant(Init(start), LostLock(a, b, c), 2, 5)
    ensures !Undisturbed(Init(start), LostLock(a, b, c))
  {
    var w0 := Init(start);
    var w1 := Next(w0, Spawn(b));
    var w2 := Next(w1, Spawn(a));
    assert InFlight(w0) == InFlight(w1) == InFlight(w2) == {};
    var es := TripThenWriteBack(a, b, c);
    TripIsUndone(Stalled(w2, a), a, b, c);
    StallIsAdmitted(w2, a, es, 2, 4);
    DisturbedCons(w1, Spawn(a), Stall(a, es), 2, 5);
    DisturbedCons(w0, Spawn(b), [Spawn(a)] + Stall(a, es), 2, 5);
  }

  // ----- Without it there is no bound at all -----

  lemma AttemptRuns(w: World, id: nat, es: seq<Event>)
    requires CanTry(w, id) && Possible(AfterAttempt(w, id), es)
    ensures Possible(w, Attempt(id, es)) && Run(w, Attempt(id, es)) == Run(AfterAttempt(w, id), es)
  {
    var w1 := Next(w, ReadForCheck(id));
    var w2 := Next(w1, Decide(id));
    var w3 := Next(w2, ReadForRecord(id));
    assert Next(w3, Write(id)).sessions == AfterAttempt(w, id).sessions;
    RunCons(w3, Write(id), es);
    RunCons(w2, ReadForRecord(id), [Write(id)] + es);
    RunCons(w1, Decide(id), [ReadForRecord(id)] + ([Write(id)] + es));
    RunCons(w, ReadForCheck(id), [Decide(id)] + ([ReadForRecord(id)] + ([Write(id)] + es)));
  }

  /** Sessions k..m-1 connect, read the file and decide. */
  function Gather(k: nat, m: nat): seq<Event>
    requires k <= m
    decreases m - k
  {
    if k == m then [] else [Spawn(k)] + ([ReadForCheck(k)] + ([Decide(k)] + Gather(k + 1, m)))
  }

  /** Sessions k..m-1 are all about to remove the file, and no attempt is in flight. */
  predicate AreRemoving(w: World, k: nat, m: nat) {
    && InFlight(w) == {}
    && forall i :: k <= i < m ==> i in w.sessions && w.sessions[i].Removing? && w.sessions[i].attempt == 1
  }

  predicate AreNumberedBelow(w: World, k: nat) {
    forall i :: i in w.sessions ==> i < k
  }

  lemma {:induction false} GatherReaches(w: World, first: nat, k: nat, m: nat)
    requires first <= k <= m && AreNumberedBelow(w, k) && AreRemoving(w, first, k)
    requires IsStale(Read(w.file), w.now) && !IsLocked(Read(w.file), w.now)
    ensures Possible(w, Gather(k, m))
    ensures AreRemoving(Run(w, Gather(k, m)), first, m)
    ensures Run(w, Gather(k, m)).file == w.file && Run(w, Gather(k, m)).now == w.now
    decreases m - k
  {
    if k == m {
    } else {
      var w1 := Next(w, Spawn(k));
      var w2 := Next(w1, ReadForCheck(k));
      var w3 := Next(w2, Decide(k));
      assert InFlight(w3) == InFlight(w);
      GatherReaches(w3, first, k + 1, m);
      RunCons(w2, Decide(k), Gather(k + 1, m));
      RunCons(w1, ReadForCheck(k), [Decide(k)] + Gather(k + 1, m));
      RunCons(w, Spawn(k), [ReadForCheck(k)] + ([Decide(k)] + Gather(k + 1, m)));
    }
  }

  /** Session 0 trips the lock; just over an hour after the lock's end m more sessions decide to
      remove the file. */
  function StaleCrowd(m: nat): seq<Event> {
    [Spawn(0)] + Attempt(0, Attempt(0, Attempt(0, [Tick(LOCK_SECONDS + STALE_SECONDS + 1)] + Gather(1, m + 1))))
  }

  lemma CrowdIsReachable(start: nat, m: nat)
    ensures Possible(Init(start), StaleCrowd(m))
    ensures AreRemoving(Run(Init(start), StaleCrowd(m)), 1, m + 1)
  {
    var tick := Tick(LOCK_SECONDS + STALE_SECONDS + 1);
    var w1 := Next(Init(start), Spawn(0));
    var w2 := AfterAttempt(w1, 0);
    var w3 := AfterAttempt(w2, 0);
    var w4 := AfterAttempt(w3, 0);
    var w5 := Next(w4, tick);
    assert w4.file == Some(State(0, start + LOCK_SECONDS)) && w4.sessions.Keys == {0};
    assert InFlight(w5) == {};
    var rest := [tick] + Gather(1, m + 1);
    GatherReaches(w5, 1, 1, m + 1);
    RunCons(w4, tick, Gather(1, m + 1));
    AttemptRuns(w3, 0, rest);
    AttemptRuns(w2, 0, Attempt(0, rest));
    AttemptRuns(w1, 0, Attempt(0, Attempt(0, rest)));
    RunCons(Init(start), Spawn(0), Attempt(0, Attempt(0, Attempt(0, rest))));
  }

  /** Sessions k..m-1 in turn remove the file, fail, and record it; each removal takes away the
      record of the session before. */
  function RemoveInTurn(k: nat, m: nat): seq<Event>
    requires k <= m
    decreases m - k
  {
    if k == m then [] else [Remove(k)] + ([ReadForRecord(k)] + ([Write(k)] + RemoveInTurn(k + 1, m)))
  }

  lemma {:induction false} RemovalsAreAdmitted(w: World, k: nat, m: nat)
    requires k <= m && AreRemoving(w, k, m)
    ensures Instant(w, RemoveInTurn(k, m), 1, m - k)
    ensures k < m ==> Run(w, RemoveInTurn(k, m)).file == Some(State(1, 0))
    decreases m - k
  {
    if k == m {
    } else {
      var w1 := Next(w, Remove(k));
      var w2 := Next(w1, ReadForRecord(k));
      var w3 := Next(w2, Write(k));
      assert InFlight(w1) == {k} && InFlight(w2) == {k} && InFlight(w3) == {};
      var later := RemoveInTurn(k + 1, m);
      RemovalsAreAdmitted(w3, k + 1, m);
      assert w3.file == Some(State(1, 0));
      InstantCons(w2, Write(k), later, 1, m - k - 1);
      InstantCons(w1, ReadForRecord(k), [Write(k)] + later, 1, m - k - 1);
      InstantCons(w, Remove(k), [ReadForRecord(k)] + ([Write(k)] + later), 1, m - k - 1);
      RunCons(w2, Write(k), later);
      RunCons(w1, ReadForRecord(k), [Write(k)] + later);
      RunCons(w, Remove(k), [ReadForRecord(k)] + ([Write(k)] + later));
    }
  }

  /** The gap before a removal counts too, and what it can cost has no bound: for every m some run
      admits m attempts within one second although never more than one is in flight, and of their
      m failures the file keeps one. */
  lemma RemovalsHaveNoBound(start: nat, m: nat)
    requires m > 0
    ensures Possible(Init(start), StaleCrowd(m))
    ensures var w := Run(Init(start), StaleCrowd(m));
            && Instant(w, RemoveInTurn(1, m + 1), 1, m)
            && Run(w, RemoveInTurn(1, m + 1)).file == Some(State(1, 0))
  {
    CrowdIsReachable(start, m);
    RemovalsAreAdmitted(Run(Init(start), StaleCrowd(m)), 1, m + 1);
  }

  /** So a removal can take another session's new failure away: of two sessions that have decided to
      remove the same stale file one does, fails and records it; then the other removes that record. */
  lemma RemovalCanLoseFailure(start: nat)
    ensures Possible(Init(start), StaleCrowd(2))
    ensures var w := Run(Init(start), StaleCrowd(2));
            var es := [Remove(1)] + ([ReadForRecord(1)] + ([Write(1)] + ([Remove(2)] + [])));
            && Possible(w, es) && Run(w, es).file == None
            && 1 in Run(w, es).sessions && Run(w, es).sessions[1] == Checking(2)
  {
    CrowdIsReachable(start, 2);
    var w := Run(Init(start), StaleCrowd(2));
    var w1 := Next(w, Remove(1));
    var w2 := Next(w1, ReadForRecord(1));
    var w3 := Next(w2, Write(1));
    RunCons(w3, Remove(2), []);
    RunCons(w2, Write(1), [Remove(2)] + []);
    RunCons(w1, ReadForRecord(1), [Write(1)] + ([Remove(2)] + []));
    RunCons(w, Remove(1), [ReadForRecord(1)] + ([Write(1)] + ([Remove(2)] + [])));
  }
}
