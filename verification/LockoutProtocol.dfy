/** Any number of sessions of one IP share one lockout file (lockout.go, auth.go).
    Here check and record are single steps; LockoutSplit takes them apart. */
module LockoutProtocol {
  import opened Prelude
  import opened LockoutState

  /** Where one session stands in its attempt loop. */
  datatype Phase =
    | Checking(attempt: nat)
    | Verifying(attempt: nat)
    | Accepted
    | Denied
    | LockedOut(wait: int)

  datatype World = World(file: Option<State>, now: nat, sessions: map<nat, Phase>)

  datatype Event =
    | Tick(seconds: nat)
    | Spawn(id: nat)
    | Check(id: nat)
    | Succeed(id: nat)
    | Fail(id: nat)

  function Init(start: nat): World {
    World(None, start, map[])
  }

  predicate Enabled(w: World, e: Event) {
    match e
    case Tick(_) => true
    case Spawn(id) => id !in w.sessions
    case Check(id) => id in w.sessions && w.sessions[id].Checking?
    case Succeed(id) => id in w.sessions && w.sessions[id].Verifying?
    case Fail(id) => id in w.sessions && w.sessions[id].Verifying?
  }

  function CheckPhase(st: State, now: nat, attempt: nat): Phase {
    if IsLocked(st, now) then LockedOut(st.lockedUntil - now) else Verifying(attempt)
  }

  function CheckFile(file: Option<State>, st: State, now: nat): Option<State> {
    if !IsLocked(st, now) && IsStale(st, now) then None else file
  }

  function FailPhase(attempt: nat): Phase {
    if attempt >= MAX_ATTEMPTS then Denied else Checking(attempt + 1)
  }

  function Next(w: World, e: Event): World
    requires Enabled(w, e)
  {
    var st := Read(w.file);
    match e
    case Tick(n) => w.(now := w.now + n)
    case Spawn(id) => w.(sessions := w.sessions[id := Checking(1)])
    case Check(id) =>
      World(CheckFile(w.file, st, w.now), w.now,
            w.sessions[id := CheckPhase(st, w.now, w.sessions[id].attempt)])
    case Succeed(id) => World(None, w.now, w.sessions[id := Accepted])
    case Fail(id) =>
      World(Some(AfterFailure(st, w.now)), w.now, w.sessions[id := FailPhase(w.sessions[id].attempt)])
  }

  /** The events can happen one after the other, starting in w. */
  predicate Possible(w: World, es: seq<Event>)
    decreases es
  {
    es == [] || (Enabled(w, es[0]) && Possible(Next(w, es[0]), es[1..]))
  }

  function Run(w: World, es: seq<Event>): World
    requires Possible(w, es)
    decreases es
  {
    if es == [] then w else Run(Next(w, es[0]), es[1..])
  }

  // ----- What can happen, and what it comes to -----

  /** Nothing holds a session up: it can always check, and after a passed check it can always succeed
      or fail; the clock can move and sessions can connect at any time. */
  lemma StepsArePossible(w: World, id: nat, seconds: nat)
    ensures Enabled(w, Tick(seconds))
    ensures id !in w.sessions ==> Enabled(w, Spawn(id))
    ensures id in w.sessions && w.sessions[id].Checking? ==> Enabled(w, Check(id))
    ensures id in w.sessions && w.sessions[id].Verifying? ==> Enabled(w, Succeed(id)) && Enabled(w, Fail(id))
  {
  }

  /** Three failures, then a check of another session some seconds later. */
  function TripThenCheck(a: nat, b: nat, seconds: nat): seq<Event> {
    [Spawn(a), Check(a), Fail(a), Check(a), Fail(a), Check(a), Fail(a), Spawn(b), Tick(seconds), Check(b)]
  }

  lemma TripIsPossible(start: nat, a: nat)
    ensures var es := TripThenCheck(a, a, 0)[..7];
            && Possible(Init(start), es)
            && Run(Init(start), es).file == Some(State(0, start + 15)) && Run(Init(start), es).now == start
            && Run(Init(start), es).sessions == map[a := Denied]
  {
    var w0 := Init(start);
    var w1 := Next(w0, Spawn(a));
    var w2 := Next(w1, Check(a));
    var w3 := Next(w2, Fail(a));
    var w4 := Next(w3, Check(a));
    var w5 := Next(w4, Fail(a));
    var w6 := Next(w5, Check(a));
    var w7 := Next(w6, Fail(a));
    EventCons(w6, Fail(a), []);
    EventCons(w5, Check(a), [Fail(a)] + []);
    EventCons(w4, Fail(a), [Check(a)] + ([Fail(a)] + []));
    EventCons(w3, Check(a), [Fail(a)] + ([Check(a)] + ([Fail(a)] + [])));
    EventCons(w2, Fail(a), [Check(a)] + ([Fail(a)] + ([Check(a)] + ([Fail(a)] + []))));
    EventCons(w1, Check(a), [Fail(a)] + ([Check(a)] + ([Fail(a)] + ([Check(a)] + ([Fail(a)] + [])))));
    EventCons(w0, Spawn(a), [Check(a)] + ([Fail(a)] + ([Check(a)] + ([Fail(a)] + ([Check(a)] + ([Fail(a)] + []))))));
    assert TripThenCheck(a, a, 0)[..7] ==
           [Spawn(a)] + ([Check(a)] + ([Fail(a)] + ([Check(a)] + ([Fail(a)] + ([Check(a)] + ([Fail(a)] + []))))));
  }

  lemma EventCons(w: World, e: Event, es: seq<Event>)
    requires Enabled(w, e) && Possible(Next(w, e), es)
    ensures Possible(w, [e] + es) && Run(w, [e] + es) == Run(Next(w, e), es)
  {
    assert ([e] + es)[1..] == es;
  }

  /** In figures: after three failures every session is refused for 15 seconds and told how many of
      them are left; from then on a check passes; the file is removed by it 3600 seconds later. */
  lemma LockInFigures(start: nat, a: nat, b: nat, seconds: nat)
    requires a != b
    ensures Possible(Init(start), TripThenCheck(a, b, seconds))
    ensures var w := Run(Init(start), TripThenCheck(a, b, seconds));
            && w.sessions.Keys == {a, b} && w.sessions[a] == Denied
            && w.sessions[b] == (if seconds < 15 then LockedOut(15 - seconds) else Verifying(1))
            && w.file == (if seconds > 3615 then None else Some(State(0, start + 15)))
  {
    var first := TripThenCheck(a, a, 0)[..7];
    TripIsPossible(start, a);
    var w := Run(Init(start), first);
    var w1 := Next(w, Spawn(b));
    var w2 := Next(w1, Tick(seconds));
    var w3 := Next(w2, Check(b));
    EventCons(w2, Check(b), []);
    EventCons(w1, Tick(seconds), [Check(b)] + []);
    EventCons(w, Spawn(b), [Tick(seconds)] + ([Check(b)] + []));
    var second := [Spawn(b)] + ([Tick(seconds)] + ([Check(b)] + []));
    EventsAppend(Init(start), first, second);
    assert TripThenCheck(a, b, seconds) == first + second;
  }

  lemma {:induction false} EventsAppend(w: World, a: seq<Event>, b: seq<Event>)
    requires Possible(w, a) && Possible(Run(w, a), b)
    ensures Possible(w, a + b) && Run(w, a + b) == Run(Run(w, a), b)
    decreases a
  {
    if a == [] {
      assert a + b == b;
    } else {
      EventsAppend(Next(w, a[0]), a[1..], b);
      EventCons(w, a[0], a[1..] + b);
      assert a + b == [a[0]] + (a[1..] + b);
    }
  }

  // ----- What is counted along a run -----

  /** Sessions between a passed check and its recorded outcome. */
  function InFlight(w: World): set<nat> {
    set id | id in w.sessions && w.sessions[id].Verifying?
  }

  /** The event is a check that lets an attempt through. */
  predicate Admits(w: World, e: Event) {
    e.Check? && !IsLocked(Read(w.file), w.now)
  }

  /** The event is a check that removes a stale file. */
  predicate ClearsStale(w: World, e: Event) {
    Admits(w, e) && IsStale(Read(w.file), w.now)
  }

  function Admissions(w: World, es: seq<Event>): nat
    requires Possible(w, es)
    decreases es
  {
    if es == [] then 0
    else (if Admits(w, es[0]) then 1 else 0) + Admissions(Next(w, es[0]), es[1..])
  }

  function StaleClears(w: World, es: seq<Event>): nat
    requires Possible(w, es)
    decreases es
  {
    if es == [] then 0
    else (if ClearsStale(w, es[0]) then 1 else 0) + StaleClears(Next(w, es[0]), es[1..])
  }

  function Failures(es: seq<Event>): nat {
    if es == [] then 0 else (if es[0].Fail? then 1 else 0) + Failures(es[1..])
  }

  predicate NoSuccess(es: seq<Event>) {
    forall i :: 0 <= i < |es| ==> !es[i].Succeed?
  }

  /** At no moment of the run are more than n attempts in flight. */
  predicate InFlightAtMost(w: World, es: seq<Event>, n: nat)
    requires Possible(w, es)
    decreases es
  {
    |InFlight(w)| <= n && (es == [] || InFlightAtMost(Next(w, es[0]), es[1..], n))
  }

  // ----- What every reachable state keeps -----

  /** The counter is below the threshold and a lock never ends later than 15 s from now. */
  predicate FileBounded(w: World) {
    var st := Read(w.file);
    0 <= st.failCount < MAX_ATTEMPTS && 0 <= st.lockedUntil <= w.now + LOCK_SECONDS
  }

  /** Attempts are numbered 1..3 and every reported wait is 1..15 seconds. */
  predicate PhaseBounded(p: Phase) {
    match p
    case Checking(k) => 1 <= k <= MAX_ATTEMPTS
    case Verifying(k) => 1 <= k <= MAX_ATTEMPTS
    case LockedOut(wait) => 1 <= wait <= LOCK_SECONDS
    case _ => true
  }

  predicate Inv(w: World) {
    FileBounded(w) && forall id :: id in w.sessions ==> PhaseBounded(w.sessions[id])
  }

  lemma NextKeepsInv(w: World, e: Event)
    requires Inv(w) && Enabled(w, e)
    ensures Inv(Next(w, e))
  {
  }

  lemma {:induction false} RunKeepsInv(w: World, es: seq<Event>)
    requires Inv(w) && Possible(w, es)
    ensures Inv(Run(w, es))
    decreases es
  {
    if es == [] {
    } else {
      NextKeepsInv(w, es[0]);
      RunKeepsInv(Next(w, es[0]), es[1..]);
    }
  }

  /** A session told to wait is told between 1 and 15 seconds; the counter stays in 0..2. */
  lemma ReachableIsBounded(start: nat, es: seq<Event>)
    requires Possible(Init(start), es)
    ensures Inv(Run(Init(start), es))
    ensures var w := Run(Init(start), es);
            && 0 <= Read(w.file).failCount <= 2 && Read(w.file).lockedUntil <= w.now + 15
            && forall id :: id in w.sessions && w.sessions[id].LockedOut? ==> 1 <= w.sessions[id].wait <= 15
  {
    RunKeepsInv(Init(start), es);
  }

  lemma {:induction false} RunAppend(w: World, a: seq<Event>, b: seq<Event>)
    ensures Possible(w, a + b) <==> Possible(w, a) && Possible(Run(w, a), b)
    ensures Possible(w, a + b) ==> Run(w, a + b) == Run(Run(w, a), b)
    ensures Possible(w, a + b) ==> Admissions(w, a + b) == Admissions(w, a) + Admissions(Run(w, a), b)
    ensures Possible(w, a + b) ==> StaleClears(w, a + b) == StaleClears(w, a) + StaleClears(Run(w, a), b)
    ensures Possible(w, a + b) ==>
              forall n: nat :: InFlightAtMost(w, a + b, n) <==> InFlightAtMost(w, a, n) && InFlightAtMost(Run(w, a), b, n)
    decreases a
  {
    if a == [] {
      assert a + b == b;
    } else {
      assert (a + b)[0] == a[0] && (a + b)[1..] == a[1..] + b;
      if Enabled(w, a[0]) {
        RunAppend(Next(w, a[0]), a[1..], b);
      }
    }
  }

  lemma {:induction false} ClockIsMonotone(w: World, es: seq<Event>)
    requires Possible(w, es)
    ensures w.now <= Run(w, es).now
    decreases es
  {
    if es == [] {
    } else {
      ClockIsMonotone(Next(w, es[0]), es[1..]);
    }
  }

  /** How one event moves the set of attempts in flight. */
  lemma InFlightStep(w: World, e: Event)
    requires Enabled(w, e)
    ensures match e
            case Check(id) =>
              id !in InFlight(w) &&
              InFlight(Next(w, e)) == (if Admits(w, e) then InFlight(w) + {id} else InFlight(w))
            case Succeed(id) => id in InFlight(w) && InFlight(Next(w, e)) == InFlight(w) - {id}
            case Fail(id) => id in InFlight(w) && InFlight(Next(w, e)) == InFlight(w) - {id}
            case _ => InFlight(Next(w, e)) == InFlight(w)
  {
  }

  // ----- The lock holds -----

  /** While a lock set earlier is running and nobody logs in, no check passes, the lock's end
      never moves back, and the only attempts that complete are the ones already in flight,
      each at most once. */
  lemma {:induction false} LockHolds(w: World, es: seq<Event>)
    requires Inv(w) && Possible(w, es) && NoSuccess(es)
    requires Run(w, es).now < Read(w.file).lockedUntil
    ensures Admissions(w, es) == 0
    ensures StaleClears(w, es) == 0
    ensures Read(w.file).lockedUntil <= Read(Run(w, es).file).lockedUntil
    ensures InFlight(Run(w, es)) <= InFlight(w)
    ensures Failures(es) == |InFlight(w)| - |InFlight(Run(w, es))|
    decreases es
  {
    if es == [] {
    } else {
      var w' := Next(w, es[0]);
      ClockIsMonotone(w, es);
      NextKeepsInv(w, es[0]);
      InFlightStep(w, es[0]);
      ClockIsMonotone(w', es[1..]);
      LockHolds(w', es[1..]);
    }
  }

  // ----- The sliding window bound -----

  /** No check before `horizon` can find the file stale. */
  predicate NotStaleBy(w: World, horizon: nat) {
    var until := Read(w.file).lockedUntil;
    until == 0 || horizon - until <= STALE_SECONDS
  }

  lemma {:induction false} NoClearWhenNotStale(w: World, es: seq<Event>)
    requires Inv(w) && Possible(w, es)
    requires NotStaleBy(w, Run(w, es).now)
    requires Run(w, es).now < w.now + LOCK_SECONDS
    ensures StaleClears(w, es) == 0
    decreases es
  {
    if es == [] {
    } else {
      ClockIsMonotone(w, es);
      NextKeepsInv(w, es[0]);
      ClockIsMonotone(Next(w, es[0]), es[1..]);
      NoClearWhenNotStale(Next(w, es[0]), es[1..]);
    }
  }

  /** With or without logins in it. */
  lemma {:induction false} OneClearPerWindow(w: World, es: seq<Event>)
    requires Inv(w) && Possible(w, es)
    requires Run(w, es).now < w.now + LOCK_SECONDS
    ensures StaleClears(w, es) <= 1
    decreases es
  {
    if es == [] {
    } else {
      var w' := Next(w, es[0]);
      NextKeepsInv(w, es[0]);
      if ClearsStale(w, es[0]) {
        NoClearWhenNotStale(w', es[1..]);
      } else {
        OneClearPerWindow(w', es[1..]);
      }
    }
  }

  /** The bound with its potential: free places, plus failures missing to the next trip. */
  lemma {:induction false} WindowPotential(w: World, es: seq<Event>, n: nat)
    requires Inv(w) && Possible(w, es) && NoSuccess(es)
    requires Run(w, es).now < w.now + LOCK_SECONDS
    requires InFlightAtMost(w, es, n)
    ensures Admissions(w, es) <= n - |InFlight(w)| + 2 - Read(w.file).failCount + 2 * StaleClears(w, es)
    decreases es
  {
    if es == [] {
    } else {
      var w' := Next(w, es[0]);
      NextKeepsInv(w, es[0]);
      InFlightStep(w, es[0]);
      if es[0].Fail? && Trips(Read(w.file)) {
        LockHolds(w', es[1..]);
      } else {
        WindowPotential(w', es[1..], n);
      }
    }
  }

  /** Any 15-second window without a login, in which at most n attempts are in flight at once,
      lets at most n + 2 attempts through, or n + 4 if a stale file is removed in it, which
      happens at most once. The number of sessions over time does not matter. */
  lemma SlidingWindow(start: nat, before: seq<Event>, window: seq<Event>, n: nat)
    requires Possible(Init(start), before)
    requires Possible(Run(Init(start), before), window)
    requires NoSuccess(window)
    requires InFlightAtMost(Run(Init(start), before), window, n)
    requires Run(Run(Init(start), before), window).now < Run(Init(start), before).now + 15
    ensures StaleClears(Run(Init(start), before), window) <= 1
    ensures Admissions(Run(Init(start), before), window)
         <= n + 2 + 2 * StaleClears(Run(Init(start), before), window)
  {
    var w := Run(Init(start), before);
    ReachableIsBounded(start, before);
    OneClearPerWindow(w, window);
    WindowPotential(w, window, n);
  }

  // ----- Conservation -----

  /** A world with the history of its file since the last clear (login or stale removal). */
  datatype Audit = Audit(world: World, failures: nat, trips: nat, lastRecord: Option<nat>)

  function AuditInit(start: nat): Audit {
    Audit(Init(start), 0, 0, None)
  }

  function AuditNext(a: Audit, e: Event): Audit
    requires Enabled(a.world, e)
  {
    var w := Next(a.world, e);
    if e.Succeed? || ClearsStale(a.world, e) then Audit(w, 0, 0, None)
    else if e.Fail? then
      Audit(w, a.failures + 1, a.trips + (if Trips(Read(a.world.file)) then 1 else 0), Some(a.world.now))
    else a.(world := w)
  }

  function AuditRun(a: Audit, es: seq<Event>): Audit
    requires Possible(a.world, es)
    decreases es
  {
    if es == [] then a else AuditRun(AuditNext(a, es[0]), es[1..])
  }

  predicate Conserved(a: Audit) {
    var st := Read(a.world.file);
    && a.failures == MAX_ATTEMPTS * a.trips + st.failCount
    && (a.lastRecord.None? ==> st == FRESH)
    && (a.lastRecord.Some? ==> st.lockedUntil <= a.lastRecord.value + LOCK_SECONDS)
    && (st.lockedUntil > 0 <==> a.trips > 0)
  }

  lemma {:induction false} AuditKeepsConserved(a: Audit, es: seq<Event>)
    requires Inv(a.world) && Conserved(a) && Possible(a.world, es)
    ensures Conserved(AuditRun(a, es))
    ensures AuditRun(a, es).world == Run(a.world, es)
    decreases es
  {
    if es == [] {
    } else {
      NextKeepsInv(a.world, es[0]);
      AuditKeepsConserved(AuditNext(a, es[0]), es[1..]);
    }
  }

  /** However the failures are spread over sessions and interleaved, none is lost or counted
      twice: since the last clear they are three per trip plus the stored count, and the stored
      lock ends at most 15 s after the last recorded failure. */
  lemma Conservation(start: nat, es: seq<Event>)
    requires Possible(Init(start), es)
    ensures var a := AuditRun(AuditInit(start), es);
            && a.world == Run(Init(start), es)
            && Conserved(a)
            && 0 <= Read(a.world.file).failCount <= 2
  {
    ReachableIsBounded(start, es);
    AuditKeepsConserved(AuditInit(start), es);
  }

  // ----- Attempts of one session -----

  function AdmissionsOf(w: World, es: seq<Event>, id: nat): nat
    requires Possible(w, es)
    decreases es
  {
    if es == [] then 0
    else (if Admits(w, es[0]) && es[0].id == id then 1 else 0) + AdmissionsOf(Next(w, es[0]), es[1..], id)
  }

  /** Attempts a session may still start. */
  function Budget(w: World, id: nat): int {
    if id !in w.sessions then MAX_ATTEMPTS
    else match w.sessions[id]
      case Checking(k) => MAX_ATTEMPTS - k + 1
      case Verifying(k) => MAX_ATTEMPTS - k
      case _ => 0
  }

  lemma {:induction false} BudgetIsSpent(w: World, es: seq<Event>, id: nat)
    requires Inv(w) && Possible(w, es)
    ensures 0 <= AdmissionsOf(w, es, id) <= Budget(w, id)
    ensures EndsDenied(w, es, id) && !(id in w.sessions && w.sessions[id].Denied?)
            ==> AdmissionsOf(w, es, id) == Budget(w, id)
    decreases es
  {
    if es == [] {
      assert id in w.sessions ==> PhaseBounded(w.sessions[id]);
    } else {
      NextKeepsInv(w, es[0]);
      assert id in w.sessions ==> PhaseBounded(w.sessions[id]);
      var w' := Next(w, es[0]);
      BudgetIsSpent(w', es[1..], id);
      if id in w'.sessions && IsOver(w'.sessions[id]) {
        OverStaysOver(w', es[1..], id);
      }
    }
  }

  predicate EndsDenied(w: World, es: seq<Event>, id: nat)
    requires Possible(w, es)
  {
    var sessions := Run(w, es).sessions;
    id in sessions && sessions[id].Denied?
  }

  predicate IsOver(p: Phase) {
    p.Accepted? || p.Denied? || p.LockedOut?
  }

  lemma {:induction false} OverStaysOver(w: World, es: seq<Event>, id: nat)
    requires Possible(w, es) && id in w.sessions && IsOver(w.sessions[id])
    ensures AdmissionsOf(w, es, id) == 0
    ensures id in Run(w, es).sessions && Run(w, es).sessions[id] == w.sessions[id]
    decreases es
  {
    if es == [] {
    } else {
      OverStaysOver(Next(w, es[0]), es[1..], id);
    }
  }

  /** No session starts more than three attempts, and one that ends denied started exactly three. */
  lemma ThreeAttemptsPerSession(start: nat, es: seq<Event>, id: nat)
    requires Possible(Init(start), es)
    ensures AdmissionsOf(Init(start), es, id) <= MAX_ATTEMPTS
    ensures EndsDenied(Init(start), es, id) ==> AdmissionsOf(Init(start), es, id) == MAX_ATTEMPTS
  {
    BudgetIsSpent(Init(start), es, id);
  }

  // ----- The window bound is exact -----

  /** A window as in SlidingWindow, with the numbers it reaches. */
  predicate Window(w: World, es: seq<Event>, n: nat, admitted: nat, clears: nat, seconds: nat) {
    && Possible(w, es) && NoSuccess(es) && InFlightAtMost(w, es, n)
    && Admissions(w, es) == admitted && StaleClears(w, es) == clears
    && Run(w, es).now == w.now + seconds
  }

  lemma WindowCons(w: World, e: Event, es: seq<Event>, n: nat, admitted: nat, clears: nat, seconds: nat)
    requires Enabled(w, e) && !e.Succeed? && |InFlight(w)| <= n
    requires Window(Next(w, e), es, n, admitted, clears, seconds)
    ensures Window(w, [e] + es, n,
                   admitted + (if Admits(w, e) then 1 else 0),
                   clears + (if ClearsStale(w, e) then 1 else 0),
                   seconds + (if e.Tick? then e.seconds else 0))
  {
    assert ([e] + es)[1..] == es;
  }

  /** Sessions k..m-1 connect and each passes one check. */
  function Flood(k: nat, m: nat): seq<Event>
    requires k <= m
    decreases m - k
  {
    if k == m then [] else [Spawn(k)] + ([Check(k)] + Flood(k + 1, m))
  }

  lemma {:induction false} FloodIsAdmitted(w: World, k: nat, m: nat, n: nat)
    requires k <= m && forall i :: i in w.sessions ==> i < k
    requires !IsLocked(Read(w.file), w.now) && !IsStale(Read(w.file), w.now)
    requires |InFlight(w)| + m - k <= n
    ensures Window(w, Flood(k, m), n, m - k, 0, 0)
    decreases m - k
  {
    if k == m {
    } else {
      var w1 := Next(w, Spawn(k));
      var w2 := Next(w1, Check(k));
      InFlightStep(w, Spawn(k));
      InFlightStep(w1, Check(k));
      FloodIsAdmitted(w2, k + 1, m, n);
      WindowCons(w1, Check(k), Flood(k + 1, m), n, m - k - 1, 0, 0);
      WindowCons(w, Spawn(k), [Check(k)] + Flood(k + 1, m), n, m - k, 0, 0);
    }
  }

  /** Session id can try now: it is at a check and the file is not locked. */
  predicate CanTry(w: World, id: nat) {
    id in w.sessions && w.sessions[id].Checking? && !IsLocked(Read(w.file), w.now)
  }

  /** The world after one failed attempt of session id. */
  function AfterTry(w: World, id: nat): World
    requires CanTry(w, id)
  {
    var st := Read(CheckFile(w.file, Read(w.file), w.now));
    World(Some(AfterFailure(st, w.now)), w.now, w.sessions[id := FailPhase(w.sessions[id].attempt)])
  }

  function Try(id: nat, rest: seq<Event>): seq<Event> {
    [Check(id)] + ([Fail(id)] + rest)
  }

  lemma TryIsAdmitted(w: World, id: nat, es: seq<Event>, n: nat, admitted: nat, clears: nat, seconds: nat)
    requires CanTry(w, id) && |InFlight(w)| < n
    requires Window(AfterTry(w, id), es, n, admitted, clears, seconds)
    ensures InFlight(AfterTry(w, id)) == InFlight(w)
    ensures Window(w, Try(id, es), n, admitted + 1,
                   clears + (if ClearsStale(w, Check(id)) then 1 else 0), seconds)
  {
    var w1 := Next(w, Check(id));
    InFlightStep(w, Check(id));
    InFlightStep(w1, Fail(id));
    assert w1.sessions[id := FailPhase(w1.sessions[id].attempt)] == AfterTry(w, id).sessions;
    assert InFlight(w1) - {id} == InFlight(w);
    WindowCons(w1, Fail(id), es, n, admitted, clears, seconds);
    WindowCons(w, Check(id), [Fail(id)] + es, n, admitted, clears, seconds);
  }

  /** Session k fails twice and tries a third time; n - 1 others check in the same second. */
  function TightWindow(k: nat, n: nat): seq<Event>
    requires n >= 1
  {
    [Spawn(k)] + Try(k, Try(k, [Check(k)] + Flood(k + 1, k + n)))
  }

  /** Every session so far is numbered below k, and none has an attempt in flight. */
  predicate QuietBelow(w: World, k: nat) {
    InFlight(w) == {} && forall i :: i in w.sessions ==> i < k
  }

  /** From any world with a zero count and no lock, some window with at most n attempts in flight
      admits exactly n + 2, for every n >= 1: the bound of SlidingWindow is met. */
  lemma BoundIsReached(w: World, k: nat, n: nat)
    requires n >= 1 && QuietBelow(w, k)
    requires Read(w.file).failCount == 0 && Read(w.file).lockedUntil <= w.now && !IsStale(Read(w.file), w.now)
    ensures Window(w, TightWindow(k, n), n, n + 2, 0, 0)
  {
    var w1 := Next(w, Spawn(k));
    var w2 := AfterTry(w1, k);
    var w3 := AfterTry(w2, k);
    InFlightStep(w, Spawn(k));
    InFlightAfterTry(w1, k);
    InFlightAfterTry(w2, k);
    InFlightStep(w3, Check(k));
    assert InFlight(Next(w3, Check(k))) == {k};
    FloodIsAdmitted(Next(w3, Check(k)), k + 1, k + n, n);
    WindowCons(w3, Check(k), Flood(k + 1, k + n), n, n - 1, 0, 0);
    TryIsAdmitted(w2, k, [Check(k)] + Flood(k + 1, k + n), n, n, 0, 0);
    TryIsAdmitted(w1, k, Try(k, [Check(k)] + Flood(k + 1, k + n)), n, n + 1, 0, 0);
    WindowCons(w, Spawn(k), Try(k, Try(k, [Check(k)] + Flood(k + 1, k + n))), n, n + 2, 0, 0);
  }

  lemma InFlightAfterTry(w: World, id: nat)
    requires CanTry(w, id)
    ensures InFlight(AfterTry(w, id)) == InFlight(w)
  {
  }

  /** An hour less one second after a lock's end: two failures, two seconds, a check that removes
      the file and fails, another failure, and n attempts that stay open. */
  function TightStaleWindow(k: nat, n: nat): seq<Event>
    requires n >= 1
  {
    [Spawn(k)] + Try(k, Try(k, [Tick(2)] + Try(k, TightTail(k + 1, n))))
  }

  function TightTail(k: nat, n: nat): seq<Event>
    requires n >= 1
  {
    [Spawn(k)] + Try(k, [Check(k)] + Flood(k + 1, k + n))
  }

  lemma TightTailReached(w: World, k: nat, n: nat)
    requires n >= 1 && QuietBelow(w, k) && w.file == Some(State(1, 0))
    ensures Window(w, TightTail(k, n), n, n + 1, 0, 0)
  {
    var w1 := Next(w, Spawn(k));
    var w2 := AfterTry(w1, k);
    InFlightStep(w, Spawn(k));
    InFlightAfterTry(w1, k);
    InFlightStep(w2, Check(k));
    assert InFlight(Next(w2, Check(k))) == {k};
    FloodIsAdmitted(Next(w2, Check(k)), k + 1, k + n, n);
    WindowCons(w2, Check(k), Flood(k + 1, k + n), n, n - 1, 0, 0);
    TryIsAdmitted(w1, k, [Check(k)] + Flood(k + 1, k + n), n, n, 0, 0);
    WindowCons(w, Spawn(k), Try(k, [Check(k)] + Flood(k + 1, k + n)), n, n + 1, 0, 0);
  }

  /** With a stale removal in the window exactly n + 4 attempts can be admitted. */
  lemma StaleBoundIsReached(w: World, k: nat, n: nat)
    requires n >= 1 && QuietBelow(w, k)
    requires w.file.Some? && w.file.value.failCount == 0 && w.file.value.lockedUntil > 0
    requires w.now == w.file.value.lockedUntil + STALE_SECONDS - 1
    ensures Window(w, TightStaleWindow(k, n), n, n + 4, 1, 2)
  {
    var w1 := Next(w, Spawn(k));
    var w2 := AfterTry(w1, k);
    var w3 := AfterTry(w2, k);
    var w4 := Next(w3, Tick(2));
    var w5 := AfterTry(w4, k);
    InFlightStep(w, Spawn(k));
    InFlightAfterTry(w1, k);
    InFlightAfterTry(w2, k);
    InFlightStep(w3, Tick(2));
    InFlightAfterTry(w4, k);
    var tail := TightTail(k + 1, n);
    TightTailReached(w5, k + 1, n);
    TryIsAdmitted(w4, k, tail, n, n + 1, 0, 0);
    WindowCons(w3, Tick(2), Try(k, tail), n, n + 2, 1, 0);
    TryIsAdmitted(w2, k, [Tick(2)] + Try(k, tail), n, n + 2, 1, 2);
    TryIsAdmitted(w1, k, Try(k, [Tick(2)] + Try(k, tail)), n, n + 3, 1, 2);
    WindowCons(w, Spawn(k), Try(k, Try(k, [Tick(2)] + Try(k, tail))), n, n + 4, 1, 2);
  }

  lemma TryRuns(w: World, id: nat, es: seq<Event>)
    requires CanTry(w, id) && Possible(AfterTry(w, id), es)
    ensures Possible(w, Try(id, es)) && Run(w, Try(id, es)) == Run(AfterTry(w, id), es)
  {
    var w1 := Next(w, Check(id));
    assert w1.sessions[id := FailPhase(w1.sessions[id].attempt)] == AfterTry(w, id).sessions;
    assert ([Fail(id)] + es)[1..] == es;
    assert Try(id, es)[1..] == [Fail(id)] + es;
  }

  /** Session id trips the lock; then the clock moves to an hour less one second after its end. */
  function TripAndWait(id: nat): seq<Event> {
    [Spawn(id)] + Try(id, Try(id, Try(id, [Tick(LOCK_SECONDS + STALE_SECONDS - 1)])))
  }

  /** The worlds StaleBoundIsReached starts from are reachable. */
  lemma StaleWorldIsReachable(start: nat, id: nat)
    ensures Possible(Init(start), TripAndWait(id))
    ensures var w := Run(Init(start), TripAndWait(id));
            && QuietBelow(w, id + 1)
            && w.file == Some(State(0, start + LOCK_SECONDS))
            && w.now == start + LOCK_SECONDS + STALE_SECONDS - 1
  {
    var tick := [Tick(LOCK_SECONDS + STALE_SECONDS - 1)];
    var w1 := Next(Init(start), Spawn(id));
    var w2 := AfterTry(w1, id);
    var w3 := AfterTry(w2, id);
    assert tick[1..] == [];
    TryRuns(w3, id, tick);
    TryRuns(w2, id, Try(id, tick));
    TryRuns(w1, id, Try(id, Try(id, tick)));
    assert TripAndWait(id)[1..] == Try(id, Try(id, Try(id, tick)));
  }
}
