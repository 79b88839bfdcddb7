/** The idle watchdog of the relay (main.go, relay): a signal channel that holds at most one
    signal, and a timer that each received signal starts again. Time is counted in whole units. */
module Watchdog {

  /** `times` are the instants of traffic so far; the start of the relay counts as one. */
  datatype State = State(now: nat, deadline: nat, pending: bool, ended: bool, times: set<nat>)

  datatype Event =
    | Traffic
    | Drain
    | Expire
    | Tick(units: nat)

  function Init(start: nat, idle: nat): State {
    State(start, start + idle, false, false, {start})
  }

  /** The loop is prompt: the clock moves on only when neither a signal nor the timer is ready,
      and it stops at the deadline. When both are ready the loop may take either. */
  predicate Enabled(s: State, e: Event) {
    !s.ended &&
    match e
    case Traffic => true
    case Drain => s.pending
    case Expire => s.now >= s.deadline
    case Tick(n) => n > 0 && !s.pending && s.now + n <= s.deadline
  }

  /** A second signal before the first is received is dropped. */
  function Next(s: State, e: Event, idle: nat): State
    requires Enabled(s, e)
  {
    match e
    case Traffic => s.(pending := true, times := s.times + {s.now})
    case Drain => s.(pending := false, deadline := s.now + idle)
    case Expire => s.(ended := true)
    case Tick(n) => s.(now := s.now + n)
  }

  predicate Possible(s: State, es: seq<Event>, idle: nat)
    decreases es
  {
    es == [] || (Enabled(s, es[0]) && Possible(Next(s, es[0], idle), es[1..], idle))
  }

  function Run(s: State, es: seq<Event>, idle: nat): State
    requires Possible(s, es, idle)
    decreases es
  {
    if es == [] then s else Run(Next(s, es[0], idle), es[1..], idle)
  }

  /** t is the latest instant of traffic. */
  ghost predicate IsLatest(s: State, t: nat) {
    t in s.times && forall u :: u in s.times ==> u <= t
  }

  /** The timer runs from an instant of traffic; any traffic after that instant is happening now
      and its signal is still waiting. */
  predicate Inv(s: State, idle: nat) {
    && s.deadline >= idle && s.deadline - idle in s.times
    && s.deadline - idle <= s.now <= s.deadline
    && (s.ended ==> s.now == s.deadline)
    && (s.pending ==> s.now in s.times)
    && forall t :: t in s.times ==> t <= s.deadline - idle || (t == s.now && s.pending)
  }

  lemma {:induction false} RunKeepsInv(s: State, es: seq<Event>, idle: nat)
    requires Inv(s, idle) && Possible(s, es, idle)
    ensures Inv(Run(s, es, idle), idle)
    decreases es
  {
    if es == [] {
    } else {
      RunKeepsInv(Next(s, es[0], idle), es[1..], idle);
    }
  }

  /** When the relay ends for idleness, no traffic happened in the idle period before that instant:
      all of it is at least the idle time old, or happened at the very instant of the deadline. */
  lemma EndsOnlyWhenIdle(start: nat, idle: nat, es: seq<Event>)
    requires Possible(Init(start, idle), es, idle) && Run(Init(start, idle), es, idle).ended
    ensures var s := Run(Init(start, idle), es, idle);
            forall t :: t in s.times ==> t + idle <= s.now || t == s.now
  {
    RunKeepsInv(Init(start, idle), es, idle);
  }

  /** The latest traffic is at least the idle time old at the end, exactly when no signal was waiting
      at the moment the timer won. */
  lemma EndsIdleIffNothingWaits(start: nat, idle: nat, es: seq<Event>, latest: nat)
    requires idle > 0
    requires Possible(Init(start, idle), es, idle) && Run(Init(start, idle), es, idle).ended
    requires IsLatest(Run(Init(start, idle), es, idle), latest)
    ensures Run(Init(start, idle), es, idle).now - latest >= idle <==> !Run(Init(start, idle), es, idle).pending
  {
    RunKeepsInv(Init(start, idle), es, idle);
  }

  /** And a waiting signal can lose: traffic at the instant of the deadline may come too late. */
  lemma TrafficAtDeadlineCanLose(start: nat, idle: nat)
    requires idle > 0
    ensures var es := [Tick(idle), Traffic, Expire];
            Possible(Init(start, idle), es, idle) &&
            var s := Run(Init(start, idle), es, idle);
            s.ended && IsLatest(s, s.now)
  {
    var es := [Tick(idle), Traffic, Expire];
    var s1 := Next(Init(start, idle), es[0], idle);
    var s2 := Next(s1, es[1], idle);
    assert es[1..] == [Traffic, Expire] && es[1..][1..] == [Expire];
    assert Possible(s2, [Expire], idle) && Run(s2, [Expire], idle) == Next(s2, Expire, idle);
    assert Run(s1, es[1..], idle) == Run(s2, [Expire], idle);
  }

  /** The relay is over by the idle time after the latest traffic: the clock never passes that
      instant, and at that instant nothing but the end, or new traffic, can happen. */
  lemma OverByDeadline(start: nat, idle: nat, es: seq<Event>, latest: nat, e: Event)
    requires Possible(Init(start, idle), es, idle)
    requires IsLatest(Run(Init(start, idle), es, idle), latest)
    ensures var s := Run(Init(start, idle), es, idle);
            && s.now <= latest + idle
            && (idle > 0 && s.now == latest + idle && !s.ended ==>
                  Enabled(s, Expire) && (Enabled(s, e) ==> e == Expire || e == Traffic))
  {
    RunKeepsInv(Init(start, idle), es, idle);
  }

  /** Nothing holds the relay up: traffic is possible until the end, a waiting signal can be taken, the
      timer can end the relay from the deadline on, and before it, with no signal waiting, time can
      pass by any step up to it. */
  lemma StepsArePossible(s: State, units: nat)
    requires !s.ended
    ensures Enabled(s, Traffic)
    ensures s.pending ==> Enabled(s, Drain)
    ensures s.now >= s.deadline ==> Enabled(s, Expire)
    ensures !s.pending && 0 < units <= s.deadline - s.now ==> Enabled(s, Tick(units))
  {
  }
}
