/** The per-IP lockout record (lockout.go) and what check and record decide from it. */
module LockoutState {
  import opened Prelude

  const MAX_ATTEMPTS: nat := 3
  const LOCK_SECONDS: nat := 15
  const STALE_SECONDS: nat := 3600

  /** Two numbers: failures counted so far, and the Unix second the lock ends (0 = no lock). */
  datatype State = State(failCount: int, lockedUntil: int)

  const FRESH: State := State(0, 0)

  /** What a reader of the file sees: a missing file reads as "never failed". */
  function Read(file: Option<State>): State {
    if file.None? then FRESH else file.value
  }

  predicate IsLocked(st: State, now: nat) {
    st.lockedUntil > now
  }

  /** The lock ended more than an hour ago, so a check removes the file. */
  predicate IsStale(st: State, now: nat) {
    st.lockedUntil > 0 && now - st.lockedUntil > STALE_SECONDS
  }

  /** The state written back after one failed attempt. */
  function AfterFailure(st: State, now: nat): State {
    var count := WrapInt64(st.failCount + 1);
    if count >= MAX_ATTEMPTS
    then State(0, now + LOCK_SECONDS)
    else State(count, st.lockedUntil)
  }

  /** This failure is the one that sets the lock. */
  predicate Trips(st: State) {
    WrapInt64(st.failCount + 1) >= MAX_ATTEMPTS
  }

  /** The state after a failure in figures: the third failure locks for 15 seconds, and so does any
      larger count a file may hold; only the largest 64-bit count wraps around. */
  lemma FailureInFigures(st: State, now: nat)
    requires IsInt64(st.failCount)
    ensures st.failCount < 2 ==> AfterFailure(st, now) == State(st.failCount + 1, st.lockedUntil)
    ensures 2 <= st.failCount < 0x7FFF_FFFF_FFFF_FFFF ==> AfterFailure(st, now) == State(0, now + 15)
    ensures st.failCount == 0x7FFF_FFFF_FFFF_FFFF ==>
              AfterFailure(st, now) == State(-0x8000_0000_0000_0000, st.lockedUntil)
  {
  }
}
