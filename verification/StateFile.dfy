/** The lockout file on disk (lockout.go): how it is written and read, and check, record and reset
    over it. A reader may see any prefix of what a writer is writing. */
module StateFile {
  import opened Prelude
  import opened Text
  import opened LockoutState

  const FAIL_COUNT: string := "fail_count"
  const LOCKED_UNTIL: string := "locked_until"

  function Print(st: State): string {
    FAIL_COUNT + "=" + PrintInt(st.failCount) + "\n" + (LOCKED_UNTIL + "=" + PrintInt(st.lockedUntil) + "\n" + "")
  }

  /** One line sets one field, or nothing. */
  function ApplyLine(st: State, line: string): State {
    match Cut(line)
    case None => st
    case Some((k, v)) =>
      var n := ParseInt(TrimSpace(v));
      var key := TrimSpace(k);
      if key == FAIL_COUNT then st.(failCount := n)
      else if key == LOCKED_UNTIL then st.(lockedUntil := n)
      else st
  }

  function ApplyLines(st: State, lines: seq<string>): State
    decreases |lines|
  {
    if lines == [] then st else ApplyLines(ApplyLine(st, lines[0]), lines[1..])
  }

  function Parse(data: string): State {
    ApplyLines(FRESH, Lines(data))
  }

  predicate InRange(st: State) {
    IsInt64(st.failCount) && IsInt64(st.lockedUntil)
  }

  lemma {:induction false} ApplyLinesInRange(st: State, lines: seq<string>)
    requires InRange(st)
    ensures InRange(ApplyLines(st, lines))
    decreases |lines|
  {
    if lines == [] {
    } else {
      ApplyLinesInRange(ApplyLine(st, lines[0]), lines[1..]);
    }
  }

  // ----- Reading back what was written, or a part of it -----

  lemma TrimNothing(s: string)
    requires s == "" || (!IsSpace(s[0]) && !IsSpace(s[|s| - 1]))
    ensures TrimSpace(s) == s
  {
  }

  predicate IsKey(key: string) {
    key == FAIL_COUNT || key == LOCKED_UNTIL
  }

  lemma KeyFacts(key: string)
    requires IsKey(key)
    ensures key != "" && '=' !in key && '\n' !in key && TrimSpace(key) == key
  {
    TrimNothing(key);
  }

  lemma KeysDiffer()
    ensures FAIL_COUNT != LOCKED_UNTIL
  {
    assert FAIL_COUNT[0] != LOCKED_UNTIL[0];
  }

  predicate IsNumeral(v: string) {
    forall i :: 0 <= i < |v| ==> IsDigit(v[i]) || v[i] == '-'
  }

  lemma NumeralFacts(v: string)
    requires IsNumeral(v)
    ensures '\n' !in v && TrimSpace(v) == v
  {
    TrimNothing(v);
  }

  lemma PrintedIsNumeral(n: int)
    ensures IsNumeral(PrintInt(n))
  {
    var digits := Digits(if n < 0 then -n else n);
    assert forall i :: 0 <= i < |digits| ==> IsDigit(digits[i]);
  }

  function SetField(st: State, key: string, n: int): State {
    if key == FAIL_COUNT then st.(failCount := n) else st.(lockedUntil := n)
  }

  /** A written line, or the beginning of one: without its '=' it is skipped. */
  lemma LineOf(st: State, key: string, v: string)
    requires IsKey(key) && IsNumeral(v)
    ensures '\n' !in key + "=" + v
    ensures ApplyLine(st, key + "=" + v) == SetField(st, key, ParseInt(v))
  {
    KeyFacts(key);
    NumeralFacts(v);
    CutAt(key, v);
  }

  lemma CutLine(st: State, key: string, v: string, k: nat)
    requires IsKey(key) && IsNumeral(v) && k <= |key| + 1 + |v|
    ensures '\n' !in (key + "=" + v)[..k]
    ensures ApplyLine(st, (key + "=" + v)[..k]) ==
            if k <= |key| then st else SetField(st, key, ParseInt(v[..k - |key| - 1]))
  {
    var line := key + "=" + v;
    LineOf(st, key, v);
    if k <= |key| {
      KeyFacts(key);
      assert line[..k] == key[..k];
      CutAt(key[..k], "");
    } else {
      var front := v[..k - |key| - 1];
      assert line[..k] == key + "=" + front;
      LineOf(st, key, front);
    }
  }

  lemma ApplyFew(st: State, a: string, b: string)
    ensures ApplyLines(st, [a]) == ApplyLine(st, a)
    ensures ApplyLines(st, [a] + [b]) == ApplyLine(ApplyLine(st, a), b)
    ensures ApplyLines(st, [a] + ([b] + [""])) == ApplyLine(ApplyLine(st, a), b)
  {
    var st1 := ApplyLine(st, a);
    var st2 := ApplyLine(st1, b);
    assert [a][1..] == [] && [b][1..] == [] && [""][1..] == [];
    assert ([a] + [b])[1..] == [b] && ([b] + [""])[1..] == [""] && ([a] + ([b] + [""]))[1..] == [b] + [""];
    assert Cut("") == None;
    assert ApplyLines(st1, [b]) == ApplyLines(st2, []);
    assert ApplyLines(st1, [b] + [""]) == ApplyLines(st2, [""]) == ApplyLines(st2, []);
  }

  /** Reading a whole file gives the state that was written, for every pair of 64-bit numbers. */
  lemma RoundTrip(st: State)
    requires InRange(st)
    ensures Parse(Print(st)) == st
  {
    var a := FAIL_COUNT + "=" + PrintInt(st.failCount);
    var b := LOCKED_UNTIL + "=" + PrintInt(st.lockedUntil);
    PrintedIsNumeral(st.failCount);
    PrintedIsNumeral(st.lockedUntil);
    LineOf(FRESH, FAIL_COUNT, PrintInt(st.failCount));
    LineOf(SetField(FRESH, FAIL_COUNT, st.failCount), LOCKED_UNTIL, PrintInt(st.lockedUntil));
    IntRoundTrip(st.failCount);
    IntRoundTrip(st.lockedUntil);
    KeysDiffer();
    LinesOf(a, b + "\n" + "");
    LinesOf(b, "");
    ApplyFew(FRESH, a, b);
  }

  /** The lines of the first k characters of a written file. */
  lemma TornLines(a: string, b: string, k: nat)
    requires '\n' !in a && '\n' !in b && k <= |a| + |b| + 2
    ensures var data := a + "\n" + (b + "\n" + "");
            Lines(data[..k]) == (if k <= |a| then [a[..k]]
                                 else if k < |a| + |b| + 2 then [a] + [b[..k - |a| - 1]]
                                 else [a] + ([b] + [""]))
  {
    var data := a + "\n" + (b + "\n" + "");
    if k <= |a| {
      assert data[..k] == a[..k];
      LinesOf(a[..k], "");
    } else if k < |a| + |b| + 2 {
      var front := b[..k - |a| - 1];
      assert data[..k] == a + "\n" + front;
      LinesOf(a, front);
      LinesOf(front, "");
    } else {
      assert data[..k] == data;
      LinesOf(a, b + "\n" + "");
      LinesOf(b, "");
    }
  }

  /** What a reader sees that comes in the middle of the first line, or of the second. */
  lemma TornParse(st: State, k: nat)
    requires InRange(st) && k < |Print(st)|
    ensures var v, w := PrintInt(st.failCount), PrintInt(st.lockedUntil);
            var first := |FAIL_COUNT| + 1 + |v|;
            Parse(Print(st)[..k]) ==
            if k <= |FAIL_COUNT| then FRESH
            else if k <= first then State(ParseInt(v[..k - |FAIL_COUNT| - 1]), 0)
            else if k - first - 1 <= |LOCKED_UNTIL| then State(st.failCount, 0)
            else State(st.failCount, ParseInt((w + "\n")[..k - first - 1 - |LOCKED_UNTIL| - 1]))
  {
    var v, w := PrintInt(st.failCount), PrintInt(st.lockedUntil);
    var a, b := FAIL_COUNT + "=" + v, LOCKED_UNTIL + "=" + w;
    PrintedIsNumeral(st.failCount);
    PrintedIsNumeral(st.lockedUntil);
    LineOf(FRESH, FAIL_COUNT, v);
    LineOf(FRESH, LOCKED_UNTIL, w);
    TornLines(a, b, k);
    if k <= |a| {
      CutLine(FRESH, FAIL_COUNT, v, k);
      ApplyFew(FRESH, a[..k], "");
    } else {
      var j := k - |a| - 1;
      IntRoundTrip(st.failCount);
      CutLine(SetField(FRESH, FAIL_COUNT, st.failCount), LOCKED_UNTIL, w, j);
      ApplyFew(FRESH, a, b[..j]);
      KeysDiffer();
      if j > |LOCKED_UNTIL| {
        assert w[..j - |LOCKED_UNTIL| - 1] == (w + "\n")[..j - |LOCKED_UNTIL| - 1];
      }
    }
  }

  /** A torn read: for a state without negative numbers, what any prefix of the file reads as is
      never larger than what was written, in either field. */
  lemma TornRead(st: State, k: nat)
    requires InRange(st) && st.failCount >= 0 && st.lockedUntil >= 0
    requires k <= |Print(st)|
    ensures 0 <= Parse(Print(st)[..k]).failCount <= st.failCount
    ensures 0 <= Parse(Print(st)[..k]).lockedUntil <= st.lockedUntil
  {
    if k == |Print(st)| {
      assert Print(st)[..k] == Print(st);
      RoundTrip(st);
    } else {
      TornParse(st, k);
      var v, w := PrintInt(st.failCount), PrintInt(st.lockedUntil);
      var first := |FAIL_COUNT| + 1 + |v|;
      if |FAIL_COUNT| < k <= first {
        PrefixIsNotLarger(st.failCount, k - |FAIL_COUNT| - 1);
      } else if k > first + 1 + |LOCKED_UNTIL| {
        var j := k - first - 1 - |LOCKED_UNTIL| - 1;
        assert (w + "\n")[..j] == w[..j];
        PrefixIsNotLarger(st.lockedUntil, j);
      }
    }
  }

  /** Only negative numbers can read too large; the empty prefix shows it. */
  lemma TornReadIsHarmlessIff(st: State)
    requires InRange(st)
    ensures (forall k: nat :: k <= |Print(st)| ==>
               Parse(Print(st)[..k]).failCount <= st.failCount && Parse(Print(st)[..k]).lockedUntil <= st.lockedUntil)
            <==> st.failCount >= 0 && st.lockedUntil >= 0
  {
    if st.failCount >= 0 && st.lockedUntil >= 0 {
      forall k: nat | k <= |Print(st)|
        ensures Parse(Print(st)[..k]).failCount <= st.failCount && Parse(Print(st)[..k]).lockedUntil <= st.lockedUntil
      {
        TornRead(st, k);
      }
    } else {
      assert Print(st)[..0] == "";
      assert Lines("") == [""] && [""][1..] == [] && Cut("") == None;
      assert Parse("") == FRESH;
    }
  }

  /** So a check that reads a torn file never refuses whom the whole file would admit, and never
      reports a longer wait. */
  lemma TornCheckRefusesLess(st: State, k: nat, now: nat)
    requires InRange(st) && st.failCount >= 0 && st.lockedUntil >= 0
    requires k <= |Print(st)| && IsLocked(Parse(Print(st)[..k]), now)
    ensures IsLocked(st, now)
    ensures Parse(Print(st)[..k]).lockedUntil - now <= st.lockedUntil - now
  {
    TornRead(st, k);
  }

  // ----- Files in another layout -----

  /** What is written: two lines, each with its name. */
  lemma WrittenLines(st: State)
    ensures Print(st) == "fail_count=" + PrintInt(st.failCount) + "\n"
                         + ("locked_until=" + PrintInt(st.lockedUntil) + "\n")
  {
    assert "fail_count" + "=" == "fail_count=" && "locked_until" + "=" == "locked_until=";
    assert "\n" + "" == "\n";
  }

  /** White space around a name or a number does not matter. */
  lemma PaddedLine(st: State, a: string, key: string, b: string, c: string, v: string, d: string)
    requires IsKey(key) && AllWhite(a) && AllWhite(b) && AllWhite(c) && AllWhite(d)
    requires v != "" ==> !IsWhite(v[0]) && !IsWhite(v[|v| - 1])
    ensures ApplyLine(st, a + key + b + "=" + (c + v + d)) == SetField(st, key, ParseInt(v))
  {
    KeyFacts(key);
    KeyIsUnbroken(key);
    TrimSpaceTakesOff(a, key, b);
    TrimSpaceTakesOff(c, v, d);
    assert '=' !in a && '=' !in b;
    CutAt(a + key + b, c + v + d);
  }

  lemma KeyIsUnbroken(key: string)
    requires IsKey(key)
    ensures !IsWhite(key[0]) && !IsWhite(key[|key| - 1])
  {
  }

  /** A line without '=', or with another name, sets nothing. */
  lemma OtherLine(st: State, name: string, value: string)
    requires '=' !in name && !IsKey(TrimSpace(name))
    ensures ApplyLine(st, name) == st && ApplyLine(st, name + "=" + value) == st
  {
    CutAt(name, value);
  }

  // ----- The file -----
  // ----- The file -----

  const NANOSECONDS: int := 1_000_000_000

  /** What one session has done to the file: looked at it, counted a failure, cleared it. */
  datatype Operation = Looked(seen: State, now: nat) | Counted(seen: State, now: nat) | Cleared

  /** The file of one IP, as one session handles it. In a directory where nothing can be written or
      removed, errors are ignored and the file stays as it is. */
  class LockoutFile {
    const writable: bool
    var data: Option<string>
    ghost var operations: seq<Operation>

    constructor (writable: bool)
      ensures this.writable == writable && data == None && operations == []
    {
      this.writable := writable;
      data := None;
      operations := [];
    }

    /** Other sessions may do anything to the file at any time. */
    method Interfere()
      modifies this`data
    {
      data := *;
    }

    function Contents(): State
      reads this
    {
      if data == None then FRESH else Parse(data.value)
    }

    /** The reading loop: lines are applied one after the other. */
    method ReadState() returns (st: State)
      ensures st == Contents() && InRange(st)
    {
      st := FRESH;
      if data == None {
        return;
      }
      var lines := Lines(data.value);
      var i := 0;
      assert lines[0..] == lines;
      while i < |lines|
        invariant 0 <= i <= |lines| && InRange(st)
        invariant ApplyLines(st, lines[i..]) == Parse(data.value)
      {
        assert lines[i..][1..] == lines[i + 1..];
        st := ApplyLine(st, lines[i]);
        i := i + 1;
      }
    }

    /** Whether the IP is locked out, and for how many nanoseconds more; a stale file is removed. */
    method Check(now: nat) returns (locked: bool, retryAfter: int)
      modifies this
      ensures operations == old(operations) + [Looked(old(Contents()), now)]
      ensures locked <==> IsLocked(old(Contents()), now)
      ensures locked ==> retryAfter == WrapInt64((old(Contents()).lockedUntil - now) * NANOSECONDS)
      ensures !locked ==> retryAfter == 0
      ensures data == if writable && !locked && IsStale(old(Contents()), now) then None else old(data)
    {
      var st := ReadState();
      operations := operations + [Looked(st, now)];
      if st.lockedUntil > now {
        return true, WrapInt64((st.lockedUntil - now) * NANOSECONDS);
      }
      if st.lockedUntil > 0 && now - st.lockedUntil > STALE_SECONDS {
        Remove();
      }
      return false, 0;
    }

    /** Counts one failed attempt; the third sets the lock and starts the count again. */
    method RecordFailure(now: nat)
      requires now + LOCK_SECONDS <= MAX_INT64
      modifies this
      ensures operations == old(operations) + [Counted(old(Contents()), now)]
      ensures writable ==> data.Some? && Contents() == AfterFailure(old(Contents()), now)
      ensures !writable ==> data == old(data)
    {
      var st := ReadState();
      operations := operations + [Counted(st, now)];
      st := st.(failCount := WrapInt64(st.failCount + 1));
      if st.failCount >= MAX_ATTEMPTS {
        st := State(0, now + LOCK_SECONDS);
      }
      RoundTrip(st);
      if writable {
        data := Some(Print(st));
      }
    }

    /** After a login nothing is left of earlier failures. */
    method Reset()
      modifies this
      ensures operations == old(operations) + [Cleared]
      ensures data == if writable then None else old(data)
    {
      operations := operations + [Cleared];
      Remove();
    }

    method Remove()
      modifies this`data
      ensures data == if writable then None else old(data)
    {
      if writable {
        data := None;
      }
    }
  }

  /** The wait reported for a lock of at most 15 seconds does not overflow. */
  lemma WaitIsExact(st: State, now: nat)
    requires IsLocked(st, now) && st.lockedUntil <= now + LOCK_SECONDS
    ensures WrapInt64((st.lockedUntil - now) * NANOSECONDS) == (st.lockedUntil - now) * NANOSECONDS
  {
  }
}
