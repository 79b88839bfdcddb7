/** The output buffer that prompts are looked for in, its reader and its polling loop
    (expect.go: ptyOut, pumpPTY, await). Other goroutines act between any two steps; `*` stands
    for whatever they do. */
module PtyOutput {
  import opened Prelude
  import opened Escapes
  import opened Normal

  const MAX_BUFFER: nat := 256 * 1024
  const KEPT_TAIL: nat := 64 * 1024

  /** What the buffer owes to everything that was ever appended. */
  predicate IsRetained(buf: string, total: string) {
    && |buf| <= |total| && buf == total[|total| - |buf|..]
    && |buf| <= MAX_BUFFER
    && (|buf| >= |total| || |buf| >= KEPT_TAIL)
    && (|total| <= MAX_BUFFER ==> buf == total)
  }

  class PtyOut {
    var buf: string
    ghost var total: string

    ghost predicate Valid()
      reads this
    {
      IsRetained(buf, total)
    }

    constructor ()
      ensures Valid() && buf == "" && total == ""
    {
      buf, total := "", "";
    }

    /** Bounds the memory by keeping the tail. */
    method Append(p: string)
      requires Valid()
      modifies this
      ensures Valid() && total == old(total) + p
      ensures |old(buf)| + |p| <= 262144 ==> buf == old(buf) + p
      ensures |old(buf)| + |p| > 262144 ==> |buf| == 65536 && buf == (old(buf) + p)[|old(buf) + p| - 65536..]
    {
      buf := buf + p;
      total := total + p;
      assert buf == total[|total| - |buf|..];
      if |buf| > MAX_BUFFER {
        buf := buf[|buf| - KEPT_TAIL..];
        assert buf == total[|total| - |buf|..];
      }
    }
  }

  lemma EmptyIsNeverFound(output: string, needle: string)
    requires Has(output, needle)
    ensures needle != ""
  {
  }

  /** What a reader that stops at the first error takes in, counting the data of that read. */
  function Delivered(chunks: seq<Chunk<char>>): string {
    if chunks == [] then ""
    else chunks[0].data + (if chunks[0].failed then "" else Delivered(chunks[1..]))
  }

  lemma DeliveredStep(chunks: seq<Chunk<char>>, i: nat, before: string)
    requires i < |chunks|
    ensures before + Delivered(chunks[i..])
         == before + chunks[i].data + (if chunks[i].failed then "" else Delivered(chunks[i + 1..]))
  {
    assert chunks[i..][1..] == chunks[i + 1..];
  }

  method Take(out: PtyOut, data: string)
    requires out.Valid()
    modifies out
    ensures out.Valid() && out.total == old(out.total) + data
  {
    if |data| > 0 {
      out.Append(data);
    }
  }

  /** The reader: everything the terminal delivers up to its first error reaches the buffer, in
      order and nothing else. */
  method PumpPty(out: PtyOut, chunks: seq<Chunk<char>>)
    requires out.Valid()
    modifies out
    ensures out.Valid() && out.total == old(out.total) + Delivered(chunks)
  {
    var i := 0;
    assert chunks[0..] == chunks;
    while i < |chunks|
      invariant 0 <= i <= |chunks|
      invariant out.Valid()
      invariant out.total + Delivered(chunks[i..]) == old(out.total) + Delivered(chunks)
    {
      var read := chunks[i];
      DeliveredStep(chunks, i, out.total);
      Take(out, read.data);
      if read.failed {
        return;
      }
      i := i + 1;
    }
  }

  // ----- Looking while output arrives -----

  datatype AwaitResult = Found | Ended | TimedOut

  /** One round of polling: a look, and then a choice among what is ready by then. With both the end
      and the deadline ready either may be taken. None means that neither is. */
  function Round(needle: string, seen: string, now: string, ended: bool, expired: bool, endFirst: bool): Option<AwaitResult> {
    if Has(seen, needle) then Some(Found)
    else if ended && (!expired || endFirst) then Some(if Has(now, needle) then Found else Ended)
    else if expired then Some(TimedOut)
    else None
  }

  /** A round can time out on a needle that is there exactly when the deadline has passed and the
      needle came after the look. */
  lemma RoundMissesIff(needle: string, seen: string, now: string, ended: bool, expired: bool)
    ensures (exists endFirst :: Round(needle, seen, now, ended, expired, endFirst) == Some(TimedOut) && Has(now, needle))
       <==> expired && !Has(seen, needle) && Has(now, needle)
  {
    if expired && !Has(seen, needle) && Has(now, needle) {
      assert Round(needle, seen, now, ended, expired, false) == Some(TimedOut);
    }
  }

  /** No needle was there when it was looked for. */
  predicate AllAbsent(looks: seq<string>, needles: seq<string>) {
    |looks| == |needles| && forall k :: 0 <= k < |looks| ==> !Has(looks[k], needles[k])
  }

  /** Each output extends the ones before it. */
  predicate IsChain(outputs: seq<string>) {
    forall i, j :: 0 <= i <= j < |outputs| ==> outputs[i] <= outputs[j]
  }

  predicate NoneShown(output: string, needles: seq<string>) {
    forall n :: n in needles ==> !Has(output, n)
  }

  lemma StillAbsent(start: string, look: string, needle: string)
    requires start <= look && !EndsOpen(start) && !Has(look, needle)
    ensures !Has(start, needle)
  {
    assert start + look[|start|..] == look;
    if Has(start, needle) {
      FoundStaysFound(start, look[|start|..], needle);
    }
  }

  lemma ChainStart(start: string, looks: seq<string>, k: nat)
    requires IsChain([start] + looks) && k < |looks|
    ensures start <= looks[k]
  {
    assert ([start] + looks)[0] <= ([start] + looks)[k + 1];
  }

  lemma NoneShownAt(output: string, needles: seq<string>)
    requires forall k :: 0 <= k < |needles| ==> !Has(output, needles[k])
    ensures NoneShown(output, needles)
  {
  }

  /** If none of the needles is seen in later and later output, none was there at the start, as long
      as no escape is open there. */
  lemma StartWasClean(start: string, looks: seq<string>, needles: seq<string>)
    requires IsChain([start] + looks) && AllAbsent(looks, needles) && !EndsOpen(start)
    ensures NoneShown(start, needles)
  {
    forall k | 0 <= k < |needles| ensures !Has(start, needles[k]) {
      ChainStart(start, looks, k);
      StillAbsent(start, looks[k], needles[k]);
    }
    NoneShownAt(start, needles);
  }

  /** And exactly then: with an escape open at the start some needle that is there can be missed. */
  lemma StartWasCleanIff(start: string)
    ensures (forall looks, needles :: IsChain([start] + looks) && AllAbsent(looks, needles) ==> NoneShown(start, needles))
       <==> !EndsOpen(start)
  {
    if EndsOpen(start) {
      var t := LosesItself(start);
      var looks, needles := [start + t], [start];
      assert IsChain([start] + looks) && AllAbsent(looks, needles);
      assert start in needles && !NoneShown(start, needles);
    } else {
      forall looks, needles | IsChain([start] + looks) && AllAbsent(looks, needles) ensures NoneShown(start, needles) {
        StartWasClean(start, looks, needles);
      }
    }
  }

  /** Nor need any single output have been free of needles: two looks can miss a needle each. */
  lemma LooksCanBothMiss()
    ensures var open := [ESC, ']', 'b'];
            var closed := open + [BEL, 'a'];
            && IsChain([open, closed]) && AllAbsent([open, closed], ["a", "b"])
            && Has(open, "b") && Has(closed, "a")
  {
    var open := [ESC, ']', 'b'];
    var closed := open + [BEL, 'a'];
    NormOfOpen();
    NormOfClosed();
    ShowsLetter(open, 'a');
    ShowsLetter(open, 'b');
    ShowsLetter(closed, 'a');
    ShowsLetter(closed, 'b');
  }

  lemma ShowsLetter(output: string, c: char)
    requires 'a' <= c <= 'z'
    ensures Has(output, [c]) <==> c in Norm(output)
  {
    NormOfSmall(c);
    var hay := Norm(output);
    if i :| 0 <= i < |hay| && hay[i] == c {
      assert OccursAt(hay, [c], i);
    }
    if i :| 0 <= i <= |hay| && OccursAt(hay, [c], i) {
      assert hay[i..i + 1][0] == c;
    }
  }

  lemma NormOfSmall(c: char)
    requires 'a' <= c <= 'z'
    ensures Norm([c]) == [c]
  {
    StripPlain([c]);
    assert Lower([c]) == [c];
    CollapseOfWord([c]);
  }

  lemma NormOfOpen()
    ensures Norm([ESC, ']', 'b']) == [ESC, ']', 'b']
  {
    var s := [ESC, ']', 'b'];
    assert s[2..] == ['b'];
    SpanIs(s, 2, IsStringChar, 3);
    StripPlain(s[1..]);
    assert Strip(s) == s && Lower(s) == s;
    CollapseOfWord(s);
  }

  lemma NormOfClosed()
    ensures Norm([ESC, ']', 'b'] + [BEL, 'a']) == "a"
  {
    var escape := [ESC, ']', 'b', BEL];
    assert escape[2..3] == ['b'];
    assert [ESC, ']', 'b'] + [BEL, 'a'] == escape + "a";
    StripEscapePrefix(escape, "a");
    StripPlain("a");
    NormOfSmall('a');
  }

  /** The terminal at one moment, as far as a wait is concerned. */
  datatype Moment = Moment(output: string, ended: bool, expired: bool, inTime: bool)

  /** A program under a terminal: its buffered output, and whether the reader has ended. */
  class Terminal {
    const out: PtyOut
    var readerDone: bool

    /** The deadline of the current wait has passed. */
    var expired: bool

    /** The reader ended before that deadline. */
    ghost var endedInTime: bool

    /** It did, but both fell between one look and the choice after it. */
    ghost var tie: bool

    /** The output when the last sleep ended, and whether a pause has followed. */
    ghost var woke: string
    ghost var paused: bool

    constructor (out: PtyOut)
      ensures this.out == out && !readerDone
    {
      this.out, readerDone, expired := out, false, false;
      endedInTime, tie := false, false;
      woke, paused := "", false;
    }

    ghost function Now(): Moment
      reads this, out
    {
      Moment(out.buf, readerDone, expired, endedInTime && !tie)
    }

    /** A new deadline. */
    method StartTimer()
      modifies this`expired, this`endedInTime, this`tie
      ensures !expired && !tie && endedInTime == readerDone
    {
      expired, tie, endedInTime := false, false, readerDone;
    }

    /** Anything the reader can do meanwhile: any number of reads, and then perhaps its end. */
    method Interfere()
      requires out.Valid()
      modifies this`readerDone, this`endedInTime, out
      ensures out.Valid() && old(out.total) <= out.total
      ensures old(readerDone) ==> readerDone && out.buf == old(out.buf) && out.total == old(out.total)
      ensures endedInTime == (old(endedInTime) || (!old(readerDone) && readerDone && !expired))
    {
      if readerDone {
        return;
      }
      var rounds: nat := *;
      while rounds > 0
        invariant out.Valid() && old(out.total) <= out.total
        invariant !readerDone && endedInTime == old(endedInTime)
      {
        var p: string := *;
        out.Append(p[..if |p| <= READ_SIZE then |p| else READ_SIZE]);
        rounds := rounds - 1;
      }
      readerDone := *;
      endedInTime := endedInTime || (readerDone && !expired);
    }

    /** Time passes, and perhaps the deadline; at the latest when `last` says so. */
    method Pass(last: bool)
      requires out.Valid()
      modifies this`readerDone, this`expired, this`endedInTime, this`woke, this`paused, out
      ensures out.Valid() && old(out.total) <= out.total
      ensures woke == out.buf && !paused
      ensures old(readerDone) ==> readerDone && out.buf == old(out.buf) && out.total == old(out.total)
      ensures last || old(expired) ==> expired
      ensures !old(readerDone) && readerDone && !expired ==> endedInTime
      ensures old(endedInTime) ==> endedInTime
      ensures old(readerDone) || old(expired) || !readerDone ==> endedInTime == old(endedInTime)
    {
      Interfere();
      var late: bool := *;
      expired := expired || late || last;
      Interfere();
      woke, paused := out.buf, false;
    }

    /** Time passes between a look and the choice after it. */
    method Pause()
      requires out.Valid() && !paused
      modifies this, out
      ensures woke == old(woke) && paused
      ensures out.Valid() && old(out.total) <= out.total
      ensures old(readerDone) ==> readerDone && out.buf == old(out.buf) && out.total == old(out.total)
      ensures old(expired) ==> expired
      ensures !old(readerDone) && readerDone && !expired ==> endedInTime
      ensures old(endedInTime) ==> endedInTime
      ensures old(readerDone) || old(expired) || !readerDone ==> endedInTime == old(endedInTime)
      ensures tie == (old(tie) || (!old(readerDone) && !old(expired) && readerDone && expired && endedInTime))
    {
      ghost var was, late, seen := readerDone, expired, woke;
      Pass(false);
      woke, paused := seen, true;
      tie := tie || (!was && !late && readerDone && expired && endedInTime);
    }

    /** Polls until the needle appears, the reader ends or the time is up; there are at most `polls`
        sleeps before the deadline, and a look after each. If the reader ended before the deadline, no needle is missed,
        whatever was printed and whenever it ended, unless its end and the deadline fell into the
        one gap between a look and the choice after it. */
    method Await(needle: string, polls: nat) returns (r: AwaitResult, ghost seen: string, ghost endFirst: bool)
      requires out.Valid()
      modifies this, out
      ensures out.Valid() && old(out.total) <= out.total
      ensures Round(needle, seen, out.buf, readerDone, expired, endFirst) == Some(r) && seen == woke
      ensures r == Found ==> Has(out.buf, needle)
      ensures |out.total| <= MAX_BUFFER ==> old(out.buf) <= seen <= out.buf
      ensures |out.total| <= MAX_BUFFER && Has(old(out.buf), needle) && !EndsOpen(old(out.buf)) ==> r == Found
      ensures Now().inTime ==> readerDone && (r == Found <==> Has(out.buf, needle))
      ensures Now().inTime && !expired ==> r == (if Has(out.buf, needle) then Found else Ended)
      ensures old(readerDone) ==> Now().inTime && out.buf == old(out.buf)
    {
      StartTimer();
      Pass(false);
      endFirst := false;
      var left := polls;
      while true
        invariant out.Valid() && old(out.total) <= out.total && !tie
        invariant woke == out.buf && !paused
        invariant old(readerDone) ==> endedInTime && readerDone && out.buf == old(out.buf)
        invariant endedInTime ==> readerDone
        invariant readerDone && !expired ==> endedInTime
        decreases if expired then 0 else left + 1
      {
        seen := out.buf;
        assert |out.total| <= MAX_BUFFER && !Has(seen, needle) ==> old(out.buf) <= seen;
        if !Has(seen, needle) && old(out.buf) <= seen && !EndsOpen(old(out.buf)) {
          StillAbsent(old(out.buf), seen, needle);
        }
        if Has(out.buf, needle) {
          return Found, seen, endFirst;
        }
        Pause();
        var first: bool := *;
        endFirst := first;
        if readerDone && (!expired || first) {
          if Has(out.buf, needle) {
            return Found, seen, endFirst;
          }
          return Ended, seen, endFirst;
        }
        if expired {
          return TimedOut, seen, endFirst;
        }
        Pass(left == 0);
        left := if left == 0 then 0 else left - 1;
      }
    }

    /** Looks for one needle after the other; each look sees what has been printed by then. The
        result is the first needle that is found at its look, or "" when none is. */
    method HasAny(needles: seq<string>) returns (fragment: string, looks: seq<string>)
      requires out.Valid()
      modifies this`readerDone, this`endedInTime, out
      ensures out.Valid() && old(out.total) <= out.total
      ensures IsGrowth(old(out.buf), looks, out.buf, out.total)
      ensures fragment == "" ==> AllAbsent(looks, needles)
      ensures fragment != "" ==>
                && 0 < |looks| <= |needles| && AllAbsent(looks[..|looks| - 1], needles[..|looks| - 1])
                && fragment == needles[|looks| - 1] && looks[|looks| - 1] == out.buf && Has(out.buf, fragment)
    {
      looks := [];
      var i := 0;
      while i < |needles|
        invariant i == |looks| <= |needles| && AllAbsent(looks, needles[..i])
        invariant out.Valid() && old(out.total) <= out.total
        invariant IsGrowth(old(out.buf), looks, out.buf, out.total)
      {
        ghost var shown, total := out.buf, out.total;
        Interfere();
        LookSnoc(old(out.buf), looks, shown, total, out.buf, out.total, needles);
        looks := looks + [out.buf];
        if Has(out.buf, needles[i]) {
          return needles[i], looks;
        }
        i := i + 1;
      }
      assert needles[..i] == needles;
      return "", looks;
    }
  }

  lemma ChainAppend(a: seq<string>, x: string, b: seq<string>, y: string)
    requires IsChain(a + [x]) && IsChain([x] + b + [y])
    ensures IsChain(a + b + [y])
  {
    var all, left, right := a + b + [y], a + [x], [x] + b + [y];
    var n := |a|;
    forall i, j | 0 <= i <= j < |all| ensures all[i] <= all[j] {
      assert i < n ==> all[i] == left[i] && left[i] <= left[n];
      assert i >= n ==> all[i] == right[i - n + 1];
      assert j >= n ==> all[j] == right[j - n + 1] && right[0] <= right[j - n + 1];
      if j < n {
        assert left[i] <= left[j];
      } else if i >= n {
        assert right[i - n + 1] <= right[j - n + 1];
      }
    }
  }

  lemma PartOfChain(a: seq<string>, b: seq<string>, c: seq<string>)
    requires IsChain(a + b + c)
    ensures IsChain(a + c) && IsChain(b + c)
  {
    var all := a + b + c;
    forall i, j | 0 <= i <= j < |a + c| ensures (a + c)[i] <= (a + c)[j] {
      assert all[if i < |a| then i else i + |b|] <= all[if j < |a| then j else j + |b|];
    }
    forall i, j | 0 <= i <= j < |b + c| ensures (b + c)[i] <= (b + c)[j] {
      assert all[i + |a|] <= all[j + |a|];
    }
  }

  lemma ChainRepeats(x: string, outputs: seq<string>, y: string)
    requires IsChain([x] + outputs + [y])
    ensures IsChain([x] + ([x] + outputs) + [y])
  {
    var once, twice := [x] + outputs + [y], [x] + ([x] + outputs) + [y];
    forall i, j | 0 <= i <= j < |twice| ensures twice[i] <= twice[j] {
      var k, l := if i == 0 then 0 else i - 1, if j == 0 then 0 else j - 1;
      assert twice[i] == once[k] && twice[j] == once[l] && once[k] <= once[l];
    }
  }

  lemma AbsentSnoc(looks: seq<string>, needles: seq<string>, look: string)
    requires |looks| < |needles| && AllAbsent(looks, needles[..|looks|]) && !Has(look, needles[|looks|])
    ensures AllAbsent(looks + [look], needles[..|looks| + 1])
  {
  }

  /** Unless the buffer had to be cut, each look extends the ones before it. */
  predicate IsGrowth(start: string, looks: seq<string>, now: string, total: string) {
    |total| <= MAX_BUFFER ==> IsChain([start] + looks + [now])
  }

  lemma LookSnoc(start: string, looks: seq<string>, shown: string, total: string,
                 now: string, more: string, needles: seq<string>)
    requires IsRetained(shown, total) && IsRetained(now, more) && total <= more
    requires IsGrowth(start, looks, shown, total)
    requires |looks| < |needles| && AllAbsent(looks, needles[..|looks|])
    ensures IsGrowth(start, looks + [now], now, more)
    ensures (looks + [now])[..|looks|] == looks
    ensures Has(now, needles[|looks|]) ==> needles[|looks|] != ""
    ensures !Has(now, needles[|looks|]) ==> AllAbsent(looks + [now], needles[..|looks| + 1])
  {
    if |more| <= MAX_BUFFER {
      ChainLook(start, looks, shown, now);
    }
    if Has(now, needles[|looks|]) {
      EmptyIsNeverFound(now, needles[|looks|]);
    } else {
      AbsentSnoc(looks, needles, now);
    }
  }

  lemma ChainLook(start: string, looks: seq<string>, last: string, more: string)
    requires IsChain([start] + looks + [last]) && last <= more
    ensures IsChain([start] + (looks + [more]) + [more])
  {
    ChainGrows([start] + looks, last, more);
    Associate([start], looks, [more]);
  }

  lemma ChainGrows(outputs: seq<string>, last: string, more: string)
    requires IsChain(outputs + [last]) && last <= more
    ensures IsChain(outputs + [more] + [more])
  {
    var grown := outputs + [more] + [more];
    forall i, j | 0 <= i <= j < |grown| ensures grown[i] <= grown[j] {
      var n := |outputs|;
      assert i < n ==> (outputs + [last])[i] <= (outputs + [last])[n];
      assert j < n ==> (outputs + [last])[i] <= (outputs + [last])[j];
    }
  }
}
