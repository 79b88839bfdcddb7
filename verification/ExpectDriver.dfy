/** The driver of a scripted action (expect.go, runExpect): it answers the fixed prompts of a
    program under a terminal and reports one result. The program, its reader and the operating
    system act at any time; `*` stands for what they do. */
module ExpectDriver {
  import opened Prelude
  import opened Escapes
  import opened Normal
  import opened Text
  import opened PtyOutput
  import opened ExpectTable

  /** What a run did, in order. Outputs are the buffer at the moment of the entry; a clean check has
      the buffer when it began and at each of its looks, one for every fail marker. */
  datatype Entry =
    | Started(command: Command)
    | Matched(prompt: string, output: string)
    | Clean(start: string, looks: seq<string>)
    | Secret(bytes: string)
    | Exited(ok: bool)
    | Marked(output: string)
    | Posted
    | Verified(value: string)
    | Result(ok: bool, reason: Reason)

  /** Why a run was reported as failed. */
  datatype Reason =
    | NoFailure
    | UnknownAction
    | BadArguments
    | Privileged(user: string)
    | NoSecret
    | NotStarted
    | PromptTimedOut(prompt: string)
    | EndedBeforePrompt(prompt: string)
    | ShowsFailure(fragment: string)
    | WriteFailed
    | NoExit
    | BadStatus
    | MarkerMissing
    | PostFailed
    | NotVerified
    | WrongValue(value: string)

  function FindAction(table: seq<Action>, id: string): Option<Action> {
    if table == [] then None
    else if table[0].id == id then Some(table[0])
    else FindAction(table[1..], id)
  }

  /** The command that follows the interactive one, if any. */
  function PostCommand(action: Action, platform: Platform, args: seq<string>): Option<seq<string>> {
    if action.script.ZfsUnlock? && platform != Solaris && args != [] then Some(["zfs", "mount", args[0]]) else None
  }

  /** The property value that must be read back, if any. */
  function VerifiedValue(action: Action): Option<string> {
    if action.script.ZfsCreate? || action.script.ZfsUnlock? then Some("available") else None
  }

  /** The secret is the file's content without line ends at its end; an empty one is refused. */
  function TrimLineEnd(s: string): (t: string)
    ensures t <= s && (t != "" ==> t[|t| - 1] as int !in {10, 13})
    ensures forall i :: |t| <= i < |s| ==> s[i] as int in {10, 13}
  {
    if s != "" && (s[|s| - 1] == '\r' || s[|s| - 1] == '\n') then TrimLineEnd(s[..|s| - 1]) else s
  }

  // ----- What a log must satisfy -----

  function Writes(log: seq<Entry>): nat {
    if log == [] then 0 else Writes(log[..|log| - 1]) + (if log[|log| - 1].Secret? then 1 else 0)
  }

  /** The secret at position j answers the right prompt: as many prompts as secrets before it have
      been answered, the next one has just been found, and since then every fail marker has been
      looked for without being found. */
  predicate InPlace(prompts: seq<string>, markers: seq<string>, payload: string, log: seq<Entry>, j: nat)
    requires j < |log|
  {
    && log[j] == Secret(payload)
    && j >= 2
    && Writes(log[..j]) < |prompts|
    && log[j - 2].Matched? && log[j - 2].prompt == prompts[Writes(log[..j])]
    && Has(log[j - 2].output, log[j - 2].prompt)
    && log[j - 1].Clean? && log[j - 1].start == log[j - 2].output && AllAbsent(log[j - 1].looks, markers)
  }

  predicate Disciplined(prompts: seq<string>, markers: seq<string>, payload: string, log: seq<Entry>) {
    forall j :: 0 <= j < |log| && log[j].Secret? ==> InPlace(prompts, markers, payload, log, j)
  }

  predicate OneResultAtEnd(log: seq<Entry>) {
    && log != [] && log[|log| - 1].Result?
    && forall j :: 0 <= j < |log| - 1 ==> !log[j].Result?
  }

  /** Everything a reported success rests on. */
  predicate IsSuccess(action: Action, platform: Platform, args: seq<string>, command: Command, log: seq<Entry>) {
    var n := 1 + 3 * |command.prompts|;
    && Writes(log) == |command.prompts|
    && |log| >= n + (if action.noSuccessMarker then 2 else 3)
    && log[0] == Started(command)
    && log[n].Exited? && (action.noSuccessMarker ==> log[n].ok)
    && log[n + 1].Clean? && AllAbsent(log[n + 1].looks, action.failMarkers)
    && (!action.noSuccessMarker ==> log[n + 2].Marked? && Has(log[n + 2].output, action.successMarker))
    && (PostCommand(action, platform, args).Some? ==> Posted in log)
    && (VerifiedValue(action).Some? ==> Verified(VerifiedValue(action).value) in log)
  }

  function Outputs(e: Entry): seq<string> {
    match e
    case Matched(_, output) => [output]
    case Clean(start, looks) => [start] + looks
    case Marked(output) => [output]
    case _ => []
  }

  /** A failure of the driven part is reported only for a cause that is really there: `at` is the
      terminal at that moment, `log` what was done before. */
  predicate IsCause(reason: Reason, action: Action, platform: Platform, args: seq<string>, prompts: seq<string>,
                    log: seq<Entry>, at: Moment)
  {
    match reason
    case PromptTimedOut(p) =>
      Writes(log) < |prompts| && p == prompts[Writes(log)] && at.expired && (at.inTime ==> !Has(at.output, p))
    case EndedBeforePrompt(p) =>
      Writes(log) < |prompts| && p == prompts[Writes(log)] && at.ended && !Has(at.output, p)
    case ShowsFailure(f) => f in action.failMarkers && Has(at.output, f)
    case WriteFailed => log != [] && log[|log| - 1].Secret?
    case NoExit => Writes(log) == |prompts|
    case BadStatus => Writes(log) == |prompts| && action.noSuccessMarker && Exited(false) in log
    case MarkerMissing => Writes(log) == |prompts| && !action.noSuccessMarker && !Has(at.output, action.successMarker)
    case PostFailed => Writes(log) == |prompts| && PostCommand(action, platform, args).Some?
    case NotVerified => Writes(log) == |prompts| && VerifiedValue(action).Some?
    case WrongValue(got) =>
      Writes(log) == |prompts| && VerifiedValue(action).Some? && got != VerifiedValue(action).value
    case _ => false
  }

  function Shown(log: seq<Entry>): seq<string> {
    if log == [] then [] else Shown(log[..|log| - 1]) + Outputs(log[|log| - 1])
  }

  /** As long as the buffer never had to be cut, each recorded output extends the earlier ones. */
  predicate Growing(log: seq<Entry>, total: string) {
    |total| <= MAX_BUFFER ==> IsChain(Shown(log) + [total])
  }

  // ----- How a log grows -----

  lemma WritesSnoc(log: seq<Entry>, e: Entry)
    ensures Writes(log + [e]) == Writes(log) + (if e.Secret? then 1 else 0)
  {
    assert (log + [e])[..|log|] == log;
  }

  lemma DisciplinedSnoc(prompts: seq<string>, markers: seq<string>, payload: string, log: seq<Entry>, e: Entry)
    requires Disciplined(prompts, markers, payload, log)
    requires e.Secret? ==> InPlace(prompts, markers, payload, log + [e], |log|)
    ensures Disciplined(prompts, markers, payload, log + [e])
  {
    var more := log + [e];
    forall j | 0 <= j < |more| && more[j].Secret? ensures InPlace(prompts, markers, payload, more, j) {
      if j < |log| {
        assert InPlace(prompts, markers, payload, log, j);
        assert more[..j] == log[..j];
      }
    }
  }

  /** What holds of the log at every moment before the result is printed. */
  predicate IsSound(prompts: seq<string>, markers: seq<string>, payload: string, log: seq<Entry>, total: string) {
    && Disciplined(prompts, markers, payload, log)
    && Growing(log, total)
    && Writes(log) <= |prompts|
    && forall j :: 0 <= j < |log| ==> !log[j].Result? && (log[j].Started? ==> j == 0)
  }

  lemma GrowingSnoc(log: seq<Entry>, total: string, e: Entry, more: string)
    requires Growing(log, total) && total <= more
    requires |more| <= MAX_BUFFER ==> IsChain([total] + Outputs(e) + [more])
    ensures Growing(log + [e], more)
  {
    assert (log + [e])[..|log|] == log;
    if |more| <= MAX_BUFFER {
      ChainAppend(Shown(log), total, Outputs(e), more);
    }
  }

  lemma GrowingUnder(log: seq<Entry>, total: string, more: string)
    requires Growing(log, total) && total <= more
    ensures Growing(log, more)
  {
    if |more| <= MAX_BUFFER {
      assert [total] + [] + [more] == [total, more];
      ChainAppend(Shown(log), total, [], more);
      assert Shown(log) + [] == Shown(log);
    }
  }

  lemma LastEntryGrows(log: seq<Entry>, total: string)
    requires log != [] && IsChain(Shown(log) + [total])
    ensures IsChain(Shown(log[..|log| - 1]) + [total]) && IsChain(Outputs(log[|log| - 1]) + [total])
  {
    PartOfChain(Shown(log[..|log| - 1]), Outputs(log[|log| - 1]), [total]);
  }

  /** What one entry shows is a chain that ends in the whole output. */
  lemma {:induction false} EntryGrows(log: seq<Entry>, total: string, i: nat)
    requires IsChain(Shown(log) + [total]) && i < |log|
    ensures IsChain(Outputs(log[i]) + [total])
    decreases |log|
  {
    LastEntryGrows(log, total);
    if i == |log| - 1 {
    } else {
      EntryGrows(log[..|log| - 1], total, i);
    }
  }

  lemma SoundSnoc(prompts: seq<string>, markers: seq<string>, payload: string,
                  log: seq<Entry>, total: string, e: Entry, more: string)
    requires IsSound(prompts, markers, payload, log, total) && total <= more && !e.Result?
    requires e.Started? ==> log == []
    requires |more| <= MAX_BUFFER ==> IsChain([total] + Outputs(e) + [more])
    requires e.Secret? ==> InPlace(prompts, markers, payload, log + [e], |log|)
    ensures IsSound(prompts, markers, payload, log + [e], more)
    ensures Writes(log + [e]) == Writes(log) + (if e.Secret? then 1 else 0)
  {
    WritesSnoc(log, e);
    DisciplinedSnoc(prompts, markers, payload, log, e);
    GrowingSnoc(log, total, e, more);
    assert e.Secret? ==> (log + [e])[..|log|] == log;
  }

  /** An entry that shows no output and is no secret. */
  lemma SilentSnoc(prompts: seq<string>, markers: seq<string>, payload: string,
                   log: seq<Entry>, total: string, e: Entry)
    requires IsSound(prompts, markers, payload, log, total) 
    requires e.Exited? || e.Posted? || e.Verified? || (e.Started? && log == [])
    ensures IsSound(prompts, markers, payload, log + [e], total) && Writes(log + [e]) == Writes(log)
  {
    assert [total] + Outputs(e) + [total] == [total, total];
    SoundSnoc(prompts, markers, payload, log, total, e, total);
  }

  lemma FinishedLog(prompts: seq<string>, markers: seq<string>, payload: string,
                    log: seq<Entry>, total: string, last: Entry)
    requires IsSound(prompts, markers, payload, log, total) && last.Result?
    ensures Disciplined(prompts, markers, payload, log + [last])
    ensures Growing(log + [last], total)
    ensures OneResultAtEnd(log + [last]) && Writes(log + [last]) == Writes(log) <= |prompts|
    ensures forall j :: 0 < j < |log + [last]| ==> !(log + [last])[j].Started?
  {
    WritesSnoc(log, last);
    DisciplinedSnoc(prompts, markers, payload, log, last);
    assert [total] + Outputs(last) + [total] == [total, total];
    GrowingSnoc(log, total, last, total);
  }

  // ----- The driver -----

  lemma SoundUnder(prompts: seq<string>, markers: seq<string>, payload: string,
                   log: seq<Entry>, total: string, more: string)
    requires IsSound(prompts, markers, payload, log, total) && total <= more
    ensures IsSound(prompts, markers, payload, log, more)
  {
    GrowingUnder(log, total, more);
  }

  lemma CheckSnoc(prompts: seq<string>, markers: seq<string>, payload: string, log: seq<Entry>,
                  total: string, start: string, looks: seq<string>, more: string)
    requires IsSound(prompts, markers, payload, log, total) && total <= more
    requires |more| <= MAX_BUFFER ==> start == total && IsChain([start] + looks + [more])
    ensures IsSound(prompts, markers, payload, log + [Clean(start, looks)], more)
    ensures Writes(log + [Clean(start, looks)]) == Writes(log)
  {
    if |more| <= MAX_BUFFER {
      ChainRepeats(start, looks, more);
    }
    SoundSnoc(prompts, markers, payload, log, total, Clean(start, looks), more);
  }

  /** An entry with the whole output of its moment. */
  lemma ShownSnoc(prompts: seq<string>, markers: seq<string>, payload: string,
                  log: seq<Entry>, total: string, e: Entry, more: string)
    requires IsSound(prompts, markers, payload, log, total) && total <= more
    requires (e.Matched? || e.Marked?) && (|more| <= MAX_BUFFER ==> e.output == more)
    ensures IsSound(prompts, markers, payload, log + [e], more) && Writes(log + [e]) == Writes(log)
  {
    assert [total] + [more] + [more] == [total, more, more];
    SoundSnoc(prompts, markers, payload, log, total, e, more);
  }

  /** Looks for one fail marker after the other while output may still arrive. */
  method SeeClean(term: Terminal, prompts: seq<string>, markers: seq<string>, payload: string,
                  before: seq<Entry>) returns (fragment: string, looks: seq<string>, log: seq<Entry>)
    requires term.out.Valid() && IsSound(prompts, markers, payload, before, term.out.total)
    modifies term, term.out
    ensures term.out.Valid() && old(term.out.total) <= term.out.total
    ensures IsSound(prompts, markers, payload, log, term.out.total) && Writes(log) == Writes(before)
    ensures fragment != "" ==> log == before && fragment in markers && Has(term.out.buf, fragment)
    ensures fragment == "" ==> log == before + [Clean(old(term.out.buf), looks)] && AllAbsent(looks, markers)
  {
    ghost var total := term.out.total;
    var start := term.out.buf;
    fragment, looks := term.HasAny(markers);
    if fragment != "" {
      SoundUnder(prompts, markers, payload, before, total, term.out.total);
      return fragment, looks, before;
    }
    CheckSnoc(prompts, markers, payload, before, total, start, looks, term.out.total);
    return "", looks, before + [Clean(start, looks)];
  }

  method SeePrompt(term: Terminal, prompts: seq<string>, markers: seq<string>, payload: string,
                   before: seq<Entry>, prompt: string) returns (r: AwaitResult, log: seq<Entry>)
    requires term.out.Valid() && IsSound(prompts, markers, payload, before, term.out.total)
    modifies term, term.out
    ensures term.out.Valid() && old(term.out.total) <= term.out.total
    ensures IsSound(prompts, markers, payload, log, term.out.total) && Writes(log) == Writes(before)
    ensures r != Found ==> log == before
    ensures r == Ended ==> term.readerDone && !Has(term.out.buf, prompt)
    ensures r == TimedOut ==> term.expired && (term.Now().inTime ==> !Has(term.out.buf, prompt))
    ensures r == Found ==> log == before + [Matched(prompt, term.out.buf)] && Has(term.out.buf, prompt)
  {
    ghost var total := term.out.total;
    var polls: nat := *;
    ghost var seen, endFirst;
    r, seen, endFirst := term.Await(prompt, polls);
    if r != Found {
      SoundUnder(prompts, markers, payload, before, total, term.out.total);
      return r, before;
    }
    ShownSnoc(prompts, markers, payload, before, total, Matched(prompt, term.out.buf), term.out.total);
    return r, before + [Matched(prompt, term.out.buf)];
  }

  /** A secret right after its prompt and a clean check is in place. */
  lemma SecretSnoc(prompts: seq<string>, markers: seq<string>, payload: string,
                   log: seq<Entry>, shown: string, looks: seq<string>, total: string)
    requires Writes(log) < |prompts|
    requires IsSound(prompts, markers, payload, log + [Matched(prompts[Writes(log)], shown)] + [Clean(shown, looks)], total)
    requires Has(shown, prompts[Writes(log)]) && AllAbsent(looks, markers)
    ensures var more := log + [Matched(prompts[Writes(log)], shown)] + [Clean(shown, looks)] + [Secret(payload)];
            IsSound(prompts, markers, payload, more, total) && Writes(more) == Writes(log) + 1
  {
    var asked := log + [Matched(prompts[Writes(log)], shown)];
    var clean := asked + [Clean(shown, looks)];
    WritesSnoc(log, Matched(prompts[Writes(log)], shown));
    WritesSnoc(asked, Clean(shown, looks));
    assert (clean + [Secret(payload)])[..|clean|] == clean;
    assert InPlace(prompts, markers, payload, clean + [Secret(payload)], |clean|);
    assert [total] + [] + [total] == [total, total];
    SoundSnoc(prompts, markers, payload, clean, total, Secret(payload), total);
  }

  /** After the prompt was found: a clean check, then the secret. */
  method WriteSecret(term: Terminal, prompts: seq<string>, markers: seq<string>, payload: string,
                     ghost before: seq<Entry>, asked: seq<Entry>)
    returns (fragment: string, failed: bool, log: seq<Entry>)
    requires term.out.Valid() && Writes(before) < |prompts| && Has(term.out.buf, prompts[Writes(before)])
    requires asked == before + [Matched(prompts[Writes(before)], term.out.buf)]
    requires IsSound(prompts, markers, payload, asked, term.out.total)
    modifies term, term.out
    ensures term.out.Valid() && old(term.out.total) <= term.out.total
    ensures IsSound(prompts, markers, payload, log, term.out.total)
    ensures fragment != "" ==> log == asked && fragment in markers && Has(term.out.buf, fragment)
    ensures fragment == "" ==> Writes(log) == Writes(before) + 1 && |log| == |before| + 3
    ensures fragment == "" ==> log[|before| + 2] == Secret(payload)
    ensures asked <= log
  {
    failed := *;
    ghost var shown := term.out.buf;
    var looks;
    fragment, looks, log := SeeClean(term, prompts, markers, payload, asked);
    if fragment == "" {
      SecretSnoc(prompts, markers, payload, before, shown, looks, term.out.total);
      log := log + [Secret(payload)];
    }
  }

  /** Awaits and answers one prompt. Fails closed: nothing is written unless the prompt was found
      and no fail marker shows. */
  method AnswerPrompt(term: Terminal, action: Action, platform: Platform, args: seq<string>, prompts: seq<string>,
                      payload: string, before: seq<Entry>) returns (reason: Reason, log: seq<Entry>)
    requires term.out.Valid() && Writes(before) < |prompts|
    requires IsSound(prompts, action.failMarkers, payload, before, term.out.total)
    modifies term, term.out
    ensures term.out.Valid() && old(term.out.total) <= term.out.total
    ensures IsSound(prompts, action.failMarkers, payload, log, term.out.total)
    ensures reason == NoFailure ==> Writes(log) == Writes(before) + 1 && |log| == |before| + 3
    ensures before <= log
    ensures reason != NoFailure ==>
              IsCause(reason, action, platform, args, prompts, log, term.Now())
  {
    var prompt := prompts[Writes(before)];
    var r;
    r, log := SeePrompt(term, prompts, action.failMarkers, payload, before, prompt);
    match r {
      case TimedOut => return PromptTimedOut(prompt), log;
      case Ended => return EndedBeforePrompt(prompt), log;
      case Found =>
    }
    var fragment, failed;
    fragment, failed, log := WriteSecret(term, prompts, action.failMarkers, payload, before, log);
    if fragment != "" {
      return ShowsFailure(fragment), log;
    }
    return if failed then WriteFailed else NoFailure, log;
  }

  /** What a passed exit check has added to the log. */
  predicate ExitTail(action: Action, before: seq<Entry>, log: seq<Entry>) {
    var n := |before|;
    && |log| == n + (if action.noSuccessMarker then 2 else 3)
    && log[n].Exited? && (action.noSuccessMarker ==> log[n].ok)
    && log[n + 1].Clean? && AllAbsent(log[n + 1].looks, action.failMarkers)
    && (!action.noSuccessMarker ==> log[n + 2].Marked? && Has(log[n + 2].output, action.successMarker))
  }

  /** Looks for the success marker in whatever has been printed by now. */
  method SeeMarker(term: Terminal, prompts: seq<string>, markers: seq<string>, payload: string,
                   before: seq<Entry>, marker: string) returns (marked: bool, log: seq<Entry>)
    requires term.out.Valid() && IsSound(prompts, markers, payload, before, term.out.total)
    modifies term, term.out
    ensures term.out.Valid() && old(term.out.total) <= term.out.total
    ensures IsSound(prompts, markers, payload, log, term.out.total) && Writes(log) == Writes(before)
    ensures marked == Has(term.out.buf, marker)
    ensures log == if marked then before + [Marked(term.out.buf)] else before
  {
    ghost var total := term.out.total;
    term.Interfere();
    marked := Has(term.out.buf, marker);
    log := before;
    if marked {
      ShownSnoc(prompts, markers, payload, before, total, Marked(term.out.buf), term.out.total);
      log := before + [Marked(term.out.buf)];
    } else {
      SoundUnder(prompts, markers, payload, before, total, term.out.total);
    }
  }

  /** After the prompts: waits for the program's end, then decides from fail markers, exit status
      and success marker, in this order. */
  method AwaitExit(term: Terminal, action: Action, platform: Platform, args: seq<string>, prompts: seq<string>,
                   payload: string, before: seq<Entry>) returns (reason: Reason, log: seq<Entry>)
    requires term.out.Valid() && IsSound(prompts, action.failMarkers, payload, before, term.out.total)
    requires Writes(before) == |prompts|
    modifies term, term.out
    ensures term.out.Valid() && old(term.out.total) <= term.out.total
    ensures IsSound(prompts, action.failMarkers, payload, log, term.out.total)
    ensures Writes(log) == Writes(before) && before <= log
    ensures reason == NoFailure ==> ExitTail(action, before, log)
    ensures reason != NoFailure ==>
              IsCause(reason, action, platform, args, prompts, log, term.Now())
  {
    var exited: bool := *;
    var status: bool := *;
    if !exited {
      return NoExit, before;
    }
    SilentSnoc(prompts, action.failMarkers, payload, before, term.out.total, Exited(status));
    var ended := before + [Exited(status)];
    reason, log := Judge(term, action, platform, args, prompts, payload, ended, status);
    assert log[..|ended|] == ended && ended[..|before|] == before;
    assert reason == NoFailure ==> log[|before|] == Exited(status);
  }

  /** After the program's end. */
  method Judge(term: Terminal, action: Action, platform: Platform, args: seq<string>, prompts: seq<string>,
               payload: string, before: seq<Entry>, status: bool) returns (reason: Reason, log: seq<Entry>)
    requires term.out.Valid() && IsSound(prompts, action.failMarkers, payload, before, term.out.total)
    requires Writes(before) == |prompts| && before != [] && before[|before| - 1] == Exited(status)
    modifies term, term.out
    ensures term.out.Valid() && old(term.out.total) <= term.out.total
    ensures IsSound(prompts, action.failMarkers, payload, log, term.out.total)
    ensures Writes(log) == Writes(before) && before <= log
    ensures reason == NoFailure ==>
              var n := |before|;
              && |log| == n + (if action.noSuccessMarker then 1 else 2)
              && (action.noSuccessMarker ==> status)
              && log[n].Clean? && AllAbsent(log[n].looks, action.failMarkers)
              && (!action.noSuccessMarker ==> log[n + 1].Marked? && Has(log[n + 1].output, action.successMarker))
    ensures reason != NoFailure ==>
              IsCause(reason, action, platform, args, prompts, log, term.Now())
  {
    var fragment, looks;
    fragment, looks, log := SeeClean(term, prompts, action.failMarkers, payload, before);
    if fragment != "" {
      return ShowsFailure(fragment), log;
    }
    if action.noSuccessMarker {
      assert before[|before| - 1] in log;
      return if status then NoFailure else BadStatus, log;
    }
    var marked;
    marked, log := SeeMarker(term, prompts, action.failMarkers, payload, log, action.successMarker);
    return if marked then NoFailure else MarkerMissing, log;
  }

  /** The optional command afterwards, and the property read back. */
  method Confirm(term: Terminal, action: Action, platform: Platform, args: seq<string>, prompts: seq<string>,
                 payload: string, before: seq<Entry>) returns (reason: Reason, log: seq<Entry>)
    requires term.out.Valid() && IsSound(prompts, action.failMarkers, payload, before, term.out.total)
    requires Writes(before) == |prompts|
    ensures IsSound(prompts, action.failMarkers, payload, log, term.out.total)
    ensures Writes(log) == Writes(before) && before <= log
    ensures reason == NoFailure && PostCommand(action, platform, args).Some? ==> Posted in log
    ensures reason == NoFailure && VerifiedValue(action).Some? ==> Verified(VerifiedValue(action).value) in log
    ensures reason != NoFailure ==>
              IsCause(reason, action, platform, args, prompts, log, term.Now())
  {
    log := before;
    var markers := action.failMarkers;
    ghost var total := term.out.total;
    if PostCommand(action, platform, args).Some? {
      var ran: bool := *;
      if !ran {
        return PostFailed, log;
      }
      SilentSnoc(prompts, markers, payload, log, total, Posted);
      log := log + [Posted];
    }
    if VerifiedValue(action).Some? {
      var ran: bool := *;
      var printed: string := *;
      var got := TrimSpace(printed);
      if !ran {
        return NotVerified, log;
      }
      if got != VerifiedValue(action).value {
        return WrongValue(got), log;
      }
      SilentSnoc(prompts, markers, payload, log, total, Verified(got));
      log := log + [Verified(got)];
    }
    return NoFailure, log;
  }

  /** Answers the prompts one after the other. */
  method AnswerAll(term: Terminal, action: Action, platform: Platform, args: seq<string>, command: Command,
                   payload: string) returns (reason: Reason, log: seq<Entry>)
    requires term.out.Valid()
    modifies term, term.out
    ensures term.out.Valid() && IsSound(command.prompts, action.failMarkers, payload, log, term.out.total)
    ensures log != [] && log[0] == Started(command)
    ensures reason == NoFailure ==> Writes(log) == |command.prompts| && |log| == 1 + 3 * |command.prompts|
    ensures reason != NoFailure ==>
              IsCause(reason, action, platform, args, command.prompts, log, term.Now())
  {
    var prompts := command.prompts;
    SilentSnoc(prompts, action.failMarkers, payload, [], term.out.total, Started(command));
    log := [] + [Started(command)];
    var i := 0;
    while i < |prompts|
      invariant 0 <= i <= |prompts| && Writes(log) == i && |log| == 1 + 3 * i
      invariant term.out.Valid() && IsSound(prompts, action.failMarkers, payload, log, term.out.total)
      invariant log != [] && log[0] == Started(command)
    {
      reason, log := AnswerPrompt(term, action, platform, args, prompts, payload, log);
      if reason != NoFailure {
        return;
      }
      i := i + 1;
    }
    return NoFailure, log;
  }

  /** Drives a started program to the end. */
  method Drive(term: Terminal, action: Action, platform: Platform, args: seq<string>, command: Command,
               payload: string) returns (reason: Reason, log: seq<Entry>)
    requires term.out.Valid()
    modifies term, term.out
    ensures IsSound(command.prompts, action.failMarkers, payload, log, term.out.total)
    ensures log != [] && log[0] == Started(command)
    ensures reason == NoFailure ==> IsSuccess(action, platform, args, command, log)
    ensures reason != NoFailure ==>
              IsCause(reason, action, platform, args, command.prompts, log, term.Now())
  {
    reason, log := AnswerAll(term, action, platform, args, command, payload);
    if reason != NoFailure {
      return;
    }
    ghost var answered := log;
    reason, log := AwaitExit(term, action, platform, args, command.prompts, payload, log);
    if reason != NoFailure {
      return;
    }
    ghost var exited := log;
    reason, log := Confirm(term, action, platform, args, command.prompts, payload, log);
    assert ExitTail(action, answered, exited) && exited <= log;
  }

  /** Which action an id names: the first with that id. */
  lemma {:induction false} FindActionIsFirst(table: seq<Action>, id: string, k: nat)
    requires k < |table| && table[k].id == id && forall i :: 0 <= i < k ==> table[i].id != id
    ensures FindAction(table, id) == Some(table[k])
    decreases |table|
  {
    if k > 0 {
      FindActionIsFirst(table[1..], id, k - 1);
    }
  }

  lemma {:induction false} UnknownIdIsNotFound(table: seq<Action>, id: string)
    ensures FindAction(table, id).None? <==> forall i :: 0 <= i < |table| ==> table[i].id != id
    decreases |table|
  {
    if table == [] {
    } else {
      UnknownIdIsNotFound(table[1..], id);
      assert forall i :: 0 < i < |table| ==> table[i] == table[1..][i - 1];
    }
  }

  lemma ActionIds()
    ensures FindAction(TABLE, "passwd_user") == Some(TABLE[0])
    ensures FindAction(TABLE, "smbpasswd_user") == Some(TABLE[1])
    ensures FindAction(TABLE, "ksmbd_user") == Some(TABLE[2])
    ensures FindAction(TABLE, "zfs_create_enc_prompt") == Some(TABLE[3])
    ensures FindAction(TABLE, "zfs_unlock_enc_prompt") == Some(TABLE[4])
  {
    assert |TABLE[0].id| == 11 && |TABLE[1].id| == 14 && |TABLE[2].id| == 10 && |TABLE[3].id| == |TABLE[4].id| == 21;
    assert TABLE[3].id[4] != TABLE[4].id[4];
    FindActionIsFirst(TABLE, TABLE[0].id, 0);
    FindActionIsFirst(TABLE, TABLE[1].id, 1);
    FindActionIsFirst(TABLE, TABLE[2].id, 2);
    FindActionIsFirst(TABLE, TABLE[3].id, 3);
    FindActionIsFirst(TABLE, TABLE[4].id, 4);
  }

  /** Only unlocking has a follow-up, and not on Solaris; only the dataset actions are read back. */
  lemma FollowUps(platform: Platform, args: seq<string>, k: nat)
    requires k < |TABLE| == 5
    ensures PostCommand(TABLE[k], platform, args) ==
            if k == 4 && platform != Solaris && args != [] then Some(["zfs", "mount", args[0]]) else None
    ensures VerifiedValue(TABLE[k]) == if k >= 3 then Some("available") else None
  {
  }

  lemma {:induction false} TrimTakesOff(text: string, tail: string)
    requires text != "" ==> text[|text| - 1] as int !in {10, 13}
    requires forall i :: 0 <= i < |tail| ==> tail[i] as int in {10, 13}
    ensures TrimLineEnd(text + tail) == text
    decreases |tail|
  {
    if tail == "" {
      assert text + tail == text;
    } else {
      var s := text + tail;
      assert s[|s| - 1] == tail[|tail| - 1];
      assert s[..|s| - 1] == text + tail[..|tail| - 1];
      TrimTakesOff(text, tail[..|tail| - 1]);
    }
  }

  /** The bytes that are written: the file's text without the line ends it ends in, then one line end. */
  lemma SecretBytes(text: string, tail: string, platform: Platform)
    requires text != "" ==> text[|text| - 1] as int !in {10, 13}
    requires forall i :: 0 <= i < |tail| ==> tail[i] as int in {10, 13}
    ensures TrimLineEnd(text + tail) + LineEnding(platform) ==
            text + (if platform.Windows? then [13 as char, 10 as char] else [10 as char])
  {
    TrimTakesOff(text, tail);
    LineEndingCodes(platform);
  }

  /** The refusal is asked of the user for these two actions. */
  lemma UserIsAskedOf(platform: Platform, id: string, args: seq<string>)
    requires id in ["passwd_user", "smbpasswd_user"] && HasUser(args)
    ensures var found := FindAction(TABLE, id);
            && found.Some? && found.value.script.Fixed?
            && Resolve(found.value, platform, args).Some?
            && Resolve(found.value, platform, args).value.args == [args[0]]
  {
    ActionIds();
    UserCommands(platform, args);
  }

  /** How a run of a known action may end; `at` is the terminal then. */
  predicate RunsAs(action: Action, platform: Platform, args: seq<string>, secretFile: Option<string>,
                   refused: string -> bool, log: seq<Entry>, total: string, at: Moment)
    requires log != []
  {
    var last, resolved := log[|log| - 1], Resolve(action, platform, args);
    if resolved.None? then log == [Result(false, BadArguments)]
    else
      var command := resolved.value;
      if action.script.Fixed? && command.args != [] && refused(command.args[0])
      then log == [Result(false, Privileged(command.args[0]))]
      else if secretFile.None? || TrimLineEnd(secretFile.value) == "" then log == [Result(false, NoSecret)]
      else if !log[0].Started? then log == [Result(false, NotStarted)]
      else
        var payload := TrimLineEnd(secretFile.value) + LineEnding(platform);
        && log[0] == Started(command)
        && Disciplined(command.prompts, action.failMarkers, payload, log)
        && Writes(log) <= |command.prompts|
        && Growing(log, total)
        && (if last.Result? && last.ok then IsSuccess(action, platform, args, command, log[..|log| - 1])
            else last.Result? && IsCause(last.reason, action, platform, args, command.prompts, log[..|log| - 1], at))
  }

  method RunStarted(term: Terminal, action: Action, platform: Platform, args: seq<string>, command: Command,
                    payload: string) returns (log: seq<Entry>)
    requires term.out.Valid()
    modifies term, term.out
    ensures OneResultAtEnd(log) && log[0] == Started(command)
    ensures forall j :: 0 < j < |log| ==> !log[j].Started?
    ensures Disciplined(command.prompts, action.failMarkers, payload, log) && Writes(log) <= |command.prompts|
    ensures Growing(log, term.out.total)
    ensures var last, done := log[|log| - 1], log[..|log| - 1];
            if last.ok then IsSuccess(action, platform, args, command, done)
            else IsCause(last.reason, action, platform, args, command.prompts, done, term.Now())
  {
    var reason, entries := Drive(term, action, platform, args, command, payload);
    var last := Result(reason == NoFailure, reason);
    FinishedLog(command.prompts, action.failMarkers, payload, entries, term.out.total, last);
    log := entries + [last];
    assert log[..|log| - 1] == entries;
  }

  method RunFound(term: Terminal, action: Action, platform: Platform, args: seq<string>,
                  secretFile: Option<string>, refused: string -> bool) returns (log: seq<Entry>)
    requires term.out.Valid()
    modifies term, term.out
    ensures OneResultAtEnd(log) && forall j :: 0 < j < |log| ==> !log[j].Started?
    ensures RunsAs(action, platform, args, secretFile, refused, log, term.out.total, term.Now())
  {
    var resolved := Resolve(action, platform, args);
    if resolved.None? {
      return [Result(false, BadArguments)];
    }
    var command := resolved.value;
    if action.script.Fixed? && |command.args| > 0 && refused(command.args[0]) {
      return [Result(false, Privileged(command.args[0]))];
    }
    if secretFile.None? || TrimLineEnd(secretFile.value) == "" {
      return [Result(false, NoSecret)];
    }
    var started: bool := *;
    if !started {
      return [Result(false, NotStarted)];
    }
    log := RunStarted(term, action, platform, args, command, TrimLineEnd(secretFile.value) + LineEnding(platform));
  }

  /** Runs one action to its one printed result. `secretFile` is the content of the secret file, if
      it can be read; `refused` says whether an account may not be changed this way. */
  method RunAction(term: Terminal, table: seq<Action>, platform: Platform, id: string, args: seq<string>,
                   secretFile: Option<string>, refused: string -> bool) returns (log: seq<Entry>)
    requires term.out.Valid()
    modifies term, term.out
    ensures OneResultAtEnd(log) && forall j :: 0 < j < |log| ==> !log[j].Started?
    ensures FindAction(table, id).None? ==> log == [Result(false, UnknownAction)]
    ensures FindAction(table, id).Some? ==>
              RunsAs(FindAction(table, id).value, platform, args, secretFile, refused, log, term.out.total, term.Now())
    ensures table == TABLE && id in ["passwd_user", "smbpasswd_user"] && HasUser(args) && refused(args[0]) ==>
              log == [Result(false, Privileged(args[0]))]
  {
    var found := FindAction(table, id);
    if found.None? {
      log := [Result(false, UnknownAction)];
    } else {
      log := RunFound(term, found.value, platform, args, secretFile, refused);
    }
    if table == TABLE && id in ["passwd_user", "smbpasswd_user"] && HasUser(args) {
      UserIsAskedOf(platform, id, args);
    }
  }

  // ----- What follows for every run -----

  lemma {:induction false} WritesIsMonotone(log: seq<Entry>, i: nat, j: nat)
    requires i <= j <= |log|
    ensures Writes(log[..i]) <= Writes(log[..j])
    ensures i < j && log[i].Secret? ==> Writes(log[..i]) < Writes(log[..j])
    decreases j - i
  {
    if i == j {
    } else {
      assert log[..j][..j - 1] == log[..j - 1];
      WritesIsMonotone(log, i, j - 1);
    }
  }

  /** Where secret number k (from 0) stands in the log. */
  lemma {:induction false} SecretNumber(log: seq<Entry>, k: nat) returns (j: nat)
    requires k < Writes(log)
    ensures j < |log| && log[j].Secret? && Writes(log[..j]) == k
    decreases |log|
  {
    var front := log[..|log| - 1];
    if Writes(front) > k {
      j := SecretNumber(front, k);
      assert front[..j] == log[..j];
    } else {
      j := |log| - 1;
    }
  }

  /** Before the secret at position j, the prompts answered so far and its own were each found, in
      order, each before its own secret. */
  lemma PromptsFoundInOrder(prompts: seq<string>, markers: seq<string>, payload: string,
                            log: seq<Entry>, j: nat, k: nat) returns (m: nat)
    requires Disciplined(prompts, markers, payload, log)
    requires j < |log| && log[j].Secret? && k <= Writes(log[..j])
    ensures m < j && k < |prompts| && log[m].Matched? && log[m].prompt == prompts[k]
    ensures Has(log[m].output, prompts[k])
    ensures log[m + 2] == Secret(payload) && Writes(log[..m + 2]) == k && m + 2 <= j
  {
    assert InPlace(prompts, markers, payload, log, j);
    if k == Writes(log[..j]) {
      m := j - 2;
    } else {
      var i := SecretNumber(log[..j], k);
      assert log[..j][..i] == log[..i];
      assert InPlace(prompts, markers, payload, log, i);
      m := i - 2;
    }
  }

  /** In a run that reports success every prompt was found and answered. */
  lemma SuccessAnsweredAll(action: Action, platform: Platform, args: seq<string>, command: Command,
                           payload: string, log: seq<Entry>, k: nat) returns (m: nat)
    requires IsSuccess(action, platform, args, command, log)
    requires Disciplined(command.prompts, action.failMarkers, payload, log) && k < |command.prompts|
    ensures m + 2 < |log| && log[m].Matched? && log[m].prompt == command.prompts[k]
    ensures Has(log[m].output, command.prompts[k])
    ensures log[m + 2] == Secret(payload)
  {
    var j := SecretNumber(log, k);
    assert InPlace(command.prompts, action.failMarkers, payload, log, j);
    m := j - 2;
  }

  /** As long as the buffer was never cut, a prompt that was answered on output without an open
      escape is still found in everything printed to the end. */
  lemma AnsweredPromptStaysVisible(prompts: seq<string>, markers: seq<string>, payload: string,
                                   log: seq<Entry>, total: string, j: nat)
    requires Disciplined(prompts, markers, payload, log) && Growing(log, total) && |total| <= MAX_BUFFER
    requires j < |log| && log[j].Secret?
    requires InPlace(prompts, markers, payload, log, j) && !EndsOpen(log[j - 2].output)
    ensures Has(total, prompts[Writes(log[..j])])
  {
    var shown := log[j - 2].output;
    EntryGrows(log, total, j - 2);
    assert [shown] + [total] == [shown, total] && [shown, total][0] <= [shown, total][1];
    FoundStaysFound(shown, total[|shown|..], log[j - 2].prompt);
    assert shown + total[|shown|..] == total;
  }

  /** As long as the buffer was never cut, a clean check that began without an open escape began with
      output that showed none of the fail markers. */
  lemma CleanCheckBeganClean(log: seq<Entry>, total: string, markers: seq<string>, i: nat)
    requires Growing(log, total) && |total| <= MAX_BUFFER
    requires i < |log| && log[i].Clean? && AllAbsent(log[i].looks, markers) && !EndsOpen(log[i].start)
    ensures NoneShown(log[i].start, markers)
  {
    EntryGrows(log, total, i);
    PartOfChain(Outputs(log[i]), [total], []);
    assert Outputs(log[i]) + [] == Outputs(log[i]) && Outputs(log[i]) + [total] + [] == Outputs(log[i]) + [total];
    StartWasClean(log[i].start, log[i].looks, markers);
  }

  /** So no secret is written on output that shows a fail marker beside the prompt. */
  lemma SecretFollowsCleanOutput(prompts: seq<string>, markers: seq<string>, payload: string,
                                 log: seq<Entry>, total: string, j: nat)
    requires Disciplined(prompts, markers, payload, log) && Growing(log, total) && |total| <= MAX_BUFFER
    requires j < |log| && log[j].Secret? && InPlace(prompts, markers, payload, log, j)
    requires !EndsOpen(log[j - 2].output)
    ensures Has(log[j - 2].output, prompts[Writes(log[..j])]) && NoneShown(log[j - 2].output, markers)
  {
    CleanCheckBeganClean(log, total, markers, j - 1);
  }

  /** And a success is reported only on final output that began its check without a fail marker. */
  lemma SuccessFollowsCleanOutput(action: Action, platform: Platform, args: seq<string>, command: Command,
                                  log: seq<Entry>, total: string)
    requires IsSuccess(action, platform, args, command, log) && Growing(log, total) && |total| <= MAX_BUFFER
    requires !EndsOpen(log[3 * |command.prompts| + 2].start)
    ensures NoneShown(log[3 * |command.prompts| + 2].start, action.failMarkers)
  {
    CleanCheckBeganClean(log, total, action.failMarkers, 3 * |command.prompts| + 2);
  }

  /** For every action of the table: a later prompt is not answered on output that shows only an
      earlier one. */
  lemma LaterSecretNeedsMoreOutput(action: Action, platform: Platform, args: seq<string>, payload: string,
                                   log: seq<Entry>, j: nat, i: nat)
    requires action in TABLE && Resolve(action, platform, args).Some?
    requires Disciplined(Resolve(action, platform, args).value.prompts, action.failMarkers, payload, log)
    requires j < |log| && log[j].Secret? && i < Writes(log[..j])
    ensures j >= 2 && log[j - 2].Matched?
    ensures i < |Resolve(action, platform, args).value.prompts|
    ensures Norm(log[j - 2].output) != Norm(Resolve(action, platform, args).value.prompts[i])
  {
    var prompts := Resolve(action, platform, args).value.prompts;
    assert InPlace(prompts, action.failMarkers, payload, log, j);
    if Norm(log[j - 2].output) == Norm(prompts[i]) {
      PromptAloneIsNotNext(action, platform, args, log[j - 2].output, i, Writes(log[..j]));
    }
  }
}
