# cs-console: a verified model

cs-console starts one command under a terminal for a remote operator. It checks a session token, asks
for the operating system's password, locks an address out after three failures, and then relays sealed
frames between the terminal and the connection. In expect mode it answers the prompts of a few fixed
programs instead. This project models that behaviour in Dafny and proves what it keeps.

Check everything with `dafny verify dfyconfig.toml`.

## How it is built

| file | about |
|---|---|
| `LockoutState.dfy` | the two-number lockout record and what check and record decide from it |
| `LockoutProtocol.dfy` | any number of sessions of one address on one record; check and record are single steps |
| `LockoutSplit.dfy` | the same with separate reads and writes, and when that is as good |
| `StateFile.dfy`, `Text.dfy` | the record as a text file: printing, parsing, torn reads, the file operations |
| `Gate.dfy` | the password gate as an imperative session, and every log it can leave |
| `GateClient.dfy` | the gate and its client joined by two queues |
| `Pam.dfy` | the PAM callback that fills a response array, and the account check around it |
| `Escapes.dfy` | terminal escapes: the regular expression, a scanner, deletion |
| `Normal.dfy` | normal forms and prompt matching |
| `PtyOutput.dfy` | the output buffer, its reader, polling |
| `ExpectTable.dfy`, `ExpectDriver.dfy` | the allowlist of actions and the driver that runs one |
| `Frames.dfy`, `Channel.dfy`, `Relay.dfy` | sealed frames as a stream, over buffers and chunks, and the relay |
| `Watchdog.dfy` | the relay's idle timer |
| `CommandLine.dfy` | Windows command lines and the argument rules of the Microsoft C runtime |

Code that changes things in place is modelled by classes and methods with loops (`LockoutFile`, `Session`,
`PtyOut`, `Terminal`, `RunAction`, `Source`, `Sink`, `WriteFrame`, `ReadFrame`, `PumpOut`, `PumpIn`,
`BuildLine`, `Answer`, `RunClient`), each proved against a function of its inputs or of the old state; the
theorems are about those functions. `*` stands for what other threads, the network, PAM or a child
process do.

## Results

* **Lockout.** A 15-second window without a login admits at most n + 2 attempts when at most n are in
  flight, n + 4 if a stale file is removed in it, which happens at most once. Both numbers are reached.
  A lock once set holds. No failure is lost or counted twice. Runs at the grain of single reads and
  writes in which nobody touches the file inside another session's gap are the runs of the atomic protocol:
  each of them is one, and each atomic run comes from one.
* **The accepted race costs more than its comment says.** `lockout.go:59-61` expects a missed increment to
  let one more guess through now and then. A late removal of a stale file can take away any number of
  recorded failures: for every m some run admits m attempts in one second with never more than one in
  flight (`LockoutSplit.RemovalsHaveNoBound`). Without any stale file a late write can undo a lock that had
  just been set (`LockoutSplit.DisturbedRunBreaksBound`).
* **Prompt matching.** The escape language is prefix-free and the scanner deletes exactly what the regular
  expression replaces. Escapes inside a prompt are invisible. What is found stays found, for every needle
  and all further output, if and only if no escape is open.
* **Polling.** A reader that ended before the deadline costs no needle, whenever it ended, unless its end
  and the deadline both fall between one look and the choice after it; then the code can report a time-out
  on a needle that is there. `hasAny` takes a new look for each needle, so it says nothing about any one
  output, but it shows that none was there when it began, if and only if no escape was open then.
* **Expect driver.** Every secret answers its own prompt after a passed marker check; one result ends every
  run; success and every failure have the stated causes. All of this holds for output that arrives between
  any two steps, the looks of one marker check included.
* **Frames.** A frame comes back if and only if its text fits the reader's bound, which the writer does
  not check. Streams, cut streams, successive readers and the relay follow for every chunking.
* **Idle timer.** With traffic at the very instant of the deadline the relay may end although that traffic
  is new; this happens exactly when a signal is still waiting at that moment.
* **State file.** Whole files round-trip for all 64-bit pairs; torn reads are harmless exactly for states
  without negative numbers.
* **Windows command lines.** The argument vector comes back if and only if the program's name has no quote
  and every argument survives quoting. Empty arguments and a quoted path with a final backslash do not.

## Model

| member | source | states |
|---|---|---|
| LockoutProtocol.ReachableIsBounded | lockout.go:136-168 | in every reachable state the counter is 0..2, a lock ends at most 15 s from now, attempts are numbered 1..3 and every reported wait is 1..15 s |
| LockoutProtocol.ClockIsMonotone | lockout.go:139-142 | time never runs backwards along a run |
| LockoutProtocol.LockHolds | lockout.go:140-142 | while a lock runs and nobody logs in, no check passes, nothing is cleaned up, the lock's end never moves back, and the failures recorded are exactly the attempts that were in flight and no longer are |
| LockoutProtocol.OneClearPerWindow | lockout.go:143-147 | a 15-second window removes a stale file at most once, with or without logins in it |
| LockoutProtocol.NoClearWhenNotStale | lockout.go:145-146 | and not at all if the file cannot become stale in it |
| LockoutProtocol.WindowPotential | lockout.go:136-168 | the window bound from any valid state, with the places and failures already used subtracted |
| LockoutProtocol.SlidingWindow | lockout.go:136-168 | from any reachable state, a window shorter than 15 s without a login and with at most n in flight admits at most n + 2 attempts, plus 2 for a stale removal, for any number of sessions |
| LockoutProtocol.BoundIsReached | lockout.go:136-168 | for every n some window admits exactly n + 2 |
| LockoutProtocol.StaleBoundIsReached | lockout.go:145-168 | for every n some window with a stale removal admits exactly n + 4 |
| LockoutProtocol.StaleWorldIsReachable | lockout.go:158-168 | the states the previous row starts from are reachable |
| LockoutProtocol.Conservation | lockout.go:158-173 | failures since the last login or stale removal are three per trip plus the stored count, however they are spread over sessions, and the lock ends at most 15 s after the last of them |
| LockoutProtocol.ThreeAttemptsPerSession | auth.go:150-188 | no session starts more than three attempts, and a denied one started exactly three |
| LockoutProtocol.RunAppend | auth.go:150-163 | admissions, removals and in-flight bounds of a run are those of its parts |
| LockoutProtocol.StepsArePossible | auth.go:150-163 | nothing holds a session up: a check, and after it a success and a failure, is always possible, and so are ticks and new sessions |
| LockoutProtocol.LockInFigures | lockout.go:136-168 | after three failures another session is refused for 15 seconds and told how many are left, then admitted, and its check removes the file more than 3600 seconds later |
| LockoutState.FailureInFigures | lockout.go:158-166 | the third and any later failure locks for 15 seconds, for every count a file can hold but the largest 64-bit one, which wraps around |
| LockoutSplit.StepSimulates | lockout.go:136-168 | undisturbed, a read is silent, the end of a check and the write are the atomic check and record with the same admission and removal |
| LockoutSplit.Simulation | lockout.go:26-34 | every run without another session's write or removal between a check's read and its end, or a record's read and its write, is a run of the atomic protocol with the same file, outcomes, admissions and removals |
| LockoutSplit.EveryRunIsRealized | lockout.go:136-168 | conversely, from a world where nobody holds a copy, every run of the atomic protocol is the image of a possible, undisturbed run of reads and writes with the same file, clock and phases |
| LockoutSplit.StepsArePossible | lockout.go:136-168 | every session in the middle of a check or a record can take its next step |
| LockoutSplit.LockedIsRefused | lockout.go:137-142 | on a locked file a check is refused at once, with the seconds left, and changes nothing |
| LockoutSplit.SplitSlidingWindow | lockout.go:26-34 | so the window bound holds for reads and writes as well |
| LockoutSplit.RemovalsHaveNoBound | lockout.go:143-147 | with the gap between decision and removal disturbed nothing is bounded: for every m a run from the start admits m attempts within one second, never more than one in flight, and of their failures the file keeps one |
| LockoutSplit.CrowdIsReachable | lockout.go:136-168 | any number of sessions can come to stand before the removal of the same stale file |
| LockoutSplit.RemovalCanLoseFailure | lockout.go:145-146 | from the start, a late removal takes away the failure another session has just recorded |
| LockoutSplit.DisturbedRunBreaksBound | lockout.go:53-61 | a late write can undo a lock, without any stale file: five admissions in one second with two in flight |
| StateFile.RoundTrip | lockout.go:104-129 | reading a written file gives the state back for every pair of 64-bit numbers |
| StateFile.TornParse | lockout.go:104-124 | what each proper prefix of a written file reads as |
| StateFile.TornRead | lockout.go:104-129 | any prefix of a file without negative numbers reads as numbers between zero and the written ones |
| StateFile.TornReadIsHarmlessIff | lockout.go:104-129 | no prefix reads too large if and only if neither number is negative |
| StateFile.TornCheckRefusesLess | lockout.go:136-142 | a check that reads a torn file refuses only whom the whole file refuses, for no longer |
| StateFile.WaitIsExact | lockout.go:141 | the reported duration does not overflow for locks of at most 15 s |
| StateFile.WrittenLines | lockout.go:126-129 | the file is two lines with the names fail_count and locked_until |
| StateFile.PaddedLine | lockout.go:111-121 | white space around a name or number in a line does not matter |
| StateFile.OtherLine | lockout.go:111-121 | a line without '=' or with another name sets nothing |
| StateFile.LockoutFile.ReadState | lockout.go:104-124 | the line-by-line loop computes the parse of the file, "never failed" without one |
| StateFile.LockoutFile.Check | lockout.go:136-149 | locked, wait and cleanup follow the file's contents; nothing else is changed |
| StateFile.LockoutFile.RecordFailure | lockout.go:158-168 | the new contents are the old ones after one failure; a directory that cannot be written changes nothing |
| StateFile.LockoutFile.Reset | lockout.go:171-173 | the file is gone, if it can be removed |
| Text.ParseIntClamps | lockout.go:115 | digits with or without a sign parse as their value by places, or as the nearest 64-bit number |
| Text.NoNumberIsZero | lockout.go:115 | a text that stops being a number before it gets too large reads as 0 |
| Text.TrimSpaceTakesOff | lockout.go:115-116 | the six ASCII white-space characters are taken off both ends, and nothing else |
| Text.IntRoundTrip | lockout.go:115-127 | a printed 64-bit number parses as itself |
| Text.DigitsAreDecimal | lockout.go:127 | the digits printed for a number have its value by their places |
| Text.PrefixIsNotLarger | lockout.go:115 | a prefix of a printed non-negative number is not larger |
| Gate.Session.RunPasswordGate | auth.go:118-190 | the gate always ends, its log is one of the possible ones and true to what was sent and done to the lockout file, and the return value is that of the log |
| Gate.Session.Attempt | auth.go:150-188 | one pass of the loop ends the gate or leads to the next attempt's check |
| Gate.Session.Reject | auth.go:163-187 | a failed check is recorded, then answered by a countdown or, the third time, by denial |
| Gate.Session.VerifyAccount | auth.go:157 | any finite conversation, then either verdict; a prompt that was not sent has no reply |
| Gate.Session.PassCheck | auth.go:151-155 | the shared file is looked at anew before every attempt |
| Gate.OneVerdict | auth.go:150-188 | after the banner a finished log has one verdict, as its last entry |
| Gate.GateLog | auth.go:118-190 | a finished run is a failed banner, or the banner and then exactly one of ok, denied and locked at its end; no error is returned exactly if ok was sent |
| Gate.AtMostThreeChecks | auth.go:150-157 | the account is checked at most three times |
| Gate.VerdictHasCause | auth.go:150-188 | ok is said only after a successful check and the reset; locked only after a look that found a lock, with its seconds; denied only after exactly three failed checks, each recorded, with the last one's reason |
| Gate.TextsInFigures | auth.go:152-187 | the attempts said to be left are the checks still possible, and the texts for each attempt and each wait are as written |
| Gate.WholeSecondsCutsOff | auth.go:153 | the seconds told are the wait with only a part of one second cut off |
| Gate.GateIsSession | auth.go:150-163 | each file action of the gate is an enabled step of the lockout protocol and takes the session where the gate goes |
| GateClient.RunClient | testclient/main.go:107-142 | the client's loop is the client of the joined system; it gives its one reply to each prompt and stops at the first verdict with that verdict |
| GateClient.AfterFacts | auth.go:118-190 | the gate waits exactly after a sent prompt and ends exactly with a sent verdict |
| GateClient.KeepsInv | auth.go:68-77 | at most one reply is outstanding, exactly while the gate waits for it, and a verdict is the last message |
| GateClient.OnlyTheReplyIsReceived | auth.go:68-77 | what the gate receives for a prompt is the client's reply |
| GateClient.EveryLogIsARun | auth.go:118-190 | joining gate and client excludes nothing: every error-free log of the gate is the log of some run of the two |
| GateClient.NeverStuck | testclient/main.go:107-142 | until both have stopped one of them can move |
| GateClient.GateAndClientAgree | testclient/main.go:107-142 | every run of gate and client ends, with no message left, the same verdict on both sides, and no gate error exactly if the client was let in |
| Pam.Converse | auth_unix.go:143-186 | success exactly if the handle is known, there are messages, memory was there and every prompt was answered; then the slot of each prompt holds what the frontend answered to it and every other slot nothing; otherwise it stops at the first question without an answer or unknown style |
| Pam.Answer | auth_unix.go:163-185 | the messages are relayed in order, each once, and each prompt's answer is put into its own slot |
| Pam.ResponsesMatchPrompts | auth_unix.go:163-182 | after success exactly the prompts have responses |
| Pam.RelayByStyle | auth_unix.go:166-181 | prompts are asked, shown or masked by their style, texts and errors are told, other styles are not relayed |
| Pam.VerifyOSAccount | auth_unix.go:193-235 | only a successful start, authentication and account check together succeed, each is asked for only after the one before, and the registry is as before |
| Pam.Registry.Register | auth_unix.go:117-124 | handles are new and never used twice |
| Pam.Registry.Unregister | auth_unix.go:126-130 | exactly that handle is forgotten |
| Escapes.RegexIsEscape | expect.go:504 | the regular expression's language is control sequences, control strings and two-character escapes |
| Escapes.EscapeCharacters | expect.go:504 | which character codes may stand at each place of an escape |
| Escapes.ScannerIsExact | expect.go:504 | the scanner finds an escape of length n exactly if the first n characters are one |
| Escapes.EscapesArePrefixFree | expect.go:504 | no escape is a proper prefix of another |
| Escapes.StripIsReplacement | expect.go:511 | replacing every match has one possible result, whichever match is preferred, and the scanner computes it |
| Escapes.EscapesAreInvisible | expect.go:490-504 | any number of escapes at any places of plain text leave no trace |
| Escapes.StripFixesIff | expect.go:504-511 | deletion leaves a text alone exactly if no escape starts in it, and shortens it otherwise |
| Escapes.StripIsIdempotentIff | expect.go:504-511 | a second deletion changes nothing exactly if the first put no escape together |
| Escapes.StripIsNotIdempotent | expect.go:504-511 | which it can |
| Escapes.PartialIsOpen | expect.go:504 | an escape is open exactly if more characters can complete it |
| Escapes.StripAppend | expect.go:511 | with no escape open at its end, text is stripped independently of what follows |
| Escapes.OpenCanClose | expect.go:511 | with one open, some continuation takes away all stripped text from that escape on |
| Escapes.StripDistributesIffClosed | expect.go:511 | so stripping distributes over every continuation if and only if no escape is open |
| Normal.CollapseAppend | expect.go:513 | collapsed text followed by more is the collapsed whole, up to the word at the seam |
| Normal.NormIsPrefix | expect.go:510-514 | the normal form of output without an open escape is a prefix of the normal form of any longer output |
| Normal.FoundStaysFound | expect.go:516-519 | so a needle found in it stays found |
| Normal.FoundStaysFoundIff | expect.go:516-519 | every needle found in some output stays found in all longer output if and only if no escape is open at its end |
| Normal.SpelledNeedleIsFound | expect.go:510-519 | output in which, escapes aside, the needle's words stand in any case and with any white space between them is found to contain it |
| Normal.PlainNeedleIsFound | expect.go:510-519 | plain output that contains the needle is found to contain it |
| Normal.CaseDoesNotMatter | expect.go:512 | texts without escape characters that are the same up to case, by character codes, have the same normal form |
| Normal.UnbrokenNormIff | expect.go:510-514 | texts without white space and escape characters have the same normal form only if they are the same up to case |
| Normal.CharacterNormIff | expect.go:510-514 | single characters count alike exactly if they are the same letter or both white space |
| Normal.UnbrokenIsFoundIff | expect.go:516-519 | in unbroken output an unbroken needle is found exactly if it stands there up to case |
| Normal.NormIsTidy | expect.go:510-514 | a normal form has no leading, trailing or doubled blank, no other white space, no capitals, and the words of the stripped text |
| Normal.NormDecidesWords | expect.go:510-514 | two texts have the same normal form exactly if they have the same words |
| Normal.NormIsIdempotentIff | expect.go:510-514 | normalizing twice is normalizing once exactly if no escape starts in the normal form |
| Normal.NormIsIdempotent | expect.go:510-514 | in particular if stripping leaves no escape character |
| Normal.PlainNormIsIdempotent | expect.go:510-514 | and so for text without escape characters |
| Normal.EscapesDoNotChangeNorm | expect.go:490-514 | escapes anywhere in plain text do not change its normal form |
| PtyOutput.PtyOut.Append | expect.go:475-482 | the buffer stays a suffix of all output, all of it up to 256 KiB and otherwise between 64 and 256 KiB long |
| PtyOutput.Terminal.HasAny | expect.go:521-528 | each needle is looked for in what has been printed by then; the result is the first one found at its look, and empty exactly if none was found at its own look |
| PtyOutput.StartWasCleanIff | expect.go:516-528 | such a check shows that no needle was there when it began, for all needles and later output, if and only if no escape was open then |
| PtyOutput.LooksCanBothMiss | expect.go:516-528 | but no single output need have been free of needles: two looks miss one each |
| PtyOutput.PumpPty | expect.go:561-577 | everything up to the first read error reaches the buffer, in order, and nothing else |
| PtyOutput.Terminal.Await | expect.go:540-558 | the result is that of the look at the end of the last sleep and of the choice after it; a needle visible from the start is found; if the reader ended before the deadline, at any moment of the wait, no needle is missed, unless end and deadline fell into the one gap between a look and its choice |
| PtyOutput.RoundMissesIff | expect.go:543-555 | a round can time out on a needle that is there exactly if the deadline has passed and the needle came after the look |
| ExpectTable.PromptsAreDistinct | expect.go:130-281 | for every action, platform and accepted argument the second prompt's normal form is not contained in the first's |
| ExpectTable.PromptAloneIsNotNext | expect.go:98-281 | so output that is just the first prompt does not satisfy the second step |
| ExpectTable.FillUserPutsUser | expect.go:321-332 | the argv is the template with the user in exactly the places that ask for it; none exactly if one asks and no user is given |
| ExpectTable.UserCommands | expect.go:211-254 | program, argv and prompts of the three account actions for every argument list |
| ExpectTable.CreateCommand | expect.go:130-155 | accepted are exactly a name of the regular expression and one of the seven algorithms; the dataset is the last word, the algorithm belongs to the third; prompts by platform |
| ExpectTable.UnlockCommand | expect.go:172-186 | likewise for unlocking |
| ExpectTable.ValidNameIsRegex | expect.go:98 | the name check is the regular expression |
| ExpectTable.Markers | expect.go:211-281 | which output fragments decide success and failure of each action |
| ExpectTable.LineEndingCodes | expect.go:86-91 | the bytes that submit a secret |
| ExpectDriver.RunAction | expect.go:302-446 | one result ends every run and names the first check that failed, with a cause that is there; a refused user of passwd_user or smbpasswd_user gets just the refusal; what is started is the resolved command, once, before all else; each secret follows its own found prompt and a check that looked for every fail marker without finding it; success rests on all of prompts, markers or status, follow-up and read-back |
| ExpectDriver.UserIsAskedOf | expect.go:322-338 | for these two actions the refusal is asked of the given user |
| ExpectDriver.FindActionIsFirst | expect.go:283-290 | an id names the first action that has it |
| ExpectDriver.UnknownIdIsNotFound | expect.go:283-290 | and none exactly if no action has it |
| ExpectDriver.SecretBytes | expect.go:451-465 | what is written is the file's text without the line ends it ends in, and one line end of the platform |
| ExpectDriver.FollowUps | expect.go:194-203 | only unlocking mounts afterwards, and not on Solaris; only the dataset actions are read back, as available |
| ExpectDriver.AnswerPrompt | expect.go:366-374 | a step that reports no failure has written one secret, after the prompt was found and each fail marker was absent at its look; a step that fails names a cause that is there |
| ExpectDriver.AwaitExit | expect.go:381-410 | fail markers, exit status and success marker decide, in this order |
| ExpectDriver.Confirm | expect.go:412-445 | success needs the follow-up command and the property read back with the wanted value |
| ExpectDriver.Drive | expect.go:364-445 | success and failure of the driven part have their causes in the log and the terminal |
| ExpectDriver.PromptsFoundInOrder | expect.go:364-375 | secret number i comes only after prompts 1..i were each found in this order |
| ExpectDriver.SuccessAnsweredAll | expect.go:364-445 | a reported success has written exactly one secret per prompt |
| ExpectDriver.AnsweredPromptStaysVisible | expect.go:364-376 | without trimming, a prompt found in output with no open escape is still found in all output to the end |
| ExpectDriver.CleanCheckBeganClean | expect.go:369-371 | without trimming, a passed marker check that began with no open escape began with output free of all fail markers |
| ExpectDriver.SecretFollowsCleanOutput | expect.go:366-372 | so the output in which a prompt was found and answered showed no fail marker |
| ExpectDriver.SuccessFollowsCleanOutput | expect.go:402-445 | and a success is reported on final output that showed none when its check began |
| ExpectDriver.LaterSecretNeedsMoreOutput | expect.go:364-376 | the output on which a later secret is written is never just an earlier prompt |
| Frames.ToyAeadIsValid | crypto.go:44-47 | what is asked of the cipher can be had |
| Frames.LengthRoundTrip | crypto.go:65 | the length field is big-endian and holds the length modulo 2^32 |
| Frames.FrameRoundTrip | crypto.go:58-111 | a frame is read as its text, leaving what follows, if and only if the text with nonce and tag is at most 1 MiB |
| Frames.TextIffFrame | crypto.go:91-111 | a text is read exactly from a length of at most 1 MiB, twelve bytes of nonce and bytes the cipher opens to it |
| Frames.CutFrame | crypto.go:93-103 | a frame cut short reads as a clean end exactly before it or right after its length, and as an unexpected end elsewhere |
| Frames.StreamRoundTrip | crypto.go:58-111 | as many reads as frames give exactly the texts and use exactly their bytes |
| Frames.WholeStream | crypto.go:91-111 | reading on gives all texts and then the end of input |
| Frames.CutStream | crypto.go:91-111 | a stream cut anywhere gives a proper prefix of the texts and then an end-of-input error |
| Frames.ReadersInTurn | main.go:231-258 | a reader takes no bytes beyond its frames, so two in turn read what one would |
| Frames.Handover | main.go:138-159 | token reader, gate reader and relay reader together read exactly what was sent, each its share |
| Frames.ClientRoundTrip | testclient/main.go:54-67 | the client reads a frame back if and only if its length fits 32 bits |
| Frames.ClientTextIffFrame | testclient/main.go:54-67 | the client reads a text exactly from such a frame of any length the field can hold |
| Frames.ClientReadsNoLess | testclient/main.go:54-67 | what the server's reader accepts the client's reads the same way, and the two agree on a text exactly up to the server's bound |
| Channel.Source.ReadFull | crypto.go:93-102 | a buffer is filled with the next bytes of the stream however they arrive, or the end is reported |
| Channel.WriteFrame | crypto.go:58-70 | the bytes written are the frame, or on an error a prefix of it |
| Channel.BuildFrame | testclient/main.go:43-52 | length, nonce and sealed text lie in the buffer one after the other |
| Channel.ReadFrame | crypto.go:91-111 | result and bytes used are those of the stream, for every chunking |
| Channel.ClientReadFrame | testclient/main.go:54-67 | the same for the client's reader |
| Channel.Authenticate | main.go:231-244 | exactly the token as first frame is accepted, and nothing after it is read |
| Relay.PumpOut | main.go:270-284 | the terminal's output up to its first error is sent, one frame a read, in order; after a write error whole frames were sent in order, then at most a part of the next piece's frame |
| Relay.PumpIn | main.go:287-298 | the texts of the frames are typed in order until a read or write fails |
| Relay.RelayDelivers | main.go:270-284 | the far end reads what the terminal printed, whatever the reads of at most 32 KiB were, and never meets the length bound |
| Watchdog.EndsOnlyWhenIdle | main.go:303-315 | when the relay ends for idleness all traffic is the idle time old or of that very instant |
| Watchdog.EndsIdleIffNothingWaits | main.go:261-315 | the latest traffic is old enough exactly if no signal was waiting |
| Watchdog.TrafficAtDeadlineCanLose | main.go:305-314 | with timer and signal both ready the relay can end on new traffic |
| Watchdog.OverByDeadline | main.go:303-315 | the clock never passes the latest traffic plus the idle time with the relay open |
| Watchdog.StepsArePossible | main.go:261-315 | nothing holds the relay up: traffic, a waiting signal, the expired timer and time itself can always go on |
| CommandLine.BuildLine | pty_windows.go:31-37 | the parts are quoted in place and the result is the command line of the original parts |
| CommandLine.PartInLine | pty_windows.go:33-34 | a part stands unchanged exactly if it has no blank, tab or quote, and otherwise between quotes |
| CommandLine.BareArgumentsComeBack | pty_windows.go:31-37 | whatever their backslashes, non-empty arguments without these three characters are read back |
| CommandLine.OddRule | pty_windows.go:31-37 | the runtime's rule: 2n + 1 backslashes and a quote are n backslashes and a quote |
| CommandLine.EvenRule | pty_windows.go:31-37 | 2n backslashes and a quote are n backslashes and a delimiter |
| CommandLine.PairRule | pty_windows.go:31-37 | before a second quote inside quotes they are n backslashes and a quote |
| CommandLine.PlainRules | pty_windows.go:31-37 | backslashes before anything else are themselves, and a blank or tab ends an argument outside quotes |
| CommandLine.BlankRule | pty_windows.go:37 | more blanks or tabs between arguments count for nothing |
| CommandLine.ProgramRules | pty_windows.go:31 | in the program's name quotes are dropped and protect blanks, and backslashes are themselves |
| CommandLine.CleanComesBack | pty_windows.go:33-34 | a quoted argument without a backslash before a quote or at its end is read back, and nothing of the rest |
| CommandLine.SlashQuoteComesBack | pty_windows.go:33-34 | one that only ends in backslash and quote is read back exactly as the last argument |
| CommandLine.NeverCatchesUp | pty_windows.go:33-34 | once some backslashes or quotes are lost no later character makes up for them |
| CommandLine.UncleanIsLost | pty_windows.go:33-34 | every other quoted argument is read as something else |
| CommandLine.ArgumentRoundTrip | pty_windows.go:31-36 | a non-empty argument is read back if and only if it survives quoting |
| CommandLine.ArgumentsRoundTripIff | pty_windows.go:31-37 | a list of arguments is read back if and only if each survives |
| CommandLine.ProgramRoundTrip | pty_windows.go:31-37 | the program's name is read back if and only if it has no quote |
| CommandLine.LineRoundTripIff | pty_windows.go:31-37 | the whole argument vector is read back if and only if the name has no quote and every argument survives |
| CommandLine.DirectoryIsLost | pty_windows.go:33-34 | a directory with a blank in its name and a backslash at its end never arrives |

## Left out

- PAM itself, LogonUser, the pseudo-terminal, ConPTY, sockets, process start: their outcomes are arbitrary values.
- The cipher: a sealing pair with the lengths and the round trip of section 2.8 of RFC 8439; secrecy, nonce collisions and the constant-time comparison are not modelled.
- JSON: gate messages and results are datatypes; the texts of expect results and of returned errors are not modelled, their reasons are.
- The uid-0 refusal: it depends on `/etc/passwd`; the driver takes its outcome as a parameter, asked of the first argument as the code does, which for `ksmbd_user` is `-u`.
- Unicode: letters, white space and digits are those of ASCII.
- In `LockoutSplit` the clock is read in the same step as the decision, and as the write, that use it.
- Real time: whole seconds in the lockout and idle models; in `Await` the deadline passes at any moment, at the latest after a number of sleeps.
- The name of the state file, the start configuration, the accept window, the maximum session time, terminal sizes: each is read from one line of code.
- The machine's clock may jump back; the model's does not.
- A process that dies between a passed check and its record stays in flight for ever in the model.
- Writers mixing the bytes of one file: only prefixes and whole writes are modelled. In the lockout protocols every write succeeds; `StateFile.LockoutFile` has the other case.
- The stop channel of the output reader: nothing closes it.
- `auth_windows.go`, `session.go`, `privilege_*.go`, `pty_unix.go`, `pty_illumos.go`: thin layers over the operating system.
- Watchdog.EndsIdleIffNothingWaits: assumes a loop that takes a ready signal or timer before the clock moves on.
- Pam.VerifyOSAccount: that PAM fails after its callback failed is PAM's promise and is not assumed; handles are unbounded numbers.
- Gate.Session.VerifyAccount: a conversation is any finite one; that PAM's conversations are finite is assumed.
- CommandLine.LineRoundTripIff: the rules are those of the runtime's argument parser; the operating system's search for the program on that line, and characters it cannot hold, are not part of the model.
