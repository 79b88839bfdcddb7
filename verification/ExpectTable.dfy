/** The allowlisted scripted actions (expect.go, expectTable) and the command and prompts each
    stands for on each platform. */
module ExpectTable {
  import opened Prelude
  import opened Escapes
  import opened Normal
  import opened Text

  datatype Platform = Solaris | Windows | OtherUnix

  datatype Script =
    | Fixed(cmd: string, args: seq<string>, prompts: seq<string>)
    | ZfsCreate
    | ZfsUnlock

  datatype Action = Action(
    id: string,
    script: Script,
    successMarker: string,
    failMarkers: seq<string>,
    noSuccessMarker: bool)

  datatype Command = Command(cmd: string, args: seq<string>, prompts: seq<string>)

  const TABLE: seq<Action> := [
    Action("passwd_user",
           Fixed("passwd", ["{user}"], ["New Password:", "Re-enter new Password:"]),
           "successfully changed",
           ["does not meet", "too short", "mismatch", "unchanged", "password not changed", "failed"],
           false),
    Action("smbpasswd_user",
           Fixed("smbpasswd", ["{user}"], ["New SMB password:", "Retype new SMB password:"]),
           "",
           ["unable to get new password", "mismatch", "failed", "error"],
           true),
    Action("ksmbd_user",
           Fixed("ksmbd.adduser", ["-u", "{user}"], ["New password:", "Retype password:"]),
           "Updated user",
           ["does not exist", "already exists", "mismatch", "error", "failed"],
           false),
    Action("zfs_create_enc_prompt", ZfsCreate, "", [], true),
    Action("zfs_unlock_enc_prompt", ZfsUnlock, "", [], true)
  ]

  /** What is written after a secret to submit it. */
  function LineEnding(platform: Platform): string {
    if platform == Windows then "\r\n" else "\n"
  }

  predicate IsNameStart(c: char) {
    IsLetter(c) || '0' <= c <= '9'
  }

  predicate IsNameChar(c: char) {
    IsNameStart(c) || c in "_.:/-"
  }

  predicate ValidDatasetName(s: string) {
    s != "" && IsNameStart(s[0]) && forall i :: 0 <= i < |s| ==> IsNameChar(s[i])
  }

  const ALGORITHMS: set<string> := {
    "on", "aes-128-ccm", "aes-192-ccm", "aes-256-ccm", "aes-128-gcm", "aes-192-gcm", "aes-256-gcm" }

  const PASSPHRASE_FOR: string := "Enter passphrase for '"

  function PassphraseFor(dataset: string): string {
    PASSPHRASE_FOR + (dataset + "':")
  }

  function ResolveCreate(platform: Platform, args: seq<string>): Option<Command> {
    if |args| < 2 || args[0] == "" || args[1] == "" || !ValidDatasetName(args[0]) || args[1] !in ALGORITHMS then None
    else
      var dataset, encryption := args[0], "encryption=" + args[1];
      match platform
      case Solaris =>
        Some(Command("zfs", ["create", "-o", encryption, "-o", "keysource=passphrase,prompt", dataset],
                     [PassphraseFor(dataset) + " ", "Enter again: "]))
      case Windows =>
        Some(Command("zfs", ["create", "-o", encryption, "-o", "keyformat=passphrase", "-o", "keylocation=prompt", dataset],
                     ["Enter new passphrase:", "Re-enter new passphrase:"]))
      case OtherUnix =>
        Some(Command("zfs", ["create", "-o", encryption, "-o", "keyformat=passphrase", "-o", "keylocation=prompt", dataset],
                     ["Enter passphrase:", "Re-enter passphrase:"]))
  }

  function ResolveUnlock(platform: Platform, args: seq<string>): Option<Command> {
    if |args| < 1 || args[0] == "" || !ValidDatasetName(args[0]) then None
    else if platform == Solaris
    then Some(Command("zfs", ["key", "-l", args[0]], [PassphraseFor(args[0]) + " "]))
    else Some(Command("zfs", ["load-key", args[0]], [PassphraseFor(args[0])]))
  }

  /** The argv of a fixed action; none if it needs a user and none is given. */
  function FillUser(template: seq<string>, args: seq<string>): Option<seq<string>> {
    if template == [] then Some([])
    else if template[0] == "{user}" && (|args| < 1 || args[0] == "") then None
    else
      var rest := FillUser(template[1..], args);
      if rest.None? then None
      else Some([if template[0] == "{user}" then args[0] else template[0]] + rest.value)
  }

  function Resolve(action: Action, platform: Platform, args: seq<string>): Option<Command> {
    match action.script
    case ZfsCreate => ResolveCreate(platform, args)
    case ZfsUnlock => ResolveUnlock(platform, args)
    case Fixed(cmd, template, prompts) =>
      var argv := FillUser(template, args);
      if argv.None? then None else Some(Command(cmd, argv.value, prompts))
  }

  // ----- What the commands are -----

  /** The argv is the template with the user in the places that ask for it; there is none exactly if
      a place asks and no user is given. */
  lemma {:induction false} FillUserPutsUser(template: seq<string>, args: seq<string>)
    ensures FillUser(template, args).None? <==> "{user}" in template && (args == [] || args[0] == "")
    ensures FillUser(template, args).Some? ==>
              var argv := FillUser(template, args).value;
              && |argv| == |template|
              && forall i :: 0 <= i < |template| ==>
                   argv[i] == if template[i] == "{user}" then args[0] else template[i]
  {
    if template == [] {
    } else {
      FillUserPutsUser(template[1..], args);
      assert template == [template[0]] + template[1..];
    }
  }

  predicate HasUser(args: seq<string>) {
    args != [] && args[0] != ""
  }

  lemma UserCommands(platform: Platform, args: seq<string>)
    ensures Resolve(TABLE[0], platform, args) ==
            if HasUser(args) then Some(Command("passwd", [args[0]], ["New Password:", "Re-enter new Password:"]))
            else None
    ensures Resolve(TABLE[1], platform, args) ==
            if HasUser(args) then Some(Command("smbpasswd", [args[0]], ["New SMB password:", "Retype new SMB password:"]))
            else None
    ensures Resolve(TABLE[2], platform, args) ==
            if HasUser(args) then Some(Command("ksmbd.adduser", ["-u", args[0]], ["New password:", "Retype password:"]))
            else None
  {
    var one, two := ["{user}"], ["-u", "{user}"];
    FillUserPutsUser(one, args);
    FillUserPutsUser(two, args);
    assert two[1] == "{user}" && one[0] == "{user}" && two[0][0] != "{user}"[0];
    if HasUser(args) {
      assert FillUser(one, args).value == [args[0]];
      assert FillUser(two, args).value == ["-u", args[0]];
    }
  }

  /** ^[A-Za-z0-9][A-Za-z0-9_.:/-]*$ */
  function NameRegex(): Regex {
    Cat(Class(c => 48 <= c as int <= 57 || 65 <= c as int <= 90 || 97 <= c as int <= 122),
        Star(Class(c => 45 <= c as int <= 58 || 65 <= c as int <= 90 || c as int == 95 || 97 <= c as int <= 122)))
  }

  lemma ValidNameIsRegex(s: string)
    ensures ValidDatasetName(s) <==> Matches(NameRegex(), s)
  {
    var first, more := NameRegex().first, NameRegex().second.body.members;
    if Matches(NameRegex(), s) {
      var i := CatSplit(first, Star(Class(more)), s);
      StarOfClass(more, s[i..]);
      forall k | 0 <= k < |s| ensures IsNameChar(s[k]) {
        assert k > 0 ==> s[k] == s[i..][k - 1] && more(s[k]);
      }
    }
    if ValidDatasetName(s) {
      StarOfClass(more, s[1..]);
      assert Matches(first, s[..1]);
      CatJoin(first, Star(Class(more)), s, 1);
    }
  }

  /** The dataset is the last word and the algorithm belongs to the third; both are checked. */
  lemma CreateCommand(platform: Platform, args: seq<string>)
    ensures Resolve(TABLE[3], platform, args).Some? <==>
            && |args| >= 2 && Matches(NameRegex(), args[0])
            && args[1] in ["on", "aes-128-ccm", "aes-192-ccm", "aes-256-ccm", "aes-128-gcm", "aes-192-gcm", "aes-256-gcm"]
    ensures Resolve(TABLE[3], platform, args).Some? ==>
              var command := Resolve(TABLE[3], platform, args).value;
              && command.cmd == "zfs"
              && command.args ==
                 ["create", "-o", "encryption=" + args[1]]
                 + (if platform == Solaris then ["-o", "keysource=passphrase,prompt"]
                    else ["-o", "keyformat=passphrase", "-o", "keylocation=prompt"])
                 + [args[0]]
              && command.prompts ==
                 match platform {
                   case Solaris => ["Enter passphrase for '" + args[0] + "': ", "Enter again: "]
                   case Windows => ["Enter new passphrase:", "Re-enter new passphrase:"]
                   case OtherUnix => ["Enter passphrase:", "Re-enter passphrase:"]
                 }
  {
    if |args| >= 2 {
      ValidNameIsRegex(args[0]);
      AlgorithmIsListed(args[1]);
      PassphraseText(args[0]);
    }
  }

  lemma PassphraseText(dataset: string)
    ensures PassphraseFor(dataset) == "Enter passphrase for '" + dataset + "':"
    ensures PassphraseFor(dataset) + " " == "Enter passphrase for '" + dataset + "': "
  {
    assert "':" + " " == "': ";
  }

  /** What decides success and failure of the fixed actions. */
  lemma Markers()
    ensures TABLE[0].successMarker == "successfully changed" && !TABLE[0].noSuccessMarker
    ensures TABLE[0].failMarkers ==
            ["does not meet", "too short", "mismatch", "unchanged", "password not changed", "failed"]
    ensures TABLE[1].noSuccessMarker
    ensures TABLE[1].failMarkers == ["unable to get new password", "mismatch", "failed", "error"]
    ensures TABLE[2].successMarker == "Updated user" && !TABLE[2].noSuccessMarker
    ensures TABLE[2].failMarkers == ["does not exist", "already exists", "mismatch", "error", "failed"]
    ensures TABLE[3].noSuccessMarker && TABLE[3].failMarkers == []
    ensures TABLE[4].noSuccessMarker && TABLE[4].failMarkers == []
  {
  }

  lemma AlgorithmIsListed(a: string)
    ensures a in ALGORITHMS <==>
            a in ["on", "aes-128-ccm", "aes-192-ccm", "aes-256-ccm", "aes-128-gcm", "aes-192-gcm", "aes-256-gcm"]
    ensures a in ALGORITHMS ==> a != ""
  {
  }

  lemma UnlockCommand(platform: Platform, args: seq<string>)
    ensures Resolve(TABLE[4], platform, args).Some? <==> args != [] && Matches(NameRegex(), args[0])
    ensures Resolve(TABLE[4], platform, args).Some? ==>
              var command := Resolve(TABLE[4], platform, args).value;
              && command.cmd == "zfs"
              && command.args == (if platform == Solaris then ["key", "-l", args[0]] else ["load-key", args[0]])
              && command.prompts == ["Enter passphrase for '" + args[0] + (if platform == Solaris then "': " else "':")]
  {
    if args != [] {
      ValidNameIsRegex(args[0]);
      PassphraseText(args[0]);
    }
  }

  /** A secret is submitted by a line feed, on Windows by a carriage return and a line feed. */
  lemma LineEndingCodes(platform: Platform)
    ensures LineEnding(platform) == if platform.Windows? then [13 as char, 10 as char] else [10 as char]
  {
  }

  // ----- Prompts of one action cannot be confused -----

  /** A tidy text and a text without white space make a tidy text. */
  lemma TidyAppend(a: string, w: string)
    requires IsTidy(a) && a != "" && IsWord(w)
    ensures IsTidy(a + w)
  {
    var s := a + w;
    assert forall i :: 0 <= i < |a| ==> s[i] == a[i];
    assert forall i :: |a| <= i < |s| ==> s[i] == w[i - |a|];
  }

  lemma CollapseAroundBlank(a: string, b: string)
    requires a != "" && b != "" && !IsSpace(a[0]) && !IsSpace(b[0])
    ensures Collapse(a + " " + b) == Collapse(a) + " " + Collapse(b)
  {
    CollapseAppend(a, " ");
    CollapseAppend(a + " ", b);
    assert Fields(" ") == [];
    FieldsApart(a, " ");
  }

  lemma TidyPieces(s: string, i: nat)
    requires IsTidy(s) && i < |s| && IsSpace(s[i])
    ensures 0 < i < |s| - 1 && IsTidy(s[..i]) && IsTidy(s[i + 1..])
    ensures !IsSpace(s[..i][0]) && !IsSpace(s[i + 1..][0])
    ensures s == s[..i] + " " + s[i + 1..]
  {
    var a, b := s[..i], s[i + 1..];
    assert !IsSpace(s[i - 1]) && !IsSpace(s[i + 1]);
    assert forall k :: 0 <= k < |b| ==> b[k] == s[i + 1 + k];
  }

  lemma {:induction false} CollapseOfTidy(s: string)
    requires IsTidy(s)
    ensures Collapse(s) == s
    decreases |s|
  {
    if i :| 0 <= i < |s| && IsSpace(s[i]) {
      TidyPieces(s, i);
      CollapseOfTidy(s[..i]);
      CollapseOfTidy(s[i + 1..]);
      CollapseAroundBlank(s[..i], s[i + 1..]);
    } else if s != "" {
      CollapseOfWord(s);
    }
  }

  /** Written the way a program prints it: no escapes, single blanks inside, none around. */
  predicate IsPrompt(s: string) {
    IsPlain(s) && IsTidy(s)
  }

  lemma LowerCharKeepsSpace(c: char)
    ensures IsSpace(LowerChar(c)) <==> IsSpace(c)
    ensures IsSpace(c) ==> LowerChar(c) == c
  {
  }

  lemma LowerIsTidy(s: string)
    requires IsTidy(s)
    ensures IsTidy(Lower(s))
  {
    forall i | 0 <= i < |s| ensures IsSpace(Lower(s)[i]) <==> IsSpace(s[i]) {
      LowerCharKeepsSpace(s[i]);
    }
  }

  /** The normal form of such a prompt is the prompt in small letters. */
  lemma NormOfPrompt(s: string)
    requires IsPrompt(s)
    ensures Norm(s) == Lower(s)
  {
    StripPlain(s);
    LowerIsTidy(s);
    CollapseOfTidy(Lower(s));
  }

  lemma TrailingBlank(s: string)
    requires IsPrompt(s)
    ensures Norm(s + " ") == Lower(s)
  {
    NormOfPrompt(s);
    StripPlain(s);
    StripPlain(s + " ");
    LowerAppend(s, " ");
    assert Lower(" ") == " " && Fields(" ") == [];
    CollapseAppend(Lower(s), " ");
  }

  lemma DatasetIsWord(dataset: string)
    requires ValidDatasetName(dataset)
    ensures IsWord(dataset + "':") && IsPlain(dataset + "':")
  {
    forall i | 0 <= i < |dataset| ensures !IsSpace(dataset[i]) && dataset[i] != ESC {
      assert IsNameChar(dataset[i]);
    }
  }

  lemma PassphraseIsPrompt(dataset: string)
    requires ValidDatasetName(dataset)
    ensures IsPrompt(PassphraseFor(dataset))
  {
    DatasetIsWord(dataset);
    PhraseIsPrompt(["Enter", "passphrase", "for", "'"], PASSPHRASE_FOR);
    TidyAppend(PASSPHRASE_FOR, dataset + "':");
  }

  lemma LongerIsNotContained(a: string, b: string)
    requires IsPrompt(b) && |b| > |a|
    ensures !Contains(Norm(a), Norm(b))
  {
    CollapseIsNotLonger(Lower(Strip(a)));
    NormOfPrompt(b);
  }

  /** A blank is nowhere followed by the letter a. */
  predicate NoBlankThenA(s: string) {
    forall k :: 0 < k < |s| && s[k - 1] == ' ' ==> s[k] != 'a' && s[k] != 'A'
  }

  lemma BlankThenAIsNotContained(s: string, needle: string, p: nat)
    requires Contains(Lower(s), needle)
    requires p + 1 < |needle| && needle[p] == ' ' && needle[p + 1] == 'a'
    ensures !NoBlankThenA(s)
  {
    var hay := Lower(s);
    var i :| 0 <= i <= |hay| && OccursAt(hay, needle, i);
    var k := i + p + 1;
    assert hay[i..i + |needle|][p] == hay[k - 1] && hay[i..i + |needle|][p + 1] == hay[k];
    assert hay[k - 1] == LowerChar(s[k - 1]) && hay[k] == LowerChar(s[k]);
    assert s[k - 1] == ' ' && (s[k] == 'a' || s[k] == 'A');
  }

  /** "enter again:" has a blank with an "a" after it; the passphrase prompt has none, whatever the
      dataset is called. */
  lemma AgainIsNotInPassphrase(dataset: string)
    requires ValidDatasetName(dataset)
    ensures !Contains(Lower(PassphraseFor(dataset)), "enter again:")
  {
    DatasetIsWord(dataset);
    var s := PassphraseFor(dataset);
    assert NoBlankThenA(PASSPHRASE_FOR);
    assert PASSPHRASE_FOR[|PASSPHRASE_FOR| - 1] == '\'';
    assert forall k :: 0 <= k < |PASSPHRASE_FOR| ==> s[k] == PASSPHRASE_FOR[k];
    assert forall k :: |PASSPHRASE_FOR| <= k < |s| ==> s[k] == (dataset + "':")[k - |PASSPHRASE_FOR|];
    assert NoBlankThenA(s);
    if Contains(Lower(s), "enter again:") {
      BlankThenAIsNotContained(s, "enter again:", 5);
    }
  }

  lemma FixedPrompts(action: Action)
    requires action in TABLE && action.script.Fixed?
    ensures || action.script.prompts == ["New Password:", "Re-enter new Password:"]
            || action.script.prompts == ["New SMB password:", "Retype new SMB password:"]
            || action.script.prompts == ["New password:", "Retype password:"]
  {
  }

  /** At most two prompts, the second not contained in the first. */
  predicate AreDistinct(prompts: seq<string>) {
    |prompts| <= 2 && (|prompts| == 2 ==> !Contains(Norm(prompts[0]), Norm(prompts[1])))
  }

  lemma FixedPromptsAreDistinct(action: Action)
    requires action in TABLE && action.script.Fixed?
    ensures AreDistinct(action.script.prompts)
  {
    FixedPrompts(action);
    PasswdPrompt();
    SmbPrompt();
    KsmbdPrompt();
    LongerIsNotContained(action.script.prompts[0], action.script.prompts[1]);
  }

  /** Words with single blanks between them are written as a prompt is. */
  lemma PhraseIsPrompt(words: seq<string>, s: string)
    requires forall i :: 0 <= i < |words| ==> IsWord(words[i]) && IsPlain(words[i])
    requires s == Join(words)
    ensures IsPrompt(s)
  {
    JoinIsTidy(words);
    JoinChars(words);
    forall i | 0 <= i < |s| ensures s[i] != ESC {
      assert s[i] in Join(words);
    }
  }

  lemma PasswdPrompt()
    ensures IsPrompt("Re-enter new Password:")
  {
    PhraseIsPrompt(["Re-enter", "new", "Password:"], "Re-enter new Password:");
  }

  lemma SmbPrompt()
    ensures IsPrompt("Retype new SMB password:")
  {
    PhraseIsPrompt(["Retype", "new", "SMB", "password:"], "Retype new SMB password:");
  }

  lemma KsmbdPrompt()
    ensures IsPrompt("Retype password:")
  {
    PhraseIsPrompt(["Retype", "password:"], "Retype password:");
  }

  lemma WindowsPrompt()
    ensures IsPrompt("Re-enter new passphrase:")
  {
    PhraseIsPrompt(["Re-enter", "new", "passphrase:"], "Re-enter new passphrase:");
  }

  lemma UnixPrompt()
    ensures IsPrompt("Re-enter passphrase:")
  {
    PhraseIsPrompt(["Re-enter", "passphrase:"], "Re-enter passphrase:");
  }

  lemma TrailingBlankIs(s: string, u: string, t: string)
    requires IsPrompt(s) && u == s + " "
    requires |s| == |t| && forall i :: 0 <= i < |s| ==> t[i] == LowerChar(s[i])
    ensures Norm(u) == t
  {
    TrailingBlank(s);
    assert Lower(s) == t;
  }

  lemma AgainPrompt()
    ensures Norm("Enter again: ") == "enter again:"
  {
    PhraseIsPrompt(["Enter", "again:"], "Enter again:");
    TrailingBlankIs("Enter again:", "Enter again: ", "enter again:");
  }

  lemma CreatePromptsAreDistinct(platform: Platform, args: seq<string>)
    requires ResolveCreate(platform, args).Some?
    ensures AreDistinct(ResolveCreate(platform, args).value.prompts)
  {
    match platform
    case Solaris =>
      PassphraseIsPrompt(args[0]);
      TrailingBlank(PassphraseFor(args[0]));
      AgainPrompt();
      AgainIsNotInPassphrase(args[0]);
    case Windows =>
      WindowsPrompt();
      LongerIsNotContained("Enter new passphrase:", "Re-enter new passphrase:");
    case OtherUnix =>
      UnixPrompt();
      LongerIsNotContained("Enter passphrase:", "Re-enter passphrase:");
  }

  lemma UnlockPromptsAreDistinct(platform: Platform, args: seq<string>)
    requires ResolveUnlock(platform, args).Some?
    ensures AreDistinct(ResolveUnlock(platform, args).value.prompts)
  {
  }

  lemma FixedKeepsPrompts(action: Action, platform: Platform, args: seq<string>)
    requires action.script.Fixed? && Resolve(action, platform, args).Some?
    ensures Resolve(action, platform, args).value.prompts == action.script.prompts
  {
  }

  /** On every platform, for every action and every accepted argument list, no later prompt's
      normal form is a substring of an earlier one's. */
  lemma PromptsAreDistinct(action: Action, platform: Platform, args: seq<string>)
    requires action in TABLE && Resolve(action, platform, args).Some?
    ensures var prompts := Resolve(action, platform, args).value.prompts;
            forall i, j :: 0 <= i < j < |prompts| ==> !Contains(Norm(prompts[i]), Norm(prompts[j]))
  {
    var script := action.script;
    if script.Fixed? {
      FixedPromptsAreDistinct(action);
      FixedKeepsPrompts(action, platform, args);
    } else if script.ZfsCreate? {
      CreatePromptsAreDistinct(platform, args);
    } else {
      UnlockPromptsAreDistinct(platform, args);
    }
    assert AreDistinct(Resolve(action, platform, args).value.prompts);
  }

  /** So output that shows nothing but an earlier prompt, in any case and spacing and with escapes
      anywhere, does not answer for a later one. */
  lemma PromptAloneIsNotNext(action: Action, platform: Platform, args: seq<string>, output: string, i: nat, j: nat)
    requires action in TABLE && Resolve(action, platform, args).Some?
    requires i < j < |Resolve(action, platform, args).value.prompts|
    requires Norm(output) == Norm(Resolve(action, platform, args).value.prompts[i])
    ensures !Has(output, Resolve(action, platform, args).value.prompts[j])
  {
    PromptsAreDistinct(action, platform, args);
  }
}
