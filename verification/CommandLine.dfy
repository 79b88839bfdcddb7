/** Building one Windows command line from a program and its arguments (pty_windows.go, startPTY),
    and taking it apart again by the documented argument rules of the Microsoft C runtime. */
module CommandLine {
  import opened Prelude
  import opened Normal

  const QUOTE: char := '"'
  const SLASH: char := '\\'

  predicate IsBlank(c: char) {
    c == ' ' || c == '\t'
  }

  // ----- Building -----

  predicate NeedsQuotes(p: string) {
    exists i :: 0 <= i < |p| && (IsBlank(p[i]) || p[i] == QUOTE)
  }

  /** Every quote gets a backslash in front. */
  function Escape(p: string): string {
    if p == "" then ""
    else (if p[0] == QUOTE then [SLASH, QUOTE] else [p[0]]) + Escape(p[1..])
  }

  function Quote(p: string): string {
    if NeedsQuotes(p) then [QUOTE] + (Escape(p) + [QUOTE]) else p
  }

  /** The arguments after the program, each with a blank in front. */
  function Tail(args: seq<string>): string {
    if args == [] then "" else " " + (Quote(args[0]) + Tail(args[1..]))
  }

  function Line(parts: seq<string>): string
    requires parts != []
  {
    Quote(parts[0]) + Tail(parts[1..])
  }

  lemma {:induction false} JoinedIsLine(parts: seq<string>, quoted: seq<string>)
    requires parts != [] && |quoted| == |parts|
    requires forall i :: 0 <= i < |parts| ==> quoted[i] == Quote(parts[i])
    ensures Join(quoted) == Line(parts)
  {
    if |parts| > 1 {
      JoinedIsLine(parts[1..], quoted[1..]);
    }
  }

  /** The parts are quoted in place, then joined with blanks. */
  method BuildLine(parts: array<string>) returns (line: string)
    requires parts.Length > 0
    modifies parts
    ensures forall i :: 0 <= i < parts.Length ==> parts[i] == Quote(old(parts[i]))
    ensures line == Line(old(parts[..]))
  {
    ghost var given := parts[..];
    var i := 0;
    while i < parts.Length
      invariant 0 <= i <= parts.Length
      invariant forall k :: 0 <= k < i ==> parts[k] == Quote(given[k])
      invariant forall k :: i <= k < parts.Length ==> parts[k] == given[k]
    {
      if NeedsQuotes(parts[i]) {
        parts[i] := [QUOTE] + (Escape(parts[i]) + [QUOTE]);
      }
      i := i + 1;
    }
    JoinedIsLine(given, parts[..]);
    line := Join(parts[..]);
  }

  // ----- Taking apart -----

  /** Leading backslashes. */
  function Slashes(s: string): (k: nat)
    ensures k <= |s| && (forall i :: 0 <= i < k ==> s[i] == SLASH) && (k < |s| ==> s[k] != SLASH)
  {
    if s != "" && s[0] == SLASH then 1 + Slashes(s[1..]) else 0
  }

  function Run(k: nat): string {
    seq(k, _ => SLASH)
  }

  function Emit(out: string, later: (string, string)): (string, string) {
    (out + later.0, later.1)
  }

  /** The program name: quotes are dropped and protect blanks; a backslash is an ordinary character. */
  function ParseProgram(s: string, quoted: bool): (string, string)
    decreases |s|
  {
    if s == "" then ("", "")
    else if s[0] == QUOTE then ParseProgram(s[1..], !quoted)
    else if !quoted && IsBlank(s[0]) then ("", s[1..])
    else Emit([s[0]], ParseProgram(s[1..], quoted))
  }

  /** One argument, and what follows the blank after it. Backslashes count only before a quote: of an
      even number half remain and the quote delimits, of an odd number half remain and the quote is
      a character. Inside quotes a pair of quotes is one character. */
  function ParseArg(s: string, quoted: bool): (string, string)
    decreases |s|
  {
    var k := Slashes(s);
    if k < |s| && s[k] == QUOTE then
      if k % 2 == 1 then Emit(Run(k / 2) + [QUOTE], ParseArg(s[k + 1..], quoted))
      else if quoted && k + 1 < |s| && s[k + 1] == QUOTE
      then Emit(Run(k / 2) + [QUOTE], ParseArg(s[k + 2..], quoted))
      else Emit(Run(k / 2), ParseArg(s[k + 1..], !quoted))
    else if k > 0 then Emit(Run(k), ParseArg(s[k..], quoted))
    else if s == "" then ("", "")
    else if !quoted && IsBlank(s[0]) then ("", s[1..])
    else Emit([s[0]], ParseArg(s[1..], quoted))
  }

  lemma ParseArgLeavesLess(s: string, quoted: bool)
    ensures |ParseArg(s, quoted).1| <= |s| && (s != "" ==> |ParseArg(s, quoted).1| < |s|)
    decreases |s|
  {
    var k := Slashes(s);
    if k < |s| && s[k] == QUOTE {
      ParseArgLeavesLess(s[k + 1..], quoted);
      ParseArgLeavesLess(s[k + 1..], !quoted);
      if k + 1 < |s| {
        ParseArgLeavesLess(s[k + 2..], quoted);
      }
    } else if k > 0 {
      ParseArgLeavesLess(s[k..], quoted);
    } else if s != "" {
      ParseArgLeavesLess(s[1..], quoted);
    }
  }

  function SkipBlanks(s: string): (t: string)
    ensures |t| <= |s|
  {
    if s != "" && IsBlank(s[0]) then SkipBlanks(s[1..]) else s
  }

  function ParseArgs(s: string): seq<string>
    decreases |s|
  {
    var t := SkipBlanks(s);
    if t == "" then []
    else
      ParseArgLeavesLess(t, false);
      [ParseArg(t, false).0] + ParseArgs(ParseArg(t, false).1)
  }

  function ParseLine(line: string): seq<string> {
    var (program, rest) := ParseProgram(line, false);
    [program] + ParseArgs(rest)
  }

  // ----- Which parts survive -----

  /** No backslash stands directly before a quote or at the end. */
  predicate IsClean(p: string) {
    forall i :: 0 <= i < |p| && p[i] == SLASH ==> i + 1 < |p| && p[i + 1] != QUOTE
  }

  /** Clean up to a final backslash and quote. */
  predicate EndsInSlashQuote(p: string) {
    |p| >= 2 && p[|p| - 2] == SLASH && p[|p| - 1] == QUOTE && IsClean(p[..|p| - 2])
  }

  /** No blank, no tab, no quote. */
  predicate IsBare(p: string) {
    ' ' !in p && '\t' !in p && '"' !in p
  }

  /** The argument is not empty, and bare, clean, or the last one and clean up to a final backslash
      and quote. */
  predicate Survives(p: string, last: bool) {
    p != "" && (IsBare(p) || IsClean(p) || (last && EndsInSlashQuote(p)))
  }

  predicate AllSurvive(args: seq<string>) {
    forall i :: 0 <= i < |args| ==> Survives(args[i], i == |args| - 1)
  }

  // ----- Proof -----

  /** What can follow an argument on the line: nothing, or a blank and more. */
  predicate IsFollow(t: string) {
    t == "" || t[0] == ' '
  }

  function Rest(t: string): string
    requires IsFollow(t)
  {
    if t == "" then "" else t[1..]
  }

  /** The line from inside an argument's quotes on. */
  function Inside(p: string, t: string): string {
    Escape(p) + ([QUOTE] + t)
  }

  lemma SlashesIs(s: string, k: nat)
    requires k <= |s| && (forall i :: 0 <= i < k ==> s[i] == SLASH) && (k < |s| ==> s[k] != SLASH)
    ensures Slashes(s) == k
  {
  }

  lemma {:induction false} EscapeRun(p: string, j: nat)
    requires j <= |p| && forall i :: 0 <= i < j ==> p[i] == SLASH
    ensures Escape(p) == Run(j) + Escape(p[j..])
    decreases j
  {
    if j == 0 {
      assert p[0..] == p;
    } else {
      EscapeRun(p[1..], j - 1);
      assert p[1..][j - 1..] == p[j..];
      assert Run(j) == [SLASH] + Run(j - 1);
    }
  }

  lemma RunSlash(j: nat, s: string)
    ensures Run(j) + ([SLASH] + s) == Run(j + 1) + s
  {
  }

  lemma EscapeHead(p: string)
    requires p != "" && p[0] == QUOTE
    ensures Escape(p) == [SLASH] + ([QUOTE] + Escape(p[1..]))
  {
    assert [SLASH, QUOTE] == [SLASH] + [QUOTE];
    Associate([SLASH], [QUOTE], Escape(p[1..]));
  }

  lemma DropTwice(p: string, j: nat)
    requires j < |p|
    ensures p[j..] != "" && p[j..][0] == p[j] && p[j..][1..] == p[j + 1..]
  {
  }

  lemma EscapeQuote(p: string, j: nat)
    requires j == Slashes(p) && j < |p| && p[j] == QUOTE
    ensures Escape(p) == Run(j + 1) + ([QUOTE] + Escape(p[j + 1..]))
  {
    var q := p[j..];
    EscapeRun(p, j);
    DropTwice(p, j);
    EscapeHead(q);
    RunSlash(j, [QUOTE] + Escape(p[j + 1..]));
  }

  /** The line from inside the quotes, after the argument's leading backslashes. */
  lemma InsideQuote(p: string, t: string, j: nat)
    requires j == Slashes(p) && j < |p| && p[j] == QUOTE
    ensures Inside(p, t) == Run(j + 1) + ([QUOTE] + Inside(p[j + 1..], t))
  {
    EscapeQuote(p, j);
    var later := Escape(p[j + 1..]);
    Associate(Run(j + 1), [QUOTE] + later, [QUOTE] + t);
    Associate([QUOTE], later, [QUOTE] + t);
  }

  lemma InsideEnd(p: string, t: string, j: nat)
    requires j == Slashes(p) == |p|
    ensures Inside(p, t) == Run(j) + ([QUOTE] + t)
  {
    EscapeRun(p, j);
    assert p[j..] == "" && Run(j) + "" == Run(j);
  }

  lemma InsidePlain(p: string, t: string, j: nat)
    requires j == Slashes(p) && j < |p| && p[j] != QUOTE
    ensures Inside(p, t) == Run(j) + ([p[j]] + Inside(p[j + 1..], t))
  {
    EscapeRun(p, j);
    assert p[j..][1..] == p[j + 1..];
    var later := Escape(p[j + 1..]);
    Associate(Run(j), [p[j]] + later, [QUOTE] + t);
    Associate([p[j]], later, [QUOTE] + t);
  }

  /** What k backslashes, a quote, and then s come to. */
  function AtQuote(k: nat, s: string, q: bool): (string, string) {
    if k % 2 == 1 then Emit(Run(k / 2) + [QUOTE], ParseArg(s, q))
    else if q && s != "" && s[0] == QUOTE then Emit(Run(k / 2) + [QUOTE], ParseArg(s[1..], q))
    else Emit(Run(k / 2), ParseArg(s, !q))
  }

  /** The parser on k backslashes and a quote. */
  lemma ParseRunQuote(k: nat, s: string, q: bool)
    ensures ParseArg(Run(k) + ([QUOTE] + s), q) == AtQuote(k, s, q)
  {
    ParseLineAtQuote(Run(k) + ([QUOTE] + s), k, s, q);
  }

  lemma ParseLineAtQuote(line: string, k: nat, s: string, q: bool)
    requires line == Run(k) + ([QUOTE] + s)
    ensures ParseArg(line, q) == AtQuote(k, s, q)
  {
    SlashesIs(line, k);
    assert line[k + 1..] == s;
    if s != "" {
      assert line[k + 2..] == s[1..];
    }
  }

  /** The parser on backslashes before an ordinary character. */
  lemma ParseRunPlain(k: nat, c: char, s: string, q: bool)
    requires c != QUOTE && c != SLASH && (q || !IsBlank(c))
    ensures ParseArg(Run(k) + ([c] + s), q) == Emit(Run(k) + [c], ParseArg(s, q))
  {
    var line := Run(k) + ([c] + s);
    SlashesIs(line, k);
    assert line[k..] == [c] + s;
    SlashesIs([c] + s, 0);
    assert ([c] + s)[1..] == s;
    if k > 0 {
      assert Run(k) + ([c] + ParseArg(s, q).0) == Run(k) + [c] + ParseArg(s, q).0;
    } else {
      assert line == [c] + s && Run(0) + [c] == [c];
    }
  }

  /** The documented rules, one by one. 2n + 1 backslashes and a quote are n backslashes and a quote. */
  lemma OddRule(n: nat, s: string, q: bool)
    ensures ParseArg(Run(2 * n + 1) + (['"'] + s), q) == Emit(Run(n) + ['"'], ParseArg(s, q))
  {
    ParseLineAtQuote(Run(2 * n + 1) + (['"'] + s), 2 * n + 1, s, q);
    HalfOf(n);
  }

  lemma HalfOf(n: nat)
    ensures (2 * n) / 2 == (2 * n + 1) / 2 == n && (2 * n) % 2 == 0 && (2 * n + 1) % 2 == 1
  {
  }

  /** 2n backslashes and a quote are n backslashes and the beginning or end of a quoted part. */
  lemma EvenRule(n: nat, s: string, q: bool)
    requires q && s != "" ==> s[0] != '"'
    ensures ParseArg(Run(2 * n) + (['"'] + s), q) == Emit(Run(n), ParseArg(s, !q))
  {
    ParseLineAtQuote(Run(2 * n) + (['"'] + s), 2 * n, s, q);
    HalfOf(n);
  }

  lemma PairAt(k: nat, s: string)
    requires k % 2 == 0
    ensures AtQuote(k, ['"'] + s, true) == Emit(Run(k / 2) + ['"'], ParseArg(s, true))
  {
    assert (['"'] + s)[1..] == s;
  }

  /** But in a quoted part, before another quote, they are n backslashes and a quote. */
  lemma PairRule(n: nat, s: string)
    ensures ParseArg(Run(2 * n) + (['"'] + (['"'] + s)), true) == Emit(Run(n) + ['"'], ParseArg(s, true))
  {
    var more := ['"'] + s;
    ParseLineAtQuote(Run(2 * n) + (['"'] + more), 2 * n, more, true);
    HalfOf(n);
    PairAt(2 * n, s);
  }

  /** Backslashes before anything else are themselves; a blank or tab is a character inside quotes and
      ends the argument outside. */
  lemma PlainRules(n: nat, c: char, s: string)
    requires c != '"' && c != '\\'
    ensures ParseArg(Run(n) + ([c] + s), true) == Emit(Run(n) + [c], ParseArg(s, true))
    ensures c != ' ' && c != '\t' ==> ParseArg(Run(n) + ([c] + s), false) == Emit(Run(n) + [c], ParseArg(s, false))
    ensures c == ' ' || c == '\t' ==> ParseArg([c] + s, false) == ("", s)
  {
    ParseRunPlain(n, c, s, true);
    if !IsBlank(c) {
      ParseRunPlain(n, c, s, false);
    } else {
      SlashesIs([c] + s, 0);
      assert ([c] + s)[1..] == s;
    }
  }

  /** Blanks and tabs between arguments count for nothing. */
  lemma BlankRule(c: char, s: string)
    requires c == ' ' || c == '\t'
    ensures ParseArgs([c] + s) == ParseArgs(s)
  {
    assert ([c] + s)[1..] == s;
  }

  /** The program's name: a quote begins or ends a quoted part and is dropped, a blank or tab ends the
      name outside quotes, and everything else, backslashes included, is itself. */
  lemma ProgramRules(c: char, s: string, q: bool)
    ensures ParseProgram(['"'] + s, q) == ParseProgram(s, !q)
    ensures !q && (c == ' ' || c == '\t') ==> ParseProgram([c] + s, q) == ("", s)
    ensures c != '"' && (q || (c != ' ' && c != '\t')) ==> ParseProgram([c] + s, q) == Emit([c], ParseProgram(s, q))
  {
    assert (['"'] + s)[1..] == s && ([c] + s)[1..] == s;
  }

  lemma ParseFollow(t: string)
    requires IsFollow(t)
    ensures ParseArg(t, false) == ("", Rest(t))
    ensures ParseArg(t, true).0 == "" || ParseArg(t, true).0[0] == ' '
    ensures t == "" ==> ParseArg(t, true) == ("", "")
    ensures t != "" ==> ParseArg(t, true).0 != ""
  {
    SlashesIs(t, 0);
  }

  /** A part stands in the line unchanged if it has no blank, tab or quote, and between quotes if it
      has; a part without quotes is not changed between them either. */
  lemma PartInLine(p: string)
    ensures IsBare(p) <==> Quote(p) == p
    ensures !IsBare(p) ==> Quote(p) == "\"" + (Escape(p) + "\"")
    ensures '"' !in p ==> Escape(p) == p
  {
    assert NeedsQuotes(p) <==> !IsBare(p);
    if NeedsQuotes(p) {
      EscapeIsNotShorter(p);
    }
    if '"' !in p {
      NoQuoteNoEscape(p);
    }
  }

  lemma {:induction false} EscapeIsNotShorter(p: string)
    ensures |Escape(p)| >= |p|
  {
    if p == "" {
    } else {
      EscapeIsNotShorter(p[1..]);
    }
  }

  // ----- A clean argument comes back -----

  lemma CleanTail(p: string, k: nat)
    requires IsClean(p) && k <= |p|
    ensures IsClean(p[k..])
  {
    assert forall i :: 0 <= i < |p[k..]| ==> p[k..][i] == p[k + i];
  }

  lemma AfterRun(p: string, j: nat)
    requires j == Slashes(p) && j < |p|
    ensures p == Run(j) + [p[j]] + p[j + 1..]
  {
  }

  lemma RunAt(p: string, i: nat)
    requires i < Slashes(p)
    ensures p[i] == SLASH
  {
  }

  lemma CleanStartsBare(p: string)
    requires IsClean(p) && (Slashes(p) == |p| || p[Slashes(p)] == QUOTE)
    ensures Slashes(p) == 0
  {
    if Slashes(p) > 0 {
      RunAt(p, Slashes(p) - 1);
    }
  }

  lemma RunNone(s: (string, string))
    ensures Emit(Run(0), s) == s && Run(0) + [QUOTE] == [QUOTE]
  {
    assert Run(0) == "" && "" + s.0 == s.0;
  }

  lemma ParseEnd(t: string)
    requires IsFollow(t)
    ensures ParseArg(Inside("", t), true) == ("", Rest(t))
  {
    assert Inside("", t) == Run(0) + ([QUOTE] + t);
    ParseRunQuote(0, t, true);
    ParseFollow(t);
    RunNone(("", Rest(t)));
  }

  /** The parser inside the quotes, at the backslashes and the quote that an argument starts with. */
  lemma ParseAtQuote(r: string, t: string, q: bool)
    requires Slashes(r) < |r| && r[Slashes(r)] == QUOTE
    ensures ParseArg(Inside(r, t), q) == AtQuote(Slashes(r) + 1, Inside(r[Slashes(r) + 1..], t), q)
  {
    var j := Slashes(r);
    InsideQuote(r, t, j);
    ParseLineAtQuote(Inside(r, t), j + 1, Inside(r[j + 1..], t), q);
  }

  lemma ParseEscapedQuote(p: string, t: string)
    requires p != "" && p[0] == QUOTE
    ensures ParseArg(Inside(p, t), true) == Emit([QUOTE], ParseArg(Inside(p[1..], t), true))
  {
    SlashesIs(p, 0);
    ParseAtQuote(p, t, true);
    RunNone(ParseArg(Inside(p[1..], t), true));
  }

  lemma ParsePlain(p: string, t: string, j: nat)
    requires j == Slashes(p) && j < |p| && p[j] != QUOTE
    ensures ParseArg(Inside(p, t), true) == Emit(Run(j) + [p[j]], ParseArg(Inside(p[j + 1..], t), true))
  {
    InsidePlain(p, t, j);
    ParseRunPlain(j, p[j], Inside(p[j + 1..], t), true);
  }

  lemma SamePrefix(h: string, x: string, y: string)
    ensures h + x == h + y <==> x == y
  {
    assert (h + x)[|h|..] == x && (h + y)[|h|..] == y;
  }

  /** Reading goes on after an ordinary character, and after an escaped quote, without loss. */
  lemma PlainStep(p: string, t: string, j: nat)
    requires j == Slashes(p) && j < |p| && p[j] != QUOTE
    ensures var (whole, after) := ParseArg(Inside(p, t), true);
            var (later, rest) := ParseArg(Inside(p[j + 1..], t), true);
            (whole == p <==> later == p[j + 1..]) && after == rest
  {
    ParsePlain(p, t, j);
    AfterRun(p, j);
    SamePrefix(Run(j) + [p[j]], ParseArg(Inside(p[j + 1..], t), true).0, p[j + 1..]);
  }

  lemma QuoteStep(p: string, t: string)
    requires p != "" && p[0] == QUOTE
    ensures var (whole, after) := ParseArg(Inside(p, t), true);
            var (later, rest) := ParseArg(Inside(p[1..], t), true);
            (whole == p <==> later == p[1..]) && after == rest
  {
    ParseEscapedQuote(p, t);
    assert p == [QUOTE] + p[1..];
    SamePrefix([QUOTE], ParseArg(Inside(p[1..], t), true).0, p[1..]);
  }

  lemma {:induction false} CleanComesBack(p: string, t: string)
    requires IsClean(p) && IsFollow(t)
    ensures ParseArg(Inside(p, t), true) == (p, Rest(t))
    decreases |p|
  {
    var j := Slashes(p);
    if j == |p| {
      CleanStartsBare(p);
      ParseEnd(t);
    } else {
      CleanTail(p, j + 1);
      CleanComesBack(p[j + 1..], t);
      if p[j] == QUOTE {
        CleanStartsBare(p);
        QuoteStep(p, t);
      } else {
        PlainStep(p, t, j);
      }
    }
  }

  lemma CutBeforeSlashQuote(p: string, k: nat)
    requires EndsInSlashQuote(p) && k <= |p| - 2
    ensures EndsInSlashQuote(p[k..])
  {
    assert p[k..][..|p[k..]| - 2] == p[..|p| - 2][k..];
    CleanTail(p[..|p| - 2], k);
  }

  lemma NotLast(p: string)
    requires IsClean(p) && p != ""
    ensures p[|p| - 1] != SLASH
  {
  }

  /** The backslashes before the final quote are just one. */
  lemma LoneSlashQuote(p: string)
    requires EndsInSlashQuote(p) && Slashes(p) >= |p| - 2
    ensures p == Run(1) + [QUOTE]
  {
    if |p| > 2 {
      RunAt(p, |p| - 3);
      NotLast(p[..|p| - 2]);
    }
  }

  lemma ParseSlashQuote(t: string)
    requires IsFollow(t)
    ensures var p := Run(1) + [QUOTE];
            && (ParseArg(Inside(p, t), true).0 == p <==> t == "")
            && (t == "" ==> ParseArg(Inside(p, t), true).1 == "")
  {
    var p := Run(1) + [QUOTE];
    SlashesIs(p, 1);
    InsideQuote(p, t, 1);
    assert p[2..] == "" && Inside("", t) == [QUOTE] + t;
    ParseRunQuote(2, [QUOTE] + t, true);
    assert ([QUOTE] + t)[1..] == t;
    ParseFollow(t);
  }

  lemma SlashQuoteStartsBare(p: string)
    requires EndsInSlashQuote(p) && Slashes(p) < |p| - 2 && p[Slashes(p)] == QUOTE
    ensures Slashes(p) == 0
  {
    var q := p[..|p| - 2];
    SlashesIs(q, Slashes(p));
    CleanStartsBare(q);
  }

  /** Also one that ends in a backslash and a quote, if it is the last: the pair of quotes it makes
      with the closing one is read as one quote. */
  lemma {:induction false} SlashQuoteComesBack(p: string, t: string)
    requires EndsInSlashQuote(p) && IsFollow(t)
    ensures ParseArg(Inside(p, t), true).0 == p <==> t == ""
    ensures t == "" ==> ParseArg(Inside(p, t), true).1 == ""
    decreases |p|
  {
    var j := Slashes(p);
    if j >= |p| - 2 {
      LoneSlashQuote(p);
      ParseSlashQuote(t);
    } else {
      CutBeforeSlashQuote(p, j + 1);
      SlashQuoteComesBack(p[j + 1..], t);
      if p[j] == QUOTE {
        SlashQuoteStartsBare(p);
        QuoteStep(p, t);
      } else {
        PlainStep(p, t, j);
      }
    }
  }

  // ----- Any other argument does not -----

  /** Nothing but backslashes and quotes. */
  predicate OnlyMarks(w: string) {
    forall i :: 0 <= i < |w| ==> w[i] == SLASH || w[i] == QUOTE
  }

  /** What was read so far is shorter than the marks it should have given. */
  lemma StillBehind(h: string, x: string, v: string, r: string)
    requires |h| < |v| && x != v[|h|..] + r
    ensures h + x != v + r
  {
    assert (v + r)[|h|..] == v[|h|..] + r;
    assert (h + x)[|h|..] == x;
  }

  lemma FollowIsNoMark(h: string, t: string, q: bool, v: string)
    requires IsFollow(t) && OnlyMarks(v) && |h| < |v|
    ensures h + ParseArg(t, q).0 != v
  {
    ParseFollow(t);
    var x := ParseArg(t, q).0;
    if x != "" {
      assert (h + x)[|h|] == ' ';
    }
  }

  lemma PlainIsNoMark(k: nat, c: char, x: string, v: string, r: string)
    requires c != SLASH && c != QUOTE && OnlyMarks(v) && k < |v|
    ensures Run(k) + [c] + x != v + r
  {
    assert (Run(k) + [c] + x)[k] == c;
    assert (v + r)[k] == v[k];
  }

  /** The parser on backslashes before the blank that ends the argument. */
  lemma ParseRunBlank(k: nat, s: string)
    requires s != "" && IsBlank(s[0])
    ensures ParseArg(Run(k) + s, false).0 == Run(k)
  {
    var line := Run(k) + s;
    SlashesIs(line, k);
    SlashesIs(s, 0);
    assert line[k..] == s;
    assert Run(k) + "" == Run(k);
    if k == 0 {
      assert line == s;
    }
  }

  lemma MarksAppend(w: string, r: string)
    requires OnlyMarks(w) && OnlyMarks(r)
    ensures OnlyMarks(w + r)
  {
  }

  lemma MarksFrom(w: string, k: nat)
    requires OnlyMarks(w) && k <= |w|
    ensures OnlyMarks(w[k..])
  {
    assert forall i :: 0 <= i < |w[k..]| ==> w[k..][i] == w[k + i];
  }

  /** The argument's text split after its leading backslashes, or after them and a quote. */
  lemma MarksOfRun(w: string, r: string, k: nat)
    requires OnlyMarks(w) && k <= |r| && OnlyMarks(r[..k])
    ensures OnlyMarks(w + r[..k]) && |w + r[..k]| == |w| + k && w + r == (w + r[..k]) + r[k..]
  {
    MarksAppend(w, r[..k]);
    assert r == r[..k] + r[k..];
    Associate(w, r[..k], r[k..]);
  }

  lemma InsideStartsWithQuote(r: string, t: string)
    ensures Inside(r, t) != "" && (Inside(r, t)[0] == QUOTE <==> r == "")
    ensures r == "" ==> Inside(r, t)[1..] == t
  {
  }

  lemma BehindAtEnd(r: string, w: string, t: string, q: bool)
    requires w != "" && OnlyMarks(w) && IsFollow(t) && Slashes(r) == |r|
    ensures ParseArg(Inside(r, t), q).0 != w + r
  {
    var j := |r|;
    InsideEnd(r, t, j);
    ParseRunQuote(j, t, q);
    MarksAppend(w, r);
    if j % 2 == 1 {
      FollowIsNoMark(Run(j / 2) + [QUOTE], t, q, w + r);
    } else {
      FollowIsNoMark(Run(j / 2), t, !q, w + r);
    }
  }

  /** An odd number of backslashes and the quote read as half of them and the quote. */
  lemma BehindAtMark(r: string, v: string, t: string, q: bool, j: nat)
    requires j == Slashes(r) < |r| && r[j] == QUOTE && j % 2 == 0 && |v| > j + 1
    requires ParseArg(Inside(r[j + 1..], t), q).0 != v[j / 2 + 1..] + r[j + 1..]
    ensures ParseArg(Inside(r, t), q).0 != v + r[j + 1..]
  {
    ParseAtQuote(r, t, q);
    assert (j + 1) / 2 == j / 2;
    StillBehind(Run(j / 2) + [QUOTE], ParseArg(Inside(r[j + 1..], t), q).0, v, r[j + 1..]);
  }

  /** An even number of backslashes, and the quote ends the quoting. */
  lemma BehindAtSwitch(r: string, v: string, t: string, q: bool, j: nat)
    requires j == Slashes(r) < |r| && r[j] == QUOTE && j % 2 == 1 && |v| > j
    requires !q || r[j + 1..] != ""
    requires ParseArg(Inside(r[j + 1..], t), !q).0 != v[(j + 1) / 2..] + r[j + 1..]
    ensures ParseArg(Inside(r, t), q).0 != v + r[j + 1..]
  {
    ParseAtQuote(r, t, q);
    InsideStartsWithQuote(r[j + 1..], t);
    StillBehind(Run((j + 1) / 2), ParseArg(Inside(r[j + 1..], t), !q).0, v, r[j + 1..]);
  }

  lemma PairAtQuote(r: string, t: string, j: nat)
    requires j == Slashes(r) && |r| == j + 1 && r[j] == QUOTE && j % 2 == 1
    ensures ParseArg(Inside(r, t), true) == Emit(Run((j + 1) / 2) + [QUOTE], ParseArg(t, true))
  {
    var later := r[j + 1..];
    ParseAtQuote(r, t, true);
    InsideStartsWithQuote(later, t);
  }

  /** An even number of backslashes, and the quote pairs with the closing one. */
  lemma BehindAtPair(r: string, v: string, t: string, j: nat)
    requires j == Slashes(r) && |r| == j + 1 && r[j] == QUOTE && j % 2 == 1 && |v| > j + 1
    requires OnlyMarks(v) && IsFollow(t)
    ensures ParseArg(Inside(r, t), true).0 != v
  {
    PairAtQuote(r, t, j);
    FollowIsNoMark(Run((j + 1) / 2) + [QUOTE], t, true, v);
  }

  lemma {:induction false} BehindAtQuote(r: string, w: string, t: string, q: bool)
    requires w != "" && OnlyMarks(w) && IsFollow(t) && Slashes(r) < |r| && r[Slashes(r)] == QUOTE
    ensures ParseArg(Inside(r, t), q).0 != w + r
    decreases |r|, 0
  {
    var j := Slashes(r);
    var later, v := r[j + 1..], w + r[..j + 1];
    MarksOfRun(w, r, j + 1);
    if j % 2 == 0 {
      MarksFrom(v, j / 2 + 1);
      NeverCatchesUp(later, v[j / 2 + 1..], t, q);
      BehindAtMark(r, v, t, q, j);
    } else if q && |r| == j + 1 {
      assert v + later == v;
      BehindAtPair(r, v, t, j);
    } else {
      MarksFrom(v, (j + 1) / 2);
      NeverCatchesUp(later, v[(j + 1) / 2..], t, !q);
      BehindAtSwitch(r, v, t, q, j);
    }
  }

  lemma BehindAtPlain(r: string, w: string, t: string, q: bool)
    requires w != "" && OnlyMarks(w) && Slashes(r) < |r| && r[Slashes(r)] != QUOTE
    ensures ParseArg(Inside(r, t), q).0 != w + r
  {
    var j := Slashes(r);
    var c, later := r[j], Inside(r[j + 1..], t);
    InsidePlain(r, t, j);
    if !q && IsBlank(c) {
      ParseRunBlank(j, [c] + later);
    } else {
      ParseRunPlain(j, c, later, q);
      MarksOfRun(w, r, j);
      PlainIsNoMark(j, c, ParseArg(later, q).0, w + r[..j], r[j..]);
    }
  }

  /** Once some marks are missing from what was read, the argument is never read whole. */
  lemma {:induction false} NeverCatchesUp(r: string, w: string, t: string, q: bool)
    requires w != "" && OnlyMarks(w) && IsFollow(t)
    ensures ParseArg(Inside(r, t), q).0 != w + r
    decreases |r|, 1
  {
    var j := Slashes(r);
    if j == |r| {
      BehindAtEnd(r, w, t, q);
    } else if r[j] == QUOTE {
      BehindAtQuote(r, w, t, q);
    } else {
      BehindAtPlain(r, w, t, q);
    }
  }

  lemma CleanAppend(a: string, b: string)
    requires IsClean(a) && IsClean(b)
    ensures IsClean(a + b)
  {
  }

  lemma PartsOf(p: string, a: string)
    requires IsClean(a) && a <= p
    ensures IsClean(p[|a|..]) ==> IsClean(p)
    ensures EndsInSlashQuote(p[|a|..]) ==> EndsInSlashQuote(p)
  {
    var b := p[|a|..];
    assert p == a + b;
    if IsClean(b) {
      CleanAppend(a, b);
    }
    if EndsInSlashQuote(b) {
      CleanAppend(a, b[..|b| - 2]);
      assert p[..|p| - 2] == a + b[..|b| - 2];
    }
  }

  lemma QuoteForSlash(k: nat, x: string, p: string)
    requires k < |p| && p[k] == SLASH
    ensures Run(k) + [QUOTE] + x != p
  {
    assert (Run(k) + [QUOTE] + x)[k] == QUOTE;
  }

  lemma LossAtEnd(p: string, t: string)
    requires p != "" && Slashes(p) == |p| && IsFollow(t)
    ensures ParseArg(Inside(p, t), true).0 != p
  {
    var j := |p|;
    InsideEnd(p, t, j);
    ParseRunQuote(j, t, true);
    if j % 2 == 1 {
      QuoteForSlash(j / 2, ParseArg(t, true).0, p);
    } else {
      FollowIsNoMark(Run(j / 2), t, false, p);
    }
  }

  lemma LossAtMark(p: string, t: string, j: nat)
    requires j == Slashes(p) < |p| && p[j] == QUOTE && j % 2 == 0 && j > 0
    ensures ParseArg(Inside(p, t), true).0 != p
  {
    ParseAtQuote(p, t, true);
    assert (j + 1) / 2 == j / 2;
    QuoteForSlash(j / 2, ParseArg(Inside(p[j + 1..], t), true).0, p);
  }

  lemma TooLong(h: string, x: string, p: string)
    requires |h| == |p| && x != ""
    ensures h + x != p
  {
  }

  lemma LossAtShortPair(p: string, t: string)
    requires |p| == 2 && Slashes(p) == 1 && p[1] == QUOTE && IsFollow(t) && t != ""
    ensures ParseArg(Inside(p, t), true).0 != p
  {
    PairAtQuote(p, t, 1);
    ParseFollow(t);
    TooLong(Run(1) + [QUOTE], ParseArg(t, true).0, p);
  }

  lemma LossAtLongPair(p: string, t: string, j: nat)
    requires j == Slashes(p) && |p| == j + 1 && p[j] == QUOTE && j % 2 == 1 && j > 1
    ensures ParseArg(Inside(p, t), true).0 != p
  {
    PairAtQuote(p, t, j);
    QuoteForSlash((j + 1) / 2, ParseArg(t, true).0, p);
  }

  lemma SplitAt(p: string, k: nat)
    requires k <= |p|
    ensures p == p[..k] + p[k..]
  {
  }

  lemma StartsWithMarks(p: string, j: nat)
    requires j < |p| && p[j] == QUOTE && forall i :: 0 <= i < j ==> p[i] == SLASH
    ensures OnlyMarks(p[..j + 1])
  {
  }

  lemma LossAtSwitch(p: string, t: string, j: nat)
    requires j == Slashes(p) && j + 1 < |p| && p[j] == QUOTE && j % 2 == 1 && IsFollow(t)
    ensures ParseArg(Inside(p, t), true).0 != p
  {
    var v := p[..j + 1];
    SplitAt(p, j + 1);
    StartsWithMarks(p, j);
    MarksFrom(v, (j + 1) / 2);
    NeverCatchesUp(p[j + 1..], v[(j + 1) / 2..], t, false);
    BehindAtSwitch(p, v, t, true, j);
  }

  /** A quoted argument with a backslash before a quote or at its end is read as something else. */
  lemma {:induction false} UncleanIsLost(p: string, t: string)
    requires !IsClean(p) && IsFollow(t) && (t == "" ==> !EndsInSlashQuote(p))
    ensures ParseArg(Inside(p, t), true).0 != p
    decreases |p|
  {
    var j := Slashes(p);
    if j == |p| {
      LossAtEnd(p, t);
    } else if p[j] != QUOTE {
      PartsOf(p, p[..j + 1]);
      UncleanIsLost(p[j + 1..], t);
      PlainStep(p, t, j);
    } else if j == 0 {
      PartsOf(p, [QUOTE]);
      UncleanIsLost(p[1..], t);
      QuoteStep(p, t);
    } else if j % 2 == 0 {
      LossAtMark(p, t, j);
    } else if |p| == j + 1 && j > 1 {
      LossAtLongPair(p, t, j);
    } else if |p| == j + 1 {
      assert p[..|p| - 2] == "";
      LossAtShortPair(p, t);
    } else {
      LossAtSwitch(p, t, j);
    }
  }

  // ----- Whole lines -----

  lemma {:induction false} BareComesBack(p: string, t: string)
    requires !NeedsQuotes(p) && IsFollow(t)
    ensures ParseArg(p + t, false) == (p, Rest(t))
    decreases |p|
  {
    var j := Slashes(p);
    ParseFollow(t);
    if j == |p| {
      BareRunComesBack(p, t);
    } else {
      var later := p[j + 1..];
      assert !NeedsQuotes(later) by {
        assert forall i :: 0 <= i < |later| ==> later[i] == p[j + 1 + i];
      }
      BareComesBack(later, t);
      AfterRun(p, j);
      Associate(Run(j) + [p[j]], later, t);
      Associate(Run(j), [p[j]], later + t);
      ParseRunPlain(j, p[j], later + t, false);
    }
  }

  lemma BareRunComesBack(p: string, t: string)
    requires Slashes(p) == |p| && IsFollow(t)
    ensures ParseArg(p + t, false) == (p, Rest(t))
  {
    var line := p + t;
    SlashesIs(line, |p|);
    ParseFollow(t);
    assert line[|p|..] == t && p == Run(|p|) && p + "" == p;
    if p == "" {
      assert line == t;
    }
  }

  /** One argument of the line. */
  lemma ArgumentRoundTrip(p: string, t: string)
    requires p != "" && IsFollow(t)
    ensures ParseArg(Quote(p) + t, false).0 == p <==> Survives(p, t == "")
    ensures Survives(p, t == "") ==> ParseArg(Quote(p) + t, false).1 == Rest(t)
  {
    assert NeedsQuotes(p) <==> !IsBare(p);
    if !NeedsQuotes(p) {
      BareComesBack(p, t);
    } else {
      OpenQuote(p, t);
      if IsClean(p) {
        CleanComesBack(p, t);
      } else if EndsInSlashQuote(p) {
        SlashQuoteComesBack(p, t);
      } else {
        UncleanIsLost(p, t);
      }
    }
  }

  lemma OpenQuote(p: string, t: string)
    requires NeedsQuotes(p)
    ensures ParseArg(Quote(p) + t, false) == ParseArg(Inside(p, t), true)
  {
    Associate([QUOTE], Escape(p) + [QUOTE], t);
    Associate(Escape(p), [QUOTE], t);
    assert Quote(p) + t == Run(0) + ([QUOTE] + Inside(p, t));
    ParseRunQuote(0, Inside(p, t), false);
    RunNone(ParseArg(Inside(p, t), true));
  }

  lemma TailFollows(args: seq<string>)
    ensures IsFollow(Tail(args)) && (Tail(args) == "" <==> args == [])
    ensures ParseArgs(Rest(Tail(args))) == ParseArgs(Tail(args))
  {
    var t := Tail(args);
    if args != [] {
      assert SkipBlanks(t) == SkipBlanks(t[1..]);
    }
  }

  lemma StartsNoBlank(p: string, t: string)
    requires p != ""
    ensures var s := Quote(p) + t; s != "" && !IsBlank(s[0]) && SkipBlanks(s) == s
  {
    var s := Quote(p) + t;
    assert s[0] == Quote(p)[0];
    if !NeedsQuotes(p) {
      assert p[0] == s[0];
    }
  }

  /** The first argument read. */
  lemma TailStep(args: seq<string>)
    requires args != []
    ensures var s := Quote(args[0]) + Tail(args[1..]);
            ParseArgs(Tail(args)) ==
            if args[0] == "" then ParseArgs(Tail(args[1..]))
            else [ParseArg(s, false).0] + ParseArgs(ParseArg(s, false).1)
  {
    var s := Quote(args[0]) + Tail(args[1..]);
    assert (" " + s)[1..] == s;
    assert SkipBlanks(" " + s) == SkipBlanks(s);
    if args[0] == "" {
      assert s == Tail(args[1..]);
    } else {
      StartsNoBlank(args[0], Tail(args[1..]));
    }
  }

  lemma {:induction false} FirstReadIsNotEmpty(args: seq<string>)
    ensures ParseArgs(Tail(args)) == [] || ParseArgs(Tail(args))[0] != ""
  {
    if args == [] {
    } else {
      TailStep(args);
      TailFollows(args[1..]);
      if args[0] == "" {
        FirstReadIsNotEmpty(args[1..]);
      } else {
        ArgumentIsRead(args[0], Tail(args[1..]));
      }
    }
  }

  lemma ArgumentIsRead(p: string, t: string)
    requires p != "" && IsFollow(t)
    ensures ParseArg(Quote(p) + t, false).0 != ""
  {
    if !NeedsQuotes(p) {
      BareComesBack(p, t);
    } else {
      OpenQuote(p, t);
      var j := Slashes(p);
      if j == |p| {
        InsideEnd(p, t, j);
        ParseRunQuote(j, t, true);
      } else if p[j] == QUOTE {
        ParseAtQuote(p, t, true);
        InsideStartsWithQuote(p[j + 1..], t);
      } else {
        ParsePlain(p, t, j);
      }
    }
  }

  lemma SurvivesFirst(args: seq<string>)
    requires args != []
    ensures AllSurvive(args) <==> Survives(args[0], args[1..] == []) && AllSurvive(args[1..])
  {
    var later := args[1..];
    if AllSurvive(args) {
      forall i | 0 <= i < |later| ensures Survives(later[i], i == |later| - 1) {
        assert Survives(args[i + 1], i + 1 == |args| - 1);
      }
    }
    if Survives(args[0], later == []) && AllSurvive(later) {
      forall i | 0 <= i < |args| ensures Survives(args[i], i == |args| - 1) {
        if i > 0 {
          assert Survives(later[i - 1], i - 1 == |later| - 1);
        }
      }
    }
  }

  lemma ConsIsEqual<T>(x: T, xs: seq<T>, ys: seq<T>)
    requires ys != []
    ensures [x] + xs == ys <==> x == ys[0] && xs == ys[1..]
  {
    assert ys == [ys[0]] + ys[1..];
    assert ([x] + xs)[1..] == xs;
  }

  /** The first argument, if it is not empty, comes back together with the others or not at all. */
  lemma FirstRoundTrip(args: seq<string>)
    requires args != [] && args[0] != ""
    ensures ParseArgs(Tail(args)) == args <==>
            Survives(args[0], args[1..] == []) && ParseArgs(Tail(args[1..])) == args[1..]
  {
    var t := Tail(args[1..]);
    var s := Quote(args[0]) + t;
    TailFollows(args[1..]);
    TailStep(args);
    ArgumentRoundTrip(args[0], t);
    ConsIsEqual(ParseArg(s, false).0, ParseArgs(ParseArg(s, false).1), args);
  }

  lemma {:induction false} ArgumentsRoundTripIff(args: seq<string>)
    ensures ParseArgs(Tail(args)) == args <==> AllSurvive(args)
  {
    if args == [] {
    } else {
      SurvivesFirst(args);
      if args[0] == "" {
        FirstReadIsNotEmpty(args);
      } else {
        ArgumentsRoundTripIff(args[1..]);
        FirstRoundTrip(args);
      }
    }
  }

  lemma ProgramHasNoQuote(s: string, quoted: bool)
    ensures QUOTE !in ParseProgram(s, quoted).0
    decreases |s|
  {
    if s != "" {
      ProgramHasNoQuote(s[1..], quoted);
      ProgramHasNoQuote(s[1..], !quoted);
    }
  }

  lemma {:induction false} ProgramComesBack(p: string, end: string, t: string, quoted: bool)
    requires QUOTE !in p && (!quoted ==> !NeedsQuotes(p)) && IsFollow(t)
    requires end == if quoted then [QUOTE] else ""
    ensures ParseProgram(Escape(p) + (end + t), quoted) == (p, Rest(t))
    decreases |p|
  {
    var line := Escape(p) + (end + t);
    if p == "" {
      assert line == end + t;
      if quoted {
        assert line[1..] == t;
      } else {
        assert line == t;
      }
    } else {
      var later := p[1..];
      assert p == [p[0]] + later;
      assert !quoted ==> !NeedsQuotes(later) by {
        assert forall i :: 0 <= i < |later| ==> later[i] == p[1 + i];
      }
      Associate([p[0]], Escape(later), end + t);
      assert line[1..] == Escape(later) + (end + t);
      ProgramComesBack(later, end, t, quoted);
    }
  }

  lemma {:induction false} NoQuoteNoEscape(p: string)
    requires QUOTE !in p
    ensures Escape(p) == p
  {
    if p == "" {
    } else {
      NoQuoteNoEscape(p[1..]);
    }
  }

  lemma ProgramRoundTrip(p: string, t: string)
    requires IsFollow(t)
    ensures ParseProgram(Quote(p) + t, false).0 == p <==> QUOTE !in p
    ensures QUOTE !in p ==> ParseProgram(Quote(p) + t, false).1 == Rest(t)
  {
    ProgramHasNoQuote(Quote(p) + t, false);
    if QUOTE !in p {
      if NeedsQuotes(p) {
        var line := Quote(p) + t;
        Associate([QUOTE], Escape(p) + [QUOTE], t);
        Associate(Escape(p), [QUOTE], t);
        assert line[1..] == Escape(p) + ([QUOTE] + t);
        ProgramComesBack(p, [QUOTE], t, true);
      } else {
        NoQuoteNoEscape(p);
        assert "" + t == t;
        ProgramComesBack(p, "", t, false);
      }
    }
  }

  /** The command line gives the program its arguments back exactly when the program's name has no
      quote and every argument survives. */
  lemma LineRoundTripIff(parts: seq<string>)
    requires parts != []
    ensures ParseLine(Line(parts)) == parts <==> QUOTE !in parts[0] && AllSurvive(parts[1..])
  {
    var args := parts[1..];
    assert parts == [parts[0]] + args;
    TailFollows(args);
    ProgramRoundTrip(parts[0], Tail(args));
    ArgumentsRoundTripIff(args);
  }

  /** Whatever their backslashes, non-empty arguments without blanks, tabs and quotes are read back. */
  lemma BareArgumentsComeBack(parts: seq<string>)
    requires parts != [] && IsBare(parts[0])
    requires forall i :: 0 < i < |parts| ==> parts[i] != "" && IsBare(parts[i])
    ensures ParseLine(Line(parts)) == parts
  {
    var args := parts[1..];
    forall i | 0 <= i < |args| ensures Survives(args[i], i == |args| - 1) {
      assert args[i] == parts[i + 1];
    }
    LineRoundTripIff(parts);
  }

  /** One that does not: a directory whose name has a blank, written with a final backslash. */
  lemma DirectoryIsLost(program: string, directory: string)
    requires ' ' in directory && directory[|directory| - 1] == SLASH
    ensures ParseLine(Line([program, directory])) != [program, directory]
  {
    LineRoundTripIff([program, directory]);
    assert [program, directory][1..] == [directory];
    assert !Survives(directory, true);
  }
}
