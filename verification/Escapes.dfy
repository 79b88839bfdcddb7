/** The escape sequences that prompt matching ignores (expect.go, ansiEscape): control sequences
    and control strings in the sense of sections 5.4 and 5.6 of ECMA-48, and two-character ones.
    A regular expression says which strings are escapes; a scanner finds them. */
module Escapes {
  import opened Prelude

  const ESC: char := 0x1B as char
  const BEL: char := 0x07 as char

  // ----- The regular expression -----

  datatype Regex =
    | Class(members: char -> bool)
    | Cat(first: Regex, second: Regex)
    | Alt(left: Regex, right: Regex)
    | Star(body: Regex)

  /** s is in the language of r. */
  ghost predicate Matches(r: Regex, s: string)
    decreases r, |s|
  {
    match r
    case Class(members) => |s| == 1 && members(s[0])
    case Cat(a, b) => exists i :: 0 <= i <= |s| && Matches(a, s[..i]) && Matches(b, s[i..])
    case Alt(a, b) => Matches(a, s) || Matches(b, s)
    case Star(a) => s == "" || exists i :: 0 < i <= |s| && Matches(a, s[..i]) && Matches(r, s[i..])
  }

  function Char(c: char): Regex {
    Class(x => x == c)
  }

  predicate IsLetter(c: char) {
    'A' <= c <= 'Z' || 'a' <= c <= 'z'
  }

  predicate IsParameter(c: char) {
    '0' <= c <= '9' || c == ';' || c == '?'
  }

  predicate IsStringChar(c: char) {
    c != BEL && c != ESC
  }

  /** \x1b( \[[0-9;?]*[A-Za-z] | \][^\a\x1b]*(\a|\x1b\\) | [A-Za-z] ) */
  function AnsiEscape(): Regex {
    Cat(Char(ESC),
        Alt(Cat(Char('['), Cat(Star(Class(IsParameter)), Class(IsLetter))),
            Alt(Cat(Char(']'), Cat(Star(Class(IsStringChar)), Alt(Char(BEL), StringTerminator()))),
                Class(IsLetter))))
  }

  // ----- The same language, spelled out -----

  predicate AllIn(s: string, p: char -> bool) {
    forall i :: 0 <= i < |s| ==> p(s[i])
  }

  predicate IsControlSequence(s: string) {
    && |s| >= 3 && s[0] == ESC && s[1] == '['
    && AllIn(s[2..|s| - 1], IsParameter) && IsLetter(s[|s| - 1])
  }

  predicate IsControlString(s: string) {
    && |s| >= 3 && s[0] == ESC && s[1] == ']'
    && ((s[|s| - 1] == BEL && AllIn(s[2..|s| - 1], IsStringChar))
        || (|s| >= 4 && s[|s| - 2] == ESC && s[|s| - 1] == '\\' && AllIn(s[2..|s| - 2], IsStringChar)))
  }

  predicate IsShortEscape(s: string) {
    |s| == 2 && s[0] == ESC && IsLetter(s[1])
  }

  predicate IsEscape(s: string) {
    IsControlSequence(s) || IsControlString(s) || IsShortEscape(s)
  }

  lemma {:induction false} StarOfClass(p: char -> bool, s: string)
    ensures Matches(Star(Class(p)), s) <==> AllIn(s, p)
    decreases |s|
  {
    if s == "" {
    } else {
      StarOfClass(p, s[1..]);
      if AllIn(s, p) {
        assert Matches(Class(p), s[..1]);
      }
      if Matches(Star(Class(p)), s) {
        var i :| 0 < i <= |s| && Matches(Class(p), s[..i]) && Matches(Star(Class(p)), s[i..]);
        assert i == 1;
        assert forall k :: 0 < k < |s| ==> s[k] == s[1..][k - 1];
      }
    }
  }

  /** A single expected character in front. */
  lemma CatChar(c: char, r: Regex, s: string)
    ensures Matches(Cat(Char(c), r), s) <==> |s| >= 1 && s[0] == c && Matches(r, s[1..])
  {
    if |s| >= 1 && s[0] == c && Matches(r, s[1..]) {
      assert Matches(Char(c), s[..1]);
    }
    if Matches(Cat(Char(c), r), s) {
      var i :| 0 <= i <= |s| && Matches(Char(c), s[..i]) && Matches(r, s[i..]);
      assert i == 1;
    }
  }

  lemma CatSplit(a: Regex, r: Regex, s: string) returns (i: nat)
    requires Matches(Cat(a, r), s)
    ensures i <= |s| && Matches(a, s[..i]) && Matches(r, s[i..])
  {
    i :| 0 <= i <= |s| && Matches(a, s[..i]) && Matches(r, s[i..]);
  }

  lemma CatJoin(a: Regex, r: Regex, s: string, i: nat)
    requires i <= |s| && Matches(a, s[..i]) && Matches(r, s[i..])
    ensures Matches(Cat(a, r), s)
  {
  }

  lemma CatAlt(a: Regex, b: Regex, c: Regex, s: string)
    ensures Matches(Cat(a, Alt(b, c)), s) <==> Matches(Cat(a, b), s) || Matches(Cat(a, c), s)
  {
  }

  lemma OneCharacter(p: char -> bool, s: string)
    ensures Matches(Class(p), s) <==> |s| == 1 && p(s[0])
  {
  }

  /** A run of characters of one class, and a last one of another. */
  lemma StarThenOne(p: char -> bool, q: char -> bool, s: string)
    ensures Matches(Cat(Star(Class(p)), Class(q)), s) <==> |s| >= 1 && AllIn(s[..|s| - 1], p) && q(s[|s| - 1])
  {
    if Matches(Cat(Star(Class(p)), Class(q)), s) {
      var i := CatSplit(Star(Class(p)), Class(q), s);
      OneCharacter(q, s[i..]);
      StarOfClass(p, s[..i]);
    }
    if |s| >= 1 && AllIn(s[..|s| - 1], p) && q(s[|s| - 1]) {
      OneCharacter(q, s[|s| - 1..]);
      StarOfClass(p, s[..|s| - 1]);
      CatJoin(Star(Class(p)), Class(q), s, |s| - 1);
    }
  }

  lemma ControlSequenceRegex(s: string)
    ensures Matches(Cat(Star(Class(IsParameter)), Class(IsLetter)), s)
       <==> |s| >= 1 && AllIn(s[..|s| - 1], IsParameter) && IsLetter(s[|s| - 1])
  {
    StarThenOne(IsParameter, IsLetter, s);
  }

  function StringTerminator(): Regex {
    Cat(Char(ESC), Char('\\'))
  }

  lemma TerminatorRegex(s: string)
    ensures Matches(StringTerminator(), s) <==> s == [ESC, '\\']
  {
    CatChar(ESC, Char('\\'), s);
  }

  lemma ControlStringRegex(s: string)
    ensures Matches(Cat(Star(Class(IsStringChar)), Alt(Char(BEL), StringTerminator())), s)
       <==> (|s| >= 1 && s[|s| - 1] == BEL && AllIn(s[..|s| - 1], IsStringChar))
            || (|s| >= 2 && s[|s| - 2] == ESC && s[|s| - 1] == '\\' && AllIn(s[..|s| - 2], IsStringChar))
  {
    CatAlt(Star(Class(IsStringChar)), Char(BEL), StringTerminator(), s);
    EndsWithBell(s);
    EndsWithTerminator(s);
  }

  lemma EndsWithBell(s: string)
    ensures Matches(Cat(Star(Class(IsStringChar)), Char(BEL)), s)
       <==> |s| >= 1 && s[|s| - 1] == BEL && AllIn(s[..|s| - 1], IsStringChar)
  {
    StarThenOne(IsStringChar, Char(BEL).members, s);
  }

  lemma EndsWithTerminator(s: string)
    ensures Matches(Cat(Star(Class(IsStringChar)), StringTerminator()), s)
       <==> |s| >= 2 && s[|s| - 2] == ESC && s[|s| - 1] == '\\' && AllIn(s[..|s| - 2], IsStringChar)
  {
    if Matches(Cat(Star(Class(IsStringChar)), StringTerminator()), s) {
      var i := CatSplit(Star(Class(IsStringChar)), StringTerminator(), s);
      TerminatorRegex(s[i..]);
      StarOfClass(IsStringChar, s[..i]);
    }
    if |s| >= 2 && s[|s| - 2] == ESC && s[|s| - 1] == '\\' && AllIn(s[..|s| - 2], IsStringChar) {
      assert s[|s| - 2..] == [s[|s| - 2], s[|s| - 1]];
      TerminatorRegex(s[|s| - 2..]);
      StarOfClass(IsStringChar, s[..|s| - 2]);
      CatJoin(Star(Class(IsStringChar)), StringTerminator(), s, |s| - 2);
    }
  }

  /** The regular expression and the spelled-out language agree on every string. */
  lemma RegexIsEscape(s: string)
    ensures Matches(AnsiEscape(), s) <==> IsEscape(s)
  {
    var sequence := Cat(Star(Class(IsParameter)), Class(IsLetter));
    var controlString := Cat(Star(Class(IsStringChar)), Alt(Char(BEL), StringTerminator()));
    var stringOrShort := Alt(Cat(Char(']'), controlString), Class(IsLetter));
    CatChar(ESC, Alt(Cat(Char('['), sequence), stringOrShort), s);
    if |s| >= 1 && s[0] == ESC {
      var rest := s[1..];
      assert Matches(stringOrShort, rest) <==> Matches(Cat(Char(']'), controlString), rest) || Matches(Class(IsLetter), rest);
      CatChar('[', sequence, rest);
      CatChar(']', controlString, rest);
      if |s| >= 2 {
        assert rest[1..] == s[2..];
        ControlSequenceRegex(s[2..]);
        ControlStringRegex(s[2..]);
        SliceOfDrop(s);
        assert Matches(Cat(Char('['), sequence), rest) <==> IsControlSequence(s);
        assert Matches(Cat(Char(']'), controlString), rest) <==> IsControlString(s);
        assert Matches(Class(IsLetter), rest) <==> IsShortEscape(s);
      }
    }
  }

  lemma LetterEscapes(c: char)
    ensures Matches(AnsiEscape(), [ESC, c]) <==> 65 <= c as int <= 90 || 97 <= c as int <= 122
    ensures Matches(AnsiEscape(), [ESC, '[', c]) <==> 65 <= c as int <= 90 || 97 <= c as int <= 122
  {
    RegexIsEscape([ESC, c]);
    RegexIsEscape([ESC, '[', c]);
    assert [ESC, '[', c][2..2] == "";
  }

  lemma ParameterEscapes(c: char)
    ensures Matches(AnsiEscape(), [ESC, '[', c, 'm']) <==> 48 <= c as int <= 57 || c == ';' || c == '?'
  {
    var s := [ESC, '[', c, 'm'];
    RegexIsEscape(s);
    assert s[2..3] == [c];
    assert AllIn([c], IsParameter) <==> IsParameter(c) by {
      assert [c][0] == c;
    }
  }

  lemma StringEscapes(c: char)
    ensures Matches(AnsiEscape(), [ESC, ']', c, BEL]) <==> c as int != 7 && c as int != 27
    ensures Matches(AnsiEscape(), [ESC, ']', ESC, c]) <==> c == '\\'
  {
    var s, t := [ESC, ']', c, BEL], [ESC, ']', ESC, c];
    RegexIsEscape(s);
    RegexIsEscape(t);
    assert s[2..3] == [c] && t[2..3] == [ESC] && t[2..2] == "";
    assert AllIn([c], IsStringChar) <==> IsStringChar(c) by {
      assert [c][0] == c;
    }
    assert !AllIn([ESC], IsStringChar) by {
      assert [ESC][0] == ESC;
    }
  }

  /** By character codes: what may stand at each place of an escape. */
  lemma EscapeCharacters(c: char)
    ensures var esc := 27 as char;
            var letter := 65 <= c as int <= 90 || 97 <= c as int <= 122;
            && (Matches(AnsiEscape(), [esc, c]) <==> letter)
            && (Matches(AnsiEscape(), [esc, '[', c]) <==> letter)
            && (Matches(AnsiEscape(), [esc, '[', c, 'm']) <==> 48 <= c as int <= 57 || c == ';' || c == '?')
            && (Matches(AnsiEscape(), [esc, ']', c, 7 as char]) <==> c as int != 7 && c as int != 27)
            && (Matches(AnsiEscape(), [esc, ']', esc, c]) <==> c == '\\')
  {
    LetterEscapes(c);
    ParameterEscapes(c);
    StringEscapes(c);
  }

  lemma SliceOfDrop(s: string)
    requires |s| >= 2
    ensures |s| >= 3 ==> s[2..][..|s[2..]| - 1] == s[2..|s| - 1]
    ensures |s| >= 4 ==> s[2..][..|s[2..]| - 2] == s[2..|s| - 2]
  {
  }

  // ----- The scanner -----

  /** Length of the longest prefix of s[from..] whose characters satisfy p, plus from. */
  function Span(s: string, from: nat, p: char -> bool): (end: nat)
    requires from <= |s|
    ensures from <= end <= |s|
    ensures AllIn(s[from..end], p)
    ensures end < |s| ==> !p(s[end])
    decreases |s| - from
  {
    if from < |s| && p(s[from])
    then
      var end := Span(s, from + 1, p);
      assert s[from..end] == [s[from]] + s[from + 1..end];
      end
    else from
  }

  /** Length of the escape that s starts with; 0 if it starts with none. */
  function EscapeLen(s: string): (n: nat)
    ensures n <= |s|
  {
    if |s| < 2 || s[0] != ESC then 0
    else if s[1] == '[' then
      var i := Span(s, 2, IsParameter);
      if i < |s| && IsLetter(s[i]) then i + 1 else 0
    else if s[1] == ']' then
      var i := Span(s, 2, IsStringChar);
      if i < |s| && s[i] == BEL then i + 1
      else if i + 1 < |s| && s[i] == ESC && s[i + 1] == '\\' then i + 2
      else 0
    else if IsLetter(s[1]) then 2 else 0
  }

  /** Where a span ends is fixed by any position that stops it. */
  lemma {:induction false} SpanIs(s: string, from: nat, p: char -> bool, end: nat)
    requires from <= end <= |s| && AllIn(s[from..end], p)
    requires end == |s| || !p(s[end])
    ensures Span(s, from, p) == end
    decreases end - from
  {
    if from == end {
    } else {
      assert p(s[from..end][0]);
      assert s[from + 1..end] == s[from..end][1..];
      SpanIs(s, from + 1, p, end);
    }
  }

  lemma SliceOfPrefix(s: string, n: nat, a: nat, b: nat)
    requires a <= b <= n <= |s|
    ensures s[..n][a..b] == s[a..b]
  {
  }

  /** The scanner finds exactly the escapes; so no escape is a prefix of another. */
  lemma ScannerIsExact(s: string, n: nat)
    requires 0 < n <= |s|
    ensures EscapeLen(s) == n <==> IsEscape(s[..n])
  {
    var e := s[..n];
    if IsControlSequence(e) {
      SliceOfPrefix(s, n, 2, n - 1);
      SpanIs(s, 2, IsParameter, n - 1);
    } else if IsControlString(e) {
      if e[n - 1] == BEL && AllIn(e[2..n - 1], IsStringChar) {
        SliceOfPrefix(s, n, 2, n - 1);
        SpanIs(s, 2, IsStringChar, n - 1);
      } else {
        SliceOfPrefix(s, n, 2, n - 2);
        SpanIs(s, 2, IsStringChar, n - 2);
      }
    } else if EscapeLen(s) == n && !IsShortEscape(e) {
      var i := if s[1] == '[' then Span(s, 2, IsParameter) else Span(s, 2, IsStringChar);
      SliceOfPrefix(s, n, 2, i);
    }
  }

  lemma EscapesArePrefixFree(s: string, m: nat, n: nat)
    requires 0 < m <= |s| && 0 < n <= |s|
    requires IsEscape(s[..m]) && IsEscape(s[..n])
    ensures m == n
  {
    ScannerIsExact(s, m);
    ScannerIsExact(s, n);
  }

  /** s without its escapes. */
  function Strip(s: string): (t: string)
    ensures |t| <= |s|
    decreases |s|
  {
    if s == "" then ""
    else if EscapeLen(s) > 0 then Strip(s[EscapeLen(s)..])
    else [s[0]] + Strip(s[1..])
  }

  // ----- Replacing every match of the regular expression -----

  ghost predicate StartsWithMatch(s: string) {
    exists n :: 0 < n <= |s| && Matches(AnsiEscape(), s[..n])
  }

  /** t is what is left of s after deleting matches from left to right, each as far left as
      possible, choosing any match where there is more than one. */
  ghost predicate Deletes(s: string, t: string)
    decreases |s|
  {
    if s == "" then t == ""
    else if StartsWithMatch(s) then
      exists n :: 0 < n <= |s| && Matches(AnsiEscape(), s[..n]) && Deletes(s[n..], t)
    else t != "" && t[0] == s[0] && Deletes(s[1..], t[1..])
  }

  /** The scanner computes the only result the replacement can have, whichever match a regular
      expression engine prefers. */
  lemma {:induction false} StripIsReplacement(s: string, t: string)
    ensures Deletes(s, t) <==> t == Strip(s)
    decreases |s|
  {
    if s == "" {
    } else {
      forall n | 0 < n <= |s| ensures Matches(AnsiEscape(), s[..n]) <==> EscapeLen(s) == n {
        RegexIsEscape(s[..n]);
        ScannerIsExact(s, n);
      }
      var n := EscapeLen(s);
      if n > 0 {
        assert Matches(AnsiEscape(), s[..n]);
        StripIsReplacement(s[n..], t);
      } else if t != "" {
        StripIsReplacement(s[1..], t[1..]);
      }
    }
  }

  // ----- Escapes inside text are invisible -----

  predicate IsPlain(s: string) {
    forall i :: 0 <= i < |s| ==> s[i] != ESC
  }

  lemma {:induction false} StripPlainPrefix(text: string, rest: string)
    requires IsPlain(text)
    ensures Strip(text + rest) == text + Strip(rest)
    decreases |text|
  {
    if text == "" {
      assert text + rest == rest;
    } else {
      assert (text + rest)[1..] == text[1..] + rest;
      StripPlainPrefix(text[1..], rest);
    }
  }

  lemma StripPlain(text: string)
    requires IsPlain(text)
    ensures Strip(text) == text
  {
    StripPlainPrefix(text, "");
    assert text + "" == text;
  }

  lemma StripEscapePrefix(escape: string, rest: string)
    requires IsEscape(escape)
    ensures Strip(escape + rest) == Strip(rest)
  {
    var s := escape + rest;
    assert s[..|escape|] == escape && s[|escape|..] == rest;
    ScannerIsExact(s, |escape|);
  }

  /** texts[0] escapes[0] texts[1] escapes[1] ... texts[n] */
  function Weave(texts: seq<string>, escapes: seq<string>): string
    requires |texts| == |escapes| + 1
  {
    if escapes == [] then texts[0]
    else texts[0] + (escapes[0] + Weave(texts[1..], escapes[1..]))
  }

  function Concat(texts: seq<string>): string {
    if texts == [] then "" else texts[0] + Concat(texts[1..])
  }

  /** Any number of escapes, put anywhere into plain text, leave no trace. */
  lemma {:induction false} EscapesAreInvisible(texts: seq<string>, escapes: seq<string>)
    requires |texts| == |escapes| + 1
    requires forall i :: 0 <= i < |texts| ==> IsPlain(texts[i])
    requires forall i :: 0 <= i < |escapes| ==> IsEscape(escapes[i])
    ensures Strip(Weave(texts, escapes)) == Concat(texts)
    decreases |escapes|
  {
    if escapes == [] {
      StripPlain(texts[0]);
      assert texts[1..] == [];
    } else {
      var rest := Weave(texts[1..], escapes[1..]);
      StripPlainPrefix(texts[0], escapes[0] + rest);
      StripEscapePrefix(escapes[0], rest);
      EscapesAreInvisible(texts[1..], escapes[1..]);
    }
  }

  /** No escape starts anywhere in s. */
  predicate HasNoEscape(s: string) {
    forall i :: 0 <= i < |s| ==> EscapeLen(s[i..]) == 0
  }

  lemma HasNoEscapeCons(s: string)
    requires s != ""
    ensures HasNoEscape(s) <==> EscapeLen(s) == 0 && HasNoEscape(s[1..])
  {
    assert s[0..] == s;
    assert forall i :: 0 < i < |s| ==> s[i..] == s[1..][i - 1..];
    if EscapeLen(s) == 0 && HasNoEscape(s[1..]) {
      forall i | 0 <= i < |s| ensures EscapeLen(s[i..]) == 0 {
        assert i > 0 ==> EscapeLen(s[1..][i - 1..]) == 0;
      }
    }
    if HasNoEscape(s) {
      forall i | 0 <= i < |s[1..]| ensures EscapeLen(s[1..][i..]) == 0 {
        assert s[1..][i..] == s[i + 1..];
      }
    }
  }

  /** Stripping leaves a text alone exactly when no escape starts in it, and otherwise makes it
      shorter. A lone escape character is harmless. */
  lemma {:induction false} StripFixesIff(s: string)
    ensures Strip(s) == s <==> HasNoEscape(s)
    ensures |Strip(s)| == |s| ==> Strip(s) == s
    decreases |s|
  {
    if s == "" {
    } else {
      HasNoEscapeCons(s);
      StripFixesIff(s[1..]);
      assert s == [s[0]] + s[1..];
    }
  }

  /** So a second stripping changes nothing exactly when the first put no escape together. */
  lemma StripIsIdempotentIff(s: string)
    ensures Strip(Strip(s)) == Strip(s) <==> HasNoEscape(Strip(s))
  {
    StripFixesIff(Strip(s));
  }

  /** Deleting escapes can put a new one together. */
  lemma StripIsNotIdempotent()
    ensures var s := [ESC] + [ESC, '[', 'A'] + ['[', 'B'];
            Strip(s) == [ESC, '[', 'B'] && Strip(Strip(s)) == ""
  {
    var inner := [ESC, '[', 'A'];
    var outer := [ESC, '[', 'B'];
    var s := [ESC] + inner + ['[', 'B'];
    assert IsParameter('A') == false;
    assert EscapeLen(s) == 0;
    assert s[1..] == inner + ['[', 'B'];
    assert IsControlSequence(inner) && IsControlSequence(outer);
    StripEscapePrefix(inner, ['[', 'B']);
    StripPlain(['[', 'B']);
    StripEscapePrefix(outer, "");
    assert outer + "" == outer;
  }

  // ----- Output that grows -----

  /** s is an escape that has begun and not ended. */
  predicate IsPartial(s: string) {
    && |s| >= 1 && s[0] == ESC
    && (|s| == 1
        || (s[1] == '[' && AllIn(s[2..], IsParameter))
        || (s[1] == ']' && AllIn(s[2..], IsStringChar))
        || (s[1] == ']' && |s| >= 3 && s[|s| - 1] == ESC && AllIn(s[2..|s| - 1], IsStringChar)))
  }

  /** After deleting the escapes from left to right, one is still open at the end of s. */
  predicate EndsOpen(s: string)
    decreases |s|
  {
    if s == "" then false
    else if EscapeLen(s) > 0 then EndsOpen(s[EscapeLen(s)..])
    else IsPartial(s) || EndsOpen(s[1..])
  }

  /** A string that completes an open escape. */
  function Closing(s: string): string
    requires IsPartial(s)
  {
    if |s| == 1 then "A"
    else if s[1] == '[' then "A"
    else if AllIn(s[2..], IsStringChar) then [BEL]
    else "\\"
  }

  lemma PartialCloses(s: string)
    requires IsPartial(s)
    ensures IsEscape(s + Closing(s))
  {
    var e := s + Closing(s);
    if |s| >= 2 {
      assert e[2..|s|] == s[2..];
      if Closing(s) == "\\" {
        assert e[2..|e| - 2] == s[2..|s| - 1];
      }
    }
  }

  lemma AllInPart(e: string, p: char -> bool, from: nat, to: nat, s: string)
    requires from <= to <= |e| && AllIn(e[from..to], p)
    requires from <= |s| <= to && s == e[..|s|]
    ensures AllIn(s[from..], p)
  {
    assert forall i :: from <= i < |s| ==> s[i] == e[from..to][i - from];
  }

  /** A proper beginning of an escape is partial. */
  lemma BeginningIsPartial(e: string, n: nat)
    requires IsEscape(e) && 0 < n < |e|
    ensures IsPartial(e[..n])
  {
    var s := e[..n];
    if n >= 2 {
      if IsControlSequence(e) {
        AllInPart(e, IsParameter, 2, |e| - 1, s);
      } else if e[|e| - 1] == BEL && AllIn(e[2..|e| - 1], IsStringChar) {
        AllInPart(e, IsStringChar, 2, |e| - 1, s);
      } else if n < |e| - 1 {
        AllInPart(e, IsStringChar, 2, |e| - 2, s);
      } else {
        AllInPart(e, IsStringChar, 2, |e| - 2, s[..n - 1]);
        assert s[..n - 1][2..] == s[2..n - 1];
      }
    }
  }

  /** Partial means: more characters can make it an escape. */
  lemma PartialIsOpen(s: string)
    requires s != ""
    ensures IsPartial(s) <==> exists t :: t != "" && IsEscape(s + t)
  {
    if IsPartial(s) {
      PartialCloses(s);
      assert Closing(s) != "" && IsEscape(s + Closing(s));
    }
    if t :| t != "" && IsEscape(s + t) {
      BeginningIsPartial(s + t, |s|);
      assert (s + t)[..|s|] == s;
    }
  }

  /** Appending does not change an escape at the front, and starts one only where one is open. */
  lemma EscapeLenAppend(s: string, t: string)
    requires s != "" && (EscapeLen(s) > 0 || !IsPartial(s))
    ensures EscapeLen(s + t) == EscapeLen(s)
  {
    var u := s + t;
    var n := EscapeLen(s);
    if n > 0 {
      ScannerIsExact(s, n);
      assert u[..n] == s[..n];
      ScannerIsExact(u, n);
    } else if EscapeLen(u) > 0 {
      var m := EscapeLen(u);
      ScannerIsExact(u, m);
      if m <= |s| {
        assert u[..m] == s[..m];
        ScannerIsExact(s, m);
      } else {
        assert u[..m] == s + t[..m - |s|];
        PartialIsOpen(s);
      }
    }
  }

  lemma {:induction false} StripAppend(s: string, t: string)
    requires !EndsOpen(s)
    ensures Strip(s + t) == Strip(s) + Strip(t)
    ensures EndsOpen(s + t) == EndsOpen(t)
    decreases |s|
  {
    if s == "" {
      assert s + t == t;
    } else {
      EscapeLenAppend(s, t);
      var n := if EscapeLen(s) > 0 then EscapeLen(s) else 1;
      assert (s + t)[n..] == s[n..] + t;
      StripAppend(s[n..], t);
      if EscapeLen(s) == 0 {
        PartialAppend(s, t);
      }
    }
  }

  lemma PartialAppend(s: string, t: string)
    requires s != "" && !IsPartial(s)
    ensures !IsPartial(s + t)
  {
    if IsPartial(s + t) {
      var close := t + Closing(s + t);
      PartialCloses(s + t);
      assert s + t + Closing(s + t) == s + close;
      assert close != "" && IsEscape(s + close);
      PartialIsOpen(s);
    }
  }

  lemma PartialVanishes(s: string)
    requires IsPartial(s) && EscapeLen(s) == 0
    ensures Strip(s + Closing(s)) == "" && Strip(s) != "" && Strip(s)[0] == ESC
  {
    PartialCloses(s);
    StripEscapePrefix(s + Closing(s), "");
    assert s + Closing(s) + "" == s + Closing(s);
  }

  /** What the scanner passes at once: an escape or one character. */
  function StepLen(s: string): (n: nat)
    requires s != ""
    ensures 0 < n <= |s|
  {
    if EscapeLen(s) > 0 then EscapeLen(s) else 1
  }

  /** What it keeps of that. */
  function Kept(s: string): string
    requires s != ""
  {
    if EscapeLen(s) > 0 then "" else [s[0]]
  }

  lemma StripStepAppend(s: string, t: string)
    requires s != "" && (EscapeLen(s) > 0 || !IsPartial(s))
    ensures Strip(s) == Kept(s) + Strip(s[StepLen(s)..])
    ensures Strip(s + t) == Kept(s) + Strip(s[StepLen(s)..] + t)
  {
    EscapeLenAppend(s, t);
    assert (s + t)[StepLen(s)..] == s[StepLen(s)..] + t;
  }

  /** Output that completes the open escape takes away what was there before: all that is stripped
      text from the escape's beginning on. */
  lemma {:induction false} OpenCanClose(s: string) returns (t: string, lost: string)
    requires EndsOpen(s)
    ensures Strip(s) == Strip(s + t) + lost && lost != "" && lost[0] == ESC
    decreases |s|
  {
    if EscapeLen(s) == 0 && IsPartial(s) {
      t, lost := Closing(s), Strip(s);
      PartialVanishes(s);
    } else {
      t, lost := OpenCanClose(s[StepLen(s)..]);
      StripStepAppend(s, t);
      Associate(Kept(s), Strip(s[StepLen(s)..] + t), lost);
    }
  }

  /** Stripping can be done piece by piece at s exactly when no escape is open at its end. */
  lemma StripDistributesIffClosed(s: string)
    ensures (forall t :: Strip(s + t) == Strip(s) + Strip(t)) <==> !EndsOpen(s)
  {
    if EndsOpen(s) {
      var t, lost := OpenCanClose(s);
      assert |Strip(s + t)| < |Strip(s)|;
    } else {
      forall t ensures Strip(s + t) == Strip(s) + Strip(t) {
        StripAppend(s, t);
      }
    }
  }
}
