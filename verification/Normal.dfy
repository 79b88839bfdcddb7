/** The normal form in which prompts and markers are compared (expect.go, norm): escapes are
    stripped, letters lowered, and runs of white space become one blank. ASCII only. */
module Normal {
  import opened Prelude
  import opened Escapes
  import opened Text

  function LowerChar(c: char): char {
    if 'A' <= c <= 'Z' then (c as int + 32) as char else c
  }

  function Lower(s: string): (t: string)
    ensures |t| == |s| && forall i :: 0 <= i < |s| ==> t[i] == LowerChar(s[i])
  {
    if s == "" then "" else [LowerChar(s[0])] + Lower(s[1..])
  }

  /** The words of s: maximal runs without white space. */
  function Fields(s: string): (words: seq<string>)
    ensures s != "" && !IsSpace(s[0]) ==> words != []
  {
    if s == "" then []
    else if IsSpace(s[0]) then Fields(s[1..])
    else if |s| > 1 && !IsSpace(s[1]) then
      var rest := Fields(s[1..]);
      [[s[0]] + rest[0]] + rest[1..]
    else [[s[0]]] + Fields(s[1..])
  }

  function Join(words: seq<string>): string {
    if words == [] then ""
    else if |words| == 1 then words[0]
    else words[0] + " " + Join(words[1..])
  }

  function Collapse(s: string): string {
    Join(Fields(s))
  }

  function Norm(s: string): string {
    Collapse(Lower(Strip(s)))
  }

  predicate OccursAt(hay: string, needle: string, i: nat) {
    i + |needle| <= |hay| && hay[i..i + |needle|] == needle
  }

  predicate Contains(hay: string, needle: string) {
    exists i :: 0 <= i <= |hay| && OccursAt(hay, needle, i)
  }

  /** The needle is found in the output. An empty needle is never found. */
  predicate Has(output: string, needle: string) {
    Norm(needle) != "" && Contains(Norm(output), Norm(needle))
  }

  // ----- Words -----

  predicate IsWord(w: string) {
    w != "" && forall i :: 0 <= i < |w| ==> !IsSpace(w[i])
  }

  lemma {:induction false} FieldsAreWords(s: string)
    ensures forall i :: 0 <= i < |Fields(s)| ==> IsWord(Fields(s)[i])
    ensures Fields(s) != [] ==> exists i :: 0 <= i < |s| && !IsSpace(s[i])
    ensures Fields(s) == [] ==> forall i :: 0 <= i < |s| ==> IsSpace(s[i])
  {
    if s == "" {
    } else {
      FieldsAreWords(s[1..]);
      var rest := Fields(s[1..]);
      forall i | 0 <= i < |Fields(s)| ensures IsWord(Fields(s)[i]) {
        if i > 0 && !IsSpace(s[0]) && |s| > 1 && !IsSpace(s[1]) {
          assert Fields(s)[i] == rest[i];
        }
      }
    }
  }

  predicate Glued(a: string, b: string) {
    a != "" && b != "" && !IsSpace(a[|a| - 1]) && !IsSpace(b[0])
  }

  /** Two word lists of which the last word of one runs on in the first word of the other. */
  function Splice(x: seq<string>, y: seq<string>): seq<string>
    requires x != [] && y != []
  {
    x[..|x| - 1] + [x[|x| - 1] + y[0]] + y[1..]
  }

  /** Splicing leaves the front of the first list alone. */
  lemma SpliceCons(c: char, x: seq<string>, y: seq<string>)
    requires x != [] && y != []
    ensures Splice([[c]] + x, y) == [[c]] + Splice(x, y)
    ensures var r := Splice(x, y);
            Splice([[c] + x[0]] + x[1..], y) == [[c] + r[0]] + r[1..]
  {
    if |x| == 1 {
      assert [c] + x[0] + y[0] == [c] + (x[0] + y[0]);
    }
  }

  lemma {:induction false} FieldsGlued(a: string, b: string)
    requires Glued(a, b)
    ensures Fields(a) != [] && Fields(b) != [] && Fields(a + b) == Splice(Fields(a), Fields(b))
    decreases |a|
  {
    var s := a + b;
    assert s[1..] == a[1..] + b;
    if |a| == 1 {
      assert a[1..] + b == b;
    } else {
      FieldsGlued(a[1..], b);
      SpliceCons(a[0], Fields(a[1..]), Fields(b));
    }
  }

  lemma {:induction false} FieldsApart(a: string, b: string)
    requires !Glued(a, b)
    ensures Fields(a + b) == Fields(a) + Fields(b)
    decreases |a|
  {
    if a == "" {
      assert a + b == b;
    } else {
      assert (a + b)[1..] == a[1..] + b;
      FieldsApart(a[1..], b);
    }
  }

  lemma {:induction false} JoinAppend(x: seq<string>, y: seq<string>)
    ensures Join(x + y) == Join(x) + (if x == [] || y == [] then "" else " ") + Join(y)
  {
    if x == [] {
      assert x + y == y;
    } else if y == [] {
      assert x + y == x;
    } else {
      assert (x + y)[1..] == x[1..] + y;
      JoinAppend(x[1..], y);
    }
  }

  lemma {:induction false} JoinSplice(x: seq<string>, y: seq<string>)
    requires x != [] && y != []
    ensures Join(Splice(x, y)) == Join(x) + Join(y)
  {
    var u, v := x[|x| - 1], y[0];
    var front, back := x[..|x| - 1], y[1..];
    assert x == front + [u] && y == [v] + back && Splice(x, y) == front + ([u + v] + back);
    JoinAppend(front, [u]);
    JoinAppend([v], back);
    JoinAppend(front, [u + v] + back);
    JoinAppend([u + v], back);
  }

  /** What goes between the normal forms of two adjacent pieces. */
  function Seam(a: string, b: string): string {
    if Glued(a, b) || Fields(a) == [] || Fields(b) == [] then "" else " "
  }

  /** The normal form of a text made of two pieces. */
  lemma CollapseAppend(a: string, b: string)
    ensures Collapse(a + b) == Collapse(a) + Seam(a, b) + Collapse(b)
  {
    if Glued(a, b) {
      FieldsGlued(a, b);
      JoinSplice(Fields(a), Fields(b));
    } else {
      FieldsApart(a, b);
      JoinAppend(Fields(a), Fields(b));
    }
  }

  lemma LowerAppend(a: string, b: string)
    ensures Lower(a + b) == Lower(a) + Lower(b)
  {
  }

  // ----- Matching survives more output -----

  /** While no escape is open, later output only extends the normal form. */
  lemma NormIsPrefix(s: string, t: string)
    requires !EndsOpen(s)
    ensures Norm(s) <= Norm(s + t)
  {
    StripAppend(s, t);
    LowerAppend(Strip(s), Strip(t));
    CollapseAppend(Lower(Strip(s)), Lower(Strip(t)));
  }

  lemma ContainsInPrefix(hay: string, more: string, needle: string)
    requires Contains(hay, needle) && hay <= more
    ensures Contains(more, needle)
  {
    var i :| 0 <= i <= |hay| && OccursAt(hay, needle, i);
    assert more[i..i + |needle|] == hay[i..i + |needle|];
    assert OccursAt(more, needle, i);
  }

  /** A needle once found stays found under every later append. */
  lemma FoundStaysFound(s: string, t: string, needle: string)
    requires !EndsOpen(s) && Has(s, needle)
    ensures Has(s + t, needle)
  {
    NormIsPrefix(s, t);
    ContainsInPrefix(Norm(s), Norm(s + t), Norm(needle));
  }

  /** With an escape open at the end some output makes s lose even its own text. */
  lemma LosesItself(s: string) returns (t: string)
    requires EndsOpen(s)
    ensures Has(s, s) && !Has(s + t, s)
  {
    var lost;
    t, lost := OpenCanClose(s);
    LowerAppend(Strip(s + t), lost);
    CollapseAppend(Lower(Strip(s + t)), Lower(lost));
    FieldsAreWords(Lower(lost));
    JoinIsTidy(Fields(Lower(lost)));
    assert OccursAt(Norm(s), Norm(s), 0);
  }

  /** What is found stays found, for every needle and every further output, exactly when no escape
      is open at the end. */
  lemma FoundStaysFoundIff(s: string)
    ensures (forall needle, t :: Has(s, needle) ==> Has(s + t, needle)) <==> !EndsOpen(s)
  {
    if EndsOpen(s) {
      var t := LosesItself(s);
      assert !(Has(s, s) ==> Has(s + t, s));
    } else {
      forall needle, t | Has(s, needle) ensures Has(s + t, needle) {
        FoundStaysFound(s, t, needle);
      }
    }
  }

  /** With an escape open at the end a found needle can be lost again. */
  lemma FoundCanBeLost()
    ensures var s := [ESC, ']', 'a'];
            EndsOpen(s) && Has(s, "a") && !Has(s + [BEL], "a")
  {
    var s := [ESC, ']', 'a'];
    assert s[2..] == ['a'];
    assert IsPartial(s);
    SpanIs(s, 2, IsStringChar, 3);
    StripPlain(s[1..]);
    assert Strip(s) == s && Lower(s) == s;
    CollapseOfWord(s);
    StripPlain("a");
    assert Lower("a") == "a";
    CollapseOfWord("a");
    assert OccursAt(s, "a", 2);
    var closed := s + [BEL];
    assert closed[2..3] == ['a'];
    StripEscapePrefix(closed, "");
    assert closed + "" == closed;
  }

  lemma {:induction false} CollapseOfWord(w: string)
    requires IsWord(w)
    ensures Fields(w) == [w] && Collapse(w) == w
  {
    assert w == [w[0]] + w[1..];
    if |w| > 1 {
      CollapseOfWord(w[1..]);
    } else {
      assert w == [w[0]] && Fields(w[1..]) == [];
    }
  }

  // ----- Substrings are kept -----

  lemma CollapseKeepsSubstring(before: string, needle: string, after: string)
    ensures Contains(Collapse(before + needle + after), Collapse(needle))
  {
    CollapseAppend(before, needle);
    CollapseAppend(before + needle, after);
    var hay := Collapse(before + needle + after);
    var i := |Collapse(before) + Seam(before, needle)|;
    assert OccursAt(hay, Collapse(needle), i);
  }

  lemma SameNormIsFound(output: string, before: string, spelling: string, after: string, needle: string)
    requires IsPlain(spelling) && Norm(spelling) == Norm(needle) && Norm(needle) != ""
    requires Strip(output) == before + spelling + after
    ensures Has(output, needle)
  {
    LowerAppend(before + spelling, after);
    LowerAppend(before, spelling);
    StripPlain(spelling);
    CollapseKeepsSubstring(Lower(before), Lower(spelling), Lower(after));
  }

  // ----- The normal form is tidy -----

  predicate IsTidy(s: string) {
    && (s != "" ==> !IsSpace(s[0]) && !IsSpace(s[|s| - 1]))
    && (forall i :: 0 <= i < |s| && IsSpace(s[i]) ==> s[i] == ' ')
    && (forall i :: 0 < i < |s| ==> !(IsSpace(s[i - 1]) && IsSpace(s[i])))
  }

  lemma WordThenTidy(w: string, rest: string)
    requires IsWord(w) && IsTidy(rest) && rest != ""
    ensures IsTidy(w + " " + rest)
  {
    var s := w + " " + rest;
    assert forall i :: 0 <= i < |w| ==> s[i] == w[i];
    assert forall i :: |w| < i < |s| ==> s[i] == rest[i - |w| - 1];
  }

  lemma WordThenFields(w: string, rest: string)
    requires IsWord(w)
    ensures Fields(w + " " + rest) == [w] + Fields(rest)
  {
    CollapseOfWord(w);
    FieldsApart(w + " ", rest);
    FieldsApart(w, " ");
    assert Fields(" ") == [] && [w] + [] == [w];
  }

  lemma {:induction false} JoinIsTidy(words: seq<string>)
    requires forall i :: 0 <= i < |words| ==> IsWord(words[i])
    ensures IsTidy(Join(words)) && Fields(Join(words)) == words
    ensures words != [] ==> Join(words) != ""
  {
    if words == [] {
    } else if |words| == 1 {
      CollapseOfWord(words[0]);
    } else {
      JoinIsTidy(words[1..]);
      WordThenTidy(words[0], Join(words[1..]));
      WordThenFields(words[0], Join(words[1..]));
    }
  }

  lemma {:induction false} JoinChars(words: seq<string>)
    ensures forall c :: c in Join(words) ==> c == ' ' || exists i :: 0 <= i < |words| && c in words[i]
  {
    if |words| > 1 {
      JoinChars(words[1..]);
      forall c | c in Join(words) && c != ' ' ensures exists i :: 0 <= i < |words| && c in words[i] {
        if c !in words[0] {
          var i :| 0 <= i < |words[1..]| && c in words[1..][i];
          assert c in words[i + 1];
        }
      }
    }
  }

  lemma {:induction false} FieldsCharsFrom(s: string)
    ensures forall i, c :: 0 <= i < |Fields(s)| && c in Fields(s)[i] ==> c in s
  {
    if s == "" {
    } else {
      FieldsCharsFrom(s[1..]);
      var words, rest := Fields(s), Fields(s[1..]);
      assert s == [s[0]] + s[1..];
      forall i, c | 0 <= i < |words| && c in words[i] ensures c in s {
        if !IsSpace(s[0]) && |s| > 1 && !IsSpace(s[1]) {
          assert c == s[0] || c in rest[i];
        } else if !IsSpace(s[0]) {
          assert i == 0 || c in rest[i - 1];
        } else {
          assert c in rest[i];
        }
      }
    }
  }

  /** Normal forms have no leading, trailing or doubled blanks, no other white space and no
      capitals, and they keep the words of the stripped, lowered text. */
  lemma NormIsTidy(s: string)
    ensures IsTidy(Norm(s))
    ensures Fields(Norm(s)) == Fields(Lower(Strip(s)))
    ensures forall c :: c in Norm(s) ==> !('A' <= c <= 'Z') && (c == ' ' || c in Lower(Strip(s)))
  {
    var t := Lower(Strip(s));
    FieldsAreWords(t);
    JoinIsTidy(Fields(t));
    forall c | c in Norm(s) ensures !('A' <= c <= 'Z') && (c == ' ' || c in t) {
      CollapseChars(t, c);
      LowerHasNoCapitals(Strip(s), c);
    }
  }

  lemma CollapseChars(t: string, c: char)
    requires c in Collapse(t)
    ensures c == ' ' || c in t
  {
    JoinChars(Fields(t));
    FieldsCharsFrom(t);
  }

  lemma LowerHasNoCapitals(s: string, c: char)
    ensures c in Lower(s) ==> !('A' <= c <= 'Z')
  {
  }

  // ----- Matching by character codes -----

  /** The same letter, capital or small, or the same character. */
  predicate SameLetter(c: char, d: char) {
    || c == d
    || (65 <= c as int <= 90 && d as int == c as int + 32)
    || (65 <= d as int <= 90 && c as int == d as int + 32)
  }

  predicate SameUpToCase(a: string, b: string) {
    |a| == |b| && forall i :: 0 <= i < |a| ==> SameLetter(a[i], b[i])
  }

  lemma LowerIffSame(a: string, b: string)
    ensures Lower(a) == Lower(b) <==> SameUpToCase(a, b)
  {
    forall c, d ensures LowerChar(c) == LowerChar(d) <==> SameLetter(c, d) {
    }
    if Lower(a) == Lower(b) {
      forall i | 0 <= i < |a| ensures SameLetter(a[i], b[i]) {
        assert Lower(a)[i] == Lower(b)[i];
      }
    }
  }

  /** Capital or small does not matter: no matter where, no matter which letters. */
  lemma CaseDoesNotMatter(a: string, b: string)
    requires IsPlain(a) && IsPlain(b) && SameUpToCase(a, b)
    ensures Norm(a) == Norm(b)
  {
    StripPlain(a);
    StripPlain(b);
    LowerIffSame(a, b);
  }

  /** A text without white space and escape characters. */
  predicate IsUnbroken(w: string) {
    forall i :: 0 <= i < |w| ==> !IsWhite(w[i]) && w[i] as int != 27
  }

  lemma NormOfUnbroken(w: string)
    requires IsUnbroken(w)
    ensures Norm(w) == Lower(w) && IsPlain(w)
    ensures w != "" ==> IsWord(Lower(w))
  {
    StripPlain(w);
    forall i | 0 <= i < |w| ensures !IsSpace(Lower(w)[i]) {
      SpaceIsWhite(w[i]);
      SpaceIsWhite(Lower(w)[i]);
    }
    if w == "" {
    } else {
      CollapseOfWord(Lower(w));
    }
  }

  /** And nothing else is overlooked: unbroken texts have the same normal form only if they are the
      same up to case. */
  lemma UnbrokenNormIff(a: string, b: string)
    requires IsUnbroken(a) && IsUnbroken(b)
    ensures Norm(a) == Norm(b) <==> SameUpToCase(a, b)
  {
    NormOfUnbroken(a);
    NormOfUnbroken(b);
    LowerIffSame(a, b);
  }

  predicate StandsAt(output: string, needle: string, i: nat)
    requires i + |needle| <= |output|
  {
    SameUpToCase(output[i..i + |needle|], needle)
  }

  /** In unbroken output an unbroken needle is found exactly where it stands, up to case. */
  lemma UnbrokenIsFoundIff(output: string, needle: string)
    requires IsUnbroken(output) && IsUnbroken(needle) && needle != ""
    ensures Has(output, needle) <==>
            exists i :: 0 <= i <= |output| - |needle| && StandsAt(output, needle, i)
  {
    NormOfUnbroken(output);
    NormOfUnbroken(needle);
    var hay, pin := Lower(output), Lower(needle);
    forall i | 0 <= i <= |output| - |needle|
      ensures StandsAt(output, needle, i) <==> OccursAt(hay, pin, i)
    {
      LowerIffSame(output[i..i + |needle|], needle);
      assert hay[i..i + |needle|] == Lower(output[i..i + |needle|]);
    }
    if i :| 0 <= i <= |hay| && OccursAt(hay, pin, i) {
      assert StandsAt(output, needle, i);
    }
  }

  /** One character: white space all counts alike, letters up to case, all else as it is. */
  lemma CharacterNormIff(c: char, d: char)
    ensures Norm([c]) == Norm([d]) <==> SameLetter(c, d) || (IsWhite(c) && IsWhite(d))
  {
    CharacterNorm(c);
    CharacterNorm(d);
    LowerIffSame([c], [d]);
  }

  lemma CharacterNorm(c: char)
    ensures Norm([c]) == if IsWhite(c) then "" else Lower([c])
    ensures IsWhite(c) ==> Lower([c]) == [c]
  {
    SpaceIsWhite(c);
    StripFixesIff([c]);
    assert Strip([c]) == [c];
    if IsWhite(c) {
      assert Lower([c]) == [c] && [c][1..] == "" && Fields("") == [];
    } else {
      SpaceIsWhite(Lower([c])[0]);
      CollapseOfWord(Lower([c]));
    }
  }

  /** s spells the words: each up to case, white space between them, and perhaps around them. */
  ghost predicate IsSpelling(s: string, words: seq<string>)
    decreases |words|
  {
    if words == [] then AllWhite(s)
    else exists i :: 0 <= i <= |s| - |words[0]| && SpellsFirst(s, words, i)
  }

  ghost predicate SpellsFirst(s: string, words: seq<string>, i: nat)
    requires words != [] && i + |words[0]| <= |s|
    decreases |words|, 0
  {
    var j := i + |words[0]|;
    && AllWhite(s[..i]) && SameUpToCase(s[i..j], words[0])
    && (j == |s| || IsWhite(s[j])) && IsSpelling(s[j..], words[1..])
  }

  predicate AreUnbroken(words: seq<string>) {
    forall i :: 0 <= i < |words| ==> words[i] != "" && IsUnbroken(words[i])
  }

  function LowerAll(words: seq<string>): seq<string> {
    if words == [] then [] else [Lower(words[0])] + LowerAll(words[1..])
  }

  lemma WhiteHasNoWords(g: string)
    requires AllWhite(g)
    ensures Fields(Lower(g)) == [] && IsPlain(g) && (g != "" ==> IsSpace(Lower(g)[|g| - 1]) && IsSpace(Lower(g)[0]))
  {
    forall i | 0 <= i < |g| ensures IsSpace(Lower(g)[i]) && g[i] != ESC {
      SpaceIsWhite(g[i]);
    }
    FieldsAreWords(Lower(g));
  }

  lemma FirstWord(s: string, words: seq<string>) returns (gap: string, spelled: string, rest: string)
    requires words != [] && IsSpelling(s, words)
    ensures s == gap + (spelled + rest) && AllWhite(gap) && SameUpToCase(spelled, words[0])
    ensures (rest == "" || IsWhite(rest[0])) && IsSpelling(rest, words[1..])
  {
    var i :| 0 <= i <= |s| - |words[0]| && SpellsFirst(s, words, i);
    var j := i + |words[0]|;
    gap, spelled, rest := s[..i], s[i..j], s[j..];
  }

  lemma PlainPieces(a: string, b: string, c: string)
    requires IsPlain(a) && IsPlain(b) && IsPlain(c)
    ensures IsPlain(a + (b + c))
  {
  }

  lemma {:induction false} FieldsOfSpelling(s: string, words: seq<string>)
    requires IsSpelling(s, words) && AreUnbroken(words)
    ensures Fields(Lower(s)) == LowerAll(words) && IsPlain(s)
    decreases |words|
  {
    if words == [] {
      WhiteHasNoWords(s);
    } else {
      var gap, spelled, rest := FirstWord(s, words);
      FieldsOfSpelling(rest, words[1..]);
      FieldsOfPieces(gap, spelled, rest, words[0]);
      PlainPieces(gap, spelled, rest);
    }
  }

  lemma SameUpToCaseIsUnbroken(a: string, w: string)
    requires SameUpToCase(a, w) && IsUnbroken(w)
    ensures IsUnbroken(a)
  {
    assert forall i :: 0 <= i < |a| ==> SameLetter(a[i], w[i]);
  }

  lemma FieldsOfPieces(gap: string, spelled: string, rest: string, word: string)
    requires AllWhite(gap) && SameUpToCase(spelled, word) && word != "" && IsUnbroken(word)
    requires rest == "" || IsWhite(rest[0])
    ensures Fields(Lower(gap + (spelled + rest))) == [Lower(word)] + Fields(Lower(rest))
    ensures IsPlain(gap) && IsPlain(spelled)
  {
    WhiteHasNoWords(gap);
    SameUpToCaseIsUnbroken(spelled, word);
    NormOfUnbroken(spelled);
    LowerIffSame(spelled, word);
    LowerAppend(gap, spelled + rest);
    LowerAppend(spelled, rest);
    FieldsApart(Lower(gap), Lower(spelled) + Lower(rest));
    if rest != "" {
      SpaceIsWhite(rest[0]);
    }
    FieldsApart(Lower(spelled), Lower(rest));
    CollapseOfWord(Lower(spelled));
  }

  /** Any spelling of the needle's words, in any case and with any white space, that stands in the
      output once its escapes are gone is found. */
  lemma SpelledNeedleIsFound(output: string, before: string, spelling: string, after: string,
                             needle: string, words: seq<string>)
    requires words != [] && AreUnbroken(words) && IsSpelling(spelling, words) && IsSpelling(needle, words)
    requires Strip(output) == before + spelling + after
    ensures Has(output, needle)
  {
    FieldsOfSpelling(spelling, words);
    FieldsOfSpelling(needle, words);
    StripPlain(spelling);
    StripPlain(needle);
    NormIsTidy(needle);
    assert Norm(needle) != "" by {
      assert Fields("") == [];
    }
    SameNormIsFound(output, before, spelling, after, needle);
  }

  /** Plain output that contains a needle which is not all white space is found to contain it. */
  lemma PlainNeedleIsFound(output: string, before: string, needle: string, after: string)
    requires (forall i :: 0 <= i < |output| ==> output[i] as int != 27) && !AllWhite(needle)
    requires output == before + needle + after
    ensures Has(output, needle)
  {
    StripPlain(output);
    forall i | 0 <= i < |needle| ensures needle[i] != ESC {
      assert needle[i] == output[|before| + i];
    }
    StripPlain(needle);
    NormIsTidy(needle);
    FieldsAreWords(Lower(needle));
    assert Norm(needle) != "" by {
      var i :| 0 <= i < |needle| && !IsWhite(needle[i]);
      SpaceIsWhite(needle[i]);
      SpaceIsWhite(Lower(needle)[i]);
      assert Fields("") == [];
    }
    SameNormIsFound(output, before, needle, after, needle);
  }

  /** Two texts have the same normal form exactly when they have the same words. */
  lemma NormDecidesWords(a: string, b: string)
    ensures Norm(a) == Norm(b) <==> Fields(Lower(Strip(a))) == Fields(Lower(Strip(b)))
  {
    NormIsTidy(a);
    NormIsTidy(b);
  }

  lemma {:induction false} CollapseIsNotLonger(s: string)
    ensures |Collapse(s)| + (if s != "" && IsSpace(s[0]) then 1 else 0) <= |s|
  {
    if s == "" {
    } else {
      CollapseIsNotLonger(s[1..]);
      assert s == [s[0]] + s[1..];
      CollapseAppend([s[0]], s[1..]);
      if IsSpace(s[0]) {
        assert Fields([s[0]]) == [];
      } else {
        CollapseOfWord([s[0]]);
      }
    }
  }

  lemma NormIsFixedByCollapse(s: string)
    ensures Lower(Norm(s)) == Norm(s) && Collapse(Norm(s)) == Norm(s)
  {
    NormIsTidy(s);
    var n := Norm(s);
    forall i | 0 <= i < |n| ensures Lower(n)[i] == n[i] {
      assert n[i] in n;
    }
  }

  /** Normalizing again changes nothing exactly when no escape starts in the normal form. */
  lemma NormIsIdempotentIff(s: string)
    ensures Norm(Norm(s)) == Norm(s) <==> HasNoEscape(Norm(s))
  {
    var n := Norm(s);
    StripFixesIff(n);
    NormIsFixedByCollapse(s);
    CollapseIsNotLonger(Lower(Strip(n)));
  }

  /** In particular when stripping left no escape character behind. */
  lemma NormIsIdempotent(s: string)
    requires IsPlain(Strip(s))
    ensures Norm(Norm(s)) == Norm(s)
  {
    NormIsTidy(s);
    var n := Norm(s);
    forall i | 0 <= i < |n| ensures EscapeLen(n[i..]) == 0 {
      assert n[i] in n;
    }
    NormIsIdempotentIff(s);
  }

  lemma PlainNormIsIdempotent(s: string)
    requires IsPlain(s)
    ensures Norm(Norm(s)) == Norm(s)
  {
    StripPlain(s);
    NormIsIdempotent(s);
  }

  /** Escapes inserted anywhere, even inside a word, do not change the normal form. */
  lemma EscapesDoNotChangeNorm(texts: seq<string>, escapes: seq<string>)
    requires |texts| == |escapes| + 1
    requires forall i :: 0 <= i < |texts| ==> IsPlain(texts[i])
    requires forall i :: 0 <= i < |escapes| ==> Matches(AnsiEscape(), escapes[i])
    ensures Norm(Weave(texts, escapes)) == Norm(Concat(texts))
  {
    forall i | 0 <= i < |escapes| ensures IsEscape(escapes[i]) {
      RegexIsEscape(escapes[i]);
    }
    EscapesAreInvisible(texts, escapes);
    ConcatIsPlain(texts);
    StripPlain(Concat(texts));
  }

  lemma {:induction false} ConcatIsPlain(texts: seq<string>)
    requires forall i :: 0 <= i < |texts| ==> IsPlain(texts[i])
    ensures IsPlain(Concat(texts))
  {
    if texts == [] {
    } else {
      ConcatIsPlain(texts[1..]);
    }
  }
}
