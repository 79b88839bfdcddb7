/** Small operations on ASCII text. */
module Text {
  import opened Prelude

  predicate IsSpace(c: char) {
    c == ' ' || 0x09 as char <= c <= 0x0D as char
  }

  predicate IsDigit(c: char) {
    '0' <= c <= '9'
  }

  function TrimSpace(s: string): string {
    if s != "" && IsSpace(s[0]) then TrimSpace(s[1..])
    else if s != "" && IsSpace(s[|s| - 1]) then TrimSpace(s[..|s| - 1])
    else s
  }

  /** The lines of s, split at every line feed; there is always at least one. */
  function Lines(s: string): (lines: seq<string>)
    ensures lines != []
  {
    if s == "" then [""]
    else
      var rest := Lines(s[1..]);
      if s[0] == '\n' then [""] + rest else [[s[0]] + rest[0]] + rest[1..]
  }

  /** What stands before and after the first '=' of a line. */
  function Cut(s: string): Option<(string, string)> {
    if s == "" then None
    else if s[0] == '=' then Some(("", s[1..]))
    else
      match Cut(s[1..])
      case None => None
      case Some((k, v)) => Some(([s[0]] + k, v))
  }

  lemma {:induction false} LinesOf(line: string, rest: string)
    requires '\n' !in line
    ensures Lines(line) == [line]
    ensures Lines(line + "\n" + rest) == [line] + Lines(rest)
  {
    var s := line + "\n" + rest;
    if line == "" {
      assert s[1..] == rest;
    } else {
      assert line == [line[0]] + line[1..];
      assert s[1..] == line[1..] + "\n" + rest;
      LinesOf(line[1..], rest);
    }
  }

  lemma {:induction false} CutAt(key: string, value: string)
    requires '=' !in key
    ensures Cut(key + "=" + value) == Some((key, value))
    ensures Cut(key) == None
  {
    var s := key + "=" + value;
    if key == "" {
      assert s[1..] == value;
    } else {
      assert key == [key[0]] + key[1..];
      assert s[1..] == key[1..] + "=" + value;
      CutAt(key[1..], value);
    }
  }

  // ----- Decimal numbers -----

  const MAX_UINT64: nat := 0xFFFF_FFFF_FFFF_FFFF

  function Digits(n: nat): (s: string)
    ensures s != "" && forall i :: 0 <= i < |s| ==> IsDigit(s[i])
  {
    if n < 10 then ['0' + n as char] else Digits(n / 10) + ['0' + (n % 10) as char]
  }

  function PrintInt(n: int): string {
    if n < 0 then "-" + Digits(-n) else Digits(n)
  }

  datatype Scan = Value(n: nat) | NotANumber | TooBig

  /** Reads digits from the left into a 64-bit unsigned number; whichever trouble comes first,
      overflow or a character that is no digit, is reported. */
  function ScanUint(s: string, sofar: nat): Scan {
    if s == "" then Value(sofar)
    else if !IsDigit(s[0]) then NotANumber
    else
      var next := sofar * 10 + (s[0] as int - '0' as int);
      if next > MAX_UINT64 then TooBig else ScanUint(s[1..], next)
  }

  /** The number a decimal text stands for; 0 if it is none, the nearest 64-bit number if it is out
      of range. */
  function ParseInt(s: string): (n: int)
    ensures IsInt64(n)
  {
    if s == "" then 0
    else
      var negative := s[0] == '-';
      var digits := if negative || s[0] == '+' then s[1..] else s;
      if digits == "" then 0
      else
        match ScanUint(digits, 0)
        case NotANumber => 0
        case TooBig => if negative then MIN_INT64 else MAX_INT64
        case Value(n) =>
          var signed: int := if negative then -(n as int) else n as int;
          if signed < MIN_INT64 then MIN_INT64 else if signed > MAX_INT64 then MAX_INT64 else signed
  }

  lemma {:induction false} ScanAppend(a: string, b: string, sofar: nat)
    ensures ScanUint(a + b, sofar) ==
            match ScanUint(a, sofar) {
              case Value(n) => ScanUint(b, n)
              case other => other
            }
    decreases |a|
  {
    if a == "" {
      assert a + b == b;
    } else {
      assert (a + b)[1..] == a[1..] + b;
      if IsDigit(a[0]) {
        var next := sofar * 10 + (a[0] as int - '0' as int);
        if next <= MAX_UINT64 {
          ScanAppend(a[1..], b, next);
        }
      }
    }
  }

  /** The value of a text of digits by their places. */
  function Decimal(s: string): nat
    requires forall i :: 0 <= i < |s| ==> IsDigit(s[i])
  {
    if s == "" then 0
    else
      assert IsDigit(s[|s| - 1]);
      Decimal(s[..|s| - 1]) * 10 + (s[|s| - 1] as int - '0' as int)
  }

  lemma {:induction false} ScanIsDecimal(s: string)
    requires forall i :: 0 <= i < |s| ==> IsDigit(s[i])
    ensures ScanUint(s, 0) == if Decimal(s) > MAX_UINT64 then TooBig else Value(Decimal(s))
    decreases |s|
  {
    if s == "" {
    } else {
      var front, c := s[..|s| - 1], s[|s| - 1];
      ScanIsDecimal(front);
      ScanAppend(front, [c], 0);
      assert s == front + [c] && [c][1..] == "";
    }
  }

  function Clamp(n: int): int {
    if n < MIN_INT64 then MIN_INT64 else if n > MAX_INT64 then MAX_INT64 else n
  }

  /** Digits with or without a sign parse as their value, or as the nearest 64-bit number. */
  lemma ParseIntClamps(sign: string, s: string)
    requires sign == "" || sign == "+" || sign == "-"
    requires s != "" && forall i :: 0 <= i < |s| ==> IsDigit(s[i])
    ensures var value: int := Decimal(s);
            ParseInt(sign + s) == Clamp(if sign == "-" then -value else value)
  {
    ScanIsDecimal(s);
    if sign == "" {
      assert sign + s == s && IsDigit(s[0]);
    } else {
      assert (sign + s)[1..] == s && (sign + s)[0] == sign[0];
    }
  }

  /** A prefix of a printed number reads as a number that is not larger, the whole as the number. */
  lemma {:induction false} ScanDigits(n: nat, k: nat)
    requires n <= MAX_UINT64 && k <= |Digits(n)|
    ensures ScanUint(Digits(n)[..k], 0).Value? && ScanUint(Digits(n)[..k], 0).n <= n
    ensures k == |Digits(n)| ==> ScanUint(Digits(n)[..k], 0) == Value(n)
  {
    var s := Digits(n);
    if n < 10 {
      if k == 1 {
        assert s[..1] == s && s[1..] == "";
      }
    } else {
      var front := Digits(n / 10);
      if k == |s| {
        ScanDigits(n / 10, |front|);
        assert front[..|front|] == front && s[..k] == front + [s[k - 1]];
        ScanAppend(front, [s[k - 1]], 0);
        assert [s[k - 1]][1..] == "";
      } else {
        ScanDigits(n / 10, k);
        assert s[..k] == front[..k];
      }
    }
  }

  lemma IntRoundTrip(n: int)
    requires IsInt64(n)
    ensures ParseInt(PrintInt(n)) == n
  {
    var digits := Digits(if n < 0 then -n else n);
    ScanDigits(if n < 0 then -n else n, |digits|);
    assert digits[..|digits|] == digits;
    assert IsDigit(digits[0]);
    if n < 0 {
      assert ("-" + digits)[1..] == digits;
    }
  }

  lemma PrefixIsNotLarger(n: nat, k: nat)
    requires n <= MAX_INT64 && k <= |Digits(n)|
    ensures 0 <= ParseInt(Digits(n)[..k]) <= n
  {
    ScanDigits(n, k);
    if k > 0 {
      assert IsDigit(Digits(n)[0]);
    }
  }

  // ----- Characters by their codes -----

  /** The white space of ASCII: tab, line feed, vertical tab, form feed, carriage return, blank. */
  predicate IsWhite(c: char) {
    c as int in {9, 10, 11, 12, 13, 32}
  }

  predicate AllWhite(s: string) {
    forall i :: 0 <= i < |s| ==> IsWhite(s[i])
  }

  lemma SpaceIsWhite(c: char)
    ensures IsSpace(c) <==> IsWhite(c)
  {
  }

  /** White space around a text that has none at its ends is taken off, and nothing else. */
  lemma {:induction false} TrimSpaceTakesOff(a: string, t: string, b: string)
    requires AllWhite(a) && AllWhite(b)
    requires t != "" ==> !IsWhite(t[0]) && !IsWhite(t[|t| - 1])
    ensures TrimSpace(a + t + b) == t
    decreases |a| + |b|
  {
    var s := a + t + b;
    if a != "" {
      assert IsWhite(a[0]);
      assert s[1..] == a[1..] + t + b;
      TrimSpaceTakesOff(a[1..], t, b);
    } else if b != "" && t == "" {
      assert IsWhite(b[0]) && s[0] == b[0];
      assert s[1..] == a + t + b[1..];
      TrimSpaceTakesOff(a, t, b[1..]);
    } else if b != "" {
      assert IsWhite(b[|b| - 1]) && s[0] == t[0] && s[|s| - 1] == b[|b| - 1];
      assert s[..|s| - 1] == a + t + b[..|b| - 1];
      TrimSpaceTakesOff(a, t, b[..|b| - 1]);
    } else {
      assert s == t;
    }
  }

  /** The digits of a number have its value by their places. */
  lemma {:induction false} DigitsAreDecimal(n: nat)
    ensures Decimal(Digits(n)) == n
  {
    if n < 10 {
      assert Digits(n)[..0] == "" && Decimal("") == 0;
    } else {
      DigitsAreDecimal(n / 10);
      var s := Digits(n);
      assert s[..|s| - 1] == Digits(n / 10);
    }
  }

  /** A text that stops being a number before it gets too large reads as 0. */
  lemma NoNumberIsZero(sign: string, digits: string, c: char, rest: string)
    requires sign == "" || sign == "+" || sign == "-"
    requires (forall i :: 0 <= i < |digits| ==> IsDigit(digits[i])) && Decimal(digits) < 0x1_0000_0000_0000_0000
    requires !IsDigit(c) && (sign == "" && digits == "" ==> c != '+' && c != '-')
    ensures ParseInt(sign + (digits + ([c] + rest))) == 0
  {
    var s := digits + ([c] + rest);
    ScanIsDecimal(digits);
    ScanAppend(digits, [c] + rest, 0);
    assert ScanUint(s, 0) == NotANumber;
    if sign == "" {
      assert sign + s == s;
      assert digits != "" ==> IsDigit(s[0]);
    } else {
      assert (sign + s)[1..] == s && (sign + s)[0] == sign[0];
    }
  }
}
