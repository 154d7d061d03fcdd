/**
 * String helpers with the meaning the crawler's Python code relies on:
 * `str.strip()`, the substring test `p in s`, `x.split("\n")[0]` and the
 * base-10 `int(s)` conversion of the thread-count entry.
 */
module Text {
  import opened Wrappers

  /** The characters Python's `str.strip()` treats as whitespace,
      restricted to ASCII: tab, line feed, vertical tab, form feed, carriage
      return (0x09-0x0D), the separators 0x1C-0x1F, and space. */
  predicate IsSpace(c: char) {
    c == ' ' || ('\t' <= c <= '\r') || ('\U{1C}' <= c <= '\U{1F}')
  }

  /** Number of whitespace characters at the start of `s`. */
  function LeadingSpace(s: string): (a: nat)
    ensures a <= |s|
  {
    if |s| > 0 && IsSpace(s[0]) then 1 + LeadingSpace(s[1..]) else 0
  }

  /** The first `LeadingSpace(s)` characters are whitespace, the next one
      is not. */
  lemma {:induction false} LeadingSpaceShape(s: string)
    ensures var a := LeadingSpace(s);
      && (forall i :: 0 <= i < a ==> IsSpace(s[i]))
      && (a < |s| ==> !IsSpace(s[a]))
  {
    if |s| > 0 && IsSpace(s[0]) {
      LeadingSpaceShape(s[1..]);
      assert forall i :: 1 <= i < |s| ==> s[i] == s[1..][i - 1];
    }
  }

  /** Number of whitespace characters at the end of `s`. */
  function TrailingSpace(s: string): (b: nat)
    ensures b <= |s|
  {
    if |s| > 0 && IsSpace(s[|s| - 1]) then 1 + TrailingSpace(s[..|s| - 1]) else 0
  }

  /** The last `TrailingSpace(s)` characters are whitespace, the one before
      them is not. */
  lemma {:induction false} TrailingSpaceShape(s: string)
    ensures var b := TrailingSpace(s);
      && (forall i :: |s| - b <= i < |s| ==> IsSpace(s[i]))
      && (b < |s| ==> !IsSpace(s[|s| - 1 - b]))
  {
    if |s| > 0 && IsSpace(s[|s| - 1]) {
      TrailingSpaceShape(s[..|s| - 1]);
      assert forall i :: 0 <= i < |s| - 1 ==> s[i] == s[..|s| - 1][i];
    }
  }

  /** `s.strip()`: `s` without its leading and trailing whitespace. */
  function Strip(s: string): (r: string)
    ensures |r| <= |s|
  {
    var rest := s[LeadingSpace(s)..];
    rest[..|rest| - TrailingSpace(rest)]
  }

  /** The strip of `s` is the piece of `s` that starts at `LeadingSpace(s)`,
      everything after it is whitespace, and it neither starts nor ends with
      whitespace. */
  lemma StripShape(s: string)
    ensures var r := Strip(s);
      && LeadingSpace(s) + |r| <= |s|
      && r == s[LeadingSpace(s)..LeadingSpace(s) + |r|]
      && (forall i :: LeadingSpace(s) + |r| <= i < |s| ==> IsSpace(s[i]))
      && (r == [] || (!IsSpace(r[0]) && !IsSpace(r[|r| - 1])))
  {
    var a := LeadingSpace(s);
    var rest := s[a..];
    TrailingSpaceShape(rest);
    var r := Strip(s);
    assert r == rest[..|rest| - TrailingSpace(rest)];
    assert r == s[a..a + |r|];
    forall i | a + |r| <= i < |s| ensures IsSpace(s[i]) {
      assert s[i] == rest[i - a];
    }
    if r != [] {
      LeadingSpaceShape(s);
      assert r[0] == s[a];
      assert r[|r| - 1] == rest[|r| - 1];
    }
  }

  /** A string that neither starts nor ends with whitespace is its own strip. */
  lemma StripUnpadded(s: string)
    requires s == [] || (!IsSpace(s[0]) && !IsSpace(s[|s| - 1]))
    ensures Strip(s) == s
  {
    assert LeadingSpace(s) == 0;
    assert TrailingSpace(s) == 0;
  }

  /** Stripping twice is stripping once. */
  lemma StripIdempotent(s: string)
    ensures Strip(Strip(s)) == Strip(s)
  {
    StripShape(s);
    StripUnpadded(Strip(s));
  }

  predicate StartsWith(s: string, p: string) {
    |p| <= |s| && s[..|p|] == p
  }

  /** Python's `p in s` for strings: `p` occurs somewhere in `s`. */
  predicate Contains(s: string, p: string)
    decreases |s|
  {
    StartsWith(s, p) || (|s| > 0 && Contains(s[1..], p))
  }

  /** The position of the first occurrence of `p` in `s` (Python's `s.find(p)`). */
  function FindIndex(s: string, p: string): (i: nat)
    requires Contains(s, p)
    ensures i + |p| <= |s| && s[i..i + |p|] == p
    ensures forall j :: 0 <= j < i ==> !StartsWith(s[j..], p)
    decreases |s|
  {
    if StartsWith(s, p) then 0
    else
      var i := 1 + FindIndex(s[1..], p);
      assert s[i..i + |p|] == s[1..][i - 1..i - 1 + |p|];
      assert forall j :: 1 <= j < i ==> s[j..] == s[1..][j - 1..];
      i
  }

  /** Any occurrence of `p` makes `Contains` true. */
  lemma {:induction false} OccurrenceContains(s: string, p: string, i: nat)
    requires i + |p| <= |s| && s[i..i + |p|] == p
    ensures Contains(s, p)
    decreases i
  {
    if i > 0 {
      assert s[1..][i - 1..i - 1 + |p|] == s[i..i + |p|];
      OccurrenceContains(s[1..], p, i - 1);
    } else {
      assert s[..|p|] == s[0..|p|];
    }
  }

  /** A string that contains `p` contains the first character of `p`. */
  lemma ContainsFirstChar(s: string, p: string)
    requires Contains(s, p) && |p| > 0
    ensures p[0] in s
  {
    var i := FindIndex(s, p);
    assert s[i] == s[i..i + |p|][0];
  }

  /** Stripping cannot remove an occurrence of a pattern that has no
      whitespace in it: the occurrence lies inside the stripped text. */
  lemma StripKeepsOccurrence(s: string, p: string)
    requires Contains(s, p) && |p| > 0
    requires forall k :: 0 <= k < |p| ==> !IsSpace(p[k])
    ensures Contains(Strip(s), p)
  {
    var i := FindIndex(s, p);
    var a := LeadingSpace(s);
    var r := Strip(s);
    assert a + |r| <= |s| && r == s[a..a + |r|]
      && (forall k :: 0 <= k < a ==> IsSpace(s[k]))
      && (forall k :: a + |r| <= k < |s| ==> IsSpace(s[k])) by {
      StripShape(s);
      LeadingSpaceShape(s);
    }
    OccurrenceInsideMargins(s, p, i, a, r);
  }

  /** An occurrence of a whitespace-free pattern in `s` lies inside the part
      `r == s[a..a + |r|]` whose surroundings are all whitespace. */
  lemma OccurrenceInsideMargins(s: string, p: string, i: nat, a: nat, r: string)
    requires i + |p| <= |s| && s[i..i + |p|] == p && |p| > 0
    requires forall k :: 0 <= k < |p| ==> !IsSpace(p[k])
    requires a + |r| <= |s| && r == s[a..a + |r|]
    requires forall k :: 0 <= k < a ==> IsSpace(s[k])
    requires forall k :: a + |r| <= k < |s| ==> IsSpace(s[k])
    ensures a <= i && i + |p| <= a + |r|
    ensures r[i - a..i - a + |p|] == p
    ensures Contains(r, p)
  {
    var last := i + |p| - 1;
    assert s[i] == p[0] by { assert s[i..i + |p|][0] == s[i]; }
    assert s[last] == p[|p| - 1] by { assert s[i..i + |p|][|p| - 1] == s[last]; }
    assert !IsSpace(p[0]) && !IsSpace(p[|p| - 1]);
    assert a <= i;
    assert last < a + |r|;
    var piece := r[i - a..i - a + |p|];
    forall k | 0 <= k < |p|
      ensures piece[k] == p[k]
    {
      calc {
        piece[k];
        r[i - a + k];
        s[i + k];
        s[i..i + |p|][k];
      }
    }
    OccurrenceContains(r, p, i - a);
  }

  /** `x.split("\n")[0]`: the text of `x` before its first line feed. */
  function LineContent(x: string): (r: string)
    ensures |r| <= |x| && r == x[..|r|]
    ensures '\n' !in r
    ensures |r| < |x| ==> x[|r|] == '\n'
  {
    if x == [] || x[0] == '\n' then [] else [x[0]] + LineContent(x[1..])
  }

  /** A line as `readlines()` yields it, with or without its terminator,
      gives back exactly its text. */
  lemma {:induction false} LineContentOfLine(line: string, terminated: bool)
    requires '\n' !in line
    ensures LineContent(if terminated then line + "\n" else line) == line
    decreases |line|
  {
    var x := if terminated then line + "\n" else line;
    if line == [] {
      assert terminated ==> x == "\n";
    } else {
      assert x[0] == line[0];
      assert x[1..] == if terminated then line[1..] + "\n" else line[1..];
      LineContentOfLine(line[1..], terminated);
    }
  }

  predicate IsDigit(c: char) {
    '0' <= c <= '9'
  }

  /** Python's form for the digits of a decimal literal: ASCII digits,
      where single underscores may separate two digits. */
  predicate WellFormedDigits(d: string) {
    |d| > 0 && IsDigit(d[0]) && IsDigit(d[|d| - 1]) &&
    (forall i :: 0 <= i < |d| ==> IsDigit(d[i]) || d[i] == '_') &&
    (forall i :: 0 <= i < |d| - 1 ==> d[i] == '_' ==> d[i + 1] != '_')
  }

  /** The value of a digit string, underscores skipped. */
  function DigitsValue(d: string): nat
    requires forall i :: 0 <= i < |d| ==> IsDigit(d[i]) || d[i] == '_'
  {
    if d == [] then 0
    else if d[|d| - 1] == '_' then DigitsValue(d[..|d| - 1])
    else 10 * DigitsValue(d[..|d| - 1]) + DigitValue(d[|d| - 1])
  }

  /** CPython's default cap (`sys.get_int_max_str_digits()`, from Python
      3.11 on) on the number of digits `int()` converts in base 10; longer
      digit strings raise `ValueError`. */
  const INT_MAX_STR_DIGITS: nat := 4300

  /** The number of digits of `d`; underscores do not count. */
  function DigitCount(d: string): (k: nat)
    ensures k <= |d|
  {
    if d == [] then 0
    else DigitCount(d[..|d| - 1]) + if d[|d| - 1] == '_' then 0 else 1
  }

  /** Without underscores every character is a digit that counts. */
  lemma {:induction false} DigitCountOfDigits(d: string)
    requires forall i :: 0 <= i < |d| ==> IsDigit(d[i])
    ensures DigitCount(d) == |d|
  {
    if d != [] {
      DigitCountOfDigits(d[..|d| - 1]);
    }
  }

  /** Digits `int()` accepts: well formed and within the digit limit. */
  predicate ConvertibleDigits(d: string) {
    WellFormedDigits(d) && DigitCount(d) <= INT_MAX_STR_DIGITS
  }

  function DigitValue(c: char): nat
    requires IsDigit(c)
  {
    c as int - '0' as int
  }

  /** The ASCII characters `int()` skips around a number: tab, line feed,
      vertical tab, form feed, carriage return and space. Unlike `strip()`,
      it does not skip the separators 0x1C-0x1F. */
  predicate IsIntSpace(c: char) {
    c == ' ' || ('\t' <= c <= '\r')
  }

  /** `s` without the `int()` whitespace at either end. */
  function TrimIntSpace(s: string): (r: string)
    ensures |r| <= |s|
    decreases |s|
  {
    if |s| > 0 && IsIntSpace(s[0]) then TrimIntSpace(s[1..])
    else if |s| > 0 && IsIntSpace(s[|s| - 1]) then TrimIntSpace(s[..|s| - 1])
    else s
  }

  /** Number of `int()` whitespace characters at the start of `s`. */
  function LeadingIntSpace(s: string): (a: nat)
    ensures a <= |s|
  {
    if |s| > 0 && IsIntSpace(s[0]) then 1 + LeadingIntSpace(s[1..]) else 0
  }

  /** The trimmed text is the piece of `s` after its leading `int()`
      whitespace; everything around it is such whitespace, and it neither
      starts nor ends with it. */
  lemma {:induction false} TrimIntSpaceShape(s: string)
    ensures var r := TrimIntSpace(s);
      var a := LeadingIntSpace(s);
      && a + |r| <= |s| && r == s[a..a + |r|]
      && (forall k :: 0 <= k < a ==> IsIntSpace(s[k]))
      && (forall k :: a + |r| <= k < |s| ==> IsIntSpace(s[k]))
      && (r != [] ==> !IsIntSpace(r[0]) && !IsIntSpace(r[|r| - 1]))
    decreases |s|
  {
    if |s| > 0 && IsIntSpace(s[0]) {
      var t := s[1..];
      TrimIntSpaceShape(t);
      assert forall k :: 1 <= k < |s| ==> s[k] == t[k - 1];
    } else if |s| > 0 && IsIntSpace(s[|s| - 1]) {
      var t := s[..|s| - 1];
      TrimIntSpaceShape(t);
      assert forall k :: 0 <= k < |t| ==> s[k] == t[k];
    } else {
      assert s[0..|s|] == s;
    }
  }

  /** `int(s)` in base 10: optional surrounding whitespace, an optional sign,
      then well-formed digits within the digit limit; anything else is the
      `ValueError` path. */
  function ParseInt(s: string): Option<int> {
    var body := TrimIntSpace(s);
    if |body| > 0 && (body[0] == '+' || body[0] == '-') then
      if ConvertibleDigits(body[1..]) then
        Some(if body[0] == '-' then -(DigitsValue(body[1..]) as int) else DigitsValue(body[1..]))
      else None
    else if ConvertibleDigits(body) then Some(DigitsValue(body))
    else None
  }

  /** A plain digit string converts exactly when it has at most
      `INT_MAX_STR_DIGITS` digits, leading zeros included. */
  lemma ParseIntDigitLimit(d: string)
    requires |d| > 0 && forall i :: 0 <= i < |d| ==> IsDigit(d[i])
    ensures ParseInt(d).Some? <==> |d| <= INT_MAX_STR_DIGITS
    ensures ParseInt(d).Some? ==> ParseInt(d) == Some(DigitsValue(d))
  {
    assert !IsIntSpace(d[0]) && !IsIntSpace(d[|d| - 1]);
    assert TrimIntSpace(d) == d;
    assert d[0] != '+' && d[0] != '-';
    assert WellFormedDigits(d);
    DigitCountOfDigits(d);
  }

  /** The decimal digits of `n`, most significant first, as `str(n)` prints them. */
  function NatToString(n: nat): (s: string)
    ensures |s| > 0
    ensures forall i :: 0 <= i < |s| ==> IsDigit(s[i])
  {
    if n < 10 then [('0' as int + n) as char]
    else NatToString(n / 10) + [('0' as int + n % 10) as char]
  }

  lemma {:induction false} DigitsValueOfNatToString(n: nat)
    ensures DigitsValue(NatToString(n)) == n
  {
    var s := NatToString(n);
    if n >= 10 {
      DigitsValueOfNatToString(n / 10);
      assert s[..|s| - 1] == NatToString(n / 10);
    } else {
      assert s[..|s| - 1] == [];
    }
  }

  /** Round trip: `int(str(n)) == n` for every natural number of at most
      `INT_MAX_STR_DIGITS` digits; a longer one takes the `ValueError` path. */
  lemma ParseIntOfNatToString(n: nat)
    ensures ParseInt(NatToString(n)) ==
      if |NatToString(n)| <= INT_MAX_STR_DIGITS then Some(n) else None
  {
    ParseIntDigitLimit(NatToString(n));
    DigitsValueOfNatToString(n);
  }

  /** Entries the thread-count field may hold: surrounding blanks are
      accepted, a decimal point or an empty entry are not. */
  lemma ParseIntPadded()
    ensures ParseInt(" 4\n") == Some(4)
  {
    assert " 4\n"[1..] == "4\n";
    assert "4\n"[..1] == "4";
    assert TrimIntSpace(" 4\n") == "4";
  }

  lemma ParseIntRejects()
    ensures ParseInt("") == None
    ensures ParseInt("2.5") == None
  {
    assert TrimIntSpace("2.5") == "2.5";
  }

  /** `int()` does not skip the separator 0x1C that `strip()` removes: an
      entry of 0x1C followed by `4` takes the `ValueError` path, although
      stripping it leaves `4`. */
  lemma ParseIntRejectsSeparator()
    ensures ParseInt("\U{1C}4") == None
    ensures Strip("\U{1C}4") == "4"
  {
    assert TrimIntSpace("\U{1C}4") == "\U{1C}4";
    assert LeadingSpace("\U{1C}4") == 1;
    assert "\U{1C}4"[1..] == "4";
    assert TrailingSpace("4") == 0;
  }

  lemma ParseIntUnderscore()
    ensures ParseInt("1_0") == Some(10)
  {
    assert TrimIntSpace("1_0") == "1_0";
    assert "1_0"[..2] == "1_";
    assert "1_0"[..1] == "1";
    assert "1_"[..1] == "1";
    assert "1"[..0] == "";
  }
}
