/** The few pieces of Python's `str` behaviour the monitor relies on: whitespace
    and `strip()`, substring tests, `splitlines()`, `split(sep)`, ASCII case
    mapping, `int(str)` and the decimal rendering of a count. */
module Text {
  import opened Common

  /** `str.isspace()` for one character; `\s` in a str pattern matches the same set. */
  predicate IsSpace(c: char) {
    c == ' ' || ('\t' <= c <= '\r') || ('\U{1C}' <= c <= '\U{1F}') || c == '\U{85}' || c == '\U{A0}'
    || c == '\U{1680}' || ('\U{2000}' <= c <= '\U{200A}') || c == '\U{2028}' || c == '\U{2029}'
    || c == '\U{202F}' || c == '\U{205F}' || c == '\U{3000}'
  }

  /** The characters at which `str.splitlines()` ends a line ("\r\n" counts once). */
  predicate IsLineBreak(c: char) {
    c == '\n' || c == '\r' || c == '\U{0B}' || c == '\U{0C}' || ('\U{1C}' <= c <= '\U{1E}')
    || c == '\U{85}' || c == '\U{2028}' || c == '\U{2029}'
  }

  predicate IsDigit(c: char) { '0' <= c <= '9' }

  /** True when every character of `s` is whitespace: Python's `not s.strip()`. */
  predicate IsBlank(s: string) { forall i :: 0 <= i < |s| ==> IsSpace(s[i]) }

  /** `s.lstrip()`: the longest suffix of `s` that does not start with whitespace. */
  function TrimStart(s: string): (r: string)
    ensures |r| <= |s| && r == s[|s| - |r|..]
    ensures r == [] || !IsSpace(r[0])
    ensures forall i :: 0 <= i < |s| - |r| ==> IsSpace(s[i])
  {
    if s != [] && IsSpace(s[0]) then TrimStart(s[1..]) else s
  }

  /** `s.rstrip()`: the longest prefix of `s` that does not end with whitespace. */
  function TrimEnd(s: string): (r: string)
    ensures |r| <= |s| && r == s[..|r|]
    ensures r == [] || !IsSpace(r[|r| - 1])
    ensures forall i :: |r| <= i < |s| ==> IsSpace(s[i])
  {
    if s != [] && IsSpace(s[|s| - 1]) then TrimEnd(s[..|s| - 1]) else s
  }

  /** `s.strip()`. */
  function Strip(s: string): string {
    TrimEnd(TrimStart(s))
  }

  /** `s.strip()` is empty exactly when `s` is blank. */
  lemma StripEmptyIffBlank(s: string)
    ensures Strip(s) == [] <==> IsBlank(s)
  {
    var t := TrimStart(s);
    if Strip(s) != [] {
      var r := Strip(s);
      assert r[0] == t[0] == s[|s| - |t|];
    }
  }

  /** `s` has no whitespace at either end for `strip()` to remove. */
  predicate Trimmed(s: string) {
    s == [] || (!IsSpace(s[0]) && !IsSpace(s[|s| - 1]))
  }

  /** A stripped string neither starts nor ends with whitespace. */
  lemma StripEnds(s: string)
    ensures Trimmed(Strip(s))
  {
    var t := TrimStart(s);
    var r := Strip(s);
    if r != [] {
      assert r[0] == t[0];
    }
  }

  /** Text that neither starts nor ends with whitespace is its own `strip()`. */
  lemma StripNoop(s: string)
    requires Trimmed(s)
    ensures Strip(s) == s
  {
    assert TrimStart(s) == s;
  }

  /** `s.strip(c)` for a single character `c` (used with the quote characters). */
  function StripChar(s: string, c: char): (r: string)
    ensures r == [] || (r[0] != c && r[|r| - 1] != c)
    ensures |r| <= |s|
    decreases |s|
  {
    if s == [] then []
    else if s[0] == c then StripChar(s[1..], c)
    else if s[|s| - 1] == c then StripChar(s[..|s| - 1], c)
    else s
  }

  /** `s[i..j]` is what remains of `s` once some `c`s are cut off each end. */
  predicate CutSlice(s: string, c: char, i: nat, j: nat) {
    i <= j <= |s| && (forall k :: 0 <= k < i ==> s[k] == c) && (forall k :: j <= k < |s| ==> s[k] == c)
  }

  /** A cut slice of `s[1..]` is one of `s` when `s` starts with `c`. */
  lemma CutSliceFront(s: string, c: char, i: nat, j: nat)
    requires s != [] && s[0] == c && CutSlice(s[1..], c, i, j)
    ensures CutSlice(s, c, i + 1, j + 1) && s[1..][i..j] == s[i + 1..j + 1]
  {
    forall k | 0 < k < |s| ensures s[k] == s[1..][k - 1] {
    }
  }

  /** A cut slice of `s` without its last character is one of `s` when `s`
      ends with `c`. */
  lemma CutSliceBack(s: string, c: char, i: nat, j: nat)
    requires s != [] && s[|s| - 1] == c && CutSlice(s[..|s| - 1], c, i, j)
    ensures CutSlice(s, c, i, j) && s[..|s| - 1][i..j] == s[i..j]
  {
    forall k | 0 <= k < |s| - 1 ensures s[k] == s[..|s| - 1][k] {
    }
  }

  /** `s.strip(c)` is a slice of `s`: what it cuts off at either end is all `c`. */
  lemma {:induction false} StripCharSlice(s: string, c: char)
    ensures exists i: nat, j: nat :: CutSlice(s, c, i, j) && StripChar(s, c) == s[i..j]
    decreases |s|
  {
    if s == [] {
      assert CutSlice(s, c, 0, 0) && StripChar(s, c) == s[0..0];
    } else if s[0] == c {
      StripCharSlice(s[1..], c);
      var i: nat, j: nat :| CutSlice(s[1..], c, i, j) && StripChar(s[1..], c) == s[1..][i..j];
      CutSliceFront(s, c, i, j);
      assert CutSlice(s, c, i + 1, j + 1) && StripChar(s, c) == s[i + 1..j + 1];
    } else if s[|s| - 1] == c {
      StripCharSlice(s[..|s| - 1], c);
      var i: nat, j: nat :| CutSlice(s[..|s| - 1], c, i, j) && StripChar(s[..|s| - 1], c) == s[..|s| - 1][i..j];
      CutSliceBack(s, c, i, j);
      assert CutSlice(s, c, i, j) && StripChar(s, c) == s[i..j];
    } else {
      assert CutSlice(s, c, 0, |s|) && StripChar(s, c) == s[0..|s|];
    }
  }

  /** Python's `t in s` for strings: `t` occurs in `s` as a contiguous block. */
  predicate Contains(s: string, t: string)
    decreases |s|
  {
    t <= s || (s != [] && Contains(s[1..], t))
  }

  /** An occurrence of `t` at index `i` makes `t in s` true. */
  lemma {:induction false} ContainsAt(s: string, t: string, i: nat)
    requires i + |t| <= |s| && s[i..i + |t|] == t
    ensures Contains(s, t)
    decreases i
  {
    if i > 0 {
      assert s[1..][i - 1..i - 1 + |t|] == t;
      ContainsAt(s[1..], t, i - 1);
    }
  }

  /** A string that contains `t + u` also contains its prefix `t`: the substring
      test sees "AppID 12" in a line that names "AppID 123". */
  lemma {:induction false} ContainsPrefix(s: string, t: string, u: string)
    requires Contains(s, t + u)
    ensures Contains(s, t)
    decreases |s|
  {
    if t + u <= s {
      assert t <= s by { assert forall k :: 0 <= k < |t| ==> s[k] == (t + u)[k]; }
    } else {
      ContainsPrefix(s[1..], t, u);
    }
  }

  /** ASCII `str.lower()` of one character. */
  function LowerChar(c: char): char {
    if 'A' <= c <= 'Z' then (c as int + 32) as char else c
  }

  /** ASCII `str.upper()` of one character. */
  function UpperChar(c: char): char {
    if 'a' <= c <= 'z' then (c as int - 32) as char else c
  }

  function Lower(s: string): (r: string)
    ensures |r| == |s| && forall i :: 0 <= i < |s| ==> r[i] == LowerChar(s[i])
  {
    seq(|s|, i requires 0 <= i < |s| => LowerChar(s[i]))
  }

  function Upper(s: string): (r: string)
    ensures |r| == |s| && forall i :: 0 <= i < |s| ==> r[i] == UpperChar(s[i])
  {
    seq(|s|, i requires 0 <= i < |s| => UpperChar(s[i]))
  }

  /** Index of the first line break at or after `i`, or `|s|` if none. */
  function LineEnd(s: string, i: nat): (j: nat)
    requires i <= |s|
    ensures i <= j <= |s|
    ensures j < |s| ==> IsLineBreak(s[j])
    ensures forall k :: i <= k < j ==> !IsLineBreak(s[k])
    decreases |s| - i
  {
    if i == |s| || IsLineBreak(s[i]) then i else LineEnd(s, i + 1)
  }

  /** `s.splitlines()`: the lines of `s` without their terminators; a final
      terminator does not open an empty last line, and "" has no lines. */
  function SplitLines(s: string): (lines: seq<string>)
    ensures forall k, i :: 0 <= k < |lines| && 0 <= i < |lines[k]| ==> !IsLineBreak(lines[k][i])
    decreases |s|
  {
    if s == [] then []
    else
      var j := LineEnd(s, 0);
      if j == |s| then [s]
      else
        var next := if s[j] == '\r' && j + 1 < |s| && s[j + 1] == '\n' then j + 2 else j + 1;
        [s[..j]] + SplitLines(s[next..])
  }

  /** Every line followed by "\n": the text whose `splitlines()` is `lines`. */
  function JoinLines(lines: seq<string>): string {
    if lines == [] then [] else lines[0] + "\n" + JoinLines(lines[1..])
  }

  predicate NoLineBreaks(lines: seq<string>) {
    forall k, i :: 0 <= k < |lines| && 0 <= i < |lines[k]| ==> !IsLineBreak(lines[k][i])
  }

  /** `splitlines()` recovers the lines of a newline-terminated text. */
  lemma {:induction false} SplitJoinLines(lines: seq<string>)
    requires NoLineBreaks(lines)
    ensures SplitLines(JoinLines(lines)) == lines
  {
    if lines != [] {
      var l := lines[0];
      var s := JoinLines(lines);
      var rest := JoinLines(lines[1..]);
      assert s == l + "\n" + rest;
      assert s[|l|] == '\n';
      var j := LineEnd(s, 0);
      assert j == |l|;
      assert s[..j] == l;
      assert s[j + 1..] == rest;
      SplitJoinLines(lines[1..]);
    }
  }

  /** Index of the first `c` in `s`, or `|s|` if there is none: where
      `s.split(c, 1)` cuts the text. */
  function IndexOf(s: string, c: char): (i: nat)
    ensures i <= |s|
    ensures i < |s| ==> s[i] == c
    ensures forall k :: 0 <= k < i ==> s[k] != c
  {
    if s == [] then 0 else if s[0] == c then 0 else 1 + IndexOf(s[1..], c)
  }

  /** `s` holds no line break. */
  predicate NoBreak(s: string) { forall i :: 0 <= i < |s| ==> !IsLineBreak(s[i]) }

  /** `splitlines()` recovers the lines of `"\n".join(lines)` when the last
      line is not empty. */
  lemma {:induction false} SplitJoinNewline(lines: seq<string>)
    requires |lines| >= 1 && NoLineBreaks(lines) && lines[|lines| - 1] != []
    ensures SplitLines(Join(lines, '\n')) == lines
  {
    var l := lines[0];
    assert NoBreak(l) by {
      forall i | 0 <= i < |l| ensures !IsLineBreak(l[i]) {
        assert !IsLineBreak(lines[0][i]);
      }
    }
    if |lines| == 1 {
      assert LineEnd(l, 0) == |l|;
    } else {
      var rest := lines[1..];
      var s := Join(lines, '\n');
      var tail := Join(rest, '\n');
      assert s == l + "\n" + tail;
      assert s[|l|] == '\n';
      assert LineEnd(s, 0) == |l|;
      assert s[..|l|] == l;
      assert s[|l| + 1..] == tail;
      assert NoLineBreaks(rest) by {
        forall k, i | 0 <= k < |rest| && 0 <= i < |rest[k]| ensures !IsLineBreak(rest[k][i]) {
          assert rest[k] == lines[k + 1];
        }
      }
      SplitJoinNewline(rest);
    }
  }

  /** `s.split(sep)` for a one-character separator. */
  function Split(s: string, sep: char): (parts: seq<string>)
    ensures |parts| >= 1
    ensures forall k :: 0 <= k < |parts| ==> sep !in parts[k]
    decreases |s|
  {
    var i := IndexOf(s, sep);
    if i == |s| then [s] else [s[..i]] + Split(s[i + 1..], sep)
  }

  /** `sep.join(parts)`. */
  function Join(parts: seq<string>, sep: char): string
    requires |parts| >= 1
  {
    if |parts| == 1 then parts[0] else parts[0] + [sep] + Join(parts[1..], sep)
  }

  /** Splitting and joining on the same separator gives the text back. */
  lemma {:induction false} JoinSplit(s: string, sep: char)
    ensures Join(Split(s, sep), sep) == s
    decreases |s|
  {
    var i := IndexOf(s, sep);
    if i < |s| {
      var rest := Split(s[i + 1..], sep);
      var parts := [s[..i]] + rest;
      assert Split(s, sep) == parts;
      assert parts[0] == s[..i] && parts[1..] == rest;
      JoinSplit(s[i + 1..], sep);
      assert Join(parts, sep) == s[..i] + [sep] + Join(rest, sep);
      assert s == s[..i] + [sep] + s[i + 1..];
    }
  }

  /** The first `c` in `a + [c] + b` is the one after `a` when `a` has none. */
  lemma {:induction false} IndexOfJoined(a: string, c: char, b: string)
    requires c !in a
    ensures IndexOf(a + [c] + b, c) == |a|
    decreases |a|
  {
    var s := a + [c] + b;
    if a != [] {
      assert s[1..] == a[1..] + [c] + b;
      assert a[0] in a;
      IndexOfJoined(a[1..], c, b);
    }
  }

  /** Joining parts that do not contain the separator and splitting again
      gives the parts back. */
  lemma {:induction false} SplitJoin(parts: seq<string>, sep: char)
    requires |parts| >= 1
    requires forall k :: 0 <= k < |parts| ==> sep !in parts[k]
    ensures Split(Join(parts, sep), sep) == parts
    decreases |parts|
  {
    var s := Join(parts, sep);
    if |parts| == 1 {
      assert IndexOf(s, sep) == |s|;
    } else {
      var rest := Join(parts[1..], sep);
      assert s == parts[0] + [sep] + rest;
      assert sep !in parts[0];
      SplitFirst(parts[0], sep, rest);
      SplitJoin(parts[1..], sep);
      assert parts == [parts[0]] + parts[1..];
    }
  }

  /** Splitting at a first separator peels off the text before it. */
  lemma SplitFirst(a: string, sep: char, b: string)
    requires sep !in a
    ensures Split(a + [sep] + b, sep) == [a] + Split(b, sep)
  {
    var s := a + [sep] + b;
    IndexOfJoined(a, sep, b);
    assert s[..|a|] == a;
    assert s[|a| + 1..] == b;
  }

  /** `str(i)` for any integer. */
  function IntToString(i: int): (s: string)
    ensures |s| >= 1
  {
    if i < 0 then "-" + NatToString(-i) else NatToString(i)
  }

  function DigitChar(d: nat): (c: char)
    requires d < 10
    ensures IsDigit(c)
  {
    ('0' as int + d) as char
  }

  function DigitValue(c: char): nat
    requires IsDigit(c)
  {
    c as int - '0' as int
  }

  /** `str(n)` for a natural number. */
  function NatToString(n: nat): (s: string)
    ensures |s| >= 1 && forall i :: 0 <= i < |s| ==> IsDigit(s[i])
  {
    if n < 10 then [DigitChar(n)] else NatToString(n / 10) + [DigitChar(n % 10)]
  }

  /** The digit strings `int()` accepts after the sign: decimal digits, with
      single underscores allowed between two digits. */
  predicate ValidDigits(s: string)
    decreases |s|
  {
    |s| > 0 && IsDigit(s[0])
    && (|s| == 1 || (if s[1] == '_' then ValidDigits(s[2..]) else ValidDigits(s[1..])))
  }

  /** The value of a digit string; characters other than digits (the
      underscores) are skipped. */
  function DigitsValue(s: string): nat {
    if s == [] then 0
    else
      var p := DigitsValue(s[..|s| - 1]);
      var c := s[|s| - 1];
      if IsDigit(c) then p * 10 + DigitValue(c) else p
  }

  /** Python's `int(s)` on a string: surrounding whitespace, an optional sign,
      then a digit string; anything else raises `ValueError` (here `None`). */
  function ParseInt(s: string): Option<int> {
    ParseSigned(Strip(s))
  }

  /** `int()` on text with the whitespace already stripped. */
  function ParseSigned(t: string): Option<int> {
    if |t| > 0 && (t[0] == '+' || t[0] == '-') then
      if ValidDigits(t[1..]) then
        var v: int := DigitsValue(t[1..]);
        Some(if t[0] == '-' then -v else v)
      else None
    else if ValidDigits(t) then Some(DigitsValue(t))
    else None
  }

  lemma ParseSignedDigits(s: string)
    requires |s| >= 1 && forall i :: 0 <= i < |s| ==> IsDigit(s[i])
    ensures ParseSigned(s) == Some(DigitsValue(s) as int)
  {
    AllDigitsValid(s);
  }

  lemma {:induction false} DigitsValueOfNat(n: nat)
    ensures DigitsValue(NatToString(n)) == n
  {
    var s := NatToString(n);
    if n >= 10 {
      DigitsValueOfNat(n / 10);
      assert s[..|s| - 1] == NatToString(n / 10);
    }
  }

  lemma {:induction false} AllDigitsValid(s: string)
    requires |s| >= 1 && forall i :: 0 <= i < |s| ==> IsDigit(s[i])
    ensures ValidDigits(s)
    decreases |s|
  {
    if |s| > 1 {
      AllDigitsValid(s[1..]);
    }
  }

  lemma StripDigits(s: string)
    requires |s| >= 1 && forall i :: 0 <= i < |s| ==> IsDigit(s[i])
    ensures Strip(s) == s
  {
    assert IsDigit(s[0]) && IsDigit(s[|s| - 1]);
    StripNoop(s);
  }

  lemma StripOfNat(n: nat)
    ensures Strip(NatToString(n)) == NatToString(n)
  {
    StripDigits(NatToString(n));
  }

  lemma ParseSignedOfNat(n: nat)
    ensures ParseSigned(NatToString(n)) == Some(n)
  {
    ParseSignedDigits(NatToString(n));
    DigitsValueOfNat(n);
  }

  /** `str(-n)` for a positive `n`: a minus sign before the digits. */
  lemma NegativeTrimmed(n: nat)
    ensures Trimmed("-" + NatToString(n))
  {
    var d := NatToString(n);
    var t := "-" + d;
    assert t[0] == '-' && t[|t| - 1] == d[|d| - 1] && IsDigit(d[|d| - 1]);
  }

  /** `int()` reads a minus sign before the digits of `n` as `-n`. */
  lemma ParseSignedNegative(n: nat)
    ensures ParseSigned("-" + NatToString(n)) == Some(-(n as int))
  {
    var d := NatToString(n);
    var t := "-" + d;
    assert t[0] == '-' && t[1..] == d;
    AllDigitsValid(d);
    DigitsValueOfNat(n);
  }

  /** `int()` reads `str(-n)` back as `-n`. */
  lemma ParseIntOfNegative(n: nat)
    ensures ParseInt("-" + NatToString(n)) == Some(-(n as int))
  {
    var t := "-" + NatToString(n);
    NegativeTrimmed(n);
    StripNoop(t);
    ParseSignedNegative(n);
  }

  /** `int(str(i)) == i` for every integer, negative ones included. */
  lemma ParseIntOfInt(i: int)
    ensures ParseInt(IntToString(i)) == Some(i)
  {
    if i < 0 {
      var n: nat := -i;
      assert IntToString(i) == "-" + NatToString(n);
      ParseIntOfNegative(n);
    } else {
      var n: nat := i;
      assert IntToString(i) == NatToString(n);
      ParseIntOfNat(n);
    }
  }

  /** `int(str(n)) == n`. */
  lemma ParseIntOfNat(n: nat)
    ensures ParseInt(NatToString(n)) == Some(n)
  {
    StripOfNat(n);
    ParseSignedOfNat(n);
  }
}
