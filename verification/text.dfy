/** The pieces of Python's `str` behaviour that the scanner relies on, restricted
    to ASCII: lower-casing, substring search, `split(sep)`, `splitlines()`,
    `strip()`, `isdigit()` and `int()`. */
module Text {
  import opened Wrappers

  /** ASCII decimal digit: the part of `str.isdigit` the model covers. */
  predicate IsDigit(c: char) { '0' <= c <= '9' }

  predicate AllDigits(s: string) { forall i :: 0 <= i < |s| ==> IsDigit(s[i]) }

  /** ASCII whitespace as `str.isspace` classifies it: space, \t \n \v \f \r
      and the four separators 0x1C..0x1F. */
  predicate IsSpace(c: char) { c == ' ' || 9 <= c as int <= 13 || 28 <= c as int <= 31 }

  /** The narrower whitespace `int()` skips around a number: space and
      \t \n \v \f \r, but not the separators 0x1C..0x1F. */
  predicate IntSpace(c: char) { c == ' ' || 9 <= c as int <= 13 }

  /** The line boundaries `splitlines` honours in this model: \n and \r. */
  predicate IsLineBreak(c: char) { c == '\n' || c == '\r' }

  function LowerChar(c: char): char {
    if 'A' <= c <= 'Z' then (c as int + 32) as char else c
  }

  /** `str.lower()` on ASCII letters; every other character is kept. */
  function Lower(s: string): string {
    seq(|s|, i requires 0 <= i < |s| => LowerChar(s[i]))
  }

  /** Lower-casing keeps the length, maps each capital letter to the letter
      of the same position in the lower-case alphabet, and keeps every other
      character; lower-casing twice is lower-casing once. */
  lemma LowerSpec(s: string)
    ensures |Lower(s)| == |s|
    ensures forall i :: 0 <= i < |s| && 'A' <= s[i] <= 'Z' ==>
      Lower(s)[i] == "abcdefghijklmnopqrstuvwxyz"[s[i] as int - 'A' as int]
    ensures forall i :: 0 <= i < |s| && !('A' <= s[i] <= 'Z') ==> Lower(s)[i] == s[i]
    ensures Lower(Lower(s)) == Lower(s)
  {
  }

  lemma LowerPrefix(s: string, n: nat)
    requires n <= |s|
    ensures Lower(s[..n]) == Lower(s)[..n]
  {
  }

  /** Lower-casing works character by character, so it splits over `+`. */
  lemma LowerAppend(a: string, b: string)
    ensures Lower(a + b) == Lower(a) + Lower(b)
  {
  }

  /** Digits have no case. */
  lemma LowerDigits(s: string)
    requires AllDigits(s)
    ensures Lower(s) == s
  {
  }

  /** `s.startswith(prefix)` */
  predicate StartsWith(s: string, prefix: string) {
    |prefix| <= |s| && s[..|prefix|] == prefix
  }

  predicate OccursAt(s: string, sub: string, i: nat) {
    i + |sub| <= |s| && s[i..i + |sub|] == sub
  }

  function FindFrom(s: string, sub: string, k: nat): (r: Option<nat>)
    requires k <= |s|
    ensures r.Some? ==> k <= r.value && OccursAt(s, sub, r.value)
    ensures r.Some? ==> forall j: nat :: k <= j < r.value ==> !OccursAt(s, sub, j)
    ensures r.None? ==> forall j: nat :: k <= j ==> !OccursAt(s, sub, j)
    decreases |s| - k
  {
    if OccursAt(s, sub, k) then Some(k)
    else if k == |s| then None
    else FindFrom(s, sub, k + 1)
  }

  /** `s.find(sub)`, with `None` for -1: the index of the first occurrence. */
  function Find(s: string, sub: string): (r: Option<nat>)
    ensures r.Some? ==> OccursAt(s, sub, r.value)
    ensures r.Some? ==> forall j: nat :: j < r.value ==> !OccursAt(s, sub, j)
    ensures r.None? ==> forall j: nat :: !OccursAt(s, sub, j)
  {
    FindFrom(s, sub, 0)
  }

  /** `sub in s` */
  predicate Contains(s: string, sub: string) {
    Find(s, sub).Some?
  }

  lemma ContainsChar(s: string, c: char)
    ensures Contains(s, [c]) <==> c in s
  {
    if c in s {
      var i :| 0 <= i < |s| && s[i] == c;
      assert OccursAt(s, [c], i);
    }
    if Contains(s, [c]) {
      var i := Find(s, [c]).value;
      assert s[i..i + 1][0] == c;
    }
  }

  lemma NoEarlierOccurrence(s: string, sub: string, i: nat)
    requires |sub| > 0 && i <= |s|
    requires forall j: nat :: j < i ==> !OccursAt(s, sub, j)
    ensures !Contains(s[..i], sub)
  {
    forall j: nat
      ensures !OccursAt(s[..i], sub, j)
    {
      if OccursAt(s[..i], sub, j) {
        assert s[..i][j..j + |sub|] == s[j..j + |sub|];
        assert OccursAt(s, sub, j);
      }
    }
  }

  /** The pieces joined back with the separator between them: the inverse of `Split`. */
  function Join(parts: seq<string>, sep: string): string
    requires |parts| >= 1
  {
    if |parts| == 1 then parts[0] else parts[0] + sep + Join(parts[1..], sep)
  }

  /** `s.index(c)`: the position of the first `c`. */
  function IndexOf(s: string, c: char): (i: nat)
    requires c in s
    ensures i < |s| && s[i] == c
    ensures c !in s[..i]
  {
    if s[0] == c then 0
    else
      assert c in s[1..];
      var i := 1 + IndexOf(s[1..], c);
      assert s[..i] == [s[0]] + s[1..][..i - 1];
      i
  }

  /** The first `c` of `x + [c] + y` is the one after `x` when `x` has none. */
  lemma IndexOfAfter(x: string, c: char, y: string)
    requires c !in x
    ensures IndexOf(x + [c] + y, c) == |x|
  {
    var s := x + [c] + y;
    var i := IndexOf(s, c);
    forall m | 0 <= m < |x|
      ensures s[m] != c
    {
      assert s[m] == x[m];
    }
    forall m | 0 <= m < i
      ensures s[m] != c
    {
      assert s[..i][m] == s[m];
    }
    assert s[|x|] == c;
  }

  /** `s.split(sep)` for a non-empty separator: the text between successive
      leftmost non-overlapping occurrences of `sep`. */
  function Split(s: string, sep: string): (parts: seq<string>)
    requires |sep| > 0
    ensures |parts| >= 1
    ensures Join(parts, sep) == s
    ensures forall k :: 0 <= k < |parts| ==> !Contains(parts[k], sep)
    ensures |parts| > 1 <==> Contains(s, sep)
    decreases |s|
  {
    match Find(s, sep)
    case None => [s]
    case Some(i) =>
      NoEarlierOccurrence(s, sep, i);
      var rest := Split(s[i + |sep|..], sep);
      assert s == s[..i] + sep + s[i + |sep|..];
      assert ([s[..i]] + rest)[1..] == rest;
      [s[..i]] + rest
  }

  /** Index of the first line break of `s`, or `|s|` when there is none. */
  function LineEnd(s: string): (e: nat)
    ensures e <= |s|
    ensures forall j :: 0 <= j < e ==> !IsLineBreak(s[j])
    ensures e < |s| ==> IsLineBreak(s[e])
  {
    if |s| == 0 || IsLineBreak(s[0]) then 0 else 1 + LineEnd(s[1..])
  }

  /** `s.splitlines()` for \n, \r and \r\n boundaries: no trailing empty line,
      and no lines at all for the empty string. */
  function SplitLines(s: string): (lines: seq<string>)
    ensures |lines| == 0 <==> |s| == 0
    ensures |s| > 0 ==> lines[0] == s[..LineEnd(s)]
    ensures forall k, j :: 0 <= k < |lines| && 0 <= j < |lines[k]| ==> !IsLineBreak(lines[k][j])
    ensures forall k, j :: 0 <= k < |lines| && 0 <= j < |lines[k]| ==> lines[k][j] in s
    decreases |s|
  {
    if |s| == 0 then []
    else
      var e := LineEnd(s);
      if e == |s| then [s]
      else
        var next := if s[e] == '\r' && e + 1 < |s| && s[e + 1] == '\n' then e + 2 else e + 1;
        [s[..e]] + SplitLines(s[next..])
  }

  /** A string holding no line break. */
  predicate OneLine(s: string) {
    forall j :: 0 <= j < |s| ==> !IsLineBreak(s[j])
  }

  lemma OneLineConcat(a: string, b: string)
    requires OneLine(a) && OneLine(b)
    ensures OneLine(a + b)
  {
    assert forall j :: 0 <= j < |a + b| ==> (a + b)[j] == if j < |a| then a[j] else b[j - |a|];
  }

  /** A line followed by a newline is split off ahead of the rest. */
  lemma SplitLinesCons(line: string, rest: string)
    requires OneLine(line)
    ensures SplitLines(line + "\n" + rest) == [line] + SplitLines(rest)
  {
    var s := line + "\n" + rest;
    assert s[..|line|] == line;
    assert s[|line|] == '\n';
    assert LineEnd(s) == |line|;
    assert s[|line| + 1..] == rest;
  }

  /** A `\r\n` pair is one boundary: the line before it is split off ahead
      of the rest. */
  lemma SplitLinesCrLf(line: string, rest: string)
    requires OneLine(line)
    ensures SplitLines(line + "\r\n" + rest) == [line] + SplitLines(rest)
  {
    var s := line + "\r\n" + rest;
    assert s[..|line|] == line;
    assert s[|line|] == '\r' && s[|line| + 1] == '\n';
    assert LineEnd(s) == |line|;
    assert s[|line| + 2..] == rest;
  }

  /** A `\r` not followed by `\n` is a boundary of its own. */
  lemma SplitLinesCr(line: string, rest: string)
    requires OneLine(line)
    requires |rest| == 0 || rest[0] != '\n'
    ensures SplitLines(line + "\r" + rest) == [line] + SplitLines(rest)
  {
    var s := line + "\r" + rest;
    assert s[..|line|] == line;
    assert s[|line|] == '\r';
    assert LineEnd(s) == |line|;
    assert s[|line| + 1..] == rest;
  }

  /** Text without a line break is one line. */
  lemma SplitLinesOne(line: string)
    requires |line| > 0 && OneLine(line)
    ensures SplitLines(line) == [line]
  {
    assert LineEnd(line) == |line|;
  }

  /** `lines[0] if lines else s` where `lines == s.splitlines()`. */
  function FirstLine(s: string): (r: string)
    ensures r == s[..LineEnd(s)]
  {
    var lines := SplitLines(s);
    if |lines| > 0 then lines[0] else s
  }

  /** The characters `ws` counts as whitespace cut off the front of `s`. */
  function StripLeft(s: string, ws: char -> bool): (r: string)
    ensures |r| <= |s| && r == s[|s| - |r|..]
    ensures forall i :: 0 <= i < |s| - |r| ==> ws(s[i])
    ensures |r| > 0 ==> !ws(r[0])
    decreases |s|
  {
    if |s| > 0 && ws(s[0]) then StripLeft(s[1..], ws) else s
  }

  /** The characters `ws` counts as whitespace cut off the back of `s`. */
  function StripRight(s: string, ws: char -> bool): (r: string)
    ensures |r| <= |s| && r == s[..|r|]
    ensures forall i :: |r| <= i < |s| ==> ws(s[i])
    ensures |r| > 0 ==> !ws(r[|r| - 1])
    decreases |s|
  {
    if |s| > 0 && ws(s[|s| - 1]) then StripRight(s[..|s| - 1], ws) else s
  }

  /** The longest slice of `s` that neither starts nor ends with a character
      of the class `ws`: `s.strip()` with `IsSpace`, and the trimming `int()`
      does with `IntSpace`. */
  function Strip(s: string, ws: char -> bool): string {
    StripRight(StripLeft(s, ws), ws)
  }

  /** `Strip` keeps one slice `s[a..a + |Strip(s, ws)|]` and cuts off only
      whitespace before and after it. */
  lemma {:induction false} StripSlice(s: string, ws: char -> bool)
    ensures var a := |s| - |StripLeft(s, ws)|;
      a + |Strip(s, ws)| <= |s| && Strip(s, ws) == s[a..a + |Strip(s, ws)|]
      && (forall i :: 0 <= i < a ==> ws(s[i]))
      && (forall i :: a + |Strip(s, ws)| <= i < |s| ==> ws(s[i]))
  {
    var left := StripLeft(s, ws);
    StripRightSlice(s, left, ws);
    var a, r := |s| - |left|, Strip(s, ws);
    assert r == StripRight(left, ws);
    assert forall i :: 0 <= i < a ==> ws(s[i]);
  }

  /** Right-stripping the suffix `left` of `s` keeps a slice of `s` and
      cuts off only whitespace after it. */
  lemma StripRightSlice(s: string, left: string, ws: char -> bool)
    requires |left| <= |s| && left == s[|s| - |left|..]
    ensures var a, r := |s| - |left|, StripRight(left, ws);
      a + |r| <= |s| && r == s[a..a + |r|]
      && forall i :: a + |r| <= i < |s| ==> ws(s[i])
  {
    var a, r := |s| - |left|, StripRight(left, ws);
    assert r == left[..|r|];
    forall i | a + |r| <= i < |s|
      ensures ws(s[i])
    {
      assert s[i] == left[i - a];
    }
  }

  /** Everything cut off by `Strip` is whitespace, and the result's ends are
      not. */
  lemma {:induction false} StripSpec(s: string, ws: char -> bool)
    ensures forall c :: c in Strip(s, ws) ==> c in s
    ensures var t := Strip(s, ws); |t| > 0 ==> !ws(t[0]) && !ws(t[|t| - 1])
    ensures (forall i :: 0 <= i < |s| ==> !ws(s[i])) ==> Strip(s, ws) == s
    ensures Strip(s, ws) == [] <==> forall i :: 0 <= i < |s| ==> ws(s[i])
  {
    var left := StripLeft(s, ws);
    var r := StripRight(left, ws);
    assert forall c :: c in r ==> c in left;
  }

  /** Stripping keeps every character that is not whitespace. */
  lemma StripKeeps(s: string, ws: char -> bool, i: nat)
    requires i < |s| && !ws(s[i])
    ensures s[i] in Strip(s, ws)
  {
    var left := StripLeft(s, ws);
    var off := |s| - |left|;
    assert i >= off;
    assert left[i - off] == s[i];
    var r := StripRight(left, ws);
    assert i - off < |r|;
    assert r[i - off] == s[i];
  }

  /** The maximal run of digits at the start of `s` (the `isdigit` / `break`
      loop of the TTL parser). */
  function LeadingDigits(s: string): (r: string)
    ensures StartsWith(s, r)
    ensures AllDigits(r)
    ensures |r| < |s| ==> !IsDigit(s[|r|])
  {
    if |s| > 0 && IsDigit(s[0]) then [s[0]] + LeadingDigits(s[1..]) else []
  }

  function DigitValue(c: char): nat
    requires IsDigit(c)
  {
    c as int - '0' as int
  }

  /** The number a string of decimal digits denotes (leading zeros allowed). */
  function DecimalValue(s: string): nat
    requires AllDigits(s)
  {
    if |s| == 0 then 0 else DecimalValue(s[..|s| - 1]) * 10 + DigitValue(s[|s| - 1])
  }

  function DigitChar(d: nat): char
    requires d < 10
  {
    ('0' as int + d) as char
  }

  /** `str(n)` for a non-negative integer. */
  function Decimal(n: nat): (r: string)
    ensures |r| > 0 && AllDigits(r)
    ensures DecimalValue(r) == n
  {
    if n < 10 then [DigitChar(n)]
    else
      var r := Decimal(n / 10) + [DigitChar(n % 10)];
      assert r[..|r| - 1] == Decimal(n / 10);
      r
  }

  predicate DigitOrUnderscore(s: string) {
    forall i :: 0 <= i < |s| ==> IsDigit(s[i]) || s[i] == '_'
  }

  /** Digits in groups separated by single underscores, as `int()` accepts them. */
  predicate DigitGroups(s: string) {
    && |s| > 0 && IsDigit(s[0]) && IsDigit(s[|s| - 1])
    && DigitOrUnderscore(s)
    && (forall i :: 0 <= i < |s| - 1 && s[i] == '_' ==> IsDigit(s[i + 1]))
  }

  /** The digits of `s` with its underscores removed. */
  function DropUnderscores(s: string): (r: string)
    requires DigitOrUnderscore(s)
    ensures AllDigits(r)
    ensures AllDigits(s) ==> r == s
  {
    if |s| == 0 then []
    else (if s[0] == '_' then [] else [s[0]]) + DropUnderscores(s[1..])
  }

  /** `int(s)` in base 10, `None` where Python raises `ValueError`: optional
      surrounding `IntSpace` whitespace, an optional sign, then digit groups. */
  function PyInt(s: string): (r: Option<int>)
    ensures AllDigits(s) && |s| > 0 ==> r == Some(DecimalValue(s))
    ensures r.Some? && '-' !in s ==> r.value >= 0
  {
    StripSpec(s, IntSpace);
    var t := Strip(s, IntSpace);
    if |t| > 0 && (t[0] == '+' || t[0] == '-') then
      var body := t[1..];
      if DigitGroups(body) then
        var v: int := DecimalValue(DropUnderscores(body));
        Some(if t[0] == '-' then -v else v)
      else None
    else if DigitGroups(t) then Some(DecimalValue(DropUnderscores(t)))
    else None
  }

  /** A character that is neither `int()` whitespace, a sign, a digit nor an
      underscore makes `int()` raise. */
  lemma PyIntRejectsStray(s: string, i: nat)
    requires i < |s|
    requires !IntSpace(s[i]) && !IsDigit(s[i]) && s[i] !in "+-_"
    ensures PyInt(s).None?
  {
    var t := Strip(s, IntSpace);
    StripKeeps(s, IntSpace, i);
    var j :| 0 <= j < |t| && t[j] == s[i];
    if t[0] == '+' || t[0] == '-' {
      assert t[1..][j - 1] == s[i];
      assert !DigitOrUnderscore(t[1..]);
    } else {
      assert !DigitOrUnderscore(t);
    }
  }

  /** The separators 0x1C..0x1F count as whitespace for `strip()` but not
      for `int()`: next to a number they make it raise. */
  lemma PyIntRejectsSeparator(c: char, digits: string)
    requires 28 <= c as int <= 31
    ensures PyInt([c] + digits).None?
    ensures PyInt(digits + [c]).None?
    ensures IsSpace(c) && Strip([c] + digits, IsSpace) == Strip(digits, IsSpace)
  {
    PyIntRejectsStray([c] + digits, 0);
    PyIntRejectsStray(digits + [c], |digits|);
    assert ([c] + digits)[1..] == digits;
  }

  /** `int(str(n)) == n` */
  lemma PyIntDecimal(n: nat)
    ensures PyInt(Decimal(n)) == Some(n)
  {
  }

  /** `Find` returns the leftmost occurrence, so any leftmost occurrence is it. */
  lemma FindLeftmost(s: string, sub: string, i: nat)
    requires OccursAt(s, sub, i)
    requires forall j: nat :: j < i ==> !OccursAt(s, sub, j)
    ensures Find(s, sub) == Some(i)
  {
  }

  /** A string without the separator character splits into itself. */
  lemma SplitWithout(s: string, c: char)
    requires c !in s
    ensures Split(s, [c]) == [s]
  {
    ContainsChar(s, c);
  }

  /** The first separator of `x + [c] + y` is the one after `x` when `x`
      has none. */
  lemma SplitAroundFirst(x: string, y: string, c: char)
    requires c !in x
    ensures Split(x + [c] + y, [c]) == [x] + Split(y, [c])
  {
    var s := x + [c] + y;
    forall j: nat | j < |x|
      ensures !OccursAt(s, [c], j)
    {
      assert s[j] == x[j];
    }
    assert OccursAt(s, [c], |x|);
    FindLeftmost(s, [c], |x|);
    assert s[..|x|] == x;
    assert s[|x| + 1..] == y;
  }

  /** Where `x` has a separator at `i`, the split of `x + [c] + y` starts
      like the split of `x`. */
  lemma SplitAroundStep(x: string, y: string, c: char, i: nat)
    requires Find(x, [c]) == Some(i)
    ensures Split(x + [c] + y, [c]) == [x[..i]] + Split(x[i + 1..] + [c] + y, [c])
  {
    var s := x + [c] + y;
    forall j: nat | j < i
      ensures !OccursAt(s, [c], j)
    {
      assert !OccursAt(x, [c], j);
      assert s[j..j + 1] == x[j..j + 1];
    }
    assert s[i..i + 1] == x[i..i + 1];
    FindLeftmost(s, [c], i);
    assert s[..i] == x[..i];
    assert s[i + 1..] == x[i + 1..] + [c] + y;
  }

  /** Splitting on a character distributes over an occurrence of it. */
  lemma {:induction false} SplitAround(x: string, y: string, c: char)
    ensures Split(x + [c] + y, [c]) == Split(x, [c]) + Split(y, [c])
    decreases |x|
  {
    ContainsChar(x, c);
    match Find(x, [c])
    case None =>
      SplitAroundFirst(x, y, c);
    case Some(i) =>
      SplitAroundStep(x, y, c, i);
      SplitAround(x[i + 1..], y, c);
  }

  /** `sep.join(parts).split(sep) == parts` when no part holds the separator. */
  lemma {:induction false} SplitJoin(parts: seq<string>, c: char)
    requires |parts| >= 1
    requires forall k :: 0 <= k < |parts| ==> c !in parts[k]
    ensures Split(Join(parts, [c]), [c]) == parts
    decreases |parts|
  {
    SplitWithout(parts[0], c);
    if |parts| > 1 {
      SplitJoin(parts[1..], c);
      SplitAround(parts[0], Join(parts[1..], [c]), c);
      assert [parts[0]] + parts[1..] == parts;
    }
  }

  /** An occurrence anywhere means `Find` succeeds. */
  lemma OccurrenceFound(s: string, sub: string, i: nat)
    requires OccursAt(s, sub, i)
    ensures Find(s, sub).Some?
  {
  }

  /** Occurrences in a prefix are occurrences in the whole string. */
  lemma ContainsPrefix(s: string, n: nat, sub: string)
    requires n <= |s| && Contains(s[..n], sub)
    ensures Contains(s, sub)
  {
    var i := Find(s[..n], sub).value;
    assert s[..n][i..i + |sub|] == s[i..i + |sub|];
    OccurrenceFound(s, sub, i);
  }

  /** A pattern with a character that `s` lacks does not occur in `s`. */
  lemma AbsentCharNoMatch(s: string, sub: string, i: nat)
    requires i < |sub| && sub[i] !in s
    ensures Find(s, sub).None?
  {
    forall j: nat
      ensures !OccursAt(s, sub, j)
    {
      if j + |sub| <= |s| {
        assert s[j..j + |sub|][i] == s[j + i];
      }
    }
  }
}
