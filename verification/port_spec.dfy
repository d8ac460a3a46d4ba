/** The port-specification parser `parse_ports` (scanner.py:187-195) and the
    `--start/--end` range of `main` (scanner.py:224).

    Python keeps the ports in a `set` and returns `sorted(ports)`; the model
    keeps that set in its canonical form, a strictly ascending sequence, so the
    final sort is the identity. */
module PortSpec {
  import opened Wrappers
  import opened Text

  /** Why a token was rejected; Python raises `ValueError` in both cases. */
  datatype ParseError =
    | NotAnInteger(text: string)   // `int(text)` failed
    | TooManyDashes(token: string) // `start, end = part.split("-")` got more than two values

  /** A well-formed token: one integer, or the inclusive range `first-last`. */
  datatype Token = Single(port: int) | Span(first: int, last: int)

  predicate Covers(t: Token, p: int) {
    match t
    case Single(n) => p == n
    case Span(a, b) => a <= p <= b
  }

  predicate NonNegative(t: Token) {
    match t
    case Single(n) => n >= 0
    case Span(a, b) => a >= 0 && b >= 0
  }

  /** Strictly ascending: sorted and free of duplicates. */
  predicate Ascending(s: seq<int>) {
    forall i, j :: 0 <= i < j < |s| ==> s[i] < s[j]
  }

  /** One comma-separated token, handled as the loop body of `parse_ports`
      does: a token holding `-` must unpack into exactly two integers, the
      text before its first `-` and the text after it, which must hold no
      further `-`. No token can yield a negative number, since a `-` always
      selects the range path. */
  function ParseToken(part: string): (r: Result<Token, ParseError>)
    ensures r.Success? ==> NonNegative(r.value)
    ensures r.Success? ==> (r.value.Span? <==> '-' in part)
    ensures r == Failure(TooManyDashes(part)) <==> TwoDashes(part)
    ensures r.Failure? && r.error.TooManyDashes? ==> r.error.token == part
  {
    TwoDashesAfterFirst(part);
    if '-' in part then
      var i := IndexOf(part, '-');
      var start, end := part[..i], part[i + 1..];
      if '-' in end then Failure(TooManyDashes(part))
      else
        match PyInt(start)
        case None => Failure(NotAnInteger(start))
        case Some(a) =>
          match PyInt(end)
          case None => Failure(NotAnInteger(end))
          case Some(b) => Success(Span(a, b))
    else
      match PyInt(part)
      case None => Failure(NotAnInteger(part))
      case Some(n) => Success(Single(n))
  }

  /** The token holds at least two `-`. */
  predicate TwoDashes(part: string) {
    multiset(part)['-'] >= 2
  }

  /** A token holds two `-` exactly when a `-` follows its first one. */
  lemma TwoDashesAfterFirst(part: string)
    ensures TwoDashes(part) <==> '-' in part && '-' in part[IndexOf(part, '-') + 1..]
  {
    if '-' in part {
      var k := IndexOf(part, '-');
      assert part == part[..k] + [part[k]] + part[k + 1..];
      assert multiset(part)['-'] == multiset(part[..k])['-'] + 1 + multiset(part[k + 1..])['-'];
    }
  }

  /** The unpack `start, end = part.split("-")` succeeds exactly when the
      token has a single `-`, and then binds the text on either side of it,
      as `ParseToken` reads them. */
  lemma ParseTokenUnpacks(part: string)
    requires '-' in part
    ensures var i := IndexOf(part, '-');
      (|Split(part, "-")| == 2 <==> '-' !in part[i + 1..])
      && (|Split(part, "-")| == 2 ==> Split(part, "-") == [part[..i], part[i + 1..]])
  {
    var i := IndexOf(part, '-');
    var x, y := part[..i], part[i + 1..];
    assert part == x + ['-'] + y;
    SplitAround(x, y, '-');
    SplitWithout(x, '-');
    ContainsChar(y, '-');
    if '-' !in y {
      SplitWithout(y, '-');
    }
  }

  /** Index of the leftmost token that does not parse, or the number of
      tokens when all of them do. */
  function FirstBad(parts: seq<string>): (k: nat)
    ensures k <= |parts|
    ensures forall j :: 0 <= j < k ==> ParseToken(parts[j]).Success?
    ensures k < |parts| ==> ParseToken(parts[k]).Failure?
  {
    if |parts| == 0 || ParseToken(parts[0]).Failure? then 0
    else
      var k := 1 + FirstBad(parts[1..]);
      assert forall j :: 1 <= j < k ==> parts[j] == parts[1..][j - 1];
      k
  }

  /** The tokens in order; the first token that fails decides the error. */
  function ParseAll(parts: seq<string>): (r: Result<seq<Token>, ParseError>)
    ensures r.Success? <==> FirstBad(parts) == |parts|
    ensures r.Failure? ==> ParseToken(parts[FirstBad(parts)]) == Failure(r.error)
    ensures r.Success? ==> |r.value| == |parts|
    ensures r.Success? ==> forall k :: 0 <= k < |parts| ==> r.value[k] == ParseToken(parts[k]).value
  {
    if |parts| == 0 then Success([])
    else
      match ParseToken(parts[0])
      case Failure(e) => Failure(e)
      case Success(t) =>
        var rest := ParseAll(parts[1..]);
        assert FirstBad(parts) == 1 + FirstBad(parts[1..]);
        match rest
        case Failure(e) =>
          assert parts[FirstBad(parts)] == parts[1..][FirstBad(parts[1..])];
          Failure(e)
        case Success(ts) =>
          assert forall k :: 1 <= k < |parts| ==> parts[k] == parts[1..][k - 1];
          Success([t] + ts)
  }

  /** Putting an element below all others in front keeps the order. */
  lemma AscendingCons(x: int, s: seq<int>)
    requires Ascending(s)
    requires forall y :: y in s ==> x < y
    ensures Ascending([x] + s)
  {
    assert forall i :: 0 <= i < |s| ==> s[i] in s;
  }

  /** `ports.add(x)` on the ascending form of the set. */
  function Insert(x: int, s: seq<int>): (r: seq<int>)
    requires Ascending(s)
    ensures Ascending(r)
    ensures forall y :: y in r <==> y == x || y in s
  {
    if |s| == 0 then [x]
    else if x < s[0] then [x] + s
    else if x == s[0] then s
    else
      var rest := Insert(x, s[1..]);
      assert forall y :: y in rest ==> s[0] < y;
      AscendingCons(s[0], rest);
      [s[0]] + rest
  }

  /** `ports.update(range(a, b + 1))` */
  function AddSpan(ports: seq<int>, a: int, b: int): (r: seq<int>)
    requires Ascending(ports)
    ensures Ascending(r)
    ensures forall y :: y in r <==> y in ports || a <= y <= b
    decreases b - a + 1
  {
    if a > b then ports else AddSpan(Insert(a, ports), a + 1, b)
  }

  function AddToken(ports: seq<int>, t: Token): (r: seq<int>)
    requires Ascending(ports)
    ensures Ascending(r)
    ensures forall y :: y in r <==> y in ports || Covers(t, y)
  {
    match t
    case Single(n) => Insert(n, ports)
    case Span(a, b) => AddSpan(ports, a, b)
  }

  /** The ascending union of what the tokens cover, added left to right. */
  function Collect(tokens: seq<Token>): (r: seq<int>)
    ensures Ascending(r)
    ensures forall p :: p in r <==> exists k :: 0 <= k < |tokens| && Covers(tokens[k], p)
  {
    if |tokens| == 0 then []
    else
      var init := tokens[..|tokens| - 1];
      var r := AddToken(Collect(init), tokens[|tokens| - 1]);
      assert forall k :: 0 <= k < |init| ==> init[k] == tokens[k];
      r
  }

  /** Every token is well formed. */
  predicate AllParse(parts: seq<string>) {
    forall k :: 0 <= k < |parts| ==> ParseToken(parts[k]).Success?
  }

  /** Port `p` is named by the tokens: some token is `p`, or some range token
      `a-b` has `a <= p <= b`. */
  predicate Named(parts: seq<string>, p: int) {
    exists k :: 0 <= k < |parts| && ParseToken(parts[k]).Success? && Covers(ParseToken(parts[k]).value, p)
  }

  /** The comma-separated tokens of a specification, `port_str.split(",")`. */
  function Tokens(portStr: string): seq<string> {
    Split(portStr, ",")
  }

  predicate WellFormed(portStr: string) {
    AllParse(Tokens(portStr))
  }

  predicate Names(portStr: string, p: int) {
    Named(Tokens(portStr), p)
  }

  /** `parse_ports(port_str)`: the named ports, ascending and without
      duplicates, or the error of the leftmost malformed token. No bound is
      put on the ports beyond their being non-negative. */
  function ParsePorts(portStr: string): (r: Result<seq<int>, ParseError>)
    ensures r.Success? <==> WellFormed(portStr)
    ensures r.Success? ==> Ascending(r.value)
    ensures r.Success? ==> forall p :: p in r.value <==> Names(portStr, p)
    ensures r.Success? ==> forall p :: p in r.value ==> p >= 0
    ensures r.Failure? ==>
      var parts := Tokens(portStr);
      FirstBad(parts) < |parts| && ParseToken(parts[FirstBad(parts)]) == Failure(r.error)
  {
    var parts := Tokens(portStr);
    match ParseAll(parts)
    case Failure(e) => Failure(e)
    case Success(tokens) =>
      var r := Collect(tokens);
      assert forall p :: p in r ==> p >= 0 by {
        forall p | p in r ensures p >= 0 {
          var k :| 0 <= k < |tokens| && Covers(tokens[k], p);
          assert tokens[k] == ParseToken(parts[k]).value;
        }
      }
      Success(r)
  }

  /** Two ascending sequences with the same elements are equal: the sorted
      list of a set is unique. */
  lemma {:induction false} AscendingUnique(a: seq<int>, b: seq<int>)
    requires Ascending(a) && Ascending(b)
    requires forall x :: x in a <==> x in b
    ensures a == b
    decreases |a|
  {
    if |b| > 0 {
      assert b[0] in b;
    }
    if |a| > 0 {
      assert a[0] in a && a[0] in b;
      assert b[0] in b && b[0] in a;
      assert a[0] == b[0];
      forall x
        ensures x in a[1..] <==> x in b[1..]
      {
        if x in a[1..] {
          assert x in b && x != b[0];
        }
        if x in b[1..] {
          assert x in a && x != a[0];
        }
      }
      AscendingUnique(a[1..], b[1..]);
      assert a == [a[0]] + a[1..] && b == [b[0]] + b[1..];
    }
  }

  /** The result depends only on the set of ports named: token order and
      repetition do not matter. */
  lemma SameNamesSameResult(s1: string, s2: string)
    requires WellFormed(s1) && WellFormed(s2)
    requires forall p :: Names(s1, p) <==> Names(s2, p)
    ensures ParsePorts(s1) == ParsePorts(s2)
  {
    AscendingUnique(ParsePorts(s1).value, ParsePorts(s2).value);
  }

  /** Appending token lists appends what they name. */
  lemma AppendParts(px: seq<string>, py: seq<string>)
    ensures AllParse(px + py) <==> AllParse(px) && AllParse(py)
    ensures forall p :: Named(px + py, p) <==> Named(px, p) || Named(py, p)
  {
    var parts := px + py;
    assert forall k :: 0 <= k < |px| ==> parts[k] == px[k];
    assert forall k :: 0 <= k < |py| ==> parts[|px| + k] == py[k];
    forall p
      ensures Named(parts, p) ==> Named(px, p) || Named(py, p)
    {
      if Named(parts, p) {
        var k :| 0 <= k < |parts| && ParseToken(parts[k]).Success? && Covers(ParseToken(parts[k]).value, p);
        if k >= |px| {
          assert parts[k] == py[k - |px|];
        }
      }
    }
    if AllParse(px) && AllParse(py) {
      forall k | 0 <= k < |parts|
        ensures ParseToken(parts[k]).Success?
      {
        if k >= |px| {
          assert parts[k] == py[k - |px|];
        }
      }
    }
  }

  /** Joining two specifications with a comma joins their token lists. */
  lemma Concat(x: string, y: string)
    ensures WellFormed(x + "," + y) <==> WellFormed(x) && WellFormed(y)
    ensures forall p :: Names(x + "," + y, p) <==> Names(x, p) || Names(y, p)
  {
    SplitAround(x, y, ',');
    AppendParts(Tokens(x), Tokens(y));
  }

  /** Swapping two well-formed halves of a specification leaves the result
      unchanged. With malformed halves the leftmost error can differ. */
  lemma TokenOrderIrrelevant(x: string, y: string)
    requires WellFormed(x) && WellFormed(y)
    ensures ParsePorts(x + "," + y) == ParsePorts(y + "," + x)
  {
    Concat(x, y);
    Concat(y, x);
    SameNamesSameResult(x + "," + y, y + "," + x);
  }

  /** Repeating a specification leaves the result unchanged: the same
      ports, or the same error, since the leftmost bad token lies in the
      first copy. */
  lemma RepetitionIrrelevant(x: string)
    ensures ParsePorts(x + "," + x) == ParsePorts(x)
  {
    Concat(x, x);
    if WellFormed(x) {
      SameNamesSameResult(x + "," + x, x);
    } else {
      SplitAround(x, x, ',');
      FirstBadPrefix(Tokens(x), Tokens(x));
    }
  }

  /** A bad token in `px` is still the leftmost one after `py` is appended. */
  lemma FirstBadPrefix(px: seq<string>, py: seq<string>)
    requires FirstBad(px) < |px|
    ensures FirstBad(px + py) == FirstBad(px)
  {
    var parts := px + py;
    var k := FirstBad(px);
    assert parts[k] == px[k];
  }

  /** The text of a token, as `str(n)` or `f"{a}-{b}"` would write it. */
  function RenderToken(t: Token): string
    requires NonNegative(t)
  {
    match t
    case Single(n) => Decimal(n)
    case Span(a, b) => Decimal(a) + "-" + Decimal(b)
  }

  /** `",".join(...)` of the rendered tokens. */
  function Render(tokens: seq<Token>): string
    requires |tokens| >= 1
    requires forall k :: 0 <= k < |tokens| ==> NonNegative(tokens[k])
  {
    Join(seq(|tokens|, k requires 0 <= k < |tokens| => RenderToken(tokens[k])), ",")
  }

  lemma DecimalHasNo(n: nat, c: char)
    requires !IsDigit(c)
    ensures c !in Decimal(n)
  {
  }

  /** A rendered token parses back to itself. */
  lemma ParseRenderSpan(a: nat, b: nat)
    ensures ParseToken(RenderToken(Span(a, b))) == Success(Span(a, b))
  {
    var s := RenderToken(Span(a, b));
    assert s == Decimal(a) + ['-'] + Decimal(b);
    DecimalHasNo(a, '-');
    DecimalHasNo(b, '-');
    IndexOfAfter(Decimal(a), '-', Decimal(b));
    assert s[..|Decimal(a)|] == Decimal(a);
    assert s[|Decimal(a)| + 1..] == Decimal(b);
    PyIntDecimal(a);
    PyIntDecimal(b);
  }

  lemma ParseRenderToken(t: Token)
    requires NonNegative(t)
    ensures ParseToken(RenderToken(t)) == Success(t)
    ensures ',' !in RenderToken(t)
  {
    match t
    case Single(n) =>
      DecimalHasNo(n, ',');
      DecimalHasNo(n, '-');
      PyIntDecimal(n);
    case Span(a, b) =>
      DecimalHasNo(a, ',');
      DecimalHasNo(b, ',');
      ParseRenderSpan(a, b);
  }

  /** Texts that each parse to the matching token parse to the token list. */
  lemma ParseAllTokens(texts: seq<string>, tokens: seq<Token>)
    requires |texts| == |tokens|
    requires forall k :: 0 <= k < |texts| ==> ParseToken(texts[k]) == Success(tokens[k])
    ensures ParseAll(texts) == Success(tokens)
  {
    var r := ParseAll(texts);
    assert r.Success? && |r.value| == |tokens|;
    var v := r.value;
    assert forall k :: 0 <= k < |texts| ==> v[k] == tokens[k];
    assert v == tokens;
  }

  /** Round trip: rendering tokens and parsing the text gives the ascending
      union of the ports they cover. */
  lemma ParseRender(tokens: seq<Token>)
    requires |tokens| >= 1
    requires forall k :: 0 <= k < |tokens| ==> NonNegative(tokens[k])
    ensures ParsePorts(Render(tokens)) == Success(Collect(tokens))
  {
    var texts := seq(|tokens|, k requires 0 <= k < |tokens| => RenderToken(tokens[k]));
    forall k | 0 <= k < |tokens|
      ensures ',' !in texts[k] && ParseToken(texts[k]) == Success(tokens[k])
    {
      ParseRenderToken(tokens[k]);
    }
    SplitJoin(texts, ',');
    ParseAllTokens(texts, tokens);
  }

  /** A specification holding one rendered token names what that token covers. */
  lemma SingleToken(t: Token)
    requires NonNegative(t)
    ensures WellFormed(RenderToken(t))
    ensures forall p :: Names(RenderToken(t), p) <==> Covers(t, p)
  {
    ParseRenderToken(t);
    SplitWithout(RenderToken(t), ',');
  }

  /** An inverted range `a-b` with `a > b` is accepted and adds no port. */
  lemma InvertedRangeAddsNothing(x: string, a: nat, b: nat)
    requires WellFormed(x)
    requires a > b
    ensures ParsePorts(x + "," + RenderToken(Span(a, b))) == ParsePorts(x)
  {
    SingleToken(Span(a, b));
    Concat(x, RenderToken(Span(a, b)));
    SameNamesSameResult(x + "," + RenderToken(Span(a, b)), x);
  }

  /** A token holding two or more `-` fails the two-way unpack. */
  lemma TwoDashesRejected(part: string, i: nat, j: nat)
    requires i < j < |part| && part[i] == '-' && part[j] == '-'
    ensures ParseToken(part) == Failure(TooManyDashes(part))
  {
    var k := IndexOf(part, '-');
    forall m | 0 <= m < k
      ensures part[m] != '-'
    {
      assert part[..k][m] == part[m];
    }
    assert part[k + 1..][j - k - 1] == '-';
  }

  /** `list(range(start, end + 1))`, the port list of `--start/--end`. */
  function RangeList(start: int, end: int): (r: seq<int>)
    ensures |r| == if start <= end then end - start + 1 else 0
    ensures forall k :: 0 <= k < |r| ==> r[k] == start + k
    decreases end - start + 1
  {
    if start > end then [] else [start] + RangeList(start + 1, end)
  }

  /** The `--start/--end` list is the list `-p start-end` yields. */
  lemma RangeListMatchesSpan(start: nat, end: nat)
    ensures Ascending(RangeList(start, end))
    ensures ParsePorts(RenderToken(Span(start, end))) == Success(RangeList(start, end))
  {
    var r := RangeList(start, end);
    ParseRender([Span(start, end)]);
    assert Render([Span(start, end)]) == RenderToken(Span(start, end));
    forall p
      ensures p in r <==> p in Collect([Span(start, end)])
    {
      if start <= p <= end {
        assert r[p - start] == p;
      }
    }
    AscendingUnique(r, Collect([Span(start, end)]));
  }

  lemma ExampleDecimals()
    ensures Decimal(22) == "22" && Decimal(80) == "80"
    ensures Decimal(1000) == "1000" && Decimal(1005) == "1005"
  {
    assert Decimal(22) == "22";
    assert Decimal(80) == "80";
    assert Decimal(1000) == "1000";
    assert Decimal(1005) == "1005";
  }

  lemma ExampleTexts()
    ensures RenderToken(Single(22)) == "22"
    ensures RenderToken(Single(80)) == "80"
    ensures RenderToken(Span(1000, 1005)) == "1000-1005"
  {
    ExampleDecimals();
  }

  lemma ExampleRender()
    ensures Render([Single(22), Single(80), Span(1000, 1005)]) == "22,80,1000-1005"
  {
    var tokens := [Single(22), Single(80), Span(1000, 1005)];
    var texts := ["22", "80", "1000-1005"];
    ExampleTexts();
    assert seq(|tokens|, k requires 0 <= k < |tokens| => RenderToken(tokens[k])) == texts;
    assert Join(texts[2..], ",") == "1000-1005";
    assert Join(texts[1..], ",") == "80,1000-1005";
  }

  /** Two single ports below a range come first, in order, then the range. */
  lemma SinglesThenSpan(x: int, y: int, a: int, b: int)
    requires x < y < a
    ensures Collect([Single(x), Single(y), Span(a, b)]) == [x, y] + RangeList(a, b)
  {
    forall p
      ensures p in Collect([Single(x), Single(y), Span(a, b)]) <==> p in [x, y] + RangeList(a, b)
    {
      SinglesThenSpanHas(x, y, a, b, p);
    }
    SinglesThenSpanAscending(x, y, a, b);
    AscendingUnique(Collect([Single(x), Single(y), Span(a, b)]), [x, y] + RangeList(a, b));
  }

  lemma SinglesThenSpanHas(x: int, y: int, a: int, b: int, p: int)
    ensures p in Collect([Single(x), Single(y), Span(a, b)]) <==> p in [x, y] + RangeList(a, b)
  {
    var tokens := [Single(x), Single(y), Span(a, b)];
    assert p in Collect(tokens) <==> Covers(tokens[0], p) || Covers(tokens[1], p) || Covers(tokens[2], p);
    var span := RangeList(a, b);
    if a <= p <= b {
      assert span[p - a] == p;
    }
    assert p in [x, y] + span <==> p == x || p == y || p in span;
  }

  lemma SinglesThenSpanAscending(x: int, y: int, a: int, b: int)
    requires x < y < a
    ensures Ascending([x, y] + RangeList(a, b))
  {
    var want := [x, y] + RangeList(a, b);
    assert forall i :: 0 <= i < |want| ==> want[i] == if i == 0 then x else if i == 1 then y else a + i - 2;
  }

  lemma ExampleCollect()
    ensures Collect([Single(22), Single(80), Span(1000, 1005)]) == [22, 80, 1000, 1001, 1002, 1003, 1004, 1005]
  {
    SinglesThenSpan(22, 80, 1000, 1005);
    var span := RangeList(1000, 1005);
    assert span == [1000, 1001, 1002, 1003, 1004, 1005];
  }

  /** The example of the `--ports` help text: single ports and a range. */
  lemma ExampleSpec()
    ensures ParsePorts("22,80,1000-1005") == Success([22, 80, 1000, 1001, 1002, 1003, 1004, 1005])
  {
    ExampleRender();
    ExampleCollect();
    ParseRender([Single(22), Single(80), Span(1000, 1005)]);
  }

  /** No upper bound is checked: any natural number, 0 and 70000 included,
      is accepted as a port. */
  lemma NoPortBound(n: nat)
    ensures ParsePorts(Decimal(n)) == Success([n])
  {
    ParseRender([Single(n)]);
    assert Render([Single(n)]) == Decimal(n);
    assert Collect([Single(n)]) == [n];
  }

  /** The empty specification is rejected: `int("")` fails. */
  lemma EmptySpecRejected()
    ensures ParsePorts("") == Failure(NotAnInteger(""))
  {
    SplitWithout("", ',');
  }

  /** After a good token, a bad second token decides the error. */
  lemma SecondTokenRejected(first: string, second: string)
    requires ',' !in first && ',' !in second
    requires ParseToken(first).Success? && ParseToken(second).Failure?
    ensures ParsePorts(first + "," + second) == Failure(ParseToken(second).error)
  {
    SplitAround(first, second, ',');
    SplitWithout(first, ',');
    SplitWithout(second, ',');
    assert first + [','] + second == first + "," + second;
    assert Tokens(first + "," + second) == [first, second];
  }

  /** A trailing comma leaves an empty last token, which is rejected. */
  lemma TrailingCommaRejected(first: string)
    requires ',' !in first && ParseToken(first).Success?
    ensures ParsePorts(first + ",") == Failure(NotAnInteger(""))
  {
    assert ParseToken("") == Failure(NotAnInteger(""));
    SecondTokenRejected(first, "");
    assert first + "," + "" == first + ",";
  }

  /** A specification of one token that does not parse fails with that
      token's error. */
  lemma SingleTokenRejected(part: string)
    requires ',' !in part && ParseToken(part).Failure?
    ensures ParsePorts(part) == Failure(ParseToken(part).error)
  {
    SplitWithout(part, ',');
    assert Tokens(part) == [part];
  }

  /** A token with a letter (a service name such as `ssh`, say) is not a
      port: `int()` rejects it. */
  lemma NameRejected(part: string, i: nat)
    requires ',' !in part && '-' !in part
    requires i < |part| && ('a' <= part[i] <= 'z' || 'A' <= part[i] <= 'Z')
    ensures ParsePorts(part) == Failure(NotAnInteger(part))
  {
    PyIntRejectsStray(part, i);
    SingleTokenRejected(part);
  }

  /** A doubled range is rejected by the unpack, not by `int()`. */
  lemma DoubleRangeRejected(part: string, i: nat, j: nat)
    requires ',' !in part
    requires i < j < |part| && part[i] == '-' && part[j] == '-'
    ensures ParsePorts(part) == Failure(TooManyDashes(part))
  {
    TwoDashesRejected(part, i, j);
    SingleTokenRejected(part);
  }
}
