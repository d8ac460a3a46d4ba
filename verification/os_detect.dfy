/** The text-processing half of `detect_os` (scanner.py:53-89): finding the
    TTL in the reply of one `ping` and guessing the operating-system family
    from it. Running `ping` and printing the outcome are not modelled; the
    reply arrives as a decoded string. */
module OsDetect {
  import opened Wrappers
  import opened Text

  /** The field marker searched for in the lower-cased reply lines. */
  const Marker: string := "ttl="

  datatype OsFamily = LinuxUnix | Windows | UnknownOther

  /** The name printed for each family. */
  function FamilyName(f: OsFamily): string {
    match f
    case LinuxUnix => "Linux/Unix"
    case Windows => "Windows"
    case UnknownOther => "Unknown/Other"
  }

  /** The outcome of OS detection: a TTL and the family it suggests, or the
      "could not determine TTL" outcome, which is not an error. */
  datatype OsReport = Determined(ttl: nat, family: OsFamily) | Undetermined

  /** Default initial TTLs: 64 and below for Linux/Unix, up to 128 for Windows. */
  function Classify(ttl: nat): (f: OsFamily)
    ensures f == LinuxUnix <==> ttl <= 64
    ensures f == Windows <==> 64 < ttl <= 128
    ensures f == UnknownOther <==> 128 < ttl
  {
    if ttl <= 64 then LinuxUnix
    else if ttl <= 128 then Windows
    else UnknownOther
  }

  /** Order of the families along the TTL axis. */
  function Rank(f: OsFamily): nat {
    match f
    case LinuxUnix => 0
    case Windows => 1
    case UnknownOther => 2
  }

  /** A larger TTL never suggests a family further down the scale. */
  lemma ClassifyMonotone(t1: nat, t2: nat)
    requires t1 <= t2
    ensures Rank(Classify(t1)) <= Rank(Classify(t2))
  {
  }

  /** The digit run immediately after the first marker of the lower-cased
      line; empty when the line has no marker or no digit follows it. */
  function DigitsAfterMarker(line: string): string {
    var lower := Lower(line);
    match Find(lower, Marker)
    case None => ""
    case Some(i) => LeadingDigits(lower[i + |Marker|..])
  }

  /** Cutting a string at a non-digit (or at its end) keeps its leading digits. */
  lemma {:induction false} LeadingDigitsCut(q: string, k: nat)
    requires k <= |q|
    requires k == |q| || !IsDigit(q[k])
    ensures LeadingDigits(q[..k]) == LeadingDigits(q)
    decreases k
  {
    if k > 0 && IsDigit(q[0]) {
      LeadingDigitsCut(q[1..], k - 1);
      assert q[..k][1..] == q[1..][..k - 1];
    }
  }

  /** The first piece of `s.split(sep)` ends at the first occurrence of `sep`. */
  lemma SplitFirstPiece(s: string, sep: string)
    requires |sep| > 0
    ensures Find(s, sep).None? ==> Split(s, sep)[0] == s
    ensures Find(s, sep).Some? ==> Split(s, sep)[0] == s[..Find(s, sep).value]
  {
  }

  /** The TTL of one reply line: the loop body of scanner.py:64-77. The line
      is lower-cased and split on the marker; the digits at the start of the
      second piece are read. A line with the marker but no digit after it
      yields nothing, so the search moves on to the next line. */
  function LineTtl(line: string): Option<nat> {
    var lower := Lower(line);
    if Contains(lower, Marker) then
      // `len(parts) > 1` holds whenever the marker occurs.
      var digits := LeadingDigits(Split(lower, Marker)[1]);
      if |digits| > 0 then Some(DecimalValue(digits)) else None
    else None
  }

  /** Reading the second piece of the split stops where the digit run right
      after the first marker stops. */
  lemma LineTtlReadsDigitsAfterMarker(line: string)
    ensures LineTtl(line).Some? <==> |DigitsAfterMarker(line)| > 0
    ensures LineTtl(line).Some? ==> LineTtl(line).value == DecimalValue(DigitsAfterMarker(line))
  {
    var lower := Lower(line);
    if Contains(lower, Marker) {
      var parts := Split(lower, Marker);
      var i := Find(lower, Marker).value;
      var rest := lower[i + |Marker|..];
      SplitFirstPiece(rest, Marker);
      assert parts[1] == Split(rest, Marker)[0];
      var k := match Find(rest, Marker) case Some(j) => j case None => |rest|;
      if k < |rest| {
        assert rest[k..k + |Marker|] == Marker;
        assert rest[k] == 't';
      }
      LeadingDigitsCut(rest, k);
    }
  }

  /** The TTLs of a reply's lines, in line order. */
  function LineTtls(lines: seq<string>): seq<Option<nat>> {
    seq(|lines|, k requires 0 <= k < |lines| => LineTtl(lines[k]))
  }

  /** The first present value: the `break` after the first TTL found. */
  function FirstSome(xs: seq<Option<nat>>): (r: Option<nat>)
    ensures r.None? <==> forall k :: 0 <= k < |xs| ==> xs[k].None?
  {
    if |xs| == 0 then None
    else if xs[0].Some? then xs[0]
    else
      var r := FirstSome(xs[1..]);
      assert forall k :: 1 <= k < |xs| ==> xs[k] == xs[1..][k - 1];
      r
  }

  /** The value found is the one at the first present position. */
  lemma {:induction false} FirstSomeAt(xs: seq<Option<nat>>, k: nat)
    requires k <= |xs|
    requires forall j :: 0 <= j < k ==> xs[j].None?
    requires k < |xs| ==> xs[k].Some?
    ensures FirstSome(xs) == if k == |xs| then None else xs[k]
  {
    if 0 < k {
      assert forall j :: 0 <= j < |xs| - 1 ==> xs[1..][j] == xs[j + 1];
      FirstSomeAt(xs[1..], k - 1);
    }
  }

  /** Each line's TTL is the value of the digits right after its marker. */
  lemma LineTtlsRead(lines: seq<string>)
    ensures forall j :: 0 <= j < |lines| ==>
      (LineTtls(lines)[j].Some? <==> |DigitsAfterMarker(lines[j])| > 0)
    ensures forall j :: 0 <= j < |lines| && LineTtls(lines)[j].Some? ==>
      LineTtls(lines)[j].value == DecimalValue(DigitsAfterMarker(lines[j]))
  {
    forall j | 0 <= j < |lines|
      ensures LineTtls(lines)[j].Some? <==> |DigitsAfterMarker(lines[j])| > 0
      ensures LineTtls(lines)[j].Some? ==> LineTtls(lines)[j].value == DecimalValue(DigitsAfterMarker(lines[j]))
    {
      LineTtlReadsDigitsAfterMarker(lines[j]);
    }
  }

  /** Reference reading of a reply: the index of the first line carrying the
      marker directly followed by a digit, or the number of lines. */
  function FirstTtlLine(lines: seq<string>): (k: nat)
    ensures k <= |lines|
    ensures forall j :: 0 <= j < k ==> |DigitsAfterMarker(lines[j])| == 0
    ensures k < |lines| ==> |DigitsAfterMarker(lines[k])| > 0
  {
    if |lines| == 0 then 0
    else if |DigitsAfterMarker(lines[0])| > 0 then 0
    else
      var k := 1 + FirstTtlLine(lines[1..]);
      assert forall j :: 1 <= j < k ==> lines[j] == lines[1..][j - 1];
      k
  }

  /** The TTL read from a whole `ping` reply: that of the first line having one. */
  function ReplyTtl(output: string): Option<nat> {
    FirstSome(LineTtls(SplitLines(output)))
  }

  /** `detect_os` minus the process call and the printing. The family is
      always the classification of the TTL found. */
  function DetectOs(output: string): (r: OsReport)
    ensures r.Determined? ==> r.family == Classify(r.ttl)
  {
    match ReplyTtl(output)
    case None => Undetermined
    case Some(ttl) => Determined(ttl, Classify(ttl))
  }

  /** The TTL reported is the maximal digit run right after the first
      marker of the first line where a digit follows the marker; lines with
      the marker but no digit are passed over, and no such line gives the
      undetermined outcome. */
  lemma DetectOsReadsFirstTtlLine(output: string)
    ensures var lines := SplitLines(output);
      var k := FirstTtlLine(lines);
      DetectOs(output) == if k == |lines| then Undetermined
                          else var t := DecimalValue(DigitsAfterMarker(lines[k])); Determined(t, Classify(t))
  {
    var lines := SplitLines(output);
    LineTtlsRead(lines);
    FirstSomeAt(LineTtls(lines), FirstTtlLine(lines));
  }

  /** A line without `=` has no marker, hence no TTL. */
  lemma MarkerNeedsEquals(line: string)
    requires '=' !in line
    ensures |DigitsAfterMarker(line)| == 0
  {
    var lower := Lower(line);
    assert forall i :: 0 <= i < |lower| ==> lower[i] == LowerChar(line[i]) && line[i] in line;
    AbsentCharNoMatch(lower, Marker, 3);
  }

  /** A reply without any `=` carries no TTL: the outcome is undetermined. */
  lemma NoMarkerUndetermined(output: string)
    requires '=' !in output
    ensures DetectOs(output) == Undetermined
  {
    var lines := SplitLines(output);
    var xs := LineTtls(lines);
    forall k | 0 <= k < |lines|
      ensures xs[k].None?
    {
      MarkerNeedsEquals(lines[k]);
      LineTtlReadsDigitsAfterMarker(lines[k]);
    }
  }

  /** A reply of one line is judged by that line alone. */
  lemma OneLineReply(line: string)
    requires |line| > 0
    requires OneLine(line)
    ensures |DigitsAfterMarker(line)| == 0 ==> DetectOs(line) == Undetermined
    ensures |DigitsAfterMarker(line)| > 0 ==>
      var ttl := DecimalValue(DigitsAfterMarker(line));
      DetectOs(line) == Determined(ttl, Classify(ttl))
  {
    assert SplitLines(line) == [line];
    DetectOsReadsFirstTtlLine(line);
  }

  /** Where `a` holds no marker, the first marker of `a + Marker + rest`
      is the one after `a`. */
  lemma FindAfter(a: string, rest: string)
    requires !Contains(a, Marker)
    ensures Find(a + Marker + rest, Marker) == Some(|a|)
  {
    var s := a + Marker + rest;
    assert s[|a|..|a| + 4] == Marker;
    forall j: nat | j < |a|
      ensures !OccursAt(s, Marker, j)
    {
      if j + 4 <= |a| {
        assert !OccursAt(a, Marker, j);
        assert s[j..j + 4] == a[j..j + 4];
      } else {
        assert s[j + 3] == Marker[j + 3 - |a|] != '=';
        assert s[j..j + 4][3] == s[j + 3];
      }
    }
    FindLeftmost(s, Marker, |a|);
  }

  /** Where the lower-cased prefix holds no marker, the first marker of
      `prefix + field + rest` is the field itself. */
  lemma MarkerAfterPrefix(prefix: string, field: string, rest: string)
    requires Lower(field) == Marker
    requires !Contains(Lower(prefix), Marker)
    ensures Find(Lower(prefix + field + rest), Marker) == Some(|prefix|)
  {
    LowerAppend(prefix + field, rest);
    LowerAppend(prefix, field);
    FindAfter(Lower(prefix), Lower(rest));
  }

  /** The digit run of `d + t` is `d` when `t` does not start with a digit. */
  lemma {:induction false} LeadingDigitsOf(d: string, t: string)
    requires AllDigits(d)
    requires |t| > 0 ==> !IsDigit(t[0])
    ensures LeadingDigits(d + t) == d
    decreases |d|
  {
    if |d| > 0 {
      LeadingDigitsOf(d[1..], t);
      assert (d + t)[1..] == d[1..] + t;
    }
  }

  /** The digits after the field of `prefix + field + digits + suffix`. */
  lemma DigitsAfterField(prefix: string, field: string, n: nat, suffix: string)
    requires Lower(field) == Marker
    requires !Contains(Lower(prefix), Marker)
    requires |suffix| > 0 ==> !IsDigit(suffix[0])
    ensures DigitsAfterMarker(prefix + field + Decimal(n) + suffix) == Decimal(n)
  {
    var rest := Decimal(n) + suffix;
    assert prefix + field + Decimal(n) + suffix == prefix + field + rest;
    MarkerAfterPrefix(prefix, field, rest);
    LowerAppend(prefix + field, rest);
    LowerAppend(prefix, field);
    LowerAppend(Decimal(n), suffix);
    LowerDigits(Decimal(n));
    var lower := Lower(prefix) + Marker + (Decimal(n) + Lower(suffix));
    assert lower[|prefix| + 4..] == Decimal(n) + Lower(suffix);
    LeadingDigitsOf(Decimal(n), Lower(suffix));
  }

  /** The field holds no line break, since it lower-cases to the marker. */
  lemma FieldOneLine(field: string)
    requires Lower(field) == Marker
    ensures OneLine(field)
  {
    forall j | 0 <= j < |field|
      ensures !IsLineBreak(field[j])
    {
      assert LowerChar(field[j]) == Marker[j];
    }
  }

  /** A reply line `<prefix>TTL=<n><suffix>`, the field name in any case,
      with no earlier marker and no digit right after the number, yields TTL
      `n` and the family `n` suggests. */
  lemma TtlLine(prefix: string, field: string, n: nat, suffix: string)
    requires Lower(field) == Marker
    requires !Contains(Lower(prefix), Marker)
    requires |suffix| > 0 ==> !IsDigit(suffix[0])
    requires OneLine(prefix) && OneLine(suffix)
    ensures DetectOs(prefix + field + Decimal(n) + suffix) == Determined(n, Classify(n))
  {
    var line := prefix + field + Decimal(n) + suffix;
    DigitsAfterField(prefix, field, n, suffix);
    FieldOneLine(field);
    assert OneLine(Decimal(n));
    OneLineConcat(prefix, field);
    OneLineConcat(prefix + field, Decimal(n));
    OneLineConcat(prefix + field + Decimal(n), suffix);
    OneLineReply(line);
  }

  lemma FirstSomeCons(x: Option<nat>, xs: seq<Option<nat>>)
    ensures FirstSome([x] + xs) == if x.Some? then x else FirstSome(xs)
  {
    assert ([x] + xs)[1..] == xs;
  }

  /** Lines are read in order: the first line's TTL, when it has one, wins;
      otherwise the rest of the reply decides. */
  lemma FirstLineFirst(line: string, rest: string)
    requires OneLine(line)
    ensures |DigitsAfterMarker(line)| > 0 ==>
      var ttl := DecimalValue(DigitsAfterMarker(line));
      DetectOs(line + "\n" + rest) == Determined(ttl, Classify(ttl))
    ensures |DigitsAfterMarker(line)| == 0 ==> DetectOs(line + "\n" + rest) == DetectOs(rest)
  {
    SplitLinesCons(line, rest);
    var xs := LineTtls(SplitLines(rest));
    assert LineTtls([line] + SplitLines(rest)) == [LineTtl(line)] + xs;
    FirstSomeCons(LineTtl(line), xs);
    LineTtlReadsDigitsAfterMarker(line);
  }
}
