/** The per-port loop of `scan_ports` (scanner.py:129-169) and the list of
    open ports derived from its rows (scanner.py:181). The network is an
    oracle: each visited port comes with the outcome of its connection. */
module Scan {
  import opened Wrappers
  import opened Services
  import opened PortSpec

  /** What probing one port gave: `connect_ex` returned non-zero (closed or
      filtered), it returned 0 and `grab_banner` answered `banner` (only
      asked for under version detection), or a socket call raised. */
  datatype Outcome = Closed | Connected(banner: Option<string>) | Raised(message: string)

  datatype Probe = Probe(port: int, outcome: Outcome)

  datatype State = Open | Error

  /** A row of `results`: `(port, "OPEN", service)` or `(port, "ERROR", str(e))`. */
  datatype Row = Row(port: int, state: State, detail: string)

  /** How an open port is labelled from its port number and banner. */
  type Labeler = (int, Option<string>) -> string

  /** The labelling `scan_ports` applies under the version-detection flag. */
  function LabelFor(versionDetect: bool): Labeler {
    (port, banner) => ServiceLabel(port, versionDetect, banner)
  }

  /** The rows one probe appends: none for a closed port. */
  function RowsFor(p: Probe, labelOf: Labeler): (r: seq<Row>)
    ensures |r| == 0 <==> p.outcome.Closed?
    ensures |r| <= 1
  {
    match p.outcome
    case Closed => []
    case Connected(banner) => [Row(p.port, Open, labelOf(p.port, banner))]
    case Raised(message) => [Row(p.port, Error, message)]
  }

  /** `results` after visiting `probes` in order. */
  function Rows(probes: seq<Probe>, labelOf: Labeler): (r: seq<Row>)
    ensures |r| <= |probes|
  {
    if |probes| == 0 then []
    else Rows(probes[..|probes| - 1], labelOf) + RowsFor(probes[|probes| - 1], labelOf)
  }

  /** `[r[0] for r in results if r[1] == "OPEN"]` */
  function OpenPorts(rows: seq<Row>): (r: seq<int>)
    ensures |r| <= |rows|
  {
    if |rows| == 0 then []
    else OpenPorts(rows[..|rows| - 1]) + (if rows[|rows| - 1].state == Open then [rows[|rows| - 1].port] else [])
  }

  /** The scan loop with its result list and the derived open-port list. */
  method ScanPorts(probes: seq<Probe>, versionDetect: bool) returns (results: seq<Row>, openPorts: seq<int>)
    ensures results == Rows(probes, LabelFor(versionDetect))
    ensures openPorts == OpenPorts(results)
    ensures forall p :: p in openPorts <==> Reached(probes, p)
  {
    results := CollectRows(probes, LabelFor(versionDetect));
    openPorts := CollectOpenPorts(results);
    OpenPortsAreConnected(probes, LabelFor(versionDetect));
  }

  /** The `for port in ports` loop, appending each probe's row. */
  method CollectRows(probes: seq<Probe>, labelOf: Labeler) returns (results: seq<Row>)
    ensures results == Rows(probes, labelOf)
  {
    results := [];
    var i := 0;
    while i < |probes|
      invariant 0 <= i <= |probes|
      invariant results == Rows(probes[..i], labelOf)
    {
      var p := probes[i];
      match p.outcome {
        case Closed =>
        case Connected(banner) =>
          var service := labelOf(p.port, banner);
          results := results + [Row(p.port, Open, service)];
        case Raised(message) =>
          results := results + [Row(p.port, Error, message)];
      }
      assert probes[..i + 1][..i] == probes[..i];
      i := i + 1;
    }
    assert probes[..i] == probes;
  }

  /** The list comprehension keeping the ports of OPEN rows. */
  method CollectOpenPorts(results: seq<Row>) returns (openPorts: seq<int>)
    ensures openPorts == OpenPorts(results)
  {
    openPorts := [];
    var j := 0;
    while j < |results|
      invariant 0 <= j <= |results|
      invariant openPorts == OpenPorts(results[..j])
    {
      if results[j].state == Open {
        openPorts := openPorts + [results[j].port];
      }
      assert results[..j + 1][..j] == results[..j];
      j := j + 1;
    }
    assert results[..j] == results;
  }

  /** Scanning two lists one after the other appends their rows. */
  lemma {:induction false} RowsAppend(a: seq<Probe>, b: seq<Probe>, labelOf: Labeler)
    ensures Rows(a + b, labelOf) == Rows(a, labelOf) + Rows(b, labelOf)
    decreases |b|
  {
    if |b| > 0 {
      var b' := b[..|b| - 1];
      assert (a + b)[..|a + b| - 1] == a + b';
      assert (a + b)[|a + b| - 1] == b[|b| - 1];
      RowsAppend(a, b', labelOf);
    } else {
      assert a + b == a;
    }
  }

  lemma {:induction false} OpenPortsAppend(a: seq<Row>, b: seq<Row>)
    ensures OpenPorts(a + b) == OpenPorts(a) + OpenPorts(b)
    decreases |b|
  {
    if |b| > 0 {
      var b' := b[..|b| - 1];
      assert (a + b)[..|a + b| - 1] == a + b';
      assert (a + b)[|a + b| - 1] == b[|b| - 1];
      OpenPortsAppend(a, b');
    } else {
      assert a + b == a;
    }
  }

  /** Row `i` of `rows` is the row probe `origin[i]` appended. */
  predicate OriginOf(probes: seq<Probe>, rows: seq<Row>, origin: seq<nat>, labelOf: Labeler) {
    |origin| == |rows|
    && (forall i :: 0 <= i < |rows| ==> origin[i] < |probes| && RowsFor(probes[origin[i]], labelOf) == [rows[i]])
  }

  predicate Increasing(origin: seq<nat>) {
    forall i, j :: 0 <= i < j < |origin| ==> origin[i] < origin[j]
  }

  /** Every probe that was not closed is the origin of a row. */
  predicate CoversNotClosed(probes: seq<Probe>, origin: seq<nat>) {
    forall k :: 0 <= k < |probes| && !probes[k].outcome.Closed? ==> k in origin
  }

  /** The positions of the probes that were not closed, in visiting order:
      the probe each row comes from. */
  function Origin(probes: seq<Probe>): (o: seq<nat>)
    ensures forall i :: 0 <= i < |o| ==> o[i] < |probes|
  {
    if |probes| == 0 then []
    else
      var n := |probes| - 1;
      Origin(probes[..n]) + (if probes[n].outcome.Closed? then [] else [n])
  }

  /** Each row comes from a probe, in visiting order: row `i` is the row of
      probe `Origin(probes)[i]`, those origins strictly increase, and every
      probe that was not closed is the origin of some row. An OPEN row thus
      carries the label of its connected port and an ERROR row the
      exception's message. */
  lemma {:induction false} RowsOrigin(probes: seq<Probe>, labelOf: Labeler)
    ensures OriginOf(probes, Rows(probes, labelOf), Origin(probes), labelOf)
    ensures Increasing(Origin(probes))
    ensures CoversNotClosed(probes, Origin(probes))
  {
    if |probes| > 0 {
      RowsOrigin(probes[..|probes| - 1], labelOf);
      OriginStep(probes, labelOf);
    }
  }

  /** The inductive step of `RowsOrigin`: the last probe adds its row, if
      any, at the end. */
  lemma OriginStep(probes: seq<Probe>, labelOf: Labeler)
    requires |probes| > 0
    requires var init := probes[..|probes| - 1];
      OriginOf(init, Rows(init, labelOf), Origin(init), labelOf)
      && Increasing(Origin(init)) && CoversNotClosed(init, Origin(init))
    ensures OriginOf(probes, Rows(probes, labelOf), Origin(probes), labelOf)
    ensures Increasing(Origin(probes))
    ensures CoversNotClosed(probes, Origin(probes))
  {
    var init := probes[..|probes| - 1];
    OriginRowsStep(probes, labelOf, Origin(init), Origin(probes));
    CoverStep(probes, Origin(init), Origin(probes));
  }

  lemma OriginRowsStep(probes: seq<Probe>, labelOf: Labeler, o: seq<nat>, origin: seq<nat>)
    requires |probes| > 0
    requires OriginOf(probes[..|probes| - 1], Rows(probes[..|probes| - 1], labelOf), o, labelOf)
    requires Increasing(o)
    requires origin == if probes[|probes| - 1].outcome.Closed? then o else o + [|probes| - 1]
    ensures OriginOf(probes, Rows(probes, labelOf), origin, labelOf)
    ensures Increasing(origin)
  {
    var n := |probes| - 1;
    if probes[n].outcome.Closed? {
      OriginKeep(probes, labelOf, o);
    } else {
      OriginExtend(probes, labelOf, o);
      IncreasingSnoc(o, n);
    }
  }

  /** A closed last probe keeps the rows and their origins. */
  lemma {:induction false} OriginKeep(probes: seq<Probe>, labelOf: Labeler, o: seq<nat>)
    requires |probes| > 0 && probes[|probes| - 1].outcome.Closed?
    requires OriginOf(probes[..|probes| - 1], Rows(probes[..|probes| - 1], labelOf), o, labelOf)
    ensures OriginOf(probes, Rows(probes, labelOf), o, labelOf)
  {
    var n := |probes| - 1;
    var init := probes[..n];
    assert Rows(probes, labelOf) == Rows(init, labelOf) + [];
    forall i | 0 <= i < |o|
      ensures init[o[i]] == probes[o[i]]
    {
    }
  }

  /** Any other last probe appends its row, whose origin is that probe. */
  lemma {:induction false} OriginExtend(probes: seq<Probe>, labelOf: Labeler, o: seq<nat>)
    requires |probes| > 0 && !probes[|probes| - 1].outcome.Closed?
    requires OriginOf(probes[..|probes| - 1], Rows(probes[..|probes| - 1], labelOf), o, labelOf)
    ensures OriginOf(probes, Rows(probes, labelOf), o + [|probes| - 1], labelOf)
  {
    var n := |probes| - 1;
    var init := probes[..n];
    var prev := Rows(init, labelOf);
    var rows := Rows(probes, labelOf);
    assert rows == prev + RowsFor(probes[n], labelOf);
    var origin := o + [n];
    forall i | 0 <= i < |rows|
      ensures origin[i] < |probes| && RowsFor(probes[origin[i]], labelOf) == [rows[i]]
    {
      if i < |prev| {
        assert rows[i] == prev[i] && origin[i] == o[i];
        assert init[o[i]] == probes[o[i]];
      }
    }
  }

  lemma IncreasingSnoc(o: seq<nat>, n: nat)
    requires Increasing(o)
    requires forall i :: 0 <= i < |o| ==> o[i] < n
    ensures Increasing(o + [n])
  {
  }

  lemma CoverStep(probes: seq<Probe>, o: seq<nat>, origin: seq<nat>)
    requires |probes| > 0
    requires CoversNotClosed(probes[..|probes| - 1], o)
    requires origin == if probes[|probes| - 1].outcome.Closed? then o else o + [|probes| - 1]
    ensures CoversNotClosed(probes, origin)
  {
    var n := |probes| - 1;
    forall k | 0 <= k < |probes| && !probes[k].outcome.Closed?
      ensures k in origin
    {
      if k < n {
        assert probes[..n][k] == probes[k];
        assert k in o;
      } else {
        assert origin[|origin| - 1] == k;
      }
    }
  }

  /** A probe list where every port was closed yields no rows, hence the
      "no open ports" report. */
  lemma {:induction false} AllClosedNoRows(probes: seq<Probe>, labelOf: Labeler)
    requires forall k :: 0 <= k < |probes| ==> probes[k].outcome.Closed?
    ensures Rows(probes, labelOf) == []
    ensures OpenPorts(Rows(probes, labelOf)) == []
  {
    if |probes| > 0 {
      AllClosedNoRows(probes[..|probes| - 1], labelOf);
    }
  }

  /** Some probe of port `p` connected. */
  predicate Reached(probes: seq<Probe>, p: int) {
    exists k :: 0 <= k < |probes| && probes[k].port == p && probes[k].outcome.Connected?
  }

  lemma ReachedSnoc(probes: seq<Probe>, p: int)
    requires |probes| > 0
    ensures var n := |probes| - 1;
      Reached(probes, p) <==> Reached(probes[..n], p) || (probes[n].port == p && probes[n].outcome.Connected?)
  {
    var n := |probes| - 1;
    if Reached(probes, p) {
      var k :| 0 <= k < |probes| && probes[k].port == p && probes[k].outcome.Connected?;
      if k < n {
        assert probes[..n][k] == probes[k];
      }
    }
    if Reached(probes[..n], p) {
      var k :| 0 <= k < n && probes[..n][k].port == p && probes[..n][k].outcome.Connected?;
      assert probes[k] == probes[..n][k];
    }
  }

  /** The open-port list grows by the last probe's port when it connected. */
  lemma OpenPortsStep(probes: seq<Probe>, labelOf: Labeler)
    requires |probes| > 0
    ensures var n := |probes| - 1;
      OpenPorts(Rows(probes, labelOf))
      == OpenPorts(Rows(probes[..n], labelOf)) + (if probes[n].outcome.Connected? then [probes[n].port] else [])
  {
    var n := |probes| - 1;
    var last := RowsFor(probes[n], labelOf);
    OpenPortsAppend(Rows(probes[..n], labelOf), last);
    assert OpenPorts(last) == if probes[n].outcome.Connected? then [probes[n].port] else [];
  }

  /** A port is listed as open exactly when some probe of it connected. */
  lemma {:induction false} OpenPortListed(probes: seq<Probe>, labelOf: Labeler, p: int)
    ensures p in OpenPorts(Rows(probes, labelOf)) <==> Reached(probes, p)
  {
    if |probes| > 0 {
      OpenPortListed(probes[..|probes| - 1], labelOf, p);
      OpenPortsStep(probes, labelOf);
      ReachedSnoc(probes, p);
    }
  }

  lemma OpenPortsAreConnected(probes: seq<Probe>, labelOf: Labeler)
    ensures forall p :: p in OpenPorts(Rows(probes, labelOf)) <==> Reached(probes, p)
  {
    forall p {
      OpenPortListed(probes, labelOf, p);
    }
  }

  /** The probes with every banner of a connected port replaced by `None`. */
  function WithoutBanners(probes: seq<Probe>): (r: seq<Probe>)
    ensures |r| == |probes|
    ensures forall k :: 0 <= k < |probes| ==> r[k].port == probes[k].port
  {
    seq(|probes|, k requires 0 <= k < |probes| =>
      match probes[k].outcome
      case Connected(_) => Probe(probes[k].port, Connected(None))
      case _ => probes[k])
  }

  /** A labelling that does not look at the banner. */
  ghost predicate IgnoresBanner(labelOf: Labeler) {
    forall port, banner :: labelOf(port, banner) == labelOf(port, None)
  }

  /** Without version detection the banners play no part in the rows. */
  lemma {:induction false} BannersIgnored(probes: seq<Probe>, labelOf: Labeler)
    requires IgnoresBanner(labelOf)
    ensures Rows(probes, labelOf) == Rows(WithoutBanners(probes), labelOf)
  {
    if |probes| > 0 {
      var n := |probes| - 1;
      BannersIgnored(probes[..n], labelOf);
      assert WithoutBanners(probes)[..n] == WithoutBanners(probes[..n]);
    }
  }

  lemma VersionOffIgnoresBanners(probes: seq<Probe>)
    ensures Rows(probes, LabelFor(false)) == Rows(WithoutBanners(probes), LabelFor(false))
  {
    forall port, banner
      ensures LabelFor(false)(port, banner) == LabelFor(false)(port, None)
    {
      VersionOffLabel(port, banner);
    }
    BannersIgnored(probes, LabelFor(false));
  }

  lemma AscendingSnoc(s: seq<int>, x: int)
    requires Ascending(s)
    requires forall q :: q in s ==> q < x
    ensures Ascending(s + [x])
  {
    assert forall i :: 0 <= i < |s| ==> s[i] in s;
  }

  lemma PortsAscendingPrefix(probes: seq<Probe>)
    requires |probes| > 0 && PortsAscending(probes)
    ensures PortsAscending(probes[..|probes| - 1])
  {
    var init := probes[..|probes| - 1];
    assert forall i :: 0 <= i < |init| ==> init[i] == probes[i];
  }

  /** The probes visit strictly increasing ports. */
  predicate PortsAscending(probes: seq<Probe>) {
    forall i, j :: 0 <= i < j < |probes| ==> probes[i].port < probes[j].port
  }

  /** Every port listed before the last probe is below the last probe's port. */
  lemma ListedBelowLast(probes: seq<Probe>, labelOf: Labeler)
    requires |probes| > 0 && PortsAscending(probes)
    ensures var n := |probes| - 1;
      forall q :: q in OpenPorts(Rows(probes[..n], labelOf)) ==> q < probes[n].port
  {
    var n := |probes| - 1;
    var init := probes[..n];
    forall q | q in OpenPorts(Rows(init, labelOf))
      ensures q < probes[n].port
    {
      OpenPortListed(init, labelOf, q);
      var k :| 0 <= k < |init| && init[k].port == q && init[k].outcome.Connected?;
      assert init[k] == probes[k];
    }
  }

  /** Scanning ports in ascending order, as `parse_ports` delivers them, lists
      the open ports in ascending order. */
  lemma {:induction false} OpenPortsAscending(probes: seq<Probe>, labelOf: Labeler)
    requires PortsAscending(probes)
    ensures Ascending(OpenPorts(Rows(probes, labelOf)))
  {
    if |probes| > 0 {
      var n := |probes| - 1;
      var init := probes[..n];
      PortsAscendingPrefix(probes);
      OpenPortsAscending(init, labelOf);
      OpenPortsStep(probes, labelOf);
      ListedBelowLast(probes, labelOf);
      var before := OpenPorts(Rows(init, labelOf));
      if probes[n].outcome.Connected? {
        AscendingSnoc(before, probes[n].port);
      } else {
        assert before + [] == before;
      }
    }
  }
}
