/** Service labels for open ports: the static well-known-port table and the
    classification of a grabbed banner (scanner.py:8-40, 139-165). */
module Services {
  import opened Wrappers
  import opened Text

  /** `KNOWN_SERVICES`: the default service of well-known ports. */
  const KnownServices: map<int, string> := map[
    21 := "FTP",
    22 := "SSH",
    23 := "Telnet",
    25 := "SMTP",
    53 := "DNS",
    80 := "HTTP",
    88 := "Kerberos",
    110 := "POP3",
    135 := "MS RPC",
    137 := "NetBIOS Name Service",
    138 := "NetBIOS Datagram Service",
    139 := "NetBIOS Session Service",
    143 := "IMAP",
    389 := "LDAP",
    445 := "SMB",
    464 := "Kerberos Change/Set Password",
    636 := "LDAPS",
    3268 := "Global Catalog",
    3269 := "Global Catalog SSL",
    3389 := "RDP",
    5985 := "WinRM HTTP",
    5986 := "WinRM HTTPS",
    593 := "RPC over HTTP",
    993 := "IMAPS",
    995 := "POP3S",
    1723 := "PPTP",
    3306 := "MySQL",
    5432 := "PostgreSQL",
    5900 := "VNC",
    8000 := "HTTP",
    8080 := "HTTP"
  ]

  /** `KNOWN_SERVICES.get(port, default)` */
  function TableLookup(port: int, default: string): (r: string)
    ensures port in KnownServices ==> r == KnownServices[port]
    ensures port !in KnownServices ==> r == default
  {
    if port in KnownServices then KnownServices[port] else default
  }

  /** The table names ports of the TCP range only, every one with a
      non-empty name that is never the "Unknown" fallback. */
  lemma TableShape()
    ensures forall p :: p in KnownServices ==> 0 < p < 65536
    ensures forall p :: p in KnownServices ==> |KnownServices[p]| > 0 && KnownServices[p] != "Unknown"
  {
  }

  /** Exactly three ports default to plain HTTP. */
  lemma HttpPorts(p: int)
    ensures p in KnownServices && KnownServices[p] == "HTTP" <==> p == 80 || p == 8000 || p == 8080
  {
  }

  /** The branch of the `if`/`elif` chain a banner selects, in priority order. */
  datatype BannerKind = HttpBanner | SshBanner | FtpBanner | SmtpBanner | OtherBanner

  function Kind(banner: string): (k: BannerKind)
    ensures k == HttpBanner <==> Contains(Lower(banner), "http")
  {
    var lower := Lower(banner);
    if Contains(lower, "http") then HttpBanner
    else if StartsWith(banner, "SSH-") then SshBanner
    else if Contains(lower, "ftp") then FtpBanner
    else if Contains(lower, "smtp") then SmtpBanner
    else OtherBanner
  }

  /** A header line `Server: ...`, the name in any case. */
  predicate IsServerLine(line: string) {
    StartsWith(Lower(line), "server:")
  }

  /** `line.split(":", 1)[1].strip()`: the trimmed text after the first colon. */
  function HeaderValue(line: string): string {
    match Find(line, ":")
    case Some(i) => Strip(line[i + 1..], IsSpace)
    case None => ""
  }

  /** On a server line the first colon is the one closing `server:`, so the
      value is the trimmed rest of the line after those seven characters. */
  lemma HeaderValueAfterName(line: string)
    requires IsServerLine(line)
    ensures HeaderValue(line) == Strip(line[7..], IsSpace)
  {
    var lower := Lower(line);
    assert lower[..7] == "server:";
    assert lower[6] == ':';
    assert line[6] == ':';
    forall j: nat | j < 6
      ensures !OccursAt(line, ":", j)
    {
      assert lower[j] == "server:"[j];
    }
    FindLeftmost(line, ":", 6);
  }

  /** The `for line in banner_lines` search: the value of the first server
      line, whether or not it is empty (the loop breaks there either way). */
  function ServerHeader(lines: seq<string>): (r: Option<string>)
    ensures r.None? <==> forall k :: 0 <= k < |lines| ==> !IsServerLine(lines[k])
  {
    if |lines| == 0 then None
    else if IsServerLine(lines[0]) then Some(HeaderValue(lines[0]))
    else
      var r := ServerHeader(lines[1..]);
      assert forall k :: 1 <= k < |lines| ==> lines[k] == lines[1..][k - 1];
      r
  }

  /** The header found is the one on the first server line. */
  lemma {:induction false} ServerHeaderFirst(lines: seq<string>, k: nat)
    requires k < |lines| && IsServerLine(lines[k])
    requires forall j :: 0 <= j < k ==> !IsServerLine(lines[j])
    ensures ServerHeader(lines) == Some(HeaderValue(lines[k]))
  {
    if 0 < k {
      assert forall j :: 0 <= j < |lines| - 1 ==> lines[1..][j] == lines[j + 1];
      ServerHeaderFirst(lines[1..], k - 1);
    }
  }

  /** The label of an HTTP banner: the server name when the header gives a
      non-empty one. */
  function HttpLabel(server: Option<string>): (r: string)
    ensures r == "HTTP" || (server.Some? && r == "HTTP (" + server.value + ")")
    ensures r == "HTTP" <==> server.None? || |server.value| == 0
  {
    match server
    case Some(v) => if |v| > 0 then "HTTP (" + v + ")" else "HTTP"
    case None => "HTTP"
  }

  /** The service label of a non-empty banner (scanner.py:142-161). */
  function BannerLabel(banner: string): string {
    var lines := SplitLines(banner);
    var firstLine := if |lines| > 0 then lines[0] else banner;
    match Kind(banner)
    case HttpBanner => HttpLabel(ServerHeader(lines))
    case SshBanner => firstLine
    case FtpBanner => firstLine
    case SmtpBanner => firstLine
    case OtherBanner => firstLine
  }

  /** A banner mentioning "http" in any case is labelled HTTP, whatever
      else it starts with (an `SSH-` greeting included). */
  lemma HttpBannerLabel(banner: string)
    requires Contains(Lower(banner), "http")
    ensures BannerLabel(banner)[..4] == "HTTP"
    ensures ServerHeader(SplitLines(banner)).None? ==> BannerLabel(banner) == "HTTP"
  {
  }

  /** With a server line, the name shown is the trimmed text after
      `server:` on the first such line, and is left out when that is empty. */
  lemma HttpBannerServer(banner: string, k: nat)
    requires Contains(Lower(banner), "http")
    requires k < |SplitLines(banner)| && IsServerLine(SplitLines(banner)[k])
    requires forall j :: 0 <= j < k ==> !IsServerLine(SplitLines(banner)[j])
    ensures var v := Strip(SplitLines(banner)[k][7..], IsSpace);
      BannerLabel(banner) == if |v| > 0 then "HTTP (" + v + ")" else "HTTP"
  {
    var lines := SplitLines(banner);
    ServerHeaderFirst(lines, k);
    HeaderValueAfterName(lines[k]);
  }

  /** Any other banner, SSH, FTP and SMTP greetings included, is labelled
      with its first line verbatim; that label never mentions "http". */
  lemma OtherBannerLabel(banner: string)
    requires !Contains(Lower(banner), "http")
    ensures BannerLabel(banner) == FirstLine(banner)
    ensures !Contains(Lower(BannerLabel(banner)), "http")
  {
    var e := LineEnd(banner);
    LowerPrefix(banner, e);
    if Contains(Lower(banner)[..e], "http") {
      ContainsPrefix(Lower(banner), e, "http");
    }
  }

  /** The label of an open port (scanner.py:136-165). `banner` is what
      `grab_banner` returned: `None`, or the decoded and stripped reply. An
      empty banner is falsy and falls back to the table like `None`. */
  function ServiceLabel(port: int, versionDetect: bool, banner: Option<string>): string {
    if versionDetect then
      match banner
      case Some(b) => if |b| > 0 then BannerLabel(b) else TableLookup(port, "Unknown")
      case None => TableLookup(port, "Unknown")
    else TableLookup(port, "")
  }

  /** Without version detection the label is the table entry, and it is
      empty exactly for ports the table does not name. */
  lemma VersionOffLabel(port: int, banner: Option<string>)
    ensures ServiceLabel(port, false, banner) == ServiceLabel(port, false, None)
    ensures ServiceLabel(port, false, banner) == "" <==> port !in KnownServices
  {
    TableShape();
  }

  /** With version detection and a non-empty banner the table plays no
      part: the label depends on the banner alone. */
  lemma BannerOverridesTable(port: int, other: int, banner: string)
    requires |banner| > 0
    ensures ServiceLabel(port, true, Some(banner)) == ServiceLabel(other, true, Some(banner)) == BannerLabel(banner)
  {
  }

  /** With version detection but no banner, the label is the table entry,
      and it is "Unknown" exactly for ports the table does not name. */
  lemma NoBannerLabel(port: int, banner: Option<string>)
    requires banner.None? || |banner.value| == 0
    ensures ServiceLabel(port, true, banner) == TableLookup(port, "Unknown")
    ensures ServiceLabel(port, true, banner) == "Unknown" <==> port !in KnownServices
  {
    TableShape();
  }
}
