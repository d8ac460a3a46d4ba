# Port scanner core in Dafny

A model of the decision logic of `scanner.py`, a small TCP port scanner. It
covers four parts:

- **`parse_ports`**: turns a specification such as `22,80,1000-1005` into
  the sorted list of ports it names.
- **OS detection**: reads the first TTL out of a `ping` reply and guesses the
  operating-system family from it.
- **Service labelling**: labels an open port from the `KNOWN_SERVICES` table
  or from the banner the service sent.
- **Result assembly** in `scan_ports`: one row per port that was not closed
  (OPEN when the connection succeeded, ERROR when a socket call raised), and
  from those rows the list of open ports.

Nothing here talks to a network or a process. The `ping` reply is a string
parameter of `DetectOs`. Each scanned port comes with the outcome of its
connection attempt (`Scan.Outcome`), which stands in for the socket calls.

Modules:

- `Wrappers`: `Option` and `Result`.
- `Text`: the parts of Python's `str` the scanner relies on, on ASCII:
  - `lower`, `in`/`find`, `split`, `splitlines`, `strip`;
  - `isdigit`, `int()` and `str()` of an integer.
- `PortSpec`: `parse_ports` and the `--start/--end` range.
- `OsDetect`: TTL extraction and the TTL thresholds.
- `Services`: `KNOWN_SERVICES`, the banner classifier and the label of an
  open port.
- `Scan`: the per-port loop of `scan_ports` and the `open_ports` list.

Python's `set` of ports is kept in its canonical form, a strictly ascending
sequence, so the final `sorted` is the identity. A failed `int()` or a failed
unpack is a `Failure` where Python raises `ValueError`. The model records
which of the two it was.

Facts about `scanner.py` that shape the model:

- `parse_ports` puts no bound on the ports (scanner.py:187-195; see
  `NoPortBound`). Any text without `-` that `int()` accepts is a port. An
  inverted range such as `9-5` is accepted and adds nothing.
- A malformed token makes `parse_ports` raise `ValueError`
  (scanner.py:191-194).
- A closed or filtered port produces no row (scanner.py:135-167). The only
  row states are OPEN and ERROR.
- The TTL is the digit run *immediately* after the first `ttl=` of a line
  (scanner.py:67-77). A line where a non-digit follows that marker is
  skipped, even if a later `ttl=` on the same line has digits.

## Model

| member | source | states |
|---|---|---|
| PortSpec.ParseToken | scanner.py:190-194 | a parsed token is never negative; it is a range exactly when the text holds `-`; it fails with `TooManyDashes` naming the whole token exactly when the text holds two `-` anywhere |
| PortSpec.ParseTokenUnpacks | scanner.py:190-191 | the two-way unpack of `part.split("-")` succeeds exactly when no second `-` follows the first, and then yields the texts before and after the first `-` |
| PortSpec.FirstBad | scanner.py:189-194 | the index of the leftmost token that fails, every earlier token parsing |
| PortSpec.ParseAll | scanner.py:189-194 | all tokens parse, in order, or the error is that of the leftmost bad token |
| PortSpec.Insert | scanner.py:194 | `ports.add(x)` keeps the set ascending and adds exactly `x` |
| PortSpec.AddSpan | scanner.py:192 | `ports.update(range(a, b + 1))` adds exactly the ports from `a` to `b`, none when `a > b` |
| PortSpec.AddToken | scanner.py:190-194 | one loop iteration adds exactly the ports the token covers |
| PortSpec.Collect | scanner.py:188-195 | the result is ascending and holds exactly the ports some token covers |
| PortSpec.ParsePorts | scanner.py:187-195 | succeeds exactly when every token parses; the result is sorted, duplicate-free, non-negative and holds exactly the named ports; on failure the error is that of the leftmost bad token |
| PortSpec.AscendingUnique | scanner.py:195 | two sorted duplicate-free lists with the same elements are equal, so `sorted(set)` is determined by the set |
| PortSpec.SameNamesSameResult | scanner.py:187-195 | two specifications naming the same ports give the same list |
| PortSpec.AppendParts | scanner.py:189-194 | concatenated token lists parse when both halves do and name the union of the ports |
| PortSpec.Concat | scanner.py:189 | joining two specifications with a comma is well formed exactly when both are, and names the union |
| PortSpec.TokenOrderIrrelevant | scanner.py:188-195 | swapping two well-formed halves of a specification leaves the result unchanged (with malformed halves the leftmost error can differ) |
| PortSpec.RepetitionIrrelevant | scanner.py:188-195 | repeating any specification leaves the result unchanged: the same ports, or the same error |
| PortSpec.ParseRenderToken | scanner.py:190-194 | a non-negative token written as `n` or `a-b` parses back to itself |
| PortSpec.ParseAllTokens | scanner.py:189-194 | texts that each parse to their token parse to the token list |
| PortSpec.ParseRender | scanner.py:187-195 | round trip: writing tokens out comma-separated and parsing gives the ascending union of what they cover |
| PortSpec.SingleToken | scanner.py:190-194 | a specification of one written token names exactly what that token covers |
| PortSpec.InvertedRangeAddsNothing | scanner.py:192 | appending an inverted range `a-b` with `a > b` changes nothing and raises nothing |
| PortSpec.TwoDashesRejected | scanner.py:191 | a token with two `-` fails at the unpack |
| PortSpec.TwoDashesAfterFirst | scanner.py:190-191 | a token holds two `-` exactly when a `-` follows its first one, the text `split("-")` would put in a third piece |
| PortSpec.FirstBadPrefix | scanner.py:189-194 | a bad token keeps its place as the first bad one when more tokens follow it |
| PortSpec.DoubleRangeRejected | scanner.py:191 | a specification that is one token with two `-` fails with that token |
| PortSpec.NameRejected | scanner.py:194 | a token holding a letter, such as a service name, is not an integer |
| PortSpec.EmptySpecRejected | scanner.py:194 | the empty specification fails, as `int("")` raises |
| PortSpec.TrailingCommaRejected | scanner.py:189-194 | a trailing comma leaves an empty token, which fails |
| PortSpec.SecondTokenRejected | scanner.py:189-194 | after a good token, the bad second token decides the error |
| PortSpec.SingleTokenRejected | scanner.py:189-194 | a one-token specification fails with that token's error |
| PortSpec.NoPortBound | scanner.py:187-195 | any natural number is accepted as a port, with no 65535 limit |
| PortSpec.ExampleSpec | scanner.py:202 | the `--ports` help example `22,80,1000-1005` gives `[22, 80, 1000, 1001, 1002, 1003, 1004, 1005]` |
| PortSpec.SinglesThenSpan | scanner.py:188-195 | two single ports below a range give those two ports, then every port of the range in order |
| PortSpec.RangeList | scanner.py:224 | `list(range(start, end + 1))` holds `start, start+1, …, end`, empty when `start > end` |
| PortSpec.RangeListMatchesSpan | scanner.py:221-224 | `--start a --end b` scans the same ascending list as `-p a-b` |
| OsDetect.Classify | scanner.py:79-84 | TTL at most 64 is Linux/Unix, 65 to 128 is Windows, above 128 is unknown, each as an if-and-only-if |
| OsDetect.ClassifyMonotone | scanner.py:78-84 | a larger TTL never gives a family lower on that scale |
| OsDetect.SplitFirstPiece | scanner.py:67 | the first piece of `split(sep)` ends at the first separator |
| OsDetect.LeadingDigitsCut | scanner.py:69-74 | the digit loop's `break` reads the same digits from the piece as from the whole rest of the line |
| OsDetect.LineTtlReadsDigitsAfterMarker | scanner.py:65-77 | a line yields a TTL exactly when digits immediately follow its first `ttl=`, and the TTL is their value |
| OsDetect.LineTtl | scanner.py:65-77 | It has no contract of its own; LineTtlReadsDigitsAfterMarker states when a line yields a TTL and its value. |
| OsDetect.FirstSome | scanner.py:64-77 | the loop finds nothing exactly when no line yields a TTL |
| OsDetect.FirstSomeAt | scanner.py:75-77 | the `break` keeps the value at the first line that yields one |
| OsDetect.FirstTtlLine | scanner.py:64-77 | the index of the first line with digits right after its marker, every earlier line having none |
| OsDetect.ReplyTtl | scanner.py:64-77 | It has no contract of its own; DetectOsReadsFirstTtlLine states that the TTL found is that of the first line with digits after its marker. |
| OsDetect.DetectOs | scanner.py:78-84 | a determined report names the family its TTL classifies to |
| OsDetect.DetectOsReadsFirstTtlLine | scanner.py:63-84 | the report is undetermined when no line has a TTL, and otherwise carries the first such line's TTL and its family |
| OsDetect.MarkerNeedsEquals | scanner.py:65 | a line without `=` has no marker and yields no TTL |
| OsDetect.NoMarkerUndetermined | scanner.py:78-87 | a reply without `=` is undetermined |
| OsDetect.OneLineReply | scanner.py:64-84 | a one-line reply is judged by that line alone |
| OsDetect.TtlLine | scanner.py:64-84 | a line `<prefix>TTL=<n><suffix>`, the field in any case, is determined with TTL `n` and its family |
| OsDetect.FirstLineFirst | scanner.py:64-77 | lines are read in order: the first line's TTL wins, and a line without one defers to the rest |
| Services.TableLookup | scanner.py:163-165 | `KNOWN_SERVICES.get(port, default)`: the entry when the port is listed, the default otherwise |
| Services.TableShape | scanner.py:8-40 | every listed port is in 1..65535 and has a non-empty name other than "Unknown" |
| Services.HttpPorts | scanner.py:8-40 | exactly ports 80, 8000 and 8080 default to "HTTP" |
| Services.Kind | scanner.py:144 | A banner takes the HTTP branch exactly when its lower-cased text contains "http". |
| Services.HeaderValue | scanner.py:148 | It has no contract of its own; HeaderValueAfterName states its value on a server line. |
| Services.HeaderValueAfterName | scanner.py:147-148 | on a `server:` line the first colon is the one closing the name, so the value is the stripped rest after seven characters |
| Services.ServerHeader | scanner.py:145-149 | no server value is found exactly when no line starts with `server:` in any case |
| Services.ServerHeaderFirst | scanner.py:146-149 | the value found is that of the first server line |
| Services.HttpLabel | scanner.py:150-153 | the label is "HTTP" exactly when there is no server value or it is empty, else "HTTP (value)" |
| Services.HttpBannerLabel | scanner.py:144-153 | a banner containing "http", even one starting `SSH-`, is labelled starting "HTTP", and plain "HTTP" without a server line |
| Services.HttpBannerServer | scanner.py:144-153 | with a server line, the label shows the stripped value of the first one, or is plain "HTTP" if that value is empty |
| Services.BannerLabel | scanner.py:140-161 | It has no contract of its own; HttpBannerLabel, HttpBannerServer and OtherBannerLabel state its value for every banner. |
| Services.OtherBannerLabel | scanner.py:140-161 | any other banner is labelled with its first line verbatim, and that label never mentions "http" |
| Services.ServiceLabel | scanner.py:136-165 | It has no contract of its own; VersionOffLabel, BannerOverridesTable and NoBannerLabel state its three cases. |
| Services.VersionOffLabel | scanner.py:164-165 | without version detection the banner is ignored and the label is empty exactly for unlisted ports |
| Services.BannerOverridesTable | scanner.py:137-161 | with version detection and a non-empty banner, the label does not depend on the port |
| Services.NoBannerLabel | scanner.py:162-163 | with version detection and no or an empty banner, the label is the table entry, "Unknown" exactly for unlisted ports |
| Scan.RowsFor | scanner.py:133-169 | a probe adds no row exactly when its port was closed, and never more than one |
| Scan.Rows | scanner.py:129-169 | there are never more rows than ports visited |
| Scan.OpenPorts | scanner.py:181 | the open-port list is never longer than the row list |
| Scan.ScanPorts | scanner.py:128-181 | the loop builds the rows and the open-port list; a port is listed open exactly when its connection succeeded |
| Scan.CollectRows | scanner.py:129-169 | the loop's result list is the rows of the probes in visiting order |
| Scan.CollectOpenPorts | scanner.py:181 | the comprehension keeps the ports of OPEN rows in order |
| Scan.RowsAppend | scanner.py:130-169 | scanning two port lists in turn concatenates their rows |
| Scan.OpenPortsAppend | scanner.py:181 | the open ports of concatenated rows are concatenated |
| Scan.Origin | scanner.py:130-169 | the positions, in visiting order, of the probes that add a row, each a valid position |
| Scan.RowsOrigin | scanner.py:129-169 | each row is the row of one probe, in visiting order, and every probe that was not closed owns a row: an OPEN row carries its port's label and an ERROR row the exception text |
| Scan.AllClosedNoRows | scanner.py:181-183 | when every port was closed there are no rows and no open ports |
| Scan.OpenPortListed | scanner.py:181 | a port is in `open_ports` exactly when some probe of it connected |
| Scan.OpenPortsAreConnected | scanner.py:181 | the same for all ports at once |
| Scan.BannersIgnored | scanner.py:164-166 | under a labelling that ignores banners, dropping every banner leaves the rows unchanged |
| Scan.VersionOffIgnoresBanners | scanner.py:164-166 | without version detection, banners play no part in the rows |
| Scan.OpenPortsAscending | scanner.py:181 | ports scanned in ascending order, as `parse_ports` delivers them, are listed open in ascending order |
| Text.LowerSpec | scanner.py:142 | `lower()` keeps the length, maps each capital letter to the lower-case letter of the same alphabet position, keeps every other character, and is idempotent |
| Text.Lower | scanner.py:142 | It has no contract of its own; LowerSpec states its value character by character. |
| Text.Find | scanner.py:65 | `sub in s`: the found index is the leftmost occurrence, and none means no occurrence at all |
| Text.IndexOf | scanner.py:191 | the position of the first `-` of a token |
| Text.Split | scanner.py:189 | `split(sep)`: at least one piece, no piece holds the separator, joining the pieces gives back the text, and more than one piece exactly when the separator occurs |
| Text.SplitAround | scanner.py:189 | splitting `x + sep + y` is splitting `x` followed by splitting `y` |
| Text.SplitJoin | scanner.py:189 | joining pieces that lack the separator and splitting again gives the pieces back |
| Text.SplitLines | scanner.py:140 | `splitlines()`: no lines exactly for the empty text, the first line ends at the first break, and no line holds a break |
| Text.SplitLinesCons | scanner.py:64 | a line followed by `\n` is split off ahead of the rest |
| Text.SplitLinesCrLf | scanner.py:140 | a line followed by `\r\n` is split off ahead of the rest, the pair being one boundary |
| Text.SplitLinesCr | scanner.py:140 | a line followed by a `\r` that is not followed by `\n` is split off ahead of the rest |
| Text.SplitLinesOne | scanner.py:140 | a non-empty text without a line break is one line |
| Text.FirstLine | scanner.py:141 | `banner_lines[0] if banner_lines else banner` is the text up to the first line break |
| Text.Strip | scanner.py:148 | It has no contract of its own; StripSlice and StripSpec state what it keeps and removes. With `IsSpace` it is `strip()`; with `IntSpace` it is the trimming `int()` does. |
| Text.StripSlice | scanner.py:148 | `strip()` keeps one contiguous slice of the text and everything before and after that slice is whitespace |
| Text.StripSpec | scanner.py:148 | the stripped text's ends are not whitespace, text without whitespace is kept whole, and the result is empty exactly for all-whitespace input |
| Text.StripKeeps | scanner.py:148 | stripping keeps every character that is not whitespace |
| Text.LeadingDigits | scanner.py:69-74 | the maximal run of digits at the start of the text |
| Text.PyInt | scanner.py:194 | `int()` reads a digit string as its decimal value and never yields a negative number from text without `-` |
| Text.PyIntDecimal | scanner.py:192 | `int(str(n)) == n` for every natural `n` |
| Text.PyIntRejectsStray | scanner.py:194 | a character other than the whitespace `int()` skips (space, `\t`, `\n`, `\v`, `\f`, `\r`), a sign, a digit or `_` makes `int()` fail |
| Text.PyIntRejectsSeparator | scanner.py:194 | a separator `\x1c`-`\x1f` before or after the digits makes `int()` fail, although `strip()` would remove it |

## Left out

- Sockets, `connect_ex`, timeouts, `grab_banner`'s sends and reads, the
  `ping` subprocess and `platform` checks are left out. They are I/O. Each
  port's outcome and the `ping` output are parameters instead.
- `is_host_up`, `main`'s argument parsing and the `-Pn` flow are left out.
  They are control flow around I/O. Only the `--start/--end` list
  (`RangeList`) is modelled.
- All printing is left out: the table layout, the OS report line, "Open
  ports: …" and "No open ports …". `FamilyName` gives the printed family
  names.
- `Scan`: a `close()` that raises after an OPEN row was appended would add
  a second, ERROR row for the same port. The model gives each probe one
  outcome. This is a failure of a socket call that is not modelled.
- `Scan`: `socket.socket()` is called outside the `try`, so if it raises,
  the whole scan aborts. The model does not include that failure.
- `OsDetect.DetectOs`: has no failure path. `detect_os` catches and prints
  any exception. The process calls can raise, and so can `int(ttl_str)` on
  characters that `str.isdigit()` accepts but `int()` rejects, such as `²`.
  With digits restricted to ASCII, the parsing the model covers cannot raise.
- `Text.Lower`, `Text.IsSpace`, `Text.IsDigit`, `Text.PyInt`: these cover
  ASCII only. Python's Unicode lower-casing, Unicode whitespace and Unicode
  digits (which `isdigit` and `int()` accept) are left out. The decoded
  replies are treated as ASCII text.
- `Text.SplitLines`: only `\n`, `\r` and `\r\n` are line boundaries. The
  rarer separators Python also honours (`\v`, `\f`, `\x1c`-`\x1e`, `\x85`,
  U+2028 and U+2029) are left out.
- `Text.PyInt`: only base 10 is modelled, with whitespace, a sign and single
  underscores between digits. It says when a string parses, and the value of
  a plain digit string, not the value of every accepted spelling.
- `Text.PyInt`: has no digit-count limit. Python 3.11 and later, by default,
  make `int()` and `str()` raise `ValueError` for decimal numbers longer than
  4300 digits, so `PyIntDecimal` and `PortSpec.NoPortBound` hold there only
  below that length.
- `Services.TableShape`: does not state that the table has 31 entries. That
  size is evident from the table itself.
- `OsDetect.DetectOs`: there are no proofs about literal multi-line ping
  transcripts. `TtlLine`, `OneLineReply` and `FirstLineFirst` state the same
  facts for every line of that shape.
