# Port scanner input expansion and aggregation, in Dafny

This project models the core of the implant's TCP port scanner (`portscan`
package). The scanner reads a host spec and a port spec. It expands them
into one probe per (host, port) pair, with hosts in the outer loop and
ports in the inner loop. A pool of workers probes each target, and an
aggregator reports the probes found open.

The model covers:

- **Configuration** (`ScanConfig`): the process-wide `config` record as a
  class. `initConfig` sets 8 worker threads, and `parseCmdLine` stores what
  the `-h`, `-p` and `-t` flags read.
- **Go library behaviour the parsers depend on**:
  - `Int64`: the 64-bit `int`, with its wrap-around and saturation.
  - `GoStrings`: `strings.Split` with a one-character separator, with
    `Join` as its inverse, and `strings.Trim` with a one-character cutset.
  - `GoStrconv`: `strconv.Atoi`, including its syntax and range errors and
    its saturation on overflow.
- **Port-spec expansion** (`PortSpec`): `atoi` and `parsePortSpec`. The
  method runs the source's loops, including the counting loop
  `for i := start; i < end+1; i++` in 64-bit arithmetic. It is proved equal
  to a reference function `PortSpecPorts`, and the port-spec properties
  are lemmas about that function.
- **Host-spec expansion** (`HostSpec`): `fileExists` and `parseHostSpec`,
  over a file system given as data and a CIDR enumerator given as a
  function. `ParseHostSpec` is proved equal to the reference function
  `HostSpecHosts`, and `FileExistsIgnoresName` states what `FileExists`
  depends on.
- **Scan engine** (`Scanner`):
  - the nested loop that builds the probe list, proved equal to the
    host-major product `Product(hosts, ports)`;
  - the aggregator loop, proved equal to the filter `OpenOnly`.
  - Lemmas show that whatever order the workers return results in, the
    report holds exactly the probes whose own connect attempt succeeded.
    A target listed twice is probed twice, and the two attempts may
    succeed or fail independently.

At its edges the code behaves as follows, and the model follows it:

- An empty probe list is not an error. The empty host spec and the empty
  port spec together give one probe, to host `""` on port 0
  (`Scanner.EmptySpecsOneProbe`).
- Ports are not restricted to 1..65535. They are any non-negative 64-bit
  value (`PortSpec.PortSpecNonNegative`). An unparseable field reads as 0,
  unless the digits before its first non-digit exceed 2^64-1; then it reads
  as the largest `int` (`PortSpec.Atoi`).
- A reversed range `5-1` yields nothing rather than an error.
- `fileExists` stats the configured host spec, whatever its argument is.
- Nothing is printed when no port is open.
- The code sets no connect timeout of its own.

## Model

| member | source | states |
|---|---|---|
| Int64.Wrap | implant/sliver/portscan/util.go:82 | an `int` expression's value after wrap-around is in the 64-bit range, congruent to the exact value modulo 2^64, and equal to it when it already fits |
| Int64.WrapPastMax | implant/sliver/portscan/util.go:82 | `end+1` with `end` the largest `int` wraps to the smallest `int` |
| Int64.Clamp | implant/sliver/portscan/util.go:70 | saturation lands in the 64-bit range, leaves in-range values unchanged, and sends values above it to the largest `int` and values below it to the smallest |
| GoStrings.Split | implant/sliver/portscan/util.go:77 | there is at least one field; no field contains the separator; a string without the separator is its own single field; a string with one has at least two fields |
| GoStrings.SplitAppend | implant/sliver/portscan/util.go:77-79 | splitting `a + sep + b` gives the fields of `a` followed by the fields of `b` |
| GoStrings.SplitCount | implant/sliver/portscan/util.go:77 | there is one more field than there are separators |
| GoStrings.JoinSplit | implant/sliver/portscan/util.go:77 | joining the fields with the separator restores the original string |
| GoStrings.SplitJoin | implant/sliver/portscan/util.go:77 | splitting a join of separator-free fields gives back those fields |
| GoStrings.Trim | implant/sliver/portscan/util.go:56 | the result has no cut character at either end and is the input minus cut characters at its two ends only |
| GoStrings.TrimUnique | implant/sliver/portscan/util.go:56 | any string obtained that way without cut characters at its ends is the trimmed string, so trimming is fully characterised |
| GoStrings.TrimIdempotent | implant/sliver/portscan/util.go:56 | trimming twice is trimming once |
| GoStrconv.Atoi | implant/sliver/portscan/util.go:70 | the value is a 64-bit `int`; a syntax error comes with 0; a range error comes with the bound of the sign (the smallest `int` after a leading `-`, else the largest) |
| GoStrconv.ScanAllDigits | implant/sliver/portscan/util.go:70 | the unsigned digit scan of a digit string yields the digits' decimal value, or a range error exactly when that exceeds 2^64-1 |
| GoStrconv.ScanPrefix | implant/sliver/portscan/util.go:70 | scanning a digit prefix then the rest continues from the prefix's value, or is a range error once that value exceeds 2^64-1 |
| GoStrconv.ScanNonDigit | implant/sliver/portscan/util.go:70 | a string whose first non-digit is at `k` is a syntax error when the digits before `k` fit in 64 bits, and a range error otherwise |
| GoStrconv.AtoiWellFormed | implant/sliver/portscan/util.go:69-72 | an optionally signed digit string converts to its value saturated to the `int` range, without error exactly when it fits |
| GoStrconv.AtoiMalformed | implant/sliver/portscan/util.go:69-72 | a malformed string converts to 0 with a syntax error, unless the digits before its first non-digit overflow 64 bits, when it is a range error with the bound of its sign |
| GoStrconv.ShortNeverOverflows | implant/sliver/portscan/util.go:69-72 | a string of at most 20 characters cannot overflow before its first non-digit, so a malformed one converts to 0 |
| ScanConfig.Config.constructor | implant/sliver/portscan/portscan.go:8-14 | the record starts with empty specs and 0 threads |
| ScanConfig.Config.InitConfig | implant/sliver/portscan/portscan.go:16-18 | the thread count becomes 8 and nothing else changes |
| ScanConfig.Config.ParseCmdLine | implant/sliver/portscan/util.go:24-33 | the specs become the `-h` and `-p` values; the thread count becomes `-t` if given and is otherwise kept |
| ScanConfig.Configure | implant/sliver/portscan/portscan.go:20-22 | after `initConfig` then `parseCmdLine`, the thread count is `-t` if given and 8 otherwise |
| PortSpec.Atoi | implant/sliver/portscan/util.go:69-72 | `atoi` never fails: it gives the saturated value of a well-formed number; for a malformed one it gives 0, or the bound of its sign when the digits before the first non-digit overflow (never for 20 characters or fewer); and never a negative value for a string not starting with `-` |
| PortSpec.RunAt | implant/sliver/portscan/util.go:82-84 | the counting loop's output from `lo` to `hi` has `hi - lo + 1` entries (none if `hi < lo`), the k-th being `lo + k` |
| PortSpec.RangePortsShape | implant/sliver/portscan/util.go:78-84 | a range is `start..end` ascending and inclusive, empty when reversed, and empty when `end` is the largest `int` |
| PortSpec.AppendRange | implant/sliver/portscan/util.go:82-84 | the counting loop appends exactly the range's ports to the list |
| PortSpec.AppendToken | implant/sliver/portscan/util.go:78-87 | one pass of the token loop appends exactly the token's contribution: a range for a token with `-`, else its `atoi` value |
| PortSpec.ParsePortSpec | implant/sliver/portscan/util.go:74-91 | the ports produced are those of the reference expansion of the configured port spec |
| PortSpec.PortsOfSnoc | implant/sliver/portscan/util.go:77-88 | one more token appends that token's ports |
| PortSpec.PortsOfAppend | implant/sliver/portscan/util.go:77-88 | the ports of two token lists are concatenated in order |
| PortSpec.PortSpecTokens | implant/sliver/portscan/util.go:77-88 | the output is each token's contribution in token order, with nothing merged, sorted or deduplicated |
| PortSpec.PortSpecConcat | implant/sliver/portscan/util.go:77-88 | joining two specs with a comma concatenates their ports |
| PortSpec.PortsOfSingles | implant/sliver/portscan/util.go:85-87 | tokens without `-` contribute exactly one port each, their `atoi` value |
| PortSpec.PortSpecWithoutRanges | implant/sliver/portscan/util.go:77-88 | a spec without `-` yields one port per comma-separated token, in order |
| PortSpec.RangeToken | implant/sliver/portscan/util.go:78-84 | token `a-b` contributes the range from `atoi(a)` to `atoi(b)` |
| PortSpec.RangeTokenIgnoresRest | implant/sliver/portscan/util.go:79-81 | fields after the second `-` of a token are ignored |
| PortSpec.PortsOfNonNegative | implant/sliver/portscan/util.go:77-88 | every port of a token list is between 0 and the largest `int` |
| PortSpec.PortSpecNonNegative | implant/sliver/portscan/util.go:74-91 | no port spec yields a negative port |
| PortSpec.SingleToken | implant/sliver/portscan/util.go:77 | a spec without a comma is one token |
| PortSpec.EmptySpec | implant/sliver/portscan/util.go:77-87 | the empty spec yields port 0 |
| PortSpec.RepeatedPortKept | implant/sliver/portscan/util.go:74-91 | `80,80` yields 80 twice |
| PortSpec.ReversedRangeEmpty | implant/sliver/portscan/util.go:82 | `5-1` yields nothing |
| PortSpec.InclusiveRange | implant/sliver/portscan/util.go:82 | `1-3` yields 1, 2, 3 |
| PortSpec.ThirdFieldIgnored | implant/sliver/portscan/util.go:79-81 | `1-2-3` yields 1, 2 |
| PortSpec.MissingStartIsZero | implant/sliver/portscan/util.go:80-82 | `-5` yields 0 to 5 |
| HostSpec.FileExistsIgnoresName | implant/sliver/portscan/util.go:35-42 | `fileExists` is true exactly when the configured host spec can be stat'ed, whatever name it is passed |
| HostSpec.ParseHostSpec | implant/sliver/portscan/util.go:44-67 | the hosts produced are those of the reference expansion of the configured host spec, and an unreadable file is the fatal error |
| HostSpec.FileHosts | implant/sliver/portscan/util.go:47-57 | a host file yields one host per line, in order, each the line minus the spaces at its ends; an all-space line yields `""`; stat-able but unopenable is fatal |
| HostSpec.NonFileHosts | implant/sliver/portscan/util.go:58-64 | otherwise a spec with `/` yields the CIDR enumeration in order, and any other spec yields itself |
| Scanner.RowAt | implant/sliver/portscan/portscan.go:27-29 | one host's probes are one per port, in port order |
| Scanner.ProductLength | implant/sliver/portscan/portscan.go:24-30 | the probe list has hosts times ports entries |
| Scanner.ProductIndex | implant/sliver/portscan/portscan.go:26-29 | entry `i * m + j` (m ports) is the unprobed target (host i, port j) |
| Scanner.ProductAt | implant/sliver/portscan/portscan.go:26-29 | the probe list is host-major: every entry `i * m + j` (m ports) is (host i, port j) |
| Scanner.ProductEmpty | implant/sliver/portscan/portscan.go:24-30 | the probe list is empty exactly when there are no hosts or no ports |
| Scanner.AppendRow | implant/sliver/portscan/portscan.go:27-29 | the inner loop appends one host's probes |
| Scanner.BuildProbes | implant/sliver/portscan/portscan.go:24-30 | the nested loop's probe list pairs every host with every port of the port spec, host-major |
| Scanner.ExpandProbes | implant/sliver/portscan/portscan.go:24-30 | input expansion gives the product of the expanded hosts and ports, or the host-file error |
| Scanner.EmptySpecsOneProbe | implant/sliver/portscan/portscan.go:24-30 | empty host and port specs give exactly one probe, to `""` on port 0 |
| Scanner.Aggregate | implant/sliver/portscan/portscan.go:56-63 | the aggregator reports exactly the open results, in arrival order |
| Scanner.OpenOnlyCount | implant/sliver/portscan/portscan.go:58-62 | each open result is reported as often as it arrives, and no closed one is reported |
| Scanner.ReportOrderIndependent | implant/sliver/portscan/portscan.go:56-63 | the report, as a multiset, does not depend on the order results arrive in |
| Scanner.ScanReport | implant/sliver/portscan/portscan.go:40-63 | if every probe comes back once, probed with its own connect outcome, in any order, the report holds exactly the probes whose attempt succeeded, as a multiset equal to the in-order filter of the probed list |

## Left out

- The worker pool, channels and wait groups (portscan.go:32-54, 65-72) are not modelled as concurrency. Their effect is taken as "each probe comes back exactly once, probed, in some order", which is the precondition of `Scanner.ScanReport`.
- The `Probe` type's `Probe()` and `Report()` methods are not part of this model. The outcome of each connect attempt is an input, one per probe, and printing a report line is modelled as appending the probe to the report.
- The `*Probe` references, and the sharing of one probe between the list and the channels, are modelled as values.
- `os.Stat`, `os.Open` and `bufio.Scanner` are not performed. The file system is a value that lists the stat-able paths and the lines of each readable file. A `bufio.Scanner` read error or over-long line, which ends the loop silently, is not modelled.
- `log.Fatal` is an `Err` result, not a process exit.
- `explodeCidr` is not part of this model. It is a function parameter that returns the hosts already rendered as strings.
- The `flag` package's parsing and the `Usage` text are not modelled. `ParseCmdLine` takes the flag values as inputs; `Usage()` only builds a string, so its call changes nothing.
- A thread count of zero or less, which the code does not reject, only affects the concurrent part and is not modelled.
- Go's `int` is taken as 64-bit; 32-bit platforms are not modelled.
- The code sets no connect timeout, does not reject an empty probe list, and prints nothing when no port is open; the model has none of these either.
