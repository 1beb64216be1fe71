# snmpCLI scanner core, modelled in Dafny

snmpCLI is a command-line SNMP scanner. `main` expands the `-t` target
text into IPv4 addresses and launches one scan per address, pausing now and
then. `snmpScan` scans one host:

1. It pings the host. With no reply it gives up silently.
2. It builds the connection parameters for SNMP version 1, 2c or 3. Version 3
   uses the user-based security model of RFC 3414, with AES (RFC 3826) and
   SHA-2 (RFC 7860) as protocol tags.
3. It connects. A failure prints the error.
4. It either walks a subtree, printing the bindings in batches, or gets a
   list of identifiers and prints one result line.

This project models that core and proves what it prints and in which order.

Modules, one per file:

- `Results` (`results.dfy`): the Option and Result types.
- `GoText` (`gotext.dfy`): the Go library behaviour the core relies on.
  - `strings.Split` and `strings.Join`.
  - `strconv.Atoi` (optional sign, at least one digit, 64-bit range) and
    `strconv.Itoa`.
  - `hex.EncodeToString` and `hex.DecodeString` (section 8 of RFC 4648; the
    decoder accepts either case).
  - ASCII upper- and lower-casing.
- `Targets` (`targets.dfy`): the expansion of `-t` and the launch loop with
  its shared counter. `LaunchAll` and `LaunchRange` are the two nested loops
  of `main`.
- `Session` (`session.dfy`): the connection parameters for each version.
- `Render` (`render.dfy`): the Walk type switch, the MAC formatting loop, the
  Get decoding loop and the Get result line.
- `Walk` (`walk.dfy`): the Walk callback's buffer and counter.
  - The class `WalkBuffer` holds the state the closure mutates.
  - The function `Paced` is the batching it must follow.
- `Scan` (`scan.dfy`): one host's scan.
  - The network's answers are an input (`Host`).
  - The observable behaviour is the list of actions taken: ping, connect,
    walk or get request, printed lines, close, panic.

Behaviour of the code that the help text does not describe:

- **Hyphen ranges yield one address.** Both branches that compute the end of
  a range (main.go:97-104) make it equal to the start. So `10.0.0.1-100`
  scans only `10.0.0.1`, and the text after `-` is never parsed.
- **The largest octet never finishes.** The loop index is a 64-bit int
  (main.go:106). For a last component of `9223372036854775807` the increment
  after the one launch wraps to the smallest int64, which is again within the
  range. The loop then launches for ever and the run never reaches its wait.
- **The end of a walk is dropped.** Lines still buffered when a walk ends are
  never printed. A walk of at most `-n`+1 bindings prints nothing.
- **Pause points.** The launcher first pauses after the 202nd launch, and
  then after every further 201 launches.

## Model

| member | source | states |
|---|---|---|
| GoText.Split | main.go:85 | strings.Split always returns at least one piece, even for empty text |
| GoText.SplitPieces | main.go:85-91 | no piece of a split contains the separator |
| GoText.JoinSplit | main.go:85 | joining the pieces with the separator gives back the original text |
| GoText.SplitAppend | main.go:87 | splitting text joined at one separator gives the pieces of the left part followed by those of the right part |
| GoText.AtoiItoa | main.go:93-107 | Atoi reads back every 64-bit integer that Itoa writes |
| GoText.ItoaAtoi | main.go:107 | Itoa gives back a digit string without leading zeros after Atoi |
| GoText.AtoiNormalises | main.go:93 | Atoi ignores a leading '+' and leading zeros, so `+7` and `07` give the same address as `7` |
| GoText.HexDecodeAccepts | snmpScan.go:157-159 | DecodeString succeeds exactly on even-length text of hex digits in either case, including empty text |
| GoText.HexRoundTrip | snmpScan.go:97 | decoding what EncodeToString wrote gives back the bytes |
| GoText.HexReencode | snmpScan.go:157-161 | re-encoding what DecodeString accepted gives the text in lower case |
| Targets.ParseItem | main.go:86-104 | an item parses exactly when it has at least four '.'-components and the text before the first '-' of the fourth is a 64-bit integer, which is then the start; it is the "Starting IP not valid" error exactly when there are four components and that text is not such an integer; a parsed item has end == start within the int64 range; the "Ending IP not valid" error never occurs |
| Targets.OneAddressPerItem | main.go:97-107 | the inner loop over a parsed item visits exactly one address, `prefix.start`, and never ends exactly when start is the largest int64 |
| Targets.OutcomeSingle | main.go:86-107 | an item contributes exactly its one address, or ends the run with the same error (a parse error, or the never-ending loop) |
| Targets.CollectSingles | main.go:86-119 | when each successful item yields one address, the run yields one address per item in item order up to the first failure, which records its position and error |
| Targets.ExpandOnePerItem | main.go:85-119 | items before the first malformed or never-ending one each yield exactly their own address, in order and without deduplication; without such an item there is one address per item |
| Targets.ExpandStops | main.go:88-96 | once an item has aborted the run, later items change nothing |
| Targets.HyphenEndIgnored | main.go:91-107 | `a.b.c.d-anything` yields only `a.b.c.Itoa(Atoi(d))`; the end bound is never parsed and the octet is not range-checked; a d of the largest int64 never ends |
| Targets.PlainItem | main.go:91-107 | `a.b.c.d` yields `a.b.c.Itoa(Atoi(d))`, except that a d of the largest int64 never ends |
| Targets.StartRejected | main.go:92-96 | `a.b.c.d` whose text before the first '-' is not a 64-bit integer (`10.0.0.x`, `10.0.0.1a-5`, a start beyond int64) is the "Starting IP not valid" error |
| Targets.LargestOctetNeverEnds | main.go:106 | `a.b.c.9223372036854775807`, with or without a `-` tail, is an item whose loop wraps and never ends |
| Targets.EmptyStartRejected | main.go:93-96 | an empty start, as in `10.0.0.-5`, is the "Starting IP not valid" error |
| Targets.ExtraComponentsIgnored | main.go:87-107 | components after the fourth do not change the item's address or error |
| Targets.ShortItemRejected | main.go:87-91 | fewer than three components is the fatal error; exactly three is the missing-octet panic |
| Targets.SingleItem | main.go:85-86 | a `-t` text without ',' is one item, giving its address or its error at position 0 |
| Targets.HyphenExample | main.go:91-107 | `10.0.0.1-100` expands to `10.0.0.1` alone |
| Targets.CountAfter | main.go:113-117 | after any launch the shared counter is between 1 and 201 |
| Targets.CountClosedForm | main.go:113-117 | after n > 0 launches the counter is (n-1) mod 201 + 1, running through 1..201 over and over |
| Targets.CountStep | main.go:113-116 | the launcher sleeps right after launch k (counted from 0) exactly when k > 0 and k is a multiple of 201 |
| Targets.LaunchAll | main.go:84-119 | one launch per expanded address, in order, with a sleep after exactly the launches CountStep names; the run waits when every item parsed and ended, aborts at the first malformed item, and never ends at the first item whose loop index wraps; the counter ends at CountAfter of the number of launches |
| Targets.LaunchRange | main.go:106-118 | for a range whose int64 loop index does not wrap, the inner loop appends one launch per address of the range, in order, and keeps the counter equal to CountAfter of the launches so far |
| Session.SessionFor | snmpScan.go:35-71 | port 161, 1 s timeout, user security model and authPriv flags for every version; "3" selects version 3 with USM parameters and no community; "2c" selects 2c; any other text selects version 1; the two community versions use the user name as the community |
| Session.AuthLookupInverse | snmpScan.go:52-60 | the auth map is a bijection between "SHA", "SHA256", "SHA512" and the three protocols; any other key gives the zero value |
| Session.PrivLookupInverse | snmpScan.go:47-62 | the priv map is a bijection between "AES", "AES192", "AES256" and AES, AES192, AES256C; any other key gives the zero value |
| Session.Version3Security | snmpScan.go:58-64 | version 3 takes the user name and passphrases from the credentials and the protocols from the two maps; an unknown auth name selects no protocol |
| Scan.BuildParams | snmpScan.go:35-71 | filling in the parameter fields step by step gives SessionFor |
| Render.WalkRoot | snmpScan.go:86-88 | the default Get identifier becomes "1.3.6" and any other is kept; the result is never the default |
| Render.WalkRootOnce | snmpScan.go:86-88 | rewriting the walk root twice is the same as rewriting it once |
| Render.FormatMac | snmpScan.go:100-106 | the MAC loop builds MacText of the hex string |
| Render.MacShape | snmpScan.go:99-106 | the MAC text of n hex digits has n + (n-1)/2 characters; every third is ':' and the others are the hex digits upper-cased, in order |
| Render.MacDigits | snmpScan.go:100-106 | dropping the colons from the MAC text gives the hex string upper-cased |
| Render.MacRoundTrip | snmpScan.go:96-106 | a 6-byte value gives 17 characters, which read back as the same bytes once the colons are dropped and the text is lower-cased |
| Render.MacExample | snmpScan.go:99-110 | bytes 00 11 22 aa bb cc are shown as `00:11:22:AA:BB:CC` |
| Render.WalkLine | snmpScan.go:95-128 | a binding has a line exactly when its value is not nil, and every line ends in a newline |
| Render.WalkBytesLine | snmpScan.go:96-113 | a 6-byte value is shown as `name: MAC` and the MAC reads back as the bytes; any other length is shown as raw text |
| Render.WalkNumberLine | snmpScan.go:119-127 | signed and unsigned numbers are each shown as `name: ` followed by their decimal text, and that text reads back as the number; a value of any other type is marked with a leading '*' |
| Render.GetBytes | snmpScan.go:156-162 | a byte string is either kept as a row or echoed, never both; it is echoed, in lower case, exactly when it is valid hex text |
| Render.GetRowKinds | snmpScan.go:151-168 | only nil values and hex byte strings give no row; nil gives nothing at all; unsigned and other types are echoed and give "Unhandled SNMP output"; strings and ints are never echoed |
| Render.DecodeRows | snmpScan.go:150-171 | the decoding loop collects Rows and Echoes of the values, in order |
| Render.RowsAppend | snmpScan.go:151-171 | decoding a concatenation of values gives the rows of each part, in order |
| Render.RowsCount | snmpScan.go:151-171 | at most one row per value, and exactly one per value exactly when every value gives a row |
| Render.GetLine | snmpScan.go:172-177 | a single row is printed alone; any other row count, zero included, gives `target,[` then the rows joined by `:::`, then `],[`, the requested identifiers joined by `:::` and `]`, so the line starts with `target,[` and ends with `]` |
| Render.GetLineEmpty | snmpScan.go:176 | no rows give empty brackets before the identifiers |
| Render.GetLinePair | snmpScan.go:176 | two rows and two identifiers are each joined by `:::` |
| Walk.PacedOrder | snmpScan.go:107-134 | nothing is lost or reordered: the flushed batches followed by the buffer are the lines in order |
| Walk.PacedShape | snmpScan.go:92-134 | for line size L >= 0 the counter stays within 1..L+1 after the first line; the first flush holds L+2 lines and every later flush L+1 |
| Walk.ShortWalkSilent | snmpScan.go:129-141 | nothing is flushed until more than L+1 lines have been seen, and at most L+1 lines stay buffered |
| Walk.NegativeLimit | snmpScan.go:129-134 | with a negative line size every line is flushed on its own as it arrives |
| Walk.NullIndex | snmpScan.go:123-127 | the callback panics at the first nil value; every binding before it has a value |
| Walk.WalkLines | snmpScan.go:94-128 | one rendered line per binding before the first nil value |
| Walk.ShortWalkOutput | snmpScan.go:129-141 | a walk of at most L+1 bindings prints nothing |
| Walk.WalkOutputPrefix | snmpScan.go:129-141 | what a walk prints is a prefix of the lines it rendered; the lines dropped at the end are the final buffer, at most L+1 of them |
| Walk.WalkBuffer.constructor | snmpScan.go:92-93 | the counter is zero and the buffer empty |
| Walk.WalkBuffer.Visit | snmpScan.go:94-136 | a nil value panics and changes nothing observable (the partial text written before the panic is never printed); any other value appends its line, and the state stays the batching of all lines so far |
| Walk.RunWalk | snmpScan.go:92-136 | the walk prints the flushed batches of the lines of the bindings before the first nil value, and panics exactly when there is a nil value |
| Walk.RenderLine | snmpScan.go:95-128 | the type switch produces WalkLine of the binding |
| Scan.Query | snmpScan.go:84-179 | the query of a connected scan takes the actions QueryActions describes |
| Scan.WalkEnding | snmpScan.go:83-141 | after a panic the ending is exactly the deferred close then the panic; otherwise there is no panic, the close comes once and last, and it is preceded by `Error walking device: e` (a line without the target) exactly when the walk returned error e; the ending is WalkEnd's, which Query appends |
| Scan.QueryCloses | snmpScan.go:83-179 | a connected scan closes the connection exactly once. It panics exactly when it is a walk that meets a nil value, and then the close comes right before the panic. Otherwise the close is its last action |
| Scan.WalkCloses | snmpScan.go:83-141 | a walk request followed by prints and the walk's ending closes once, and panics exactly at a nil value |
| Scan.ScanHost | snmpScan.go:17-181 | the scan always pings first (3 packets, 2 s). No reply ends it at once. A failed connect prints `target: error connecting e` and never closes. Otherwise it takes the query's actions and closes exactly once |

## Left out

- Network I/O is an input rather than modelled. This covers the pinger, connect, the SNMP Walk (a GetNext loop, section 4.2.2 of RFC 3416) and Get. The reply count, connect error, walk bindings, walk error and Get reply are all given as a `Host`. The wire encoding and the USM cryptography are library code.
- The path where the pinger cannot be created (snmpScan.go:21-25) is left out. It prints and then dereferences a nil pinger, which crashes the program. The model assumes the pinger is created.
- Goroutines, the WaitGroup, the 500 ms sleep and the per-call mutex are left out. Only the order of launches and where the sleeps fall are modelled. Output from different hosts may interleave in any order, and a single host's actions are modelled on their own.
- The write through the shared `*input.Oid` pointer (snmpScan.go:87) is a data race between scans. It is modelled as the pure function `Render.WalkRoot` applied to the flag's value.
- `readCSV`, flag parsing, the help text and the elapsed-time log are outside the core.
- Verbose-only prints (`-vv`) are left out. The `verbose` field is carried but prints nothing.
- Targets.LaunchAll: an item whose loop never ends stops the model's run with `Endless` and the index of that item. The endless sequence of launches the source makes from there on (the largest int64, then from the smallest upwards) is not listed.
- Targets.LaunchRange: it requires a range whose loop ends. The never-ending range is handled by LaunchAll before the call.
- Targets.ParseItem: the error records which check failed, not the text of Atoi's error (syntax or range), which only appears in the fatal message.
- Render.WalkLine: `fmt.Sprint` of a value of an unhandled type and the name `reflect` gives its type are opaque strings carried in the value. Unsigned values of every width are shown alike, and their width bounds are not enforced.
- A Go string is modelled as one char per byte. Multi-byte UTF-8 text is not decoded.
- Scan.ScanHost: a panic ends the whole program in the source. The model ends that host's actions with `Panic` and does not model other hosts being cut short.
