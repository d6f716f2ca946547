# Cloudflare-IP-SpeedTest: the probing and ranking core, in Dafny

Cloudflare-IP-SpeedTest reads a file of addresses and CIDR blocks. It probes
every address with a trace request to `speed.cloudflare.com/cdn-cgi/trace`
and keeps the answers that come from a Cloudflare data centre. The probing
repeats for a number of rounds, each round working on the previous round's
survivors. The program can then measure download speed for the final list.
This project models that core and proves what it computes:

- `Probe` (probe.dfy): `CheckColoAndPing` once the network has answered. It
  is a chain of early rejections (request error, status, unreadable body,
  latency above `maxPing`, missing `uag=Mozilla/5.0` marker, no
  `colo=([A-Z]+)` match, excluded data centre), then the result record. It
  also holds the 0-on-failure branches of `GetDownloadSpeed`.
- `IPv4` (ipv4.dfy) and `AddressList` (address_list.dfy): `ReadIPs`.
  - Plain lines are kept verbatim and unparsable CIDR lines are skipped.
  - A block is walked from its network address with the in-place increment
    `inc`.
  - In quick mode, a block is sampled at `quickmode + 1` distinct addresses
    by adding a random offset byte by byte.
  - IPv4 addresses are four big-endian bytes. The dotted-decimal printing and
    parsing of `IP.String` and `net.ParseCIDR` are written out.
- `Locations` (locations.dfy): the IATA-keyed map that `GetLocationMap`
  builds by overwriting, so the last entry for a code wins.
- `Sorting` (sorting.dfy): `sort.Slice` by one numeric key, as an in-place
  sort over an array.
- `Channels` (channels.dfy): a buffered Go channel as a bounded FIFO queue.
  A send needs room.
- `Engine` (engine.dfy): `main`.
  - TLS is switched off on port 80.
  - The rounds fan out over the candidates under the `thread` semaphore,
    keep results with a non-empty latency and sort them by TCP connect time.
  - Each round's addresses become the next round's candidates. A round with
    no survivors stops the loop and leaves the final list empty.
  - The speed phase sorts by download speed, fastest first.
  - A run ends with a result list, a panic or a deadlock. Which one happens
    is stated for every configuration whose download URL parses.

The network is an input. Each trace request is answered by an `observe`
function of the request (round, position, address, port, TLS flag), and each
download by a `download` function. The address file arrives as a sequence of
lines.

## Model

| member | source | states |
|---|---|---|
| Locations.BuildLocationMap | speedtest/utils.go:155-158 | the map's keys are exactly the IATA codes in the list, and each code maps to the last entry that carries it |
| Locations.LastIndexFound | speedtest/utils.go:155-158 | a code has a last entry exactly when some entry of the list carries that code |
| Locations.LastIndex | speedtest/utils.go:155-158 | the position found carries the code and no later entry does; -1 only when none does |
| Locations.LastIndexAppend | speedtest/utils.go:157 | one more assignment makes its entry the last for its code and leaves every other code's entry as it was |
| Probe.Colo | speedtest/httptest.go:88-89 | the regular expression `colo=([A-Z]+)` fails exactly when no `colo=` in the body is followed by a capital letter |
| Probe.ColoMatch | speedtest/httptest.go:88-89 | the extracted code is the non-empty, maximal run of capitals right after the leftmost `colo=` that is followed by a capital |
| Probe.LatencyText | speedtest/httptest.go:96 | the latency label is never empty and ends in " ms" |
| Probe.LatencyReadsBack | speedtest/httptest.go:96 | the label's digits read back as the connect time in milliseconds |
| Probe.CheckColoAndPing | speedtest/httptest.go:69-103 | a non-empty latency exactly when every check passes, the empty result otherwise; a connect time above a positive `maxPing` is rejected whatever the body says; a survivor echoes address and port, names the data centre, takes region and city from the map or "" when the code is not in it, has TCP duration equal to the connect time and response time 0 |
| Probe.DownloadSpeed | speedtest/httptest.go:121-152 | 0 when the dial or the request fails, the measured rate otherwise |
| Decimal.FromInt | speedtest/httptest.go:96 | `%d` prints a minus sign before the digits of a negative number and the shortest digits otherwise |
| Decimal.ValueFromNat | speedtest/httptest.go:96 | printed digits read back as the number |
| Decimal.FromNatValue | speedtest/utils.go:38 | reading a canonical digit string and printing the number gives the string back |
| Decimal.FromNatInjective | speedtest/utils.go:67 | distinct numbers print as distinct digit strings |
| Text.Contains | speedtest/httptest.go:87 | `strings.Contains` holds exactly when the pattern occurs at some position |
| Text.JoinSplit | speedtest/utils.go:50 | splitting on a separator and joining back gives the original text |
| Text.SplitJoin | speedtest/utils.go:50 | fields without the separator are recovered by splitting their join |
| IPv4.Inc | speedtest/utils.go:88-95 | the array afterwards holds the big-endian increment of what it held |
| IPv4.IncSeqValue | speedtest/utils.go:88-95 | the increment adds one to the number the bytes denote, modulo 256 to the number of bytes |
| IPv4.IncSeqShape | speedtest/utils.go:89-93 | only the trailing run of 0xFF bytes (set to 0) and the byte before it (+1) change; all 0xFF wraps to all zeros |
| IPv4.ContainsRange | speedtest/utils.go:49 | a block contains exactly the addresses from its network address to network + 2^(32-prefix) - 1 |
| IPv4.NoCarry | speedtest/utils.go:62-64 | byte-wise addition with per-byte wrap equals numeric addition when the first operand's low h bits are zero and the second is below 2^h |
| IPv4.AddBytesAt | speedtest/utils.go:62-64 | byte k of the byte-wise sum is the two operands' byte k added modulo 256, as `ip[i] += …` on a byte |
| IPv4.ParseFormat | speedtest/utils.go:50 | a printed address parses back to the same four bytes |
| IPv4.FormatParse | speedtest/utils.go:38 | a parsed dotted quad prints back to the same text |
| IPv4.FormatInjective | speedtest/utils.go:67 | distinct addresses print as distinct keys |
| IPv4.ParseCidr | speedtest/utils.go:38-42 | a line parses exactly when the part before the first '/' is a dotted quad and the rest a prefix length of at most 32; the block's network has zero host bits and contains the parsed address |
| IPv4.ParsePrefixLength | speedtest/utils.go:38 | the text after '/' is accepted exactly when it is a non-empty digit string (leading zeros allowed) whose value is at most 32, and the prefix length is that value |
| IPv4.PrefixLengthRoundTrip | speedtest/utils.go:38 | every prefix length from 0 to 32, printed in decimal, is accepted and read back as itself |
| IPv4.PrefixLengthLeadingZero | speedtest/utils.go:38 | a leading zero changes neither acceptance nor value ("0" alone is 0) |
| AddressList.EnumerateBlock | speedtest/utils.go:49-51 | the walk from the network address with `inc` while `Contains` holds lists exactly the block's addresses in increasing order |
| AddressList.BlockAddressesParse | speedtest/utils.go:49-51 | entry i of a block's listing is inside the block and denotes network + i |
| AddressList.BlockAddressesDistinct | speedtest/utils.go:49-51 | no address is listed twice |
| AddressList.BlockAddressesComplete | speedtest/utils.go:49-51 | every address the block contains is listed |
| AddressList.AddressIndex | speedtest/utils.go:49-51 | a contained address sits at position (address - network) of the block's listing |
| AddressList.AddOffset | speedtest/utils.go:59-64 | the copied network address with the offset's four bytes added byte by byte, each byte wrapping |
| AddressList.OffsetSum | speedtest/utils.go:58-67 | for an offset below the host count the byte-wise sum is the address network + offset, so the `Contains` check always passes |
| AddressList.DrawAdvance | speedtest/utils.go:57-68 | a draw of a new offset adds exactly its address to `randomIPs`, which grows by one |
| AddressList.NewAddress | speedtest/utils.go:66-67 | a drawn offset adds a new key to `randomIPs` exactly when that offset was not drawn before |
| AddressList.SampleBlock | speedtest/utils.go:54-73 | quick mode returns `quickmode + 1` distinct addresses, all from the block |
| AddressList.Elements | speedtest/utils.go:71-73 | ranging over the set appends each member exactly once |
| AddressList.ExpandLine | speedtest/utils.go:35-82 | a line without '/' is kept verbatim; an unparsable CIDR line adds nothing; a block is walked whole when `quickmode <= 0` or the block has at most `quickmode` addresses, and sampled otherwise |
| AddressList.OneCharSearch | speedtest/utils.go:37 | `strings.Contains(line, "/")` holds exactly when the line contains the character '/' |
| AddressList.ReadIPs | speedtest/utils.go:34-83 | the list is the concatenation of the lines' expansions in file order |
| Sorting.SortByKey | main.go:122-124 | the array ends up ordered by the key and is a permutation of what it held |
| Channels.Channel.constructor | main.go:81-82 | `make(chan T, n)` is an empty queue of capacity n |
| Channels.Channel.Send | main.go:102 | a send needs room and appends at the back |
| Channels.Channel.Receive | main.go:91 | a receive takes the oldest element |
| Channels.Channel.Drain | main.go:117-119 | ranging over a closed channel yields its elements in sending order and empties it |
| Engine.EffectiveTLS | main.go:44-46 | on port 80 TLS is off whatever the flag says; elsewhere the flag decides |
| Engine.SurvivorsExactly | main.go:101-103 | a result is kept exactly when some candidate's probe produced it with a non-empty latency |
| Engine.ProberFilters | main.go:100 | the probe each goroutine runs only lets through results that echo the request's address and port and passed the `revertcolo` and `maxPing` filters |
| Engine.ProbeKept | main.go:100-103 | a probe with a latency yields one of the round's candidates, on the configured port, outside the excluded data centre and within `maxPing` |
| Engine.SurvivorsKept | main.go:100-103 | every survivor of a round satisfies the same |
| Engine.FanOut | main.go:78-108 | the result channel, sized to the candidate count, never fills and ends with exactly the survivors; a zero-capacity semaphore deadlocks exactly when there is a candidate |
| Engine.Survivors | main.go:101-103 | the survivors of n probes are at most n |
| Engine.ConnectTimeOrder | main.go:122-124 | a list sorted by the `TCPDuration` key is in ascending connect time |
| Engine.Publish | main.go:116-124 | the published list is the survivors, each once, ascending by TCP connect time; the drained channel is left empty |
| Engine.PublishedLength | main.go:116-126 | a round publishes no more entries than it had candidates |
| Engine.PublishedKept | main.go:116-126 | every published entry is an unmeasured survivor from the round's candidates |
| Engine.NextCandidates | main.go:67-74 | the next round probes the previous list's addresses in its order, duplicates included |
| Engine.ChainStep | main.go:66-127 | a round that probes the previous list's addresses and publishes its survivors ranked extends the run of rounds |
| Engine.NarrowingStep | main.go:67-74 | the candidates taken from a published list are some of that round's own candidates, and no more of them |
| Engine.Narrowing | main.go:66-127 | a later round never probes an address the earlier round did not probe, nor more candidates |
| Engine.ProbedFromFile | main.go:66-127 | every round probes only addresses read from the file, and no more candidates than were read |
| Engine.FinalKept | main.go:66-127 | the final list of the rounds holds only unmeasured results for addresses from the file, on the configured port, that passed both filters |
| Engine.Rounds | main.go:66-127 | a negative `maxThreads` panics when a round runs; zero deadlocks when round 1 has candidates; otherwise at most `rounds` rounds run, the first on the list read from the file, each later one on the previous list; a round without survivors is the last one and the final list is empty |
| Engine.SpeedWorker | main.go:147-160 | the first worker sends every final entry with its measured speed, filling the channel exactly; in the one-after-another schedule any later worker then blocks on its first send |
| Engine.Measured | main.go:147-152 | measuring keeps each final entry's probe result, in list order |
| Engine.MeasuredKept | main.go:147-152 | what holds of the final entries' probe results holds of every measured entry |
| Engine.SpeedOrder | main.go:172-174 | a list sorted by the negated speed key is fastest first |
| Engine.MeasuredSpeeds | main.go:148 | each measured entry carries the rate of its download, or 0 when that download failed |
| Engine.SpeedPhase | main.go:130-176 | the phase deadlocks exactly when `speedTest >= 2` (or the semaphore has capacity 0); with one worker the result is every final entry once with its measured speed, fastest first |
| Engine.RunFilters | main.go:100 | the probe of a run applies the run's own `revertcolo` and `maxPing` |
| Engine.Run | main.go:43-177 | TLS is forced off on port 80; the run panics exactly when `maxThreads < 0` and a round runs; it deadlocks exactly when `maxThreads == 0` meets a non-empty address list or when the speed phase runs with two or more workers; otherwise the rounds follow the rules above and the result is the final list, or, when the speed phase runs, the final entries with their speeds, fastest first; every entry of a finished run is for an address from the file, on the configured port, and passed both filters |

## Left out

- Network I/O is left out: the HTTP client, dialers, `httptrace` callbacks and `io.Copy`. The answer to each request is an input function keyed by the request.
- Probe.CheckColoAndPing: the connect time is an input in whole milliseconds and `int64` overflow is not modelled.
- Probe.DownloadSpeed: the rate `written / seconds / 1024` is floating-point arithmetic on a measured duration. It is an input `real`; only the 0-on-failure branches are modelled.
- Goroutines run one after another, each to completion. The multiset a round collects and the deadlocks do not depend on the interleaving, because nothing is received before `wg.Wait` returns. The sequential schedule also fixes which send of the speed phase blocks (the second worker's first), where the program's scheduler may block another worker's later send. The unsynchronised `count++` progress counter (a data race) and the progress printing are left out.
- Engine.FanOut: the model takes the order in which survivors reach the channel to be the candidate order; in the program it is the completion order. `sort.Slice` is deterministic but not stable, so the order of entries with equal `TCPDuration` depends on that arrival order, and it shows in the CSV and in the next round's candidate order. No contract relies on the arrival order: `Engine.Publish` promises only ranked order and the same entries.
- Sorting.SortByKey: `sort.Slice` is not stable, so nothing is said about the order of equal keys.
- AddressList.SampleBlock: the random draws (`rand.Intn` seeded with the clock) are a nondeterministic choice among offsets whose address is not yet in `randomIPs`. A repeated draw changes nothing in the program, so skipping it leaves the result unchanged. The number of draws is not modelled.
- AddressList.ReadIPs: the model is IPv4-only. IPv6 handling (`net.ParseCIDR` of IPv6 text, and the walk of a 16-byte block with `inc` when quick mode is off) is out of scope, so the precondition `Covered` excludes every CIDR line whose address part reads as IPv6 (a ':' before any '.' or '%'). This also excludes some unparsable lines, such as one starting with ':', that the program simply skips. A /0 block that is walked whole is excluded too: `inc` wraps from 255.255.255.255 to 0.0.0.0, which is still inside, so the walk never ends.
- AddressList.ExpandLine: Go's `int` is taken to be 64 bits. On a 32-bit build `numHosts := 1 << uint(32-maskSize)` overflows for /0 (to 0) and /1 (to a negative number), so with `quickmode > 0` such a block is walked instead of sampled, and a /0 walk never ends; the model's host count is unbounded and always samples there.
- Opening and scanning the address file, and its errors, are left out. The file's lines are the input.
- `GetLocationMap` is modelled from the decoded list only. Reading or downloading `locations.json`, JSON decoding and the nil-map exit in `main` are left out.
- Locations.Location: latitude and longitude are `real`, because they are only copied.
- `main`'s flag parsing, CSV output, timing and printing are left out, and so is the download URL. The TLS flag reaches the model only as part of each request.
- Engine.Run: the download URL is assumed to parse. For a `-url` that `http.NewRequest` rejects, `req` is nil and `req.Header.Set` (speedtest/httptest.go:114-115) panics in the speed worker, so such a run panics instead of finishing or deadlocking.
- portforward.go is not part of this model. It is a concurrent TCP relay with tickers and live connections.

## Behaviour worth knowing

- The probe checks `maxPing` before the marker, the colo code and the excluded data centre (speedtest/httptest.go:84-92). Every rejection returns the same empty result.
- Each later round clears the list before probing (main.go:75), and a round without survivors breaks the loop (main.go:110-113). The final list is then empty, even when an earlier round had survivors.
- Every speed worker measures the whole final list into one channel of capacity `len(finalResults)`, and nothing receives from it until all workers finish (main.go:137-167). Once `len(finalResults)` results are buffered every further send blocks, and nothing receives before `wg2.Wait`, so with two or more workers some worker never finishes and the program deadlocks, as `Engine.SpeedPhase` states. Which send blocks depends on scheduling; in the model's one-after-another schedule it is the second worker's first send.
- Both sorts use `sort.Slice`, which is not stable, so the order of equal keys is not fixed.
