# shelly-scrape discovery, modelled in Dafny

shelly-scrape is a collector for Shelly power meters. Before it polls them, it
finds them. It runs an nmap ping scan of a network range and reads nmap's
standard output line by line. From every host report line
(`Nmap scan report for ...`) it takes the host's address and, when nmap
resolved one, its name. It then asks the host a cascade of HTTP questions:

- `/shelly`;
- if `/shelly` cannot be reached, `/status`;
- if `/status` answers but its body cannot be read, a confirmation sweep over
  `/settings`, `/ota` and `/meter/0`.

Every answer that is read passes the same keyword rule. The body is
lower-cased. A camera word (`picvision`, `hikvision`, `hik-vision`, `camera`,
`ipcam`, `video`) rejects it. Otherwise a Shelly word from the stage's own set
accepts it. The hosts that pass are the discovered devices, kept in the order
nmap listed them.

The project models that pipeline, all of it in `src/main.rs`, in five modules:

- `Text` (`text.dfy`): the Rust string operations the code relies on, namely
  `rfind`, `find`, `trim`, `trim_start`, `trim_end`, the last item of
  `split_whitespace`, `contains`, `to_lowercase` and `lines`. Each is written
  as a function with its contract.
- `ScanLine` (`scan_line.dfy`): `extract_device_info_from_nmap_line` as a
  function. Its result is `NoHost`, `Host(ip, hostname)`, or `SlicePanic`.
  `SlicePanic` is the input on which Rust's slice `line[ip_start + 1..ip_end]`
  panics because the last `)` comes before the last `(`.
- `Classifier` (`classifier.dfy`): the keyword rule, written out three times
  in the source, as one function `Classify(text, accept)`. It returns
  `Accept`, `Reject` or `Inconclusive`. The three accept sets are constants.
- `Identifier` (`identifier.dfy`): `is_potential_shelly_device` is a function
  of the answers the network gives. `check_shelly_endpoints` is a method with
  the source's loop and early returns, proved equal to a "first decisive
  endpoint" specification.
- `Discovery` (`discovery.dfy`): the loop of `discover_shelly_devices` from
  the nmap output on. It is a method with the source's loop and pushes,
  proved equal to a specification function `Discover`.

The HTTP client becomes a value `net: Network`, a function from URL to
`Probe`:

- `TransportFail`: `send()` returned an error.
- `Resp(statusOk, body)`: `body` is None when reading the text failed.

URLs are built as the source builds them: `"http://" + ip + path`.

The model follows the code as written, including where it differs from the
cascade one might expect:

- A `/shelly` answer that is reachable but unreadable, or that lacks "shelly",
  gives false. It does not fall through to `/status`
  (src/main.rs:178-197).
- The status code of `/status` is never looked at. A readable body is
  classified whatever the status. An unreadable body leads to the sweep
  whatever the status (src/main.rs:201-226).
- The sweep accepts on `shelly`, `relay` or `meter`, without `wifi_sta`
  (src/main.rs:251-253).
- Repeated addresses are not deduplicated (src/main.rs:134-143).

## Model

| member | source | states |
|---|---|---|
| Text.FindLast | src/main.rs:150-151 | `rfind(c)`: None exactly when `c` is absent; otherwise an index holding `c` with no `c` after it |
| Text.FindLastAt | src/main.rs:150-151 | the only index holding `c` with no `c` after it is the one `rfind` returns |
| Text.FindFirst | src/main.rs:134 | `find(c)`: None exactly when `c` is absent; otherwise an index holding `c` with no `c` before it (used to split lines) |
| Text.TrimEnd | src/main.rs:154 | `trim_end`: a prefix of the input, not ending in whitespace, with only whitespace dropped after it |
| Text.TrimStart | src/main.rs:154 | `trim_start`: a suffix of the input, not starting with whitespace, with only whitespace dropped before it |
| Text.Trim | src/main.rs:154-156 | `trim`: empty exactly when the input is all whitespace; otherwise both ends are not whitespace; no longer than the input and made of its characters |
| Text.TrimPadded | src/main.rs:154-156 | trimming any whitespace padding from around a word with non-whitespace ends gives back that word |
| Text.LastWord | src/main.rs:163 | `split_whitespace().last()`: None exactly when the line is all whitespace; otherwise a nonempty whitespace-free suffix of the trimmed line, preceded by whitespace or by nothing |
| Text.LastWordPadded | src/main.rs:163 | the last word of `p + w + q` is `w` when `p` is empty or ends in whitespace, `w` has none, and `q` is all whitespace |
| Text.Contains | src/main.rs:135 | `contains(k)` holds exactly when `k` occurs at some index |
| Text.ContainsWithin | src/main.rs:186-191 | a word found in a middle part is found in the whole text |
| Text.AbsentCharacter | src/main.rs:186-191 | a word holding a character the text lacks does not occur in it |
| Text.LowerChar | src/main.rs:184 | the lowered character is never an ASCII capital or the Kelvin sign; an ASCII capital moves by 32 code points; any other character but the Kelvin sign is kept |
| Text.ToLower | src/main.rs:184 | `to_lowercase`, modelled for ASCII and the Kelvin sign: same length, lower case throughout; each ASCII capital becomes its small letter, the Kelvin sign becomes `k`, every other character is kept |
| Text.ToLowerIsLower | src/main.rs:184 | lower-cased text is lower case, and lower-casing leaves lower-case text unchanged |
| Text.ToLowerAppend | src/main.rs:184 | lower-casing distributes over concatenation |
| Text.Lines | src/main.rs:134 | `lines()`: no line holds a line feed; no lines exactly for the empty text |
| Text.LinesOfFirst | src/main.rs:134 | a first line without a line feed and without a final carriage return comes back whole, followed by the lines of the rest |
| Text.LinesOfCrlf | src/main.rs:134 | a carriage return and line feed end a line, and that one carriage return is dropped |
| Text.LastLine | src/main.rs:134 | a last line without a line ending comes back as it is |
| Text.LinesOfTerminated | src/main.rs:134 | text written as lines, each followed by a line feed, splits back into exactly those lines |
| ScanLine.ExtractDeviceInfo | src/main.rs:148-170 | panics exactly when the last ')' comes before the last '('; '(' without ')' gives no host; a returned hostname is nonempty, holds no space, has non-whitespace ends and differs from the address; with '(' the address holds no '('; without '(' there is never a hostname and the address is a nonempty, whitespace-free word starting with an ASCII digit; a blank line gives no host |
| ScanLine.ParenthesizedHost | src/main.rs:152-161 | the address is exactly the text between the last '(' and the last ')', holding no '(' when none follows the last '('; a hostname has the parser's shape and differs from the address |
| ScanLine.ParenthesizedLine | src/main.rs:150-154 | with the last '(' before the last ')': the address is exactly the text strictly between them, and the hostname comes from the trimmed text before the '(' |
| ScanLine.HostnameOf | src/main.rs:155-161 | a hostname it returns has the shape above and is not the address |
| ScanLine.NoSpaceNoHostname | src/main.rs:155-161 | no space before the '(' means no hostname |
| ScanLine.HostnameAfterLastSpace | src/main.rs:155-161 | the hostname is the trimmed word after the last space, or None when it equals the address; because that word is never empty, the emptiness test never rejects it |
| ScanLine.BareHost | src/main.rs:163-169 | without '(': a host only with a nonempty whitespace-free address starting with a digit, never with a hostname, never a panic |
| ScanLine.BareLine | src/main.rs:163-169 | without '(': the last whitespace-separated word is the address when it starts with an ASCII digit; otherwise no host |
| ScanLine.BlankLine | src/main.rs:163-169 | an all-whitespace line without '(' gives no host |
| ScanLine.ParseReportLine | src/main.rs:148-170 | round trip: parsing the line nmap writes for an address (and a name) gives back that address and name |
| ScanLine.NamedReportExample | src/main.rs:149 | `Nmap scan report for router (192.168.1.1)` gives address `192.168.1.1`, hostname `router` |
| ScanLine.BareReportExample | src/main.rs:149 | `Nmap scan report for 10.0.0.5` gives address `10.0.0.5`, no hostname |
| ScanLine.NamelessReportExample | src/main.rs:163-169 | a bare word that does not start with a digit gives no host |
| Classifier.Classify | src/main.rs:184-194 | rejects exactly when an excluded word occurs in the lower-cased text; accepts exactly when none occurs and an accepted word does |
| Classifier.ExclusionDominates | src/main.rs:184-193 | a text holding a word that lower-cases to an excluded word, with any surrounding text, is rejected, whatever accept set is used |
| Classifier.RejectSurvivesMoreText | src/main.rs:186-193 | adding text around a rejected body keeps it rejected, under any accept set |
| Classifier.AcceptGrowsWithKeywords | src/main.rs:194-253 | a body accepted with fewer accepted words is accepted with more |
| Classifier.KeywordSetsNest | src/main.rs:194-253 | the `/shelly` words are among the sweep's and those among the `/status` words; no excluded word is an accepted one |
| Classifier.CaseDoesNotMatter | src/main.rs:184 | classifying a lower-cased text gives the same verdict |
| Classifier.ExclusionsAreLower | src/main.rs:186-191 | the excluded words are already lower case |
| Classifier.NoExclusionWithout | src/main.rs:186-191 | a text with neither 'i' nor 'c' holds no excluded word |
| Classifier.CloneExample | src/main.rs:186-193 | "this is a Hikvision Shelly clone" is rejected at the `/shelly` stage |
| Classifier.BrandLowered | src/main.rs:184-188 | "Hikvision" lower-cases to an excluded word |
| Classifier.ShellyPageExample | src/main.rs:194 | "shelly" is accepted at the `/shelly` stage |
| Identifier.SweepVerdict | src/main.rs:237-256 | only a successful answer with a readable body can be decisive |
| Identifier.SweepOver | src/main.rs:235-261 | the sweep accepts only when some endpoint's answer accepts |
| Identifier.ConfirmSweep | src/main.rs:231-262 | `check_shelly_endpoints` accepts only on an endpoint that answered successfully with a readable body that the sweep words accept |
| Identifier.SweepOverFirstDecisive | src/main.rs:235-261 | first decisive wins: the sweep accepts exactly when some endpoint accepts and every endpoint before it was passed over |
| Identifier.PassedOver | src/main.rs:235-259 | an inconclusive first endpoint leaves the decision to the ones after it |
| Identifier.SweepAcceptRequested | src/main.rs:235-255 | an accepting sweep requested the endpoint whose answer accepted |
| Identifier.SweepDependsOnRequested | src/main.rs:235-261 | the sweep's verdict and requests depend only on the answers to the URLs it requested |
| Identifier.SweepRequests | src/main.rs:233-236 | the sweep makes at most one request per endpoint, starting with the first endpoint |
| Identifier.SweepRequestsInOrder | src/main.rs:233-259 | the sweep requests the endpoint URLs in order; every request but the last was passed over; a sweep that stops before the last endpoint stops right after a decisive answer |
| Identifier.SweepFailClosed | src/main.rs:237-261 | with no successful readable answer from any endpoint, the sweep rejects |
| Identifier.CheckShellyEndpoints | src/main.rs:231-262 | the loop with early returns computes the sweep, and accepts exactly when the first decisive endpoint accepts |
| Identifier.IsPotentialShellyDevice | src/main.rs:172-229 | a host is accepted only when `/shelly` or `/status` answered; a reachable `/shelly` with an unreadable body rejects |
| Identifier.ProbesIssued | src/main.rs:176-222 | the cascade requests `/shelly` first and at most two plus three URLs |
| Identifier.ShellyAnswerDecides | src/main.rs:178-197 | a reachable `/shelly` decides alone: true exactly when its body is readable, holds no excluded word and holds "shelly"; nothing else is requested |
| Identifier.StatusFallback | src/main.rs:198-226 | after a `/shelly` transport failure: an unreachable `/status` rejects; a readable `/status` body, whatever its status, decides by the `/status` words; an unreadable body defers to the sweep |
| Identifier.CascadeFailClosed | src/main.rs:198-261 | both first probes unreachable, or the sweep reached with no successful readable answer, rejects |
| Identifier.DependsOnlyOnProbesIssued | src/main.rs:172-229 | the verdict, and the list of requests, depend only on the answers to the URLs the cascade requested |
| Identifier.AcceptedHasEvidence | src/main.rs:172-229 | an accepted host gave, to a URL that was requested, a readable answer that the `/status` words accept |
| Discovery.PanicFreeLines | src/main.rs:134-152 | the pass is panic-free exactly when no line is a report line on which the parser panics |
| Discovery.LineDevice | src/main.rs:135-141 | a line adds at most one device, and only the host its report line parses to, when the cascade accepts that host's address |
| Discovery.Discover | src/main.rs:133-145 | the pass aborts exactly when some report line makes the parser panic; every device it finds has an address the cascade accepts |
| Discovery.AllAccepted | src/main.rs:138-140 | every device drawn from the lines has an address the cascade accepts |
| Discovery.NextPanicFree | src/main.rs:134-136 | one line on, the pass stays panic-free exactly when that line does not panic |
| Discovery.PanicFreePrefix | src/main.rs:134-152 | a panic on an early line aborts the whole pass |
| Discovery.NextLine | src/main.rs:134-143 | one line on, the devices are those so far followed by what that line adds |
| Discovery.Advance | src/main.rs:134-143 | one line handled without a panic keeps both loop facts |
| Discovery.DiscoverShellyDevices | src/main.rs:133-145 | the loop over the lines, with its pushes, gives `Discover`: aborted when a report line panics, otherwise the accepted devices |
| Discovery.CollectAppend | src/main.rs:134-143 | order is kept and nothing is deduplicated: two runs of lines give the first run's devices followed by the second's |
| Discovery.CollectMembers | src/main.rs:134-143 | a device is in the list exactly when one of the lines yields it |
| Discovery.DropSilentLine | src/main.rs:134-143 | a line that yields nothing can be dropped wherever it stands |
| Discovery.OtherLinesIgnored | src/main.rs:135 | a line without the report marker contributes nothing, wherever it stands |
| Discovery.LineDeviceMembers | src/main.rs:135-140 | a line yields a device exactly when it holds the marker, parses to that address and name, and the cascade accepts the address |
| Discovery.FoundExactlyYielded | src/main.rs:134-143 | a device is found exactly when some line is a report line that parses to it and whose address the cascade accepts |
| Discovery.RepeatedLineTwice | src/main.rs:134-143 | a report line that appears twice gives its host twice |
| Discovery.ReportLineIsReport | src/main.rs:135 | the line nmap writes for a host holds the report marker |
| Discovery.ReportLineIsOneLine | src/main.rs:134 | such a line holds no line feed and does not end in a carriage return |
| Discovery.LineDeviceOfReport | src/main.rs:135-140 | a host's report line adds that host exactly when the cascade accepts its address |
| Discovery.AcceptedHosts | src/main.rs:138-140 | the accepted hosts are exactly the hosts whose address the cascade accepts |
| Discovery.AcceptedOfReports | src/main.rs:134-143 | over report lines, the devices found are the accepted hosts, in nmap's order |
| Discovery.DiscoverReported | src/main.rs:129-145 | over an output of report lines for well-formed hosts, the pass does not abort and finds exactly the accepted hosts, in order |
| Discovery.CameraAndShelly | src/main.rs:134-194 | of a camera whose `/shelly` page names its brand and a Shelly device, only the Shelly device is found |
| Discovery.CameraPageRejected | src/main.rs:186-192 | a `/shelly` page saying "hikvision" rejects the host |
| Discovery.ShellyPageAccepted | src/main.rs:194 | a `/shelly` page saying "shelly" accepts the host |
| Discovery.SecondAccepted | src/main.rs:138-140 | of two hosts, when only the second is accepted, only the second is kept |

## Left out

- `main`: argument parsing, logging setup, the scrape loop and its sleep
  (src/main.rs:46-112). This is plumbing with no decision logic.
- Spawning nmap and the error returned when it exits unsuccessfully
  (src/main.rs:115-127). The model starts from nmap's standard output, given
  as a string.
- `String::from_utf8_lossy` (src/main.rs:129): the output is taken as
  already-decoded text.
- The HTTP client: `reqwest`, its 3 s and 2 s timeouts, and async/await. A
  request is replaced by the answer `net` gives for its URL. A timeout
  before the response arrives is a `TransportFail`; a timeout while the body
  is read leaves `body` None.
- The network is the same for the whole pass: asking the same URL twice gets
  the same answer. A real host can answer differently from one request to
  the next.
- `scrape_and_push` (src/main.rs:264-272): a stub that only prints.
- Logging (`info!`, `debug!`, `warn!`): no effect on results.
- Text.ToLower: models Rust's `to_lowercase` only for ASCII letters and the
  Kelvin sign, and leaves every other character as it is. Full Unicode case
  mapping changes other characters and can change the length of the text.
  Only the Kelvin sign lowers to an ASCII letter without a following
  combining mark, and every keyword is ASCII, so the keyword tests should
  come out the same. That agreement is argued here, not proved.
- Text.Lines: follows `str::lines` of current Rust, where a final line with
  no line feed keeps a trailing carriage return; some older Rust releases
  dropped it.
- Rust slices strings by byte offsets; the model indexes characters. The
  parser only slices next to the ASCII characters `(`, `)` and space, where
  the two agree.
- Discovery.DiscoverShellyDevices: `Aborted` stands for the panic. The model
  says nothing about what the program does after it.
