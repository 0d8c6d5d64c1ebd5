# ruuvihome, modelled and proved in Dafny

ruuvihome receives Bluetooth advertisements of Ruuvi sensors, parses them and publishes the measurements over MQTT. This
project models three parts of it and proves what they promise:

1. **The HCI receive path** (`src/ble/hci_parse.go`, `src/ble/hci_linux.go`): decoding LE Advertising Report and LE Extended
   Advertising Report events (Bluetooth Core Specification, Vol 4 Part E, sections 7.7.65.2 and 7.7.65.13), reassembling
   data split over several reports, finding the Ruuvi payload among the AD structures (Vol 3 Part C, section 11), the
   receive loop with its shared read buffer and silence timeout, and the command handshake that initialises the controller
   (Command Complete and Command Status, Vol 4 Part E, sections 7.7.14 and 7.7.15).
2. **The advertisement pipeline** (the callback and the publisher goroutine in `src/main.go`, `RateLimiter` and `Publish` in
   `src/mqtt/publisher.go`): device filter, preference of E1 over format 6, rate limit, parsing, discovery, a queue of 64
   and a publisher with retries.
3. **The frame decoders, the air quality index and the device paths** (`src/parser`, `src/ble/scanner.go`).

## How the model is laid out

| file | what it holds |
|---|---|
| `durations.dfy`, `bytes.dfy`, `go_slices.dfy` | time units; bytes, text forms of addresses and keys; Go slices on shared arrays, `append` |
| `ad_structures.dfy` | AD structures, their encoding, the search for manufacturer data |
| `adv_reports.dfy`, `report_parser.dfy` | reports as values with printer and parser; the parsing loops over the event slice |
| `reassembly.dfy`, `fragments.dfy` | the fragment table as a value and its history; the table itself, over slices |
| `session.dfy`, `receive.dfy` | a session as a function of timed reads; the loop itself, with one buffer on the heap |
| `transparency.dfy`, `overflow.dfy` | senders, schedules and packing: fragmentation does not show; an overflow that does |
| `handshake.dfy` | commands, the wait for an answer, the initialisation on any controller |
| `rate_limiter.dfy`, `publisher.dfy` | greedy admission and its optimality; the retry loop |
| `pipeline.dfy`, `pipeline_laws.dfy`, `erasure.dfy`, `freshness.dfy` | callback and publisher as two processes; what every run keeps |
| `callback_runs.dfy` | callbacks that are not interrupted, as runs; they finish on their own |
| `acceptance.dfy`, `admissions.dfy` | how often a device is accepted; the limiter over whole runs |
| `end_to_end.dfy`, `records.dfy` | the handler calls of a session as the frames of a run; what the counters and maps record |
| `bridge.dfy` | the callback and the publisher's turns as methods over the program's own fields |
| `measurements.dfy`, `format5.dfy`, `format6.dfy`, `format_e1.dfy`, `frame_parser.dfy` | decoders, their inverses, the index |
| `addresses.dfy` | object paths, match rules, the device filter |

Code that changes things in place is a method over arrays or fields of a class, and its contract equates the new state with a
function of the old one; the laws are then proved of those functions. So `Receive.Receive`, which keeps overwriting one array,
is proved to make the handler calls of `Session.Run`, and `Transparency.FragmentationTransparent` is about `Session.Run`.
`Bridges.Bridge` holds the program's own fields; its invariant says that they show a state of the pipeline in which the laws
hold. The constructor establishes it and the callback, the publisher's receive and its count keep it, so it holds after any
sequence of calls, and with it the counter equation on the fields themselves (`Balanced`). The laws in `PipelineLaws` hold of
every interleaving of single steps.

Times are integers in nanoseconds. What the surroundings do is a parameter: reads and writes of the socket with the times at
which the clock is looked at, broker replies with the time they take, whether discovery succeeds, the order of all steps.

## Where the code falls short of what one might expect

The model does what the code does. These are the places where a property holds only under a condition, or where the code does
something its reader may not expect, each with the lemmas that state it.

- Reassembly skips a fragment that would take a buffer past 1650 bytes but keeps the ones before and may keep later ones
  (`src/ble/hci_parse.go:109-111`). Reassembled data have no hole exactly when the pieces before the final one total at most
  1650 bytes (`Reassembly.GapFreeExactly`). `Overflow.HoleReachesHandler` is a session, every packet of which fits into the
  read buffer, that hands over a payload with the hole in it. The final fragment is not bounded
  (`src/ble/hci_parse.go:103-105`): the table delivers at most 1905 bytes for reports of up to 255 bytes, and a session, whose
  reads hold at most 245 bytes of data, at most 1895 (`Reassembly.DeliveredIsHistory`, `Overflow.DeliveredInBuffer`).
- A legacy report is a final report of set 0, so it completes whatever extended data are pending for that set; it delivers its
  own data exactly when none are (`Reassembly.LegacyTakesPending`, `Reassembly.LegacyCompletesExtended`).
- A packet that is not an event, or is shorter than three bytes, skips the silence check (`src/ble/hci_linux.go:176-178`).
  `Session.SurvivesExactly` says exactly when a session goes on; by `Session.SilentButAlive` one fed only such packets never
  ends.
- A configured key is subscribed in upper case and with underscores for colons, but looked up by the filter as it is written
  (`src/ble/scanner.go:208-210`, `src/main.go:171-181`). What is heard passes exactly when the key's upper-case form with
  colons is itself configured (`Addresses.SubscribedPassesFilter`): a key with lower-case letters is subscribed and dropped
  (`Addresses.LowerCaseKeyDropped`), although a test comment calls it normalised (`src/ble/scanner_test.go:24`), and so is one
  written with underscores (`Addresses.UnderscoreKeyDropped`).
- A clamped humidity cannot be read back, and format 6 also drops zero readings and temperatures out of range. The lemmas
  `FrameComesBack` give the exact conditions.
- The comment at `src/main.go:146` says the callback never blocks on network I/O. Its enqueue step does not
  (`CallbackRuns.CallbackFinishes`; `CallbackRuns.BlockingSendWaits` is what a blocking send would do instead), but discovery
  publishes from inside the callback (`src/main.go:224-233`). This puts admission and acceptance apart: by acceptance time a
  device keeps to W / I + 1 exactly when the callback takes no time from the rate limit to the queue
  (`Acceptance.RateHoldsExactly`), and to (W + D) / I + 1 when it takes at most D (`PipelineLaws.EveryRunAcceptedRate`).
- An unparseable frame uses up the rate limit of its device (`src/main.go:200-212`): nothing is queued, and the next frame is
  admitted exactly when the interval is over (`Admissions.UnparseableTakesSlot`, `Admissions.ShortFrameUnparseable`).
- An E1 frame sets the preference even if it is then rate limited or unparseable; the law that no format 6 measurement follows
  too soon is about every E1 frame heard (`PipelineLaws.EveryRunLawful`).

Two things are assumptions of the model rather than results:

- Suppressed format 6 frames have no counter (`src/main.go:193-195`); the history of the model counts them, which
  `Pipeline.Conserved` needs.
- `Allow` dereferences the configuration of a device without the nil test the callback has (`src/mqtt/publisher.go:231`
  against `src/main.go:220`); the model assumes that no configured device is nil.

## Model

The run-level theorems come first, then the parts they are made of, in the order of the data's way through the program.

| member | source | states |
|---|---|---|
| Transparency.FragmentationTransparent | src/ble/hci_linux.go:159-197 | advertisements of some addresses split in any way the bound allows, interleaved and packed into events in any grouping, beside anything else other addresses send: however the session ends, its handler calls for these addresses are one for each completed advertisement whose first structure of type 0xFF and company 0x0499 holds a payload, of any length, with that payload whole and the address and signal strength of its last report, in order of completion |
| Transparency.StreamsTransparent | src/ble/hci_linux.go:159-197 | the same for any bytes read, malformed events included, as long as the reports heard of these addresses are those of a schedule |
| EndToEnd.AdvertisementsCounted | src/main.go:169-186 | in named mode, when what the configured devices send is advertisements on a schedule, beside anything other devices send, the number of advertisements counted is the number of those completed whose first Ruuvi structure holds a payload, of any length |
| Receive.Receive | src/ble/hci_linux.go:159-197 | the loop over one reused buffer ends as specified, and its handler calls, read after it ended, are those specified: reusing the buffer is harmless |
| PipelineLaws.EveryRunLawful | src/main.go:148-243 | after every interleaving of callback, publisher, clock and cancellation: advertisements counted = suppressed + rate limited + unparseable + published + failed + queued + in flight + in the callback; measurements taken followed by the queue are the accepted ones in order, the queue holding at most 64; the E1 frames heard from a device before a format 6 measurement of it is queued are all at least five minutes older; accepted measurements of a device were admitted at least its interval apart |
| Records.EveryRunSuppresses | src/main.go:188-197 | on every run the E1 rule drops a frame exactly when it is of format 6 and an E1 frame of its device was heard less than 300 s ago |
| Records.CountersCount | src/main.go:156-242 | on every run each counter has counted the steps of its kind and nothing else: advertisements past the filter, refusals, parse failures, successful publications, and failed ones together with measurements that found the queue full |
| PipelineLaws.EveryRunOnTime | src/main.go:148-166 | unless cancelled, a measurement accepted behind k others is published or counted failed within (k + 2) x 11 s on every prompt run |
| Acceptance.RateHoldsExactly | src/main.go:200-242 | a device that the filter lets through has at most W / I + 1 accepted measurements in any span W of every run whose callback takes at most D from the rate limit to the queue, if and only if D = 0 |
| PipelineLaws.EveryRunAcceptedRate | src/main.go:200-242 | at most (W + D) / I + 1 accepted measurements on every such run, for any D |
| Bridges.Bridge.OnAdvertisement | src/main.go:169-243 | the whole callback leaves the fields as its uninterrupted run does; the laws hold of the fields afterwards, the counter equation among them |
| Bridges.Bridge.PublishNext | src/main.go:154-161 | taking, publishing with retries and counting are a run of the publisher's steps and keep the laws of the fields; the time it takes is within the bound the latency law assumes |
| Erasure.SuppressedFramesErased | src/main.go:188-204 | removing any suppressed format 6 frames from a run leaves a run that is alike in all but when devices were seen, how many advertisements were counted and how many suppressed |
| Admissions.RunAdmissionsOptimal | src/mqtt/publisher.go:226-246 | on every run the admissions of a device are the greedy ones, with the interval configured for it if positive and otherwise the default, for the times at which its frames reach the limiter, parseable or not: spaced, and no spaced selection of those times has more |
| RateLimiting.LimiterOptimal | src/mqtt/publisher.go:210-246 | the same of the limiter itself, with the interval configured for the device if positive and otherwise the default: its answers are spaced, and no spaced selection admits more |
| Handshake.Link.Initialise | src/ble/hci_linux.go:113-155 | whatever the controller does, the commands written are a prefix of the plan for the features it reported, each after the completion of the one before, and it succeeds exactly when every write and every wait of the plan does |
| Handshake.PlanIsSafe | src/ble/hci_linux.go:120-150 | in every prefix of a plan legacy and extended scan commands are not mixed, extended ones need feature bit 12 and legacy ones its absence, scan enable comes once and last, and scan parameters are acceptable |
| Session.SurvivesExactly | src/ble/hci_linux.go:162-197 | a session is still running exactly when no turn was cancelled or broken and every turn that looks at the silence timeout was in time |
| Session.SessionTableIsHistory | src/ble/hci_linux.go:160-187 | the fragment table of a session, running or ended, as a function of everything it heard, and never more than 1650 bytes in an entry |
| Reassembly.StreamIsolation | src/ble/hci_parse.go:97-116 | in any interleaved run the results and the final entry of one stream are those of its own reports alone |
| Reassembly.TableIsHistory | src/ble/hci_parse.go:99-116 | after any run a stream has an entry exactly when its last report had status 1, and the entry is the accepted data since its last other status |
| Reassembly.GapFreeExactly | src/ble/hci_parse.go:108-111 | the accepted data are all the data exactly when these total at most 1650 bytes |
| Overflow.HoleReachesHandler | src/ble/hci_linux.go:159-191 | a session whose packets all fit into the read buffer: eight fragments of 229 bytes and one byte, the eighth is skipped and the handler is given a payload that was never sent |
| AdvReports.ParseEncodedEvent | src/ble/hci_parse.go:39-93 | the first k >= 4 bytes of an event of up to 255 reports, of either layout, parse to exactly the reports wholly inside, with an error naming the next one exactly when it is cut |
| FormatE1.FrameComesBack | src/parser/format_e1.go:40-155 | bytes 0 to 21 and 25 to 27 of every accepted frame come back from its measurement, the humidity exactly when it was not clamped |
| Format5.FrameComesBack | src/parser/format5.go:35-133 | bytes 0 to 17 of every accepted frame come back from its measurement, the humidity exactly when it was not clamped |
| Format6.FrameComesBack | src/parser/format6.go:46-116 | all raw fields come back exactly when nothing was clamped, out of range or a dropped zero |
| FrameParser.AirQualityMonotone | src/parser/parser.go:202-288 | the index lies in 0 to 500, never falls when a reading grows and never falls when one is added |
| Addresses.PathRoundTrip | src/ble/scanner.go:208-210 | for an adapter path with no device component, the path of an address leads back to it in upper case exactly when it has no underscore and no slash |
| Addresses.SubscribedPassesFilter | src/main.go:170-181 | for every configured key, what is heard on its path passes the callback's filter exactly when the upper-case form of the key with colons for underscores, up to the first slash, is configured |
| Bytes.AddrTextLayout | src/ble/hci_parse.go:58 | the text of an address: six upper-case pairs, the last byte first |
| Bytes.StreamKeyExact | src/ble/hci_parse.go:100 | two reports share a reassembly key exactly when their six address bytes and their set id agree |
| GoSlices.Append | src/ble/hci_parse.go:105-110 | `append`: the result reads as both parts, on the old array exactly when the capacity allows and otherwise on a new one |
| GoSlices.Clone | src/ble/hci_linux.go:191 | a copy on an array of its own that reads the same |
| AdStructures.FindManufacturerData | src/ble/hci_parse.go:120-132 | on any bytes the walk stays inside and finds what the greedy decoding into AD structures promises, as a window on the same array |
| AdStructures.FirstOfIsFirst | src/ble/hci_parse.go:120-132 | the payload is that of the first structure of type 0xFF with the company id; none exactly when there is no such structure |
| AdStructures.DecodeEncode | src/ble/hci_parse.go:121-130 | greedy decoding recovers every encodable list, whatever undecodable bytes follow |
| AdStructures.EncodeDecode | src/ble/hci_parse.go:121-130 | the decoding reads a prefix of the bytes exactly as they stand and stops only at the end, a zero length or a length past the end |
| AdStructures.PaddedSearch | src/ble/hci_parse.go:120-132 | on an encoded list followed by zero padding the search answers the first structure of the list that names the company |
| AdvReports.DecodeEncode | src/ble/hci_parse.go:52-61 | field by field, an encoded report of either layout decodes to its meaning |
| AdvReports.WholeIsExact | src/ble/hci_parse.go:48-56 | which reports lie wholly inside the first k bytes: they fit, and one more does not |
| AdvReports.ParseWholeEvent | src/ble/hci_parse.go:39-93 | an uncut event parses without error to all its reports; bytes after the last one change nothing |
| AdvReports.ParsedInBounds | src/ble/hci_parse.go:53-61 | every report parsed from any bytes has at most 255 bytes of data and a full upper-case address |
| AdvReports.OtherEventsIgnored | src/ble/hci_parse.go:39-45 | any other event, or one too short, holds no reports and is no error |
| ReportParser.ParseAdvReports | src/ble/hci_parse.go:39-93 | the loops over the event slice return the reports and the error of the parser function, the data being windows on the event's array |
| Reassembly.DeliveredIsHistory | src/ble/hci_parse.go:101-107 | what each report delivers as a function of the reports before it, and at most 1905 bytes of it |
| Reassembly.LegacyTakesPending | src/ble/hci_parse.go:57-61 | a legacy report delivers what is pending for set 0 of its address and then its own data; only its own exactly when nothing is pending |
| Reassembly.LegacyCompletesExtended | src/ble/hci_parse.go:99-107 | an extended report that announces more, completed by a legacy report of the same device |
| Fragments.FragmentTable.Add | src/ble/hci_parse.go:99-116 | the table over slices does what the table of values does; it never keeps or changes the report's array, and delivered data share no array with it |
| Session.AttendedFirst | src/ble/hci_linux.go:162-197 | the turns a session handles are the first ones, and all of them while it is running |
| Session.RunHandlesAll | src/ble/hci_linux.go:162-197 | however a session ends, and while it runs, it has handled all reports heard in the turns it attended, in order, however they were cut into reads |
| Session.SilentButAlive | src/ble/hci_linux.go:176-178 | any number of packets that are no events leave a session as it is, however late they come |
| Session.SilentPacket | src/ble/hci_linux.go:176-178 | such a packet: a session kept alive at any time |
| Session.HandlerCallExactly | src/ble/hci_linux.go:183-192 | a report that completes structures and zero padding makes exactly one call if the first structure of type 0xFF and company 0x0499 has more than two body bytes, with the report's address and signal strength and all the bytes after the company; otherwise none |
| Session.EndsExactly | src/ble/hci_linux.go:162-197 | the first turn a session does not get through says how it ends: cancelled, read failure, or silence |
| Overflow.HeardInBuffer | src/ble/hci_linux.go:159-179 | a report heard in the read buffer has at most 245 bytes of data, and 231 if more follows |
| Overflow.DeliveredInBuffer | src/ble/hci_linux.go:159-187 | a session delivers at most 1895 bytes for a report |
| Transparency.ScheduleHandled | src/ble/hci_linux.go:183-192 | handling what any schedule of senders emits makes the deserved calls in order of completion |
| Transparency.CompletedOnce | src/ble/hci_parse.go:101-107 | a schedule completes each advertisement it finishes exactly once and no other |
| Transparency.OthersDoNotMatter | src/ble/hci_parse.go:97-116 | whatever other addresses send, truncated and overflowing data among it, some addresses get the handler calls they would get alone |
| Handshake.AnsweredExactly | src/ble/hci_linux.go:82-100 | what a wait ends in is decided by the first read that is late, broken or an answer |
| Handshake.AwaitHears | src/ble/hci_linux.go:82-100 | no packet heard before the last answers the command, and success means that the last one does, with status 0 |
| Handshake.ExchangeOrderly | src/ble/hci_linux.go:75-101 | one more command keeps the traffic orderly: each command follows a matching completion with status 0 of every one before it |
| Handshake.Link.HciCmd | src/ble/hci_linux.go:75-101 | the loop over reads writes the command and then does what the specified wait does |
| Handshake.Link.Issue | src/ble/hci_linux.go:75-101 | the same in terms of the traffic: at most this command is added, and success leaves no command waiting |
| Handshake.Link.RunSteps | src/ble/hci_linux.go:151-155 | commands in order up to the first that fails: which failure, what is written, and what is left to read are those of the specified sequence |
| Handshake.ScanUnits | src/ble/hci_parse.go:154-166 | a duration becomes the number of 0.625 ms units that fit into it, clamped to 4 and 0x4000, zero or less meaning the default |
| Handshake.PlanBytes | src/ble/hci_linux.go:113-150 | all six commands of an initialisation, byte by byte, for any features and durations |
| Handshake.PlanEnables | src/ble/hci_linux.go:119-150 | what they do: reset first, LE events and their reports let through, extended commands exactly with feature bit 12 and the coded PHY exactly with bit 11 as well, scanning enabled last, without duplicate filtering and without an end |
| Handshake.CompleteAnswers | src/ble/hci_parse.go:141-144 | a Command Complete event answers the command it names, with its status and return parameters, and no other |
| Handshake.StatusAnswers | src/ble/hci_parse.go:145-148 | a Command Status event answers the command it names, with its status alone, and no other |
| Handshake.OthersDoNotAnswer | src/ble/hci_parse.go:136-151 | no other packet answers a command |
| Handshake.SucceedsExactly | src/ble/hci_linux.go:151-155 | commands in order succeed exactly when every write succeeds and every wait ends in an answer with status 0 |
| RateLimiting.RateLimiter.Allow | src/mqtt/publisher.go:226-246 | a request is refused exactly when the last admission of the device is less than its interval ago, the configured one if positive and otherwise the default; an admission is stored and a refusal changes nothing |
| RateLimiting.AnswersAreGreedy | src/mqtt/publisher.go:226-246 | on any run of requests each device gets the greedy answers for its own arrivals, whatever other devices do |
| RateLimiting.GreedySpaced | src/mqtt/publisher.go:236-245 | admissions are at least the interval apart |
| RateLimiting.GreedyStaysAhead | src/mqtt/publisher.go:236-245 | an earlier last admission is worth at most one admission more and never one less |
| RateLimiting.RefusedExactly | src/mqtt/publisher.go:226-246 | one request, with the interval written out |
| RateLimiting.SpacedApart | src/mqtt/publisher.go:236-245 | spaced means that any two picks are the interval apart |
| RateLimiting.GreedyOptimal | src/mqtt/publisher.go:236-245 | no selection of the arrivals with the interval between its picks has more picks than the greedy one |
| Publishing.Client.Publish | src/mqtt/publisher.go:142-184 | with n retries at most n + 1 attempts in at most (n + 1) x 5 s + n x 1 s, none after a success or a cancellation; success exactly when the last attempt was accepted |
| EndToEnd.SessionCounted | src/main.go:169-243 | a run that receives the handler calls of a session has counted each of them that passes the filter and accounts for each |
| Records.E1History | src/main.go:188-191 | the E1 frames in the history are those heard, with their times |
| Records.Format6Accepted | src/main.go:192-242 | a format 6 frame of a device without a recent E1 frame, past its interval and with room in the queue, is accepted |
| Records.RefusesExactly | src/main.go:199-204 | the callback gives up at the limiter exactly when the last admission of the device is less than its interval ago |
| Records.RejectsExactly | src/main.go:206-212 | it gives up at the parser exactly when the frame is not accepted |
| Records.DiscoveredExactly | src/main.go:224-233 | on every run a device is discovered exactly after a successful announcement with discovery enabled |
| Pipeline.MeasurementExactly | src/main.go:206-222 | a measurement has the sender and signal strength of its frame, the second of its time, the configured name if there is one, and the readings of the parser unchanged |
| PipelineLaws.RateBound | src/main.go:200-204 | in any span of time W a device with interval I > 0 has at most W / I + 1 admissions that led to an accepted measurement |
| PipelineLaws.AcceptedRateBound | src/main.go:200-242 | counted by when they were accepted, at most (W + D) / I + 1, D bounding the time from admission to acceptance |
| Acceptance.EveryDelayExceeds | src/main.go:224-242 | for every interval and every positive delay a run with that delay that accepts two measurements in a span for which the bound is one |
| Admissions.UnparseableTakesSlot | src/main.go:199-212 | a frame that cannot be parsed takes the slot of its device, counts as a parse error and queues nothing; the next one is admitted exactly when the interval is over |
| Admissions.ShortFrameUnparseable | src/main.go:207-212 | such a frame |
| CallbackRuns.CallbackFinishes | src/main.go:235-242 | the callback is done after at most six steps of its own, none of them the publisher's, whatever state the publisher is in and however full the queue is |
| CallbackRuns.UninterruptedIsRun | src/main.go:169-243 | the steps of an uninterrupted callback are a run of the pipeline, ending where the callback leaves the fields |
| CallbackRuns.CallbackLawful | src/main.go:169-243 | an uninterrupted callback keeps conservation, queue safety, no alternation and the rate |
| CallbackRuns.TurnIsRun | src/main.go:154-161 | an uninterrupted turn of the publisher is a run of the pipeline |
| Erasure.ErasedRunShares | src/main.go:188-204 | from the start: the same queue, accepted measurements, limiter state, E1 times, discovered devices and publications |
| Freshness.Newest | src/main.go:290-296 | the loop of the health handler finds the greatest time |
| Freshness.EveryRunFresh | src/main.go:183-186 | after every run that is the time of the last advertisement that passed the filter, also if it was suppressed, rate limited or unparseable |
| Freshness.EveryDeviceFresh | src/main.go:183-186 | after every run the time kept of a device is that of its last advertisement that passed the filter |
| Format5.ParseFormat5 | src/parser/format5.go:35-133 | the parser, field after field, against its function |
| Format5.AcceptedExactly | src/parser/format5.go:36-60 | a frame is accepted exactly when it is long enough, of format 5 and its temperature in range or absent |
| Format5.PowerComesBack | src/parser/format5.go:100-116 | the 11 + 5 bits of the power word come back, sentinels included |
| Format5.ReadingsExactly | src/parser/format5.go:50-116 | the readings with decimals and the transmission power, to the last digit |
| Format6.ParseFormat6 | src/parser/format6.go:33-119 | the parser, field after field, against its function |
| Format6.AcceptedExactly | src/parser/format6.go:34-40 | only the length and the first byte decide whether a frame is accepted |
| Format6.RawDeterminesBytes | src/parser/format6.go:46-116 | the raw fields are equal exactly when bytes 1 to 12, the top two bits of byte 13 and byte 14 are |
| Format6.ReadingsExactly | src/parser/format6.go:46-99 | which readings there are and what those with decimals stand for, to the last digit |
| FormatE1.ParseFormatE1 | src/parser/format_e1.go:40-155 | the parser, field after field, against its function |
| FormatE1.AcceptedExactly | src/parser/format_e1.go:41-64 | a frame is accepted exactly when it is long enough, of format E1 and its temperature in range or absent |
| FormatE1.PackedComesBack | src/parser/format_e1.go:118-143 | the 9 + 9 + 22 bits of bytes 17 to 21 neither overlap nor lose a bit |
| FormatE1.ReadingsExactly | src/parser/format_e1.go:55-143 | the readings with decimals, to the last digit |
| FrameParser.ParseFrame | src/parser/parser.go:82-114 | dispatch on the first byte and the index, against its function |
| FrameParser.CalculateAQI | src/parser/parser.go:202-288 | the running maximum, against its function |
| FrameParser.AirQuality | src/parser/parser.go:202-288 | there is an index exactly when there is a reading, and it is the greatest of zero and the scores present |
| FrameParser.ParsedExactly | src/parser/parser.go:82-114 | exactly the frames that are accepted, and the readings are those of the format's own parser |
| FrameParser.PmScoreExactly | src/parser/parser.go:206-226 | the PM2.5 score is the line between the breakpoints (0, 0), (12, 50), (35.4, 100), (55.4, 150), (150.4, 200), (250.4, 300), (500.4, 500), rounded down, and 500 beyond |
| FrameParser.Co2ScoreExactly | src/parser/parser.go:258-276 | the CO2 score is the line between the breakpoints (0, 0), (600, 50), (1000, 100), (1500, 150), (2000, 200), (5000, 500), rounded down, and 500 beyond |
| FrameParser.VocScoreExactly | src/parser/parser.go:233-251 | the VOC score is half the index, rounded down, and 500 from 1000 on |
| FrameParser.IndexExactly | src/parser/parser.go:108-158 | an accepted frame has an index exactly when values are extended and it is of format 6 or E1 with a reading to score |
| FrameParser.ParsedAirQuality | src/parser/parser.go:153-158 | the index of an accepted frame is the greatest score of its readings, in 0 to 500, and format 5 has none |
| Addresses.ExtractMAC | src/ble/scanner.go:307-316 | the loop over path components, against its function |
| Addresses.MatchRules | src/ble/scanner.go:193-205 | in named mode two rules for the path of each configured key and no other, otherwise the one broad rule |
| Addresses.PathText | src/ble/scanner.go:207-210 | the path as BlueZ writes it, and the address read from it |
| Addresses.LowerCaseKeyDropped | src/main.go:170-181 | a lower-case key that is subscribed and then filtered out |
| Addresses.UnderscoreKeyDropped | src/main.go:170-181 | an upper-case key, written with underscores, that is subscribed and then filtered out |

## Left out

- Sockets, ioctl, bind and the retries of `openUserChannel`, D-Bus and BlueZ discovery, `processSignal` and
  `handleDeviceProperties` with its signal strength cache: foreign calls around a few branches. Reads and writes of the HCI
  socket are arbitrary scripts; a script that ends stands for a controller that stays silent.
- The text of match rules and the order in which Go visits a map: a rule is its kind and its path, the order is arbitrary.
- The MQTT library, TLS, last will, connecting, JSON: an attempt to publish is accepted, refused or unanswered within its
  timeout; a measurement that cannot be serialised does not occur.
- Home Assistant discovery beyond whether it succeeds, and how long it takes.
- Dew point, absolute humidity and air density: logarithms and exponentials of floats.
- Float rounding: readings are exact reals, 0.005 meaning 1/200, and the conversions `int(x)` cut towards zero.
- Configuration files and their validation, the HTTP server beyond the newest time, the observability ticker, signal handling,
  masking of addresses, logging.
- The Go memory model: each map, counter or channel operation is one atomic step, and the first step of the callback does the
  filter and the mark as seen at once.
- Letters other than ASCII ones in `strings.ToUpper`.
- Shifts and masks are written as division and remainder by powers of two.
- Pointers to readings: a measurement is a value, so aliasing of its fields is not captured.
- Conformance of the E1 and format 6 layouts to the sensor maker's published pages: the facts are about the layout in the code.
- The channel is a sequence; its implementation by the Go runtime is not modelled.
- PipelineLaws.EveryRunOnTime: assumes prompt scheduling, that is, time does not pass while the publisher could take a
  measurement, nor beyond 11 s while it publishes; `Bridges.Bridge.PublishNext` proves the second of an uninterrupted turn.
- Session.SurvivesExactly: when handler calls within one read happen at different times, only the last of them matters and is
  given as one time of the turn.
- Transparency.FragmentationTransparent: a device is told apart by its address, so all advertising sets of an address with a
  well-formed stream must be well-formed.
- Handshake.Link.Initialise: the start of the session, opening the device, is not part of it.
