# keenetic-rci: a verified model

`keenetic-rci` is an asynchronous client for the RCI HTTP interface of Keenetic routers. This
project models the parts of it that carry real algorithms, state and concurrency, and proves
what they promise. `dafny verify dfyconfig.toml` checks everything.

| file | models |
|---|---|
| `Bytes.dfy`, `Utf8Text.dfy`, `SortedMap.dfy`, `Decimal.dfy` | byte strings, UTF-8, B-tree maps in key order, `str::parse` and `Display` of unsigned integers |
| `JsonText.dfy` | JSON texts with every whitespace and string spelling of RFC 8259, and the tree each one parses to |
| `Prefilter.dfy` | the byte scan that decides whether a response needs generic inspection |
| `ResponseErrors.dfy` | the recursive collection of RCI errors, and response decoding |
| `SingleFlight.dfy`, `RequestLife.dfy`, `Challenge.dfy` | authentication shared by any number of requests, with cancellation; the life of one request; the challenge headers |
| `NetworkTestSession.dfy` | the pull-based reader of a continued network test |
| `Path.dfy` | canonicalisation of RCI and CI paths |
| `NetworkTestRequests.dfy`, `Iperf3.dfy` | the traceroute and iPerf3 request builders |
| `ClientIndex.dfy` | the index joining four responses by MAC address |
| `NetworkText.dfy`, `MemoryUsage.dfy`, `InlineText.dfy`, `Imei.dfy` | text forms of uptimes, durations, MAC addresses, memory usage, inline strings and IMEIs |

Imperative code is written as methods and classes proved against a specification function; the
promises are then lemmas about that function. Strings are their UTF-8 bytes.

**Responses.** A JSON text is a concrete syntax tree: every blank, every string spelled piece by
piece (raw byte, two-character escape, `\uXXXX`, surrogate pair). `Write` gives its bytes and
`Tree` its value, in which the last duplicate of a key wins and members are sorted, as in a B-tree
map. The prefilter is shown to find every string the tree mentions, in any spelling, so decoding
reports RCI errors exactly when inspecting every body would. The parser is a parameter: any parser
that only accepts JSON texts and builds their trees (it may refuse more, such as deep nesting).
The entries come in the order of the arrays that hold them, outer arrays before the arrays inside
their elements; this is the traversal order, and it is not the order in which the entries themselves
would appear in a plain pre-order walk of all values.

**Authentication.** `System` is a transition system over an unbounded map of requests. The load of
the atomic, the increment, the recording of the result and the store are separate steps; requests
may be dropped exactly where the code awaits: both sends, the mutex, and the GET and POST of an
attempt. A load may see any generation already published,
which covers both the current value and the stale ones that acquire ordering allows. The mutex may
be taken by any waiter, which covers its first-in-first-out queue. `attempts`, `seen`, `used` and
`publishedCount` only record history. The wrapped 64-bit comparison is sound precisely while the
number of completed attempts since the observation is not a positive multiple of 2^64; a reachable
run shows that the bound is needed.

**Sessions.** The router is a finite script of replies with the time each takes, and a script that
has run out fails every further request; this covers all finite behaviours of a router. Time is in
milliseconds, and the caller may pause for any time between calls and before the ending. Failed
`next_chunk` calls lose nothing. A `collect` or `cancel` fails exactly when its last poll or its
DELETE does, and then loses all it had gathered: the lines still unread, and those it had received.
A `next_chunk` future dropped while it sleeps is a pause, and one dropped while a poll is in flight
is, to the session, a failed call.

**iPerf3.** That setters can be called in any order is false, as the source's own comment on
`source` hints. `Iperf3OrderMatters` gives the exact condition under which two orders differ, and
`Ipv6SourceForHostName` a concrete pair.

## Model

| member | source | states |
|---|---|---|
| Prefilter.JsonStringMatches | src/client.rs:963-983 | the loop over the expected bytes computes the match relation |
| Prefilter.DecodeFourDigits | src/client.rs:972-976 | the four-digit fold yields the 16-bit value of the escape, losing no bits, or nothing for a non-digit |
| Prefilter.MatchesIffSpelled | src/client.rs:963-992 | the scanner accepts a suffix exactly when a JSON string body decoding to the expected text, in any RFC 8259 spelling, starts there and is closed by a quote |
| Prefilter.ContainsJsonString | src/client.rs:945-961 | literal search, no-backslash shortcut and escape-aware scan together answer whether some quote is followed by a match |
| Prefilter.NeedsRciInspection | src/client.rs:938-943 | a body is inspected exactly when both strings occur as quoted tokens |
| Prefilter.InspectionIsExact | src/client.rs:938-961 | a body is inspected exactly when spellings of both `status` and `error`, with any escapes, follow quotes in it |
| Prefilter.MentionedIsFound | src/client.rs:938-983 | every plain key or string value of the parsed tree is found in the bytes of any text of that tree |
| JsonText.TreeWellFormed | src/client.rs:1062-1063 | parsed objects are sorted by key and so have distinct keys |
| JsonText.LastDuplicateWins | src/client.rs:902 | looking up a repeated key in a parsed object gives the value written last |
| ResponseErrors.Collector.Collect | src/client.rs:1060-1087 | the accumulating traversal appends exactly what the functional form returns |
| ResponseErrors.Collector.Extend | src/client.rs:1067-1076 | harvesting appends the error objects of one status array, in order |
| ResponseErrors.CollectedErrors | src/client.rs:1060-1087 | the entries are those of exactly the positions "element of an array under key status whose own status is error", in strictly increasing traversal order (members by key, outer arrays first) and each once |
| ResponseErrors.FoundIffGenuine | src/client.rs:1062-1083 | a labelled entry is collected exactly when its position reports an error and the entry is the one built there |
| ResponseErrors.CollectedExactly | src/client.rs:1062-1071 | a position is collected exactly when it lies in an array under the key `status` and its own member `status` is the string `error` |
| ResponseErrors.EntryReadsMembers | src/client.rs:1072-1076 | code, ident and message of an entry are the string members of those names at its position, where there are any |
| ResponseErrors.ErrorsAreInspected | src/client.rs:938-992 | if the tree of any JSON text holds an RCI error, the prefilter demands inspection |
| ResponseErrors.ReferenceParserIsSound | src/client.rs:902 | the assumption on the parser can be met by one that accepts every JSON text |
| ResponseErrors.DecodeJsonResponse | src/client.rs:897-920 | decoding reports RCI errors exactly when inspecting every parsed body would, with the same entries; otherwise it answers as typed decoding does |
| SingleFlight.StepKeepsInvariant | src/client.rs:759-792 | every step of every request, cancellation included, keeps the protocol invariant |
| SingleFlight.GenerationCountsAttempts | src/client.rs:787-790 | completed attempts are the generation modulo 2^64; the atomic equals the guarded generation or lags it by one inside the critical region, and agrees when the mutex is free |
| SingleFlight.MutualExclusion | src/client.rs:778 | at most one request is in the critical region, and it always has an enabled step |
| SingleFlight.LeaderSawEveryAttempt | src/client.rs:777-787 | attempt k was led from an observation of k completed attempts exactly when fewer than 2^64 attempts completed since that observation |
| SingleFlight.OneAttemptPerObservation | src/client.rs:759-792 | two requests that observed the same generation never both complete an attempt, as long as the observation is held for fewer than 2^64 completions |
| SingleFlight.WrappedComparisonIsExact | src/client.rs:779 | a request leads exactly when the attempts since its observation are a multiple of 2^64, so the wrapped comparison is right exactly when that is not a positive multiple |
| SingleFlight.ObservationReusedAfterWrap | src/client.rs:787 | the bound is needed: some reachable state has two completed attempts led from one observation |
| SingleFlight.FollowerGetsLatest | src/client.rs:779-784 | a mismatch implies a recorded result, so the expect never fires, and the follower gets the latest completed attempt, newer than its observation |
| SingleFlight.ResultsAreLater | src/client.rs:759-791 | every result in use belongs to an attempt numbered above the observation; no request panics and none attempts without credentials |
| RequestLife.ReplyFollowsResponses | src/client.rs:759-775 | over whole runs, a request sends once, or again straight after a 401 and a successful authentication, and its last response decides its reply; each kind of reply is characterised by the responses received |
| RequestLife.StepsOfRequest | src/client.rs:759-792 | a request can be dropped exactly where it awaits and can proceed unless another one holds the mutex it awaits; elsewhere exactly one step is possible; once ended, none |
| SingleFlight.DropIsHarmless | src/client.rs:777-786 | dropping a request where it awaits changes neither generation, result nor atomic, and frees the mutex it held |
| Challenge.ParseChallenge | src/client.rs:1029-1058 | succeeds exactly when both headers are visible, non-empty text, and returns them; otherwise tells absent, incomplete, invalid and empty headers apart |
| SingleFlight.PerformAuthentication | src/client.rs:794-824 | the outcome of an attempt, each of its errors included, is characterised by the answers to its GET and its POST |
| SingleFlight.AuthCell.Authenticate | src/client.rs:777-792 | one uninterrupted call updates generation, result and atomic together or returns the last result unchanged |
| SingleFlight.RunCall | src/client.rs:777-792 | the effect of an uninterrupted call is that of a run of the transition system |
| NetworkTestSession.Session.constructor | src/client.rs:559-568 | a session starts from the decoded POST with its first poll one interval later |
| NetworkTestSession.Session.NextChunk | src/client.rs:578-600 | the polling loop computes the specified poll and leaves the specified session |
| NetworkTestSession.Session.Collect | src/client.rs:610-616 | the collecting loop returns all remaining lines, or nothing when a poll fails |
| NetworkTestSession.Session.Cancel | src/client.rs:625-648 | cancelling returns the unread lines and those of the DELETE reply |
| NetworkTestSession.Session.IsFinished | src/client.rs:652-654 | finished exactly when the next call reports the end and changes nothing; otherwise that call hands out a chunk or sends a request |
| NetworkTestSession.NextChunkConserves | src/client.rs:578-600 | one call hands out a non-empty chunk, ends a finished session or fails; handed-out plus unread lines stay all lines received |
| NetworkTestSession.NextChunkIsPrompt | src/client.rs:569-600 | unread output is returned without delay; the polls of a call go out at the later of the call and the poll time, then one second after each response |
| NetworkTestSession.CollectIsPrompt | src/client.rs:610-616 | so do those of `collect`, which ends with its last response |
| NetworkTestSession.PollConserves | src/client.rs:587-598 | a decoded poll adds one response; a failed one leaves pending output, continuation and poll time unchanged |
| NetworkTestSession.EndingIsExact | src/client.rs:610-648 | `collect` and `cancel` return the unread lines and all lines they receive, and fail exactly when their last request is not decoded |
| NetworkTestSession.SessionConserves | src/client.rs:558-655 | for any replies, any calls at any pace and either ending, the chunks and what the ending gathers are the messages received, in order, the DELETE reply included; the ending returns what it gathers unless its last request fails |
| NetworkTestSession.RequestDiscipline | src/client.rs:558-655 | a whole session, ending included and at any pace, sends one POST, then only GETs, each at least one interval after the last decoded response, which was continued, and one final DELETE exactly when cancelled while it continues; decoded GETs are as many as continued responses followed up |
| NetworkTestSession.CancelConserves | src/client.rs:625-648 | DELETE is sent exactly when the session still continues at cancel, and nothing is lost when it succeeds |
| NetworkTestSession.FinishedStaysSilent | src/client.rs:583-585 | a finished session stays finished, hands out nothing and sends nothing more |
| Path.Parse | src/path.rs:129-195 | the segment loop computes the specified canonical text or the first refusal in order |
| Path.ValidatePercentEncoding | src/path.rs:197-210 | the loop accepts exactly the texts in which two hexadecimal digits follow every percent sign |
| Path.OnlyUnreservedStay | src/path.rs:6-35 | the bytes left unescaped are exactly the unreserved characters of RFC 3986, section 2.3 |
| Path.DecodeEncode | src/path.rs:161-186 | decoding undoes encoding, and encoded text is validly escaped and free of separators |
| Path.ParseSpellsMeaning | src/path.rs:129-195 | an accepted path has clean decoded segments, and its canonical form is their spelling |
| Path.SpellingsParse | src/path.rs:129-195 | conversely the spelling of every clean segment list is accepted unchanged and decodes to that list |
| Path.AcceptedExactly | src/path.rs:129-195 | a path is accepted exactly when it is well written and its decoded segments are clean; the checks for empty, absolute, scheme and raw namespace only choose the reason |
| Path.Idempotent | src/path.rs:129-195 | parsing a canonical path under the same kind returns it unchanged |
| Path.MeaningPreserved | src/path.rs:159-187 | the decoded segments of input and output are equal |
| Path.CanonicalIffSameMeaning | src/path.rs:129-195 | two accepted inputs have equal canonical forms exactly when their decoded segments are equal |
| Path.CanonicalBytes | src/path.rs:6-35 | output segments are non-empty runs of unreserved characters and of upper-case escapes, and no escape stands for an unreserved character |
| Path.CanonicalIffUnchanged | src/path.rs:159-187 | an accepted path stays as it is exactly when its segments are canonical |
| Path.TextRefusal | src/path.rs:130-156 | the checks on the whole text report the first fault present, in their order |
| Path.SegmentRefusal | src/path.rs:160-180 | a segment is refused for the first of its faults: empty, a bad escape, not the encoding of scalar values, dots, a separator, a control character |
| Path.PathRefusal | src/path.rs:129-195 | a path is refused for the first fault of its text, else of its first faulty segment, else for a namespace in front |
| Utf8Text.ValidIffEncoded | src/path.rs:163-165 | the decoded bytes are accepted as UTF-8 exactly when they encode a sequence of scalar values |
| Utf8Text.ControlIffEncoded | src/path.rs:178-180 | the control-character check finds exactly the control characters among those scalar values |
| NetworkTestRequests.TracerouteBuilder.SetPacketSize | src/request/network_test.rs:611-615 | sets the size if the protocol allows it and otherwise reports why |
| NetworkTestRequests.TracerouteBuilder.SetProtocol | src/request/network_test.rs:668-677 | sets the protocol if a configured packet size allows it |
| NetworkTestRequests.TracerouteBuilder.SetSource | src/request/network_test.rs:651-661 | sets the source unless its family contradicts a literal target |
| NetworkTestRequests.ReachableTracerouteIsConsistent | src/request/network_test.rs:546-691 | after any setters, TCP has packet size 52 or none, a literal source matches a literal target, and every field is in range |
| NetworkTestRequests.TracerouteMeaning | src/request/network_test.rs:546-691 | distinct setters succeed exactly when each is in range and TCP comes with size 52 or none, and the request then shows exactly them |
| NetworkTestRequests.TracerouteOrderIsIrrelevant | src/request/network_test.rs:546-691 | two orders of the same distinct setters both fail or both give the same request |
| Iperf3Requests.Iperf3Builder.SetIpVersion | src/request/network_test.rs:771-782 | sets the version unless a literal target or source has the other family |
| Iperf3Requests.Iperf3Builder.SetSource | src/request/network_test.rs:836-844 | sets the source unless its family differs from the version in force |
| Iperf3Requests.ReachableIperf3IsConsistent | src/request/network_test.rs:748-844 | after any setters, the IP version is the family of a literal target and of a literal source |
| Iperf3Requests.Iperf3Meaning | src/request/network_test.rs:748-844 | distinct setters succeed exactly when each is fine alone, a literal source has the final version, and no IPv6 source for a host name comes before the choice of IPv6 |
| Iperf3Requests.Iperf3OrderMatters | src/request/network_test.rs:828-844 | the exact condition under which two orders of the same setters differ; when both succeed the requests are equal |
| Iperf3Requests.Ipv6SourceForHostName | src/request/network_test.rs:830-831 | a concrete pair of orders, one accepted and one refused |
| ClientIndexes.ClientIndex.constructor | src/model/clients.rs:137-157 | the four loops build the naive join, and per-client record counts sum to the input lengths |
| ClientIndexes.MatchingConcat | src/model/clients.rs:150-155 | the records of one client keep the order of the input |
| ClientIndexes.MatchingCounts | src/model/clients.rs:150-155 | every record of an address is kept as often as it occurs, and no other |
| ClientIndexes.IndexKeys | src/model/clients.rs:143-182 | the keys are the union of the addresses of the four inputs, once each and in address order |
| ClientIndexes.IndexHoldsLatest | src/model/clients.rs:143-155 | an indexed client has the latest association and hotspot record of its address, and the matching ARP and DHCP records |
| ClientIndexes.ActivityOfJoin | src/model/clients.rs:68-76 | active means associated or last seen active by the hotspot, unknown means in neither list; ARP and DHCP play no part |
| NetworkText.CheckedSecondsIsExact | src/model/network.rs:670-678 | the chain of checked operations succeeds exactly when the true total fits 64 bits, and returns it |
| NetworkText.UptimeIsExact | src/model/network.rs:659-680 | parsing accepts exactly the texts of a day count and an in-range time whose total fits, and returns that total |
| NetworkText.UptimeRoundTrip | src/model/network.rs:659-680 | every 64-bit number of seconds survives being written and parsed, with either day separator |
| NetworkText.DurationIsExact | src/model/network.rs:802-817 | acceptance condition, exactness to the nanosecond, no 32-bit overflow and no carry, for any text with a point |
| NetworkText.DurationWithoutPoint | src/model/network.rs:802-804 | a text without a point is a whole number of seconds |
| Decimal.ParseUnsignedIsExact | src/model/network.rs:804 | integer parsing accepts exactly an optional plus sign, leading zeros and the digits of a number below the bound |
| NetworkText.TrailingZeros | src/model/network.rs:802-817 | zeros at the end of the fraction are irrelevant |
| NetworkText.ParseMacAddress | src/model/network.rs:270-289 | accepts exactly seventeen bytes with colons at every third place and hexadecimal digits elsewhere, and otherwise reports the first fault in the order of the loop |
| NetworkText.DisplayMac | src/model/network.rs:327-335 | the display loop writes the specified seventeen characters |
| NetworkText.MacRoundTrip | src/model/network.rs:267-335 | printing then parsing gives the address back |
| NetworkText.PrintedMacIsLowercase | src/model/network.rs:267-335 | parsing then printing gives the lower-case text |
| NetworkText.SameMacIffSameLowercase | src/model/network.rs:267-335 | two accepted texts are the same address exactly when they differ in letter case only |
| MemoryUsages.ParseIsExact | src/model/mesh.rs:243-254 | accepts exactly two 64-bit numbers around a slash, the free one not above the total |
| MemoryUsages.RoundTrip | src/model/mesh.rs:240-296 | printing then parsing gives every valid value back |
| MemoryUsages.ShowIsShortest | src/model/mesh.rs:287-296 | of all texts that parse to a value, the printed one is the shortest, and the only one of its length |
| InlineText.Parse | src/model/text.rs:26-46 | accepts by length and characters, stores the zero-padded text, or reports the length or the first bad index |
| InlineText.StoredLikeText | src/model/text.rs:11-53 | the stored form gives the text back, and its derived equality and order are those of the texts |
| Imei.FromStr | src/model/imei.rs:70-92 | accepts exactly fifteen digits with a Luhn sum divisible by ten, without overflowing a byte, and otherwise reports which check failed |
| Imei.AcceptedIffDigitSum | src/model/imei.rs:76-88 | fifteen digits are accepted exactly when the digits at even indices and the tens and units of the doubled digits at odd indices add up to a multiple of ten |
| Imei.SingleChangeDetected | src/model/imei.rs:76-88 | changing any one digit is rejected |
| Imei.SwapDetected | src/model/imei.rs:76-88 | swapping adjacent digits is accepted exactly for equal digits and for 0 with 9 |
| Imei.OneCheckDigit | src/model/imei.rs:76-88 | every fourteen digits have exactly one check digit |

## Left out

- HTTP transport, cookies, timeouts, TLS, URL building: a response is an arbitrary choice of the environment.
- The MD5 and SHA-256 challenge response, and the bytes of the authentication body: whether they could be serialised is part of the arbitrary answer to the GET.
- Typed decoding: `fromTree` and `fromBytes` of `DecodeJsonResponse` are arbitrary functions; that they agree on a body without errors is not claimed, since they may treat repeated keys differently.
- Malformed JSON: the kind of error reported for a body that is no JSON text is not compared between the two decoding paths.
- Numeric values of JSON numbers: a number is kept as its text, which no property depends on.
- Error formatting, redaction, and the text of error messages beyond their kind; of a refused network-test option, the names of its tool and option.
- Ping builders: their setters are independent single-field checks; only the traceroute and iPerf3 cross-field rules are modelled.
- Parsing of host names and addresses: a host is a literal address of some family or a name.
- Accessors of the client index that chain fields of the joined records.
- Floating-point measurements, open string enums, identifiers, command-line requests and serde-derived models: field lists and single checks.
