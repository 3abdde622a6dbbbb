# Verified models of the tracing tools

Dafny models, with proofs, of the four components of the repository that hold algorithms rather than plumbing:

- **execguard** counts execs per uid and command name in a 60 s window and grades severity from the count
  (`ExecWindow`, `ExecSeverity`).
- **Camera attribution**: the kernel producer of `cam_v2` de-duplicates callers and attributes camera sessions
  (`CamProducer`), the consumer links frame activity to callers through a 64-slot edge ring (`CamEdges`), and `cam_flow`
  matches buffer completions to submissions (`CamFlow`).
- **pksniff, kernel side** parses Ethernet, IPv4, TCP and UDP headers, DNS names, TLS server names and HTTP request
  lines, and captures the front of each frame (`PacketParser`, `DnsName`, `TlsSni`, `HttpHint`, `Events`). The wire
  formats are in `PacketEncoding`, the parser is proved to invert them, and `WireToEvent` follows DNS, TLS and HTTP
  packets from the wire to the strings of the event, over whole runs.
- **pksniff, user side**: the filter language with its parser and printer (`FilterLanguage`) and what its tokens
  mean for an event (`FilterLaws`), the 8192-slot packet
  store and its four scans (`PacketStore`), the pcap writer with a reader that inverts it (`Pcap`), the per-source byte
  counter (`TopTalkers`), the in-place line editor (`LineEditor`), selection and scrolling (`Screen`), and all of it put
  together as one program whose every operation is a step of a session model (`Session`).

Code that works in place is modelled as classes over arrays and maps. Each method is proved equal to a step function or
a recursive specification, and the theorems over whole runs are lemmas about those. A clock reading is a parameter of a
step and a run is a sequence of steps; where a theorem needs a monotone clock it says so. Maps of bounded capacity
refuse new keys when full. Whether the ring buffer has room is a parameter of each step. 32-bit and 64-bit wrap-around is
written out where the code relies on it. `dafny verify dfyconfig.toml` checks everything.

Standards: RFC 791 section 3.1, RFC 9293 section 3.1, RFC 1035 sections 3.1, 4.1.2 and 4.1.4, RFC 8446 section 4.1.2,
RFC 6066 section 3, RFC 768, draft-ietf-opsawg-pcap sections 4 and 5.

## Where the code and its description part

The models follow the code. In these places the code does not do what its comments or documents say, or does it only
under a condition; each has a lemma with the exact condition or a concrete run.

- The exec window is described as sliding or rolling (execguard/SUMMARY.md:4, execguard/SUMMARY.md:24). It restarts on
  expiry, so 20 execs within 60 s need not raise an ALERT: 38 always do and 37 may not (`ExecSeverity.BurstGraded`,
  `ExecSeverity.BurstGradedTight`), and the count is the rate of the last 60 s under an exact condition
  (`ExecWindow.RateExactlyWhen`, `ExecSeverity.RateGradeExactlyWhen`). A key refused by a full table counts 1 for ever (`ExecWindow.FullTableBlind`).
- Names on the shell list never reach ALERT by rate (`ExecSeverity.ShellGradeIgnoresRate`); execguard/SUMMARY.md:33
  reads as if they did.
- Attribution to a caller is certain for 1.5 s and 1 ns after a call and not one nanosecond longer.
- The edge ring is as good as the complete history with up to 13 callers in the window and can fail with 14.
- `dns_name` is described as the dot-joined name truncated to the buffer (pksniff/Pksniff.bpf.c:109-112). It keeps four
  bytes of each of eight labels (`DnsName.NameShownWhole`).
- `http_info` appears only when 47 payload bytes are there, although shorter payloads are computed for
  (`WireToEvent.HttpPacketShown`, `WireToEvent.ShortRequestHidden`).
- No NUL follows a server name of 1 to 14 bytes, so the string can show bytes of an earlier packet's name
  (`WireToEvent.TwoHellos`, `WireToEvent.HelloIndependentExactlyWhen`, `WireToEvent.HelloSeenExactlyWhen`).
- The talker hash is described as the last octet of the source (pksniff/Pksniff.c:262). The address is in network order,
  so on a little-endian machine it is the first octet (`PacketParser.LowByteIsFirstOctet`), and a whole /8 shares a slot.
- `ip_flags` is described as DF and MF (pksniff/Pksniff.bpf.c:458). It is bits 12 to 14 of the word: the two flags
  and the top bit of the fragment offset (`PacketEncoding.FlagsExactlyWhen`).
- The printer knows `app:icmp`, the parser does not (`FilterLanguage.ExpressibleExactly`).
- ARP packets count as source 0 in slot 0, and the first real source of that slot inherits their bytes. A live source
  with 0 bytes never enters the top five (`TopTalkers.TopTalkersTrueExactlyWhen`). `g_pps` and `g_bps` are plain differences, not divided by time.
- Once the ring is full, each arrival that evicts a listed packet moves the selection on to a later packet
  (`Screen.PlaceKeptExactlyWhen`). Resetting the filter, unlike applying one, leaves the selection where it is until the
  next redraw clamps it.

## Model

| member | source | states |
|---|---|---|
| ExecWindow.ExecGuard.HandleExec | execguard/execguard.bpf.c:52-113 | one exec as a state change: the emitted count and the whole new table equal the step functions that the run theorems are about, other keys are untouched, and the 8192-entry capacity is kept |
| ExecWindow.StoredCountBounded | execguard/execguard.bpf.c:95-109 | upper bound in every run with a monotone clock, wrapped counts included: a stored count is at most the number of delivered execs of that key since its window began |
| ExecWindow.StoredExactly | execguard/execguard.bpf.c:95-109 | below 2^32 execs: the entry of every stored key is exactly the time of the exec that opened the window in force, told from the history alone, and the number of delivered execs since; a key with delivered execs is missing only from a full table |
| ExecWindow.ReportedSinceOpener | execguard/execguard.bpf.c:95-109 | an emitted exec_count is exactly the number of delivered execs of the key since that opener, which is at most 60 s back |
| ExecWindow.RateExactlyWhen | execguard/execguard.bpf.c:102-108 | exec_count is the number of delivered execs in the closed 60 s ending at the event if and only if none of those came before the opener; otherwise it falls short by exactly those |
| ExecWindow.NeverOvercounts | execguard/execguard.bpf.c:102-108 | an emitted exec_count never exceeds the delivered execs of the same key in the closed 60 s ending at the event, whatever reservations or insertions failed before |
| ExecWindow.WindowProgress | execguard/execguard.bpf.c:95-109 | induction behind detection: through any run inside one 60 s interval the window in force and the best count emitted so far account for every delivered exec, across at most one restart |
| ExecWindow.BurstReported | execguard/execguard.bpf.c:95-109 | for every n, any 2n-2 delivered execs of one key in a closed 60 s interval make some event of that key carry a count of at least n, if the first of them finds its key stored or the table not full |
| ExecWindow.BurstBoundTight | execguard/execguard.bpf.c:102-107 | for every n there is a run in which 2n-3 delivered execs within one nanosecond all report less than n |
| ExecWindow.FullTableBlind | execguard/execguard.bpf.c:96-100 | why the table condition is needed: a key refused by a full table stays out of it and is reported as 1 for ever |
| ExecSeverity.BasenameOf | execguard/execguard.c:44-57 | the loop returns the unique suffix without a slash that is the whole path or follows a slash |
| ExecSeverity.BasenameUnique | execguard/execguard.c:52-56 | that specification determines the basename of every path |
| ExecSeverity.EmptyBasename | execguard/execguard.c:44-57 | the basename is empty exactly for an empty path and for one that ends with a slash |
| ExecSeverity.IsShellish | execguard/execguard.c:59-74 | true exactly for a name on the 17-entry list |
| ExecSeverity.ShellNames | execguard/execguard.c:59-74 | the 17 names, one by one |
| ExecSeverity.GradedNameExactly | execguard/execguard.c:100-105 | the path is what is graded unless it is empty or ends with a slash; then it is the basename of the command name |
| ExecSeverity.SeverityFor | execguard/execguard.c:100-122 | the grade depends only on whether the graded name is on the list, whether it is one of the five alert names, on root or not, and on the count; comm is used when the path has an empty basename |
| ExecSeverity.BurstGraded | execguard/execguard.c:116-119 | kernel and user side together: 38 delivered execs of one key in a closed 60 s interval raise an ALERT and 22 at least a WARN, for every name off the shell list |
| ExecSeverity.BurstGradedTight | execguard/execguard.c:116-119 | 37 execs within a nanosecond may raise no ALERT and 21 may raise nothing |
| ExecSeverity.AlertsAreReal | execguard/execguard.c:116-119 | converse: a rate ALERT is backed by at least 20 delivered execs of the key in the last 60 s, a rate WARN by 12 |
| ExecSeverity.RateGradeExactlyWhen | execguard/execguard.c:116-119 | off the shell list an ALERT comes if and only if 20 execs of the key were delivered since the opener, a WARN or ALERT if and only if 12 were; and that is the rate of the last 60 s when none of those execs came before the opener |
| ExecSeverity.ShellGradeIgnoresRate | execguard/execguard.c:107-114 | a name on the shell list is graded by name and user alone, at any rate |
| ExecSeverity.NormalizeCmdline | execguard/execguard.c:76-98 | in place on any buffer size and any source, null included: the C string left is the cut source with control characters and NULs blanked and trailing blanks gone |
| ExecSeverity.CleanedIsStable | execguard/execguard.c:85-97 | cleaning yields only printable bytes, fits the buffer, and cleaning again changes nothing |
| ExecSeverity.CleanedByByte | execguard/execguard.c:76-98 | byte by byte: what is kept stays in place, control characters (and 127) become blanks, and whatever is cut off the end is blank, a control character, or does not fit |
| CamProducer.CamTracer.RememberCaller | cam_v2/cam_identity.bpf.c:100-107 | the three maps after an accepted call; the table insert alone can fail, when the 1024-entry table is full |
| CamProducer.CamTracer.GetLastCaller | cam_v2/cam_identity.bpf.c:109-126 | the last caller if its age is at most 2 s, otherwise 0, and the age in either case |
| CamProducer.CamTracer.TraceBinderTransaction | cam_v2/cam_identity.bpf.c:129-187 | refines the step functions: which calls qualify, which are accepted, the new maps and the one or two events emitted |
| CamProducer.CamTracer.TraceContextState | cam_v2/cam_identity.bpf.c:190-210 | the session event carries the attributed pid and the age |
| CamProducer.OthersLeaveNoTrace | cam_v2/cam_identity.bpf.c:139-157 | a firing that is not an outbound call (reply 0) by a non-zero pid with uid at least 10000 to a non-zero camera server changes no map and emits neither an edge nor a call event |
| CamProducer.AppCallTraced | cam_v2/cam_identity.bpf.c:158-187 | such a call leaves no trace exactly when its pid was remembered less than 0.5 s ago; otherwise it is remembered and emits, with room, an edge and a call event with its own time, pid, uid and code |
| CamProducer.SessionEvent | cam_v2/cam_identity.bpf.c:190-210 | in every run the session event names the latest accepted caller if that call is at most 2 s old, otherwise the current process, and carries the age |
| CamProducer.AttributedToAppCall | cam_v2/cam_identity.bpf.c:109-210 | safety over runs on the raw probe fields: a session is attributed to the current process or to the pid of an app call to the camera server at most 2 s before |
| CamProducer.ActivityEvent | cam_v2/cam_identity.bpf.c:213-283 | frame activity is reported with its own time, pid, uid and kind |
| CamProducer.LastCallerIsLatest | cam_v2/cam_identity.bpf.c:100-107 | in every run last_caller and last_caller_ns are the pid and time of the latest accepted call, told from the history alone |
| CamProducer.LastIsNewest | cam_v2/cam_identity.bpf.c:100-107 | invariant of every run: no remembered time is later than last_caller_ns, nor that later than the clock, and the table keeps its capacity |
| CamProducer.LastIsArgmax | cam_v2/cam_identity.bpf.c:100-107 | while recent_caller is not full, last_caller is its argmax and last_caller_ns its maximum |
| CamProducer.AttributionGuaranteed | cam_v2/cam_identity.bpf.c:109-210 | after any qualifying call, accepted or suppressed, every session step up to 1.5 s and 1 ns later is attributed to the latest accepted caller, at most 2 s old, never to the current process by fallback |
| CamProducer.AttributionExact | cam_v2/cam_identity.bpf.c:195-199 | a session goes to the latest accepted caller if and only if there is one at most 2 s old, and to the current process otherwise |
| CamProducer.GuaranteeTight | cam_v2/cam_identity.bpf.c:160-162 | one nanosecond past the guarantee there is a run that falls back to the current process |
| CamProducer.FullTableNeverSuppresses | cam_v2/cam_identity.bpf.c:160-164 | a caller refused by a full table is never de-duplicated afterwards: all its qualifying calls are accepted |
| CamEdges.EdgeRing.RememberEdge | cam_v2/cam_identity.c:179-190 | appends one edge to the history that the 64-slot ring is the tail of |
| CamEdges.EdgeRing.FindRecentEdge | cam_v2/cam_identity.c:192-205 | the backward loop returns the newest fitting edge among the last 64 of the history, for every pid and time |
| CamEdges.EdgeRing.HandleEvent | cam_v2/cam_identity.c:207-264 | which events record an edge and which chain or link note each event produces, by kind, names and the edge found |
| CamEdges.EdgeRing.Poll | cam_v2/cam_identity.c:207-264 | a batch of queued events adds exactly its delegation edges to the history, in order, and each event gets the note it deserves given the edges before it |
| CamEdges.RingSearchExactWhen | cam_v2/cam_identity.c:192-205 | the 64-slot search equals the search of the complete history if and only if no edge fits or the newest fitting edge is among the last 64 |
| CamEdges.FivePerCaller | cam_v2/cam_identity.c:201 | edges of one caller being 0.5 s apart, a set of callers has at most five edges each in a closed 2 s window |
| CamEdges.RingLosesNothing | cam_v2/cam_identity.c:192-205 | with at most 13 distinct callers in the window the ring search equals the search of the complete history |
| CamEdges.FourteenCallersOverflow | cam_v2/cam_identity.c:192-205 | the bound is exact: for every camera server pid there is a monotone run of 66 calls by 14 callers, from an empty caller table, after which the search over the edges really received differs from the search of the complete history |
| CamEdges.CrowdReceived | cam_v2/cam_identity.bpf.c:158-174 | in that run every call is accepted and the history received is the list of the calls |
| CamEdges.EdgesOfProbe | cam_v2/cam_identity.bpf.c:166-184 | one probe firing adds one edge to the history, exactly when its call is accepted and the ring buffer had room |
| CamEdges.TrackedAfterAccept | cam_v2/cam_identity.bpf.c:158-164 | an accepted call keeps the link between table and edges and is at least 0.5 s after every edge of its caller |
| CamEdges.ReceivedIsTracked | cam_v2/cam_identity.bpf.c:158-174 | in every run of probes the edges received are in time order, spaced by the de-duplication window, and bounded by the caller table |
| CamEdges.ConsumerSearchComplete | cam_v2/cam_identity.c:192-205 | end to end: for every run of probes with a monotone clock and a caller table not full, and at most 13 callers in the window, the search in user space equals a search of every edge ever received |
| CamEdges.OwnEdgeFound | cam_v2/cam_identity.c:236-243 | the search for a binder-call event always finds the edge emitted just before it, so its edge test never suppresses a chain line unless that edge was dropped |
| CamEdges.EdgesFromAppCalls | cam_v2/cam_identity.bpf.c:166-174 | in every run each edge received comes from an app call to the camera server, with that call's time, pid, code and name |
| CamEdges.CallNotes | cam_v2/cam_identity.c:226-243 | end to end over the events emitted and the batch handled: the edge of an accepted call gets the chain note if and only if the foreground is known and is another app and the app name contains gms.ui, its call event if and only if the foreground is known and is another app |
| CamEdges.CallAloneNote | cam_v2/cam_identity.c:236-243 | if the edge was dropped, the call event also needs an earlier edge of that process |
| CamEdges.SessionUnnoted | cam_v2/cam_identity.c:245-248 | a camera session gets no note, whatever was received before |
| CamEdges.SearchTellsNewestCall | cam_v2/cam_identity.c:192-205 | over every run the search of everything received finds the newest accepted call of the process with an edge, told by the probes, if it is at most 2 s old, and nothing otherwise |
| CamEdges.ActivityNoteExactly | cam_v2/cam_identity.c:250-261 | end to end: frame activity is linked to the name read when the newest accepted call of its process was handled if and only if that call is at most 2 s old, and gets no note otherwise, whatever names are read for the activity itself; under the conditions of the search theorem |
| CamFlow.FlowTracer.ReqMgrApply | cam_ident/cam_flow.bpf.c:120-127 | an apply stores or overwrites its time, or is rejected when 256 are pending |
| CamFlow.FlowTracer.BufDone | cam_ident/cam_flow.bpf.c:130-160 | a done removes its entry and reports the elapsed time, 0 when nothing was pending |
| CamFlow.FlowTracer.OnContextState | cam_ident/cam_flow.bpf.c:80-117 | a non-zero state opens a session unless 64 others are open, zero closes it; the event says which |
| CamFlow.PendingSize | cam_ident/cam_flow.bpf.c:28-33 | how each kind of step changes the number of pending submissions, and that one is rejected only when 256 are pending |
| CamFlow.SubmissionsConserved | cam_ident/cam_flow.bpf.c:119-140 | in every run: applies = matched + pending + overwritten + rejected, and at most 256 are pending |
| CamFlow.PendingIsOutstanding | cam_ident/cam_flow.bpf.c:119-140 | in every run the table holds exactly the outstanding applies, told from the history alone |
| CamFlow.OutstandingIsLatest | cam_ident/cam_flow.bpf.c:119-140 | the outstanding apply of a request is a stored one, and no later stored apply or done concerns that request |
| CamFlow.LatencyExact | cam_ident/cam_flow.bpf.c:136-140 | a done reports exactly the time since the latest stored apply of its request, and is matched if and only if one is outstanding |
| CamFlow.ConsumedOnce | cam_ident/cam_flow.bpf.c:136-140 | two matched dones never consume the same apply |
| CamFlow.SessionIsLatestState | cam_ident/cam_flow.bpf.c:82-97 | a camera is open if and only if its latest state step was non-zero and not refused, and the session started then |
| CamFlow.StateEvents | cam_ident/cam_flow.bpf.c:80-117 | a zero state is told as a close and any other as an open of the camera in the low 16 bits |
| CamFlow.EventsTellSessions | cam_ident/cam_flow.bpf.c:80-117 | in every run: after a close event its camera has no session, after an open event it has one that began at the event, unless 64 other cameras were open |
| DnsName.AppendLabel | pksniff/Pksniff.bpf.c:149-169 | the unrolled copy writes the first min(len, 4) bytes of the label and touches nothing else |
| DnsName.ParseLabel | pksniff/Pksniff.bpf.c:123-171 | one pass, all exits: what it writes, where it goes on, and that the rest of the buffer is unchanged |
| DnsName.WalkLabels | pksniff/Pksniff.bpf.c:117-172 | the eight passes write exactly the text of the recursive specification and end at the position it gives |
| DnsName.ParseDnsName | pksniff/Pksniff.bpf.c:113-176 | for every frame and offset: the buffer is the old one with at most 39 bytes and a NUL written over its front, and the final position is at most 2048 past the name |
| DnsName.DnsTextBound | pksniff/Pksniff.bpf.c:123-175 | no input makes the walk write more than 39 bytes, so the unguarded first write and the NUL stay in bounds |
| DnsName.WellFormedName | pksniff/Pksniff.bpf.c:113-176 | for every uncompressed name (RFC 1035 section 3.1) anywhere in the frame, with labels of up to 191 bytes: the dot-join of the first four bytes of its first eight labels |
| DnsName.EndedNameShown | pksniff/Pksniff.bpf.c:123-147 | the same when the labels are followed by a compression pointer (RFC 1035 section 4.1.4) or by the end of the frame |
| DnsName.CutNameShown | pksniff/Pksniff.bpf.c:141-147 | when the frame ends inside a label, the labels before it are shown, with a dot behind them if there are any and fewer than eight |
| DnsName.EveryNameReads | pksniff/Pksniff.bpf.c:113-176 | every place of every frame is of one of these kinds, so the three lemmas say what is shown for every input |
| DnsName.NameShownWhole | pksniff/Pksniff.bpf.c:110-111 | the promised dot-joined name is produced if and only if it has at most eight labels, each of at most four bytes |
| TlsSni.FindExtensions | pksniff/Pksniff.bpf.c:248-285 | for every frame: finds the extension list or stops, exactly where the length fields say, without 32-bit wrap |
| TlsSni.CopyHostName | pksniff/Pksniff.bpf.c:299-337 | for every extension: copies the first 16 bytes at most and clears byte 15, or changes nothing |
| TlsSni.ParseTlsSni | pksniff/Pksniff.bpf.c:234-342 | for every frame: the buffer is overlaid with what the recursive walk finds, and the final position is at most payload + 1114718 |
| TlsSni.SniInvertsEncoding | pksniff/Pksniff.bpf.c:233-342 | for every well-formed single-record ClientHello (RFC 8446 section 4.1.2) lying in the frame whose server_name (RFC 6066 section 3) is among the first 16 extensions: the bytes found are the first 16 of the host name |
| TlsSni.SniShown | pksniff/Pksniff.bpf.c:326-336 | then the first min(n, 15) buffer bytes are the name, byte 15 is NUL, and every other byte is what it was |
| TlsSni.SniAbsent | pksniff/Pksniff.bpf.c:287-341 | with no server_name among the first 16 extensions nothing is written |
| TlsSni.CutHelloExactly | pksniff/Pksniff.bpf.c:233-342 | for every well-formed ClientHello of which the frame holds only a front, ending anywhere: if a server_name is among the first 16 extensions, the first 16 bytes of its first name are copied if and only if the frame still holds the first min(n, 63) bytes of that name; nothing is copied otherwise |
| TlsSni.CutHelloWithout | pksniff/Pksniff.bpf.c:287-341 | with no server_name among the first 16 extensions nothing is copied, wherever the frame ends |
| TlsSni.HostBytesExactly | pksniff/Pksniff.bpf.c:299-337 | of a server_name extension the length in front of the first name alone decides: list length, name type and extension length are not looked at |
| TlsSni.NotAHello | pksniff/Pksniff.bpf.c:248-262 | only a handshake record that begins with a ClientHello and reaches the session id is looked at |
| TlsSni.SniBound | pksniff/Pksniff.bpf.c:311-334 | no input makes the parser copy more than 16 bytes |
| HttpHint.IsHttp | pksniff/Pksniff.bpf.c:209-227 | true exactly when eight payload bytes exist and begin with one of the six verbs |
| HttpHint.ParseHttpInfo | pksniff/Pksniff.bpf.c:182-204 | writes the first 47 payload bytes with line breaks blanked and a NUL, exactly when 47 are there; otherwise changes nothing |
| PacketParser.PacketProbe.PackFlags | pksniff/Pksniff.bpf.c:430-437 | packing flag by flag equals the low six bits of the flags byte (RFC 9293 section 3.1) |
| PacketParser.PacketProbe.ParseLayers | pksniff/Pksniff.bpf.c:396-450 | accepts exactly the packets whose headers fit the linear data and returns their offsets, ports and flags |
| PacketParser.PacketProbe.Hint | pksniff/Pksniff.bpf.c:468-499 | the application tag and which one of the three strings is written, with what |
| PacketParser.PacketProbe.Capture | pksniff/Pksniff.bpf.c:536-557 | the captured bytes are the frame prefix over the old slot, and the discard branch is never taken |
| PacketParser.PacketProbe.ProcessPacket | pksniff/Pksniff.bpf.c:348-563 | the whole probe on the persistent scratch event: new scratch header, new scratch strings and the submitted event equal the specification |
| PacketParser.LayoutBounds | pksniff/Pksniff.bpf.c:396-466 | RFC 791 section 3.1 arithmetic: 34 <= l4_off <= payload_off <= 134, and payload_off within the linear data |
| PacketParser.CaptureExact | pksniff/Pksniff.bpf.c:536-557 | every event: cap_len is min(length, 256) rounded down to 16 and the captured bytes are that prefix of the frame |
| PacketParser.OffsetsExact | pksniff/Pksniff.bpf.c:407-466 | every IPv4 event: the offsets are in range, and payload_off + payload_len = packet_len if and only if the payload fits in 16 bits |
| PacketParser.LowByteIsFirstOctet | pksniff/Pksniff.c:262-263 | the low byte of src_ip, by which the statistics hash, is the first octet of the address |
| PacketParser.EventDependsOnPacketOnly | pksniff/Pksniff.bpf.c:347-563 | for any scratch contents and any slot, all scalar fields, the captured bytes and the dns_name and http_info strings are functions of the packet alone |
| PacketParser.RunsAgree | pksniff/Pksniff.bpf.c:347-563 | two-run property over whole runs: whatever the scratch events held at the start, the i-th packet yields the same event |
| PacketParser.ShortNameLeaks | pksniff/Pksniff.bpf.c:326-336 | over any scratch buffer a name of 1 to 14 bytes without a NUL shows alone exactly when the byte after it is NUL |
| PacketEncoding.LayoutInvertsEncoding | pksniff/Pksniff.bpf.c:396-450 | for every Ethernet frame with a well-formed IPv4 header, any options, and a TCP (any options), UDP or other payload: the headers are found where they are |
| PacketEncoding.HeaderInvertsEncoding | pksniff/Pksniff.bpf.c:425-466 | for every such frame each field of the event is the field of the packet: lengths, TTL, protocol, flags, ports and offsets |
| PacketEncoding.AddressesShown | pksniff/Pksniff.c:168-171 | the dotted addresses that user space shows and filters by are those of the packet, first octet first |
| PacketEncoding.CommonFields | pksniff/Pksniff.bpf.c:362-543 | time, direction and length of every event are those of the packet; the capture length is the length cut to 256 and rounded down to 16 |
| PacketEncoding.ArpEvent | pksniff/Pksniff.bpf.c:376-391 | an ARP frame gives an event without addresses, ports, flags or hints |
| PacketEncoding.OtherFramesIgnored | pksniff/Pksniff.bpf.c:393-394 | a frame that is neither IPv4 nor ARP gives no event |
| PacketEncoding.ShortIpIgnored | pksniff/Pksniff.bpf.c:401-403 | an IPv4 header that claims fewer than five words gives no event |
| PacketEncoding.ShortTcpTaken | pksniff/Pksniff.bpf.c:419-421 | a TCP header that claims fewer than five words is taken to have five |
| PacketEncoding.CutHeadersIgnored | pksniff/Pksniff.bpf.c:396-450 | a well-formed frame whose headers do not all lie in the linear data gives no event |
| PacketEncoding.FlagsExactlyWhen | pksniff/Pksniff.bpf.c:458 | for every such frame ip_flags is 4 DF + 2 MF if and only if the fragment offset is below 4096 units |
| PacketEncoding.FlagsMisread | pksniff/Pksniff.bpf.c:458 | from 4096 units on it is one more, so a late fragment shows a flag that is not set |
| WireToEvent.DnsPacketShown | pksniff/Pksniff.bpf.c:472-476 | from the wire to the event: a UDP packet to or from port 53 with an uncompressed name is tagged DNS and shows its dot-joined label prefixes |
| WireToEvent.HttpPacketShown | pksniff/Pksniff.bpf.c:484-498 | from the wire to the event: a TCP packet off port 443 is tagged HTTP if and only if its payload has eight bytes and begins with a verb, and then its first 47 bytes are written if and only if there are 47 |
| WireToEvent.ShortRequestHidden | pksniff/Pksniff.bpf.c:186-194 | a complete 18-byte request is tagged HTTP and nothing of it is shown |
| WireToEvent.HelloPacketShown | pksniff/Pksniff.bpf.c:478-483 | every packet to port 443, or leaving from it, with a whole well-formed ClientHello, a server_name among its first 16 extensions and any trailing bytes is tagged TLS and has the first 16 bytes of the host name written |
| WireToEvent.CutHelloPacketShown | pksniff/Pksniff.bpf.c:233-342 | the same for a ClientHello cut off after any number of bytes, as a long one is by its first segment: the first 16 bytes of the name are written if and only if the packet still holds the first min(n, 63) of them |
| WireToEvent.TagExactly | pksniff/Pksniff.bpf.c:468-499 | total law over encoded frames: ICMP is tagged 4, UDP with port 53 is DNS, TCP with port 443 on either side is TLS, TCP off 443 is HTTP exactly when the payload begins with a request, everything else is untagged; and which of the three strings is written in each case |
| WireToEvent.LeftByHistory | pksniff/Pksniff.bpf.c:326-336 | in every run from the zeroed scratch event the bytes 1 to 14 of tls_sni are those of the last copied name that reaches them, or 0 |
| WireToEvent.NameAloneExactlyWhen | pksniff/Pksniff.bpf.c:326-336 | in every run from the zeroed scratch event a copied name of 1 to 14 bytes without a NUL is seen alone if and only if the names before it left a NUL just behind it |
| WireToEvent.HelloSeenExactlyWhen | pksniff/Pksniff.bpf.c:326-336 | the same for the host name of a well-formed hello on the wire: it is seen as it was sent if and only if the names before it left a NUL just behind it |
| WireToEvent.LongerNameShows | pksniff/Pksniff.bpf.c:326-336 | over any scratch event: after a longer name without a NUL at that place, a shorter one is not seen alone |
| WireToEvent.TwoHellos | pksniff/Pksniff.bpf.c:326-336 | right after start-up, a hello with a longer name and then one with a shorter name: the second name is not seen as it was sent |
| WireToEvent.SomeHelloPacket | pksniff/Pksniff.bpf.c:233-342 | such packets exist for every name of up to 255 bytes |
| WireToEvent.SniIndependentExactlyWhen | pksniff/Pksniff.bpf.c:326-336 | the tls_sni string of a packet is the same after every run from the zeroed scratch event if and only if nothing was copied, or the name copied has 15 bytes or a NUL of its own |
| WireToEvent.HelloIndependentExactlyWhen | pksniff/Pksniff.bpf.c:326-336 | for a well-formed hello: if and only if the host name has at least 15 bytes or a NUL in it |
| FilterLanguage.Strtok | pksniff/Pksniff.c:232-253 | the next maximal word, with the rest of the tokens still to come |
| FilterLanguage.FilterState.ParseFilterStr | pksniff/Pksniff.c:226-255 | the parsing loop computes the fold of the tokens of the first 127 characters over the empty filter |
| FilterLanguage.FilterState.ApplyOne | pksniff/Pksniff.c:234-252 | one token: the eleven-way branch changes the one field its setting names, or nothing |
| FilterLanguage.FilterState.BuildSummary | pksniff/Pksniff.c:411-420 | the bounded appends build the whole summary: neither the 256-byte nor the 16-byte buffer cuts it |
| FilterLanguage.SummaryLength | pksniff/Pksniff.c:411-420 | the summary of every parsed filter has at most 57 characters |
| FilterLanguage.SummaryParsesBack | pksniff/Pksniff.c:411-420 | parsing the summary of any expressible filter gives that filter back, port digits and names included |
| FilterLanguage.FilterBarRoundTrip | pksniff/Pksniff.c:226-255 | for every string s whatever, parse(summary(parse(s))) = parse(s) |
| FilterLanguage.ExpressibleExactly | pksniff/Pksniff.c:226-255 | a filter is the parse of some string if and only if it meets the stated condition; in particular app:icmp cannot be typed |
| FilterLanguage.AtoiOfDecimal | pksniff/Pksniff.c:237 | atoi inverts %u on every number |
| FilterLanguage.FieldFromOwnSettings | pksniff/Pksniff.c:233-254 | each field of the result is its own last effective token, or the default |
| FilterLanguage.ReorderingIsHarmless | pksniff/Pksniff.c:233-254 | strings whose tokens agree field by field, in whatever interleaving, parse to the same filter |
| FilterLaws.ProtoSetting | pksniff/Pksniff.c:241-244 | a proto token sets TCP, UDP or ICMP exactly when its name spells the word in small or capital letters; any other name sets nothing |
| FilterLaws.AppSetting | pksniff/Pksniff.c:245-248 | likewise dns, http and tls |
| FilterLaws.DirSetting | pksniff/Pksniff.c:249-251 | likewise in and out |
| FilterLaws.IpSetting | pksniff/Pksniff.c:235-236 | an ip token sets its text, cut to 15 characters |
| FilterLaws.OtherTokens | pksniff/Pksniff.c:233-254 | any other token sets nothing |
| FilterLaws.MatchesExactly | pksniff/Pksniff.c:196-219 | the matching rule on the raw fields of the event: address text contained in the dotted source or destination, port on either side, protocol, tag and direction |
| FilterLaws.NoFilterMatchesAll | pksniff/Pksniff.c:196-219 | without a filter, and for an empty filter line, every event is listed |
| FilterLaws.TypedPort | pksniff/Pksniff.c:196-255 | parser and matcher together: typing port:n lists the events with that port on either side |
| FilterLaws.TypedIp | pksniff/Pksniff.c:196-255 | likewise an address text |
| FilterLaws.TypedProto | pksniff/Pksniff.c:196-255 | likewise a protocol name; an unknown name lists everything |
| FilterLaws.TypedApp | pksniff/Pksniff.c:196-255 | likewise an application name |
| FilterLaws.TypedDir | pksniff/Pksniff.c:196-255 | likewise a direction |
| Prelude.ContainsExactly | pksniff/Pksniff.c:201-203 | the substring test: a string contains another exactly when it is that one with something around it |
| FilterLanguage.EventMatches | pksniff/Pksniff.c:196-219 | an event matches exactly when it meets all five fields |
| Pcap.PcapFile.constructor | pksniff/Pksniff.c:174-181 | a new file is the encoding of no records |
| Pcap.HeaderReads | pksniff/Pksniff.c:174-181 | read back word by word: magic 0xa1b2c3d4, version 2.4, zone and accuracy 0, snapshot length 256, link type 1 |
| Pcap.DecodedFit | pksniff/Pksniff.c:183-193 | every readable file has the magic number and version 2.4, and no record longer than the snapshot length of its header |
| Pcap.PcapFile.WriteRecord | pksniff/Pksniff.c:183-193 | the file grows by exactly the encoding of the record of the event |
| Pcap.RecordsRoundTrip | pksniff/Pksniff.c:183-193 | reading (draft-ietf-opsawg-pcap section 5) any list of written records gives the list back |
| Pcap.FileRoundTrip | pksniff/Pksniff.c:174-193 | every written file decodes, with a reader (section 4) that does not know the writer, to that header and the records written |
| Pcap.FileUnique | pksniff/Pksniff.c:174-193 | different record lists make different files |
| TopTalkers.TalkerTable.Count | pksniff/Pksniff.c:262-268 | in-place update of the hashed slot: afterwards each slot equals its specification over the longer history |
| TopTalkers.SlotExact | pksniff/Pksniff.c:262-268 | every slot holds exactly the bytes and packets of the first non-zero source hashed to it, slot 0 also what source 0 had before |
| TopTalkers.SlotHoldsFirstSource | pksniff/Pksniff.c:262-268 | with no assumption at all, slots 1 to 255 hold exactly the totals of their first source |
| TopTalkers.LaterSourceUncounted | pksniff/Pksniff.c:264 | a source that collides with an earlier one appears in no slot |
| TopTalkers.TalkerTable.InsertTop | pksniff/Pksniff.c:282-290 | the scan and the shift loop insert into the first five of a descending list |
| TopTalkers.InsertTruncated | pksniff/Pksniff.c:282-290 | truncated insertion commutes with truncation of the full sorted list |
| TopTalkers.TalkerTable.RefreshTop | pksniff/Pksniff.c:279-291 | from zeros, the nested loops leave the first five of the stable descending sort of all live slots, zero-padded |
| TopTalkers.SortedIsSorted | pksniff/Pksniff.c:279-291 | the specification is a descending permutation of the live slots |
| TopTalkers.SortedIsStable | pksniff/Pksniff.c:283 | equal totals stay in slot order |
| TopTalkers.OmittedAreSmaller | pksniff/Pksniff.c:279-291 | no omitted slot is larger than the last of the five |
| TopTalkers.TalkerTable.UpdateStats | pksniff/Pksniff.c:258-293 | totals, rates as plain differences, when a refresh happens and what it leaves; the refreshed list is the true top five under the exact condition below, in particular without low-byte collisions |
| TopTalkers.TopTalkersTrueExactlyWhen | pksniff/Pksniff.c:262-291 | for every history: the five shown are the true five largest if and only if no source that came second to its slot is larger than the last of them and, if slot 0 is shown, it inherited nothing from source 0 |
| TopTalkers.TopTalkersTrue | pksniff/Pksniff.c:262-291 | if no two recorded sources (0 included) share a low byte, the five shown are the five largest non-zero sources over the whole history, with their exact totals |
| LineEditor.FilterLine.Memmove | pksniff/Pksniff.c:777-800 | overlapping moves in either direction copy the old bytes |
| LineEditor.FilterLine.Erase | pksniff/Pksniff.c:775-782 | the memmove refines backspace on the abstract line |
| LineEditor.FilterLine.DeleteForward | pksniff/Pksniff.c:789-795 | the memmove refines delete |
| LineEditor.FilterLine.Insert | pksniff/Pksniff.c:797-802 | the memmove and store refine insertion, up to 127 characters |
| LineEditor.FilterLine.HandleKeys | pksniff/Pksniff.c:763-805 | for every key sequence the buffer stays NUL-terminated, 0 <= cursor <= length <= 127, and holds the edited abstract line |
| LineEditor.InsertThenBackspace | pksniff/Pksniff.c:775-802 | a successful insert followed by backspace restores text and cursor |
| LineEditor.BackspaceThenInsert | pksniff/Pksniff.c:775-802 | erasing a printable character and typing it again restores the line |
| LineEditor.DeleteIsRightBackspace | pksniff/Pksniff.c:775-795 | delete equals right arrow and backspace |
| LineEditor.ArrowsMove | pksniff/Pksniff.c:784-787 | the arrows move the cursor one place inside the line and change nothing else |
| LineEditor.TypedAtCursor | pksniff/Pksniff.c:797-802 | a typed character goes in at the cursor, everything behind moves up; a full line stays as it is |
| LineEditor.ErasedAtCursor | pksniff/Pksniff.c:775-795 | backspace takes out the character before the cursor, delete the one at it |
| LineEditor.OtherKeysLeave | pksniff/Pksniff.c:763-805 | no other key changes the line |
| LineEditor.TypingSpells | pksniff/Pksniff.c:763-805 | typing any text of up to 127 printable characters into the empty line spells it |
| PacketStore.Store.Record | pksniff/Pksniff.c:305-308 | appends one event to the history; the ring keeps its last min(total, 8192) in order |
| PacketStore.Store.SlotOf | pksniff/Pksniff.c:452 | the index expression reads the i-th oldest kept event |
| PacketStore.SlotIndex | pksniff/Pksniff.c:452 | the modular arithmetic behind it, for every total and every i |
| PacketStore.Store.VisibleList | pksniff/Pksniff.c:447-455 | the visible list is exactly the kept matching events, in arrival order |
| PacketStore.Store.CountMatches | pksniff/Pksniff.c:697-706 | the counting scan returns the length of that list |
| PacketStore.Store.FindSelected | pksniff/Pksniff.c:535-545 | the detail scan finds the k-th entry of that list, or nothing exactly when it is shorter |
| PacketStore.Store.SaveFiltered | pksniff/Pksniff.c:679-693 | the saved file reads, header words included, as exactly the records of that list, in order |
| PacketStore.SavedAt | pksniff/Pksniff.c:686-690 | the k-th record has seconds and microseconds of the k-th clock reading and length and bytes of the k-th listed event |
| PacketStore.ShownExactly | pksniff/Pksniff.c:447-455 | the list holds exactly the matching packets among the last 8192 recorded, each once and in arrival order |
| PacketStore.MatchingComplete | pksniff/Pksniff.c:447-455 | every kept matching event is in the list |
| PacketStore.MatchingAscends | pksniff/Pksniff.c:447-455 | each once, in arrival order |
| Screen.RedrawnFramedExactly | pksniff/Pksniff.c:458-462 | the clamping puts the selection on a match and inside the window if and only if the window has at least two rows |
| Screen.RedrawnIsNearest | pksniff/Pksniff.c:458-462 | it moves selection and window no further than necessary |
| Screen.FramedStays | pksniff/Pksniff.c:458-462 | it changes nothing that is already in view |
| Screen.NavigationLaws | pksniff/Pksniff.c:740-755 | up undoes down, page up undoes page down, and no key leaves the list |
| Screen.NavigationExactly | pksniff/Pksniff.c:740-755 | by key code: up, down, page up, page down, first, last, none of them beyond the list |
| Screen.ListRowsExactly | pksniff/Pksniff.c:353-356 | the rows of the list window for every terminal height |
| Screen.CommandKeys | pksniff/Pksniff.c:708-759 | what each key outside the editor does to every part of the state, and that only the navigation keys move the selection |
| Screen.EditorKeys | pksniff/Pksniff.c:763-805 | what Enter, Esc and the other keys do inside the editor, and that nothing else changes |
| Screen.SwitchesInForce | pksniff/Pksniff.c:708-775 | in every session running, paused, editing and detail are those of a four-switch machine driven by the keys alone |
| Screen.FilterInForce | pksniff/Pksniff.c:724-774 | in every session the filter in force is the parse of the line at the last Enter in the editor, or none after a later reset or at the start; nothing else changes it |
| Screen.SelectionAlwaysFramed | pksniff/Pksniff.c:440-462 | in every interleaving of packets, keys, filter changes, pauses and resizes: after each redraw the selection is a match inside the window, and the bar parses back to the filter in force |
| Screen.AlwaysSound | pksniff/Pksniff.c:696-805 | in every reachable state the window has at least four rows, selection and scroll position are not negative, and the filter is expressible |
| Screen.HistoryIsUnpaused | pksniff/Pksniff.c:296-313 | in every session the recorded history is the events that arrived after an even number of pause toggles; keys typed into the filter editor do not toggle |
| Screen.ListConserved | pksniff/Pksniff.c:306-308 | the list before an arrival plus the new packet is what falls out plus the list after it |
| Screen.PlaceKeptExactlyWhen | pksniff/Pksniff.c:306-308 | an arrival leaves the k-th listed packet in its place if and only if the ring is not full or the evicted packet was not listed |
| Session.Sniffer.HandleEvent | pksniff/Pksniff.c:296-313 | while paused nothing changes; otherwise store, statistics and raw capture file all take the event, and a refresh without collisions shows the true top five |
| Session.Sniffer.LogDecodes | pksniff/Pksniff.c:303 | the raw capture file decodes to every recorded event, however many the ring has dropped |
| Session.Sniffer.HandleInputNormal | pksniff/Pksniff.c:696-761 | every key outside the editor is the model step; s saves a file that decodes to the listed events |
| Session.Sniffer.HandleInputFilter | pksniff/Pksniff.c:763-805 | every key inside the editor is the model step; Enter applies the text of the buffer |
| Session.Sniffer.DrawPacketList | pksniff/Pksniff.c:435-525 | clamps, then draws exactly the listed events that fit from the scroll position on |
| Session.Sniffer.DrawRows | pksniff/Pksniff.c:464-469 | the row loop stays inside the visible list and draws as many rows as fit |
| Session.Sniffer.DrawDetail | pksniff/Pksniff.c:535-545 | the panel shows the selected entry of the list |
| Session.Sniffer.RedrawAll | pksniff/Pksniff.c:663-676 | after any redraw the detail panel shows the packet of the highlighted row, and the filter bar read as a filter is the filter in force |

## Left out

- Program setup: `main`, skeleton load and attach, TC hooks, signals, option parsing, poll loops, shutdown.
- ncurses drawing, colours, column layout and the hex dump; of the screen, only the summary string, the edit buffer, the rows drawn and the selection and scroll integers are modelled.
- `/proc` look-ups, the `dumpsys` call and the foreground cache of `cam_v2`: application and foreground names are parameters.
- `filewatch`, `filewatch_broad`, `priviwatch`, `procwatch`, `cam_buffer`, `cam_control`, `cam_ident` and `cam_data_tracking`: each copies fields behind one branch.
- `cam_ident/cam_identity.*` (an older, weaker form of `cam_v2`) and `pktrace_v2` (a subset of the pksniff parser).
- Races between CPUs and threads: each probe is one atomic step that reads the clock once, and the packet mutex is not modelled.
- The inside of the ring buffer: it is a queue whose reservations may fail.
- The unused `active` string of the filter bar, `localtime` and file names, the printed text of events.
- File write errors: a saved file either cannot be created or is written whole. The time stamps of its records are parameters.
- Wrap-around of `edge_pos` and of the 64-bit byte and packet counters: they are unbounded here. The 32-bit exec count does wrap, and the detection theorems assume fewer than 2^32 execs.
- Rates as floating-point numbers: `g_pps` and `g_bps` are integers here.
- ExecSeverity.BurstGraded: asks that the first exec of the interval finds its key stored or the table not full, because a refused key is never counted.
- CamEdges.ConsumerSearchComplete: asks that the caller table has not filled up, because a refused caller is never de-duplicated.
- FilterLanguage.FilterState.ParseFilterStr: `atoi` is extended to all integers; the C function leaves values outside int range undefined.
- PacketParser.PacketProbe.ProcessPacket: the ring-buffer slot's old bytes beyond cap_len are a parameter; the two reserved bytes are not modelled.
- Session.Sniffer.HandleInputFilter: the screen height is passed along but unused, as no editor key lays the windows out again.
