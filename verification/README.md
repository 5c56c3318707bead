# Verified model of the StackChan voice device

The repository runs a voice assistant on a small device: a WebRTC stack that reaches its server
through ICE and TURN, a wake-word detector on the microphone stream, and the tools and server code
around them. This project models the parts of it that carry protocol or arithmetic logic and proves
properties of them over every input or every run. It verifies with Dafny 4.11:
`dafny verify dfyconfig.toml`.

What is modelled, one module per part of the system:

- **Candidate exchange.** `Candidates` and `Description` print and parse ICE candidates and session
  descriptions character by character (`Text` holds the C library's decimal printing, `sscanf`
  directives and `strstr`; `Address` holds IPv4 text). `Lines` is Python's `splitlines`,
  `Munge` the server's rewrite of an SDP answer, and `MungeOnDevice` composes it with the device's parser.
- **Connectivity.** `Selection` is the candidate-pair machine as a transition system, `PairTable` the
  table it starts from, `PeerConnection` the loop that drives it, `Turn` the permission and keepalive
  protocol with its nonce challenges. `AgentState` is the agent as an object whose methods update its
  fields; each method is tied to the functions the theorems are about.
- **Wake word.** `WakeWindow` has the plain detector, its theorems over whole runs, and the firmware's
  ring buffer as a class that refines it. `WakeStream` covers the way from PCM samples to model
  invocations, through the microfrontend's sample window. `CountFires` is the offline fire counter,
  `Grouping` the block cutting that both sides share.
- **Codecs.** `Base64`, `Mdns` (host names in DNS messages, queries and answers) and `Embed` (the C
  array generator and its `--check` scanner).
- **Windowed helpers.** `FrameDedup` is the bounded memory of frame ids, `Trim` the loudest-window cut.

The IPv6 text conversions and the mDNS lookup are function-valued parameters (`Address.Platform`), and
every theorem holds for all of them. What the network does is a parameter too: a script of exchanges
for the TURN calls, the packet that a read yields, the answers of a run. The device clock is the `now`
argument of the methods that read it. Where the source writes beyond a field or an array, or computes
from a value that has none, C defines no result; the model has an explicit outcome for that (`None`,
`Undefined`, or a false `ok`), and the theorems say exactly when it occurs.

## Where code and claim part

The model follows the code. Each of these is stated as a theorem with its exact condition.

- The foundation numbers of gathered candidates repeat exactly when a host candidate is gathered right
  behind a reflexive or relayed one, and then the exchange loses a candidate
  (`Description.ExchangeRoundTrip`, `Description.HostBehindRelayIsLost`).
- Both candidate arrays have ten slots, which no code checks. Gathering writes the slot of an interface
  before it knows whether the interface has an address, and a candidate line is parsed into a slot
  before it is known whether the candidate counts. So the exchange needs that no attempt stands behind
  ten candidates (`Description.ExchangeRoundTrip`), and an answer is taken exactly when no kept
  candidate line, repeated foundation and other transport included, stands behind ten foundations, and
  every stored text and number fits its field (`MungeOnDevice.MungeEndToEnd`,
  `MungeOnDevice.RepeatBehindTen`).
- "Success within two requests" holds exactly when the client can come to sign with the server's nonce
  and realm (`Turn.CanSign`). For nonempty ones that the challenge names, this means that each has at
  most 63 characters, because they are cached in 64-character fields (`Turn.PermissionWithinTwo`,
  `Turn.LongNonceFails`). The same condition governs the keepalive (`Turn.KeepaliveRecovers`).
- `agent_recv` parses into a message structure it has not cleared, and parsing leaves the nonce and
  realm fields alone when a message lacks the attribute. So the cached nonce is always the latest one
  received if and only if every 401 or 438 reply that arrives outside a permission call carries a nonce
  (`Turn.NonceIsLatest`, `Turn.CredentialsAreLatest`, `Turn.StaleNonceIsTaken`).
- The DNS query's size arithmetic is exact only for names that are neither empty nor end in a dot
  (`Mdns.QuerySizeIsExact`); with empty labels the encoding is no longer prefix-free
  (`Mdns.EmptyLabelsAreAmbiguous`).
- The base64 decoder needs room for one byte more than it writes (`Base64.RoundTrip`), and the encoder
  writes its terminator one place behind the room given exactly when the text fills that room
  (`Base64.TerminatorBehindRoom`).
- The loudest-window search never looks at the window that starts with the first sample
  (`Trim.ContainsLoudestOfAll`, `Trim.LoudestCanBeLost`), though its comment speaks of the loudest
  region of the recording.
- The rewrite of an answer drops any line that names `sha-384` or `sha-512`, candidate lines included;
  the end-to-end theorem says so in `Munge.Offer`.
- `agent_get_local_description` announces to remove the last line feed; its last statement changes
  nothing, and the text ends in CRLF.
- `verify_model.py` calls itself a mirror of the detector, but has another threshold, no peak or mean
  gate, and does not clear its window. The two are proved separately.

## Model

| member | source | states |
|---|---|---|
| `Address.Ip4RoundTrip` | firmware/components/libpeer/src/address.c:33-54 | every IPv4 address is read back from the text it is printed as |
| `Address.Ip4TextIsExact` | firmware/components/libpeer/src/address.c:33-42 | a text is taken for an IPv4 address if and only if it is the text that address prints as |
| `Address.LiteralIsNotLocal` | firmware/components/libpeer/src/ice.c:123 | text made of hex digits, dots and colons is never taken for an mDNS name |
| `Text.FindIsFirst` | firmware/components/libpeer/src/agent.c:723 | the substring search finds a text if and only if it stands at some place, and then the first such place |
| `Candidates.PriorityDecodes` | firmware/components/libpeer/src/ice.c:14-34 | the priority is a mixed-radix code from which type preference (126, 100 or 0), port and component are recovered; it stays below 127 * 2^24 |
| `Candidates.PriorityOrdersTypes` | firmware/components/libpeer/src/ice.c:14-25 | host outranks reflexive outranks relay, whatever the ports |
| `Candidates.ScanBody` | firmware/components/libpeer/src/ice.c:93-100 | the seven-conversion scan takes a candidate line apart into its words and numbers, whatever stands behind the type word, and is defined if and only if each fits its field |
| `Candidates.DescriptionRoundTrip` | firmware/components/libpeer/src/ice.c:49-133 | a printed candidate followed by any text parses to the same candidate except for its related address; its foundation and transport have at most 32 characters, as their fields do |
| `Description.AddAllKeeps` | firmware/components/libpeer/src/agent.c:731-740 | de-duplication by foundation keeps a list whole if its foundations are distinct, and shortens it otherwise |
| `Description.ReadsRendered` | firmware/components/libpeer/src/agent.c:723-744 | reading a printed list stores its candidates one by one in the ten slots, de-duplicated, and leaves the credentials alone; a candidate behind ten stored ones has no slot |
| `Description.CredentialsAreRead` | firmware/components/libpeer/src/agent.c:723-744 | whenever a fresh agent can take a description, ufrag and pwd are exactly the texts behind their prefixes in the one line that has each, and empty without such a line |
| `Description.GatherDistinct` | firmware/components/libpeer/src/agent.c:137-145 | gathered foundations are pairwise distinct if and only if no host candidate is found right behind a reflexive or relayed one |
| `Description.GatherFits` | firmware/components/libpeer/src/agent.c:137-144 | gathering stays within the ten slots if and only if no attempt, an interface without an address included, stands behind ten candidates; then the list is what was found, with the source's foundation numbers, component 1, UDP, and the priority formula |
| `Description.ExchangeRoundTrip` | firmware/components/libpeer/src/agent.c:710-748 | printing a gathered list and reading it on a fresh agent gives the same list, if and only if no gathering attempt stands behind ten candidates (at most ten sources, if all find one) and no host candidate is found right behind another type |
| `Description.HostBehindRelayIsLost` | firmware/components/libpeer/src/agent.c:234-235 | a relay gathered before a host candidate shares its foundation, and only the relay arrives |
| `Munge.Esp32Munge` | app/bot.py:366-383 | the text returned is CRLF-terminated lines: in order, exactly the answer lines in which neither hash name stands at any place and that, if they are candidates, name the type host or relay; every line that is no candidate is returned unchanged |
| `Lines.SplitLinesIs` | app/bot.py:367 | the lines are those of a split at the ten line-break characters, with CRLF as one break and no empty last line |
| `Lines.SplitIsUnique` | app/bot.py:367 | a text has only one such split |
| `Munge.MungesCandidate` | app/bot.py:370-380 | a well-formed candidate line is dropped unless it is host or relay; otherwise only its type word becomes relay and a relay's related address goes |
| `Munge.StripsPrinted` | app/bot.py:378 | the pattern takes away exactly the related address that the device itself prints |
| `MungeOnDevice.ReadsMunged` | app/bot.py:383 | joining with CRLF and appending one loses no line: the device reads the rewrite as complete lines, the empty rewrite included |
| `MungeOnDevice.ReadsMungedLines` | firmware/components/libpeer/src/agent.c:723-744 | the device's state after the rewrite is the original lines' effects applied one by one: credentials within their 256 characters, offered candidates within their fields and slots, undefined at the first line without room |
| `MungeOnDevice.AddAllIsFirstPerFoundation` | firmware/components/libpeer/src/agent.c:731-740 | the de-duplicating loop keeps exactly the first candidate of each foundation |
| `MungeOnDevice.MungeEndToEnd` | app/bot.py:335-383 | the device takes the rewrite of a well-formed answer if and only if everything it stores has room; then a fresh device has the answer's ufrag and pwd, and exactly the candidates of the lines `from`: the first of each foundation among the UDP host and relay lines without a foreign hash, in order, every type relay, every other field as in the line |
| `MungeOnDevice.RoomSpelledOut` | firmware/components/libpeer/src/ice.c:93-100 | what room a line needs, in numbers: credentials of 256 characters, words of 32, an address of 45, a type word of 15, 31- and 32-bit numbers, fewer than ten foundations in front |
| `MungeOnDevice.RepeatBehindTen` | firmware/components/libpeer/src/agent.c:731-739 | an eleventh candidate line that only repeats a foundation has no slot to be parsed into |
| `Selection.SelectUnderInv` | firmware/components/libpeer/src/agent.c:813-852 | under the invariant one selection call nominates, counts, fails over to the next pair, selects, or returns -1, case by case |
| `Selection.SelectLeaves` | firmware/components/libpeer/src/agent.c:816-837 | in any state a selection call unfreezes at most the new nominee, and never changes which candidates a pair names |
| `Selection.StepKeepsInv` | firmware/components/libpeer/src/agent.c:783-852 | selection calls, checks and late responses all keep the shape invariant |
| `Selection.RunKeepsInv` | firmware/components/libpeer/src/agent.c:783-852 | every state a run reaches satisfies the invariant |
| `Selection.ReachableShape` | firmware/components/libpeer/src/agent.c:813-852 | from a fresh table the pairs always read FAILED*, at most one INPROGRESS or SUCCEEDED pair, which is the nominated one, then FROZEN*; only a succeeded pair is selected |
| `Selection.SuccessIsFinal` | firmware/components/libpeer/src/agent.c:844-848 | once a pair has succeeded no run changes its state or the nomination, and a selection made stays |
| `Selection.CreditedIsSelected` | firmware/components/libpeer/src/agent.c:617-627 | after a credited response every selection call returns 0 and selects the pair nominated when it arrived, failed ones included |
| `Selection.SelectLowersRank` | firmware/components/libpeer/src/agent.c:838-843 | without a success, a selection call returns 0 exactly while the rank is positive, and lowers it by one |
| `Selection.SelectionBudget` | firmware/components/libpeer/src/agent.c:813-852 | with n pairs and no valid response exactly the first 1000*n selection calls of any run return 0 and all later ones -1 |
| `Selection.RoundSendsDue` | firmware/components/libpeer/src/agent.c:795-801 | one pass of selection and check sends a request exactly when the number of requests due to the pair grows |
| `Selection.TenRequestsPerPair` | firmware/components/libpeer/src/agent.c:15-18 | with one check per successful selection call exactly ten binding requests go out for every pair, and none after the budget |
| `PeerConnection.CheckingStep` | firmware/components/libpeer/src/peer_connection.c:298-304 | one pass gives up exactly at rank 0; otherwise an answer connects over the pair the rank names, and no answer lowers the rank |
| `PeerConnection.LoopOutcome` | firmware/components/libpeer/src/peer_connection.c:298-304 | the loop connects exactly when the first answer comes within 1000*n passes, over pair number pass / 1000; otherwise it gives up in pass 1000*n + 1, not before |
| `PeerConnection.LoopEnds` | firmware/components/libpeer/src/peer_connection.c:298-304 | once CHECKING is left, later answers change nothing |
| `PeerConnection.Pass` | firmware/components/libpeer/src/peer_connection.c:298-304 | one pass on the agent object is one pass of the machine; it keeps the invariant, and a check never runs without a nominated pair |
| `PairTable.TableIsExact` | firmware/components/libpeer/src/agent.c:753-763 | the table holds exactly the pairs of two IPv4 or two IPv6 candidates, each once, local-major, and at most 100 of them for ten candidates a side |
| `PairTable.TableIsUnique` | firmware/components/libpeer/src/agent.c:753-763 | order and contents determine the table |
| `PairTable.FillAt` | firmware/components/libpeer/src/agent.c:756-760 | forming pairs writes the entry of each cell behind the slots in use and changes no other slot |
| `PairTable.FormedIsFresh` | firmware/components/libpeer/src/agent.c:750-763 | pairs formed from an empty table are a fresh selection machine over the table's cells in order, all frozen, with summed priorities |
| `PairTable.PriorityDoesNotWrap` | firmware/components/libpeer/src/agent.c:758 | the 32-bit priority sum is exact for every local candidate and every remote priority below 2^31 |
| `PairTable.PriorityWraps` | firmware/components/libpeer/src/agent.c:758 | the pair priority is the sum modulo 2^32, exact if and only if the sum stays below |
| `Turn.AttemptsOutcome` | firmware/components/libpeer/src/agent.c:314-380 | a permission call succeeds exactly when it reads a CreatePermission success response; the permission fields change then and only then |
| `Turn.EveryRequestNamesPeer` | firmware/components/libpeer/src/agent.c:314-329 | every request of a call names the peer the call was made for, and is signed with the nonce and realm that folding the messages read before it leaves |
| `Turn.RequestsOf` | firmware/components/libpeer/src/agent.c:314-377 | no request goes out without an allocation or when sending fails; a second one if and only if the first is answered by a 401 or 438 with a nonce and can be sent |
| `Turn.NonceIsLatest` | firmware/components/libpeer/src/agent.c:629-694 | in a run the cached nonce is at every moment, and whatever the message structure held, that of the last 401 or 438 reply read that carried one, cut to its field, if and only if every such reply that arrives in `agent_recv` carries a nonce |
| `Turn.CredentialsAreLatest` | firmware/components/libpeer/src/agent.c:629-694 | nonce and realm are both the latest received if and only if every such reply carries both, or an empty nonce |
| `Turn.StaleNonceIsTaken` | firmware/components/libpeer/src/agent.c:684-691 | a 438 without a nonce makes an old text the cached nonce |
| `Turn.PermissionWithinTwo` | firmware/components/libpeer/src/agent.c:314-380 | against a server that keeps its nonce a permission call sends at most two requests, and succeeds if and only if the client has, or can take over from the challenge, the nonce and the realm; if they are nonempty and named, if and only if they fit their fields, whatever was cached |
| `Turn.LongNonceFails` | firmware/components/libpeer/src/agent.c:365-366 | a nonce of 64 characters makes the call give up though the server answers honestly |
| `Turn.KeepaliveRecovers` | firmware/components/libpeer/src/agent.c:390-422 | once the replies to a refused keepalive, each naming nonce and realm, have been folded in, the next cycle is accepted if and only if the client has or can take over both |
| `Turn.KeepaliveRenewsLast` | firmware/components/libpeer/src/agent.c:390-422 | after any run a keepalive renews the permission of the last call that succeeded, for the peer of that call, and then the allocation |
| `Turn.KeepaliveWithoutPermission` | firmware/components/libpeer/src/agent.c:395 | without a success since the allocation only the allocation is renewed |
| `Turn.RunBounded` | firmware/components/libpeer/src/agent.c:685-691 | nonce and realm never outgrow their fields in any run |
| `AgentState.Agent.constructor` | firmware/components/libpeer/src/agent.c:26-46 | a created agent has no candidates and no pairs, empty credentials, and a fresh machine |
| `AgentState.Agent.CreateHostAddr` | firmware/components/libpeer/src/agent.c:137-144 | a host candidate is numbered by the list length before it, and counted only if its interface has an address; without a free slot the call is flagged, with or without an address |
| `AgentState.Agent.AddMappedAddr` | firmware/components/libpeer/src/agent.c:176-177 | a reflexive or relayed candidate is numbered by the list length after it; without a free slot the call is flagged |
| `AgentState.Agent.GetLocalDescription` | firmware/components/libpeer/src/agent.c:543-551 | the text is the start plus the printed list: all of it if it fits, otherwise as much as the room holds |
| `AgentState.Agent.SetRemoteDescription` | firmware/components/libpeer/src/agent.c:710-748 | the new credentials and the counted slots are those of reading the text line by line, flagged exactly where something has no room; a fresh agent has the credentials the text names |
| `AgentState.Agent.AddRemoteCandidate` | firmware/components/libpeer/src/agent.c:730-740 | a candidate line is parsed into the slot behind the counted ones, which is counted in if and only if the parse succeeds and no earlier slot has its foundation; what a refused candidate leaves there never matters |
| `AgentState.Agent.ParseInto` | firmware/components/libpeer/src/ice.c:80-133 | field by field, the slot comes to hold the parsed candidate, or the parse is refused; no other slot changes |
| `AgentState.Agent.CountIfNew` | firmware/components/libpeer/src/agent.c:732-739 | the slot is counted in if and only if no counted one has its foundation |
| `AgentState.Agent.TurnSetPermission` | firmware/components/libpeer/src/agent.c:301-380 | every request names the peer of the call, the first with the cached nonce and realm; on success that peer and the time are recorded, otherwise the permission is unchanged; session, result and requests are those of the permission protocol |
| `AgentState.Agent.TurnRefresh` | firmware/components/libpeer/src/agent.c:390-422 | a keepalive sends a permission renewal if one is set, then a refresh, with the cached credentials, and changes nothing |
| `AgentState.Agent.FoldChallenge` | firmware/components/libpeer/src/agent.c:359-371 | nonce and realm are taken over from a 401 or 438 reply if the nonce field is not empty after parsing, and from nothing else; an attribute the reply lacks is what the field held before |
| `AgentState.Agent.Recv` | firmware/components/libpeer/src/agent.c:629-708 | a valid binding response, wrapped or not, is credited to the nominated pair; an error reply is folded in, with leftovers for the attributes it lacks; nothing else changes |
| `AgentState.Agent.FormPairs` | firmware/components/libpeer/src/agent.c:753-763 | the nested loops fill the slots behind those in use with exactly the cells of the table, flagged if and only if these exceed the 100 slots |
| `AgentState.Agent.UpdateCandidatePairs` | firmware/components/libpeer/src/agent.c:750-781 | pairs as by the table, flagged if and only if they exceed the 100 slots; with an allocation one permission call per remote candidate, each asking for that candidate's address; from an empty table the machine is fresh |
| `AgentState.Agent.SelectCandidatePair` | firmware/components/libpeer/src/agent.c:813-852 | one selection step on the object; when a pair leaves FROZEN whose local candidate is a relay, the server is asked for a permission for the remote candidate of that pair, and an acknowledgement records that address and the time; otherwise nothing is asked and the session is unchanged |
| `AgentState.Agent.ConnectivityCheck` | firmware/components/libpeer/src/agent.c:783-811 | the object's pairs, selection, result and request are those of one check step; nothing is read unless the nominated pair is in progress |
| `WakeWindow.RotationKeepsStatistics` | firmware/components/wake_word/wake_word.cc:330-338 | hits, peak and sum do not depend on where the ring starts |
| `WakeWindow.StatisticsMonotone` | firmware/components/wake_word/wake_word.cc:330-338 | raising probabilities lowers none of hits, peak and sum |
| `WakeWindow.GatesOfFive` | firmware/components/wake_word/wake_word.cc:338-341 | the gates ask for two different places at 0.60 or above, one at 0.80 or above, and a sum of at least 2.5 |
| `WakeWindow.HoldsLastFive` | firmware/components/wake_word/wake_word.cc:301-303 | until a fire the detector holds the last five probabilities, or all so far |
| `WakeWindow.RateLimit` | firmware/components/wake_word/wake_word.cc:340-358 | the k-th fire comes later than k * 2,000,000 us and after at least 5k probabilities, and fire_seq is the number of fires modulo 2^32 |
| `WakeWindow.LatchMeansFired` | firmware/components/wake_word/wake_word.cc:490-493 | for every interleaving the latch is set if and only if a fire has happened since the previous poll |
| `WakeWindow.RaisingNeverDelays` | firmware/components/wake_word/wake_word.cc:299-366 | as long as a run with raised probabilities has not fired, neither has the original |
| `WakeWindow.WakeDetector.Record` | firmware/components/wake_word/wake_word.cc:301-303 | the write into the ring appends to the list of the last five probabilities since the previous fire |
| `WakeWindow.WakeDetector.Measure` | firmware/components/wake_word/wake_word.cc:330-337 | the loop over the ring computes hits, peak and sum of that list |
| `WakeWindow.WakeDetector.Publish` | firmware/components/wake_word/wake_word.cc:343-352 | the published metrics are those passed in, the window is a rotation of the list, and the counter goes up by one |
| `WakeWindow.WakeDetector.Damp` | firmware/components/wake_word/wake_word.cc:353-358 | after a fire the list is empty, the latch set and the clock taken, wherever the ring index stands |
| `WakeWindow.WakeDetector.UpdateWindow` | firmware/components/wake_word/wake_word.cc:299-366 | fires if and only if five probabilities are held, two of them at 0.60 or above, one at 0.80 or above, adding up to 2.5 or more, and more than 2,000,000 us have passed since the last fire; publishes their mean, peak, hits and a rotation of them; refines the plain detector |
| `WakeWindow.WakeDetector.Decide` | firmware/components/wake_word/wake_word.cc:326-365 | the part behind the write: decision, publication, and damping |
| `WakeWindow.WakeDetector.Detected` | firmware/components/wake_word/wake_word.cc:490-493 | a poll returns the latch and clears it |
| `WakeStream.StreamCounts` | firmware/components/wake_word/wake_word.cc:41-46 | N samples give 0 or 1 + (N - 480) / 160 slices S, S / k invocations and S % k waiting slices, always inside the buffer |
| `WakeStream.MoreSamples` | firmware/components/wake_word/microfrontend/tensorflow/lite/experimental/microfrontend/lib/window.c:23-58 | a piece that at most fills the window adds no slice, or exactly the one made of the held samples and the piece |
| `WakeStream.WakeInput.WindowProcess` | firmware/components/wake_word/microfrontend/tensorflow/lite/experimental/microfrontend/lib/window.c:19-63 | takes in what fits; a full window is emitted and moved on by one stride |
| `WakeStream.WakeInput.Accumulate` | firmware/components/wake_word/wake_word.cc:474-485 | a slice joins the pending ones, and a full block is handed to the model and cleared |
| `WakeStream.WakeInput.Process` | firmware/components/wake_word/wake_word.cc:422-488 | whatever the size of the call, the blocks invoked so far are the groups of the slices of everything fed so far |
| `WakeStream.WakeInput.ProcessAll` | firmware/components/wake_word/wake_word.cc:451-487 | however the stream is cut into calls, the blocks depend only on its concatenation |
| `WakeStream.InvokesAreFinal` | firmware/components/wake_word/wake_word.cc:368-378 | feeding more samples never changes the blocks already handed over |
| `WakeStream.GroupsForClip` | firmware/tools/train_wake_word/verify_model.py:130-146 | the offline loop invokes the model on the same consecutive groups |
| `Grouping.GroupsCover` | firmware/components/wake_word/wake_word.cc:370-376 | groups and leftover together are the input: no overlap, no loss |
| `Grouping.GroupsStep` | firmware/components/wake_word/wake_word.cc:482-485 | one more slice waits or completes a group, and earlier groups stay |
| `CountFires.CountFiresIn` | firmware/tools/train_wake_word/verify_model.py:151-165 | the loop returns the largest number of eligible invokes pairwise more than the cooldown apart |
| `CountFires.EligibleSpelledOut` | firmware/tools/train_wake_word/verify_model.py:158-162 | an invoke is eligible if and only if five are at hand and at least so many of the five places are at or over the threshold |
| `CountFires.CooldownIsNearest` | firmware/tools/train_wake_word/verify_model.py:155 | the cooldown is the whole number nearest to 2000 / invoke_ms, of two the even one, and 0 for 0 |
| `CountFires.PicksAreSchedule` | firmware/tools/train_wake_word/verify_model.py:157-164 | the greedy scan's own fires are such a selection, and their number is the count |
| `CountFires.GreedyStaysAhead` | firmware/tools/train_wake_word/verify_model.py:157-164 | no selection has more picks than the greedy scan, and one with as many ends no earlier |
| `CountFires.FiresIsLargest` | firmware/tools/train_wake_word/verify_model.py:151-165 | the count is attained by some selection and exceeded by none |
| `CountFires.FiresAntitone` | firmware/tools/train_wake_word/verify_model.py:161-162 | a higher threshold or more required hits never fires more often |
| `CountFires.TableIsMonotone` | firmware/tools/train_wake_word/verify_model.py:181-188 | every column of the operating-point table is monotone, and NaN cells stay where they are |
| `CountFires.DetectedAreClips` | firmware/tools/train_wake_word/verify_model.py:182 | detections are the clips in which something fires |
| `CountFires.RatesSpelledOut` | firmware/tools/train_wake_word/verify_model.py:183-187 | the miss rate times the positives is what was missed, the alarm rate times the seconds is 3600 times the false fires |
| `Base64.EncodeInto` | firmware/components/libpeer/src/base64.c:7-35 | writes the encoding and its terminator, or the longest prefix of whole quads that fits, and nothing else |
| `Base64.TerminatorBehindRoom` | firmware/components/libpeer/src/base64.c:24-34 | a place behind the room given is written if and only if the text fills the room |
| `Base64.DecodeInto` | firmware/components/libpeer/src/base64.c:37-70 | for every input writes the decoded bytes and returns their number, or returns -1, or is flagged as undefined; never writes beyond the given room in a defined call |
| `Base64.UndefinedWithRoom` | firmware/components/libpeer/src/base64.c:43-62 | with room for every character, decoding is undefined if and only if a character is outside the table or there is only one |
| `Base64.TextIsDefined` | firmware/components/libpeer/src/base64.c:43-62 | with any room, text of table characters and padding is decoded or refused unless it is a single character or has a group of padding only |
| `Base64.GroupRoundTrip` | firmware/components/libpeer/src/base64.c:28-66 | a group of one to three bytes is recovered from its four characters |
| `Base64.GroupIsRadixChange` | firmware/components/libpeer/src/base64.c:28-31 | as section 4 of RFC 4648 defines it: a group's characters are the base-64 digits of the 24-bit number its bytes form, and padding stands exactly for the missing bytes |
| `Base64.DigitsAreTable` | firmware/components/libpeer/src/base64.c:5 | the digit of a value is its place in the alphabet |
| `Base64.RoundTrip` | firmware/components/libpeer/src/base64.c:7-70 | a byte string is recovered from its encoding exactly when it is empty or the decoder has room for one byte more, and refused otherwise |
| `Base64.EncodeThenDecode` | firmware/components/libpeer/src/base64.c:7-70 | the two calls in a row through their buffers return the input and its length, or -1 without the extra byte |
| `Mdns.AddHostname` | firmware/components/libpeer/src/mdns.c:36-55 | the loop writes the encoding at its place and changes nothing else |
| `Mdns.EncodedLength` | firmware/components/libpeer/src/mdns.c:36-55 | the encoding is two bytes longer than the name if and only if the name is neither empty nor ends in a dot, and else one |
| `Mdns.QuerySizeIsExact` | firmware/components/libpeer/src/mdns.c:98 | the computed size is the message's if and only if the name is neither empty nor ends in a dot, and never too small |
| `Mdns.BuildQuery` | firmware/components/libpeer/src/mdns.c:93-116 | writes the question for the name into cleared memory and returns the computed size, or returns -1 and writes nothing |
| `Mdns.QueryAsks` | firmware/components/libpeer/src/mdns.c:104-114 | read back, a query has one question, for the name, type 1, class 1 |
| `Mdns.DecodesBack` | firmware/components/libpeer/src/mdns.c:36-55 | a well-formed name is read back from its encoding, whatever follows |
| `Mdns.DecodedIsEncoded` | firmware/components/libpeer/src/mdns.c:36-55 | conversely, whatever name can be read from the front of a buffer, the buffer starts with its encoding |
| `Mdns.PrefixFree` | firmware/components/libpeer/src/mdns.c:36-55 | no well-formed name's encoding starts with another's |
| `Mdns.EmptyLabelsAreAmbiguous` | firmware/components/libpeer/src/mdns.c:51 | with empty labels two names share an encoding, and one encoding is a prefix of another |
| `Mdns.ParseAnswer` | firmware/components/libpeer/src/mdns.c:56-91 | yields the four address bytes exactly under the source's four checks |
| `Mdns.AnswerIsForHost` | firmware/components/libpeer/src/mdns.c:74-90 | whatever the buffer holds, an answer is taken if and only if the name that can be read behind its header is the well-formed one asked for and a four-byte address follows |
| `Embed.Generate` | firmware/tools/embed_tflite.py:42-62 | the generated text is the preamble, full lines of sixteen, a rest line if needed, and the footer |
| `Embed.LayoutOfLines` | firmware/tools/embed_tflite.py:42-60 | the declarations, as many array lines as there are begun sixteens, and the closing lines |
| `Embed.ArrayLineOfLines` | firmware/tools/embed_tflite.py:50-57 | array line k holds the bytes of its sixteen places |
| `Embed.FooterNamesLength` | firmware/tools/embed_tflite.py:59 | the number in the footer reads back as the number of bytes |
| `Embed.GenerateFullLines` | firmware/tools/embed_tflite.py:50-55 | the loop has written one line per sixteen bytes and holds the elements of the rest |
| `Embed.ScanReadsBack` | firmware/tools/embed_tflite.py:32-33 | scanning the generated text yields exactly the embedded bytes, across layout, header comment and length footer |
| `Embed.CheckAcceptsOnlyTheModel` | firmware/tools/embed_tflite.py:29-40 | the check on a generated file accepts a model if and only if it is the embedded one |
| `FrameDedup.WindowDistinct` | app/bot.py:698-704 | any 257 consecutive sends have distinct frame ids |
| `FrameDedup.AgreesExactlyInTime` | app/bot.py:700-724 | what is sent equals the first occurrences in order if and only if every repeat comes while its id is among the newest 256 |
| `FrameDedup.EventObserver.Once` | app/bot.py:700-704 | says whether the id is unknown, and remembers it among the newest 256 |
| `FrameDedup.EventObserver.OnPushFrame` | app/bot.py:706-728 | a frame of one of the seven kinds with an id not among the newest 256 sends the message of its kind, interim text marked as not final, and is remembered; any other frame changes nothing |
| `Trim.EnergyIsLoudness` | firmware/tools/wake_word_tester/app.py:121-123 | each prefix-sum difference is the loudness of the window that starts one sample later |
| `Trim.AutoTrim` | firmware/tools/wake_word_tester/app.py:110-127 | always 24,000 samples; a short recording is kept whole and padded with zeros |
| `Trim.ContainsLoudest` | firmware/tools/wake_word_tester/app.py:121-127 | the clip of a longer recording is contiguous, wholly contains the first loudest window among those behind the first sample, and is centred on it unless an end of the recording is too near |
| `Trim.ContainsLoudestOfAll` | firmware/tools/wake_word_tester/app.py:121-127 | the clip contains a loudest window of all if and only if the first window is no louder than the first loudest later one, or that one starts early enough |
| `Trim.LoudestCanBeLost` | firmware/tools/wake_word_tester/app.py:123-125 | a recording whose only loudest window is outside its clip |

## Left out

- Sockets, `select`, DNS and multicast traffic, interface enumeration, FreeRTOS start-up: no visible logic to prove.
- STUN byte layout, attribute parsing and message integrity (`stun.c`): a parsed message is a value, and whether its integrity check succeeds is one of its fields. A nonce or realm longer than 63 characters is taken as the parser's field value, without modelling how the 64-character field of the message holds it.
- The Allocate exchange in `agent_create_turn_addr`: the session theorems hold from any cached realm and nonce, so they start after it.
- Answering binding requests and `binding_request_time`: they touch no field of the model.
- AgentState.Agent.Recv: asks for a nominated pair when a valid binding response arrives, as the code does without saying so; the transaction id is not looked at there either.
- What happens after a write beyond a field or an array: the model stops at that point.
- lwIP's `inet_pton` may accept IPv4 texts that the model's refuses.
- Text outside ASCII: characters stand for bytes on the device and for code points in Python.
- RFC 8445 pair priorities and priority-ordered checking: the code uses a plain sum and list order.
- DTLS and SRTP (`dtls_srtp.c`), data channels and media: almost all library calls.
- TFLite inference, signal processing inside the microfrontend, quantisation and single-precision rounding: probabilities are reals, a slice is represented by its 480 samples. The microfrontend stages behind its sample window are not part of this model.
- A failed `Invoke` in `run_wake_word`: the block is handed over all the same, and no probability follows.
- WakeWindow.WakeDetector.Publish: does not model torn reads of the published wake metrics by another task; an update is one step.
- The clock passed to the detector is any integer; the bound on fires therefore does not need it to be monotone.
- CountFires.CountFiresIn: is stated for whole milliseconds per invoke; durations are reals, and the division by zero hours is the source's NaN.
- Trim.AutoTrim: its sums are unbounded integers, not NumPy's.
- The DNS header's byte order is written for a little-endian machine, as on the device.
- Failing sends of the event observer, JSON, and `TranscriptObserver`, which does not de-duplicate.
- Web routes, pipeline wiring, prompts, storage and training scripts: no logic at this depth.
