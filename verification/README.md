# Verification of AlloDataChannel

This project models the logic that AlloDataChannel puts on top of libdatachannel, and proves properties of it in
Dafny 4.11. `dafny verify dfyconfig.toml` checks everything.

## What is modelled

| file | part of the system |
|---|---|
| `Rtp.dfy` | RTP packets with a parser and a serializer (section 5.1 of RFC 3550), and the two in-place header edits |
| `SdpText.dfy` | the address override: left-to-right, non-overlapping replacement in SDP text |
| `Msid.dfy`, `MsidFeeds.dfy`, `MsidText.dfy` | reading stream and track ids out of a description, in both dialects, and which printed ids a whole text gives back |
| `PayloadTypes.dfy`, `Ssrcs.dfy` | the two allocators of a peer |
| `Peers.dfy`, `PeerObjects.dfy` | a peer's allocators and channel registry under local calls and native callbacks, as a state machine and as the class that runs its steps |
| `PeerCalls.dfy`, `PeerHistory.dfy` | what each of these calls and callbacks does, told by its effects, and what a peer is after any run, told by the run's events alone |
| `Forwarding.dfy`, `ForwardingObjects.dfy` | a media forwarding unit, as a state machine and as the class |
| `Sfu.dfy`, `SfuStop.dfy` | one egress peer with any number of units started, fed and stopped in any order, together with everything else that happens on the peer |
| `SfuSharing.dfy` | units that share an egress track: when their SSRCs collide, when a stop is felt, and runs that get there |
| `SfuObjects.dfy` | the unit objects behind that system: starts, packets, callbacks and stops run its steps |
| `StoredCallbacks.dfy` | the callback slot that replays the last missed call |
| `WaitFor.dfy`, `CStrings.dfy` | the race behind `waitFor`, and the scoped buffers behind `withCStrings` |
| `FanOut.dfy`, `GatherSend.dfy` | the fan-out loop of the SFU example, and the two-pass gather send |

Where the code changes fields, an array or a set, there is a class or a method whose contract ties the new state to a
step function; the theorems are about runs of those steps.

### Assumptions about the environment

Every API call and every native callback is one atomic step. The native library answers arbitrarily, within what
`Peers.Fits` states: a handle is never both a data channel and a track, a closed handle does not come back, and a
locally added track reports exactly its own SSRC. When a track is closed, the library reports that, if it does, by a
callback of its own, and from then on may refuse what it is asked; these are separate events and answers. A wrapper that is closed is one the peer built. The bodies of the
two `RtpHeader` setters are not part of this model; they are taken to write the SSRC in network byte order and the low
seven bits of the second octet, keeping the marker bit, as the packed layout and section 5.1 of RFC 3550 require.
Text is ASCII; a line feed right after a carriage return is one Swift character with it, so it is not split at. The
random generator is an arbitrary stream of draws in which, for `Ssrcs.Serve`, every number comes up again and again.

### Where the code and its comments differ

The comment on `MediaForwardingUnit.stop` says that the outgoing track is not deleted; the code closes it and removes
it from the registry, and the model follows the code. The comment in `GetMsid` marks the track id of an `a=ssrc:` line
as optional; the code fails without one (`Msid.SsrcNeedsTrack`).

### Properties that hold only under a condition

- Sanitising line by line equals sanitising the whole text for every text exactly when the address holds no line feed
  or is replaced by itself (`SdpText.SanitizeByLineExactly`).
- A description that prints the ids gives them back exactly if both are non-empty and hold neither spaces nor line
  feeds, and the track id does not end in a return just before the end of the line; besides, by coincidence, for two
  single returns before a bare line feed (`MsidText.PrintedIdsAreReadExactly`). For ids that open with a line break
  this takes a text without two returns before a line feed, as every text of proper lines is
  (`MsidText.RenderedRoundTrip`); with them, they can come back (`MsidText.StrayReturnGivesBack`). Creating and
  announcing a track agree in either order on exactly these ids (`Peers.OrdersAgreeExactly`). The guard of
  `createTrack` checks for spaces only: with empty ids the announced-first order traps, with a line break in the stream
  id it gives other ids (`Peers.EmptyIdsTrap`, `Peers.BrokenIdsDiffer`).
- Packets of two units carry the same SSRC exactly if their egress tracks have the same first one. As long as neither
  the application nor the remote side brings an SSRC that a track already has, that means exactly if they share one
  egress track (`SfuSharing.CollisionsExactly`). Both conditions can fail: a native answer that names a registered track
  makes two units share it (`SfuSharing.StreamsCollide`), and an SSRC chosen twice ends up on two tracks
  (`SfuSharing.RepeatedSsrcCollides`). Fresh handles exclude both (`Sfu.FreshStreamsAreSeparable`).
- Stopping a unit can be felt by another one exactly if they share an egress track, and either the stop is what closes
  that track and the track has an SSRC to forward under, or the other one holds the key-frame handler
  (`SfuSharing.StopIsFeltExactly`). Both happen (`SfuSharing.StopSilencesOther`, `SfuSharing.StopLosesRequest`). On
  other tracks nothing is felt, whatever the native library makes of the closed one (`SfuStop.StopLeavesOthersAlone`).
- The fan-out loop reaches every open receiver exactly when none follows a closed one (`FanOut.FanOutIsComplete`).
- The gather send is defined exactly for elements one byte wide (`GatherSend.SendBuffer`).

## Model

| member | source | states |
|---|---|---|
| Rtp.ParseOfSerialize | Binaries/datachannel.xcframework/macos-arm64/Headers/rtc/rtp.hpp:49-55 | every packet the standard allows is read back from its own bytes |
| Rtp.SerializeOfParse | Binaries/datachannel.xcframework/macos-arm64/Headers/rtc/rtp.hpp:49-55 | the parser accepts only valid packets and loses no byte of them |
| Rtp.FixedLayout | Binaries/datachannel.xcframework/macos-arm64/Headers/rtc/rtp.hpp:49-55 | what the parser reads from the twelve fixed octets: version, marker, payload type, and the numbers with the most significant octet first |
| Rtp.TailLayout | Binaries/datachannel.xcframework/macos-arm64/Headers/rtc/rtp.hpp:26-58 | CSRC words, extension, payload and padding are the octets that section 5.1 of RFC 3550 says |
| Rtp.RewriteTouches | Sources/AlloDataChannelCpp/ADCHelpers.cpp:11-21 | octet by octet, the edits write the SSRC with its most significant octet at 8, keep the marker in octet 1, and leave every other octet |
| Rtp.RewriteMeaning | Sources/AlloDataChannel/AlloDataChannel.swift:685-704 | for bytes of any length, both edits leave unparsable bytes unparsable, and change nothing in the parse but the SSRC and the seven-bit payload type |
| Rtp.RewriteIsReserialize | Sources/AlloDataChannelCpp/ADCHelpers.cpp:11-21 | the edited bytes are what a serializer would write for the edited packet |
| Rtp.RewriteAlgebra | Sources/AlloDataChannel/AlloDataChannel.swift:685-704 | the edits commute, the last value written wins (so each is idempotent), packets shorter than 12 bytes are untouched |
| Rtp.RewriteSetsSsrcField | Sources/AlloDataChannelCpp/ADCHelpers.cpp:11-15 | a receiver reads the new SSRC from any packet of at least 12 bytes, well formed or not |
| Rtp.StoreSsrc | Sources/AlloDataChannelCpp/ADCHelpers.cpp:11-15 | the in-place store through the header pointer is the edit that the lemmas are about |
| Rtp.StorePayloadType | Sources/AlloDataChannelCpp/ADCHelpers.cpp:17-21 | the same for the payload type, keeping the marker bit |
| Rtp.RewriteSsrc | Sources/AlloDataChannel/AlloDataChannel.swift:685-694 | the guarded in-place rewrite, for buffers of any length |
| Rtp.RewritePayloadType | Sources/AlloDataChannel/AlloDataChannel.swift:695-704 | the same for the payload type |
| SdpText.SanitizeChanges | Sources/AlloDataChannel/AlloDataChannel.swift:676-681 | a peer hands a text on unchanged if and only if it has no override, or the address is empty, does not occur in it, or equals its substitute |
| SdpText.ReplaceMeaning | Sources/AlloDataChannel/AlloDataChannel.swift:676-681 | every text has exactly one leftmost cut around the address, and the result joins the same pieces with the substitute |
| SdpText.ReplaceLength | Sources/AlloDataChannel/AlloDataChannel.swift:676-681 | the length changes by the number of non-overlapping matches times the difference in length |
| SdpText.SanitizeByLine | Sources/AlloDataChannel/AlloDataChannel.swift:676-681 | with an override or without, a description sanitised whole is its lines sanitised one by one, and these are the lines of the result |
| SdpText.SanitizeByLineExactly | Sources/AlloDataChannel/AlloDataChannel.swift:676-681 | this holds for all texts exactly when there is no override, or its address has no line feed or equals its substitute |
| SdpText.BrokenAddress | Sources/AlloDataChannel/AlloDataChannel.swift:680 | the failing family: an address with a line feed, as a text, is replaced whole but not line by line |
| Msid.LinesOfRender | Sources/AlloDataChannel/AlloDataChannel.swift:494-501 | from a text with any mixture of LF and CRLF terminators the parser sees exactly its non-empty lines |
| Msid.LineEndingsIgnored | Sources/AlloDataChannel/AlloDataChannel.swift:493-511 | a text without CRLF and its CRLF form give the same ids, or both fail, through either dialect |
| Msid.MsidRoundTrip | Sources/AlloDataChannel/AlloDataChannel.swift:496-500 | printed ids are read back from any text whose first msid line is theirs, whatever follows on that line or around it |
| Msid.ShortMsidLine | Sources/AlloDataChannel/AlloDataChannel.swift:496-500 | one id stands for both; a msid line without ids leaves the decision to the older dialect |
| Msid.SsrcRoundTrip | Sources/AlloDataChannel/AlloDataChannel.swift:501-509 | the older dialect reads back both ids behind its msid token |
| Msid.SsrcNeedsTrack | Sources/AlloDataChannel/AlloDataChannel.swift:502-511 | without a track id the older dialect fails, against the comment |
| Msid.ParsedIdsAreExpressible | Sources/AlloDataChannel/AlloDataChannel.swift:490-512 | ids read from any description are non-empty, free of spaces and without a line feed that splits |
| Msid.ExpressibleIds | Sources/AlloDataChannel/AlloDataChannel.swift:490-512 | the ids the parser can return from any description at all, not necessarily one that prints them, are exactly the non-empty ones without spaces and without a line feed that splits |
| MsidText.PrintedIdsAreReadExactly | Sources/AlloDataChannel/AlloDataChannel.swift:490-512 | if other lines, a line printing the ids and any further text make up the description, the parser returns these ids if and only if they are tokens without line feeds and without a return at the end of the line, or two single returns before a bare line feed; for ids opening with a line break this holds if nothing behind has two returns before a line feed, and the older dialect decides otherwise |
| MsidText.StrayReturnGivesBack | Sources/AlloDataChannel/AlloDataChannel.swift:493-509 | the family that needs this: ids opening with a line break, repeated by an older line with one return more, do come back |
| MsidText.RenderedRoundTrip | Sources/AlloDataChannel/AlloDataChannel.swift:493-511 | for a text of lines with LF or CRLF each, printed ids come back if and only if they are tokens without line feeds and the track id does not end in a return, or two single returns before LF |
| MsidText.SsrcTextExactly | Sources/AlloDataChannel/AlloDataChannel.swift:501-511 | in a text without a msid line, the first id line of the older dialect gives ids if and only if at least two tokens follow its msid token, against the comment, and then these two |
| MsidText.SsrcRenderedRoundTrip | Sources/AlloDataChannel/AlloDataChannel.swift:501-509 | from such a text with no msid line, the older dialect reads back the ids of its first id line |
| MsidText.EmptyIdsAreLost | Sources/AlloDataChannel/AlloDataChannel.swift:496-511 | the description that prints two empty ids is an error |
| MsidText.BrokenIdsAreCut | Sources/AlloDataChannel/AlloDataChannel.swift:493-500 | a printed stream id with a CRLF in it is cut there, and what comes before stands for both ids, whatever the track id and the rest of the text |
| PayloadTypes.PayloadTypeAllocator.PayloadType | Sources/AlloDataChannel/AlloDataChannel.swift:529-540 | the mutating request is the step that the run lemmas are about |
| PayloadTypes.AnswerIsRank | Sources/AlloDataChannel/AlloDataChannel.swift:526-540 | over any run, a key gets 97 plus the number of distinct keys first requested before it if that is below 31, and exhaustion otherwise |
| PayloadTypes.AnswersSeparateKeys | Sources/AlloDataChannel/AlloDataChannel.swift:526-540 | answers are stable per key, differ between keys, lie in 97 to 127, and known keys still succeed after exhaustion |
| PayloadTypes.RequestKeeps | Sources/AlloDataChannel/AlloDataChannel.swift:529-540 | one request keeps the table injective and every earlier answer, and asking again changes nothing |
| Ssrcs.SsrcAllocator.Reserve | Sources/AlloDataChannel/AlloDataChannel.swift:546 | a reservation adds exactly its number |
| Ssrcs.SsrcAllocator.Next | Sources/AlloDataChannel/AlloDataChannel.swift:547-554 | the retry loop returns the first unused draw, not later than any draw known to be unused, and records it |
| Ssrcs.FreshExists | Sources/AlloDataChannel/AlloDataChannel.swift:551-552 | an unused non-zero number exists exactly while fewer than 2^32 - 1 are used |
| Ssrcs.CyclingIsFair | Sources/AlloDataChannel/AlloDataChannel.swift:551 | fair streams of draws exist: counting around is one |
| Ssrcs.Serve | Sources/AlloDataChannel/AlloDataChannel.swift:543-555 | the allocator, run over any requests with any fair stream of draws, serves them all until none is left of 2^32 - 1 numbers, ends with exactly the reserved and issued ones used, and every number it issues is non-zero and differs from all reserved or issued before |
| Peers.StepKeeps | Sources/AlloDataChannel/AlloDataChannel.swift:302-310 | every creation, announcement and close, with any native answer, keeps the registry invariant |
| Peers.RunKeeps | Sources/AlloDataChannel/AlloDataChannel.swift:364-385 | over every interleaving the invariant holds, no number is given back, and each handle keeps its first wrapper |
| Peers.EveryRunIsConsistent | Sources/AlloDataChannel/AlloDataChannel.swift:651-673 | so does it from a new peer on |
| Peers.RegistryPartition | Sources/AlloDataChannel/AlloDataChannel.swift:167-169 | the ids of all channels are the disjoint union of those of data channels and tracks, each has one wrapper, the same object in both sets, and its user pointer is that object |
| Peers.CloseKeeps | Sources/AlloDataChannel/AlloDataChannel.swift:302-306 | closing takes the id out of the registry and keeps the invariant |
| Peers.FailureLeavesRegistry | Sources/AlloDataChannel/AlloDataChannel.swift:577-603 | a failed creation leaves registry and user pointers alone; exhaustion takes no SSRC, a refusal keeps its numbers allocated |
| Peers.FailuresLeaveRegistry | Sources/AlloDataChannel/AlloDataChannel.swift:577-603 | over any run of creations that all fail, registry and user pointers end as they were, and the SSRCs and payload types of the refused ones are exactly what was added |
| Peers.NumbersAreNotReissued | Sources/AlloDataChannel/AlloDataChannel.swift:577-603 | across any run, later creations never draw the SSRC of an earlier one, failed or not, and share a payload type exactly for equal keys |
| Peers.CreateAnnounceConfluence | Sources/AlloDataChannel/AlloDataChannel.swift:604-611 | announced before or after registration, a track whose description names the requested ids ends in the same state with one wrapper |
| Peers.CreateAnnounceByText | Sources/AlloDataChannel/AlloDataChannel.swift:660-673 | the same from the text: the description prints requested ids that survive |
| Peers.OrdersAgreeExactly | Sources/AlloDataChannel/AlloDataChannel.swift:572-611 | for a request that passes the guard and a description that prints its ids, the announced-first and the created-first order return wrappers with the same data if and only if the ids come back from the description |
| Peers.NewPeerAllowsBothOrders | Sources/AlloDataChannel/AlloDataChannel.swift:572-611 | on a new peer both orders are open to every request that passes the guard, whatever the description |
| Peers.EmptyIdsTrap | Sources/AlloDataChannel/AlloDataChannel.swift:572-611 | with empty ids the announced-first order traps while the created-first one returns a track |
| Peers.BrokenIdsDiffer | Sources/AlloDataChannel/AlloDataChannel.swift:572-611 | for every stream id with a CRLF behind some text the two orders return tracks with different ids |
| PeerCalls.DataCreated | Sources/AlloDataChannel/AlloDataChannel.swift:364-385 | a refused creation changes nothing; a known handle gives its wrapper; a new one gives a wrapper that is then in both sets and the user pointer, and is given again for the same handle |
| PeerCalls.DataAnnounced | Sources/AlloDataChannel/AlloDataChannel.swift:651-659 | a data-channel callback registers a wrapper if and only if the handle is unknown, and changes nothing else |
| PeerCalls.TrackAnnounced | Sources/AlloDataChannel/AlloDataChannel.swift:660-673 | a track callback on an unknown handle registers a wrapper in both sets and as user pointer and takes exactly its SSRCs, or traps if the description holds no ids; on a known handle it does nothing |
| PeerCalls.NumbersHandedOut | Sources/AlloDataChannel/AlloDataChannel.swift:577-587 | a creation gets numbers if and only if the key has a payload type or one of the 31 is left: the chosen or drawn SSRC, and the key's number from 97 to 127; exactly these are added |
| PeerCalls.TrackCreated | Sources/AlloDataChannel/AlloDataChannel.swift:560-612 | a creation traps on a space in either id or the mid, or on an unreadable announcement; throws exhaustion without room and the native code on a refusal, with what each leaves allocated; otherwise returns a registered track, the known one or a new one with that SSRC |
| PeerHistory.PeerReflectsHistory | Sources/AlloDataChannel/AlloDataChannel.swift:302-672 | after every run, each handle points to the wrapper of the event that first named it, that wrapper is registered in the sets of its kind exactly until it is closed, the SSRCs in use are exactly those brought by creations and announcements, and the payload types those of the keys asked for |
| PeerHistory.NamedIsRegistered | Sources/AlloDataChannel/AlloDataChannel.swift:364-385 | every channel created or announced and not closed since is registered, and a track's SSRCs are taken |
| PeerObjects.Peer.CreateDataChannel | Sources/AlloDataChannel/AlloDataChannel.swift:364-385 | the method throws and changes nothing for a negative code; otherwise it returns the wrapper of the handle, a new one with the given stream and name if there was none, registered in both sets |
| PeerObjects.Peer.OnDataChannel | Sources/AlloDataChannel/AlloDataChannel.swift:651-659 | the callback builds and registers a wrapper exactly for an unknown handle |
| PeerObjects.Peer.OnTrack | Sources/AlloDataChannel/AlloDataChannel.swift:660-673 | the callback builds and registers a wrapper with the parsed ids exactly for an unknown handle, takes all its SSRCs, and traps exactly on an unknown handle whose description holds no ids |
| PeerObjects.Peer.Begin | Sources/AlloDataChannel/AlloDataChannel.swift:577-587 | the allocations are the modelled ones, with a drawn SSRC that was unused |
| PeerObjects.Peer.Finish | Sources/AlloDataChannel/AlloDataChannel.swift:604-611 | a registered wrapper is returned, otherwise one with the requested ids is built and inserted in both sets |
| PeerObjects.Peer.CreateTrack | Sources/AlloDataChannel/AlloDataChannel.swift:560-612 | the whole creation, with a callback in between or not, is the modelled step for every native answer, and its outcome, ids, SSRC and registration are given outright |
| PeerObjects.Peer.CloseChannel | Sources/AlloDataChannel/AlloDataChannel.swift:302-306 | the wrapper leaves every set it was in |
| PeerObjects.Peer.OnOpen | Sources/AlloDataChannel/AlloDataChannel.swift:312-319 | an open or closed callback changes the one wrapper registered for its handle and leaves registry and allocators alone |
| Forwarding.ForwardingRefines | Sources/AlloDataChannel/MediaForwardingUnit.swift:48-69 | over every run the sent log is, in order, the rewrite of exactly the packets that arrived while the egress was open, from the resolution of the numbers on, and were sent; count, numbers and last error are determined by the history alone |
| Forwarding.SentMeaning | Sources/AlloDataChannel/MediaForwardingUnit.swift:52-65 | over every run, the k-th packet sent parses as the k-th forwarded packet that arrived with only SSRC and payload type replaced, and does not parse if that one did not |
| Forwarding.StepKeeps | Sources/AlloDataChannel/MediaForwardingUnit.swift:52-62 | numbers never change once set, a payload type implies an SSRC, the count is the length of a log that only grows |
| ForwardingObjects.MediaForwardingUnit.Start | Sources/AlloDataChannel/MediaForwardingUnit.swift:28-46 | the throwing initializer returns a unit if and only if both sessions install, no id has a space, a payload type is left, the track is added and its announcement readable; each failure has its own error and leaves the peer as its stage does; the unit is fresh, holds the handler of a registered egress track, and a new track has the ids made from client and ingress |
| ForwardingObjects.MediaForwardingUnit.OnMessage | Sources/AlloDataChannel/MediaForwardingUnit.swift:48-69 | the sink, with its in-place edits of a copy, runs the modelled step, and traps exactly on a packet for an open track without an SSRC |
| ForwardingObjects.MediaForwardingUnit.OnKeyFrameRequested | Sources/AlloDataChannel/AlloDataChannel.swift:396-406 | the callback of a track asks, through the one unit that installed its handler last, that unit's ingress track if it is open |
| ForwardingObjects.MediaForwardingUnit.StopForwarding | Sources/AlloDataChannel/MediaForwardingUnit.swift:73-78 | every subscription is cancelled, the handler cleared, and the egress track leaves the registry |
| Sfu.StepKeeps | Sources/AlloDataChannel/MediaForwardingUnit.swift:28-78 | every event on a peer with units keeps registry, handlers, logs and SSRC separation consistent |
| Sfu.RunKeeps | Sources/AlloDataChannel/MediaForwardingUnit.swift:28-78 | so does every run |
| Sfu.OpenIsLastCallback | Sources/AlloDataChannel/AlloDataChannel.swift:312-319 | over every run a wrapper is open exactly as the last callback of its handle said, since the handle keeps its wrapper |
| Sfu.UnitFollowsItsView | Sources/AlloDataChannel/MediaForwardingUnit.swift:48-69 | whatever else happens on the peer, a unit's state is the run of the events its own sink sees |
| Sfu.UnitRefines | Sources/AlloDataChannel/MediaForwardingUnit.swift:48-69 | hence each started unit meets the forwarding specification inside the whole system |
| Sfu.UnitConveys | Sources/AlloDataChannel/MediaForwardingUnit.swift:48-69 | so does what a unit sends mean what arrived on its ingress track, whatever else happens on the peer |
| Sfu.PeerFollowsItsView | Sources/AlloDataChannel/MediaForwardingUnit.swift:28-78 | with any number of units on it, a peer goes through exactly the run of its own calls and callbacks and of the creations and closings that starts and stops of units mean |
| Sfu.StreamsAreSeparable | Sources/AlloDataChannel/MediaForwardingUnit.swift:33-60 | in every reachable state packets of two units with egress tracks of their own carry different SSRCs, and all units share one payload type |
| Sfu.FreshHandlesMakeOwnTracks | Sources/AlloDataChannel/AlloDataChannel.swift:590-611 | if the native library never hands out a registered track, every unit has a track of its own |
| Sfu.FreshStreamsAreSeparable | Sources/AlloDataChannel/MediaForwardingUnit.swift:33-60 | then no two units ever send the same SSRC |
| Sfu.ForwardedAvoidsReserved | Sources/AlloDataChannel/AlloDataChannel.swift:668-671 | what a later unit sends differs from every SSRC announced or reserved before it |
| Sfu.UnitsShareOneNumber | Sources/AlloDataChannel/AlloDataChannel.swift:529-540 | any number of units consumes at most one payload-type number |
| SfuStop.StopIsFinal | Sources/AlloDataChannel/MediaForwardingUnit.swift:73-78 | after a stop, over every run, the unit sends nothing, asks for nothing, its track is unregistered, the invariant holds, and stopping again changes nothing |
| SfuStop.StopAgain | Sources/AlloDataChannel/MediaForwardingUnit.swift:73-78 | stopping a stopped unit is the identity in any consistent state |
| SfuStop.PeerStepCommutes | Sources/AlloDataChannel/AlloDataChannel.swift:302-306 | closing a wrapper commutes with every other registry step |
| SfuStop.StopLeavesOthersAlone | Sources/AlloDataChannel/MediaForwardingUnit.swift:73-78 | with the same calls and packets, stopped or not, a unit on another egress track ends with the same everything, whatever callbacks and answers the native library gives for the closed track; if it gave the same ones, units on that track end with the same log |
| SfuSharing.CollisionsExactly | Sources/AlloDataChannel/MediaForwardingUnit.swift:33-60 | in every reachable state two sent packets of two units have the same SSRC if and only if the egress tracks have the same first SSRC, and, unless someone brought an SSRC that a track had, if and only if the units share one egress track |
| SfuSharing.StreamsCollide | Sources/AlloDataChannel/AlloDataChannel.swift:604-607 | a run from a new peer in which the native library names one handle twice ends with two units sending the same SSRC |
| SfuSharing.RepeatedSsrcCollides | Sources/AlloDataChannel/AlloDataChannel.swift:578-607 | a run from a new peer in which the application chooses one SSRC for two tracks ends with two units on different tracks sending that SSRC |
| SfuSharing.StopIsFeltExactly | Sources/AlloDataChannel/MediaForwardingUnit.swift:73-78 | a stop can leave another unit different, under the callbacks and answers that closing the track brings, if and only if the two share the egress track, and the stop closes it while it has an SSRC, or the other unit holds its key-frame handler |
| SfuSharing.RequestsAreLostExactly | Sources/AlloDataChannel/AlloDataChannel.swift:396-406 | a stop can cost another unit key-frame requests if and only if it shares the egress track and holds its handler |
| SfuSharing.StopSilencesOther | Sources/AlloDataChannel/AlloDataChannel.swift:302-319 | a run from a new peer in which the stop of one unit closes the track of another, which then forwards nothing |
| SfuSharing.StopLosesRequest | Sources/AlloDataChannel/MediaForwardingUnit.swift:73-78 | a run from a new peer in which the stop of one unit takes a key-frame request from another |
| SfuObjects.Start | Sources/AlloDataChannel/MediaForwardingUnit.swift:28-46 | starting a unit on the objects runs the system's step: the units and the new one represent the system after it, and after a failure the old ones still represent theirs |
| SfuObjects.Deliver | Sources/AlloDataChannel/MediaForwardingUnit.swift:48-69 | on the unit objects that a system represents, the sink of one unit runs the system's step, trapping when it does |
| SfuObjects.KeyFrame | Sources/AlloDataChannel/MediaForwardingUnit.swift:42-45 | so does the key-frame callback of a handle, which reaches the unit that the system records |
| SfuObjects.Opened | Sources/AlloDataChannel/AlloDataChannel.swift:312-319 | so do the open and closed callbacks of a handle |
| SfuObjects.StopUnit | Sources/AlloDataChannel/MediaForwardingUnit.swift:73-78 | so does stopping a unit, on the peer and on every unit |
| StoredCallbacks.SynchronizedStoredCallback.Assign | Binaries/datachannel.xcframework/macos-arm64/Headers/rtc/utils.hpp:113-119 | setting a callback replays the stored call to it and clears it |
| StoredCallbacks.SynchronizedStoredCallback.Call | Binaries/datachannel.xcframework/macos-arm64/Headers/rtc/utils.hpp:121-126 | a call is delivered or stored, and always accepted |
| StoredCallbacks.DeliveryRefines | Binaries/datachannel.xcframework/macos-arm64/Headers/rtc/utils.hpp:90-126 | over every sequence the deliveries are those of the specification, and a call is stored only while no callback is set, namely the last missed one |
| StoredCallbacks.DeliveriesInOrder | Binaries/datachannel.xcframework/macos-arm64/Headers/rtc/utils.hpp:113-126 | deliveries are duplicate-free and in the order of the calls |
| StoredCallbacks.DeliveriesAreExact | Binaries/datachannel.xcframework/macos-arm64/Headers/rtc/utils.hpp:113-126 | a call is delivered exactly if a callback was set when it came, or it was the last missed one when the next was set |
| FanOut.Forward | Examples/SFU/SFUMain.swift:41-54 | one packet is attempted on the longest all-open prefix of receivers, each time with the same once-rewritten copy, whatever sends fail |
| FanOut.FanOutIsComplete | Examples/SFU/SFUMain.swift:43-46 | that is every open receiver exactly when none follows one that is not open |
| GatherSend.SizeIsExact | Binaries/datachannel.xcframework/macos-arm64/Headers/rtc/datachannel.hpp:52-67 | the counted size never exceeds what is copied, and equals it exactly for elements one byte wide |
| GatherSend.SendBuffer | Binaries/datachannel.xcframework/macos-arm64/Headers/rtc/datachannel.hpp:64-76 | every copy stays inside the buffer exactly in that case, and then the message is the concatenation and fills the buffer |
| CStrings.WithCStringsBrackets | Sources/AlloDataChannel/Util.swift:15-38 | the body runs once with one live pointer per string in order, all buffers are released in reverse order whether it returns or throws, and its outcome is passed on |
| CStrings.StringsArriveWhole | Sources/AlloDataChannel/Util.swift:20-33 | through these pointers the C side reads every string exactly when none holds a NUL, and prefixes otherwise |
| WaitFor.RunIsSafe | Sources/AlloDataChannel/Util.swift:99-117 | over all interleavings success means that the last value consumed was the first wanted one, a wrong value that the publisher finished without any, and nothing emitted is skipped |
| WaitFor.OneOutcome | Sources/AlloDataChannel/Util.swift:114-115 | over all interleavings, asking the group for its first result gives an outcome exactly if the timer has elapsed or the consumer has ended, and that outcome stays, whatever the cancelled tasks do later |
| WaitFor.ConsumerDecides | Sources/AlloDataChannel/Util.swift:107-115 | from the events alone: if the timer leaves the consumer a turn for each value up to a wanted one, success is reported, be the publisher still alive or not; if none is wanted and the publisher has completed, its failure or a wrong value is |
| WaitFor.TimerDecides | Sources/AlloDataChannel/Util.swift:102-105 | if the timer elapses before the consumer can have had these turns, a timeout is reported, whatever follows |
| WaitFor.CancelStops | Sources/AlloDataChannel/Util.swift:115-116 | once the group has reported and cancelled, the consumer takes nothing more |
| WaitFor.TransientIsNotSkipped | Sources/AlloDataChannel/Util.swift:69-88 | once a wanted value was emitted, the outcome is success or a timeout |
| WaitFor.Race.Yield | Sources/AlloDataChannel/Util.swift:81-83 | an emitted value is buffered behind the others, without bound, until completion |
| WaitFor.Race.Finish | Sources/AlloDataChannel/Util.swift:73-80 | the first completion is the one that counts |
| WaitFor.Race.Timeout | Sources/AlloDataChannel/Util.swift:102-105 | the sleeping task ends with a timeout, once |
| WaitFor.Race.ConsumeOne | Sources/AlloDataChannel/Util.swift:108-111 | the consuming task takes exactly the first buffered value, and ends if and only if it is wanted; without one it ends when the stream has |
| WaitFor.Race.Next | Sources/AlloDataChannel/Util.swift:114-115 | the group reports the task that ended first |
| WaitFor.Race.ConsumeAll | Sources/AlloDataChannel/Util.swift:107-112 | the consuming loop stops at the first wanted value, or at the end of the stream if there is none |

## Left out

- The interior of libdatachannel (ICE, DTLS, SRTP, SCTP, SDP generation, packetizers, RTCP sessions): only declared in the repository, so it is an environment here.
- Races inside one API call or callback, reentrant callbacks, and copying or moving stored callbacks: steps are atomic.
- Wrapper life times: weak peers, reference counting and `deinit`, which deletes native handles.
- Traps of `try!` around native calls other than the parse of an announced description, for instance when a handler is installed on a closed handle.
- Integer conversions that trap on packets of 2^31 bytes or more, and negative message sizes.
- Empty messages, for which the forced unwrapping of the buffer's base address in `send` can trap (`AlloDataChannel.swift:298`): the model sends them.
- Payload types outside 0 to 255 from the native library, on which the conversion in `payloadTypesForCodec` traps (`AlloDataChannel.swift:443`): the model's answers are bytes.
- Text outside ASCII: canonical equivalence and grapheme clusters other than CRLF.
- The value an ingress track already holds when a unit subscribes is the unit's first delivered event; publishing itself (Combine) is not modelled.
- Timestamps of errors, console output, logging, bit rates, directions and mids: no state of the model depends on them.
- Outer cancellation of `waitFor`, and how long the timer sleeps.
- Enum mirrors, error-code mapping, peer configuration, the two-call string reads, NAL unit bit fields, and the example's signalling: each is settled by reading one line.
