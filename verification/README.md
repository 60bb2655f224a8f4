# Verification of the home-automation hosts and the relay server

These Dafny files model the parts of the repository whose correctness depends on state, arithmetic
on fixed widths or long runs, and prove what those parts promise.

* **TURN relay allocations** (`TurnModel`, `TurnTables`, `TurnView`, `TurnRuns`, `TurnTimer`,
  `TurnAllocation`, `PortAllocator`). `TurnModel` is the allocation as a transition function: the
  permission pool, the two hash tables that point into it, the relay with its three-state timer, and
  one event per message, timer poll or shutdown. `TurnTables` proves when the tables agree, `TurnView` that the lazy, shared
  tables implement one plain map of live permissions, `TurnRuns` states properties of whole runs: that
  what is relayed was permitted, and that what was permitted is relayed. `TurnTimer` is the life of the
  relay from creation to destruction, and `TurnAllocation` is the object itself, with shared mutable permissions and a shared timer heap, each
  handler proved against the transition function. `PortAllocator` is the round-robin port range.
* **KNX gateway** (`KnxFloat`, `KnxDpt`, `KnxValues`, `KnxFrame`, `KnxFraming`, `KnxKernel`, `IpAddress`,
  `GroupAddress`). Data point encoding and decoding, the 2-octet float, write requests and their
  decoder, the receive loop, and the text forms of addresses.
* **AQM-1000 air monitor** (`AqmScanner`, `AqmMonitor`, `AqmRing`). The resynchronising frame scanner,
  the object with its ring of four messages and carry-over buffer, and the ring step by step between
  the receiving and the handling thread.
* **Datagrams over chunked AES** (`ChunkedCipher`, `AesTools`, `ByteSwap`, `DecimalText`,
  `IpcDatagram`). The 15-in-16 chunking over any invertible block function, the buffer and file
  versions, and the two datagram pairs built on it.
* **Linked structures** (`NodeList`, `DelayedScenes`, `DelayedRuns`, `CircularList`,
  `ConnectionRegistry`). The singly linked queue, the delayed-scene passes over it and whole runs of
  them, the circular lists, and the per-thread connection list under interleaving.

`Common`, `Arithmetic` and `Buffers` hold what several modules share. Where the source updates an
object or a buffer in place, a class or an array method does the same here, and its contract ties the
new state to a function of the old one; the properties are lemmas about that function.

## Where the code falls short of what it promises

For each of these a lemma says exactly when the promise holds, and where that helps another one shows
an input for which it does not.

* ChannelBind accepts the reserved number 0xFFFF. The two tables still agree then, but a later event can
  make them disagree, and this is the only request after which that can happen
  (`TurnTables.ReservedGrantBreaksLater`, `TurnRuns.RunAgreesExactly`, `TurnRuns.RunRefinesExactly`).
  ChannelData on that number can then remove a peer's live permission
  (`TurnTables.ReservedChannelDropsPermission`) or reach a peer after a restore
  (`TurnTables.ReservedChannelSurvivesRestore`).
* A channel bound to a port of an IP that already has a permission under another port leads to that other
  port (`TurnRuns.BoundChannelReachesPeer`, `TurnRuns.BindKeepsOldPort`).
* A port range that ends at 65535 and does not begin at 0 wraps to port 0, the default range included
  (`PortAllocator.PortsStayInRange`, `PortAllocator.DefaultRangeHandsOutZero`).
* A KNX time with a weekday above 3 is accepted by the encoder and loses its top weekday bit in the
  decoder, and a string of more than 14 characters is cut (`KnxFrame.ValueSurvives`).
* Dates from 2000 on are written with the years left to 2089 where data point type 11.001 has the year of
  the century (`KnxValues.DateOctets`).
* The KNX receive loop moves two octets past a 0x06 that begins no header and misses a frame right behind it
  (`KnxFraming.FrameIsDispatchedUnlessHidden`, `KnxFraming.LoneSizeOctetHidesFrame`).
* A KNX header with total length zero stops the receive loop from ever advancing
  (`KnxFraming.LoopsExactlyOnZeroLength`, `KnxFraming.ZeroLengthDatagram`).
* The AQM ring loses or stalls messages when the receiver fills it up, folds its index onto an
  unhandled slot 0, or is overtaken by the handler between its two index assignments
  (`AqmRing.HandledInArrivalOrder`, `AqmRing.TornAddSticks`, `AqmRing.StuckForever`).
* The AQM scanner skips a frame when octets before it look like the beginning of another one, as a single
  0xFA does (`AqmScanner.FrameIsReportedUnlessHidden`, `AqmScanner.LoneStartHidesFrame`).
* The file cipher does not restore an empty file: fifteen octets come back (`ChunkedCipher.FileRoundTrip`).
* A pass over the delayed scenes drops items when the run flag falls during it
  (`DelayedScenes.PassConserves`).
* The gateway's own packing of group addresses keeps four bits of the main group where the database
  code keeps five (`GroupAddress.GatewayPackingLosesTopBit`).

## Model

| member | source | states |
|---|---|---|
| TurnModel.GrantedLifetime | tshome-p2p-server-standalone/src/pj/allocation.c:184-199 | an ALLOCATE without LIFETIME is granted the default 300 s; one below 30 s is refused, one above 600 s gets 600 s, and any other gets what it asks for |
| TurnTables.AssignChannelAgrees | tshome-p2p-server-standalone/src/pj/allocation.c:1707-1713 | giving a free channel number, the reserved one included, to a permission without one leaves the two tables in agreement, and every number but the reserved one leaves 0xFFFF unbound |
| TurnTables.BindAgrees | tshome-p2p-server-standalone/src/pj/allocation.c:1652-1722 | every ChannelBind leaves the tables in agreement; it leaves 0xFFFF unbound exactly when it asks for another number or the peer has a live channel already |
| TurnTables.StepAgrees | tshome-p2p-server-standalone/src/pj/allocation.c:1052-1124 | while 0xFFFF is unbound and the tables agree, every event leaves them in agreement, and leaves 0xFFFF unbound exactly when it is no granted bind of it; this covers lazy expiry, re-creation, refresh and restore |
| TurnTables.RestoreEmptiesTables | tshome-p2p-server-standalone/src/pj/allocation.c:1443-1478 | in agreeing tables, deleting entries under the keys that their permissions record empties both |
| TurnTables.ReservedGrantBreaksLater | tshome-p2p-server-standalone/src/pj/allocation.c:1055-1077 | an event after which the tables agree but some single later event makes them disagree is exactly a granted bind of 0xFFFF: the expiry check does not remove the channel entry of that number |
| TurnTables.ReservedChannelDropsPermission | tshome-p2p-server-standalone/src/pj/allocation.c:1055-1077 | three events on a fresh allocation: bind 0xFFFF, send to the peer five minutes later, send on channel 0xFFFF; before the third the peer's packets reach the client, after it they do not, although the permission had five minutes left |
| TurnTables.ReservedChannelSurvivesRestore | tshome-p2p-server-standalone/src/pj/allocation.c:1443-1478 | with 0xFFFF and then another number bound to one peer, a restore leaves the entry of 0xFFFF and ChannelData on it still reaches the peer |
| TurnTables.ChannelsAndPeersBijection | tshome-p2p-server-standalone/src/pj/allocation.c:1652-1722 | in agreeing tables channel numbers and the IPs that carry one are in bijection, the rule of section 11.2 of RFC 5766 at IP level |
| TurnTables.OneChannelPerPeer | tshome-p2p-server-standalone/src/pj/allocation.c:1652-1722 | on an allocation with one bound channel a second bind is granted exactly if it repeats the first, port included, or asks for another number and another IP |
| TurnView.BindView | tshome-p2p-server-standalone/src/pj/allocation.c:1652-1722 | on the plain map a ChannelBind should be refused with 400 when the number belongs to another address or the peer to another number, and otherwise leave the peer a ten-minute permission with that number; effect and answer are these exactly when it is no granted bind of 0xFFFF |
| TurnView.StepRefines | tshome-p2p-server-standalone/src/pj/allocation.c:1052-1124 | an event does to the live permissions what one plain map from IP to permission, from which expired ones vanish by themselves, would do, and sends the same outputs, exactly when it is no granted bind of 0xFFFF |
| TurnRuns.RunAgreesExactly | tshome-p2p-server-standalone/src/pj/allocation.c:1652-1722 | over whole runs: at every moment the tables agree, and would after any one further event, exactly when no event of the run is a granted bind of 0xFFFF |
| TurnRuns.RunRefinesExactly | tshome-p2p-server-standalone/src/pj/allocation.c:1030-1875 | over whole runs: every state and everything sent is that of the plain map machine exactly when no event of the run is such a grant |
| TurnRuns.PermissionHistory | tshome-p2p-server-standalone/src/pj/allocation.c:1116-1124 | in every run, bound reserved numbers included, each permission is as an earlier client event that named its IP left it, with its full time from that event |
| TurnRuns.PeerEntryIsSinceRestore | tshome-p2p-server-standalone/src/pj/allocation.c:1443-1478 | in every run, what the peer table holds was refreshed by that event since the last restore |
| TurnRuns.RelayNeedsRefresh | tshome-p2p-server-standalone/src/pj/allocation.c:1205-1288 | in every run a peer's packet reaches the client unaltered only if such an event refreshed its IP's permission less than its duration ago with no restore since; ChannelData reaches a peer only after such an event, with no restore since if no bind of 0xFFFF was granted; a Send indication relays only to the peer that it permits |
| TurnRuns.PermittedPacketIsRelayed | tshome-p2p-server-standalone/src/pj/allocation.c:1234-1352 | a packet reaches the client exactly when the relay is registered, it is not empty, its IP has a live permission, and it is at most 3000 octets if that permission has a channel |
| TurnRuns.PermissionLasts | tshome-p2p-server-standalone/src/pj/allocation.c:1052-1124 | a permission that has its full time is there with its address and its channel at every moment of that time, in every run without a granted bind of 0xFFFF, unless the tables are restored |
| TurnRuns.PermittedPeerReachesClient | tshome-p2p-server-standalone/src/pj/allocation.c:1724-1850 | the converse of history safety: for five minutes after a CreatePermission or a Send indication that names a peer its packets reach the client, whatever else happens, while the relay is open, the tables are not restored and no bind of 0xFFFF is granted |
| TurnRuns.BoundChannelReachesPeer | tshome-p2p-server-standalone/src/pj/allocation.c:1170-1228 | for ten minutes after a granted ChannelBind, ChannelData on the number goes, cut to its length, to the peer that was bound, or to the port under which its IP already had a permission, under the same conditions |
| TurnRuns.BindKeepsOldPort | tshome-p2p-server-standalone/src/pj/allocation.c:1690-1713 | with a permission for one port of an IP and a channel bound to another port of it, ChannelData goes to the first port |
| TurnRuns.IndicationIsRelayed | tshome-p2p-server-standalone/src/pj/allocation.c:1840-1875 | a Send indication with data goes to the peer it names exactly while the allocation lives and its socket is open |
| TurnRuns.ChannelDataIsRelayed | tshome-p2p-server-standalone/src/pj/allocation.c:1170-1228 | ChannelData goes to the address of the live permission that holds the channel, cut to its length |
| TurnRuns.StepExtends | tshome-p2p-server-standalone/src/pj/allocation.c:1116-1124 | no event takes a permission out of the pool or moves its expiry back, and a peer's packet changes no expiry |
| TurnRuns.ExpiryNeverMovesBack | tshome-p2p-server-standalone/src/pj/allocation.c:1116-1124 | between any two moments of any run, reserved numbers included, each permission's expiry does not decrease, and it is never further ahead than its duration |
| TurnTimer.StepRelayOk | tshome-p2p-server-standalone/src/pj/allocation.c:635-753 | every event keeps: the heap holds the entry iff the timer is set, iff the allocation is alive; the announced second is that of the deadline; outside TIMEOUT the lifetime is zero and socket and key are gone |
| TurnTimer.RunRelayOk | tshome-p2p-server-standalone/src/pj/allocation.c:451-753 | that invariant holds after every prefix of every run |
| TurnTimer.RelayLivesToItsDeadline | tshome-p2p-server-standalone/src/pj/allocation.c:672-753 | over any run without a further refresh or shutdown the relay stays open and untouched until a poll finds the deadline reached, and that poll closes it and schedules destruction 500 ms later |
| TurnTimer.RefreshedRelayLivesItsLifetime | tshome-p2p-server-standalone/src/pj/allocation.c:1568-1643 | from any reachable state a granted refresh announces the asked lifetime, or the one there was, unclamped, and over any run that follows the relay is open for exactly that long |
| TurnTimer.NewRelayLivesItsLifetime | tshome-p2p-server-standalone/src/pj/allocation.c:672-699 | a new allocation is open with the lifetime it was granted for exactly that long: no poll before then touches it and the first one after closes it, over any run without a refresh or a shutdown |
| TurnTimer.NewRelayAnnouncesTimeLeft | tshome-p2p-server-standalone/src/pj/allocation.c:924-955 | until that deadline the answer to each CreatePermission announces the seconds that are left |
| TurnTimer.ResponseSetsDeadline | tshome-p2p-server-standalone/src/pj/allocation.c:1384-1440 | the application's answer to a refresh takes over the lifetime it names, and sets the deadline anew if it carries result data |
| TurnTimer.ShutdownCloses | tshome-p2p-server-standalone/src/pj/allocation.c:635-668 | a shutdown or a refresh that asks for 0 closes the relay and schedules destruction 500 ms ahead, the latter with a success reply; an explicit destroy ends the allocation at once |
| TurnTimer.RequestIsAnswered | tshome-p2p-server-standalone/src/pj/allocation.c:1488-1780 | every request gets one reply: 437 after shutdown and to an ALLOCATE, 400 to unknown and malformed ones and to a bind that conflicts with another, success to all others |
| TurnTimer.ShutdownStep | tshome-p2p-server-standalone/src/pj/allocation.c:635-668 | once destruction is scheduled an event leaves the relay and the deadline as they are, or destroys the allocation at the deadline or on an explicit destroy, leaving no entry in the heap |
| TurnTimer.ShutdownIsAbsorbing | tshome-p2p-server-standalone/src/pj/allocation.c:635-753 | over whole runs: from shutdown on the same deadline stands until the allocation is destroyed, and then no callback is pending |
| TurnTimer.ShutdownRefusesEverything | tshome-p2p-server-standalone/src/pj/allocation.c:1508-1514 | from shutdown on every request is answered 437 and nothing is ever relayed |
| TurnTimer.DestroyedAtMostOnce | tshome-p2p-server-standalone/src/pj/allocation.c:478-521 | an allocation that has been destroyed stays destroyed |
| TurnAllocation.Allocation.CheckPermissionExpiry | tshome-p2p-server-standalone/src/pj/allocation.c:1055-1077 | the lookup's expiry check removes an expired permission from both tables and returns it otherwise |
| TurnAllocation.Allocation.RestoreAllocation | tshome-p2p-server-standalone/src/pj/allocation.c:1443-1478 | the two deletion loops over the tables have the effect of the restore transition |
| TurnAllocation.Allocation.PermitPeer | tshome-p2p-server-standalone/src/pj/allocation.c:1841-1850 | looking up, creating and refreshing a permission on shared objects is the permit transition; the pool only grows, by new objects |
| TurnAllocation.Allocation.OnChannelBind | tshome-p2p-server-standalone/src/pj/allocation.c:1652-1722 | the bind branches on shared permission objects are the bind transition, reply code included |
| TurnAllocation.Allocation.OnCreatePermission | tshome-p2p-server-standalone/src/pj/allocation.c:1724-1775 | the loop over the peer attributes permits each in order; none at all is refused with 400 |
| TurnAllocation.Allocation.ReschedTimeout | tshome-p2p-server-standalone/src/pj/allocation.c:672-699 | rescheduling never finds a destroy timer set and leaves one timeout entry, other allocations' entries untouched |
| TurnAllocation.Allocation.AllocShutdown | tshome-p2p-server-standalone/src/pj/allocation.c:635-668 | shutdown finds no timer left set at its assertion, closes the relay and leaves one destroy entry, or does nothing when one is set |
| TurnAllocation.Allocation.PollTimer | tshome-p2p-server-standalone/src/pj/allocation.c:703-753 | a due entry is taken out of the heap and leads to shutdown or to destruction |
| TurnAllocation.Allocation.OnRxRequest | tshome-p2p-server-standalone/src/pj/allocation.c:1485-1780 | the request handler is the request transition, reply code and announced LIFETIME included, for every request |
| TurnAllocation.Allocation.HandlePeerPkt | tshome-p2p-server-standalone/src/pj/allocation.c:1234-1316 | the packet handler sends what the transition says and touches nothing but expired entries |
| TurnAllocation.Allocation.OnRxFromPeer | tshome-p2p-server-standalone/src/pj/allocation.c:1321-1352 | the socket callback hands on only datagrams of at least one octet, and is the packet transition |
| TurnAllocation.Allocation.HandleEvent | tshome-p2p-server-standalone/src/pj/allocation.c:1130-1875 | each event on the object, with its shared permissions and the shared heap, is one step of the transition function |
| TurnAllocation.HandleRun | tshome-p2p-server-standalone/src/pj/allocation.c:635-753 | from creation on, any run of events on the object ends in the run's state and sends what the run sends, each handler being called in a state its assertions allow |
| PortAllocator.PortRange.BindPort | tshome-p2p-server-standalone/src/pj/allocation.c:817-853 | the bind loop takes consecutive ports of the rotation, stops at the first free one and leaves the rotation behind the last tried |
| PortAllocator.PortClosedForm | tshome-p2p-server-standalone/src/pj/allocation.c:833-835 | for every configuration the k-th port handed out is min + k mod the period, as a 16-bit number; the period is max - min + 1 for a range that rotates and 65536 for one that wraps |
| PortAllocator.PortsStayInRange | tshome-p2p-server-standalone/src/pj/allocation.c:833-835 | all ports handed out lie in the range exactly when the range is not empty and does not both end at 65535 and begin above 0 |
| PortAllocator.WrapsToZero | tshome-p2p-server-standalone/src/pj/allocation.c:833-835 | a range that ends at 65535 and begins above 0 hands out port 0 right after 65535 |
| PortAllocator.DefaultRangeHandsOutZero | tshome-p2p-server-standalone/src/Configs/ConfigP2P.cpp:24-25 | the default range 49152 to 65535 hands out port 0 as its 16385th port |
| PortAllocator.WindowIsPermutation | tshome-p2p-server-standalone/src/pj/allocation.c:833-835 | as many consecutive hand-outs as the period, wherever they start, are each port of the rotation once: the range, or for a range that wraps every port there is |
| KnxDpt.ScaleFloat | tshome-host/tshome-i386.enocean/dev_ctrl/GatewayManager/DPTManager.cpp:125-166 | the two scaling loops and the saturation compute the mantissa and exponent that the float lemmas speak about |
| KnxFloat.EncodeRoundsDown | tshome-host/tshome-i386.enocean/dev_ctrl/GatewayManager/DPTManager.cpp:117-175 | for every n in hundredths, decoding the encoding gives the largest representable number not above n, and saturates at both ends |
| KnxFloat.RoundingIsMonotone | tshome-host/tshome-i386.enocean/dev_ctrl/GatewayManager/DPTManager.cpp:117-175 | a larger number never decodes to a smaller one |
| KnxFloat.RoundingIsIdempotent | tshome-host/tshome-i386.enocean/dev_ctrl/GatewayManager/DPTManager.cpp:328-338 | exactly the representable numbers come back unchanged, and rounding twice is rounding once |
| KnxFloat.RoundingError | tshome-host/tshome-i386.enocean/dev_ctrl/GatewayManager/DPTManager.cpp:117-175 | inside the range the error is less than one unit of the exponent, and at most a 1024th of a nonnegative number |
| KnxFloat.PackedWord | tshome-host/tshome-i386.enocean/dev_ctrl/GatewayManager/DPTManager.cpp:142-166 | the two octets as one word are sign, exponent and the mantissa's eleven low bits, in that order |
| KnxFloat.EveryWordIsPacked | tshome-host/tshome-i386.enocean/dev_ctrl/GatewayManager/DPTManager.cpp:328-338 | every pair of octets is the packing of one mantissa and exponent, the ones by which it is decoded |
| KnxFloat.KnownFloats | tshome-host/tshome-i386.enocean/dev_ctrl/GatewayManager/DPTManager.cpp:117-175 | 21.00 is 0C1A and -30.00 is 8A24, both ways |
| KnxDpt.DPT2Byte | tshome-host/tshome-i386.enocean/dev_ctrl/GatewayManager/DPTManager.cpp:59-294 | the in-place encoder writes the octets of the value, zeros behind them, and refuses what the range and room checks refuse |
| KnxValues.IntegerOctets | tshome-host/tshome-i386.enocean/dev_ctrl/GatewayManager/DPTManager.cpp:91-195 | every integer type is written high octet first, in as many octets as it has, modulo its range |
| KnxValues.TruncDropsFraction | tshome-host/tshome-i386.enocean/dev_ctrl/GatewayManager/DPTManager.cpp:59-294 | a value is converted towards zero, by less than one |
| KnxValues.OnlyFourTypesRefuse | tshome-host/tshome-i386.enocean/dev_ctrl/GatewayManager/DPTManager.cpp:59-294 | only times, dates and access codes can be refused for their value, and the unknown type always is |
| KnxValues.TimesOfDayAreTaken | tshome-host/tshome-i386.enocean/dev_ctrl/GatewayManager/DPTManager.cpp:213-227 | exactly the times of day with a weekday of at most 7 are taken, and written as weekday and hour, minute, second |
| KnxValues.CalendarDaysAreTaken | tshome-host/tshome-i386.enocean/dev_ctrl/GatewayManager/DPTManager.cpp:229-252 | every day of the calendar from 1990 to 2089 is taken, and nothing outside those years, the months and the days 1 to 31 |
| KnxValues.DateOctets | tshome-host/tshome-i386.enocean/dev_ctrl/GatewayManager/DPTManager.cpp:240-247 | year, month and day octets of a date; the year octet is the year of the century exactly before 2000 |
| KnxValues.AccessCodesAreTaken | tshome-host/tshome-i386.enocean/dev_ctrl/GatewayManager/DPTManager.cpp:254-271 | an access code is taken exactly when its six leading hexadecimal digits spell a decimal number |
| KnxKernel.Kernel.GenerateWriteValueMsg | tshome-host/tshome-i386.enocean/dev_ctrl/GatewayManager/KNXKernel.cpp:1154-1237 | the pointer-advancing builder writes exactly the write request for the gateway's channel and counter, whose header, control fields, address and payload the rows below fix, and nothing behind it; a value that is refused leaves the buffer as it was |
| KnxFrame.WriteFrameShape | tshome-host/tshome-i386.enocean/dev_ctrl/GatewayManager/KNXKernel.cpp:1170-1235 | the header's total length is the number of octets written, the length nibble holds 1 + data length, and address and payload stand where the decoder looks |
| KnxFrame.WriteHeadIsRead | tshome-host/tshome-i386.enocean/dev_ctrl/GatewayManager/knxdef.cpp:23-63 | read by the packed structures, the request's headers give the tunnelling service, the number of octets, and the sender's channel id and counter each in its place; the control fields are those of a low-priority request to a group |
| KnxFrame.AlteredDecodes | tshome-host/tshome-i386.enocean/dev_ctrl/GatewayManager/KNXKernel.cpp:2337-2398 | with any message code, TPCI and action in such a frame the decoder finds these, and the same address and value |
| KnxFrame.AdditionalInfoIsSkipped | tshome-host/tshome-i386.enocean/dev_ctrl/GatewayManager/KNXKernel.cpp:2344-2347 | additional information of any length in a frame changes nothing of what is decoded |
| KnxFrame.WriteDecodes | tshome-host/tshome-i386.enocean/dev_ctrl/GatewayManager/KNXKernel.cpp:2337-2398 | a write request whose message code the bus changed decodes to its group address, the action WRITE and the value on the wire |
| KnxFrame.ValueSurvives | tshome-host/tshome-i386.enocean/dev_ctrl/GatewayManager/DPTManager.cpp:301-414 | for each integer, Boolean, control, date, time, access and string type the decoded value is the sent one if and only if it is in range; times need a weekday of at most 3, strings at most 14 characters |
| KnxFrame.FloatSurvives | tshome-host/tshome-i386.enocean/dev_ctrl/GatewayManager/DPTManager.cpp:328-338 | a float value arrives without its fraction and rounded as the float lemmas say |
| KnxFrame.ReadValueIsStable | tshome-host/tshome-i386.enocean/dev_ctrl/GatewayManager/DPTManager.cpp:301-414 | whatever octets arrive, the value read from them is one that the encoder takes and that arrives unchanged when sent again |
| KnxFrame.InvalidFieldsAreReset | tshome-host/tshome-i386.enocean/dev_ctrl/GatewayManager/DPTManager.cpp:359-394 | received time fields out of range read as 0 and date fields as the first month or day, the others as they are |
| KnxFrame.WriteRoundTrip | tshome-host/tshome-i386.enocean/dev_ctrl/GatewayManager/KNXKernel.cpp:1154-1237 | sent and decoded, for every type: same address, action WRITE, and the same value exactly when it is in range; a 2-octet float as it is rounded |
| KnxKernel.OwnWriteIsQueued | tshome-host/tshome-i386.enocean/dev_ctrl/GatewayManager/KNXKernel.cpp:2337-2515 | end to end: the gateway's own write request, come back as confirmation or indication, is queued for its address and type with the value that was sent, exactly when that is in range |
| KnxKernel.FrameIsActedOn | tshome-host/tshome-i386.enocean/dev_ctrl/GatewayManager/KNXKernel.cpp:2425-2530 | for every message code, TPCI and action: a numbered frame leads to nothing, a write is queued from confirmation and indication, a group response stored from an indication, anything else ignored |
| KnxKernel.AckAnswersWrite | tshome-host/tshome-i386.enocean/dev_ctrl/GatewayManager/KNXKernel.cpp:1239-1259 | the acknowledgement of a write request carries the acknowledgement service and the request's channel id and counter |
| KnxKernel.Kernel.HandleTunnelResponse | tshome-host/tshome-i386.enocean/dev_ctrl/GatewayManager/KNXKernel.cpp:2337-2515 | the receiving handler acknowledges with the frame's own counter, updates the receive counter and does what the decoded frame asks for |
| KnxKernel.NextInCounter | tshome-host/tshome-i386.enocean/dev_ctrl/GatewayManager/KNXKernel.cpp:2400-2424 | the counter's low octet becomes the frame's, or 0 after 255, and only then do the high octets advance |
| KnxFraming.FramesAreFound | tshome-host/tshome-i386.enocean/dev_ctrl/GatewayManager/KNXKernel.cpp:2062-2217 | after a prefix without 0x06, the frames of any concatenation headed with their true lengths are dispatched once each, in order, and the whole buffer counts as handled |
| KnxFraming.CutFrameIsDropped | tshome-host/tshome-i386.enocean/dev_ctrl/GatewayManager/KNXKernel.cpp:2062-2217 | behind complete frames a frame cut off by the end of the buffer is dropped and reported as handled, and at most six octets are left instead |
| KnxFraming.FrameIsDispatchedUnlessHidden | tshome-host/tshome-i386.enocean/dev_ctrl/GatewayManager/KNXKernel.cpp:2062-2217 | behind arbitrary octets a scan that returns has dispatched a whole frame exactly when, at every position that the loop comes to before it, there is neither 0x06 right before the frame nor a header whose length is zero or reaches beyond the frame's first octet |
| KnxFraming.LoneSizeOctetHidesFrame | tshome-host/tshome-i386.enocean/dev_ctrl/GatewayManager/KNXKernel.cpp:2062-2217 | a single 0x06 right before a frame hides it |
| KnxFraming.LoopsExactlyOnZeroLength | tshome-host/tshome-i386.enocean/dev_ctrl/GatewayManager/KNXKernel.cpp:2062-2217 | the receive loop iterates without end exactly when after some iterations it stands at a header whose length field is zero |
| KnxFraming.ZeroLengthDatagram | tshome-host/tshome-i386.enocean/dev_ctrl/GatewayManager/KNXKernel.cpp:2062-2217 | the datagram 06 10 04 20 00 00 00 keeps the loop at position 0 after any number of iterations |
| KnxFraming.NonzeroLengthsReturn | tshome-host/tshome-i386.enocean/dev_ctrl/GatewayManager/KNXKernel.cpp:2062-2217 | on any buffer in which no header has length zero the scan returns |
| KnxFraming.NonzeroLengthsLeave | tshome-host/tshome-i386.enocean/dev_ctrl/GatewayManager/KNXKernel.cpp:2062-2217 | on any such buffer the loop is left after at most one iteration per octet and one more |
| KnxFraming.WriteFrameIsFrame | tshome-host/tshome-i386.enocean/dev_ctrl/GatewayManager/knxdef.cpp:23-31 | the gateway's own write requests are frames with their true length |
| KnxKernel.Kernel.ExecRecvMsgAction | tshome-host/tshome-i386.enocean/dev_ctrl/GatewayManager/KNXKernel.cpp:2062-2217 | on any buffer, watched for any number of iterations, the loop is left exactly when the iteration stops, has then dispatched what the scan finds, and reads nothing past the buffer |
| IpAddress.Ip2Uint | tshome-host/tshome-i386.enocean/dev_ctrl/GatewayManager/knxdef.cpp:102-136 | the loop over value, result and count is the scan that the round trip speaks about, status included |
| IpAddress.IpRoundTrip | tshome-host/tshome-i386.enocean/dev_ctrl/GatewayManager/KNXKernel.cpp:2226-2228 | every 32-bit address printed as a dotted quad is read back with status 0 |
| IpAddress.ScanAnyQuad | tshome-host/tshome-i386.enocean/dev_ctrl/GatewayManager/knxdef.cpp:102-136 | any four 32-bit numbers with single non-digits between them are read, each by its low octet |
| IpAddress.FoundFour | tshome-host/tshome-i386.enocean/dev_ctrl/GatewayManager/knxdef.cpp:102-136 | four numbers are found, and the status is 0, exactly when the text has three characters that are no digits |
| GroupAddress.GetKnxGroupInfo | tshome-host/tshome-i386.enocean/host_db_op/ts_db_protocol_infos.c:60-95 | the token loop computes the address that the first three tokens of the text denote |
| GroupAddress.GroupRoundTrip | tshome-host/tshome-i386.enocean/host_db_op/ts_db_protocol_infos.c:11-26 | every 16-bit address printed in three parts, and in two, is read back |
| GroupAddress.PackedBits | tshome-host/tshome-i386.enocean/host_db_op/ts_db_protocol_infos.c:84-94 | the parts of any text are or-ed bit by bit as 16-bit numbers |
| GroupAddress.KnownAddress | tshome-host/tshome-i386.enocean/host_db_op/ts_db_protocol_infos.c:60-95 | 1/2/3 is 0x0A03 and 1/2 is 0x0802, both ways |
| GroupAddress.GatewayPackingLosesTopBit | tshome-host/tshome-i386.enocean/dev_ctrl/GatewayManager/knxdef.cpp:65-100 | the gateway's own unpacking and packing keeps a word exactly when it is below 0x8000, in three segments and in two |
| DecimalText.AtoiPrint | tshome-host/tshome-i386.enocean/host_db_op/ts_db_protocol_infos.c:74-81 | reading a printed int gives it back, whatever follows that is no digit |
| DecimalText.KnownSpacedText | tshome-host/tshome-i386.enocean/host_db_op/ts_db_protocol_infos.c:74-81 | white space and a plus sign are skipped, and reading stops at the first other character |
| DecimalText.KnownText | tshome-host/tshome-i386.enocean/host_db_op/ts_db_protocol_infos.c:74-81 | -2047 in full, printed and read |
| AqmScanner.ScanGoesOn | tshome-host/tshome-i386.enocean/dev_ctrl/AQM_1000/AQM_1000.cpp:311-420 | more input does not change what has been scanned; the scan goes on where it stopped |
| AqmScanner.IncrementalIsBatch | tshome-host/tshome-i386.enocean/dev_ctrl/AQM_1000/AQM_1000.cpp:289-423 | for every split of a stream into chunks the successive calls report exactly the states, in order, that one scan of the whole stream reports |
| AqmScanner.FramesAreReported | tshome-host/tshome-i386.enocean/dev_ctrl/AQM_1000/AQM_1000.cpp:305-414 | after octets without 0xFA the frames of any stream of valid frames are each reported once, in order, with nothing left over |
| AqmScanner.ReportsAreOfStarts | tshome-host/tshome-i386.enocean/dev_ctrl/AQM_1000/AQM_1000.cpp:305-414 | on any octets at all the scan reports exactly the frames at the positions where it finds one, in order |
| AqmScanner.FrameIsReportedUnlessHidden | tshome-host/tshome-i386.enocean/dev_ctrl/AQM_1000/AQM_1000.cpp:311-338 | behind arbitrary octets a frame is reported exactly when, at every position that the scan comes to before it, there is not 0xFA right before the frame, nor 0xFA 0xF0 with 0x05 eleven octets on and the frame beginning within these twelve |
| AqmScanner.FrameBehindQuietOctetsIsReported | tshome-host/tshome-i386.enocean/dev_ctrl/AQM_1000/AQM_1000.cpp:311-338 | a frame with no 0xFA among the eleven octets before it is reported, whatever comes before those |
| AqmScanner.LoneStartHidesFrame | tshome-host/tshome-i386.enocean/dev_ctrl/AQM_1000/AQM_1000.cpp:320-324 | a single 0xFA right before a frame hides it |
| AqmScanner.BuiltFrameIsRead | tshome-host/tshome-i386.enocean/dev_ctrl/AQM_1000/AQM_1000.cpp:340-400 | a frame that any set of sensors sends passes the checks and is read as the values of the installed ones and zero for the others; one without sensors reports nothing |
| AqmScanner.SampleFrameIsRead | tshome-host/tshome-i386.enocean/dev_ctrl/AQM_1000/AQM_1000.cpp:305-400 | one frame in full, checksum included, with its readings |
| AqmMonitor.Monitor.GetCheckCode | tshome-host/tshome-i386.enocean/dev_ctrl/AQM_1000/AQM_1000.cpp:277-287 | the checksum loop computes the sum of the octets modulo 256 |
| AqmMonitor.Monitor.ScanBuffer | tshome-host/tshome-i386.enocean/dev_ctrl/AQM_1000/AQM_1000.cpp:305-414 | the scanning loop over the buffer finds the reports and the stopping point of the scan |
| AqmMonitor.Monitor.HandleMessage | tshome-host/tshome-i386.enocean/dev_ctrl/AQM_1000/AQM_1000.cpp:289-423 | a call reports the scan of the carried octets followed by the message behind the earlier reports, each with the message's port, never cuts a message of at most 255 octets, and carries fewer than twelve octets on |
| AqmMonitor.Monitor.AddData | tshome-host/tshome-i386.enocean/dev_ctrl/AQM_1000/AQM_1000.cpp:138-154 | a message joins the queue, cut to 255 octets, unless three wait already: then the ring looks empty |
| AqmMonitor.Monitor.DoHandleWork | tshome-host/tshome-i386.enocean/dev_ctrl/AQM_1000/AQM_1000.cpp:204-235 | all waiting messages are handled once, in arrival order, around the end of the ring; the reports grow, by ones of those messages' ports |
| AqmMonitor.HandlingIsOneScan | tshome-host/tshome-i386.enocean/dev_ctrl/AQM_1000/AQM_1000.cpp:204-235 | handling messages one by one reports what one scan of all their octets reports |
| AqmMonitor.ReportsNameTheirPort | tshome-host/tshome-i386.enocean/dev_ctrl/AQM_1000/AQM_1000.cpp:398-403 | in any sequence of messages the reports that a message adds are all of that message's port |
| AqmMonitor.Monitor.ReportsAreOneScan | tshome-host/tshome-i386.enocean/dev_ctrl/AQM_1000/AQM_1000.cpp:289-423 | in every valid state of the object all reports so far are those of one scan of all handled octets |
| AqmRing.HandledInArrivalOrder | tshome-host/tshome-i386.enocean/dev_ctrl/AQM_1000/AQM_1000.cpp:138-235 | in every interleaving of the two threads, with AddData's two index assignments as separate steps, handled messages followed by waiting ones are the added ones in order at every moment, exactly when nobody stores onto the slot before the read index, folds the index of a full ring onto read index 0, or handles the last slot before the fold |
| AqmRing.ReportsOfRun | tshome-host/tshome-i386.enocean/dev_ctrl/AQM_1000/AQM_1000.cpp:138-235 | in such a run the reports are one scan of the octets of the messages handled so far, a prefix of those added |
| AqmRing.TornAddSticks | tshome-host/tshome-i386.enocean/dev_ctrl/AQM_1000/AQM_1000.cpp:145-149 | twelve steps from the start, with never more than three messages waiting, after which the read index stands at 4: the handler has overtaken the fold |
| AqmRing.StuckForever | tshome-host/tshome-i386.enocean/dev_ctrl/AQM_1000/AQM_1000.cpp:204-235 | from read index 4 on no run handles a message again, whatever is added |
| AqmRing.WokenHandlerDrains | tshome-host/tshome-i386.enocean/dev_ctrl/AQM_1000/AQM_1000.cpp:204-235 | woken while nothing is added the handler takes every waiting message, in order, and falls asleep with the ring empty |
| ChunkedCipher.CountRoundsUp | tshome-p2p-server-standalone/src/common/aes_tools.c:76-91 | the chunk count rounds the length up to whole chunks of fifteen |
| ChunkedCipher.UnitRoundTrip | tshome-p2p-server-standalone/src/common/aes_tools.c:109-125 | for every invertible block function one unit decrypts to its octets followed by zeros, the mask included |
| ChunkedCipher.UnitIsMasked | tshome-p2p-server-standalone/src/common/aes_tools.c:109-125 | what the block function is given for a chunk: its octets masked with sixteen less their number, then zeros |
| ChunkedCipher.XorBitsAt | tshome-p2p-server-standalone/src/common/aes_tools.c:109-125 | the mask is applied bit by bit, without carry |
| ChunkedCipher.BlockOfChunk | tshome-p2p-server-standalone/src/common/aes_tools.c:130-165 | block i of an encrypted text is that of its i-th fifteen octets, or of what is left |
| ChunkedCipher.DecryptEncrypt | tshome-p2p-server-standalone/src/common/aes_tools.c:130-198 | decryption restores every text of every length under every invertible block function |
| AesTools.Tools.EncryptText | tshome-p2p-server-standalone/src/common/aes_tools.c:130-152 | the buffer loop writes exactly 16 octets per chunk, the encryption of the text, and nothing behind it |
| AesTools.Tools.DecryptText | tshome-p2p-server-standalone/src/common/aes_tools.c:157-198 | despite the overlapping sixteen-octet writes the buffer ends up with the decrypted text and a zero behind it |
| ChunkedCipher.FileDecryptsLikeText | tshome-host/tshome-i386.enocean/encrypt_decrypt/aes_tools.c:198-282 | with the kept length of the last chunk the file version decrypts a non-empty ciphertext as the text version does |
| ChunkedCipher.FileRoundTrip | tshome-host/tshome-i386.enocean/encrypt_decrypt/aes_tools.c:198-282 | encrypting and decrypting a file restores it exactly when it is not empty |
| AesTools.Tools.EncryptWhole | tshome-host/tshome-i386.enocean/encrypt_decrypt/aes_tools.c:224-252 | the reading loop encrypts the whole file and reports the length of its last chunk |
| AesTools.Tools.DecryptWhole | tshome-host/tshome-i386.enocean/encrypt_decrypt/aes_tools.c:253-269 | the reading loop decrypts the whole file from that length |
| ByteSwap.BaseSwap | tshome-p2p-server-standalone/src/common/mybyteswap.c:33-44 | or-ing shifted octets accumulates the signed 64-bit number that up to eight octets spell, high octet first |
| ByteSwap.IntRoundTrip | tshome-p2p-server-standalone/src/common/mybyteswap.c:52-55 | every int written high octet first comes back from btoi |
| ByteSwap.ShortRoundTrip | tshome-p2p-server-standalone/src/common/mybyteswap.c:57-60 | every short written high octet first comes back from btos |
| ByteSwap.SwapReverses | tshome-p2p-server-standalone/src/common/mybyteswap.c:8-18 | the 64-bit swap reverses the octets and undoes itself |
| IpcDatagram.FillInfLearnRes | tshome-p2p-server-standalone/src/datagram/IPCProtocolManager.c:528-561 | the filled buffer is the header with its recomputed length, the sealed home id and the fixed fields, and nothing else changes |
| IpcDatagram.ParseInfLearnReq | tshome-p2p-server-standalone/src/datagram/IPCProtocolManager.c:493-525 | the parser's advancing index reads the fields of the datagram, for any length of the home id text |
| IpcDatagram.InfLearnRoundTrip | tshome-p2p-server-standalone/src/datagram/IPCProtocolManager.c:493-561 | for every int home id, gateway id and key and every channel, the parser reads back what was filled, under any invertible block function |
| IpcDatagram.FillHostServRes | tshome-p2p-server-standalone/src/datagram/IPCProtocolManager.c:224-254 | the host service answer: header with recomputed length, sealed home id, user name, state and three zeros |
| IpcDatagram.ParseHostServReq | tshome-p2p-server-standalone/src/datagram/IPCProtocolManager.c:195-221 | the parser's advancing index reads home id, user name and state, an empty home id text included |
| IpcDatagram.HostServRoundTrip | tshome-p2p-server-standalone/src/datagram/IPCProtocolManager.c:195-257 | for every int home id, user name and state the parser reads back what was filled |
| IpcDatagram.LengthAnnounced | tshome-p2p-server-standalone/src/datagram/IPCProtocolManager.c:234-236 | the length put in the header is, read from the wire, the number of octets behind the header |
| IpcDatagram.HeaderIsRead | tshome-p2p-server-standalone/src/datagram/IPCProtocolManager.c:174-184 | laid over a filled datagram the declared header structure gives back every field of the header: start, protocol, length, serial number, function code, type and space |
| IpcDatagram.InfLearnLayout | tshome-p2p-server-standalone/src/datagram/IPCProtocolManager.c:528-561 | where gateway id, channel, key and result lie in an infrared learning answer, numbers high octet first |
| IpcDatagram.HostServLayout | tshome-p2p-server-standalone/src/datagram/IPCProtocolManager.c:224-254 | where user name, state and the three zeros lie in a host service answer |
| NodeList.List.AddTail | tshome-host/tshome-i386.enocean/dev_ctrl/GatewayManager/NodeList.cpp:16-30 | appends to the chain and keeps head, tail, count and links in agreement |
| NodeList.List.AddHead | tshome-host/tshome-i386.enocean/dev_ctrl/GatewayManager/NodeList.cpp:32-50 | prepends to the chain and keeps them in agreement |
| NodeList.List.DeleteHead | tshome-host/tshome-i386.enocean/dev_ctrl/GatewayManager/NodeList.cpp:52-68 | removes the first node, the last one included |
| NodeList.List.GetAndSeparateHeader | tshome-host/tshome-i386.enocean/dev_ctrl/GatewayManager/NodeList.cpp:80-98 | returns the first node with a clear link and leaves the rest, or nothing |
| DelayedScenes.SceneKernel.DoDelayItemRequest | tshome-host/tshome-i386.enocean/dev_ctrl/GatewayManager/SceneKernel.cpp:235-274 | the pass over the linked queue sends and keeps what the pass function says, on nodes it had before |
| DelayedScenes.SceneKernel.AddDelayItemRequestNode | tshome-host/tshome-i386.enocean/dev_ctrl/GatewayManager/SceneKernel.cpp:1115-1136 | a request joins the end of the queue with its due time, unless the service has stopped |
| DelayedScenes.PassConserves | tshome-host/tshome-i386.enocean/dev_ctrl/GatewayManager/SceneKernel.cpp:235-274 | a pass sends or keeps every item exactly when the service keeps running through it |
| DelayedRuns.PassKeepsOrder | tshome-host/tshome-i386.enocean/dev_ctrl/GatewayManager/SceneKernel.cpp:248-271 | a pass sends in queue order and keeps in queue order |
| DelayedRuns.PassDecides | tshome-host/tshome-i386.enocean/dev_ctrl/GatewayManager/SceneKernel.cpp:250-268 | a running pass sends an item if it is due by the reading taken for it and keeps it otherwise |
| DelayedRuns.EachSentOnce | tshome-host/tshome-i386.enocean/dev_ctrl/GatewayManager/SceneKernel.cpp:235-274 | in every run each added item is sent at most once; it no longer waits exactly when it was sent, at the first pass whose reading had reached its due time |
| DelayedRuns.DueAsAsked | tshome-host/tshome-i386.enocean/dev_ctrl/GatewayManager/SceneKernel.cpp:1115-1136 | in every run the n-th item is the n-th request that was added, due its delay after its addition |
| DelayedRuns.HandleRun | tshome-host/tshome-i386.enocean/dev_ctrl/GatewayManager/SceneKernel.cpp:235-274 | any run of additions and passes on the object, from its creation on, leaves the queue and sends the items of the run that these results speak of |
| CircularList.NextAndPrevAreInverse | tshome-host/tshome-i386.enocean/common/list.h:53-55 | in a ring next and prev lead within the ring and undo each other |
| CircularList.InsertBetween | tshome-host/tshome-i386.enocean/common/list.h:81-87 | inserting between two neighbours makes the ring with the node at that place |
| CircularList.ListAdd | tshome-host/tshome-i386.enocean/common/list.h:97-99 | the new entry comes right behind the head |
| CircularList.ListAddTail | tshome-host/tshome-i386.enocean/common/list.h:109-111 | the new entry comes last |
| CircularList.ListDel | tshome-host/tshome-i386.enocean/common/list.h:120-135 | the ring without the entry, whose pointers are poisoned |
| CircularList.ListDelInit | tshome-host/tshome-i386.enocean/common/list.h:141-144 | the ring without the entry, which becomes a ring of its own |
| CircularList.ListMove | tshome-host/tshome-i386.enocean/common/list.h:151-154 | the entry leaves its ring and comes right behind the head of another, or of the same |
| CircularList.ListMoveTail | tshome-host/tshome-i386.enocean/common/list.h:161-165 | the entry leaves its ring and comes last in another, or in the same |
| CircularList.ListEmpty | tshome-host/tshome-i386.enocean/common/list.h:171-173 | a list is found empty exactly when its ring is the head alone |
| CircularList.ListSpliceInit | tshome-host/tshome-i386.enocean/common/list.h:175-210 | all entries of one list come right behind the head of the other, in order, and the emptied head is a list again |
| CircularList.Sweep | tshome-host/tshome-i386.enocean/host_db_op/sqlite3_ctrl.c:199-210 | the sweep that unlinks as it goes visits every entry once, in order, ends, and leaves the list empty |
| ConnectionRegistry.ScanList | tshome-host/tshome-i386.enocean/host_db_op/sqlite3_ctrl.c:67-78 | the scan finds the connection of the thread's first entry that has one |
| ConnectionRegistry.StepIsConsistent | tshome-host/tshome-i386.enocean/host_db_op/sqlite3_ctrl.c:53-107 | no step of any thread makes a second entry of a thread, an entry without a connection, or an answer other than the registered one |
| ConnectionRegistry.OneConnectionPerThread | tshome-host/tshome-i386.enocean/host_db_op/sqlite3_ctrl.c:53-107 | in every interleaving the list has at most one entry per thread, and all successful calls of a thread return the same connection |
| ConnectionRegistry.RegisteredForGood | tshome-host/tshome-i386.enocean/host_db_op/sqlite3_ctrl.c:53-107 | once a thread's connection is registered all its later calls return it, whatever the other threads do |
| ConnectionRegistry.ThreadsAreIndependent | tshome-host/tshome-i386.enocean/host_db_op/sqlite3_ctrl.c:53-107 | in every interleaving a thread's registered connection and the answers of its calls are those that its own steps give when taken alone |
| ConnectionRegistry.CallRegisters | tshome-host/tshome-i386.enocean/host_db_op/sqlite3_ctrl.c:53-107 | a call, interleaved with others in any way, returns the registered connection or registers and returns the one it opens; it fails only if the opening or the entry fails or the connection is null |
| ConnectionRegistry.Registry.GetDbConn | tshome-host/tshome-i386.enocean/host_db_op/sqlite3_ctrl.c:53-107 | a whole call on the list object has that result and touches no other thread's entry |

## Left out

- The network: sockets, the I/O queue, STUN attributes and credentials. Handlers receive parsed messages, peer attributes come in order, and a send is an output; whether the network accepts it is not modelled.
- Failure of a permission allocation, of the timer heap and of `pj_sock_socket`: the runs start from a successful create_relay.
- Several allocations at once: one allocation is modelled, with a timer heap shared with others whose entries every handler leaves alone. Its tables may be restored at any moment (the Restore event), which covers the restore that another allocation's refresh or timeout triggers; the application callbacks that choose the target are not modelled.
- Ports of peers as keys: the peer table is keyed by IP alone, so the claims about peers are at IP level.
- The ALLOCATE request after its lifetime check: `TurnModel.GrantedLifetime` is the lifetime, the other attributes are checks with one error reply each.
- The TCP listener, the client list and the database callbacks of the server.
- TurnAllocation.Allocation.OnRxRequest: the BANDWIDTH attribute and the result that the application attaches to a reply are not modelled.
- KnxDpt.DPT2Byte: the 4-octet float is not modelled, because its octets are whatever lies in memory.
- The DataArea union: the data area is a record of which each data point type uses one part.
- Conversion of a double outside the range of int, and overflow of `(int) value * 100` in the float encoder: integers are unbounded there, and the fraction is dropped before the multiplication as the code does.
- One choice of plain char for the whole program: the monitor's buffer is declared char and its comparisons with 0xFA and 0xF0 can only succeed when char is unsigned, so its octets are taken as 0 to 255; the KNX decoder of 8-bit signed values casts to char and means signed, so it is taken as signed there. Each part is modelled for the platforms on which it works, and no single build satisfies both.
- A stop of the monitor while it drains its ring, and a missing report callback: the run flag stays set and the callback is there.
- KNX reconnection, heartbeat and search messages, and the handling of received acknowledgements: the receive loop records which frames it hands to which service. The branch of the tunnel handler that compares counters never discards a frame, since the counter is set from the frame first, and is not modelled.
- `KnxKernel.Kernel.HandleTunnelResponse`: the code trusts the additional-information length and the length nibble, so the frame has to be as long as they say.
- AES itself: an invertible function on blocks of sixteen octets. Key setup and the OpenSSL interface are left out.
- Reading and writing of files by the file cipher: a file is the sequence of its octets, and opening does not fail.
- atoi on numbers outside the range of int, where C leaves the result open: the number stays exact.
- Memory allocation failures in the datagram code, and the other datagrams of the manager, which repeat the same patterns.
- `GroupAddress.GetKnxGroupInfo`: texts of more than fifteen characters, which the code copies into sixteen octets without a check, are excluded.
- `IpAddress.Ip2Uint`: texts of more than 31 characters are excluded in the same way.
- The locks of the scene queue: additions and passes are atomic because both hold the mutex. Requests are numbered in DelayedRuns so that equal ones can be told apart; the queue never looks at them.
- Freeing of list nodes: a deleted node is one that no list reaches; the poison pointers of list.h are null.
- sc_close beside running calls: the registry runs have no close, and the sweep that sc_close performs is `CircularList.Sweep`.
- Auxdio and Backaudio parsers, scene conditions, SQL, XML import, web pages, JSON, configuration, logging, serial and infrared drivers.
