# NKernel: a verified model of its packet path

NKernel is a bare-metal x86-64 router: it polls Intel E1000 interfaces, translates TCP and UDP
endpoints (NAPT, sections 2.2, 4.1 and 4.2 of RFC 3022), routes, decrements TTL, recomputes the IPv4
checksum and sends the same buffer out again. This project models that path and the parts it rests
on, and proves what holds on every input, on every run, and on every interleaving with the devices.

Five layers, each a module or two:

- **Arithmetic.** `Bytes` holds the machine integers and the little-endian loads and stores;
  `Checksum` the one's-complement sums of `ip_checksum` and the incremental updates of
  `csum_replace2` and `csum_replace4`.
- **Translation.** `Packet` rewrites one endpoint of a frame in place. `NatTable` is one step of the
  session table, `NatEngine` the program's own arrays and counters, `NatRuns` the table over whole
  runs. `Validity` and `Transport` say what the receiver's checks of the IPv4 header and of the TCP
  or UDP segment make of the rewritten frame, `RoundTrip` what comes back, and `Counterexamples`
  two packets that come to grief, and a run of the router that spoils a frame.
- **Forwarding.** `Routing`, `FastPath`, `Pipeline` and `Router` are `add_route`, `route_lookup` and
  `nk_fastpath_rx_callback`.
- **Rings.** `Rings` and `Machine` are a state machine in which every statement of `e1000_poll` and
  `e1000_send_packet` and every write of a device is a step of its own; a run is any list of such
  steps over any number of interfaces. `Timeouts` says what an expired wait leads to, `Waits`
  how long the driver waits. `Driver` is the poll loop as a loop, with device steps between its statements. `EndToEnd` puts the fast path
  behind the rings, with a routing table that may change between any two frames.
- **Around it.** `Ata` and `Config` (saving and loading the routing table), `Heap` (`kmalloc` and the
  ring memory), `Paging` (the page tables of `_start`), `Files` (file table and editor) and
  `Completion` (tab completion).

Each imperative operation is a method whose contract equates its effect with a function of the old
state; the lemmas are about those functions. The central results:

- Whatever the interleaving, frames reach the callback exactly once and in order, and what an
  interface puts on the wire is what a *sequential* run of the fast path over the accepted frames
  would send (`DeliveredInOrder`, `SentAsDecided`, `WireCarriesForwardedFrames`). Expired waits do
  not change that, as long as no tail write finds a frame of an earlier iteration unsent; and that
  condition is exact (`SafeToGiveBack`); a driver that checked two done bits would meet it
  (`GuardSuffices`).
- A wait ends with the done bit or after a million turns. As long as the devices are not out of steps
  and serve every interface within a million of them, no wait expires, and after every poll all that
  was decided is on the wire (`AwaitDone`, `Send`, `Poll`).
- Every byte and the end of every frame, whatever its header, follow from sessions, routes (by the
  bits of the addresses) and TTL (`FrameMade`, `LookupIsFirst`).
- The session table behind the rings is the one that the engine's own calls build, so every theorem
  about runs of the engine holds of it (`TableIsRun`, `SessionsBehindRings`); and the answer to a
  frame transmitted under a session is transmitted, on the interface it came in by, addressed to the
  host of the session, whatever lies between (`AnswerReaddressed`, `ConversationInTrace`,
  `ConversationOnTheWire`).
- The session table is always the list of the first 2048 distinct keys offered, slot i owning port
  50000 + i, so ports never collide and the port counter never wraps (`FirstKeysMapped`,
  `PortsNeverCollide`).
- An answer to a translated packet comes back, after any other traffic, to the byte, exactly when the
  original checksums are not among the few values the arithmetic cannot restore (`AnswerReturns`).
- Incremental updates equal recomputation (equation 3 in section 3 of RFC 1624), with the exact
  exception (`Csum2Recomputes`), and for every IPv4 header without exception
  (`RewriteKeepsHeaderValid`); a transport checksum that is right on arrival is right on departure
  (`RewriteKeepsSegmentValid`, `SegmentSurvives`).

Where the code falls short of what its comments or its callers suggest, the code is modelled as it is
and the exact condition is stated:

- a UDP or TCP checksum may be translated to 0, the mark of an absent UDP checksum, and the answer
  is then not restored (`NewL4CsumUndo`, `AnswerReturns`; `ChecksumLost` gives a valid datagram); a
  TCP checksum field of 0 is skipped although TCP has no such convention (`RewriteKeepsSegmentValid`
  says when the segment still verifies; `ZeroChecksumSpoiled` gives one that does not);
- `kmalloc` is right exactly when offset and rounded size do not wrap together (`RightUnlessWrapping`);
- `load` accepts a negative count as small, and the next `add_route` then stores outside the table
  (`LoadedCountUsable`);
- `vfs_create` cuts long names, and a file just created is found again exactly when its name was not
  cut (`CreatedIsFound`);
- after an expired wait the loop writes the tail although its frame may be unsent. That buffer is
  still safe: the device never writes the one at the tail (`BufferOwned`). The tail write of the
  *next* iteration gives it away; if the frame is then still unsent, the device may overwrite it
  (`SafeToGiveBack`). `FrameOverwritten` is a run of the router in which it does: from every state at
  the first poll in which interface 0 has received nothing, the packet of kernel.c:292-304 twice, two
  expired waits, and up to 32 more packets of its kind;
- a frame is always transmitted on the interface it was received on, so nothing crosses from LAN to
  WAN or back (`TrafficStaysOnInterface`): a translated packet is addressed as it should be and sent
  on the wire it came from;
- the comment at nat.c:14 speaks of a pseudo-random port choice; the code is sequential.

Assumptions taken from outside the program: the little-endian layout and struct padding of x86-64; the
device behaviour of sections 3.2.6 and 3.4 of Intel's 8254x Software Developer's Manual (head equal to
tail means no descriptor is available, one frame per 2048-byte buffer); the table walk of section 4.5 of
volume 3A of the Intel SDM. Lemmas about header fields assume an IHL of at least 5 (section 3.1 of RFC
791), below which the port pointers alias the header; the functions and methods themselves do not.

Run `dafny verify dfyconfig.toml` in this directory to check everything.

## Model

| member | source | states |
|---|---|---|
| Checksum.FoldPreserves | kernel.c:144-146 | the carry loop preserves the sum modulo 65535 and yields 0 only for 0 |
| Checksum.ComputeIpChecksum | kernel.c:138-148 | the two loops terminate and return the complement of the folded 32-bit sum, wrap-around included |
| Checksum.IpChecksumIs | kernel.c:138-148 | up to 65537 half-words it is the complement of the folded sum; a last odd byte does not count |
| Checksum.WordSumBound | kernel.c:139-143 | n half-words add up to at most 65535 n, so the accumulator does not wrap for any buffer of this kernel |
| Checksum.ByteOrderIndependent | kernel.c:138-148 | summing little-endian words and storing little-endian gives the bytes of the network-order computation, section 2(B) of RFC 1071 |
| Checksum.Csum2IsFold | nat.c:21-27 | the two fixed folds always suffice: they agree with the loop fold |
| Checksum.Csum2Recomputes | nat.c:21-27 | the incremental update equals recomputation if and only if the new words do not add up to zero |
| Checksum.Csum4Recomputes | nat.c:29-32 | for an address change it equals recomputation whenever anything else contributes to the sum |
| Checksum.Csum4Undo | nat.c:29-32 | updating and updating back restores a checksum if and only if it is not 0xFFFF |
| Packet.RewriteFields | nat.c:84-104 | the value of every field after a translation, and that only the IP checksum, one address, one port and the transport checksum change |
| Packet.RewriteBytes | nat.c:84-104 | every byte after a translation, for headers of any length nibble: the port is stored last, the transport checksum before it unless what stands there by then is zero |
| Packet.FieldPlaces | nat.c:34-46 | the offsets of the fields, and 10.0.2.15 byte by byte |
| Packet.RewriteInPlace | nat.c:88-104 | the stores into packet memory, in order, aliasing included, have the specified effect |
| NatTable.FindsKey | nat.c:49-78 | the first scan finds the slot of a known key and no other; the second finds the slot after the last session |
| NatTable.FindsPort | nat.c:123-130 | the scan by port and protocol finds slot i if and only if the port is the i-th and the protocol that of session i |
| NatTable.OutboundStep | nat.c:34-107 | one outbound call keeps the table a list of keys, learns at most its own key, succeeds exactly when the key is held, changes nothing otherwise |
| NatTable.InboundStep | nat.c:109-159 | one inbound call learns nothing, succeeds exactly when a session owns the port, and rewrites to the endpoint of that session |
| NatTable.InternalIpFound | nat.c:161-168 | the address of the session that owns the port, 0 if none does |
| NatEngine.Nat.Reset | nat.c:8-12 | `nat_init` establishes the empty table |
| NatEngine.Nat.AllocatePort | nat.c:15-19 | returns the counter and advances it, 65000 being followed by 50000 |
| NatEngine.Nat.Scan | nat.c:51-57 | the linear scan returns the first match |
| NatEngine.Nat.TranslateOut | nat.c:34-107 | table, counters, packet and result are those of the outbound step; the invariant is kept |
| NatEngine.Nat.TranslateIn | nat.c:109-159 | the same for the inbound step; no key is learned |
| NatEngine.Nat.Lookup | nat.c:161-168 | the address of the first slot with that port and protocol, 0 if none |
| NatRuns.RunRepresents | nat.c:34-159 | from any represented state a run only appends sessions: mappings never change |
| NatRuns.FirstKeysMapped | nat.c:49-80 | over every run exactly the first 2048 distinct keys are mapped, in order, to ports 50000 onwards |
| NatRuns.PortsNeverCollide | nat.c:15-19 | over every run keys and external ports are pairwise distinct and the port counter stays at most 52048 |
| NatRuns.EndpointIndependent | nat.c:40-86 | two translated packets, any calls apart, leave with the same port if and only if they share source address, port and protocol (section 4.1 of RFC 4787) |
| NatRuns.Demultiplexes | nat.c:123-168 | inbound translation only goes to an endpoint offered before with that protocol, in the allocated port range, and `nat_get_internal_ip` agrees |
| NatRuns.OtherPortsRefused | nat.c:123-159 | over every run a packet for a port outside the 2048 allocated in order is refused, packet and table staying as they are |
| NatRuns.LastActiveOrdersSessions | nat.c:82-134 | in runs of fewer than 2^32 translations `last_active` is the time of the last use, pairwise distinct and below the clock |
| Validity.HeaderChecksumSum | kernel.c:198-201 | the computed header checksum is the complement of the folded sum of the other words, which is never zero |
| Validity.ValidVerifies | kernel.c:198-201 | a header with the computed checksum passes the receiver's test of RFC 1071 in network byte order |
| Validity.RewriteKeepsHeaderValid | nat.c:88-90 | after a translation the incrementally updated checksum is what `ip_checksum` gives for the new header, for every header of 5 to 15 words |
| Transport.NewL4CsumShift | nat.c:99-102 | a nonzero checksum absorbs the change of endpoint modulo 65535 |
| Transport.RewriteKeepsSegmentValid | nat.c:92-104 | with a nonzero checksum a segment of any length verifies after translation if and only if it did before; with a zero one, exactly when both endpoints have the same sum |
| RoundTrip.NewL4CsumUndo | nat.c:99-154 | translating a transport checksum there and back restores it exactly under a condition on the original alone |
| RoundTrip.AnswerReturns | nat.c:34-159 | the mirrored answer, after any other calls, is translated, unless shorter than 34 bytes; it mirrors the original bytes if and only if the original is reversible under the port that the table before the call gives it |
| Counterexamples.ChecksumLost | nat.c:99-102 | a valid UDP datagram whose checksum is translated to 0, and whose answer never restores it |
| Counterexamples.ZeroChecksumSpoiled | nat.c:92-104 | a valid TCP segment with checksum field 0 that no longer verifies after translation |
| Routing.MaskedEqual | kernel.c:131 | equality under a netmask is agreement on the bits it selects |
| Routing.Lookup | kernel.c:129-136 | the first covering route, or none |
| Routing.LookupIsFirst | kernel.c:129-136 | that is the first route that agrees with the address on every bit of its netmask |
| Routing.BootRouteReaches | kernel.c:286-289 | the route added at boot reaches exactly 192.168.1.x, not 8.8.8.8 |
| Router.Kernel.AddRoute | kernel.c:118-127 | appends while there are fewer than 16 routes, otherwise changes nothing; every other entry of the table stays |
| Router.Kernel.RouteLookup | kernel.c:129-136 | the loop returns the first route that agrees with the address on every bit of its netmask, or the number of routes |
| Router.Kernel.ForwardInPlace | kernel.c:191-207 | the stores of the forwarding branch have the specified effect on the buffer |
| Router.Kernel.RxCallback | kernel.c:153-219 | engine, buffer and verdict are those of the fast-path function |
| FastPath.ForwardedFrame | kernel.c:191-207 | every byte of a forwarded frame: TTL one lower, MAC addresses set, header verifying whatever it was before, all else kept |
| FastPath.IncrementalWouldDo | kernel.c:197-201 | on a valid header the full recomputation equals the incremental update of the TTL word |
| FastPath.Transmitted | kernel.c:188-214 | a transmitted frame has made one hop: TTL one lower and at least 1, verifying header, MAC addresses of the first covering route, untranslated bytes kept |
| FastPath.EveryFrameEnds | kernel.c:153-219 | which of drop, lwIP and transmission every frame ends in, in terms of sessions, routes and TTL |
| FastPath.NoEndlessForwarding | kernel.c:191-195 | a frame fed back any number of times, through any tables, is forwarded at most TTL - 1 times |
| Pipeline.SegmentSurvives | kernel.c:153-214 | a transmitted TCP or UDP segment with nonzero checksum verifies if and only if it did on arrival |
| Pipeline.SourceTranslated | kernel.c:180-218 | a frame from the LAN ends up, sent, dropped or given to lwIP, with the WAN address and the port of its session exactly when the session is held |
| Pipeline.DestinationTranslated | kernel.c:163-218 | a frame from the WAN for the WAN address ends up, whatever becomes of it, with the endpoint of the session that owns its port, and is sent only if there is one; any other keeps its destination, and all keep their source |
| Pipeline.FrameMade | kernel.c:153-219 | every frame, whatever its header: the bytes the session table makes of it, which lwIP is given or which are dropped; or which, one hop further by the first matching route, are sent; and when each happens |
| Pipeline.AnswerReaddressed | kernel.c:153-214 | after a frame received on interface 1 was transmitted under a session, and any NAT calls, an answer received on interface 0 is transmitted exactly if route and TTL permit, addressed to the original host and port, with verifying header and a segment as valid as it was |
| Pipeline.TelnetReachesTheKernel | kernel.c:163-179 | over every run an IPv4 or other frame for port 23 of the WAN address goes to lwIP as it arrived, from any interface |
| Pipeline.LocalFrame | kernel.c:167-218 | a frame not transmitted is as it arrived unless a session was used, and then outside the translated fields |
| Rings.DeviceKeepsRx | e1000.c:152-163 | every device step keeps the receive invariant at every statement of the driver |
| Rings.DriverKeepsRx | e1000.c:247-255 | every driver statement keeps the receive invariant |
| Rings.DeviceKeepsTx | e1000.c:169-179 | every device step keeps the transmit invariant, in particular reception never writes a buffer being sent |
| Rings.DriverKeepsTx | e1000.c:201-218 | every statement of the send routine keeps the transmit invariant |
| Rings.CallbackKeepsRx | e1000.c:248-250 | the callback is given the next accepted frame, bytes and length intact |
| Machine.StepKeeps | e1000.c:201-257 | every step of any party keeps the invariant of all interfaces and the sequential reading of the trace |
| Machine.FreshIdle | e1000.c:154-179 | the rings as initialised, and after any number of completed sends of other memory, satisfy the invariant |
| Machine.DeliveredInOrder | e1000.c:243-257 | over every interleaving, timeouts included, the frames delivered are the first accepted ones in order, carrying exactly the bytes that arrived, at most 31 are pending, and the callback's state is that of a sequential run |
| Machine.RingBetweenIterations | e1000.c:247-255 | between iterations the tail is one behind the cursor, done bits are set on exactly the pending descriptors, and the head is behind them |
| Machine.LostWhenFull | e1000.c:162-163 | with a free receive unit a frame is lost if and only if as many frames are accepted as the ring has room for, 31 more than delivered between iterations; head equals tail exactly then |
| Machine.SentAsDecided | e1000.c:201-219 | as long as no tail write was hasty, expired waits or not, the wire carries the frames the callback decided to send, in order, each once, all but the last two at least; without expired waits all but the one under way |
| Machine.BufferOwned | e1000.c:247-254 | no device step ever writes the buffer at the tail, nor the one under the cursor from the status check on |
| Machine.UnsentIntact | e1000.c:205-219 | as long as no tail write was hasty, what every unsent descriptor points to is the frame queued there; without expired waits transmission is over before the status is cleared |
| Timeouts.SafeToGiveBack | e1000.c:214-253 | after a tail write the wire stays in step whatever the device does next if and only if no frame of an earlier iteration was unsent |
| Timeouts.FloodSpoils | e1000.c:253 | after a hasty tail write one fixed list of device steps overwrites the next frame to be sent with any chosen bytes |
| Timeouts.GuardSuffices | e1000.c:214-253 | if, of the last two descriptors queued, those of earlier iterations are done, the tail write is not hasty and the wire stays in step |
| Timeouts.ImpatienceIsHasty | e1000.c:214-253 | for every callback that sends some frame back, that frame twice and two expired waits lead to a hasty tail write, when nothing has arrived before |
| Timeouts.ImpatienceSpoils | e1000.c:214-253 | that run, continued by the device with frames that differ in one byte, puts a frame on the wire that was not decided on |
| Counterexamples.FrameOverwritten | kernel.c:188-214 | the same for the fast path itself, with a packet to 192.168.1.10 and any routing tables that route it |
| Counterexamples.BootedIsRouted | kernel.c:286-289 | the route added at boot routes that packet |
| Driver.E1000.Send | e1000.c:201-219 | the send routine queues exactly one frame, moves cursor and tail register on by one, delivers nothing; what is queued is what was decided; it returns with the done bit set, or after a million turns with the wait on record as expired |
| Driver.E1000.AwaitDone | e1000.c:214-218 | the wait ends with the done bit, after no more turns than it takes steps of the devices to set it; or after a million turns with the bit clear, and only then is it on record as expired |
| Waits.ServedWait | e1000.c:214-218 | a transmitter that finishes what it is doing, takes the next frame and reports it ends the wait |
| Driver.E1000.Poll | e1000.c:243-257 | the poll loop terminates for any finite device activity between its statements, is a run of the machine, delivers everything accepted before it, and with quiet devices everything; no wait expires while the devices have steps left and serve every interface within a million; and without expired waits everything decided is on the wire |
| EndToEnd.TableIsRun | kernel.c:153-219 | the state behind the callback after any frames is that of the engine after the calls those frames lead to, whatever happens to the routing table meanwhile |
| EndToEnd.SessionsBehindRings | kernel.c:153-219 | over every interleaving the table holds the first 2048 distinct keys of the frames handed over, sessions and ports never collide, inbound frames go to a host that sent one of them, telnet frames reach lwIP, and `last_active` orders by recency |
| EndToEnd.ConversationInTrace | kernel.c:153-214 | in every trace the answer to a frame transmitted under a session is readdressed to the host or meets the end that route and TTL decide, whatever frames lie between |
| EndToEnd.ConversationOnTheWire | e1000.c:201-257 | in every run that answer stands, readdressed to the host, at its place on the wire of the interface it came in by, unless it is among the last two, or a tail write was hasty |
| EndToEnd.TrafficStaysOnInterface | kernel.c:212 | in every run each frame an interface has sent since the first poll is made from one that it accepted itself, and there are no more of them than it accepted |
| EndToEnd.WireCarriesForwardedFrames | e1000.c:201-257 | over every interleaving each frame on the wire is what the fast path, with the table that the frames before have left, makes of an accepted frame of that interface, one hop further |
| Ata.Unpacked | ata.c:42-64 | packing 512 bytes into 256 words and unpacking them loses nothing |
| Ata.Drive.WriteSector | ata.c:49-69 | the addressed sector holds the words buffer[2i] + 256 buffer[2i+1], and no other changes |
| Ata.Drive.ReadSector | ata.c:30-47 | the buffer holds the bytes of the stored words, low byte first |
| Config.SaveThenLoad | cli.c:169-194 | for every table and every count from 0 to 16 loading restores both, through structs, bytes and words |
| Config.LoadedCountUsable | cli.c:188-189 | routes added after loading are all stored inside the table if and only if the loaded word is not negative |
| Config.Save | cli.c:169-178 | only sector 1 changes: count at byte 0, route i at 4 + 16 i as destination, netmask, MAC and padding, zeros from 260 on |
| Config.Load | cli.c:182-191 | takes count and table from those places of any sector 1, the count being 0 when above 16 and not negative |
| Config.RunRefines | cli.c:169-194 | from a zeroed sector every interleaving of adding, saving and loading behaves as two plain lists, the count staying from 0 to 16 |
| Heap.RightUnlessWrapping | mm.c:17-28 | a call does what an allocator of 16 MiB should if and only if offset and rounded size do not wrap together; otherwise it hands out the current offset and moves it back |
| Heap.WrappingRequest | mm.c:17-28 | a request that wraps: the second call of the pair returns a block and moves the offset back to 0 |
| Heap.Allocator.Init | mm.c:12-14 | the offset starts at 0 |
| Heap.BlocksDisjoint | mm.c:12-28 | over any sequence of requests that cannot wrap, blocks are in the heap, aligned to 16 and pairwise disjoint |
| Heap.Allocator.Alloc | mm.c:17-28 | result and new offset, with 64-bit wrap-around |
| Heap.BuffersApart | e1000.c:151-169 | no byte of a receive buffer so placed lies in another buffer or a ring |
| Heap.Allocator.AllocateRings | e1000.c:151-169 | for up to four interfaces no allocation fails and all rings and buffers lie side by side |
| Paging.BuildTables | boot.s:50-76 | every word of the three tables after the stores and the counted loop |
| Paging.IdentityMap | boot.s:50-80 | the processor's walk maps every address below 4 GiB to itself, writable, and no other canonical address |
| Files.CreatedIsFound | vfs.c:28-61 | a new file takes the first free slot, empty, under the first 31 characters of its name; it is found under its name if and only if that has fewer than 32 |
| Files.TypedHolds | edit.c:43-67 | a keystroke changes the text as specified and keeps size below 4096 and the terminator in place |
| Files.SessionsRefine | edit.c:31-67 | over every session with short names the slots behave as a list of files with distinct names and texts that are folds of the keys |
| Files.Editor.Reset | vfs.c:8-26 | `vfs_init` leaves exactly the two default files |
| Files.Editor.OpenFile | vfs.c:28-35 | the first used slot of that name |
| Files.Editor.CreateFile | vfs.c:37-61 | slots and result of creation, with the bounded copy of the name |
| Files.Editor.Start | edit.c:31-41 | the edited slot and the mode after opening |
| Files.Editor.HandleKey | edit.c:43-67 | the slot and the mode after one key |
| Completion.SameStartIsPrefix | cli.c:594 | `strncmp` over the typed length is the prefix test |
| Completion.CompleteCompletes | cli.c:583-623 | completion comes to the first command that starts with the text; failing that, to the first file in use that starts with the argument of `cat` or `edit`; cut to the buffer; otherwise to nothing |
| Completion.CompletesOnce | cli.c:583-623 | completion only extends the text, stays inside the buffer, and repeating it changes nothing |
| Completion.Autocomplete | cli.c:583-623 | the loops over commands and file slots leave in the buffer what the text comes to, by prefixes and positions, and nothing else in it changes |

## Left out

- SentAsDecided: claims nothing about the wire of an interface after a hasty tail write; SafeToGiveBack shows that the device may then put it out of step.
- UnsentIntact: the same condition.
- WireCarriesForwardedFrames: the same condition.
- TrafficStaysOnInterface: the same condition.
- ConversationOnTheWire: the same condition.
- GuardSuffices: one direction; a done bit not yet written back does no harm either, and SafeToGiveBack has the exact condition.
- LastActiveOrdersSessions: fewer than 2^32 translations, after which the tick counter repeats.
- TranslateOut: the memory behind the packet pointer covers every access, as the 2048-byte receive buffers do; the code checks `len >= 34` only. The same goes for TranslateIn and RxCallback.
- Autocomplete: a text without NUL characters, and a cursor inside the buffer.
- Booted: at least one interface, without which the poll loop has nothing to do, and no expired wait among the sends before the first poll.
- SessionsRefine: names of fewer than 32 characters; CreatedIsFound gives the exact limit.
- BlocksDisjoint: requests that cannot wrap; RightUnlessWrapping gives the exact limit.
- RunRefines: a sector written by `save` only; LoadedCountUsable says which other words are harmless.
- Time: a turn of a wait is at least one step of the devices while they have any left; how long a turn takes is not modelled.
- Re-entry of the poll body by `e1000_handle_interrupt`: one consumer is modelled.
- Frames that lwIP sends by itself through `ethernetif_linkoutput`, and lwIP altogether: delivery to it is a verdict.
- E1000: the rings and the shared memory are sequences in fields that the methods reassign, and the fast path behind them acts in one step; that no device writes its buffer meanwhile is proved by BufferOwned.
- Frames longer than one buffer, other interrupts and the MMIO encoding of registers: the registers are head, tail and status only.
- PCI scan, serial and VGA output, interrupt tables, keyboard map and telnet callbacks: hardware plumbing without further state.
- Longest-prefix matching and choice of the outgoing interface: the code takes the first match and sends on the receiving interface.
- Session expiry: `NAT_TIMEOUT` is declared and never used.
- The remaining commands of the shell and `kfree`: display only, or without effect.
