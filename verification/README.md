# thundermuffin: a verified model

thundermuffin sends muffins: a client streams stamped UDP datagrams or TCP data
for a number of seconds, and a server counts what arrives. This project models
its counting, its wire prefix, its interval reports, its multicast admission and
joins, its interface lookup and its zone start script, and proves what their
results mean.

| file | what it models |
|---|---|
| `MachineInts.dfy` | 64-bit counters: additions keep the low 64 bits, as in a release build |
| `SequenceTracker.dfy` | the UDP loss and reordering tracker, against the trace of arrivals alone |
| `TraceTheorems.dfy` | the tracker over families of traces: reordered, sorted, in order, hostile |
| `Codec.dfy` | the send buffer and the sequence-number prefix, in place |
| `IntervalMeter.dfy` | the once-a-second accounting shared by all four loops |
| `UdpServer.dfy` | the UDP receive loop and its summary |
| `Clients.dfy` | the UDP and TCP send loops |
| `TcpServer.dfy` | the nested receive loop of one TCP connection |
| `Network.dfy` | client, lossy network and server as one transition relation, and its invariant |
| `NetworkTheorems.dfy` | what the counters say about the sender and the network in every reachable state |
| `Addresses.dfy`, `Ssm.dfy` | address classes, SSM range, permitted groups and sources |
| `Admission.dfy` | `Server::validate`, the transport gate, the family filters |
| `MulticastJoin.dfy` | the system calls that open the UDP server's socket, in order |
| `Text.dfy`, `Interfaces.dfy` | interface names and selectors over a list of addresses |
| `MethodScript.dfy` | decoding the configured groups into joiners |

The main results concern the tracker. The receiver keeps a single high-water
mark and never takes a loss back. For a trace whose numbers stay below the
64-bit maximum, its loss counter is the number of missing sequence numbers plus
the number of those that first arrived late, so the true number of gaps lies
between loss minus out-of-order and loss. The same holds of the modelled loop,
of its 64-bit counters, and of every reachable state of the whole system, where
each missing number is one whose every copy was dropped or is still in flight.
On streams with any 64-bit numbers the loss is known exactly too.

The clock, the socket and the network are inputs: a run is given the list of
results of its reads or sends with the clock reading after each, and every
statement is for all such lists. Clock readings need not be monotone anywhere.

## Where a promise fails, and exactly when it holds

* The comment at `app/src/udp.rs:320-323` says `wrapping_add` keeps hostile
  numbers from causing an overflow. It protects the mark. The plain addition to
  the loss counter can still exceed 64 bits, with three datagrams:
  `TraceTheorems.ThreeDatagramsOverflow`. `TraceTheorems.LossOfRun` gives the
  loss of every run by what arrived: what is missing or late among the numbers
  below the maximum, plus, for each datagram numbered with the maximum, its
  distance from the mark it found (a run that starts with the maximum counts no
  loss). `UdpServer.ReportedLossExactIff` concludes that the printed loss is
  exact if and only if that sum fits 64 bits, and `TraceTheorems.LossFitsIff`
  over which sets of numbers every run does.
* A client's final total omits what was sent after the last report.
  `IntervalMeter.ExitTotalExactIff` shows that it is exact for every run if and
  only if the duration is positive; duration 0 is accepted by the command line.
* Validation demands `--multicast-iface` so that the kernel does not choose the
  interface (`app/src/main.rs:225-236`). An IPv4 join still leaves it the choice
  if and only if the selector is 0.0.0.0 or, by the host's address list, stands
  for an interface whose first IPv4 address is 0.0.0.0:
  `MulticastJoin.JoinUnpinnedIff`, with an instance in
  `MulticastJoin.UnpinnedExample`. IPv6 source joins are always pinned.
* The messages in `app/src/main.rs:192-196` name the IPv6 ranges as `ff3x::/32`
  and `ffbx::/32`. The code also takes groups with a nonzero upper byte in the
  second segment, such as ff3e:1200::1. By `Ssm.DocumentedRangeIff` the groups
  taken are the documented ones exactly when that byte is zero;
  `Ssm.OutsideDocumentedRange` is the instance.

## Model

| member | source | states |
|---|---|---|
| SequenceTracker.TrackerMeaning | app/src/udp.rs:324-334 | On every trace below the maximum: the mark is one above the largest number, loss plus strict left-to-right maxima is mark minus first number, out-of-order plus those maxima is the number of datagrams |
| SequenceTracker.OutOfOrderUnlessRecord | app/src/udp.rs:281-284 | A datagram is counted out of order exactly when it does not exceed all before it; loss only grows at one that does |
| SequenceTracker.LossIsMissingPlusLate | app/src/udp.rs:327-333 | Loss is the count of numbers that never arrived plus the count of those whose first arrival was late |
| SequenceTracker.LossExactIffNoneLate | app/src/udp.rs:327-333 | Loss never under-reports the gaps, and equals them if and only if no in-range number first arrives late |
| SequenceTracker.LossAndDuplicatesBalance | app/src/udp.rs:281-333 | Loss plus duplicates equals missing plus late arrivals, over datagrams numbered at least the first |
| SequenceTracker.CountersBracketMissing | app/src/udp.rs:327-333 | The number of real gaps lies between loss minus out-of-order and loss |
| SequenceTracker.LossFits | app/src/udp.rs:320-328 | With numbers below the maximum the loss fits 64 bits after every datagram |
| TraceTheorems.PermutationBalance | app/src/udp.rs:136-140 | Any reordering of 0..n: out-of-order equals loss plus the first number received |
| TraceTheorems.SortedOrderLosesLeast | app/src/udp.rs:327-333 | Among orders that start with the minimum, sorted order has the least loss, exactly the gaps; another order ties if and only if nothing first arrives late |
| TraceTheorems.NoneOutOfOrderIffIncreasing | app/src/udp.rs:329-331 | Out-of-order stays 0 if and only if the trace is strictly increasing |
| TraceTheorems.IncreasingLoss | app/src/udp.rs:327-333 | On an increasing trace, loss is the count of absent numbers strictly between first and last |
| TraceTheorems.SilentIffConsecutive | app/src/udp.rs:279-333 | Both counters are 0 if and only if the trace is first, first + 1, first + 2, ... |
| TraceTheorems.MarkOnAnyStream | app/src/udp.rs:320-333 | On any 64-bit stream the mark exceeds every number but the maximum, and is the first number or one above a received one |
| TraceTheorems.MarkNeverDecreases | app/src/udp.rs:333 | The mark never goes back, for any 64-bit stream |
| TraceTheorems.LossOnAnyStream | app/src/udp.rs:320-333 | A stream that starts below the maximum has the mark and out-of-order count of its numbers below the maximum, and their loss plus the gaps the maximum opened |
| TraceTheorems.LossOfRun | app/src/udp.rs:320-333 | The exact loss of every run of 64-bit numbers, by what arrived |
| TraceTheorems.ThreeDatagramsOverflow | app/src/udp.rs:320-328 | Three datagrams whose loss exceeds 64 bits, also with the maximum only once |
| TraceTheorems.LossFitsIff | app/src/udp.rs:320-328 | The loss counter is wide enough for all traces over a set of numbers if and only if the set lacks the maximum or holds only the top two numbers |
| Codec.FromBigEndianPositions | app/src/util.rs:53-60 | The prefix is read most significant byte first |
| Codec.DecodedBytes | app/src/util.rs:51-60 | What the server decodes: nothing from fewer than eight bytes, else the first eight with their weights written out |
| Codec.FillerSpells | app/src/util.rs:37-43 | The filler spells "muffin " over and over |
| Codec.PrefixRoundTrips | app/src/util.rs:45-60 | Reading undoes writing, writing back what was read changes nothing, and bytes past the prefix are untouched |
| Codec.FrameDecodes | app/src/util.rs:45-60 | A datagram cut anywhere at or after its prefix still decodes to its number |
| Codec.RestampedFrame | app/src/udp.rs:137-140 | Rewriting the prefix of a used buffer gives the same bytes as stamping a fresh one |
| Codec.Buffer | app/src/util.rs:37-43 | The loop fills the whole buffer with the repeated filler |
| Codec.PutSeq | app/src/util.rs:45-49 | In place, replaces the first eight bytes by the number and nothing else |
| Codec.GetSeq | app/src/util.rs:51-60 | Nothing for a short slice, otherwise the decoded prefix |
| IntervalMeter.BitsConserved | app/src/udp.rs:142-153 | Printed plus pending equals eight times the bytes, modulo 2^64, after any samples |
| IntervalMeter.BitsConservedExactly | app/src/tcp.rs:45-57 | The same without a modulus when the total fits 64 bits |
| IntervalMeter.OneLinePerNewSecond | app/src/udp.rs:143-153 | For any clock: the interval is the latest second seen, and one line is printed per new latest second |
| IntervalMeter.LinesMeaning | app/src/udp.rs:142-153 | What each line says: cut behind every sample with a new latest second, line k is eight times the bytes between cuts k and k + 1, and what follows the last cut is pending, modulo 2^64 |
| IntervalMeter.ExitFlushes | app/src/tcp.rs:49-60 | A run that ends by reaching a positive duration leaves nothing pending and its printed values add up to all bits sent |
| IntervalMeter.ExitTotalExactIff | app/src/tcp.rs:49-64 | That total is exact for every run if and only if the duration is positive |
| IntervalMeter.Account.Add | app/src/tcp.rs:45-57 | One turn of the accounting, in place, matches the fold over the samples |
| UdpServer.ReceiveAllMeaning | app/src/udp.rs:316-334 | Over any datagrams: the receive count, eight times the octets, the tracker of the numbers of those long enough; short ones leave the tracker alone |
| UdpServer.EveryDatagramCounted | app/src/udp.rs:316-334 | Received equals short plus in order plus out of order |
| UdpServer.ReportMeaning | app/src/udp.rs:355-359 | What the printed summary says about the trace: loss is missing plus late, received is the sum of its three kinds, the counters bracket the gaps |
| UdpServer.Receiver.TrackNumber | app/src/udp.rs:327-333 | The in-place tracker step on 64-bit counters follows the tracker |
| UdpServer.Receiver.Accept | app/src/udp.rs:302-345 | One loop body, in place, extends the history by one datagram and keeps every counter in step with it |
| UdpServer.Receiver.Turn | app/src/udp.rs:291-346 | A turn past the deadline ends the run, without datagrams if the counter is 0; before it a failed read ends it; a datagram is recorded, cut to the buffer and sampled at the second read after it; a timeout changes nothing |
| UdpServer.Receiver.Summary | app/src/udp.rs:348-359 | The counters reported are those of the history, and printed plus pending bits equal the total |
| UdpServer.ReportedLossExactIff | app/src/udp.rs:320-333 | On any stream, the printed loss is the true one if and only if the sum of what arrived fits 64 bits |
| UdpServer.RunServer | app/src/udp.rs:274-364 | Over the events alone: the run ends at the first deadline reading or failed read and nowhere else, with which outcome; received is the number of reads that returned a datagram and bits eight times their octets that fit the buffer, modulo 2^64; the k-th datagram kept is a prefix of the k-th received, as long as the buffer allows, sampled at its second; loss and out-of-order are the tracker's on their numbers; the summary is printed at the deadline only |
| UdpServer.ReceivedOctetsSnoc | app/src/udp.rs:302-318 | The octets counted: of each datagram as many as fit the buffer, nothing for a timeout or a failure |
| UdpServer.NumbersSnoc | app/src/udp.rs:324-326 | A datagram of eight bytes or more contributes its decoded number, a shorter one nothing |
| Clients.RunStep | app/src/udp.rs:137-157 | One turn carries a run one step on: a failed send ends it, a send read at the duration or later finishes it, another goes on |
| Clients.FinishedIff | app/src/tcp.rs:36-60 | A run is finished if and only if all its attempts were sent and, of their samples, the last and no earlier one reaches the duration |
| Clients.FinishedReportsAll | app/src/tcp.rs:49-64 | A finished run of positive duration has nothing pending and the exact total |
| Clients.SendAccount.Turn | app/src/udp.rs:142-156 | The accounting after a send, the total included, follows the samples; the turn finishes if and only if the second read is at least the duration, and a failed send changes nothing |
| Clients.SendAccount.Close | app/src/tcp.rs:63-64 | The final total and meter are those of the samples, the total is shown by a finished run only, and one of positive duration left nothing out |
| Clients.RunTcpClient | app/src/tcp.rs:34-69 | Over the attempts alone: the loop goes on while sends succeed and are read below the duration, and ends at the first one read at it, or at the first failed one; the meter and total are those of exactly its sends, and the last line is shown by a finished run only |
| Clients.WireDecodes | app/src/udp.rs:136-140 | The k-th datagram has the buffer's size, decodes to k modulo 2^64, and is the letters of "muffin " after the prefix |
| Clients.Stamper.Next | app/src/udp.rs:138-140 | The buffer rewritten in place is the k-th frame, ready for the next |
| Clients.RunUdpClient | app/src/udp.rs:129-163 | As the TCP client, with the same conditions on the attempts, and what goes on the wire is frame 0, frame 1, and so on |
| TcpServer.ReadBlock | app/src/tcp.rs:104-127 | The inner loop ends on an exact hit, at the end of the stream or on an error, having accounted for every chunk it took |
| TcpServer.Serve | app/src/tcp.rs:96-133 | For every chunking, also when the count skips past the block size: the nested loops account as a flat fold, take every chunk, and stop after one or two empty reads, which of the two being determined |
| TcpServer.ZeroReadsMeaning | app/src/tcp.rs:104-131 | The number of empty reads: cut the chunks at the first exact hit of the block size since the last cut, as often as there is one; one empty read if nothing is left over, else two, and none on an error |
| Network.SendKeeps | app/src/udp.rs:136-140 | Stamping and sending keeps the invariant: the packet put in flight is the genuine frame of its send |
| Network.DropKeeps | app/src/udp.rs:320-334 | Losing any packet in flight keeps the invariant |
| Network.CopyKeeps | app/src/udp.rs:281-284 | Duplicating any packet in flight keeps the invariant |
| Network.DeliverKeeps | app/src/udp.rs:302-334 | Delivering any packet in flight keeps the invariant |
| Network.AlwaysInvariant | app/src/udp.rs:136-334 | In every state of every behaviour, wrap-around included: copies are conserved, packets are genuine frames, and the server's statistics are those of the deliveries |
| NetworkTheorems.SendsLedger | app/src/udp.rs:136-334 | Before wrap: what is in flight or delivered was sent, the mark is at most the sends, and sends split into first number, in-order deliveries, losses and those past the mark |
| NetworkTheorems.MissingExplained | app/src/udp.rs:327-333 | Of every missing number all copies are accounted for: drops plus copies in flight equal one plus the duplicates made; with neither left, loss counts late numbers only |
| NetworkTheorems.ReorderingOnly | app/src/udp.rs:327-333 | A drained network that only reordered: out-of-order is loss plus the first number, and every send was received |
| NetworkTheorems.EveryTraceReachable | app/src/udp.rs:279-284 | Any list of the first n sends, with gaps, repetitions and in any order, is what some behaviour delivers, ending drained with the counters of that list |
| NetworkTheorems.FifoInOrder | app/src/udp.rs:136-140 | With an order-keeping, dropping network, deliveries followed by packets in flight are strictly increasing |
| NetworkTheorems.FifoLossIsDrops | app/src/udp.rs:327-333 | Then nothing is out of order and loss is exactly the drops strictly between the first and last received |
| NetworkTheorems.IncreasingTraceReachable | app/src/udp.rs:279-284 | An order-keeping, dropping network can deliver any increasing list of the sends |
| Ssm.SsmRange | app/src/ssm.rs:24-32 | The mask test accepts exactly ff30-ff3f and ffb0-ffbf with a zero low byte in the second segment, and only multicast |
| Ssm.SsmGroups | app/src/ssm.rs:15-52 | The SSM groups of both families by range: 232.0.0.0/8, and the IPv6 ranges |
| Ssm.DocumentedRangeIff | app/src/main.rs:192-196 | Groups taken as SSM are in the ranges the message names if and only if the upper byte of the second segment is zero |
| Ssm.OutsideDocumentedRange | app/src/ssm.rs:212-225 | ff3e:1200::1 is taken as SSM and permitted, outside those ranges |
| Ssm.UsableDestinations | app/src/ssm.rs:54-106 | Exactly the groups rejected: 232.0.0.0, scopes 0 to 2, and the IPv6 null group, and which of the scopes is the reserved and which the local fault |
| Ssm.AcceptedSources | app/src/main.rs:128-161 | Exactly the addresses accepted as sources, by range |
| Ssm.RejectedSources | app/src/main.rs:128-161 | Each reason for rejecting a source, with the range of addresses it is given for |
| Ssm.SourcesAreNotGroups | app/src/ssm.rs:47-52 | SSM groups are multicast, and no accepted source is multicast or SSM |
| Admission.Validate | app/src/main.rs:164-238 | Succeeds if and only if the server is admissible, and each error says what was wrong, the first family mismatch included; without sources it refuses exactly 232.0.0.0/8 and the IPv6 SSM ranges |
| Admission.AdmissibleMeaning | app/src/main.rs:164-238 | What is let through, by address ranges, source families and the presence of an interface |
| Admission.Dispatch | app/src/main.rs:284-310 | The transport gate, then validation: what starts, and which error an invalid server is refused with; a TCP server that starts has no sources |
| Admission.V4FilterConcat | app/src/main.rs:240-251 | The IPv4 filter treats each source on its own and keeps the order, in mixed lists too |
| Admission.V6FilterConcat | app/src/main.rs:253-263 | And so does the IPv6 filter |
| Admission.V4FilterLossless | app/src/main.rs:240-251 | The IPv4 filter keeps all sources, in order, if and only if all are IPv4 |
| Admission.V6FilterLossless | app/src/main.rs:253-263 | The IPv6 filter keeps all sources, in order, if and only if all are IPv6 |
| MulticastJoin.JoinV4 | app/src/udp.rs:165-189 | Without sources one any-source join of the group on the given interface; with sources one join each on it, in order, up to the first refusal; it reports whether all were granted |
| MulticastJoin.JoinV6 | app/src/udp.rs:191-207 | One call, any-source or the whole filter |
| MulticastJoin.BindSocket | app/src/udp.rs:221-225 | Address reuse, for multicast only, then bind, which a refusal of the first prevents |
| MulticastJoin.IssuedIsPrefix | app/src/udp.rs:209-264 | Whatever is refused, the calls issued are the first ones planned; with nothing refused, all of them |
| MulticastJoin.IssuedMeaning | app/src/udp.rs:209-264 | Every call issued is granted but the last of an interrupted plan, which is the first refused |
| MulticastJoin.OpenServer | app/src/udp.rs:209-264 | The calls issued are the planned ones up to the first refused, or all; it succeeds if and only if the interface resolves and every planned call is granted; a validated SSM server issues no any-source join whatever is granted |
| MulticastJoin.PlanIpv4 | app/src/udp.rs:213-234 | The exact calls of every IPv4 server: unicast, unresolved interface, any source on the selected interface or 0.0.0.0, or one join per source |
| MulticastJoin.PlanIpv6 | app/src/udp.rs:235-263 | The exact calls of every IPv6 server: unicast with the command line's scope, unresolved interface, any source on the selected index or 0, or one filter; the bind scope is the index for scopes 1 and 2 only |
| MulticastJoin.SourceJoinsIpv4 | app/src/udp.rs:213-234 | A validated IPv4 server with sources plans one source join per source, in order, on the resolved interface, and no other join |
| MulticastJoin.SourceFilterIpv6 | app/src/udp.rs:235-263 | A validated IPv6 server with sources plans one filter with the whole list on a nonzero interface; for SSM the bind scope is 0 |
| MulticastJoin.AnySourcePlannedIff | app/src/udp.rs:169-207 | After validation an any-source join is planned if and only if a multicast group has no sources and its interface resolves, as the fourth and last call |
| MulticastJoin.AnySourceIff | app/src/udp.rs:169-207 | And issued if and only if, besides, every call before it is granted; for SSM never, under any refusals |
| MulticastJoin.JoinUnpinnedIff | app/src/main.rs:225-236 | With IPv4 sources, some join goes to 0.0.0.0, and then all do, if and only if the selector is 0.0.0.0 or, by the host's list, stands for an interface whose first IPv4 address is 0.0.0.0 |
| MulticastJoin.UnpinnedExample | app/src/main.rs:225-236 | A validated command line whose join names no interface |
| Interfaces.SelectorIndexMeaning | app/src/util.rs:124-150 | The index is the host's nonzero answer for the name, or for the base name of the first entry that holds the address; NUL and empty names have none |
| Interfaces.SelectorV4Meaning | app/src/util.rs:104-116 | The IPv4 address is the one given, or by the list the first of the named interface, or of the one that owns the IPv6 address |
| Interfaces.NamedV4Meaning | app/src/util.rs:104-116 | A named interface, with or without a suffix, resolves to the address of its first entry that has an IPv4 one, and to nothing if and only if there is none |
| Interfaces.IfnameMatchesMeaning | app/src/util.rs:265-271 | An entry matches a name if and only if the name is not empty and the entry is it, or continues it with a colon |
| Interfaces.SuffixMatchesExactly | app/src/util.rs:265-271 | An entry with no more colons than the name matches only if it equals it, so `net0` and `net0:2` do not match `net0:1` |
| Interfaces.HasV4Meaning | app/src/util.rs:194-203 | The entries that resolution considers: on the named interface, with an IPv4 address |
| Interfaces.BaseIfnameMeaning | app/src/util.rs:256-260 | The base name has no colon and is the whole name, or is followed by one |
| Interfaces.MatchesIffBase | app/src/util.rs:256-271 | For a name without a suffix, matching is having it as base name |
| Interfaces.OwnerNameMeaning | app/src/util.rs:181-192 | The owner is the base name of the first entry with the address, if it has a non-empty one |
| Interfaces.NoOwner | app/src/util.rs:181-192 | An address no entry holds has no owner |
| Interfaces.V4AddrMeaning | app/src/util.rs:194-203 | For any name, with or without a suffix: the first IPv4 address of a matching entry, or nothing if and only if none matches |
| Interfaces.V4AddrOfBase | app/src/util.rs:194-203 | For a name without a suffix, that is the first IPv4 address on the interface, logical ones included |
| Interfaces.OwnerResolves | app/src/util.rs:184-203 | The name found for an IPv4 address resolves to the first IPv4 address of that interface |
| Interfaces.Ipv6SelectorStaysOnInterface | app/src/util.rs:104-116 | An IPv6 selector resolves to the first IPv4 address of the interface that owns it, and fails if and only if there is none |
| MethodScript.SourceList | smf/method_script.sh:105-108 | The inner loop emits one flag and source per non-empty field |
| MethodScript.SourceArgsLaws | smf/method_script.sh:105-108 | Empty fields vanish and the others keep their place: the arguments of a list are those of its parts |
| MethodScript.FieldsOfTwo | smf/method_script.sh:104 | A line splits at its first comma; one without a comma is a single field |
| MethodScript.JoinerForMeaning | smf/method_script.sh:101-110 | A group without `@` has no sources; after the first `@` they are the fields of the first line |
| MethodScript.Spawn | smf/method_script.sh:87-123 | The loop starts the joiners of the entries in order; the script idles if and only if every entry is empty or nothing but one or two quotes |
| MethodScript.JoinersOfOne | smf/method_script.sh:89-110 | An entry that is empty or only quotes starts nothing, another its joiner |
| MethodScript.JoinersConcat | smf/method_script.sh:89-114 | The joiners of a list are those of its parts, in order |
| MethodScript.JoinersStarted | smf/method_script.sh:89-114 | As many joiners as entries that are not empty after stripping |
| MethodScript.StripUndoesQuoting | smf/method_script.sh:90-92 | At each end one quote is stripped if there is one, and nothing else |
| MethodScript.DecodeEncodedIff | smf/method_script.sh:94-110 | Decoding gives back group and sources if and only if the group has no `@` and no source is empty or holds a comma or newline |
| MethodScript.RoundTrip | smf/method_script.sh:89-114 | A list of encoded memberships, each quoted or bare, starts one joiner per membership with exactly its sources, in order |

## Left out

- Debug builds, where the additions that wrap here panic instead; below the stated bounds the two agree. The source's `usize` is taken as 64 bits wide.
- Sequence numbers past wrap-around: the counting theorems ask for numbers below the maximum, as the source disclaims the rest; the invariant of the system and the mark's monotonicity do not.
- Send buffers below eight bytes, on which the UDP client panics at its first stamp.
- Real time: a loop is given its clock readings as a list, and nothing is said about when it ends.
- The TCP accept loop: connections share no state, so one is modelled; a failed read ends it as the panic ends its thread.
- The printed rates, the bits-per-second figure, line numbers and message wording; each interval's bits are logged instead.
- Loop variables as such: the local variables of the send and receive loops are fields of small classes whose history is a ghost field.
- Socket options set after the joins, the client's socket set-up and the memory layout of the filter call; the socket layer is a log of calls with arbitrary answers.
- The system calls behind the interface list and the name-to-index lookup, whose answers are inputs.
- Parsing of addresses, selectors and the command line.
- In the start script: word splitting, globbing, reading properties, the port and interface arguments, and waiting for the joiners. The model starts from the list the shell has split.
- The client's `--mode`: its help text speaks of durations counted in buffer writes, no code reads it, and durations are seconds here.
- Packaging, the build helper and the service manifest.
