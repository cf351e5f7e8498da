# Verified models of the protocol homework

Dafny models of six parts of the repository, with proofs about every input, run or interleaving.

| file | what it models |
|---|---|
| `Broker.dfy`, `BrokerRuns.dfy`, `BrokerOrder.dfy`, `BrokerDescriptors.dfy` | the store-and-forward publish/subscribe server: five maps updated by connections, requests, disconnections and datagrams |
| `Checksum.dfy` | `ip_checksum` and `icmp_checksum` against the one's complement sum of section 2 of RFC 1071 |
| `Queues.dfy` | the two linked queues |
| `RouteTable.dfy`, `PrefixMatch.dfy` | the fourth laboratory's sort and first match; the homework router's comparator and binary search |
| `Router.dfy`, `RouterRuns.dfy`, `RouterPromise.dfy`, `RouterWaiting.dfy` | forwarding with ARP resolution and a queue of waiting packets |
| `Link.dfy`, `LinkExact.dfy`, `LinkPunctual.dfy` | the link emulator's producer and scheduler threads, exactly when its two doubtful promises hold, and how late it can be |
| `Framing.dfy`, `Requests.dfy`, `RequestReader.dfy` | the HTTP receive loops over partial reads, the POST printer, and sending in partial writes |
| `Window.dfy` | the sliding-window sender and receiver with the XOR checksum |
| `FileCopy.dfy` | the stop-and-wait file copy |

Objects whose methods update fields (broker, router, queues, buffer, socket) are classes, and the array sort works
in place. Each method is proved against a function on values, and the results about whole runs are lemmas about those
functions; `Serve`, `Drive` and `PostRoundTrip` run the classes themselves. Programs that run beside each other (link
threads, window and file-copy ends) are state machines whose steps interleave freely.

## Choices and departures

- Broker descriptors. `client.socket` is set only when a client is first added, and every later copy of the record
  keeps it, so the server always sends on a client's first descriptor. The model keeps this: each send is logged with
  its descriptor, the client it is meant for, and the client that descriptor belongs to at that moment. What is *sent
  for* a client is exactly what it is owed in every run (`BrokerKeepsPromise`); that it *reaches* the client holds in
  exactly the runs that pass a guard on the descriptors before each step (`EveryoneServedIff`), for instance when every
  reconnection reuses the first descriptor (`FirstFdReusedSuffices`), and not in general (`ReturningElsewhereLoses`).
- `accept` returns a descriptor that is not in use; requests and closings come from connected descriptors.
- `ip_checksum` returns 0 for an all-zero buffer, where the complement of the RFC 1071 sum is 0xffff; everywhere else
  they agree (`IpChecksumMeetsRfc`). `icmp_checksum` returns 0xffff there (`ChecksumsAgreeIff`).
- The router's queue holds packet values, the intent stated in `tema1/README:22-27` (the code stores the address of a
  local copy), and its ARP table grows without bound (the code passes a byte count to `realloc`).
- A packet that waits loses one TTL when it is queued and one more each time it is put back, so one put back k times
  and then sent has lost k+2, and it is answered with "time exceeded" if it arrived with just that (`TurnDecides`); with
  TTL 2 this already happens at its first turn (`ArrivalTtlDecides`, `WaitingExpires`). `tema1/README` speaks only of
  forwarding it.
- Actions that send an ICMP error, or drop a packet for its checksum, also carry that packet, so that a run's log can be
  compared with what arrived (`NothingLost`).
- On a table sorted by the router's comparator the binary search can miss a matching route (`MixedMasksCanMiss`). Which
  destinations it serves is exact for every table (`SearchFindsIff`); with one mask and distinct keys all are served
  exactly when the keys descend (`AlwaysAgreesIffDescending`).
- IP addresses are the raw 32-bit words a little-endian host loads.
- In the link emulator a message is due S+D after the round's reading of the clock, not after it left the buffer, so it
  can be early: exactly when the clock moved between the two and the sleep that follows ends in time (`EarlyIff`). A lone
  message that left L later can be early by the lesser of L and D (`EarlyByTheClock`); a link is always on time exactly when
  D is zero (`AlwaysOnTimeIff`). The assertion before waiting fails exactly when a message was enqueued since the round's
  snapshot of the buffer (`WaitAssertionIff`).
- `usleep` sleeps at least as long as it is asked to. When the link is idle but a message is still in flight it is asked
  for no time at all (`link.c:262-267`), and the scheduler goes round without pause.
- The receive loops look for `Content-Length: ` in everything read so far, so a label in the body of a response whose
  header has none is taken for the header's (`ReadWholeIff` says of every stream whether reading stops early).
- `strtol` skips line breaks, so a blank `Content-Length: ` value is read from the body; framing then depends on how
  the bytes are cut (`SegmentationIff`, `BlankValueExists`).
- The clock of the link emulator does not go backwards, and its waiting scheduler may wake at any time, signalled or not.

## Model

| member | source | states |
|---|---|---|
| BrokerRuns.BrokerKeepsPromise | tema2/server_helper.cpp:114-177 | in every run, what was sent for a client followed by its backlog is, in order, exactly the messages published while it was subscribed and online or had SF on; online clients have no backlog |
| BrokerRuns.RunConsistent | tema2/server_helper.cpp:10-94 | in every run the connection maps are inverse, watched descriptors are the connected ones, each topic list has one entry per client, records agree, and a backlog belongs to a known offline client |
| BrokerRuns.RunRecords | tema2/server_helper.cpp:179-236 | the maps hold each client's live descriptor, first descriptor and subscription flag as read off the history alone |
| BrokerOrder.SendsInOrder | tema2/server_helper.cpp:10-30 | in every run the whole sequence of sends, with descriptor, addressee and message, is the one the history calls for: each publication to those subscribed and online, in the order they subscribed, each backlog to its returning client |
| BrokerOrder.SubscribersAre | tema2/server_helper.cpp:216-236 | in every run a topic's list is its current subscribers in the order they last subscribed |
| BrokerRuns.Serve | tema2/server.cpp:64-97 | the class driven through any legal history ends in the run's state and keeps the promise to every client |
| BrokerRuns.ResubscribedSf | tema2/server_helper.cpp:216-236 | a request changes only the requesting client's subscription: subscribe sets its flag, unsubscribe removes it, anything else nothing |
| BrokerRuns.DeliveredAllTo | tema2/server_helper.cpp:174-176 | publishing to a list gives each client at most one copy, sent if online, stored if offline with SF on |
| BrokerRuns.ReconnectedShape | tema2/server_helper.cpp:10-30 | a returning client gets its whole backlog sent in order, and the backlog is dropped |
| BrokerDescriptors.EveryoneServedIff | tema2/server_helper.cpp:22-29 | everything owed has reached its client on its own connection, or waits, exactly in the runs whose every step passes the descriptor guard |
| BrokerDescriptors.StepReach | tema2/server_helper.cpp:130-134 | one step misdirects nothing exactly when the guard holds before it |
| BrokerDescriptors.FirstFdReusedSuffices | tema2/server_helper.cpp:37-44 | if returning clients get their first descriptor again, every record's socket is the live one and everyone is served |
| BrokerDescriptors.ReturningElsewhereLoses | tema2/server_helper.cpp:10-16 | a concrete run in which a subscriber back on another descriptor does not get the next message |
| Broker.Broker.HandleEvent | tema2/server.cpp:68-91 | one event of the server loop moves the five maps and the sends as the step function says |
| Broker.Broker.HandleConnectionRequest | tema2/server_helper.cpp:51-94 | an ID already connected is refused; a known one is reconnected; another is added |
| Broker.Broker.HandleUdpMessage | tema2/server_helper.cpp:150-177 | an unknown topic is only registered; a known one is delivered to each subscription in list order |
| Broker.Broker.HandleTcpMessage | tema2/server_helper.cpp:179-237 | closing forgets the connection; subscribe, unsubscribe and unknown topics act on the topic list |
| Checksum.IpChecksum | tema1/skel.c:169-219 | for every byte string and start address the result is the complement of the RFC 1071 sum in network order, with 0xffff for a zero sum; alignment does not matter |
| Checksum.FoldCarries | tema1/skel.c:205-209 | folding terminates in the representative between 1 and 65535 |
| Checksum.AddBlocks | tema1/skel.c:173-203 | the three block loops add up exactly the big-endian 32-bit words of memory, without wrapping |
| Checksum.IpChecksumMeetsRfc | tema1/skel.c:173-218 | agreement with the RFC 1071 checksum exactly when some byte is not zero |
| Checksum.FillThenVerify | tema1/router.c:112-115 | zeroing an aligned field, storing the computed checksum there and checking again gives 0, for every buffer |
| Checksum.WordChangeDetected | tema1/router.c:84-89 | in a valid buffer a changed aligned word goes unnoticed only if 0x0000 and 0xffff were exchanged |
| Checksum.TtlDecrement | tema1/router.c:112-115 | after the TTL decrement the header is valid again and the field is the old one plus 0x0100 modulo 65535, as section 3 of RFC 1624 computes it |
| Checksum.IcmpChecksum | tema1/skel.c:151-166 | the native word sum, one byte further for an odd size, folded twice |
| Checksum.FoldTwiceResidue | tema1/skel.c:163-165 | two folds keep the sum modulo 65535 exactly when the second leaves no carry; otherwise the result is one too small |
| Checksum.ChecksumsAgree | tema1/skel.c:151-166 | up to 65537 words the two routines store the same two bytes exactly when some byte is not zero |
| Checksum.ChecksumsAgreeIff | tema1/skel.c:163-165 | for any even length, exactly when some byte is not zero and the second fold leaves no carry |
| Checksum.ChecksumsCanDiffer | tema1/skel.c:151-165 | a buffer of 65539 words on which they differ |
| FifoSpec.FirstInFirstOut | tema1/queue.c:24-43 | any mix of operations takes out a prefix of what was put in, and the rest is the contents |
| CellQueue.Drive | tema1/queue.c:12-43 | the head/tail list behaves as a sequence under every mix of operations, stale tail included |
| CellQueue.Queue.Enqueue | tema1/queue.c:24-33 | appends at the end, also after the queue was emptied |
| CellQueue.Queue.Dequeue | tema1/queue.c:35-43 | removes the front element |
| BackQueue.Drive | laboratoare/lab-03/link_emulator/queue.c:7-58 | the back-linked queue behaves as a sequence under every mix of operations |
| BackQueue.Queue.Enqueue | laboratoare/lab-03/link_emulator/queue.c:7-24 | appends a newest entry and counts it |
| BackQueue.Queue.Dequeue | laboratoare/lab-03/link_emulator/queue.c:26-49 | removes the oldest entry and uncounts it, or returns nothing |
| LongestPrefix.SortBy | laboratoare/lab-04/router.c:42-53 | the in-place exchange sort leaves a permutation in descending order |
| LongestPrefix.BestRoute | laboratoare/lab-04/router.c:14-24 | the first matching entry, or none exactly when nothing matches |
| LongestPrefix.SortThenLookup | laboratoare/lab-04/router.c:68-89 | sort and first match return a matching entry of greatest mask of the original table, or none exactly when nothing matches |
| LongestPrefix.FirstMatchIsLongest | laboratoare/lab-04/router.c:14-24 | in a descending permutation the first match has the greatest mask among all matches |
| LongestPrefix.LongestHasGreatestLength | laboratoare/lab-04/router.c:45 | among prefix masks the greatest mask is the longest prefix |
| PrefixMatch.BitAndBits | tema1/router.c:27-38 | a bit of the masked address is set exactly when it is set in address and mask |
| PrefixMatch.MatchesIsPrefix | laboratoare/lab-04/router.c:14-24 | a route with a prefix mask of length n matches exactly the destinations whose first n bits, in host order, are those of its prefix |
| BinaryLookup.ComparOrders | tema1/router.c:57-61 | the subtraction comparator orders by descending key exactly when the keys differ by less than 2^31 |
| BinaryLookup.SearchFindsIff | tema1/router.c:21-42 | for every table and destination the search finds a route exactly when some matching entry has every midpoint above it pointing to it; so it agrees with a scan exactly when a match, if any, is so guided to |
| BinaryLookup.OneMaskAgreesIff | tema1/router.c:21-42 | with one mask, search and scan agree on all destinations exactly when each entry's own key is guided to |
| BinaryLookup.AlwaysAgreesIffDescending | tema1/router.c:21-66 | with one mask and distinct keys they agree on all destinations exactly when the keys descend; among close keys, exactly when the comparator finds the table sorted |
| BinaryLookup.SearchAgreesWithScan | tema1/router.c:21-42 | on a table sorted by the comparator with one mask and close keys, binary search finds a route exactly when a scan does |
| BinaryLookup.SearchFinds | tema1/router.c:21-42 | where the probes compare monotonically along the table, every match is guided to, so a route is found exactly when one matches |
| BinaryLookup.GetBestRoute | tema1/router.c:21-42 | terminates, and any index returned lies in the range and matches |
| BinaryLookup.MixedMasksCanMiss | tema1/router.c:27-38 | a table sorted by the comparator with mixed masks, and a destination that matches an entry no probe guides to: the route is missed |
| Router.Router.ForwardPacket | tema1/router.c:78-148 | checksum, TTL, route, TTL update and ARP lookup in this order, on the class's own table, queue and output |
| Router.Router.HandleFrame | tema1/router.c:173-255 | dispatch of one frame: echo, forwarding, ARP request, ARP reply with retry |
| Router.Serve | tema1/router.c:150-256 | the class served any frames is in the state the run function gives |
| RouterAnswers.AllAnswered | tema1/router.c:184-228 | in every run the echo replies sent are, each once and in order, those owed for the pings among the frames, and the ARP replies those owed for the queries; pings and queries are told by their bytes |
| RouterAnswers.OwnFrameAnswered | tema1/router.c:184-228 | a frame for the router itself is answered if it is a ping or a query for its address, and otherwise changes nothing |
| RouterAnswers.FramesSorted | tema1/router.c:184-230 | which frames are forwarded and which are replies, by protocol byte, destination bytes and ARP operation |
| RouterAnswers.TableIsHeard | tema1/router.c:233-236 | in every run a next hop's address is the one in the first reply that came from it |
| RouterAnswers.TransitFate | tema1/router.c:78-148 | in every run a packet in transit meets, on arrival, the one fate that its bytes, the routing table and the replies heard so far call for |
| RouterAnswers.RetryFate | tema1/router.c:247-252 | in every run a reply gives the packet that waited longest the fate they call for then |
| RouterAnswers.UnreachableIff | tema1/router.c:101-109 | in every run "unreachable" is said of a valid packet with TTL to spare exactly when no route is guided to for its destination, and of no other |
| RouterAnswers.UnguidedIffNoMatch | tema1/router.c:21-42 | on a sorted table of one mask and close keys, that is exactly when no entry matches |
| RouterRuns.AnswersGoBack | tema1/router.c:184-228 | in every run each ICMP error, echo reply and ARP reply answers a frame that arrived, at its sender's addresses and out of the interface it came in on, also when the packet waited first |
| RouterRuns.NothingLost | tema1/router.c:78-148 | in every run the packets given to forwarding are, as a multiset of their bytes apart from TTL and checksum and their arrival interface, those sent, answered with an error or dropped for their checksum, and those still queued |
| RouterRuns.QueueCountsUnanswered | tema1/router.c:120-139 | the queue length is requests minus replies exactly in the runs where every reply answers a distinct earlier request |
| RouterRuns.ReplyFindsPacket | tema1/router.c:247-252 | in such runs no reply finds the queue empty |
| RouterRuns.RunOk | tema1/router.c:112-147 | in every run waiting packets have a valid checksum, a route and TTL at least 1, and sent ones go to a learned address on a matching route |
| RouterRuns.RetryOutcome | tema1/router.c:247-252 | a retry never takes the bad-checksum or unreachable branch, is "time exceeded" exactly at TTL 1, and decreases the sum of queued TTLs |
| RouterWaiting.WaitingHops | tema1/router.c:112-122 | in every run a packet still waiting after being put back k times has lost exactly k+1 of its TTL and has some left, wherever it stands in the queue |
| RouterWaiting.TurnDecides | tema1/router.c:231-253 | in every run, at the turn of a packet put back k times: "time exceeded" exactly if it arrived with TTL k+2; with more, sent k+2 hops lower exactly if its next hop is known by then, else put back at the end |
| RouterWaiting.ArrivalTtlDecides | tema1/router.c:112-140 | in every run, when as many replies have come in as packets waited ahead of one queued on arrival and then its next hop replies, it is sent exactly if it arrived with TTL above 2, two hops lower, and answered "time exceeded" exactly with TTL 2 |
| RouterWaiting.WaitingExpires | tema1/router.c:231-253 | a run in which a packet arrives with TTL 2, waits for its next hop, and is answered "time exceeded" when that replies |
| RouterRuns.RepliesDrainQueue | tema1/router.c:231-253 | as many replies as the queued TTLs add up to always empty the queue |
| LinkRuns.EveryInterleaving | laboratoare/lab-03/link_emulator/link.c:178-318 | order, capacity, timing and snapshot invariants hold at every interleaving |
| LinkRuns.LinkIsFifo | laboratoare/lab-03/link_emulator/link.c:194-247 | accepted messages are delivered, in flight, being moved and buffered, in this order; the buffer never exceeds its size |
| LinkRuns.FlightTimes | laboratoare/lab-03/link_emulator/link.c:232-259 | in-flight finish times have gaps of at least S, and after a round's deliveries (n-1)*S < S+D |
| LinkRuns.NeverEarly | laboratoare/lab-03/link_emulator/link.c:187-217 | no delivery before S+D after the clock reading of the round the message left in |
| LinkRuns.WaitsWhenIdle | laboratoare/lab-03/link_emulator/link.c:261-278 | the wait branch is reached only with nothing in flight and an empty snapshot; moving always finds a message |
| LinkRuns.AcceptedAsReceived | laboratoare/lab-03/link_emulator/link.c:284-318 | in every run the messages accepted are those received and kept, in order, each with at most the flip it was kept with |
| LinkPunctual.SleepIsLeast | laboratoare/lab-03/link_emulator/link.c:253-269 | a busy link's round sleeps for the lesser of the times to its being idle and to the head's being due; an idle one's not at all |
| LinkPunctual.LatenessBound | laboratoare/lab-03/link_emulator/link.c:187-269 | in every run a message is delivered when it is due or later, by no more than the time that passed outside of sleeping and waiting |
| LinkPunctual.PunctualLink | laboratoare/lab-03/link_emulator/link.c:187-269 | where no time is lost every message takes exactly S+D from leaving the buffer to delivery |
| LinkPunctual.HeadIsNotOverslept | laboratoare/lab-03/link_emulator/link.c:262-269 | a head due before the link is idle is what the round sleeps for, and is delivered when due |
| LinkExact.WaitAssertionIff | laboratoare/lab-03/link_emulator/link.c:219-278 | a round that comes to wait passes its assertion exactly when nothing was enqueued since its snapshot of the buffer |
| LinkExact.EarlyIff | laboratoare/lab-03/link_emulator/link.c:187-269 | at the end of a round, the last message in flight can arrive less than S+D after it left the buffer exactly when it left later than the round's reading of the clock and the sleep, given by idle and finish times, ends before that time |
| LinkExact.WaitAssertionCanFail | laboratoare/lab-03/link_emulator/link.c:271-272 | a run in which the assertion before waiting fails |
| LinkExact.EarlyByTheClock | laboratoare/lab-03/link_emulator/link.c:187-269 | for every L, a run in which a message that left the buffer L after the round's reading of the clock arrives early by the lesser of L and D |
| LinkExact.AlwaysOnTimeIff | laboratoare/lab-03/link_emulator/link.c:227-269 | in all runs every message takes at least S+D from leaving the buffer to delivery exactly when D is zero |
| Search.FindMeans | tema3/buffer.cpp:41-85 | the search returns the first match, and -1 exactly when there is none |
| Search.SameIff | tema3/buffer.cpp:75 | ignoring case, two characters are the same exactly when they are equal or the two cases of an ASCII letter, by their codes |
| Search.FindAnyCase | tema3/buffer.cpp:64-85 | the search without case does not depend on the spelling of text and pattern |
| Search.FindInPrefix | tema3/buffer.cpp:41-85 | as the buffer grows, the first match is found from the moment it is complete and stays the first |
| GrowingBuffer.Buffer.Find | tema3/buffer.cpp:41-85 | the nested loops compute that search, with or without case |
| Framing.ReceiveFromServer | tema3/helpers.cpp:73-126 | the bytes of the reads it makes, and a zero byte |
| Framing.EmptyReadCloses | tema3/helpers.cpp:83-89 | a read of no bytes ends the stream: nothing after it is read |
| Framing.SpellingNeverMatters | tema3/helpers.cpp:80-123 | how much of any stream is read does not depend on the case of its letters, those of the label among them |
| Framing.SmallLettersFound | tema3/helpers.cpp:98-109 | a stream with the label in small letters is read to the end of its body and no further |
| Framing.SegmentationIndependence | tema3/helpers.cpp:80-123 | however a response is cut into reads, exactly its reads are made and exactly it is returned |
| Framing.SegmentationIff | tema3/helpers.cpp:98-109 | framing does not depend on the cut exactly when the length value is in the header or the body is empty |
| Framing.ReadsAllIff | tema3/helpers.cpp:80-123 | with a terminator and a label anywhere, the first loop ends at the read that completes both, the total comes from the value as far as it was read by then, and everything is read exactly when that read is the last or what precedes the last read is short of the total |
| Framing.ReadWholeIff | tema3/helpers.cpp:80-123 | any stream is returned whole exactly when it has no terminator, or no label in header or body, or the label comes too late or announces too much to stop the reading |
| Framing.PrefixReadWhole | tema3/helpers.cpp:80-123 | if the peer closes after any part of a response, however cut, exactly that part is returned |
| Framing.BlankValueExists | tema3/helpers.cpp:104-105 | a response with a blank value whose framing depends on the cut |
| Numbers.StrtolMeans | tema3/helpers.cpp:105 | `strtol` skips white space and gives the signed decimal value of the digits, by their places, clamped to 64 bits; 0 without digits |
| Numbers.ToIntMeans | tema3/helpers.cpp:105 | the 32-bit value differs from the 64-bit one by a multiple of 2^32 |
| Numbers.DecimalMeans | tema3/requests.cpp:83-86 | a printed number has its value and no zero in front |
| Framing.TotalMeans | tema3/helpers.cpp:109 | length and header end are added as unsigned 64-bit numbers |
| Numbers.PrintThenParse | tema3/helpers.cpp:105 | decimal printing and `strtol` are inverse |
| Requests.ComputePostRequest | tema3/requests.cpp:61-119 | the text of the request, line by line |
| RequestRoundTrip.ReaderRecovers | tema3/requests.cpp:61-119 | a reader written apart from the printer recovers url, host, content type, length, authorization or its absence, cookies and body from the text |
| Requests.PostIsResponse | tema3/requests.cpp:76-115 | the text is framed as meant: terminator, label, length and body are found where they were put |
| Requests.SendToServer | tema3/helpers.cpp:53-71 | any partial writes send a prefix of the message, and all of it unless a write takes nothing |
| Requests.EveryCut | tema3/helpers.cpp:80-87 | every sequence of non-empty reads is a cut of the bytes it carries |
| Requests.PostRoundTrip | tema3/helpers.cpp:53-126 | print, send in partial writes, receive over any cut of what went out: what is received is what was written, and unless a write took nothing that is the message with its body exact |
| XorChecksum.Checksum | laboratoare/lab-03/send.c:14-23 | the exclusive or of all bytes but the last |
| XorChecksum.XorIsParity | laboratoare/lab-03/send.c:14-23 | each bit of the checksum is the parity of that bit over all bytes |
| Payloads.BitIs | laboratoare/lab-03/link_emulator/link.c:303-307 | the bit a corruption flips is 1 shifted by its number |
| Payloads.CorruptFlipsOne | laboratoare/lab-03/link_emulator/link.c:303-307 | a corruption changes the one bit it names and no other |
| XorChecksum.SingleFlipsCaught | laboratoare/lab-03/recv.c:42 | every single-bit flip of a valid frame is caught, in the checksum byte too |
| WindowRuns.EmptyFrameIsZero | laboratoare/lab-03/send.c:50-63 | the frames sent are all zero, checksum and all |
| WindowRuns.RepliesSpelled | laboratoare/lab-03/recv.c:42-58 | every reply under way is spelled "ACK" or "NACK", zero byte included |
| WindowRuns.WrittenOver | laboratoare/lab-03/recv.c:42-58 | a reply is the received frame with its first bytes overwritten |
| WindowRuns.WindowHolds | laboratoare/lab-03/send.c:50-111 | `in_queue` is what is in transit and never exceeds the window |
| WindowRuns.VerdictsExact | laboratoare/lab-03/send.c:25-35 | at the end ACKs and NACKs add up to COUNT and NACKs equal the corrupted frames |
| WindowRuns.EveryRunFinishes | laboratoare/lab-03/recv.c:31-63 | no run exceeds 4*COUNT+3 steps, and one that cannot go on has both sides finished |
| WindowRuns.FinishesIff | laboratoare/lab-03/send.c:46-111 | the sender can finish exactly with a window between 1 and COUNT, or nothing to send |
| FileCopyRuns.StaysInStep | laboratoare/lab-02/schelet lab2/send.c:27-67 | at most two messages are under way, two only before the receiver has the number of files; the first is what the receiver asks for next, a chunk taking up the file where its copy stops; a message and an acknowledgement, which is spelled "ACK", are never under way together |
| FileCopyRuns.CopiesComplete | laboratoare/lab-02/schelet lab2/recv.c:59-102 | when both are done every copy has exactly the bytes of its source |
| FileCopyRuns.EveryRunFinishes | laboratoare/lab-02/schelet lab2/recv.c:28-102 | every run takes at most 2*(2 + 5 per file + 2 per chunk) statements, and one that cannot go on has taken exactly these and has both sides done |
| FileCopyRuns.ChunksAfterRead | laboratoare/lab-02/schelet lab2/recv.c:72-77 | the rounded-up chunk count is the number of reads that return something |

## Left out

- Sockets, `select`, `accept`, `ioctl`, file opening, printing and `DIE`: an accepted descriptor, a frame or a read is a step's input.
- The interactive `exit` command of the broker, and truncation of identifiers and topics to their buffers.
- Parsing a datagram or an Ethernet frame from bytes; the IP header alone is kept as bytes, since its checksum is.
- Building the ICMP reply's own header bytes: an ICMP answer is an action with its addresses and type.
- `qsort` itself: a table sorted by the comparator is assumed where the binary search needs one.
- The link's two threads, and the two ends of the window protocol and of the file copy, are interleaved steps on values: aliasing of message buffers between threads is not modelled; their queues are sequences, which `BackQueue` refines.
- Random choices of the link (loss, corruption) are left open; the reverse path, which forwards at once, is a channel.
- Requests.ComputePostRequest: overflow of the C buffers is excluded by a precondition on the lengths; reading past the end of an unterminated buffer in `strtol` is not modelled.
- GET and DELETE printing, the user dialogue and the JSON library: the same line building without a body.
- File-copy names longer than the receiver's buffers, and copies that already exist or share a name: a copy is what was appended.
- Memory release, and `int` lengths of 2^31 and more.
