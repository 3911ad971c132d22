# Verified models of the server's protocols and data structures

A skynet game server keeps its connections, timers, rankings, caches and messages in a handful of C
and Lua components. This project models seven of them in Dafny and proves what callers rely on.
`dafny verify dfyconfig.toml` checks everything.

Imperative code is modelled as it is written: control blocks, wheels, lists and tables are classes
whose methods change their fields, loops are loops. Beside each stands a specification made of plain
functions on values; the methods are proved to compute it, and the theorems are about it, so that a
theorem about the functions is a theorem about what the methods do.

**KCP** (`Serial`, `KcpWire`, `KcpSpec`, `KcpInvariant`, `KcpEffects`, `Kcp`, `KcpSystem`). The ARQ protocol of
depends/lua-kcp. `KcpSpec` describes a control block and every operation on it; `Kcp.Ikcp` is the
control block as an object. `KcpInvariant` proves what one endpoint keeps for any input bytes,
forged ones included, with sequence numbers anywhere on the 32-bit circle. `KcpEffects` says, in terms
of fields and of the segments put out, what an ack removes, what a flush sends and resends and when,
and with which headers. `KcpSystem` puts two
endpoints on a network that loses, copies and reorders datagrams and proves, for every run, that
messages arrive in order, whole and once, and that no unreceived segment is ever given up.

**Timer wheel** (`TimerWheel`). The hierarchical wheel of depends/timer, 256 near slots and four
levels of 64. Every run refines a bag of pending entries on an unbounded clock: each timer fires
exactly once, at exactly its tick, in the order of registration, also when the 32-bit clock wraps.
The proof works on the digits of expiry and time; the methods use the masks and shifts of the code.

**Skip list** (`SkipOrder`, `SkipLinks`, `SkipList`). The indexable skip list of depends/lua-zset and
its twin with timestamps, pointer by pointer. Every operation keeps each level a list of exactly the
nodes tall enough, with spans equal to true distances, and refines an edit or a query of a sorted
sequence.

**JSON** (`Strbuf`, `Utf8`, `JsonText`, `JsonValue`, `JsonGrammar`, `JsonLayout`, `JsonRoundTrip`,
`JsonOrder`, `JsonCodec`). The encoder and recursive-descent decoder of depends/json over their
growable buffer. The decoder accepts exactly the spellings of a grammar and yields what they mean,
with any white space between the tokens; what can be encoded is characterised exactly, and decoding
undoes encoding up to integer keys of objects, which come back as strings, and missing elements of
arrays, which come back as null. Escapes decode to the right UTF-8 or are rejected; the appends
without bounds checks stay inside the room reserved for them.

**CRC-32** (`Crc32`). The two table-driven loops of depends/lua-crc32 agree with the bit-at-a-time
definition on every byte string, and both tables hold what that definition requires.

**LRU caches** (`Lru`). The caches of game/liblua: linked list, map and count agree and refine a
most-recent-first sequence of distinct keys, with the evicted entries reported in order.

**Hash table** (`HashOrder`, `HashSort`, `HashTable`). The macros of uthash: bucket chains and the
application-order list over the same handles, the doubling of buckets, and the in-place merge sort,
which is proved to terminate with a permutation, sorted and stable for any total preorder.

`Bits`, `Sequences` and `Options` hold what several components share.

Some promises turned out to hold only under a condition. Each is stated with that condition, as an
if and only if, and with an input that fails it:

| promise | exact condition | failing input |
|---|---|---|
| a resized buffer holds what was asked for | `Strbuf.NewSizeFits` | `Strbuf.LinearGrowthTooSmall` |
| a refused send changes nothing | `KcpSystem.RefusedSend` | `KcpSystem.RefusedButTaken` |
| a set succeeds | `Lru.Cache.Set` | `Lru.LowerCapacity` |
| an object asked for by score and bytes is found just if it is stored so | `SkipOrder.RankExact`, `SkipOrder.RankExactAt` | `SkipOrder.RankOfStaleScore` |
| a rank range lists what lies between its bounds | `SkipOrder.ListedExact` | `SkipOrder.ListedNothing` |
| swapped bounds list it reversed | `SkipOrder.SwappedRanks` | `SkipOrder.NotReversed` |
| a removal by rank removes what lies between its bounds | `SkipOrder.NarrowedRanks` | `SkipOrder.OneInsteadOfAll` |
| the room for a quoted string is its worst case | `JsonCodec.ReservedExact` | in the same lemma |
| the token buffer exceeds the text | `JsonCodec.TextFitsExact` | `JsonCodec.BufferOfSix` |

## Model

| member | source | states |
|---|---|---|
| Serial.WindowTest | depends/lua-kcp/kcp/ikcp.c:689-690 | the pair of signed 32-bit comparisons that guards a window accepts exactly the numbers less than the window ahead of its base, wherever on the circle the base lies |
| Serial.DiffFromBase | depends/lua-kcp/kcp/ikcp.c:136-139 | between numbers less than half the circle ahead of a common base the signed difference is the true difference of distances, and zero only for equal numbers |
| Serial.Rebase | depends/lua-kcp/kcp/ikcp.c:728 | moving the base forward shortens every distance beyond it by the same amount, across the wrap |
| KcpWire.Dec32OfEnc32 | depends/lua-kcp/kcp/ikcp.c:94-121 | a 32-bit field survives being written and read in little-endian order |
| KcpWire.HeaderFields | depends/lua-kcp/kcp/ikcp.c:906-917 | wherever an encoded segment stands in a datagram, decoding reads back every header field and the payload |
| KcpWire.Layout | depends/lua-kcp/kcp/ikcp.c:906-917 | the layout on the wire byte by byte: which field stands at which offset, least significant byte first |
| KcpWire.ParseOfEncode | depends/lua-kcp/kcp/ikcp.c:761-869 | the input loop applied to the encoding of any list of segments of the conversation recovers exactly that list, consumes every byte and reports success |
| KcpWire.EncodeOfParse | depends/lua-kcp/kcp/ikcp.c:761-869 | conversely, any bytes accepted without error are the encodings of the parsed segments, followed by fewer bytes than one header |
| KcpInvariant.CreateWf | depends/lua-kcp/kcp/ikcp.c:234-296 | a new endpoint satisfies the invariant |
| KcpInvariant.SendKeeps | depends/lua-kcp/kcp/ikcp.c:469-537 | sending any message, accepted or refused, keeps the invariant; in particular every queued fragment fits one segment |
| KcpInvariant.OutstandingWindow | depends/lua-kcp/kcp/ikcp.c:575-576 | the guard on acked numbers accepts exactly the numbers given out and not yet passed by snd_una |
| KcpInvariant.WithoutShape | depends/lua-kcp/kcp/ikcp.c:578-590 | an ack removes the one segment with that number, or nothing, although the search stops at the first larger number |
| KcpInvariant.ShrunkOk | depends/lua-kcp/kcp/ikcp.c:560-569 | after removals snd_una moves forward only, never past snd_nxt |
| KcpInvariant.ParseAckKeeps | depends/lua-kcp/kcp/ikcp.c:571-591 | any acked number keeps snd_buf increasing inside [snd_una, snd_nxt) and snd_una at its head |
| KcpInvariant.AcknowledgeKeeps | depends/lua-kcp/kcp/ikcp.c:788-797 | no segment, honest or forged, moves snd_una back or beyond snd_nxt, or invents a number |
| KcpInvariant.InsertShape | depends/lua-kcp/kcp/ikcp.c:695-713 | a received segment is put before every larger and behind every smaller number, and not at all if its number is there already |
| KcpInvariant.AcceptableWindow | depends/lua-kcp/kcp/ikcp.c:689-693 | a received number is accepted exactly when it lies in [rcv_nxt, rcv_nxt + rcv_wnd) on the circle |
| KcpInvariant.MoveReadyKeeps | depends/lua-kcp/kcp/ikcp.c:720-732 | moving contiguous segments keeps rcv_buf increasing in its window and leaves rcv_nxt in rcv_buf only if rcv_queue is full |
| KcpInvariant.ParsePushKeeps | depends/lua-kcp/kcp/ikcp.c:683-743 | any data segment keeps both |
| KcpInvariant.RecvKeeps | depends/lua-kcp/kcp/ikcp.c:358-435 | reading keeps both, and a successful read restores the second |
| KcpInvariant.InputKeeps | depends/lua-kcp/kcp/ikcp.c:749-900 | for any bytes at all: the endpoint stays well formed, snd_una does not move back and snd_nxt does not change |
| KcpInvariant.MoveToBufKeeps | depends/lua-kcp/kcp/ikcp.c:1020-1042 | filling snd_buf keeps it well formed, never exceeds the larger of window and old flight size, and stops early only when the queue is empty |
| KcpInvariant.FlushKeeps | depends/lua-kcp/kcp/ikcp.c:931-1138 | a flush keeps the invariant and puts no more in flight than the configured send window, unless more was in flight already |
| KcpInvariant.UpdateKeeps | depends/lua-kcp/kcp/ikcp.c:1146-1171 | the same of an update, whether or not it flushes |
| KcpInvariant.PackFits | depends/lua-kcp/kcp/ikcp.c:957-1014 | packing segments into datagrams loses, repeats and reorders none, and every datagram has between 1 and mtu bytes |
| KcpInvariant.FlushOutput | depends/lua-kcp/kcp/ikcp.c:931-1138 | the datagrams of a flush are exactly the due segments in order, every queued ack once and first, and each datagram is understood completely by a peer of the conversation |
| KcpInvariant.PushWiresDue | depends/lua-kcp/kcp/ikcp.c:1048-1108 | the data segments emitted are exactly the due ones among those buffered |
| KcpInvariant.FlushWiresKinds | depends/lua-kcp/kcp/ikcp.c:956-1012 | behind the acks a flush emits no further ack |
| KcpInvariant.FlushSendsDue | depends/lua-kcp/kcp/ikcp.c:1020-1108 | a flush sends a buffered segment if and only if it is due, and every segment the window has just admitted at once |
| KcpInvariant.ApplyKeeps | depends/lua-kcp/kcp/ikcp.c:1272-1283 | every operation of an endpoint keeps the invariant and moves snd_una forward only, by no more than was in flight; only enlarging the receive window can leave the expected number waiting |
| KcpInvariant.EndpointInvariant | depends/lua-kcp/kcp/ikcp.c:234-1283 | every run of operations over any input bytes: snd_buf increasing inside [snd_una, snd_nxt) with snd_una at its head, flight size within the largest configured window, rcv_buf increasing inside the largest receive window so far, no expected number held back |
| KcpInvariant.NothingBeforeCheck | depends/lua-kcp/kcp/ikcp.c:1183-1219 | before the time ikcp_check returns no update would flush and no buffered segment becomes overdue, wherever on the circle the clock stands |
| KcpInvariant.SomethingAtCheck | depends/lua-kcp/kcp/ikcp.c:1183-1219 | and that time is not early: then an update flushes, or a segment is overdue, or a whole interval has passed, or a segment's time lies exactly half the circle away |
| KcpEffects.SendCode | depends/lua-kcp/kcp/ikcp.c:477-534 | in message mode a send is refused, changing nothing, exactly if the message needs more than 127 full segments, and otherwise adds the fewest fragments that can hold it |
| KcpEffects.FragsFull | depends/lua-kcp/kcp/ikcp.c:514-534 | every fragment of a message is full but the last, which holds the rest |
| KcpEffects.StreamFills | depends/lua-kcp/kcp/ikcp.c:477-534 | in stream mode the last queued segment is filled up first, and only the bytes that do not fit into it make new segments or are refused |
| KcpEffects.RecvTakes | depends/lua-kcp/kcp/ikcp.c:358-435 | the three error codes of a read in their order, the bytes and fragments it takes up to the first fragment numbered zero, that a peek leaves them queued, and when the peer will be told the new window |
| KcpEffects.AcksRemove | depends/lua-kcp/kcp/ikcp.c:560-607 | the effect of one segment on snd_buf, for any segment at all: a buffered segment stays if and only if its number is not behind the una of the segment, unless that una is older than the own one, and the segment is no ack of it; those that stay keep their order and contents, and snd_una is the number of the first, or snd_nxt |
| KcpEffects.InputAcks | depends/lua-kcp/kcp/ikcp.c:749-900 | a whole datagram of genuine acks: the segments that none of its segments acknowledges, and only these, stay buffered, their skip counts raised by one exactly if a later number was acked, and the window of the peer is that of the last segment |
| KcpEffects.DataAcked | depends/lua-kcp/kcp/ikcp.c:827-845 | a data segment is acked exactly if its number lies in the receive window or behind it; it is then held, or was received before, and outside the window the receiver is unchanged |
| KcpEffects.FlushHeaders | depends/lua-kcp/kcp/ikcp.c:956-1108 | every segment of a flush carries the conversation, the next number expected and the free window, data the current time, and the queued acks come first with the numbers and times acked |
| KcpEffects.FlushTight | depends/lua-kcp/kcp/ikcp.c:957-1014 | a flush closes a datagram only when the next segment would not fit into it any more |
| KcpEffects.FlushControls | depends/lua-kcp/kcp/ikcp.c:992-1014 | a flush asks for the window of the peer exactly if that is asked for or a probe of a closed window is due, and tells its own exactly if that was asked for; both requests and the acks are then cleared |
| KcpEffects.FlushProbes | depends/lua-kcp/kcp/ikcp.c:970-990 | the wait between probes of a closed window: 7 seconds at first, half as much again each time, at most 120 seconds, and none once the window is open |
| KcpEffects.FlushNumbers | depends/lua-kcp/kcp/ikcp.c:1020-1042 | a flush takes segments from the front of the queue, gives them the next numbers and puts them behind those already buffered, which keep numbers and contents |
| KcpEffects.FlushWindow | depends/lua-kcp/kcp/ikcp.c:1015-1042 | after a flush no more is in flight than the smallest of the send window, the window the peer advertises and the congestion window, or than before; and not less while segments wait |
| KcpEffects.FlushResends | depends/lua-kcp/kcp/ikcp.c:1059-1081 | a segment that was sent before is sent again if and only if it is overdue or skipped often enough within the fast limit; an overdue one has one more transmission, the backed-off timeout, and becomes due that much later; one that is not sent is unchanged |
| KcpEffects.FlushFirst | depends/lua-kcp/kcp/ikcp.c:1052-1058 | a segment never sent is sent, with the current timeout and, unless nodelay is set, an eighth of it more until it is due again |
| KcpEffects.FlushDead | depends/lua-kcp/kcp/ikcp.c:1104-1106 | the link is marked dead exactly when a segment the flush sends has now been sent as often as allowed |
| KcpEffects.UpdateClock | depends/lua-kcp/kcp/ikcp.c:1146-1171 | an update flushes exactly if it is the first, or the flush time has come or is more than ten seconds away, and the next flush time is one interval on, or one interval from now if that is past |
| KcpEffects.AckComesBack | depends/lua-kcp/kcp/ikcp.c:749-1108 | a data segment in or behind the window of the receiver is acked by its next flush, and that ack, whenever it arrives, takes the segment out of the buffer of the sender |
| KcpEffects.ProbeAnswered | depends/lua-kcp/kcp/ikcp.c:846-855 | a probe of the window, and nothing else, makes the next flush tell the free window |
| Kcp.Ikcp.constructor | depends/lua-kcp/kcp/ikcp.c:234-296 | a new control block is the initial value of the specification, with counters equal to queue lengths |
| Kcp.Ikcp.SendData | depends/lua-kcp/kcp/ikcp.c:469-537 | the queue and return code after a send are those of the specification, in message and in stream mode |
| Kcp.Ikcp.EnqueueFrags | depends/lua-kcp/kcp/ikcp.c:514-534 | the loop appends exactly the fragments of the message |
| Kcp.Ikcp.Peek | depends/lua-kcp/kcp/ikcp.c:441-463 | the loop returns the size of the first complete message, or -1 |
| Kcp.Ikcp.Receive | depends/lua-kcp/kcp/ikcp.c:358-435 | data, return code and state after a read or a peek are those of the specification |
| Kcp.Ikcp.MergeFragments | depends/lua-kcp/kcp/ikcp.c:383-409 | the loop returns the bytes of the first message and, unless peeking, takes exactly its fragments off the queue |
| Kcp.Ikcp.MoveAvailable | depends/lua-kcp/kcp/ikcp.c:413-425 | the loop moves the contiguous segments that fit |
| Kcp.Ikcp.ShrinkBuf | depends/lua-kcp/kcp/ikcp.c:560-569 | snd_una becomes the head of snd_buf, or snd_nxt |
| Kcp.Ikcp.DropUna | depends/lua-kcp/kcp/ikcp.c:593-607 | the loop drops the front segments that una has passed |
| Kcp.Ikcp.FindAcked | depends/lua-kcp/kcp/ikcp.c:578-590 | the search loop finds what an ack removes |
| Kcp.Ikcp.RemoveAcked | depends/lua-kcp/kcp/ikcp.c:571-591 | an ack removes exactly that segment |
| Kcp.Ikcp.FastAck | depends/lua-kcp/kcp/ikcp.c:609-631 | skipped segments are counted, those before the largest acked number only |
| Kcp.Ikcp.AcceptData | depends/lua-kcp/kcp/ikcp.c:683-743 | insertion from the back and delivery give the specified receiver state |
| Kcp.Ikcp.InputOne | depends/lua-kcp/kcp/ikcp.c:788-868 | state after one segment is that of the specification, whose effects KcpEffects.AcksRemove, KcpEffects.DataAcked and KcpEffects.ProbeAnswered state |
| Kcp.Ikcp.DecodeSegment | depends/lua-kcp/kcp/ikcp.c:769-786 | decoding one header agrees with the specification of the parsed datagram, error codes and their order included |
| Kcp.Ikcp.InputLoop | depends/lua-kcp/kcp/ikcp.c:761-869 | the loop processes exactly the parsed segments and remembers the largest acked number |
| Kcp.Ikcp.InputBytes | depends/lua-kcp/kcp/ikcp.c:749-900 | state and return code after any datagram are those of the specification |
| Kcp.Ikcp.Emit | depends/lua-kcp/kcp/ikcp.c:1089-1102 | appending to the buffer, with output when it is too full, continues the packing |
| Kcp.Ikcp.WndUnused | depends/lua-kcp/kcp/ikcp.c:919-925 | the advertised window, truncated to 16 bits as the header does |
| Kcp.Ikcp.FlushAcks | depends/lua-kcp/kcp/ikcp.c:956-966 | the loop emits every queued ack once |
| Kcp.Ikcp.ProbeWindow | depends/lua-kcp/kcp/ikcp.c:970-990 | probe timer and wait after the closed-window schedule |
| Kcp.Ikcp.FlushProbes | depends/lua-kcp/kcp/ikcp.c:992-1014 | the probe segments that were asked for, with the header fields the acks left |
| Kcp.Ikcp.FillBuffer | depends/lua-kcp/kcp/ikcp.c:1020-1042 | the loop numbers exactly the segments the window admits |
| Kcp.Ikcp.TouchSegment | depends/lua-kcp/kcp/ikcp.c:1052-1081 | whether a segment is sent, and its counters and timers afterwards, as KcpEffects.FlushResends and KcpEffects.FlushFirst state them |
| Kcp.Ikcp.FlushSegments | depends/lua-kcp/kcp/ikcp.c:1048-1108 | the loop emits exactly the due segments and reports a worn-out link |
| Kcp.Ikcp.FlushAll | depends/lua-kcp/kcp/ikcp.c:931-1138 | state and datagrams of a flush are those of the specification, byte for byte |
| Kcp.Ikcp.UpdateAt | depends/lua-kcp/kcp/ikcp.c:1146-1171 | state and datagrams of an update are those of the specification |
| Kcp.Ikcp.CheckAt | depends/lua-kcp/kcp/ikcp.c:1183-1219 | the early returns and the loop compute the specified time of the next update |
| Kcp.Ikcp.SetWndSize | depends/lua-kcp/kcp/ikcp.c:1272-1283 | the new windows; the receive window is never below 128 |
| KcpSystem.ParsePushMatching | depends/lua-kcp/kcp/ikcp.c:827-845 | a genuine data segment keeps the receiver matching the sender, and a segment that is acked is held |
| KcpSystem.AcknowledgeCovered | depends/lua-kcp/kcp/ikcp.c:788-797 | a genuine ack or una makes the sender forget only what the receiver holds |
| KcpSystem.DeliverFed | depends/lua-kcp/kcp/ikcp.c:749-900 | delivering any earlier datagram of the peer, again or out of order, keeps both directions of the conversation consistent |
| KcpSystem.FlushLinks | depends/lua-kcp/kcp/ikcp.c:931-1138 | a flush keeps both directions consistent, for the grown network too |
| KcpSystem.FragsData | depends/lua-kcp/kcp/ikcp.c:514-534 | cutting a message into fragments loses and reorders nothing |
| KcpSystem.EnqueueData | depends/lua-kcp/kcp/ikcp.c:469-537 | whatever its return code, a send appends to the queued bytes exactly the bytes it took |
| KcpSystem.RefusedSend | depends/lua-kcp/kcp/ikcp.c:477-510 | a send refused with -2 leaves the state alone if and only if there is no partly filled last segment in stream mode |
| KcpSystem.RefusedButTaken | depends/lua-kcp/kcp/ikcp.c:477-510 | a new endpoint with mtu 84, one byte sent, then 7800: refused with -2, yet 59 of them stay queued |
| KcpSystem.ReadableIff | depends/lua-kcp/kcp/ikcp.c:441-463 | a message can be read exactly when all fragments of the next sent message have arrived, and the reported size is its size |
| KcpSystem.RecvMessage | depends/lua-kcp/kcp/ikcp.c:383-409 | what a read hands over is the next message, whole and unmixed |
| KcpSystem.Reachable | depends/lua-kcp/kcp/ikcp.c:358-1171 | the system invariant holds at every reachable state of two endpoints over a network that loses, copies and reorders, whatever congestion control does |
| KcpSystem.MessagesInOrder | depends/lua-kcp/kcp/ikcp.c:358-1138 | in every such run, in message mode and in both directions, the messages returned are an in-order prefix of the messages accepted |
| KcpSystem.BytesInOrder | depends/lua-kcp/kcp/ikcp.c:358-1138 | in either mode the bytes returned are a prefix of the bytes taken over |
| KcpSystem.NothingLost | depends/lua-kcp/kcp/ikcp.c:560-607 | at every reachable state each number given out still has its payload in the sender's buffer or with the receiver |
| KcpSystem.FullQueueReadable | depends/lua-kcp/kcp/ikcp.c:441-463 | in message mode a full receive queue always starts with a complete message of the right size, and in stream mode any queue that is not empty starts with readable bytes, so that a read can make room |
| Bits.MaskIsRemainder | depends/libfaketime/src/uthash.h:430-433 | masking with a power of two less one takes the remainder, as the bucket choice relies on |
| Bits.ShiftIsQuotient | depends/timer/timer.c:88 | shifting right takes the quotient by the power of two |
| Bits.MaskedEqual | depends/timer/timer.c:77 | words agree once their low bits are set exactly if their quotients do |
| Bits.OrApart | depends/json/lua_cjson.c:793-826 | combining by `or` a number below a power of two with a multiple of it adds them |
| TimerWheel.MaskComparesQuotients | depends/timer/timer.c:77-87 | comparing the masked words of the code compares the quotients the slots are defined by, on every level |
| TimerWheel.UnitBits | depends/timer/timer.c:78-90 | the masks and shifts of the code take out the digits of a time |
| TimerWheel.SlotDigits | depends/timer/timer.c:73-91 | the slot by expiry and time, in terms of the base-256/64 digits of both |
| TimerWheel.NextDigits | depends/timer/timer.c:117 | incrementing the time is incrementing digits with carry and wrap |
| TimerWheel.SlotStep | depends/timer/timer.c:115-135 | from one tick to the next a pending timer changes its slot exactly if it is in the slot being redistributed |
| TimerWheel.DueSlot | depends/timer/timer.c:149-159 | the near slot of the time is the slot of exactly the due expiry |
| TimerWheel.NeverSlotZero | depends/timer/timer.c:115-135 | a pending timer is never in slot 0 of the three lower levels |
| TimerWheel.AddHolds | depends/timer/timer.c:94-102 | adding a timer keeps the wheel a faithful image of the pending list |
| TimerWheel.MoveListOnly | depends/timer/timer.c:105-112 | redistribution takes every node to its slot for the new time and keeps the order of equal expiries |
| TimerWheel.ShiftHolds | depends/timer/timer.c:115-135 | advancing the time keeps the wheel faithful |
| TimerWheel.NearIsDue | depends/timer/timer.c:149-159 | the near list of the time is, in order, exactly what is due |
| TimerWheel.TimeoutRefines | depends/timer/timer.c:201-208 | registering a timer refines adding it to the bag, or doing nothing for a delay that is not positive |
| TimerWheel.NothingDueYet | depends/timer/timer.c:165-166 | the first timer_execute of an update always finds nothing |
| TimerWheel.UpdateRefines | depends/timer/timer.c:162-174 | one update calls back exactly the handles of the entries due at the new tick, one by one in the order they were added, and keeps the others |
| TimerWheel.InPlace | depends/timer/timer.c:73-91 | at every reachable state each node sits in the one slot its expiry and the time select |
| TimerWheel.SlotZeroEmpty | depends/timer/timer.c:115-135 | slot 0 of the three lower levels is always empty |
| TimerWheel.WheelRefinesBag | depends/timer/timer.c:72-208 | every run of the wheel refines the run of the bag, and calls back entry by entry what is due in it, tick by tick, also across the wrap of the 32-bit clock |
| TimerWheel.ExactlyOnceOnTime | depends/timer/timer.c:201-208 | over every run each added timer is either pending and due later or has fired exactly once, at exactly its tick |
| TimerWheel.FiresAsRegistered | depends/timer/timer.c:72-208 | said of the calls of a run alone: tick t calls back exactly the handles registered with a positive delay that ends at t, in the order they were registered |
| TimerWheel.ShiftStep | depends/timer/timer.c:124-133 | each pass of the carry loop looks at the next digit, and ends by the fourth |
| TimerWheel.ShiftNone | depends/timer/timer.c:124-133 | the loop moves nothing only when the near digit is not zero |
| TimerWheel.Timer.constructor | depends/timer/timer.c:177-198 | a new wheel is empty at time 0 |
| TimerWheel.Timer.FindLevel | depends/timer/timer.c:80-87 | the loop over the masks finds the lowest level that hides the difference to the time |
| TimerWheel.Timer.AddTimerNode | depends/timer/timer.c:73-91 | the branches and the loop link the node to the end of the specified slot |
| TimerWheel.Timer.MoveLevelList | depends/timer/timer.c:105-112 | the loop redistributes a list as specified |
| TimerWheel.Timer.TimerShift | depends/timer/timer.c:115-135 | the loop advances the time and redistributes the specified slot |
| TimerWheel.Timer.DispatchList | depends/timer/timer.c:138-146 | one call back per node, the i-th that of the i-th node |
| TimerWheel.Timer.TimerExecute | depends/timer/timer.c:149-159 | the near list is emptied and dispatched |
| TimerWheel.Timer.TimerUpdate | depends/timer/timer.c:162-174 | the wheel stays faithful, and the i-th handle called back is that of the i-th entry the bag says is due |
| TimerWheel.Timer.TimeoutAfter | depends/timer/timer.c:201-208 | the return code, and the timer added to wheel and bag |
| SkipOrder.LessTotal | depends/lua-timezset/timeskiplist.c:91-102 | score, then larger stamp, then bytes is a total order: exactly one of less, greater, equal |
| SkipOrder.LessTransitive | depends/lua-timezset/timeskiplist.c:91-102 | it is transitive |
| SkipOrder.LessIs | depends/lua-timezset/timeskiplist.c:91-102 | the smaller score comes first, then the larger stamp, then the name that is a proper prefix of the other or has the smaller byte where they first differ |
| SkipOrder.PlaceBoundary | depends/lua-zset/skiplist.c:96-108 | in a sorted list exactly the elements before its place are smaller than an element |
| SkipOrder.InsertSorted | depends/lua-zset/skiplist.c:91-143 | insertion at that place keeps the list sorted |
| SkipOrder.InsertThenDelete | depends/lua-zset/skiplist.c:91-191 | deleting what was just inserted gives the old list back, equal elements included |
| SkipOrder.FoundAtPlace | depends/lua-zset/skiplist.c:180-183 | an element is stored exactly if it stands at its place |
| SkipOrder.RankOfStored | depends/lua-zset/skiplist.c:227-248 | for a stored element whose object is stored once, the rank is its 1-based index |
| SkipOrder.RankOfAbsent | depends/lua-zset/skiplist.c:227-248 | an object that is not stored, or only with a larger score, has rank 0 |
| SkipOrder.RankOfStale | depends/lua-zset/skiplist.c:227-248 | an object asked for with a larger score than its own is found if and only if its node is taller than every node between it and the place of that score |
| SkipOrder.RankExactAt | depends/lua-zset/skiplist.c:227-248 | for given heights the rank the descent finds is the right one if and only if the object is not stored with a smaller score, or the node that holds it so is hidden from the descent |
| SkipOrder.RankExact | depends/lua-zset/skiplist.c:227-248 | the rank the descent finds is right for all heights the nodes can have if and only if the object is not stored with a smaller score than the one asked for |
| SkipOrder.RankOfStaleScore | depends/lua-zset/skiplist.c:243 | a list of one element: asked for with a larger score than its own it is found all the same, at rank 1 |
| SkipOrder.ListedExact | depends/lua-zset/lua-skiplist.c:102-127 | the elements listed are those between the two ranks if and only if the first is no rank, or the length of the range fits an int, or what is left of it after narrowing covers the rest of the list |
| SkipOrder.ListedNothing | depends/lua-zset/lua-skiplist.c:106-115 | from rank 1 to 2^63 - 1 nothing is listed, where the whole list lies between |
| SkipOrder.SwappedRanks | depends/lua-zset/lua-skiplist.c:102-127 | swapping rank bounds reverses the answer exactly when both are ranks of elements, or neither can be, or the length of the range is not positive as an int |
| SkipOrder.NotReversed | depends/lua-zset/lua-skiplist.c:102-127 | three elements: bounds 1 and 4 list all of them, 4 and 1 none |
| SkipOrder.NarrowedRanks | depends/lua-zset/lua-skiplist.c:61-75 | a removal by rank takes the elements between its 64-bit bounds if and only if narrowing the bounds keeps what lies between them, a condition on the two bounds and the length |
| SkipOrder.RankedIs | depends/lua-zset/skiplist.c:195-221 | the element with rank r is removed exactly if r lies between the bounds, both included, in either order |
| SkipOrder.OneInsteadOfAll | depends/lua-zset/lua-skiplist.c:61-75 | the bounds 1 and 2^32 remove one element instead of all |
| SkipOrder.RunUp | depends/lua-zset/lua-skiplist.c:147-159 | walking upwards from the first score of at least the lower bound until one is above the upper bound collects exactly the range |
| SkipOrder.RunDown | depends/lua-zset/lua-skiplist.c:147-159 | walking downwards from the last score of at most the upper bound collects exactly the range, reversed |
| SkipOrder.WithinSlice | depends/lua-zset/lua-skiplist.c:129-161 | the elements of a score range are consecutive in a sorted list |
| SkipOrder.OverlapsIs | depends/lua-zset/skiplist.c:277-292 | range and scores overlap exactly if the range is not empty, some score is not below it and some score is not above it |
| SkipOrder.NextBefore | depends/lua-zset/skiplist.c:123-130 | how the next node of a level changes when a node is inserted behind it or further on |
| SkipOrder.NextBehind | depends/lua-zset/skiplist.c:123-130 | and behind the new node |
| SkipLinks.SplicedLinked | depends/lua-zset/skiplist.c:123-135 | after a splice every level links exactly the nodes tall enough, in order, with spans equal to true distances, at a level's end to the end of the list |
| SkipLinks.UnlinkedLinked | depends/lua-zset/skiplist.c:148-155 | after an unlink the same holds of the remaining nodes |
| SkipLinks.RaisedLinked | depends/lua-zset/skiplist.c:114-121 | new top levels start with a header link to nothing that spans the whole list |
| SkipLinks.LinksNext | depends/lua-zset/skiplist.c:149 | the test for the removed node singles out exactly the levels it has |
| SkipLinks.WithoutBackward | depends/lua-zset/skiplist.c:156-160 | after an unlink only the next node's backward link is wrong |
| SkipList.SkipList.constructor | depends/lua-zset/skiplist.c:22-37 | a new list is valid and empty |
| SkipList.SkipList.Walk | depends/lua-zset/skiplist.c:100-106 | the inner loop stops at the last node of its level the test accepts, having summed the true distance |
| SkipList.SkipList.Descend | depends/lua-zset/skiplist.c:96-108 | the descent finds the last accepted node of every level and its position |
| SkipList.SkipList.Raise | depends/lua-zset/skiplist.c:114-121 | a taller node raises the level of the list |
| SkipList.SkipList.Splice | depends/lua-zset/skiplist.c:123-130 | the loop splits exactly the spans that cross the new node |
| SkipList.SkipList.Bump | depends/lua-zset/skiplist.c:132-135 | the loop lengthens exactly the spans that pass over it |
| SkipList.SkipList.Insert | depends/lua-zset/skiplist.c:91-143 | with any level from 1 to 32 the list stays valid and its elements are the old ones with the new one at its place |
| SkipList.SkipList.UnlinkAll | depends/lua-zset/skiplist.c:148-155 | the loop takes the node off all its levels and shortens the spans above |
| SkipList.SkipList.Shrink | depends/lua-zset/skiplist.c:161-162 | the level is lowered to that of the tallest element |
| SkipList.SkipList.DeleteNode | depends/lua-zset/skiplist.c:146-164 | the list stays valid without exactly that node, and the update array stays usable |
| SkipList.SkipList.Delete | depends/lua-zset/skiplist.c:167-191 | found is reported exactly for stored elements, of which one is removed at its place; otherwise nothing changes |
| SkipList.SkipList.DescendRank | depends/lua-zset/skiplist.c:200-207 | the descent by position finds the last node of every level before the start rank |
| SkipList.SkipList.DeleteByRank | depends/lua-zset/skiplist.c:195-221 | exactly the ranks from start to end are removed, in order, and returned |
| SkipList.SkipList.DeleteRanks | depends/lua-zset/lua-skiplist.c:61-75 | exactly the ranks between the bounds, in either order and narrowed to 32 bits, are removed, in order, and returned |
| SkipList.SkipList.GetRank | depends/lua-zset/skiplist.c:227-248 | the loops find exactly the rank specified for the heights of the nodes; it belongs to an element with that object not above the one asked for, and one is found if the last such element has the object |
| SkipList.SkipList.GetNodeByRank | depends/lua-zset/skiplist.c:251-273 | the node at that 1-based position, nothing outside 1..length |
| SkipList.SkipList.IsInRange | depends/lua-zset/skiplist.c:277-292 | true exactly when range and scores overlap as intervals, which a gap does too |
| SkipList.SkipList.FirstInRange | depends/lua-zset/skiplist.c:296-313 | the first node of at least the lower bound, perhaps beyond the range, or nothing without overlap |
| SkipList.SkipList.LastInRange | depends/lua-zset/skiplist.c:317-334 | the last node of at most the upper bound, perhaps below the range |
| SkipList.SkipList.RankRange | depends/lua-zset/lua-skiplist.c:102-127 | the elements from the first rank on towards the second, descending for swapped bounds, as many as the length of the range is as an int |
| SkipList.SkipList.ScoreRange | depends/lua-zset/lua-skiplist.c:129-161 | exactly the stored elements in the closed range, also when it falls in a gap, reversed for swapped bounds |
| Strbuf.NewSizeFits | depends/json/strbuf.c:134-159 | the new size holds the requested bytes if and only if growth is exponential or the request lies in the block the old size ends in |
| Strbuf.NewSizeBounds | depends/json/strbuf.c:134-159 | a larger buffer shrinks to the request; exponential growth stops as soon as it suffices, linear growth within one block |
| Strbuf.LinearGrowthTooSmall | depends/json/strbuf.c:153-156 | an input on which linear growth returns a size below the request |
| Strbuf.Strbuf.constructor | depends/json/strbuf.c:44-66 | the initial size, the terminator and an empty buffer |
| Strbuf.Strbuf.CalculateNewSize | depends/json/strbuf.c:134-159 | the method computes the specified size |
| Strbuf.Strbuf.Exponential | depends/json/strbuf.c:151-152 | the loop multiplies until the size suffices |
| Strbuf.Strbuf.Resize | depends/json/strbuf.c:164-180 | whenever growth by the increment reaches the size asked for, the contents survive and there is room for what was asked and a terminator |
| Strbuf.Strbuf.EnsureEmptyLength | depends/json/strbuf.h:95-99 | afterwards the promised room is there and the contents are the same; a negative length asks for nothing |
| Strbuf.Strbuf.AppendCharUnsafe | depends/json/strbuf.h:122-125 | with room left the byte is appended inside the buffer |
| Strbuf.Strbuf.AppendMemUnsafe | depends/json/strbuf.h:134-138 | with room left the bytes are appended inside the buffer |
| Strbuf.Strbuf.AppendChar | depends/json/strbuf.h:116-120 | one byte is appended, growing if needed |
| Strbuf.Strbuf.AppendMem | depends/json/strbuf.h:127-132 | the bytes are appended, growing if needed |
| Strbuf.Strbuf.AppendString | depends/json/strbuf.c:182-198 | byte by byte the same contents, and no more room is used up than bytes were appended; with linear growth too, as long as one step of it suffices |
| Strbuf.Strbuf.EnsureNull | depends/json/strbuf.h:140-143 | the terminator is written inside the buffer |
| Utf8.CodePointDigits | depends/json/lua_cjson.c:793-826 | the shifts and masks of the code take out the digits of a code point to the base 64 |
| Utf8.MarkersAdd | depends/json/lua_cjson.c:793-826 | the `or` that sets lead and continuation markers is an addition |
| Utf8.SurrogateBits | depends/json/lua_cjson.c:850-880 | the mask tests of the code recognise exactly the high and low surrogates, and take out their payloads |
| Utf8.PairBits | depends/json/lua_cjson.c:876-880 | the payloads of a pair, shifted and combined, are the two digits of the code point to the base 1024 |
| Utf8.Utf8RoundTrip | depends/json/lua_cjson.c:793-826 | every scalar value is written as its one well-formed UTF-8 sequence (section 3 of RFC 3629) |
| Utf8.EscapeDecodes | depends/json/lua_cjson.c:837-893 | an escape or surrogate pair that spells a scalar value decodes to its UTF-8 (section 7 of RFC 8259) and has the right length |
| Utf8.EscapeSpells | depends/json/lua_cjson.c:837-893 | and nothing else does: an escape that succeeds spells a scalar value |
| Utf8.UnpairedRejected | depends/json/lua_cjson.c:856-874 | a surrogate that does not begin a pair is rejected |
| JsonText.QuotedRoundTrip | depends/json/lua_cjson.c:464-488 | every byte string survives being quoted and read back, and reading ends right behind it |
| JsonText.ParseEscape | depends/json/lua_cjson.c:928-953 | the parser reads back every byte the escape table writes |
| JsonText.EscapeDenotes | depends/json/lua_cjson.c:154-191 | what the table writes for a byte denotes that byte by section 7 of RFC 8259 |
| JsonText.DenotedRead | depends/json/lua_cjson.c:928-953 | everything that denotes a byte by that section is read as that byte: the byte itself, the two-character escapes, and hexadecimal digits of either case |
| JsonText.OtherRead | depends/json/lua_cjson.c:928-953 | any other character behind a backslash is an error, and outside of escapes every character but quote, backslash and the terminator stands for itself |
| JsonText.IntRoundTrip | depends/json/lua_cjson.c:594-600 | every 64-bit integer survives being written in decimal and read by strtoll, before any character that cannot continue a number |
| JsonText.DigitsDecimal | depends/json/lua_cjson.c:594-600 | a number is written in decimal, without a needless zero in front, and stands for itself |
| JsonText.DecimalRead | depends/json/lua_cjson.c:1014-1030 | and any such decimal number, signed or not, is read as what it stands for, clamped to 64 bits |
| JsonGrammar.ValueParses | depends/json/lua_cjson.c:1158-1276 | whatever spells a document is parsed, as what the document means, up to where its spelling ends |
| JsonGrammar.DecodeExact | depends/json/lua_cjson.c:1279-1317 | decoding yields a value if and only if the text spells, and nothing behind it, a document nested within the limit that means this value, for every text |
| JsonGrammar.LastWins | depends/json/lua_cjson.c:1158-1206 | the entries of an object are those of the last member with each name, and no others |
| JsonLayout.WhiteSkipped | depends/json/lua_cjson.c:1042-1049 | blanks, tabs, line feeds and carriage returns in front of a token change neither the token nor where it ends |
| JsonLayout.BadStart | depends/json/lua_cjson.c:1042-1120 | a character that is neither white space nor can begin a token is an error and is not skipped |
| JsonLayout.MarkHere | depends/json/lua_cjson.c:1065-1069 | brackets, braces, comma and colon are the tokens they stand for |
| JsonLayout.WordHere | depends/json/lua_cjson.c:1087-1100 | so are the three words |
| JsonLayout.DecimalHere | depends/json/lua_cjson.c:1014-1030 | a decimal number is the integer token it stands for, clamped to 64 bits, under either setting of invalid numbers |
| JsonLayout.ZeroRejected | depends/json/lua_cjson.c:978-1011 | with the strict setting a needless zero in front and a hexadecimal number are errors |
| JsonLayout.DecodeLaid | depends/json/lua_cjson.c:1042-1317 | a document of 64-bit integers written with any white space before, between and behind its tokens decodes to what it means |
| JsonRoundTrip.TableKind | depends/json/lua_cjson.c:494-535 | a table is written as an array, up to its largest key, exactly if all its keys are positive integers and the largest is not too far beyond their number; if it is, that is an error, or an object by the setting |
| JsonRoundTrip.EncodeExact | depends/json/lua_cjson.c:678-719 | encoding succeeds exactly for the values whose tables nest within the limit, are not too sparse and have keys and values of a type with a text |
| JsonRoundTrip.KeyIsText | depends/json/lua_cjson.c:653-666 | a key of an object, integer or string, is written as a string and a colon |
| JsonRoundTrip.EncodeIsText | depends/json/lua_cjson.c:678-719 | whatever is encoded is the text of its document without any white space |
| JsonRoundTrip.DecodeEncoded | depends/json/lua_cjson.c:678-1317 | decoding the text of any value that can be encoded and whose objects have different key texts gives that value with the integer keys of objects as strings of their digits, and null for nil and for every missing element of an array |
| JsonRoundTrip.EncodePlain | depends/json/lua_cjson.c:678-719 | every plain value within the depth limit is encoded without error |
| JsonRoundTrip.DecodeOfEncode | depends/json/lua_cjson.c:678-1317 | decoding undoes encoding for every tree of null, booleans, 64-bit integers, byte strings, arrays and objects with distinct string keys within both depth limits |
| JsonRoundTrip.DecodeOfSpaced | depends/json/lua_cjson.c:678-1317 | and so it does with any white space added before, between and behind the tokens of the text |
| JsonRoundTrip.EncodeNoZero | depends/json/lua_cjson.c:678-719 | an encoded text has no zero byte, which the decoder takes for its end |
| JsonOrder.EncodeOrdered | depends/json/lua_cjson.c:494-587 | the text does not depend on the order in which a table traversal meets the elements of an array |
| JsonOrder.DecodeOfEncodeAnyOrder | depends/json/lua_cjson.c:678-1317 | decoding undoes encoding up to that order |
| JsonCodec.AppendEscaped | depends/json/lua_cjson.c:480-486 | one character uses at most six bytes of the reserved room |
| JsonCodec.ReservedExact | depends/json/lua_cjson.c:473-477 | the room reserved as an int is the worst case if and only if the string has at most 357,913,940 bytes; for one byte more it is negative |
| JsonCodec.AppendCharacters | depends/json/lua_cjson.c:480-486 | with six bytes of room for every character no append finds the buffer full; if nothing is escaped, one byte each is exactly what is needed |
| JsonCodec.AppendQuoted | depends/json/lua_cjson.c:464-488 | the unchecked appends write the specified text inside the reserved room for every string whose worst case fits an int; for the others, if nothing is escaped and nothing gets reserved, exactly if the buffer happens to have the room |
| JsonCodec.AppendInteger | depends/json/lua_cjson.c:594-600 | the decimal text of a 64-bit integer fits the reserved room |
| JsonCodec.CodepointToUtf8 | depends/json/lua_cjson.c:793-826 | shifts, masks and `or` on a code point give its specified UTF-8 |
| JsonCodec.LuaArrayLength | depends/json/lua_cjson.c:494-535 | the loop computes the array length, -1 for an object, or the sparse-array error, exactly as long as the keys it counts and the limit it compares with fit an int |
| JsonCodec.AppendArray | depends/json/lua_cjson.c:567-587 | the loop writes the specified array text |
| JsonCodec.AppendObject | depends/json/lua_cjson.c:636-675 | the loop writes the specified object text, integer keys in quotes (JsonRoundTrip.KeyIsText) |
| JsonCodec.AppendData | depends/json/lua_cjson.c:678-719 | the buffer gains exactly the specified text, or the specified error is reported |
| JsonCodec.EncodeText | depends/json/lua_cjson.c:721-752 | a whole value, into an emptied buffer |
| JsonCodec.TextFitsExact | depends/json/lua_cjson.c:1303 | the token buffer is larger than the text if and only if the text has fewer than 2^31 - 1 bytes |
| JsonCodec.BufferOfSix | depends/json/lua_cjson.c:1303 | a text of 2^32 + 5 bytes gets a token buffer of six |
| JsonCodec.Parser.constructor | depends/json/lua_cjson.c:1279-1317 | the token buffer is sized from the text, once |
| JsonCodec.Parser.AppendUnicodeEscape | depends/json/lua_cjson.c:837-893 | an escape is decoded into the token buffer without growing it, exactly if it is valid |
| JsonCodec.Parser.NextCharacter | depends/json/lua_cjson.c:920-953 | one character or escape is decoded; the buffer never grows past the bytes read |
| JsonCodec.Parser.NextStringToken | depends/json/lua_cjson.c:903-961 | the loop yields the specified string or error and never overruns the buffer |
| JsonCodec.Parser.ReadToken | depends/json/lua_cjson.c:1037-1120 | white space is skipped (JsonLayout.WhiteSkipped) and the specified token returned |
| JsonCodec.Parser.ReadNumber | depends/json/lua_cjson.c:1014-1030 | numbers: an integer token, or the invalid-number error |
| JsonCodec.Parser.ParseArrayContext | depends/json/lua_cjson.c:1209-1244 | the loop yields the specified array or error, depth restored |
| JsonCodec.Parser.ParseObjectContext | depends/json/lua_cjson.c:1158-1206 | the loop yields the specified object or error; a repeated key keeps its last value |
| JsonCodec.Parser.ProcessValue | depends/json/lua_cjson.c:1247-1276 | a value token yields the specified value or error |
| JsonCodec.DecodeText | depends/json/lua_cjson.c:1279-1317 | the decoder computes the specified result for every text whose length the token buffer can be sized from |
| Crc32.Table16Correct | depends/lua-crc32/ngx_crc32.c:25-31 | each entry of the small table is four bit steps of its nibble |
| Crc32.Table256Correct | depends/lua-crc32/ngx_crc32.c:33-98 | each entry of the large table is eight bit steps of its byte |
| Crc32.BitsAtOnce | depends/lua-crc32/ngx_crc32.h:40-46 | feeding bits one by one equals adding them at once and stepping |
| Crc32.Short | depends/lua-crc32/ngx_crc32.h:34-49 | over every byte string the nibble loop computes the bit-at-a-time CRC-32 (Annex D of the PNG specification, second edition) |
| Crc32.Long | depends/lua-crc32/ngx_crc32.h:52-64 | so does the byte loop |
| Crc32.Register.Update | depends/lua-crc32/ngx_crc32.h:71-83 | the register after an update is the bit-at-a-time register after the same bytes |
| Crc32.UpdateInPieces | depends/lua-crc32/ngx_crc32.h:71-83 | updating piece by piece equals updating with the concatenation |
| Crc32.OneByteDetected | depends/lua-crc32/ngx_crc32.h:52-64 | changing one byte anywhere always changes the checksum |
| Lru.SetConserves | game/liblua/LRUCacheExt.lua:141-149 | a new key drives out as many of the least recent entries as make room for it, none if there is room, and loses none without reporting it: what stays and what goes are the old list |
| Lru.SetKnown | game/liblua/LRUCacheExt.lua:162-165 | setting a key that is there drives out nothing: its entry gets the value and the front place and keeps its time |
| Lru.FreshIs | game/liblua/LRUCacheExt.lua:44-63 | an entry outlives a check exactly if no more than the delay has passed since its time; entries are judged one by one and keep their order |
| Lru.OperationsKeepDistinct | game/liblua/LRUCacheExt.lua:94-214 | every operation keeps the keys different |
| Lru.Cache.constructor | game/liblua/LRUCacheExt.lua:24-41 | a new cache is empty |
| Lru.Cache.Check | game/liblua/LRUCacheExt.lua:80-88 | the value of a key, without touching the order |
| Lru.Cache.Get | game/liblua/LRUCacheExt.lua:94-105 | a hit returns the value and becomes most recent, its time unchanged; a miss changes nothing |
| Lru.Cache.PushFront | game/liblua/LRUCacheExt.lua:174-189 | the relinking moves the node to the front and keeps both ends |
| Lru.Cache.Remove | game/liblua/LRUCacheExt.lua:191-214 | exactly the key's entry goes, from list, map and count |
| Lru.Cache.MakeRoom | game/liblua/LRUCacheExt.lua:141-149 | the loop evicts exactly the least recent entries, one report each in that order, and breaks down exactly at a capacity of one |
| Lru.Cache.Set | game/liblua/LRUCacheExt.lua:107-172 | the new recency list and the evicted entries; the call breaks down exactly when a new key meets a capacity of one that more than one entry exceeds |
| Lru.LowerCapacity | game/liblua/LRUCacheExt.lua:65-172 | two entries, then a capacity of one: the next new key breaks the cache |
| Lru.Cache.ExpiredKeys | game/liblua/LRUCacheExt.lua:48-52 | the loop collects exactly the keys of expired entries, each once |
| Lru.Cache.TimeoutCheck | game/liblua/LRUCacheExt.lua:44-63 | exactly the expired entries go, each reported once, and the others keep their order |
| Lru.Cache.Clean | game/liblua/LRUCacheExt.lua:236-248 | the cache is empty, and the callback of every entry has been scheduled exactly once, in some order |
| HashOrder.SortCorrect | depends/libfaketime/src/uthash.h:961-1043 | for any list and any total preorder the sort ends with a sorted permutation in which elements that tie keep their order |
| HashOrder.SortSame | depends/libfaketime/src/uthash.h:961-1043 | the sort keeps exactly the same elements, for any comparison |
| HashOrder.SortSorted | depends/libfaketime/src/uthash.h:961-1043 | from sorted runs of any length on, for a total preorder, it ends sorted |
| HashOrder.SortStable | depends/libfaketime/src/uthash.h:961-1043 | from sorted runs of any length on elements that tie keep their order |
| HashOrder.MergeStable | depends/libfaketime/src/uthash.h:988-1028 | in a merge ties of the left run come first |
| HashOrder.PassRuns | depends/libfaketime/src/uthash.h:971-1033 | a pass turns sorted runs of k into sorted runs of 2k |
| HashSort.MergeRuns | depends/libfaketime/src/uthash.h:988-1028 | the in-place merge loop outputs exactly the merge of the two runs, with next and prev links right |
| HashSort.SkipRun | depends/libfaketime/src/uthash.h:977-986 | the counting loop steps over one run |
| HashSort.Pass | depends/libfaketime/src/uthash.h:971-1033 | one pass leaves a consistent doubly linked list that is the specified merge of runs, and ends the sort exactly when one merge was enough |
| HashSort.Sort | depends/libfaketime/src/uthash.h:961-1043 | the loop terminates with the specified list, its next, prev, head and tail consistent |
| HashTable.CeilShiftIsCeiling | depends/libfaketime/src/uthash.h:920-922 | shift and mask compute the number of items over buckets, rounded up |
| HashTable.Attach | depends/libfaketime/src/uthash.h:840-853 | a node is linked before its bucket's chain, in both directions, and counted |
| HashTable.UnlinkHandle | depends/libfaketime/src/uthash.h:862-874 | a node is taken out of its chain, wherever it stands, and the head patched |
| HashTable.UnlinkOrder | depends/libfaketime/src/uthash.h:458-473 | the same for the application list, with both ends |
| HashTable.AppendList | depends/libfaketime/src/uthash.h:278-284 | the node becomes the last of the application list |
| HashTable.PlaceAllFacts | depends/libfaketime/src/uthash.h:924-943 | redistribution puts every node into its bucket, once, and invents none |
| HashTable.Redistributed | depends/libfaketime/src/uthash.h:924-943 | and the chains then hold what the old ones held |
| HashTable.MoveNode | depends/libfaketime/src/uthash.h:927-940 | one step of the loop: links, count, multiplier and the count of items above the ideal length |
| HashTable.MoveChain | depends/libfaketime/src/uthash.h:926-942 | the inner loop moves a whole old chain while its nodes are being relinked |
| HashTable.Redistribute | depends/libfaketime/src/uthash.h:924-943 | the outer loop moves all chains |
| HashTable.Table.constructor | depends/libfaketime/src/uthash.h:396-411 | no table: head is null |
| HashTable.Table.Find | depends/libfaketime/src/uthash.h:156-173 | for any hash function, a handle is found exactly for the keys present, and it is the right one |
| HashTable.Table.FindInBkt | depends/libfaketime/src/uthash.h:818-837 | the loop over a chain finds the handle with that hash value and key, if any |
| HashTable.Table.ExpandBuckets | depends/libfaketime/src/uthash.h:906-952 | twice the buckets hold the same nodes; the ideal length is the items over the buckets rounded up, nonideal_items the sum over buckets of the excess, and the counters that stop expansion follow |
| HashTable.Table.MakeTable | depends/libfaketime/src/uthash.h:212-246 | 32 empty buckets |
| HashTable.Table.AddToTable | depends/libfaketime/src/uthash.h:337-345 | the node is in its bucket; the buckets are doubled exactly when the chain has reached its limit and expansion is not switched off |
| HashTable.Table.Add | depends/libfaketime/src/uthash.h:396-415 | a new key is appended to the application order, and list, buckets, counts and lookup stay consistent |
| HashTable.Table.DelInBkt | depends/libfaketime/src/uthash.h:862-874 | the bucket's chain, head and count without the node, everything else unchanged |
| HashTable.Table.Delete | depends/libfaketime/src/uthash.h:450-477 | exactly that node goes from the application order and its bucket; the last one takes the table with it |
| HashTable.Table.SortItems | depends/libfaketime/src/uthash.h:961-1043 | the application order becomes the specified one: a permutation for any comparison, sorted and stable for a total preorder; the buckets are untouched |

## Left out

- Allocation failure, locks, real clocks, logging, Lua stack handling and callbacks into Lua: times, hash values and levels of new skip list nodes are arbitrary parameters; what is called back is returned as a sequence.
- KCP and timer lists are sequences held in fields of the objects, not `IQUEUE` or `link_list` nodes: update in place, order and counters are modelled, pointer surgery is not. The skip list, the LRU list and both lists of the hash table are modelled pointer by pointer.
- KCP congestion control and round-trip estimation (depends/lua-kcp/kcp/ikcp.c:543-555, 875-897, 1116-1137): `Kcp.Ikcp.SetTuning` lets them set the congestion window and the timeout to any value at any time, so nothing is proved about speed; `ikcp_setmtu` during a run, the growth of the ack block, null buffers and negative lengths are left out. Sizes are unbounded integers.
- Kcp.Ikcp.InputOne: the round-trip estimate an ack feeds is left to `Kcp.Ikcp.SetTuning`.
- Kcp.Ikcp.InputBytes: so is the growth of the congestion window after an input.
- Kcp.Ikcp.FlushAll: so are the new ssthresh and congestion window at the end of a flush.
- KcpInvariant.SomethingAtCheck: requires an interval below 2^31; `ikcp_interval` and `ikcp_nodelay` keep it between 10 and 5000.
- KcpSystem.Reachable: assumes that neither side cuts more than 2^31 fragments in a run, so that no sequence number is used twice; the invariants of one endpoint hold without this bound, at any place on the 32-bit circle. A datagram is delivered only if it was sent; forged datagrams are covered by KcpInvariant.InputKeeps alone.
- KcpInvariant.EndpointInvariant: that the expected number is not held back is promised as long as the receive window is not enlarged during the run (KcpInvariant.ApplyKeeps names the exception), and rcv_buf lies within the largest receive window configured so far, which is the current one unless it was reduced.
- KcpSystem.RefusedSend: a stream send refused with -2 may already have filled up the last queued segment, so the promise of all or nothing is stated with its exact condition; KcpSystem.EnqueueData says which bytes were taken.
- TimerWheel.Timer.TimerExecute: callbacks do not register timers while a list is being dispatched. A timer they register has a positive delay and goes to a later slot, as if it were registered after the update.
- Skip list scores are reals, so NaN, infinities and rounding are not modelled; lengths and spans do not wrap; rank bounds of callers are 64-bit and are narrowed as the code does. `compareslObj` on plain objects subtracts lengths into an int; the model compares them. The plain sorted set is the case of equal stamps of the ordered set with stamps. The header comment of depends/lua-timezset/timeskiplist.h:9 states another order of stamps than the code; the model follows the code.
- SkipList.SkipList.GetRank: compares only the object where the descent stops, so an object asked for with a larger score than its own may be found; SkipOrder.RankExactAt is the exact condition for given heights, SkipOrder.RankExact for all heights.
- SkipList.SkipList.RankRange: lists what the length of the range as an int allows; SkipOrder.ListedExact is the exact condition under which that is what lies between the bounds. A negative bound arrives as an unsigned 64-bit number.
- SkipList.SkipList.DeleteRanks: removes by the narrowed bounds; SkipOrder.NarrowedRanks is the exact condition under which these are the bounds asked for.
- SkipList.SkipList.FirstInRange: may return a node outside the range when the range falls in a gap; the loops that call it make the answer exact (SkipList.SkipList.ScoreRange).
- SkipOrder.SwappedRanks: the answers for swapped rank bounds are not always reversed, because only the first bound has to be a rank; the lemma gives the exact condition, for lists of fewer than 2^31 elements.
- Strbuf.Strbuf.Resize: requires that growth by the increment reaches the size asked for, which is always so for the default, negative (exponential) increment; Strbuf.NewSizeFits is the exact condition, and the appends require the same. Sizes do not overflow an int.
- JsonCodec.AppendData: requires strings of at most 357,913,940 bytes and tables that can be counted in ints; JsonCodec.ReservedExact and JsonCodec.LuaArrayLength give these conditions exactly. Numbers with fractions are left out.
- JsonCodec.LuaArrayLength: promises nothing once a key it has to count, or the number of items times the sparse ratio, exceeds an int, where the C conversion is undefined.
- JsonCodec.Parser.ReadNumber: the value of a number with a fraction or exponent is left to the C library.
- JsonCodec.DecodeText: has no result for a text of 2^31 - 1 bytes or more, for which the token buffer is too small (JsonCodec.TextFitsExact), and ends with an error at a number with a fraction or exponent.
- JSON numbers that are not integers, in keys or values, and the texts of infinities and NaN: the decoder reports a number with a fraction or exponent as one it leaves to the C library. strtoll is modelled without leading white space, which the caller never leaves. Error positions and messages and the option setters are left out.
- JSON tables are lists of entries in traversal order with distinct keys; an empty table encodes as an object and is decoded to an empty table, so it is in the round trip as an object. Of two entries with one key, which no Lua table has, an array keeps the first.
- ngx_crc32_table_init, which copies the small table to an aligned place.
- Lru.Cache.Clean: the callbacks that `clean` schedules are returned as a list in any order, as `pairs` yields them; when they run is left out.
- LRU: `GetAll`, `PrintCache`, `SetIsUpdateTimeOut` and `GetCount` are not modelled. LRUCache.lua is the same code without times.
- Lru.Cache.Set: with a capacity of one and more than one entry stored, a new key makes the eviction loop read a missing predecessor; the result `Broken` stands for that error, with its exact condition, and nothing is promised about the cache afterwards.
- Hash tables: allocation failure and its rollback, Bloom filters, the debugging checks, in-order adds, replacement, selection and clearing; the hash functions themselves are arbitrary. Key and hash value of a handle are set when it is made rather than when it is added. Counts do not wrap.
- HashTable.Table.Add: requires a key that is not present and a handle that is not in the table, as the macro does of its callers.
- libfaketime apart from uthash.h, and the remaining Lua services of the server.
