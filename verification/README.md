# The byte and deadline core of the burba board firmware and its junction

A Dafny model of the four pieces of code that every message and every timeout of the board depends on, with proofs of
what they promise. `dafny verify dfyconfig.toml` checks the whole project; the modules can be read in the order below.

**Protocol Buffers** (`burba/sys/protobuf-c`). `ProtoModel` has descriptors, message trees and one reference encoding.
The size pass (`ProtoSize`), the packer for a flat buffer (`ProtoPack`, with its back-patched length prefixes) and the
packer for a growing buffer (`ProtoBuffer`) are methods over arrays, all proved against that encoding. `ProtoScan` and
`ProtoParse` are the two parsing passes as functions; `ProtoLookup`, `ProtoReaders` and `ProtoUnpack` are the imperative
parser, proved equal to them: range search, lookup cache, slabs, counting, storage set aside and filled. On the
functions rest the round trip (`ProtoRoundTrip`), the law that parsing a concatenation merges (`ProtoConcat`) and the
agreement of the two passes (`ProtoTwoPass`). `Base128` holds the varints that all three wire formats share.
`ProtoBytes` says in plain numbers what is written for every type, `ProtoMeaning` what every input means.

**Timers** (`burba/sys/xtimer_32`). `TimerQueue` is the queue with its epoch words and match register as a state
machine, with what holds over all runs: order, ties, deadlines, and how a timer leaves. `XTimer` is the linked list
itself, every operation proved to be a step.

**MQTT packets** (`burba/sys/paho`, MQTT 3.1.1). `MqttModel` and `MqttPacket` are lengths, strings, framing; then one
module for each packet: writers that leave exactly the packet in the buffer or nothing, readers, and what the one makes
of the output of the other. `MqttBytes` has the packets in the numbers of the standard, `MqttMeaning` what the readers
make of any bytes. `MqttReader` is the resumable reader, against the blocking one.

**NAIS frames and routing** (`burba/sys/bocia`, `pynais`). `NaisFrame` has the frame writers and readers of both sides,
`NaisUart` and `NaisTape` the two byte-by-byte recognisers. `NaisRouting` is the junction as a state machine: the byte
stream of every connection, cut into messages by the tape, the queues, the dispatch, and the boards that take frames out
of what is written to them and answer. `NaisRemains` and `NaisUntidy` say what becomes of bytes that the tape does not
take as they were sent, and of the answers behind them; `NaisMisrouting` has whole runs in which answers go astray.
`NaisConnections` says who is connected and what is written to whom from then on. `NaisMessages` has the six message
kinds, where everything comes together, `NaisBytes` has them byte by byte, and `NaisAcks` says exactly what the tape takes
of every acknowledgement.

Every writer states the whole buffer afterwards: `Splice(before, at, bytes)` is the old contents with `bytes` at offset
`at`. Where a property fails on part of the inputs, the lemma gives the exact condition, and the code is modelled as it
is. Cases where the code departs from its documentation or comments:

- `MQTTPacket_len` counts one byte too many at four lengths, and one too few from 2^28 on (`MqttModel.PacketLengthExact`).
- `MQTTDeserialize_suback` takes one entry more than `maxcount`; the caller's array must have room for it.
- The PUBLISH, SUBSCRIBE and UNSUBSCRIBE readers fetch a packet id without a check, so a packet that ends inside its id
  is accepted, PUBLISH with a negative payload length (`MqttPublish.PublishReadBack`; an input: `MqttPublish.CutInItsId`).
- `merge_messages` departs from "the last one wins" for required members, empty bytes and unknown fields
  (`ProtoConcat.ConcatenationIsMerge`; an input: `ProtoConcat.DefaultIsNotMerged`).
- A frame is handed on by `serial_loop` only if it has 1 to 127 payload bytes (`NaisUart.FrameComesThrough`).
- `MessageTape` begins anew at every byte 0x1E, and what it takes is decided by the bytes after the last one
  (`NaisTape.LastStartDecides`). A frame without a second 0x1E is recognised (`NaisTape.FrameTaken`); one with fewer than
  six bytes behind it never is (`NaisTape.SecondStartSpoils`), nor is one with 30 bytes of payload and no further 0x1E,
  unless its bytes from the fifth on happen to fit (`NaisTape.ThirtyBytes`).
- So the junction keeps answers apart if every frame that is sent is taken whole and fits the receive buffer of the board
  (`NaisRouting.AnswersGoHome`). An answer of which the tape takes nothing is never read by itself, but only as the
  beginning of a longer message (`NaisUntidy.UntidyAnswerSticks`). The next frame with a single 0x1E ends that message
  (`NaisUntidy.UntidyAnswersMix`), or neither it nor any such frame after it does (`NaisUntidy.DeafForGood`). What is left
  of an answer that is taken in part can go to every connection, with the next one (`NaisUntidy.LeftOverIsForAll`).
- For acknowledgements it is known exactly which of these happens (`NaisAcks.AckTakes`). They are taken whole if neither
  connection nor id is 30 and the leading group of the status is not. Otherwise nothing is taken, but for connection 30,
  an id from 128 on and status 23, where the end delimiter is left over. After nothing has been taken, the next frame
  with a single 0x1E is joined, or, if the id is 30 and the status has five groups or more, lost with all such frames
  after it. Runs from the empty junction: `NaisMisrouting.AnswerGoesAstray` (status 30) and
  `NaisMisrouting.AnswerGoesToAll` (connection 30, id 128, status 23).
- Two requests that are joined are still two for the board, and the second is answered to every connection
  (`NaisMisrouting.SecondIsAnsweredToAll`).
- A frame from a connection with a number above 255 ends the dispatching task of the line that it is to be written to,
  which is then silent as long as anyone is connected to it (`NaisConnections.BigNumberSilences`, `StaysSilent`).
- `xtimer_remove` takes a zero target for a timer that is not set, but setting one can leave a zero there: exactly if the
  time asked for is the overhead modulo 2^32 (`XTimer.SetThenRemoved`, `XTimer.Set64ThenRemoved`). Setting a timer that is
  still in the list always damages it: it has no end any more, or has lost other timers (`XTimer.XTimer.SetAgain`).
- `marshall` writes no length byte for an empty payload (`NaisFrame.PythonWritesWhatCWrites`).

## Model

| member | source | states |
|---|---|---|
| Base128.UInt64SizeIsLength | burba/sys/protobuf-c/protobuf-c.c:344-364 | the size table gives, for every 64-bit value, the length of its varint |
| Base128.UInt32SizeIsLength | burba/sys/protobuf-c/protobuf-c.c:258-272 | the same for 32-bit values |
| Base128.Int32SizeIsLength | burba/sys/protobuf-c/protobuf-c.c:283-299 | a negative int32 is sized as the ten bytes of its sign extension |
| Base128.TagSizeIsLength | burba/sys/protobuf-c/protobuf-c.c:233-247 | the tag size is right for every field number and wire type |
| Base128.ZigZagRoundTrip32 | burba/sys/protobuf-c/protobuf-c.c:2267-2274 | zigzag and unzigzag are inverse both ways on 32 bits, the minimum included |
| Base128.ZigZagRoundTrip64 | burba/sys/protobuf-c/protobuf-c.c:2311-2318 | the same on 64 bits |
| Base128.Uint32Pack | burba/sys/protobuf-c/protobuf-c.c:692-716 | the unrolled writer leaves exactly the varint in the buffer |
| Base128.Int32Pack | burba/sys/protobuf-c/protobuf-c.c:729-744 | negative values go out as the varint of their 64-bit two's complement |
| Base128.Uint64Pack | burba/sys/protobuf-c/protobuf-c.c:774-801 | the writer that splits the word into halves leaves exactly the varint |
| Base128.VarintRoundTrip | burba/sys/protobuf-c/protobuf-c.c:692-716 | the value of the varint of a number is that number |
| Base128.VarintTerminates | burba/sys/protobuf-c/protobuf-c.c:2570-2582 | whatever follows a varint, its end is found where it was written |
| Base128.ParseUint32IsLowWord | burba/sys/protobuf-c/protobuf-c.c:2243-2259 | the five-group reader yields the value of any varint modulo 2^32 |
| Base128.ParseUint64 | burba/sys/protobuf-c/protobuf-c.c:2291-2309 | the shifting loop yields the value of a varint of up to ten bytes modulo 2^64 |
| ProtoBytes.VarintInBytes | burba/sys/protobuf-c/protobuf-c.c:692-716 | groups of seven bits, the least significant first, all but the last with the high bit |
| Bytes.LittleEndianRoundTrip | burba/sys/protobuf-c/protobuf-c.c:831-875 | fixed-width words come back from their bytes |
| ProtoBytes.FourBytes | burba/sys/protobuf-c/protobuf-c.c:831-845 | a 32-bit word has its least significant byte first |
| ProtoBytes.EightBytes | burba/sys/protobuf-c/protobuf-c.c:860-875 | so has a 64-bit word |
| ProtoLookup.IntRangeLookup | burba/sys/protobuf-c/protobuf-c.c:1883-1922 | on every sorted disjoint table the binary search returns what a linear scan returns, or -1 |
| ProtoLookup.LookupFindsField | burba/sys/protobuf-c/protobuf-c.c:2938-2951 | looking up a tag in the range table finds the field with that number, if there is one |
| ProtoLookup.CachedFieldIsFresh | burba/sys/protobuf-c/protobuf-c.c:2942-2961 | a cached field whose number matches is the field a fresh lookup finds |
| ProtoPack.TagWithWire | burba/sys/protobuf-c/protobuf-c.c:1004-1053 | or-ing the wire type into the first tag byte gives the tag of number and wire type |
| ProtoPack.TenfoldNeedsOneMore | burba/sys/protobuf-c/protobuf-c.c:1257-1340 | a length at most ten times as large needs at most one more varint byte |
| ProtoPack.LengthGuess | burba/sys/protobuf-c/protobuf-c.c:1326-1340 | the assertion on the guessed length prefix can never fail |
| ProtoPack.BackPatchedPayload | burba/sys/protobuf-c/protobuf-c.c:1257-1340 | after the memmove the buffer holds the length of the payload and then its elements, and is otherwise untouched |
| ProtoPack.PackedFieldPack | burba/sys/protobuf-c/protobuf-c.c:1250-1340 | tag, length and elements of a packed field; nothing for an empty one |
| ProtoPack.PrefixedMessagePack | burba/sys/protobuf-c/protobuf-c.c:954-967 | a nested message packed first and moved up by its prefix ends up length-prefixed in place |
| ProtoPack.RequiredFieldPack | burba/sys/protobuf-c/protobuf-c.c:1004-1053 | tag and body of one value of any type |
| ProtoPack.RepeatedFieldPack | burba/sys/protobuf-c/protobuf-c.c:1341-1352 | an unpacked repeated field is its elements, each with its tag, in order |
| ProtoPack.MessagePack | burba/sys/protobuf-c/protobuf-c.c:1366-1405 | the flat packer writes the encoding of the message, returns its length, and touches no other byte |
| ProtoBytes.TagOfField | burba/sys/protobuf-c/protobuf-c.c:1004-1053 | a value is written as eight times its number plus 0, 1, 2 or 5 by its type, and its body |
| ProtoBytes.ScalarBytes | burba/sys/protobuf-c/protobuf-c.c:1013-1041 | the bytes of every scalar, by its type and value |
| ProtoBytes.PrefixedBytes | burba/sys/protobuf-c/protobuf-c.c:1042-1050 | strings up to their first NUL, bytes and nested messages, behind their length |
| ProtoBytes.PackedBytes | burba/sys/protobuf-c/protobuf-c.c:1250-1340 | packed elements share one tag of wire type 2 and one length |
| ProtoBytes.UnsetRequired | burba/sys/protobuf-c/protobuf-c.c:1004-1053 | a required member that was never set is written as its default, and without one as zero or empty |
| ProtoBytes.InOrder | burba/sys/protobuf-c/protobuf-c.c:1366-1405 | the fields are written in the order of the descriptor, and then the unknown ones |
| ProtoSize.RequiredFieldSize | burba/sys/protobuf-c/protobuf-c.c:411-459 | the size of one value is the length of its encoding |
| ProtoSize.PackedFieldSize | burba/sys/protobuf-c/protobuf-c.c:540-615 | the size of a packed field is the length of its encoding |
| ProtoSize.MessageSize | burba/sys/protobuf-c/protobuf-c.c:637-670 | the size pass returns the length of the encoding of the message |
| ProtoBuffer.SimpleBuffer.Append | burba/sys/protobuf-c/protobuf-c.c:184-213 | the doubling buffer holds its old contents followed by the new bytes |
| ProtoBuffer.PackedToBuffer | burba/sys/protobuf-c/protobuf-c.c:1771-1800 | the separately computed payload length is the length of what is appended |
| ProtoBuffer.MessageToBuffer | burba/sys/protobuf-c/protobuf-c.c:1825-1872 | the buffer packer appends the same encoding that the flat packer writes |
| ProtoScan.ScanConcat | burba/sys/protobuf-c/protobuf-c.c:2926-3037 | scanning a concatenation is concatenating the scans, failures included |
| ProtoParse.ParseAllConcat | burba/sys/protobuf-c/protobuf-c.c:3115-3130 | parsing members in two portions is parsing them in one |
| ProtoReaders.ParseTagAndWiretype | burba/sys/protobuf-c/protobuf-c.c:1924-1951 | the tag reader agrees with the reference on every input, failures included |
| ProtoReaders.ScanLengthPrefixed | burba/sys/protobuf-c/protobuf-c.c:1966-1993 | a length prefix is accepted exactly if all that it announces is there |
| ProtoReaders.CountTerminators | burba/sys/protobuf-c/protobuf-c.c:1995-2003 | counts the bytes that end a varint |
| ProtoReaders.CountPackedElements | burba/sys/protobuf-c/protobuf-c.c:2199-2241 | the element count of a packed payload, or failure, for every type |
| ProtoMeaning.CountMeaning | burba/sys/protobuf-c/protobuf-c.c:2199-2241 | the count of every type in plain numbers: words that must come out even, one byte for each bool, the ends of varints |
| ProtoReaders.ReadScalar | burba/sys/protobuf-c/protobuf-c.c:2343-2420 | decodes a scalar of any type, or refuses the wire type |
| ProtoMeaning.ScalarMeaning | burba/sys/protobuf-c/protobuf-c.c:2343-2420 | the value of every scalar by its bytes, and the wire type that it must have |
| ProtoMeaning.PackedMeaning | burba/sys/protobuf-c/protobuf-c.c:2691-2704 | packed booleans are one byte each, 0 or 1 |
| ProtoMeaning.PackedFirst | burba/sys/protobuf-c/protobuf-c.c:2584-2690 | any other packed element is read as it is alone |
| ProtoMeaning.ExtentMeaning | burba/sys/protobuf-c/protobuf-c.c:2966-3004 | how many bytes belong to a member, by its wire type |
| ProtoMeaning.BadMemberAnywhere | burba/sys/protobuf-c/protobuf-c.c:2926-3004 | a member that is cut off or of a wire type that is not known spoils the message, wherever it stands |
| ProtoMeaning.PrefixedMeaning | burba/sys/protobuf-c/protobuf-c.c:2396-2475 | strings and bytes are what stands behind the length, nested messages what that unpacks to; any other wire type is refused |
| ProtoMeaning.WrongWireRefused | burba/sys/protobuf-c/protobuf-c.c:2721-2771 | in what is accepted every known field has its own wire type, or 2 for a packed list; a bool may have any |
| ProtoMeaning.OddPackedRefused | burba/sys/protobuf-c/protobuf-c.c:3039-3050 | a packed list of words that does not come out even spoils the message |
| ProtoMeaning.RequiredMeaning | burba/sys/protobuf-c/protobuf-c.c:3055-3065 | what is accepted has every required member that has no default |
| ProtoMeaning.NothingRequired | burba/sys/protobuf-c/protobuf-c.c:3055-3065 | the empty input is accepted exactly if every required member has a default, and gives the initial message |
| ProtoTwoPass.PackedCountsAgree | burba/sys/protobuf-c/protobuf-c.c:2584-2710 | a packed payload that parses has exactly the number of elements that pass 1 counted |
| ProtoTwoPass.MemberFills | burba/sys/protobuf-c/protobuf-c.c:2721-2771 | one member adds to its own field what pass 1 counted for it, and to no other field |
| ProtoTwoPass.TwoPassAgreement | burba/sys/protobuf-c/protobuf-c.c:3039-3130 | on success pass 2 has filled exactly the counts of pass 1, for each field and for unknown ones |
| ProtoRoundTrip.TagParses | burba/sys/protobuf-c/protobuf-c.c:1924-1951 | a written tag reads back, whatever follows it |
| ProtoRoundTrip.ScalarComesBack | burba/sys/protobuf-c/protobuf-c.c:2343-2420 | every scalar of every type decodes to itself (booleans 0 and 1) |
| ProtoRoundTrip.PackedComesBack | burba/sys/protobuf-c/protobuf-c.c:2584-2710 | a packed payload parses to the elements it was written from |
| ProtoRoundTrip.EitherForm | burba/sys/protobuf-c/protobuf-c.c:2756-2762 | a repeated scalar field reads the same from its packed form as from its unpacked one, whichever its descriptor asks for |
| ProtoRoundTrip.RoundTrip | burba/sys/protobuf-c/protobuf-c.c:2863-3154 | unpacking what pack wrote gives the message back, nested messages, packed fields and unknown fields in order included |
| ProtoConcat.ConcatenationJoins | burba/sys/protobuf-c/protobuf-c.c:2926-3065 | for flat descriptors, parsing a concatenation of two parsable halves takes the last value of single members and appends repeated ones, and fails exactly if the members are too many together |
| ProtoConcat.ConcatenationIsMerge | burba/sys/protobuf-c/protobuf-c.c:2021-2189 | that is what merge_messages makes of the two messages exactly if no unknown field, required member with a default, empty bytes value or excess of members gets in the way |
| ProtoConcat.DefaultIsNotMerged | burba/sys/protobuf-c/protobuf-c.c:2021-2189 | for a schema with its table, two halves of which only the first sets a required member that has a default: the parse keeps it and the merge loses it |
| ProtoMeaning.MergeMeaning | burba/sys/protobuf-c/protobuf-c.c:2021-2189 | what merge_messages makes of one member, case by case |
| ProtoMeaning.TwiceIsConcatenated | burba/sys/protobuf-c/protobuf-c.c:2443-2475 | a flat submessage that occurs twice reads as one whose bytes are those of both on end, exactly where merging does not depart from that rule |
| ProtoUnpack.SlabList.Add | burba/sys/protobuf-c/protobuf-c.c:3007-3026 | members are kept in order; the slabs are full exactly at 134217712 of them |
| ProtoUnpack.CachedLookup | burba/sys/protobuf-c/protobuf-c.c:2938-2961 | with or without the cache, the field found is the one with the number |
| ProtoUnpack.ScanPass | burba/sys/protobuf-c/protobuf-c.c:2926-3037 | pass 1 accepts what the reference scan accepts, with its members, counts and required bits |
| ProtoUnpack.FillPacked | burba/sys/protobuf-c/protobuf-c.c:2584-2710 | packed elements are stored in the room set aside for them and nowhere else |
| ProtoUnpack.FillMember | burba/sys/protobuf-c/protobuf-c.c:2721-2771 | storing one member succeeds exactly if it parses, stays within the counts, and leaves the parsed message |
| ProtoUnpack.FillPass | burba/sys/protobuf-c/protobuf-c.c:3115-3130 | pass 2 ends with the parsed message and no room left over |
| ProtoUnpack.MergeMessages | burba/sys/protobuf-c/protobuf-c.c:2021-2189 | the merge loop computes the reference merge, recursing into optional submessages |
| ProtoUnpack.MessageUnpack | burba/sys/protobuf-c/protobuf-c.c:2863-3154 | on every input the two-pass parser returns the reference result, or NULL exactly where that fails |
| TimerQueue.InsertKeeps | burba/sys/xtimer_32/xtimer.c:113-150 | insertion keeps the queue sorted, free of duplicates and all precedences, and puts the timer behind every one due no later and before every one due later |
| TimerQueue.WithoutKeeps | burba/sys/xtimer_32/xtimer.c:151-163 | taking a timer out keeps order and all others |
| TimerQueue.AddArms | burba/sys/xtimer_32/xtimer.c:113-150 | setting a timer arms the match register exactly if it becomes the head and is due in this epoch |
| TimerQueue.RemoveArms | burba/sys/xtimer_32/xtimer.c:627-647 | removing the head arms it for the next timer whatever its epoch, and no other removal touches it |
| TimerQueue.WrapArms | burba/sys/xtimer_32/xtimer.c:266-318 | a wrap arms it for the first timer left if that is due in the new epoch |
| TimerQueue.MatchArms | burba/sys/xtimer_32/xtimer.c:193-250 | the match handler leaves it armed for a head of this epoch and off otherwise |
| TimerQueue.ExpiredArePast | burba/sys/xtimer_32/xtimer.c:286-302 | the timers fired at a wrap are exactly the longest prefix found past its target |
| TimerQueue.WrapKeepsDeadlines | burba/sys/xtimer_32/xtimer.c:266-318 | a wrap keeps the 64-bit deadline of every timer that is left, and the order |
| TimerQueue.RunKeepsInv | burba/sys/xtimer_32/xtimer.c:95-163 | over every run of sets, removals, wraps and match interrupts the queue is sorted and duplicate-free and the match register follows a head that is due in this epoch |
| TimerQueue.RunKeepsBefore | burba/sys/xtimer_32/xtimer.c:95-163 | over every run, of two pending timers that are not set again the one in front stays in front |
| TimerQueue.TiesInSettingOrder | burba/sys/xtimer_32/xtimer.c:113-150 | over every run, timers with the same 64-bit deadline stand in the order in which they were last set |
| TimerQueue.RunKeepsDeadline | burba/sys/xtimer_32/xtimer.c:266-318 | over every run in which it is not set again, a pending timer keeps its deadline |
| TimerQueue.RunLeavesOnlyDue | burba/sys/xtimer_32/xtimer.c:193-318 | over every run in which it is not set again, a timer leaves the queue only by being removed, or by being fired at or after its 64-bit deadline |
| XTimer.XTimer.AddTimerToList | burba/sys/xtimer_32/xtimer.c:113-150 | the two walks and the relinking are insertion in deadline order, ties behind, and arm the register for a new head |
| XTimer.XTimer.RemoveTimerFromList | burba/sys/xtimer_32/xtimer.c:151-163 | the list loses this timer and no other |
| XTimer.XTimer.Remove | burba/sys/xtimer_32/xtimer.c:627-647 | removal, with the register reprogrammed when the head goes |
| XTimer.XTimer.XtimerRemove | burba/sys/xtimer_32/xtimer.c:655-661 | afterwards the timer is in the list exactly if it was and its target word is zero; the rest is removal with the register reprogrammed |
| XTimer.SetThenRemoved | burba/sys/xtimer_32/xtimer.c:655-661 | a timer that was set at an absolute time is still pending after xtimer_remove exactly if that time is the overhead modulo 2^32 |
| XTimer.Set64ThenRemoved | burba/sys/xtimer_32/xtimer.c:395-412 | after a relative setting, exactly if now plus offset is the overhead modulo 2^32 |
| XTimer.XTimer.SetAbsolute64 | burba/sys/xtimer_32/xtimer.c:382-393 | an idle timer is queued at the corrected 64-bit time, whatever its words come out as |
| XTimer.XTimer.Set | burba/sys/xtimer_32/xtimer.c:168-188 | no callback: nothing; offset below 720: taken out and fired now; otherwise taken out and queued anew for now plus offset less 320, which is at least 400 ahead |
| XTimer.XTimer.Set64 | burba/sys/xtimer_32/xtimer.c:395-412 | an idle timer is queued at the relative time, with the wrap-around of both words |
| XTimer.XTimer.SetAgain | burba/sys/xtimer_32/xtimer.c:113-150 | setting a timer that is in the list: the place where the walks stop is never its own; if that is in front of it or next to it the list becomes a circle, otherwise the timers in between are not in the list any more |
| XTimer.StopMeaning | burba/sys/xtimer_32/xtimer.c:119-140 | where the two walks stop in a list that is not sorted |
| XTimer.CircleHasNoEnd | burba/sys/xtimer_32/xtimer.c:113-150 | whoever follows such a circle never comes to the end of the list |
| XTimer.AbsoluteDeadline | burba/sys/xtimer_32/xtimer.c:382-393 | the deadline is the time asked for less the overhead, exactly if it is at least the overhead |
| XTimer.RelativeDeadline | burba/sys/xtimer_32/xtimer.c:395-412 | the deadline is now plus both offsets less the overhead, exactly if that is a 64-bit number |
| XTimer.TimeLeftMeaning | burba/sys/xtimer_32/xtimer.c:78-93 | the 64-bit distance to the target, and 0 if that is reached or the counter reads less than before |
| XTimer.XTimer.TimerWrap | burba/sys/xtimer_32/xtimer.c:266-318 | each node is decremented once, a prefix is fired with the readings that were past, the register follows the new head |
| XTimer.XTimer.FireDue | burba/sys/xtimer_32/xtimer.c:208-231 | fires from the head in order, none before its target, at least one if the head is in the past |
| XTimer.XTimer.TimerCallback | burba/sys/xtimer_32/xtimer.c:193-250 | the match handler ends, has fired a prefix in order and none early, and leaves an empty list, a head of a later epoch, or the register armed for a head not yet past; a head that is left was at least the backoff away one reading before |
| XTimer.CallbackIsEvent | burba/sys/xtimer_32/xtimer.c:193-250 | what the match handler fires is a match event of the queue machine, with the clock readings at which it fired |
| MqttModel.LengthMatchesContent | burba/sys/paho/MQTTPacket.c:193-206 | the announced string length is the written one exactly if only one form counts or both are equally long |
| MqttModel.HeaderFields | burba/sys/paho/MQTTPacket.h:53-75 | type, dup, QoS and retain come back from the header byte |
| MqttModel.PacketLengthExact | burba/sys/paho/MQTTPacket.c:83-98 | MQTTPacket_len is the packet size except at 127, 16383, 2097150 and 2097151, and from 2^28 on |
| MqttModel.PacketIsFramed | burba/sys/paho/MQTTPacket.c:53-81 | a written packet is framed as written, whatever comes after it |
| MqttModel.StringRoundTrip | burba/sys/paho/MQTTPacket.c:214-234 | a written string reads back, with the rest |
| MqttModel.StringReadBack | burba/sys/paho/MQTTPacket.c:214-234 | only what is written as a string reads as one |
| MqttBytes.FormsOfString | burba/sys/paho/MQTTPacket.c:193-251 | which form of a string is written and which one counted |
| MqttPacket.WriteString | burba/sys/paho/MQTTPacket.c:193-206 | two length bytes and the content of the form that counts |
| MqttPacket.EncodeLength | burba/sys/paho/MQTTPacket.c:28-45 | the do-while loop writes the minimal varint of the length |
| MqttPacket.Decode | burba/sys/paho/MQTTPacket.c:53-81 | count, value and bytes taken for every input, cut short and overlong fields included |
| MqttMeaning.LengthMeaning | burba/sys/paho/MQTTPacket.c:53-81 | up to four groups until one has no high bit; cut short or overlong, the count is one too large |
| MqttMeaning.Groups | burba/sys/paho/MQTTPacket.c:66-76 | the value of one to four groups of seven bits |
| MqttPacket.ReadLenString | burba/sys/paho/MQTTPacket.c:214-234 | succeeds exactly if the announced bytes are there, with the cursor behind them |
| MqttMeaning.StringMeaning | burba/sys/paho/MQTTPacket.c:214-234 | the more significant length byte first, and as many bytes as it says if they are there |
| MqttPublish.SerializePublish | burba/sys/paho/MQTTSerializePublish.c:53-90 | the whole packet and its length, never past buflen, or -2 and an untouched buffer |
| MqttBytes.PublishBytes | burba/sys/paho/MQTTSerializePublish.c:53-90 | the bytes of PUBLISH: 0x30 with dup, QoS and retain, the topic, the id if QoS is above 0, the payload |
| MqttPublish.DeserializePublish | burba/sys/paho/MQTTDeserializePublish.c:35-71 | each return code and all fields, on every framed buffer |
| MqttPublish.PublishRoundTrip | burba/sys/paho/MQTTDeserializePublish.c:35-71 | reading a serialized PUBLISH gives all its fields, the id if QoS is above 0, and the payload in place |
| MqttPublish.PublishReadBack | burba/sys/paho/MQTTDeserializePublish.c:55-66 | what is accepted is the packet of what was read, unless the packet ends inside its id, which is exactly when the payload length is negative |
| MqttPublish.CutInItsId | burba/sys/paho/MQTTDeserializePublish.c:55-66 | a PUBLISH of QoS 1 that ends inside its id, accepted with payload length -1 |
| MqttPublish.SerializeAck | burba/sys/paho/MQTTSerializePublish.c:102-126 | the four bytes of an acknowledgement, or -2 |
| MqttBytes.AckBytes | burba/sys/paho/MQTTSerializePublish.c:102-126 | the bytes of PUBACK, PUBREC, PUBREL with its bit, and PUBCOMP |
| MqttPublish.DeserializeAck | burba/sys/paho/MQTTDeserializePublish.c:83-110 | type, dup and id, or the length count if there is no id |
| MqttPublish.AckRoundTrip | burba/sys/paho/MQTTDeserializePublish.c:83-110 | type, dup and id come back |
| MqttSubscribe.SubscribeLength | burba/sys/paho/MQTTSubscribeClient.c:26-35 | the remaining length is that of the id and all filters as written |
| MqttSubscribe.SerializeSubscribe | burba/sys/paho/MQTTSubscribeClient.c:48-85 | the whole packet within buflen, or -2 and an untouched buffer |
| MqttBytes.SubscribeBytes | burba/sys/paho/MQTTSubscribeClient.c:48-85 | the bytes of SUBSCRIBE: 0x82 with dup, the id, and every filter with its QoS |
| MqttSubscribe.DeserializeSubscribe | burba/sys/paho/MQTTSubscribeServer.c:33-72 | return code, id, count, both arrays, and what is left of them, on every framed buffer |
| MqttSubscribe.SubscribeRoundTrip | burba/sys/paho/MQTTSubscribeServer.c:33-72 | any number of filters and QoS values comes back in order, into arrays just large enough |
| MqttSubscribe.SubscribeReadBack | burba/sys/paho/MQTTSubscribeServer.c:55-68 | a body is accepted exactly if some call writes it, or it is shorter than its id |
| MqttSubscribe.SerializeSuback | burba/sys/paho/MQTTSubscribeServer.c:83-112 | the whole packet, in a buffer that has room for it |
| MqttBytes.SubackBytes | burba/sys/paho/MQTTSubscribeServer.c:83-112 | the bytes of SUBACK: 0x90, the id, and the granted values |
| MqttSubscribe.DeserializeSuback | burba/sys/paho/MQTTSubscribeClient.c:98-136 | takes up to maxcount + 1 entries, and returns -1 exactly if there are more |
| MqttSubscribe.SubackRoundTrip | burba/sys/paho/MQTTSubscribeClient.c:98-136 | id and all granted QoS values come back |
| MqttUnsubscribe.UnsubscribeLength | burba/sys/paho/MQTTUnsubscribeClient.c:26-35 | the remaining length is that of the id and all topics as written |
| MqttUnsubscribe.SerializeUnsubscribe | burba/sys/paho/MQTTUnsubscribeClient.c:47-81 | the whole packet within buflen, or -2 and an untouched buffer |
| MqttBytes.UnsubscribeBytes | burba/sys/paho/MQTTUnsubscribeClient.c:47-81 | the bytes of UNSUBSCRIBE: 0xA2 with dup, the id, and every topic |
| MqttUnsubscribe.DeserializeUnsubscribe | burba/sys/paho/MQTTUnsubscribeServer.c:32-68 | return code, id, count and topics on every framed buffer |
| MqttUnsubscribe.UnsubscribeRoundTrip | burba/sys/paho/MQTTUnsubscribeServer.c:32-68 | any number of topics comes back in order |
| MqttUnsubscribe.UnsubscribeReadBack | burba/sys/paho/MQTTUnsubscribeServer.c:53-64 | a body is accepted exactly if some call writes it, or it is shorter than its id |
| MqttConnect.ConnectLengthExact | burba/sys/paho/MQTTConnectClient.c:25-47 | the announced length is the written one exactly for versions 3 and 4 |
| MqttConnect.SerializeConnect | burba/sys/paho/MQTTConnectClient.c:56-120 | the whole packet within buflen, or -2 and an untouched buffer |
| MqttBytes.ConnectBytes | burba/sys/paho/MQTTConnectClient.c:56-120 | the bytes of CONNECT: 0x10, name and level, the flag bits, keep-alive, and the strings that the flags announce |
| MqttConnect.DeserializeConnect | burba/sys/paho/MQTTConnectServer.c:50-108 | 1 and the filled structure exactly where the reference parse succeeds, 0 otherwise |
| MqttMeaning.ConnectMeaning | burba/sys/paho/MQTTConnectServer.c:50-108 | a CONNECT is accepted exactly if type, name and version are right and all strings that the flags announce are there, and what is then read from where |
| MqttConnect.ConnectRoundTrip | burba/sys/paho/MQTTConnectServer.c:50-108 | a CONNECT is accepted exactly if its credentials are such as the reader wants, and then every field comes back |
| MqttReader.ReadPacket | burba/sys/paho/MQTTPacket.c:289-316 | the blocking read leaves the packet with minimal length in the buffer, or -1 exactly if it is cut short or too long |
| MqttReader.Transport.DecodeNb | burba/sys/paho/MQTTPacket.c:323-351 | resumes the length field where it stopped; fails exactly if the source fails or is asked a fifth time |
| MqttReader.Transport.ReadNb | burba/sys/paho/MQTTPacket.c:360-409 | one call keeps the packet's fate, finishes it, or gives up one that was never to arrive |
| MqttReader.ArrivesUnlessHesitant | burba/sys/paho/MQTTPacket.c:323-351 | without failures a packet arrives exactly if it fits and at most 4 - k calls have to be repeated inside its k-byte length field |
| MqttMeaning.AgainsMeaning | burba/sys/paho/MQTTPacket.c:323-351 | how many calls have to be repeated: the empty answers until the field has come |
| MqttMeaning.HeaderMeaning | burba/sys/paho/MQTTPacket.c:360-385 | when the first byte has come, and when the source has failed before |
| MqttReader.ReadInPieces | burba/sys/paho/MQTTPacket.c:360-409 | over every way of cutting the input up, repeated calls end as one blocking read of the whole does, or with -1 |
| NaisFrame.SetupHeader | burba/sys/bocia/nais.c:31-54 | header bytes in front and end delimiter behind the room for the payload, nothing else touched |
| NaisFrame.PayloadCompletesFrame | burba/sys/bocia/nais.c:56-72 | once the payload is packed in that room, the buffer holds the frame |
| NaisBytes.FrameInBytes | burba/sys/bocia/nais.c:31-54 | the bytes of every frame: 0x1E, type, source, destination, flags, length, payload, 0x17 |
| NaisFrame.ReadHeader | burba/sys/bocia/nais.c:74-109 | type, flags and payload length; the reply goes to the line the packet came from |
| NaisFrame.HeaderRoundTrip | burba/sys/bocia/nais.c:74-109 | type, source line, flags and payload come back from a frame, whatever follows in the buffer |
| NaisFrame.Marshall | pynais/nais.py:147-181 | the bytes that the Python writer produces |
| NaisFrame.PythonWritesWhatCWrites | pynais/nais.py:161-181 | both writers produce the same frame exactly if the payload is not empty |
| NaisFrame.Unmarshall | pynais/nais.py:124-145 | the payload is what lies between the end of the length field and the last byte |
| NaisFrame.UnmarshallRoundTrip | pynais/nais.py:124-145 | of a frame with a length field of any size, that is the payload |
| NaisUart.RunConcat | burba/sys/bocia/bocia_uart.c:81-150 | what the loop makes of two portions of input is what it makes of them on end |
| NaisUart.FrameHandsOn | burba/sys/bocia/bocia_uart.c:81-150 | the first thing handed on for a frame of n bytes is n + 5 bytes of its content |
| NaisUart.FrameComesThrough | burba/sys/bocia/bocia_uart.c:133-148 | a frame is handed on as it is exactly if it has 1 to 127 payload bytes |
| NaisUart.Transparent | burba/sys/bocia/bocia_uart.c:65-150 | frames among noise come out one by one in order, whatever delimiter bytes they contain, and never overrun the buffer |
| NaisUart.LongFrameRoom | burba/sys/bocia/bocia_uart.c:65-150 | a frame without a start delimiter in its payload, or of fewer than 128 bytes of it, fits the receive buffer exactly up to 507 payload bytes |
| NaisUart.SerialLoop.Feed | burba/sys/bocia/bocia_uart.c:87-149 | one byte is one step of the machine, in the fixed buffer |
| NaisUart.SerialLoop.Loop | burba/sys/bocia/bocia_uart.c:65-150 | the loop hands on what the machine hands on |
| NaisTape.MessageTape.AddChar | pynais/junction.py:84-120 | one byte is one step of the tape, and is recorded |
| NaisTape.NextInFrame | pynais/junction.py:84-120 | inside a frame, up to a second start delimiter, more is wanted exactly until the last byte |
| NaisTape.FrameTaken | pynais/junction.py:125-151 | a frame without a second start delimiter is one message, complete with its last byte and not before, whatever follows |
| NaisTape.LineTaken | pynais/junction.py:116-120 | a line of text without delimiters is one message |
| NaisTape.LastStartDecides | pynais/junction.py:84-120 | on every input, exactly: unless a message is complete up to the last start delimiter, what the tape takes is given by the bytes after it, and by the header length and multiplier left over from before it |
| NaisTape.SecondStartSpoils | pynais/junction.py:107-111 | whatever stands before it, a start delimiter with fewer than six bytes behind it keeps the end of the frame from being recognised |
| NaisTape.ThirtyBytes | pynais/junction.py:84-120 | a frame of 30 payload bytes is recognised exactly if the bytes from its fifth on announce a length that ends where the frame does |
| NaisTape.LateStartWaits | pynais/junction.py:107-111 | a frame whose only second start delimiter comes late completes no message |
| NaisTape.FramesJoin | pynais/junction.py:84-120 | what is not recognised becomes one message with the frame that follows |
| NaisRemains.DeafStays | pynais/junction.py:84-120 | if header length or multiplier have been left over, no following frame with a payload and one start delimiter completes a message, and they stay left over |
| NaisRemains.ScaleAfter | pynais/junction.py:84-112 | behind a start delimiter they change exactly if the fifth byte has the high bit |
| NaisTape.ReceiveFrom | pynais/junction.py:125-151 | on any input: the message is what the tape takes of it, if anything; at least seven bytes if it starts like a frame |
| NaisRouting.DeliverToPeers | pynais/junction.py:376-395 | the queue of every line grows by the message as often as the line is among the peers, and nothing else changes |
| NaisRouting.DispatchOne | pynais/junction.py:427-433 | writes to the addressed connections only, with the source line stamped; fails exactly if a number that is no byte would have to be stamped |
| NaisRouting.StepKeepsInv | pynais/junction.py:266-433 | every event, reading from the tape included, keeps: unique connection numbers, well-formed queues, frames stamped with the connection they came from |
| NaisRouting.RunKeepsInv | pynais/junction.py:266-433 | so does every run, and what has been written stays written |
| NaisRouting.RunKeepsOrder | pynais/junction.py:266-433 | over the same runs every connection carries whole messages, every queued answer is for the connection it answers, and every board takes requests out one by one with their origin |
| NaisRouting.AnswersGoHome | pynais/junction.py:266-433 | over every interleaving of bytes, deliveries and dispatches in which every frame sent is taken whole and fits, an answer to what a connection sent is written to that connection only, and no board overruns its buffer |
| NaisUntidy.UntidyAnswerSticks | pynais/junction.py:84-120 | over every run, an answer of which the tape takes nothing waits on the wire until it is read as the beginning of a longer message |
| NaisUntidy.UntidyAnswersMix | pynais/junction.py:84-120 | in every state in which an answer leaves the tape open behind what is on the wire, that, this answer and the next one are read as one message |
| NaisUntidy.LeftOverIsForAll | pynais/junction.py:84-120 | what is left of an answer that is taken in part is read with the next answer as a message for every connection |
| NaisUntidy.DeafForGood | pynais/junction.py:84-120 | over every run in which only frames with a payload and one start delimiter follow, nothing is read any more from a connection that has gone deaf |
| NaisMisrouting.AnswerGoesAstray | pynais/junction.py:84-120 | a run from the empty junction whose last write goes to connection 2 and answers connection 3 |
| NaisMisrouting.TruncatedAnswer | pynais/junction.py:84-120 | in every state with an empty wire: of the acknowledgement to connection 30 of an id from 128 on with status 23 the end is left over and read with the next answer as a message for everyone |
| NaisMisrouting.AnswerGoesToAll | pynais/junction.py:84-120 | a run from the empty junction in which 29 connections get what answers 30 and 2 |
| NaisMisrouting.SecondIsAnsweredToAll | burba/sys/bocia/bocia.c:44-89 | the second of two requests read as one message is answered to every connection |
| NaisAcks.AckIsTidy | burba/sys/bocia/bocia.c:44-89 | an acknowledgement has no second start delimiter exactly if connection, id and leading group of the status are not 30 |
| NaisAcks.AckTakes | pynais/junction.py:84-120 | for every connection, id and status: how many bytes of the acknowledgement the tape takes, and whether the next frame is then joined or lost |
| NaisAcks.AckRecognised | pynais/junction.py:84-120 | it is recognised as it is exactly then |
| NaisAcks.AnswerIsTidy | burba/sys/bocia/bocia.c:44-89 | and exactly then the answer meets the condition of the routing theorem |
| NaisRouting.AnswerWrittenOnce | pynais/junction.py:418-433 | a queued answer is for one connection; it is written once if that is there and its source can be stamped, and not at all otherwise |
| NaisRouting.GoneStaysGone | pynais/junction.py:323-335 | the number of a connection that has gone is never given out again |
| NaisConnections.WhoConnects | pynais/junction.py:353-362 | a newcomer has the next number and stands behind the others of its line; all else is as it was |
| NaisConnections.WhoDisconnects | pynais/junction.py:370-373 | the connection that has gone is among the writers of no line; every other one is where it was, in the same order |
| NaisConnections.NothingAfterDisconnect | pynais/junction.py:353-433 | over every run after its disconnect nothing is written to a connection |
| NaisConnections.StaysConnected | pynais/junction.py:353-433 | over every run in which it does not disconnect itself a connection stays on its line |
| NaisConnections.AnswerStillWritten | pynais/junction.py:418-433 | and a queued answer to it is written, once, whoever has come or gone meanwhile |
| NaisConnections.WhatIsRead | pynais/junction.py:266-395 | a read takes one message off the wire of its connection and puts it, with that number, once for each peer |
| NaisConnections.PacketMeaning | pynais/packet.py:18-51 | destination and stamp of a packet, and for which numbers it can be stamped |
| NaisConnections.OriginsAddUp | burba/sys/bocia/bocia_uart.c:65-150 | whose bytes a board hands on: those of this write and of the ones that began the frame |
| NaisConnections.BigNumberSilences | pynais/junction.py:418-439 | a frame from a connection whose number is no byte ends the dispatching task of the line |
| NaisConnections.StaysSilent | pynais/junction.py:353-362 | and over every run in which the line always has a connection nothing is dispatched on it any more |
| NaisRouting.Ack | burba/sys/bocia/bocia.c:44-89 | the acknowledgement is a frame for the line that the request came from |
| NaisMessages.NaisOk | burba/sys/protobuf-c/messages.pb-c.c:268-678 | the six generated descriptors and their range tables are well-formed and flat |
| NaisBytes.ProfileBytes | burba/sys/protobuf-c/messages.pb-c.c:268-319 | uid and password on the wire, set or not |
| NaisBytes.ConfigBytes | burba/sys/protobuf-c/messages.pb-c.c:320-422 | network, board, host, port, alive period and the secure flag |
| NaisBytes.AckBytes3 | burba/sys/protobuf-c/messages.pb-c.c:500-563 | id, sequence number and status |
| NaisBytes.SecretBytes | burba/sys/protobuf-c/messages.pb-c.c:641-678 | the key |
| NaisBytes.CommandBytes | burba/sys/protobuf-c/messages.pb-c.c:423-499 | identifier, sequence number, strings and integers |
| NaisBytes.EventBytes | burba/sys/protobuf-c/messages.pb-c.c:564-640 | identifier, strings, floats by their bit patterns, integers zigzagged |
| NaisMessages.NaisConcatenationIsMerge | burba/sys/protobuf-c/protobuf-c.c:2021-2189 | for NAIS messages parsing two encodings on end is merging, exactly if the first has no unknown field and the members are not too many together |
| NaisMessages.NaisMarshall | burba/sys/bocia/nais.c:56-72 | size, header and pack together leave the frame of the message in the buffer |
| NaisMessages.NaisUnmarshall | burba/sys/bocia/nais.c:74-136 | type, reply line, flags and the message that the payload unpacks to by the descriptor of its type, that of a command above type 6 |
| NaisMessages.FrameRoundTrip | burba/sys/bocia/nais.c:74-136 | a framed message comes back, with where to send the answer |
| NaisMessages.MessagesComeThrough | burba/sys/bocia/bocia_uart.c:65-150 | any number of messages of 1 to 127 bytes sent amid noise is unmarshalled one by one to the same messages |
| NaisMessages.AckCanonical | burba/sys/bocia/bocia.c:47-52 | every acknowledgement is a message that survives the round trip, in fewer than 32 bytes |
| NaisMessages.AckEncodes | burba/sys/bocia/bocia.c:44-89 | the bytes of an acknowledgement: id, and the status if there is one, as a varint of its sign extension |
| NaisMessages.InputHandler | burba/sys/bocia/bocia.c:44-89 | types 4 and 5 and what does not unpack leave the buffer as it was; types 1 and 2 leave the nine bytes of an acknowledgement, every other type one with the status; and that is the answer of the routing machine |

## Left out

- protobuf-c oneof fields, services, enum lookups by name, and builds with assertions disabled.
- Allocation failures: memory is always there. The slabs of scanned members are one sequence with the slab counters kept.
- The sum of header length and announced length in scan_length_prefixed_data (burba/sys/protobuf-c/protobuf-c.c:1988) is taken as a mathematical integer.
- Sizes of 2^32 bytes and more.
- Input that is only read is a sequence, not an array; the output structures of the MQTT readers are return values.
- xtimer: XTIMER_ISR_BACKOFF is defined in a header that is not part of this model, so it is a parameter. Interrupt masking, tickless sleep, messages and mutexes built on timers, `_xtimer_set_msg64` and the relative branch of `_xtimer_periodic_wakeup` are left out; callbacks do not touch the list. The interrupt routine disarms the match before it calls the handler (burba/cpu/cc3200/periph/timer.c:45-57).
- XTimer.XTimer.TimerCallback: supposes a clock that never runs backwards, stays clear of its wrap by more than the backoff, since the handler compares 32-bit readings only, and does get to every target that the handler waits for (`SteadyClock`, `Reaches`).
- XTimer.XTimer.FireDue: supposes the same clock.
- XTimer.XTimer.Set: is not stated for a pending timer whose target word is zero, which xtimer_remove passes over; what the setting then does to the list is XTimer.XTimer.SetAgain.
- XTimer.XTimer.SetAbsolute64: is stated for timers that are not in the list, as the original removes nothing here; the others are XTimer.XTimer.SetAgain.
- XTimer.XTimer.Set64: likewise.
- XTimer.XTimer.SetAgain: takes the two words that the original computes first; the handlers are not stated for a list that it has damaged.
- XTimer.XTimer.TimerWrap: supposes the assertion at burba/sys/xtimer_32/xtimer.c:278, that no pending timer is due in the epoch that ends.
- `char` is unsigned, as it is on the board's ARM compiler.
- MQTT remaining lengths of 2^28 and more, CONNACK, UNSUBACK, PINGREQ, DISCONNECT and the printing functions.
- MqttPublish.SerializePublish: is stated for topics whose two forms do not both count with different lengths, since the announced length is then not the written one (MqttModel.LengthMatchesContent), and for remaining lengths below 2^28.
- MqttSubscribe.SubscribeLength: is stated for filters of that kind.
- MqttSubscribe.SerializeSubscribe: likewise, and for remaining lengths below 2^28.
- MqttUnsubscribe.UnsubscribeLength: is stated for topics of that kind.
- MqttUnsubscribe.SerializeUnsubscribe: likewise, and for remaining lengths below 2^28.
- MqttConnect.SerializeConnect: likewise for its strings, and without versions other than 3 and 4, for which the announced length is wrong (MqttConnect.ConnectLengthExact).
- What the MQTT readers fetch without a check has to be in the buffer, and what they store without a check needs room in the output arrays; both are preconditions, no wider than what is touched.
- MqttSubscribe.SerializeSuback: makes no claim about buflen, because the size test of the original leaves out the fixed header.
- MqttReader.Transport.ReadNb: is about packets with a nonzero remaining length and a nonzero type; with nothing to read the original keeps asking for more, and type 0 cannot be told from "call again".
- MqttReader.Transport.DecodeNb: is about length fields that end within four bytes.
- MqttReader.ReadInPieces: is about the packets that MqttReader.Transport.ReadNb is about.
- MqttReader.ReadPacket: supposes a source that hands over as many bytes as it has, up to those asked for, and a buffer of at least five bytes, which the original writes to without looking at its size.
- NaisFrame.ReadHeader: is about length fields of at most four bytes, which the C integer holds.
- NaisMessages.NaisUnmarshall: supposes a nonzero type byte; the original takes the entry before the first of its table for type 0.
- NaisUart.SerialLoop.Feed: supposes room in the receive buffer, which the original does not test.
- NaisUart.SerialLoop.Loop: supposes that the receive buffer is not overrun, which the original does not test; NaisUart.Transparent shows it for short frames.
- The counters of the two frame recognisers are unbounded integers.
- `protobuf_to_uart` packs at offset 6 whatever the header length, which agrees with `nais_marshall` below 128 bytes; only the latter is modelled.
- NaisRouting.AnswersGoHome: supposes frames that a board hands on once and can hold: payloads of 1 to 127 bytes, or of up to 507 without a start delimiter. The boards are those on the serial line; a board on TCP takes each portion it receives for one message (burba/sys/bocia/bocia_tcp.c:77-96).
- NaisUntidy.DeafForGood: says nothing of lines of text on that connection.
- Sockets, event loop and tasks: a read, delivery or dispatch is an atomic event, in any order; a write is in the hands of the other end at once, and each end runs serial_loop on it. Whom an answer is for is history that the model adds. Transformers, JSON, and the WebSocket and MQTT lines, whose dispatch does not look at DLINE.
- What a command does once it has been decoded; the status of a custom command is a parameter.
