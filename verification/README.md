# Media transport state machines, in Dafny

This project models the small state machines that a media server uses to move RTP packets, and proves what
callers rely on. Each machine is modelled in the form it has in the Go code, as a class with fields, arrays and
loops, and is proved equal, call by call, to a short specification on mathematical values; the properties are
then proved of that specification, over all inputs and whole runs.

| machine | Go file | specification and properties | the code itself |
|---|---|---|---|
| packet bucket, a ring of slots that works as a map over a sliding window | `pkg/bucket/bucket.go` | `bucketspec.dfy`, `bucketring.dfy`, `bucketlog.dfy` | `bucket.dfy` |
| extension of wrapping sequence numbers | `pkg/utils/wraparound.go` | `wraparound.dfy` (`Unwrapping`) | `wraparound.dfy` (`WrapAround`) |
| RED parsing and loss recovery | `pkg/red/red.go` | `redformat.dfy`, `red.dfy` | `reddepacketizer.dfy` |
| NACK queue and its bitmask pairs | `pkg/nack/nack.go` | `nackpairs.dfy`, `nackspec.dfy`, `nackruns.dfy` | `nack.dfy` |
| leaky-bucket pacer | `pkg/pacer/leaky_bucket.go` | `leakybucket.dfy` (`PacerBudget`) | `leakybucket.dfy` (`LeakyBucket`) |
| unlimited pacer with a wake channel | `pkg/pacer/no_queue.go` | `noqueue.dfy` (`WakeProtocol`) | `noqueue.dfy` (`NoQueue`) |
| goroutines that look for the external address | `pkg/rtcconfig/ip.go` | `externalip.dfy` | (a step system) |
| bit reader, H.264 and H.265 parameter sets | `pkg/codec/h26xhelper.go` | `bitstream.dfy`, `nalu.dfy`, `h265sps.dfy`, `h265refusals.dfy`, `h264sps.dfy` | `bitreader.dfy`, `h265parser.dfy`, `h264parser.dfy` |
| VP8 payload descriptor | `pkg/codec/vp8.go` | `vp8.dfy` | `vp8descriptor.dfy` |
| one-way delay estimator | `pkg/latency/owd_estimator.go` | `owd.dfy` (`DelayRules`) | `owd.dfy` (`OneWayDelay`) |
| NTP timestamps | `helpers.go` | `ntp.dfy` | `ntp.dfy` |

`wrappers.dfy` holds what they share: results, bytes, big-endian numbers, indices round a ring, and counters
that wrap; `bitmask.dfy` the bit masks.

The main results, hardest first:

- The bucket is a map. Slots, header bytes, circular index and growth in place implement a map from sequence
  number to packet over the last `maxSteps` numbers (`Bucket.Bucket.AddPacket`, `Bucket.Bucket.Grow`), and over any run
  that map shows an unbounded log of integer-numbered packets, so that a stored packet stays retrievable byte for
  byte until the window has passed it (`PacketLog.RunRetains`). A lookup succeeds exactly for what is held and fits the
  buffer (`Bucket.GetPacket`), and no packet is ever reported as a mismatch.
- Sequence numbers are unwrapped exactly over any stream whose values stay within half the range of the highest
  one, with restarts reported exactly when a value is below all earlier ones (`Unwrapping.RunFaithful`,
  `Unwrapping.FreshRunFaithful`).
- For arrivals in any order, what a RED receiver hands on is stated packet for packet, with every part of its
  header (`RedRecovery.PlayExact`). In order, a packet is handed on if and only if it or one of the next two arrives, and first times come out in order
  (`RedRecovery.HandedIff`, `RedRecovery.FirstTimesInOrder`), so two losses in a row cost nothing
  (`RedRecovery.PlayCovers`). The history byte is exact (`RedRecovery.HistoryExact`) and the parser inverts the format
  both ways (`RedFormat.RoundTrip`, `RedFormat.DecodeIsEncoding`).
- Parsing a serialized parameter set, protected against start codes and with or without one in front, gives back
  exactly its fields and its cropped size (`H265Parser.ParsesEverySps`, `H264Parser.ParsesEveryAvc`). For H.265 a
  set cut anywhere is refused (`H265Refusals.TruncatedIsRefused`); for H.264 it is not (`H264Syntax.NothingIsAccepted`).
  H.264 sets with scaling lists are passed over rightly if and only if the lists are eight empty ones
  (`H264Syntax.HighExactIff`); others are misread (`H264Syntax.TwelveListsMisread`).
- NACK pairs report exactly the due numbers, whichever are due, if and only if every queued number is less than 65519
  past the head (`NackRuns.QueueExactIff`), and for increasing queues no fewer pairs could (`NackRules.RoundExact`).
  On every queue that calls can build, repeated numbers included, a round purges exactly the expired entries if and
  only if no lifetime ends between the looks at two entries for one number (`NackRuns.RunPurgesIff`). Both conditions
  can fail, and do at inputs that calls reach (`NackRuns.FarReached`, `NackRuns.LapseReached`).
- The leaky bucket never exceeds its rate over any window by more than the largest packet and twice one interval, and
  with a backlog never falls below it (`PacerBudget.WindowBound`, `PacerBudget.FullRate`).
- The wake channel loses no wake-up and is never used after its one close (`WakeProtocol.RunSafe`), and a pacer that
  was started and not stopped sends exactly what was enqueued (`WakeProtocol.RunDelivers`). The wait group of the
  address lookup never leaves zero again (`ExternalIP.RunSettles`), and exactly the answered queries are woken
  (`ExternalIP.RunAnswers`). All this in every interleaving.
- The delay estimate stays among the observed delays, and a step change is reported exactly when a streak of high
  deltas is long enough and old enough (`DelayRules.RunBounded`, `DelayRules.StepChangeIff`).
- NTP timestamps give back every nanosecond of their era (`NtpTime.DurationInvertsToNtp`).

Clock readings, network answers and the order in which goroutines take their steps are parameters or free choices.

## Model

| member | source | states |
|---|---|---|
| Bucket.NewBucket | pkg/bucket/bucket.go:55-110 | empty fresh slots for any capacity; an empty window when there is at least one slot and no more than half the sequence range; null exactly when packets may exceed 256 KiB |
| Bucket.Bucket.constructor | pkg/bucket/bucket.go:61-108 | size header of 1, 2 or 4 bytes by packet size; every slot is empty, and the abstract window is for every capacity that can serve as one |
| Bucket.CreateSlots | pkg/bucket/bucket.go:311-320 | so many separate fresh buffers of one size, each marked empty |
| Bucket.Bucket.Wrap | pkg/bucket/bucket.go:288-298 | any integer, negative ones too, becomes its remainder by the number of slots |
| Bucket.Bucket.Invalidate | pkg/bucket/bucket.go:300-309 | empties exactly the slots of an arc of the ring, however long the arc is said to be |
| Bucket.Bucket.Store | pkg/bucket/bucket.go:277-286 | one slot holds the packet afterwards, the others are as before |
| Bucket.StoredHolds | pkg/bucket/bucket.go:277-286 | size header and payload read back as the stored packet, and never as the mark of an empty slot |
| Bucket.EmptiedHolds | pkg/bucket/bucket.go:305-308 | the mark reads back as an empty slot |
| Bucket.Bucket.SizesFit | pkg/bucket/bucket.go:69-87 | for all three header sizes no packet that is accepted is as long as the mark says |
| Bucket.Bucket.Push | pkg/bucket/bucket.go:211-225 | a newer packet becomes the head; what is now too old is gone, everything else in the window is as it was, and the numbers skipped are absent |
| Bucket.Bucket.ReadSize | pkg/bucket/bucket.go:238-243 | the size in a slot header is that of the packet in it, or the mark |
| Bucket.Bucket.ReadSeqNum | pkg/bucket/bucket.go:244-246 | the number field in the bytes of a full slot is that of the packet in it |
| Bucket.Bucket.FillLate | pkg/bucket/bucket.go:274 | filling the empty slot of a late number adds that number to the map |
| Bucket.Bucket.Set | pkg/bucket/bucket.go:251-275 | a late packet is added in its own place; one that is too old or already there changes nothing and is refused with the right error, never with a mismatch |
| Bucket.Bucket.Restart | pkg/bucket/bucket.go:144-154 | the first packet, or the one after a resync, sets the head just below itself in an empty ring; any other leaves the ring alone |
| Bucket.Bucket.AddPacketAt | pkg/bucket/bucket.go:139-163 | the whole of an addition against the abstract window, with the slot that took the packet |
| Bucket.Bucket.AddPacket | pkg/bucket/bucket.go:165-167 | an addition under the number that the packet carries: same window, same answer, same error as the map |
| Bucket.Bucket.AddPacketWithSequenceNumber | pkg/bucket/bucket.go:169-178 | an addition under another number, which is then the one in the stored bytes; a packet too short to carry a number may be refused, with the right error |
| Bucket.Bucket.Relabel | pkg/bucket/bucket.go:175-177 | the stored packet gets the number in its bytes and in the map |
| Bucket.Bucket.PutSeqNum | pkg/bucket/bucket.go:175-177 | overwriting the number in a slot changes that field of that packet and nothing else |
| Bucket.StampedHolds | pkg/bucket/bucket.go:175-177 | a slot whose number field is overwritten holds the relabelled packet |
| Bucket.Bucket.ResyncOnNextPacket | pkg/bucket/bucket.go:127-129 | only the request is noted |
| Bucket.Bucket.Grow | pkg/bucket/bucket.go:113-125 | every growth spreads the slots over the gap and keeps every old buffer in use, the others being new, whether or not `append` moved the slice; up to half the sequence range the abstract map is the same in a wider window |
| Bucket.Bucket.MoveWrapped | pkg/bucket/bucket.go:116-121 | the loop that moves the wrapped slots, reading the old slice while writing the new one, spreads the ring and permutes the buffers |
| Bucket.Append | pkg/bucket/bucket.go:115 | Go's append, which writes behind the slice or moves it |
| Bucket.BagDistinct | pkg/bucket/bucket.go:116-121 | swapping keeps the buffers separate |
| Bucket.Bucket.Fetch | pkg/bucket/bucket.go:227-249 | the bytes of the map, or too new, too old, or absent; a mismatch cannot occur |
| Bucket.GetPacket | pkg/bucket/bucket.go:180-209 | answers the length of the packet and copies it, and nothing beyond it, exactly when the number is in the map and the buffer is as long as the packet; a shorter buffer, a null bucket and an absent number each get their own error, and then the buffer is unchanged |
| PacketRing.FillCell | pkg/bucket/bucket.go:256-274 | writing the slot of a number adds that number to the map and touches no other |
| PacketRing.PushedByIndex | pkg/bucket/bucket.go:211-222 | after a push every slot is that of its number again, round the end of the ring included |
| PacketRing.PushCell | pkg/bucket/bucket.go:211-225 | the slots of a push stand for the shifted map with the new packet in it |
| PacketRing.SpreadDown | pkg/bucket/bucket.go:117-121 | one turn of the move, empty slots and slots that land on old ones included |
| PacketRing.SpreadKeepsContents | pkg/bucket/bucket.go:113-125 | the spread ring stands for the same map in a wider window, with all new places empty |
| PacketRing.EmptyArcNext | pkg/bucket/bucket.go:305-308 | one more emptied slot |
| PacketRing.EmptyArcAll | pkg/bucket/bucket.go:300-304 | cutting the arc off at the capacity empties the same slots |
| PacketRing.EmptyRing | pkg/bucket/bucket.go:152-153 | an empty ring stands for the empty map, wherever its head is |
| PacketRing.LateCell | pkg/bucket/bucket.go:237-256 | the slot `wrap(step - diff - 1)` is that of the number `diff` behind the head |
| PacketWindow.AddKeepsValid | pkg/bucket/bucket.go:139-178 | what is kept is in the window, carries its own number and fits a slot |
| PacketWindow.AddMeans | pkg/bucket/bucket.go:139-163 | when a packet is taken and what that leaves: too long is refused; the first one, or the one after a resync, is alone; up to half the range ahead moves the window and drops what falls out of it; behind, a free place within the window is filled and no other is touched |
| PacketWindow.TooLargeIff | pkg/bucket/bucket.go:140-142 | a packet is too large exactly when it is longer than a slot can hold |
| PacketWindow.LookupMeans | pkg/bucket/bucket.go:227-249 | a lookup finds exactly the numbers in the map |
| PacketWindow.Absence | pkg/bucket/bucket.go:227-249 | of an absent number: more than half the range behind the head is too new, a span or more is too old, and within the window the slot is empty |
| PacketWindow.RefusedKeepsValid | pkg/bucket/bucket.go:139-163 | a refusal leaves a valid window |
| PacketWindow.AddRelabelled | pkg/bucket/bucket.go:169-178 | adding and then relabelling is adding the relabelled packet |
| PacketWindow.StampLabels | pkg/bucket/bucket.go:175-177 | the number written is the number read |
| PacketLog.AddTracks | pkg/bucket/bucket.go:139-163 | on wire numbers the window takes every packet, and refuses it, just as a log of unbounded numbers does |
| PacketLog.GrowTracks | pkg/bucket/bucket.go:113-125 | after a growth the added places are empty, not stale |
| PacketLog.RunTracks | pkg/bucket/bucket.go:113-178 | over any run of additions, resyncs and growths the window shows the log |
| PacketLog.LookupTracks | pkg/bucket/bucket.go:180-249 | a lookup by wire number answers as the log does, errors included |
| PacketLog.RunRetains | pkg/bucket/bucket.go:113-249 | a stored packet is retrievable unchanged until a resync or until the head is past it by the span, whatever is added and however often the ring grows |
| PacketLog.LoggedIsFound | pkg/bucket/bucket.go:113-249 | over any run, a number within the span of the head is found if and only if it was logged, and then with the logged bytes |
| PacketLog.AcceptedIsLogged | pkg/bucket/bucket.go:139-178 | what is accepted is logged under its number |
| PacketLog.ResyncForgets | pkg/bucket/bucket.go:127-154 | after a resync only the next packet is held |
| PacketLog.FreshTracks | pkg/bucket/bucket.go:55-110 | a new bucket shows the empty log |
| Unwrapping.NextFaithful | pkg/utils/wraparound.go:97-128 | one update of a stream value near the highest one: exact distance to the highest number, restart or unhandled exactly below the lowest value, shift by one range exactly when a restart crosses zero |
| Unwrapping.RunFaithful | pkg/utils/wraparound.go:97-244 | over any such stream every report is exact in that sense |
| Unwrapping.FreshRunFaithful | pkg/utils/wraparound.go:97-244 | the same from the very first value on, whose report is that of a first value |
| Unwrapping.SeenIsExtreme | pkg/utils/wraparound.go:207-222 | the lowest and highest values that the reports are about are those of the stream |
| Unwrapping.FirstNumbers | pkg/utils/wraparound.go:98-107 | the first value is its own extended number, handled and no restart, and counts as one step from what is said to be before it |
| Unwrapping.NextBounds | pkg/utils/wraparound.go:191-234 | the extended value is between start and highest, with no underflow |
| Unwrapping.RollbackRestores | pkg/utils/wraparound.go:157-163 | rolling a restart back by its report restores start and highest, whether or not it crossed zero |
| Unwrapping.UndoRestores | pkg/utils/wraparound.go:134-140 | undoing an update that raised the highest number restores it; undoing any other does nothing |
| WrapAround.WrapAround.constructor | pkg/utils/wraparound.go:97-107 | nothing is seen at first |
| WrapAround.WrapAround.UpdateWithOrderKnown | pkg/utils/wraparound.go:97-128 | the code on cycles and half-range tests computes the signed-distance rule, for every reachable state, value and flag; the first value is reported as handled, no restart, its own number, and one step from the number before |
| WrapAround.WrapAround.MaybeAdjustStart | pkg/utils/wraparound.go:191-234 | the same for values out of order, in all wrap cases |
| WrapAround.WrapAround.MoveStart | pkg/utils/wraparound.go:208-222 | a restart shifts the numbers by one range exactly when there is no room below zero |
| WrapAround.LateCases | pkg/utils/wraparound.go:191-238 | what the tests on residues say about a value that is so far behind |
| WrapAround.WrapAround.RollbackRestart | pkg/utils/wraparound.go:157-163 | takes the start back, and the shift with it |
| WrapAround.WrapAround.UndoUpdate | pkg/utils/wraparound.go:134-140 | takes the highest number back if the update had raised it |
| WrapAround.WrapAround.ResetHighest | pkg/utils/wraparound.go:165-169 | highest value and cycles are those of the given extended number |
| RedFormat.HeadRoundTrip | pkg/red/red.go:122-130 | the four header bytes give back type, offset and length (section 3 of RFC 2198) |
| RedFormat.HeadBytes | pkg/red/red.go:122-130 | and any four header bytes are those of what they decode to |
| RedFormat.HeadFields | pkg/red/red.go:122-130 | type, offset and length are the seven, fourteen and ten bits after the first one |
| RedFormat.RoundTrip | pkg/red/red.go:99-167 | decoding inverts encoding for any number of blocks |
| RedFormat.DecodeIsEncoding | pkg/red/red.go:99-167 | every payload that decodes is the encoding of what it decodes to: the blocks partition the data |
| RedFormat.BlockPlace | pkg/red/red.go:117-164 | header i is 4i bytes from the front, and its data starts after all headers and the data of the blocks before it |
| RedFormat.Truncated | pkg/red/red.go:103-139 | cut anywhere, a payload fails in its headers or in its redundant data, whichever the cut is in; cut later it decodes to the same blocks and what is left of the primary |
| RedFormat.SlicesBytes | pkg/red/red.go:141-164 | blocks are consecutive slices of the declared lengths |
| RedRecovery.ObserveTracks | pkg/red/red.go:42-85 | one arrival keeps the history exact, and a block is chosen exactly when it is one of the two before a new packet, within the history, and its own packet has not been received |
| RedRecovery.HistoryExact | pkg/red/red.go:42-71 | over any run, shifts, late arrivals, repeats and long jumps included, a history bit is set exactly when that number was received |
| RedRecovery.OlderMatches | pkg/red/red.go:157-161 | a redundant block rebuilds number, timestamp, type and payload of its packet, across both wraps |
| RedRecovery.Backs | pkg/red/red.go:147-153 | the distances that are picked are exactly the chosen ones for which there is a block, the farthest first |
| RedRecovery.OlderHeader | pkg/red/red.go:157-161 | of the header of the packet it comes with, a recovered packet has all but number, timestamp and payload type, and those are the older ones, wrapping |
| RedRecovery.PickExact | pkg/red/red.go:141-164 | the block at each chosen distance is handed on once, as that packet |
| RedRecovery.ExtractExact | pkg/red/red.go:99-167 | the chosen blocks and then the primary, which has the whole header of the packet that arrived but for its payload type; it fails as decoding does |
| RedRecovery.ExtractHandsOn | pkg/red/red.go:141-166 | of a sender's packet the chosen ones of the two before it are handed on, oldest first, then the packet |
| RedRecovery.FeedNext | pkg/red/red.go:42-88 | one arrival, in any order, hands on those of the two packets before it that have not arrived and that the history reaches, and then the packet |
| RedRecovery.PlayExact | pkg/red/red.go:42-88 | for arrivals in any order, with losses and repeats: the history is exact, and the output is packet for packet the stated one, each with the rest of the header of the packet it came with |
| RedRecovery.HandedIff | pkg/red/red.go:42-88 | in order, a packet from the first arrival on is handed on if and only if it or one of the next two arrives, however many are lost |
| RedRecovery.FirstTimesInOrder | pkg/red/red.go:42-88 | in order, what comes out for the first time is higher than all before it |
| RedRecovery.PlayCovers | pkg/red/red.go:42-88 | with at most two losses in a row everything from the first to the last arrival is handed on as sent, with the rest of the header of one at most two later, and nothing else is |
| RedDepacketizer.Depacketizer.Note | pkg/red/red.go:42-71 | the history byte follows the set of seen distances |
| RedDepacketizer.LateNoted | pkg/red/red.go:51-59 | what a duplicate or late packet does to the history, by the tests of the code |
| RedDepacketizer.AheadNoted | pkg/red/red.go:61-70 | what a newer packet does to it |
| RedDepacketizer.Depacketizer.Choose | pkg/red/red.go:73-85 | the recovery bits are the missing ones of the two before |
| RedDepacketizer.Depacketizer.Depacketize | pkg/red/red.go:42-88 | history and output of one call are those of the specification, errors included, and every packet keeps the header that arrived but for number, timestamp and type |
| RedDepacketizer.ReadHeads | pkg/red/red.go:103-135 | the header loop finds the headers, or the incomplete-header error |
| RedDepacketizer.PickBlocks | pkg/red/red.go:141-164 | the block loop emits the chosen blocks and leaves the primary data |
| RedDepacketizer.ExtractPackets | pkg/red/red.go:99-167 | chosen blocks oldest first, then the primary, for any number of blocks and any bits, with the header that arrived but for number, timestamp and type; a block more than 8 back is never chosen |
| RedDepacketizer.ExtractPrimaryEncoding | pkg/red/red.go:170-197 | fails exactly when decoding does, in the same way, and else yields the same primary data |
| NackPairs.SetBit | pkg/nack/nack.go:175 | one mask bit is set and no other changes |
| BitMask.OneShifts | pkg/nack/nack.go:175 | bit k is one shifted left k times, and none when it is shifted out |
| BitMask.BitShifts | pkg/nack/nack.go:175 | and tests the k-th bit from the right |
| NackPairs.ReportsIff | pkg/nack/nack.go:160-177 | what a pair reports: its own number, and one k + 1 further for each set bit k, wrapping (section 6.2.1 of RFC 4585) |
| NackPairs.EncodeReports | pkg/nack/nack.go:160-177 | one more number in the pairs adds that number to what they report (section 6.2.1 of RFC 4585) |
| NackPairs.EncodeExact | pkg/nack/nack.go:141-182 | the pairs report exactly the encoded numbers, in any order, if the first is less than 65519 past the head |
| NackPairs.ExactIff | pkg/nack/nack.go:141-182 | for distinct numbers that condition is needed as well |
| NackPairs.InactiveReportsLess | pkg/nack/nack.go:174-176 | a first number 65519 or more past the head is reported only if it comes again later |
| NackPairs.FarNeedsPairs | pkg/nack/nack.go:160-182 | numbers more than 16 apart need a pair each |
| NackPairs.EncodeMinimal | pkg/nack/nack.go:160-182 | no smaller number of pairs reports numbers in increasing serial order |
| NackRuns.QueueExactIff | pkg/nack/nack.go:134-182 | whichever entries are due, the pairs are exact if and only if every queued number is less than 65519 past the head |
| NackRuns.FarIsLost | pkg/nack/nack.go:141-182 | a number that is due alone and further past the head is not reported |
| NackRuns.FarReached | pkg/nack/nack.go:115-189 | pushes and rounds that lead to such a number |
| NackRules.RequiredInterval | pkg/nack/nack.go:283-298 | the spacing is never below the minimum |
| NackRules.JudgeIff | pkg/nack/nack.go:276-308 | an entry expires exactly when its tries or its life are used up; else it is due exactly when the least interval has passed and, once sent, the backoff or the cap; being sent counts a try and notes the time |
| NackRules.SendsBounded | pkg/nack/nack.go:276-308 | over any run of looks an entry is sent at most `maxTries` times, each send the required interval after the one before: the least interval, and after a first send the backoff or the cap, whichever is less |
| NackRules.SentIff | pkg/nack/nack.go:276-308 | after any run of looks, the next look sends the entry if and only if it has tries and life left and has waited that long |
| NackRules.LiveIsSent | pkg/nack/nack.go:283-308 | an entry that lives on is sent when it is looked at the longer of the least and the greatest interval after its last send, whatever the backoff |
| NackRules.ExpiredIff | pkg/nack/nack.go:276-281 | an entry expires exactly when it was sent so often or outlived its lifetime |
| NackRules.PurgeExactIff | pkg/nack/nack.go:184-186 | removing expired numbers one by one removes exactly the expired entries, told apart by their places, if and only if no entry that stays comes before an expired one with the same number |
| NackRules.PurgeExact | pkg/nack/nack.go:184-186 | and then the queue is left with just the entries that stay, in order |
| NackRules.Places | pkg/nack/nack.go:150-158 | the places of entries with given verdicts, exactly those and in order |
| NackRules.NumbersSorted | pkg/nack/nack.go:150-158 | the numbers that a round sends, or drops, are those of exactly the entries with that verdict, in order |
| NackRules.UnexpiredSorted | pkg/nack/nack.go:184-186 | the entries that stay are exactly those that did not expire, in order |
| NackRules.PushOneByOne | pkg/nack/nack.go:115-123 | pushing numbers one at a time leaves the newest that fit |
| NackRules.PushRangeIsPushAll | pkg/nack/nack.go:125-132 | pushing only the newest that fit leaves the same queue as pushing all, for any count |
| NackRules.DueIncreasing | pkg/nack/nack.go:150-158 | the due numbers of an increasing queue are increasing |
| NackRules.RoundExact | pkg/nack/nack.go:134-189 | for an increasing queue that spans less than 65519: the pairs report exactly the due numbers, the count is their number, and no fewer pairs would do |
| NackRules.RoundPurges | pkg/nack/nack.go:134-189 | with no number queued twice a round leaves exactly what did not expire, in order, whatever the clock does |
| NackRuns.LookKeepsStep | pkg/nack/nack.go:276-308 | of two entries for one number the earlier stays ahead, in sends and in time, until it is past its lifetime |
| NackRuns.RunOrdered | pkg/nack/nack.go:103-189 | so it is on every queue that pushes, removals and rounds build with a clock that does not go back |
| NackRuns.RunPurgesIff | pkg/nack/nack.go:134-189 | on every such queue, with numbers repeated or not, a round purges exactly the expired entries if and only if no lifetime ends between the looks at two entries for one number |
| NackRuns.NoLapseWithin | pkg/nack/nack.go:150-186 | none does while a round gains no more time between two such looks than lies between the births |
| NackRuns.LapseReached | pkg/nack/nack.go:115-189 | two pushes and a round in which the wrong one of two entries goes |
| NackQueue.Nack.constructor | pkg/nack/nack.go:265-274 | an entry that was never sent, born now |
| NackQueue.Nack.GetNack | pkg/nack/nack.go:276-308 | send, wait or remove by tries, life and the time since the last send, and the entry after it |
| NackQueue.NackQueue.Remove | pkg/nack/nack.go:103-113 | the first entry for the number goes, the order stays |
| NackQueue.NackQueue.Push | pkg/nack/nack.go:115-123 | the entry is appended and the oldest one dropped if the queue was full; the queue never outgrows its capacity |
| NackQueue.NackQueue.PushRange | pkg/nack/nack.go:127-132 | the same entries as single pushes of the newest numbers that fit, each born at its own reading of the clock, and the same numbers as pushing all |
| NackQueue.BeforeMeans | pkg/nack/nack.go:127-132 | the numbers of a range count up to its end one by one and wrap at 2^16 |
| Wrappers.LastNIsEnd | pkg/nack/nack.go:115-123 | the newest are the last of the queue, in order |
| NackQueue.NackQueue.Round | pkg/nack/nack.go:139-182 | the encoding loop, with every entry looked at once |
| NackQueue.NackQueue.Pairs | pkg/nack/nack.go:134-189 | pairs and count of the due numbers, and the queue without the expired |
| PacerBudget.TickBounds | pkg/pacer/leaky_bucket.go:107-144 | what one tick sends and carries over, with a shortfall of no more than twice its interval |
| PacerBudget.TickMeans | pkg/pacer/leaky_bucket.go:107-144 | a debt beyond the interval skips a turn and shrinks by the interval; any other tick has the interval less the debt, or plus what was unused, up to twice the interval, carries the exact difference over, and with packets left overruns it by less than its last one |
| PacerBudget.OverageBounds | pkg/pacer/leaky_bucket.go:109-144 | the overage stays between minus twice the last interval and the largest packet |
| PacerBudget.Paid | pkg/pacer/leaky_bucket.go:85-147 | a window's bytes are paid for by its intervals and the change of the overage |
| PacerBudget.WindowBound | pkg/pacer/leaky_bucket.go:85-147 | bytes sent over any window are at most its intervals, the largest packet and twice the interval before it; from the start on without the last term |
| PacerBudget.FullRate | pkg/pacer/leaky_bucket.go:124-144 | with a standing backlog no allowed byte is left unsent |
| LeakyBucket.PacerLeakyBucket.Enqueue | pkg/pacer/leaky_bucket.go:62-73 | the byte count is that of the queue; nothing is taken after a stop |
| LeakyBucket.PacerLeakyBucket.SendFront | pkg/pacer/leaky_bucket.go:132-137 | the oldest packet is sent once |
| LeakyBucket.PacerLeakyBucket.Turn | pkg/pacer/leaky_bucket.go:125-137 | one turn of the inner loop: the oldest packet is sent, or the queue is empty |
| LeakyBucket.PacerLeakyBucket.SendLoop | pkg/pacer/leaky_bucket.go:124-144 | ends however much is enqueued meanwhile, and overruns the budget by less than its last packet |
| LeakyBucket.PacerLeakyBucket.Tick | pkg/pacer/leaky_bucket.go:107-144 | a tick keeps the budget rules; what was sent and what is queued is what was enqueued, in order |
| WakeProtocol.StepKeepsInv | pkg/pacer/no_queue.go:46-100 | every step keeps: no lost wake-up, one close, nothing lost or reordered |
| WakeProtocol.RunSafe | pkg/pacer/no_queue.go:46-100 | so it holds at every point of every interleaving; a packet that finds the queue empty, on a pacer that is not stopped, finds the channel open and leaves a token |
| WakeProtocol.RunRecords | pkg/pacer/no_queue.go:46-100 | at any point of a run the enqueued packets are those of the enqueuing steps, in order; it is stopped exactly if a stop was among the steps, and until then its worker runs exactly if a start was |
| WakeProtocol.WorkerDrains | pkg/pacer/no_queue.go:80-100 | left to itself the worker comes to rest after a fixed number of steps, not before, and then it has sent everything that was enqueued |
| WakeProtocol.WorkerStops | pkg/pacer/no_queue.go:55-100 | after a stop the worker is gone in at most two steps and sends no more than the packet in its hand |
| WakeProtocol.RunDelivers | pkg/pacer/no_queue.go:46-100 | after any run with a start and no stop, a worker that has come to rest has sent exactly the packets of all the enqueuing steps, each once, in order |
| NoQueue.NoQueue.Start | pkg/pacer/no_queue.go:46-53 | one step of the protocol |
| NoQueue.NoQueue.Stop | pkg/pacer/no_queue.go:55-65 | one step of the protocol |
| NoQueue.NoQueue.Enqueue | pkg/pacer/no_queue.go:67-78 | the packet is at the end of the queue, and there is a token if the queue was empty and is not stopped; a full slot is left as it is |
| NoQueue.NoQueue.Wake | pkg/pacer/no_queue.go:82 | a receive, which blocks unless there is a token or the channel is closed |
| NoQueue.NoQueue.Take | pkg/pacer/no_queue.go:84-95 | the worker's critical section: it takes the front of the queue or nothing |
| NoQueue.NoQueue.SendPacket | pkg/pacer/no_queue.go:97 | the packet in hand is sent |
| ExternalIP.StepKeepsInv | pkg/rtcconfig/ip.go:279-429 | every step keeps the count that of the goroutines still to call Done, every pending entry tied to a live query, and every channel closed at most once, even if transactions repeat |
| ExternalIP.StepKeepsTied | pkg/rtcconfig/ip.go:279-311 | a pending entry means that its query has not called Done |
| ExternalIP.StepKeepsClosed | pkg/rtcconfig/ip.go:390-408 | an entry is taken out before its channel is closed |
| ExternalIP.StepKeepsCount | pkg/rtcconfig/ip.go:278-353 | Add and Done balance, a probe counted under the mutex included |
| ExternalIP.PendingIsCounted | pkg/rtcconfig/ip.go:290-296 | a pending entry keeps the count above zero |
| ExternalIP.ZeroStaysZero | pkg/rtcconfig/ip.go:392-402 | at zero no step raises the count |
| ExternalIP.RunSafe | pkg/rtcconfig/ip.go:278-429 | for any number of servers, any transactions and any answers, repeated or late |
| ExternalIP.RunSettles | pkg/rtcconfig/ip.go:345-349 | a count that reached zero stays zero, with no resolver, query or probe left |
| ExternalIP.ReleasedIsSettled | pkg/rtcconfig/ip.go:346-349 | the read deadline is set only then |
| ExternalIP.AnswerWakes | pkg/rtcconfig/ip.go:385-412 | an answer takes the entry of its transaction and no other, and the reader then closes the channel of that query for the first time; a probe is counted exactly for a valid address that is to be validated and was not probed before |
| ExternalIP.QueryWaits | pkg/rtcconfig/ip.go:286-300 | a query waits under the transaction it drew; an answer that nothing waits for changes nothing |
| ExternalIP.RunAnswers | pkg/rtcconfig/ip.go:278-429 | over any run the closed channels are exactly those of the queries that were answered, and each address taken up is probed exactly once |
| BitStream.ShiftedWraps | pkg/codec/h26xhelper.go:54-61 | the register holds the number that the bits spell, modulo its width |
| BitStream.UERoundTrip | pkg/codec/h26xhelper.go:70-92 | reading inverts the Exp-Golomb code of every number, modulo the register, and consumes exactly the code (section 9.2 of ITU-T H.265) |
| BitStream.UECode | pkg/codec/h26xhelper.go:70-92 | the code of v is v + 1 in binary after one zero less than it has bits |
| BitStream.ZerosAhead | pkg/codec/h26xhelper.go:72-83 | the zeros counted are all before the first one bit |
| BitStream.TakeUEIff | pkg/codec/h26xhelper.go:70-92 | a code is read exactly when as many bits follow its first one bit as zeros precede it; what a failed read consumes |
| BitStream.TakeUEIsCode | pkg/codec/h26xhelper.go:70-92 | whatever is read is the code of one number, and that number modulo the register is the answer |
| BitStream.SERoundTrip | pkg/codec/h26xhelper.go:94-107 | the same for signed codes; the value is exact if and only if the code fits a signed register |
| BitStream.SignedOrder | pkg/codec/h26xhelper.go:99-106 | codes 0, 1, 2, 3, 4 and so on are 0, 1, -1, 2, -2 and so on (section 9.2.2 of ITU-T H.265) |
| BitStream.PackRoundTrip | pkg/codec/h26xhelper.go:55-59 | whole octets give back their bits |
| BitReader.BitOfPos | pkg/codec/h26xhelper.go:56-58 | byte and bit position pick the right bit |
| BitReader.BitReader.constructor | pkg/codec/h26xhelper.go:42-44 | all bits are still to be read |
| BitReader.BitReader.ReadBits | pkg/codec/h26xhelper.go:50-63 | the next bits as a number, or a failure that consumes nothing, for too large and for negative counts |
| BitReader.BitReader.ReadFlag | pkg/codec/h26xhelper.go:65-68 | the next bit |
| BitReader.BitReader.SkipZeros | pkg/codec/h26xhelper.go:72-83 | the number of zeros before the stop bit, which is consumed |
| BitReader.BitReader.ReadUE | pkg/codec/h26xhelper.go:70-92 | an unsigned code |
| BitReader.BitReader.ReadSE | pkg/codec/h26xhelper.go:94-107 | a signed code |
| NalUnit.RemoveEmulationPreventionBytes | pkg/codec/h26xhelper.go:123-132 | the loop drops exactly the 3s after two zeros |
| NalUnit.RemovedNext | pkg/codec/h26xhelper.go:123-132 | byte after byte, a 3 after two zeros goes and all else stays |
| NalUnit.RemoveInvertsInsert | pkg/codec/h26xhelper.go:122-132 | removal inverts insertion for all byte strings |
| NalUnit.InsertedHasNoStartCode | pkg/codec/h26xhelper.go:122-132 | after insertion no start code is left |
| NalUnit.StripIsExact | pkg/codec/h26xhelper.go:111-120 | a start code goes if there is one, and nothing else does |
| NalUnit.StripIff | pkg/codec/h26xhelper.go:111-120 | what goes is a leading 0, 0, 0, 1 or 0, 0, 1 |
| NalUnit.NalRoundTrip | pkg/codec/h26xhelper.go:111-132 | a NAL unit gives back its payload, with either start code or none |
| H265Syntax.HeaderRoundTrip | pkg/codec/h26xhelper.go:144-173 | NAL header and sub-layer count (section 7.3.2.2.1 of ITU-T H.265) |
| H265Syntax.PtlRoundTrip | pkg/codec/h26xhelper.go:175-235 | profile_tier_level is skipped exactly, for all sub-layer flags (section 7.3.3 of ITU-T H.265) |
| H265Syntax.CoreRoundTrip | pkg/codec/h26xhelper.go:237-281 | chroma format, size and conformance window |
| H265Syntax.RegistersSuffice | pkg/codec/h26xhelper.go:299-313 | cropping in 64-bit registers does not wrap, and gives 0 for a window larger than the picture |
| H265Syntax.SpsRoundTrip | pkg/codec/h26xhelper.go:135-316 | parsing the bits of any well-formed parameter set gives all its fields and its cropped size, and reads exactly up to the last of them |
| H265Syntax.SpsLayout | pkg/codec/h26xhelper.go:143-281 | where the fields are: type and sub-layer count by bit position, two flags per sub-layer from bit 120 on, 88 bits for each profile and 8 for each level, then the codes in their order |
| H265Syntax.DisplaySizeTable | pkg/codec/h26xhelper.go:299-334 | window offsets count twice across for chroma formats 1 and 2, twice down for 1, and once else; never below 0 |
| H265Refusals.SpsMore | pkg/codec/h26xhelper.go:135-316 | whatever is parsed, bits that follow do not change the answer, and no refusal but that for missing bits goes away |
| H265Refusals.TruncatedIsRefused | pkg/codec/h26xhelper.go:135-316 | a parameter set cut anywhere before the end of its last field is refused for missing bits |
| H265Refusals.OtherTypeIsRefused | pkg/codec/h26xhelper.go:144-162 | any other NAL unit type is refused by its number, whatever follows |
| H265Parser.ReadHeader | pkg/codec/h26xhelper.go:144-173 | the reads up to the profile, with the wrong-type error |
| H265Parser.ReadGeneralProfile | pkg/codec/h26xhelper.go:175-194 | 96 bits |
| H265Parser.ReadFlags | pkg/codec/h26xhelper.go:196-209 | the loop over the sub-layer flags |
| H265Parser.SkipReserved | pkg/codec/h26xhelper.go:210-217 | the reserved pairs |
| H265Parser.ReadPtl | pkg/codec/h26xhelper.go:175-235 | the loops over sub-layers consume exactly the syntax |
| H265Parser.ReadWindow | pkg/codec/h26xhelper.go:263-281 | the conformance window |
| H265Parser.ReadCore | pkg/codec/h26xhelper.go:237-313 | the rest, and the size |
| H265Parser.ParseH265SPS | pkg/codec/h26xhelper.go:135-316 | bytes to fields, with the right error for every malformed or short input |
| H265Parser.ParsesEverySps | pkg/codec/h26xhelper.go:135-316 | end to end on bytes: serialize, protect, prefix, parse |
| H264Syntax.HighExactIff | pkg/codec/h26xhelper.go:399-414 | the fields of the high profiles are passed over exactly if their scaling matrix, if there is one, has eight lists none of which is there; the parser skips eight flags, where the standard has lists behind set flags and twelve flags for chroma format 3 (section 7.3.2.1.1 of ITU-T H.264) |
| H264Syntax.TwelveListsMisread | pkg/codec/h26xhelper.go:378-494 | a well-formed parameter set of one macroblock for which that fails, and which is read as two macroblocks high |
| H264Syntax.PocRoundTrip | pkg/codec/h26xhelper.go:417-432 | all three picture order count types |
| H264Syntax.FrameRoundTrip | pkg/codec/h26xhelper.go:434-451 | size, field coding and cropping |
| H264Syntax.AvcRoundTrip | pkg/codec/h26xhelper.go:378-494 | parsing the bits of any well-formed parameter set whose scaling lists are passed over gives its fields and its cropped size (section 7.3.2.1.1 of ITU-T H.264) |
| H264Syntax.AvcOrder | pkg/codec/h26xhelper.go:394-438 | the fields in their order, written out |
| H264Syntax.HighOrder | pkg/codec/h26xhelper.go:399-414 | those of the high profiles |
| H264Syntax.PocOrder | pkg/codec/h26xhelper.go:417-432 | those of each picture order count type |
| H264Syntax.FrameOrder | pkg/codec/h26xhelper.go:434-451 | and those of the size |
| H264Syntax.AvcSizeTable | pkg/codec/h26xhelper.go:453-476 | 16 samples a macroblock, twice the rows for fields; crop offsets count twice across for chroma formats 1 and 2, twice down for 1, and twice again for fields; never below 0 |
| H264Syntax.HighProfiles | pkg/codec/h26xhelper.go:400-401 | the nine profiles with such fields |
| H264Syntax.LongCycleIsRefused | pkg/codec/h26xhelper.go:421-429 | more than 255 frames in a cycle are refused, whatever follows |
| H264Syntax.RefusesLittle | pkg/codec/h26xhelper.go:392-494 | nothing else in the fields is refused |
| H264Syntax.NothingIsAccepted | pkg/codec/h26xhelper.go:392-494 | not even that they are missing: a header alone gives 16 by 32 |
| H264Parser.ReadHigh | pkg/codec/h26xhelper.go:399-414 | the reads of the high profiles |
| H264Parser.ReadPoc | pkg/codec/h26xhelper.go:417-432 | the reads by picture order count type, with the limit on the cycle |
| H264Parser.ReadCrop | pkg/codec/h26xhelper.go:445-451 | the cropping offsets |
| H264Parser.ReadFrame | pkg/codec/h26xhelper.go:434-491 | the rest, and the size |
| H264Parser.ReadFields | pkg/codec/h26xhelper.go:392-494 | all reads, with errors of single reads ignored |
| H264Parser.ParseH264SPS | pkg/codec/h26xhelper.go:378-494 | bytes to fields, with the errors for empty input and other NAL types |
| H264Parser.ParsesEveryAvc | pkg/codec/h26xhelper.go:378-494 | end to end on bytes, for those sets |
| VP8Format.DecodedFields | pkg/codec/vp8.go:94-135 | decoded fields are valid, and are written back as they came exactly when their last byte is canonical |
| VP8Format.FieldsRoundTrip | pkg/codec/vp8.go:94-223 | the optional fields survive being written and read |
| VP8Format.Accepted | pkg/codec/vp8.go:73-159 | what is known of a payload that is accepted |
| VP8Format.HeadLayout | pkg/codec/vp8.go:82-159 | which bit is which: X and S in the first byte, I, L, T and K in the second, the key-frame mark by S and the lowest bit after the descriptor |
| VP8Format.FieldsLayout | pkg/codec/vp8.go:94-137 | where each optional field is and what it is worth, and that they are read exactly if they are all there |
| VP8Format.AcceptedIff | pkg/codec/vp8.go:73-159 | a payload is accepted exactly when a byte follows its descriptor and L does not come without T; which error it gets else |
| VP8Format.KeptFields | pkg/codec/vp8.go:82-137 | what a payload lacks stays as the descriptor had it |
| VP8Format.WrittenBytes | pkg/codec/vp8.go:175-224 | what each byte is written as, whatever the fields hold |
| VP8Format.FreshOver | pkg/codec/vp8.go:73-159 | on a fresh descriptor a payload leaves nothing but what it decodes to |
| VP8Format.MarshalRoundTrip | pkg/codec/vp8.go:73-227 | for every accepted payload, reading what was written gives the same flags, fields and key-frame mark; the header is as long as before unless its extension byte announced nothing (section 4.2 of RFC 7741) |
| VP8Format.MarshalExactIff | pkg/codec/vp8.go:161-227 | the header is written back byte for byte if and only if it is canonical |
| VP8Descriptor.VP8Helper.ReadPid | pkg/codec/vp8.go:94-112 | a 7-bit or 15-bit picture ID |
| VP8Descriptor.VP8Helper.ReadFront | pkg/codec/vp8.go:94-121 | the fields before the byte that T and K share |
| VP8Descriptor.VP8Helper.ReadTk | pkg/codec/vp8.go:123-136 | that byte, as far as T and K announce it |
| VP8Descriptor.VP8Helper.ReadFields | pkg/codec/vp8.go:94-137 | the optional fields in order |
| VP8Descriptor.VP8Helper.ReadExtension | pkg/codec/vp8.go:82-137 | the flags, with the check of L against T |
| VP8Descriptor.VP8Helper.Unmarshal | pkg/codec/vp8.go:73-159 | any descriptor holds what the payload decodes to, and its old values for what the payload lacks; the call fails as decoding does |
| VP8Descriptor.VP8Helper.MarshalHead | pkg/codec/vp8.go:175-224 | the first byte with the right extension bit, and the flags |
| VP8Descriptor.VP8Helper.MarshalFields | pkg/codec/vp8.go:181-220 | the optional fields are written in order and nothing beyond them |
| VP8Descriptor.VP8Helper.MarshalTo | pkg/codec/vp8.go:170-227 | the descriptor is written at the front and the rest of the buffer is untouched |
| VP8Descriptor.VP8Helper.Marshal | pkg/codec/vp8.go:161-168 | eight bytes hold any descriptor |
| DelayRules.AdaptedBetween | pkg/latency/owd_estimator.go:149-158 | a move by a factor of the distance, truncated, never overshoots |
| DelayRules.RunBounded | pkg/latency/owd_estimator.go:106-176 | after any reports the estimate, and the spike if there is one, lies between the smallest and the largest delay observed |
| DelayRules.LongTermNeverNegative | pkg/latency/owd_estimator.go:161-173 | the long-term delta is never negative, whatever the clocks say |
| DelayRules.RunFollows | pkg/latency/owd_estimator.go:129-143 | high count, start time and spike are those of the streak of high deltas, and the estimate is that from before the streak |
| DelayRules.StepChangeIff | pkg/latency/owd_estimator.go:129-143 | after the first report a step change is reported exactly at the end of a streak that is long enough and began long enough ago |
| DelayRules.StreakStands | pkg/latency/owd_estimator.go:129-147 | during a streak no step change is reported and the estimate does not move |
| DelayRules.StepChangeEstimate | pkg/latency/owd_estimator.go:134-142 | a step change moves the estimate to the smoothed delay of its streak |
| DelayRules.FirstReport | pkg/latency/owd_estimator.go:113-122 | the first delay is the estimate, and counts as a step change |
| DelayRules.HighIff | pkg/latency/owd_estimator.go:127-129 | a delta is high exactly when it exceeds the threshold, and the long-term delta, if there is one, by its factor |
| DelayRules.EstimateMoves | pkg/latency/owd_estimator.go:125-159 | a small delta moves the estimate by the rise factor of the way up or the fall factor of the way down, short of it by less than one; a larger one leaves it, unless it completes a step change |
| DelayRules.SmoothedMoves | pkg/latency/owd_estimator.go:134-138 | a streak starts with its first delay, and each later one moves it by the spike factor of the way |
| DelayRules.LongTermMoves | pkg/latency/owd_estimator.go:161-173 | large deltas leave the long-term delta; it starts with the first delta after a step change and moves by the part of the reset wait that went by; it stops at zero |
| OneWayDelay.OWDEstimator.constructor | pkg/latency/owd_estimator.go:86-90 | nothing is observed yet |
| OneWayDelay.OWDEstimator.ResetDelta | pkg/latency/owd_estimator.go:107-111 | the streak is forgotten |
| OneWayDelay.OWDEstimator.InitPropagationDelay | pkg/latency/owd_estimator.go:113-117 | a new estimate with no long-term delta |
| OneWayDelay.OWDEstimator.CheckPathChange | pkg/latency/owd_estimator.go:125-159 | the branches on the delta |
| OneWayDelay.OWDEstimator.Update | pkg/latency/owd_estimator.go:106-176 | one report, as the rules say |
| NtpTime.FractionFits | helpers.go:49-53 | no 64-bit overflow, no carry into the seconds, and rounding to within half a unit |
| NtpTime.NanosecondsClose | helpers.go:34-38 | the same on the way back |
| NtpTime.NanosecondsInvert | helpers.go:32-55 | below a second nothing is lost |
| NtpTime.DurationInvertsToNtp | helpers.go:32-55 | every nanosecond offset below 2^32 seconds survives exactly |
| NtpTime.ToNtpMonotone | helpers.go:46-55 | later offsets have later timestamps |
| NtpTime.ToNtpNearest | helpers.go:46-55 | a timestamp is the offset to the nearest 2^-32 of a second |
| NtpTime.DurationNearest | helpers.go:32-40 | an offset is the timestamp to the nearest nanosecond |
| NtpTime.ToNtpAlmostInvertsDuration | helpers.go:32-55 | a timestamp moves by at most 2 units of its fraction away from the end of the era |
| NtpTime.DurationInEraIff | helpers.go:32-40 | exactly the last two timestamps round up to the end of the era |

## Left out

- `wraparound.go` also has `Seed` and `Rollover`; these, undoing the very first update, and resetting the highest number below the start all leave the order of start and highest by design, so they are not part of the unwrapping theorem.
- WrapAround.WrapAround.UpdateWithOrderKnown: the extended type is assumed to have room for one more range, and to be strictly wider than the plain one; overflow of the extended type is not described.
- Bucket.Bucket.AddPacket: packets shorter than their sequence number field, on which the Go code panics, and an extended type narrower than the field are excluded.
- Bucket.Bucket.AddPacketWithSequenceNumber: so are such packets where the Go code stores them and then panics.
- Bucket.Bucket.Grow: beyond half the sequence range the slots are described but not the map, as a window would overlap itself; nor are calls on such a bucket, or on one without slots.
- Packets that the bucket and the RED depacketizer return are values here; that they alias slots and payloads in Go is not captured.
- PacketLog.RunRetains: numbers that jump by more than half the range are outside the log, because the wire cannot tell them from late ones.
- RED packets that are recovered are not entered in the history, so a packet may be handed on twice; the model states when, and makes no claim that it does not happen.
- H264Syntax.AvcRoundTrip: holds for parameter sets whose scaling lists are passed over, a condition on the input that `H264Syntax.HighExactIff` shows to be exact for those fields; what a misread set parses to is shown at one input only.
- H265Syntax.SpsRoundTrip: codes are below 2^32 - 1, as the syntax has them, so that sizes do not wrap.
- Aggregation packets and fragmentation units of `h26xhelper.go`, key-frame detection in `keyframe.go`, and the frame size in VP8 key frames are left out: scans that would add easier members.
- VP8Descriptor.VP8Helper.Unmarshal: what is left half written when a call fails is not described.
- VP8Descriptor.VP8Helper.MarshalTo: a buffer that is long enough for the header that was read but not for the one to write, on which the Go code panics, is excluded.
- NackQueue.Nack.GetNack: the backoff, a floating-point power of a factor times the round-trip time, is an arbitrary function; `SetRTT` and its smoothing are left out.
- NackQueue.NackQueue.Push: a queue of capacity 0, on which the Go code panics, is excluded.
- The lock around the NACK queue appears only as the atomicity of each call.
- LeakyBucket.PacerLeakyBucket.Tick: the bytes of an interval, computed from bitrate, latency and elapsed time in floating point, are an arbitrary number.
- LeakyBucket.PacerLeakyBucket.SendLoop: what others enqueue is given per turn of the loop, as any finite sequence.
- WakeProtocol.StepKeepsInv: one worker; calling `Start` twice without a stop, which would start a second one, is not described.
- NoQueue.NoQueue.Start: for the same reason it is called once, unless the pacer is stopped.
- ExternalIP.StepKeepsInv: sockets, STUN messages, DNS, timeouts and the choice of the address that is returned are left out; every read may return anything.
- OneWayDelay.OWDEstimator.Update: factors are exact rationals and integers unbounded, not 64-bit floats and integers; a reset wait of 0, by which the Go code divides, is excluded, and `InitialAdjustment`, which moves the estimate outside the observed delays, is left out.
- NtpTime.ToNtpAlmostInvertsDuration: timestamps whose duration reaches the end of the era are excluded; `time.Time` appears as nanoseconds since the NTP epoch.
- Round-trip time from reports in `helpers.go`, sockets and settings in `pkg/rtcconfig`, `pkg/transport`, `pkg/twcc` and `pkg/interceptor`, and the other pacers are left out: wiring and wrappers.
