# Verification of imquic's media and relay logic

A Dafny model of the parts of imquic that carry real algorithms: the RTP senders and receivers of
the RTP-over-QUIC demos, the H.264 byte-stream conversion, the adaptive rate and layer
controllers, the live and fetch delivery of the MoQ relay demo, and the library's textual form of
namespaces and track names. `dafny verify dfyconfig.toml` checks all of it.

Where the program changes state step by step, the model does too: a class with the same fields,
or a method with the same loops over a buffer. Each such method is proved against a function,
and the theorems are about that function over whole runs. Bytes are integers 0 to 255; 16- and
32-bit counters wrap explicitly; `double` is an exact `real`.

| module | what it models |
|---|---|
| `Rtp`, `PacketSinks`, `Delivery` | building and reading RTP packets (RFC 3550, section 5.1); a callback that may refuse packets; a network that delivers, in order, any part of a stream |
| `AnnexB`, `H264Sender`, `H264Depay` | the H.264 byte stream (H.264, Annex B, section B.1), the packetiser and the depacketiser (RFC 6184, sections 5.6 to 5.8) |
| `Vpx` | the VP8 and VP9 packetisers and depacketisers (RFC 7741, section 4.2; RFC 9628, section 4.2) |
| `RtpStats` | the display's loss counters |
| `Avcc` | conversion between start codes and length prefixes, and the two tests on the result |
| `AbrLadder`, `Abr` | the publisher's quality ladder and its hysteresis controller |
| `Svc` | the layer controller for scalable video, and the bitrate split over layers |
| `MoqObjects`, `RelayWire`, `RelayLive` | a relay track, its subscriptions and what each is sent |
| `RelayFetch` | the queues of fetches and the loop that serves them |
| `Namespace` | namespaces and track names as text, and tables keyed by that text |
| `Bytes`, `Wrappers` | shared byte fields, and the optional value |

## Main results

* Whatever part of a stream arrives in order, the H.264 receiver hands on, for each access unit, a
  run of its last whole NAL units or nothing (`H264Depay.StreamUnderLoss`), and all of every unit
  exactly when nothing was lost (`H264Depay.WholeIffNothingLost`). `Vpx.StreamUnderLoss` and
  `Vpx.WholeIffNothingLost` are the same for VP8 and VP9 frames. All start from the bytes the sender
  is given and end with the bytes the decoder is given, datagrams in between.
* Rewriting packed AVCC to a byte stream and packing it again is the identity for every input
  that can be packed at all, well-formed or not (`Avcc.PackRewritePack`).
* The rate controller comes to rest under constant stress exactly when its target band holds a
  step it can land on (`Abr.Convergence`), by a measure over the distance and all five counters;
  with bitrate adaptation on it always does (`Abr.BitrateConverges`).
* Live relay delivery refines a filter over the arrival log (`RelayLive.LiveDeliveryIsAFilter`),
  what passes it is written out (`RelayLive.SendRule`), and a fetch is sent its range once each,
  whatever else is being fetched (`RelayFetch.RangeIsDeliveredOnce`,
  `RelayFetch.JoiningIsDeliveredOnce`).
* Printed namespaces parse back, so tables keyed by text behave like tables keyed by namespace
  (`Namespace.NamespaceRoundTrip`, `Namespace.TablesAgree`).

## Where the code and what is said of it differ

* The ladder is only ordered above its fixed floors; `AbrLadder.LadderOrder` gives the exact
  condition.
* Convergence fails with bitrate adaptation off, when the band holds only steps without effect;
  `Abr.MayNeverRest` is an instance.
* The relay's "largest object" is the object that arrived last. `RelayLive.LargestObjectIsExact` says
  when that is the largest, `RelayLive.LatestIsNotLargest` what happens when it is not.
* With the frame rate fixed, the third step of a level counts as a step of its own although it
  equals the second: `Abr.EffectiveSubsteps` and `AbrLadder.StepsOfALevel`.
* Data without any start code is sent as one NAL unit without its first byte
  (`H264Sender.NoCodeIsOneNal`).
* A fetch range that ends just after object 0 of a group is served as if it covered the whole group
  (`RelayFetch.RangeTestIsExact`). A fetch of nothing is removed without any end of stream
  (`RelayFetch.EndOfStreamIffNotEmpty`, `RelayFetch.EmptyFetchNeverEnds`).
* A relative joining fetch that reaches back past group 0 gets nothing (`RelayFetch.JoiningRange`).
* A namespace whose first field is empty prints as if that field were not there
  (`Namespace.NamespaceRoundTrip`); an empty namespace is not equal to itself
  (`Namespace.NamespaceEquals`).
* Printing a namespace into a buffer that is too small may write its terminator one byte behind the
  given size; `Namespace.NamespaceStr` says exactly when.

* The header (src/imquic/moq.h:339-347) calls the separator of a printed namespace a slash; the code
  writes and splits at a hyphen, and the model follows the code.

## Model

Source paths are relative to the repository's root.

| member | source | states |
|---|---|---|
| Rtp.RtpState.BuildPacket | examples/roq-utils.c:35-52 | One packet: refused, with nothing changed, when the payload is empty or does not fit; otherwise header and payload as RFC 3550 section 5.1 lays them out, the sequence number counted modulo 2^16, the timestamp modulo 2^32, and the rest of the buffer untouched |
| Rtp.HeaderLayout | examples/roq-utils.c:41-50 | The header byte by byte, in network order, as RFC 3550 section 5.1 lays it out |
| Rtp.DecodeEncode | examples/roq-utils.c:19-24 | Reading a built datagram back (RTP test, header fields, payload span as the display finds it) returns the packet, for every payload type the RTP test does not take for RTCP, and nothing for those it does |
| Rtp.FindsPayload | examples/roq-display.c:187-209 | The receiver finds header fields and payload behind any CSRC list and header extension and before any padding |
| Rtp.FrameContract | examples/roq-utils.c:122-162 | Packetiser contract, all codecs: every packet is at most 1200 bytes, sequence numbers are consecutive modulo 2^16, all carry the previous timestamp plus the step, and the marker is on exactly the last one |
| Rtp.NinetyKilohertz | examples/roq-utils.c:127-127 | The timestamp step is 90000 divided by the frame rate, rounded down |
| PacketSinks.WireSlice | examples/roq-utils.c:93-120 | Any stretch of a frame's datagrams is itself a run by the same sender: only the first packet moves the clock, only the last is marked; this is what lets fragment loops compose |
| Delivery.ParseDatagrams | examples/roq-display.c:187-209 | Stripping the RTP headers off the datagrams that arrive of a stream gives exactly the delivered packets, whatever part of it was lost |
| Delivery.SteadyRateIsDistinct | examples/roq-utils.c:127-127 | At a constant frame rate no two frames share a timestamp until the 32-bit clock has gone round: the hypothesis of the loss theorems is met |
| H264Sender.NextNal | examples/roq-utils.c:54-81 | One step of the scan: the span of the next NAL unit, or the end of the data |
| H264Sender.FindLast | examples/roq-utils.c:129-140 | The first pass finds the last NAL span, by which the second pass sets the marker |
| H264Sender.NalsOfRendered | examples/roq-utils.c:54-81 | For any list of well-formed NAL units behind any mix of 3- and 4-byte start codes, the scan finds exactly that list |
| H264Sender.NoCodeIsOneNal | examples/roq-utils.c:54-81 | Data without a start code goes out as one NAL unit that lacks the first byte |
| H264Sender.NoFragmentStartsAndEnds | examples/roq-utils.c:93-120 | Every FU-A fragment carries the unit's type, S on exactly the first, E on exactly the last, and never both (RFC 6184 section 5.8) |
| H264Sender.SentPayloads | examples/roq-utils.c:83-162 | What each packet of a NAL unit holds: the unit itself if packet and header fit 1200 bytes, else FU indicator, FU header and the next 1186 bytes of its body, every packet but the last full |
| H264Sender.SendFuA | examples/roq-utils.c:93-120 | For any unit of two bytes or more the fragment loop sends the payloads the fragmentation defines, as one run of datagrams, up to the first refusal of the callback, and the clock has moved by the packets handed over; a single byte is refused |
| H264Sender.SendNal | examples/roq-utils.c:83-120 | A NAL unit goes as one packet if it fits in one, and in fragments otherwise; the clock moves with every packet handed over, a refused one included |
| H264Sender.Packetize | examples/roq-utils.c:122-162 | A whole access unit: what reaches the callback is the run of datagrams for the scanned NAL units, cut at the first refusal, and the clock has advanced by as many packets as were handed over |
| H264Depay.Depacketizer.TakeFu | examples/roq-display.c:241-263 | A fragment of the FU-A reassembly, rejected ones included |
| H264Depay.Depacketizer.TakeStap | examples/roq-display.c:264-275 | An aggregation packet, up to the first size that does not fit |
| H264Depay.AggregatedUnits | examples/roq-display.c:264-275 | An aggregation packet adds exactly the units it holds, each behind its size, up to where it is cut off |
| H264Depay.Depacketizer.DepayPacket | examples/roq-display.c:211-284 | One packet through the receiver: state and verdict are the specification's, for any state and any packet |
| H264Depay.PayloadRule | examples/roq-display.c:238-284 | What the receiver does with a packet in sequence, by NAL unit type: single units, aggregation packets, fragments of either type, and what it rejects |
| H264Depay.SequenceRule | examples/roq-display.c:221-236 | And with one out of sequence: a new timestamp starts afresh, a gap spoils the rest of the access unit up to its marker |
| H264Depay.Depacketizer.FeedDatagram | examples/roq-display.c:899-918 | One datagram: header stripped, unit handed on when complete and not oversized, buffers emptied after |
| H264Depay.FeedRule | examples/roq-display.c:904-918 | A complete access unit of at most 512 KiB goes to the decoder, and the buffers are emptied either way |
| H264Depay.UnitUnderLoss | examples/roq-display.c:211-284 | One access unit, any in-order part of its packets: what comes out is the NAL units that lie wholly in the gap-free tail, provided nothing before that tail arrived and the last packet did; otherwise nothing |
| H264Depay.StreamUnderLoss | examples/roq-display.c:211-284 | The same for any stream of access units on the wire, from any receiver state: no partial NAL and no mix of two units ever comes out |
| H264Depay.WholeIffNothingLost | examples/roq-display.c:899-918 | The lossless round trip and its converse, from the sender's bytes over the wire to the decoder's: every access unit of a stream comes out whole, every NAL unit now behind a 4-byte start code, if and only if no packet was lost, from any receiver state |
| H264Depay.UnitRoundTrip | examples/roq-display.c:899-918 | The same for a single access unit and a receiver whose last timestamp differs |
| Vpx.Packetize | examples/roq-utils.c:207-240 | The VP8 and VP9 senders: what reaches the callback is the run of datagrams for the chunks, cut at the first refusal, and the clock has advanced by the packets handed over; the short path is what the chunk loop would send |
| Vpx.SendChunks | examples/roq-utils.c:321-339 | The chunk loop against the chunk list, with the clock it leaves behind |
| Vpx.SentDescriptors | examples/roq-utils.c:167-175 | The descriptor byte of every packet sent, both codecs (the VP9 ones at lines 310-333): the key frame, start and end bits, and no others |
| Vpx.SentChunks | examples/roq-utils.c:223-238 | Behind the descriptors the packets hold the frame, every packet but the last full |
| Vpx.Vp8DescriptorLen | examples/roq-utils.c:177-205 | The length of a VP8 payload descriptor with any extensions (RFC 7741, section 4.2), and 0 for a payload too short for it |
| Vpx.Vp9DescriptorLen | examples/roq-utils.c:286-298 | The length of a VP9 payload descriptor as the program reads it, and 0 for a payload too short for it |
| Vpx.Depacketizer.DepayPacket | examples/roq-utils.c:250-284 | One packet through the VP8 receiver or the VP9 one (lines 350-386): new state and frame are the specification's |
| Vpx.Depacketizer.FeedDatagram | examples/roq-display.c:815-876 | The caller: strip the header, hand a frame on unless oversized, reset |
| Vpx.PacketRule | examples/roq-display.c:815-876 | What the receiver does with any packet: what it ignores, what starts a frame, what ends it, what empties the buffer first, and which frames are too large |
| Vpx.FrameUnderLoss | examples/roq-utils.c:250-284 | One frame, any in-order part of its packets: the maximal gap-free tail comes out if the last packet arrived, otherwise nothing |
| Vpx.StreamUnderLoss | examples/roq-utils.c:350-386 | The same for any stream of frames on the wire, both codecs, from any receiver state |
| Vpx.WholeIffNothingLost | examples/roq-display.c:815-876 | The lossless round trip and its converse for both codecs: every frame of a stream comes out as it went in if and only if no packet was lost, from any receiver state |
| Vpx.FrameRoundTrip | examples/roq-display.c:815-876 | The same for a single frame and a receiver whose last timestamp differs |
| RtpStats.Tracker.TrackPacket | examples/roq-display.c:452-484 | One packet's effect on the two window counters, the last number moving only forward by less than 2^15 |
| RtpStats.Tracker.ShowWindow | examples/roq-display.c:514-525 | Closing a window shows its counts and zeroes it |
| RtpStats.LossConservation | examples/roq-display.c:452-525 | Over any sequence with wrap-around, summed over all windows: received is the number of packets, and received plus lost is the span of extended numbers plus the duplicate and late packets |
| RtpStats.EverySequenceIsPlausible | examples/roq-display.c:464-467 | Every sequence of 16-bit numbers has an unwrapping the conservation law applies to |
| Avcc.Pack | examples/moq-utils.c:234-263 | The scanning loop writes the scanned NAL units behind 4-byte lengths, or returns 0, exactly when the specification says |
| Avcc.IsComplete | examples/moq-utils.c:265-284 | The validator accepts exactly the buffers that parse into one or more length-prefixed units |
| Avcc.Rewrite | examples/moq-utils.c:286-303 | The in-place loop turns each length up to the first bad one into a start code and leaves every other byte |
| Avcc.IsKeyframe | examples/moq-utils.c:305-321 | The keyframe loop against its specification |
| Avcc.ParseExactly | examples/moq-utils.c:265-284 | A buffer parses into a list of units if and only if it is the concatenation of those units, nonempty and shorter than 2^32, behind their lengths |
| Avcc.SplitInverts | examples/moq-utils.c:240-262 | A successful scan loses nothing: the data is the found units behind the start codes found |
| Avcc.NoCodeInUnits | examples/moq-utils.c:224-253 | No start code of either length is left inside a unit the scan finds |
| Avcc.NothingFound | examples/moq-utils.c:240-262 | The scan finds no unit if and only if there is no start code in the input |
| Avcc.ScanOfRendered | examples/moq-utils.c:240-262 | For well-formed units behind any mix of 3- and 4-byte start codes, the scan finds exactly those units |
| Avcc.PackRendered | examples/moq-utils.c:234-263 | Packing such units succeeds if and only if there is one and the output fits, and gives each unit behind its length |
| Avcc.PackedLength | examples/moq-utils.c:234-263 | Output length is source length less the bytes before the first start code, plus one for every 3-byte start code |
| Avcc.PackRewritePack | examples/moq-utils.c:286-303 | For every input that can be packed, rewriting the output in place and packing again gives the same bytes; nothing is assumed of the input but that each unit's length fits its 32-bit field |
| Avcc.PackedIsComplete | examples/moq-utils.c:265-284 | A packed buffer is accepted by the validator and parses into the scanned units if and only if each unit's length fits its 32-bit field |
| Avcc.ShortInputsFit | examples/moq-utils.c:253-256 | Every input shorter than 2^32 bytes is of that kind |
| Avcc.PackedKeyframe | examples/moq-utils.c:305-321 | The keyframe test on a packed buffer holds if and only if some scanned unit has type 5 |
| AbrLadder.ClampNeverTaken | examples/moq-loc-abr.c:59-66 | For any maxima and factor of the ladder, the last height clamp changes nothing |
| AbrLadder.LadderOrder | examples/moq-loc-abr.c:83-167 | Width, height, frame rate and both bitrates fall along all 18 steps under every flag setting if and only if the maxima are above the ladder's fixed floors: evened width 2 or at least 550, 12 frames per second, video 177778, audio 21334 |
| AbrLadder.WithinMaxima | examples/moq-loc-abr.c:83-167 | Above those floors no step exceeds the maxima, and widths and heights are even |
| AbrLadder.LevelSize | examples/moq-loc-abr.c:45-70 | Width and height of each level in whole numbers: hundredths of the maximum above a floor, made even, and the nearest even height of the same shape |
| AbrLadder.LevelFps | examples/moq-loc-abr.c:98-102 | Frame rate of each level in whole numbers |
| AbrLadder.LevelVideo | examples/moq-loc-abr.c:103-105 | Video bitrate of each level in whole numbers |
| AbrLadder.LevelAudio | examples/moq-loc-abr.c:106-108 | Audio bitrate of each level in whole numbers |
| AbrLadder.StepsOfALevel | examples/moq-loc-abr.c:112-167 | The three steps of every level, under any flags: the level, half way to the next in bitrate, half way in frame rate as well |
| Abr.StressToStep | examples/moq-loc-abr.c:270-289 | The nested loops return the first step whose threshold the stress is below |
| Abr.TargetEdges | examples/moq-loc-abr.c:270-289 | Which step a stress asks for, by 18 edges written out in 300ths and moved by the margin, in both directions |
| Abr.EveryStepIsATarget | examples/moq-loc-abr.c:270-289 | Every step is what some stress from 0 to 1 asks for, in both directions |
| Abr.EffectiveSubsteps | examples/moq-loc-abr.c:169-177 | Which substeps count as having an effect |
| Abr.IneffectiveIsIdle | examples/moq-loc-abr.c:127-177 | A step that does not count has the configuration of the one before it, on every ladder |
| Abr.NextDegradeStep | examples/moq-loc-abr.c:193-202 | The loop finds the nearest worse step that has an effect under the flags |
| Abr.NextImproveStep | examples/moq-loc-abr.c:204-213 | The loop finds the nearest better step that has an effect |
| Abr.NormalizeStep | examples/moq-loc-abr.c:179-191 | Any step is brought onto the ladder, and the loop drops substeps that have no effect |
| Abr.Controller.constructor | examples/moq-loc-abr.c:215-240 | The initial ladder, step and counters |
| Abr.Controller.SetActiveStep | examples/moq-loc-abr.c:295-307 | Moving to any step, brought onto the ladder first, sets its configuration, and forgets stability when the level changes |
| Abr.Controller.Update | examples/moq-loc-abr.c:370-451 | One update, for every state and stress: the new step, five counters and generation are the specification's |
| Abr.TargetMonotone | examples/moq-loc-abr.c:270-289 | More stress never gives a better target step |
| Abr.TargetsOrdered | examples/moq-loc-abr.c:380-397 | The degrade target is never past the improve target, so the two branches are never both enabled |
| Abr.StrictProgress | examples/moq-loc-abr.c:395-450 | Under any flags every executed degrade raises the step, every improvement lowers it, nothing else moves it, and the counters stay in range |
| Abr.DegradeLands | examples/moq-loc-abr.c:397-414 | A degrade goes to a lower level at once, nearest to its target, and otherwise to the next step with an effect |
| Abr.ImproveLands | examples/moq-loc-abr.c:421-446 | An improvement goes to the nearest better step with an effect |
| Abr.AfterMove | examples/moq-loc-abr.c:411-446 | The counters every kind of move leaves behind |
| Abr.RestsInBand | examples/moq-loc-abr.c:447-450 | Inside the band, once the dwell is over, both holdoffs start again |
| Abr.StabilityCounts | examples/moq-loc-abr.c:374-377 | What the stability count counts, and when it starts again |
| Abr.RateLimits | examples/moq-loc-abr.c:374-445 | Over every stress sequence: a resolution upgrade comes at least 44 updates after the last degrade or resolution upgrade, any other improvement at least 11 updates after any move |
| Abr.DegradeTiming | examples/moq-loc-abr.c:386-420 | How many updates a degrade takes after a move, in every case |
| Abr.ImproveTiming | examples/moq-loc-abr.c:421-446 | The bound of 11 updates is attained: under steady stress the improvement comes with exactly that update |
| Abr.ResUpgradeTiming | examples/moq-loc-abr.c:425-437 | So is the bound of 44 updates for a resolution upgrade |
| Abr.Convergence | examples/moq-loc-abr.c:370-451 | Under constant stress and any flags the controller comes to rest in the target band if and only if it starts there or the band has a step it can land on; then it never passes a target on the way, rests within 900 updates, and never changes step or generation again |
| Abr.BitrateConverges | examples/moq-loc-abr.c:370-451 | With bitrate adaptation on there always is such a step, and the resting step is the start clamped into the band |
| Abr.MayNeverRest | examples/moq-loc-abr.c:169-177 | With bitrate adaptation off, at stress 0.06 the controller never rests: the hypothesis is needed |
| Svc.Controller.constructor | examples/moq-loc-svc.c:474-492 | Layer counts are clamped, every layer allowed |
| Svc.Controller.Update | examples/moq-loc-svc.c:639-691 | One update of both dimensions; caps stay below the layer counts |
| Svc.Controller.Reconfigure | examples/moq-loc-svc.c:529-548 | Reconfiguring reopens every layer and forgets both holdoffs |
| Svc.TargetLayerMonotone | examples/moq-loc-svc.c:461-472 | No stress targets every layer, full stress only the lowest, and more stress never more layers |
| Svc.TargetRounds | examples/moq-loc-svc.c:461-472 | The target leaves out as many layers as the load rounds to, with the exact point of rounding |
| Svc.DowngradeIsImmediate | examples/moq-loc-svc.c:642-644 | After any update the cap is at most the target; a lower target is taken at once |
| Svc.UpgradeSpacing | examples/moq-loc-svc.c:645-654 | An upgrade comes at least 5 updates after the previous change in its dimension |
| Svc.SettlesInFive | examples/moq-loc-svc.c:639-664 | Under constant stress the cap is the target after 5 updates and stays there |
| Svc.LayerBitrate | examples/moq-loc-svc.c:243-261 | The accumulating loop against each layer's share, with the early exits |
| Svc.LayerSizes | examples/moq-loc-svc.c:158-241 | Size of every layer in whole numbers: the top layer is the full frame, each below it half as wide, down to a quarter |
| Svc.LayersGrow | examples/moq-loc-svc.c:220-261 | A higher layer is no smaller than a lower one, and its share no less |
| Svc.ShareIsProportional | examples/moq-loc-svc.c:256-260 | A share is to the total as the layer's pixels are to all, rounded down |
| Svc.BitrateSplit | examples/moq-loc-svc.c:243-261 | The shares are nonnegative and add up to at most the total and more than the total less the number of layers |
| MoqObjects.ObjectWithinLimits | examples/moq-loc-svc.c:431-451 | An object is within limits if and only if each of its layer ids is, marking before subgroup, limits compared as bytes, negative ones ignored |
| RelayLive.Track.Subscribe | examples/moq-relay.c:945-997 | A subscription is refused for a request id the subscriber uses already, on this track or elsewhere, else listed with the window its filter gives and active unless the track is pending |
| RelayLive.Track.SubscribeAccepted | examples/moq-relay.c:1060-1081 | Every listed subscription becomes active, the track no longer pending |
| RelayLive.Track.PublishAccepted | examples/moq-relay.c:754-785 | An offered subscription becomes active with its own filter; no other changes |
| RelayLive.Track.RequestUpdated | examples/moq-relay.c:1201-1220 | Forwarding is switched for one subscription; no other changes |
| RelayLive.Track.IncomingUnsubscribe | examples/moq-relay.c:1272-1277 | One subscription leaves the list; no other changes |
| RelayLive.Track.IncomingObject | examples/moq-relay.c:1617-1682 | The delivery loop and the removal pass: what is sent, what stays listed and what is cached are the specification's |
| RelayLive.ServeOne | examples/moq-relay.c:1628-1668 | One subscriber's share of a delivery does not depend on the other subscriptions |
| RelayLive.SendRule | examples/moq-relay.c:1630-1666 | An arrival adds exactly one object to what a subscription is sent if and only if it is no fetch, is active and forwarding, the location is in its window and both layer ids are within its limits; every comparison written out |
| RelayLive.DoneRule | examples/moq-relay.c:1637-1646 | It adds exactly one end-of-range notice, and takes the subscription off the list, if and only if the location is past its end and not before its start |
| RelayLive.KeysStayUnique | examples/moq-relay.c:945-961 | No two subscriptions of a track ever have the same id |
| RelayLive.AdmittedAs | examples/moq-relay.c:957-997 | What a request enters in the track's list, for subscriptions, offers (lines 493-497) and fetches |
| RelayLive.LiveDeliveryIsAFilter | examples/moq-relay.c:1617-1682 | Over any run of events, a subscription is sent exactly the arrivals that lie in its window and within its caps while it is active and forwarding, in order, until it closes; then one end-of-range notice if an object past its end closed it; then nothing |
| RelayLive.ForwardInForce | examples/moq-relay.c:1213-1220 | Over any log forwarding is as the last update or acceptance left it |
| RelayLive.ActiveInForce | examples/moq-relay.c:1066-1075 | Over any log a subscription is active once its track or its own offer has been accepted |
| RelayLive.WindowInForce | examples/moq-relay.c:756-784 | Over any log the window is that of the last acceptance |
| RelayLive.LimitsInForce | examples/moq-relay.c:1654-1658 | Over any log the layer limits are those set last |
| RelayLive.PausedGetsNothing | examples/moq-relay.c:1648-1653 | From a pause to the next event that forwards again no object is sent, whatever else happens |
| RelayLive.InactiveGetsNothing | examples/moq-relay.c:1648-1653 | Before it is active no object is sent to a subscription |
| RelayLive.SubscribeThenFeed | examples/moq-relay.c:965-993 | The same from the request on: the feed is the one its own filter defines |
| RelayLive.WindowOf | examples/moq-relay.c:965-993 | What each filter type lets through, in the request's terms; the end group is exclusive, 0 meaning none |
| RelayLive.LargestObjectIsExact | examples/moq-relay.c:968-977 | Over any log the "largest object" filter starts at the largest location that has arrived if and only if the object that arrived last is at least as large as all before it |
| RelayLive.LatestIsNotLargest | examples/moq-relay.c:967-977 | The failing case at work: after objects out of order, one below the largest is delivered |
| RelayFetch.Server.StandaloneFetch | examples/moq-relay.c:1411-1483 | The queue of a standalone fetch and its place in the list; refused for an empty cache or a request id in use by a fetch or a subscription |
| RelayFetch.Server.JoiningFetch | examples/moq-relay.c:1510-1565 | The queue of a joining fetch, absolute or relative; refused unless the subscription it joins is established and the request id is free |
| RelayFetch.Server.FetchCancel | examples/moq-relay.c:1575-1590 | Cancelling takes one fetch off the list |
| RelayFetch.Server.ServeFetch | examples/moq-relay.c:1906-1925 | One fetch's turn: first object sent, end of stream on the last, list entry removed when empty |
| RelayFetch.Server.ServeRound | examples/moq-relay.c:1904-1926 | One pass over a list that shrinks under the loop serves every fetch once |
| RelayFetch.RangeTestIsExact | examples/moq-relay.c:1469-1471 | The range test agrees with the requested half-open range on every location if and only if the request does not end just after object 0 of a group it reaches (there the test takes the whole group) |
| RelayFetch.RangeRule | examples/moq-relay.c:1411-1471 | The relay's range test, written out for every range |
| RelayFetch.JoiningRange | examples/moq-relay.c:1543-1559 | A relative joining fetch gets the groups from that many before the latest on, and none when there are not that many, because the difference wraps |
| RelayFetch.QueueHas | examples/moq-relay.c:1467-1478 | Every cached object that passes the test is queued as often as it is cached, and no other |
| RelayFetch.QueueIsArrivalOrder | examples/moq-relay.c:1467-1478 | The queue is the arrivals, in order, with those that fail the test left out |
| RelayFetch.StandaloneQueueHas | examples/moq-relay.c:1467-1478 | A standalone fetch queues every cached object in its range as often as it is cached, and no other; every comparison written out |
| RelayFetch.StandaloneOrder | examples/moq-relay.c:1467-1481 | Its queue keeps the order of arrival, or has groups falling and objects rising |
| RelayFetch.JoiningQueueHas | examples/moq-relay.c:1543-1560 | A joining fetch queues every cached object from its start on, absolute or counted back from the latest group, as often as it is cached, and no other |
| RelayFetch.JoiningOrder | examples/moq-relay.c:1551-1563 | Its queue keeps the order of arrival, or has groups falling and objects rising |
| RelayFetch.SortSorts | examples/moq-relay.c:514-529 | The descending order is a permutation with groups falling and objects rising |
| RelayFetch.SortIsStable | examples/moq-relay.c:514-529 | Objects of one location keep their order |
| RelayFetch.StableOrderIsUnique | examples/moq-relay.c:1480-1481 | There is only one such order, so any stable sort by the comparison gives it |
| RelayFetch.FetchDeliversItsQueue | examples/moq-relay.c:1896-1928 | Whatever other fetches do, a fetch is sent its queue in order, one object a round, end of stream on the last and only there, until it is through or cancelled; then nothing |
| RelayFetch.FetchDrains | examples/moq-relay.c:1896-1928 | Without cancellation the whole queue is sent, and the fetch gone, after as many rounds as it has objects |
| RelayFetch.QueueIsSent | examples/moq-relay.c:1896-1928 | From request to drain, for any queue: one message an object, in order, the end of the stream on the last and only there |
| RelayFetch.RangeIsDeliveredOnce | examples/moq-relay.c:1461-1483 | From request to drain: every cached object in the range is sent as often as it is cached, no other, in arrival or descending order |
| RelayFetch.JoiningIsDeliveredOnce | examples/moq-relay.c:1541-1565 | From request to drain: a joining fetch is sent every cached object from its start on as often as it is cached, and no other |
| RelayFetch.EndOfStreamIffNotEmpty | examples/moq-relay.c:1907-1924 | A fetch that is left alone is told the end of the stream if and only if some cached object was in its range |
| RelayFetch.EmptyFetchNeverEnds | examples/moq-relay.c:1907-1924 | A fetch of a range that holds no cached object gets nothing, and is gone after a round |
| Namespace.RenderInto | src/imquic-moq.c:243-267 | The bounded print of a field: the text and its terminator when it fits, nothing outside the given room, and a result that tells whether it fitted |
| Namespace.PrintedByte | src/imquic-moq.c:248-259 | Each byte's text, written out: digits, letters and the underscore as they are, the rest as a full stop and two lower-case digits |
| Namespace.PrintedFields | src/imquic-moq.c:276-290 | A namespace's text is that of its fields with hyphens between them |
| Namespace.NamespaceStr | src/imquic-moq.c:269-295 | The printed namespace, or failure exactly when text and terminator do not fit; the byte behind the given size is zeroed exactly when a field is reached with one byte of room left, and nothing further is touched |
| Namespace.OverrunIsTooLong | src/imquic-moq.c:277-283 | That case only arises when the text does not fit anyway |
| Namespace.OverrunInstance | src/imquic-moq.c:277-283 | An instance: a field that fills all but the last byte, and another field |
| Namespace.TrackStr | src/imquic-moq.c:482-495 | The printed track name, or failure exactly when it does not fit |
| Namespace.NamespaceFromStr | src/imquic-moq.c:297-361 | The parser's loops against the parse; a malformed field gives up the whole |
| Namespace.ReadsDigits | src/imquic-moq.c:321-336 | The parser reads hexadecimal digits of either case |
| Namespace.TrackFromStr | src/imquic-moq.c:497-529 | The track name parser |
| Namespace.NamespaceEquals | src/imquic-moq.c:363-381 | Equal if and only if the same fields and not empty |
| Namespace.NamespaceContains | src/imquic-moq.c:383-403 | Contained if and only if the parent's fields are a prefix |
| Namespace.NamespaceRoundTrip | src/imquic-moq.c:269-361 | Printing and parsing gives the namespace back if and only if its first field is not empty (or there is none) |
| Namespace.StrIsInjective | src/imquic-moq.c:269-295 | Different such namespaces have different texts |
| Namespace.SameTextIff | src/imquic-moq.c:269-295 | Any two namespaces have the same text if and only if they are the same after the empty fields they start with |
| Namespace.ContainsOnText | src/imquic-moq.c:383-403 | Containment can be read off the texts: equal, or followed by a separator |
| Namespace.TablesAgree | examples/moq-relay.c:584-602 | After any insertions and removals the table keyed by texts answers every look-up as one keyed by namespaces would |
| Namespace.ReservedNamespace | examples/moq-relay.c:1405-1409 | The reserved-name test, in either letter case, refuses exactly the single field "." |
| Namespace.TrackRoundTrip | src/imquic-moq.c:482-529 | Any byte string survives as a track name, and different names have different texts |

## Left out

- Avcc.PackRewritePack: assumes, like Avcc.PackedKeyframe, that no NAL unit is 2^32 bytes or longer; the length of such a unit is cut to 32 bits, which Avcc.Pack does model.
- H264Depay.StreamUnderLoss: as in H264Depay.WholeIffNothingLost, NAL unit types 1 to 23 with the forbidden bit clear, fewer than 65537 packets an access unit and distinct timestamps are assumed; outside them the receiver rejects units or cannot order packets.
- H264Depay.UnitUnderLoss: does not say that what survives is complete; when leading packets are lost a suffix still comes out.
- Vpx.StreamUnderLoss: assumes fewer than 65537 packets a frame and distinct timestamps, and the same of what survives.
- Abr.Controller.Update: takes the stress as given; the formula that computes it from path metrics is not modelled, nor are the published statistics.
- Svc.Controller.Update: takes the stress as given, like the rate controller.
- Abr.Convergence: does not model rounding of `double`; thresholds are exact reals. The 32-bit generation counter is unbounded.
- AbrLadder.LadderOrder: bitrates and pixel counts are unbounded integers; overflow of `int` above about 1.2 thousand million is not modelled.
- Svc.BitrateSplit: at most 31 layers, where the shift by the layer count is defined; products of width and height are unbounded.
- RtpStats.LossConservation: the 32-bit window counters are unbounded; jitter and delay estimates are left out.
- RelayLive.LiveDeliveryIsAFilter: after the subscription closes, its id is assumed not to be admitted again in the same log; a track that ends, or a connection that drops, ends the log.
- RelayLive.Track.IncomingObject: takes the layer caps as settings of the subscription, changed by events between arrivals; creating a layer controller on first use is such an event.
- RelayLive.Track.Subscribe: whether the subscriber uses the request id elsewhere is an input, as in the two fetches; one track's list and the fetch list are the state.
- RelayFetch.RangeIsDeliveredOnce: without cancellation and reuse of the id; the cache may grow meanwhile, the queue is what was cached at the request.
- RelayFetch.Server.StandaloneFetch: an unknown namespace or a pending track is an empty cache; the library's list sort is any stable sort (RelayFetch.StableOrderIsUnique), so its merge steps are not modelled.
- Namespace.NamespaceStr: an array that ends at the given size is excluded in the one case where the code writes behind it (Namespace.Overruns); every other short buffer is covered.
- Namespace.NamespaceFromStr: fields that decode to more than the 4096 bytes of the parser's buffer are excluded; escapes are two hex digits, while the C library's scan is more lenient on malformed ones. The null result is the empty namespace.
- Namespace.TablesAgree: namespaces whose text exceeds the relay's 256-byte buffers are not modelled.
- Lists, byte arrays and hash tables of GLib are sequences and maps; node addresses, freeing, and the sharing of cached objects between a track and its fetches are not modelled (the fields a send overwrites are set anew before each).
- Each locked region is one atomic step; threads and mutexes are left out.
- Access units and frames above the display's size limit are dropped in the model as in the code; decoder state, keyframe detection, rendering, audio, and FFmpeg, SDL, Opus and V4L2 calls are left out.
- The depacketisers' first call starts from any state; a zeroed state that has "seen" timestamp 0 is one of them.
- Parsing of VP9 and H.264 scalable headers, the spatial SSRC and feedback packets: straight field reads.
- The namespace validity test and duplication, publishers, monitors and announcements, HTTP/3, QUIC connections and buffers.
- Bounds of `uint64_t` on group and object ids, except in the relative joining fetch, where the difference wraps.
