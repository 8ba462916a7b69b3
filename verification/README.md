# Traffic detector service: model and proofs

The detector service in `zen_rtsp` watches cameras, turns detector results into timers, alarms,
clips, counts and protocol frames, and serves them to clients.  This project models its state
machines, buffers and codecs in Dafny and proves what they keep over all inputs and all runs.

Code that changes state is a class or a method over arrays, proved against a function on values;
the whole-run properties are lemmas about those functions.  Threads are modelled as interleavings
of atomic steps, one for each section under a lock or each processed picture.  Clock readings,
detector results, the sort order and the length of deleted prefixes are inputs.

- `PersonArea`, `PersonAreaRuns`: timers of pedestrian areas and the alarm status made from them.
- `EventClips`: the recorder of event clips.
- `Coil`, `CoilStatistics`, `CoilService`: virtual coils, the statistics drained from them, and both
  together over whole runs.
- `RealtimeCounts`: vehicle counts since the last reset.
- `SignalDebounce`: the debounced presence signal.
- `Framing`: byte stuffing of RFC 1055 and of section 4.2 of RFC 1662, and frames.
- `ClientList`, `Subscribers`: the linked list with a cursor and the subscriptions kept in it.
- `FrameRing`, `InOutRing`, `GpuSlots`, `CameraRegistry`: buffers, slots and the camera table.
- `NonMaxSuppression`, `InferSlots`: the Python side.
- `NetConvert`, `PlanConversion`, `WireLayout`: byte order of whole messages, of plans of any number,
  and where the members of each message lie.
- `Modular`: remainders of counters that wrap, shared by two of the above.

## What the code does that its comments and names do not say

Each of these is proved, with the exact condition where there is one.

- A waiting alarm resets the over-limit timer, so an area at its limit can be reported free after
  `overTime` (`PersonAreaRuns.WaitAlarmPostponesOverLimit`).
- The two modes share the remembered status: after a change of mode an alarm that had gone off can
  come back (`PersonAreaRuns.AlarmComesBack`); `PersonAreaRuns.StatusIsExact` says when.
- A clock that goes back makes the recorder close the clip at the front of the queue instead of the
  expired one, and free the wrong node (`EventClips.PassIsExact`, `EventClips.Recorder.FileList`).
- The stay of a vehicle is short by the time between two clock readings of the same picture
  (`Coil.StayIsOccupiedTime`), and a flag 2 out of turn counts a vehicle that never came, with the
  clock itself as its stay (`Coil.SlicesTelescope`).
- The check of a received frame compares the XOR with the closing delimiter and rejects nothing;
  the comparison is of a `char`, which is signed on the target platform (`Framing.Receive`).
- Shutting camera 0 down stops at the first subscriber list (`Subscribers.ShutdownIsComplete`).
- Lapped, or written to after wipes have put its reader out of step, the frame ring delivers out of
  order or waits; otherwise it is a queue (`FrameRing.RefinesQueue`, `FrameRing.OrderIsExact`).
- Closing a camera twice gives away the place of another (`GpuSlots.ExactUnlessMiscounted`).
- Counts of people are kept in a byte, so 256 people are nobody (`PersonAreaRuns.CrowdIsNobody`).
- The limit of fifty cameras is not hard (`CameraRegistry.LimitHolds`).
- A reset of the counts in the middle of a frame is lost for the lanes already visited
  (`RealtimeCounts.ResetAfterTurn`).
- The debounce does not ask for consecutive samples (`SignalDebounce.ValueIsLastFired`); a change is
  debounced just when the counter was at zero before it (`SignalDebounce.ChangeIsDebounced`).
- Plan counts are not checked: above 48 a conversion swaps bytes of the next area's first plan
  (`PlanConversion.Spills`, `PlanConversion.NeighboursStay`), for instance bytes 439 and 440 when
  area 0 claims 49 plans; above 144, in one of the first five areas, it reaches the plan count of the
  third area on, and for all such counts there is a message that does not come back
  (`PlanConversion.LimitIsExact`).
- Which of two boxes of equal score stays can depend on the sort (`NonMaxSuppression.TiesDecide`).

## Model

| member | source | states |
|---|---|---|
| PersonArea.SelectPlan | zen_rtsp/sig_service.c:2597-2614 | The loop picks the plan in force: the started plan with the latest start, the last listed among equals, or an all-zero plan if none has started. |
| PersonArea.PlanInForceIsUnique | zen_rtsp/sig_service.c:2754-2768 | That description has one answer, so the second copy of the loop, in the reporting thread, always agrees with the first. |
| PersonArea.InForceByTheClock | zen_rtsp/sig_service.c:2597-2614 | In minutes of the day: a plan counts from the minute after its start on, and of those that do the one with the latest start is in force, the last listed of several. |
| PersonArea.Area.WatchLine | zen_rtsp/sig_service.c:2623-2651 | The waiting and the line timer after an occupied sample: a crossing stops both; the waiting timer starts with the first person or after `overTime` without a crossing. |
| PersonArea.Area.WatchLimit | zen_rtsp/sig_service.c:2653-2666 | Of the pair of limit timers the one on the side of the sample runs on, the other stops. |
| PersonArea.Area.StartPresence | zen_rtsp/sig_service.c:2668-2675 | An occupied sample starts the presence timer and stops both empty timers. |
| PersonArea.Area.StopPresence | zen_rtsp/sig_service.c:2679-2695 | An empty sample stops the over-limit timer and starts the under-limit and both empty timers. |
| PersonArea.Area.HandleFrame | zen_rtsp/sig_service.c:2616-2699 | The whole frame branch: each of the timers is kept, started or cleared by its own condition on the sample, and the counts are stored in a byte. |
| PersonArea.Area.ReportWaiting | zen_rtsp/sig_service.c:2800-2841 | Waiting mode: the status sent and the new latch, with the waiting alarm looked at first. |
| PersonArea.Area.ReportCrossing | zen_rtsp/sig_service.c:2849-2869 | Crossing mode: the status sent, the timer that fired is cleared, otherwise the last status is repeated. |
| PersonArea.Area.MakeReport | zen_rtsp/sig_service.c:2786-2872 | One report of an area: person status, mode, area status, and what it leaves behind. |
| PersonArea.Camera.HandlePicture | zen_rtsp/sig_service.c:2593-2706 | One picture: every configured area takes its own counts under the plan in force for it, the areas beyond the configured number keep their timers. |
| PersonAreaRuns.TimersTellHistory | zen_rtsp/sig_service.c:2620-2699 | In every interleaving of frames and reports, whatever the modes and plans, each of the seven timers that runs is the time of a sample since which its condition has held in every sample. |
| PersonAreaRuns.OppositeTimersExclude | zen_rtsp/sig_service.c:2653-2695 | In every run the presence and the empty timer are never both running, nor the over-limit and the under-limit timer. |
| PersonAreaRuns.NobodyForLong | zen_rtsp/sig_service.c:2786-2790 | "Nobody for a long time" is sent only if every sample for `noPersonTime` was empty. |
| PersonAreaRuns.CrossingInvariant | zen_rtsp/sig_service.c:2849-2869 | Invariant of every crossing-mode run: the last status sent is the hysteresis of the samples, and each stretch of samples is covered by a running timer or already reported. |
| PersonAreaRuns.CrossingIsHysteresis | zen_rtsp/sig_service.c:2849-2869 | Crossing mode, both directions: the status sent equals an independent definition from the samples alone; it goes on only after `overTime` of occupied samples, off only after `overTime` of empty ones, and neither is ever missed. |
| PersonAreaRuns.WaitingInvariant | zen_rtsp/sig_service.c:2800-2841 | In every waiting-mode run the latch and its type determine the last status sent and whether the waiting timer raised it. |
| PersonAreaRuns.WaitingRise | zen_rtsp/sig_service.c:2803-2827 | Waiting mode: a change to 1 is backed by more than `maxWaitTime` of occupied samples without a crossing, or by `overTime` of samples at the limit in force. |
| PersonAreaRuns.WaitingFall | zen_rtsp/sig_service.c:2812-2840 | A change to 0 comes only right after a waiting alarm or after `overTime` of samples below the limit. |
| PersonAreaRuns.OverLimitInvariant | zen_rtsp/sig_service.c:2818-2841 | Every stretch over the limit without a waiting alarm is covered by the over-limit timer or latched. |
| PersonAreaRuns.OverLimitAlarm | zen_rtsp/sig_service.c:2818-2841 | The over-limit alarm never misses: after `overTime` at the limit without a waiting alarm in between, the status is on. |
| PersonAreaRuns.UnderLimitInvariant | zen_rtsp/sig_service.c:2661-2665 | Every stretch of samples below the limit is covered by the under-limit timer. |
| PersonAreaRuns.UnderLimitRelease | zen_rtsp/sig_service.c:2828-2836 | `overTime` below the limit always ends an over-limit alarm; only the waiting timer can then raise the status. |
| PersonAreaRuns.BeginsIsTracked | zen_rtsp/sig_service.c:2623-2651 | The waiting timer may start at a sample exactly when nobody was there before or nobody has crossed the line for `overTime`. |
| PersonAreaRuns.WaitingExactInvariant | zen_rtsp/sig_service.c:2800-2841 | Invariant of every run, whatever the modes: the waiting and the over-limit timer run exactly from the first sample that counts, and the latch is the cause of the last report in waiting mode. |
| PersonAreaRuns.CrossingExactInvariant | zen_rtsp/sig_service.c:2849-2869 | Invariant of every run, whatever the modes: the presence and the absence timer run exactly from the first sample that no report in crossing mode has taken notice of. |
| PersonAreaRuns.StatusIsExact | zen_rtsp/sig_service.c:2800-2872 | Every run, also one whose mode changes at any report: the status sent is the one that samples and earlier reports give cause for, by a definition that mentions no timer and hands one status on between the modes. |
| PersonAreaRuns.AlarmComesBack | zen_rtsp/sig_service.c:2849-2869 | That hand-over shows: a waiting alarm that had gone off comes back with the first report in crossing mode, though nobody is there. |
| PersonAreaRuns.WaitingIsExact | zen_rtsp/sig_service.c:2800-2841 | Waiting mode alone, both directions: the status sent is on if and only if the samples and the earlier reports give a cause. |
| PersonAreaRuns.PersonStatusIsExact | zen_rtsp/sig_service.c:2786-2798 | In any mode, from the samples alone: 2 if and only if every sample for `noPersonTime` was empty and no report since has said so, otherwise 1 or 0 by whether the byte of the last sample holds anybody. |
| PersonAreaRuns.CrowdIsNobody | zen_rtsp/sig_service.c:2616-2616 | That byte matters: 256 people are reported as nobody, by every report. |
| PersonAreaRuns.CountsTellLastSample | zen_rtsp/sig_service.c:2616-2618 | In every run the three counts kept are those of the last sample modulo 256, each in its own place; reports leave them. |
| PersonAreaRuns.TimersRunExactly | zen_rtsp/sig_service.c:2620-2699 | After a sample, in any run, each timer runs if and only if the sample shows what it is there for, in numbers: people, crossings up and down, and the plan limit. |
| PersonAreaRuns.WaitAlarmPostponesOverLimit | zen_rtsp/sig_service.c:2803-2811 | The condition on waiting alarms is needed: a run in which a waiting alarm resets the over-limit timer and an area at its limit for `overTime` is reported free. |
| EventClips.PassIsExact | zen_rtsp/cam_event.c:396-411 | Popping the queue front for each expired clip met removes the expired clips and keeps the rest in order if and only if every expired clip comes before every other. |
| EventClips.PassClosesOldClips | zen_rtsp/cam_event.c:396-411 | With a clock that never goes back, a pass of any run closes exactly the clips more than five seconds old and keeps the others in order with the new picture at their end. |
| EventClips.ClipsAreContiguous | zen_rtsp/cam_event.c:196-206 | With such a clock every clip of any run, open or closed, is one unbroken stretch of the processed pictures, and an open one reaches the last picture. |
| EventClips.OpenClipContent | zen_rtsp/cam_event.c:354-384 | A clip is open, holding the window of recent pictures at its event and every picture since, as long as no picture is more than five seconds younger. |
| EventClips.ClosedClipContent | zen_rtsp/cam_event.c:402-410 | The first picture more than five seconds younger is the last of the clip, which is then closed for good. |
| EventClips.ClosedStays | zen_rtsp/cam_event.c:402-410 | What was closed is never written again, in any run. |
| EventClips.OneClipPerEvent | zen_rtsp/cam_event.c:203-206 | Whatever the clock, there are as many clips, closed and open, as events in the pictures processed. |
| EventClips.WindowIsSuffix | zen_rtsp/cam_event.c:344-352 | Whatever the clock, the recent queue is the end of the stream from a place computed from the deletions alone. |
| EventClips.ClipsAreExact | zen_rtsp/cam_event.c:196-206 | With a clock that never goes back, closed and open clips are together, in the order of the events, one clip for each event, each with exactly the pictures from its window to the one that closes it; and those closed are exactly those that one does. |
| EventClips.ClockGoingBackClosesWrongClip | zen_rtsp/cam_event.c:402-403 | Without the assumption on the clock a pass closes the wrong clip: a queue and a clock reading where it does. |
| EventClips.WrongClipIsReachable | zen_rtsp/cam_event.c:200-206 | That queue is what two pictures with an event each leave behind. |
| EventClips.Recorder.FrameIn5s | zen_rtsp/cam_event.c:344-352 | The recent queue loses a prefix and takes the picture at its end. |
| EventClips.Recorder.FileList | zen_rtsp/cam_event.c:388-412 | The pass in place, for any queue: it goes wrong exactly when an expired file lies behind one that is not; otherwise every open file got the picture once and exactly the expired ones are closed and off the queue. |
| EventClips.Recorder.EventFile | zen_rtsp/cam_event.c:354-384 | A new file starts with exactly the recent pictures and goes to the end of the queue; with none it is not opened. |
| EventClips.Recorder.Process | zen_rtsp/cam_event.c:196-206 | One picture in the order of the source: recent queue, pass, one new file for each event; it goes wrong exactly when its pass does. |
| EventClips.Recorder.ProcessAll | zen_rtsp/cam_event.c:175-223 | For every list of pictures with a clock that never goes back no pass goes wrong, and the thread refines the run on values. |
| Coil.Record.Update | zen_rtsp/cam_alg.c:243-284 | The machine of one coil: the branch for each flag, in place. |
| Coil.MarksAlternate | zen_rtsp/cam_alg.c:251-274 | Enter and leave marks strictly alternate, starting with enter, if and only if every flag 2 follows a flag 1. |
| Coil.SlicesTelescope | zen_rtsp/cam_alg.c:256-279 | For all flags and clocks: the slices, and what falls between the two clock readings of a slice that goes on, add up to the time on the coil and the clock once for every flag 2 out of turn. |
| Coil.StayIsOccupiedTime | zen_rtsp/cam_alg.c:276-279 | The accumulated stay equals the time on the coil if and only if what is lost equals what flags 2 out of turn add; without such flags, if and only if the clock did not tick between the two readings of any slice that goes on. |
| Coil.OccupancyIsExact | zen_rtsp/cam_alg.c:251-279 | The slices of one occupancy, whatever came before, add up to leave time minus enter time if and only if the clock did not tick between the two readings of any slice of this occupancy that goes on. |
| Coil.LeaveWithoutEnter | zen_rtsp/cam_alg.c:251-259 | The smallest run with a flag 2 out of turn: a leave mark without an enter mark, and the clock itself as the stay. |
| CoilStatistics.Camera.AccumulateCoil | zen_rtsp/cam_alg.c:508-532 | What one picture adds for one coil: its slice, and on a leave mark one pass and exactly one length class. |
| CoilStatistics.Camera.Accumulate | zen_rtsp/cam_alg.c:506-539 | All lanes and coils are staged, each with its own marks. |
| CoilStatistics.Camera.AddItem | zen_rtsp/sig_service.c:212-238 | The first coil of every lane is added to the waiting record, the queue length by maximum, and the staging record is zeroed. |
| CoilStatistics.Camera.GetItem | zen_rtsp/sig_service.c:241-255 | A drain hands out the waiting record and zeroes it if there was data, and otherwise changes nothing. |
| CoilStatistics.Camera.HandlePicture | zen_rtsp/cam_alg.c:498-574 | One picture: every lane moves as the single-lane model says. |
| CoilStatistics.NothingIsLost | zen_rtsp/sig_service.c:212-255 | In every interleaving of pictures and drains, handed out plus waiting equals the leave events and the total stay, hence the time on the coil up to the two terms of `Coil.SlicesTelescope`, and every record handed out has passes equal to the sum of its three length classes. |
| CoilStatistics.EveryLeaveIsTallied | zen_rtsp/cam_alg.c:508-532 | In every interleaving, handed out plus waiting: the three counts are the leaves of vehicles above the upper limit, between the two and at most both, and the sums are those of speed, length and head time over all leaves, by folds over the pictures. |
| CoilStatistics.DrainGivesLongestQueue | zen_rtsp/sig_service.c:227-254 | A drain hands out the longest queue since the drain before it, and hands out nothing exactly when there was no picture since. |
| CoilService.Service.HandlePicture | zen_rtsp/cam_alg.c:239-574 | One picture in the arrays: the machines of all sixteen coils, then the statistics; every lane goes on with its run as the single-lane model says. |
| CoilService.Service.Drain | zen_rtsp/sig_service.c:241-255 | A drain of the arrays is a drain of every lane, and what it hands out is what each model lane has handed out. |
| CoilService.Service.NothingIsLostHere | zen_rtsp/sig_service.c:212-255 | At every moment what was handed out of a lane and what its array slots hold are the vehicles that left it, by length class, with their speeds, lengths and head times, and their time on its first coil, up to the same two terms. |
| Framing.RoundTrip | zen_rtsp/sig_service.c:420-494 | Decoding what was encoded gives the bytes back, whatever byte follows them. |
| Framing.EncodeIsInjective | zen_rtsp/sig_service.c:1615-1641 | Different bodies are escaped differently. |
| Framing.EncodedSize | zen_rtsp/sig_service.c:420-443 | The encoded size is the size plus the number of delimiter and escape bytes. |
| Framing.SlipBytes | zen_rtsp/sig_service.c:420-443 | In numbers, wherever they stand: 0xC0 is sent as DB DC, 0xDB as DB DD, every other byte as it is. |
| Framing.HdlcBytes | zen_rtsp/sig_service.c:1615-1641 | The other protocol: 0x7E is sent as 7D 5E, 0x7D as 7D 5D, every other byte as it is. |
| Framing.SlipReads | zen_rtsp/sig_service.c:473-494 | And what is read: DB DC is 0xC0, DB DD is 0xDB, every other byte, also a stray DB, is itself; a DB at the end is dropped if the byte after the end completes it. |
| Framing.CheckIsParity | zen_rtsp/sig_service.c:259-267 | Each bit of the check byte says whether an odd number of the bytes have it. |
| Framing.EncodeIsWellStuffed | zen_rtsp/sig_service.c:420-443 | Encoded bytes contain escapes only in complete pairs. |
| Framing.NoDelimiterInside | zen_rtsp/sig_service.c:1615-1641 | Such bytes never contain the delimiter. |
| Framing.ReverseRoundTrip | zen_rtsp/sig_service.c:473-494 | Encoding what was decoded gives the wire bytes back if and only if they were well stuffed. |
| Framing.FrameIsSound | zen_rtsp/sig_service.c:726-728 | A frame has its delimiter first and last and nowhere else, and its inside decodes to the body and a byte that makes the XOR zero. |
| Framing.FramesDiffer | zen_rtsp/sig_service.c:1939-1945 | Different bodies give different frames. |
| Framing.EncodeByte | zen_rtsp/sig_service.c:423-442 | One round of the encoder on the whole buffer, with the shift. |
| Framing.EncodeInPlace | zen_rtsp/sig_service.c:420-443 | The shifting loop computes the left-to-right specification and touches nothing else; both protocols run it with their own bytes. |
| Framing.DecodeByte | zen_rtsp/sig_service.c:476-493 | One round of the decoder on the whole buffer; the shift takes the byte after the end along. |
| Framing.DecodeInPlace | zen_rtsp/sig_service.c:473-494 | The shifting loop computes the specification with its one byte of look-ahead and touches nothing else. |
| Framing.XorOf | zen_rtsp/sig_service.c:259-267 | The check is the XOR of the bytes. |
| Framing.BuildFrame | zen_rtsp/sig_service.c:383-389 | Check byte, escapes and delimiters in place give the frame of the body, in either protocol with the bytes of its own. |
| Framing.Receive | zen_rtsp/sig_service.c:760-783 | A buffer is accepted exactly when it has both delimiters, and then holds its decoded inside: the check compares one place too far and rejects nothing, not even a single delimiter. |
| Framing.EncodeRadar | zen_rtsp/sig_service.c:1615-1641 | The encoder of the other protocol: what it writes is what `Framing.HdlcBytes` says, contains no 0x7E and is the encoding of these bytes only. |
| Framing.RoundTripInPlace | zen_rtsp/sig_service.c:558-571 | What was built in place is received as the body and a byte that makes the XOR zero. |
| ClientList.List.AllocTail | zen_rtsp/common.c:588-612 | A zeroed element is appended; links, tail and number stay consistent. |
| ClientList.List.Seek | zen_rtsp/common.c:634-656 | The cursor stands on the first match, or is null, and the match value is returned. |
| ClientList.List.DelTail | zen_rtsp/common.c:671-699 | The last element goes, also when it is the only one. |
| ClientList.List.DelHead | zen_rtsp/common.c:701-725 | The first element goes when there are others. |
| ClientList.List.DelMiddle | zen_rtsp/common.c:729-743 | An inner element is unlinked and the cursor cleared. |
| ClientList.List.DelCur | zen_rtsp/common.c:658-748 | Exactly the element under the cursor goes, wherever it is; with no cursor nothing changes and 1 is returned. |
| ClientList.List.OperateAll | zen_rtsp/common.c:770-777 | The traversal visits every element once, in order. |
| Subscribers.SubscribeLaw | zen_rtsp/client_net.c:640-658 | After a subscription the list holds each socket at most once, and exactly the old sockets and the new one. |
| Subscribers.RemoveLaw | zen_rtsp/client_net.c:318-322 | After a removal exactly the given socket is gone. |
| Subscribers.SubscribedEntries | zen_rtsp/client_net.c:298-309 | The entries themselves: a socket that is there keeps its place and address and takes the camera, a new one comes to the end as it is. |
| Subscribers.RemovedEntries | zen_rtsp/client_net.c:318-322 | A removal leaves all other entries as they are. |
| Subscribers.NeverTwice | zen_rtsp/client_net.c:640-658 | In every run of commands no list ever holds a socket twice, and every entry names the camera whose list it is in. |
| Subscribers.StepLaw | zen_rtsp/client_net.c:311-336 | Who is subscribed to which camera after any command, exactly. |
| Subscribers.ShutdownIsComplete | zen_rtsp/client_net.c:323-333 | Shutting camera 0 down removes a client from every list if and only if it was in at most one. |
| Subscribers.ShutdownOfTwo | zen_rtsp/client_net.c:323-333 | A run in which it was not: a client that subscribed to two cameras and shut camera 0 down is still subscribed to the second. |
| Subscribers.SubscribeOne | zen_rtsp/client_net.c:298-309 | Seek, then correct the camera or append, on the linked list. |
| Subscribers.RemoveOne | zen_rtsp/client_net.c:320-321 | Delete after a seek, on the linked list. |
| Subscribers.Registry.StartRealData | zen_rtsp/client_net.c:640-658 | The subscribing branch on the hundred lists in the heap, which share no node. |
| Subscribers.Registry.ShutDown | zen_rtsp/client_net.c:311-336 | Unsubscribing on the lists in the heap: one list, or the first that has the client. |
| Subscribers.Registry.FindHolder | zen_rtsp/client_net.c:325-332 | The search stops at the first list with a match. |
| FrameRing.YuvList.SetItem | zen_rtsp/camera_service.c:146-171 | Writing a slot, the double step of the loop counter at the end of a round included. |
| FrameRing.YuvList.GetItem | zen_rtsp/camera_service.c:124-144 | Reading succeeds exactly on a valid slot the guard lets through, and delivers that slot. |
| FrameRing.YuvList.ClearItems | zen_rtsp/camera_service.c:173-182 | Clearing invalidates the slots and leaves the indices. |
| FrameRing.YuvList.CloseCamera | zen_rtsp/camera_service.c:65-86 | Closing clears and also resets both indices. |
| FrameRing.GuardNeverRejects | zen_rtsp/camera_service.c:130-130 | In every run the loop-counter guard never rejects a valid slot. |
| FrameRing.DeliversRecent | zen_rtsp/camera_service.c:124-144 | Whatever happened, a frame delivered is one of the last three written. |
| FrameRing.DeliversOnce | zen_rtsp/camera_service.c:130-136 | No write is delivered twice. |
| FrameRing.ThreeWritesSuffice | zen_rtsp/camera_service.c:146-161 | After three writes in a row the next read succeeds. |
| FrameRing.RefinesQueue | zen_rtsp/camera_service.c:124-182 | The ring is a first-in first-out queue all along a run if and only if the writer is never more than three frames ahead and no frame waits while wipes have put the reader out of step, both computed from the events alone; the next frame is then the oldest one waiting. |
| FrameRing.DeliversInOrder | zen_rtsp/camera_service.c:124-182 | In all those runs frames come out in the order in which they went in. |
| FrameRing.OrderIsExact | zen_rtsp/camera_service.c:124-182 | For all runs, lapped or wiped: frames come out in order if and only if no read succeeds while the newest frame has already been delivered. |
| FrameRing.LappedReaderGoesBack | zen_rtsp/camera_service.c:146-161 | Lapped: four writes are delivered as the fourth, then the second. |
| FrameRing.WipedReaderSkips | zen_rtsp/camera_service.c:173-182 | Wiped with one frame waiting: the reader then waits for a full round. |
| InOutRing.Ring.Add | zen_rtsp/sig_service.c:137-158 | A record is refused exactly when fifty are queued, otherwise appended. |
| InOutRing.Ring.Get | zen_rtsp/sig_service.c:161-179 | The oldest record comes out, or nothing when there is none. |
| GpuSlots.Gpus.OpenCamera | zen_rtsp/camera_service.c:688-702 | The first GPU with a place left is taken and returned, or the open fails. |
| GpuSlots.Gpus.CloseCamera | zen_rtsp/camera_service.c:774-778 | The place on the GPU given last is returned. |
| GpuSlots.LoadsAddUp | zen_rtsp/camera_service.c:688-697 | Every open camera is on exactly one GPU, so the loads add up to the open cameras. |
| GpuSlots.FirstFitNeverFails | zen_rtsp/camera_service.c:688-702 | There are as many places as cameras, so a camera that is not open always finds one. |
| GpuSlots.OpenKeepsInv | zen_rtsp/camera_service.c:688-697 | An open keeps the counters exact if and only if the camera was not open, or nothing was left. |
| GpuSlots.CloseKeepsInv | zen_rtsp/camera_service.c:774-778 | A close keeps them exact if and only if the camera was open, or its last GPU is empty. |
| GpuSlots.CountersAreExact | zen_rtsp/camera_service.c:688-702 | In every run in which each camera is opened and closed in turn each of the fifty counters is the number of open cameras on that GPU, and at most two. |
| GpuSlots.ExactUnlessMiscounted | zen_rtsp/camera_service.c:688-778 | For all runs: the counters are exact all along if and only if no command repeats what holds already and still finds a counter to change. |
| GpuSlots.OpenAlwaysSucceeds | zen_rtsp/camera_service.c:699-702 | In such a run no open ever fails. |
| GpuSlots.CloseOfClosedMiscounts | zen_rtsp/camera_service.c:774-776 | Closing a camera that is not open takes the place of another. |
| CameraRegistry.Registry.HandleChange | zen_rtsp/client_net.c:515-600 | Which messages are saved: nothing while the camera is busy, no new camera beyond fifty. |
| CameraRegistry.Registry.SyncObject | zen_rtsp/client_net.c:392-432 | Registering and deleting change the entry, and the count only if the entry changed. |
| CameraRegistry.Registry.HandleSet | zen_rtsp/client_net.c:928-946 | Decide, then save unless told not to. |
| CameraRegistry.Registry.Scan | zen_rtsp/sig_service.c:3433-3442 | The loop with early exit visits the first registered cameras, up to its limit, in order. |
| CameraRegistry.Registry.ScanAll | zen_rtsp/sig_service.c:3433-3442 | With the count right it visits every registered camera exactly once, in increasing order. |
| CameraRegistry.Registry.ScanToStart | zen_rtsp/client_net.c:1123-1139 | At start the first fifty registered cameras are opened. |
| CameraRegistry.EarlyExitIsFull | zen_rtsp/sig_service.c:3433-3442 | Stopping at the count visits what a full scan does if and only if the count is not too small. |
| CameraRegistry.CountIsExact | zen_rtsp/client_net.c:392-432 | After every run of messages the count is the number of registered cameras, and its byte never wraps. |
| CameraRegistry.AnswersAre | zen_rtsp/client_net.c:515-600 | What each answer tells about the message, the table before and the table after: opened, reset, deleted, nothing saved, each if and only if. |
| CameraRegistry.RegisteredIsLast | zen_rtsp/client_net.c:392-432 | After every run a camera is registered if and only if the last message that decided about it carried its settings, or none did and it was before. |
| CameraRegistry.LimitHolds | zen_rtsp/client_net.c:523-529 | The count stays within fifty all along a run if and only if a full table is never told to take a deleted camera whose detector is still up. |
| CameraRegistry.LimitIsNotHard | zen_rtsp/client_net.c:523-529 | A full table takes such a camera, and refuses every other new one. |
| NonMaxSuppression.Suppress | zen_rtsp/ObjectWrapper.py:54-67 | The loop keeps the greedy selection, and it is a suppression: best score first, all pairs at most the threshold, every dropped box too close to a kept one of at least its score. |
| NonMaxSuppression.SuppressAll | zen_rtsp/ObjectWrapper.py:43-71 | Every class of objects is replaced by its own kept boxes, best first. |
| NonMaxSuppression.GreedyIsFair | zen_rtsp/ObjectWrapper.py:56-67 | A box is kept if and only if no kept box before it suppresses it. |
| NonMaxSuppression.FairIsGreedy | zen_rtsp/ObjectWrapper.py:56-67 | No other selection has that property. |
| NonMaxSuppression.PassesIsSymmetric | zen_rtsp/ObjectWrapper.py:59-63 | The test does not depend on which of two boxes comes first. |
| NonMaxSuppression.ProperRatio | zen_rtsp/ObjectWrapper.py:50-64 | For boxes that are not inside out the union is at least 1 and the ratio between 0 and 1, so no box is dropped for want of a number. |
| NonMaxSuppression.PassesCountsPixels | zen_rtsp/ObjectWrapper.py:50-64 | For boxes with pixels for corners the real arithmetic counts pixels: a box passes if and only if at most the fraction `threshold` of the pixels in either box are in both. |
| NonMaxSuppression.GreedyIsSuppression | zen_rtsp/ObjectWrapper.py:53-67 | Greedy selection from any order by falling score has the three properties named for the loop. |
| NonMaxSuppression.AgainKeepsAll | zen_rtsp/ObjectWrapper.py:53-69 | Running it again on the kept boxes, in any order by score, keeps every box. |
| NonMaxSuppression.TiesDecide | zen_rtsp/ObjectWrapper.py:53-67 | How the sort orders equal scores cannot change the result if and only if no two boxes of the same score that are clear of all better boxes kept suppress each other. |
| NonMaxSuppression.TieMatters | zen_rtsp/ObjectWrapper.py:53-67 | Two overlapping boxes of the same score: each order keeps the other one. |
| NonMaxSuppression.SortingDoesNotMatter | zen_rtsp/ObjectWrapper.py:53-53 | So with distinct scores it cannot. |
| InferSlots.Wrapper.Detect | zen_rtsp/ObjectWrapper.py:239-307 | One call: start the current request, wait for the oldest, advance both indices around the ring. |
| InferSlots.NeverClashes | zen_rtsp/ObjectWrapper.py:239-243 | For any number of requests and any run, no request is started again before it was waited for. |
| InferSlots.AnswersInTurn | zen_rtsp/ObjectWrapper.py:240-307 | Call k returns the answer to the frame of call k-n+1, and nothing before there is such a frame. |
| InferSlots.EveryFrameIsAnswered | zen_rtsp/ObjectWrapper.py:301-307 | No frame is lost: n-1 calls later every frame has been answered. |
| NetConvert.FlipUnit | zen_rtsp/client_obj.c:117-136 | A short or an int behind a pointer has its bytes reversed in place, and nothing else changes. |
| NetConvert.ConvertUnits | zen_rtsp/client_obj.c:137-305 | All members of a structure are reversed in place, every other byte stays. |
| NetConvert.ConvertEntry | zen_rtsp/client_obj.c:311-318 | Of an area exactly the two shorts of its first `planTotal` plans are reversed, for any count; those beyond its room lie in later entries. |
| NetConvert.ConvertTimes | zen_rtsp/client_obj.c:306-321 | The same for all areas, one after another, each with the count it then has. |
| NetConvert.NetDecode | zen_rtsp/client_obj.c:109-326 | Any message in place, the plans with any counts; encoding and decoding do the same. |
| NetConvert.ConversionIsInvolution | zen_rtsp/client_obj.c:109-326 | For every layout, also the one whose members depend on its content, converting what was converted recovers it, and nothing else does; the plans within the limit that `PlanConversion.LimitIsExact` shows to be exact for every vector of counts. |
| NetConvert.EveryClassComesBack | zen_rtsp/client_obj.c:109-326 | So it is for each of the fourteen classes of message, with the same exact limit for the plans. |
| NetConvert.ClassSizes | zen_rtsp/client_obj.c:46-106 | The members listed for each class fill exactly the bytes of its structure. |
| WireLayout.PlacesAre | zen_rtsp/client_obj.c:137-305 | For each class with fixed members, each byte of a converted message comes from where the packed structure says, by an independent formula in offsets; so its shorts and ints lie there and nowhere else. |
| WireLayout.EveryByteHasItsPlace | zen_rtsp/client_obj.c:109-326 | The same for the buffer that a conversion leaves, behind the message too. |
| PlanConversion.TimesTwice | zen_rtsp/client_obj.c:306-321 | Converting the plans of all areas twice recovers the message, whatever overlaps, as long as every area with three others behind it claims at most 144. |
| PlanConversion.LimitIsExact | zen_rtsp/client_obj.c:306-321 | That limit is exact for every vector of eight counts: the messages with these counts all come back if and only if every area with a third one behind it claims at most 144. |
| PlanConversion.NeighboursStay | zen_rtsp/client_obj.c:306-321 | For every vector of counts: the conversion leaves all bytes but the shorts of the plans that count, in the room of their own area, if and only if no count is above 48; within the message, if and only if none but the last is. |
| PlanConversion.Spills | zen_rtsp/client_obj.c:311-318 | How it fails, in every message: the first area with a count above 48 swaps the limits of persons and of waiting time in the first plan of the next area, or two bytes behind the message. |
| NetConvert.MeaningIsKept | zen_rtsp/client_obj.c:117-136 | Every member has the same value read lowest byte first before as highest byte first after, and the other way round. |
| NetConvert.PlansAreKept | zen_rtsp/client_obj.c:306-321 | The same for the plans that count, and the rest of each plan and the plans that do not count stay, where every entry with another behind it has room for its plans. |
| NetConvert.PlansAreKeptExactly | zen_rtsp/client_obj.c:306-321 | And only there: for every vector of counts the messages with these counts all keep their plans if and only if none but the last count is above 48. |
| NetConvert.TimesStay | zen_rtsp/client_obj.c:306-321 | Then every byte that is not of a short that counts stays, whether in an entry, or, if the last entry has room too, behind the message. |
| NetConvert.PreparePkt | zen_rtsp/client_obj.c:336-347 | The packet: the converted object behind the head, its type and length in the head, the rest untouched. |
| NetConvert.Reply | zen_rtsp/client_net.c:924-928 | What goes out to a client: converted object, and a head in network order that says number, type and length. |
| NetConvert.PackThenDecode | zen_rtsp/client_obj.c:336-358 | Decoding what was packed recovers the object and what lay behind it in the buffer, for every class; the plans within the limit. |
| RealtimeCounts.Camera.VisitLane | zen_rtsp/cam_alg.c:896-911 | One lane under the lock: the count grows by the difference of totals, in 32 bits, unless a reset is pending. |
| RealtimeCounts.Camera.ResetAll | zen_rtsp/client_net.c:660-664 | A reset zeroes counts and totals and is pending. |
| RealtimeCounts.Camera.EndFrame | zen_rtsp/cam_alg.c:977-983 | The end of a frame ends a pending reset. |
| RealtimeCounts.CountIsGrowth | zen_rtsp/cam_alg.c:896-911 | In every interleaving with resets the count is, modulo 2^32, the growth of the total since the last total seen while a reset was pending. |
| RealtimeCounts.ReportIsGrowth | zen_rtsp/cam_alg.c:896-911 | And what a frame sends is the growth up to its own total, modulo 2^32, or 0 while a reset is pending. |
| RealtimeCounts.ResetBeforeTurn | zen_rtsp/cam_alg.c:896-911 | After a reset that comes before the turn of the lane the count, and what every later frame sends, is the growth since the first frame. |
| RealtimeCounts.FirstAfterReset | zen_rtsp/cam_alg.c:896-911 | That first frame sends 0. |
| RealtimeCounts.ResetAfterTurn | zen_rtsp/cam_alg.c:977-981 | A reset between the turn of the lane and the end of the frame is lost: the count, and what every later frame sends, is the whole total, and the growth since the reset if and only if the total was zero then. |
| SignalDebounce.Area.SendValue | zen_rtsp/cam_alg.c:1265-1299 | One sample in place: value, and whether it must be sent. |
| SignalDebounce.ValueIsLastFired | zen_rtsp/cam_alg.c:1272-1293 | In every run the value is that of the last sample that completed another `last_frames + 1` repeats, not necessarily consecutive. |
| SignalDebounce.ChangeTakes | zen_rtsp/cam_alg.c:1276-1293 | The value changes only to what the last two samples say, and after exactly `last_frames + 2` equal samples less what the repeat counter held when the new value first appeared. |
| SignalDebounce.ChangeIsDebounced | zen_rtsp/cam_alg.c:1276-1293 | So a change is backed by the full `last_frames + 2` equal samples if and only if the repeat counter stood at zero when the new value first appeared. |
| SignalDebounce.SteadySettles | zen_rtsp/cam_alg.c:1280-1293 | `last_frames + 2` equal samples in a row always settle it. |
| SignalDebounce.TwoFramesSuffice | zen_rtsp/cam_alg.c:1276-1286 | A run for every setting in which two samples are enough: repeats of the old value count for the new one. |

## Left out

- PersonArea: the display fields of a report (occupancy, waiting seconds, working status) and the packing and sending of the report; they are read from the timers and change none. The second writer of the person counts, zen_rtsp/cam_alg.c:1069-1073, is switched off in the source.
- PersonArea.Camera.HandlePicture: one clock reading for each area inside the lock, where the code may take several in a row; readings made before the lock (`ms`) are arbitrary.
- PersonAreaRuns.CrossingIsHysteresis: states the plain hysteresis for runs in crossing mode alone; for runs whose mode changes `PersonAreaRuns.StatusIsExact` takes its place.
- PersonAreaRuns.WaitingRise: about runs in waiting mode alone, like WaitingFall and OverLimitAlarm, for the same reason.
- EventClips: the queue type, whose file is not part of this model: it is a plain first-in first-out queue, and its conditional delete removes some prefix given as an input. Video encoding, database rows and upload of events.
- EventClips.Recorder.FileList: what happens after a pass has gone wrong; the code has then freed a node that is still in the queue, and the model stops there.
- Coil.Record.Update: stay times are kept in 32 bits; the model keeps integers.
- CoilStatistics: overflow of the sums, the statistics of the other protocols, and the random values filled in when there are none.
- Framing.Receive: the dispatch on the decoded header. Two further encoders are left out: one whose copy branch reads the wrong buffer and one whose check byte is escaped on its own.
- ClientList.List.DelCur: a cursor left over from an earlier removal, which points at freed memory; every caller in the service seeks first.
- ClientList: the list takes any match function; the model fixes the one the service uses. Freeing of memory, and that an element is visible zeroed between being appended and being filled in.
- Subscribers: closing of sockets; a disconnect reaches the lists through the same removal.
- FrameRing: the picture planes, which are copied whole with the frame number.
- GpuSlots: an open that fails later (in the camera library) keeps its place; the runs here are of the counters alone.
- CameraRegistry: the other classes of settings, and the database they are saved in. The table starts from one whose count is right.
- NonMaxSuppression: rounding of floating-point numbers; coordinates and scores are reals. A class without boxes makes the original fail; its caller never passes one.
- NonMaxSuppression.Suppress: the sort itself; any order by falling score is allowed, ties in any way.
- InferSlots: the network, picture scaling and the decoding of outputs into boxes; a frame stands for its answer. A request that fails.
- NetConvert: members are listed in the order in which they lie in memory, where the code visits some interleaved; they do not overlap, so the order does not matter. The buffer is at least as large as plan counts of 255 can reach, which the buffers of the service are.
- RealtimeCounts: the other fields of the real-time message and the time on a coil in it.
- SignalDebounce: `last_frames` may change with the configuration; the runs are of one setting. The packet around the value.
- The sockets, configuration files, databases, watchdogs, video decoding and the other protocols.
