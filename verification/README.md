# QWSWayland: a verified model

QWSWayland lets applications written for Qt Embedded's window system (QWS) run under a Wayland
compositor. It is a window server in miniature: it keeps one z-ordered window list per client, decides
which part of each window is visible, speaks the QWS wire protocol, and shares semaphores with its
clients. A second program, the trace proxy, sits between a client and a server, forwards every packet
and logs it on the side. This project models the parts of that code that carry state and proves what
they promise.

The parts, and how the model is laid out:

- **Rectangles and blits.** `Rects` holds rectangle lists as sets of points, read half-open
  (`x1 <= x < x2`), with subtraction, translation, clipping and the bounding box. `Blit` holds what is
  copied out of the client's buffer and the debug border.
- **Window stack and visible regions.** `WindowStack` and `Regions` are the values: the order of one
  client's windows, and the walk that gives every window what is left of its request. `Session` is one
  client's whole state under one dispatched command, `CommandEffects` what a command does to each window,
  to the order, in events and on the lock, with the numbers on the wire, `SessionRuns` what all runs of
  commands keep, `ClientPicture` when the client knows what is shown.
  `Dispatcher` is the same in the source's own form: a map, a list of window objects edited in place and
  a loop that grows the blocking list, each method proved equal to the value-level step. `Reorder` is the
  replay that forces the compositor's order to match the list.
- **Wire codec and trace proxy.** `Codec` is the format and the splitting of a byte
  stream, for any table of fixed-part lengths and so for both of the protocol's; `Reader` the
  incremental reader with its buffers, and the serialiser; `TraceQueue` the linked queue; `Streams`
  what a whole stream in arbitrary chunks comes to, `DropMask` how a list of names becomes the drop mask,
  `TraceProxy` the loops over one read and over all reads of a direction; `Tracer` the four threads as a step
  system, `TracerMain` its main thread read off the runs.
- **Locks.** `QwsLock` and `QwsLockSystem` are the nesting three-semaphore lock; `SysVLock` and
  `PosixLock` the two forms of the display reader-writer lock, one semaphore call at a time; `PosixCalls` is
  the list of calls each process makes in such a run. `Counting`
  counts processes, `Sequences` holds shared facts about sequences.
- **Properties.** `PropertyStore` is the packed-key store, `PropertyBroadcast` the notifications.

A blocking call is a step that is not enabled. The window stack, the handles, the property store and
the queue are classes with `modifies` clauses; what they keep over runs is proved about the values their
methods are tied to.

## Where the code and its own words disagree

The model follows the code.

- `libqwsproto/README.md:75-77` says a writer waiting on `rsem` is unblocked only when all readers have
  left. A reader whose `sem_trywait(rsem)` fails because a *writer* owns `rsem` goes in all the same
  (`libqwsproto/qws_lock.c:483`). `PosixLock.ExclusionCanFail` gives the run with two processes,
  `PosixLock.TrywaitAdmitsCollisionIff` says exactly which trywait opens the door, and
  `PosixLock.CleanRunExcludes` proves exclusion for all runs without one.
- The comment at `proxy/client.c:110-115` promises an on-top zone in front of a normal zone.
  `qwswl_stack_lower_window` ignores `on_top`. `WindowStack.LowerKeepsZonesIff` says when that breaks the
  zones; `SessionRuns.RunKeepsZones` is the form that holds in every run.
- `proxy/proxy.c:459-466` changes an opacity without running the walk. `SessionRuns.SetOpacityLeavesExactIff`
  says exactly when that leaves visible areas stale, `SessionRuns.SetOpacityCanGoStale` gives a run.
- `proxy/window.c:519-520` counts `x2` and `y2` as inclusive, while `libqwsproto/qws_rect.c:114` hands the
  same rectangles to a half-open library. All area claims are half-open; the blit claims, which follow
  `proxy/window.c`, are inclusive. `Blit.CopyIsIntersectionIff` says when clipping copies the intersection
  and when it copies an edge that was not asked for.
- `libqwsproto/qws_rect.h:47-52` promises a YX-sorted list, and no list at all for an empty result. With an
  empty B the source returns a copy of A, in A's order and with A's empty rectangles
  (`libqwsproto/qws_rect.c:109-112`). `Rects.SubtractIsCanonicalIff` gives the exact conditions.
- `libqwsproto/qws_proto.c:204-207` adds `raw_len` into a `size_t`, so a negative one wraps. The proxy then
  forwards nothing for the packet, or too little (`trace_proxy/trace_proxy.c:166-175`), while it goes on
  tracing it: a zero drop mask is transparent exactly for streams without one
  (`Streams.ZeroMaskIsTransparentIff`).
- A destroyed window is forgotten without an event (`proxy/proxy.c:392-402`). If the client uses the id
  again, the new window shows nothing, the walk says nothing about it, and the client still holds the old
  rects: `ClientPicture.ReusedIdGoesStale`, and `ClientPicture.DispatchKeepsInformedIff` for exactly when.
- `event_for_requesting_win_sent` is never initialised (`proxy/client.c:296`). The model starts it with an
  arbitrary value; the branch that reads it is proved dead.

## Model

| member | source | states |
|---|---|---|
| `Rects.SubtractArea` | libqwsproto/qws_rect.c:101-141 | the points of A minus B are exactly those in A and not in B |
| `Rects.SubtractIsCanonicalIff` | libqwsproto/qws_rect.c:101-141 | the header's further promises, each with its exact condition: YX-sorted exactly when B is not empty or A is sorted, no empty rectangle exactly when B is not empty or A has none, and empty-when-covered exactly when B is not empty, or A is the empty list or has area |
| `Rects.TranslatedArea` | libqwsproto/qws_rect.c:12-20 | a translated list covers exactly the translated points |
| `Rects.ClippedArea` | libqwsproto/qws_rect.c:78-99 | half-open, clipping to (w, h) is intersection with the box from the origin |
| `Rects.Translate` | libqwsproto/qws_rect.c:12-20 | the in-place loop computes the translated list |
| `Rects.Clip` | libqwsproto/qws_rect.c:78-99 | the in-place loop computes the clipped list |
| `Rects.BoundingBox` | libqwsproto/qws_rect.c:22-39 | the box encloses every rectangle and each of its sides is one of theirs |
| `Blit.CopyStaysInside` | proxy/window.c:636-706 | whatever the request, the copied box lies in the buffer; a normalised request copies at least a pixel |
| `Blit.CopyIsIntersectionIff` | proxy/window.c:636-706 | the copied pixels are request and buffer intersected exactly when the request touches the buffer |
| `Blit.OwnRequestIsWhole` | proxy/window.c:515-520 | a window whose buffer is the bounding box of its request copies every normalised rectangle of that request whole |
| `Blit.CopyBoxes` | proxy/window.c:636-706 | the translate-and-clip of a whole list yields one such box per rectangle |
| `Blit.IndexInBuffer` | proxy/window.c:585-595 | a pixel of the buffer has a linear index inside it |
| `Blit.IndexIsInjective` | proxy/window.c:585-595 | two pixels never share an index |
| `Blit.DrawDebugBorder` | proxy/window.c:574-597 | exactly the pixels within min(2, w/2, h/2) of the edge take the colour, all others keep theirs |
| `WindowStack.RestackMovesOnlyIts` | proxy/client.c:186-218 | raise and lower permute the stack and leave all other windows in their order |
| `WindowStack.RestackKeepsIds` | proxy/client.c:186-218 | ids stay distinct and the same |
| `WindowStack.ChangeAltitudeZones` | proxy/proxy.c:427-434 | an altitude command keeps the zones, not counting windows it lowers |
| `WindowStack.PushZones` | proxy/client.c:116-126 | a new normal window goes in behind the on-top zone |
| `WindowStack.LowerKeepsZonesIff` | proxy/client.c:210-218 | lowering keeps the plain zones exactly when the window is normal or there is no normal window |
| `Regions.BlockingArea` | proxy/client.c:346-356 | on screen, the reduced visible rects collected so far cover exactly the full requests of the opaque windows above |
| `Regions.WalkMakesAreasExact` | proxy/client.c:298-357 | after one walk each visible area is request and screen minus the opaque requests above |
| `Regions.OpaqueAreasPartition` | proxy/client.c:298-357 | with all windows opaque, visible areas are disjoint and cover what is requested on screen |
| `Regions.EventsAreExact` | proxy/client.c:328-343 | one event for the requester, one for each other changed window, none elsewhere |
| `Regions.SecondWalkIsSilent` | proxy/client.c:328-343 | a second walk without requester emits nothing |
| `Regions.SetOpacityKeepsAreasIff` | proxy/window.c:924-955 | an opacity change keeps the areas exact exactly when opaque stays opaque (or not) or no point depends on it |
| `Regions.WalkInforms` | proxy/client.c:328-343 | a walk makes the list heard last for every window its visible list, the requester's whatever it was before |
| `Regions.PushSparesOnTop` | proxy/client.c:116-126 | allocating a window changes no on-top allocation, so the next walk sends on-top windows nothing |
| `Regions.RaiseSparesOnTop` | proxy/client.c:186-206 | the same for raising a normal window |
| `Regions.UpToDateIsExact` | proxy/client.c:298-357 | a stack on which a walk would change nothing has exact areas |
| `Session.WalkMovesOn` | proxy/client.c:298-357 | from where the walk stands at a position, one visit and its addition to the blocking list lead to where it stands at the next |
| `Session.WalkEnds` | proxy/client.c:298-357 | at the end of the stack the visits have made the whole walk: every allocation, every event in order, one post each |
| `Session.DispatchKeepsIds` | proxy/proxy.c:164-587 | every command keeps each window once |
| `CommandEffects.WindowAfter` | proxy/proxy.c:233-466 | a window is listed after a command exactly when it was or the command named it, and the command did not destroy it; what is listed is what was, edited if the command named it |
| `CommandEffects.FieldsAfter` | proxy/proxy.c:233-466 | field by field: only the fixed altitude 1 puts a window on top, the opacity is the last set, a region replaces the request of listed and new windows, and after a move by (dx, dy) the request covers p exactly when it covered (p.x - dx, p.y - dy) |
| `CommandEffects.AltitudeAfter` | proxy/proxy.c:427-434 | altitude -1 puts the window last; 0 and 1 put it first if it is on top, else in front of every other normal window behind the leading on-top ones |
| `CommandEffects.PlaceAfter` | proxy/client.c:116-142 | a command that is neither a destroy nor a legal altitude leaves a listed window where it is and puts a new one in front of every other normal window |
| `CommandEffects.OthersKeepOrder` | proxy/client.c:116-218 | every command leaves all windows but its own in their order |
| `CommandEffects.WalksIff` | proxy/proxy.c:233-466 | exactly which commands run the walk: a hide, a region with a good key, a repaint, a destroy, a legal altitude, and a move of a window that has a request |
| `CommandEffects.EventsAfter` | proxy/client.c:328-343 | the events of a command: in stack order with the visible lists of the stack it leaves, one for the window of a region or altitude command, one for each other window that shows something else than before, none without a walk |
| `CommandEffects.OpsAfter` | proxy/proxy.c:113-587 | every semaphore operation of a command in order: wait and post of 0 around a blit, before the walk for a region and a move and after it for a repaint; a post of 2 for each event; a post of 1 for a region, repaint, move or altitude |
| `SessionRuns.DispatchKeepsAreas` | proxy/proxy.c:233-449 | a command that walks makes all areas exact whatever was stale; every other one but SetOpacity keeps them exact |
| `SessionRuns.SetOpacityLeavesExactIff` | proxy/proxy.c:459-466 | exactly when SetOpacity leaves all areas exact |
| `SessionRuns.SetOpacityCanGoStale` | proxy/proxy.c:459-466 | a run after which SetOpacity leaves them stale |
| `ClientPicture.DispatchKeepsInformedIff` | proxy/proxy.c:233-466 | from a state in which the list the client heard last for each window is its visible list, hiding and opacity changes included, a command leads to such a state exactly when its window was listed, or the client has no rects for the id, or the window is destroyed, or the walk reports it by force |
| `SessionRuns.RunKeepsZones` | proxy/proxy.c:427-434 | over every run, on-top windows not last lowered precede all normal ones, each window once |
| `ClientPicture.RunKeepsInformedIff` | proxy/client.c:328-343 | a run keeps the client informed after every command exactly when every command meets that condition |
| `ClientPicture.IdsUsedOnceStayInformed` | proxy/client.c:328-343 | so does every run that names no window after destroying it |
| `ClientPicture.ReusedIdGoesStale` | proxy/client.c:130-142 | a run that reuses an id and leaves the client with the rects of the destroyed window |
| `SessionRuns.RunKeepsAreas` | proxy/client.c:298-357 | over every run without SetOpacity all areas are exact and another walk would be silent |
| `SessionRuns.RunAcknowledges` | proxy/proxy.c:580-587 | over every run: posts of semaphore 2 = region events sent, posts of semaphore 1 = region, repaint, move and altitude commands |
| `Dispatcher.Window.UpdateGeometry` | proxy/window.c:484-548 | the request replaced, the geometry its bounding box, nothing else of the window |
| `Dispatcher.Window.FramedIsCopiedWhole` | proxy/window.c:515-520 | after which each normalised rectangle of the request is copied whole |
| `Dispatcher.Window.MoveBy` | proxy/window.c:550-572 | no request: refused; otherwise translated in place |
| `Dispatcher.Window.Hide` | proxy/window.c:898-922 | request and visible list emptied, silently |
| `Dispatcher.SubtractBlocking` | proxy/client.c:305-321 | the loop over a window's rectangles computes the request minus the blocking list |
| `Dispatcher.Allocate` | proxy/client.c:301-324 | with the clip it computes the allocation |
| `Dispatcher.Client.PushWindow` | proxy/client.c:116-126 | the insertion loop puts a window at the zone boundary |
| `Dispatcher.Client.FindOrAllocateWindow` | proxy/client.c:130-142 | map and list stay in agreement; a new id is allocated and pushed |
| `Dispatcher.Client.RemoveWindow` | proxy/client.c:151-167 | the window leaves map and list |
| `Dispatcher.Client.RaiseInStack` | proxy/client.c:186-206 | the erase and insert loops compute the raised stack |
| `Dispatcher.Client.LowerInStack` | proxy/client.c:210-218 | the erase loop and push compute the lowered stack |
| `Dispatcher.Client.SendRegionEvent` | proxy/proxy.c:113-120 | one event out and one REGIONEVENT post |
| `Dispatcher.Client.VisitWindow` | proxy/client.c:298-356 | one round of the walk is one visit |
| `Dispatcher.Client.UpdateRegions` | proxy/client.c:289-361 | the loop computes the walk, whatever the uninitialised flag held |
| `Dispatcher.Client.HandleRegion` | proxy/proxy.c:233-299 | the region command: hide, show, or bad key |
| `Dispatcher.Client.HandleRepaint` | proxy/proxy.c:335-353 | the repaint command |
| `Dispatcher.Client.HandleMove` | proxy/proxy.c:355-390 | the move command, with its early exit |
| `Dispatcher.Client.HandleDestroy` | proxy/proxy.c:392-402 | the destroy command |
| `Dispatcher.Client.HandleChangeAltitude` | proxy/proxy.c:404-449 | the altitude command, illegal altitudes refused |
| `Dispatcher.Client.HandleSetOpacity` | proxy/proxy.c:459-466 | the opacity command |
| `Dispatcher.Client.Dispatch` | proxy/proxy.c:164-587 | a dispatched command is exactly the value-level step, acknowledgement included |
| `Reorder.PlaceNext` | proxy/client.c:249-253 | placing one more child above the last keeps those placed and everybody's order |
| `Reorder.RaiseNext` | proxy/client.c:270-271 | raising one more toplevel keeps those raised and everybody's order |
| `Reorder.CollectChildren` | proxy/client.c:237-245 | the surfaces collected are those at increasing places of the stack, which are exactly the places of entries whose parent is the given one and that are subsurfaces |
| `Reorder.ReorderSubsurfaces` | proxy/client.c:233-254 | from any order, the surfaces of exactly those entries end up just above the parent in reverse stack order and nowhere else; every other surface is still there and keeps its order |
| `Reorder.CollectToplevels` | proxy/client.c:260-268 | the same collection of exactly the entries with a shell surface |
| `Reorder.ReorderToplevels` | proxy/client.c:260-272 | from any order, the surfaces of exactly those entries end up topmost in stack order and nowhere else, every other surface below in its order |
| `Codec.Int32RoundTrip` | libqwsproto/qws_proto.c:217-223 | four bytes and a header number determine each other |
| `Codec.WireLayout` | libqwsproto/qws_proto.c:209-237 | byte by byte: type and raw length in four bytes each, the lowest first, in two's complement, then the fixed part, then the variable part |
| `Codec.DissectorAgreesOnCommands` | libqwsproto/qws_proto.c:129-195 | the sizes of the command structs are the dissector's, for every type |
| `Codec.DissectorAgreesOnEvents` | libqwsproto/qws_proto.c:80-127 | the same for events |
| `Codec.SplitConcat` | libqwsproto/qws_proto.c:264-373 | reading on from what is left equals reading everything at once |
| `Codec.SerializeParsed` | libqwsproto/qws_proto.c:209-237 | serialising a parsed packet gives its bytes back; a buffer of its wire size takes them all exactly when the raw length is not negative |
| `Codec.SentIs` | libqwsproto/qws_proto.c:204-237 | what a buffer of the wire size takes of a packet from the reader: everything, or for a negative raw length that many bytes less than header and fixed part, or nothing |
| `Codec.ParsedIsWellFormed` | libqwsproto/qws_proto.c:204-207 | a parsed packet has matching buffers; its wire size, a wrapping 64-bit sum, is its length exactly when the raw length is not negative |
| `Codec.ParseSerialized` | libqwsproto/qws_proto.c:209-237 | parsing a serialised well-formed packet gives it back |
| `Codec.SplitKeepsBytes` | libqwsproto/qws_proto.c:264-373 | the bytes of all packets and then the partial bytes are the stream |
| `Codec.SplitIsTransparentIff` | libqwsproto/qws_proto.c:204-237 | what is written out for the packets and then the partial bytes are the stream exactly when no raw length is negative |
| `Codec.RoundTrip` | libqwsproto/qws_proto.c:80-237 | any well-formed packets come back exactly, nothing left over |
| `Codec.FeedIsStep` | libqwsproto/qws_proto.c:264-373 | one call consumes input, ends between or inside packets, and is a step of the split |
| `Codec.ChunksDoNotMatter` | proxy/proxy.c:47-62 | any cut into chunks gives the packets and final state of one feed |
| `Codec.RoundTripInChunks` | libqwsproto/qws_proto.c:209-373 | serialised packets fed in any chunks come back exactly and leave the reader in its initial state |
| `Reader.PacketReader.constructor` | libqwsproto/qws_proto.c:246-253 | a fresh reader of commands has the dissector's length for every command type, one of events that for every event type |
| `Reader.ReadConnection` | proxy/proxy.c:47-62 | a fresh reader of either direction, driven over any cut of the bytes of packets as the dissector describes them, gives exactly those packets and keeps nothing |
| `Reader.PacketReader.Reset` | libqwsproto/qws_proto.c:255-262 | back to the header state with nothing kept, direction preserved |
| `Reader.PacketReader.FeedHeader` | libqwsproto/qws_proto.c:275-311 | the header state appends what it takes and moves on to the right state |
| `Reader.PacketReader.FeedSimple` | libqwsproto/qws_proto.c:313-334 | the fixed part likewise |
| `Reader.PacketReader.FeedRaw` | libqwsproto/qws_proto.c:336-347 | the variable part likewise |
| `Reader.PacketReader.KeptIsPartial` | libqwsproto/qws_proto.c:264-373 | what is kept is a whole packet exactly in the state DONE |
| `Reader.PacketReader.Feed` | libqwsproto/qws_proto.c:264-373 | one call consumes, returns and keeps exactly what the split says; DONE does not survive it |
| `Reader.Drive` | proxy/proxy.c:47-62 | the loop over one read ends and dispatches exactly the split's packets; its exit on no progress is dead |
| `Reader.Serialize` | libqwsproto/qws_proto.c:209-237 | the packet's bytes at the front of the buffer, or nothing written when the wire size is larger |
| `TraceQueue.Queue.HeadIffTail` | trace_proxy/trace_proxy.c:92-99 | head is null exactly when tail is, exactly when the queue is empty |
| `TraceQueue.Queue.Enqueue` | trace_proxy/trace_proxy.c:77-100 | one item appended |
| `TraceQueue.Queue.Dequeue` | trace_proxy/trace_proxy.c:110-117 | the first item removed |
| `Streams.HalvesAreApart` | libqwsproto/qws_trace.h:66-67 | a drop mask below 2^32 drops no event, one with a zero lower half no command |
| `Streams.PassedAt` | trace_proxy/trace_proxy.c:158-166 | the packets that go on are those at increasing places of the stream, exactly the places of packets that are not dropped |
| `Streams.TracedAt` | trace_proxy/trace_proxy.c:158-180 | the tracer's i-th item is the i-th packet, with its session, direction and dropped flag |
| `DropMask.AddToken` | libqwsproto/qws_trace.c:53-75 | one element of a drop list adds exactly the types it names, in the direction of its prefix or in both; unknown exactly when it names none |
| `DropMask.ParseFilterMask` | libqwsproto/qws_trace.c:46-100 | a list is refused exactly when an element names no type; otherwise, from an empty mask, the mask drops a type of a direction exactly when some element names it |
| `DropMask.MouseEventsOnly` | libqwsproto/qws_trace.h:66-67 | the mask 0x4_0000_0000 drops events of type 2 and nothing else |
| `Streams.ForwardsWhatIsNotDropped` | trace_proxy/trace_proxy.c:143-182 | however a stream is cut, what goes out is what is sent for exactly the packets at the places the mask does not drop, in order, and for all events when the mask has no upper half, all commands when it has no lower half; it is their serialisation exactly when none of them has a negative raw length |
| `Streams.ZeroMaskIsTransparentIff` | trace_proxy/trace_proxy.c:143-182 | with nothing masked, output plus kept bytes are the input exactly when no packet has a negative raw length; then the output is a prefix of the input |
| `Streams.PeerReadsWhatPassedIff` | trace_proxy/trace_proxy.c:143-182 | the peer parses exactly the packets let through exactly when none of them has a negative raw length |
| `Streams.ReadIsPartOfStream` | trace_proxy/trace_proxy.c:223-262 | what holds of all packets of a stream for the serialiser holds of those each read completes |
| `TraceProxy.Forward` | trace_proxy/trace_proxy.c:166-175 | a packet's wire size of bytes reaches the peer, or nothing when no buffer of that size can be had |
| `TraceProxy.Handle` | trace_proxy/trace_proxy.c:158-180 | one packet: forwarded unless masked, traced in any case |
| `TraceProxy.FeedAndEnqueue` | trace_proxy/trace_proxy.c:143-182 | one read: all packets queued with their flag; unless a write failed, the unmasked ones forwarded |
| `TraceProxy.Relay` | trace_proxy/trace_proxy.c:223-262 | all reads of a direction: the items of the whole stream queued, and unless a write failed the peer has what the stream forwards |
| `Tracer.StepKeepsInv` | trace_proxy/trace_proxy.c:77-132 | what every step of every thread keeps |
| `Tracer.TracingIsFifo` | trace_proxy/trace_proxy.c:77-132 | every interleaving: logged, taken and queued are everything enqueued in order; the log of each session and direction is a prefix of the items of the bytes read in it |
| `Tracer.NothingIsLostAtExit` | trace_proxy/trace_proxy.c:491-500 | when the tracer exits the queue is empty and the log of each session and direction is exactly the items of its bytes: every packet they complete, in order, with its dropped flag |
| `Tracer.JoinComes` | trace_proxy/trace_proxy.c:491-500 | once main waits, only the tracer can move, each move shrinks its backlog, and it exits when none is left |
| `TracerMain.MainFollowsTheSource` | trace_proxy/trace_proxy.c:449-500 | every interleaving: since its last accept the main thread has made a beginning of one turn of its loop; back at the accept exactly after a whole turn for a client, with a session exactly when both threads were started; finished exactly after the turn of a failed accept, with the old session joined, the sentinel sent and the tracer joined |
| `TracerMain.OnlyJoinsBlock` | trace_proxy/trace_proxy.c:449-500 | the main thread is held up only by a thread it joins that has not exited |
| `TracerMain.AttemptsAreNumbered` | trace_proxy/trace_proxy.c:467-483 | over every run the session number is the number of attempts to connect upstream, failed ones included |
| `TracerMain.ThreadsReadTheirDirection` | trace_proxy/trace_proxy.c:223-262 | while the second thread is still to be started only commands are read, after the join of the first only events |
| `TracerMain.ProtocolIsLogged` | trace_proxy/trace_proxy.c:491-500 | with the protocol's tables: at the tracer's exit the log of a session and direction is the items of the packets its bytes split into by the lengths of that direction |
| `QwsLock.Lock.Acquire` | libqwsproto/qws_lock.c:302-334 | nested calls only count, an outermost one waits once, a bad index changes nothing |
| `QwsLock.Lock.Release` | libqwsproto/qws_lock.c:336-363 | the same for unlock |
| `QwsLock.UnlockPosts` | libqwsproto/qws_lock.c:336-363 | an unlock is absorbed exactly when the handle holds the semaphore more than once |
| `QwsLock.OnlyOutermostTouches` | libqwsproto/qws_lock.c:302-363 | at any nesting depth only the outermost lock and unlock reach the semaphore |
| `QwsLock.RegionEventsNeverNest` | libqwsproto/qws_lock.c:302-363 | every lock and unlock of semaphore 2 reaches it, and nothing is counted |
| `QwsLockSystem.StepKeepsInvIff` | libqwsproto/qws_lock.c:302-363 | value + holders = 1 survives a call exactly when it does not unlock what is not held |
| `QwsLockSystem.RunIsExclusive` | libqwsproto/qws_lock.c:302-363 | over every balanced run of any handles at most one holds it |
| `QwsLockSystem.FreshLockInv` | libqwsproto/qws_lock.c:107 | the created lock satisfies the law |
| `SysVLock.StepKeepsInvIff` | libqwsproto/qws_lock.c:463-502 | value + readers + 200 writers = 200 survives a call exactly when it is disciplined |
| `SysVLock.InvExcludes` | libqwsproto/qws_lock.c:463-467 | a writer is alone, at most 200 readers are in |
| `SysVLock.RefinesReaderWriterLock` | libqwsproto/qws_lock.c:463-502 | a disciplined call passes exactly when the abstract reader-writer lock allows it, and the two stay in step |
| `SysVLock.ReachableStates` | libqwsproto/qws_lock.c:110 | the law and the exact enabling conditions in every reachable state |
| `PosixLock.StepConserves` | libqwsproto/qws_lock.c:469-520 | wsem + processes in a wsem section = 1 and c + readers counted in = 200, over each semaphore call |
| `PosixCalls.StepIsItsEvent` | libqwsproto/qws_lock.c:463-520 | a step is one semaphore call: it changes the three semaphores as the call says and no other process, a trywait fails only on an empty semaphore, a getvalue returns the value there is |
| `PosixCalls.OnlyWaitsBlock` | libqwsproto/qws_lock.c:463-520 | a process is held up exactly when its next call is a wait for a semaphore that is 0 |
| `PosixCalls.CallsFollowTheSource` | libqwsproto/qws_lock.c:463-520 | over every run of any number of processes: the calls a process made since it entered are a beginning of the source's list for a writer or a reader; it is out exactly when the list is complete, and holds the lock exactly when it has made the calls of the lock and none of the unlock |
| `PosixCalls.WriteRoundTrip` | libqwsproto/qws_lock.c:474-510 | a write lock and its unlock, undisturbed, end after four calls in the state they began in |
| `PosixCalls.ReadRoundTripIff` | libqwsproto/qws_lock.c:480-519 | a read lock and its unlock, undisturbed, end after eight calls, nine for the last reader, in the state they began in exactly when the gate is open and nobody reads, or closed and somebody does |
| `PosixLock.NeverTwoWriters` | libqwsproto/qws_lock.c:474-520 | every interleaving of any number of processes: both laws, and a writer is alone in the wsem section |
| `PosixLock.StarvedForever` | libqwsproto/qws_lock.c:483-492 | a reader waiting for c with wsem in hand waits forever |
| `PosixLock.StarvesIffTooMany` | libqwsproto/qws_lock.c:110 | that can happen exactly with more than 200 processes |
| `PosixLock.NeverWedged` | libqwsproto/qws_lock.c:474-520 | with at most 200 processes, in every run some process that is in a call can make its next semaphore call |
| `PosixLock.WedgesIffTooMany` | libqwsproto/qws_lock.c:110 | the lock can reach a state in which nobody in a call can go on exactly with more than 200 processes |
| `PosixLock.StepKeepsGateIff` | libqwsproto/qws_lock.c:483 | a step keeps "rsem free, one writer's or the readers'" exactly when it is not a trywait under a writer owning rsem |
| `PosixLock.CleanRunExcludes` | libqwsproto/qws_lock.c:474-520 | in every run without such a trywait rsem is binary and readers and writers exclude each other |
| `PosixLock.TrywaitAdmitsCollisionIff` | libqwsproto/qws_lock.c:483 | a trywait lets a reader and a writer in together later on exactly when a writer owns rsem then |
| `PosixLock.ExclusionCanFail` | libqwsproto/qws_lock.c:483 | a run of two processes that ends with a reader and a writer in |
| `PropertyStore.PropKeyIsInjective` | proxy/property_store.h:27 | pairs share a key only when equal, negative ids included |
| `PropertyStore.Store.Add` | proxy/property_store.c:29-34 | an absent property becomes empty, a present one keeps its value |
| `PropertyStore.Store.Set` | proxy/property_store.c:53-108 | v, v + old or old + v; an absent key or unknown mode changes nothing |
| `PropertyStore.Store.Remove` | proxy/property_store.c:110-114 | the property goes; says whether it was there |
| `PropertyStore.Store.Get` | proxy/property_store.c:116-128 | the stored bytes, or null and -1 |
| `PropertyBroadcast.BytesAfter` | proxy/property_store.c:29-108 | the bytes of a property after a command: empty when new; mode 0 the new ones, 1 the new before the old, 2 the old before the new; otherwise as they were |
| `PropertyBroadcast.BytesSurvive` | proxy/property_store.c:29-34 | over every run of commands that neither set nor remove a property it keeps its bytes, further adds included |
| `PropertyBroadcast.SubscriptionsFollowHistory` | proxy/client.c:39-54 | over every run: subscribed is last added by that client, existing is last added by anyone |
| `PropertyBroadcast.BroadcastReachesSubscribers` | proxy/proxy.c:474-507 | after any run the next broadcast reaches exactly the clients subscribed by then |
| `PropertyBroadcast.Proxy.BroadcastNotice` | proxy/proxy.c:98-111 | the loop over all clients tells exactly the subscribed ones |
| `PropertyBroadcast.Proxy.Dispatch` | proxy/proxy.c:474-520 | the four property commands are exactly the value-level step |

## Left out

- Allocation failure, file-descriptor and memory errors, and int32 overflow of coordinates and lengths: excluded by precondition. A failed write in the trace proxy is modelled.
- pixman's choice of rectangles in a subtraction: the model has its own four-way split and proves the header's contract; two lists for the same area may differ from pixman's.
- Rectangles with `x1 > x2` or `y1 > y2` cover no point here; the blit claims hold for them too, the intersection claim asks for normalised ones.
- Reader.Serialize: a negative raw length of `-(8 + simple_len)` or more makes the wire size smaller than the header and the fixed part that are written; for such a packet the contract asks for a buffer with room. For every other packet it asks nothing of the buffer.
- TraceProxy.FeedAndEnqueue: for the same reason reads that complete such a packet with a type that is not dropped are excluded; all other negative raw lengths are covered. The value-level statements in `Streams` cover every stream, taking the bytes of that short buffer as what is written.
- Sockets, epoll, shared-memory mapping, the font scan, pcap output, seat input, cursors, key symbols, trace printing and name tables: no algorithm, or only easy members.
- DropMask.ParseFilterMask: takes the list already split at its commas, and the names of the types as a parameter.
- The fixed-part tables behind the tracer's `Config`: `Tracer` holds for any two tables, `TracerMain.ProtocolIsLogged` for the protocol's.
- Wayland object lifetimes, shell handshakes, buffer resizing and compositing: foreign calls. `paints` in a command says whether the surface update got past its early returns, and `keyOk` whether the surface key decoded.
- Double buffering of `place_above`: the model applies it at once.
- Dispatcher.Client.HandleChangeAltitude: the two reorder calls inside the altitude command (`proxy/proxy.c:436-438`) change nothing of the client's state, only the compositor's order; they are proved by themselves in `Reorder`, for any stack.
- A window's `parent`: nothing clears it when the parent is destroyed, so no claim is made about it.
- The identify command's handshake, focus, and the unknown-command assertion: they touch none of the state here and stand as `Other`, a second identify included. Runs end at a client's disconnect.
- Uniqueness of ids across clients: bases are 1000 apart and nothing limits a client to 1000.
- SEM_UNDO on the backing-store semaphore, destruction of semaphores, and interrupted waits, which the code retries.
- PosixLock.CleanRunExcludes: plain reader-writer exclusion is false of the code, as said above; this is the part that is true, with the exact condition beside it.
- The error path of a failed `sem_wait(c)` at libqwsproto/qws_lock.c:484-491: sem_wait fails here only when interrupted, which is retried.
- TraceProxy.Relay: a read that arrives after the other side was closed is skipped by the thread; the model ends before that.
- TraceProxy.Peer.WriteAll: retries after an interrupted write are folded into the amount finally written.
- The clipboard pair (0, 424242): its set and get go through the clipboard bridge, which depends on iconv, pipes and the compositor.
- PropertyStore.Store.Set: the value's buffer is a byte string, so reallocation in place is not seen.
- Reader.PacketReader.Feed: a finished packet takes over the reader's two buffers; the packet is a value here, so sharing is not seen.
- Clients that connect during a property run: the clients are those connected at its start.
- The capacity of the child arrays in the reorder loops is the source's own assertion and a precondition here.
- The Lua dissector beyond its size table, the example programs, the Qt 6 compositor, the linuxfb interposer, scripts and build files.
