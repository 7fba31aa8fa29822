# Mir compositor core in Dafny

This project models four pieces of the Mir display server and proves what
each of them promises.

- **The buffer-switching bundle** (`mir::compositor::SwitchingBundle`). It
  is a fixed pool of buffers shared by one client, which draws frames, and
  by any number of compositors and snapshot readers, which display or copy
  them.
  - `BundleModel` (bundle_model.dfy) gives every call as one atomic
    transition on a state value: slot roles, reader counts, the FIFO of
    ready frames, the client's buffers in acquisition order, the
    last-composited slot, the framedropping flag, whether a client is
    waiting, and whether a force is pending.
  - `Compositor.SwitchingBundle` (switching_bundle.dfy) is the object
    itself. It holds an `array` of slots plus fields that its methods
    update in place. Each method is proved to perform exactly the
    transition `BundleModel` defines, and to keep the bundle invariant.
  - `BundleProperties` and `BundlePipeline` prove what the bundle's unit
    tests demand of it: the release errors, presentation order,
    re-display, double-buffer alternation, non-blocking framedropping
    clients, pipeline flushing, the pool bounds, and the unblocking of a
    waiting client.
  - The bundle's implementation file is not part of this model. The
    state machine is the one its unit tests pin down.
- **Weak handles to Wayland resources** (`mir::wayland::Weak`,
  `LifetimeTracker`, `make_weak`, `as_nullable_ptr`) in wayland_base.dfy.
  - The shared "destroyed" flag is a heap cell, created on first request
    and set when the tracker is destroyed.
  - A handle is a value holding a reference to the resource and a
    reference to the cell, so every copy observes destruction.
- **Input platform probing** (`mir::input::probe_input_platforms`) in
  input_probe.dfy.
  - The `module_selector` closure is a class whose two vectors are
    appended to as candidate modules are offered in scan order.
  - It is proved equal to an independent rule: keep the first qualifying
    module of each name.
- **Occlusion filtering** (`mir::compositor::filter_occlusions_from`) in
  occlusion.dfy.
  - A front-first render list is edited in place by a loop that erases
    hidden renderables and renderables lying inside an opaque rectangular
    one in front of them.
  - The loop's coverage sweep is proved equal to a reference rule, and
    the four active unit tests are proved about it.

A framedropping client takes a free buffer before it reclaims a ready
frame, so up to `nbuffers-1` frames may wait (`BundlePipeline.ReadyBound`).
The framedropping test flushes `nbuffers-1` previously ready buffers before
it checks the newest frame
(tests/unit-tests/compositor/test_switching_bundle.cpp:168-173).

`force_requests_to_complete` may run before the client has blocked, as in
the two shutdown tests (tests/unit-tests/compositor/test_switching_bundle.cpp:492-527).
The model therefore keeps an early force pending. The next client
acquisition that finds no free buffer then takes back the oldest ready
frame instead of blocking, and that uses the force up. A force never
changes the framedropping flag.

## Model

| member | source | states |
|---|---|---|
| Compositor.NewSwitchingBundle | tests/unit-tests/compositor/test_switching_bundle.cpp:54-85 | construction fails (logic_error) exactly when nbuffers <= 0; otherwise the new bundle is valid, in the initial state, reports the given properties and has framedropping off |
| Compositor.SwitchingBundle.constructor | tests/unit-tests/compositor/test_switching_bundle.cpp:54-67 | a new bundle with nbuffers >= 1 is in BundleModel.Initial(nbuffers), keeps the construction properties and satisfies the invariant |
| Compositor.SwitchingBundle.Properties | tests/unit-tests/compositor/test_switching_bundle.cpp:56-65 | properties() returns the properties the bundle was built with |
| Compositor.SwitchingBundle.FramedroppingAllowed | tests/unit-tests/compositor/test_switching_bundle.cpp:64 | framedropping_allowed() reports the current policy flag |
| Compositor.SwitchingBundle.AllowFramedropping | tests/unit-tests/compositor/test_switching_bundle.cpp:156 | allow_framedropping changes the policy flag and nothing else, and keeps the invariant |
| Compositor.SwitchingBundle.FindFree | tests/unit-tests/compositor/test_switching_bundle.cpp:87-96 | the scan of the pool returns the lowest-numbered free slot, or none when no slot is free |
| Compositor.SwitchingBundle.AcquireForClient | tests/unit-tests/compositor/test_switching_bundle.cpp:150-166 | one acquisition attempt under a given dropping rule updates the array and fields exactly as BundleModel.AcquireForClient and keeps the invariant |
| Compositor.SwitchingBundle.TakeOldestReady | tests/unit-tests/compositor/test_switching_bundle.cpp:150-166 | taking back the oldest ready frame for the client updates the fields as BundleModel.AcquireForClient's reclaim branch does, and uses up a pending force |
| Compositor.SwitchingBundle.ClientAcquire | tests/unit-tests/compositor/test_switching_bundle.cpp:87-96 | client_acquire performs BundleModel.ClientAcquire in place (a grant, or the caller would block; a pending force lets it drop a frame instead) and keeps the invariant |
| Compositor.SwitchingBundle.ClientRelease | tests/unit-tests/compositor/test_switching_bundle.cpp:182-201 | client_release performs BundleModel.ClientRelease in place, returning LogicError for a buffer that is not the client's oldest, and keeps the invariant |
| Compositor.SwitchingBundle.CompositorAcquire | tests/unit-tests/compositor/test_switching_bundle.cpp:203-238 | compositor_acquire never blocks, performs BundleModel.CompositorAcquire in place and keeps the invariant |
| Compositor.SwitchingBundle.PresentNext | tests/unit-tests/compositor/test_switching_bundle.cpp:203-220 | the oldest ready frame goes on display and is returned; the frame it replaces is freed if nobody reads it |
| Compositor.SwitchingBundle.CompositorRelease | tests/unit-tests/compositor/test_switching_bundle.cpp:269-290 | compositor_release performs BundleModel.CompositorRelease in place, LogicError unless a compositor holds the buffer, and keeps the invariant |
| Compositor.SwitchingBundle.SnapshotAcquire | tests/unit-tests/compositor/test_switching_bundle.cpp:339-367 | snapshot_acquire never blocks, returns the last-composited buffer and keeps the invariant |
| Compositor.SwitchingBundle.SnapshotRelease | tests/unit-tests/compositor/test_switching_bundle.cpp:369-401 | snapshot_release performs BundleModel.SnapshotRelease in place, LogicError unless a snapshot holds the buffer, and keeps the invariant |
| Compositor.SwitchingBundle.ForceRequestsToComplete | tests/unit-tests/compositor/test_switching_bundle.cpp:492-527 | force_requests_to_complete performs BundleModel.ForceRequestsToComplete in place: a waiting client gets a buffer when one is free or a ready frame can be reclaimed; otherwise, and when no client waits, the force stays pending for the next acquisition that would block; the policy flag is left alone and the invariant kept |
| BundleModel.Initial | tests/unit-tests/compositor/test_switching_bundle.cpp:54-67 | a new bundle has nbuffers slots, slot 0 on display, nothing queued or held, no waiting client and framedropping off |
| BundleModel.InitialInv | tests/unit-tests/compositor/test_switching_bundle.cpp:54-67 | the initial state satisfies the bundle invariant and no buffer has readers |
| BundleModel.FirstFree | tests/unit-tests/compositor/test_switching_bundle.cpp:87-96 | the result is a free slot with no free slot before it, or none exactly when no slot is free |
| BundleModel.AcquireForClient | tests/unit-tests/compositor/test_switching_bundle.cpp:150-166 | one acquisition attempt: a grant hands the client a slot of the pool and appends it to the client's buffers; a would-block changes nothing but recording the waiting client; the display and the policy flag are untouched |
| BundleModel.ClientAcquire | tests/unit-tests/compositor/test_switching_bundle.cpp:87-96 | client_acquire under the bundle's policy (or a pending force): a grant appends the buffer to the client's list and clears the waiting mark; the display and the policy flag are untouched |
| BundleModel.ClientRelease | tests/unit-tests/compositor/test_switching_bundle.cpp:182-201 | client_release succeeds iff the buffer is the client's oldest; then it becomes the newest ready frame and leaves the client's list; otherwise it is a logic error and nothing changes |
| BundleModel.Submit | tests/unit-tests/compositor/test_switching_bundle.cpp:92-93 | a released client buffer is appended to the ready FIFO in the Ready role and removed from the front of the client's list |
| BundleModel.CompositorAcquire | tests/unit-tests/compositor/test_switching_bundle.cpp:203-220 | compositor_acquire returns and dequeues the oldest ready frame, and with nothing ready re-displays the last-composited frame; either way its result becomes the last-composited frame, and the client's buffers and the policy flag are untouched |
| BundleModel.Present | tests/unit-tests/compositor/test_switching_bundle.cpp:203-220 | the oldest ready frame leaves the FIFO and is on display as the last-composited frame |
| BundleModel.Settle | tests/unit-tests/compositor/test_switching_bundle.cpp:283-288 | a slot a reader lets go of is unchanged, or freed when nobody reads it any more and it is not the last-composited frame |
| BundleModel.CompositorRelease | tests/unit-tests/compositor/test_switching_bundle.cpp:269-290 | compositor_release succeeds iff a compositor holds the buffer, and otherwise is a logic error that changes nothing; no frame is queued, dequeued or displayed by it |
| BundleModel.SnapshotAcquire | tests/unit-tests/compositor/test_switching_bundle.cpp:339-351 | snapshot_acquire returns the last-composited frame and moves no frame |
| BundleModel.SnapshotRelease | tests/unit-tests/compositor/test_switching_bundle.cpp:369-401 | snapshot_release succeeds iff a snapshot holds the buffer, and otherwise is a logic error that changes nothing; no frame is queued, dequeued or displayed by it |
| BundleModel.AllowFramedropping | tests/unit-tests/compositor/test_switching_bundle.cpp:156 | allow_framedropping sets the policy flag and changes nothing else |
| BundleModel.ForceRequestsToComplete | tests/unit-tests/compositor/test_switching_bundle.cpp:492-527 | force_requests_to_complete never changes the policy flag; it completes an acquisition only for a waiting client, handing it a buffer; whenever it hands over nothing (no client waiting, or nothing to reclaim) its only effect is to record a pending force, so a force is never lost |
| BundleModel.AcquireForClientKeepsInv | tests/unit-tests/compositor/test_switching_bundle.cpp:150-166 | a client acquisition attempt, with or without frame dropping, keeps the invariant |
| BundleModel.ClientReleaseKeepsInv | tests/unit-tests/compositor/test_switching_bundle.cpp:182-201 | client_release, successful or rejected, keeps the invariant |
| BundleModel.CompositorAcquireKeepsInv | tests/unit-tests/compositor/test_switching_bundle.cpp:203-238 | compositor_acquire keeps the invariant |
| BundleModel.PresentKeepsInv | tests/unit-tests/compositor/test_switching_bundle.cpp:203-220 | putting the oldest ready frame on display keeps the queues and reader accounting consistent |
| BundleModel.CompositorReleaseKeepsInv | tests/unit-tests/compositor/test_switching_bundle.cpp:269-290 | compositor_release, successful or rejected, keeps the invariant |
| BundleModel.SnapshotAcquireKeepsInv | tests/unit-tests/compositor/test_switching_bundle.cpp:339-367 | snapshot_acquire keeps the invariant |
| BundleModel.SnapshotReleaseKeepsInv | tests/unit-tests/compositor/test_switching_bundle.cpp:369-401 | snapshot_release, successful or rejected, keeps the invariant |
| BundleModel.ForceRequestsToCompleteKeepsInv | tests/unit-tests/compositor/test_switching_bundle.cpp:492-527 | force_requests_to_complete keeps the invariant |
| BundleProperties.Run | tests/unit-tests/compositor/test_switching_bundle.cpp:124-146 | any sequence of calls keeps the pool size and yields one reply per call |
| BundleProperties.ApplyKeepsInv | tests/unit-tests/compositor/test_switching_bundle.cpp:451-490 | every call on the bundle keeps the invariant |
| BundleProperties.RunKeepsInv | tests/unit-tests/compositor/test_switching_bundle.cpp:451-490 | any sequence of calls, in any interleaving of roles, keeps the invariant |
| BundleProperties.OutOfOrderClientRelease | tests/unit-tests/compositor/test_switching_bundle.cpp:182-201 | with two client buffers outstanding, releasing the second first is a logic error that changes nothing; releasing the first succeeds and releasing it again is a logic error |
| BundleProperties.ClientReleaseTwice | tests/unit-tests/compositor/test_switching_bundle.cpp:195-199 | a client buffer released once cannot be released again |
| BundleProperties.ClientBufferNotReleasableByReaders | tests/unit-tests/compositor/test_switching_bundle.cpp:275-280 | with two or more buffers, passing a client buffer to compositor_release or snapshot_release is a logic error that changes nothing |
| BundleProperties.CompositorReleaseTwice | tests/unit-tests/compositor/test_switching_bundle.cpp:283-288 | releasing a compositor buffer twice fails the second time |
| BundleProperties.SnapshotReleaseTwice | tests/unit-tests/compositor/test_switching_bundle.cpp:394-399 | releasing a snapshot twice fails the second time |
| BundleProperties.SnapshotReleaseVerifiesParameter | tests/unit-tests/compositor/test_switching_bundle.cpp:369-401 | for every pool of two or more buffers: snapshot_release rejects the buffer only a compositor holds, snapshot_acquire then returns that same buffer, compositor_release accepts it, the client's next buffer differs and is rejected by snapshot_release, and the snapshot's own hold is released once and rejected the second time |
| BundleProperties.StepKeepsDisplay | tests/unit-tests/compositor/test_switching_bundle.cpp:240-267 | with no frame pending, any call but client_release keeps the displayed frame, and compositor and snapshot acquisitions return it |
| BundleProperties.RedisplayUntilNextFrame | tests/unit-tests/compositor/test_switching_bundle.cpp:240-267 | until the next client_release, every compositor and snapshot acquisition in any sequence of calls returns the same buffer |
| BundleProperties.FreshFrameThenRedisplay | tests/unit-tests/compositor/test_switching_bundle.cpp:203-220 | with no earlier frame waiting, after client_release of buffer b the next compositor_acquire returns b, and so does every later consumer acquisition until the next client_release |
| BundleProperties.QuiescentSlotsFree | tests/unit-tests/compositor/test_switching_bundle.cpp:115-128 | between synchronous frames every slot but the displayed one is free and nobody holds the displayed one |
| BundleProperties.QuiescentClientGetsFreeSlot | tests/unit-tests/compositor/test_switching_bundle.cpp:115-128 | between synchronous frames client_acquire never blocks; with two or more buffers it gets a free buffer that is not on display, and with two buffers the other one |
| BundleProperties.SyncFrame | tests/unit-tests/compositor/test_switching_bundle.cpp:115-146 | a synchronous frame (client acquire and release, then two monitors each acquire and release) shows the buffer the client drew to both monitors, every call succeeds, and the bundle is quiescent again with that buffer on display |
| BundleProperties.NextSyncFrame | tests/unit-tests/compositor/test_switching_bundle.cpp:124-141 | one synchronous frame keeps the invariant and quiescence and displays the buffer it returns; with two buffers that buffer is not the previously displayed one |
| BundleProperties.DoubleBufferAlternates | tests/unit-tests/compositor/test_switching_bundle.cpp:137-138 | with two buffers and framedropping off, successive composited frames alternate: each differs from the one before and equals the one two before |
| BundleProperties.EarlyForceIsRemembered | tests/unit-tests/compositor/test_switching_bundle.cpp:492-511 | with two buffers, a force before the client blocks, then acquire, release and acquire, gives the replies none, buffer 1, Ok, buffer 1: the second acquisition does not block |
| BundleProperties.BlockedForceIsRemembered | tests/unit-tests/compositor/test_switching_bundle.cpp:492-527 | with two buffers, acquire, a blocked acquire, a force that can hand over nothing, a release and an acquire give the replies buffer 1, blocked, none, Ok, buffer 1: the force is kept and the client's next attempt does not block |
| BundleModel.ForceServesWaitingClient | tests/unit-tests/compositor/test_switching_bundle.cpp:492-527 | a force always hands a waiting client a buffer while some frame is ready |
| BundlePipeline.ReadyBound | tests/unit-tests/compositor/test_switching_bundle.cpp:168-173 | with two or more buffers at most nbuffers-1 frames are ready, since the displayed frame is never among them |
| BundlePipeline.FramedroppingClientNeverBlocks | tests/unit-tests/compositor/test_switching_bundle.cpp:150-166 | with framedropping on and two or more buffers, a client holding nothing is always granted a buffer while readers hold only the displayed frame |
| BundlePipeline.FramedroppingCycle | tests/unit-tests/compositor/test_switching_bundle.cpp:161-166 | one framedropping acquire and release succeeds, keeps the bundle idle and the display unchanged, and makes the buffer the newest ready frame |
| BundlePipeline.FramedroppingCyclesKeepIdle | tests/unit-tests/compositor/test_switching_bundle.cpp:159-166 | any number of framedropping client frames keep the invariant, the idle state and the display, and at most nbuffers-1 frames wait |
| BundlePipeline.FramedroppingClientsNeverBlock | tests/unit-tests/compositor/test_switching_bundle.cpp:150-166 | with framedropping on, any number of back-to-back client frames are all granted: the client never blocks |
| BundlePipeline.FramedroppingLastFrameQueued | tests/unit-tests/compositor/test_switching_bundle.cpp:159-166 | with framedropping on, after one or more back-to-back client frames the newest ready frame is the buffer submitted last |
| BundlePipeline.CompositorReleasesOwnBuffer | tests/unit-tests/compositor/test_switching_bundle.cpp:222-238 | a compositor can always release the buffer it has just acquired |
| BundlePipeline.SnapshotReleasesOwnBuffer | tests/unit-tests/compositor/test_switching_bundle.cpp:353-367 | a snapshot can always release the buffer it has just acquired |
| BundlePipeline.FlushOnceShape | tests/unit-tests/compositor/test_switching_bundle.cpp:168-173 | on an idle bundle one composite-and-release round shows and dequeues the oldest ready frame, or changes nothing when none is ready |
| BundlePipeline.FlushOnceKeepsInv | tests/unit-tests/compositor/test_switching_bundle.cpp:168-173 | a composite-and-release round keeps the invariant |
| BundlePipeline.FlushNothingReady | tests/unit-tests/compositor/test_switching_bundle.cpp:168-173 | flushing an idle bundle with nothing ready changes nothing |
| BundlePipeline.FlushDrains | tests/unit-tests/compositor/test_switching_bundle.cpp:168-173 | k rounds on an idle bundle, k at most the number of ready frames, put the k-th ready frame on display and leave the later ones waiting in order |
| BundlePipeline.FlushDrainsAll | tests/unit-tests/compositor/test_switching_bundle.cpp:168-177 | at least as many rounds as ready frames leave nothing waiting and the newest of them on display |
| BundlePipeline.FlushReachesNewest | tests/unit-tests/compositor/test_switching_bundle.cpp:168-177 | after at least (ready frames - 1) rounds, compositor_acquire returns the newest frame that was ready before the flush |
| BundlePipeline.FramedroppingFlushShowsLastFrame | tests/unit-tests/compositor/test_switching_bundle.cpp:150-180 | with framedropping on, after k >= 1 client frames and nbuffers-1 composite-and-release rounds, compositor_acquire returns the buffer the client submitted last |
| BundlePipeline.InitialFreeCount | tests/unit-tests/compositor/test_switching_bundle.cpp:292-302 | a new bundle has nbuffers-1 free buffers |
| BundlePipeline.FreeCycle | tests/unit-tests/compositor/test_switching_bundle.cpp:425-432 | without framedropping, a client frame takes one free buffer and queues it |
| BundlePipeline.FreeCycles | tests/unit-tests/compositor/test_switching_bundle.cpp:492-511 | without framedropping, k client frames are all granted while k buffers are free, each using up one free buffer |
| BundlePipeline.WaitingClientUnblocksOnShutdown | tests/unit-tests/compositor/test_switching_bundle.cpp:492-527 | the order where the client blocks first: on a new bundle with framedropping off, nbuffers-1 client frames are granted, the next client_acquire blocks, force_requests_to_complete then hands it a buffer, framedropping stays off and no force is left pending |
| BundlePipeline.ForcedCycle | tests/unit-tests/compositor/test_switching_bundle.cpp:425-432 | with a force pending and no free buffer, client_acquire takes back the oldest ready frame, the client can release it, and the force is used up |
| BundlePipeline.LatchedCycles | tests/unit-tests/compositor/test_switching_bundle.cpp:425-432 | with a force pending, a client with k frames to draw and k-1 free buffers gets every frame, and afterwards no force is pending and framedropping is off |
| BundlePipeline.ForceBeforeBlockUnblocks | tests/unit-tests/compositor/test_switching_bundle.cpp:492-527 | the order where the force comes first: for every j < nbuffers, a force issued after j of the client's nbuffers frames is not lost; all nbuffers frames are granted, framedropping stays off and the force is used up |
| BundlePipeline.FreeAcquisitions | tests/unit-tests/compositor/test_switching_bundle.cpp:292-299 | without framedropping, a client can hold as many buffers at once as there are free slots |
| BundlePipeline.ClientsStealAllButOne | tests/unit-tests/compositor/test_switching_bundle.cpp:292-302 | a client can hold nbuffers-1 buffers of a new bundle, and a compositor acquire and release still succeeds |
| BundlePipeline.ClientNeverGetsReadSlot | tests/unit-tests/compositor/test_switching_bundle.cpp:382-387 | with two or more buffers, client_acquire never returns the displayed buffer or a buffer a compositor or snapshot holds |
| BundlePipeline.FreshFrameDiffersFromHeld | tests/unit-tests/compositor/test_switching_bundle.cpp:305-337 | with two or more buffers, a fresh frame reaching a compositor is never a buffer another reader still holds |
| BundlePipeline.SnapshotSeesCompositedFrame | tests/unit-tests/compositor/test_switching_bundle.cpp:339-351 | snapshot_acquire returns the buffer the compositor just acquired and moves no frame |
| WaylandBase.LifetimeTracker.constructor | include/wayland/mir/wayland/wayland_base.h:63-74 | a new tracker has no destroyed flag yet |
| WaylandBase.LifetimeTracker.DestroyedFlagOf | include/wayland/mir/wayland/wayland_base.h:57-68 | destroyed_flag() creates an unset flag on first request and returns the same flag on every later request |
| WaylandBase.LifetimeTracker.MarkDestroyed | include/wayland/mir/wayland/wayland_base.h:57-71 | mark_destroyed sets the flag if one was handed out, and every handle sharing it becomes invalid |
| WaylandBase.Empty | include/wayland/mir/wayland/wayland_base.h:95-99 | the default handle has a null resource and is invalid |
| WaylandBase.IsLive | include/wayland/mir/wayland/wayland_base.h:140-143 | operator bool: a valid handle has a resource and a flag, and a handle whose flag is set is invalid |
| WaylandBase.Equals | include/wayland/mir/wayland/wayland_base.h:110-120 | operator==: equal handles are both valid or both invalid, equal valid handles point to the same resource, and any two invalid handles are equal |
| WaylandBase.EqualsObject | include/wayland/mir/wayland/wayland_base.h:122-132 | comparing with an object is true iff the handle is valid and points at that object |
| WaylandBase.NotEquals | include/wayland/mir/wayland/wayland_base.h:134-138 | != on handles is true iff exactly one is valid, or both are valid and point to different resources |
| WaylandBase.NotEqualsObject | include/wayland/mir/wayland/wayland_base.h:134-138 | != against an object is true iff the handle is invalid or points elsewhere |
| WaylandBase.Value | include/wayland/mir/wayland/wayland_base.h:145-152 | value() succeeds iff the handle is valid, returning its resource; otherwise it is the destroyed-resource logic_error |
| WaylandBase.AsNullablePtr | include/wayland/mir/wayland/wayland_base.h:167-171 | as_nullable_ptr is null iff the handle is invalid, and otherwise the resource's address |
| WaylandBase.MakeWeak | include/wayland/mir/wayland/wayland_base.h:101-105 | make_weak(p) points at p and shares p's flag, creating it if needed; a null p gives the empty handle; the handle is valid iff p is non-null and not destroyed |
| WaylandBase.HandlesObserveDestruction | include/wayland/mir/wayland/wayland_base.h:57-59 | two handles made from one object are equal and valid; after the object is marked destroyed both are invalid and equal the empty handle |
| WaylandBase.EmptyIsInvalid | include/wayland/mir/wayland/wayland_base.h:95-99 | a default handle converts to false, value() on it fails, and as_nullable_ptr gives null |
| WaylandBase.InvalidEqualsEmpty | include/wayland/mir/wayland/wayland_base.h:110-120 | a handle equals the empty handle iff it is invalid, so a destroyed handle equals an empty one |
| WaylandBase.SharedFlagKillsCopies | include/wayland/mir/wayland/wayland_base.h:107-143 | handles sharing a set flag are all invalid and equal to one another |
| WaylandBase.EqualsIsEquivalence | include/wayland/mir/wayland/wayland_base.h:110-120 | handle equality is reflexive, symmetric and transitive |
| WaylandBase.NotEqualsDistinguishes | include/wayland/mir/wayland/wayland_base.h:134-138 | two handles are unequal iff exactly one is valid, or both are valid and point to different resources |
| WaylandBase.EqualsObjectIsPointerIdentity | include/wayland/mir/wayland/wayland_base.h:122-138 | comparing a handle with an object is false when the handle is invalid and address identity otherwise; != is its negation |
| WaylandBase.ValueMatchesPointer | include/wayland/mir/wayland/wayland_base.h:145-171 | value() and as_nullable_ptr agree, and a valid handle equals its own resource |
| InputProbe.SelectStep | src/server/input/input_probe.cpp:68-82 | a module is recorded (platform and name appended) iff its probe beats the threshold, its name is new and its platform can be created; otherwise nothing changes |
| InputProbe.ModuleSelector.constructor | src/server/input/input_probe.cpp:54-57 | the selector starts with the given threshold and no platforms or names |
| InputProbe.ModuleSelector.Select | src/server/input/input_probe.cpp:59-90 | offering a module updates the two vectors as SelectStep says and always returns persist |
| InputProbe.ProbeInputPlatforms | src/server/input/input_probe.cpp:49-103 | without an explicit library every module on the path is offered with threshold dummy; with one, only that library is offered with threshold unsupported; a library that cannot be opened is an error |
| InputProbe.ScanKeepsOnlyAboveThreshold | src/server/input/input_probe.cpp:73-78 | every selected platform probed strictly above the threshold, and platforms and names have equal length and match one to one |
| InputProbe.ScanNamesDistinct | src/server/input/input_probe.cpp:68-78 | no two selected modules share a name |
| InputProbe.ScanNamesAreQualifiedNames | src/server/input/input_probe.cpp:71-87 | the recorded names are exactly the names of modules that probed above the threshold and could be created |
| InputProbe.ScanMatchesReference | src/server/input/input_probe.cpp:68-78 | the selected platforms are, in scan order, exactly the first qualifying module of each name |
| InputProbe.ScanExtends | src/server/input/input_probe.cpp:56-78 | offering more modules only appends: earlier selections stay, in the same order |
| InputProbe.SkippedModuleContributesNothing | src/server/input/input_probe.cpp:61-89 | a module whose entry points, probe or platform creation fail, or whose probe is too low, changes nothing |
| InputProbe.DuplicateNameIgnored | src/server/input/input_probe.cpp:68-73 | a later module with an already-selected name is ignored whatever its priority |
| InputProbe.DummyOnlyWhenExplicit | src/server/input/input_probe.cpp:92-96 | a dummy-priority module is rejected on the platform path but selected when named explicitly |
| Occlusion.RenderableList.constructor | tests/unit-tests/compositor/test_occlusion.cpp:46 | the list holds the given renderables, front first |
| Occlusion.RenderableList.FilterOcclusionsFrom | tests/unit-tests/compositor/test_occlusion.cpp:43-86 | the in-place erasing loop leaves exactly the drawn renderables (visible and not inside an occluder in front of them), in their original order |
| Occlusion.IsCovered | tests/unit-tests/compositor/test_occlusion.cpp:53-63 | the coverage search answers true iff some remembered opaque rectangle contains the renderable's rectangle |
| Occlusion.SweepCoverageSound | tests/unit-tests/compositor/test_occlusion.cpp:53-76 | every rectangle the sweep remembers lies inside an occluder of the list |
| Occlusion.SweepCoverageComplete | tests/unit-tests/compositor/test_occlusion.cpp:53-76 | every occluder's rectangle lies inside a rectangle the sweep remembers |
| Occlusion.SweepMatchesReference | tests/unit-tests/compositor/test_occlusion.cpp:43-86 | the filter's sweep keeps exactly the renderables the reference rule draws |
| Occlusion.FilterOnlyDeletes | tests/unit-tests/compositor/test_occlusion.cpp:73-75 | the survivors are a subsequence of the list: the filter only deletes |
| Occlusion.FrontUnaffectedByBack | tests/unit-tests/compositor/test_occlusion.cpp:61-62 | renderables behind never change what survives in front |
| Occlusion.FrontmostVisibleSurvives | tests/unit-tests/compositor/test_occlusion.cpp:49-50 | a visible frontmost renderable always survives and stays at the front |
| Occlusion.HiddenNeverSurvives | tests/unit-tests/compositor/test_occlusion.cpp:78-86 | an invisible renderable is removed whatever is in front of it |
| Occlusion.OccludedNeverSurvives | tests/unit-tests/compositor/test_occlusion.cpp:53-63 | a renderable inside an opaque, rectangular, visible renderable in front of it is removed |
| Occlusion.SingleWindowNotOccluded | tests/unit-tests/compositor/test_occlusion.cpp:43-51 | a single visible opaque window is kept unchanged |
| Occlusion.SmallerWindowOccluded | tests/unit-tests/compositor/test_occlusion.cpp:53-63 | a window inside an opaque window in front of it is removed and the front window kept |
| Occlusion.TranslucentWindowOccludesNothing | tests/unit-tests/compositor/test_occlusion.cpp:65-76 | behind a translucent window both windows stay, in order |
| Occlusion.HiddenWindowIsSelfOccluded | tests/unit-tests/compositor/test_occlusion.cpp:78-86 | a hidden window is removed with nothing in front of it |

## Left out

- Threads, blocking and timing are not modelled. The model is sequential and untimed.
  - A `client_acquire` that would block returns `WouldBlock` and records a waiting client.
  - `force_requests_to_complete` completes that client's request in the same state change when a buffer is free or a ready frame can be taken back. Thread wake-up is not modelled.
  - When the waiting client finds nothing free or ready, or no client is waiting yet, the force is kept until the next acquisition that finds no free buffer and can take back a ready frame. This is one force for one reclaimed frame. How the implementation wakes a client in a later wait is not modelled.
  - The stress test and `sleep_one_frame` (tests/unit-tests/compositor/test_switching_bundle.cpp:100-113, 403-490) are therefore outside the model. `BundleProperties.RunKeepsInv` covers every sequential interleaving of the calls instead.
- BundleModel.ForceRequestsToComplete: a client that blocks while it holds every buffer no reader uses, with no frame ready, is not handed a buffer by the force, because the only remaining buffer is the one on display. The force stays pending and serves the client's next acquisition once it has released a frame (`BundleProperties.BlockedForceIsRemembered`). The tests' client always releases each frame before acquiring the next, so this case is outside what they check.
- Buffers are slot numbers and a buffer id is its slot number. The allocator, the buffer objects and their pixel contents are not modelled.
- Fixed repetition counts are not modelled: the 50 and 100 iterations, and the 100 outstanding compositor and snapshot acquisitions.
  - Acquisitions never block because the model's acquire functions are total.
  - Reader counts are unbounded, so any number of acquisitions may be outstanding at once.
- The distinction between a final shutdown and a temporary VT switch (tests/unit-tests/compositor/test_switching_bundle.cpp:502-507) is not modelled. The model does only what the test checks: framedropping stays off.
- The single-buffer bundle is modelled, with one caveat. A client and a compositor then share the one buffer, and the reader/role separation is stated only for two or more buffers.
- The bundle's implementation file is not part of this model. Its internal order of slot selection (lowest-numbered free slot first) is a modelling choice the tests allow.
- `ProtocolError` (include/wayland/mir/wayland/wayland_base.h:42-55) is not modelled: it is printf-style formatting and a Wayland wire error.
- The bodies of `destroyed_flag()` and `mark_destroyed()` are in wayland_base.cpp, which is not part of this model. They follow the header's description: the flag is created only when needed and set on destruction.
- `Resource`, `Global` and their `Version` tags carry no logic. `Weak<T>` is modelled for one `T`, the tracked object.
- Dynamic library loading (`SharedLibrary`, `load_function`), options lookup, `select_libraries_for_path` and `log_info` are not modelled. A library is given by what loading it would yield, and the path scan by the sequence of modules it finds, in its order.
- The `PlatformPriority` values come from the input platform header, which is not part of this model. Only `unsupported` (0) < `dummy` (1) matters here.
- InputProbe.ProbeInputPlatforms: exceptions other than `std::runtime_error` propagate out of the selector. They are not modelled, and neither is a null platform returned by `create_input_platform`.
- Occlusion.RenderableList.FilterOcclusionsFrom: the monitor rectangle does not affect the result.
  - occlusion.cpp is not part of this model.
  - The active tests place every window inside the monitor, so clipping to the monitor and transformed renderables are not modelled.
- Alpha is a float in the source. A renderable is opaque iff its alpha is 1.0, modelled as a boolean.
- Renderables are compared as values. The source compares shared pointers.
- The disabled occlusion tests (tests/unit-tests/compositor/test_occlusion.cpp:88-168) are not modelled. Only their constructor arguments are used, to read `FakeRenderable(x, y, w, h, alpha, rectangular, visible)`.
