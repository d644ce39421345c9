# Xbox One controller driver: session lifecycle, read loop and packet layout

This project is a Dafny model of the core of an unofficial macOS kernel driver
for the Xbox One controller (`XboxOneController.cpp` and
`XboxOneControllerPacket.h`). It covers four parts:

- **The driver object** (`controller.dfy`, class `Controller.XboxOneController`).
  It owns five nullable handles: the USB device, the controller's interface,
  the interrupt pipe from the controller, the interrupt pipe to the controller,
  and the read buffer. `init` nulls all five. `handleStart` first asks the
  superclass to start and returns false at once if it refuses. Otherwise it
  takes the handles one at a time in a fixed sequence, and at the first
  failure after that it calls `releaseEverything`. That method closes the
  device and the interface, releases every non-null handle (the two pipes and
  the buffer are only released, not closed) and nulls its field. The
  handshake writes `05 20` to the pipe to the controller and then arms the
  first asynchronous read. The completion handler clears a stall, re-arms the
  read, and hands the buffer on as a report when byte 0 of the bytes the read
  delivered is `0x20`. A ghost event log records, in order, each handle
  stored (`Acquire`) and given back (`Release`), the `SetConfiguration` call,
  every `Write` and `Read` armed on a pipe, every `ClearStall` and every
  `HandleReport`. Opens, lookups, descriptor reads, allocations and closes are
  not events of their own: their outcomes are fields of the `Backend` value
  below, a successful lookup or allocation appears only as the `Acquire` of
  its handle, and a close only inside the `Release` of the device or the
  interface. So a failed device open, or a failed interface open, adds
  nothing to the log by itself. The class invariant `Valid` says three things:
  the log never acquires a handle that is already held and never releases one
  that is not held; the handles the log leaves held are exactly the non-null
  fields; and at most one read is pending.
- **The attach sequence as data** (`attach.dfy`). The outcomes of every call
  `handleStart` makes on the host stack form a `Backend` value. The sequence
  is a table of fifteen `Step`s. `AttachTrace` is the event record
  `handleStart` must produce: the steps up to the first failing one, then the
  release of whatever those steps left held. `HandleStart` is proved to
  produce exactly that record. The lemmas about `AttachTrace` are the
  guarantees:
  - a failed attach holds nothing afterwards;
  - a successful attach holds all five handles;
  - the rollback releases exactly the handles that were acquired;
  - the attach succeeds exactly when every call does and the device has
    exactly one configuration;
  - a read is armed only after the hello message was written successfully.
- **The read completion** (`read_loop.dfy`). `CompletionTrace` states what
  `finishedAsyncRead` does for each combination of outcomes.
  `FinishedAsyncRead` is proved to log exactly that. The lemmas cover:
  - exactly one stall clearing per overrun;
  - re-arming exactly on success;
  - no call after a failure;
  - a report handed on only after the re-arm.
- **The packet layout and the report descriptor** (`packet.dfy`,
  `descriptor.dfy`). The packed 16-byte struct is modelled as `Decode` (the
  struct laid over a byte buffer) and `Encode` (the bytes a struct value
  occupies), with round trips in both directions. The two button unions are
  modelled as records of eight flags. The primary usage page and usage numbers
  are read out of the descriptor table at offsets 1 and 3, and the contracts
  carry the driver's compile-time check on the tag byte before each offset.

`usb.dfy` models the host-stack objects the driver sees: devices, interfaces,
pipes, descriptors and status codes. It also models the two lookups
`FindNextInterface` and `FindNextPipe`, each of which returns the first match.
`session_log.dfy` defines the event log and the folds over it: which handles a
log leaves held, and whether every event in it is allowed.

Points where the code may surprise a reader:

- `releaseEverything` gives handles back in the order device, interface, pipe
  from, pipe to, buffer (XboxOneControllerDriver/XboxOneController.cpp:400-430),
  which is the order in which `handleStart` takes them. `ReleaseOrder` is this
  order.
- The code has no power-management handler and no flag that the completion
  handler checks before it touches the session's fields
  (XboxOneControllerDriver/XboxOneController.cpp:445-501); neither appears in
  the model.
- The report filter tests only that the read buffer has at least one byte and
  that byte 0 is `0x20` (XboxOneControllerDriver/XboxOneController.cpp:485-492).
  It makes no full-packet length check, and the buffer is handed to
  `handleReport` as it is (XboxOneControllerDriver/XboxOneController.cpp:495).
- Byte 0, which the filter tests, is the struct's `header.sequenceNumber`
  (XboxOneControllerDriver/XboxOneControllerPacket.h:34,
  `ReadLoop.FilterTestsSequenceNumber`), while the layout comment in the same
  file shows `0x20 0x00` in front of the sequence number
  (XboxOneControllerDriver/XboxOneControllerPacket.h:16-17). The model takes
  the struct's offsets.
- The interface handle is stored as soon as it is found, before it is opened
  (XboxOneControllerDriver/XboxOneController.cpp:280-293), so an interface
  whose `open` failed is still closed and released by `releaseEverything`.
- On a successful completion the next read is armed
  (XboxOneControllerDriver/XboxOneController.cpp:476) before the buffer is
  examined and handed on (XboxOneControllerDriver/XboxOneController.cpp:484-500).

## Model

| member | source | states |
|---|---|---|
| `ControllerPacket.Buttons1Bits` | XboxOneControllerDriver/XboxOneControllerPacket.h:38-52 | the flags y, x, b, a, share, menu, view, sync are bits 0 to 7 of the byte |
| `ControllerPacket.Buttons1Of` | XboxOneControllerDriver/XboxOneControllerPacket.h:38-52 | the flag view of any byte packs back to that same byte |
| `ControllerPacket.Buttons1FlagsRoundTrip` | XboxOneControllerDriver/XboxOneControllerPacket.h:38-52 | packing eight flags and reading them back through the union gives the same flags |
| `ControllerPacket.Buttons2Bits` | XboxOneControllerDriver/XboxOneControllerPacket.h:54-68 | the flags rightStick, leftStick, rightTrigger, leftTrigger, dRight, dLeft, dDown, dUp are bits 0 to 7 of the byte |
| `ControllerPacket.Buttons2Of` | XboxOneControllerDriver/XboxOneControllerPacket.h:54-68 | the flag view of any byte packs back to that same byte |
| `ControllerPacket.Buttons2FlagsRoundTrip` | XboxOneControllerDriver/XboxOneControllerPacket.h:54-68 | packing eight flags and reading them back gives the same flags |
| `ControllerPacket.U16Bytes` | XboxOneControllerDriver/XboxOneControllerPacket.h:24-25 | a 16-bit field is stored in two bytes, low byte first, and reads back as the same value |
| `ControllerPacket.U16BytesOfU16At` | XboxOneControllerDriver/XboxOneControllerPacket.h:24-25 | reading a little-endian value from two bytes and storing it again gives the same two bytes |
| `ControllerPacket.TwosComplement16` | XboxOneControllerDriver/XboxOneControllerPacket.h:27-30 | for n in 0 .. 2^16 - 1, the result is the int16 that is congruent to n modulo 2^16, negative exactly when n is at least 0x8000 |
| `ControllerPacket.AsInt16` | XboxOneControllerDriver/XboxOneControllerPacket.h:27-30 | the signed reading of a stick field is the int16 congruent to the raw value modulo 2^16 (which fixes it), negative exactly when the raw value is at least 0x8000 |
| `ControllerPacket.AsInt16Injective` | XboxOneControllerDriver/XboxOneControllerPacket.h:27-30 | two raw stick fields with the same signed reading are equal, so the reading loses nothing |
| `ControllerPacket.EncodeHat` | XboxOneControllerDriver/XboxOneControllerPacket.h:70-74 | a stick occupies four bytes: x at offset 0 and y at offset 2, little-endian |
| `ControllerPacket.Encode` | XboxOneControllerDriver/XboxOneControllerPacket.h:76-85 | the packed struct is exactly 16 bytes |
| `ControllerPacket.EncodeLayout` | XboxOneControllerDriver/XboxOneControllerPacket.h:32-85 | the sequence number is at byte 0 and the unknown byte at byte 1; the button bytes are at 2 and 3; the triggers are at 4 and 6; the left stick's x and y are at 8 and 10, and the right stick's at 12 and 14 |
| `ControllerPacket.Decode` | XboxOneControllerDriver/XboxOneControllerPacket.h:76-85 | the packet read from a buffer of at least 16 bytes encodes back to exactly that buffer's first 16 bytes |
| `ControllerPacket.DecodeEncode` | XboxOneControllerDriver/XboxOneControllerPacket.h:76-85 | encoding any packet and decoding the bytes gives back the same field values |
| `ControllerPacket.EncodeDecode` | XboxOneControllerDriver/XboxOneControllerPacket.h:76-85 | decoding any 16-byte buffer and encoding the packet gives back the same bytes |
| `ControllerPacket.StickCoordinates` | XboxOneControllerDriver/XboxOneControllerPacket.h:27-30 | the signed stick coordinates of a decoded buffer are the two's-complement readings of the little-endian fields at bytes 8, 10, 12 and 14 |
| `ControllerPacket.FirstButtonByteExample` | XboxOneControllerDriver/XboxOneControllerPacket.h:19 | a first button byte of 0x03 decodes to y and x set and every other flag of that group clear |
| `ReportDescriptor.PrimaryUsageNumber` | XboxOneControllerDriver/XboxOneController.cpp:165-174 | the byte before offset 3 of the descriptor is the Usage tag 0x09, and the number returned is Game Pad (0x05) |
| `ReportDescriptor.PrimaryUsagePageNumber` | XboxOneControllerDriver/XboxOneController.cpp:176-183 | the byte before offset 1 of the descriptor is the Usage Page tag 0x05, and the number returned is Generic Desktop (0x01) |
| `ReportDescriptor.TriggerLogicalMaximum` | XboxOneControllerDriver/XboxOneController.cpp:77-78 | the triggers' logical maximum item is 0x26 with the value 1024, the packet's documented trigger range |
| `UsbModel.FirstIndex` | XboxOneControllerDriver/XboxOneController.cpp:280 | an index the search returns is within the sequence |
| `UsbModel.FirstIndexSpec` | XboxOneControllerDriver/XboxOneController.cpp:280 | the index found is of a matching element with no match before it; no index means no element matches |
| `UsbModel.FindNextInterfaceSpec` | XboxOneControllerDriver/XboxOneController.cpp:273-286 | the interface found is one of the device's and has the class, subclass and protocol asked for, and no earlier interface has them; none found means that no interface matches |
| `UsbModel.FindNextPipeSpec` | XboxOneControllerDriver/XboxOneController.cpp:302-325 | the pipe found is one of the interface's and has the transfer type and direction asked for, and no earlier pipe has them; none found means that no pipe matches |
| `Attach.Gained` | XboxOneControllerDriver/XboxOneController.cpp:229-340 | a step gives a handle only if it is that handle's storing step and it succeeds; otherwise it gives none |
| `Attach.StepEventsShape` | XboxOneControllerDriver/XboxOneController.cpp:229-370 | a handle-storing step logs just its acquisition, and every other step takes and gives back nothing; the only write is the hello message with zero timeouts, and the only read asks for wMaxPacketSize bytes with zero timeouts |
| `Attach.FirstFailureFromSpec` | XboxOneControllerDriver/XboxOneController.cpp:212-375 | the step where the attach stops fails, and every step before it succeeds; no stop means every step succeeds |
| `Attach.FirstFailureAt` | XboxOneControllerDriver/XboxOneController.cpp:212-375 | a step that fails after all earlier steps succeeded is where the attach stops |
| `Attach.EventsThroughHeld` | XboxOneControllerDriver/XboxOneController.cpp:229-340 | the first n steps never take a handle that is already held and release nothing; they leave held exactly the handles whose storing steps came among them and succeeded |
| `Attach.ReleaseTraceEmpties` | XboxOneControllerDriver/XboxOneController.cpp:398-431 | releaseEverything releases each held handle once and nothing else, and leaves nothing held |
| `Attach.AllStepsHold` | XboxOneControllerDriver/XboxOneController.cpp:212-373 | when every step succeeds, the attach leaves all five handles held |
| `Attach.AttachTraceHeld` | XboxOneControllerDriver/XboxOneController.cpp:212-380 | the record of handleStart never double-acquires or double-releases; afterwards all five handles are held if the attach succeeded and none if it failed |
| `Attach.AcquiredBeforeFailure` | XboxOneControllerDriver/XboxOneController.cpp:212-380 | before a failure at step k, a handle has been stored exactly when its storing step comes before k |
| `Attach.RollbackReleasesExactlyAcquired` | XboxOneControllerDriver/XboxOneController.cpp:212-380 | after a failure at step k, the record acquires and releases exactly the handles whose storing steps come before k |
| `Attach.AttachSucceedsIff` | XboxOneControllerDriver/XboxOneController.cpp:204-370 | the attach succeeds exactly when every call succeeds and the device has exactly one configuration |
| `Attach.HelloBeforeFirstRead` | XboxOneControllerDriver/XboxOneController.cpp:346-370 | in the record of handleStart the hello message is written at most once; every read is for wMaxPacketSize bytes with zero timeouts and comes after a successful hello write; a read is armed exactly when every earlier step succeeded |
| `SessionLog.NeverAcquiredNeverReleased` | XboxOneControllerDriver/XboxOneController.cpp:398-431 | a handle that is not held and never acquired in an allowed log is never released and is not held at the end |
| `SessionLog.HandleFreeKeeps` | XboxOneControllerDriver/XboxOneController.cpp:445-501 | a log with no acquisitions or releases is allowed and leaves the held handles unchanged |
| `ReadLoop.OneClearStallPerOverrun` | XboxOneControllerDriver/XboxOneController.cpp:448-460 | a completion clears the stall exactly once on an overrun and never otherwise |
| `ReadLoop.RearmsExactlyOnSuccess` | XboxOneControllerDriver/XboxOneController.cpp:448-481 | every read re-armed is for the whole buffer with zero timeouts, and there is at most one; a read is re-armed exactly when the status is a success or an overrun whose stall was cleared |
| `ReadLoop.FailureStops` | XboxOneControllerDriver/XboxOneController.cpp:448-473 | a not-responding or failed completion, or an overrun whose stall could not be cleared, makes no call after the stall clearing |
| `ReadLoop.ReportOnlyAfterRearm` | XboxOneControllerDriver/XboxOneController.cpp:476-500 | the buffer is handed on exactly when the re-arm succeeded and the buffer is non-empty with byte 0 equal to 0x20, and then immediately after the re-arm |
| `ReadLoop.CompletionHandleFree` | XboxOneControllerDriver/XboxOneController.cpp:445-501 | a completion neither takes nor gives back a handle |
| `ReadLoop.FilterTestsSequenceNumber` | XboxOneControllerDriver/XboxOneController.cpp:492 | for a packet-sized buffer, the filter accepts exactly when the decoded header's sequence number is 0x20 |
| `Controller.XboxOneController.Init` | XboxOneControllerDriver/XboxOneController.cpp:112-125 | all five handles start out null; the log is empty and no read is pending |
| `Controller.XboxOneController.ReleaseEverything` | XboxOneControllerDriver/XboxOneController.cpp:398-431 | every handle is null afterwards; the log gains the release of exactly the handles that were held, in the code's order; on an idle object nothing is logged, so a second call is a no-op |
| `Controller.XboxOneController.Free` | XboxOneControllerDriver/XboxOneController.cpp:390-396 | free gives back whatever is held and leaves every handle null, with the pending-read count unchanged |
| `Controller.XboxOneController.BeginAsyncRead` | XboxOneControllerDriver/XboxOneController.cpp:433-443 | logs one read of exactly the buffer's length with zero timeouts; a read is pending exactly when the call succeeded |
| `Controller.XboxOneController.FinishedAsyncRead` | XboxOneControllerDriver/XboxOneController.cpp:445-501 | the read buffer afterwards holds exactly the bytes the completed read delivered; the handler logs exactly `CompletionTrace` of the outcomes and those bytes, and the handles stay as they were; a read is pending afterwards exactly when it re-armed successfully |
| `Controller.XboxOneController.OpenAndConfigure` | XboxOneControllerDriver/XboxOneController.cpp:224-265 | opens the device, stores it, checks for exactly one configuration and sets it; on failure the attach stops at the failing step with the device stored only if it opened |
| `Controller.XboxOneController.ClaimInterface` | XboxOneControllerDriver/XboxOneController.cpp:267-293 | stores the first matching interface, then opens it; on failure the attach stops at that step |
| `Controller.XboxOneController.ClaimPipes` | XboxOneControllerDriver/XboxOneController.cpp:295-325 | stores the first interrupt pipe in, then the first interrupt pipe out; on failure the attach stops at that step |
| `Controller.XboxOneController.AllocateResources` | XboxOneControllerDriver/XboxOneController.cpp:327-340 | allocates a fresh read buffer of wMaxPacketSize bytes of the pipe from the controller; on failure the attach stops at that step |
| `Controller.XboxOneController.SendHello` | XboxOneControllerDriver/XboxOneController.cpp:342-362 | writes exactly `05 20` with zero timeouts; a failed allocation or write stops the attach there |
| `Controller.XboxOneController.StartReading` | XboxOneControllerDriver/XboxOneController.cpp:364-373 | arms the first read; on success all fifteen steps have passed and one read is pending |
| `Controller.XboxOneController.TryStart` | XboxOneControllerDriver/XboxOneController.cpp:212-375 | runs steps 1 to 14 in order; on success every handle is what its lookup found and one read is pending; otherwise it stops at the first failing step |
| `Controller.XboxOneController.HandleStart` | XboxOneControllerDriver/XboxOneController.cpp:190-381 | the result is true exactly when the attach succeeds; the log gains exactly `AttachTrace`; on success all five handles are held, each is what its lookup found, the buffer has wMaxPacketSize bytes and one read is pending; on failure every handle is null and no read is pending |

## Left out

- IOKit plumbing is not modelled: `OSDynamicCast`, `retain`/`release` reference counts, `close`, and `IOBufferMemoryDescriptor`. Each call the driver makes is one outcome in the `Backend` record, or a status parameter of the completion handler.
- `super::init`, `super::handleStart`, `super::handleStop` and `super::free` belong to the superclass. The outcome of `super::handleStart` is `Backend.superStartOk`. A refusal by `super::init` is not modelled: the constructor always succeeds.
- `newReportDescriptor` copies the descriptor table into a new buffer, which is allocator plumbing. Only the table itself is modelled as a constant.
- The manufacturer, product and transport strings and the location ID number are constant property getters, so they are not modelled.
- `handleStop` is an empty TODO that only calls the superclass, so it is not modelled.
- `handleReport` and the HID consumer behind it are external calls. The model logs the call and its buffer as a `HandleReport` event.
- Debug logging (`IO_LOG_DEBUG`) has no effect on state, so it is not modelled.
- Asynchrony is not modelled. A read completion is a sequential call of `FinishedAsyncRead`, whose `data` parameter is what the transport wrote into the buffer; the transport's writing of the buffer while the next read is pending, and the host's callback context and any concurrency with detach are left out.
- The REPORT_SIZE items of the descriptor are not interpreted, because XboxOneControllerDriver/XboxOneController.cpp:57 says 0x20 (32 bits) while its comment says 16. The model asserts no total report size.
- The two-byte hello buffer is not tracked as a session handle, because the code releases it right after the write. Its allocation is the `AllocateHello` step, and its release is not logged.
- `Controller.XboxOneController.FinishedAsyncRead` does not use `bufferRemaining`, as in the code. `getBytesNoCopy` returning null is not modelled, because the buffer is always an allocated array here.
- `Controller.XboxOneController.FinishedAsyncRead` requires all five handles held and one read pending. The code has no guard. A completion after teardown would dereference the null pipe on the overrun path (XboxOneControllerDriver/XboxOneController.cpp:450) and on the success path, through `beginAsyncRead` (XboxOneControllerDriver/XboxOneController.cpp:476, 442); a not-responding or other failed status returns before touching any field (XboxOneControllerDriver/XboxOneController.cpp:462-473).
- `Controller.XboxOneController.BeginAsyncRead` requires all five handles held and no read pending. The code dereferences both fields unconditionally.
- `Controller.XboxOneController.HandleStart` requires an object that holds nothing and has no pending read, as after `init`. The code is called once per attach on a fresh object.
- `Controller.XboxOneController.TryStart` models the body of the `do … while (false)` block. `HandleStart` then releases what is held and returns false. The block is split into six methods, one per commented phase of the source (`OpenAndConfigure`, `ClaimInterface`, `ClaimPipes`, `AllocateResources`, `SendHello`, `StartReading`). Each method stops at its first failing call, exactly as the `break`s do.
- `ControllerPacket.AsInt16` pins the two's-complement value and proves injectivity (`AsInt16Injective`), but no function from int16 back to the raw field is defined.
- The struct's alignment and the host's byte order are not modelled. The layout is little-endian, as the comment's `binary.LittleEndian` reference states.
