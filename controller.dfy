/**
 * The driver object.  A session owns five nullable handles: the USB device,
 * the controller's interface, the pipe from the controller, the pipe to the
 * controller and the read buffer.  The ghost `log` records, in order, each
 * handle stored (`Acquire`) and given back (`Release`), the configuration
 * chosen, every write and read armed on a pipe, every stall cleared and
 * every report handed on.  Opens, lookups, descriptor reads, allocations
 * and closes are not events of their own: their outcomes are `Backend`
 * fields, and a successful lookup or allocation shows up only as the
 * `Acquire` of its handle, a close only inside a `Release`.  `Valid` says
 * that the log never acquires a handle already held nor releases one that
 * is not held, that the handles it leaves held are exactly the non-null
 * fields, and that at most one read is pending.  The outcome of
 * each call on the host stack is a parameter (the `Backend` for the attach,
 * status codes for a read completion).
 */
module Controller {
  import opened Wrappers
  import opened ControllerPacket
  import opened UsbModel
  import opened SessionLog
  import opened Attach
  import opened ReadLoop

  class XboxOneController {
    var controller: Option<DeviceInfo>
    var controllerInterface: Option<InterfaceInfo>
    var pipeFromController: Option<PipeInfo>
    var pipeToController: Option<PipeInfo>
    var readBuffer: array?<byte>

    /** The handles stored and given back, the configuration set, the pipe reads and writes, the stall clears and the reports of this session, in order. */
    ghost var log: seq<Event>
    /** Reads armed and not yet completed. */
    ghost var pendingReads: nat

    /** The handles whose fields are non-null. */
    ghost function HeldSet(): set<Resource>
      reads this
    {
      (if controller.Some? then {Device} else {})
      + (if controllerInterface.Some? then {Interface} else {})
      + (if pipeFromController.Some? then {PipeFromController} else {})
      + (if pipeToController.Some? then {PipeToController} else {})
      + (if readBuffer != null then {ReadBuffer} else {})
    }

    /** No handle is held. */
    predicate Idle()
      reads this
    {
      controller.None? && controllerInterface.None? && pipeFromController.None?
      && pipeToController.None? && readBuffer == null
    }

    /** Every handle is held. */
    predicate Active()
      reads this
    {
      controller.Some? && controllerInterface.Some? && pipeFromController.Some?
      && pipeToController.Some? && readBuffer != null
    }

    ghost predicate Valid()
      reads this
    {
      Bracketed({}, log) && HeldAfter({}, log) == HeldSet() && pendingReads <= 1
    }

    /** init: every handle starts out null. */
    constructor Init()
      ensures Idle() && Valid()
      ensures log == [] && pendingReads == 0
    {
      controller := None;
      controllerInterface := None;
      pipeFromController := None;
      pipeToController := None;
      readBuffer := null;
      log := [];
      pendingReads := 0;
    }

    /** Record an event that neither takes nor gives back a handle. */
    ghost method Note(e: Event)
      requires Valid() && !e.Acquire? && !e.Release?
      modifies this`log
      ensures Valid()
      ensures log == old(log) + [e] && pendingReads == old(pendingReads)
      ensures HeldSet() == old(HeldSet())
    {
      Extend({}, log, e);
      log := log + [e];
    }

    /** Record the acquisition of a handle whose field has just been set. */
    ghost method NoteAcquire(r: Resource)
      requires Bracketed({}, log) && pendingReads <= 1
      requires r !in HeldAfter({}, log) && HeldSet() == HeldAfter({}, log) + {r}
      modifies this
      ensures Valid()
      ensures log == old(log) + [Acquire(r)] && pendingReads == old(pendingReads)
      ensures HeldSet() == old(HeldSet())
    {
      Extend({}, log, Acquire(r));
      log := log + [Acquire(r)];
    }

    /** Record the release of every handle of h, whose fields have just been nulled. */
    ghost method NoteReleases(h: set<Resource>)
      requires Bracketed({}, log) && HeldAfter({}, log) == h && HeldSet() == {} && pendingReads <= 1
      modifies this
      ensures Valid()
      ensures log == old(log) + ReleaseTrace(h) && pendingReads == old(pendingReads)
    {
      ReleaseTraceEmpties(h);
      HeldAfterAppend({}, log, ReleaseTrace(h));
      BracketedAppend({}, log, ReleaseTrace(h));
      log := log + ReleaseTrace(h);
    }

    /**
     * releaseEverything: close and release each non-null handle, in a fixed
     * order, and null its field.  A second call releases nothing.
     */
    method ReleaseEverything()
      requires Valid()
      modifies this
      ensures Valid() && Idle()
      ensures log == old(log) + ReleaseTrace(old(HeldSet()))
      ensures pendingReads == old(pendingReads)
      ensures old(Idle()) ==> log == old(log)
    {
      ghost var h := HeldSet();
      if controller.Some? {
        controller := None;
      }
      if controllerInterface.Some? {
        controllerInterface := None;
      }
      if pipeFromController.Some? {
        pipeFromController := None;
      }
      if pipeToController.Some? {
        pipeToController := None;
      }
      if readBuffer != null {
        readBuffer := null;
      }
      NoteReleases(h);
      ReleaseNothing();
    }

    /** free: the object goes away after giving back whatever it still holds. */
    method Free()
      requires Valid()
      modifies this
      ensures Valid() && Idle()
      ensures log == old(log) + ReleaseTrace(old(HeldSet()))
      ensures pendingReads == old(pendingReads)
    {
      ReleaseEverything();
    }

    /** beginAsyncRead: arm a read of the whole read buffer, with no timeouts. */
    method BeginAsyncRead(readStatus: IOReturn) returns (ior: IOReturn)
      requires Valid() && Active() && pendingReads == 0
      modifies this`log, this`pendingReads
      ensures Valid()
      ensures log == old(log) + [Read(readBuffer.Length, 0, 0)]
      ensures ior == readStatus
      ensures pendingReads == if ior == Success then 1 else 0
    {
      Note(Read(readBuffer.Length, 0, 0));
      ior := readStatus;
      if ior == Success {
        pendingReads := 1;
      }
    }

    /**
     * finishedAsyncRead: the completion of the pending read, with its status.
     * data is what the transport wrote into the read buffer before calling
     * the handler; clearStallStatus and readStatus are the outcomes of the
     * calls the handler may make.  bufferRemaining is not used by the handler.
     */
    method FinishedAsyncRead(status: IOReturn, bufferRemaining: nat, data: seq<byte>, clearStallStatus: IOReturn, readStatus: IOReturn)
      requires Valid() && Active() && pendingReads == 1
      requires |data| == readBuffer.Length
      modifies this`log, this`pendingReads, readBuffer
      ensures Valid()
      ensures readBuffer[..] == data
      ensures log == old(log) + CompletionTrace(status, clearStallStatus, readStatus, data)
      ensures pendingReads == if Rearms(status, clearStallStatus) && readStatus == Success then 1 else 0
    {
      // the completed read has filled the buffer
      forall i | 0 <= i < readBuffer.Length {
        readBuffer[i] := data[i];
      }
      assert readBuffer[..] == data;
      pendingReads := 0;
      var st := status;
      if st == Overrun {
        Note(ClearStall);
        var ior := clearStallStatus;
        if ior == Success {
          st := Success;
        } else {
          return;
        }
      }
      if st == NotResponding {
        return;
      }
      if st != Success {
        return;
      }
      var ior := BeginAsyncRead(readStatus);
      if ior != Success {
        return;
      }
      var buffer := readBuffer;
      if buffer.Length < 1 {
        return;
      }
      if buffer[0] == StateReportTag {
        Note(HandleReport(buffer[..]));
      }
    }

    /**
     * The fields hold what the first k steps of the attach store: each
     * handle is non-null exactly when its step (at positions 2, 6, 8, 9 and
     * 11) is one of them, and then it is the one the lookup found.
     */
    ghost predicate Holding(b: Backend, k: nat)
      reads this`controller, this`controllerInterface, this`pipeFromController, this`pipeToController, this`readBuffer
    {
      && (controller.Some? <==> 2 < k)
      && (controller.Some? ==> controller == DeviceOf(b))
      && (controllerInterface.Some? <==> 6 < k)
      && (controllerInterface.Some? ==> controllerInterface == InterfaceOf(b))
      && (pipeFromController.Some? <==> 8 < k)
      && (pipeFromController.Some? ==> pipeFromController == PipeOf(b, PipeFromControllerRequest))
      && (pipeToController.Some? <==> 9 < k)
      && (pipeToController.Some? ==> pipeToController == PipeOf(b, PipeToControllerRequest))
      && (readBuffer != null <==> 11 < k)
      && (readBuffer != null ==> readBuffer.Length == MaxPacketSize(b))
    }

    lemma HoldingHeld(b: Backend, k: nat)
      requires Holding(b, k)
      ensures HeldSet() == StoredBy(k)
    {
    }

    /** The attach has stopped at step stop, having recorded the events up to it after log0. */
    ghost predicate Stopped(b: Backend, stop: nat, log0: seq<Event>)
      reads this
    {
      && stop < StepCount
      && FirstFailure(b) == Some(StepAt(stop))
      && log == log0 + EventsThrough(b, stop + 1)
      && HeldAfter({}, log0) == {}
      && Valid()
      && pendingReads == 0
    }

    /** An idle session is where an attach starts. */
    lemma Starting(b: Backend)
      requires Valid() && Idle()
      ensures Reached(b, 0, log, log) && Holding(b, 0)
    {
      assert HeldSet() == {};
    }

    /** Step k, whose events are logged, succeeded and its handle (if any) is stored. */
    lemma CallSucceeded(b: Backend, k: nat, log0: seq<Event>)
      requires Logged(b, k, log0, log) && Succeeds(b, StepAt(k))
      requires Holding(b, k + 1) && pendingReads <= 1
      ensures Reached(b, k + 1, log0, log) && Valid()
    {
      LoggedHeld(b, k, log0, log);
      HoldingHeld(b, k + 1);
      Pass(b, StepAt(k));
    }

    /** Step k, whose events are logged, failed: the attach stops there. */
    lemma CallFailed(b: Backend, k: nat, log0: seq<Event>)
      requires Logged(b, k, log0, log) && !Succeeds(b, StepAt(k))
      requires Holding(b, k) && pendingReads == 0
      ensures Stopped(b, k, log0)
    {
      LoggedHeld(b, k, log0, log);
      HoldingHeld(b, k);
    }

    /** A storing or checking step failed, which logs nothing: the attach stops there. */
    lemma StepFailed(b: Backend, k: nat, log0: seq<Event>)
      requires k < StepCount && Reached(b, k, log0, log)
      requires Quiet(StepAt(k)) && !Succeeds(b, StepAt(k))
      requires Holding(b, k) && pendingReads == 0
      ensures Stopped(b, k, log0)
    {
      QuietFailure(b, StepAt(k));
      StepLogged(b, k, log0, log, log);
      CallFailed(b, k, log0);
    }

    /** Record a storing or checking step that succeeded, its handle (if any) having been stored. */
    ghost method StepTaken(b: Backend, k: nat, log0: seq<Event>)
      requires k < StepCount && Reached(b, k, log0, log) && Succeeds(b, StepAt(k))
      requires Holding(b, k + 1) && pendingReads <= 1
      modifies this`log
      ensures Reached(b, k + 1, log0, log) && Valid()
    {
      ghost var before := log;
      log := log + StepEvents(b, StepAt(k));
      StepLogged(b, k, log0, before, log);
      CallSucceeded(b, k, log0);
    }

    /** Where the attach stopped, what is left to log is the release of whatever is held. */
    lemma StoppedTrace(b: Backend, stop: nat, log0: seq<Event>)
      requires Stopped(b, stop, log0)
      ensures log0 + AttachTrace(b) == log + ReleaseTrace(HeldSet())
    {
      var acquired := EventsThrough(b, stop + 1);
      AttachTraceFailed(b, StepAt(stop));
      assert AttachTrace(b) == acquired + ReleaseTrace(HeldAfter({}, acquired));
      HeldAfterAppend({}, log0, acquired);
      assert HeldSet() == HeldAfter({}, acquired);
      AppendAssociative(log0, acquired, ReleaseTrace(HeldSet()));
    }

    /**
     * handleStart, (2-3): open the device and keep it, then make its only
     * configuration the active one.
     */
    method OpenAndConfigure(b: Backend, device: DeviceInfo, ghost log0: seq<Event>) returns (ok: bool, ghost stop: nat)
      requires DeviceOf(b) == Some(device)
      requires Reached(b, 2, log0, log) && Holding(b, 2) && Valid() && pendingReads == 0
      modifies this`controller, this`log
      ensures ok ==> Reached(b, 6, log0, log) && Holding(b, 6) && Valid()
      ensures !ok ==> Stopped(b, stop, log0)
    {
      stop := 0;
      if !device.opens {
        StepFailed(b, 2, log0);
        return false, 2;
      }
      controller := Some(device);
      StepTaken(b, 2, log0);
      if controller.value.numConfigurations != 1 {
        StepFailed(b, 3, log0);
        return false, 3;
      }
      StepTaken(b, 3, log0);
      var configuration := controller.value.configuration;
      if configuration.None? {
        StepFailed(b, 4, log0);
        return false, 4;
      }
      StepTaken(b, 4, log0);
      ghost var before := log;
      Note(SetConfiguration(configuration.value.bConfigurationValue));
      StepLogged(b, 5, log0, before, log);
      if device.setConfigurationStatus != Success {
        CallFailed(b, 5, log0);
        return false, 5;
      }
      CallSucceeded(b, 5, log0);
      return true, stop;
    }

    /**
     * handleStart, (4): find the first vendor-specific interface with
     * subclass 0x47 and protocol 0xd0, keep it and open it.
     */
    method ClaimInterface(b: Backend, ghost log0: seq<Event>) returns (ok: bool, ghost stop: nat)
      requires Reached(b, 6, log0, log) && Holding(b, 6) && Valid() && pendingReads == 0
      modifies this`controllerInterface, this`log
      ensures ok ==> Reached(b, 8, log0, log) && Holding(b, 8) && Valid()
      ensures !ok ==> Stopped(b, stop, log0)
    {
      stop := 0;
      controllerInterface := FindNextInterface(controller.value, ControllerInterfaceRequest);
      if controllerInterface.None? {
        StepFailed(b, 6, log0);
        return false, 6;
      }
      StepTaken(b, 6, log0);
      if !controllerInterface.value.opens {
        StepFailed(b, 7, log0);
        return false, 7;
      }
      StepTaken(b, 7, log0);
      return true, stop;
    }

    /** handleStart, (4) continued: find and keep the interrupt pipes from and to the controller. */
    method ClaimPipes(b: Backend, ghost log0: seq<Event>) returns (ok: bool, ghost stop: nat)
      requires Reached(b, 8, log0, log) && Holding(b, 8) && Valid() && pendingReads == 0
      modifies this`pipeFromController, this`pipeToController, this`log
      ensures ok ==> Reached(b, 10, log0, log) && Holding(b, 10) && Valid()
      ensures !ok ==> Stopped(b, stop, log0)
    {
      stop := 0;
      pipeFromController := FindNextPipe(controllerInterface.value, PipeFromControllerRequest);
      if pipeFromController.None? {
        StepFailed(b, 8, log0);
        return false, 8;
      }
      StepTaken(b, 8, log0);
      pipeToController := FindNextPipe(controllerInterface.value, PipeToControllerRequest);
      if pipeToController.None? {
        StepFailed(b, 9, log0);
        return false, 9;
      }
      StepTaken(b, 9, log0);
      return true, stop;
    }

    /** handleStart, (5): a read buffer of wMaxPacketSize bytes of the pipe from the controller. */
    method AllocateResources(b: Backend, ghost log0: seq<Event>) returns (ok: bool, ghost stop: nat)
      requires Reached(b, 10, log0, log) && Holding(b, 10) && Valid() && pendingReads == 0
      modifies this`readBuffer, this`log
      ensures ok ==> Reached(b, 12, log0, log) && Holding(b, 12) && Valid() && fresh(readBuffer)
      ensures !ok ==> Stopped(b, stop, log0)
    {
      stop := 0;
      var pipeDescriptor := pipeFromController.value.endpoint;
      if pipeDescriptor.None? {
        StepFailed(b, 10, log0);
        return false, 10;
      }
      StepTaken(b, 10, log0);
      if !b.readBufferAllocates {
        StepFailed(b, 11, log0);
        return false, 11;
      }
      readBuffer := new byte[pipeDescriptor.value.wMaxPacketSize as nat];
      StepTaken(b, 11, log0);
      return true, stop;
    }

    /** handleStart, (3 again): write the hello message to the pipe to the controller, with no timeouts. */
    method SendHello(b: Backend, ghost log0: seq<Event>) returns (ok: bool, ghost stop: nat)
      requires Reached(b, 12, log0, log) && Holding(b, 12) && Valid() && pendingReads == 0
      modifies this`log
      ensures ok ==> Reached(b, 14, log0, log) && Holding(b, 14) && Valid()
      ensures !ok ==> Stopped(b, stop, log0)
    {
      stop := 0;
      if !b.helloAllocates {
        StepFailed(b, 12, log0);
        return false, 12;
      }
      StepTaken(b, 12, log0);
      var hello := new byte[2];
      hello[0], hello[1] := HelloMessage[0], HelloMessage[1];
      assert hello[..] == HelloMessage;
      ghost var before := log;
      Note(Write(hello[..], 0, 0));
      StepLogged(b, 13, log0, before, log);
      if b.writeStatus != Success {
        CallFailed(b, 13, log0);
        return false, 13;
      }
      CallSucceeded(b, 13, log0);
      return true, stop;
    }

    /** handleStart, the last step: arm the first read. */
    method StartReading(b: Backend, ghost log0: seq<Event>) returns (ok: bool, ghost stop: nat)
      requires Reached(b, 14, log0, log) && Holding(b, 14) && Valid() && pendingReads == 0
      modifies this`log, this`pendingReads
      ensures ok ==> Reached(b, StepCount, log0, log) && Holding(b, StepCount) && Valid() && pendingReads == 1
      ensures !ok ==> Stopped(b, stop, log0)
    {
      stop := 0;
      ghost var before := log;
      var ior := BeginAsyncRead(b.readStatus);
      StepLogged(b, 14, log0, before, log);
      if ior != Success {
        CallFailed(b, 14, log0);
        return false, 14;
      }
      CallSucceeded(b, 14, log0);
      return true, stop;
    }

    /**
     * The body of handleStart's do-while(false) block: from (1), the check
     * that the provider is a USB device, to the first read.  It stops at the
     * first step that fails, leaving to the caller the release of what is
     * held.
     */
    method TryStart(b: Backend, ghost log0: seq<Event>) returns (ok: bool, ghost stop: nat)
      requires Reached(b, 1, log0, log) && Holding(b, 1) && Valid() && pendingReads == 0
      modifies this
      ensures ok ==> Reached(b, StepCount, log0, log) && Holding(b, StepCount) && Valid()
      ensures ok ==> pendingReads == 1 && fresh(readBuffer)
      ensures !ok ==> Stopped(b, stop, log0)
    {
      stop := 0;
      // (1) the provider must be a USB device
      if !b.provider.UsbDevice? {
        StepFailed(b, 1, log0);
        return false, 1;
      }
      StepTaken(b, 1, log0);
      ok, stop := OpenAndConfigure(b, b.provider.device, log0);
      if !ok {
        return;
      }
      ok, stop := ClaimInterface(b, log0);
      if !ok {
        return;
      }
      ok, stop := ClaimPipes(b, log0);
      if !ok {
        return;
      }
      ok, stop := AllocateResources(b, log0);
      if !ok {
        return;
      }
      ghost var buffer := readBuffer;
      ok, stop := SendHello(b, log0);
      if !ok {
        return;
      }
      ok, stop := StartReading(b, log0);
      assert readBuffer == buffer;
    }

    /**
     * handleStart: check the provider, open and configure the device, find
     * and open the interface, find both interrupt pipes, allocate the read
     * buffer, send the hello message and arm the first read.  The first step
     * that fails ends the sequence, and then every handle taken so far is
     * given back.
     */
    method HandleStart(b: Backend) returns (ok: bool)
      requires Valid() && Idle() && pendingReads == 0
      modifies this
      ensures Valid()
      ensures ok <==> AttachSucceeds(b)
      ensures log == old(log) + AttachTrace(b)
      ensures ok ==> Active() && pendingReads == 1
      ensures ok ==> controller == DeviceOf(b) && controllerInterface == InterfaceOf(b)
      ensures ok ==> pipeFromController == PipeOf(b, PipeFromControllerRequest)
      ensures ok ==> pipeToController == PipeOf(b, PipeToControllerRequest)
      ensures ok ==> fresh(readBuffer) && readBuffer.Length == MaxPacketSize(b)
      ensures !ok ==> Idle() && pendingReads == 0
    {
      ghost var log0 := log;
      Starting(b);
      if !b.superStartOk {
        StepFailed(b, 0, log0);
        StoppedTrace(b, 0, log0);
        ReleaseNothing();
        return false;
      }
      StepTaken(b, 0, log0);
      ghost var stop;
      ok, stop := TryStart(b, log0);
      if ok {
        return true;
      }
      // something failed: give back everything that is held
      StoppedTrace(b, stop, log0);
      ReleaseEverything();
      return false;
    }
  }

  /** Nothing held, nothing released. */
  lemma ReleaseNothing()
    ensures ReleaseTrace({}) == []
  {
  }
}
