/**
 * What the driver does when an asynchronous read of the pipe from the
 * controller completes.  The completion handler is a small decision procedure
 * over the completion status: an overrun (a stalled pipe) gets one attempt at
 * clearing the stall, after which it counts as a success; a controller that no
 * longer responds, or any other failing status, ends the read loop; on success
 * the next read is armed first, and only then is the buffer examined and, if
 * its first byte marks a state report, handed on as a report.
 */
module ReadLoop {
  import opened ControllerPacket
  import opened UsbModel
  import opened SessionLog

  /** The first byte of a buffer that carries the controller's state. */
  const StateReportTag: byte := 0x20

  /** The handler's filter: the buffer is non-empty and starts with the state report tag. */
  predicate IsStateReport(buffer: seq<byte>) {
    |buffer| >= 1 && buffer[0] == StateReportTag
  }

  /** Whether the handler goes on to arm the next read. */
  predicate Rearms(status: IOReturn, clearStallStatus: IOReturn) {
    status == Success || (status == Overrun && clearStallStatus == Success)
  }

  /**
   * finishedAsyncRead: the calls the handler makes for a completion with the
   * given status, where clearStallStatus is the outcome of ClearStall,
   * readStatus that of arming the next read, and buffer the read buffer.
   */
  function CompletionTrace(status: IOReturn, clearStallStatus: IOReturn, readStatus: IOReturn, buffer: seq<byte>): seq<Event> {
    if status == Overrun && clearStallStatus != Success then [ClearStall]
    else
      var stall := if status == Overrun then [ClearStall] else [];
      var effective := if status == Overrun then Success else status;
      if effective == NotResponding then stall
      else if effective != Success then stall
      else if readStatus != Success then stall + [Read(|buffer|, 0, 0)]
      else if !IsStateReport(buffer) then stall + [Read(|buffer|, 0, 0)]
      else stall + [Read(|buffer|, 0, 0), HandleReport(buffer)]
  }

  /** Exactly one ClearStall per overrun, and none otherwise. */
  lemma OneClearStallPerOverrun(status: IOReturn, clearStallStatus: IOReturn, readStatus: IOReturn, buffer: seq<byte>)
    ensures var t := CompletionTrace(status, clearStallStatus, readStatus, buffer);
      multiset(t)[ClearStall] == if status == Overrun then 1 else 0
  {
  }

  /** The next read is armed, for the whole buffer and with no timeouts, exactly when the status (after clearing a stall) is a success. */
  lemma RearmsExactlyOnSuccess(status: IOReturn, clearStallStatus: IOReturn, readStatus: IOReturn, buffer: seq<byte>)
    ensures var t := CompletionTrace(status, clearStallStatus, readStatus, buffer);
      forall e :: e in t && e.Read? ==> e == Read(|buffer|, 0, 0)
    ensures var t := CompletionTrace(status, clearStallStatus, readStatus, buffer);
      Read(|buffer|, 0, 0) in t <==> Rearms(status, clearStallStatus)
    ensures var t := CompletionTrace(status, clearStallStatus, readStatus, buffer);
      multiset(t)[Read(|buffer|, 0, 0)] <= 1
  {
  }

  /** A non-responding controller, or any failing status other than a cleared overrun, ends the loop with no further call. */
  lemma FailureStops(status: IOReturn, clearStallStatus: IOReturn, readStatus: IOReturn, buffer: seq<byte>)
    requires !Rearms(status, clearStallStatus)
    ensures CompletionTrace(status, clearStallStatus, readStatus, buffer) == if status == Overrun then [ClearStall] else []
  {
  }

  /**
   * The buffer is handed on exactly when the next read was armed successfully
   * and the filter accepts it, and then only after the read was armed.
   */
  lemma ReportOnlyAfterRearm(status: IOReturn, clearStallStatus: IOReturn, readStatus: IOReturn, buffer: seq<byte>)
    ensures var t := CompletionTrace(status, clearStallStatus, readStatus, buffer);
      forall e :: e in t && e.HandleReport? ==> e == HandleReport(buffer)
    ensures var t := CompletionTrace(status, clearStallStatus, readStatus, buffer);
      HandleReport(buffer) in t <==> Rearms(status, clearStallStatus) && readStatus == Success && IsStateReport(buffer)
    ensures var t := CompletionTrace(status, clearStallStatus, readStatus, buffer);
      forall j :: 0 <= j < |t| && t[j].HandleReport? ==> 0 < j && t[j - 1] == Read(|buffer|, 0, 0)
  {
  }

  /** A completion neither takes nor gives back a handle. */
  lemma CompletionHandleFree(status: IOReturn, clearStallStatus: IOReturn, readStatus: IOReturn, buffer: seq<byte>)
    ensures HandleFree(CompletionTrace(status, clearStallStatus, readStatus, buffer))
  {
  }

  /**
   * The byte the filter tests is the first byte of the packet struct, which
   * the struct names the sequence number: every accepted packet-sized buffer
   * decodes to a packet whose sequence number is 0x20.
   */
  lemma FilterTestsSequenceNumber(buffer: seq<byte>)
    requires |buffer| >= PacketSize
    ensures IsStateReport(buffer) <==> Decode(buffer).header.sequenceNumber == StateReportTag
  {
    assert Encode(Decode(buffer))[HeaderOffset] == buffer[HeaderOffset];
  }
}
