/**
 * What the driver sees of the USB host stack: status codes, the descriptors it
 * reads, and the two lookups it asks the stack to perform (the first interface
 * matching a class/subclass/protocol triple, the first pipe matching a
 * transfer type and direction).  The objects are plain values here; the
 * outcome of every call the driver makes on them is a field of the value.
 */
module UsbModel {
  import opened Wrappers
  import opened ControllerPacket

  /** Status codes the driver tells apart; every other code is one `Error`. */
  datatype IOReturn = Success | Overrun | NotResponding | Error(code: nat)

  datatype ConfigurationDescriptor = ConfigurationDescriptor(bConfigurationValue: byte)

  datatype EndpointDescriptor = EndpointDescriptor(wMaxPacketSize: uint16)

  datatype TransferType = Control | Isochronous | Bulk | Interrupt
  datatype Direction = In | Out

  /** A pipe of an interface; `endpoint` is what GetEndpointDescriptor returns. */
  datatype PipeInfo = PipeInfo(
    id: nat,
    transferType: TransferType,
    direction: Direction,
    endpoint: Option<EndpointDescriptor>)

  /** An interface of the device; `opens` is the outcome of opening it. */
  datatype InterfaceInfo = InterfaceInfo(
    id: nat,
    bInterfaceClass: byte,
    bInterfaceSubClass: byte,
    bInterfaceProtocol: byte,
    opens: bool,
    pipes: seq<PipeInfo>)

  /** The USB device the driver is started on, with the outcomes of the calls made on it. */
  datatype DeviceInfo = DeviceInfo(
    id: nat,
    opens: bool,
    numConfigurations: nat,
    configuration: Option<ConfigurationDescriptor>,
    setConfigurationStatus: IOReturn,
    interfaces: seq<InterfaceInfo>)

  /** The provider the driver is started on: a USB device, or some other kind of service. */
  datatype Provider = UsbDevice(device: DeviceInfo) | OtherService

  /** An interface lookup request; the alternate setting is "don't care". */
  datatype InterfaceRequest = InterfaceRequest(bInterfaceClass: byte, bInterfaceSubClass: byte, bInterfaceProtocol: byte)

  datatype EndpointRequest = EndpointRequest(transferType: TransferType, direction: Direction)

  /** The index of the first element satisfying p, if any. */
  function FirstIndex<T>(s: seq<T>, p: T -> bool): (r: Option<nat>)
    ensures r.Some? ==> r.value < |s|
  {
    if s == [] then None
    else if p(s[0]) then Some(0)
    else match FirstIndex(s[1..], p)
      case None => None
      case Some(k) => Some(k + 1)
  }

  /** FirstIndex finds an index whose element satisfies p and before which none does; None means none does. */
  lemma {:induction false} FirstIndexSpec<T>(s: seq<T>, p: T -> bool)
    ensures var r := FirstIndex(s, p);
      r.Some? ==> p(s[r.value]) && forall j :: 0 <= j < r.value ==> !p(s[j])
    ensures FirstIndex(s, p).None? <==> forall j :: 0 <= j < |s| ==> !p(s[j])
  {
    if s != [] && !p(s[0]) {
      FirstIndexSpec(s[1..], p);
      assert forall j :: 1 <= j < |s| ==> s[j] == s[1..][j - 1];
    }
  }

  predicate InterfaceMatches(i: InterfaceInfo, req: InterfaceRequest) {
    i.bInterfaceClass == req.bInterfaceClass
    && i.bInterfaceSubClass == req.bInterfaceSubClass
    && i.bInterfaceProtocol == req.bInterfaceProtocol
  }

  predicate PipeMatches(p: PipeInfo, req: EndpointRequest) {
    p.transferType == req.transferType && p.direction == req.direction
  }

  /** FindNextInterface(nullptr, req): the first interface of the device matching the triple. */
  function FindNextInterface(d: DeviceInfo, req: InterfaceRequest): Option<InterfaceInfo>
  {
    match FirstIndex(d.interfaces, i => InterfaceMatches(i, req))
    case None => None
    case Some(k) => Some(d.interfaces[k])
  }

  /** The interface found matches, and every interface before it does not; None means that none matches. */
  lemma FindNextInterfaceSpec(d: DeviceInfo, req: InterfaceRequest)
    ensures var r := FindNextInterface(d, req);
      r.Some? ==>
        && InterfaceMatches(r.value, req)
        && exists k :: 0 <= k < |d.interfaces| && d.interfaces[k] == r.value
                       && forall j :: 0 <= j < k ==> !InterfaceMatches(d.interfaces[j], req)
    ensures FindNextInterface(d, req).None? <==> forall j :: 0 <= j < |d.interfaces| ==> !InterfaceMatches(d.interfaces[j], req)
  {
    FirstIndexSpec(d.interfaces, i => InterfaceMatches(i, req));
  }

  /** FindNextPipe(nullptr, req): the first pipe of the interface with that type and direction. */
  function FindNextPipe(i: InterfaceInfo, req: EndpointRequest): Option<PipeInfo>
  {
    match FirstIndex(i.pipes, p => PipeMatches(p, req))
    case None => None
    case Some(k) => Some(i.pipes[k])
  }

  /** The pipe found has the type and direction asked for, and no pipe before it has; None means that none has. */
  lemma FindNextPipeSpec(i: InterfaceInfo, req: EndpointRequest)
    ensures var r := FindNextPipe(i, req);
      r.Some? ==>
        && PipeMatches(r.value, req)
        && exists k :: 0 <= k < |i.pipes| && i.pipes[k] == r.value
                       && forall j :: 0 <= j < k ==> !PipeMatches(i.pipes[j], req)
    ensures FindNextPipe(i, req).None? <==> forall j :: 0 <= j < |i.pipes| ==> !PipeMatches(i.pipes[j], req)
  {
    FirstIndexSpec(i.pipes, p => PipeMatches(p, req));
  }
}
