/**
 * The attach sequence of the driver as a table of steps.  Each step either
 * succeeds or fails according to the backend (the provider and the outcomes of
 * the calls made on it); the first failing step ends the attach, and then the
 * session gives back every handle it holds.  `AttachTrace` is the resulting
 * record of events, and the lemmas below say what that record guarantees: a
 * failed attach leaves nothing held and releases exactly what it acquired, a
 * successful one holds all five handles, and the first read is armed only
 * after the hello message was written successfully.
 */
module Attach {
  import opened Wrappers
  import opened ControllerPacket
  import opened UsbModel
  import opened SessionLog

  /** The two bytes that make the controller start sending reports. */
  const HelloMessage: seq<byte> := [0x05, 0x20]

  /** Vendor-specific class 0xff, subclass 0x47, protocol 0xd0. */
  const ControllerInterfaceRequest := InterfaceRequest(0xff, 0x47, 0xd0)
  const PipeFromControllerRequest := EndpointRequest(Interrupt, In)
  const PipeToControllerRequest := EndpointRequest(Interrupt, Out)

  /** The outcomes of the calls the attach sequence makes. */
  datatype Backend = Backend(
    superStartOk: bool,
    provider: Provider,
    readBufferAllocates: bool,
    helloAllocates: bool,
    writeStatus: IOReturn,
    readStatus: IOReturn)

  datatype Step =
    | SuperStart
    | CastProvider
    | OpenDevice
    | CountConfigurations
    | GetConfiguration
    | ConfigureDevice
    | FindInterface
    | OpenInterface
    | FindPipeFromController
    | FindPipeToController
    | GetEndpointDescriptor
    | AllocateReadBuffer
    | AllocateHello
    | WriteHello
    | BeginRead

  const StepCount: nat := 15

  /** The position of a step in the attach sequence. */
  function StepIndex(s: Step): (i: nat)
    ensures i < StepCount
  {
    match s
    case SuperStart => 0
    case CastProvider => 1
    case OpenDevice => 2
    case CountConfigurations => 3
    case GetConfiguration => 4
    case ConfigureDevice => 5
    case FindInterface => 6
    case OpenInterface => 7
    case FindPipeFromController => 8
    case FindPipeToController => 9
    case GetEndpointDescriptor => 10
    case AllocateReadBuffer => 11
    case AllocateHello => 12
    case WriteHello => 13
    case BeginRead => 14
  }

  function StepAt(i: nat): (s: Step)
    requires i < StepCount
    ensures StepIndex(s) == i
  {
    if i == 0 then SuperStart
    else if i == 1 then CastProvider
    else if i == 2 then OpenDevice
    else if i == 3 then CountConfigurations
    else if i == 4 then GetConfiguration
    else if i == 5 then ConfigureDevice
    else if i == 6 then FindInterface
    else if i == 7 then OpenInterface
    else if i == 8 then FindPipeFromController
    else if i == 9 then FindPipeToController
    else if i == 10 then GetEndpointDescriptor
    else if i == 11 then AllocateReadBuffer
    else if i == 12 then AllocateHello
    else if i == 13 then WriteHello
    else BeginRead
  }

  lemma StepAtIndex()
    ensures forall s :: StepAt(StepIndex(s)) == s
  {
    forall s ensures StepAt(StepIndex(s)) == s {
      match s
      case SuperStart =>
      case CastProvider =>
      case OpenDevice =>
      case CountConfigurations =>
      case GetConfiguration =>
      case ConfigureDevice =>
      case FindInterface =>
      case OpenInterface =>
      case FindPipeFromController =>
      case FindPipeToController =>
      case GetEndpointDescriptor =>
      case AllocateReadBuffer =>
      case AllocateHello =>
      case WriteHello =>
      case BeginRead =>
    }
  }

  // ---------------------------------------------------------------------------
  // What each lookup returns

  function DeviceOf(b: Backend): Option<DeviceInfo> {
    if b.provider.UsbDevice? then Some(b.provider.device) else None
  }

  function InterfaceOf(b: Backend): Option<InterfaceInfo> {
    match DeviceOf(b)
    case None => None
    case Some(d) => FindNextInterface(d, ControllerInterfaceRequest)
  }

  function PipeOf(b: Backend, req: EndpointRequest): Option<PipeInfo> {
    match InterfaceOf(b)
    case None => None
    case Some(i) => FindNextPipe(i, req)
  }

  function EndpointOf(b: Backend): Option<EndpointDescriptor> {
    match PipeOf(b, PipeFromControllerRequest)
    case None => None
    case Some(p) => p.endpoint
  }

  /** wMaxPacketSize of the pipe from the controller (0 when there is no descriptor). */
  function MaxPacketSize(b: Backend): nat {
    match EndpointOf(b)
    case None => 0
    case Some(e) => e.wMaxPacketSize as nat
  }

  function ConfigurationValue(b: Backend): byte {
    match DeviceOf(b)
    case Some(d) =>
      (match d.configuration
       case Some(c) => c.bConfigurationValue
       case None => 0)
    case None => 0
  }

  /** Whether a step succeeds, given that the steps before it did. */
  predicate Succeeds(b: Backend, s: Step) {
    match s
    case SuperStart => b.superStartOk
    case CastProvider => DeviceOf(b).Some?
    case OpenDevice => DeviceOf(b).Some? && DeviceOf(b).value.opens
    case CountConfigurations => DeviceOf(b).Some? && DeviceOf(b).value.numConfigurations == 1
    case GetConfiguration => DeviceOf(b).Some? && DeviceOf(b).value.configuration.Some?
    case ConfigureDevice => DeviceOf(b).Some? && DeviceOf(b).value.setConfigurationStatus == Success
    case FindInterface => InterfaceOf(b).Some?
    case OpenInterface => InterfaceOf(b).Some? && InterfaceOf(b).value.opens
    case FindPipeFromController => PipeOf(b, PipeFromControllerRequest).Some?
    case FindPipeToController => PipeOf(b, PipeToControllerRequest).Some?
    case GetEndpointDescriptor => EndpointOf(b).Some?
    case AllocateReadBuffer => b.readBufferAllocates
    case AllocateHello => b.helloAllocates
    case WriteHello => b.writeStatus == Success
    case BeginRead => b.readStatus == Success
  }


  /** The step whose success stores a handle in the session. */
  function AcquiringStep(r: Resource): Step {
    match r
    case Device => OpenDevice
    case Interface => FindInterface
    case PipeFromController => FindPipeFromController
    case PipeToController => FindPipeToController
    case ReadBuffer => AllocateReadBuffer
  }

  /** The handle a step stores, if it is a storing step and succeeds. */
  function Gained(b: Backend, s: Step): (r: Option<Resource>)
    ensures r.Some? ==> AcquiringStep(r.value) == s && Succeeds(b, s)
    ensures r.None? ==> forall x :: !(AcquiringStep(x) == s && Succeeds(b, s))
  {
    if !Succeeds(b, s) then None
    else match s
      case OpenDevice => Some(Device)
      case FindInterface => Some(Interface)
      case FindPipeFromController => Some(PipeFromController)
      case FindPipeToController => Some(PipeToController)
      case AllocateReadBuffer => Some(ReadBuffer)
      case _ => None
  }

  /** The events of one step of the sequence, whether it succeeds or not. */
  function StepEvents(b: Backend, s: Step): seq<Event> {
    match s
    case ConfigureDevice => [SetConfiguration(ConfigurationValue(b))]
    case WriteHello => [Write(HelloMessage, 0, 0)]
    case BeginRead => [Read(MaxPacketSize(b), 0, 0)]
    case _ =>
      (match Gained(b, s)
       case Some(r) => [Acquire(r)]
       case None => [])
  }

  /**
   * A step that stores a handle logs just its acquisition, and every other
   * step takes and gives back nothing; the hello message is the only write
   * and the first read the only read.
   */
  lemma StepEventsShape(b: Backend, s: Step)
    ensures Gained(b, s).Some? ==> StepEvents(b, s) == [Acquire(Gained(b, s).value)]
    ensures Gained(b, s).None? ==> HandleFree(StepEvents(b, s))
    ensures forall e :: e in StepEvents(b, s) && e.Write? ==> s == WriteHello && e == Write(HelloMessage, 0, 0)
    ensures forall e :: e in StepEvents(b, s) && e.Read? ==> s == BeginRead && e == Read(MaxPacketSize(b), 0, 0)
  {
  }

  // ---------------------------------------------------------------------------
  // The first failing step

  /** Every step before position n succeeds. */
  ghost predicate PassedThrough(b: Backend, n: nat) {
    forall s :: StepIndex(s) < n ==> Succeeds(b, s)
  }

  /** The first failing step at position i or later. */
  function FirstFailureFrom(b: Backend, i: nat): Option<Step>
    decreases StepCount - i
  {
    if i >= StepCount then None
    else if !Succeeds(b, StepAt(i)) then Some(StepAt(i))
    else FirstFailureFrom(b, i + 1)
  }

  /** FirstFailureFrom finds the first failing step in sequence order, and None means that none fails. */
  lemma {:induction false} FirstFailureFromSpec(b: Backend, i: nat)
    ensures var r := FirstFailureFrom(b, i);
      r.Some? ==> i <= StepIndex(r.value) && !Succeeds(b, r.value)
    ensures var r := FirstFailureFrom(b, i);
      r.Some? ==> forall s :: i <= StepIndex(s) < StepIndex(r.value) ==> Succeeds(b, s)
    ensures FirstFailureFrom(b, i).None? <==> forall s :: i <= StepIndex(s) ==> Succeeds(b, s)
    decreases StepCount - i
  {
    StepAtIndex();
    if i < StepCount {
      if Succeeds(b, StepAt(i)) {
        FirstFailureFromSpec(b, i + 1);
        forall s | i <= StepIndex(s) && !Succeeds(b, s) ensures i + 1 <= StepIndex(s) {
          assert StepAt(StepIndex(s)) == s;
        }
      } else {
        assert !Succeeds(b, StepAt(i)) && StepIndex(StepAt(i)) == i;
      }
    }
  }

  /** The step at which the attach stops, or None when every step succeeds. */
  function FirstFailure(b: Backend): Option<Step> {
    FirstFailureFrom(b, 0)
  }

  predicate AttachSucceeds(b: Backend) {
    FirstFailure(b).None?
  }

  /** A step that fails after all earlier ones succeeded is where the attach stops. */
  lemma FirstFailureAt(b: Backend, s: Step)
    requires PassedThrough(b, StepIndex(s)) && !Succeeds(b, s)
    ensures FirstFailure(b) == Some(s)
  {
    StepAtIndex();
    FirstFailureFromSpec(b, 0);
  }

  lemma Pass(b: Backend, s: Step)
    requires PassedThrough(b, StepIndex(s)) && Succeeds(b, s)
    ensures PassedThrough(b, StepIndex(s) + 1)
  {
    StepAtIndex();
    forall t | StepIndex(t) < StepIndex(s) + 1 ensures Succeeds(b, t) {
      if StepIndex(t) == StepIndex(s) {
        assert StepAt(StepIndex(t)) == t && StepAt(StepIndex(s)) == s;
      }
    }
  }

  lemma AllPassed(b: Backend)
    requires PassedThrough(b, StepCount)
    ensures AttachSucceeds(b)
  {
    FirstFailureFromSpec(b, 0);
  }

  // ---------------------------------------------------------------------------
  // The record of an attach

  /** The events of the first n steps. */
  function EventsThrough(b: Backend, n: nat): seq<Event>
    requires n <= StepCount
  {
    if n == 0 then [] else EventsThrough(b, n - 1) + StepEvents(b, StepAt(n - 1))
  }

  /** The order in which releaseEverything gives handles back. */
  const ReleaseOrder: seq<Resource> := [Device, Interface, PipeFromController, PipeToController, ReadBuffer]

  /** Go through order, releasing each handle that is held. */
  function ReleaseIn(held: set<Resource>, order: seq<Resource>): seq<Event>
    decreases |order|
  {
    if order == [] then []
    else (if order[0] in held then [Release(order[0])] else []) + ReleaseIn(held - {order[0]}, order[1..])
  }

  /** releaseEverything: one release per held handle. */
  function ReleaseTrace(held: set<Resource>): seq<Event> {
    ReleaseIn(held, ReleaseOrder)
  }

  /** handleStart: the steps up to the first failure, then the rollback of whatever is held. */
  function AttachTrace(b: Backend): seq<Event> {
    match FirstFailure(b)
    case None => EventsThrough(b, StepCount)
    case Some(s) =>
      var acquired := EventsThrough(b, StepIndex(s) + 1);
      acquired + ReleaseTrace(HeldAfter({}, acquired))
  }

  /** The handles stored by the first n steps. */
  ghost function AcquiredBy(b: Backend, n: nat): set<Resource> {
    set r | r in AllResources && StepIndex(AcquiringStep(r)) < n && Succeeds(b, AcquiringStep(r))
  }

  lemma ResourcesAreAll(r: Resource)
    ensures r in AllResources && r in ReleaseOrder
  {
  }

  lemma AcquiredByNext(b: Backend, n: nat)
    requires 0 < n <= StepCount
    ensures Gained(b, StepAt(n - 1)).Some? ==>
      && Gained(b, StepAt(n - 1)).value !in AcquiredBy(b, n - 1)
      && AcquiredBy(b, n) == AcquiredBy(b, n - 1) + {Gained(b, StepAt(n - 1)).value}
    ensures Gained(b, StepAt(n - 1)).None? ==> AcquiredBy(b, n) == AcquiredBy(b, n - 1)
  {
    StepAtIndex();
    var g := Gained(b, StepAt(n - 1));
    forall r ensures r in AcquiredBy(b, n) <==> r in AcquiredBy(b, n - 1) || (g.Some? && r == g.value) {
      ResourcesAreAll(r);
      if StepIndex(AcquiringStep(r)) == n - 1 {
        assert StepAt(StepIndex(AcquiringStep(r))) == AcquiringStep(r);
      }
    }
  }

  /** The handles the first n steps store when each of them succeeds (the storing steps are at 2, 6, 8, 9 and 11). */
  function StoredBy(n: nat): set<Resource> {
    (if 2 < n then {Device} else {})
    + (if 6 < n then {Interface} else {})
    + (if 8 < n then {PipeFromController} else {})
    + (if 9 < n then {PipeToController} else {})
    + (if 11 < n then {ReadBuffer} else {})
  }

  lemma PassedAcquired(b: Backend, n: nat)
    requires PassedThrough(b, n)
    ensures AcquiredBy(b, n) == StoredBy(n)
  {
    forall r ensures r in AcquiredBy(b, n) <==> r in StoredBy(n) {
      ResourcesAreAll(r);
      if StepIndex(AcquiringStep(r)) < n {
        assert Succeeds(b, AcquiringStep(r));
      }
    }
  }

  lemma {:induction false} EventsThroughHeld(b: Backend, n: nat)
    requires n <= StepCount
    ensures Bracketed({}, EventsThrough(b, n))
    ensures HeldAfter({}, EventsThrough(b, n)) == AcquiredBy(b, n)
    ensures forall r :: Acquire(r) in EventsThrough(b, n) <==> r in AcquiredBy(b, n)
    ensures forall r :: Release(r) !in EventsThrough(b, n)
  {
    if n == 0 {
      assert AcquiredBy(b, 0) == {};
    } else {
      EventsThroughHeld(b, n - 1);
      AcquiredByNext(b, n);
      var before := EventsThrough(b, n - 1);
      var ev := StepEvents(b, StepAt(n - 1));
      StepEventsShape(b, StepAt(n - 1));
      assert EventsThrough(b, n) == before + ev;
      match Gained(b, StepAt(n - 1))
      case Some(r) =>
        Extend({}, before, Acquire(r));
      case None =>
        HeldAfterAppend({}, before, ev);
        BracketedAppend({}, before, ev);
        HandleFreeKeeps(AcquiredBy(b, n - 1), ev);
    }
  }

  lemma ReleaseOne(held: set<Resource>, r: Resource)
    ensures var t := if r in held then [Release(r)] else [];
      Bracketed(held, t) && HeldAfter(held, t) == held - {r}
  {
    if r in held {
      assert [Release(r)][1..] == [];
    }
  }

  lemma {:induction false} ReleaseInEmpties(held: set<Resource>, order: seq<Resource>)
    ensures Bracketed(held, ReleaseIn(held, order))
    ensures forall r :: r in HeldAfter(held, ReleaseIn(held, order)) <==> r in held && r !in order
    ensures forall r :: Release(r) in ReleaseIn(held, order) <==> r in held && r in order
    ensures forall e :: e in ReleaseIn(held, order) ==> e.Release?
    decreases |order|
  {
    if order != [] {
      var r0 := order[0];
      var one := if r0 in held then [Release(r0)] else [];
      var rest := ReleaseIn(held - {r0}, order[1..]);
      ReleaseOne(held, r0);
      ReleaseInEmpties(held - {r0}, order[1..]);
      HeldAfterAppend(held, one, rest);
      BracketedAppend(held, one, rest);
      assert order == [r0] + order[1..];
    }
  }

  /**
   * The attach has got through its first k steps, and l is log0 (which
   * holds nothing) followed by their events.
   */
  ghost predicate Reached(b: Backend, k: nat, log0: seq<Event>, l: seq<Event>) {
    && k <= StepCount
    && PassedThrough(b, k)
    && FirstFailure(b) == FirstFailureFrom(b, k)
    && Bracketed({}, log0) && HeldAfter({}, log0) == {}
    && l == log0 + EventsThrough(b, k)
  }

  /** As Reached through k, with the events of step k appended as well. */
  ghost predicate Logged(b: Backend, k: nat, log0: seq<Event>, l: seq<Event>) {
    && k < StepCount
    && PassedThrough(b, k)
    && FirstFailure(b) == FirstFailureFrom(b, k)
    && Bracketed({}, log0) && HeldAfter({}, log0) == {}
    && l == log0 + EventsThrough(b, k + 1)
  }

  lemma StepLogged(b: Backend, k: nat, log0: seq<Event>, before: seq<Event>, after: seq<Event>)
    requires k < StepCount && Reached(b, k, log0, before)
    requires after == before + StepEvents(b, StepAt(k))
    ensures Logged(b, k, log0, after)
  {
  }

  /** What a logged step leaves held: its own handle too when it succeeds. */
  lemma LoggedHeld(b: Backend, k: nat, log0: seq<Event>, l: seq<Event>)
    requires Logged(b, k, log0, l)
    ensures Bracketed({}, l)
    ensures HeldAfter({}, l) == if Succeeds(b, StepAt(k)) then StoredBy(k + 1) else StoredBy(k)
  {
    EventsThroughHeld(b, k + 1);
    BracketedAppend({}, log0, EventsThrough(b, k + 1));
    HeldAfterAppend({}, log0, EventsThrough(b, k + 1));
    if Succeeds(b, StepAt(k)) {
      Pass(b, StepAt(k));
      PassedAcquired(b, k + 1);
    } else {
      AcquiredByNext(b, k + 1);
      PassedAcquired(b, k);
    }
  }

  /** A step whose failure appends no event: only storing and checking steps. */
  predicate Quiet(s: Step) {
    s != ConfigureDevice && s != WriteHello && s != BeginRead
  }

  lemma QuietFailure(b: Backend, s: Step)
    requires Quiet(s) && !Succeeds(b, s)
    ensures StepEvents(b, s) == []
  {
  }

  /** Releasing what is held leaves nothing held and releases each held handle. */
  lemma ReleaseTraceEmpties(held: set<Resource>)
    ensures Bracketed(held, ReleaseTrace(held))
    ensures HeldAfter(held, ReleaseTrace(held)) == {}
    ensures forall r :: Release(r) in ReleaseTrace(held) <==> r in held
    ensures forall e :: e in ReleaseTrace(held) ==> e.Release?
  {
    ReleaseInEmpties(held, ReleaseOrder);
    forall r ensures r in ReleaseOrder {
      ResourcesAreAll(r);
    }
  }

  // ---------------------------------------------------------------------------
  // What an attach guarantees

  /** When every step succeeds, the steps store all five handles. */
  lemma AllStepsHold(b: Backend)
    requires AttachSucceeds(b)
    ensures Bracketed({}, EventsThrough(b, StepCount))
    ensures HeldAfter({}, EventsThrough(b, StepCount)) == AllResources
  {
    FirstFailureFromSpec(b, 0);
    EventsThroughHeld(b, StepCount);
    forall r ensures r in AcquiredBy(b, StepCount) {
      ResourcesAreAll(r);
    }
  }

  /** The events of some first steps followed by the release of what they leave held hold nothing. */
  lemma RolledBack(b: Backend, n: nat, t: seq<Event>)
    requires n <= StepCount && t == EventsThrough(b, n) + ReleaseTrace(HeldAfter({}, EventsThrough(b, n)))
    ensures Bracketed({}, t) && HeldAfter({}, t) == {}
  {
    var acquired := EventsThrough(b, n);
    EventsThroughHeld(b, n);
    var h := HeldAfter({}, acquired);
    ReleaseTraceEmpties(h);
    HeldAfterAppend({}, acquired, ReleaseTrace(h));
    BracketedAppend({}, acquired, ReleaseTrace(h));
  }

  /** A failed attach leaves no handle held; a successful one holds all five. Nothing is released twice. */
  lemma AttachTraceHeld(b: Backend)
    ensures Bracketed({}, AttachTrace(b))
    ensures HeldAfter({}, AttachTrace(b)) == if AttachSucceeds(b) then AllResources else {}
  {
    match FirstFailure(b)
    case None =>
      AllStepsHold(b);
    case Some(s) =>
      AttachTraceFailed(b, s);
      RolledBack(b, StepIndex(s) + 1, AttachTrace(b));
  }

  /** Before a failure at k, a handle is stored exactly when its step comes earlier than k. */
  lemma AcquiredBeforeFailure(b: Backend, k: Step, r: Resource)
    requires FirstFailure(b) == Some(k)
    ensures r in AcquiredBy(b, StepIndex(k) + 1) <==> StepIndex(AcquiringStep(r)) < StepIndex(k)
  {
    ResourcesAreAll(r);
    FirstFailureFromSpec(b, 0);
    if StepIndex(AcquiringStep(r)) == StepIndex(k) {
      StepAtIndex();
      assert StepAt(StepIndex(AcquiringStep(r))) == AcquiringStep(r);
      assert AcquiringStep(r) == k;
    }
  }

  lemma AttachTraceFailed(b: Backend, k: Step)
    requires FirstFailure(b) == Some(k)
    ensures AttachTrace(b) == EventsThrough(b, StepIndex(k) + 1) + ReleaseTrace(HeldAfter({}, EventsThrough(b, StepIndex(k) + 1)))
  {
  }

  /** When the attach fails at step k, it acquired and then released exactly the handles of the steps before k. */
  lemma RollbackReleasesExactlyAcquired(b: Backend, k: Step)
    requires FirstFailure(b) == Some(k)
    ensures forall r :: Acquire(r) in AttachTrace(b) <==> StepIndex(AcquiringStep(r)) < StepIndex(k)
    ensures forall r :: Release(r) in AttachTrace(b) <==> StepIndex(AcquiringStep(r)) < StepIndex(k)
  {
    var acquired := EventsThrough(b, StepIndex(k) + 1);
    EventsThroughHeld(b, StepIndex(k) + 1);
    var h := HeldAfter({}, acquired);
    ReleaseTraceEmpties(h);
    AttachTraceFailed(b, k);
    forall r
      ensures Acquire(r) in AttachTrace(b) <==> StepIndex(AcquiringStep(r)) < StepIndex(k)
      ensures Release(r) in AttachTrace(b) <==> StepIndex(AcquiringStep(r)) < StepIndex(k)
    {
      AcquiredBeforeFailure(b, k, r);
    }
  }

  /** Every step succeeds exactly when every call succeeds and the device has exactly one configuration. */
  predicate EveryCallSucceeds(b: Backend) {
    && b.superStartOk
    && b.provider.UsbDevice?
    && b.provider.device.opens
    && b.provider.device.numConfigurations == 1
    && b.provider.device.configuration.Some?
    && b.provider.device.setConfigurationStatus == Success
    && InterfaceOf(b).Some?
    && InterfaceOf(b).value.opens
    && PipeOf(b, PipeFromControllerRequest).Some?
    && PipeOf(b, PipeToControllerRequest).Some?
    && PipeOf(b, PipeFromControllerRequest).value.endpoint.Some?
    && b.readBufferAllocates
    && b.helloAllocates
    && b.writeStatus == Success
    && b.readStatus == Success
  }

  lemma StepsSucceedCalls(b: Backend)
    requires forall s :: Succeeds(b, s)
    ensures EveryCallSucceeds(b)
  {
    assert Succeeds(b, SuperStart) && Succeeds(b, CastProvider) && Succeeds(b, OpenDevice);
    assert Succeeds(b, CountConfigurations) && Succeeds(b, GetConfiguration) && Succeeds(b, ConfigureDevice);
    var d := b.provider.device;
    assert d.opens && d.numConfigurations == 1 && d.configuration.Some? && d.setConfigurationStatus == Success;
    assert Succeeds(b, FindInterface) && Succeeds(b, OpenInterface);
    var i := FindNextInterface(d, ControllerInterfaceRequest);
    assert InterfaceOf(b) == i && i.Some? && i.value.opens;
    assert Succeeds(b, FindPipeFromController) && Succeeds(b, FindPipeToController);
    assert Succeeds(b, GetEndpointDescriptor);
    assert PipeOf(b, PipeFromControllerRequest).value.endpoint.Some?;
    assert Succeeds(b, AllocateReadBuffer) && Succeeds(b, AllocateHello) && Succeeds(b, WriteHello) && Succeeds(b, BeginRead);
  }

  lemma CallsSucceedSteps(b: Backend)
    requires EveryCallSucceeds(b)
    ensures forall s :: Succeeds(b, s)
  {
  }

  /** The attach succeeds exactly when every call it makes succeeds and the device has exactly one configuration. */
  lemma AttachSucceedsIff(b: Backend)
    ensures AttachSucceeds(b) <==> EveryCallSucceeds(b)
  {
    FirstFailureFromSpec(b, 0);
    if forall s :: Succeeds(b, s) {
      StepsSucceedCalls(b);
    }
    if EveryCallSucceeds(b) {
      CallsSucceedSteps(b);
    }
  }

  // ---------------------------------------------------------------------------
  // The hello message and the first read

  ghost predicate NoWriteOrRead(log: seq<Event>) {
    forall e :: e in log ==> !e.Write? && !e.Read?
  }

  lemma {:induction false} NoWriteOrReadBefore(b: Backend, n: nat)
    requires n <= StepIndex(WriteHello)
    ensures NoWriteOrRead(EventsThrough(b, n))
  {
    if n > 0 {
      NoWriteOrReadBefore(b, n - 1);
      StepEventsShape(b, StepAt(n - 1));
    }
  }

  /** Where the attach stops, every earlier step succeeded. */
  lemma StoppedAfterPassing(b: Backend, s: Step)
    requires FirstFailure(b) == Some(s)
    ensures PassedThrough(b, StepIndex(s)) && !Succeeds(b, s)
  {
    FirstFailureFromSpec(b, 0);
  }

  lemma ReleasesOnly(h: set<Resource>)
    ensures NoWriteOrRead(ReleaseTrace(h))
  {
    ReleaseTraceEmpties(h);
  }

  /** The record of an attach: the first m steps, then only releases. */
  lemma AttachTraceSplit(b: Backend) returns (m: nat, rel: seq<Event>)
    ensures 1 <= m <= StepCount
    ensures AttachTrace(b) == EventsThrough(b, m) + rel
    ensures NoWriteOrRead(rel)
    ensures PassedThrough(b, m - 1)
    ensures m < StepCount ==> !Succeeds(b, StepAt(m - 1))
  {
    match FirstFailure(b)
    case None =>
      FirstFailureFromSpec(b, 0);
      m, rel := StepCount, [];
    case Some(s) =>
      StoppedAfterPassing(b, s);
      m := StepIndex(s) + 1;
      rel := ReleaseTrace(HeldAfter({}, EventsThrough(b, m)));
      ReleasesOnly(HeldAfter({}, EventsThrough(b, m)));
      AttachTraceFailed(b, s);
      assert StepAt(StepIndex(s)) == s by {
        StepAtIndex();
      }
  }

  /** In pre + [w] + mid + rel, the only write is w, and every read is one of mid. */
  lemma TraceAroundWrite(t: seq<Event>, pre: seq<Event>, w: Event, mid: seq<Event>, rel: seq<Event>)
    requires t == pre + [w] + mid + rel
    requires NoWriteOrRead(pre) && NoWriteOrRead(rel) && w.Write?
    requires forall e :: e in mid ==> e.Read?
    ensures forall j :: 0 <= j < |t| && t[j].Write? ==> j == |pre|
    ensures forall j :: 0 <= j < |t| && t[j].Read? ==> |pre| < j && t[j] in mid
  {
    forall j | 0 <= j < |t|
      ensures (t[j].Write? ==> j == |pre|) && (t[j].Read? ==> |pre| < j && t[j] in mid)
    {
      if j < |pre| {
        assert t[j] == pre[j];
      } else if j == |pre| {
        assert t[j] == w;
      } else if j < |pre| + 1 + |mid| {
        assert t[j] == mid[j - |pre| - 1];
        assert mid[j - |pre| - 1] in mid;
      } else {
        assert t[j] == rel[j - |pre| - 1 - |mid|];
      }
    }
  }

  /**
   * In the record t of an attach, the hello message is written at most once,
   * with both timeouts zero, and before the read; a read is armed exactly when
   * every earlier step, the write included, succeeded, and it asks for
   * wMaxPacketSize bytes.
   */
  ghost predicate HelloOrdered(b: Backend, t: seq<Event>) {
    && (forall j :: 0 <= j < |t| && t[j].Read? ==>
          t[j] == Read(MaxPacketSize(b), 0, 0) && b.writeStatus == Success && Write(HelloMessage, 0, 0) in t[..j])
    && (forall i, j :: 0 <= i < j < |t| && t[i].Write? ==> !t[j].Write?)
    && ((exists j :: 0 <= j < |t| && t[j].Read?) <==> PassedThrough(b, StepIndex(BeginRead)))
  }

  /** The last two steps are the write of the hello message and the read. */
  lemma LastTwoSteps(b: Backend)
    ensures EventsThrough(b, StepIndex(BeginRead)) == EventsThrough(b, StepIndex(WriteHello)) + [Write(HelloMessage, 0, 0)]
    ensures EventsThrough(b, StepCount) == EventsThrough(b, StepIndex(BeginRead)) + [Read(MaxPacketSize(b), 0, 0)]
  {
    assert StepAt(StepIndex(WriteHello)) == WriteHello;
    assert StepAt(StepIndex(BeginRead)) == BeginRead;
  }

  lemma HelloStoppedEarly(b: Backend, m: nat, rel: seq<Event>, t: seq<Event>)
    requires 1 <= m <= StepIndex(WriteHello) && NoWriteOrRead(rel) && !Succeeds(b, StepAt(m - 1))
    requires t == EventsThrough(b, m) + rel
    ensures HelloOrdered(b, t)
  {
    NoWriteOrReadBefore(b, m);
    forall j | 0 <= j < |t| ensures !t[j].Read? && !t[j].Write? {
      assert t[j] in t;
    }
    assert StepIndex(StepAt(m - 1)) < StepIndex(BeginRead);
  }

  lemma HelloWriteFailed(b: Backend, pre: seq<Event>, rel: seq<Event>, t: seq<Event>)
    requires NoWriteOrRead(pre) && NoWriteOrRead(rel) && !Succeeds(b, WriteHello)
    requires t == pre + [Write(HelloMessage, 0, 0)] + [] + rel
    ensures HelloOrdered(b, t)
  {
    TraceAroundWrite(t, pre, Write(HelloMessage, 0, 0), [], rel);
  }

  lemma HelloAndRead(b: Backend, pre: seq<Event>, rel: seq<Event>, t: seq<Event>)
    requires NoWriteOrRead(pre) && NoWriteOrRead(rel) && PassedThrough(b, StepIndex(BeginRead))
    requires t == pre + [Write(HelloMessage, 0, 0)] + [Read(MaxPacketSize(b), 0, 0)] + rel
    ensures HelloOrdered(b, t)
  {
    var w := Write(HelloMessage, 0, 0);
    var rd := Read(MaxPacketSize(b), 0, 0);
    TraceAroundWrite(t, pre, w, [rd], rel);
    assert t[|pre| + 1].Read?;
    assert Succeeds(b, WriteHello);
    forall j | 0 <= j < |t| && t[j].Read?
      ensures t[j] == rd && w in t[..j]
    {
      assert t[j] in [rd];
      assert t[..j][|pre|] == w;
    }
  }

  lemma HelloCases(b: Backend, m: nat, rel: seq<Event>, t: seq<Event>)
    requires 1 <= m <= StepCount && t == EventsThrough(b, m) + rel && NoWriteOrRead(rel)
    requires PassedThrough(b, m - 1) && (m < StepCount ==> !Succeeds(b, StepAt(m - 1)))
    ensures HelloOrdered(b, t)
  {
    if m <= StepIndex(WriteHello) {
      HelloStoppedEarly(b, m, rel, t);
    } else {
      var pre := EventsThrough(b, StepIndex(WriteHello));
      NoWriteOrReadBefore(b, StepIndex(WriteHello));
      LastTwoSteps(b);
      if m == StepIndex(BeginRead) {
        assert StepAt(m - 1) == WriteHello;
        HelloWriteFailed(b, pre, rel, t);
      } else {
        HelloAndRead(b, pre, rel, t);
      }
    }
  }

  lemma HelloBeforeFirstRead(b: Backend)
    ensures HelloOrdered(b, AttachTrace(b))
  {
    var m, rel := AttachTraceSplit(b);
    HelloCases(b, m, rel, AttachTrace(b));
  }
}
