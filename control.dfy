/** What the control-transfer dispatcher does, as functions of the device
    state and the setup packet: routing to interfaces (interfaceRequest),
    descriptor selection (sendDescriptors), the standard requests of USB 2.0
    section 9.4 (setupRequest), the interrupt fan-out and the start() lifecycle. */
module Control {
  import opened UsbTypes
  import opened Descriptors

  /** What a control request can see of the device. */
  datatype DeviceState = DeviceState(
    interfaces: seq<Entry>,
    usbStatus: uint8,
    usbInitialised: uint8,
    strings: seq<Option<seq<uint8>>>,
    device: DeviceDescriptor,
    platform: Platform)

  /** Events and the status code of one sub-operation. */
  datatype Reply = Reply(events: seq<Event>, result: int)

  // ---- interfaceRequest ----

  /** The interface index (destination interface: wIndex & 0xff) and the
      endpoint number (destination endpoint: wIndex & 0x7f) a request names;
      -1 where it names none. */
  function RouteTarget(setup: Setup): (t: (int, int))
    ensures t.0 == -1 || t.1 == -1
    ensures t.0 == -1 || 0 <= t.0 < 256
    ensures t.1 == -1 || 0 <= t.1 < 128
  {
    if Destination(setup.bmRequestType) == REQ_INTERFACE then (setup.wIndex % 256, -1)
    else if Destination(setup.bmRequestType) == REQ_ENDPOINT then (-1, setup.wIndex % 128)
    else (-1, -1)
  }

  predicate Matches(e: Entry, ifaceIdx: int, epIdx: int)
  {
    e.interfaceIdx == ifaceIdx
    || (e.inEp.Some? && e.inEp.value.ep == epIdx)
    || (e.outEp.Some? && e.outEp.value.ep == epIdx)
  }

  /** The search from registry position i on: every matching interface's
      handler is called in order until one answers DEVICE_OK. */
  function RouteFrom(es: seq<Entry>, results: seq<int>, i: nat, ifaceIdx: int, epIdx: int, kind: HandlerKind): (r: Reply)
    requires |results| == |es| && i <= |es|
    ensures r.result == DEVICE_OK || r.result == DEVICE_NOT_SUPPORTED
    ensures |r.events| <= |es| - i
    ensures forall k :: 0 <= k < |r.events| ==>
              r.events[k].Handler? && r.events[k].kind == kind && i <= r.events[k].position < |es|
    ensures forall a, b :: 0 <= a < b < |r.events| ==> r.events[a].position < r.events[b].position
    decreases |es| - i
  {
    if i == |es| then Reply([], DEVICE_NOT_SUPPORTED)
    else if Matches(es[i], ifaceIdx, epIdx) then
      if results[i] == DEVICE_OK then Reply([Handler(i, kind)], DEVICE_OK)
      else
        var rest := RouteFrom(es, results, i + 1, ifaceIdx, epIdx, kind);
        Reply([Handler(i, kind)] + rest.events, rest.result)
    else RouteFrom(es, results, i + 1, ifaceIdx, epIdx, kind)
  }

  function Kind(isClass: bool): HandlerKind
  {
    if isClass then ClassRequest else StdRequest
  }

  /** interfaceRequest(setup, isClass); results[i] is what interface i's
      handler answers to this packet. */
  function Route(setup: Setup, es: seq<Entry>, results: seq<int>, isClass: bool): (r: Reply)
    requires |results| == |es|
    ensures r.result == DEVICE_OK || r.result == DEVICE_NOT_SUPPORTED
    ensures |r.events| <= |es|
    ensures forall k :: 0 <= k < |r.events| ==>
              r.events[k].Handler? && r.events[k].kind == Kind(isClass) && r.events[k].position < |es|
    ensures forall a, b :: 0 <= a < b < |r.events| ==> r.events[a].position < r.events[b].position
  {
    var t := RouteTarget(setup);
    RouteFrom(es, results, 0, t.0, t.1, Kind(isClass))
  }

  /** Reference for the search: the handler calls of the matching interfaces
      at positions lo .. hi - 1, in registration order. */
  function Candidates(es: seq<Entry>, ifaceIdx: int, epIdx: int, kind: HandlerKind, lo: nat, hi: nat): seq<Event>
    requires lo <= hi <= |es|
    decreases hi - lo
  {
    if lo == hi then []
    else (if Matches(es[lo], ifaceIdx, epIdx) then [Handler(lo, kind)] else [])
         + Candidates(es, ifaceIdx, epIdx, kind, lo + 1, hi)
  }

  predicate Accepts(es: seq<Entry>, results: seq<int>, ifaceIdx: int, epIdx: int, j: nat)
    requires |results| == |es| && j < |es|
  {
    Matches(es[j], ifaceIdx, epIdx) && results[j] == DEVICE_OK
  }

  /** Reference for the search's stopping point: the position of the first
      interface from i on that the request targets and that accepts, or |es|
      when there is none. */
  function FirstAccept(es: seq<Entry>, results: seq<int>, i: nat, ifaceIdx: int, epIdx: int): (j: nat)
    requires |results| == |es| && i <= |es|
    ensures i <= j <= |es|
    ensures j < |es| ==> Accepts(es, results, ifaceIdx, epIdx, j)
    ensures forall l :: i <= l < j ==> !Accepts(es, results, ifaceIdx, epIdx, l)
    decreases |es| - i
  {
    if i == |es| then |es|
    else if Accepts(es, results, ifaceIdx, epIdx, i) then i
    else FirstAccept(es, results, i + 1, ifaceIdx, epIdx)
  }

  /** The search from i on succeeds exactly when it reaches an accepting
      interface, and it calls the targeted handlers in order up to and
      including that one, or all of them when none accepts. */
  lemma {:induction false} RouteFromSpec(es: seq<Entry>, results: seq<int>, i: nat, ifaceIdx: int, epIdx: int, kind: HandlerKind)
    requires |results| == |es| && i <= |es|
    ensures var r, f := RouteFrom(es, results, i, ifaceIdx, epIdx, kind), FirstAccept(es, results, i, ifaceIdx, epIdx);
      && r.result == (if f < |es| then DEVICE_OK else DEVICE_NOT_SUPPORTED)
      && r.events == Candidates(es, ifaceIdx, epIdx, kind, i, if f < |es| then f + 1 else |es|)
    decreases |es| - i
  {
    if i < |es| {
      if Accepts(es, results, ifaceIdx, epIdx, i) {
        assert Candidates(es, ifaceIdx, epIdx, kind, i + 1, i + 1) == [];
      } else {
        RouteFromSpec(es, results, i + 1, ifaceIdx, epIdx, kind);
      }
    }
  }

  /** interfaceRequest in terms of the reference: DEVICE_OK exactly when a
      targeted interface accepts, DEVICE_NOT_SUPPORTED otherwise; the first
      accepting interface in registration order ends the search. */
  lemma RouteSpec(setup: Setup, es: seq<Entry>, results: seq<int>, isClass: bool)
    requires |results| == |es|
    ensures var r, t := Route(setup, es, results, isClass), RouteTarget(setup);
      && (r.result == DEVICE_OK || r.result == DEVICE_NOT_SUPPORTED)
      && (r.result == DEVICE_OK <==> exists j :: 0 <= j < |es| && Accepts(es, results, t.0, t.1, j))
      && (forall j :: 0 <= j < |es| && Accepts(es, results, t.0, t.1, j)
            && (forall l :: 0 <= l < j ==> !Accepts(es, results, t.0, t.1, l))
            ==> r.events == Candidates(es, t.0, t.1, Kind(isClass), 0, j + 1))
      && ((forall j :: 0 <= j < |es| ==> !Accepts(es, results, t.0, t.1, j))
            ==> r.events == Candidates(es, t.0, t.1, Kind(isClass), 0, |es|))
  {
    var t := RouteTarget(setup);
    var f := FirstAccept(es, results, 0, t.0, t.1);
    RouteFromSpec(es, results, 0, t.0, t.1, Kind(isClass));
    if f < |es| {
      assert Accepts(es, results, t.0, t.1, f);
    }
    forall j | 0 <= j < |es| && Accepts(es, results, t.0, t.1, j)
        && (forall l :: 0 <= l < j ==> !Accepts(es, results, t.0, t.1, l))
      ensures j == f
    {
    }
  }

  /** A handler is called only for an interface the request targets. */
  lemma {:induction false} CandidatesMatch(es: seq<Entry>, ifaceIdx: int, epIdx: int, kind: HandlerKind, lo: nat, hi: nat)
    requires lo <= hi <= |es|
    ensures forall e :: e in Candidates(es, ifaceIdx, epIdx, kind, lo, hi) ==>
              e.Handler? && e.kind == kind && lo <= e.position < hi && Matches(es[e.position], ifaceIdx, epIdx)
    ensures forall j :: lo <= j < hi && Matches(es[j], ifaceIdx, epIdx) ==>
              Handler(j, kind) in Candidates(es, ifaceIdx, epIdx, kind, lo, hi)
    decreases hi - lo
  {
    if lo < hi {
      CandidatesMatch(es, ifaceIdx, epIdx, kind, lo + 1, hi);
    }
  }

  // ---- CLEAR_FEATURE on an endpoint ----

  /** The interface has an IN endpoint with number ep. */
  predicate HasIn(e: Entry, ep: int)
  {
    e.inEp.Some? && e.inEp.value.ep == ep
  }

  /** The interface has an OUT endpoint with number ep. */
  predicate HasOut(e: Entry, ep: int)
  {
    e.outEp.Some? && e.outEp.value.ep == ep
  }

  /** clearStall() for each interface from position i on whose IN (or else
      OUT) endpoint has number ep. */
  function ClearStallsFrom(es: seq<Entry>, ep: int, i: nat): (r: seq<Event>)
    requires i <= |es|
    ensures |r| <= |es| - i
    ensures forall k :: 0 <= k < |r| ==> r[k].ClearStall? && r[k].ep == ep
    decreases |es| - i
  {
    if i == |es| then []
    else
      (if HasIn(es[i], ep) then [ClearStall(es[i].inEp.value.ep, true)]
       else if HasOut(es[i], ep) then [ClearStall(es[i].outEp.value.ep, false)]
       else [])
      + ClearStallsFrom(es, ep, i + 1)
  }

  /** Both directions of what the loop clears: an IN stall is cleared exactly
      when some interface has an IN endpoint numbered ep, an OUT stall exactly
      when some interface has an OUT endpoint numbered ep and no IN endpoint
      of that number. */
  lemma {:induction false} ClearStallsExact(es: seq<Entry>, ep: uint8, i: nat)
    requires i <= |es|
    ensures (ClearStall(ep, true) in ClearStallsFrom(es, ep, i))
            <==> exists k :: i <= k < |es| && HasIn(es[k], ep)
    ensures (ClearStall(ep, false) in ClearStallsFrom(es, ep, i))
            <==> exists k :: i <= k < |es| && !HasIn(es[k], ep) && HasOut(es[k], ep)
    decreases |es| - i
  {
    if i < |es| {
      ClearStallsExact(es, ep, i + 1);
      var head := if HasIn(es[i], ep) then [ClearStall(ep, true)]
                  else if HasOut(es[i], ep) then [ClearStall(ep, false)] else [];
      assert ClearStallsFrom(es, ep, i) == head + ClearStallsFrom(es, ep, i + 1);
    }
  }

  /** The else-if: an interface whose IN and OUT endpoints share the number
      ep (one endpoint allocated for two declared) has only its IN stall
      cleared. */
  lemma ClearStallsSharedNumber(e: Entry, ep: uint8)
    requires HasIn(e, ep) && HasOut(e, ep)
    ensures ClearStallsFrom([e], ep, 0) == [ClearStall(ep, true)]
  {
  }

  // ---- sendDescriptors ----

  /** sendConfig() can run: every interface has the endpoints it declares,
      one or two, and the total fits the 16-bit wTotalLength it is checked against. */
  predicate ConfigSendable(es: seq<Entry>)
  {
    AllSerialisable(es) && ConfigTotal(es) < 0x1_0000
  }

  /** A string request whose table entry exists fits the descriptor buffer. */
  predicate StringFits(setup: Setup, d: DeviceState)
  {
    1 <= setup.wValueL <= |d.strings| && d.strings[setup.wValueL - 1].Some? ==>
      |d.strings[setup.wValueL - 1].value| <= d.platform.stringCapacity <= 126
  }

  /** sendDescriptors(setup): by descriptor type in wValueH. */
  function DescriptorReply(setup: Setup, d: DeviceState, results: seq<int>): (r: Reply)
    requires |results| == |d.interfaces|
    requires setup.wValueH == CONFIGURATION_DESCRIPTOR_TYPE ==> ConfigSendable(d.interfaces)
    requires setup.wValueH == STRING_DESCRIPTOR_TYPE ==> StringFits(setup, d)
    ensures r.result == DEVICE_OK || r.result == DEVICE_NOT_SUPPORTED
    ensures setup.wValueH in {DEVICE_DESCRIPTOR_TYPE, CONFIGURATION_DESCRIPTOR_TYPE, STRING_DESCRIPTOR_TYPE} ==>
              if r.result == DEVICE_OK then |r.events| == 1 && r.events[0].Send? else r.events == []
    ensures setup.wValueH !in {DEVICE_DESCRIPTOR_TYPE, CONFIGURATION_DESCRIPTOR_TYPE, STRING_DESCRIPTOR_TYPE} ==>
              forall k :: 0 <= k < |r.events| ==> r.events[k].Handler? && r.events[k].kind == StdRequest
  {
    var t := setup.wValueH;
    if t == CONFIGURATION_DESCRIPTOR_TYPE then
      Reply([Send(ConfigBytes(d.interfaces, d.platform.maxPacketSize))], DEVICE_OK)
    else if t == DEVICE_DESCRIPTOR_TYPE then
      Reply([Send(DeviceDescriptorBytes(d.device))], DEVICE_OK)
    else if t == STRING_DESCRIPTOR_TYPE then
      var idx := setup.wValueL;
      if idx > |d.strings| then Reply([], DEVICE_NOT_SUPPORTED)
      else if idx == 0 then Reply([Send(STRING0)], DEVICE_OK)
      else match d.strings[idx - 1]
        case None => Reply([], DEVICE_NOT_SUPPORTED)
        case Some(s) => Reply([Send(StringDescriptor(s))], DEVICE_OK)
    else Route(setup, d.interfaces, results, false)
  }

  // ---- setupRequest ----

  /** One control request's events, final status code and device-wide flags. */
  datatype Step = Step(events: seq<Event>, result: int, usbStatus: uint8, usbInitialised: uint8)

  predicate IsStandard(setup: Setup)
  {
    RequestKind(setup.bmRequestType) == REQ_STANDARD
  }

  /** The preconditions of the paths setupRequest can take for this packet:
      the handler answers cover the registry, a configuration-descriptor
      request finds the endpoints it serialises, a string fits its buffer. */
  predicate CanDispatch(setup: Setup, d: DeviceState, results: seq<int>)
  {
    && |results| == |d.interfaces|
    && (IsStandard(setup) && setup.bRequest == GET_DESCRIPTOR ==>
          && (setup.wValueH == CONFIGURATION_DESCRIPTOR_TYPE ==> ConfigSendable(d.interfaces))
          && (setup.wValueH == STRING_DESCRIPTOR_TYPE ==> StringFits(setup, d)))
  }

  const DEVICE_TO_HOST_DEVICE: uint8 := REQ_DEVICETOHOST + REQ_STANDARD + REQ_DEVICE
  const HOST_TO_DEVICE_DEVICE: uint8 := REQ_HOSTTODEVICE + REQ_STANDARD + REQ_DEVICE
  const HOST_TO_DEVICE_ENDPOINT: uint8 := REQ_HOSTTODEVICE + REQ_STANDARD + REQ_ENDPOINT

  /** The switch over the standard request codes; a code with no case does nothing. */
  function StandardRequest(setup: Setup, d: DeviceState, results: seq<int>): (r: Step)
    requires CanDispatch(setup, d, results) && IsStandard(setup)
    ensures r.result == DEVICE_OK || r.result == DEVICE_NOT_SUPPORTED
    ensures (Stall in r.events) <==> setup.bRequest == SET_DESCRIPTOR
    ensures r.usbInitialised != d.usbInitialised ==> setup.bRequest == SET_CONFIGURATION
    ensures r.usbStatus != d.usbStatus ==> setup.bRequest == CLEAR_FEATURE || setup.bRequest == SET_FEATURE
    ensures r.usbStatus / 4 == d.usbStatus / 4 && r.usbStatus % 2 == d.usbStatus % 2
  {
    var rt := setup.bmRequestType;
    var wakeup := WValue(setup) == DEVICE_REMOTE_WAKEUP;
    var r := setup.bRequest;
    if r == GET_STATUS then
      var wStatus := if rt == DEVICE_TO_HOST_DEVICE then d.usbStatus else 0;
      Step([Send([wStatus, 0])], DEVICE_OK, d.usbStatus, d.usbInitialised)
    else if r == CLEAR_FEATURE then
      var st := if rt == HOST_TO_DEVICE_DEVICE && wakeup then WithoutRemoteWakeup(d.usbStatus) else d.usbStatus;
      var clears := if rt == HOST_TO_DEVICE_ENDPOINT then ClearStallsFrom(d.interfaces, setup.wIndex % 128, 0) else [];
      Step(clears + [Send([])], DEVICE_OK, st, d.usbInitialised)
    else if r == SET_FEATURE then
      var st := if rt == HOST_TO_DEVICE_DEVICE && wakeup then WithRemoteWakeup(d.usbStatus) else d.usbStatus;
      Step([Send([])], DEVICE_OK, st, d.usbInitialised)
    else if r == SET_ADDRESS then
      Step([Send([]), SetAddress(WValue(setup))], DEVICE_OK, d.usbStatus, d.usbInitialised)
    else if r == GET_DESCRIPTOR then
      var reply := DescriptorReply(setup, d, results);
      Step(reply.events, reply.result, d.usbStatus, d.usbInitialised)
    else if r == SET_DESCRIPTOR then
      Step([Stall], DEVICE_OK, d.usbStatus, d.usbInitialised)
    else if r == GET_CONFIGURATION then
      Step([Send([1])], DEVICE_OK, d.usbStatus, d.usbInitialised)
    else if r == SET_CONFIGURATION then
      if Destination(rt) == REQ_DEVICE then Step([Send([])], DEVICE_OK, d.usbStatus, setup.wValueL)
      else Step([], DEVICE_NOT_SUPPORTED, d.usbStatus, d.usbInitialised)
    else Step([], DEVICE_OK, d.usbStatus, d.usbInitialised)
  }

  /** setupRequest(setup): standard requests are answered here, every other
      type goes to the interfaces' class handlers; a negative status stalls. */
  function Dispatch(setup: Setup, d: DeviceState, results: seq<int>): (r: Step)
    requires CanDispatch(setup, d, results)
    ensures r.result == DEVICE_OK || r.result == DEVICE_NOT_SUPPORTED
    ensures r.result == DEVICE_NOT_SUPPORTED ==> |r.events| >= 1 && r.events[|r.events| - 1] == Stall
    ensures forall k :: 0 <= k < |r.events| - 1 ==> !r.events[k].Stall?
    ensures !IsStandard(setup) ==> r.usbStatus == d.usbStatus && r.usbInitialised == d.usbInitialised
  {
    var s := if IsStandard(setup) then StandardRequest(setup, d, results)
             else
               var reply := Route(setup, d.interfaces, results, true);
               Step(reply.events, reply.result, d.usbStatus, d.usbInitialised);
    if s.result < 0 then s.(events := s.events + [Stall]) else s
  }

  predicate IsRequest(setup: Setup, code: uint8)
  {
    IsStandard(setup) && setup.bRequest == code
  }

  /** SET_ADDRESS acknowledges with a zero-length packet before the address
      is latched, and nothing else happens. */
  lemma SetAddressAcksFirst(setup: Setup, d: DeviceState, results: seq<int>)
    requires CanDispatch(setup, d, results) && IsRequest(setup, SET_ADDRESS)
    ensures Dispatch(setup, d, results).events == [Send([]), SetAddress(WValue(setup))]
    ensures Dispatch(setup, d, results).usbStatus == d.usbStatus
  {
  }

  /** GET_STATUS sends two bytes: the device status only for the exact
      device-to-host, standard, device request type, zero otherwise. */
  lemma GetStatusReply(setup: Setup, d: DeviceState, results: seq<int>)
    requires CanDispatch(setup, d, results) && IsRequest(setup, GET_STATUS)
    ensures var e := Dispatch(setup, d, results).events;
      && |e| == 1 && e[0].Send? && |e[0].bytes| == 2 && e[0].bytes[1] == 0
      && (setup.bmRequestType == DEVICE_TO_HOST_DEVICE ==> e[0].bytes[0] == d.usbStatus)
      && (setup.bmRequestType != DEVICE_TO_HOST_DEVICE ==> e[0].bytes[0] == 0)
  {
  }

  /** SET_FEATURE(DEVICE_REMOTE_WAKEUP) to the device sets the wakeup bit and
      nothing else; any other SET_FEATURE leaves the status alone. Both answer
      with one zero-length packet. */
  lemma SetFeatureReply(setup: Setup, d: DeviceState, results: seq<int>)
    requires CanDispatch(setup, d, results) && IsRequest(setup, SET_FEATURE)
    ensures var s := Dispatch(setup, d, results);
      && s.events == [Send([])]
      && (if setup.bmRequestType == HOST_TO_DEVICE_DEVICE && WValue(setup) == DEVICE_REMOTE_WAKEUP
          then RemoteWakeup(s.usbStatus) && s.usbStatus / 4 == d.usbStatus / 4 && s.usbStatus % 2 == d.usbStatus % 2
          else s.usbStatus == d.usbStatus)
  {
  }

  /** CLEAR_FEATURE(DEVICE_REMOTE_WAKEUP) to the device clears the wakeup bit;
      addressed to an endpoint it clears the stalls of that endpoint number,
      the IN stall of every interface with such an IN endpoint and the OUT
      stall of every interface with only such an OUT endpoint; it always ends
      with one zero-length packet and never stalls. */
  lemma ClearFeatureReply(setup: Setup, d: DeviceState, results: seq<int>)
    requires CanDispatch(setup, d, results) && IsRequest(setup, CLEAR_FEATURE)
    ensures var s := Dispatch(setup, d, results);
      && |s.events| >= 1 && s.events[|s.events| - 1] == Send([])
      && (forall k :: 0 <= k < |s.events| - 1 ==>
            s.events[k].ClearStall? && s.events[k].ep == setup.wIndex % 128)
      && (setup.bmRequestType != HOST_TO_DEVICE_ENDPOINT ==> s.events == [Send([])])
      && (setup.bmRequestType == HOST_TO_DEVICE_ENDPOINT ==>
            s.events == ClearStallsFrom(d.interfaces, setup.wIndex % 128, 0) + [Send([])])
      && (if setup.bmRequestType == HOST_TO_DEVICE_DEVICE && WValue(setup) == DEVICE_REMOTE_WAKEUP
          then !RemoteWakeup(s.usbStatus) && s.usbStatus / 4 == d.usbStatus / 4 && s.usbStatus % 2 == d.usbStatus % 2
          else s.usbStatus == d.usbStatus)
    ensures var s, ep := Dispatch(setup, d, results), setup.wIndex % 128;
      setup.bmRequestType == HOST_TO_DEVICE_ENDPOINT ==>
        && (ClearStall(ep, true) in s.events <==> exists k :: 0 <= k < |d.interfaces| && HasIn(d.interfaces[k], ep))
        && (ClearStall(ep, false) in s.events <==>
              exists k :: 0 <= k < |d.interfaces| && !HasIn(d.interfaces[k], ep) && HasOut(d.interfaces[k], ep))
  {
    var ep := setup.wIndex % 128;
    var clears := if setup.bmRequestType == HOST_TO_DEVICE_ENDPOINT
                  then ClearStallsFrom(d.interfaces, ep, 0) else [];
    assert Dispatch(setup, d, results).events == clears + [Send([])];
    ClearStallsExact(d.interfaces, ep, 0);
  }

  /** GET_CONFIGURATION always reports configuration 1. */
  lemma GetConfigurationReply(setup: Setup, d: DeviceState, results: seq<int>)
    requires CanDispatch(setup, d, results) && IsRequest(setup, GET_CONFIGURATION)
    ensures Dispatch(setup, d, results).events == [Send([1])]
  {
  }

  /** SET_CONFIGURATION to the device records wValueL as the initialised flag
      and acknowledges; to any other destination it only stalls. */
  lemma SetConfigurationReply(setup: Setup, d: DeviceState, results: seq<int>)
    requires CanDispatch(setup, d, results) && IsRequest(setup, SET_CONFIGURATION)
    ensures var s := Dispatch(setup, d, results);
      if Destination(setup.bmRequestType) == REQ_DEVICE
      then s.events == [Send([])] && s.result == DEVICE_OK && s.usbInitialised == setup.wValueL
      else s.events == [Stall] && s.result == DEVICE_NOT_SUPPORTED && s.usbInitialised == d.usbInitialised
    ensures Dispatch(setup, d, results).usbStatus == d.usbStatus
  {
  }

  /** SET_DESCRIPTOR is refused with exactly one stall. */
  lemma SetDescriptorStalls(setup: Setup, d: DeviceState, results: seq<int>)
    requires CanDispatch(setup, d, results) && IsRequest(setup, SET_DESCRIPTOR)
    ensures Dispatch(setup, d, results).events == [Stall]
  {
  }

  /** A standard request code the switch has no case for has no effect at
      all: no byte is sent and there is no stall. */
  lemma UnknownStandardRequestIgnored(setup: Setup, d: DeviceState, results: seq<int>)
    requires CanDispatch(setup, d, results) && IsStandard(setup)
    requires setup.bRequest !in {GET_STATUS, CLEAR_FEATURE, SET_FEATURE, SET_ADDRESS,
                                 GET_DESCRIPTOR, SET_DESCRIPTOR, GET_CONFIGURATION, SET_CONFIGURATION}
    ensures Dispatch(setup, d, results) == Step([], DEVICE_OK, d.usbStatus, d.usbInitialised)
  {
  }

  predicate IsStringRequest(setup: Setup)
  {
    IsRequest(setup, GET_DESCRIPTOR) && setup.wValueH == STRING_DESCRIPTOR_TYPE
  }

  /** GET_DESCRIPTOR(string): index 0 sends the language-ID table {4, 3, 9, 4};
      an index past the table or a missing entry stalls; otherwise the
      entry's string descriptor is sent. */
  lemma StringDescriptorReply(setup: Setup, d: DeviceState, results: seq<int>)
    requires CanDispatch(setup, d, results) && IsStringRequest(setup)
    ensures var e := Dispatch(setup, d, results).events;
      if setup.wValueL == 0 then e == [Send([4, 3, 9, 4])]
      else if setup.wValueL > |d.strings| || d.strings[setup.wValueL - 1].None? then e == [Stall]
      else e == [Send(StringDescriptor(d.strings[setup.wValueL - 1].value))]
  {
  }

  /** GET_DESCRIPTOR(configuration) sends the composite configuration descriptor. */
  lemma ConfigDescriptorReply(setup: Setup, d: DeviceState, results: seq<int>)
    requires CanDispatch(setup, d, results) && IsRequest(setup, GET_DESCRIPTOR)
    requires setup.wValueH == CONFIGURATION_DESCRIPTOR_TYPE
    ensures Dispatch(setup, d, results).events == [Send(ConfigBytes(d.interfaces, d.platform.maxPacketSize))]
  {
  }

  /** GET_DESCRIPTOR(device) always succeeds and sends the 18-byte device
      descriptor. */
  lemma DeviceDescriptorReply(setup: Setup, d: DeviceState, results: seq<int>)
    requires CanDispatch(setup, d, results) && IsRequest(setup, GET_DESCRIPTOR)
    requires setup.wValueH == DEVICE_DESCRIPTOR_TYPE
    ensures Dispatch(setup, d, results).events == [Send(DeviceDescriptorBytes(d.device))]
    ensures Dispatch(setup, d, results).result == DEVICE_OK
  {
  }

  /** GET_DESCRIPTOR of any type other than device, configuration and string
      goes to the standard-request handlers of the targeted interfaces; when
      none accepts, the control endpoint stalls after the handlers tried. */
  lemma OtherDescriptorRouted(setup: Setup, d: DeviceState, results: seq<int>)
    requires CanDispatch(setup, d, results) && IsRequest(setup, GET_DESCRIPTOR)
    requires setup.wValueH !in {DEVICE_DESCRIPTOR_TYPE, CONFIGURATION_DESCRIPTOR_TYPE, STRING_DESCRIPTOR_TYPE}
    ensures var s, r, t := Dispatch(setup, d, results), Route(setup, d.interfaces, results, false), RouteTarget(setup);
      && s.usbStatus == d.usbStatus && s.usbInitialised == d.usbInitialised
      && ((exists j :: 0 <= j < |d.interfaces| && Accepts(d.interfaces, results, t.0, t.1, j))
            ==> s.events == r.events)
      && ((forall j :: 0 <= j < |d.interfaces| ==> !Accepts(d.interfaces, results, t.0, t.1, j))
            ==> s.events == Candidates(d.interfaces, t.0, t.1, StdRequest, 0, |d.interfaces|) + [Stall])
  {
    RouteSpec(setup, d.interfaces, results, false);
  }

  /** Every request that is not standard goes to the class handlers of the
      targeted interfaces; when none accepts, the control endpoint stalls
      after the handlers tried, and nothing else changes. */
  lemma ClassRequestRouted(setup: Setup, d: DeviceState, results: seq<int>)
    requires CanDispatch(setup, d, results) && !IsStandard(setup)
    ensures var s, r, t := Dispatch(setup, d, results), Route(setup, d.interfaces, results, true), RouteTarget(setup);
      && s.usbStatus == d.usbStatus && s.usbInitialised == d.usbInitialised
      && ((exists j :: 0 <= j < |d.interfaces| && Accepts(d.interfaces, results, t.0, t.1, j))
            ==> s.events == r.events)
      && ((forall j :: 0 <= j < |d.interfaces| ==> !Accepts(d.interfaces, results, t.0, t.1, j))
            ==> s.events == Candidates(d.interfaces, t.0, t.1, ClassRequest, 0, |d.interfaces|) + [Stall])
  {
    RouteSpec(setup, d.interfaces, results, true);
  }

  // ---- interruptHandler ----

  /** Every interface's endpointRequest, once each, in registration order. */
  function FanOut(n: nat): (r: seq<Event>)
    ensures |r| == n
    ensures forall i :: 0 <= i < n ==> r[i] == Handler(i, EndpointRequest)
  {
    if n == 0 then [] else FanOut(n - 1) + [Handler(n - 1, EndpointRequest)]
  }

  // ---- start ----

  datatype StartState = StartState(startDelayCount: uint8, configured: bool)

  /** One start() call: the new state, its status, and whether it asks the
      platform to configure the endpoints. */
  datatype StartStep = StartStep(next: StartState, result: int, configure: bool)

  /** start(): the 8-bit delay count is decremented first (0 wraps to 255);
      while it stays positive the call does nothing else. */
  function StartTransition(s: StartState, usbEndpoints: nat): (r: StartStep)
    ensures r.next.startDelayCount == if s.startDelayCount == 0 then 255 else s.startDelayCount - 1
    ensures r.configure ==> !s.configured && usbEndpoints > 0
    ensures r.next.configured == (s.configured || r.configure)
  {
    var delay := (s.startDelayCount - 1) % 256;
    if delay > 0 then StartStep(StartState(delay, s.configured), DEVICE_OK, false)
    else if usbEndpoints == 0 then StartStep(StartState(delay, s.configured), DEVICE_NOT_SUPPORTED, false)
    else if s.configured then StartStep(StartState(delay, true), DEVICE_OK, false)
    else StartStep(StartState(delay, true), DEVICE_OK, true)
  }

  /** The state after n start() calls, and how many of them configured. */
  function StartCalls(s: StartState, usbEndpoints: nat, n: nat): (r: (StartState, nat))
    ensures r.1 <= n
    ensures r.0.configured == (s.configured || r.1 > 0)
    decreases n
  {
    if n == 0 then (s, 0)
    else
      var st := StartTransition(s, usbEndpoints);
      var (last, count) := StartCalls(st.next, usbEndpoints, n - 1);
      (last, count + if st.configure then 1 else 0)
  }

  /** A single call: it never unconfigures; it configures only an
      unconfigured device whose delay has run out on a platform with
      endpoints; only that case and a platform without endpoints return
      anything but DEVICE_OK. */
  lemma StartStepSpec(s: StartState, usbEndpoints: nat)
    ensures var st := StartTransition(s, usbEndpoints);
      && (s.configured ==> st.next.configured && !st.configure)
      && (st.configure <==> !s.configured && s.startDelayCount == 1 && usbEndpoints > 0)
      && (st.configure ==> st.next.configured)
      && (st.result != DEVICE_OK <==> s.startDelayCount == 1 && usbEndpoints == 0)
      && st.next.configured == (s.configured || st.configure)
  {
  }

  /** Across any number of start() calls the endpoints are configured at most
      once, never once the device is configured, and never on a platform
      without endpoints; once configured, the device stays configured. */
  lemma {:induction false} ConfigureAtMostOnce(s: StartState, usbEndpoints: nat, n: nat)
    ensures var (last, count) := StartCalls(s, usbEndpoints, n);
      && count <= (if s.configured || usbEndpoints == 0 then 0 else 1)
      && (s.configured ==> last.configured)
      && (count == 1 ==> last.configured)
    decreases n
  {
    if n > 0 {
      var st := StartTransition(s, usbEndpoints);
      StartStepSpec(s, usbEndpoints);
      ConfigureAtMostOnce(st.next, usbEndpoints, n - 1);
    }
  }

  /** From the constructor's state (delay count 1, unconfigured) the first
      call configures when the platform has endpoints. */
  lemma FirstStartConfigures(usbEndpoints: nat)
    requires usbEndpoints > 0
    ensures StartTransition(StartState(1, false), usbEndpoints) == StartStep(StartState(0, true), DEVICE_OK, true)
  {
  }
}
