/** The device controller CodalUSB: the interface registry, the endpoint
    budget, the start-delay counter, the device-wide flags usb_status,
    usb_configured and usb_initialised, and the control-transfer entry points.
    Every hardware effect is appended to `trace`. */
module CodalUsbDevice {
  import opened UsbTypes
  import opened Descriptors
  import opened Endpoints
  import opened Control

  /** The manufacturer, product and serial-number strings of the default table. */
  function DefaultStrings(): (r: seq<Option<seq<uint8>>>)
    ensures |r| == 3 && forall i :: 0 <= i < 3 ==> r[i].Some? && NulFree(r[i].value)
  {
    [Some(Ascii("CoDAL Devices")), Some(Ascii("Generic CoDAL device")), Some(Ascii("4242"))]
  }

  /** memcpy(buf + at, bytes, |bytes|). */
  method CopyInto(buf: array<uint8>, at: nat, bytes: seq<uint8>) returns (next: nat)
    requires at + |bytes| <= buf.Length
    modifies buf
    ensures next == at + |bytes|
    ensures buf[..next] == old(buf[..at]) + bytes
  {
    forall k | 0 <= k < |bytes| {
      buf[at + k] := bytes[k];
    }
    next := at + |bytes|;
    assert buf[..next] == buf[..at] + buf[at..next];
  }

  /** Regrouping the pieces written one after another at a cursor. */
  lemma Concat3(pre: seq<uint8>, a: seq<uint8>, b: seq<uint8>)
    ensures pre + a + b == pre + (a + b)
  {
  }

  lemma Concat4(pre: seq<uint8>, a: seq<uint8>, b: seq<uint8>, c: seq<uint8>, d: seq<uint8>)
    ensures pre + a + b + c + d == pre + (a + b + c + d)
  {
  }

  /** The StringDescriptor sendDescriptors() fills for one table entry: type 3,
      length 2 * strlen + 2, then each character widened to 16 bits; the
      first `length` bytes are what is sent. */
  method BuildStringDescriptor(str: seq<uint8>, capacity: nat) returns (bytes: seq<uint8>)
    requires NulFree(str) && |str| <= capacity <= 126
    ensures bytes == StringDescriptor(str)
  {
    var desc := new uint8[2 + 2 * capacity];
    desc[1] := STRING_DESCRIPTOR_TYPE;
    var len := |str| * 2 + 2;
    desc[0] := len;
    assert len <= desc.Length;  // the buffer-size check before the copy
    ghost var expected := StringDescriptor(str);
    var i := 0;
    while i < |str|
      invariant 0 <= i <= |str|
      invariant desc[0] == len && desc[1] == STRING_DESCRIPTOR_TYPE
      invariant forall j :: 2 <= j < 2 + 2 * i ==> desc[j] == expected[j]
    {
      assert expected[2 + 2 * i] == str[i] && expected[3 + 2 * i] == 0;
      desc[2 + 2 * i] := str[i];
      desc[3 + 2 * i] := 0;
      i := i + 1;
    }
    bytes := desc[..len];
    assert forall j :: 0 <= j < len ==> bytes[j] == expected[j];
  }

  /** The patched copy of static_config at the start of the configuration
      buffer: wTotalLength and bNumInterfaces as the 16- and 8-bit fields hold them. */
  method WriteHeader(buf: array<uint8>, clen: nat, numInterfaces: nat)
    requires CONFIG_DESCRIPTOR_SIZE <= buf.Length
    modifies buf
    ensures buf[..CONFIG_DESCRIPTOR_SIZE] == ConfigHeader(clen, numInterfaces)
  {
    var _ := CopyInto(buf, 0, STATIC_CONFIG);
    ghost var copied: seq<uint8> := buf[..CONFIG_DESCRIPTOR_SIZE];
    var field := clen % 0x1_0000;
    var lo: uint8, hi: uint8, count: uint8 := field % 256, field / 256, numInterfaces % 256;
    buf[2] := lo;
    buf[3] := hi;
    buf[4] := count;
    ghost var patched: seq<uint8> := copied[2 := lo];
    patched := patched[3 := hi];
    patched := patched[4 := count];
    assert buf[..CONFIG_DESCRIPTOR_SIZE] == patched;
    ConfigHeaderPatched(clen, numInterfaces);
  }

  /** The first pass of sendConfig(): wTotalLength and bNumInterfaces before
      they are stored into their 16- and 8-bit fields. */
  method ConfigLength(es: seq<Entry>) returns (clen: nat, numInterfaces: nat)
    ensures clen == ConfigTotal(es) && numInterfaces == |es|
  {
    numInterfaces := 0;
    clen := CONFIG_DESCRIPTOR_SIZE;
    var i := 0;
    while i < |es|
      invariant 0 <= i <= |es|
      invariant clen == CONFIG_DESCRIPTOR_SIZE + BodyTo(es, i)
      invariant numInterfaces == i
    {
      var info := es[i].info;
      clen := clen + INTERFACE_DESCRIPTOR_SIZE + info.iface.numEndpoints * ENDPOINT_DESCRIPTOR_SIZE
              + |info.supplementalDescriptor|;
      numInterfaces := numInterfaces + 1;
      i := i + 1;
    }
  }

  /** The second pass of sendConfig(): every interface's block after the
      header, the cursor ending at the end of the buffer. */
  method WriteBlocks(buf: array<uint8>, es: seq<Entry>, pkt: uint16) returns (cursor: nat)
    requires AllSerialisable(es) && buf.Length == ConfigTotal(es)
    modifies buf
    ensures cursor == buf.Length
    ensures buf[..] == old(buf[..CONFIG_DESCRIPTOR_SIZE]) + Blocks(es, pkt)
  {
    ghost var header := buf[..CONFIG_DESCRIPTOR_SIZE];
    cursor := CONFIG_DESCRIPTOR_SIZE;
    var i := 0;
    while i < |es|
      invariant 0 <= i <= |es|
      invariant cursor == CONFIG_DESCRIPTOR_SIZE + BodyTo(es, i) <= buf.Length
      invariant buf[..cursor] == header + BlocksTo(es, i, pkt)
    {
      BodyMonotone(es, i + 1, |es|);
      cursor := WriteBlock(buf, cursor, es[i], pkt);
      Concat3(header, BlocksTo(es, i, pkt), Block(es[i], pkt));
      assert BlocksTo(es, i + 1, pkt) == BlocksTo(es, i, pkt) + Block(es[i], pkt);
      i := i + 1;
    }
    assert buf[..] == buf[..cursor];
  }

  /** One interface's block of the second pass of sendConfig(), written at the cursor. */
  method WriteBlock(buf: array<uint8>, at: nat, e: Entry, pkt: uint16) returns (next: nat)
    requires Serialisable(e) && at + BlockLength(e.info) <= buf.Length
    modifies buf
    ensures next == at + BlockLength(e.info)
    ensures buf[..next] == old(buf[..at]) + Block(e, pkt)
  {
    var info := e.info;
    ghost var pre := buf[..at];
    var idesc := InterfaceDescriptor(e.interfaceIdx, info);
    next := CopyInto(buf, at, idesc);
    ghost var acc := pre + idesc;
    if |info.supplementalDescriptor| > 0 {
      next := CopyInto(buf, next, info.supplementalDescriptor);
    }
    acc := acc + info.supplementalDescriptor;
    assert buf[..next] == acc;
    var epdescIn := EndpointDescriptor(SetTop(e.inEp.value.ep), info.epIn.attr, pkt, info.epIn.interval);
    next := CopyInto(buf, next, epdescIn);
    acc := acc + epdescIn;
    ghost var tail: seq<uint8> := [];
    if info.iface.numEndpoints == 2 {
      var epdescOut := EndpointDescriptor(e.outEp.value.ep, info.epIn.attr, pkt, info.epIn.interval);
      next := CopyInto(buf, next, epdescOut);
      tail := epdescOut;
    }
    assert buf[..next] == acc + tail;
    Concat4(pre, idesc, info.supplementalDescriptor, epdescIn, tail);
  }

  /** The walk of initEndpoints(): a counter starting at 1 gives each
      interface its IN endpoint and, for two endpoints, its OUT endpoint, and
      advances by the interface's allocation. */
  method AssignEndpoints(es: seq<Entry>) returns (updated: seq<Entry>, endpointCount: nat)
    requires AllWellFormed(es) && SumAlloc(es) <= 255
    ensures updated == Assigned(es)
    ensures endpointCount == 1 + SumAlloc(es)
  {
    endpointCount := 1;
    updated := [];
    var i := 0;
    while i < |es|
      invariant 0 <= i <= |es|
      invariant updated == AssignedTo(es, i)
      invariant endpointCount == 1 + Consumed(es, i)
    {
      var info := es[i].info;
      assert 1 <= info.allocateEndpoints <= 2;  // the shape checks on each interface
      assert info.allocateEndpoints <= info.iface.numEndpoints <= 2;
      ConsumedMonotone(es, i + 1, |es|);
      var inEp := Endpoint(endpointCount, info.epIn.attr);
      var outEp: Option<Endpoint> := None;
      if info.iface.numEndpoints > 1 {
        outEp := Some(Endpoint(endpointCount + (info.allocateEndpoints - 1), info.epIn.attr));
      }
      updated := updated + [es[i].(inEp := Some(inEp), outEp := outEp)];
      endpointCount := endpointCount + info.allocateEndpoints;
      i := i + 1;
    }
  }

  class CodalUsb {
    const platform: Platform
    var interfaces: seq<Entry>
    var endpointsUsed: nat
    var startDelayCount: uint8
    var usbStatus: uint8
    var usbConfigured: bool
    var usbInitialised: uint8
    /** ctrlIn and ctrlOut exist (initEndpoints() has run). */
    var ctrlReady: bool
    var stringDescriptors: seq<Option<seq<uint8>>>
    var deviceDescriptor: DeviceDescriptor
    ghost var trace: seq<Event>

    /** The registry invariant: indices are registration positions (as the
        8-bit field holds them), endpointsUsed counts the control endpoint plus
        every interface's allocation and stays within the platform budget. */
    ghost predicate Valid()
      reads this
    {
      && ValidPlatform(platform)
      && (forall i :: 0 <= i < |interfaces| ==> interfaces[i].interfaceIdx == i % 256)
      && endpointsUsed == 1 + SumAlloc(interfaces)
      && endpointsUsed <= (if platform.usbEndpoints == 0 then 1 else platform.usbEndpoints)
      && (forall i :: 0 <= i < |stringDescriptors| && stringDescriptors[i].Some? ==>
            NulFree(stringDescriptors[i].value))
    }

    /** What a control request sees. */
    function State(): DeviceState
      reads this
    {
      DeviceState(interfaces, usbStatus, usbInitialised, stringDescriptors, deviceDescriptor, platform)
    }

    /** The constructor: only the control endpoint is counted, start is
        delayed by one call, the default descriptors and strings are used. */
    constructor (platform: Platform)
      requires ValidPlatform(platform)
      ensures Valid() && this.platform == platform
      ensures interfaces == [] && endpointsUsed == 1 && startDelayCount == 1
      ensures usbStatus == 0 && !usbConfigured && usbInitialised == 0 && !ctrlReady
      ensures stringDescriptors == DefaultStrings()
      ensures deviceDescriptor == DefaultDeviceDescriptor(platform.vendorId, platform.productId)
      ensures trace == []
    {
      this.platform := platform;
      interfaces := [];
      endpointsUsed := 1;
      startDelayCount := 1;
      usbStatus := 0;
      usbConfigured := false;
      usbInitialised := 0;
      ctrlReady := false;
      stringDescriptors := DefaultStrings();
      deviceDescriptor := DefaultDeviceDescriptor(platform.vendorId, platform.productId);
      trace := [];
    }

    /** add(interface): refuses when the interface's allocation would exceed
        DEVICE_USB_ENDPOINTS, leaving everything unchanged; otherwise appends
        it with index = number already registered and charges its allocation. */
    method Add(info: InterfaceInfo) returns (status: int)
      requires Valid() && !usbConfigured
      modifies this`interfaces, this`endpointsUsed
      ensures Valid()
      ensures old(endpointsUsed) + info.allocateEndpoints > platform.usbEndpoints ==>
                && status == DEVICE_NO_RESOURCES
                && interfaces == old(interfaces) && endpointsUsed == old(endpointsUsed)
      ensures old(endpointsUsed) + info.allocateEndpoints <= platform.usbEndpoints ==>
                && status == DEVICE_OK
                && interfaces == old(interfaces) + [Entry(info, |old(interfaces)| % 256, None, None)]
                && endpointsUsed == old(endpointsUsed) + info.allocateEndpoints
    {
      var epsConsumed := info.allocateEndpoints;
      if endpointsUsed + epsConsumed > platform.usbEndpoints {
        return DEVICE_NO_RESOURCES;
      }
      // walk to the tail, counting the interfaces already registered
      var idx: uint8 := 0;
      var i := 0;
      while i < |interfaces|
        invariant 0 <= i <= |interfaces|
        invariant idx == i % 256
      {
        idx := (idx + 1) % 256;
        i := i + 1;
      }
      SumAllocAppend(interfaces, Entry(info, idx, None, None));
      interfaces := interfaces + [Entry(info, idx, None, None)];
      endpointsUsed := endpointsUsed + epsConsumed;
      return DEVICE_OK;
    }

    /** initEndpoints(): rebuilds the control endpoints and every interface's
        endpoints from a counter starting at 1; the counter ends at endpointsUsed. */
    method InitEndpoints()
      requires Valid() && AllWellFormed(interfaces)
      modifies this`interfaces, this`ctrlReady
      ensures Valid() && ctrlReady
      ensures interfaces == Assigned(old(interfaces))
    {
      ctrlReady := true;
      var es := interfaces;
      var updated, endpointCount := AssignEndpoints(es);
      assert endpointsUsed == endpointCount;  // the consistency check after the walk
      AssignedKeepsRegistry(es);
      interfaces := updated;
    }

    /** sendConfig(): a first pass sums the descriptor sizes, a buffer of
        that size gets the patched header, a second pass writes each
        interface's block at the cursor; the cursor must end at the length
        in the header. The buffer is sent whole. */
    method SendConfig() returns (status: int)
      requires Valid() && ConfigSendable(interfaces)
      modifies this`trace
      ensures status == DEVICE_OK
      ensures trace == old(trace) + [Send(ConfigBytes(interfaces, platform.maxPacketSize))]
    {
      var pkt := platform.maxPacketSize;
      var es := interfaces;
      var clen, numInterfaces := ConfigLength(es);
      var buf := new uint8[clen];
      WriteHeader(buf, clen, numInterfaces);
      var cursor := WriteBlocks(buf, es, pkt);
      ConfigHeaderAgrees(es, pkt);
      assert buf[..] == buf[..cursor] == ConfigBytes(es, pkt);
      assert cursor == Word(buf[2], buf[3]);  // the cursor agrees with the header's total length
      trace := trace + [Send(buf[..])];
      return DEVICE_OK;
    }

    /** interfaceRequest(setup, isClass): tries the targeted interfaces'
        handlers in registration order until one answers DEVICE_OK. */
    method InterfaceRequest(setup: Setup, isClass: bool, results: seq<int>) returns (status: int)
      requires Valid() && |results| == |interfaces|
      modifies this`trace
      ensures var r := Route(setup, interfaces, results, isClass);
        trace == old(trace) + r.events && status == r.result
    {
      var ifaceIdx := -1;
      var epIdx := -1;
      if Destination(setup.bmRequestType) == REQ_INTERFACE {
        ifaceIdx := setup.wIndex % 256;
      } else if Destination(setup.bmRequestType) == REQ_ENDPOINT {
        epIdx := setup.wIndex % 128;
      }
      var kind := Kind(isClass);
      ghost var whole := RouteFrom(interfaces, results, 0, ifaceIdx, epIdx, kind);
      var i := 0;
      while i < |interfaces|
        invariant 0 <= i <= |interfaces|
        invariant trace + RouteFrom(interfaces, results, i, ifaceIdx, epIdx, kind).events
                  == old(trace) + whole.events
        invariant RouteFrom(interfaces, results, i, ifaceIdx, epIdx, kind).result == whole.result
      {
        var e := interfaces[i];
        if e.interfaceIdx == ifaceIdx
           || (e.inEp.Some? && e.inEp.value.ep == epIdx)
           || (e.outEp.Some? && e.outEp.value.ep == epIdx)
        {
          var res := results[i];
          ghost var rest := RouteFrom(interfaces, results, i + 1, ifaceIdx, epIdx, kind);
          trace := trace + [Handler(i, kind)];
          if res == DEVICE_OK {
            return DEVICE_OK;
          }
          assert trace + rest.events == old(trace) + whole.events;
        }
        i := i + 1;
      }
      return DEVICE_NOT_SUPPORTED;
    }

    /** sendDescriptors(setup): configuration, device or string descriptor by
        wValueH; any other type goes to the interfaces' standard handlers. */
    method SendDescriptors(setup: Setup, results: seq<int>) returns (status: int)
      requires Valid() && |results| == |interfaces|
      requires setup.wValueH == CONFIGURATION_DESCRIPTOR_TYPE ==> ConfigSendable(interfaces)
      requires setup.wValueH == STRING_DESCRIPTOR_TYPE ==> StringFits(setup, State())
      modifies this`trace
      ensures var r := DescriptorReply(setup, State(), results);
        trace == old(trace) + r.events && status == r.result
    {
      var t := setup.wValueH;
      if t == CONFIGURATION_DESCRIPTOR_TYPE {
        status := SendConfig();
        return;
      }
      if t == DEVICE_DESCRIPTOR_TYPE {
        trace := trace + [Send(DeviceDescriptorBytes(deviceDescriptor))];
        return DEVICE_OK;
      } else if t == STRING_DESCRIPTOR_TYPE {
        if setup.wValueL > |stringDescriptors| {
          return DEVICE_NOT_SUPPORTED;
        }
        if setup.wValueL == 0 {
          trace := trace + [Send(STRING0)];
          return DEVICE_OK;
        }
        var str := stringDescriptors[setup.wValueL - 1];
        if str.None? {
          return DEVICE_NOT_SUPPORTED;
        }
        var bytes := BuildStringDescriptor(str.value, platform.stringCapacity);
        trace := trace + [Send(bytes)];
        return DEVICE_OK;
      } else {
        status := InterfaceRequest(setup, false, results);
        return;
      }
    }

    /** The CLEAR_FEATURE loop over the registry for endpoint number ep. */
    method ClearEndpointStalls(ep: int)
      modifies this`trace
      ensures trace == old(trace) + ClearStallsFrom(interfaces, ep, 0)
    {
      var i := 0;
      while i < |interfaces|
        invariant 0 <= i <= |interfaces|
        invariant trace + ClearStallsFrom(interfaces, ep, i) == old(trace) + ClearStallsFrom(interfaces, ep, 0)
      {
        var e := interfaces[i];
        ghost var rest := ClearStallsFrom(interfaces, ep, i + 1);
        if e.inEp.Some? && e.inEp.value.ep == ep {
          trace := trace + [ClearStall(e.inEp.value.ep, true)];
        } else if e.outEp.Some? && e.outEp.value.ep == ep {
          trace := trace + [ClearStall(e.outEp.value.ep, false)];
        }
        assert trace + rest == old(trace) + ClearStallsFrom(interfaces, ep, 0);
        i := i + 1;
      }
    }

    /** setupRequest(setup): answers the standard requests, routes the rest
        to the interfaces, and stalls when the outcome is negative. */
    method SetupRequest(setup: Setup, results: seq<int>)
      requires Valid() && ctrlReady && CanDispatch(setup, State(), results)
      modifies this`trace, this`usbStatus, this`usbInitialised
      ensures Valid()
      ensures var s := Dispatch(setup, old(State()), results);
        && trace == old(trace) + s.events
        && usbStatus == s.usbStatus && usbInitialised == s.usbInitialised
    {
      var status;
      if RequestKind(setup.bmRequestType) == REQ_STANDARD {
        status := StandardSetup(setup, results);
      } else {
        status := InterfaceRequest(setup, true, results);
      }

      if status < 0 {
        trace := trace + [Stall];
      }
    }

    /** The switch of setupRequest() over the standard request codes; a code
        with no case leaves everything as it was. */
    method StandardSetup(setup: Setup, results: seq<int>) returns (status: int)
      requires Valid() && ctrlReady && CanDispatch(setup, State(), results) && IsStandard(setup)
      modifies this`trace, this`usbStatus, this`usbInitialised
      ensures Valid()
      ensures var s := StandardRequest(setup, old(State()), results);
        && trace == old(trace) + s.events && status == s.result
        && usbStatus == s.usbStatus && usbInitialised == s.usbInitialised
    {
      status := DEVICE_OK;
      var wValue := setup.wValueH * 256 + setup.wValueL;
      var requestType := setup.bmRequestType;
      var wStatus: uint8 := 0;
      var r := setup.bRequest;
      if r == GET_STATUS {
        if requestType == DEVICE_TO_HOST_DEVICE {
          wStatus := usbStatus;
        }
        trace := trace + [Send([wStatus, 0])];
      } else if r == CLEAR_FEATURE {
        if requestType == HOST_TO_DEVICE_DEVICE && wValue == DEVICE_REMOTE_WAKEUP {
          usbStatus := WithoutRemoteWakeup(usbStatus);
        }
        if requestType == HOST_TO_DEVICE_ENDPOINT {
          ClearEndpointStalls(setup.wIndex % 128);
        }
        trace := trace + [Send([])];
      } else if r == SET_FEATURE {
        if requestType == HOST_TO_DEVICE_DEVICE && wValue == DEVICE_REMOTE_WAKEUP {
          usbStatus := WithRemoteWakeup(usbStatus);
        }
        trace := trace + [Send([])];
      } else if r == SET_ADDRESS {
        trace := trace + [Send([])];
        trace := trace + [SetAddress(wValue)];
      } else if r == GET_DESCRIPTOR {
        status := SendDescriptors(setup, results);
      } else if r == SET_DESCRIPTOR {
        trace := trace + [Stall];
      } else if r == GET_CONFIGURATION {
        wStatus := 1;
        trace := trace + [Send([wStatus])];
      } else if r == SET_CONFIGURATION {
        if REQ_DEVICE == Destination(requestType) {
          usbInitialised := setup.wValueL;
          trace := trace + [Send([])];
        } else {
          status := DEVICE_NOT_SUPPORTED;
        }
      }
    }

    /** interruptHandler(): every interface's endpointRequest in order. */
    method InterruptHandler()
      modifies this`trace
      ensures trace == old(trace) + FanOut(|interfaces|)
    {
      var i := 0;
      while i < |interfaces|
        invariant 0 <= i <= |interfaces|
        invariant trace == old(trace) + FanOut(i)
      {
        trace := trace + [Handler(i, EndpointRequest)];
        i := i + 1;
      }
    }

    /** start(): decrements the delay count; when it reaches zero, refuses a
        platform without endpoints, and otherwise configures the hardware
        with endpointsUsed endpoints the first time only. */
    method Start() returns (status: int)
      modifies this`startDelayCount, this`usbConfigured, this`trace
      ensures var st := StartTransition(StartState(old(startDelayCount), old(usbConfigured)), platform.usbEndpoints);
        && startDelayCount == st.next.startDelayCount && usbConfigured == st.next.configured
        && status == st.result
        && trace == old(trace) + (if st.configure then [Configure(endpointsUsed)] else [])
    {
      startDelayCount := (startDelayCount - 1) % 256;
      if startDelayCount > 0 {
        return DEVICE_OK;
      }
      if platform.usbEndpoints == 0 {
        return DEVICE_NOT_SUPPORTED;
      }
      if usbConfigured {
        return DEVICE_OK;
      }
      usbConfigured := true;
      trace := trace + [Configure(endpointsUsed)];
      return DEVICE_OK;
    }
  }
}
