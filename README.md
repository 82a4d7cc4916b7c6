# CodalUSB device-side control core, in Dafny

This project models the USB device controller of the CODAL runtime
(`CodalUSB`, in `source/driver-models/CodalUSB.cpp`) and proves properties of
the model. The controller keeps a registry of USB interfaces in registration
order. It charges each interface's endpoint allocation against the platform
budget, numbers the endpoints, and builds the configuration descriptor from
the registry. It answers the standard control requests of USB 2.0 chapter 9
and passes class/vendor requests, and descriptor requests of any type other
than device, configuration and string (lines 223-226), on to the interfaces.

Layout, one module per file:

- `usb_types.dfy` (`UsbTypes`): 8- and 16-bit value types, status codes, the
  request constants of USB 2.0 tables 9-2 and 9-4 to 9-6, the setup packet,
  the metadata an interface declares (`InterfaceInfo`), the registry record
  (`Entry`), the platform constants and the observable hardware `Event`s.
- `descriptors.dfy` (`Descriptors`): the bytes of the configuration,
  interface, endpoint, string and device descriptors, as functions.
- `endpoints.dfy` (`Endpoints`): the endpoint budget (`SumAlloc`) and the
  numbering `initEndpoints()` performs (`Assigned`), with lemmas about them.
- `control.dfy` (`Control`): what a control request does, as functions of
  the device state. It covers routing to interfaces, descriptor selection,
  the standard-request switch, the stall rule, the interrupt fan-out and the
  `start()` life cycle.
- `codal_usb.dfy` (`CodalUsbDevice`): the class `CodalUsb`. Its fields are
  the registry, `endpointsUsed`, `startDelayCount`, the file-level flags
  `usb_status`, `usb_configured` and `usb_initialised`, the string table and
  the device descriptor. Its methods follow the C++ loops and are proved
  against the functions above. Each hardware call (write, stall, set
  address, configure, clear stall) and each interface-handler call is
  appended to a ghost `trace`.

The interface handlers (`stdRequest`, `classRequest`, `endpointRequest`) are
code this model cannot see. A request method therefore takes `results`, the
status each registered interface's handler would return to this packet, and
records each call it makes as a `Handler(position, kind)` event.

Status codes follow the runtime: `DEVICE_OK` is 0, `DEVICE_NOT_SUPPORTED` is
-1002 and `DEVICE_NO_RESOURCES` is -1005. Only their signs affect the core.
A `usb_assert` the caller must avoid becomes a precondition. A `usb_assert`
the code itself guarantees becomes a proved `assert`.

Places where the code departs from USB 2.0, and the model follows the code,
include these:

- Section 9.2.7 of USB 2.0 has a device answer a request it does not support
  with a Request Error, a STALL of the control pipe. The switch in
  `source/driver-models/CodalUSB.cpp:322-379` has no `default` case and sets
  no error status, so a standard request code without a case does nothing:
  no byte is sent and there is no stall
  (`Control.UnknownStandardRequestIgnored`).
- GET_INTERFACE and SET_INTERFACE are standard requests of USB 2.0
  section 9.4. The switch has no case for them either, so they are ignored
  in the same way and never reach the interfaces.
- Section 9.4.5 of USB 2.0 has GET_STATUS to an endpoint report its Halt
  bit. The code (lines 325-329) sends 0 for every request type other than
  device-to-host, standard, device, even for a stalled endpoint
  (`Control.GetStatusReply`).
- Section 9.4.9 of USB 2.0 has SET_FEATURE(ENDPOINT_HALT) halt the endpoint.
  The code (lines 349-354) acknowledges it with a zero-length packet and
  halts nothing (`Control.SetFeatureReply`).

## Model

| member | source | states |
|---|---|---|
| UsbTypes.WValue | source/driver-models/CodalUSB.cpp:314 | the 16-bit wValue has wValueL as its low byte and wValueH as its high byte |
| UsbTypes.SetTop | source/driver-models/CodalUSB.cpp:144 | `0x80 \| ep` has the direction bit set and keeps the endpoint number's low seven bits |
| UsbTypes.WithRemoteWakeup | source/driver-models/CodalUSB.cpp:352 | the remote-wakeup bit of usb_status is set and every other bit is kept |
| UsbTypes.WithoutRemoteWakeup | source/driver-models/CodalUSB.cpp:335 | the remote-wakeup bit of usb_status is cleared and every other bit is kept |
| Descriptors.ConfigHeader | source/driver-models/CodalUSB.cpp:117-120 | the configuration header is 9 bytes and holds the total length as its 16-bit field stores it and the interface count as its 8-bit field stores it (its other bytes, type 2 among them, are stated by ConfigHeaderPatched) |
| Descriptors.LE16 | source/driver-models/CodalUSB.cpp:146 | a 16-bit field is stored as two bytes, low byte first, whose little-endian value is the field's value |
| Descriptors.ConfigHeaderPatched | source/driver-models/CodalUSB.cpp:117-120 | the header is static_config with bytes 2 to 4 overwritten by the length and the count |
| Descriptors.InterfaceDescriptor | source/driver-models/CodalUSB.cpp:84-99 | fillInterfaceInfo produces a 9-byte interface descriptor |
| Descriptors.EndpointDescriptor | source/driver-models/CodalUSB.cpp:141-164 | an endpoint descriptor is 7 bytes |
| Descriptors.Block | source/driver-models/CodalUSB.cpp:128-171 | one interface's block is 9 + 7 × numEndpoints + supplemental size bytes long, the size the first pass adds for it |
| Descriptors.BlockLayout | source/driver-models/CodalUSB.cpp:128-171 | field by field: the interface descriptor with the registration index and every declared field, then the supplemental bytes unchanged, then the IN descriptor at address 0x80 \| in.ep, then, for two endpoints, the OUT descriptor at address out.ep with the IN endpoint's attributes and interval |
| Descriptors.BlocksTo | source/driver-models/CodalUSB.cpp:128-171 | the second pass writes, for the first n interfaces, exactly as many bytes as the first pass counts for them |
| Descriptors.Blocks | source/driver-models/CodalUSB.cpp:128-171 | the second pass writes exactly as many bytes as the first pass counts |
| Descriptors.BodyMonotone | source/driver-models/CodalUSB.cpp:108-115 | the sizes the first pass sums for the first i interfaces never exceed those for the first j ≥ i, nor the whole body |
| Descriptors.ConfigTail | source/driver-models/CodalUSB.cpp:117-171 | after the 9-byte header, the descriptor sent is exactly the interfaces' blocks |
| Descriptors.ConfigSplit | source/driver-models/CodalUSB.cpp:117-171 | the descriptor sent is wTotalLength bytes: the header for that length and count, then the blocks |
| Descriptors.ConfigLengthField | source/driver-models/CodalUSB.cpp:117-119 | the header's 16-bit length field equals the number of bytes sent when that number fits 16 bits |
| Descriptors.ConfigCountField | source/driver-models/CodalUSB.cpp:120 | bNumInterfaces equals the registry length when that fits 8 bits |
| Descriptors.ConfigBytes | source/driver-models/CodalUSB.cpp:117-175 | the configuration descriptor sent is wTotalLength = 9 + the sum of the block sizes bytes long (its header and blocks are stated by ConfigSplit) |
| Descriptors.ConfigHeaderAgrees | source/driver-models/CodalUSB.cpp:105-175 | the bytes sent number wTotalLength; the header's length field equals the bytes sent when the total fits 16 bits; bNumInterfaces is the registry length when that fits 8 bits |
| Descriptors.BlocksPrefix | source/driver-models/CodalUSB.cpp:128-171 | the blocks of the first i interfaces are a prefix of the blocks of the first j ≥ i |
| Descriptors.BlocksAt | source/driver-models/CodalUSB.cpp:128-171 | interface k's block follows the blocks of the interfaces before it |
| Descriptors.ConfigBlockAt | source/driver-models/CodalUSB.cpp:128-171 | in the sent descriptor, interface k's block starts 9 + (sizes of interfaces before k) bytes in |
| Descriptors.Utf16 | source/driver-models/CodalUSB.cpp:216-218 | each character becomes a 16-bit code unit: the character, then a zero byte |
| Descriptors.Utf16RoundTrip | source/driver-models/CodalUSB.cpp:216-218 | taking the low byte of each code unit gives the original string back |
| Descriptors.StringDescriptor | source/driver-models/CodalUSB.cpp:210-221 | a string descriptor has length 2 × strlen + 2 in byte 0 and type 3 in byte 1, followed by the characters as code units |
| Descriptors.StringDescriptorRoundTrip | source/driver-models/CodalUSB.cpp:210-221 | reading bLength bytes and narrowing the code units recovers the table entry |
| Descriptors.Ascii | source/driver-models/CodalUSB.cpp:65-69 | a string literal's bytes, none of them NUL |
| Descriptors.DeviceDescriptorBytes | source/driver-models/CodalUSB.cpp:48-63 | the device descriptor is 18 bytes, with bLength 18 and type 1 |
| Descriptors.DeviceDescriptorRoundTrip | source/driver-models/CodalUSB.cpp:48-63 | reading the 18 bytes back gives all twelve fields of the device descriptor, the 16-bit ones little-endian |
| Descriptors.DefaultDeviceDescriptorImage | source/driver-models/CodalUSB.cpp:48-63 | the default device descriptor goes on the wire as 18, 1, USB 0x0200, class 0xEF/0x02/0x01, 64-byte packets, the vendor and product ids, release 0x4202, strings 1 to 3 and one configuration |
| Endpoints.SumAllocAppend | source/driver-models/CodalUSB.cpp:265 | registering an interface adds exactly its allocateEndpoints to the total |
| Endpoints.ConsumedMonotone | source/driver-models/CodalUSB.cpp:412-435 | the first i interfaces never consume more numbers than the first j ≥ i, and every well-formed interface in between consumes at least one |
| Endpoints.ConsumedAgree | source/driver-models/CodalUSB.cpp:435 | the numbers consumed depend only on the interfaces' allocateEndpoints |
| Endpoints.ConsumedBefore | source/driver-models/CodalUSB.cpp:412-435 | each interface's allocation starts after those of the interfaces before it and ends within the total |
| Endpoints.SumAllocInfoOnly | source/driver-models/CodalUSB.cpp:420-433 | the endpoint total depends only on the interfaces' metadata, not on the endpoints assigned |
| Endpoints.AssignOne | source/driver-models/CodalUSB.cpp:420-433 | rebuilding one interface's endpoints keeps its metadata and its index |
| Endpoints.AssignedTo | source/driver-models/CodalUSB.cpp:412-436 | the first n iterations of the walk yield n interfaces (what each holds is stated by AssignedToAt) |
| Endpoints.Assigned | source/driver-models/CodalUSB.cpp:412-436 | the walk keeps the registry length (what each interface holds is stated by AssignedAt) |
| Endpoints.AssignedToAt | source/driver-models/CodalUSB.cpp:428-435 | after any number of iterations, interface k's endpoints are those built with the counter at 1 + the numbers its predecessors consumed, which stays within 8 bits |
| Endpoints.AssignedAt | source/driver-models/CodalUSB.cpp:428-435 | interface k's IN endpoint is 1 + the allocations of the interfaces before it; its OUT endpoint is built as lines 429-433 say |
| Endpoints.InNumber | source/driver-models/CodalUSB.cpp:428 | interface k's IN endpoint number is 1 + the numbers the interfaces before it consume |
| Endpoints.AssignedKeepsRegistry | source/driver-models/CodalUSB.cpp:412-436 | the walk keeps every interface's metadata and index, and so its endpoint total |
| Endpoints.AssignedContiguous | source/driver-models/CodalUSB.cpp:399-438 | numbering starts at 1 and is contiguous; there is an OUT endpoint exactly for two-endpoint interfaces, numbered in + allocateEndpoints − 1; the counter ends at endpointsUsed |
| Endpoints.AssignedDisjoint | source/driver-models/CodalUSB.cpp:428-435 | every number of an earlier interface is below every number of a later one, so no two interfaces share an endpoint |
| Endpoints.AssignedIgnoresOldEndpoints | source/driver-models/CodalUSB.cpp:420-426 | the endpoints an interface held before are dropped and play no part in the result |
| Endpoints.AssignedIdempotent | source/driver-models/CodalUSB.cpp:399-439 | running initEndpoints twice gives the same numbering as running it once |
| Control.RouteTarget | source/driver-models/CodalUSB.cpp:277-283 | a request names an interface or an endpoint, never both; an interface index is below 256 and an endpoint number below 128, as the masks 0xff and 0x7f leave them |
| Control.RouteFrom | source/driver-models/CodalUSB.cpp:287-300 | the search from position i returns DEVICE_OK or DEVICE_NOT_SUPPORTED and calls handlers of the given kind only, at positions from i on, in strictly increasing order, so at most one per remaining interface |
| Control.Route | source/driver-models/CodalUSB.cpp:275-301 | interfaceRequest returns DEVICE_OK or DEVICE_NOT_SUPPORTED and calls only the standard or class handler its isClass argument selects, at registered positions in strictly increasing order, so at most one per interface |
| Control.FirstAccept | source/driver-models/CodalUSB.cpp:287-297 | the stopping point of the search: a targeted interface that accepts, with no accepting targeted interface before it, or the end of the registry |
| Control.RouteFromSpec | source/driver-models/CodalUSB.cpp:287-300 | the search from position i returns DEVICE_OK exactly when it stops at an accepting interface, and DEVICE_NOT_SUPPORTED otherwise; it calls the targeted handlers in order up to and including that interface, or all of them when none accepts |
| Control.RouteSpec | source/driver-models/CodalUSB.cpp:275-301 | interfaceRequest succeeds exactly when a targeted interface accepts; the first accepting interface in registration order ends the search |
| Control.CandidatesMatch | source/driver-models/CodalUSB.cpp:289-290 | a handler is called exactly for the interfaces whose index or IN/OUT endpoint number the request targets |
| Control.ClearStallsFrom | source/driver-models/CodalUSB.cpp:339-345 | every stall cleared is on the endpoint number the request names, at most one per interface |
| Control.ClearStallsExact | source/driver-models/CodalUSB.cpp:339-345 | an IN stall is cleared exactly when some interface has an IN endpoint of that number; an OUT stall exactly when some interface has an OUT endpoint of that number and no IN endpoint of it |
| Control.ClearStallsSharedNumber | source/driver-models/CodalUSB.cpp:341-344 | the else-if: an interface whose IN and OUT endpoints share the number has only its IN stall cleared |
| Control.GetStatusReply | source/driver-models/CodalUSB.cpp:324-330 | GET_STATUS sends two bytes: usb_status only for the device-to-host, standard, device request type, zero otherwise |
| Control.ClearFeatureReply | source/driver-models/CodalUSB.cpp:332-348 | CLEAR_FEATURE clears the wakeup bit only for DEVICE_REMOTE_WAKEUP to the device; sent to an endpoint, it clears the stalls ClearStallsFrom gives for wIndex & 0x7f: the IN stall exactly when some interface has an IN endpoint of that number, the OUT stall exactly when some interface has only an OUT endpoint of it; it always ends with one zero-length packet and never stalls |
| Control.SetFeatureReply | source/driver-models/CodalUSB.cpp:349-354 | SET_FEATURE sets the wakeup bit only for DEVICE_REMOTE_WAKEUP to the device and sends one zero-length packet |
| Control.SetAddressAcksFirst | source/driver-models/CodalUSB.cpp:355-358 | SET_ADDRESS sends the zero-length acknowledgement before the address is latched |
| Control.DescriptorReply | source/driver-models/CodalUSB.cpp:185-229 | sendDescriptors returns DEVICE_OK or DEVICE_NOT_SUPPORTED; for the device, configuration and string types it sends exactly one descriptor on success and nothing on failure; any other type only calls standard-request handlers |
| Control.DeviceDescriptorReply | source/driver-models/CodalUSB.cpp:192-193 | GET_DESCRIPTOR(device) always succeeds and sends exactly the 18-byte device descriptor |
| Control.OtherDescriptorRouted | source/driver-models/CodalUSB.cpp:223-226 | GET_DESCRIPTOR of another type goes to the standard-request handlers; when no targeted interface accepts, all targeted handlers are called and the control endpoint then stalls (lines 386-387) |
| Control.ConfigDescriptorReply | source/driver-models/CodalUSB.cpp:189-190 | GET_DESCRIPTOR(configuration) sends the composite configuration descriptor |
| Control.StringDescriptorReply | source/driver-models/CodalUSB.cpp:195-222 | GET_DESCRIPTOR(string): index 0 sends {4, 3, 9, 4} (language 0x0409); an index past the table or a missing entry stalls; otherwise the entry's string descriptor is sent |
| Control.SetDescriptorStalls | source/driver-models/CodalUSB.cpp:362-364 | SET_DESCRIPTOR stalls exactly once |
| Control.GetConfigurationReply | source/driver-models/CodalUSB.cpp:365-368 | GET_CONFIGURATION always reports configuration 1 |
| Control.SetConfigurationReply | source/driver-models/CodalUSB.cpp:370-378 | SET_CONFIGURATION to the device stores wValueL in usb_initialised and acknowledges with DEVICE_OK; to any other destination it returns DEVICE_NOT_SUPPORTED, keeps usb_initialised and stalls; usb_status is never changed |
| Control.UnknownStandardRequestIgnored | source/driver-models/CodalUSB.cpp:322-379 | a standard request code with no case sends nothing, does not stall and changes no flag |
| Control.ClassRequestRouted | source/driver-models/CodalUSB.cpp:381-387 | every non-standard request goes to the class handlers; when no targeted interface accepts, all targeted handlers are called and the control endpoint then stalls |
| Control.StandardRequest | source/driver-models/CodalUSB.cpp:322-379 | the switch returns DEVICE_OK or DEVICE_NOT_SUPPORTED; it stalls itself exactly for SET_DESCRIPTOR; only SET_CONFIGURATION changes usb_initialised; only CLEAR_FEATURE and SET_FEATURE change usb_status, and only its remote-wakeup bit |
| Control.Dispatch | source/driver-models/CodalUSB.cpp:306-391 | setupRequest's internal status is DEVICE_OK or DEVICE_NOT_SUPPORTED (the method itself returns nothing); a DEVICE_NOT_SUPPORTED status ends with a stall; no stall comes before the last event; a non-standard request changes neither flag |
| Control.FanOut | source/driver-models/CodalUSB.cpp:393-397 | the interrupt calls every interface's endpointRequest once, in registration order |
| Control.StartTransition | source/driver-models/CodalUSB.cpp:441-462 | one start() decrements the 8-bit delay count (0 wraps to 255); it configures only an unconfigured device on a platform with endpoints; the device is configured afterwards exactly when it was before or this call configured it |
| Control.StartCalls | source/driver-models/CodalUSB.cpp:441-462 | after n start() calls, at most n configured, and the device is configured exactly when it was at the start or some call configured it |
| Control.StartStepSpec | source/driver-models/CodalUSB.cpp:441-462 | one start(): it configures exactly when the device is unconfigured, the delay count was 1 and the platform has endpoints; it fails exactly when the count was 1 and there are no endpoints; it never unconfigures |
| Control.ConfigureAtMostOnce | source/driver-models/CodalUSB.cpp:441-462 | over any number of start() calls the endpoints are configured at most once, and never on a configured device or on a platform without endpoints |
| Control.FirstStartConfigures | source/driver-models/CodalUSB.cpp:441-462 | from the constructor's delay count of 1, the first start() configures when the platform has endpoints |
| CodalUsbDevice.DefaultStrings | source/driver-models/CodalUSB.cpp:65-69 | the default table has three NUL-free strings |
| CodalUsbDevice.CopyInto | source/driver-models/CodalUSB.cpp:123-125 | memcpy at the cursor leaves the bytes before it alone and advances the cursor by the size copied |
| CodalUsbDevice.BuildStringDescriptor | source/driver-models/CodalUSB.cpp:204-221 | the filled StringDescriptor, cut to its length field, is the string descriptor of the table entry |
| CodalUsbDevice.WriteHeader | source/driver-models/CodalUSB.cpp:117-120 | after the copy and the patch, the buffer starts with the configuration header for the computed length and count |
| CodalUsbDevice.ConfigLength | source/driver-models/CodalUSB.cpp:103-115 | the first pass computes wTotalLength = 9 + the sum of the block sizes, and counts the interfaces |
| CodalUsbDevice.WriteBlocks | source/driver-models/CodalUSB.cpp:121-171 | the second pass fills the buffer to its end with every interface's block, after the header |
| CodalUsbDevice.WriteBlock | source/driver-models/CodalUSB.cpp:128-170 | one interface's descriptors are appended at the cursor |
| CodalUsbDevice.AssignEndpoints | source/driver-models/CodalUSB.cpp:412-436 | the numbering loop computes Assigned(registry), and its counter ends at 1 + the total allocation |
| CodalUsbDevice.CodalUsb.constructor | source/driver-models/CodalUSB.cpp:71-82 | empty registry, endpointsUsed 1 (the control endpoint), start delayed by one call, the default device descriptor and strings, no control endpoints yet |
| CodalUsbDevice.CodalUsb.Add | source/driver-models/CodalUSB.cpp:239-268 | over budget: DEVICE_NO_RESOURCES and nothing changes; otherwise the interface is appended with index = count registered before (mod 256) and endpointsUsed grows by its allocation; the registry invariant is kept |
| CodalUsbDevice.CodalUsb.InitEndpoints | source/driver-models/CodalUSB.cpp:399-439 | the registry becomes Assigned(old registry); the control endpoints exist; the check that the counter ends at endpointsUsed is proved |
| CodalUsbDevice.CodalUsb.SendConfig | source/driver-models/CodalUSB.cpp:101-180 | exactly one write, of ConfigBytes(registry); the check at line 173 that the cursor equals the header length is proved |
| CodalUsbDevice.CodalUsb.InterfaceRequest | source/driver-models/CodalUSB.cpp:275-301 | the handler calls and the status are those of Route, whose properties RouteSpec states |
| CodalUsbDevice.CodalUsb.SendDescriptors | source/driver-models/CodalUSB.cpp:185-229 | the events and the status are those of DescriptorReply |
| CodalUsbDevice.CodalUsb.ClearEndpointStalls | source/driver-models/CodalUSB.cpp:337-346 | the stalls cleared are ClearStallsFrom(registry, ep) |
| CodalUsbDevice.CodalUsb.StandardSetup | source/driver-models/CodalUSB.cpp:311-379 | the events, the status, usb_status and usb_initialised are those of the standard-request switch StandardRequest; the registry invariant is kept |
| CodalUsbDevice.CodalUsb.SetupRequest | source/driver-models/CodalUSB.cpp:306-391 | the events, usb_status and usb_initialised are those of Dispatch, whose per-request behaviour the Control lemmas state; the registry invariant is kept |
| CodalUsbDevice.CodalUsb.InterruptHandler | source/driver-models/CodalUSB.cpp:393-397 | the handler calls are FanOut(registry length) |
| CodalUsbDevice.CodalUsb.Start | source/driver-models/CodalUSB.cpp:441-462 | the new delay count, usb_configured and the status are those of StartTransition, and a Configure(endpointsUsed) event happens exactly when it configures |

## Left out

- `source/streams/StreamFlowTrigger.cpp` is not part of this model.
- The hardware layer (`usb_configure`, `usb_set_address`, endpoint `write`, `stall`, `clearStall`) is not modelled; the model records each call as a trace event. A write's status is taken to be `DEVICE_OK`.
- The `ctrlIn->wLength` bookkeeping (lines 318 and 390) is left out. It depends on how the hardware layer's write consumes the length.
- Logging (`DMESG`, `LOG`), `getInstance()` (lines 231-237), `isInitialised()` (lines 270-273) and `usb_panic` are left out. They only log, create the single instance, or read a flag.
- The interface handlers' bodies and side effects are outside this core. Their return values are an input (`results`).
- Interrupt timing and concurrency between `interruptHandler` and `setupRequest` are left out.
- Raw memory is left out: the linked list of interfaces is a sequence, the same interface object registered twice is not modelled, and `delete` of the old endpoint objects is not modelled.
- `CodalUSB.h` and `ErrorNo.h` are not part of this model. The status-code values, the 8-bit widths of `interfaceIdx`, `endpointsUsed`, `startDelayCount` and the endpoint numbers, the capacity of `StringDescriptor.data`, `DEVICE_USB_ENDPOINTS`, `USB_MAX_PKT_SIZE` and the default vendor/product ids are therefore assumptions or `Platform` parameters.
- CodalUsbDevice.CodalUsb.SetupRequest: requires the control endpoints to exist (`ctrlReady`), as line 318 dereferences `ctrlIn`. For GET_DESCRIPTOR(configuration), it also requires every interface to have the endpoints it declares and a total under 64 KiB (the run-time checks at lines 169 and 173). For GET_DESCRIPTOR(string), it requires the string to fit the descriptor buffer (line 214).
- CodalUsbDevice.CodalUsb.InitEndpoints: requires every interface to allocate one or two endpoints and declare no fewer (lines 416-418), where the code panics instead.
- CodalUsbDevice.CodalUsb.Add: requires the device to be unconfigured (line 241), where the code panics instead.
- UsbTypes.ValidPlatform: `DEVICE_USB_ENDPOINTS` is taken to be at most 255, so the 8-bit endpoint counter cannot wrap, and the string capacity at most 126, so a string descriptor's length 2 × strlen + 2 fits its 8-bit field.
- Descriptors.StringDescriptor: strings are 8-bit characters, each widened to a code unit with a zero high byte. Whether `char` is signed is not modelled.
