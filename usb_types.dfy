/** Data model of the USB device-side control core: status codes, the
    request constants of USB 2.0 chapter 9, the setup packet, the interface
    metadata an interface supplies, the registry record the device keeps per
    interface, and the hardware events the core causes. */
module UsbTypes {

  type uint8 = x: int | 0 <= x < 0x100
  type uint16 = x: int | 0 <= x < 0x1_0000

  datatype Option<T> = None | Some(value: T)

  // Status codes of the device runtime (only their signs matter to the core).
  const DEVICE_OK: int := 0
  const DEVICE_NOT_SUPPORTED: int := -1002
  const DEVICE_NO_RESOURCES: int := -1005

  // bmRequestType fields, USB 2.0 Table 9-2.
  const REQ_DIRECTION: uint8 := 0x80
  const REQ_HOSTTODEVICE: uint8 := 0x00
  const REQ_DEVICETOHOST: uint8 := 0x80
  const REQ_TYPE: uint8 := 0x60
  const REQ_STANDARD: uint8 := 0x00
  const REQ_CLASS: uint8 := 0x20
  const REQ_VENDOR: uint8 := 0x40
  const REQ_DESTINATION: uint8 := 0x1F
  const REQ_DEVICE: uint8 := 0x00
  const REQ_INTERFACE: uint8 := 0x01
  const REQ_ENDPOINT: uint8 := 0x02

  // Standard request codes, USB 2.0 Table 9-4.
  const GET_STATUS: uint8 := 0
  const CLEAR_FEATURE: uint8 := 1
  const SET_FEATURE: uint8 := 3
  const SET_ADDRESS: uint8 := 5
  const GET_DESCRIPTOR: uint8 := 6
  const SET_DESCRIPTOR: uint8 := 7
  const GET_CONFIGURATION: uint8 := 8
  const SET_CONFIGURATION: uint8 := 9

  // Descriptor types, USB 2.0 Table 9-5.
  const DEVICE_DESCRIPTOR_TYPE: uint8 := 1
  const CONFIGURATION_DESCRIPTOR_TYPE: uint8 := 2
  const STRING_DESCRIPTOR_TYPE: uint8 := 3
  const INTERFACE_DESCRIPTOR_TYPE: uint8 := 4
  const ENDPOINT_DESCRIPTOR_TYPE: uint8 := 5

  // Feature selector DEVICE_REMOTE_WAKEUP, USB 2.0 Table 9-6.
  const DEVICE_REMOTE_WAKEUP: uint16 := 1
  // Remote-wakeup bit of the device status word, USB 2.0 Figure 9-4.
  const FEATURE_REMOTE_WAKEUP_ENABLED: uint8 := 0x02
  // bmAttributes of the configuration: bit 7 is reserved and set, USB 2.0 Table 9-10.
  const CONFIG_BUS_POWERED: uint8 := 0x80

  /** One control-transfer setup packet (USB 2.0 section 9.3). */
  datatype Setup = Setup(
    bmRequestType: uint8,
    bRequest: uint8,
    wValueL: uint8,
    wValueH: uint8,
    wIndex: uint16,
    wLength: uint16)

  /** (wValueH << 8) | wValueL. */
  function WValue(setup: Setup): (v: uint16)
    ensures v % 256 == setup.wValueL && v / 256 == setup.wValueH
  {
    setup.wValueH * 256 + setup.wValueL
  }

  /** bmRequestType & USB_REQ_TYPE (bits 6..5). */
  function RequestKind(requestType: uint8): (k: uint8)
  {
    (requestType / 32) % 4 * 32
  }

  /** bmRequestType & USB_REQ_DESTINATION (bits 4..0). */
  function Destination(requestType: uint8): (d: uint8)
  {
    requestType % 32
  }

  /** 0x80 | b: the byte with its top bit set. */
  function SetTop(b: uint8): (r: uint8)
    ensures r >= 0x80 && r % 0x80 == b % 0x80
  {
    if b < 0x80 then b + 0x80 else b
  }

  /** (s & USB_FEATURE_REMOTE_WAKEUP_ENABLED) != 0. */
  predicate RemoteWakeup(s: uint8)
  {
    (s / 2) % 2 == 1
  }

  /** s | USB_FEATURE_REMOTE_WAKEUP_ENABLED: the wakeup bit set, the others kept. */
  function WithRemoteWakeup(s: uint8): (r: uint8)
    ensures RemoteWakeup(r) && r / 4 == s / 4 && r % 2 == s % 2
  {
    if RemoteWakeup(s) then s else s + FEATURE_REMOTE_WAKEUP_ENABLED
  }

  /** s & ~USB_FEATURE_REMOTE_WAKEUP_ENABLED: the wakeup bit cleared, the others kept. */
  function WithoutRemoteWakeup(s: uint8): (r: uint8)
    ensures !RemoteWakeup(r) && r / 4 == s / 4 && r % 2 == s % 2
  {
    if RemoteWakeup(s) then s - FEATURE_REMOTE_WAKEUP_ENABLED else s
  }

  /** The little-endian 16-bit value of two bytes. */
  function Word(lo: uint8, hi: uint8): nat
  {
    lo as int + 256 * hi as int
  }

  /** Interface-descriptor fields an interface declares about itself. */
  datatype InterfaceDescriptorInfo = InterfaceDescriptorInfo(
    numEndpoints: uint8,
    alternate: uint8,
    interfaceClass: uint8,
    interfaceSubClass: uint8,
    protocol: uint8,
    iInterfaceString: uint8)

  /** Endpoint-descriptor fields an interface declares about one endpoint. */
  datatype EndpointDescriptorInfo = EndpointDescriptorInfo(attr: uint8, interval: uint8)

  /** What getInterfaceInfo() returns; the supplemental descriptor carries its own size. */
  datatype InterfaceInfo = InterfaceInfo(
    supplementalDescriptor: seq<uint8>,
    allocateEndpoints: uint8,
    iface: InterfaceDescriptorInfo,
    epIn: EndpointDescriptorInfo,
    epOut: EndpointDescriptorInfo)

  /** The hardware endpoint object an interface owns: its number and transfer type. */
  datatype Endpoint = Endpoint(ep: uint8, attr: uint8)

  /** One registered interface: its metadata, the index given at registration
      and the endpoint objects assigned to it (absent until assigned). */
  datatype Entry = Entry(
    info: InterfaceInfo,
    interfaceIdx: uint8,
    inEp: Option<Endpoint>,
    outEp: Option<Endpoint>)

  /** Which of an interface's three handlers was invoked. */
  datatype HandlerKind = StdRequest | ClassRequest | EndpointRequest

  /** Observable effects of the core, in the order they happen. */
  datatype Event =
    | Send(bytes: seq<uint8>)          // control IN write; an empty write is a zero-length packet
    | Stall                          // control IN stall
    | SetAddress(address: uint16)      // latch the device address
    | Configure(endpoints: nat)      // realise this many endpoints in hardware
    | ClearStall(ep: uint8, inDirection: bool)
    | Handler(position: nat, kind: HandlerKind)  // handler of the interface at this registry position

  /** Platform constants: DEVICE_USB_ENDPOINTS, USB_MAX_PKT_SIZE, the default
      vendor and product ids, and how many UTF-16 units StringDescriptor.data holds. */
  datatype Platform = Platform(
    usbEndpoints: nat,
    maxPacketSize: uint16,
    vendorId: uint16,
    productId: uint16,
    stringCapacity: nat)

  /** Ranges the model needs: the 8-bit endpoint counters cannot wrap, and a
      string descriptor's length fits its 8-bit length field. */
  predicate ValidPlatform(p: Platform)
  {
    p.usbEndpoints <= 255 && p.stringCapacity <= 126
  }
}
