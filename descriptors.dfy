/** The wire layout of the descriptors the core sends: the configuration,
    interface and endpoint descriptors of USB 2.0 sections 9.6.3, 9.6.5 and
    9.6.6 (9, 9 and 7 bytes), the string descriptor of section 9.6.7 and the
    18-byte device descriptor of section 9.6.1. Multi-byte fields are little-endian. */
module Descriptors {
  import opened UsbTypes

  const CONFIG_DESCRIPTOR_SIZE: nat := 9
  const INTERFACE_DESCRIPTOR_SIZE: nat := 9
  const ENDPOINT_DESCRIPTOR_SIZE: nat := 7

  function LE16(v: uint16): (r: seq<uint8>)
    ensures |r| == 2 && Word(r[0], r[1]) == v
  {
    [(v % 256), (v / 256)]
  }

  /** The configuration descriptor header with the given total length and
      interface count stored into its 16-bit and 8-bit fields; value 1,
      no string, bus powered, 250 units of 2 mA. */
  function ConfigHeader(total: nat, count: nat): (r: seq<uint8>)
    ensures |r| == CONFIG_DESCRIPTOR_SIZE
    ensures Word(r[2], r[3]) == total % 0x1_0000
    ensures r[4] == count % 256
  {
    [9, CONFIGURATION_DESCRIPTOR_TYPE] + LE16(total % 0x1_0000)
      + [(count % 256), 1, 0, CONFIG_BUS_POWERED, 250]
  }

  /** The static header the source copies before patching length and count. */
  const STATIC_CONFIG: seq<uint8> := [9, CONFIGURATION_DESCRIPTOR_TYPE, 0, 0, 0, 1, 0, CONFIG_BUS_POWERED, 250]

  /** The header is the static one with the length and count fields patched. */
  lemma ConfigHeaderPatched(total: nat, count: nat)
    ensures var lo: uint8, hi: uint8, n: uint8 := total % 0x1_0000 % 256, total % 0x1_0000 / 256, count % 256;
            ConfigHeader(total, count) == STATIC_CONFIG[2 := lo][3 := hi][4 := n]
  {
  }

  /** fillInterfaceInfo: the interface descriptor built from the interface's
      metadata and the index it was given at registration. */
  function InterfaceDescriptor(idx: uint8, info: InterfaceInfo): (r: seq<uint8>)
    ensures |r| == INTERFACE_DESCRIPTOR_SIZE
  {
    [9, INTERFACE_DESCRIPTOR_TYPE, idx, info.iface.alternate,
     info.iface.numEndpoints, info.iface.interfaceClass,
     info.iface.interfaceSubClass, info.iface.protocol, info.iface.iInterfaceString]
  }

  function EndpointDescriptor(address: uint8, attr: uint8, maxPacketSize: uint16, interval: uint8): (r: seq<uint8>)
    ensures |r| == ENDPOINT_DESCRIPTOR_SIZE
  {
    [7, ENDPOINT_DESCRIPTOR_TYPE, address, attr] + LE16(maxPacketSize) + [interval]
  }

  /** What sendConfig() needs of an entry: an IN endpoint, and an OUT endpoint
      when it declares two; any endpoint count other than 1 or 2 is a fault. */
  predicate Serialisable(e: Entry)
  {
    e.inEp.Some? &&
    (e.info.iface.numEndpoints == 1 || (e.info.iface.numEndpoints == 2 && e.outEp.Some?))
  }

  predicate AllSerialisable(es: seq<Entry>)
  {
    forall i :: 0 <= i < |es| ==> Serialisable(es[i])
  }

  /** The size the first pass of sendConfig() adds for one interface. */
  function BlockLength(info: InterfaceInfo): nat
  {
    INTERFACE_DESCRIPTOR_SIZE + info.iface.numEndpoints * ENDPOINT_DESCRIPTOR_SIZE
      + |info.supplementalDescriptor|
  }

  /** The second pass for one interface: interface descriptor, supplemental
      bytes, IN endpoint descriptor (address with the direction bit set), and
      for two endpoints an OUT descriptor that reuses the IN attributes and interval. */
  function Block(e: Entry, maxPacketSize: uint16): (r: seq<uint8>)
    requires Serialisable(e)
    ensures |r| == BlockLength(e.info)
  {
    var info := e.info;
    InterfaceDescriptor(e.interfaceIdx, info)
      + info.supplementalDescriptor
      + EndpointDescriptor(SetTop(e.inEp.value.ep), info.epIn.attr, maxPacketSize, info.epIn.interval)
      + (if info.iface.numEndpoints == 2
         then EndpointDescriptor(e.outEp.value.ep, info.epIn.attr, maxPacketSize, info.epIn.interval)
         else [])
  }

  /** Sum of the first pass's per-interface sizes over the first n interfaces. */
  function BodyTo(es: seq<Entry>, n: nat): nat
    requires n <= |es|
    decreases n
  {
    if n == 0 then 0 else BodyTo(es, n - 1) + BlockLength(es[n - 1].info)
  }

  /** Sum of the per-interface sizes of the first pass. */
  function BodyLength(es: seq<Entry>): nat
  {
    BodyTo(es, |es|)
  }

  /** wTotalLength as the first pass computes it. */
  function ConfigTotal(es: seq<Entry>): nat
  {
    CONFIG_DESCRIPTOR_SIZE + BodyLength(es)
  }

  /** The bytes the second pass writes for the first n interfaces, in
      registration order. Their number is exactly the first pass's sum. */
  function BlocksTo(es: seq<Entry>, n: nat, maxPacketSize: uint16): (r: seq<uint8>)
    requires AllSerialisable(es) && n <= |es|
    ensures |r| == BodyTo(es, n)
    decreases n
  {
    if n == 0 then []
    else BlocksTo(es, n - 1, maxPacketSize) + Block(es[n - 1], maxPacketSize)
  }

  /** The bytes of the second pass, interface by interface. */
  function Blocks(es: seq<Entry>, maxPacketSize: uint16): (r: seq<uint8>)
    requires AllSerialisable(es)
    ensures |r| == BodyLength(es)
  {
    BlocksTo(es, |es|, maxPacketSize)
  }

  /** The composite configuration descriptor sendConfig() sends. */
  function ConfigBytes(es: seq<Entry>, maxPacketSize: uint16): (r: seq<uint8>)
    requires AllSerialisable(es)
    ensures |r| == ConfigTotal(es)
  {
    ConfigHeader(ConfigTotal(es), |es|) + Blocks(es, maxPacketSize)
  }

  /** After the 9-byte header come the interfaces' blocks. */
  lemma ConfigTail(es: seq<Entry>, maxPacketSize: uint16)
    requires AllSerialisable(es)
    ensures |ConfigBytes(es, maxPacketSize)| == CONFIG_DESCRIPTOR_SIZE + BodyLength(es)
    ensures ConfigBytes(es, maxPacketSize)[CONFIG_DESCRIPTOR_SIZE..] == Blocks(es, maxPacketSize)
  {
    var c := ConfigBytes(es, maxPacketSize);
    var h := ConfigHeader(ConfigTotal(es), |es|);
    Split(c, h, Blocks(es, maxPacketSize));
  }

  /** The descriptor sent is the header followed by the interfaces' blocks,
      wTotalLength bytes in all. */
  lemma ConfigSplit(es: seq<Entry>, maxPacketSize: uint16)
    requires AllSerialisable(es)
    ensures |ConfigBytes(es, maxPacketSize)| == ConfigTotal(es)
    ensures ConfigBytes(es, maxPacketSize)[..CONFIG_DESCRIPTOR_SIZE] == ConfigHeader(ConfigTotal(es), |es|)
    ensures ConfigBytes(es, maxPacketSize)[CONFIG_DESCRIPTOR_SIZE..] == Blocks(es, maxPacketSize)
  {
    ConfigTail(es, maxPacketSize);
    Split(ConfigBytes(es, maxPacketSize), ConfigHeader(ConfigTotal(es), |es|), Blocks(es, maxPacketSize));
  }

  /** The header's 16-bit length field holds the number of bytes sent when
      that number fits the field. */
  lemma ConfigLengthField(es: seq<Entry>, maxPacketSize: uint16)
    requires AllSerialisable(es)
    ensures ConfigTotal(es) < 0x1_0000 ==>
              Word(ConfigBytes(es, maxPacketSize)[2], ConfigBytes(es, maxPacketSize)[3])
                == |ConfigBytes(es, maxPacketSize)|
  {
    ConfigSplit(es, maxPacketSize);
    var c, h := ConfigBytes(es, maxPacketSize), ConfigHeader(ConfigTotal(es), |es|);
    PrefixAt(c, h, 2);
    PrefixAt(c, h, 3);
  }

  /** The header's 8-bit bNumInterfaces holds the registry length when that fits. */
  lemma ConfigCountField(es: seq<Entry>, maxPacketSize: uint16)
    requires AllSerialisable(es)
    ensures |es| < 256 ==> ConfigBytes(es, maxPacketSize)[4] == |es|
  {
    ConfigSplit(es, maxPacketSize);
    PrefixAt(ConfigBytes(es, maxPacketSize), ConfigHeader(ConfigTotal(es), |es|), 4);
    HeaderCount(ConfigTotal(es), |es|);
  }

  /** The count byte of the header is the count itself when that fits. */
  lemma HeaderCount(total: nat, count: nat)
    ensures count < 256 ==> ConfigHeader(total, count)[4] == count
  {
  }

  /** The header agrees with what follows it: the bytes sent number exactly
      wTotalLength = 9 + sum of (9 + 7 * numEndpoints + supplemental size),
      and bNumInterfaces is the registry length (both as stored in their
      16- and 8-bit fields). */
  lemma ConfigHeaderAgrees(es: seq<Entry>, maxPacketSize: uint16)
    requires AllSerialisable(es)
    ensures |ConfigBytes(es, maxPacketSize)| == ConfigTotal(es)
    ensures ConfigTotal(es) < 0x1_0000 ==>
              Word(ConfigBytes(es, maxPacketSize)[2], ConfigBytes(es, maxPacketSize)[3])
                == |ConfigBytes(es, maxPacketSize)|
    ensures |es| < 256 ==> ConfigBytes(es, maxPacketSize)[4] == |es|
  {
    ConfigSplit(es, maxPacketSize);
    ConfigLengthField(es, maxPacketSize);
    ConfigCountField(es, maxPacketSize);
  }

  /** The first i interfaces take no more room than the first j. */
  lemma {:induction false} BodyMonotone(es: seq<Entry>, i: nat, j: nat)
    requires i <= j <= |es|
    ensures BodyTo(es, i) <= BodyTo(es, j) <= BodyLength(es)
    decreases |es| - i
  {
    if i < |es| {
      BodyMonotone(es, i + 1, if j == i then i + 1 else j);
    }
  }

  /** The slice of a sequence past a prefix it is known to start with. */
  lemma SliceAfter(all: seq<uint8>, a: seq<uint8>, b: seq<uint8>)
    requires |a| + |b| <= |all| && all[..|a| + |b|] == a + b
    ensures all[|a| .. |a| + |b|] == b
  {
    assert all[|a| .. |a| + |b|] == (a + b)[|a| ..];
  }

  /** A concatenation starts with its first part, element by element, and
      continues with its second. */
  lemma Split(c: seq<uint8>, h: seq<uint8>, b: seq<uint8>)
    requires c == h + b
    ensures c[..|h|] == h && c[|h|..] == b
  {
  }

  /** An element inside a known prefix. */
  lemma PrefixAt(c: seq<uint8>, h: seq<uint8>, i: nat)
    requires i < |h| <= |c| && c[..|h|] == h
    ensures c[i] == h[i]
  {
    assert c[..|h|][i] == c[i];
  }

  /** A prefix of a prefix is a prefix of the whole. */
  lemma PrefixChain(c: seq<uint8>, b: seq<uint8>, m: nat, x: seq<uint8>)
    requires |b| <= |c| && c[..|b|] == b && m <= |b| && b[..m] == x
    ensures c[..m] == x
  {
    assert c[..m] == c[..|b|][..m];
  }

  /** A slice of a suffix is a slice of the whole, shifted by the suffix's start. */
  lemma SliceOfSuffix(c: seq<uint8>, off: nat, t: seq<uint8>, lo: nat, hi: nat, x: seq<uint8>)
    requires off <= |c| && c[off..] == t && lo <= hi <= |t| && t[lo..hi] == x
    ensures off + hi <= |c| && c[off + lo .. off + hi] == x
  {
    assert c[off + lo .. off + hi] == c[off..][lo..hi];
  }

  /** The blocks of the first i interfaces are a prefix of the blocks of the first j. */
  lemma {:induction false} BlocksPrefix(es: seq<Entry>, i: nat, j: nat, maxPacketSize: uint16)
    requires AllSerialisable(es) && i <= j <= |es|
    ensures BodyTo(es, i) <= BodyTo(es, j)
    ensures BlocksTo(es, j, maxPacketSize)[..BodyTo(es, i)] == BlocksTo(es, i, maxPacketSize)
    decreases j - i
  {
    if i < j {
      BlocksPrefix(es, i, j - 1, maxPacketSize);
      var c, b := BlocksTo(es, j, maxPacketSize), BlocksTo(es, j - 1, maxPacketSize);
      Split(c, b, Block(es[j - 1], maxPacketSize));
      PrefixChain(c, b, BodyTo(es, i), BlocksTo(es, i, maxPacketSize));
    }
  }

  /** Interface k's block follows the blocks of the interfaces registered before it. */
  lemma BlocksAt(es: seq<Entry>, k: nat, maxPacketSize: uint16)
    requires AllSerialisable(es) && k < |es|
    ensures BodyTo(es, k) + BlockLength(es[k].info) <= BodyLength(es)
    ensures Blocks(es, maxPacketSize)[BodyTo(es, k) .. BodyTo(es, k) + BlockLength(es[k].info)]
              == Block(es[k], maxPacketSize)
  {
    BlocksPrefix(es, k + 1, |es|, maxPacketSize);
    SliceAfter(Blocks(es, maxPacketSize), BlocksTo(es, k, maxPacketSize), Block(es[k], maxPacketSize));
  }

  /** Interface k's block sits in the configuration descriptor right after the
      header and the blocks of the interfaces registered before it. */
  lemma ConfigBlockAt(es: seq<Entry>, k: nat, maxPacketSize: uint16)
    requires AllSerialisable(es) && k < |es|
    ensures CONFIG_DESCRIPTOR_SIZE + BodyTo(es, k) + BlockLength(es[k].info)
              <= |ConfigBytes(es, maxPacketSize)|
    ensures ConfigBytes(es, maxPacketSize)[CONFIG_DESCRIPTOR_SIZE + BodyTo(es, k)
                                          .. CONFIG_DESCRIPTOR_SIZE + BodyTo(es, k) + BlockLength(es[k].info)]
              == Block(es[k], maxPacketSize)
  {
    ConfigTail(es, maxPacketSize);
    BlocksAt(es, k, maxPacketSize);
    var lo := BodyTo(es, k);
    SliceOfSuffix(ConfigBytes(es, maxPacketSize), CONFIG_DESCRIPTOR_SIZE, Blocks(es, maxPacketSize),
                  lo, lo + BlockLength(es[k].info), Block(es[k], maxPacketSize));
  }

  /** Field by field, one interface's block: interface descriptor (type 4,
      its registration index, its endpoint count), then the supplemental
      bytes, then the IN endpoint descriptor with address 0x80 | in.ep, then,
      for two endpoints only, an OUT descriptor with address out.ep carrying
      the IN endpoint's attributes and interval. */
  lemma BlockLayout(e: Entry, maxPacketSize: uint16)
    requires Serialisable(e)
    ensures var b, s := Block(e, maxPacketSize), |e.info.supplementalDescriptor|;
      && b[0] == 9 && b[1] == INTERFACE_DESCRIPTOR_TYPE
      && b[2] == e.interfaceIdx && b[3] == e.info.iface.alternate
      && b[4] == e.info.iface.numEndpoints && b[5] == e.info.iface.interfaceClass
      && b[6] == e.info.iface.interfaceSubClass && b[7] == e.info.iface.protocol
      && b[8] == e.info.iface.iInterfaceString
      && b[9 .. 9 + s] == e.info.supplementalDescriptor
      && b[9 + s] == 7 && b[10 + s] == ENDPOINT_DESCRIPTOR_TYPE
      && b[11 + s] == SetTop(e.inEp.value.ep)
      && b[12 + s] == e.info.epIn.attr
      && Word(b[13 + s], b[14 + s]) == maxPacketSize
      && b[15 + s] == e.info.epIn.interval
      && (e.info.iface.numEndpoints == 2 ==>
            && b[16 + s] == 7 && b[17 + s] == ENDPOINT_DESCRIPTOR_TYPE
            && b[18 + s] == e.outEp.value.ep
            && b[19 + s] == e.info.epIn.attr
            && Word(b[20 + s], b[21 + s]) == maxPacketSize
            && b[22 + s] == e.info.epIn.interval)
      && |b| == 9 + s + 7 * e.info.iface.numEndpoints
  {
    var info := e.info;
    var s := |info.supplementalDescriptor|;
    var d := InterfaceDescriptor(e.interfaceIdx, info);
    var i := EndpointDescriptor(SetTop(e.inEp.value.ep), info.epIn.attr, maxPacketSize, info.epIn.interval);
    var b := Block(e, maxPacketSize);
    assert b[..9] == d;
    assert b[9 .. 9 + s] == info.supplementalDescriptor;
    assert b[9 + s .. 16 + s] == i;
    if info.iface.numEndpoints == 2 {
      var o := EndpointDescriptor(e.outEp.value.ep, info.epIn.attr, maxPacketSize, info.epIn.interval);
      assert b[16 + s .. 23 + s] == o;
    }
  }

  // ---- string descriptors ----

  /** A C string holds no NUL byte. */
  predicate NulFree(s: seq<uint8>)
  {
    forall i :: 0 <= i < |s| ==> s[i] != 0
  }

  /** Each byte widened to a little-endian 16-bit code unit. */
  function Utf16(s: seq<uint8>): (r: seq<uint8>)
    ensures |r| == 2 * |s|
    ensures forall k :: 0 <= k < |s| ==> r[2 * k] == s[k] && r[2 * k + 1] == 0
  {
    if s == [] then [] else [s[0], 0] + Utf16(s[1..])
  }

  /** The low bytes of a sequence of little-endian 16-bit code units. */
  function Narrow(r: seq<uint8>): (s: seq<uint8>)
    ensures |s| == |r| / 2
  {
    if |r| < 2 then [] else [r[0]] + Narrow(r[2..])
  }

  /** Widening loses nothing: narrowing the code units gives the string back. */
  lemma {:induction false} Utf16RoundTrip(s: seq<uint8>)
    ensures Narrow(Utf16(s)) == s
  {
    if s != [] {
      Utf16RoundTrip(s[1..]);
      assert Utf16(s)[2..] == Utf16(s[1..]);
    }
  }

  /** The string descriptor sent for a table entry: length 2 * strlen + 2,
      type 3, then the characters in order. */
  function StringDescriptor(s: seq<uint8>): (r: seq<uint8>)
    requires |s| <= 126
    ensures |r| == 2 * |s| + 2 && r[0] == |r| && r[1] == STRING_DESCRIPTOR_TYPE
    ensures forall k :: 0 <= k < |s| ==> r[2 + 2 * k] == s[k] && r[3 + 2 * k] == 0
  {
    [(2 * |s| + 2), STRING_DESCRIPTOR_TYPE] + Utf16(s)
  }

  /** A host reading bLength bytes and narrowing the code units after the
      two header bytes recovers the table entry. */
  lemma StringDescriptorRoundTrip(s: seq<uint8>)
    requires |s| <= 126
    ensures var r := StringDescriptor(s); r[0] == |r| && Narrow(r[2..r[0]]) == s
  {
    var r := StringDescriptor(s);
    assert r[2..r[0]] == Utf16(s);
    Utf16RoundTrip(s);
  }

  /** String descriptor 0: the language-ID table holding 0x0409 (English, United States). */
  const STRING0: seq<uint8> := [4, STRING_DESCRIPTOR_TYPE, 0x09, 0x04]

  /** Bytes of a 7-bit ASCII literal. */
  function Ascii(s: string): (r: seq<uint8>)
    requires forall i :: 0 <= i < |s| ==> 0 < s[i] as int < 128
    ensures |r| == |s| && NulFree(r)
    ensures forall i :: 0 <= i < |s| ==> r[i] == s[i] as int
  {
    seq(|s|, i requires 0 <= i < |s| => s[i] as int)
  }

  // ---- device descriptor ----

  datatype DeviceDescriptor = DeviceDescriptor(
    bcdUSB: uint16,
    deviceClass: uint8,
    deviceSubClass: uint8,
    deviceProtocol: uint8,
    maxPacketSize0: uint8,
    idVendor: uint16,
    idProduct: uint16,
    bcdDevice: uint16,
    iManufacturer: uint8,
    iProduct: uint8,
    iSerialNumber: uint8,
    numConfigurations: uint8)

  /** The device's default identity: USB 2.0, miscellaneous class with the
      interface-association code (0xEF/0x02/0x01), 64-byte control packets,
      device release 0x4202, strings 1 to 3, one configuration. */
  function DefaultDeviceDescriptor(vendorId: uint16, productId: uint16): DeviceDescriptor
  {
    DeviceDescriptor(0x0200, 0xEF, 0x02, 0x01, 0x40, vendorId, productId, 0x4202, 1, 2, 3, 1)
  }

  function DeviceDescriptorBytes(d: DeviceDescriptor): (r: seq<uint8>)
    ensures |r| == 18 && r[0] == |r| && r[1] == DEVICE_DESCRIPTOR_TYPE
  {
    [0x12, DEVICE_DESCRIPTOR_TYPE] + LE16(d.bcdUSB)
      + [d.deviceClass, d.deviceSubClass, d.deviceProtocol, d.maxPacketSize0]
      + LE16(d.idVendor) + LE16(d.idProduct) + LE16(d.bcdDevice)
      + [d.iManufacturer, d.iProduct, d.iSerialNumber, d.numConfigurations]
  }

  /** A little-endian 16-bit field read back, for the parser below. */
  function Word16(lo: uint8, hi: uint8): uint16
  {
    lo as int + 256 * hi as int
  }

  /** Reads the 18-byte wire image of a device descriptor back into its
      fields; anything else is refused. */
  function ParseDeviceDescriptor(b: seq<uint8>): Option<DeviceDescriptor>
  {
    if |b| != 18 || b[0] != 18 || b[1] != DEVICE_DESCRIPTOR_TYPE then None
    else Some(DeviceDescriptor(Word16(b[2], b[3]), b[4], b[5], b[6], b[7],
                               Word16(b[8], b[9]), Word16(b[10], b[11]), Word16(b[12], b[13]),
                               b[14], b[15], b[16], b[17]))
  }

  /** Every one of the twelve fields survives serialisation. */
  lemma DeviceDescriptorRoundTrip(d: DeviceDescriptor)
    ensures ParseDeviceDescriptor(DeviceDescriptorBytes(d)) == Some(d)
  {
    var r := DeviceDescriptorBytes(d);
    assert r[2..4] == LE16(d.bcdUSB) && r[8..10] == LE16(d.idVendor);
    assert r[10..12] == LE16(d.idProduct) && r[12..14] == LE16(d.bcdDevice);
  }

  /** The default device descriptor as it goes on the wire: USB 0x0200,
      class 0xEF/0x02/0x01, 64-byte packets, the given vendor and product,
      release 0x4202, strings 1 to 3, one configuration. */
  lemma DefaultDeviceDescriptorImage(vendorId: uint16, productId: uint16)
    ensures DeviceDescriptorBytes(DefaultDeviceDescriptor(vendorId, productId))
            == [18, 1, 0x00, 0x02, 0xEF, 0x02, 0x01, 0x40] + LE16(vendorId) + LE16(productId)
               + [0x02, 0x42, 1, 2, 3, 1]
  {
  }
}
