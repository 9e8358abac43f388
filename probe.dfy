/**
 * The decisions `usb_kbd_probe` takes when a matching interface attaches.
 * A phone already in Android Open Accessory mode (vendor 0x18D1, product
 * 0x2D00 to 0x2D05) is bound: the driver picks an endpoint, names the input
 * device, advertises its capabilities and sizes the inbound transfer. Any
 * other matching device is sent the fixed sequence of vendor control requests
 * that asks it to switch to accessory mode, after which it re-enumerates.
 */
module Probe {
  import opened Kernel
  import opened CStrings

  /** `usb_kbd_keycode`: the 256-entry scancode table; the entries after the 252 written out are zero. */
  const Keycode: seq<byte> := [
      0,   0,   0,   0,  30,  48,  46,  32,  18,  33,  34,  35,  23,  36,  37,  38,
     50,  49,  24,  25,  16,  19,  31,  20,  22,  47,  17,  45,  21,  44,   2,   3,
      4,   5,   6,   7,   8,   9,  10,  11,  28,   1,  14,  15,  57,  12,  13,  26,
     27,  43,  43,  39,  40,  41,  51,  52,  53,  58,  59,  60,  61,  62,  63,  64,
     65,  66,  67,  68,  87,  88,  99,  70, 119, 110, 102, 104, 111, 107, 109, 106,
    105, 108, 103,  69,  98,  55,  74,  78,  96,  79,  80,  81,  75,  76,  77,  71,
     72,  73,  82,  83,  86, 127, 116, 117, 183, 184, 185, 186, 187, 188, 189, 190,
    191, 192, 193, 194, 134, 138, 130, 132, 128, 129, 131, 137, 133, 135, 136, 113,
    115, 114,   0,   0,   0, 121,   0,  89,  93, 124,  92,  94,  95,   0,   0,   0,
    122, 123,  90,  91,  85,   0,   0,   0,   0,   0,   0,   0,   0,   0,   0,   0,
      0,   0,   0,   0,   0,   0,   0,   0,   0,   0,   0,   0,   0,   0,   0,   0,
      0,   0,   0,   0,   0,   0,   0,   0,   0,   0,   0,   0,   0,   0,   0,   0,
      0,   0,   0,   0,   0,   0,   0,   0,   0,   0,   0,   0,   0,   0,   0,   0,
      0,   0,   0,   0,   0,   0,   0,   0,   0,   0,   0,   0,   0,   0,   0,   0,
     29,  42,  56, 125,  97,  54, 100, 126, 164, 166, 165, 163, 161, 115, 114, 113,
    150, 158, 159, 128, 136, 177, 178, 176, 142, 152, 173, 140,   0,   0,   0,   0]

  // Android Open Accessory vendor requests and their arguments.
  const REQ_GET_PROTOCOL: int := 51
  const REQ_SEND_ID: int := 52
  const REQ_AOA_ACTIVATE: int := 53
  const ACCESSORY_REGISTER_AUDIO: int := 58
  const VAL_AOA_REQ: int := 0
  const VAL_AUDIO: int := 1
  const ID_MANU: int := 0
  const ID_MODEL: int := 1
  const ID_DESC: int := 2
  const ID_VERSION: int := 3
  const ID_URI: int := 4
  const ID_SERIAL: int := 5

  // bmRequestType parts.
  const USB_DIR_OUT: int := 0x00
  const USB_DIR_IN: int := 0x80
  const USB_TYPE_VENDOR: int := 0x40

  // Endpoint descriptor fields.
  const USB_ENDPOINT_DIR_MASK: byte := 0x80
  const USB_ENDPOINT_XFERTYPE_MASK: byte := 0x03
  const USB_ENDPOINT_XFER_BULK: byte := 0x02

  // Sizes of the `name` and `phys` buffers of `struct usb_kbd`.
  const NAME_SIZE: nat := 128
  const PHYS_SIZE: nat := 64

  /** A device in accessory mode: vendor 0x18D1 with product 0x2D00 to 0x2D05. */
  function IsAccessoryMode(vendor: int, product: int): (b: bool)
    ensures b <==> vendor == 0x18D1 && 0x2D00 <= product <= 0x2D05
  {
    vendor == 0x18D1 &&
    (product == 0x2D00 || product == 0x2D01 || product == 0x2D02 ||
     product == 0x2D03 || product == 0x2D04 || product == 0x2D05)
  }

  /** A vendor control request on endpoint 0, without its data stage. */
  datatype ControlRequest = ControlRequest(request: int, requestType: int, value: int, index: int)

  function GetProtocol(): ControlRequest
  {
    ControlRequest(REQ_GET_PROTOCOL, USB_DIR_IN + USB_TYPE_VENDOR, VAL_AOA_REQ, 0)
  }

  function SendIdentificationInfo(idIndex: int): ControlRequest
  {
    ControlRequest(REQ_SEND_ID, USB_DIR_OUT + USB_TYPE_VENDOR, VAL_AOA_REQ, idIndex)
  }

  function SendAudioActivationRequest(): ControlRequest
  {
    ControlRequest(ACCESSORY_REGISTER_AUDIO, USB_DIR_OUT + USB_TYPE_VENDOR, VAL_AUDIO, 0)
  }

  function SendAOAActivationRequest(): ControlRequest
  {
    ControlRequest(REQ_AOA_ACTIVATE, USB_DIR_OUT + USB_TYPE_VENDOR, VAL_AOA_REQ, 0)
  }

  /**
   * The requests a device not in accessory mode receives, in order. The
   * driver ignores what each request returns, so every one is sent: the
   * protocol query first (the only device-to-host request), then the six
   * identification strings by index 0 to 5, then the audio request with
   * value 1, and the switch to accessory mode last.
   */
  function HandshakeRequests(): (r: seq<ControlRequest>)
    ensures |r| == 9
    ensures r[0].request == REQ_GET_PROTOCOL && r[0].requestType == USB_DIR_IN + USB_TYPE_VENDOR
    ensures forall k :: 1 <= k <= 6 ==> r[k].request == REQ_SEND_ID && r[k].index == k - 1
    ensures r[7].request == ACCESSORY_REGISTER_AUDIO && r[7].value == VAL_AUDIO
    ensures r[8].request == REQ_AOA_ACTIVATE
    ensures forall k :: 1 <= k < |r| ==> r[k].requestType == USB_DIR_OUT + USB_TYPE_VENDOR
    ensures forall k :: 0 <= k < |r| && k != 7 ==> r[k].value == VAL_AOA_REQ
    ensures r[0].index == 0 && r[7].index == 0 && r[8].index == 0
  {
    [ GetProtocol(),
      SendIdentificationInfo(ID_MANU),
      SendIdentificationInfo(ID_MODEL),
      SendIdentificationInfo(ID_DESC),
      SendIdentificationInfo(ID_VERSION),
      SendIdentificationInfo(ID_URI),
      SendIdentificationInfo(ID_SERIAL),
      SendAudioActivationRequest(),
      SendAOAActivationRequest() ]
  }

  /** The fields of an endpoint descriptor the probe reads. */
  datatype EndpointDesc = EndpointDesc(address: byte, attributes: byte, interval: byte)

  predicate IsBulkIn(ep: EndpointDesc)
  {
    ep.address & USB_ENDPOINT_DIR_MASK == USB_DIR_IN as byte &&
    ep.attributes & USB_ENDPOINT_XFERTYPE_MASK == USB_ENDPOINT_XFER_BULK
  }

  /**
   * What the endpoint scan leaves selected: the first bulk IN endpoint if
   * there is one; otherwise the last endpoint examined, or, when there is
   * none to examine, endpoint 1, which the probe selected just before the
   * loop.
   */
  predicate IsScanResult(eps: seq<EndpointDesc>, sel: nat)
  {
    if exists j :: 0 <= j < |eps| && IsBulkIn(eps[j]) then
      sel < |eps| && IsBulkIn(eps[sel]) && forall j :: 0 <= j < sel ==> !IsBulkIn(eps[j])
    else
      sel == if |eps| == 0 then 1 else |eps| - 1
  }

  /** The loop over `interface->endpoint[]`, giving the index the `endpoint` pointer is left on. */
  method ScanEndpoints(eps: seq<EndpointDesc>) returns (sel: nat)
    ensures IsScanResult(eps, sel)
  {
    sel := 1;
    var i := 0;
    while i < |eps|
      invariant 0 <= i <= |eps|
      invariant forall j :: 0 <= j < i ==> !IsBulkIn(eps[j])
      invariant i > 0 ==> sel == i - 1
      invariant i == 0 ==> sel == 1
    {
      sel := i;
      if IsBulkIn(eps[i]) {
        return;
      }
      i := i + 1;
    }
  }

  /** The inbound transfer length: the endpoint's packet size, but never more than the 8-byte buffer. */
  function IrqLength(maxPacket: int): (n: int)
    ensures n <= 8 && n <= maxPacket
    ensures n == 8 || n == maxPacket
  {
    if maxPacket > 8 then 8 else maxPacket
  }

  /** The codes in the first `n` entries of a table. */
  function TableCodes(table: seq<byte>, n: nat): set<int>
    requires n <= |table|
  {
    set i | 0 <= i < n :: table[i] as int
  }

  lemma TableCodesStep(table: seq<byte>, n: nat)
    requires n < |table|
    ensures TableCodes(table, n + 1) == TableCodes(table, n) + {table[n] as int}
  {
    var k := table[n] as int;
    assert k in TableCodes(table, n + 1);
    forall c | c in TableCodes(table, n + 1) ensures c in TableCodes(table, n) + {k} {
      var i :| 0 <= i < n + 1 && c == table[i] as int;
      if i < n { assert c in TableCodes(table, n); }
    }
  }

  /** The key codes the probe advertises: BTN_SIDE, BTN_EXTRA and the first 255 table entries, without code 0. */
  function KeyBitsSpec(): set<int>
  {
    ({BTN_SIDE, BTN_EXTRA} + TableCodes(Keycode, 255)) - {0}
  }

  /** The key bitmap built with `set_bit` over the table and a final `clear_bit(0)`. */
  method KeyCapabilities() returns (keyBits: set<int>)
    ensures keyBits == KeyBitsSpec()
  {
    keyBits := {BTN_SIDE, BTN_EXTRA};
    var i := 0;
    while i < 255
      invariant 0 <= i <= 255
      invariant keyBits == {BTN_SIDE, BTN_EXTRA} + TableCodes(Keycode, i)
    {
      TableCodesStep(Keycode, i);
      keyBits := keyBits + {Keycode[i] as int};
      i := i + 1;
    }
    keyBits := keyBits - {0};
  }

  /**
   * The advertised key set holds every non-zero code of the whole table
   * (entry 255, which the loop skips, is zero), the two mouse buttons, never
   * code 0, and nothing beyond the input core's KEY_CNT codes.
   */
  lemma KeyBitsComplete()
    ensures 0 !in KeyBitsSpec()
    ensures BTN_SIDE in KeyBitsSpec() && BTN_EXTRA in KeyBitsSpec()
    ensures forall i :: 0 <= i < |Keycode| && Keycode[i] != 0 ==> Keycode[i] as int in KeyBitsSpec()
    ensures forall c :: c in KeyBitsSpec() ==> 0 < c < KEY_CNT
  {
    assert Keycode[255] == 0;
    forall i | 0 <= i < |Keycode| && Keycode[i] != 0
      ensures Keycode[i] as int in KeyBitsSpec()
    {
      assert i < 255;
      assert Keycode[i] as int in TableCodes(Keycode, 255);
    }
  }

  /** The characters the name buffer would hold without its size limit. */
  function Joined(manufacturer: Option<seq<char>>, product: Option<seq<char>>): seq<char>
  {
    (if manufacturer.Some? then manufacturer.value else []) +
    (if product.Some? then (if manufacturer.Some? then " " else []) + product.value else [])
  }

  /** The fallback name `"USB HIDBP Keyboard %04x:%04x"`. */
  function FallbackName(vendor: nat, product: nat): (name: seq<char>)
    requires vendor < 0x10000 && product < 0x10000
    ensures |name| == 28
  {
    Pow16Four();
    "USB HIDBP Keyboard " + Hex(vendor, 4) + ":" + Hex(product, 4)
  }

  /** The vendor and product ids read back from the fallback name's hexadecimal fields. */
  lemma FallbackNameIds(vendor: nat, product: nat)
    requires vendor < 0x10000 && product < 0x10000
    ensures FallbackName(vendor, product)[..19] == "USB HIDBP Keyboard "
    ensures FallbackName(vendor, product)[23] == ':'
    ensures ParseHex(FallbackName(vendor, product)[19..23]) == vendor
    ensures ParseHex(FallbackName(vendor, product)[24..]) == product
    ensures forall k :: 19 <= k < 28 && k != 23 ==> IsLowerHexDigit(FallbackName(vendor, product)[k])
  {
    Pow16Four();
    var name := FallbackName(vendor, product);
    assert name[19..23] == Hex(vendor, 4);
    assert name[24..] == Hex(product, 4);
    HexRoundTrip(vendor, 4);
    HexRoundTrip(product, 4);
  }

  /**
   * `kbd->name`: the manufacturer string copied with `strlcpy`, then, when
   * there is a product string, a space (only after a manufacturer string)
   * and the product appended with `strlcat`; an empty result is replaced by
   * the fallback name, written with `snprintf`.
   */
  function DeviceName(manufacturer: Option<seq<char>>, product: Option<seq<char>>,
                      vendor: nat, productId: nat): (name: seq<char>)
    requires vendor < 0x10000 && productId < 0x10000
    ensures |name| < NAME_SIZE
  {
    var copied := if manufacturer.Some? then StrlCpy(manufacturer.value, NAME_SIZE) else [];
    var appended :=
      if product.None? then copied
      else if manufacturer.Some? then StrlCat(StrlCat(copied, " ", NAME_SIZE), product.value, NAME_SIZE)
      else StrlCat(copied, product.value, NAME_SIZE);
    if |appended| == 0 then Truncate(FallbackName(vendor, productId), NAME_SIZE - 1) else appended
  }

  /**
   * The name is never empty and always fits its buffer: it is
   * "manufacturer product" cut to 127 characters, and the fallback name
   * exactly when that is empty.
   */
  lemma {:induction false} DeviceNameSpec(manufacturer: Option<seq<char>>, product: Option<seq<char>>,
                                          vendor: nat, productId: nat)
    requires vendor < 0x10000 && productId < 0x10000
    ensures var name := DeviceName(manufacturer, product, vendor, productId);
      && 0 < |name| < NAME_SIZE
      && (Joined(manufacturer, product) != [] ==> name == Truncate(Joined(manufacturer, product), NAME_SIZE - 1))
      && (Joined(manufacturer, product) == [] ==> name == FallbackName(vendor, productId))
  {
    var n := NAME_SIZE - 1;
    match (manufacturer, product) {
      case (Some(m), Some(p)) =>
        StrlCatTwice(Truncate(m, n), " ", p, NAME_SIZE);
        TruncateAppend(m, " " + p, n);
        assert Truncate(m, n) + " " + p == Truncate(m, n) + (" " + p);
        assert Joined(manufacturer, product) == m + (" " + p);
      case (Some(m), None) =>
        assert Joined(manufacturer, product) == m;
      case (None, Some(p)) =>
        assert Joined(manufacturer, product) == p;
        assert [] + p == p;
      case (None, None) =>
    }
  }

  /** `usb_make_path`: "usb-<bus>-<devpath>" written with `snprintf` into `size` bytes. */
  function UsbMakePath(busName: seq<char>, devpath: seq<char>, size: nat): (path: seq<char>)
    requires size > 0
    ensures |path| < size
  {
    Truncate("usb-" + busName + "-" + devpath, size - 1)
  }

  /** `kbd->phys`: the USB path with "/input0" appended by `strlcat`. */
  function DevicePath(busName: seq<char>, devpath: seq<char>): (phys: seq<char>)
    ensures |phys| < PHYS_SIZE
  {
    StrlCat(UsbMakePath(busName, devpath, PHYS_SIZE), "/input0", PHYS_SIZE)
  }

  /**
   * The physical path is "usb-<bus>-<devpath>/input0" cut to 63 characters;
   * when the whole of it fits, it ends in "/input0".
   */
  lemma DevicePathSpec(busName: seq<char>, devpath: seq<char>)
    ensures DevicePath(busName, devpath) == Truncate("usb-" + busName + "-" + devpath + "/input0", PHYS_SIZE - 1)
    ensures |busName| + |devpath| + 12 < PHYS_SIZE ==>
      DevicePath(busName, devpath) == "usb-" + busName + "-" + devpath + "/input0"
  {
    TruncateAppend("usb-" + busName + "-" + devpath, "/input0", PHYS_SIZE - 1);
  }

  /** What the probe learns about the attached device. */
  datatype UsbDevice = UsbDevice(
    vendor: int,
    product: int,
    manufacturer: Option<seq<char>>,
    productName: Option<seq<char>>,
    busName: seq<char>,
    devpath: seq<char>,
    endpoints: seq<EndpointDesc>)

  /** The input device and inbound transfer set up for a device in accessory mode. */
  datatype Binding = Binding(
    name: seq<char>,
    phys: seq<char>,
    endpoint: nat,
    interval: byte,
    irqLength: int,
    evBits: set<int>,
    ledBits: set<int>,
    relBits: set<int>,
    keyBits: set<int>)

  /** The probe's outcome: a handshake sent (and 0 returned), a bound device, or an error code. */
  datatype ProbeResult =
    | Handshake(requests: seq<ControlRequest>)
    | Bound(binding: Binding)
    | Failed(error: int)

  const EvBits: set<int> := {EV_KEY, EV_LED, EV_REP, EV_REL}
  const LedBits: set<int> := {LED_NUML, LED_CAPSL, LED_SCROLLL, LED_COMPOSE, LED_KANA}
  const RelBits: set<int> := {REL_X, REL_Y, REL_WHEEL}

  /**
   * `usb_kbd_probe`. `maxPacket` is what `usb_maxpacket` reports for the
   * selected endpoint's pipe, `allocOk` whether every allocation succeeded
   * and `registerError` what `input_register_device` returns. The probe
   * reads endpoints 0 and 1 before it scans, so an accessory-mode interface
   * is taken to have at least two.
   */
  method UsbKbdProbe(dev: UsbDevice, maxPacket: int, allocOk: bool, registerError: int)
    returns (r: ProbeResult)
    requires 0 <= dev.vendor < 0x10000 && 0 <= dev.product < 0x10000
    requires IsAccessoryMode(dev.vendor, dev.product) ==> |dev.endpoints| >= 2
    ensures !IsAccessoryMode(dev.vendor, dev.product) ==> r == Handshake(HandshakeRequests())
    ensures IsAccessoryMode(dev.vendor, dev.product) && !allocOk ==> r == Failed(-ENOMEM)
    ensures IsAccessoryMode(dev.vendor, dev.product) && allocOk && registerError != 0 ==>
      r == Failed(registerError)
    ensures IsAccessoryMode(dev.vendor, dev.product) && allocOk && registerError == 0 ==>
      && r.Bound?
      && IsScanResult(dev.endpoints, r.binding.endpoint)
      && r.binding.endpoint < |dev.endpoints|
      && r.binding.interval == dev.endpoints[r.binding.endpoint].interval
      && r.binding.irqLength == IrqLength(maxPacket)
      && r.binding.name == DeviceName(dev.manufacturer, dev.productName, dev.vendor, dev.product)
      && r.binding.phys == DevicePath(dev.busName, dev.devpath)
      && r.binding.evBits == EvBits && r.binding.ledBits == LedBits && r.binding.relBits == RelBits
      && r.binding.keyBits == KeyBitsSpec()
  {
    if !IsAccessoryMode(dev.vendor, dev.product) {
      return Handshake(HandshakeRequests());
    }
    var sel := ScanEndpoints(dev.endpoints);
    if !allocOk {
      return Failed(-ENOMEM);
    }
    var name := DeviceName(dev.manufacturer, dev.productName, dev.vendor, dev.product);
    var phys := DevicePath(dev.busName, dev.devpath);
    var keyBits := KeyCapabilities();
    var irqLength := IrqLength(maxPacket);
    if registerError != 0 {
      return Failed(registerError);
    }
    r := Bound(Binding(name, phys, sel, dev.endpoints[sel].interval, irqLength,
                       EvBits, LedBits, RelBits, keyBits));
  }
}
