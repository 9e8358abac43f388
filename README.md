# beagledroid-kbd: a model of the `usbkbd.c` driver core

`usbkbd.c` is a Linux USB driver that turns an Android phone into a pointing
device for a BeagleBoard. When a matching phone attaches in ordinary mode,
the driver sends it the Android Open Accessory (AOA) handshake, a fixed
sequence of vendor control requests that makes the phone re-enumerate in
accessory mode. When it attaches in accessory mode (vendor 0x18D1, product
0x2D00 to 0x2D05), the driver binds an input device to it, polls an 8-byte
report buffer and turns each report into input events: a tap of key 32 and a
relative motion for each non-zero byte pair. The input core's LED requests
are handled by latest-value-wins coalescing logic meant for a single
outbound LED transfer; as written, that transfer is never set up (its fill,
usbkbd.c:677-681, is commented out), so `usb_submit_urb` refuses it for
lack of a completion handler, every submission fails and `usb_kbd_led`
never runs: each LED request records its byte in `newleds`; one that
differs from `*leds` is copied into `*leds`, and its submission fails and
is logged.

The model is split the way the driver's logic is:

- `kernel.dfy` (module `Kernel`): the byte type, `Option`, the kernel
  constants the driver uses (errno values, event types, LED and key codes)
  and the input events a handler can report.
- `cstrings.dfy` (module `CStrings`): `strlcpy`, `strlcat` and the `%04x`
  conversion of `snprintf`, on C strings represented by their characters.
- `idstring.dfy` (module `IdString`): the identification-string encoder
  `utf8`, as an imperative method writing into a freshly allocated array,
  proved against the byte-sequence function `Output`.
- `irq.dfy` (module `InboundIrq`): the completion handler `usb_kbd_irq`,
  its status classification and the event stream it reports.
- `leds.dfy` (module `LedSync`): `usb_kbd_event` and `usb_kbd_led` as
  methods of a class holding `newleds`, the one-byte buffer `*leds` and
  `led_urb_submitted`, each proved equal to a pure transition function;
  the coalescing and at-most-one-in-flight properties are proved about
  those functions over arbitrary interleavings.
- `probe.dfy` (module `Probe`): `usb_kbd_probe`'s decisions: accessory-mode
  classification, the handshake request list, the endpoint scan, the
  inbound transfer length, the key-capability set, and the device name and
  physical path.

Two facts about the code shape the model:

- the handshake ignores every control request's return value and always
  sends all nine requests (usbkbd.c:693-710);
- the endpoint scan takes the first bulk IN endpoint (usbkbd.c:587-588),
  and when there is none it is left on the last endpoint examined.

Outcomes the driver does not decide are parameters: whether an allocation or
a transfer submission succeeds (the LED submission outcome is left open so
that the model also describes the coalescing logic; the path the code
actually takes, a failed submission, is the one `LedSync.FailedSubmissionNotRetried`
covers), the maximum packet size of the endpoint, and
the result of registering the input device. Two ghost fields record what the
USB core sees of the LED transfers: how many are in flight and the value each
accepted one carries.

## Model

| member | source | states |
|---|---|---|
| IdString.EncodeByte | usbkbd.c:182-188 | a byte with its high bit set is written once and unchanged; a 7-bit byte becomes two non-zero bytes, a C0/C1 lead and a 10xxxxxx continuation, from which the byte is recovered |
| IdString.PutEncoded | usbkbd.c:183-188 | the writes for one input byte append exactly its encoding after what is already in the buffer |
| IdString.Utf8 | usbkbd.c:175-193 | allocation failure gives null; otherwise the buffer has `1 + 2 * strlen` bytes and begins with the encoding of the string followed by one NUL |
| IdString.EncodeLength | usbkbd.c:178-190 | the encoding has one byte per high-bit byte and two per 7-bit byte, so with its NUL it fits the `1 + 2 * strlen` allocation |
| IdString.EncodeNoNul | usbkbd.c:181-190 | no encoded byte is NUL, so the result reads back as a C string exactly as long as the encoding |
| IdString.EncodePlacement | usbkbd.c:181-189 | order is preserved: the encoding of input byte `i` sits right after the encoding of the bytes before it |
| IdString.DecodeEncode | usbkbd.c:185-187 | a 7-bit string, such as each identification string, is read back unchanged by a lenient decoder |
| IdString.EncodeNotInjective | usbkbd.c:183-187 | with high-bit input the encoding is ambiguous: C1 81 and "A" give the same bytes |
| InboundIrq.Classify | usbkbd.c:283-293 | status 0 is success; -ECONNRESET, -ENOENT and -ESHUTDOWN are terminal; every other status is transient |
| InboundIrq.ReportMotion | usbkbd.c:320-327 | the loop over the four byte pairs reports exactly the motion stream of the buffer |
| InboundIrq.UsbKbdIrq | usbkbd.c:278-363 | a terminal status reports nothing and does not resubmit; a transient one reports nothing and resubmits; success reports the key-32 tap and then the motion stream, and resubmits |
| InboundIrq.MotionRoundTrip | usbkbd.c:320-327 | the motion stream is one REL_X, REL_Y, sync triple per non-zero pair, in buffer order, carrying the pair's bytes |
| InboundIrq.MotionBounds | usbkbd.c:320-327 | three events per non-zero pair, at most one triple per pair, every delta on the X or Y axis and in 0..255 |
| InboundIrq.SuccessEventCount | usbkbd.c:311-327 | a successful completion reports between 2 and 14 events, the motion part in whole triples |
| LedSync.LedReport | usbkbd.c:375-377 | bit 0 is Num Lock, bit 1 Caps Lock, bit 2 Scroll Lock, bit 3 Compose or Kana, bits 4 to 7 clear |
| LedSync.LedReportEqual | usbkbd.c:375-377 | two LED sets give the same byte exactly when they agree on Num, Caps, Scroll and on Compose-or-Kana |
| LedSync.OnEvent | usbkbd.c:365-400 | a non-LED event returns -1 and changes nothing; an LED event returns 0 and records the new byte; it submits only when no transfer is in flight and the byte differs from `*leds`, and then `*leds` takes the byte and the flag is set exactly when the submission succeeds |
| LedSync.OnComplete | usbkbd.c:402-428 | when `*leds` equals `newleds` the flag clears and nothing is sent; otherwise `*leds` takes `newleds` and is resubmitted, and the flag clears only when that submission fails |
| LedSync.EventKeepsInv | usbkbd.c:379-395 | the event hook keeps the invariant: at most one transfer in flight, the flag says whether one is, and it carries `*leds` |
| LedSync.CompleteKeepsInv | usbkbd.c:411-425 | the completion handler keeps the same invariant |
| LedSync.AtMostOneInFlight | usbkbd.c:365-428 | under any interleaving of hook calls and completions at most one LED transfer is in flight |
| LedSync.RequestsWhileInFlight | usbkbd.c:379-382 | LED requests arriving while a transfer is in flight only overwrite `newleds`; the last one wins |
| LedSync.Coalescing | usbkbd.c:375-425 | any number of requests during a transfer lead to at most one further transfer, carrying the last value, and none when that value was just sent |
| LedSync.ThreeRequestsOneTransfer | usbkbd.c:379-425 | requests v1, v2, v3 during the transfer of v0 give exactly one further transfer, carrying v3 |
| LedSync.FailedSubmissionNotRetried | usbkbd.c:384-395 | a byte whose submission failed is still recorded in `*leds`, so asking for it again sends nothing |
| LedSync.UsbKbd.constructor | usbkbd.c:155-173 | the zeroed structure: no LED wanted, no transfer in flight, `*leds` as allocated |
| LedSync.UsbKbd.Event | usbkbd.c:365-400 | the hook's effect on the fields and its return value are those of `OnEvent`, and the invariant holds after it |
| LedSync.UsbKbd.LedComplete | usbkbd.c:402-428 | the completion's effect on the fields is that of `OnComplete`, and the invariant holds after it |
| Probe.IsAccessoryMode | usbkbd.c:486-488 | a device is in accessory mode exactly when its vendor is 0x18D1 and its product is 0x2D00 to 0x2D05 |
| Probe.HandshakeRequests | usbkbd.c:693-710 | nine requests in order, built as by the helpers at usbkbd.c:195-247: GET_PROTOCOL (51, device-to-host), SEND_ID (52) with index 0 to 5, REGISTER_AUDIO (58, value 1), AOA_ACTIVATE (53); all but the first host-to-device vendor requests; every value but the audio one is 0, and every index but the SEND_ID ones is 0 |
| Probe.ScanEndpoints | usbkbd.c:576-594 | the selected endpoint is the first bulk IN endpoint; with none, the last endpoint examined |
| Probe.IrqLength | usbkbd.c:664-666 | the inbound transfer length is the packet size, capped at the 8-byte buffer |
| Probe.KeyCapabilities | usbkbd.c:651-657 | the key bitmap holds BTN_SIDE, BTN_EXTRA and the first 255 table codes, without code 0 |
| Probe.KeyBitsComplete | usbkbd.c:81-98 | every non-zero code of the 256-entry table is advertised, so are both mouse buttons, never code 0, and nothing outside the key range |
| Probe.FallbackName | usbkbd.c:625-629 | the fallback name is 28 characters |
| Probe.FallbackNameIds | usbkbd.c:625-629 | the fallback name is "USB HIDBP Keyboard ", the vendor id in four lower-case, zero-padded hex digits, ":" and the product id likewise, each reading back as the id |
| Probe.DeviceName | usbkbd.c:614-632 | the name always fits its 128-byte buffer |
| Probe.DeviceNameSpec | usbkbd.c:614-632 | the name is never empty: it is "manufacturer product" cut to 127 characters, or the fallback name exactly when that is empty |
| Probe.DevicePath | usbkbd.c:635-636 | the physical path always fits its 64-byte buffer |
| Probe.DevicePathSpec | usbkbd.c:635-636 | the physical path is "usb-bus-devpath/input0" cut to 63 characters, and all of it when it fits |
| Probe.UsbKbdProbe | usbkbd.c:473-729 | a device not in accessory mode gets the handshake; otherwise a failed allocation gives -ENOMEM, a failed registration its error, and success binds the scanned endpoint, its interval, the capped length, the name, the path and the event, LED, relative-axis and key capabilities |
| CStrings.StrlCpy | usbkbd.c:614-615 | `strlcpy` keeps the first `size - 1` characters |
| CStrings.StrlCat | usbkbd.c:619-622 | `strlcat` gives the concatenation cut to `size - 1` characters |
| CStrings.TruncateAppend | usbkbd.c:619-622 | cutting, appending and cutting again is one cut of the whole concatenation |
| CStrings.StrlCatTwice | usbkbd.c:619-622 | two `strlcat` calls are one cut of the three-part concatenation |
| CStrings.HexDigit | usbkbd.c:626-629 | each digit written for `%x` is one of 0-9 or a-f and reads back as its value |
| CStrings.Hex | usbkbd.c:626-629 | `%0<width>x` writes exactly `width` characters, each a lower-case hexadecimal digit |
| CStrings.HexRoundTrip | usbkbd.c:626-629 | the `%04x` digits read back as the value printed |

## Left out

- The transfer primitives `usb_control_msg`, `usb_submit_urb` and `usb_kill_urb`, DMA and coherent buffers, and input registration and event delivery are kernel calls: a submission's outcome and the registration result are parameters, and reported events are returned as a list.
- `usb_kbd_open` and `usb_kbd_close` (usbkbd.c:430-446) and `usb_kbd_disconnect` (usbkbd.c:731-743) only submit, kill or free kernel objects.
- `usb_kbd_alloc_mem` and `usb_kbd_free_mem` (usbkbd.c:448-471) are collapsed into one `allocOk` parameter of the probe; which object failed and what is freed on the error paths is not modelled.
- The `leds_lock` spinlock: each LED handler is one atomic step.
- The data stage of the control requests: the buffer and length arguments (pointer sizes at usbkbd.c:205 and 217), the identification strings themselves and the leaked `utf8` buffers. The request list records request, type, value and index.
- The control-request setup for the LED transfer (usbkbd.c:671-675) and the commented-out LED transfer fill (usbkbd.c:677-681). Because the fill is commented out, the LED transfer has no completion handler, pipe or buffer, so the kernel rejects each submission (usbkbd.c:392, 422) and `usb_kbd_led` never runs; the model leaves the submission outcome open so that it also covers the coalescing logic for a transfer that is set up.
- Commented-out and unused code: the key-difference scan, the endpoint dumps, `RegisterHID`, `SetConfiguration` and the mouse report descriptor.
- The device ID table and all logging.
- The status of a completed LED transfer, which is only logged.
- The input core's own filtering of reported events (repeated values, capability checks) is not part of this model.
- `usb_make_path` is not part of this file: `Probe.UsbMakePath` models it as "usb-bus-devpath" cut to the buffer.
- `usb_maxpacket` is a parameter of the probe.
- Probe.UsbKbdProbe: requires an accessory-mode interface to have at least two endpoints, because the driver reads endpoints 0 and 1 unconditionally; with fewer it reads past the descriptor array, which the model does not describe. That input is reachable: the device ID table matches the audio-class interfaces of product 0x2D05 (usbkbd.c:759-760), whose first altsetting normally has no endpoints, so usbkbd.c:555-556 dereferences an endpoint that does not exist (the guard that returned -ENODEV, usbkbd.c:496-503, is commented out).
- Probe.UsbKbdProbe: requires vendor and product ids below 0x10000, the range of the 16-bit descriptor fields.
- C strings are modelled by their characters before the NUL; `utf8` reads its input from memory that holds a NUL, and characters outside a byte are not considered.
