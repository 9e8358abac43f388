/**
 * The pieces of the Linux USB and input subsystems that the driver relies on:
 * a byte type, error numbers, event-type and code constants, and the shape of
 * an event handed to the input core.
 */
module Kernel {

  /** An unsigned 8-bit C value (`unsigned char`, `u8`). */
  type byte = bv8

  datatype Option<T> = None | Some(value: T)

  // Error numbers; the USB core reports them negated in a transfer's status.
  const ENOENT: int := 2
  const ENOMEM: int := 12
  const ECONNRESET: int := 104
  const ESHUTDOWN: int := 108

  // Event types.
  const EV_KEY: int := 0x01
  const EV_REL: int := 0x02
  const EV_LED: int := 0x11
  const EV_REP: int := 0x14

  // Relative axes.
  const REL_X: int := 0x00
  const REL_Y: int := 0x01
  const REL_WHEEL: int := 0x08

  // LED codes, i.e. bit numbers in an input device's LED bitmap.
  const LED_NUML: int := 0x00
  const LED_CAPSL: int := 0x01
  const LED_SCROLLL: int := 0x02
  const LED_COMPOSE: int := 0x03
  const LED_KANA: int := 0x04

  // Key and button codes.
  const KEY_D: int := 32
  const BTN_SIDE: int := 0x113
  const BTN_EXTRA: int := 0x114
  const KEY_CNT: int := 0x300

  /**
   * One event reported to the input core: `input_report_key` (a key going
   * down or up), `input_report_rel` (relative motion on one axis) or
   * `input_sync` (the end of a packet, EV_SYN/SYN_REPORT).
   */
  datatype InputEvent =
    | Key(code: int, pressed: bool)
    | Rel(axis: int, delta: int)
    | SynReport
}
