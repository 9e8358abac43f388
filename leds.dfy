/**
 * The LED feedback path: the input core's event hook `usb_kbd_event` and the
 * completion handler `usb_kbd_led` of the outbound LED transfer. They share
 * three fields of `struct usb_kbd`: `newleds` (the latest desired LED byte),
 * `*leds` (the one-byte buffer the outbound transfer carries) and
 * `led_urb_submitted` (a transfer is in flight). Each handler runs under the
 * `leds_lock` spinlock, so each is one atomic step here.
 *
 * Submitting a transfer is a step of the USB core that may succeed or fail;
 * its outcome is a parameter. Two pieces of bookkeeping describe what the USB
 * core sees: `inFlight`, the number of LED transfers submitted and not yet
 * completed, and `transfers`, the value carried by every transfer accepted so
 * far, oldest first.
 */
module LedSync {
  import opened Kernel

  function Bit(b: bool): byte
  {
    if b then 1 else 0
  }

  /**
   * The LED byte `usb_kbd_event` computes from the set of lit LEDs of the
   * input device: Num, Caps and Scroll in bits 0 to 2, Compose and Kana both
   * in bit 3, bits 4 to 7 clear.
   */
  function LedReport(lit: set<int>): (r: byte)
    ensures (r & 0x01 != 0) <==> LED_NUML in lit
    ensures (r & 0x02 != 0) <==> LED_CAPSL in lit
    ensures (r & 0x04 != 0) <==> LED_SCROLLL in lit
    ensures (r & 0x08 != 0) <==> (LED_COMPOSE in lit || LED_KANA in lit)
    ensures r & 0xF0 == 0
  {
    (Bit(LED_KANA in lit) << 3) | (Bit(LED_COMPOSE in lit) << 3) |
    (Bit(LED_SCROLLL in lit) << 2) | (Bit(LED_CAPSL in lit) << 1) |
    Bit(LED_NUML in lit)
  }

  /** Two LED sets give the same byte exactly when they agree on every LED the byte can show. */
  lemma LedReportEqual(a: set<int>, b: set<int>)
    ensures LedReport(a) == LedReport(b) <==>
      (LED_NUML in a <==> LED_NUML in b) &&
      (LED_CAPSL in a <==> LED_CAPSL in b) &&
      (LED_SCROLLL in a <==> LED_SCROLLL in b) &&
      (LED_COMPOSE in a || LED_KANA in a <==> LED_COMPOSE in b || LED_KANA in b)
  {
    var ra, rb := LedReport(a), LedReport(b);
    if (LED_NUML in a <==> LED_NUML in b) &&
       (LED_CAPSL in a <==> LED_CAPSL in b) &&
       (LED_SCROLLL in a <==> LED_SCROLLL in b) &&
       (LED_COMPOSE in a || LED_KANA in a <==> LED_COMPOSE in b || LED_KANA in b)
    {
      assert ra & 0x0F == rb & 0x0F;
      assert ra == ra & 0x0F && rb == rb & 0x0F;
    }
  }

  /** The shared LED state with the USB core's view of the outbound transfers. */
  datatype LedState = LedState(
    newleds: byte,
    leds: byte,
    submitted: bool,
    inFlight: nat,
    transfers: seq<byte>)

  /**
   * The invariant the two handlers keep: at most one LED transfer is in
   * flight, `led_urb_submitted` says exactly whether one is, and the one in
   * flight carries the value in `*leds`.
   */
  predicate Inv(s: LedState)
  {
    && s.inFlight <= 1
    && (s.submitted <==> s.inFlight == 1)
    && (s.submitted ==> |s.transfers| > 0 && s.transfers[|s.transfers| - 1] == s.leds)
  }

  datatype EventResult = EventResult(state: LedState, ret: int)

  /**
   * `usb_kbd_event(dev, type, code, value)` with `lit` the LEDs lit on `dev`.
   * Any type but EV_LED is refused with -1 and changes nothing. An LED event
   * records the new byte and returns 0; it submits a transfer only when none
   * is in flight and the byte differs from `*leds`, and then `*leds` takes
   * the byte even if the submission fails.
   */
  function OnEvent(s: LedState, evType: int, lit: set<int>, submitOk: bool): (r: EventResult)
    ensures evType != EV_LED ==> r.ret == -1 && r.state == s
    ensures evType == EV_LED ==> r.ret == 0 && r.state.newleds == LedReport(lit)
    ensures evType == EV_LED && (s.submitted || s.leds == LedReport(lit)) ==>
      r.state == s.(newleds := LedReport(lit))
    ensures evType == EV_LED && !s.submitted && s.leds != LedReport(lit) ==>
      && r.state.leds == LedReport(lit)
      && (r.state.submitted <==> submitOk)
      && r.state.transfers == s.transfers + (if submitOk then [LedReport(lit)] else [])
  {
    if evType != EV_LED then EventResult(s, -1)
    else
      var s1 := s.(newleds := LedReport(lit));
      if s1.submitted then EventResult(s1, 0)
      else if s1.leds == s1.newleds then EventResult(s1, 0)
      else
        var s2 := s1.(leds := s1.newleds);
        if !submitOk then EventResult(s2, 0)
        else EventResult(s2.(submitted := true, inFlight := s2.inFlight + 1,
                             transfers := s2.transfers + [s2.leds]), 0)
  }

  /**
   * `usb_kbd_led`: the LED transfer in flight has completed (its status is
   * only logged). When `*leds` already equals `newleds` the flag clears and
   * nothing is sent; otherwise `*leds` takes `newleds` and is sent again, and
   * the flag clears only if that submission fails.
   */
  function OnComplete(s: LedState, submitOk: bool): (t: LedState)
    requires s.inFlight > 0
    ensures t.newleds == s.newleds && t.leds == s.newleds
    ensures s.leds == s.newleds ==>
      t == s.(submitted := false, inFlight := s.inFlight - 1)
    ensures s.leds != s.newleds ==>
      && t.transfers == s.transfers + (if submitOk then [s.newleds] else [])
      && t.inFlight == (if submitOk then s.inFlight else s.inFlight - 1)
      && t.submitted == (submitOk && s.submitted)
  {
    var s1 := s.(inFlight := s.inFlight - 1);
    if s1.leds == s1.newleds then s1.(submitted := false)
    else
      var s2 := s1.(leds := s1.newleds);
      if !submitOk then s2.(submitted := false)
      else s2.(inFlight := s2.inFlight + 1, transfers := s2.transfers + [s2.leds])
  }

  lemma EventKeepsInv(s: LedState, evType: int, lit: set<int>, submitOk: bool)
    requires Inv(s)
    ensures Inv(OnEvent(s, evType, lit, submitOk).state)
  {
  }

  lemma CompleteKeepsInv(s: LedState, submitOk: bool)
    requires Inv(s) && s.inFlight > 0
    ensures Inv(OnComplete(s, submitOk))
  {
  }

  /** What can happen next: a call of the event hook, or the completion of the LED transfer. */
  datatype Step =
    | Request(evType: int, lit: set<int>, submitOk: bool)
    | Completed(submitOk: bool)

  /** One step; the USB core completes only a transfer that is in flight, so a completion without one is no step. */
  function Apply(s: LedState, step: Step): LedState
  {
    match step
    case Request(t, lit, ok) => OnEvent(s, t, lit, ok).state
    case Completed(ok) => if s.inFlight > 0 then OnComplete(s, ok) else s
  }

  function Run(s: LedState, steps: seq<Step>): LedState
    decreases |steps|
  {
    if steps == [] then s else Run(Apply(s, steps[0]), steps[1..])
  }

  /** However the hook calls and completions interleave, at most one LED transfer is ever in flight. */
  lemma {:induction false} AtMostOneInFlight(s: LedState, steps: seq<Step>)
    requires Inv(s)
    ensures Inv(Run(s, steps))
    ensures Run(s, steps).inFlight <= 1
    decreases |steps|
  {
    if steps != [] {
      match steps[0] {
        case Request(t, lit, ok) => EventKeepsInv(s, t, lit, ok);
        case Completed(ok) => if s.inFlight > 0 { CompleteKeepsInv(s, ok); }
      }
      AtMostOneInFlight(Apply(s, steps[0]), steps[1..]);
    }
  }

  predicate LedRequests(steps: seq<Step>)
  {
    forall k :: 0 <= k < |steps| ==> steps[k].Request? && steps[k].evType == EV_LED
  }

  /**
   * While a transfer is in flight, LED requests only overwrite `newleds`:
   * the latest one wins and nothing is submitted.
   */
  lemma {:induction false} RequestsWhileInFlight(s: LedState, steps: seq<Step>)
    requires s.submitted && LedRequests(steps) && steps != []
    ensures Run(s, steps) == s.(newleds := LedReport(steps[|steps| - 1].lit))
    decreases |steps|
  {
    var s1 := Apply(s, steps[0]);
    assert s1 == s.(newleds := LedReport(steps[0].lit));
    if |steps| > 1 {
      var rest := steps[1..];
      assert LedRequests(rest) by {
        forall k | 0 <= k < |rest| ensures rest[k].Request? && rest[k].evType == EV_LED {
          assert rest[k] == steps[k + 1];
        }
      }
      RequestsWhileInFlight(s1, rest);
      assert rest[|rest| - 1] == steps[|steps| - 1];
    } else {
      assert steps[1..] == [];
    }
  }

  /**
   * Latest-value-wins coalescing: any number of LED requests arriving while
   * a transfer is in flight lead, when it completes, to at most one further
   * transfer, carrying the value of the last request; none if that value is
   * the one just sent. After that further transfer completes with no new
   * request, the flag clears and nothing more is sent.
   */
  lemma Coalescing(s: LedState, steps: seq<Step>, submitOk: bool, nextOk: bool)
    requires Inv(s) && s.submitted && LedRequests(steps) && steps != []
    ensures Run(s, steps) == s.(newleds := LedReport(steps[|steps| - 1].lit))
    ensures var v := LedReport(steps[|steps| - 1].lit);
      var t := OnComplete(Run(s, steps), submitOk);
      && Inv(t)
      && (v == s.leds ==> t.transfers == s.transfers && !t.submitted && t.inFlight == 0)
      && (v != s.leds ==> t.transfers == s.transfers + (if submitOk then [v] else []))
      && (v != s.leds ==> (t.submitted <==> submitOk))
      && (t.inFlight > 0 ==>
            OnComplete(t, nextOk).transfers == t.transfers && !OnComplete(t, nextOk).submitted)
  {
    RequestsWhileInFlight(s, steps);
    var u := Run(s, steps);
    AtMostOneInFlight(s, steps);
    CompleteKeepsInv(u, submitOk);
  }

  /**
   * The three-request case: requests for v1, v2, v3 while the transfer for
   * v0 is in flight give exactly one more transfer, carrying v3.
   */
  lemma ThreeRequestsOneTransfer(s: LedState, v1: set<int>, v2: set<int>, v3: set<int>)
    requires Inv(s) && s.submitted && LedReport(v3) != s.leds
    ensures Run(s, [Request(EV_LED, v1, true), Request(EV_LED, v2, true), Request(EV_LED, v3, true)]).inFlight == 1
    ensures var steps := [Request(EV_LED, v1, true), Request(EV_LED, v2, true), Request(EV_LED, v3, true)];
      var t := OnComplete(Run(s, steps), true);
      t.transfers == s.transfers + [LedReport(v3)] && t.submitted && t.inFlight == 1
  {
    var steps := [Request(EV_LED, v1, true), Request(EV_LED, v2, true), Request(EV_LED, v3, true)];
    assert LedRequests(steps);
    Coalescing(s, steps, true, true);
  }

  /**
   * When no transfer is in flight, a request for a byte that differs from
   * `*leds` is recorded in `*leds` even when its submission fails, so asking
   * for the same LEDs again sends nothing: the value is not retried until it
   * changes.
   */
  lemma FailedSubmissionNotRetried(s: LedState, lit: set<int>, againOk: bool)
    requires Inv(s) && !s.submitted && s.leds != LedReport(lit)
    ensures var t := OnEvent(s, EV_LED, lit, false).state;
      && t.transfers == s.transfers && !t.submitted
      && OnEvent(t, EV_LED, lit, againOk).state.transfers == s.transfers
  {
  }

  /** The LED part of `struct usb_kbd`. */
  class UsbKbd {
    var newleds: byte
    var leds: array<byte>
    var ledUrbSubmitted: bool
    ghost var inFlight: nat
    ghost var transfers: seq<byte>

    ghost function State(): LedState
      reads this, leds
      requires leds.Length == 1
    {
      LedState(newleds, leds[0], ledUrbSubmitted, inFlight, transfers)
    }

    ghost predicate Valid()
      reads this, leds
    {
      leds.Length == 1 && Inv(State())
    }

    /**
     * The state after probe: the structure is zeroed, the one-byte coherent
     * buffer `leds` holds whatever it was allocated with.
     */
    constructor (ledsBuffer: byte)
      ensures Valid() && fresh(leds)
      ensures State() == LedState(0, ledsBuffer, false, 0, [])
    {
      newleds := 0;
      leds := new byte[1] [ledsBuffer];
      ledUrbSubmitted := false;
      inFlight := 0;
      transfers := [];
    }

    /** `usb_kbd_event`; `submitOk` is the outcome of `usb_submit_urb` if it is called. */
    method Event(evType: int, lit: set<int>, submitOk: bool) returns (ret: int)
      requires Valid()
      modifies this, leds
      ensures Valid() && leds == old(leds)
      ensures EventResult(State(), ret) == OnEvent(old(State()), evType, lit, submitOk)
    {
      EventKeepsInv(State(), evType, lit, submitOk);
      if evType != EV_LED {
        return -1;
      }
      newleds := LedReport(lit);
      if ledUrbSubmitted {
        return 0;
      }
      if leds[0] == newleds {
        return 0;
      }
      leds[0] := newleds;
      if submitOk {
        ledUrbSubmitted := true;
        inFlight := inFlight + 1;
        transfers := transfers + [leds[0]];
      }
      return 0;
    }

    /** `usb_kbd_led`, run when the LED transfer in flight completes; `submitOk` as for Event. */
    method LedComplete(submitOk: bool)
      requires Valid() && inFlight > 0
      modifies this, leds
      ensures Valid() && leds == old(leds)
      ensures State() == OnComplete(old(State()), submitOk)
    {
      CompleteKeepsInv(State(), submitOk);
      inFlight := inFlight - 1;
      if leds[0] == newleds {
        ledUrbSubmitted := false;
        return;
      }
      leds[0] := newleds;
      if submitOk {
        inFlight := inFlight + 1;
        transfers := transfers + [leds[0]];
      } else {
        ledUrbSubmitted := false;
      }
    }
  }
}
