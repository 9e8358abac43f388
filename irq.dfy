/**
 * The completion handler of the inbound interrupt transfer, `usb_kbd_irq`.
 * The status of the finished transfer decides between three paths: success
 * (report events, then resubmit), a terminal status (the transfer was
 * unlinked or the device is going away: stop) and any other error (resubmit
 * without reporting anything). On success the handler reports a tap of key
 * 32 and then, for each of the four byte pairs of the reused 8-byte report
 * buffer that is not all zero, a relative motion REL_X, REL_Y and a sync.
 */
module InboundIrq {
  import opened Kernel

  datatype Completion = Success | Terminal | Transient

  /** How the handler's `switch (urb->status)` classifies a status. */
  function Classify(status: int): (c: Completion)
    ensures c == Success <==> status == 0
    ensures c == Terminal <==> status == -ECONNRESET || status == -ENOENT || status == -ESHUTDOWN
  {
    if status == 0 then Success
    else if status == -ECONNRESET || status == -ENOENT || status == -ESHUTDOWN then Terminal
    else Transient
  }

  /** The hard-coded press and release of key 32 that opens every successful completion. */
  const KeyTap: seq<InputEvent> := [Key(KEY_D, true), Key(KEY_D, false)]

  /** The events for one byte pair: nothing when both bytes are zero. */
  function PairEvents(x: byte, y: byte): seq<InputEvent>
  {
    if x != 0 || y != 0 then [Rel(REL_X, x as int), Rel(REL_Y, y as int), SynReport] else []
  }

  /** The motion events for the byte pairs of `report` from offset `i` on, in ascending order. */
  function Motion(report: seq<byte>, i: nat): seq<InputEvent>
    requires i <= |report| && (|report| - i) % 2 == 0
    decreases |report| - i
  {
    if i == |report| then [] else PairEvents(report[i], report[i + 1]) + Motion(report, i + 2)
  }

  /** Reference view: the byte pairs from offset `i` on that are not all zero, as integers. */
  function NonZeroPairs(report: seq<byte>, i: nat): seq<(int, int)>
    requires i <= |report| && (|report| - i) % 2 == 0
    decreases |report| - i
  {
    if i == |report| then []
    else if report[i] == 0 && report[i + 1] == 0 then NonZeroPairs(report, i + 2)
    else [(report[i] as int, report[i + 1] as int)] + NonZeroPairs(report, i + 2)
  }

  /** Reads motion back out of an event stream: each REL_X, REL_Y, sync triple gives one pair. */
  function MotionPairs(events: seq<InputEvent>): seq<(int, int)>
    decreases |events|
  {
    if |events| >= 3 && events[0].Rel? && events[0].axis == REL_X &&
       events[1].Rel? && events[1].axis == REL_Y && events[2] == SynReport
    then [(events[0].delta, events[1].delta)] + MotionPairs(events[3..])
    else []
  }

  /**
   * The motion stream is exactly one REL_X/REL_Y/sync triple per non-zero
   * pair, in buffer order, and carries the pair's bytes unchanged.
   */
  lemma {:induction false} MotionRoundTrip(report: seq<byte>, i: nat)
    requires i <= |report| && (|report| - i) % 2 == 0
    ensures MotionPairs(Motion(report, i)) == NonZeroPairs(report, i)
    decreases |report| - i
  {
    if i < |report| {
      MotionRoundTrip(report, i + 2);
      var head := PairEvents(report[i], report[i + 1]);
      var m := Motion(report, i);
      if head != [] {
        assert m[0] == Rel(REL_X, report[i] as int);
        assert m[1] == Rel(REL_Y, report[i + 1] as int);
        assert m[2] == SynReport;
        assert m[3..] == Motion(report, i + 2);
        assert MotionPairs(m) == [(report[i] as int, report[i + 1] as int)] + MotionPairs(m[3..]);
      } else {
        assert m == Motion(report, i + 2);
      }
    }
  }

  /**
   * Bounds of the motion stream: three events per non-zero pair, at most one
   * triple per pair, and every reported delta is a byte value (0..255, never
   * negative) on the X or Y axis.
   */
  lemma {:induction false} MotionBounds(report: seq<byte>, i: nat)
    requires i <= |report| && (|report| - i) % 2 == 0
    ensures |Motion(report, i)| == 3 * |NonZeroPairs(report, i)|
    ensures 2 * |NonZeroPairs(report, i)| <= |report| - i
    ensures forall k :: 0 <= k < |Motion(report, i)| && Motion(report, i)[k].Rel? ==>
      Motion(report, i)[k].axis in {REL_X, REL_Y} && 0 <= Motion(report, i)[k].delta <= 255
    decreases |report| - i
  {
    if i < |report| {
      MotionBounds(report, i + 2);
      var head := PairEvents(report[i], report[i + 1]);
      var m := Motion(report, i);
      forall k | 0 <= k < |m| && m[k].Rel?
        ensures m[k].axis in {REL_X, REL_Y} && 0 <= m[k].delta <= 255
      {
        if k >= |head| {
          assert m[k] == Motion(report, i + 2)[k - |head|];
        }
      }
    }
  }

  /** The motion events for the byte pairs below offset `j`: what the handler's loop has reported so far. */
  function MotionBefore(report: seq<byte>, j: nat): seq<InputEvent>
    requires j <= |report| && j % 2 == 0
  {
    if j == 0 then [] else MotionBefore(report, j - 2) + PairEvents(report[j - 2], report[j - 1])
  }

  /** What has been reported and what is still to come make up the whole motion stream. */
  lemma {:induction false} MotionSplit(report: seq<byte>, j: nat)
    requires j <= |report| && j % 2 == 0 && |report| % 2 == 0
    ensures MotionBefore(report, j) + Motion(report, j) == Motion(report, 0)
  {
    if j > 0 {
      MotionSplit(report, j - 2);
      var step := PairEvents(report[j - 2], report[j - 1]);
      assert Motion(report, j - 2) == step + Motion(report, j);
      assert MotionBefore(report, j) == MotionBefore(report, j - 2) + step;
    }
  }

  /**
   * The handler's loop over the four byte pairs of the report buffer: a
   * relative motion and a sync for each pair that is not all zero.
   */
  method ReportMotion(report: array<byte>) returns (motion: seq<InputEvent>)
    requires report.Length == 8
    ensures motion == Motion(report[..], 0)
  {
    motion := [];
    var i := 0;
    while i < 8
      invariant 0 <= i <= 8 && i % 2 == 0
      invariant motion == MotionBefore(report[..], i)
    {
      if report[i] != 0 || report[i + 1] != 0 {
        motion := motion + [Rel(REL_X, report[i] as int), Rel(REL_Y, report[i + 1] as int), SynReport];
      }
      i := i + 2;
    }
    MotionSplit(report[..], 8);
  }

  /**
   * `usb_kbd_irq`: the events reported for one completion of the inbound
   * transfer and whether the transfer is resubmitted. `report` is the
   * 8-byte buffer `kbd->new` as the completion leaves it.
   */
  method UsbKbdIrq(status: int, report: array<byte>) returns (events: seq<InputEvent>, resubmit: bool)
    requires report.Length == 8
    ensures Classify(status) == Terminal ==> events == [] && !resubmit
    ensures Classify(status) == Transient ==> events == [] && resubmit
    ensures Classify(status) == Success ==> resubmit && events == KeyTap + Motion(report[..], 0)
  {
    var c := Classify(status);
    if c == Terminal {
      return [], false;
    }
    events := [];
    if c == Success {
      var motion := ReportMotion(report);
      events := KeyTap + motion;
    }
    resubmit := true;
  }

  /** A successful completion reports at most 2 + 4 * 3 events: the key tap and four motion triples. */
  lemma SuccessEventCount(report: seq<byte>)
    requires |report| == 8
    ensures 2 <= |KeyTap + Motion(report, 0)| <= 14
    ensures |Motion(report, 0)| % 3 == 0
  {
    MotionBounds(report, 0);
  }
}
