/**
 * MouseEventManager: the mutable engine that buffers key events, turns them
 * into CLICK, SEQ and WHEEL gestures and decides the device's read mode.
 * Each method is proved to agree with the rules stated in module Gestures.
 */
module Mouse {
  import opened Wrappers
  import opened EventCodec
  import opened Gestures

  /** What the event loop does about the read mode after a flush. */
  datatype ModeDecision = ModeDecision(toggle: bool, nonBlocking: bool)

  /**
   * Lines 155-157: the O_NONBLOCK bit is flipped when the pending flag equals
   * "the bit is clear".  Afterwards the device is non-blocking exactly when a
   * sequence is pending, and the flip happens only when the mode was wrong.
   */
  function DecideMode(nonBlocking: bool, pending: bool): (d: ModeDecision)
    ensures d.nonBlocking == pending
    ensures d.toggle <==> nonBlocking != pending
  {
    if pending == !nonBlocking then ModeDecision(true, !nonBlocking)
    else ModeDecision(false, nonBlocking)
  }

  /** A second decision with the same pending flag never flips the mode again. */
  lemma DecideModeSettles(nonBlocking: bool, pending: bool)
    ensures !DecideMode(DecideMode(nonBlocking, pending).nonBlocking, pending).toggle
  {
  }

  /** What a handler receives of gs: all of it, or nothing when none is installed. */
  function Delivered(installed: bool, gs: seq<Gesture>): seq<Gesture>
  {
    if installed then gs else []
  }

  /** The scan of flush_events that measures the leading same-code run of s[:limit]. */
  method CountConsecutive(s: seq<Event>, limit: nat) returns (n: nat)
    requires |s| > 0
    ensures n == RunLength(s, limit)
    ensures n <= Min(limit, |s|)
    ensures forall i :: 0 <= i < n ==> s[i].eventCode == s[0].eventCode
    ensures n < Min(limit, |s|) ==> s[n].eventCode != s[0].eventCode
  {
    var window := s[..Min(limit, |s|)];
    n := 0;
    while n < |window|
      invariant n <= |window|
      invariant forall i :: 0 <= i < n ==> window[i].eventCode == s[0].eventCode
    {
      if window[n].eventCode != s[0].eventCode {
        break;
      }
      n := n + 1;
    }
    LeadingRunUnique(window, s[0].eventCode, n);
    assert forall i :: 0 <= i < |window| ==> window[i] == s[i];
  }

  class MouseEventManager {
    /** The buffered key events, oldest first (`self.seq` in mouse.py). */
    var buffer: seq<Event>
    const maxClicks: nat
    const maxDelayUsec: int
    var hasPendingMulticlick: bool
    /** Whether a handler is installed; `_emit` drops gestures otherwise. */
    var hasHandler: bool
    /** Every gesture handed to the handler so far, in order. */
    var emitted: seq<Gesture>
    /** The O_NONBLOCK state of the device stream read by the event loop. */
    var nonBlocking: bool

    /** Only presses and releases are ever buffered. */
    ghost predicate Valid()
      reads this
    {
      AllKeyValues(buffer)
    }

    constructor (maxClicks: nat, maxDelayUsec: int)
      ensures Valid()
      ensures this.maxClicks == maxClicks && this.maxDelayUsec == maxDelayUsec
      ensures buffer == [] && !hasPendingMulticlick && !hasHandler && emitted == []
      ensures !nonBlocking
    {
      nonBlocking := false;
      this.maxClicks := maxClicks;
      this.maxDelayUsec := maxDelayUsec;
      buffer := [];
      hasPendingMulticlick := false;
      hasHandler := false;
      emitted := [];
    }

    method SetHandler(installed: bool)
      modifies this`hasHandler
      ensures hasHandler == installed
    {
      hasHandler := installed;
    }

    method StoreEvent(ev: Event)
      requires Valid()
      modifies this`buffer
      ensures Valid()
      ensures buffer == if IsKeyValue(ev) then old(buffer) + [ev] else old(buffer)
    {
      if 0 <= ev.eventValue <= 1 {
        buffer := buffer + [ev];
      }
    }

    method Emit(g: Gesture)
      modifies this`emitted
      ensures emitted == old(emitted) + Delivered(hasHandler, [g])
    {
      if hasHandler {
        emitted := emitted + [g];
      }
    }

    /** keys_sequence: one signed code per buffered event, in buffer order. */
    function KeysSequence(): (r: seq<int>)
      reads this
      ensures |r| == |buffer|
      ensures forall i :: 0 <= i < |buffer| ==>
        r[i] == (if buffer[i].eventValue == 1 then buffer[i].eventCode else -buffer[i].eventCode)
    {
      SignedCodesAt(buffer);
      SignedCodes(buffer)
    }

    /** keys_pressed: replays the buffer into the list of held keys (see PressedKeys). */
    method KeysPressed() returns (r: seq<int>)
      ensures r == PressedKeys(buffer)
    {
      r := [];
      for i := 0 to |buffer|
        invariant r == PressedKeys(buffer[..i])
      {
        var ev := buffer[i];
        assert buffer[..i + 1][..i] == buffer[..i] && buffer[..i + 1][i] == ev;
        if ev.eventValue == 1 {
          if ev.eventCode !in r {
            r := r + [ev.eventCode];
          }
        } else if ev.eventCode in r {
          r := Without(r, ev.eventCode);
        } else {
          WithoutAbsent(r, ev.eventCode);
        }
      }
      assert buffer[..|buffer|] == buffer;
    }

    function HasPendingSequence(): bool
      reads this
    {
      hasPendingMulticlick
    }

    /** Lines 67-85 of flush_events: the click loop and the pending flag. */
    method ResolveClicks(eventTime: int)
      requires Valid()
      modifies this`buffer, this`hasPendingMulticlick, this`emitted
      ensures Valid()
      ensures var c := ClickStage(old(buffer), maxClicks, maxDelayUsec, eventTime);
        buffer == c.rest && hasPendingMulticlick == c.pending &&
        emitted == old(emitted) + Delivered(hasHandler, c.gestures)
    {
      ghost var s0 := buffer;
      hasPendingMulticlick := false;
      ghost var clicks: seq<Gesture> := [];
      if |buffer| > 1 {
        var nConsecutive: nat := CountConsecutive(buffer, 2 * maxClicks);
        ghost var nc0 := nConsecutive;
        // The scan caps the run at 2 * max_clicks, so the loop body runs at most once.
        ghost var closed := nc0 >= 2 &&
          (|s0| > nc0 || eventTime - s0[0].eventTime > maxDelayUsec);
        while nConsecutive > 0 &&
              (|buffer| > nConsecutive || eventTime - buffer[0].eventTime > maxDelayUsec)
          invariant nConsecutive <= |buffer|
          invariant AllKeyValues(buffer)
          invariant clicks == [] ==> buffer == s0 && nConsecutive == nc0
          invariant clicks != [] ==>
            closed && clicks == [Click(s0[0].eventCode, nc0 / 2)] &&
            buffer == s0[2 * (nc0 / 2)..] && nConsecutive == nc0 % 2
          invariant emitted == old(emitted) + Delivered(hasHandler, clicks)
          decreases nConsecutive
        {
          var n := Min(maxClicks, nConsecutive / 2);
          if n == 0 {
            break;
          }
          Emit(Click(buffer[0].eventCode, n));
          clicks := clicks + [Click(buffer[0].eventCode, n)];
          nConsecutive := nConsecutive - n * 2;
          buffer := buffer[n * 2..];
        }
        assert clicks == [] ==> !closed;
        ClickLoopClosedForm(s0, nc0, maxClicks, maxDelayUsec, eventTime);
        hasPendingMulticlick := nConsecutive == |buffer|;
      }
    }

    /** flush_events(eventTime): the click loop, then the SEQ branch. */
    method FlushEvents(eventTime: int)
      requires Valid()
      modifies this`buffer, this`hasPendingMulticlick, this`emitted
      ensures Valid()
      ensures var r := Flush(old(buffer), maxClicks, maxDelayUsec, eventTime);
        buffer == r.rest && hasPendingMulticlick == r.pending &&
        emitted == old(emitted) + Delivered(hasHandler, r.gestures)
    {
      ResolveClicks(eventTime);
      ghost var c := ClickStage(old(buffer), maxClicks, maxDelayUsec, eventTime);
      if |buffer| > 1 {
        var pressed := KeysPressed();
        if |pressed| == 0 && eventTime - buffer[0].eventTime > maxDelayUsec {
          assert SequenceReady(c.rest, maxDelayUsec, eventTime);
          ghost var before := emitted;
          var g := Sequence(KeysSequence());
          Emit(g);
          buffer := [];
          assert Delivered(hasHandler, c.gestures) + Delivered(hasHandler, [g]) ==
            Delivered(hasHandler, c.gestures + [g]);
        } else {
          assert !SequenceReady(c.rest, maxDelayUsec, eventTime);
        }
      } else {
        assert !SequenceReady(c.rest, maxDelayUsec, eventTime);
      }
    }

    /**
     * on_event: a key event is buffered; a wheel event first flushes as if the
     * window had elapsed after it, then emits WHEEL with the direction read
     * from bit 31 of its value and the signed key list left after the flush;
     * anything else changes nothing.
     */
    method OnEvent(ev: Event)
      requires Valid()
      modifies this`buffer, this`hasPendingMulticlick, this`emitted
      ensures Valid()
      ensures ev.eventType == EV_KEY ==>
        buffer == (if IsKeyValue(ev) then old(buffer) + [ev] else old(buffer)) &&
        hasPendingMulticlick == old(hasPendingMulticlick) && emitted == old(emitted)
      ensures ev.eventType == EV_REL && ev.eventCode == REL_WHEEL ==>
        var r := Flush(old(buffer), maxClicks, maxDelayUsec, ev.eventTime + maxDelayUsec);
        buffer == r.rest && hasPendingMulticlick == r.pending &&
        emitted == old(emitted) +
          Delivered(hasHandler, r.gestures + [Wheel(WheelDirection(ev.eventValue), SignedCodes(r.rest))])
      ensures ev.eventType != EV_KEY && !(ev.eventType == EV_REL && ev.eventCode == REL_WHEEL) ==>
        buffer == old(buffer) && hasPendingMulticlick == old(hasPendingMulticlick) &&
        emitted == old(emitted)
    {
      if ev.eventType == EV_KEY {
        StoreEvent(ev);
      }
      if ev.eventType == EV_REL && ev.eventCode == REL_WHEEL {
        FlushEvents(ev.eventTime + maxDelayUsec);
        var s := 1 - 2 * (if Bit31(ev.eventValue) then 1 else 0);
        Emit(Wheel(s, KeysSequence()));
      }
    }

    /**
     * One turn of event_loop after the read: flush with the current time, then
     * bring the stream's O_NONBLOCK state in line with the pending flag.
     * `toggled` says whether the F_SETFL call is made.
     */
    method PollStep(now: int) returns (toggled: bool)
      requires Valid()
      modifies this`buffer, this`hasPendingMulticlick, this`emitted, this`nonBlocking
      ensures Valid()
      ensures var r := Flush(old(buffer), maxClicks, maxDelayUsec, now);
        buffer == r.rest && hasPendingMulticlick == r.pending &&
        emitted == old(emitted) + Delivered(hasHandler, r.gestures)
      ensures nonBlocking == HasPendingSequence()
      ensures toggled <==> old(nonBlocking) != HasPendingSequence()
    {
      FlushEvents(now);
      var d := DecideMode(nonBlocking, HasPendingSequence());
      toggled := d.toggle;
      nonBlocking := d.nonBlocking;
    }
  }
}
