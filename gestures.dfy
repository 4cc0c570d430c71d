/**
 * The gesture-recognition rules of MouseEventManager, as functions over the
 * buffer of key events.  The class in module Mouse runs these rules step by
 * step on its mutable buffer and is proved to agree with them.
 */
module Gestures {
  import opened EventCodec

  /** Event types and codes of the Linux input layer used by the manager. */
  const EV_KEY: int := 0x01
  const EV_REL: int := 0x02
  const REL_WHEEL: int := 0x08

  /**
   * What the manager hands to its handler: EVT.CLICK with a key code and a
   * click count, EVT.SEQ with the signed key list (its code is always 0), and
   * EVT.WHEEL with the scroll direction and the signed key list.
   */
  datatype Gesture =
    | Click(code: int, count: int)
    | Sequence(keys: seq<int>)
    | Wheel(direction: int, keys: seq<int>)

  function Min(a: int, b: int): int { if a <= b then a else b }

  /** A key event that the buffer accepts: a release (0) or a press (1). */
  predicate IsKeyValue(e: Event) { 0 <= e.eventValue <= 1 }

  predicate AllKeyValues(s: seq<Event>)
  {
    forall i :: 0 <= i < |s| ==> IsKeyValue(s[i])
  }

  // ---------------------------------------------------------------------------
  // keys_sequence

  /** +code for a press, -code for anything else. */
  function SignedCode(e: Event): int
  {
    e.eventCode * (if e.eventValue == 1 then 1 else -1)
  }

  function SignedCodes(s: seq<Event>): (r: seq<int>)
    ensures |r| == |s|
  {
    if s == [] then [] else [SignedCode(s[0])] + SignedCodes(s[1..])
  }

  lemma {:induction false} SignedCodesAt(s: seq<Event>)
    ensures |SignedCodes(s)| == |s|
    ensures forall i :: 0 <= i < |s| ==>
      SignedCodes(s)[i] == (if s[i].eventValue == 1 then s[i].eventCode else -s[i].eventCode)
  {
    if s != [] {
      SignedCodesAt(s[1..]);
      forall i | 1 <= i < |s|
        ensures SignedCodes(s)[i] == SignedCodes(s[1..])[i - 1]
      {
      }
    }
  }

  // ---------------------------------------------------------------------------
  // keys_pressed

  predicate NoDuplicates(p: seq<int>)
  {
    forall i, j :: 0 <= i < j < |p| ==> p[i] != p[j]
  }

  /** `del pressed[c]` on the insertion-ordered key list of a dict. */
  function Without(p: seq<int>, c: int): (r: seq<int>)
    ensures forall x :: x in r <==> x in p && x != c
  {
    if p == [] then []
    else if p[0] == c then Without(p[1..], c)
    else [p[0]] + Without(p[1..], c)
  }

  lemma {:induction false} WithoutAbsent(p: seq<int>, c: int)
    requires c !in p
    ensures Without(p, c) == p
  {
    if p != [] {
      WithoutAbsent(p[1..], c);
    }
  }

  /**
   * One iteration of the keys_pressed loop: a press adds its code at the end
   * unless already present (a dict keeps a re-assigned key in place), any
   * other value removes the code.
   */
  function PressStep(p: seq<int>, e: Event): seq<int>
  {
    if e.eventValue == 1 then (if e.eventCode in p then p else p + [e.eventCode])
    else Without(p, e.eventCode)
  }

  /** The keys still held after replaying s from the front. */
  function PressedKeys(s: seq<Event>): seq<int>
    decreases |s|
  {
    if s == [] then [] else PressStep(PressedKeys(s[..|s| - 1]), s[|s| - 1])
  }

  /** The last event of s with code c is a press. */
  predicate LastIsPress(s: seq<Event>, c: int)
  {
    exists i :: 0 <= i < |s| && s[i].eventCode == c && s[i].eventValue == 1 &&
      forall j :: i < j < |s| ==> s[j].eventCode != c
  }

  lemma {:induction false} WithoutNoDuplicates(p: seq<int>, c: int)
    requires NoDuplicates(p)
    ensures NoDuplicates(Without(p, c))
  {
    if p != [] {
      WithoutNoDuplicates(p[1..], c);
      assert p[0] !in p[1..];
    }
  }

  lemma {:induction false} PressedKeysNoDuplicates(s: seq<Event>)
    ensures NoDuplicates(PressedKeys(s))
    decreases |s|
  {
    if s != [] {
      var p := PressedKeys(s[..|s| - 1]);
      PressedKeysNoDuplicates(s[..|s| - 1]);
      if s[|s| - 1].eventValue != 1 {
        WithoutNoDuplicates(p, s[|s| - 1].eventCode);
      }
    }
  }

  lemma {:induction false} PressedKeysMembership(s: seq<Event>, c: int)
    ensures c in PressedKeys(s) <==> LastIsPress(s, c)
    decreases |s|
  {
    if s != [] {
      var n := |s| - 1;
      var init, e := s[..n], s[n];
      PressedKeysMembership(init, c);
      if e.eventCode == c {
        if e.eventValue == 1 {
          assert LastIsPress(s, c) by {
            assert s[n].eventCode == c && s[n].eventValue == 1;
          }
        } else {
          assert c !in PressedKeys(s);
          forall i | 0 <= i < |s| && s[i].eventCode == c && s[i].eventValue == 1
            ensures i < n && s[n].eventCode == c
          {
          }
          assert !LastIsPress(s, c);
        }
      } else {
        assert c in PressedKeys(s) <==> c in PressedKeys(init);
        if LastIsPress(init, c) {
          var i :| 0 <= i < |init| && init[i].eventCode == c && init[i].eventValue == 1 &&
            forall j :: i < j < |init| ==> init[j].eventCode != c;
          assert s[i] == init[i];
          assert forall j :: i < j < |s| ==> s[j].eventCode != c by {
            forall j | i < j < |s| ensures s[j].eventCode != c {
              if j < n { assert s[j] == init[j]; }
            }
          }
        }
        if LastIsPress(s, c) {
          var i :| 0 <= i < |s| && s[i].eventCode == c && s[i].eventValue == 1 &&
            forall j :: i < j < |s| ==> s[j].eventCode != c;
          assert i < n;
          assert init[i] == s[i];
          assert forall j :: i < j < |init| ==> init[j].eventCode != c by {
            forall j | i < j < |init| ensures init[j].eventCode != c {
              assert init[j] == s[j];
            }
          }
        }
      }
    }
  }

  // ---------------------------------------------------------------------------
  // The scan for n_consecutive

  /** Length of the leading run of w whose events carry `code`. */
  function LeadingRun(w: seq<Event>, code: int): (n: nat)
    ensures n <= |w|
    ensures forall i :: 0 <= i < n ==> w[i].eventCode == code
    ensures n < |w| ==> w[n].eventCode != code
  {
    if w == [] || w[0].eventCode != code then 0 else 1 + LeadingRun(w[1..], code)
  }

  /** The three properties of LeadingRun's contract determine it. */
  lemma {:induction false} LeadingRunUnique(w: seq<Event>, code: int, n: nat)
    requires n <= |w|
    requires forall i :: 0 <= i < n ==> w[i].eventCode == code
    requires n < |w| ==> w[n].eventCode != code
    ensures LeadingRun(w, code) == n
  {
    if n > 0 {
      LeadingRunUnique(w[1..], code, n - 1);
    }
  }

  /** n_consecutive: the run sharing s[0]'s code within the window s[:limit]. */
  function RunLength(s: seq<Event>, limit: nat): nat
    requires |s| > 0
  {
    LeadingRun(s[..Min(limit, |s|)], s[0].eventCode)
  }

  lemma RunLengthBounds(s: seq<Event>, limit: nat)
    requires |s| > 0
    ensures RunLength(s, limit) <= Min(limit, |s|)
    ensures limit > 0 ==> RunLength(s, limit) >= 1
    ensures forall i :: 0 <= i < RunLength(s, limit) ==> s[i].eventCode == s[0].eventCode
    ensures RunLength(s, limit) < Min(limit, |s|) ==>
      s[RunLength(s, limit)].eventCode != s[0].eventCode
  {
    var w := s[..Min(limit, |s|)];
    assert forall i :: 0 <= i < |w| ==> w[i] == s[i];
  }

  /** The run covers the whole buffer exactly when the buffer fits the window
      and carries one code. */
  lemma RunLengthWhole(s: seq<Event>, limit: nat)
    requires |s| > 0
    ensures RunLength(s, limit) == |s| <==>
      |s| <= limit && forall i :: 0 <= i < |s| ==> s[i].eventCode == s[0].eventCode
  {
    RunLengthBounds(s, limit);
    if |s| <= limit && forall i :: 0 <= i < |s| ==> s[i].eventCode == s[0].eventCode {
      if RunLength(s, limit) < |s| {
        assert s[RunLength(s, limit)].eventCode != s[0].eventCode;
      }
    }
  }

  // ---------------------------------------------------------------------------
  // The click loop of flush_events

  /** State after the click loop: clicks emitted, buffer left, n_consecutive left. */
  datatype ClickPhase = ClickPhase(clicks: seq<Gesture>, rest: seq<Event>, remaining: nat)

  function ClickLoop(s: seq<Event>, nc: nat, maxClicks: nat, delay: int, now: int): ClickPhase
    requires nc <= |s|
    decreases nc
  {
    if nc > 0 && (|s| > nc || now - s[0].eventTime > delay) then
      var n := Min(maxClicks, nc / 2);
      if n == 0 then ClickPhase([], s, nc)
      else
        var next := ClickLoop(s[2 * n..], nc - 2 * n, maxClicks, delay, now);
        ClickPhase([Click(s[0].eventCode, n)] + next.clicks, next.rest, next.remaining)
    else ClickPhase([], s, nc)
  }

  /** Sum of the counts of the clicks in gs. */
  function TotalCount(gs: seq<Gesture>): int
  {
    if gs == [] then 0
    else (if gs[0].Click? then gs[0].count else 0) + TotalCount(gs[1..])
  }

  /** Every gesture of gs is a CLICK on `code` whose count is in 1..maxClicks. */
  predicate ClicksOn(gs: seq<Gesture>, code: int, maxClicks: nat)
  {
    forall k :: 0 <= k < |gs| ==>
      gs[k].Click? && gs[k].code == code && 1 <= gs[k].count <= maxClicks
  }

  /**
   * Because the scan caps n_consecutive at 2 * max_clicks, the loop emits at
   * most one click: floor(nc / 2) pairs when the run is closed (something
   * follows it, or the window has expired), nothing otherwise.
   */
  lemma {:induction false} ClickLoopClosedForm(s: seq<Event>, nc: nat, maxClicks: nat, delay: int, now: int)
    requires nc <= |s| && nc <= 2 * maxClicks
    ensures ClickLoop(s, nc, maxClicks, delay, now) ==
      if nc >= 2 && (|s| > nc || now - s[0].eventTime > delay) then
        ClickPhase([Click(s[0].eventCode, nc / 2)], s[2 * (nc / 2)..], nc % 2)
      else ClickPhase([], s, nc)
  {
    if nc >= 2 && (|s| > nc || now - s[0].eventTime > delay) {
      var n := nc / 2;
      assert Min(maxClicks, nc / 2) == n;
      var t := s[2 * n..];
      var next := ClickLoop(t, nc - 2 * n, maxClicks, delay, now);
      if nc - 2 * n == 1 {
        assert Min(maxClicks, (nc - 2 * n) / 2) == 0;
      }
      assert next == ClickPhase([], t, nc % 2);
    }
  }

  /** A run that fills the buffer and is still inside the window is left alone. */
  lemma FullRunWithinWindowWaits(s: seq<Event>, maxClicks: nat, delay: int, now: int)
    requires |s| > 0
    requires now - s[0].eventTime <= delay
    ensures ClickLoop(s, |s|, maxClicks, delay, now) == ClickPhase([], s, |s|)
  {
  }

  // ---------------------------------------------------------------------------
  // flush_events

  datatype FlushResult = FlushResult(gestures: seq<Gesture>, rest: seq<Event>, pending: bool)

  /** Lines 67-85: the click loop and the pending flag. */
  function ClickStage(s: seq<Event>, maxClicks: nat, delay: int, now: int): FlushResult
  {
    if |s| > 1 then
      var p := ClickLoop(s, RunLength(s, 2 * maxClicks), maxClicks, delay, now);
      FlushResult(p.clicks, p.rest, p.remaining == |p.rest|)
    else FlushResult([], s, false)
  }

  /** The condition of the SEQ branch (lines 87-91). */
  predicate SequenceReady(s: seq<Event>, delay: int, now: int)
  {
    |s| > 1 && PressedKeys(s) == [] && now - s[0].eventTime > delay
  }

  /** The whole of flush_events(now) on buffer s. */
  function Flush(s: seq<Event>, maxClicks: nat, delay: int, now: int): FlushResult
  {
    var c := ClickStage(s, maxClicks, delay, now);
    if SequenceReady(c.rest, delay, now) then
      FlushResult(c.gestures + [Sequence(SignedCodes(c.rest))], [], c.pending)
    else c
  }

  lemma ClickStageSound(s: seq<Event>, maxClicks: nat, delay: int, now: int)
    ensures var c := ClickStage(s, maxClicks, delay, now);
      |c.gestures| <= 1 &&
      (|s| > 0 ==> ClicksOn(c.gestures, s[0].eventCode, maxClicks)) &&
      |c.rest| <= |s| && |s| - |c.rest| == 2 * TotalCount(c.gestures) &&
      c.rest == s[|s| - |c.rest|..] &&
      (|s| > 1 ==> |s| - |c.rest| <= RunLength(s, 2 * maxClicks))
  {
    if |s| > 1 {
      var nc := RunLength(s, 2 * maxClicks);
      RunLengthBounds(s, 2 * maxClicks);
      ClickLoopClosedForm(s, nc, maxClicks, delay, now);
      var c := ClickStage(s, maxClicks, delay, now);
      assert TotalCount(c.gestures) == if nc >= 2 && c.gestures != [] then nc / 2 else 0;
    }
  }

  /** With at most one buffered event, flush_events does nothing and clears the flag. */
  lemma FlushShortBuffer(s: seq<Event>, maxClicks: nat, delay: int, now: int)
    requires |s| <= 1
    ensures Flush(s, maxClicks, delay, now) == FlushResult([], s, false)
  {
  }

  /**
   * After a flush the pending flag is set exactly when the buffer held more
   * than one event and all of them formed one same-code run of at most
   * 2 * max_clicks events (the run that may still grow into more clicks).
   */
  lemma FlushPending(s: seq<Event>, maxClicks: nat, delay: int, now: int)
    ensures Flush(s, maxClicks, delay, now).pending <==>
      |s| > 1 && |s| <= 2 * maxClicks &&
      forall i :: 0 <= i < |s| ==> s[i].eventCode == s[0].eventCode
  {
    if |s| > 1 {
      var nc := RunLength(s, 2 * maxClicks);
      RunLengthBounds(s, 2 * maxClicks);
      RunLengthWhole(s, 2 * maxClicks);
      ClickLoopClosedForm(s, nc, maxClicks, delay, now);
    }
  }

  /**
   * One SEQ gesture is emitted, last, and the buffer is cleared, exactly when
   * the buffer after the click loop has more than one event, no key is held
   * and the window since its front event has elapsed; otherwise the click
   * stage's outcome stands and no SEQ is emitted.
   */
  lemma FlushSequence(s: seq<Event>, maxClicks: nat, delay: int, now: int)
    ensures var c, r := ClickStage(s, maxClicks, delay, now), Flush(s, maxClicks, delay, now);
      ((exists k :: 0 <= k < |r.gestures| && r.gestures[k].Sequence?) <==>
        SequenceReady(c.rest, delay, now)) &&
      (SequenceReady(c.rest, delay, now) ==>
        r.rest == [] && r.gestures == c.gestures + [Sequence(SignedCodes(c.rest))]) &&
      (!SequenceReady(c.rest, delay, now) ==> r == c)
  {
    ClickStageSound(s, maxClicks, delay, now);
    var c := ClickStage(s, maxClicks, delay, now);
    var r := Flush(s, maxClicks, delay, now);
    if SequenceReady(c.rest, delay, now) {
      assert r.gestures[|r.gestures| - 1].Sequence?;
    }
  }

  /**
   * What one flush emits: no gesture, one CLICK on the front event's code, one
   * SEQ, or a CLICK followed by a SEQ; every event it drops is accounted for by
   * two per click or by the SEQ, and the buffer only ever loses a prefix.
   */
  lemma FlushShape(s: seq<Event>, maxClicks: nat, delay: int, now: int)
    ensures var r := Flush(s, maxClicks, delay, now);
      |r.gestures| <= 2 &&
      |r.rest| <= |s| && r.rest == s[|s| - |r.rest|..] &&
      (forall k :: 0 <= k < |r.gestures| && r.gestures[k].Click? ==>
        k == 0 && r.gestures[k].code == s[0].eventCode && 1 <= r.gestures[k].count <= maxClicks) &&
      (forall k :: 0 <= k < |r.gestures| && !r.gestures[k].Click? ==>
        k == |r.gestures| - 1 && r.gestures[k].Sequence? && r.rest == []) &&
      ((forall k :: 0 <= k < |r.gestures| ==> r.gestures[k].Click?) ==>
        |s| - |r.rest| == 2 * TotalCount(r.gestures))
  {
    ClickStageSound(s, maxClicks, delay, now);
    FlushSequence(s, maxClicks, delay, now);
  }

  /** A flush keeps every buffered value a press or a release. */
  lemma FlushKeepsKeyValues(s: seq<Event>, maxClicks: nat, delay: int, now: int)
    requires AllKeyValues(s)
    ensures AllKeyValues(Flush(s, maxClicks, delay, now).rest)
  {
    FlushShape(s, maxClicks, delay, now);
    var r := Flush(s, maxClicks, delay, now);
    forall i | 0 <= i < |r.rest| ensures IsKeyValue(r.rest[i]) {
      assert r.rest[i] == s[|s| - |r.rest| + i];
    }
  }

  // ---------------------------------------------------------------------------
  // Scenarios

  /**
   * Press, release, press, release of one key inside the window, then a flush
   * after the window: with max_clicks = 2 the code emits a single CLICK with
   * count 2, empties the buffer and leaves the pending flag set.
   */
  lemma DoubleClickAfterTimeout()
    ensures Flush([Event(0, EV_KEY, 5, 1), Event(50000, EV_KEY, 5, 0),
                   Event(80000, EV_KEY, 5, 1), Event(130000, EV_KEY, 5, 0)],
                  2, 400000, 600000)
      == FlushResult([Click(5, 2)], [], true)
  {
    var s := [Event(0, EV_KEY, 5, 1), Event(50000, EV_KEY, 5, 0),
              Event(80000, EV_KEY, 5, 1), Event(130000, EV_KEY, 5, 0)];
    assert s[..4] == s;
    assert RunLength(s, 4) == 4;
    ClickLoopClosedForm(s, 4, 2, 400000, 600000);
  }

  /**
   * A single press/release pair: before the window elapses nothing is emitted
   * and the pair stays pending; once it has elapsed exactly one CLICK with
   * count 1 is emitted and the buffer is emptied.
   */
  lemma SingleClickClosesAtTimeout(code: int, t0: int, t1: int, maxClicks: nat, delay: int, now: int)
    requires maxClicks >= 1
    ensures var s := [Event(t0, EV_KEY, code, 1), Event(t1, EV_KEY, code, 0)];
      Flush(s, maxClicks, delay, now) ==
        if now - t0 > delay then FlushResult([Click(code, 1)], [], true)
        else FlushResult([], s, true)
  {
    var s := [Event(t0, EV_KEY, code, 1), Event(t1, EV_KEY, code, 0)];
    assert s[..Min(2 * maxClicks, 2)] == s;
    assert RunLength(s, 2 * maxClicks) == 2;
    ClickLoopClosedForm(s, 2, maxClicks, delay, now);
  }

  /**
   * The chord press(A), press(B), release(A), release(B) with A != B, flushed
   * after the window, emits one SEQ [+A, +B, -A, -B], no CLICK, and clears the
   * buffer.
   */
  lemma ChordEmitsSequence(a: int, b: int, t0: int, t1: int, t2: int, t3: int,
                           maxClicks: nat, delay: int, now: int)
    requires a != b && maxClicks >= 1
    requires now - t0 > delay
    ensures Flush([Event(t0, EV_KEY, a, 1), Event(t1, EV_KEY, b, 1),
                   Event(t2, EV_KEY, a, 0), Event(t3, EV_KEY, b, 0)],
                  maxClicks, delay, now)
      == FlushResult([Sequence([a, b, -a, -b])], [], false)
  {
    var s := [Event(t0, EV_KEY, a, 1), Event(t1, EV_KEY, b, 1),
              Event(t2, EV_KEY, a, 0), Event(t3, EV_KEY, b, 0)];
    var w := s[..Min(2 * maxClicks, 4)];
    assert w[0] == s[0] && w[1] == s[1];
    assert LeadingRun(w[1..], a) == 0;
    assert RunLength(s, 2 * maxClicks) == 1;
    assert ClickStage(s, maxClicks, delay, now) == FlushResult([], s, false);
    assert s[..3][..2] == s[..2] && s[..2][..1] == s[..1] && s[..1][..0] == [];
    assert PressedKeys(s[..1]) == [a];
    assert PressedKeys(s[..2]) == [a, b];
    assert Without([a, b], a) == [b] by {
      assert Without([b], a) == [b] + Without([], a);
    }
    assert PressedKeys(s[..3]) == [b];
    assert Without([b], b) == [];
    assert PressedKeys(s) == [];
    SignedCodesAt(s);
    assert SignedCodes(s) == [a, b, -a, -b];
  }

  // ---------------------------------------------------------------------------
  // on_event's wheel direction

  /** Bit 31 of v, as Python's `v & 0x80000000 > 0` reads it (floor division). */
  predicate Bit31(v: int)
  {
    (v / TWO_POW_31) % 2 == 1
  }

  function WheelDirection(value: int): (d: int)
    ensures d == 1 || d == -1
  {
    1 - 2 * (if Bit31(value) then 1 else 0)
  }

  /** For a 32-bit event value, the direction is the sign of its signed reading. */
  lemma WheelDirectionIsSign(value: int)
    requires 0 <= value < TWO_POW_32
    ensures WheelDirection(value) == -1 <==> value >= TWO_POW_31
    ensures WheelDirection(value) == 1 <==> value < TWO_POW_31
  {
    if value >= TWO_POW_31 {
      assert value / TWO_POW_31 == 1;
    } else {
      assert value / TWO_POW_31 == 0;
    }
  }
}
