/**
  The loading spinner itself: a ring of `numCircles` slots, a live `colors`
  list that a timer rotates one step per tick, and the save handler that
  captures one frame per rotation step from a copy of that list.
  A frame is the colour of each slot in slot order; the pixels drawn for it
  are not modelled.
*/
module Spinner {

  import opened Palette
  import opened Rotation

  /** One captured frame: the colour drawn at slot `j` is `frame[j]`. */
  type Frame = seq<Rgb>

  /** What the encoding worker sends back: a message carrying its success flag, or an error event. */
  datatype WorkerReply = Message(success: bool) | WorkerError

  /** The frames an export starting from `s` records in its first `m` passes. */
  function Film(s: seq<Rgb>, m: nat): (f: seq<Frame>)
    ensures |f| == m
  {
    if m == 0 then [] else Film(s, m - 1) + [RotRN(s, m - 1)]
  }

  /** Frame `k` of the first `m` passes is the start list rotated `k` times. */
  lemma {:induction false} FilmAt(s: seq<Rgb>, m: nat, k: nat)
    requires k < m
    ensures Film(s, m)[k] == RotRN(s, k)
  {
    if k < m - 1 {
      FilmAt(s, m - 1, k);
    }
  }

  /** Slot `j` of frame `i` shows the entry `i` slots behind it in the list the export started from. */
  lemma FilmSlotAt(start: seq<Rgb>, i: nat, j: nat)
    requires i < |start| && j < |start|
    ensures |Film(start, |start|)[i]| == |start|
    ensures Film(start, |start|)[i][j] == start[(j - i) % |start|]
  {
    FilmAt(start, |start|, i);
    RotRNAt(start, i, j);
  }

  /**
    An export started after `t` ticks records, as frame `i`, exactly the
    slot colours the live view shows after `t + i` ticks.
  */
  lemma FilmMatchesLive(initial: seq<Rgb>, t: nat)
    ensures forall i :: 0 <= i < |initial| ==> Film(RotRN(initial, t), |initial|)[i] == RotRN(initial, t + i)
  {
    forall i | 0 <= i < |initial| ensures Film(RotRN(initial, t), |initial|)[i] == RotRN(initial, t + i) {
      FilmAt(RotRN(initial, t), |initial|, i);
      RotRNAdd(initial, t, i);
    }
  }

  /**
    The inner drawing loop of one capture pass: slot `j`, in ascending
    order, is painted with `current[j]`, so the frame is the slot colours.
  */
  method DrawFrame(current: array<Rgb>) returns (frame: Frame)
    ensures frame == current[..]
  {
    frame := [];
    for j := 0 to current.Length
      invariant frame == current[..j]
    {
      frame := frame + [current[j]];
    }
  }

  /**
    Paint every slot with the entry at its index, in ascending slot order
    (`circleElements.forEach((circle, index) => ...)`); the list is only read.
  */
  method Repaint(colors: array<Rgb>, slots: array<Rgb>)
    requires colors != slots && colors.Length == slots.Length
    modifies slots
    ensures slots[..] == colors[..]
  {
    for index := 0 to slots.Length
      invariant forall k :: 0 <= k < index ==> slots[k] == colors[k]
    {
      slots[index] := colors[index];
    }
  }

  /** `[...colors]`: a fresh array with the same entries. */
  method CopyOf(a: array<Rgb>) returns (c: array<Rgb>)
    ensures fresh(c) && c[..] == a[..]
  {
    c := new Rgb[a.Length];
    forall k | 0 <= k < a.Length {
      c[k] := a[k];
    }
  }

  /**
    The capture loop on the working copy `current`: `current.Length` times
    record the slot colours as a frame, record the delay, and rotate the copy
    one step. After the full turn the copy is back in its starting order.
  */
  method CaptureFrom(current: array<Rgb>) returns (frames: seq<Frame>, delays: seq<nat>)
    modifies current
    ensures |delays| == current.Length
    ensures forall i :: 0 <= i < current.Length ==> delays[i] == ANIMATION_INTERVAL
    ensures frames == Film(old(current[..]), current.Length)
    ensures current[..] == old(current[..])
  {
    var n := current.Length;
    ghost var start := current[..];
    assert RotRN(start, 0) == start;
    frames, delays := [], [];
    for i := 0 to n
      invariant |delays| == i
      invariant current[..] == RotRN(start, i)
      invariant frames == Film(start, i)
      invariant forall k :: 0 <= k < i ==> delays[k] == ANIMATION_INTERVAL
    {
      var frame := DrawFrame(current);
      frames := frames + [frame];
      delays := delays + [ANIMATION_INTERVAL];
      RotateInPlace(current);
    }
    RotRNFull(start);
  }

  class Spinner {
    /** `NUM_CIRCLES`: the number of slots on the ring. */
    const numCircles: nat
    /** The live `colors` list, rotated in place by every tick. */
    var colors: array<Rgb>
    /** `circleElements[k].style.backgroundColor`: the colour slot `k` shows. */
    var slots: array<Rgb>
    /** Whether the `setInterval` timer that drives `UpdateColors` is active. */
    var timerRunning: bool
    /** Whether the save button is enabled. */
    var saveEnabled: bool

    /** The gradient the ring started with, and the number of ticks since. */
    ghost const initial: seq<Rgb>
    ghost var ticks: nat

    /** The live list is the starting gradient rotated once per tick, and every slot shows its entry. */
    ghost predicate Valid()
      reads this, colors, slots
    {
      && 2 <= numCircles
      && colors != slots
      && colors.Length == numCircles
      && slots.Length == numCircles
      && |initial| == numCircles
      && colors[..] == RotRN(initial, ticks)
      && slots[..] == colors[..]
    }

    /**
      Page load: build the gradient, create one circle per slot showing
      `colors[i]`, and start the timer.
    */
    constructor (startColor: Rgb, endColor: Rgb, n: nat)
      requires 2 <= n
      ensures Valid() && fresh(colors) && fresh(slots)
      ensures numCircles == n && initial == Gradient(startColor, endColor, n) && ticks == 0
      ensures colors[..] == Gradient(startColor, endColor, n)
      ensures timerRunning && saveEnabled
    {
      var g := BuildGradient(startColor, endColor, n);
      var c := new Rgb[n];
      forall k | 0 <= k < n {
        c[k] := g[k];
      }
      assert c[..] == g;
      var s := new Rgb[n];
      Repaint(c, s);
      assert RotRN(g, 0) == g;
      numCircles := n;
      colors := c;
      slots := s;
      initial := g;
      ticks := 0;
      timerRunning := true;
      saveEnabled := true;
    }

    /**
      One timer tick (`updateColors`): rotate `colors` one step, last entry
      to the front, then repaint every slot with the entry at its index.
    */
    method UpdateColors()
      requires Valid() && timerRunning
      modifies colors, slots, this`ticks
      ensures Valid()
      ensures ticks == old(ticks) + 1
      ensures colors[..] == RotR(old(colors[..]))
      ensures slots[..] == colors[..]
    {
      ghost var before := colors[..];
      RotateInPlace(colors);
      assert colors[..] == RotR(before) == RotRN(initial, ticks + 1);
      Repaint(colors, slots);
      ticks := ticks + 1;
    }

    /**
      The capture loop of the save handler: copy `colors`, then `numCircles`
      times record the slot colours as a frame, record the delay, and rotate
      the copy one step. The live list is only read.
    */
    method CaptureFrames() returns (frames: seq<Frame>, delays: seq<nat>)
      requires Valid()
      ensures |frames| == numCircles && |delays| == numCircles
      ensures forall i :: 0 <= i < numCircles ==> delays[i] == ANIMATION_INTERVAL
      ensures frames == Film(colors[..], numCircles)
      ensures forall i :: 0 <= i < numCircles ==> frames[i] == RotRN(initial, ticks + i)
    {
      var current := CopyOf(colors);
      frames, delays := CaptureFrom(current);
      FilmMatchesLive(initial, ticks);
    }

    /**
      The save button's click handler up to handing the frames to the
      worker: stop the timer, disable the button, capture the frames.
    */
    method Save() returns (frames: seq<Frame>, delays: seq<nat>)
      requires Valid() && saveEnabled
      modifies this`timerRunning, this`saveEnabled
      ensures Valid()
      ensures !timerRunning && !saveEnabled
      ensures |frames| == numCircles && |delays| == numCircles
      ensures forall i :: 0 <= i < numCircles ==> delays[i] == ANIMATION_INTERVAL
      ensures frames == Film(colors[..], numCircles)
      ensures forall i :: 0 <= i < numCircles ==> frames[i] == RotRN(initial, ticks + i)
    {
      timerRunning := false;
      saveEnabled := false;
      frames, delays := CaptureFrames();
    }

    /**
      The worker's reply, whether `onmessage` (success or failure) or
      `onerror`: re-enable the button and restart the timer.
    */
    method Finish(reply: WorkerReply)
      requires Valid() && !timerRunning
      modifies this`timerRunning, this`saveEnabled
      ensures Valid()
      ensures timerRunning && saveEnabled
    {
      match reply
      case Message(success) =>
        // success: the download; failure: the alert. Both are left out.
        saveEnabled := true;
        timerRunning := true;
      case WorkerError =>
        saveEnabled := true;
        timerRunning := true;
    }
  }
}
