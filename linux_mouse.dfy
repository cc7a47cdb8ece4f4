/**
 * The event decoder of the Linux mouse reader
 * (src/inputDevice/unix/LinuxMouse.cpp). The button buffers live across
 * polls; every poll starts with fresh event buffers and the device's wheel
 * position, decodes the first record of each pair read, and latches the
 * buffers after every pair.
 */
module LinuxMouse {
  import opened Mouse
  import opened LinuxInput

  const BtnLeft := 272
  const BtnRight := 273
  const MscScan := 4
  const LeftScanValue := 589825
  const RightScanValue := 589826
  const RelWheel := 8

  predicate IsButtonType(e: InputEvent) {
    e.kind == EvKey || e.kind == EvMsc
  }

  predicate IsLeftButton(e: InputEvent) {
    IsButtonType(e) && (e.code == BtnLeft || (e.code == MscScan && e.value == LeftScanValue))
  }

  /** The else-branch after the left-button test. */
  predicate IsRightButton(e: InputEvent) {
    IsButtonType(e) && !IsLeftButton(e)
    && (e.code == BtnRight || (e.code == MscScan && e.value == RightScanValue))
  }

  predicate IsWheelMove(e: InputEvent) {
    e.kind == EvRel && e.code == RelWheel && e.value != 0
  }

  /**
   * The switch on event_start: a button record toggles its button and records a
   * release when it was down and a press otherwise; a wheel record moves the
   * wheel by its value.
   */
  function Step(b: MouseStatus, e: InputEvent): MouseStatus {
    if IsLeftButton(e) then
      (if b.isLeftPressed then b.(wasLeftReleased := true) else b.(wasLeftPressed := true))
        .(isLeftPressed := !b.isLeftPressed)
    else if IsRightButton(e) then
      (if b.isRightPressed then b.(wasRightReleased := true) else b.(wasRightPressed := true))
        .(isRightPressed := !b.isRightPressed)
    else if IsWheelMove(e) then
      b.(wheelChanged := true, wheelPosition := b.wheelPosition + e.value)
    else b
  }

  /** The buffers after the given pairs. */
  function StepAll(b: MouseStatus, burst: seq<EventPair>): MouseStatus {
    if burst == [] then b
    else Step(StepAll(b, burst[..|burst| - 1]), burst[|burst| - 1].eventStart)
  }

  /**
   * The device after one poll: the button states set from the buffers, then one
   * latch per pair. Since the event buffers only ever turn true, the result is
   * the latch of the last buffers.
   */
  function PollResult(s: MouseStatus, isLeft: bool, isRight: bool, burst: seq<EventPair>): MouseStatus {
    var buttons := s.(isLeftPressed := isLeft, isRightPressed := isRight);
    if burst == [] then buttons else Latch(buttons, StepAll(FreshEvents(s, isLeft, isRight), burst))
  }

  function LeftCount(burst: seq<EventPair>): nat {
    if burst == [] then 0
    else LeftCount(burst[..|burst| - 1]) + if IsLeftButton(burst[|burst| - 1].eventStart) then 1 else 0
  }

  function WheelSum(burst: seq<EventPair>): int {
    if burst == [] then 0
    else WheelSum(burst[..|burst| - 1])
         + if IsWheelMove(burst[|burst| - 1].eventStart) then burst[|burst| - 1].eventStart.value else 0
  }

  /** The left button reads as pressed after an odd number of left-button records from released, and so on. */
  lemma {:induction false} LeftParity(b: MouseStatus, burst: seq<EventPair>)
    ensures StepAll(b, burst).isLeftPressed == (b.isLeftPressed != (LeftCount(burst) % 2 == 1))
  {
    if burst != [] {
      LeftParity(b, burst[..|burst| - 1]);
    }
  }

  /** The wheel moves by the sum of the wheel records' values, and its flag is set exactly when there was one. */
  lemma {:induction false} WheelMeaning(b: MouseStatus, burst: seq<EventPair>)
    ensures StepAll(b, burst).wheelPosition == b.wheelPosition + WheelSum(burst)
    ensures StepAll(b, burst).wheelChanged
        <==> b.wheelChanged || exists i :: 0 <= i < |burst| && IsWheelMove(burst[i].eventStart)
  {
    if burst != [] {
      var n := |burst| - 1;
      var front := burst[..n];
      WheelMeaning(b, front);
      StepWheel(StepAll(b, front), burst[n].eventStart);
      assert burst[n] == burst[|burst| - 1];
      forall i | 0 <= i < n
        ensures front[i] == burst[i]
      {
      }
    }
  }

  /** The wheel part of one record's effect. */
  lemma StepWheel(b: MouseStatus, e: InputEvent)
    ensures Step(b, e).wheelPosition == b.wheelPosition + if IsWheelMove(e) then e.value else 0
    ensures Step(b, e).wheelChanged == (b.wheelChanged || IsWheelMove(e))
  {
    if IsLeftButton(e) || IsRightButton(e) {
      assert !IsWheelMove(e);
    }
  }

  /** A press followed by a release of the left button, from released, records both and ends released. */
  lemma LeftClick(b: MouseStatus, press: InputEvent, release: InputEvent)
    requires !b.isLeftPressed && IsLeftButton(press) && IsLeftButton(release)
    ensures var r := Step(Step(b, press), release);
            r.wasLeftPressed && r.wasLeftReleased && !r.isLeftPressed
  {
  }

  /** The buffers of a poll only ever gain events. */
  lemma StepKeepsEvents(b: MouseStatus, e: InputEvent)
    ensures b.wasLeftPressed ==> Step(b, e).wasLeftPressed
    ensures b.wasLeftReleased ==> Step(b, e).wasLeftReleased
    ensures b.wasRightPressed ==> Step(b, e).wasRightPressed
    ensures b.wasRightReleased ==> Step(b, e).wasRightReleased
    ensures b.wheelChanged ==> Step(b, e).wheelChanged
  {
    if IsLeftButton(e) {
      assert Step(b, e).wasLeftPressed == (b.wasLeftPressed || !b.isLeftPressed);
    } else if IsRightButton(e) {
      assert Step(b, e).wasRightPressed == (b.wasRightPressed || !b.isRightPressed);
    }
  }

  /** Latching a buffer and then the next one is latching the next one alone. */
  lemma LatchStep(latched: MouseStatus, b: MouseStatus, e: InputEvent)
    ensures Latch(Latch(latched, b), Step(b, e)) == Latch(latched, Step(b, e))
  {
    StepKeepsEvents(b, e);
    LatchAbsorbs(latched, b, Step(b, e));
  }

  /**
   * One poll: set the device's button states from the buffers, then read pairs
   * until read() fails, with updateStatus after every pair. Returns the
   * button buffers for the next poll.
   */
  method Poll(mouse: MouseDevice, isLeft: bool, isRight: bool, burst: seq<EventPair>)
    returns (isLeftAfter: bool, isRightAfter: bool)
    modifies mouse
    ensures mouse.isOpen == old(mouse.isOpen)
    ensures mouse.Status() == PollResult(old(mouse.Status()), isLeft, isRight, burst)
    ensures isLeftAfter == StepAll(FreshEvents(old(mouse.Status()), isLeft, isRight), burst).isLeftPressed
    ensures isRightAfter == StepAll(FreshEvents(old(mouse.Status()), isLeft, isRight), burst).isRightPressed
  {
    var start := FreshEvents(mouse.Status(), isLeft, isRight);
    var buffer := start;
    mouse.SetButtons(isLeft, isRight);
    var buttons := mouse.Status();
    var i := 0;
    while i < |burst|
      invariant 0 <= i <= |burst|
      invariant mouse.isOpen == old(mouse.isOpen)
      invariant buffer == StepAll(start, burst[..i])
      invariant mouse.Status() == if i == 0 then buttons else Latch(buttons, buffer)
    {
      assert burst[..i + 1][..i] == burst[..i];
      if i > 0 {
        LatchStep(buttons, buffer, burst[i].eventStart);
      }
      buffer := Step(buffer, burst[i].eventStart);
      mouse.UpdateStatus(buffer);
      i := i + 1;
    }
    assert burst[..i] == burst;
    isLeftAfter, isRightAfter := buffer.isLeftPressed, buffer.isRightPressed;
  }

  /** The device and the button buffers after a series of polls. */
  function ReadBursts(s: MouseStatus, bursts: seq<seq<EventPair>>): (MouseStatus, bool, bool) {
    if bursts == [] then (s, false, false)
    else
      var (before, isLeft, isRight) := ReadBursts(s, bursts[..|bursts| - 1]);
      var burst := bursts[|bursts| - 1];
      var b := StepAll(FreshEvents(before, isLeft, isRight), burst);
      (PollResult(before, isLeft, isRight, burst), b.isLeftPressed, b.isRightPressed)
  }

  /** The polling loop of startRead; it returns at once when the device is closed. */
  method StartRead(mouse: MouseDevice, bursts: seq<seq<EventPair>>)
    modifies mouse
    ensures mouse.isOpen == old(mouse.isOpen)
    ensures mouse.Status() == if old(mouse.isOpen) then ReadBursts(old(mouse.Status()), bursts).0
                              else old(mouse.Status())
  {
    var isLeft, isRight := false, false;
    var i := 0;
    while i < |bursts|
      invariant 0 <= i <= |bursts|
      invariant mouse.isOpen == old(mouse.isOpen)
      invariant old(mouse.isOpen) ==> (mouse.Status(), isLeft, isRight) == ReadBursts(old(mouse.Status()), bursts[..i])
      invariant !old(mouse.isOpen) ==> mouse.Status() == old(mouse.Status())
    {
      if !mouse.isOpen {
        return;
      }
      assert bursts[..i + 1][..i] == bursts[..i];
      isLeft, isRight := Poll(mouse, isLeft, isRight, bursts[i]);
      i := i + 1;
    }
    assert bursts[..i] == bursts;
  }
}
