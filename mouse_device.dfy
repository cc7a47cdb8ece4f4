/**
 * The mouse latch shared by both platform readers (src/inputDevice/MouseDevice.cpp):
 * five event flags that are OR-ed in until the user resets them, and three
 * status values (button states and wheel position) that every update
 * overwrites.
 */
module Mouse {

  /** The eight values updateStatus takes and getStatusSinceLastReset hands out. */
  datatype MouseStatus = MouseStatus(
    wasLeftPressed: bool, wasLeftReleased: bool, isLeftPressed: bool,
    wasRightPressed: bool, wasRightReleased: bool, isRightPressed: bool,
    wheelChanged: bool, wheelPosition: int)

  /** The five event flags of a status. */
  datatype MouseEvent = LeftPressed | LeftReleased | RightPressed | RightReleased | WheelChanged

  function Happened(s: MouseStatus, e: MouseEvent): bool {
    match e
    case LeftPressed => s.wasLeftPressed
    case LeftReleased => s.wasLeftReleased
    case RightPressed => s.wasRightPressed
    case RightReleased => s.wasRightReleased
    case WheelChanged => s.wheelChanged
  }

  /** The three status values agree. */
  predicate SameState(a: MouseStatus, b: MouseStatus) {
    a.isLeftPressed == b.isLeftPressed && a.isRightPressed == b.isRightPressed
    && a.wheelPosition == b.wheelPosition
  }

  /** Everything false and the wheel at 0: the state the constructor sets up. */
  const Idle := MouseStatus(false, false, false, false, false, false, false, 0)

  /** The rule of updateStatus: events are OR-ed in, status values are taken from the update. */
  function Latch(latched: MouseStatus, update: MouseStatus): MouseStatus {
    MouseStatus(
      latched.wasLeftPressed || update.wasLeftPressed,
      latched.wasLeftReleased || update.wasLeftReleased,
      update.isLeftPressed,
      latched.wasRightPressed || update.wasRightPressed,
      latched.wasRightReleased || update.wasRightReleased,
      update.isRightPressed,
      latched.wheelChanged || update.wheelChanged,
      update.wheelPosition)
  }

  /**
   * The buffers a reader starts a read with: every event false, the button
   * states from the reader's own buffers, the wheel position from the device.
   */
  function FreshEvents(s: MouseStatus, isLeft: bool, isRight: bool): MouseStatus {
    MouseStatus(false, false, isLeft, false, false, isRight, false, s.wheelPosition)
  }

  /** The rule of resetStatus: the events are cleared, the status values kept. */
  function Cleared(s: MouseStatus): MouseStatus {
    s.(wasLeftPressed := false, wasLeftReleased := false, wasRightPressed := false,
       wasRightReleased := false, wheelChanged := false)
  }

  /** A series of updateStatus calls, the last update last. */
  function LatchAll(latched: MouseStatus, updates: seq<MouseStatus>): MouseStatus {
    if updates == [] then latched
    else Latch(LatchAll(latched, updates[..|updates| - 1]), updates[|updates| - 1])
  }

  /**
   * After a series of updates an event flag is set exactly when it was set
   * before or some update carried it; the status values are those of the last
   * update.
   */
  lemma {:induction false} LatchAllMeaning(latched: MouseStatus, updates: seq<MouseStatus>, e: MouseEvent)
    ensures Happened(LatchAll(latched, updates), e)
        <==> Happened(latched, e) || exists i :: 0 <= i < |updates| && Happened(updates[i], e)
    ensures updates != [] ==> SameState(LatchAll(latched, updates), updates[|updates| - 1])
    ensures updates == [] ==> LatchAll(latched, updates) == latched
  {
    if updates != [] {
      var n := |updates| - 1;
      var front := updates[..n];
      LatchAllMeaning(latched, front, e);
      if Happened(updates[n], e) {
        assert Happened(LatchAll(latched, updates), e);
      }
      if exists i :: 0 <= i < |updates| && Happened(updates[i], e) {
        var i :| 0 <= i < |updates| && Happened(updates[i], e);
        if i < n {
          assert front[i] == updates[i];
        }
      }
      if exists i :: 0 <= i < |front| && Happened(front[i], e) {
        var i :| 0 <= i < |front| && Happened(front[i], e);
        assert updates[i] == front[i];
      }
    }
  }

  /**
   * Only one press and one release per button is buffered: an update repeated
   * leaves the latch as the first one left it.
   */
  lemma LatchIdempotent(latched: MouseStatus, update: MouseStatus)
    ensures Latch(Latch(latched, update), update) == Latch(latched, update)
  {
  }

  /** A latched update whose events the next update also carries leaves no trace. */
  lemma LatchAbsorbs(latched: MouseStatus, b: MouseStatus, c: MouseStatus)
    requires b.wasLeftPressed ==> c.wasLeftPressed
    requires b.wasLeftReleased ==> c.wasLeftReleased
    requires b.wasRightPressed ==> c.wasRightPressed
    requires b.wasRightReleased ==> c.wasRightReleased
    requires b.wheelChanged ==> c.wheelChanged
    ensures Latch(Latch(latched, b), c) == Latch(latched, c)
  {
  }

  /** Right after a reset, the next update is read back exactly. */
  lemma LatchAfterReset(s: MouseStatus, update: MouseStatus)
    ensures Latch(Cleared(s), update) == update
  {
  }

  /** A reset clears every event flag and keeps the status values. */
  lemma ClearedMeaning(s: MouseStatus, e: MouseEvent)
    ensures !Happened(Cleared(s), e)
    ensures SameState(Cleared(s), s)
  {
  }

  /**
   * MouseDevice: the latched state behind a mouse reader. The reading thread
   * calls UpdateStatus; the user calls GetStatusSinceLastReset and ResetStatus.
   */
  class MouseDevice {
    var isOpen: bool
    var wasLeftPressed: bool
    var wasLeftReleased: bool
    var wasRightPressed: bool
    var wasRightReleased: bool
    var wheelChanged: bool
    var isLeftPressed: bool
    var isRightPressed: bool
    var wheelPosition: int

    function Status(): MouseStatus
      reads this
    {
      MouseStatus(wasLeftPressed, wasLeftReleased, isLeftPressed,
                  wasRightPressed, wasRightReleased, isRightPressed,
                  wheelChanged, wheelPosition)
    }

    /** A new device is closed, with every flag false and the wheel at 0. */
    constructor ()
      ensures !isOpen && Status() == Idle
    {
      isOpen := false;
      wasLeftPressed := false;
      wasLeftReleased := false;
      wasRightPressed := false;
      wasRightReleased := false;
      wheelChanged := false;
      isRightPressed := false;
      isLeftPressed := false;
      wheelPosition := 0;
    }

    /** The copy-out of the eight values, which happens only while the device is open. */
    method GetStatusSinceLastReset(previous: MouseStatus) returns (s: MouseStatus)
      ensures isOpen ==> s == Status()
      ensures !isOpen ==> s == previous
    {
      if isOpen {
        s := Status();
        return;
      }
      s := previous;
    }

    method UpdateStatus(update: MouseStatus)
      modifies this
      ensures Status() == Latch(old(Status()), update)
      ensures isOpen == old(isOpen)
    {
      var n := Latch(Status(), update);
      wasLeftPressed, wasLeftReleased, isLeftPressed := n.wasLeftPressed, n.wasLeftReleased, n.isLeftPressed;
      wasRightPressed, wasRightReleased, isRightPressed := n.wasRightPressed, n.wasRightReleased, n.isRightPressed;
      wheelChanged, wheelPosition := n.wheelChanged, n.wheelPosition;
    }

    method ResetStatus()
      modifies this
      ensures Status() == Cleared(old(Status()))
      ensures isOpen == old(isOpen)
    {
      wasLeftPressed := false;
      wasLeftReleased := false;
      wasRightPressed := false;
      wasRightReleased := false;
      wheelChanged := false;
    }

    /** What a reader does before its switch: the button states are set from its buffers. */
    method SetButtons(isLeft: bool, isRight: bool)
      modifies this
      ensures Status() == old(Status()).(isLeftPressed := isLeft, isRightPressed := isRight)
      ensures isOpen == old(isOpen)
    {
      isRightPressed := isRight;
      isLeftPressed := isLeft;
    }
  }
}
