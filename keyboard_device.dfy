/**
 * The keyboard latch shared by both platform readers
 * (src/inputDevice/KeyboardDevice.cpp): a SPACE and an ESC flag that are OR-ed
 * in until the user resets them.
 */
module Keyboard {

  /** The two values updateStatus takes and getStatusSinceLastReset hands out. */
  datatype KeyEvents = KeyEvents(wasSpacePressed: bool, wasEscPressed: bool)

  datatype Key = Space | Esc

  function Pressed(k: KeyEvents, key: Key): bool {
    match key
    case Space => k.wasSpacePressed
    case Esc => k.wasEscPressed
  }

  const NoKeys := KeyEvents(false, false)

  /** The rule of updateStatus: both flags are OR-ed in. */
  function Latch(latched: KeyEvents, update: KeyEvents): KeyEvents {
    KeyEvents(latched.wasSpacePressed || update.wasSpacePressed,
              latched.wasEscPressed || update.wasEscPressed)
  }

  /** A series of updateStatus calls, the last update last. */
  function LatchAll(latched: KeyEvents, updates: seq<KeyEvents>): KeyEvents {
    if updates == [] then latched
    else Latch(LatchAll(latched, updates[..|updates| - 1]), updates[|updates| - 1])
  }

  /** After a series of updates a key reads as pressed exactly when it was before or some update pressed it. */
  lemma {:induction false} LatchAllMeaning(latched: KeyEvents, updates: seq<KeyEvents>, key: Key)
    ensures Pressed(LatchAll(latched, updates), key)
        <==> Pressed(latched, key) || exists i :: 0 <= i < |updates| && Pressed(updates[i], key)
  {
    if updates != [] {
      var n := |updates| - 1;
      var front := updates[..n];
      LatchAllMeaning(latched, front, key);
      if exists i :: 0 <= i < |updates| && Pressed(updates[i], key) {
        var i :| 0 <= i < |updates| && Pressed(updates[i], key);
        if i < n {
          assert front[i] == updates[i];
        }
      }
      if exists i :: 0 <= i < |front| && Pressed(front[i], key) {
        var i :| 0 <= i < |front| && Pressed(front[i], key);
        assert updates[i] == front[i];
      }
    }
  }

  /** Only one press per key is buffered: a repeated update changes nothing more. */
  lemma LatchIdempotent(latched: KeyEvents, update: KeyEvents)
    ensures Latch(Latch(latched, update), update) == Latch(latched, update)
  {
  }

  /** The order of the presses since the last reset is not kept. */
  lemma LatchCommutes(latched: KeyEvents, u: KeyEvents, v: KeyEvents)
    ensures Latch(Latch(latched, u), v) == Latch(Latch(latched, v), u)
  {
  }

  /** An update that presses nothing leaves the latch as it is. */
  lemma NoKeysNeutral(latched: KeyEvents)
    ensures Latch(latched, NoKeys) == latched
  {
  }

  /**
   * KeyboardDevice: the latched state behind a keyboard reader. The reading
   * thread calls UpdateStatus; the user calls GetStatusSinceLastReset and
   * ResetStatus.
   */
  class KeyboardDevice {
    var isOpen: bool
    var wasSpacePressed: bool
    var wasEscPressed: bool

    function Events(): KeyEvents
      reads this
    {
      KeyEvents(wasSpacePressed, wasEscPressed)
    }

    /** A new device is closed, with both flags false. */
    constructor ()
      ensures !isOpen && Events() == NoKeys
    {
      isOpen := false;
      wasSpacePressed := false;
      wasEscPressed := false;
    }

    /** The copy-out of both flags, which happens only while the device is open. */
    method GetStatusSinceLastReset(previous: KeyEvents) returns (k: KeyEvents)
      ensures isOpen ==> k == Events()
      ensures !isOpen ==> k == previous
    {
      if isOpen {
        k := Events();
        return;
      }
      k := previous;
    }

    method UpdateStatus(update: KeyEvents)
      modifies this
      ensures Events() == Latch(old(Events()), update)
      ensures isOpen == old(isOpen)
    {
      wasSpacePressed := wasSpacePressed || update.wasSpacePressed;
      wasEscPressed := wasEscPressed || update.wasEscPressed;
    }

    method ResetStatus()
      modifies this
      ensures Events() == NoKeys
      ensures isOpen == old(isOpen)
    {
      wasSpacePressed := false;
      wasEscPressed := false;
    }
  }
}
