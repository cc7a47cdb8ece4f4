/**
 * The event decoder of the Linux keyboard reader
 * (src/inputDevice/unix/LinuxKeyboard.cpp): every poll starts with fresh
 * SPACE/ESC buffers, decodes the second record of each pair read, and latches
 * the buffers after every key event.
 */
module LinuxKeyboard {
  import opened Keyboard
  import opened LinuxInput

  const KeyEscCode := 1
  const KeySpaceCode := 57

  /** A key-down record (value 1; release is 0, auto-repeat 2) of the given key. */
  predicate IsKeyDown(e: InputEvent, code: int) {
    e.kind == EvKey && e.code == code && e.value == 1
  }

  /** The switch on event_end for one EV_KEY record, applied to the poll's buffers. */
  function DecodeKey(buffer: KeyEvents, e: InputEvent): KeyEvents {
    if e.code == KeySpaceCode && e.value == 1 then buffer.(wasSpacePressed := true)
    else if e.code == KeyEscCode && e.value == 1 then buffer.(wasEscPressed := true)
    else buffer
  }

  /** The buffers after the pairs of one poll; only EV_KEY records of event_end count. */
  function Buffers(burst: seq<EventPair>): KeyEvents {
    if burst == [] then NoKeys
    else
      var before := Buffers(burst[..|burst| - 1]);
      var e := burst[|burst| - 1].eventEnd;
      if e.kind == EvKey then DecodeKey(before, e) else before
  }

  /** SPACE is buffered exactly when a pair's second record is a SPACE key-down, and likewise ESC. */
  lemma {:induction false} BuffersMeaning(burst: seq<EventPair>)
    ensures Buffers(burst).wasSpacePressed
        <==> exists i :: 0 <= i < |burst| && IsKeyDown(burst[i].eventEnd, KeySpaceCode)
    ensures Buffers(burst).wasEscPressed
        <==> exists i :: 0 <= i < |burst| && IsKeyDown(burst[i].eventEnd, KeyEscCode)
  {
    if burst != [] {
      var n := |burst| - 1;
      var front := burst[..n];
      BuffersMeaning(front);
      forall i | 0 <= i < n
        ensures front[i] == burst[i]
      {
      }
    }
  }

  /** Pairs whose second record is not EV_KEY leave the buffers as they are. */
  lemma NonKeyPairIgnored(burst: seq<EventPair>, p: EventPair)
    requires p.eventEnd.kind != EvKey
    ensures Buffers(burst + [p]) == Buffers(burst)
  {
    assert (burst + [p])[..|burst|] == burst;
  }

  /**
   * One poll: the pairs read until read() fails, with updateStatus after every
   * EV_KEY record.
   */
  method Poll(keyboard: KeyboardDevice, burst: seq<EventPair>)
    modifies keyboard
    ensures keyboard.isOpen == old(keyboard.isOpen)
    ensures keyboard.Events() == Latch(old(keyboard.Events()), Buffers(burst))
  {
    var buffer := NoKeys;
    var i := 0;
    while i < |burst|
      invariant 0 <= i <= |burst|
      invariant keyboard.isOpen == old(keyboard.isOpen)
      invariant buffer == Buffers(burst[..i])
      invariant keyboard.Events() == Latch(old(keyboard.Events()), buffer)
    {
      assert burst[..i + 1][..i] == burst[..i];
      var eventEnd := burst[i].eventEnd;
      if eventEnd.kind == EvKey {
        if eventEnd.code == KeySpaceCode && eventEnd.value == 1 {
          buffer := buffer.(wasSpacePressed := true);
        } else if eventEnd.code == KeyEscCode && eventEnd.value == 1 {
          buffer := buffer.(wasEscPressed := true);
        }
        keyboard.UpdateStatus(buffer);
      }
      i := i + 1;
    }
    assert burst[..i] == burst;
  }

  /** The latch after a series of polls. */
  function ReadBursts(latched: KeyEvents, bursts: seq<seq<EventPair>>): KeyEvents {
    if bursts == [] then latched
    else Latch(ReadBursts(latched, bursts[..|bursts| - 1]), Buffers(bursts[|bursts| - 1]))
  }

  /** The polling loop of startRead; it returns at once when the device is closed. */
  method StartRead(keyboard: KeyboardDevice, bursts: seq<seq<EventPair>>)
    modifies keyboard
    ensures keyboard.isOpen == old(keyboard.isOpen)
    ensures keyboard.Events() == if old(keyboard.isOpen) then ReadBursts(old(keyboard.Events()), bursts)
                                 else old(keyboard.Events())
  {
    var i := 0;
    while i < |bursts|
      invariant 0 <= i <= |bursts|
      invariant keyboard.isOpen == old(keyboard.isOpen)
      invariant keyboard.Events() == if old(keyboard.isOpen) then ReadBursts(old(keyboard.Events()), bursts[..i])
                                     else old(keyboard.Events())
    {
      if !keyboard.isOpen {
        return;
      }
      assert bursts[..i + 1][..i] == bursts[..i];
      Poll(keyboard, bursts[i]);
      i := i + 1;
    }
    assert bursts[..i] == bursts;
  }
}
