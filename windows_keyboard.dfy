/**
 * The stroke decoder of the Windows keyboard reader
 * (src/inputDevice/win/WindowsKeyboard.cpp): each intercepted stroke from a
 * keyboard device is turned into fresh SPACE/ESC buffers by its scancode and
 * latched into the keyboard device.
 */
module WindowsKeyboard {
  import opened Keyboard

  const ScancodeEsc := 0x01
  const ScancodeSpace := 0x5e
  const ScancodeSpace2 := 0x39

  /** An intercepted stroke: whether it comes from a keyboard, and its scancode. */
  datatype KeyStroke = KeyStroke(fromKeyboard: bool, code: int)

  /** The switch on the scancode, into buffers that start out false. */
  function DecodeScancode(code: int): (k: KeyEvents)
    ensures k.wasEscPressed <==> code == ScancodeEsc
    ensures k.wasSpacePressed <==> code == ScancodeSpace || code == ScancodeSpace2
  {
    if code == ScancodeEsc then KeyEvents(false, true)
    else if code == ScancodeSpace || code == ScancodeSpace2 then KeyEvents(true, false)
    else NoKeys
  }

  /** Any other scancode still reaches updateStatus, where it changes nothing. */
  lemma OtherScancodeIgnored(latched: KeyEvents, code: int)
    requires code != ScancodeEsc && code != ScancodeSpace && code != ScancodeSpace2
    ensures Latch(latched, DecodeScancode(code)) == latched
  {
  }

  /** The latch after a series of strokes: only keyboard strokes are decoded. */
  function ReadStrokes(latched: KeyEvents, strokes: seq<KeyStroke>): KeyEvents {
    if strokes == [] then latched
    else
      var before := ReadStrokes(latched, strokes[..|strokes| - 1]);
      var s := strokes[|strokes| - 1];
      if s.fromKeyboard then Latch(before, DecodeScancode(s.code)) else before
  }

  /** A key reads as pressed after a series of strokes exactly when it was before or a keyboard stroke pressed it. */
  lemma {:induction false} ReadStrokesMeaning(latched: KeyEvents, strokes: seq<KeyStroke>, key: Key)
    ensures Pressed(ReadStrokes(latched, strokes), key)
        <==> Pressed(latched, key)
             || exists i :: 0 <= i < |strokes| && strokes[i].fromKeyboard && Pressed(DecodeScancode(strokes[i].code), key)
  {
    if strokes != [] {
      var n := |strokes| - 1;
      var front := strokes[..n];
      ReadStrokesMeaning(latched, front, key);
      if exists i :: 0 <= i < |strokes| && strokes[i].fromKeyboard && Pressed(DecodeScancode(strokes[i].code), key) {
        var i :| 0 <= i < |strokes| && strokes[i].fromKeyboard && Pressed(DecodeScancode(strokes[i].code), key);
        if i < n {
          assert front[i] == strokes[i];
        }
      }
      if exists i :: 0 <= i < |front| && front[i].fromKeyboard && Pressed(DecodeScancode(front[i].code), key) {
        var i :| 0 <= i < |front| && front[i].fromKeyboard && Pressed(DecodeScancode(front[i].code), key);
        assert strokes[i] == front[i];
      }
    }
  }

  /** The loop of startRead over the intercepted strokes; it returns at once when the device is closed. */
  method StartRead(keyboard: KeyboardDevice, strokes: seq<KeyStroke>)
    modifies keyboard
    ensures keyboard.isOpen == old(keyboard.isOpen)
    ensures keyboard.Events() == if old(keyboard.isOpen) then ReadStrokes(old(keyboard.Events()), strokes)
                                 else old(keyboard.Events())
  {
    var i := 0;
    while i < |strokes|
      invariant 0 <= i <= |strokes|
      invariant keyboard.isOpen == old(keyboard.isOpen)
      invariant keyboard.Events() == if old(keyboard.isOpen) then ReadStrokes(old(keyboard.Events()), strokes[..i])
                                     else old(keyboard.Events())
    {
      if !keyboard.isOpen {
        return;
      }
      assert strokes[..i + 1][..i] == strokes[..i];
      var stroke := strokes[i];
      if stroke.fromKeyboard {
        var buffer := DecodeScancode(stroke.code);
        keyboard.UpdateStatus(buffer);
      }
      i := i + 1;
    }
    assert strokes[..i] == strokes;
  }
}
