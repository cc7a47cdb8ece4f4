/**
 * The Windows mouse reader (src/inputDevice/win/WindowsMouse.cpp): the
 * vendor/product id parser for hardware ids, and the stroke decoder of
 * startRead, which decodes only strokes of the configured USB mouse.
 */
module WindowsMouse {
  import opened Wrappers
  import opened Strings
  import opened Mouse

  // ---------------------------------------------------------------------------
  // extract_vid_and_pid

  /** The four characters after the first occurrence of tag, when at least four follow it. */
  function FieldAfter(hid: string, tag: string): (r: Option<string>)
    requires |tag| == 4
    ensures r.Some? ==> |r.value| == 4
  {
    match Find(hid, tag)
    case None => None
    case Some(found) =>
      if |hid| <= found + 7 then None else Some(hid[found + 4..found + 8])
  }

  /**
   * extract_vid_and_pid: None is the `false` return (both outputs are then
   * ""), Some((vid, pid)) the `true` return. Both searches start at the
   * beginning of the hardware id.
   */
  function ExtractVidAndPid(hid: string): (r: Option<(string, string)>)
    ensures r.Some? ==> |r.value.0| == 4 && |r.value.1| == 4
  {
    match FieldAfter(hid, "VID_")
    case None => None
    case Some(vid) =>
      match FieldAfter(hid, "PID_")
      case None => None
      case Some(pid) => Some((vid, pid))
  }

  /** The vendor and product ids are the four characters after the first "VID_" and the first "PID_". */
  lemma IdsAfterFirstTags(hid: string, f: nat, g: nat)
    requires IsFirstFrom(hid, "VID_", 0, f) && f + 8 <= |hid|
    requires IsFirstFrom(hid, "PID_", 0, g) && g + 8 <= |hid|
    ensures ExtractVidAndPid(hid) == Some((hid[f + 4..f + 8], hid[g + 4..g + 8]))
  {
    FindIsFirst(hid, "VID_", f);
    FindIsFirst(hid, "PID_", g);
  }

  /** Without "VID_", or with fewer than four characters after it, the result is false. */
  lemma VidMissing(hid: string)
    requires (forall k :: !OccursAt(hid, "VID_", k))
             || exists f: nat :: IsFirstFrom(hid, "VID_", 0, f) && |hid| < f + 8
    ensures ExtractVidAndPid(hid) == None
  {
    if exists f: nat :: IsFirstFrom(hid, "VID_", 0, f) && |hid| < f + 8 {
      var f: nat :| IsFirstFrom(hid, "VID_", 0, f) && |hid| < f + 8;
      FindIsFirst(hid, "VID_", f);
    } else {
      assert Find(hid, "VID_") == None;
    }
  }

  /** Without "PID_", or with fewer than four characters after it, the result is false too. */
  lemma PidMissing(hid: string)
    requires (forall k :: !OccursAt(hid, "PID_", k))
             || exists g: nat :: IsFirstFrom(hid, "PID_", 0, g) && |hid| < g + 8
    ensures ExtractVidAndPid(hid) == None
  {
    if exists g: nat :: IsFirstFrom(hid, "PID_", 0, g) && |hid| < g + 8 {
      var g: nat :| IsFirstFrom(hid, "PID_", 0, g) && |hid| < g + 8;
      FindIsFirst(hid, "PID_", g);
    } else {
      assert Find(hid, "PID_") == None;
    }
  }

  predicate IsHexDigit(c: char) {
    ('0' <= c <= '9') || ('A' <= c <= 'F') || ('a' <= c <= 'f')
  }

  /** The hardware id Windows reports for a HID device: "HID\VID_vvvv&PID_pppp" and a suffix. */
  function HardwareId(vid: string, pid: string, suffix: string): string {
    "HID\\VID_" + vid + "&PID_" + pid + suffix
  }

  /** The ids of a hardware id built from four-digit hexadecimal ids are read back. */
  lemma {:induction false} HardwareIdRoundTrip(vid: string, pid: string, suffix: string)
    requires |vid| == 4 && |pid| == 4
    requires forall i :: 0 <= i < 4 ==> IsHexDigit(vid[i]) && IsHexDigit(pid[i])
    ensures ExtractVidAndPid(HardwareId(vid, pid, suffix)) == Some((vid, pid))
  {
    var hid := HardwareId(vid, pid, suffix);
    var head, mid := "HID\\VID_", "&PID_";
    assert hid == head + vid + mid + pid + suffix;
    assert hid[..8] == head && hid[4..8] == head[4..8] == "VID_";
    assert hid[8..12] == vid;
    assert hid[12..17] == mid && hid[13..17] == mid[1..] == "PID_";
    assert hid[17..21] == pid;
    forall k | 0 <= k < 4
      ensures !OccursAt(hid, "VID_", k)
    {
      assert hid[k] != 'V';
      assert hid[k..k + 4][0] == hid[k];
    }
    forall k | 0 <= k < 13
      ensures !OccursAt(hid, "PID_", k)
    {
      if 8 <= k < 12 {
        assert hid[k] == vid[k - 8];
      }
      assert hid[k] != 'P';
      assert hid[k..k + 4][0] == hid[k];
    }
    IdsAfterFirstTags(hid, 4, 13);
  }

  // ---------------------------------------------------------------------------
  // startRead

  /** The states of the interception library's mouse strokes that the reader decodes. */
  const LeftButtonDown := 0x001
  const LeftButtonUp := 0x002
  const RightButtonDown := 0x004
  const RightButtonUp := 0x008
  const Wheel := 0x400

  /** The size in bytes of the reader's hardware_id buffer, 500 UTF-16 characters. */
  const HardwareIdBufferBytes := 1000

  /** An intercepted stroke, with the hardware id of the device it came from. */
  datatype MouseStroke = MouseStroke(
    fromMouse: bool, hardwareIdBytes: int, hardwareId: string, state: int, rolling: int)

  /** The strokes startRead decodes instead of passing them on. */
  predicate FromDevice(s: MouseStroke, vid: string, pid: string) {
    s.fromMouse && 0 < s.hardwareIdBytes < HardwareIdBufferBytes
    && ExtractVidAndPid(s.hardwareId) == Some((vid, pid))
  }

  /** The switch on the stroke state, applied to the stroke's fresh buffers. */
  function Decode(b: MouseStatus, state: int, rolling: int): MouseStatus {
    if state == LeftButtonDown then b.(wasLeftPressed := true, isLeftPressed := true)
    else if state == LeftButtonUp then b.(wasLeftReleased := true, isLeftPressed := false)
    else if state == RightButtonDown then b.(wasRightPressed := true, isRightPressed := true)
    else if state == RightButtonUp then b.(wasRightReleased := true, isRightPressed := false)
    else if state == Wheel then
      b.(wheelChanged := true, wheelPosition := if rolling > 0 then b.wheelPosition + 1 else b.wheelPosition - 1)
    else b
  }

  /** The strokes the reader decodes, in order; None for a stroke it passes on. */
  function Accepted(strokes: seq<MouseStroke>, vid: string, pid: string): (r: seq<Option<MouseStroke>>)
    ensures |r| == |strokes|
    ensures forall i :: 0 <= i < |strokes| ==> (r[i].Some? <==> FromDevice(strokes[i], vid, pid))
    ensures forall i :: 0 <= i < |strokes| && r[i].Some? ==> r[i].value == strokes[i]
  {
    seq(|strokes|, i requires 0 <= i < |strokes| =>
      if FromDevice(strokes[i], vid, pid) then Some(strokes[i]) else None)
  }

  /** The device and the button buffers (left, right) after a series of strokes. */
  function ReadAccepted(s: MouseStatus, accepted: seq<Option<MouseStroke>>): (MouseStatus, bool, bool) {
    if accepted == [] then (s, false, false)
    else
      var (before, isLeft, isRight) := ReadAccepted(s, accepted[..|accepted| - 1]);
      match accepted[|accepted| - 1]
      case None => (before, isLeft, isRight)
      case Some(stroke) =>
        var b := Decode(FreshEvents(before, isLeft, isRight), stroke.state, stroke.rolling);
        (Latch(before.(isLeftPressed := isLeft, isRightPressed := isRight), b), b.isLeftPressed, b.isRightPressed)
  }

  function ReadStrokes(s: MouseStatus, strokes: seq<MouseStroke>, vid: string, pid: string): (MouseStatus, bool, bool) {
    ReadAccepted(s, Accepted(strokes, vid, pid))
  }

  predicate IsLeftTransition(a: Option<MouseStroke>) {
    a.Some? && (a.value.state == LeftButtonDown || a.value.state == LeftButtonUp)
  }

  /**
   * The buffered left button is down exactly when the last left-button stroke of
   * the configured mouse was a press.
   */
  lemma {:induction false} LastLeftStrokeWins(s: MouseStatus, accepted: seq<Option<MouseStroke>>)
    ensures ReadAccepted(s, accepted).1
        <==> exists i :: 0 <= i < |accepted| && IsLeftTransition(accepted[i])
                         && accepted[i].value.state == LeftButtonDown
                         && forall j :: i < j < |accepted| ==> !IsLeftTransition(accepted[j])
  {
    if accepted != [] {
      var n := |accepted| - 1;
      var front := accepted[..n];
      LastLeftStrokeWins(s, front);
      forall i | 0 <= i < n
        ensures front[i] == accepted[i]
      {
      }
      if IsLeftTransition(accepted[n]) {
        if accepted[n].value.state == LeftButtonDown {
          assert ReadAccepted(s, accepted).1;
        } else {
          assert !ReadAccepted(s, accepted).1;
        }
      }
    }
  }

  /** The wheel step of one decoded stroke: +1 for a positive rolling, -1 otherwise. */
  function WheelStep(a: Option<MouseStroke>): int {
    if a.Some? && a.value.state == Wheel then (if a.value.rolling > 0 then 1 else -1) else 0
  }

  /** The wheel steps of the decoded strokes. */
  function WheelSteps(accepted: seq<Option<MouseStroke>>): int {
    if accepted == [] then 0
    else WheelSteps(accepted[..|accepted| - 1]) + WheelStep(accepted[|accepted| - 1])
  }

  /** The wheel position one decoded stroke leaves behind. */
  lemma StrokeWheel(before: MouseStatus, isLeft: bool, isRight: bool, stroke: MouseStroke)
    ensures Decode(FreshEvents(before, isLeft, isRight), stroke.state, stroke.rolling).wheelPosition
         == before.wheelPosition + WheelStep(Some(stroke))
  {
  }

  /** The wheel position moves by one step per wheel stroke of the configured mouse. */
  lemma {:induction false} WheelCounts(s: MouseStatus, accepted: seq<Option<MouseStroke>>)
    ensures ReadAccepted(s, accepted).0.wheelPosition == s.wheelPosition + WheelSteps(accepted)
  {
    if accepted != [] {
      var n := |accepted| - 1;
      WheelCounts(s, accepted[..n]);
      var (before, isLeft, isRight) := ReadAccepted(s, accepted[..n]);
      if accepted[n].Some? {
        StrokeWheel(before, isLeft, isRight, accepted[n].value);
      }
    }
  }

  /** A stroke of every other device passes the reader without a trace. */
  lemma OtherDeviceIgnored(s: MouseStatus, strokes: seq<MouseStroke>, stroke: MouseStroke, vid: string, pid: string)
    requires !FromDevice(stroke, vid, pid)
    ensures ReadStrokes(s, strokes + [stroke], vid, pid) == ReadStrokes(s, strokes, vid, pid)
  {
    var all := Accepted(strokes + [stroke], vid, pid);
    assert all[..|strokes|] == Accepted(strokes, vid, pid);
  }

  /**
   * The loop of startRead over the intercepted strokes, for the mouse configured
   * by vid and pid; it returns at once when the device is closed.
   */
  method StartRead(mouse: MouseDevice, vid: string, pid: string, strokes: seq<MouseStroke>)
    modifies mouse
    ensures mouse.isOpen == old(mouse.isOpen)
    ensures mouse.Status() == if old(mouse.isOpen) then ReadStrokes(old(mouse.Status()), strokes, vid, pid).0
                              else old(mouse.Status())
  {
    var accepted := Accepted(strokes, vid, pid);
    var isLeft, isRight := false, false;
    var i := 0;
    while i < |strokes|
      invariant 0 <= i <= |strokes|
      invariant mouse.isOpen == old(mouse.isOpen)
      invariant old(mouse.isOpen) ==> (mouse.Status(), isLeft, isRight) == ReadAccepted(old(mouse.Status()), accepted[..i])
      invariant !old(mouse.isOpen) ==> mouse.Status() == old(mouse.Status())
    {
      if !mouse.isOpen {
        return;
      }
      assert accepted[..i + 1][..i] == accepted[..i];
      var stroke := strokes[i];
      if stroke.fromMouse && 0 < stroke.hardwareIdBytes < HardwareIdBufferBytes {
        var ids := ExtractVidAndPid(stroke.hardwareId);
        if ids.Some? && ids.value.0 == vid && ids.value.1 == pid {
          var buffer := FreshEvents(mouse.Status(), isLeft, isRight);
          mouse.SetButtons(isLeft, isRight);
          buffer := Decode(buffer, stroke.state, stroke.rolling);
          mouse.UpdateStatus(buffer);
          isLeft, isRight := buffer.isLeftPressed, buffer.isRightPressed;
        }
      }
      i := i + 1;
    }
    assert accepted[..i] == accepted;
  }
}
