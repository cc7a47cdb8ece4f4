/**
 * The Linux evdev records both Linux readers consume: struct input_event of
 * linux/input.h without its timestamp, and the event type codes of
 * linux/input-event-codes.h that the readers switch on.
 */
module LinuxInput {

  const EvKey := 0x01
  const EvRel := 0x02
  const EvMsc := 0x04

  datatype InputEvent = InputEvent(kind: int, code: int, value: int)

  /** The two records every loop iteration reads, into event_start and event_end. */
  datatype EventPair = EventPair(eventStart: InputEvent, eventEnd: InputEvent)
}
