/** The numbered hand-off of frames to the SIL Kit Ethernet controller.
    Both the adapter's TAP-to-bus handler and the demo's send callback keep
    a function-static `transmitId` that starts at 0 and is pre-incremented
    for every frame; the incremented value is the transmit id handed to
    `SendFrame` together with the frame and then written to the log. */
module Transmit {
  import opened Bytes

  /** A frame as handed to `SendFrame`, with its transmit id. */
  datatype Transmission = Transmission(frame: seq<byte>, transmitId: int)

  /** The static counter of one send path, and the frames that path has
      handed to the controller so far, in order. */
  class FrameSender {
    var transmitId: int
    var sent: seq<Transmission>

    /** Ids are 1, 2, 3, ... in sending order, and the counter holds the
        last id issued. */
    ghost predicate Valid()
      reads this
    {
      transmitId == |sent|
      && forall j :: 0 <= j < |sent| ==> sent[j].transmitId == j + 1
    }

    /** `static intptr_t transmitId = 0;` */
    constructor ()
      ensures Valid() && transmitId == 0 && sent == []
    {
      transmitId := 0;
      sent := [];
    }

    /** `SendFrame(EthernetFrame{data}, ++transmitId)`: returns the id used,
        which is also the value the log line shows. */
    method Send(frame: seq<byte>) returns (id: int)
      requires Valid()
      modifies this
      ensures Valid()
      ensures id == old(transmitId) + 1 && transmitId == id
      ensures sent == old(sent) + [Transmission(frame, id)]
    {
      transmitId := transmitId + 1;
      id := transmitId;
      sent := sent + [Transmission(frame, id)];
    }
  }
}
