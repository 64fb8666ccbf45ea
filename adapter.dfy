/** The two frame handlers of the TAP adapter (tap/adapter/SilKitAdapterTap.cpp):
    frames read from the TAP device are padded to the Ethernet minimum and
    sent to the bus with a fresh transmit id; frames received from the bus
    are written to the TAP device as they are. */
module TapAdapter {
  import opened Bytes
  import opened Transmit

  /** IEEE 802.3 minFrameSize (64 bytes, clause 4.4.2) without the 4-byte
      frame check sequence, which the TAP device does not deliver. */
  const MinFrameSize: nat := 60

  /** `data.resize(60, 0)` when the frame is shorter than 60 bytes. */
  function Padded(data: seq<byte>): (frame: seq<byte>)
    ensures |data| < MinFrameSize ==> |frame| == MinFrameSize
    ensures |data| >= MinFrameSize ==> frame == data
    ensures frame[..|data|] == data
    ensures AllZero(frame[|data|..])
  {
    if |data| < MinFrameSize then data + Zeros(MinFrameSize - |data|) else data
  }

  /** Padding a frame a second time changes nothing. */
  lemma PaddedIdempotent(data: seq<byte>)
    ensures Padded(Padded(data)) == Padded(data)
  {
  }

  /** The frames the adapter has written to the TAP device, in order. */
  class TapDevice {
    var written: seq<seq<byte>>

    constructor ()
      ensures written == []
    {
      written := [];
    }

    /** `TapConnection::SendEthernetFrameToTapDevice`; its size check and
        the write itself are OS-level I/O. */
    method SendEthernetFrameToTapDevice(frame: seq<byte>)
      modifies this
      ensures written == old(written) + [frame]
    {
      written := written + [frame];
    }
  }

  /** `onReceiveEthernetFrameFromTapDevice`: pads the frame in place, hands
      it to the controller with `++transmitId`, and returns what the debug
      log line reports (the frame size and the transmit id). */
  method OnReceiveEthernetFrameFromTapDevice(controller: FrameSender, data: seq<byte>)
    returns (frameSize: nat, loggedId: int)
    requires controller.Valid()
    modifies controller
    ensures controller.Valid()
    ensures controller.sent == old(controller.sent) + [Transmission(Padded(data), loggedId)]
    ensures loggedId == old(controller.transmitId) + 1 == controller.transmitId
    ensures frameSize == |Padded(data)|
  {
    var frame := data;
    if |frame| < MinFrameSize {
      frame := frame + Zeros(MinFrameSize - |frame|);
    }
    frameSize := |frame|;
    loggedId := controller.Send(frame);
  }

  /** `onReceiveEthernetMessageFromSilKit`: the raw bytes of the bus frame
      go to the TAP device unchanged; the log line reports their count. */
  method OnReceiveEthernetMessageFromSilKit(tap: TapDevice, rawFrame: seq<byte>) returns (frameSize: nat)
    modifies tap
    ensures tap.written == old(tap.written) + [rawFrame]
    ensures frameSize == |rawFrame|
  {
    tap.SendEthernetFrameToTapDevice(rawFrame);
    frameSize := |rawFrame|;
  }
}
