/** Packets as the relay sees them, and the allocator that owns packets and frames.
    A packet is an object (its identity is what may be freed only once); its `Value` is what travels. */
module Packets {

  import opened Bytes

  /** Audio and video payloads are abstract: either what was read from the input or encoded silence. */
  datatype Payload = Original | Silent

  datatype Packet = Packet(pts: int, dts: int, duration: int, stream: int, payload: Payload)

  class AVPacket {
    var pts: int
    var dts: int
    var duration: int
    var stream: int
    var payload: Payload

    constructor ()
    {
      pts, dts, duration, stream, payload := 0, 0, 0, 0, Original;
    }

    function Value(): Packet
      reads this
    {
      Packet(pts, dts, duration, stream, payload)
    }
  }

  /** A decoded audio frame: one sample plane per channel. */
  class AVFrame {
    var samples: nat
    var planes: seq<array<byte>>

    constructor ()
      ensures planes == [] && samples == 0
    {
      samples, planes := 0, [];
    }
  }

  /** The allocator. `packets` and `frames` are the live objects; freeing demands a live one,
      so a verified program frees nothing twice and frees only what was allocated. */
  class Heap {
    ghost var packets: set<AVPacket>
    ghost var frames: set<AVFrame>

    constructor ()
      ensures packets == {} && frames == {}
    {
      packets, frames := {}, {};
    }

    method AllocPacket() returns (p: AVPacket)
      modifies this
      ensures fresh(p) && packets == old(packets) + {p} && frames == old(frames)
    {
      p := new AVPacket();
      packets := packets + {p};
    }

    method FreePacket(p: AVPacket)
      requires p in packets
      modifies this
      ensures packets == old(packets) - {p} && frames == old(frames)
    {
      packets := packets - {p};
    }

    method AllocFrame() returns (f: AVFrame)
      modifies this
      ensures fresh(f) && frames == old(frames) + {f} && packets == old(packets)
    {
      f := new AVFrame();
      frames := frames + {f};
    }

    method FreeFrame(f: AVFrame)
      requires f in frames
      modifies this
      ensures frames == old(frames) - {f} && packets == old(packets)
    {
      frames := frames - {f};
    }
  }
}
