/** The decoder object: the critical sections its threads execute, on the data they share. */
module DecoderFFmpegs {
  import opened Prelude
  import opened DesktopFrames
  import opened PacketQueue
  import opened MetadataMatch
  import opened CircularDeques
  import opened DecoderThreads

  class DecoderFFmpeg {
    // guarded by packetLock
    var flagKeyInPacket: bool
    var packetQueue: seq<Packet>
    // guarded by frameLock
    const frameQueue: CircularDeque<Frame>
    var prevReadFrame: Option<Picture>
    // local to the worker
    var pts: nat
    var extraDataList: seq<Entry>

    // Packets given to the codec since start, and the stamps of those already returned.
    ghost var sent: seq<Packet>
    ghost var returned: set<nat>

    ghost predicate Valid()
      reads this, frameQueue
    {
      && frameQueue.Valid() && frameQueue.LEN == FRAME_CAPACITY
      && pts == |sent|
      && extraDataList == Pending(sent, |sent|, returned, FramePts)
      && (forall k :: k in returned ==> k < |sent|)
    }

    /** The codec owes a stamp it was given and has not returned. */
    ghost predicate OwesStamp(stamp: nat)
      reads this
    {
      stamp < |sent| && stamp !in returned
    }

    ghost function QueueState(): Queue
      reads this
    {
      Queue(packetQueue, flagKeyInPacket)
    }

    constructor ()
      ensures Valid() && fresh(frameQueue) && fresh(frameQueue.data)
      ensures QueueState() == EMPTY && sent == [] && returned == {} && frameQueue.Contents() == []
      ensures prevReadFrame == None
    {
      flagKeyInPacket, packetQueue, prevReadFrame := false, [], None;
      frameQueue := new CircularDeque<Frame>(FRAME_CAPACITY);
      pts, extraDataList, sent, returned := 0, [], [], {};
    }

    /** Queue a packet; a second key frame replaces the backlog but keeps the backlog's cursor data. */
    method PushData(frame: Packet)
      modifies this`flagKeyInPacket, this`packetQueue
      ensures QueueState() == Push(old(QueueState()), frame)
      ensures !frame.isIDR || !old(flagKeyInPacket) ==> packetQueue == old(packetQueue) + [frame]
    {
      var now := frame;
      if now.isIDR {
        if flagKeyInPacket {
          var lastPos: Option<CursorPos> := None;
          var lastShape: Option<CursorShape> := None;
          var i := 0;
          while i < |packetQueue|
            invariant 0 <= i <= |packetQueue|
            invariant lastPos == Last(packetQueue[..i], PosOf)
            invariant lastShape == Last(packetQueue[..i], ShapeOf)
          {
            assert packetQueue[..i + 1][..i] == packetQueue[..i];
            if packetQueue[i].cursorPos.Some? {
              lastPos := packetQueue[i].cursorPos;
            }
            if packetQueue[i].cursorShape.Some? {
              lastShape := packetQueue[i].cursorShape;
            }
            i := i + 1;
          }
          assert packetQueue[..i] == packetQueue;
          packetQueue := [];
          if lastPos.Some? && now.cursorPos.None? {
            now := now.(cursorPos := lastPos);
          }
          if lastShape.Some? && now.cursorShape.None? {
            now := now.(cursorShape := lastShape);
          }
        }
        flagKeyInPacket := true;
      }
      packetQueue := packetQueue + [now];
    }

    /** The worker takes the oldest packet. */
    method TakePacket() returns (packet: Packet)
      requires packetQueue != []
      modifies this`flagKeyInPacket, this`packetQueue
      ensures packet == old(packetQueue)[0] && QueueState() == Pop(old(QueueState()))
    {
      packet := packetQueue[0];
      packetQueue := packetQueue[1..];
      if packet.isIDR {
        flagKeyInPacket := false;
      }
    }

    /** The worker gives a packet to the codec under the next stamp and saves its metadata. */
    method SavePacket(packet: Packet) returns (stamp: nat)
      requires Valid()
      modifies this`pts, this`extraDataList, this`sent
      ensures Valid() && stamp == |old(sent)| && sent == old(sent) + [packet] && OwesStamp(stamp)
    {
      stamp := pts;
      pts := pts + 1;
      extraDataList := extraDataList + [packet.GetOtherType(FramePts(stamp))];
      PendingAfterSend(sent, |sent|, packet, returned, FramePts);
      sent := sent + [packet];
    }

    /** The worker receives a picture; None stands for the assertion that ends the program. */
    method MatchPicture(stamp: nat, now: int) returns (out: Option<Frame>)
      requires Valid()
      modifies this`extraDataList, this`returned
      ensures Valid()
      ensures old(OwesStamp(stamp)) ==>
        && out.Some? && out.value.desktop == Picture(stamp) && out.value.timeDecoded == now
        && OwnMetadata(out.value, sent) && returned == old(returned) + {stamp}
      ensures !old(OwesStamp(stamp)) ==> out == None && returned == old(returned)
    {
      if OwesStamp(stamp) {
        PendingAfterReturn(sent, |sent|, returned, FramePts, stamp);
      } else {
        OtherStampIsMissing(sent, |sent|, returned, stamp);
      }
      var m := FindAndErase(extraDataList, stamp);
      match m
      case Missing => out := None;
      case Found(entry, rest) =>
        extraDataList := rest;
        returned := returned + {stamp};
        out := Some(entry.GetOtherType(Picture(stamp)).(timeDecoded := now));
    }

    /** The worker queues a decoded frame; false stands for the end of the program on a full queue. */
    method QueueFrame(out: Frame) returns (ok: bool)
      requires Valid()
      modifies frameQueue, frameQueue.data
      ensures Valid() && ok == (|old(frameQueue.Contents())| < FRAME_CAPACITY)
      ensures frameQueue.Contents() == if ok then old(frameQueue.Contents()) + [out] else old(frameQueue.Contents())
    {
      ok := frameQueue.PushBack(out);
    }

    /** The reader takes the oldest decoded frame; the decoder keeps its picture, in place of the one it kept before.
        None stands for the end of the program on an empty queue. */
    method ReadFrame() returns (output: Option<Frame>)
      requires Valid()
      modifies this`prevReadFrame, frameQueue
      ensures Valid()
      ensures old(frameQueue.Contents()) == [] ==>
        output == None && frameQueue.Contents() == [] && prevReadFrame == old(prevReadFrame)
      ensures old(frameQueue.Contents()) != [] ==>
        && output == Some(old(frameQueue.Contents())[0]) && frameQueue.Contents() == old(frameQueue.Contents())[1..]
        && prevReadFrame == Some(output.value.desktop)
    {
      output := frameQueue.Front();
      if output.Some? {
        prevReadFrame := Some(output.value.desktop);
      }
      var _ := frameQueue.PopFront();
    }

    /** The worker's last act: no frame waits any more, and no picture is kept. */
    method DropFrames()
      requires Valid()
      modifies this`prevReadFrame, frameQueue
      ensures Valid() && frameQueue.Contents() == [] && prevReadFrame == None
    {
      frameQueue.Clear();
      prevReadFrame := None;
    }
  }
}
