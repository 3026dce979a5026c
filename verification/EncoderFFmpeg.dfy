/** The software encoder object: the critical sections its threads execute, and metadata matched by stamp. */
module EncoderFFmpegs {
  import opened Prelude
  import opened DesktopFrames
  import opened MetadataMatch

  class EncoderFFmpeg {
    var flagRun: bool
    // guarded by frameLock; a captured picture is identified by a number
    var nextFrame: Option<DesktopFrame<int>>
    // guarded by packetLock
    var packetQueue: seq<Packet>
    // local to the worker
    var pts: nat
    var extraDataList: seq<Entry>

    // Frames given to the codec since start, and the numbers of those already returned.
    ghost var sent: seq<DesktopFrame<int>>
    ghost var returned: set<nat>
    // Packets queued since start, and how many of them were read.
    ghost var made: seq<Packet>
    ghost var read: nat

    ghost predicate Valid()
      reads this
    {
      && pts == |sent|
      && extraDataList == Pending(sent, |sent|, returned, FramePts)
      && (forall k :: k in returned ==> k < |sent|)
      && read <= |made| && packetQueue == made[read..]
    }

    constructor ()
      ensures Valid() && sent == [] && returned == {} && made == [] && read == 0
      ensures flagRun && nextFrame == None && packetQueue == []
    {
      flagRun, nextFrame, packetQueue := true, None, [];
      pts, extraDataList, sent, returned := 0, [], [], {};
      made, read := [], 0;
    }

    /** The pusher has waited until the mailbox is free or the encoder stops. */
    method PushFrame(frame: DesktopFrame<int>)
      requires flagRun ==> nextFrame == None
      modifies this`nextFrame
      ensures nextFrame == if flagRun then Some(frame) else old(nextFrame)
    {
      if !flagRun {
        return;
      }
      nextFrame := Some(frame);
    }

    /** The worker has waited until the mailbox is filled or the encoder stops. */
    method TakeFrame() returns (frame: Option<DesktopFrame<int>>)
      requires flagRun ==> nextFrame.Some?
      modifies this`nextFrame
      ensures flagRun ==> frame == old(nextFrame) && nextFrame == None
      ensures !flagRun ==> frame == None && nextFrame == old(nextFrame)
    {
      if !flagRun {
        return None;
      }
      frame := nextFrame;
      nextFrame := None;
    }

    /** The worker gives a frame to the codec under the next stamp and saves its metadata. */
    method SendFrame(frame: DesktopFrame<int>) returns (stamp: nat)
      requires Valid()
      modifies this`pts, this`extraDataList, this`sent
      ensures Valid() && stamp == |old(sent)| && sent == old(sent) + [frame]
    {
      stamp := pts;
      pts := pts + 1;
      extraDataList := extraDataList + [frame.GetOtherType(FramePts(stamp))];
      PendingAfterSend(sent, |sent|, frame, returned, FramePts);
      sent := sent + [frame];
    }

    /** The worker's turn when the codec wants input: what waited in the mailbox goes to the codec. */
    method EncodeNext() returns (stamp: Option<nat>)
      requires Valid() && (flagRun ==> nextFrame.Some?)
      modifies this`nextFrame, this`pts, this`extraDataList, this`sent
      ensures Valid()
      ensures flagRun ==>
        stamp == Some(|old(sent)|) && sent == old(sent) + [old(nextFrame).value] && nextFrame == None
      ensures !flagRun ==> stamp == None && sent == old(sent) && nextFrame == old(nextFrame)
    {
      var frame := TakeFrame();
      if frame == None {
        return None;
      }
      var given := SendFrame(frame.value);
      return Some(given);
    }

    /** The codec owes the k-th frame: the packet it returns under that stamp is queued with the k-th frame's own
        metadata, whatever the codec's order. */
    method ReceivePacket(stamp: int, encoded: Bytes, isIDR: bool, now: int, ghost k: nat)
      requires Valid() && k < |sent| && k !in returned && stamp == FramePts(k)
      modifies this`extraDataList, this`packetQueue, this`returned, this`made
      ensures Valid() && returned == old(returned) + {k}
      ensures |made| == |old(made)| + 1 && made[..|old(made)|] == old(made)
      ensures var p := made[|old(made)|];
        && p.desktop == encoded && p.isIDR == isIDR && p.timeEncoded == now
        && SameMetadata(p.(timeEncoded := sent[k].timeEncoded, isIDR := sent[k].isIDR), sent[k])
    {
      PendingAfterReturn(sent, |sent|, returned, FramePts, k);
      var m := FindAndErase(extraDataList, stamp);
      extraDataList := m.rest;
      returned := returned + {k};
      var output := m.entry.GetOtherType(encoded);
      output := output.(isIDR := isIDR);
      output := output.(timeEncoded := now);
      packetQueue := packetQueue + [output];
      made := made + [output];
    }

    /** The reader has waited until there is a packet or the encoder stops. Packets leave in the order they were made,
        each once. */
    method ReadData() returns (output: Option<Packet>)
      requires Valid() && (flagRun ==> packetQueue != [])
      modifies this`packetQueue, this`read
      ensures Valid()
      ensures flagRun ==> old(read) < |made| && output == Some(made[old(read)]) && read == old(read) + 1
      ensures !flagRun ==> output == None && read == old(read)
    {
      if !flagRun {
        return None;
      }
      output := Some(packetQueue[0]);
      packetQueue := packetQueue[1..];
      read := read + 1;
    }
  }
}
