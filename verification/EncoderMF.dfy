/** The Media Foundation encoder: frames in, encoded samples out, metadata matched by sample time. */
module EncoderMFs {
  import opened Prelude
  import opened DesktopFrames
  import opened MetadataMatch

  /** What the encoder's event queue can deliver. */
  datatype Event =
    | NeedInput
    | HaveOutput(sampleTime: int, isIDR: bool, encoded: Bytes)
    | DrainComplete

  class EncoderMF {
    var frameCnt: nat
    var waitingInput: bool
    var initialized: bool
    var extraData: seq<Entry>

    // Frames pushed since start, and the numbers of those already returned.
    ghost var sent: seq<DesktopFrame<int>>
    ghost var returned: set<nat>

    ghost predicate Valid()
      reads this
    {
      && frameCnt == |sent|
      && extraData == Pending(sent, |sent|, returned, SampleTime)
      && (forall k :: k in returned ==> k < |sent|)
    }

    constructor ()
      ensures Valid() && sent == [] && returned == {} && waitingInput && !initialized
    {
      frameCnt, waitingInput, initialized := 0, true, false;
      extraData, sent, returned := [], [], {};
    }

    /** `texture` identifies the captured picture. */
    method PushFrame(cap: DesktopFrame<int>) returns (accepted: bool)
      requires Valid()
      modifies this
      ensures Valid() && returned == old(returned) && !waitingInput
      ensures accepted == old(waitingInput)
      ensures sent == if accepted then old(sent) + [cap] else old(sent)
      ensures initialized == (old(initialized) || accepted)
    {
      if !waitingInput {
        return false;
      }
      waitingInput := false;
      initialized := true;
      var sampleTime := frameCnt * 10_000_000 * 1 / 60;
      extraData := extraData + [cap.GetOtherType(sampleTime)];
      PendingAfterSend(sent, |sent|, cap, returned, SampleTime);
      sent := sent + [cap];
      frameCnt := frameCnt + 1;
      return true;
    }

    /** The codec owes the frame whose sample time an output bears. */
    ghost predicate Owed(ev: Event, k: nat)
      reads this
    {
      ev.HaveOutput? ==> k < |sent| && k !in returned && ev.sampleTime == SampleTime(k)
    }

    /** One turn of the polling loop: an output always finds its own frame's metadata. */
    method Handle(ev: Event, now: int, ghost k: nat) returns (output: Option<DesktopFrame<Bytes>>)
      requires Valid() && Owed(ev, k)
      modifies this
      ensures Valid() && sent == old(sent) && initialized == old(initialized)
      ensures waitingInput == (old(waitingInput) || ev.NeedInput?)
      ensures ev.HaveOutput? ==>
        && returned == old(returned) + {k}
        && output.Some? && output.value.desktop == ev.encoded
        && output.value.timeEncoded == now && output.value.isIDR == ev.isIDR
        && SameMetadata(output.value.(timeEncoded := sent[k].timeEncoded, isIDR := sent[k].isIDR), sent[k])
      ensures !ev.HaveOutput? ==> output == None && returned == old(returned)
    {
      match ev
      case NeedInput =>
        waitingInput := true;
        output := None;
      case DrainComplete =>
        output := None;
      case HaveOutput(sampleTime, isIDR, encoded) =>
        SampleTimesDistinct();
        PendingAfterReturn(sent, |sent|, returned, SampleTime, k);
        var m := FindAndErase(extraData, sampleTime);
        extraData := m.rest;
        returned := returned + {k};
        output := Some(m.entry.(timeEncoded := now, isIDR := isIDR).GetOtherType(encoded));
    }
  }
}
