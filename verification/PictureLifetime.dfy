/** How long a picture handed to the renderer stays valid. The renderer gets a reference into the frame the decoder
    keeps from the last read; the next read replaces that frame, and the worker frees it as its last act. */
module PictureLifetimes {
  import opened Prelude
  import opened DesktopFrames
  import opened DecoderThreads
  import opened RendererCursors

  /** The picture the decoder keeps, after one more event. */
  function HeldAfter(held: Option<Picture>, s: State, e: Event): Option<Picture> {
    if e.ReaderStep? && s.reader.ReaderTake? && s.frames != [] then Some(s.frames[0].desktop)
    else if e.WorkerStep? && s.worker.Drop? then None
    else held
  }

  /** The picture the decoder keeps after a run from the start. */
  function Held(es: seq<Event>): Option<Picture>
    requires RunFrom(INITIAL, es).Some?
  {
    if es == [] then None
    else
      var front := es[..|es| - 1];
      HeldAfter(Held(front), RunFrom(INITIAL, front).value, es[|es| - 1])
  }

  /** A worker that has ended leaves no frame behind, and takes no step. */
  lemma {:induction false} EndedLeavesNothing(es: seq<Event>)
    requires RunFrom(INITIAL, es).Some?
    ensures var s := RunFrom(INITIAL, es).value; s.worker.WorkerDone? ==> s.frames == []
  {
    if es != [] {
      EndedLeavesNothing(es[..|es| - 1]);
    }
  }

  function LastPicture(fs: seq<Frame>): Option<Picture> {
    if fs == [] then None else Some(fs[|fs| - 1].desktop)
  }

  function HeldIn(s: State): Option<Picture> { if s.worker.WorkerDone? then None else LastPicture(s.delivered) }

  lemma WorkerKeepsHeld(s: State, reply: CodecReply)
    requires WorkerNext(s, reply).Some?
    ensures HeldAfter(HeldIn(s), s, WorkerStep(reply)) == HeldIn(WorkerNext(s, reply).value)
  {
  }

  lemma ReaderKeepsHeld(s: State)
    requires ReaderNext(s).Some? && (s.worker.WorkerDone? ==> s.frames == [])
    ensures HeldAfter(HeldIn(s), s, ReaderStep) == HeldIn(ReaderNext(s).value)
  {
  }

  lemma StepKeepsHeld(s: State, e: Event)
    requires Step(s, e).Some? && (s.worker.WorkerDone? ==> s.frames == [])
    ensures HeldAfter(HeldIn(s), s, e) == HeldIn(Step(s, e).value)
  {
    if e.WorkerStep? {
      WorkerKeepsHeld(s, e.reply);
    } else if e.ReaderStep? {
      ReaderKeepsHeld(s);
    }
  }

  /** In every run the picture kept is the one handed over last, until the worker ends; then there is none. */
  lemma {:induction false} LastPictureIsHeld(es: seq<Event>)
    requires RunFrom(INITIAL, es).Some?
    ensures Held(es) == HeldIn(RunFrom(INITIAL, es).value)
  {
    if es != [] {
      var front, last := es[..|es| - 1], es[|es| - 1];
      LastPictureIsHeld(front);
      EndedLeavesNothing(front);
      StepKeepsHeld(RunFrom(INITIAL, front).value, last);
    }
  }

  lemma {:induction false} DeliveredGrows(es: seq<Event>, more: seq<Event>)
    requires RunFrom(INITIAL, es + more).Some?
    ensures RunFrom(INITIAL, es).Some?
    ensures RunFrom(INITIAL, es).value.delivered <= RunFrom(INITIAL, es + more).value.delivered
  {
    if more == [] {
      assert es + more == es;
    } else {
      var front := more[..|more| - 1];
      assert (es + more)[..|es + more| - 1] == es + front;
      DeliveredGrows(es, front);
      StepDelivers(RunFrom(INITIAL, es + front).value, more[|more| - 1]);
    }
  }

  lemma StepDelivers(s: State, e: Event)
    requires Step(s, e).Some?
    ensures s.delivered <= Step(s, e).value.delivered
  {
  }

  /** A picture handed over stays valid, over every run from there, exactly until the next one is handed over or the
      worker ends, whichever is first. */
  lemma PictureIsValidExactly(es: seq<Event>, more: seq<Event>)
    requires RunFrom(INITIAL, es + more).Some?
    ensures RunFrom(INITIAL, es).Some?
    ensures var s := RunFrom(INITIAL, es).value;
      var t := RunFrom(INITIAL, es + more).value;
      s.delivered != [] ==>
        (Held(es + more) == LastPicture(s.delivered) <==> t.delivered == s.delivered && !t.worker.WorkerDone?)
  {
    DeliveredGrows(es, more);
    LastPictureIsHeld(es + more);
    var s, t := RunFrom(INITIAL, es).value, RunFrom(INITIAL, es + more).value;
    if s.delivered != [] && t.delivered != s.delivered {
      DeliveredFramesAreOwn(t);
      assert t.delivered[|s.delivered| - 1] == s.delivered[|s.delivered| - 1];
      assert t.delivered[|s.delivered| - 1].desktop.pts != t.delivered[|t.delivered| - 1].desktop.pts;
    }
  }

  function Ended(s: State): State { s.(discarded := s.discarded + s.frames, frames := [], worker := WorkerDone) }

  lemma EndReaches(s: State)
    requires Reachable(s) && Quiet(s)
    ensures Reachable(Ended(s))
  {
    var step := WorkerStep(Eof);
    ReachStep(s, step);
    ReachStep(s.(worker := Receive), step);
    ReachStep(s.(worker := WantDrop), step);
    ReachStep(s.(worker := Drop, frameLock := Worker), step);
    assert Step(s.(worker := Drop, frameLock := Worker), step) == Some(Ended(s));
  }

  /** A reader with a picture that has asked for no other: the codec comes to its end, the worker ends, and the
      picture is freed. */
  lemma PictureCanBeFreed(a: Packet, b: Packet) returns (es: seq<Event>)
    requires !b.isIDR
    ensures RunFrom(INITIAL, es).Some? && Held(es) == None
    ensures var s := RunFrom(INITIAL, es).value; s.flagRun && s.reader.ReaderIdle? && s.delivered != []
  {
    var s := TwoFed(a, b);
    AnswerReaches(s, 0);
    s := Answered(s, 0);
    ShowReaches(s);
    s := Shown(s);
    EndReaches(s);
    es :| RunFrom(INITIAL, es) == Some(Ended(s));
    LastPictureIsHeld(es);
  }
}
