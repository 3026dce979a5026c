/** Which cursor shape is on screen when the codec withholds or reorders pictures. A shape rides on the metadata of
    its packet, which stays with the decoder until the codec returns that packet's stamp. */
module RendererCursors {
  import opened Prelude
  import opened DesktopFrames
  import opened PacketQueue
  import opened MetadataMatch
  import opened DecoderThreads

  // ---------- the shape shown and the newest shape ----------

  /** Position of the last shape in a list. */
  function LastBearing(shapes: seq<Option<CursorShape>>): (r: Option<nat>)
    ensures r.None? ==> forall i :: 0 <= i < |shapes| ==> shapes[i].None?
    ensures r.Some? ==> r.value < |shapes| && shapes[r.value].Some?
    ensures r.Some? ==> forall i :: r.value < i < |shapes| ==> shapes[i].None?
  {
    if shapes == [] then None
    else if shapes[|shapes| - 1].Some? then Some(|shapes| - 1)
    else LastBearing(shapes[..|shapes| - 1])
  }

  function Shapes<T>(fs: seq<DesktopFrame<T>>): seq<Option<CursorShape>> {
    seq(|fs|, i requires 0 <= i < |fs| => fs[i].cursorShape)
  }

  /** The cursor shape the renderer holds: each frame that brings one replaces it. */
  function ShownShape(fs: seq<Frame>): Option<CursorShape> {
    if fs == [] then None
    else OrElse(fs[|fs| - 1].cursorShape, ShownShape(fs[..|fs| - 1]))
  }

  /** The stamp of the frame on screen. */
  function OnScreen(s: State): nat
    requires s.delivered != []
  {
    s.delivered[|s.delivered| - 1].desktop.pts
  }

  /** The stamp of the frame that brought the shape on screen. */
  function ShownBearer(s: State): Option<nat> {
    match LastBearing(Shapes(s.delivered))
    case None => None
    case Some(i) => Some(s.delivered[i].desktop.pts)
  }

  /** The stamp of the newest packet with a shape, up to the frame on screen. */
  function NewestBearer(s: State): Option<nat>
    requires s.delivered != [] && OnScreen(s) < |s.sent|
  {
    LastBearing(Shapes(s.sent[..OnScreen(s) + 1]))
  }

  lemma {:induction false} ShownShapeIs(fs: seq<Frame>)
    ensures ShownShape(fs) ==
      match LastBearing(Shapes(fs)) case None => None case Some(i) => fs[i].cursorShape
  {
    if fs != [] {
      var front := fs[..|fs| - 1];
      assert Shapes(fs)[..|fs| - 1] == Shapes(front);
      ShownShapeIs(front);
    }
  }

  lemma {:induction false} LastShapeIs(ps: seq<Packet>)
    ensures Last(ps, ShapeOf) ==
      match LastBearing(Shapes(ps)) case None => None case Some(i) => ps[i].cursorShape
  {
    if ps != [] {
      var front := ps[..|ps| - 1];
      assert Shapes(ps)[..|ps| - 1] == Shapes(front);
      LastShapeIs(front);
    }
  }

  // ---------- when they agree ----------

  /** The shapes that frames with these stamps bring. */
  ghost predicate Bring(stamps: seq<nat>, shapes: seq<Option<CursorShape>>, brought: seq<Option<CursorShape>>) {
    && |brought| == |stamps|
    && forall i :: 0 <= i < |stamps| ==> stamps[i] < |shapes| && brought[i] == shapes[stamps[i]]
  }

  ghost predicate BringNone(stamps: seq<nat>, shapes: seq<Option<CursorShape>>, from: nat) {
    forall j :: from <= j < |stamps| && stamps[j] < |shapes| ==> shapes[stamps[j]].None?
  }

  /** Packet k was returned, and nothing with a shape after it. */
  ghost predicate ReturnedLast(stamps: seq<nat>, shapes: seq<Option<CursorShape>>, k: nat) {
    exists i :: 0 <= i < |stamps| && stamps[i] == k && BringNone(stamps, shapes, i + 1)
  }

  function StampAt(stamps: seq<nat>, i: Option<nat>): Option<nat>
    requires i.Some? ==> i.value < |stamps|
  {
    match i case None => None case Some(k) => Some(stamps[k])
  }

  lemma ShownExactly(
    stamps: seq<nat>, shapes: seq<Option<CursorShape>>, brought: seq<Option<CursorShape>>, newest: Option<nat>)
    requires Bring(stamps, shapes, brought)
    requires newest.Some? ==> newest.value < |shapes| && shapes[newest.value].Some?
    ensures StampAt(stamps, LastBearing(brought)) == newest <==>
      match newest case None => BringNone(stamps, shapes, 0) case Some(k) => ReturnedLast(stamps, shapes, k)
  {
    var shown := LastBearing(brought);
    if newest.Some? {
      if ReturnedLast(stamps, shapes, newest.value) {
        var i: nat :| i < |stamps| && stamps[i] == newest.value && BringNone(stamps, shapes, i + 1);
        assert brought[i].Some?;
        assert shown == Some(i);
      }
      if StampAt(stamps, shown) == newest {
        assert BringNone(stamps, shapes, shown.value + 1);
      }
    }
  }

  ghost predicate Increasing(ks: seq<nat>) {
    forall i, j :: 0 <= i < j < |ks| ==> ks[i] < ks[j]
  }

  /** Returned in order, no packet up to the last one brings a shape after the newest. */
  lemma LaterBringNone(stamps: seq<nat>, shapes: seq<Option<CursorShape>>, from: nat)
    requires Increasing(stamps) && from <= |stamps| && 0 < |stamps| && stamps[|stamps| - 1] < |shapes|
    requires var newest := LastBearing(shapes[..stamps[|stamps| - 1] + 1]);
      newest.Some? ==> 0 < from && stamps[from - 1] == newest.value
    ensures BringNone(stamps, shapes, from)
  {
    var last := stamps[|stamps| - 1];
    forall j | from <= j < |stamps|
      ensures shapes[stamps[j]].None?
    {
      assert stamps[j] <= last;
      assert shapes[..last + 1][stamps[j]] == shapes[stamps[j]];
    }
  }

  /** What a reachable state says of its delivered frames. */
  lemma DeliveredBring(s: State)
    requires Reachable(s)
    ensures Bring(Stamps(s.delivered), Shapes(s.sent), Shapes(s.delivered)) && Stamps(s.delivered) <= s.emitted
  {
    DeliveredFramesAreOwn(s);
    forall i | 0 <= i < |s.delivered|
      ensures s.delivered[i].desktop.pts < |s.sent|
      ensures Shapes(s.delivered)[i] == Shapes(s.sent)[s.delivered[i].desktop.pts]
    {
      assert OwnMetadata(s.delivered[i], s.sent);
    }
  }

  lemma NewestIs(s: State)
    requires s.delivered != [] && OnScreen(s) < |s.sent|
    ensures NewestBearer(s) == LastBearing(Shapes(s.sent)[..OnScreen(s) + 1])
  {
    assert Shapes(s.sent[..OnScreen(s) + 1]) == Shapes(s.sent)[..OnScreen(s) + 1];
  }

  /** In whatever order the codec answers: the shape on screen comes from the newest packet with a shape, up to the
      frame on screen, if and only if the codec returned that packet and nothing with a shape after it. */
  lemma ShownIsNewestExactly(s: State)
    requires Reachable(s) && s.delivered != []
    ensures OnScreen(s) < |s.sent| && Stamps(s.delivered) <= s.emitted
    ensures ShownBearer(s) == NewestBearer(s) <==>
      match NewestBearer(s)
      case None => BringNone(Stamps(s.delivered), Shapes(s.sent), 0)
      case Some(k) => ReturnedLast(Stamps(s.delivered), Shapes(s.sent), k)
  {
    OnScreenWasSent(s);
    DeliveredBring(s);
    NewestIs(s);
    ShownExactly(Stamps(s.delivered), Shapes(s.sent), Shapes(s.delivered), NewestBearer(s));
  }

  /** The codec has not withheld the newest packet with a shape up to the frame on screen. It may have withheld any
      other. */
  ghost predicate ReturnsNewest(s: State)
    requires s.delivered != [] && OnScreen(s) < |s.sent|
  {
    NewestBearer(s).Some? ==> NewestBearer(s).value in s.emitted
  }

  /** With a codec that keeps its order, with or without gaps: the shape on screen comes from the newest packet with
      a shape, up to the frame on screen, if and only if the codec has not withheld that packet. */
  lemma InOrderShowsNewestExactly(s: State)
    requires Reachable(s) && s.delivered != [] && Increasing(s.emitted)
    ensures OnScreen(s) < |s.sent|
    ensures ShownBearer(s) == NewestBearer(s) <==> ReturnsNewest(s)
  {
    ShownIsNewestExactly(s);
    NewestIs(s);
    var stamps := Stamps(s.delivered);
    assert stamps[|stamps| - 1] == OnScreen(s);
    InOrderReturnsLast(stamps, s.emitted, Shapes(s.sent));
  }

  lemma InOrderReturnsLast(stamps: seq<nat>, emitted: seq<nat>, shapes: seq<Option<CursorShape>>)
    requires Increasing(emitted) && stamps <= emitted && 0 < |stamps| && stamps[|stamps| - 1] < |shapes|
    ensures match LastBearing(shapes[..stamps[|stamps| - 1] + 1])
      case None => BringNone(stamps, shapes, 0)
      case Some(k) => ReturnedLast(stamps, shapes, k) <==> k in emitted
  {
    match LastBearing(shapes[..stamps[|stamps| - 1] + 1])
    case None => LaterBringNone(stamps, shapes, 0);
    case Some(k) =>
      if k in emitted {
        var i: nat :| i < |emitted| && emitted[i] == k;
        assert i < |stamps| && stamps[i] == k;
        LaterBringNone(stamps, shapes, i + 1);
      }
  }

  /** When the shape on screen comes from the newest packet with one, it is the newest shape in the stream up to the
      frame on screen: skipping frames under load never shows an outdated cursor. */
  lemma RendererCursorIsCurrent(s: State)
    requires Reachable(s) && s.delivered != []
    ensures OnScreen(s) < |s.sent| <= |s.stream.kept| && s.stream.kept[OnScreen(s)] < |s.stream.pushed|
    ensures ShownBearer(s) == NewestBearer(s) ==>
      ShownShape(s.delivered) == Last(s.stream.pushed[..s.stream.kept[OnScreen(s)] + 1], ShapeOf)
  {
    OnScreenWasSent(s);
    SentShowsCursor(s, OnScreen(s) + 1);
    if ShownBearer(s) == NewestBearer(s) {
      SameBearerSameShape(s);
    }
  }

  /** The cursor position the renderer draws at: that of the frame on screen, none if it has none. */
  function ShownPosition(fs: seq<Frame>): Option<CursorPos> {
    if fs == [] then None else fs[|fs| - 1].cursorPos
  }

  /** Whatever the codec's order and whatever was skipped: if the frame on screen was pushed with a cursor position,
      that is the position on screen, and no other in the stream up to there is newer. */
  lemma ShownPositionIsTheFrames(s: State)
    requires Reachable(s) && s.delivered != []
    ensures OnScreen(s) < |s.stream.kept| && s.stream.kept[OnScreen(s)] < |s.stream.pushed|
    ensures var k := s.stream.kept[OnScreen(s)];
      s.stream.pushed[k].cursorPos.Some? ==>
        && ShownPosition(s.delivered) == s.stream.pushed[k].cursorPos
        && ShownPosition(s.delivered) == Last(s.stream.pushed[..k + 1], PosOf)
  {
    DeliveredIsAsPushed(s, |s.delivered| - 1);
  }

  lemma OnScreenWasSent(s: State)
    requires Reachable(s) && s.delivered != []
    ensures OnScreen(s) < |s.sent| <= |s.stream.kept|
  {
    DeliveredFramesAreOwn(s);
    assert OwnMetadata(s.delivered[|s.delivered| - 1], s.sent);
  }

  lemma SameBearerSameShape(s: State)
    requires Reachable(s) && s.delivered != [] && OnScreen(s) < |s.sent|
    requires ShownBearer(s) == NewestBearer(s)
    ensures ShownShape(s.delivered) == Last(s.sent[..OnScreen(s) + 1], ShapeOf)
  {
    DeliveredBring(s);
    ShownShapeIs(s.delivered);
    LastShapeIs(s.sent[..OnScreen(s) + 1]);
    var i := LastBearing(Shapes(s.delivered));
    if i.Some? {
      assert Shapes(s.delivered)[i.value] == Shapes(s.sent)[Stamps(s.delivered)[i.value]];
    }
  }

  // ---------- runs that show an outdated cursor ----------

  /** Nothing is going on. */
  predicate Quiet(s: State) {
    && s.flagRun && s.packetLock.Nobody? && s.frameLock.Nobody?
    && s.worker.Top? && s.reader.ReaderIdle? && s.pusher.PusherIdle?
  }

  function Pushed(s: State, frame: Packet): State
    requires |s.stream.queue.packets| <= |s.stream.kept|
  {
    s.(stream := StreamPush(s.stream, frame))
  }

  function Fed(s: State): State
    requires s.stream.queue.packets != []
  {
    var packet := s.stream.queue.packets[0];
    s.(stream := StreamPop(s.stream), sent := s.sent + [packet],
       saved := s.saved + [packet.GetOtherType(FramePts(|s.sent|))])
  }

  function Answered(s: State, pts: nat): State
    requires TakeFirst(s.saved, pts).Found?
  {
    var m := TakeFirst(s.saved, pts);
    s.(saved := m.rest, emitted := s.emitted + [pts],
       frames := s.frames + [m.entry.GetOtherType(Picture(pts)).(timeDecoded := 0)])
  }

  function Shown(s: State): State
    requires s.frames != []
  {
    s.(delivered := s.delivered + [s.frames[0]], frames := s.frames[1..])
  }

  lemma PushReaches(s: State, frame: Packet)
    requires Reachable(s) && Quiet(s) && |s.stream.queue.packets| <= |s.stream.kept|
    ensures Reachable(Pushed(s, frame)) && Quiet(Pushed(s, frame))
  {
    var s1 := s.(pusher := PusherWant(frame));
    var s2 := s.(pusher := PusherHold(frame), packetLock := Pusher);
    ReachStep(s, PusherCall(frame));
    ReachStep(s1, PusherStep);
    ReachStep(s2, PusherStep);
    assert Step(s2, PusherStep) == Some(Pushed(s, frame));
  }

  lemma TakeReaches(s: State)
    requires Reachable(s) && Quiet(s) && s.stream.queue.packets != []
    ensures Reachable(s.(worker := PacketTake, packetLock := Worker))
  {
    var step := WorkerStep(Again);
    ReachStep(s, step);
    ReachStep(s.(worker := Receive), step);
    ReachStep(s.(worker := WantPacket), step);
    ReachStep(s.(worker := PacketCheck, packetLock := Worker), step);
    ReachStep(s.(worker := PacketFlag, packetLock := Worker), step);
  }

  lemma FeedReaches(s: State)
    requires Reachable(s) && Quiet(s) && s.stream.queue.packets != []
    ensures Reachable(Fed(s)) && Quiet(Fed(s))
  {
    var step := WorkerStep(Again);
    TakeReaches(s);
    ReachStep(s.(worker := PacketTake, packetLock := Worker), step);
    var given := s.(worker := Send(s.stream.queue.packets[0]), stream := StreamPop(s.stream));
    ReachStep(given, step);
    assert Step(given, step) == Some(Fed(s));
  }

  lemma AnswerReaches(s: State, pts: nat)
    requires Reachable(s) && Quiet(s) && Owes(s, pts) && TakeFirst(s.saved, pts).Found? && |s.frames| < FRAME_CAPACITY
    ensures Reachable(Answered(s, pts)) && Quiet(Answered(s, pts))
  {
    var step := WorkerStep(Emit(pts, 0));
    var m := TakeFirst(s.saved, pts);
    var out := m.entry.GetOtherType(Picture(pts)).(timeDecoded := 0);
    var told := s.(saved := m.rest, emitted := s.emitted + [pts]);
    ReachStep(s, step);
    ReachStep(s.(worker := Receive), step);
    ReachStep(told.(worker := WantFrame(out)), step);
    ReachStep(told.(worker := FrameCheck(out), frameLock := Worker), step);
    ReachStep(told.(worker := FrameFlag(out), frameLock := Worker), step);
    var s5 := told.(worker := FrameAdd(out), frameLock := Worker);
    ReachStep(s5, step);
    assert Step(s5, step) == Some(Answered(s, pts));
  }

  lemma ShowReaches(s: State)
    requires Reachable(s) && Quiet(s) && s.frames != []
    ensures Reachable(s.(reader := ReaderTake, frameLock := Reader))
    ensures Reachable(Shown(s)) && Quiet(Shown(s))
  {
    ReachStep(s, ReaderCall);
    ReachStep(s.(reader := ReaderWant), ReaderStep);
    ReachStep(s.(reader := ReaderCheck, frameLock := Reader), ReaderStep);
    ReachStep(s.(reader := ReaderFlag, frameLock := Reader), ReaderStep);
    var s4 := s.(reader := ReaderTake, frameLock := Reader);
    ReachStep(s4, ReaderStep);
    assert Step(s4, ReaderStep) == Some(Shown(s));
  }

  /** Two packets given to the codec, which has answered neither. */
  lemma TwoFed(a: Packet, b: Packet) returns (s: State)
    requires !b.isIDR
    ensures Reachable(s) && Quiet(s) && s.stopper.StopperIdle?
    ensures s.sent == s.stream.pushed == [a, b] && s.stream.kept == [0, 1] && s.stream.queue.packets == []
    ensures s.saved == [a.GetOtherType(FramePts(0)), b.GetOtherType(FramePts(1))]
    ensures s.emitted == [] && s.frames == [] && s.delivered == []
  {
    assert RunFrom(INITIAL, []) == Some(INITIAL);
    PushReaches(INITIAL, a);
    var s1 := Pushed(INITIAL, a);
    PushReaches(s1, b);
    var s2 := Pushed(s1, b);
    assert s2.stream.queue.packets == [a, b];
    FeedReaches(s2);
    FeedReaches(Fed(s2));
    s := Fed(Fed(s2));
  }

  /** A codec in order that owes the packet with the shape and returns only the next one: the new shape is not on
      screen, although the stream had it before the frame on screen. */
  lemma WithheldShapeIsMissed(a: Packet, b: Packet) returns (s: State)
    requires a.cursorShape.Some? && b.cursorShape.None? && !b.isIDR
    ensures Reachable(s) && s.delivered != [] && Increasing(s.emitted)
    ensures OnScreen(s) == 1 && s.stream.kept == [0, 1] && s.stream.pushed == [a, b]
    ensures ShownShape(s.delivered) == None && Last(s.stream.pushed[..s.stream.kept[1] + 1], ShapeOf) == a.cursorShape
  {
    s := TwoFed(a, b);
    AnswerReaches(s, 1);
    s := Answered(s, 1);
    ShowReaches(s);
    s := Shown(s);
    LastOfTwo(a, b);
    assert s.stream.pushed[..2] == [a, b];
  }

  lemma LastOfTwo(a: Packet, b: Packet)
    ensures Last([a, b], ShapeOf) == OrElse(b.cursorShape, a.cursorShape)
  {
    assert [a, b] == [a] + [b];
    LastOfConcat([a], [b], ShapeOf);
    LastOfOne(a);
    LastOfOne(b);
  }

  /** A reader between its check of the flag and its taking the frame when `stop` is called: the frame is delivered
      with the flag down. */
  lemma StopCanBeOvertaken(a: Packet, b: Packet) returns (s: State)
    requires !b.isIDR
    ensures Reachable(s) && s.stopper.StopperIdle? && s.delivered == []
    ensures var t := Step(s, StopCall).value;
      !t.flagRun && Step(t, ReaderStep).Some? && Step(t, ReaderStep).value.delivered != []
  {
    s := TwoFed(a, b);
    AnswerReaches(s, 0);
    s := Answered(s, 0);
    ShowReaches(s);
    s := s.(reader := ReaderTake, frameLock := Reader);
  }
}
