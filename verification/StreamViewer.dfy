/** The viewer in front of the decoder: cursor shapes arrive on their own and ride on the next frame. */
module StreamViewers {
  import opened Prelude
  import opened DesktopFrames
  import opened PacketQueue
  import opened DecoderThreads
  import opened DecoderFFmpegs
  import opened RendererCursors

  /** Stream packets from the server, in order of arrival. `now` is the client's clock. */
  datatype NetEvent =
    | ShapeArrived(shape: CursorShape)
    | FrameArrived(desktop: Bytes, isIDR: bool, timeCaptured: int, timeEncoded: int,
                   cursorVisible: bool, cursorX: int, cursorY: int, now: int)

  /** The decoder's input for a frame packet, given the pending shape. */
  function Assemble(e: NetEvent, pending: Option<CursorShape>): Packet
    requires e.FrameArrived?
  {
    var pos := if e.cursorVisible then CursorPos(true, e.cursorX, e.cursorY) else CursorPos(false, -1, -1);
    DesktopFrame(e.desktop, Some(pos), pending, e.timeCaptured, e.timeEncoded, e.now, -1, -1, e.isIDR)
  }

  /** The shape waiting after a sequence of arrivals. */
  function PendingShape(es: seq<NetEvent>): Option<CursorShape> {
    if es == [] then None
    else if es[|es| - 1].ShapeArrived? then Some(es[|es| - 1].shape)
    else None
  }

  /** What a sequence of arrivals pushes into the decoder. */
  function PushedBy(es: seq<NetEvent>): seq<Packet> {
    if es == [] then
      []
    else
      var e, before := es[|es| - 1], es[..|es| - 1];
      if e.ShapeArrived? then PushedBy(before) else PushedBy(before) + [Assemble(e, PendingShape(before))]
  }

  /** The newest shape that arrived. */
  function NewestShape(es: seq<NetEvent>): Option<CursorShape> {
    if es == [] then None
    else if es[|es| - 1].ShapeArrived? then Some(es[|es| - 1].shape)
    else NewestShape(es[..|es| - 1])
  }

  class StreamViewerD3D {
    var pendingCursorChange: Option<CursorShape>
    const decoder: DecoderFFmpeg
    ghost var arrived: seq<NetEvent>

    ghost predicate Valid()
      reads this
    {
      pendingCursorChange == PendingShape(arrived)
    }

    constructor (d: DecoderFFmpeg)
      ensures Valid() && decoder == d && arrived == []
    {
      pendingCursorChange, decoder, arrived := None, d, [];
    }

    method ProcessCursorShape(e: NetEvent)
      requires Valid() && e.ShapeArrived?
      modifies this
      ensures Valid() && arrived == old(arrived) + [e] && PushedBy(arrived) == PushedBy(old(arrived))
      ensures pendingCursorChange == Some(e.shape)
    {
      pendingCursorChange := Some(e.shape);
      arrived := arrived + [e];
      assert arrived[..|arrived| - 1] == old(arrived);
    }

    method ProcessDesktopFrame(e: NetEvent)
      requires Valid() && e.FrameArrived?
      modifies this, decoder`flagKeyInPacket, decoder`packetQueue
      ensures Valid() && arrived == old(arrived) + [e] && pendingCursorChange == None
      ensures PushedBy(arrived) == PushedBy(old(arrived)) + [Assemble(e, old(pendingCursorChange))]
      ensures decoder.QueueState() == Push(old(decoder.QueueState()), Assemble(e, old(pendingCursorChange)))
    {
      var x, y := -1, -1;
      if e.cursorVisible {
        x, y := e.cursorX, e.cursorY;
      }
      var now: Packet := DesktopFrame(
        e.desktop, Some(CursorPos(e.cursorVisible, x, y)), None, e.timeCaptured, e.timeEncoded, e.now, -1, -1, e.isIDR);
      var shape := pendingCursorChange;
      pendingCursorChange := None;
      now := now.(cursorShape := shape);
      decoder.PushData(now);
      arrived := arrived + [e];
      assert arrived[..|arrived| - 1] == old(arrived);
    }
  }

  /** The shapes pushed and the one still pending together hold the newest shape that arrived. */
  lemma {:induction false} NoShapeIsMislaid(es: seq<NetEvent>)
    ensures NewestShape(es) == OrElse(PendingShape(es), Last(PushedBy(es), ShapeOf))
  {
    if es != [] {
      var e, before := es[|es| - 1], es[..|es| - 1];
      NoShapeIsMislaid(before);
      if e.FrameArrived? {
        var frame := Assemble(e, PendingShape(before));
        LastOfConcat(PushedBy(before), [frame], ShapeOf);
        LastOfOne(frame);
      }
    }
  }

  /** A frame brings a shape exactly if one arrived since the frame before it, and then the last of those: no shape
      rides twice. */
  lemma ShapesRideOnce(es: seq<NetEvent>, i: nat)
    requires i < |es| && es[i].FrameArrived?
    ensures var pushed := PushedBy(es[..i + 1]);
      && |pushed| == |PushedBy(es[..i])| + 1 && pushed[..|pushed| - 1] == PushedBy(es[..i])
      && pushed[|pushed| - 1].cursorShape ==
           if i > 0 && es[i - 1].ShapeArrived? then Some(es[i - 1].shape) else None
  {
    assert es[..i + 1][..i] == es[..i];
  }

  lemma {:induction false} PushedByPrefix(es: seq<NetEvent>, i: nat)
    requires i <= |es|
    ensures PushedBy(es[..i]) <= PushedBy(es)
  {
    if i == |es| {
      assert es[..i] == es;
    } else {
      PushedByPrefix(es[..|es| - 1], i);
      assert es[..|es| - 1][..i] == es[..i];
    }
  }

  /** End to end: for every interleaving of shape and frame packets, every run of the decoder's threads and a codec
      that keeps its order and has not withheld the newest packet with a shape (any other it may), the cursor on
      screen is the newest shape that had arrived when the frame on screen arrived. `i` counts the arrivals up to
      and including that frame. */
  lemma ScreenCursorIsNewest(s: State, es: seq<NetEvent>, i: nat)
    requires Reachable(s) && s.delivered != [] && OnScreen(s) < |s.sent| <= |s.stream.kept|
    requires Increasing(s.emitted) && ReturnsNewest(s)
    requires s.stream.pushed == PushedBy(es)
    requires 0 < i <= |es| && es[i - 1].FrameArrived?
    requires |PushedBy(es[..i])| == s.stream.kept[OnScreen(s)] + 1
    ensures ShownShape(s.delivered) == NewestShape(es[..i])
  {
    InOrderShowsNewestExactly(s);
    RendererCursorIsCurrent(s);
    PushedByPrefix(es, i);
    NoShapeIsMislaid(es[..i]);
    assert PushedBy(es)[..|PushedBy(es[..i])|] == PushedBy(es[..i]);
  }

  /** The cursor position and the key frame mark, times and bytes of a frame are those in its packet: for every
      interleaving of packets, every run of the decoder's threads and any codec, for each frame the renderer gets. A
      hidden cursor has the position (-1, -1). `i` counts the arrivals up to and including that frame. */
  lemma FrameIsAsArrived(s: State, es: seq<NetEvent>, j: nat, i: nat)
    requires Reachable(s) && j < |s.delivered| && s.stream.pushed == PushedBy(es)
    requires s.delivered[j].desktop.pts < |s.stream.kept|
    requires 0 < i <= |es| && es[i - 1].FrameArrived?
    requires |PushedBy(es[..i])| == s.stream.kept[s.delivered[j].desktop.pts] + 1
    ensures var f, e := s.delivered[j], es[i - 1];
      && f.cursorPos.Some? && f.cursorPos.value.visible == e.cursorVisible
      && f.cursorPos.value.x == (if e.cursorVisible then e.cursorX else -1)
      && f.cursorPos.value.y == (if e.cursorVisible then e.cursorY else -1)
      && f.timeCaptured == e.timeCaptured && f.timeEncoded == e.timeEncoded && f.timeReceived == e.now
      && f.timePresented == -1 && f.isIDR == e.isIDR
      && f.desktop.pts < |s.sent| && s.sent[f.desktop.pts].desktop == e.desktop
  {
    DeliveredIsAsPushed(s, j);
    PushedByPrefix(es, i);
    var before := es[..i];
    assert before[|before| - 1] == es[i - 1];
    assert PushedBy(before) == PushedBy(before[..i - 1]) + [Assemble(es[i - 1], PendingShape(before[..i - 1]))];
    assert PushedBy(es)[|PushedBy(before)| - 1] == PushedBy(before)[|PushedBy(before)| - 1];
  }
}
