/** The decoder as its threads see it: one pusher, one worker, one reader and one caller of `stop`,
    interleaved at every lock operation, flag read and wait.

    A run is any sequence of events. The codec may refuse a picture, end, or return any stamp it owes;
    condition variables may wake spuriously; `stop` takes its two locks one at a time in either order and
    backs off when the second is taken. */
module DecoderThreads {
  import opened Prelude
  import opened DesktopFrames
  import opened PacketQueue
  import opened MetadataMatch

  const FRAME_CAPACITY: nat := 4

  /** A decoded picture; its stamp is all the model needs to know of it. */
  datatype Picture = Picture(pts: nat)
  type Frame = DesktopFrame<Picture>

  datatype Owner = Nobody | Worker | Reader | Pusher | Stopper

  datatype WorkerPc =
    | Top
    | Receive
    | WantFrame(out: Frame)
    | FrameCheck(out: Frame)
    | FrameSleep(out: Frame)
    | FrameWait(out: Frame, signalled: bool)
    | FrameFlag(out: Frame)
    | FrameAdd(out: Frame)
    | WantPacket
    | PacketCheck
    | PacketSleep
    | PacketWait(signalled: bool)
    | PacketFlag
    | PacketTake
    | Send(packet: Packet)
    | WantDrop
    | Drop
    | WorkerDone
    | WorkerAborted

  datatype ReaderPc =
    | ReaderIdle
    | ReaderWant
    | ReaderCheck
    | ReaderSleep
    | ReaderWait(signalled: bool)
    | ReaderFlag
    | ReaderTake
    | ReaderAborted

  datatype PusherPc = PusherIdle | PusherWant(frame: Packet) | PusherHold(frame: Packet)

  datatype StopperPc = StopperIdle | StopperWant | HoldPacket | HoldFrame | HoldBoth | Returned

  datatype State = State(
    flagRun: bool,
    packetLock: Owner,
    frameLock: Owner,
    worker: WorkerPc,
    reader: ReaderPc,
    pusher: PusherPc,
    stopper: StopperPc,
    // the packet queue with its history
    stream: Stream,
    // packets given to the codec, the order in which it returned their stamps, and saved metadata
    sent: seq<Packet>,
    emitted: seq<nat>,
    saved: seq<Entry>,
    // decoded frames: waiting, handed to the renderer, and thrown away while stopping
    frames: seq<Frame>,
    delivered: seq<Frame>,
    discarded: seq<Frame>)

  const INITIAL := State(
    true, Nobody, Nobody, Top, ReaderIdle, PusherIdle, StopperIdle,
    START, [], [], [], [], [], [])

  datatype CodecReply = Eof | Again | Emit(pts: nat, timeDecoded: int)

  datatype Event =
    | WorkerStep(reply: CodecReply)
    | ReaderCall
    | ReaderStep
    | PusherCall(frame: Packet)
    | PusherStep
    | StopCall
    | StopperStep(packetFirst: bool)
    | SpuriousWorker
    | SpuriousReader

  // ---------- steps ----------

  function WakeReader(r: ReaderPc): ReaderPc {
    if r.ReaderWait? then ReaderWait(true) else r
  }

  function WakeWorkerOnFrame(w: WorkerPc): WorkerPc {
    if w.FrameWait? then FrameWait(w.out, true) else w
  }

  function WakeWorkerOnPacket(w: WorkerPc): WorkerPc {
    if w.PacketWait? then PacketWait(true) else w
  }

  /** The codec owes a stamp it was sent and has not returned. */
  predicate Owes(s: State, pts: nat) {
    pts < |s.sent| && pts !in s.emitted
  }

  function WorkerNext(s: State, reply: CodecReply): Option<State> {
    match s.worker
    case Top => Some(s.(worker := if s.flagRun then Receive else WantDrop))
    case Receive => ReceiveNext(s, reply)
    case WantFrame(out) =>
      if s.frameLock.Nobody? then Some(s.(frameLock := Worker, worker := FrameCheck(out))) else None
    case FrameCheck(out) =>
      var full := |s.frames| >= FRAME_CAPACITY;
      Some(s.(worker := if full && s.flagRun then FrameSleep(out) else FrameFlag(out)))
    case FrameSleep(out) => Some(s.(frameLock := Nobody, worker := FrameWait(out, false)))
    case FrameWait(out, signalled) =>
      if signalled && s.frameLock.Nobody? then Some(s.(frameLock := Worker, worker := FrameCheck(out))) else None
    case FrameFlag(out) =>
      if !s.flagRun then
        Some(s.(frameLock := Nobody, worker := Top, discarded := s.discarded + [out]))
      else
        Some(s.(worker := FrameAdd(out)))
    case FrameAdd(out) =>
      if |s.frames| >= FRAME_CAPACITY then
        Some(s.(worker := WorkerAborted))  // push_back on a full deque
      else
        Some(s.(frames := s.frames + [out], reader := WakeReader(s.reader), frameLock := Nobody, worker := Top))
    case WantPacket =>
      if s.packetLock.Nobody? then Some(s.(packetLock := Worker, worker := PacketCheck)) else None
    case PacketCheck =>
      var empty := s.stream.queue.packets == [];
      Some(s.(worker := if empty && s.flagRun then PacketSleep else PacketFlag))
    case PacketSleep => Some(s.(packetLock := Nobody, worker := PacketWait(false)))
    case PacketWait(signalled) =>
      if signalled && s.packetLock.Nobody? then Some(s.(packetLock := Worker, worker := PacketCheck)) else None
    case PacketFlag =>
      if !s.flagRun then
        Some(s.(packetLock := Nobody, worker := Top))
      else
        Some(s.(worker := PacketTake))
    case PacketTake =>
      if s.stream.queue.packets == [] then
        Some(s.(worker := WorkerAborted))  // front() of an empty queue
      else
        Some(s.(stream := StreamPop(s.stream), packetLock := Nobody, worker := Send(s.stream.queue.packets[0])))
    case Send(packet) =>
      Some(s.(saved := s.saved + [packet.GetOtherType(FramePts(|s.sent|))], sent := s.sent + [packet], worker := Top))
    case WantDrop =>
      if s.frameLock.Nobody? then Some(s.(frameLock := Worker, worker := Drop)) else None
    case Drop =>
      Some(s.(discarded := s.discarded + s.frames, frames := [], frameLock := Nobody, worker := WorkerDone))
    case WorkerDone => None
    case WorkerAborted => None
  }

  function ReceiveNext(s: State, reply: CodecReply): Option<State> {
    match reply
    case Eof => Some(s.(worker := WantDrop))
    case Again => Some(s.(worker := WantPacket))
    case Emit(pts, timeDecoded) =>
      if !Owes(s, pts) then
        None
      else
        match TakeFirst(s.saved, pts)
        case Missing => Some(s.(worker := WorkerAborted))  // "Failed to find matching extra data"
        case Found(entry, rest) =>
          var out := entry.GetOtherType(Picture(pts)).(timeDecoded := timeDecoded);
          Some(s.(saved := rest, emitted := s.emitted + [pts], worker := WantFrame(out)))
  }

  function ReaderNext(s: State): Option<State> {
    match s.reader
    case ReaderIdle => None
    case ReaderWant =>
      if s.frameLock.Nobody? then Some(s.(frameLock := Reader, reader := ReaderCheck)) else None
    case ReaderCheck =>
      Some(s.(reader := if s.frames == [] && s.flagRun then ReaderSleep else ReaderFlag))
    case ReaderSleep => Some(s.(frameLock := Nobody, reader := ReaderWait(false)))
    case ReaderWait(signalled) =>
      if signalled && s.frameLock.Nobody? then Some(s.(frameLock := Reader, reader := ReaderCheck)) else None
    case ReaderFlag =>
      if !s.flagRun then
        Some(s.(frameLock := Nobody, reader := ReaderIdle))  // returns false
      else
        Some(s.(reader := ReaderTake))
    case ReaderTake =>
      if s.frames == [] then
        Some(s.(reader := ReaderAborted))  // front() of an empty deque
      else
        Some(s.(delivered := s.delivered + [s.frames[0]], frames := s.frames[1..],
                worker := WakeWorkerOnFrame(s.worker), frameLock := Nobody, reader := ReaderIdle))
    case ReaderAborted => None
  }

  function PusherNext(s: State): Option<State> {
    match s.pusher
    case PusherIdle => None
    case PusherWant(frame) =>
      if s.packetLock.Nobody? then Some(s.(packetLock := Pusher, pusher := PusherHold(frame))) else None
    case PusherHold(frame) =>
      if |s.stream.queue.packets| <= |s.stream.kept| then
        Some(s.(stream := StreamPush(s.stream, frame), worker := WakeWorkerOnPacket(s.worker),
                packetLock := Nobody, pusher := PusherIdle))
      else
        None
  }

  function StopperNext(s: State, packetFirst: bool): Option<State> {
    match s.stopper
    case StopperIdle => None
    case StopperWant =>
      if packetFirst && s.packetLock.Nobody? then Some(s.(packetLock := Stopper, stopper := HoldPacket))
      else if !packetFirst && s.frameLock.Nobody? then Some(s.(frameLock := Stopper, stopper := HoldFrame))
      else None
    case HoldPacket =>
      if s.frameLock.Nobody? then Some(s.(frameLock := Stopper, stopper := HoldBoth))
      else Some(s.(packetLock := Nobody, stopper := StopperWant))
    case HoldFrame =>
      if s.packetLock.Nobody? then Some(s.(packetLock := Stopper, stopper := HoldBoth))
      else Some(s.(frameLock := Nobody, stopper := StopperWant))
    case HoldBoth =>
      Some(s.(worker := WakeWorkerOnFrame(WakeWorkerOnPacket(s.worker)), reader := WakeReader(s.reader),
              packetLock := Nobody, frameLock := Nobody, stopper := Returned))
    case Returned => None
  }

  function Step(s: State, e: Event): Option<State> {
    match e
    case WorkerStep(reply) => WorkerNext(s, reply)
    case ReaderCall => if s.reader.ReaderIdle? then Some(s.(reader := ReaderWant)) else None
    case ReaderStep => ReaderNext(s)
    case PusherCall(frame) => if s.pusher.PusherIdle? then Some(s.(pusher := PusherWant(frame))) else None
    case PusherStep => PusherNext(s)
    case StopCall =>
      if s.stopper.StopperIdle? then Some(s.(flagRun := false, stopper := StopperWant)) else None
    case StopperStep(packetFirst) => StopperNext(s, packetFirst)
    case SpuriousWorker =>
      if s.worker == PacketWait(false) then Some(s.(worker := PacketWait(true)))
      else if s.worker.FrameWait? && !s.worker.signalled then Some(s.(worker := FrameWait(s.worker.out, true)))
      else None
    case SpuriousReader =>
      if s.reader == ReaderWait(false) then Some(s.(reader := ReaderWait(true))) else None
  }

  function RunFrom(s: State, es: seq<Event>): Option<State> {
    if es == [] then Some(s)
    else
      match RunFrom(s, es[..|es| - 1])
      case None => None
      case Some(t) => Step(t, es[|es| - 1])
  }

  ghost predicate Reachable(s: State) {
    exists es: seq<Event> :: RunFrom(INITIAL, es) == Some(s)
  }

  // ---------- the locking protocol ----------

  /** Program counters inside a critical section. */
  predicate InPackets(w: WorkerPc) { w.PacketCheck? || w.PacketSleep? || w.PacketFlag? || w.PacketTake? }

  predicate InFrames(w: WorkerPc) { w.FrameCheck? || w.FrameSleep? || w.FrameFlag? || w.FrameAdd? || w.Drop? }

  predicate ReaderIn(r: ReaderPc) { r.ReaderCheck? || r.ReaderSleep? || r.ReaderFlag? || r.ReaderTake? }

  /** Each lock is held by exactly the thread whose program counter lies inside its critical section. */
  ghost predicate LocksMatch(s: State) {
    && (s.packetLock.Worker? <==> InPackets(s.worker))
    && (s.packetLock.Pusher? <==> s.pusher.PusherHold?)
    && (s.packetLock.Stopper? <==> s.stopper.HoldPacket? || s.stopper.HoldBoth?)
    && !s.packetLock.Reader?
    && (s.frameLock.Worker? <==> InFrames(s.worker))
    && (s.frameLock.Reader? <==> ReaderIn(s.reader))
    && (s.frameLock.Stopper? <==> s.stopper.HoldFrame? || s.stopper.HoldBoth?)
    && !s.frameLock.Pusher?
  }

  predicate Full(s: State) { |s.frames| >= FRAME_CAPACITY }

  predicate NoFrames(s: State) { s.frames == [] }

  predicate NoPackets(s: State) { s.stream.queue.packets == [] }

  predicate Notified(s: State) { s.stopper.Returned? }

  /** What a thread that is about to wait, or waits unsignalled, is entitled to. */
  ghost predicate WaitersJustified(s: State) {
    && (s.worker.FrameSleep? ==> Full(s) && !Notified(s))
    && (s.worker.PacketSleep? ==> NoPackets(s) && !Notified(s))
    && (s.reader.ReaderSleep? ==> NoFrames(s) && !Notified(s))
    && (s.worker.FrameWait? && !s.worker.signalled ==> Full(s) && !Notified(s))
    && (s.worker == PacketWait(false) ==> NoPackets(s) && !Notified(s))
    && (s.reader == ReaderWait(false) ==> NoFrames(s) && !Notified(s))
  }

  ghost predicate ExitsJustified(s: State) {
    && (s.worker.FrameFlag? && Full(s) ==> !s.flagRun)
    && (s.worker.PacketFlag? && NoPackets(s) ==> !s.flagRun)
    && (s.reader.ReaderFlag? && NoFrames(s) ==> !s.flagRun)
    && !s.worker.WorkerAborted? && !s.reader.ReaderAborted?
  }

  /** Past the flag check the queue still allows what follows, and `stop` cannot have taken the lock since. */
  ghost predicate ActsJustified(s: State) {
    && (s.worker.FrameAdd? ==> !Full(s) && !Notified(s))
    && (s.worker.PacketTake? ==> !NoPackets(s) && !Notified(s))
    && (s.reader.ReaderTake? ==> !NoFrames(s) && !Notified(s) && s.discarded == [])
  }

  ghost predicate ProtocolInv(s: State) {
    && LocksMatch(s)
    && WaitersJustified(s)
    && ExitsJustified(s)
    && ActsJustified(s)
    && |s.frames| <= FRAME_CAPACITY
    && (s.flagRun <==> s.stopper.StopperIdle?)
    && LossOnlyAtEnd(s)
  }

  /** Frames are thrown away only once `stop` was called or the codec has ended the worker's loop. */
  ghost predicate LossOnlyAtEnd(s: State) {
    s.discarded != [] ==> !s.flagRun || (s.worker.WorkerDone? && s.frames == [])
  }

  // ---------- the data ----------

  function Stamps(fs: seq<Frame>): seq<nat> {
    seq(|fs|, i requires 0 <= i < |fs| => fs[i].desktop.pts)
  }

  function InHand(w: WorkerPc): seq<Frame> {
    match w
    case WantFrame(out) => [out]
    case FrameCheck(out) => [out]
    case FrameSleep(out) => [out]
    case FrameWait(out, _) => [out]
    case FrameFlag(out) => [out]
    case FrameAdd(out) => [out]
    case _ => []
  }

  /** Where every packet and every decoded frame is. */
  datatype Books = Books(
    taken: seq<Packet>, sending: seq<Packet>, sent: seq<Packet>,
    emitted: seq<nat>, saved: seq<Entry>,
    hand: seq<Frame>, frames: seq<Frame>, delivered: seq<Frame>, discarded: seq<Frame>)
  {
    /** Every frame the codec ever returned. */
    function AllFrames(): seq<Frame> {
      discarded + delivered + frames + hand
    }
  }

  function BooksOf(s: State): Books {
    Books(s.stream.taken, if s.worker.Send? then [s.worker.packet] else [], s.sent,
          s.emitted, s.saved, InHand(s.worker), s.frames, s.delivered, s.discarded)
  }

  /** A decoded frame carries exactly the metadata of the packet whose stamp it bears. */
  ghost predicate OwnMetadata(f: Frame, sent: seq<Packet>) {
    && f.desktop.pts < |sent|
    && var p := sent[f.desktop.pts];
       && f.cursorPos == p.cursorPos && f.cursorShape == p.cursorShape
       && f.timeCaptured == p.timeCaptured && f.timeEncoded == p.timeEncoded && f.timeReceived == p.timeReceived
       && f.timePresented == p.timePresented && f.isIDR == p.isIDR
  }

  ghost predicate BooksBalance(b: Books) {
    // every packet taken went to the codec, in order; its metadata is saved until its stamp returns
    && b.taken == b.sent + b.sending
    && |b.sending| <= 1 && |b.hand| <= 1
    && (forall k :: k in b.emitted ==> k < |b.sent|)
    && b.saved == Pending(b.sent, |b.sent|, ToSet(b.emitted), FramePts)
    // every stamp returned is borne by exactly one frame, which carries its own metadata
    && (forall k :: multiset(b.emitted)[k] <= 1)
    && multiset(Stamps(b.AllFrames())) == multiset(b.emitted)
    && (forall f :: f in b.AllFrames() ==> OwnMetadata(f, b.sent))
    // frames reach the renderer in the codec's order, without omissions
    && Stamps(b.delivered) <= b.emitted
    && (b.discarded == [] ==> Stamps(b.AllFrames()) == b.emitted)
  }

  ghost predicate Inv(s: State) {
    ProtocolInv(s) && Consistent(s.stream) && BooksBalance(BooksOf(s))
  }

  // ---------- every step keeps the protocol ----------

  /** The codec's reply, if it is a picture, finds saved metadata. */
  predicate ReplyMatches(s: State, e: Event) {
    var emits := s.worker.Receive? && e.WorkerStep? && e.reply.Emit? && Owes(s, e.reply.pts);
    emits ==> TakeFirst(s.saved, e.reply.pts).Found?
  }

  lemma StepKeepsProtocol(s: State, e: Event)
    requires ProtocolInv(s) && ReplyMatches(s, e)
    requires Step(s, e).Some?
    ensures ProtocolInv(Step(s, e).value)
  {
    match e
    case WorkerStep(reply) => WorkerKeepsProtocol(s, reply);
    case ReaderStep => ReaderKeepsProtocol(s);
    case PusherStep => PusherKeepsProtocol(s);
    case StopperStep(packetFirst) => StopperKeepsProtocol(s, packetFirst);
    case _ =>
  }

  predicate AtFrames(w: WorkerPc) {
    w.WantFrame? || w.FrameCheck? || w.FrameSleep? || w.FrameWait? || w.FrameFlag? || w.FrameAdd?
  }

  lemma WorkerKeepsProtocol(s: State, reply: CodecReply)
    requires ProtocolInv(s) && ReplyMatches(s, WorkerStep(reply))
    requires WorkerNext(s, reply).Some?
    ensures ProtocolInv(WorkerNext(s, reply).value)
  {
    if AtFrames(s.worker) {
      WorkerAtFramesKeepsProtocol(s, reply);
    } else {
      WorkerElsewhereKeepsProtocol(s, reply);
    }
  }

  lemma WorkerAtFramesKeepsProtocol(s: State, reply: CodecReply)
    requires ProtocolInv(s) && AtFrames(s.worker)
    requires WorkerNext(s, reply).Some?
    ensures ProtocolInv(WorkerNext(s, reply).value)
  {
  }

  lemma WorkerElsewhereKeepsProtocol(s: State, reply: CodecReply)
    requires ProtocolInv(s) && !AtFrames(s.worker) && ReplyMatches(s, WorkerStep(reply))
    requires WorkerNext(s, reply).Some?
    ensures ProtocolInv(WorkerNext(s, reply).value)
  {
    if s.worker.Receive? {
      WorkerAtCodecKeepsProtocol(s, reply);
    } else if s.worker.WantDrop? || s.worker.Drop? {
      WorkerAtDropKeepsProtocol(s, reply);
    } else {
      WorkerAtPacketsKeepsProtocol(s, reply);
    }
  }

  lemma WorkerAtCodecKeepsProtocol(s: State, reply: CodecReply)
    requires ProtocolInv(s) && s.worker.Receive? && ReplyMatches(s, WorkerStep(reply))
    requires WorkerNext(s, reply).Some?
    ensures ProtocolInv(WorkerNext(s, reply).value)
  {
  }

  lemma WorkerAtDropKeepsProtocol(s: State, reply: CodecReply)
    requires ProtocolInv(s) && (s.worker.WantDrop? || s.worker.Drop?)
    requires WorkerNext(s, reply).Some?
    ensures ProtocolInv(WorkerNext(s, reply).value)
  {
  }

  lemma WorkerAtPacketsKeepsProtocol(s: State, reply: CodecReply)
    requires ProtocolInv(s) && !AtFrames(s.worker)
    requires !s.worker.Receive? && !s.worker.WantDrop? && !s.worker.Drop?
    requires WorkerNext(s, reply).Some?
    ensures ProtocolInv(WorkerNext(s, reply).value)
  {
    if s.worker.PacketFlag? || s.worker.PacketTake? || s.worker.Top? || s.worker.Send? {
      WorkerWithPacketKeepsProtocol(s, reply);
    } else {
      WorkerAwaitingPacketKeepsProtocol(s, reply);
    }
  }

  lemma WorkerWithPacketKeepsProtocol(s: State, reply: CodecReply)
    requires ProtocolInv(s)
    requires s.worker.PacketFlag? || s.worker.PacketTake? || s.worker.Top? || s.worker.Send?
    requires WorkerNext(s, reply).Some?
    ensures ProtocolInv(WorkerNext(s, reply).value)
  {
  }

  lemma WorkerAwaitingPacketKeepsProtocol(s: State, reply: CodecReply)
    requires ProtocolInv(s)
    requires s.worker.WantPacket? || s.worker.PacketCheck? || s.worker.PacketSleep? || s.worker.PacketWait?
    requires WorkerNext(s, reply).Some?
    ensures ProtocolInv(WorkerNext(s, reply).value)
  {
  }

  lemma ReaderKeepsProtocol(s: State)
    requires ProtocolInv(s)
    requires ReaderNext(s).Some?
    ensures ProtocolInv(ReaderNext(s).value)
  {
    if s.reader.ReaderFlag? || s.reader.ReaderTake? {
      ReaderLeavingKeepsProtocol(s);
    } else {
      ReaderWaitingKeepsProtocol(s);
    }
  }

  lemma ReaderLeavingKeepsProtocol(s: State)
    requires ProtocolInv(s) && (s.reader.ReaderFlag? || s.reader.ReaderTake?)
    requires ReaderNext(s).Some?
    ensures ProtocolInv(ReaderNext(s).value)
  {
  }

  lemma ReaderWaitingKeepsProtocol(s: State)
    requires ProtocolInv(s) && !s.reader.ReaderFlag? && !s.reader.ReaderTake?
    requires ReaderNext(s).Some?
    ensures ProtocolInv(ReaderNext(s).value)
  {
  }

  lemma PusherKeepsProtocol(s: State)
    requires ProtocolInv(s)
    requires PusherNext(s).Some?
    ensures ProtocolInv(PusherNext(s).value)
  {
  }

  lemma StopperKeepsProtocol(s: State, packetFirst: bool)
    requires ProtocolInv(s)
    requires StopperNext(s, packetFirst).Some?
    ensures ProtocolInv(StopperNext(s, packetFirst).value)
  {
  }

  // ---------- every step keeps the data ----------

  /** Only two steps touch the packet queue. */
  lemma StepOnStream(s: State, e: Event)
    requires Step(s, e).Some?
    ensures var t := Step(s, e).value;
      || t.stream == s.stream
      || (s.stream.queue.packets != [] && t.stream == StreamPop(s.stream))
      || (s.pusher.PusherHold? && |s.stream.queue.packets| <= |s.stream.kept|
          && t.stream == StreamPush(s.stream, s.pusher.frame))
  {
  }

  lemma StepKeepsStream(s: State, e: Event)
    requires Consistent(s.stream) && Step(s, e).Some?
    ensures Consistent(Step(s, e).value.stream)
  {
    StepOnStream(s, e);
    var t := Step(s, e).value;
    if t.stream == s.stream {
    } else if s.stream.queue.packets != [] && t.stream == StreamPop(s.stream) {
      PopKeepsConsistent(s.stream);
    } else {
      PushKeepsConsistent(s.stream, s.pusher.frame);
    }
  }

  /** What a step does to the books, whichever thread takes it. */
  datatype Motion =
    | Still
    | TakeOut(packet: Packet)
    | GiveToCodec
    | ReturnStamp(pts: nat, timeDecoded: int)
    | Enqueue
    | Discard
    | Show
    | Clear

  ghost function Move(b: Books, m: Motion): Option<Books> {
    match m
    case Still => Some(b)
    case TakeOut(packet) =>
      if b.sending != [] then None else Some(b.(taken := b.taken + [packet], sending := [packet]))
    case GiveToCodec =>
      if b.sending == [] then None
      else Some(b.(sending := [], sent := b.sent + b.sending,
                   saved := b.saved + [b.sending[0].GetOtherType(FramePts(|b.sent|))]))
    case ReturnStamp(pts, timeDecoded) =>
      if pts >= |b.sent| || pts in b.emitted || b.hand != [] || TakeFirst(b.saved, pts).Missing? then None
      else
        var m := TakeFirst(b.saved, pts);
        Some(b.(emitted := b.emitted + [pts], saved := m.rest,
                hand := [m.entry.GetOtherType(Picture(pts)).(timeDecoded := timeDecoded)]))
    case Enqueue => Some(b.(frames := b.frames + b.hand, hand := []))
    case Discard => Some(b.(discarded := b.discarded + b.hand, hand := []))
    case Show =>
      if b.frames == [] || b.discarded != [] then None
      else Some(b.(delivered := b.delivered + [b.frames[0]], frames := b.frames[1..]))
    case Clear => Some(b.(discarded := b.discarded + b.frames, frames := []))
  }

  ghost function MotionOf(s: State, e: Event): Motion {
    match e
    case WorkerStep(reply) =>
      (match s.worker
       case Receive => if reply.Emit? then ReturnStamp(reply.pts, reply.timeDecoded) else Still
       case FrameFlag(_) => if s.flagRun then Still else Discard
       case FrameAdd(_) => Enqueue
       case PacketTake => if s.stream.queue.packets != [] then TakeOut(s.stream.queue.packets[0]) else Still
       case Send(_) => GiveToCodec
       case Drop => Clear
       case _ => Still)
    case ReaderStep => if s.reader.ReaderTake? then Show else Still
    case _ => Still
  }

  lemma StepMoves(s: State, e: Event)
    requires ProtocolInv(s) && ReplyMatches(s, e)
    requires Step(s, e).Some?
    ensures Move(BooksOf(s), MotionOf(s, e)) == Some(BooksOf(Step(s, e).value))
  {
    match e
    case WorkerStep(reply) => WorkerMoves(s, reply);
    case ReaderStep =>
    case PusherStep =>
    case StopperStep(packetFirst) =>
    case _ =>
  }

  lemma WorkerMoves(s: State, reply: CodecReply)
    requires ProtocolInv(s) && ReplyMatches(s, WorkerStep(reply))
    requires WorkerNext(s, reply).Some?
    ensures Move(BooksOf(s), MotionOf(s, WorkerStep(reply))) == Some(BooksOf(WorkerNext(s, reply).value))
  {
    if AtFrames(s.worker) {
      WorkerMovesFrames(s, reply);
    } else {
      WorkerMovesPackets(s, reply);
    }
  }

  lemma WorkerMovesFrames(s: State, reply: CodecReply)
    requires ProtocolInv(s) && AtFrames(s.worker)
    requires WorkerNext(s, reply).Some?
    ensures Move(BooksOf(s), MotionOf(s, WorkerStep(reply))) == Some(BooksOf(WorkerNext(s, reply).value))
  {
    assert s.frames + [] == s.frames;
  }

  lemma WorkerMovesPackets(s: State, reply: CodecReply)
    requires ProtocolInv(s) && !AtFrames(s.worker) && ReplyMatches(s, WorkerStep(reply))
    requires WorkerNext(s, reply).Some?
    ensures Move(BooksOf(s), MotionOf(s, WorkerStep(reply))) == Some(BooksOf(WorkerNext(s, reply).value))
  {
  }

  lemma MoveKeepsBalance(b: Books, m: Motion)
    requires BooksBalance(b) && Move(b, m).Some?
    ensures BooksBalance(Move(b, m).value)
  {
    match m
    case Still =>
    case TakeOut(packet) =>
      assert b.sending == [];
    case GiveToCodec => GiveKeepsBalance(b);
    case ReturnStamp(pts, timeDecoded) => ReturnKeepsBalance(b, pts, timeDecoded);
    case Enqueue =>
      assert Move(b, m).value.AllFrames() == b.AllFrames();
    case Discard => DiscardKeepsBalance(b);
    case Show => ShowKeepsBalance(b);
    case Clear => ClearKeepsBalance(b);
  }

  lemma GiveKeepsBalance(b: Books)
    requires BooksBalance(b) && Move(b, GiveToCodec).Some?
    ensures BooksBalance(Move(b, GiveToCodec).value)
  {
    var t := Move(b, GiveToCodec).value;
    var packet := b.sending[0];
    assert t.sent == b.sent + [packet];
    PendingAfterSend(b.sent, |b.sent|, packet, ToSet(b.emitted), FramePts);
  }

  lemma ReturnKeepsBalance(b: Books, pts: nat, timeDecoded: int)
    requires BooksBalance(b) && Move(b, ReturnStamp(pts, timeDecoded)).Some?
    ensures BooksBalance(Move(b, ReturnStamp(pts, timeDecoded)).value)
  {
    OwedStampIsFound(b.sent, b.emitted, pts);
    var t := Move(b, ReturnStamp(pts, timeDecoded)).value;
    assert t.AllFrames() == b.AllFrames() + t.hand;
    assert Stamps(t.AllFrames()) == Stamps(b.AllFrames()) + [pts];
    assert b.emitted <= t.emitted;
  }

  lemma StampsOfConcat(a: seq<Frame>, b: seq<Frame>)
    ensures Stamps(a + b) == Stamps(a) + Stamps(b)
  {
  }

  /** Moving a block of frames changes neither the frames nor their stamps. */
  lemma Regroup(a: seq<Frame>, b: seq<Frame>, c: seq<Frame>, d: seq<Frame>)
    ensures multiset(Stamps(a + b + c + d)) == multiset(Stamps(a + c + b + d))
    ensures forall f :: f in a + c + b + d <==> f in a + b + c + d
  {
    StampsOfConcat(a + b + c, d);
    StampsOfConcat(a + b, c);
    StampsOfConcat(a, b);
    StampsOfConcat(a + c + b, d);
    StampsOfConcat(a + c, b);
    StampsOfConcat(a, c);
  }

  lemma DiscardKeepsBalance(b: Books)
    requires BooksBalance(b)
    ensures BooksBalance(Move(b, Discard).value)
  {
    var t := Move(b, Discard).value;
    if b.hand == [] {
      assert t == b;
    } else {
      var kept := b.delivered + b.frames;
      assert b.AllFrames() == b.discarded + kept + b.hand + [];
      assert t.AllFrames() == b.discarded + b.hand + kept + [];
      Regroup(b.discarded, kept, b.hand, []);
    }
  }

  lemma ClearKeepsBalance(b: Books)
    requires BooksBalance(b)
    ensures BooksBalance(Move(b, Clear).value)
  {
    var t := Move(b, Clear).value;
    if b.frames == [] {
      assert t == b;
    } else {
      assert t.AllFrames() == b.discarded + b.frames + b.delivered + b.hand;
      Regroup(b.discarded, b.delivered, b.frames, b.hand);
    }
  }

  lemma ShowKeepsBalance(b: Books)
    requires BooksBalance(b) && Move(b, Show).Some?
    ensures BooksBalance(Move(b, Show).value)
  {
    var t := Move(b, Show).value;
    assert b.delivered + b.frames == t.delivered + t.frames;
    assert t.AllFrames() == b.AllFrames();
    assert Stamps(t.delivered) == Stamps(t.AllFrames())[..|t.delivered|];
  }

  // ---------- whole runs ----------

  lemma InitiallyInv()
    ensures Inv(INITIAL)
  {
    assert Stamps([]) == [];
    assert Pending<Bytes>([], 0, ToSet([]), FramePts) == [];
  }

  lemma StepKeepsInv(s: State, e: Event)
    requires Inv(s) && Step(s, e).Some?
    ensures Inv(Step(s, e).value)
  {
    if s.worker.Receive? && e.WorkerStep? && e.reply.Emit? && Owes(s, e.reply.pts) {
      OwedStampIsFound(s.sent, s.emitted, e.reply.pts);
    }
    StepKeepsProtocol(s, e);
    StepKeepsStream(s, e);
    StepMoves(s, e);
    MoveKeepsBalance(BooksOf(s), MotionOf(s, e));
  }

  lemma {:induction false} RunKeepsInv(s: State, es: seq<Event>)
    requires Inv(s) && RunFrom(s, es).Some?
    ensures Inv(RunFrom(s, es).value)
  {
    if es != [] {
      RunKeepsInv(s, es[..|es| - 1]);
      StepKeepsInv(RunFrom(s, es[..|es| - 1]).value, es[|es| - 1]);
    }
  }

  lemma ReachableInv(s: State)
    requires Reachable(s)
    ensures Inv(s)
  {
    var es :| RunFrom(INITIAL, es) == Some(s);
    InitiallyInv();
    RunKeepsInv(INITIAL, es);
  }

  // ---------- waiting ----------

  /** A thread asleep on a condition variable, not yet signalled, has nothing it could do: the reader sleeps
      only on an empty frame queue, the worker only on a full one or on an empty packet queue, never reader
      and worker both on the frame queue, and nobody once `stop` has returned. Neither deque operation is
      called on a queue that forbids it, and every decoded stamp finds its metadata. */
  lemma NoLostWakeup(s: State)
    requires Reachable(s)
    ensures s.reader == ReaderWait(false) ==> s.frames == [] && s.stopper != Returned
    ensures s.worker.FrameWait? && !s.worker.signalled ==> |s.frames| == 4 && s.stopper != Returned
    ensures s.worker == PacketWait(false) ==> s.stream.queue.packets == [] && s.stopper != Returned
    ensures !(s.reader == ReaderWait(false) && s.worker.FrameWait? && !s.worker.signalled)
    ensures s.worker != WorkerAborted && s.reader != ReaderAborted
    ensures |s.frames| <= 4
  {
    ReachableInv(s);
  }

  /** No thread can take a step of its own; only new calls or spurious wakeups could change the state. */
  ghost predicate Stuck(s: State) {
    && (forall reply :: WorkerNext(s, reply) == None)
    && ReaderNext(s) == None
    && PusherNext(s) == None
    && StopperNext(s, true) == None && StopperNext(s, false) == None
  }

  /** Deadlock freedom: the threads come to rest only when both locks are free and each of them has
      finished its call, waits for a call that has not been made, or waits for input that is not there;
      if `stop` was called it has returned, the worker has ended and no reader is left waiting. */
  lemma RestIsLegitimate(s: State)
    requires Reachable(s) && Stuck(s)
    ensures s.packetLock == Nobody && s.frameLock == Nobody && s.pusher == PusherIdle
    ensures s.reader == ReaderIdle || (s.reader == ReaderWait(false) && s.frames == [])
    ensures s.flagRun ==> s.stopper == StopperIdle
    ensures !s.flagRun ==> s.stopper == Returned && s.worker == WorkerDone && s.reader == ReaderIdle
    ensures s.worker == WorkerDone
      || (s.worker == PacketWait(false) && s.stream.queue.packets == [])
      || (s.worker.FrameWait? && |s.frames| == FRAME_CAPACITY && s.reader == ReaderIdle)
  {
    ReachableInv(s);
    assert WorkerNext(s, Eof) == None && WorkerNext(s, Again) == None;
  }

  /** At rest with a reader waiting, before `stop`: every packet that was not skipped has been given to the
      codec, and every picture the codec returned has been shown, in the codec's order. */
  lemma RestShowsEverything(s: State)
    requires Reachable(s) && Stuck(s)
    requires s.flagRun && s.worker != WorkerDone && s.reader == ReaderWait(false)
    ensures |s.sent| == |s.stream.kept|
    ensures Stamps(s.delivered) == s.emitted
  {
    ReachableInv(s);
    RestIsLegitimate(s);
    assert BooksOf(s).AllFrames() == s.delivered;
  }

  // ---------- stopping ----------

  /** Steps the worker still has ahead of it once the run flag is down. */
  function WorkerRank(w: WorkerPc): nat {
    match w
    case WorkerDone => 0
    case WorkerAborted => 0
    case Drop => 1
    case WantDrop => 2
    case Top => 3
    case FrameFlag(_) => 4
    case FrameAdd(_) => 4
    case PacketFlag => 4
    case PacketTake => 5
    case Send(_) => 4
    case FrameCheck(_) => 5
    case PacketCheck => 5
    case WantFrame(_) => 6
    case WantPacket => 6
    case FrameWait(_, signalled) => if signalled then 6 else 7
    case PacketWait(signalled) => if signalled then 6 else 7
    case Receive => 7
    case FrameSleep(_) => 8
    case PacketSleep => 8
  }

  function ReaderRank(r: ReaderPc): nat {
    match r
    case ReaderIdle => 0
    case ReaderAborted => 0
    case ReaderTake => 1
    case ReaderFlag => 1
    case ReaderCheck => 2
    case ReaderWant => 3
    case ReaderWait(signalled) => if signalled then 3 else 4
    case ReaderSleep => 5
  }

  predicate ByWorker(e: Event) { e.WorkerStep? || e.SpuriousWorker? }

  predicate ByReader(e: Event) { e.ReaderStep? || e.SpuriousReader? }

  function WorkerSteps(es: seq<Event>): nat {
    if es == [] then 0
    else WorkerSteps(es[..|es| - 1]) + (if ByWorker(es[|es| - 1]) then 1 else 0)
  }

  function ReaderSteps(es: seq<Event>): nat {
    if es == [] then 0
    else ReaderSteps(es[..|es| - 1]) + (if ByReader(es[|es| - 1]) then 1 else 0)
  }

  function ReaderCalls(es: seq<Event>): nat {
    if es == [] then 0
    else ReaderCalls(es[..|es| - 1]) + (if es[|es| - 1].ReaderCall? then 1 else 0)
  }

  /** The frame a reader will deliver although the flag may have fallen since it was checked. */
  function Taking(s: State): seq<Frame> {
    if s.reader.ReaderTake? && s.frames != [] then [s.frames[0]] else []
  }

  /** Between the two states nothing was delivered but the frame a reader had been about to take. */
  predicate TakesOn(s: State, t: State) {
    s.delivered <= t.delivered && t.delivered + Taking(t) == s.delivered + Taking(s)
  }

  lemma StepAfterStop(s: State, e: Event)
    requires ProtocolInv(s) && !s.flagRun && Step(s, e).Some?
    ensures var t := Step(s, e).value;
      && !t.flagRun && TakesOn(s, t)
      && WorkerRank(t.worker) <= WorkerRank(s.worker) - (if ByWorker(e) then 1 else 0)
      && ReaderRank(t.reader) <=
         ReaderRank(s.reader) + (if e.ReaderCall? then 3 else 0) - (if ByReader(e) then 1 else 0)
  {
    if e.WorkerStep? {
      WorkerStepAfterStop(s, e.reply);
    }
  }

  lemma WorkerStepAfterStop(s: State, reply: CodecReply)
    requires ProtocolInv(s) && !s.flagRun && WorkerNext(s, reply).Some?
    ensures var t := WorkerNext(s, reply).value;
      && !t.flagRun && t.delivered == s.delivered && Taking(t) == Taking(s)
      && ReaderRank(t.reader) <= ReaderRank(s.reader)
      && WorkerRank(t.worker) < WorkerRank(s.worker)
  {
    if AwaitsRoom(s.worker) {
      AwaitingRoomAfterStop(s, reply);
    } else {
      OtherwiseAfterStop(s, reply);
    }
  }

  predicate AwaitsRoom(w: WorkerPc) {
    w.WantFrame? || w.FrameCheck? || w.FrameSleep? || w.FrameWait? || w.FrameFlag? || w.FrameAdd?
  }

  lemma AwaitingRoomAfterStop(s: State, reply: CodecReply)
    requires ProtocolInv(s) && !s.flagRun && AwaitsRoom(s.worker) && WorkerNext(s, reply).Some?
    ensures var t := WorkerNext(s, reply).value;
      && !t.flagRun && t.delivered == s.delivered && Taking(t) == Taking(s)
      && ReaderRank(t.reader) <= ReaderRank(s.reader)
      && WorkerRank(t.worker) < WorkerRank(s.worker)
  {
  }

  lemma OtherwiseAfterStop(s: State, reply: CodecReply)
    requires ProtocolInv(s) && !s.flagRun && !AwaitsRoom(s.worker) && WorkerNext(s, reply).Some?
    ensures var t := WorkerNext(s, reply).value;
      && !t.flagRun && t.delivered == s.delivered && Taking(t) == Taking(s)
      && ReaderRank(t.reader) <= ReaderRank(s.reader)
      && WorkerRank(t.worker) < WorkerRank(s.worker)
  {
  }

  /** Once the flag is down the only frame still delivered is the one a reader was about to take, having checked
      the flag before; none is once `stop` has returned. The worker ends within eight of its own steps, and each
      reader call within three, whatever the others do and however often they wake spuriously. */
  lemma {:induction false} StopEndsThreads(s: State, es: seq<Event>)
    requires Reachable(s) && !s.flagRun && RunFrom(s, es).Some?
    ensures var t := RunFrom(s, es).value;
      && !t.flagRun && TakesOn(s, t)
      && (s.stopper.Returned? ==> t.delivered == s.delivered)
      && WorkerSteps(es) + WorkerRank(t.worker) <= WorkerRank(s.worker) <= 8
      && ReaderSteps(es) + ReaderRank(t.reader) <= ReaderRank(s.reader) + 3 * ReaderCalls(es)
  {
    RunKeepsProtocol(s, []);
    if es != [] {
      var front := es[..|es| - 1];
      StopEndsThreads(s, front);
      RunKeepsProtocol(s, front);
      StepAfterStop(RunFrom(s, front).value, es[|es| - 1]);
    }
  }

  lemma RunKeepsProtocol(s: State, es: seq<Event>)
    requires Reachable(s) && RunFrom(s, es).Some?
    ensures ProtocolInv(RunFrom(s, es).value)
  {
    ReachableInv(s);
    RunKeepsInv(s, es);
  }

  /** A frame can be delivered after `stop` has lowered the flag if and only if a reader stands between its
      check of the flag and its taking the frame. */
  lemma DeliversAfterStopExactly(s: State)
    requires Reachable(s) && s.stopper.StopperIdle?
    ensures var t := Step(s, StopCall).value;
      s.reader.ReaderTake? <==> exists es :: RunFrom(t, es).Some? && RunFrom(t, es).value.delivered != t.delivered
  {
    var t := Step(s, StopCall).value;
    if s.reader.ReaderTake? {
      ReaderStillDelivers(s);
    } else {
      ReachStep(s, StopCall);
      forall es | RunFrom(t, es).Some?
        ensures RunFrom(t, es).value.delivered == t.delivered
      {
        StopEndsThreads(t, es);
      }
    }
  }

  lemma ReaderStillDelivers(s: State)
    requires Reachable(s) && s.stopper.StopperIdle? && s.reader.ReaderTake?
    ensures var t := Step(s, StopCall).value;
      RunFrom(t, [ReaderStep]).Some? && RunFrom(t, [ReaderStep]).value.delivered != t.delivered
  {
    RunKeepsProtocol(s, []);
    var t := Step(s, StopCall).value;
    assert [ReaderStep][..0] == [];
    assert RunFrom(t, [ReaderStep]) == Step(t, ReaderStep);
  }

  lemma ReachStep(s: State, e: Event)
    requires Reachable(s) && Step(s, e).Some?
    ensures Reachable(Step(s, e).value)
  {
    var es :| RunFrom(INITIAL, es) == Some(s);
    assert (es + [e])[..|es|] == es;
    assert RunFrom(INITIAL, es + [e]) == Step(s, e);
  }

  // ---------- what the renderer gets ----------

  /** In every reachable state, each frame handed to the renderer carries the metadata of the very packet
      whose stamp it bears, no stamp is handed over twice, and frames come in the codec's order. */
  lemma DeliveredFramesAreOwn(s: State)
    requires Reachable(s)
    ensures Stamps(s.delivered) <= s.emitted
    ensures forall i, j :: 0 <= i < j < |s.delivered| ==> s.delivered[i].desktop.pts != s.delivered[j].desktop.pts
    ensures forall i :: 0 <= i < |s.delivered| ==> OwnMetadata(s.delivered[i], s.sent)
    ensures |s.sent| <= |s.stream.kept|
      && forall k :: 0 <= k < |s.sent| ==> SurvivesAt(s.stream.pushed, s.stream.kept, s.sent, k)
  {
    ReachableInv(s);
    var b := BooksOf(s);
    forall i, j | 0 <= i < j < |s.delivered|
      ensures s.delivered[i].desktop.pts != s.delivered[j].desktop.pts
    {
      NoDuplicates(s.emitted, i, j);
      assert Stamps(s.delivered)[i] == s.emitted[i] && Stamps(s.delivered)[j] == s.emitted[j];
    }
    forall i | 0 <= i < |s.delivered|
      ensures OwnMetadata(s.delivered[i], s.sent)
    {
      assert s.delivered[i] in b.AllFrames();
    }
    var seen := s.stream.taken + s.stream.queue.packets;
    forall k | 0 <= k < |s.sent|
      ensures SurvivesAt(s.stream.pushed, s.stream.kept, s.sent, k)
    {
      assert SurvivesAt(s.stream.pushed, s.stream.kept, seen, k);
      assert seen[k] == s.stream.taken[k] == s.sent[k];
    }
  }

  /** The picture a stamp stands for, and the time it was decoded, are the codec's reply. */
  lemma FrameIsTheReply(s: State, pts: nat, timeDecoded: int)
    requires Reachable(s) && s.worker.Receive? && Owes(s, pts)
    ensures var t := WorkerNext(s, Emit(pts, timeDecoded));
      && t.Some? && t.value.worker.WantFrame? && t.value.emitted == s.emitted + [pts]
      && t.value.worker.out.desktop == Picture(pts) && t.value.worker.out.timeDecoded == timeDecoded
  {
    ReachableInv(s);
    OwedStampIsFound(s.sent, s.emitted, pts);
  }

  /** Every frame handed to the renderer, whichever were skipped: its times and key frame mark are those of the frame
      pushed, the codec got that frame's bytes for it, and so is its cursor position if that frame had one. */
  lemma DeliveredIsAsPushed(s: State, j: nat)
    requires Reachable(s) && j < |s.delivered|
    ensures var f := s.delivered[j];
      && f.desktop.pts < |s.sent| <= |s.stream.kept| && s.stream.kept[f.desktop.pts] < |s.stream.pushed|
      && var p := s.stream.pushed[s.stream.kept[f.desktop.pts]];
         && s.sent[f.desktop.pts].desktop == p.desktop
         && f.timeCaptured == p.timeCaptured && f.timeEncoded == p.timeEncoded && f.timeReceived == p.timeReceived
         && f.timePresented == p.timePresented && f.isIDR == p.isIDR
         && (p.cursorPos.Some? ==> f.cursorPos == p.cursorPos)
  {
    DeliveredFramesAreOwn(s);
    var k := s.delivered[j].desktop.pts;
    assert OwnMetadata(s.delivered[j], s.sent);
    assert SurvivesAt(s.stream.pushed, s.stream.kept, s.sent, k);
  }

  lemma NoDuplicates(ks: seq<nat>, i: nat, j: nat)
    requires i < j < |ks| && forall k :: multiset(ks)[k] <= 1
    ensures ks[i] != ks[j]
  {
    assert ks == ks[..j] + ks[j..];
    assert multiset(ks) == multiset(ks[..j]) + multiset(ks[j..]);
    assert ks[..j][i] == ks[i] && ks[j..][0] == ks[j];
    assert multiset(ks[..j])[ks[i]] >= 1 && multiset(ks[j..])[ks[j]] >= 1;
    assert multiset(ks)[ks[j]] == multiset(ks[..j])[ks[j]] + multiset(ks[j..])[ks[j]];
  }

  /** The packets the codec got show the newest cursor shape of the stream up to each of them. */
  lemma SentShowsCursor(s: State, m: nat)
    requires Reachable(s) && 0 < m <= |s.sent|
    ensures m <= |s.stream.kept| && s.stream.kept[m - 1] < |s.stream.pushed|
    ensures Last(s.sent[..m], ShapeOf) == Last(s.stream.pushed[..s.stream.kept[m - 1] + 1], ShapeOf)
  {
    ReachableInv(s);
    CursorNeverLost(s.stream, m);
    assert (s.stream.taken + s.stream.queue.packets)[..m] == s.sent[..m];
  }
}
