/** The software encoder's threads: a one-slot mailbox from the pusher to the worker and an unbounded queue
    from the worker to the reader. Unlike the decoder's, this `stop` notifies without taking any lock. */
module EncoderThreads {
  import opened Prelude
  import opened DesktopFrames
  import opened MetadataMatch

  /** A captured picture is a number. */
  type Frame = DesktopFrame<int>

  datatype Owner = Nobody | Worker | Pusher | Reader

  datatype WorkerPc =
    | Top | Receive
    | WantFrame | FrameCheck | FrameSleep | FrameWait(signalled: bool) | FrameFlag | FrameTake
    | Send(frame: Frame)
    | WantPacket(packet: Packet) | AddPacket(packet: Packet)
    | WorkerDone | WorkerAborted

  datatype PusherPc =
    | PusherIdle
    | PusherWant(frame: Frame) | PusherCheck(frame: Frame) | PusherSleep(frame: Frame)
    | PusherWait(frame: Frame, signalled: bool) | PusherFlag(frame: Frame) | PusherPut(frame: Frame)
    | PusherAborted

  datatype ReaderPc =
    | ReaderIdle | ReaderWant | ReaderCheck | ReaderSleep | ReaderWait(signalled: bool) | ReaderFlag | ReaderTake
    | ReaderAborted

  datatype StopperPc = StopperIdle | NotifyFrames | NotifyPackets | Returned

  /** `caught...` records who was between its flag check and its wait when `stop` notified it, and `noticed` how
      many packets had been queued when it notified the reader. */
  datatype State = State(
    flagRun: bool, frameLock: Owner, packetLock: Owner,
    worker: WorkerPc, pusher: PusherPc, reader: ReaderPc, stopper: StopperPc,
    // frames: in the mailbox, accepted into it, taken out of it, and given to the codec
    nextFrame: Option<Frame>, accepted: seq<Frame>, taken: seq<Frame>, sent: seq<Frame>,
    // the order in which the codec returned their stamps, with all it returned, and saved metadata
    emitted: seq<nat>, answers: seq<CodecReply>, saved: seq<Entry>,
    // packets: waiting, made of what the codec returned, and read
    packetQueue: seq<Packet>, coded: seq<Packet>, read: seq<Packet>,
    caughtWorker: bool, caughtPusher: bool, caughtReader: bool, noticed: nat)

  const INITIAL := State(
    true, Nobody, Nobody, Top, PusherIdle, ReaderIdle, StopperIdle,
    None, [], [], [], [], [], [], [], [], [], false, false, false, 0)

  /** The codec's answers; `Eof` also stands for refusing a frame. */
  datatype CodecReply = Eof | Again | Coded(pts: nat, encoded: Bytes, isIDR: bool, timeEncoded: int)

  datatype Event =
    | WorkerStep(reply: CodecReply)
    | PusherCall(frame: Frame) | PusherStep
    | ReaderCall | ReaderStep
    | StopCall | StopperStep
    | SpuriousWorker | SpuriousPusher | SpuriousReader

  // ---------- steps ----------

  function WakeWorker(w: WorkerPc): WorkerPc {
    if w.FrameWait? then FrameWait(true) else w
  }

  function WakePusher(p: PusherPc): PusherPc {
    if p.PusherWait? then PusherWait(p.frame, true) else p
  }

  function WakeReader(r: ReaderPc): ReaderPc {
    if r.ReaderWait? then ReaderWait(true) else r
  }

  predicate NoPackets(s: State) { s.packetQueue == [] }

  /** The codec owes a stamp it was sent and has not returned. */
  predicate Owes(s: State, pts: nat) { pts < |s.sent| && pts !in s.emitted }

  /** The packet made of a codec's answer and the metadata found for it. */
  function PacketFrom(entry: Entry, reply: CodecReply): Packet
    requires reply.Coded?
  {
    entry.GetOtherType(reply.encoded).(isIDR := reply.isIDR, timeEncoded := reply.timeEncoded)
  }

  function WorkerNext(s: State, reply: CodecReply): Option<State> {
    match s.worker
    case Top => Some(s.(worker := if s.flagRun then Receive else WorkerDone))
    case Receive => ReceiveNext(s, reply)
    case WantFrame => if s.frameLock.Nobody? then Some(s.(frameLock := Worker, worker := FrameCheck)) else None
    case FrameCheck => Some(s.(worker := if s.nextFrame.None? && s.flagRun then FrameSleep else FrameFlag))
    case FrameSleep => Some(s.(frameLock := Nobody, worker := FrameWait(false)))
    case FrameWait(signalled) =>
      if signalled && s.frameLock.Nobody? then Some(s.(frameLock := Worker, worker := FrameCheck)) else None
    case FrameFlag =>
      if !s.flagRun then Some(s.(frameLock := Nobody, worker := Top)) else Some(s.(worker := FrameTake))
    case FrameTake =>
      if s.nextFrame.None? then
        Some(s.(worker := WorkerAborted))  // the slot is empty
      else
        Some(s.(taken := s.taken + [s.nextFrame.value], nextFrame := None, pusher := WakePusher(s.pusher),
                frameLock := Nobody, worker := Send(s.nextFrame.value)))
    case Send(frame) =>
      Some(s.(saved := s.saved + [frame.GetOtherType(FramePts(|s.sent|))], sent := s.sent + [frame],
              worker := if reply.Eof? then WorkerDone else Top))
    case WantPacket(packet) =>
      if s.packetLock.Nobody? then Some(s.(packetLock := Worker, worker := AddPacket(packet))) else None
    case AddPacket(packet) =>
      Some(s.(packetQueue := s.packetQueue + [packet], reader := WakeReader(s.reader),
              packetLock := Nobody, worker := Top))
    case WorkerDone => None
    case WorkerAborted => None
  }

  function ReceiveNext(s: State, reply: CodecReply): Option<State> {
    match reply
    case Eof => Some(s.(worker := WorkerDone))
    case Again => Some(s.(worker := WantFrame))
    case Coded(pts, _, _, _) =>
      if !Owes(s, pts) then
        None
      else
        match TakeFirst(s.saved, pts)
        case Missing => Some(s.(worker := WorkerAborted))  // "Failed to find matching extra data"
        case Found(entry, rest) =>
          var packet := PacketFrom(entry, reply);
          Some(s.(saved := rest, emitted := s.emitted + [pts], answers := s.answers + [reply],
                  coded := s.coded + [packet], worker := WantPacket(packet)))
  }

  function PusherNext(s: State): Option<State> {
    match s.pusher
    case PusherIdle => None
    case PusherWant(frame) =>
      if s.frameLock.Nobody? then Some(s.(frameLock := Pusher, pusher := PusherCheck(frame))) else None
    case PusherCheck(frame) =>
      Some(s.(pusher := if s.nextFrame.Some? && s.flagRun then PusherSleep(frame) else PusherFlag(frame)))
    case PusherSleep(frame) => Some(s.(frameLock := Nobody, pusher := PusherWait(frame, false)))
    case PusherWait(frame, signalled) =>
      if signalled && s.frameLock.Nobody? then Some(s.(frameLock := Pusher, pusher := PusherCheck(frame)))
      else None
    case PusherFlag(frame) =>
      if !s.flagRun then Some(s.(frameLock := Nobody, pusher := PusherIdle)) else Some(s.(pusher := PusherPut(frame)))
    case PusherPut(frame) =>
      if s.nextFrame.Some? then
        Some(s.(pusher := PusherAborted))  // would overwrite a frame nobody took
      else
        Some(s.(nextFrame := Some(frame), accepted := s.accepted + [frame], worker := WakeWorker(s.worker),
                frameLock := Nobody, pusher := PusherIdle))
    case PusherAborted => None
  }

  function ReaderNext(s: State): Option<State> {
    match s.reader
    case ReaderIdle => None
    case ReaderWant => if s.packetLock.Nobody? then Some(s.(packetLock := Reader, reader := ReaderCheck)) else None
    case ReaderCheck => Some(s.(reader := if NoPackets(s) && s.flagRun then ReaderSleep else ReaderFlag))
    case ReaderSleep => Some(s.(packetLock := Nobody, reader := ReaderWait(false)))
    case ReaderWait(signalled) =>
      if signalled && s.packetLock.Nobody? then Some(s.(packetLock := Reader, reader := ReaderCheck)) else None
    case ReaderFlag =>
      if !s.flagRun then Some(s.(packetLock := Nobody, reader := ReaderIdle)) else Some(s.(reader := ReaderTake))
    case ReaderTake =>
      if NoPackets(s) then
        Some(s.(reader := ReaderAborted))  // front() of an empty queue
      else
        Some(s.(read := s.read + [s.packetQueue[0]], packetQueue := s.packetQueue[1..],
                packetLock := Nobody, reader := ReaderIdle))
    case ReaderAborted => None
  }

  /** How many packets were ever queued. */
  function Queued(s: State): nat { |s.read| + |s.packetQueue| }

  /** Two notifications, each atomic, taken while any thread may hold either lock. */
  function StopperNext(s: State): Option<State> {
    match s.stopper
    case StopperIdle => None
    case NotifyFrames =>
      Some(s.(worker := WakeWorker(s.worker), pusher := WakePusher(s.pusher), stopper := NotifyPackets,
              caughtWorker := s.worker.FrameSleep?, caughtPusher := s.pusher.PusherSleep?))
    case NotifyPackets =>
      Some(s.(reader := WakeReader(s.reader), stopper := Returned,
              caughtReader := s.reader.ReaderSleep?, noticed := Queued(s)))
    case Returned => None
  }

  function Step(s: State, e: Event): Option<State> {
    match e
    case WorkerStep(reply) => WorkerNext(s, reply)
    case PusherCall(frame) => if s.pusher.PusherIdle? then Some(s.(pusher := PusherWant(frame))) else None
    case PusherStep => PusherNext(s)
    case ReaderCall => if s.reader.ReaderIdle? then Some(s.(reader := ReaderWant)) else None
    case ReaderStep => ReaderNext(s)
    case StopCall =>
      if s.stopper.StopperIdle? then Some(s.(flagRun := false, stopper := NotifyFrames)) else None
    case StopperStep => StopperNext(s)
    case SpuriousWorker => if s.worker == FrameWait(false) then Some(s.(worker := FrameWait(true))) else None
    case SpuriousPusher =>
      if s.pusher.PusherWait? && !s.pusher.signalled then Some(s.(pusher := PusherWait(s.pusher.frame, true)))
      else None
    case SpuriousReader => if s.reader == ReaderWait(false) then Some(s.(reader := ReaderWait(true))) else None
  }

  predicate Spurious(e: Event) {
    e.SpuriousWorker? || e.SpuriousPusher? || e.SpuriousReader?
  }

  function RunFrom(s: State, es: seq<Event>): Option<State> {
    if es == [] then Some(s)
    else
      match RunFrom(s, es[..|es| - 1])
      case None => None
      case Some(t) => Step(t, es[|es| - 1])
  }

  ghost predicate Reachable(s: State) {
    exists es: seq<Event> :: RunFrom(INITIAL, es) == Some(s)
  }

  ghost predicate Calm(es: seq<Event>) {
    forall i :: 0 <= i < |es| ==> !Spurious(es[i])
  }

  /** Reachable without spurious wakeups. */
  ghost predicate CalmlyReachable(s: State) {
    exists es: seq<Event> :: Calm(es) && RunFrom(INITIAL, es) == Some(s)
  }

  // ---------- the waiting protocol ----------

  predicate InFrames(w: WorkerPc) { w.FrameCheck? || w.FrameSleep? || w.FrameFlag? || w.FrameTake? }

  predicate PusherIn(p: PusherPc) { p.PusherCheck? || p.PusherSleep? || p.PusherFlag? || p.PusherPut? }

  predicate ReaderIn(r: ReaderPc) { r.ReaderCheck? || r.ReaderSleep? || r.ReaderFlag? || r.ReaderTake? }

  predicate WorkerSleeps(s: State) { s.worker.FrameSleep? || (s.worker.FrameWait? && !s.worker.signalled) }

  predicate PusherSleeps(s: State) { s.pusher.PusherSleep? || (s.pusher.PusherWait? && !s.pusher.signalled) }

  predicate ReaderSleeps(s: State) { s.reader.ReaderSleep? || (s.reader.ReaderWait? && !s.reader.signalled) }

  predicate FramesNotified(s: State) { s.stopper.NotifyPackets? || s.stopper.Returned? }

  /** `stop` caught the reader, and no packet was queued since to wake it. */
  predicate ReaderForgotten(s: State) { s.caughtReader && Queued(s) == s.noticed }

  ghost predicate LocksMatch(s: State) {
    && (s.frameLock.Worker? <==> InFrames(s.worker))
    && (s.frameLock.Pusher? <==> PusherIn(s.pusher))
    && !s.frameLock.Reader?
    && (s.packetLock.Worker? <==> s.worker.AddPacket?)
    && (s.packetLock.Reader? <==> ReaderIn(s.reader))
    && !s.packetLock.Pusher?
  }

  ghost predicate WaitersJustified(s: State) {
    && (WorkerSleeps(s) ==> s.nextFrame.None? && (FramesNotified(s) ==> s.caughtWorker))
    && (PusherSleeps(s) ==> s.nextFrame.Some? && (FramesNotified(s) ==> s.caughtPusher))
    && (ReaderSleeps(s) ==> NoPackets(s) && (s.stopper.Returned? ==> ReaderForgotten(s)))
  }

  ghost predicate ExitsJustified(s: State) {
    && (s.worker.FrameFlag? && s.nextFrame.None? ==> !s.flagRun)
    && (s.pusher.PusherFlag? && s.nextFrame.Some? ==> !s.flagRun)
    && (s.reader.ReaderFlag? && NoPackets(s) ==> !s.flagRun)
    && !s.worker.WorkerAborted? && !s.pusher.PusherAborted? && !s.reader.ReaderAborted?
  }

  /** Past the flag check, what follows is still allowed; and who was caught is not about to be woken. */
  ghost predicate ActsJustified(s: State) {
    && (s.worker.FrameTake? ==> s.nextFrame.Some? && !s.caughtPusher)
    && (s.pusher.PusherPut? ==> s.nextFrame.None? && !s.caughtWorker)
    && (s.reader.ReaderTake? ==> !NoPackets(s))
  }

  ghost predicate ProtocolInv(s: State) {
    && LocksMatch(s) && WaitersJustified(s) && ExitsJustified(s) && ActsJustified(s)
    && (s.flagRun <==> s.stopper.StopperIdle?)
    && (s.caughtWorker || s.caughtPusher ==> FramesNotified(s))
    && (s.caughtReader ==> s.stopper.Returned?)
    && (s.stopper.Returned? ==> Queued(s) >= s.noticed)
  }

  /** A caught thread can only fall asleep: without spurious wakeups nobody will wake it but, for the reader, another
      packet. */
  ghost predicate CaughtStay(s: State) {
    && (s.caughtWorker ==> WorkerSleeps(s))
    && (s.caughtPusher ==> PusherSleeps(s))
    && (ReaderForgotten(s) ==> ReaderSleeps(s))
  }

  /** The codec's reply, if it is a packet, finds saved metadata. */
  predicate ReplyMatches(s: State, e: Event) {
    s.worker.Receive? && e.WorkerStep? && e.reply.Coded? && Owes(s, e.reply.pts) ==>
      TakeFirst(s.saved, e.reply.pts).Found?
  }

  lemma StepKeepsProtocol(s: State, e: Event)
    requires ProtocolInv(s) && ReplyMatches(s, e) && Step(s, e).Some?
    ensures ProtocolInv(Step(s, e).value)
  {
    match e
    case WorkerStep(reply) => WorkerKeepsProtocol(s, reply);
    case PusherStep => PusherKeepsProtocol(s);
    case ReaderStep => ReaderKeepsProtocol(s);
    case StopperStep => StopperKeepsProtocol(s);
    case _ =>
  }

  predicate AwaitsFrame(w: WorkerPc) { w.WantFrame? || w.FrameCheck? || w.FrameSleep? || w.FrameWait? }

  predicate Delivers(w: WorkerPc) { w.AddPacket? || w.WantPacket? }

  lemma WorkerKeepsProtocol(s: State, reply: CodecReply)
    requires ProtocolInv(s) && ReplyMatches(s, WorkerStep(reply)) && WorkerNext(s, reply).Some?
    ensures ProtocolInv(WorkerNext(s, reply).value)
  {
    if AwaitsFrame(s.worker) {
      WorkerAwaitingKeepsProtocol(s, reply);
    } else if s.worker.FrameFlag? || s.worker.FrameTake? {
      WorkerTakingKeepsProtocol(s, reply);
    } else if Delivers(s.worker) {
      WorkerDeliveringKeepsProtocol(s, reply);
    } else {
      WorkerCodingKeepsProtocol(s, reply);
    }
  }

  lemma WorkerAwaitingKeepsProtocol(s: State, reply: CodecReply)
    requires ProtocolInv(s) && WorkerNext(s, reply).Some?
    requires AwaitsFrame(s.worker)
    ensures ProtocolInv(WorkerNext(s, reply).value)
  {
  }

  lemma WorkerTakingKeepsProtocol(s: State, reply: CodecReply)
    requires ProtocolInv(s) && WorkerNext(s, reply).Some?
    requires s.worker.FrameFlag? || s.worker.FrameTake?
    ensures ProtocolInv(WorkerNext(s, reply).value)
  {
  }

  lemma WorkerDeliveringKeepsProtocol(s: State, reply: CodecReply)
    requires ProtocolInv(s) && WorkerNext(s, reply).Some?
    requires Delivers(s.worker)
    ensures ProtocolInv(WorkerNext(s, reply).value)
  {
  }

  lemma WorkerCodingKeepsProtocol(s: State, reply: CodecReply)
    requires ProtocolInv(s) && ReplyMatches(s, WorkerStep(reply)) && WorkerNext(s, reply).Some?
    requires s.worker.Top? || s.worker.Receive? || s.worker.Send?
    ensures ProtocolInv(WorkerNext(s, reply).value)
  {
  }

  lemma PusherKeepsProtocol(s: State)
    requires ProtocolInv(s) && PusherNext(s).Some?
    ensures ProtocolInv(PusherNext(s).value)
  {
    if s.pusher.PusherFlag? || s.pusher.PusherPut? {
      PusherGivingKeepsProtocol(s);
    } else {
      PusherAwaitingKeepsProtocol(s);
    }
  }

  lemma PusherGivingKeepsProtocol(s: State)
    requires ProtocolInv(s) && PusherNext(s).Some?
    requires s.pusher.PusherFlag? || s.pusher.PusherPut?
    ensures ProtocolInv(PusherNext(s).value)
  {
  }

  lemma PusherAwaitingKeepsProtocol(s: State)
    requires ProtocolInv(s) && PusherNext(s).Some?
    requires !s.pusher.PusherFlag? && !s.pusher.PusherPut?
    ensures ProtocolInv(PusherNext(s).value)
  {
    if s.pusher.PusherCheck? {
      PusherCheckingKeepsProtocol(s);
    } else {
      PusherLockingKeepsProtocol(s);
    }
  }

  lemma PusherCheckingKeepsProtocol(s: State)
    requires ProtocolInv(s) && PusherNext(s).Some? && s.pusher.PusherCheck?
    ensures ProtocolInv(PusherNext(s).value)
  {
  }

  lemma PusherLockingKeepsProtocol(s: State)
    requires ProtocolInv(s) && PusherNext(s).Some?
    requires !s.pusher.PusherFlag? && !s.pusher.PusherPut? && !s.pusher.PusherCheck?
    ensures ProtocolInv(PusherNext(s).value)
  {
  }

  lemma ReaderKeepsProtocol(s: State)
    requires ProtocolInv(s) && ReaderNext(s).Some?
    ensures ProtocolInv(ReaderNext(s).value)
  {
    if s.reader.ReaderFlag? || s.reader.ReaderTake? {
      ReaderTakingKeepsProtocol(s);
    } else {
      ReaderAwaitingKeepsProtocol(s);
    }
  }

  lemma ReaderTakingKeepsProtocol(s: State)
    requires ProtocolInv(s) && ReaderNext(s).Some?
    requires s.reader.ReaderFlag? || s.reader.ReaderTake?
    ensures ProtocolInv(ReaderNext(s).value)
  {
  }

  lemma ReaderAwaitingKeepsProtocol(s: State)
    requires ProtocolInv(s) && ReaderNext(s).Some?
    requires !s.reader.ReaderFlag? && !s.reader.ReaderTake?
    ensures ProtocolInv(ReaderNext(s).value)
  {
    if s.reader.ReaderCheck? {
      ReaderCheckingKeepsProtocol(s);
    } else {
      ReaderLockingKeepsProtocol(s);
    }
  }

  lemma ReaderCheckingKeepsProtocol(s: State)
    requires ProtocolInv(s) && ReaderNext(s).Some? && s.reader.ReaderCheck?
    ensures ProtocolInv(ReaderNext(s).value)
  {
  }

  lemma ReaderLockingKeepsProtocol(s: State)
    requires ProtocolInv(s) && ReaderNext(s).Some?
    requires !s.reader.ReaderFlag? && !s.reader.ReaderTake? && !s.reader.ReaderCheck?
    ensures ProtocolInv(ReaderNext(s).value)
  {
  }

  lemma StopperKeepsProtocol(s: State)
    requires ProtocolInv(s) && StopperNext(s).Some?
    ensures ProtocolInv(StopperNext(s).value)
  {
    if s.stopper.NotifyFrames? {
      FrameNoticeKeepsProtocol(s);
    } else {
      PacketNoticeKeepsProtocol(s);
    }
  }

  lemma FrameNoticeKeepsProtocol(s: State)
    requires ProtocolInv(s) && StopperNext(s).Some?
    requires s.stopper.NotifyFrames?
    ensures ProtocolInv(StopperNext(s).value)
  {
  }

  lemma PacketNoticeKeepsProtocol(s: State)
    requires ProtocolInv(s) && StopperNext(s).Some?
    requires !s.stopper.NotifyFrames?
    ensures ProtocolInv(StopperNext(s).value)
  {
  }

  // ---------- who was caught ----------

  lemma StepKeepsCaught(s: State, e: Event)
    requires ProtocolInv(s) && CaughtStay(s) && !Spurious(e) && Step(s, e).Some?
    ensures CaughtStay(Step(s, e).value)
  {
    match e
    case WorkerStep(reply) => WorkerKeepsCaught(s, reply);
    case PusherStep => PusherKeepsCaught(s);
    case ReaderStep => ReaderKeepsCaught(s);
    case StopperStep => StopperKeepsCaught(s);
    case _ =>
  }

  lemma WorkerKeepsCaught(s: State, reply: CodecReply)
    requires ProtocolInv(s) && CaughtStay(s) && WorkerNext(s, reply).Some?
    ensures CaughtStay(WorkerNext(s, reply).value)
  {
    if Delivers(s.worker) {
      DeliveringKeepsCaught(s, reply);
    } else {
      OtherwiseKeepsCaught(s, reply);
    }
  }

  lemma DeliveringKeepsCaught(s: State, reply: CodecReply)
    requires ProtocolInv(s) && CaughtStay(s) && Delivers(s.worker) && WorkerNext(s, reply).Some?
    ensures CaughtStay(WorkerNext(s, reply).value)
  {
  }

  lemma OtherwiseKeepsCaught(s: State, reply: CodecReply)
    requires ProtocolInv(s) && CaughtStay(s) && !Delivers(s.worker) && WorkerNext(s, reply).Some?
    ensures CaughtStay(WorkerNext(s, reply).value)
  {
    if AwaitsFrame(s.worker) {
      AwaitingKeepsCaught(s, reply);
    } else {
      CodingKeepsCaught(s, reply);
    }
  }

  lemma AwaitingKeepsCaught(s: State, reply: CodecReply)
    requires ProtocolInv(s) && CaughtStay(s) && AwaitsFrame(s.worker) && WorkerNext(s, reply).Some?
    ensures CaughtStay(WorkerNext(s, reply).value)
  {
  }

  lemma CodingKeepsCaught(s: State, reply: CodecReply)
    requires ProtocolInv(s) && CaughtStay(s) && !Delivers(s.worker) && !AwaitsFrame(s.worker)
    requires WorkerNext(s, reply).Some?
    ensures CaughtStay(WorkerNext(s, reply).value)
  {
    if s.worker.FrameFlag? || s.worker.FrameTake? {
      TakingKeepsCaught(s, reply);
    } else {
      assert !s.caughtWorker;
      OnlyWorkerMoves(s, reply);
    }
  }

  lemma TakingKeepsCaught(s: State, reply: CodecReply)
    requires ProtocolInv(s) && CaughtStay(s) && (s.worker.FrameFlag? || s.worker.FrameTake?)
    requires WorkerNext(s, reply).Some?
    ensures CaughtStay(WorkerNext(s, reply).value)
  {
  }

  /** While it codes, the worker changes nothing the others wait for. */
  lemma OnlyWorkerMoves(s: State, reply: CodecReply)
    requires s.worker.Top? || s.worker.Receive? || s.worker.Send? || s.worker.WorkerDone? || s.worker.WorkerAborted?
    requires WorkerNext(s, reply).Some?
    ensures var t := WorkerNext(s, reply).value;
      && t.pusher == s.pusher && t.reader == s.reader && t.read == s.read && t.packetQueue == s.packetQueue
      && t.caughtWorker == s.caughtWorker && t.caughtPusher == s.caughtPusher && t.caughtReader == s.caughtReader
      && t.noticed == s.noticed
  {
  }

  lemma PusherKeepsCaught(s: State)
    requires ProtocolInv(s) && CaughtStay(s) && PusherNext(s).Some?
    ensures CaughtStay(PusherNext(s).value)
  {
  }

  lemma ReaderKeepsCaught(s: State)
    requires ProtocolInv(s) && CaughtStay(s) && ReaderNext(s).Some?
    ensures CaughtStay(ReaderNext(s).value)
  {
  }

  lemma StopperKeepsCaught(s: State)
    requires ProtocolInv(s) && CaughtStay(s) && StopperNext(s).Some?
    ensures CaughtStay(StopperNext(s).value)
  {
  }

  // ---------- the data ----------

  /** Where every frame and every packet is. */
  datatype Books = Books(
    accepted: seq<Frame>, mailbox: seq<Frame>, taken: seq<Frame>, sending: seq<Frame>, sent: seq<Frame>,
    saved: seq<Entry>, emitted: seq<nat>, answers: seq<CodecReply>,
    coded: seq<Packet>, hand: seq<Packet>, queue: seq<Packet>, read: seq<Packet>)

  function Mailbox(s: State): seq<Frame> { if s.nextFrame.Some? then [s.nextFrame.value] else [] }

  function InHand(w: WorkerPc): seq<Packet> { if Delivers(w) then [w.packet] else [] }

  function BooksOf(s: State): Books {
    Books(s.accepted, Mailbox(s), s.taken, if s.worker.Send? then [s.worker.frame] else [], s.sent,
          s.saved, s.emitted, s.answers, s.coded, InHand(s.worker), s.packetQueue, s.read)
  }

  /** A packet is what the codec returned, with the metadata of the frame whose stamp came with it. */
  ghost predicate OwnMetadata(p: Packet, answer: CodecReply, sent: seq<Frame>) {
    && answer.Coded? && answer.pts < |sent|
    && p.desktop == answer.encoded && p.isIDR == answer.isIDR && p.timeEncoded == answer.timeEncoded
    && var f := sent[answer.pts];
       && p.cursorPos == f.cursorPos && p.cursorShape == f.cursorShape
       && p.timeCaptured == f.timeCaptured && p.timeReceived == f.timeReceived
       && p.timeDecoded == f.timeDecoded && p.timePresented == f.timePresented
  }

  /** The i-th packet came with the i-th stamp returned. */
  ghost predicate PacketsAreOwn(b: Books) {
    && |b.coded| == |b.answers| == |b.emitted|
    && (forall i :: 0 <= i < |b.coded| ==> OwnMetadata(b.coded[i], b.answers[i], b.sent))
    && (forall i :: 0 <= i < |b.answers| ==> b.answers[i].Coded? && b.answers[i].pts == b.emitted[i])
    && (forall i, j :: 0 <= i < j < |b.emitted| ==> b.emitted[i] != b.emitted[j])
  }

  ghost predicate BooksBalance(b: Books) {
    // the mailbox loses, repeats and overtakes nothing, and neither does the packet queue
    && b.accepted == b.taken + b.mailbox && b.taken == b.sent + b.sending
    && b.coded == b.read + (b.queue + b.hand)
    && |b.mailbox| <= 1 && |b.sending| <= 1
    && PacketsAreOwn(b)
    && b.saved == Pending(b.sent, |b.sent|, ToSet(b.emitted), FramePts)
    && (forall k :: k in b.emitted ==> k < |b.sent|)
  }

  /** What a step does to the books, whichever thread takes it. */
  datatype Motion = Still | Accept(frame: Frame) | TakeOut | GiveToCodec | ReturnStamp(reply: CodecReply) | Queue | Hand

  ghost function Move(b: Books, m: Motion): Option<Books> {
    match m
    case Still => Some(b)
    case Accept(frame) =>
      if b.mailbox != [] then None else Some(b.(accepted := b.accepted + [frame], mailbox := [frame]))
    case TakeOut =>
      if b.sending != [] then None else Some(b.(taken := b.taken + b.mailbox, sending := b.mailbox, mailbox := []))
    case GiveToCodec =>
      if b.sending == [] then None
      else Some(b.(sending := [], sent := b.sent + b.sending,
                   saved := b.saved + [b.sending[0].GetOtherType(FramePts(|b.sent|))]))
    case ReturnStamp(reply) =>
      if !reply.Coded? || reply.pts >= |b.sent| || reply.pts in b.emitted || b.hand != []
         || TakeFirst(b.saved, reply.pts).Missing? then None
      else
        var found := TakeFirst(b.saved, reply.pts);
        var packet := PacketFrom(found.entry, reply);
        Some(b.(emitted := b.emitted + [reply.pts], answers := b.answers + [reply], saved := found.rest,
                coded := b.coded + [packet], hand := [packet]))
    case Queue => Some(b.(queue := b.queue + b.hand, hand := []))
    case Hand => if b.queue == [] then None else Some(b.(read := b.read + [b.queue[0]], queue := b.queue[1..]))
  }

  ghost function MotionOf(s: State, e: Event): Motion {
    match e
    case WorkerStep(reply) =>
      (match s.worker
       case Receive => if reply.Coded? then ReturnStamp(reply) else Still
       case FrameTake => TakeOut
       case Send(_) => GiveToCodec
       case AddPacket(_) => Queue
       case _ => Still)
    case PusherStep => if s.pusher.PusherPut? then Accept(s.pusher.frame) else Still
    case ReaderStep => if s.reader.ReaderTake? then Hand else Still
    case _ => Still
  }

  lemma StepMoves(s: State, e: Event)
    requires ProtocolInv(s) && ReplyMatches(s, e) && Step(s, e).Some?
    ensures Move(BooksOf(s), MotionOf(s, e)) == Some(BooksOf(Step(s, e).value))
  {
    match e
    case WorkerStep(reply) => WorkerMoves(s, reply);
    case PusherStep => PusherMoves(s);
    case ReaderStep => ReaderMoves(s);
    case _ =>
  }

  lemma PusherMoves(s: State)
    requires ProtocolInv(s) && PusherNext(s).Some?
    ensures Move(BooksOf(s), MotionOf(s, PusherStep)) == Some(BooksOf(PusherNext(s).value))
  {
  }

  lemma ReaderMoves(s: State)
    requires ProtocolInv(s) && ReaderNext(s).Some?
    ensures Move(BooksOf(s), MotionOf(s, ReaderStep)) == Some(BooksOf(ReaderNext(s).value))
  {
  }

  lemma WorkerMoves(s: State, reply: CodecReply)
    requires ProtocolInv(s) && ReplyMatches(s, WorkerStep(reply)) && WorkerNext(s, reply).Some?
    ensures Move(BooksOf(s), MotionOf(s, WorkerStep(reply))) == Some(BooksOf(WorkerNext(s, reply).value))
  {
    if s.worker.FrameFlag? || s.worker.FrameTake? || AwaitsFrame(s.worker) {
      WorkerMovesFrames(s, reply);
    } else {
      WorkerMovesPackets(s, reply);
    }
  }

  lemma WorkerMovesFrames(s: State, reply: CodecReply)
    requires ProtocolInv(s) && WorkerNext(s, reply).Some?
    requires s.worker.FrameFlag? || s.worker.FrameTake? || AwaitsFrame(s.worker)
    ensures Move(BooksOf(s), MotionOf(s, WorkerStep(reply))) == Some(BooksOf(WorkerNext(s, reply).value))
  {
  }

  lemma WorkerMovesPackets(s: State, reply: CodecReply)
    requires ProtocolInv(s) && ReplyMatches(s, WorkerStep(reply)) && WorkerNext(s, reply).Some?
    requires !s.worker.FrameFlag? && !s.worker.FrameTake? && !AwaitsFrame(s.worker)
    ensures Move(BooksOf(s), MotionOf(s, WorkerStep(reply))) == Some(BooksOf(WorkerNext(s, reply).value))
  {
  }

  lemma MoveKeepsBalance(b: Books, m: Motion)
    requires BooksBalance(b) && Move(b, m).Some?
    ensures BooksBalance(Move(b, m).value)
  {
    match m
    case Still =>
    case Accept(frame) =>
      assert b.accepted == b.taken;
    case TakeOut =>
      assert b.taken == b.sent;
    case GiveToCodec => GiveKeepsBalance(b);
    case ReturnStamp(reply) => ReturnKeepsBalance(b, reply);
    case Queue =>
      assert (b.queue + b.hand) + [] == b.queue + b.hand;
    case Hand => HeadMovesOver(b.read, b.queue, b.hand);
  }

  lemma HeadMovesOver(a: seq<Packet>, b: seq<Packet>, c: seq<Packet>)
    requires b != []
    ensures (a + [b[0]]) + (b[1..] + c) == a + (b + c)
  {
  }

  lemma GiveKeepsBalance(b: Books)
    requires BooksBalance(b) && Move(b, GiveToCodec).Some?
    ensures BooksBalance(Move(b, GiveToCodec).value)
  {
    var t := Move(b, GiveToCodec).value;
    assert t.sent == b.sent + [b.sending[0]];
    PendingAfterSend(b.sent, |b.sent|, b.sending[0], ToSet(b.emitted), FramePts);
    forall i | 0 <= i < |b.coded|
      ensures OwnMetadata(t.coded[i], t.answers[i], t.sent)
    {
      assert OwnMetadata(b.coded[i], b.answers[i], b.sent);
    }
  }

  lemma ReturnKeepsBalance(b: Books, reply: CodecReply)
    requires BooksBalance(b) && Move(b, ReturnStamp(reply)).Some?
    ensures BooksBalance(Move(b, ReturnStamp(reply)).value)
  {
    OwedStampIsFound(b.sent, b.emitted, reply.pts);
    var t := Move(b, ReturnStamp(reply)).value;
    assert t.coded == t.read + (t.queue + t.hand) by {
      assert b.queue + [] == b.queue;
    }
    forall i | 0 <= i < |t.coded|
      ensures OwnMetadata(t.coded[i], t.answers[i], t.sent)
    {
      if i < |b.coded| {
        assert OwnMetadata(b.coded[i], b.answers[i], b.sent);
      }
    }
  }

  // ---------- whole runs ----------

  ghost predicate Inv(s: State) { ProtocolInv(s) && BooksBalance(BooksOf(s)) }

  lemma InitiallyInv()
    ensures Inv(INITIAL) && CaughtStay(INITIAL)
  {
    assert Pending<int>([], 0, ToSet([]), FramePts) == [];
  }

  lemma StepKeepsInv(s: State, e: Event)
    requires Inv(s) && Step(s, e).Some?
    ensures Inv(Step(s, e).value)
  {
    if s.worker.Receive? && e.WorkerStep? && e.reply.Coded? && Owes(s, e.reply.pts) {
      OwedStampIsFound(s.sent, s.emitted, e.reply.pts);
    }
    StepKeepsProtocol(s, e);
    StepMoves(s, e);
    MoveKeepsBalance(BooksOf(s), MotionOf(s, e));
  }

  lemma {:induction false} RunKeepsInv(es: seq<Event>)
    requires RunFrom(INITIAL, es).Some?
    ensures Inv(RunFrom(INITIAL, es).value)
    ensures Calm(es) ==> CaughtStay(RunFrom(INITIAL, es).value)
  {
    InitiallyInv();
    if es != [] {
      var front, last := es[..|es| - 1], es[|es| - 1];
      var s := RunFrom(INITIAL, front).value;
      RunKeepsInv(front);
      StepKeepsInv(s, last);
      if Calm(es) {
        assert Calm(front) && !Spurious(last);
        StepKeepsCaught(s, last);
      }
    }
  }

  lemma ReachableInv(s: State)
    requires Reachable(s)
    ensures Inv(s)
  {
    var es :| RunFrom(INITIAL, es) == Some(s);
    RunKeepsInv(es);
  }

  // ---------- results ----------

  /** In every reachable state, whatever `stop` does, frames reach the codec exactly in the order they were accepted
      and packets reach the reader exactly in the order they were made. */
  lemma EncoderLosesNothing(s: State)
    requires Reachable(s)
    ensures s.sent <= s.taken <= s.accepted && |s.accepted| <= |s.taken| + 1 <= |s.sent| + 2
    ensures s.read <= s.coded
    ensures !s.worker.WorkerAborted? && !s.pusher.PusherAborted? && !s.reader.ReaderAborted?
  {
    ReachableInv(s);
  }

  /** In every reachable state, the i-th packet read holds what the codec returned the i-th time, with the metadata of
      the very frame accepted whose stamp came with it, in whatever order, and no frame makes two packets. */
  lemma ReadPacketsAreOwn(s: State, i: nat)
    requires Reachable(s) && i < |s.read|
    ensures |s.read| <= |s.answers| && OwnMetadata(s.read[i], s.answers[i], s.accepted)
    ensures forall j :: 0 <= j < i ==> s.answers[j].Coded? && s.answers[j].pts != s.answers[i].pts
  {
    ReachableInv(s);
    EncoderLosesNothing(s);
    assert s.read[i] == s.coded[i];
    assert OwnMetadata(s.coded[i], s.answers[i], s.sent);
  }

  ghost predicate Stuck(s: State) {
    && (forall reply :: WorkerNext(s, reply) == None)
    && PusherNext(s) == None && ReaderNext(s) == None && StopperNext(s) == None
  }

  /** When the threads come to rest after `stop` has returned, the worker, or the pusher, is left asleep for good
      exactly when `stop` notified it between its flag check and its wait; the reader exactly when that happened to
      it and the worker queued no packet afterwards. */
  lemma StrandedExactlyWhenCaught(s: State)
    requires CalmlyReachable(s) && Stuck(s) && s.stopper.Returned?
    ensures !s.worker.WorkerDone? <==> s.caughtWorker
    ensures !s.pusher.PusherIdle? <==> s.caughtPusher
    ensures !s.reader.ReaderIdle? <==> s.caughtReader && Queued(s) == s.noticed
  {
    var es :| Calm(es) && RunFrom(INITIAL, es) == Some(s);
    RunKeepsInv(es);
    assert WorkerNext(s, Eof) == None && WorkerNext(s, Again) == None;
  }

  /** At rest with a reader waiting, before `stop`: every frame accepted has been given to the codec, and every packet
      it made has been read. */
  lemma RestShowsEverything(s: State)
    requires Reachable(s) && Stuck(s)
    requires s.flagRun && s.worker != WorkerDone && s.reader == ReaderWait(false)
    ensures s.accepted == s.sent && s.read == s.coded
    ensures s.worker == FrameWait(false) && s.pusher == PusherIdle
  {
    ReachableInv(s);
    assert WorkerNext(s, Eof) == None && WorkerNext(s, Again) == None;
  }

  /** The worker ends by itself exactly when the codec is at its end or refuses the frame given to it. */
  lemma WorkerEndsExactly(s: State, reply: CodecReply)
    requires Reachable(s) && WorkerNext(s, reply).Some? && s.flagRun
    ensures WorkerNext(s, reply).value.worker.WorkerDone? <==> (s.worker.Receive? || s.worker.Send?) && reply.Eof?
  {
    ReachableInv(s);
  }

  // ---------- the window is real ----------

  lemma CalmStep(s: State, e: Event)
    requires CalmlyReachable(s) && !Spurious(e) && Step(s, e).Some?
    ensures CalmlyReachable(Step(s, e).value)
  {
    var es :| Calm(es) && RunFrom(INITIAL, es) == Some(s);
    assert (es + [e])[..|es|] == es;
    assert RunFrom(INITIAL, es + [e]) == Step(s, e);
  }

  lemma InitiallyCalm()
    ensures CalmlyReachable(INITIAL)
  {
    assert Calm([]) && RunFrom(INITIAL, []) == Some(INITIAL);
  }

  /** `stop` runs to completion. */
  function Stopped(s: State): State {
    s.(flagRun := false, stopper := Returned,
       caughtWorker := s.worker.FrameSleep?, caughtPusher := s.pusher.PusherSleep?,
       caughtReader := s.reader.ReaderSleep?, noticed := Queued(s))
  }

  lemma StopReaches(s: State)
    requires CalmlyReachable(s) && s.stopper.StopperIdle?
    requires !s.worker.FrameWait? && !s.pusher.PusherWait? && !s.reader.ReaderWait?
    ensures CalmlyReachable(Stopped(s))
  {
    CalmStep(s, StopCall);
    var s1 := s.(flagRun := false, stopper := NotifyFrames);
    CalmStep(s1, StopperStep);
    CalmStep(Step(s1, StopperStep).value, StopperStep);
    assert Step(Step(s1, StopperStep).value, StopperStep) == Some(Stopped(s));
  }

  /** The worker has seen an empty slot and a raised flag, `stop` runs to completion, and only then does the worker
      start to wait. */
  lemma StopCanStrandTheWorker() returns (s: State)
    ensures CalmlyReachable(s) && Stuck(s) && s.stopper.Returned? && s.worker == FrameWait(false)
  {
    var step := WorkerStep(Again);
    InitiallyCalm();
    CalmStep(INITIAL, step);
    CalmStep(INITIAL.(worker := Receive), step);
    CalmStep(INITIAL.(worker := WantFrame), step);
    CalmStep(INITIAL.(worker := FrameCheck, frameLock := Worker), step);
    var asleep := INITIAL.(worker := FrameSleep, frameLock := Worker);
    StopReaches(asleep);
    CalmStep(Stopped(asleep), step);
    s := Stopped(asleep).(worker := FrameWait(false), frameLock := Nobody);
  }

  /** The same with the reader, which no further packet wakes. */
  lemma StopCanStrandTheReader() returns (s: State)
    ensures CalmlyReachable(s) && Stuck(s) && s.stopper.Returned? && s.reader == ReaderWait(false)
  {
    ReaderComesToSleep();
    var asleep := INITIAL.(reader := ReaderSleep, packetLock := Reader);
    StopReaches(asleep);
    CalmStep(Stopped(asleep), ReaderStep);
    var waits := Stopped(asleep).(reader := ReaderWait(false), packetLock := Nobody);
    CalmStep(waits, WorkerStep(Again));
    s := waits.(worker := WorkerDone);
  }

  lemma ReaderComesToSleep()
    ensures CalmlyReachable(INITIAL.(reader := ReaderSleep, packetLock := Reader))
  {
    InitiallyCalm();
    CalmStep(INITIAL, ReaderCall);
    CalmStep(INITIAL.(reader := ReaderWant), ReaderStep);
    CalmStep(INITIAL.(reader := ReaderCheck, packetLock := Reader), ReaderStep);
  }

  /** The mailbox filled with one frame. */
  function Filled(frame: Frame): State { INITIAL.(nextFrame := Some(frame), accepted := [frame]) }

  lemma MailboxFills(frame: Frame)
    ensures CalmlyReachable(Filled(frame))
  {
    InitiallyCalm();
    PusherChecks(INITIAL, frame);
    var checked := INITIAL.(pusher := PusherCheck(frame), frameLock := Pusher);
    CalmStep(checked, PusherStep);
    CalmStep(checked.(pusher := PusherFlag(frame)), PusherStep);
    var puts := checked.(pusher := PusherPut(frame));
    CalmStep(puts, PusherStep);
    assert [] + [frame] == [frame];
    assert Step(puts, PusherStep) == Some(Filled(frame));
  }

  lemma PusherChecks(s: State, frame: Frame)
    requires CalmlyReachable(s) && s.pusher.PusherIdle? && s.frameLock.Nobody?
    ensures CalmlyReachable(s.(pusher := PusherCheck(frame), frameLock := Pusher))
  {
    CalmStep(s, PusherCall(frame));
    CalmStep(s.(pusher := PusherWant(frame)), PusherStep);
  }

  /** The same with the pusher, which found the mailbox filled. */
  lemma StopCanStrandThePusher(frame: Frame) returns (s: State)
    ensures CalmlyReachable(s) && Stuck(s) && s.stopper.Returned? && s.pusher == PusherWait(frame, false)
  {
    MailboxFills(frame);
    var full := Filled(frame);
    PusherChecks(full, frame);
    CalmStep(full.(pusher := PusherCheck(frame), frameLock := Pusher), PusherStep);
    var asleep := full.(pusher := PusherSleep(frame), frameLock := Pusher);
    StopReaches(asleep);
    CalmStep(Stopped(asleep), PusherStep);
    var waits := Stopped(asleep).(pusher := PusherWait(frame, false), frameLock := Nobody);
    CalmStep(waits, WorkerStep(Again));
    s := waits.(worker := WorkerDone);
  }

  // ---------- a frame goes through ----------

  function Given(frame: Frame): State {
    Filled(frame).(nextFrame := None, taken := [frame], sent := [frame], saved := [frame.GetOtherType(FramePts(0))])
  }

  function Giving(frame: Frame): State {
    Filled(frame).(nextFrame := None, taken := [frame], worker := Send(frame))
  }

  lemma FrameIsTaken(frame: Frame)
    ensures CalmlyReachable(Giving(frame))
  {
    var step := WorkerStep(Again);
    MailboxFills(frame);
    var s := Filled(frame);
    CalmStep(s, step);
    CalmStep(s.(worker := Receive), step);
    CalmStep(s.(worker := WantFrame), step);
    CalmStep(s.(worker := FrameCheck, frameLock := Worker), step);
    CalmStep(s.(worker := FrameFlag, frameLock := Worker), step);
    var takes := s.(worker := FrameTake, frameLock := Worker);
    CalmStep(takes, step);
    assert [] + [frame] == [frame];
    assert Step(takes, step) == Some(Giving(frame));
  }

  lemma FrameIsGiven(frame: Frame)
    ensures CalmlyReachable(Given(frame))
  {
    FrameIsTaken(frame);
    CalmStep(Giving(frame), WorkerStep(Again));
    assert [] + [frame] == [frame];
    assert [] + [frame.GetOtherType(FramePts(0))] == [frame.GetOtherType(FramePts(0))];
    assert Step(Giving(frame), WorkerStep(Again)) == Some(Given(frame));
  }

  function Made(frame: Frame, reply: CodecReply): State
    requires reply.Coded?
  {
    var packet := PacketFrom(frame.GetOtherType(FramePts(0)), reply);
    Given(frame).(saved := [], emitted := [0], answers := [reply], coded := [packet], packetQueue := [packet])
  }

  lemma PacketIsFound(frame: Frame, reply: CodecReply)
    requires reply.Coded? && reply.pts == 0
    ensures var t := Made(frame, reply);
      Step(Given(frame).(worker := Receive), WorkerStep(reply))
        == Some(t.(packetQueue := [], worker := WantPacket(t.coded[0])))
  {
    var entry := frame.GetOtherType(FramePts(0));
    assert TakeFirst([entry], 0) == Found(entry, []) by {
      assert [entry][1..] == [];
    }
    assert [] + [0] == [0] && [] + [reply] == [reply] && [] + [PacketFrom(entry, reply)] == [PacketFrom(entry, reply)];
  }

  lemma PacketIsMade(frame: Frame, reply: CodecReply)
    requires reply.Coded? && reply.pts == 0
    ensures CalmlyReachable(Made(frame, reply))
  {
    FrameIsGiven(frame);
    PacketIsFound(frame, reply);
    var s, t := Given(frame), Made(frame, reply);
    var packet := t.coded[0];
    CalmStep(s, WorkerStep(reply));
    CalmStep(s.(worker := Receive), WorkerStep(reply));
    var adds := t.(packetQueue := [], worker := WantPacket(packet));
    CalmStep(adds, WorkerStep(Again));
    CalmStep(adds.(worker := AddPacket(packet), packetLock := Worker), WorkerStep(Again));
    assert [] + [packet] == [packet];
    assert Step(adds.(worker := AddPacket(packet), packetLock := Worker), WorkerStep(Again)) == Some(t);
  }

  /** For every frame and every answer of the codec: a run in which the frame is accepted and its packet is read. */
  lemma FrameGoesThrough(frame: Frame, reply: CodecReply) returns (s: State)
    requires reply.Coded? && reply.pts == 0
    ensures CalmlyReachable(s) && s.accepted == [frame] && |s.read| == 1 && OwnMetadata(s.read[0], reply, [frame])
    ensures s.flagRun && s.worker.Top? && s.pusher.PusherIdle? && s.reader.ReaderIdle?
  {
    PacketIsMade(frame, reply);
    var t := Made(frame, reply);
    CalmStep(t, ReaderCall);
    CalmStep(t.(reader := ReaderWant), ReaderStep);
    CalmStep(t.(reader := ReaderCheck, packetLock := Reader), ReaderStep);
    CalmStep(t.(reader := ReaderFlag, packetLock := Reader), ReaderStep);
    var takes := t.(reader := ReaderTake, packetLock := Reader);
    CalmStep(takes, ReaderStep);
    s := Step(takes, ReaderStep).value;
  }
}
