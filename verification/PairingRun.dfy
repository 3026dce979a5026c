/** Client, server and user together, over every run of an undisturbed connection. */
module PairingRuns {
  import opened Prelude
  import opened Wire
  import opened Commitments
  import opened PinCode
  import opened Connections
  import opened StreamClients

  /** One connection attempt: what both sides were configured with and what they thought of the
      other's certificate when it was made. */
  datatype World = World(
    env: Setup, cfg: ClientSetup, verified: bool, known: seq<CertHashes.CertHash>,
    forceAuth: bool, hostHash: CertHashes.CertHash)

  /** Each side sees the certificate the other sent, nothing foreign fails, and the native mode is usable. */
  ghost predicate Honest(w: World) {
    && w.cfg.hashes == w.env.hashes
    && w.cfg.serverCert == w.env.serverCert && w.cfg.clientCert == w.env.clientCert
    && ValidHashes(w.env.hashes)
    && (forall b: Bytes :: w.env.hashes.sha384(b).Hashed?)
    && (forall b: Bytes :: w.env.hashes.sha512(b).Hashed?)
    && w.cfg.rngOk && |w.cfg.nonce| >= 16
    && Positive(w.env.native)
  }

  /** `taken` counts the client's packets the server has taken, `got` the server's packets the client has. */
  datatype System = System(client: Client, server: Server, taken: nat, got: nat)

  datatype Move =
    | ServerTakes(nonce: Bytes, now: int)
    | ClientTakes
    | UserTypes(line: string)

  function Start(w: World): System {
    System(Boot(w.forceAuth, w.hostHash), Connections.Connected(w.verified, w.known), 0, 0)
  }

  /** The displayed PIN with blanks anywhere, short enough for the line buffer. */
  predicate Copies(line: string, pin: int) {
    0 <= pin < PIN_COUNT && |line| <= 254 && Squeeze(line) == Squeeze(DisplayPin(pin))
  }

  function TakeEvent(s: System, nonce: Bytes, now: int): Event
    requires s.taken < |s.client.outbox|
  {
    Recv(s.client.outbox[s.taken], nonce, true, true, true, now)
  }

  /** None when the move is not possible. */
  function Next(w: World, s: System, m: Move): Option<System> {
    match m
    case ServerTakes(nonce, now) =>
      if |nonce| < 16 || s.taken >= |s.client.outbox| then None
      else
        (match Step(w.env, s.server, TakeEvent(s, nonce, now))
         case None => None
         case Some(t) => Some(s.(server := t, taken := s.taken + 1)))
    case ClientTakes =>
      if !Waiting(s.client.phase) || s.got >= |s.server.outbox| then None
      else Some(s.(client := OnReply(w.cfg, s.client, s.server.outbox[s.got]), got := s.got + 1))
    case UserTypes(line) =>
      if s.client.shown.None? || !Copies(line, s.client.shown.value) then None
      else
        match Step(w.env, s.server, PinLine(line))
        case None => None
        case Some(t) => Some(s.(server := t))
  }

  function Run(w: World, moves: seq<Move>): Option<System> {
    if moves == [] then Some(Start(w))
    else
      match Run(w, moves[..|moves| - 1])
      case None => None
      case Some(s) => Next(w, s, moves[|moves| - 1])
  }

  // ---------- the invariant ----------

  /** The client's packet is on its way, and nothing else is. */
  predicate Asked(s: System, req: Packet) {
    |s.client.outbox| == s.taken + 1 && s.client.outbox[s.taken] == req && s.got == |s.server.outbox|
  }

  /** The server's packet is on its way, and nothing else is. */
  predicate Told(s: System, body: Body) {
    && s.taken == |s.client.outbox| && |s.server.outbox| == s.got + 1
    && s.server.outbox[s.got] == Plain(body)
  }

  predicate ToldWith(s: System, body: Body, extra: Bytes) {
    && s.taken == |s.client.outbox| && |s.server.outbox| == s.got + 1
    && s.server.outbox[s.got] == WithExtra(body, extra)
  }

  predicate Silent(s: System) { s.taken == |s.client.outbox| && s.got == |s.server.outbox| }

  function AuthNeeded(w: World): bool { w.forceAuth || !w.verified }

  function Commitment(w: World): Option<Bytes> {
    PartialHash(w.cfg.hashes, w.cfg.serverCert, w.cfg.clientCert, w.cfg.nonce)
  }

  /** The server remembers the client's request. */
  predicate Opened(w: World, t: Server) {
    && t.authState.Some?
    && var a := t.authState.value;
    && a.serverCert == w.env.serverCert && a.clientCert == w.env.clientCert
    && |a.clientNonce| == |w.cfg.nonce| && |a.nonce| >= 16
    && Some(a.clientPartialHash) == Commitment(w)
  }

  /** The server knows both nonces. */
  predicate Revealed(w: World, t: Server) { Opened(w, t) && t.authState.value.clientNonce == w.cfg.nonce }

  /** The list of known clients once this one is paired. */
  function WithClient(w: World): seq<CertHashes.CertHash> {
    w.known + [CertHashes.Digest(w.env.hashes.sha256, CertHashes.SHA256, w.env.clientCert)]
  }

  predicate Paired(w: World, s: System) {
    && s.client.hostHash == CertHashes.Digest(w.cfg.hashes.sha256, CertHashes.SHA256, w.cfg.serverCert)
    && s.server.known == WithClient(w)
  }

  /** A PIN was shown exactly if authentication was needed, and then both sides know each other. */
  predicate Admitted(w: World, s: System) {
    && s.server.authorized
    && (s.client.shown.Some? <==> AuthNeeded(w))
    && (if AuthNeeded(w) then Paired(w, s) else s.client.hostHash == w.hostHash && s.server.known == w.known)
  }

  predicate BeforePin(w: World, s: System) {
    && s.client.shown.None? && s.server.authorized == w.verified
    && s.client.hostHash == w.hostHash && s.server.known == w.known
  }

  predicate InIntro(w: World, s: System) {
    && BeforePin(w, s) && s.client.phase == AwaitIntro(w.forceAuth) && s.server.authState.None? && !s.server.awaitingPin
    && (Asked(s, Plain(ClientIntro(PROTOCOL_VERSION)))
        || Told(s, ServerIntro(PROTOCOL_VERSION, if w.verified then INTRO_OK else AUTH_REQUIRED)))
  }

  predicate InCommit(w: World, s: System) {
    && BeforePin(w, s) && AuthNeeded(w) && Commitment(w).Some? && !s.server.awaitingPin
    && (Asked(s, WithExtra(AuthRequest(|w.cfg.nonce|, "localhost"), Commitment(w).value))
        || (Opened(w, s.server) && s.taken == |s.client.outbox| && |s.server.outbox| == s.got + 1
            && s.server.outbox[s.got].body.ServerPartialHashNotify? && s.server.outbox[s.got].body.nonceLen >= 16))
  }

  predicate InReveal(w: World, s: System) {
    && BeforePin(w, s) && AuthNeeded(w) && Opened(w, s.server)
    && (if s.server.awaitingPin then
          Revealed(w, s.server) && ToldWith(s, ServerNonceNotify, s.server.authState.value.nonce)
        else
          Asked(s, WithExtra(ClientNonceNotify, w.cfg.nonce)))
  }

  predicate InPrompt(w: World, s: System) {
    && AuthNeeded(w) && s.client.shown.Some? && 0 <= s.client.shown.value < PIN_COUNT
    && Revealed(w, s.server) && TruePin(w.env, s.server.authState.value) == s.client.shown.value
    && (if s.server.awaitingPin then
          Silent(s) && s.server.known == w.known
        else
          Told(s, AuthResponse(AUTH_OK)) && s.server.authorized && s.server.known == WithClient(w))
  }

  predicate InCaps(w: World, s: System) {
    && Admitted(w, s) && !s.server.awaitingPin
    && (Asked(s, Plain(QueryHostCapsRequest(H264_BASELINE)))
        || Told(s, QueryHostCapsResponse(CAPS_OK, w.env.native)))
  }

  function NativeSize(w: World): (int, int) { (w.env.native.width, w.env.native.height) }

  predicate InConfigure(w: World, s: System) {
    && Admitted(w, s) && !s.server.awaitingPin
    && (Asked(s, Plain(ConfigureStreamRequest(H264_BASELINE, w.env.native)))
        || Told(s, ConfigureStreamResponse(CONFIGURE_OK, NativeSize(w), NativeSize(w))))
  }

  predicate InStart(w: World, s: System) {
    && Admitted(w, s) && !s.server.awaitingPin && s.client.capture == s.client.video == NativeSize(w)
    && (Asked(s, Plain(StartStreamRequest)) || (Told(s, StartStreamResponse(START_OK)) && s.server.streaming))
  }

  predicate Done(w: World, s: System) {
    && Admitted(w, s) && !s.server.awaitingPin && s.client.capture == s.client.video == NativeSize(w)
    && Silent(s) && s.server.streaming
  }

  predicate Inv(w: World, s: System) {
    && s.client.carried == 0
    && (!s.client.phase.AwaitStart? && !s.client.phase.Connected? ==> !s.server.streaming)
    && (s.client.phase.AwaitStart? && s.taken < |s.client.outbox| ==> !s.server.streaming)
    && match s.client.phase
       case AwaitIntro(_) => InIntro(w, s)
       case AwaitPartialHash => InCommit(w, s)
       case AwaitServerNonce => InReveal(w, s)
       case AwaitAuthResponse => InPrompt(w, s)
       case AwaitCaps => InCaps(w, s)
       case AwaitConfigure => InConfigure(w, s)
       case AwaitStart => InStart(w, s)
       case Connected => Done(w, s)
       case _ => false
  }

  function PhaseRank(p: Phase): nat {
    match p
    case AwaitIntro(_) => 7
    case AwaitPartialHash => 6
    case AwaitServerNonce => 5
    case AwaitAuthResponse => 4
    case AwaitCaps => 3
    case AwaitConfigure => 2
    case AwaitStart => 1
    case _ => 0
  }

  /** Moves still possible, at most. */
  function Rank(s: System): nat { 2 * PhaseRank(s.client.phase) + (if s.got < |s.server.outbox| then 0 else 1) }

  // ---------- steps ----------

  predicate Advances(w: World, s: System, t: System) { Inv(w, t) && Rank(t) < Rank(s) }

  lemma CommitmentExists(w: World)
    requires Honest(w)
    ensures Commitment(w).Some? && |Commitment(w).value| == 48
  {
  }

  lemma PinInRange(w: World, serverNonce: Bytes)
    requires Honest(w)
    ensures 0 <= ComputePin(w.cfg.hashes, w.cfg.serverCert, w.cfg.clientCert, serverNonce, w.cfg.nonce) < PIN_COUNT
  {
    var payload := w.cfg.serverCert + w.cfg.clientCert + serverNonce + w.cfg.nonce;
    assert w.env.hashes.sha512(payload).Hashed?;
  }

  lemma ServerIntroduces(w: World, s: System, nonce: Bytes, now: int)
    requires Honest(w) && Inv(w, s) && s.client.phase.AwaitIntro? && Next(w, s, ServerTakes(nonce, now)).Some?
    ensures Advances(w, s, Next(w, s, ServerTakes(nonce, now)).value)
  {
  }

  lemma ServerOpens(w: World, s: System, nonce: Bytes, now: int)
    requires Honest(w) && Inv(w, s) && s.client.phase.AwaitPartialHash? && Next(w, s, ServerTakes(nonce, now)).Some?
    ensures Advances(w, s, Next(w, s, ServerTakes(nonce, now)).value)
  {
    CommitmentExists(w);
    assert w.env.hashes.sha384(w.env.serverCert + w.env.clientCert + nonce).Hashed?;
  }

  lemma ServerReveals(w: World, s: System, nonce: Bytes, now: int)
    requires Honest(w) && Inv(w, s) && s.client.phase.AwaitServerNonce? && Next(w, s, ServerTakes(nonce, now)).Some?
    ensures Advances(w, s, Next(w, s, ServerTakes(nonce, now)).value)
  {
    CommitmentExists(w);
  }

  lemma ServerAnswers(w: World, s: System, nonce: Bytes, now: int)
    requires Honest(w) && Inv(w, s) && PhaseRank(s.client.phase) <= 4 && Next(w, s, ServerTakes(nonce, now)).Some?
    ensures Advances(w, s, Next(w, s, ServerTakes(nonce, now)).value)
  {
  }

  lemma ClientBegins(w: World, s: System)
    requires Honest(w) && Inv(w, s) && PhaseRank(s.client.phase) >= 6 && Next(w, s, ClientTakes).Some?
    ensures Advances(w, s, Next(w, s, ClientTakes).value)
  {
    CommitmentExists(w);
  }

  lemma ClientShowsPin(w: World, s: System)
    requires Honest(w) && Inv(w, s) && s.client.phase.AwaitServerNonce? && Next(w, s, ClientTakes).Some?
    ensures Advances(w, s, Next(w, s, ClientTakes).value)
  {
    PinInRange(w, s.server.authState.value.nonce);
  }

  lemma ClientGoesOn(w: World, s: System)
    requires Honest(w) && Inv(w, s) && PhaseRank(s.client.phase) <= 4 && Next(w, s, ClientTakes).Some?
    ensures Advances(w, s, Next(w, s, ClientTakes).value)
  {
  }

  lemma UserIsAccepted(w: World, s: System, line: string)
    requires Honest(w) && Inv(w, s) && Next(w, s, UserTypes(line)).Some?
    ensures Advances(w, s, Next(w, s, UserTypes(line)).value)
  {
    DisplayedPinIsRead(s.client.shown.value, line);
  }

  lemma MoveAdvances(w: World, s: System, m: Move)
    requires Honest(w) && Inv(w, s) && Next(w, s, m).Some?
    ensures Advances(w, s, Next(w, s, m).value)
  {
    var rank := PhaseRank(s.client.phase);
    match m
    case ServerTakes(nonce, now) =>
      if rank == 7 { ServerIntroduces(w, s, nonce, now); }
      else if rank == 6 { ServerOpens(w, s, nonce, now); }
      else if rank == 5 { ServerReveals(w, s, nonce, now); }
      else { ServerAnswers(w, s, nonce, now); }
    case ClientTakes =>
      if rank >= 6 { ClientBegins(w, s); }
      else if rank == 5 { ClientShowsPin(w, s); }
      else { ClientGoesOn(w, s); }
    case UserTypes(line) => UserIsAccepted(w, s, line);
  }

  lemma {:induction false} RunKeepsInv(w: World, moves: seq<Move>)
    requires Honest(w) && Run(w, moves).Some?
    ensures Inv(w, Run(w, moves).value) && |moves| + Rank(Run(w, moves).value) <= 15
  {
    if moves != [] {
      var front := moves[..|moves| - 1];
      RunKeepsInv(w, front);
      MoveAdvances(w, Run(w, front).value, moves[|moves| - 1]);
    }
  }

  /** The move that is due: the server's, the user's or the client's. */
  function DueMove(w: World, s: System): Move {
    if s.got < |s.server.outbox| then ClientTakes
    else if s.taken < |s.client.outbox| then ServerTakes(seq(32, _ => 0), 0)
    else UserTypes(if s.client.shown.Some? && 0 <= s.client.shown.value < PIN_COUNT
                   then DisplayPin(s.client.shown.value) + "\n" else "")
  }

  lemma SomethingCanHappen(w: World, s: System)
    requires Inv(w, s) && !s.client.phase.Connected?
    ensures Next(w, s, DueMove(w, s)).Some?
  {
    if s.client.phase.AwaitAuthResponse? {
      SqueezeOfConcat(DisplayPin(s.client.shown.value), "\n");
    }
  }

  lemma NothingLeft(w: World, s: System, m: Move)
    requires Inv(w, s) && s.client.phase.Connected?
    ensures Next(w, s, m).None?
  {
  }

  // ---------- results ----------

  /** Honest pairing completes: no run fails, none takes more than fourteen moves, and the runs that can go no
      further are exactly those in which the client is connected. */
  lemma PairingCompletes(w: World, moves: seq<Move>)
    requires Honest(w) && Run(w, moves).Some?
    ensures var s := Run(w, moves).value;
      && !s.client.phase.Failed? && !s.client.phase.Quit?
      && |moves| <= 14
      && (s.client.phase.Connected? <==> forall m :: Next(w, s, m).None?)
  {
    RunKeepsInv(w, moves);
    var s := Run(w, moves).value;
    if s.client.phase.Connected? {
      forall m {
        NothingLeft(w, s, m);
      }
    } else {
      SomethingCanHappen(w, s);
    }
  }

  /** How a connected run ends: the server streams to an authorised client in the native mode. A PIN was shown
      exactly if one side did not know the other, and then each has stored the other's hash. */
  lemma ConnectedMeansAdmitted(w: World, moves: seq<Move>)
    requires Honest(w) && Run(w, moves).Some? && Run(w, moves).value.client.phase.Connected?
    ensures var s := Run(w, moves).value;
      && s.server.authorized && s.server.streaming
      && s.client.capture == s.client.video == NativeSize(w)
      && (s.client.shown.Some? <==> w.forceAuth || !w.verified)
      && (s.client.shown.Some? ==> Paired(w, s))
  {
    RunKeepsInv(w, moves);
  }

  /** Whenever both sides know a PIN it is the same one, and the client can print it. */
  lemma BothSidesDeriveOnePin(w: World, moves: seq<Move>)
    requires Honest(w) && Run(w, moves).Some?
    ensures var s := Run(w, moves).value;
      s.client.shown.Some? && s.server.awaitingPin ==>
        && s.server.authState.Some?
        && s.client.shown.value == TruePin(w.env, s.server.authState.value)
        && 0 <= s.client.shown.value < PIN_COUNT
  {
    RunKeepsInv(w, moves);
  }

  /** The second connection starts from what the first one stored, written out and read back. */
  ghost predicate Reconnects(
    w: World, s: System, again: World, server: CertHashes.Verdict, client: CertHashes.Verdict)
  {
    && again.cfg.serverCert == w.cfg.serverCert && again.env.clientCert == w.env.clientCert
    && again.cfg.hashes.sha256 == again.env.hashes.sha256 == w.env.hashes.sha256
    && CertHashes.FromRepr(CertHashes.GetRepr(s.client.hostHash)) == Some(again.hostHash)
    && CertHashes.Loaded(CertHashes.Saved(s.server.known)) == Some(again.known)
    && (again.verified <==> CertHashes.Recognised(w.env.hashes.sha256, client, again.known, w.env.clientCert))
    && (again.forceAuth <==>
          !CertHashes.IsValid(again.hostHash)
          || !CertHashes.Recognised(w.env.hashes.sha256, server, [again.hostHash], w.cfg.serverCert))
  }

  /** Once paired, both sides recognise each other: the next connection needs no PIN and no run of it shows one. */
  lemma PairedReconnectsWithoutPin(
    w: World, moves: seq<Move>, again: World, later: seq<Move>, server: CertHashes.Verdict, client: CertHashes.Verdict)
    requires Honest(w) && AuthNeeded(w) && (forall h :: h in w.known ==> CertHashes.IsValid(h))
    requires Run(w, moves).Some? && Run(w, moves).value.client.phase.Connected?
    requires !server.OtherFlaw? && !client.OtherFlaw?
    requires Reconnects(w, Run(w, moves).value, again, server, client)
    requires Honest(again) && Run(again, later).Some?
    ensures again.verified && !again.forceAuth
    ensures Run(again, later).value.client.shown.None?
  {
    ConnectedMeansAdmitted(w, moves);
    var s := Run(w, moves).value;
    CertHashes.ReprRoundTrip(s.client.hostHash);
    assert s.client.hostHash in [again.hostHash];
    CertHashes.SavedListIsLoaded(WithClient(w));
    assert again.known == WithClient(w);
    assert WithClient(w)[|w.known|] in again.known;
    assert !AuthNeeded(again);
    RunKeepsInv(again, later);
  }
}
