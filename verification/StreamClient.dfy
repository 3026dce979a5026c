/** The client's half of the handshake: a script over one reused packet. */
module StreamClients {
  import opened Prelude
  import opened Wire
  import opened Commitments
  import CertHashes

  /** Where the script waits for the next packet, or how it ended. `Quit` is the end of the program. */
  datatype Phase =
    | AwaitIntro(forceAuth: bool)
    | AwaitPartialHash
    | AwaitServerNonce
    | AwaitAuthResponse
    | AwaitCaps
    | AwaitConfigure
    | AwaitStart
    | Connected
    | Failed
    | Quit

  /** What stays fixed: the certificates as the client sees them and the nonce it will draw. */
  datatype ClientSetup = ClientSetup(hashes: Hashes, serverCert: Bytes, clientCert: Bytes, nonce: Bytes, rngOk: bool)

  /** `carried` is the extra data length left in the introduction's packet by the last receive. */
  datatype Client = Client(
    phase: Phase, carried: int, shown: Option<int>, hostHash: CertHashes.CertHash,
    capture: (int, int), video: (int, int), outbox: seq<Packet>)

  predicate Waiting(p: Phase) { !p.Connected? && !p.Failed? && !p.Quit? }

  function Boot(forceAuth: bool, hostHash: CertHashes.CertHash): Client {
    Client(AwaitIntro(forceAuth), 0, None, hostHash, (-1, -1), (-1, -1), [Plain(ClientIntro(PROTOCOL_VERSION))])
  }

  /** Sends without extra data. The reused packet still declares the length it was received with; anything
      but zero ends the program. */
  function Request(c: Client, body: Body, next: Phase): Client {
    c.(outbox := c.outbox + [Packet(c.carried, body, [])], phase := if c.carried == 0 then next else Quit)
  }

  function StartAuth(cfg: ClientSetup, c: Client): Client {
    if !cfg.rngOk then c.(phase := Quit)
    else
      match PartialHash(cfg.hashes, cfg.serverCert, cfg.clientCert, cfg.nonce)
      case None => c.(phase := Quit)
      case Some(hash) =>
        c.(outbox := c.outbox + [WithExtra(AuthRequest(|cfg.nonce|, "localhost"), hash)], phase := AwaitPartialHash)
  }

  function AskCaps(c: Client): Client { Request(c, QueryHostCapsRequest(H264_BASELINE), AwaitCaps) }

  function OnIntro(cfg: ClientSetup, c: Client, forceAuth: bool, pkt: Packet): Client {
    if !pkt.body.ServerIntro? || pkt.body.introStatus.VERSION_MISMATCH? then c.(phase := Quit)
    else
      var greeted := c.(carried := pkt.extraLen);
      if forceAuth || pkt.body.introStatus.AUTH_REQUIRED? then StartAuth(cfg, greeted) else AskCaps(greeted)
  }

  function OnPartialHash(cfg: ClientSetup, c: Client, pkt: Packet): Client {
    if !pkt.body.ServerPartialHashNotify? || pkt.body.nonceLen < 16 then c.(phase := Failed)
    else c.(outbox := c.outbox + [WithExtra(ClientNonceNotify, cfg.nonce)], phase := AwaitServerNonce)
  }

  /** What a receive leaves in a buffer that was empty: it stays so if the packet has no extra data. */
  function ExtraIn(pkt: Packet): Bytes { if pkt.extraLen > 0 then pkt.extra else [] }

  function OnServerNonce(cfg: ClientSetup, c: Client, pkt: Packet): Client {
    var pin := ComputePin(cfg.hashes, cfg.serverCert, cfg.clientCert, ExtraIn(pkt), cfg.nonce);
    if !pkt.body.ServerNonceNotify? || pin < 0 then c.(phase := Failed)
    else c.(shown := Some(pin), phase := AwaitAuthResponse)
  }

  function OnAuthResponse(cfg: ClientSetup, c: Client, pkt: Packet): Client {
    if !pkt.body.AuthResponse? || !pkt.body.authStatus.AUTH_OK? then c.(phase := Failed)
    else AskCaps(c.(hostHash := CertHashes.Digest(cfg.hashes.sha256, CertHashes.SHA256, cfg.serverCert)))
  }

  function OnCaps(c: Client, pkt: Packet): Client {
    if !pkt.body.QueryHostCapsResponse? || !pkt.body.capsStatus.CAPS_OK? then c.(phase := Quit)
    else Request(c.(carried := pkt.extraLen), ConfigureStreamRequest(H264_BASELINE, pkt.body.native), AwaitConfigure)
  }

  function OnConfigured(c: Client, pkt: Packet): Client {
    if !pkt.body.ConfigureStreamResponse? || !pkt.body.configureStatus.CONFIGURE_OK? then c.(phase := Quit)
    else
      Request(c.(carried := pkt.extraLen, capture := pkt.body.capture, video := pkt.body.video),
              StartStreamRequest, AwaitStart)
  }

  function OnStarted(c: Client, pkt: Packet): Client {
    if !pkt.body.StartStreamResponse? then c.(phase := Quit)
    else c.(phase := if pkt.body.startStatus.START_OK? then Connected else Failed)
  }

  /** The script's answer to the packet it waits for. */
  function OnReply(cfg: ClientSetup, c: Client, pkt: Packet): Client {
    match c.phase
    case AwaitIntro(forceAuth) => OnIntro(cfg, c, forceAuth, pkt)
    case AwaitPartialHash => OnPartialHash(cfg, c, pkt)
    case AwaitServerNonce => OnServerNonce(cfg, c, pkt)
    case AwaitAuthResponse => OnAuthResponse(cfg, c, pkt)
    case AwaitCaps => OnCaps(c, pkt)
    case AwaitConfigure => OnConfigured(c, pkt)
    case AwaitStart => OnStarted(c, pkt)
    case _ => c
  }

  /** The script over the packets the connection still delivers before it goes down. */
  function Converse(cfg: ClientSetup, c: Client, replies: seq<Packet>): Client
    decreases |replies|
  {
    if !Waiting(c.phase) then c
    else if replies == [] then c.(phase := Failed)
    else Converse(cfg, OnReply(cfg, c, replies[0]), replies[1..])
  }

  lemma ScriptGoesOn(cfg: ClientSetup, c: Client, pkt: Packet, rest: seq<Packet>)
    requires Waiting(c.phase)
    ensures Converse(cfg, c, [pkt] + rest) == Converse(cfg, OnReply(cfg, c, pkt), rest)
    ensures var next := OnReply(cfg, c, pkt); !Waiting(next.phase) ==> Converse(cfg, next, rest) == next
  {
    assert ([pkt] + rest)[1..] == rest;
  }

  // ---------- what the client can be brought to ----------

  function OwnHash(cfg: ClientSetup): CertHashes.CertHash {
    CertHashes.Digest(cfg.hashes.sha256, CertHashes.SHA256, cfg.serverCert)
  }

  /** The PIN that the nonce in a packet gives. */
  function PinFrom(cfg: ClientSetup, pkt: Packet): int {
    ComputePin(cfg.hashes, cfg.serverCert, cfg.clientCert, ExtraIn(pkt), cfg.nonce)
  }

  /** The first reply is a greeting after which the client asks to be authenticated, and can. */
  predicate AsksAuth(cfg: ClientSetup, forceAuth: bool, replies: seq<Packet>) {
    && |replies| >= 1 && replies[0].body.ServerIntro? && !replies[0].body.introStatus.VERSION_MISMATCH?
    && (forceAuth || replies[0].body.introStatus.AUTH_REQUIRED?)
    && cfg.rngOk && PartialHash(cfg.hashes, cfg.serverCert, cfg.clientCert, cfg.nonce).Some?
  }

  /** The second announces a nonce of at least 16 bytes. */
  predicate Promises(cfg: ClientSetup, forceAuth: bool, replies: seq<Packet>) {
    && AsksAuth(cfg, forceAuth, replies) && |replies| >= 2
    && replies[1].body.ServerPartialHashNotify? && replies[1].body.nonceLen >= 16
  }

  /** A nonce from which a PIN can be computed. */
  predicate NonceFirst(cfg: ClientSetup, replies: seq<Packet>) {
    |replies| >= 1 && replies[0].body.ServerNonceNotify? && PinFrom(cfg, replies[0]) >= 0
  }

  predicate NonceApproved(cfg: ClientSetup, replies: seq<Packet>) {
    NonceFirst(cfg, replies) && |replies| >= 2 && replies[1].body == AuthResponse(AUTH_OK)
  }

  /** The third is such a nonce. */
  predicate GivesPin(cfg: ClientSetup, forceAuth: bool, replies: seq<Packet>) {
    Promises(cfg, forceAuth, replies) && NonceFirst(cfg, replies[2..])
  }

  /** The fourth is an approval. */
  predicate Approves(cfg: ClientSetup, forceAuth: bool, replies: seq<Packet>) {
    Promises(cfg, forceAuth, replies) && NonceApproved(cfg, replies[2..])
  }

  predicate PastAuth(p: Phase) {
    p.AwaitCaps? || p.AwaitConfigure? || p.AwaitStart? || !Waiting(p)
  }

  /** Behind the authentication nothing changes the PIN shown or the hash stored. */
  lemma {:induction false} NegotiationKeepsTrust(cfg: ClientSetup, c: Client, replies: seq<Packet>)
    requires PastAuth(c.phase)
    ensures var end := Converse(cfg, c, replies); end.shown == c.shown && end.hostHash == c.hostHash
    decreases |replies|
  {
    if Waiting(c.phase) && replies != [] {
      NegotiationKeepsTrust(cfg, OnReply(cfg, c, replies[0]), replies[1..]);
    }
  }

  /** From the nonce on: what is shown and stored is decided by the next two replies. */
  lemma VerdictDecides(cfg: ClientSetup, c: Client, replies: seq<Packet>)
    requires c.phase.AwaitServerNonce?
    ensures var end := Converse(cfg, c, replies);
      && end.shown == (if NonceFirst(cfg, replies) then Some(PinFrom(cfg, replies[0])) else c.shown)
      && end.hostHash == (if NonceApproved(cfg, replies) then OwnHash(cfg) else c.hostHash)
      && (end.phase.Connected? ==> NonceApproved(cfg, replies))
  {
    if replies != [] {
      var c1 := OnReply(cfg, c, replies[0]);
      if c1.phase.AwaitAuthResponse? && |replies| >= 2 {
        NegotiationKeepsTrust(cfg, OnReply(cfg, c1, replies[1]), replies[2..]);
        assert replies[1..][1..] == replies[2..];
      }
    }
  }

  /** Whatever a server sends, honest or not: the client shows a PIN exactly if the first three replies lead to
      one, and then the PIN of the nonce in the third; it changes the stored hash exactly if the fourth approves,
      and then to that of the certificate it sees; and it is connected after asking for authentication only so. */
  lemma TrustedExactlyWhenApproved(
    cfg: ClientSetup, forceAuth: bool, host: CertHashes.CertHash, replies: seq<Packet>)
    ensures var end := Converse(cfg, Boot(forceAuth, host), replies);
      && end.shown == (if GivesPin(cfg, forceAuth, replies) then Some(PinFrom(cfg, replies[2])) else None)
      && end.hostHash == (if Approves(cfg, forceAuth, replies) then OwnHash(cfg) else host)
      && (end.phase.Connected? ==>
            && replies != [] && replies[0].body.ServerIntro?
            && (Approves(cfg, forceAuth, replies) <==> forceAuth || replies[0].body.introStatus.AUTH_REQUIRED?))
  {
    if replies != [] {
      var c1, rest := OnReply(cfg, Boot(forceAuth, host), replies[0]), replies[1..];
      if !c1.phase.AwaitPartialHash? {
        NegotiationKeepsTrust(cfg, c1, rest);
      } else if rest != [] {
        var c2 := OnReply(cfg, c1, rest[0]);
        assert rest[1..] == replies[2..];
        assert Converse(cfg, c1, rest) == Converse(cfg, c2, replies[2..]);
        if c2.phase.AwaitServerNonce? {
          VerdictDecides(cfg, c2, replies[2..]);
        }
      }
    }
  }

  // ---------- when the client is connected ----------

  /** Replies that give the capabilities, accept the configuration and start the stream. */
  predicate Serves(replies: seq<Packet>) {
    && |replies| >= 3
    && replies[0].body.QueryHostCapsResponse? && replies[0].body.capsStatus == CAPS_OK && replies[0].extraLen == 0
    && replies[1].body.ConfigureStreamResponse? && replies[1].body.configureStatus == CONFIGURE_OK
    && replies[1].extraLen == 0
    && replies[2].body == StartStreamResponse(START_OK)
  }

  /** What the client then has asked for, in the mode it was told, and the sizes it was given. */
  predicate Served(c: Client, end: Client, replies: seq<Packet>)
    requires Serves(replies)
  {
    && end.outbox == c.outbox + [Packet(0, ConfigureStreamRequest(H264_BASELINE, replies[0].body.native), []),
                                 Packet(0, StartStreamRequest, [])]
    && end.capture == replies[1].body.capture && end.video == replies[1].body.video
  }

  lemma ConnectedWhenServed(cfg: ClientSetup, c: Client, replies: seq<Packet>)
    requires c.phase.AwaitCaps?
    ensures var end := Converse(cfg, c, replies);
      && (end.phase.Connected? <==> Serves(replies))
      && (Serves(replies) ==> Served(c, end, replies))
  {
    if replies != [] {
      var c1 := OnReply(cfg, c, replies[0]);
      assert Converse(cfg, c, replies) == Converse(cfg, c1, replies[1..]);
      if c1.phase.AwaitConfigure? && |replies| >= 2 {
        var c2 := OnReply(cfg, c1, replies[1]);
        assert replies[1..][1..] == replies[2..];
        assert Converse(cfg, c1, replies[1..]) == Converse(cfg, c2, replies[2..]);
        if c2.phase.AwaitStart? && |replies| >= 3 {
          var end := OnReply(cfg, c2, replies[2]);
          assert Converse(cfg, c2, replies[2..]) == Converse(cfg, end, replies[2..][1..]) == end;
        }
      }
    }
  }

  /** After an approved nonce the script goes on as if no authentication had been needed. */
  lemma ApprovedGoesOn(cfg: ClientSetup, c: Client, replies: seq<Packet>)
    requires c.phase.AwaitServerNonce? && NonceApproved(cfg, replies)
    ensures Converse(cfg, c, replies)
      == Converse(cfg, AskCaps(c.(shown := Some(PinFrom(cfg, replies[0])), hostHash := OwnHash(cfg))), replies[2..])
  {
    var c1 := OnReply(cfg, c, replies[0]);
    assert Converse(cfg, c, replies) == Converse(cfg, c1, replies[1..]);
    assert replies[1..][1..] == replies[2..];
  }

  predicate NeedsAuth(forceAuth: bool, replies: seq<Packet>) {
    replies != [] && replies[0].body.ServerIntro? && (forceAuth || replies[0].body.introStatus == AUTH_REQUIRED)
  }

  /** The replies behind the greeting and, if there was one, the authentication. */
  function Behind(forceAuth: bool, replies: seq<Packet>): seq<Packet> {
    var n := if NeedsAuth(forceAuth, replies) then 4 else 1;
    if |replies| < n then [] else replies[n..]
  }

  /** The client is connected if and only if the greeting accepts its version and carries nothing, the authentication,
      if either side wants one, is approved, and the three replies behind it serve the stream. */
  lemma ConnectedExactly(cfg: ClientSetup, forceAuth: bool, host: CertHashes.CertHash, replies: seq<Packet>)
    ensures var end := Converse(cfg, Boot(forceAuth, host), replies);
      && (end.phase.Connected? <==>
            && replies != [] && replies[0].body.ServerIntro? && replies[0].body.introStatus != VERSION_MISMATCH
            && replies[0].extraLen == 0
            && (NeedsAuth(forceAuth, replies) ==> Approves(cfg, forceAuth, replies))
            && Serves(Behind(forceAuth, replies)))
  {
    var c := Boot(forceAuth, host);
    if replies != [] {
      var c1, rest := OnReply(cfg, c, replies[0]), replies[1..];
      assert Converse(cfg, c, replies) == Converse(cfg, c1, rest);
      if c1.phase.AwaitCaps? {
        ConnectedWhenServed(cfg, c1, rest);
      } else if c1.phase.AwaitPartialHash? && rest != [] {
        var c2 := OnReply(cfg, c1, rest[0]);
        assert rest[1..] == replies[2..];
        assert Converse(cfg, c1, rest) == Converse(cfg, c2, replies[2..]);
        if c2.phase.AwaitServerNonce? {
          VerdictDecides(cfg, c2, replies[2..]);
          if NonceApproved(cfg, replies[2..]) {
            ApprovedGoesOn(cfg, c2, replies[2..]);
            assert replies[2..][2..] == replies[4..];
            var c4 := AskCaps(c2.(shown := Some(PinFrom(cfg, replies[2])), hostHash := OwnHash(cfg)));
            if c4.phase.AwaitCaps? {
              ConnectedWhenServed(cfg, c4, replies[4..]);
            }
          }
        }
      }
    }
  }

  /** A connected client has been told the mode it then asked for, and keeps the sizes it was given. */
  lemma ConnectedIsServed(cfg: ClientSetup, forceAuth: bool, host: CertHashes.CertHash, replies: seq<Packet>)
    requires Converse(cfg, Boot(forceAuth, host), replies).phase.Connected?
    ensures Serves(Behind(forceAuth, replies))
    ensures var end := Converse(cfg, Boot(forceAuth, host), replies);
      var served := Behind(forceAuth, replies);
      && end.capture == served[1].body.capture && end.video == served[1].body.video
      && |end.outbox| >= 3
      && end.outbox[0] == Packet(0, ClientIntro(2), [])
      && end.outbox[|end.outbox| - 3..] ==
           [Packet(0, QueryHostCapsRequest(H264_BASELINE), []),
            Packet(0, ConfigureStreamRequest(H264_BASELINE, served[0].body.native), []),
            Packet(0, StartStreamRequest, [])]
  {
    ConnectedExactly(cfg, forceAuth, host, replies);
    var c := Boot(forceAuth, host);
    var c1, rest := OnReply(cfg, c, replies[0]), replies[1..];
    assert Converse(cfg, c, replies) == Converse(cfg, c1, rest);
    if NeedsAuth(forceAuth, replies) {
      var c2 := OnReply(cfg, c1, rest[0]);
      assert rest[1..] == replies[2..];
      assert Converse(cfg, c1, rest) == Converse(cfg, c2, replies[2..]);
      ApprovedGoesOn(cfg, c2, replies[2..]);
      assert replies[2..][2..] == replies[4..];
      ConnectedWhenServed(
        cfg, AskCaps(c2.(shown := Some(PinFrom(cfg, replies[2])), hostHash := OwnHash(cfg))), replies[4..]);
    } else {
      ConnectedWhenServed(cfg, c1, rest);
    }
  }

  /** Which replies end the program, rather than only the attempt. */
  lemma ProgramEndsExactly(cfg: ClientSetup, c: Client, pkt: Packet)
    requires Waiting(c.phase)
    ensures OnReply(cfg, c, pkt).phase.Quit? <==>
      match c.phase
      case AwaitIntro(forceAuth) =>
        if !pkt.body.ServerIntro? || pkt.body.introStatus == VERSION_MISMATCH then true
        else if forceAuth || pkt.body.introStatus == AUTH_REQUIRED then
          !cfg.rngOk || PartialHash(cfg.hashes, cfg.serverCert, cfg.clientCert, cfg.nonce).None?
        else pkt.extraLen != 0
      case AwaitPartialHash => false
      case AwaitServerNonce => false
      case AwaitAuthResponse => pkt.body == AuthResponse(AUTH_OK) && c.carried != 0
      case AwaitCaps =>
        !(pkt.body.QueryHostCapsResponse? && pkt.body.capsStatus == CAPS_OK && pkt.extraLen == 0)
      case AwaitConfigure =>
        !(pkt.body.ConfigureStreamResponse? && pkt.body.configureStatus == CONFIGURE_OK && pkt.extraLen == 0)
      case AwaitStart => !pkt.body.StartStreamResponse?
  {
  }

  // ---------- the script ----------

  class StreamClient {
    const cfg: ClientSetup
    var inbox: seq<Packet>
    var carried: int
    var shown: Option<int>
    var hostHash: CertHashes.CertHash
    var capture: (int, int)
    var video: (int, int)
    var outbox: seq<Packet>

    ghost function State(phase: Phase): Client
      reads this
    {
      Client(phase, carried, shown, hostHash, capture, video, outbox)
    }

    /** What the rest of the script will come to from here. */
    ghost function Outcome(phase: Phase): Client
      reads this
    {
      Converse(cfg, State(phase), inbox)
    }

    constructor (setup: ClientSetup, host: CertHashes.CertHash, deliveries: seq<Packet>)
      ensures cfg == setup && inbox == deliveries && hostHash == host
      ensures carried == 0 && shown == None && capture == video == (-1, -1) && outbox == []
    {
      cfg, inbox, hostHash := setup, deliveries, host;
      carried, shown, capture, video, outbox := 0, None, (-1, -1), (-1, -1), [];
    }

    method Send(pkt: Packet)
      modifies this`outbox
      ensures outbox == old(outbox) + [pkt]
    {
      outbox := outbox + [pkt];
    }

    method Recv() returns (pkt: Option<Packet>)
      modifies this`inbox
      ensures old(inbox) == [] ==> pkt == None && inbox == []
      ensures old(inbox) != [] ==> pkt == Some(old(inbox)[0]) && inbox == old(inbox)[1..]
    {
      if inbox == [] {
        return None;
      }
      pkt, inbox := Some(inbox[0]), inbox[1..];
    }

    /** Runs the authentication. If it succeeds, what remains is the request for the host's capabilities. */
    method DoAuth() returns (end: Phase)
      modifies this`inbox, this`outbox, this`shown, this`hostHash
      ensures end.Connected? || end.Failed? || end.Quit?
      ensures end.Connected? ==>
        Converse(cfg, StartAuth(cfg, old(State(Connected))), old(inbox))
          == Converse(cfg, AskCaps(State(Connected)), inbox)
      ensures !end.Connected? ==>
        Converse(cfg, StartAuth(cfg, old(State(Connected))), old(inbox)) == State(end)
    {
      if !cfg.rngOk {
        return Quit;
      }
      var payload := PartialHash(cfg.hashes, cfg.serverCert, cfg.clientCert, cfg.nonce);
      if payload == None {
        return Quit;
      }
      Send(WithExtra(AuthRequest(|cfg.nonce|, "localhost"), payload.value));
      ghost var goal := Outcome(AwaitPartialHash);
      assert goal == Converse(cfg, StartAuth(cfg, old(State(Connected))), old(inbox));

      var pkt := Recv();
      if pkt == None || !pkt.value.body.ServerPartialHashNotify? || pkt.value.body.nonceLen < 16 {
        return Failed;
      }
      Send(WithExtra(ClientNonceNotify, cfg.nonce));
      assert goal == Outcome(AwaitServerNonce);
      end := ShowPin();
    }

    /** From the server's nonce on: shows the PIN and waits for the verdict. */
    method ShowPin() returns (end: Phase)
      modifies this`inbox, this`outbox, this`shown, this`hostHash
      ensures end.Connected? || end.Failed? || end.Quit?
      ensures end.Connected? ==> old(Outcome(AwaitServerNonce)) == Converse(cfg, AskCaps(State(Connected)), inbox)
      ensures !end.Connected? ==> old(Outcome(AwaitServerNonce)) == State(end)
    {
      ghost var goal := Outcome(AwaitServerNonce);
      var pkt := Recv();
      if pkt == None {
        return Failed;
      }
      ScriptGoesOn(cfg, State(AwaitServerNonce), pkt.value, inbox);
      if !pkt.value.body.ServerNonceNotify? {
        return Failed;
      }
      var serverNonce := if pkt.value.extraLen > 0 then pkt.value.extra else [];
      var pin := ComputePin(cfg.hashes, cfg.serverCert, cfg.clientCert, serverNonce, cfg.nonce);
      if pin < 0 {
        return Failed;
      }
      shown := Some(pin);
      assert goal == Outcome(AwaitAuthResponse);

      pkt := Recv();
      if pkt == None || !pkt.value.body.AuthResponse? || pkt.value.body.authStatus != AUTH_OK {
        return Failed;
      }
      hostHash := CertHashes.Digest(cfg.hashes.sha256, CertHashes.SHA256, cfg.serverCert);
      assert goal == Converse(cfg, AskCaps(State(Connected)), inbox);
      return Connected;
    }

    /** Asks for the capabilities, configures the stream and starts it. */
    method Negotiate() returns (end: Phase)
      modifies this`inbox, this`outbox, this`carried, this`capture, this`video
      ensures State(end) == old(Converse(cfg, AskCaps(State(Connected)), inbox))
    {
      ghost var goal := Converse(cfg, AskCaps(State(Connected)), inbox);
      Send(Packet(carried, QueryHostCapsRequest(H264_BASELINE), []));
      if carried != 0 {
        return Quit;
      }
      assert goal == Outcome(AwaitCaps);
      var pkt := Recv();
      if pkt == None {
        return Failed;
      }
      if !pkt.value.body.QueryHostCapsResponse? || pkt.value.body.capsStatus != CAPS_OK {
        return Quit;
      }
      carried := pkt.value.extraLen;
      Send(Packet(carried, ConfigureStreamRequest(H264_BASELINE, pkt.value.body.native), []));
      if carried != 0 {
        return Quit;
      }
      assert goal == Outcome(AwaitConfigure);
      end := Begin();
    }

    method Begin() returns (end: Phase)
      modifies this`inbox, this`outbox, this`carried, this`capture, this`video
      ensures State(end) == old(Outcome(AwaitConfigure))
    {
      ghost var goal := Outcome(AwaitConfigure);
      var pkt := Recv();
      if pkt == None {
        return Failed;
      }
      ScriptGoesOn(cfg, State(AwaitConfigure), pkt.value, inbox);
      if !pkt.value.body.ConfigureStreamResponse? || pkt.value.body.configureStatus != CONFIGURE_OK {
        return Quit;
      }
      carried, capture, video := pkt.value.extraLen, pkt.value.body.capture, pkt.value.body.video;
      Send(Packet(carried, StartStreamRequest, []));
      if carried != 0 {
        return Quit;
      }
      assert goal == Outcome(AwaitStart);
      pkt := Recv();
      if pkt == None {
        return Failed;
      }
      if !pkt.value.body.StartStreamResponse? {
        return Quit;
      }
      return if pkt.value.body.startStatus == START_OK then Connected else Failed;
    }

    /** The whole introduction, over whatever the connection delivers. */
    method DoIntro(forceAuth: bool) returns (end: Phase)
      requires carried == 0 && shown == None && capture == video == (-1, -1) && outbox == []
      modifies this
      ensures State(end) == Converse(cfg, Boot(forceAuth, old(hostHash)), old(inbox))
    {
      Send(Plain(ClientIntro(PROTOCOL_VERSION)));
      ghost var goal := Outcome(AwaitIntro(forceAuth));
      assert State(AwaitIntro(forceAuth)) == Boot(forceAuth, old(hostHash));
      var authRequired := forceAuth;
      var pkt := Recv();
      if pkt == None {
        return Failed;
      }
      if !pkt.value.body.ServerIntro? || pkt.value.body.introStatus == VERSION_MISMATCH {
        return Quit;
      }
      if pkt.value.body.introStatus == AUTH_REQUIRED {
        authRequired := true;
      }
      carried := pkt.value.extraLen;
      if authRequired {
        assert goal == Converse(cfg, StartAuth(cfg, State(Connected)), inbox);
        end := DoAuth();
        if end != Connected {
          return;
        }
      }
      assert goal == Converse(cfg, AskCaps(State(Connected)), inbox);
      end := Negotiate();
    }
  }
}
