/** Packets of the control protocol. `extraLen` is the declared length of the extra data. */
module Wire {
  import opened Prelude

  const PROTOCOL_VERSION: int := 2

  datatype Codec = H264_BASELINE | OTHER_CODEC

  datatype IntroStatus = INTRO_OK | VERSION_MISMATCH | AUTH_REQUIRED
  datatype CapsStatus = CAPS_OK | CAPS_UNKNOWN | CAPS_UNSUPPORTED_CODEC
  datatype ConfigureStatus = CONFIGURE_OK | CONFIGURE_UNKNOWN | ALREADY_STREAMING | CONFIGURE_UNSUPPORTED_CODEC
  datatype StartStatus = START_OK | START_UNKNOWN
  datatype AuthStatus = AUTH_OK | NONCE_TOO_SHORT | INCORRECT_PIN | UNKNOWN_ERROR

  datatype Mode = Mode(width: int, height: int, fpsNum: int, fpsDen: int)

  datatype Body =
    | ClientIntro(version: int)
    | ServerIntro(version: int, introStatus: IntroStatus)
    | QueryHostCapsRequest(codec: Codec)
    | QueryHostCapsResponse(capsStatus: CapsStatus, native: Mode)
    | PingRequest(id: int)
    | PingResponse(id: int, time: int)
    | ConfigureStreamRequest(codec: Codec, mode: Mode)
    | ConfigureStreamResponse(configureStatus: ConfigureStatus, capture: (int, int), video: (int, int))
    | StartStreamRequest
    | StartStreamResponse(startStatus: StartStatus)
    | StopStreamRequest
    | StopStreamResponse
    | AuthRequest(nonceLen: int, hostname: string)
    | ServerPartialHashNotify(nonceLen: int)
    | ServerNonceNotify
    | ClientNonceNotify
    | AuthResponse(authStatus: AuthStatus)
    | OtherBody

  datatype Packet = Packet(extraLen: int, body: Body, extra: Bytes)

  const NO_MODE := Mode(0, 0, 0, 0)

  /** An answer without anything about the host or its stream. */
  predicate TellsNothing(b: Body) {
    match b
    case ServerIntro(_, status) => !status.INTRO_OK?
    case QueryHostCapsResponse(status, native) => status.CAPS_UNKNOWN? && native == NO_MODE
    case PingResponse(_, _) => false
    case ConfigureStreamResponse(status, capture, video) => status.CONFIGURE_UNKNOWN? && capture == video == (0, 0)
    case StartStreamResponse(status) => status.START_UNKNOWN?
    case AuthResponse(status) => !status.AUTH_OK?
    case _ => true
  }

  function Plain(body: Body): Packet { Packet(0, body, []) }

  function WithExtra(body: Body, extra: Bytes): Packet { Packet(|extra|, body, extra) }
}

/** The hash functions, as parameters, and the code both sides compute from them. */
module Commitments {
  import opened Prelude
  import opened PinCode

  datatype HashResult = Hashed(bytes: Bytes) | HashError(code: int)

  /** SHA-384 and SHA-512 may report a negative error; SHA-256 ends the program if it fails. */
  datatype Hashes = Hashes(sha384: Bytes -> HashResult, sha512: Bytes -> HashResult, sha256: Bytes -> Bytes)

  ghost predicate ValidHashes(h: Hashes) {
    && (forall b: Bytes :: h.sha384(b).Hashed? ==> |h.sha384(b).bytes| == 64)
    && (forall b: Bytes :: h.sha512(b).Hashed? ==> |h.sha512(b).bytes| == 64)
    && (forall b: Bytes :: h.sha384(b).HashError? ==> h.sha384(b).code < 0)
    && (forall b: Bytes :: h.sha512(b).HashError? ==> h.sha512(b).code < 0)
  }

  /** Commitment to a nonce, truncated to 48 of the buffer's 64 bytes. */
  function PartialHash(h: Hashes, serverCert: Bytes, clientCert: Bytes, nonce: Bytes): Option<Bytes> {
    match h.sha384(serverCert + clientCert + nonce)
    case HashError(_) => None
    case Hashed(bytes) => if |bytes| < 48 then None else Some(bytes[..48])
  }

  /** The shared PIN, or a negative error. */
  function ComputePin(h: Hashes, serverCert: Bytes, clientCert: Bytes, serverNonce: Bytes, clientNonce: Bytes): int {
    match h.sha512(serverCert + clientCert + serverNonce + clientNonce)
    case HashError(code) => code
    case Hashed(bytes) => if |bytes| < 8 then -1 else LittleEndian(bytes, 8) % PIN_COUNT
  }

  // ---------- what commitment and PIN depend on ----------

  /** Two inputs that SHA-384 takes to the same first 48 bytes. */
  predicate HashesCollide(h: Hashes, x: Bytes, y: Bytes) {
    && x != y && h.sha384(x).Hashed? && h.sha384(y).Hashed?
    && |h.sha384(x).bytes| >= 48 && |h.sha384(y).bytes| >= 48
    && h.sha384(x).bytes[..48] == h.sha384(y).bytes[..48]
  }

  /** Two nonces have one commitment only by a collision of SHA-384, on server certificate, client certificate and
      nonce one after the other. */
  lemma CommitmentBinds(h: Hashes, serverCert: Bytes, clientCert: Bytes, a: Bytes, b: Bytes)
    requires a != b && PartialHash(h, serverCert, clientCert, a).Some?
    requires PartialHash(h, serverCert, clientCert, a) == PartialHash(h, serverCert, clientCert, b)
    ensures HashesCollide(h, serverCert + clientCert + a, serverCert + clientCert + b)
  {
    assert (serverCert + clientCert + a)[|serverCert + clientCert|..] == a;
    assert (serverCert + clientCert + b)[|serverCert + clientCert|..] == b;
  }

  /** A commitment has 48 bytes, and exists whenever the hash does and is no shorter. */
  lemma CommitmentExistsExactly(h: Hashes, serverCert: Bytes, clientCert: Bytes, nonce: Bytes)
    ensures PartialHash(h, serverCert, clientCert, nonce).Some? <==>
      var r := h.sha384(serverCert + clientCert + nonce); r.Hashed? && |r.bytes| >= 48
    ensures PartialHash(h, serverCert, clientCert, nonce).Some? ==>
      |PartialHash(h, serverCert, clientCert, nonce).value| == 48
  {
  }

  /** The first eight bytes as a number, least significant first. */
  function FirstWord(b: seq<int>): int
    requires |b| >= 8
  {
    b[0] + 0x100 * b[1] + 0x1_0000 * b[2] + 0x100_0000 * b[3] + 0x1_0000_0000 * b[4]
    + 0x100_0000_0000 * b[5] + 0x1_0000_0000_0000 * b[6] + 0x100_0000_0000_0000 * b[7]
  }

  /** The PIN: the eight least significant decimal digits of the first word of the SHA-512 of both certificates and both
      nonces, one after the other. */
  lemma PinIsOfHash(h: Hashes, serverCert: Bytes, clientCert: Bytes, serverNonce: Bytes, clientNonce: Bytes)
    ensures ComputePin(h, serverCert, clientCert, serverNonce, clientNonce) ==
      match h.sha512(serverCert + clientCert + serverNonce + clientNonce)
      case HashError(code) => code
      case Hashed(b) => if |b| < 8 then -1 else FirstWord(b) % 100_000_000
  {
    match h.sha512(serverCert + clientCert + serverNonce + clientNonce)
    case HashError(_) =>
    case Hashed(b) => if |b| >= 8 { EightBytes(b); }
  }

  lemma EightBytes(b: Bytes)
    requires |b| >= 8
    ensures LittleEndian(b, 8) == FirstWord(b)
  {
    assert b[2..][2..] == b[4..] && b[4..][2..] == b[6..];
    TwoBytes(b, 8);
    TwoBytes(b[2..], 6);
    TwoBytes(b[4..], 4);
    TwoBytes(b[6..], 2);
  }

  lemma TwoBytes(b: Bytes, n: nat)
    requires 2 <= n <= |b|
    ensures LittleEndian(b, n) == b[0] as int + 0x100 * b[1] as int + 0x1_0000 * LittleEndian(b[2..], n - 2)
  {
    assert b[1..][1..] == b[2..];
    assert LittleEndian(b[1..], n - 1) == b[1] as int + 256 * LittleEndian(b[2..], n - 2);
  }
}

/** The server's side of one connection. */
module Connections {
  import opened Prelude
  import opened Wire
  import opened Commitments
  import opened CertHashes
  import opened PinCode

  datatype AuthState = AuthState(
    hostname: string, serverCert: Bytes, clientCert: Bytes, nonce: Bytes, clientNonce: Bytes, clientPartialHash: Bytes)

  /** Calls into the stream server that change what is streamed. */
  datatype Call = ConfigureCall(mode: Mode) | StartCall | EndCall

  /** What stays fixed while a connection lives. */
  datatype Setup = Setup(hashes: Hashes, serverCert: Bytes, clientCert: Bytes, native: Mode)

  /** `data` is the receive buffer: a packet without extra data leaves the previous contents in it.
      `awaitingPin` means the thread is blocked reading its terminal. */
  datatype Server = Server(
    authorized: bool, streaming: bool, authState: Option<AuthState>, awaitingPin: bool, data: Bytes,
    outbox: seq<Packet>, calls: seq<Call>, known: seq<CertHash>)

  function Connected(verified: bool, known: seq<CertHash>): Server {
    Server(verified, false, None, false, [], [], [], known)
  }

  /** One turn of the receive loop, or one line typed at the PIN prompt. The random nonce, whether the
      random generator and the socket work, the clock and the stream server's answer are inputs. */
  datatype Event =
    | Recv(pkt: Packet, nonce: Bytes, drbgOk: bool, sendOk: bool, startOk: bool, now: int)
    | PinLine(line: string)

  function Send(s: Server, pkt: Packet): Server { s.(outbox := s.outbox + [pkt]) }

  function AddCall(s: Server, call: Call): Server { s.(calls := s.calls + [call]) }

  function Refuse(s: Server, status: AuthStatus): Server { Send(s, Plain(AuthResponse(status))) }

  function Positive(m: Mode): bool { m.width > 0 && m.height > 0 && m.fpsNum > 0 && m.fpsDen > 0 }

  function OnConfigure(env: Setup, s: Server, codec: Codec, mode: Mode): Server {
    if !s.authorized then
      Send(s, Plain(ConfigureStreamResponse(CONFIGURE_UNKNOWN, (0, 0), (0, 0))))
    else if s.streaming then
      Send(s, Plain(ConfigureStreamResponse(ALREADY_STREAMING, (0, 0), (0, 0))))
    else if codec != H264_BASELINE then
      Send(s, Plain(ConfigureStreamResponse(CONFIGURE_UNSUPPORTED_CODEC, (0, 0), (0, 0))))
    else if !Positive(mode) then
      Send(s, Plain(ConfigureStreamResponse(CONFIGURE_UNKNOWN, (0, 0), (0, 0))))
    else
      var capture, video := (env.native.width, env.native.height), (mode.width, mode.height);
      Send(AddCall(s, ConfigureCall(mode)), Plain(ConfigureStreamResponse(CONFIGURE_OK, capture, video)))
  }

  function OnQuery(env: Setup, s: Server, codec: Codec): Server {
    if !s.authorized then Send(s, Plain(QueryHostCapsResponse(CAPS_UNKNOWN, NO_MODE)))
    else
      var status := if codec == H264_BASELINE then CAPS_OK else CAPS_UNSUPPORTED_CODEC;
      Send(s, Plain(QueryHostCapsResponse(status, env.native)))
  }

  function OnStart(s: Server, startOk: bool): Server {
    if !s.authorized then
      Send(s, Plain(StartStreamResponse(START_UNKNOWN)))
    else
      Send(AddCall(s, StartCall).(streaming := s.streaming || startOk),
           Plain(StartStreamResponse(if startOk then START_OK else START_UNKNOWN)))
  }

  function OnIntro(s: Server, version: int): Server {
    var status := if version != PROTOCOL_VERSION then VERSION_MISMATCH
                  else if !s.authorized then AUTH_REQUIRED else INTRO_OK;
    Send(s, Plain(ServerIntro(PROTOCOL_VERSION, status)))
  }

  function OnAuthRequest(env: Setup, s: Server, nonceLen: int, hostname: string, nonce: Bytes, drbgOk: bool): Server {
    if nonceLen < 16 then
      Refuse(s, NONCE_TOO_SHORT)
    else if |s.data| != 48 then
      Refuse(s, UNKNOWN_ERROR)
    else
      var zeros: Bytes := seq(nonceLen, _ => 0);
      var begun := s.(authState := Some(AuthState(hostname, env.serverCert, env.clientCert, nonce, zeros, s.data)));
      if !drbgOk then
        Refuse(begun, UNKNOWN_ERROR)
      else
        match PartialHash(env.hashes, env.serverCert, env.clientCert, nonce)
        case None => Refuse(begun, UNKNOWN_ERROR)
        case Some(hash) => Send(begun, WithExtra(ServerPartialHashNotify(|nonce|), hash))
  }

  function OnClientNonce(env: Setup, s: Server, sendOk: bool): Server {
    if s.authState.None? then
      Refuse(s, UNKNOWN_ERROR)
    else
      var a := s.authState.value;
      if |s.data| != |a.clientNonce| then
        Refuse(s, UNKNOWN_ERROR)
      else
        var revealed := s.(authState := Some(a.(clientNonce := s.data)));
        match PartialHash(env.hashes, a.serverCert, a.clientCert, s.data)
        case None => Refuse(revealed, UNKNOWN_ERROR)
        case Some(hash) =>
          if hash != a.clientPartialHash then Refuse(revealed, UNKNOWN_ERROR)
          else if !sendOk then revealed
          else Send(revealed, WithExtra(ServerNonceNotify, a.nonce)).(awaitingPin := true)
  }

  function TruePin(env: Setup, a: AuthState): int {
    ComputePin(env.hashes, a.serverCert, a.clientCert, a.nonce, a.clientNonce)
  }

  function OnPinLine(env: Setup, s: Server, line: string): Server
    requires s.authState.Some?
  {
    var entered := s.(awaitingPin := false);
    if TruePin(env, s.authState.value) != ParsePin(line) then
      Refuse(entered, INCORRECT_PIN)
    else
      Send(entered.(known := s.known + [Digest(env.hashes.sha256, SHA256, env.clientCert)]),
           Plain(AuthResponse(AUTH_OK))).(authorized := true)
  }

  /** The extra data of a packet replaces the receive buffer only if there is some; any packet but a client
      nonce closes a pending authentication. */
  function Received(s: Server, pkt: Packet): Server {
    s.(data := if pkt.extraLen > 0 then pkt.extra else s.data,
       authState := if pkt.body.ClientNonceNotify? then s.authState else None)
  }

  /** None when the thread is not at the point where the event could happen. */
  function Step(env: Setup, s0: Server, e: Event): Option<Server> {
    if e.PinLine? then
      if s0.awaitingPin && s0.authState.Some? then Some(OnPinLine(env, s0, e.line)) else None
    else if s0.awaitingPin then
      None
    else
      var s := Received(s0, e.pkt);
      match e.pkt.body
      case ClientIntro(version) => Some(OnIntro(s, version))
      case PingRequest(id) => Some(if s.authorized then Send(s, Plain(PingResponse(id, e.now))) else s)
      case QueryHostCapsRequest(codec) => Some(OnQuery(env, s, codec))
      case ConfigureStreamRequest(codec, mode) => Some(OnConfigure(env, s, codec, mode))
      case StartStreamRequest => Some(OnStart(s, e.startOk))
      case StopStreamRequest => Some(Send(AddCall(s, EndCall), Plain(StopStreamResponse)))
      case AuthRequest(nonceLen, hostname) => Some(OnAuthRequest(env, s, nonceLen, hostname, e.nonce, e.drbgOk))
      case ClientNonceNotify => Some(OnClientNonce(env, s, e.sendOk))
      case _ => Some(s)
  }

  function Run(env: Setup, start: Server, es: seq<Event>): Option<Server> {
    if es == [] then Some(start)
    else
      match Run(env, start, es[..|es| - 1])
      case None => None
      case Some(s) => Step(env, s, es[|es| - 1])
  }

  // ---------- the connection object ----------

  class Connection {
    const env: Setup
    var authorized: bool
    var streaming: bool
    var authState: Option<AuthState>
    var awaitingPin: bool
    var data: Bytes
    var outbox: seq<Packet>
    var calls: seq<Call>
    var known: seq<CertHash>

    ghost function State(): Server
      reads this
    {
      Server(authorized, streaming, authState, awaitingPin, data, outbox, calls, known)
    }

    /** The packet sent last. */
    function Answer(): Packet
      requires outbox != []
      reads this
    {
      outbox[|outbox| - 1]
    }

    constructor (setup: Setup, verified: bool, knownClients: seq<CertHash>)
      ensures State() == Connected(verified, knownClients) && env == setup
    {
      env := setup;
      authorized, streaming, authState, awaitingPin := verified, false, None, false;
      data, outbox, calls, known := [], [], [], knownClients;
    }

    method SendPacket(pkt: Packet)
      modifies this`outbox
      ensures State() == Send(old(State()), pkt)
    {
      outbox := outbox + [pkt];
    }

    /** The receive buffer and the pending authentication, before the packet is looked at. */
    method Receive(pkt: Packet)
      modifies this`data, this`authState
      ensures State() == Received(old(State()), pkt)
    {
      if pkt.extraLen > 0 {
        data := pkt.extra;
      }
      if authState != None && !pkt.body.ClientNonceNotify? {
        authState := None;
      }
    }

    /** One turn of the receive loop. */
    method HandlePacket(pkt: Packet, nonce: Bytes, drbgOk: bool, sendOk: bool, startOk: bool, now: int)
      requires !awaitingPin
      modifies this
      ensures Step(env, old(State()), Recv(pkt, nonce, drbgOk, sendOk, startOk, now)) == Some(State())
    {
      Receive(pkt);
      match pkt.body
      case ClientIntro(version) => Intro(version);
      case PingRequest(id) =>
        if authorized {
          SendPacket(Plain(PingResponse(id, now)));
        }
      case QueryHostCapsRequest(codec) => Query(codec);
      case ConfigureStreamRequest(codec, mode) => Configure(codec, mode);
      case StartStreamRequest => Start(startOk);
      case StopStreamRequest =>
        calls := calls + [EndCall];
        SendPacket(Plain(StopStreamResponse));
      case AuthRequest(nonceLen, hostname) => OpenAuth(nonceLen, hostname, nonce, drbgOk);
      case ClientNonceNotify => Reveal(sendOk);
      case _ =>
    }

    method Intro(version: int)
      modifies this`outbox
      ensures State() == OnIntro(old(State()), version)
      ensures Answer().body == ServerIntro(PROTOCOL_VERSION, INTRO_OK) <==> authorized && version == PROTOCOL_VERSION
      ensures !authorized ==> TellsNothing(Answer().body)
    {
      var status := INTRO_OK;
      if PROTOCOL_VERSION != version {
        status := VERSION_MISMATCH;
      } else if !authorized {
        status := AUTH_REQUIRED;
      }
      SendPacket(Plain(ServerIntro(PROTOCOL_VERSION, status)));
    }

    method Query(codec: Codec)
      modifies this`outbox
      ensures State() == OnQuery(env, old(State()), codec)
      ensures !authorized ==> TellsNothing(Answer().body)
    {
      if !authorized {
        SendPacket(Plain(QueryHostCapsResponse(CAPS_UNKNOWN, NO_MODE)));
        return;
      }
      var status := if codec == H264_BASELINE then CAPS_OK else CAPS_UNSUPPORTED_CODEC;
      SendPacket(Plain(QueryHostCapsResponse(status, env.native)));
    }

    method Configure(codec: Codec, mode: Mode)
      modifies this`outbox, this`calls
      ensures State() == OnConfigure(env, old(State()), codec, mode)
      ensures calls != old(calls) ==>
        authorized && !streaming && Positive(mode) && calls == old(calls) + [ConfigureCall(mode)]
      ensures calls != old(calls) <==> Answer().body.configureStatus == CONFIGURE_OK
      ensures !authorized ==> TellsNothing(Answer().body)
    {
      var status := CONFIGURE_OK;
      var capture, video := (0, 0), (0, 0);
      if !authorized {
        status := CONFIGURE_UNKNOWN;
      } else if streaming {
        status := ALREADY_STREAMING;
      } else if codec != H264_BASELINE {
        status := CONFIGURE_UNSUPPORTED_CODEC;
      } else if mode.width <= 0 || mode.height <= 0 || mode.fpsNum <= 0 || mode.fpsDen <= 0 {
        status := CONFIGURE_UNKNOWN;
      } else {
        calls := calls + [ConfigureCall(mode)];
        capture, video := (env.native.width, env.native.height), (mode.width, mode.height);
      }
      SendPacket(Plain(ConfigureStreamResponse(status, capture, video)));
    }

    method Start(startOk: bool)
      modifies this`outbox, this`calls, this`streaming
      ensures State() == OnStart(old(State()), startOk)
      ensures calls != old(calls) || streaming != old(streaming) ==> authorized
      ensures Answer().body == StartStreamResponse(START_OK) <==> authorized && startOk
      ensures !authorized ==> TellsNothing(Answer().body)
    {
      if !authorized {
        SendPacket(Plain(StartStreamResponse(START_UNKNOWN)));
        return;
      }
      calls := calls + [StartCall];
      if startOk {
        streaming := true;
      }
      SendPacket(Plain(StartStreamResponse(if startOk then START_OK else START_UNKNOWN)));
    }

    method OpenAuth(nonceLen: int, hostname: string, nonce: Bytes, drbgOk: bool)
      modifies this`outbox, this`authState
      ensures State() == OnAuthRequest(env, old(State()), nonceLen, hostname, nonce, drbgOk)
      ensures TellsNothing(Answer().body)
      ensures authState != old(authState) ==>
        nonceLen >= 16 && authState.Some? && |authState.value.clientNonce| == nonceLen
        && |data| == 48 && authState.value.clientPartialHash == data
      ensures Answer().body.ServerPartialHashNotify? ==>
        authState.Some? && Some(Answer().extra)
          == PartialHash(env.hashes, env.serverCert, env.clientCert, authState.value.nonce)
    {
      if nonceLen < 16 {
        SendPacket(Plain(AuthResponse(NONCE_TOO_SHORT)));
        return;
      }
      if |data| != 48 {
        SendPacket(Plain(AuthResponse(UNKNOWN_ERROR)));
        return;
      }
      authState := Some(AuthState(hostname, env.serverCert, env.clientCert, nonce, seq(nonceLen, _ => 0), data));
      if !drbgOk {
        SendPacket(Plain(AuthResponse(UNKNOWN_ERROR)));
        return;
      }
      var partialHash := PartialHash(env.hashes, env.serverCert, env.clientCert, nonce);
      if partialHash == None {
        SendPacket(Plain(AuthResponse(UNKNOWN_ERROR)));
        return;
      }
      SendPacket(WithExtra(ServerPartialHashNotify(|nonce|), partialHash.value));
    }

    /** The client reveals its nonce; if it matches the commitment the server reveals its own and prompts. */
    method Reveal(sendOk: bool)
      modifies this`outbox, this`authState, this`awaitingPin
      ensures State() == OnClientNonce(env, old(State()), sendOk)
      ensures outbox != old(outbox) ==> TellsNothing(Answer().body)
      ensures outbox != old(outbox) && Answer().body.ServerNonceNotify? ==>
        authState.Some? && Answer().extra == authState.value.nonce
        && |data| == |old(authState).value.clientNonce| && authState.value.clientNonce == data
        && PartialHash(env.hashes, authState.value.serverCert, authState.value.clientCert, data)
             == Some(authState.value.clientPartialHash)
    {
      if authState == None {
        SendPacket(Plain(AuthResponse(UNKNOWN_ERROR)));
        return;
      }
      var a := authState.value;
      if |data| != |a.clientNonce| {
        SendPacket(Plain(AuthResponse(UNKNOWN_ERROR)));
        return;
      }
      authState := Some(a.(clientNonce := data));
      var partialHash := PartialHash(env.hashes, a.serverCert, a.clientCert, data);
      if partialHash == None || partialHash.value != a.clientPartialHash {
        SendPacket(Plain(AuthResponse(UNKNOWN_ERROR)));
        return;
      }
      if !sendOk {
        return;
      }
      SendPacket(WithExtra(ServerNonceNotify, a.nonce));
      awaitingPin := true;
    }

    /** The line typed at the prompt. */
    method EnterPin(line: string)
      requires awaitingPin && authState.Some?
      modifies this
      ensures Step(env, old(State()), PinLine(line)) == Some(State())
    {
      awaitingPin := false;
      var enteredPin := ReadPin(line);
      var a := authState.value;
      var truePin := ComputePin(env.hashes, a.serverCert, a.clientCert, a.nonce, a.clientNonce);
      if truePin != enteredPin {
        SendPacket(Plain(AuthResponse(INCORRECT_PIN)));
        return;
      }
      known := known + [Digest(env.hashes.sha256, SHA256, env.clientCert)];
      SendPacket(Plain(AuthResponse(AUTH_OK)));
      authorized := true;
    }
  }
}
