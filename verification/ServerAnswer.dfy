/** What the server tells the other side, request by request, and when it streams. */
module ServerAnswers {
  import opened Prelude
  import opened Wire
  import opened Commitments
  import opened Connections
  import opened PinCode

  /** The server takes in a packet while it is not waiting at its prompt. */
  predicate Takes(s: Server, e: Event) { e.Recv? && !s.awaitingPin }

  /** One packet without extra data was sent, and that is what it says. */
  predicate Says(s: Server, t: Server, body: Body) { t.outbox == s.outbox + [Packet(0, body, [])] }

  // ---------- requests about the stream ----------

  /** The greeting is answered by the protocol's version and OK exactly to an authorised client with that version; a
      wrong version outweighs missing authorisation. */
  lemma IntroAnswer(env: Setup, s: Server, e: Event, version: int)
    requires Takes(s, e) && e.pkt.body == ClientIntro(version)
    ensures Step(env, s, e).Some? && Step(env, s, e).value.calls == s.calls
    ensures var t := Step(env, s, e).value;
      && (Says(s, t, ServerIntro(2, INTRO_OK)) <==> version == 2 && s.authorized)
      && (Says(s, t, ServerIntro(2, AUTH_REQUIRED)) <==> version == 2 && !s.authorized)
      && (Says(s, t, ServerIntro(2, VERSION_MISMATCH)) <==> version != 2)
  {
    SayingIsUnique(s, ServerIntro(2, INTRO_OK), ServerIntro(2, AUTH_REQUIRED));
    SayingIsUnique(s, ServerIntro(2, INTRO_OK), ServerIntro(2, VERSION_MISMATCH));
    SayingIsUnique(s, ServerIntro(2, AUTH_REQUIRED), ServerIntro(2, VERSION_MISMATCH));
  }

  lemma SayingIsUnique(s: Server, a: Body, b: Body)
    ensures s.outbox + [Packet(0, a, [])] == s.outbox + [Packet(0, b, [])] <==> a == b
  {
    assert (s.outbox + [Packet(0, a, [])])[|s.outbox|] == Packet(0, a, []);
    assert (s.outbox + [Packet(0, b, [])])[|s.outbox|] == Packet(0, b, []);
  }

  /** A ping is answered exactly to an authorised client, under its own number and with the clock at that moment. */
  lemma PingAnswer(env: Setup, s: Server, e: Event, id: int)
    requires Takes(s, e) && e.pkt.body == PingRequest(id)
    ensures Step(env, s, e).Some? && Step(env, s, e).value.calls == s.calls
    ensures if s.authorized then Says(s, Step(env, s, e).value, PingResponse(id, e.now))
            else Step(env, s, e).value.outbox == s.outbox
  {
  }

  /** The native mode is told to every authorised client, with OK exactly for the codec the server has. */
  lemma QueryAnswer(env: Setup, s: Server, e: Event, codec: Codec)
    requires Takes(s, e) && e.pkt.body == QueryHostCapsRequest(codec)
    ensures Step(env, s, e).Some? && Step(env, s, e).value.calls == s.calls
    ensures exists status, mode ::
      && Says(s, Step(env, s, e).value, QueryHostCapsResponse(status, mode))
      && (status == CAPS_OK <==> s.authorized && codec == H264_BASELINE)
      && (status == CAPS_UNSUPPORTED_CODEC <==> s.authorized && codec != H264_BASELINE)
      && mode == (if s.authorized then env.native else Mode(0, 0, 0, 0))
  {
    var status := if !s.authorized then CAPS_UNKNOWN
                  else if codec == H264_BASELINE then CAPS_OK else CAPS_UNSUPPORTED_CODEC;
    assert Says(s, Step(env, s, e).value,
                QueryHostCapsResponse(status, if s.authorized then env.native else Mode(0, 0, 0, 0)));
  }

  predicate Usable(m: Mode) { m.width > 0 && m.height > 0 && m.fpsNum > 0 && m.fpsDen > 0 }

  /** When the stream can be configured as requested. */
  predicate Configurable(s: Server, codec: Codec, mode: Mode) {
    s.authorized && !s.streaming && codec == H264_BASELINE && Usable(mode)
  }

  /** The stream is configured, in the mode requested, exactly when it can be; then the answer gives the size captured
      and the size requested, and otherwise neither. */
  lemma ConfigureAnswer(env: Setup, s: Server, e: Event, codec: Codec, mode: Mode)
    requires Takes(s, e) && e.pkt.body == ConfigureStreamRequest(codec, mode)
    ensures Step(env, s, e).Some?
    ensures var t := Step(env, s, e).value;
      && t.calls == (if Configurable(s, codec, mode) then s.calls + [ConfigureCall(mode)] else s.calls)
      && (Configurable(s, codec, mode) ==>
            Says(s, t, ConfigureStreamResponse(
              CONFIGURE_OK, (env.native.width, env.native.height), (mode.width, mode.height))))
      && (!Configurable(s, codec, mode) ==> exists status ::
            && Says(s, t, ConfigureStreamResponse(status, (0, 0), (0, 0)))
            && (status == ALREADY_STREAMING <==> s.authorized && s.streaming)
            && (status == CONFIGURE_UNSUPPORTED_CODEC <==> s.authorized && !s.streaming && codec != H264_BASELINE)
            && status != CONFIGURE_OK)
  {
    if !Configurable(s, codec, mode) {
      var status := if s.authorized && s.streaming then ALREADY_STREAMING
                    else if s.authorized && codec != H264_BASELINE then CONFIGURE_UNSUPPORTED_CODEC
                    else CONFIGURE_UNKNOWN;
      assert Says(s, Step(env, s, e).value, ConfigureStreamResponse(status, (0, 0), (0, 0)));
    }
  }

  /** The stream server is asked to start exactly by an authorised client, and the answer and the mark follow it. */
  lemma StartAnswer(env: Setup, s: Server, e: Event)
    requires Takes(s, e) && e.pkt.body == StartStreamRequest
    ensures Step(env, s, e).Some?
    ensures var t := Step(env, s, e).value;
      && t.calls == (if s.authorized then s.calls + [StartCall] else s.calls)
      && (t.streaming <==> s.streaming || (s.authorized && e.startOk))
      && Says(s, t, StartStreamResponse(if s.authorized && e.startOk then START_OK else START_UNKNOWN))
  {
  }

  // ---------- authentication ----------

  /** What an authentication request is answered: a short nonce and a commitment of the wrong size are refused, and
      otherwise the server announces its nonce's length and commits to it. */
  lemma AuthRequestAnswer(env: Setup, s: Server, e: Event, nonceLen: int, hostname: string)
    requires Takes(s, e) && e.pkt.body == AuthRequest(nonceLen, hostname)
    ensures Step(env, s, e).Some? && Step(env, s, e).value.calls == s.calls
    ensures var t := Step(env, s, e).value;
      var commitment := PartialHash(env.hashes, env.serverCert, env.clientCert, e.nonce);
      if nonceLen < 16 then Says(s, t, AuthResponse(NONCE_TOO_SHORT))
      else if |t.data| != 48 || !e.drbgOk || commitment == None then Says(s, t, AuthResponse(UNKNOWN_ERROR))
      else t.outbox == s.outbox + [Packet(48, ServerPartialHashNotify(|e.nonce|), commitment.value)]
  {
  }

  /** A client nonce is answered by the server's own exactly when it has the length announced and is the one committed
      to; anything else is refused. */
  lemma NonceAnswer(env: Setup, s: Server, e: Event)
    requires Takes(s, e) && e.pkt.body == ClientNonceNotify && e.sendOk
    ensures Step(env, s, e).Some? && Step(env, s, e).value.calls == s.calls
    ensures var t := Step(env, s, e).value;
      if s.authState.Some? && |t.data| == |s.authState.value.clientNonce|
         && PartialHash(env.hashes, s.authState.value.serverCert, s.authState.value.clientCert, t.data)
              == Some(s.authState.value.clientPartialHash)
      then
        && t.awaitingPin && t.outbox == s.outbox + [WithExtra(ServerNonceNotify, s.authState.value.nonce)]
      else
        !t.awaitingPin && Says(s, t, AuthResponse(UNKNOWN_ERROR))
  {
  }

  /** The right line at the prompt is answered OK, authorises the client and stores the SHA-256 of its certificate;
      any other is answered with its own status and changes neither. */
  lemma PinLineAnswer(env: Setup, s: Server, line: string)
    requires s.awaitingPin && s.authState.Some?
    ensures Step(env, s, PinLine(line)).Some? && Step(env, s, PinLine(line)).value.calls == s.calls
    ensures var t := Step(env, s, PinLine(line)).value;
      && !t.awaitingPin
      && if ParsePin(line) == TruePin(env, s.authState.value) then
           && Says(s, t, AuthResponse(AUTH_OK)) && t.authorized
           && t.known == s.known + [CertHashes.CertHash(CertHashes.SHA256, env.hashes.sha256(env.clientCert))]
         else
           Says(s, t, AuthResponse(INCORRECT_PIN)) && t.authorized == s.authorized && t.known == s.known
  {
  }

  // ---------- everything else ----------

  lemma StopAnswer(env: Setup, s: Server, e: Event)
    requires Takes(s, e) && e.pkt.body == StopStreamRequest
    ensures Step(env, s, e).Some?
    ensures var t := Step(env, s, e).value;
      Says(s, t, StopStreamResponse) && t.calls == s.calls + [EndCall] && t.streaming == s.streaming
  {
  }

  predicate IsRequest(b: Body) {
    b.ClientIntro? || b.PingRequest? || b.QueryHostCapsRequest? || b.ConfigureStreamRequest? || b.StartStreamRequest?
    || b.StopStreamRequest? || b.AuthRequest? || b.ClientNonceNotify?
  }

  /** Any other packet is ignored, but for closing a pending authentication and the data it brings. */
  lemma OtherPacketsAreIgnored(env: Setup, s: Server, e: Event)
    requires Takes(s, e) && !IsRequest(e.pkt.body)
    ensures Step(env, s, e)
      == Some(s.(authState := None, data := if e.pkt.extraLen > 0 then e.pkt.extra else s.data))
  {
  }

  /** No packet changes who is authorised or which certificates are known; only a typed line does. */
  lemma PacketsDoNotAuthorise(env: Setup, s: Server, e: Event)
    requires e.Recv? && Step(env, s, e).Some?
    ensures Step(env, s, e).value.authorized == s.authorized && Step(env, s, e).value.known == s.known
  {
  }

  // ---------- when the server streams ----------

  /** A start at position i, by a client authorised before it, to which the stream server agreed. */
  ghost predicate StartsAt(env: Setup, start: Server, es: seq<Event>, i: nat) {
    && i < |es| && es[i].Recv? && es[i].pkt.body.StartStreamRequest? && es[i].startOk
    && Run(env, start, es[..i]).Some? && Run(env, start, es[..i]).value.authorized
  }

  lemma StartsLater(env: Setup, start: Server, es: seq<Event>, n: nat, i: nat)
    requires i < n <= |es|
    ensures StartsAt(env, start, es[..n], i) <==> StartsAt(env, start, es, i)
  {
    assert es[..n][..i] == es[..i] && es[..n][i] == es[i];
  }

  ghost predicate Started(env: Setup, start: Server, es: seq<Event>) {
    exists i: nat :: StartsAt(env, start, es, i)
  }

  lemma StartedGrows(env: Setup, start: Server, es: seq<Event>)
    requires es != []
    ensures var n := |es| - 1;
      Started(env, start, es) <==> Started(env, start, es[..n]) || StartsAt(env, start, es, n)
  {
    var n := |es| - 1;
    if Started(env, start, es[..n]) {
      var i: nat :| StartsAt(env, start, es[..n], i);
      StartsLater(env, start, es, n, i);
    }
    if Started(env, start, es) {
      var i: nat :| StartsAt(env, start, es, i);
      if i < n {
        StartsLater(env, start, es, n, i);
      }
    }
  }

  /** Over every trace, the connection counts as streaming exactly if an authorised client's start succeeded. */
  lemma {:induction false} StreamingExactlyWhenStarted(env: Setup, start: Server, es: seq<Event>)
    requires !start.streaming && Run(env, start, es).Some?
    ensures Run(env, start, es).value.streaming <==> Started(env, start, es)
  {
    if es != [] {
      var n := |es| - 1;
      StreamingExactlyWhenStarted(env, start, es[..n]);
      StreamingStep(env, Run(env, start, es[..n]).value, es[n]);
      StartedGrows(env, start, es);
    }
  }

  lemma StreamingStep(env: Setup, s: Server, e: Event)
    requires Step(env, s, e).Some?
    ensures Step(env, s, e).value.streaming <==>
      s.streaming || (e.Recv? && e.pkt.body.StartStreamRequest? && e.startOk && s.authorized)
  {
  }
}
