/** The nonces both sides commit to before they reveal them. The protocol asks each side to check the other's nonce
    against its commitment: the server does, the client does not. */
module CommitmentChecks {
  import opened Prelude
  import opened Wire
  import opened Commitments
  import opened Connections
  import opened AuthHistory
  import opened StreamClients
  import opened PairingRuns

  // ---------- the client the protocol describes ----------

  /** The nonce in one packet is what the extra data of an earlier one commits to. */
  predicate Keeps(cfg: ClientSetup, promise: Bytes, pkt: Packet) {
    PartialHash(cfg.hashes, cfg.serverCert, cfg.clientCert, ExtraIn(pkt)) == Some(promise)
  }

  /** The client with the check: a nonce that is not the one promised ends it. */
  function CheckingReply(cfg: ClientSetup, c: Client, promise: Bytes, pkt: Packet): Client {
    if c.phase.AwaitServerNonce? && !Keeps(cfg, promise, pkt) then c.(phase := Failed) else OnReply(cfg, c, pkt)
  }

  function CheckingConverse(cfg: ClientSetup, c: Client, promise: Bytes, replies: seq<Packet>): Client
    decreases |replies|
  {
    if !Waiting(c.phase) then c
    else if replies == [] then c.(phase := Failed)
    else
      var noted := if c.phase.AwaitPartialHash? then ExtraIn(replies[0]) else promise;
      CheckingConverse(cfg, CheckingReply(cfg, c, promise, replies[0]), noted, replies[1..])
  }

  // ---------- when the client meets it ----------

  lemma {:induction false} SameBehindTheNonce(cfg: ClientSetup, c: Client, promise: Bytes, replies: seq<Packet>)
    requires PastAuth(c.phase) || c.phase.AwaitAuthResponse?
    ensures CheckingConverse(cfg, c, promise, replies) == Converse(cfg, c, replies)
    decreases |replies|
  {
    if Waiting(c.phase) && replies != [] {
      SameBehindTheNonce(cfg, OnReply(cfg, c, replies[0]), promise, replies[1..]);
    }
  }

  lemma SameFromTheNonceExactly(cfg: ClientSetup, c: Client, promise: Bytes, replies: seq<Packet>)
    requires c.phase.AwaitServerNonce? && c.shown.None?
    ensures CheckingConverse(cfg, c, promise, replies) == Converse(cfg, c, replies)
            <==> (NonceFirst(cfg, replies) ==> Keeps(cfg, promise, replies[0]))
    ensures NonceFirst(cfg, replies) && !Keeps(cfg, promise, replies[0]) ==>
      CheckingConverse(cfg, c, promise, replies) == c.(phase := Failed)
  {
    VerdictDecides(cfg, c, replies);
    if replies != [] {
      var checked := CheckingReply(cfg, c, promise, replies[0]);
      assert CheckingConverse(cfg, c, promise, replies) == CheckingConverse(cfg, checked, promise, replies[1..]);
      SameBehindTheNonce(cfg, checked, promise, replies[1..]);
    }
  }

  /** Whatever a server sends: the client behaves as the one with the check if and only if the third reply does not
      give a PIN from a nonce other than the one promised in the second. The one with the check then shows none. */
  lemma ClientConformsExactly(cfg: ClientSetup, forceAuth: bool, host: CertHashes.CertHash, replies: seq<Packet>)
    ensures CheckingConverse(cfg, Boot(forceAuth, host), [], replies) == Converse(cfg, Boot(forceAuth, host), replies)
            <==> (GivesPin(cfg, forceAuth, replies) ==> Keeps(cfg, ExtraIn(replies[1]), replies[2]))
    ensures GivesPin(cfg, forceAuth, replies) && !Keeps(cfg, ExtraIn(replies[1]), replies[2]) ==>
      CheckingConverse(cfg, Boot(forceAuth, host), [], replies).shown.None?
  {
    var c := Boot(forceAuth, host);
    if replies != [] {
      var c1, rest := OnReply(cfg, c, replies[0]), replies[1..];
      assert CheckingConverse(cfg, c, [], replies) == CheckingConverse(cfg, c1, [], rest);
      if !c1.phase.AwaitPartialHash? {
        SameBehindTheNonce(cfg, c1, [], rest);
      } else if rest != [] {
        PromisedThenRevealed(cfg, c1, [], rest);
        assert rest[1..] == replies[2..];
      }
    }
  }

  lemma PromisedThenRevealed(cfg: ClientSetup, c: Client, promise: Bytes, replies: seq<Packet>)
    requires c.phase.AwaitPartialHash? && c.shown.None? && replies != []
    ensures CheckingConverse(cfg, c, promise, replies) == Converse(cfg, c, replies) <==>
      (OnReply(cfg, c, replies[0]).phase.AwaitServerNonce? && NonceFirst(cfg, replies[1..]) ==>
         Keeps(cfg, ExtraIn(replies[0]), replies[1]))
    ensures (OnReply(cfg, c, replies[0]).phase.AwaitServerNonce? && NonceFirst(cfg, replies[1..])
             && !Keeps(cfg, ExtraIn(replies[0]), replies[1])) ==>
      CheckingConverse(cfg, c, promise, replies).shown.None?
  {
    var next, rest := OnReply(cfg, c, replies[0]), replies[1..];
    assert CheckingConverse(cfg, c, promise, replies) == CheckingConverse(cfg, next, ExtraIn(replies[0]), rest);
    assert Converse(cfg, c, replies) == Converse(cfg, next, rest);
    if next.phase.AwaitServerNonce? {
      SameFromTheNonceExactly(cfg, next, ExtraIn(replies[0]), rest);
    }
  }

  // ---------- when it does not ----------

  /** The extra data of the packet that carries the commitment makes no difference to the client. */
  lemma CommitmentNotRead(cfg: ClientSetup, c: Client, p: Packet, q: Packet, rest: seq<Packet>)
    requires c.phase.AwaitPartialHash? && p.body == q.body
    ensures Converse(cfg, c, [p] + rest) == Converse(cfg, c, [q] + rest)
  {
    ScriptGoesOn(cfg, c, p, rest);
    ScriptGoesOn(cfg, c, q, rest);
  }

  /** A nonce other than the one promised is refused if and only if no PIN can be computed from it. */
  lemma MismatchRefusedExactly(cfg: ClientSetup, c: Client, p: Packet, n: Packet)
    requires c.phase.AwaitPartialHash? && p.body.ServerPartialHashNotify? && p.body.nonceLen >= 16
    requires n.body.ServerNonceNotify? && !Keeps(cfg, ExtraIn(p), n)
    ensures OnReply(cfg, OnReply(cfg, c, p), n).phase.Failed? <==> PinFrom(cfg, n) < 0
  {
  }

  /** The replies to a client that asks for the capabilities. */
  function Negotiation(native: Mode): seq<Packet> {
    [Plain(QueryHostCapsResponse(CAPS_OK, native))]
    + ([Plain(ConfigureStreamResponse(CONFIGURE_OK, (0, 0), (0, 0)))] + [Plain(StartStreamResponse(START_OK))])
  }

  function Verdict(nonce: Bytes, native: Mode): seq<Packet> {
    [WithExtra(ServerNonceNotify, nonce)] + ([Plain(AuthResponse(AUTH_OK))] + Negotiation(native))
  }

  /** Replies with any commitment and any nonce, approved. */
  function Replies(promise: Bytes, nonce: Bytes, native: Mode): seq<Packet> {
    [Plain(ServerIntro(PROTOCOL_VERSION, AUTH_REQUIRED))]
    + ([WithExtra(ServerPartialHashNotify(|nonce|), promise)] + Verdict(nonce, native))
  }

  lemma Negotiates(cfg: ClientSetup, c: Client, native: Mode)
    requires c.phase.AwaitCaps? && c.carried == 0
    ensures Converse(cfg, c, Negotiation(native)).phase.Connected?
  {
    var caps := Plain(QueryHostCapsResponse(CAPS_OK, native));
    var configured := Plain(ConfigureStreamResponse(CONFIGURE_OK, (0, 0), (0, 0)));
    var started := [Plain(StartStreamResponse(START_OK))];
    ScriptGoesOn(cfg, c, caps, [configured] + started);
    ScriptGoesOn(cfg, OnReply(cfg, c, caps), configured, started);
  }

  lemma Decided(cfg: ClientSetup, c: Client, nonce: Bytes, native: Mode)
    requires c.phase.AwaitServerNonce? && c.carried == 0 && PinFrom(cfg, WithExtra(ServerNonceNotify, nonce)) >= 0
    ensures NonceApproved(cfg, Verdict(nonce, native)) && Converse(cfg, c, Verdict(nonce, native)).phase.Connected?
  {
    var notice, approval := WithExtra(ServerNonceNotify, nonce), Plain(AuthResponse(AUTH_OK));
    ScriptGoesOn(cfg, c, notice, [approval] + Negotiation(native));
    ScriptGoesOn(cfg, OnReply(cfg, c, notice), approval, Negotiation(native));
    Negotiates(cfg, OnReply(cfg, OnReply(cfg, c, notice), approval), native);
  }

  /** Replies whose commitment has nothing to do with the nonce: the client shows the PIN, stores the hash and is
      connected, which with the check it would not be. */
  lemma MismatchIsTrusted(cfg: ClientSetup, host: CertHashes.CertHash, promise: Bytes, nonce: Bytes, native: Mode)
    requires cfg.rngOk && PartialHash(cfg.hashes, cfg.serverCert, cfg.clientCert, cfg.nonce).Some?
    requires |nonce| >= 16 && PinFrom(cfg, WithExtra(ServerNonceNotify, nonce)) >= 0
    requires PartialHash(cfg.hashes, cfg.serverCert, cfg.clientCert, nonce) != Some(promise)
    ensures var end := Converse(cfg, Boot(false, host), Replies(promise, nonce, native));
      && end.phase.Connected? && end.hostHash == OwnHash(cfg)
      && end.shown == Some(PinFrom(cfg, WithExtra(ServerNonceNotify, nonce)))
    ensures CheckingConverse(cfg, Boot(false, host), [], Replies(promise, nonce, native))
      != Converse(cfg, Boot(false, host), Replies(promise, nonce, native))
  {
    var c, rs := Boot(false, host), Replies(promise, nonce, native);
    assert rs[1..][1..] == rs[2..] == Verdict(nonce, native);
    ScriptGoesOn(cfg, c, rs[0], rs[1..]);
    var c1 := OnReply(cfg, c, rs[0]);
    ScriptGoesOn(cfg, c1, rs[1], rs[2..]);
    Decided(cfg, OnReply(cfg, c1, rs[1]), nonce, native);
    TrustedExactlyWhenApproved(cfg, false, host, rs);
    ClientConformsExactly(cfg, false, host, rs);
  }

  // ---------- what the check is for ----------

  /** Two nonces that SHA-384 takes to the same 48 bytes, each behind both certificates. */
  predicate Collide(h: Hashes, serverCert: Bytes, clientCert: Bytes, a: Bytes, b: Bytes) {
    HashesCollide(h, serverCert + clientCert + a, serverCert + clientCert + b)
  }

  /** The client with the check: once the server has sent its commitment it can still make the client show one PIN or
      another only with two nonces that collide. */
  lemma CheckedPinIsFixed(
    cfg: ClientSetup, forceAuth: bool, host: CertHashes.CertHash, replies: seq<Packet>, others: seq<Packet>)
    requires |replies| >= 2 && |others| >= 2 && replies[..2] == others[..2]
    requires CheckingConverse(cfg, Boot(forceAuth, host), [], replies).shown.Some?
    requires CheckingConverse(cfg, Boot(forceAuth, host), [], others).shown.Some?
    ensures |replies| >= 3 && |others| >= 3
    ensures CheckingConverse(cfg, Boot(forceAuth, host), [], replies).shown
        == CheckingConverse(cfg, Boot(forceAuth, host), [], others).shown
      || Collide(cfg.hashes, cfg.serverCert, cfg.clientCert, ExtraIn(replies[2]), ExtraIn(others[2]))
  {
    ClientConformsExactly(cfg, forceAuth, host, replies);
    ClientConformsExactly(cfg, forceAuth, host, others);
    TrustedExactlyWhenApproved(cfg, forceAuth, host, replies);
    TrustedExactlyWhenApproved(cfg, forceAuth, host, others);
    assert replies[1] == replies[..2][1] == others[1];
    if ExtraIn(replies[2]) != ExtraIn(others[2]) {
      CommitmentBinds(cfg.hashes, cfg.serverCert, cfg.clientCert, ExtraIn(replies[2]), ExtraIn(others[2]));
    }
  }

  /** The client as it is: after the same two replies it still shows the PIN of any nonce at all. */
  lemma PinIsNotFixed(
    cfg: ClientSetup, forceAuth: bool, host: CertHashes.CertHash, replies: seq<Packet>, nonce: Bytes)
    requires Promises(cfg, forceAuth, replies) && PinFrom(cfg, WithExtra(ServerNonceNotify, nonce)) >= 0
    ensures Converse(cfg, Boot(forceAuth, host), replies[..2] + [WithExtra(ServerNonceNotify, nonce)]).shown
      == Some(PinFrom(cfg, WithExtra(ServerNonceNotify, nonce)))
  {
    TrustedExactlyWhenApproved(cfg, forceAuth, host, replies[..2] + [WithExtra(ServerNonceNotify, nonce)]);
  }

  lemma {:induction false} DataOfPrefix(es: seq<Event>, others: seq<Event>, n: nat)
    requires n <= |es| && n <= |others| && es[..n] == others[..n]
    ensures DataAfter(es, n) == DataAfter(others, n)
  {
    if n > 0 {
      assert es[n - 1] == es[..n][n - 1] == others[n - 1];
      assert es[..n][..n - 1] == es[..n - 1] && others[..n][..n - 1] == others[..n - 1];
      DataOfPrefix(es, others, n - 1);
    }
  }

  /** The server checks: once it has taken up the client's commitment, one PIN or another can still authorise the
      client only with two nonces that collide. */
  lemma ServerPinIsFixed(env: Setup, es: seq<Event>, others: seq<Event>, i: nat, j: nat, k: nat)
    requires Grants(env, es, i, j) && Grants(env, others, i, k)
    requires es[..i + 1] == others[..i + 1]
    ensures ExchangePin(env, es, i, j) == ExchangePin(env, others, i, k)
      || Collide(env.hashes, env.serverCert, env.clientCert, DataAfter(es, j + 1), DataAfter(others, k + 1))
  {
    DataOfPrefix(es, others, i + 1);
    assert es[i] == es[..i + 1][i] == others[i];
    if DataAfter(es, j + 1) != DataAfter(others, k + 1) {
      CommitmentBinds(env.hashes, env.serverCert, env.clientCert, DataAfter(es, j + 1), DataAfter(others, k + 1));
    }
  }

  // ---------- the comparison of the two PINs ----------

  /** Whatever either side was told, by whomever: the server authorises a client whose displayed PIN is typed at its
      prompt if and only if the PIN of the certificates and nonces it saw is the PIN of those the client saw. */
  lemma CopiedPinIsComparedExactly(
    env: Setup, s: Server, cfg: ClientSetup, forceAuth: bool, host: CertHashes.CertHash, replies: seq<Packet>,
    line: string)
    requires s.awaitingPin && s.authState.Some? && !s.authorized
    requires var shown := Converse(cfg, Boot(forceAuth, host), replies).shown; shown.Some? && Copies(line, shown.value)
    ensures Step(env, s, PinLine(line)).Some? && GivesPin(cfg, forceAuth, replies)
    ensures Step(env, s, PinLine(line)).value.authorized
            <==> TruePin(env, s.authState.value) == PinFrom(cfg, replies[2])
  {
    TrustedExactlyWhenApproved(cfg, forceAuth, host, replies);
    PinCode.DisplayedPinIsRead(PinFrom(cfg, replies[2]), line);
  }

  // ---------- honest servers pass the check ----------

  /** The server has promised the nonce it drew, at the second place, and reveals it at the third. */
  predicate PromiseInv(w: World, s: System) {
    && (AuthNeeded(w) ==>
          match s.client.phase
          case AwaitIntro(_) => s.got == 0
          case AwaitPartialHash =>
            && s.got == 1 && |s.server.outbox| <= 2
            && (|s.server.outbox| == 2 ==>
                  s.server.authState.Some? && Promised(w, s.server.outbox[1], s.server.authState.value.nonce))
          case AwaitServerNonce =>
            && s.got == 2 && s.server.authState.Some? && |s.server.outbox| >= 2
            && Promised(w, s.server.outbox[1], s.server.authState.value.nonce)
          case _ => |s.server.outbox| >= 3 && Keeps(w.cfg, ExtraIn(s.server.outbox[1]), s.server.outbox[2]))
  }

  predicate Promised(w: World, pkt: Packet, nonce: Bytes) {
    PartialHash(w.cfg.hashes, w.cfg.serverCert, w.cfg.clientCert, nonce) == Some(ExtraIn(pkt))
  }

  lemma RequestGrows(env: Setup, s: Server, e: Event)
    requires e.Recv? && e.pkt.body.AuthRequest?
    ensures s.outbox <= OnAuthRequest(env, s, e.pkt.body.nonceLen, e.pkt.body.hostname, e.nonce, e.drbgOk).outbox
  {
  }

  lemma NonceGrows(env: Setup, s: Server, sendOk: bool)
    ensures s.outbox <= OnClientNonce(env, s, sendOk).outbox
  {
  }

  lemma OutboxGrows(env: Setup, s: Server, e: Event)
    requires Step(env, s, e).Some?
    ensures s.outbox <= Step(env, s, e).value.outbox
  {
    if e.Recv? {
      if e.pkt.body.AuthRequest? {
        RequestGrows(env, Received(s, e.pkt), e);
      } else if e.pkt.body.ClientNonceNotify? {
        NonceGrows(env, Received(s, e.pkt), e.sendOk);
      }
    }
  }

  lemma ServerPromises(w: World, s: System, nonce: Bytes, now: int)
    requires Honest(w) && Inv(w, s) && PromiseInv(w, s) && s.client.phase.AwaitPartialHash?
    requires Next(w, s, ServerTakes(nonce, now)).Some?
    ensures PromiseInv(w, Next(w, s, ServerTakes(nonce, now)).value)
  {
    ServerOpens(w, s, nonce, now);
  }

  lemma ServerKeepsPromise(w: World, s: System, nonce: Bytes, now: int)
    requires Honest(w) && Inv(w, s) && PromiseInv(w, s) && !s.client.phase.AwaitPartialHash?
    requires Next(w, s, ServerTakes(nonce, now)).Some?
    ensures PromiseInv(w, Next(w, s, ServerTakes(nonce, now)).value)
  {
    OutboxGrows(w.env, s.server, TakeEvent(s, nonce, now));
    MoveAdvances(w, s, ServerTakes(nonce, now));
  }

  lemma MoveKeepsPromise(w: World, s: System, m: Move)
    requires Honest(w) && Inv(w, s) && PromiseInv(w, s) && Next(w, s, m).Some?
    ensures PromiseInv(w, Next(w, s, m).value)
  {
    match m
    case ServerTakes(nonce, now) =>
      if s.client.phase.AwaitPartialHash? {
        ServerPromises(w, s, nonce, now);
      } else {
        ServerKeepsPromise(w, s, nonce, now);
      }
    case ClientTakes => MoveAdvances(w, s, m);
    case UserTypes(line) => OutboxGrows(w.env, s.server, PinLine(line));
  }

  /** The client is where the script takes it on the packets it has had. */
  ghost predicate OnScript(w: World, s: System) {
    && s.got <= |s.server.outbox|
    && forall rest :: Converse(w.cfg, Boot(w.forceAuth, w.hostHash), s.server.outbox[..s.got] + rest)
                        == Converse(w.cfg, s.client, rest)
  }

  lemma MoveKeepsScript(w: World, s: System, m: Move)
    requires OnScript(w, s) && Next(w, s, m).Some?
    ensures OnScript(w, Next(w, s, m).value)
  {
    var t := Next(w, s, m).value;
    match m
    case ClientTakes =>
      var pkt := s.server.outbox[s.got];
      forall rest
        ensures Converse(w.cfg, Boot(w.forceAuth, w.hostHash), t.server.outbox[..t.got] + rest)
          == Converse(w.cfg, t.client, rest)
      {
        ScriptGoesOn(w.cfg, s.client, pkt, rest);
        assert t.server.outbox[..t.got] + rest == s.server.outbox[..s.got] + ([pkt] + rest);
      }
    case ServerTakes(nonce, now) =>
      OutboxGrows(w.env, s.server, TakeEvent(s, nonce, now));
      assert t.server.outbox[..t.got] == s.server.outbox[..s.got];
    case UserTypes(line) =>
      OutboxGrows(w.env, s.server, PinLine(line));
      assert t.server.outbox[..t.got] == s.server.outbox[..s.got];
  }

  lemma {:induction false} RunKeepsPromise(w: World, moves: seq<Move>)
    requires Honest(w) && PairingRuns.Run(w, moves).Some?
    ensures var s := PairingRuns.Run(w, moves).value; Inv(w, s) && PromiseInv(w, s) && OnScript(w, s)
  {
    RunKeepsInv(w, moves);
    if moves == [] {
      assert forall rest: seq<Packet> :: [] + rest == rest;
    } else {
      var front, last := moves[..|moves| - 1], moves[|moves| - 1];
      var s := PairingRuns.Run(w, front).value;
      RunKeepsPromise(w, front);
      MoveKeepsPromise(w, s, last);
      MoveKeepsScript(w, s, last);
    }
  }

  /** Honest servers keep their promise, so the check would cost nothing: whenever an honest run connects the client,
      the client with the check, on the same packets, ends the same. */
  lemma CheckedClientConnectsToo(w: World, moves: seq<Move>)
    requires Honest(w) && PairingRuns.Run(w, moves).Some? && PairingRuns.Run(w, moves).value.client.phase.Connected?
    ensures var s := PairingRuns.Run(w, moves).value;
      && s.got <= |s.server.outbox|
      && CheckingConverse(w.cfg, Boot(w.forceAuth, w.hostHash), [], s.server.outbox[..s.got]) == s.client
  {
    RunKeepsPromise(w, moves);
    var s := PairingRuns.Run(w, moves).value;
    var had := s.server.outbox[..s.got];
    assert had + [] == had;
    TrustedExactlyWhenApproved(w.cfg, w.forceAuth, w.hostHash, had);
    ClientConformsExactly(w.cfg, w.forceAuth, w.hostHash, had);
  }
}
