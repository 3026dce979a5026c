/** How a connection came to be authorised, over every trace of packets and typed lines. */
module AuthHistory {
  import opened Prelude
  import opened Wire
  import opened Commitments
  import opened Connections
  import opened PinCode

  /** The receive buffer after the first n events: the last extra data received. */
  function DataAfter(es: seq<Event>, n: nat): Bytes
    requires n <= |es|
  {
    if n == 0 then []
    else if es[n - 1].Recv? && es[n - 1].pkt.extraLen > 0 then es[n - 1].pkt.extra
    else DataAfter(es, n - 1)
  }

  /** Event i is an authentication request the server takes up, with a commitment of 48 bytes. */
  predicate TakesUp(es: seq<Event>, i: nat)
    requires i < |es|
  {
    && es[i].Recv? && es[i].pkt.body.AuthRequest?
    && es[i].pkt.body.nonceLen >= 16
    && |DataAfter(es, i + 1)| == 48
  }

  predicate KeepsOpen(e: Event) {
    e.PinLine? || e.pkt.body.ClientNonceNotify?
  }

  /** The request at i is still pending after the first n events. */
  predicate Pending(es: seq<Event>, i: nat, n: nat)
    requires i < n <= |es|
  {
    TakesUp(es, i) && forall k :: i < k < n ==> KeepsOpen(es[k])
  }

  /** Event j reveals a client nonce of the announced length that matches the commitment of request i. */
  predicate Reveals(env: Setup, es: seq<Event>, i: nat, j: nat)
    requires i < j < |es| && TakesUp(es, i)
  {
    && es[j].Recv? && es[j].pkt.body.ClientNonceNotify? && es[j].sendOk
    && |DataAfter(es, j + 1)| == es[i].pkt.body.nonceLen
    && PartialHash(env.hashes, env.serverCert, env.clientCert, DataAfter(es, j + 1)) == Some(DataAfter(es, i + 1))
  }

  /** The PIN of the exchange opened at i, with the client nonce revealed at j. */
  function ExchangePin(env: Setup, es: seq<Event>, i: nat, j: nat): int
    requires i < j < |es| && es[i].Recv?
  {
    ComputePin(env.hashes, env.serverCert, env.clientCert, es[i].nonce, DataAfter(es, j + 1))
  }

  /** Request i, still pending, is answered by the nonce at j and by the right PIN just after it. */
  ghost predicate Grants(env: Setup, es: seq<Event>, i: nat, j: nat) {
    && i < j && j + 1 < |es|
    && Pending(es, i, j + 2)
    && Reveals(env, es, i, j)
    && es[j + 1].PinLine?
    && ParsePin(es[j + 1].line) == ExchangePin(env, es, i, j)
  }

  /** The request pending after the first n events, if any. */
  function OpenedAt(es: seq<Event>, n: nat): (r: Option<nat>)
    requires n <= |es|
    ensures r.Some? ==> r.value < n && Pending(es, r.value, n)
  {
    if n == 0 then None
    else if KeepsOpen(es[n - 1]) then OpenedAt(es, n - 1)
    else if TakesUp(es, n - 1) then Some(n - 1)
    else None
  }

  /** The server's memory of a pending request is what the trace says. */
  predicate Remembers(env: Setup, es: seq<Event>, i: nat, a: AuthState)
    requires i < |es| && es[i].Recv? && es[i].pkt.body.AuthRequest?
  {
    && a.serverCert == env.serverCert && a.clientCert == env.clientCert
    && a.nonce == es[i].nonce && a.hostname == es[i].pkt.body.hostname
    && a.clientPartialHash == DataAfter(es, i + 1)
    && |a.clientNonce| == es[i].pkt.body.nonceLen
  }

  predicate PendingIs(env: Setup, es: seq<Event>, a: Option<AuthState>) {
    var open := OpenedAt(es, |es|);
    && a.Some? == open.Some?
    && (open.Some? ==> Remembers(env, es, open.value, a.value))
  }

  predicate PendingInv(env: Setup, es: seq<Event>, s: Server) { PendingIs(env, es, s.authState) }

  /** While the prompt is open the last event revealed the nonce the server remembers. */
  predicate PromptInv(env: Setup, es: seq<Event>, s: Server) {
    var open := OpenedAt(es, |es|);
    s.awaitingPin ==>
      && s.authState.Some? && open.Some? && open.value < |es| - 1
      && s.authState.value.clientNonce == DataAfter(es, |es|)
      && Reveals(env, es, open.value, |es| - 1)
  }

  ghost predicate Granted(env: Setup, es: seq<Event>) {
    exists i: nat, j: nat :: Grants(env, es, i, j)
  }

  ghost predicate TraceInv(env: Setup, start: Server, es: seq<Event>, s: Server) {
    && s.data == DataAfter(es, |es|)
    && PendingInv(env, es, s)
    && PromptInv(env, es, s)
    && (s.authorized <==> start.authorized || Granted(env, es))
  }

  // ---------- extending a trace ----------

  lemma {:induction false} ExtendTrace(es: seq<Event>, e: Event, n: nat)
    requires n <= |es|
    ensures DataAfter(es + [e], n) == DataAfter(es, n)
    ensures OpenedAt(es + [e], n) == OpenedAt(es, n)
    decreases n
  {
    if n > 0 {
      ExtendTrace(es, e, n - 1);
      ExtendData(es, e, n);
    }
  }

  lemma {:induction false} ExtendData(es: seq<Event>, e: Event, n: nat)
    requires n <= |es|
    ensures DataAfter(es + [e], n) == DataAfter(es, n)
  {
    if n > 0 {
      ExtendData(es, e, n - 1);
    }
  }

  lemma TakesUpExtend(es: seq<Event>, e: Event, i: nat)
    requires i < |es|
    ensures TakesUp(es + [e], i) == TakesUp(es, i)
    ensures DataAfter(es + [e], i + 1) == DataAfter(es, i + 1)
  {
    ExtendData(es, e, i + 1);
  }

  lemma GrantsExtend(env: Setup, es: seq<Event>, e: Event, i: nat, j: nat)
    ensures Grants(env, es, i, j) ==> Grants(env, es + [e], i, j)
    ensures Grants(env, es + [e], i, j) && j + 1 < |es| ==> Grants(env, es, i, j)
  {
    if i < j && j + 1 < |es| {
      TakesUpExtend(es, e, i);
      TakesUpExtend(es, e, j);
      assert forall k :: 0 <= k < |es| ==> (es + [e])[k] == es[k];
    }
  }

  /** The one way a longer trace can grant more: its last event is the right PIN. */
  ghost predicate GrantsLast(env: Setup, es: seq<Event>) {
    && |es| >= 2 && es[|es| - 1].PinLine?
    && var open := OpenedAt(es, |es|);
    && open.Some? && open.value < |es| - 2
    && Reveals(env, es, open.value, |es| - 2)
    && ParsePin(es[|es| - 1].line) == ExchangePin(env, es, open.value, |es| - 2)
  }

  lemma PendingIsOpened(es: seq<Event>, i: nat, n: nat)
    requires i < n <= |es| && Pending(es, i, n)
    ensures OpenedAt(es, n) == Some(i)
    decreases n
  {
    if n > i + 1 {
      assert KeepsOpen(es[n - 1]);
      PendingIsOpened(es, i, n - 1);
    }
  }

  lemma GrantedExtend(env: Setup, es: seq<Event>, e: Event)
    ensures Granted(env, es + [e]) <==> Granted(env, es) || GrantsLast(env, es + [e])
  {
    if Granted(env, es) {
      var i: nat, j: nat :| Grants(env, es, i, j);
      GrantsExtend(env, es, e, i, j);
    }
    if GrantsLast(env, es + [e]) {
      assert Grants(env, es + [e], OpenedAt(es + [e], |es| + 1).value, |es| - 1);
    }
    if Granted(env, es + [e]) && !Granted(env, es) {
      var i: nat, j: nat :| Grants(env, es + [e], i, j);
      GrantsExtend(env, es, e, i, j);
      assert j + 1 == |es|;
      PendingIsOpened(es + [e], i, j + 2);
    }
  }

  // ---------- steps ----------

  /** Packets that are neither authentication request nor nonce leave no exchange pending. */
  lemma OtherPacketCloses(env: Setup, s: Server, e: Event)
    requires e.Recv? && !e.pkt.body.AuthRequest? && !e.pkt.body.ClientNonceNotify? && Step(env, s, e).Some?
    ensures var t := Step(env, s, e).value;
      t.authState.None? && !t.awaitingPin && t.authorized == s.authorized
      && t.data == (if e.pkt.extraLen > 0 then e.pkt.extra else s.data)
  {
  }

  lemma StepKeepsTrace(env: Setup, start: Server, es: seq<Event>, s: Server, e: Event)
    requires TraceInv(env, start, es, s) && Step(env, s, e).Some?
    ensures TraceInv(env, start, es + [e], Step(env, s, e).value)
  {
    ExtendTrace(es, e, |es|);
    GrantedExtend(env, es, e);
    if e.PinLine? {
      PinLineKeepsTrace(env, es, s, e);
    } else if e.pkt.body.ClientNonceNotify? {
      NonceReveals(env, s, e);
      RevealedKeepsTrace(env, es, s, e, Step(env, s, e).value);
    } else if e.pkt.body.AuthRequest? {
      RequestOpens(env, s, e);
      OpenedKeepsTrace(env, es, e, Step(env, s, e).value);
    } else {
      OtherPacketCloses(env, s, e);
    }
  }

  lemma PinLineKeepsTrace(env: Setup, es: seq<Event>, s: Server, e: Event)
    requires s.data == DataAfter(es, |es|) && PendingInv(env, es, s) && PromptInv(env, es, s)
    requires e.PinLine? && Step(env, s, e).Some?
    ensures var t := Step(env, s, e).value;
      && t.data == DataAfter(es + [e], |es| + 1) && PendingInv(env, es + [e], t) && PromptInv(env, es + [e], t)
      && (t.authorized <==> s.authorized || GrantsLast(env, es + [e]))
  {
    PinLineLeaves(env, s, e);
    PinLineKeepsPending(env, es, s, e, Step(env, s, e).value);
    PinLineGrants(env, es, s, e);
  }

  lemma PinLineKeepsPending(env: Setup, es: seq<Event>, s: Server, e: Event, t: Server)
    requires s.data == DataAfter(es, |es|) && PendingInv(env, es, s) && e.PinLine?
    requires t.data == s.data && t.authState == s.authState && !t.awaitingPin
    ensures t.data == DataAfter(es + [e], |es| + 1) && PendingInv(env, es + [e], t) && PromptInv(env, es + [e], t)
  {
    DataStays(es, e);
    StillPending(env, es, s.authState, e);
  }

  lemma DataStays(es: seq<Event>, e: Event)
    requires e.PinLine?
    ensures DataAfter(es + [e], |es| + 1) == DataAfter(es, |es|)
  {
    ExtendData(es, e, |es|);
  }

  /** A typed line ends the prompt and leaves the pending request and the receive buffer as they were. */
  lemma PinLineLeaves(env: Setup, s: Server, e: Event)
    requires e.PinLine? && Step(env, s, e).Some?
    ensures var t := Step(env, s, e).value; t.data == s.data && t.authState == s.authState && !t.awaitingPin
  {
  }

  lemma StillPending(env: Setup, es: seq<Event>, a: Option<AuthState>, e: Event)
    requires PendingIs(env, es, a) && e.PinLine?
    ensures PendingIs(env, es + [e], a)
  {
    ExtendTrace(es, e, |es|);
    if a.Some? {
      TakesUpExtend(es, e, OpenedAt(es, |es|).value);
    }
  }

  lemma PinLineGrants(env: Setup, es: seq<Event>, s: Server, e: Event)
    requires PendingInv(env, es, s) && PromptInv(env, es, s)
    requires e.PinLine? && Step(env, s, e).Some?
    ensures Step(env, s, e).value.authorized <==> s.authorized || GrantsLast(env, es + [e])
  {
    ExtendTrace(es, e, |es|);
    var i := OpenedAt(es, |es|).value;
    TakesUpExtend(es, e, i);
    TakesUpExtend(es, e, |es| - 1);
  }

  /** What a taken-up authentication request leaves behind. */
  predicate OpenedBy(env: Setup, e: Event, t: Server)
    requires e.Recv? && e.pkt.body.AuthRequest?
  {
    && !t.awaitingPin
    && t.authState.Some? == (e.pkt.body.nonceLen >= 16 && |t.data| == 48)
    && (t.authState.Some? ==>
        var a := t.authState.value;
        && a.serverCert == env.serverCert && a.clientCert == env.clientCert && a.nonce == e.nonce
        && a.hostname == e.pkt.body.hostname
        && a.clientPartialHash == t.data && |a.clientNonce| == e.pkt.body.nonceLen)
  }

  lemma RequestOpens(env: Setup, s: Server, e: Event)
    requires e.Recv? && e.pkt.body.AuthRequest? && Step(env, s, e).Some?
    ensures var t := Step(env, s, e).value;
      && OpenedBy(env, e, t) && t.authorized == s.authorized
      && t.data == (if e.pkt.extraLen > 0 then e.pkt.extra else s.data)
  {
  }

  lemma OpenedKeepsTrace(env: Setup, es: seq<Event>, e: Event, t: Server)
    requires e.Recv? && e.pkt.body.AuthRequest? && OpenedBy(env, e, t)
    requires t.data == DataAfter(es + [e], |es| + 1)
    ensures PendingInv(env, es + [e], t)
  {
    var all := es + [e];
    assert all[|es|] == e;
    assert TakesUp(all, |es|) == t.authState.Some?;
    assert OpenedAt(all, |all|) == if t.authState.Some? then Some(|es|) else None;
  }

  /** What a revealed nonce does to the pending request it meets. */
  predicate RevealedBy(env: Setup, s: Server, e: Event, t: Server)
    requires e.Recv?
  {
    && t.authState.Some? == s.authState.Some?
    && (t.authState.Some? ==>
        && t.authState.value == s.authState.value.(clientNonce := t.authState.value.clientNonce)
        && |t.authState.value.clientNonce| == |s.authState.value.clientNonce|)
    && (t.awaitingPin ==>
        && t.authState.Some? && e.sendOk
        && t.authState.value.clientNonce == t.data
        && PartialHash(env.hashes, t.authState.value.serverCert, t.authState.value.clientCert, t.data)
             == Some(t.authState.value.clientPartialHash))
  }

  lemma NonceReveals(env: Setup, s: Server, e: Event)
    requires e.Recv? && e.pkt.body.ClientNonceNotify? && Step(env, s, e).Some?
    ensures var t := Step(env, s, e).value;
      && RevealedBy(env, s, e, t) && t.authorized == s.authorized
      && t.data == (if e.pkt.extraLen > 0 then e.pkt.extra else s.data)
  {
  }

  lemma RevealedKeepsTrace(env: Setup, es: seq<Event>, s: Server, e: Event, t: Server)
    requires e.Recv? && e.pkt.body.ClientNonceNotify? && RevealedBy(env, s, e, t)
    requires PendingInv(env, es, s)
    requires t.data == DataAfter(es + [e], |es| + 1)
    ensures PendingInv(env, es + [e], t) && PromptInv(env, es + [e], t)
  {
    var all := es + [e];
    assert all[|es|] == e && KeepsOpen(e);
    ExtendTrace(es, e, |es|);
    assert OpenedAt(all, |all|) == OpenedAt(es, |es|);
    if s.authState.Some? {
      var i := OpenedAt(es, |es|).value;
      TakesUpExtend(es, e, i);
      assert all[i] == es[i];
      assert Remembers(env, all, i, t.authState.value);
    }
  }

  lemma {:induction false} RunKeepsTrace(env: Setup, start: Server, es: seq<Event>)
    requires start == Connected(start.authorized, start.known)
    requires Run(env, start, es).Some?
    ensures TraceInv(env, start, es, Run(env, start, es).value)
  {
    if es != [] {
      var front, last := es[..|es| - 1], es[|es| - 1];
      RunKeepsTrace(env, start, front);
      StepKeepsTrace(env, start, front, Run(env, start, front).value, last);
      assert front + [last] == es;
    }
  }

  // ---------- results ----------

  /** A connection is authorised exactly when its certificate was recognised at connect, or the trace holds an
      authentication request followed by nothing but nonces and typed lines, one nonce of which has the
      announced length, matches the commitment, and is answered at the prompt with the exchange's PIN. */
  lemma AuthorisedExactlyWhenGranted(env: Setup, verified: bool, known: seq<CertHashes.CertHash>, es: seq<Event>)
    requires Run(env, Connected(verified, known), es).Some?
    ensures Run(env, Connected(verified, known), es).value.authorized <==>
      verified || exists i: nat, j: nat :: Grants(env, es, i, j)
  {
    RunKeepsTrace(env, Connected(verified, known), es);
  }

  predicate Gated(c: Call) { c.ConfigureCall? || c.StartCall? }

  /** A step configures or starts the stream only if the connection was authorised before it. */
  lemma StreamCallsNeedAuthorisation(env: Setup, s: Server, e: Event)
    requires Step(env, s, e).Some?
    ensures var t := Step(env, s, e).value;
      && s.calls <= t.calls && |t.calls| <= |s.calls| + 1
      && (|t.calls| > |s.calls| && Gated(t.calls[|s.calls|]) ==> s.authorized)
      && (s.authorized ==> t.authorized)
  {
  }

  ghost predicate StreamsOnlyIfAuthorised(s: Server) {
    && (s.streaming ==> s.authorized)
    && (forall c :: c in s.calls && Gated(c) ==> s.authorized)
  }

  lemma CallsGrow(s: Server, t: Server)
    requires StreamsOnlyIfAuthorised(s)
    requires s.calls <= t.calls && |t.calls| <= |s.calls| + 1
    requires |t.calls| > |s.calls| && Gated(t.calls[|s.calls|]) ==> s.authorized
    requires s.authorized ==> t.authorized
    requires t.streaming ==> s.streaming || s.authorized
    ensures StreamsOnlyIfAuthorised(t)
  {
    forall c | c in t.calls && Gated(c)
      ensures t.authorized
    {
      var i :| 0 <= i < |t.calls| && t.calls[i] == c;
      if i < |s.calls| {
        assert s.calls[i] == c;
      }
    }
  }

  /** Streaming, configured or started, means authorised, in every reachable state. */
  lemma {:induction false} StreamingImpliesAuthorised(
    env: Setup, verified: bool, known: seq<CertHashes.CertHash>, es: seq<Event>)
    requires Run(env, Connected(verified, known), es).Some?
    ensures StreamsOnlyIfAuthorised(Run(env, Connected(verified, known), es).value)
  {
    if es != [] {
      var front := es[..|es| - 1];
      StreamingImpliesAuthorised(env, verified, known, front);
      var s := Run(env, Connected(verified, known), front).value;
      StreamCallsNeedAuthorisation(env, s, es[|es| - 1]);
      StreamingNeedsAuthorisation(env, s, es[|es| - 1]);
      CallsGrow(s, Run(env, Connected(verified, known), es).value);
    }
  }

  lemma StreamingNeedsAuthorisation(env: Setup, s: Server, e: Event)
    requires Step(env, s, e).Some?
    ensures Step(env, s, e).value.streaming ==> s.streaming || s.authorized
  {
  }

  /** Ending the stream is not gated: while a connection is not authorised, a step of it calls the stream server
      exactly if it takes in a request to stop, and the call ends the stream. */
  lemma StrangerEndsExactly(env: Setup, s: Server, e: Event)
    requires !s.authorized && Step(env, s, e).Some?
    ensures var t := Step(env, s, e).value;
      t.calls == if e.Recv? && e.pkt.body.StopStreamRequest? then s.calls + [EndCall] else s.calls
  {
  }

  /** The requests to stop among some events. */
  function StopRequests(es: seq<Event>): nat {
    if es == [] then 0
    else
      var last := es[|es| - 1];
      StopRequests(es[..|es| - 1]) + (if last.Recv? && last.pkt.body.StopStreamRequest? then 1 else 0)
  }

  /** Over every run: the calls of a connection that is not authorised end the stream once for each request to stop,
      and are nothing else. */
  lemma {:induction false} StrangersOnlyEnd(
    env: Setup, verified: bool, known: seq<CertHashes.CertHash>, es: seq<Event>)
    requires Run(env, Connected(verified, known), es).Some?
    requires !Run(env, Connected(verified, known), es).value.authorized
    ensures Run(env, Connected(verified, known), es).value.calls == seq(StopRequests(es), _ => EndCall)
  {
    if es != [] {
      var front, last := es[..|es| - 1], es[|es| - 1];
      var s := Run(env, Connected(verified, known), front).value;
      StreamCallsNeedAuthorisation(env, s, last);
      StrangersOnlyEnd(env, verified, known, front);
      StrangerEndsExactly(env, s, last);
    }
  }

  /** Whether the stream server streams after some calls, whoever made them. */
  function Streams(running: bool, calls: seq<Call>): bool {
    if calls == [] then running
    else
      match calls[|calls| - 1]
      case ConfigureCall(_) => Streams(running, calls[..|calls| - 1])
      case StartCall => true
      case EndCall => false
  }

  lemma {:induction false} StreamsBehind(running: bool, before: seq<Call>, after: seq<Call>)
    ensures Streams(running, before + after) == Streams(Streams(running, before), after)
  {
    if after == [] {
      assert before + after == before;
    } else {
      assert (before + after)[..|before + after| - 1] == before + after[..|after| - 1];
      StreamsBehind(running, before, after[..|after| - 1]);
    }
  }

  lemma {:induction false} EndsStop(running: bool, n: nat)
    ensures Streams(running, seq(n, _ => EndCall)) == (running && n == 0)
  {
  }

  /** A stream that others started survives what an unauthorised connection does exactly if that connection sends no
      request to stop. */
  lemma StreamSurvivesStrangersExactly(
    env: Setup, verified: bool, known: seq<CertHashes.CertHash>, es: seq<Event>, others: seq<Call>)
    requires Run(env, Connected(verified, known), es).Some?
    requires !Run(env, Connected(verified, known), es).value.authorized
    requires Streams(false, others)
    ensures Streams(false, others + Run(env, Connected(verified, known), es).value.calls) <==> StopRequests(es) == 0
  {
    var calls := Run(env, Connected(verified, known), es).value.calls;
    StrangersOnlyEnd(env, verified, known, es);
    StreamsBehind(false, others, calls);
    EndsStop(true, StopRequests(es));
  }

  /** One packet from a stranger ends the stream. */
  lemma StrangerEndsTheStream(env: Setup, known: seq<CertHashes.CertHash>, mode: Mode) returns (es: seq<Event>)
    ensures Run(env, Connected(false, known), es).Some?
    ensures var s := Run(env, Connected(false, known), es).value;
      && !s.authorized && s.outbox == [Plain(StopStreamResponse)]
      && Streams(false, [ConfigureCall(mode), StartCall])
      && !Streams(false, [ConfigureCall(mode), StartCall] + s.calls)
  {
    es := [Recv(Plain(StopStreamRequest), [], true, true, true, 0)];
    assert es[..0] == [] && Run(env, Connected(false, known), []) == Some(Connected(false, known));
    var s := Run(env, Connected(false, known), es).value;
    assert s == Step(env, Connected(false, known), es[0]).value;
    StreamsBehind(false, [ConfigureCall(mode), StartCall], s.calls);
  }

  /** A line typed at the prompt admits the client if and only if it holds nothing but digits and blanks, and the
      number they make is the PIN modulo 2^32. */
  lemma LineAdmitsExactly(env: Setup, s: Server, line: string)
    requires s.awaitingPin && s.authState.Some? && !s.authorized
    requires 0 <= TruePin(env, s.authState.value) < PIN_COUNT
    ensures Step(env, s, PinLine(line)).Some?
    ensures Step(env, s, PinLine(line)).value.authorized <==>
      && line != "" && AllDigits(Squeeze(line))
      && Decimal(Squeeze(line), 0) % 0x1_0000_0000 == TruePin(env, s.authState.value)
  {
    LineIsReadExactly(line, TruePin(env, s.authState.value));
  }

  /** The prompt says that a bare Enter cancels. A line of blanks does refuse the client, except when the
      true PIN happens to be 0. */
  lemma BlankLineCancelsUnlessPinIsZero(env: Setup, s: Server, line: string)
    requires s.awaitingPin && s.authState.Some? && !s.authorized
    requires line != "" && Squeeze(line) == ""
    ensures Step(env, s, PinLine(line)).Some?
    ensures !Step(env, s, PinLine(line)).value.authorized <==> TruePin(env, s.authState.value) != 0
  {
    BlankLineIsZero(line);
  }
}
