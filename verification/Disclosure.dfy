/** What a server tells a client it has not authorised. */
module Disclosure {
  import opened Wire
  import opened Connections

  /** At most one answer more, and that one tells nothing. */
  predicate OneMore(before: seq<Packet>, after: seq<Packet>) {
    after == before || (after != [] && after[..|after| - 1] == before && TellsNothing(after[|after| - 1].body))
  }

  lemma SendingOneMore(s: Server, pkt: Packet)
    requires TellsNothing(pkt.body)
    ensures OneMore(s.outbox, Send(s, pkt).outbox)
  {
    assert (s.outbox + [pkt])[..|s.outbox|] == s.outbox;
  }

  lemma RequestTellsNothing(env: Setup, s: Server, e: Event)
    requires e.Recv? && e.pkt.body.AuthRequest?
    ensures OneMore(s.outbox, OnAuthRequest(env, s, e.pkt.body.nonceLen, e.pkt.body.hostname, e.nonce, e.drbgOk).outbox)
  {
    var t := OnAuthRequest(env, s, e.pkt.body.nonceLen, e.pkt.body.hostname, e.nonce, e.drbgOk);
    assert t.outbox == s.outbox + [t.outbox[|t.outbox| - 1]];
    SendingOneMore(s, t.outbox[|t.outbox| - 1]);
  }

  lemma NonceTellsNothing(env: Setup, s: Server, sendOk: bool)
    ensures OneMore(s.outbox, OnClientNonce(env, s, sendOk).outbox)
  {
    var t := OnClientNonce(env, s, sendOk);
    if t.outbox != s.outbox {
      assert t.outbox == s.outbox + [t.outbox[|t.outbox| - 1]];
      SendingOneMore(s, t.outbox[|t.outbox| - 1]);
    }
  }

  lemma OtherAnswerTellsNothing(env: Setup, s: Server, e: Event)
    requires e.Recv? && !e.pkt.body.AuthRequest? && !e.pkt.body.ClientNonceNotify?
    requires !s.authorized && Step(env, s, e).Some?
    ensures OneMore(s.outbox, Step(env, s, e).value.outbox)
  {
    var t := Step(env, s, e).value;
    if t.outbox != s.outbox {
      var answer := t.outbox[|t.outbox| - 1];
      assert t.outbox == s.outbox + [answer] && TellsNothing(answer.body);
      SendingOneMore(s, answer);
    }
  }

  lemma AnswerTellsNothing(env: Setup, s: Server, e: Event)
    requires e.Recv? && !s.authorized && Step(env, s, e).Some?
    ensures OneMore(s.outbox, Step(env, s, e).value.outbox)
  {
    var received := Received(s, e.pkt);
    match e.pkt.body
    case AuthRequest(_, _) => RequestTellsNothing(env, received, e);
    case ClientNonceNotify => NonceTellsNothing(env, received, e.sendOk);
    case _ => OtherAnswerTellsNothing(env, s, e);
  }

  lemma RefusalTellsNothing(env: Setup, s: Server, e: Event)
    requires e.PinLine? && Step(env, s, e).Some? && !Step(env, s, e).value.authorized
    ensures OneMore(s.outbox, Step(env, s, e).value.outbox)
  {
    SendingOneMore(s.(awaitingPin := false), Plain(AuthResponse(INCORRECT_PIN)));
  }

  lemma AuthorisedStays(env: Setup, s: Server, e: Event)
    requires Step(env, s, e).Some? && s.authorized
    ensures Step(env, s, e).value.authorized
  {
  }

  lemma AllStillTellNothing(before: seq<Packet>, after: seq<Packet>)
    requires OneMore(before, after) && forall i :: 0 <= i < |before| ==> TellsNothing(before[i].body)
    ensures forall i :: 0 <= i < |after| ==> TellsNothing(after[i].body)
  {
    forall i | 0 <= i < |after|
      ensures TellsNothing(after[i].body)
    {
      if after != before && i < |after| - 1 {
        assert after[..|after| - 1][i] == before[i];
      }
    }
  }

  /** Over every run, a client that is not authorised has been told nothing: no mode, no time, no success. */
  lemma {:induction false} UnauthorisedLearnNothing(
    env: Setup, verified: bool, known: seq<CertHashes.CertHash>, es: seq<Event>)
    requires Run(env, Connected(verified, known), es).Some?
    requires !Run(env, Connected(verified, known), es).value.authorized
    ensures var sent := Run(env, Connected(verified, known), es).value.outbox;
      forall i :: 0 <= i < |sent| ==> TellsNothing(sent[i].body)
  {
    if es != [] {
      var front, last := es[..|es| - 1], es[|es| - 1];
      var s := Run(env, Connected(verified, known), front).value;
      if s.authorized {
        AuthorisedStays(env, s, last);
      } else {
        UnauthorisedLearnNothing(env, verified, known, front);
        if last.Recv? {
          AnswerTellsNothing(env, s, last);
        } else {
          RefusalTellsNothing(env, s, last);
        }
        AllStillTellNothing(s.outbox, Step(env, s, last).value.outbox);
      }
    }
  }
}
