/** Packets on the byte stream: a length prefix, the serialised packet, then its extra data. */
module Framing {
  import opened Prelude

  const INT_MAX: int := 0x7FFF_FFFF
  const WORD: int := 0x1_0000_0000_0000_0000

  // ---------- length prefix ----------

  /** Seven bits a byte, least significant first; the eighth bit says that more follow. */
  function Varint(n: nat): (b: Bytes)
    ensures |b| >= 1
  {
    if n < 128 then [n] else [n % 128 + 128] + Varint(n / 128)
  }

  /** The value read from at most `limit` bytes and what follows them; None when no byte ends it. */
  function ReadVarint(s: Bytes, limit: nat): (r: Option<(nat, Bytes)>)
    ensures r.Some? ==> |r.value.1| < |s|
  {
    if limit == 0 || s == [] then None
    else if s[0] < 128 then Some((s[0], s[1..]))
    else
      match ReadVarint(s[1..], limit - 1)
      case None => None
      case Some((high, rest)) => Some((s[0] - 128 + 128 * high, rest))
  }

  /** The prefix as a 32-bit signed size; bits above the 64th are lost. */
  function ReadSize(s: Bytes): (r: Option<(nat, Bytes)>)
    ensures r.Some? ==> |r.value.1| < |s|
  {
    match ReadVarint(s, 10)
    case None => None
    case Some((v, rest)) => if v % WORD > INT_MAX then None else Some((v % WORD, rest))
  }

  function Pow128(k: nat): nat { if k == 0 then 1 else 128 * Pow128(k - 1) }

  lemma {:induction false} VarintLength(n: nat, k: nat)
    requires k >= 1 && n < Pow128(k)
    ensures |Varint(n)| <= k
  {
    if n >= 128 {
      VarintLength(n / 128, k - 1);
    }
  }

  /** A 64-bit length takes at most ten bytes. */
  lemma WordTakesTenBytes(n: nat)
    requires n < WORD
    ensures |Varint(n)| <= 10
  {
    assert Pow128(5) == 0x8_0000_0000;
    assert Pow128(8) == 128 * (128 * (128 * Pow128(5)));
    VarintLength(n, 10);
  }

  /** A number without its i lowest groups of seven bits. */
  function GroupsFrom(n: nat, i: nat): nat { if i == 0 then n else GroupsFrom(n / 128, i - 1) }

  /** The i-th byte of a length holds its i-th group of seven bits, least significant first, and its eighth bit says
      whether more follow (Protocol Buffers Encoding, "Base 128 Varints"). */
  lemma {:induction false} VarintGroups(n: nat, i: nat)
    requires i < |Varint(n)|
    ensures Varint(n)[i] as int % 128 == GroupsFrom(n, i) % 128
    ensures Varint(n)[i] as int >= 128 <==> i < |Varint(n)| - 1
    ensures i < |Varint(n)| - 1 <==> GroupsFrom(n, i + 1) > 0
  {
    if i > 0 {
      VarintGroups(n / 128, i - 1);
    }
  }

  lemma {:induction false} VarintReadsBack(n: nat, tail: Bytes, limit: nat)
    requires |Varint(n)| <= limit
    ensures ReadVarint(Varint(n) + tail, limit) == Some((n, tail))
  {
    var s := Varint(n) + tail;
    if n < 128 {
      assert s[1..] == tail;
    } else {
      assert s[1..] == Varint(n / 128) + tail;
      VarintReadsBack(n / 128, tail, limit - 1);
    }
  }

  lemma SizeReadsBack(n: nat, tail: Bytes)
    requires n < WORD
    ensures ReadSize(Varint(n) + tail) == if n > 0x7FFF_FFFF then None else Some((n, tail))
  {
    WordTakesTenBytes(n);
    VarintReadsBack(n, tail, 10);
    assert n % WORD == n;
  }

  lemma {:induction false} CutVarint(n: nat, k: nat, limit: nat)
    requires k < |Varint(n)|
    ensures ReadVarint(Varint(n)[..k], limit) == None
  {
    if n >= 128 && k > 0 && limit > 0 {
      assert Varint(n)[..k][1..] == Varint(n / 128)[..k - 1];
      CutVarint(n / 128, k - 1, limit - 1);
    }
  }

  // ---------- packets ----------

  /** What a reader with a limit on all its bytes gets to see of a stream. */
  function Readable(stream: Bytes, limit: nat): Bytes {
    if |stream| <= limit then stream else stream[..limit]
  }

  /** The serialisation library, and the extra data length a packet declares. */
  datatype Format<!P> = Format(serialize: P -> Bytes, parse: Bytes -> Option<P>, extraLen: P -> int)

  ghost predicate Faithful<P(!new)>(f: Format<P>) {
    forall p: P :: f.parse(f.serialize(p)) == Some(p)
  }

  /** The declared length as an unsigned word. */
  function Declared<P>(f: Format<P>, p: P): nat {
    f.extraLen(p) % WORD
  }

  function Body<P>(f: Format<P>, p: P): Bytes { Varint(|f.serialize(p)|) + f.serialize(p) }

  /** What a packet and its extra data are on the wire. */
  function Frame<P>(f: Format<P>, p: P, extra: Bytes): Bytes
    requires |extra| >= Declared(f, p)
  {
    Body(f, p) + extra[..Declared(f, p)]
  }

  datatype Received<P> = Received(pkt: P, extra: Bytes)

  /** One receive: the packet, the extra data (what the buffer held before, if it is skipped or there is none),
      and what is left of the stream; None when the receive fails. */
  function Receive<P>(f: Format<P>, stream: Bytes, buffer: Bytes, wanted: bool): (r: Option<(Received<P>, Bytes)>) {
    match ReadSize(stream)
    case None => None
    case Some((size, rest)) =>
      if |rest| < size then None
      else
        match f.parse(rest[..size])
        case None => None
        case Some(p) => TakeExtra(p, f.extraLen(p), rest[size..], buffer, wanted)
  }

  function TakeExtra<P>(p: P, n: int, rest: Bytes, buffer: Bytes, wanted: bool): Option<(Received<P>, Bytes)> {
    if n <= 0 then Some((Received(p, buffer), rest))
    else if !wanted then Some((Received(p, buffer), rest[if n < |rest| then n else |rest|..]))
    else if |rest| < n then None
    else Some((Received(p, rest[..n]), rest[n..]))
  }

  datatype Outcome = Sent | Disconnected | Quit

  /** One side's socket: what it has put on the wire, how many bytes each coming write will accept (a negative
      number, or the end of the list, is an error), and what can still be read. One input stream serves the whole
      connection, and yields no more than `limit` bytes. After a failed receive nothing is known of what can still be
      read. */
  class NetworkSocket<P> {
    const format: Format<P>
    var wire: Bytes
    var plan: seq<int>
    var connected: bool
    var input: Bytes

    constructor (f: Format<P>, accepts: seq<int>, arriving: Bytes, limit: nat)
      ensures format == f && plan == accepts && input == Readable(arriving, limit) && wire == [] && connected
    {
      format, wire, plan, connected, input := f, [], accepts, true, Readable(arriving, limit);
    }

    /** Writes some of the bytes, at least one, or reports an error. */
    method Write(bytes: Bytes) returns (ret: int)
      requires bytes != []
      modifies this`wire, this`plan
      ensures ret < 0 ==> wire == old(wire)
      ensures ret >= 0 ==> 1 <= ret <= |bytes| && wire == old(wire) + bytes[..ret]
    {
      if plan == [] || plan[0] < 0 {
        return -1;
      }
      ret := if plan[0] < 1 then 1 else if plan[0] > |bytes| then |bytes| else plan[0];
      plan := plan[1..];
      wire := wire + bytes[..ret];
    }

    /** Writes until everything is accepted; an error disconnects. */
    method WriteAll(bytes: Bytes) returns (ok: bool)
      modifies this`wire, this`plan, this`connected
      ensures ok ==> wire == old(wire) + bytes && connected == old(connected)
      ensures !ok ==> !connected && exists n: nat :: n < |bytes| && wire == old(wire) + bytes[..n]
    {
      var offset := 0;
      ghost var was := wire;
      while offset < |bytes|
        invariant 0 <= offset <= |bytes| && wire == was + bytes[..offset] && connected == old(connected)
      {
        var ret := Write(bytes[offset..]);
        if ret < 0 {
          connected := false;
          return false;
        }
        assert bytes[..offset + ret] == bytes[..offset] + bytes[offset..][..ret];
        offset := offset + ret;
      }
      return true;
    }

    /** Fills a buffer sixteen bytes longer than the packet and sends what was written into it. */
    method Prepare(pkt: P) returns (buffer: array<Byte>, written: nat)
      requires |format.serialize(pkt)| < WORD
      ensures fresh(buffer) && written <= buffer.Length && buffer[..written] == Body(format, pkt)
    {
      var body := format.serialize(pkt);
      var packetLen := |body|;
      var prefix := Varint(packetLen);
      WordTakesTenBytes(packetLen);
      buffer := new Byte[packetLen + 16];
      forall i | 0 <= i < |prefix| {
        buffer[i] := prefix[i];
      }
      forall i | 0 <= i < packetLen {
        buffer[|prefix| + i] := body[i];
      }
      written := |prefix| + packetLen;
    }

    /** Puts the whole frame on the wire, or a proper part of it if the connection breaks. */
    method Send(pkt: P, extra: Option<Bytes>) returns (r: Outcome)
      requires |format.serialize(pkt)| < WORD
      requires extra.Some? ==> |extra.value| >= Declared(format, pkt)
      modifies this`wire, this`plan, this`connected
      ensures r.Quit? ==> extra.None? && Declared(format, pkt) > 0 && wire == old(wire) + Body(format, pkt)
      ensures r.Sent? ==> extra.Some? || Declared(format, pkt) == 0
      ensures r.Sent? ==>
        wire == old(wire) + (if extra.Some? then Frame(format, pkt, extra.value) else Body(format, pkt))
      ensures r.Disconnected? ==> !connected
      ensures r.Disconnected? && extra.None? ==>
        exists n: nat :: n < |Body(format, pkt)| && wire == old(wire) + Body(format, pkt)[..n]
      ensures r.Disconnected? && extra.Some? ==>
        var frame := Frame(format, pkt, extra.value);
        exists n: nat :: n < |frame| && wire == old(wire) + frame[..n]
    {
      ghost var was := wire;
      var buffer, written := Prepare(pkt);
      var ok := WriteAll(buffer[..written]);
      if !ok {
        if extra.Some? {
          ghost var n: nat :| n < written && wire == was + buffer[..written][..n];
          assert Frame(format, pkt, extra.value)[..n] == buffer[..written][..n];
        }
        return Disconnected;
      }
      var extraDataLen := Declared(format, pkt);
      if extraDataLen > 0 {
        if extra == None {
          return Quit;
        }
        ok := WriteAll(extra.value[..extraDataLen]);
        if !ok {
          ghost var n: nat :| n < extraDataLen && wire == was + Body(format, pkt) + extra.value[..extraDataLen][..n];
          CutInExtra(Body(format, pkt), extra.value[..extraDataLen], n);
          assert wire == was + Frame(format, pkt, extra.value)[..written + n];
          return Disconnected;
        }
        assert was + Body(format, pkt) + extra.value[..extraDataLen] == was + Frame(format, pkt, extra.value);
      }
      return Sent;
    }

    /** Reads one packet; `buffer` is the caller's, None when the extra data is not wanted. */
    method Recv(buffer: Option<Bytes>) returns (r: Option<Received<P>>)
      modifies this`input
      ensures var expected := Receive(format, old(input), if buffer.Some? then buffer.value else [], buffer.Some?);
        if connected && expected.Some? then r == Some(expected.value.0) && input == expected.value.1 else r == None
    {
      if !connected {
        return None;
      }
      var size := ReadSize(input);
      if size == None {
        return None;
      }
      var (msgLen, rest) := size.value;
      input := rest;
      if |input| < msgLen {
        return None;
      }
      var parsed := format.parse(input[..msgLen]);
      if parsed == None {
        return None;
      }
      input := input[msgLen..];
      var extraDataLen := format.extraLen(parsed.value);
      var data := if buffer.Some? then buffer.value else [];
      if extraDataLen > 0 {
        if buffer.Some? {
          if |input| < extraDataLen {
            return None;
          }
          data := input[..extraDataLen];
          input := input[extraDataLen..];
        } else {
          input := input[if extraDataLen < |input| then extraDataLen else |input|..];
        }
      }
      return Some(Received(parsed.value, data));
    }
  }

  lemma CutInExtra(body: Bytes, extra: Bytes, n: nat)
    requires n <= |extra|
    ensures (body + extra)[..|body| + n] == body + extra[..n]
  {
  }

  // ---------- round trips ----------

  predicate Honest<P>(f: Format<P>, p: P, extra: Bytes) {
    |f.serialize(p)| <= INT_MAX && f.extraLen(p) == |extra| <= INT_MAX
  }

  predicate AllHonest<P>(f: Format<P>, ps: seq<(P, Bytes)>) {
    forall i :: 0 <= i < |ps| ==> Honest(f, ps[i].0, ps[i].1)
  }

  /** What a receive puts into the extra data buffer. */
  function Kept<P>(f: Format<P>, p: P, extra: Bytes, buffer: Bytes, wanted: bool): Bytes {
    if wanted && f.extraLen(p) > 0 then extra else buffer
  }

  lemma BodyReadsBack<P(!new)>(f: Format<P>, p: P, tail: Bytes, buffer: Bytes, wanted: bool)
    requires Faithful(f) && |f.serialize(p)| < WORD
    ensures Receive(f, Body(f, p) + tail, buffer, wanted) ==
      if |f.serialize(p)| > INT_MAX then None else TakeExtra(p, f.extraLen(p), tail, buffer, wanted)
  {
    var body := f.serialize(p);
    SizeReadsBack(|body|, body + tail);
    assert Body(f, p) + tail == Varint(|body|) + (body + tail);
    assert (body + tail)[..|body|] == body && (body + tail)[|body|..] == tail;
    assert f.parse(body) == Some(p);
  }

  /** A frame is read back with nothing left over, whether its extra data is wanted or skipped, exactly if the
      packet is no longer than a 32-bit signed integer can say. */
  lemma FrameReadsBackExactly<P(!new)>(f: Format<P>, p: P, extra: Bytes, tail: Bytes, buffer: Bytes, wanted: bool)
    requires Faithful(f) && |f.serialize(p)| < WORD && f.extraLen(p) == |extra| <= INT_MAX
    ensures Receive(f, Frame(f, p, extra) + tail, buffer, wanted)
              == Some((Received(p, Kept(f, p, extra, buffer, wanted)), tail))
            <==> |f.serialize(p)| <= INT_MAX
  {
    BodyReadsBack(f, p, extra + tail, buffer, wanted);
    assert Frame(f, p, extra) + tail == Body(f, p) + (extra + tail);
    assert (extra + tail)[..|extra|] == extra && (extra + tail)[|extra|..] == tail;
  }

  /** The wire after sending packets with their extra data. */
  function WireOf<P>(f: Format<P>, ps: seq<(P, Bytes)>): Bytes
    requires AllHonest(f, ps)
  {
    if ps == [] then []
    else
      assert Honest(f, ps[0].0, ps[0].1);
      Frame(f, ps[0].0, ps[0].1) + WireOf(f, ps[1..])
  }

  /** As many receives as there are flags, into one buffer. */
  function ReceiveAll<P>(f: Format<P>, stream: Bytes, buffer: Bytes, wanted: seq<bool>)
    : Option<(seq<Received<P>>, Bytes)>
    decreases |wanted|
  {
    if wanted == [] then Some(([], stream))
    else
      match Receive(f, stream, buffer, wanted[0])
      case None => None
      case Some((r, rest)) =>
        match ReceiveAll(f, rest, r.extra, wanted[1..])
        case None => None
        case Some((rs, left)) => Some(([r] + rs, left))
  }

  /** What the receives yield; the buffer keeps the last extra data taken. */
  function Expected<P>(f: Format<P>, ps: seq<(P, Bytes)>, buffer: Bytes, wanted: seq<bool>): (rs: seq<Received<P>>)
    requires |ps| == |wanted|
    ensures |rs| == |ps|
    ensures forall i :: 0 <= i < |ps| ==> rs[i].pkt == ps[i].0
    ensures forall i :: 0 <= i < |ps| ==> (wanted[i] && f.extraLen(ps[i].0) > 0 ==> rs[i].extra == ps[i].1)
  {
    if ps == [] then []
    else
      var kept := Kept(f, ps[0].0, ps[0].1, buffer, wanted[0]);
      [Received(ps[0].0, kept)] + Expected(f, ps[1..], kept, wanted[1..])
  }

  /** The bytes a receive needs: it does not notice when the extra data it skips is cut short. */
  function NeededFirst<P>(f: Format<P>, p: P, extra: Bytes, wanted: bool): nat {
    |Body(f, p)| + (if wanted then |extra| else 0)
  }

  function Needed<P>(f: Format<P>, ps: seq<(P, Bytes)>, wanted: seq<bool>): nat
    requires AllHonest(f, ps) && |ps| == |wanted|
  {
    if ps == [] then 0
    else
      assert Honest(f, ps[0].0, ps[0].1);
      if |ps| == 1 then NeededFirst(f, ps[0].0, ps[0].1, wanted[0])
      else |Frame(f, ps[0].0, ps[0].1)| + Needed(f, ps[1..], wanted[1..])
  }

  lemma CutBodyFails<P(!new)>(f: Format<P>, p: P, n: nat, buffer: Bytes, wanted: bool)
    requires |f.serialize(p)| <= INT_MAX && n < |Body(f, p)|
    ensures Receive(f, Body(f, p)[..n], buffer, wanted) == None
  {
    var body := f.serialize(p);
    var prefix := Varint(|body|);
    if n < |prefix| {
      assert Body(f, p)[..n] == prefix[..n];
      CutVarint(|body|, n, 10);
    } else {
      assert Body(f, p)[..n] == prefix + body[..n - |prefix|];
      SizeReadsBack(|body|, body[..n - |prefix|]);
    }
  }

  /** A receive from a frame of which only so many bytes can be read. */
  lemma LimitedReceive<P(!new)>(
    f: Format<P>, p: P, extra: Bytes, tail: Bytes, buffer: Bytes, wanted: bool, limit: nat)
    requires Faithful(f) && Honest(f, p, extra)
    ensures var frame := Frame(f, p, extra);
      Receive(f, Readable(frame + tail, limit), buffer, wanted) ==
        if limit < NeededFirst(f, p, extra, wanted) then None
        else Some((Received(p, Kept(f, p, extra, buffer, wanted)),
                   if limit < |frame| then [] else Readable(tail, limit - |frame|)))
  {
    var stream := Frame(f, p, extra) + tail;
    var body := Body(f, p);
    assert stream == body + (extra + tail);
    if limit < |body| {
      assert Readable(stream, limit) == body[..limit];
      CutBodyFails(f, p, limit, buffer, wanted);
    } else {
      var rest := Readable(extra + tail, limit - |body|);
      assert Readable(stream, limit) == body + rest;
      BodyReadsBack(f, p, rest, buffer, wanted);
      if limit >= |body| + |extra| {
        assert rest == extra + Readable(tail, limit - |body| - |extra|);
        assert rest[..|extra|] == extra && rest[|extra|..] == Readable(tail, limit - |body| - |extra|);
      } else {
        assert rest[|rest|..] == [];
      }
    }
  }

  lemma Associates(a: Bytes, b: Bytes, c: Bytes)
    ensures a + b + c == a + (b + c)
  {
  }

  /** One receive, then the others, which all succeed or do not. */
  lemma FirstAndRest<P>(f: Format<P>, stream: Bytes, buffer: Bytes, wanted: seq<bool>, first: Received<P>, rest: Bytes,
                        fits: bool, others: seq<Received<P>>, left: Bytes)
    requires wanted != [] && Receive(f, stream, buffer, wanted[0]) == Some((first, rest))
    requires ReceiveAll(f, rest, first.extra, wanted[1..]) == if fits then Some((others, left)) else None
    ensures ReceiveAll(f, stream, buffer, wanted) == if fits then Some(([first] + others, left)) else None
  {
  }

  /** What is left of the stream behind the packets. */
  function LeftBehind<P>(f: Format<P>, ps: seq<(P, Bytes)>, tail: Bytes, limit: nat): Bytes
    requires AllHonest(f, ps)
  {
    if limit < |WireOf(f, ps)| then [] else Readable(tail, limit - |WireOf(f, ps)|)
  }

  /** The limit falls into the first frame. */
  lemma CutFrame<P>(
    f: Format<P>, ps: seq<(P, Bytes)>, buffer: Bytes, wanted: seq<bool>, stream: Bytes, limit: nat)
    requires ps != [] && |ps| == |wanted| && AllHonest(f, ps) && Honest(f, ps[0].0, ps[0].1)
    requires limit < |Frame(f, ps[0].0, ps[0].1)|
    requires Receive(f, stream, buffer, wanted[0]) ==
      if limit < NeededFirst(f, ps[0].0, ps[0].1, wanted[0]) then None
      else Some((Received(ps[0].0, Kept(f, ps[0].0, ps[0].1, buffer, wanted[0])), []))
    ensures ReceiveAll(f, stream, buffer, wanted) ==
      if Needed(f, ps, wanted) <= limit then Some((Expected(f, ps, buffer, wanted), [])) else None
  {
    var kept := Kept(f, ps[0].0, ps[0].1, buffer, wanted[0]);
    if limit >= NeededFirst(f, ps[0].0, ps[0].1, wanted[0]) {
      FirstAndRest(f, stream, buffer, wanted, Received(ps[0].0, kept), [], |ps| == 1, [], []);
      if |ps| == 1 {
        assert ps[1..] == [] && wanted[1..] == [];
      }
    }
  }

  lemma LimitsShrink<P>(f: Format<P>, ps: seq<(P, Bytes)>, tail: Bytes, wanted: seq<bool>, limit: nat)
    requires ps != [] && |ps| == |wanted| && AllHonest(f, ps) && Honest(f, ps[0].0, ps[0].1)
    requires |Frame(f, ps[0].0, ps[0].1)| <= limit
    ensures var left := limit - |Frame(f, ps[0].0, ps[0].1)|;
      && (Needed(f, ps, wanted) <= limit <==> Needed(f, ps[1..], wanted[1..]) <= left)
      && LeftBehind(f, ps, tail, limit) == LeftBehind(f, ps[1..], tail, left)
  {
    if |ps| == 1 {
      assert ps[1..] == [] && wanted[1..] == [];
    }
  }

  /** All packets are received from the stream if the bytes they need are within the limit, and not otherwise. */
  predicate AsNeeded<P(==)>(f: Format<P>, ps: seq<(P, Bytes)>, tail: Bytes, buffer: Bytes, wanted: seq<bool>,
                            stream: Bytes, limit: nat)
    requires |ps| == |wanted| && AllHonest(f, ps)
  {
    ReceiveAll(f, stream, buffer, wanted) ==
      if Needed(f, ps, wanted) <= limit then Some((Expected(f, ps, buffer, wanted), LeftBehind(f, ps, tail, limit)))
      else None
  }

  /** The limit falls behind the first frame. */
  lemma WholeFrame<P>(f: Format<P>, ps: seq<(P, Bytes)>, tail: Bytes, buffer: Bytes, wanted: seq<bool>,
                      stream: Bytes, rest: Bytes, limit: nat)
    requires ps != [] && |ps| == |wanted| && AllHonest(f, ps) && Honest(f, ps[0].0, ps[0].1)
    requires |Frame(f, ps[0].0, ps[0].1)| <= limit
    requires var kept := Kept(f, ps[0].0, ps[0].1, buffer, wanted[0]);
      && Receive(f, stream, buffer, wanted[0]) == Some((Received(ps[0].0, kept), rest))
      && AsNeeded(f, ps[1..], tail, kept, wanted[1..], rest, limit - |Frame(f, ps[0].0, ps[0].1)|)
    ensures AsNeeded(f, ps, tail, buffer, wanted, stream, limit)
  {
    var kept := Kept(f, ps[0].0, ps[0].1, buffer, wanted[0]);
    LimitsShrink(f, ps, tail, wanted, limit);
    FirstAndRest(f, stream, buffer, wanted, Received(ps[0].0, kept), rest,
                 Needed(f, ps, wanted) <= limit, Expected(f, ps[1..], kept, wanted[1..]),
                 LeftBehind(f, ps, tail, limit));
  }

  lemma FirstReceive<P(!new)>(
    f: Format<P>, ps: seq<(P, Bytes)>, tail: Bytes, buffer: Bytes, wanted: bool, limit: nat)
    requires Faithful(f) && AllHonest(f, ps) && ps != [] && Honest(f, ps[0].0, ps[0].1)
    ensures var frame := Frame(f, ps[0].0, ps[0].1);
      Receive(f, Readable(WireOf(f, ps) + tail, limit), buffer, wanted) ==
        if limit < NeededFirst(f, ps[0].0, ps[0].1, wanted) then None
        else Some((Received(ps[0].0, Kept(f, ps[0].0, ps[0].1, buffer, wanted)),
                   if limit < |frame| then [] else Readable(WireOf(f, ps[1..]) + tail, limit - |frame|)))
  {
    Associates(Frame(f, ps[0].0, ps[0].1), WireOf(f, ps[1..]), tail);
    LimitedReceive(f, ps[0].0, ps[0].1, WireOf(f, ps[1..]) + tail, buffer, wanted, limit);
  }

  /** The buffer behind the first receive. */
  function KeptFirst<P>(f: Format<P>, ps: seq<(P, Bytes)>, buffer: Bytes, wanted: bool): Bytes
    requires ps != []
  {
    Kept(f, ps[0].0, ps[0].1, buffer, wanted)
  }

  lemma NoneBehindTheCut<P>(f: Format<P>, ps: seq<(P, Bytes)>, tail: Bytes, limit: nat)
    requires AllHonest(f, ps) && ps != [] && Honest(f, ps[0].0, ps[0].1) && limit < |Frame(f, ps[0].0, ps[0].1)|
    ensures LeftBehind(f, ps, tail, limit) == []
  {
  }

  lemma CutArrives<P(!new)>(
    f: Format<P>, ps: seq<(P, Bytes)>, tail: Bytes, buffer: Bytes, wanted: seq<bool>, limit: nat)
    requires Faithful(f) && |ps| == |wanted| && AllHonest(f, ps) && ps != [] && Honest(f, ps[0].0, ps[0].1)
    requires limit < |Frame(f, ps[0].0, ps[0].1)|
    ensures AsNeeded(f, ps, tail, buffer, wanted, Readable(WireOf(f, ps) + tail, limit), limit)
  {
    FirstReceive(f, ps, tail, buffer, wanted[0], limit);
    CutFrame(f, ps, buffer, wanted, Readable(WireOf(f, ps) + tail, limit), limit);
    NoneBehindTheCut(f, ps, tail, limit);
  }

  lemma FirstReceiveWhole<P(!new)>(
    f: Format<P>, ps: seq<(P, Bytes)>, tail: Bytes, buffer: Bytes, wanted: bool, limit: nat, left: nat)
    requires Faithful(f) && AllHonest(f, ps) && ps != [] && Honest(f, ps[0].0, ps[0].1)
    requires limit == |Frame(f, ps[0].0, ps[0].1)| + left
    ensures Receive(f, Readable(WireOf(f, ps) + tail, limit), buffer, wanted)
      == Some((Received(ps[0].0, KeptFirst(f, ps, buffer, wanted)), Readable(WireOf(f, ps[1..]) + tail, left)))
  {
    FirstReceive(f, ps, tail, buffer, wanted, limit);
  }

  lemma WholeArrives<P(!new)>(
    f: Format<P>, ps: seq<(P, Bytes)>, tail: Bytes, buffer: Bytes, wanted: seq<bool>, limit: nat, left: nat)
    requires Faithful(f) && |ps| == |wanted| && AllHonest(f, ps) && ps != [] && Honest(f, ps[0].0, ps[0].1)
    requires limit == |Frame(f, ps[0].0, ps[0].1)| + left
    requires AsNeeded(f, ps[1..], tail, KeptFirst(f, ps, buffer, wanted[0]), wanted[1..],
                      Readable(WireOf(f, ps[1..]) + tail, left), left)
    ensures AsNeeded(f, ps, tail, buffer, wanted, Readable(WireOf(f, ps) + tail, limit), limit)
  {
    FirstReceiveWhole(f, ps, tail, buffer, wanted[0], limit, left);
    WholeFrame(f, ps, tail, buffer, wanted, Readable(WireOf(f, ps) + tail, limit),
               Readable(WireOf(f, ps[1..]) + tail, left), limit);
  }

  lemma {:induction false} ArriveAsNeeded<P(!new)>(
    f: Format<P>, ps: seq<(P, Bytes)>, tail: Bytes, buffer: Bytes, wanted: seq<bool>, limit: nat)
    requires Faithful(f) && |ps| == |wanted| && AllHonest(f, ps)
    ensures AsNeeded(f, ps, tail, buffer, wanted, Readable(WireOf(f, ps) + tail, limit), limit)
  {
    if ps == [] {
      assert WireOf(f, ps) + tail == tail;
    } else {
      assert Honest(f, ps[0].0, ps[0].1);
      var left := limit - |Frame(f, ps[0].0, ps[0].1)|;
      if left < 0 {
        CutArrives(f, ps, tail, buffer, wanted, limit);
      } else {
        ArriveAsNeeded(f, ps[1..], tail, KeptFirst(f, ps, buffer, wanted[0]), wanted[1..], left);
        WholeArrives(f, ps, tail, buffer, wanted, limit, left);
      }
    }
  }

  /** Packets sent one after the other all arrive, as sent and in order, whichever receives skip the extra data, if
      and only if the bytes they need are within the limit of the input stream; what follows stays on the stream. */
  lemma PacketsArriveExactly<P(!new)>(
    f: Format<P>, ps: seq<(P, Bytes)>, tail: Bytes, buffer: Bytes, wanted: seq<bool>, limit: nat)
    requires Faithful(f) && |ps| == |wanted| && AllHonest(f, ps)
    ensures ReceiveAll(f, Readable(WireOf(f, ps) + tail, limit), buffer, wanted) ==
      if Needed(f, ps, wanted) <= limit then Some((Expected(f, ps, buffer, wanted), LeftBehind(f, ps, tail, limit)))
      else None
  {
    ArriveAsNeeded(f, ps, tail, buffer, wanted, limit);
  }

  /** A successful send continues what earlier sends put on the wire. */
  lemma {:induction false} WireGrows<P>(f: Format<P>, ps: seq<(P, Bytes)>, p: P, extra: Bytes)
    requires AllHonest(f, ps)
    requires Honest(f, p, extra)
    ensures WireOf(f, ps + [(p, extra)]) == WireOf(f, ps) + Frame(f, p, extra)
  {
    if ps == [] {
      assert ps + [(p, extra)] == [(p, extra)] && [(p, extra)][1..] == [];
    } else {
      assert (ps + [(p, extra)])[1..] == ps[1..] + [(p, extra)];
      WireGrows(f, ps[1..], p, extra);
    }
  }
}
