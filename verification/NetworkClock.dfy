/** The client's estimate of the server's clock. Readings of the steady clock are in nanoseconds, the server's
    clock and all estimates in microseconds. */
module NetworkClocks {
  import opened Prelude
  import opened PowersOfTwo

  const PANIC_THRESHOLD: int := 300_000
  const MINIMUM_THRESHOLD: int := 100
  const MILLISECOND: int := 1_000_000
  const PING_LIFETIME: int := 30_000 * MILLISECOND
  const TIMING_TABLE: seq<int> := [1, 10, 10, 100, 300, 300, 300, 5000, 5000, 25000]

  /** Division as the source does it, toward zero. */
  function TruncDiv(a: int, b: int): int
    requires b > 0
  {
    if a >= 0 then a / b else -((-a) / b)
  }

  /** Local time at a reading. */
  function Local(epoch: int, reading: int): int { TruncDiv(reading - epoch, 1000) }

  /** The epoch after a hint; the second reading is taken under the lock. */
  function Hinted(epoch: int, clockLeast: int, first: int, second: int): int {
    if clockLeast <= Local(epoch, first) then epoch else epoch - (clockLeast - Local(epoch, second)) * 1000
  }

  function Abs(x: int): int { if x < 0 then -x else x }

  function Min(x: int, y: int): int { if x <= y then x else y }

  /** The epoch after an answer that said `clock`, given the reading taken when it arrived. */
  function Corrected(epoch: int, clock: int, reading: int): int {
    var diff := clock - Local(epoch, reading);
    if PANIC_THRESHOLD <= Abs(diff) then epoch - diff * 1000
    else if MINIMUM_THRESHOLD <= Abs(diff) then epoch - TruncDiv(diff * 1000, 2)
    else epoch
  }

  /** The latency estimate, a 32-bit integer, after a round trip; zero means no estimate. */
  function Estimate(latency: int, ping: int): int {
    var l := if latency == 0 then Wrap32(ping) else Wrap32(latency + TruncDiv(ping - latency, 2));
    if l < 1 then 1 else l
  }

  /** Requests still worth waiting for. */
  function Alive(requests: map<int, int>, reading: int): map<int, int> {
    map k | k in requests && reading - requests[k] <= PING_LIFETIME :: requests[k]
  }

  /** Exactly the requests of the last thirty seconds, each from when it was made. */
  lemma AliveExactly(requests: map<int, int>, reading: int, id: int)
    ensures id in Alive(requests, reading) <==> id in requests && reading - requests[id] <= 30_000_000_000
    ensures id in Alive(requests, reading) ==> Alive(requests, reading)[id] == requests[id]
  {
  }

  lemma SomeKey(keys: set<int>)
    ensures keys != {} ==> exists k :: k in keys
  {
    if forall k :: k !in keys {
      assert keys == {};
    }
  }

  lemma RemovedOrAlive(requests: map<int, int>, removed: set<int>, reading: int)
    requires forall k :: k in removed <==> k in requests && PING_LIFETIME < reading - requests[k]
    ensures requests - removed == Alive(requests, reading)
  {
    var left, alive := requests - removed, Alive(requests, reading);
    assert forall k :: k in left <==> k in alive;
  }

  class NetworkClock {
    var epoch: int
    var networkLatency: int
    var pingTimingIdx: nat
    var lastPing: int
    var pingReqMap: map<int, int>

    /** Nothing recorded lies after the reading, the latency is no negative number, the index is in the table. */
    predicate Valid(reading: int)
      reads this
    {
      && epoch <= reading && lastPing <= reading
      && (forall id :: id in pingReqMap ==> pingReqMap[id] <= reading)
      && networkLatency >= 0
      && pingTimingIdx < |TIMING_TABLE|
    }

    constructor (first: int, second: int)
      requires first <= second
      ensures Valid(second) && networkLatency == 0 && pingTimingIdx == 0 && pingReqMap == map[]
      ensures Local(epoch, first) == 0
    {
      epoch, networkLatency, pingTimingIdx, lastPing, pingReqMap := first, 0, 0, second, map[];
    }

    /** Local time must be at least what is hinted. */
    method MonotonicHint(clockLeast: nat, first: int, second: int)
      requires Valid(first) && first <= second
      modifies this`epoch
      ensures Valid(second)
      ensures epoch == Hinted(old(epoch), clockLeast, first, second)
      ensures Local(epoch, second) >= clockLeast
    {
      HintReaches(epoch, clockLeast, first, second);
      if clockLeast <= Local(epoch, first) {
        return;
      }
      var diff := clockLeast - Local(epoch, second);
      epoch := epoch - diff * 1000;
    }

    /** Takes a round trip into the latency estimate. */
    method Learn(ping: nat)
      requires networkLatency >= 0
      modifies this`networkLatency
      ensures networkLatency == Estimate(old(networkLatency), ping) >= 1
    {
      if networkLatency == 0 {
        networkLatency := Wrap32(ping);
      } else {
        networkLatency := Wrap32(networkLatency + TruncDiv(ping - networkLatency, 2));
      }
      networkLatency := if networkLatency < 1 then 1 else networkLatency;
    }

    /** Moves the epoch so that local time agrees better with the answer. */
    method Correct(clock: nat, ping: nat, arrival: int)
      requires pingTimingIdx < |TIMING_TABLE|
      modifies this`epoch, this`pingTimingIdx
      ensures epoch == Corrected(old(epoch), clock, arrival)
      ensures pingTimingIdx ==
        (if PANIC_THRESHOLD <= Abs(clock - Local(old(epoch), arrival)) then 0 else old(pingTimingIdx))
    {
      var remoteClock := clock - TruncDiv(ping, 2);
      var localClock := TruncDiv(arrival - epoch, 1000) - TruncDiv(ping, 2);
      var diff := remoteClock - localClock;
      var adjustment := diff * 1000;
      if PANIC_THRESHOLD <= Abs(diff) {
        epoch := epoch - adjustment;
        pingTimingIdx := 0;
      } else if MINIMUM_THRESHOLD <= Abs(diff) {
        epoch := epoch - TruncDiv(adjustment, 2);
      }
    }

    /** The server's answer to a ping. */
    method Adjust(pingId: int, clock: nat, arrival: int, first: int, second: int)
      requires Valid(arrival) && arrival <= first <= second
      modifies this
      ensures Valid(second) && lastPing == old(lastPing)
      ensures pingReqMap == old(pingReqMap) - {pingId}
      ensures var hinted := Hinted(old(epoch), clock, first, second);
        if pingId !in old(pingReqMap) then
          epoch == hinted && networkLatency == old(networkLatency) && pingTimingIdx == old(pingTimingIdx)
        else
          && epoch == Corrected(hinted, clock, arrival)
          && networkLatency == Estimate(old(networkLatency), (arrival - old(pingReqMap)[pingId]) / 1000)
          && pingTimingIdx ==
             (if PANIC_THRESHOLD <= Abs(clock - Local(hinted, arrival)) then 0 else old(pingTimingIdx))
    {
      MonotonicHint(clock, first, second);
      if pingId !in pingReqMap {
        return;
      }
      var prevClock := pingReqMap[pingId];
      pingReqMap := pingReqMap - {pingId};
      var ping := TruncDiv(arrival - prevClock, 1000);
      Learn(ping);
      CorrectionStaysBehind(epoch, clock, arrival, second);
      Correct(clock, ping, arrival);
    }

    /** Forgets requests older than thirty seconds and records a new one under a random id. */
    method SendPing(id: int, first: int, second: int)
      requires Valid(first) && first <= second
      modifies this`lastPing, this`pingReqMap
      ensures Valid(second) && lastPing == first
      ensures pingReqMap == Alive(old(pingReqMap), first)[id := second]
    {
      lastPing := first;
      var requests := pingReqMap;
      var toRemove: set<int> := {};
      var keys: set<int> := requests.Keys;
      while keys != {}
        invariant keys <= requests.Keys && lastPing == first
        invariant forall k :: k in toRemove <==> k in requests && k !in keys && PING_LIFETIME < first - requests[k]
        decreases |keys|
      {
        SomeKey(keys);
        var key :| key in keys;
        if PING_LIFETIME < first - requests[key] {
          toRemove := toRemove + {key};
        }
        keys := keys - {key};
      }
      RemovedOrAlive(requests, toRemove, first);
      pingReqMap := requests - toRemove;
      pingReqMap := pingReqMap[id := second];
    }

    /** Whether to ping now, and how many milliseconds to sleep afterwards. */
    method GeneratePing(id: int, reading: int, first: int, second: int) returns (send: bool, sleepAmount: int)
      requires Valid(reading) && reading <= first <= second
      modifies this`lastPing, this`pingReqMap, this`pingTimingIdx
      ensures Valid(second)
      ensures var idx := old(pingTimingIdx);
        var unasked := networkLatency == 0 && old(pingReqMap) == map[];
        var overdue := TIMING_TABLE[idx] * MILLISECOND <= reading - old(lastPing);
        && send == (unasked || overdue)
        && pingTimingIdx == (if send && !unasked && idx < |TIMING_TABLE| - 1 then idx + 1 else idx)
        && (if send then
              && pingReqMap == Alive(old(pingReqMap), first)[id := second] && lastPing == first
              && sleepAmount == Min(60, TIMING_TABLE[pingTimingIdx])
            else
              sleepAmount == 15 && pingReqMap == old(pingReqMap) && lastPing == old(lastPing))
    {
      if networkLatency == 0 && pingReqMap == map[] {
        sleepAmount := Min(60, TIMING_TABLE[pingTimingIdx]);
        SendPing(id, first, second);
        return true, sleepAmount;
      }
      if TIMING_TABLE[pingTimingIdx] * MILLISECOND <= reading - lastPing {
        if pingTimingIdx < |TIMING_TABLE| - 1 {
          pingTimingIdx := pingTimingIdx + 1;
        }
        sleepAmount := Min(60, TIMING_TABLE[pingTimingIdx]);
        SendPing(id, first, second);
        return true, sleepAmount;
      }
      return false, 15;
    }
  }

  // ---------- hints and corrections ----------

  lemma TruncDivBy1000(a: int)
    ensures a >= 0 ==> TruncDiv(a, 1000) >= 0 && 1000 * TruncDiv(a, 1000) <= a < 1000 * TruncDiv(a, 1000) + 1000
    ensures a <= 0 ==> TruncDiv(a, 1000) <= 0 && 1000 * TruncDiv(a, 1000) - 1000 < a <= 1000 * TruncDiv(a, 1000)
  {
  }

  /** A hint never leaves local time behind it, and never puts the epoch in the future. */
  lemma HintReaches(epoch: int, clockLeast: nat, first: int, second: int)
    requires epoch <= first <= second
    ensures var e := Hinted(epoch, clockLeast, first, second);
      && e <= second && Local(e, second) >= clockLeast
      && (clockLeast > Local(epoch, first) ==> Local(e, second) == clockLeast)
  {
    TruncDivBy1000(second - epoch);
    TruncDivBy1000(first - epoch);
  }

  /** A hint moves local time back exactly if the hinted time had not been reached at the first reading and
      had been passed at the second. */
  lemma HintStepsBackExactly(epoch: int, clockLeast: nat, first: int, second: int)
    requires epoch <= first <= second
    ensures Local(Hinted(epoch, clockLeast, first, second), second) < Local(epoch, second)
            <==> Local(epoch, first) < clockLeast < Local(epoch, second)
  {
    HintReaches(epoch, clockLeast, first, second);
  }

  lemma CorrectionStaysBehind(epoch: int, clock: nat, arrival: int, reading: int)
    requires epoch <= reading && arrival <= reading
    ensures Corrected(epoch, clock, arrival) <= reading
  {
    TruncDivBy1000(arrival - epoch);
  }

  /** How far local time is ahead of the server's clock. */
  function Excess(epoch: int, clock: int, reading: int): int { Local(epoch, reading) - clock }

  /** The excess after an answer taken in at one instant, from the excess d and the nanoseconds below a microsecond. */
  function NextExcess(d: nat, below: nat): nat {
    if PANIC_THRESHOLD <= d then 0 else if MINIMUM_THRESHOLD <= d then (500 * d + below) / 1000 else d
  }

  /** At one instant, an answer brings local time up to the server's clock if it was behind. If it was ahead, the
      excess is removed if it was 300 ms or more, at most halved (rounded up) if it was 100 us or more, and kept
      otherwise. */
  lemma AnswerAtOneInstant(epoch: int, clock: nat, reading: int)
    requires epoch <= reading
    ensures var e := Corrected(Hinted(epoch, clock, reading, reading), clock, reading);
      var before := Excess(epoch, clock, reading);
      var after := Excess(e, clock, reading);
      && e <= reading
      && (before <= 0 ==> after == 0)
      && (before >= 0 ==> after == NextExcess(before, (reading - epoch) % 1000))
      && (PANIC_THRESHOLD <= before ==> after == 0)
      && (MINIMUM_THRESHOLD <= before < PANIC_THRESHOLD ==> before / 2 <= after <= (before + 1) / 2)
      && (0 <= before < MINIMUM_THRESHOLD ==> after == before)
  {
    var hinted := Hinted(epoch, clock, reading, reading);
    HintReaches(epoch, clock, reading, reading);
    var d := Excess(hinted, clock, reading);
    CorrectionStaysBehind(hinted, clock, reading, reading);
    TruncDivBy1000(reading - epoch);
    TruncDivBy1000(reading - hinted);
    TruncDivBy1000(reading - Corrected(hinted, clock, reading));
    HalfStep(clock, d, (reading - hinted) % 1000);
  }

  lemma HalfStep(clock: nat, d: nat, below: nat)
    requires below < 1000
    ensures (1000 * (clock + d) + below - 500 * d) / 1000 == clock + (500 * d + below) / 1000
    ensures d / 2 <= (500 * d + below) / 1000 <= (d + 1) / 2
  {
    assert 1000 * (clock + d) + below - 500 * d == 1000 * clock + (500 * d + below);
  }

  // ---------- convergence ----------

  /** The excess after answers whose fractions are given, newest last. */
  function ExcessAfter(d: nat, fractions: seq<nat>): nat {
    if fractions == [] then d else NextExcess(ExcessAfter(d, fractions[..|fractions| - 1]), fractions[|fractions| - 1])
  }

  /** An upper bound that halves, rounding up. */
  function Halved(d: nat, times: nat): nat {
    if times == 0 then d else (Halved(d, times - 1) + 1) / 2
  }

  lemma TwelveHalvings()
    ensures Halved(PANIC_THRESHOLD - 1, 12) < MINIMUM_THRESHOLD
  {
    var d := PANIC_THRESHOLD - 1;
    assert Halved(d, 1) == 150000;
    assert Halved(d, 2) == 75000;
    assert Halved(d, 3) == 37500;
    assert Halved(d, 4) == 18750;
    assert Halved(d, 5) == 9375;
    assert Halved(d, 6) == 4688;
    assert Halved(d, 7) == 2344;
    assert Halved(d, 8) == 1172;
    assert Halved(d, 9) == 586;
    assert Halved(d, 10) == 293;
    assert Halved(d, 11) == 147;
  }

  lemma {:induction false} ExcessShrinks(d: nat, fractions: seq<nat>)
    requires forall i :: 0 <= i < |fractions| ==> fractions[i] < 1000
    requires d < PANIC_THRESHOLD
    ensures var after := ExcessAfter(d, fractions);
      after < MINIMUM_THRESHOLD || after <= Halved(PANIC_THRESHOLD - 1, |fractions|)
    ensures ExcessAfter(d, fractions) < PANIC_THRESHOLD
  {
    if fractions != [] {
      var front, last := fractions[..|fractions| - 1], fractions[|fractions| - 1];
      ExcessShrinks(d, front);
      HalfStep(0, ExcessAfter(d, front), last);
    }
  }

  lemma {:induction false} SmallExcessStays(d: nat, fractions: seq<nat>, k: nat)
    requires k <= |fractions| && ExcessAfter(d, fractions[..k]) < MINIMUM_THRESHOLD
    ensures ExcessAfter(d, fractions) == ExcessAfter(d, fractions[..k])
  {
    if k == |fractions| {
      assert fractions[..k] == fractions;
    } else {
      var front := fractions[..|fractions| - 1];
      assert front[..k] == fractions[..k];
      SmallExcessStays(d, front, k);
    }
  }

  /** Whatever the excess was, twelve answers bring it below 100 us, and then it stays as it is. */
  lemma AnswersConverge(d: nat, fractions: seq<nat>)
    requires forall i :: 0 <= i < |fractions| ==> fractions[i] < 1000
    requires |fractions| >= 12
    ensures ExcessAfter(d, fractions) == ExcessAfter(d, fractions[..12]) < MINIMUM_THRESHOLD
  {
    var first := fractions[..12];
    TwelveHalvings();
    if d < PANIC_THRESHOLD {
      ExcessShrinks(d, first);
    } else {
      assert fractions[..1][..0] == [];
      assert ExcessAfter(d, fractions[..1]) == NextExcess(ExcessAfter(d, []), fractions[0]) == 0;
      assert first[..1] == fractions[..1];
      SmallExcessStays(d, first, 1);
    }
    SmallExcessStays(d, fractions, 12);
  }

  /** The epoch after an answer once both clocks have advanced by the same whole number of microseconds. */
  function Answered(epoch: int, clock: nat, reading: int, elapsed: nat): int {
    var t := reading + 1000 * elapsed;
    Corrected(Hinted(epoch, clock + elapsed, t, t), clock + elapsed, t)
  }

  /** The epoch after several answers, given how far both clocks had advanced at each. */
  function EpochAfter(epoch: int, clock: nat, reading: int, elapsed: seq<nat>): int {
    if elapsed == [] then epoch
    else Answered(EpochAfter(epoch, clock, reading, elapsed[..|elapsed| - 1]), clock, reading, elapsed[|elapsed| - 1])
  }

  /** While both clocks run at the same speed the excess does not change between answers. */
  lemma ExcessKeeps(epoch: int, clock: int, reading: int, elapsed: nat)
    requires epoch <= reading
    ensures Excess(epoch, clock + elapsed, reading + 1000 * elapsed) == Excess(epoch, clock, reading)
  {
    TruncDivBy1000(reading - epoch);
    TruncDivBy1000(reading + 1000 * elapsed - epoch);
  }

  /** The excess, counting none while local time is behind. */
  function Ahead(epoch: int, clock: int, reading: int): nat {
    var d := Excess(epoch, clock, reading);
    if d < 0 then 0 else d
  }

  predicate IsAhead(epoch: int, clock: nat, reading: int, d: nat) {
    epoch <= reading && Excess(epoch, clock, reading) == d
  }

  lemma AnswerMovesExcess(epoch: int, clock: nat, reading: int, elapsed: nat) returns (below: nat)
    requires epoch <= reading
    ensures below < 1000
    ensures IsAhead(Answered(epoch, clock, reading, elapsed), clock, reading,
                    NextExcess(Ahead(epoch, clock, reading), below))
  {
    var t := reading + 1000 * elapsed;
    var e := Answered(epoch, clock, reading, elapsed);
    below := (t - epoch) % 1000;
    ExcessKeeps(epoch, clock, reading, elapsed);
    AnswerAtOneInstant(epoch, clock + elapsed, t);
    AnswerStaysBehind(epoch, clock, reading, elapsed);
    ExcessKeeps(e, clock, reading, elapsed);
  }

  /** The epoch stays behind the earlier reading too. */
  lemma AnswerStaysBehind(epoch: int, clock: nat, reading: int, elapsed: nat)
    requires epoch <= reading
    ensures Answered(epoch, clock, reading, elapsed) <= reading
  {
    var t := reading + 1000 * elapsed;
    ExcessKeeps(epoch, clock, reading, elapsed);
    HintReaches(epoch, clock + elapsed, t, t);
    TruncDivBy1000(reading - epoch);
    TruncDivBy1000(t - epoch);
  }

  lemma {:induction false} AnswersActOnExcess(epoch: int, clock: nat, reading: int, elapsed: seq<nat>)
    returns (fractions: seq<nat>)
    requires epoch <= reading && elapsed != []
    ensures |fractions| == |elapsed| && (forall i :: 0 <= i < |fractions| ==> fractions[i] < 1000)
    ensures IsAhead(EpochAfter(epoch, clock, reading, elapsed), clock, reading,
                    ExcessAfter(Ahead(epoch, clock, reading), fractions))
  {
    var front, t := elapsed[..|elapsed| - 1], elapsed[|elapsed| - 1];
    var before: seq<nat> := [];
    if front != [] {
      before := AnswersActOnExcess(epoch, clock, reading, front);
    }
    var e := EpochAfter(epoch, clock, reading, front);
    var below := AnswerMovesExcess(e, clock, reading, t);
    fractions := before + [below];
    ExcessExtends(Ahead(epoch, clock, reading), before, below);
    assert Ahead(e, clock, reading) == ExcessAfter(Ahead(epoch, clock, reading), before);
  }

  lemma ExcessExtends(d: nat, before: seq<nat>, below: nat)
    ensures ExcessAfter(d, before + [below]) == NextExcess(ExcessAfter(d, before), below)
  {
    assert (before + [below])[..|before|] == before;
  }

  /** With clocks that run at the same speed, twelve answers are enough, wherever local time was: it is then less
      than 100 us ahead of the server's clock, and not behind it. */
  lemma TwelveAnswersSynchronise(epoch: int, clock: nat, reading: int, elapsed: seq<nat>)
    requires epoch <= reading && |elapsed| >= 12
    ensures 0 <= Excess(EpochAfter(epoch, clock, reading, elapsed), clock, reading) < MINIMUM_THRESHOLD
  {
    var fractions := AnswersActOnExcess(epoch, clock, reading, elapsed);
    AnswersConverge(Ahead(epoch, clock, reading), fractions);
  }

  // ---------- latency ----------

  function LatencyAfter(pings: seq<nat>): int {
    if pings == [] then 0 else Estimate(LatencyAfter(pings[..|pings| - 1]), pings[|pings| - 1])
  }

  /** The estimate stays between the smallest and the largest round trip seen, counting a round trip below one
      microsecond as one, and is never again zero. */
  lemma {:induction false} LatencyWithinSamples(pings: seq<nat>, lo: nat, hi: nat)
    requires pings != [] && 1 <= lo && hi < 0x8000_0000
    requires forall i :: 0 <= i < |pings| ==> lo <= (if pings[i] == 0 then 1 else pings[i]) <= hi
    ensures lo <= LatencyAfter(pings) <= hi
  {
    var front, ping := pings[..|pings| - 1], pings[|pings| - 1];
    if front != [] {
      LatencyWithinSamples(front, lo, hi);
      MeanBetween(LatencyAfter(front), ping, lo, hi);
    }
  }

  lemma MeanBetween(latency: int, ping: nat, lo: nat, hi: nat)
    requires lo <= latency <= hi && 1 <= lo && hi < 0x8000_0000
    requires lo <= (if ping == 0 then 1 else ping) <= hi
    ensures lo <= Estimate(latency, ping) <= hi
  {
    var m := latency + TruncDiv(ping - latency, 2);
    assert 0 <= m <= hi;
    assert Wrap32(m) == m;
  }

  // ---------- the estimate moves ----------

  /** The first round trip is taken over; each later one halves the distance to it, rounding the remainder up. */
  lemma EstimateHalvesTheDistance(latency: nat, ping: nat)
    requires latency < 0x8000_0000 && 1 <= ping < 0x8000_0000
    ensures Estimate(0, ping) == ping
    ensures latency >= 1 ==>
      var next := Estimate(latency, ping);
      && 2 * Abs(ping - next) - 1 <= Abs(ping - latency) <= 2 * Abs(ping - next)
      && (latency <= ping ==> latency <= next <= ping) && (ping <= latency ==> ping <= next <= latency)
  {
    var d := ping - latency;
    var m := latency + TruncDiv(d, 2);
    assert d >= 0 ==> 0 <= m <= ping;
    assert d < 0 ==> ping <= m <= latency;
    assert Wrap32(m) == m && Wrap32(ping) == ping;
  }

  /** The estimate after n equal round trips. */
  function SteadyEstimate(latency: nat, ping: nat, n: nat): int {
    if n == 0 then latency else Estimate(SteadyEstimate(latency, ping, n - 1), ping)
  }

  lemma {:induction false} SteadyEstimateCloses(latency: nat, ping: nat, n: nat)
    requires 1 <= latency < 0x8000_0000 && 1 <= ping < 0x8000_0000
    ensures 1 <= SteadyEstimate(latency, ping, n) < 0x8000_0000
    ensures (Abs(ping - SteadyEstimate(latency, ping, n)) - 1) * Pow2(n) <= Abs(ping - latency)
  {
    if n > 0 {
      var before := SteadyEstimate(latency, ping, n - 1);
      SteadyEstimateCloses(latency, ping, n - 1);
      EstimateHalvesTheDistance(before, ping);
      var d := Abs(ping - SteadyEstimate(latency, ping, n));
      assert 2 * (d - 1) <= Abs(ping - before) - 1;
      DoubleProduct(d - 1, Abs(ping - before) - 1, Pow2(n - 1));
    }
  }

  lemma DoubleProduct(a: int, b: int, p: nat)
    requires 2 * a <= b
    ensures a * (2 * p) <= b * p
  {
    assert a * (2 * p) == (2 * a) * p;
    assert (b - 2 * a) * p >= 0;
  }

  /** Whatever the estimate was, 32 equal round trips bring it within one microsecond of them. */
  lemma EstimateConverges(latency: nat, ping: nat)
    requires 1 <= latency < 0x8000_0000 && 1 <= ping < 0x8000_0000
    ensures Abs(ping - SteadyEstimate(latency, ping, 32)) <= 1
  {
    SteadyEstimateCloses(latency, ping, 32);
    WordIsPow2();
    var left := Abs(ping - SteadyEstimate(latency, ping, 32)) - 1;
    assert left * 0x1_0000_0000 <= Abs(ping - latency) < 0x8000_0000;
  }

  lemma WordIsPow2()
    ensures Pow2(32) == 0x1_0000_0000
  {
    assert Pow2(4) == 16;
    Pow2Adds(4, 4);
    Pow2Adds(8, 8);
    Pow2Adds(16, 16);
  }

  /** What a correction does at the reading it is made for, whether local time was behind or ahead. */
  lemma CorrectionShrinksTheError(epoch: int, clock: nat, reading: int)
    requires epoch <= reading
    ensures var e := Corrected(epoch, clock, reading);
      var before, after := Excess(epoch, clock, reading), Excess(e, clock, reading);
      && (Abs(before) >= 300_000 ==> after == 0)
      && (100 <= Abs(before) < 300_000 ==> Abs(before) / 2 <= Abs(after) <= (Abs(before) + 1) / 2)
      && (Abs(before) < 100 ==> e == epoch)
  {
    TruncDivBy1000(reading - epoch);
    TruncDivBy1000(reading - Corrected(epoch, clock, reading));
  }
}
