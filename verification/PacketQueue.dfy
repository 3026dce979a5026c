/** The backlog policy of the decoder's packet queue, and what it preserves over whole runs. */
module PacketQueue {
  import opened Prelude
  import opened DesktopFrames

  // ---------- the newest cursor data in a stretch of stream ----------

  function PosOf(p: Packet): Option<CursorPos> { p.cursorPos }

  function ShapeOf(p: Packet): Option<CursorShape> { p.cursorShape }

  /** The last value present in a stretch of packets. */
  function Last<A>(ps: seq<Packet>, get: Packet -> Option<A>): Option<A> {
    if ps == [] then None
    else if get(ps[|ps| - 1]).Some? then get(ps[|ps| - 1])
    else Last(ps[..|ps| - 1], get)
  }

  function OrElse<A>(a: Option<A>, b: Option<A>): Option<A> {
    if a.Some? then a else b
  }

  lemma {:induction false} LastOfConcat<A>(a: seq<Packet>, b: seq<Packet>, get: Packet -> Option<A>)
    ensures Last(a + b, get) == OrElse(Last(b, get), Last(a, get))
    decreases |b|
  {
    if b == [] {
      assert a + b == a;
    } else {
      var front := b[..|b| - 1];
      assert (a + b)[..|a + b| - 1] == a + front;
      LastOfConcat(a, front, get);
    }
  }

  // ---------- the queue ----------

  datatype Queue = Queue(packets: seq<Packet>, keyInQueue: bool)

  const EMPTY := Queue([], false)

  /** A frame that replaces dropped packets takes over the cursor data it would otherwise hide. */
  function Rescue(frame: Packet, dropped: seq<Packet>): Packet {
    frame.(cursorPos := OrElse(frame.cursorPos, Last(dropped, PosOf)),
           cursorShape := OrElse(frame.cursorShape, Last(dropped, ShapeOf)))
  }

  predicate Skips(q: Queue, frame: Packet) {
    frame.isIDR && q.keyInQueue
  }

  function Push(q: Queue, frame: Packet): Queue {
    if Skips(q, frame) then Queue([Rescue(frame, q.packets)], true)
    else Queue(q.packets + [frame], q.keyInQueue || frame.isIDR)
  }

  function Pop(q: Queue): Queue
    requires q.packets != []
  {
    Queue(q.packets[1..], q.keyInQueue && !q.packets[0].isIDR)
  }

  /** Number of key frames waiting. */
  function KeyCount(ps: seq<Packet>): nat {
    if ps == [] then 0 else KeyCount(ps[..|ps| - 1]) + (if ps[|ps| - 1].isIDR then 1 else 0)
  }

  lemma {:induction false} KeyCountOfConcat(a: seq<Packet>, b: seq<Packet>)
    ensures KeyCount(a + b) == KeyCount(a) + KeyCount(b)
    decreases |b|
  {
    if b == [] {
      assert a + b == a;
    } else {
      assert (a + b)[..|a + b| - 1] == a + b[..|b| - 1];
      KeyCountOfConcat(a, b[..|b| - 1]);
    }
  }

  // ---------- histories ----------

  /** The queue together with everything that happened to it: all packets pushed, the positions in that
      stream of the packets that were not dropped, and the packets already taken out. */
  datatype Stream = Stream(pushed: seq<Packet>, kept: seq<nat>, taken: seq<Packet>, queue: Queue)

  const START := Stream([], [], [], EMPTY)

  function StreamPush(s: Stream, frame: Packet): Stream
    requires |s.queue.packets| <= |s.kept|
  {
    var kept := if Skips(s.queue, frame) then s.kept[..|s.kept| - |s.queue.packets|] else s.kept;
    Stream(s.pushed + [frame], kept + [|s.pushed|], s.taken, Push(s.queue, frame))
  }

  function StreamPop(s: Stream): Stream
    requires s.queue.packets != []
  {
    s.(taken := s.taken + [s.queue.packets[0]], queue := Pop(s.queue))
  }

  /** Start of the stretch of stream that the k-th surviving packet stands for. */
  function StretchStart(kept: seq<nat>, k: nat): nat
    requires k < |kept|
  {
    if k == 0 then 0 else kept[k - 1] + 1
  }

  /** The k-th surviving packet: the pushed one, with the newest cursor data of its whole stretch. */
  function Survivor(pushed: seq<Packet>, kept: seq<nat>, k: nat): Packet
    requires k < |kept| && StretchStart(kept, k) <= kept[k] < |pushed|
  {
    var stretch := pushed[StretchStart(kept, k)..kept[k] + 1];
    pushed[kept[k]].(cursorPos := Last(stretch, PosOf), cursorShape := Last(stretch, ShapeOf))
  }

  /** A key frame stands in the stretch of stream from position lo up to hi. */
  ghost predicate HasKey(pushed: seq<Packet>, lo: nat, hi: nat) {
    exists i :: lo <= i < hi <= |pushed| && pushed[i].isIDR
  }

  /** What was skipped before the k-th surviving packet, if anything, holds a key frame of its own. */
  ghost predicate GapHasKey(pushed: seq<Packet>, kept: seq<nat>, k: nat) {
    k < |kept| && (StretchStart(kept, k) < kept[k] ==> HasKey(pushed, StretchStart(kept, k), kept[k]))
  }

  /** The k-th packet seen is the k-th survivor, and the gap before it, if any, ends at a key frame. */
  ghost predicate SurvivesAt(pushed: seq<Packet>, kept: seq<nat>, seen: seq<Packet>, k: nat) {
    && k < |kept| && k < |seen|
    && StretchStart(kept, k) <= kept[k] < |pushed|
    && seen[k] == Survivor(pushed, kept, k)
    && (kept[k] == StretchStart(kept, k) || pushed[kept[k]].isIDR)
  }

  /** What the decoder sees is the stream itself, except for gaps that hold a key frame and end exactly at another. */
  ghost predicate Faithful(pushed: seq<Packet>, kept: seq<nat>, seen: seq<Packet>) {
    && |seen| == |kept|
    && (forall k :: 0 <= k < |kept| ==> SurvivesAt(pushed, kept, seen, k))
    && (forall k :: 0 <= k < |kept| ==> GapHasKey(pushed, kept, k))
    && (pushed == [] <==> kept == [])
    && (pushed != [] ==> kept[|kept| - 1] == |pushed| - 1)
  }

  ghost predicate Consistent(s: Stream) {
    && Faithful(s.pushed, s.kept, s.taken + s.queue.packets)
    && KeyCount(s.queue.packets) == (if s.queue.keyInQueue then 1 else 0)
  }

  lemma LastOfOne(p: Packet)
    ensures Last([p], PosOf) == p.cursorPos
    ensures Last([p], ShapeOf) == p.cursorShape
  {
    assert [p][..0] == [];
  }

  lemma KeyCountOfOne(p: Packet)
    ensures KeyCount([p]) == if p.isIDR then 1 else 0
  {
    assert [p][..0] == [];
  }

  /** A surviving packet depends only on the stream up to its own position. */
  lemma SurvivesLater(pushed: seq<Packet>, kept: seq<nat>, seen: seq<Packet>,
                      pushed': seq<Packet>, kept': seq<nat>, seen': seq<Packet>, k: nat)
    requires SurvivesAt(pushed, kept, seen, k)
    requires k < |kept'| && k < |seen'| && seen'[k] == seen[k]
    requires pushed <= pushed'
    requires kept'[..k + 1] == kept[..k + 1]
    ensures SurvivesAt(pushed', kept', seen', k)
  {
    assert forall j :: 0 <= j <= k ==> kept'[j] == kept'[..k + 1][j] == kept[j];
    var lo, hi := StretchStart(kept, k), kept[k] + 1;
    assert pushed'[lo..hi] == pushed[lo..hi];
  }

  lemma GapLater(pushed: seq<Packet>, kept: seq<nat>, pushed': seq<Packet>, kept': seq<nat>, k: nat)
    requires GapHasKey(pushed, kept, k) && k < |kept'| && pushed <= pushed' && kept'[..k + 1] == kept[..k + 1]
    ensures GapHasKey(pushed', kept', k)
  {
    assert forall j :: 0 <= j <= k ==> kept'[j] == kept'[..k + 1][j] == kept[j];
    if StretchStart(kept, k) < kept[k] {
      KeyStays(pushed, pushed', StretchStart(kept, k), kept[k]);
    }
  }

  lemma KeyStays(pushed: seq<Packet>, pushed': seq<Packet>, lo: nat, hi: nat)
    requires HasKey(pushed, lo, hi) && pushed <= pushed'
    ensures HasKey(pushed', lo, hi)
  {
    var i :| lo <= i < hi <= |pushed| && pushed[i].isIDR;
    assert pushed'[i].isIDR;
  }

  /** A key frame may replace everything from position n on if another stands there; any frame may follow the last
      position. */
  lemma ExtendFaithful(pushed: seq<Packet>, kept: seq<nat>, seen: seq<Packet>, n: nat, frame: Packet)
    requires Faithful(pushed, kept, seen)
    requires n <= |kept| && (n < |kept| ==> frame.isIDR && exists i :: n <= i < |seen| && seen[i].isIDR)
    ensures Faithful(pushed + [frame], kept[..n] + [|pushed|], seen[..n] + [Rescue(frame, seen[n..])])
  {
    var pushed', kept', seen' := pushed + [frame], kept[..n] + [|pushed|], seen[..n] + [Rescue(frame, seen[n..])];
    forall k | 0 <= k < n
      ensures SurvivesAt(pushed', kept', seen', k)
    {
      assert SurvivesAt(pushed, kept, seen, k);
      assert kept'[..k + 1] == kept[..k + 1];
      SurvivesLater(pushed, kept, seen, pushed', kept', seen', k);
    }
    forall k | 0 <= k < n
      ensures GapHasKey(pushed', kept', k)
    {
      assert kept'[..k + 1] == kept[..k + 1];
      GapLater(pushed, kept, pushed', kept', k);
    }
    NewestSurvives(pushed, kept, seen, n, frame);
    NewestGap(pushed, kept, seen, n, frame);
  }

  lemma NewestGap(pushed: seq<Packet>, kept: seq<nat>, seen: seq<Packet>, n: nat, frame: Packet)
    requires Faithful(pushed, kept, seen)
    requires n <= |kept| && (n < |kept| ==> frame.isIDR && exists i :: n <= i < |seen| && seen[i].isIDR)
    ensures GapHasKey(pushed + [frame], kept[..n] + [|pushed|], n)
  {
    var start := StretchStart(kept[..n] + [|pushed|], n);
    NewStart(pushed, kept, seen, n);
    if n < |kept| {
      KeySurvives(pushed, kept, seen, n);
      KeyStays(pushed, pushed + [frame], start, |pushed|);
    }
  }

  /** Where the stretch of the packet just pushed begins. */
  lemma NewStart(pushed: seq<Packet>, kept: seq<nat>, seen: seq<Packet>, n: nat)
    requires Faithful(pushed, kept, seen) && n <= |kept|
    ensures StretchStart(kept[..n] + [|pushed|], n) == if n < |kept| then StretchStart(kept, n) else |pushed|
  {
    if n > 0 {
      assert (kept[..n] + [|pushed|])[n - 1] == kept[n - 1];
    }
  }

  /** The packet just pushed carries the newest cursor data of everything dropped for it, and its own. */
  lemma NewestSurvives(pushed: seq<Packet>, kept: seq<nat>, seen: seq<Packet>, n: nat, frame: Packet)
    requires Faithful(pushed, kept, seen)
    requires n <= |kept| && (n < |kept| ==> frame.isIDR)
    ensures SurvivesAt(pushed + [frame], kept[..n] + [|pushed|], seen[..n] + [Rescue(frame, seen[n..])], n)
  {
    var start := StretchStart(kept[..n] + [|pushed|], n);
    LastOfOne(frame);
    NewStart(pushed, kept, seen, n);
    if n < |kept| {
      SurvivorsCoverStream(pushed, kept, seen, n, |kept|);
      assert seen[n..|kept|] == seen[n..];
      assert pushed[start..|pushed|] == pushed[start..];
    }
    assert (pushed + [frame])[start..|pushed| + 1] == pushed[start..] + [frame];
    LastOfConcat(pushed[start..], [frame], PosOf);
    LastOfConcat(pushed[start..], [frame], ShapeOf);
  }

  /** A key frame among the packets seen from position n on is one of the stretch they stand for. */
  lemma KeySurvives(pushed: seq<Packet>, kept: seq<nat>, seen: seq<Packet>, n: nat)
    requires Faithful(pushed, kept, seen) && exists i :: n <= i < |seen| && seen[i].isIDR
    ensures n < |kept| && HasKey(pushed, StretchStart(kept, n), |pushed|)
  {
    var i :| n <= i < |seen| && seen[i].isIDR;
    SurvivorsCoverStream(pushed, kept, seen, n, i + 1);
    assert SurvivesAt(pushed, kept, seen, i);
    assert pushed[kept[i]].isIDR;
  }

  lemma PushKeepsConsistent(s: Stream, frame: Packet)
    requires Consistent(s)
    ensures Consistent(StreamPush(s, frame))
  {
    var t := StreamPush(s, frame);
    var seen := s.taken + s.queue.packets;
    PushCountsKeys(s, frame);
    if Skips(s.queue, frame) {
      var n := |s.taken|;
      KeyCountBounds(s.queue.packets);
      var i :| 0 <= i < |s.queue.packets| && s.queue.packets[i].isIDR;
      assert seen[n + i].isIDR;
      ExtendFaithful(s.pushed, s.kept, seen, n, frame);
      assert seen[..n] == s.taken && seen[n..] == s.queue.packets;
    } else {
      var n := |s.kept|;
      ExtendFaithful(s.pushed, s.kept, seen, n, frame);
      assert seen[..n] == seen && seen[n..] == [] && s.kept[..n] == s.kept;
      assert t.taken + t.queue.packets == seen + [frame];
    }
  }

  lemma PushCountsKeys(s: Stream, frame: Packet)
    requires Consistent(s)
    ensures KeyCount(Push(s.queue, frame).packets) == if Push(s.queue, frame).keyInQueue then 1 else 0
  {
    KeyCountOfOne(frame);
    KeyCountOfOne(Rescue(frame, s.queue.packets));
    KeyCountOfConcat(s.queue.packets, [frame]);
  }

  /** Cursor data of consecutive surviving packets is the cursor data of the stream they cover. */
  lemma {:induction false} SurvivorsCoverStream(
      pushed: seq<Packet>, kept: seq<nat>, seen: seq<Packet>, lo: nat, hi: nat)
    requires Faithful(pushed, kept, seen)
    requires lo < hi <= |kept|
    ensures StretchStart(kept, lo) <= kept[hi - 1] < |pushed|
    ensures var stretch := pushed[StretchStart(kept, lo)..kept[hi - 1] + 1];
      && Last(seen[lo..hi], PosOf) == Last(stretch, PosOf)
      && Last(seen[lo..hi], ShapeOf) == Last(stretch, ShapeOf)
    decreases hi
  {
    var last := seen[hi - 1];
    assert SurvivesAt(pushed, kept, seen, hi - 1);
    LastOfOne(last);
    if lo + 1 == hi {
      assert seen[lo..hi] == [last];
    } else {
      SurvivorsCoverStream(pushed, kept, seen, lo, hi - 1);
      var a := pushed[StretchStart(kept, lo)..kept[hi - 2] + 1];
      var b := pushed[StretchStart(kept, hi - 1)..kept[hi - 1] + 1];
      assert seen[lo..hi] == seen[lo..hi - 1] + [last];
      assert pushed[StretchStart(kept, lo)..kept[hi - 1] + 1] == a + b;
      LastOfConcat(a, b, PosOf);
      LastOfConcat(a, b, ShapeOf);
      LastOfConcat(seen[lo..hi - 1], [last], PosOf);
      LastOfConcat(seen[lo..hi - 1], [last], ShapeOf);
    }
  }

  lemma PopKeepsConsistent(s: Stream)
    requires Consistent(s) && s.queue.packets != []
    ensures Consistent(StreamPop(s))
  {
    var t := StreamPop(s);
    var head := s.queue.packets[0];
    assert t.taken + t.queue.packets == s.taken + s.queue.packets;
    assert s.queue.packets == [head] + t.queue.packets;
    KeyCountOfConcat([head], t.queue.packets);
    KeyCountOfOne(head);
  }

  // ---------- whole runs ----------

  datatype Op = PushOp(frame: Packet) | PopOp

  /** The state after a sequence of calls; None when a packet is taken from an empty queue. */
  ghost function Run(ops: seq<Op>): (r: Option<Stream>)
    ensures r.Some? ==> Consistent(r.value)
  {
    if ops == [] then
      assert [] + [] == START.taken + START.queue.packets;
      Some(START)
    else
      var before := Run(ops[..|ops| - 1]);
      if before.None? then None
      else
        match ops[|ops| - 1]
        case PushOp(frame) => PushKeepsConsistent(before.value, frame); Some(StreamPush(before.value, frame))
        case PopOp =>
          if before.value.queue.packets == [] then None
          else PopKeepsConsistent(before.value); Some(StreamPop(before.value))
  }

  /** The frames given to push, in order. */
  function FramesPushed(ops: seq<Op>): seq<Packet> {
    if ops == [] then []
    else
      var last := ops[|ops| - 1];
      FramesPushed(ops[..|ops| - 1]) + (if last.PushOp? then [last.frame] else [])
  }

  function PopCount(ops: seq<Op>): nat {
    if ops == [] then 0 else PopCount(ops[..|ops| - 1]) + (if ops[|ops| - 1].PopOp? then 1 else 0)
  }

  /** The history's stream is what was pushed, and each call that takes a packet hands over one. */
  lemma {:induction false} HistoryIsWhatHappened(ops: seq<Op>)
    requires Run(ops).Some?
    ensures Run(ops).value.pushed == FramesPushed(ops) && |Run(ops).value.taken| == PopCount(ops)
  {
    if ops != [] {
      HistoryIsWhatHappened(ops[..|ops| - 1]);
    }
  }

  /** Every packet handed over that is not a key frame directly follows its predecessor in the stream. */
  lemma HandedOverIsDecodable(ops: seq<Op>, k: nat)
    requires Run(ops).Some? && k < |Run(ops).value.taken|
    ensures var s := Run(ops).value;
      && k < |s.kept| && s.kept[k] < |s.pushed|
      && (k > 0 ==> s.kept[k - 1] < s.kept[k])
      && s.taken[k].desktop == s.pushed[s.kept[k]].desktop
      && s.taken[k].isIDR == s.pushed[s.kept[k]].isIDR
      && (!s.taken[k].isIDR ==> s.kept[k] == if k == 0 then 0 else s.kept[k - 1] + 1)
  {
    var s := Run(ops).value;
    var seen := s.taken + s.queue.packets;
    assert SurvivesAt(s.pushed, s.kept, seen, k) && s.taken[k] == seen[k];
  }

  /** The key flag is true exactly when a key frame waits, and then exactly one does. */
  lemma KeyFlagIsExact(ops: seq<Op>)
    requires Run(ops).Some?
    ensures var q := Run(ops).value.queue;
      && (q.keyInQueue <==> exists i :: 0 <= i < |q.packets| && q.packets[i].isIDR)
      && forall i, j :: 0 <= i < |q.packets| && 0 <= j < |q.packets| ==>
        (q.packets[i].isIDR && q.packets[j].isIDR ==> i == j)
  {
    KeyCountBounds(Run(ops).value.queue.packets);
  }

  /** A push drops what waits exactly if the frame is a key frame and another one waits; otherwise it appends. */
  lemma BacklogIsDroppedExactly(ops: seq<Op>, frame: Packet)
    requires Run(ops).Some?
    ensures var q := Run(ops).value.queue;
      var keyWaits := exists i :: 0 <= i < |q.packets| && q.packets[i].isIDR;
      && Push(q, frame).packets ==
           (if frame.isIDR && keyWaits then [Rescue(frame, q.packets)] else q.packets + [frame])
      && (Push(q, frame).packets == q.packets + [frame] <==> !(frame.isIDR && keyWaits))
  {
    KeyFlagIsExact(ops);
  }

  /** Over every run, whatever was skipped before a packet holds a key frame of its own: only a backlog that a decoder
      could have started from is ever dropped, and always for a key frame. */
  lemma SkippedHoldsKey(ops: seq<Op>, k: nat)
    requires Run(ops).Some? && k < |Run(ops).value.kept|
    ensures var s := Run(ops).value;
      && StretchStart(s.kept, k) <= s.kept[k] < |s.pushed|
      && (StretchStart(s.kept, k) < s.kept[k] ==>
            s.pushed[s.kept[k]].isIDR && exists i :: StretchStart(s.kept, k) <= i < s.kept[k] && s.pushed[i].isIDR)
  {
    var s := Run(ops).value;
    assert SurvivesAt(s.pushed, s.kept, s.taken + s.queue.packets, k) && GapHasKey(s.pushed, s.kept, k);
  }

  lemma {:induction false} KeyCountBounds(ps: seq<Packet>)
    ensures KeyCount(ps) == 0 ==> forall i :: 0 <= i < |ps| ==> !ps[i].isIDR
    ensures KeyCount(ps) > 0 ==> exists i :: 0 <= i < |ps| && ps[i].isIDR
    ensures KeyCount(ps) == 1 ==>
      forall i, j :: 0 <= i < |ps| && 0 <= j < |ps| && ps[i].isIDR && ps[j].isIDR ==> i == j
  {
    if ps != [] {
      KeyCountBounds(ps[..|ps| - 1]);
      var front := ps[..|ps| - 1];
      assert forall i :: 0 <= i < |front| ==> front[i] == ps[i];
    }
  }

  /** Cutting the delivered packets anywhere shows the newest cursor data of the stream up to that packet. */
  lemma CursorNeverLost(s: Stream, m: nat)
    requires Consistent(s) && 0 < m <= |s.kept|
    ensures s.kept[m - 1] < |s.pushed|
    ensures var seen := (s.taken + s.queue.packets)[..m];
      && Last(seen, PosOf) == Last(s.pushed[..s.kept[m - 1] + 1], PosOf)
      && Last(seen, ShapeOf) == Last(s.pushed[..s.kept[m - 1] + 1], ShapeOf)
  {
    var seen := s.taken + s.queue.packets;
    SurvivorsCoverStream(s.pushed, s.kept, seen, 0, m);
    assert seen[0..m] == seen[..m];
    assert s.pushed[0..s.kept[m - 1] + 1] == s.pushed[..s.kept[m - 1] + 1];
  }

  /** Over any run, delivered plus queued packets show the same newest cursor as everything pushed. */
  lemma CursorOverRun(ops: seq<Op>)
    requires Run(ops).Some?
    ensures var s := Run(ops).value;
      && Last(s.taken + s.queue.packets, PosOf) == Last(s.pushed, PosOf)
      && Last(s.taken + s.queue.packets, ShapeOf) == Last(s.pushed, ShapeOf)
  {
    var s := Run(ops).value;
    if s.pushed != [] {
      CursorNeverLost(s, |s.kept|);
      assert (s.taken + s.queue.packets)[..|s.kept|] == s.taken + s.queue.packets;
      assert s.pushed[..|s.pushed|] == s.pushed;
    }
  }
}
