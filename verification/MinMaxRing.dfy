/** Minimum and maximum of the last few numbers, with how often each occurs. */
module MinMaxRings {
  import opened Prelude
  import opened Circular

  function Count(q: seq<int>, x: int): (n: nat)
    ensures n <= |q|
  {
    if q == [] then 0 else Count(q[..|q| - 1], x) + (if q[|q| - 1] == x then 1 else 0)
  }

  lemma {:induction false} CountOfConcat(a: seq<int>, b: seq<int>, x: int)
    ensures Count(a + b, x) == Count(a, x) + Count(b, x)
  {
    if b == [] {
      assert a + b == a;
    } else {
      assert (a + b)[..|a + b| - 1] == a + b[..|b| - 1];
      CountOfConcat(a, b[..|b| - 1], x);
    }
  }

  lemma {:induction false} CountPositive(q: seq<int>, x: int)
    ensures Count(q, x) > 0 <==> x in q
  {
    if q != [] {
      CountPositive(q[..|q| - 1], x);
      assert q == q[..|q| - 1] + [q[|q| - 1]];
    }
  }

  ghost predicate IsMin(q: seq<int>, m: int) { m in q && forall i :: 0 <= i < |q| ==> m <= q[i] }

  ghost predicate IsMax(q: seq<int>, m: int) { m in q && forall i :: 0 <= i < |q| ==> q[i] <= m }

  ghost predicate MinAgrees(q: seq<int>, min: int, minCnt: int) { IsMin(q, min) && minCnt == Count(q, min) }

  ghost predicate MaxAgrees(q: seq<int>, max: int, maxCnt: int) { IsMax(q, max) && maxCnt == Count(q, max) }

  class MinMaxTrackingRingBuffer {
    const LEN: nat
    const data: array<int>
    var idx: nat
    var size: nat
    var minCnt: nat
    var maxCnt: nat
    var min: int
    var max: int

    ghost predicate Valid()
      reads this`idx, this`size
    {
      LEN > 0 && data.Length == LEN && idx < LEN && size <= LEN
    }

    /** The last `size` numbers, oldest first. */
    ghost function Contents(): (q: seq<int>)
      requires Valid()
      reads this`idx, this`size, data
      ensures |q| == size
    {
      Window(data[..], idx, size)
    }

    /** The tracked values are the true ones. Nothing is tracked before the first push. */
    ghost predicate Agrees()
      requires Valid()
      reads this, data
    {
      if size == 0 then minCnt == 0 && maxCnt == 0
      else MinAgrees(Contents(), min, minCnt) && MaxAgrees(Contents(), max, maxCnt)
    }

    /** Something is counted while there is a number. */
    predicate Counted()
      reads this
    {
      size > 0 ==> minCnt > 0 && maxCnt > 0
    }

    constructor (len: nat)
      requires len > 0
      ensures Valid() && Counted() && LEN == len && fresh(data) && Contents() == [] && Agrees()
    {
      LEN := len;
      data := new int[len];
      idx, size, minCnt, maxCnt, min, max := 0, 0, 0, 0, 0, 0;
    }

    method At(i: nat) returns (x: int)
      requires Valid() && i < size
      ensures x == Contents()[i]
    {
      SlotIsRemainder(idx, i, LEN);
      x := data[(idx + i) % LEN];
    }

    method RescanMin()
      requires Valid() && size > 0
      modifies this`min, this`minCnt
      ensures Valid() && MinAgrees(Contents(), min, minCnt)
    {
      ghost var q := Contents();
      minCnt := 1;
      min := data[idx];
      FirstAgrees(q);
      for i := 1 to size
        invariant Valid() && Contents() == q
        invariant MinAgrees(q[..i], min, minCnt)
      {
        var now := At(i);
        MinUpTo(q, i, min);
        if now == min {
          minCnt := minCnt + 1;
        } else if now < min {
          minCnt := 1;
          min := now;
        }
      }
      assert q[..size] == q;
    }

    method RescanMax()
      requires Valid() && size > 0
      modifies this`max, this`maxCnt
      ensures Valid() && MaxAgrees(Contents(), max, maxCnt)
    {
      ghost var q := Contents();
      maxCnt := 1;
      max := data[idx];
      FirstAgrees(q);
      for i := 1 to size
        invariant Valid() && Contents() == q
        invariant MaxAgrees(q[..i], max, maxCnt)
      {
        var now := At(i);
        MaxUpTo(q, i, max);
        if now == max {
          maxCnt := maxCnt + 1;
        } else if max < now {
          maxCnt := 1;
          max := now;
        }
      }
      assert q[..size] == q;
    }

    /** Moves past the oldest number. */
    method Take() returns (ret: int)
      requires Valid() && size > 0
      modifies this`idx, this`size
      ensures Valid() && old(Contents()) == [ret] + Contents()
    {
      ret := data[idx];
      SlotIsRemainder(idx, 1, LEN);
      idx := (idx + 1) % LEN;
      size := size - 1;
    }

    method Store(val: int)
      requires Valid() && size < LEN
      modifies this`size, data
      ensures Valid() && Contents() == old(Contents()) + [val]
    {
      SlotIsRemainder(idx, size, LEN);
      data[(idx + size) % LEN] := val;
      size := size + 1;
    }

    method ForgetMin(ret: int)
      requires Valid() && size > 0 && minCnt > 0
      modifies this`min, this`minCnt
      ensures Valid() && minCnt > 0
      ensures old(MinAgrees([ret] + Contents(), min, minCnt)) ==> MinAgrees(Contents(), min, minCnt)
    {
      if MinAgrees([ret] + Contents(), min, minCnt) {
        MinWithoutFirst(ret, Contents(), min);
      }
      if min == ret {
        minCnt := minCnt - 1;
        if minCnt <= 0 {
          RescanMin();
          CountPositive(Contents(), min);
        }
      }
    }

    method ForgetMax(ret: int)
      requires Valid() && size > 0 && maxCnt > 0
      modifies this`max, this`maxCnt
      ensures Valid() && maxCnt > 0
      ensures old(MaxAgrees([ret] + Contents(), max, maxCnt)) ==> MaxAgrees(Contents(), max, maxCnt)
    {
      if MaxAgrees([ret] + Contents(), max, maxCnt) {
        MaxWithoutFirst(ret, Contents(), max);
      }
      if max == ret {
        maxCnt := maxCnt - 1;
        if maxCnt <= 0 {
          RescanMax();
          CountPositive(Contents(), max);
        }
      }
    }

    /** The oldest number leaves. True values stay true exactly if it was not the last one: draining the buffer
        leaves both counts at one. */
    method Pop() returns (ret: int)
      requires Valid() && Counted() && size > 0
      modifies this
      ensures Valid() && Counted() && old(Contents()) == [ret] + Contents()
      ensures old(Agrees()) ==> (Agrees() <==> old(size) >= 2)
      ensures old(Agrees()) && size == 0 ==> minCnt == maxCnt == 1 && min == max == ret
    {
      ret := Take();
      if size > 0 {
        ForgetMin(ret);
        ForgetMax(ret);
      } else {
        assert [ret] + Contents() == [ret];
        CountOne(ret);
      }
    }

    /** A full buffer first loses its oldest number. True values stay true exactly if that does not drain the
        buffer, that is, unless a single slot is already taken. */
    method Push(val: int)
      requires Valid() && Counted()
      modifies this, data
      ensures Valid() && Counted() && Contents() == LastOf(old(Contents()) + [val], LEN)
      ensures old(Agrees()) ==> (Agrees() <==> LEN >= 2 || old(size) == 0)
      ensures old(size) < LEN ==>
        (min, minCnt) == TrackMin(old(min), old(minCnt), val) && (max, maxCnt) == TrackMax(old(max), old(maxCnt), val)
    {
      ghost var was, agreed := Contents(), Agrees();
      if size == LEN {
        var ret := Pop();
        assert was + [val] == [ret] + (Contents() + [val]);
      }
      ghost var q := Contents();
      if agreed && size == 0 && minCnt == 1 {
        StaleDisagrees(min, val);
        assert q + [val] == [val];
      } else if agreed {
        ExtendAny(q, min, max, minCnt, maxCnt, val);
      }
      Track(val);
      Store(val);
    }

    /** Compares a number, not yet stored, with what is tracked. */
    method Track(val: int)
      modifies this`min, this`minCnt, this`max, this`maxCnt
      ensures (min, minCnt) == TrackMin(old(min), old(minCnt), val)
      ensures (max, maxCnt) == TrackMax(old(max), old(maxCnt), val)
    {
      if val < min || minCnt == 0 {
        min := val;
        minCnt := 1;
      } else if val == min {
        minCnt := minCnt + 1;
      }
      if max < val || maxCnt == 0 {
        max := val;
        maxCnt := 1;
      } else if val == max {
        maxCnt := maxCnt + 1;
      }
    }
  }

  function TrackMin(min: int, minCnt: nat, val: int): (int, nat) {
    if val < min || minCnt == 0 then (val, 1) else (min, if val == min then minCnt + 1 else minCnt)
  }

  function TrackMax(max: int, maxCnt: nat, val: int): (int, nat) {
    if max < val || maxCnt == 0 then (val, 1) else (max, if val == max then maxCnt + 1 else maxCnt)
  }

  lemma ExtendMin(q: seq<int>, min: int, x: int)
    requires IsMin(q, min)
    ensures x < min ==> MinAgrees(q + [x], x, 1)
    ensures x == min ==> MinAgrees(q + [x], min, Count(q, min) + 1)
    ensures x > min ==> MinAgrees(q + [x], min, Count(q, min))
  {
    var m := if x < min then x else min;
    CountOfConcat(q, [x], m);
    CountPositive(q, x);
    assert Count([x], m) == if x == m then 1 else 0;
    assert (q + [x])[|q|] == x && min in q + [x];
  }

  lemma FirstAgrees(q: seq<int>)
    requires q != []
    ensures MinAgrees(q[..1], q[0], 1) && MaxAgrees(q[..1], q[0], 1)
  {
    assert q[..1] == [q[0]];
    CountOne(q[0]);
  }

  lemma MinUpTo(q: seq<int>, i: nat, min: int)
    requires i < |q| && IsMin(q[..i], min)
    ensures q[i] < min ==> MinAgrees(q[..i + 1], q[i], 1)
    ensures q[i] == min ==> MinAgrees(q[..i + 1], min, Count(q[..i], min) + 1)
    ensures q[i] > min ==> MinAgrees(q[..i + 1], min, Count(q[..i], min))
  {
    ExtendMin(q[..i], min, q[i]);
    assert q[..i + 1] == q[..i] + [q[i]];
  }

  lemma MaxUpTo(q: seq<int>, i: nat, max: int)
    requires i < |q| && IsMax(q[..i], max)
    ensures q[i] > max ==> MaxAgrees(q[..i + 1], q[i], 1)
    ensures q[i] == max ==> MaxAgrees(q[..i + 1], max, Count(q[..i], max) + 1)
    ensures q[i] < max ==> MaxAgrees(q[..i + 1], max, Count(q[..i], max))
  {
    ExtendMax(q[..i], max, q[i]);
    assert q[..i + 1] == q[..i] + [q[i]];
  }

  lemma ExtendMax(q: seq<int>, max: int, x: int)
    requires IsMax(q, max)
    ensures x > max ==> MaxAgrees(q + [x], x, 1)
    ensures x == max ==> MaxAgrees(q + [x], max, Count(q, max) + 1)
    ensures x < max ==> MaxAgrees(q + [x], max, Count(q, max))
  {
    var m := if x > max then x else max;
    CountOfConcat(q, [x], m);
    CountPositive(q, x);
    assert Count([x], m) == if x == m then 1 else 0;
    assert (q + [x])[|q|] == x && max in q + [x];
  }

  /** Comparing a number with true values leaves them true of the longer sequence. */
  lemma ExtendAny(q: seq<int>, min: int, max: int, minCnt: nat, maxCnt: nat, x: int)
    requires if q == [] then minCnt == 0 && maxCnt == 0 else MinAgrees(q, min, minCnt) && MaxAgrees(q, max, maxCnt)
    ensures var (m, n) := TrackMin(min, minCnt, x); MinAgrees(q + [x], m, n)
    ensures var (m, n) := TrackMax(max, maxCnt, x); MaxAgrees(q + [x], m, n)
  {
    if q == [] {
      assert q + [x] == [x] && [x][..0] == [];
      assert Count([x], x) == 1;
    } else {
      CountPositive(q, min);
      CountPositive(q, max);
      ExtendMin(q, min, x);
      ExtendMax(q, max, x);
    }
  }

  lemma CountOne(x: int)
    ensures Count([x], x) == 1 && (forall y :: IsMin([x], y) || IsMax([x], y) ==> y == x)
  {
    assert [x][..0] == [];
  }

  /** After a drained buffer is filled again, what is tracked is wrong whatever the number is. */
  lemma StaleDisagrees(stale: int, val: int)
    ensures var (m, n) := TrackMin(stale, 1, val); var (p, _) := TrackMax(stale, 1, val);
      !(MinAgrees([val], m, n) && IsMax([val], p))
  {
    CountOne(val);
  }

  /** The tracked values after pushing numbers that fit, oldest first. */
  function TrackAll(min: int, minCnt: nat, max: int, maxCnt: nat, vals: seq<int>): ((int, nat), (int, nat)) {
    if vals == [] then ((min, minCnt), (max, maxCnt))
    else
      var (lo, hi) := TrackAll(min, minCnt, max, maxCnt, vals[..|vals| - 1]);
      (TrackMin(lo.0, lo.1, vals[|vals| - 1]), TrackMax(hi.0, hi.1, vals[|vals| - 1]))
  }

  predicate Below(vals: seq<int>, v: int) { exists i :: 0 <= i < |vals| && vals[i] < v }

  predicate Above(vals: seq<int>, v: int) { exists i :: 0 <= i < |vals| && vals[i] > v }

  /** What the stale values of a drained buffer turn into: the true ones once a smaller, or a larger, number came;
      before that the stale number, with a count one too high. */
  ghost predicate MinRecovering(stale: int, vals: seq<int>, lo: (int, nat)) {
    if Below(vals, stale) then MinAgrees(vals, lo.0, lo.1) else lo == (stale, Count(vals, stale) + 1)
  }

  ghost predicate MaxRecovering(stale: int, vals: seq<int>, hi: (int, nat)) {
    if Above(vals, stale) then MaxAgrees(vals, hi.0, hi.1) else hi == (stale, Count(vals, stale) + 1)
  }

  lemma CountOneMore(vals: seq<int>, val: int, x: int)
    ensures Count(vals + [val], x) == Count(vals, x) + (if x == val then 1 else 0)
  {
    assert (vals + [val])[..|vals|] == vals;
  }

  lemma MinRecovers(stale: int, vals: seq<int>, val: int, lo: (int, nat))
    requires MinRecovering(stale, vals, lo)
    ensures MinRecovering(stale, vals + [val], TrackMin(lo.0, lo.1, val))
  {
    var more := vals + [val];
    CountOneMore(vals, val, stale);
    assert more[|vals|] == val && forall i :: 0 <= i < |vals| ==> more[i] == vals[i];
    if Below(vals, stale) {
      CountPositive(vals, lo.0);
      ExtendMin(vals, lo.0, val);
    } else if val < stale {
      CountOneMore(vals, val, val);
      CountPositive(vals, val);
    }
  }

  lemma MaxRecovers(stale: int, vals: seq<int>, val: int, hi: (int, nat))
    requires MaxRecovering(stale, vals, hi)
    ensures MaxRecovering(stale, vals + [val], TrackMax(hi.0, hi.1, val))
  {
    var more := vals + [val];
    CountOneMore(vals, val, stale);
    assert more[|vals|] == val && forall i :: 0 <= i < |vals| ==> more[i] == vals[i];
    if Above(vals, stale) {
      CountPositive(vals, hi.0);
      ExtendMax(vals, hi.0, val);
    } else if val > stale {
      CountOneMore(vals, val, val);
      CountPositive(vals, val);
    }
  }

  lemma {:induction false} PushesRecover(stale: int, vals: seq<int>)
    ensures var (lo, hi) := TrackAll(stale, 1, stale, 1, vals);
      MinRecovering(stale, vals, lo) && MaxRecovering(stale, vals, hi)
  {
    if vals != [] {
      var front, last := vals[..|vals| - 1], vals[|vals| - 1];
      PushesRecover(stale, front);
      var (lo, hi) := TrackAll(stale, 1, stale, 1, front);
      MinRecovers(stale, front, last, lo);
      MaxRecovers(stale, front, last, hi);
      assert front + [last] == vals;
    }
  }

  /** After the last number v was popped, pushing numbers that fit makes the tracked values true again exactly when
      one of them is below v and one above. */
  lemma DrainedRecoversExactly(v: int, vals: seq<int>)
    ensures var (lo, hi) := TrackAll(v, 1, v, 1, vals);
      MinAgrees(vals, lo.0, lo.1) && MaxAgrees(vals, hi.0, hi.1) <==> Below(vals, v) && Above(vals, v)
  {
    PushesRecover(v, vals);
  }

  /** Losing the first number changes the minimum only if it was the only one of its kind. */
  lemma MinWithoutFirst(first: int, rest: seq<int>, min: int)
    requires IsMin([first] + rest, min) && rest != []
    ensures Count(rest, min) == Count([first] + rest, min) - (if first == min then 1 else 0)
    ensures Count(rest, min) > 0 ==> IsMin(rest, min)
    ensures first != min ==> Count(rest, min) > 0
  {
    CountOfConcat([first], rest, min);
    assert [first][..0] == [];
    CountPositive(rest, min);
    assert forall i :: 0 <= i < |rest| ==> rest[i] == ([first] + rest)[i + 1];
  }

  lemma MaxWithoutFirst(first: int, rest: seq<int>, max: int)
    requires IsMax([first] + rest, max) && rest != []
    ensures Count(rest, max) == Count([first] + rest, max) - (if first == max then 1 else 0)
    ensures Count(rest, max) > 0 ==> IsMax(rest, max)
    ensures first != max ==> Count(rest, max) > 0
  {
    CountOfConcat([first], rest, max);
    assert [first][..0] == [];
    CountPositive(rest, max);
    assert forall i :: 0 <= i < |rest| ==> rest[i] == ([first] + rest)[i + 1];
  }
}
