/** The bounded deque behind the decoder's frame queue. */
module CircularDeques {
  import opened Prelude
  import opened Circular

  /** Where `push_front` steps to: forward, not back. */
  function FrontStep(first: nat, len: nat): (p: nat)
    requires first < len
    ensures p < len
  {
    Slot(first, 1, len)
  }

  class CircularDeque<T(0)> {
    const LEN: nat
    var first: nat
    var size: nat
    const data: array<T>

    ghost predicate Valid()
      reads this
    {
      data.Length == LEN && first < LEN && size <= LEN
    }

    ghost function Contents(): seq<T>
      requires Valid()
      reads this, data
    {
      Window(data[..], first, size)
    }

    constructor (len: nat)
      requires len > 0
      ensures Valid() && LEN == len && Contents() == [] && fresh(data)
    {
      LEN := len;
      first, size := 0, 0;
      data := new T[len];
    }

    predicate Empty()
      reads this
    {
      size == 0
    }

    predicate Full()
      reads this
    {
      size >= LEN
    }

    /** The operations end the program if the deque is empty, or full: None, and false, stand for that. */
    method Front() returns (x: Option<T>)
      requires Valid()
      ensures x == if Empty() then None else Some(Contents()[0])
    {
      x := if size == 0 then None else Some(data[first]);
    }

    method Back() returns (x: Option<T>)
      requires Valid()
      ensures x == if Empty() then None else Some(Contents()[size - 1])
    {
      if size == 0 {
        return None;
      }
      SlotIsRemainder(first, size - 1, LEN);
      x := Some(data[(first + size - 1) % LEN]);
    }

    method PushBack(x: T) returns (ok: bool)
      requires Valid()
      modifies this, data
      ensures Valid() && ok == !old(Full())
      ensures Contents() == if ok then old(Contents()) + [x] else old(Contents())
    {
      if Full() {
        return false;
      }
      SlotIsRemainder(first, size, LEN);
      data[(first + size) % LEN] := x;
      size := size + 1;
      return true;
    }

    method PopFront() returns (ok: bool)
      requires Valid()
      modifies this
      ensures Valid() && ok == !old(Empty())
      ensures Contents() == if ok then old(Contents())[1..] else old(Contents())
    {
      if Empty() {
        return false;
      }
      SlotIsRemainder(first, 1, LEN);
      first := (first + 1) % LEN;
      size := size - 1;
      return true;
    }

    method PopBack() returns (ok: bool)
      requires Valid()
      modifies this
      ensures Valid() && ok == !old(Empty())
      ensures Contents() == if ok then old(Contents())[..old(size) - 1] else old(Contents())
    {
      if Empty() {
        return false;
      }
      size := size - 1;
      return true;
    }

    method Clear()
      requires Valid()
      modifies this
      ensures Valid() && Contents() == []
    {
      first, size := 0, 0;
    }

    /** Prepends only when the step forward is also a step back, or when nothing is there to be hidden. */
    method PushFront(x: T) returns (ok: bool)
      requires Valid()
      modifies this, data
      ensures Valid() && ok == !old(Full())
      ensures !ok ==> Contents() == old(Contents())
      ensures ok ==> Contents() == PushedFront(old(data[..]), old(first), old(size), x)
      ensures ok && (old(size) == 0 || LEN <= 2) ==> Contents() == [x] + old(Contents())
    {
      if Full() {
        return false;
      }
      if size == 0 || LEN <= 2 {
        PushFrontPrepends(data[..], first, size, x);
      }
      SlotIsRemainder(first, 1, LEN);
      StepIsRemainder(first, LEN);
      first := (first + LEN + 1) % LEN;
      data[first] := x;
      size := size + 1;
      return true;
    }
  }

  lemma StepIsRemainder(first: nat, len: nat)
    requires first < len
    ensures (first + len + 1) % len == FrontStep(first, len)
  {
    RemainderIs(first + len + 1, if first + 1 < len then 1 else 2, FrontStep(first, len), len);
  }

  /** What `push_front` leaves in the deque. */
  ghost function PushedFront<T>(buffer: seq<T>, first: nat, size: nat, x: T): seq<T>
    requires first < |buffer| && size < |buffer|
  {
    var p := FrontStep(first, |buffer|);
    Window(buffer[p := x], p, size + 1)
  }

  lemma PushFrontPrepends<T>(buffer: seq<T>, first: nat, size: nat, x: T)
    requires first < |buffer| && size < |buffer|
    requires size == 0 || |buffer| <= 2
    ensures PushedFront(buffer, first, size, x) == [x] + Window(buffer, first, size)
  {
  }

  /** `push_front` prepends, whatever the deque holds, exactly when it is empty or has at most two slots. */
  lemma PushFrontPrependsExactly(len: nat, first: nat, size: nat)
    requires first < len && size < len
    ensures (forall buffer: seq<int>, x: int | |buffer| == len ::
               PushedFront(buffer, first, size, x) == [x] + Window(buffer, first, size))
            <==> (size == 0 || len <= 2)
  {
    if size == 0 || len <= 2 {
      forall buffer: seq<int>, x: int | |buffer| == len
        ensures PushedFront(buffer, first, size, x) == [x] + Window(buffer, first, size)
      {
        PushFrontPrepends(buffer, first, size, x);
      }
    } else {
      var buffer := seq(len, i => if i == first then 1 else 0);
      var after := PushedFront(buffer, first, size, 0);
      var expected := [0] + Window(buffer, first, size);
      assert expected[1] == buffer[Slot(first, 0, len)] == 1;
      assert after[1] == 0;
    }
  }
}
