/** The sound encoder's worker: captured buffers of any size become frames of one fixed size. */
module AudioRechunks {
  import opened Prelude

  const FRAME_SIZE: nat := 960
  const FRAME_BYTES: nat := FRAME_SIZE * 4 * 2

  function Concat(parts: seq<Bytes>): Bytes {
    if parts == [] then [] else Concat(parts[..|parts| - 1]) + parts[|parts| - 1]
  }

  /** The whole frames at the front of the data, and what is left behind them. */
  function Frames(data: Bytes): seq<Bytes> {
    if |data| < FRAME_BYTES then [] else [data[..FRAME_BYTES]] + Frames(data[FRAME_BYTES..])
  }

  function Rest(data: Bytes): (r: Bytes)
    ensures |r| < FRAME_BYTES
  {
    if |data| < FRAME_BYTES then data else Rest(data[FRAME_BYTES..])
  }

  lemma {:induction false} ConcatSplits(a: seq<Bytes>, b: seq<Bytes>)
    ensures Concat(a + b) == Concat(a) + Concat(b)
  {
    if b == [] {
      assert a + b == a;
    } else {
      var last := |b| - 1;
      assert (a + b)[..|a + b| - 1] == a + b[..last];
      ConcatSplits(a, b[..last]);
    }
  }

  lemma ConcatBehind(head: Bytes, tail: seq<Bytes>)
    ensures Concat([head] + tail) == head + Concat(tail)
  {
    var one: seq<Bytes> := [head];
    assert one[..0] == [] && Concat(one) == head;
    ConcatSplits(one, tail);
  }

  lemma {:induction false} FramesHaveTheSize(data: Bytes)
    ensures forall f :: f in Frames(data) ==> |f| == FRAME_BYTES
  {
    if |data| >= FRAME_BYTES {
      FramesHaveTheSize(data[FRAME_BYTES..]);
    }
  }

  lemma Associates(a: Bytes, b: Bytes, c: Bytes)
    ensures a + b + c == a + (b + c)
  {
  }

  /** Nothing is lost, added or moved. */
  lemma {:induction false} FramesKeepEveryByte(data: Bytes)
    ensures Concat(Frames(data)) + Rest(data) == data
  {
    if |data| >= FRAME_BYTES {
      var head, tail := data[..FRAME_BYTES], data[FRAME_BYTES..];
      FramesKeepEveryByte(tail);
      ConcatBehind(head, Frames(tail));
      Associates(head, Concat(Frames(tail)), Rest(tail));
    }
  }

  /** Taking the data in two steps gives the same frames as taking it in one. */
  lemma {:induction false} FramesContinue(a: Bytes, b: Bytes)
    ensures Frames(a + b) == Frames(a) + Frames(Rest(a) + b)
    ensures Rest(a + b) == Rest(Rest(a) + b)
  {
    if |a| >= FRAME_BYTES {
      assert (a + b)[..FRAME_BYTES] == a[..FRAME_BYTES];
      assert (a + b)[FRAME_BYTES..] == a[FRAME_BYTES..] + b;
      FramesContinue(a[FRAME_BYTES..], b);
    }
  }

  class AudioEncoder {
    const buf: array<Byte>
    var writeIdx: nat
    /** What was given to the codec. */
    var encoded: seq<Bytes>

    ghost predicate Valid()
      reads this
    {
      buf.Length == FRAME_BYTES && writeIdx < FRAME_BYTES
    }

    ghost function Held(): Bytes
      requires Valid()
      reads this, buf
    {
      buf[..writeIdx]
    }

    constructor ()
      ensures Valid() && fresh(buf) && Held() == [] && encoded == []
    {
      buf := new Byte[FRAME_BYTES](_ => 0);
      writeIdx, encoded := 0, [];
    }

    /** Copies one captured buffer, encoding whenever the frame is full. */
    method Feed(curr: Bytes)
      requires Valid()
      modifies this, buf
      ensures Valid()
      ensures encoded == old(encoded) + Frames(old(Held()) + curr)
      ensures Held() == Rest(old(Held()) + curr)
    {
      ghost var was, held := encoded, Held();
      var readIdx := 0;
      assert curr[0..] == curr;
      while readIdx < |curr|
        invariant Valid() && 0 <= readIdx <= |curr|
        invariant encoded + Frames(Held() + curr[readIdx..]) == was + Frames(held + curr)
        invariant Rest(Held() + curr[readIdx..]) == Rest(held + curr)
        decreases |curr| - readIdx
      {
        readIdx := Copy(curr, readIdx);
      }
      assert Held() + curr[readIdx..] == Held();
    }

    /** One pass of the copying loop: it always makes progress. */
    method Copy(curr: Bytes, from: nat) returns (readIdx: nat)
      requires Valid() && from < |curr|
      modifies this, buf
      ensures Valid() && from < readIdx <= |curr|
      ensures encoded + Frames(Held() + curr[readIdx..]) == old(encoded) + Frames(old(Held()) + curr[from..])
      ensures Rest(Held() + curr[readIdx..]) == Rest(old(Held()) + curr[from..])
    {
      ghost var held := Held();
      var readAmount := if |curr| - from < buf.Length - writeIdx then |curr| - from else buf.Length - writeIdx;
      forall i | 0 <= i < readAmount {
        buf[writeIdx + i] := curr[from + i];
      }
      readIdx := from + readAmount;
      writeIdx := writeIdx + readAmount;
      ghost var all := held + curr[from..];
      assert buf[..writeIdx] == all[..writeIdx] && all[writeIdx..] == curr[readIdx..];
      if writeIdx == buf.Length {
        writeIdx := 0;
        encoded := encoded + [buf[..]];
        assert buf[..] == all[..FRAME_BYTES];
        assert Held() + curr[readIdx..] == all[FRAME_BYTES..];
        assert Frames(all) == [all[..FRAME_BYTES]] + Frames(all[FRAME_BYTES..]);
      } else {
        assert Held() + curr[readIdx..] == all;
      }
    }

    /** The worker over the captured buffers, in order. */
    method RunWorker(captured: seq<Bytes>)
      requires Valid() && writeIdx == 0 && encoded == []
      modifies this, buf
      ensures Valid()
      ensures (encoded, Held()) == Fed(captured)
    {
      for i := 0 to |captured|
        invariant Valid()
        invariant (encoded, Held()) == Fed(captured[..i])
      {
        assert captured[..i + 1][..i] == captured[..i];
        Feed(captured[i]);
      }
      assert captured[..|captured|] == captured;
    }
  }

  /** The frames encoded and the bytes held after feeding some buffers one by one. */
  function Fed(captured: seq<Bytes>): (seq<Bytes>, Bytes) {
    if captured == [] then ([], [])
    else
      var (frames, held) := Fed(captured[..|captured| - 1]);
      var all := held + captured[|captured| - 1];
      (frames + Frames(all), Rest(all))
  }

  lemma {:induction false} FedIsFramesOfAll(captured: seq<Bytes>)
    ensures Fed(captured) == (Frames(Concat(captured)), Rest(Concat(captured)))
  {
    if captured != [] {
      var front, last := captured[..|captured| - 1], captured[|captured| - 1];
      FedIsFramesOfAll(front);
      FramesContinue(Concat(front), last);
    }
  }

  /** However the same sound is cut into buffers, the same frames are encoded and the same bytes held back; all
      frames have the fixed size, 960 pairs of four-byte samples, and together with the bytes held back they are the
      sound. */
  lemma CuttingDoesNotMatter(a: seq<Bytes>, b: seq<Bytes>)
    ensures Concat(a) == Concat(b) ==> Fed(a) == Fed(b)
    ensures Concat(Fed(a).0) + Fed(a).1 == Concat(a)
    ensures |Fed(a).1| < 7680 && forall f :: f in Fed(a).0 ==> |f| == 7680
  {
    FedIsFramesOfAll(a);
    FedIsFramesOfAll(b);
    FramesKeepEveryByte(Concat(a));
    FramesHaveTheSize(Concat(a));
  }
}
