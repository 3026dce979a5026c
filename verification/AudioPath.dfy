/** Decoded sound on its way to the audio device: two channels interleaved in one ring buffer. */
module AudioPaths {
  import opened Prelude
  import opened PowersOfTwo
  import opened RingBuffers

  const MAX_FRAMES: nat := 5760
  const MIN_SAMPLES: nat := MAX_FRAMES * 4

  /** As many samples as are asked for, or all there are. */
  function ReadAmount(q: seq<real>, requested: nat): (n: nat)
    ensures n <= requested && n <= |q| && (n == requested || n == |q|)
  {
    if requested < |q| then requested else |q|
  }

  /** The device gets the samples waiting, oldest first, and silence only where there are none left. */
  ghost predicate Plays(q: seq<real>, out: seq<real>) {
    forall i :: 0 <= i < |out| ==> out[i] == if i < |q| then q[i] else 0.0
  }

  /** What is left waiting once so many samples were asked for. */
  function LeftOf(q: seq<real>, requested: nat): seq<real> {
    if |q| <= requested then [] else q[requested..]
  }

  lemma CapacityIs(size: nat)
    requires IsLeastPowerOfTwo(size, MIN_SAMPLES)
    ensures size == 32768
  {
    var n: nat :| size == Pow2(n);
    SmallPowers();
    assert IsPowerOfTwo(Pow2(15));
    if n < 15 {
      Pow2Grows(n, 14);
    } else {
      Pow2Grows(15, n);
    }
  }

  lemma SmallPowers()
    ensures Pow2(14) == 16384 && Pow2(15) == 32768
  {
    assert Pow2(5) == 32;
    Pow2Adds(5, 5);
    Pow2Adds(10, 5);
    Pow2Adds(10, 4);
    assert Pow2(4) == 16;
  }

  class CubebUserData {
    const data: RingBuffer<real>
    var flagBufferUnderrun: bool

    ghost predicate Valid()
      reads this, data
    {
      data.Valid() && data.SIZE == 32768
    }

    ghost predicate Aligned()
      reads this, data
    {
      data.readPos % 2 == 0 && data.bufferSize % 2 == 0
    }

    constructor ()
      ensures Valid() && Aligned() && fresh(data) && fresh(data.buffer) && data.Contents() == []
    {
      Pow2Grows(15, WORD_BITS - 1);
      SmallPowers();
      var ring := new RingBuffer<real>(MIN_SAMPLES);
      CapacityIs(ring.SIZE);
      data, flagBufferUnderrun := ring, false;
    }

    /** The device asks for `nframes` pairs of samples. */
    method DataCb(output: array<real>, nframes: nat)
      requires Valid() && output.Length >= 2 * nframes && output != data.buffer
      modifies this, data, output
      ensures Valid() && (old(Aligned()) ==> Aligned())
      ensures Plays(old(data.Contents()), output[..2 * nframes])
      ensures output[2 * nframes..] == old(output[2 * nframes..])
      ensures data.Contents() == LeftOf(old(data.Contents()), 2 * nframes)
      ensures flagBufferUnderrun == (old(flagBufferUnderrun) || old(data.bufferSize) < 2 * nframes)
    {
      ghost var queue, given := data.Contents(), output[..];
      var requestedLength := nframes * 2;
      var readAmount := if data.bufferSize < requestedLength then data.bufferSize else requestedLength;
      data.ReadBlock(output, readAmount);
      assert output[..] == queue[..readAmount] + given[readAmount..];
      if readAmount < requestedLength {
        forall i | readAmount <= i < requestedLength {
          output[i] := 0.0;
        }
        flagBufferUnderrun := true;
      }
    }

    /** Takes a decoded block; if it does not fit, the oldest samples make room. */
    method Enqueue(pcm: seq<real>, decodedFrames: nat)
      requires Valid() && decodedFrames <= MAX_FRAMES && 2 * decodedFrames <= |pcm|
      modifies data, data.buffer
      ensures Valid() && (old(Aligned()) ==> Aligned())
      ensures data.Contents() == LastOf(old(data.Contents()) + pcm[..2 * decodedFrames], data.SIZE)
    {
      ghost var queue := data.Contents();
      var samples := decodedFrames * 2;
      if data.Available() < samples {
        data.Drop(samples - data.Available());
      }
      data.WriteBlock(pcm[..samples]);
      if |queue| + samples > data.SIZE {
        DropThenWrite(queue, pcm[..samples], data.SIZE);
      }
    }
  }

  lemma DropThenWrite(queue: seq<real>, block: seq<real>, size: nat)
    requires |queue| <= size && |block| <= size < |queue| + |block|
    ensures queue[|queue| + |block| - size..] + block == LastOf(queue + block, size)
  {
  }

  // ---------- runs ----------

  datatype Event = Decoded(samples: seq<real>) | Callback(nframes: nat)

  /** `decoded` is every sample decoded so far; the queue holds what is still to be played. */
  datatype Audio = Audio(decoded: seq<real>, queue: seq<real>)

  function Step(a: Audio, size: nat, e: Event): Audio {
    match e
    case Decoded(samples) => Audio(a.decoded + samples, LastOf(a.queue + samples, size))
    case Callback(nframes) => a.(queue := a.queue[ReadAmount(a.queue, 2 * nframes)..])
  }

  function Run(es: seq<Event>, size: nat): Audio {
    if es == [] then Audio([], []) else Step(Run(es[..|es| - 1], size), size, es[|es| - 1])
  }

  /** How many of the decoded samples were played or dropped. */
  function Passed(a: Audio): int { |a.decoded| - |a.queue| }

  /** Blocks of whole frames, none larger than the buffer. */
  predicate WholeFrames(es: seq<Event>, size: nat) {
    forall i :: 0 <= i < |es| ==> WholeFrame(es[i], size)
  }

  predicate QueueIsTail(a: Audio) {
    0 <= Passed(a) && a.queue == a.decoded[Passed(a)..]
  }

  /** The queue is the end of what was decoded, and whole frames were played or dropped. */
  predicate Aligned(a: Audio, size: nat) {
    QueueIsTail(a) && |a.queue| <= size && |a.queue| % 2 == 0 && Passed(a) % 2 == 0
  }

  predicate WholeFrame(e: Event, size: nat) {
    e.Decoded? ==> |e.samples| % 2 == 0 && |e.samples| <= size
  }

  lemma StepKeepsAligned(a: Audio, size: nat, e: Event)
    requires Aligned(a, size) && WholeFrame(e, size) && size % 2 == 0
    ensures Aligned(Step(a, size, e), size) && Passed(a) <= Passed(Step(a, size, e))
  {
    if e.Decoded? {
      DecodedKeepsAligned(a, size, e.samples);
    } else {
      EvenRead(a.queue, e.nframes);
      PlayedKeepsAligned(a, size, ReadAmount(a.queue, 2 * e.nframes));
    }
  }

  lemma DecodedKeepsAligned(a: Audio, size: nat, samples: seq<real>)
    requires Aligned(a, size) && |samples| % 2 == 0 && |samples| <= size && size % 2 == 0
    ensures var t := Audio(a.decoded + samples, LastOf(a.queue + samples, size));
      Aligned(t, size) && Passed(a) <= Passed(t)
  {
    TailGrows(a.decoded, a.queue, samples, size);
    var n := |LastOf(a.queue + samples, size)|;
    assert n % 2 == 0 && |a.decoded + samples| == |a.decoded| + |samples|;
  }

  lemma PlayedKeepsAligned(a: Audio, size: nat, n: nat)
    requires Aligned(a, size) && n <= |a.queue| && n % 2 == 0
    ensures var t := a.(queue := a.queue[n..]);
      Aligned(t, size) && Passed(a) <= Passed(t)
  {
    TailShrinks(a.decoded, a.queue, n);
  }

  lemma TailGrows(all: seq<real>, queue: seq<real>, more: seq<real>, size: nat)
    requires |queue| <= |all| && queue == all[|all| - |queue|..]
    ensures var q := LastOf(queue + more, size);
      && |q| == (if |queue| + |more| <= size then |queue| + |more| else size)
      && |q| <= |all + more| && q == (all + more)[|all + more| - |q|..]
  {
  }

  lemma TailShrinks(all: seq<real>, queue: seq<real>, n: nat)
    requires |queue| <= |all| && queue == all[|all| - |queue|..] && n <= |queue|
    ensures queue[n..] == all[|all| - |queue| + n..]
  {
  }

  lemma EvenRead(queue: seq<real>, nframes: nat)
    requires |queue| % 2 == 0
    ensures ReadAmount(queue, 2 * nframes) % 2 == 0 && (|queue| - ReadAmount(queue, 2 * nframes)) % 2 == 0
  {
  }

  lemma {:induction false} QueueIsAlignedTail(es: seq<Event>, size: nat)
    requires WholeFrames(es, size) && size % 2 == 0
    ensures Aligned(Run(es, size), size)
  {
    if es != [] {
      var front := es[..|es| - 1];
      QueueIsAlignedTail(front, size);
      StepKeepsAligned(Run(front, size), size, es[|es| - 1]);
    }
  }

  lemma {:induction false} LaterPassesMore(es: seq<Event>, size: nat, k: nat)
    requires k <= |es| && WholeFrames(es, size) && size % 2 == 0
    ensures Passed(Run(es[..k], size)) <= Passed(Run(es, size))
    ensures Run(es[..k], size).decoded <= Run(es, size).decoded
  {
    if k == |es| {
      assert es[..k] == es;
    } else {
      var front := es[..|es| - 1];
      LaterPassesMore(front, size, k);
      assert front[..k] == es[..k];
      QueueIsAlignedTail(front, size);
      StepKeepsAligned(Run(front, size), size, es[|es| - 1]);
    }
  }

  /** An output is the sound from one position on, up to another, and silence behind that. */
  ghost predicate PlaysSound(sound: seq<real>, from: nat, upTo: nat, out: seq<real>)
    requires from <= upTo <= |sound|
  {
    forall i :: 0 <= i < |out| ==> out[i] == if from + i < upTo then sound[from + i] else 0.0
  }

  /** What a callback is given is the decoded sound from an even position on: left stays left and right stays right.
      Where it lacks samples, and only there, it is silent, and it lacks none as long as one decoded is waiting. */
  lemma CallbackPlaysInOrder(es: seq<Event>, size: nat, k: nat, out: seq<real>)
    requires WholeFrames(es, size) && size % 2 == 0 && k < |es| && es[k].Callback?
    requires |out| == 2 * es[k].nframes && Plays(Run(es[..k], size).queue, out)
    ensures var a := Run(es[..k], size);
      var sound := Run(es, size).decoded;
      && 0 <= Passed(a) <= |a.decoded| <= |sound| && Passed(a) % 2 == 0 && |a.decoded| % 2 == 0
      && PlaysSound(sound, Passed(a), |a.decoded|, out)
  {
    var a := Run(es[..k], size);
    QueueIsAlignedTail(es[..k], size);
    AlignedMeans(a, size);
    var sound := Run(es, size).decoded;
    assert a.decoded <= sound by { LaterPassesMore(es, size, k); }
    TailPlays(a.decoded, a.queue, sound, out);
  }

  lemma AlignedMeans(a: Audio, size: nat)
    requires Aligned(a, size)
    ensures 0 <= Passed(a) <= |a.decoded| && Passed(a) % 2 == 0 && |a.decoded| % 2 == 0
    ensures Passed(a) == |a.decoded| - |a.queue| && a.queue == a.decoded[Passed(a)..]
  {
  }

  lemma TailPlays(decoded: seq<real>, queue: seq<real>, sound: seq<real>, out: seq<real>)
    requires |queue| <= |decoded| && queue == decoded[|decoded| - |queue|..] && decoded <= sound && Plays(queue, out)
    ensures PlaysSound(sound, |decoded| - |queue|, |decoded|, out)
  {
    forall i | 0 <= i < |out| && i < |queue|
      ensures out[i] == sound[|decoded| - |queue| + i]
    {
      assert queue[i] == decoded[|decoded| - |queue| + i];
    }
  }

  /** A callback takes away exactly what it plays. */
  lemma CallbackTakesWhatItPlays(es: seq<Event>, size: nat, k: nat)
    requires WholeFrames(es, size) && size % 2 == 0 && k < |es| && es[k].Callback?
    ensures var a, b := Run(es[..k], size), Run(es[..k + 1], size);
      && b.decoded == a.decoded && b.queue == LeftOf(a.queue, 2 * es[k].nframes)
      && Passed(b) == Passed(a) + (if |a.queue| < 2 * es[k].nframes then |a.queue| else 2 * es[k].nframes)
  {
    assert es[..k + 1][..k] == es[..k];
  }

  /** No sample is played twice or out of order: a later callback starts behind everything an earlier one played. */
  lemma CallbacksDoNotOverlap(es: seq<Event>, size: nat, k: nat, l: nat)
    requires WholeFrames(es, size) && size % 2 == 0
    requires k < l < |es| && es[k].Callback?
    ensures var a := Run(es[..k], size);
      Passed(a) + (if |a.queue| < 2 * es[k].nframes then |a.queue| else 2 * es[k].nframes) <= Passed(Run(es[..l], size))
  {
    var before := es[..k + 1];
    assert es[..l][..k + 1] == before;
    CallbackTakesWhatItPlays(es, size, k);
    LaterPassesMore(es[..l], size, k + 1);
  }

  /** Samples are lost only when a block does not fit, and then exactly as many of the oldest as it lacks room. */
  lemma OverflowDropsOnlyTheExcess(es: seq<Event>, size: nat)
    requires WholeFrames(es, size) && size % 2 == 0 && es != [] && es[|es| - 1].Decoded?
    ensures var a, b := Run(es[..|es| - 1], size), Run(es, size);
      var excess := |a.queue| + |es[|es| - 1].samples| - size;
      && Passed(b) == Passed(a) + (if excess > 0 then excess else 0)
      && (excess > 0 ==> excess <= |a.queue| && |b.queue| == size)
  {
    QueueIsAlignedTail(es[..|es| - 1], size);
  }
}
