/** Matching codec output to the metadata of its own input. A codec returns only a time stamp with each
    picture, may reorder or withhold pictures, and returns each stamp at most once. */
module MetadataMatch {
  import opened DesktopFrames

  type Entry = DesktopFrame<int>

  /** The first saved entry with the given stamp, and the list without it. */
  datatype Match = Missing | Found(entry: Entry, rest: seq<Entry>)

  function TakeFirst(saved: seq<Entry>, stamp: int): Match {
    if saved == [] then Missing
    else if saved[0].desktop == stamp then Found(saved[0], saved[1..])
    else
      match TakeFirst(saved[1..], stamp)
      case Missing => Missing
      case Found(entry, rest) => Found(entry, [saved[0]] + rest)
  }

  lemma {:induction false} TakeFirstAt(saved: seq<Entry>, stamp: int, i: nat)
    requires i < |saved| && saved[i].desktop == stamp
    requires forall j :: 0 <= j < i ==> saved[j].desktop != stamp
    ensures TakeFirst(saved, stamp) == Found(saved[i], saved[..i] + saved[i + 1..])
  {
    if i == 0 {
      assert saved[..0] + saved[1..] == saved[1..];
    } else {
      TakeFirstAt(saved[1..], stamp, i - 1);
      assert [saved[0]] + (saved[1..][..i - 1] + saved[1..][i..]) == saved[..i] + saved[i + 1..];
    }
  }

  lemma {:induction false} TakeFirstMissing(saved: seq<Entry>, stamp: int)
    requires forall j :: 0 <= j < |saved| ==> saved[j].desktop != stamp
    ensures TakeFirst(saved, stamp) == Missing
  {
    if saved != [] {
      TakeFirstMissing(saved[1..], stamp);
    }
  }

  /** The search loop over the saved list, erasing the entry it finds. */
  method FindAndErase(saved: seq<Entry>, stamp: int) returns (m: Match)
    ensures m == TakeFirst(saved, stamp)
  {
    var i := 0;
    while i < |saved|
      invariant 0 <= i <= |saved|
      invariant forall j :: 0 <= j < i ==> saved[j].desktop != stamp
    {
      if saved[i].desktop == stamp {
        TakeFirstAt(saved, stamp, i);
        return Found(saved[i], saved[..i] + saved[i + 1..]);
      }
      i := i + 1;
    }
    TakeFirstMissing(saved, stamp);
    return Missing;
  }

  // ---------- the pending list over a whole run ----------

  /** Stamps given to successive inputs never repeat. */
  ghost predicate Distinct(stampOf: nat -> int) {
    forall i: nat, j: nat :: stampOf(i) == stampOf(j) ==> i == j
  }

  function ToSet(ks: seq<nat>): set<nat> {
    set k | k in ks
  }

  /** Entries of the first n inputs that the codec has not returned yet, oldest first. */
  ghost function Pending<T>(sent: seq<DesktopFrame<T>>, n: nat, returned: set<nat>, stampOf: nat -> int): seq<Entry>
    requires n <= |sent|
  {
    if n == 0 then
      []
    else
      var last := if n - 1 in returned then [] else [sent[n - 1].GetOtherType(stampOf(n - 1))];
      Pending(sent, n - 1, returned, stampOf) + last
  }

  /** Sending one more input appends its entry. */
  lemma {:induction false} PendingAfterSend<T>(
      sent: seq<DesktopFrame<T>>, n: nat, frame: DesktopFrame<T>, returned: set<nat>, stampOf: nat -> int)
    requires n <= |sent|
    ensures Pending(sent + [frame], n, returned, stampOf) == Pending(sent, n, returned, stampOf)
  {
    if n > 0 {
      PendingAfterSend(sent, n - 1, frame, returned, stampOf);
    }
  }

  lemma {:induction false} PendingIgnores<T>(
      sent: seq<DesktopFrame<T>>, n: nat, returned: set<nat>, stampOf: nat -> int, k: nat)
    requires n <= |sent| && n <= k
    ensures Pending(sent, n, returned + {k}, stampOf) == Pending(sent, n, returned, stampOf)
  {
    if n > 0 {
      PendingIgnores(sent, n - 1, returned, stampOf, k);
    }
  }

  lemma {:induction false} PendingStamps<T>(
      sent: seq<DesktopFrame<T>>, n: nat, returned: set<nat>, stampOf: nat -> int, k: nat)
    requires n <= |sent| && n <= k && Distinct(stampOf)
    ensures forall e :: e in Pending(sent, n, returned, stampOf) ==> e.desktop != stampOf(k)
  {
    if n > 0 {
      PendingStamps(sent, n - 1, returned, stampOf, k);
    }
  }

  lemma {:induction false} TakeFirstOfConcat(a: seq<Entry>, b: seq<Entry>, stamp: int)
    ensures TakeFirst(a + b, stamp) ==
      match TakeFirst(a, stamp)
      case Found(entry, rest) => Found(entry, rest + b)
      case Missing =>
        match TakeFirst(b, stamp)
        case Found(entry, rest) => Found(entry, a + rest)
        case Missing => Missing
  {
    if a == [] {
      assert a + b == b;
      assert TakeFirst(b, stamp).Found? ==> a + TakeFirst(b, stamp).rest == TakeFirst(b, stamp).rest;
    } else {
      assert (a + b)[1..] == a[1..] + b;
      TakeFirstOfConcat(a[1..], b, stamp);
      assert TakeFirst(b, stamp).Found? ==>
        [a[0]] + (a[1..] + TakeFirst(b, stamp).rest) == a + TakeFirst(b, stamp).rest;
      assert TakeFirst(a[1..], stamp).Found? ==>
        [a[0]] + (TakeFirst(a[1..], stamp).rest + b) == ([a[0]] + TakeFirst(a[1..], stamp).rest) + b;
    }
  }

  /** The k-th stamp, when the codec still owes it, finds exactly the k-th input's metadata, and what is
      left is the pending list without k; the "failed to find" assertion cannot fire. */
  lemma {:induction false} PendingAfterReturn<T>(
      sent: seq<DesktopFrame<T>>, n: nat, returned: set<nat>, stampOf: nat -> int, k: nat)
    requires k < n <= |sent| && k !in returned && Distinct(stampOf)
    ensures TakeFirst(Pending(sent, n, returned, stampOf), stampOf(k)) ==
      Found(sent[k].GetOtherType(stampOf(k)), Pending(sent, n, returned + {k}, stampOf))
    ensures var entry := TakeFirst(Pending(sent, n, returned, stampOf), stampOf(k)).entry;
      entry.desktop == stampOf(k) && SameMetadata(entry, sent[k])
    decreases n
  {
    var front := Pending(sent, n - 1, returned, stampOf);
    var last := if n - 1 in returned then [] else [sent[n - 1].GetOtherType(stampOf(n - 1))];
    TakeFirstOfConcat(front, last, stampOf(k));
    if k == n - 1 {
      PendingStamps(sent, n - 1, returned, stampOf, k);
      TakeFirstMissing(front, stampOf(k));
      PendingIgnores(sent, n - 1, returned, stampOf, k);
      assert last[1..] == [];
    } else {
      PendingAfterReturn(sent, n - 1, returned, stampOf, k);
    }
  }

  /** FFmpeg's stamps count the inputs. One the codec owes finds its own metadata. */
  lemma OwedStampIsFound<T>(sent: seq<DesktopFrame<T>>, emitted: seq<nat>, pts: nat)
    requires pts < |sent| && pts !in emitted
    ensures TakeFirst(Pending(sent, |sent|, ToSet(emitted), FramePts), pts) ==
      Found(sent[pts].GetOtherType(pts as int), Pending(sent, |sent|, ToSet(emitted + [pts]), FramePts))
  {
    PendingAfterReturn(sent, |sent|, ToSet(emitted), FramePts, pts);
    assert ToSet(emitted + [pts]) == ToSet(emitted) + {pts};
  }

  /** A stamp the codec does not owe finds nothing. */
  lemma {:induction false} OtherStampIsMissing<T>(sent: seq<DesktopFrame<T>>, n: nat, returned: set<nat>, pts: nat)
    requires n <= |sent| && (n <= pts || pts in returned)
    ensures TakeFirst(Pending(sent, n, returned, FramePts), pts) == Missing
  {
    if n > 0 {
      var last := if n - 1 in returned then [] else [sent[n - 1].GetOtherType(FramePts(n - 1))];
      OtherStampIsMissing(sent, n - 1, returned, pts);
      TakeFirstOfConcat(Pending(sent, n - 1, returned, FramePts), last, pts);
    }
  }

  /** Entries left over from an earlier run shadow the new ones: the k-th output gets its own metadata from
      a list with leftovers exactly when no leftover bears its stamp, or the first that does says the same. */
  lemma LeftoversShadow<T>(
      leftover: seq<Entry>, sent: seq<DesktopFrame<T>>, returned: set<nat>, stampOf: nat -> int, k: nat)
    requires k < |sent| && k !in returned && Distinct(stampOf)
    ensures var m := TakeFirst(leftover + Pending(sent, |sent|, returned, stampOf), stampOf(k));
      && m.Found?
      && (m.entry == sent[k].GetOtherType(stampOf(k)) <==>
          (TakeFirst(leftover, stampOf(k)).Missing?
           || TakeFirst(leftover, stampOf(k)).entry == sent[k].GetOtherType(stampOf(k))))
  {
    var pending := Pending(sent, |sent|, returned, stampOf);
    TakeFirstOfConcat(leftover, pending, stampOf(k));
    PendingAfterReturn(sent, |sent|, returned, stampOf, k);
  }

  // ---------- Media Foundation sample times ----------

  /** Sample time of the k-th frame at 60 frames a second, in units of 100 ns. */
  function SampleTime(k: nat): int { k * 10_000_000 / 60 }

  /** Sixty frames make one second, whichever frame one starts from, and no frame is a unit early or late. */
  lemma SampleTimesAreSixtiethsOfASecond(k: nat)
    ensures SampleTime(0) == 0 && SampleTime(k + 60) == SampleTime(k) + 10_000_000
    ensures 60 * SampleTime(k) <= 10_000_000 * k < 60 * SampleTime(k) + 60
  {
    assert (k + 60) * 10_000_000 == k * 10_000_000 + 600_000_000;
  }

  lemma SampleTimesGrow(i: nat, j: nat)
    requires i < j
    ensures SampleTime(i) < SampleTime(j)
  {
    assert j * 10_000_000 >= i * 10_000_000 + 60;
  }

  lemma SampleTimesDistinct()
    ensures Distinct(SampleTime)
  {
    forall i: nat, j: nat | i != j
      ensures SampleTime(i) != SampleTime(j)
    {
      SampleTimesGrow(if i < j then i else j, if i < j then j else i);
    }
  }

  /** Presentation time of the k-th frame given to FFmpeg. */
  function FramePts(k: nat): int { k }
}
