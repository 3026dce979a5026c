/** The ring buffer of trivial elements: single and block operations over one circular array. */
module RingBuffers {
  import opened Circular
  import opened PowersOfTwo

  const WORD_BITS: nat := 64

  class RingBuffer<T(0)> {
    const SIZE: nat
    const buffer: array<T>
    var readPos: nat
    var bufferSize: nat

    ghost predicate Valid()
      reads this
    {
      SIZE > 0 && buffer.Length == SIZE && readPos < SIZE && bufferSize <= SIZE
    }

    /** The queue of elements, oldest first. */
    ghost function Contents(): (q: seq<T>)
      requires Valid()
      reads this, buffer
      ensures |q| == bufferSize
    {
      Window(buffer[..], readPos, bufferSize)
    }

    constructor (minSize: nat)
      requires 0 < minSize <= Pow2(WORD_BITS - 1)
      ensures Valid() && fresh(buffer) && Contents() == [] && readPos == 0
      ensures IsLeastPowerOfTwo(SIZE, minSize)
    {
      Pow2Grows(WORD_BITS - 1, WORD_BITS);
      NextPowerOfTwoIsLeast(minSize, WORD_BITS);
      var size := NextPowerOfTwo(minSize, WORD_BITS, 1);
      SIZE := size;
      buffer := new T[size];
      readPos, bufferSize := 0, 0;
    }

    function Available(): nat
      requires Valid()
      reads this
    {
      SIZE - bufferSize
    }

    method Clear()
      requires Valid()
      modifies this
      ensures Valid() && Contents() == []
    {
      readPos, bufferSize := 0, 0;
    }

    method Drop(amount: nat)
      requires Valid() && amount <= bufferSize
      modifies this
      ensures Valid() && Contents() == old(Contents())[amount..]
      ensures readPos == Slot(old(readPos), amount, SIZE)
    {
      SlotIsRemainder(readPos, amount, SIZE);
      readPos := (readPos + amount) % SIZE;
      bufferSize := bufferSize - amount;
    }

    method Write(val: T)
      requires Valid() && bufferSize < SIZE
      modifies this`bufferSize, buffer
      ensures Valid() && Contents() == old(Contents()) + [val]
    {
      SlotIsRemainder(readPos, bufferSize, SIZE);
      buffer[(readPos + bufferSize) % SIZE] := val;
      bufferSize := bufferSize + 1;
    }

    /** A block is written in one piece, or in two when it reaches or passes the end of the array. */
    method WriteBlock(arr: seq<T>)
      requires Valid() && bufferSize <= SIZE - |arr|
      modifies this`bufferSize, buffer
      ensures Valid() && Contents() == old(Contents()) + arr
    {
      var amount := |arr|;
      if amount == 0 {
        return;
      }
      ghost var was := buffer[..];
      var writePos, endPos := (readPos + bufferSize) % SIZE, (readPos + bufferSize + amount) % SIZE;
      SlotIsRemainder(readPos, bufferSize, SIZE);
      SlotIsRemainder(readPos, bufferSize + amount, SIZE);
      BlockSplits(readPos, bufferSize, amount, SIZE);
      if endPos <= writePos {
        var firstAmount := SIZE - writePos;
        forall i | 0 <= i < firstAmount {
          buffer[writePos + i] := arr[i];
        }
        forall i | 0 <= i < amount - firstAmount {
          buffer[i] := arr[firstAmount + i];
        }
      } else {
        forall i | 0 <= i < amount {
          buffer[writePos + i] := arr[i];
        }
      }
      WrittenBehind(was, buffer[..], readPos, bufferSize, arr);
      bufferSize := bufferSize + amount;
    }

    method Read() returns (ret: T)
      requires Valid() && bufferSize > 0
      modifies this
      ensures Valid() && ret == old(Contents())[0] && Contents() == old(Contents())[1..]
    {
      ret := buffer[readPos];
      SlotIsRemainder(readPos, 1, SIZE);
      readPos := (readPos + 1) % SIZE;
      bufferSize := bufferSize - 1;
    }

    /** A block is read in one piece, or in two when it reaches or passes the end of the array. */
    method ReadBlock(arr: array<T>, amount: nat)
      requires Valid() && amount <= bufferSize && amount <= arr.Length && arr != buffer
      modifies this, arr
      ensures Valid() && Contents() == old(Contents())[amount..]
      ensures readPos == Slot(old(readPos), amount, SIZE)
      ensures arr[..] == old(Contents())[..amount] + old(arr[..])[amount..]
    {
      if amount == 0 {
        return;
      }
      if SIZE <= readPos + amount {
        var firstAmount := SIZE - readPos;
        var secondAmount := amount - firstAmount;
        forall i | 0 <= i < firstAmount {
          arr[i] := buffer[readPos + i];
        }
        forall i | 0 <= i < secondAmount {
          arr[firstAmount + i] := buffer[i];
        }
        readPos := secondAmount;
      } else {
        forall i | 0 <= i < amount {
          arr[i] := buffer[readPos + i];
        }
        readPos := readPos + amount;
      }
      bufferSize := bufferSize - amount;
    }
  }

  /** How the source's test for a wrapping block relates to where the block's elements go. */
  lemma BlockSplits(first: nat, size: nat, amount: nat, len: nat)
    requires first < len && 0 < amount && size + amount <= len
    ensures var from := Slot(first, size, len);
      && (Slot(first, size + amount, len) <= from <==> from + amount >= len)
      && (forall i :: 0 <= i < amount ==> Slot(first, size + i, len) == Slot(from, i, len))
  {
  }

  /** The elements written behind a window extend it. */
  lemma WrittenBehind<T>(was: seq<T>, now: seq<T>, first: nat, size: nat, arr: seq<T>)
    requires first < |was| == |now| && size + |arr| <= |was|
    requires forall i :: 0 <= i < size ==> now[Slot(first, i, |was|)] == was[Slot(first, i, |was|)]
    requires forall i :: 0 <= i < |arr| ==> now[Slot(first, size + i, |was|)] == arr[i]
    ensures Window(now, first, size + |arr|) == Window(was, first, size) + arr
  {
    forall k | 0 <= k < size + |arr|
      ensures Window(now, first, size + |arr|)[k] == (Window(was, first, size) + arr)[k]
    {
      if k >= size {
        assert now[Slot(first, size + (k - size), |was|)] == arr[k - size];
      }
    }
  }
}
