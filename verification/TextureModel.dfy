/** Texture memory as values: blocks of eight slots, textures that own a slot, and whole runs of the
    operations on them. Addresses are natural numbers; 0 is the null pointer. */
module TextureModel {
  import opened Prelude

  const BLOCK_SIZE: nat := 8

  // ---------- blocks ----------

  datatype BlockVal = BlockVal(data: nat, size: nat, blockId: nat, available: seq<bool>)

  predicate AllEmpty(b: BlockVal) {
    forall s :: 0 <= s < |b.available| ==> b.available[s]
  }

  /** The first available slot, or the number of slots. */
  function FirstFree(available: seq<bool>): (s: nat)
    ensures s <= |available|
    ensures s < |available| ==> available[s]
    ensures forall j :: 0 <= j < s ==> !available[j]
  {
    if available == [] then 0
    else if available[0] then 0
    else FirstFree(available[1..]) + 1
  }

  /** The first block with an available slot, or the number of blocks. */
  function FirstFit(blocks: seq<BlockVal>): (k: nat)
    ensures k <= |blocks|
    ensures k < |blocks| ==> FirstFree(blocks[k].available) < |blocks[k].available|
    ensures forall j :: 0 <= j < k ==> FirstFree(blocks[j].available) == |blocks[j].available|
  {
    if blocks == [] then 0
    else if FirstFree(blocks[0].available) < |blocks[0].available| then 0
    else FirstFit(blocks[1..]) + 1
  }

  /** The first block with the given id, or the number of blocks. */
  function FindBlock(blocks: seq<BlockVal>, blockId: nat): (k: nat)
    ensures k <= |blocks|
    ensures k < |blocks| ==> blocks[k].blockId == blockId
    ensures forall j :: 0 <= j < k ==> blocks[j].blockId != blockId
  {
    if blocks == [] then 0
    else if blocks[0].blockId == blockId then 0
    else FindBlock(blocks[1..], blockId) + 1
  }

  /** The blocks in use, in their order. */
  function InUse(blocks: seq<BlockVal>): (r: seq<BlockVal>)
    ensures forall b :: b in r <==> b in blocks && !AllEmpty(b)
  {
    if blocks == [] then []
    else if AllEmpty(blocks[0]) then InUse(blocks[1..])
    else [blocks[0]] + InUse(blocks[1..])
  }

  // ---------- textures ----------

  /** A picture format with the layout FFmpeg computes for it. */
  datatype Format = Format(width: int, height: int, pixelFormat: int, linesize: seq<nat>, planeSize: seq<nat>)

  predicate ValidFormat(f: Format) {
    |f.linesize| == 4 && |f.planeSize| == 4
  }

  function Sum(sizes: seq<nat>): nat {
    if sizes == [] then 0 else sizes[0] + Sum(sizes[1..])
  }

  function TextureSize(f: Format): nat { Sum(f.planeSize) }

  /** Plane pointers: consecutive from `p`, up to the first plane the format does not have. */
  function PlanePointers(linesize: seq<nat>, planeSize: seq<nat>, p: nat): (ptrs: seq<nat>)
    requires |linesize| == |planeSize|
    ensures |ptrs| == |linesize|
  {
    if linesize == [] then []
    else if linesize[0] == 0 then seq(|linesize|, _ => 0)
    else [p] + PlanePointers(linesize[1..], planeSize[1..], p + planeSize[0])
  }

  datatype TexVal = TexVal(
    width: int, height: int, pixelFormat: int, linesize: seq<nat>, data: seq<nat>,
    owned: bool, blockId: nat, blockSlot: int)

  const NO_TEXTURE := TexVal(-1, -1, -1, [0, 0, 0, 0], [0, 0, 0, 0], false, 0, -1)

  function SlotAddress(b: BlockVal, slot: nat): nat { b.data + b.size * slot }

  function TextureAt(f: Format, b: BlockVal, slot: nat): TexVal
    requires ValidFormat(f)
  {
    TexVal(f.width, f.height, f.pixelFormat, f.linesize,
           PlanePointers(f.linesize, f.planeSize, SlotAddress(b, slot)), true, b.blockId, slot)
  }

  // ---------- the arena ----------

  datatype ArenaVal = ArenaVal(format: Format, lastBlockId: nat, blocks: seq<BlockVal>)

  /** A texture in the first slot available; a new block at `address` when there is none. */
  function Alloc(a: ArenaVal, address: nat): (r: (ArenaVal, TexVal))
    requires ValidFormat(a.format)
  {
    var k := FirstFit(a.blocks);
    if k < |a.blocks| then
      var b := a.blocks[k];
      var slot := FirstFree(b.available);
      (a.(blocks := a.blocks[k := b.(available := b.available[slot := false])]), TextureAt(a.format, b, slot))
    else
      var b := BlockVal(address, TextureSize(a.format), a.lastBlockId + 1,
                        [false, true, true, true, true, true, true, true]);
      (a.(blocks := a.blocks + [b], lastBlockId := a.lastBlockId + 1), TextureAt(a.format, b, 0))
  }

  /** Return a slot; None stands for a null block, a slot out of range or a double free. */
  function Release(a: ArenaVal, blockId: nat, slot: int): Option<ArenaVal> {
    var k := FindBlock(a.blocks, blockId);
    if k == |a.blocks| || slot < 0 || slot >= |a.blocks[k].available| || a.blocks[k].available[slot] then
      None
    else
      var b := a.blocks[k];
      Some(a.(blocks := a.blocks[k := b.(available := b.available[slot := true])]))
  }

  function Gc(a: ArenaVal): ArenaVal { a.(blocks := InUse(a.blocks)) }

  // ---------- what the arena keeps ----------

  predicate DisjointRanges(p: nat, m: nat, q: nat, n: nat) {
    p + m <= q || q + n <= p
  }

  predicate ValidBlock(f: Format, lastBlockId: nat, b: BlockVal) {
    && |b.available| == BLOCK_SIZE
    && b.data > 0
    && b.size == TextureSize(f)
    && 1 <= b.blockId <= lastBlockId
  }

  /** Blocks stand in the order of their ids and do not overlap. */
  ghost predicate Ordered(blocks: seq<BlockVal>) {
    forall i, j :: 0 <= i < j < |blocks| ==> Before(blocks[i], blocks[j])
  }

  predicate Before(b: BlockVal, c: BlockVal) {
    b.blockId < c.blockId && BlocksApart(b, c)
  }

  ghost predicate ValidArena(a: ArenaVal) {
    && ValidFormat(a.format)
    && (forall i :: 0 <= i < |a.blocks| ==> ValidBlock(a.format, a.lastBlockId, a.blocks[i]))
    && Ordered(a.blocks)
  }

  predicate BlocksApart(b: BlockVal, c: BlockVal) {
    DisjointRanges(b.data, b.size * BLOCK_SIZE, c.data, c.size * BLOCK_SIZE)
  }

  /** The memory allocator hands out memory that is not in use. */
  ghost predicate FreshAddress(a: ArenaVal, address: nat) {
    && address > 0
    && forall i :: 0 <= i < |a.blocks| ==>
      DisjointRanges(a.blocks[i].data, a.blocks[i].size * BLOCK_SIZE, address, TextureSize(a.format) * BLOCK_SIZE)
  }

  /** The given slot is taken. */
  ghost predicate Taken(a: ArenaVal, blockId: nat, slot: int) {
    exists k :: 0 <= k < |a.blocks| && TakenIn(a.blocks[k], blockId, slot)
  }

  predicate TakenIn(b: BlockVal, blockId: nat, slot: int) {
    b.blockId == blockId && 0 <= slot < |b.available| && !b.available[slot]
  }

  lemma AllocKeepsArena(a: ArenaVal, address: nat)
    requires ValidArena(a)
    requires FirstFit(a.blocks) == |a.blocks| ==> FreshAddress(a, address)
    ensures ValidArena(Alloc(a, address).0)
    ensures Alloc(a, address).0.format == a.format
  {
    var (a', t) := Alloc(a, address);
    var k := FirstFit(a.blocks);
    forall i | 0 <= i < |a'.blocks|
      ensures ValidBlock(a'.format, a'.lastBlockId, a'.blocks[i])
    {
      if i < |a.blocks| {
        assert ValidBlock(a.format, a.lastBlockId, a.blocks[i]);
      }
    }
    forall i, j | 0 <= i < j < |a'.blocks|
      ensures Before(a'.blocks[i], a'.blocks[j])
    {
      assert ValidBlock(a.format, a.lastBlockId, a.blocks[i]);
      if j < |a.blocks| {
        assert Before(a.blocks[i], a.blocks[j]);
      }
    }
  }

  /** The slot handed out was free, belongs to the texture now, and no other slot has changed. */
  lemma AllocTakesOneSlot(a: ArenaVal, address: nat)
    requires ValidArena(a)
    ensures var (a', t) := Alloc(a, address);
      && t.owned
      && !Taken(a, t.blockId, t.blockSlot)
      && Taken(a', t.blockId, t.blockSlot)
      && forall id: nat, s: int :: (id, s) != (t.blockId, t.blockSlot) ==> (Taken(a', id, s) <==> Taken(a, id, s))
  {
    var (a', t) := Alloc(a, address);
    var k := FirstFit(a.blocks);
    assert TakenIn(a'.blocks[k], t.blockId, t.blockSlot);
    forall i | 0 <= i < |a.blocks|
      ensures !TakenIn(a.blocks[i], t.blockId, t.blockSlot)
    {
      assert ValidBlock(a.format, a.lastBlockId, a.blocks[i]);
    }
    forall id: nat, s: int | (id, s) != (t.blockId, t.blockSlot)
      ensures Taken(a', id, s) <==> Taken(a, id, s)
    {
      AllocKeepsOtherSlots(a, address, id, s);
    }
  }

  lemma AllocKeepsOtherSlots(a: ArenaVal, address: nat, id: nat, s: int)
    requires ValidArena(a) && (id, s) != (Alloc(a, address).1.blockId, Alloc(a, address).1.blockSlot)
    ensures Taken(Alloc(a, address).0, id, s) <==> Taken(a, id, s)
  {
    var a' := Alloc(a, address).0;
    if Taken(a', id, s) {
      var i :| 0 <= i < |a'.blocks| && TakenIn(a'.blocks[i], id, s);
      assert i < |a.blocks| && TakenIn(a.blocks[i], id, s);
    }
    if Taken(a, id, s) {
      var i :| 0 <= i < |a.blocks| && TakenIn(a.blocks[i], id, s);
      assert TakenIn(a'.blocks[i], id, s);
    }
  }

  lemma ReleaseKeepsArena(a: ArenaVal, blockId: nat, slot: int)
    requires ValidArena(a) && Release(a, blockId, slot).Some?
    ensures ValidArena(Release(a, blockId, slot).value)
    ensures Release(a, blockId, slot).value.format == a.format
    ensures |Release(a, blockId, slot).value.blocks| == |a.blocks|
  {
    var a' := Release(a, blockId, slot).value;
    forall i | 0 <= i < |a'.blocks|
      ensures ValidBlock(a'.format, a'.lastBlockId, a'.blocks[i])
    {
      assert ValidBlock(a.format, a.lastBlockId, a.blocks[i]);
    }
    forall i, j | 0 <= i < j < |a'.blocks|
      ensures Before(a'.blocks[i], a'.blocks[j])
    {
      assert Before(a.blocks[i], a.blocks[j]);
    }
  }

  /** Returning a slot succeeds exactly when it is taken, and changes only that slot. */
  lemma ReleaseReturnsOneSlot(a: ArenaVal, blockId: nat, slot: int)
    requires ValidArena(a)
    ensures Release(a, blockId, slot).Some? <==> Taken(a, blockId, slot)
    ensures Release(a, blockId, slot).Some? ==>
      var a' := Release(a, blockId, slot).value;
      && !Taken(a', blockId, slot)
      && forall id: nat, s: int :: (id, s) != (blockId, slot) ==> (Taken(a', id, s) <==> Taken(a, id, s))
  {
    var k := FindBlock(a.blocks, blockId);
    if Taken(a, blockId, slot) {
      var i :| 0 <= i < |a.blocks| && TakenIn(a.blocks[i], blockId, slot);
      assert i == k;
    }
    if Release(a, blockId, slot).Some? {
      var a' := Release(a, blockId, slot).value;
      assert TakenIn(a.blocks[k], blockId, slot);
      forall id: nat, s: int | (id, s) != (blockId, slot)
        ensures Taken(a', id, s) <==> Taken(a, id, s)
      {
        if Taken(a', id, s) {
          var i :| 0 <= i < |a'.blocks| && TakenIn(a'.blocks[i], id, s);
          assert TakenIn(a.blocks[i], id, s);
        }
        if Taken(a, id, s) {
          var i :| 0 <= i < |a.blocks| && TakenIn(a.blocks[i], id, s);
          assert TakenIn(a'.blocks[i], id, s);
        }
      }
    }
  }

  lemma {:induction false} InUseIsOrdered(blocks: seq<BlockVal>)
    requires Ordered(blocks)
    ensures Ordered(InUse(blocks)) && |InUse(blocks)| <= |blocks|
  {
    if blocks != [] {
      InUseIsOrdered(blocks[1..]);
      forall b | b in InUse(blocks[1..])
        ensures Before(blocks[0], b)
      {
        var i :| 0 <= i < |blocks[1..]| && blocks[1..][i] == b;
        assert blocks[i + 1] == b;
      }
    }
  }

  lemma GcKeepsArena(a: ArenaVal)
    requires ValidArena(a)
    ensures ValidArena(Gc(a)) && |Gc(a).blocks| <= |a.blocks|
  {
    InUseIsOrdered(a.blocks);
    forall i | 0 <= i < |Gc(a).blocks|
      ensures ValidBlock(a.format, a.lastBlockId, Gc(a).blocks[i])
    {
      assert Gc(a).blocks[i] in a.blocks;
    }
  }

  /** Collection gives up no slot that is taken. */
  lemma GcKeepsTakenSlots(a: ArenaVal, id: nat, s: int)
    ensures Taken(Gc(a), id, s) <==> Taken(a, id, s)
  {
    if Taken(a, id, s) {
      var i :| 0 <= i < |a.blocks| && TakenIn(a.blocks[i], id, s);
      assert a.blocks[i] in InUse(a.blocks);
      var j :| 0 <= j < |InUse(a.blocks)| && InUse(a.blocks)[j] == a.blocks[i];
    }
    if Taken(Gc(a), id, s) {
      var j :| 0 <= j < |InUse(a.blocks)| && TakenIn(InUse(a.blocks)[j], id, s);
      assert InUse(a.blocks)[j] in a.blocks;
      var i :| 0 <= i < |a.blocks| && a.blocks[i] == InUse(a.blocks)[j];
    }
  }
}
