/** The texture allocator as objects updated in place. A vector is a sequence of storage cells; erasing an
    element and growing the vector move block contents between cells by swapping. */
module TextureArenas {
  import opened TextureModel
  import opened TextureRuns

  class Block {
    var data: nat
    var size: nat
    var blockId: nat
    var available: seq<bool>

    function Val(): BlockVal
      reads this
    {
      BlockVal(data, size, blockId, available)
    }

    ghost predicate Valid()
      reads this
    {
      |available| == BLOCK_SIZE
    }

    /** A block over freshly allocated memory. */
    constructor (size: nat, blockId: nat, memory: nat)
      ensures Valid() && Val() == BlockVal(memory, size, blockId, seq(BLOCK_SIZE, _ => true))
    {
      data := memory;
      this.size := size;
      this.blockId := blockId;
      available := seq(BLOCK_SIZE, _ => true);
    }

    constructor MoveFrom(move: Block)
      requires move.Valid()
      modifies move
      ensures Valid() && Val() == old(move.Val())
      ensures move.Valid() && move.data == 0
    {
      data, size, blockId := 0, 0, 0;
      available := seq(BLOCK_SIZE, _ => true);
      new;
      MoveAssign(move);
    }

    /** Swaps, slot by slot. */
    method MoveAssign(move: Block)
      requires Valid() && move.Valid()
      modifies this, move
      ensures Valid() && move.Valid()
      ensures Val() == old(move.Val()) && move.Val() == old(Val())
    {
      data, move.data := move.data, data;
      size, move.size := move.size, size;
      blockId, move.blockId := move.blockId, blockId;
      var i := 0;
      while i < BLOCK_SIZE
        invariant 0 <= i <= BLOCK_SIZE && |available| == |move.available| == BLOCK_SIZE
        invariant data == old(move.data) && size == old(move.size) && blockId == old(move.blockId)
        invariant move.data == old(data) && move.size == old(size) && move.blockId == old(blockId)
        invariant forall j :: 0 <= j < i ==>
          available[j] == old(move.available[j]) && move.available[j] == old(available[j])
        invariant forall j :: i <= j < BLOCK_SIZE ==> available[j] == old(available[j])
        invariant forall j :: i <= j < BLOCK_SIZE ==> move.available[j] == old(move.available[j])
      {
        var temp := available[i];
        var theirs := move.available[i];
        move.available := move.available[i := temp];
        available := available[i := theirs];
        i := i + 1;
      }
    }

    /** The destructor; false stands for abort(). */
    method Destruct() returns (ok: bool)
      requires Valid()
      modifies this
      ensures ok <==> old(data) == 0 || AllEmpty(old(Val()))
    {
      if data == 0 {
        return true;
      }
      var empty := CheckAllEmpty();
      if empty {
        data := 0;
      }
      return empty;
    }

    method AllocSlot() returns (slot: int)
      requires Valid()
      modifies this
      ensures Valid()
      ensures var s := FirstFree(old(available));
        if s < BLOCK_SIZE then slot == s && Val() == old(Val()).(available := old(available)[s := false])
        else slot == -1 && Val() == old(Val())
    {
      var i := 0;
      while i < BLOCK_SIZE
        invariant 0 <= i <= BLOCK_SIZE && Valid() && Val() == old(Val())
        invariant forall j :: 0 <= j < i ==> !available[j]
      {
        var was := available[i];
        available := available[i := false];
        if was {
          return i;
        }
        i := i + 1;
      }
      return -1;
    }

    /** False stands for abort(): an index out of range or a double free. */
    method FreeSlot(slot: int) returns (ok: bool)
      requires Valid()
      modifies this
      ensures Valid()
      ensures ok <==> 0 <= slot < BLOCK_SIZE && !old(available)[slot]
      ensures ok ==> Val() == old(Val()).(available := old(available)[slot := true])
      ensures !ok ==> Val() == old(Val())
    {
      if slot < 0 || BLOCK_SIZE <= slot {
        return false;
      }
      var was := available[slot];
      available := available[slot := true];
      return !was;
    }

    method CheckAllEmpty() returns (empty: bool)
      requires Valid()
      ensures empty <==> AllEmpty(Val())
    {
      for i := 0 to BLOCK_SIZE
        invariant forall j :: 0 <= j < i ==> available[j]
      {
        if !available[i] {
          return false;
        }
      }
      return true;
    }
  }

  class TextureAllocArena {
    const format: Format
    var lastBlockId: nat
    var blocks: seq<Block>
    var capacity: nat

    // The contents of the vector's cells, in order.
    ghost var cells: seq<BlockVal>

    ghost predicate Valid()
      reads this, blocks
    {
      && ValidFormat(format)
      && |cells| == |blocks| <= capacity
      && (forall i :: 0 <= i < |blocks| ==> blocks[i].Valid() && blocks[i].Val() == cells[i])
      && (forall i, j :: 0 <= i < j < |blocks| ==> blocks[i] != blocks[j])
    }

    ghost function Val(): ArenaVal
      reads this
    {
      ArenaVal(format, lastBlockId, cells)
    }

    constructor (format: Format)
      requires ValidFormat(format)
      ensures Valid() && Val() == ArenaVal(format, 0, []) && this.format == format
    {
      this.format := format;
      lastBlockId, capacity := 0, 0;
      blocks, cells := [], [];
    }

    /** Move every block into new storage; the emptied cells are destroyed. */
    method Reallocate(newCapacity: nat) returns (ok: bool)
      requires Valid() && |blocks| <= newCapacity
      modifies this, blocks
      ensures Valid() && Val() == old(Val()) && capacity == newCapacity && ok
      ensures fresh(blocks)
    {
      var moved: seq<Block> := [];
      ok := true;
      var i := 0;
      while i < |blocks|
        modifies blocks
        invariant 0 <= i <= |blocks| && |moved| == i && ok
        invariant fresh(moved) && forall j, k :: 0 <= j < i && 0 <= k < |blocks| ==> moved[j] != blocks[k]
        invariant forall j, k :: 0 <= j < k < i ==> moved[j] != moved[k]
        invariant forall j :: 0 <= j < i ==> moved[j].Valid() && moved[j].Val() == cells[j]
        invariant forall j :: i <= j < |blocks| ==> blocks[j].Valid() && blocks[j].Val() == cells[j]
      {
        var cell := new Block.MoveFrom(blocks[i]);
        var freed := blocks[i].Destruct();
        ok := ok && freed;
        moved := moved + [cell];
        i := i + 1;
      }
      blocks, capacity := moved, newCapacity;
    }

    /** Append by moving; the vector grows when it is full. */
    method PushBack(b: Block) returns (ok: bool)
      requires Valid() && b.Valid() && b !in blocks
      modifies this, blocks, b
      ensures Valid() && ok
      ensures Val() == old(Val()).(blocks := old(cells) + [old(b.Val())])
      ensures fresh(set x | x in blocks && x !in old(blocks))
    {
      ok := true;
      if |blocks| == capacity {
        ok := Reallocate(2 * capacity + 1);
      }
      ghost var val := b.Val();
      var cell := new Block.MoveFrom(b);
      blocks := blocks + [cell];
      cells := cells + [val];
      var freed := b.Destruct();
      ok := ok && freed;
    }

    /** Exchange the contents of a cell and the next one. */
    method MoveForward(i: nat)
      requires Valid() && i + 1 < |blocks|
      modifies this`cells, blocks[i], blocks[i + 1]
      ensures Valid() && cells == old(cells)[i := old(cells)[i + 1]][i + 1 := old(cells)[i]]
    {
      blocks[i].MoveAssign(blocks[i + 1]);
      cells := cells[i := cells[i + 1]][i + 1 := cells[i]];
    }

    /** Carry the block at `pos` to the last cell, moving every later block one cell forward. */
    method CarryToEnd(pos: nat)
      requires Valid() && pos < |blocks|
      modifies this`cells, blocks
      ensures Valid() && Carried(old(cells), pos, |blocks| - 1, cells)
    {
      ghost var was := cells;
      var i := pos;
      while i + 1 < |blocks|
        modifies this`cells, blocks
        invariant pos <= i < |blocks| && Valid()
        invariant Carried(was, pos, i, cells)
      {
        CarryStep(was, pos, i, cells);
        MoveForward(i);
        i := i + 1;
      }
    }

    /** Erase by moving later blocks forward and destroying the last cell. */
    method Erase(pos: nat) returns (ok: bool)
      requires Valid() && pos < |blocks|
      modifies this`cells, this`blocks, blocks
      ensures Valid() && blocks == old(blocks)[..|old(blocks)| - 1]
      ensures cells == old(cells)[..pos] + old(cells)[pos + 1..]
      ensures ok <==> old(cells)[pos].data == 0 || AllEmpty(old(cells)[pos])
    {
      CarryToEnd(pos);
      var last := |blocks| - 1;
      ok := blocks[last].Destruct();
      blocks := blocks[..last];
      cells := cells[..last];
    }

    /** Take the first slot available in any block; k is the number of blocks when there is none. */
    method TakeSlot() returns (k: nat, slot: int)
      requires Valid() && ValidArena(Val())
      modifies this`cells, blocks
      ensures Valid() && k == FirstFit(old(cells))
      ensures k == |blocks| ==> Val() == old(Val())
      ensures k < |blocks| ==>
        && slot == FirstFree(old(cells)[k].available) && 0 <= slot < |old(cells)[k].available|
        && cells == old(cells)[k := old(cells)[k].(available := old(cells)[k].available[slot := false])]
    {
      k := 0;
      while k < |blocks|
        modifies this`cells, blocks
        invariant 0 <= k <= |blocks| && Valid() && cells == old(cells)
        invariant forall j :: 0 <= j < k ==> FirstFree(cells[j].available) == |cells[j].available|
      {
        slot := blocks[k].AllocSlot();
        if slot != -1 {
          cells := cells[k := cells[k].(available := cells[k].available[slot := false])];
          FirstFitIs(old(cells), k);
          return;
        }
        k := k + 1;
      }
      FirstFitIs(cells, k);
      slot := -1;
    }

    /** A new block whose first slot is taken. */
    method AddBlock(memory: nat) returns (slot: int, ok: bool)
      requires Valid()
      modifies this, blocks
      ensures Valid() && ok && slot == 0
      ensures lastBlockId == old(lastBlockId) + 1
      ensures cells == old(cells) + [BlockVal(memory, TextureSize(format), old(lastBlockId) + 1,
                                              [false, true, true, true, true, true, true, true])]
      ensures fresh(set x | x in blocks && x !in old(blocks))
    {
      lastBlockId := lastBlockId + 1;
      var b := new Block(TextureSize(format), lastBlockId, memory);
      slot := b.AllocSlot();
      assert b.available == [false, true, true, true, true, true, true, true];
      ok := PushBack(b);
    }

    /** First fit; `memory` is what the memory allocator returns if it is asked for a block. */
    method Alloc(memory: nat) returns (t: TextureSoftware, ok: bool)
      requires Valid() && ValidArena(Val()) && AddressOk(Val(), memory)
      modifies this, blocks
      ensures Valid() && ok && fresh(t) && t.arena == this
      ensures (Val(), t.Val()) == TextureModel.Alloc(old(Val()), memory)
      ensures fresh(set x | x in blocks && x !in old(blocks))
    {
      ok := true;
      var k, slot := TakeSlot();
      if k == |blocks| {
        slot, ok := AddBlock(memory);
      }
      t := TextureIn(k, slot);
    }

    /** The texture in a slot of the k-th block. */
    method TextureIn(k: nat, slot: nat) returns (t: TextureSoftware)
      requires Valid() && k < |blocks|
      ensures fresh(t) && t.arena == this && t.Val() == TextureAt(format, cells[k], slot)
    {
      var b := blocks[k];
      t := new TextureSoftware();
      t.Settle(this, b.blockId, slot, b.data + b.size * slot);
    }

    method FindBlock(blockId: nat) returns (b: Block?)
      requires Valid()
      ensures var k := TextureModel.FindBlock(cells, blockId);
        if k < |blocks| then b == blocks[k] else b == null
    {
      var i := 0;
      while i < |blocks|
        invariant 0 <= i <= |blocks|
        invariant forall j :: 0 <= j < i ==> cells[j].blockId != blockId
      {
        if blocks[i].blockId == blockId {
          FindBlockIs(cells, blockId, i);
          return blocks[i];
        }
        i := i + 1;
      }
      FindBlockIs(cells, blockId, i);
      return null;
    }

    /** The position of the first empty block, or the number of blocks. */
    method FirstEmpty() returns (i: nat)
      requires Valid()
      ensures i <= |blocks| && (i < |blocks| ==> AllEmpty(cells[i]))
      ensures forall j :: 0 <= j < i ==> !AllEmpty(cells[j])
    {
      i := 0;
      while i < |blocks|
        invariant 0 <= i <= |blocks|
        invariant forall j :: 0 <= j < i ==> !AllEmpty(cells[j])
      {
        var empty := blocks[i].CheckAllEmpty();
        if empty {
          return;
        }
        i := i + 1;
      }
    }

    /** Erase empty blocks one at a time until a search finds none. */
    method Gc() returns (ok: bool)
      requires Valid()
      modifies this`cells, this`blocks, blocks
      ensures Valid() && ok
      ensures Val() == TextureModel.Gc(old(Val()))
      ensures blocks <= old(blocks)
    {
      ok := true;
      var erased := true;
      ghost var oldBlocks := blocks;
      while erased
        modifies this`cells, this`blocks, oldBlocks
        invariant Valid() && ok && blocks <= oldBlocks
        invariant InUse(cells) == InUse(old(cells))
        invariant !erased ==> cells == InUse(cells)
        decreases |blocks|, erased
      {
        var i := FirstEmpty();
        erased := i < |blocks|;
        if erased {
          InUseSkips(cells, i);
          ok := Erase(i);
        } else {
          InUseIsAll(cells);
        }
      }
    }
  }

  /** The block at `pos` has travelled to position i. */
  ghost predicate Carried(was: seq<BlockVal>, pos: nat, i: nat, now: seq<BlockVal>) {
    && pos <= i < |was| && |now| == |was|
    && now[i] == was[pos]
    && (forall j :: 0 <= j < pos || i < j < |was| ==> now[j] == was[j])
    && (forall j :: pos <= j < i ==> now[j] == was[j + 1])
  }

  lemma CarryStep(was: seq<BlockVal>, pos: nat, i: nat, now: seq<BlockVal>)
    requires Carried(was, pos, i, now) && i + 1 < |was|
    ensures Carried(was, pos, i + 1, now[i := now[i + 1]][i + 1 := now[i]])
  {
  }

  lemma {:induction false} FirstFitIs(blocks: seq<BlockVal>, k: nat)
    requires k <= |blocks|
    requires k < |blocks| ==> FirstFree(blocks[k].available) < |blocks[k].available|
    requires forall j :: 0 <= j < k ==> FirstFree(blocks[j].available) == |blocks[j].available|
    ensures FirstFit(blocks) == k
  {
  }

  lemma {:induction false} FindBlockIs(blocks: seq<BlockVal>, blockId: nat, k: nat)
    requires k <= |blocks|
    requires k < |blocks| ==> blocks[k].blockId == blockId
    requires forall j :: 0 <= j < k ==> blocks[j].blockId != blockId
    ensures TextureModel.FindBlock(blocks, blockId) == k
  {
  }

  lemma {:induction false} InUseSkips(blocks: seq<BlockVal>, i: nat)
    requires i < |blocks| && AllEmpty(blocks[i])
    ensures InUse(blocks[..i] + blocks[i + 1..]) == InUse(blocks)
  {
    if i > 0 {
      InUseSkips(blocks[1..], i - 1);
      assert (blocks[..i] + blocks[i + 1..])[1..] == blocks[1..][..i - 1] + blocks[1..][i..];
    } else {
      assert blocks[..0] + blocks[1..] == blocks[1..];
    }
  }

  lemma {:induction false} InUseIsAll(blocks: seq<BlockVal>)
    requires forall j :: 0 <= j < |blocks| ==> !AllEmpty(blocks[j])
    ensures InUse(blocks) == blocks
  {
    if blocks != [] {
      InUseIsAll(blocks[1..]);
    }
  }

  /** A picture, and the slot it owns when it came from an arena. */
  class TextureSoftware {
    var width: int
    var height: int
    var pixelFormat: int
    var linesize: seq<nat>
    var data: seq<nat>
    var arena: TextureAllocArena?
    var blockId: nat
    var blockSlot: int

    function Val(): TexVal
      reads this
    {
      TexVal(width, height, pixelFormat, linesize, data, arena != null, blockId, blockSlot)
    }

    constructor ()
      ensures Val() == NO_TEXTURE && arena == null
    {
      width, height, pixelFormat := -1, -1, -1;
      linesize, data := [0, 0, 0, 0], [0, 0, 0, 0];
      arena := null;
      blockId, blockSlot := 0, -1;
    }

    constructor MoveFrom(move: TextureSoftware)
      modifies move
      ensures Val() == old(move.Val()) && arena == old(move.arena)
      ensures move.Val() == NO_TEXTURE && move.arena == null
    {
      width, height, pixelFormat := -1, -1, -1;
      linesize, data := [0, 0, 0, 0], [0, 0, 0, 0];
      arena := null;
      blockId, blockSlot := 0, -1;
      new;
      Swap(move);
    }

    method Swap(b: TextureSoftware)
      modifies this, b
      ensures Val() == old(b.Val()) && b.Val() == old(Val())
      ensures arena == old(b.arena) && b.arena == old(arena)
    {
      width, b.width := b.width, width;
      height, b.height := b.height, height;
      pixelFormat, b.pixelFormat := b.pixelFormat, pixelFormat;
      linesize, b.linesize := b.linesize, linesize;
      data, b.data := b.data, data;
      arena, b.arena := b.arena, arena;
      blockId, b.blockId := b.blockId, blockId;
      blockSlot, b.blockSlot := b.blockSlot, blockSlot;
    }

    /** Move assignment exchanges the two textures. */
    method MoveAssign(move: TextureSoftware)
      modifies this, move
      ensures Val() == old(move.Val()) && move.Val() == old(Val())
      ensures arena == old(move.arena) && move.arena == old(arena)
    {
      Swap(move);
    }

    /** The last part of allocation: ownership and the plane pointers. */
    method Settle(owner: TextureAllocArena, id: nat, slot: nat, address: nat)
      requires ValidFormat(owner.format)
      modifies this
      ensures arena == owner
      ensures var f := owner.format;
        Val() == TexVal(f.width, f.height, f.pixelFormat, f.linesize,
                        PlanePointers(f.linesize, f.planeSize, address), true, id, slot)
    {
      arena := owner;
      var f := owner.format;
      width, height, pixelFormat, linesize := f.width, f.height, f.pixelFormat, f.linesize;
      blockId, blockSlot := id, slot;
      data := FillPointers(f.linesize, f.planeSize, address);
    }

    static method FillPointers(linesize: seq<nat>, planeSize: seq<nat>, address: nat) returns (pointers: seq<nat>)
      requires |linesize| == |planeSize|
      ensures pointers == PlanePointers(linesize, planeSize, address)
    {
      var n := |linesize|;
      pointers := seq(n, _ => 0);
      var p := address;
      var i := 0;
      ghost var want := PlanePointers(linesize, planeSize, address);
      assert linesize[0..] == linesize && planeSize[0..] == planeSize && want[0..] == want;
      while i < n && linesize[i] != 0
        invariant 0 <= i <= n && |pointers| == n
        invariant forall j :: 0 <= j < i ==> pointers[j] == want[j]
        invariant forall j :: i <= j < n ==> pointers[j] == 0
        invariant want[i..] == PlanePointers(linesize[i..], planeSize[i..], p)
      {
        assert linesize[i..][1..] == linesize[i + 1..] && planeSize[i..][1..] == planeSize[i + 1..];
        assert want[i] == want[i..][0] && want[i + 1..] == want[i..][1..];
        pointers := pointers[i := p];
        p := p + planeSize[i];
        i := i + 1;
      }
      assert forall j :: i <= j < n ==> want[j] == want[i..][j - i];
    }

    /** A copy in a slot of the target arena; None stands for the format check that ends the program. */
    method Clone(target: TextureAllocArena, memory: nat) returns (t: TextureSoftware?, ok: bool)
      requires target.Valid() && ValidArena(target.Val()) && AddressOk(target.Val(), memory)
      modifies target, target.blocks
      ensures target.Valid() && ok && Val() == old(Val())
      ensures t == null <==> arena != target && !SameFormat(Val(), target.format)
      ensures t != null ==> fresh(t) && t.arena == target
      ensures t != null ==> (target.Val(), t.Val()) == TextureModel.Alloc(old(target.Val()), memory)
      ensures t == null ==> target.Val() == old(target.Val())
    {
      if arena != target && (target.format.width != width || target.format.height != height
                             || target.format.pixelFormat != pixelFormat) {
        return null, true;
      }
      t, ok := target.Alloc(memory);
    }

    /** The destructor; false stands for abort() or a null block. */
    method Destruct() returns (ok: bool)
      requires arena != null ==> arena.Valid()
      modifies this, arena, if arena == null then [] else arena.blocks
      ensures old(arena) == null ==> ok
      ensures old(arena) != null ==>
        var r := Release(old(arena.Val()), old(blockId), old(blockSlot));
        && (ok <==> r.Some?)
        && (ok ==> old(arena).Valid() && old(arena).Val() == r.value && arena == null)
    {
      ok := true;
      if arena != null {
        var a := arena;
        var b := a.FindBlock(blockId);
        if b == null {
          return false;
        }
        ok := b.FreeSlot(blockSlot);
        if ok {
          ghost var k := TextureModel.FindBlock(a.cells, blockId);
          a.cells := a.cells[k := b.Val()];
          blockId, blockSlot := 0, -1;
          arena := null;
        }
      }
    }
  }
}
