/** Slot ownership over whole runs of allocating, cloning, moving, destroying and collecting. */
module TextureRuns {
  import opened TextureModel

  /** An arena, the textures alive (by name), and the largest number of slots ever owned at once. */
  datatype World = World(arena: ArenaVal, live: map<nat, TexVal>, peak: nat)

  datatype Op =
    | NewEmpty(name: nat)
    | AllocNew(name: nat, address: nat)
    | CloneNew(name: nat, src: nat, address: nat)
    | MoveNew(name: nat, src: nat)
    | MoveTo(dst: nat, src: nat)
    | Reference(name: nat, view: TexVal)
    | Destroy(name: nat)
    | Collect

  /** `Abort` is a call of abort(); `Disabled` an operation the program cannot perform in this state. */
  datatype Outcome = Ok(world: World) | Disabled | Abort

  function Owners(live: map<nat, TexVal>): set<nat> {
    set n | n in live && live[n].owned
  }

  function Settle(arena: ArenaVal, live: map<nat, TexVal>, peak: nat): World {
    var owners := |Owners(live)|;
    World(arena, live, if owners > peak then owners else peak)
  }

  predicate SameFormat(t: TexVal, f: Format) {
    t.width == f.width && t.height == f.height && t.pixelFormat == f.pixelFormat
  }

  /** The memory allocator's promise, needed only when a block is added. */
  ghost predicate AddressOk(a: ArenaVal, address: nat) {
    FirstFit(a.blocks) == |a.blocks| ==> FreshAddress(a, address)
  }

  ghost function Step(w: World, op: Op): Outcome
    requires ValidFormat(w.arena.format)
  {
    match op
    case NewEmpty(name) =>
      if name in w.live then Disabled else Ok(Settle(w.arena, w.live[name := NO_TEXTURE], w.peak))
    case AllocNew(name, address) =>
      if name in w.live || !AddressOk(w.arena, address) then Disabled
      else
        var (a, t) := Alloc(w.arena, address);
        Ok(Settle(a, w.live[name := t], w.peak))
    case CloneNew(name, src, address) =>
      if name in w.live || src !in w.live || !AddressOk(w.arena, address) then Disabled
      else if !w.live[src].owned && !SameFormat(w.live[src], w.arena.format) then Disabled  // "Format mismatch"
      else
        var (a, t) := Alloc(w.arena, address);
        Ok(Settle(a, w.live[name := t], w.peak))
    case MoveNew(name, src) =>
      if name in w.live || src !in w.live then Disabled
      else Ok(Settle(w.arena, w.live[name := w.live[src]][src := NO_TEXTURE], w.peak))
    case MoveTo(dst, src) =>
      if dst !in w.live || src !in w.live then Disabled
      else Ok(Settle(w.arena, w.live[dst := w.live[src]][src := w.live[dst]], w.peak))
    case Reference(name, view) =>
      if name in w.live || view.owned then Disabled else Ok(Settle(w.arena, w.live[name := view], w.peak))
    case Destroy(name) =>
      if name !in w.live then Disabled
      else if !w.live[name].owned then Ok(Settle(w.arena, w.live - {name}, w.peak))
      else
        (match Release(w.arena, w.live[name].blockId, w.live[name].blockSlot)
         case None => Abort
         case Some(a) => Ok(Settle(a, w.live - {name}, w.peak)))
    case Collect => Ok(Settle(Gc(w.arena), w.live, w.peak))
  }

  // ---------- ownership ----------

  /** The texture lies exactly in its own taken slot. */
  ghost predicate Holds(a: ArenaVal, t: TexVal)
    requires ValidFormat(a.format)
  {
    exists k :: 0 <= k < |a.blocks| && HoldsIn(a.format, a.blocks[k], t)
  }

  predicate HoldsIn(f: Format, b: BlockVal, t: TexVal)
    requires ValidFormat(f)
  {
    TakenIn(b, t.blockId, t.blockSlot) && t == TextureAt(f, b, t.blockSlot)
  }

  predicate Owns(t: TexVal, blockId: nat, slot: int) {
    t.owned && t.blockId == blockId && t.blockSlot == slot
  }

  predicate SameSlot(t: TexVal, u: TexVal) {
    t.owned && u.owned && t.blockId == u.blockId && t.blockSlot == u.blockSlot
  }

  ghost predicate OneOwnerEach(a: ArenaVal, live: map<nat, TexVal>)
    requires ValidFormat(a.format)
  {
    && (forall n :: n in live && live[n].owned ==> Holds(a, live[n]))
    && (forall n, m :: n in live && m in live && SameSlot(live[n], live[m]) ==> n == m)
    && (forall id: nat, s: int :: Taken(a, id, s) ==> exists n :: n in live && Owns(live[n], id, s))
  }

  ghost predicate Inv(w: World) {
    && ValidArena(w.arena)
    && OneOwnerEach(w.arena, w.live)
    && |Owners(w.live)| <= w.peak
    && |w.arena.blocks| <= (w.peak + 7) / 8
  }

  lemma SettleKeepsInv(a: ArenaVal, live: map<nat, TexVal>, peak: nat)
    requires ValidArena(a) && OneOwnerEach(a, live)
    requires |a.blocks| <= (peak + 7) / 8 || |a.blocks| <= (|Owners(live)| + 7) / 8
    ensures Inv(Settle(a, live, peak))
  {
  }

  // ---------- allocation ----------

  /** Blocks keep their place in memory when a slot of theirs is taken or returned. */
  lemma AllocKeepsHolding(a: ArenaVal, address: nat, t: TexVal)
    requires ValidArena(a) && t.owned && Holds(a, t)
    ensures Holds(Alloc(a, address).0, t)
  {
    var a' := Alloc(a, address).0;
    var k :| 0 <= k < |a.blocks| && HoldsIn(a.format, a.blocks[k], t);
    assert HoldsIn(a'.format, a'.blocks[k], t);
  }

  lemma AllocHolds(a: ArenaVal, address: nat)
    requires ValidArena(a)
    ensures var (a', t) := Alloc(a, address); t.owned && Holds(a', t)
  {
    var (a', t) := Alloc(a, address);
    var k := FirstFit(a.blocks);
    assert HoldsIn(a'.format, a'.blocks[k], t);
  }

  lemma HoldingTakes(a: ArenaVal, t: TexVal)
    requires ValidFormat(a.format) && Holds(a, t)
    ensures Taken(a, t.blockId, t.blockSlot)
  {
    var k :| 0 <= k < |a.blocks| && HoldsIn(a.format, a.blocks[k], t);
    assert TakenIn(a.blocks[k], t.blockId, t.blockSlot);
  }

  lemma AllocKeepsOwners(a: ArenaVal, live: map<nat, TexVal>, name: nat, address: nat)
    requires ValidArena(a) && OneOwnerEach(a, live) && name !in live
    requires AddressOk(a, address)
    ensures var (a', t) := Alloc(a, address);
      ValidArena(a') && OneOwnerEach(a', live[name := t])
  {
    var (a', t) := Alloc(a, address);
    var live' := live[name := t];
    AllocKeepsArena(a, address);
    AllocTakesOneSlot(a, address);
    AllocHolds(a, address);
    forall n | n in live && live[n].owned
      ensures Holds(a', live[n]) && !SameSlot(live[n], t)
    {
      AllocKeepsHolding(a, address, live[n]);
      HoldingTakes(a, live[n]);
    }
    forall id: nat, s: int | Taken(a', id, s)
      ensures exists n :: n in live' && Owns(live'[n], id, s)
    {
      if (id, s) == (t.blockId, t.blockSlot) {
        assert Owns(live'[name], id, s);
      } else {
        var n :| n in live && Owns(live[n], id, s);
        assert Owns(live'[n], id, s);
      }
    }
  }

  /** A block is added only when every slot of every block has an owner; so the blocks never number more than an
      eighth, rounded up, of the slots owned at once. */
  lemma AllocBoundsBlocks(w: World, name: nat, address: nat)
    requires Inv(w) && name !in w.live
    ensures var (a', t) := Alloc(w.arena, address);
      && |w.arena.blocks| <= |a'.blocks| <= |w.arena.blocks| + 1
      && (|a'.blocks| > |w.arena.blocks| ==> EverySlotOwned(w.arena, w.live))
      && (|a'.blocks| <= (w.peak + 7) / 8 || |a'.blocks| <= (|Owners(w.live[name := t])| + 7) / 8)
  {
    if FirstFit(w.arena.blocks) == |w.arena.blocks| {
      FullArenaIsOwned(w.arena, w.live);
      FullArenaHasOwners(w.arena, w.live);
      AddOwner(w.live, name, Alloc(w.arena, address).1);
    }
  }

  ghost predicate EverySlotOwned(a: ArenaVal, live: map<nat, TexVal>) {
    forall k, s :: 0 <= k < |a.blocks| && 0 <= s < BLOCK_SIZE ==> SlotOwned(a.blocks[k], s, live)
  }

  ghost predicate SlotOwned(b: BlockVal, s: int, live: map<nat, TexVal>) {
    exists n :: n in live && Owns(live[n], b.blockId, s)
  }

  lemma FullArenaIsOwned(a: ArenaVal, live: map<nat, TexVal>)
    requires ValidArena(a) && OneOwnerEach(a, live)
    requires FirstFit(a.blocks) == |a.blocks|
    ensures EverySlotOwned(a, live)
  {
    forall k, s | 0 <= k < |a.blocks| && 0 <= s < BLOCK_SIZE
      ensures SlotOwned(a.blocks[k], s, live)
    {
      var b := a.blocks[k];
      assert ValidBlock(a.format, a.lastBlockId, b);
      assert TakenIn(b, b.blockId, s);
      assert Taken(a, b.blockId, s);
      var n :| n in live && Owns(live[n], b.blockId, s);
    }
  }

  lemma FullArenaHasOwners(a: ArenaVal, live: map<nat, TexVal>)
    requires ValidArena(a) && OneOwnerEach(a, live)
    requires FirstFit(a.blocks) == |a.blocks|
    ensures BLOCK_SIZE * |a.blocks| <= |Owners(live)|
  {
    FullBlocksHaveOwners(a, live, |a.blocks|);
    SubsetSize(OwnersIn(a, live, |a.blocks|), Owners(live));
  }

  lemma AddOwner(live: map<nat, TexVal>, name: nat, t: TexVal)
    requires name !in live && t.owned
    ensures |Owners(live[name := t])| == |Owners(live)| + 1
  {
    assert Owners(live[name := t]) == Owners(live) + {name};
  }

  lemma SubsetSize(a: set<nat>, b: set<nat>)
    requires a <= b
    ensures |a| <= |b|
  {
    assert b == a + (b - a);
  }

  /** Owners of slots in the first n blocks. */
  ghost function OwnersIn(a: ArenaVal, live: map<nat, TexVal>, n: nat): set<nat>
    requires n <= |a.blocks|
  {
    set m | m in live && live[m].owned && exists k :: 0 <= k < n && a.blocks[k].blockId == live[m].blockId
  }

  lemma {:induction false} FullBlocksHaveOwners(a: ArenaVal, live: map<nat, TexVal>, n: nat)
    requires ValidArena(a) && OneOwnerEach(a, live)
    requires FirstFit(a.blocks) == |a.blocks| && n <= |a.blocks|
    ensures |OwnersIn(a, live, n)| >= BLOCK_SIZE * n
  {
    if n > 0 {
      FullBlocksHaveOwners(a, live, n - 1);
      var eight := EightOwners(a, live, n - 1);
      OwnersOfNextBlock(a, live, n - 1, eight);
      SubsetSize(OwnersIn(a, live, n - 1) + eight, OwnersIn(a, live, n));
    }
  }

  /** A block's owners own nothing in earlier blocks. */
  lemma OwnersOfNextBlock(a: ArenaVal, live: map<nat, TexVal>, k: nat, owners: set<nat>)
    requires ValidArena(a) && k < |a.blocks|
    requires forall m :: m in owners ==> m in live && live[m].owned && live[m].blockId == a.blocks[k].blockId
    ensures OwnersIn(a, live, k) !! owners && OwnersIn(a, live, k) + owners <= OwnersIn(a, live, k + 1)
  {
    forall m | m in owners
      ensures m !in OwnersIn(a, live, k) && m in OwnersIn(a, live, k + 1)
    {
      forall j | 0 <= j < k
        ensures a.blocks[j].blockId != live[m].blockId
      {
        assert Before(a.blocks[j], a.blocks[k]);
      }
    }
  }

  /** The owners of a full block's slots: there are eight, since no texture owns two slots. */
  lemma EightOwners(a: ArenaVal, live: map<nat, TexVal>, k: nat) returns (owners: set<nat>)
    requires ValidArena(a) && OneOwnerEach(a, live)
    requires FirstFit(a.blocks) == |a.blocks| && k < |a.blocks|
    ensures |owners| == BLOCK_SIZE
    ensures forall m :: m in owners ==> m in live && live[m].owned && live[m].blockId == a.blocks[k].blockId
  {
    var b := a.blocks[k];
    assert ValidBlock(a.format, a.lastBlockId, b);
    owners := {};
    for s := 0 to BLOCK_SIZE
      invariant |owners| == s
      invariant forall m :: m in owners ==>
        m in live && live[m].owned && live[m].blockId == b.blockId && live[m].blockSlot < s
    {
      assert TakenIn(b, b.blockId, s);
      assert Taken(a, b.blockId, s);
      var m :| m in live && Owns(live[m], b.blockId, s);
      owners := owners + {m};
    }
  }

  // ---------- destruction and collection ----------

  lemma DestroyKeepsOwners(a: ArenaVal, live: map<nat, TexVal>, name: nat)
    requires ValidArena(a) && OneOwnerEach(a, live)
    requires name in live && live[name].owned
    ensures var r := Release(a, live[name].blockId, live[name].blockSlot);
      r.Some? && ValidArena(r.value) && OneOwnerEach(r.value, live - {name})
  {
    var t := live[name];
    HoldingTakes(a, t);
    ReleaseReturnsOneSlot(a, t.blockId, t.blockSlot);
    ReleaseKeepsArena(a, t.blockId, t.blockSlot);
    var a' := Release(a, t.blockId, t.blockSlot).value;
    var live' := live - {name};
    forall n | n in live' && live'[n].owned
      ensures Holds(a', live'[n])
    {
      assert !SameSlot(live[n], t);
      ReleaseKeepsHolding(a, t, live[n]);
    }
    forall id: nat, s: int | Taken(a', id, s)
      ensures exists n :: n in live' && Owns(live'[n], id, s)
    {
      var n :| n in live && Owns(live[n], id, s);
      assert n != name;
      assert n in live' && Owns(live'[n], id, s);
    }
  }

  lemma ReleaseKeepsHolding(a: ArenaVal, t: TexVal, u: TexVal)
    requires ValidArena(a) && Holds(a, u) && Release(a, t.blockId, t.blockSlot).Some?
    requires t.blockId != u.blockId || t.blockSlot != u.blockSlot
    ensures Holds(Release(a, t.blockId, t.blockSlot).value, u)
  {
    var a' := Release(a, t.blockId, t.blockSlot).value;
    var k :| 0 <= k < |a.blocks| && HoldsIn(a.format, a.blocks[k], u);
    assert HoldsIn(a'.format, a'.blocks[k], u);
  }

  lemma GcKeepsOwners(a: ArenaVal, live: map<nat, TexVal>)
    requires ValidArena(a) && OneOwnerEach(a, live)
    ensures ValidArena(Gc(a)) && OneOwnerEach(Gc(a), live)
  {
    GcKeepsArena(a);
    forall n | n in live && live[n].owned
      ensures Holds(Gc(a), live[n])
    {
      var k :| 0 <= k < |a.blocks| && HoldsIn(a.format, a.blocks[k], live[n]);
      assert a.blocks[k] in InUse(a.blocks);
      var j :| 0 <= j < |InUse(a.blocks)| && InUse(a.blocks)[j] == a.blocks[k];
    }
    forall id: nat, s: int | Taken(Gc(a), id, s)
      ensures exists n :: n in live && Owns(live[n], id, s)
    {
      GcKeepsTakenSlots(a, id, s);
    }
  }

  // ---------- every step ----------

  /** Renaming owners, and adding or dropping textures that own nothing, keeps ownership. */
  lemma RenameKeepsOwners(a: ArenaVal, live: map<nat, TexVal>, live': map<nat, TexVal>, back: map<nat, nat>)
    requires ValidArena(a) && OneOwnerEach(a, live)
    requires forall n :: n in live' && live'[n].owned ==> n in back && back[n] in live && live'[n] == live[back[n]]
    requires forall n, m :: n in back && m in back && back[n] == back[m] ==> n == m
    requires forall m :: m in live && live[m].owned ==>
      exists n :: n in back && n in live' && back[n] == m && live'[n] == live[m]
    ensures OneOwnerEach(a, live')
  {
    forall id: nat, s: int | Taken(a, id, s)
      ensures exists n :: n in live' && Owns(live'[n], id, s)
    {
      var m :| m in live && Owns(live[m], id, s);
      var n :| n in back && n in live' && back[n] == m && live'[n] == live[m];
      assert Owns(live'[n], id, s);
    }
    forall n, m | n in live' && m in live' && SameSlot(live'[n], live'[m])
      ensures n == m
    {
      assert SameSlot(live[back[n]], live[back[m]]);
    }
  }

  lemma MoveToKeepsOwners(a: ArenaVal, live: map<nat, TexVal>, dst: nat, src: nat)
    requires ValidArena(a) && OneOwnerEach(a, live) && dst in live && src in live
    ensures OneOwnerEach(a, live[dst := live[src]][src := live[dst]])
  {
    var live' := live[dst := live[src]][src := live[dst]];
    var back := (map n | n in live :: n)[dst := src][src := dst];
    forall m | m in live && live[m].owned
      ensures exists n :: n in back && n in live' && back[n] == m && live'[n] == live[m]
    {
      var n := if m == src then dst else if m == dst then src else m;
      assert n in back && n in live' && back[n] == m && live'[n] == live[m];
    }
    RenameKeepsOwners(a, live, live', back);
  }

  lemma MoveNewKeepsOwners(a: ArenaVal, live: map<nat, TexVal>, name: nat, src: nat)
    requires ValidArena(a) && OneOwnerEach(a, live) && name !in live && src in live
    ensures OneOwnerEach(a, live[name := live[src]][src := NO_TEXTURE])
  {
    AddUnownedKeepsOwners(a, live, name, NO_TEXTURE);
    var with := live[name := NO_TEXTURE];
    MoveToKeepsOwners(a, with, name, src);
    assert with[name := with[src]][src := with[name]] == live[name := live[src]][src := NO_TEXTURE];
  }

  lemma AddUnownedKeepsOwners(a: ArenaVal, live: map<nat, TexVal>, name: nat, t: TexVal)
    requires ValidArena(a) && OneOwnerEach(a, live) && name !in live && !t.owned
    ensures OneOwnerEach(a, live[name := t])
  {
    var live' := live[name := t];
    var back := map n | n in live :: n;
    forall m | m in live && live[m].owned
      ensures exists n :: n in back && n in live' && back[n] == m && live'[n] == live[m]
    {
      assert m in back && m in live' && back[m] == m && live'[m] == live[m];
    }
    RenameKeepsOwners(a, live, live', back);
  }

  lemma DropUnownedKeepsOwners(a: ArenaVal, live: map<nat, TexVal>, name: nat)
    requires ValidArena(a) && OneOwnerEach(a, live) && name in live && !live[name].owned
    ensures OneOwnerEach(a, live - {name})
  {
    var live' := live - {name};
    var back := map n | n in live' :: n;
    forall m | m in live && live[m].owned
      ensures exists n :: n in back && n in live' && back[n] == m && live'[n] == live[m]
    {
      assert m in back && m in live' && back[m] == m && live'[m] == live[m];
    }
    RenameKeepsOwners(a, live, live', back);
  }

  lemma StepKeepsInv(w: World, op: Op)
    requires Inv(w)
    ensures !Step(w, op).Abort?
    ensures Step(w, op).Ok? ==> Inv(Step(w, op).world)
  {
    if Step(w, op) == Disabled {
      return;
    }
    match op
    case NewEmpty(name) =>
      AddUnownedKeepsOwners(w.arena, w.live, name, NO_TEXTURE);
      SettleKeepsInv(w.arena, w.live[name := NO_TEXTURE], w.peak);
    case AllocNew(name, address) =>
      AllocKeepsOwners(w.arena, w.live, name, address);
      AllocBoundsBlocks(w, name, address);
      SettleKeepsInv(Alloc(w.arena, address).0, w.live[name := Alloc(w.arena, address).1], w.peak);
    case CloneNew(name, src, address) =>
      AllocKeepsOwners(w.arena, w.live, name, address);
      AllocBoundsBlocks(w, name, address);
      SettleKeepsInv(Alloc(w.arena, address).0, w.live[name := Alloc(w.arena, address).1], w.peak);
    case MoveNew(name, src) =>
      MoveNewKeepsOwners(w.arena, w.live, name, src);
      SettleKeepsInv(w.arena, w.live[name := w.live[src]][src := NO_TEXTURE], w.peak);
    case MoveTo(dst, src) =>
      MoveToKeepsOwners(w.arena, w.live, dst, src);
      SettleKeepsInv(w.arena, w.live[dst := w.live[src]][src := w.live[dst]], w.peak);
    case Reference(name, view) =>
      AddUnownedKeepsOwners(w.arena, w.live, name, view);
      SettleKeepsInv(w.arena, w.live[name := view], w.peak);
    case Destroy(name) => DestroyKeepsInv(w, name);
    case Collect =>
      GcKeepsOwners(w.arena, w.live);
      GcKeepsArena(w.arena);
      SettleKeepsInv(Gc(w.arena), w.live, w.peak);
  }

  lemma DestroyKeepsInv(w: World, name: nat)
    requires Inv(w) && name in w.live
    ensures Step(w, Destroy(name)).Ok? && Inv(Step(w, Destroy(name)).world)
  {
    if w.live[name].owned {
      DestroyKeepsOwners(w.arena, w.live, name);
      var a := Release(w.arena, w.live[name].blockId, w.live[name].blockSlot).value;
      ReleaseKeepsArena(w.arena, w.live[name].blockId, w.live[name].blockSlot);
      SettleKeepsInv(a, w.live - {name}, w.peak);
    } else {
      DropUnownedKeepsOwners(w.arena, w.live, name);
      SettleKeepsInv(w.arena, w.live - {name}, w.peak);
    }
  }

  // ---------- whole runs ----------

  function Start(f: Format): World { World(ArenaVal(f, 0, []), map[], 0) }

  ghost function Run(f: Format, ops: seq<Op>): Outcome
    requires ValidFormat(f)
  {
    if ops == [] then Ok(Start(f)) else Then(Run(f, ops[..|ops| - 1]), ops[|ops| - 1])
  }

  ghost function Then(before: Outcome, op: Op): Outcome {
    if before.Ok? && ValidFormat(before.world.arena.format) then Step(before.world, op) else before
  }

  lemma {:induction false} RunKeepsInv(f: Format, ops: seq<Op>)
    requires ValidFormat(f)
    ensures !Run(f, ops).Abort?
    ensures Run(f, ops).Ok? ==> Inv(Run(f, ops).world)
  {
    if ops == [] {
      assert Owners(map[]) == {};
    } else {
      RunKeepsInv(f, ops[..|ops| - 1]);
      if Run(f, ops[..|ops| - 1]).Ok? {
        StepKeepsInv(Run(f, ops[..|ops| - 1]).world, ops[|ops| - 1]);
      }
    }
  }

  /** Whatever the order of operations, nothing aborts: the destructor finds its block, frees no slot twice,
      and no block is destroyed while a slot of it is taken. Every taken slot belongs to exactly one live
      texture, block ids are unique, and the blocks number at most an eighth, rounded up, of the slots ever
      owned at once. */
  lemma RunsNeverAbort(f: Format, ops: seq<Op>)
    requires ValidFormat(f)
    ensures !Run(f, ops).Abort?
    ensures Run(f, ops).Ok? ==>
      var w := Run(f, ops).world;
      && (forall id: nat, s: int :: Taken(w.arena, id, s) ==> exists n :: n in w.live && Owns(w.live[n], id, s))
      && (forall n :: n in w.live && w.live[n].owned ==> Taken(w.arena, w.live[n].blockId, w.live[n].blockSlot))
      && (forall n, m :: n in w.live && m in w.live && SameSlot(w.live[n], w.live[m]) ==> n == m)
      && (forall i, j :: 0 <= i < j < |w.arena.blocks| ==> w.arena.blocks[i].blockId != w.arena.blocks[j].blockId)
      && |w.arena.blocks| <= (w.peak + 7) / 8
  {
    RunKeepsInv(f, ops);
    if Run(f, ops).Ok? {
      var w := Run(f, ops).world;
      forall n | n in w.live && w.live[n].owned
        ensures Taken(w.arena, w.live[n].blockId, w.live[n].blockSlot)
      {
        HoldingTakes(w.arena, w.live[n]);
      }
      forall i, j | 0 <= i < j < |w.arena.blocks|
        ensures w.arena.blocks[i].blockId != w.arena.blocks[j].blockId
      {
        assert Before(w.arena.blocks[i], w.arena.blocks[j]);
      }
    }
  }

  // ---------- memory ----------

  /** First byte and length of the i-th plane of a texture. */
  predicate PlaneApart(t: TexVal, i: nat, u: TexVal, j: nat, f: Format)
    requires i < |t.data| && j < |u.data| && i < |f.planeSize| && j < |f.planeSize|
  {
    DisjointRanges(t.data[i], f.planeSize[i], u.data[j], f.planeSize[j])
  }

  /** The format has an i-th plane: no earlier line size is zero. */
  predicate HasPlane(f: Format, i: nat) {
    i < |f.linesize| && forall j :: 0 <= j <= i ==> f.linesize[j] > 0
  }

  lemma {:induction false} PlanesAreConsecutive(linesize: seq<nat>, planeSize: seq<nat>, p: nat, i: nat)
    requires |linesize| == |planeSize| && i < |linesize|
    requires forall j :: 0 <= j <= i ==> linesize[j] > 0
    ensures PlanePointers(linesize, planeSize, p)[i] == p + Sum(planeSize[..i])
    ensures Sum(planeSize[..i]) + planeSize[i] <= Sum(planeSize)
  {
    if i == 0 {
      assert planeSize[..0] == [];
    } else {
      PlanesAreConsecutive(linesize[1..], planeSize[1..], p + planeSize[0], i - 1);
      assert planeSize[..i][1..] == planeSize[1..][..i - 1];
    }
  }

  lemma {:induction false} SumIsMonotone(planeSize: seq<nat>, i: nat, j: nat)
    requires i < j <= |planeSize|
    ensures Sum(planeSize[..i]) + planeSize[i] <= Sum(planeSize[..j])
  {
    if i == 0 {
      assert planeSize[..0] == [];
    } else {
      SumIsMonotone(planeSize[1..], i - 1, j - 1);
      assert planeSize[..i][1..] == planeSize[1..][..i - 1];
      assert planeSize[..j][1..] == planeSize[1..][..j - 1];
    }
  }

  /** Every plane of an owning texture lies inside the texture's slot. */
  lemma PlanesLieInSlot(f: Format, b: BlockVal, slot: nat, i: nat)
    requires ValidFormat(f) && b.size == TextureSize(f) && HasPlane(f, i)
    ensures var t := TextureAt(f, b, slot);
      SlotAddress(b, slot) <= t.data[i] && t.data[i] + f.planeSize[i] <= SlotAddress(b, slot) + b.size
  {
    PlanesAreConsecutive(f.linesize, f.planeSize, SlotAddress(b, slot), i);
  }

  lemma SlotsApart(b: BlockVal, s: nat, t: nat)
    requires s < t < BLOCK_SIZE
    ensures SlotAddress(b, s) + b.size <= SlotAddress(b, t)
    ensures SlotAddress(b, t) + b.size <= b.data + b.size * BLOCK_SIZE
  {
    assert b.size * (t - s) >= b.size;
    assert b.size * (BLOCK_SIZE - t) >= b.size;
  }

  lemma SlotInBlock(b: BlockVal, s: nat)
    requires s < BLOCK_SIZE
    ensures b.data <= SlotAddress(b, s) && SlotAddress(b, s) + b.size <= b.data + b.size * BLOCK_SIZE
  {
    assert b.size * (BLOCK_SIZE - s) >= b.size;
  }

  /** In every reachable state, no byte of picture memory belongs to two planes: neither of two textures nor
      of one. */
  lemma LiveMemoryIsDisjoint(f: Format, ops: seq<Op>, n: nat, m: nat, i: nat, j: nat)
    requires ValidFormat(f) && Run(f, ops).Ok?
    requires n in Run(f, ops).world.live && m in Run(f, ops).world.live
    requires Run(f, ops).world.live[n].owned && Run(f, ops).world.live[m].owned
    requires HasPlane(Run(f, ops).world.arena.format, i) && HasPlane(Run(f, ops).world.arena.format, j)
    requires n != m || i != j
    ensures var w := Run(f, ops).world;
      && ValidFormat(w.arena.format) && |w.live[n].data| == 4 && |w.live[m].data| == 4
      && PlaneApart(w.live[n], i, w.live[m], j, w.arena.format)
  {
    RunKeepsInv(f, ops);
    var w := Run(f, ops).world;
    var t, u, g := w.live[n], w.live[m], w.arena.format;
    var k :| 0 <= k < |w.arena.blocks| && HoldsIn(g, w.arena.blocks[k], t);
    var l :| 0 <= l < |w.arena.blocks| && HoldsIn(g, w.arena.blocks[l], u);
    var b, c := w.arena.blocks[k], w.arena.blocks[l];
    assert ValidBlock(g, w.arena.lastBlockId, b) && ValidBlock(g, w.arena.lastBlockId, c);
    PlanesLieInSlot(g, b, t.blockSlot, i);
    PlanesLieInSlot(g, c, u.blockSlot, j);
    if n == m {
      assert k == l by {
        assert k < l ==> Before(b, c);
        assert l < k ==> Before(c, b);
      }
      PlanesAreConsecutive(g.linesize, g.planeSize, SlotAddress(b, t.blockSlot), i);
      PlanesAreConsecutive(g.linesize, g.planeSize, SlotAddress(b, t.blockSlot), j);
      SumIsMonotone(g.planeSize, if i < j then i else j, if i < j then j else i);
    } else if k == l {
      assert !SameSlot(t, u);
      if t.blockSlot < u.blockSlot {
        SlotsApart(b, t.blockSlot, u.blockSlot);
      } else {
        SlotsApart(b, u.blockSlot, t.blockSlot);
      }
    } else {
      assert BlocksApart(b, c) by {
        assert k < l ==> Before(b, c);
        assert l < k ==> Before(c, b);
      }
      SlotInBlock(b, t.blockSlot);
      SlotInBlock(c, u.blockSlot);
    }
  }

  // ---------- what an operation does to the textures ----------

  /** The textures an operation is about. */
  function Touched(op: Op): set<nat> {
    match op
    case NewEmpty(name) => {name}
    case AllocNew(name, _) => {name}
    case CloneNew(name, _, _) => {name}
    case MoveNew(name, src) => {name, src}
    case MoveTo(dst, src) => {dst, src}
    case Reference(name, _) => {name}
    case Destroy(name) => {name}
    case Collect => {}
  }

  /** Every other texture stays as it is, alive or not. */
  lemma OthersStayAsTheyAre(w: World, op: Op, n: nat)
    requires Inv(w) && Step(w, op).Ok? && n !in Touched(op)
    ensures var live := Step(w, op).world.live;
      (n in live <==> n in w.live) && (n in live ==> live[n] == w.live[n])
  {
  }

  /** Moving: a constructor takes the texture over and leaves an empty one; an assignment exchanges the two, so that
      nothing is freed before its time. */
  lemma MovesMove(w: World, op: Op)
    requires Inv(w) && Step(w, op).Ok?
    ensures var live := Step(w, op).world.live;
      && (op.MoveNew? ==>
            && op.src in w.live && op.name in live && op.src in live
            && live[op.name] == w.live[op.src]
            && !live[op.src].owned && live[op.src].data == [0, 0, 0, 0] && live[op.src].width == -1)
      && (op.MoveTo? ==>
            && op.src in w.live && op.dst in w.live && op.dst in live && op.src in live
            && live[op.dst] == w.live[op.src] && live[op.src] == w.live[op.dst])
      && (op.MoveNew? || op.MoveTo? ==> Step(w, op).world.arena == w.arena)
  {
  }

  /** A default texture is empty and owns nothing; a reference is the view it was made of; destruction and collection
      leave no texture behind that was not there, and destruction takes its own away. */
  lemma PlainOpsAreExact(w: World, op: Op)
    requires Inv(w) && Step(w, op).Ok?
    ensures var live := Step(w, op).world.live;
      && (op.NewEmpty? ==> live == w.live[op.name := TexVal(-1, -1, -1, [0, 0, 0, 0], [0, 0, 0, 0], false, 0, -1)])
      && (op.Reference? ==> live == w.live[op.name := op.view] && !op.view.owned)
      && (op.Destroy? ==> live == w.live - {op.name})
      && (op.Collect? ==> live == w.live)
  {
  }

  /** A clone is refused exactly if the source has no slot and another size or pixel format than the arena. */
  lemma CloneIsRefusedExactly(w: World, name: nat, src: nat, address: nat)
    requires Inv(w) && name !in w.live && src in w.live && AddressOk(w.arena, address)
    ensures var t, f := w.live[src], w.arena.format;
      Step(w, CloneNew(name, src, address)).Disabled? <==>
        !t.owned && (t.width != f.width || t.height != f.height || t.pixelFormat != f.pixelFormat)
  {
  }

  /** A texture of a format, somewhere in memory: the format's size and line sizes, and each plane it has right behind
      the one before. */
  predicate LaidOut(t: TexVal, f: Format, at: nat) {
    && ValidFormat(f)
    && t.width == f.width && t.height == f.height && t.pixelFormat == f.pixelFormat && t.linesize == f.linesize
    && |t.data| == 4
    && (HasPlane(f, 0) ==> t.data[0] == at)
    && (HasPlane(f, 1) ==> t.data[1] == at + f.planeSize[0])
    && (HasPlane(f, 2) ==> t.data[2] == at + f.planeSize[0] + f.planeSize[1])
    && (HasPlane(f, 3) ==> t.data[3] == at + f.planeSize[0] + f.planeSize[1] + f.planeSize[2])
    && (forall i :: 0 <= i < 4 && !HasPlane(f, i) ==> t.data[i] == 0)
  }

  lemma {:induction false} MissingPlaneIsNull(linesize: seq<nat>, planeSize: seq<nat>, p: nat, i: nat)
    requires |linesize| == |planeSize| && i < |linesize| && exists j :: 0 <= j <= i && linesize[j] == 0
    ensures PlanePointers(linesize, planeSize, p)[i] == 0
  {
    if linesize[0] != 0 {
      var j :| 0 <= j <= i && linesize[j] == 0;
      assert linesize[1..][j - 1] == 0;
      MissingPlaneIsNull(linesize[1..], planeSize[1..], p + planeSize[0], i - 1);
    }
  }

  lemma {:induction false} SumOfOneMore(p: seq<nat>, i: nat)
    requires i < |p|
    ensures Sum(p[..i + 1]) == Sum(p[..i]) + p[i]
  {
    if i > 0 {
      SumOfOneMore(p[1..], i - 1);
      assert p[..i + 1][1..] == p[1..][..i] && p[..i][1..] == p[1..][..i - 1];
    }
  }

  lemma SumOfFour(p: seq<nat>)
    requires |p| == 4
    ensures Sum(p[..0]) == 0 && Sum(p[..1]) == p[0] && Sum(p[..2]) == p[0] + p[1] && Sum(p[..3]) == p[0] + p[1] + p[2]
  {
    SumOfOneMore(p, 0);
    SumOfOneMore(p, 1);
    SumOfOneMore(p, 2);
  }

  lemma PlaneIs(f: Format, at: nat, i: nat)
    requires ValidFormat(f) && i < 4
    ensures PlanePointers(f.linesize, f.planeSize, at)[i] == if HasPlane(f, i) then at + Sum(f.planeSize[..i]) else 0
  {
    if HasPlane(f, i) {
      PlanesAreConsecutive(f.linesize, f.planeSize, at, i);
    } else {
      MissingPlaneIsNull(f.linesize, f.planeSize, at, i);
    }
  }

  lemma TextureIsLaidOut(f: Format, b: BlockVal, slot: nat)
    requires ValidFormat(f)
    ensures LaidOut(TextureAt(f, b, slot), f, b.data + slot * b.size)
  {
    var at := SlotAddress(b, slot);
    SumOfFour(f.planeSize);
    forall i: nat | i < 4
      ensures TextureAt(f, b, slot).data[i] == if HasPlane(f, i) then at + Sum(f.planeSize[..i]) else 0
    {
      PlaneIs(f, at, i);
    }
  }

  /** The texture is laid out in its slot of one of the blocks. */
  ghost predicate LiesIn(a: ArenaVal, t: TexVal, f: Format) {
    exists k :: 0 <= k < |a.blocks| && a.blocks[k].blockId == t.blockId && 0 <= t.blockSlot
      && LaidOut(t, f, a.blocks[k].data + t.blockSlot * a.blocks[k].size)
  }

  lemma AllocLaysOut(a: ArenaVal, address: nat)
    requires ValidArena(a)
    ensures LiesIn(Alloc(a, address).0, Alloc(a, address).1, a.format)
  {
    var (a', t) := Alloc(a, address);
    var k := FirstFit(a.blocks);
    TextureIsLaidOut(a.format, a'.blocks[k], t.blockSlot);
  }

  /** A new texture, or a clone, owns a slot that was free and is laid out there in the arena's format. */
  lemma NewTexturesAreLaidOut(w: World, op: Op)
    requires Inv(w) && Step(w, op).Ok? && (op.AllocNew? || op.CloneNew?)
    ensures var next := Step(w, op).world;
      && op.name !in w.live && op.name in next.live
      && var t := next.live[op.name];
         && t.owned && !Taken(w.arena, t.blockId, t.blockSlot) && Taken(next.arena, t.blockId, t.blockSlot)
         && LiesIn(next.arena, t, w.arena.format)
  {
    AllocTakesOneSlot(w.arena, op.address);
    AllocLaysOut(w.arena, op.address);
  }
}
