/**
 The virtual memory manager (kernel/kernel/vmm.c).  Every load and store of a page-table entry goes
 through the hardware walk, the way the C code reaches it through the recursive and scratch windows.
 */
module Vmm {
  import opened Paging
  import opened VmmCost
  import opened Pmm
  import opened Wrappers

  const SCRATCH := 0xE000_0000

  /** Memory with the table for slot i present: pt is installed only when the slot was empty. */
  function TableReady(m: Memory, pd: Frame, i: nat, pt: Frame, user: bool): Memory
    requires i < 1024
  {
    if m[pd][i].flags.present then m else WithTable(m, pd, i, pt, user)
  }

  /** The owners after vmm_map_page: a new table, and for a user page the frame it maps. */
  function MapOwner(m: Memory, owner: Owners, pd: Frame, i: nat, k: nat, pt: Frame, f: Frame): Owners
    requires i < 1023 && k < 1024
  {
    var o := if m[pd][i].flags.present then owner else owner[pt := TableOwner(pd, i)];
    if i < USER_SLOTS then PlaceOwner(m, o, pd, i, k, f) else o
  }

  /** Used frames are the owned ones; frame 0 stays reserved; what spaces own came from the allocator. */
  ghost predicate Accounted(owner: Owners, free: set<nat>, total: nat) {
    && (forall f: Frame :: f in owner <==> f !in free)
    && (forall f :: f in free ==> f < MAX_PAGES)
    && Owns(owner, 0, Reserved)
    && (forall f :: f in owner && !owner[f].Reserved? && !owner[f].KernelTable? ==> f < total)
  }

  class AddressSpaces {
    var mem: Memory
    var cr3: Frame
    const pmm: FrameAllocator
    ghost var live: set<Frame>
    ghost var owner: Owners

    /** The machine after vmm_init: one directory, with its recursive slot in place. */
    constructor (mem: Memory, bootDirectory: Frame, pmm: FrameAllocator, ghost owner: Owners)
      requires pmm.Valid() && Owned(mem, {bootDirectory}, owner) && Accounted(owner, pmm.free, pmm.totalPages)
      ensures Valid() && this.pmm == pmm && live == {bootDirectory} && this.mem == mem && this.owner == owner
    {
      this.mem, this.cr3, this.pmm := mem, bootDirectory, pmm;
      this.live, this.owner := {bootDirectory}, owner;
    }

    ghost predicate Valid()
      reads this, pmm, pmm.bitmap
    {
      && pmm.Valid()
      && cr3 in live
      && Owned(mem, live, owner)
      && Accounted(owner, pmm.free, pmm.totalPages)
    }

    /** Some frame pmm_alloc_page would find. */
    ghost predicate CanAlloc()
      reads pmm
    {
      exists f :: f in pmm.free && f < pmm.Scanned()
    }

    /** How many frames can still be allocated. */
    ghost function Left(): nat
      reads pmm
    {
      Avail(pmm.free, pmm.Scanned())
    }

    method Load(v: VAddr) returns (w: Word)
      requires Walk(mem, cr3, v).Some?
      ensures w == mem[Walk(mem, cr3, v).value.frame][Walk(mem, cr3, v).value.index]
    {
      var p := Walk(mem, cr3, v).value;
      w := mem[p.frame][p.index];
    }

    method Store(v: VAddr, w: Word)
      requires MayStore(mem, cr3, v)
      modifies this`mem
      ensures var p := old(Walk(mem, cr3, v)).value; mem == Poke(old(mem), p.frame, p.index, w)
    {
      var p := Walk(mem, cr3, v).value;
      mem := Poke(mem, p.frame, p.index, w);
    }

    /** memcpy out of, and memset or memcpy into, the page at slots (i, k). */
    method ReadPage(i: nat, k: nat) returns (data: PageData)
      requires i < 1024 && k < 1024 && Lookup(mem, cr3, i, k).Some?
      ensures data == mem[Lookup(mem, cr3, i, k).value.frame]
    {
      data := ZeroPage();
      for j := 0 to 1024
        invariant data[..j] == mem[Lookup(mem, cr3, i, k).value.frame][..j]
      {
        LookupIsWalk(mem, cr3, Address(i, k, j));
        var w := Load(Address(i, k, j));
        data := data[j := w];
      }
    }

    method WritePage(i: nat, k: nat, data: PageData)
      requires i < 1024 && k < 1024 && Lookup(mem, cr3, i, k).Some?
      requires mem[cr3][i].flags.writable && Lookup(mem, cr3, i, k).value.flags.writable
      requires Lookup(mem, cr3, i, k).value.frame != cr3
      requires Lookup(mem, cr3, i, k).value.frame != mem[cr3][i].frame
      modifies this`mem
      ensures mem == old(mem)[old(Lookup(mem, cr3, i, k)).value.frame := data]
    {
      ghost var f := Lookup(mem, cr3, i, k).value.frame;
      for j := 0 to 1024
        invariant forall g: Frame :: g != f ==> mem[g] == old(mem)[g]
        invariant mem[f][..j] == data[..j]
        invariant Lookup(mem, cr3, i, k) == old(Lookup(mem, cr3, i, k))
      {
        LookupIsWalk(mem, cr3, Address(i, k, j));
        Store(Address(i, k, j), data[j]);
      }
      assert mem[f] == data;
      assert mem == old(mem)[f := data];
    }

    /** pmm_alloc_page; 0 stands for failure, and frame 0 is never free. */
    method AllocFrame() returns (f: Frame)
      requires pmm.Valid() && 0 !in pmm.free
      modifies pmm`free, pmm`usedPages, pmm.bitmap
      ensures pmm.Valid()
      ensures f != 0 <==> old(CanAlloc())
      ensures f != 0 ==> f in old(pmm.free) && pmm.free == old(pmm.free) - {f} && f < pmm.totalPages
      ensures f != 0 ==> f < pmm.Scanned()
      ensures f == 0 ==> pmm.free == old(pmm.free)
    {
      var addr := pmm.AllocPage();
      f := AddrToFrame(addr);
    }

    /** vmm_map_page for an address below the recursive window. */
    method MapPage(v: VAddr, frame: Frame, flags: Flags) returns (ok: bool)
      requires Valid() && PdIndex(v) < RECURSIVE_ENTRY
      requires PdIndex(v) < USER_SLOTS ==> Owns(owner, frame, Held)
      modifies this`mem, this`owner, pmm`free, pmm`usedPages, pmm.bitmap
      ensures Valid()
      ensures ok <==> old(mem[cr3][PdIndex(v)].flags.present || CanAlloc())
      ensures !ok ==> mem == old(mem) && owner == old(owner) && pmm.free == old(pmm.free)
      ensures ok ==> MapEffect(PdIndex(v), PtIndex(v), Word(frame, flags.(present := true)))
      ensures ok && !old(mem)[cr3][PdIndex(v)].flags.present ==> mem[cr3][PdIndex(v)].frame < pmm.Scanned()
      // code in ring 3 reaches the page if it is a user page, in a new table or in one that admits the user
      ensures ok ==>
        UserWalk(mem, cr3, v) ==
        if flags.user && (old(mem)[cr3][PdIndex(v)].flags.present ==> old(mem)[cr3][PdIndex(v)].flags.user)
        then Some(Place(frame, WordIndex(v))) else None
    {
      var i, k := PdIndex(v), PtIndex(v);
      hide PdIndex;
      hide PtIndex;
      hide Valid;
      hide Owned;
      hide Accounted;
      hide Lookup;
      Facts();
      ok := EnsureTable(i, flags.user);
      if ok {
        PlaceEntry(i, k, Word(frame, flags.(present := true)));
        MappedForUser(mem, cr3, v, Word(frame, flags.(present := true)));
      }
    }

    lemma MappedForUser(m: Memory, pd: Frame, v: VAddr, e: Word)
      requires Lookup(m, pd, PdIndex(v), PtIndex(v)) == Some(e)
      ensures UserWalk(m, pd, v) ==
        if m[pd][PdIndex(v)].flags.user && e.flags.user then Some(Place(e.frame, WordIndex(v))) else None
    {
      hide PdIndex;
      hide PtIndex;
      hide WordIndex;
    }

    /** What a successful vmm_map_page does: memory, owners, free frames, and the flat views. */
    twostate predicate MapEffect(i: nat, k: nat, e: Word)
      requires i < RECURSIVE_ENTRY && k < 1024
      reads this, pmm
    {
      var t := mem[cr3][i].frame;
      && mem == Poke(TableReady(old(mem), cr3, i, t, e.flags.user), t, k, e)
      && owner == MapOwner(old(mem), old(owner), cr3, i, k, t, e.frame)
      && (if old(mem)[cr3][i].flags.present then pmm.free == old(pmm.free)
          else t in old(pmm.free) && pmm.free == old(pmm.free) - {t} && t !in old(owner))
      // the flat view of the current space gets exactly the one entry
      && (forall a, b :: 0 <= a < RECURSIVE_ENTRY && 0 <= b < 1024 ==>
            Lookup(mem, cr3, a, b) == if a == i && b == k then Some(e) else Lookup(old(mem), cr3, a, b))
      // and no other live space sees its user half change
      && (forall q, a, b :: q in live && q != cr3 && 0 <= a < USER_SLOTS && 0 <= b < 1024 ==>
            Lookup(mem, q, a, b) == Lookup(old(mem), q, a, b))
    }

    /** The start of vmm_map_page: slot i has a table, or memory is exhausted. */
    method EnsureTable(i: nat, user: bool) returns (ok: bool)
      requires Valid() && i < RECURSIVE_ENTRY
      modifies this`mem, this`owner, pmm`free, pmm`usedPages, pmm.bitmap
      ensures Valid()
      ensures ok <==> old(mem[cr3][i].flags.present || CanAlloc())
      ensures !ok || old(mem)[cr3][i].flags.present ==>
        mem == old(mem) && owner == old(owner) && pmm.free == old(pmm.free)
      ensures ok && !old(mem)[cr3][i].flags.present ==>
        var t := mem[cr3][i].frame;
        && mem[cr3][i].flags.present
        && mem == WithTable(old(mem), cr3, i, t, user)
        && owner == old(owner)[t := TableOwner(cr3, i)]
        && t in old(pmm.free) && pmm.free == old(pmm.free) - {t} && t !in old(owner) && t < pmm.Scanned()
      ensures forall q, a, b :: q in live && 0 <= a < RECURSIVE_ENTRY && 0 <= b < 1024 ==>
        Lookup(mem, q, a, b) == Lookup(old(mem), q, a, b)
    {
      hide FrameAllocator.Valid;
      hide Owned;
      hide Lookup;
      var pde := DirectoryEntry(i);
      if !pde.flags.present {
        var pt := AllocFrame();
        if pt == 0 { return false; }
        InstallTable(i, pt, user);
      }
      return true;
    }

    /** pd[i], read through the directory window. */
    method DirectoryEntry(i: nat) returns (w: Word)
      requires Valid() && i < 1024
      ensures w == mem[cr3][i]
    {
      assert SpaceOk(mem, owner, cr3);
      DirWindowWalk(mem, cr3, i);
      w := Load(DirWindow(i));
    }

    /** The end of vmm_map_page: entry k of the table in slot i, written through the table window. */
    method PlaceEntry(i: nat, k: nat, e: Word)
      requires Valid() && i < RECURSIVE_ENTRY && k < 1024
      requires mem[cr3][i].flags.present && e.flags.present
      requires i < USER_SLOTS ==> Owns(owner, e.frame, Held)
      modifies this`mem, this`owner
      ensures mem == Poke(old(mem), old(mem)[cr3][i].frame, k, e) && mem[cr3] == old(mem)[cr3]
      ensures owner == if i < USER_SLOTS then PlaceOwner(old(mem), old(owner), cr3, i, k, e.frame) else old(owner)
      ensures Valid()
      ensures forall a, b :: 0 <= a < RECURSIVE_ENTRY && 0 <= b < 1024 ==>
        Lookup(mem, cr3, a, b) == if a == i && b == k then Some(e) else Lookup(old(mem), cr3, a, b)
      ensures forall q, a, b :: q in live && q != cr3 && 0 <= a < USER_SLOTS && 0 <= b < 1024 ==>
        Lookup(mem, q, a, b) == Lookup(old(mem), q, a, b)
    {
      hide FrameAllocator.Valid;
      assert SpaceOk(mem, owner, cr3);
      TablesDistinct(mem, owner, cr3);
      TableWindowWalk(mem, cr3, i, k);
      Store(TableWindow(i, k), e);
      if i < USER_SLOTS {
        AddLeaf(old(mem), live, owner, cr3, i, k, e);
        owner := PlaceOwner(old(mem), owner, cr3, i, k, e.frame);
      } else {
        OwnedFrame(old(mem), mem, live, owner);
      }
    }

    /** The middle of vmm_map_page: point slot i at pt, and clear pt through its window. */
    method InstallTable(i: nat, pt: Frame, user: bool)
      requires i < RECURSIVE_ENTRY && cr3 in live && Owned(mem, live, owner)
      requires !mem[cr3][i].flags.present && pt !in owner
      modifies this`mem, this`owner
      ensures mem == WithTable(old(mem), cr3, i, pt, user)
      ensures mem[cr3][i].flags.present && mem[cr3][i].frame == pt
      ensures owner == old(owner)[pt := TableOwner(cr3, i)]
      ensures Owned(mem, live, owner)
      ensures forall q, a, b :: q in live && 0 <= a < RECURSIVE_ENTRY && 0 <= b < 1024 ==>
        Lookup(mem, q, a, b) == Lookup(old(mem), q, a, b)
    {
      assert SpaceOk(mem, owner, cr3);
      DirWindowWalk(mem, cr3, i);
      Store(DirWindow(i), Word(pt, Flags(true, true, user, 0)));
      WritePage(RECURSIVE_ENTRY, i, ZeroPage());
      AddTable(old(mem), live, owner, cr3, i, pt, user);
      owner := owner[pt := TableOwner(cr3, i)];
    }

    /** Entry k of the table in slot i, read through the table window. */
    method TableEntry(i: nat, k: nat) returns (w: Word)
      requires Valid() && i < RECURSIVE_ENTRY && k < 1024 && mem[cr3][i].flags.present
      ensures w == mem[mem[cr3][i].frame][k]
    {
      assert SpaceOk(mem, owner, cr3);
      TableWindowWalk(mem, cr3, i, k);
      w := Load(TableWindow(i, k));
    }

    /** vmm_is_mapped. */
    method IsMapped(v: VAddr) returns (mapped: bool)
      requires Valid() && PdIndex(v) < RECURSIVE_ENTRY
      ensures mapped <==> Walk(mem, cr3, v).Some?
    {
      var i, k := PdIndex(v), PtIndex(v);
      var pde := DirectoryEntry(i);
      if !pde.flags.present { return false; }
      var pte := TableEntry(i, k);
      return pte.flags.present;
    }

    /** vmm_get_physical: the physical byte address, or 0 when nothing is mapped. */
    method GetPhysical(v: VAddr) returns (phys: nat)
      requires Valid() && PdIndex(v) < RECURSIVE_ENTRY
      ensures match Lookup(mem, cr3, PdIndex(v), PtIndex(v))
              case None => phys == 0
              case Some(e) => phys == e.frame * 4096 + v % 4096
    {
      var i, k := PdIndex(v), PtIndex(v);
      var pde := DirectoryEntry(i);
      if !pde.flags.present { return 0; }
      var pte := TableEntry(i, k);
      if !pte.flags.present { return 0; }
      return pte.frame * 4096 + v % 4096;
    }

    /** vmm_unmap_page: the frame that was mapped, 0 if none; the frame is the caller's again. */
    method UnmapPage(v: VAddr) returns (frame: Frame)
      requires Valid() && PdIndex(v) < RECURSIVE_ENTRY
      modifies this`mem, this`owner
      ensures Valid()
      ensures match Lookup(old(mem), cr3, PdIndex(v), PtIndex(v))
              case None => frame == 0 && mem == old(mem) && owner == old(owner)
              case Some(e) => frame == e.frame && UnmapEffect(PdIndex(v), PtIndex(v))
    {
      var i, k := PdIndex(v), PtIndex(v);
      hide PdIndex;
      hide PtIndex;
      var pde := DirectoryEntry(i);
      if !pde.flags.present { return 0; }
      var pte := TableEntry(i, k);
      if !pte.flags.present { return 0; }
      ClearEntry(i, k);
      return pte.frame;
    }

    twostate predicate UnmapEffect(i: nat, k: nat)
      requires i < RECURSIVE_ENTRY && k < 1024
      reads this
    {
      && mem == Poke(old(mem), old(mem)[cr3][i].frame, k, ZERO)
      && owner == (if i < USER_SLOTS && Lookup(old(mem), cr3, i, k).Some?
                   then old(owner)[Lookup(old(mem), cr3, i, k).value.frame := Held] else old(owner))
      && (forall a, b :: 0 <= a < RECURSIVE_ENTRY && 0 <= b < 1024 ==>
            Lookup(mem, cr3, a, b) == if a == i && b == k then None else Lookup(old(mem), cr3, a, b))
      && (forall q, a, b :: q in live && q != cr3 && 0 <= a < USER_SLOTS && 0 <= b < 1024 ==>
            Lookup(mem, q, a, b) == Lookup(old(mem), q, a, b))
    }

    method ClearEntry(i: nat, k: nat)
      requires i < RECURSIVE_ENTRY && k < 1024 && cr3 in live && Owned(mem, live, owner)
      requires Lookup(mem, cr3, i, k).Some?
      modifies this`mem, this`owner
      ensures Owned(mem, live, owner) && owner.Keys == old(owner).Keys
      ensures UnmapEffect(i, k)
    {
      assert SpaceOk(mem, owner, cr3);
      TablesDistinct(mem, owner, cr3);
      TableWindowWalk(mem, cr3, i, k);
      Store(TableWindow(i, k), ZERO);
      if i < USER_SLOTS {
        RemoveLeaf(old(mem), live, owner, cr3, i, k);
        owner := owner[Lookup(old(mem), cr3, i, k).value.frame := Held];
      } else {
        OwnedFrame(old(mem), mem, live, owner);
      }
    }

    /** pmm_alloc_page, with the frame in the caller's hands. */
    method TakeFrame() returns (f: Frame)
      requires Valid()
      modifies this`owner, pmm`free, pmm`usedPages, pmm.bitmap
      ensures Valid()
      ensures f != 0 <==> old(Left()) > 0
      ensures f != 0 ==> f in old(pmm.free) && pmm.free == old(pmm.free) - {f} && Left() == old(Left()) - 1
      ensures f != 0 ==> f !in old(owner) && owner == old(owner)[f := Held]
      ensures f == 0 ==> pmm.free == old(pmm.free) && owner == old(owner)
    {
      hide FrameAllocator.Valid;
      hide Owned;
      hide Avail;
      AvailSome(pmm.free, pmm.Scanned());
      f := AllocFrame();
      if f != 0 {
        AvailTake(old(pmm.free), pmm.Scanned(), f);
        TakeHeld(mem, live, owner, f);
        owner := owner[f := Held];
      }
    }

    /** pmm_free_page of a frame in the caller's hands: never a double free. */
    method DropFrame(f: Frame)
      requires Valid() && Owns(owner, f, Held)
      modifies this`owner, pmm`free, pmm`usedPages, pmm.bitmap
      ensures Valid() && pmm.free == old(pmm.free) + {f} && owner == old(owner) - {f}
    {
      hide FrameAllocator.Valid;
      hide Owned;
      var warned := pmm.FreePage(FrameToAddr(f));
      assert !warned;
      DropHeld(mem, live, owner, f);
      owner := owner - {f};
    }

    /** Writes the new directory through the scratch window, where slot (896, 0) shows frame pd. */
    method FillDirectory(pd: Frame)
      requires Recursive(mem, cr3) && mem[cr3][SCRATCH_SLOT].flags.writable
      requires Lookup(mem, cr3, SCRATCH_SLOT, 0) == Some(Word(pd, TABLE_FLAGS))
      requires pd != cr3 && pd != mem[cr3][SCRATCH_SLOT].frame
      modifies this`mem
      ensures mem == old(mem)[pd := NewDirectory(old(mem)[cr3], pd)]
    {
      ghost var st := mem[cr3][SCRATCH_SLOT].frame;
      for i := 0 to USER_SLOTS
        invariant forall g: Frame :: g != pd ==> mem[g] == old(mem)[g]
        invariant forall a :: 0 <= a < i ==> mem[pd][a] == ZERO
      {
        ScratchStore(i, pd, ZERO);
      }
      for i := USER_SLOTS to RECURSIVE_ENTRY
        invariant forall g: Frame :: g != pd ==> mem[g] == old(mem)[g]
        invariant forall a :: 0 <= a < USER_SLOTS ==> mem[pd][a] == ZERO
        invariant forall a :: USER_SLOTS <= a < i ==> mem[pd][a] == mem[cr3][a]
      {
        DirWindowWalk(mem, cr3, i);
        var w := Load(DirWindow(i));
        ScratchStore(i, pd, w);
      }
      ScratchStore(SCRATCH_SLOT, pd, ZERO);
      ScratchStore(RECURSIVE_ENTRY, pd, Word(pd, TABLE_FLAGS));
      assert mem[pd] == NewDirectory(old(mem)[cr3], pd);
      assert mem == old(mem)[pd := NewDirectory(old(mem)[cr3], pd)];
    }

    /** new_pd[i] = w, through the scratch window. */
    method ScratchStore(i: nat, pd: Frame, w: Word)
      requires i < 1024 && mem[cr3][SCRATCH_SLOT].flags.writable
      requires Lookup(mem, cr3, SCRATCH_SLOT, 0) == Some(Word(pd, TABLE_FLAGS))
      modifies this`mem
      ensures mem == Poke(old(mem), pd, i, w)
    {
      LookupIsWalk(mem, cr3, Address(SCRATCH_SLOT, 0, i));
      Store(Address(SCRATCH_SLOT, 0, i), w);
    }

    /** vmm_map_page of the scratch page: it can fail only for want of a table, and it moves no claim. */
    method MapScratch(f: Frame) returns (ok: bool)
      requires Valid()
      modifies this`mem, this`owner, pmm`free, pmm`usedPages, pmm.bitmap
      ensures Valid()
      ensures ok <==> old(mem[cr3][SCRATCH_SLOT].flags.present || Left() > 0)
      ensures !ok ==> mem == old(mem) && owner == old(owner) && pmm.free == old(pmm.free)
      ensures ok ==> ScratchEffect(old(mem), old(owner), live, old(pmm.free), mem, owner, pmm.free, cr3, f)
      ensures ok ==> Left() == old(Left()) - (if old(mem)[cr3][SCRATCH_SLOT].flags.present then 0 else 1)
    {
      hide Valid;
      hide Lookup;
      hide Avail;
      AvailSome(pmm.free, pmm.Scanned());
      Facts();
      ScratchOwner(mem, owner, live, cr3);
      hide Owned;
      ok := MapPage(SCRATCH, f, TABLE_FLAGS);
      if ok && !old(mem)[cr3][SCRATCH_SLOT].flags.present {
        AvailTake(old(pmm.free), pmm.Scanned(), mem[cr3][SCRATCH_SLOT].frame);
      }
    }

    method UnmapScratch()
      requires Valid() && mem[cr3][SCRATCH_SLOT].flags.present
      modifies this`mem, this`owner
      ensures Valid() && owner == old(owner)
      ensures mem[cr3] == old(mem)[cr3] && Lookup(mem, cr3, SCRATCH_SLOT, 0) == None
      ensures Owns(owner, mem[cr3][SCRATCH_SLOT].frame, Scratch(cr3))
      ensures forall g: Frame :: g != mem[cr3][SCRATCH_SLOT].frame ==> mem[g] == old(mem)[g]
      ensures forall q, a, b :: q in live && 0 <= a < USER_SLOTS && 0 <= b < 1024 ==>
            Lookup(mem, q, a, b) == Lookup(old(mem), q, a, b)
    {
      hide Valid;
      Facts();
      ScratchOwner(mem, owner, live, cr3);
      hide Owned;
      var was := UnmapPage(SCRATCH);
    }

    /** vmm_create_address_space: 0 on failure, and then nothing has changed. */
    method CreateAddressSpace() returns (pd: Frame)
      requires Valid()
      modifies this`mem, this`owner, this`live, pmm`free, pmm`usedPages, pmm.bitmap
      ensures Valid()
      ensures pd == 0 ==> mem == old(mem) && owner == old(owner) && live == old(live) && pmm.free == old(pmm.free)
      ensures pd != 0 <==> old(Left()) >= DirectoryCost(old(mem), cr3)
      ensures pd != 0 ==> Left() == old(Left()) - DirectoryCost(old(mem), cr3)
      ensures pd != 0 ==>
        CreateEffect(old(mem), old(owner), old(live), old(pmm.free), mem, owner, live, pmm.free, cr3, pd)
    {
      hide Valid;
      hide Lookup;
      hide Avail;
      pd := TakeFrame();
      if pd == 0 { return; }
      var ok := MapScratch(pd);
      if !ok {
        DropFrame(pd);
        return 0;
      }
      AdoptDirectory(pd);
      UnmapScratch();
    }

    method AdoptDirectory(pd: Frame)
      requires Valid() && Owns(owner, pd, Held) && Lookup(mem, cr3, SCRATCH_SLOT, 0) == Some(Word(pd, TABLE_FLAGS))
      modifies this`mem, this`owner, this`live
      ensures Valid() && mem == old(mem)[pd := NewDirectory(old(mem)[cr3], pd)]
      ensures owner == old(owner)[pd := Dir(pd)] && live == old(live) + {pd}
      ensures forall q, a, b :: q in old(live) && 0 <= a < USER_SLOTS && 0 <= b < 1024 ==>
        Lookup(mem, q, a, b) == Lookup(old(mem), q, a, b)
      ensures forall a, b :: 0 <= a < USER_SLOTS && 0 <= b < 1024 ==> Lookup(mem, pd, a, b) == None
      ensures pd !in old(live) && pd != mem[cr3][SCRATCH_SLOT].frame && pd != cr3
    {
      hide Owned;
      hide NewDirectory;
      hide Recursive;
      HeldApart(mem, live, owner, cr3, pd);
      FillDirectory(pd);
      OwnedFrame(old(mem), mem, live, owner);
      NewSpace(old(mem), mem, live, owner, cr3, pd);
      live, owner := live + {pd}, owner[pd := Dir(pd)];
    }

    /** scratch[j], read through the scratch window. */
    method ScratchLoad(j: nat, f: Frame) returns (w: Word)
      requires j < 1024 && Lookup(mem, cr3, SCRATCH_SLOT, 0) == Some(Word(f, TABLE_FLAGS))
      ensures w == mem[f][j]
    {
      LookupIsWalk(mem, cr3, Address(SCRATCH_SLOT, 0, j));
      w := Load(Address(SCRATCH_SLOT, 0, j));
    }

    /** While pd is being destroyed: the frames of pd released so far are free, the others are held, and the
        claims of everyone else are untouched.  `m`, `o0` and `free0` are memory, owners and free frames
        before the first release; (i, k) is how far the two loops have come. */
    ghost predicate Destroying(pd: Frame, m: Memory, o0: Owners, free0: set<nat>, i: nat, k: nat)
      reads this, pmm
    {
      && mem[cr3] == m[cr3] && mem[cr3][SCRATCH_SLOT].flags.present
      && Owns(o0, mem[cr3][SCRATCH_SLOT].frame, Scratch(cr3))
      && (forall f: Frame :: f != mem[cr3][SCRATCH_SLOT].frame ==> mem[f] == m[f])
      && (forall f: Frame :: f in pmm.free <==> f in free0 || (f in o0 && Released(o0[f], pd, i, k)))
      && (forall f :: f in owner ==> f in o0 && owner[f] == Forget(o0, pd)[f])
    }

    /** The inner loop of vmm_destroy_address_space: frees the pages of the table in slot i, then the table. */
    method ReleaseTable(pd: Frame, i: nat, pt: Frame, ghost m: Memory, ghost o0: Owners, ghost live0: set<Frame>,
                        ghost free0: set<nat>)
      requires Valid() && Owned(m, live0, o0) && pd in live0 && pd != cr3 && i < USER_SLOTS
      requires m[pd][i].flags.present && m[pd][i].frame == pt && free0 !! o0.Keys
      requires Destroying(pd, m, o0, free0, i, 0)
      modifies this`mem, this`owner, pmm`free, pmm`usedPages, pmm.bitmap
      ensures Valid() && Destroying(pd, m, o0, free0, i + 1, 0)
    {
      hide Valid;
      hide Destroying;
      hide Owned;
      hide Lookup;
      Unshow(pd, m, o0, free0, i, 0);
      Show(pt, pd, m, o0, free0, i, 0);
      for k := 0 to 1024
        invariant Valid() && Destroying(pd, m, o0, free0, i, k)
        invariant Lookup(mem, cr3, SCRATCH_SLOT, 0) == Some(Word(pt, TABLE_FLAGS))
      {
        ReleaseLeaf(pd, i, k, pt, m, o0, live0, free0);
      }
      ReleaseEmptied(pd, i, pt, m, o0, live0, free0);
    }

    /** Points the scratch page at frame f. */
    method Show(f: Frame, ghost pd: Frame, ghost m: Memory, ghost o0: Owners, ghost free0: set<nat>, ghost i: nat,
                ghost k: nat)
      requires Valid() && Destroying(pd, m, o0, free0, i, k)
      modifies this`mem, this`owner, pmm`free, pmm`usedPages, pmm.bitmap
      ensures Valid() && Destroying(pd, m, o0, free0, i, k)
      ensures Lookup(mem, cr3, SCRATCH_SLOT, 0) == Some(Word(f, TABLE_FLAGS))
    {
      hide Valid;
      hide Lookup;
      var ok := MapScratch(f);
    }

    /** vmm_unmap_page of the scratch page. */
    method Unshow(ghost pd: Frame, ghost m: Memory, ghost o0: Owners, ghost free0: set<nat>, ghost i: nat, ghost k: nat)
      requires Valid() && Destroying(pd, m, o0, free0, i, k)
      modifies this`mem, this`owner
      ensures Valid() && Destroying(pd, m, o0, free0, i, k)
    {
      hide Valid;
      hide Lookup;
      UnmapScratch();
    }

    /** pmm_free_page of the one frame that the loops release between (i, k) and (i', k'). */
    method ReleaseFrame(f: Frame, ghost pd: Frame, ghost m: Memory, ghost o0: Owners, ghost free0: set<nat>,
                        ghost i: nat, ghost k: nat, ghost i': nat, ghost k': nat)
      requires Valid() && Destroying(pd, m, o0, free0, i, k)
      requires f in o0 && f !in free0 && BelongsTo(o0[f], pd) && !Released(o0[f], pd, i, k)
      requires forall g :: g in o0 ==> (Released(o0[g], pd, i', k') <==> Released(o0[g], pd, i, k) || g == f)
      modifies this`owner, pmm`free, pmm`usedPages, pmm.bitmap
      ensures Valid() && Destroying(pd, m, o0, free0, i', k')
    {
      hide Valid;
      hide Released;
      StillHeld(f, pd, m, o0, free0, i, k);
      DropFrame(f);
    }

    lemma StillHeld(f: Frame, pd: Frame, m: Memory, o0: Owners, free0: set<nat>, i: nat, k: nat)
      requires Valid() && Destroying(pd, m, o0, free0, i, k)
      requires f in o0 && f !in free0 && BelongsTo(o0[f], pd) && !Released(o0[f], pd, i, k)
      ensures Owns(owner, f, Held)
    {
      hide FrameAllocator.Valid;
      hide Owned;
    }

    /** pmm_free_page of entry k of the shown table, if it is present. */
    method ReleaseLeaf(pd: Frame, i: nat, k: nat, pt: Frame, ghost m: Memory, ghost o0: Owners,
                       ghost live0: set<Frame>, ghost free0: set<nat>)
      requires Valid() && Owned(m, live0, o0) && pd in live0 && pd != cr3 && i < USER_SLOTS && k < 1024
      requires m[pd][i].flags.present && m[pd][i].frame == pt && free0 !! o0.Keys
      requires Destroying(pd, m, o0, free0, i, k)
      requires Lookup(mem, cr3, SCRATCH_SLOT, 0) == Some(Word(pt, TABLE_FLAGS))
      modifies this`owner, pmm`free, pmm`usedPages, pmm.bitmap
      ensures Valid() && Destroying(pd, m, o0, free0, i, k + 1)
    {
      NextTable(m, live0, o0, pd, i);
      NextLeaf(m, live0, o0, pd, i, k);
      hide Valid;
      var w := ScratchLoad(k, pt);
      if w.flags.present {
        ReleaseFrame(w.frame, pd, m, o0, free0, i, k, i, k + 1);
      }
    }

    /** The shown table is taken off the scratch page and freed. */
    method ReleaseEmptied(pd: Frame, i: nat, pt: Frame, ghost m: Memory, ghost o0: Owners, ghost live0: set<Frame>,
                          ghost free0: set<nat>)
      requires Valid() && Owned(m, live0, o0) && pd in live0 && pd != cr3 && i < USER_SLOTS
      requires m[pd][i].flags.present && m[pd][i].frame == pt && free0 !! o0.Keys
      requires Destroying(pd, m, o0, free0, i, 1024)
      modifies this`mem, this`owner, pmm`free, pmm`usedPages, pmm.bitmap
      ensures Valid() && Destroying(pd, m, o0, free0, i + 1, 0)
    {
      NextTable(m, live0, o0, pd, i);
      hide Valid;
      Unshow(pd, m, o0, free0, i, 1024);
      ReleaseFrame(pt, pd, m, o0, free0, i, 1024, i + 1, 0);
    }

    /** From here on pd is only a set of frames to be freed. */
    ghost method Retire(pd: Frame)
      requires Valid() && pd != cr3
      modifies this`live, this`owner
      ensures Valid() && live == old(live) - {pd} && owner == Forget(old(owner), pd)
    {
      hide FrameAllocator.Valid;
      hide Owned;
      ForgetSpace(mem, live, owner, pd);
      live, owner := live - {pd}, Forget(owner, pd);
    }

    /** The directory is read as it was; an absent entry adds nothing to release. */
    lemma SeenEntry(pd: Frame, i: nat, m: Memory, o0: Owners, live0: set<Frame>, free0: set<nat>)
      requires Owned(m, live0, o0) && pd in live0 && pd != cr3 && i < USER_SLOTS
      requires Destroying(pd, m, o0, free0, i, 0)
      ensures mem[pd] == m[pd]
      ensures !m[pd][i].flags.present ==> Destroying(pd, m, o0, free0, i + 1, 0)
    {
      assert SpaceOk(m, o0, pd);
      NextTable(m, live0, o0, pd, i);
    }

    /** The end of vmm_destroy_address_space. */
    method FinishDestroy(pd: Frame, ghost m: Memory, ghost o0: Owners, ghost live0: set<Frame>, ghost free0: set<nat>)
      requires Valid() && Owned(m, live0, o0) && pd in live0 && pd != cr3 && free0 !! o0.Keys
      requires forall f :: f in free0 ==> f < MAX_PAGES
      requires Destroying(pd, m, o0, free0, USER_SLOTS, 0)
      modifies this`mem, this`owner, pmm`free, pmm`usedPages, pmm.bitmap
      ensures Valid() && mem[cr3] == m[cr3]
      ensures pmm.free == free0 + SpaceFrames(o0, pd)
      ensures forall f :: f in owner ==> f in o0 && owner[f] == Forget(o0, pd)[f]
      ensures forall f: Frame :: f != mem[cr3][SCRATCH_SLOT].frame ==> mem[f] == m[f]
      ensures forall q, a, b :: q in live0 && 0 <= a < USER_SLOTS && 0 <= b < 1024 ==>
        Lookup(mem, q, a, b) == Lookup(m, q, a, b)
    {
      hide Valid;
      hide Owned;
      hide Lookup;
      hide Released;
      hide BelongsTo;
      AllReleased(m, live0, o0, pd);
      Unshow(pd, m, o0, free0, USER_SLOTS, 0);
      OwnedFrame(m, mem, live0, o0);
      DropDirectory(pd, m, o0, free0);
    }

    method DropDirectory(pd: Frame, ghost m: Memory, ghost o0: Owners, ghost free0: set<nat>)
      requires Valid() && Destroying(pd, m, o0, free0, USER_SLOTS, 0) && free0 !! o0.Keys
      requires Owns(o0, pd, Dir(pd)) && !Released(o0[pd], pd, USER_SLOTS, 0)
      requires forall f :: f in o0 ==> (BelongsTo(o0[f], pd) <==> f == pd || Released(o0[f], pd, USER_SLOTS, 0))
      requires forall f :: f in free0 ==> f < MAX_PAGES
      modifies this`owner, pmm`free, pmm`usedPages, pmm.bitmap
      ensures Valid() && pmm.free == free0 + SpaceFrames(o0, pd)
      ensures forall f :: f in owner ==> f in o0 && owner[f] == Forget(o0, pd)[f]
    {
      hide Valid;
      hide Released;
      hide BelongsTo;
      Facts();
      FreedFrames(pmm.free, free0, o0, pd);
      StillHeld(pd, pd, m, o0, free0, USER_SLOTS, 0);
      DropFrame(pd);
    }

    /** vmm_destroy_address_space of a space other than the current one.  (With the scratch table in place
        the inner calls of vmm_map_page cannot fail, so their error branches are not reached.) */
    method DestroyAddressSpace(pd: Frame)
      requires Valid() && pd in live && pd != cr3
      modifies this`mem, this`owner, this`live, pmm`free, pmm`usedPages, pmm.bitmap
      ensures Valid() && live == old(live) - {pd}
      ensures old(mem[cr3][SCRATCH_SLOT].flags.present || Left() > 0) ==>
        DestroyEffect(old(mem), old(owner), old(live), old(pmm.free), mem, owner, pmm.free, cr3, pd)
      // without a scratch table and without memory for one, only the directory is freed
      ensures !old(mem[cr3][SCRATCH_SLOT].flags.present || Left() > 0) ==>
        pmm.free == old(pmm.free) + {pd} && mem == old(mem)
    {
      hide Lookup;
      hide Valid;
      hide Avail;
      var ok := MapScratch(pd);
      ghost var m, o0, live0, free0 := mem, owner, live, pmm.free;
      LiveDirectory(pd);
      Retire(pd);
      if !ok {
        DropFrame(pd);
        return;
      }
      StartDestroy(pd, m, o0, free0);
      hide Owned;
      hide Destroying;
      ReleaseAll(pd, m, o0, live0, free0);
      DestroyInTwo(old(mem), old(owner), old(live), old(pmm.free), m, o0, free0, mem, owner, pmm.free, cr3, pd);
    }

    lemma LiveDirectory(pd: Frame)
      requires Valid() && pd in live
      ensures Owned(mem, live, owner) && Owns(owner, pd, Dir(pd))
    {
      assert SpaceOk(mem, owner, pd);
    }

    lemma StartDestroy(pd: Frame, m: Memory, o0: Owners, free0: set<nat>)
      requires Valid() && mem == m && owner == Forget(o0, pd) && pmm.free == free0 && pd != cr3
      requires mem[cr3][SCRATCH_SLOT].flags.present && Owns(o0, mem[cr3][SCRATCH_SLOT].frame, Scratch(cr3))
      ensures Destroying(pd, m, o0, free0, 0, 0) && free0 !! o0.Keys && forall f :: f in free0 ==> f < MAX_PAGES
    {
    }

    /** The outer loop of vmm_destroy_address_space, and what follows it. */
    method ReleaseAll(pd: Frame, ghost m: Memory, ghost o0: Owners, ghost live0: set<Frame>, ghost free0: set<nat>)
      requires Valid() && Owned(m, live0, o0) && pd in live0 && pd != cr3 && free0 !! o0.Keys
      requires forall f :: f in free0 ==> f < MAX_PAGES
      requires Destroying(pd, m, o0, free0, 0, 0)
      requires Lookup(mem, cr3, SCRATCH_SLOT, 0) == Some(Word(pd, TABLE_FLAGS))
      modifies this`mem, this`owner, pmm`free, pmm`usedPages, pmm.bitmap
      ensures Valid() && mem[cr3] == m[cr3]
      ensures pmm.free == free0 + SpaceFrames(o0, pd)
      ensures forall f :: f in owner ==> f in o0 && owner[f] == Forget(o0, pd)[f]
      ensures forall f: Frame :: f != mem[cr3][SCRATCH_SLOT].frame ==> mem[f] == m[f]
      ensures forall q, a, b :: q in live0 && 0 <= a < USER_SLOTS && 0 <= b < 1024 ==>
        Lookup(mem, q, a, b) == Lookup(m, q, a, b)
    {
      hide Valid;
      hide Owned;
      hide Lookup;
      hide Destroying;
      for i := 0 to USER_SLOTS
        invariant Valid() && Destroying(pd, m, o0, free0, i, 0)
        invariant Lookup(mem, cr3, SCRATCH_SLOT, 0) == Some(Word(pd, TABLE_FLAGS))
      {
        var pde := ScratchLoad(i, pd);
        SeenEntry(pd, i, m, o0, live0, free0);
        if pde.flags.present {
          ReleaseTable(pd, i, pde.frame, m, o0, live0, free0);
          Show(pd, pd, m, o0, free0, i + 1, 0);
        }
      }
      FinishDestroy(pd, m, o0, live0, free0);
    }

    /** vmm_switch_address_space. */
    method SwitchAddressSpace(pd: Frame)
      requires Valid() && pd in live
      modifies this`cr3
      ensures Valid() && cr3 == pd
    {
      cr3 := pd;
    }

    /** The part of vmm_clone_address_space that runs in the child: a frame, its mapping, the bytes. */
    method InstallCopy(i: nat, k: nat, data: PageData, flags: Flags) returns (ok: bool)
      requires Valid() && i < USER_SLOTS && k < 1024 && flags.writable && flags.present
      requires Lookup(mem, cr3, i, k) == None
      modifies this`mem, this`owner, pmm`free, pmm`usedPages, pmm.bitmap
      ensures Valid()
      ensures !ok ==> mem == old(mem) && owner == old(owner) && pmm.free == old(pmm.free)
      ensures ok ==> InstallEffect(old(mem), old(owner), old(pmm.free), mem, owner, pmm.free, cr3, i, k, data, flags)
      ensures ok <==> old(Left()) >= NextCost(old(mem), cr3, i)
      ensures ok ==> Left() == old(Left()) - NextCost(old(mem), cr3, i) && OnlySlot(old(mem), mem, cr3, i, flags.user)
    {
      hide Lookup;
      hide Valid;
      hide Avail;
      hide OnlySlot;
      hide FreshEffect;
      hide InstallEffect;
      var f := MapFresh(i, k, flags);
      if f == 0 { return false; }
      ghost var m, o, free := mem, owner, pmm.free;
      FreshMapped(old(mem), old(owner), old(pmm.free), m, o, free, cr3, i, k, f, flags);
      FillFrame(i, k, f, data, flags);
      FreshFilled(old(mem), old(owner), old(pmm.free), m, owner, free, mem, cr3, i, k, f, data, flags);
      return true;
    }

    /** A frame from pmm_alloc_page, mapped by vmm_map_page; on failure it is given back. */
    method MapFresh(i: nat, k: nat, flags: Flags) returns (f: Frame)
      requires Valid() && i < USER_SLOTS && k < 1024 && flags.writable && flags.present
      requires Lookup(mem, cr3, i, k) == None
      modifies this`mem, this`owner, pmm`free, pmm`usedPages, pmm.bitmap
      ensures Valid()
      ensures f == 0 ==> mem == old(mem) && owner == old(owner) && pmm.free == old(pmm.free)
      ensures f != 0 ==> FreshEffect(old(mem), old(owner), old(pmm.free), mem, owner, pmm.free, cr3, i, k, f, flags)
      ensures f != 0 <==> old(Left()) >= NextCost(old(mem), cr3, i)
      ensures f != 0 ==> Left() == old(Left()) - NextCost(old(mem), cr3, i)
      ensures f != 0 ==> OnlySlot(old(mem), mem, cr3, i, flags.user)
    {
      hide Lookup;
      hide Valid;
      hide Avail;
      hide OnlySlot;
      f := TakeFrame();
      if f == 0 { return; }
      var ok := MapHeld(i, k, f, flags);
      if !ok {
        DropFrame(f);
        return 0;
      }
    }

    /** vmm_map_page of a frame in the caller's hands. */
    method MapHeld(i: nat, k: nat, f: Frame, flags: Flags) returns (ok: bool)
      requires Valid() && i < USER_SLOTS && k < 1024 && flags.present && Owns(owner, f, Held)
      modifies this`mem, this`owner, pmm`free, pmm`usedPages, pmm.bitmap
      ensures Valid()
      ensures ok <==> old(Left()) >= NextCost(old(mem), cr3, i) - 1
      ensures !ok ==> mem == old(mem) && owner == old(owner) && pmm.free == old(pmm.free)
      ensures ok ==> MapEffect(i, k, Word(f, flags)) && OnlySlot(old(mem), mem, cr3, i, flags.user)
      ensures ok ==> Left() == old(Left()) - NextCost(old(mem), cr3, i) + 1
    {
      hide Lookup;
      hide Valid;
      hide Avail;
      AvailSome(pmm.free, pmm.Scanned());
      ok := MapPage(Address(i, k, 0), f, flags);
      if ok {
        if !old(mem)[cr3][i].flags.present { AvailTake(old(pmm.free), pmm.Scanned(), mem[cr3][i].frame); }
        TableApart(i, k);
        hide OnlySlot;
        OneSlot(old(mem), mem, cr3, i, k, mem[cr3][i].frame, Word(f, flags));
      }
    }

    lemma TableApart(i: nat, k: nat)
      requires Valid() && i < USER_SLOTS && k < 1024 && Lookup(mem, cr3, i, k).Some?
      ensures mem[cr3][i].frame != cr3
    {
      assert SpaceOk(mem, owner, cr3);
    }

    method FillFrame(i: nat, k: nat, f: Frame, data: PageData, flags: Flags)
      requires Valid() && i < USER_SLOTS && k < 1024 && flags.writable && Lookup(mem, cr3, i, k) == Some(Word(f, flags))
      modifies this`mem
      ensures Valid() && mem == old(mem)[f := data] && mem[cr3] == old(mem)[cr3]
      ensures Owns(owner, mem[cr3][i].frame, Table(cr3, i)) && mem[cr3][i].flags.present && f != mem[cr3][i].frame
      ensures forall q, a, b :: q in live && 0 <= a < USER_SLOTS && 0 <= b < 1024 ==>
        Lookup(mem, q, a, b) == Lookup(old(mem), q, a, b)
    {
      assert SpaceOk(mem, owner, cr3);
      WritePage(i, k, data);
      OwnedFrame(old(mem), mem, live, owner);
    }

    /** One page of vmm_clone_address_space: read it in the source, install the copy in the child. */
    method CopyPage(src: Frame, child: Frame, i: nat, k: nat, e: Word,
                    ghost m1: Memory, ghost o1: Owners, ghost free1: set<nat>, ghost a1: nat) returns (ok: bool)
      requires Valid() && cr3 == src && src in live && child in live
      requires CloneAccount(child, m1, o1, free1, mem, owner, pmm.free) && CopiedUpTo(src, child, m1, o1, mem, i, k)
      requires i < USER_SLOTS && k < 1024 && Lookup(m1, src, i, k) == Some(e) && e.flags.writable
      requires Lookup(mem, src, i, k) == Some(e) && e.frame in o1 && e.frame != child
      requires Paid(m1, src, mem, child, i, k, a1, Left())
      modifies this`mem, this`owner, this`cr3, pmm`free, pmm`usedPages, pmm.bitmap
      ensures Valid() && CloneAccount(child, m1, o1, free1, mem, owner, pmm.free)
      ensures ok ==> cr3 == src && CopiedUpTo(src, child, m1, o1, mem, i, k + 1)
      ensures ok ==> Paid(m1, src, mem, child, i, k + 1, a1, Left())
      ensures !ok ==> a1 < SpaceCost(m1, src, USER_SLOTS)
    {
      hide Valid;
      hide Lookup;
      hide Paid;
      hide SpaceCost;
      hide Avail;
      hide CloneAccount;
      assert Lookup(mem, child, i, k) == None;
      hide CopiedUpTo;
      AccountFacts(child, m1, o1, free1, mem, owner, pmm.free, e.frame);
      LookupPresent(mem, src, i, k);
      Leaves(child);
      var data := ReadPage(i, k);
      SwitchAddressSpace(child);
      ghost var m, o, free, left := mem, owner, pmm.free, Left();
      ok := InstallCopy(i, k, data, e.flags);
      if !ok { PaidFails(m1, src, m, child, i, k, a1, left); }
      if ok {
        PaidCopy(m1, src, m, child, i, k, a1, left, mem, Left());
        CopiesStep(src, child, m1, o1, m, o, free, mem, owner, pmm.free, i, k, e);
        AccountStep(child, m1, o1, free1, m, o, free, mem, owner, pmm.free, i, k, data, e.flags);
        SwitchAddressSpace(src);
      }
    }

    /** The loops of vmm_clone_address_space, started in the source space. */
    method CopyAll(src: Frame, child: Frame, ghost m1: Memory, ghost o1: Owners, ghost live1: set<Frame>,
                   ghost free1: set<nat>, ghost a1: nat) returns (ok: bool)
      requires Valid() && cr3 == src && live == live1 && src in live && child in live && src != child
      requires Owned(m1, live1, o1) && AllWritable(m1, src)
      requires CloneAccount(child, m1, o1, free1, mem, owner, pmm.free) && CopiedUpTo(src, child, m1, o1, mem, 0, 0)
      requires Paid(m1, src, mem, child, 0, 0, a1, Left())
      modifies this`mem, this`owner, this`cr3, pmm`free, pmm`usedPages, pmm.bitmap
      ensures Valid() && CloneAccount(child, m1, o1, free1, mem, owner, pmm.free)
      ensures ok ==> CopiedUpTo(src, child, m1, o1, mem, USER_SLOTS, 0) && UserBits(m1, src, mem, child)
      ensures ok <==> a1 >= SpaceCost(m1, src, USER_SLOTS)
    {
      hide Valid;
      hide Paid;
      hide SpaceCost;
      hide Avail;
      hide Lookup;
      hide CopiedUpTo;
      hide CloneAccount;
      hide Owned;
      hide AllWritable;
      for i := 0 to USER_SLOTS
        invariant Valid() && cr3 == src && CloneAccount(child, m1, o1, free1, mem, owner, pmm.free)
        invariant CopiedUpTo(src, child, m1, o1, mem, i, 0) && Paid(m1, src, mem, child, i, 0, a1, Left())
      {
        ok := CopyTable(src, child, i, m1, o1, live1, free1, a1);
        if !ok { return; }
      }
      PaidAll(m1, src, mem, child, a1, Left());
      return true;
    }

    method CopyTable(src: Frame, child: Frame, i: nat, ghost m1: Memory, ghost o1: Owners, ghost live1: set<Frame>,
                     ghost free1: set<nat>, ghost a1: nat) returns (ok: bool)
      requires Valid() && cr3 == src && live == live1 && src in live && child in live && src != child && i < USER_SLOTS
      requires Owned(m1, live1, o1) && AllWritable(m1, src)
      requires CloneAccount(child, m1, o1, free1, mem, owner, pmm.free) && CopiedUpTo(src, child, m1, o1, mem, i, 0)
      requires Paid(m1, src, mem, child, i, 0, a1, Left())
      modifies this`mem, this`owner, this`cr3, pmm`free, pmm`usedPages, pmm.bitmap
      ensures Valid() && CloneAccount(child, m1, o1, free1, mem, owner, pmm.free)
      ensures ok ==> cr3 == src && CopiedUpTo(src, child, m1, o1, mem, i + 1, 0)
      ensures ok ==> Paid(m1, src, mem, child, i + 1, 0, a1, Left())
      ensures !ok ==> a1 < SpaceCost(m1, src, USER_SLOTS)
    {
      hide Valid;
      hide Paid;
      hide SpaceCost;
      hide Avail;
      hide Lookup;
      hide CopiedUpTo;
      hide CloneAccount;
      hide Owned;
      hide AllWritable;
      SourceSame(src, child, m1, o1, live1, free1, mem, owner, pmm.free);
      var pde := DirectoryEntry(i);
      if !pde.flags.present {
        EmptyTable(src, child, m1, o1, mem, i);
        NoPages(m1, src, i);
        PaidNoTable(m1, src, mem, child, i, a1, Left());
        return true;
      }
      for k := 0 to 1024
        invariant Valid() && cr3 == src && CloneAccount(child, m1, o1, free1, mem, owner, pmm.free)
        invariant CopiedUpTo(src, child, m1, o1, mem, i, k) && Paid(m1, src, mem, child, i, k, a1, Left())
      {
        SourceSame(src, child, m1, o1, live1, free1, mem, owner, pmm.free);
        var e := TableEntry(i, k);
        SourceEntry(src, child, m1, o1, live1, mem, i, k);
        if e.flags.present {
          ok := CopyPage(src, child, i, k, e, m1, o1, free1, a1);
          if !ok { return; }
        } else {
          EmptyEntry(src, child, m1, o1, mem, i, k);
          PaidEmpty(m1, src, mem, child, i, k, a1, Left());
        }
      }
      EndOfTable(src, child, m1, o1, mem, i);
      PaidTable(m1, src, mem, child, i, a1, Left());
      return true;
    }

    /** The copying part of vmm_clone_address_space, from and back to the caller's space. */
    method CopyIn(src: Frame, child: Frame, bufferOk: bool,
                  ghost m1: Memory, ghost o1: Owners, ghost live1: set<Frame>, ghost free1: set<nat>, ghost a1: nat)
      returns (ok: bool)
      requires Valid() && live == live1 && src in live && child in live && src != child && cr3 in live
      requires Owned(m1, live1, o1) && AllWritable(m1, src)
      requires CloneAccount(child, m1, o1, free1, mem, owner, pmm.free) && CopiedUpTo(src, child, m1, o1, mem, 0, 0)
      requires Paid(m1, src, mem, child, 0, 0, a1, Left())
      modifies this`mem, this`owner, this`cr3, pmm`free, pmm`usedPages, pmm.bitmap
      ensures Valid() && cr3 == old(cr3) && CloneAccount(child, m1, o1, free1, mem, owner, pmm.free)
      ensures ok ==> CopiedUpTo(src, child, m1, o1, mem, USER_SLOTS, 0) && UserBits(m1, src, mem, child)
      ensures ok <==> bufferOk && a1 >= SpaceCost(m1, src, USER_SLOTS)
    {
      hide Valid;
      hide Paid;
      hide SpaceCost;
      hide Avail;
      hide CloneAccount;
      hide CopiedUpTo;
      hide Owned;
      hide AllWritable;
      if !bufferOk { return false; }
      var saved := cr3;
      if saved != src { SwitchAddressSpace(src); }
      ok := CopyAll(src, child, m1, o1, live1, free1, a1);
      SwitchAddressSpace(saved);
    }

    /** vmm_clone_address_space: 0 on failure.  `bufferOk` is whether kmalloc gave the copy buffer. */
    method CloneAddressSpace(src: Frame, bufferOk: bool) returns (child: Frame)
      requires Valid() && src in live && AllWritable(mem, src)
      modifies this`mem, this`owner, this`live, this`cr3, pmm`free, pmm`usedPages, pmm.bitmap
      ensures Valid() && cr3 == old(cr3)
      ensures UserHalvesSame(old(mem), mem, old(live))
      // on failure nothing is left behind but, at most, the caller's own scratch table
      ensures child == 0 ==> live == old(live)
      ensures child == 0 ==> pmm.free == old(pmm.free) - ScratchCost(old(mem), mem, cr3)
      // on success the child is a private copy
      ensures child != 0 ==> child !in old(live) && live == old(live) + {child}
      ensures child != 0 ==> IsClone(old(mem), src, mem, child, old(pmm.free))
      ensures child != 0 ==> ClonedForUser(old(mem), src, mem, child)
      ensures child != 0 ==> pmm.free == old(pmm.free) - ScratchCost(old(mem), mem, cr3) - SpaceFrames(owner, child)
      ensures child != 0 ==> SpaceFrames(owner, child) <= old(pmm.free) - ScratchCost(old(mem), mem, cr3)
      ensures child != 0 ==> mem[cr3][SCRATCH_SLOT].flags.present
      // and it succeeds exactly when there is a buffer and the frames reach
      ensures child != 0 <==>
        bufferOk && old(Left()) >= DirectoryCost(old(mem), cr3) + SpaceCost(old(mem), src, USER_SLOTS)
    {
      var saved := cr3;
      hide Paid;
      hide SpaceCost;
      hide Avail;
      hide Lookup;
      hide Valid;
      hide Owned;
      hide Accounted;
      hide AllWritable;
      hide CreateEffect;
      hide DestroyEffect;
      hide CloneAccount;
      hide CopiedUpTo;
      hide UserHalvesSame;
      hide IsClone;
      hide SpaceFrames;
      hide ScratchCost;
      Facts();
      child := CreateAddressSpace();
      if child == 0 {
        NothingChanged(mem, live, saved);
        return;
      }
      ghost var m1, o1, live1, free1 := mem, owner, live, pmm.free;
      Facts();
      AfterCreate(old(mem), old(owner), old(live), old(pmm.free), m1, o1, live1, free1, pmm.totalPages, saved, child,
                  src);
      ghost var a1 := Left();
      CloneStart(old(mem), old(live), m1, src, child, saved, a1, old(owner), old(pmm.free), o1, live1, free1);
      var ok := CopyIn(src, child, bufferOk, m1, o1, live1, free1, a1);
      ghost var m, o, free := mem, owner, pmm.free;
      Facts();
      CopyKeeps(old(mem), old(live), m1, o1, live1, free1, m, o, free, pmm.totalPages, saved, child);
      if ok {
        IsCloneOf(old(mem), old(owner), old(live), old(pmm.free), m1, o1, live1, free1, m, pmm.totalPages, saved,
                  child, src);
        ReachedByUser(old(mem), old(live), m1, src, m, child, old(pmm.free));
      } else {
        DestroyAddressSpace(child);
        DestroyKeeps(old(mem), old(live), m, o, live1, free, mem, owner, pmm.free, saved, child);
        child := 0;
      }
    }

    /** Create, then destroy: the exact free frames come back, save a scratch table the caller now has. */
    method CreateThenDestroy() returns (pd: Frame)
      requires Valid()
      modifies this`mem, this`owner, this`live, this`cr3, pmm`free, pmm`usedPages, pmm.bitmap
      ensures Valid() && cr3 == old(cr3) && live == old(live)
      ensures pmm.free == old(pmm.free) - ScratchCost(old(mem), mem, cr3)
      ensures old(mem)[cr3][SCRATCH_SLOT].flags.present ==> pmm.free == old(pmm.free)
    {
      hide Lookup;
      hide Valid;
      Facts();
      pd := CreateAddressSpace();
      if pd != 0 {
        ghost var m1, o1, free1 := mem, owner, pmm.free;
        Facts();
        OnlyDirectory(m1, o1, live, pd);
        DestroyAddressSpace(pd);
      }
    }

    /** Clone, then destroy the clone. */
    method CloneThenDestroy(src: Frame, bufferOk: bool) returns (child: Frame)
      requires Valid() && src in live && AllWritable(mem, src)
      modifies this`mem, this`owner, this`live, this`cr3, pmm`free, pmm`usedPages, pmm.bitmap
      ensures Valid() && cr3 == old(cr3) && live == old(live) && UserHalvesSame(old(mem), mem, old(live))
      ensures pmm.free == old(pmm.free) - ScratchCost(old(mem), mem, cr3)
      ensures old(mem)[cr3][SCRATCH_SLOT].flags.present ==> pmm.free == old(pmm.free)
    {
      hide Lookup;
      hide Valid;
      hide Owned;
      hide AllWritable;
      hide UserHalvesSame;
      hide SpaceFrames;
      hide DestroyEffect;
      hide IsClone;
      Facts();
      child := CloneAddressSpace(src, bufferOk);
      if child != 0 {
        ghost var m1, o1, live1, free1 := mem, owner, live, pmm.free;
        Facts();
        DestroyAddressSpace(child);
        DestroyKeeps(old(mem), old(live), m1, o1, live1, free1, mem, owner, pmm.free, cr3, child);
      }
    }

    lemma Facts()
      requires Valid()
      ensures Owned(mem, live, owner) && Accounted(owner, pmm.free, pmm.totalPages) && cr3 in live
    {
    }

    lemma Leaves(pd: Frame)
      requires Valid() && pd in live
      ensures LeavesOwned(mem, owner, pd)
    {
      assert SpaceOk(mem, owner, pd);
    }
  }

  /** A held frame is no live directory and no table of the space cur, whose scratch window can be written. */
  lemma HeldApart(m: Memory, live: set<Frame>, owner: Owners, cur: Frame, f: Frame)
    requires Owned(m, live, owner) && cur in live && Owns(owner, f, Held) && m[cur][SCRATCH_SLOT].flags.present
    ensures Recursive(m, cur) && m[cur][SCRATCH_SLOT].flags.writable
    ensures f !in live && f != cur && f != m[cur][SCRATCH_SLOT].frame
    ensures forall g :: g in owner && (owner[g].Dir? || owner[g].Table?) ==> g != f
  {
    hide ClaimOk;
    assert SpaceOk(m, owner, cur);
    assert f in live ==> SpaceOk(m, owner, f);
  }

  /** What vmm_create_address_space takes: the directory, and a scratch table the caller lacks. */
  function DirectoryCost(m: Memory, cur: Frame): nat { if m[cur][SCRATCH_SLOT].flags.present then 1 else 2 }

  /** Of the directory only slot i has changed, and it is present. */
  ghost predicate OnlySlot(m: Memory, m': Memory, pd: Frame, i: nat, user: bool)
    requires i < 1024
  {
    && m'[pd][i].flags.present
    && m'[pd][i].flags.user == (if m[pd][i].flags.present then m[pd][i].flags.user else user)
    && forall a :: 0 <= a < USER_SLOTS && a != i ==> m'[pd][a] == m[pd][a]
  }

  lemma OneSlot(m: Memory, m': Memory, pd: Frame, i: nat, k: nat, t: Frame, e: Word)
    requires i < USER_SLOTS && k < 1024 && t != pd && m' == Poke(TableReady(m, pd, i, t, e.flags.user), t, k, e)
    ensures OnlySlot(m, m', pd, i, e.flags.user)
  {
  }

  ghost predicate LeavesOwned(m: Memory, o: Owners, pd: Frame) {
    && Owns(o, pd, Dir(pd))
    && forall a, b :: 0 <= a < USER_SLOTS && 0 <= b < 1024 && Lookup(m, pd, a, b).Some? ==>
         Owns(o, Lookup(m, pd, a, b).value.frame, Leaf(pd, a, b))
  }

  /** Slot (i, k) of pd, empty in (m, o, free), maps the new frame f in (m', o', free'). */
  ghost predicate FreshEffect(m: Memory, o: Owners, free: set<nat>, m': Memory, o': Owners, free': set<nat>,
                              pd: Frame, i: nat, k: nat, f: Frame, flags: Flags)
    requires i < USER_SLOTS && k < 1024
  {
    var t := m'[pd][i].frame;
    var table := if m[pd][i].flags.present then {} else {t};
    && Lookup(m', pd, i, k) == Some(Word(f, flags))
    && f in free && f !in o && table <= free && f !in table
    && free' == free - {f} - table
    && o' == (if table == {} then o else o[t := Table(pd, i)])[f := Leaf(pd, i, k)]
    && (table != {} ==> t !in o)
    && (forall g: Frame :: g != pd && g != t ==> m'[g] == m[g])
    && (forall a, b :: 0 <= a < USER_SLOTS && 0 <= b < 1024 && (a != i || b != k) ==>
          Lookup(m', pd, a, b) == Lookup(m, pd, a, b))
  }

  lemma FreshMapped(m: Memory, o: Owners, free: set<nat>, m': Memory, o': Owners, free': set<nat>,
                    pd: Frame, i: nat, k: nat, f: Frame, flags: Flags)
    requires i < USER_SLOTS && k < 1024 && FreshEffect(m, o, free, m', o', free', pd, i, k, f, flags)
    ensures Lookup(m', pd, i, k) == Some(Word(f, flags))
  {
    hide Lookup;
  }

  lemma FreshFilled(m: Memory, o: Owners, free: set<nat>, m1: Memory, o': Owners, free': set<nat>, m': Memory,
                    pd: Frame, i: nat, k: nat, f: Frame, data: PageData, flags: Flags)
    requires i < USER_SLOTS && k < 1024 && FreshEffect(m, o, free, m1, o', free', pd, i, k, f, flags)
    requires OnlySlot(m, m1, pd, i, flags.user)
    requires m' == m1[f := data] && m'[pd] == m1[pd] && f != m1[pd][i].frame && Owns(o', m'[pd][i].frame, Table(pd, i))
    requires forall a, b :: 0 <= a < USER_SLOTS && 0 <= b < 1024 ==> Lookup(m', pd, a, b) == Lookup(m1, pd, a, b)
    ensures InstallEffect(m, o, free, m', o', free', pd, i, k, data, flags) && OnlySlot(m, m', pd, i, flags.user)
  {
    hide Lookup;
  }

  /** Slot (i, k) of pd, empty in (m, o, free), holds `data` in a new frame in (m', o', free'). */
  ghost predicate InstallEffect(m: Memory, o: Owners, free: set<nat>, m': Memory, o': Owners, free': set<nat>,
                                pd: Frame, i: nat, k: nat, data: PageData, flags: Flags)
    requires i < USER_SLOTS && k < 1024
  {
    Lookup(m', pd, i, k).Some? &&
    var f, t := Lookup(m', pd, i, k).value.frame, m'[pd][i].frame;
    var table := if m[pd][i].flags.present then {} else {t};
    && Lookup(m', pd, i, k).value.flags == flags
    && m'[f] == data
    && f in free && f !in o && table <= free && f !in table
    && free' == free - {f} - table
    && o' == (if table == {} then o else o[t := Table(pd, i)])[f := Leaf(pd, i, k)]
    && (if table == {} then Owns(o, t, Table(pd, i)) else t !in o)
    && (forall g: Frame :: g != pd && g != t && g != f ==> m'[g] == m[g])
    && (forall a, b :: 0 <= a < USER_SLOTS && 0 <= b < 1024 && (a != i || b != k) ==>
          Lookup(m', pd, a, b) == Lookup(m, pd, a, b))
  }

  /** Since the child was created (memory m1, owners o1, free frames free1): every frame taken belongs to
      the child, and no other frame has changed. */
  ghost predicate CloneAccount(child: Frame, m1: Memory, o1: Owners, free1: set<nat>, m: Memory, o: Owners,
                               free: set<nat>) {
    && Owns(o1, child, Dir(child))
    && (forall f: Frame :: f in free1 <==> f !in o1)
    && (forall f: Frame :: f in o1 && f != child ==> m[f] == m1[f])
    && (forall f: Frame :: f in free1 <==> f in free || (f in o && BelongsTo(o[f], child) && f != child))
    && (forall f :: f in o1 ==> Owns(o, f, o1[f]))
  }

  /** The two loops of vmm_clone_address_space have copied every page before slot (i, k). */
  ghost predicate CopiedUpTo(src: Frame, child: Frame, m1: Memory, o1: Owners, m: Memory, i: nat, k: nat) {
    forall a, b :: 0 <= a < USER_SLOTS && 0 <= b < 1024 ==>
      if a < i || (a == i && b < k) then CopyOf(m1, src, m, child, o1, a, b)
      else Lookup(m, child, a, b) == None
  }

  /** Every user page of the space may be stored to, as every mapping this kernel makes allows. */
  ghost predicate AllWritable(m: Memory, pd: Frame) {
    forall a, b :: 0 <= a < USER_SLOTS && 0 <= b < 1024 && Lookup(m, pd, a, b).Some? ==>
      Lookup(m, pd, a, b).value.flags.writable
  }

  lemma SourceSame(src: Frame, child: Frame, m1: Memory, o1: Owners, live1: set<Frame>, free1: set<nat>,
                   m: Memory, o: Owners, free: set<nat>)
    requires Owned(m1, live1, o1) && src in live1 && src != child
    requires CloneAccount(child, m1, o1, free1, m, o, free)
    ensures m[src] == m1[src] && Owns(o1, child, Dir(child))
    ensures forall a, b :: 0 <= a < USER_SLOTS && 0 <= b < 1024 ==> Lookup(m, src, a, b) == Lookup(m1, src, a, b)
  {
    assert SpaceOk(m1, o1, src);
  }

  lemma SourceEntry(src: Frame, child: Frame, m1: Memory, o1: Owners, live1: set<Frame>, m: Memory, i: nat, k: nat)
    requires Owned(m1, live1, o1) && src in live1 && AllWritable(m1, src) && Owns(o1, child, Dir(child))
    requires i < USER_SLOTS && k < 1024 && m[src][i].flags.present
    requires Lookup(m, src, i, k) == Lookup(m1, src, i, k)
    ensures var e := m[m[src][i].frame][k];
            if e.flags.present then
              Lookup(m1, src, i, k) == Some(e) && e.flags.writable && e.frame in o1 && e.frame != child
            else Lookup(m1, src, i, k) == None
  {
    assert SpaceOk(m1, o1, src);
  }

  lemma NoPages(m: Memory, src: Frame, i: nat)
    requires i < USER_SLOTS && !m[src][i].flags.present
    ensures forall b :: 0 <= b < 1024 ==> Lookup(m, src, i, b).None?
  {
  }

  lemma EmptyTable(src: Frame, child: Frame, m1: Memory, o1: Owners, m: Memory, i: nat)
    requires i < USER_SLOTS && !m1[src][i].flags.present && CopiedUpTo(src, child, m1, o1, m, i, 0)
    ensures CopiedUpTo(src, child, m1, o1, m, i + 1, 0)
  {
  }

  lemma EmptyEntry(src: Frame, child: Frame, m1: Memory, o1: Owners, m: Memory, i: nat, k: nat)
    requires i < USER_SLOTS && k < 1024 && Lookup(m1, src, i, k) == None && CopiedUpTo(src, child, m1, o1, m, i, k)
    ensures CopiedUpTo(src, child, m1, o1, m, i, k + 1)
  {
    hide Lookup;
  }

  lemma EndOfTable(src: Frame, child: Frame, m1: Memory, o1: Owners, m: Memory, i: nat)
    requires i < USER_SLOTS && CopiedUpTo(src, child, m1, o1, m, i, 1024)
    ensures CopiedUpTo(src, child, m1, o1, m, i + 1, 0)
  {
    hide Lookup;
  }

  /** No user page of the given spaces has moved or changed. */
  ghost predicate UserHalvesSame(m: Memory, m': Memory, spaces: set<Frame>) {
    forall q, a, b :: q in spaces && 0 <= a < USER_SLOTS && 0 <= b < 1024 ==>
      && Lookup(m', q, a, b) == Lookup(m, q, a, b)
      && (Lookup(m, q, a, b).Some? ==> m'[Lookup(m, q, a, b).value.frame] == m[Lookup(m, q, a, b).value.frame])
  }

  /** The user half of child is a copy of src's: the same pages with the same flags and contents, each in a
      frame that was free. */
  ghost predicate IsClone(m: Memory, src: Frame, m': Memory, child: Frame, free: set<nat>) {
    forall a, b :: 0 <= a < USER_SLOTS && 0 <= b < 1024 ==>
      match Lookup(m, src, a, b)
      case None => Lookup(m', child, a, b) == None
      case Some(e) =>
        Lookup(m', child, a, b).Some? &&
        var c := Lookup(m', child, a, b).value;
        c.flags == e.flags && c.frame in free && m'[c.frame] == m[e.frame]
  }

  /** What code in ring 3 can reach in a clone: the user pages of every table whose first page is a user page. */
  ghost predicate ClonedForUser(m: Memory, src: Frame, m': Memory, child: Frame) {
    forall v: VAddr :: PdIndex(v) < USER_SLOTS ==>
      (UserWalk(m', child, v).Some? <==> UserPage(m, src, PdIndex(v), PtIndex(v)) && FirstUser(m, src, PdIndex(v)))
  }

  predicate UserPage(m: Memory, pd: Frame, i: nat, k: nat)
    requires i < 1024 && k < 1024
  {
    Lookup(m, pd, i, k).Some? && Lookup(m, pd, i, k).value.flags.user
  }

  lemma ReachedByUser(m0: Memory, live0: set<Frame>, m1: Memory, src: Frame, m: Memory, child: Frame, free0: set<nat>)
    requires UserHalvesSame(m0, m1, live0) && src in live0 && UserBits(m1, src, m, child)
    requires IsClone(m0, src, m, child, free0)
    ensures ClonedForUser(m0, src, m, child)
  {
    forall v: VAddr | PdIndex(v) < USER_SLOTS
      ensures UserWalk(m, child, v).Some? <==>
        UserPage(m0, src, PdIndex(v), PtIndex(v)) && FirstUser(m0, src, PdIndex(v))
    {
      var i, k := PdIndex(v), PtIndex(v);
      hide PdIndex;
      hide PtIndex;
      UserWalkIs(m, child, v);
      hide UserWalk;
      hide Lookup;
      FirstUserSame(m0, m1, src, i);
      hide FirstUser;
    }
  }

  lemma UserWalkIs(m: Memory, pd: Frame, v: VAddr)
    ensures UserWalk(m, pd, v).Some? <==> m[pd][PdIndex(v)].flags.user && UserPage(m, pd, PdIndex(v), PtIndex(v))
    ensures UserPage(m, pd, PdIndex(v), PtIndex(v)) ==> m[pd][PdIndex(v)].flags.present
  {
    hide PdIndex;
    hide PtIndex;
  }

  /** So a clone lets the user reach whatever page he reaches in the source, in tables that hold user pages only. */
  lemma UserPagesReached(m: Memory, src: Frame, m': Memory, child: Frame, v: VAddr)
    requires ClonedForUser(m, src, m', child) && PdIndex(v) < USER_SLOTS && UserWalk(m, src, v).Some?
    requires forall b :: 0 <= b < 1024 && Lookup(m, src, PdIndex(v), b).Some? ==> UserPage(m, src, PdIndex(v), b)
    ensures UserWalk(m', child, v).Some?
  {
    var i, k := PdIndex(v), PtIndex(v);
    hide PdIndex;
    hide PtIndex;
    UserWalkIs(m, src, v);
    hide UserWalk;
    hide Lookup;
    var b := FirstPageOf(m, src, i, k);
    OneFirst(m, src, i, b);
  }

  lemma {:induction false} FirstPageOf(m: Memory, src: Frame, i: nat, k: nat) returns (b: nat)
    requires i < USER_SLOTS && k < 1024 && Lookup(m, src, i, k).Some?
    ensures b < 1024 && IsFirst(m, src, i, b)
    decreases k
  {
    hide Lookup;
    if HasPage(m, src, i, k) {
      var c :| 0 <= c < k && Lookup(m, src, i, c).Some?;
      b := FirstPageOf(m, src, i, c);
    } else {
      b := k;
    }
  }

  /** The scratch table a space gained between two memories. */
  ghost function ScratchCost(m: Memory, m': Memory, pd: Frame): set<nat> {
    if !m[pd][SCRATCH_SLOT].flags.present && m'[pd][SCRATCH_SLOT].flags.present
    then {m'[pd][SCRATCH_SLOT].frame}
    else {}
  }

  /** Right after vmm_create_address_space nothing has been copied and only the directory is the child's. */
  lemma AfterCreate(m: Memory, o: Owners, live: set<Frame>, free: set<nat>,
                    m1: Memory, o1: Owners, live1: set<Frame>, free1: set<nat>,
                    total: nat, cur: Frame, child: Frame, src: Frame)
    requires Owned(m, live, o) && Accounted(o, free, total) && cur in live
    requires Owned(m1, live1, o1) && Accounted(o1, free1, total)
    requires CreateEffect(m, o, live, free, m1, o1, live1, free1, cur, child)
    requires src in live && AllWritable(m, src)
    ensures CloneAccount(child, m1, o1, free1, m1, o1, free1) && CopiedUpTo(src, child, m1, o1, m1, 0, 0)
    ensures AllWritable(m1, src) && UserHalvesSame(m, m1, live)
    ensures live1 == live + {child} && child !in live && m1[cur][SCRATCH_SLOT].flags.present
    ensures child in free && free1 + {child} == free - ScratchCost(m, m1, cur)
  {
    forall f | f in o1 && BelongsTo(o1[f], child)
      ensures f == child
    {
      assert ClaimOk(m1, live1, f, o1[f]);
    }
    assert SpaceOk(m, o, cur);
    forall q | q in live
      ensures LeavesOwned(m, o, q)
    {
      assert SpaceOk(m, o, q);
    }
  }

  /** Copying leaves every other space alone, and what it took from the free frames is the child's. */
  lemma CloneStart(m: Memory, live: set<Frame>, m1: Memory, src: Frame, child: Frame, cur: Frame, a1: nat,
                   o: Owners, free: set<nat>, o1: Owners, live1: set<Frame>, free1: set<nat>)
    requires CreateEffect(m, o, live, free, m1, o1, live1, free1, cur, child) && src in live
    ensures Paid(m1, src, m1, child, 0, 0, a1, a1)
    ensures SpaceCost(m1, src, USER_SLOTS) == SpaceCost(m, src, USER_SLOTS)
  {
    hide Lookup;
    hide SpaceCost;
    hide Paid;
    SpaceCostSame(m, m1, src, USER_SLOTS);
    PaidStart(m1, src, m1, child, a1);
  }

  lemma CopyKeeps(m0: Memory, live0: set<Frame>, m1: Memory, o1: Owners, live1: set<Frame>, free1: set<nat>,
                  m: Memory, o: Owners, free: set<nat>, total: nat, cur: Frame, child: Frame)
    requires Owned(m1, live1, o1) && live1 == live0 + {child} && child !in live0 && cur in live0
    requires UserHalvesSame(m0, m1, live0) && CloneAccount(child, m1, o1, free1, m, o, free)
    requires Accounted(o1, free1, total) && Accounted(o, free, total)
    ensures UserHalvesSame(m0, m, live0) && m[cur] == m1[cur] && ScratchCost(m0, m, cur) == ScratchCost(m0, m1, cur)
    ensures free + SpaceFrames(o, child) == free1 + {child} && free !! SpaceFrames(o, child)
  {
    forall q, a, b | q in live0 && 0 <= a < USER_SLOTS && 0 <= b < 1024
      ensures Lookup(m, q, a, b) == Lookup(m1, q, a, b)
      ensures Lookup(m1, q, a, b).Some? ==> m[Lookup(m1, q, a, b).value.frame] == m1[Lookup(m1, q, a, b).value.frame]
    {
      assert SpaceOk(m1, o1, q);
    }
    assert SpaceOk(m1, o1, cur);
    forall f: nat | f in free + free1 || f in o
      ensures f in free + SpaceFrames(o, child) <==> f in free1 + {child}
    {
      var g: Frame := f;
      assert g in free1 <==> g in free || (g in o && BelongsTo(o[g], child) && g != child);
    }
  }

  lemma IsCloneOf(m0: Memory, o0: Owners, live0: set<Frame>, free0: set<nat>,
                  m1: Memory, o1: Owners, live1: set<Frame>, free1: set<nat>,
                  m: Memory, total: nat, cur: Frame, child: Frame, src: Frame)
    requires Accounted(o0, free0, total) && Accounted(o1, free1, total) && src in live0
    requires CreateEffect(m0, o0, live0, free0, m1, o1, live1, free1, cur, child)
    requires UserHalvesSame(m0, m1, live0) && CopiedUpTo(src, child, m1, o1, m, USER_SLOTS, 0)
    ensures IsClone(m0, src, m, child, free0)
  {
    hide Lookup;
    forall a, b | 0 <= a < USER_SLOTS && 0 <= b < 1024
      ensures CopyOf(m1, src, m, child, o1, a, b) && Lookup(m0, src, a, b) == Lookup(m1, src, a, b)
    {
    }
  }

  lemma DestroyKeeps(m0: Memory, live0: set<Frame>, m: Memory, o: Owners, live1: set<Frame>, free: set<nat>,
                     m': Memory, o': Owners, free': set<nat>, cur: Frame, child: Frame)
    requires Owned(m, live1, o) && live1 == live0 + {child} && child !in live0 && cur in live0
    requires UserHalvesSame(m0, m, live0) && m[cur][SCRATCH_SLOT].flags.present
    requires DestroyEffect(m, o, live1, free, m', o', free', cur, child)
    ensures UserHalvesSame(m0, m', live0) && ScratchCost(m0, m', cur) == ScratchCost(m0, m, cur)
    ensures free' == free + SpaceFrames(o, child)
  {
    assert SpaceOk(m, o, cur);
    forall q, a, b | q in live0 && 0 <= a < USER_SLOTS && 0 <= b < 1024
      ensures Lookup(m', q, a, b) == Lookup(m, q, a, b)
      ensures Lookup(m, q, a, b).Some? ==> m'[Lookup(m, q, a, b).value.frame] == m[Lookup(m, q, a, b).value.frame]
    {
      assert SpaceOk(m, o, q);
    }
  }

  lemma NothingChanged(m: Memory, spaces: set<Frame>, cur: Frame)
    ensures UserHalvesSame(m, m, spaces) && ScratchCost(m, m, cur) == {}
  {
  }

  lemma OnlyDirectory(m: Memory, o: Owners, live: set<Frame>, pd: Frame)
    requires Owned(m, live, o) && pd in live
    requires forall a, b :: 0 <= a < USER_SLOTS && 0 <= b < 1024 ==> Lookup(m, pd, a, b) == None
    requires forall a :: 0 <= a < USER_SLOTS ==> m[pd][a] == ZERO
    ensures SpaceFrames(o, pd) == {pd}
  {
    assert SpaceOk(m, o, pd);
    forall f | f in o && BelongsTo(o[f], pd)
      ensures f == pd
    {
      assert ClaimOk(m, live, f, o[f]);
    }
  }

  lemma ScratchOwner(m: Memory, o: Owners, live: set<Frame>, cur: Frame)
    requires Owned(m, live, o) && cur in live
    ensures Owns(o, cur, Dir(cur))
    ensures m[cur][SCRATCH_SLOT].flags.present ==> Owns(o, m[cur][SCRATCH_SLOT].frame, Scratch(cur))
  {
    assert SpaceOk(m, o, cur);
  }

  lemma LookupPresent(m: Memory, pd: Frame, i: nat, k: nat)
    requires i < 1024 && k < 1024 && Lookup(m, pd, i, k).Some?
    ensures Lookup(m, pd, i, k).value.flags.present
  {
  }

  lemma AccountFacts(child: Frame, m1: Memory, o1: Owners, free1: set<nat>, m: Memory, o: Owners, free: set<nat>,
                     f: Frame)
    requires CloneAccount(child, m1, o1, free1, m, o, free) && f in o1 && f != child
    ensures m[f] == m1[f] && o1.Keys <= o.Keys
  {
  }

  lemma AccountStep(child: Frame, m1: Memory, o1: Owners, free1: set<nat>,
                    m: Memory, o: Owners, free: set<nat>, m': Memory, o': Owners, free': set<nat>,
                    i: nat, k: nat, data: PageData, flags: Flags)
    requires i < USER_SLOTS && k < 1024
    requires CloneAccount(child, m1, o1, free1, m, o, free)
    requires InstallEffect(m, o, free, m', o', free', child, i, k, data, flags)
    ensures CloneAccount(child, m1, o1, free1, m', o', free')
  {
    hide Lookup;
  }

  lemma CopiesStep(src: Frame, child: Frame, m1: Memory, o1: Owners,
                   m: Memory, o: Owners, free: set<nat>, m': Memory, o': Owners, free': set<nat>,
                   i: nat, k: nat, e: Word)
    requires i < USER_SLOTS && k < 1024 && Lookup(m1, src, i, k) == Some(e)
    requires CopiedUpTo(src, child, m1, o1, m, i, k) && LeavesOwned(m, o, child) && o1.Keys <= o.Keys
    requires InstallEffect(m, o, free, m', o', free', child, i, k, m1[e.frame], e.flags)
    ensures CopiedUpTo(src, child, m1, o1, m', i, k + 1)
  {
    hide Lookup;
  }

  /** Page (a, b) of the child is a private copy of the source's: same flags, same words, a frame that was free. */
  ghost predicate CopyOf(m1: Memory, src: Frame, m: Memory, child: Frame, o1: Owners, a: nat, b: nat)
    requires a < USER_SLOTS && b < 1024
  {
    match Lookup(m1, src, a, b)
    case None => Lookup(m, child, a, b) == None
    case Some(e) =>
      Lookup(m, child, a, b).Some? &&
      var c := Lookup(m, child, a, b).value;
      c.flags == e.flags && c.frame !in o1 && m[c.frame] == m1[e.frame]
  }

  /** The scratch page of space cur shows frame f; a scratch table was added if there was none. */
  ghost predicate ScratchEffect(m: Memory, o: Owners, live: set<Frame>, free: set<nat>,
                                m': Memory, o': Owners, free': set<nat>, cur: Frame, f: Frame) {
    var st := m'[cur][SCRATCH_SLOT].frame;
    && m'[cur][SCRATCH_SLOT].flags.present
    && Lookup(m', cur, SCRATCH_SLOT, 0) == Some(Word(f, TABLE_FLAGS))
    && Owns(o', st, Scratch(cur))
    && (if m[cur][SCRATCH_SLOT].flags.present then free' == free && o' == o && m'[cur] == m[cur]
        else st in free && free' == free - {st} && st !in o && o' == o[st := Scratch(cur)])
    && (forall i :: 0 <= i < 1024 && i != SCRATCH_SLOT ==> m'[cur][i] == m[cur][i])
    && (forall g: Frame :: g != cur && g != st ==> m'[g] == m[g])
    && (forall q, a, b :: q in live && 0 <= a < USER_SLOTS && 0 <= b < 1024 ==>
          Lookup(m', q, a, b) == Lookup(m, q, a, b))
  }

  /** Mapping the dead directory and then releasing its frames is the whole destruction. */
  lemma DestroyInTwo(m: Memory, o: Owners, live: set<Frame>, free: set<nat>, m1: Memory, o1: Owners, free1: set<nat>,
                     m': Memory, o': Owners, free': set<nat>, cur: Frame, pd: Frame)
    requires ScratchEffect(m, o, live, free, m1, o1, free1, cur, pd) && pd != cur
    requires m'[cur] == m1[cur] && free' == free1 + SpaceFrames(o1, pd)
    requires forall f :: f in o' ==> f in o1 && o'[f] == Forget(o1, pd)[f]
    requires forall f: Frame :: f != m'[cur][SCRATCH_SLOT].frame ==> m'[f] == m1[f]
    requires forall q, a, b :: q in live && 0 <= a < USER_SLOTS && 0 <= b < 1024 ==>
      Lookup(m', q, a, b) == Lookup(m1, q, a, b)
    ensures DestroyEffect(m, o, live, free, m', o', free', cur, pd)
  {
    hide Lookup;
    assert SpaceFrames(o1, pd) == SpaceFrames(o, pd);
  }

  /** What a successful vmm_create_address_space does for the space cur that calls it. */
  ghost predicate CreateEffect(m: Memory, o: Owners, live: set<Frame>, free: set<nat>,
                               m': Memory, o': Owners, live': set<Frame>, free': set<nat>, cur: Frame, pd: Frame) {
    var st := m'[cur][SCRATCH_SLOT].frame;
    var cost := if m[cur][SCRATCH_SLOT].flags.present then {} else {st};
    && pd in free && cost <= free && pd !in cost
    && free' == free - {pd} - cost
    && m'[cur][SCRATCH_SLOT].flags.present
    && live' == live + {pd} && pd !in live
    && o' == (if cost == {} then o else o[st := Scratch(cur)])[pd := Dir(pd)]
    && (forall f: Frame :: f != pd && f != st && f != cur ==> m'[f] == m[f])
    && (forall i :: 0 <= i < 1024 && i != SCRATCH_SLOT ==> m'[cur][i] == m[cur][i])
    && (forall i :: 0 <= i < 1024 ==>
          m'[pd][i] == (if i == RECURSIVE_ENTRY then Word(pd, TABLE_FLAGS)
                        else if i < USER_SLOTS || i == SCRATCH_SLOT then ZERO else m[cur][i]))
    && (forall q, a, b :: q in live && 0 <= a < USER_SLOTS && 0 <= b < 1024 ==>
          Lookup(m', q, a, b) == Lookup(m, q, a, b))
    && (forall a, b :: 0 <= a < USER_SLOTS && 0 <= b < 1024 ==> Lookup(m', pd, a, b) == None)
  }

  /** What vmm_destroy_address_space does once the space cur that calls it has a scratch table. */
  ghost predicate DestroyEffect(m: Memory, o: Owners, live: set<Frame>, free: set<nat>,
                                m': Memory, o': Owners, free': set<nat>, cur: Frame, pd: Frame) {
    var st := m'[cur][SCRATCH_SLOT].frame;
    var cost := if m[cur][SCRATCH_SLOT].flags.present then {} else {st};
    && cost <= free
    && free' == free - cost + SpaceFrames(o, pd)
    && (forall f :: f in o' && f !in cost ==> f in o && o'[f] == Forget(o, pd)[f])
    && m'[cur][SCRATCH_SLOT].flags.present
    && (cost == {} ==> m'[cur] == m[cur])
    && (forall f: Frame :: f != st && f != cur ==> m'[f] == m[f])
    && (forall q, a, b :: q in live && q != pd && 0 <= a < USER_SLOTS && 0 <= b < 1024 ==>
          Lookup(m', q, a, b) == Lookup(m, q, a, b))
  }

  /** The frames of address space pd. */
  ghost function SpaceFrames(owner: Owners, pd: Frame): (s: set<nat>) {
    set f | f in owner && BelongsTo(owner[f], pd)
  }

  /** What one more table entry adds to the released frames. */
  lemma NextLeaf(m: Memory, live: set<Frame>, o: Owners, pd: Frame, i: nat, k: nat)
    requires Owned(m, live, o) && pd in live && i < USER_SLOTS && k < 1024
    ensures forall f :: f in o ==>
      (Released(o[f], pd, i, k + 1) <==>
        Released(o[f], pd, i, k) || (Lookup(m, pd, i, k).Some? && f == Lookup(m, pd, i, k).value.frame))
    ensures Lookup(m, pd, i, k).Some? ==>
      var f := Lookup(m, pd, i, k).value.frame; f in o && o[f] == Leaf(pd, i, k)
  {
    assert SpaceOk(m, o, pd);
    forall f | f in o
      ensures Released(o[f], pd, i, k + 1) <==>
        Released(o[f], pd, i, k) || (Lookup(m, pd, i, k).Some? && f == Lookup(m, pd, i, k).value.frame)
    {
      assert ClaimOk(m, live, f, o[f]);
    }
  }

  lemma FreedFrames(free: set<nat>, free0: set<nat>, o: Owners, pd: Frame)
    requires forall f: Frame :: f in free <==> f in free0 || (f in o && Released(o[f], pd, USER_SLOTS, 0))
    requires forall f :: f in free + free0 ==> f < MAX_PAGES
    requires pd in o && forall f :: f in o ==> (BelongsTo(o[f], pd) <==> f == pd || Released(o[f], pd, USER_SLOTS, 0))
    ensures free + {pd} == free0 + SpaceFrames(o, pd)
  {
    forall f: nat | f in free + free0 || f in o
      ensures f in free + {pd} <==> f in free0 + SpaceFrames(o, pd)
    {
      var g: Frame := f;
      assert g in free <==> g in free0 || (g in o && Released(o[g], pd, USER_SLOTS, 0));
    }
  }

  /** After the last table only the directory itself is left. */
  lemma AllReleased(m: Memory, live: set<Frame>, o: Owners, pd: Frame)
    requires Owned(m, live, o) && pd in live
    ensures Owns(o, pd, Dir(pd)) && !Released(o[pd], pd, USER_SLOTS, 0)
    ensures forall f :: f in o ==> (BelongsTo(o[f], pd) <==> f == pd || Released(o[f], pd, USER_SLOTS, 0))
  {
    assert SpaceOk(m, o, pd);
    forall f | f in o
      ensures BelongsTo(o[f], pd) <==> f == pd || Released(o[f], pd, USER_SLOTS, 0)
    {
      assert ClaimOk(m, live, f, o[f]);
    }
  }

  /** What one more directory entry adds, once the pages of its table are done. */
  lemma NextTable(m: Memory, live: set<Frame>, o: Owners, pd: Frame, i: nat)
    requires Owned(m, live, o) && pd in live && i < USER_SLOTS
    ensures forall f :: f in o ==>
      (Released(o[f], pd, i + 1, 0) <==>
        Released(o[f], pd, i, 1024) || (m[pd][i].flags.present && f == m[pd][i].frame))
    ensures !m[pd][i].flags.present ==> forall f :: f in o ==>
      (Released(o[f], pd, i + 1, 0) <==> Released(o[f], pd, i, 0))
    ensures m[pd][i].flags.present ==> m[pd][i].frame in o && o[m[pd][i].frame] == Table(pd, i)
  {
    assert SpaceOk(m, o, pd);
    forall f | f in o
      ensures Released(o[f], pd, i + 1, 0) <==>
        Released(o[f], pd, i, 1024) || (m[pd][i].flags.present && f == m[pd][i].frame)
      ensures !m[pd][i].flags.present ==> (Released(o[f], pd, i + 1, 0) <==> Released(o[f], pd, i, 0))
    {
      assert ClaimOk(m, live, f, o[f]);
    }
  }

  /** The loops of vmm_destroy_address_space have freed this frame before reaching table slot i, entry k. */
  predicate Released(o: Owner, pd: Frame, i: nat, k: nat) {
    || (o.Table? && o.pd == pd && o.i < i)
    || (o.Leaf? && o.pd == pd && (o.i < i || (o.i == i && o.k < k)))
  }
}
