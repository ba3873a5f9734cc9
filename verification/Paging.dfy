/**
 Two-level i386 paging as vmm.c uses it: physical memory, the hardware page walk, the recursive
 directory slot, and who owns each physical frame.
 */
module Paging {
  import opened Wrappers

  const SCRATCH_SLOT := 896      // 0xE0000000 >> 22
  const USER_SLOTS := 768        // slots below are the user half
  const RECURSIVE_ENTRY := 1023
  const PAGE_DIR_VIRTUAL := 0xFFFF_F000
  const PAGE_TABLE_BASE := 0xFFC0_0000

  type Frame = n: nat | n < 0x10_0000
  type Rest = n: nat | n < 512
  type VAddr = n: nat | n < 0x1_0000_0000

  /** The low twelve bits of an entry: PTE_PRESENT, PTE_WRITABLE, PTE_USER and the nine bits above them. */
  datatype Flags = Flags(present: bool, writable: bool, user: bool, rest: Rest)

  /** A 32-bit word, split the way the hardware splits an entry. */
  datatype Word = Word(frame: Frame, flags: Flags)

  const ZERO := Word(0, Flags(false, false, false, 0))
  const TABLE_FLAGS := Flags(true, true, false, 0)

  type PageData = p: seq<Word> | |p| == 1024 witness seq(1024, i => ZERO)
  type Memory = m: seq<PageData> | |m| == 0x10_0000 witness seq(0x10_0000, i => seq(1024, j => ZERO))

  function Bit(b: bool): nat { if b then 1 else 0 }

  /** The machine's number for a word, and back. */
  function WordToU32(w: Word): (n: VAddr) {
    w.frame * 4096 + w.flags.rest * 8 + Bit(w.flags.user) * 4 + Bit(w.flags.writable) * 2 + Bit(w.flags.present)
  }

  function U32ToWord(n: VAddr): (w: Word) {
    Word(n / 4096, Flags(n % 2 == 1, n / 2 % 2 == 1, n / 4 % 2 == 1, n % 4096 / 8))
  }

  lemma WordRoundTrip(n: VAddr, w: Word)
    ensures WordToU32(U32ToWord(n)) == n
    ensures U32ToWord(WordToU32(w)) == w
  {
    NumberRoundTrip(n);
    FieldsRoundTrip(w);
  }

  lemma NumberRoundTrip(n: VAddr)
    ensures WordToU32(U32ToWord(n)) == n
  {
    LowBits(n / 8, n % 8);
    FrameBits(n);
  }

  lemma FieldsRoundTrip(w: Word)
    ensures U32ToWord(WordToU32(w)) == w
  {
    var n, q := WordToU32(w), w.frame * 512 + w.flags.rest;
    var bits := Bit(w.flags.user) * 4 + Bit(w.flags.writable) * 2 + Bit(w.flags.present);
    LowBits(q, bits);
    assert n == q * 8 + bits;
    FrameBits(n);
    assert q / 512 == w.frame && q % 512 == w.flags.rest;
  }

  lemma LowBits(q: nat, bits: nat)
    requires bits < 8
    ensures var n := q * 8 + bits;
            && n / 8 == q && n % 2 == bits % 2 && n / 2 % 2 == bits / 2 % 2
            && n / 4 % 2 == bits / 4
  {
    Even(4 * q, bits);
    Even(2 * q, bits / 2);
    Even(q, bits / 4);
    assert (q * 8 + bits) / 4 == (q * 8 + bits) / 2 / 2 && bits / 4 == bits / 2 / 2;
  }

  lemma Even(x: nat, y: nat)
    ensures (2 * x + y) % 2 == y % 2 && (2 * x + y) / 2 == x + y / 2
  {
  }

  lemma FrameBits(n: nat)
    ensures n / 4096 == n / 8 / 512 && n % 4096 / 8 == n / 8 % 512
  {
  }

  function PdIndex(v: VAddr): (i: nat)
    ensures i < 1024
  {
    v / 0x40_0000
  }

  function PtIndex(v: VAddr): (k: nat)
    ensures k < 1024
  {
    v / 4096 % 1024
  }

  function WordIndex(v: VAddr): (j: nat)
    ensures j < 1024
  {
    v % 4096 / 4
  }

  /** The address of word j of the page at directory slot i, table slot k. */
  function Address(i: nat, k: nat, j: nat): (v: VAddr)
    requires i < 1024 && k < 1024 && j < 1024
    ensures PdIndex(v) == i && PtIndex(v) == k && WordIndex(v) == j
  {
    i * 0x40_0000 + k * 4096 + j * 4
  }

  /** A word of physical memory. */
  datatype Place = Place(frame: Frame, index: nat)

  /** The hardware page walk: the physical word an aligned virtual address names. */
  function Walk(m: Memory, cr3: Frame, v: VAddr): (r: Option<Place>)
    ensures r.Some? ==> r.value.index < 1024
  {
    var pde := m[cr3][PdIndex(v)];
    if !pde.flags.present then None else
    var pte := m[pde.frame][PtIndex(v)];
    if !pte.flags.present then None else Some(Place(pte.frame, WordIndex(v)))
  }

  /** The page walk of code in ring 3, which both levels must admit. */
  function UserWalk(m: Memory, cr3: Frame, v: VAddr): Option<Place> {
    var pde := m[cr3][PdIndex(v)];
    var pte := m[pde.frame][PtIndex(v)];
    if pde.flags.present && pde.flags.user && pte.flags.present && pte.flags.user
    then Some(Place(pte.frame, WordIndex(v))) else None
  }

  /** CR0.WP is set (boot.s), so the kernel may store only where both levels are writable. */
  predicate MayStore(m: Memory, cr3: Frame, v: VAddr) {
    && Walk(m, cr3, v).Some?
    && m[cr3][PdIndex(v)].flags.writable
    && m[m[cr3][PdIndex(v)].frame][PtIndex(v)].flags.writable
  }

  function Poke(m: Memory, f: Frame, j: nat, w: Word): (m': Memory)
    requires j < 1024
  {
    m[f := m[f][j := w]]
  }

  /** Directory pd maps itself in its last slot. */
  predicate Recursive(m: Memory, pd: Frame) {
    m[pd][RECURSIVE_ENTRY] == Word(pd, TABLE_FLAGS)
  }

  function DirWindow(i: nat): (v: VAddr)
    requires i < 1024
  {
    PAGE_DIR_VIRTUAL + 4 * i
  }

  function TableWindow(n: nat, k: nat): (v: VAddr)
    requires n < 1024 && k < 1024
  {
    PAGE_TABLE_BASE + 4096 * n + 4 * k
  }

  /** The word at 0xFFFFF000 + 4 i is directory entry i. */
  lemma DirWindowWalk(m: Memory, pd: Frame, i: nat)
    requires i < 1024 && Recursive(m, pd)
    ensures Walk(m, pd, DirWindow(i)) == Some(Place(pd, i)) && MayStore(m, pd, DirWindow(i))
  {
    assert DirWindow(i) == Address(1023, 1023, i);
  }

  /** The word at 0xFFC00000 + 4096 n + 4 k is entry k of page table n. */
  lemma TableWindowWalk(m: Memory, pd: Frame, n: nat, k: nat)
    requires n < 1024 && k < 1024 && Recursive(m, pd) && m[pd][n].flags.present
    ensures Walk(m, pd, TableWindow(n, k)) == Some(Place(m[pd][n].frame, k))
    ensures m[pd][n].flags.writable ==> MayStore(m, pd, TableWindow(n, k))
  {
    assert TableWindow(n, k) == Address(1023, n, k);
  }

  /** The flat view of an address space: the entry behind page (i, k). */
  function Lookup(m: Memory, pd: Frame, i: nat, k: nat): (e: Option<Word>)
    requires i < 1024 && k < 1024
  {
    if m[pd][i].flags.present && m[m[pd][i].frame][k].flags.present then Some(m[m[pd][i].frame][k]) else None
  }

  lemma LookupIsWalk(m: Memory, pd: Frame, v: VAddr)
    ensures var e := Lookup(m, pd, PdIndex(v), PtIndex(v));
            Walk(m, pd, v) == if e.Some? then Some(Place(e.value.frame, WordIndex(v))) else None
  {
  }

  // ---------------------------------------------------------------- ownership

  /** What a used frame is for.  Kernel tables are shared by slot; `Held` is a frame its allocator's caller
      has not placed yet; `Reserved` is everything else the bitmap marks used. */
  datatype Owner =
    | Dir(pd: Frame)
    | Table(pd: Frame, i: nat)
    | Leaf(pd: Frame, i: nat, k: nat)
    | Scratch(pd: Frame)
    | KernelTable(i: nat)
    | Held
    | Reserved

  type Owners = map<Frame, Owner>

  function TableOwner(pd: Frame, i: nat): Owner {
    if i < USER_SLOTS then Table(pd, i) else if i == SCRATCH_SLOT then Scratch(pd) else KernelTable(i)
  }

  predicate Owns(owner: Owners, f: Frame, o: Owner) { f in owner && owner[f] == o }

  /** Directory pd and what hangs from it carry the right owners. */
  ghost predicate SpaceOk(m: Memory, owner: Owners, pd: Frame) {
    && Owns(owner, pd, Dir(pd))
    && Recursive(m, pd)
    && (forall i :: 0 <= i < 1023 && m[pd][i].flags.present ==>
          m[pd][i].flags.writable && Owns(owner, m[pd][i].frame, TableOwner(pd, i)))
    && (forall i, k :: 0 <= i < USER_SLOTS && 0 <= k < 1024 && Lookup(m, pd, i, k).Some? ==>
          Owns(owner, Lookup(m, pd, i, k).value.frame, Leaf(pd, i, k)))
  }

  /** An owner is not a stale claim: the directory or table it names does hold the frame. */
  ghost predicate ClaimOk(m: Memory, live: set<Frame>, f: Frame, o: Owner) {
    match o
    case Dir(pd) => pd == f && pd in live
    case Table(pd, i) => pd in live && i < USER_SLOTS && m[pd][i].flags.present && m[pd][i].frame == f
    case Leaf(pd, i, k) => pd in live && i < USER_SLOTS && k < 1024
                        && Lookup(m, pd, i, k).Some? && Lookup(m, pd, i, k).value.frame == f
    case Scratch(pd) => pd in live && m[pd][SCRATCH_SLOT].flags.present && m[pd][SCRATCH_SLOT].frame == f
    case _ => true
  }

  /** The ownership invariant over all live address spaces. */
  ghost predicate Owned(m: Memory, live: set<Frame>, owner: Owners) {
    && (forall pd :: pd in live ==> SpaceOk(m, owner, pd))
    && (forall f :: f in owner ==> ClaimOk(m, live, f, owner[f]))
  }

  /** A write to a frame that is neither a live directory nor a user table leaves every claim as it was. */
  lemma OwnedFrame(m: Memory, m': Memory, live: set<Frame>, owner: Owners)
    requires Owned(m, live, owner)
    requires forall f :: f in owner && (owner[f].Dir? || owner[f].Table?) ==> m'[f] == m[f]
    ensures Owned(m', live, owner)
    ensures forall pd, i, k :: pd in live && 0 <= i < USER_SLOTS && 0 <= k < 1024 ==>
              Lookup(m', pd, i, k) == Lookup(m, pd, i, k)
  {
    forall pd | pd in live
      ensures m'[pd] == m[pd] && SpaceOk(m', owner, pd)
      ensures forall i, k :: 0 <= i < USER_SLOTS && 0 <= k < 1024 ==> Lookup(m', pd, i, k) == Lookup(m, pd, i, k)
    {
      assert SpaceOk(m, owner, pd);
    }
    forall f | f in owner
      ensures ClaimOk(m', live, f, owner[f])
    {
      assert ClaimOk(m, live, f, owner[f]);
    }
  }

  /** Within one space the tables sit in different frames, none of them the directory. */
  lemma TablesDistinct(m: Memory, owner: Owners, pd: Frame)
    requires SpaceOk(m, owner, pd)
    ensures forall i :: 0 <= i < 1023 && m[pd][i].flags.present ==> m[pd][i].frame != pd
    ensures forall i, j :: 0 <= i < j < 1023 && m[pd][i].flags.present && m[pd][j].flags.present ==>
              m[pd][i].frame != m[pd][j].frame
  {
  }

  /** Two spaces share no user page: a store through one never shows through the other. */
  lemma Isolation(m: Memory, live: set<Frame>, owner: Owners, a: Frame, b: Frame, v: VAddr, u: VAddr, w: Word)
    requires Owned(m, live, owner) && a in live && b in live && a != b
    requires PdIndex(v) < USER_SLOTS && PdIndex(u) < USER_SLOTS
    requires Walk(m, a, v).Some? && Walk(m, b, u).Some?
    ensures var p, q := Walk(m, a, v).value, Walk(m, b, u).value;
            var m' := Poke(m, p.frame, p.index, w);
            && p.frame != q.frame
            && Walk(m', b, u) == Walk(m, b, u)
            && m'[q.frame] == m[q.frame]
            && Owned(m', live, owner)
  {
    LookupIsWalk(m, a, v);
    LookupIsWalk(m, b, u);
    assert SpaceOk(m, owner, a) && SpaceOk(m, owner, b);
    var p := Walk(m, a, v).value;
    assert Owns(owner, p.frame, Leaf(a, PdIndex(v), PtIndex(v)));
    OwnedFrame(m, Poke(m, p.frame, p.index, w), live, owner);
    LookupIsWalk(Poke(m, p.frame, p.index, w), b, u);
  }

  // ---------------------------------------------------------------- steps on the owned memory

  function ZeroPage(): PageData { seq(1024, i => ZERO) }

  /** Slot i of directory pd gets the zeroed table frame pt. */
  function WithTable(m: Memory, pd: Frame, i: nat, pt: Frame, user: bool): Memory
    requires i < 1024
  {
    m[pd := m[pd][i := Word(pt, Flags(true, true, user, 0))]][pt := ZeroPage()]
  }

  /** Installing an empty table changes no mapping of any live space. */
  lemma AddTable(m: Memory, live: set<Frame>, owner: Owners, pd: Frame, i: nat, pt: Frame, user: bool)
    requires Owned(m, live, owner) && pd in live && i < 1023
    requires !m[pd][i].flags.present && pt !in owner
    ensures Owned(WithTable(m, pd, i, pt, user), live, owner[pt := TableOwner(pd, i)])
    ensures forall q, a, b :: q in live && 0 <= a < 1023 && 0 <= b < 1024 ==>
              Lookup(WithTable(m, pd, i, pt, user), q, a, b) == Lookup(m, q, a, b)
  {
    var m', owner' := WithTable(m, pd, i, pt, user), owner[pt := TableOwner(pd, i)];
    forall q | q in live
      ensures SpaceOk(m', owner', q)
      ensures forall a, b :: 0 <= a < 1023 && 0 <= b < 1024 ==> Lookup(m', q, a, b) == Lookup(m, q, a, b)
    {
      AddTableSpace(m, live, owner, pd, i, pt, user, q);
    }
    hide SpaceOk;
    forall f | f in owner'
      ensures ClaimOk(m', live, f, owner'[f])
    {
      AddTableClaim(m, live, owner, pd, i, pt, user, f);
    }
  }

  lemma AddTableSpace(m: Memory, live: set<Frame>, owner: Owners, pd: Frame, i: nat, pt: Frame, user: bool, q: Frame)
    requires Owned(m, live, owner) && pd in live && i < 1023 && q in live
    requires !m[pd][i].flags.present && pt !in owner
    ensures SpaceOk(WithTable(m, pd, i, pt, user), owner[pt := TableOwner(pd, i)], q)
    ensures forall a, b :: 0 <= a < 1023 && 0 <= b < 1024 ==>
              Lookup(WithTable(m, pd, i, pt, user), q, a, b) == Lookup(m, q, a, b)
  {
    hide ClaimOk;
    assert SpaceOk(m, owner, q) && SpaceOk(m, owner, pd);
    var m' := WithTable(m, pd, i, pt, user);
    assert forall a :: 0 <= a < 1024 && (q != pd || a != i) ==> m'[q][a] == m[q][a];
  }

  lemma AddTableClaim(m: Memory, live: set<Frame>, owner: Owners, pd: Frame, i: nat, pt: Frame, user: bool, f: Frame)
    requires Owned(m, live, owner) && pd in live && i < 1023 && (f in owner || f == pt)
    requires !m[pd][i].flags.present && pt !in owner
    ensures ClaimOk(WithTable(m, pd, i, pt, user), live, f, owner[pt := TableOwner(pd, i)][f])
  {
    assert SpaceOk(m, owner, pd);
    if f != pt {
      assert ClaimOk(m, live, f, owner[f]);
      var o := owner[f];
      if o.Dir? || o.Table? || o.Leaf? || o.Scratch? { assert SpaceOk(m, owner, o.pd); }
    }
  }

  /** The owners after entry e, whose frame was held, goes into user slot (i, k) of pd. */
  function PlaceOwner(m: Memory, owner: Owners, pd: Frame, i: nat, k: nat, f: Frame): Owners
    requires i < USER_SLOTS && k < 1024
  {
    var was := Lookup(m, pd, i, k);
    (if was.Some? then owner[was.value.frame := Held] else owner)[f := Leaf(pd, i, k)]
  }

  lemma AddLeaf(m: Memory, live: set<Frame>, owner: Owners, pd: Frame, i: nat, k: nat, e: Word)
    requires Owned(m, live, owner) && pd in live && i < USER_SLOTS && k < 1024
    requires m[pd][i].flags.present && e.flags.present && Owns(owner, e.frame, Held)
    ensures Owned(Poke(m, m[pd][i].frame, k, e), live, PlaceOwner(m, owner, pd, i, k, e.frame))
    ensures forall q, a, b :: q in live && 0 <= a < USER_SLOTS && 0 <= b < 1024 ==>
              Lookup(Poke(m, m[pd][i].frame, k, e), q, a, b)
              == if q == pd && a == i && b == k then Some(e) else Lookup(m, q, a, b)
  {
    var t := m[pd][i].frame;
    var m', owner' := Poke(m, t, k, e), PlaceOwner(m, owner, pd, i, k, e.frame);
    forall q | q in live
      ensures SpaceOk(m', owner', q)
      ensures forall a, b :: 0 <= a < USER_SLOTS && 0 <= b < 1024 ==>
                Lookup(m', q, a, b) == if q == pd && a == i && b == k then Some(e) else Lookup(m, q, a, b)
    {
      AddLeafSpace(m, live, owner, pd, i, k, e, q);
    }
    hide SpaceOk;
    forall f | f in owner'
      ensures ClaimOk(m', live, f, owner'[f])
    {
      AddLeafClaim(m, live, owner, pd, i, k, e, f);
    }
  }

  lemma AddLeafSpace(m: Memory, live: set<Frame>, owner: Owners, pd: Frame, i: nat, k: nat, e: Word, q: Frame)
    requires Owned(m, live, owner) && pd in live && i < USER_SLOTS && k < 1024 && q in live
    requires m[pd][i].flags.present && e.flags.present && Owns(owner, e.frame, Held)
    ensures Poke(m, m[pd][i].frame, k, e)[q] == m[q]
    ensures SpaceOk(Poke(m, m[pd][i].frame, k, e), PlaceOwner(m, owner, pd, i, k, e.frame), q)
    ensures forall a, b :: 0 <= a < USER_SLOTS && 0 <= b < 1024 ==>
              Lookup(Poke(m, m[pd][i].frame, k, e), q, a, b)
              == if q == pd && a == i && b == k then Some(e) else Lookup(m, q, a, b)
  {
    hide ClaimOk;
    assert SpaceOk(m, owner, pd);
    assert SpaceOk(m, owner, q);
  }

  lemma AddLeafClaim(m: Memory, live: set<Frame>, owner: Owners, pd: Frame, i: nat, k: nat, e: Word, f: Frame)
    requires Owned(m, live, owner) && pd in live && i < USER_SLOTS && k < 1024
    requires m[pd][i].flags.present && e.flags.present && Owns(owner, e.frame, Held)
    requires f in PlaceOwner(m, owner, pd, i, k, e.frame)
    ensures ClaimOk(Poke(m, m[pd][i].frame, k, e), live, f, PlaceOwner(m, owner, pd, i, k, e.frame)[f])
  {
    assert SpaceOk(m, owner, pd);
    if f in owner {
      assert ClaimOk(m, live, f, owner[f]);
      var o := owner[f];
      if o.Dir? || o.Table? || o.Leaf? || o.Scratch? { assert SpaceOk(m, owner, o.pd); }
    }
  }

  /** Clearing user slot (i, k) gives its frame back to the caller. */
  lemma RemoveLeaf(m: Memory, live: set<Frame>, owner: Owners, pd: Frame, i: nat, k: nat)
    requires Owned(m, live, owner) && pd in live && i < USER_SLOTS && k < 1024 && Lookup(m, pd, i, k).Some?
    ensures Owned(Poke(m, m[pd][i].frame, k, ZERO), live, owner[Lookup(m, pd, i, k).value.frame := Held])
    ensures forall q, a, b :: q in live && 0 <= a < USER_SLOTS && 0 <= b < 1024 ==>
              Lookup(Poke(m, m[pd][i].frame, k, ZERO), q, a, b)
              == if q == pd && a == i && b == k then None else Lookup(m, q, a, b)
  {
    var t := m[pd][i].frame;
    var m', owner' := Poke(m, t, k, ZERO), owner[Lookup(m, pd, i, k).value.frame := Held];
    assert SpaceOk(m, owner, pd);
    forall q | q in live
      ensures m'[q] == m[q]
      ensures forall a, b :: 0 <= a < USER_SLOTS && 0 <= b < 1024 ==>
                Lookup(m', q, a, b) == if q == pd && a == i && b == k then None else Lookup(m, q, a, b)
      ensures SpaceOk(m', owner', q)
    {
      assert SpaceOk(m, owner, q);
    }
    forall f | f in owner'
      ensures ClaimOk(m', live, f, owner'[f])
    {
      assert ClaimOk(m, live, f, owner[f]);
    }
  }

  lemma TakeHeld(m: Memory, live: set<Frame>, owner: Owners, f: Frame)
    requires Owned(m, live, owner) && f !in owner
    ensures Owned(m, live, owner[f := Held])
  {
    forall pd | pd in live
      ensures SpaceOk(m, owner[f := Held], pd)
    {
      assert SpaceOk(m, owner, pd);
    }
  }

  lemma DropHeld(m: Memory, live: set<Frame>, owner: Owners, f: Frame)
    requires Owned(m, live, owner) && Owns(owner, f, Held)
    ensures Owned(m, live, owner - {f})
  {
    forall pd | pd in live
      ensures SpaceOk(m, owner - {f}, pd)
    {
      assert SpaceOk(m, owner, pd);
    }
  }

  /** The directory vmm_create_address_space builds: an empty user half, the creator's kernel half without
      the scratch table, and itself in the last slot. */
  function NewDirectory(creator: PageData, self: Frame): PageData {
    seq(1024, i requires 0 <= i < 1024 =>
      if i == RECURSIVE_ENTRY then Word(self, TABLE_FLAGS)
      else if i < USER_SLOTS || i == SCRATCH_SLOT then ZERO else creator[i])
  }

  lemma NewSpace(m: Memory, m': Memory, live: set<Frame>, owner: Owners, creator: Frame, pd: Frame)
    requires Owned(m, live, owner) && creator in live && Owns(owner, pd, Held)
    requires m' == m[pd := NewDirectory(m[creator], pd)]
    ensures Owned(m', live + {pd}, owner[pd := Dir(pd)])
    ensures forall i, k :: 0 <= i < USER_SLOTS && 0 <= k < 1024 ==> Lookup(m', pd, i, k) == None
  {
    var owner' := owner[pd := Dir(pd)];
    forall q | q in live + {pd}
      ensures SpaceOk(m', owner', q)
    {
      assert SpaceOk(m, owner, creator);
      if q in live { assert SpaceOk(m, owner, q); }
    }
    forall f | f in owner'
      ensures ClaimOk(m', live + {pd}, f, owner'[f])
    {
      if f != pd { assert ClaimOk(m, live, f, owner[f]); }
    }
  }

  /** Frame belongs to the address space pd: what vmm_destroy_address_space must free. */
  predicate BelongsTo(o: Owner, pd: Frame) {
    o == Dir(pd) || (o.Table? && o.pd == pd) || (o.Leaf? && o.pd == pd)
  }

  /** The owners once pd is no longer an address space: its frames wait to be freed, its own scratch table,
      which destroy never looks at, is lost. */
  function Forget(owner: Owners, pd: Frame): (o: Owners)
    ensures o.Keys == owner.Keys
  {
    map f | f in owner ::
      if BelongsTo(owner[f], pd) then Held else if owner[f] == Scratch(pd) then Reserved else owner[f]
  }

  lemma ForgetSpace(m: Memory, live: set<Frame>, owner: Owners, pd: Frame)
    requires Owned(m, live, owner)
    ensures Owned(m, live - {pd}, Forget(owner, pd))
  {
    forall q | q in live - {pd}
      ensures SpaceOk(m, Forget(owner, pd), q)
    {
      assert SpaceOk(m, owner, q);
    }
    forall f | f in owner
      ensures ClaimOk(m, live - {pd}, f, Forget(owner, pd)[f])
    {
      assert ClaimOk(m, live, f, owner[f]);
    }
  }
}
