/** What a clone of an address space costs in frames, counted from the source before the call. */
module VmmCost {
  import opened Paging
  import opened Wrappers

  /** The frames pmm_alloc_page can still hand out: the free ones among those it scans. */
  ghost function Avail(free: set<nat>, scanned: nat): nat {
    |set f | f in free && f < scanned|
  }

  lemma AvailTake(free: set<nat>, scanned: nat, f: nat)
    requires f in free && f < scanned
    ensures Avail(free, scanned) == Avail(free - {f}, scanned) + 1
  {
    var s := set g | g in free && g < scanned;
    assert (set g | g in free - {f} && g < scanned) == s - {f};
  }

  lemma AvailSome(free: set<nat>, scanned: nat)
    ensures Avail(free, scanned) > 0 <==> exists f :: f in free && f < scanned
  {
    var s := set g | g in free && g < scanned;
    if f :| f in free && f < scanned { assert f in s; }
    if s != {} { var f :| f in s; }
  }

  // ---------------------------------------------------------------- the pages of the source

  /** One of the first k pages of table i is mapped. */
  ghost predicate HasPage(m: Memory, src: Frame, i: nat, k: nat)
    requires i < USER_SLOTS && k <= 1024
  {
    exists b :: 0 <= b < k && Lookup(m, src, i, b).Some?
  }

  /** A mapped page costs a frame, and the first of its table one more for the table. */
  ghost function PageCost(m: Memory, src: Frame, i: nat, k: nat): nat
    requires i < USER_SLOTS && k < 1024
  {
    if Lookup(m, src, i, k).None? then 0 else if HasPage(m, src, i, k) then 1 else 2
  }

  ghost function TableCost(m: Memory, src: Frame, i: nat, k: nat): nat
    requires i < USER_SLOTS && k <= 1024
  {
    if k == 0 then 0 else TableCost(m, src, i, k - 1) + PageCost(m, src, i, k - 1)
  }

  /** The frames for the first i tables of the user half. */
  ghost function SpaceCost(m: Memory, src: Frame, i: nat): nat
    requires i <= USER_SLOTS
  {
    if i == 0 then 0 else SpaceCost(m, src, i - 1) + TableCost(m, src, i - 1, 1024)
  }

  lemma {:induction false} TableCostGrows(m: Memory, src: Frame, i: nat, a: nat, b: nat)
    requires i < USER_SLOTS && a <= b <= 1024
    ensures TableCost(m, src, i, a) <= TableCost(m, src, i, b)
  {
    if a < b { TableCostGrows(m, src, i, a, b - 1); }
  }

  lemma {:induction false} SpaceCostGrows(m: Memory, src: Frame, a: nat, b: nat)
    requires a <= b <= USER_SLOTS
    ensures SpaceCost(m, src, a) <= SpaceCost(m, src, b)
  {
    if a < b { SpaceCostGrows(m, src, a, b - 1); }
  }

  lemma {:induction false} NoPageNoCost(m: Memory, src: Frame, i: nat, k: nat)
    requires i < USER_SLOTS && k <= 1024 && forall b :: 0 <= b < 1024 ==> Lookup(m, src, i, b).None?
    ensures TableCost(m, src, i, k) == 0
  {
    if k > 0 { NoPageNoCost(m, src, i, k - 1); }
  }

  /** The cost depends on the mappings alone. */
  lemma {:induction false} TableCostSame(m: Memory, m': Memory, src: Frame, i: nat, k: nat)
    requires i < USER_SLOTS && k <= 1024
    requires forall b :: 0 <= b < 1024 ==> Lookup(m', src, i, b) == Lookup(m, src, i, b)
    ensures TableCost(m', src, i, k) == TableCost(m, src, i, k)
  {
    hide Lookup;
    if k > 0 {
      TableCostSame(m, m', src, i, k - 1);
      assert HasPage(m', src, i, k - 1) <==> HasPage(m, src, i, k - 1);
    }
  }

  lemma {:induction false} SpaceCostSame(m: Memory, m': Memory, src: Frame, i: nat)
    requires i <= USER_SLOTS
    requires forall a, b :: 0 <= a < USER_SLOTS && 0 <= b < 1024 ==> Lookup(m', src, a, b) == Lookup(m, src, a, b)
    ensures SpaceCost(m', src, i) == SpaceCost(m, src, i)
  {
    hide Lookup;
    if i > 0 {
      SpaceCostSame(m, m', src, i - 1);
      TableCostSame(m, m', src, i - 1, 1024);
    }
  }

  /** The pages mapped before slot (i, k). */
  ghost function PagesBefore(m: Memory, src: Frame, i: nat, k: nat): set<(nat, nat)>
    requires k <= 1024
  {
    set a, b | 0 <= a < USER_SLOTS && 0 <= b < 1024 && Before(a, b, i, k) && Lookup(m, src, a, b).Some? :: (a, b)
  }

  predicate Before(a: nat, b: nat, i: nat, k: nat) {
    a < i || (a == i && b < k)
  }

  /** The tables with a page before slot (i, k). */
  ghost function TablesBefore(m: Memory, src: Frame, i: nat, k: nat): set<nat>
    requires k <= 1024
  {
    set a | 0 <= a < USER_SLOTS && Started(m, src, a, i, k)
  }

  lemma PagesStep(m: Memory, src: Frame, i: nat, k: nat)
    requires i < USER_SLOTS && k < 1024
    ensures PagesBefore(m, src, i, k + 1) ==
      PagesBefore(m, src, i, k) + (if Lookup(m, src, i, k).Some? then {(i, k)} else {})
    ensures (i, k) !in PagesBefore(m, src, i, k)
  {
    hide Lookup;
    forall a, b ensures Before(a, b, i, k + 1) <==> Before(a, b, i, k) || (a == i && b == k) { }
  }

  lemma TablesStep(m: Memory, src: Frame, i: nat, k: nat)
    requires i < USER_SLOTS && k < 1024
    ensures TablesBefore(m, src, i, k + 1) ==
      TablesBefore(m, src, i, k) + (if Lookup(m, src, i, k).Some? then {i} else {})
    ensures i in TablesBefore(m, src, i, k) <==> HasPage(m, src, i, k)
  {
    hide Lookup;
    assert HasPage(m, src, i, k + 1) <==> HasPage(m, src, i, k) || Lookup(m, src, i, k).Some?;
  }

  lemma NextPage(m: Memory, src: Frame, i: nat, k: nat)
    requires i < USER_SLOTS && k < 1024
    ensures |PagesBefore(m, src, i, k + 1)| + |TablesBefore(m, src, i, k + 1)| ==
      |PagesBefore(m, src, i, k)| + |TablesBefore(m, src, i, k)| + PageCost(m, src, i, k)
  {
    hide Lookup;
    hide PagesBefore;
    hide TablesBefore;
    hide HasPage;
    PagesStep(m, src, i, k);
    TablesStep(m, src, i, k);
    if HasPage(m, src, i, k) {
      assert TablesBefore(m, src, i, k) + {i} == TablesBefore(m, src, i, k);
    }
  }

  lemma TableEnd(m: Memory, src: Frame, i: nat)
    requires i < USER_SLOTS
    ensures PagesBefore(m, src, i + 1, 0) == PagesBefore(m, src, i, 1024)
    ensures TablesBefore(m, src, i + 1, 0) == TablesBefore(m, src, i, 1024)
  {
    hide Lookup;
    if i + 1 < USER_SLOTS { assert !HasPage(m, src, i + 1, 0); }
    forall a, b ensures 0 <= b < 1024 ==> (Before(a, b, i + 1, 0) <==> Before(a, b, i, 1024)) { }
  }

  /** The cost is one frame for each mapped page and one for each table that holds one. */
  lemma {:induction false} CostIsCount(m: Memory, src: Frame, i: nat, k: nat)
    requires i <= USER_SLOTS && k <= 1024 && (i == USER_SLOTS ==> k == 0)
    ensures SpaceCost(m, src, i) + (if i < USER_SLOTS then TableCost(m, src, i, k) else 0) ==
      |PagesBefore(m, src, i, k)| + |TablesBefore(m, src, i, k)|
    decreases i, k
  {
    hide PagesBefore;
    hide TablesBefore;
    hide PageCost;
    if k > 0 {
      CostIsCount(m, src, i, k - 1);
      NextPage(m, src, i, k - 1);
    } else if i > 0 {
      CostIsCount(m, src, i - 1, 1024);
      TableEnd(m, src, i - 1);
    } else {
      NothingBefore(m, src);
    }
  }

  lemma NothingBefore(m: Memory, src: Frame)
    ensures PagesBefore(m, src, 0, 0) == {} && TablesBefore(m, src, 0, 0) == {}
  {
  }

  // ---------------------------------------------------------------- paying as one copies

  /** When every page before slot (i, k) is copied, the child has just the tables these need, and of the a1 frames
      there were at first `avail` are left. */
  ghost predicate Paid(m1: Memory, src: Frame, m: Memory, child: Frame, i: nat, k: nat, a1: nat, avail: nat)
    requires i <= USER_SLOTS && k <= 1024 && (i == USER_SLOTS ==> k == 0)
  {
    && (forall a :: 0 <= a < USER_SLOTS ==> (m[child][a].flags.present <==> Started(m1, src, a, i, k)))
    && a1 == avail + SpaceCost(m1, src, i) + (if i < USER_SLOTS then TableCost(m1, src, i, k) else 0)
    && UserBits(m1, src, m, child)
  }

  /** The tables of the child admit the user exactly when the first page of their original does. */
  ghost predicate UserBits(m1: Memory, src: Frame, m: Memory, child: Frame) {
    forall a :: 0 <= a < USER_SLOTS && m[child][a].flags.present ==> (m[child][a].flags.user <==> FirstUser(m1, src, a))
  }

  /** The first mapped page of table i is a user page. */
  ghost predicate FirstUser(m: Memory, src: Frame, i: nat)
    requires i < USER_SLOTS
  {
    exists b :: 0 <= b < 1024 && IsFirst(m, src, i, b) && Lookup(m, src, i, b).value.flags.user
  }

  ghost predicate IsFirst(m: Memory, src: Frame, i: nat, b: nat)
    requires i < USER_SLOTS && b < 1024
  {
    Lookup(m, src, i, b).Some? && !HasPage(m, src, i, b)
  }

  lemma OneFirst(m: Memory, src: Frame, i: nat, k: nat)
    requires i < USER_SLOTS && k < 1024 && IsFirst(m, src, i, k)
    ensures FirstUser(m, src, i) <==> Lookup(m, src, i, k).value.flags.user
  {
    hide Lookup;
    forall b | 0 <= b < 1024 && IsFirst(m, src, i, b)
      ensures b == k
    {
    }
  }

  lemma FirstUserSame(m: Memory, m': Memory, src: Frame, i: nat)
    requires i < USER_SLOTS && forall b :: 0 <= b < 1024 ==> Lookup(m', src, i, b) == Lookup(m, src, i, b)
    ensures FirstUser(m', src, i) <==> FirstUser(m, src, i)
  {
    hide Lookup;
    forall b | 0 <= b < 1024
      ensures IsFirst(m', src, i, b) <==> IsFirst(m, src, i, b)
    {
    }
  }

  /** A page of table a lies before slot (i, k). */
  ghost predicate Started(m1: Memory, src: Frame, a: nat, i: nat, k: nat)
    requires a < USER_SLOTS && k <= 1024
  {
    if a < i then HasPage(m1, src, a, 1024) else a == i && HasPage(m1, src, a, k)
  }

  lemma PaidStart(m1: Memory, src: Frame, m: Memory, child: Frame, a1: nat)
    requires forall a :: 0 <= a < USER_SLOTS ==> !m[child][a].flags.present
    ensures Paid(m1, src, m, child, 0, 0, a1, a1)
  {
  }

  lemma PaidEmpty(m1: Memory, src: Frame, m: Memory, child: Frame, i: nat, k: nat, a1: nat, avail: nat)
    requires i < USER_SLOTS && k < 1024 && Paid(m1, src, m, child, i, k, a1, avail) && Lookup(m1, src, i, k).None?
    ensures Paid(m1, src, m, child, i, k + 1, a1, avail)
  {
    hide Lookup;
    hide SpaceCost;
    assert HasPage(m1, src, i, k + 1) <==> HasPage(m1, src, i, k);
  }

  /** What the next page costs in the child. */
  function NextCost(m: Memory, child: Frame, i: nat): nat
    requires i < USER_SLOTS
  {
    if m[child][i].flags.present then 1 else 2
  }

  lemma PaidCopy(m1: Memory, src: Frame, m: Memory, child: Frame, i: nat, k: nat, a1: nat, avail: nat, m': Memory,
                 avail': nat)
    requires i < USER_SLOTS && k < 1024 && Paid(m1, src, m, child, i, k, a1, avail) && Lookup(m1, src, i, k).Some?
    requires avail' + NextCost(m, child, i) == avail && m'[child][i].flags.present
    requires m'[child][i].flags.user ==
      if m[child][i].flags.present then m[child][i].flags.user else Lookup(m1, src, i, k).value.flags.user
    requires forall a :: 0 <= a < USER_SLOTS && a != i ==> m'[child][a] == m[child][a]
    ensures Paid(m1, src, m', child, i, k + 1, a1, avail')
  {
    hide Lookup;
    hide SpaceCost;
    hide FirstUser;
    if !m[child][i].flags.present {
      assert !Started(m1, src, i, i, k);
      OneFirst(m1, src, i, k);
    }
    assert Started(m1, src, i, i, k) <==> HasPage(m1, src, i, k);
    assert HasPage(m1, src, i, k + 1);
  }

  lemma PaidTable(m1: Memory, src: Frame, m: Memory, child: Frame, i: nat, a1: nat, avail: nat)
    requires i < USER_SLOTS && Paid(m1, src, m, child, i, 1024, a1, avail)
    ensures Paid(m1, src, m, child, i + 1, 0, a1, avail)
  {
    hide Lookup;
    if i + 1 < USER_SLOTS { assert !HasPage(m1, src, i + 1, 0); }
  }

  lemma PaidNoTable(m1: Memory, src: Frame, m: Memory, child: Frame, i: nat, a1: nat, avail: nat)
    requires i < USER_SLOTS && Paid(m1, src, m, child, i, 0, a1, avail)
    requires forall b :: 0 <= b < 1024 ==> Lookup(m1, src, i, b).None?
    ensures Paid(m1, src, m, child, i + 1, 0, a1, avail)
  {
    hide Lookup;
    NoPageNoCost(m1, src, i, 1024);
    assert !HasPage(m1, src, i, 1024) && !HasPage(m1, src, i, 0);
  }

  /** A page that cannot be paid for. */
  lemma PaidFails(m1: Memory, src: Frame, m: Memory, child: Frame, i: nat, k: nat, a1: nat, avail: nat)
    requires i < USER_SLOTS && k < 1024 && Paid(m1, src, m, child, i, k, a1, avail) && Lookup(m1, src, i, k).Some?
    requires avail < NextCost(m, child, i)
    ensures a1 < SpaceCost(m1, src, USER_SLOTS)
  {
    hide Lookup;
    assert Started(m1, src, i, i, k) <==> HasPage(m1, src, i, k);
    assert TableCost(m1, src, i, k + 1) == TableCost(m1, src, i, k) + PageCost(m1, src, i, k);
    TableCostGrows(m1, src, i, k + 1, 1024);
    assert SpaceCost(m1, src, i + 1) == SpaceCost(m1, src, i) + TableCost(m1, src, i, 1024);
    SpaceCostGrows(m1, src, i + 1, USER_SLOTS);
  }

  lemma PaidAll(m1: Memory, src: Frame, m: Memory, child: Frame, a1: nat, avail: nat)
    requires Paid(m1, src, m, child, USER_SLOTS, 0, a1, avail)
    ensures a1 == avail + SpaceCost(m1, src, USER_SLOTS) && UserBits(m1, src, m, child)
  {
  }
}
