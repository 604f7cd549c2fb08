/**
 * The page-table operations of kernel/vm.c over the Sv39 tree of module Sv39.
 *
 * Physical memory is split three ways: page-table pages (`pt`, node address
 * to 512 PTEs), the bytes of RAM (`ram`, indexed by physical address, below
 * PHYSTOP), and the per-CPU free lists of module KAlloc, from which both
 * page-table pages and user pages are allocated. Each loop of the C code is
 * a method whose loop invariant is one predicate relating the current state
 * to the state on entry, advanced one page at a time by a lemma; the
 * postconditions state what each operation leaves behind, and further lemmas
 * state the properties the code promises about it.
 */
module Vm {
  import opened Common
  import opened Sv39
  import opened Teardown
  import KAlloc

  const NCPU: nat := KAlloc.NCPU

  /** Everything a vm.c operation reads or writes, with the ghost tree shape. */
  datatype Mem = Mem(pt: PageTable, ls: seq<seq<nat>>, ram: seq<bv8>,
                     lvl: map<nat, nat>, owner: map<nat, (nat, nat)>)

  /**
   * The loop of walk from `node` at `level` down to level 0: follow a valid
   * entry, or (when `alloc`) take a frame from the allocator, zero it and
   * link it under the invalid entry. The result is the level-0 node whose
   * entry PX(0, va) is the PTE walk returns.
   */
  ghost function WalkFrom(m: Mem, cpu: nat, node: nat, level: nat, va: nat, alloc: bool): (r: (Mem, Option<nat>))
    requires |m.ls| == NCPU && cpu < NCPU && level <= 2
    ensures |r.0.ls| == NCPU
    decreases level
  {
    if level == 0 then (m, Some(node))
    else if !IsNode(m.pt, node) then (m, None)
    else
      var i := PX(level, va);
      var e := m.pt[node][i];
      if IsValid(e) then WalkFrom(m, cpu, PTE2PA(e), level - 1, va, alloc)
      else if !alloc then (m, None)
      else
        var (n, ls1) := KAlloc.Take(m.ls, cpu);
        if n == 0 then (m.(ls := ls1), None)
        else WalkFrom(Mem(Link(m.pt, node, i, n), ls1, m.ram, m.lvl[n := level - 1], m.owner[n := (node, i)]),
                      cpu, n, level - 1, va, alloc)
  }

  /** The PTE pointer `walk(root, va, alloc)` returns, as (node, index). */
  function PtePtr(n: Option<nat>, va: nat): Option<(nat, nat)>
  {
    match n
    case None => None
    case Some(x) => Some((x, PX(0, va)))
  }

  /** Frames are conserved: what leaves the free lists becomes a page-table page, and back. */
  ghost predicate Conserved(m: Mem, m': Mem)
  {
    Flat(m'.ls) + m'.pt.Keys == Flat(m.ls) + m.pt.Keys
  }

  /** Nodes of `m` keep their level in `m'`. */
  ghost predicate KeepsLevels(m: Mem, m': Mem)
  {
    forall a :: a in m.pt && a in m.lvl ==> a in m'.lvl && m'.lvl[a] == m.lvl[a]
  }

  /** `va` is below MAXVA and mapped by a valid PTE with PTE_U set. */
  predicate UserPage(pt: PageTable, root: nat, va: nat)
  {
    va < MAXVA && Mapping(pt, root, va).Some? && Mapping(pt, root, va).value.flags & PTE_U != 0
  }

  /**
   * walkaddr: the physical page at `va` that a user may access, or 0 when
   * `va` is beyond MAXVA, unmapped or not marked PTE_U.
   */
  function WalkAddr(pt: PageTable, root: nat, va: nat): (pa: nat)
    ensures pa != 0 ==> UserPage(pt, root, va) && pa == PTE2PA(Mapping(pt, root, va).value)
    ensures UserPage(pt, root, va) ==> pa == PTE2PA(Mapping(pt, root, va).value)
  {
    if va >= MAXVA then 0
    else match Entry(pt, root, va)
      case None => 0
      case Some(e) =>
        if !IsValid(e) then 0
        else if e.flags & PTE_U == 0 then 0
        else PTE2PA(e)
  }

  /** uvmcreate: a zeroed page-table page from the allocator becomes a new root; 0 when memory is out. */
  ghost function Create(m: Mem, cpu: nat): (Mem, nat)
    requires |m.ls| == NCPU && cpu < NCPU
  {
    var (n, ls1) := KAlloc.Take(m.ls, cpu);
    if n == 0 then (m, 0)
    else (m.(pt := m.pt[n := Zeros()], ls := ls1, lvl := m.lvl[n := 2]), n)
  }

  /** `*pte = e` through a PTE pointer; a pointer outside the page-table pages changes nothing modelled. */
  ghost function SetLeaf(m: Mem, n: nat, i: nat, e: Pte): Mem
  {
    if n in m.pt && i < |m.pt[n]| then m.(pt := SetPte(m.pt, n, i, e)) else m
  }

  /**
   * One iteration of mappages' loop at page `a`: walk with allocation, then
   * write PA2PTE(pa) | perm | PTE_V into the PTE found; false when the walk
   * fails.
   */
  ghost function MapOne(m: Mem, cpu: nat, root: nat, a: nat, pa: nat, perm: Flags): (r: (Mem, bool))
    requires |m.ls| == NCPU && cpu < NCPU
    ensures |r.0.ls| == NCPU
  {
    var (m1, n) := WalkFrom(m, cpu, root, 2, a, true);
    if n.None? then (m1, false)
    else (SetLeaf(m1, n.value, PX(0, a), MakePte(pa, perm | PTE_V)), true)
  }

  /** No page from `a` to `last` is mapped under `root`. */
  ghost predicate Unmapped(pt: PageTable, root: nat, a: nat, last: int)
  {
    forall b :: a <= b <= last && b % PGSIZE == 0 ==> Mapping(pt, root, b).None?
  }

  /**
   * Each page `b` from `lo` to `hi` maps PA2PTE(pa + (b - lo)) | perm | PTE_V,
   * or, when `failed`, may still be unmapped.
   */
  ghost predicate MappedRange(pt: PageTable, root: nat, lo: nat, hi: int, pa: nat, perm: Flags, failed: bool)
  {
    forall b: nat :: lo <= b <= hi && b % PGSIZE == 0 ==>
      Mapping(pt, root, b) == Some(MakePte(pa + (b - lo), perm | PTE_V)) || (failed && Mapping(pt, root, b).None?)
  }

  /** Outside pages lo..hi of `root`, every translation of every root of `m` is the same in `m'`. */
  ghost predicate SameOutside(m: Mem, m': Mem, root: nat, lo: nat, hi: int)
  {
    forall r: nat, v: nat :: IsRoot(m.pt, m.lvl, r) && v % PGSIZE == 0 && v < MAXVA && !(r == root && lo <= v <= hi) ==>
      Mapping(m'.pt, r, v) == Mapping(m.pt, r, v)
  }

  /** Outside pages lo..hi of `root`, every PTE of every root of `m`, valid or not, is the same in `m'`. */
  ghost predicate EntriesOutside(m: Mem, m': Mem, root: nat, lo: nat, hi: int)
  {
    forall r: nat, v: nat :: IsRoot(m.pt, m.lvl, r) && v % PGSIZE == 0 && v < MAXVA && !(r == root && lo <= v <= hi) ==>
      Entry(m'.pt, r, v) == Entry(m.pt, r, v)
  }

  lemma EntriesSame(m: Mem, m': Mem, root: nat, lo: nat, hi: int)
    requires EntriesOutside(m, m', root, lo, hi)
    ensures SameOutside(m, m', root, lo, hi)
  {
  }

  /** Every PTE of every root of `pt`, at any address, is the same in `pt'` or has become 0. */
  ghost predicate OnlyZeroed(pt: PageTable, lvl: map<nat, nat>, pt': PageTable)
  {
    forall r: nat, va: nat {:trigger Entry(pt', r, va)} ::
      IsRoot(pt, lvl, r) ==> Entry(pt', r, va) in {Entry(pt, r, va), Some(ZERO)}
  }

  /** `m'` only adds page-table pages, taken from the free lists, and keeps every node's level. */
  ghost predicate Grown(m: Mem, m': Mem)
  {
    KeepsLevels(m, m') && m.pt.Keys <= m'.pt.Keys && Conserved(m, m')
  }

  lemma GrownTrans(m: Mem, m1: Mem, m2: Mem)
    requires Grown(m, m1) && Grown(m1, m2)
    ensures Grown(m, m2)
    ensures forall r :: IsRoot(m.pt, m.lvl, r) ==> IsRoot(m1.pt, m1.lvl, r) && IsRoot(m2.pt, m2.lvl, r)
  {
  }

  lemma SameThenOutside(m: Mem, m1: Mem, m2: Mem, root: nat, lo: nat, hi: nat)
    requires SameMappings(m.pt, m.lvl, m1.pt) && Grown(m, m1) && SameOutside(m1, m2, root, lo, hi)
    ensures SameOutside(m, m2, root, lo, hi)
  {
    GrownTrans(m, m1, m1);
  }

  lemma OutsideTrans(m: Mem, m1: Mem, m2: Mem, root: nat, lo1: nat, hi1: nat, lo2: nat, hi2: nat, lo: nat, hi: nat)
    requires SameOutside(m, m1, root, lo1, hi1) && Grown(m, m1) && SameOutside(m1, m2, root, lo2, hi2)
    requires lo <= lo1 && lo <= lo2 && hi1 <= hi && hi2 <= hi
    ensures SameOutside(m, m2, root, lo, hi)
  {
    GrownTrans(m, m1, m1);
  }

  /** After page `a` is written, the pages above it that were unmapped still are. */
  lemma MapNext(m: Mem, m2: Mem, root: nat, a: nat, last: nat)
    requires IsRoot(m.pt, m.lvl, root) && a + PGSIZE <= last < MAXVA && Unmapped(m.pt, root, a, last)
    requires SameOutside(m, m2, root, a, a)
    ensures Unmapped(m2.pt, root, a + PGSIZE, last)
  {
    forall b | a + PGSIZE <= b <= last && b % PGSIZE == 0 ensures Mapping(m2.pt, root, b).None? {
      assert Mapping(m2.pt, root, b) == Mapping(m.pt, root, b);
    }
  }

  /** Mapping page `a` to its frame extends the mapped range `lo`..`a` - 1 up to the next page. */
  lemma MapExtend(m: Mem, m2: Mem, root: nat, lo: nat, a: nat, pa: nat, p: nat, perm: Flags)
    requires IsRoot(m.pt, m.lvl, root) && lo <= a < MAXVA && a % PGSIZE == 0
    requires MappedRange(m.pt, root, lo, a - 1, pa, perm, false) && SameOutside(m, m2, root, a, a)
    requires p == pa + (a - lo) && Mapping(m2.pt, root, a) == Some(MakePte(p, perm | PTE_V))
    ensures MappedRange(m2.pt, root, lo, a + PGSIZE - 1, pa, perm, false)
  {
    forall b: nat | lo <= b <= a + PGSIZE - 1 && b % PGSIZE == 0
      ensures Mapping(m2.pt, root, b) == Some(MakePte(pa + (b - lo), perm | PTE_V))
    {
      if a < b {
        AlignedNext(a, b);
      } else if b < a {
        assert Mapping(m2.pt, root, b) == Mapping(m.pt, root, b);
      }
    }
  }

  /**
   * When the walk for page `a` fails, the pages before it are mapped, `a`
   * and the pages after it are still unmapped.
   */
  lemma MapStop(m: Mem, m2: Mem, root: nat, lo: nat, a: nat, last: nat, pa: nat, perm: Flags)
    requires IsRoot(m.pt, m.lvl, root) && lo <= a <= last < MAXVA && last % PGSIZE == 0
    requires MappedRange(m.pt, root, lo, a - 1, pa, perm, false) && Unmapped(m.pt, root, a, last)
    requires SameOutside(m, m2, root, a, a) && Mapping(m2.pt, root, a).None?
    ensures MappedRange(m2.pt, root, lo, last, pa, perm, true)
    ensures Mapping(m2.pt, root, last).None?
  {
    if a != last {
      assert Mapping(m2.pt, root, last) == Mapping(m.pt, root, last);
    }
    forall b: nat | lo <= b <= last && b % PGSIZE == 0
      ensures Mapping(m2.pt, root, b) == Some(MakePte(pa + (b - lo), perm | PTE_V)) || Mapping(m2.pt, root, b).None?
    {
      if b != a {
        assert Mapping(m2.pt, root, b) == Mapping(m.pt, root, b);
      }
    }
  }

  /** The physical frame the PTE of page `a` points to, or 0 when walk finds no PTE. */
  function FrameOf(pt: PageTable, root: nat, a: nat): nat
  {
    match Entry(pt, root, a)
    case Some(e) => PTE2PA(e)
    case None => 0
  }

  /** The frames of the pages `lo`, `lo` + PGSIZE, ... below `hi`, in address order. */
  function Frames(pt: PageTable, root: nat, lo: nat, hi: nat): seq<nat>
    decreases hi
  {
    if hi < lo + PGSIZE then [] else Frames(pt, root, lo, hi - PGSIZE) + [FrameOf(pt, root, hi - PGSIZE)]
  }

  /** Each page from `lo` below `hi` is mapped by a leaf: a valid PTE whose flags are more than PTE_V alone. */
  ghost predicate Leaves(pt: PageTable, root: nat, lo: nat, hi: nat)
  {
    forall b :: lo <= b < hi && b % PGSIZE == 0 ==> Mapping(pt, root, b).Some? && Mapping(pt, root, b).value.flags != PTE_V
  }

  /** The PTE of each page from `lo` below `hi` is 0. */
  ghost predicate Cleared(pt: PageTable, root: nat, lo: nat, hi: nat)
  {
    forall b :: lo <= b < hi && b % PGSIZE == 0 ==> Entry(pt, root, b) == Some(ZERO)
  }

  /** No frame of the pages from `lo` below `hi` is on a free list. */
  ghost predicate Unfreed(ls: seq<seq<nat>>, pt: PageTable, root: nat, lo: nat, hi: nat)
  {
    forall b :: lo <= b < hi && b % PGSIZE == 0 ==> FrameOf(pt, root, b) !in Flat(ls)
  }

  /** The free lists after kfree of each frame of `fs` in order on `cpu`, when `doFree`. */
  function Freed(ls: seq<seq<nat>>, cpu: nat, doFree: bool, fs: seq<nat>): seq<seq<nat>>
    requires cpu < |ls|
  {
    if doFree then ls[cpu := KAlloc.Reverse(fs) + ls[cpu]] else ls
  }

  /** Before the first page nothing has been freed. */
  lemma FreedNone(ls: seq<seq<nat>>, cpu: nat, doFree: bool, pt: PageTable, root: nat, va: nat)
    requires cpu < |ls|
    ensures Freed(ls, cpu, doFree, Frames(pt, root, va, va)) == ls
  {
    assert Frames(pt, root, va, va) == [];
    assert KAlloc.Reverse([]) + ls[cpu] == ls[cpu];
  }

  /** Clearing the PTE of page `a` extends the cleared range `lo`..`a` - 1 up to the next page. */
  lemma ClearExtend(m: Mem, m2: Mem, root: nat, lo: nat, a: nat)
    requires IsRoot(m.pt, m.lvl, root) && lo <= a < MAXVA && a % PGSIZE == 0
    requires Cleared(m.pt, root, lo, a) && EntriesOutside(m, m2, root, a, a) && Entry(m2.pt, root, a) == Some(ZERO)
    ensures Cleared(m2.pt, root, lo, a + PGSIZE)
  {
    forall b | lo <= b < a + PGSIZE && b % PGSIZE == 0 ensures Entry(m2.pt, root, b) == Some(ZERO) {
      if a < b {
        AlignedNext(a, b);
      } else if b < a {
        assert Entry(m2.pt, root, b) == Entry(m.pt, root, b);
      }
    }
  }

  lemma EntriesRefl(m: Mem, root: nat, lo: nat, hi: int)
    ensures EntriesOutside(m, m, root, lo, hi)
  {
  }

  lemma EntriesTrans(m0: Mem, m: Mem, m2: Mem, root: nat, lo: nat, a: nat)
    requires EntriesOutside(m0, m, root, lo, a - 1) && EntriesOutside(m, m2, root, a, a)
    requires m.pt.Keys == m0.pt.Keys && m.lvl == m0.lvl && lo <= a
    ensures EntriesOutside(m0, m2, root, lo, a + PGSIZE - 1)
  {
  }

  /** Freeing the frame of page `a` leaves the frames of the later pages off the free lists. */
  lemma UnfreedNext(ls: seq<seq<nat>>, pt: PageTable, root: nat, a: nat, hi: nat, cpu: nat)
    requires cpu < |ls| && a < hi && a % PGSIZE == 0 && Unfreed(ls, pt, root, a, hi)
    requires forall b, c :: a <= b < c < hi && b % PGSIZE == 0 && c % PGSIZE == 0 ==> FrameOf(pt, root, b) != FrameOf(pt, root, c)
    ensures Unfreed(ls[cpu := [FrameOf(pt, root, a)] + ls[cpu]], pt, root, a + PGSIZE, hi)
  {
    FlatPush(ls, cpu, FrameOf(pt, root, a));
  }

  /** One more kfree on `cpu` extends the freed prefix of `fs` by one frame. */
  lemma FreedStep(ls: seq<seq<nat>>, cpu: nat, fs: seq<nat>, f: nat)
    requires cpu < |ls|
    ensures var l := Freed(ls, cpu, true, fs); l[cpu := [f] + l[cpu]] == Freed(ls, cpu, true, fs + [f])
  {
    KAlloc.ReverseStep(fs, f, ls[cpu]);
  }

  /** A stack reversed after two pushes in a row: what was pushed last comes first. */
  lemma {:induction false} ReverseAppend(a: seq<nat>, b: seq<nat>)
    ensures KAlloc.Reverse(a + b) == KAlloc.Reverse(b) + KAlloc.Reverse(a)
    decreases |b|
  {
    if b == [] {
      assert a + b == a;
    } else {
      var init := b[..|b| - 1];
      assert (a + b)[..|a + b| - 1] == a + init;
      ReverseAppend(a, init);
    }
  }

  /** Freeing no frames leaves the lists as they are. */
  lemma FreedEmpty(ls: seq<seq<nat>>, cpu: nat)
    requires cpu < |ls|
    ensures Freed(ls, cpu, true, []) == ls
  {
    assert KAlloc.Reverse([]) == [];
    assert [] + ls[cpu] == ls[cpu];
    assert ls[cpu := ls[cpu]] == ls;
  }

  /** kfree of each frame of `a` and then of each frame of `b` is kfree of each frame of `a + b`. */
  lemma FreedAppend(ls: seq<seq<nat>>, cpu: nat, a: seq<nat>, b: seq<nat>)
    requires cpu < |ls|
    ensures Freed(Freed(ls, cpu, true, a), cpu, true, b) == Freed(ls, cpu, true, a + b)
  {
    ReverseAppend(a, b);
    var l := Freed(ls, cpu, true, a);
    assert l[cpu] == KAlloc.Reverse(a) + ls[cpu];
    assert KAlloc.Reverse(b) + l[cpu] == KAlloc.Reverse(a + b) + ls[cpu];
  }

  /** Each page from `lo` below `hi` is mapped by a valid PTE with the permissions uvmalloc gives: R, W, X and U. */
  ghost predicate UserMapped(pt: PageTable, root: nat, lo: nat, hi: nat)
  {
    forall b :: lo <= b < hi && b % PGSIZE == 0 ==>
      Mapping(pt, root, b).Some? && Mapping(pt, root, b).value.flags == PTE_W | PTE_X | PTE_R | PTE_U | PTE_V
  }

  function Elems(s: seq<nat>): set<nat>
  {
    set x | x in s
  }

  /** kfree of each frame of `fs` on `cpu` adds exactly those frames to the free set. */
  lemma {:induction false} FlatFreed(ls: seq<seq<nat>>, cpu: nat, fs: seq<nat>)
    requires cpu < |ls|
    ensures Flat(Freed(ls, cpu, true, fs)) == Flat(ls) + Elems(fs)
    decreases |fs|
  {
    if fs == [] {
      assert KAlloc.Reverse(fs) + ls[cpu] == ls[cpu];
      assert Freed(ls, cpu, true, fs) == ls && Elems(fs) == {};
    } else {
      var f, init := fs[|fs| - 1], fs[..|fs| - 1];
      assert fs == init + [f];
      FlatFreed(ls, cpu, init);
      FreedStep(ls, cpu, init, f);
      FlatPush(Freed(ls, cpu, true, init), cpu, f);
      assert Elems(fs) == Elems(init) + {f};
    }
  }

  /** The frame list of a range depends only on the frames of its pages. */
  lemma {:induction false} FramesSame(pt: PageTable, pt2: PageTable, root: nat, lo: nat, hi: nat)
    requires hi % PGSIZE == 0
    requires forall b :: lo <= b < hi && b % PGSIZE == 0 ==> FrameOf(pt2, root, b) == FrameOf(pt, root, b)
    ensures Frames(pt2, root, lo, hi) == Frames(pt, root, lo, hi)
    decreases hi
  {
    if lo + PGSIZE <= hi {
      AlignedPrev(hi);
      FramesSame(pt, pt2, root, lo, hi - PGSIZE);
    }
  }

  /** After uvmalloc maps page `a` the mapped range grows by one page, and nothing else moves. */
  lemma MapsNext(m0: Mem, m: Mem, m2: Mem, root: nat, lo: nat, a: nat, hi: nat, mem: nat)
    requires IsRoot(m.pt, m.lvl, root) && lo <= a && a + PGSIZE <= hi <= MAXVA && a % PGSIZE == 0
    requires UserMapped(m.pt, root, lo, a) && Unmapped(m.pt, root, a, hi - 1)
    requires SameOutside(m0, m, root, lo, a - 1) && KeepsLevels(m0, m) && m0.pt.Keys <= m.pt.Keys
    requires KeepsLevels(m, m2) && m.pt.Keys <= m2.pt.Keys && SameOutside(m, m2, root, a, a)
    requires Mapping(m2.pt, root, a) == Some(MakePte(mem, PTE_W | PTE_X | PTE_R | PTE_U | PTE_V))
    ensures UserMapped(m2.pt, root, lo, a + PGSIZE) && Unmapped(m2.pt, root, a + PGSIZE, hi - 1)
    ensures SameOutside(m0, m2, root, lo, a + PGSIZE - 1) && KeepsLevels(m0, m2)
    ensures forall b :: lo <= b < a && b % PGSIZE == 0 ==> FrameOf(m2.pt, root, b) == FrameOf(m.pt, root, b)
  {
    forall b | lo <= b < a + PGSIZE && b % PGSIZE == 0 && b != a
      ensures b < a && Mapping(m2.pt, root, b) == Mapping(m.pt, root, b)
    {
      if a < b {
        AlignedNext(a, b);
      }
    }
    forall b | a + PGSIZE <= b <= hi - 1 && b % PGSIZE == 0 ensures Mapping(m2.pt, root, b).None? {
      assert Mapping(m2.pt, root, b) == Mapping(m.pt, root, b);
    }
    forall r: nat | IsRoot(m0.pt, m0.lvl, r) ensures IsRoot(m.pt, m.lvl, r) {
    }
  }

  /** After a failed iteration at page `a` the mapped range and the unmapped pages are as they were. */
  lemma MapsStay(m0: Mem, m: Mem, m2: Mem, root: nat, lo: nat, a: nat, hi: nat)
    requires IsRoot(m.pt, m.lvl, root) && lo <= a < hi <= MAXVA
    requires UserMapped(m.pt, root, lo, a) && Unmapped(m.pt, root, a, hi - 1)
    requires SameOutside(m0, m, root, lo, a - 1) && KeepsLevels(m0, m) && m0.pt.Keys <= m.pt.Keys
    requires KeepsLevels(m, m2) && m.pt.Keys <= m2.pt.Keys && SameOutside(m, m2, root, a, a)
    requires Mapping(m2.pt, root, a).None?
    ensures UserMapped(m2.pt, root, lo, a) && Unmapped(m2.pt, root, a, hi - 1)
    ensures SameOutside(m0, m2, root, lo, a - 1) && KeepsLevels(m0, m2)
    ensures forall b :: lo <= b < a && b % PGSIZE == 0 ==> FrameOf(m2.pt, root, b) == FrameOf(m.pt, root, b)
  {
    forall b | lo <= b < a && b % PGSIZE == 0 ensures FrameOf(m2.pt, root, b) == FrameOf(m.pt, root, b) {
      assert Mapping(m.pt, root, b).Some?;
      assert Mapping(m2.pt, root, b) == Mapping(m.pt, root, b);
    }
    forall b | a < b <= hi - 1 && b % PGSIZE == 0 ensures Mapping(m2.pt, root, b).None? {
      assert Mapping(m2.pt, root, b) == Mapping(m.pt, root, b);
    }
    forall r: nat | IsRoot(m0.pt, m0.lvl, r) ensures IsRoot(m.pt, m.lvl, r) {
    }
  }

  /** The frame list grows by the frame of page `a`. */
  lemma FramesNext(m: Mem, m2: Mem, root: nat, lo: nat, a: nat, mem: nat)
    requires lo <= a && a % PGSIZE == 0 && FrameOf(m2.pt, root, a) == mem
    requires forall b :: lo <= b < a && b % PGSIZE == 0 ==> FrameOf(m2.pt, root, b) == FrameOf(m.pt, root, b)
    ensures Frames(m2.pt, root, lo, a + PGSIZE) == Frames(m.pt, root, lo, a) + [mem]
    ensures Elems(Frames(m2.pt, root, lo, a + PGSIZE)) == Elems(Frames(m.pt, root, lo, a)) + {mem}
  {
    FramesSame(m.pt, m2.pt, root, lo, a);
    assert Elems(Frames(m.pt, root, lo, a) + [mem]) == Elems(Frames(m.pt, root, lo, a)) + {mem};
  }

  /** mappages only moves frames from the free set into the tree, so a frame in neither stays in neither. */
  lemma MapCount(f0: set<nat>, k0: set<nat>, f1: set<nat>, k1: set<nat>, mem: nat)
    requires mem !in f0 && mem !in k0 && f1 + k1 == f0 + k0 && k0 <= k1 && (forall x :: x in k1 ==> x !in f1)
    ensures mem !in k1 && mem !in f1 && f1 <= f0
  {
  }

  /**
   * The frame accounting of one uvmalloc iteration: `mem` left the free set
   * f0, then mappages moved frames from it into the tree; on failure `mem`
   * went back to the free set.
   */
  lemma AllocCount(f0: set<nat>, k0: set<nat>, fk: set<nat>, f1: set<nat>, k1: set<nat>, mem: nat, ok: bool)
    requires mem in f0 && fk == f0 - {mem}
    requires ok ==> f1 + k1 == fk + k0 && f1 <= fk
    requires !ok ==> f1 + k1 == fk + k0 + {mem} && f1 <= fk + {mem}
    ensures f1 <= f0
    ensures ok ==> mem !in f1 && f0 + k0 == f1 + k1 + {mem}
    ensures !ok ==> f1 + k1 == f0 + k0
  {
  }

  /** FrameOf always yields a page-aligned address. */
  lemma FrameOfAligned(pt: PageTable, root: nat, a: nat)
    ensures FrameOf(pt, root, a) % PGSIZE == 0
  {
    if Entry(pt, root, a).Some? {
      FrameAligned(Entry(pt, root, a).value);
    }
  }

  /**
   * After page `a` of `child` is written (or, when `!ok`, left unmapped),
   * the translations of the pages below it and the unmapped pages above it
   * are as they were.
   */
  lemma CloneMaps(m0: Mem, m: Mem, m2: Mem, child: nat, a: nat, hi: nat, ok: bool)
    requires IsRoot(m.pt, m.lvl, child) && a < hi <= MAXVA && a % PGSIZE == 0 && hi % PGSIZE == 0
    requires Unmapped(m.pt, child, a, hi - 1) && SameOutside(m0, m, child, 0, a - 1)
    requires KeepsLevels(m0, m) && m0.pt.Keys <= m.pt.Keys
    requires KeepsLevels(m, m2) && m.pt.Keys <= m2.pt.Keys && SameOutside(m, m2, child, a, a)
    requires !ok ==> Mapping(m2.pt, child, a).None?
    ensures forall b :: 0 <= b < a && b % PGSIZE == 0 ==> Mapping(m2.pt, child, b) == Mapping(m.pt, child, b)
    ensures ok ==> Unmapped(m2.pt, child, a + PGSIZE, hi - 1) && SameOutside(m0, m2, child, 0, a + PGSIZE - 1)
    ensures !ok ==> Unmapped(m2.pt, child, a, hi - 1) && SameOutside(m0, m2, child, 0, a - 1)
    ensures KeepsLevels(m0, m2)
  {
    forall b | a < b <= hi - 1 && b % PGSIZE == 0 ensures Mapping(m2.pt, child, b).None? {
      assert Mapping(m2.pt, child, b) == Mapping(m.pt, child, b);
    }
    forall r: nat | IsRoot(m0.pt, m0.lvl, r) ensures IsRoot(m.pt, m.lvl, r) {
    }
  }

  /**
   * Writing the free frame `mem`, and moving frames only from the free lists
   * into the tree, leaves the parent's frames as they were.
   */
  lemma ParentNext(m0: Mem, m: Mem, m2: Mem, parent: nat, hi: nat, mem: nat)
    requires ParentKept(m0, m, parent, hi) && |m2.ram| == |m.ram| && mem in Flat(m.ls) && mem % PGSIZE == 0
    requires forall k :: 0 <= k < |m.ram| && !(mem <= k < mem + PGSIZE) ==> m2.ram[k] == m.ram[k]
    requires Flat(m2.ls) <= Flat(m.ls) && m2.pt.Keys <= Flat(m.ls) + m.pt.Keys
    ensures ParentKept(m0, m2, parent, hi)
  {
    forall b | 0 <= b < hi && b % PGSIZE == 0
      ensures Page(m2.ram, FrameOf(m0.pt, parent, b)) == Page(m0.ram, FrameOf(m0.pt, parent, b))
    {
      FrameOfAligned(m0.pt, parent, b);
      PageKept(m.ram, m2.ram, mem, FrameOf(m0.pt, parent, b));
    }
  }

  /** The child's pages below `a` keep their translations and their bytes while only the free frame `mem` is written. */
  lemma ClonedKeep(m0: Mem, m: Mem, m2: Mem, parent: nat, child: nat, a: nat, mem: nat)
    requires Cloned(m0, m, parent, child, a) && |m2.ram| == |m.ram|
    requires forall k :: 0 <= k < |m.ram| && !(mem <= k < mem + PGSIZE) ==> m2.ram[k] == m.ram[k]
    requires mem % PGSIZE == 0 && Unfreed(m.ls, m.pt, child, 0, a) && mem in Flat(m.ls)
    requires forall b :: 0 <= b < a && b % PGSIZE == 0 ==> Mapping(m2.pt, child, b) == Mapping(m.pt, child, b)
    ensures Cloned(m0, m2, parent, child, a)
    ensures forall b :: 0 <= b < a && b % PGSIZE == 0 ==> FrameOf(m2.pt, child, b) == FrameOf(m.pt, child, b)
  {
    forall b | 0 <= b < a && b % PGSIZE == 0
      ensures FrameOf(m2.pt, child, b) == FrameOf(m.pt, child, b)
      ensures Page(m2.ram, FrameOf(m.pt, child, b)) == Page(m.ram, FrameOf(m.pt, child, b))
    {
      assert Mapping(m.pt, child, b).Some?;
      FrameOfAligned(m.pt, child, b);
      PageKept(m.ram, m2.ram, mem, FrameOf(m.pt, child, b));
    }
  }

  /** Mapping child page `a` to `mem`, which holds the parent's bytes, with the parent's flags extends the copy by a page. */
  lemma ClonedNext(m0: Mem, m: Mem, m2: Mem, parent: nat, child: nat, a: nat, mem: nat)
    requires Cloned(m0, m, parent, child, a) && |m2.ram| == |m.ram|
    requires forall k :: 0 <= k < |m.ram| && !(mem <= k < mem + PGSIZE) ==> m2.ram[k] == m.ram[k]
    requires mem % PGSIZE == 0 && Unfreed(m.ls, m.pt, child, 0, a) && mem in Flat(m.ls)
    requires forall b :: 0 <= b < a && b % PGSIZE == 0 ==> Mapping(m2.pt, child, b) == Mapping(m.pt, child, b)
    requires a % PGSIZE == 0 && Mapping(m0.pt, parent, a).Some? && FrameOf(m0.pt, parent, a) + PGSIZE <= |m0.ram|
    requires Mapping(m2.pt, child, a) == Some(MakePte(mem, Mapping(m0.pt, parent, a).value.flags))
    requires mem + PGSIZE <= |m2.ram| && Page(m2.ram, mem) == Page(m0.ram, FrameOf(m0.pt, parent, a))
    ensures Cloned(m0, m2, parent, child, a + PGSIZE)
  {
    ClonedKeep(m0, m, m2, parent, child, a, mem);
    PteFrame(mem, Mapping(m0.pt, parent, a).value.flags);
    forall b | a < b < a + PGSIZE && b % PGSIZE == 0 ensures false {
      AlignedNext(a, b);
    }
  }

  /** memmove of `src` to physical address `p`; bytes that would land beyond RAM are not modelled. */
  function Store(ram: seq<bv8>, p: nat, src: seq<bv8>): (r: seq<bv8>)
    ensures |r| == |ram|
  {
    seq(|ram|, k requires 0 <= k < |ram| => if p <= k < p + |src| then src[k - p] else ram[k])
  }

  /** The bytes of the frame at physical address `pa`. */
  function Page(ram: seq<bv8>, pa: nat): seq<bv8>
    requires pa + PGSIZE <= |ram|
  {
    ram[pa..pa + PGSIZE]
  }

  /** A frame other than the one written at `mem` keeps its bytes. */
  lemma PageKept(ram: seq<bv8>, ram': seq<bv8>, mem: nat, f: nat)
    requires |ram'| == |ram| && f + PGSIZE <= |ram| && f % PGSIZE == 0 && mem % PGSIZE == 0 && f != mem
    requires forall k :: 0 <= k < |ram| && !(mem <= k < mem + PGSIZE) ==> ram'[k] == ram[k]
    ensures Page(ram', f) == Page(ram, f)
  {
    if f < mem {
      AlignedNext(f, mem);
    } else {
      AlignedNext(mem, f);
    }
    assert forall k :: 0 <= k < PGSIZE ==> Page(ram', f)[k] == ram'[f + k] == ram[f + k];
  }

  /** The bytes of a frame after memset(pa, 0, PGSIZE). */
  function ZeroBytes(): seq<bv8>
  {
    seq(PGSIZE, _ => 0)
  }

  /** Every byte in which `ram` differs from `ram0` lies inside one of the frames `fs`. */
  ghost predicate WritesOnly(ram0: seq<bv8>, ram: seq<bv8>, fs: set<nat>)
  {
    |ram| == |ram0| &&
    forall k :: 0 <= k < |ram| && ram[k] != ram0[k] ==> exists f :: f in fs && f <= k < f + PGSIZE
  }

  /** Writing no byte outside the frame `mem` adds at most that frame to the frames written. */
  lemma WritesNext(ram0: seq<bv8>, ram: seq<bv8>, ram2: seq<bv8>, fs: set<nat>, mem: nat)
    requires WritesOnly(ram0, ram, fs) && |ram2| == |ram|
    requires forall k :: 0 <= k < |ram| && !(mem <= k < mem + PGSIZE) ==> ram2[k] == ram[k]
    ensures WritesOnly(ram0, ram2, fs + {mem})
  {
    forall k | 0 <= k < |ram2| && ram2[k] != ram0[k] ensures exists f :: f in fs + {mem} && f <= k < f + PGSIZE {
      if mem <= k < mem + PGSIZE {
        assert mem in fs + {mem};
      } else {
        var f :| f in fs && f <= k < f + PGSIZE;
        assert f in fs + {mem};
      }
    }
  }

  /** Bytes written inside the frames `fs` are written inside any frames that include them. */
  lemma WritesMore(ram0: seq<bv8>, ram: seq<bv8>, fs: set<nat>, fs2: set<nat>)
    requires WritesOnly(ram0, ram, fs) && fs <= fs2
    ensures WritesOnly(ram0, ram, fs2)
  {
    forall k | 0 <= k < |ram| && ram[k] != ram0[k] ensures exists f :: f in fs2 && f <= k < f + PGSIZE {
      var f :| f in fs && f <= k < f + PGSIZE;
      assert f in fs2;
    }
  }

  /**
   * After a failed iteration that wrote at most the frame `mem` (0: none),
   * which is free again, every byte written lies in the frames `fs` or in
   * a free frame.
   */
  lemma Dirtied(ram0: seq<bv8>, ram: seq<bv8>, ram2: seq<bv8>, fs: set<nat>, free: set<nat>, mem: nat)
    requires WritesOnly(ram0, ram, fs) && |ram2| == |ram|
    requires forall k :: 0 <= k < |ram| && !(mem <= k < mem + PGSIZE) ==> ram2[k] == ram[k]
    requires mem == 0 ==> ram2 == ram
    requires mem != 0 ==> mem in free
    ensures WritesOnly(ram0, ram2, fs + free)
  {
    if mem == 0 {
      WritesMore(ram0, ram, fs, fs + free);
    } else {
      WritesNext(ram0, ram, ram2, fs, mem);
      WritesMore(ram0, ram2, fs + {mem}, fs + free);
    }
  }

  /** The frame of each page from `lo` below `hi` lies in RAM and holds zeros only. */
  ghost predicate ZeroPages(pt: PageTable, ram: seq<bv8>, root: nat, lo: nat, hi: nat)
  {
    forall b :: lo <= b < hi && b % PGSIZE == 0 ==>
      FrameOf(pt, root, b) + PGSIZE <= |ram| && Page(ram, FrameOf(pt, root, b)) == ZeroBytes()
  }

  /** Writing only the frame `mem`, which no page from `lo` below `hi` uses, keeps those pages' zeros. */
  lemma ZeroKeep(pt: PageTable, ram: seq<bv8>, ram2: seq<bv8>, root: nat, lo: nat, hi: nat, mem: nat)
    requires ZeroPages(pt, ram, root, lo, hi) && |ram2| == |ram| && mem % PGSIZE == 0
    requires forall b :: lo <= b < hi && b % PGSIZE == 0 ==> FrameOf(pt, root, b) != mem
    requires forall k :: 0 <= k < |ram| && !(mem <= k < mem + PGSIZE) ==> ram2[k] == ram[k]
    ensures ZeroPages(pt, ram2, root, lo, hi)
  {
    forall b | lo <= b < hi && b % PGSIZE == 0 ensures Page(ram2, FrameOf(pt, root, b)) == ZeroBytes() {
      FrameOfAligned(pt, root, b);
      PageKept(ram, ram2, mem, FrameOf(pt, root, b));
    }
  }

  /**
   * The parent's pages below `hi` are mapped by leaves (valid PTEs with
   * more than PTE_V set) to frames inside RAM that are on no free list, in `m0` and in `m`, and
   * are no page-table page; `m` has the bytes `m0` had in each of them.
   */
  ghost predicate ParentKept(m0: Mem, m: Mem, parent: nat, hi: nat)
  {
    |m.ram| == |m0.ram| &&
    forall b :: 0 <= b < hi && b % PGSIZE == 0 ==>
      Mapping(m0.pt, parent, b).Some? && Mapping(m0.pt, parent, b).value.flags != PTE_V &&
      FrameOf(m0.pt, parent, b) + PGSIZE <= |m0.ram| && FrameOf(m0.pt, parent, b) !in Flat(m0.ls) && FrameOf(m0.pt, parent, b) !in Flat(m.ls) &&
      FrameOf(m0.pt, parent, b) !in m.pt &&
      Page(m.ram, FrameOf(m0.pt, parent, b)) == Page(m0.ram, FrameOf(m0.pt, parent, b))
  }

  /**
   * Each child page below `a` is mapped with the flags of the same parent
   * page in `m0`, to a frame holding the bytes the parent's frame held in `m0`.
   */
  ghost predicate Cloned(m0: Mem, m: Mem, parent: nat, child: nat, a: nat)
  {
    forall b :: 0 <= b < a && b % PGSIZE == 0 ==>
      Mapping(m0.pt, parent, b).Some? && Mapping(m.pt, child, b).Some? &&
      Mapping(m.pt, child, b).value.flags == Mapping(m0.pt, parent, b).value.flags &&
      FrameOf(m0.pt, parent, b) + PGSIZE <= |m0.ram| && FrameOf(m.pt, child, b) + PGSIZE <= |m.ram| &&
      Page(m.ram, FrameOf(m.pt, child, b)) == Page(m0.ram, FrameOf(m0.pt, parent, b))
  }

  /**
   * copyout's loop from the user address `dst` with the bytes `src` still to
   * copy: each turn copies min(PGSIZE - offset, remaining) bytes into the
   * frame walkaddr gives for the page of `dst`. The result is the RAM
   * afterwards and whether the copy finished (false: -1, with the chunks
   * before the failing page already written).
   */
  function CopyOutFrom(pt: PageTable, root: nat, ram: seq<bv8>, dst: nat, src: seq<bv8>): (r: (seq<bv8>, bool))
    ensures |r.0| == |ram|
    decreases |src|
  {
    if |src| == 0 then (ram, true)
    else
      var va0 := PgRoundDown(dst);
      var pa0 := WalkAddr(pt, root, va0);
      if pa0 == 0 then (ram, false)
      else
        var n := if PGSIZE - (dst - va0) > |src| then |src| else PGSIZE - (dst - va0);
        CopyOutFrom(pt, root, Store(ram, pa0 + (dst - va0), src[..n]), va0 + PGSIZE, src[n..])
  }

  /** The physical byte that the user address `v` reaches through walkaddr of its page. */
  function Dest(pt: PageTable, root: nat, v: nat): nat
  {
    WalkAddr(pt, root, PgRoundDown(v)) + (v - PgRoundDown(v))
  }

  /** The page of `v` is one walkaddr accepts: mapped, valid and marked PTE_U. */
  predicate UserDest(pt: PageTable, root: nat, v: nat)
  {
    WalkAddr(pt, root, PgRoundDown(v)) != 0
  }

  /** Every address of the page at the aligned `va0` rounds down to it. */
  lemma SamePage(va0: nat, v: nat)
    requires va0 % PGSIZE == 0 && va0 <= v < va0 + PGSIZE
    ensures PgRoundDown(v) == va0
  {
    var q := va0 / 0x1000;
    assert va0 == 0x1000 * q;
    assert v / 0x1000 == q;
  }

  /** copyout returns -1 exactly when some byte of the destination lies in a page walkaddr refuses. */
  lemma {:induction false} CopyOutOk(pt: PageTable, root: nat, ram: seq<bv8>, dst: nat, src: seq<bv8>)
    ensures CopyOutFrom(pt, root, ram, dst, src).1 <==> forall v :: dst <= v < dst + |src| ==> UserDest(pt, root, v)
    decreases |src|
  {
    if |src| > 0 {
      var va0 := PgRoundDown(dst);
      var pa0 := WalkAddr(pt, root, va0);
      if pa0 == 0 {
        assert !UserDest(pt, root, dst);
      } else {
        var n := if PGSIZE - (dst - va0) > |src| then |src| else PGSIZE - (dst - va0);
        var ram1 := Store(ram, pa0 + (dst - va0), src[..n]);
        CopyOutOk(pt, root, ram1, va0 + PGSIZE, src[n..]);
        forall v | dst <= v < dst + n ensures UserDest(pt, root, v) {
          SamePage(va0, v);
        }
      }
    }
  }

  /** One turn of copyout's loop: the chunk that fits in the page of `dst` is stored, then the rest follows from the next page. */
  lemma CopyOutStep(pt: PageTable, root: nat, ram: seq<bv8>, dst: nat, src: seq<bv8>, n: nat)
    requires |src| > 0 && WalkAddr(pt, root, PgRoundDown(dst)) != 0
    requires n == if PGSIZE - (dst - PgRoundDown(dst)) > |src| then |src| else PGSIZE - (dst - PgRoundDown(dst))
    ensures 0 < n <= |src|
    ensures CopyOutFrom(pt, root, ram, dst, src) ==
      CopyOutFrom(pt, root, Store(ram, Dest(pt, root, dst), src[..n]), PgRoundDown(dst) + PGSIZE, src[n..])
  {
  }

  /** copyout's loop after `off` bytes: the turn for the page of `dst` leaves the same outcome to come. */
  lemma CopyOutTurn(pt: PageTable, root: nat, ram: seq<bv8>, dst: nat, src: seq<bv8>, off: nat, n: nat)
    requires off < |src| && WalkAddr(pt, root, PgRoundDown(dst)) != 0
    requires n == if PGSIZE - (dst - PgRoundDown(dst)) > |src| - off then |src| - off else PGSIZE - (dst - PgRoundDown(dst))
    ensures off + n <= |src|
    ensures CopyOutFrom(pt, root, ram, dst, src[off..]) ==
      CopyOutFrom(pt, root, Store(ram, WalkAddr(pt, root, PgRoundDown(dst)) + (dst - PgRoundDown(dst)), src[off..off + n]),
                  PgRoundDown(dst) + PGSIZE, src[off + n..])
  {
    CopyOutStep(pt, root, ram, dst, src[off..], n);
    assert src[off..][..n] == src[off..off + n] && src[off..][n..] == src[off + n..];
  }

  /** The chunk stored at `Dest(dst)` is the one every address of the rest of `dst`'s page reaches. */
  lemma ChunkDest(pt: PageTable, root: nat, dst: nat, n: nat)
    requires n <= PGSIZE - (dst - PgRoundDown(dst))
    ensures forall v :: dst <= v < dst + n ==> Dest(pt, root, v) == Dest(pt, root, dst) + (v - dst)
  {
    forall v | dst <= v < dst + n ensures Dest(pt, root, v) == Dest(pt, root, dst) + (v - dst) {
      SamePage(PgRoundDown(dst), v);
    }
  }

  /**
   * A finished copyout wrote byte `v - dst` of `src` at the physical byte
   * each destination address `v` reaches, provided no two destination
   * addresses reach the same physical byte.
   */
  lemma {:induction false} CopyOutBytes(pt: PageTable, root: nat, ram: seq<bv8>, dst: nat, src: seq<bv8>)
    requires CopyOutFrom(pt, root, ram, dst, src).1
    requires forall v, w :: dst <= v < w < dst + |src| ==> Dest(pt, root, v) != Dest(pt, root, w)
    ensures var r := CopyOutFrom(pt, root, ram, dst, src).0;
      forall v :: dst <= v < dst + |src| && Dest(pt, root, v) < |ram| ==> r[Dest(pt, root, v)] == src[v - dst]
    decreases |src|
  {
    if |src| > 0 {
      var n := if PGSIZE - (dst - PgRoundDown(dst)) > |src| then |src| else PGSIZE - (dst - PgRoundDown(dst));
      CopyOutStep(pt, root, ram, dst, src, n);
      ChunkDest(pt, root, dst, n);
      var ram1 := Store(ram, Dest(pt, root, dst), src[..n]);
      var dst', src' := PgRoundDown(dst) + PGSIZE, src[n..];
      var r := CopyOutFrom(pt, root, ram1, dst', src').0;
      CopyOutBytes(pt, root, ram1, dst', src');
      CopyOutOnlyDest(pt, root, ram1, dst', src');
      assert n < |src| ==> dst + n == dst';
      forall v | dst <= v < dst + |src| && Dest(pt, root, v) < |ram| ensures r[Dest(pt, root, v)] == src[v - dst] {
        if v >= dst + n {
          assert src'[v - dst'] == src[v - dst];
        } else {
          var k := Dest(pt, root, v);
          forall w | dst' <= w < dst' + |src'| ensures Dest(pt, root, w) != k {
          }
          assert r[k] == ram1[k];
          assert ram1[k] == src[..n][v - dst];
        }
      }
    }
  }

  /** Whether or not it finishes, copyout changes no byte of RAM that no destination address reaches. */
  lemma {:induction false} CopyOutOnlyDest(pt: PageTable, root: nat, ram: seq<bv8>, dst: nat, src: seq<bv8>)
    ensures var r := CopyOutFrom(pt, root, ram, dst, src).0;
      forall k :: 0 <= k < |ram| && r[k] != ram[k] ==> exists v :: dst <= v < dst + |src| && Dest(pt, root, v) == k
    decreases |src|
  {
    if |src| > 0 && WalkAddr(pt, root, PgRoundDown(dst)) != 0 {
      var n := if PGSIZE - (dst - PgRoundDown(dst)) > |src| then |src| else PGSIZE - (dst - PgRoundDown(dst));
      CopyOutStep(pt, root, ram, dst, src, n);
      ChunkDest(pt, root, dst, n);
      var ram1 := Store(ram, Dest(pt, root, dst), src[..n]);
      var dst', src' := PgRoundDown(dst) + PGSIZE, src[n..];
      var r := CopyOutFrom(pt, root, ram1, dst', src').0;
      CopyOutOnlyDest(pt, root, ram1, dst', src');
      forall k | 0 <= k < |ram| && r[k] != ram[k] ensures exists v :: dst <= v < dst + |src| && Dest(pt, root, v) == k {
        if r[k] == ram1[k] {
          var v := dst + (k - Dest(pt, root, dst));
          assert Dest(pt, root, v) == k;
        } else {
          var w :| dst' <= w < dst' + |src'| && Dest(pt, root, w) == k;
          assert dst <= w < dst + |src|;
        }
      }
    }
  }

  /** The PTE u2kvmcopy installs for a user PTE: the same frame, the same flags except PTE_U. */
  function KernelPte(e: Pte): (r: Pte)
    ensures r.ppn == e.ppn && r.flags & PTE_U == 0 && r.flags & !PTE_U == e.flags & !PTE_U
  {
    Pte(e.ppn, e.flags & !PTE_U)
  }

  /** The addresses u2kvmcopy's loop visits: `lo`, `lo` + PGSIZE, ... while below `hi`. */
  predicate Visited(lo: nat, hi: nat, v: nat)
  {
    lo <= v < hi && v % PGSIZE == lo % PGSIZE
  }

  /**
   * Every PTE of every root of `m`, except those of the pages of `kroot`
   * that the loop from `lo` visited below `hi`, is the same in `m'` or was
   * absent and is now a zero PTE of a new page-table page.
   */
  ghost predicate GrowsExcept(m: Mem, m': Mem, kroot: nat, lo: nat, hi: nat)
  {
    forall r: nat, p: nat ::
      IsRoot(m.pt, m.lvl, r) && p % PGSIZE == 0 && p < MAXVA && !(r == kroot && Visited(lo, hi, p + lo % PGSIZE)) ==>
        EntryGrows(Entry(m.pt, r, p), Entry(m'.pt, r, p))
  }

  /** Each address the loop from `lo` visited below `hi` has, in `kroot` of `pt`, the KernelPte of its PTE in `root` of `pt0`. */
  ghost predicate KernelCopied(pt0: PageTable, pt: PageTable, root: nat, kroot: nat, lo: nat, hi: nat)
  {
    forall v :: Visited(lo, hi, v) ==>
      Entry(pt0, root, v).Some? && Entry(pt, kroot, v) == Some(KernelPte(Entry(pt0, root, v).value))
  }

  /** Every PTE of every root of `m`, except that of page `p` of `kroot`, is the same in `m'` or a new zero one. */
  ghost predicate GrowsBut(m: Mem, m': Mem, kroot: nat, p: nat)
  {
    forall r: nat, q: nat ::
      IsRoot(m.pt, m.lvl, r) && q % PGSIZE == 0 && q < MAXVA && !(r == kroot && q == p) ==>
        EntryGrows(Entry(m.pt, r, q), Entry(m'.pt, r, q))
  }

  /**
   * With an unaligned `oldsz` the loop of u2kvmcopy as written misses a
   * page: growing from 100 to 4100 bytes adds the page at 4096, but the
   * loop visits 100 alone, which lies in page 0.
   */
  lemma U2KvmCopySkipsPage()
    ensures 100 <= 4096 < 4100 && Visited(100, 4100, 100)
    ensures forall v :: Visited(100, 4100, v) ==> PgRoundDown(v) == 0 && PgRoundDown(v) != 4096
  {
    forall v | Visited(100, 4100, v) ensures PgRoundDown(v) == 0 {
      SameOffset(100, v);
    }
  }

  /** A loop started at an aligned `lo` reaches the page of every address from `lo` below `hi`. */
  lemma KernelCopiedAll(pt0: PageTable, pt: PageTable, root: nat, kroot: nat, lo: nat, hi: nat)
    requires lo % PGSIZE == 0 && KernelCopied(pt0, pt, root, kroot, lo, hi)
    ensures forall v :: lo <= v < hi ==>
      Entry(pt0, root, v).Some? && Entry(pt, kroot, v) == Some(KernelPte(Entry(pt0, root, v).value))
  {
    OnePage(lo);
    forall v | lo <= v < hi
      ensures Entry(pt0, root, v).Some? && Entry(pt, kroot, v) == Some(KernelPte(Entry(pt0, root, v).value))
    {
      RoundDownRange(lo, v);
      MappingPage(pt0, root, v);
      MappingPage(pt, kroot, v);
      assert Visited(lo, hi, PgRoundDown(v));
    }
  }

  /**
   * Writing the kernel PTE of `a`, found by a walk that only grew the
   * tables of `m` into `m2`, leaves every other page of every root grown
   * from `m` alone.
   */
  lemma CopyPageOutside(m: Mem, m2: Mem, kroot: nat, a: nat, n: nat, i: nat, e: Pte)
    requires Tree(m2.pt, m2.lvl, m2.owner) && IsRoot(m2.pt, m2.lvl, kroot) && a < MAXVA
    requires Grows(m.pt, m.lvl, m2.pt) && KeepsLevels(m, m2) && m.pt.Keys <= m2.pt.Keys
    requires Lookup(m2.pt, kroot, a) == Some((n, i)) && n in m2.pt && n in m2.lvl && m2.lvl[n] == 0 && i < NPTE
    ensures GrowsBut(m, SetLeaf(m2, n, i, e), kroot, PgRoundDown(a))
  {
    MappingPage(m2.pt, kroot, a);
    forall r: nat, q: nat | IsRoot(m.pt, m.lvl, r) && q % PGSIZE == 0 && q < MAXVA && !(r == kroot && q == PgRoundDown(a))
      ensures EntryGrows(Entry(m.pt, r, q), Entry(SetLeaf(m2, n, i, e).pt, r, q))
    {
      LeafEntry(m2.pt, m2.lvl, m2.owner, n, i, e, r, q);
      if Lookup(m2.pt, r, q) == Some((n, i)) {
        LookupDistinct(m2.pt, m2.lvl, m2.owner, r, q, kroot, PgRoundDown(a));
      }
    }
  }

  /** The user PTE that u2kvmcopy's loop reads at `a` is still the one it had on entry. */
  lemma KernelCopyReady(m0: Mem, m: Mem, root: nat, kroot: nat, lo: nat, a: nat)
    requires IsRoot(m0.pt, m0.lvl, root) && lo <= a < MAXVA && a % PGSIZE == lo % PGSIZE
    requires Entry(m0.pt, root, a).Some? && GrowsExcept(m0, m, kroot, lo, a)
    ensures Entry(m.pt, root, a) == Entry(m0.pt, root, a)
  {
    PageOffset(a);
    MappingPage(m0.pt, root, a);
    MappingPage(m.pt, root, a);
    assert !Visited(lo, a, PgRoundDown(a) + lo % PGSIZE);
  }

  /** After the iteration at `a` has written the kernel PTE of `a`'s page, the loop's invariant holds one page on. */
  lemma KernelCopyNext(m0: Mem, m: Mem, m2: Mem, root: nat, kroot: nat, lo: nat, a: nat)
    requires Grown(m0, m) && lo <= a < MAXVA && a % PGSIZE == lo % PGSIZE
    requires KernelCopied(m0.pt, m.pt, root, kroot, lo, a) && GrowsExcept(m0, m, kroot, lo, a)
    requires Entry(m.pt, root, a) == Entry(m0.pt, root, a) && Entry(m0.pt, root, a).Some?
    requires GrowsBut(m, m2, kroot, PgRoundDown(a)) && IsRoot(m.pt, m.lvl, kroot)
    requires Entry(m2.pt, kroot, a) == Some(KernelPte(Entry(m.pt, root, a).value))
    ensures KernelCopied(m0.pt, m2.pt, root, kroot, lo, a + PGSIZE) && GrowsExcept(m0, m2, kroot, lo, a + PGSIZE)
  {
    forall v: nat | Visited(lo, a + PGSIZE, v)
      ensures Entry(m0.pt, root, v).Some? && Entry(m2.pt, kroot, v) == Some(KernelPte(Entry(m0.pt, root, v).value))
    {
      SameOffset(v, a);
      SameOffset(a, v);
      if v < a {
        MappingPage(m.pt, kroot, v);
        MappingPage(m2.pt, kroot, v);
        assert EntryGrows(Entry(m.pt, kroot, PgRoundDown(v)), Entry(m2.pt, kroot, PgRoundDown(v)));
      }
    }
    PageOffset(a);
    forall r: nat, p: nat | IsRoot(m0.pt, m0.lvl, r) && p % PGSIZE == 0 && p < MAXVA &&
                            !(r == kroot && Visited(lo, a + PGSIZE, p + lo % PGSIZE))
      ensures EntryGrows(Entry(m0.pt, r, p), Entry(m2.pt, r, p))
    {
      assert IsRoot(m.pt, m.lvl, r);
      assert EntryGrows(Entry(m0.pt, r, p), Entry(m.pt, r, p));
      assert EntryGrows(Entry(m.pt, r, p), Entry(m2.pt, r, p));
    }
  }

  /** When u2kvmcopy's loop stops at the first visited address at or above `hi`, it visited exactly those below `hi`. */
  lemma KernelCopyDone(m0: Mem, m: Mem, root: nat, kroot: nat, lo: nat, a: nat, hi: nat)
    requires lo <= a && a % PGSIZE == lo % PGSIZE && (a == lo || a < hi + PGSIZE) && hi <= a
    requires KernelCopied(m0.pt, m.pt, root, kroot, lo, a) && GrowsExcept(m0, m, kroot, lo, a)
    ensures KernelCopied(m0.pt, m.pt, root, kroot, lo, hi) && GrowsExcept(m0, m, kroot, lo, hi)
  {
    forall r: nat, p: nat | IsRoot(m0.pt, m0.lvl, r) && p % PGSIZE == 0 && p < MAXVA &&
                            !(r == kroot && Visited(lo, hi, p + lo % PGSIZE))
      ensures EntryGrows(Entry(m0.pt, r, p), Entry(m.pt, r, p))
    {
      SameOffset(p + lo % PGSIZE, a);
    }
  }

  class Memory {
    var pt: PageTable
    var ram: seq<bv8>
    ghost var lvl: map<nat, nat>
    ghost var owner: map<nat, (nat, nat)>
    /** The allocator that every page-table page and user page comes from. */
    const kmem: KAlloc.KMem

    /** Boot state: no page-table pages yet, the allocator already initialised by kinit. */
    constructor Init(k: KAlloc.KMem, ram: seq<bv8>)
      requires k.Valid() && Distinct(k.lists[..]) && |ram| == k.phystop && k.phystop % PGSIZE == 0
      ensures Valid() && kmem == k && pt == map[] && this.ram == ram
    {
      pt := map[];
      this.ram := ram;
      lvl := map[];
      owner := map[];
      kmem := k;
    }

    ghost function M(): Mem
      reads this, kmem.lists
    {
      Mem(pt, kmem.lists[..], ram, lvl, owner)
    }

    /**
     * The free lists are disjoint and hold frames kfree accepts; the
     * page-table pages form a tree, are frames kfree accepts, and are on no
     * free list; `ram` covers physical memory up to the page-aligned PHYSTOP.
     */
    ghost predicate Inv(m: Mem)
    {
      |m.ls| == NCPU && kmem.AllInRange(m.ls) && Distinct(m.ls) &&
      Tree(m.pt, m.lvl, m.owner) &&
      (forall a :: a in m.pt ==> kmem.InRange(a) && a !in Flat(m.ls)) &&
      |m.ram| == kmem.phystop && kmem.phystop % PGSIZE == 0
    }

    ghost predicate Valid()
      reads this, kmem, kmem.lists
    {
      kmem.Valid() && Inv(M())
    }

    /** One allocating step of walk: link a fresh zeroed node under the invalid entry on `va`'s path. */
    lemma LinkStep(m: Mem, cpu: nat, root: nat, node: nat, level: nat, va: nat)
      requires Inv(m) && 0 < kmem.end && cpu < NCPU && IsRoot(m.pt, m.lvl, root) && 1 <= level <= 2
      requires node in m.pt && node in m.lvl && m.lvl[node] == level && Descend(m.pt, root, va, level) == Some(node)
      requires !IsValid(m.pt[node][PX(level, va)])
      requires KAlloc.Take(m.ls, cpu).0 != 0
      ensures var (n, ls1) := KAlloc.Take(m.ls, cpu);
        var m1 := Mem(Link(m.pt, node, PX(level, va), n), ls1, m.ram, m.lvl[n := level - 1],
                      m.owner[n := (node, PX(level, va))]);
        Inv(m1) && IsRoot(m1.pt, m1.lvl, root) && n in m1.pt && m1.lvl[n] == level - 1 &&
        Descend(m1.pt, root, va, level - 1) == Some(n) && n !in m.pt
    {
      var (n, ls1) := KAlloc.Take(m.ls, cpu);
      var i := PX(level, va);
      kmem.TakeFacts(m.ls, cpu);
      assert n !in m.pt;
      LinkTree(m.pt, m.lvl, m.owner, node, i, n);
      LinkDescend(m.pt, m.lvl, m.owner, node, n, root, va);
    }

    /** The same step keeps every translation and moves exactly one frame from the free lists to the tree. */
    lemma LinkKeeps(m: Mem, cpu: nat, node: nat, level: nat, va: nat)
      requires Inv(m) && 0 < kmem.end && cpu < NCPU && 1 <= level <= 2
      requires node in m.pt && node in m.lvl && m.lvl[node] == level
      requires !IsValid(m.pt[node][PX(level, va)])
      requires KAlloc.Take(m.ls, cpu).0 != 0
      ensures var (n, ls1) := KAlloc.Take(m.ls, cpu);
        var m1 := Mem(Link(m.pt, node, PX(level, va), n), ls1, m.ram, m.lvl[n := level - 1],
                      m.owner[n := (node, PX(level, va))]);
        m1.pt[n] == Zeros() && SameMappings(m.pt, m.lvl, m1.pt) && Conserved(m, m1) && KeepsLevels(m, m1) &&
        m.pt.Keys <= m1.pt.Keys
    {
      var (n, ls1) := KAlloc.Take(m.ls, cpu);
      var i := PX(level, va);
      kmem.TakeFacts(m.ls, cpu);
      assert n !in m.pt;
      LinkSame(m.pt, m.lvl, m.owner, node, i, n);
      var m1 := Mem(Link(m.pt, node, i, n), ls1, m.ram, m.lvl[n := level - 1], m.owner[n := (node, i)]);
      assert Flat(ls1) + m1.pt.Keys == Flat(m.ls) + m.pt.Keys;
    }

    /**
     * What walk promises: without `alloc` it changes nothing and finds the
     * PTE exactly when the path of valid entries exists; with `alloc` it
     * keeps every translation, only adds page-table pages taken from the
     * free lists, and fails only when those lists ran empty. A PTE it returns
     * lies in a level-0 node on `va`'s path.
     */
    lemma {:induction false} WalkFacts(m: Mem, cpu: nat, root: nat, node: nat, level: nat, va: nat, alloc: bool)
      requires Inv(m) && 0 < kmem.end && cpu < NCPU && IsRoot(m.pt, m.lvl, root) && level <= 2
      requires node in m.pt && node in m.lvl && m.lvl[node] == level && Descend(m.pt, root, va, level) == Some(node)
      ensures var (m', n) := WalkFrom(m, cpu, node, level, va, alloc);
        Inv(m') && m'.ram == m.ram && IsRoot(m'.pt, m'.lvl, root) &&
        SameMappings(m.pt, m.lvl, m'.pt) && Conserved(m, m') && KeepsLevels(m, m') && m.pt.Keys <= m'.pt.Keys &&
        (n.Some? ==> Descend(m'.pt, root, va, 0) == n && n.value in m'.pt && m'.lvl[n.value] == 0) &&
        (!alloc ==> m' == m && n == Descend(m.pt, root, va, 0)) &&
        (alloc && n.None? ==> Flat(m'.ls) == {})
      decreases level
    {
      if level > 0 {
        var i := PX(level, va);
        var e := m.pt[node][i];
        if IsValid(e) {
          assert LinkOk(m.pt, m.lvl, m.owner, node, i);
          WalkFacts(m, cpu, root, PTE2PA(e), level - 1, va, alloc);
        } else if !alloc {
          assert Descend(m.pt, root, va, level - 1).None?;
        } else {
          kmem.TakeFacts(m.ls, cpu);
          var (n, ls1) := KAlloc.Take(m.ls, cpu);
          if n != 0 {
            LinkStep(m, cpu, root, node, level, va);
            LinkKeeps(m, cpu, node, level, va);
            var m1 := Mem(Link(m.pt, node, i, n), ls1, m.ram, m.lvl[n := level - 1], m.owner[n := (node, i)]);
            WalkFacts(m1, cpu, root, n, level - 1, va, alloc);
          }
        }
      }
    }

    /** walk, with or without allocation, loses no PTE of any root; an absent PTE may become a zero one. */
    lemma {:induction false} WalkGrows(m: Mem, cpu: nat, root: nat, node: nat, level: nat, va: nat, alloc: bool)
      requires Inv(m) && 0 < kmem.end && cpu < NCPU && IsRoot(m.pt, m.lvl, root) && level <= 2
      requires node in m.pt && node in m.lvl && m.lvl[node] == level && Descend(m.pt, root, va, level) == Some(node)
      ensures Grows(m.pt, m.lvl, WalkFrom(m, cpu, node, level, va, alloc).0.pt)
      decreases level
    {
      if level > 0 {
        var i := PX(level, va);
        var e := m.pt[node][i];
        if IsValid(e) {
          assert LinkOk(m.pt, m.lvl, m.owner, node, i);
          WalkGrows(m, cpu, root, PTE2PA(e), level - 1, va, alloc);
        } else if alloc {
          kmem.TakeFacts(m.ls, cpu);
          var (n, ls1) := KAlloc.Take(m.ls, cpu);
          if n != 0 {
            LinkStep(m, cpu, root, node, level, va);
            LinkGrows(m.pt, m.lvl, m.owner, node, i, n);
            var m1 := Mem(Link(m.pt, node, i, n), ls1, m.ram, m.lvl[n := level - 1], m.owner[n := (node, i)]);
            WalkGrows(m1, cpu, root, n, level - 1, va, alloc);
            GrowsTrans(m.pt, m.lvl, m1.pt, m1.lvl, WalkFrom(m1, cpu, n, level - 1, va, alloc).0.pt);
          }
        }
      }
    }

    /**
     * The allocating branch of walk's loop: kalloc a frame, zero it and make
     * entry PX(level, va) of `node` point to it with PTE_V alone.
     */
    method AllocTable(node: nat, level: nat, va: nat, ghost root: nat, cpu: nat) returns (n: nat)
      requires Valid() && IsRoot(pt, lvl, root) && 1 <= level <= 2 && cpu < NCPU
      requires node in pt && node in lvl && lvl[node] == level && Descend(pt, root, va, level) == Some(node)
      requires !IsValid(pt[node][PX(level, va)])
      modifies this, kmem.lists
      ensures Valid() && IsRoot(pt, lvl, root)
      ensures (n, kmem.lists[..]) == KAlloc.Take(old(kmem.lists[..]), cpu)
      ensures n == 0 ==> pt == old(pt) && ram == old(ram) && lvl == old(lvl) && owner == old(owner)
      ensures n != 0 ==> pt == Link(old(pt), node, PX(level, va), n) && ram == old(ram)
      ensures n != 0 ==> lvl == old(lvl)[n := level - 1] && owner == old(owner)[n := (node, PX(level, va))]
      ensures n != 0 ==> n in pt && n in lvl && lvl[n] == level - 1 && Descend(pt, root, va, level - 1) == Some(n)
    {
      ghost var m := M();
      var i := PX(level, va);
      kmem.TakeFacts(m.ls, cpu);
      n := kmem.Kalloc(cpu);
      if n != 0 {
        LinkStep(m, cpu, root, node, level, va);
        ghost var m1 := Mem(Link(m.pt, node, i, n), kmem.lists[..], m.ram, m.lvl[n := level - 1],
                            m.owner[n := (node, i)]);
        pt := pt[n := Zeros()];
        pt := pt[node := pt[node][i := MakePte(n, PTE_V)]];
        lvl := lvl[n := level - 1];
        owner := owner[n := (node, i)];
        assert M() == m1;
      }
    }

    /**
     * walk: the PTE for `va` in the tree at `root`, creating zeroed
     * page-table pages on the way when `alloc` is set. `va >= MAXVA` is a
     * panic.
     */
    method Walk(root: nat, va: nat, alloc: bool, cpu: nat) returns (pte: Option<(nat, nat)>)
      requires Valid() && IsRoot(pt, lvl, root) && va < MAXVA && cpu < NCPU
      modifies this, kmem.lists
      ensures Valid()
      ensures var (m', n) := WalkFrom(old(M()), cpu, root, 2, va, alloc);
        M() == m' && pte == PtePtr(n, va)
    {
      ghost var m0 := M();
      var node := root;
      var level := 2;
      while level > 0
        invariant level <= 2 && Valid() && IsRoot(pt, lvl, root)
        invariant node in pt && node in lvl && lvl[node] == level && Descend(pt, root, va, level) == Some(node)
        invariant WalkFrom(M(), cpu, node, level, va, alloc) == WalkFrom(m0, cpu, root, 2, va, alloc)
      {
        var i := PX(level, va);
        var e := pt[node][i];
        if IsValid(e) {
          assert LinkOk(pt, lvl, owner, node, i);
          node := PTE2PA(e);
        } else {
          if !alloc {
            return None;
          }
          var n := AllocTable(node, level, va, root, cpu);
          if n == 0 {
            return None;
          }
          node := n;
        }
        level := level - 1;
      }
      return Some((node, PX(0, va)));
    }

    /** A fresh all-zero root keeps the tree invariant and every translation of the other roots. */
    lemma NewRoot(m: Mem, r: nat)
      requires Tree(m.pt, m.lvl, m.owner) && r !in m.pt
      ensures var m' := m.(pt := m.pt[r := Zeros()], lvl := m.lvl[r := 2]);
        Tree(m'.pt, m'.lvl, m'.owner) && IsRoot(m'.pt, m'.lvl, r) && SameMappings(m.pt, m.lvl, m'.pt) &&
        forall va :: Mapping(m'.pt, r, va).None?
    {
      var m' := m.(pt := m.pt[r := Zeros()], lvl := m.lvl[r := 2]);
      AddRootTree(m.pt, m.lvl, m.owner, r);
      NewRootSame(m, r);
      forall va ensures Mapping(m'.pt, r, va).None? {
        assert !IsValid(m'.pt[r][PX(2, va)]);
      }
    }

    lemma NewRootSame(m: Mem, r: nat)
      requires Tree(m.pt, m.lvl, m.owner) && r !in m.pt
      ensures SameMappings(m.pt, m.lvl, m.pt[r := Zeros()])
    {
      forall r0, va | IsRoot(m.pt, m.lvl, r0) ensures Mapping(m.pt[r := Zeros()], r0, va) == Mapping(m.pt, r0, va) {
        AddNodeMapping(m.pt, m.lvl, m.owner, r, Zeros(), r0, va);
      }
    }

    /**
     * What uvmcreate promises: 0 exactly when every free list is empty;
     * otherwise a frame that was free becomes a new root whose every
     * translation is absent, and no other translation changes.
     */
    lemma CreateFacts(m: Mem, cpu: nat)
      requires Inv(m) && 0 < kmem.end && cpu < NCPU
      ensures var (m', r) := Create(m, cpu);
        Inv(m') && Conserved(m, m') && KeepsLevels(m, m') && m.pt.Keys <= m'.pt.Keys && m'.ram == m.ram &&
        (r == 0 <==> Flat(m.ls) == {}) &&
        (r == 0 ==> m' == m) &&
        (r != 0 ==> r !in m.pt && r in Flat(m.ls) && IsRoot(m'.pt, m'.lvl, r) &&
                    (forall va :: Mapping(m'.pt, r, va).None?) && SameMappings(m.pt, m.lvl, m'.pt))
    {
      kmem.TakeFacts(m.ls, cpu);
      var (m', r) := Create(m, cpu);
      if r != 0 {
        assert r !in m.pt;
        NewRoot(m, r);
      }
    }

    /** uvmcreate: an empty page table, or 0 when out of memory. */
    method UvmCreate(cpu: nat) returns (r: nat)
      requires Valid() && cpu < NCPU
      modifies this, kmem.lists
      ensures Valid()
      ensures (M(), r) == Create(old(M()), cpu)
    {
      ghost var m := M();
      CreateFacts(m, cpu);
      kmem.TakeFacts(m.ls, cpu);
      r := kmem.Kalloc(cpu);
      if r == 0 {
        return 0;
      }
      pt := pt[r := Zeros()];
      lvl := lvl[r := 2];
    }

    /** Writing a PTE of a level-0 node keeps the invariant and changes only the PTE of the addresses that walk to it. */
    lemma LeafStep(m: Mem, n: nat, i: nat, e: Pte)
      requires Inv(m) && n in m.pt && n in m.lvl && m.lvl[n] == 0 && i < NPTE
      ensures var m' := SetLeaf(m, n, i, e);
        Inv(m') && m'.pt.Keys == m.pt.Keys && m'.ls == m.ls && m'.ram == m.ram && m'.lvl == m.lvl &&
        m'.owner == m.owner && m'.pt[n][i] == e
      ensures forall r: nat, va: nat :: IsRoot(m.pt, m.lvl, r) ==>
        Lookup(SetLeaf(m, n, i, e).pt, r, va) == Lookup(m.pt, r, va) &&
        Entry(SetLeaf(m, n, i, e).pt, r, va) == (if Lookup(m.pt, r, va) == Some((n, i)) then Some(e) else Entry(m.pt, r, va))
    {
      LeafTree(m.pt, m.lvl, m.owner, n, i, e);
      forall r: nat, va: nat | IsRoot(m.pt, m.lvl, r)
        ensures Lookup(SetLeaf(m, n, i, e).pt, r, va) == Lookup(m.pt, r, va)
        ensures Entry(SetLeaf(m, n, i, e).pt, r, va) ==
          (if Lookup(m.pt, r, va) == Some((n, i)) then Some(e) else Entry(m.pt, r, va))
      {
        LeafEntry(m.pt, m.lvl, m.owner, n, i, e, r, va);
      }
    }

    /** The write of a PTE for page `a` leaves every other page of every root as it was. */
    lemma LeafOutside(m: Mem, root: nat, a: nat, n: nat, e: Pte)
      requires Inv(m) && IsRoot(m.pt, m.lvl, root) && a % PGSIZE == 0 && a < MAXVA
      requires Lookup(m.pt, root, a) == Some((n, PX(0, a))) && n in m.pt && n in m.lvl && m.lvl[n] == 0
      ensures EntriesOutside(m, SetLeaf(m, n, PX(0, a), e), root, a, a)
      ensures SameOutside(m, SetLeaf(m, n, PX(0, a), e), root, a, a)
      ensures Entry(SetLeaf(m, n, PX(0, a), e).pt, root, a) == Some(e)
    {
      var i := PX(0, a);
      LeafEntry(m.pt, m.lvl, m.owner, n, i, e, root, a);
      forall r: nat, v: nat | IsRoot(m.pt, m.lvl, r) && v % PGSIZE == 0 && v < MAXVA && !(r == root && a <= v <= a)
        ensures Entry(SetLeaf(m, n, i, e).pt, r, v) == Entry(m.pt, r, v)
      {
        LeafEntry(m.pt, m.lvl, m.owner, n, i, e, r, v);
        if Lookup(m.pt, r, v) == Some((n, i)) {
          LookupDistinct(m.pt, m.lvl, m.owner, r, v, root, a);
        }
      }
      EntriesSame(m, SetLeaf(m, n, i, e), root, a, a);
    }

    /**
     * The write in one iteration of mappages, after walk found the PTE of
     * the unmapped page `a` in node `n`: the PTE was invalid (so "remap"
     * cannot happen) and afterwards `a` alone is mapped to `pa`.
     */
    lemma MapWrite(m: Mem, root: nat, a: nat, n: nat, pa: nat, perm: Flags)
      requires Inv(m) && IsRoot(m.pt, m.lvl, root) && a % PGSIZE == 0 && a < MAXVA && Mapping(m.pt, root, a).None?
      requires Descend(m.pt, root, a, 0) == Some(n) && n in m.pt && n in m.lvl && m.lvl[n] == 0
      ensures PX(0, a) < |m.pt[n]| && !IsValid(m.pt[n][PX(0, a)])
      ensures var m2 := SetLeaf(m, n, PX(0, a), MakePte(pa, perm | PTE_V));
        Inv(m2) && IsRoot(m2.pt, m2.lvl, root) && m2.ram == m.ram && m2.ls == m.ls && m2.pt.Keys == m.pt.Keys &&
        m2.lvl == m.lvl && Mapping(m2.pt, root, a) == Some(MakePte(pa, perm | PTE_V)) && SameOutside(m, m2, root, a, a)
    {
      var e := MakePte(pa, perm | PTE_V);
      assert Lookup(m.pt, root, a) == Some((n, PX(0, a)));
      LeafStep(m, n, PX(0, a), e);
      LeafOutside(m, root, a, n, e);
      assert IsValid(e);
    }

    /**
     * One iteration of mappages on the unmapped page `a` keeps the invariant
     * and adds only page-table pages taken from the free lists; it fails only
     * when those lists are empty.
     */
    lemma MapOneKeeps(m: Mem, cpu: nat, root: nat, a: nat, pa: nat, perm: Flags)
      requires Inv(m) && 0 < kmem.end && cpu < NCPU && IsRoot(m.pt, m.lvl, root)
      requires a % PGSIZE == 0 && a < MAXVA && Mapping(m.pt, root, a).None?
      ensures var (m2, ok) := MapOne(m, cpu, root, a, pa, perm);
        Inv(m2) && IsRoot(m2.pt, m2.lvl, root) && m2.ram == m.ram && Grown(m, m2) &&
        (!ok ==> Flat(m2.ls) == {})
    {
      var (m1, n) := WalkFrom(m, cpu, root, 2, a, true);
      WalkFacts(m, cpu, root, root, 2, a, true);
      if n.Some? {
        MapWrite(m1, root, a, n.value, pa, perm);
        var m2 := SetLeaf(m1, n.value, PX(0, a), MakePte(pa, perm | PTE_V));
        assert Grown(m1, m2);
        GrownTrans(m, m1, m2);
      }
    }

    /**
     * One iteration of mappages on the unmapped page `a`: on success `a` maps
     * PA2PTE(pa) | perm | PTE_V, on failure it is still unmapped, and no other
     * translation of any root changes.
     */
    lemma MapOneFacts(m: Mem, cpu: nat, root: nat, a: nat, pa: nat, perm: Flags)
      requires Inv(m) && 0 < kmem.end && cpu < NCPU && IsRoot(m.pt, m.lvl, root)
      requires a % PGSIZE == 0 && a < MAXVA && Mapping(m.pt, root, a).None?
      ensures var (m2, ok) := MapOne(m, cpu, root, a, pa, perm);
        SameOutside(m, m2, root, a, a) &&
        (ok ==> Mapping(m2.pt, root, a) == Some(MakePte(pa, perm | PTE_V))) &&
        (!ok ==> Mapping(m2.pt, root, a).None?)
    {
      var (m1, n) := WalkFrom(m, cpu, root, 2, a, true);
      WalkFacts(m, cpu, root, root, 2, a, true);
      if n.None? {
        SameThenOutside(m, m1, m1, root, a, a);
      } else {
        MapWrite(m1, root, a, n.value, pa, perm);
        var m2 := SetLeaf(m1, n.value, PX(0, a), MakePte(pa, perm | PTE_V));
        assert Grown(m1, m2);
        SameThenOutside(m, m1, m2, root, a, a);
      }
    }

    /** What one iteration of mappages needs from walk: where the PTE sits, and that `a` is still unmapped. */
    lemma WalkFound(m: Mem, cpu: nat, root: nat, a: nat)
      requires Inv(m) && 0 < kmem.end && cpu < NCPU && IsRoot(m.pt, m.lvl, root)
      ensures var (m1, n) := WalkFrom(m, cpu, root, 2, a, true);
        Inv(m1) && IsRoot(m1.pt, m1.lvl, root) &&
        (n.Some? ==> Descend(m1.pt, root, a, 0) == n && n.value in m1.pt && n.value in m1.lvl &&
                     m1.lvl[n.value] == 0 && Mapping(m1.pt, root, a) == Mapping(m.pt, root, a))
    {
      WalkFacts(m, cpu, root, root, 2, a, true);
    }

    /** The PTE walk finds for an unmapped page is invalid, so mappages never meets "remap". */
    lemma LeafFree(m: Mem, root: nat, a: nat, n: nat)
      requires Inv(m) && IsRoot(m.pt, m.lvl, root) && Mapping(m.pt, root, a).None?
      requires Descend(m.pt, root, a, 0) == Some(n) && n in m.pt
      ensures PX(0, a) < |m.pt[n]| && !IsValid(m.pt[n][PX(0, a)])
    {
    }

    /** `*pte = e` for entry `i` of the level-0 node `n`. */
    method WriteLeaf(n: nat, i: nat, e: Pte)
      requires Valid() && n in pt && n in lvl && lvl[n] == 0 && i < NPTE
      modifies this
      ensures Valid() && M() == SetLeaf(old(M()), n, i, e)
    {
      LeafStep(M(), n, i, e);
      pt := pt[n := pt[n][i := e]];
    }

    /** One iteration of mappages' loop: walk with allocation, then set the PTE found. */
    method MapOnePage(root: nat, a: nat, pa: nat, perm: Flags, cpu: nat) returns (ok: bool)
      requires Valid() && IsRoot(pt, lvl, root) && cpu < NCPU
      requires a % PGSIZE == 0 && a < MAXVA && Mapping(pt, root, a).None?
      modifies this, kmem.lists
      ensures Valid() && IsRoot(pt, lvl, root)
      ensures ram == old(ram) && Grown(old(M()), M()) && SameOutside(old(M()), M(), root, a, a)
      ensures ok ==> Mapping(pt, root, a) == Some(MakePte(pa, perm | PTE_V))
      ensures !ok ==> Mapping(pt, root, a).None? && Flat(kmem.lists[..]) == {}
    {
      MapOneKeeps(M(), cpu, root, a, pa, perm);
      MapOneFacts(M(), cpu, root, a, pa, perm);
      WalkFound(M(), cpu, root, a);
      var pte := Walk(root, a, true, cpu);
      if pte.None? {
        return false;
      }
      var (n, i) := pte.value;
      LeafFree(M(), root, a, n);
      if IsValid(pt[n][i]) {
        assert false;
      }
      WriteLeaf(n, i, MakePte(pa, perm | PTE_V));
      assert (M(), true) == MapOne(old(M()), cpu, root, a, pa, perm);
      return true;
    }

    /**
     * One iteration of mappages' loop, with the loop's invariant: the pages
     * `lo`..`a` - 1 are mapped to consecutive frames from `pa`, `a`..`last`
     * are unmapped, and nothing outside `lo`..`last` changed since `m0`.
     */
    method MapStep(root: nat, ghost lo: nat, a: nat, last: nat, pa: nat, p: nat, perm: Flags, cpu: nat, ghost m0: Mem)
      returns (ok: bool)
      requires Valid() && IsRoot(pt, lvl, root) && cpu < NCPU && ram == m0.ram && Grown(m0, M())
      requires lo <= a && a % PGSIZE == 0 && a <= last < MAXVA && (last - a) % PGSIZE == 0 && p == pa + (a - lo)
      requires last % PGSIZE == 0
      requires Unmapped(pt, root, a, last) && SameOutside(m0, M(), root, lo, last)
      requires MappedRange(pt, root, lo, a - 1, pa, perm, false)
      modifies this, kmem.lists
      ensures Valid() && IsRoot(pt, lvl, root) && ram == m0.ram && Grown(m0, M())
      ensures SameOutside(m0, M(), root, lo, last)
      ensures !ok ==> Flat(kmem.lists[..]) == {} && MappedRange(pt, root, lo, last, pa, perm, true)
      ensures !ok ==> Mapping(pt, root, last).None?
      ensures ok ==> MappedRange(pt, root, lo, a + PGSIZE - 1, pa, perm, false)
      ensures ok && a != last ==> a + PGSIZE <= last && (last - (a + PGSIZE)) % PGSIZE == 0 &&
                                  (a + PGSIZE) % PGSIZE == 0 && Unmapped(pt, root, a + PGSIZE, last)
    {
      ghost var m := M();
      ok := MapOnePage(root, a, p, perm, cpu);
      GrownTrans(m0, m, M());
      OutsideTrans(m0, m, M(), root, lo, last, a, a, lo, last);
      if !ok {
        MapStop(m, M(), root, lo, a, last, pa, perm);
      } else {
        MapExtend(m, M(), root, lo, a, pa, p, perm);
        if a != last {
          AlignedStep(a, last);
          MapNext(m, M(), root, a, last);
        }
      }
    }

    /**
     * mappages: map the pages from PGROUNDDOWN(va) to PGROUNDDOWN(va + size
     * - 1) to consecutive frames from `pa`. 0 on success, -1 when walk
     * cannot allocate a page-table page. Remapping a valid PTE and an
     * address beyond MAXVA are panics.
     */
    method MapPages(root: nat, va: nat, size: nat, pa: nat, perm: Flags, cpu: nat) returns (r: int)
      requires Valid() && IsRoot(pt, lvl, root) && cpu < NCPU
      requires 0 < size && va + size <= MAXVA
      requires Unmapped(pt, root, PgRoundDown(va), PgRoundDown(va + size - 1))
      modifies this, kmem.lists
      ensures Valid() && IsRoot(pt, lvl, root) && ram == old(ram) && Grown(old(M()), M())
      ensures r == 0 || (r == -1 && Flat(kmem.lists[..]) == {})
      ensures SameOutside(old(M()), M(), root, PgRoundDown(va), PgRoundDown(va + size - 1))
      ensures MappedRange(pt, root, PgRoundDown(va), PgRoundDown(va + size - 1), pa, perm, r == -1)
      ensures r == -1 ==> Mapping(pt, root, PgRoundDown(va + size - 1)).None?
    {
      ghost var m0 := M();
      var a: nat := PgRoundDown(va);
      var last := PgRoundDown(va + size - 1);
      var p: nat := pa;
      RoundDownRange(va, va + size - 1);
      ghost var lo := a;
      while true
        invariant Valid() && IsRoot(pt, lvl, root) && ram == m0.ram && Grown(m0, M())
        invariant lo <= a && a % PGSIZE == 0 && a <= last < MAXVA && (last - a) % PGSIZE == 0 && p == pa + (a - lo)
        invariant last % PGSIZE == 0
        invariant Unmapped(pt, root, a, last) && SameOutside(m0, M(), root, lo, last)
        invariant MappedRange(pt, root, lo, a - 1, pa, perm, false)
        decreases last - a
      {
        var ok := MapStep(root, lo, a, last, pa, p, perm, cpu, m0);
        if !ok {
          return -1;
        }
        if a == last {
          return 0;
        }
        a := a + PGSIZE;
        p := p + PGSIZE;
      }
    }

    /**
     * The frames of the pages from `lo` below `hi` belong to those pages
     * alone: kfree accepts each, none is a page-table page, and no two pages
     * share one.
     */
    ghost predicate Owned(pt: PageTable, root: nat, lo: nat, hi: nat)
    {
      (forall b :: lo <= b < hi && b % PGSIZE == 0 ==>
         kmem.InRange(FrameOf(pt, root, b)) && FrameOf(pt, root, b) !in pt) &&
      (forall b, c :: lo <= b < c < hi && b % PGSIZE == 0 && c % PGSIZE == 0 ==> FrameOf(pt, root, b) != FrameOf(pt, root, c))
    }

    /**
     * The invariant of uvmunmap's loop: the pages `va`..`a` - 1 are cleared,
     * their frames (when `doFree`) pushed on the list of `cpu` in order, and
     * nothing else changed since `m0`.
     */
    ghost predicate Unmapping(m0: Mem, m: Mem, root: nat, va: nat, a: nat, hi: nat, doFree: bool, cpu: nat)
    {
      cpu < |m0.ls| && IsRoot(m.pt, m.lvl, root) &&
      m.pt.Keys == m0.pt.Keys && m.lvl == m0.lvl && m.ram == m0.ram && m.owner == m0.owner &&
      OnlyZeroed(m0.pt, m0.lvl, m.pt) &&
      va <= a <= hi && a % PGSIZE == 0 && (hi - a) % PGSIZE == 0 &&
      (doFree ==> Unfreed(m.ls, m0.pt, root, a, hi)) &&
      Cleared(m.pt, root, va, a) && EntriesOutside(m0, m, root, va, a - 1) &&
      m.ls == Freed(m0.ls, cpu, doFree, Frames(m0.pt, root, va, a))
    }

    /**
     * One iteration of uvmunmap's loop at page `a`: the PTE walk finds must be
     * a valid leaf (otherwise a panic); its frame is freed when `doFree`, and
     * the PTE becomes 0.
     */
    method UnmapPage(root: nat, a: nat, doFree: bool, cpu: nat)
      requires Valid() && IsRoot(pt, lvl, root) && cpu < NCPU && a % PGSIZE == 0 && a < MAXVA
      requires Mapping(pt, root, a).Some? && Mapping(pt, root, a).value.flags != PTE_V
      requires doFree ==> kmem.InRange(FrameOf(pt, root, a)) && FrameOf(pt, root, a) !in pt &&
                          FrameOf(pt, root, a) !in Flat(kmem.lists[..])
      modifies this, kmem.lists
      ensures Valid() && pt.Keys == old(pt.Keys) && lvl == old(lvl) && ram == old(ram) && owner == old(owner)
      ensures Entry(pt, root, a) == Some(ZERO) && EntriesOutside(old(M()), M(), root, a, a)
      ensures OnlyZeroed(old(pt), lvl, pt)
      ensures kmem.lists[..] ==
        if doFree then old(kmem.lists[..])[cpu := [FrameOf(old(pt), root, a)] + old(kmem.lists[cpu])]
        else old(kmem.lists[..])
    {
      WalkFacts(M(), cpu, root, root, 2, a, false);
      var pte := Walk(root, a, false, cpu);
      if pte.None? {
        assert false;
      }
      var (n, i) := pte.value;
      if !IsValid(pt[n][i]) {
        assert false;
      }
      if pt[n][i].flags == PTE_V {
        assert false;
      }
      if doFree {
        var pa := PTE2PA(pt[n][i]);
        PushDistinct(kmem.lists[..], cpu, pa);
        kmem.Kfree(pa, cpu);
      }
      LeafOutside(M(), root, a, n, ZERO);
      LeafStep(M(), n, i, ZERO);
      WriteLeaf(n, i, ZERO);
    }

    /** Page `a`, not yet reached by uvmunmap's loop, still has the leaf and the frame it had at the start. */
    lemma UnmapReady(m0: Mem, m: Mem, root: nat, va: nat, a: nat, hi: nat, doFree: bool)
      requires IsRoot(m.pt, m.lvl, root) && m.pt.Keys == m0.pt.Keys && m.lvl == m0.lvl
      requires va <= a < hi && a % PGSIZE == 0 && a < MAXVA
      requires Leaves(m0.pt, root, va, hi) && (doFree ==> Owned(m0.pt, root, va, hi) && Unfreed(m.ls, m0.pt, root, a, hi))
      requires EntriesOutside(m0, m, root, va, a - 1)
      ensures FrameOf(m.pt, root, a) == FrameOf(m0.pt, root, a)
      ensures Mapping(m.pt, root, a).Some? && Mapping(m.pt, root, a).value.flags != PTE_V
      ensures doFree ==> kmem.InRange(FrameOf(m.pt, root, a)) && FrameOf(m.pt, root, a) !in m.pt &&
                         FrameOf(m.pt, root, a) !in Flat(m.ls)
    {
      assert Entry(m.pt, root, a) == Entry(m0.pt, root, a);
      assert Mapping(m0.pt, root, a).Some?;
    }

    /** What unmapping page `a` does to the loop's invariant. */
    lemma UnmapNext(m0: Mem, m: Mem, m2: Mem, root: nat, va: nat, a: nat, hi: nat, doFree: bool, cpu: nat)
      requires Unmapping(m0, m, root, va, a, hi, doFree, cpu) && a < hi <= MAXVA
      requires Leaves(m0.pt, root, va, hi) && (doFree ==> Owned(m0.pt, root, va, hi))
      requires m2.pt.Keys == m.pt.Keys && m2.lvl == m.lvl && m2.ram == m.ram && m2.owner == m.owner
      requires Entry(m2.pt, root, a) == Some(ZERO) && EntriesOutside(m, m2, root, a, a)
      requires OnlyZeroed(m.pt, m.lvl, m2.pt) && FrameOf(m.pt, root, a) == FrameOf(m0.pt, root, a)
      requires m2.ls == if doFree then m.ls[cpu := [FrameOf(m.pt, root, a)] + m.ls[cpu]] else m.ls
      ensures Unmapping(m0, m2, root, va, a + PGSIZE, hi, doFree, cpu)
    {
      AlignedStep(a, hi);
      ClearExtend(m, m2, root, va, a);
      EntriesTrans(m0, m, m2, root, va, a);
      if doFree {
        UnfreedNext(m.ls, m0.pt, root, a, hi, cpu);
        FreedStep(m0.ls, cpu, Frames(m0.pt, root, va, a), FrameOf(m0.pt, root, a));
      }
    }

    /** One iteration of uvmunmap's loop: page `a` joins the cleared range. */
    method UnmapStep(root: nat, ghost va: nat, a: nat, hi: nat, doFree: bool, cpu: nat, ghost m0: Mem)
      requires Valid() && cpu < NCPU == |m0.ls| && a < hi <= MAXVA
      requires Leaves(m0.pt, root, va, hi) && (doFree ==> Owned(m0.pt, root, va, hi))
      requires Unmapping(m0, M(), root, va, a, hi, doFree, cpu)
      modifies this, kmem.lists
      ensures Valid() && Unmapping(m0, M(), root, va, a + PGSIZE, hi, doFree, cpu)
    {
      ghost var m := M();
      UnmapReady(m0, m, root, va, a, hi, doFree);
      UnmapPage(root, a, doFree, cpu);
      UnmapNext(m0, m, M(), root, va, a, hi, doFree, cpu);
    }

    /**
     * uvmunmap: remove the mappings of `npages` pages from the aligned `va`,
     * freeing their frames when `doFree`. A misaligned `va` and a page that is
     * not mapped by a valid leaf are panics.
     */
    method UvmUnmap(root: nat, va: nat, npages: nat, doFree: bool, cpu: nat)
      requires Valid() && IsRoot(pt, lvl, root) && cpu < NCPU
      requires va % PGSIZE == 0 && va + npages * PGSIZE <= MAXVA
      requires Leaves(pt, root, va, va + npages * PGSIZE)
      requires doFree ==> Owned(pt, root, va, va + npages * PGSIZE) &&
                          Unfreed(kmem.lists[..], pt, root, va, va + npages * PGSIZE)
      modifies this, kmem.lists
      ensures Valid() && pt.Keys == old(pt.Keys) && lvl == old(lvl) && ram == old(ram) && owner == old(owner)
      ensures Cleared(pt, root, va, va + npages * PGSIZE)
      ensures EntriesOutside(old(M()), M(), root, va, va + npages * PGSIZE - 1) && OnlyZeroed(old(pt), lvl, pt)
      ensures kmem.lists[..] == Freed(old(kmem.lists[..]), cpu, doFree, Frames(old(pt), root, va, va + npages * PGSIZE))
    {
      SpanAligned(va, npages);
      UnmapRange(root, va, va + npages * PGSIZE, doFree, cpu);
    }

    /** The loop of uvmunmap over the aligned range `va`..`hi` - 1. */
    method UnmapRange(root: nat, va: nat, hi: nat, doFree: bool, cpu: nat)
      requires Valid() && IsRoot(pt, lvl, root) && cpu < NCPU
      requires va % PGSIZE == 0 && (hi - va) % PGSIZE == 0 && va <= hi <= MAXVA
      requires Leaves(pt, root, va, hi)
      requires doFree ==> Owned(pt, root, va, hi) && Unfreed(kmem.lists[..], pt, root, va, hi)
      modifies this, kmem.lists
      ensures Valid() && pt.Keys == old(pt.Keys) && lvl == old(lvl) && ram == old(ram) && owner == old(owner)
      ensures Cleared(pt, root, va, hi)
      ensures EntriesOutside(old(M()), M(), root, va, hi - 1) && OnlyZeroed(old(pt), lvl, pt)
      ensures kmem.lists[..] == Freed(old(kmem.lists[..]), cpu, doFree, Frames(old(pt), root, va, hi))
    {
      ghost var m0 := M();
      var a := va;
      FreedNone(m0.ls, cpu, doFree, m0.pt, root, va);
      EntriesRefl(m0, root, va, va - 1);
      while a < hi
        invariant Valid() && Unmapping(m0, M(), root, va, a, hi, doFree, cpu)
        decreases hi - a
      {
        UnmapStep(root, va, a, hi, doFree, cpu, m0);
        a := a + PGSIZE;
      }
    }

    /**
     * uvmdealloc: shrink a process from `oldsz` to `newsz` bytes by unmapping
     * and freeing the pages from PGROUNDUP(newsz) below PGROUNDUP(oldsz). A
     * request to grow changes nothing and returns `oldsz`.
     */
    method UvmDealloc(root: nat, oldsz: nat, newsz: nat, cpu: nat) returns (r: nat)
      requires Valid() && IsRoot(pt, lvl, root) && cpu < NCPU && PgRoundUp(oldsz) <= MAXVA
      requires newsz < oldsz ==>
                 Leaves(pt, root, PgRoundUp(newsz), PgRoundUp(oldsz)) &&
                 Owned(pt, root, PgRoundUp(newsz), PgRoundUp(oldsz)) &&
                 Unfreed(kmem.lists[..], pt, root, PgRoundUp(newsz), PgRoundUp(oldsz))
      modifies this, kmem.lists
      ensures Valid() && pt.Keys == old(pt.Keys) && lvl == old(lvl) && ram == old(ram)
      ensures r == if newsz >= oldsz then oldsz else newsz
      ensures newsz >= oldsz ==> M() == old(M())
      ensures newsz < oldsz ==>
        Cleared(pt, root, PgRoundUp(newsz), PgRoundUp(oldsz)) &&
        EntriesOutside(old(M()), M(), root, PgRoundUp(newsz), PgRoundUp(oldsz) - 1) &&
        kmem.lists[..] == Freed(old(kmem.lists[..]), cpu, true, Frames(old(pt), root, PgRoundUp(newsz), PgRoundUp(oldsz)))
    {
      if newsz >= oldsz {
        return oldsz;
      }
      RoundUpFacts(newsz, PgRoundUp(oldsz));
      Shrink(root, PgRoundUp(newsz), PgRoundUp(oldsz), cpu);
      return newsz;
    }

    /** The pages `lo`..`hi` - 1 that uvmdealloc hands to uvmunmap, which frees their frames. */
    method Shrink(root: nat, lo: nat, hi: nat, cpu: nat)
      requires Valid() && IsRoot(pt, lvl, root) && cpu < NCPU && hi <= MAXVA
      requires lo <= hi && lo % PGSIZE == 0 && hi % PGSIZE == 0
      requires Leaves(pt, root, lo, hi) && Owned(pt, root, lo, hi) && Unfreed(kmem.lists[..], pt, root, lo, hi)
      modifies this, kmem.lists
      ensures Valid() && pt.Keys == old(pt.Keys) && lvl == old(lvl) && ram == old(ram) && owner == old(owner)
      ensures Cleared(pt, root, lo, hi) && EntriesOutside(old(M()), M(), root, lo, hi - 1) && OnlyZeroed(old(pt), lvl, pt)
      ensures kmem.lists[..] == Freed(old(kmem.lists[..]), cpu, true, Frames(old(pt), root, lo, hi))
    {
      if lo < hi {
        var npages := (hi - lo) / PGSIZE;
        PagesBetween(lo, hi);
        assert lo + npages * PGSIZE == hi;
        UvmUnmap(root, lo, npages, true, cpu);
      } else {
        FreedNone(kmem.lists[..], cpu, true, pt, root, lo);
        EntriesRefl(M(), root, lo, lo - 1);
      }
    }

    /** kalloc as vm.c sees it: a free frame leaves the free lists, or 0 when every list is empty. */
    method TakeFrame(cpu: nat) returns (mem: nat)
      requires Valid() && cpu < NCPU
      modifies kmem.lists
      ensures Valid()
      ensures mem == 0 ==> kmem.lists[..] == old(kmem.lists[..]) && Flat(kmem.lists[..]) == {}
      ensures mem != 0 ==> kmem.InRange(mem) && mem in Flat(old(kmem.lists[..])) && mem !in pt &&
                           Flat(kmem.lists[..]) == Flat(old(kmem.lists[..])) - {mem}
    {
      kmem.TakeFacts(kmem.lists[..], cpu);
      mem := kmem.Kalloc(cpu);
    }

    /** kfree as vm.c sees it: a frame that is neither free nor a page-table page goes on the list of `cpu`. */
    method GiveFrame(pa: nat, cpu: nat)
      requires Valid() && cpu < NCPU && kmem.InRange(pa) && pa !in pt && pa !in Flat(kmem.lists[..])
      modifies kmem.lists
      ensures Valid() && kmem.lists[..] == old(kmem.lists[..])[cpu := [pa] + old(kmem.lists[cpu])]
      ensures Flat(kmem.lists[..]) == Flat(old(kmem.lists[..])) + {pa}
    {
      PushDistinct(kmem.lists[..], cpu, pa);
      kmem.Kfree(pa, cpu);
    }

    /** memset(pa, 0, PGSIZE) on a frame kfree accepts. */
    method ZeroFrame(pa: nat)
      requires Valid() && kmem.InRange(pa)
      modifies this
      ensures Valid() && pt == old(pt) && lvl == old(lvl) && owner == old(owner) && |ram| == |old(ram)|
      ensures pa + PGSIZE <= |ram| && Page(ram, pa) == ZeroBytes()
      ensures forall k :: 0 <= k < |ram| && !(pa <= k < pa + PGSIZE) ==> ram[k] == old(ram[k])
    {
      AlignedNext(pa, kmem.phystop);
      ram := ram[..pa] + ZeroBytes() + ram[pa + PGSIZE..];
    }

    /**
     * The mapping half of one uvmalloc or uvmcopy iteration: map the
     * unmapped page `a` to the frame `mem` just taken from kalloc, with
     * `perm`; when mappages fails, kfree `mem` again.
     */
    method MapFrame(root: nat, a: nat, mem: nat, perm: Flags, cpu: nat) returns (ok: bool)
      requires Valid() && IsRoot(pt, lvl, root) && cpu < NCPU && a % PGSIZE == 0 && a + PGSIZE <= MAXVA
      requires Mapping(pt, root, a).None? && kmem.InRange(mem) && mem !in pt && mem !in Flat(kmem.lists[..])
      modifies this, kmem.lists
      ensures Valid() && IsRoot(pt, lvl, root) && KeepsLevels(old(M()), M()) && old(pt.Keys) <= pt.Keys
      ensures ram == old(ram) && SameOutside(old(M()), M(), root, a, a)
      ensures ok ==> Mapping(pt, root, a) == Some(MakePte(mem, perm | PTE_V)) && mem !in pt
      ensures ok ==> Flat(kmem.lists[..]) + pt.Keys == Flat(old(kmem.lists[..])) + old(pt.Keys) &&
                     Flat(kmem.lists[..]) <= Flat(old(kmem.lists[..]))
      ensures !ok ==> Mapping(pt, root, a).None? && mem in Flat(kmem.lists[..]) &&
                      Flat(kmem.lists[..]) + pt.Keys == Flat(old(kmem.lists[..])) + old(pt.Keys) + {mem} &&
                      Flat(kmem.lists[..]) <= Flat(old(kmem.lists[..])) + {mem}
    {
      ghost var m := M();
      OnePage(a);
      var r := MapPages(root, a, PGSIZE, mem, perm, cpu);
      assert r == 0 ==> Mapping(pt, root, a) == Some(MakePte(mem + (a - a), perm | PTE_V));
      MapCount(Flat(m.ls), m.pt.Keys, Flat(kmem.lists[..]), pt.Keys, mem);
      if r != 0 {
        GiveFrame(mem, cpu);
        return false;
      }
      return true;
    }

    /**
     * One iteration of uvmalloc's loop at the unmapped page `a`: kalloc a
     * frame, zero it, and map `a` to it with PTE_W|PTE_X|PTE_R|PTE_U. When
     * mappages fails the frame is freed again; when kalloc fails nothing
     * changes. Either way no frame is lost.
     */
    method AllocPage(root: nat, a: nat, cpu: nat) returns (ok: bool, mem: nat)
      requires Valid() && IsRoot(pt, lvl, root) && cpu < NCPU && a % PGSIZE == 0 && a + PGSIZE <= MAXVA
      requires Mapping(pt, root, a).None?
      modifies this, kmem.lists
      ensures Valid() && IsRoot(pt, lvl, root) && KeepsLevels(old(M()), M()) && old(pt.Keys) <= pt.Keys
      ensures |ram| == |old(ram)| && SameOutside(old(M()), M(), root, a, a)
      ensures Flat(kmem.lists[..]) <= Flat(old(kmem.lists[..]))
      ensures ok ==> Mapping(pt, root, a) == Some(MakePte(mem, PTE_W | PTE_X | PTE_R | PTE_U | PTE_V))
      ensures ok ==> mem !in pt && mem !in Flat(kmem.lists[..]) &&
                     Flat(old(kmem.lists[..])) + old(pt.Keys) == Flat(kmem.lists[..]) + pt.Keys + {mem}
      ensures ok ==> mem + PGSIZE <= |ram| && Page(ram, mem) == ZeroBytes()
      ensures !ok ==> Mapping(pt, root, a).None? && Conserved(old(M()), M())
      ensures mem == 0 ==> !ok && ram == old(ram)
      ensures mem != 0 ==> kmem.InRange(mem) && mem in Flat(old(kmem.lists[..]))
      ensures !ok && mem != 0 ==> mem in Flat(kmem.lists[..])
      ensures forall k :: 0 <= k < |ram| && !(mem <= k < mem + PGSIZE) ==> ram[k] == old(ram[k])
    {
      ghost var m := M();
      mem := TakeFrame(cpu);
      if mem == 0 {
        return false, 0;
      }
      ZeroFrame(mem);
      ghost var mk := M();
      ok := MapFrame(root, a, mem, PTE_W | PTE_X | PTE_R | PTE_U, cpu);
      AllocCount(Flat(m.ls), m.pt.Keys, Flat(mk.ls), Flat(kmem.lists[..]), pt.Keys, mem, ok);
    }

    /**
     * uvmalloc's loop invariant at page `a`, against the state `m0` on entry:
     * the pages `lo`..`a` - 1 are mapped with user permissions to frames that
     * are theirs alone and hold zeros, the pages `a`..`hi` - 1 are still
     * unmapped, no other translation changed, and every frame that left the
     * free lists is one of the new pages' frames or a new page-table page.
     */
    ghost predicate Growing(m0: Mem, m: Mem, root: nat, lo: nat, a: nat, hi: nat)
    {
      Taken(m0, m, root, lo, a) && a <= hi <= MAXVA && hi % PGSIZE == 0 &&
      UserMapped(m.pt, root, lo, a) && Unmapped(m.pt, root, a, hi - 1) && ZeroPages(m.pt, m.ram, root, lo, a)
    }

    /**
     * The part of the invariant uvmalloc and uvmcopy share: the pages
     * `lo`..`a` - 1 of `root` hold frames of their own, taken from the free
     * lists, no other translation changed, and every frame that left the
     * free lists is one of those frames or a new page-table page.
     */
    ghost predicate Taken(m0: Mem, m: Mem, root: nat, lo: nat, a: nat)
    {
      lo <= a && a % PGSIZE == 0 && IsRoot(m.pt, m.lvl, root) &&
      Owned(m.pt, root, lo, a) && Unfreed(m.ls, m.pt, root, lo, a) && SameOutside(m0, m, root, lo, a - 1) &&
      KeepsLevels(m0, m) && m0.pt.Keys <= m.pt.Keys && |m.ram| == |m0.ram| &&
      Flat(m0.ls) + m0.pt.Keys == Flat(m.ls) + m.pt.Keys + Elems(Frames(m.pt, root, lo, a))
    }

    /** Before uvmalloc's first iteration the invariant holds with nothing allocated. */
    lemma GrowStart(m0: Mem, root: nat, lo: nat, hi: nat)
      requires IsRoot(m0.pt, m0.lvl, root) && lo <= hi <= MAXVA && lo % PGSIZE == 0 && hi % PGSIZE == 0
      requires Unmapped(m0.pt, root, lo, hi - 1)
      ensures Growing(m0, m0, root, lo, lo, hi) && WritesOnly(m0.ram, m0.ram, Elems(Frames(m0.pt, root, lo, lo)))
    {
      assert Frames(m0.pt, root, lo, lo) == [];
      assert Elems([]) == {};
    }

    /** The frames of the pages `lo`..`a` - 1, with `mem` for page `a`, stay theirs alone and off the free lists. */
    lemma OwnedNext(m: Mem, m2: Mem, root: nat, lo: nat, a: nat, mem: nat)
      requires lo <= a && a % PGSIZE == 0
      requires Owned(m.pt, root, lo, a) && Unfreed(m.ls, m.pt, root, lo, a)
      requires forall b :: lo <= b < a && b % PGSIZE == 0 ==> FrameOf(m2.pt, root, b) == FrameOf(m.pt, root, b)
      requires FrameOf(m2.pt, root, a) == mem && kmem.InRange(mem) && mem in Flat(m.ls)
      requires mem !in m2.pt && mem !in Flat(m2.ls) && Flat(m2.ls) <= Flat(m.ls)
      requires m2.pt.Keys <= Flat(m.ls) + m.pt.Keys
      ensures Owned(m2.pt, root, lo, a + PGSIZE) && Unfreed(m2.ls, m2.pt, root, lo, a + PGSIZE)
    {
      forall b | lo <= b < a + PGSIZE && b % PGSIZE == 0 && b != a
        ensures b < a && FrameOf(m2.pt, root, b) == FrameOf(m.pt, root, b) && FrameOf(m.pt, root, b) != mem
        ensures kmem.InRange(FrameOf(m2.pt, root, b)) && FrameOf(m2.pt, root, b) !in m2.pt
        ensures FrameOf(m2.pt, root, b) !in Flat(m2.ls)
      {
        if a < b {
          AlignedNext(a, b);
        }
      }
      forall b, c | lo <= b < c < a + PGSIZE && b % PGSIZE == 0 && c % PGSIZE == 0
        ensures FrameOf(m2.pt, root, b) != FrameOf(m2.pt, root, c)
      {
        if c != a {
          assert FrameOf(m.pt, root, b) != FrameOf(m.pt, root, c);
        }
      }
    }

    /** A failed iteration keeps the frames of the pages `lo`..`a` - 1 theirs alone and off the free lists. */
    lemma OwnedStay(m: Mem, m2: Mem, root: nat, lo: nat, a: nat)
      requires Owned(m.pt, root, lo, a) && Unfreed(m.ls, m.pt, root, lo, a)
      requires forall b :: lo <= b < a && b % PGSIZE == 0 ==> FrameOf(m2.pt, root, b) == FrameOf(m.pt, root, b)
      requires Flat(m2.ls) <= Flat(m.ls) && m2.pt.Keys <= Flat(m.ls) + m.pt.Keys
      ensures Owned(m2.pt, root, lo, a) && Unfreed(m2.ls, m2.pt, root, lo, a)
    {
    }

    /** A successful iteration at page `a` extends the invariant to the next page. */
    lemma GrowNext(m0: Mem, m: Mem, m2: Mem, root: nat, lo: nat, a: nat, hi: nat, mem: nat)
      requires Growing(m0, m, root, lo, a, hi) && a < hi
      requires KeepsLevels(m, m2) && m.pt.Keys <= m2.pt.Keys && |m2.ram| == |m.ram| && SameOutside(m, m2, root, a, a)
      requires Mapping(m2.pt, root, a) == Some(MakePte(mem, PTE_W | PTE_X | PTE_R | PTE_U | PTE_V))
      requires kmem.InRange(mem) && mem in Flat(m.ls) && mem !in m2.pt && mem !in Flat(m2.ls)
      requires Flat(m2.ls) <= Flat(m.ls)
      requires Flat(m.ls) + m.pt.Keys == Flat(m2.ls) + m2.pt.Keys + {mem}
      requires ZeroPages(m.pt, m2.ram, root, lo, a) && mem + PGSIZE <= |m2.ram| && Page(m2.ram, mem) == ZeroBytes()
      requires WritesOnly(m0.ram, m.ram, Elems(Frames(m.pt, root, lo, a)))
      requires forall k :: 0 <= k < |m.ram| && !(mem <= k < mem + PGSIZE) ==> m2.ram[k] == m.ram[k]
      ensures Growing(m0, m2, root, lo, a + PGSIZE, hi)
      ensures WritesOnly(m0.ram, m2.ram, Elems(Frames(m2.pt, root, lo, a + PGSIZE)))
    {
      AlignedNext(a, hi);
      PteFrame(mem, PTE_W | PTE_X | PTE_R | PTE_U | PTE_V);
      MapsNext(m0, m, m2, root, lo, a, hi, mem);
      OwnedNext(m, m2, root, lo, a, mem);
      FramesNext(m, m2, root, lo, a, mem);
      WritesNext(m0.ram, m.ram, m2.ram, Elems(Frames(m.pt, root, lo, a)), mem);
      forall b | lo <= b < a + PGSIZE && b % PGSIZE == 0
        ensures FrameOf(m2.pt, root, b) + PGSIZE <= |m2.ram| && Page(m2.ram, FrameOf(m2.pt, root, b)) == ZeroBytes()
      {
        if b < a {
          assert FrameOf(m2.pt, root, b) == FrameOf(m.pt, root, b);
        } else if a < b {
          AlignedNext(a, b);
        }
      }
    }

    /** A failed iteration at page `a` leaves the invariant at `a`: the page is still unmapped and no frame is lost. */
    lemma GrowStay(m0: Mem, m: Mem, m2: Mem, root: nat, lo: nat, a: nat, hi: nat)
      requires Growing(m0, m, root, lo, a, hi) && a < hi
      requires KeepsLevels(m, m2) && m.pt.Keys <= m2.pt.Keys && |m2.ram| == |m.ram| && SameOutside(m, m2, root, a, a)
      requires Mapping(m2.pt, root, a).None? && Conserved(m, m2) && Flat(m2.ls) <= Flat(m.ls)
      requires ZeroPages(m.pt, m2.ram, root, lo, a)
      ensures Growing(m0, m2, root, lo, a, hi) && Frames(m2.pt, root, lo, a) == Frames(m.pt, root, lo, a)
    {
      MapsStay(m0, m, m2, root, lo, a, hi);
      assert ZeroPages(m2.pt, m2.ram, root, lo, a);
      OwnedStay(m, m2, root, lo, a);
      FramesSame(m.pt, m2.pt, root, lo, a);
    }

    /**
     * Undoing a partial uvmalloc: once uvmdealloc has cleared and freed the
     * pages `lo`..`a` - 1, every translation is what it was on entry and
     * every frame taken is either free again or a page-table page.
     */
    lemma RolledBack(m0: Mem, m: Mem, m2: Mem, root: nat, lo: nat, a: nat, cpu: nat)
      requires Taken(m0, m, root, lo, a) && Unmapped(m0.pt, root, lo, a - 1) && cpu < |m.ls|
      requires m2.pt.Keys == m.pt.Keys && m2.lvl == m.lvl
      requires Cleared(m2.pt, root, lo, a) && EntriesOutside(m, m2, root, lo, a - 1)
      requires m2.ls == Freed(m.ls, cpu, true, Frames(m.pt, root, lo, a))
      ensures SameOutside(m0, m2, root, 0, -1) && Conserved(m0, m2) && KeepsLevels(m0, m2) && m0.pt.Keys <= m2.pt.Keys
    {
      EntriesSame(m, m2, root, lo, a - 1);
      FlatFreed(m.ls, cpu, Frames(m.pt, root, lo, a));
      forall r: nat, v: nat | IsRoot(m0.pt, m0.lvl, r) && v % PGSIZE == 0 && v < MAXVA
        ensures Mapping(m2.pt, r, v) == Mapping(m0.pt, r, v)
      {
        assert IsRoot(m.pt, m.lvl, r);
        if r == root && lo <= v < a {
          assert Entry(m2.pt, root, v) == Some(ZERO);
        } else {
          assert Mapping(m2.pt, r, v) == Mapping(m.pt, r, v);
        }
      }
    }

    /**
     * The failure exit of uvmalloc's loop: uvmdealloc(pagetable, a, oldsz)
     * on the rounded-up old size `lo` takes back the pages allocated so far.
     */
    method Undo(root: nat, lo: nat, a: nat, ghost hi: nat, cpu: nat, ghost m0: Mem)
      requires Valid() && cpu < NCPU && Growing(m0, M(), root, lo, a, hi) && Unmapped(m0.pt, root, lo, hi - 1)
      requires lo % PGSIZE == 0 && WritesOnly(m0.ram, ram, Elems(Frames(pt, root, lo, a)) + Flat(kmem.lists[..]))
      modifies this, kmem.lists
      ensures Valid() && IsRoot(pt, lvl, root) && KeepsLevels(m0, M()) && m0.pt.Keys <= pt.Keys
      ensures SameOutside(m0, M(), root, 0, -1) && Conserved(m0, M()) && WritesOnly(m0.ram, ram, Flat(kmem.lists[..]))
    {
      ghost var m := M();
      RoundUpFacts(a, a);
      RoundUpFacts(lo, lo);
      var _ := UvmDealloc(root, a, lo, cpu);
      if a == lo {
        FreedNone(m.ls, cpu, true, m.pt, root, lo);
        EntriesRefl(m, root, lo, lo as int - 1);
      }
      RolledBack(m0, m, M(), root, lo, a, cpu);
      FlatFreed(m.ls, cpu, Frames(m.pt, root, lo, a));
      WritesMore(m0.ram, ram, Elems(Frames(m.pt, root, lo, a)) + Flat(m.ls), Flat(kmem.lists[..]));
    }

    /**
     * One iteration of uvmalloc's loop: on success page `a` joins the
     * allocated range; on failure nothing new is mapped and the caller
     * undoes the pages allocated so far.
     */
    method GrowPage(root: nat, lo: nat, a: nat, ghost hi: nat, cpu: nat, ghost m0: Mem) returns (ok: bool)
      requires Valid() && cpu < NCPU && a < hi
      requires Growing(m0, M(), root, lo, a, hi) && WritesOnly(m0.ram, ram, Elems(Frames(pt, root, lo, a)))
      modifies this, kmem.lists
      ensures Valid()
      ensures ok ==> Growing(m0, M(), root, lo, a + PGSIZE, hi) && WritesOnly(m0.ram, ram, Elems(Frames(pt, root, lo, a + PGSIZE)))
      ensures !ok ==> Growing(m0, M(), root, lo, a, hi) &&
                      WritesOnly(m0.ram, ram, Elems(Frames(pt, root, lo, a)) + Flat(kmem.lists[..]))
    {
      ghost var m := M();
      AlignedNext(a, hi);
      var mem;
      ok, mem := AllocPage(root, a, cpu);
      if mem != 0 {
        ZeroKeep(m.pt, m.ram, ram, root, lo, a, mem);
      }
      if ok {
        GrowNext(m0, m, M(), root, lo, a, hi, mem);
      } else {
        GrowStay(m0, m, M(), root, lo, a, hi);
        Dirtied(m0.ram, m.ram, ram, Elems(Frames(pt, root, lo, a)), Flat(kmem.lists[..]), mem);
      }
    }

    /**
     * The loop of uvmalloc: allocate and map the pages from `lo` up to the
     * first page boundary at or above `newsz`; when memory runs out, undo.
     */
    method Grow(root: nat, lo: nat, newsz: nat, cpu: nat, ghost m0: Mem, ghost hi: nat) returns (ok: bool)
      requires Valid() && cpu < NCPU && lo % PGSIZE == 0
      requires hi % PGSIZE == 0 && newsz <= hi < newsz + PGSIZE
      requires Growing(m0, M(), root, lo, lo, hi) && Unmapped(m0.pt, root, lo, hi - 1)
      requires WritesOnly(m0.ram, ram, Elems(Frames(pt, root, lo, lo)))
      modifies this, kmem.lists
      ensures Valid() && IsRoot(pt, lvl, root) && KeepsLevels(m0, M()) && m0.pt.Keys <= pt.Keys
      ensures ok ==> Growing(m0, M(), root, lo, hi, hi) && WritesOnly(m0.ram, ram, Elems(Frames(pt, root, lo, hi)))
      ensures !ok ==> lo < newsz && SameOutside(m0, M(), root, 0, -1) && Conserved(m0, M()) &&
                      WritesOnly(m0.ram, ram, Flat(kmem.lists[..]))
    {
      var a := lo;
      while a < newsz
        invariant Valid() && Growing(m0, M(), root, lo, a, hi) && WritesOnly(m0.ram, ram, Elems(Frames(pt, root, lo, a)))
        decreases hi - a
      {
        PageBound(newsz, hi, a);
        ok := GrowPage(root, lo, a, hi, cpu, m0);
        if !ok {
          Undo(root, lo, a, hi, cpu, m0);
          return false;
        }
        a := a + PGSIZE;
      }
      PageBound(newsz, hi, a);
      return true;
    }

    /**
     * uvmalloc: grow a process from `oldsz` to `newsz` bytes by mapping
     * zeroed frames, with user permissions, at the pages from
     * PGROUNDUP(oldsz) below PGROUNDUP(newsz). Returns `newsz`, or 0 after
     * undoing everything when memory runs out; a request to shrink changes
     * nothing and returns `oldsz`. Remapping a page is a panic in mappages.
     */
    method UvmAlloc(root: nat, oldsz: nat, newsz: nat, cpu: nat) returns (r: nat)
      requires Valid() && IsRoot(pt, lvl, root) && cpu < NCPU && PgRoundUp(newsz) <= MAXVA
      requires oldsz <= newsz ==> Unmapped(pt, root, PgRoundUp(oldsz), PgRoundUp(newsz) - 1)
      modifies this, kmem.lists
      ensures Valid() && IsRoot(pt, lvl, root) && KeepsLevels(old(M()), M()) && old(pt.Keys) <= pt.Keys
      ensures newsz < oldsz ==> r == oldsz && M() == old(M())
      ensures oldsz <= newsz ==> r == newsz || r == 0
      ensures oldsz <= newsz && r == newsz ==>
        Growing(old(M()), M(), root, PgRoundUp(oldsz), PgRoundUp(newsz), PgRoundUp(newsz)) &&
        WritesOnly(old(ram), ram, Elems(Frames(pt, root, PgRoundUp(oldsz), PgRoundUp(newsz))))
      ensures oldsz <= newsz && r != newsz ==> SameOutside(old(M()), M(), root, 0, -1) && Conserved(old(M()), M()) &&
                                               WritesOnly(old(ram), ram, Flat(kmem.lists[..]))
    {
      if newsz < oldsz {
        return oldsz;
      }
      ghost var m0 := M();
      assert m0.ram == ram;
      var lo := PgRoundUp(oldsz);
      RoundUpFacts(oldsz, PgRoundUp(newsz));
      GrowStart(m0, root, lo, PgRoundUp(newsz));
      var ok := Grow(root, lo, newsz, cpu, m0, PgRoundUp(newsz));
      return if ok then newsz else 0;
    }

    /** memmove(mem, pa, PGSIZE) into a frame kfree accepts. */
    method CopyFrame(mem: nat, pa: nat)
      requires Valid() && kmem.InRange(mem) && pa + PGSIZE <= |ram|
      modifies this
      ensures Valid() && pt == old(pt) && lvl == old(lvl) && owner == old(owner) && |ram| == |old(ram)|
      ensures mem + PGSIZE <= |ram| && Page(ram, mem) == Page(old(ram), pa)
      ensures forall k :: 0 <= k < |ram| && !(mem <= k < mem + PGSIZE) ==> ram[k] == old(ram[k])
    {
      AlignedNext(mem, kmem.phystop);
      ram := ram[..mem] + ram[pa..pa + PGSIZE] + ram[mem + PGSIZE..];
    }

    /**
     * uvmcopy's loop invariant at page `a`, against the state `m0` on
     * entry: the child's pages below `a` hold frames of their own, taken
     * from the free lists, mapped with the parent's flags and holding the
     * bytes of the parent's frames; the child's pages from `a` to `hi` - 1
     * are still unmapped; no other translation changed, and the parent's
     * frames keep their bytes.
     */
    ghost predicate Copying(m0: Mem, m: Mem, parent: nat, child: nat, a: nat, hi: nat)
    {
      Taken(m0, m, child, 0, a) && a <= hi <= MAXVA && hi % PGSIZE == 0 && IsRoot(m0.pt, m0.lvl, parent) &&
      Unmapped(m0.pt, child, 0, hi - 1) && Unmapped(m.pt, child, a, hi - 1) &&
      ParentKept(m0, m, parent, hi) && Cloned(m0, m, parent, child, a)
    }

    /** Before uvmcopy's first iteration the invariant holds with nothing copied. */
    lemma CopyStart(m0: Mem, parent: nat, child: nat, hi: nat)
      requires IsRoot(m0.pt, m0.lvl, parent) && IsRoot(m0.pt, m0.lvl, child) && hi <= MAXVA && hi % PGSIZE == 0
      requires Unmapped(m0.pt, child, 0, hi - 1) && ParentKept(m0, m0, parent, hi)
      ensures Copying(m0, m0, parent, child, 0, hi) && WritesOnly(m0.ram, m0.ram, Elems(Frames(m0.pt, child, 0, 0)))
    {
      assert Frames(m0.pt, child, 0, 0) == [];
      assert Elems([]) == {};
    }

    /** At page `a` the parent's translation is still the one on entry, and the child's page is free to map. */
    lemma CopyReady(m0: Mem, m: Mem, parent: nat, child: nat, a: nat, hi: nat)
      requires Copying(m0, m, parent, child, a, hi) && a < hi
      ensures a + PGSIZE <= hi && IsRoot(m.pt, m.lvl, parent) && Mapping(m.pt, child, a).None?
      ensures Mapping(m0.pt, parent, a).Some? && Mapping(m.pt, parent, a) == Mapping(m0.pt, parent, a)
      ensures FrameOf(m.pt, parent, a) == FrameOf(m0.pt, parent, a) && FrameOf(m0.pt, parent, a) + PGSIZE <= |m.ram|
      ensures Page(m.ram, FrameOf(m0.pt, parent, a)) == Page(m0.ram, FrameOf(m0.pt, parent, a))
    {
      AlignedNext(a, hi);
      assert Mapping(m0.pt, child, a).None? && Mapping(m0.pt, parent, a).Some?;
      assert Mapping(m.pt, parent, a) == Mapping(m0.pt, parent, a);
    }

    /** A successful iteration at page `a` extends the invariant to the next page. */
    lemma CopyNext(m0: Mem, m: Mem, m2: Mem, parent: nat, child: nat, a: nat, hi: nat, mem: nat)
      requires Copying(m0, m, parent, child, a, hi) && a < hi
      requires KeepsLevels(m, m2) && m.pt.Keys <= m2.pt.Keys && SameOutside(m, m2, child, a, a)
      requires |m2.ram| == |m.ram| && forall k :: 0 <= k < |m.ram| && !(mem <= k < mem + PGSIZE) ==> m2.ram[k] == m.ram[k]
      requires Mapping(m0.pt, parent, a).Some? && FrameOf(m0.pt, parent, a) + PGSIZE <= |m0.ram|
      requires Mapping(m2.pt, child, a) == Some(MakePte(mem, Mapping(m0.pt, parent, a).value.flags))
      requires mem + PGSIZE <= |m2.ram| && Page(m2.ram, mem) == Page(m0.ram, FrameOf(m0.pt, parent, a))
      requires kmem.InRange(mem) && mem in Flat(m.ls) && mem !in m2.pt && mem !in Flat(m2.ls)
      requires Flat(m2.ls) <= Flat(m.ls) && Flat(m.ls) + m.pt.Keys == Flat(m2.ls) + m2.pt.Keys + {mem}
      requires WritesOnly(m0.ram, m.ram, Elems(Frames(m.pt, child, 0, a)))
      ensures Copying(m0, m2, parent, child, a + PGSIZE, hi)
      ensures WritesOnly(m0.ram, m2.ram, Elems(Frames(m2.pt, child, 0, a + PGSIZE)))
    {
      AlignedNext(a, hi);
      CloneMaps(m0, m, m2, child, a, hi, true);
      ClonedNext(m0, m, m2, parent, child, a, mem);
      ClonedKeep(m0, m, m2, parent, child, a, mem);
      PteFrame(mem, Mapping(m0.pt, parent, a).value.flags);
      OwnedNext(m, m2, child, 0, a, mem);
      FramesNext(m, m2, child, 0, a, mem);
      WritesNext(m0.ram, m.ram, m2.ram, Elems(Frames(m.pt, child, 0, a)), mem);
      ParentNext(m0, m, m2, parent, hi, mem);
    }

    /** A failed iteration at page `a` leaves the invariant at `a`: the page is still unmapped and no frame is lost. */
    lemma CopyStay(m0: Mem, m: Mem, m2: Mem, parent: nat, child: nat, a: nat, hi: nat, mem: nat)
      requires Copying(m0, m, parent, child, a, hi) && a < hi
      requires KeepsLevels(m, m2) && m.pt.Keys <= m2.pt.Keys && SameOutside(m, m2, child, a, a)
      requires |m2.ram| == |m.ram| && forall k :: 0 <= k < |m.ram| && !(mem <= k < mem + PGSIZE) ==> m2.ram[k] == m.ram[k]
      requires Mapping(m2.pt, child, a).None? && mem % PGSIZE == 0 && mem in Flat(m.ls)
      requires Flat(m2.ls) <= Flat(m.ls) && Conserved(m, m2)
      ensures Copying(m0, m2, parent, child, a, hi) && Frames(m2.pt, child, 0, a) == Frames(m.pt, child, 0, a)
    {
      CloneMaps(m0, m, m2, child, a, hi, false);
      ClonedKeep(m0, m, m2, parent, child, a, mem);
      OwnedStay(m, m2, child, 0, a);
      FramesSame(m.pt, m2.pt, child, 0, a);
      ParentNext(m0, m, m2, parent, hi, mem);
    }

    /**
     * The start of uvmcopy's iteration at page `a`: the PTE walk finds in
     * the parent's table, without allocating, gives the frame and the flags
     * to copy. No PTE, or an invalid one, is a panic.
     */
    method ParentPte(parent: nat, a: nat, cpu: nat) returns (pa: nat, flags: Flags)
      requires Valid() && IsRoot(pt, lvl, parent) && a < MAXVA && cpu < NCPU && Mapping(pt, parent, a).Some?
      modifies this, kmem.lists
      ensures Valid() && M() == old(M())
      ensures pa == FrameOf(pt, parent, a) && flags == Mapping(pt, parent, a).value.flags
    {
      WalkFacts(M(), cpu, parent, parent, 2, a, false);
      var pte := Walk(parent, a, false, cpu);
      if pte.None? {
        assert false;
      }
      var (n, i) := pte.value;
      if !IsValid(pt[n][i]) {
        assert false;
      }
      pa := PTE2PA(pt[n][i]);
      flags := pt[n][i].flags;
    }

    /**
     * One iteration of uvmcopy's loop at page `a`: the PTE walk finds for
     * `a` in the parent's table (none, or an invalid one, is a panic) gives
     * the frame and the flags; kalloc a frame, copy the parent's frame into
     * it, and map the child's page `a` to it with those flags. When kalloc
     * fails nothing changes; when mappages fails the frame is freed again.
     */
    method CopyPage(parent: nat, child: nat, a: nat, ghost hi: nat, cpu: nat, ghost m0: Mem) returns (ok: bool)
      requires Valid() && cpu < NCPU && a < hi
      requires Copying(m0, M(), parent, child, a, hi) && WritesOnly(m0.ram, ram, Elems(Frames(pt, child, 0, a)))
      modifies this, kmem.lists
      ensures Valid()
      ensures ok ==> Copying(m0, M(), parent, child, a + PGSIZE, hi) && WritesOnly(m0.ram, ram, Elems(Frames(pt, child, 0, a + PGSIZE)))
      ensures !ok ==> Copying(m0, M(), parent, child, a, hi) &&
                      WritesOnly(m0.ram, ram, Elems(Frames(pt, child, 0, a)) + Flat(kmem.lists[..]))
    {
      ghost var m := M();
      CopyReady(m0, m, parent, child, a, hi);
      var pa, flags := ParentPte(parent, a, cpu);
      var mem := TakeFrame(cpu);
      if mem == 0 {
        WritesMore(m0.ram, ram, Elems(Frames(pt, child, 0, a)), Elems(Frames(pt, child, 0, a)) + Flat(kmem.lists[..]));
        return false;
      }
      CopyFrame(mem, pa);
      ghost var mk := M();
      ok := MapFrame(child, a, mem, flags, cpu);
      CopyPageDone(m0, m, mk, M(), parent, child, a, hi, mem, ok);
    }

    /**
     * The accounting of one uvmcopy iteration, from the state `m` before
     * kalloc, through `mk` after the copy into `mem`, to `m2` after
     * mappages: the invariant moves to the next page, or stays when
     * mappages failed and `mem` was freed again.
     */
    lemma CopyPageDone(m0: Mem, m: Mem, mk: Mem, m2: Mem, parent: nat, child: nat, a: nat, hi: nat, mem: nat, ok: bool)
      requires Copying(m0, m, parent, child, a, hi) && a < hi && WritesOnly(m0.ram, m.ram, Elems(Frames(m.pt, child, 0, a)))
      requires Mapping(m.pt, parent, a).Some? && FrameOf(m.pt, parent, a) + PGSIZE <= |m.ram|
      requires mk.pt == m.pt && mk.lvl == m.lvl && Flat(mk.ls) == Flat(m.ls) - {mem}
      requires kmem.InRange(mem) && mem in Flat(m.ls) && mem !in m.pt
      requires |mk.ram| == |m.ram| && forall k :: 0 <= k < |m.ram| && !(mem <= k < mem + PGSIZE) ==> mk.ram[k] == m.ram[k]
      requires mem + PGSIZE <= |mk.ram| && Page(mk.ram, mem) == Page(m.ram, FrameOf(m.pt, parent, a))
      requires KeepsLevels(mk, m2) && mk.pt.Keys <= m2.pt.Keys && m2.ram == mk.ram && SameOutside(mk, m2, child, a, a)
      requires ok ==> Mapping(m2.pt, child, a) == Some(MakePte(mem, Mapping(m.pt, parent, a).value.flags | PTE_V)) &&
                      mem !in m2.pt && Flat(m2.ls) + m2.pt.Keys == Flat(mk.ls) + mk.pt.Keys && Flat(m2.ls) <= Flat(mk.ls)
      requires !ok ==> Mapping(m2.pt, child, a).None? && mem in Flat(m2.ls) &&
                       Flat(m2.ls) + m2.pt.Keys == Flat(mk.ls) + mk.pt.Keys + {mem} && Flat(m2.ls) <= Flat(mk.ls) + {mem}
      ensures ok ==> Copying(m0, m2, parent, child, a + PGSIZE, hi) && WritesOnly(m0.ram, m2.ram, Elems(Frames(m2.pt, child, 0, a + PGSIZE)))
      ensures !ok ==> Copying(m0, m2, parent, child, a, hi) &&
                      WritesOnly(m0.ram, m2.ram, Elems(Frames(m2.pt, child, 0, a)) + Flat(m2.ls))
    {
      CopyReady(m0, m, parent, child, a, hi);
      var e := Mapping(m.pt, parent, a).value;
      assert e.flags | PTE_V == e.flags;
      AllocCount(Flat(m.ls), m.pt.Keys, Flat(mk.ls), Flat(m2.ls), m2.pt.Keys, mem, ok);
      assert SameOutside(m, m2, child, a, a) && KeepsLevels(m, m2);
      if ok {
        CopyNext(m0, m, m2, parent, child, a, hi, mem);
      } else {
        CopyStay(m0, m, m2, parent, child, a, hi, mem);
        WritesNext(m0.ram, m.ram, m2.ram, Elems(Frames(m.pt, child, 0, a)), mem);
        WritesMore(m0.ram, m2.ram, Elems(Frames(m.pt, child, 0, a)) + {mem}, Elems(Frames(m.pt, child, 0, a)) + Flat(m2.ls));
      }
    }

    /** Freeing the child's frames, which came from the free lists, leaves the parent's frames off them. */
    lemma ParentUndone(m0: Mem, m: Mem, m2: Mem, parent: nat, child: nat, a: nat, hi: nat, cpu: nat)
      requires Copying(m0, m, parent, child, a, hi) && cpu < |m.ls|
      requires m2.ram == m.ram && m2.pt.Keys == m.pt.Keys && m2.ls == Freed(m.ls, cpu, true, Frames(m.pt, child, 0, a))
      ensures ParentKept(m0, m2, parent, hi)
    {
      FlatFreed(m.ls, cpu, Frames(m.pt, child, 0, a));
      forall b | 0 <= b < hi && b % PGSIZE == 0 ensures FrameOf(m0.pt, parent, b) !in Flat(m2.ls) {
        assert FrameOf(m0.pt, parent, b) !in Flat(m0.ls) + m0.pt.Keys;
      }
    }

    /**
     * The failure exit of uvmcopy's loop: uvmunmap(new, 0, a / PGSIZE, 1)
     * clears the child's pages copied so far and frees their frames.
     */
    method UndoCopy(parent: nat, child: nat, a: nat, ghost hi: nat, cpu: nat, ghost m0: Mem)
      requires Valid() && cpu < NCPU && Copying(m0, M(), parent, child, a, hi)
      requires WritesOnly(m0.ram, ram, Elems(Frames(pt, child, 0, a)) + Flat(kmem.lists[..]))
      modifies this, kmem.lists
      ensures Valid() && KeepsLevels(m0, M()) && m0.pt.Keys <= pt.Keys
      ensures SameOutside(m0, M(), child, 0, -1) && Conserved(m0, M()) && ParentKept(m0, M(), parent, hi)
      ensures WritesOnly(m0.ram, ram, Flat(kmem.lists[..]))
    {
      ghost var m := M();
      assert Leaves(pt, child, 0, a);
      Shrink(child, 0, a, cpu);
      RolledBack(m0, m, M(), child, 0, a, cpu);
      ParentUndone(m0, m, M(), parent, child, a, hi, cpu);
      FlatFreed(m.ls, cpu, Frames(m.pt, child, 0, a));
      WritesMore(m0.ram, ram, Elems(Frames(m.pt, child, 0, a)) + Flat(m.ls), Flat(kmem.lists[..]));
    }

    /**
     * One iteration of uvmcopy's loop, with the loop's invariant: on success
     * page `a` joins the copied range; on failure every page copied so far
     * is unmapped and freed.
     */
    method CopyStep(parent: nat, child: nat, a: nat, ghost hi: nat, cpu: nat, ghost m0: Mem) returns (ok: bool)
      requires Valid() && cpu < NCPU && a < hi
      requires Copying(m0, M(), parent, child, a, hi) && WritesOnly(m0.ram, ram, Elems(Frames(pt, child, 0, a)))
      modifies this, kmem.lists
      ensures Valid() && KeepsLevels(m0, M()) && m0.pt.Keys <= pt.Keys
      ensures ok ==> Copying(m0, M(), parent, child, a + PGSIZE, hi) && WritesOnly(m0.ram, ram, Elems(Frames(pt, child, 0, a + PGSIZE)))
      ensures !ok ==> SameOutside(m0, M(), child, 0, -1) && Conserved(m0, M()) && ParentKept(m0, M(), parent, hi) &&
                      WritesOnly(m0.ram, ram, Flat(kmem.lists[..]))
    {
      ok := CopyPage(parent, child, a, hi, cpu, m0);
      if !ok {
        UndoCopy(parent, child, a, hi, cpu, m0);
      }
    }

    /**
     * The loop of uvmcopy: copy the pages from 0 up to the first page
     * boundary at or above `sz`; when memory runs out, undo.
     */
    method CopyLoop(parent: nat, child: nat, sz: nat, cpu: nat, ghost m0: Mem, ghost hi: nat) returns (r: int)
      requires Valid() && cpu < NCPU && hi % PGSIZE == 0 && sz <= hi < sz + PGSIZE
      requires Copying(m0, M(), parent, child, 0, hi) && WritesOnly(m0.ram, ram, Elems(Frames(pt, child, 0, 0)))
      modifies this, kmem.lists
      ensures Valid() && KeepsLevels(m0, M()) && m0.pt.Keys <= pt.Keys
      ensures r == 0 || r == -1
      ensures r == 0 ==> Copying(m0, M(), parent, child, hi, hi) && WritesOnly(m0.ram, ram, Elems(Frames(pt, child, 0, hi)))
      ensures r == -1 ==> SameOutside(m0, M(), child, 0, -1) && Conserved(m0, M()) && ParentKept(m0, M(), parent, hi) &&
                          WritesOnly(m0.ram, ram, Flat(kmem.lists[..]))
    {
      var i := 0;
      while i < sz
        invariant Valid() && Copying(m0, M(), parent, child, i, hi) && WritesOnly(m0.ram, ram, Elems(Frames(pt, child, 0, i)))
        decreases hi - i
      {
        PageBound(sz, hi, i);
        var ok := CopyStep(parent, child, i, hi, cpu, m0);
        if !ok {
          return -1;
        }
        i := i + PGSIZE;
      }
      PageBound(sz, hi, i);
      return 0;
    }

    /**
     * uvmcopy: give the child table `child` a copy of the parent's memory
     * below `sz`. Each page gets a new frame holding the bytes of the
     * parent's frame, mapped with the parent's flags. Returns 0; or, when
     * memory runs out, -1 after unmapping and freeing every page copied so
     * far. A parent page walk cannot find, or finds invalid, is a panic, and
     * so is a child page that is already mapped (in mappages).
     */
    method UvmCopy(parent: nat, child: nat, sz: nat, cpu: nat) returns (r: int)
      requires Valid() && IsRoot(pt, lvl, parent) && IsRoot(pt, lvl, child) && cpu < NCPU && PgRoundUp(sz) <= MAXVA
      requires ParentKept(M(), M(), parent, PgRoundUp(sz))
      requires Unmapped(pt, child, 0, PgRoundUp(sz) - 1)
      modifies this, kmem.lists
      ensures Valid() && KeepsLevels(old(M()), M()) && old(pt.Keys) <= pt.Keys
      ensures r == 0 || r == -1
      ensures r == 0 ==> Copying(old(M()), M(), parent, child, PgRoundUp(sz), PgRoundUp(sz)) &&
                         WritesOnly(old(ram), ram, Elems(Frames(pt, child, 0, PgRoundUp(sz))))
      ensures r == -1 ==> SameOutside(old(M()), M(), child, 0, -1) && Conserved(old(M()), M()) &&
                          ParentKept(old(M()), M(), parent, PgRoundUp(sz)) && WritesOnly(old(ram), ram, Flat(kmem.lists[..]))
    {
      ghost var m0 := M();
      assert m0.ram == ram;
      CopyStart(m0, parent, child, PgRoundUp(sz));
      r := CopyLoop(parent, child, sz, cpu, m0, PgRoundUp(sz));
    }

    /**
     * uvmclear: clear PTE_U in the PTE that walk finds for `va` (exec's
     * guard page below the user stack); no PTE at all is a panic. The PTE
     * need not be valid: only the bit is cleared.
     */
    method UvmClear(root: nat, va: nat, cpu: nat)
      requires Valid() && IsRoot(pt, lvl, root) && va < MAXVA && cpu < NCPU && Lookup(pt, root, va).Some?
      modifies this, kmem.lists
      ensures Valid() && pt.Keys == old(pt.Keys) && lvl == old(lvl) && ram == old(ram)
      ensures kmem.lists[..] == old(kmem.lists[..])
      ensures Entry(old(pt), root, va).Some? && Entry(pt, root, va).Some?
      ensures var e0, e := Entry(old(pt), root, va).value, Entry(pt, root, va).value;
        e.ppn == e0.ppn && e.flags & PTE_U == 0 && e.flags & !PTE_U == e0.flags & !PTE_U
      ensures forall r: nat, v: nat :: IsRoot(old(pt), old(lvl), r) && Lookup(old(pt), r, v) != Lookup(old(pt), root, va) ==>
        Entry(pt, r, v) == Entry(old(pt), r, v)
    {
      ghost var m := M();
      WalkFacts(m, cpu, root, root, 2, va, false);
      LookupInTree(pt, lvl, owner, root, va);
      var pte := Walk(root, va, false, cpu);
      if pte.None? {
        assert false;
      }
      var (n, i) := pte.value;
      var e := pt[n][i];
      var e' := Pte(e.ppn, e.flags & !PTE_U);
      LeafStep(m, n, i, e');
      WriteLeaf(n, i, e');
    }

    /**
     * One iteration of u2kvmcopy's loop at `a`: the PTE walk finds for `a`
     * in the user table (none is a panic) is written, without PTE_U, into
     * the PTE an allocating walk finds in the kernel table. False when that
     * walk cannot allocate, a panic in the source.
     */
    method KernelCopyPage(root: nat, kroot: nat, a: nat, cpu: nat) returns (ok: bool)
      requires Valid() && IsRoot(pt, lvl, root) && IsRoot(pt, lvl, kroot) && a < MAXVA && cpu < NCPU
      requires Entry(pt, root, a).Some?
      modifies this, kmem.lists
      ensures Valid() && IsRoot(pt, lvl, root) && IsRoot(pt, lvl, kroot) && ram == old(ram) && Grown(old(M()), M())
      ensures ok ==> Entry(pt, kroot, a) == Some(KernelPte(Entry(old(pt), root, a).value))
      ensures ok ==> GrowsBut(old(M()), M(), kroot, PgRoundDown(a))
      ensures !ok ==> Flat(kmem.lists[..]) == {}
    {
      ghost var m := M();
      WalkFacts(m, cpu, root, root, 2, a, false);
      LookupInTree(pt, lvl, owner, root, a);
      var from := Walk(root, a, false, cpu);
      if from.None? {
        assert false;
      }
      var e := pt[from.value.0][from.value.1];
      WalkFacts(m, cpu, kroot, kroot, 2, a, true);
      WalkGrows(m, cpu, kroot, kroot, 2, a, true);
      var to := Walk(kroot, a, true, cpu);
      if to.None? {
        return false;
      }
      var (n, i) := to.value;
      ghost var m2 := M();
      LeafStep(m2, n, i, KernelPte(e));
      WriteLeaf(n, i, KernelPte(e));
      CopyPageOutside(m, m2, kroot, a, n, i, KernelPte(e));
      return true;
    }

    /** One iteration of u2kvmcopy's loop, with the loop's invariant against the state `m0` on entry. */
    method KernelCopyStep(root: nat, kroot: nat, lo: nat, a: nat, hi: nat, cpu: nat, ghost m0: Mem) returns (ok: bool)
      requires Valid() && IsRoot(m0.pt, m0.lvl, root) && IsRoot(pt, lvl, root) && IsRoot(pt, lvl, kroot)
      requires cpu < NCPU && ram == m0.ram && Grown(m0, M())
      requires lo <= a < hi < 0x1_0000_0000 && a % PGSIZE == lo % PGSIZE
      requires forall v :: Visited(lo, hi, v) ==> Entry(m0.pt, root, v).Some?
      requires KernelCopied(m0.pt, pt, root, kroot, lo, a) && GrowsExcept(m0, M(), kroot, lo, a)
      modifies this, kmem.lists
      ensures Valid() && IsRoot(pt, lvl, root) && IsRoot(pt, lvl, kroot) && ram == m0.ram && Grown(m0, M())
      ensures (a + PGSIZE) % PGSIZE == lo % PGSIZE
      ensures ok ==> KernelCopied(m0.pt, pt, root, kroot, lo, a + PGSIZE) && GrowsExcept(m0, M(), kroot, lo, a + PGSIZE)
      ensures !ok ==> Flat(kmem.lists[..]) == {}
    {
      ghost var m := M();
      OffsetStep(a);
      assert Visited(lo, hi, a);
      KernelCopyReady(m0, m, root, kroot, lo, a);
      ok := KernelCopyPage(root, kroot, a, cpu);
      if ok {
        KernelCopyNext(m0, m, M(), root, kroot, lo, a);
      }
      GrownTrans(m0, m, M());
    }

    /**
     * u2kvmcopy: for `a` from `oldsz` in steps of PGSIZE while below the
     * 32-bit `newsz`, copy the user PTE of `a` into the kernel table at
     * `kroot` without PTE_U, creating kernel page-table pages as needed. A
     * missing user PTE is a panic; a kernel walk that cannot allocate is a
     * panic too, here the result false.
     */
    method U2KvmCopy(root: nat, kroot: nat, oldsz: nat, newsz: nat, cpu: nat) returns (ok: bool)
      requires Valid() && IsRoot(pt, lvl, root) && IsRoot(pt, lvl, kroot) && cpu < NCPU && newsz < 0x1_0000_0000
      requires forall v :: Visited(oldsz, newsz, v) ==> Entry(pt, root, v).Some?
      modifies this, kmem.lists
      ensures Valid() && IsRoot(pt, lvl, root) && IsRoot(pt, lvl, kroot) && ram == old(ram) && Grown(old(M()), M())
      ensures ok ==> KernelCopied(old(pt), pt, root, kroot, oldsz, newsz) && GrowsExcept(old(M()), M(), kroot, oldsz, newsz)
      ensures !ok ==> Flat(kmem.lists[..]) == {}
    {
      ghost var m0 := M();
      var a := oldsz;
      while a < newsz
        invariant Valid() && IsRoot(pt, lvl, root) && IsRoot(pt, lvl, kroot) && ram == m0.ram && Grown(m0, M())
        invariant oldsz <= a && a % PGSIZE == oldsz % PGSIZE && (a == oldsz || a < newsz + PGSIZE)
        invariant KernelCopied(m0.pt, pt, root, kroot, oldsz, a) && GrowsExcept(m0, M(), kroot, oldsz, a)
        decreases newsz - a
      {
        ok := KernelCopyStep(root, kroot, oldsz, a, newsz, cpu, m0);
        if !ok {
          return false;
        }
        a := a + PGSIZE;
      }
      KernelCopyDone(m0, M(), root, kroot, oldsz, a, newsz);
      return true;
    }

    /**
     * u2kvmcopy with the loop started at PGROUNDUP(oldsz), as uvmalloc
     * starts its own: every address from there below `newsz` gets, in the
     * kernel table, the user PTE of its page without PTE_U.
     */
    method U2KvmCopyRounded(root: nat, kroot: nat, oldsz: nat, newsz: nat, cpu: nat) returns (ok: bool)
      requires Valid() && IsRoot(pt, lvl, root) && IsRoot(pt, lvl, kroot) && cpu < NCPU && newsz < 0x1_0000_0000
      requires forall v :: PgRoundUp(oldsz) <= v < newsz ==> Entry(pt, root, v).Some?
      modifies this, kmem.lists
      ensures Valid() && IsRoot(pt, lvl, root) && IsRoot(pt, lvl, kroot) && ram == old(ram) && Grown(old(M()), M())
      ensures ok ==> forall v :: PgRoundUp(oldsz) <= v < newsz ==>
        Entry(old(pt), root, v).Some? && Entry(pt, kroot, v) == Some(KernelPte(Entry(old(pt), root, v).value))
      ensures ok ==> GrowsExcept(old(M()), M(), kroot, PgRoundUp(oldsz), newsz)
      ensures !ok ==> Flat(kmem.lists[..]) == {}
    {
      ok := U2KvmCopy(root, kroot, PgRoundUp(oldsz), newsz, cpu);
      if ok {
        KernelCopiedAll(old(pt), pt, root, kroot, PgRoundUp(oldsz), newsz);
      }
    }

    /** memmove into physical memory: only `ram` changes. */
    method Poke(p: nat, bytes: seq<bv8>)
      modifies this
      ensures pt == old(pt) && lvl == old(lvl) && owner == old(owner)
      ensures ram == Store(old(ram), p, bytes)
    {
      ram := Store(ram, p, bytes);
    }

    /** Rewriting bytes of RAM keeps the invariant: it constrains only the length of `ram`. */
    lemma InvRam(m: Mem, ram': seq<bv8>)
      requires Inv(m) && |ram'| == |m.ram|
      ensures Inv(m.(ram := ram'))
    {
    }

    lemma KeepValid(wasValid: bool, m: Mem)
      requires wasValid ==> kmem.Valid() && Inv(m)
      requires m.pt == pt && m.ls == kmem.lists[..] && m.lvl == lvl && m.owner == owner && |m.ram| == |ram|
      ensures wasValid ==> Valid()
    {
      if wasValid {
        InvRam(m, ram);
        assert m.(ram := ram) == M();
      }
    }

    /**
     * copyout: copy `src` to the user address `dstva` of the tree at `root`,
     * page by page through walkaddr. 0 when every byte was copied, -1 at the
     * first page walkaddr refuses.
     */
    method CopyOut(root: nat, dstva: nat, src: seq<bv8>) returns (r: int)
      modifies this
      ensures old(Valid()) ==> Valid()
      ensures pt == old(pt) && lvl == old(lvl) && owner == old(owner)
      ensures (r == 0 || r == -1) && (ram, r == 0) == CopyOutFrom(pt, root, old(ram), dstva, src)
    {
      var len: nat := |src|;
      var off: nat := 0;
      var dst: nat := dstva;
      while len > 0
        invariant off + len == |src| && |ram| == |old(ram)| && pt == old(pt) && lvl == old(lvl) && owner == old(owner)
        invariant CopyOutFrom(pt, root, ram, dst, src[off..]) == CopyOutFrom(pt, root, old(ram), dstva, src)
        decreases len
      {
        var va0 := PgRoundDown(dst);
        var pa0 := WalkAddr(pt, root, va0);
        if pa0 == 0 {
          KeepValid(old(Valid()), old(M()));
          return -1;
        }
        var n := PGSIZE - (dst - va0);
        if n > len {
          n := len;
        }
        CopyOutTurn(pt, root, ram, dst, src, off, n);
        Poke(pa0 + (dst - va0), src[off..off + n]);
        len := len - n;
        off := off + n;
        dst := va0 + PGSIZE;
      }
      assert src[off..] == [];
      KeepValid(old(Valid()), old(M()));
      return 0;
    }

    /**
     * The pages of the subtree of `n` in `pt0` are still page-table pages of
     * `pt` holding what they held in `pt0`, and none is on a free list of `ls`.
     */
    ghost predicate Pending(pt0: PageTable, pt: PageTable, ls: seq<seq<nat>>, n: nat, level: nat)
    {
      forall x :: x in Order(pt0, n, level) ==> x in pt && x in pt0 && pt[x] == pt0[x] && kmem.InRange(x) && x !in Flat(ls)
    }

    /**
     * freewalk: free the page-table pages below node `n` (at `level`): for
     * each entry in order, a table entry's subtree is freed and the entry
     * zeroed; then `n` itself is freed. A leaf still in the tree is the panic
     * "freewalk: leaf". `pt0` is the table when the outermost call began; the
     * pages still to be freed hold what they held then.
     */
    method FreeWalk(n: nat, ghost level: nat, ghost pt0: PageTable, cpu: nat)
      requires kmem.Valid() && Distinct(kmem.lists[..]) && cpu < NCPU
      requires Tearable(pt0, n, level, false) && NoDup(Order(pt0, n, level)) && Pending(pt0, pt, kmem.lists[..], n, level)
      modifies this, kmem.lists
      ensures kmem.Valid() && Distinct(kmem.lists[..])
      ensures pt == old(pt) - Elems(Order(pt0, n, level))
      ensures kmem.lists[..] == Freed(old(kmem.lists[..]), cpu, true, Order(pt0, n, level))
      ensures ram == old(ram) && lvl == old(lvl) && owner == old(owner)
      decreases level, 1
    {
      ghost var pt1, ls1 := pt, kmem.lists[..];
      FreedEmpty(ls1, cpu);
      FreeStart(pt0, pt1, n, level, false);
      var i := 0;
      while i < NPTE
        invariant i <= NPTE && kmem.Valid() && Distinct(kmem.lists[..])
        invariant pt == (pt1 - Elems(Kids(pt0, n, level, i)))[n := Zeroed(pt0[n], i)]
        invariant kmem.lists[..] == Freed(ls1, cpu, true, Kids(pt0, n, level, i))
        invariant ram == old(ram) && lvl == old(lvl) && owner == old(owner)
      {
        FreeWalkEntry(n, i, level, pt0, pt1, ls1, cpu);
        i := i + 1;
      }
      FreeTablePage(n, level, pt0, pt1, ls1, cpu, false);
    }

    /** The end of freewalk and proc_freekpagetable: once every entry of `n` is done, kfree the page `n` itself. */
    method FreeTablePage(n: nat, ghost level: nat, ghost pt0: PageTable, ghost pt1: PageTable,
                         ghost ls1: seq<seq<nat>>, cpu: nat, ghost leaves: bool)
      requires kmem.Valid() && Distinct(kmem.lists[..]) && cpu < NCPU && |ls1| == NCPU
      requires Tearable(pt0, n, level, leaves) && NoDup(Order(pt0, n, level)) && Pending(pt0, pt1, ls1, n, level)
      requires pt == (pt1 - Elems(Kids(pt0, n, level, NPTE)))[n := Zeroed(pt0[n], NPTE)]
      requires kmem.lists[..] == Freed(ls1, cpu, true, Kids(pt0, n, level, NPTE))
      modifies this, kmem.lists
      ensures kmem.Valid() && Distinct(kmem.lists[..])
      ensures pt == pt1 - Elems(Order(pt0, n, level))
      ensures kmem.lists[..] == Freed(ls1, cpu, true, Order(pt0, n, level))
      ensures ram == old(ram) && lvl == old(lvl) && owner == old(owner)
    {
      FreeLast(pt0, pt1, n, level, ls1, cpu, leaves);
      kmem.Kfree(n, cpu);
      FreedStep(ls1, cpu, Kids(pt0, n, level, NPTE), n);
      pt := pt - {n};
    }

    /** Entry `i` of freewalk's loop at `n`: free a table entry's subtree and zero the entry, panic on a leaf. */
    method FreeWalkEntry(n: nat, i: nat, ghost level: nat, ghost pt0: PageTable, ghost pt1: PageTable,
                         ghost ls1: seq<seq<nat>>, cpu: nat)
      requires kmem.Valid() && Distinct(kmem.lists[..]) && cpu < NCPU && i < NPTE && |ls1| == NCPU
      requires Tearable(pt0, n, level, false) && NoDup(Order(pt0, n, level)) && Pending(pt0, pt1, ls1, n, level)
      requires pt == (pt1 - Elems(Kids(pt0, n, level, i)))[n := Zeroed(pt0[n], i)]
      requires kmem.lists[..] == Freed(ls1, cpu, true, Kids(pt0, n, level, i))
      modifies this, kmem.lists
      ensures kmem.Valid() && Distinct(kmem.lists[..])
      ensures pt == (pt1 - Elems(Kids(pt0, n, level, i + 1)))[n := Zeroed(pt0[n], i + 1)]
      ensures kmem.lists[..] == Freed(ls1, cpu, true, Kids(pt0, n, level, i + 1))
      ensures ram == old(ram) && lvl == old(lvl) && owner == old(owner)
      decreases level, 0
    {
      var pte := pt[n][i];
      assert pte == pt0[n][i];
      if IsTable(pte) {
        FreeNext(pt0, pt1, n, level, i, ls1, kmem.lists[..], cpu, false);
        FreeWalk(PTE2PA(pte), level - 1, pt0, cpu);
        ZeroedNext(pt0, pt1, n, level, i);
        FreedAppend(ls1, cpu, Kids(pt0, n, level, i), Order(pt0, PTE2PA(pte), level - 1));
        pt := pt[n := pt[n][i := ZERO]];
      } else if IsValid(pte) {
        assert false;
      } else {
        SkipNext(pt0, n, level, i);
      }
    }

    /**
     * proc_freekpagetable: freewalk for a process's kernel page table, whose
     * leaves stay where they are: a valid entry without R, W or X is followed
     * as a table, any other entry is skipped, and only page-table pages are
     * freed, children before parents.
     */
    method ProcFreeKPagetable(n: nat, ghost level: nat, ghost pt0: PageTable, cpu: nat)
      requires kmem.Valid() && Distinct(kmem.lists[..]) && cpu < NCPU
      requires Tearable(pt0, n, level, true) && NoDup(Order(pt0, n, level)) && Pending(pt0, pt, kmem.lists[..], n, level)
      modifies this, kmem.lists
      ensures kmem.Valid() && Distinct(kmem.lists[..])
      ensures pt == old(pt) - Elems(Order(pt0, n, level))
      ensures kmem.lists[..] == Freed(old(kmem.lists[..]), cpu, true, Order(pt0, n, level))
      ensures ram == old(ram) && lvl == old(lvl) && owner == old(owner)
      decreases level, 1
    {
      ghost var pt1, ls1 := pt, kmem.lists[..];
      FreedEmpty(ls1, cpu);
      FreeStart(pt0, pt1, n, level, true);
      var i := 0;
      while i < NPTE
        invariant i <= NPTE && kmem.Valid() && Distinct(kmem.lists[..])
        invariant pt == (pt1 - Elems(Kids(pt0, n, level, i)))[n := Zeroed(pt0[n], i)]
        invariant kmem.lists[..] == Freed(ls1, cpu, true, Kids(pt0, n, level, i))
        invariant ram == old(ram) && lvl == old(lvl) && owner == old(owner)
      {
        ProcFreeEntry(n, i, level, pt0, pt1, ls1, cpu);
        i := i + 1;
      }
      FreeTablePage(n, level, pt0, pt1, ls1, cpu, true);
    }

    /** Entry `i` of proc_freekpagetable's loop at `n`: free a table entry's subtree and zero the entry. */
    method ProcFreeEntry(n: nat, i: nat, ghost level: nat, ghost pt0: PageTable, ghost pt1: PageTable,
                         ghost ls1: seq<seq<nat>>, cpu: nat)
      requires kmem.Valid() && Distinct(kmem.lists[..]) && cpu < NCPU && i < NPTE && |ls1| == NCPU
      requires Tearable(pt0, n, level, true) && NoDup(Order(pt0, n, level)) && Pending(pt0, pt1, ls1, n, level)
      requires pt == (pt1 - Elems(Kids(pt0, n, level, i)))[n := Zeroed(pt0[n], i)]
      requires kmem.lists[..] == Freed(ls1, cpu, true, Kids(pt0, n, level, i))
      modifies this, kmem.lists
      ensures kmem.Valid() && Distinct(kmem.lists[..])
      ensures pt == (pt1 - Elems(Kids(pt0, n, level, i + 1)))[n := Zeroed(pt0[n], i + 1)]
      ensures kmem.lists[..] == Freed(ls1, cpu, true, Kids(pt0, n, level, i + 1))
      ensures ram == old(ram) && lvl == old(lvl) && owner == old(owner)
      decreases level, 0
    {
      var pte := pt[n][i];
      assert pte == pt0[n][i];
      if IsTable(pte) {
        FreeNext(pt0, pt1, n, level, i, ls1, kmem.lists[..], cpu, true);
        ProcFreeKPagetable(PTE2PA(pte), level - 1, pt0, cpu);
        ZeroedNext(pt0, pt1, n, level, i);
        FreedAppend(ls1, cpu, Kids(pt0, n, level, i), Order(pt0, PTE2PA(pte), level - 1));
        pt := pt[n := pt[n][i := ZERO]];
      } else {
        SkipNext(pt0, n, level, i);
      }
    }

    /**
     * uvmfree: unmap and free the user pages below PGROUNDUP(`sz`), then
     * free every page-table page of `root`. Any mapping left at or above
     * PGROUNDUP(`sz`) would be the panic "freewalk: leaf", so none may exist.
     * Afterwards the tree of `root` is gone, its user frames and its
     * page-table pages are all on the free lists, and every other page table
     * maps what it did.
     */
    method UvmFree(root: nat, sz: nat, cpu: nat)
      requires Valid() && IsRoot(pt, lvl, root) && cpu < NCPU && PgRoundUp(sz) <= MAXVA
      requires Leaves(pt, root, 0, PgRoundUp(sz)) && Owned(pt, root, 0, PgRoundUp(sz)) &&
               Unfreed(kmem.lists[..], pt, root, 0, PgRoundUp(sz))
      requires forall va: nat :: PgRoundUp(sz) <= va < VA_SPAN ==> Mapping(pt, root, va).None?
      modifies this, kmem.lists
      ensures Valid() && lvl == old(lvl) && owner == old(owner) && ram == old(ram)
      ensures pt.Keys == old(pt).Keys - TreeNodes(old(pt), lvl, owner, root)
      ensures Flat(kmem.lists[..]) ==
        Flat(old(kmem.lists[..])) + Elems(Frames(old(pt), root, 0, PgRoundUp(sz))) + TreeNodes(old(pt), lvl, owner, root)
      ensures EntriesOutside(old(M()), M(), root, 0, MAXVA)
    {
      ghost var m0 := M();
      ghost var hi := PgRoundUp(sz);
      Shrink(root, 0, PgRoundUp(sz), cpu);
      ghost var m1 := M();
      FlatFreed(m0.ls, cpu, Frames(m0.pt, root, 0, hi));
      NoLeavesLeft(m0, m1, root, hi);
      TreeNodesKeys(m0.pt, m1.pt, lvl, owner, root);
      FreeRoot(root, cpu);
      EntriesWiden(m0, m1, M(), root, hi);
      UnionChain(Flat(kmem.lists[..]), Flat(m1.ls), Flat(m0.ls), Elems(Frames(m0.pt, root, 0, hi)),
                 TreeNodes(m0.pt, lvl, owner, root));
    }

    /**
     * The freewalk call of uvmfree, on a root that maps nothing: the whole
     * tree of `root` leaves the page table for the free lists, and every
     * other root keeps all its entries.
     */
    method FreeRoot(root: nat, cpu: nat)
      requires Valid() && IsRoot(pt, lvl, root) && cpu < NCPU
      requires forall va: nat :: Mapping(pt, root, va).None?
      modifies this, kmem.lists
      ensures Valid() && lvl == old(lvl) && owner == old(owner) && ram == old(ram)
      ensures pt.Keys == old(pt).Keys - TreeNodes(old(pt), lvl, owner, root)
      ensures Flat(kmem.lists[..]) == Flat(old(kmem.lists[..])) + TreeNodes(old(pt), lvl, owner, root)
      ensures EntriesOutside(old(M()), M(), root, 0, MAXVA)
    {
      ghost var m := M();
      TeardownReady(m, root, false);
      ghost var order := Order(m.pt, root, 2);
      FreeWalk(root, 2, pt, cpu);
      FlatFreed(m.ls, cpu, order);
      TeardownInv(m, root, kmem.lists[..]);
    }

    /**
     * The preconditions of a teardown from `root` when nothing it maps is a
     * leaf it may not meet: the pages of its tree are the ones a teardown
     * frees, none twice, and each is a page-table page kfree accepts.
     */
    lemma TeardownReady(m: Mem, root: nat, leaves: bool)
      requires Inv(m) && IsRoot(m.pt, m.lvl, root)
      requires forall va: nat :: Mapping(m.pt, root, va).Some? ==> leaves && !IsTable(Mapping(m.pt, root, va).value)
      ensures Tearable(m.pt, root, 2, leaves) && NoDup(Order(m.pt, root, 2))
      ensures forall x :: x in Order(m.pt, root, 2) ==> x in m.pt && kmem.InRange(x) && x !in Flat(m.ls)
      ensures Elems(Order(m.pt, root, 2)) == TreeNodes(m.pt, m.lvl, m.owner, root)
    {
      RootTearable(m.pt, m.lvl, m.owner, root, leaves);
      TreeOrder(m.pt, m.lvl, m.owner, root, 2);
      TreeNodesOrder(m.pt, m.lvl, m.owner, root);
    }

    /**
     * Removing the tree of `root` from `m` and putting its pages on the free
     * lists keeps the invariant, and every other root keeps all its entries.
     */
    lemma TeardownInv(m: Mem, root: nat, ls': seq<seq<nat>>)
      requires Inv(m) && IsRoot(m.pt, m.lvl, root)
      requires |ls'| == NCPU && kmem.AllInRange(ls') && Distinct(ls')
      requires Flat(ls') == Flat(m.ls) + Elems(Order(m.pt, root, 2))
      ensures var m' := Mem(m.pt - Elems(Order(m.pt, root, 2)), ls', m.ram, m.lvl, m.owner);
        Inv(m') && EntriesOutside(m, m', root, 0, MAXVA)
    {
      var order := Order(m.pt, root, 2);
      TreeOrder(m.pt, m.lvl, m.owner, root, 2);
      RemoveTree(m.pt, m.lvl, m.owner, order);
      forall x | x in Elems(order) ensures x in m.lvl && m.lvl[x] <= 2 && Up(m.owner, x, 2 - m.lvl[x]) == root {
        assert x in order;
      }
      OthersKept(m, root, Elems(order), ls');
    }

    /** Removing pages of the tree of `root` alone changes no entry of any other root. */
    lemma OthersKept(m: Mem, root: nat, gone: set<nat>, ls': seq<seq<nat>>)
      requires Tree(m.pt, m.lvl, m.owner)
      requires forall x :: x in gone ==> x in m.lvl && m.lvl[x] <= 2 && Up(m.owner, x, 2 - m.lvl[x]) == root
      ensures EntriesOutside(m, Mem(m.pt - gone, ls', m.ram, m.lvl, m.owner), root, 0, MAXVA)
    {
      forall r: nat, v: nat | IsRoot(m.pt, m.lvl, r) && v % PGSIZE == 0 && v < MAXVA && !(r == root && 0 <= v <= MAXVA)
        ensures Entry((m.pt - gone), r, v) == Entry(m.pt, r, v)
      {
        RemoveOthers(m.pt, m.lvl, m.owner, root, gone, r, v);
      }
    }

    /**
     * After uvmunmap has cleared the PTEs below `hi`, when `root` mapped
     * nothing from `hi` up to VA_SPAN, it maps nothing at all: every other
     * address reaches one of those PTEs.
     */
    lemma NoLeavesLeft(m0: Mem, m: Mem, root: nat, hi: nat)
      requires Cleared(m.pt, root, 0, hi) && OnlyZeroed(m0.pt, m0.lvl, m.pt) && IsRoot(m0.pt, m0.lvl, root)
      requires forall va: nat :: hi <= va < VA_SPAN ==> Mapping(m0.pt, root, va).None?
      ensures forall va: nat :: Mapping(m.pt, root, va).None?
    {
      forall va: nat ensures Mapping(m.pt, root, va).None? {
        MappingAlias(m.pt, root, va);
        NoLeafAt(m0, m, root, hi, va % VA_SPAN);
      }
    }

    /** The address `va` below VA_SPAN maps nothing once uvmunmap has cleared the PTEs below `hi`. */
    lemma NoLeafAt(m0: Mem, m: Mem, root: nat, hi: nat, va: nat)
      requires Cleared(m.pt, root, 0, hi) && OnlyZeroed(m0.pt, m0.lvl, m.pt) && IsRoot(m0.pt, m0.lvl, root)
      requires forall va: nat :: hi <= va < VA_SPAN ==> Mapping(m0.pt, root, va).None?
      requires va < VA_SPAN
      ensures Mapping(m.pt, root, va).None?
    {
      assert !IsValid(ZERO);
      if va < hi {
        MappingPage(m.pt, root, va);
        assert Entry(m.pt, root, PgRoundDown(va)) == Some(ZERO);
        assert Mapping(m.pt, root, PgRoundDown(va)).None?;
      } else if Entry(m.pt, root, va) != Some(ZERO) {
        assert Entry(m.pt, root, va) == Entry(m0.pt, root, va);
        assert Mapping(m0.pt, root, va).None?;
      }
    }

    /** Two steps that keep every root but `root` the same keep it the same end to end. */
    lemma EntriesWiden(m0: Mem, m1: Mem, m2: Mem, root: nat, hi: nat)
      requires EntriesOutside(m0, m1, root, 0, hi - 1) && EntriesOutside(m1, m2, root, 0, MAXVA)
      requires m1.pt.Keys == m0.pt.Keys && m1.lvl == m0.lvl && hi <= MAXVA
      ensures EntriesOutside(m0, m2, root, 0, MAXVA)
    {
    }

    lemma UnionChain(c: set<nat>, b: set<nat>, a: set<nat>, x: set<nat>, y: set<nat>)
      requires b == a + x && c == b + y
      ensures c == a + x + y
    {
    }

    /** The tree of `root` depends only on which pages are page-table pages. */
    lemma TreeNodesKeys(pt: PageTable, pt': PageTable, lvl: map<nat, nat>, owner: map<nat, (nat, nat)>, root: nat)
      requires pt.Keys == pt'.Keys
      ensures TreeNodes(pt, lvl, owner, root) == TreeNodes(pt', lvl, owner, root)
    {
    }

    /** Before a teardown's loop: `n` still holds its entries and nothing is freed. */
    lemma FreeStart(pt0: PageTable, pt1: PageTable, n: nat, level: nat, leaves: bool)
      requires Tearable(pt0, n, level, leaves)
      requires forall x :: x in Order(pt0, n, level) ==> x in pt1 && x in pt0 && pt1[x] == pt0[x]
      ensures Kids(pt0, n, level, 0) == [] && pt1 == (pt1 - Elems(Kids(pt0, n, level, 0)))[n := Zeroed(pt0[n], 0)]
    {
      var order := Order(pt0, n, level);
      assert order[|order| - 1] == n;
      assert Zeroed(pt0[n], 0) == pt0[n];
    }

    /** What the teardown of entry `i`'s subtree needs, given the pages and lists as they are at entry `i`. */
    lemma FreeNext(pt0: PageTable, pt1: PageTable, n: nat, level: nat, i: nat,
                   ls1: seq<seq<nat>>, ls: seq<seq<nat>>, cpu: nat, leaves: bool)
      requires Tearable(pt0, n, level, leaves) && NoDup(Order(pt0, n, level)) && i < NPTE && cpu < |ls1|
      requires ls == Freed(ls1, cpu, true, Kids(pt0, n, level, i)) && Pending(pt0, pt1, ls1, n, level)
      requires IsTable(pt0[n][i])
      ensures level > 0 && Tearable(pt0, PTE2PA(pt0[n][i]), level - 1, leaves) && NoDup(Order(pt0, PTE2PA(pt0[n][i]), level - 1))
      ensures Pending(pt0, (pt1 - Elems(Kids(pt0, n, level, i)))[n := Zeroed(pt0[n], i)], ls, PTE2PA(pt0[n][i]), level - 1)
    {
      SubReady(pt0, n, level, i, leaves);
      FlatFreed(ls1, cpu, Kids(pt0, n, level, i));
    }

    /** After the subtree of entry `i` is freed and the entry zeroed, the loop's view of the pages holds at `i` + 1. */
    lemma ZeroedNext(pt0: PageTable, pt1: PageTable, n: nat, level: nat, i: nat)
      requires Tearable(pt0, n, level, false) || Tearable(pt0, n, level, true)
      requires NoDup(Order(pt0, n, level)) && i < NPTE && IsTable(pt0[n][i])
      ensures var sub := Order(pt0, PTE2PA(pt0[n][i]), level - 1);
        var pt := (pt1 - Elems(Kids(pt0, n, level, i)))[n := Zeroed(pt0[n], i)] - Elems(sub);
        n in pt && pt[n := pt[n][i := ZERO]] == (pt1 - Elems(Kids(pt0, n, level, i + 1)))[n := Zeroed(pt0[n], i + 1)]
    ensures Kids(pt0, n, level, i + 1) == Kids(pt0, n, level, i) + Order(pt0, PTE2PA(pt0[n][i]), level - 1)
    {
      var leaves := Tearable(pt0, n, level, true);
      SubReady(pt0, n, level, i, leaves);
      var sub := Order(pt0, PTE2PA(pt0[n][i]), level - 1);
      ElemsAppend(Kids(pt0, n, level, i), sub);
      assert Zeroed(pt0[n], i)[i := ZERO] == Zeroed(pt0[n], i + 1);
    }

    /** An entry that is not a table entry stays as it is, and has no subtree to free. */
    lemma SkipNext(pt0: PageTable, n: nat, level: nat, i: nat)
      requires Tearable(pt0, n, level, false) || Tearable(pt0, n, level, true)
      requires NoDup(Order(pt0, n, level)) && i < NPTE && !IsTable(pt0[n][i])
      ensures Zeroed(pt0[n], i + 1) == Zeroed(pt0[n], i) && Kids(pt0, n, level, i + 1) == Kids(pt0, n, level, i)
    {
      SubReady(pt0, n, level, i, Tearable(pt0, n, level, true));
    }

    /** After the loop: `n` is the one page left to free, and freeing it completes the teardown. */
    lemma FreeLast(pt0: PageTable, pt1: PageTable, n: nat, level: nat, ls1: seq<seq<nat>>, cpu: nat, leaves: bool)
      requires Tearable(pt0, n, level, leaves) && NoDup(Order(pt0, n, level)) && cpu < |ls1|
      requires Distinct(Freed(ls1, cpu, true, Kids(pt0, n, level, NPTE))) && Pending(pt0, pt1, ls1, n, level)
      ensures var ls := Freed(ls1, cpu, true, Kids(pt0, n, level, NPTE));
        kmem.InRange(n) && n !in Flat(ls) && Distinct(ls[cpu := [n] + ls[cpu]])
      ensures Kids(pt0, n, level, NPTE) + [n] == Order(pt0, n, level)
      ensures (pt1 - Elems(Kids(pt0, n, level, NPTE)))[n := Zeroed(pt0[n], NPTE)] - {n} == pt1 - Elems(Order(pt0, n, level))
    {
      var order, kids := Order(pt0, n, level), Kids(pt0, n, level, NPTE);
      assert order[|order| - 1] == n;
      NoDupAppend(kids, [n]);
      FlatFreed(ls1, cpu, kids);
      PushDistinct(Freed(ls1, cpu, true, kids), cpu, n);
      ElemsAppend(kids, [n]);
    }
  }
}
