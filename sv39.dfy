/**
 * Values and pure facts of the Sv39 page-table layer of kernel/vm.c: the
 * three-level radix tree of section 4.4 ("Sv39") of the RISC-V Privileged
 * Architecture specification.
 *
 * Physical memory that holds page-table pages is a map from the node's
 * physical address to its 512 entries. The ghost maps `lvl` (the level a node
 * sits at: 2 for a root, 0 for a leaf-holding node) and `owner` (the parent
 * entry that points at a non-root node) describe the tree shape and are what
 * the invariant `Tree` is stated over.
 */
module Sv39 {
  import opened Common

  const NPTE: nat := 512
  /** One beyond the highest virtual address: 1 << (9 + 9 + 9 + 12 - 1). */
  const MAXVA: nat := 0x40_0000_0000
  /**
   * 1 << 39: PX reads bits 12..38 of an address only, so addresses that
   * differ by a multiple of this reach the same PTE.
   */
  const VA_SPAN: nat := 0x80_0000_0000

  /** The low ten bits of a PTE. */
  type Flags = bv10
  const PTE_V: Flags := 1
  const PTE_R: Flags := 2
  const PTE_W: Flags := 4
  const PTE_X: Flags := 8
  const PTE_U: Flags := 16
  const PTE_RWX: Flags := 14

  /**
   * A 64-bit page-table entry, split at bit 10: the physical page number
   * (bits 10 and up) and the flags (bits 0..9).
   */
  datatype Pte = Pte(ppn: nat, flags: Flags)

  const ZERO: Pte := Pte(0, 0)

  type PageTable = map<nat, seq<Pte>>

  /** `PA2PTE(pa) | flags`: the low twelve bits of `pa` are dropped. */
  function MakePte(pa: nat, flags: Flags): Pte
  {
    Pte(pa / PGSIZE, flags)
  }

  function PTE2PA(e: Pte): nat
  {
    e.ppn * PGSIZE
  }

  predicate IsValid(e: Pte)
  {
    e.flags & PTE_V != 0
  }

  /** freewalk's test for an entry that points to a lower-level table: valid and no R/W/X. */
  predicate IsTable(e: Pte)
  {
    IsValid(e) && e.flags & PTE_RWX == 0
  }

  /** The 9-bit index of `va` at `level`: bits 12+9*level .. 20+9*level. */
  function PX(level: nat, va: nat): (r: nat)
    requires level <= 2
    ensures r < NPTE
  {
    va / (if level == 0 then 0x1000 else if level == 1 then 0x20_0000 else 0x4000_0000) % NPTE
  }

  /** A freshly zeroed page-table page. */
  function Zeros(): (r: seq<Pte>)
    ensures |r| == NPTE && forall i :: 0 <= i < NPTE ==> r[i] == ZERO
  {
    seq(NPTE, _ => ZERO)
  }

  predicate IsNode(pt: PageTable, a: nat)
  {
    a in pt && |pt[a]| == NPTE
  }

  /**
   * The tree invariant: every node has 512 entries and a level; a valid
   * entry of a level-2 or level-1 node carries no R/W/X bit and points to a
   * node one level down whose owner is that entry; and every non-root node
   * is pointed to by its owner entry, so no node is shared.
   */
  ghost predicate Tree(pt: PageTable, lvl: map<nat, nat>, owner: map<nat, (nat, nat)>)
  {
    (forall a :: a in pt ==> |pt[a]| == NPTE && a in lvl && lvl[a] <= 2) &&
    (forall a, i :: a in pt && a in lvl && lvl[a] >= 1 && 0 <= i < |pt[a]| && IsValid(pt[a][i]) ==>
       LinkOk(pt, lvl, owner, a, i)) &&
    (forall x {:trigger owner[x]} :: x in pt && x in lvl && lvl[x] < 2 ==> OwnedOk(pt, lvl, owner, x))
  }

  /** Entry `i` of interior node `a` is a table pointer to a node that names it as owner. */
  ghost predicate LinkOk(pt: PageTable, lvl: map<nat, nat>, owner: map<nat, (nat, nat)>, a: nat, i: nat)
    requires a in pt && a in lvl && i < |pt[a]|
  {
    var e := pt[a][i];
    var c := PTE2PA(e);
    e.flags & PTE_RWX == 0 && c in pt && c in lvl && lvl[c] + 1 == lvl[a] && c in owner && owner[c] == (a, i)
  }

  /** Non-root node `x` is pointed to by the valid entry its owner names. */
  ghost predicate OwnedOk(pt: PageTable, lvl: map<nat, nat>, owner: map<nat, (nat, nat)>, x: nat)
    requires x in lvl
  {
    x in owner && owner[x].0 in pt && owner[x].0 in lvl && lvl[owner[x].0] == lvl[x] + 1 &&
    owner[x].1 < |pt[owner[x].0]| && IsValid(pt[owner[x].0][owner[x].1]) &&
    PTE2PA(pt[owner[x].0][owner[x].1]) == x
  }

  ghost predicate IsRoot(pt: PageTable, lvl: map<nat, nat>, r: nat)
  {
    r in pt && r in lvl && lvl[r] == 2
  }

  /** The node at `level` on the path of `va` from `root`, following valid entries only. */
  function Descend(pt: PageTable, root: nat, va: nat, level: nat): Option<nat>
    requires level <= 2
    decreases 2 - level
  {
    if level == 2 then Some(root)
    else match Descend(pt, root, va, level + 1)
      case None => None
      case Some(n) =>
        if IsNode(pt, n) && IsValid(pt[n][PX(level + 1, va)]) then Some(PTE2PA(pt[n][PX(level + 1, va)]))
        else None
  }

  /** walk(pagetable, va, 0): the level-0 node and the index of `va`'s PTE, or none. */
  function Lookup(pt: PageTable, root: nat, va: nat): Option<(nat, nat)>
  {
    match Descend(pt, root, va, 0)
    case None => None
    case Some(n) => Some((n, PX(0, va)))
  }

  /** The PTE that `walk(root, va, 0)` points to, if it points anywhere. */
  function Entry(pt: PageTable, root: nat, va: nat): Option<Pte>
  {
    match Descend(pt, root, va, 0)
    case None => None
    case Some(n) => if IsNode(pt, n) then Some(pt[n][PX(0, va)]) else None
  }

  /** The valid PTE that maps `va`, if any. */
  function Mapping(pt: PageTable, root: nat, va: nat): Option<Pte>
  {
    match Entry(pt, root, va)
    case Some(e) => if IsValid(e) then Some(e) else None
    case None => None
  }

  lemma {:induction false} DescendInTree(pt: PageTable, lvl: map<nat, nat>, owner: map<nat, (nat, nat)>,
                                        root: nat, va: nat, level: nat)
    requires Tree(pt, lvl, owner) && IsRoot(pt, lvl, root) && level <= 2
    ensures Descend(pt, root, va, level).Some? ==>
      var n := Descend(pt, root, va, level).value;
      n in pt && n in lvl && lvl[n] == level
    decreases 2 - level
  {
    if level < 2 {
      DescendInTree(pt, lvl, owner, root, va, level + 1);
      match Descend(pt, root, va, level + 1)
      case None =>
      case Some(n) =>
        if IsValid(pt[n][PX(level + 1, va)]) {
          assert LinkOk(pt, lvl, owner, n, PX(level + 1, va));
        }
    }
  }

  /** In a tree, walk without allocation finds a PTE exactly when both interior entries are valid. */
  lemma LookupInTree(pt: PageTable, lvl: map<nat, nat>, owner: map<nat, (nat, nat)>, root: nat, va: nat)
    requires Tree(pt, lvl, owner) && IsRoot(pt, lvl, root)
    ensures Lookup(pt, root, va).Some? <==>
      IsValid(pt[root][PX(2, va)]) &&
      var n1 := PTE2PA(pt[root][PX(2, va)]);
      n1 in pt && IsValid(pt[n1][PX(1, va)])
    ensures Lookup(pt, root, va).Some? ==>
      var n := Lookup(pt, root, va).value.0;
      n in pt && lvl[n] == 0 && Entry(pt, root, va) == Some(pt[n][PX(0, va)])
  {
    DescendInTree(pt, lvl, owner, root, va, 1);
    DescendInTree(pt, lvl, owner, root, va, 0);
  }

  /** No translation of an existing root is lost or changed; an absent PTE may become a zero one. */
  predicate EntryGrows(e0: Option<Pte>, e1: Option<Pte>)
  {
    e1 == e0 || (e0.None? && e1 == Some(ZERO))
  }

  ghost predicate Grows(pt0: PageTable, lvl0: map<nat, nat>, pt1: PageTable)
  {
    forall r, va :: IsRoot(pt0, lvl0, r) ==> EntryGrows(Entry(pt0, r, va), Entry(pt1, r, va))
  }

  lemma GrowsTrans(pt0: PageTable, lvl0: map<nat, nat>, pt1: PageTable, lvl1: map<nat, nat>, pt2: PageTable)
    requires Grows(pt0, lvl0, pt1) && Grows(pt1, lvl1, pt2)
    requires forall r :: IsRoot(pt0, lvl0, r) ==> IsRoot(pt1, lvl1, r)
    ensures Grows(pt0, lvl0, pt2)
  {
    forall r, va | IsRoot(pt0, lvl0, r) ensures EntryGrows(Entry(pt0, r, va), Entry(pt2, r, va)) {
      assert EntryGrows(Entry(pt0, r, va), Entry(pt1, r, va));
      assert EntryGrows(Entry(pt1, r, va), Entry(pt2, r, va));
    }
  }

  /** The effect of walk creating a page-table page `n` under entry `i` of node `p`. */
  function Link(pt: PageTable, p: nat, i: nat, n: nat): PageTable
    requires p in pt && i < |pt[p]|
  {
    pt[n := Zeros()][p := pt[p][i := MakePte(n, PTE_V)]]
  }

  ghost predicate CanLink(pt: PageTable, lvl: map<nat, nat>, owner: map<nat, (nat, nat)>, p: nat, i: nat, n: nat)
  {
    Tree(pt, lvl, owner) && p in pt && p in lvl && lvl[p] >= 1 && i < NPTE &&
    !IsValid(pt[p][i]) && n !in pt && n % PGSIZE == 0
  }

  /** Linking a fresh zeroed node under an invalid interior entry keeps the tree invariant. */
  lemma LinkTree(pt: PageTable, lvl: map<nat, nat>, owner: map<nat, (nat, nat)>, p: nat, i: nat, n: nat)
    requires CanLink(pt, lvl, owner, p, i, n)
    ensures Tree(Link(pt, p, i, n), lvl[n := lvl[p] - 1], owner[n := (p, i)])
  {
    var pt1, lvl1, owner1 := Link(pt, p, i, n), lvl[n := lvl[p] - 1], owner[n := (p, i)];
    assert PTE2PA(MakePte(n, PTE_V)) == n;
    forall a, j | a in pt1 && a in lvl1 && lvl1[a] >= 1 && 0 <= j < |pt1[a]| && IsValid(pt1[a][j])
      ensures LinkOk(pt1, lvl1, owner1, a, j)
    {
      if a == p && j == i {
      } else {
        assert a in pt && pt1[a][j] == pt[a][j];
        assert LinkOk(pt, lvl, owner, a, j);
      }
    }
    forall x | x in pt1 && x in lvl1 && lvl1[x] < 2 ensures OwnedOk(pt1, lvl1, owner1, x) {
      if x != n {
        assert OwnedOk(pt, lvl, owner, x);
      }
    }
  }

  /** Linking a fresh node changes no translation of any root, except that absent PTEs may become zero ones. */
  lemma LinkEntry(pt: PageTable, lvl: map<nat, nat>, owner: map<nat, (nat, nat)>, p: nat, i: nat, n: nat,
                  r: nat, va: nat)
    requires CanLink(pt, lvl, owner, p, i, n) && IsRoot(pt, lvl, r)
    ensures EntryGrows(Entry(pt, r, va), Entry(Link(pt, p, i, n), r, va))
  {
    var pt1 := Link(pt, p, i, n);
    assert PTE2PA(MakePte(n, PTE_V)) == n;
    DescendInTree(pt, lvl, owner, r, va, 1);
    DescendInTree(pt, lvl, owner, r, va, 0);
    match Descend(pt, r, va, 1)
    case None =>
      if p == r && PX(2, va) == i {
        assert Descend(pt1, r, va, 1) == Some(n);
      }
    case Some(m) =>
      assert Descend(pt1, r, va, 1) == Some(m);
      if m == p && PX(1, va) == i {
        assert Descend(pt1, r, va, 0) == Some(n);
      } else {
        assert Descend(pt1, r, va, 0) == Descend(pt, r, va, 0);
      }
  }

  lemma LinkGrows(pt: PageTable, lvl: map<nat, nat>, owner: map<nat, (nat, nat)>, p: nat, i: nat, n: nat)
    requires CanLink(pt, lvl, owner, p, i, n)
    ensures Grows(pt, lvl, Link(pt, p, i, n))
  {
    forall r, va | IsRoot(pt, lvl, r) ensures EntryGrows(Entry(pt, r, va), Entry(Link(pt, p, i, n), r, va)) {
      LinkEntry(pt, lvl, owner, p, i, n, r, va);
    }
  }

  /** After linking at the node on `va`'s path, the path continues into the new node. */
  lemma LinkDescend(pt: PageTable, lvl: map<nat, nat>, owner: map<nat, (nat, nat)>, p: nat, n: nat,
                    root: nat, va: nat)
    requires IsRoot(pt, lvl, root) && p in lvl && 1 <= lvl[p] <= 2
    requires Descend(pt, root, va, lvl[p]) == Some(p)
    requires CanLink(pt, lvl, owner, p, PX(lvl[p], va), n)
    ensures Descend(Link(pt, p, PX(lvl[p], va), n), root, va, lvl[p]) == Some(p)
    ensures Descend(Link(pt, p, PX(lvl[p], va), n), root, va, lvl[p] - 1) == Some(n)
  {
    var pt1 := Link(pt, p, PX(lvl[p], va), n);
    assert PTE2PA(MakePte(n, PTE_V)) == n;
    if lvl[p] == 1 {
      DescendInTree(pt, lvl, owner, root, va, 2);
      assert Descend(pt1, root, va, 1) == Descend(pt, root, va, 1);
    }
  }

  /** No valid translation of a root that existed in `pt0` is added, lost or changed in `pt1`. */
  ghost predicate SameMappings(pt0: PageTable, lvl0: map<nat, nat>, pt1: PageTable)
  {
    forall r, va :: IsRoot(pt0, lvl0, r) ==> Mapping(pt1, r, va) == Mapping(pt0, r, va)
  }

  lemma LinkSame(pt: PageTable, lvl: map<nat, nat>, owner: map<nat, (nat, nat)>, p: nat, i: nat, n: nat)
    requires CanLink(pt, lvl, owner, p, i, n)
    ensures SameMappings(pt, lvl, Link(pt, p, i, n))
  {
    forall r, va | IsRoot(pt, lvl, r) ensures Mapping(Link(pt, p, i, n), r, va) == Mapping(pt, r, va) {
      LinkEntry(pt, lvl, owner, p, i, n, r, va);
    }
  }

  /** `*pte = e` for the PTE at index `i` of node `n`. */
  function SetPte(pt: PageTable, n: nat, i: nat, e: Pte): (r: PageTable)
    requires n in pt && i < |pt[n]|
    ensures r.Keys == pt.Keys
  {
    pt[n := pt[n][i := e]]
  }

  /** Writing any PTE of a level-0 node keeps the tree invariant. */
  lemma LeafTree(pt: PageTable, lvl: map<nat, nat>, owner: map<nat, (nat, nat)>, n: nat, i: nat, e: Pte)
    requires Tree(pt, lvl, owner) && n in pt && n in lvl && lvl[n] == 0 && i < NPTE
    ensures Tree(SetPte(pt, n, i, e), lvl, owner)
  {
    var pt1 := SetPte(pt, n, i, e);
    forall a, j | a in pt1 && a in lvl && lvl[a] >= 1 && 0 <= j < |pt1[a]| && IsValid(pt1[a][j])
      ensures LinkOk(pt1, lvl, owner, a, j)
    {
      assert LinkOk(pt, lvl, owner, a, j);
    }
    forall x | x in pt1 && x in lvl && lvl[x] < 2 ensures OwnedOk(pt1, lvl, owner, x) {
      assert OwnedOk(pt, lvl, owner, x);
    }
  }

  /** Writing the PTE at (n, i) of a level-0 node changes the PTE of exactly the addresses that walk to (n, i). */
  lemma LeafEntry(pt: PageTable, lvl: map<nat, nat>, owner: map<nat, (nat, nat)>, n: nat, i: nat, e: Pte,
                  r: nat, va: nat)
    requires Tree(pt, lvl, owner) && n in pt && n in lvl && lvl[n] == 0 && i < NPTE && IsRoot(pt, lvl, r)
    ensures Lookup(SetPte(pt, n, i, e), r, va) == Lookup(pt, r, va)
    ensures Entry(SetPte(pt, n, i, e), r, va) ==
      if Lookup(pt, r, va) == Some((n, i)) then Some(e) else Entry(pt, r, va)
  {
    var pt1 := SetPte(pt, n, i, e);
    DescendInTree(pt, lvl, owner, r, va, 1);
    DescendInTree(pt, lvl, owner, r, va, 0);
    assert Descend(pt1, r, va, 1) == Descend(pt, r, va, 1);
    assert Descend(pt1, r, va, 0) == Descend(pt, r, va, 0);
  }

  /** PTE2PA undoes PA2PTE on a page-aligned address. */
  lemma PteFrame(pa: nat, flags: Flags)
    requires pa % PGSIZE == 0
    ensures PTE2PA(MakePte(pa, flags)) == pa
  {
    var q := pa / 0x1000;
    assert pa == 0x1000 * q;
  }

  /** PTE2PA always yields a page-aligned address. */
  lemma FrameAligned(e: Pte)
    ensures PTE2PA(e) % PGSIZE == 0
  {
    assert PTE2PA(e) == 0x1000 * e.ppn;
  }

  /** The pages of an address range: rounding down keeps order and leaves an aligned gap. */
  lemma RoundDownRange(x: nat, y: nat)
    requires x <= y
    ensures PgRoundDown(x) <= PgRoundDown(y) && (PgRoundDown(y) - PgRoundDown(x)) % PGSIZE == 0
  {
    var p := x / 0x1000;
    var q := y / 0x1000;
    assert p <= q;
    assert PgRoundDown(y) - PgRoundDown(x) == 0x1000 * (q - p);
  }

  /** A page-aligned address below MAXVA is determined by its three 9-bit indexes. */
  lemma PageSplit(a: nat)
    requires a % PGSIZE == 0 && a < MAXVA
    ensures a == PX(2, a) * 0x4000_0000 + PX(1, a) * 0x20_0000 + PX(0, a) * 0x1000
  {
    var q := a / 0x1000;
    var t := q / 512;
    var u := t / 512;
    assert a == 0x1000 * q;
    assert q == 512 * t + q % 512;
    assert t == 512 * u + t % 512;
    assert a / 0x20_0000 == t;
    assert a / 0x4000_0000 == u;
  }

  /** Distinct pages, in the same tree or in two trees, never share a PTE. */
  lemma LookupDistinct(pt: PageTable, lvl: map<nat, nat>, owner: map<nat, (nat, nat)>,
                       r1: nat, a: nat, r2: nat, b: nat)
    requires Tree(pt, lvl, owner) && IsRoot(pt, lvl, r1) && IsRoot(pt, lvl, r2)
    requires a % PGSIZE == 0 && b % PGSIZE == 0 && a < MAXVA && b < MAXVA
    requires Lookup(pt, r1, a).Some? && Lookup(pt, r1, a) == Lookup(pt, r2, b)
    ensures r1 == r2 && a == b
  {
    DescendInTree(pt, lvl, owner, r1, a, 1);
    DescendInTree(pt, lvl, owner, r2, b, 1);
    var n1, m1 := Descend(pt, r1, a, 1).value, Descend(pt, r2, b, 1).value;
    assert LinkOk(pt, lvl, owner, n1, PX(1, a));
    assert LinkOk(pt, lvl, owner, m1, PX(1, b));
    assert LinkOk(pt, lvl, owner, r1, PX(2, a));
    assert LinkOk(pt, lvl, owner, r2, PX(2, b));
    PageSplit(a);
    PageSplit(b);
  }

  /** The indexes of `va` are those of its page. */
  lemma PXPage(va: nat)
    ensures forall l :: 0 <= l <= 2 ==> PX(l, va) == PX(l, PgRoundDown(va))
  {
    var q := va / 0x1000;
    assert PgRoundDown(va) == 0x1000 * q;
    assert va == 0x1000 * q + va % 0x1000;
    var t := q / 512;
    assert q == 512 * t + q % 512;
    assert va / 0x20_0000 == t && PgRoundDown(va) / 0x20_0000 == t;
    var u := t / 512;
    assert t == 512 * u + t % 512;
    assert va / 0x4000_0000 == u && PgRoundDown(va) / 0x4000_0000 == u;
  }

  /** A translation is the same for every address of a page. */
  lemma MappingPage(pt: PageTable, r: nat, va: nat)
    ensures Lookup(pt, r, va) == Lookup(pt, r, PgRoundDown(va))
    ensures Entry(pt, r, va) == Entry(pt, r, PgRoundDown(va))
    ensures Mapping(pt, r, va) == Mapping(pt, r, PgRoundDown(va))
  {
    PXPage(va);
    assert Descend(pt, r, va, 1) == Descend(pt, r, PgRoundDown(va), 1);
    assert Descend(pt, r, va, 0) == Descend(pt, r, PgRoundDown(va), 0);
  }

  /** The indexes of `va` are those of its low 39 bits. */
  lemma PXAlias(va: nat)
    ensures PX(0, va) == PX(0, va % VA_SPAN) && PX(1, va) == PX(1, va % VA_SPAN) && PX(2, va) == PX(2, va % VA_SPAN)
  {
    var w := va % VA_SPAN;
    var q := va / VA_SPAN;
    assert va == VA_SPAN * q + w;
    IndexAlias(va, w, q, 0x1000, 0x800_0000);
    IndexAlias(va, w, q, 0x20_0000, 0x4_0000);
    IndexAlias(va, w, q, 0x4000_0000, 0x200);
  }

  /** Dividing by `d` and reducing mod 512 ignores a multiple of `d` * `k` when 512 divides `k`. */
  lemma IndexAlias(va: nat, w: nat, q: nat, d: nat, k: nat)
    requires d > 0 && k % NPTE == 0 && va == d * k * q + w
    ensures va / d % NPTE == w / d % NPTE
  {
    var s := w / d;
    assert w == d * s + w % d;
    assert va == d * (k * q + s) + w % d;
    DivUnique(va, d, k * q + s, w % d);
    assert k * q == NPTE * ((k / NPTE) * q);
  }

  lemma DivUnique(x: nat, d: nat, a: nat, b: nat)
    requires d > 0 && x == d * a + b && b < d
    ensures x / d == a
  {
    var t := x / d;
    assert x == d * t + x % d;
    if t > a {
      MulStep(d, a, t - a - 1);
    } else if t < a {
      MulStep(d, t, a - t - 1);
    }
  }

  /** `d` * (`a` + `e` + 1) is at least `d` more than `d` * `a`. */
  lemma MulStep(d: nat, a: nat, e: nat)
    ensures d * (a + e + 1) == d * a + d * e + d && d * e >= 0
  {
  }

  /** An address beyond the 39 bits PX reads reaches the PTE of its low 39 bits. */
  lemma MappingAlias(pt: PageTable, r: nat, va: nat)
    ensures Entry(pt, r, va) == Entry(pt, r, va % VA_SPAN)
    ensures Mapping(pt, r, va) == Mapping(pt, r, va % VA_SPAN)
  {
    PXAlias(va);
    assert Descend(pt, r, va, 1) == Descend(pt, r, va % VA_SPAN, 1);
    assert Descend(pt, r, va, 0) == Descend(pt, r, va % VA_SPAN, 0);
  }

  /** Adding a node the tree does not use changes no translation of any root. */
  lemma AddNodeMapping(pt: PageTable, lvl: map<nat, nat>, owner: map<nat, (nat, nat)>, x: nat, c: seq<Pte>,
                       r: nat, va: nat)
    requires Tree(pt, lvl, owner) && x !in pt && IsRoot(pt, lvl, r)
    ensures Mapping(pt[x := c], r, va) == Mapping(pt, r, va)
  {
    DescendInTree(pt, lvl, owner, r, va, 1);
    DescendInTree(pt, lvl, owner, r, va, 0);
    assert Descend(pt[x := c], r, va, 2) == Descend(pt, r, va, 2);
    assert Descend(pt[x := c], r, va, 1) == Descend(pt, r, va, 1);
    assert Descend(pt[x := c], r, va, 0) == Descend(pt, r, va, 0);
    assert Entry(pt[x := c], r, va) == Entry(pt, r, va);
  }

  /** A fresh all-zero page becomes a root without breaking the tree invariant. */
  lemma AddRootTree(pt: PageTable, lvl: map<nat, nat>, owner: map<nat, (nat, nat)>, r: nat)
    requires Tree(pt, lvl, owner) && r !in pt
    ensures Tree(pt[r := Zeros()], lvl[r := 2], owner)
  {
    var pt1, lvl1 := pt[r := Zeros()], lvl[r := 2];
    forall a, j | a in pt1 && a in lvl1 && lvl1[a] >= 1 && 0 <= j < |pt1[a]| && IsValid(pt1[a][j])
      ensures LinkOk(pt1, lvl1, owner, a, j)
    {
      assert a != r;
      assert LinkOk(pt, lvl, owner, a, j);
    }
    forall x | x in pt1 && x in lvl1 && lvl1[x] < 2 ensures OwnedOk(pt1, lvl1, owner, x) {
      assert OwnedOk(pt, lvl, owner, x);
    }
  }
}
