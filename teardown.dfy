/**
 * The shape of a page-table teardown (freewalk and proc_freekpagetable of
 * kernel/vm.c): which page-table pages a recursive walk from a node frees,
 * in which order, and what the tree invariant of module Sv39 guarantees
 * about them.
 */
module Teardown {
  import opened Common
  import opened Sv39

  /** The node holding the entry that points at `x` (`x` itself for a root). */
  function Parent(owner: map<nat, (nat, nat)>, x: nat): nat
  {
    if x in owner then owner[x].0 else x
  }

  /** `k` steps up the owner chain from `x`. */
  function Up(owner: map<nat, (nat, nat)>, x: nat, k: nat): nat
    decreases k
  {
    if k == 0 then x else Up(owner, Parent(owner, x), k - 1)
  }

  /** The last step of a climb is one step from where the shorter climb ends. */
  lemma {:induction false} UpLast(owner: map<nat, (nat, nat)>, x: nat, k: nat)
    ensures Up(owner, x, k + 1) == Parent(owner, Up(owner, x, k))
    decreases k
  {
    if k > 0 {
      UpLast(owner, Parent(owner, x), k - 1);
    }
  }

  /**
   * The page-table pages a teardown from node `n` at `level` frees, in the
   * order it frees them: the subtree under each table entry in entry order,
   * then `n` itself.
   */
  function Order(pt: PageTable, n: nat, level: nat): seq<nat>
    decreases level, NPTE + 1
  {
    Kids(pt, n, level, NPTE) + [n]
  }

  /** What the teardown frees under entries 0 .. `i` - 1 of `n`. */
  function Kids(pt: PageTable, n: nat, level: nat, i: nat): seq<nat>
    decreases level, i
  {
    if i == 0 || !IsNode(pt, n) || NPTE < i then [] else Kids(pt, n, level, i - 1) + Sub(pt, n, level, i - 1)
  }

  /** What the teardown frees under entry `i` of `n`: nothing unless it points to a lower-level table. */
  function Sub(pt: PageTable, n: nat, level: nat, i: nat): seq<nat>
    requires IsNode(pt, n) && i < NPTE
    decreases level, i
  {
    if level > 0 && IsTable(pt[n][i]) then Order(pt, PTE2PA(pt[n][i]), level - 1) else []
  }

  ghost predicate NoDup(s: seq<nat>)
  {
    forall i, j :: 0 <= i < j < |s| ==> s[i] != s[j]
  }

  /** The sequence `s` with every table entry below `i` zeroed, as the teardown leaves a node before freeing it. */
  function Zeroed(s: seq<Pte>, i: nat): (r: seq<Pte>)
    ensures |r| == |s|
  {
    seq(|s|, j requires 0 <= j < |s| => if j < i && IsTable(s[j]) then ZERO else s[j])
  }

  /**
   * The subtree of `n` can be torn down: every table entry leads to a node
   * one level down that can itself be torn down, level-0 nodes hold no table
   * entry, and a valid entry that is not a table entry (a leaf) occurs only
   * when `leaves` allows it (freewalk panics on one).
   */
  ghost predicate Tearable(pt: PageTable, n: nat, level: nat, leaves: bool)
    decreases level
  {
    IsNode(pt, n) &&
    forall i :: 0 <= i < NPTE ==>
      (IsTable(pt[n][i]) ==> level > 0 && Tearable(pt, PTE2PA(pt[n][i]), level - 1, leaves)) &&
      (IsValid(pt[n][i]) && !IsTable(pt[n][i]) ==> leaves)
  }

  /** A table entry of a page of `s` above level 0 points to a page of `s`. */
  ghost predicate ChildClosed(pt: PageTable, lvl: map<nat, nat>, s: seq<nat>)
  {
    forall p, j :: p in s && p in pt && p in lvl && lvl[p] >= 1 && 0 <= j < |pt[p]| && IsTable(pt[p][j]) ==> PTE2PA(pt[p][j]) in s
  }

  /** The page-table pages of the tree of `root`: those whose owner chain climbs to `root`. */
  ghost function TreeNodes(pt: PageTable, lvl: map<nat, nat>, owner: map<nat, (nat, nat)>, root: nat): set<nat>
  {
    set x | x in pt && x in lvl && lvl[x] <= 2 && Up(owner, x, 2 - lvl[x]) == root
  }

  lemma NoDupAppend(a: seq<nat>, b: seq<nat>)
    ensures NoDup(a + b) <==> NoDup(a) && NoDup(b) && forall x :: x in a ==> x !in b
  {
    if NoDup(a + b) {
      NoDupSplit(a, b);
    }
    if NoDup(a) && NoDup(b) && forall x :: x in a ==> x !in b {
      NoDupJoin(a, b);
    }
  }

  lemma NoDupSplit(a: seq<nat>, b: seq<nat>)
    requires NoDup(a + b)
    ensures NoDup(a) && NoDup(b) && forall x :: x in a ==> x !in b
  {
    var s := a + b;
    forall i, j | 0 <= i < j < |a| ensures a[i] != a[j] {
      assert s[i] == a[i] && s[j] == a[j];
    }
    forall i, j | 0 <= i < j < |b| ensures b[i] != b[j] {
      assert s[|a| + i] == b[i] && s[|a| + j] == b[j];
    }
    forall i, j | 0 <= i < |a| && 0 <= j < |b| ensures a[i] != b[j] {
      assert s[i] == a[i] && s[|a| + j] == b[j];
    }
  }

  lemma NoDupJoin(a: seq<nat>, b: seq<nat>)
    requires NoDup(a) && NoDup(b) && forall x :: x in a ==> x !in b
    ensures NoDup(a + b)
  {
    var s := a + b;
    forall i, j | 0 <= i < j < |s| ensures s[i] != s[j] {
      if j < |a| {
        assert s[i] == a[i] && s[j] == a[j];
      } else if i >= |a| {
        assert s[i] == b[i - |a|] && s[j] == b[j - |a|];
      } else {
        assert s[i] == a[i] && s[j] == b[j - |a|];
        assert a[i] in a && b[j - |a|] in b;
      }
    }
  }

  lemma ElemsAppend(a: seq<nat>, b: seq<nat>)
    ensures (set x | x in a + b) == (set x | x in a) + (set x | x in b)
  {
  }

  /** What the teardown frees under the first `i` entries is a prefix of what it frees under the first `j`. */
  lemma {:induction false} KidsPrefix(pt: PageTable, n: nat, level: nat, i: nat, j: nat)
    requires i <= j <= NPTE
    ensures Kids(pt, n, level, i) <= Kids(pt, n, level, j)
    decreases j
  {
    if i < j {
      KidsPrefix(pt, n, level, i, j - 1);
    }
  }

  /**
   * What a teardown of node `n` has ahead of it at entry `i`: the entry's
   * subtree follows what was freed so far, can be torn down on its own, and
   * shares no page with what was freed so far or with `n`.
   */
  lemma SubReady(pt: PageTable, n: nat, level: nat, i: nat, leaves: bool)
    requires Tearable(pt, n, level, leaves) && NoDup(Order(pt, n, level)) && i < NPTE
    ensures Kids(pt, n, level, i + 1) == Kids(pt, n, level, i) + Sub(pt, n, level, i)
    ensures n !in Kids(pt, n, level, i + 1) && NoDup(Kids(pt, n, level, i + 1))
    ensures forall x :: x in Kids(pt, n, level, i + 1) ==> x in Order(pt, n, level)
    ensures IsTable(pt[n][i]) ==>
      level > 0 && Tearable(pt, PTE2PA(pt[n][i]), level - 1, leaves) &&
      NoDup(Order(pt, PTE2PA(pt[n][i]), level - 1)) &&
      forall x :: x in Order(pt, PTE2PA(pt[n][i]), level - 1) ==> x !in Kids(pt, n, level, i)
    ensures IsTable(pt[n][i]) ==> Kids(pt, n, level, i + 1) == Kids(pt, n, level, i) + Order(pt, PTE2PA(pt[n][i]), level - 1)
    ensures !IsTable(pt[n][i]) ==> Kids(pt, n, level, i + 1) == Kids(pt, n, level, i)
  {
    var all := Order(pt, n, level);
    var kids, next := Kids(pt, n, level, NPTE), Kids(pt, n, level, i + 1);
    KidsPrefix(pt, n, level, i + 1, NPTE);
    NoDupAppend(kids, [n]);
    assert next == kids[..|next|];
    forall x | x in next ensures x in all && x != n {
      var k :| 0 <= k < |next| && next[k] == x;
      assert all[k] == x;
    }
    NoDupAppend(next, kids[|next|..]);
    assert kids == next + kids[|next|..];
    NoDupAppend(Kids(pt, n, level, i), Sub(pt, n, level, i));
  }

  /** The teardown of a node whose subtree is tearable begins at a node. */
  lemma TearableNode(pt: PageTable, n: nat, level: nat, leaves: bool)
    requires Tearable(pt, n, level, leaves)
    ensures IsNode(pt, n) && forall i :: 0 <= i < NPTE && IsValid(pt[n][i]) && !IsTable(pt[n][i]) ==> leaves
  {
  }

  /**
   * In a tree, the teardown of `n` at its own level frees no page twice; every
   * page it frees lies below `n`; and what it frees is closed under parents
   * (up to `n`) and under table children.
   */
  lemma {:induction false} TreeOrder(pt: PageTable, lvl: map<nat, nat>, owner: map<nat, (nat, nat)>, n: nat, level: nat)
    requires Tree(pt, lvl, owner) && n in pt && n in lvl && lvl[n] == level
    ensures NoDup(Order(pt, n, level))
    ensures forall x :: x in Order(pt, n, level) ==>
      x in pt && x in lvl && lvl[x] <= level && Up(owner, x, level - lvl[x]) == n
    ensures forall x :: x in Order(pt, n, level) && x != n ==> x in owner && owner[x].0 in Order(pt, n, level)
    ensures ChildClosed(pt, lvl, Order(pt, n, level))
    decreases level, NPTE + 1
  {
    var kids := Kids(pt, n, level, NPTE);
    TreeKids(pt, lvl, owner, n, level, NPTE);
    NoDupAppend(kids, [n]);
    forall x | x in kids ensures Up(owner, x, level - lvl[x]) == n {
      UpLast(owner, x, level - 1 - lvl[x]);
    }
  }

  lemma {:induction false} TreeKids(pt: PageTable, lvl: map<nat, nat>, owner: map<nat, (nat, nat)>,
                                    n: nat, level: nat, i: nat)
    requires Tree(pt, lvl, owner) && n in pt && n in lvl && lvl[n] == level && i <= NPTE
    ensures NoDup(Kids(pt, n, level, i))
    ensures forall x :: x in Kids(pt, n, level, i) ==>
      x in pt && x in lvl && lvl[x] < level &&
      var c := Up(owner, x, level - 1 - lvl[x]); c in owner && owner[c].0 == n && owner[c].1 < i
    ensures forall x :: x in Kids(pt, n, level, i) ==>
      x in owner && (owner[x].0 == n || owner[x].0 in Kids(pt, n, level, i))
    ensures ChildClosed(pt, lvl, Kids(pt, n, level, i))
    ensures forall j :: 0 <= j < i && level > 0 && IsTable(pt[n][j]) ==> PTE2PA(pt[n][j]) in Kids(pt, n, level, i)
    decreases level, i
  {
    if i > 0 {
      TreeKids(pt, lvl, owner, n, level, i - 1);
      var prev := Kids(pt, n, level, i - 1);
      assert Kids(pt, n, level, i) == prev + Sub(pt, n, level, i - 1);
      if level > 0 && IsTable(pt[n][i - 1]) {
        var c := PTE2PA(pt[n][i - 1]);
        assert LinkOk(pt, lvl, owner, n, i - 1);
        TreeOrder(pt, lvl, owner, c, level - 1);
        var sub := Order(pt, c, level - 1);
        assert Kids(pt, n, level, i) == prev + sub;
        NoDupAppend(prev, sub);
      } else {
        assert Kids(pt, n, level, i) == prev;
      }
    }
  }

  /** The pages of the tree of `root` are exactly those its teardown frees. */
  lemma TreeNodesOrder(pt: PageTable, lvl: map<nat, nat>, owner: map<nat, (nat, nat)>, root: nat)
    requires Tree(pt, lvl, owner) && IsRoot(pt, lvl, root)
    ensures forall x :: x in Order(pt, root, 2) <==> x in TreeNodes(pt, lvl, owner, root)
  {
    var order := Order(pt, root, 2);
    TreeOrder(pt, lvl, owner, root, 2);
    assert order[|order| - 1] == root;
    ClimbAll(pt, lvl, owner, root, order);
  }

  /** Every page of the tree of `root` is in any sequence of pages that holds `root` and is closed under table children. */
  lemma ClimbAll(pt: PageTable, lvl: map<nat, nat>, owner: map<nat, (nat, nat)>, root: nat, s: seq<nat>)
    requires Tree(pt, lvl, owner) && IsRoot(pt, lvl, root) && root in s && ChildClosed(pt, lvl, s)
    ensures forall x :: x in TreeNodes(pt, lvl, owner, root) ==> x in s
  {
    forall x | x in TreeNodes(pt, lvl, owner, root) ensures x in s {
      ClimbIn(pt, lvl, owner, root, s, x, 2 - lvl[x]);
    }
  }

  /** A page whose owner chain climbs to `root` is in every sequence of pages that holds `root` and is closed under table children. */
  lemma {:induction false} ClimbIn(pt: PageTable, lvl: map<nat, nat>, owner: map<nat, (nat, nat)>, root: nat, s: seq<nat>,
                                   x: nat, k: nat)
    requires Tree(pt, lvl, owner) && IsRoot(pt, lvl, root) && root in s && ChildClosed(pt, lvl, s)
    requires x in pt && x in lvl && lvl[x] + k == 2 && Up(owner, x, k) == root
    ensures x in s
    decreases k
  {
    if k > 0 {
      assert OwnedOk(pt, lvl, owner, x);
      var (p, j) := owner[x];
      ClimbIn(pt, lvl, owner, root, s, p, k - 1);
      assert LinkOk(pt, lvl, owner, p, j);
    }
  }

  /**
   * Removing a set of pages closed under table children, and under owners
   * for its non-root pages, leaves a tree.
   */
  lemma RemoveTree(pt: PageTable, lvl: map<nat, nat>, owner: map<nat, (nat, nat)>, s: seq<nat>)
    requires Tree(pt, lvl, owner) && ChildClosed(pt, lvl, s)
    requires forall x :: x in s && x in lvl && lvl[x] < 2 ==> x in owner && owner[x].0 in s
    ensures Tree(pt - (set x | x in s), lvl, owner)
  {
    var pt1 := pt - (set x | x in s);
    forall a, i | a in pt1 && a in lvl && lvl[a] >= 1 && 0 <= i < |pt1[a]| && IsValid(pt1[a][i])
      ensures LinkOk(pt1, lvl, owner, a, i)
    {
      assert LinkOk(pt, lvl, owner, a, i);
    }
    forall x | x in pt1 && x in lvl && lvl[x] < 2 ensures OwnedOk(pt1, lvl, owner, x) {
      assert OwnedOk(pt, lvl, owner, x);
      var (p, j) := owner[x];
      assert LinkOk(pt, lvl, owner, p, j);
    }
  }

  /** Removing pages of the tree of `root` changes no PTE of any other root. */
  lemma RemoveOthers(pt: PageTable, lvl: map<nat, nat>, owner: map<nat, (nat, nat)>, root: nat, gone: set<nat>,
                     r: nat, va: nat)
    requires Tree(pt, lvl, owner) && IsRoot(pt, lvl, r) && r != root
    requires forall x :: x in gone ==> x in lvl && lvl[x] <= 2 && Up(owner, x, 2 - lvl[x]) == root
    ensures Entry(pt - gone, r, va) == Entry(pt, r, va)
  {
    var pt1 := pt - gone;
    DescendInTree(pt, lvl, owner, r, va, 1);
    DescendInTree(pt, lvl, owner, r, va, 0);
    if Descend(pt, r, va, 1).Some? {
      var n1 := Descend(pt, r, va, 1).value;
      assert LinkOk(pt, lvl, owner, r, PX(2, va));
      assert Up(owner, n1, 1) == r;
      if Descend(pt, r, va, 0).Some? {
        var n0 := Descend(pt, r, va, 0).value;
        assert LinkOk(pt, lvl, owner, n1, PX(1, va));
        assert Up(owner, n0, 2) == r;
      }
    }
    assert Descend(pt1, r, va, 1) == Descend(pt, r, va, 1);
    assert Descend(pt1, r, va, 0) == Descend(pt, r, va, 0);
  }

  /** The page-aligned address whose three 9-bit indexes are `j2`, `j1` and `j0` (at or above MAXVA when `j2` >= 256). */
  lemma Compose(j2: nat, j1: nat, j0: nat)
    requires j2 < NPTE && j1 < NPTE && j0 < NPTE
    ensures var va := j2 * 0x4000_0000 + j1 * 0x20_0000 + j0 * 0x1000;
      PX(2, va) == j2 && PX(1, va) == j1 && PX(0, va) == j0
  {
    var va := j2 * 0x4000_0000 + j1 * 0x20_0000 + j0 * 0x1000;
    var t := j2 * 512 + j1;
    var q := t * 512 + j0;
    assert va == 0x1000 * q;
    assert va / 0x1000 == q && q % 512 == j0;
    assert va == 0x20_0000 * t + j0 * 0x1000;
    assert va / 0x20_0000 == t && t % 512 == j1;
    assert va == 0x4000_0000 * j2 + (j1 * 0x20_0000 + j0 * 0x1000);
    assert va / 0x4000_0000 == j2;
  }

  /**
   * A tree whose every translation is absent, or (when `leaves`) is a leaf
   * carrying an R, W or X bit, can be torn down from its root.
   */
  lemma RootTearable(pt: PageTable, lvl: map<nat, nat>, owner: map<nat, (nat, nat)>, root: nat, leaves: bool)
    requires Tree(pt, lvl, owner) && IsRoot(pt, lvl, root)
    requires forall va: nat :: Mapping(pt, root, va).Some? ==> leaves && !IsTable(Mapping(pt, root, va).value)
    ensures Tearable(pt, root, 2, leaves)
  {
    forall j2 | 0 <= j2 < NPTE && IsValid(pt[root][j2]) ensures Tearable(pt, PTE2PA(pt[root][j2]), 1, leaves) {
      assert LinkOk(pt, lvl, owner, root, j2);
      var n1 := PTE2PA(pt[root][j2]);
      forall j1 | 0 <= j1 < NPTE && IsValid(pt[n1][j1]) ensures Tearable(pt, PTE2PA(pt[n1][j1]), 0, leaves) {
        assert LinkOk(pt, lvl, owner, n1, j1);
        var n0 := PTE2PA(pt[n1][j1]);
        forall j0 | 0 <= j0 < NPTE && IsValid(pt[n0][j0]) ensures leaves && !IsTable(pt[n0][j0]) {
          Compose(j2, j1, j0);
          var va := j2 * 0x4000_0000 + j1 * 0x20_0000 + j0 * 0x1000;
          assert Descend(pt, root, va, 1) == Some(n1);
          assert Descend(pt, root, va, 0) == Some(n0);
          assert Mapping(pt, root, va) == Some(pt[n0][j0]);
        }
      }
    }
    forall j2 | 0 <= j2 < NPTE && IsValid(pt[root][j2]) ensures IsTable(pt[root][j2]) {
      assert LinkOk(pt, lvl, owner, root, j2);
    }
  }
}
