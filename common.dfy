/**
 * Small value types, the page arithmetic of riscv.h, and families of
 * disjoint lists (free lists, hash buckets), shared by the kernel and
 * user-program models.
 */
module Common {

  /** A value that may be absent: a null pointer, a failed lookup. */
  datatype Option<T> = None | Some(value: T)

  /** Unsigned 32-bit arithmetic, as C's `uint` wraps around. */
  const U32: nat := 0x1_0000_0000

  function Inc32(x: nat): (r: nat)
    requires x < U32
    ensures r < U32
    ensures x + 1 < U32 ==> r == x + 1
    ensures x + 1 == U32 ==> r == 0
  {
    (x + 1) % U32
  }

  function Dec32(x: nat): (r: nat)
    requires x < U32
    ensures r < U32
    ensures x > 0 ==> r == x - 1
    ensures x == 0 ==> r == U32 - 1
  {
    if x == 0 then U32 - 1 else x - 1
  }

  /** The size of a page and of a physical frame. */
  const PGSIZE: nat := 4096

  /** PGROUNDDOWN: the page boundary at or below `a`. */
  function PgRoundDown(a: nat): (r: nat)
    ensures r % PGSIZE == 0 && r <= a < r + PGSIZE
  {
    a / PGSIZE * PGSIZE
  }

  /** PGROUNDUP: the page boundary at or above `a`. */
  function PgRoundUp(a: nat): (r: nat)
    ensures r % PGSIZE == 0 && a <= r < a + PGSIZE
  {
    (a + PGSIZE - 1) / PGSIZE * PGSIZE
  }

  /** The address one page above an aligned one is aligned. */
  lemma AlignedUp(a: nat)
    requires a % PGSIZE == 0
    ensures (a + PGSIZE) % PGSIZE == 0
  {
    var p := a / 0x1000;
    assert a + PGSIZE == 0x1000 * (p + 1);
  }

  /** The page after an aligned `a` is the next aligned address above it. */
  lemma AlignedNext(a: nat, b: nat)
    requires a % PGSIZE == 0 && b % PGSIZE == 0 && a < b
    ensures a + PGSIZE <= b && (a + PGSIZE) % PGSIZE == 0
  {
    var p := a / 0x1000;
    var q := b / 0x1000;
    assert a == 0x1000 * p && b == 0x1000 * q;
    assert a + PGSIZE == 0x1000 * (p + 1);
  }

  /** Stepping one page up an aligned range keeps the range aligned. */
  lemma AlignedStep(a: nat, last: nat)
    requires a % PGSIZE == 0 && (last - a) % PGSIZE == 0 && a < last
    ensures a + PGSIZE <= last && (last - (a + PGSIZE)) % PGSIZE == 0 && (a + PGSIZE) % PGSIZE == 0
  {
    var q := (last - a) / 0x1000;
    assert last - a == 0x1000 * q;
    assert last - (a + PGSIZE) == 0x1000 * (q - 1);
  }

  /** `npages` whole pages from an aligned address end at an aligned address. */
  lemma SpanAligned(va: nat, npages: nat)
    requires va % PGSIZE == 0
    ensures (va + npages * PGSIZE) % PGSIZE == 0 && (va + npages * PGSIZE - va) % PGSIZE == 0
  {
    var p := va / 0x1000;
    assert va + npages * PGSIZE == 0x1000 * (p + npages);
  }

  /** Rounding up: an aligned address is its own page boundary, and no aligned address lies strictly between `x` and PGROUNDUP(x). */
  lemma RoundUpFacts(x: nat, a: nat)
    requires a % PGSIZE == 0
    ensures x % PGSIZE == 0 ==> PgRoundUp(x) == x
    ensures x <= a ==> PgRoundUp(x) <= a
    ensures a < x ==> a + PGSIZE <= PgRoundUp(x)
  {
    var q := a / 0x1000;
    var p := PgRoundUp(x) / 0x1000;
    assert a == 0x1000 * q && PgRoundUp(x) == 0x1000 * p;
  }

  /** For an aligned `a` and `hi` the page boundary at or above `x`: `a` is below `x` exactly when its page ends by `hi`. */
  lemma PageBound(x: nat, hi: nat, a: nat)
    requires hi % PGSIZE == 0 && x <= hi < x + PGSIZE && a % PGSIZE == 0
    ensures a < x ==> a + PGSIZE <= hi
    ensures x <= a ==> hi <= a
  {
    if a < hi {
      AlignedNext(a, hi);
    }
  }

  /** One page below an aligned address is aligned too. */
  lemma AlignedPrev(a: nat)
    requires a % PGSIZE == 0 && PGSIZE <= a
    ensures (a - PGSIZE) % PGSIZE == 0
  {
    var q := a / 0x1000;
    assert a - PGSIZE == 0x1000 * (q - 1);
  }

  /** The single page of an aligned address. */
  lemma OnePage(a: nat)
    requires a % PGSIZE == 0
    ensures PgRoundDown(a) == a && PgRoundDown(a + PGSIZE - 1) == a
  {
    var q := a / 0x1000;
    assert a == 0x1000 * q;
    assert (a + PGSIZE - 1) / 0x1000 == q;
  }

  /** Two addresses at the same offset in their pages are at least a page apart, and their pages differ. */
  lemma SameOffset(x: nat, a: nat)
    ensures x % PGSIZE == a % PGSIZE && x < a ==> x + PGSIZE <= a && PgRoundDown(x) < PgRoundDown(a)
  {
    if x % PGSIZE == a % PGSIZE && x < a {
      var p, q := x / 0x1000, a / 0x1000;
      assert x == 0x1000 * p + x % 0x1000 && a == 0x1000 * q + a % 0x1000;
      assert p < q;
    }
  }

  /** One page on, an address keeps its offset in the page. */
  lemma OffsetStep(a: nat)
    ensures (a + PGSIZE) % PGSIZE == a % PGSIZE
  {
    var q := a / 0x1000;
    assert a == 0x1000 * q + a % 0x1000;
    assert a + PGSIZE == 0x1000 * (q + 1) + a % 0x1000;
  }

  /** An address is its page boundary plus its offset in the page. */
  lemma PageOffset(a: nat)
    ensures PgRoundDown(a) + a % PGSIZE == a
  {
    var q := a / 0x1000;
    assert a == 0x1000 * q + a % 0x1000;
  }

  /** Whole pages between two aligned addresses. */
  lemma PagesBetween(x: nat, y: nat)
    requires x % PGSIZE == 0 && y % PGSIZE == 0 && x <= y
    ensures x + (y - x) / PGSIZE * PGSIZE == y
  {
    var q := (y - x) / 0x1000;
    assert y - x == 0x1000 * q;
  }

  /** Everything on any of the lists. */
  function Flat(ls: seq<seq<nat>>): set<nat>
  {
    set c, i | 0 <= c < |ls| && 0 <= i < |ls[c]| :: ls[c][i]
  }

  /** Nothing sits twice on one list or on two lists. */
  ghost predicate Distinct(ls: seq<seq<nat>>)
  {
    forall c1, i1, c2, i2 ::
      (0 <= c1 < |ls| && 0 <= i1 < |ls[c1]| && 0 <= c2 < |ls| && 0 <= i2 < |ls[c2]| &&
       ls[c1][i1] == ls[c2][i2]) ==> c1 == c2 && i1 == i2
  }

  lemma FlatEmpty(ls: seq<seq<nat>>)
    ensures Flat(ls) == {} <==> forall d :: 0 <= d < |ls| ==> ls[d] == []
  {
    if exists d :: 0 <= d < |ls| && ls[d] != [] {
      var d :| 0 <= d < |ls| && ls[d] != [];
      InFlat(ls, d, 0);
    }
  }

  lemma InFlat(ls: seq<seq<nat>>, c: nat, i: nat)
    requires c < |ls| && i < |ls[c]|
    ensures ls[c][i] in Flat(ls)
  {
  }

  lemma FlatPush(ls: seq<seq<nat>>, c: nat, pa: nat)
    requires c < |ls|
    ensures Flat(ls[c := [pa] + ls[c]]) == Flat(ls) + {pa}
  {
    var ls' := ls[c := [pa] + ls[c]];
    forall x | x in Flat(ls) ensures x in Flat(ls') {
      var c1, i1 :| 0 <= c1 < |ls| && 0 <= i1 < |ls[c1]| && x == ls[c1][i1];
      if c1 == c {
        assert x == ls'[c][i1 + 1];
      } else {
        assert x == ls'[c1][i1];
      }
    }
    assert pa == ls'[c][0];
  }

  /** Pushing an element that is on no list keeps the lists disjoint. */
  lemma PushDistinct(ls: seq<seq<nat>>, c: nat, pa: nat)
    requires Distinct(ls) && c < |ls| && pa !in Flat(ls)
    ensures Distinct(ls[c := [pa] + ls[c]])
    ensures Flat(ls[c := [pa] + ls[c]]) == Flat(ls) + {pa}
  {
    var ls' := ls[c := [pa] + ls[c]];
    forall c1, i1 | 0 <= c1 < |ls'| && 0 <= i1 < |ls'[c1]|
      ensures ls'[c1][i1] == (if c1 == c && i1 == 0 then pa else if c1 == c then ls[c][i1 - 1] else ls[c1][i1])
    {
    }
    forall x | x in Flat(ls) ensures x in Flat(ls') {
      var c1, i1 :| 0 <= c1 < |ls| && 0 <= i1 < |ls[c1]| && x == ls[c1][i1];
      if c1 == c {
        assert x == ls'[c][i1 + 1];
      } else {
        assert x == ls'[c1][i1];
      }
    }
    assert pa == ls'[c][0];
  }

  /** Popping a head leaves the lists disjoint, and the popped element is on none of them. */
  lemma PopDistinct(ls: seq<seq<nat>>, c: nat)
    requires Distinct(ls) && c < |ls| && ls[c] != []
    ensures Distinct(ls[c := ls[c][1..]])
    ensures ls[c][0] !in Flat(ls[c := ls[c][1..]])
    ensures Flat(ls[c := ls[c][1..]]) == Flat(ls) - {ls[c][0]}
  {
    var ls' := ls[c := ls[c][1..]];
    forall c1, i1 | 0 <= c1 < |ls'| && 0 <= i1 < |ls'[c1]|
      ensures ls'[c1][i1] == (if c1 == c then ls[c][i1 + 1] else ls[c1][i1])
    {
    }
    forall x | x in Flat(ls) && x != ls[c][0] ensures x in Flat(ls') {
      var c1, i1 :| 0 <= c1 < |ls| && 0 <= i1 < |ls[c1]| && x == ls[c1][i1];
      if c1 == c {
        assert x == ls'[c][i1 - 1];
      } else {
        assert x == ls'[c1][i1];
      }
    }
  }

  /** The list without its element at position `k`. */
  function Remove(l: seq<nat>, k: nat): (r: seq<nat>)
    requires k < |l|
    ensures |r| == |l| - 1
  {
    seq(|l| - 1, i requires 0 <= i < |l| - 1 => if i < k then l[i] else l[i + 1])
  }

  /** Taking an element out of the middle of a list leaves the lists disjoint, and it is then on none of them. */
  lemma RemoveDistinct(ls: seq<seq<nat>>, c: nat, k: nat)
    requires Distinct(ls) && c < |ls| && k < |ls[c]|
    ensures Distinct(ls[c := Remove(ls[c], k)])
    ensures Flat(ls[c := Remove(ls[c], k)]) == Flat(ls) - {ls[c][k]}
  {
    var ls' := ls[c := Remove(ls[c], k)];
    forall c1, i1 | 0 <= c1 < |ls'| && 0 <= i1 < |ls'[c1]|
      ensures ls'[c1][i1] == (if c1 != c then ls[c1][i1] else if i1 < k then ls[c][i1] else ls[c][i1 + 1])
    {
    }
    forall x | x in Flat(ls) && x != ls[c][k] ensures x in Flat(ls') {
      var c1, i1 :| 0 <= c1 < |ls| && 0 <= i1 < |ls[c1]| && x == ls[c1][i1];
      if c1 != c {
        assert x == ls'[c1][i1];
      } else if i1 < k {
        assert x == ls'[c][i1];
      } else {
        assert x == ls'[c][i1 - 1];
      }
    }
  }
}
