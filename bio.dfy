/**
 * The buffer cache of kernel/bio.c: NBUF buffers shared out among NBUCKETS
 * circular doubly linked lists, one per hash bucket. Each list runs from
 * the most recently released buffer (after its head) to the least recently
 * released one (before its head). Locks and disk I/O are not modelled.
 */
module Bio {
  import opened Common

  /** Number of buffers (NBUF of param.h). */
  const NBUF: nat := 30
  const NBUCKETS: nat := 13

  /**
   * One `struct buf`; the bucket heads are bufs too. Node `b` < NBUF is
   * `bcache.buf[b]` and node NBUF + `h` is `bcache.hashbucket[h]`; `prev`
   * and `next` are node indices. `blockno` and `refcnt` are unsigned.
   */
  datatype Buf = Buf(dev: nat, blockno: nat, valid: bool, refcnt: nat, prev: nat, next: nat)

  /** The bucket of a block: `blockno % NBUCKETS` taken on the unsigned block number. */
  function Hash(blockno: nat): (h: nat)
    ensures h < NBUCKETS
    ensures (blockno - h) % NBUCKETS == 0
  {
    blockno % NBUCKETS
  }

  /** C's `%`, which truncates toward zero: the remainder takes the sign of `x`. */
  function CRem(x: int, n: nat): int
    requires n > 0
  {
    if x >= 0 then x % n else -((-x) % n)
  }

  /**
   * `hash` as written: the `uint` block number is converted to `int` (two's
   * complement wrap-around from 2^31 up) before the truncating `%`.
   */
  function HashAsWritten(blockno: nat): (h: int)
    requires blockno < U32
    ensures -(NBUCKETS as int) < h < NBUCKETS
  {
    var x: int := if blockno < 0x8000_0000 then blockno else blockno - U32;
    CRem(x, NBUCKETS)
  }

  /** Below 2^31 the two agree. */
  lemma HashAgrees(blockno: nat)
    requires blockno < 0x8000_0000
    ensures HashAsWritten(blockno) == Hash(blockno)
  {
  }

  /** Block 2^31 lands in bucket -11, outside `bcache.lock` and `bcache.hashbucket`. */
  lemma HashAsWrittenNegative()
    ensures HashAsWritten(0x8000_0000) == -11
    ensures Hash(0x8000_0000) == 11
  {
    assert 0x8000_0000 == 13 * 165191049 + 11;
  }

  /** The node before position `k` of the list behind `head`. */
  function Prev(l: seq<nat>, head: nat, k: nat): nat
    requires k <= |l|
  {
    if k == 0 then head else l[k - 1]
  }

  /** The node after position `k` of the list behind `head`. */
  function Next(l: seq<nat>, head: nat, k: nat): nat
    requires k < |l|
  {
    if k == |l| - 1 then head else l[k + 1]
  }

  /** The links of `ns` form the circular list head, l[0], ..., l[|l| - 1], head. */
  ghost predicate Ring(ns: seq<Buf>, head: nat, l: seq<nat>)
  {
    head < |ns| && (forall k :: 0 <= k < |l| ==> l[k] < |ns|) &&
    ns[head].next == (if l == [] then head else l[0]) &&
    ns[head].prev == Prev(l, head, |l|) &&
    forall k {:trigger ns[l[k]]} :: 0 <= k < |l| ==> ns[l[k]].prev == Prev(l, head, k) && ns[l[k]].next == Next(l, head, k)
  }

  /** `ns` and `ns'` agree on the links of `head` and of every node of `l`. */
  ghost predicate SameLinks(ns: seq<Buf>, ns': seq<Buf>, head: nat, l: seq<nat>)
  {
    |ns'| == |ns| && head < |ns| && (forall k :: 0 <= k < |l| ==> l[k] < |ns|) &&
    ns'[head].prev == ns[head].prev && ns'[head].next == ns[head].next &&
    forall k :: 0 <= k < |l| ==> ns'[l[k]].prev == ns[l[k]].prev && ns'[l[k]].next == ns[l[k]].next
  }

  lemma RingFrame(ns: seq<Buf>, ns': seq<Buf>, head: nat, l: seq<nat>)
    requires Ring(ns, head, l) && SameLinks(ns, ns', head, l)
    ensures Ring(ns', head, l)
  {
  }

  /** The buffer `x` with new links. */
  function Relink(x: Buf, prev: nat, next: nat): Buf
  {
    x.(prev := prev, next := next)
  }

  /** Lines 122-123 and 181-182: `b->next->prev = b->prev; b->prev->next = b->next`. */
  function Unlinked(ns: seq<Buf>, b: nat): (r: seq<Buf>)
    requires b < |ns|
    ensures |r| == |ns|
    ensures forall x :: 0 <= x < |ns| ==> Relink(r[x], ns[x].prev, ns[x].next) == ns[x]
  {
    var p, n := ns[b].prev, ns[b].next;
    seq(|ns|, x requires 0 <= x < |ns| =>
      Relink(ns[x], if x == n then p else ns[x].prev, if x == p then n else ns[x].next))
  }

  /** Lines 127-130, 184-187 and 58-62: link `b` in right after `head`. */
  function Pushed(ns: seq<Buf>, b: nat, head: nat): (r: seq<Buf>)
    requires b < |ns| && head < |ns|
    ensures |r| == |ns|
    ensures forall x :: 0 <= x < |ns| ==> Relink(r[x], ns[x].prev, ns[x].next) == ns[x]
  {
    var f := ns[head].next;
    seq(|ns|, x requires 0 <= x < |ns| =>
      Relink(ns[x], if x == b then head else if x == f then b else ns[x].prev,
                    if x == head then b else if x == b then f else ns[x].next))
  }

  /** No node twice on the list. */
  ghost predicate NoDup(l: seq<nat>)
  {
    forall i, j :: 0 <= i < j < |l| ==> l[i] != l[j]
  }

  /** The links Unlinked changes: the next of `b`'s predecessor and the prev of its successor. */
  lemma UnlinkedAt(ns: seq<Buf>, b: nat)
    requires b < |ns|
    ensures forall x :: 0 <= x < |ns| ==>
      Unlinked(ns, b)[x].prev == (if x == ns[b].next then ns[b].prev else ns[x].prev) &&
      Unlinked(ns, b)[x].next == (if x == ns[b].prev then ns[b].next else ns[x].next)
  {
  }

  /** After the unlink, the nodes left on the list are linked in order. */
  lemma UnlinkInner(ns: seq<Buf>, head: nat, l: seq<nat>, k: nat)
    requires Ring(ns, head, l) && k < |l| && NoDup(l) && head !in l
    ensures forall j {:trigger Unlinked(ns, l[k])[Remove(l, k)[j]]} :: 0 <= j < |l| - 1 ==>
      Unlinked(ns, l[k])[Remove(l, k)[j]].prev == Prev(Remove(l, k), head, j) &&
      Unlinked(ns, l[k])[Remove(l, k)[j]].next == Next(Remove(l, k), head, j)
  {
    var b, l' := l[k], Remove(l, k);
    var ns' := Unlinked(ns, b);
    var p, n := Prev(l, head, k), Next(l, head, k);
    assert ns[b].prev == p && ns[b].next == n;
    UnlinkedAt(ns, b);
    forall j | 0 <= j < |l'|
      ensures ns'[l'[j]].prev == Prev(l', head, j) && ns'[l'[j]].next == Next(l', head, j)
    {
      if j < k {
        assert l'[j] == l[j] && ns[l[j]].prev == Prev(l, head, j) && ns[l[j]].next == Next(l, head, j);
        if j > 0 {
          assert l'[j - 1] == l[j - 1];
        }
        if j + 1 < k {
          assert l'[j + 1] == l[j + 1];
        }
      } else {
        assert l'[j] == l[j + 1] && ns[l[j + 1]].prev == Prev(l, head, j + 1) && ns[l[j + 1]].next == Next(l, head, j + 1);
        if j > k {
          assert l'[j - 1] == l[j];
        }
        if j + 1 < |l'| {
          assert l'[j + 1] == l[j + 2];
        }
      }
    }
  }

  /** Taking out the node at position `k` leaves the rest of the ring in order. */
  lemma UnlinkRing(ns: seq<Buf>, head: nat, l: seq<nat>, k: nat)
    requires Ring(ns, head, l) && k < |l| && NoDup(l) && head !in l
    ensures Ring(Unlinked(ns, l[k]), head, Remove(l, k))
  {
    var b, l' := l[k], Remove(l, k);
    var ns' := Unlinked(ns, b);
    assert ns[b].prev == Prev(l, head, k) && ns[b].next == Next(l, head, k);
    UnlinkedAt(ns, b);
    UnlinkInner(ns, head, l, k);
    if l' != [] {
      assert l'[0] == (if k == 0 then l[1] else l[0]);
      assert l'[|l'| - 1] == (if k == |l| - 1 then l[k - 1] else l[|l| - 1]);
    }
  }

  /** Linking in a node that is not on the ring puts it first. */
  lemma PushRing(ns: seq<Buf>, head: nat, l: seq<nat>, b: nat)
    requires Ring(ns, head, l) && NoDup(l) && b < |ns| && b != head && b !in l && head !in l
    ensures Ring(Pushed(ns, b, head), head, [b] + l)
  {
    var l' := [b] + l;
    var ns' := Pushed(ns, b, head);
    var f := ns[head].next;
    forall x | 0 <= x < |ns|
      ensures ns'[x].prev == (if x == b then head else if x == f then b else ns[x].prev)
      ensures ns'[x].next == (if x == head then b else if x == b then f else ns[x].next)
    {
    }
    forall j | 0 <= j < |l'|
      ensures ns'[l'[j]].prev == Prev(l', head, j) && ns'[l'[j]].next == Next(l', head, j)
    {
      if j > 0 {
        assert l'[j] == l[j - 1] && ns[l[j - 1]].prev == Prev(l, head, j - 1) && ns[l[j - 1]].next == Next(l, head, j - 1);
        if j + 1 < |l'| {
          assert l'[j + 1] == l[j];
        }
      }
    }
  }

  /** The lists hold buffers only, not heads. */
  ghost predicate OnlyBuffers(bk: seq<seq<nat>>)
  {
    forall h, k :: 0 <= h < |bk| && 0 <= k < |bk[h]| ==> bk[h][k] < NBUF
  }

  /**
   * The bucket lists `bk` (most recent first) are the rings of `ns`'s
   * heads, hold buffers only, and hold no buffer twice.
   */
  ghost predicate Lists(ns: seq<Buf>, bk: seq<seq<nat>>)
  {
    |ns| == NBUF + NBUCKETS && |bk| == NBUCKETS && Distinct(bk) &&
    OnlyBuffers(bk) &&
    forall h :: 0 <= h < NBUCKETS ==> Ring(ns, NBUF + h, bk[h])
  }

  /** Every buffer sits in the bucket its block number hashes to. */
  ghost predicate Hashed(ns: seq<Buf>, bk: seq<seq<nat>>)
    requires Lists(ns, bk)
  {
    forall h, k {:trigger ns[bk[h][k]]} :: 0 <= h < NBUCKETS && 0 <= k < |bk[h]| ==> Hash(ns[bk[h][k]].blockno) == h
  }

  /** The unsigned fields of the buffers are in range. */
  ghost predicate Bounded(ns: seq<Buf>)
  {
    forall b :: 0 <= b < NBUF && b < |ns| ==> ns[b].blockno < U32 && ns[b].refcnt < U32
  }

  /** Every buffer is on some list. */
  ghost predicate Covers(bk: seq<seq<nat>>)
  {
    forall b :: 0 <= b < NBUF ==> b in Flat(bk)
  }

  /** The cache invariant: the buckets partition the pool, and every buffer is in its block's bucket. */
  ghost predicate Inv(ns: seq<Buf>, bk: seq<seq<nat>>)
  {
    Lists(ns, bk) && Hashed(ns, bk) && Bounded(ns) && Covers(bk)
  }

  /** Changing a buffer's other fields leaves every ring alone. */
  lemma FieldsKeep(ns: seq<Buf>, bk: seq<seq<nat>>, b: nat, x: Buf)
    requires Lists(ns, bk) && b < NBUF && x.prev == ns[b].prev && x.next == ns[b].next
    ensures Lists(ns[b := x], bk)
  {
    forall h | 0 <= h < NBUCKETS ensures Ring(ns[b := x], NBUF + h, bk[h]) {
      RingFrame(ns, ns[b := x], NBUF + h, bk[h]);
    }
  }

  /** The nodes an unlink or a push touches belong to one ring. */
  lemma OtherRing(bk: seq<seq<nat>>, i: nat, j: nat, x: nat)
    requires |bk| == NBUCKETS && Distinct(bk) && i < NBUCKETS && j < NBUCKETS && i != j
    requires OnlyBuffers(bk)
    requires x == NBUF + i || x in bk[i]
    ensures x != NBUF + j && x !in bk[j]
  {
  }

  /** The links Pushed changes: both of `b`'s, the prev of the old first node, and the head's next. */
  lemma PushedAt(ns: seq<Buf>, b: nat, head: nat)
    requires b < |ns| && head < |ns|
    ensures forall x :: 0 <= x < |ns| ==>
      Pushed(ns, b, head)[x].prev == (if x == b then head else if x == ns[head].next then b else ns[x].prev) &&
      Pushed(ns, b, head)[x].next == (if x == head then b else if x == b then ns[head].next else ns[x].next)
  {
  }

  /** Unlinking a buffer of bucket `i` leaves the ring of every other bucket alone. */
  lemma UnlinkOther(ns: seq<Buf>, bk: seq<seq<nat>>, i: nat, k: nat, j: nat)
    requires Lists(ns, bk) && i < NBUCKETS && k < |bk[i]| && j < NBUCKETS && j != i
    ensures Ring(Unlinked(ns, bk[i][k]), NBUF + j, bk[j])
  {
    var b := bk[i][k];
    assert Ring(ns, NBUF + i, bk[i]) && Ring(ns, NBUF + j, bk[j]);
    var p, n := ns[b].prev, ns[b].next;
    assert p == Prev(bk[i], NBUF + i, k) && n == Next(bk[i], NBUF + i, k);
    OtherRing(bk, i, j, p);
    OtherRing(bk, i, j, n);
    UnlinkedAt(ns, b);
    RingFrame(ns, Unlinked(ns, b), NBUF + j, bk[j]);
  }

  /** Unlinking the buffer at position `k` of bucket `i` leaves every bucket a ring, that one without the buffer. */
  lemma UnlinkRings(ns: seq<Buf>, bk: seq<seq<nat>>, i: nat, k: nat)
    requires Lists(ns, bk) && i < NBUCKETS && k < |bk[i]|
    ensures Ring(Unlinked(ns, bk[i][k]), NBUF + i, Remove(bk[i], k))
    ensures forall j :: 0 <= j < NBUCKETS && j != i ==> Ring(Unlinked(ns, bk[i][k]), NBUF + j, bk[j])
  {
    var l := bk[i];
    assert Ring(ns, NBUF + i, l) && NoDup(l) && NBUF + i !in l;
    UnlinkRing(ns, NBUF + i, l, k);
    forall j | 0 <= j < NBUCKETS && j != i ensures Ring(Unlinked(ns, l[k]), NBUF + j, bk[j]) {
      UnlinkOther(ns, bk, i, k, j);
    }
  }

  /** Removing a position from a bucket keeps it to buffers. */
  lemma RemoveBounds(bk: seq<seq<nat>>, i: nat, k: nat)
    requires |bk| == NBUCKETS && i < NBUCKETS && k < |bk[i]|
    requires OnlyBuffers(bk)
    ensures OnlyBuffers(bk[i := Remove(bk[i], k)])
  {
    var bk' := bk[i := Remove(bk[i], k)];
    forall h, j | 0 <= h < |bk'| && 0 <= j < |bk'[h]| ensures bk'[h][j] < NBUF {
      if h == i {
        assert bk'[i][j] == (if j < k then bk[i][j] else bk[i][j + 1]);
      }
    }
  }

  /**
   * Unlinking the buffer at position `k` of bucket `i` takes it off that
   * bucket's list and out of every list, and keeps the others as they are.
   */
  lemma UnlinkKeeps(ns: seq<Buf>, bk: seq<seq<nat>>, i: nat, k: nat)
    requires Lists(ns, bk) && i < NBUCKETS && k < |bk[i]|
    ensures Lists(Unlinked(ns, bk[i][k]), bk[i := Remove(bk[i], k)])
    ensures Flat(bk[i := Remove(bk[i], k)]) == Flat(bk) - {bk[i][k]}
  {
    var ns', bk' := Unlinked(ns, bk[i][k]), bk[i := Remove(bk[i], k)];
    RemoveDistinct(bk, i, k);
    UnlinkRings(ns, bk, i, k);
    RemoveBounds(bk, i, k);
    forall j | 0 <= j < NBUCKETS ensures Ring(ns', NBUF + j, bk'[j]) {
    }
  }

  /** Pushing a buffer that is on no list onto bucket `h` leaves the ring of every other bucket alone. */
  lemma PushOther(ns: seq<Buf>, bk: seq<seq<nat>>, h: nat, b: nat, j: nat)
    requires Lists(ns, bk) && h < NBUCKETS && b < NBUF && b !in Flat(bk) && j < NBUCKETS && j != h
    ensures Ring(Pushed(ns, b, NBUF + h), NBUF + j, bk[j])
  {
    assert Ring(ns, NBUF + h, bk[h]) && Ring(ns, NBUF + j, bk[j]);
    var f := ns[NBUF + h].next;
    OtherRing(bk, h, j, f);
    OtherRing(bk, h, j, NBUF + h);
    assert b !in bk[j];
    PushedAt(ns, b, NBUF + h);
    RingFrame(ns, Pushed(ns, b, NBUF + h), NBUF + j, bk[j]);
  }

  /** Pushing a buffer that is on no list onto bucket `h` makes it that bucket's most recent one. */
  lemma PushKeeps(ns: seq<Buf>, bk: seq<seq<nat>>, h: nat, b: nat)
    requires Lists(ns, bk) && h < NBUCKETS && b < NBUF && b !in Flat(bk)
    ensures Lists(Pushed(ns, b, NBUF + h), bk[h := [b] + bk[h]])
    ensures Flat(bk[h := [b] + bk[h]]) == Flat(bk) + {b}
  {
    var ns', bk' := Pushed(ns, b, NBUF + h), bk[h := [b] + bk[h]];
    PushDistinct(bk, h, b);
    assert b !in bk[h];
    assert Ring(ns, NBUF + h, bk[h]) && NoDup(bk[h]) && NBUF + h !in bk[h];
    PushRing(ns, NBUF + h, bk[h], b);
    forall j | 0 <= j < NBUCKETS ensures Ring(ns', NBUF + j, bk'[j]) {
      if j != h {
        PushOther(ns, bk, h, b, j);
      }
    }
  }

  /** The buckets after moving the buffer at position `k` of bucket `i` to the front of bucket `h`. */
  function Move(bk: seq<seq<nat>>, i: nat, k: nat, h: nat): seq<seq<nat>>
    requires i < |bk| && k < |bk[i]| && h < |bk|
  {
    var bk1 := bk[i := Remove(bk[i], k)];
    bk1[h := [bk[i][k]] + bk1[h]]
  }

  /** Where a buffer of the moved buckets was before the move. */
  lemma MovedFrom(bk: seq<seq<nat>>, i: nat, k: nat, h: nat, g: nat, j: nat) returns (j2: nat)
    requires |bk| == NBUCKETS && Distinct(bk) && i < NBUCKETS && k < |bk[i]| && h < NBUCKETS
    requires g < NBUCKETS && j < |Move(bk, i, k, h)[g]| && !(g == h && j == 0)
    ensures j2 < |bk[g]| && Move(bk, i, k, h)[g][j] == bk[g][j2] && bk[g][j2] != bk[i][k]
  {
    var bk1 := bk[i := Remove(bk[i], k)];
    var j1 := if g == h then j - 1 else j;
    assert Move(bk, i, k, h)[g][j] == bk1[g][j1];
    j2 := if g == i && j1 >= k then j1 + 1 else j1;
  }

  /**
   * Giving the buffer at position `k` of bucket `i` the fields `x` whose
   * block hashes to `h`, and moving it to the front of bucket `h`, keeps
   * the cache invariant: the steal path of bget, and brelse (`i` == `h`).
   */
  lemma MoveKeeps(ns: seq<Buf>, bk: seq<seq<nat>>, i: nat, k: nat, h: nat, x: Buf)
    requires Inv(ns, bk) && i < NBUCKETS && k < |bk[i]| && h < NBUCKETS
    requires x.prev == ns[bk[i][k]].prev && x.next == ns[bk[i][k]].next
    requires Hash(x.blockno) == h && x.blockno < U32 && x.refcnt < U32
    ensures Inv(Pushed(Unlinked(ns[bk[i][k] := x], bk[i][k]), bk[i][k], NBUF + h), Move(bk, i, k, h))
  {
    var b := bk[i][k];
    var ns1 := ns[b := x];
    FieldsKeep(ns, bk, b, x);
    var ns2, bk1 := Unlinked(ns1, b), bk[i := Remove(bk[i], k)];
    UnlinkKeeps(ns1, bk, i, k);
    var ns3, bk2 := Pushed(ns2, b, NBUF + h), Move(bk, i, k, h);
    PushKeeps(ns2, bk1, h, b);
    assert b in Flat(bk);
    assert Flat(bk2) == Flat(bk);
    assert forall y :: 0 <= y < |ns| ==> ns3[y].blockno == ns1[y].blockno && ns3[y].refcnt == ns1[y].refcnt;
    assert Bounded(ns3);
    forall g, j | 0 <= g < NBUCKETS && 0 <= j < |bk2[g]| ensures Hash(ns3[bk2[g][j]].blockno) == g {
      if !(g == h && j == 0) {
        var j2 := MovedFrom(bk, i, k, h, g, j);
      }
    }
  }

  /** Only the reference count of buffer `b`, which sits in bucket `h`, changes, or its fields for a block of the same bucket. */
  lemma FieldsInv(ns: seq<Buf>, bk: seq<seq<nat>>, h: nat, k: nat, x: Buf)
    requires Inv(ns, bk) && h < NBUCKETS && k < |bk[h]|
    requires x.prev == ns[bk[h][k]].prev && x.next == ns[bk[h][k]].next
    requires Hash(x.blockno) == h && x.blockno < U32 && x.refcnt < U32
    ensures Inv(ns[bk[h][k] := x], bk)
  {
    var b, ns1 := bk[h][k], ns[bk[h][k] := x];
    FieldsKeep(ns, bk, b, x);
    assert Bounded(ns1);
    forall g, j | 0 <= g < NBUCKETS && 0 <= j < |bk[g]| ensures Hash(ns1[bk[g][j]].blockno) == g {
      if bk[g][j] == b {
        assert bk[g][j] == bk[h][k];
      }
    }
  }

  /** The bucket and position of a buffer. */
  lemma Locate(bk: seq<seq<nat>>, b: nat) returns (h: nat, k: nat)
    requires |bk| == NBUCKETS && Covers(bk) && b < NBUF
    ensures h < NBUCKETS && k < |bk[h]| && bk[h][k] == b
  {
    assert b in Flat(bk);
    h, k :| 0 <= h < |bk| && 0 <= k < |bk[h]| && bk[h][k] == b;
  }

  /** The position of `x` on `l`. */
  function IndexOf(l: seq<nat>, x: nat): (k: nat)
    requires x in l
    ensures k < |l| && l[k] == x
    ensures forall j :: 0 <= j < k ==> l[j] != x
  {
    if l[0] == x then 0 else 1 + IndexOf(l[1..], x)
  }

  /** Buffer `x` holds block `blockno` of device `dev`. */
  predicate Holds(x: Buf, dev: nat, blockno: nat)
  {
    x.dev == dev && x.blockno == blockno
  }

  /** The first loop of bget: the position of the least recent buffer on `l` holding the block, or -1. */
  function LastCached(ns: seq<Buf>, l: seq<nat>, dev: nat, blockno: nat): (r: int)
    requires forall k :: 0 <= k < |l| ==> l[k] < |ns|
    ensures -1 <= r < |l|
    ensures r >= 0 ==> Holds(ns[l[r]], dev, blockno)
    ensures forall j {:trigger ns[l[j]]} :: r < j < |l| ==> !Holds(ns[l[j]], dev, blockno)
  {
    if l == [] then -1
    else if Holds(ns[l[|l| - 1]], dev, blockno) then |l| - 1
    else LastCached(ns, l[..|l| - 1], dev, blockno)
  }

  /** The second loop of bget: the position of the least recent unreferenced buffer on `l`, or -1. */
  function LastUnused(ns: seq<Buf>, l: seq<nat>): (r: int)
    requires forall k :: 0 <= k < |l| ==> l[k] < |ns|
    ensures -1 <= r < |l|
    ensures r >= 0 ==> ns[l[r]].refcnt == 0
    ensures forall j {:trigger ns[l[j]]} :: r < j < |l| ==> ns[l[j]].refcnt != 0
  {
    if l == [] then -1
    else if ns[l[|l| - 1]].refcnt == 0 then |l| - 1
    else LastUnused(ns, l[..|l| - 1])
  }

  /** When nothing from position `k` on holds the block and the one before does (or `k` is 0), LastCached is `k` - 1. */
  lemma LastCachedIs(ns: seq<Buf>, l: seq<nat>, dev: nat, blockno: nat, k: nat)
    requires forall j :: 0 <= j < |l| ==> l[j] < |ns|
    requires k <= |l| && (k > 0 ==> Holds(ns[l[k - 1]], dev, blockno))
    requires forall j {:trigger ns[l[j]]} :: k <= j < |l| ==> !Holds(ns[l[j]], dev, blockno)
    ensures LastCached(ns, l, dev, blockno) == k - 1
  {
  }

  /** When no buffer from position `k` on is unreferenced and the one before is (or `k` is 0), LastUnused is `k` - 1. */
  lemma LastUnusedIs(ns: seq<Buf>, l: seq<nat>, k: nat)
    requires forall j :: 0 <= j < |l| ==> l[j] < |ns|
    requires k <= |l| && (k > 0 ==> ns[l[k - 1]].refcnt == 0)
    requires forall j {:trigger ns[l[j]]} :: k <= j < |l| ==> ns[l[j]].refcnt != 0
    ensures LastUnused(ns, l) == k - 1
  {
  }

  /** The steal loop of bget: the first bucket from `i` on, other than `h`, with an unreferenced buffer, or -1. */
  function FirstVictim(ns: seq<Buf>, bk: seq<seq<nat>>, h: nat, i: nat): (r: int)
    requires Lists(ns, bk)
    ensures -1 <= r < NBUCKETS
    ensures r >= 0 ==> i <= r && r != h && LastUnused(ns, bk[r]) >= 0
    ensures forall j :: i <= j < NBUCKETS && j != h && (r < 0 || j < r) ==> LastUnused(ns, bk[j]) < 0
    decreases NBUCKETS - i
  {
    if i >= NBUCKETS then -1
    else if i != h && LastUnused(ns, bk[i]) >= 0 then i
    else FirstVictim(ns, bk, h, i + 1)
  }

  /**
   * The outcome of bget's steal loop from the buffers `ns` and buckets `bk`:
   * `b` is the least recent unreferenced buffer of the first bucket `v` other
   * than `h` that has one; it takes the block, leaves `v` and becomes the
   * most recent buffer of `h`, giving `ns'` and `bk'`.
   */
  ghost predicate Stolen(ns: seq<Buf>, bk: seq<seq<nat>>, h: nat, dev: nat, blockno: nat, b: nat,
                         ns': seq<Buf>, bk': seq<seq<nat>>)
    requires Lists(ns, bk) && h < NBUCKETS
  {
    var v := FirstVictim(ns, bk, h, 0);
    v >= 0 && b == bk[v][LastUnused(ns, bk[v])] && bk' == Move(bk, v, LastUnused(ns, bk[v]), h) &&
    ns' == Pushed(Unlinked(ns[b := Claim(ns[b], dev, blockno)], b), b, NBUF + h)
  }

  /** bget panics exactly when the block is not cached and every buffer is referenced. */
  lemma NoVictim(ns: seq<Buf>, bk: seq<seq<nat>>, h: nat)
    requires Inv(ns, bk) && h < NBUCKETS
    ensures LastUnused(ns, bk[h]) < 0 && FirstVictim(ns, bk, h, 0) < 0 <==>
      forall x :: 0 <= x < NBUF ==> ns[x].refcnt != 0
  {
    if LastUnused(ns, bk[h]) < 0 && FirstVictim(ns, bk, h, 0) < 0 {
      forall x | 0 <= x < NBUF ensures ns[x].refcnt != 0 {
        var g, k := Locate(bk, x);
        assert LastUnused(ns, bk[g]) < 0;
      }
    } else if LastUnused(ns, bk[h]) >= 0 {
      assert bk[h][LastUnused(ns, bk[h])] < NBUF;
    } else {
      var v := FirstVictim(ns, bk, h, 0);
      assert bk[v][LastUnused(ns, bk[v])] < NBUF;
    }
  }

  /** The fields bget gives a recycled buffer. */
  function Claim(x: Buf, dev: nat, blockno: nat): Buf
  {
    x.(dev := dev, blockno := blockno, valid := false, refcnt := 1)
  }

  /** The bucket lists seen one at a time. */
  lemma RingOf(ns: seq<Buf>, bk: seq<seq<nat>>, h: nat)
    requires Lists(ns, bk) && h < NBUCKETS
    ensures Ring(ns, NBUF + h, bk[h]) && NBUF + h !in bk[h]
  {
  }

  /** A buffer sits in the bucket its block hashes to. */
  lemma HomeBucket(ns: seq<Buf>, bk: seq<seq<nat>>, b: nat)
    requires Inv(ns, bk) && b < NBUF
    ensures b in bk[Hash(ns[b].blockno)]
  {
    var g, k := Locate(bk, b);
  }

  /** The position of buffer `b` in the bucket of its block. */
  ghost function Home(ns: seq<Buf>, bk: seq<seq<nat>>, b: nat): (k: nat)
    requires Inv(ns, bk) && b < NBUF
    ensures k < |bk[Hash(ns[b].blockno)]| && bk[Hash(ns[b].blockno)][k] == b
  {
    HomeBucket(ns, bk, b);
    IndexOf(bk[Hash(ns[b].blockno)], b)
  }

  /** The links the unlink and the push follow stay inside the node array, and the push never meets `b` itself. */
  lemma MoveSteps(ns: seq<Buf>, bk: seq<seq<nat>>, i: nat, k: nat, h: nat, x: Buf)
    requires Lists(ns, bk) && i < NBUCKETS && k < |bk[i]| && h < NBUCKETS
    requires x.prev == ns[bk[i][k]].prev && x.next == ns[bk[i][k]].next
    ensures ns[bk[i][k]].prev < |ns| && ns[bk[i][k]].next < |ns|
    ensures Unlinked(ns[bk[i][k] := x], bk[i][k])[NBUF + h].next < |ns|
    ensures Unlinked(ns[bk[i][k] := x], bk[i][k])[NBUF + h].next != bk[i][k]
  {
    var b, l := bk[i][k], bk[i];
    assert ns[l[k]].prev == Prev(l, NBUF + i, k) && ns[l[k]].next == Next(l, NBUF + i, k);
    FieldsKeep(ns, bk, b, x);
    UnlinkKeeps(ns[b := x], bk, i, k);
    var bk1 := bk[i := Remove(l, k)];
    if bk1[h] != [] {
      InFlat(bk1, h, 0);
    }
  }

  /** Heads linked to themselves: every bucket is empty. */
  lemma EmptyLists(ns: seq<Buf>)
    requires |ns| == NBUF + NBUCKETS
    requires forall x :: NBUF <= x < NBUF + NBUCKETS ==> ns[x].prev == x && ns[x].next == x
    ensures Lists(ns, seq(NBUCKETS, _ => []))
  {
    FlatEmpty(seq(NBUCKETS, _ => []));
  }

  /** The state binit has reached once buffers 0 .. `b` - 1 are on bucket 0, most recent first. */
  ghost predicate Seeded(ns: seq<Buf>, bk: seq<seq<nat>>, b: nat)
  {
    Lists(ns, bk) && b <= NBUF && |bk[0]| == b && (forall k :: 0 <= k < b ==> bk[0][k] == b - 1 - k) &&
    (forall h :: 1 <= h < NBUCKETS ==> bk[h] == []) &&
    forall x :: 0 <= x < NBUF ==> ns[x].blockno == 0 && ns[x].refcnt == 0 && !ns[x].valid
  }

  /** One turn of binit's second loop: buffer `b` goes to the front of bucket 0. */
  lemma SeedStep(ns: seq<Buf>, bk: seq<seq<nat>>, b: nat)
    requires Seeded(ns, bk, b) && b < NBUF
    ensures ns[NBUF].next < |ns| && ns[NBUF].next != b
    ensures Seeded(Pushed(ns, b, NBUF), bk[0 := [b] + bk[0]], b + 1)
  {
    assert Ring(ns, NBUF, bk[0]);
    assert b !in Flat(bk);
    PushKeeps(ns, bk, 0, b);
    var ns' := Pushed(ns, b, NBUF);
    assert forall x :: 0 <= x < NBUF ==> ns'[x].blockno == ns[x].blockno && ns'[x].refcnt == ns[x].refcnt && ns'[x].valid == ns[x].valid;
  }

  /** The state binit leaves: all NBUF buffers on bucket 0, with block 0 and no references. */
  lemma InitInv(ns: seq<Buf>, bk: seq<seq<nat>>)
    requires Seeded(ns, bk, NBUF)
    ensures Inv(ns, bk)
  {
    forall x | 0 <= x < NBUF ensures x in Flat(bk) {
      InFlat(bk, 0, NBUF - 1 - x);
    }
    assert Bounded(ns);
    assert Hashed(ns, bk) by {
      assert Hash(0) == 0;
    }
  }


  /**
   * The cache: `node` holds `bcache.buf` followed by `bcache.hashbucket`,
   * and `bucket[h]` lists the buffers of hash bucket `h`, most recent first.
   */
  class BCache {
    const node: array<Buf>
    ghost var bucket: seq<seq<nat>>

    ghost predicate Valid()
      reads this, node
    {
      Inv(node[..], bucket)
    }

    /**
     * binit: link every bucket head to itself, then push every buffer in
     * turn onto bucket 0, so that buffer 0 ends up least recently used.
     */
    constructor Binit()
      ensures Valid()
      ensures |bucket[0]| == NBUF && forall k :: 0 <= k < NBUF ==> bucket[0][k] == NBUF - 1 - k
      ensures forall h :: 1 <= h < NBUCKETS ==> bucket[h] == []
      ensures forall x :: 0 <= x < NBUF ==> node[x].blockno == 0 && node[x].refcnt == 0 && !node[x].valid
    {
      node := new Buf[NBUF + NBUCKETS](_ => Buf(0, 0, false, 0, 0, 0));
      bucket := seq(NBUCKETS, _ => []);
      new;
      var i := 0;
      while i < NBUCKETS
        modifies node
        invariant i <= NBUCKETS
        invariant forall x :: 0 <= x < NBUF ==> node[x] == Buf(0, 0, false, 0, 0, 0)
        invariant forall x :: NBUF <= x < NBUF + i ==> node[x].prev == x && node[x].next == x
      {
        node[NBUF + i] := node[NBUF + i].(prev := NBUF + i, next := NBUF + i);
        i := i + 1;
      }
      EmptyLists(node[..]);
      var b := 0;
      while b < NBUF
        modifies this, node
        invariant Seeded(node[..], bucket, b)
      {
        SeedStep(node[..], bucket, b);
        PushFront(b, 0);
        bucket := bucket[0 := [b] + bucket[0]];
        b := b + 1;
      }
      InitInv(node[..], bucket);
    }

    /** Lines 122-123 and 181-182: take node `b` out of its list. */
    method Unlink(b: nat)
      requires b < node.Length && node[b].prev < node.Length && node[b].next < node.Length
      modifies node
      ensures node[..] == Unlinked(old(node[..]), b)
    {
      var p, n := node[b].prev, node[b].next;
      node[n] := node[n].(prev := p);
      node[p] := node[p].(next := n);
    }

    /** Lines 127-130, 184-187 and 58-62: link buffer `b` in right after the head of bucket `h`. */
    method PushFront(b: nat, h: nat)
      requires node.Length == NBUF + NBUCKETS && b < NBUF && h < NBUCKETS
      requires node[NBUF + h].next < node.Length && node[NBUF + h].next != b
      modifies node
      ensures node[..] == Pushed(old(node[..]), b, NBUF + h)
    {
      var head := NBUF + h;
      var f := node[head].next;
      node[b] := node[b].(next := f);
      node[b] := node[b].(prev := head);
      node[f] := node[f].(prev := b);
      node[head] := node[head].(next := b);
    }

    /** The first loop of bget (lines 78-85): walk the list `l` of bucket `h` back from its least recent buffer; the head when no buffer holds the block. */
    method FindCached(h: nat, dev: nat, blockno: nat, ghost l: seq<nat>) returns (b: nat)
      requires h < NBUCKETS && Ring(node[..], NBUF + h, l) && NBUF + h !in l
      ensures var r := LastCached(node[..], l, dev, blockno);
        b == if r < 0 then NBUF + h else l[r]
    {
      ghost var ns := node[..];
      ghost var k: nat := |l|;
      b := node[NBUF + h].prev;
      while b != NBUF + h && !Holds(node[b], dev, blockno)
        invariant k <= |l| && b == Prev(l, NBUF + h, k) && b < node.Length
        invariant forall j {:trigger ns[l[j]]} :: k <= j < |l| ==> !Holds(ns[l[j]], dev, blockno)
        decreases k
      {
        assert b == l[k - 1] && node[b] == ns[l[k - 1]];
        assert !Holds(ns[l[k - 1]], dev, blockno);
        k := k - 1;
        b := node[b].prev;
      }
      assert k > 0 ==> b == l[k - 1];
      LastCachedIs(ns, l, dev, blockno, k);
      assert node[..] == ns;
    }

    /** The recycling loops of bget (lines 89-101 and 112): the least recent unreferenced buffer of bucket `h`, or the head. */
    method FindUnused(h: nat, ghost l: seq<nat>) returns (b: nat)
      requires h < NBUCKETS && Ring(node[..], NBUF + h, l) && NBUF + h !in l
      ensures var r := LastUnused(node[..], l);
        b == if r < 0 then NBUF + h else l[r]
    {
      ghost var ns := node[..];
      ghost var k: nat := |l|;
      b := node[NBUF + h].prev;
      while b != NBUF + h && node[b].refcnt != 0
        invariant k <= |l| && b == Prev(l, NBUF + h, k) && b < node.Length
        invariant forall j {:trigger ns[l[j]]} :: k <= j < |l| ==> ns[l[j]].refcnt != 0
        decreases k
      {
        assert b == l[k - 1] && node[b] == ns[l[k - 1]];
        assert ns[l[k - 1]].refcnt != 0;
        k := k - 1;
        b := node[b].prev;
      }
      assert k > 0 ==> b == l[k - 1];
      LastUnusedIs(ns, l, k);
      assert node[..] == ns;
    }

    /** Give buffer `b`, at position `k` of bucket `h`, the fields `x` without moving it. */
    method Update(b: nat, x: Buf, ghost h: nat, ghost k: nat)
      requires Valid() && h < NBUCKETS && k < |bucket[h]| && bucket[h][k] == b
      requires x.prev == node[b].prev && x.next == node[b].next
      requires Hash(x.blockno) == h && x.blockno < U32 && x.refcnt < U32
      modifies node
      ensures Valid() && node[..] == old(node[..])[b := x] && node[b] == x
    {
      FieldsInv(node[..], bucket, h, k, x);
      node[b] := x;
    }

    /**
     * Give buffer `b`, at position `k` of bucket `i`, the fields `x` and
     * move it to the front of bucket `h` (lines 106-112 and 119-130 of the
     * steal path of bget; lines 178-188 of brelse, where `i` == `h`).
     */
    method Relocate(b: nat, x: Buf, ghost i: nat, ghost k: nat, h: nat)
      requires Valid() && i < NBUCKETS && k < |bucket[i]| && bucket[i][k] == b && h < NBUCKETS
      requires x.prev == node[b].prev && x.next == node[b].next
      requires Hash(x.blockno) == h && x.blockno < U32 && x.refcnt < U32
      modifies this, node
      ensures Valid()
      ensures node[..] == Pushed(Unlinked(old(node[..])[b := x], b), b, NBUF + h)
      ensures bucket == Move(old(bucket), i, k, h)
      ensures Holds(node[b], x.dev, x.blockno) && b in bucket[h]
    {
      MoveSteps(node[..], bucket, i, k, h, x);
      MoveKeeps(node[..], bucket, i, k, h, x);
      bucket := Move(bucket, i, k, h);
      node[b] := x;
      Unlink(b);
      PushFront(b, h);
    }

    /**
     * The steal loop of bget (lines 108-139): the least recent unreferenced
     * buffer of the first bucket other than `h` that has one takes the
     * block and moves to the front of bucket `h`. Bucket `h` itself has no
     * unreferenced buffer, and some bucket has one, or bget panics.
     */
    method Steal(h: nat, dev: nat, blockno: nat) returns (b: nat)
      requires Valid() && blockno < U32 && h == Hash(blockno) && LastUnused(node[..], bucket[h]) < 0
      requires exists x :: 0 <= x < NBUF && node[x].refcnt == 0
      modifies this, node
      ensures Valid()
      ensures Stolen(old(node[..]), old(bucket), h, dev, blockno, b, node[..], bucket)
      ensures b < NBUF && b in bucket[h] && Holds(node[b], dev, blockno)
    {
      ghost var ns, bk := node[..], bucket;
      var i := 0;
      b := NBUF;
      while i < NBUCKETS
        invariant i <= NBUCKETS && FirstVictim(ns, bk, h, 0) == FirstVictim(ns, bk, h, i)
        invariant node[..] == ns && bucket == bk
      {
        if i != h {
          RingOf(ns, bk, i);
          b := FindUnused(i, bk[i]);
          if b != NBUF + i {
            break;
          }
        }
        i := i + 1;
      }
      if i == NBUCKETS {
        NoVictim(ns, bk, h);
        assert false;
      }
      var x := Claim(node[b], dev, blockno);
      Relocate(b, x, i, LastUnused(ns, bk[i]), h);
    }

    /**
     * bget: a buffer of bucket `h` already holding the block gains a
     * reference; otherwise the least recent unreferenced buffer of bucket
     * `h` is recycled; otherwise one is stolen from another bucket. With no
     * unreferenced buffer anywhere bget panics, which the second
     * precondition rules out.
     */
    method Bget(dev: nat, blockno: nat) returns (b: nat)
      requires Valid() && blockno < U32
      requires LastCached(node[..], bucket[Hash(blockno)], dev, blockno) >= 0 ||
        exists x :: 0 <= x < NBUF && node[x].refcnt == 0
      modifies this, node
      ensures Valid() && b < NBUF && b in bucket[Hash(blockno)] && Holds(node[b], dev, blockno)
      ensures var ns, bk, h := old(node[..]), old(bucket), Hash(blockno);
        var c, u, v := LastCached(ns, bk[h], dev, blockno), LastUnused(ns, bk[h]), FirstVictim(ns, bk, h, 0);
        if c >= 0 then
          b == bk[h][c] && node[..] == ns[b := old(node[b]).(refcnt := Inc32(old(node[b].refcnt)))] && bucket == bk
        else if u >= 0 then
          b == bk[h][u] && node[..] == ns[b := Claim(old(node[b]), dev, blockno)] && bucket == bk
        else
          Stolen(ns, bk, h, dev, blockno, b, node[..], bucket)
    {
      ghost var ns, bk := node[..], bucket;
      var h := Hash(blockno);
      RingOf(ns, bk, h);
      b := FindCached(h, dev, blockno, bk[h]);
      if b != NBUF + h {
        Update(b, node[b].(refcnt := Inc32(node[b].refcnt)), h, LastCached(ns, bk[h], dev, blockno));
        return;
      }
      b := FindUnused(h, bk[h]);
      if b != NBUF + h {
        Update(b, Claim(node[b], dev, blockno), h, LastUnused(ns, bk[h]));
        return;
      }
      b := Steal(h, dev, blockno);
    }

    /** bread: bget, then mark the buffer valid (the disk read itself is not modelled). */
    method Bread(dev: nat, blockno: nat) returns (b: nat)
      requires Valid() && blockno < U32
      requires LastCached(node[..], bucket[Hash(blockno)], dev, blockno) >= 0 ||
        exists x :: 0 <= x < NBUF && node[x].refcnt == 0
      modifies this, node
      ensures Valid() && b < NBUF && b in bucket[Hash(blockno)] && Holds(node[b], dev, blockno) && node[b].valid
    {
      b := Bget(dev, blockno);
      if !node[b].valid {
        Update(b, node[b].(valid := true), Hash(blockno), IndexOf(bucket[Hash(blockno)], b));
      }
    }

    /**
     * brelse: drop one reference; the last one moves the buffer to the
     * front of its bucket, as its most recently used buffer. The caller
     * holds the buffer, so it has a reference.
     */
    method Brelse(b: nat)
      requires Valid() && b < NBUF && node[b].refcnt >= 1
      modifies this, node
      ensures Valid()
      ensures var ns, bk, h := old(node[..]), old(bucket), Hash(old(node[b].blockno));
        var x := old(node[b]).(refcnt := old(node[b].refcnt) - 1);
        if x.refcnt > 0 then node[..] == ns[b := x] && bucket == bk
        else node[..] == Pushed(Unlinked(ns[b := x], b), b, NBUF + h) && bucket == Move(bk, h, Home(ns, bk, b), h)
    {
      ghost var ns := node[..];
      var h := Hash(node[b].blockno);
      ghost var k := Home(ns, bucket, b);
      var x := node[b].(refcnt := node[b].refcnt - 1);
      assert x == ns[b].(refcnt := ns[b].refcnt - 1);
      if x.refcnt == 0 {
        Relocate(b, x, h, k, h);
      } else {
        Update(b, x, h, k);
      }
    }

    /** bpin: one more reference, wrapping as a `uint`. */
    method Bpin(b: nat)
      requires Valid() && b < NBUF
      modifies node
      ensures Valid()
      ensures node[..] == old(node[..])[b := old(node[b]).(refcnt := Inc32(old(node[b].refcnt)))]
    {
      ghost var ns := node[..];
      var x := node[b].(refcnt := Inc32(node[b].refcnt));
      assert x == ns[b].(refcnt := Inc32(ns[b].refcnt));
      Update(b, x, Hash(node[b].blockno), Home(ns, bucket, b));
    }

    /** bunpin: one reference fewer, wrapping as a `uint`. */
    method Bunpin(b: nat)
      requires Valid() && b < NBUF
      modifies node
      ensures Valid()
      ensures node[..] == old(node[..])[b := old(node[b]).(refcnt := Dec32(old(node[b].refcnt)))]
    {
      ghost var ns := node[..];
      var x := node[b].(refcnt := Dec32(node[b].refcnt));
      assert x == ns[b].(refcnt := Dec32(ns[b].refcnt));
      Update(b, x, Hash(node[b].blockno), Home(ns, bucket, b));
    }
  }
}
