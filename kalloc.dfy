/**
 * The per-CPU physical page allocator of kernel/kalloc.c.
 *
 * Each CPU owns a LIFO free list of 4096-byte frames (`kmems[c].freelist`).
 * `kfree` pushes onto the caller's list; `kalloc` pops from the caller's list
 * and, when it is empty, steals from the other CPUs' lists in round-robin
 * order. Locks are left out: every operation runs to completion, and the
 * caller's CPU id is a parameter instead of `cpuid()`.
 */
module KAlloc {
  import opened Common

  /** Number of CPUs (NCPU of param.h). */
  const NCPU: nat := 8

  /** The frames `p, p + PGSIZE, ...` whose whole page lies below `stop`, in freeing order. */
  function Pages(p: nat, stop: nat): seq<nat>
    decreases stop - p
  {
    if p + PGSIZE <= stop then [p] + Pages(p + PGSIZE, stop) else []
  }

  /** The sequence reversed: the order a stack hands back what was pushed. */
  function Reverse(s: seq<nat>): seq<nat>
  {
    if s == [] then [] else [s[|s| - 1]] + Reverse(s[..|s| - 1])
  }

  /**
   * The outcome of kalloc's scan: attempt `cnt` (0 <= cnt <= NCPU) looks at
   * the list of CPU `(cur + cnt) % NCPU`. The result is the number of the
   * first attempt that finds a non-empty list, or None when all NCPU + 1
   * attempts found empty lists.
   */
  function Scan(ls: seq<seq<nat>>, cur: nat, cnt: nat): Option<nat>
    requires |ls| == NCPU && cur < NCPU && cnt <= NCPU + 1
    decreases NCPU + 1 - cnt
  {
    if cnt == NCPU + 1 then None
    else if ls[(cur + cnt) % NCPU] != [] then Some(cnt)
    else Scan(ls, cur, cnt + 1)
  }

  /** The CPU whose list kalloc takes from after `k` failed attempts. */
  function Victim(cur: nat, k: nat): nat
  {
    (cur + k) % NCPU
  }

  lemma VictimNext(cur: nat, k: nat)
    requires cur < NCPU
    ensures Victim(cur, 0) == cur
    ensures Victim(cur, k + 1) == (Victim(cur, k) + 1) % NCPU
  {
    var q := (cur + k) / NCPU;
    assert cur + k == q * NCPU + Victim(cur, k);
    if Victim(cur, k) + 1 == NCPU {
      assert cur + k + 1 == (q + 1) * NCPU;
    } else {
      assert cur + k + 1 == q * NCPU + (Victim(cur, k) + 1);
    }
  }

  lemma {:induction false} ScanFrom(ls: seq<seq<nat>>, cur: nat, cnt: nat)
    requires |ls| == NCPU && cur < NCPU && cnt <= NCPU + 1
    requires forall j :: 0 <= j < cnt ==> ls[Victim(cur, j)] == []
    ensures Scan(ls, cur, cnt).Some? ==>
      var k := Scan(ls, cur, cnt).value;
      cnt <= k <= NCPU && ls[Victim(cur, k)] != [] &&
      forall j :: 0 <= j < k ==> ls[Victim(cur, j)] == []
    ensures Scan(ls, cur, cnt).None? ==> forall j :: 0 <= j <= NCPU ==> ls[Victim(cur, j)] == []
    decreases NCPU + 1 - cnt
  {
    if cnt < NCPU + 1 && ls[Victim(cur, cnt)] == [] {
      ScanFrom(ls, cur, cnt + 1);
    }
  }

  /**
   * kalloc takes from the first non-empty list in the order cur, cur+1, ...
   * (mod NCPU); the home list, checked again on the last attempt, is never
   * the reason a frame is found on that attempt.
   */
  lemma ScanFirst(ls: seq<seq<nat>>, cur: nat)
    requires |ls| == NCPU && cur < NCPU
    ensures Scan(ls, cur, 0).Some? ==>
      var k := Scan(ls, cur, 0).value;
      k < NCPU && ls[Victim(cur, k)] != [] &&
      forall j :: 0 <= j < k ==> ls[Victim(cur, j)] == []
  {
    ScanFrom(ls, cur, 0);
    assert Victim(cur, NCPU) == Victim(cur, 0);
  }

  /** Within NCPU attempts kalloc visits every CPU's list. */
  lemma VictimHits(cur: nat, d: nat) returns (j: nat)
    requires cur < NCPU && d < NCPU
    ensures j < NCPU && Victim(cur, j) == d
  {
    if cur <= d {
      j := d - cur;
    } else {
      j := d + NCPU - cur;
      assert cur + j == NCPU + d;
    }
  }

  /** kalloc fails exactly when every list is empty. */
  lemma ScanNone(ls: seq<seq<nat>>, cur: nat)
    requires |ls| == NCPU && cur < NCPU
    ensures Scan(ls, cur, 0).None? <==> forall d :: 0 <= d < NCPU ==> ls[d] == []
  {
    ScanFrom(ls, cur, 0);
    if Scan(ls, cur, 0).None? {
      forall d | 0 <= d < NCPU ensures ls[d] == [] {
        var j := VictimHits(cur, d);
      }
    } else {
      var k := Scan(ls, cur, 0).value;
      assert ls[Victim(cur, k)] != [];
    }
  }

  /**
   * The outcome of kalloc on lists `ls` from CPU `cur`: the frame it returns
   * (0 when none) and the lists afterwards.
   */
  function Take(ls: seq<seq<nat>>, cur: nat): (r: (nat, seq<seq<nat>>))
    requires |ls| == NCPU && cur < NCPU
    ensures |r.1| == NCPU
  {
    ScanFirst(ls, cur);
    match Scan(ls, cur, 0)
    case None => (0, ls)
    case Some(k) =>
      var c := Victim(cur, k);
      (ls[c][0], ls[c := ls[c][1..]])
  }

  /** One step of freerange: the next page is the head of what is left. */
  lemma PagesStep(done: seq<nat>, p: nat, stop: nat, all: seq<nat>)
    requires done + Pages(p, stop) == all && p + PGSIZE <= stop
    ensures (done + [p]) + Pages(p + PGSIZE, stop) == all
    ensures p in all
  {
    assert Pages(p, stop) == [p] + Pages(p + PGSIZE, stop);
    assert all[|done|] == p;
  }

  /** Pushing pages one at a time stacks them in reverse. */
  lemma ReverseStep(done: seq<nat>, p: nat, l0: seq<nat>)
    ensures [p] + (Reverse(done) + l0) == Reverse(done + [p]) + l0
  {
    assert (done + [p])[..|done|] == done;
  }

  /** freerange hands kfree exactly the whole pages between its bounds. */
  lemma {:induction false} PagesExact(p: nat, stop: nat, x: nat)
    requires p % PGSIZE == 0
    ensures x in Pages(p, stop) <==> p <= x && x % PGSIZE == 0 && x + PGSIZE <= stop
    decreases stop - p
  {
    if p + PGSIZE <= stop {
      PagesExact(p + PGSIZE, stop, x);
      if p < x && x % PGSIZE == 0 {
        assert p + PGSIZE <= x;
      }
    }
  }

  /** The allocator state: `lists[c]` is `kmems[c].freelist`, head first. */
  class KMem {
    /** First address after the kernel image (`end`, set by the linker). */
    const end: nat
    /** Top of usable physical memory (PHYSTOP). */
    const phystop: nat
    const lists: array<seq<nat>>

    /** A frame kfree accepts: page-aligned and in [end, PHYSTOP). */
    predicate InRange(pa: nat)
    {
      pa % PGSIZE == 0 && end <= pa < phystop
    }

    /** Every frame on the lists is one kfree accepts. */
    ghost predicate AllInRange(ls: seq<seq<nat>>)
    {
      forall c, i :: 0 <= c < |ls| && 0 <= i < |ls[c]| ==> InRange(ls[c][i])
    }

    /** What popping the head of list `c` keeps and removes. */
    lemma PopFacts(ls: seq<seq<nat>>, c: nat)
      requires AllInRange(ls) && c < |ls| && ls[c] != []
      ensures InRange(ls[c][0]) && ls[c][0] in Flat(ls)
      ensures AllInRange(ls[c := ls[c][1..]])
      ensures Distinct(ls) ==> Distinct(ls[c := ls[c][1..]]) && Flat(ls[c := ls[c][1..]]) == Flat(ls) - {ls[c][0]}
    {
      var ls' := ls[c := ls[c][1..]];
      InFlat(ls, c, 0);
      forall c1, i | 0 <= c1 < |ls'| && 0 <= i < |ls'[c1]| ensures InRange(ls'[c1][i]) {
        if c1 == c {
          assert ls'[c1][i] == ls[c1][i + 1];
        } else {
          assert ls'[c1][i] == ls[c1][i];
        }
      }
      if Distinct(ls) {
        PopDistinct(ls, c);
      }
    }

    ghost predicate Valid()
      reads this, lists
    {
      lists.Length == NCPU && 0 < end && AllInRange(lists[..])
    }

    /** The set of free frames. */
    ghost function Free(): set<nat>
      reads this, lists
    {
      Flat(lists[..])
    }

    /** kinit: empty lists, then freerange(end, PHYSTOP) on the booting CPU. */
    constructor Init(end: nat, phystop: nat, cpu: nat)
      requires 0 < end && cpu < NCPU
      ensures Valid() && fresh(lists)
      ensures this.end == end && this.phystop == phystop
      ensures lists[cpu] == Reverse(Pages(PgRoundUp(end), phystop))
      ensures forall c :: 0 <= c < NCPU && c != cpu ==> lists[c] == []
    {
      this.end := end;
      this.phystop := phystop;
      lists := new seq<nat>[NCPU](_ => []);
      new;
      forall p | p in Pages(PgRoundUp(end), phystop) ensures end <= p < phystop {
        PagesExact(PgRoundUp(end), phystop, p);
      }
      Freerange(end, phystop, cpu);
    }

    /** kfree: push `pa` onto the calling CPU's list (the junk fill is not modelled). */
    method Kfree(pa: nat, cpu: nat)
      requires Valid() && cpu < NCPU
      requires InRange(pa)
      modifies lists
      ensures Valid()
      ensures lists[..] == old(lists[..])[cpu := [pa] + old(lists[cpu])]
    {
      ghost var ls := lists[..];
      lists[cpu] := [pa] + lists[cpu];
      assert lists[..] == ls[cpu := [pa] + ls[cpu]];
    }

    /** freerange: kfree every whole page from PGROUNDUP(paStart) up to paEnd. */
    method Freerange(paStart: nat, paEnd: nat, cpu: nat)
      requires Valid() && cpu < NCPU
      requires forall p :: p in Pages(PgRoundUp(paStart), paEnd) ==> end <= p < phystop
      modifies lists
      ensures Valid()
      ensures lists[..] == old(lists[..])[cpu := Reverse(Pages(PgRoundUp(paStart), paEnd)) + old(lists[cpu])]
    {
      var p := PgRoundUp(paStart);
      ghost var ls0, l0, all := lists[..], lists[cpu], Pages(PgRoundUp(paStart), paEnd);
      ghost var done: seq<nat> := [];
      assert Reverse(done) + l0 == l0;
      assert lists[..] == ls0[cpu := l0];
      while p + PGSIZE <= paEnd
        invariant Valid() && p % PGSIZE == 0
        invariant done + Pages(p, paEnd) == all
        invariant lists[..] == ls0[cpu := Reverse(done) + l0]
        decreases paEnd - p
      {
        PagesStep(done, p, paEnd, all);
        AlignedUp(p);
        Kfree(p, cpu);
        ReverseStep(done, p, l0);
        done := done + [p];
        p := p + PGSIZE;
      }
      assert done + Pages(p, paEnd) == done;
    }

    /**
     * kalloc: pop the head of the first non-empty list in the order
     * cpu, cpu+1, ... (mod NCPU), making NCPU + 1 attempts; 0 when all are empty.
     */
    method Kalloc(cpu: nat) returns (r: nat)
      requires Valid() && cpu < NCPU
      modifies lists
      ensures Valid()
      ensures (r, lists[..]) == Take(old(lists[..]), cpu)
    {
      ghost var ls := lists[..];
      ScanFirst(ls, cpu);
      VictimNext(cpu, 0);
      var cnt := 0;
      var cpuId := cpu;
      r := 0;
      while cnt <= NCPU
        invariant cnt <= NCPU + 1 && cpuId == Victim(cpu, cnt)
        invariant lists[..] == ls
        invariant Scan(ls, cpu, 0) == Scan(ls, cpu, cnt)
      {
        if lists[cpuId] != [] {
          r := lists[cpuId][0];
          lists[cpuId] := lists[cpuId][1..];
          assert lists[..] == ls[cpuId := ls[cpuId][1..]];
          PopFacts(ls, cpuId);
          return;
        }
        VictimNext(cpu, cnt);
        cnt := cnt + 1;
        cpuId := (cpuId + 1) % NCPU;
      }
    }

    /**
     * What kalloc promises: a non-zero result is a free frame kfree would
     * accept, 0 means every list was empty, and on disjoint lists the frame
     * leaves the free set and nothing else does.
     */
    lemma TakeFacts(ls: seq<seq<nat>>, cpu: nat)
      requires |ls| == NCPU && AllInRange(ls) && 0 < end && cpu < NCPU
      ensures var (r, ls') := Take(ls, cpu);
        AllInRange(ls') && |ls'| == NCPU &&
        (r != 0 ==> InRange(r) && r in Flat(ls)) &&
        (r == 0 <==> Flat(ls) == {}) &&
        (r == 0 ==> ls' == ls) &&
        (Distinct(ls) ==> Distinct(ls') && Flat(ls') == Flat(ls) - {r})
    {
      ScanFirst(ls, cpu);
      ScanNone(ls, cpu);
      FlatEmpty(ls);
      if Scan(ls, cpu, 0).Some? {
        PopFacts(ls, Victim(cpu, Scan(ls, cpu, 0).value));
      }
    }
  }
}
