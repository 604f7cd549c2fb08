/**
 * The prime sieve of user/primes.c: each process of the pipeline prints the
 * first number it receives and passes on, compacted in place, the numbers
 * that this first number does not divide.
 */
module Primes {

  /** `MAXSIZE`, the capacity of the array handed down the pipeline. */
  const MAXSIZE: nat := 100
  /** The number of values the first process starts with: 2 .. 35. */
  const START: nat := 34

  /**
   * C's test `x % d != 0`. C truncates and Dafny's `%` is Euclidean, but the
   * two remainders are zero for the same operands, so the test agrees.
   */
  predicate Divides(d: int, x: int)
    requires d != 0
  {
    x % d == 0
  }

  /** The elements of `s` that `d` does not divide, in their original order. */
  function NotMultiples(s: seq<int>, d: int): (r: seq<int>)
    requires d != 0
    ensures |r| <= |s|
  {
    if s == [] then []
    else if !Divides(d, s[|s| - 1]) then NotMultiples(s[..|s| - 1], d) + [s[|s| - 1]]
    else NotMultiples(s[..|s| - 1], d)
  }

  /** What filter keeps: every kept value comes from `s` and is not a multiple of `d`, and every such value is kept. */
  lemma {:induction false} NotMultiplesMembers(s: seq<int>, d: int)
    requires d != 0
    ensures forall x :: x in NotMultiples(s, d) <==> x in s && !Divides(d, x)
  {
    if s != [] {
      NotMultiplesMembers(s[..|s| - 1], d);
      assert s == s[..|s| - 1] + [s[|s| - 1]];
    }
  }

  predicate Increasing(s: seq<int>)
  {
    forall i, j :: 0 <= i < j < |s| ==> s[i] < s[j]
  }

  /** A strictly increasing input stays strictly increasing. */
  lemma {:induction false} NotMultiplesSorted(s: seq<int>, d: int)
    requires d != 0
    requires Increasing(s)
    ensures Increasing(NotMultiples(s, d))
  {
    if s != [] {
      var s' := s[..|s| - 1];
      NotMultiplesSorted(s', d);
      NotMultiplesMembers(s', d);
      var r' := NotMultiples(s', d);
      if !Divides(d, s[|s| - 1]) {
        forall i | 0 <= i < |r'| ensures r'[i] < s[|s| - 1] {
          assert r'[i] in r';
          var k :| 0 <= k < |s'| && s'[k] == r'[i];
          assert s[k] == s'[k];
        }
        var r := r' + [s[|s| - 1]];
        forall i, j | 0 <= i < j < |r| ensures r[i] < r[j] {
          assert r[i] == r'[i];
          if j < |r'| {
            assert r[j] == r'[j];
            assert r'[i] < r'[j];
          } else {
            assert r[j] == s[|s| - 1];
            assert r'[i] < s[|s| - 1];
          }
        }
        assert NotMultiples(s, d) == r;
      }
    }
  }

  predicate Prime(n: int)
  {
    n >= 2 && forall d :: 2 <= d < n ==> n % d != 0
  }

  /** `x` has no divisor in [2, m). */
  ghost predicate NoDivisorBelow(x: int, m: int)
  {
    forall d :: 2 <= d < m ==> x % d != 0
  }

  /**
   * What the pipeline prints for the values `s`: each stage prints its first
   * value and hands on the ones that value does not divide.
   */
  function Sieve(s: seq<int>): (r: seq<int>)
    requires forall x :: x in s ==> x >= 2
    ensures |r| <= |s|
    decreases |s|
  {
    if s == [] then []
    else
      assert s[0] in s;
      assert forall x :: x in s[1..] ==> x in s;
      NotMultiplesMembers(s[1..], s[0]);
      [s[0]] + Sieve(NotMultiples(s[1..], s[0]))
  }

  /** The integers lo, lo + 1, ..., hi - 1. */
  function Range(lo: int, hi: int): (r: seq<int>)
    ensures |r| == if lo < hi then hi - lo else 0
    ensures forall x :: x in r <==> lo <= x < hi
    decreases hi - lo
  {
    if lo >= hi then [] else [lo] + Range(lo + 1, hi)
  }

  lemma {:induction false} RangeFacts(lo: int, hi: int)
    ensures Increasing(Range(lo, hi))
    decreases hi - lo
  {
    if lo < hi {
      RangeFacts(lo + 1, hi);
      var r := Range(lo, hi);
      forall i, j | 0 <= i < j < |r| ensures r[i] < r[j] {
        if i > 0 {
          assert r[i] == Range(lo + 1, hi)[i - 1] && r[j] == Range(lo + 1, hi)[j - 1];
        } else {
          assert r[j] in Range(lo + 1, hi);
        }
      }
    }
  }

  /** The state a stage receives: increasing, and exactly the numbers in [m, n) with no divisor below m. */
  ghost predicate Sieved(s: seq<int>, m: int, n: int)
  {
    m >= 2 && Increasing(s) && forall x :: x in s <==> m <= x < n && NoDivisorBelow(x, m)
  }

  /** Divisibility is transitive. */
  lemma DivTrans(x: int, d: int, q: int)
    requires d > 0 && q > 0 && x % d == 0 && d % q == 0
    ensures x % q == 0
  {
    var k, l := x / d, d / q;
    assert x == d * k;
    assert d == q * l;
    assert x == q * (l * k) by {
      assert d * k == (q * l) * k;
    }
    MulMod(q, l * k);
  }

  /** Positive multiples of q are at least q. */
  lemma {:induction false} MulAtLeast(q: int, k: int)
    requires q > 0 && k >= 1
    ensures q * k >= q
    decreases k
  {
    if k > 1 {
      MulAtLeast(q, k - 1);
      assert q * k == q * (k - 1) + q;
    }
  }

  /** A multiple of q leaves remainder 0. */
  lemma MulMod(q: int, t: int)
    requires q > 0
    ensures (q * t) % q == 0
  {
    var r := (q * t) % q;
    var u := (q * t) / q;
    assert q * (t - u) == r by {
      assert q * t - q * u == q * (t - u);
    }
    if t - u >= 1 {
      MulAtLeast(q, t - u);
      assert false;
    } else if t - u <= -1 {
      MulAtLeast(q, u - t);
      assert false;
    }
  }

  /** A divisor of `d` below which `d` has no divisor at least 2 has none itself. */
  lemma LeastIsPrime(d: int, q: int)
    requires 2 <= q <= d && d % q == 0
    requires forall e :: 2 <= e < q ==> d % e != 0
    ensures forall e :: 2 <= e < q ==> q % e != 0
  {
    forall e | 2 <= e < q ensures q % e != 0 {
      if q % e == 0 {
        DivTrans(d, q, e);
      }
    }
  }

  /** The least divisor of `d` from `lo` upwards that is at least 2. */
  lemma {:induction false} LeastDivisor(d: int, lo: int) returns (q: int)
    requires 2 <= lo <= d
    requires forall e :: 2 <= e < lo ==> d % e != 0
    ensures 2 <= q <= d && d % q == 0
    ensures forall e :: 2 <= e < q ==> q % e != 0
    decreases d - lo
  {
    if d % lo == 0 {
      q := lo;
      LeastIsPrime(d, q);
    } else {
      q := LeastDivisor(d, lo + 1);
    }
  }

  /** A divisor `d` of an unsieved `x` has a divisor at most `d` that is itself one of the values. */
  lemma FactorInSieved(s: seq<int>, m: int, n: int, x: int, d: int) returns (q: int)
    requires Sieved(s, m, n) && NoDivisorBelow(x, m)
    requires 2 <= d < n && x % d == 0
    ensures 2 <= q <= d && q in s
  {
    q := LeastDivisor(d, 2);
    DivTrans(x, d, q);
    assert q >= m;
    forall e | 2 <= e < m ensures q % e != 0 {
      assert e < q;
    }
  }

  lemma HeadIsLeast(s: seq<int>, x: int)
    requires Increasing(s) && x in s
    ensures s[0] <= x
  {
    var k :| 0 <= k < |s| && s[k] == x;
    if k > 0 {
      assert s[0] < s[k];
    }
  }

  /** One stage of the pipeline: its first value is prime, and what it passes on is sieved up to that prime. */
  lemma SieveStep(s: seq<int>, m: int, n: int)
    requires Sieved(s, m, n) && s != []
    ensures Prime(s[0]) && m <= s[0] < n
    ensures forall q :: m <= q < s[0] ==> !Prime(q)
    ensures Sieved(NotMultiples(s[1..], s[0]), s[0] + 1, n)
  {
    var p := s[0];
    assert p in s;
    forall d | 2 <= d < p ensures p % d != 0 {
      if p % d == 0 {
        var q := FactorInSieved(s, m, n, p, d);
        HeadIsLeast(s, q);
      }
    }
    forall q | m <= q < p ensures !Prime(q) {
      if Prime(q) {
        assert q in s;
        HeadIsLeast(s, q);
      }
    }
    var t := NotMultiples(s[1..], p);
    NotMultiplesMembers(s[1..], p);
    NotMultiplesSorted(s[1..], p);
    forall x ensures x in t <==> p + 1 <= x < n && NoDivisorBelow(x, p + 1) {
      if x in t {
        assert x in s[1..];
        var k :| 1 <= k < |s| && s[k] == x;
        assert s[0] < s[k];
        assert x in s;
        assert !Divides(p, x);
        forall d | 2 <= d < p + 1 ensures x % d != 0 {
          if d < m {
          } else if d < p && x % d == 0 {
            var q := FactorInSieved(s, m, n, x, d);
            HeadIsLeast(s, q);
          }
        }
      }
      if p + 1 <= x < n && NoDivisorBelow(x, p + 1) {
        assert x in s;
        var k :| 0 <= k < |s| && s[k] == x;
        assert k != 0;
        assert x == s[1..][k - 1];
      }
    }
  }

  /** From a sieved state, the pipeline prints exactly the primes in [m, n), in increasing order. */
  lemma {:induction false} SievePrimes(s: seq<int>, m: int, n: int)
    requires Sieved(s, m, n)
    ensures forall x :: x in s ==> x >= 2
    ensures forall x :: x in Sieve(s) <==> m <= x < n && Prime(x)
    ensures Increasing(Sieve(s))
    decreases |s|
  {
    if s != [] {
      var p := s[0];
      SieveStep(s, m, n);
      var t := NotMultiples(s[1..], p);
      SievePrimes(t, p + 1, n);
      var r := Sieve(s);
      assert r == [p] + Sieve(t);
      forall i, j | 0 <= i < j < |r| ensures r[i] < r[j] {
        assert r[j] == Sieve(t)[j - 1];
        assert r[j] in Sieve(t);
        if i > 0 {
          assert r[i] == Sieve(t)[i - 1];
        }
      }
    } else {
      forall x | m <= x < n && Prime(x) ensures x in s {
        assert NoDivisorBelow(x, m);
      }
    }
  }

  /** The program prints exactly the primes below 36, smallest first. */
  lemma PrintsPrimes()
    ensures forall x :: x in Sieve(Range(2, 2 + START)) <==> 2 <= x < 36 && Prime(x)
    ensures Increasing(Sieve(Range(2, 2 + START)))
  {
    RangeFacts(2, 2 + START);
    SievePrimes(Range(2, 2 + START), 2, 2 + START);
  }

  /** The first `n` cells of `a` hold 2, 3, ..., n + 1. */
  ghost predicate Counting(a: seq<int>, n: nat)
    requires n <= |a|
  {
    forall k :: 0 <= k < n ==> a[k] == k + 2
  }

  /** main's set-up loop: `after_filter[cnt] = cnt + 2` for the 34 starting values. */
  method InitArray(a: array<int>) returns (leftAmount: int)
    requires a.Length == MAXSIZE
    modifies a
    ensures leftAmount == START
    ensures Counting(a[..], START)
    ensures a[START..] == old(a[START..])
  {
    leftAmount := START;
    var cnt := 0;
    while cnt < leftAmount
      invariant 0 <= cnt <= START
      invariant forall k :: 0 <= k < cnt ==> a[k] == k + 2
      invariant a[START..] == old(a[START..])
    {
      a[cnt] := cnt + 2;
      cnt := cnt + 1;
    }
  }

  /**
   * filter(a, &left_amount): returns the value printed (`a[0]`) and the new
   * `*left_amount`. Fewer than two values leave nothing to pass on and the
   * array untouched; otherwise `a[0..newAmount)` becomes the values of
   * `a[1..lenth)` that `a[0]` does not divide, in order, and no cell at or
   * beyond the new count is written.
   */
  method Filter(a: array<int>, leftAmount: int) returns (prime: int, newAmount: int)
    requires 1 <= a.Length && leftAmount <= a.Length
    requires leftAmount > 1 ==> a[0] != 0
    modifies a
    ensures prime == old(a[0])
    ensures leftAmount <= 1 ==> newAmount == 0 && a[..] == old(a[..])
    ensures leftAmount > 1 ==>
      0 <= newAmount <= leftAmount - 1 &&
      a[..newAmount] == NotMultiples(old(a[1..leftAmount]), old(a[0])) &&
      a[newAmount..] == old(a[newAmount..])
  {
    var lenth := leftAmount;
    var first := a[0];
    prime := first;
    if lenth <= 1 {
      newAmount := 0;
      return;
    }
    ghost var a0 := a[..];
    var cnt, i := 1, 0;
    while cnt < lenth
      invariant 1 <= cnt <= lenth && 0 <= i < cnt
      invariant a[..i] == NotMultiples(a0[1..cnt], first)
      invariant a[i..] == a0[i..]
    {
      assert a0[1..cnt + 1] == a0[1..cnt] + [a0[cnt]];
      assert a0[1..cnt + 1][..cnt - 1] == a0[1..cnt];
      if a[cnt] % first != 0 {
        a[i] := a[cnt];
        i := i + 1;
        assert a[..i] == a[..i - 1] + [a0[cnt]];
      }
      cnt := cnt + 1;
    }
    newAmount := i;
  }

  /**
   * main with the processes of the pipeline run one after another on the
   * same array (each stage receives exactly what the previous one wrote to
   * the pipe): the values printed, in order.
   */
  method Pipeline(a: array<int>) returns (printed: seq<int>)
    requires a.Length == MAXSIZE
    modifies a
    ensures printed == Sieve(Range(2, 2 + START))
  {
    var leftAmount := InitArray(a);
    assert a[..leftAmount] == Range(2, 2 + START) by {
      forall k | 0 <= k < START ensures a[..START][k] == Range(2, 2 + START)[k] {
        RangeIndex(2, 2 + START, k);
      }
    }
    printed := [];
    while leftAmount > 0
      invariant 0 <= leftAmount <= a.Length
      invariant forall x :: x in a[..leftAmount] ==> x >= 2
      invariant printed + Sieve(a[..leftAmount]) == Sieve(Range(2, 2 + START))
      decreases leftAmount
    {
      ghost var s := a[..leftAmount];
      assert a[0] == s[0] && a[0] in s;
      assert a[1..leftAmount] == s[1..];
      var prime;
      prime, leftAmount := Filter(a, leftAmount);
      SieveHead(s);
      assert a[..leftAmount] == NotMultiples(s[1..], s[0]);
      printed := printed + [prime];
    }
  }

  /** The sieve prints the head of its input, then sieves the values the head does not divide. */
  lemma SieveHead(s: seq<int>)
    requires s != [] && forall x :: x in s ==> x >= 2
    ensures s[0] >= 2
    ensures forall x :: x in NotMultiples(s[1..], s[0]) ==> x >= 2
    ensures Sieve(s) == [s[0]] + Sieve(NotMultiples(s[1..], s[0]))
  {
    assert s[0] in s;
    assert forall x :: x in s[1..] ==> x in s;
    NotMultiplesMembers(s[1..], s[0]);
  }

  lemma {:induction false} RangeIndex(lo: int, hi: int, k: int)
    requires 0 <= k < hi - lo
    ensures Range(lo, hi)[k] == lo + k
    decreases k
  {
    if k > 0 {
      RangeIndex(lo + 1, hi, k - 1);
    }
  }
}
