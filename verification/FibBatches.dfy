/**
 * The batches test-fib adds and deletes its routes in (run_v4, run_v6 in test-fib/main.c): an
 * average is printed for each, so none may be empty.
 */
module FibBatches {
  import opened Util
  import opened Orders

  /** The FIB under test; it may refuse a route. */
  class Fib {
    /** Which routes it refuses. */
    const refuses: nat -> bool
    /** The routes added and deleted so far, by their place in the routing table. */
    var added: seq<nat>
    var deleted: seq<nat>

    constructor (refuses: nat -> bool)
      ensures added == deleted == [] && this.refuses == refuses
    {
      this.refuses := refuses;
      added, deleted := [], [];
    }

    method Add(route: nat) returns (ret: int)
      modifies this`added
      ensures ret == 0 <==> !refuses(route)
      ensures added == if ret == 0 then old(added) + [route] else old(added)
    {
      if refuses(route) {
        var code: int := *;
        return if code == 0 then -1 else code;
      }
      added := added + [route];
      return 0;
    }

    method Delete(route: nat)
      modifies this`deleted
      ensures deleted == old(deleted) + [route]
    {
      deleted := deleted + [route];
    }
  }

  /** The first route from `i` on that is refused, or `n` if none before it is. */
  ghost function FirstRefused(refuses: nat -> bool, i: nat, n: nat): (r: nat)
    requires i <= n
    ensures i <= r <= n && (r < n ==> refuses(r))
    ensures forall k: nat :: i <= k < r ==> !refuses(k)
    decreases n - i
  {
    if i == n || refuses(i) then i else FirstRefused(refuses, i + 1, n)
  }

  /** Only one number is that. */
  lemma IsFirstRefused(refuses: nat -> bool, i: nat, n: nat, r: nat)
    requires i <= r <= n && (r < n ==> refuses(r)) && forall k: nat :: i <= k < r ==> !refuses(k)
    ensures r == FirstRefused(refuses, i, n)
  {
    hide FirstRefused;
    var f := FirstRefused(refuses, i, n);
    if r < f {
    } else if f < r {
    }
  }

  /** `r` routes are left for `k` batches of `q` or `q + 1`. */
  ghost predicate Left(r: nat, k: nat, q: nat)
  {
    q * k <= r <= (q + 1) * k
  }

  lemma FirstBatch(n: nat, k: nat)
    requires k > 0
    ensures Left(n, k, n / k) && (k <= n ==> n / k > 0)
  {
    var q := n / k;
    assert n == q * k + n % k;
    assert (q + 1) * k == q * k + k;
    if k <= n {
      MulCancel(1, q + 1, k);
    }
  }

  lemma NextBatch(r: nat, k: nat, q: nat)
    requires k > 0 && Left(r, k, q)
    ensures q <= r / k <= q + 1 && r / k <= r
    ensures Left(r - r / k, k - 1, q)
    ensures k == 1 ==> r / k == r
  {
    assert (q + 1) * k == q * k + k;
    assert q * k == q * (k - 1) + q && (q + 1) * k == (q + 1) * (k - 1) + q + 1;
    var size := r / k;
    assert r == size * k + r % k;
    if r == (q + 1) * k {
      DivUnique(r, q + 1, 0, k);
    } else {
      DivUnique(r, q, r - q * k, k);
    }
    MulLe(1, k, size);
  }

  /** All batches are as large as `q` or one larger. */
  ghost predicate Even(batches: seq<nat>, q: nat)
  {
    forall b :: 0 <= b < |batches| ==> q <= batches[b] <= q + 1
  }

  /** After `fract - k` batches: the routes before `i` are done. */
  ghost predicate Progress(n: nat, fract: nat, k: nat, i: nat, batches: seq<nat>)
  {
    && k <= fract && i <= n && |batches| == fract - k && Sum(batches) == i
    && (k == 0 ==> i == n)
    && (fract > 0 ==> n / fract > 0 && Even(batches, n / fract) && Left(n - i, k, n / fract))
  }

  lemma ProgressFirst(n: nat, fract: nat)
    requires fract <= n && (fract == 0 <==> n == 0)
    ensures Progress(n, fract, fract, 0, [])
  {
    if n > 0 {
      FirstBatch(n, fract);
    }
  }

  lemma ProgressNext(n: nat, fract: nat, k: nat, i: nat, batches: seq<nat>)
    requires k > 0 && Progress(n, fract, k, i, batches)
    ensures (n - i) / k > 0 && i + (n - i) / k <= n
    ensures Progress(n, fract, k - 1, i + (n - i) / k, batches + [(n - i) / k])
  {
    NextBatch(n - i, k, n / fract);
    assert (batches + [(n - i) / k])[..|batches|] == batches;
  }

  class Config {
    var nbRoutes: nat
    var printFract: nat

    constructor (n: nat)
      requires n > 0
      ensures nbRoutes == n && Clamped()
    {
      nbRoutes, printFract := n, Min(10, n);
    }

    /** There are no more batches than routes, and none only without routes. */
    ghost predicate Clamped()
      reads this
    {
      printFract <= nbRoutes && (printFract == 0 <==> nbRoutes == 0)
    }

    /** Option -n, and the number of lines of a routes file. */
    method SetRoutes(n: nat)
      requires Clamped() && nbRoutes > 0
      modifies this
      ensures Clamped() && nbRoutes == n
    {
      nbRoutes := n;
      if nbRoutes < printFract {
        printFract := nbRoutes;
      }
    }

    /**
     * The loops that add the routes: one by one in the table's order up to the first that the
     * FIB refuses, in batches that are not empty and as even as can be. The result is an error
     * exactly if a route is refused.
     */
    method AddRoutes(fib: Fib) returns (ret: int, ghost batches: seq<nat>)
      requires Clamped()
      modifies fib`added
      ensures fib.added == old(fib.added) + Range(0, FirstRefused(fib.refuses, 0, nbRoutes))
      ensures ret == 0 <==> FirstRefused(fib.refuses, 0, nbRoutes) == nbRoutes
      ensures ret == 0 <==> forall r: nat :: r < nbRoutes ==> !fib.refuses(r)
      ensures ret == 0 ==> |batches| == printFract && Sum(batches) == nbRoutes
      ensures ret == 0 && nbRoutes > 0 ==> Even(batches, nbRoutes / printFract) && nbRoutes / printFract > 0
    {
      hide Even, Left, FirstRefused, Sum, Range;
      batches, ret := [], 0;
      var k, i := printFract, 0;
      ProgressFirst(nbRoutes, printFract);
      while k > 0
        invariant ret == 0 && 0 <= k && 0 <= i <= nbRoutes
        invariant Progress(nbRoutes, printFract, k, i, batches)
        invariant fib.added == old(fib.added) + Range(0, i)
        invariant forall r: nat :: r < i ==> !fib.refuses(r)
      {
        ProgressNext(nbRoutes, printFract, k, i, batches);
        var j;
        ret, j := AddBatch(fib, i, (nbRoutes - i) / k);
        RangeAppend(0, i, i + j);
        if ret != 0 {
          IsFirstRefused(fib.refuses, 0, nbRoutes, i + j);
          return;
        }
        batches := batches + [j];
        i := i + j;
        k := k - 1;
      }
      IsFirstRefused(fib.refuses, 0, nbRoutes, nbRoutes);
    }

    /** The loops that delete the routes. */
    method DeleteRoutes(fib: Fib) returns (ghost batches: seq<nat>)
      requires Clamped()
      modifies fib`deleted
      ensures fib.deleted == old(fib.deleted) + Range(0, nbRoutes)
      ensures |batches| == printFract && Sum(batches) == nbRoutes
      ensures nbRoutes > 0 ==> Even(batches, nbRoutes / printFract) && nbRoutes / printFract > 0
    {
      hide Even, Left;
      batches := [];
      var k, i := printFract, 0;
      ProgressFirst(nbRoutes, printFract);
      while k > 0
        invariant 0 <= k && 0 <= i <= nbRoutes
        invariant Progress(nbRoutes, printFract, k, i, batches)
        invariant fib.deleted == old(fib.deleted) + Range(0, i)
      {
        ProgressNext(nbRoutes, printFract, k, i, batches);
        var n := (nbRoutes - i) / k;
        DeleteBatch(fib, i, n);
        RangeAppend(0, i, i + n);
        batches := batches + [n];
        i := i + n;
        k := k - 1;
      }
    }

    method DeleteBatch(fib: Fib, i: nat, n: nat)
      modifies fib`deleted
      ensures fib.deleted == old(fib.deleted) + Range(i, i + n)
    {
      var j := 0;
      while j < n
        invariant 0 <= j <= n && fib.deleted == old(fib.deleted) + Range(i, i + j)
      {
        fib.Delete(i + j);
        RangeAppend(i, i + j, i + j + 1);
        assert Range(i + j, i + j + 1) == [i + j];
        j := j + 1;
      }
    }

    /** The inner loop; the reported average is the time divided by the number `j` of routes. */
    method AddBatch(fib: Fib, i: nat, n: nat) returns (ret: int, j: nat)
      modifies fib`added
      ensures j <= n && (ret == 0 <==> j == n) && (ret != 0 ==> fib.refuses(i + j))
      ensures forall r: nat :: i <= r < i + j ==> !fib.refuses(r)
      ensures fib.added == old(fib.added) + Range(i, i + j)
    {
      j, ret := 0, 0;
      while j < n
        invariant j <= n && ret == 0 && fib.added == old(fib.added) + Range(i, i + j)
        invariant forall r: nat :: i <= r < i + j ==> !fib.refuses(r)
      {
        ret := fib.Add(i + j);
        if ret != 0 {
          return;
        }
        RangeAppend(i, i + j, i + j + 1);
        assert Range(i + j, i + j + 1) == [i + j];
        j := j + 1;
      }
    }
  }
}
