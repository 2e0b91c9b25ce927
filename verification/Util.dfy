/** Arithmetic and sequence vocabulary shared by the other modules. */
module Util {

  datatype Option<+T> = None | Some(value: T)

  function Min(a: int, b: int): (m: int)
  {
    if a <= b then a else b
  }

  function Max(a: int, b: int): (m: int)
  {
    if a <= b then b else a
  }

  /** The DIV_CEIL macro. */
  function DivCeil(a: nat, b: nat): (q: nat)
    requires b > 0
  {
    a / b + if a % b != 0 then 1 else 0
  }

  /** `DivCeil(a, b)` is the least number of `b`-sized pieces that covers `a`. */
  lemma DivCeilCovers(a: nat, b: nat)
    requires b > 0
    ensures DivCeil(a, b) * b >= a
    ensures a > 0 ==> DivCeil(a, b) > 0 && (DivCeil(a, b) - 1) * b < a
    ensures a == 0 ==> DivCeil(a, b) == 0
  {
    assert a == (a / b) * b + a % b;
  }

  /** Multiplication is monotone. */
  lemma MulLe(a: nat, b: nat, c: nat)
    requires a <= b
    ensures a * c <= b * c
  {
  }

  lemma NextMultiple(k: nat, n: nat)
    ensures (k + 1) * n == k * n + n
  {
  }

  lemma MulCancel(a: nat, b: nat, c: nat)
    requires a * c < b * c
    ensures a < b
  {
    if b <= a {
      MulLe(b, a, c);
    }
  }

  /** Quotient and remainder are unique. */
  lemma ModUnique(x: nat, d: nat, r: nat, n: nat)
    requires r < n && x == d * n + r
    ensures x % n == r
  {
    var q, m := x / n, x % n;
    assert x == q * n + m;
    assert m - r == (d - q) * n == -((q - d) * n);
    if d > q {
      MulLe(1, d - q, n);
    } else if q > d {
      MulLe(1, q - d, n);
    }
  }

  lemma DivUnique(x: nat, d: nat, r: nat, n: nat)
    requires r < n && x == d * n + r
    ensures x / n == d
  {
    ModUnique(x, d, r, n);
    assert x == (x / n) * n + x % n;
    if x / n != d {
      assert (x / n) * n == d * n;
      MulCancelEq(x / n, d, n);
    }
  }

  lemma MulCancelEq(a: nat, b: nat, c: nat)
    requires c > 0 && a * c == b * c
    ensures a == b
  {
    if a < b {
      assert (a + 1) * c == a * c + c;
      MulLe(a + 1, b, c);
    } else if b < a {
      assert (b + 1) * c == b * c + c;
      MulLe(b + 1, a, c);
    }
  }

  /** Counting up and wrapping around is the remainder of the count. */
  lemma NextInCircle(i: nat, n: nat)
    requires n > 0
    ensures (i % n + 1) % n == (i + 1) % n
  {
    var q, m := i / n, i % n;
    assert i == q * n + m;
    if m + 1 < n {
      ModUnique(i + 1, q, m + 1, n);
    } else {
      FullCircle(i, q, n);
    }
  }

  lemma FullCircle(i: nat, q: nat, n: nat)
    requires n > 0 && i + 1 == q * n + n
    ensures (i + 1) % n == 0 && n % n == 0
  {
    assert (q + 1) * n == q * n + n;
    ModUnique(i + 1, q + 1, 0, n);
    ModUnique(n, 1, 0, n);
  }

  ghost function Pow2(k: nat): (p: nat)
    ensures p > 0
  {
    if k == 0 then 1 else 2 * Pow2(k - 1)
  }

  /** 1ULL << k. */
  method Shift(k: nat) returns (p: nat)
    ensures p == Pow2(k)
  {
    p := 1;
    for i := 0 to k
      invariant p == Pow2(i)
    {
      p := 2 * p;
    }
  }

  lemma {:induction false} Pow2Le(a: nat, b: nat)
    requires a <= b
    ensures Pow2(a) <= Pow2(b)
    decreases b
  {
    if a < b {
      Pow2Le(a, b - 1);
    }
  }

  lemma {:induction false} Pow2Add(a: nat, b: nat)
    ensures Pow2(a + b) == Pow2(a) * Pow2(b)
    decreases b
  {
    if b == 0 {
    } else {
      Pow2Add(a, b - 1);
      assert Pow2(a + b) == 2 * Pow2(a + (b - 1));
    }
  }

  lemma Pow2At32()
    ensures Pow2(32) == 0x1_0000_0000
  {
    assert Pow2(8) == 256;
    Pow2Add(8, 8);
    Pow2Add(16, 16);
  }

  /** The sequence lo, lo + 1, ..., hi - 1. */
  ghost function Range(lo: nat, hi: nat): (s: seq<nat>)
    requires lo <= hi
    ensures |s| == hi - lo
    ensures forall k :: 0 <= k < |s| ==> s[k] == lo + k
  {
    seq(hi - lo, k requires 0 <= k => lo + k)
  }

  lemma RangeAppend(lo: nat, mid: nat, hi: nat)
    requires lo <= mid <= hi
    ensures Range(lo, mid) + Range(mid, hi) == Range(lo, hi)
  {
  }

  /** A sequence `n` times over. */
  ghost function Repeat<T>(s: seq<T>, n: nat): (r: seq<T>)
    ensures |r| == n * |s|
  {
    if n == 0 then [] else Repeat(s, n - 1) + s
  }

  lemma {:induction false} RepeatMore<T>(s: seq<T>, m: nat, n: nat)
    ensures Repeat(s, m) + Repeat(s, n) == Repeat(s, m + n)
  {
    if n > 0 {
      RepeatMore(s, m, n - 1);
      ConcatAssociates(Repeat(s, m), Repeat(s, n - 1), s);
    }
  }

  lemma ConcatAssociates<T>(a: seq<T>, b: seq<T>, c: seq<T>)
    ensures a + b + c == a + (b + c)
  {
  }

  ghost predicate NoDup<T>(s: seq<T>)
  {
    forall i, j :: 0 <= i < j < |s| ==> s[i] != s[j]
  }

  /** A sequence is free of duplicates exactly when no element counts twice. */
  lemma NoDupCounts<T>(s: seq<T>)
    ensures NoDup(s) <==> forall x :: multiset(s)[x] <= 1
  {
    if NoDup(s) {
      forall x ensures multiset(s)[x] <= 1 {
        NoDupCount(s, x);
      }
    } else {
      var i, j :| 0 <= i < j < |s| && s[i] == s[j];
      assert s == s[..j] + s[j..];
      assert s[i] in s[..j] by { assert s[..j][i] == s[i]; }
      assert s[i] in s[j..] by { assert s[j..][0] == s[j]; }
      assert multiset(s) == multiset(s[..j]) + multiset(s[j..]);
      assert multiset(s)[s[i]] >= 2;
    }
  }

  lemma NoDupCount<T>(s: seq<T>, x: T)
    requires NoDup(s)
    ensures multiset(s)[x] <= 1
    decreases |s|
  {
    if s == [] {
    } else {
      var last := |s| - 1;
      assert s == s[..last] + [s[last]];
      NoDupCount(s[..last], x);
      assert forall i :: 0 <= i < last ==> s[..last][i] == s[i];
    }
  }

  /** Whatever is drawn from a duplicate-free collection has no duplicates. */
  lemma SubNoDup<T>(s: seq<T>, all: seq<T>)
    requires NoDup(all) && multiset(s) <= multiset(all)
    ensures NoDup(s)
    ensures forall x :: x in s ==> x in all
  {
    NoDupCounts(all);
    NoDupCounts(s);
    forall x | x in s ensures x in all {
      assert x in multiset(s);
      assert x in multiset(all);
    }
  }

  /** Equal multisets have equal lengths. */
  lemma SameSize<T>(a: seq<T>, b: seq<T>)
    requires multiset(a) == multiset(b)
    ensures |a| == |b|
  {
    assert |multiset(a)| == |a|;
    assert |multiset(b)| == |b|;
  }

  /** Seen from a map, a permuted sequence stays a permutation. */
  ghost function Mapped<A, B>(f: A -> B, s: seq<A>): (r: seq<B>)
    ensures |r| == |s|
    ensures forall k :: 0 <= k < |s| ==> r[k] == f(s[k])
  {
    seq(|s|, k requires 0 <= k < |s| => f(s[k]))
  }

  lemma MappedConcat<A, B>(f: A -> B, a: seq<A>, b: seq<A>)
    ensures Mapped(f, a + b) == Mapped(f, a) + Mapped(f, b)
  {
  }

  /** The first element of a sequence, found and taken out of a permutation of it. */
  lemma TakeOut<A>(a: seq<A>, b: seq<A>) returns (p: seq<A>, q: seq<A>)
    requires multiset(a) == multiset(b) && a != []
    ensures b == p + [a[0]] + q
    ensures multiset(a[1..]) == multiset(p + q)
  {
    assert a[0] in multiset(a);
    assert a[0] in b;
    var j :| 0 <= j < |b| && b[j] == a[0];
    p, q := b[..j], b[j + 1..];
    assert a == [a[0]] + a[1..] && b == p + [a[0]] + q;
    TakeOutCounts(a[0], a[1..], p, q);
  }

  lemma TakeOutCounts<A>(x: A, a: seq<A>, p: seq<A>, q: seq<A>)
    requires multiset([x] + a) == multiset(p + [x] + q)
    ensures multiset(a) == multiset(p + q)
  {
    assert multiset(a) == multiset([x] + a) - multiset{x};
    assert multiset(p + q) == multiset(p + [x] + q) - multiset{x};
  }

  lemma MappedAround<A, B>(f: A -> B, p: seq<A>, x: A, q: seq<A>)
    ensures multiset(Mapped(f, p + [x] + q)) == multiset{f(x)} + multiset(Mapped(f, p + q))
  {
    MappedConcat(f, p + [x], q);
    MappedConcat(f, p, [x]);
    MappedConcat(f, p, q);
    assert Mapped(f, [x]) == [f(x)];
  }

  /** A permutation stays one when every element is mapped. */
  lemma {:induction false} MappedPermutation<A, B>(f: A -> B, a: seq<A>, b: seq<A>)
    requires multiset(a) == multiset(b)
    ensures multiset(Mapped(f, a)) == multiset(Mapped(f, b))
    decreases |a|
  {
    SameSize(a, b);
    if a == [] {
      assert a == b;
    } else {
      var p, q := TakeOut(a, b);
      MappedPermutation(f, a[1..], p + q);
      MappedAround(f, [], a[0], a[1..]);
      MappedAround(f, p, a[0], q);
      assert [] + [a[0]] + a[1..] == a && [] + a[1..] == a[1..];
    }
  }
}
