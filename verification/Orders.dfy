/** Concatenation and sums along an order in which buffers come back. */
module Orders {
  import opened Util

  /** The parts one after the other. */
  ghost function Concat<T>(parts: seq<seq<T>>): (d: seq<T>)
  {
    if parts == [] then [] else Concat(parts[..|parts| - 1]) + parts[|parts| - 1]
  }

  lemma ConcatAppend<T>(parts: seq<seq<T>>, last: seq<T>)
    ensures Concat(parts + [last]) == Concat(parts) + last
  {
    assert (parts + [last])[..|parts|] == parts;
  }

  /** The elements of `table` that `order` names, in that order. */
  ghost function Pick<T>(table: seq<T>, order: seq<nat>): (r: seq<T>)
    requires forall k :: 0 <= k < |order| ==> order[k] < |table|
    ensures |r| == |order|
    ensures forall k :: 0 <= k < |order| ==> r[k] == table[order[k]]
  {
    seq(|order|, k requires 0 <= k < |order| => table[order[k]])
  }

  ghost function Sum(s: seq<nat>): (n: nat)
  {
    if s == [] then 0 else Sum(s[..|s| - 1]) + s[|s| - 1]
  }

  lemma {:induction false} SumConcat(a: seq<nat>, b: seq<nat>)
    ensures Sum(a + b) == Sum(a) + Sum(b)
    decreases |b|
  {
    if b == [] {
      assert a + b == a;
    } else {
      var last := |b| - 1;
      assert (a + b)[..|a| + last] == a + b[..last];
      SumConcat(a, b[..last]);
    }
  }

  /** The length of a concatenation, bounded part by part. */
  lemma {:induction false} ConcatLength<T>(parts: seq<seq<T>>, limits: seq<nat>)
    requires |parts| == |limits| && forall k :: 0 <= k < |parts| ==> |parts[k]| <= limits[k]
    ensures |Concat(parts)| <= Sum(limits)
    ensures (forall k :: 0 <= k < |parts| ==> |parts[k]| == limits[k]) ==> |Concat(parts)| == Sum(limits)
  {
    if parts != [] {
      var last := |parts| - 1;
      ConcatLength(parts[..last], limits[..last]);
    }
  }

  ghost predicate Distinct(order: seq<nat>, n: nat)
  {
    NoDup(order) && forall k :: 0 <= k < |order| ==> order[k] < n
  }

  /** Taking the last table entry out of an order that names it once. */
  lemma WithoutLast(table: seq<nat>, order: seq<nat>, j: nat)
    requires |table| > 0 && Distinct(order, |table|) && j < |order| && order[j] == |table| - 1
    ensures var last, rest := |table| - 1, order[..j] + order[j + 1..];
            && Distinct(rest, last)
            && Sum(Pick(table, order)) == Sum(Pick(table[..last], rest)) + table[last]
  {
    var last, a, b := |table| - 1, order[..j], order[j + 1..];
    Without(order, |table|, j);
    SumAround(table, a, last, b);
    assert order == a + [last] + b;
    assert Pick(table[..last], a + b) == Pick(table, a + b);
  }

  lemma Without(order: seq<nat>, n: nat, j: nat)
    requires Distinct(order, n) && j < |order| && order[j] == n - 1
    ensures Distinct(order[..j] + order[j + 1..], n - 1)
  {
    var rest := order[..j] + order[j + 1..];
    forall k | 0 <= k < |rest| ensures rest[k] < n - 1 && rest[k] == order[if k < j then k else k + 1] {
    }
    forall k, m | 0 <= k < m < |rest| ensures rest[k] != rest[m] {
    }
  }

  lemma SumAround(table: seq<nat>, a: seq<nat>, i: nat, b: seq<nat>)
    requires i < |table| && forall k :: 0 <= k < |a| ==> a[k] < |table|
    requires forall k :: 0 <= k < |b| ==> b[k] < |table|
    ensures Sum(Pick(table, a + [i] + b)) == Sum(Pick(table, a + b)) + table[i]
  {
    var p, q := Pick(table, a), Pick(table, b);
    assert Pick(table, a + [i] + b) == p + [table[i]] + q;
    assert Pick(table, a + b) == p + q;
    SumConcat(p + [table[i]], q);
    SumConcat(p, [table[i]]);
    SumConcat(p, q);
    assert Sum([table[i]]) == table[i];
  }

  /** Distinct entries of a table add up to at most the whole table, and to all of it if all occur. */
  lemma {:induction false} DistinctSum(table: seq<nat>, order: seq<nat>)
    requires Distinct(order, |table|)
    ensures Sum(Pick(table, order)) <= Sum(table)
    ensures |order| == |table| ==> Sum(Pick(table, order)) == Sum(table)
    ensures |order| <= |table|
    decreases |table|
  {
    if |table| == 0 {
    } else {
      var last := |table| - 1;
      if j :| 0 <= j < |order| && order[j] == last {
        var rest := order[..j] + order[j + 1..];
        WithoutLast(table, order, j);
        DistinctSum(table[..last], rest);
      } else {
        assert Distinct(order, last);
        assert Pick(table[..last], order) == Pick(table, order);
        DistinctSum(table[..last], order);
      }
    }
  }

  /** In the original order nothing is rearranged. */
  lemma PickAll<T>(table: seq<T>)
    ensures Pick(table, Range(0, |table|)) == table
  {
  }

  /** A permutation of 0, 1, ..., n - 1 is distinct and complete. */
  lemma PermutationIsDistinct(order: seq<nat>, n: nat)
    requires multiset(order) == multiset(Range(0, n))
    ensures Distinct(order, n) && |order| == n
  {
    SameSize(order, Range(0, n));
    SubNoDup(order, Range(0, n));
    forall k | 0 <= k < |order| ensures order[k] < n {
      assert order[k] in order;
    }
  }

  lemma {:induction false} ConcatConcat<T>(a: seq<seq<T>>, b: seq<seq<T>>)
    ensures Concat(a + b) == Concat(a) + Concat(b)
    decreases |b|
  {
    if b == [] {
      assert a + b == a;
    } else {
      var last := |b| - 1;
      ConcatConcat(a, b[..last]);
      ConcatAppend(a + b[..last], b[last]);
      assert a + b == a + b[..last] + [b[last]];
      ConcatAssociates(Concat(a), Concat(b[..last]), b[last]);
    }
  }

  /** Any two of the parts give the same, whichever comes first. */
  ghost predicate Commute<T>(parts: seq<seq<T>>)
  {
    forall i, j :: 0 <= i < |parts| && 0 <= j < |parts| ==> parts[i] + parts[j] == parts[j] + parts[i]
  }

  ghost predicate Permutation(order: seq<nat>, n: nat)
  {
    multiset(order) == multiset(Range(0, n))
  }

  /** A part moves past others that it commutes with. */
  lemma {:induction false} MovePast<T>(x: seq<T>, parts: seq<seq<T>>)
    requires forall k :: 0 <= k < |parts| ==> x + parts[k] == parts[k] + x
    ensures x + Concat(parts) == Concat(parts) + x
  {
    if parts == [] {
      assert x + [] == [] + x;
    } else {
      var last := |parts| - 1;
      var front, y := Concat(parts[..last]), parts[last];
      MovePast(x, parts[..last]);
      assert x + (front + y) == (x + front) + y;
      assert (front + x) + y == front + (x + y);
      assert front + (y + x) == (front + y) + x;
    }
  }

  /** Where the last number of a permutation stands, and what is left without it. */
  lemma SplitPermutation(order: seq<nat>, n: nat) returns (a: seq<nat>, b: seq<nat>)
    requires n > 0 && Permutation(order, n)
    ensures order == a + [n - 1] + b && Permutation(a + b, n - 1)
  {
    LastOfRange(n);
    hide Range;
    assert n - 1 in multiset(order);
    var j :| 0 <= j < |order| && order[j] == n - 1;
    a, b := order[..j], order[j + 1..];
    assert order == a + [n - 1] + b;
    TakeOutCounts(n - 1, Range(0, n - 1), a, b);
  }

  lemma LastOfRange(n: nat)
    requires n > 0
    ensures n - 1 in multiset(Range(0, n))
    ensures multiset(Range(0, n)) == multiset([n - 1] + Range(0, n - 1))
  {
    assert Range(0, n)[n - 1] == n - 1;
    assert Range(0, n) == Range(0, n - 1) + [n - 1];
  }

  /** Commuting parts give the same in every order. */
  lemma {:induction false} CommutingParts<T>(parts: seq<seq<T>>, order: seq<nat>)
    requires Commute(parts) && Permutation(order, |parts|)
    ensures forall k :: 0 <= k < |order| ==> order[k] < |parts|
    ensures Concat(Pick(parts, order)) == Concat(parts)
    decreases |parts|
  {
    PermutationIsDistinct(order, |parts|);
    if parts == [] {
      assert order == [];
    } else {
      hide Concat, Permutation;
      var last := |parts| - 1;
      var a, b := SplitPermutation(order, |parts|);
      CommutingParts(parts[..last], a + b);
      PermutationIsDistinct(a + b, last);
      LastPastRest(parts, a, b);
    }
  }

  lemma LastPastRest<T>(parts: seq<seq<T>>, a: seq<nat>, b: seq<nat>)
    requires parts != [] && Commute(parts)
    requires forall k :: 0 <= k < |a + b| ==> (a + b)[k] < |parts| - 1
    requires Concat(Pick(parts[..|parts| - 1], a + b)) == Concat(parts[..|parts| - 1])
    ensures forall k :: 0 <= k < |a| ==> a[k] < |parts|
    ensures forall k :: 0 <= k < |b| ==> b[k] < |parts|
    ensures Concat(Pick(parts, a + [|parts| - 1] + b)) == Concat(parts)
  {
    hide Concat;
    var last := |parts| - 1;
    PickAround(parts, a, b);
    MoveToEnd(Pick(parts, a), parts[last], Pick(parts, b));
    ConcatAppend(parts[..last], parts[last]);
    assert parts == parts[..last] + [parts[last]];
  }

  lemma PickAround<T>(parts: seq<seq<T>>, a: seq<nat>, b: seq<nat>)
    requires parts != [] && forall k :: 0 <= k < |a + b| ==> (a + b)[k] < |parts| - 1
    ensures forall k :: 0 <= k < |a| ==> a[k] < |parts|
    ensures forall k :: 0 <= k < |b| ==> b[k] < |parts|
    ensures Pick(parts, a + [|parts| - 1] + b) == Pick(parts, a) + [parts[|parts| - 1]] + Pick(parts, b)
    ensures Pick(parts[..|parts| - 1], a + b) == Pick(parts, a) + Pick(parts, b)
  {
    assert forall k :: 0 <= k < |a| ==> a[k] == (a + b)[k];
    assert forall k :: 0 <= k < |b| ==> b[k] == (a + b)[|a| + k];
  }

  lemma MoveToEnd<T>(p: seq<seq<T>>, x: seq<T>, q: seq<seq<T>>)
    requires forall k :: 0 <= k < |q| ==> x + q[k] == q[k] + x
    ensures Concat(p + [x] + q) == Concat(p + q) + x
  {
    hide Concat;
    ConcatConcat(p + [x], q);
    ConcatAppend(p, x);
    ConcatConcat(p, q);
    MovePast(x, q);
    ConcatAssociates(Concat(p), x, Concat(q));
    ConcatAssociates(Concat(p), Concat(q), x);
  }

  /** The numbers below `n` other than `i` and `j`. */
  ghost function Others(n: nat, i: nat, j: nat): (s: seq<nat>)
  {
    if n == 0 then [] else Others(n - 1, i, j) + if n - 1 == i || n - 1 == j then [] else [n - 1]
  }

  lemma {:induction false} OthersCount(n: nat, i: nat, j: nat, x: nat)
    ensures multiset(Others(n, i, j))[x] == if x < n && x != i && x != j then 1 else 0
  {
    if n > 0 {
      OthersCount(n - 1, i, j, x);
    }
  }

  lemma {:induction false} RangeCount(n: nat, x: nat)
    ensures multiset(Range(0, n))[x] == if x < n then 1 else 0
  {
    if n > 0 {
      RangeCount(n - 1, x);
      assert Range(0, n) == Range(0, n - 1) + [n - 1];
    }
  }

  /** An order that ends with `i` and `j`. */
  lemma EndsWithPair(n: nat, i: nat, j: nat)
    requires i < n && j < n && i != j
    ensures Permutation(Others(n, i, j) + [i, j], n)
  {
    var all: seq<nat>, others: seq<nat> := Range(0, n), Others(n, i, j);
    var order: seq<nat> := others + [i, j];
    hide Others, Range;
    assert multiset(order) == multiset(others) + multiset{i, j};
    forall x: nat ensures multiset(order)[x] == multiset(all)[x] {
      OthersCount(n, i, j, x);
      RangeCount(n, x);
    }
  }

  /** If the result is the same with `i` and `j` at the end and the other way round, they commute. */
  lemma SameBothWays<T>(parts: seq<seq<T>>, others: seq<nat>, i: nat, j: nat)
    requires Permutation(others + [i, j], |parts|) && InOrder(parts, others + [i, j])
    requires Permutation(others + [j, i], |parts|) && InOrder(parts, others + [j, i])
    ensures i < |parts| && j < |parts| && parts[i] + parts[j] == parts[j] + parts[i]
  {
    hide InOrder, Concat, Permutation;
    PairGives(parts, others, i, j);
    PairGives(parts, others, j, i);
    CancelFront(Concat(Pick(parts, others)), parts[i] + parts[j], parts[j] + parts[i]);
  }

  lemma {:induction false} OthersSwap(n: nat, i: nat, j: nat)
    ensures Others(n, i, j) == Others(n, j, i)
  {
    if n > 0 {
      OthersSwap(n - 1, i, j);
    }
  }

  lemma PairAtEnd<T>(parts: seq<seq<T>>, others: seq<nat>, i: nat, j: nat)
    requires Permutation(others + [i, j], |parts|)
    ensures i < |parts| && j < |parts| && forall k :: 0 <= k < |others| ==> others[k] < |parts|
    ensures forall k :: 0 <= k < |others + [i, j]| ==> (others + [i, j])[k] < |parts|
    ensures Concat(Pick(parts, others + [i, j])) == Concat(Pick(parts, others)) + (parts[i] + parts[j])
  {
    var order := others + [i, j];
    PermutationIsDistinct(order, |parts|);
    assert forall k :: 0 <= k < |others| ==> others[k] == order[k];
    assert order[|others|] == i && order[|others| + 1] == j;
    var p := Pick(parts, others);
    assert Pick(parts, order) == p + [parts[i]] + [parts[j]];
    ConcatAppend(p + [parts[i]], parts[j]);
    ConcatAppend(p, parts[i]);
    ConcatAssociates(Concat(p), parts[i], parts[j]);
  }

  lemma PairGives<T>(parts: seq<seq<T>>, others: seq<nat>, i: nat, j: nat)
    requires Permutation(others + [i, j], |parts|) && InOrder(parts, others + [i, j])
    ensures i < |parts| && j < |parts| && forall k :: 0 <= k < |others| ==> others[k] < |parts|
    ensures Concat(Pick(parts, others)) + (parts[i] + parts[j]) == Concat(parts)
  {
    hide Concat, Permutation;
    PairAtEnd(parts, others, i, j);
  }

  lemma CancelFront<T>(front: seq<T>, a: seq<T>, b: seq<T>)
    requires front + a == front + b
    ensures a == b
  {
    assert a == (front + a)[|front|..];
    assert b == (front + b)[|front|..];
  }

  /** In this order the parts give what they give in their own. */
  ghost predicate InOrder<T>(parts: seq<seq<T>>, order: seq<nat>)
  {
    && (forall k :: 0 <= k < |order| ==> order[k] < |parts|)
    && Concat(Pick(parts, order)) == Concat(parts)
  }

  /** The parts give the same in every order. */
  ghost predicate SameInAnyOrder<T>(parts: seq<seq<T>>)
  {
    forall order :: Permutation(order, |parts|) ==> InOrder(parts, order)
  }

  lemma GivenOrder<T>(parts: seq<seq<T>>, order: seq<nat>)
    requires SameInAnyOrder(parts) && Permutation(order, |parts|)
    ensures InOrder(parts, order)
  {
    hide InOrder, Permutation;
  }

  lemma PairCommutes<T>(parts: seq<seq<T>>, i: nat, j: nat)
    requires SameInAnyOrder(parts) && i < |parts| && j < |parts| && i != j
    ensures parts[i] + parts[j] == parts[j] + parts[i]
  {
    hide SameInAnyOrder, InOrder, Permutation, Others;
    var others := Others(|parts|, i, j);
    EndsWithPair(|parts|, i, j);
    EndsWithPair(|parts|, j, i);
    OthersSwap(|parts|, i, j);
    GivenOrder(parts, others + [i, j]);
    GivenOrder(parts, others + [j, i]);
    SameBothWays(parts, others, i, j);
  }

  /** The order does not matter exactly if any two parts commute. */
  lemma OrderIrrelevant<T>(parts: seq<seq<T>>)
    ensures SameInAnyOrder(parts) <==> Commute(parts)
  {
    if Commute(parts) {
      forall order | Permutation(order, |parts|) ensures InOrder(parts, order) {
        CommutingParts(parts, order);
      }
    }
    if SameInAnyOrder(parts) {
      hide SameInAnyOrder, InOrder;
      forall i, j | 0 <= i < |parts| && 0 <= j < |parts| ensures parts[i] + parts[j] == parts[j] + parts[i] {
        if i != j {
          PairCommutes(parts, i, j);
        }
      }
    }
  }
}
