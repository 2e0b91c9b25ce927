/**
 * The random routes of test-fib (get_rnd_rng, gen_random_rt_4, gen_random_rt_6 in
 * test-fib/main.c). The prefixes of a depth are drawn from consecutive cells of equal width.
 */
module FibRoutes {
  import opened Util
  import opened Orders
  import opened FibDistrib
  import opened FibRandom

  /** get_rnd_rng: a number of [l, u), or `l` when there is none; then nothing is drawn. */
  method GetRndRng(rand: Random, l: nat, u: nat) returns (r: nat, ghost d: seq<nat>)
    requires l <= u
    modifies rand
    ensures rand.drawn == old(rand.drawn) + d
    ensures if l == u then d == [] && r == l else |d| == 1 && r == d[0] % (u - l) + l && l <= r < u
  {
    if l == u {
      return l, [];
    }
    var rnd := rand.Next();
    r, d := rnd % (u - l) + l, [rnd];
  }

  /** The lower edge of cell `t` when [0, p) is cut into `c` cells. */
  ghost function Edge(p: nat, c: nat, t: nat): (e: real)
    requires c > 0
    ensures e >= 0.0
  {
    EdgeNonNegative(p, c, t);
    t as real * (p as real / c as real)
  }

  lemma EdgeNonNegative(p: nat, c: nat, t: nat)
    requires c > 0
    ensures t as real * (p as real / c as real) >= 0.0
  {
    var step := p as real / c as real;
    assert step >= 0.0;
    RealMulLe(0.0, t as real, step);
  }

  /** The conversion of an edge to an integer is an integer division. */
  lemma EdgeFloor(p: nat, c: nat, t: nat)
    requires c > 0
    ensures Edge(p, c, t).Floor == t * p / c
  {
    var q, r := t * p / c, t * p % c;
    assert t * p == q * c + r;
    var fraction := r as real / c as real;
    assert 0.0 <= fraction < 1.0;
    assert t as real * (p as real / c as real) == (t as real * p as real) / c as real;
    assert (q * c + r) as real == q as real * c as real + r as real;
    assert Edge(p, c, t) == q as real + fraction;
  }

  lemma RealMulLe(a: real, b: real, c: real)
    requires a <= b && c >= 0.0
    ensures a * c <= b * c
  {
  }

  lemma RealMulLt(a: real, b: real, c: real)
    requires a < b && c > 0.0
    ensures a * c < b * c
  {
  }

  /** The next edge is one step away, and the last one is `p`. */
  lemma EdgeNext(p: nat, c: nat, t: nat)
    requires c > 0 && p > 0 && t < c
    ensures Edge(p, c, t + 1) == Edge(p, c, t) + p as real / c as real
    ensures Edge(p, c, t) < p as real
    ensures Edge(p, c, t + 1) <= p as real
  {
    var step := p as real / c as real;
    assert step > 0.0;
    assert c as real * step == p as real;
    assert (t + 1) as real == t as real + 1.0;
    assert (t as real + 1.0) * step == t as real * step + step;
    RealMulLt(t as real, c as real, step);
    RealMulLe((t + 1) as real, c as real, step);
  }

  /** Value `v` is drawn from cell `t`. */
  ghost predicate Drawn(v: nat, p: nat, c: nat, t: nat)
    requires c > 0
  {
    var l, u := Edge(p, c, t).Floor, Edge(p, c, t + 1).Floor;
    if l == u then v == l else l <= v < u
  }

  ghost predicate Increasing(vals: seq<nat>)
  {
    forall s, t :: 0 <= s < t < |vals| ==> vals[s] < vals[t]
  }

  ghost predicate AllDrawn(vals: seq<nat>, p: nat, c: nat)
    requires c > 0
  {
    forall t :: 0 <= t < |vals| ==> Drawn(vals[t], p, c, t)
  }

  lemma DrawnBelow(v: nat, p: nat, c: nat, t: nat)
    requires c > 0 && p > 0 && t < c && Drawn(v, p, c, t)
    ensures v < p
  {
    EdgeNext(p, c, t);
  }

  /** Cells at least one wide hold a value of their own, which is below the next edge. */
  lemma CellBelowNext(v: nat, p: nat, c: nat, t: nat)
    requires 0 < c <= p && t < c && Drawn(v, p, c, t)
    ensures Edge(p, c, t).Floor <= v < Edge(p, c, t + 1).Floor
  {
    EdgeNext(p, c, t);
    var step := p as real / c as real;
    if step < 1.0 {
      RealMulLt(step, 1.0, c as real);
    }
    assert Edge(p, c, t + 1) >= Edge(p, c, t) + 1.0;
  }

  lemma {:induction false} DrawnIncreasing(vals: seq<nat>, p: nat, c: nat, s: nat, t: nat)
    requires 0 < c <= p && |vals| <= c && AllDrawn(vals, p, c) && s < t < |vals|
    ensures vals[s] < vals[t]
    decreases t - s
  {
    CellBelowNext(vals[s], p, c, s);
    CellBelowNext(vals[s + 1], p, c, s + 1);
    if s + 1 < t {
      DrawnIncreasing(vals, p, c, s + 1, t);
    }
  }

  lemma {:induction false} IncreasingIsLong(vals: seq<nat>, t: nat)
    requires Increasing(vals) && t < |vals|
    ensures vals[t] >= t
  {
    if t > 0 {
      IncreasingIsLong(vals, t - 1);
    }
  }

  /** However they are drawn, the values differ exactly when there are no more cells than numbers. */
  lemma DistinctExactly(vals: seq<nat>, p: nat)
    requires p > 0 && vals != [] && AllDrawn(vals, p, |vals|)
    ensures Increasing(vals) <==> |vals| <= p
    ensures forall t :: 0 <= t < |vals| ==> vals[t] < p
  {
    var c := |vals|;
    forall t | 0 <= t < c ensures vals[t] < p {
      DrawnBelow(vals[t], p, c, t);
    }
    if c <= p {
      forall s, t | 0 <= s < t < c ensures vals[s] < vals[t] {
        DrawnIncreasing(vals, p, c, s, t);
      }
    } else if Increasing(vals) {
      IncreasingIsLong(vals, c - 1);
    }
  }

  /** The first number of cell `t`, as an integer division. */
  ghost function Lower(p: nat, c: nat, t: nat): (lo: nat)
    requires c > 0
  {
    t * p / c
  }

  /** A number from `lo` up to `hi`, or `lo` if there is no other. */
  ghost function Choice(d: seq<nat>, lo: nat, hi: nat): (v: nat)
    requires lo < hi ==> d != []
  {
    if lo >= hi then lo else lo + d[0] % (hi - lo)
  }

  /** The number `v` of cell `t`, by the numbers drawn. */
  ghost predicate Picked(v: nat, d: seq<nat>, p: nat, c: nat, t: nat)
    requires c > 0
  {
    var lo, hi := Lower(p, c, t), Lower(p, c, t + 1);
    |d| == (if lo >= hi then 0 else 1) && v == Choice(d, lo, hi)
  }

  /** The value of one iteration of the inner loop, with the number drawn for it if there is a choice. */
  method DrawOne(rand: Random, edge: real, step: real, ghost p: nat, ghost c: nat, ghost j: nat)
    returns (v: nat, ghost d: seq<nat>)
    requires c > 0 && p > 0 && j < c && edge == Edge(p, c, j) && step == p as real / c as real
    modifies rand
    ensures Drawn(v, p, c, j) && v < p
    ensures edge + step == Edge(p, c, j + 1)
    ensures rand.drawn == old(rand.drawn) + d
    ensures var lo, hi := j * p / c, (j + 1) * p / c;
            if lo == hi then d == [] && v == lo else |d| == 1 && lo < hi && v == lo + d[0] % (hi - lo)
    ensures Picked(v, d, p, c, j)
  {
    EdgeNext(p, c, j);
    EdgeFloor(p, c, j);
    EdgeFloor(p, c, j + 1);
    v, d := GetRndRng(rand, edge.Floor, (edge + step).Floor);
    DrawnBelow(v, p, c, j);
  }

  /** An `i`-bit number moved to the top of a 32-bit word. */
  ghost predicate TopBits(word: nat, v: nat, i: nat)
    requires i <= 32
  {
    v < Pow2(i) && word == v * Pow2(32 - i)
  }

  /** Nothing is cut off, the host bits are zero, and the order is that of the numbers. */
  lemma TopBitsFacts(word: nat, v: nat, i: nat)
    requires i <= 32 && TopBits(word, v, i)
    ensures word < WORD && word % Pow2(32 - i) == 0
    ensures word == (v * Pow2(32 - i)) % WORD
  {
    var q := Pow2(32 - i);
    assert Pow2(i) * q == WORD by {
      Pow2Add(i, 32 - i);
      Pow2At32();
    }
    MulLess(v, Pow2(i), q);
    ModUnique(v * q, v, 0, q);
  }

  lemma MulLess(a: nat, b: nat, c: nat)
    requires a < b && c > 0
    ensures a * c < b * c
  {
    MulLe(a + 1, b, c);
    assert (a + 1) * c == a * c + c;
  }

  datatype Rule4 = Rule4(addr: nat, depth: nat)

  /** The numbers behind the prefixes of one depth. */
  ghost predicate Numbers4(rules: seq<Rule4>, vals: seq<nat>, i: nat)
    requires i <= 32
  {
    |vals| == |rules| && forall t :: 0 <= t < |rules| ==> rules[t].depth == i && TopBits(rules[t].addr, vals[t], i)
  }

  ghost predicate AddrsIncrease(rules: seq<Rule4>)
  {
    forall s, t :: 0 <= s < t < |rules| ==> rules[s].addr < rules[t].addr
  }

  /** The routes of one depth: canonical prefixes, distinct exactly when so many exist. */
  ghost predicate Group4(rules: seq<Rule4>, i: nat)
    requires i <= 32
  {
    && (forall t :: 0 <= t < |rules| ==>
          rules[t].depth == i && rules[t].addr < WORD && rules[t].addr % Pow2(32 - i) == 0)
    && (AddrsIncrease(rules) <==> |rules| <= Pow2(i))
  }

  lemma GroupFromNumbers(rules: seq<Rule4>, vals: seq<nat>, i: nat)
    requires 0 < i <= 32 && Numbers4(rules, vals, i) && (vals != [] ==> AllDrawn(vals, Pow2(i), |vals|))
    ensures Group4(rules, i)
  {
    var q := Pow2(32 - i);
    forall t | 0 <= t < |rules| ensures rules[t].addr < WORD && rules[t].addr % q == 0 {
      TopBitsFacts(rules[t].addr, vals[t], i);
    }
    forall s, t | 0 <= s < t < |rules| ensures rules[s].addr < rules[t].addr <==> vals[s] < vals[t] {
      SameOrder(vals[s], vals[t], q);
    }
    assert AddrsIncrease(rules) <==> Increasing(vals);
    if vals != [] {
      DistinctExactly(vals, Pow2(i));
    }
  }

  lemma SameOrder(a: nat, b: nat, c: nat)
    requires c > 0
    ensures a * c < b * c <==> a < b
  {
    if a < b {
      MulLess(a, b, c);
    } else {
      MulLe(b, a, c);
    }
  }

  /** The rules of a depth so far, with the numbers behind them, and the next one. */
  ghost predicate Partial4(rules: seq<Rule4>, vals: seq<nat>, i: nat, p: nat, count: nat)
    requires i <= 32 && count > 0
  {
    Numbers4(rules, vals, i) && AllDrawn(vals, p, count)
  }

  lemma Partial4Append(rules: seq<Rule4>, vals: seq<nat>, i: nat, count: nat, v: nat, unit: nat)
    requires i <= 32 && count > 0 && Partial4(rules, vals, i, Pow2(i), count) && unit == Pow2(32 - i)
    requires v < Pow2(i) && Drawn(v, Pow2(i), count, |rules|)
    ensures Partial4(rules + [Rule4(v * unit % WORD, i)], vals + [v], i, Pow2(i), count)
  {
    hide Drawn, Pow2;
    TopBitsFacts(v * unit, v, i);
  }

  lemma NoneYet(i: nat, p: nat, count: nat)
    requires i <= 32 && count > 0
    ensures Partial4([], [], i, p, count) && AllFrom4([], [], i, count) && Concat<nat>([]) == []
  {
  }

  lemma FirstEdge(p: nat, count: nat)
    requires count > 0
    ensures Edge(p, count, 0) == 0.0
  {
  }

  /** Route `t` of `count` at depth `i`, with the number drawn for it if its cell leaves a choice. */
  ghost predicate From4(rule: Rule4, d: seq<nat>, i: nat, count: nat, t: nat)
    requires i <= 32 && count > 0
  {
    var lo, hi := Lower(Pow2(i), count, t), Lower(Pow2(i), count, t + 1);
    && rule.depth == i && |d| == (if lo >= hi then 0 else 1)
    && rule.addr == Choice(d, lo, hi) * Pow2(32 - i)
  }

  ghost predicate AllFrom4(rules: seq<Rule4>, draws: seq<seq<nat>>, i: nat, count: nat)
    requires i <= 32 && count > 0
  {
    |draws| == |rules| && forall t :: 0 <= t < |rules| ==> From4(rules[t], draws[t], i, count, t)
  }

  lemma NothingCut(v: nat, unit: nat, i: nat)
    requires i <= 32 && unit == Pow2(32 - i) && v < Pow2(i)
    ensures v * unit % WORD == v * unit
  {
    TopBitsFacts(v * unit, v, i);
  }

  lemma RouteFrom4(i: nat, count: nat, t: nat, v: nat, unit: nat, d: seq<nat>)
    requires i <= 32 && count > 0 && unit == Pow2(32 - i) && v < Pow2(i) && Picked(v, d, Pow2(i), count, t)
    ensures From4(Rule4(v * unit % WORD, i), d, i, count, t)
  {
    hide Pow2, Lower, Choice;
    NothingCut(v, unit, i);
  }

  lemma NextFrom4(rules: seq<Rule4>, draws: seq<seq<nat>>, i: nat, count: nat, v: nat, unit: nat, d: seq<nat>)
    requires i <= 32 && count > 0 && AllFrom4(rules, draws, i, count) && unit == Pow2(32 - i) && v < Pow2(i)
    requires Picked(v, d, Pow2(i), count, |rules|)
    ensures AllFrom4(rules + [Rule4(v * unit % WORD, i)], draws + [d], i, count)
  {
    hide From4, Picked, Pow2;
    RouteFrom4(i, count, |rules|, v, unit, d);
  }

  /** The inner loop of gen_random_rt_4 when there is something to write. */
  method GenCells4(rand: Random, rt: array<Rule4>, i: nat, count: nat, k: nat)
    returns (k': nat, ghost vals: seq<nat>, ghost draws: seq<seq<nat>>)
    requires 0 < i <= 32 && k + count <= rt.Length && count > 0
    modifies rand, rt
    ensures k' == k + count && Partial4(rt[k..k'], vals, i, Pow2(i), count)
    ensures rand.drawn == old(rand.drawn) + Concat(draws) && |draws| == count
    ensures AllFrom4(rt[k..k'], draws, i, count)
    ensures rt[..k] == old(rt[..k]) && rt[k'..] == old(rt[k'..])
  {
    hide Partial4, Drawn, Picked, Edge, Pow2, AllFrom4, Concat;
    var p := Shift(i);
    var unit := Shift(32 - i);
    var edge, step := 0.0, p as real / count as real;
    FirstEdge(p, count);
    k', vals, draws := k, [], [];
    NoneYet(i, p, count);
    assert rt[k..k'] == [];
    var j := 0;
    while j < count
      invariant 0 <= j <= count && k' == k + j && edge == Edge(p, count, j)
      invariant Partial4(rt[k..k'], vals, i, p, count)
      invariant rand.drawn == old(rand.drawn) + Concat(draws) && |draws| == j
      invariant AllFrom4(rt[k..k'], draws, i, count)
      invariant rt[..k] == old(rt[..k]) && rt[k'..] == old(rt[k'..])
    {
      var rndVal; ghost var d;
      rndVal, d := DrawOne(rand, edge, step, p, count, j);
      Partial4Append(rt[k..k'], vals, i, count, rndVal, unit);
      NextFrom4(rt[k..k'], draws, i, count, rndVal, unit, d);
      ConcatAppend(draws, d);
      ghost var done, later := rt[k..k'], rt[k'..];
      rt[k'] := Rule4(rndVal * unit % WORD, i);
      vals, draws := vals + [rndVal], draws + [d];
      assert rt[k..k' + 1] == done + [rt[k']];
      assert rt[k' + 1..] == later[1..];
      j, k', edge := j + 1, k' + 1, edge + step;
    }
  }

  /** The routes of depth `i`, from slot `k` on. */
  method GenDepth4(rand: Random, rt: array<Rule4>, i: nat, count: nat, k: nat)
    returns (k': nat, ghost draws: seq<seq<nat>>)
    requires 0 < i <= 32 && k + count <= rt.Length
    modifies rand, rt
    ensures k' == k + count && Group4(rt[k..k'], i)
    ensures rt[..k] == old(rt[..k]) && rt[k'..] == old(rt[k'..])
    ensures rand.drawn == old(rand.drawn) + Concat(draws) && |draws| == count
    ensures count > 0 ==> AllFrom4(rt[k..k'], draws, i, count)
  {
    hide Partial4, Group4, AllFrom4, From4, Pow2;
    if count == 0 {
      k', draws := k, [];
      GroupFromNumbers(rt[k..k'], [], i);
      NoneYet(i, 0, 1);
    } else {
      ghost var vals;
      k', vals, draws := GenCells4(rand, rt, i, count, k);
      GroupFromPartial(rt[k..k'], vals, i);
    }
  }

  lemma GroupFromPartial(rules: seq<Rule4>, vals: seq<nat>, i: nat)
    requires 0 < i <= 32 && rules != [] && Partial4(rules, vals, i, Pow2(i), |rules|)
    ensures Group4(rules, i)
  {
    GroupFromNumbers(rules, vals, i);
  }

  /** The slot the routes of depth `i` begin at: depth 0 gets one slot at most. */
  ghost function Start(cnt: seq<nat>, i: nat): (k: nat)
    requires 0 < i <= |cnt|
  {
    if i == 1 then Min(1, cnt[0]) else Start(cnt, i - 1) + cnt[i - 1]
  }

  lemma {:induction false} StartGrows(cnt: seq<nat>, i: nat, j: nat)
    requires 0 < i <= j <= |cnt|
    ensures Start(cnt, i) <= Start(cnt, j)
    decreases j
  {
    if i < j {
      StartGrows(cnt, i, j - 1);
    }
  }

  /** The slots written are as many as the routes asked for, unless depth 0 has more than one. */
  lemma {:induction false} SlotsAreSum(cnt: seq<nat>, i: nat)
    requires 0 < i <= |cnt|
    ensures Start(cnt, i) <= Sum(cnt[..i])
    ensures Start(cnt, i) == Sum(cnt[..i]) <==> cnt[0] <= 1
  {
    assert cnt[..i][..i - 1] == cnt[..i - 1];
    if i == 1 {
      assert Sum(cnt[..0]) == 0;
    } else {
      SlotsAreSum(cnt, i - 1);
    }
  }

  /** The routes of depth `i` in a table: they lie behind those of smaller depths. */
  ghost function OfDepth<T>(table: seq<T>, cnt: seq<nat>, i: nat): (part: seq<T>)
    requires 0 < i < |cnt|
    ensures Start(cnt, i + 1) <= |table| ==> |part| == cnt[i]
  {
    var k := Start(cnt, i);
    if k + cnt[i] <= |table| then table[k..k + cnt[i]] else []
  }

  lemma NewPart<T>(table: seq<T>, cnt: seq<nat>, n: nat)
    requires 0 < n < |cnt| && Start(cnt, n) + cnt[n] <= |table|
    ensures OfDepth(table, cnt, n) == table[Start(cnt, n)..Start(cnt, n) + cnt[n]]
  {
  }

  lemma SameFirst<T>(before: seq<T>, after: seq<T>, k: nat)
    requires k <= |before| == |after| && before[..k] == after[..k]
    ensures k > 0 ==> before[0] == after[0]
  {
    if k > 0 {
      assert after[0] == after[..k][0] == before[..k][0];
    }
  }

  lemma SamePart<T>(before: seq<T>, after: seq<T>, cnt: seq<nat>, i: nat, n: nat)
    requires 0 < i < n <= |cnt| && Start(cnt, n) <= |before| && Start(cnt, n) <= |after|
    requires before[..Start(cnt, n)] == after[..Start(cnt, n)]
    ensures OfDepth(before, cnt, i) == OfDepth(after, cnt, i)
  {
    StartGrows(cnt, i + 1, n);
    var k, m := Start(cnt, n), Start(cnt, i);
    assert before[m..m + cnt[i]] == before[..k][m..m + cnt[i]];
    assert after[m..m + cnt[i]] == after[..k][m..m + cnt[i]];
  }

  ghost predicate Groups4(table: seq<Rule4>, cnt: seq<nat>, n: nat)
    requires 0 < n <= |cnt| <= 33
  {
    && Start(cnt, n) <= |table|
    && (cnt[0] != 0 ==> table != [] && table[0] == Rule4(0, 0))
    && forall i :: 0 < i < n ==> Group4(OfDepth(table, cnt, i), i)
  }

  lemma NextGroup4(before: seq<Rule4>, after: seq<Rule4>, cnt: seq<nat>, n: nat)
    requires 0 < n < |cnt| <= 33 && |before| == |after| && Groups4(before, cnt, n)
    requires var k := Start(cnt, n); k + cnt[n] <= |after| && after[..k] == before[..k]
                                     && Group4(after[k..k + cnt[n]], n)
    ensures Groups4(after, cnt, n + 1)
  {
    hide Group4, OfDepth;
    StartGrows(cnt, 1, n);
    SameFirst(before, after, Start(cnt, n));
    forall i | 0 < i < n ensures Group4(OfDepth(after, cnt, i), i) {
      SamePart(before, after, cnt, i, n);
    }
    NewPart(after, cnt, n);
  }

  /** The routes of the depths below `n`, each with the number drawn for it; none is for depth 0. */
  ghost predicate Sources4(table: seq<Rule4>, draws: seq<seq<nat>>, cnt: seq<nat>, n: nat)
    requires 0 < n <= |cnt| <= 33
  {
    && |draws| == Start(cnt, n) <= |table|
    && (cnt[0] != 0 ==> draws != [] && draws[0] == [])
    && forall i :: 0 < i < n && cnt[i] > 0 ==>
         AllFrom4(OfDepth(table, cnt, i), OfDepth(draws, cnt, i), i, cnt[i])
  }

  lemma MoreDraws(draws: seq<seq<nat>>, more: seq<seq<nat>>)
    ensures (draws + more)[..|draws|] == draws == draws[..|draws|]
    ensures (draws + more)[|draws|..|draws| + |more|] == more
    ensures draws != [] ==> (draws + more)[0] == draws[0]
  {
  }

  lemma NextSources4(before: seq<Rule4>, after: seq<Rule4>, draws: seq<seq<nat>>, more: seq<seq<nat>>, cnt: seq<nat>,
      n: nat)
    requires 0 < n < |cnt| <= 33 && |before| == |after| && Sources4(before, draws, cnt, n)
    requires var k := Start(cnt, n); k + cnt[n] <= |after| && after[..k] == before[..k]
    requires |more| == cnt[n]
    requires var k := Start(cnt, n); (cnt[n] > 0 ==> AllFrom4(after[k..k + cnt[n]], more, n, cnt[n]))
    ensures Sources4(after, draws + more, cnt, n + 1)
  {
    hide AllFrom4, From4, Pow2, OfDepth;
    StartGrows(cnt, 1, n);
    var k := Start(cnt, n);
    assert Start(cnt, n + 1) == k + cnt[n];
    hide Start;
    SameFirst(before, after, k);
    MoreDraws(draws, more);
    forall i | 0 < i < n && cnt[i] > 0
      ensures AllFrom4(OfDepth(after, cnt, i), OfDepth(draws + more, cnt, i), i, cnt[i])
    {
      SamePart(before, after, cnt, i, n);
      SamePart(draws, draws + more, cnt, i, n);
    }
    NewPart(after, cnt, n);
    NewPart(draws + more, cnt, n);
  }

  /** Route `t` of depth `i` in the table: which number it is, and what it is drawn from. */
  lemma SourceAt4(table: seq<Rule4>, draws: seq<seq<nat>>, cnt: seq<nat>, i: nat, t: nat, lo: nat, hi: nat)
    requires |cnt| == 33 && Sources4(table, draws, cnt, 33) && 0 < i <= 32 && t < cnt[i]
    requires lo == t * Pow2(i) / cnt[i] && hi == (t + 1) * Pow2(i) / cnt[i]
    ensures Start(cnt, i) + t < |draws| == Start(cnt, 33) <= |table|
    ensures var s := Start(cnt, i) + t;
            && table[s].depth == i
            && if lo >= hi then draws[s] == [] && table[s].addr == lo * Pow2(32 - i)
               else |draws[s]| == 1 && table[s].addr == (lo + draws[s][0] % (hi - lo)) * Pow2(32 - i)
  {
    hide Pow2, From4, Sources4, Start;
    At4(table, draws, cnt, i, t);
    From4Is(table[Start(cnt, i) + t], draws[Start(cnt, i) + t], i, cnt[i], t, lo, hi);
  }

  lemma At4(table: seq<Rule4>, draws: seq<seq<nat>>, cnt: seq<nat>, i: nat, t: nat)
    requires |cnt| == 33 && Sources4(table, draws, cnt, 33) && 0 < i <= 32 && t < cnt[i]
    ensures Start(cnt, i) + t < |draws| == Start(cnt, 33) <= |table|
    ensures From4(table[Start(cnt, i) + t], draws[Start(cnt, i) + t], i, cnt[i], t)
  {
    hide From4, Pow2;
    StartGrows(cnt, i + 1, 33);
    var s := Start(cnt, i) + t;
    assert Start(cnt, i + 1) == Start(cnt, i) + cnt[i];
    hide Start;
    assert AllFrom4(OfDepth(table, cnt, i), OfDepth(draws, cnt, i), i, cnt[i]);
    assert OfDepth(table, cnt, i)[t] == table[s] && OfDepth(draws, cnt, i)[t] == draws[s];
  }

  lemma From4Is(rule: Rule4, d: seq<nat>, i: nat, count: nat, t: nat, lo: nat, hi: nat)
    requires i <= 32 && count > 0 && From4(rule, d, i, count, t)
    requires lo == t * Pow2(i) / count && hi == (t + 1) * Pow2(i) / count
    ensures rule.depth == i
    ensures if lo >= hi then d == [] && rule.addr == lo * Pow2(32 - i)
            else |d| == 1 && rule.addr == (lo + d[0] % (hi - lo)) * Pow2(32 - i)
  {
    assert lo == Lower(Pow2(i), count, t) && hi == Lower(Pow2(i), count, t + 1);
    hide Pow2, Lower;
  }

  /** The default route, if there is to be one. */
  method GenFirst4(rt: array<Rule4>, cnt: seq<nat>) returns (ok: bool, k: nat, ghost draws: seq<seq<nat>>)
    requires |cnt| == 33
    modifies rt
    ensures !ok ==> rt.Length < Start(cnt, 33)
    ensures ok ==> k == Start(cnt, 1) <= rt.Length && Groups4(rt[..], cnt, 1) && rt[k..] == old(rt[k..])
    ensures ok ==> Sources4(rt[..], draws, cnt, 1) && Concat(draws) == []
  {
    StartGrows(cnt, 1, 33);
    k, draws := 0, [];
    if cnt[0] != 0 {
      if rt.Length == 0 {
        return false, k, draws;
      }
      rt[k] := Rule4(0, 0);
      k, draws := k + 1, [[]];
    }
    ok := true;
  }

  /**
   * gen_random_rt_4: all prefixes canonical, and distinct at every depth that has that many; each is
   * tied to the number drawn for it. The source does not check that the table has room; the model
   * stops before a depth that has none.
   */
  method GenRandomRt4(rand: Random, rt: array<Rule4>, cnt: seq<nat>)
    returns (ok: bool, k: nat, ghost draws: seq<seq<nat>>)
    requires |cnt| == 33
    modifies rand, rt
    ensures ok <==> Start(cnt, 33) <= rt.Length
    ensures ok ==> k == Start(cnt, 33) && Groups4(rt[..], cnt, 33) && rt[k..] == old(rt[k..])
    ensures ok ==> rand.drawn == old(rand.drawn) + Concat(draws) && Sources4(rt[..], draws, cnt, 33)
  {
    hide Group4, AllFrom4, Pow2, Groups4, Sources4, Concat;
    ok, k, draws := GenFirst4(rt, cnt);
    if !ok {
      return;
    }
    StartGrows(cnt, 1, 33);
    var i := 1;
    while i <= 32
      invariant 1 <= i <= 33 && k == Start(cnt, i) <= rt.Length && Groups4(rt[..], cnt, i)
      invariant k <= Start(cnt, 33) && rt[k..] == old(rt[k..])
      invariant rand.drawn == old(rand.drawn) + Concat(draws) && Sources4(rt[..], draws, cnt, i)
    {
      StartGrows(cnt, i + 1, 33);
      if k + cnt[i] > rt.Length {
        return false, k, draws;
      }
      ghost var before := rt[..];
      var k'; ghost var more;
      k', more := GenDepth4(rand, rt, i, cnt[i], k);
      NextSources4(before, rt[..], draws, more, cnt, i);
      ConcatConcat(draws, more);
      draws := draws + more;
      NextGroup4(before, rt[..], cnt, i);
      SameBehind(old(rt[..]), before, rt[..], k, k');
      k := k';
      i := i + 1;
    }
    ok := true;
  }

  lemma SameBehind<T>(first: seq<T>, before: seq<T>, after: seq<T>, k: nat, k': nat)
    requires |first| == |before| == |after| && k <= k' <= |first|
    requires before[k..] == first[k..] && after[k'..] == before[k'..]
    ensures after[k'..] == first[k'..]
  {
    assert first[k'..] == first[k..][k' - k..] && before[k'..] == before[k..][k' - k..];
  }

  datatype Rule6 = Rule6(addr: seq<nat>, depth: nat)

  /** Word `a` of the addresses, seen as IPv4 routes. */
  ghost function Word(rules: seq<Rule6>, a: nat, i: nat): (w: seq<Rule4>)
    requires a < 4 && forall t :: 0 <= t < |rules| ==> |rules[t].addr| == 4
    ensures |w| == |rules|
    ensures forall t :: 0 <= t < |rules| ==> w[t] == Rule4(rules[t].addr[a], i)
  {
    seq(|rules|, t requires 0 <= t < |rules| => Rule4(rules[t].addr[a], i))
  }

  /** Four words each, nothing behind word `a`. */
  ghost predicate Shape6(rules: seq<Rule6>, a: nat, i: nat)
    requires a < 4
  {
    forall t :: 0 <= t < |rules| ==>
      && |rules[t].addr| == 4 && rules[t].depth == 32 * a + i
      && (forall w :: 0 <= w < 4 ==> rules[t].addr[w] < WORD)
      && (forall w :: a < w < 4 ==> rules[t].addr[w] == 0)
  }

  /** The routes of depth 32 * a + i: zero host bits; word `a` tells them apart if it can. */
  ghost predicate Group6(rules: seq<Rule6>, a: nat, i: nat)
    requires a < 4 && i <= 32
  {
    Shape6(rules, a, i) && Group4(Word(rules, a, i), i)
  }

  /** complete_v6_addr: the words drawn in front, zeros behind. */
  method CompleteV6Addr(rand: Random, rnd: nat, a: nat) returns (addr: seq<nat>, ghost d: seq<nat>)
    requires a < 4 && rnd < WORD
    modifies rand
    ensures |d| == a && rand.drawn == old(rand.drawn) + d
    ensures |addr| == 4 && addr[a] == rnd
    ensures forall w :: 0 <= w < 4 && w != a ==> addr[w] == if w < a then d[w] % WORD else 0
  {
    addr, d := [], [];
    while |addr| < a
      invariant |addr| == |d| <= a && rand.drawn == old(rand.drawn) + d
      invariant forall w :: 0 <= w < |addr| ==> addr[w] == d[w] % WORD
    {
      var r := rand.Next();
      addr, d := addr + [r % WORD], d + [r];
    }
    addr := addr + [rnd];
    while |addr| < 4
      invariant a < |addr| <= 4 && addr[a] == rnd
      invariant forall w :: 0 <= w < |addr| && w != a ==> addr[w] == if w < a then d[w] % WORD else 0
    {
      addr := addr + [0];
    }
  }

  ghost predicate Partial6(rules: seq<Rule6>, vals: seq<nat>, a: nat, i: nat, p: nat, count: nat)
    requires a < 4 && i <= 32 && count > 0
  {
    Shape6(rules, a, i) && Partial4(Word(rules, a, i), vals, i, p, count)
  }

  lemma Partial6Append(rules: seq<Rule6>, vals: seq<nat>, a: nat, i: nat, count: nat, v: nat, unit: nat, addr: seq<nat>)
    requires a < 4 && i <= 32 && count > 0 && Partial6(rules, vals, a, i, Pow2(i), count) && unit == Pow2(32 - i)
    requires v < Pow2(i) && Drawn(v, Pow2(i), count, |rules|)
    requires |addr| == 4 && addr[a] == v * unit % WORD
    requires forall w :: 0 <= w < 4 ==> addr[w] < WORD && (w > a ==> addr[w] == 0)
    ensures Partial6(rules + [Rule6(addr, 32 * a + i)], vals + [v], a, i, Pow2(i), count)
  {
    hide Partial4, Drawn, Pow2;
    Partial4Append(Word(rules, a, i), vals, i, count, v, unit);
    var more := rules + [Rule6(addr, 32 * a + i)];
    assert Shape6(more, a, i);
    assert Word(more, a, i) == Word(rules, a, i) + [Rule4(v * unit % WORD, i)];
  }

  lemma NoneYet6(a: nat, i: nat, p: nat, count: nat)
    requires a < 4 && i <= 32 && count > 0
    ensures Partial6([], [], a, i, p, count) && AllFrom6([], [], a, i, count) && Concat<nat>([]) == []
  {
    NoneYet(i, p, count);
    assert Word([], a, i) == [];
  }

  /**
   * Route `t` of `count` that end in word `a`, with the numbers drawn for it: one if its cell leaves
   * a choice, then one for each word in front.
   */
  ghost predicate From6(rule: Rule6, d: seq<nat>, a: nat, i: nat, count: nat, t: nat)
    requires a < 4 && i <= 32 && count > 0
  {
    var lo, hi := Lower(Pow2(i), count, t), Lower(Pow2(i), count, t + 1);
    var own := if lo >= hi then 0 else 1;
    && rule.depth == 32 * a + i && |rule.addr| == 4 && |d| == own + a
    && rule.addr[a] == Choice(d, lo, hi) * Pow2(32 - i)
    && (forall w :: 0 <= w < a ==> rule.addr[w] == d[own + w] % WORD)
    && (forall w :: a < w < 4 ==> rule.addr[w] == 0)
  }

  ghost predicate AllFrom6(rules: seq<Rule6>, draws: seq<seq<nat>>, a: nat, i: nat, count: nat)
    requires a < 4 && i <= 32 && count > 0
  {
    |draws| == |rules| && forall t :: 0 <= t < |rules| ==> From6(rules[t], draws[t], a, i, count, t)
  }

  lemma RouteFrom6(a: nat, i: nat, count: nat, t: nat, v: nat, unit: nat, d: seq<nat>, words: seq<nat>, addr: seq<nat>)
    requires a < 4 && i <= 32 && count > 0 && unit == Pow2(32 - i) && v < Pow2(i) && Picked(v, d, Pow2(i), count, t)
    requires |words| == a && |addr| == 4 && addr[a] == v * unit % WORD
    requires forall w :: 0 <= w < 4 && w != a ==> addr[w] == if w < a then words[w] % WORD else 0
    ensures From6(Rule6(addr, 32 * a + i), d + words, a, i, count, t)
  {
    hide Pow2, Lower;
    NothingCut(v, unit, i);
    SameChoice(d, words, Lower(Pow2(i), count, t), Lower(Pow2(i), count, t + 1));
    hide Choice;
  }

  /** What is drawn afterwards makes no difference. */
  lemma SameChoice(d: seq<nat>, more: seq<nat>, lo: nat, hi: nat)
    requires lo < hi ==> d != []
    ensures Choice(d + more, lo, hi) == Choice(d, lo, hi)
  {
    assert lo < hi ==> (d + more)[0] == d[0];
  }

  lemma NextFrom6(rules: seq<Rule6>, draws: seq<seq<nat>>, a: nat, i: nat, count: nat, v: nat, unit: nat, d: seq<nat>,
      words: seq<nat>, addr: seq<nat>)
    requires a < 4 && i <= 32 && count > 0 && AllFrom6(rules, draws, a, i, count) && unit == Pow2(32 - i) && v < Pow2(i)
    requires Picked(v, d, Pow2(i), count, |rules|)
    requires |words| == a && |addr| == 4 && addr[a] == v * unit % WORD
    requires forall w :: 0 <= w < 4 && w != a ==> addr[w] == if w < a then words[w] % WORD else 0
    ensures AllFrom6(rules + [Rule6(addr, 32 * a + i)], draws + [d + words], a, i, count)
  {
    hide From6, Picked, Pow2;
    RouteFrom6(a, i, count, |rules|, v, unit, d, words, addr);
  }

  /** The inner loop of gen_random_rt_6 when there is something to write. */
  method GenCells6(rand: Random, rt: array<Rule6>, a: nat, i: nat, count: nat, k: nat)
    returns (k': nat, ghost vals: seq<nat>, ghost draws: seq<seq<nat>>)
    requires a < 4 && 0 < i <= 32 && k + count <= rt.Length && count > 0
    modifies rand, rt
    ensures k' == k + count && Partial6(rt[k..k'], vals, a, i, Pow2(i), count)
    ensures rand.drawn == old(rand.drawn) + Concat(draws) && |draws| == count
    ensures AllFrom6(rt[k..k'], draws, a, i, count)
    ensures rt[..k] == old(rt[..k]) && rt[k'..] == old(rt[k'..])
  {
    hide Partial6, Drawn, Picked, Edge, Pow2, AllFrom6, Concat;
    var p := Shift(i);
    var unit := Shift(32 - i);
    var edge, step := 0.0, p as real / count as real;
    FirstEdge(p, count);
    k', vals, draws := k, [], [];
    NoneYet6(a, i, p, count);
    assert rt[k..k'] == [];
    var j := 0;
    while j < count
      invariant 0 <= j <= count && k' == k + j && edge == Edge(p, count, j)
      invariant Partial6(rt[k..k'], vals, a, i, p, count)
      invariant rand.drawn == old(rand.drawn) + Concat(draws) && |draws| == j
      invariant AllFrom6(rt[k..k'], draws, a, i, count)
      invariant rt[..k] == old(rt[..k]) && rt[k'..] == old(rt[k'..])
    {
      var rndVal, addr; ghost var d, words;
      rndVal, d := DrawOne(rand, edge, step, p, count, j);
      addr, words := CompleteV6Addr(rand, rndVal * unit % WORD, a);
      Partial6Append(rt[k..k'], vals, a, i, count, rndVal, unit, addr);
      NextFrom6(rt[k..k'], draws, a, i, count, rndVal, unit, d, words, addr);
      ConcatAppend(draws, d + words);
      ghost var done, later := rt[k..k'], rt[k'..];
      rt[k'] := Rule6(addr, 32 * a + i);
      vals, draws := vals + [rndVal], draws + [d + words];
      assert rt[k..k' + 1] == done + [rt[k']];
      assert rt[k' + 1..] == later[1..];
      j, k', edge := j + 1, k' + 1, edge + step;
    }
  }

  method GenDepth6(rand: Random, rt: array<Rule6>, a: nat, i: nat, count: nat, k: nat)
    returns (k': nat, ghost draws: seq<seq<nat>>)
    requires a < 4 && 0 < i <= 32 && k + count <= rt.Length
    modifies rand, rt
    ensures k' == k + count && Group6(rt[k..k'], a, i)
    ensures rt[..k] == old(rt[..k]) && rt[k'..] == old(rt[k'..])
    ensures rand.drawn == old(rand.drawn) + Concat(draws) && |draws| == count
    ensures count > 0 ==> AllFrom6(rt[k..k'], draws, a, i, count)
  {
    hide Partial6, Group6, AllFrom6, Pow2;
    if count == 0 {
      k', draws := k, [];
      NoRules6(rt[k..k'], a, i);
    } else {
      ghost var vals;
      k', vals, draws := GenCells6(rand, rt, a, i, count, k);
      GroupFromPartial6(rt[k..k'], vals, a, i);
    }
  }

  lemma NoRules6(rules: seq<Rule6>, a: nat, i: nat)
    requires a < 4 && 0 < i <= 32 && rules == []
    ensures Group6(rules, a, i) && Concat<nat>([]) == []
  {
    GroupFromNumbers(Word(rules, a, i), [], i);
  }

  lemma GroupFromPartial6(rules: seq<Rule6>, vals: seq<nat>, a: nat, i: nat)
    requires a < 4 && 0 < i <= 32 && rules != [] && Partial6(rules, vals, a, i, Pow2(i), |rules|)
    ensures Group6(rules, a, i)
  {
    GroupFromNumbers(Word(rules, a, i), vals, i);
  }

  /** The word and the bits of a depth from 1 to 128. */
  ghost predicate Group6At(rules: seq<Rule6>, depth: nat)
    requires 0 < depth <= 128
  {
    Group6(rules, (depth - 1) / 32, (depth - 1) % 32 + 1)
  }

  ghost predicate Groups6(table: seq<Rule6>, cnt: seq<nat>, n: nat)
    requires 0 < n <= |cnt| <= 129
  {
    && Start(cnt, n) <= |table|
    && (cnt[0] != 0 ==> table != [] && table[0] == Rule6([0, 0, 0, 0], 0))
    && forall i :: 0 < i < n ==> Group6At(OfDepth(table, cnt, i), i)
  }

  ghost predicate AllFrom6At(rules: seq<Rule6>, draws: seq<seq<nat>>, depth: nat, count: nat)
    requires 0 < depth <= 128 && count > 0
  {
    AllFrom6(rules, draws, (depth - 1) / 32, (depth - 1) % 32 + 1, count)
  }

  /** The same for IPv6. */
  ghost predicate Sources6(table: seq<Rule6>, draws: seq<seq<nat>>, cnt: seq<nat>, n: nat)
    requires 0 < n <= |cnt| <= 129
  {
    && |draws| == Start(cnt, n) <= |table|
    && (cnt[0] != 0 ==> draws != [] && draws[0] == [])
    && forall i :: 0 < i < n && cnt[i] > 0 ==>
         AllFrom6At(OfDepth(table, cnt, i), OfDepth(draws, cnt, i), i, cnt[i])
  }

  lemma NextSources6(before: seq<Rule6>, after: seq<Rule6>, draws: seq<seq<nat>>, more: seq<seq<nat>>, cnt: seq<nat>,
      n: nat)
    requires 0 < n < |cnt| <= 129 && |before| == |after| && Sources6(before, draws, cnt, n)
    requires var k := Start(cnt, n); k + cnt[n] <= |after| && after[..k] == before[..k]
    requires |more| == cnt[n]
    requires var k := Start(cnt, n); (cnt[n] > 0 ==> AllFrom6At(after[k..k + cnt[n]], more, n, cnt[n]))
    ensures Sources6(after, draws + more, cnt, n + 1)
  {
    hide AllFrom6At, From6, Pow2, OfDepth;
    StartGrows(cnt, 1, n);
    var k := Start(cnt, n);
    assert Start(cnt, n + 1) == k + cnt[n];
    hide Start;
    SameFirst(before, after, k);
    MoreDraws(draws, more);
    forall i | 0 < i < n && cnt[i] > 0
      ensures AllFrom6At(OfDepth(after, cnt, i), OfDepth(draws + more, cnt, i), i, cnt[i])
    {
      SamePart(before, after, cnt, i, n);
      SamePart(draws, draws + more, cnt, i, n);
    }
    NewPart(after, cnt, n);
    NewPart(draws + more, cnt, n);
  }

  /** Route `t` of depth 32 * a + i: its word `a` as for IPv4, and the words in front as drawn. */
  lemma SourceAt6(table: seq<Rule6>, draws: seq<seq<nat>>, cnt: seq<nat>, a: nat, i: nat, t: nat, lo: nat, hi: nat)
    requires |cnt| == 129 && Sources6(table, draws, cnt, 129) && a < 4 && 0 < i <= 32 && t < cnt[32 * a + i]
    requires lo == t * Pow2(i) / cnt[32 * a + i] && hi == (t + 1) * Pow2(i) / cnt[32 * a + i]
    ensures Start(cnt, 32 * a + i) + t < |draws| == Start(cnt, 129) <= |table|
    ensures var rule, d := table[Start(cnt, 32 * a + i) + t], draws[Start(cnt, 32 * a + i) + t];
            && rule.depth == 32 * a + i && |rule.addr| == 4 && |d| == (if lo >= hi then 0 else 1) + a
            && rule.addr[a] == (if lo >= hi then lo else lo + d[0] % (hi - lo)) * Pow2(32 - i)
            && (forall w :: 0 <= w < a ==> rule.addr[w] == d[|d| - a + w] % 0x1_0000_0000)
            && forall w :: a < w < 4 ==> rule.addr[w] == 0
  {
    var n := 32 * a + i;
    hide Pow2, From6, Sources6, Start;
    At6(table, draws, cnt, n, a, i, t);
    From6Is(table[Start(cnt, n) + t], draws[Start(cnt, n) + t], a, i, cnt[n], t, lo, hi);
  }

  lemma WordOfDepth(rules: seq<Rule6>, draws: seq<seq<nat>>, a: nat, i: nat, count: nat)
    requires a < 4 && 0 < i <= 32 && count > 0
    ensures AllFrom6At(rules, draws, 32 * a + i, count) <==> AllFrom6(rules, draws, a, i, count)
  {
    hide AllFrom6;
    assert (32 * a + i - 1) / 32 == a && (32 * a + i - 1) % 32 + 1 == i;
  }

  lemma At6(table: seq<Rule6>, draws: seq<seq<nat>>, cnt: seq<nat>, n: nat, a: nat, i: nat, t: nat)
    requires |cnt| == 129 && Sources6(table, draws, cnt, 129) && a < 4 && 0 < i <= 32 && n == 32 * a + i && t < cnt[n]
    ensures Start(cnt, n) + t < |draws| == Start(cnt, 129) <= |table|
    ensures From6(table[Start(cnt, n) + t], draws[Start(cnt, n) + t], a, i, cnt[n], t)
  {
    hide From6, AllFrom6At, Pow2;
    StartGrows(cnt, n + 1, 129);
    var s := Start(cnt, n) + t;
    assert Start(cnt, n + 1) == Start(cnt, n) + cnt[n];
    hide Start;
    assert AllFrom6At(OfDepth(table, cnt, n), OfDepth(draws, cnt, n), n, cnt[n]);
    WordOfDepth(OfDepth(table, cnt, n), OfDepth(draws, cnt, n), a, i, cnt[n]);
    assert OfDepth(table, cnt, n)[t] == table[s] && OfDepth(draws, cnt, n)[t] == draws[s];
  }

  lemma From6Is(rule: Rule6, d: seq<nat>, a: nat, i: nat, count: nat, t: nat, lo: nat, hi: nat)
    requires a < 4 && i <= 32 && count > 0 && From6(rule, d, a, i, count, t)
    requires lo == t * Pow2(i) / count && hi == (t + 1) * Pow2(i) / count
    ensures |rule.addr| == 4 && |d| == (if lo >= hi then 0 else 1) + a && rule.depth == 32 * a + i
    ensures rule.addr[a] == (if lo >= hi then lo else lo + d[0] % (hi - lo)) * Pow2(32 - i)
    ensures forall w :: 0 <= w < a ==> rule.addr[w] == d[|d| - a + w] % 0x1_0000_0000
    ensures forall w :: a < w < 4 ==> rule.addr[w] == 0
  {
    assert lo == Lower(Pow2(i), count, t) && hi == Lower(Pow2(i), count, t + 1);
    hide Pow2, Lower;
  }

  lemma NextGroup6(before: seq<Rule6>, after: seq<Rule6>, cnt: seq<nat>, n: nat)
    requires 0 < n < |cnt| <= 129 && |before| == |after| && Groups6(before, cnt, n)
    requires var k := Start(cnt, n); k + cnt[n] <= |after| && after[..k] == before[..k]
                                     && Group6At(after[k..k + cnt[n]], n)
    ensures Groups6(after, cnt, n + 1)
  {
    hide Group6At, OfDepth;
    StartGrows(cnt, 1, n);
    SameFirst(before, after, Start(cnt, n));
    forall i | 0 < i < n ensures Group6At(OfDepth(after, cnt, i), i) {
      SamePart(before, after, cnt, i, n);
    }
    NewPart(after, cnt, n);
  }

  /** The routes of one depth, if the table has room for them. */
  method GenNext6(rand: Random, rt: array<Rule6>, cnt: seq<nat>, a: nat, i: nat, k: nat, ghost draws: seq<seq<nat>>)
    returns (ok: bool, k': nat, ghost more: seq<seq<nat>>)
    requires |cnt| == 129 && a < 4 && 1 <= i <= 32
    requires k == Start(cnt, 32 * a + i) && Groups6(rt[..], cnt, 32 * a + i)
    requires Sources6(rt[..], draws, cnt, 32 * a + i)
    modifies rand, rt
    ensures !ok ==> rt.Length < Start(cnt, 129)
    ensures ok ==> Sources6(rt[..], draws + more, cnt, 32 * a + i + 1)
    ensures ok ==> rand.drawn == old(rand.drawn) + Concat(more)
    ensures Concat(draws + more) == Concat(draws) + Concat(more)
    ensures ok ==> k <= k' == Start(cnt, 32 * a + i + 1) && Groups6(rt[..], cnt, 32 * a + i + 1)
    ensures ok ==> rt[k'..] == old(rt[k'..])
  {
    hide Group6, From6, AllFrom6, Pow2, Sources6, Groups6, Concat;
    assert (32 * a + i - 1) / 32 == a && (32 * a + i - 1) % 32 + 1 == i;
    StartGrows(cnt, 32 * a + i + 1, 129);
    if k + cnt[32 * a + i] > rt.Length {
      ConcatConcat(draws, []);
      return false, k, [];
    }
    ghost var before := rt[..];
    k', more := GenDepth6(rand, rt, a, i, cnt[32 * a + i], k);
    NextSources6(before, rt[..], draws, more, cnt, 32 * a + i);
    ConcatConcat(draws, more);
    NextGroup6(before, rt[..], cnt, 32 * a + i);
    ok := true;
  }

  /** The default route, if there is to be one. */
  method GenDefault6(rt: array<Rule6>, cnt: seq<nat>) returns (ok: bool, k: nat, ghost draws: seq<seq<nat>>)
    requires |cnt| == 129
    modifies rt
    ensures !ok ==> rt.Length < Start(cnt, 129)
    ensures ok ==> Sources6(rt[..], draws, cnt, 1) && Concat(draws) == []
    ensures ok ==> k == Start(cnt, 1) && Groups6(rt[..], cnt, 1) && rt[k..] == old(rt[k..])
  {
    StartGrows(cnt, 1, 129);
    k, draws := 0, [];
    if cnt[0] != 0 {
      if rt.Length == 0 {
        return false, k, draws;
      }
      rt[k] := Rule6([0, 0, 0, 0], 0);
      k, draws := k + 1, [[]];
    }
    ok := true;
  }

  lemma NoneDrawn(draws: seq<seq<nat>>)
    ensures draws + [] == draws && Concat<nat>([]) == []
  {
  }

  lemma Joined(draws: seq<seq<nat>>, more: seq<seq<nat>>, next: seq<seq<nat>>, all: seq<seq<nat>>)
    requires all == more + next
    ensures draws + more + next == draws + all
    ensures Concat(all) == Concat(more) + Concat(next)
    ensures Concat(draws + all) == Concat(draws) + Concat(all)
  {
    hide Concat;
    ConcatConcat(more, next);
    ConcatConcat(draws, all);
    ConcatAssociates(draws, more, next);
  }

  /** The routes of the 32 depths that end in word `a`. */
  method GenWord6(rand: Random, rt: array<Rule6>, cnt: seq<nat>, a: nat, k: nat, ghost draws: seq<seq<nat>>)
    returns (ok: bool, k': nat, ghost more: seq<seq<nat>>)
    requires |cnt| == 129 && a < 4
    requires k == Start(cnt, 32 * a + 1) && Groups6(rt[..], cnt, 32 * a + 1)
    requires Sources6(rt[..], draws, cnt, 32 * a + 1)
    modifies rand, rt
    ensures ok ==> Sources6(rt[..], draws + more, cnt, 32 * a + 33)
    ensures ok ==> rand.drawn == old(rand.drawn) + Concat(more)
    ensures Concat(draws + more) == Concat(draws) + Concat(more)
    ensures !ok ==> rt.Length < Start(cnt, 129)
    ensures ok ==> k <= k' == Start(cnt, 32 * a + 33) && Groups6(rt[..], cnt, 32 * a + 33)
    ensures ok ==> k' <= rt.Length && rt[k'..] == old(rt[k'..])
  {
    hide Groups6, Sources6, Concat, Start;
    WithinTable(rt[..], cnt, 32 * a + 1);
    ok, k', more := true, k, [];
    NoneDrawn(draws);
    var i := 1;
    while i <= 32
      invariant 1 <= i <= 33 && ok && k <= k' == Start(cnt, 32 * a + i) && Groups6(rt[..], cnt, 32 * a + i)
      invariant k' <= rt.Length && rt[k'..] == old(rt[k'..])
      invariant Sources6(rt[..], draws + more, cnt, 32 * a + i)
      invariant rand.drawn == old(rand.drawn) + Concat(more) && Concat(draws + more) == Concat(draws) + Concat(more)
    {
      ghost var before, m := rt[..], k';
      ghost var next;
      ok, k', next := GenNext6(rand, rt, cnt, a, i, k', draws + more);
      Joined(draws, more, next, more + next);
      more := more + next;
      if !ok {
        return;
      }
      WithinTable(rt[..], cnt, 32 * a + i + 1);
      SameBehind(old(rt[..]), before, rt[..], m, k');
      i := i + 1;
    }
  }

  lemma WithinTable(table: seq<Rule6>, cnt: seq<nat>, n: nat)
    requires 0 < n <= |cnt| <= 129 && Groups6(table, cnt, n)
    ensures Start(cnt, n) <= |table|
  {
  }

  /** gen_random_rt_6; as for IPv4 the model stops before a depth that the table has no room for. */
  method GenRandomRt6(rand: Random, rt: array<Rule6>, cnt: seq<nat>)
    returns (ok: bool, k: nat, ghost draws: seq<seq<nat>>)
    requires |cnt| == 129
    modifies rand, rt
    ensures ok <==> Start(cnt, 129) <= rt.Length
    ensures ok ==> rand.drawn == old(rand.drawn) + Concat(draws) && Sources6(rt[..], draws, cnt, 129)
    ensures ok ==> k == Start(cnt, 129) && Groups6(rt[..], cnt, 129) && rt[k..] == old(rt[k..])
  {
    hide Groups6, Sources6, Concat;
    ok, k, draws := GenDefault6(rt, cnt);
    if !ok {
      return;
    }
    WithinTable(rt[..], cnt, 1);
    var a := 0;
    while a < 4
      invariant 0 <= a <= 4 && ok && k == Start(cnt, 32 * a + 1) <= rt.Length && Groups6(rt[..], cnt, 32 * a + 1)
      invariant rt[k..] == old(rt[k..])
      invariant rand.drawn == old(rand.drawn) + Concat(draws) && Sources6(rt[..], draws, cnt, 32 * a + 1)
    {
      ghost var before, m := rt[..], k;
      ghost var more;
      ok, k, more := GenWord6(rand, rt, cnt, a, k, draws);
      draws := draws + more;
      if !ok {
        return;
      }
      SameBehind(old(rt[..]), before, rt[..], m, k);
      a := a + 1;
    }
  }

  /** With at most one route at depth 0 the slots written are as many as the routes. */
  lemma SlotsFit(cnt: seq<nat>, n: nat, asked: nat)
    requires cnt != [] && (Sum(cnt) <= n <==> asked < WORD)
    ensures cnt[0] <= 1 ==> Start(cnt, |cnt|) == Sum(cnt) && (Start(cnt, |cnt|) <= n <==> asked < WORD)
    ensures asked < WORD ==> Start(cnt, |cnt|) <= n
  {
    SlotsAreSum(cnt, |cnt|);
    assert cnt[..|cnt|] == cnt;
  }

  /** At most one route is asked for at depth 0. */
  ghost predicate OneAtZero(n: nat, rpd: seq<nat>, nrpd: seq<nat>)
    requires rpd != [] && nrpd != []
  {
    rpd[0] == 0 || Configured(n, rpd[0], nrpd[0]) <= 1
  }

  /**
   * The routes of any distribution the user gives: with at most one at depth 0 the table of `n`
   * entries has room for them exactly if the total asked for does not wrap. They fill it if the
   * deepest depth is left free.
   */
  method GenUser4(rand: Random, config: Config, rt: array<Rule4>, rpd: seq<nat>, nrpd: seq<nat>)
    returns (ok: bool, fits: bool, k: nat, ghost draws: seq<seq<nat>>)
    requires Shape(32, rt.Length, rpd, nrpd) && config.cnt.Length == 129
    modifies rand, config.cnt, rt
    ensures ok <==> Asked(rt.Length, rpd, nrpd, 33) % WORD <= rt.Length
    ensures forall j :: 0 <= j <= 32 && rpd[j] != 0 ==>
              config.cnt[j] == Configured(rt.Length, rpd[j], nrpd[j])
    ensures ok ==> (fits <==> Start(config.cnt[..33], 33) <= rt.Length)
    ensures ok && OneAtZero(rt.Length, rpd, nrpd) ==> (fits <==> Asked(rt.Length, rpd, nrpd, 33) < WORD)
    ensures ok && fits ==> k == Start(config.cnt[..33], 33) && Groups4(rt[..], config.cnt[..33], 33)
    ensures ok && fits ==> rand.drawn == old(rand.drawn) + Concat(draws)
    ensures ok && fits ==> Sources4(rt[..], draws, config.cnt[..33], 33)
    ensures ok && Asked(rt.Length, rpd, nrpd, 33) < WORD ==> fits
    ensures ok && Asked(rt.Length, rpd, nrpd, 33) < WORD && rpd[32] == 0 ==>
      && Sum(config.cnt[..33]) == rt.Length
      && k == if config.cnt[0] <= 1 then rt.Length else rt.Length - config.cnt[0] + 1
  {
    hide Groups4, Sources4, Concat, Configured, Room, FairShare, Asked, Start, Pow2;
    fits, k, draws := false, 0, [];
    ok := config.CompleteDistrib(32, rt.Length, rpd, nrpd);
    if !ok {
      return;
    }
    var cnt := config.cnt[..33];
    NoneAtZero();
    AtZero(rt.Length, rpd, nrpd, cnt[0]);
    SlotsFit(cnt, rt.Length, Asked(rt.Length, rpd, nrpd, 33));
    assert cnt[..33] == cnt;
    SlotsLost(cnt, 33);
    FreeAt(rpd, 32);
    fits, k, draws := GenRandomRt4(rand, rt, cnt);
  }

  lemma NoneAtZero()
    ensures Pow2(0) == 1
  {
  }

  lemma AtZero(n: nat, rpd: seq<nat>, nrpd: seq<nat>, count: nat)
    requires rpd != [] && nrpd != []
    requires rpd[0] != 0 ==> count == Configured(n, rpd[0], nrpd[0])
    requires rpd[0] == 0 ==> count <= 1
    ensures OneAtZero(n, rpd, nrpd) <==> count <= 1
  {
  }

  lemma FreeAt(rpd: seq<nat>, e: nat)
    requires |rpd| == e + 1
    ensures rpd[e] == 0 ==> Deepest(rpd, e)
  {
  }

  /** All but one of the routes of depth 0 are lost. */
  lemma {:induction false} SlotsLost(cnt: seq<nat>, i: nat)
    requires 0 < i <= |cnt|
    ensures Start(cnt, i) == Sum(cnt[..i]) - (if cnt[0] <= 1 then 0 else cnt[0] - 1)
  {
    assert cnt[..i][..i - 1] == cnt[..i - 1];
    if i == 1 {
      assert Sum(cnt[..0]) == 0;
    } else {
      SlotsLost(cnt, i - 1);
    }
  }

  /** The same for IPv6. */
  method GenUser6(rand: Random, config: Config, rt: array<Rule6>, rpd: seq<nat>, nrpd: seq<nat>)
    returns (ok: bool, fits: bool, k: nat, ghost draws: seq<seq<nat>>)
    requires Shape(128, rt.Length, rpd, nrpd) && config.cnt.Length == 129
    modifies rand, config.cnt, rt
    ensures ok <==> Asked(rt.Length, rpd, nrpd, 129) % WORD <= rt.Length
    ensures forall j :: 0 <= j <= 128 && rpd[j] != 0 ==>
              config.cnt[j] == Configured(rt.Length, rpd[j], nrpd[j])
    ensures ok ==> (fits <==> Start(config.cnt[..], 129) <= rt.Length)
    ensures ok && OneAtZero(rt.Length, rpd, nrpd) ==> (fits <==> Asked(rt.Length, rpd, nrpd, 129) < WORD)
    ensures ok && fits ==> k == Start(config.cnt[..], 129) && Groups6(rt[..], config.cnt[..], 129)
    ensures ok && fits ==> rand.drawn == old(rand.drawn) + Concat(draws) && Sources6(rt[..], draws, config.cnt[..], 129)
    ensures ok && Asked(rt.Length, rpd, nrpd, 129) < WORD ==> fits
    ensures ok && Asked(rt.Length, rpd, nrpd, 129) < WORD && rpd[128] == 0 ==>
      && Sum(config.cnt[..]) == rt.Length
      && k == if config.cnt[0] <= 1 then rt.Length else rt.Length - config.cnt[0] + 1
  {
    hide Groups6, Sources6, Concat, Configured, Room, FairShare, Asked, Start, Pow2;
    fits, k, draws := false, 0, [];
    ok := config.CompleteDistrib(128, rt.Length, rpd, nrpd);
    if !ok {
      return;
    }
    var cnt := config.cnt[..];
    assert config.cnt[..129] == cnt;
    NoneAtZero();
    AtZero(rt.Length, rpd, nrpd, cnt[0]);
    SlotsFit(cnt, rt.Length, Asked(rt.Length, rpd, nrpd, 129));
    assert cnt[..129] == cnt;
    SlotsLost(cnt, 129);
    FreeAt(rpd, 128);
    fits, k, draws := GenRandomRt6(rand, rt, cnt);
  }

  /** A distribution with two routes at depth 0 leaves a slot of the table of ten unwritten. */
  method TwoAtZero(rand: Random, config: Config, rt: array<Rule4>) returns (ok: bool, fits: bool, k: nat)
    requires rt.Length == 10 && config.cnt.Length == 129
    modifies rand, config.cnt, rt
    ensures ok && fits && k == 9
  {
    var rpd := seq(33, j => if j == 0 then ABSOLUTE else 0);
    var nrpd := seq(33, j => if j == 0 then 2 else 0);
    AskedAtZero(10, rpd, nrpd, 33);
    ghost var draws;
    ok, fits, k, draws := GenUser4(rand, config, rt, rpd, nrpd);
  }

  /** A distribution that passes because its total wraps does not fit the table of ten. */
  method WrapOverruns(rand: Random, config: Config, rt: array<Rule4>) returns (ok: bool, fits: bool, k: nat)
    requires rt.Length == 10 && config.cnt.Length == 129
    modifies rand, config.cnt, rt
    ensures ok && !fits
  {
    AskedTwice(10, 0x8000_0000);
    ghost var draws;
    ok, fits, k, draws := GenUser4(rand, config, rt, AtTheDeepest(ABSOLUTE), AtTheDeepest(0x8000_0000));
  }

  /** Four routes of depth 24 in a table of four: the second begins a quarter into the numbers. */
  method FourRoutes(rand: Random, rt: array<Rule4>) returns (ghost draws: seq<seq<nat>>)
    requires rt.Length == 4
    modifies rand, rt
    ensures |draws| == 4 && rand.drawn == old(rand.drawn) + draws[0] + draws[1] + draws[2] + draws[3]
    ensures |draws[1]| == 1 && rt[1] == Rule4((4194304 + draws[1][0] % 4194304) * 256, 24)
  {
    hide Groups4, Sources4, Start, Pow2, Concat;
    var cnt := seq(33, j => if j == 24 then 4 else 0);
    StartOfOne(cnt, 24, 24);
    StartOfOne(cnt, 24, 33);
    var ok, k;
    ok, k, draws := GenRandomRt4(rand, rt, cnt);
    PowersOf24();
    SourceAt4(rt[..], draws, cnt, 24, 1, 4194304, 8388608);
    ConcatFour(draws);
  }

  /** Four routes of depth 64 for IPv6: one number for the second word, and before it the first. */
  method FourRoutes6(rand: Random, rt: array<Rule6>) returns (ghost draws: seq<seq<nat>>)
    requires rt.Length == 4
    modifies rand, rt
    ensures |draws| == 4 && rand.drawn == old(rand.drawn) + draws[0] + draws[1] + draws[2] + draws[3]
    ensures |draws[1]| == 2
    ensures rt[1] == Rule6([draws[1][1] % 0x1_0000_0000, 1073741824 + draws[1][0] % 1073741824, 0, 0], 64)
  {
    hide Groups6, Sources6, Start, Pow2, Concat;
    var cnt := seq(129, j => if j == 64 then 4 else 0);
    StartOfOne(cnt, 64, 64);
    StartOfOne(cnt, 64, 129);
    var ok, k;
    ok, k, draws := GenRandomRt6(rand, rt, cnt);
    Pow2At32();
    SourceAt6(rt[..], draws, cnt, 1, 32, 1, 1073741824, 2147483648);
    NoneAtZero();
    ConcatFour(draws);
  }

  lemma {:induction false} StartOfOne(cnt: seq<nat>, depth: nat, i: nat)
    requires 0 < depth < |cnt| && 0 < i <= |cnt| && forall j :: 0 <= j < |cnt| && j != depth ==> cnt[j] == 0
    ensures Start(cnt, i) == if i <= depth then 0 else cnt[depth]
  {
    if i > 1 {
      StartOfOne(cnt, depth, i - 1);
    }
  }

  lemma PowersOf24()
    ensures Pow2(24) == 16777216 && Pow2(8) == 256
  {
    assert Pow2(8) == 256;
    hide Pow2;
    Pow2Add(8, 8);
    Pow2Add(16, 8);
  }

  lemma ConcatFour<T>(parts: seq<seq<T>>)
    requires |parts| == 4
    ensures Concat(parts) == parts[0] + parts[1] + parts[2] + parts[3]
  {
    assert parts[..3][..2] == parts[..2] && parts[..2][..1] == parts[..1] && parts[..1][..0] == [];
    assert Concat(parts[..1]) == parts[0] && Concat(parts[..2]) == parts[0] + parts[1];
  }

  lemma {:induction false} AskedAtZero(n: nat, rpd: seq<nat>, nrpd: seq<nat>, i: nat)
    requires 0 < i <= |rpd| == |nrpd| && rpd[0] == ABSOLUTE && forall j :: 0 < j < i ==> rpd[j] == 0
    ensures Asked(n, rpd, nrpd, i) == nrpd[0]
  {
    if i > 1 {
      AskedAtZero(n, rpd, nrpd, i - 1);
    } else {
      assert Asked(n, rpd, nrpd, 0) == 0;
    }
  }

  /**
   * Without a distribution from the user the table of `n` entries is filled exactly, and at every
   * depth the prefixes are distinct.
   */
  method GenDefault4(rand: Random, config: Config, rt: array<Rule4>) returns (k: nat, ghost draws: seq<seq<nat>>)
    requires rt.Length < WORD && config.cnt.Length == 129
    modifies rand, config.cnt, rt
    ensures k == rt.Length && Groups4(rt[..], config.cnt[..33], 33)
    ensures rand.drawn == old(rand.drawn) + Concat(draws) && Sources4(rt[..], draws, config.cnt[..33], 33)
    ensures forall i :: 0 < i < 33 ==> AddrsIncrease(OfDepth(rt[..], config.cnt[..33], i))
  {
    hide Groups4, Sources4, Concat;
    var ok := DefaultDistribution(config, 32, rt.Length);
    var cnt := config.cnt[..33];
    FitsDefault(cnt, rt.Length);
    ok, k, draws := GenRandomRt4(rand, rt, cnt);
    forall i | 0 < i < 33 ensures AddrsIncrease(OfDepth(rt[..], cnt, i)) {
      DistinctAtDepth(rt[..], cnt, i);
    }
  }

  lemma FitsDefault(cnt: seq<nat>, n: nat)
    requires |cnt| == 33 && Sum(cnt) == n && cnt[0] <= Room(0)
    ensures Start(cnt, 33) == n
  {
    SlotsAreSum(cnt, 33);
    assert cnt[..33] == cnt;
    assert Room(0) == 1;
  }

  lemma DistinctAtDepth(table: seq<Rule4>, cnt: seq<nat>, i: nat)
    requires |cnt| == 33 && Groups4(table, cnt, 33) && 0 < i < 33 && cnt[i] <= Room(i)
    ensures AddrsIncrease(OfDepth(table, cnt, i))
  {
    StartGrows(cnt, i + 1, 33);
    assert Group4(OfDepth(table, cnt, i), i);
  }
}
