/** How test-fib spreads the routes over the prefix depths (complete_distrib in test-fib/main.c). */
module FibDistrib {
  import opened Util
  import opened Orders
  import FibBatches

  const WORD := 0x1_0000_0000

  /** Marks a depth whose number of routes is given outright. */
  const ABSOLUTE := 255

  /** A percentage of the routes; the product wraps at 32 bits. */
  function Ratio(n: nat, percent: nat): (c: nat)
  {
    (n * percent) % WORD / 100
  }

  /** The number of routes a user asks for at a depth. */
  function Configured(n: nat, ratio: nat, number: nat): (c: nat)
  {
    if ratio == ABSOLUTE then number else Ratio(n, ratio)
  }

  ghost predicate Shape(lim: nat, n: nat, rpd: seq<nat>, nrpd: seq<nat>)
  {
    && n < WORD && |rpd| == |nrpd| == lim + 1
    && forall j :: 0 <= j <= lim ==> rpd[j] <= ABSOLUTE && nrpd[j] < WORD
  }

  /** What the user asks for at the first `k` depths, without wrap-around. */
  ghost function Asked(n: nat, rpd: seq<nat>, nrpd: seq<nat>, k: nat): (sum: nat)
    requires k <= |rpd| == |nrpd|
  {
    if k == 0 then 0
    else Asked(n, rpd, nrpd, k - 1) + if rpd[k - 1] != 0 then Configured(n, rpd[k - 1], nrpd[k - 1]) else 0
  }

  /** What the first `k` depths get where the user asks for nothing. */
  ghost function Filled(cnt: seq<nat>, rpd: seq<nat>, k: nat): (sum: nat)
    requires k <= |rpd| <= |cnt|
  {
    if k == 0 then 0 else Filled(cnt, rpd, k - 1) + if rpd[k - 1] == 0 then cnt[k - 1] else 0
  }

  /** The number of depths among the first `k` that are specified. */
  ghost function Specified(rpd: seq<nat>, k: nat): (m: nat)
    requires k <= |rpd|
    ensures m <= k
    ensures (exists j :: 0 <= j < k && rpd[j] == 0) ==> m < k
  {
    if k == 0 then 0 else Specified(rpd, k - 1) + if rpd[k - 1] != 0 then 1 else 0
  }

  lemma {:induction false} FilledSame(a: seq<nat>, b: seq<nat>, rpd: seq<nat>, k: nat)
    requires k <= |rpd| <= |a| && |a| == |b| && forall j :: 0 <= j < k ==> a[j] == b[j]
    ensures Filled(a, rpd, k) == Filled(b, rpd, k)
  {
    if k > 0 {
      FilledSame(a, b, rpd, k - 1);
    }
  }

  lemma NothingFilled(cnt: seq<nat>, rpd: seq<nat>)
    requires |rpd| <= |cnt|
    ensures Filled(cnt, rpd, 0) == 0 && Specified(rpd, 0) == 0
  {
  }

  /** One more depth. */
  lemma NextDepth(cnt: seq<nat>, rpd: seq<nat>, k: nat)
    requires k < |rpd| <= |cnt|
    ensures Filled(cnt, rpd, k + 1) == Filled(cnt, rpd, k) + if rpd[k] == 0 then cnt[k] else 0
    ensures Specified(rpd, k + 1) == Specified(rpd, k) + if rpd[k] != 0 then 1 else 0
  {
  }

  /** All routes are those asked for and those filled in. */
  lemma {:induction false} SumSplits(n: nat, rpd: seq<nat>, nrpd: seq<nat>, cnt: seq<nat>, k: nat)
    requires k <= |rpd| == |nrpd| <= |cnt|
    requires forall j :: 0 <= j < k && rpd[j] != 0 ==> cnt[j] == Configured(n, rpd[j], nrpd[j])
    ensures Sum(cnt[..k]) == Asked(n, rpd, nrpd, k) + Filled(cnt, rpd, k)
  {
    if k > 0 {
      SumSplits(n, rpd, nrpd, cnt, k - 1);
      assert cnt[..k][..k - 1] == cnt[..k - 1];
    }
  }

  /** The most routes of one depth. */
  ghost function Room(depth: nat): (r: nat)
    ensures r > 0
  {
    Pow2(Min(depth, 63))
  }

  lemma RoomIs(depth: nat)
    ensures Room(depth) == Pow2(Min(depth, 63))
  {
  }

  /** An equal share of what is left. */
  function Average(left: nat, depths: nat): (avg: nat)
    requires depths > 0
    ensures avg <= left && (depths == 1 ==> avg == left)
  {
    ShareIsPart(left, depths);
    left / depths
  }

  lemma ShareIsPart(left: nat, depths: nat)
    requires depths > 0
    ensures left / depths <= left
  {
    MulLe(1, depths, left / depths);
  }

  /** What every free depth can have at once. */
  ghost function FairShare(left: nat, depths: nat): (share: nat)
    ensures share * depths <= left
  {
    if depths == 0 then 0 else left / depths
  }

  /** Who takes no more than the average leaves enough for the others to get `share` each. */
  lemma OthersKeepShare(left: nat, depths: nat, share: nat, taken: nat)
    requires depths > 0 && share * depths <= left && taken <= Average(left, depths)
    ensures share <= Average(left, depths)
    ensures share * (depths - 1) <= left - taken
  {
    var avg := left / depths;
    assert left == avg * depths + left % depths;
    assert (avg + 1) * depths == avg * depths + depths;
    MulCancel(share, avg + 1, depths);
    assert avg * depths == avg * (depths - 1) + avg;
    MulLe(share, avg, depths - 1);
  }

  /** `q` routes for each of the depths left are there; not one more for each if `q` could have been more. */
  ghost predicate Leaves(q: nat, room: nat, rest: nat, depths: nat)
  {
    && q * depths <= rest
    && (q < room ==> FibBatches.Left(rest, depths, q))
  }

  /** The next depth gets no fewer routes than one before, and at most one more than one with room. */
  lemma TakeNext(q: nat, room: nat, rest: nat, depths: nat, roomNext: nat, taken: nat)
    requires depths > 0 && Leaves(q, room, rest, depths) && q <= room <= roomNext
    requires taken == Min(roomNext, Average(rest, depths))
    ensures q <= taken <= rest && (q < room ==> taken <= q + 1)
    ensures Leaves(q, room, rest - taken, depths - 1)
  {
    OthersKeepShare(rest, depths, q, taken);
    if q < room {
      FibBatches.NextBatch(rest, depths, q);
    }
  }

  lemma TakeFirst(rest: nat, depths: nat, room: nat, taken: nat)
    requires depths > 0 && taken == Min(room, Average(rest, depths))
    ensures Leaves(taken, room, rest - taken, depths - 1)
  {
    var avg := rest / depths;
    FibBatches.FirstBatch(rest, depths);
    MulLe(taken, avg, depths);
    OthersKeepShare(rest, depths, taken, taken);
    if taken < room {
      FibBatches.NextBatch(rest, depths, avg);
    }
  }

  /** Deeper free depths have no fewer routes, and at most one more than one with room for more. */
  ghost predicate Level(cnt: seq<nat>, rpd: seq<nat>, k: nat)
    requires k <= |rpd| <= |cnt|
  {
    forall i, j :: 0 <= i < j < k && rpd[i] == rpd[j] == 0 ==>
      cnt[i] <= cnt[j] && (cnt[i] < Room(i) ==> cnt[j] <= cnt[i] + 1)
  }

  /** Between two depths: what every free depth so far leaves to the others. */
  ghost predicate AllLeave(cnt: seq<nat>, rpd: seq<nat>, k: nat, rest: nat, depths: nat)
    requires k <= |rpd| <= |cnt|
  {
    forall i :: 0 <= i < k && rpd[i] == 0 ==> cnt[i] <= Room(i) && Leaves(cnt[i], Room(i), rest, depths)
  }

  lemma StillLevel(cnt: seq<nat>, now: seq<nat>, rpd: seq<nat>, k: nat, rest: nat, depths: nat, taken: nat)
    requires k < |rpd| <= |cnt| == |now| && rpd[k] == 0 && depths > 0 && now == cnt[k := taken]
    requires Level(cnt, rpd, k) && AllLeave(cnt, rpd, k, rest, depths)
    requires taken == Min(Room(k), Average(rest, depths))
    ensures taken <= rest
    ensures Level(now, rpd, k + 1) && AllLeave(now, rpd, k + 1, rest - taken, depths - 1)
  {
    hide Room, Average, Leaves;
    TakeFirst(rest, depths, Room(k), taken);
    forall i | 0 <= i < k && rpd[i] == 0
      ensures cnt[i] <= taken && (cnt[i] < Room(i) ==> taken <= cnt[i] + 1)
      ensures Leaves(cnt[i], Room(i), rest - taken, depths - 1)
    {
      RoomGrows(i, k);
      TakeNext(cnt[i], Room(i), rest, depths, Room(k), taken);
    }
  }

  /** A depth the user specified changes nothing. */
  lemma LevelSkips(cnt: seq<nat>, rpd: seq<nat>, k: nat, rest: nat, depths: nat)
    requires k < |rpd| <= |cnt|
    requires Level(cnt, rpd, k) && AllLeave(cnt, rpd, k, rest, depths)
    ensures rpd[k] != 0 ==> Level(cnt, rpd, k + 1) && AllLeave(cnt, rpd, k + 1, rest, depths)
  {
  }

  lemma LevelFirst(cnt: seq<nat>, rpd: seq<nat>, rest: nat, depths: nat)
    requires |rpd| <= |cnt|
    ensures Level(cnt, rpd, 0) && AllLeave(cnt, rpd, 0, rest, depths)
  {
  }

  lemma LevelIs(cnt: seq<nat>, rpd: seq<nat>)
    requires |rpd| <= |cnt| && Level(cnt, rpd, |rpd|)
    ensures forall i, j :: 0 <= i < j < |rpd| && rpd[i] == rpd[j] == 0 ==>
              cnt[i] <= cnt[j] && (cnt[i] < Pow2(Min(i, 63)) ==> cnt[j] <= cnt[i] + 1)
    ensures forall j :: 0 <= j < |rpd| ==> Room(j) == Pow2(Min(j, 63))
  {
  }

  /** Routes are left only if every free depth is full, since the deepest has the most room. */
  lemma AllFull(cnt: seq<nat>, rpd: seq<nat>, n: nat)
    requires |rpd| <= |cnt| && n < WORD && Level(cnt, rpd, |rpd|)
    requires forall j :: 0 <= j < |rpd| && rpd[j] == 0 ==> cnt[j] <= Room(j)
    requires forall e :: 0 <= e < |rpd| && Deepest(rpd, e) ==> cnt[e] == Room(e) < n
    ensures forall j :: 0 <= j < |rpd| && rpd[j] == 0 ==> cnt[j] == Room(j)
  {
    hide Room;
    forall j | 0 <= j < |rpd| && rpd[j] == 0 ensures cnt[j] == Room(j) {
      var e := DeepestFrom(rpd, j);
      if e >= 32 {
        RoomForAll(e);
      }
      RoomGrows(j, e);
    }
  }

  /** The deepest free depth. */
  lemma DeepestFrom(rpd: seq<nat>, j: nat) returns (e: nat)
    requires j < |rpd| && rpd[j] == 0
    ensures j <= e < |rpd| && Deepest(rpd, e)
    decreases |rpd| - j
  {
    if i :| j < i < |rpd| && rpd[i] == 0 {
      e := DeepestFrom(rpd, i);
    } else {
      e := j;
    }
  }

  lemma DeepestIs(rpd: seq<nat>, depth: nat)
    requires depth < |rpd|
    ensures Deepest(rpd, depth) ==> rpd[depth] == 0 && forall j :: depth < j < |rpd| ==> rpd[j] != 0
    ensures forall e :: 0 <= e < depth && Deepest(rpd, e) ==> rpd[depth] != 0
  {
  }

  lemma RoomGrows(i: nat, k: nat)
    requires i <= k
    ensures Room(i) <= Room(k)
    ensures i < k <= 63 ==> Room(i) < Room(k)
  {
    Pow2Le(Min(i, 63), Min(k, 63));
    if i < k <= 63 {
      Pow2Le(i + 1, k);
    }
  }

  /** There is only one level filling of the free depths with a given number of routes. */
  lemma OneFilling(a: seq<nat>, b: seq<nat>, rpd: seq<nat>)
    requires |rpd| <= |a| && |rpd| <= |b| && Level(a, rpd, |rpd|) && Level(b, rpd, |rpd|)
    requires forall j :: 0 <= j < |rpd| && rpd[j] == 0 ==> a[j] <= Room(j) && b[j] <= Room(j)
    requires Filled(a, rpd, |rpd|) == Filled(b, rpd, |rpd|)
    ensures forall j :: 0 <= j < |rpd| && rpd[j] == 0 ==> a[j] == b[j]
  {
    SameSoFar(a, b, rpd, |rpd|);
  }

  lemma {:induction false} SameSoFar(a: seq<nat>, b: seq<nat>, rpd: seq<nat>, k: nat)
    requires k <= |rpd| <= |a| && |rpd| <= |b| && Level(a, rpd, |rpd|) && Level(b, rpd, |rpd|)
    requires forall j :: 0 <= j < |rpd| && rpd[j] == 0 ==> a[j] <= Room(j) && b[j] <= Room(j)
    requires Filled(a, rpd, |rpd|) == Filled(b, rpd, |rpd|)
    ensures forall j :: 0 <= j < k && rpd[j] == 0 ==> a[j] == b[j]
  {
    hide Room, Filled;
    if k > 0 {
      SameSoFar(a, b, rpd, k - 1);
      if rpd[k - 1] == 0 && a[k - 1] < b[k - 1] {
        FilledLess(a, b, rpd, k - 1, |rpd|);
      }
      if rpd[k - 1] == 0 && b[k - 1] < a[k - 1] {
        FilledLess(b, a, rpd, k - 1, |rpd|);
      }
    }
  }

  lemma {:induction false} FilledLess(a: seq<nat>, b: seq<nat>, rpd: seq<nat>, i: nat, k: nat)
    requires k <= |rpd| <= |a| && |rpd| <= |b| && i < |rpd|
    requires rpd[i] == 0 && a[i] < b[i] && forall j :: 0 <= j < k && rpd[j] == 0 ==> a[j] <= b[j]
    ensures Filled(a, rpd, k) <= Filled(b, rpd, k)
    ensures i < k ==> Filled(a, rpd, k) < Filled(b, rpd, k)
  {
    if k > 0 {
      FilledLess(a, b, rpd, i, k - 1);
    }
  }

  /** The second loop before `depth`: `left` routes are given out, and `seen` depths specified or seen. */
  ghost predicate Spread(cnt: seq<nat>, was: seq<nat>, rpd: seq<nat>, nr: nat, n: nat, depth: nat, left: nat, seen: nat)
    requires depth <= |rpd| <= |cnt| == |was| && nr <= n
  {
    var share := FairShare(n - nr, |rpd| - Specified(rpd, |rpd|));
    && (forall j :: 0 <= j < |rpd| && rpd[j] != 0 ==> cnt[j] == was[j])
    && (forall j :: 0 <= j < depth && rpd[j] == 0 ==> Min(Room(j), share) <= cnt[j] <= Room(j))
    && left == nr + Filled(cnt, rpd, depth) <= n
    && seen == Specified(rpd, |rpd|) + depth - Specified(rpd, depth) <= |rpd|
    && Level(cnt, rpd, depth) && AllLeave(cnt, rpd, depth, n - left, |rpd| - seen)
    && share * (|rpd| - seen) <= n - left
    && forall e :: 0 <= e < depth && Deepest(rpd, e) ==> left == n || cnt[e] == Room(e) < n
  }

  lemma SpreadFirst(cnt: seq<nat>, rpd: seq<nat>, nr: nat, n: nat)
    requires |rpd| <= |cnt| && nr <= n
    ensures Spread(cnt, cnt, rpd, nr, n, 0, nr, Specified(rpd, |rpd|))
  {
    NothingFilled(cnt, rpd);
  }

  /** A free depth is one still to be seen; a depth the user specified changes nothing. */
  lemma SpreadFacts(cnt: seq<nat>, was: seq<nat>, rpd: seq<nat>, nr: nat, n: nat, depth: nat, left: nat, seen: nat)
    requires depth < |rpd| <= |cnt| == |was| && nr <= n && Spread(cnt, was, rpd, nr, n, depth, left, seen)
    ensures left <= n && seen <= |rpd| && (rpd[depth] == 0 ==> seen < |rpd|)
    ensures rpd[depth] != 0 ==> Spread(cnt, was, rpd, nr, n, depth + 1, left, seen)
  {
    hide FairShare, Room, Specified, Filled, AllLeave, Level;
    NextDepth(cnt, rpd, depth);
    if rpd[depth] == 0 {
      StillUnseen(rpd, depth, |rpd|);
    } else {
      LevelSkips(cnt, rpd, depth, n - left, |rpd| - seen);
    }
  }

  lemma SpreadFree(cnt: seq<nat>, now: seq<nat>, was: seq<nat>, rpd: seq<nat>, nr: nat, n: nat, depth: nat, left: nat,
      seen: nat, taken: nat)
    requires depth < |rpd| <= |cnt| == |was| && nr <= n && Spread(cnt, was, rpd, nr, n, depth, left, seen)
    requires left <= n && seen < |rpd| && rpd[depth] == 0
    requires taken == Min(Room(depth), Average(n - left, |rpd| - seen)) && now == cnt[depth := taken]
    ensures Spread(now, was, rpd, nr, n, depth + 1, left + taken, seen + 1)
  {
    hide FairShare, Room, Specified, Filled, AllLeave, Level, Average, Deepest;
    var share := FairShare(n - nr, |rpd| - Specified(rpd, |rpd|));
    NextDepth(now, rpd, depth);
    FilledSame(cnt, now, rpd, depth);
    OthersKeepShare(n - left, |rpd| - seen, share, taken);
    StillLevel(cnt, now, rpd, depth, n - left, |rpd| - seen, taken);
    StillUnseen(rpd, depth, |rpd|);
    DeepestIs(rpd, depth);
  }

  lemma SpreadEnd(cnt: seq<nat>, was: seq<nat>, rpd: seq<nat>, nr: nat, n: nat, left: nat, seen: nat)
    requires |rpd| <= |cnt| == |was| && nr <= n < WORD && Spread(cnt, was, rpd, nr, n, |rpd|, left, seen)
    ensures forall j :: 0 <= j < |rpd| && rpd[j] != 0 ==> cnt[j] == was[j]
    ensures forall j :: 0 <= j < |rpd| && rpd[j] == 0 ==>
              Min(Pow2(Min(j, 63)), FairShare(n - nr, |rpd| - Specified(rpd, |rpd|))) <= cnt[j] <= Pow2(Min(j, 63))
    ensures forall i, j :: 0 <= i < j < |rpd| && rpd[i] == rpd[j] == 0 ==>
              cnt[i] <= cnt[j] && (cnt[i] < Pow2(Min(i, 63)) ==> cnt[j] <= cnt[i] + 1)
    ensures nr + Filled(cnt, rpd, |rpd|) <= n
    ensures nr + Filled(cnt, rpd, |rpd|) < n ==>
              forall j :: 0 <= j < |rpd| && rpd[j] == 0 ==> cnt[j] == Pow2(Min(j, 63))
    ensures forall e :: 0 <= e < |rpd| && Deepest(rpd, e) && Room(e) >= n ==> nr + Filled(cnt, rpd, |rpd|) == n
  {
    hide Room, Filled, Level, AllLeave, FairShare, Specified, Deepest, Pow2;
    LevelIs(cnt, rpd);
    if left < n {
      AllFull(cnt, rpd, n);
    }
  }

  /** Sums of 32-bit words may wrap at every step or once. */
  lemma WrapOnce(a: nat, b: nat)
    ensures (a % WORD + b) % WORD == (a + b) % WORD
  {
  }

  class Config {
    /** nb_routes_per_depth. */
    const cnt: array<nat>

    constructor (depths: nat)
      ensures cnt.Length == depths
    {
      cnt := new nat[depths](_ => 0);
    }

    /** The first loop: the depths the user specified. Both results are 32 and 8 bits wide. */
    method SetSpecified(lim: nat, n: nat, rpd: seq<nat>, nrpd: seq<nat>) returns (nr: nat, m: nat)
      requires Shape(lim, n, rpd, nrpd) && lim < cnt.Length
      modifies cnt
      ensures nr == Asked(n, rpd, nrpd, lim + 1) % WORD && m == Specified(rpd, lim + 1)
      ensures forall j :: 0 <= j <= lim && rpd[j] != 0 ==> cnt[j] == Configured(n, rpd[j], nrpd[j])
    {
      hide Ratio;
      nr, m := 0, 0;
      for depth := 0 to lim + 1
        invariant nr == Asked(n, rpd, nrpd, depth) % WORD && m == Specified(rpd, depth)
        invariant forall j :: 0 <= j < depth && rpd[j] != 0 ==> cnt[j] == Configured(n, rpd[j], nrpd[j])
      {
        if rpd[depth] != 0 {
          cnt[depth] := if rpd[depth] == ABSOLUTE then nrpd[depth] else Ratio(n, rpd[depth]);
          WrapOnce(Asked(n, rpd, nrpd, depth), cnt[depth]);
          nr := (nr + cnt[depth]) % WORD;
          m := m + 1;
        }
      }
    }

    /** The second loop: what is left goes to the other depths. */
    method FillUnspecified(lim: nat, n: nat, rpd: seq<nat>, nr: nat, m: nat)
      requires nr <= n < WORD && |rpd| == lim + 1 && lim < cnt.Length && m == Specified(rpd, lim + 1)
      modifies cnt
      ensures forall j :: 0 <= j <= lim && rpd[j] != 0 ==> cnt[j] == old(cnt[j])
      ensures forall j :: 0 <= j <= lim && rpd[j] == 0 ==> cnt[j] <= Pow2(Min(j, 63))
      ensures forall i, j :: 0 <= i < j <= lim && rpd[i] == rpd[j] == 0 ==>
                cnt[i] <= cnt[j] && (cnt[i] < Pow2(Min(i, 63)) ==> cnt[j] <= cnt[i] + 1)
      ensures nr + Filled(cnt[..], rpd, lim + 1) <= n
      ensures nr + Filled(cnt[..], rpd, lim + 1) < n ==>
                forall j :: 0 <= j <= lim && rpd[j] == 0 ==> cnt[j] == Pow2(Min(j, 63))
      ensures forall j :: 0 <= j <= lim && rpd[j] == 0 ==>
                cnt[j] >= Min(Pow2(Min(j, 63)), FairShare(n - nr, lim + 1 - m))
      ensures forall e :: 0 <= e <= lim && Deepest(rpd, e) && Room(e) >= n ==> nr + Filled(cnt[..], rpd, lim + 1) == n
    {
      hide Spread, Filled, Specified, Deepest, FairShare, Room, Pow2;
      var left, seen := nr, m;
      SpreadFirst(cnt[..], rpd, nr, n);
      for depth := 0 to lim + 1
        invariant Spread(cnt[..], old(cnt[..]), rpd, nr, n, depth, left, seen)
      {
        SpreadFacts(cnt[..], old(cnt[..]), rpd, nr, n, depth, left, seen);
        if rpd[depth] == 0 {
          var max := Shift(Min(depth, 63));
          RoomIs(depth);
          var avg := Average(n - left, lim + 1 - seen);
          seen := seen + 1;
          ghost var before := cnt[..];
          cnt[depth] := Min(max, avg);
          SpreadFree(before, cnt[..], old(cnt[..]), rpd, nr, n, depth, left, seen - 1, cnt[depth]);
          left := left + cnt[depth];
        }
      }
      SpreadEnd(cnt[..], old(cnt[..]), rpd, nr, n, left, seen);
    }

    /**
     * complete_distrib. It fails exactly when the wrapped total of the depths the user specified
     * exceeds the number of routes. When it succeeds, no free depth gets less than an equal share
     * of the rest unless it has fewer routes, nor more than it has, and the free depths with room
     * for more differ by at most one, the deeper ones having more. The routes fit the table of `n`
     * exactly when that total did not wrap, and fill it or all free depths.
     */
    method CompleteDistrib(lim: nat, n: nat, rpd: seq<nat>, nrpd: seq<nat>) returns (ok: bool)
      requires Shape(lim, n, rpd, nrpd) && lim < cnt.Length
      modifies cnt
      ensures ok <==> Asked(n, rpd, nrpd, lim + 1) % WORD <= n
      ensures forall j :: 0 <= j <= lim && rpd[j] == 255 ==> cnt[j] == nrpd[j]
      ensures forall j :: 0 <= j <= lim && 0 < rpd[j] < 255 ==> cnt[j] == n * rpd[j] % 0x1_0000_0000 / 100
      ensures forall j :: 0 <= j <= lim && rpd[j] != 0 ==> cnt[j] == Configured(n, rpd[j], nrpd[j])
      ensures ok ==> forall j :: 0 <= j <= lim && rpd[j] == 0 ==>
                cnt[j] <= Pow2(Min(j, 63))
                && cnt[j] >= Min(Pow2(Min(j, 63)),
                     FairShare(n - Asked(n, rpd, nrpd, lim + 1) % WORD, lim + 1 - Specified(rpd, lim + 1)))
      ensures ok ==> forall i, j :: 0 <= i < j <= lim && rpd[i] == rpd[j] == 0 ==>
                cnt[i] <= cnt[j] && (cnt[i] < Pow2(Min(i, 63)) ==> cnt[j] <= cnt[i] + 1)
      ensures ok && Sum(cnt[..lim + 1]) < n ==>
                forall j :: 0 <= j <= lim && rpd[j] == 0 ==> cnt[j] == Pow2(Min(j, 63))
      ensures ok ==> (Sum(cnt[..lim + 1]) <= n <==> Asked(n, rpd, nrpd, lim + 1) < WORD)
      ensures ok && Asked(n, rpd, nrpd, lim + 1) < WORD ==>
                forall e :: 32 <= e <= lim && Deepest(rpd, e) ==> Sum(cnt[..lim + 1]) == n
    {
      hide Room, Pow2, FairShare, Asked, Specified, Filled, Sum, Deepest;
      var nr, m := SetSpecified(lim, n, rpd, nrpd);
      if nr > n {
        return false;
      }
      FillUnspecified(lim, n, rpd, nr, m);
      SumSplits(n, rpd, nrpd, cnt[..], lim + 1);
      assert cnt[..][..lim + 1] == cnt[..lim + 1];
      forall e | 32 <= e <= lim ensures Room(e) >= n {
        RoomForAll(e);
      }
      return true;
    }
  }

  lemma RoomForAll(depth: nat)
    requires depth >= 32
    ensures Room(depth) >= WORD
  {
    Pow2At32();
    Pow2Le(32, Min(depth, 63));
  }

  /** Depth `e` is the deepest one the user did not specify. */
  ghost predicate Deepest(rpd: seq<nat>, e: nat)
  {
    e < |rpd| && rpd[e] == 0 && forall j :: e < j < |rpd| ==> rpd[j] != 0
  }

  /** The divisor of the second loop: unspecified depths not seen yet, one exactly at the deepest. */
  lemma {:induction false} StillUnseen(rpd: seq<nat>, depth: nat, k: nat)
    requires depth < k <= |rpd| && rpd[depth] == 0
    ensures Specified(rpd, k) - Specified(rpd, depth) < k - depth
    ensures (forall j :: depth < j < k ==> rpd[j] != 0) ==> Specified(rpd, k) - Specified(rpd, depth) == k - depth - 1
    decreases k
  {
    if k > depth + 1 {
      StillUnseen(rpd, depth, k - 1);
    }
  }

  /** The same number at the two deepest depths of IPv4. */
  function AtTheDeepest(x: nat): (s: seq<nat>)
    ensures |s| == 33 && forall j :: 0 <= j <= 32 ==> s[j] == if j < 31 then 0 else x
  {
    seq(33, j => if j < 31 then 0 else x)
  }

  lemma AskedTwice(n: nat, x: nat)
    ensures Asked(n, AtTheDeepest(ABSOLUTE), AtTheDeepest(x), 33) == 2 * x
  {
    hide AtTheDeepest;
    var rpd, nrpd := AtTheDeepest(ABSOLUTE), AtTheDeepest(x);
    AskedNothing(n, rpd, nrpd, 31);
    assert Asked(n, rpd, nrpd, 32) == x;
  }

  /** Ten routes for IPv4, of which the user asks for 2^31 at each of two depths: the check passes. */
  method WrapPasses(config: Config) returns (ok: bool)
    requires config.cnt.Length == 129
    modifies config.cnt
    ensures ok && Sum(config.cnt[..33]) > 10
  {
    AskedTwice(10, 0x8000_0000);
    ok := config.CompleteDistrib(32, 10, AtTheDeepest(ABSOLUTE), AtTheDeepest(0x8000_0000));
  }

  /** Without a distribution from the user all `n` routes are spread, and none is too many for its depth. */
  method DefaultDistribution(config: Config, lim: nat, n: nat) returns (ok: bool)
    requires lim in {32, 128} && n < WORD && config.cnt.Length == 129
    modifies config.cnt
    ensures ok && Sum(config.cnt[..lim + 1]) == n
    ensures forall j :: 0 <= j <= lim ==> config.cnt[j] <= Pow2(Min(j, 63))
    ensures forall i, j :: 0 <= i < j <= lim ==>
              config.cnt[i] <= config.cnt[j]
              && (config.cnt[i] < Pow2(Min(i, 63)) ==> config.cnt[j] <= config.cnt[i] + 1)
  {
    hide Pow2;
    var none := seq(lim + 1, _ => 0);
    AskedNothing(n, none, none, lim + 1);
    ok := config.CompleteDistrib(lim, n, none, none);
    assert Deepest(none, lim);
  }

  lemma {:induction false} AskedNothing(n: nat, rpd: seq<nat>, nrpd: seq<nat>, k: nat)
    requires k <= |rpd| == |nrpd| && forall j :: 0 <= j < k ==> rpd[j] == 0
    ensures Asked(n, rpd, nrpd, k) == 0
  {
    if k > 0 {
      AskedNothing(n, rpd, nrpd, k - 1);
    }
  }
}
